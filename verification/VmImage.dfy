/** The VM image that build_image of linux_usr/v3_create.c lays out. */
module VmImage {
  import opened Bytes

  // ----- machine words in memory -----

  /** The low k bytes of v, lowest first. */
  function Le(v: nat, k: nat): (b: seq<Byte>)
    ensures |b| == k
  {
    if k == 0 then [] else [v % 256] + Le(v / 256, k - 1)
  }

  /** Four and eight bytes as a number. */
  function U32(b: seq<Byte>, at: nat): nat
    requires at + 4 <= |b|
  {
    b[at] as int + 0x100 * b[at + 1] as int + 0x1_0000 * b[at + 2] as int + 0x100_0000 * b[at + 3] as int
  }

  function U64(b: seq<Byte>, at: nat): nat
    requires at + 8 <= |b|
  {
    U32(b, at) + 0x1_0000_0000 * U32(b, at + 4)
  }

  lemma Le4(v: nat)
    ensures Le(v, 4) == [v % 256, v / 256 % 256, v / 0x1_0000 % 256, v / 0x100_0000 % 256]
  {
    var b := v / 256;
    var c := b / 256;
    var d := c / 256;
    assert c == v / 0x1_0000 && d == v / 0x100_0000;
    assert Le(d, 1) == [d % 256] + Le(d / 256, 0);
    assert Le(c, 2) == [c % 256] + Le(d, 1);
    assert Le(b, 3) == [b % 256] + Le(c, 2);
    assert Le(v, 4) == [v % 256] + Le(b, 3);
  }

  lemma Le8(v: nat)
    ensures Le(v, 8) == Le(v, 4) + Le(v / 0x1_0000_0000, 4)
  {
    hide Le;
    var b := v / 256;
    var c := b / 256;
    var d := c / 256;
    LeStep(v, 7);
    LeStep(b, 6);
    LeStep(c, 5);
    LeStep(d, 4);
    LeStep(v, 3);
    LeStep(b, 2);
    LeStep(c, 1);
    LeStep(d, 0);
    assert d / 256 == v / 0x1_0000_0000;
    assert Le(d / 256, 0) == [];
  }

  lemma LeStep(v: nat, k: nat)
    ensures Le(v, k + 1) == [v % 256] + Le(v / 256, k)
  {
  }

  // ----- the layout -----

  const MAGIC: seq<Byte> := ['v' as int, '3' as int, 'v' as int, 'e' as int, 'e' as int, 0, 0, 0]
  const ZEROS8: seq<Byte> := [0, 0, 0, 0, 0, 0, 0, 0]

  function Sum(files: seq<seq<Byte>>, i: nat): nat
    requires i <= |files|
  {
    if i == 0 then 0 else Sum(files, i - 1) + |files[i - 1]|
  }

  /** Where the list of file headers starts, and where the file data starts. */
  function ListAt(xml: seq<Byte>): nat {
    8 + 4 + |xml| + 8 + 8
  }

  function DataAt(xml: seq<Byte>, n: nat): nat {
    ListAt(xml) + 16 * n + 8
  }

  function Header(xml: seq<Byte>, files: seq<seq<Byte>>, i: nat): (h: seq<Byte>)
    requires i < |files|
    ensures |h| == 16
  {
    Le(i, 4) + Le(|files[i]|, 4) + Le(DataAt(xml, |files|) + Sum(files, i), 8)
  }

  function Headers(xml: seq<Byte>, files: seq<seq<Byte>>, i: nat): (h: seq<Byte>)
    requires i <= |files|
    ensures |h| == 16 * i
  {
    if i == 0 then [] else Headers(xml, files, i - 1) + Header(xml, files, i - 1)
  }

  function Blobs(files: seq<seq<Byte>>, i: nat): (b: seq<Byte>)
    requires i <= |files|
    ensures |b| == Sum(files, i)
  {
    if i == 0 then [] else Blobs(files, i - 1) + files[i - 1]
  }

  function Front(xml: seq<Byte>, n: nat): (f: seq<Byte>)
    ensures |f| == ListAt(xml)
  {
    MAGIC + Le(|xml|, 4) + xml + ZEROS8 + Le(n, 8)
  }

  function Image(xml: seq<Byte>, files: seq<seq<Byte>>): (img: seq<Byte>)
    ensures |img| == DataAt(xml, |files|) + Sum(files, |files|)
  {
    Front(xml, |files|) + Headers(xml, files, |files|) + ZEROS8 + Blobs(files, |files|)
  }

  // ----- reading an image back -----

  /** One header of the list. */
  datatype Slot = Slot(index: nat, size: nat, offset: nat)

  function ReadSlot(img: seq<Byte>, at: nat): Slot
    requires at + 16 <= |img|
  {
    Slot(U32(img, at), U32(img, at + 4), U64(img, at + 8))
  }

  /** The first n files that a list of headers at `list` selects, if they are numbered in order and lie in the image. */
  function ReadFiles(img: seq<Byte>, list: nat, n: nat): (r: Option<seq<seq<Byte>>>)
    requires list + 16 * n <= |img|
    ensures r.Some? ==> |r.value| == n
  {
    if n == 0 then Some([])
    else
      var s := ReadSlot(img, list + 16 * (n - 1));
      match ReadFiles(img, list, n - 1)
      case None => None
      case Some(fs) =>
        if s.index == n - 1 && s.offset + s.size <= |img| then Some(fs + [img[s.offset..s.offset + s.size]]) else None
  }

  /** A reader that trusts nothing: "v3vee" and three zeros, the XML behind its length, eight zeros, the number of files,
      their headers, eight zeros; then the files where the headers say. */
  function ReadImage(img: seq<Byte>): Option<(seq<Byte>, seq<seq<Byte>>)> {
    if |img| < 12 || img[..8] != [0x76, 0x33, 0x76, 0x65, 0x65, 0, 0, 0] then None
    else
      var n := U32(img, 8);
      if |img| < 28 + n || img[12 + n..20 + n] != [0, 0, 0, 0, 0, 0, 0, 0] then None
      else
        var count, list := U64(img, 20 + n), 28 + n;
        if |img| < list + 16 * count + 8
           || img[list + 16 * count..list + 16 * count + 8] != [0, 0, 0, 0, 0, 0, 0, 0] then None
        else
          match ReadFiles(img, list, count)
          case None => None
          case Some(files) => Some((img[12..12 + n], files))
  }

  /** A part of the image that stands at a known place. */
  ghost predicate Holds(img: seq<Byte>, at: nat, part: seq<Byte>) {
    at + |part| <= |img| && img[at..at + |part|] == part
  }

  lemma HoldsIn(img: seq<Byte>, at: nat, part: seq<Byte>, from: nat, inner: seq<Byte>)
    requires Holds(img, at, part) && Holds(part, from, inner)
    ensures Holds(img, at + from, inner)
  {
    var x := img[at + from..at + from + |inner|];
    forall k | 0 <= k < |inner| ensures x[k] == inner[k] {
      assert img[at..at + |part|][from + k] == part[from + k];
      assert part[from..from + |inner|][k] == inner[k];
    }
  }

  lemma Digits(v: nat)
    requires v < 0x1_0000_0000
    ensures v == v % 256 + 0x100 * (v / 256 % 256) + 0x1_0000 * (v / 0x1_0000 % 256) + 0x100_0000 * (v / 0x100_0000 % 256)
  {
    assert v / 0x1_0000 == v / 256 / 256 && v / 0x100_0000 == v / 0x1_0000 / 256 < 256;
  }

  lemma U32Is(img: seq<Byte>, at: nat, v: nat)
    requires Holds(img, at, Le(v, 4)) && v < 0x1_0000_0000
    ensures U32(img, at) == v
  {
    Le4(v);
    Digits(v);
    hide Le;
    var x := img[at..at + 4];
    assert x[0] == img[at] && x[1] == img[at + 1] && x[2] == img[at + 2] && x[3] == img[at + 3];
  }

  lemma U64Is(img: seq<Byte>, at: nat, v: nat)
    requires Holds(img, at, Le(v, 8)) && v < 0x1_0000_0000_0000_0000
    ensures U64(img, at) == v
  {
    hide Le, U32;
    Le8(v);
    var low, high := v % 0x1_0000_0000, v / 0x1_0000_0000;
    LowFour(v);
    assert Holds(Le(v, 8), 0, Le(low, 4)) && Holds(Le(v, 8), 4, Le(high, 4));
    HoldsIn(img, at, Le(v, 8), 0, Le(low, 4));
    HoldsIn(img, at, Le(v, 8), 4, Le(high, 4));
    U32Is(img, at, low);
    U32Is(img, at + 4, high);
  }

  lemma Wraps(q: nat, a: nat)
    ensures (q * 256 + a) % 256 == a % 256
  {
  }

  lemma LowFour(v: nat)
    ensures Le(v % 0x1_0000_0000, 4) == Le(v, 4)
  {
    hide Le;
    var q, low := v / 0x1_0000_0000, v % 0x1_0000_0000;
    Le4(v);
    Le4(low);
    Quotients(v, q, low);
    Wraps(q * 0x100_0000, low);
    Wraps(q * 0x1_0000, low / 256);
    Wraps(q * 0x100, low / 0x1_0000);
    Wraps(q, low / 0x100_0000);
  }

  lemma Quotients(v: nat, q: nat, low: nat)
    requires v == q * 0x1_0000_0000 + low
    ensures v / 256 == q * 0x100_0000 + low / 256
    ensures v / 0x1_0000 == q * 0x1_0000 + low / 0x1_0000
    ensures v / 0x100_0000 == q * 0x100 + low / 0x100_0000
  {
  }

  lemma FourParts(f: seq<Byte>, h: seq<Byte>, z: seq<Byte>, b: seq<Byte>)
    ensures Holds(f + h + z + b, 0, f) && Holds(f + h + z + b, |f|, h) &&
            Holds(f + h + z + b, |f| + |h|, z) && Holds(f + h + z + b, |f| + |h| + |z|, b)
  {
  }

  lemma Parts(xml: seq<Byte>, files: seq<seq<Byte>>)
    ensures var (img, n) := (Image(xml, files), |files|);
            Holds(img, 0, MAGIC) && Holds(img, 8, Le(|xml|, 4)) && Holds(img, 12, xml) &&
            Holds(img, 12 + |xml|, ZEROS8) && Holds(img, ListAt(xml) - 8, Le(n, 8)) &&
            Holds(img, ListAt(xml), Headers(xml, files, n)) && Holds(img, ListAt(xml) + 16 * n, ZEROS8) &&
            Holds(img, DataAt(xml, n), Blobs(files, n))
  {
    var img, n := Image(xml, files), |files|;
    var f, h, b := Front(xml, n), Headers(xml, files, n), Blobs(files, n);
    var l, c := Le(|xml|, 4), Le(n, 8);
    FourParts(f, h, ZEROS8, b);
    hide Front, Headers, Blobs, Le, Holds, Image;
    FrontParts(xml, n);
    HoldsIn(img, 0, f, 0, MAGIC);
    HoldsIn(img, 0, f, 12 + |xml|, ZEROS8);
    HoldsIn(img, 0, f, 8, l);
    HoldsIn(img, 0, f, 12, xml);
    HoldsIn(img, 0, f, ListAt(xml) - 8, c);
  }

  lemma FrontParts(xml: seq<Byte>, n: nat)
    ensures var f := Front(xml, n);
            Holds(f, 0, MAGIC) && Holds(f, 8, Le(|xml|, 4)) && Holds(f, 12, xml) &&
            Holds(f, 12 + |xml|, ZEROS8) && Holds(f, ListAt(xml) - 8, Le(n, 8))
  {
    hide Holds, Le;
    FiveParts(MAGIC, Le(|xml|, 4), xml, ZEROS8, Le(n, 8));
  }

  lemma FiveParts(a: seq<Byte>, b: seq<Byte>, c: seq<Byte>, d: seq<Byte>, e: seq<Byte>)
    ensures var f := a + b + c + d + e;
            Holds(f, 0, a) && Holds(f, |a|, b) && Holds(f, |a| + |b|, c) &&
            Holds(f, |a| + |b| + |c|, d) && Holds(f, |a| + |b| + |c| + |d|, e)
  {
    var f := a + b + c + d + e;
    assert f[..|a|] == a;
    assert f[|a|..|a| + |b|] == b;
    assert f[|a| + |b|..|a| + |b| + |c|] == c;
    assert f[|a| + |b| + |c|..|a| + |b| + |c| + |d|] == d;
    assert f[|a| + |b| + |c| + |d|..] == e;
  }

  lemma {:induction false} HeaderAt(xml: seq<Byte>, files: seq<seq<Byte>>, n: nat, i: nat)
    requires i < n <= |files|
    ensures Holds(Headers(xml, files, n), 16 * i, Header(xml, files, i))
    decreases n
  {
    hide Header;
    if i < n - 1 {
      HeaderAt(xml, files, n - 1, i);
    }
  }

  lemma {:induction false} BlobAt(files: seq<seq<Byte>>, n: nat, i: nat)
    requires i < n <= |files|
    ensures Sum(files, i) + |files[i]| <= Sum(files, n) && Holds(Blobs(files, n), Sum(files, i), files[i])
    decreases n
  {
    if i < n - 1 {
      BlobAt(files, n - 1, i);
    }
  }

  lemma HeaderParts(xml: seq<Byte>, files: seq<seq<Byte>>, i: nat)
    requires i < |files|
    ensures var h := Header(xml, files, i);
            Holds(h, 0, Le(i, 4)) && Holds(h, 4, Le(|files[i]|, 4)) &&
            Holds(h, 8, Le(DataAt(xml, |files|) + Sum(files, i), 8))
  {
  }

  /** What stands before the file data, byte by byte: the marks, the lengths, the XML and the headers. */
  ghost predicate FrontIs(b: seq<Byte>, xml: seq<Byte>, files: seq<seq<Byte>>) {
    var n, list := |files|, 28 + |xml|;
    && |b| >= list + 16 * n + 8
    && b[..8] == ['v' as int, '3' as int, 'v' as int, 'e' as int, 'e' as int, 0, 0, 0]
    && U32(b, 8) == |xml|
    && b[12..12 + |xml|] == xml
    && b[12 + |xml|..20 + |xml|] == [0, 0, 0, 0, 0, 0, 0, 0]
    && U64(b, 20 + |xml|) == n
    && b[list + 16 * n..list + 16 * n + 8] == [0, 0, 0, 0, 0, 0, 0, 0]
    && forall i :: 0 <= i < n ==>
         ReadSlot(b, list + 16 * i) == Slot(i, |files[i]|, list + 16 * n + 8 + Sum(files, i))
  }

  lemma SlotIs(img: seq<Byte>, xml: seq<Byte>, files: seq<seq<Byte>>, i: nat)
    requires img == Image(xml, files) && |img| < 0x8000_0000 && i < |files|
    ensures ReadSlot(img, 28 + |xml| + 16 * i) == Slot(i, |files[i]|, 36 + |xml| + 16 * |files| + Sum(files, i))
    ensures Holds(img, 36 + |xml| + 16 * |files| + Sum(files, i), files[i])
  {
    hide Image, Headers, Header, Blobs, Le, Sum, U32, U64, Holds;
    var n, list := |files|, ListAt(xml);
    var h := Header(xml, files, i);
    var offset := DataAt(xml, n) + Sum(files, i);
    Parts(xml, files);
    HeaderAt(xml, files, n, i);
    HeaderParts(xml, files, i);
    BlobAt(files, n, i);
    SumBound(files, i);
    HoldsIn(img, list, Headers(xml, files, n), 16 * i, h);
    HoldsIn(img, list + 16 * i, h, 0, Le(i, 4));
    HoldsIn(img, list + 16 * i, h, 4, Le(|files[i]|, 4));
    HoldsIn(img, list + 16 * i, h, 8, Le(offset, 8));
    U32Is(img, list + 16 * i, i);
    U32Is(img, list + 16 * i + 4, |files[i]|);
    U64Is(img, list + 16 * i + 8, offset);
    HoldsIn(img, DataAt(xml, n), Blobs(files, n), Sum(files, i), files[i]);
  }

  lemma ImageFrontIs(xml: seq<Byte>, files: seq<seq<Byte>>)
    requires |Image(xml, files)| < 0x8000_0000
    ensures FrontIs(Image(xml, files), xml, files)
  {
    hide Image, Headers, Header, Blobs, Le, Sum, U32, U64, ReadSlot;
    var img, n := Image(xml, files), |files|;
    Parts(xml, files);
    U32Is(img, 8, |xml|);
    U64Is(img, 20 + |xml|, n);
    forall i | 0 <= i < n
      ensures ReadSlot(img, 28 + |xml| + 16 * i) == Slot(i, |files[i]|, 36 + |xml| + 16 * n + Sum(files, i))
    {
      SlotIs(img, xml, files, i);
    }
  }

  lemma {:induction false} FilesAre(img: seq<Byte>, xml: seq<Byte>, files: seq<seq<Byte>>, n: nat)
    requires img == Image(xml, files) && |img| < 0x8000_0000 && n <= |files|
    ensures ReadFiles(img, 28 + |xml|, n) == Some(files[..n])
    decreases n
  {
    hide Image, Sum, ReadSlot;
    if n > 0 {
      FilesAre(img, xml, files, n - 1);
      SlotIs(img, xml, files, n - 1);
      assert files[..n] == files[..n - 1] + [files[n - 1]];
    }
  }

  /** A reader recovers the XML and every file. */
  lemma ReaderRecovers(xml: seq<Byte>, files: seq<seq<Byte>>)
    requires |Image(xml, files)| < 0x8000_0000
    ensures ReadImage(Image(xml, files)) == Some((xml, files))
  {
    hide Image, Sum, ReadSlot, ReadFiles, U32, U64;
    ImageFrontIs(xml, files);
    FilesAre(Image(xml, files), xml, files, |files|);
    assert files[..|files|] == files;
  }

  /** The places of the marks. */
  predicate IsMark(k: nat, xml: nat, n: nat) {
    k < 8 || 12 + xml <= k < 20 + xml || 28 + xml + 16 * n <= k < 36 + xml + 16 * n
  }

  /** And it refuses an image in which one of the marks is another byte. */
  lemma MarksMatter(xml: seq<Byte>, files: seq<seq<Byte>>, k: nat, x: Byte)
    requires |Image(xml, files)| < 0x8000_0000 && IsMark(k, |xml|, |files|) && k < |Image(xml, files)|
    requires Image(xml, files)[k] != x
    ensures ReadImage(Image(xml, files)[k := x]) == None
  {
    hide Image, Sum;
    ImageFrontIs(xml, files);
    var img := Image(xml, files);
    if k < 8 {
      FirstMark(img, k, x);
    } else if k < 20 + |xml| {
      SecondMark(img, |xml|, k, x);
    } else {
      LastMark(img, |xml|, |files|, k, x);
    }
  }

  lemma FirstMark(img: seq<Byte>, k: nat, x: Byte)
    requires |img| >= 12 && img[..8] == [0x76, 0x33, 0x76, 0x65, 0x65, 0, 0, 0] && k < 8 && img[k] != x
    ensures ReadImage(img[k := x]) == None
  {
    hide U32, U64, ReadFiles;
    assert img[k := x][..8][k] != img[..8][k];
  }

  lemma SecondMark(img: seq<Byte>, n: nat, k: nat, x: Byte)
    requires |img| >= 28 + n && U32(img, 8) == n && img[12 + n..20 + n] == [0, 0, 0, 0, 0, 0, 0, 0]
    requires 12 + n <= k < 20 + n && img[k] != x
    ensures ReadImage(img[k := x]) == None
  {
    var bad := img[k := x];
    assert U32(bad, 8) == n;
    hide U32, U64, ReadFiles;
    Differ(img, 12 + n, k, x);
  }

  lemma LastMark(img: seq<Byte>, n: nat, count: nat, k: nat, x: Byte)
    requires |img| >= 36 + n + 16 * count && U32(img, 8) == n && U64(img, 20 + n) == count
    requires var at := 28 + n + 16 * count;
             img[at..at + 8] == [0, 0, 0, 0, 0, 0, 0, 0] && at <= k < at + 8 && img[k] != x
    ensures ReadImage(img[k := x]) == None
  {
    hide U32, U64, ReadFiles;
    var bad, at := img[k := x], 28 + n + 16 * count;
    SameNumbers(img, bad, n);
    Differ(img, at, k, x);
  }

  lemma Differ(img: seq<Byte>, at: nat, k: nat, x: Byte)
    requires at + 8 <= |img| && at <= k < at + 8 && img[k] != x
    ensures img[k := x][at..at + 8] != img[at..at + 8]
  {
    assert img[k := x][at..at + 8][k - at] != img[at..at + 8][k - at];
  }

  lemma SameNumbers(a: seq<Byte>, b: seq<Byte>, n: nat)
    requires |a| == |b| >= 28 + n && forall j :: 0 <= j < 28 + n ==> a[j] == b[j]
    ensures U32(a, 8) == U32(b, 8) && U64(a, 20 + n) == U64(b, 20 + n)
  {
    }

  /** The file regions come after the list, do not overlap, and end with the image. */
  lemma {:induction false} RegionsAreDisjoint(xml: seq<Byte>, files: seq<seq<Byte>>, i: nat, j: nat)
    requires i < j <= |files|
    ensures ListAt(xml) + 16 * |files| <= DataAt(xml, |files|) + Sum(files, i)
    ensures Sum(files, i) + |files[i]| <= Sum(files, j)
    ensures DataAt(xml, |files|) + Sum(files, |files|) == |Image(xml, files)|
    decreases j
  {
    if i < j - 1 {
      RegionsAreDisjoint(xml, files, i, j - 1);
    }
  }

  // ----- the code -----

  /** Bytes written at an offset; the image up to there and with them. */
  method Poke(img: array<Byte>, at: nat, data: seq<Byte>) returns (next: nat)
    requires at + |data| <= img.Length
    modifies img
    ensures next == at + |data| && img[..next] == old(img[..at]) + data
  {
    forall k | 0 <= k < |data| {
      img[at + k] := data[k];
    }
    next := at + |data|;
  }

  /** read_file: call c of read answers with a number of bytes, an error, or the end of the file. */
  method ReadFile(img: array<Byte>, at: nat, size: nat, content: seq<Byte>, answers: nat -> int)
      returns (ret: int, calls: nat)
    requires at + size <= img.Length
    modifies img
    ensures img[..at] == old(img[..at]) && ret in {0, -1}
    ensures ret == 0 <==> size <= |content| && forall c :: 0 <= c < calls ==> answers(c) > 0
    ensures ret == 0 ==> img[..at + size] == old(img[..at]) + content[..size]
  {
    var left, have := size, 0;
    calls := 0;
    assert content[..0] == [];
    while left != 0
      invariant 0 <= left && have + left == size && have <= |content| && img[..at] == old(img[..at])
      invariant img[..at + have] == old(img[..at]) + content[..have]
      invariant forall c :: 0 <= c < calls ==> answers(c) > 0
      decreases left
    {
      var rest := |content| - have;
      var bytes := if answers(calls) < left then answers(calls) else left;
      bytes := if bytes < rest then bytes else rest;
      calls := calls + 1;
      if bytes <= 0 {
        break;
      }
      ghost var before := img[..at + have];
      var next := Poke(img, at + have, content[have..have + bytes]);
      assert before[..at] == img[..at];
      assert content[..have] + content[have..have + bytes] == content[..have + bytes];
      have := have + bytes;
      left := left - bytes;
    }
    ret := if left != 0 then -1 else 0;
  }

  /** One entry of the file list. */
  method WriteHeader(img: array<Byte>, at: nat, index: nat, size: nat, fileOffset: nat) returns (next: nat)
    requires at + 16 <= img.Length
    modifies img
    ensures next == at + 16 && img[..next] == old(img[..at]) + (Le(index, 4) + Le(size, 4) + Le(fileOffset, 8))
  {
    hide Le;
    next := Poke(img, at, Le(index, 4));
    next := Poke(img, next, Le(size, 4));
    next := Poke(img, next, Le(fileOffset, 8));
  }

  /** The file list, one header a round. */
  method WriteHeaders(img: array<Byte>, xml: seq<Byte>, files: seq<seq<Byte>>) returns (offset: nat)
    requires img.Length == |Image(xml, files)|
    modifies img
    ensures offset == ListAt(xml) + 16 * |files|
    ensures img[..offset] == old(img[..ListAt(xml)]) + Headers(xml, files, |files|)
  {
    hide Header, Image, Le;
    offset := ListAt(xml);
    var fileOffset, i := offset + 16 * |files| + 8, 0;
    ghost var front := img[..offset];
    while i < |files|
      invariant i <= |files| && offset == ListAt(xml) + 16 * i && fileOffset == DataAt(xml, |files|) + Sum(files, i)
      invariant img[..offset] == front + Headers(xml, files, i)
    {
      HeaderIs(xml, files, i);
      offset := WriteHeader(img, offset, i, |files[i]|, fileOffset);
      fileOffset := fileOffset + |files[i]|;
      i := i + 1;
    }
  }

  lemma HeaderIs(xml: seq<Byte>, files: seq<seq<Byte>>, i: nat)
    requires i < |files|
    ensures Header(xml, files, i) == Le(i, 4) + Le(|files[i]|, 4) + Le(DataAt(xml, |files|) + Sum(files, i), 8)
  {
  }

  lemma SumBound(files: seq<seq<Byte>>, i: nat)
    requires i < |files|
    ensures Sum(files, i) + |files[i]| <= Sum(files, |files|)
  {
    BlobAt(files, |files|, i);
  }

  /** Some call of read on some file failed, or ended its file early; `calls` counts the calls made on each file. */
  ghost predicate Refused(calls: seq<nat>, answers: (nat, nat) -> int) {
    exists i: nat, c: nat :: i < |calls| && c < calls[i] && answers(i, c) <= 0
  }

  lemma NoneRefused(answers: (nat, nat) -> int)
    ensures !Refused([], answers)
  {
  }

  /** The calls on one more file. */
  lemma RefusedMore(calls: seq<nat>, more: nat, answers: (nat, nat) -> int)
    ensures Refused(calls + [more], answers) <==>
            Refused(calls, answers) || exists c: nat :: c < more && answers(|calls|, c) <= 0
  {
    var calls' := calls + [more];
    if i: nat, c: nat :| i < |calls| && c < calls[i] && answers(i, c) <= 0 {
      assert calls'[i] == calls[i];
    }
    if c: nat :| c < more && answers(|calls|, c) <= 0 {
      assert calls'[|calls|] == more;
    }
    if i: nat, c: nat :| i < |calls'| && c < calls'[i] && answers(i, c) <= 0 {
      if i < |calls| {
        assert calls'[i] == calls[i];
      }
    }
  }

  method WriteFile(img: array<Byte>, at: nat, files: seq<seq<Byte>>, i: nat, answers: (nat, nat) -> int)
    returns (ret: int, calls: nat)
    requires i < |files| && at + |files[i]| <= img.Length
    modifies img
    ensures img[..at] == old(img[..at])
    ensures ret == 0 ==> img[..at + |files[i]|] == old(img[..at]) + files[i]
    ensures ret == 0 <==> !exists c: nat :: c < calls && answers(i, c) <= 0
  {
    var mine := (c: nat) => answers(i, c);
    ret, calls := ReadFile(img, at, |files[i]|, files[i], mine);
    assert files[i][..|files[i]|] == files[i];
    assert forall c: nat :: c < calls ==> mine(c) == answers(i, c);
  }

  lemma BlobsAre(files: seq<seq<Byte>>, i: nat)
    ensures Sum(files, 0) == 0 && Blobs(files, 0) == []
    ensures i < |files| ==>
              Sum(files, i + 1) == Sum(files, i) + |files[i]| && Blobs(files, i + 1) == Blobs(files, i) + files[i]
  {
  }

  /** The file data, one file a round.  The result of read_file is not looked at; `complete` tells what it was. */
  method WriteFiles(img: array<Byte>, base: nat, files: seq<seq<Byte>>, canOpen: nat -> bool, answers: (nat, nat) -> int)
    returns (ok: bool, complete: bool, calls: seq<nat>)
    requires img.Length == base + Sum(files, |files|)
    modifies img
    ensures ok <==> forall i :: 0 <= i < |files| ==> canOpen(i)
    ensures img[..base] == old(img[..base]) && (ok ==> |calls| == |files|)
    ensures ok && complete ==> img[..] == old(img[..base]) + Blobs(files, |files|)
    ensures complete <==> !Refused(calls, answers)
  {
    hide Refused, Blobs, Sum;
    BlobsAre(files, 0);
    var offset: nat, i: nat := base, 0;
    ghost var front := img[..base];
    complete, calls := true, [];
    NoneRefused(answers);
    while i < |files|
      invariant i <= |files| && offset == base + Sum(files, i) <= img.Length && |calls| == i
      invariant forall k :: 0 <= k < i ==> canOpen(k)
      invariant img[..base] == front
      invariant complete ==> img[..offset] == front + Blobs(files, i)
      invariant complete <==> !Refused(calls, answers)
    {
      if !canOpen(i) {
        return false, complete, calls;
      }
      SumBound(files, i);
      BlobsAre(files, i);
      ghost var before := img[..offset];
      var ret, made := WriteFile(img, offset, files, i, answers);
      assert before[..base] == img[..offset][..base] == img[..base];
      assert front + Blobs(files, i) + files[i] == front + (Blobs(files, i) + files[i]);
      RefusedMore(calls, made, answers);
      if ret != 0 {
        complete := false;
      }
      calls := calls + [made];
      offset := offset + |files[i]|;
      i := i + 1;
    }
    ok := true;
    assert img[..] == img[..offset];
  }

  /** The words and the XML before the file list. */
  method WriteFront(img: array<Byte>, xml: seq<Byte>, n: nat) returns (offset: nat)
    requires img.Length >= ListAt(xml)
    modifies img
    ensures offset == ListAt(xml) && img[..offset] == Front(xml, n)
  {
    hide Le;
    offset := Poke(img, 0, MAGIC);
    offset := Poke(img, offset, Le(|xml|, 4));
    offset := Poke(img, offset, xml);
    offset := Poke(img, offset, ZEROS8);
    offset := Poke(img, offset, Le(n, 8));
  }

  /** The front depends on nothing behind it. */
  lemma FrontKept(b: seq<Byte>, xml: seq<Byte>, files: seq<seq<Byte>>)
    requires |Image(xml, files)| < 0x8000_0000 && |b| == |Image(xml, files)|
    requires b[..DataAt(xml, |files|)] == Image(xml, files)[..DataAt(xml, |files|)]
    ensures FrontIs(b, xml, files)
  {
    hide Image, Sum;
    ImageFrontIs(xml, files);
    var img, n := Image(xml, files), DataAt(xml, |files|);
    assert forall k :: 0 <= k < n ==> b[k] == b[..n][k] == img[..n][k] == img[k];
  }

  /** build_image, from the printed XML on, for images whose size fits in an int.  Null if a file cannot be opened. */
  method BuildImage(xml: seq<Byte>, files: seq<seq<Byte>>, canOpen: nat -> bool, answers: (nat, nat) -> int)
    returns (img: array?<Byte>, complete: bool, calls: seq<nat>)
    requires |files| <= 256 && |Image(xml, files)| < 0x8000_0000
    ensures img != null <==> forall i :: 0 <= i < |files| ==> canOpen(i)
    ensures img != null ==> fresh(img) && img.Length == |Image(xml, files)|
    ensures img != null ==> img[..DataAt(xml, |files|)] == Image(xml, files)[..DataAt(xml, |files|)]
    ensures img != null ==> FrontIs(img[..], xml, files)
    ensures img != null && complete ==> img[..] == Image(xml, files) && ReadImage(img[..]) == Some((xml, files))
    ensures complete <==> !Refused(calls, answers)
  {
    hide Front, Headers, Blobs;
    var fileDataSize, i := 0, 0;
    while i < |files|
      invariant i <= |files| && fileDataSize == Sum(files, i)
    {
      fileDataSize := fileDataSize + |files[i]|;
      i := i + 1;
    }
    var size := 8 + 4 + |xml| + 8 + 8 + |files| * 16 + 8 + fileDataSize;
    var data := new Byte[size](_ => 0);
    var offset := WriteFront(data, xml, |files|);
    offset := WriteHeaders(data, xml, files);
    offset := Poke(data, offset, ZEROS8);
    var ok;
    ok, complete, calls := WriteFiles(data, offset, files, canOpen, answers);
    img := if ok then data else null;
    if ok {
      FrontKept(data[..], xml, files);
      ReaderRecovers(xml, files);
    }
  }
}
