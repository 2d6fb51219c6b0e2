/** The UTF-16 to UTF-8 transcoder ezxml_str2utf8, and the multi-byte encoder it shares with ezxml_decode. */
module Utf8 {
  import opened Bytes

  // ----- the encoder of the code -----

  function Pow2(n: nat): (p: nat)
    ensures p > 0
  {
    if n == 0 then 1 else 2 * Pow2(n - 1)
  }

  /** x | y */
  function OrBits(x: nat, y: nat): nat
    decreases x
  {
    if x == 0 then y else 2 * OrBits(x / 2, y / 2) + if x % 2 == 1 || y % 2 == 1 then 1 else 0
  }

  lemma {:induction false} OrBound(x: nat, y: nat, n: nat)
    requires x < Pow2(n) && y < Pow2(n)
    ensures OrBits(x, y) < Pow2(n)
    decreases n
  {
    if n > 0 && x > 0 {
      OrBound(x / 2, y / 2, n - 1);
    }
  }

  function Or(x: Byte, y: Byte): Byte {
    assert Pow2(8) == 256;
    OrBound(x, y, 8);
    OrBits(x, y)
  }

  /** The loop that counts the bits of c. */
  function BitCount(c: nat): nat {
    if c == 0 then 0 else 1 + BitCount(c / 2)
  }

  /** c >> (6 * n) */
  function Sixes(c: nat, n: nat): nat {
    if n == 0 then c else Sixes(c / 64, n - 1)
  }

  /** 0xFF << (7 - b), cut to a byte; the C expression has no value for b > 7. */
  function Head(b: nat): Byte {
    match b
    case 0 => 0x80
    case 1 => 0xC0
    case 2 => 0xE0
    case 3 => 0xF0
    case 4 => 0xF8
    case 5 => 0xFC
    case 6 => 0xFE
    case _ => 0xFF
  }

  /** The payload bytes for the low 6 * b bits, highest first. */
  function Payload(c: nat, b: nat): seq<Byte> {
    if b == 0 then [] else [Or(0x80, Sixes(c, b - 1) % 64)] + Payload(c, b - 1)
  }

  function PayloadBytes(c: nat): nat {
    var n := BitCount(c);
    if n < 2 then 0 else (n - 2) / 5
  }

  function Multibyte(c: nat, b: nat): seq<Byte> {
    [Or(Head(b), Sixes(c, b) % 256)] + Payload(c, b)
  }

  function Encode(c: nat): seq<Byte> {
    if c < 0x80 then [c] else Multibyte(c, PayloadBytes(c))
  }

  // ----- section 3 of RFC 3629 -----

  function Rfc3629(c: nat): seq<Byte>
    requires c < 0x11_0000
  {
    if c < 0x80 then [c]
    else if c < 0x800 then [0xC0 + c / 0x40, 0x80 + c % 0x40]
    else if c < 0x1_0000 then [0xE0 + c / 0x1000, 0x80 + c / 0x40 % 0x40, 0x80 + c % 0x40]
    else [0xF0 + c / 0x4_0000, 0x80 + c / 0x1000 % 0x40, 0x80 + c / 0x40 % 0x40, 0x80 + c % 0x40]
  }

  lemma {:induction false} BitCountBounds(c: nat, n: nat)
    ensures BitCount(c) <= n <==> c < Pow2(n)
    decreases n
  {
    if n > 0 && c > 0 {
      BitCountBounds(c / 2, n - 1);
    }
  }

  /** The bit-counting rule picks the length the ranges of the RFC give. */
  lemma PayloadLength(c: nat)
    requires 0x80 <= c < 0x11_0000
    ensures PayloadBytes(c) == if c < 0x800 then 1 else if c < 0x1_0000 then 2 else 3
  {
    assert Pow2(7) == 0x80 && Pow2(11) == 0x800 && Pow2(16) == 0x1_0000 && Pow2(21) == 0x20_0000;
    BitCountBounds(c, 7);
    BitCountBounds(c, 11);
    BitCountBounds(c, 16);
    BitCountBounds(c, 21);
  }

  function Shl(x: nat, k: nat): nat {
    if k == 0 then x else 2 * Shl(x, k - 1)
  }

  lemma {:induction false} OrZero(x: nat)
    ensures OrBits(x, 0) == x
    decreases x
  {
    if x > 0 {
      OrZero(x / 2);
    }
  }

  /** Without a common bit, an or is a sum. */
  lemma {:induction false} OrIsSum(x: nat, y: nat, k: nat)
    requires y < Pow2(k)
    ensures OrBits(Shl(x, k), y) == Shl(x, k) + y
    decreases k
  {
    if k == 0 {
      OrZero(x);
    } else {
      OrIsSum(x, y / 2, k - 1);
    }
  }

  lemma OrPayload(y: nat)
    requires y < 64
    ensures Or(0x80, y) == 0x80 + y
  {
    assert Pow2(6) == 64 && Shl(2, 6) == 0x80;
    OrIsSum(2, y, 6);
  }

  lemma OrHead(b: nat, y: nat)
    requires (b == 1 && y < 32) || (b == 2 && y < 16) || (b == 3 && y < 8)
    ensures Or(Head(b), y) == Head(b) + y
  {
    assert Pow2(3) == 8 && Pow2(4) == 16 && Pow2(5) == 32;
    assert Shl(6, 5) == 0xC0 && Shl(14, 4) == 0xE0 && Shl(30, 3) == 0xF0;
    match b
    case 1 => OrIsSum(6, y, 5);
    case 2 => OrIsSum(14, y, 4);
    case _ => OrIsSum(30, y, 3);
  }

  lemma SixesAre(c: nat)
    ensures Sixes(c, 0) == c && Sixes(c, 1) == c / 0x40 && Sixes(c, 2) == c / 0x1000 && Sixes(c, 3) == c / 0x4_0000
  {
  }

  lemma PayloadIs(c: nat)
    ensures Payload(c, 1) == [0x80 + c % 0x40]
    ensures Payload(c, 2) == [0x80 + c / 0x40 % 0x40, 0x80 + c % 0x40]
    ensures Payload(c, 3) == [0x80 + c / 0x1000 % 0x40, 0x80 + c / 0x40 % 0x40, 0x80 + c % 0x40]
  {
    SixesAre(c);
    OrPayload(c % 64);
    OrPayload(c / 0x40 % 64);
    OrPayload(c / 0x1000 % 64);
    assert Payload(c, 1) == [Or(0x80, Sixes(c, 0) % 64)] + Payload(c, 0);
    assert Payload(c, 2) == [Or(0x80, Sixes(c, 1) % 64)] + Payload(c, 1);
    assert Payload(c, 3) == [Or(0x80, Sixes(c, 2) % 64)] + Payload(c, 2);
  }

  lemma MultibyteIs(c: nat, b: nat)
    requires (b == 1 && Sixes(c, b) < 32) || (b == 2 && Sixes(c, b) < 16) || (b == 3 && Sixes(c, b) < 8)
    ensures Multibyte(c, b) == [Head(b) + Sixes(c, b)] + Payload(c, b)
  {
    var y := Sixes(c, b);
    OrHead(b, y);
    assert y % 256 == y;
    assert Or(Head(b), y % 256) == Head(b) + y;
  }

  lemma HighBits(c: nat, b: nat)
    requires 0x80 <= c < 0x11_0000 && b == PayloadBytes(c)
    ensures 1 <= b <= 3 && Sixes(c, b) == if b == 1 then c / 0x40 else if b == 2 then c / 0x1000 else c / 0x4_0000
  {
    PayloadLength(c);
    SixesAre(c);
  }

  /** For every code point the encoder writes the bytes of the RFC. */
  lemma EncodeIsRfc3629(c: nat)
    requires c < 0x11_0000
    ensures Encode(c) == Rfc3629(c)
  {
    if c >= 0x80 {
      var b := PayloadBytes(c);
      PayloadLength(c);
      HighBits(c, b);
      MultibyteIs(c, b);
      PayloadIs(c);
    }
  }

  // ----- the transcoder -----

  /** The 16-bit unit at offset i; its two bytes share no bit, so the or of the code is a sum. */
  function Unit(s: seq<Byte>, i: nat, be: bool): nat
    requires i + 1 < |s|
  {
    var (high: int, low: int) := if be then (s[i], s[i + 1]) else (s[i + 1], s[i]);
    high * 256 + low
  }

  predicate IsSurrogate(c: nat) {
    0xD800 <= c <= 0xDFFF
  }

  function Combine(c: nat, d: nat): nat {
    c % 0x400 * 0x400 + d % 0x400 + 0x1_0000
  }

  /** The code point at offset i and the offset of the next; a surrogate cut off by the end stands as it is. */
  function CodeAt(s: seq<Byte>, i: nat, be: bool): (r: (nat, nat))
    requires i + 1 < |s|
    ensures r.1 > i
  {
    var c := Unit(s, i, be);
    if !IsSurrogate(c) then (c, i + 2)
    else if i + 3 < |s| then (Combine(c, Unit(s, i + 2, be)), i + 4)
    else (c, i + 4)
  }

  /** The code points the loop comes by from offset i on. */
  function Codes(s: seq<Byte>, i: nat, be: bool): seq<nat>
    decreases |s| - i
  {
    if i + 1 >= |s| then [] else [CodeAt(s, i, be).0] + Codes(s, CodeAt(s, i, be).1, be)
  }

  lemma CodesNext(done: seq<nat>, s: seq<Byte>, i: nat, be: bool)
    requires i + 1 < |s|
    ensures (done + [CodeAt(s, i, be).0]) + Codes(s, CodeAt(s, i, be).1, be) == done + Codes(s, i, be)
  {
  }

  function EncodeAll(cs: seq<nat>): seq<Byte> {
    if cs == [] then [] else EncodeAll(cs[..|cs| - 1]) + Encode(cs[|cs| - 1])
  }

  lemma EncodeOneMore(cs: seq<nat>, c: nat)
    ensures EncodeAll(cs + [c]) == EncodeAll(cs) + Encode(c)
  {
  }

  /** By the first byte of a byte order mark; None without one. */
  function Transcoded(s: seq<Byte>): Option<seq<Byte>>
    requires s != []
  {
    if s[0] == 0xFE then Some(EncodeAll(Codes(s, 2, true)))
    else if s[0] == 0xFF then Some(EncodeAll(Codes(s, 2, false)))
    else None
  }

  // ----- section 2 of RFC 2781 -----

  type Scalar = c: nat | c < 0xD800 || 0xDFFF < c < 0x11_0000

  function Units(c: Scalar): (r: seq<nat>)
    ensures forall w :: w in r ==> w < 0x1_0000
  {
    if c < 0x1_0000 then [c] else [0xD800 + (c - 0x1_0000) / 0x400, 0xDC00 + (c - 0x1_0000) % 0x400]
  }

  function UnitBytes(w: nat, be: bool): (b: seq<Byte>)
    requires w < 0x1_0000
    ensures |b| == 2
  {
    if be then [w / 256, w % 256] else [w % 256, w / 256]
  }

  function CharBytes(c: Scalar, be: bool): seq<Byte> {
    var u := Units(c);
    if |u| == 1 then UnitBytes(u[0], be) else UnitBytes(u[0], be) + UnitBytes(u[1], be)
  }

  function Utf16(cs: seq<Scalar>, be: bool): seq<Byte> {
    if cs == [] then [] else CharBytes(cs[0], be) + Utf16(cs[1..], be)
  }

  function Utf8Text(cs: seq<Scalar>): seq<Byte>
  {
    if cs == [] then [] else Utf8Text(cs[..|cs| - 1]) + Rfc3629(cs[|cs| - 1])
  }

  lemma UnitIs(s: seq<Byte>, i: nat, w: nat, be: bool)
    requires i + 1 < |s| && w < 0x1_0000 && s[i] == UnitBytes(w, be)[0] && s[i + 1] == UnitBytes(w, be)[1]
    ensures Unit(s, i, be) == w
  {
  }

  lemma CombineIs(c: Scalar)
    requires c >= 0x1_0000
    ensures IsSurrogate(Units(c)[0]) && Combine(Units(c)[0], Units(c)[1]) == c
  {
  }

  lemma OneUnit(s: seq<Byte>, i: nat, c: Scalar, be: bool)
    requires c < 0x1_0000 && i + 1 < |s| && s[i] == CharBytes(c, be)[0] && s[i + 1] == CharBytes(c, be)[1]
    ensures |CharBytes(c, be)| == 2 && CodeAt(s, i, be) == (c, i + 2)
  {
    hide UnitBytes;
    UnitIs(s, i, c, be);
  }

  lemma TwoUnits(s: seq<Byte>, i: nat, c: Scalar, be: bool)
    requires c >= 0x1_0000 && i + 3 < |s| && forall j :: 0 <= j < 4 ==> s[i + j] == CharBytes(c, be)[j]
    ensures |CharBytes(c, be)| == 4 && CodeAt(s, i, be) == (c, i + 4)
  {
    hide UnitBytes, Unit, Combine;
    var u, b := Units(c), CharBytes(c, be);
    CombineIs(c);
    assert s[i + 0] == b[0] && s[i + 1] == b[1] && s[i + 2] == b[2] && s[i + 3] == b[3];
    hide Units;
    UnitIs(s, i, u[0], be);
    UnitIs(s, i + 2, u[1], be);
  }

  /** One code point of well-formed input. */
  lemma CodeAtIs(s: seq<Byte>, i: nat, c: Scalar, be: bool)
    requires var b := CharBytes(c, be); i + |b| <= |s| && forall j :: 0 <= j < |b| ==> s[i + j] == b[j]
    ensures |CharBytes(c, be)| >= 2 && CodeAt(s, i, be) == (c, i + |CharBytes(c, be)|)
  {
    var b := CharBytes(c, be);
    assert |b| == if c < 0x1_0000 then 2 else 4;
    hide CharBytes, CodeAt;
    if c < 0x1_0000 {
      assert s[i + 0] == b[0] && s[i + 1] == b[1];
      OneUnit(s, i, c, be);
    } else {
      TwoUnits(s, i, c, be);
    }
  }

  lemma Shift(pre: seq<Byte>, b: seq<Byte>, t: seq<Byte>)
    ensures pre + (b + t) == (pre + b) + t
    ensures forall j :: 0 <= j < |b| ==> (pre + (b + t))[|pre| + j] == b[j]
  {
  }

  lemma CodesStep(s: seq<Byte>, i: nat, be: bool, c: nat, next: nat, cs: seq<nat>)
    requires i + 1 < |s| && CodeAt(s, i, be) == (c, next) && Codes(s, next, be) == cs
    ensures Codes(s, i, be) == [c] + cs
  {
  }

  /** Well-formed input is read back one code point at a time, and then what follows it. */
  lemma {:induction false} CodesThen(s: seq<Byte>, pre: seq<Byte>, cs: seq<Scalar>, be: bool, rest: seq<Byte>)
    requires s == pre + Utf16(cs, be) + rest
    ensures |pre| + |Utf16(cs, be)| <= |s| && Codes(s, |pre|, be) == cs + Codes(s, |pre| + |Utf16(cs, be)|, be)
    decreases |cs|
  {
    hide CodeAt, CharBytes, Codes;
    if cs == [] {
      assert cs + Codes(s, |pre|, be) == Codes(s, |pre|, be);
    } else {
      var b, t := CharBytes(cs[0], be), Utf16(cs[1..], be);
      Shift(pre, b, t + rest);
      assert b + t + rest == b + (t + rest);
      assert s == pre + (b + (t + rest)) == pre + b + t + rest;
      CodesThen(s, pre + b, cs[1..], be, rest);
      CodeAtIs(s, |pre|, cs[0], be);
      var more := cs[1..] + Codes(s, |pre| + |Utf16(cs, be)|, be);
      CodesStep(s, |pre|, be, cs[0], |pre + b|, more);
      assert [cs[0]] + more == cs + Codes(s, |pre| + |Utf16(cs, be)|, be);
    }
  }

  lemma CodesAre(s: seq<Byte>, pre: seq<Byte>, cs: seq<Scalar>, be: bool)
    requires s == pre + Utf16(cs, be)
    ensures Codes(s, |pre|, be) == cs
  {
    assert s == pre + Utf16(cs, be) + [];
    CodesThen(s, pre, cs, be, []);
    assert cs + [] == cs;
  }

  /** After well-formed input, a surrogate takes the unit after it for its other half, whatever that is. */
  lemma AnyPair(pre: seq<Byte>, cs: seq<Scalar>, be: bool, w: nat, d: nat)
    requires 0xD800 <= w <= 0xDFFF && d < 0x1_0000
    ensures Codes(pre + Utf16(cs, be) + (UnitBytes(w, be) + UnitBytes(d, be)), |pre|, be) ==
            cs + [0x1_0000 + w % 0x400 * 0x400 + d % 0x400]
  {
    hide Utf16, UnitBytes, Codes;
    var rest := UnitBytes(w, be) + UnitBytes(d, be);
    var s, i := pre + Utf16(cs, be) + rest, |pre| + |Utf16(cs, be)|;
    CodesThen(s, pre, cs, be, rest);
    LastFour(pre + Utf16(cs, be), rest);
    PairAt(s, i, be, w, d, rest);
    Nothing(s, i + 4, be);
    CodesStep(s, i, be, 0x1_0000 + w % 0x400 * 0x400 + d % 0x400, i + 4, []);
  }

  lemma LastFour(a: seq<Byte>, rest: seq<Byte>)
    requires |rest| == 4
    ensures var s, i := a + rest, |a|;
            && |s| == i + 4
            && s[i] == rest[0] && s[i + 1] == rest[1] && s[i + 2] == rest[2] && s[i + 3] == rest[3]
  {
  }

  lemma PairAt(s: seq<Byte>, i: nat, be: bool, w: nat, d: nat, rest: seq<Byte>)
    requires 0xD800 <= w <= 0xDFFF && d < 0x1_0000 && rest == UnitBytes(w, be) + UnitBytes(d, be) && i + 3 < |s|
    requires s[i] == rest[0] && s[i + 1] == rest[1] && s[i + 2] == rest[2] && s[i + 3] == rest[3]
    ensures CodeAt(s, i, be) == (0x1_0000 + w % 0x400 * 0x400 + d % 0x400, i + 4)
  {
    UnitIs(s, i, w, be);
    UnitIs(s, i + 2, d, be);
  }

  lemma Nothing(s: seq<Byte>, i: nat, be: bool)
    requires i + 1 >= |s|
    ensures Codes(s, i, be) == []
  {
  }

  /** A surrogate that the end cuts off stands as it is. */
  lemma CutOff(pre: seq<Byte>, cs: seq<Scalar>, be: bool, w: nat)
    requires 0xD800 <= w <= 0xDFFF
    ensures Codes(pre + Utf16(cs, be) + UnitBytes(w, be), |pre|, be) == cs + [w]
  {
    hide Utf16, Codes;
    var s, i := pre + Utf16(cs, be) + UnitBytes(w, be), |pre| + |Utf16(cs, be)|;
    CodesThen(s, pre, cs, be, UnitBytes(w, be));
    UnitIs(s, i, w, be);
    assert CodeAt(s, i, be) == (w, i + 4);
    Nothing(s, i + 4, be);
    CodesStep(s, i, be, w, i + 4, []);
  }

  /** A single byte at the end is left alone. */
  lemma OddByte(pre: seq<Byte>, cs: seq<Scalar>, be: bool, x: Byte)
    ensures Codes(pre + Utf16(cs, be) + [x], |pre|, be) == cs
  {
    hide Utf16, Codes;
    var t := pre + Utf16(cs, be) + [x];
    CodesThen(t, pre, cs, be, [x]);
    Nothing(t, |pre| + |Utf16(cs, be)|, be);
    assert cs + [] == cs;
  }

  lemma {:induction false} EncodeAllIsUtf8(cs: seq<Scalar>)
    ensures EncodeAll(cs) == Utf8Text(cs)
  {
    if cs != [] {
      EncodeAllIsUtf8(cs[..|cs| - 1]);
      EncodeIsRfc3629(cs[|cs| - 1]);
    }
  }

  /** The output for a whole text, if the input is one in this byte order. */
  lemma WholeText(s: seq<Byte>, be: bool)
    ensures forall cs: seq<Scalar> :: s == Mark(be) + Utf16(cs, be) ==> EncodeAll(Codes(s, 2, be)) == Utf8Text(cs)
  {
    forall cs: seq<Scalar> | s == Mark(be) + Utf16(cs, be) ensures EncodeAll(Codes(s, 2, be)) == Utf8Text(cs) {
      CodesAre(s, Mark(be), cs, be);
      EncodeAllIsUtf8(cs);
    }
  }

  function Mark(be: bool): seq<Byte> {
    if be then [0xFE, 0xFF] else [0xFF, 0xFE]
  }

  /** A byte order mark and the UTF-16 of any code points, in either byte order, become the UTF-8 of the same points. */
  lemma TranscodesUtf16(cs: seq<Scalar>, be: bool)
    ensures Transcoded(Mark(be) + Utf16(cs, be)) == Some(Utf8Text(cs))
  {
    WholeText(Mark(be) + Utf16(cs, be), be);
  }

  /** ezxml_str2utf8; None where it returns NULL and leaves the string alone. */
  method Str2Utf8(s: seq<Byte>) returns (u: Option<seq<Byte>>)
    requires s != []
    ensures u == Transcoded(s)
    ensures u == None <==> s[0] !in {0xFE, 0xFF}
    ensures forall cs: seq<Scalar> :: s == [0xFE, 0xFF] + Utf16(cs, true) ==> u == Some(Utf8Text(cs))
    ensures forall cs: seq<Scalar> :: s == [0xFF, 0xFE] + Utf16(cs, false) ==> u == Some(Utf8Text(cs))
  {
    var be := s[0] == 0xFE;
    if !be && s[0] != 0xFF {
      return None;
    }
    var out: seq<Byte> := [];
    var sl := 2;
    ghost var done: seq<nat> := [];
    while sl < |s| - 1
      invariant sl >= 2 && out == EncodeAll(done) && done + Codes(s, sl, be) == Codes(s, 2, be)
      decreases |s| - sl
    {
      CodesNext(done, s, sl, be);
      ghost var next := CodeAt(s, sl, be);
      var c := Unit(s, sl, be);
      if IsSurrogate(c) {
        sl := sl + 2;
        if sl < |s| - 1 {
          c := Combine(c, Unit(s, sl, be));
        }
      }
      sl := sl + 2;
      assert (c, sl) == next;
      EncodeOneMore(done, c);
      out := out + Encode(c);
      done := done + [c];
    }
    assert done + Codes(s, sl, be) == done;
    u := Some(out);
    WholeText(s, be);
  }
}
