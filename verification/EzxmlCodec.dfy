/** Text decoding and encoding of linux_usr/ezxml.c: ezxml_decode and ezxml_ampencode. */
module EzxmlCodec {
  import opened Bytes
  import opened EzxmlText
  import opened EzxmlEntities
  import Utf8

  /** The t argument of ezxml_decode: '&', ' ' and 'c'. */
  datatype Mode = Text | Attribute | Cdata

  // ----- what the references mean -----

  function Chars(bytes: seq<Byte>): (s: string)
    ensures |s| == |bytes|
  {
    seq(|bytes|, i requires 0 <= i < |bytes| => bytes[i] as char)
  }

  predicate IsNumbered(s: string) {
    |s| >= 2 && s[0] == '&' && s[1] == '#'
  }

  /** The number before a ';' and the offset of the ';'; strtol passes no ';'. */
  function Number(s: string, base: int): (r: Option<(int, nat)>)
    ensures r.Some? ==> r.value.1 < |s| && s[r.value.1] == ';'
  {
    var (c, k) := Strtol(s, base);
    if c == 0 || k == |s| || s[k] != ';' then None else Some((c, k))
  }

  /** The number of a character reference and the offset of its ';'. */
  function CharRef(s: string): (r: Option<(int, nat)>)
    requires IsNumbered(s)
    ensures r.Some? ==> r.value.1 < |s| && s[r.value.1] == ';'
  {
    var hex := |s| > 2 && s[2] == 'x';
    match if hex then Number(s[3..], 16) else Number(s[2..], 10)
    case None => None
    case Some((c, k)) => Some((c, k + if hex then 3 else 2))
  }

  /** What is stored for a character number: one char below 0x80, else UTF-8. */
  function CharText(c: int): string {
    if c < 0x80 then [(c % 256) as char] else Chars(Utf8.Encode(c))
  }

  /** XML names hold no ';', and the stored name ends with the one of its references. */
  predicate WellNamed(ents: seq<Entity>) {
    forall i :: 0 <= i < |ents| ==> var n := ents[i].name; n != [] && Find(n, ';') == |n| - 1
  }

  /** Every reference that starts in s ends in s. */
  predicate SelfContained(s: string) {
    forall p :: 0 <= p < |s| && s[p] == '&' ==> ';' in s[p..]
  }

  predicate Closed(ents: seq<Entity>) {
    WellNamed(ents) && forall i :: 0 <= i < |ents| ==> SelfContained(ents[i].text)
  }

  /** A known reference runs to the first ';'. */
  lemma MatchEnds(ents: seq<Entity>, s: string)
    requires WellNamed(ents) && s != [] && s[0] == '&' && FirstMatch(ents, s[1..]) < |ents|
    ensures Find(s, ';') == |ents[FirstMatch(ents, s[1..])].name| < |s|
  {
  }

  /** What the loop does at the head of a text: store some characters, or put in the text of entity i, for `len`
      characters. */
  datatype Token = Emit(text: string, len: nat) | Call(i: nat, len: nat)

  function Head(ents: seq<Entity>, s: string, mode: Mode): (t: Token)
    requires WellNamed(ents) && s != []
    ensures 0 < t.len <= |s|
    ensures t.Call? ==> RefersTo(ents, s, 0, t.i)
  {
    if mode.Cdata? || s[0] != '&' then Emit([if mode.Attribute? && IsSpace(s[0]) then ' ' else s[0]], 1)
    else if IsNumbered(s) then
      match CharRef(s)
      case None => Emit("&", 1)
      case Some((c, e)) => Emit(CharText(c), e + 1)
    else
      var i := FirstMatch(ents, s[1..]);
      if i == |ents| then Emit("&", 1) else MatchEnds(ents, s); Call(i, Find(s, ';') + 1)
  }

  datatype Expansion = Expansion(text: string, steps: nat)

  function Join(a: Expansion, b: Expansion): Expansion {
    Expansion(a.text + b.text, a.steps + b.steps)
  }

  /** The meaning of a text: an entity reference means what the entity's own text means.
    * `rank` and `r` bound the recursion; `steps` counts the rounds of the loop that computes it in place. */
  ghost function Expand(ents: seq<Entity>, s: string, mode: Mode, rank: seq<nat>, r: nat): Expansion
    requires WellNamed(ents) && Ranked(ents, rank) && Below(ents, s, rank, r)
    decreases r, |s|
  {
    if s == [] then Expansion([], 0)
    else
      var head := Head(ents, s, mode);
      BelowTail(ents, s, head.len, rank, r);
      var rest := Expand(ents, s[head.len..], mode, rank, r);
      match head
      case Emit(text, _) => Join(Expansion(text, 1), rest)
      case Call(i, _) => Join(Expansion([], 1), Join(Expand(ents, ents[i].text, mode, rank, rank[i]), rest))
  }

  /** The bounds do not matter. */
  lemma {:induction false} BoundsDoNotMatter(ents: seq<Entity>, s: string, mode: Mode, rank: seq<nat>, r: nat,
      rank': seq<nat>, r': nat)
    requires WellNamed(ents) && Ranked(ents, rank) && Below(ents, s, rank, r) && Ranked(ents, rank') &&
        Below(ents, s, rank', r')
    ensures Expand(ents, s, mode, rank, r) == Expand(ents, s, mode, rank', r')
    decreases r, |s|
  {
    hide Head;
    if s != [] {
      var head := Head(ents, s, mode);
      BelowTail(ents, s, head.len, rank, r);
      BelowTail(ents, s, head.len, rank', r');
      BoundsDoNotMatter(ents, s[head.len..], mode, rank, r, rank', r');
      if head.Call? {
        BoundsDoNotMatter(ents, ents[head.i].text, mode, rank, rank[head.i], rank', rank'[head.i]);
      }
    }
  }

  // ----- a self-contained text can be spliced in -----

  lemma NameFits(n: string, s: string, t: string)
    requires n != [] && Find(n, ';') == |n| - 1 && ';' in s && n <= s + t
    ensures n <= s
  {
    var q :| 0 <= q < |s| && s[q] == ';';
    if q < |n| {
      assert n[q] == (s + t)[q];
    }
  }

  lemma {:induction false} FirstMatchStops(ents: seq<Entity>, s: string, t: string)
    requires WellNamed(ents) && ';' in s
    ensures FirstMatch(ents, s + t) == FirstMatch(ents, s)
  {
    if ents != [] {
      if ents[0].name <= s + t {
        NameFits(ents[0].name, s, t);
      }
      assert WellNamed(ents[1..]) by {
        forall i | 0 <= i < |ents[1..]| ensures ents[1..][i] == ents[i + 1] {}
      }
      FirstMatchStops(ents[1..], s, t);
    }
  }

  lemma SelfContainedTail(s: string, k: nat)
    requires SelfContained(s) && k <= |s|
    ensures SelfContained(s[k..])
  {
  }

  lemma ReferenceStaysInside(s: string)
    requires SelfContained(s) && s != [] && s[0] == '&'
    ensures ';' in s[1..]
  {
  }

  lemma NumberStops(s: string, t: string, base: int)
    requires ';' in s
    ensures Number(s + t, base) == Number(s, base)
  {
    StrtolStops(s, t, base);
  }

  lemma CharRefStops(s: string, t: string)
    requires SelfContained(s) && IsNumbered(s)
    ensures CharRef(s + t) == CharRef(s)
  {
    hide Number;
    ReferenceStaysInside(s);
    var q :| 0 <= q < |s[1..]| && s[1..][q] == ';';
    assert s[q + 1] == ';' && q >= 1;
    var k := if s[2] == 'x' then 3 else 2;
    assert s[k..][q + 1 - k] == ';';
    assert (s + t)[k..] == s[k..] + t;
    NumberStops(s[k..], t, if s[2] == 'x' then 16 else 10);
  }

  lemma BelowSplice(ents: seq<Entity>, v: string, t: string, rank: seq<nat>, r: nat)
    requires WellNamed(ents) && SelfContained(v) && Below(ents, v, rank, r) && Below(ents, t, rank, r)
    ensures Below(ents, v + t, rank, r)
  {
    forall p: nat, i: nat | RefersTo(ents, v + t, p, i) ensures rank[i] < r {
      if p < |v| {
        assert (v + t)[p] == v[p] && (v + t)[p + 1..] == v[p + 1..] + t;
        SelfContainedTail(v, p);
        ReferenceStaysInside(v[p..]);
        assert v[p..][1..] == v[p + 1..];
        FirstMatchStops(ents, v[p + 1..], t);
        assert RefersTo(ents, v, p, i);
      } else {
        assert (v + t)[p + 1..] == t[p - |v| + 1..];
        assert RefersTo(ents, t, p - |v|, i);
      }
    }
  }

  /** The head of a self-contained text, with and without what follows the text. */
  lemma HeadStops(ents: seq<Entity>, v: string, t: string, mode: Mode)
    requires WellNamed(ents) && SelfContained(v) && v != []
    ensures Head(ents, v + t, mode) == Head(ents, v, mode)
  {
    if !mode.Cdata? && v[0] == '&' {
      ReferenceStaysInside(v);
      assert |v| >= 2;
      if IsNumbered(v) {
        CharRefStops(v, t);
      } else {
        assert (v + t)[1..] == v[1..] + t;
        FirstMatchStops(ents, v[1..], t);
        if FirstMatch(ents, v[1..]) < |ents| {
          MatchEnds(ents, v);
          MatchEnds(ents, v + t);
        }
      }
    }
  }

  lemma JoinJoin(a: Expansion, b: Expansion, c: Expansion)
    ensures Join(Join(a, b), c) == Join(a, Join(b, c))
  {
  }

  lemma {:induction false} Splice(ents: seq<Entity>, v: string, t: string, mode: Mode, rank: seq<nat>, r: nat)
    requires Ranked(ents, rank) && WellNamed(ents)
    requires SelfContained(v) && Below(ents, v, rank, r) && Below(ents, t, rank, r)
    ensures Below(ents, v + t, rank, r)
    ensures Expand(ents, v + t, mode, rank, r) == Join(Expand(ents, v, mode, rank, r), Expand(ents, t, mode, rank, r))
    decreases |v|
  {
    hide Below, Head;
    BelowSplice(ents, v, t, rank, r);
    var b := Expand(ents, t, mode, rank, r);
    if v == [] {
      assert v + t == t;
      assert [] + b.text == b.text;
    } else {
      var head := Head(ents, v, mode);
      HeadStops(ents, v, t, mode);
      assert (v + t)[head.len..] == v[head.len..] + t;
      SelfContainedTail(v, head.len);
      BelowTail(ents, v, head.len, rank, r);
      Splice(ents, v[head.len..], t, mode, rank, r);
      var rest := Expand(ents, v[head.len..], mode, rank, r);
      match head {
        case Emit(text, _) => JoinJoin(Expansion(text, 1), rest, b);
        case Call(i, _) =>
          var a := Expand(ents, ents[i].text, mode, rank, rank[i]);
          JoinJoin(Expansion([], 1), Join(a, rest), b);
          JoinJoin(a, rest, b);
      }
    }
  }
}
