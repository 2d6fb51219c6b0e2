/** ezxml_ampencode of linux_usr/ezxml.c, which ezxml_decode undoes. */
module EzxmlAmp {
  import opened Bytes
  import opened EzxmlText
  import opened EzxmlEntities
  import opened EzxmlCodec
  import opened EzxmlDecode

  const VERTICAL_TAB := 11 as char
  const FORM_FEED := 12 as char

  function Escape(c: char, attr: bool): string {
    match c
    case '&' => "&amp;"
    case '<' => "&lt;"
    case '>' => "&gt;"
    case '"' => if attr then "&quot;" else [c]
    case '\n' => if attr then "&#xA;" else [c]
    case '\t' => if attr then "&#x9;" else [c]
    case '\r' => "&#xD;"
    case _ => [c]
  }

  /** The characters before the first NUL. */
  function UpToNul(s: string): string {
    s[..Find(s, '\0')]
  }

  function Escaped(s: string, attr: bool): string {
    if s == [] then [] else Escape(s[0], attr) + Escaped(s[1..], attr)
  }

  /** ezxml_ampencode.  A length past the end of the string, such as the -1 of the callers, means all of it. */
  method AmpEncode(s: string, len: int, dst: string, attr: bool) returns (r: string)
    ensures r == dst + Escaped(UpToNul(if 0 <= len <= |s| then s[..len] else s), attr)
  {
    var e := if 0 <= len <= |s| then len else |s|;
    var i := 0;
    r := dst;
    ghost var t := UpToNul(s[..e]);
    assert s[..e] == if 0 <= len <= |s| then s[..len] else s;
    while i != e && s[i] != '\0'
      invariant i <= e && i <= |t|
      invariant r + Escaped(t[i..], attr) == dst + Escaped(t, attr)
      decreases e - i
    {
      assert s[..e][i] == s[i];
      assert t[i] == s[i] && t[i..][1..] == t[i + 1..];
      assert r + (Escape(s[i], attr) + Escaped(t[i + 1..], attr)) == r + Escape(s[i], attr) + Escaped(t[i + 1..], attr);
      r := r + Escape(s[i], attr);
      i := i + 1;
    }
    assert i == |t| by {
      if i < e { assert s[..e][i] == '\0'; }
    }
  }

  /** No markup, and in an attribute value no quote and no white space that decoding would change. */
  predicate IsSafe(c: char, attr: bool) {
    c !in {'<', '>', '\r'} && (attr ==> c !in {'"', '\n', '\t'})
  }

  lemma EscapeIsSafe(c: char, attr: bool)
    ensures var e := Escape(c, attr);
            && e != [] && (forall i :: 0 <= i < |e| ==> IsSafe(e[i], attr))
            && (c != '&' && IsSafe(c, attr) ==> e == [c])
            && forall i :: 0 <= i < |e| && e[i] == '&' ==> i == 0 && e[|e| - 1] == ';'
  {
  }

  lemma {:induction false} EscapedIsSafe(s: string, attr: bool)
    ensures forall i :: 0 <= i < |Escaped(s, attr)| ==> IsSafe(Escaped(s, attr)[i], attr)
  {
    hide Escape, IsSafe;
    if s != [] {
      EscapeIsSafe(s[0], attr);
      EscapedIsSafe(s[1..], attr);
    }
  }

  /** Every '&' in escaped text begins a reference. */
  lemma {:induction false} AmpersandsEnd(s: string, attr: bool, i: nat)
    requires i < |Escaped(s, attr)| && Escaped(s, attr)[i] == '&'
    ensures exists j :: i < j < |Escaped(s, attr)| && Escaped(s, attr)[j] == ';'
  {
    hide Escape;
    var a, b := Escape(s[0], attr), Escaped(s[1..], attr);
    EscapeIsSafe(s[0], attr);
    if i < |a| {
      assert (a + b)[|a| - 1] == ';';
    } else {
      AmpersandsEnd(s[1..], attr, i - |a|);
      var j :| i - |a| < j < |b| && b[j] == ';';
      assert (a + b)[j + |a|] == ';';
    }
  }

  /** Text without special characters stays as it is. */
  lemma {:induction false} EscapedPlain(s: string, attr: bool)
    requires forall i :: 0 <= i < |s| ==> s[i] != '&' && IsSafe(s[i], attr)
    ensures Escaped(s, attr) == s
  {
    hide Escape, IsSafe;
    if s != [] {
      EscapeIsSafe(s[0], attr);
      EscapedPlain(s[1..], attr);
    }
  }

  /** Each special character has its own escape. */
  lemma EscapesAre(attr: bool)
    ensures Escaped("&", attr) == "&amp;" && Escaped("<", attr) == "&lt;" && Escaped(">", attr) == "&gt;"
    ensures Escaped("\r", attr) == "&#xD;"
    ensures attr ==> Escaped("\"", attr) == "&quot;" && Escaped("\n", attr) == "&#xA;" && Escaped("\t", attr) == "&#x9;"
  {
    forall c ensures Escaped([c], attr) == Escape(c, attr) {
      assert [c][1..] == [];
    }
  }

  // ----- one escape, decoded -----

  lemma {:induction false} FirstMatchPrefix(a: seq<Entity>, b: seq<Entity>, s: string)
    requires a <= b && FirstMatch(a, s) < |a|
    ensures FirstMatch(b, s) == FirstMatch(a, s)
  {
    if !(a[0].name <= s) {
      FirstMatchPrefix(a[1..], b[1..], s);
    }
  }

  /** The lists the parser works with: the predefined entities, then declared ones. */
  ghost predicate Usable(ents: seq<Entity>, rank: seq<nat>) {
    PREDEFINED <= ents && WellNamed(ents) && Ranked(ents, rank)
  }

  /** The named escapes, which expand to a reference by number. */
  lemma NamedEscape(c: char, attr: bool) returns (i: nat)
    requires c in {'&', '<', '>'} || (attr && c == '"')
    ensures var s := Escape(c, attr);
            i < 5 && ['<', '>', '"', '\'', '&'][i] == c && !IsNumbered(s) && s[0] == '&' &&
                FirstMatch(PREDEFINED, s[1..]) == i && s[1..] == PREDEFINED[i].name
  {
    var s := Escape(c, attr);
    assert PREDEFINED[0].name == "lt;" && PREDEFINED[1].name == "gt;" && PREDEFINED[2].name == "quot;" &&
      PREDEFINED[3].name == "apos;" && PREDEFINED[4].name == "amp;";
    i := if c == '<' then 0 else if c == '>' then 1 else if c == '"' then 2 else 4;
    assert s[1..] == PREDEFINED[i].name;
    assert s[1..][0] == PREDEFINED[i].name[0];
    forall j | 0 <= j < i ensures !(PREDEFINED[j].name <= s[1..]) {
      assert PREDEFINED[j].name[0] != s[1..][0] || PREDEFINED[j].name[1] != s[1..][1];
    }
  }

  lemma DecimalNumber(s: string, n: int)
    requires |s| == 5 && IsNumbered(s) && s[4] == ';' && '0' <= s[2] <= '9' && '0' <= s[3] <= '9'
    requires n == DigitValue(s[2]) * 10 + DigitValue(s[3]) && n != 0
    ensures CharRef(s) == Some((n, 4))
  {
    var t := s[2..];
    assert SpaceSpan(t) == 0 && DigitsFrom(t, 10) == 0 && t[0..] == t;
    assert DigitSpan(t[2..], 10) == 0;
    assert t[1..][1..] == t[2..];
    assert DigitSpan(t[1..], 10) == 1 && DigitSpan(t, 10) == 2;
    assert t[0..2][..1] == [t[0]] && [t[0]][..0] == [];
    assert DigitsValue([], 10) == 0 && DigitsValue([t[0]], 10) == DigitValue(t[0]);
    assert DigitsValue(t[0..2], 10) == n;
  }

  lemma HexNumber(s: string, n: int)
    requires |s| == 5 && IsNumbered(s) && s[2] == 'x' && s[4] == ';' && IsDigit(s[3], 16)
    requires n == DigitValue(s[3]) && n != 0
    ensures CharRef(s) == Some((n, 4))
  {
    var t := s[3..];
    assert SpaceSpan(t) == 0 && DigitsFrom(t, 16) == 0 && t[0..] == t;
    assert DigitSpan(t[1..], 16) == 0 && DigitSpan(t, 16) == 1;
    assert t[0..1] == [t[0]] && [t[0]][..0] == [];
    assert DigitsValue([], 16) == 0 && DigitsValue([t[0]], 16) == n;
  }

  /** A reference by number means its character. */
  lemma NumberMeans(ents: seq<Entity>, s: string, c: char, mode: Mode, rank: seq<nat>, r: nat)
    requires WellNamed(ents) && Ranked(ents, rank) && Below(ents, s, rank, r) && !mode.Cdata?
    requires |s| == 5 && IsNumbered(s) && 0 < c as int < 0x80 && CharRef(s) == Some((c as int, 4))
    ensures Expand(ents, s, mode, rank, r).text == [c]
  {
  }

  /** What attribute decoding leaves of a character that was not written as a reference. */
  function Flat(c: char, attr: bool): char {
    if attr && c in {VERTICAL_TAB, FORM_FEED} then ' ' else c
  }

  predicate IsEscaped(c: char, attr: bool) {
    c in {'&', '<', '>', '\r'} || (attr && c in {'"', '\n', '\t'})
  }

  lemma PlainMeans(ents: seq<Entity>, c: char, attr: bool, rank: seq<nat>, r: nat)
    requires WellNamed(ents) && Ranked(ents, rank) && Below(ents, [c], rank, r) && !IsEscaped(c, attr)
    ensures Expand(ents, [c], if attr then Attribute else Text, rank, r).text == [Flat(c, attr)]
  {
  }

  lemma NumberedEscape(c: char, attr: bool)
    requires c == '\r' || (attr && c in {'\n', '\t'})
    ensures var s := Escape(c, attr);
            |s| == 5 && IsNumbered(s) && CharRef(s) == Some((c as int, 4))
  {
    HexNumber(Escape(c, attr), c as int);
  }

  /** The predefined entities stand for the characters their names say. */
  lemma PredefinedMeans(ents: seq<Entity>, i: nat, mode: Mode, rank: seq<nat>, r: nat)
    requires Usable(ents, rank) && i < 5 && !mode.Cdata? && Below(ents, PREDEFINED[i].text, rank, r)
    ensures Expand(ents, PREDEFINED[i].text, mode, rank, r).text == [['<', '>', '"', '\'', '&'][i]]
  {
    var s, c := PREDEFINED[i].text, ['<', '>', '"', '\'', '&'][i];
    assert s in {"&#60;", "&#62;", "&#34;", "&#39;", "&#38;"};
    DecimalNumber(s, c as int);
    NumberMeans(ents, s, c, mode, rank, r);
  }

  lemma NamedHead(ents: seq<Entity>, c: char, attr: bool, mode: Mode) returns (i: nat)
    requires PREDEFINED <= ents && WellNamed(ents) && !mode.Cdata?
    requires c in {'&', '<', '>'} || (attr && c == '"')
    ensures i < 5 && ents[i] == PREDEFINED[i] && ['<', '>', '"', '\'', '&'][i] == c
    ensures Head(ents, Escape(c, attr), mode) == Call(i, |Escape(c, attr)|)
  {
    hide CharRef, WellNamed, FirstMatch;
    var s := Escape(c, attr);
    i := NamedEscape(c, attr);
    FirstMatchPrefix(PREDEFINED, ents, s[1..]);
    MatchEnds(ents, s);
  }

  lemma NamedMeans(ents: seq<Entity>, c: char, attr: bool, rank: seq<nat>, r: nat)
    requires Usable(ents, rank) && Below(ents, Escape(c, attr), rank, r)
    requires c in {'&', '<', '>'} || (attr && c == '"')
    ensures Expand(ents, Escape(c, attr), if attr then Attribute else Text, rank, r).text == [c]
  {
    hide Below, Head, Escape;
    var s, mode := Escape(c, attr), if attr then Attribute else Text;
    var i := NamedHead(ents, c, attr, mode);
    PredefinedMeans(ents, i, mode, rank, rank[i]);
    assert s[|s|..] == [];
    assert [] + ([c] + []) == [c];
  }

  lemma EscapeMeans(ents: seq<Entity>, c: char, attr: bool, rank: seq<nat>, r: nat)
    requires Usable(ents, rank) && Below(ents, Escape(c, attr), rank, r)
    ensures Expand(ents, Escape(c, attr), if attr then Attribute else Text, rank, r).text == [Flat(c, attr)]
  {
    hide Expand, Below;
    if c in {'&', '<', '>'} || (attr && c == '"') {
      NamedMeans(ents, c, attr, rank, r);
    } else if IsEscaped(c, attr) {
      NumberedEscape(c, attr);
      NumberMeans(ents, Escape(c, attr), c, if attr then Attribute else Text, rank, r);
    } else {
      PlainMeans(ents, c, attr, rank, r);
    }
  }

  /** A reference that ends the text is inside it. */
  lemma OneReference(s: string)
    requires s != [] && s[|s| - 1] == ';' && forall p :: 0 < p < |s| ==> s[p] != '&'
    ensures SelfContained(s)
  {
    assert s[0..] == s;
  }

  lemma NoReference(c: char)
    requires c != '&'
    ensures SelfContained([c])
  {
  }

  lemma EscapeIsSelfContained(c: char, attr: bool)
    ensures SelfContained(Escape(c, attr)) && '\r' !in Escape(c, attr)
  {
    hide SelfContained;
    var s := Escape(c, attr);
    if s[0] == '&' {
      OneReference(s);
    } else {
      assert s == [c];
      NoReference(c);
    }
  }

  // ----- a whole text -----

  function FlatAll(s: string, attr: bool): (f: string)
    ensures |f| == |s| && forall i :: 0 <= i < |s| ==> f[i] == Flat(s[i], attr)
  {
    seq(|s|, i requires 0 <= i < |s| => Flat(s[i], attr))
  }

  lemma {:induction false} EscapedMeans(ents: seq<Entity>, s: string, attr: bool, rank: seq<nat>)
    requires Usable(ents, rank)
    ensures Below(ents, Escaped(s, attr), rank, Bound(rank)) && '\r' !in Escaped(s, attr)
    ensures Expand(ents, Escaped(s, attr), if attr then Attribute else Text, rank, Bound(rank)).text == FlatAll(s, attr)
  {
    hide Below, Expand, Head, Escape;
    var mode, b := if attr then Attribute else Text, Bound(rank);
    AllBelow(ents, rank, Escaped(s, attr));
    if s == [] {
      Nothing(ents, mode, rank, b);
    } else {
      var head, rest := Escape(s[0], attr), Escaped(s[1..], attr);
      EscapedMeans(ents, s[1..], attr, rank);
      EscapeIsSelfContained(s[0], attr);
      AllBelow(ents, rank, head);
      EscapeMeans(ents, s[0], attr, rank, b);
      Splice(ents, head, rest, mode, rank, b);
      assert FlatAll(s, attr) == [Flat(s[0], attr)] + FlatAll(s[1..], attr);
    }
  }

  lemma Nothing(ents: seq<Entity>, mode: Mode, rank: seq<nat>, r: nat)
    requires WellNamed(ents) && Ranked(ents, rank) && Below(ents, [], rank, r)
    ensures Expand(ents, [], mode, rank, r).text == []
  {
  }

  /** Decoding undoes encoding, in text for every string; in an attribute VT and FF come back as spaces. */
  lemma DecodeUndoesEncode(ents: seq<Entity>, s: string, attr: bool)
    requires PREDEFINED <= ents && WellNamed(ents) && Acyclic(ents)
    ensures Meaning(ents, Normalized(Escaped(s, attr)), if attr then Attribute else Text) == FlatAll(s, attr)
    ensures FlatAll(s, attr) == s <==> !attr || (VERTICAL_TAB !in s && FORM_FEED !in s)
  {
    hide Expand, Below, Escape;
    var rank :| Ranked(ents, rank);
    EscapedMeans(ents, s, attr, rank);
    NormalizedKeeps(Escaped(s, attr));
    MeaningIs(ents, Escaped(s, attr), if attr then Attribute else Text, rank, Bound(rank));
    if FlatAll(s, attr) == s {
      assert forall i :: 0 <= i < |s| ==> s[i] == Flat(s[i], attr);
    }
  }
}
