/** What decoding leaves alone, character by character, and what it puts for the names that every document knows. */
module EzxmlPlain {
  import opened EzxmlEntities
  import opened EzxmlCodec
  import opened EzxmlDecode
  import opened EzxmlAmp
  import opened EzxmlParser

  // ----- text in which nothing is a reference -----

  /** No '&' of s begins a known name or a number that ends in ';'. */
  predicate NoReference(ents: seq<Entity>, s: string) {
    forall p :: 0 <= p < |s| && s[p] == '&' ==>
      && FirstMatch(ents, s[p + 1..]) == |ents|
      && !(IsNumbered(s[p..]) && CharRef(s[p..]).Some?)
  }

  lemma NoAmpersand(ents: seq<Entity>, s: string)
    requires '&' !in s
    ensures NoReference(ents, s)
  {
  }

  /** A blank, a tab, a line feed, a vertical tab, a form feed or a carriage return. */
  predicate IsWhite(c: char) {
    c as int in {32, 9, 10, 11, 12, 13}
  }

  /** In an attribute white space becomes a blank; anywhere else, and every other character, stays. */
  function AsRead(s: string, mode: Mode): (r: string)
    ensures |r| == |s| && (!mode.Attribute? ==> r == s)
    ensures forall i :: 0 <= i < |s| ==> r[i] == if mode.Attribute? && IsWhite(s[i]) then ' ' else s[i]
  {
    seq(|s|, i requires 0 <= i < |s| => if mode.Attribute? && IsWhite(s[i]) then ' ' else s[i])
  }

  lemma NoReferenceTail(ents: seq<Entity>, s: string)
    requires s != [] && NoReference(ents, s)
    ensures NoReference(ents, s[1..])
  {
    var t := s[1..];
    forall p | 0 <= p < |t| && t[p] == '&'
      ensures FirstMatch(ents, t[p + 1..]) == |ents| && !(IsNumbered(t[p..]) && CharRef(t[p..]).Some?)
    {
      assert s[p + 1] == '&' && t[p..] == s[p + 1..] && t[p + 1..] == s[p + 1 + 1..];
    }
  }

  lemma PlainHead(ents: seq<Entity>, s: string, mode: Mode)
    requires WellNamed(ents) && s != [] && (mode.Cdata? || NoReference(ents, s))
    ensures Head(ents, s, mode) == Emit([if mode.Attribute? && IsWhite(s[0]) then ' ' else s[0]], 1)
  {
    assert s[0..] == s;
  }

  lemma {:induction false} PlainExpand(ents: seq<Entity>, s: string, mode: Mode, rank: seq<nat>, r: nat)
    requires WellNamed(ents) && Ranked(ents, rank) && Below(ents, s, rank, r) && (mode.Cdata? || NoReference(ents, s))
    ensures Expand(ents, s, mode, rank, r).text == AsRead(s, mode)
    decreases |s|
  {
    hide Head, NoReference, Below;
    if s != [] {
      PlainHead(ents, s, mode);
      BelowTail(ents, s, 1, rank, r);
      if !mode.Cdata? {
        NoReferenceTail(ents, s);
      }
      PlainExpand(ents, s[1..], mode, rank, r);
      assert AsRead(s, mode) == [if mode.Attribute? && IsWhite(s[0]) then ' ' else s[0]] + AsRead(s[1..], mode);
    }
  }

  /** Decoding changes no character of a CDATA section, and of other text without references only the white space of an
    * attribute. */
  lemma PlainMeaning(ents: seq<Entity>, s: string, mode: Mode)
    requires WellNamed(ents) && Acyclic(ents) && (mode.Cdata? || NoReference(ents, s))
    ensures Meaning(ents, s, mode) == AsRead(s, mode)
    ensures !mode.Attribute? ==> Meaning(ents, s, mode) == s
  {
    var rank :| Ranked(ents, rank);
    AllBelow(ents, rank, s);
    MeaningIs(ents, s, mode, rank, Bound(rank));
    PlainExpand(ents, s, mode, rank, Bound(rank));
  }

  // ----- references by name -----

  /** A reference by name means what the text of the first entity that fits means, and what follows means what it would
    * alone. */
  lemma NameMeans(ents: seq<Entity>, i: nat, t: string, mode: Mode)
    requires WellNamed(ents) && Acyclic(ents) && !mode.Cdata? && i < |ents| && FirstMatch(ents, ents[i].name + t) == i
    requires ents[i].name[0] != '#'
    ensures Meaning(ents, "&" + (ents[i].name + t), mode) == Meaning(ents, ents[i].text, mode) + Meaning(ents, t, mode)
  {
    hide Head, FirstMatch, Expand, Below;
    var rank :| Ranked(ents, rank);
    var s, b := "&" + (ents[i].name + t), Bound(rank);
    AllBelow(ents, rank, s);
    AllBelow(ents, rank, t);
    AllBelow(ents, rank, ents[i].text);
    MeaningIs(ents, s, mode, rank, b);
    MeaningIs(ents, t, mode, rank, b);
    NameExpands(ents, i, t, mode, rank, b);
    MeaningIs(ents, ents[i].text, mode, rank, rank[i]);
  }

  lemma NameExpands(ents: seq<Entity>, i: nat, t: string, mode: Mode, rank: seq<nat>, b: nat)
    requires WellNamed(ents) && Ranked(ents, rank) && !mode.Cdata? && i < |ents|
    requires FirstMatch(ents, ents[i].name + t) == i && ents[i].name[0] != '#'
    requires Below(ents, "&" + (ents[i].name + t), rank, b) && Below(ents, t, rank, b)
    ensures Below(ents, ents[i].text, rank, rank[i])
    ensures Expand(ents, "&" + (ents[i].name + t), mode, rank, b).text ==
            Expand(ents, ents[i].text, mode, rank, rank[i]).text + Expand(ents, t, mode, rank, b).text
  {
    var s := "&" + (ents[i].name + t);
    assert s[1..] == ents[i].name + t;
    assert RefersTo(ents, s, 0, i);
    NameHead(ents, i, t, mode);
    hide Head, FirstMatch;
    var a := Expand(ents, ents[i].text, mode, rank, rank[i]);
    var rest := Expand(ents, t, mode, rank, b);
    assert s[|ents[i].name| + 1..] == t;
    hide Below;
    assert Expand(ents, s, mode, rank, b) == Join(Expansion([], 1), Join(a, rest));
    assert [] + (a.text + rest.text) == a.text + rest.text;
  }

  lemma NameHead(ents: seq<Entity>, i: nat, t: string, mode: Mode)
    requires WellNamed(ents) && !mode.Cdata? && i < |ents| && FirstMatch(ents, ents[i].name + t) == i
    requires ents[i].name[0] != '#'
    ensures Head(ents, "&" + (ents[i].name + t), mode) == Call(i, |ents[i].name| + 1)
  {
    var s := "&" + (ents[i].name + t);
    assert s[1..] == ents[i].name + t;
    assert !IsNumbered(s);
    MatchEnds(ents, s);
  }

  /** The five names that need no declaration, in text and in attributes. */
  lemma FiveNames(t: string, mode: Mode)
    requires !mode.Cdata?
    ensures Closed(PREDEFINED) && Acyclic(PREDEFINED)
    ensures Meaning(PREDEFINED, "&lt;" + t, mode) == "<" + Meaning(PREDEFINED, t, mode)
    ensures Meaning(PREDEFINED, "&gt;" + t, mode) == ">" + Meaning(PREDEFINED, t, mode)
    ensures Meaning(PREDEFINED, "&amp;" + t, mode) == "&" + Meaning(PREDEFINED, t, mode)
    ensures Meaning(PREDEFINED, "&quot;" + t, mode) == "\"" + Meaning(PREDEFINED, t, mode)
    ensures Meaning(PREDEFINED, "&apos;" + t, mode) == "'" + Meaning(PREDEFINED, t, mode)
  {
    hide Meaning, Closed, Acyclic;
    PredefinedIsUsable();
    OneName(0, "lt;", t, mode);
    OneName(1, "gt;", t, mode);
    OneName(2, "quot;", t, mode);
    OneName(3, "apos;", t, mode);
    OneName(4, "amp;", t, mode);
    assert "&lt;" + t == "&" + ("lt;" + t) && "&gt;" + t == "&" + ("gt;" + t) && "&amp;" + t == "&" + ("amp;" + t);
    assert "&quot;" + t == "&" + ("quot;" + t) && "&apos;" + t == "&" + ("apos;" + t);
  }

  lemma OneName(i: nat, name: string, t: string, mode: Mode)
    requires i < 5 && PREDEFINED[i].name == name && !mode.Cdata?
    ensures WellNamed(PREDEFINED) && Acyclic(PREDEFINED)
    ensures Meaning(PREDEFINED, "&" + (name + t), mode) == [['<', '>', '"', '\'', '&'][i]] + Meaning(PREDEFINED, t, mode)
  {
    hide Meaning, Expand, Acyclic;
    PredefinedIsUsable();
    PredefinedIsRanked();
    var rank: seq<nat> := [0, 0, 0, 0, 0];
    NamesDiffer(i, t);
    assert name[0] != '#';
    NameMeans(PREDEFINED, i, t, mode);
    AllBelow(PREDEFINED, rank, PREDEFINED[i].text);
    PredefinedMeans(PREDEFINED, i, mode, rank, Bound(rank));
    MeaningIs(PREDEFINED, PREDEFINED[i].text, mode, rank, Bound(rank));
  }

  lemma NamesDiffer(i: nat, t: string)
    requires i < 5
    ensures FirstMatch(PREDEFINED, PREDEFINED[i].name + t) == i
  {
    var s := PREDEFINED[i].name + t;
    forall j | 0 <= j < i ensures !(PREDEFINED[j].name <= s) {
      var n := PREDEFINED[j].name;
      assert s[0] == PREDEFINED[i].name[0] && s[1] == PREDEFINED[i].name[1];
      assert n[0] != s[0] || n[1] != s[1];
    }
    FirstMatchIs(PREDEFINED, s, i);
  }

  // ----- line ends -----

  lemma {:induction false} LineThen(line: string, t: string)
    requires '\r' !in line
    ensures Normalized(line + t) == line + Normalized(t)
    decreases |line|
  {
    if line == [] {
      assert line + t == t;
    } else {
      LineThen(line[1..], t);
      assert (line + t)[1..] == line[1..] + t && (line + t)[0] == line[0];
      assert [line[0]] + (line[1..] + Normalized(t)) == line + Normalized(t);
    }
  }

  /** A text without CR stays; CR LF, and a CR that no LF follows, become LF, and what follows is read on its own. */
  lemma LineEnds(line: string, rest: string)
    requires '\r' !in line
    ensures Normalized(line) == line
    ensures Normalized(line + ("\r\n" + rest)) == line + ("\n" + Normalized(rest))
    ensures rest == [] || rest[0] != '\n' ==> Normalized(line + ("\r" + rest)) == line + ("\n" + Normalized(rest))
  {
    NormalizedKeeps(line);
    LineThen(line, "\r\n" + rest);
    LineThen(line, "\r" + rest);
    assert ("\r\n" + rest)[2..] == rest && ("\r" + rest)[1..] == rest;
    NormalizedStep("\r\n" + rest, 2);
    if rest == [] || rest[0] != '\n' {
      NormalizedStep("\r" + rest, 1);
    }
    hide Normalized;
  }

  /** What the parser makes of a CDATA section, and of text and attribute values without references. */
  lemma PlainDecoded(raw: string, mode: Mode)
    requires mode.Cdata? || NoReference(PREDEFINED, Normalized(raw))
    ensures Decoded(raw, mode) == AsRead(Normalized(raw), mode)
    ensures mode.Cdata? ==> Decoded(raw, mode) == Normalized(raw)
  {
    PredefinedIsUsable();
    PlainMeaning(PREDEFINED, Normalized(raw), mode);
  }
}
