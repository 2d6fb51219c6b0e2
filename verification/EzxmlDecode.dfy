/** The loops of ezxml_decode, which rewrite a text in place until it is its own meaning. */
module EzxmlDecode {
  import opened EzxmlText
  import opened EzxmlEntities
  import opened EzxmlCodec

  /** Section 2.11 of XML 1.0: every CR LF and every other CR becomes LF. */
  function Normalized(s: string): (n: string)
    ensures |n| <= |s| && '\r' !in n
  {
    if s == [] then []
    else if s[0] != '\r' then [s[0]] + Normalized(s[1..])
    else ['\n'] + Normalized(if |s| > 1 && s[1] == '\n' then s[2..] else s[1..])
  }

  lemma {:induction false} NormalizedKeeps(s: string)
    requires '\r' !in s
    ensures Normalized(s) == s
  {
    if s != [] {
      NormalizedKeeps(s[1..]);
    }
  }

  lemma NormalizedStep(s: string, n: nat)
    requires s != []
    requires n == if s[0] == '\r' && |s| > 1 && s[1] == '\n' then 2 else 1
    ensures Normalized(s) == [if s[0] == '\r' then '\n' else s[0]] + Normalized(s[n..])
  {
  }

  /** One line end, or one other character, moved from what is left to what is done. */
  lemma LineRound(done: string, rest: string, n: nat)
    requires rest != []
    requires n == if rest[0] == '\r' && |rest| > 1 && rest[1] == '\n' then 2 else 1
    ensures done + Normalized(rest) == done + [if rest[0] == '\r' then '\n' else rest[0]] + Normalized(rest[n..])
  {
    var c := [if rest[0] == '\r' then '\n' else rest[0]];
    NormalizedStep(rest, n);
    hide Normalized;
    assert done + (c + Normalized(rest[n..])) == done + c + Normalized(rest[n..]);
  }

  method NormalizeLines(s: string) returns (r: string)
    ensures r == Normalized(s)
  {
    r := s;
    var i := 0;
    while i < |r|
      invariant 0 <= i <= |r|
      invariant r[..i] + Normalized(r[i..]) == Normalized(s)
      decreases |r| - i
    {
      ghost var was := |r| - i;
      while i < |r| && r[i] == '\r'
        invariant 0 <= i <= |r| && |r| - i <= was
        invariant |r| - i < was || (i < |r| && |r| - i == was)
        invariant r[..i] + Normalized(r[i..]) == Normalized(s)
        decreases |r| - i
      {
        ghost var done, rest := r[..i], r[i..];
        LineRound(done, rest, if |rest| > 1 && rest[1] == '\n' then 2 else 1);
        r := r[i := '\n'];
        i := i + 1;
        if i < |r| && r[i] == '\n' {
          r := r[..i] + r[i + 1..];
          assert r[i..] == rest[2..];
        } else {
          assert r[i..] == rest[1..];
        }
        assert r[..i] == done + ['\n'];
      }
      if i < |r| {
        LineRound(r[..i], r[i..], 1);
        assert r[i..][1..] == r[i + 1..] && r[..i + 1] == r[..i] + [r[i]];
        i := i + 1;
      }
    }
    assert r[..i] == r && r[i..] == [];
  }

  ghost function Meaning(ents: seq<Entity>, s: string, mode: Mode): string
    requires WellNamed(ents) && Acyclic(ents)
  {
    var rank :| Ranked(ents, rank);
    AllBelow(ents, rank, s);
    Expand(ents, s, mode, rank, Bound(rank)).text
  }

  lemma MeaningIs(ents: seq<Entity>, s: string, mode: Mode, rank: seq<nat>, r: nat)
    requires WellNamed(ents) && Ranked(ents, rank) && Below(ents, s, rank, r)
    ensures Meaning(ents, s, mode) == Expand(ents, s, mode, rank, r).text
  {
    var rank' :| Ranked(ents, rank') &&
      Meaning(ents, s, mode) == (AllBelow(ents, rank', s); Expand(ents, s, mode, rank', Bound(rank')).text);
    AllBelow(ents, rank', s);
    BoundsDoNotMatter(ents, s, mode, rank, r, rank', Bound(rank'));
  }

  /** The loop has `done` behind it and `rest` before it. */
  ghost predicate Pending(ents: seq<Entity>, done: string, rest: string, mode: Mode, rank: seq<nat>, result: string)
    requires WellNamed(ents) && Ranked(ents, rank)
  {
    Below(ents, rest, rank, Bound(rank)) && done + Expand(ents, rest, mode, rank, Bound(rank)).text == result
  }

  ghost function Rounds(ents: seq<Entity>, rest: string, mode: Mode, rank: seq<nat>): nat
    requires WellNamed(ents) && Ranked(ents, rank)
  {
    AllBelow(ents, rank, rest);
    Expand(ents, rest, mode, rank, Bound(rank)).steps
  }

  /** A round that stores text over the first len characters. */
  lemma EmitRound(ents: seq<Entity>, done: string, rest: string, mode: Mode, rank: seq<nat>, result: string)
    requires WellNamed(ents) && Ranked(ents, rank) && rest != []
    requires Pending(ents, done, rest, mode, rank, result) && Head(ents, rest, mode).Emit?
    ensures var head := Head(ents, rest, mode);
            Pending(ents, done + head.text, rest[head.len..], mode, rank, result) &&
            Rounds(ents, rest[head.len..], mode, rank) < Rounds(ents, rest, mode, rank)
  {
    var head := Head(ents, rest, mode);
    BelowTail(ents, rest, head.len, rank, Bound(rank));
    var later := Expand(ents, rest[head.len..], mode, rank, Bound(rank)).text;
    assert done + (head.text + later) == done + head.text + later;
  }

  lemma CallIs(ents: seq<Entity>, rest: string, mode: Mode, rank: seq<nat>)
    requires WellNamed(ents) && Ranked(ents, rank) && rest != [] && Head(ents, rest, mode).Call?
    requires Below(ents, rest, rank, Bound(rank)) && Below(ents, rest[Head(ents, rest, mode).len..], rank, Bound(rank))
    ensures var (i, len) := (Head(ents, rest, mode).i, Head(ents, rest, mode).len);
            i < |ents| && Below(ents, ents[i].text, rank, rank[i]) &&
            Expand(ents, rest, mode, rank, Bound(rank)) ==
              Join(Expansion([], 1), Join(Expand(ents, ents[i].text, mode, rank, rank[i]),
                                          Expand(ents, rest[len..], mode, rank, Bound(rank))))
  {
  }

  /** A round that puts the text of an entity in place of its reference, to be scanned again. */
  lemma CallRound(ents: seq<Entity>, done: string, rest: string, mode: Mode, rank: seq<nat>, result: string)
    requires Closed(ents) && Ranked(ents, rank) && rest != []
    requires Pending(ents, done, rest, mode, rank, result) && Head(ents, rest, mode).Call?
    ensures var head := Head(ents, rest, mode);
            Pending(ents, done, ents[head.i].text + rest[head.len..], mode, rank, result) &&
            Rounds(ents, ents[head.i].text + rest[head.len..], mode, rank) < Rounds(ents, rest, mode, rank)
  {
    hide Head, Below, Expand, SelfContained, WellNamed;
    var head := Head(ents, rest, mode);
    var v, t := ents[head.i].text, rest[head.len..];
    BelowTail(ents, rest, head.len, rank, Bound(rank));
    AllBelow(ents, rank, v);
    CallIs(ents, rest, mode, rank);
    Splice(ents, v, t, mode, rank, Bound(rank));
    BoundsDoNotMatter(ents, v, mode, rank, rank[head.i], rank, Bound(rank));
  }

  /** A plain character or a reference that means itself: one round that moves on by one. */
  lemma SkipRound(ents: seq<Entity>, r: string, s: nat, mode: Mode, rank: seq<nat>, result: string)
    requires WellNamed(ents) && Ranked(ents, rank) && s < |r|
    requires Pending(ents, r[..s], r[s..], mode, rank, result) && Head(ents, r[s..], mode) == Emit([r[s]], 1)
    ensures Pending(ents, r[..s + 1], r[s + 1..], mode, rank, result)
    ensures Rounds(ents, r[s + 1..], mode, rank) < Rounds(ents, r[s..], mode, rank)
  {
    EmitRound(ents, r[..s], r[s..], mode, rank, result);
    assert r[s..][1..] == r[s + 1..] && r[..s] + [r[s]] == r[..s + 1];
  }

  lemma StartPending(ents: seq<Entity>, s: string, mode: Mode, rank: seq<nat>)
    requires WellNamed(ents) && Ranked(ents, rank)
    ensures Pending(ents, [], s, mode, rank, Meaning(ents, s, mode))
  {
    AllBelow(ents, rank, s);
    MeaningIs(ents, s, mode, rank, Bound(rank));
    assert [] + Meaning(ents, s, mode) == Meaning(ents, s, mode);
  }

  lemma PlainHead(ents: seq<Entity>, s: string, mode: Mode)
    requires WellNamed(ents) && s != [] && s[0] != '&' && !IsSpace(s[0])
    ensures Head(ents, s, mode) == Emit([s[0]], 1)
  {
  }

  lemma NumberedHead(ents: seq<Entity>, s: string, mode: Mode)
    requires WellNamed(ents) && !mode.Cdata? && IsNumbered(s)
    ensures Head(ents, s, mode) ==
              match CharRef(s) case None => Emit("&", 1) case Some((c, e)) => Emit(CharText(c), e + 1)
  {
  }

  /** The inner loop, over characters that are neither white space nor '&'. */
  method SkipPlain(ents: seq<Entity>, r: string, s0: nat, mode: Mode, ghost rank: seq<nat>, ghost result: string)
    returns (s: nat)
    requires WellNamed(ents) && Ranked(ents, rank) && s0 <= |r| && Pending(ents, r[..s0], r[s0..], mode, rank, result)
    ensures s0 <= s <= |r| && Pending(ents, r[..s], r[s..], mode, rank, result)
    ensures Rounds(ents, r[s..], mode, rank) <= Rounds(ents, r[s0..], mode, rank)
    ensures s < |r| ==> r[s] == '&' || IsSpace(r[s])
  {
    hide Expand, Head;
    s := s0;
    while s < |r| && r[s] != '&' && !IsSpace(r[s])
      invariant s0 <= s <= |r| && Pending(ents, r[..s], r[s..], mode, rank, result)
      invariant Rounds(ents, r[s..], mode, rank) <= Rounds(ents, r[s0..], mode, rank)
    {
      PlainHead(ents, r[s..], mode);
      SkipRound(ents, r, s, mode, rank, result);
      s := s + 1;
    }
  }

  /** The branch for a character reference. */
  method NumberedRound(ents: seq<Entity>, r0: string, s0: nat, mode: Mode, ghost rank: seq<nat>, ghost result: string)
    returns (r: string, s: nat)
    requires Closed(ents) && Ranked(ents, rank) && s0 < |r0| && !mode.Cdata? && IsNumbered(r0[s0..])
    requires Pending(ents, r0[..s0], r0[s0..], mode, rank, result)
    ensures s <= |r| && Pending(ents, r[..s], r[s..], mode, rank, result)
    ensures Rounds(ents, r[s..], mode, rank) < Rounds(ents, r0[s0..], mode, rank)
  {
    hide Expand, Head, CharText, Pending, Rounds;
    NumberedHead(ents, r0[s0..], mode);
    var ref := CharRef(r0[s0..]);
    if ref.None? {
      SkipRound(ents, r0, s0, mode, rank, result);
      return r0, s0 + 1;
    }
    EmitRound(ents, r0[..s0], r0[s0..], mode, rank, result);
    var (c, e) := ref.value;
    r := r0[..s0] + CharText(c) + r0[s0 + e + 1..];
    s := s0 + |CharText(c)|;
    assert r[..s] == r0[..s0] + CharText(c) && r[s..] == r0[s0..][e + 1..];
  }

  /** The branch for an entity reference. */
  method NamedRound(ents: seq<Entity>, r0: string, s0: nat, mode: Mode, ghost rank: seq<nat>, ghost result: string)
    returns (r: string, s: nat)
    requires Closed(ents) && Ranked(ents, rank)
    requires s0 < |r0| && !mode.Cdata? && !IsNumbered(r0[s0..]) && r0[s0] == '&'
    requires Pending(ents, r0[..s0], r0[s0..], mode, rank, result)
    ensures s <= |r| && Pending(ents, r[..s], r[s..], mode, rank, result)
    ensures Rounds(ents, r[s..], mode, rank) < Rounds(ents, r0[s0..], mode, rank)
  {
    hide Expand, Pending, Rounds;
    var b := FindEntity(ents, r0[s0 + 1..]);
    assert r0[s0..][1..] == r0[s0 + 1..];
    if b == |ents| {
      SkipRound(ents, r0, s0, mode, rank, result);
      return r0, s0 + 1;
    }
    CallRound(ents, r0[..s0], r0[s0..], mode, rank, result);
    var e := Find(r0[s0..], ';');
    r := r0[..s0] + ents[b].text + r0[s0 + e + 1..];
    s := s0;
    assert r[..s] == r0[..s0] && r[s..] == ents[b].text + r0[s0..][e + 1..];
  }

  /** The loop that looks a name up; the first one that fits wins. */
  method FindEntity(ents: seq<Entity>, s: string) returns (b: nat)
    ensures b == FirstMatch(ents, s)
  {
    b := 0;
    while b < |ents| && !(ents[b].name <= s)
      invariant b <= |ents| && forall j :: 0 <= j < b ==> !(ents[j].name <= s)
    {
      b := b + 1;
    }
  }

  /** The branches for white space and for what needs no decoding. */
  method PlainRound(ents: seq<Entity>, r0: string, s0: nat, mode: Mode, ghost rank: seq<nat>, ghost result: string)
    returns (r: string, s: nat)
    requires WellNamed(ents) && Ranked(ents, rank) && s0 < |r0| && (mode.Cdata? || r0[s0] != '&')
    requires Pending(ents, r0[..s0], r0[s0..], mode, rank, result)
    ensures s <= |r| && Pending(ents, r[..s], r[s..], mode, rank, result)
    ensures Rounds(ents, r[s..], mode, rank) < Rounds(ents, r0[s0..], mode, rank)
  {
    r, s := r0, s0 + 1;
    if mode.Attribute? && IsSpace(r0[s0]) {
      r := r0[s0 := ' '];
    }
    EmitRound(ents, r0[..s0], r0[s0..], mode, rank, result);
    assert r[..s] == r0[..s0] + [r[s0]] && r[s..] == r0[s0..][1..];
  }

  /** ezxml_decode.  It ends on every text, with the meaning of the text. */
  method Decode(text: string, ents: seq<Entity>, mode: Mode) returns (r: string)
    requires Closed(ents) && Acyclic(ents)
    ensures r == Meaning(ents, Normalized(text), mode)
  {
    r := NormalizeLines(text);
    ghost var rank :| Ranked(ents, rank);
    ghost var result := Meaning(ents, r, mode);
    StartPending(ents, r, mode, rank);
    var s := 0;
    assert r[..s] == [] && r[s..] == r;
    while true
      invariant 0 <= s <= |r| && Pending(ents, r[..s], r[s..], mode, rank, result)
      decreases Rounds(ents, r[s..], mode, rank)
    {
      ghost var rounds := Rounds(ents, r[s..], mode, rank);
      s := SkipPlain(ents, r, s, mode, rank, result);
      if s == |r| {
        break;
      } else if !mode.Cdata? && IsNumbered(r[s..]) {
        r, s := NumberedRound(ents, r, s, mode, rank, result);
      } else if !mode.Cdata? && r[s] == '&' {
        r, s := NamedRound(ents, r, s, mode, rank, result);
      } else {
        r, s := PlainRound(ents, r, s, mode, rank, result);
      }
    }
    assert r[..s] == r && r[s..] == [];
  }

  // ----- why the texts of entities must be self-contained -----

  const HALF := Entity("b;", "&a")
  const LOOP := Entity("a;", "&b;;")

  /** A reference to nothing that is known, and none after it. */
  lemma StrayIsOk(name: string, s: string, ents: seq<Entity>, rank: seq<nat>, r: nat)
    requires Ranked(ents, rank) && Below(ents, s, rank, r) && s != [] && s[0] == '&' && '&' !in s[1..]
    requires FirstMatch(ents, s[1..]) == |ents| && !(name <= s[1..])
    ensures EntOk(name, s, ents, rank, r)
  {
    BelowTail(ents, s, 1, rank, r);
    NoReferenceIsOk(name, s[1..], ents, rank, r);
  }

  lemma NoReferenceIsOk(name: string, s: string, ents: seq<Entity>, rank: seq<nat>, r: nat)
    requires Ranked(ents, rank) && Below(ents, s, rank, r) && '&' !in s
    ensures EntOk(name, s, ents, rank, r)
  {
  }

  lemma NotPredefined(s: string, i: nat)
    requires s in {"a", "a;", "b;;"} && i < 5
    ensures !(PREDEFINED[i].name <= s)
  {
    var n := PREDEFINED[i].name;
    assert n[0] != 'b' && n[1] != ';' && |n| > 2;
  }

  /** Which entities of the predefined list and these two a text begins with. */
  lemma Matches()
    ensures FirstMatch(PREDEFINED, "a") == 5 && FirstMatch(PREDEFINED + [HALF], "a") == 6
    ensures FirstMatch(PREDEFINED + [HALF], "b;;") == 5
    ensures FirstMatch(PREDEFINED + [HALF] + [LOOP], "b;;") == 5 && FirstMatch(PREDEFINED + [HALF] + [LOOP], "a;") == 6
  {
    hide FirstMatch;
    var six, all := PREDEFINED + [HALF], PREDEFINED + [HALF] + [LOOP];
    assert HALF.name[0] != "a;"[0] && !(HALF.name <= "a") && HALF.name <= "b;;" && LOOP.name <= "a;";
    forall i | 0 <= i < 5
      ensures !(PREDEFINED[i].name <= "a") && !(PREDEFINED[i].name <= "a;") && !(PREDEFINED[i].name <= "b;;")
    {
      NotPredefined("a", i);
      NotPredefined("a;", i);
      NotPredefined("b;;", i);
    }
    assert forall i :: 0 <= i < 5 ==> six[i] == PREDEFINED[i] == all[i];
    FirstMatchIs(PREDEFINED, "a", 5);
    FirstMatchIs(six, "a", 6);
    FirstMatchIs(six, "b;;", 5);
    FirstMatchIs(all, "b;;", 5);
    FirstMatchIs(all, "a;", 6);
  }

  lemma HalfIsAdmitted(rank: seq<nat>)
    requires Ranked(PREDEFINED, rank)
    ensures Admits(PREDEFINED, HALF, rank)
  {
    Matches();
    AllBelow(PREDEFINED, rank, HALF.text);
    assert HALF.text[1..] == "a" && !(HALF.name <= "a");
    StrayIsOk(HALF.name, HALF.text, PREDEFINED, rank, Bound(rank));
  }

  lemma LoopIsAdmitted(rank: seq<nat>)
    requires Ranked(PREDEFINED + [HALF], rank)
    ensures Admits(PREDEFINED + [HALF], LOOP, rank)
  {
    Matches();
    var s, ents := LOOP.text, PREDEFINED + [HALF];
    AllBelow(ents, rank, s);
    BelowTail(ents, s, 1, rank, Bound(rank));
    NoReferenceIsOk(LOOP.name, s[1..], ents, rank, Bound(rank));
    assert s[1..] == "b;;" && !(LOOP.name <= s[1..]) by { assert LOOP.name[0] != s[1..][0]; }
    assert RefersTo(ents, s, 0, 5);
    assert ents[5] == HALF && HALF.text[1..] == "a" && !(LOOP.name <= "a");
    StrayIsOk(LOOP.name, HALF.text, ents, rank, rank[5]);
  }

  /** Two declarations that the circularity check admits, and a text that two rounds of the loop turn into itself. */
  lemma ACircleAcrossASplice()
    ensures Ranked(PREDEFINED, [0, 0, 0, 0, 0])
    ensures var ents := DeclareAll([HALF, LOOP], PREDEFINED, [0, 0, 0, 0, 0]).0;
            && ents == PREDEFINED + [HALF] + [LOOP] && WellNamed(ents) && !Closed(ents)
            && Head(ents, "&a;", Text) == Call(6, 3)
            && Head(ents, LOOP.text + "&a;"[3..], Text) == Call(5, 3)
            && HALF.text + (LOOP.text + "&a;"[3..])[3..] == "&a;"
  {
    PredefinedIsRanked();
    var zeros: seq<nat> := [0, 0, 0, 0, 0];
    HalfIsAdmitted(zeros);
    AdmittedIsRanked(PREDEFINED, HALF, zeros);
    LoopIsAdmitted(Rerank(PREDEFINED, HALF, zeros));
    BothDeclared(zeros);
    TwoRounds();
  }

  lemma BothDeclared(zeros: seq<nat>)
    requires Ranked(PREDEFINED, zeros) && Admits(PREDEFINED, HALF, zeros)
    requires Ranked(PREDEFINED + [HALF], Rerank(PREDEFINED, HALF, zeros))
    requires Admits(PREDEFINED + [HALF], LOOP, Rerank(PREDEFINED, HALF, zeros))
    ensures DeclareAll([HALF, LOOP], PREDEFINED, zeros).0 == PREDEFINED + [HALF] + [LOOP]
  {
    hide Admits, Ranked, Rerank;
    var six := PREDEFINED + [HALF];
    var rank := Rerank(PREDEFINED, HALF, zeros);
    assert [HALF, LOOP][1..] == [LOOP] && [LOOP][1..] == [];
    assert DeclareAll([LOOP], six, rank).0 == six + [LOOP];
  }

  lemma TwoRounds()
    ensures var ents := PREDEFINED + [HALF] + [LOOP];
            && WellNamed(ents) && !Closed(ents)
            && Head(ents, "&a;", Text) == Call(6, 3)
            && Head(ents, LOOP.text + "&a;"[3..], Text) == Call(5, 3)
            && HALF.text + (LOOP.text + "&a;"[3..])[3..] == "&a;"
  {
    hide FirstMatch, WellNamed, SelfContained, Head, Closed, Find, PREDEFINED;
    AllAreNamed();
    Matches();
    var ents := PREDEFINED + [HALF] + [LOOP];
    assert |PREDEFINED| == 5;
    assert ents[5] == HALF && ents[6] == LOOP;
    HalfIsCut(ents);
    assert LOOP.text + "&a;"[3..] == "&b;;";
    CallsFor(ents, "&a;", "a;", 6);
    CallsFor(ents, "&b;;", "b;;", 5);
  }

  lemma HalfIsCut(ents: seq<Entity>)
    requires |ents| > 5 && ents[5] == HALF
    ensures !Closed(ents)
  {
    assert HALF.text[0] == '&' && HALF.text[0..] == "&a" && !SelfContained(ents[5].text);
  }

  lemma CallsFor(ents: seq<Entity>, s: string, t: string, i: nat)
    requires WellNamed(ents) && s == "&" + t && t != [] && t[0] != '#' && i == FirstMatch(ents, t) < |ents|
    ensures Head(ents, s, Text) == Call(i, |ents[i].name| + 1)
  {
    hide FirstMatch, WellNamed;
    assert s[1..] == t;
    MatchEnds(ents, s);
  }

  lemma AllAreNamed()
    ensures WellNamed(PREDEFINED + [HALF] + [LOOP])
  {
    PredefinedAreNamed();
    assert Find(HALF.name, ';') == 1 && Find(LOOP.name, ';') == 1;
  }

  lemma PredefinedAreNamed()
    ensures WellNamed(PREDEFINED)
  {
    forall i | 0 <= i < 5
      ensures PREDEFINED[i].name != [] && Find(PREDEFINED[i].name, ';') == |PREDEFINED[i].name| - 1
    {
      FindFrom(PREDEFINED[i].name, ';', |PREDEFINED[i].name| - 1);
    }
  }
}
