/** Entity declarations of linux_usr/ezxml.c and the circularity check ezxml_ent_ok. */
module EzxmlEntities {
  /** A name keeps the ';' that ends its references. */
  datatype Entity = Entity(name: string, text: string)

  /** The first entity whose name the string begins with, or the length of the list. */
  function FirstMatch(ents: seq<Entity>, s: string): (i: nat)
    ensures i <= |ents|
    ensures i < |ents| ==> ents[i].name <= s
    ensures forall j :: 0 <= j < i ==> !(ents[j].name <= s)
  {
    if ents == [] || ents[0].name <= s then 0 else 1 + FirstMatch(ents[1..], s)
  }

  predicate RefersTo(ents: seq<Entity>, s: string, p: nat, i: nat) {
    p < |s| && s[p] == '&' && i < |ents| && FirstMatch(ents, s[p + 1..]) == i
  }

  /** Every reference in s is to an entity ranked below r. */
  ghost predicate Below(ents: seq<Entity>, s: string, rank: seq<nat>, r: nat) {
    |rank| == |ents| && forall p: nat, i: nat :: RefersTo(ents, s, p, i) ==> rank[i] < r
  }

  /** Each entity's text refers to lower-ranked entities only. */
  ghost predicate Ranked(ents: seq<Entity>, rank: seq<nat>) {
    |rank| == |ents| && forall i :: 0 <= i < |ents| ==> Below(ents, ents[i].text, rank, rank[i])
  }

  ghost predicate Acyclic(ents: seq<Entity>) {
    exists rank :: Ranked(ents, rank)
  }

  lemma BelowTail(ents: seq<Entity>, s: string, k: nat, rank: seq<nat>, r: nat)
    requires Below(ents, s, rank, r) && k <= |s|
    ensures Below(ents, s[k..], rank, r)
  {
    forall p: nat, i: nat | RefersTo(ents, s[k..], p, i) ensures rank[i] < r {
      assert s[k..][p + 1..] == s[k + p + 1..];
      assert RefersTo(ents, s, k + p, i);
    }
  }

  /** ezxml_ent_ok; `rank` and `r` bound the recursion and nothing else. */
  function EntOk(name: string, s: string, ents: seq<Entity>, ghost rank: seq<nat>, ghost r: nat): bool
    requires Ranked(ents, rank) && Below(ents, s, rank, r)
    decreases r, |s|
  {
    if s == [] then true
    else if s[0] != '&' then
      BelowTail(ents, s, 1, rank, r);
      EntOk(name, s[1..], ents, rank, r)
    else if name <= s[1..] then false
    else
      var i := FirstMatch(ents, s[1..]);
      assert i < |ents| ==> RefersTo(ents, s, 0, i);
      BelowTail(ents, s, 1, rank, r);
      (i < |ents| ==> EntOk(name, ents[i].text, ents, rank, rank[i])) && EntOk(name, s[1..], ents, rank, r)
  }

  // ----- what the check decides -----

  /** Somewhere in s stands an ampersand and then the name. */
  predicate Mentions(name: string, s: string) {
    exists p: nat :: p < |s| && s[p] == '&' && name <= s[p + 1..]
  }

  predicate Links(ents: seq<Entity>, s: string, i: nat) {
    exists p: nat :: p < |s| && RefersTo(ents, s, p, i)
  }

  /** A chain of references leads from s through `path` to a text that mentions the name. */
  ghost predicate Leads(name: string, s: string, ents: seq<Entity>, path: seq<nat>)
    decreases |path|
  {
    if path == [] then Mentions(name, s)
    else path[0] < |ents| && Links(ents, s, path[0]) && Leads(name, ents[path[0]].text, ents, path[1..])
  }

  lemma MentionsTail(name: string, s: string)
    requires s != []
    ensures Mentions(name, s) <==> (s[0] == '&' && name <= s[1..]) || Mentions(name, s[1..])
  {
  }

  lemma LinksTail(ents: seq<Entity>, s: string, i: nat)
    requires s != []
    ensures Links(ents, s, i) <==> RefersTo(ents, s, 0, i) || Links(ents, s[1..], i)
  {
    if Links(ents, s, i) && !RefersTo(ents, s, 0, i) {
      var p: nat :| p < |s| && RefersTo(ents, s, p, i);
      assert s[1..][p - 1 + 1..] == s[p + 1..];
      assert RefersTo(ents, s[1..], p - 1, i);
    }
    if Links(ents, s[1..], i) {
      var p: nat :| p < |s[1..]| && RefersTo(ents, s[1..], p, i);
      assert s[1..][p + 1..] == s[p + 1 + 1..];
      assert RefersTo(ents, s, p + 1, i);
    }
  }

  /** The check sees exactly the mentions in s itself and what its first-match references lead to. */
  lemma {:induction false} EntOkIs(name: string, s: string, ents: seq<Entity>, rank: seq<nat>, r: nat)
    requires Ranked(ents, rank) && Below(ents, s, rank, r)
    ensures EntOk(name, s, ents, rank, r) <==>
              !Mentions(name, s) && forall i: nat :: i < |ents| && Links(ents, s, i) ==>
                  EntOk(name, ents[i].text, ents, rank, rank[i])
    decreases |s|
  {
    if s != [] {
      BelowTail(ents, s, 1, rank, r);
      MentionsTail(name, s);
      forall i: nat ensures Links(ents, s, i) <==> RefersTo(ents, s, 0, i) || Links(ents, s[1..], i) {
        LinksTail(ents, s, i);
      }
      EntOkIs(name, s[1..], ents, rank, r);
      if s[0] == '&' {
        var i := FirstMatch(ents, s[1..]);
        assert i < |ents| ==> RefersTo(ents, s, 0, i);
      }
    }
  }

  lemma LinkedIsBelow(ents: seq<Entity>, s: string, rank: seq<nat>, r: nat, i: nat)
    requires Below(ents, s, rank, r) && i < |ents| && Links(ents, s, i)
    ensures rank[i] < r
  {
  }

  ghost predicate Reaches(name: string, s: string, ents: seq<Entity>) {
    exists path :: Leads(name, s, ents, path)
  }

  lemma ReachesMention(name: string, s: string, ents: seq<Entity>)
    requires Mentions(name, s)
    ensures Reaches(name, s, ents)
  {
    var none: seq<nat> := [];
    assert Leads(name, s, ents, none);
  }

  lemma ReachesOn(name: string, s: string, ents: seq<Entity>, i: nat)
    requires i < |ents| && Links(ents, s, i) && Reaches(name, ents[i].text, ents)
    ensures Reaches(name, s, ents)
  {
    var path :| Leads(name, ents[i].text, ents, path);
    assert ([i] + path)[0] == i && ([i] + path)[1..] == path;
    assert Leads(name, s, ents, [i] + path);
  }

  lemma ReachesFirst(name: string, s: string, ents: seq<Entity>) returns (i: nat)
    requires Reaches(name, s, ents) && !Mentions(name, s)
    ensures i < |ents| && Links(ents, s, i) && Reaches(name, ents[i].text, ents)
  {
    var path :| Leads(name, s, ents, path);
    assert path != [];
    i := path[0];
    assert Leads(name, ents[i].text, ents, path[1..]);
  }

  /** A text is rejected if and only if some chain of references leads from it to a mention of the name. */
  lemma {:induction false} EntOkExact(name: string, s: string, ents: seq<Entity>, rank: seq<nat>, r: nat)
    requires Ranked(ents, rank) && Below(ents, s, rank, r)
    ensures EntOk(name, s, ents, rank, r) <==> !Reaches(name, s, ents)
    decreases r
  {
    EntOkIs(name, s, ents, rank, r);
    if Mentions(name, s) {
      ReachesMention(name, s, ents);
    } else if !EntOk(name, s, ents, rank, r) {
      var i: nat :| i < |ents| && Links(ents, s, i) && !EntOk(name, ents[i].text, ents, rank, rank[i]);
      LinkedIsBelow(ents, s, rank, r, i);
      EntOkExact(name, ents[i].text, ents, rank, rank[i]);
      ReachesOn(name, s, ents, i);
    } else if Reaches(name, s, ents) {
      var i := ReachesFirst(name, s, ents);
      LinkedIsBelow(ents, s, rank, r, i);
      EntOkExact(name, ents[i].text, ents, rank, rank[i]);
    }
  }

  /** The loops of ezxml_ent_ok: from each ampersand of s on, the name and then the first entity that fits. */
  method CheckEntity(name: string, s: string, ents: seq<Entity>, ghost rank: seq<nat>, ghost r: nat) returns (ok: bool)
    requires Ranked(ents, rank) && Below(ents, s, rank, r)
    ensures ok <==> !Reaches(name, s, ents)
    decreases r
  {
    EntOkExact(name, s, ents, rank, r);
    hide EntOk, Reaches, Below;
    var p := 0;
    BelowTail(ents, s, 0, rank, r);
    assert s[0..] == s;
    while p < |s|
      invariant p <= |s| && Below(ents, s[p..], rank, r) &&
          EntOk(name, s[p..], ents, rank, r) == EntOk(name, s, ents, rank, r)
    {
      EntOkNext(name, s, p, ents, rank, r);
      if s[p] == '&' {
        if name <= s[p + 1..] {
          return false;
        }
        var i := 0;
        while i < |ents| && !(ents[i].name <= s[p + 1..])
          invariant i <= |ents| && forall j :: 0 <= j < i ==> !(ents[j].name <= s[p + 1..])
        {
          i := i + 1;
        }
        if i < |ents| {
          FirstMatchIs(ents, s[p + 1..], i);
          ReferenceIsBelow(ents, s, p, i, rank, r);
          var inner := CheckEntity(name, ents[i].text, ents, rank, rank[i]);
          EntOkExact(name, ents[i].text, ents, rank, rank[i]);
          if !inner {
            return false;
          }
        }
        FirstMatchIs(ents, s[p + 1..], i);
      }
      p := p + 1;
    }
    EntOkAtEnd(name, s[p..], ents, rank, r);
    return true;
  }

  lemma FirstMatchIs(ents: seq<Entity>, s: string, b: nat)
    requires b <= |ents| && (b < |ents| ==> ents[b].name <= s) && forall j :: 0 <= j < b ==> !(ents[j].name <= s)
    ensures FirstMatch(ents, s) == b
  {
  }

  lemma ReferenceIsBelow(ents: seq<Entity>, s: string, p: nat, i: nat, rank: seq<nat>, r: nat)
    requires Ranked(ents, rank) && p < |s| && Below(ents, s[p..], rank, r)
    requires s[p] == '&' && i < |ents| && FirstMatch(ents, s[p + 1..]) == i
    ensures rank[i] < r && Below(ents, ents[i].text, rank, rank[i])
  {
    assert s[p..][1..] == s[p + 1..];
    assert RefersTo(ents, s[p..], 0, i);
  }

  lemma EntOkAtEnd(name: string, s: string, ents: seq<Entity>, rank: seq<nat>, r: nat)
    requires Ranked(ents, rank) && Below(ents, s, rank, r) && s == []
    ensures EntOk(name, s, ents, rank, r)
  {
  }

  /** One step of the check, at position p. */
  lemma EntOkNext(name: string, s: string, p: nat, ents: seq<Entity>, rank: seq<nat>, r: nat)
    requires Ranked(ents, rank) && p < |s| && Below(ents, s[p..], rank, r)
    ensures Below(ents, s[p + 1..], rank, r)
    ensures EntOk(name, s[p..], ents, rank, r) <==>
              (s[p] == '&' ==>
                 !(name <= s[p + 1..]) &&
                 var i := FirstMatch(ents, s[p + 1..]);
                 i < |ents| ==>
                   && rank[i] < r
                   && Below(ents, ents[i].text, rank, rank[i])
                   && EntOk(name, ents[i].text, ents, rank, rank[i])) &&
              EntOk(name, s[p + 1..], ents, rank, r)
  {
    BelowTail(ents, s[p..], 1, rank, r);
    assert s[p..][1..] == s[p + 1..];
    var i := FirstMatch(ents, s[p + 1..]);
    if s[p] == '&' && i < |ents| {
      ReferenceIsBelow(ents, s, p, i, rank, r);
    }
  }

  // ----- declarations keep the references acyclic -----

  /** Above every rank. */
  function Bound(rank: seq<nat>): (b: nat)
    ensures forall i :: 0 <= i < |rank| ==> rank[i] < b
  {
    if rank == [] then 0
    else
      var b := Bound(rank[..|rank| - 1]);
      if rank[|rank| - 1] < b then b else rank[|rank| - 1] + 1
  }

  lemma {:induction false} FirstMatchAppend(ents: seq<Entity>, e: Entity, s: string)
    ensures FirstMatch(ents + [e], s) ==
              if FirstMatch(ents, s) < |ents| then FirstMatch(ents, s)
              else if e.name <= s then |ents| else |ents| + 1
  {
    if ents != [] {
      assert (ents + [e])[1..] == ents[1..] + [e] && (ents + [e])[0] == ents[0];
      FirstMatchAppend(ents[1..], e, s);
    } else {
      assert FirstMatch([], s) == 0;
      assert (ents + [e])[1..] == [];
    }
  }

  /** No chain leads from entity i to a mention of the new name. */
  predicate Clean(ents: seq<Entity>, name: string, ghost rank: seq<nat>, i: nat)
    requires Ranked(ents, rank) && i < |ents|
  {
    EntOk(name, ents[i].text, ents, rank, rank[i])
  }

  /** The new entity goes above the clean old ones, and those that may come to refer to it above that. */
  ghost function Rerank(ents: seq<Entity>, e: Entity, rank: seq<nat>): seq<nat>
    requires Ranked(ents, rank)
  {
    seq(|ents|, i requires 0 <= i < |ents| =>
      if Clean(ents, e.name, rank, i) then rank[i] else rank[i] + Bound(rank) + 1)
    + [Bound(rank)]
  }

  /** What an old text refers to once the new entity is there. */
  lemma RefersAppend(ents: seq<Entity>, e: Entity, s: string, p: nat, i: nat)
    requires RefersTo(ents + [e], s, p, i)
    ensures if i < |ents| then RefersTo(ents, s, p, i) else i == |ents| && e.name <= s[p + 1..]
  {
    FirstMatchAppend(ents, e, s[p + 1..]);
  }

  /** A text from which no chain leads to the new name stays below what it refers to. */
  lemma CleanBelow(ents: seq<Entity>, e: Entity, rank: seq<nat>, s: string, r: nat)
    requires Ranked(ents, rank) && Below(ents, s, rank, r) && EntOk(e.name, s, ents, rank, r)
    ensures Below(ents + [e], s, Rerank(ents, e, rank), r)
  {
    EntOkIs(e.name, s, ents, rank, r);
    var rank' := Rerank(ents, e, rank);
    forall p: nat, i: nat | RefersTo(ents + [e], s, p, i) ensures rank'[i] < r {
      RefersAppend(ents, e, s, p, i);
      assert e.name <= s[p + 1..] ==> Mentions(e.name, s);
      assert RefersTo(ents, s, p, i) && Links(ents, s, i);
      assert Clean(ents, e.name, rank, i);
    }
  }

  lemma UncleanBelow(ents: seq<Entity>, e: Entity, rank: seq<nat>, s: string, r: nat)
    requires Ranked(ents, rank) && Below(ents, s, rank, r)
    ensures Below(ents + [e], s, Rerank(ents, e, rank), r + Bound(rank) + 1)
  {
    var rank' := Rerank(ents, e, rank);
    forall p: nat, i: nat | RefersTo(ents + [e], s, p, i) ensures rank'[i] < r + Bound(rank) + 1 {
      RefersAppend(ents, e, s, p, i);
      if i < |ents| {
        assert RefersTo(ents, s, p, i);
      }
    }
  }

  lemma AllBelow(ents: seq<Entity>, rank: seq<nat>, s: string)
    requires |rank| == |ents|
    ensures Below(ents, s, rank, Bound(rank))
  {
  }

  /** The check made when an entity is declared. */
  predicate Admits(ents: seq<Entity>, e: Entity, ghost rank: seq<nat>)
    requires Ranked(ents, rank)
  {
    AllBelow(ents, rank, e.text);
    EntOk(e.name, e.text, ents, rank, Bound(rank))
  }

  /** An admitted entity closes no circle: the longer list is ranked again. */
  lemma AdmittedIsRanked(ents: seq<Entity>, e: Entity, rank: seq<nat>)
    requires Ranked(ents, rank) && Admits(ents, e, rank)
    ensures Ranked(ents + [e], Rerank(ents, e, rank))
  {
    var es, rank' := ents + [e], Rerank(ents, e, rank);
    forall i | 0 <= i < |es| ensures Below(es, es[i].text, rank', rank'[i]) {
      if i == |ents| {
        AllBelow(ents, rank, e.text);
        CleanBelow(ents, e, rank, e.text, Bound(rank));
      } else if Clean(ents, e.name, rank, i) {
        CleanBelow(ents, e, rank, ents[i].text, rank[i]);
      } else {
        UncleanBelow(ents, e, rank, ents[i].text, rank[i]);
      }
    }
  }

  /** The five entities every document starts with. */
  const PREDEFINED: seq<Entity> := [
    Entity("lt;", "&#60;"), Entity("gt;", "&#62;"), Entity("quot;", "&#34;"), Entity("apos;", "&#39;"),
    Entity("amp;", "&#38;")]

  /** The list after a run of declarations, with ranks that show it acyclic; the first circular declaration ends the
      run. */
  ghost function DeclareAll(es: seq<Entity>, ents: seq<Entity>, rank: seq<nat>): (r: (seq<Entity>, seq<nat>))
    requires Ranked(ents, rank)
    ensures Ranked(r.0, r.1) && ents <= r.0
    decreases |es|
  {
    if es == [] then (ents, rank)
    else if Admits(ents, es[0], rank) then
      AdmittedIsRanked(ents, es[0], rank);
      DeclareAll(es[1..], ents + [es[0]], Rerank(ents, es[0], rank))
    else (ents, rank)
  }

  lemma NumberedIsBelow(t: string)
    requires |t| > 1 && t[1] == '#' && forall p :: 0 < p < |t| ==> t[p] != '&'
    ensures Below(PREDEFINED, t, [0, 0, 0, 0, 0], 0)
  {
  }

  lemma PredefinedIsRanked()
    ensures Ranked(PREDEFINED, [0, 0, 0, 0, 0])
  {
    hide Below;
    forall i | 0 <= i < 5 ensures Below(PREDEFINED, PREDEFINED[i].text, [0, 0, 0, 0, 0], 0) {
      NumberedIsBelow(PREDEFINED[i].text);
    }
  }

  /** After any declarations the references are acyclic, and exactly the circular ones were refused. */
  lemma DeclaredIsAcyclic(es: seq<Entity>, e: Entity)
    ensures Ranked(PREDEFINED, [0, 0, 0, 0, 0])
    ensures var (ents, rank) := DeclareAll(es, PREDEFINED, [0, 0, 0, 0, 0]);
            Acyclic(ents) && (Admits(ents, e, rank) <==> !Reaches(e.name, e.text, ents))
  {
    PredefinedIsRanked();
    var (ents, rank) := DeclareAll(es, PREDEFINED, [0, 0, 0, 0, 0]);
    AllBelow(ents, rank, e.text);
    EntOkExact(e.name, e.text, ents, rank, Bound(rank));
  }
}
