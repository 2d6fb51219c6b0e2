/** ezxml_insert, ezxml_child and ezxml_idx of linux_usr/ezxml.c on linked tags. */
module EzxmlInsert {
  import opened EzxmlThreads

  class Tag {
    const name: string
    var off: nat
    var parent: Tag?
    var child: Tag?
    var ordered: Tag?
    var next: Tag?
    var sibling: Tag?

    /** The sub tags in `ordered` order, and the positions that the sibling thread visits. */
    ghost var kids: seq<Tag>
    ghost var thread: seq<nat>

    constructor (name: string)
      ensures this.name == name && child == null && Valid()
    {
      this.name, off := name, 0;
      parent, child, ordered, next, sibling := null, null, null, null, null;
      kids, thread := [], [];
    }

    ghost predicate Valid()
      reads this, kids
    {
      this !in kids && Distinct(kids) && child == At(kids, 0) &&
      OrderedChain(kids) && NextChain(kids) && SiblingChain(kids, thread) &&
      Sorted(Offs(kids)) && IsThread(Names(kids), thread) &&
      forall k <- kids :: k.parent == this
    }
  }

  function At(kids: seq<Tag>, i: nat): Tag? {
    if i < |kids| then kids[i] else null
  }

  predicate Distinct(kids: seq<Tag>) {
    forall i, j :: 0 <= i < j < |kids| ==> kids[i] != kids[j]
  }

  ghost function Names(kids: seq<Tag>): (r: seq<string>)
    ensures |r| == |kids| && forall i :: 0 <= i < |kids| ==> r[i] == kids[i].name
  {
    if kids == [] then [] else [kids[0].name] + Names(kids[1..])
  }

  ghost function Offs(kids: seq<Tag>): (r: seq<nat>)
    reads kids`off
    ensures |r| == |kids| && forall i :: 0 <= i < |kids| ==> r[i] == kids[i].off
  {
    if kids == [] then [] else [kids[0].off] + Offs(kids[1..])
  }

  ghost predicate OrderedChain(kids: seq<Tag>)
    reads kids`ordered
  {
    forall i :: 0 <= i < |kids| ==> kids[i].ordered == At(kids, i + 1)
  }

  ghost predicate NextChain(kids: seq<Tag>)
    reads kids`next
  {
    forall i :: 0 <= i < |kids| ==> kids[i].next == Follow(kids, i)
  }

  /** The next tag of the same name. */
  ghost function Follow(kids: seq<Tag>, i: nat): Tag?
    requires i < |kids|
  {
    At(kids, NameAt(Names(kids), kids[i].name, i + 1))
  }

  ghost predicate SiblingChain(kids: seq<Tag>, thread: seq<nat>)
    reads kids`sibling
  {
    (forall a :: 0 <= a < |thread| ==> thread[a] < |kids|) &&
    forall a :: 0 <= a < |thread| ==> kids[thread[a]].sibling == ThreadAt(kids, thread, a + 1)
  }

  ghost function ThreadAt(kids: seq<Tag>, thread: seq<nat>, a: nat): Tag? {
    if a < |thread| then At(kids, thread[a]) else null
  }

  // ----- looking tags up -----

  /** ezxml_child: the first sub tag of the name. */
  method Child(xml: Tag, name: string) returns (r: Tag?)
    requires xml.Valid()
    ensures r == At(xml.kids, NameAt(Names(xml.kids), name, 0))
  {
    hide Names, ThreadAt, SiblingChain, OrderedChain, NextChain, Sorted, IsFirst;
    r := xml.child;
    ghost var a, kids, thread, names := 0, xml.kids, xml.thread, Names(xml.kids);
    ThreadIs(kids, thread, 0);
    while r != null && r.name != name
      invariant a <= |thread| && r == ThreadAt(kids, thread, a)
      invariant forall b :: 0 <= b < a ==> names[thread[b]] != name
      decreases |thread| - a
    {
      ThreadIs(kids, thread, a);
      r := r.sibling;
      a := a + 1;
    }
    ThreadIs(kids, thread, a);
    ThreadFinds(names, thread, name, a);
  }

  lemma ThreadFinds(names: seq<string>, thread: seq<nat>, name: string, a: nat)
    requires IsThread(names, thread) && a <= |thread|
    requires forall b :: 0 <= b < a ==> names[thread[b]] != name
    requires a < |thread| ==> names[thread[a]] == name
    ensures NameAt(names, name, 0) == if a < |thread| then thread[a] else |names|
  {
    var f := NameAt(names, name, 0);
    if f < |names| {
      assert IsFirst(names, f);
      assert f in thread;
    }
    if f < |names| && a < |thread| {
      var b :| 0 <= b < |thread| && thread[b] == f;
      assert names[thread[b]] == name;
      assert thread[a] <= thread[b];
    }
  }

  // ----- inserting -----

  /** The walk to the last tag whose offset is not greater. */
  method WalkOrdered(head: Tag, off: nat, ghost kids: seq<Tag>) returns (cur: Tag, ghost i: nat)
    requires OrderedChain(kids) && kids != [] && head == kids[0] && head.off <= off
    ensures i < |kids| && cur == kids[i] && i + 1 == Place(Offs(kids), off)
  {
    ghost var offs := Offs(kids);
    cur, i := head, 0;
    while cur.ordered != null && cur.ordered.off <= off
      invariant i < |kids| && cur == kids[i]
      invariant forall k :: 0 <= k <= i ==> offs[k] <= off
      decreases |kids| - i
    {
      cur := cur.ordered;
      i := i + 1;
    }
    PlaceIs(offs, off, i + 1);
  }

  /** The thread with the two links that putting xml in at p makes. */
  lemma OrderedLinked(kids: seq<Tag>, p: nat, xml: Tag)
    requires p <= |kids| && xml.ordered == At(kids, p)
    requires forall i :: 0 <= i < |kids| ==> kids[i].ordered == if i + 1 == p then xml else At(kids, i + 1)
    ensures OrderedChain(Insert(kids, p, xml))
  {
  }

  lemma HeadIs(kids: seq<Tag>)
    ensures At(kids, 0) == null <==> kids == []
    ensures kids != [] ==> At(kids, 0) == kids[0]
  {
  }

  /** The part that links the tag into `ordered`. */
  method InsertOrdered(xml: Tag, dest: Tag, off: nat, ghost kids: seq<Tag>) returns (ghost p: nat)
    requires OrderedChain(kids) && Distinct(kids) && dest.child == At(kids, 0) && xml !in kids
    modifies xml`ordered, dest`child, kids`ordered
    ensures p == Place(Offs(kids), off)
    ensures dest.child == Insert(kids, p, xml)[0] && OrderedChain(Insert(kids, p, xml))
  {
    hide Insert, Offs, Place, At;
    ghost var offs := Offs(kids);
    HeadIs(kids);
    xml.ordered := null;
    var head := dest.child;
    if head == null {
      dest.child := xml;
      p := 0;
      PlaceIs(offs, off, p);
    } else if head.off <= off {
      ghost var i;
      var cur;
      cur, i := WalkOrdered(head, off, kids);
      p := i + 1;
      xml.ordered := cur.ordered;
      cur.ordered := xml;
    } else {
      xml.ordered := head;
      dest.child := xml;
      p := 0;
      PlaceIs(offs, off, p);
    }
    assert Offs(kids) == offs;
    OrderedLinked(kids, p, xml);
  }

  lemma PlaceIs(offs: seq<nat>, off: nat, p: nat)
    requires p <= |offs| && (forall i :: 0 <= i < p ==> offs[i] <= off) && (p < |offs| ==> offs[p] > off)
    ensures Place(offs, off) == p
  {
  }

  lemma InsertIs<T>(s: seq<T>, p: nat, x: T, r: seq<T>)
    requires p <= |s| && |r| == |s| + 1 && r[p] == x
    requires forall i :: 0 <= i < p ==> r[i] == s[i]
    requires forall i :: p < i < |r| ==> r[i] == s[i - 1]
    ensures r == Insert(s, p, x)
  {
  }

  lemma NamesInserted(kids: seq<Tag>, p: nat, xml: Tag)
    requires p <= |kids|
    ensures Names(Insert(kids, p, xml)) == Insert(Names(kids), p, xml.name)
  {
    var r, a, b := Insert(kids, p, xml), Names(Insert(kids, p, xml)), Names(kids);
    hide *;
    forall i | 0 <= i < p ensures a[i] == b[i] {
      assert r[i] == kids[i];
    }
    forall i | p < i < |a| ensures a[i] == b[i - 1] {
      assert r[i] == kids[i - 1];
    }
    InsertIs(b, p, xml.name, a);
  }

  lemma OffsInserted(kids: seq<Tag>, p: nat, xml: Tag)
    requires p <= |kids|
    ensures Offs(Insert(kids, p, xml)) == Insert(Offs(kids), p, xml.off)
  {
    var r, a, b := Insert(kids, p, xml), Offs(Insert(kids, p, xml)), Offs(kids);
    hide *;
    forall i | 0 <= i < p ensures a[i] == b[i] {
      assert r[i] == kids[i];
    }
    forall i | p < i < |a| ensures a[i] == b[i - 1] {
      assert r[i] == kids[i - 1];
    }
    InsertIs(b, p, xml.off, a);
  }

  lemma AtMoved(kids: seq<Tag>, p: nat, xml: Tag, j: nat)
    requires p <= |kids|
    ensures At(Insert(kids, p, xml), Moved(j, p)) == At(kids, j) && At(Insert(kids, p, xml), p) == xml
  {
  }

  lemma MovedIs(kids: seq<Tag>, p: nat, xml: Tag, i: nat)
    requires p <= |kids| && i < |kids|
    ensures Moved(i, p) <= |kids| && Insert(kids, p, xml)[Moved(i, p)] == kids[i]
  {
  }

  // ----- the next chains -----

  /** Where the chains lead after xml was put in at p: xml follows the last tag of its name before p. */
  lemma FollowMoved(kids: seq<Tag>, p: nat, xml: Tag, i: nat)
    requires p <= |kids| && i < |kids|
    ensures var j := NameAt(Names(kids), kids[i].name, i + 1);
            Follow(Insert(kids, p, xml), Moved(i, p)) ==
              if kids[i].name == xml.name && i < p <= j then xml else Follow(kids, i)
  {
    hide Names, At, Insert, Moved;
    MovedIs(kids, p, xml, i);
    NamesInserted(kids, p, xml);
    NameAtMoved(Names(kids), p, xml.name, kids[i].name, i);
    AtMoved(kids, p, xml, NameAt(Names(kids), kids[i].name, i + 1));
  }

  lemma FollowNew(kids: seq<Tag>, p: nat, xml: Tag)
    requires p <= |kids|
    ensures Follow(Insert(kids, p, xml), p) == At(kids, NameAt(Names(kids), xml.name, p))
  {
    hide Names, At, Insert;
    NamesInserted(kids, p, xml);
    NameAtNew(Names(kids), p, xml.name);
    AtMoved(kids, p, xml, NameAt(Names(kids), xml.name, p));
  }

  /** The tag before p whose chain xml joins. */
  ghost predicate Joins(kids: seq<Tag>, p: nat, name: string, i: nat)
    requires i < |kids|
  {
    kids[i].name == name && i < p <= NameAt(Names(kids), name, i + 1)
  }

  lemma NextLinked(kids: seq<Tag>, p: nat, xml: Tag)
    requires p <= |kids| && xml.next == At(kids, NameAt(Names(kids), xml.name, p))
    requires forall i :: 0 <= i < |kids| ==>
               kids[i].next == if Joins(kids, p, xml.name, i) then xml else Follow(kids, i)
    ensures NextChain(Insert(kids, p, xml))
  {
    hide Insert, Names, At, Follow;
    var r := Insert(kids, p, xml);
    forall i' | 0 <= i' < |r| ensures r[i'].next == Follow(r, i') {
      if i' == p {
        FollowNew(kids, p, xml);
      } else {
        FollowMoved(kids, p, xml, if i' < p then i' else i' - 1);
      }
    }
  }

  /** The walk along the tags of one name to the last whose offset is not greater. */
  method WalkNext(first: Tag, off: nat, ghost kids: seq<Tag>, ghost f: nat) returns (cur: Tag, ghost q: nat)
    requires NextChain(kids) && Sorted(Offs(kids)) && f < |kids| && kids[f] == first && first.off <= off
    ensures f <= q < |kids| && cur == kids[q] && cur.name == first.name && cur.off <= off
    ensures var j := NameAt(Names(kids), first.name, q + 1); j < |kids| ==> kids[j].off > off
  {
    hide Names, Offs, Follow, Sorted;
    cur, q := first, f;
    FollowIs(kids, q);
    while cur.next != null && cur.next.off <= off
      invariant f <= q < |kids| && cur == kids[q] && cur.name == first.name && cur.off <= off
      decreases |kids| - q
    {
      FollowIs(kids, q);
      q := NameAt(Names(kids), first.name, q + 1);
      cur := cur.next;
    }
    FollowIs(kids, q);
  }

  lemma FollowIs(kids: seq<Tag>, i: nat)
    requires i < |kids|
    ensures var j := NameAt(Names(kids), kids[i].name, i + 1);
            (Follow(kids, i) == if j < |kids| then kids[j] else null) && (j < |kids| ==> kids[j].name == kids[i].name)
  {
  }

  /** A tag that is not the first of its name. */
  method InsertNext(xml: Tag, first: Tag, off: nat, ghost kids: seq<Tag>, ghost f: nat, ghost p: nat)
    requires NextChain(kids) && Sorted(Offs(kids)) && Distinct(kids) && xml !in kids
    requires f == NameAt(Names(kids), xml.name, 0) < |kids| && kids[f] == first && first.off <= off
    requires p == Place(Offs(kids), off)
    modifies xml`next, kids`next
    ensures NextChain(Insert(kids, p, xml))
  {
    hide Names, Offs, Insert, Place;
    ghost var q;
    var cur;
    cur, q := WalkNext(first, off, kids, f);
    ghost var j := NameAt(Names(kids), xml.name, q + 1);
    PlaceAfter(kids, off, p, q, j);
    NameAtIs(Names(kids), xml.name, p, j);
    xml.next := cur.next;
    cur.next := xml;
    OnlyOneJoins(kids, p, xml.name, q);
    NextLinked(kids, p, xml);
  }

  lemma PlaceAfter(kids: seq<Tag>, off: nat, p: nat, q: nat, j: nat)
    requires p == Place(Offs(kids), off) && q < j <= |kids| && kids[q].off <= off
    requires Sorted(Offs(kids)) && (j < |kids| ==> kids[j].off > off)
    ensures q < p <= j
  {
    hide Place;
    var offs := Offs(kids);
    assert offs[q] <= off && (j < |offs| ==> offs[j] > off);
  }

  /** Only the last tag of the name before p has the next one at p or later. */
  lemma OnlyOneJoins(kids: seq<Tag>, p: nat, name: string, q: nat)
    requires q < |kids| && Joins(kids, p, name, q)
    ensures forall i :: 0 <= i < |kids| ==> (Joins(kids, p, name, i) <==> i == q)
  {
  }

  // ----- the sibling thread -----

  /** The walk along the sibling thread to the first tag of a name. */
  method FindType(head: Tag, name: string, ghost kids: seq<Tag>, ghost thread: seq<nat>)
    returns (cur: Tag?, prev: Tag?, ghost a: nat)
    requires SiblingChain(kids, thread) && IsThread(Names(kids), thread) && kids != [] && head == kids[0]
    ensures a <= |thread| && cur == ThreadAt(kids, thread, a) &&
        prev == if a == 0 then null else ThreadAt(kids, thread, a - 1)
    ensures NameAt(Names(kids), name, 0) == if a < |thread| then thread[a] else |kids|
  {
    hide Names, ThreadAt, SiblingChain, IsFirst;
    cur, prev, a := head, null, 0;
    ghost var names := Names(kids);
    ThreadIs(kids, thread, 0);
    while cur != null && cur.name != name
      invariant a <= |thread| && cur == ThreadAt(kids, thread, a)
      invariant prev == if a == 0 then null else ThreadAt(kids, thread, a - 1)
      invariant forall b :: 0 <= b < a ==> names[thread[b]] != name
      decreases |thread| - a
    {
      ThreadIs(kids, thread, a);
      prev := cur;
      cur := cur.sibling;
      a := a + 1;
    }
    ThreadIs(kids, thread, a);
    ThreadFinds(names, thread, name, a);
  }

  lemma ThreadAtMoved(kids: seq<Tag>, p: nat, xml: Tag, t: seq<nat>, a: nat)
    requires p <= |kids|
    ensures ThreadAt(Insert(kids, p, xml), MovedAll(t, p), a) == ThreadAt(kids, t, a)
  {
  }

  /** The thread as it was, around a tag that does not join it. */
  lemma SiblingsMoved(kids: seq<Tag>, p: nat, xml: Tag, t: seq<nat>)
    requires p <= |kids| && SiblingChain(kids, t)
    ensures SiblingChain(Insert(kids, p, xml), MovedAll(t, p))
  {
    hide ThreadAt;
    var r, t' := Insert(kids, p, xml), MovedAll(t, p);
    forall a | 0 <= a < |t'| ensures r[t'[a]].sibling == ThreadAt(r, t', a + 1) {
      assert r[t'[a]] == kids[t[a]];
      ThreadAtMoved(kids, p, xml, t, a + 1);
    }
  }

  /** The thread with the two links that make xml join it. */
  lemma SiblingsJoined(kids: seq<Tag>, p: nat, xml: Tag, t: seq<nat>)
    requires p <= |kids| && (forall a :: 0 <= a < |t| ==> t[a] < |kids|)
    requires xml.sibling == ThreadAt(kids, t, Upto(t, p))
    requires forall a :: 0 <= a < |t| ==>
               kids[t[a]].sibling == if a + 1 == Upto(t, p) then xml else ThreadAt(kids, t, a + 1)
    ensures SiblingChain(Insert(kids, p, xml), Joined(t, p))
  {
    hide ThreadAt, Insert, Joined;
    var r, t', u := Insert(kids, p, xml), Joined(t, p), Upto(t, p);
    JoinedLength(kids, p, xml, t);
    forall a | 0 <= a < |t'| ensures r[t'[a]].sibling == ThreadAt(r, t', a + 1) {
      JoinedAt(kids, p, xml, t, a + 1);
      JoinedIs(kids, p, xml, t, a);
    }
  }

  lemma JoinedLength(kids: seq<Tag>, p: nat, xml: Tag, t: seq<nat>)
    requires p <= |kids| && (forall a :: 0 <= a < |t| ==> t[a] < |kids|)
    ensures |Joined(t, p)| == |t| + 1 && |Insert(kids, p, xml)| == |kids| + 1
    ensures forall a :: 0 <= a <= |t| ==> Joined(t, p)[a] <= |kids|
  {
  }

  lemma JoinedIs(kids: seq<Tag>, p: nat, xml: Tag, t: seq<nat>, a: nat)
    requires p <= |kids| && (forall a :: 0 <= a < |t| ==> t[a] < |kids|) && a <= |t|
    ensures |Joined(t, p)| == |t| + 1
    ensures var u := Upto(t, p);
            Joined(t, p)[a] < |Insert(kids, p, xml)| &&
            Insert(kids, p, xml)[Joined(t, p)[a]] == if a < u then kids[t[a]] else if a == u then xml else kids[t[a - 1]]
  {
    JoinedEntry(t, p, a);
    hide Joined, Moved;
    if a != Upto(t, p) {
      MovedIs(kids, p, xml, t[if a < Upto(t, p) then a else a - 1]);
    }
  }

  lemma JoinedEntry(t: seq<nat>, p: nat, a: nat)
    requires a <= |t|
    ensures |Joined(t, p)| == |t| + 1
    ensures var u := Upto(t, p);
            Joined(t, p)[a] == if a < u then Moved(t[a], p) else if a == u then p else Moved(t[a - 1], p)
  {
  }

  lemma JoinedAt(kids: seq<Tag>, p: nat, xml: Tag, t: seq<nat>, a: nat)
    requires p <= |kids|
    ensures ThreadAt(Insert(kids, p, xml), Joined(t, p), a) ==
              if a < Upto(t, p) then ThreadAt(kids, t, a) else if a == Upto(t, p) then xml else ThreadAt(kids, t, a - 1)
  {
    hide Insert, At;
    var u := Upto(t, p);
    if a < u {
      AtMoved(kids, p, xml, t[a]);
    } else if a > u && a - 1 < |t| {
      AtMoved(kids, p, xml, t[a - 1]);
    }
    AtMoved(kids, p, xml, 0);
  }

  lemma PlaceSplits(kids: seq<Tag>, off: nat, i: nat)
    requires Sorted(Offs(kids)) && i < |kids|
    ensures kids[i].off <= off <==> i < Place(Offs(kids), off)
  {
    var offs := Offs(kids);
    var p := Place(offs, off);
    hide Place, Offs;
    assert offs[i] == kids[i].off;
    assert p < |offs| && p <= i ==> offs[p] <= offs[i];
  }

  lemma ThreadIs(kids: seq<Tag>, t: seq<nat>, a: nat)
    requires SiblingChain(kids, t)
    ensures ThreadAt(kids, t, a) != null <==> a < |t|
    ensures a < |t| ==>
              t[a] < |kids| && ThreadAt(kids, t, a) == kids[t[a]] && kids[t[a]].sibling == ThreadAt(kids, t, a + 1)
  {
  }

  lemma ThreadStarts(kids: seq<Tag>, t: seq<nat>)
    requires SiblingChain(kids, t) && t != []
    ensures t[0] < |kids| && ThreadAt(kids, t, 0) == kids[t[0]]
  {
  }

  /** The walk to where the new tag joins the thread. */
  method WalkSiblings(head: Tag, off: nat, ghost kids: seq<Tag>, ghost p: nat, ghost t: seq<nat>)
    returns (cur: Tag?, prev: Tag?)
    requires SiblingChain(kids, t) && t != [] && head == kids[t[0]]
    requires p == Place(Offs(kids), off) && Sorted(Offs(kids))
    ensures var u := Upto(t, p);
            cur == ThreadAt(kids, t, u) && prev == if u == 0 then null else ThreadAt(kids, t, u - 1)
  {
    hide Offs, Place, Sorted, ThreadAt, SiblingChain;
    ghost var a := 0;
    cur, prev := head, null;
    ThreadStarts(kids, t);
    while cur != null && cur.off <= off
      invariant a <= |t| && cur == ThreadAt(kids, t, a) && prev == if a == 0 then null else ThreadAt(kids, t, a - 1)
      invariant forall b :: 0 <= b < a ==> t[b] < p
      decreases |t| - a
    {
      ThreadIs(kids, t, a);
      PlaceSplits(kids, off, t[a]);
      prev := cur;
      cur := cur.sibling;
      a := a + 1;
    }
    ThreadIs(kids, t, a);
    if a < |t| {
      PlaceSplits(kids, off, t[a]);
    }
    UptoIs(t, p, a);
  }

  lemma UptoIs(t: seq<nat>, p: nat, a: nat)
    requires a <= |t| && (forall b :: 0 <= b < a ==> t[b] < p) && (a < |t| ==> t[a] >= p)
    ensures Upto(t, p) == a
  {
  }

  predicate Rising(t: seq<nat>) {
    forall a, b :: 0 <= a < b < |t| ==> t[a] < t[b]
  }

  /** The thread after the link over place a. */
  lemma SiblingsCut(kids: seq<Tag>, t: seq<nat>, a: nat)
    requires (forall b :: 0 <= b < |t| ==> t[b] < |kids|) && 0 < a < |t|
    requires forall b :: 0 <= b < |t| ==> kids[t[b]].sibling == ThreadAt(kids, t, if b + 1 == a then a + 1 else b + 1)
    ensures SiblingChain(kids, t[..a] + t[a + 1..])
  {
  }

  method CutSibling(cur: Tag, prev: Tag, ghost kids: seq<Tag>, ghost t: seq<nat>, ghost a: nat)
    requires SiblingChain(kids, t) && Rising(t) && Distinct(kids)
    requires 0 < a < |t| && cur == kids[t[a]] && prev == kids[t[a - 1]]
    modifies prev`sibling
    ensures SiblingChain(kids, t[..a] + t[a + 1..])
  {
    hide ThreadAt;
    prev.sibling := cur.sibling;
    SiblingsCut(kids, t, a);
  }

  method JoinSibling(xml: Tag, head: Tag, off: nat, ghost kids: seq<Tag>, ghost p: nat, ghost t: seq<nat>)
    requires SiblingChain(kids, t) && t != [] && head == kids[t[0]] && Rising(t) && Distinct(kids) && xml !in kids
    requires p == Place(Offs(kids), off) && Sorted(Offs(kids))
    modifies xml`sibling, kids`sibling
    ensures SiblingChain(Insert(kids, p, xml), Joined(t, p))
  {
    hide ThreadAt, Insert, Joined, Offs, Place, Sorted;
    var cur, prev := WalkSiblings(head, off, kids, p, t);
    ghost var u := Upto(t, p);
    if u > 0 {
      ThreadIs(kids, t, u - 1);
    }
    xml.sibling := cur;
    if prev != null {
      prev.sibling := xml;
    }
    SiblingsJoined(kids, p, xml, t);
  }

  /** The old first tag of the name leaves the thread, unless the thread starts with it. */
  method CutOldFirst(cur: Tag?, prev: Tag?, ghost kids: seq<Tag>, ghost thread: seq<nat>, ghost a: nat)
      returns (ghost t: seq<nat>)
    requires SiblingChain(kids, thread) && IsThread(Names(kids), thread) && Distinct(kids) && a <= |thread|
    requires cur == ThreadAt(kids, thread, a) && prev == if a == 0 then null else ThreadAt(kids, thread, a - 1)
    modifies kids`sibling
    ensures t == if a < |thread| then Without(thread, thread[a]) else thread
    ensures SiblingChain(kids, t)
  {
    hide ThreadAt, Names, IsFirst, NameAt, Without, SiblingChain;
    t := thread;
    if a > 0 {
      ThreadIs(kids, thread, a - 1);
    }
    ThreadIs(kids, thread, a);
    if a < |thread| {
      WithoutAt(thread, a);
    }
    if prev != null && cur != null {
      CutSibling(cur, prev, kids, thread, a);
      t := thread[..a] + thread[a + 1..];
    }
  }

  /** The first tag of its name, which takes the place of the old first one in the thread. */
  method InsertFirst(xml: Tag, head: Tag, cur: Tag?, prev: Tag?, off: nat,
                     ghost kids: seq<Tag>, ghost thread: seq<nat>, ghost p: nat, ghost a: nat)
    requires SiblingChain(kids, thread) && IsThread(Names(kids), thread) && Distinct(kids) && Sorted(Offs(kids))
    requires kids != [] && head == kids[0] && xml !in kids && p == Place(Offs(kids), off)
    requires a <= |thread| && cur == ThreadAt(kids, thread, a) &&
        prev == if a == 0 then null else ThreadAt(kids, thread, a - 1)
    requires NameAt(Names(kids), xml.name, 0) == if a < |thread| then thread[a] else |kids|
    requires NameAt(Names(kids), xml.name, 0) >= p
    modifies xml`sibling, kids`sibling
    ensures SiblingChain(Insert(kids, p, xml), NewThread(Names(kids), thread, p, xml.name))
  {
    hide ThreadAt, Names, Offs, Place, Sorted, Joined, Insert, IsFirst, SiblingChain, Without;
    if a < |thread| {
      WithoutKeeps(Names(kids), thread, thread[a]);
    }
    ghost var t := CutOldFirst(cur, prev, kids, thread, a);
    JoinSibling(xml, head, off, kids, p, t);
  }

  // ----- ezxml_insert -----

  /** The new next link when the tag is the first of its name. */
  lemma NextOfFirst(kids: seq<Tag>, p: nat, xml: Tag)
    requires NextChain(kids) && p <= |kids| && p <= NameAt(Names(kids), xml.name, 0)
    requires xml.next == At(kids, NameAt(Names(kids), xml.name, 0))
    ensures NextChain(Insert(kids, p, xml))
  {
    var names := Names(kids);
    hide Names, Insert;
    NameAtIs(names, xml.name, p, NameAt(names, xml.name, 0));
    assert forall i :: 0 <= i < |kids| ==> names[i] == kids[i].name;
    NextLinked(kids, p, xml);
  }

  /** The part that links the tag into the next chain of its name and the sibling thread. */
  method InsertThreads(xml: Tag, head: Tag, off: nat, ghost kids: seq<Tag>, ghost thread: seq<nat>, ghost p: nat)
    requires NextChain(kids) && SiblingChain(kids, thread) && IsThread(Names(kids), thread)
    requires Distinct(kids) && Sorted(Offs(kids)) && kids != [] && head == kids[0] && xml !in kids
    requires p == Place(Offs(kids), off)
    modifies xml`next, xml`sibling, kids`next, kids`sibling
    ensures NextChain(Insert(kids, p, xml))
    ensures SiblingChain(Insert(kids, p, xml), NewThread(Names(kids), thread, p, xml.name))
  {
    hide ThreadAt, Names, Offs, Place, Sorted, Joined, Insert, IsFirst, SiblingChain, Without, IsThread, NextChain;
    ghost var a;
    var cur, prev;
    cur, prev, a := FindType(head, xml.name, kids, thread);
    ghost var f := NameAt(Names(kids), xml.name, 0);
    ThreadIs(kids, thread, a);
    if f < |kids| {
      PlaceSplits(kids, off, f);
    }
    if cur != null && cur.off <= off {
      InsertNext(xml, cur, off, kids, f, p);
      SiblingsMoved(kids, p, xml, thread);
    } else {
      xml.next := cur;
      NextOfFirst(kids, p, xml);
      InsertFirst(xml, head, cur, prev, off, kids, thread, p, a);
    }
  }

  lemma SortedInserted(offs: seq<nat>, off: nat)
    requires Sorted(offs)
    ensures Sorted(Insert(offs, Place(offs, off), off))
  {
  }

  lemma DistinctInserted(kids: seq<Tag>, p: nat, xml: Tag)
    requires Distinct(kids) && xml !in kids && p <= |kids|
    ensures Distinct(Insert(kids, p, xml))
  {
  }

  /** Everything that Valid says, after the links are made. */
  lemma ValidAgain(dest: Tag, kids: seq<Tag>, p: nat, xml: Tag, thread: seq<nat>)
    requires Distinct(kids) && Sorted(Offs(kids)) && IsThread(Names(kids), thread) && dest !in kids
    requires xml !in kids && xml != dest && p == Place(Offs(kids), xml.off)
    requires dest.kids == Insert(kids, p, xml) && dest.thread == NewThread(Names(kids), thread, p, xml.name)
    requires dest.child == dest.kids[0] && OrderedChain(dest.kids) && NextChain(dest.kids)
    requires SiblingChain(dest.kids, dest.thread) && xml.parent == dest && forall k <- kids :: k.parent == dest
    ensures dest.Valid()
  {
    hide Names, Offs, IsThread, Sorted, NewThread, SiblingChain, NextChain, OrderedChain, Place, Distinct;
    DistinctInserted(kids, p, xml);
    SortedInserted(Offs(kids), xml.off);
    ThreadKept(Names(kids), thread, p, xml.name);
    NamesInserted(kids, p, xml);
    OffsInserted(kids, p, xml);
  }

  /** ezxml_insert */
  method InsertTag(xml: Tag, dest: Tag, off: nat)
    requires dest.Valid() && xml !in dest.kids && xml != dest
    modifies xml`off, xml`parent, xml`next, xml`sibling, xml`ordered
    modifies dest`child, dest`kids, dest`thread, dest.kids`next, dest.kids`sibling, dest.kids`ordered
    ensures dest.Valid() && xml.off == off && Offs(old(dest.kids)) == old(Offs(dest.kids))
    ensures var (kids, p) := (old(dest.kids), Place(old(Offs(dest.kids)), off));
            dest.kids == Insert(kids, p, xml) && dest.thread == NewThread(Names(kids), old(dest.thread), p, xml.name)
  {
    hide Names, Offs, IsThread, Sorted, NewThread, SiblingChain, NextChain, OrderedChain, Place, Insert, Distinct;
    ghost var kids, thread, offs := dest.kids, dest.thread, Offs(dest.kids);
    ghost var p := Place(offs, off);
    dest.kids := Insert(kids, p, xml);
    dest.thread := NewThread(Names(kids), thread, p, xml.name);
    xml.next, xml.sibling := null, null;
    xml.off := off;
    xml.parent := dest;
    var head := dest.child;
    assert Offs(kids) == offs;
    p := InsertOrdered(xml, dest, off, kids);
    if head != null {
      InsertThreads(xml, head, off, kids, thread, p);
    } else {
      OnlyTag(xml, thread);
    }
    assert Offs(kids) == offs;
    ValidAgain(dest, kids, p, xml, thread);
  }

  lemma OnlyTag(xml: Tag, thread: seq<nat>)
    requires xml.next == null && xml.sibling == null && IsThread([], thread)
    ensures NextChain(Insert([], 0, xml)) && SiblingChain(Insert([], 0, xml), [0])
    ensures NewThread(Names([]), thread, 0, xml.name) == [0]
  {
  }

  // ----- ezxml_idx -----

  /** The positions of a name, from i on. */
  function Positions(names: seq<string>, name: string, i: nat): seq<nat>
    requires i <= |names|
    decreases |names| - i
  {
    if i == |names| then []
    else if names[i] == name then [i] + Positions(names, name, i + 1)
    else Positions(names, name, i + 1)
  }

  lemma RisingFrom(rest: seq<nat>, i: nat)
    requires Rising(rest) && forall j :: j in rest ==> i < j
    ensures Rising([i] + rest) && forall j :: j in [i] + rest <==> j == i || j in rest
  {
    assert forall k :: 0 <= k < |rest| ==> rest[k] in rest;
  }

  /** They are all the positions of the name, in order. */
  lemma {:induction false} PositionsAre(names: seq<string>, name: string, i: nat)
    requires i <= |names|
    ensures var r := Positions(names, name, i);
            Rising(r) && forall j :: j in r <==> i <= j < |names| && names[j] == name
    decreases |names| - i
  {
    if i < |names| {
      PositionsAre(names, name, i + 1);
      RisingFrom(Positions(names, name, i + 1), i);
    }
  }

  lemma {:induction false} PositionsFrom(names: seq<string>, name: string, i: nat)
    requires i <= |names|
    ensures var j := NameAt(names, name, i);
            Positions(names, name, i) == if j == |names| then [] else [j] + Positions(names, name, j + 1)
    decreases |names| - i
  {
    if i < |names| && names[i] != name {
      PositionsFrom(names, name, i + 1);
    }
  }

  /** Entry number n of the positions from i on, as a tag. */
  ghost function Pick(kids: seq<Tag>, name: string, i: nat, n: nat): Tag?
    requires i <= |kids|
  {
    var places := Positions(Names(kids), name, i);
    if n < |places| then At(kids, places[n]) else null
  }

  lemma PickOn(kids: seq<Tag>, name: string, i: nat, n: nat)
    requires i <= |kids|
    ensures var j := NameAt(Names(kids), name, i);
            Pick(kids, name, i, n) == if j == |kids| then null else if n == 0 then At(kids, j)
                else Pick(kids, name, j + 1, n - 1)
  {
    hide Names, Positions;
    PositionsFrom(Names(kids), name, i);
  }

  /** ezxml_idx, from the tag that ezxml_child gives: the tag number `idx` of that name, counted from 0. */
  method Idx(xml: Tag?, idx: nat, ghost parent: Tag, ghost name: string) returns (r: Tag?)
    requires parent.Valid() && xml == At(parent.kids, NameAt(Names(parent.kids), name, 0))
    ensures r == Pick(parent.kids, name, 0, idx)
  {
    r := NextTag(xml, idx, parent.kids, name);
  }

  /** The loop over the next links. */
  method NextTag(xml: Tag?, idx: nat, ghost kids: seq<Tag>, ghost name: string) returns (r: Tag?)
    requires NextChain(kids) && xml == At(kids, NameAt(Names(kids), name, 0))
    ensures r == Pick(kids, name, 0, idx)
  {
    hide Names, Pick, At, NextChain, Follow;
    ghost var i: nat := 0;
    r := xml;
    var n := idx;
    while r != null && n > 0
      invariant i <= |kids| && r == At(kids, NameAt(Names(kids), name, i))
      invariant Pick(kids, name, i, n) == Pick(kids, name, 0, idx)
    {
      PickOn(kids, name, i, n);
      NextIs(kids, name, i, r);
      i := NameAt(Names(kids), name, i) + 1;
      r := r.next;
      n := n - 1;
    }
    PickOn(kids, name, i, n);
    NullAtEnd(kids, NameAt(Names(kids), name, i));
  }

  lemma NullAtEnd(kids: seq<Tag>, j: nat)
    ensures At(kids, j) == null <==> j >= |kids|
  {
  }

  lemma NextIs(kids: seq<Tag>, name: string, i: nat, r: Tag)
    requires NextChain(kids) && i <= |kids| && r == At(kids, NameAt(Names(kids), name, i))
    ensures var j := NameAt(Names(kids), name, i);
            j < |kids| && r.next == At(kids, NameAt(Names(kids), name, j + 1))
  {
    hide Names;
    var j := NameAt(Names(kids), name, i);
    assert Names(kids)[j] == kids[j].name;
  }

  // ----- any sequence of insertions -----

  /** The sub tags with their offsets. */
  ghost function Items(kids: seq<Tag>): (r: seq<Item<Tag>>)
    reads kids`off
    ensures |r| == |kids| && forall i :: 0 <= i < |r| ==> r[i] == Item(kids[i].off, kids[i])
  {
    if kids == [] then [] else [Item(kids[0].off, kids[0])] + Items(kids[1..])
  }

  /** The insertions asked for, in their order. */
  function Given(tags: seq<Tag>, offs: seq<nat>): (r: seq<Item<Tag>>)
    requires |tags| == |offs|
    ensures |r| == |tags| && forall i :: 0 <= i < |r| ==> r[i] == Item(offs[i], tags[i])
  {
    seq(|tags|, i requires 0 <= i < |tags| => Item(offs[i], tags[i]))
  }

  lemma ItemsInserted(kids: seq<Tag>, offs: seq<nat>, was: seq<Item<Tag>>, p: nat, xml: Tag)
    requires p <= |kids| == |offs| == |was| && Offs(kids) == offs
    requires forall i :: 0 <= i < |kids| ==> was[i] == Item(offs[i], kids[i])
    ensures Items(Insert(kids, p, xml)) == Insert(was, p, Item(xml.off, xml))
  {
    var r, a := Insert(kids, p, xml), Items(Insert(kids, p, xml));
    hide *;
    forall i | 0 <= i < p ensures a[i] == was[i] {
      assert r[i] == kids[i] && offs[i] == kids[i].off;
    }
    forall i | p < i < |a| ensures a[i] == was[i - 1] {
      assert r[i] == kids[i - 1] && offs[i - 1] == kids[i - 1].off;
    }
    InsertIs(was, p, Item(xml.off, xml), a);
  }

  lemma InsertedNext(tags: seq<Tag>, offs: seq<nat>, i: nat, r: seq<Item<Tag>>)
    requires i < |tags| == |offs| && r == Inserted(Given(tags[..i], offs[..i]))
    ensures Inserted(Given(tags[..i + 1], offs[..i + 1])) ==
        Insert(r, Place(ItemOffs(r), offs[i]), Item(offs[i], tags[i]))
  {
    var s, t := Given(tags[..i], offs[..i]), Given(tags[..i + 1], offs[..i + 1]);
    assert t == s + [Item(offs[i], tags[i])];
    assert t[..i] == s;
  }

  /** In document order every insertion is an append. */
  lemma AppendedNext(tags: seq<Tag>, offs: seq<nat>, i: nat)
    requires i < |tags| == |offs| && Sorted(offs)
    ensures Place(offs[..i], offs[i]) == i && Insert(tags[..i], i, tags[i]) == tags[..i + 1]
  {
    PlaceAtEnd(offs[..i], offs[i]);
  }

  ghost predicate Once(dest: Tag)
    requires dest.Valid()
    reads dest, dest.kids
  {
    OncePerName(Names(dest.kids), dest.thread)
  }

  /** Tags put one after another, at any offsets, into a tag without sub tags: they stand in the stable order of their
    * offsets, and, if they come in document order, each name is in the sibling thread once. */
  method InsertAll(tags: seq<Tag>, offs: seq<nat>, dest: Tag)
    requires dest.Valid() && dest.kids == [] && |tags| == |offs| && Distinct(tags) && dest !in tags
    modifies tags`off, tags`parent, tags`next, tags`sibling, tags`ordered, dest`child, dest`kids, dest`thread
    ensures dest.Valid() && Items(dest.kids) == Inserted(Given(tags, offs))
    ensures Sorted(offs) ==> dest.kids == tags && Once(dest)
  {
    hide Names, Offs, Items, Given, Inserted, Place, Insert, NewThread, Once, Tag.Valid, Distinct, Sorted;
    var i := 0;
    NoneInserted(dest, tags, offs);
    while i < |tags|
      invariant i <= |tags| && dest.Valid() && forall k <- dest.kids :: k in tags[..i]
      invariant Items(dest.kids) == Inserted(Given(tags[..i], offs[..i]))
      invariant Sorted(offs) ==> dest.kids == tags[..i] && Offs(dest.kids) == offs[..i] && Once(dest)
    {
      InsertOne(tags, offs, i, dest);
      i := i + 1;
    }
    assert tags[..i] == tags && offs[..i] == offs;
  }

  lemma NoneInserted(dest: Tag, tags: seq<Tag>, offs: seq<nat>)
    requires dest.Valid() && dest.kids == [] && |tags| == |offs|
    ensures Items(dest.kids) == Inserted(Given(tags[..0], offs[..0])) && Offs(dest.kids) == offs[..0] && tags[..0] == []
    ensures Once(dest)
  {
  }

  /** One more tag. */
  method InsertOne(tags: seq<Tag>, offs: seq<nat>, i: nat, dest: Tag)
    requires dest.Valid() && i < |tags| == |offs| && Distinct(tags) && dest !in tags &&
        forall k <- dest.kids :: k in tags[..i]
    requires Items(dest.kids) == Inserted(Given(tags[..i], offs[..i]))
    requires Sorted(offs) ==> dest.kids == tags[..i] && Offs(dest.kids) == offs[..i] && Once(dest)
    modifies tags`off, tags`parent, tags`next, tags`sibling, tags`ordered, dest`child, dest`kids, dest`thread
    ensures dest.Valid() && forall k <- dest.kids :: k in tags[..i + 1]
    ensures Items(dest.kids) == Inserted(Given(tags[..i + 1], offs[..i + 1]))
    ensures Sorted(offs) ==> dest.kids == tags[..i + 1] && Offs(dest.kids) == offs[..i + 1] && Once(dest)
  {
    hide Names, Given, Inserted, Place, Insert, NewThread, OncePerName, IsThread, OrderedChain, NextChain,
        SiblingChain, Sorted;
    ghost var kids, was, thread := dest.kids, Items(dest.kids), dest.thread;
    ghost var o := Offs(kids);
    ghost var p := Place(o, offs[i]);
    assert tags[i] !in kids;
    assert forall k :: 0 <= k < |kids| ==> kids[k] in tags[..i];
    assert forall k :: 0 <= k < |kids| ==> exists j :: 0 <= j < |tags| && tags[j] == kids[k];
    assert ItemOffs(was) == o;
    InsertedNext(tags, offs, i, was);
    if Sorted(offs) {
      AppendedNext(tags, offs, i);
      OnceMore(kids, thread, tags[i]);
    }
    InsertTag(tags[i], dest, offs[i]);
    ItemsInserted(kids, o, was, p, tags[i]);
    KidsFrom(kids, p, tags, i);
    if Sorted(offs) {
      OffsInserted(kids, p, tags[i]);
      OffsAppended(offs, i);
    }
  }

  lemma OffsAppended(offs: seq<nat>, i: nat)
    requires i < |offs|
    ensures Insert(offs[..i], i, offs[i]) == offs[..i + 1]
  {
  }

  lemma KidsFrom(kids: seq<Tag>, p: nat, tags: seq<Tag>, i: nat)
    requires p <= |kids| && i < |tags| && forall k <- kids :: k in tags[..i]
    ensures forall k <- Insert(kids, p, tags[i]) :: k in tags[..i + 1]
  {
    assert tags[..i + 1] == tags[..i] + [tags[i]];
  }

  /** A tag that comes last leaves every name in the thread once. */
  lemma OnceMore(kids: seq<Tag>, thread: seq<nat>, xml: Tag)
    requires IsThread(Names(kids), thread) && OncePerName(Names(kids), thread)
    ensures var (names, r) := (Names(Insert(kids, |kids|, xml)), NewThread(Names(kids), thread, |kids|, xml.name));
            IsThread(names, r) && OncePerName(names, r)
  {
    hide *;
    NamesInserted(kids, |kids|, xml);
    var names := Names(kids);
    InsertIs(names, |names|, xml.name, names + [xml.name]);
    AppendedOnce(names, thread, xml.name);
  }

  // ----- the n-th tag of a name -----

  /** The tags of one name, in their order. */
  ghost function OfName(tags: seq<Tag>, name: string): seq<Tag> {
    if tags == [] then [] else (if tags[0].name == name then [tags[0]] else []) + OfName(tags[1..], name)
  }

  ghost function Nth(tags: seq<Tag>, n: nat): Tag? {
    if n < |tags| then tags[n] else null
  }

  lemma {:induction false} PickIsNth(kids: seq<Tag>, name: string, i: nat, n: nat)
    requires i <= |kids|
    ensures Pick(kids, name, i, n) == Nth(OfName(kids[i..], name), n)
    decreases |kids| - i
  {
    hide Names;
    if i < |kids| {
      assert kids[i..][1..] == kids[i + 1..];
      assert Names(kids)[i] == kids[i].name;
      if kids[i].name == name {
        if n > 0 {
          PickIsNth(kids, name, i + 1, n - 1);
        }
      } else {
        PickIsNth(kids, name, i + 1, n);
      }
    }
  }

  function TagsOf(items: seq<Item<Tag>>): (r: seq<Tag>)
    ensures |r| == |items| && forall i :: 0 <= i < |r| ==> r[i] == items[i].tag
  {
    seq(|items|, i requires 0 <= i < |items| => items[i].tag)
  }

  /** ezxml_child and then ezxml_idx, after any insertions: the tag number `idx` of the name in the stable order. */
  method InsertThenFind(tags: seq<Tag>, offs: seq<nat>, dest: Tag, name: string, idx: nat) returns (r: Tag?)
    requires dest.Valid() && dest.kids == [] && |tags| == |offs| && Distinct(tags) && dest !in tags
    modifies tags`off, tags`parent, tags`next, tags`sibling, tags`ordered, dest`child, dest`kids, dest`thread
    ensures r == Nth(OfName(TagsOf(Inserted(Given(tags, offs))), name), idx)
  {
    hide Names, Given, Inserted, OfName, Nth, Pick, Tag.Valid, Distinct, Sorted, Once;
    InsertAll(tags, offs, dest);
    var first := Child(dest, name);
    r := Idx(first, idx, dest, name);
    PickIsNth(dest.kids, name, 0, idx);
    assert dest.kids[0..] == dest.kids;
    assert TagsOf(Items(dest.kids)) == dest.kids;
  }
}
