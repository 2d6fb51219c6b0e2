/** The three threads through the sub tags of a tag, as positions: what ezxml_insert of linux_usr/ezxml.c keeps. */
module EzxmlThreads {
  /** The first position from i on that holds the name, or the length. */
  function NameAt(names: seq<string>, name: string, i: nat): (j: nat)
    requires i <= |names|
    ensures i <= j <= |names|
    ensures j < |names| ==> names[j] == name
    ensures forall k :: i <= k < j ==> names[k] != name
    decreases |names| - i
  {
    if i == |names| || names[i] == name then i else NameAt(names, name, i + 1)
  }

  lemma {:induction false} NameAtIs(names: seq<string>, name: string, i: nat, j: nat)
    requires i <= j <= |names| && (j < |names| ==> names[j] == name) && forall k :: i <= k < j ==> names[k] != name
    ensures NameAt(names, name, i) == j
    decreases j - i
  {
    if i < j {
      NameAtIs(names, name, i + 1, j);
    }
  }

  predicate Sorted(offs: seq<nat>) {
    forall i, j :: 0 <= i < j < |offs| ==> offs[i] <= offs[j]
  }

  /** Where a tag with this offset goes: after all that have it or a smaller one. */
  function Place(offs: seq<nat>, off: nat): (p: nat)
    ensures p <= |offs|
    ensures forall i :: 0 <= i < p ==> offs[i] <= off
    ensures p < |offs| ==> offs[p] > off
  {
    if offs == [] || offs[0] > off then 0 else 1 + Place(offs[1..], off)
  }

  function Insert<T>(s: seq<T>, p: nat, x: T): (r: seq<T>)
    requires p <= |s|
    ensures |r| == |s| + 1
    ensures forall i :: 0 <= i < p ==> r[i] == s[i]
    ensures r[p] == x
    ensures forall i :: p < i < |r| ==> r[i] == s[i - 1]
  {
    s[..p] + [x] + s[p..]
  }

  /** Where position i goes when something is put in at p. */
  function Moved(i: nat, p: nat): nat {
    if i < p then i else i + 1
  }

  function MovedAll(s: seq<nat>, p: nat): (r: seq<nat>)
    ensures |r| == |s| && forall i :: 0 <= i < |s| ==> r[i] == Moved(s[i], p)
  {
    seq(|s|, i requires 0 <= i < |s| => Moved(s[i], p))
  }

  /** The next tag of a name, after something was put in at p. */
  lemma NameAtMoved(names: seq<string>, p: nat, name: string, m: string, i: nat)
    requires p <= |names| && i < |names|
    ensures var names' := Insert(names, p, name);
            var j := NameAt(names, m, i + 1);
            NameAt(names', m, Moved(i, p) + 1) == if m == name && i < p <= j then p else Moved(j, p)
  {
    var names' := Insert(names, p, name);
    var j := NameAt(names, m, i + 1);
    var j' := if m == name && i < p <= j then p else Moved(j, p);
    forall k | Moved(i, p) + 1 <= k < j' ensures names'[k] != m {
      if k > p {
        assert names'[k] == names[k - 1];
      }
    }
    NameAtIs(names', m, Moved(i, p) + 1, j');
  }

  /** The next tag of its name after the new one. */
  lemma NameAtNew(names: seq<string>, p: nat, name: string)
    requires p <= |names|
    ensures NameAt(Insert(names, p, name), name, p + 1) == NameAt(names, name, p) + 1
  {
    var names' := Insert(names, p, name);
    var j := NameAt(names, name, p);
    forall k | p + 1 <= k < j + 1 ensures names'[k] != name {
      assert names'[k] == names[k - 1];
    }
    NameAtIs(names', name, p + 1, j + 1);
  }

  predicate IsFirst(names: seq<string>, i: nat)
    requires i < |names|
  {
    NameAt(names, names[i], 0) == i
  }

  /** The sibling thread: rising positions from the first tag on, with the first tag of every name. */
  predicate IsThread(names: seq<string>, thread: seq<nat>) {
    (forall a :: 0 <= a < |thread| ==> thread[a] < |names|) &&
    (forall a, b :: 0 <= a < b < |thread| ==> thread[a] < thread[b]) &&
    (names != [] ==> thread != [] && thread[0] == 0) &&
    (forall i :: 0 <= i < |names| && IsFirst(names, i) ==> i in thread)
  }

  /** How many positions of the thread come before p. */
  function Upto(thread: seq<nat>, p: nat): (a: nat)
    ensures a <= |thread|
    ensures forall b :: 0 <= b < a ==> thread[b] < p
    ensures a < |thread| ==> thread[a] >= p
  {
    if thread == [] || thread[0] >= p then 0 else 1 + Upto(thread[1..], p)
  }

  /** The thread without position f, unless the thread starts there. */
  function Without(thread: seq<nat>, f: nat): seq<nat> {
    var a := Upto(thread, f);
    if 0 < a < |thread| && thread[a] == f then thread[..a] + thread[a + 1..] else thread
  }

  /** The thread with the new position p in it. */
  function Joined(t: seq<nat>, p: nat): seq<nat> {
    Insert(MovedAll(t, p), Upto(t, p), p)
  }

  /** The thread after a tag was put in at p: only a first tag of its name joins, for the old first one of the name,
    * which stays only if the whole thread starts with it. */
  function NewThread(names: seq<string>, thread: seq<nat>, p: nat, name: string): seq<nat> {
    var f := NameAt(names, name, 0);
    if f < p && f < |names| then MovedAll(thread, p)
    else
      var t := if f < |names| then Without(thread, f) else thread;
      Joined(t, p)
  }

  lemma InRising(thread: seq<nat>, f: nat)
    requires forall a, b :: 0 <= a < b < |thread| ==> thread[a] < thread[b]
    requires f in thread
    ensures Upto(thread, f) < |thread| && thread[Upto(thread, f)] == f
  {
  }

  lemma WithoutAt(thread: seq<nat>, a: nat)
    requires (forall a, b :: 0 <= a < b < |thread| ==> thread[a] < thread[b]) && a < |thread|
    ensures Upto(thread, thread[a]) == a
    ensures Without(thread, thread[a]) == if a == 0 then thread else thread[..a] + thread[a + 1..]
  {
    InRising(thread, thread[a]);
  }

  /** A rising sequence without one of its later entries. */
  lemma RemovedKeeps(thread: seq<nat>, a: nat, n: nat)
    requires (forall a, b :: 0 <= a < b < |thread| ==> thread[a] < thread[b]) && 0 < a < |thread|
    requires forall a :: 0 <= a < |thread| ==> thread[a] < n
    ensures var t := thread[..a] + thread[a + 1..];
            (forall a :: 0 <= a < |t| ==> t[a] < n) &&
            (forall a, b :: 0 <= a < b < |t| ==> t[a] < t[b]) &&
            t != [] && t[0] == thread[0] &&
            (forall i :: i in thread && i != thread[a] ==> i in t)
  {
    var t := thread[..a] + thread[a + 1..];
    assert forall b :: 0 <= b < |t| ==> t[b] == thread[if b < a then b else b + 1];
    forall i | i in thread && i != thread[a] ensures i in t {
      var b :| 0 <= b < |thread| && thread[b] == i;
      assert t[if b < a then b else b - 1] == i;
    }
  }

  lemma WithoutKeeps(names: seq<string>, thread: seq<nat>, f: nat)
    requires IsThread(names, thread) && f in thread
    ensures var t := Without(thread, f);
            (forall a :: 0 <= a < |t| ==> t[a] < |names|) &&
            (forall a, b :: 0 <= a < b < |t| ==> t[a] < t[b]) &&
            t != [] && t[0] == 0 &&
            (forall i :: i in thread && i != f ==> i in t)
  {
    hide Without, IsFirst;
    var a :| 0 <= a < |thread| && thread[a] == f;
    WithoutAt(thread, a);
    if a > 0 {
      RemovedKeeps(thread, a, |names|);
    }
  }

  lemma JoinRises(t: seq<nat>, p: nat, n: nat)
    requires forall a, b :: 0 <= a < b < |t| ==> t[a] < t[b]
    requires p <= n && forall a :: 0 <= a < |t| ==> t[a] < n
    ensures var r := Joined(t, p);
            (forall a, b :: 0 <= a < b < |r| ==> r[a] < r[b]) && (forall a :: 0 <= a < |r| ==> r[a] <= n) && p in r
  {
    var u := Upto(t, p);
    assert forall a :: u <= a < |t| ==> t[a] >= p;
    assert Joined(t, p)[u] == p;
  }

  lemma JoinStarts(t: seq<nat>, p: nat)
    requires (t == [] && p == 0) || (t != [] && t[0] == 0)
    ensures Joined(t, p)[0] == 0
  {
  }

  lemma JoinHas(t: seq<nat>, p: nat, i: nat)
    requires i in t
    ensures Moved(i, p) in Joined(t, p)
  {
  }

  lemma NewIsFirst(names: seq<string>, p: nat, name: string)
    requires p <= |names| && IsFirst(Insert(names, p, name), p)
    ensures NameAt(names, name, 0) >= p
  {
    var names' := Insert(names, p, name);
    hide Insert;
    assert forall k :: 0 <= k < p ==> names[k] == names'[k] != name;
  }

  /** Which tags are the first of their name, after one was put in at p. */
  lemma FirstsMoved(names: seq<string>, p: nat, name: string, i: nat)
    requires p <= |names| && i <= |names| && IsFirst(Insert(names, p, name), i)
    ensures i == p ==> NameAt(names, name, 0) >= p
    ensures i != p ==> var j := if i < p then i else i - 1;
                       IsFirst(names, j) && i == Moved(j, p) && (names[j] == name ==> j < p)
  {
    if i == p {
      NewIsFirst(names, p, name);
    } else {
      OldStaysFirst(names, p, name, if i < p then i else i - 1);
    }
  }

  lemma OldStaysFirst(names: seq<string>, p: nat, name: string, j: nat)
    requires p <= |names| && j < |names| && IsFirst(Insert(names, p, name), Moved(j, p))
    ensures IsFirst(names, j) && (names[j] == name ==> j < p)
  {
    var names' := Insert(names, p, name);
    hide Insert;
    assert names'[Moved(j, p)] == names[j];
    forall k | 0 <= k < j ensures names[k] != names[j] {
      assert names'[Moved(k, p)] == names[k];
    }
    NameAtIs(names, names[j], 0, j);
  }

  /** Insertion keeps the sibling thread. */
  lemma ThreadKept(names: seq<string>, thread: seq<nat>, p: nat, name: string)
    requires IsThread(names, thread) && p <= |names|
    ensures IsThread(Insert(names, p, name), NewThread(names, thread, p, name))
  {
    var names', r := Insert(names, p, name), NewThread(names, thread, p, name);
    var f := NameAt(names, name, 0);
    if f < p {
      forall i | 0 <= i < |names'| && IsFirst(names', i) ensures i in r {
        FirstsMoved(names, p, name, i);
        var j := if i < p then i else i - 1;
        var b :| 0 <= b < |thread| && thread[b] == j;
        assert r[b] == i;
      }
    } else {
      JoinKeeps(names, thread, p, name);
    }
  }

  lemma JoinKeeps(names: seq<string>, thread: seq<nat>, p: nat, name: string)
    requires IsThread(names, thread) && p <= |names| && NameAt(names, name, 0) >= p
    ensures IsThread(Insert(names, p, name), NewThread(names, thread, p, name))
  {
    hide Without, Joined, Moved, IsFirst;
    var names', f := Insert(names, p, name), NameAt(names, name, 0);
    var t := if f < |names| then Without(thread, f) else thread;
    if f < |names| {
      FoundIsFirst(names, name);
      WithoutKeeps(names, thread, f);
    }
    var r := Joined(t, p);
    JoinRises(t, p, |names|);
    JoinStarts(t, p);
    forall i | 0 <= i < |names'| && IsFirst(names', i) ensures i in r {
      FirstsMoved(names, p, name, i);
      if i != p {
        JoinHas(t, p, if i < p then i else i - 1);
      }
    }
  }

  lemma FoundIsFirst(names: seq<string>, name: string)
    requires NameAt(names, name, 0) < |names|
    ensures IsFirst(names, NameAt(names, name, 0))
  {
  }

  // ----- tags that come in document order -----

  /** Every name is in the thread once. */
  predicate OncePerName(names: seq<string>, thread: seq<nat>)
    requires IsThread(names, thread)
  {
    forall a :: 0 <= a < |thread| ==> IsFirst(names, thread[a])
  }

  lemma PlaceAtEnd(offs: seq<nat>, off: nat)
    ensures Place(offs, off) == |offs| <==> forall i :: 0 <= i < |offs| ==> offs[i] <= off
  {
  }

  lemma AppendedThread(names: seq<string>, thread: seq<nat>, name: string)
    requires IsThread(names, thread)
    ensures NewThread(names, thread, |names|, name) == if name in names then thread else thread + [|names|]
  {
    hide IsFirst, Without;
    var p := |names|;
    assert MovedAll(thread, p) == thread;
    assert Upto(thread, p) == |thread|;
    assert name in names <==> NameAt(names, name, 0) < p;
  }

  /** A tag put in at the end joins the thread if and only if its name is new, and every name stays in it once. */
  lemma AppendedOnce(names: seq<string>, thread: seq<nat>, name: string)
    requires IsThread(names, thread) && OncePerName(names, thread)
    ensures var r := NewThread(names, thread, |names|, name);
            IsThread(names + [name], r) && OncePerName(names + [name], r) &&
            r == if name in names then thread else thread + [|names|]
  {
    hide NewThread;
    var p := |names|;
    var names', r := names + [name], NewThread(names, thread, p, name);
    ThreadKept(names, thread, p, name);
    assert Insert(names, p, name) == names';
    AppendedThread(names, thread, name);
    forall a | 0 <= a < |r| ensures IsFirst(names', r[a]) {
      FirstAppended(names, name, r[a]);
    }
  }

  lemma FirstAppended(names: seq<string>, name: string, i: nat)
    requires if i < |names| then IsFirst(names, i) else i == |names| && name !in names
    ensures IsFirst(names + [name], i)
  {
  }

  // ----- the order after any insertions -----

  datatype Item<T> = Item(off: nat, tag: T)

  function ItemOffs<T>(s: seq<Item<T>>): (r: seq<nat>)
    ensures |r| == |s| && forall i :: 0 <= i < |s| ==> r[i] == s[i].off
  {
    seq(|s|, i requires 0 <= i < |s| => s[i].off)
  }

  /** The `ordered` list after the tags were inserted one after another. */
  function Inserted<T>(s: seq<Item<T>>): seq<Item<T>> {
    if s == [] then []
    else
      var r, x := Inserted(s[..|s| - 1]), s[|s| - 1];
      Insert(r, Place(ItemOffs(r), x.off), x)
  }

  /** The items at one offset, in their order. */
  function AtOff<T>(s: seq<Item<T>>, off: nat): seq<Item<T>> {
    if s == [] then [] else AtOff(s[..|s| - 1], off) + if s[|s| - 1].off == off then [s[|s| - 1]] else []
  }

  lemma {:induction false} AtOffConcat<T>(s: seq<Item<T>>, t: seq<Item<T>>, off: nat)
    ensures AtOff(s + t, off) == AtOff(s, off) + AtOff(t, off)
  {
    if t == [] {
      assert s + t == s;
    } else {
      assert (s + t)[..|s + t| - 1] == s + t[..|t| - 1];
      AtOffConcat(s, t[..|t| - 1], off);
    }
  }

  lemma {:induction false} NoneAtOff<T>(s: seq<Item<T>>, off: nat)
    requires forall i :: 0 <= i < |s| ==> s[i].off != off
    ensures AtOff(s, off) == []
  {
    if s != [] {
      NoneAtOff(s[..|s| - 1], off);
    }
  }

  lemma SortedItems<T>(r: seq<Item<T>>, x: Item<T>)
    requires Sorted(ItemOffs(r))
    ensures var p := Place(ItemOffs(r), x.off);
            Sorted(ItemOffs(Insert(r, p, x))) && forall i :: p <= i < |r| ==> r[i].off > x.off
  {
    hide ItemOffs, Place;
    var offs := ItemOffs(r);
    var p := Place(offs, x.off);
    forall i | p <= i < |offs| ensures offs[i] > x.off {
      assert p < i ==> offs[p] <= offs[i];
    }
    var r', offs' := Insert(r, p, x), Insert(offs, p, x.off);
    hide Insert;
    assert ItemOffs(r') == offs';
  }

  lemma SwapEmpty<T>(a: seq<T>, x: seq<T>, b: seq<T>)
    requires x == [] || b == []
    ensures a + x + b == a + b + x
  {
  }

  /** An item of which b has none at its offset may as well come last. */
  lemma StableSplit<T>(a: seq<Item<T>>, b: seq<Item<T>>, x: Item<T>, off: nat)
    requires forall i :: 0 <= i < |b| ==> b[i].off != x.off
    ensures AtOff(a + [x] + b, off) == AtOff(a + b, off) + AtOff([x], off)
  {
    hide AtOff;
    AtOffConcat(a + [x], b, off);
    AtOffConcat(a, [x], off);
    AtOffConcat(a, b, off);
    if x.off == off {
      NoneAtOff(b, off);
    } else {
      NoneAtOff([x], off);
    }
    SwapEmpty(AtOff(a, off), AtOff([x], off), AtOff(b, off));
  }

  lemma StableStep<T>(r: seq<Item<T>>, x: Item<T>, off: nat)
    requires Sorted(ItemOffs(r))
    ensures AtOff(Insert(r, Place(ItemOffs(r), x.off), x), off) == AtOff(r, off) + AtOff([x], off)
  {
    hide AtOff, ItemOffs, Sorted;
    var p := Place(ItemOffs(r), x.off);
    SortedItems(r, x);
    StableSplit(r[..p], r[p..], x, off);
    assert r[..p] + r[p..] == r;
  }

  lemma InsertedMultiset<T>(r: seq<T>, p: nat, x: T)
    requires p <= |r|
    ensures multiset(Insert(r, p, x)) == multiset(r) + multiset{x}
  {
    assert r == r[..p] + r[p..];
  }

  /** `ordered` is the stable sort of the insertions by offset: in order, nothing lost or added, and at every offset
    * the tags stand as they came. */
  lemma {:induction false} OrderedIsStableSort<T>(s: seq<Item<T>>, off: nat)
    ensures Sorted(ItemOffs(Inserted(s))) && multiset(Inserted(s)) == multiset(s)
    ensures AtOff(Inserted(s), off) == AtOff(s, off)
  {
    hide AtOff, Insert;
    if s != [] {
      var r, x := Inserted(s[..|s| - 1]), s[|s| - 1];
      OrderedIsStableSort(s[..|s| - 1], off);
      SortedItems(r, x);
      StableStep(r, x, off);
      InsertedMultiset(r, Place(ItemOffs(r), x.off), x);
      assert s == s[..|s| - 1] + [x];
      AtOffConcat(s[..|s| - 1], [x], off);
    }
  }
}
