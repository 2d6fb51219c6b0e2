/** walk_pgtables of src/pgtables.c finds exactly the pages that dump_pgtables finds. */
module PgtablesWalk {
  import opened Bytes
  import opened Pgtables

  // ----- in ascending order, each page once -----

  predicate Ascending(s: seq<Leaf>) {
    forall a, b :: 0 <= a < b < |s| ==> s[a].va + s[a].size <= s[b].va
  }

  predicate Within(s: seq<Leaf>, from: nat, to: nat) {
    forall x <- s :: from <= x.va && x.va + x.size <= to && x.size > 0
  }

  function End(level: nat, i: nat, va: nat): nat
    requires 1 <= level <= 4 && i <= 512
    decreases 512 - i
  {
    if i == 512 then va else End(level, i + 1, va + Size(level))
  }

  lemma {:induction false} EndIs(level: nat, i: nat, va: nat)
    requires 1 <= level <= 4 && i <= 512
    ensures End(level, i, va) == va + (512 - i) * Size(level)
    decreases 512 - i
  {
    if i < 512 {
      EndIs(level, i + 1, va + Size(level));
      assert (512 - i) * Size(level) == (512 - (i + 1)) * Size(level) + Size(level);
    }
  }

  lemma WholeEnd(level: nat, va: nat)
    requires 2 <= level <= 4
    ensures End(level - 1, 0, va) == va + Size(level)
  {
    EndIs(level - 1, 0, va);
  }

  lemma AscendingConcat(s: seq<Leaf>, t: seq<Leaf>, from: nat, mid: nat, to: nat)
    requires from <= mid <= to && Ascending(s) && Ascending(t) && Within(s, from, mid) && Within(t, mid, to)
    ensures Ascending(s + t) && Within(s + t, from, to)
  {
  }

  lemma {:induction false} WalkIsAscending(mem: Memory, frame: nat, level: nat, i: nat, va: nat)
    requires 1 <= level <= 4 && i <= 512
    ensures Ascending(Walk(mem, frame, level, i, va)) && Within(Walk(mem, frame, level, i, va), va, End(level, i, va))
    ensures va <= End(level, i, va)
    decreases level, 512 - i, 1
  {
    EndIs(level, i, va);
    if i < 512 {
      var e := EntryAt(mem, frame, i);
      EntryIsAscending(mem, e, level, i, va);
      WalkIsAscending(mem, frame, level, i + 1, va + Size(level));
      AscendingConcat(WalkEntry(mem, e, level, i, va), Walk(mem, frame, level, i + 1, va + Size(level)),
                      va, va + Size(level), End(level, i, va));
    }
  }

  lemma {:induction false} EntryIsAscending(mem: Memory, e: Entry, level: nat, i: nat, va: nat)
    requires 1 <= level <= 4 && i < 512
    ensures var s := WalkEntry(mem, e, level, i, va); Ascending(s) && Within(s, va, va + Size(level))
    decreases level, 512 - i, 0
  {
    hide Walk, End, Size, PageAddr;
    if !IsLeaf(e, level) && e.present && level > 1 {
      WalkIsAscending(mem, e.base, level - 1, 0, va);
      WholeEnd(level, va);
    }
  }

  // ----- the pages of the walk are those that lookups find -----

  predicate Covers(x: Leaf, a: nat) {
    x.va <= a < x.va + x.size
  }

  lemma IndexIs(level: nat, n: nat, a: nat)
    requires 1 <= level <= 4 && n * Size(level) <= a < (n + 1) * Size(level)
    ensures Index(a, level) == n % 512 && a - a % Size(level) == n * Size(level)
  {
    match level {
      case 1 => assert a / SIZE_4KB == n;
      case 2 => assert a / SIZE_2MB == n;
      case 3 => assert a / SIZE_1GB == n;
      case _ => assert a / SIZE_512GB == n;
    }
  }

  lemma NextIs(level: nat, n: nat)
    requires 1 <= level <= 4
    ensures (n + 1) * Size(level) == n * Size(level) + Size(level)
    ensures level > 1 ==> n * Size(level) == (n * 512) * Size(level - 1)
  {
  }

  lemma WalkStep(mem: Memory, frame: nat, level: nat, i: nat, va: nat)
    requires 1 <= level <= 4 && i < 512
    ensures Walk(mem, frame, level, i, va) ==
              WalkEntry(mem, EntryAt(mem, frame, i), level, i, va) + Walk(mem, frame, level, i + 1, va + Size(level))
    ensures End(level, i, va) == End(level, i + 1, va + Size(level))
  {
  }

  lemma EntryOutside(mem: Memory, e: Entry, level: nat, i: nat, va: nat, a: nat, x: Leaf)
    requires 1 <= level <= 4 && i < 512 && a >= va + Size(level)
    ensures !(x in WalkEntry(mem, e, level, i, va) && Covers(x, a))
  {
    EntryIsAscending(mem, e, level, i, va);
  }

  lemma WalkOutside(mem: Memory, frame: nat, level: nat, i: nat, va: nat, a: nat, x: Leaf)
    requires 1 <= level <= 4 && i <= 512 && a < va
    ensures !(x in Walk(mem, frame, level, i, va) && Covers(x, a))
  {
    WalkIsAscending(mem, frame, level, i, va);
  }

  /** The table whose entry i covers the block number n, from that entry on. */
  lemma {:induction false} WalkFinds(mem: Memory, frame: nat, level: nat, i: nat, n: nat, a: nat, x: Leaf)
    requires 1 <= level <= 4 && i <= 512 && (i < 512 ==> n % 512 == i)
    requires n * Size(level) <= a < End(level, i, n * Size(level))
    ensures Lookup(mem, frame, level, a) == Some(x) <==> x in Walk(mem, frame, level, i, n * Size(level)) && Covers(x, a)
    decreases level, 512 - i, 1
  {
    hide *;
    var va := n * Size(level);
    if i == 512 {
      EndIs(level, i, va);
    } else {
      var e := EntryAt(mem, frame, i);
      NextIs(level, n);
      WalkStep(mem, frame, level, i, va);
      if a < va + Size(level) {
        WalkOutside(mem, frame, level, i + 1, va + Size(level), a, x);
        EntryFinds(mem, frame, level, i, n, a, x);
      } else {
        EntryOutside(mem, e, level, i, va, a, x);
        WalkFinds(mem, frame, level, i + 1, n + 1, a, x);
      }
    }
  }

  lemma {:induction false} EntryFinds(mem: Memory, frame: nat, level: nat, i: nat, n: nat, a: nat, x: Leaf)
    requires 1 <= level <= 4 && i < 512 && n % 512 == i
    requires n * Size(level) <= a < n * Size(level) + Size(level)
    ensures Lookup(mem, frame, level, a) == Some(x) <==>
              x in WalkEntry(mem, EntryAt(mem, frame, i), level, i, n * Size(level)) && Covers(x, a)
    decreases level, 512 - i, 0
  {
    hide Size, Index, PageAddr, Walk, End;
    var e := EntryAt(mem, frame, i);
    NextIs(level, n);
    IndexIs(level, n, a);
    if !IsLeaf(e, level) && e.present && level > 1 {
      WholeEnd(level, n * Size(level));
      WalkFinds(mem, e.base, level - 1, 0, n * 512, a, x);
    }
  }

  /** For every table and every 48-bit address: dump_pgtables finds a page if and only if walk_pgtables lists it, and
    * the list is in ascending order without overlaps, so it has each page once. */
  lemma WalkerAndLookupAgree(mem: Memory, root: nat, a: nat, x: Leaf)
    requires a < 0x1_0000_0000_0000
    ensures Lookup(mem, root, 4, a) == Some(x) <==> x in Walk(mem, root, 4, 0, 0) && Covers(x, a)
    ensures Ascending(Walk(mem, root, 4, 0, 0)) && Within(Walk(mem, root, 4, 0, 0), 0, 0x1_0000_0000_0000)
  {
    EndIs(4, 0, 0);
    WalkFinds(mem, root, 4, 0, 0, a, x);
    WalkIsAscending(mem, root, 4, 0, 0);
  }

  /** A list of pages that says of every 48-bit address what the processor finds there. */
  ghost predicate ListsAll(out: seq<Leaf>, words: nat -> nat, cr3: nat) {
    forall a: nat :: a < 0x1_0000_0000_0000 ==>
      match Processor(words, cr3, a)
      case Mapped(addr, size) => Leaf(a - a % size, addr, size) in out
      case Absent(_) => forall x <- out :: !Covers(x, a)
  }

  lemma WalkListsAll(mem: Memory, root: nat, words: nat -> nat)
    requires Mirrors(mem, words)
    ensures ListsAll(Walk(mem, root, 4, 0, 0), words, 0x1000 * root)
  {
    hide Mirrors, Processor, Walk, Lookup, Ascending, Within;
    var out := Walk(mem, root, 4, 0, 0);
    forall a: nat | a < 0x1_0000_0000_0000
      ensures match Processor(words, 0x1000 * root, a)
              case Mapped(addr, size) => Leaf(a - a % size, addr, size) in out
              case Absent(_) => forall x <- out :: !Covers(x, a)
    {
      LookupIsProcessors(mem, words, root, a);
      match Processor(words, 0x1000 * root, a)
      case Mapped(addr, size) => WalkerAndLookupAgree(mem, root, a, Leaf(a - a % size, addr, size));
      case Absent(_) =>
        forall x <- out ensures !Covers(x, a) {
          WalkerAndLookupAgree(mem, root, a, x);
        }
    }
  }

  lemma WalkIsWhole(mem: Memory, root: nat)
    ensures var out := Walk(mem, root, 4, 0, 0);
            && Ascending(out) && Within(out, 0, 0x1_0000_0000_0000)
            && forall words: nat -> nat :: Mirrors(mem, words) ==> ListsAll(out, words, 0x1000 * root)
  {
    hide Walk, Mirrors, ListsAll, Ascending, Within;
    WalkerAndLookupAgree(mem, root, 0, Leaf(0, 0, 0));
    forall words: nat -> nat | Mirrors(mem, words) ensures ListsAll(Walk(mem, root, 4, 0, 0), words, 0x1000 * root) {
      WalkListsAll(mem, root, words);
    }
  }

  // ----- the four loops -----

  /** The part of a walk that is still to come, once `out` was listed. */
  ghost predicate Todo(mem: Memory, frame: nat, level: nat, i: nat, va: nat, out: seq<Leaf>, goal: seq<Leaf>)
    requires 1 <= level <= 4 && i <= 512
  {
    out + Walk(mem, frame, level, i, va) == goal
  }

  lemma TodoNext(mem: Memory, frame: nat, level: nat, i: nat, va: nat, out: seq<Leaf>, goal: seq<Leaf>)
    requires 1 <= level <= 4 && i < 512 && Todo(mem, frame, level, i, va, out, goal)
    ensures Todo(mem, frame, level, i + 1, va + Size(level),
                 out + WalkEntry(mem, EntryAt(mem, frame, i), level, i, va), goal)
  {
  }

  method WalkPt(mem: Memory, frame: nat, out0: seq<Leaf>, addr0: nat) returns (out: seq<Leaf>, addr: nat)
    ensures out == out0 + Walk(mem, frame, 1, 0, addr0) && addr == addr0 + SIZE_2MB
  {
    hide Walk;
    out, addr := out0, addr0;
    ghost var goal := out0 + Walk(mem, frame, 1, 0, addr0);
    var m := 0;
    while m < 512
      invariant m <= 512 && addr == addr0 + m * SIZE_4KB && Todo(mem, frame, 1, m, addr, out, goal)
    {
      TodoNext(mem, frame, 1, m, addr, out, goal);
      if EntryAt(mem, frame, m).present {
        out := out + [Leaf(addr, EntryAt(mem, frame, m).base * SIZE_4KB, SIZE_4KB)];
      } else {
        assert out + [] == out;
      }
      addr := addr + SIZE_4KB;
      m := m + 1;
    }
    WalkDone(mem, frame, 1, addr, out);
  }

  lemma WalkDone(mem: Memory, frame: nat, level: nat, va: nat, out: seq<Leaf>)
    requires 1 <= level <= 4
    ensures out + Walk(mem, frame, level, 512, va) == out
  {
  }

  method WalkPd(mem: Memory, frame: nat, out0: seq<Leaf>, addr0: nat) returns (out: seq<Leaf>, addr: nat)
    ensures out == out0 + Walk(mem, frame, 2, 0, addr0) && addr == addr0 + SIZE_1GB
  {
    hide Walk;
    out, addr := out0, addr0;
    ghost var goal := out0 + Walk(mem, frame, 2, 0, addr0);
    var k := 0;
    while k < 512
      invariant k <= 512 && addr == addr0 + k * SIZE_2MB && Todo(mem, frame, 2, k, addr, out, goal)
    {
      TodoNext(mem, frame, 2, k, addr, out, goal);
      if !EntryAt(mem, frame, k).present {
        assert out + [] == out;
        addr := addr + SIZE_2MB;
      } else if EntryAt(mem, frame, k).large {
        out := out + [Leaf(addr, EntryAt(mem, frame, k).base / 0x200 * SIZE_2MB, SIZE_2MB)];
        addr := addr + SIZE_2MB;
      } else {
        out, addr := WalkPt(mem, EntryAt(mem, frame, k).base, out, addr);
      }
      k := k + 1;
    }
    WalkDone(mem, frame, 2, addr, out);
  }

  method WalkPdp(mem: Memory, frame: nat, out0: seq<Leaf>, addr0: nat) returns (out: seq<Leaf>, addr: nat)
    ensures out == out0 + Walk(mem, frame, 3, 0, addr0) && addr == addr0 + SIZE_512GB
  {
    hide Walk;
    out, addr := out0, addr0;
    ghost var goal := out0 + Walk(mem, frame, 3, 0, addr0);
    var j := 0;
    while j < 512
      invariant j <= 512 && addr == addr0 + j * SIZE_1GB && Todo(mem, frame, 3, j, addr, out, goal)
    {
      TodoNext(mem, frame, 3, j, addr, out, goal);
      if !EntryAt(mem, frame, j).present {
        assert out + [] == out;
        addr := addr + SIZE_1GB;
      } else if EntryAt(mem, frame, j).large {
        out := out + [Leaf(addr, EntryAt(mem, frame, j).base / 0x4_0000 * SIZE_1GB, SIZE_1GB)];
        addr := addr + SIZE_1GB;
      } else {
        out, addr := WalkPd(mem, EntryAt(mem, frame, j).base, out, addr);
      }
      j := j + 1;
    }
    WalkDone(mem, frame, 3, addr, out);
  }

  /** walk_pgtables; each level of its loops is a method here, and `addr` is the running address addr_iter. */
  method WalkPgtables(mem: Memory, root: nat) returns (out: seq<Leaf>)
    ensures out == Walk(mem, root, 4, 0, 0)
    ensures Ascending(out) && Within(out, 0, 0x1_0000_0000_0000)
    ensures forall words: nat -> nat :: Mirrors(mem, words) ==> ListsAll(out, words, 0x1000 * root)
  {
    hide Walk, Mirrors, ListsAll, Ascending, Within;
    WalkIsWhole(mem, root);
    out := [];
    var addr := 0;
    ghost var goal := Walk(mem, root, 4, 0, 0);
    assert [] + goal == goal;
    var i := 0;
    while i < 512
      invariant i <= 512 && addr == i * SIZE_512GB && Todo(mem, root, 4, i, addr, out, goal)
    {
      TodoNext(mem, root, 4, i, addr, out, goal);
      if !EntryAt(mem, root, i).present {
        assert out + [] == out;
        addr := addr + SIZE_1GB * 512;
      } else {
        out, addr := WalkPdp(mem, EntryAt(mem, root, i).base, out, addr);
      }
      i := i + 1;
    }
    WalkDone(mem, root, 4, addr, out);
  }
}
