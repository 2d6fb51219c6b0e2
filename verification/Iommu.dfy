/** The page-splitting loops of enclave_pci_iommu_map and enclave_pci_iommu_unmap in src/enclave_pci.c. */
module Iommu {
  const LARGE := 512 * 4096
  const SMALL := 4096
  const U64 := 0x1_0000_0000_0000_0000

  /** The 4KB pages in a page of one of the two sizes. */
  function Count(pageSize: nat): nat {
    if pageSize == LARGE then 512 else 1
  }

  /** The mapping of a domain, in 4KB pages. */
  type Pages = map<nat, nat>

  /** Page k of a run that goes from g to h. */
  function Target(g: nat, h: nat, k: nat): nat {
    if g <= k then h + k - g else 0
  }

  function Mapped(pages: Pages, g: nat, h: nat, n: nat): Pages {
    pages + map k: nat | g <= k < g + n :: Target(g, h, k)
  }

  /** The n pages from g on go to those from h on in order, and every other page goes where it went. */
  ghost predicate MappedInOrder(was: Pages, now: Pages, g: nat, h: nat, n: nat) {
    && (forall k :: k in now <==> k in was || g <= k < g + n)
    && (forall k :: k in now ==> now[k] == if g <= k < g + n then k - g + h else was[k])
  }

  lemma MappedIs(pages: Pages, g: nat, h: nat, n: nat)
    ensures MappedInOrder(pages, Mapped(pages, g, h, n), g, h, n)
  {
  }

  function Unmapped(pages: Pages, g: nat, n: nat): Pages {
    map k | k in pages && !(g <= k < g + n) :: pages[k]
  }

  ghost predicate AllMapped(pages: Pages, g: nat, n: nat) {
    forall k: nat :: g <= k < g + n ==> k in pages
  }

  /** The first of n pages that is not mapped, or n. */
  function FirstHole(pages: Pages, g: nat, n: nat): (i: nat)
    ensures i <= n && AllMapped(pages, g, i)
    ensures i < n ==> g + i !in pages
    decreases n
  {
    if n == 0 || g !in pages then 0 else 1 + FirstHole(pages, g + 1, n - 1)
  }

  lemma FirstHoleIs(pages: Pages, g: nat, n: nat, i: nat)
    requires i <= n && (i < n ==> g + i !in pages) && AllMapped(pages, g, i)
    ensures FirstHole(pages, g, n) == i
  {
  }

  lemma MappedTwice(pages: Pages, g: nat, h: nat, a: nat, b: nat)
    ensures Mapped(Mapped(pages, g, h, a), g + a, h + a, b) == Mapped(pages, g, h, a + b)
  {
  }

  lemma UnmappedTwice(pages: Pages, g: nat, a: nat, b: nat)
    ensures Unmapped(Unmapped(pages, g, a), g + a, b) == Unmapped(pages, g, a + b)
  {
  }

  /** Unmapping a range that was free undoes the mapping of it, everywhere. */
  lemma UnmapUndoesMap(pages: Pages, g: nat, h: nat, n: nat)
    requires forall k :: g <= k < g + n ==> k !in pages
    ensures FirstHole(Mapped(pages, g, h, n), g, n) == n
    ensures Unmapped(Mapped(pages, g, h, n), g, n) == pages
  {
  }

  // ----- the steps of both loops -----

  /** The page size of a round: once less than 2MB is left it stays at 4KB. */
  function Round(size: nat, pageSize: nat): nat {
    if size < pageSize then SMALL else pageSize
  }

  /** The sizes of the rounds; the subtraction wraps where this has no value. */
  function Rounds(size: nat): seq<nat> {
    if size >= LARGE then [LARGE] + Rounds(size - LARGE)
    else if size >= SMALL then [SMALL] + Rounds(size - SMALL)
    else []
  }

  /** The loop comes to size 0 without a subtraction that wraps. */
  predicate Ends(size: nat, pageSize: nat)
    requires pageSize >= SMALL
    decreases size
  {
    var p := Round(size, pageSize);
    size >= p && (size == p || Ends(size - p, p))
  }

  /** It does so exactly for whole pages, and at least one. */
  lemma {:induction false} EndsExactly(size: nat, pageSize: nat)
    requires pageSize in {SMALL, LARGE}
    ensures Ends(size, pageSize) <==> size > 0 && size % SMALL == 0
    decreases size
  {
    var p := Round(size, pageSize);
    if size > p {
      EndsExactly(size - p, p);
      assert size % SMALL == (size - p) % SMALL;
    }
  }

  /** Size / 2MB large steps, then the rest in 4KB steps. */
  lemma {:induction false} RoundsAre(large: nat, small: nat)
    requires small < 512
    ensures var r := Rounds(large * 0x20_0000 + small * 0x1000);
            |r| == large + small && forall i :: 0 <= i < |r| ==> r[i] == if i < large then 0x20_0000 else 0x1000
    decreases large, small
  {
    var size := large * LARGE + small * SMALL;
    if large > 0 {
      RoundsAre(large - 1, small);
      assert size - LARGE == (large - 1) * LARGE + small * SMALL;
    } else if small > 0 {
      RoundsAre(0, small - 1);
      assert size - SMALL == (small - 1) * SMALL;
    }
  }

  // ----- the domain -----

  class Domain {
    var pages: Pages

    /** iommu_map: `verdict` is what the driver says about an aligned request; a failure maps nothing. */
    method IommuMap(gpa: nat, hpa: nat, size: nat, verdict: int) returns (ret: int)
      requires size in {SMALL, LARGE}
      modifies this
      ensures ret == if gpa % SMALL == 0 && hpa % SMALL == 0 then verdict else -22
      ensures pages == if ret == 0 then Mapped(old(pages), gpa / SMALL, hpa / SMALL, Count(size)) else old(pages)
    {
      ret := if gpa % SMALL == 0 && hpa % SMALL == 0 then verdict else -22;
      if ret == 0 {
        pages := Mapped(pages, gpa / SMALL, hpa / SMALL, Count(size));
      }
    }

    /** iommu_unmap: unmaps up to the first hole and returns how much that was. */
    method IommuUnmap(gpa: nat, size: nat) returns (unmapped: nat)
      requires size in {SMALL, LARGE}
      modifies this
      ensures var n := if gpa % SMALL == 0 then FirstHole(old(pages), gpa / SMALL, Count(size)) else 0;
              unmapped == n * SMALL && pages == Unmapped(old(pages), gpa / SMALL, n)
    {
      var n := if gpa % SMALL == 0 then FirstHole(pages, gpa / SMALL, Count(size)) else 0;
      pages := Unmapped(pages, gpa / SMALL, n);
      unmapped := n * SMALL;
    }
  }

  /** enclave_pci_iommu_map, from the assigned device on; the driver answers round i with verdicts(i).
    * `done` counts the 4KB pages mapped when the loop ended, and `rounds` lists the sizes of the successful rounds. */
  method MapRegion(domain: Domain, start: nat, end: nat, gpa0: nat, verdicts: nat -> int)
    returns (ret: int, done: nat, rounds: seq<nat>)
    requires start < end < U64 && (end - start) % SMALL == 0 && gpa0 + (end - start) <= U64
    modifies domain
    ensures start % SMALL != 0 || gpa0 % SMALL != 0 ==> ret == -22 && done == 0
    ensures done <= (end - start) / SMALL && rounds <= Rounds(end - start)
    ensures domain.pages == Mapped(old(domain.pages), gpa0 / SMALL, start / SMALL, done)
    ensures MappedInOrder(old(domain.pages), domain.pages, gpa0 / 0x1000, start / 0x1000, done)
    ensures ret == 0 <==> done == (end - start) / SMALL
    ensures ret == 0 <==> rounds == Rounds(end - start)
    ensures ret != 0 && start % SMALL == 0 && gpa0 % SMALL == 0 ==> ret == verdicts(|rounds|)
    ensures forall i :: 0 <= i < |rounds| ==> verdicts(i) == 0
  {
    hide Mapped, Rounds, Count;
    var size, pageSize, hpa, gpa := (end - start) % U64, LARGE, start, gpa0;
    ret, done, rounds := 0, 0, [];
    ghost var was, all, g, h := domain.pages, (end - start) / SMALL, gpa0 / SMALL, start / SMALL;
    NothingMapped(was, g, h);
    while true
      invariant done < all && size == (all - done) * SMALL
      invariant hpa == start + done * SMALL && gpa == gpa0 + done * SMALL
      invariant pageSize == LARGE || (pageSize == SMALL && size < LARGE)
      invariant start % SMALL != 0 || gpa0 % SMALL != 0 ==> done == 0
      invariant domain.pages == Mapped(was, g, h, done)
      invariant rounds + Rounds(size) == Rounds(end - start)
      invariant forall i :: 0 <= i < |rounds| ==> verdicts(i) == 0
      decreases size
    {
      if size < pageSize {
        pageSize := SMALL;
      }
      ret := domain.IommuMap(gpa, hpa, pageSize, verdicts(|rounds|));
      RoundsNext(rounds, size, pageSize);
      SizeStep(all, done, size, pageSize);
      PagesOf(gpa0, done);
      PagesOf(start, done);
      if ret != 0 {
        IsPrefix(rounds, Rounds(size));
        assert done < all;
        break;
      }
      MappedTwice(was, g, h, done, Count(pageSize));
      rounds := rounds + [pageSize];
      hpa := hpa + pageSize;
      gpa := gpa + pageSize;
      size := (size - pageSize) % U64;
      done := done + Count(pageSize);
      if size == 0 {
        NothingMapped(domain.pages, 0, 0);
        IsPrefix(rounds, []);
        assert rounds + [] == rounds && done == all;
        break;
      }
    }
    assert done <= all && rounds <= Rounds(end - start) && (ret == 0 <==> done == all);
    MappedIs(was, g, h, done);
  }

  lemma IsPrefix(a: seq<nat>, b: seq<nat>)
    ensures a <= a + b && (b != [] ==> a != a + b)
  {
  }

  lemma NothingMapped(pages: Pages, g: nat, h: nat)
    ensures Mapped(pages, g, h, 0) == pages && Unmapped(pages, g, 0) == pages && AllMapped(pages, g, 0) && Rounds(0) == []
  {
  }

  lemma SizeStep(all: nat, done: nat, size: nat, pageSize: nat)
    requires done < all && size == (all - done) * SMALL && size < U64
    requires pageSize == LARGE <= size || pageSize == SMALL
    ensures done + Count(pageSize) <= all &&
        (size - pageSize) % U64 == size - pageSize == (all - done - Count(pageSize)) * SMALL
    ensures size % SMALL == 0
  {
  }

  lemma PagesOf(base: nat, done: nat)
    ensures (base + done * SMALL) / SMALL == base / SMALL + done
    ensures (base + done * SMALL) % SMALL == base % SMALL
  {
  }

  lemma RoundsNext(done: seq<nat>, size: nat, pageSize: nat)
    requires size > 0 && size % SMALL == 0 && pageSize == if size >= LARGE then LARGE else SMALL
    ensures size >= pageSize && Rounds(size) != [] && (size - pageSize) % SMALL == 0
    ensures done + Rounds(size) == done + [pageSize] + Rounds(size - pageSize)
  {
    assert Rounds(size) == [pageSize] + Rounds(size - pageSize);
    assert done + ([pageSize] + Rounds(size - pageSize)) == done + [pageSize] + Rounds(size - pageSize);
  }

  /** enclave_pci_iommu_unmap, from the assigned device on: it unmaps up to the first hole. */
  method UnmapRegion(domain: Domain, start: nat, end: nat, gpa0: nat) returns (ret: int)
    requires start < end < U64 && (end - start) % SMALL == 0 && gpa0 + (end - start) <= U64
    modifies domain
    ensures var all := (end - start) / SMALL;
            var n := if gpa0 % SMALL == 0 then FirstHole(old(domain.pages), gpa0 / SMALL, all) else 0;
            domain.pages == Unmapped(old(domain.pages), gpa0 / SMALL, n) && ret == if n == all then 0 else -1
  {
    hide Unmapped, FirstHole, AllMapped, Count;
    var size, pageSize, gpa := (end - start) % U64, LARGE, gpa0;
    ghost var was, done, g, all := domain.pages, 0, gpa0 / SMALL, (end - start) / SMALL;
    ret := 0;
    NothingMapped(was, g, 0);
    while true
      invariant done < all && size == (all - done) * SMALL && gpa == gpa0 + done * SMALL
      invariant pageSize == LARGE || (pageSize == SMALL && size < LARGE)
      invariant gpa0 % SMALL != 0 ==> done == 0
      invariant domain.pages == Unmapped(was, g, done) && AllMapped(was, g, done) && ret == 0
      decreases size
    {
      if size < pageSize {
        pageSize := SMALL;
      }
      SizeStep(all, done, size, pageSize);
      PagesOf(gpa0, done);
      ghost var n := if gpa % SMALL == 0 then FirstHole(domain.pages, gpa / SMALL, Count(pageSize)) else 0;
      var unmapSize := domain.IommuUnmap(gpa, pageSize);
      UnmappedTwice(was, g, done, n);
      if unmapSize != pageSize {
        ret := -1;
        if gpa0 % SMALL == 0 {
          HoleFound(was, g, done, n, Count(pageSize), all);
        }
        break;
      }
      RunFound(was, g, done, n);
      gpa := gpa + pageSize;
      size := (size - pageSize) % U64;
      done := done + n;
      if size == 0 {
        FirstHoleIs(was, g, done, done);
        break;
      }
    }
  }

  /** The pages before `a` are gone; the walk over what is left finds the same hole. */
  lemma HoleFound(was: Pages, g: nat, a: nat, n: nat, count: nat, all: nat)
    requires n < count && a + count <= all && AllMapped(was, g, a)
    requires n == FirstHole(Unmapped(was, g, a), g + a, count)
    ensures FirstHole(was, g, all) == a + n
  {
    RunFound(was, g, a, n);
    assert g + a + n !in Unmapped(was, g, a);
    FirstHoleIs(was, g, all, a + n);
  }

  lemma RunFound(was: Pages, g: nat, a: nat, n: nat)
    requires AllMapped(was, g, a) && AllMapped(Unmapped(was, g, a), g + a, n)
    ensures AllMapped(was, g, a + n)
  {
    forall k: nat | g + a <= k < g + a + n ensures k in was {
      assert k in Unmapped(was, g, a);
    }
  }
}
