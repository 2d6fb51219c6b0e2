/** The page tables that src/boot.c builds for the trampoline. */
module Trampoline {
  import opened Bytes
  import opened Pgtables

  const KERN_VA_BASE := 0xffff_ffff_8000_0000

  /** A table pointer as written into an upper-level entry. */
  function SetTable(e: Entry, frame: Base): Entry {
    e.(present := true, writable := true, base := frame)
  }

  /** A 2MB page; its page field is the upper 31 bits of the 40. */
  function SetPage(e: Entry, page: nat): Entry
    requires page < 0x8000_0000
  {
    e.(present := true, writable := true, large := true, base := page * 0x200 + e.base % 0x200)
  }

  function Min(a: nat, b: nat): nat {
    if a < b then a else b
  }

  /** The table indices of 2MB page p. */
  function Top(p: nat): (i: nat)
    ensures p < 0x400_0000 ==> i < 256
  {
    p / 0x4_0000
  }

  function Mid(p: nat): (i: nat)
    ensures i < 512
  {
    p / 512 % 512
  }

  function Low(p: nat): (i: nat)
    ensures i < 512
  {
    p % 512
  }

  /** Entry k after the absent entries first.. were made to map `page` and the count - 1 pages after it. */
  function Filled(e: Entry, k: nat, first: nat, count: nat, page: nat): Entry
    requires k < 512 && page < 0x400_0000
  {
    if first <= k < first + count && !e.present then SetPage(e, page + k - first) else e
  }

  /** Where an upper-level entry leads once it is entered. */
  function Target(e: Entry, spare: Base): Base {
    if e.present then e.base else spare
  }

  /** Entry k after entry i was made to point to `spare` if it was absent. */
  function Entered(e: Entry, k: nat, i: nat, spare: Base): Entry {
    if k == i && !e.present then SetTable(e, spare) else e
  }

  class Boot {
    var mem: Memory
    const pml: Base
    const pdp0: Base
    const pdp1: Base
    const pdp2: Base
    const pd0: Base
    const pd1: Base
    const pd2: Base

    /** The seven pages are distinct. */
    ghost predicate Valid() {
      pml !in {pdp0, pdp1, pdp2, pd0, pd1, pd2} && pdp0 !in {pdp1, pdp2, pd0, pd1, pd2} &&
      pdp1 !in {pdp2, pd0, pd1, pd2} && pdp2 !in {pd0, pd1, pd2} && pd0 !in {pd1, pd2} && pd1 != pd2
    }

    function At(frame: nat, k: nat): Entry
      reads this
    {
      EntryAt(mem, frame, k)
    }

    /** One entry written in place. */
    method Write(frame: nat, i: nat, e: Entry)
      modifies this`mem
      ensures At(frame, i) == e && forall f: nat, k: nat :: f != frame || k != i ==> At(f, k) == old(At(f, k))
    {
      mem := mem[(frame, i) := e];
    }

    /** memset of one page. */
    method Clear(frame: nat)
      modifies this`mem
      ensures forall k: nat :: k < 512 ==> At(frame, k) == ZERO
      ensures forall f: nat, k: nat :: f != frame ==> At(f, k) == old(At(f, k))
    {
      hide At;
      var i := 0;
      while i < 512
        invariant i <= 512 && forall k: nat :: k < i ==> At(frame, k) == ZERO
        invariant forall f: nat, k: nat :: f != frame ==> At(f, k) == old(At(f, k))
      {
        Write(frame, i, ZERO);
        i := i + 1;
      }
    }

    // ----- what the tables hold -----

    ghost predicate Blank(frame: nat)
      reads this
    {
      forall k: nat :: k < 512 ==> At(frame, k) == ZERO
    }

    /** Only the first 2MB are mapped. */
    ghost predicate Initial()
      reads this
    {
      (forall k: nat :: k < 512 ==> At(pml, k) == if k == 0 then SetTable(ZERO, pdp0) else ZERO) &&
      (forall k: nat :: k < 512 ==> At(pdp0, k) == if k == 0 then SetTable(ZERO, pd0) else ZERO) &&
      (forall k: nat :: k < 512 ==> At(pd0, k) == if k == 0 then SetPage(ZERO, 0) else ZERO) &&
      Blank(pdp1) && Blank(pdp2) && Blank(pd1) && Blank(pd2)
    }

    ghost function LowPml(b: nat, k: nat): Entry {
      if k == 0 then SetTable(ZERO, pdp0) else if k == Top(b) then SetTable(ZERO, pdp1) else ZERO
    }

    ghost function LowPdp0(b: nat, k: nat): Entry {
      if k == 0 then SetTable(ZERO, pd0)
      else if Top(b) == 0 && k == Mid(b) then SetTable(ZERO, pd1)
      else ZERO
    }

    ghost function LowPd0(b: nat, n: nat, k: nat): Entry
      requires b < 0x400_0000 && k < 512
    {
      if k == 0 then SetPage(ZERO, 0)
      else if Top(b) == 0 && Mid(b) == 0 then Filled(ZERO, k, Low(b), n, b)
      else ZERO
    }

    /** The tables below the PML4 that map bootmem at 2MB page b, of which n pages fit, to itself. */
    ghost predicate Identity(b: nat, n: nat)
      requires b < 0x400_0000
      reads this
    {
      (forall k: nat :: k < 512 ==> At(pdp0, k) == LowPdp0(b, k)) &&
      (Top(b) != 0 ==> forall k: nat :: k < 512 ==> At(pdp1, k) == if k == Mid(b) then SetTable(ZERO, pd1) else ZERO) &&
      (forall k: nat :: k < 512 ==> At(pd0, k) == LowPd0(b, n, k)) &&
      (Top(b) != 0 || Mid(b) != 0 ==> forall k: nat :: k < 512 ==> At(pd1, k) == Filled(ZERO, k, Low(b), n, b))
    }

    /** All tables, with n pages of bootmem mapped to themselves and m at KERN_VA_BASE. */
    ghost predicate Built(b: nat, n: nat, m: nat)
      requires b < 0x400_0000
      reads this
    {
      (forall k: nat :: k < 512 ==> At(pml, k) == if k == 511 then SetTable(ZERO, pdp2) else LowPml(b, k)) &&
      Identity(b, n) &&
      (forall k: nat :: k < 512 ==> At(pdp2, k) == if k == 510 then SetTable(ZERO, pd2) else ZERO) &&
      (forall k: nat :: k < 512 ==> At(pd2, k) == Filled(ZERO, k, 0, m, b))
    }

    // ----- building them -----

    /** init_trampoline_pgts: all seven tables cleared, and the first 2MB mapped to itself. */
    method InitPgts()
      requires Valid()
      modifies this`mem
      ensures Initial()
    {
      hide At, SetTable, SetPage;
      Clear(pml);
      Clear(pdp0);
      Clear(pdp1);
      Clear(pdp2);
      Clear(pd0);
      Clear(pd1);
      Clear(pd2);
      Write(pml, 0, SetTable(At(pml, 0), pdp0));
      Write(pdp0, 0, SetTable(At(pdp0, 0), pd0));
      Write(pd0, 0, SetPage(At(pd0, 0), 0));
    }

    /** The loop that fills one page directory; pages that are there already stay. */
    method FillPd(pd: nat, va0: nat, pa0: nat, num: nat, ghost page: nat)
      requires num <= 512 - PdeIndex(va0) && va0 % SIZE_2MB == 0 && pa0 == page * SIZE_2MB && page < 0x400_0000
      modifies this`mem
      ensures forall k: nat :: k < 512 ==> At(pd, k) == Filled(old(At(pd, k)), k, PdeIndex(va0), num, page)
      ensures forall f: nat, k: nat :: f != pd ==> At(f, k) == old(At(f, k))
    {
      hide At, SetPage;
      var va, pa := va0, pa0;
      var i := 0;
      while i < num
        invariant i <= num && va == va0 + i * SIZE_2MB && pa == pa0 + i * SIZE_2MB
        invariant forall k: nat :: k < 512 ==> At(pd, k) == Filled(old(At(pd, k)), k, PdeIndex(va0), i, page)
        invariant forall f: nat, k: nat :: f != pd ==> At(f, k) == old(At(f, k))
      {
        PdeIndexMoves(va0, i);
        assert pa / SIZE_2MB == page + i;
        if !At(pd, PdeIndex(va)).present {
          Write(pd, PdeIndex(va), SetPage(At(pd, PdeIndex(va)), pa / SIZE_2MB));
        }
        va := va + SIZE_2MB;
        pa := pa + SIZE_2MB;
        i := i + 1;
      }
    }

    /** Entry i of an upper table, made to point to `spare` if it is absent. */
    method EnterTable(frame: nat, i: nat, spare: Base) returns (next: Base)
      modifies this`mem
      ensures next == Target(old(At(frame, i)), spare)
      ensures forall k: nat :: At(frame, k) == Entered(old(At(frame, k)), k, i, spare)
      ensures forall f: nat, k: nat :: f != frame ==> At(f, k) == old(At(f, k))
    {
      hide At;
      if !At(frame, i).present {
        Write(frame, i, SetTable(At(frame, i), spare));
      }
      next := At(frame, i).base;
    }

    /** One of the two blocks of pisces_setup_trampoline: bootmem pages at `va`, up to the end of the page directory. */
    method MapBlock(va: nat, pa: nat, entries: nat, sparePdp: Base, sparePd: Base, ghost page: nat)
      returns (ghost pdp: Base, ghost pd: Base)
      requires va % SIZE_2MB == 0 && pa == page * SIZE_2MB && page < 0x400_0000
      requires var pdp := Target(At(pml, Pml4eIndex(va)), sparePdp);
               pdp != pml && Target(At(pdp, PdpeIndex(va)), sparePd) !in {pml, pdp}
      modifies this`mem
      ensures pdp == Target(old(At(pml, Pml4eIndex(va))), sparePdp)
      ensures pd == Target(old(At(pdp, PdpeIndex(va))), sparePd)
      ensures forall k: nat :: k < 512 ==> At(pml, k) == Entered(old(At(pml, k)), k, Pml4eIndex(va), sparePdp)
      ensures forall k: nat :: k < 512 ==> At(pdp, k) == Entered(old(At(pdp, k)), k, PdpeIndex(va), sparePd)
      ensures forall k: nat :: k < 512 ==>
                At(pd, k) == Filled(old(At(pd, k)), k, PdeIndex(va), Min(entries, 512 - PdeIndex(va)), page)
      ensures forall f: nat, k: nat :: f !in {pml, pdp, pd} ==> At(f, k) == old(At(f, k))
    {
      hide At, Entered, Filled, Target, Pml4eIndex, PdpeIndex, PdeIndex;
      var num := entries;
      if num > 512 - PdeIndex(va) {
        num := 512 - PdeIndex(va);
      }
      var pdpTable := EnterTable(pml, Pml4eIndex(va), sparePdp);
      var pdTable := EnterTable(pdpTable, PdpeIndex(va), sparePd);
      FillPd(pdTable, va, pa, num, page);
      pdp, pd := pdpTable, pdTable;
    }

    /** The block that maps bootmem, at 2MB page b, to itself. */
    method MapIdentity(bootmem: nat, entries: nat, ghost b: nat)
      requires Valid() && Initial() && bootmem == b * SIZE_2MB && b < 0x400_0000
      modifies this`mem
      ensures Identity(b, Min(entries, 512 - Low(b)))
      ensures forall k: nat :: k < 512 ==> At(pml, k) == LowPml(b, k)
      ensures Blank(pdp2) && Blank(pd2)
    {
      hide At, Filled, Min, Pml4eIndex, PdpeIndex, PdeIndex, Top, Mid, Low, SetPage, SetTable;
      IndicesOf(bootmem, b);
      TableIs(pdp0);
      TableIs(pd0);
      PageIs(0);
      PresentStays(SetPage(ZERO, 0), Low(b), Min(entries, 512 - Low(b)), b);
      ghost var pdp, pd := MapBlock(bootmem, bootmem, entries, pdp1, pd1, b);
    }

    /** The block that maps bootmem to KERN_VA_BASE. */
    method MapKernel(bootmem: nat, entries: nat, ghost b: nat, ghost n: nat)
      requires Valid() && bootmem == b * SIZE_2MB && b < 0x400_0000
      requires Identity(b, n) && Blank(pdp2) && Blank(pd2) && forall k: nat :: k < 512 ==> At(pml, k) == LowPml(b, k)
      modifies this`mem
      ensures Built(b, n, Min(entries, 512))
    {
      hide At, Filled, Min, Pml4eIndex, PdpeIndex, PdeIndex, Top, Mid, Low;
      KernAddress();
      ghost var pdp, pd := MapBlock(KERN_VA_BASE, bootmem, entries, pdp2, pd2, b);
    }

    /** pisces_setup_trampoline, up to the call that installs the trampoline code. */
    method Setup(bootmem: nat, size: nat) returns (ret: int)
      requires Valid() && bootmem % 0x20_0000 == 0 && bootmem < 0x8000_0000_0000
      modifies this`mem
      ensures ret == 0 <==> size % 0x20_0000 == 0
      ensures ret != 0 ==> mem == old(mem)
      ensures ret == 0 ==> forall va :: IsCanonical(va) ==>
                Translate(mem, pml, va) == Expected(va, bootmem, size / 0x20_0000 % 0x1_0000_0000)
      ensures ret == 0 ==> forall va :: IsCanonical(va) && Translate(mem, pml, va).Some? ==> MayWrite(mem, pml, va)
    {
      hide Built, Initial, Identity, Blank, At, Expected, Translate, IsCanonical, MayWrite;
      if size % SIZE_2MB != 0 {
        return -1;
      }
      InitPgts();
      var entries := size / SIZE_2MB % 0x1_0000_0000;
      ghost var b := bootmem / SIZE_2MB;
      MapIdentity(bootmem, entries, b);
      MapKernel(bootmem, entries, b, Min(entries, 512 - Low(b)));
      forall va | IsCanonical(va) ensures Translate(mem, pml, va) == Expected(va, bootmem, entries) {
        TranslatesAsBuilt(this, bootmem, b, entries, va);
      }
      forall va | IsCanonical(va) && Translate(mem, pml, va).Some? ensures MayWrite(mem, pml, va) {
        MayWriteAsBuilt(this, b, Min(entries, 512 - Low(b)), Min(entries, 512), va);
      }
      ret := 0;
    }
  }

  lemma PdeIndexMoves(va: nat, i: nat)
    requires va % SIZE_2MB == 0 && i < 512 - PdeIndex(va)
    ensures PdeIndex(va + i * SIZE_2MB) == PdeIndex(va) + i
  {
    assert (va + i * SIZE_2MB) / SIZE_2MB == va / SIZE_2MB + i;
  }

  lemma KernAddress()
    ensures Pml4eIndex(KERN_VA_BASE) == 511 && PdpeIndex(KERN_VA_BASE) == 510 && PdeIndex(KERN_VA_BASE) == 0
    ensures KERN_VA_BASE % SIZE_2MB == 0
  {
  }

  lemma PresentStays(e: Entry, first: nat, count: nat, page: nat)
    requires e.present && page < 0x400_0000
    ensures forall k: nat :: k < 512 ==> Filled(e, k, first, count, page) == e
  {
  }

  lemma IndicesOf(va: nat, b: nat)
    requires va == b * SIZE_2MB && b < 0x400_0000
    ensures Pml4eIndex(va) == Top(b) < 256 && PdpeIndex(va) == Mid(b) && PdeIndex(va) == Low(b) && va % SIZE_2MB == 0
  {
    assert va / SIZE_2MB == b;
    assert va / SIZE_1GB == b / 512;
    assert va / SIZE_512GB == b / 0x4_0000;
  }

  // ----- what the tables mean -----

  predicate IsCanonical(va: nat) {
    va < 0x8000_0000_0000 || 0xffff_8000_0000_0000 <= va < 0x1_0000_0000_0000_0000
  }

  /** The first 2MB map to themselves, bootmem maps to itself up to its next 1GB boundary, and the last 2GB of addresses
      begin with bootmem, up to 1GB of it. */
  function Expected(va: nat, bootmem: nat, entries: nat): Option<nat> {
    if va < 0x20_0000 then Some(va)
    else if bootmem <= va < Min(bootmem + entries * 0x20_0000, (bootmem / 0x4000_0000 + 1) * 0x4000_0000) then Some(va)
    else if 0xffff_ffff_8000_0000 <= va < 0xffff_ffff_8000_0000 + Min(entries * 0x20_0000, 0x4000_0000) then
      Some(bootmem + (va - 0xffff_ffff_8000_0000))
    else None
  }

  /** All three entries on the way to a 2MB page allow writing. */
  predicate MayWrite(mem: Memory, root: nat, va: nat) {
    var e4 := EntryAt(mem, root, va / 0x80_0000_0000 % 512);
    var e3 := EntryAt(mem, e4.base, va / 0x4000_0000 % 512);
    var e2 := EntryAt(mem, e3.base, va / 0x20_0000 % 512);
    e4.writable && e3.writable && e2.writable
  }

  /** The entry of the page directory level that a translation reaches, or an absent one. */
  function PdEntry(mem: Memory, root: nat, i4: nat, i3: nat, i2: nat): Entry
    requires i4 < 512 && i3 < 512 && i2 < 512
  {
    var e4 := EntryAt(mem, root, i4);
    if !e4.present then ZERO
    else
      var e3 := EntryAt(mem, e4.base, i3);
      if !e3.present then ZERO else EntryAt(mem, e3.base, i2)
  }

  /** No 1GB pages are used. */
  predicate NoHuge(mem: Memory, root: nat, i4: nat, i3: nat)
    requires i4 < 512 && i3 < 512
  {
    var e4 := EntryAt(mem, root, i4);
    e4.present ==> !EntryAt(mem, e4.base, i3).large
  }

  lemma LookupIs(mem: Memory, root: nat, va: nat)
    requires NoHuge(mem, root, Pml4eIndex(va), PdpeIndex(va))
    ensures var e := PdEntry(mem, root, Pml4eIndex(va), PdpeIndex(va), PdeIndex(va));
            (!e.present ==> Lookup(mem, root, 4, va) == None) &&
            (e.present && e.large ==>
                Lookup(mem, root, 4, va) == Some(Leaf(va - va % SIZE_2MB, e.base / 0x200 * SIZE_2MB, SIZE_2MB)))
  {
  }

  /** The upper-level entry that leads on to the page directory level. */
  function PdpEntry(mem: Memory, root: nat, i4: nat, i3: nat): Entry
    requires i4 < 512 && i3 < 512
  {
    var e4 := EntryAt(mem, root, i4);
    if !e4.present then ZERO else EntryAt(mem, e4.base, i3)
  }

  lemma PdpEntryIs(boot: Boot, b: nat, n: nat, m: nat, i4: nat, i3: nat)
    requires boot.Valid() && b < 0x400_0000 && boot.Built(b, n, m) && i4 < 512 && i3 < 512
    ensures PdpEntry(boot.mem, boot.pml, i4, i3) ==
              if i4 == 0 && i3 == 0 then SetTable(ZERO, boot.pd0)
              else if i4 == Top(b) && i3 == Mid(b) then SetTable(ZERO, boot.pd1)
              else if i4 == 511 && i3 == 510 then SetTable(ZERO, boot.pd2)
              else ZERO
  {
    hide EntryAt, Filled, Top, Mid, Low;
    var e4 := boot.At(boot.pml, i4);
    var e3 := boot.At(e4.base, i3);
    assert e4 == if i4 == 511 then SetTable(ZERO, boot.pdp2) else boot.LowPml(b, i4);
  }

  /** What the tables hold for a 2MB page. */
  lemma EntryIs(boot: Boot, b: nat, n: nat, m: nat, i4: nat, i3: nat, i2: nat)
    requires boot.Valid() && b < 0x400_0000 && boot.Built(b, n, m)
    requires i4 < 512 && i3 < 512 && i2 < 512
    ensures NoHuge(boot.mem, boot.pml, i4, i3)
    ensures PdEntry(boot.mem, boot.pml, i4, i3, i2) ==
              if i4 == 0 && i3 == 0 then boot.LowPd0(b, n, i2)
              else if i4 == Top(b) && i3 == Mid(b) then Filled(ZERO, i2, Low(b), n, b)
              else if i4 == 511 && i3 == 510 then Filled(ZERO, i2, 0, m, b)
              else ZERO
  {
    hide EntryAt, NoHuge, PdEntry, PdpEntry, Filled, Top, Mid, Low;
    PdpEntryIs(boot, b, n, m, i4, i3);
    PdEntryBelow(boot.mem, boot.pml, i4, i3, i2);
    var e := PdpEntry(boot.mem, boot.pml, i4, i3);
    assert e.present ==> EntryAt(boot.mem, e.base, i2) == boot.At(e.base, i2);
  }

  lemma PdEntryBelow(mem: Memory, root: nat, i4: nat, i3: nat, i2: nat)
    requires i4 < 512 && i3 < 512 && i2 < 512
    ensures var e := PdpEntry(mem, root, i4, i3);
            (!e.large ==> NoHuge(mem, root, i4, i3)) &&
            PdEntry(mem, root, i4, i3, i2) == if e.present then EntryAt(mem, e.base, i2) else ZERO
  {
  }

  const KERN_PAGE := 0x7ff_fc00

  lemma PageIndices(va: nat)
    requires va < 0x1_0000_0000_0000
    ensures var p := va / SIZE_2MB;
            p < 0x800_0000 && Pml4eIndex(va) == Top(p) < 512 && PdpeIndex(va) == Mid(p) && PdeIndex(va) == Low(p)
  {
  }

  /** A run of pages that stays in one page directory. */
  lemma RunInPd(b: nat, n: nat, p: nat)
    requires Low(b) + n <= 512
    ensures b <= p < b + n <==> Top(p) == Top(b) && Mid(p) == Mid(b) && Low(b) <= Low(p) < Low(b) + n
    ensures p / 512 == b / 512 ==> p == b + Low(p) - Low(b)
  {
    QuotientOf(b);
    QuotientOf(p);
  }

  lemma QuotientOf(p: nat)
    ensures p == p / 512 * 512 + Low(p) && p / 512 == Top(p) * 512 + Mid(p)
  {
  }

  /** The page that the tables map 2MB page p of the low 48 bits to. */
  function MappedPage(b: nat, n: nat, m: nat, p: nat): Option<nat> {
    if p == 0 || b <= p < b + n then Some(p)
    else if KERN_PAGE <= p < KERN_PAGE + m then Some(b + p - KERN_PAGE)
    else None
  }

  lemma TableIs(frame: Base)
    ensures SetTable(ZERO, frame).present && SetTable(ZERO, frame).base == frame
  {
  }

  lemma PageIs(page: nat)
    requires page < 0x8000_0000
    ensures var e := SetPage(ZERO, page); e.present && e.large && e.base / 0x200 == page
  {
  }

  lemma TranslatesPage(boot: Boot, b: nat, n: nat, m: nat, low: nat)
    requires boot.Valid() && b < 0x400_0000 && Low(b) + n <= 512 && m <= 512 && boot.Built(b, n, m)
    requires low < 0x1_0000_0000_0000
    ensures Lookup(boot.mem, boot.pml, 4, low) ==
              match MappedPage(b, n, m, low / SIZE_2MB)
              case Some(page) => Some(Leaf(low - low % SIZE_2MB, page * SIZE_2MB, SIZE_2MB))
              case None => None
  {
    hide Lookup, NoHuge, PdEntry, SetPage, Pml4eIndex, PdpeIndex, PdeIndex, Top, Mid, Low, Filled;
    var p := low / SIZE_2MB;
    PageIndices(low);
    EntryIs(boot, b, n, m, Top(p), Mid(p), Low(p));
    LookupIs(boot.mem, boot.pml, low);
    EntryPage(boot, b, n, m, p);
  }

  /** The entry for page p is the one that MappedPage says. */
  lemma EntryPage(boot: Boot, b: nat, n: nat, m: nat, p: nat)
    requires b < 0x400_0000 && Low(b) + n <= 512 && m <= 512 && p < 0x800_0000
    ensures var (i4, i3, i2) := (Top(p), Mid(p), Low(p));
            var e := if i4 == 0 && i3 == 0 then boot.LowPd0(b, n, i2)
                     else if i4 == Top(b) && i3 == Mid(b) then Filled(ZERO, i2, Low(b), n, b)
                     else if i4 == 511 && i3 == 510 then Filled(ZERO, i2, 0, m, b)
                     else ZERO;
            match MappedPage(b, n, m, p)
            case Some(page) => e.present && e.large && e.base / 0x200 == page
            case None => !e.present
  {
    hide SetPage, Top, Mid, Low;
    KernIndices();
    RunInPd(b, n, p);
    RunInPd(KERN_PAGE, m, p);
    RunInPd(0, 1, p);
    QuotientOf(p);
    QuotientOf(b);
    PageIs(0);
    if b <= p < b + n {
      PageIs(p);
    } else if KERN_PAGE <= p < KERN_PAGE + m {
      PageIs(b + p - KERN_PAGE);
    }
  }

  lemma KernIndices()
    ensures Top(KERN_PAGE) == 511 && Mid(KERN_PAGE) == 510 && Low(KERN_PAGE) == 0 && Top(0) == Mid(0) == Low(0) == 0
  {
  }

  function ExpectedIn(va: nat, bootmem: nat, n: nat, m: nat): Option<nat> {
    if va < SIZE_2MB || bootmem <= va < bootmem + n * SIZE_2MB then Some(va)
    else if KERN_VA_BASE <= va < KERN_VA_BASE + m * SIZE_2MB then Some(bootmem + va - KERN_VA_BASE)
    else None
  }

  function PageThenOffset(o: Option<nat>, va: nat): Option<nat> {
    match o
    case Some(page) => Some(page * SIZE_2MB + va % SIZE_2MB)
    case None => None
  }

  lemma ExpectedLow(va: nat, b: nat, n: nat, m: nat)
    requires va < 0x8000_0000_0000 && b < 0x400_0000 && Low(b) + n <= 512 && m <= 512
    ensures ExpectedIn(va, b * SIZE_2MB, n, m) == PageThenOffset(MappedPage(b, n, m, va / SIZE_2MB), va)
  {
  }

  lemma ExpectedHigh(va: nat, b: nat, n: nat, m: nat)
    requires 0xffff_8000_0000_0000 <= va < 0x1_0000_0000_0000_0000 && b < 0x400_0000 && Low(b) + n <= 512 && m <= 512
    ensures ExpectedIn(va, b * SIZE_2MB, n, m) == PageThenOffset(MappedPage(b, n, m, va / SIZE_2MB - 0x7ff_f800_0000), va)
  {
  }

  /** The same in addresses. */
  lemma ExpectedIs(va: nat, bootmem: nat, b: nat, n: nat, m: nat)
    requires IsCanonical(va) && bootmem == b * SIZE_2MB && b < 0x400_0000 && Low(b) + n <= 512 && m <= 512
    ensures ExpectedIn(va, bootmem, n, m) == PageThenOffset(MappedPage(b, n, m, va % 0x1_0000_0000_0000 / SIZE_2MB), va)
  {
    hide ExpectedIn, PageThenOffset, MappedPage;
    if va < 0x8000_0000_0000 {
      assert va % 0x1_0000_0000_0000 == va;
      ExpectedLow(va, b, n, m);
    } else {
      assert va % 0x1_0000_0000_0000 == va - 0xffff_0000_0000_0000;
      assert (va - 0xffff_0000_0000_0000) / SIZE_2MB == va / SIZE_2MB - 0x7ff_f800_0000;
      ExpectedHigh(va, b, n, m);
    }
  }

  /** The two ways to say where the mapping of bootmem ends. */
  lemma ExpectedIsIn(va: nat, bootmem: nat, b: nat, entries: nat)
    requires bootmem == b * SIZE_2MB
    ensures Expected(va, bootmem, entries) == ExpectedIn(va, bootmem, Min(entries, 512 - Low(b)), Min(entries, 512))
  {
    QuotientOf(b);
    assert bootmem / 0x4000_0000 == b / 512;
  }

  /** What the built tables translate every canonical address to. */
  lemma TranslatesAsBuilt(boot: Boot, bootmem: nat, b: nat, entries: nat, va: nat)
    requires boot.Valid() && bootmem == b * SIZE_2MB && b < 0x400_0000 && IsCanonical(va)
    requires boot.Built(b, Min(entries, 512 - Low(b)), Min(entries, 512))
    ensures Translate(boot.mem, boot.pml, va) == Expected(va, bootmem, entries)
  {
    hide Lookup, PdeIndex, MappedPage, IsCanonical, Low, Expected, ExpectedIn;
    var n, m := Min(entries, 512 - Low(b)), Min(entries, 512);
    IndicesOf(bootmem, b);
    ExpectedIsIn(va, bootmem, b, entries);
    TranslatesPage(boot, b, n, m, va % 0x1_0000_0000_0000);
    ExpectedIs(va, bootmem, b, n, m);
  }

  // ----- what the tables allow -----

  /** An entry as the code makes it, or an absent one. */
  lemma MadeIsWritable(boot: Boot, b: nat, n: nat, m: nat, i4: nat, i3: nat, i2: nat)
    requires boot.Valid() && b < 0x400_0000 && boot.Built(b, n, m) && i4 < 512 && i3 < 512 && i2 < 512
    ensures var e4, e3 := EntryAt(boot.mem, boot.pml, i4), PdpEntry(boot.mem, boot.pml, i4, i3);
            var e2 := PdEntry(boot.mem, boot.pml, i4, i3, i2);
            (e4.present ==> e4.writable) && (e3.present ==> e3.writable) && (e2.present ==> e2.writable)
  {
    hide EntryAt, PdEntry, PdpEntry, Top, Mid, Low;
    PdpEntryIs(boot, b, n, m, i4, i3);
    EntryIs(boot, b, n, m, i4, i3, i2);
    assert EntryAt(boot.mem, boot.pml, i4) == boot.At(boot.pml, i4) ==
           if i4 == 511 then SetTable(ZERO, boot.pdp2) else boot.LowPml(b, i4);
  }

  lemma QuotientsOfLow(va: nat, q: nat, low: nat)
    requires va == q * 0x1_0000_0000_0000 + low
    ensures va / 0x80_0000_0000 == q * 512 + low / 0x80_0000_0000
    ensures va / 0x4000_0000 == q * 512 * 512 + low / 0x4000_0000
    ensures va / 0x20_0000 == q * 512 * 512 * 512 + low / 0x20_0000
  {
  }

  lemma Wraps(q: nat, n: nat)
    ensures (q * 512 + n) % 512 == n % 512
  {
  }

  /** The indices of an address are those of its low 48 bits. */
  lemma IndicesOfLow(va: nat)
    ensures var low := va % 0x1_0000_0000_0000;
            && Pml4eIndex(low) == va / 0x80_0000_0000 % 512
            && PdpeIndex(low) == va / 0x4000_0000 % 512
            && PdeIndex(low) == va / 0x20_0000 % 512
  {
    var q, low := va / 0x1_0000_0000_0000, va % 0x1_0000_0000_0000;
    QuotientsOfLow(va, q, low);
    Wraps(q, low / 0x80_0000_0000);
    Wraps(q * 512, low / 0x4000_0000);
    Wraps(q * 512 * 512, low / 0x20_0000);
  }

  lemma PresentAllTheWay(mem: Memory, root: nat, i4: nat, i3: nat, i2: nat)
    requires i4 < 512 && i3 < 512 && i2 < 512 && PdEntry(mem, root, i4, i3, i2).present
    ensures var e4 := EntryAt(mem, root, i4); var e3 := EntryAt(mem, e4.base, i3);
            e4.present && PdpEntry(mem, root, i4, i3) == e3 && e3.present &&
                PdEntry(mem, root, i4, i3, i2) == EntryAt(mem, e3.base, i2)
  {
  }

  /** Whatever the built tables translate may be written. */
  lemma MayWriteAsBuilt(boot: Boot, b: nat, n: nat, m: nat, va: nat)
    requires boot.Valid() && b < 0x400_0000 && Low(b) + n <= 512 && m <= 512 && boot.Built(b, n, m)
    requires Translate(boot.mem, boot.pml, va).Some?
    ensures MayWrite(boot.mem, boot.pml, va)
  {
    hide Lookup, EntryAt, NoHuge, Pml4eIndex, PdpeIndex, PdeIndex;
    var low := va % 0x1_0000_0000_0000;
    var i4, i3, i2 := Pml4eIndex(low), PdpeIndex(low), PdeIndex(low);
    IndicesOfLow(va);
    MadeIsWritable(boot, b, n, m, i4, i3, i2);
    EntryIs(boot, b, n, m, i4, i3, i2);
    LookupIs(boot.mem, boot.pml, low);
    PresentAllTheWay(boot.mem, boot.pml, i4, i3, i2);
  }
}
