/** Four-level x86-64 page tables: the fields of src/pgtables.h, and the two walkers of src/pgtables.c. */
module Pgtables {
  import opened Bytes

  /** Bits 12 to 51 of an entry. */
  type Base = b: nat | b < 0x100_0000_0000

  /** An entry.  `large` is bit 7, which has no meaning in the top and bottom level. */
  datatype Entry = Entry(present: bool, writable: bool, large: bool, base: Base)

  const ZERO := Entry(false, false, false, 0)

  /** The memory that holds the tables, by page frame and position in the page. */
  type Memory = map<(nat, nat), Entry>

  function EntryAt(mem: Memory, frame: nat, i: nat): Entry {
    if (frame, i) in mem then mem[(frame, i)] else ZERO
  }

  const SIZE_4KB := 4096
  const SIZE_2MB := 4096 * 512
  const SIZE_1GB := 0x4000_0000
  const SIZE_512GB := 0x80_0000_0000

  /** What one entry of a level covers: 1 is the page table, 4 the PML4. */
  function Size(level: nat): (s: nat)
    requires 1 <= level <= 5
    ensures s > 0
  {
    match level
    case 1 => SIZE_4KB
    case 2 => SIZE_2MB
    case 3 => SIZE_1GB
    case 4 => SIZE_512GB
    case _ => 512 * SIZE_512GB
  }

  function PteIndex(va: nat): (i: nat)
    ensures i < 512
  {
    va / SIZE_4KB % 512
  }

  function PdeIndex(va: nat): (i: nat)
    ensures i < 512
  {
    va / SIZE_2MB % 512
  }

  function PdpeIndex(va: nat): (i: nat)
    ensures i < 512
  {
    va / SIZE_1GB % 512
  }

  function Pml4eIndex(va: nat): (i: nat)
    ensures i < 512
  {
    va / SIZE_512GB % 512
  }

  function Index(va: nat, level: nat): (i: nat)
    requires 1 <= level <= 4
    ensures i < 512
  {
    match level
    case 1 => PteIndex(va)
    case 2 => PdeIndex(va)
    case 3 => PdpeIndex(va)
    case _ => Pml4eIndex(va)
  }

  /** The 2MB and 1GB page fields are the upper 31 and 22 bits of the 40. */
  function PageAddr(e: Entry, level: nat): nat
    requires 1 <= level <= 3
  {
    match level
    case 1 => e.base * SIZE_4KB
    case 2 => e.base / 0x200 * SIZE_2MB
    case _ => e.base / 0x4_0000 * SIZE_1GB
  }

  predicate IsLeaf(e: Entry, level: nat) {
    e.present && (level == 1 || (level in {2, 3} && e.large))
  }

  // ----- what a table means -----

  /** A mapped page: its first address, where it maps to, and its size. */
  datatype Leaf = Leaf(va: nat, pa: nat, size: nat)

  function Lookup(mem: Memory, frame: nat, level: nat, va: nat): Option<Leaf>
    requires 1 <= level <= 4
    decreases level
  {
    var e := EntryAt(mem, frame, Index(va, level));
    if IsLeaf(e, level) then Some(Leaf(va - va % Size(level), PageAddr(e, level), Size(level)))
    else if e.present && level > 1 then Lookup(mem, e.base, level - 1, va)
    else None
  }

  /** The physical address, as the processor computes it from the 48 low bits. */
  function Translate(mem: Memory, root: nat, va: nat): Option<nat> {
    match Lookup(mem, root, 4, va % 0x1_0000_0000_0000)
    case None => None
    case Some(leaf) => Some(leaf.pa + va % leaf.size)
  }

  // ----- the same, as the processor reads it from memory -----

  /** Bit 0 is `present`, bit 1 `writable`, bit 7 `large`, bits 12 to 51 are the base. */
  function EntryOf(w: nat): Entry {
    Entry(w % 2 == 1, w / 2 % 2 == 1, w / 128 % 2 == 1, w / 0x1000 % 0x100_0000_0000)
  }

  /** The 64-bit words of memory, by their addresses, hold these entries: eight bytes each, 512 in a 4KB frame. */
  ghost predicate Mirrors(mem: Memory, words: nat -> nat) {
    forall frame: nat, i: nat :: i < 512 ==> EntryAt(mem, frame, i) == EntryOf(words(0x1000 * frame + 8 * i))
  }

  datatype Found = Mapped(addr: nat, size: nat) | Absent(level: nat)

  /** The 40 address bits of a word that points to a table. */
  function TableAddr(w: nat): nat {
    w / 0x1000 % 0x100_0000_0000 * 0x1000
  }

  /** The page walk of the processor from the PML4 at address `cr3`; an address is cut off at bit 51 and aligned to
      its page. */
  function Processor(words: nat -> nat, cr3: nat, va: nat): (f: Found)
    ensures f.Mapped? ==> f.size in {0x1000, 0x20_0000, 0x4000_0000}
  {
    var w4 := words(cr3 + 8 * (va / 0x80_0000_0000 % 512));
    if w4 % 2 == 0 then Absent(4)
    else
      var w3 := words(TableAddr(w4) + 8 * (va / 0x4000_0000 % 512));
      if w3 % 2 == 0 then Absent(3)
      else if w3 / 128 % 2 == 1 then Mapped(w3 / 0x4000_0000 % 0x40_0000 * 0x4000_0000, 0x4000_0000)
      else
        var w2 := words(TableAddr(w3) + 8 * (va / 0x20_0000 % 512));
        if w2 % 2 == 0 then Absent(2)
        else if w2 / 128 % 2 == 1 then Mapped(w2 / 0x20_0000 % 0x8000_0000 * 0x20_0000, 0x20_0000)
        else
          var w1 := words(TableAddr(w2) + 8 * (va / 0x1000 % 512));
          if w1 % 2 == 0 then Absent(1) else Mapped(w1 / 0x1000 % 0x100_0000_0000 * 0x1000, 0x1000)
  }

  /** The upper bits of a field of 40 bits are a field of fewer. */
  lemma UpperBits(x: nat, q: nat, r: nat)
    requires x == q * 0x100_0000_0000 + r && r < 0x100_0000_0000
    ensures r / 0x200 == x / 0x200 % 0x8000_0000 && r / 0x4_0000 == x / 0x4_0000 % 0x40_0000
  {
    assert x / 0x200 == q * 0x8000_0000 + r / 0x200;
    assert x / 0x4_0000 == q * 0x40_0000 + r / 0x4_0000;
  }

  lemma ShiftTwice(w: nat)
    ensures w / 0x1000 / 0x200 == w / 0x20_0000 && w / 0x1000 / 0x4_0000 == w / 0x4000_0000
  {
  }

  lemma FieldsOf(w: nat)
    ensures EntryOf(w).base / 0x200 == w / 0x20_0000 % 0x8000_0000
    ensures EntryOf(w).base / 0x4_0000 == w / 0x4000_0000 % 0x40_0000
    ensures EntryOf(w).base * 0x1000 == TableAddr(w)
  {
    var x := w / 0x1000;
    UpperBits(x, x / 0x100_0000_0000, x % 0x100_0000_0000);
    ShiftTwice(w);
  }

  /** The word of an entry. */
  function WordOf(e: Entry): nat {
    (if e.present then 1 else 0) + (if e.writable then 2 else 0) + (if e.large then 128 else 0) + 0x1000 * e.base
  }

  lemma Even(a: nat, k: nat)
    ensures (a + 2 * k) % 2 == a % 2
  {
  }

  lemma LowBits(w: nat, bits: nat, base: nat)
    requires w == bits + 0x1000 * base && bits < 0x1000
    ensures w % 2 == bits % 2 && w / 2 % 2 == bits / 2 % 2 && w / 128 % 2 == bits / 128 % 2 && w / 0x1000 == base
  {
    var w2, w128 := w / 2, w / 128;
    assert w2 == bits / 2 + 2 * (0x400 * base);
    assert w128 == bits / 128 + 2 * (0x10 * base);
    Even(bits, 0x800 * base);
    Even(bits / 2, 0x400 * base);
    Even(bits / 128, 0x10 * base);
  }

  lemma EntryOfWord(e: Entry)
    ensures EntryOf(WordOf(e)) == e
  {
    var bits := (if e.present then 1 else 0) + (if e.writable then 2 else 0) + (if e.large then 128 else 0);
    LowBits(WordOf(e), bits, e.base);
  }

  /** Every memory of tables is that of some words. */
  lemma SomeWords(mem: Memory)
    ensures exists words: nat -> nat :: Mirrors(mem, words)
  {
    var words := (a: nat) => WordOf(EntryAt(mem, a / 0x1000, a % 0x1000 / 8));
    forall frame: nat, i: nat | i < 512 ensures EntryAt(mem, frame, i) == EntryOf(words(0x1000 * frame + 8 * i)) {
      var a := 0x1000 * frame + 8 * i;
      assert a / 0x1000 == frame && a % 0x1000 / 8 == i;
      EntryOfWord(EntryAt(mem, frame, i));
    }
    assert Mirrors(mem, words);
  }

  // ----- looking one address up -----

  /** The lines dump_pgtables prints: the page, or the level whose entry is not present. */
  datatype Dump = Page(addr: nat, size: nat) | NotPresent(level: nat)

  function AsFound(d: Dump): Found {
    match d
    case Page(addr, size) => Mapped(addr, size)
    case NotPresent(level) => Absent(level)
  }

  ghost function Dumped(mem: Memory, root: nat, va: nat): (d: Dump)
    ensures d.Page? ==> d.size > 0
  {
    var e4 := EntryAt(mem, root, Pml4eIndex(va));
    var e3 := EntryAt(mem, e4.base, PdpeIndex(va));
    var e2 := EntryAt(mem, e3.base, PdeIndex(va));
    var e1 := EntryAt(mem, e2.base, PteIndex(va));
    if !e4.present then NotPresent(4)
    else if !e3.present then NotPresent(3)
    else if e3.large then Page(e3.base / 0x4_0000 * SIZE_1GB, SIZE_1GB)
    else if !e2.present then NotPresent(2)
    else if e2.large then Page(e2.base / 0x200 * SIZE_2MB, SIZE_2MB)
    else if !e1.present then NotPresent(1)
    else Page(e1.base * SIZE_4KB, SIZE_4KB)
  }

  lemma DumpedIsProcessors(mem: Memory, words: nat -> nat, root: nat, va: nat)
    requires Mirrors(mem, words)
    ensures Processor(words, 0x1000 * root, va) == AsFound(Dumped(mem, root, va))
  {
    hide EntryOf, EntryAt;
    var e4 := EntryAt(mem, root, Pml4eIndex(va));
    var e3 := EntryAt(mem, e4.base, PdpeIndex(va));
    var e2 := EntryAt(mem, e3.base, PdeIndex(va));
    Reads(mem, words, root, Pml4eIndex(va));
    Reads(mem, words, e4.base, PdpeIndex(va));
    Reads(mem, words, e3.base, PdeIndex(va));
    Reads(mem, words, e2.base, PteIndex(va));
    hide Mirrors;
  }

  /** What the word of an entry says. */
  lemma Reads(mem: Memory, words: nat -> nat, frame: nat, i: nat)
    requires Mirrors(mem, words) && i < 512
    ensures var w, e := words(0x1000 * frame + 8 * i), EntryAt(mem, frame, i);
            && (e.present <==> w % 2 == 1) && (e.large <==> w / 128 % 2 == 1)
            && e.base * 0x1000 == TableAddr(w)
            && e.base / 0x200 == w / 0x20_0000 % 0x8000_0000
            && e.base / 0x4_0000 == w / 0x4000_0000 % 0x40_0000
  {
    FieldsOf(words(0x1000 * frame + 8 * i));
  }

  /** What a table means is what the processor finds. */
  lemma LookupIsProcessors(mem: Memory, words: nat -> nat, root: nat, va: nat)
    requires Mirrors(mem, words)
    ensures match Processor(words, 0x1000 * root, va)
            case Mapped(addr, size) => Lookup(mem, root, 4, va) == Some(Leaf(va - va % size, addr, size))
            case Absent(_) => Lookup(mem, root, 4, va) == None
  {
    hide Processor, Lookup, Dumped, EntryAt, Mirrors;
    DumpedIsProcessors(mem, words, root, va);
    LookupIsDumped(mem, root, va);
  }

  lemma LookupIsDumped(mem: Memory, root: nat, va: nat)
    ensures match Dumped(mem, root, va)
            case Page(addr, size) => Lookup(mem, root, 4, va) == Some(Leaf(va - va % size, addr, size))
            case NotPresent(_) => Lookup(mem, root, 4, va) == None
  {
    hide EntryAt;
  }

  /** The physical address is the page found and the offset in it. */
  lemma TranslateIsProcessors(mem: Memory, words: nat -> nat, root: nat, va: nat)
    requires Mirrors(mem, words)
    ensures Translate(mem, root, va) ==
              match Processor(words, 0x1000 * root, va % 0x1_0000_0000_0000)
              case Mapped(addr, size) => Some(addr + va % size)
              case Absent(_) => None
  {
    hide Processor, Lookup, Mirrors;
    LookupIsProcessors(mem, words, root, va % 0x1_0000_0000_0000);
  }

  /** dump_pgtables, on a table that is not at address 0. */
  method DumpPgtables(mem: Memory, root: nat, va: nat) returns (d: Dump)
    requires va < 0x1_0000_0000_0000_0000
    ensures match Lookup(mem, root, 4, va)
            case Some(leaf) => d == Page(leaf.pa, leaf.size)
            case None => d.NotPresent?
    ensures forall words: nat -> nat :: Mirrors(mem, words) ==>
              match Processor(words, 0x1000 * root, va)
              case Mapped(addr, size) => d == Page(addr, size)
              case Absent(level) => d == NotPresent(level)
  {
    hide Mirrors, Processor;
    forall words: nat -> nat | Mirrors(mem, words)
      ensures Processor(words, 0x1000 * root, va) == AsFound(Dumped(mem, root, va))
    {
      DumpedIsProcessors(mem, words, root, va);
    }
    var pmlEntry := EntryAt(mem, root, Pml4eIndex(va));
    if !pmlEntry.present {
      return NotPresent(4);
    }
    var pdpEntry := EntryAt(mem, pmlEntry.base, PdpeIndex(va));
    if !pdpEntry.present {
      return NotPresent(3);
    } else if pdpEntry.large {
      return Page(pdpEntry.base / 0x4_0000 * SIZE_1GB, SIZE_1GB);
    }
    var pdEntry := EntryAt(mem, pdpEntry.base, PdeIndex(va));
    if !pdEntry.present {
      return NotPresent(2);
    } else if pdEntry.large {
      return Page(pdEntry.base / 0x200 * SIZE_2MB, SIZE_2MB);
    }
    var ptEntry := EntryAt(mem, pdEntry.base, PteIndex(va));
    if !ptEntry.present {
      d := NotPresent(1);
    } else {
      d := Page(ptEntry.base * SIZE_4KB, SIZE_4KB);
    }
  }

  // ----- listing all pages -----

  function Walk(mem: Memory, frame: nat, level: nat, i: nat, va: nat): seq<Leaf>
    requires 1 <= level <= 4 && i <= 512
    decreases level, 512 - i, 1
  {
    if i == 512 then []
    else WalkEntry(mem, EntryAt(mem, frame, i), level, i, va) + Walk(mem, frame, level, i + 1, va + Size(level))
  }

  function WalkEntry(mem: Memory, e: Entry, level: nat, i: nat, va: nat): seq<Leaf>
    requires 1 <= level <= 4 && i < 512
    decreases level, 512 - i, 0
  {
    if IsLeaf(e, level) then [Leaf(va, PageAddr(e, level), Size(level))]
    else if e.present && level > 1 then Walk(mem, e.base, level - 1, 0, va)
    else []
  }
}
