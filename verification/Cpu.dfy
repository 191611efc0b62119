/** How the processor translates an address (Intel 64 and IA-32 Architectures
    Software Developer's Manual, volume 3A, section 4.5), and that it finds
    through the kernel's tables just what the walker of
    src/kernel/memory/paging.c says is there. */
module Cpu {
  import opened Division
  import opened PageTree
  import opened PageTables

  /** Physical addresses have at most 52 bits. */
  const PHYSICAL: nat := 0x10_0000_0000_0000

  // ---- entries and addresses

  predicate PresentBit(e: nat) { e % 2 == 1 }

  predicate WriteBit(e: nat) { e / 2 % 2 == 1 }

  /** In the second and third level: a page of one gigabyte or two megabytes. */
  predicate SizeBit(e: nat) { e / 128 % 2 == 1 }

  /** Bits 51 to 12, 21 or 30 of an entry. */
  function FrameOf(e: nat, size: nat): nat
    requires size > 0
  {
    e % PHYSICAL / size * size
  }

  /** Nine bits of the address a level, from bit 47 down. */
  function Field(va: nat, level: nat): (i: nat)
    ensures i < ENTRIES
  {
    (match level
     case 0 => va / 0x80_0000_0000
     case 1 => va / 0x4000_0000
     case 2 => va / 0x20_0000
     case _ => va / 0x1000) % 512
  }

  /** What an entry of the level maps if it does not name a table. */
  function Reach(level: nat): (n: nat)
    ensures n > 0
  {
    match level case 1 => 0x4000_0000 case 2 => 0x20_0000 case _ => 0x1000
  }

  // ---- the walk

  /** A page fault, or the physical address, the size of the page it lies in and
      whether it may be written. The walk leaves the tables when an entry names a page of memory that is not
      one of them. */
  datatype Access = Fault | Reached(pa: nat, size: nat, writable: bool) | Elsewhere

  /** Entry i of the table at a physical address. */
  function EntryAt(s: Tables, pa: nat, i: nat): Option<nat> {
    if pa < s.w.pa || (pa - s.w.pa) % TABLE_SIZE != 0 || !HasEntry(s.m, (pa - s.w.pa) / TABLE_SIZE, i) then None
    else Some(s.m[(pa - s.w.pa) / TABLE_SIZE][i])
  }

  /** The walk from the table of a level at a physical address. */
  function Walk(s: Tables, va: nat, table: nat, level: nat, writable: bool): Access
    requires level <= 3
    decreases 3 - level
  {
    match EntryAt(s, table, Field(va, level))
    case None => Elsewhere
    case Some(e) =>
      var w := writable && WriteBit(e);
      if !PresentBit(e) || (level == 0 && SizeBit(e)) then Fault
      else if level == 3 || (level > 0 && SizeBit(e)) then
        Reached(FrameOf(e, Reach(level)) + va % Reach(level), Reach(level), w)
      else Walk(s, va, FrameOf(e, TABLE_SIZE), level + 1, w)
  }

  /** The walk from the PML4 that CR3 names. */
  function Translation(s: Tables, va: nat): Access { Walk(s, va, s.w.pa, 0, true) }

  // ---- what it finds in the kernel's tables

  lemma PlainBits(e: nat)
    requires Plain(e)
    ensures PresentBit(e) && WriteBit(e) && !SizeBit(e) && TableAddress(e) == PageAddress(e) == e - 3
    ensures (e - 3) % TABLE_SIZE == 0
  {
    var k := e / PAGE_SIZE;
    assert e == PAGE_SIZE * k + 3;
    QuotientUnique(e, 2, 2048 * k + 1, 1);
    QuotientUnique(2048 * k + 1, 2, 1024 * k, 1);
    QuotientUnique(e, 128, 32 * k, 3);
    QuotientUnique(32 * k, 2, 16 * k, 0);
    QuotientUnique(e, 512, 8 * k, 3);
    QuotientUnique(e - 3, TABLE_SIZE, k, 0);
  }

  lemma FrameOfPlain(e: nat)
    requires Plain(e) && e - 3 < PHYSICAL
    ensures FrameOf(e, TABLE_SIZE) == e - 3
  {
    var k := e / PAGE_SIZE;
    assert e == PAGE_SIZE * k + 3;
    QuotientUnique(e, PHYSICAL, 0, e);
  }

  lemma FieldsAre(va: nat, level: nat)
    requires level <= 3
    ensures Field(va, level) == Index(PageOf(va), level)
  {
    IndicesOfAddress(va);
  }

  lemma TableThere(s: Tables, t: nat, i: nat)
    requires Tree(s) && t < s.u && i < ENTRIES
    ensures EntryAt(s, s.w.pa + t * TABLE_SIZE, i) == Some(s.m[t][i])
  {
    QuotientUnique(t * TABLE_SIZE, TABLE_SIZE, t, 0);
  }

  /** The processor meets the tables the kernel's walk meets, as long as the
      fields of the address are the indices of the page. */
  lemma {:induction false} SameTables(s: Tables, va: nat, p: nat, level: nat)
    requires Tree(s) && Walkable(s, p) && level <= 3 && s.w.pa + s.w.total * TABLE_SIZE <= PHYSICAL
    requires forall l: nat :: l < level ==> Field(va, l) == Index(p, l)
    requires TableFor(s, p, level).Some?
    ensures Translation(s, va) == Walk(s, va, s.w.pa + TableFor(s, p, level).value * TABLE_SIZE, level, true)
    decreases level
  {
    hide Tree, Walk, Index, Next;
    if level > 0 {
      SameTables(s, va, p, level - 1);
      WalkLabel(s, p, level - 1);
      NextMet(s, va, TableFor(s, p, level - 1).value, level - 1);
    }
  }

  /** One step through a present entry: it is writable and names no large
      page. */
  lemma NextMet(s: Tables, va: nat, t: nat, level: nat)
    requires Tree(s) && level < 3 && s.w.pa + s.w.total * TABLE_SIZE <= PHYSICAL
    requires t < s.u && s.labels[t].level == level && !OutsideSlot(s, s.labels[t], Field(va, level))
    requires Next(s, t, Field(va, level)).Some?
    ensures var e, n := s.m[t][Field(va, level)], Next(s, t, Field(va, level)).value;
            WriteBit(e) && !SizeBit(e)
            && Walk(s, va, s.w.pa + t * TABLE_SIZE, level, true) == Walk(s, va, s.w.pa + n * TABLE_SIZE, level + 1, true)
  {
    var i := Field(va, level);
    var e := s.m[t][i];
    TableThere(s, t, i);
    assert Plain(e);
    assert LeadsDown(s, t, i);
    PlainBits(e);
    FrameOfPlain(e);
  }

  lemma {:induction false} LastTable(s: Tables, p: nat, level: nat) returns (l: nat)
    requires TableFor(s, p, level).None? && level <= 3
    ensures l < level && TableFor(s, p, l).Some? && TableFor(s, p, l + 1).None?
    decreases level
  {
    l := level - 1;
    if TableFor(s, p, l).None? { l := LastTable(s, p, l); }
  }

  /** Where the walk has no next table the entry is not present. */
  lemma NothingMet(s: Tables, va: nat, level: nat)
    requires Tree(s) && Walkable(s, PageOf(va)) && level < 3
    requires TableFor(s, PageOf(va), level).Some? && TableFor(s, PageOf(va), level + 1).None?
    ensures Walk(s, va, s.w.pa + TableFor(s, PageOf(va), level).value * TABLE_SIZE, level, true) == Fault
  {
    var t, i := TableFor(s, PageOf(va), level).value, Index(PageOf(va), level);
    WalkLabel(s, PageOf(va), level);
    FieldsAre(va, level);
    TableThere(s, t, i);
    if Present(s.m[t][i]) { PresentEntryExtends(s, PageOf(va), level); }
  }

  lemma LastMet(s: Tables, va: nat, t: nat)
    requires Tree(s) && t < s.u && s.labels[t].level == 3
    requires Present(s.m[t][Index(PageOf(va), 3)]) ==> PageAddress(s.m[t][Index(PageOf(va), 3)]) < PHYSICAL
    ensures var e := s.m[t][Index(PageOf(va), 3)];
            Walk(s, va, s.w.pa + t * TABLE_SIZE, 3, true) ==
            if Present(e) then Reached(PageAddress(e) + va % PAGE_SIZE, PAGE_SIZE, true) else Fault
  {
    var i := Index(PageOf(va), 3);
    var e := s.m[t][i];
    FieldsAre(va, 3);
    TableThere(s, t, i);
    if Present(e) {
      assert Plain(e);
      PlainBits(e);
      FrameOfPlain(e);
    }
  }

  lemma PagesOf(s: Tables, p: nat)
    requires TableFor(s, p, 3).None?
    ensures p !in Pages(s)
  {
  }

  /** Within the walker's reach the processor finds exactly the mapped pages, at
      their addresses and writable, and faults on all others. */
  lemma CpuAgrees(s: Tables, va: nat)
    requires Tree(s) && Walkable(s, PageOf(va)) && s.w.pa + s.w.total * TABLE_SIZE <= PHYSICAL
    requires PageOf(va) in Pages(s) ==> Pages(s)[PageOf(va)] < PHYSICAL
    ensures Translation(s, va) ==
            if PageOf(va) in Pages(s) then Reached(Pages(s)[PageOf(va)] + va % PAGE_SIZE, PAGE_SIZE, true) else Fault
  {
    hide Tree, Walk, PageOf, Index, TableFor, Pages, Field;
    var p := PageOf(va);
    forall l: nat | l <= 3 ensures Field(va, l) == Index(p, l) { FieldsAre(va, l); }
    if TableFor(s, p, 3).Some? {
      SameTables(s, va, p, 3);
      WalkLabel(s, p, 3);
      MappedIffPresent(s, p);
      LastMet(s, va, TableFor(s, p, 3).value);
    } else {
      PagesOf(s, p);
      var level := LastTable(s, p, 3);
      SameTables(s, va, p, level);
      WalkLabel(s, p, level);
      NothingMet(s, va, level);
    }
  }
}
