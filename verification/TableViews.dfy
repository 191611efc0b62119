/** What the processor finds through the tables the loader hands over
    (src/uefi/main.c:391-524): the image, the IDT and the stack at their frames,
    and the tables themselves at their window. */
module TableViews {
  import opened Division
  import opened PageTree
  import opened BootTables
  import opened BootLoader
  import opened Cpu
  import PageTables

  // ---- large entries

  /** The processor reads an entry of the window as a writable page of two
      megabytes at its address. */
  lemma LargeEntry(pa: nat, i: nat)
    requires pa % PAGE_2MB == 0 && pa + i * PAGE_2MB < PHYSICAL
    ensures var e := pa + i * PAGE_2MB + LARGE_FLAGS;
            PresentBit(e) && WriteBit(e) && SizeBit(e) && FrameOf(e, PAGE_2MB) == pa + i * PAGE_2MB
  {
    var k := pa / PAGE_2MB + i;
    var e := k * PAGE_2MB + LARGE_FLAGS;
    assert e == pa + i * PAGE_2MB + LARGE_FLAGS;
    BitsOfLarge(k, e);
    var top := PHYSICAL / PAGE_2MB;
    assert k * PAGE_2MB < top * PAGE_2MB;
    QuotientUnique(e, PHYSICAL, 0, e);
    QuotientUnique(e, PAGE_2MB, k, LARGE_FLAGS);
  }

  lemma BitsOfLarge(k: nat, e: nat)
    requires e == k * PAGE_2MB + LARGE_FLAGS
    ensures PresentBit(e) && WriteBit(e) && SizeBit(e)
  {
    var h := k * 0x4000;
    assert e == 128 * h + 0x83;
    QuotientUnique(e, 2, 64 * h + 0x41, 1);
    QuotientUnique(64 * h + 0x41, 2, 32 * h + 0x20, 1);
    QuotientUnique(e, 128, h + 1, 3);
    QuotientUnique(h + 1, 2, k * 0x2000, 1);
  }

  /** The fields of an address in the window: the slots follow one another in
      one page directory. */
  lemma WindowFields(va: nat, off: nat)
    requires va % PAGE_2MB == 0 && Field(va, 2) + off / PAGE_2MB < ENTRIES
    ensures Field(va + off, 0) == Field(va, 0) && Field(va + off, 1) == Field(va, 1)
    ensures Field(va + off, 2) == Field(va, 2) + off / PAGE_2MB && (va + off) % PAGE_2MB == off % PAGE_2MB
  {
    var k, n := va / PAGE_2MB, off / PAGE_2MB;
    QuotientUnique(va + off, PAGE_2MB, k + n, off % PAGE_2MB);
    Above(va, k);
    Above(va + off, k + n);
    QuotientUnique(k + n, 512, k / 512, k % 512 + n);
  }

  lemma Above(x: nat, k: nat)
    requires k == x / PAGE_2MB
    ensures x / 0x4000_0000 == k / 512 && x / 0x80_0000_0000 == k / 512 / 512
  {
    PageTables.IndicesOfAddress(x);
    QuotientUnique(x, 0x4000_0000, k / 512, k % 512 * PAGE_2MB + x % PAGE_2MB);
    QuotientUnique(x, 0x80_0000_0000, k / 512 / 512, k / 512 % 512 * 0x4000_0000 + k % 512 * PAGE_2MB + x % PAGE_2MB);
  }

  /** Every byte of the tables is seen at its place in the window. */
  lemma WindowSeen(s: Tables, q: nat, off: nat)
    requires Tree(s) && Walkable(s, q) && TableFor(s, q, 2).Some?
    requires s.w.va % PAGE_2MB == 0 && s.w.pa % PAGE_2MB == 0 && s.w.pa + s.w.total * TABLE_SIZE <= PHYSICAL
    requires WindowInDirectory(s.w, q) && off < s.w.total * TABLE_SIZE
    requires WindowMapped(s, TableFor(s, q, 2).value, Index(PageTables.PageOf(s.w.va), 2), s.w.total / ENTRIES)
    ensures Translation(s, s.w.va + off) == Reached(s.w.pa + off, PAGE_2MB, true)
  {
    hide Tree, Index, Walk, TableFor, Prefix;
    var va, t, n := s.w.va, TableFor(s, q, 2).value, off / PAGE_2MB;
    assert n < s.w.total / ENTRIES;
    FieldsAre(va, 2);
    WindowFields(va, off);
    SameFields(va, q);
    SameTables(s, va + off, q, 2);
    WalkLabel(s, q, 2);
    TableThere(s, t, Field(va + off, 2));
    LargeEntry(s.w.pa, n);
    LargeStep(s, va + off, t, s.w.pa + n * PAGE_2MB);
    assert off == n * PAGE_2MB + off % PAGE_2MB;
  }

  /** Addresses of one page directory share the fields above it. */
  lemma SameFields(va: nat, q: nat)
    requires q < PAGE_COUNT && Prefix(PageTables.PageOf(va), 2) == Prefix(q, 2)
    ensures Field(va, 0) == Index(q, 0) && Field(va, 1) == Index(q, 1)
  {
    var v := PageTables.PageOf(va);
    FieldsAre(va, 0);
    FieldsAre(va, 1);
    PrefixStep(v, 1);
    PrefixStep(q, 1);
    ServedSlot(Prefix(v, 2), Prefix(v, 1), Index(v, 1));
    ServedSlot(Prefix(q, 2), Prefix(q, 1), Index(q, 1));
    PrefixStep(v, 0);
    PrefixStep(q, 0);
  }

  lemma LargeStep(s: Tables, va: nat, t: nat, frame: nat)
    requires EntryAt(s, s.w.pa + t * TABLE_SIZE, Field(va, 2)).Some?
    requires var e := EntryAt(s, s.w.pa + t * TABLE_SIZE, Field(va, 2)).value;
             PresentBit(e) && WriteBit(e) && SizeBit(e) && FrameOf(e, PAGE_2MB) == frame
    ensures Walk(s, va, s.w.pa + t * TABLE_SIZE, 2, true) == Reached(frame + va % PAGE_2MB, PAGE_2MB, true)
  {
  }

  // ---- the hand-over

  /** Where the tables and the frames are: the tables on a boundary of two
      megabytes, all in reach of an entry. */
  ghost predicate InReach(w: Window, frames: seq<nat>) {
    && w.pa % PAGE_2MB == 0 && w.pa + w.total * TABLE_SIZE <= PHYSICAL
    && forall i :: 0 <= i < |frames| ==> frames[i] < PHYSICAL
  }

  /** The kernel's first tables, as the processor reads them: the range of the
      image is at the picked frames, the window at the tables, and an access
      above it faults. */
  lemma HandedOverSeen(pg: PageTables.Paging, pb: nat, pe: nat, frames: seq<nat>, nVa: nat, x: nat)
    requires pb < pe && |frames| == KernelPages(pb, pe) + KERNEL_DATA_PAGE_COUNT
    requires HandedOver(pg, pb, pe, frames, nVa) && Placed(pb, pe, pg.tPg) && InReach(pg.Win(), frames)
    ensures x < |frames| * PAGE_SIZE ==>
              Translation(pg.Abs(), pb + x) == Reached(frames[x / PAGE_SIZE] + x % PAGE_SIZE, PAGE_SIZE, true)
    ensures x < pg.tPg * TABLE_SIZE ==> Translation(pg.Abs(), pg.pml4 + x) == Reached(pg.Win().pa + x, PAGE_2MB, true)
    ensures PageTables.PageOf(nVa + x) >= PageTables.PageOf(pg.pml4) + pg.tPg ==> Translation(pg.Abs(), nVa + x) == Fault
  {
    hide Tree, Pages, Placed, PageTables.PageOf, KernelPages, TableFor, WindowMapped, WindowInDirectory, Index, Prefix,
      Translation, WindowAddress, BootPages, Estimate, RoundTables, Under, Needed, WalkableIn;
    var s, page, n, w := pg.Abs(), PageTables.PageOf(pb), |frames|, pg.Win();
    PlacedBounds(pb, pe, pg.tPg);
    PlacedFacts(pb, pe, pg.tPg, w);
    WindowBoundary(pb, n);
    if x < n * PAGE_SIZE {
      var p := page + x / PAGE_SIZE;
      ImagePage(pb, x, n);
      BootPagesAt(map[], page, frames, n, p);
      PageWalkable(s, p);
      CpuAgrees(s, pb + x);
    }
    if x < pg.tPg * TABLE_SIZE {
      BootPagesAt(map[], page, frames, n, page + n - 1);
      PageWalkable(s, page + n - 1);
      WindowSeen(s, page + n - 1, x);
    }
    var p := PageTables.PageOf(nVa + x);
    if p >= PageTables.PageOf(pg.pml4) + pg.tPg {
      BootPagesAt(map[], page, frames, n, p);
      WindowPage(pb, n);
      CpuAgrees(s, nVa + x);
    }
  }

  lemma PageWalkable(s: Tables, p: nat)
    requires p in Pages(s)
    ensures Walkable(s, p)
  {
  }

  lemma WindowBoundary(pb: nat, n: nat)
    ensures WindowAddress(pb, n) % PAGE_2MB == 0
  {
    var end := pb + n * PAGE_SIZE;
    var k := end / PAGE_2MB;
    assert end == k * PAGE_2MB + end % PAGE_2MB;
    QuotientUnique((k + 1) * PAGE_2MB, PAGE_2MB, k + 1, 0);
  }

  lemma ImagePage(pb: nat, x: nat, n: nat)
    requires pb % PAGE_SIZE == 0 && x < n * PAGE_SIZE && PageTables.PageOf(pb) + n <= PAGE_COUNT
    ensures PageTables.PageOf(pb + x) == PageTables.PageOf(pb) + x / PAGE_SIZE && x / PAGE_SIZE < n
    ensures (pb + x) % PAGE_SIZE == x % PAGE_SIZE
  {
    var q, k := pb / PAGE_SIZE, x / PAGE_SIZE;
    assert pb == q * PAGE_SIZE && x == k * PAGE_SIZE + x % PAGE_SIZE;
    QuotientBelow(x, PAGE_SIZE, n);
    QuotientUnique(pb + x, PAGE_SIZE, q + k, x % PAGE_SIZE);
    QuotientUnique(q + k, PAGE_COUNT, q / PAGE_COUNT, q % PAGE_COUNT + k);
  }
}
