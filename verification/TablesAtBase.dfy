/** A memory map on which the page tables, at the address the loader fixes
    (src/uefi/main.c:21, 455), start at the base of an entry: the kernel boots,
    and src/kernel/memory/pm.c:55-66 has marked their first frame free. */
module TablesAtBase {
  import opened BootMap
  import opened BootFrames
  import opened FrameStartup
  import opened BootLoader
  import opened Division
  import opened Startup
  import opened MapOwners
  import opened KernelBoot
  import FramePool
  import PageTree
  import PageTables
  import KernelMemory
  import VirtualRanges

  /** Where the loader puts the tables. */
  const PML4_PHYSICAL_ADDRESS: nat := 0x20_0000

  /** Half a megabyte from the first on, and six from the second on. */
  function TwoRanges(): seq<Entry> { [Entry(0x10_0000, 0x8_0000), Entry(0x20_0000, 0x60_0000)] }

  ghost predicate TwoEntries(es: seq<Entry>) {
    && |es| == 2 && es[0].Base() == 0x10_0000 && es[0].End() == 0x18_0000
    && es[1].Base() == PML4_PHYSICAL_ADDRESS && es[1].End() == 0x80_0000
    && es[0].l == 0x8_0000 && es[1].l == 0x60_0000 && es[1].Acpi() == 0 && es[0].Acpi() == 0
  }

  lemma EvenEntry(x: nat, l: nat)
    ensures Entry(2 * x, l).Base() == 2 * x && Entry(2 * x, l).End() == 2 * x + l && Entry(2 * x, l).Acpi() == 0
  {
  }

  lemma TwoRangesAre()
    ensures TwoEntries(TwoRanges())
  {
    hide Entry.Base, Entry.End, Entry.Acpi;
    EvenEntry(0x8_0000, 0x8_0000);
    EvenEntry(0x10_0000, 0x60_0000);
  }

  lemma TwoOrderly(es: seq<Entry>)
    requires TwoEntries(es)
    ensures OrderlyMap(es) && TotalPages(es) == 1664 && BitmapWords(es) == 32 && BitmapPages(es) == 1
  {
    hide Entry.Base, Entry.End, Entry.Acpi;
    assert PagesUpTo(es, 0) == 0;
    assert PagesUpTo(es, 1) == 128;
  }

  /** Pages on within an entry. */
  lemma {:induction false} OnwardInside(es: seq<Entry>, j: nat, k: nat, n: nat, skip: bool)
    requires j < |es| && k + n * PAGE_SIZE < es[j].End()
    ensures Onward(es, Position(j, k), n, skip) == Position(j, k + n * PAGE_SIZE)
  {
    if n > 0 { OnwardInside(es, j, k, n - 1, skip); }
  }

  /** A page of kernel and its seventeen of data; a page of bitmap; the first
      free frame is the twentieth. */
  lemma TwoPositions(es: seq<Entry>)
    requires TwoEntries(es)
    ensures AfterLoader(es, 18) == Position(0, 0x11_2000) && FirstFree(es, 18) == Position(0, 0x11_3000)
  {
    hide Entry.Base, Entry.End, Entry.Acpi, Onward;
    TwoOrderly(es);
    OnwardInside(es, 0, 0x10_0000, 18, false);
    OnwardInside(es, 0, 0x11_2000, 1, true);
  }

  lemma TwoStarts(es: seq<Entry>)
    requires TwoEntries(es)
    ensures OrderlyMap(es) && Starts(es, 18, PML4_PHYSICAL_ADDRESS)
  {
    hide Entry.Base, Entry.End, Entry.Acpi, OrderlyMap, TotalPages, BitmapPages, Onward;
    TwoOrderly(es);
    TwoPositions(es);
    assert (0x18_0000 - 0x11_2000) / PAGE_SIZE == 110;
  }

  lemma FreeInFirst(es: seq<Entry>, w1: nat, f: nat)
    requires TwoEntries(es) && 0x113 <= f < 0x180
    ensures f in FreeFrames(es, Position(0, 0x11_3000), PML4_PHYSICAL_ADDRESS, w1)
  {
    hide Entry.Base, Entry.End, Entry.Acpi;
    QuotientUnique(f * PAGE_SIZE, PAGE_SIZE, f, 0);
    assert InEntry(es, 0, f * PAGE_SIZE);
  }

  lemma TwoFree(es: seq<Entry>, w1: nat)
    requires TwoEntries(es) && es != []
    ensures |FreeFrames(es, Position(0, 0x11_3000), PML4_PHYSICAL_ADDRESS, w1)| >= 9
  {
    hide TwoEntries, FreeFrames;
    var nine := {0x120, 0x121, 0x122, 0x123, 0x124, 0x125, 0x126, 0x127, 0x128};
    var free := FreeFrames(es, Position(0, 0x11_3000), PML4_PHYSICAL_ADDRESS, w1);
    forall f | f in nine ensures f in free { FreeInFirst(es, w1, f); }
    FramePool.SubsetSize(nine, free);
  }

  // ---- a kernel of one page

  const BASE: nat := VirtualRanges.KERNEL_BASE
  const END: nat := VirtualRanges.KERNEL_BASE + 0x1000

  lemma OnePage()
    ensures KernelPages(BASE, END) == 1 && BASE % PAGE_SIZE == 0
    ensures PageTables.PageOf(BASE) == KernelMemory.BASE_PAGE
    ensures TablePages(BASE, END) == RoundTables(516) == 1024
  {
    KernelBasePage();
    hide PageTables.PageOf;
    QuotientUnique(0x1fff, PAGE_SIZE, 1, 0xfff);
    assert Estimate(KernelMemory.BASE_PAGE, 1) == 516;
  }

  lemma OneFits(es: seq<Entry>)
    requires TwoEntries(es) && es != []
    ensures Placed(BASE, END, 1024) && Fits(es, BASE, END, 18, TablePages(BASE, END))
    ensures PML4_PHYSICAL_ADDRESS <= WindowAddress(BASE, 18) && FirstOffset(BASE, 18, TablePages(BASE, END)) <= 1554
  {
    hide PageTables.PageOf, RoundTables, KernelPages, Entry.Base, Entry.End;
    OnePage();
    KernelBasePage();
    TwoOrderly(es);
    hide TwoEntries, BitmapPages, FirstOffset;
    assert Placed(BASE, END, 1024);
    FirstOffsetPage(BASE, END, 18, 1024);
    WindowPage(BASE, 18);
  }

  /** The loader, given this map and a kernel of one page, meets all that it
      asks; the kernel boots; and then the PML4's own frame is free, so that
      committing the pages that are left maps it. */
  lemma WindowAtBase()
    ensures var es, w0 := TwoRanges(), PML4_PHYSICAL_ADDRESS;
            var w1 := w0 + TablePages(BASE, END) * PAGE_SIZE;
            && OrderlyMap(es) && Fits(es, BASE, END, 18, TablePages(BASE, END)) && w0 <= WindowAddress(BASE, 18)
            && Boots(es, 18, w0, w1) && LaterBase(es, FirstFree(es, 18).j, w0) && !WindowInEntry(es, w0, w1)
            && forall a, t :: Booted(es, SplitOf(es, 18, w0, w1), a, FirstOffset(BASE, 18, TablePages(BASE, END)), t)
                 ==> MapsFrame(t, 0x200)
  {
    hide OrderlyMap, Fits, FirstOffset, Booted, SplitOf, LaterBase, TwoRanges, Starts, FreeFrames, FirstFree, AfterLoader,
      TablePages, WindowAddress, Entry.Base, Entry.End, Entry.Acpi, MapsFrame;
    var es, w0 := TwoRanges(), PML4_PHYSICAL_ADDRESS;
    var w1 := w0 + TablePages(BASE, END) * PAGE_SIZE;
    TwoRangesAre();
    OneFits(es);
    OnePage();
    TwoStarts(es);
    TwoPositions(es);
    TwoFree(es, w1);
    assert LaterBase(es, 0, w0) by { LaterIs(es); }
    assert !WindowInEntry(es, w0, w1) by { NotInside(es, w1); }
    ghost var v := FirstOffset(BASE, 18, TablePages(BASE, END));
    forall a, t | Booted(es, SplitOf(es, 18, w0, w1), a, v, t) ensures MapsFrame(t, 0x200) {
      BootedMaps(es, w1, a, v, t);
    }
  }

  /** Committing as many pages as there are hand-outs left fits and maps frame
      f. */
  ghost predicate MapsFrame(t: KernelMemory.State, f: nat) {
    && KernelMemory.Allowed(t, KernelMemory.Commit(t.pool.a))
    && FramePool.Sound(t.pool) && KernelMemory.CommitN(t, t.pool.a).Running?
    && f in KernelMemory.PageFrames(KernelMemory.CommitN(t, t.pool.a).s.pages)
  }

  lemma LaterIs(es: seq<Entry>)
    requires TwoEntries(es)
    ensures LaterBase(es, 0, PML4_PHYSICAL_ADDRESS)
  {
    assert es[1].Base() == PML4_PHYSICAL_ADDRESS;
  }

  lemma NotInside(es: seq<Entry>, w1: nat)
    requires TwoEntries(es) && w1 > PML4_PHYSICAL_ADDRESS
    ensures !WindowInEntry(es, PML4_PHYSICAL_ADDRESS, w1)
  {
  }

  lemma {:induction false} SizeBelow(s: set<nat>, bound: nat)
    requires forall f :: f in s ==> f < bound
    ensures |s| <= bound
    decreases bound
  {
    if bound > 0 { SizeBelow(s - {bound - 1}, bound - 1); }
  }

  lemma {:induction false} AscendingSpan(s: seq<nat>)
    requires Ascending(s) && s != []
    ensures s[|s| - 1] >= s[0] + |s| - 1
    decreases |s|
  {
    if |s| > 1 { AscendingSpan(s[..|s| - 1]); }
  }

  lemma FewFree(es: seq<Entry>, w1: nat, free: set<nat>, bitmap: seq<nat>)
    requires TwoEntries(es) && es != []
    requires free <= FreeFrames(es, Position(0, 0x11_3000), PML4_PHYSICAL_ADDRESS, w1)
    requires Backed(es, 0x11_2000, 0, bitmap, 0x11_3000)
    ensures |free| <= 0x800 && |bitmap| <= 1
  {
    hide Entry.Base, Entry.End, Entry.Acpi;
    forall f | f in free ensures f < 0x800 { assert f * PAGE_SIZE < 0x80_0000; }
    SizeBelow(free, 0x800);
    forall i | 0 <= i < |bitmap| ensures bitmap[i] == 0x11_2000 {
      assert bitmap[i] in bitmap;
      QuotientUnique(bitmap[i], PAGE_SIZE, 0x112, bitmap[i] - 0x11_2000);
    }
    if bitmap != [] { AscendingSpan(bitmap); }
  }

  lemma BootedMaps(es: seq<Entry>, w1: nat, a: Accounts, v: nat, t: KernelMemory.State)
    requires TwoEntries(es) && es != [] && w1 > PML4_PHYSICAL_ADDRESS
    requires Booted(es, SplitOf(es, 18, PML4_PHYSICAL_ADDRESS, w1), a, v, t) && v <= 1554
    ensures MapsFrame(t, 0x200)
  {
    hide KernelMemory.Safe, LaterBase, KernelMemory.CommitN, FramePool.Sound, KernelMemory.PageFrames, Accounted,
      BootedPages, Backed, PickedBelow, FreeFrames, Entry.Base, Entry.End, Entry.Acpi, AfterLoader, FirstFree,
      TwoEntries, TableFrames;
    TwoPositions(es);
    LaterIs(es);
    FewFree(es, w1, t.pool.free, a.bitmap);
    TableOverwritten(es, 0, PML4_PHYSICAL_ADDRESS, w1, t, 0x200);
  }
}
