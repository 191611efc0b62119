/** What the processor finds in the kernel's managed range: a page that the
    fault handler of src/kernel/memory/vm.c:25-37 has backed can be read and
    written, any other faults. */
module RangeViews {
  import opened Division
  import opened Cpu
  import PageTree
  import PageTables
  import KernelMemory
  import VirtualRanges

  /** The frames of the kernel and its tables are in reach of an entry. */
  ghost predicate InReach(m: VirtualRanges.RangeManager)
    reads m, m.e, m.pm, m.pm.e, m.pg, m.pg.mem
    requires m.Valid()
  {
    && m.pg.Win().pa + m.pg.tPg * PageTree.TABLE_SIZE <= PHYSICAL
    && forall p :: p in m.Abs().pages ==> m.Abs().pages[p] < PHYSICAL
  }

  /** An access at an address of the managed range. */
  lemma RangeSeen(m: VirtualRanges.RangeManager, va: nat)
    requires m.Valid() && InReach(m) && va >= m.b
    requires m.first <= (va - m.b) / KernelMemory.PAGE_SIZE < KernelMemory.RAM_PAGES
    ensures var p := KernelMemory.BASE_PAGE + (va - m.b) / KernelMemory.PAGE_SIZE;
            Translation(m.pg.Abs(), va) ==
            if p in m.Abs().pages then
              Reached(m.Abs().pages[p] + va % KernelMemory.PAGE_SIZE, KernelMemory.PAGE_SIZE, true)
            else Fault
  {
    hide PageTree.Pages, PageTree.Tree, PageTree.Index, Translation;
    var k := (va - m.b) / KernelMemory.PAGE_SIZE;
    var x := VirtualRanges.KERNEL_BASE + k * KernelMemory.PAGE_SIZE;
    assert m.pg.Reaches(m.b + k * KernelMemory.PAGE_SIZE);
    VirtualRanges.OffsetPage(k);
    SamePage(x, va);
    CpuAgrees(m.pg.Abs(), va);
  }

  lemma SamePage(x: nat, va: nat)
    requires x % PageTree.PAGE_SIZE == 0 && x <= va < x + PageTree.PAGE_SIZE
    ensures PageTables.PageOf(va) == PageTables.PageOf(x)
  {
    QuotientUnique(va, PageTree.PAGE_SIZE, x / PageTree.PAGE_SIZE, va - x);
  }
}
