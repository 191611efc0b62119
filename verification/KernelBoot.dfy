/** The whole boot, from the memory map to a running range manager
    (src/uefi/main.c:391-524, src/kernel/memory/pm.c:21-69 and
    src/kernel/memory/vm.c:41-60): when it succeeds, and who owns which page of
    the map once it has. */
module KernelBoot {
  import opened Bitmap
  import opened BootMap
  import opened BootFrames
  import opened FrameStartup
  import opened BootLoader
  import opened Division
  import opened Startup
  import opened MapOwners
  import FramePool
  import FrameAllocator
  import PageTree
  import PageTables
  import KernelMemory
  import VirtualRanges

  /** The offset, in pages from the kernel base, of the first address after the
      table window. */
  function FirstOffset(pb: nat, n: nat, tPg: nat): nat
    requires pb >= VirtualRanges.KERNEL_BASE
  {
    (WindowAddress(pb, n) + tPg * PAGE_SIZE - VirtualRanges.KERNEL_BASE) / PAGE_SIZE
  }

  /** The kernel is linked at the kernel base, and the image, its window, the
      frame bitmap and the ownership bitmap fit in the kernel gigabyte. */
  ghost predicate Fits(es: seq<Entry>, pb: nat, pe: nat, n: nat, tPg: nat)
    requires es != []
  {
    && pb == VirtualRanges.KERNEL_BASE && pb < pe
    && n == KernelPages(pb, pe) + KERNEL_DATA_PAGE_COUNT
    && tPg == RoundTables(Estimate(PageTables.PageOf(pb), KernelPages(pb, pe)))
    && Placed(pb, pe, tPg)
    && FirstOffset(pb, n, tPg) + BitmapPages(es) + VirtualRanges.OWN_PAGES <= KernelMemory.RAM_PAGES
  }

  lemma KernelBasePage()
    ensures PageTables.PageOf(VirtualRanges.KERNEL_BASE) == KernelMemory.BASE_PAGE
    ensures PageTree.Prefix(KernelMemory.BASE_PAGE, 2) == VirtualRanges.TOP_DIRECTORY
  {
    VirtualRanges.OffsetPage(0);
  }

  /** The first offset after the window, in the terms of the page numbers. */
  lemma FirstOffsetPage(pb: nat, pe: nat, n: nat, tPg: nat)
    requires pb == VirtualRanges.KERNEL_BASE && pb < pe && Placed(pb, pe, tPg)
    requires n == KernelPages(pb, pe) + KERNEL_DATA_PAGE_COUNT
    ensures WindowAddress(pb, n) + tPg * PAGE_SIZE == VirtualRanges.KERNEL_BASE + FirstOffset(pb, n, tPg) * PAGE_SIZE
    ensures PageTables.PageOf(WindowAddress(pb, n)) + tPg == KernelMemory.BASE_PAGE + FirstOffset(pb, n, tPg)
    ensures n <= FirstOffset(pb, n, tPg)
  {
    hide PageTables.PageOf, KernelPages, Placed, BootLoader.Image, RoundTables, Estimate;
    KernelBasePage();
    PlacedBounds(pb, pe, tPg);
    EstimateSuffices(PageTables.PageOf(pb), KernelPages(pb, pe));
    var page := KernelMemory.BASE_PAGE;
    assert (PageTree.Prefix(page, 2) + 1) * 0x4_0000 == page + 0x4_0000;
    WindowPage(pb, n);
    var end := pb + n * PAGE_SIZE;
    var gap := PAGE_2MB - end % PAGE_2MB;
    var wa := WindowAddress(pb, n);
    assert wa == (end / PAGE_2MB + 1) * PAGE_2MB;
    var k := (end / PAGE_2MB + 1) * 512 - pb / PAGE_SIZE;
    assert wa == pb + k * PAGE_SIZE;
    assert n <= k <= n + 512;
    VirtualRanges.OffsetPage(k);
    QuotientUnique((k + tPg) * PAGE_SIZE, PAGE_SIZE, k + tPg, 0);
    assert WindowAddress(pb, n) + tPg * PAGE_SIZE - VirtualRanges.KERNEL_BASE == (k + tPg) * PAGE_SIZE;
  }

  /** What the loader hands over is what the kernel's start-up needs. */
  lemma HandedOverReady(pg: PageTables.Paging, pb: nat, pe: nat, frames: seq<nat>, nVa: nat)
    requires pb == VirtualRanges.KERNEL_BASE && pb < pe && |frames| == KernelPages(pb, pe) + KERNEL_DATA_PAGE_COUNT
    requires HandedOver(pg, pb, pe, frames, nVa) && Placed(pb, pe, pg.tPg)
    ensures pg.Valid() && WalkerReady(pg, FirstOffset(pb, |frames|, pg.tPg))
    ensures nVa == VirtualRanges.KERNEL_BASE + FirstOffset(pb, |frames|, pg.tPg) * PAGE_SIZE
    ensures PageTree.Pages(pg.Abs()) == BootPages(map[], KernelMemory.BASE_PAGE, frames, |frames|)
    ensures |frames| <= FirstOffset(pb, |frames|, pg.tPg)
  {
    var v := FirstOffset(pb, |frames|, pg.tPg);
    FirstOffsetPage(pb, pe, |frames|, pg.tPg);
    KernelBasePage();
    hide FirstOffset, PageTree.Pages, PageTree.Tree, Placed, BootPages, KernelPages, PageTables.PageOf, PageTree.WalkableIn,
      WindowAddress;
    forall i: nat | v <= i < KernelMemory.RAM_PAGES
      ensures pg.Reaches(VirtualRanges.KERNEL_BASE + i * KernelMemory.PAGE_SIZE)
    {
      VirtualRanges.OffsetPage(i);
    }
    forall p: nat | p >= KernelMemory.BASE_PAGE + v ensures p !in PageTree.Pages(pg.Abs()) {
      BootPagesAt(map[], KernelMemory.BASE_PAGE, frames, |frames|, p);
    }
  }

  /** The number of page tables the loader reserves for an image. */
  function TablePages(pb: nat, pe: nat): nat
    requires pb < pe
  {
    RoundTables(Estimate(PageTables.PageOf(pb), KernelPages(pb, pe)))
  }

  /** The loader finds frames for its n pages and one more, and pm_init's
      assertions hold. */
  ghost predicate Starts(es: seq<Entry>, n: nat, w0: nat)
    requires OrderlyMap(es) && es != []
  {
    n < TotalPages(es)
    && (var p := AfterLoader(es, n); p.j < |es| && p.k <= es[p.j].End() && PmStarts(es, p, w0))
  }

  /** The first frame the kernel finds free, after its image and bitmap. */
  function FirstFree(es: seq<Entry>, n: nat): Position
    requires es != []
  {
    AfterBitmap(es, AfterLoader(es, n))
  }

  /** Where the loader's frames end, the frame bitmap's end, and the tables
      lie. */
  function SplitOf(es: seq<Entry>, n: nat, w0: nat, w1: nat): Split
    requires es != []
  {
    var p, q := AfterLoader(es, n), FirstFree(es, n);
    Split(p.k, p.j, q.k, q.j, w0, w1)
  }

  /** The loader and pm_init together: pick the frames, build the tables, start
      the frame allocator; v is the page of the frame bitmap, from the kernel
      base, and bitmap are its frames' addresses. */
  method LoadAndStart(es: seq<Entry>, pb: nat, pe: nat, frames: array<nat>, cr3: seq<nat>, pml4: nat)
    returns (r: VirtualRanges.Status, pm: FrameAllocator.PageArray?, pg: PageTables.Paging?, va: nat,
             ghost v: nat, ghost bitmap: seq<nat>)
    requires OrderlyMap(es) && es != []
    requires pb == VirtualRanges.KERNEL_BASE && pb < pe
    requires Fits(es, pb, pe, frames.Length, TablePages(pb, pe))
    requires |cr3| == PageTree.ENTRIES && pml4 % PAGE_SIZE == 0 && pml4 <= WindowAddress(pb, frames.Length)
    modifies frames
    ensures r == VirtualRanges.Completed <==> Starts(es, frames.Length, pml4)
    ensures r != VirtualRanges.Completed ==>
              r == if frames.Length < TotalPages(es) then VirtualRanges.Asserted else VirtualRanges.NoMemory
    ensures r == VirtualRanges.Completed ==>
              && pm != null && pg != null && fresh({pm, pm.e, pg, pg.mem})
              && v == FirstOffset(pb, frames.Length, TablePages(pb, pe))
              && va == VirtualRanges.KERNEL_BASE + (v + |bitmap|) * PAGE_SIZE
              && Started(es, SplitOf(es, frames.Length, pml4, pml4 + TablePages(pb, pe) * PAGE_SIZE), frames[..], bitmap, v,
                         pm, pg)
  {
    hide PageTree.Tree, PageTree.Pages, OrderlyMap, Placed, HandedOver, WalkerReady, Backed, MarkedBelow, PickedBelow,
      KernelPages, RoundTables, Estimate, PageTables.PageOf, WindowAddress, BootPages, BitmapPages, BitmapWords,
      FirstOffset, Onward, PmStarts, TotalPages, Started;
    pm, pg, va, v, bitmap := null, null, 0, 0, [];
    var tPg := TablePages(pb, pe);
    var s, nPa, idx := PickFrames(es, frames);
    if s != Ok {
      r := VirtualRanges.NoMemory;
      return;
    }
    PickedAligned(es, frames[..], nPa);
    var idt, kSp, nVa;
    pg, idt, kSp, nVa := BuildTables(pb, pe, frames, cr3, pml4);
    HandedOverTables(pg, pb, pe, frames[..], nVa);
    HandedOverReady(pg, pb, pe, frames[..], nVa);
    v := FirstOffset(pb, frames.Length, tPg);
    ghost var loader := frames[..];
    ghost var idx', nPa';
    s, pm, va, nPa', idx', bitmap := PmInit(pg, es, nVa, nPa, idx, pml4, pml4 + tPg * PAGE_SIZE, v);
    if s != Ok {
      r := VirtualRanges.Asserted;
      return;
    }
    ghost var split := Split(nPa, idx, nPa', idx', pml4, pml4 + tPg * PAGE_SIZE);
    WalkerValid(pg, v + BitmapPages(es));
    NowStarted(es, split, loader, v, bitmap, pm, pg);
    r := VirtualRanges.Completed;
  }

  /** What pm_init leaves: the image mapped to the loader's frames, the bitmap to
      its own, every other page of the map accounted for, and a safe state of
      which the range manager may take its own. */
  ghost predicate Started(es: seq<Entry>, s: Split, loader: seq<nat>, bitmap: seq<nat>, v: nat,
                          pm: FrameAllocator.PageArray, pg: PageTables.Paging)
    requires es != []
    reads pm, pm.e, pg, pg.mem
  {
    var k := v + |bitmap|;
    && pg.Valid() && FramePool.Sound(pm.Abs()) && VirtualRanges.InitReady(pm, pg, k)
    && k + VirtualRanges.OWN_PAGES <= KernelMemory.RAM_PAGES
    && PickedBelow(es, loader, s.nPa0) && Backed(es, s.nPa0, s.idx0, bitmap, s.nPa1)
    && StartsFrom(es, s, loader, bitmap, v, VirtualRanges.Found(pm, pg, k))
  }

  /** The state the range manager starts from. */
  ghost predicate StartsFrom(es: seq<Entry>, s: Split, loader: seq<nat>, bitmap: seq<nat>, v: nat,
                             t: KernelMemory.State)
    requires es != []
  {
    && KernelMemory.Safe(t)
    && t.pages == StartPages(KernelMemory.BASE_PAGE, loader, KernelMemory.BASE_PAGE + v, bitmap)
    && t.pool.free == FreeFrames(es, Position(s.idx1, s.nPa1), s.w0, s.w1) && t.pool.a == |t.pool.free|
    && t.pool.free != {} && FramePool.Least(t.pool.free) == t.pool.cursor
    && Accounted(es, s, Accounts(loader, bitmap, [], t.pool.free))
    && TableFrames(es, s.idx1, s.w0, s.w1, t)
  }

  /** The frames of the tables that the kernel takes for its own are those that
      are the base of a later entry. */
  ghost predicate TableFrames(es: seq<Entry>, idx: nat, w0: nat, w1: nat, s: KernelMemory.State) {
    forall f: nat :: w0 <= f * PAGE_SIZE < w1 ==> (f in KernelMemory.Frames(s) <==> LaterBase(es, idx, f * PAGE_SIZE))
  }

  lemma NowStarted(es: seq<Entry>, s: Split, loader: seq<nat>, v: nat, bitmap: seq<nat>,
                   pm: FrameAllocator.PageArray, pg: PageTables.Paging)
    requires es != [] && WellSplit(es, s)
    requires PickedBelow(es, loader, s.nPa0) && Backed(es, s.nPa0, s.idx0, bitmap, s.nPa1)
    requires |loader| <= v && v + |bitmap| + VirtualRanges.OWN_PAGES <= KernelMemory.RAM_PAGES
    requires Cursor(es, s.idx1, s.nPa1) && s.nPa1 < es[s.idx1].End()
    requires pm.Valid() && pm.e.Length == BitmapWords(es) && WalkerReady(pg, v + |bitmap|)
    requires pm as object != pg && pm.e as object !in {pm, pg, pg.mem} && pg.mem as object !in {pm, pg}
    requires MarkedBelow(pm.Abs().free, es, s.nPa1, s.idx1, s.w0, s.w1, es[|es| - 1].End())
    requires pm.Abs() == FramePool.Pool(pm.Abs().free, |pm.Abs().free|, s.nPa1 / PAGE_SIZE)
    requires pg.Valid()
    requires PageTree.Pages(pg.Abs()) == StartPages(KernelMemory.BASE_PAGE, loader, KernelMemory.BASE_PAGE + v, bitmap)
    ensures Started(es, s, loader, bitmap, v, pm, pg)
  {
    hide PageTree.Tree, PageTree.Pages, OrderlyMap, WalkerReady, Backed, MarkedBelow, PickedBelow, StartPages,
      BitmapWords, StartsFrom;
    ReadyForInit(pm, pg, v + |bitmap|);
    NowStartsFrom(es, s, loader, v, bitmap, pm.Abs().free);
  }

  lemma NowStartsFrom(es: seq<Entry>, s: Split, loader: seq<nat>, v: nat, bitmap: seq<nat>, free: set<nat>)
    requires es != [] && WellSplit(es, s)
    requires PickedBelow(es, loader, s.nPa0) && Backed(es, s.nPa0, s.idx0, bitmap, s.nPa1)
    requires |loader| <= v
    requires Cursor(es, s.idx1, s.nPa1) && s.nPa1 < es[s.idx1].End()
    requires MarkedBelow(free, es, s.nPa1, s.idx1, s.w0, s.w1, es[|es| - 1].End())
    ensures StartsFrom(es, s, loader, bitmap, v,
                       StartState(s, KernelMemory.BASE_PAGE, loader, v, bitmap, free, BitmapWords(es)))
  {
    hide OrderlyMap, Backed, MarkedBelow, PickedBelow, StartPages, BitmapWords, KernelMemory.Safe, KernelMemory.Frames,
      LaterBase, FreeFrames, Accounted, FramePool.Sound;
    var page, words := KernelMemory.BASE_PAGE, BitmapWords(es);
    BitmapCovers(es);
    StartSafe(es, s, page, loader, v, bitmap, free, words);
    StartPool(es, s, free, words);
    LeastOf(free, s.nPa1 / PAGE_SIZE);
    MarkedAre(free, es, Position(s.idx1, s.nPa1), s.w0, s.w1);
    StartAccounted(es, s, loader, bitmap, free);
    forall f: nat | s.w0 <= f * PAGE_SIZE < s.w1
      ensures f in KernelMemory.Frames(StartState(s, page, loader, v, bitmap, free, words))
              <==> LaterBase(es, s.idx1, f * PAGE_SIZE)
    {
      WindowFrameIff(es, s, page, loader, v, bitmap, free, words, f);
    }
  }

  lemma LeastOf(free: set<nat>, f: nat)
    requires f in free && forall g :: g in free ==> f <= g
    ensures FramePool.Least(free) == f
  {
  }

  /** The loader and pm_init succeed, and the range manager has frames for its
      own bitmap. */
  ghost predicate Boots(es: seq<Entry>, n: nat, w0: nat, w1: nat)
    requires OrderlyMap(es) && es != []
  {
    Starts(es, n, w0) && |FreeFrames(es, FirstFree(es, n), w0, w1)| >= VirtualRanges.OWN_PAGES
  }

  /** The map of a booted kernel: the image, the frame bitmap and the ownership
      bitmap, each at its frames. */
  function BootedPages(a: Accounts, v: nat): map<nat, nat> {
    BootPages(StartPages(KernelMemory.BASE_PAGE, a.loader, KernelMemory.BASE_PAGE + v, a.bitmap),
              KernelMemory.BASE_PAGE + v + |a.bitmap|, a.own, |a.own|)
  }

  /** A booted kernel: nothing but its own pages is mapped, at the frames of the
      account; the ownership bitmap has the first of the frames that were free;
      every page of the map is accounted for; the state is safe. */
  ghost predicate Booted(es: seq<Entry>, s: Split, a: Accounts, v: nat, t: KernelMemory.State)
    requires es != []
  {
    && KernelMemory.Safe(t) && t.owned == {} && t.held == {}
    && t.next == t.first == v + |a.bitmap| + |a.own| <= KernelMemory.RAM_PAGES && |a.own| == VirtualRanges.OWN_PAGES
    && t.pages == BootedPages(a, v)
    && t.pool.free == a.free && t.pool.a == |a.free|
    && PickedBelow(es, a.loader, s.nPa0) && Backed(es, s.nPa0, s.idx0, a.bitmap, s.nPa1)
    && (forall f :: f in FreeFrames(es, Position(s.idx1, s.nPa1), s.w0, s.w1) <==> f in a.free || f * PAGE_SIZE in a.own)
    && (forall p, f :: p in a.own && f in a.free ==> p < f * PAGE_SIZE)
    && Accounted(es, s, a)
    && TableFrames(es, s.idx1, s.w0, s.w1, t)
  }

  /** From the memory map to a running range manager: exactly when it succeeds,
      which failure comes otherwise, and what the kernel has then. */
  method Boot(es: seq<Entry>, pb: nat, pe: nat, frames: array<nat>, cr3: seq<nat>, pml4: nat)
    returns (r: VirtualRanges.Status, m: VirtualRanges.RangeManager?, ghost v: nat, ghost a: Accounts)
    requires OrderlyMap(es) && es != []
    requires pb == VirtualRanges.KERNEL_BASE && pb < pe
    requires Fits(es, pb, pe, frames.Length, TablePages(pb, pe))
    requires |cr3| == PageTree.ENTRIES && pml4 % PAGE_SIZE == 0 && pml4 <= WindowAddress(pb, frames.Length)
    modifies frames
    ensures r == VirtualRanges.Completed
            <==> Boots(es, frames.Length, pml4, pml4 + TablePages(pb, pe) * PAGE_SIZE)
    ensures r == VirtualRanges.Asserted <==> frames.Length < TotalPages(es) && !Starts(es, frames.Length, pml4)
    ensures r in {VirtualRanges.Completed, VirtualRanges.NoMemory, VirtualRanges.Asserted}
    ensures r == VirtualRanges.Completed ==>
              && m != null && m.Valid() && a.loader == frames[..] && v == FirstOffset(pb, frames.Length, TablePages(pb, pe))
              && Booted(es, SplitOf(es, frames.Length, pml4, pml4 + TablePages(pb, pe) * PAGE_SIZE), a, v, m.Abs())
  {
    hide PageTree.Pages, PageTree.Tree, OrderlyMap, Fits, KernelPages, RoundTables, Estimate, PageTables.PageOf,
      WindowAddress, KernelMemory.Safe, FramePool.Sound, VirtualRanges.InitReady, VirtualRanges.RangeManager.Abs,
      VirtualRanges.RangeManager.Valid, Starts, FreeFrames, FirstFree, TablePages, TotalPages, AfterLoader, FirstOffset,
      StartsFrom, Booted, Backed, PickedBelow;
    m := null;
    var pm, pg, va;
    ghost var bitmap;
    a := Accounts([], [], [], {});
    r, pm, pg, va, v, bitmap := LoadAndStart(es, pb, pe, frames, cr3, pml4);
    StartsNeeds(es, frames.Length, pml4);
    if r != VirtualRanges.Completed {
      return;
    }
    ghost var s := SplitOf(es, frames.Length, pml4, pml4 + TablePages(pb, pe) * PAGE_SIZE);
    a := NowBooted(es, s, frames[..], bitmap, v, VirtualRanges.Found(pm, pg, v + |bitmap|));
    r, m := VirtualRanges.VmInit(pm, pg, va, v + |bitmap|);
  }

  /** The page addresses of frames. */
  function Addresses(fs: seq<nat>): (ps: seq<nat>)
    ensures |ps| == |fs| && forall i :: 0 <= i < |fs| ==> ps[i] == fs[i] * PAGE_SIZE
  {
    seq(|fs|, i requires 0 <= i < |fs| => fs[i] * PAGE_SIZE)
  }

  /** The range manager's start takes the first free frames for its bitmap. */
  lemma NowBooted(es: seq<Entry>, s: Split, loader: seq<nat>, bitmap: seq<nat>, v: nat, t: KernelMemory.State)
    returns (a: Accounts)
    requires es != [] && StartsFrom(es, s, loader, bitmap, v, t) && FramePool.Sound(t.pool)
    requires t.owned == {} && t.held == {} && t.next == t.first == v + |bitmap|
    requires v + |bitmap| + VirtualRanges.OWN_PAGES <= KernelMemory.RAM_PAGES
    requires PickedBelow(es, loader, s.nPa0) && Backed(es, s.nPa0, s.idx0, bitmap, s.nPa1)
    ensures KernelMemory.InitN(t, VirtualRanges.OWN_PAGES) != KernelMemory.AssertionFailed
    ensures KernelMemory.InitN(t, VirtualRanges.OWN_PAGES) == KernelMemory.OutOfMemory
            <==> |FreeFrames(es, Position(s.idx1, s.nPa1), s.w0, s.w1)| < VirtualRanges.OWN_PAGES
    ensures a.loader == loader
    ensures KernelMemory.InitN(t, VirtualRanges.OWN_PAGES).Running? ==>
              Booted(es, s, a, v, KernelMemory.InitN(t, VirtualRanges.OWN_PAGES).s)
  {
    hide PickedBelow, Backed, KernelMemory.Safe, KernelMemory.Frames, FramePool.Sound, FreeFrames, Accounted, LaterBase,
      StartPages, Ascending, KernelMemory.InitN;
    KernelMemory.InitNSafe(t, VirtualRanges.OWN_PAGES);
    a := Accounts(loader, bitmap, [], {});
    if VirtualRanges.OWN_PAGES <= t.pool.a {
      var own, free := OwnFrames(t);
      a := Accounts(loader, bitmap, own, free);
      TakenAccounted(es, s, Accounts(loader, bitmap, [], t.pool.free), own, free);
    }
  }

  /** The frames of the ownership bitmap, and those that stay free. */
  lemma OwnFrames(t: KernelMemory.State) returns (own: seq<nat>, free: set<nat>)
    requires KernelMemory.Safe(t) && t.first == t.next && t.owned == {} && t.held == {}
    requires FramePool.Sound(t.pool) && t.pool.free != {} && FramePool.Least(t.pool.free) == t.pool.cursor
    requires t.pool.a == |t.pool.free| >= VirtualRanges.OWN_PAGES
    ensures KernelMemory.InitN(t, VirtualRanges.OWN_PAGES).Running?
    ensures var u := KernelMemory.InitN(t, VirtualRanges.OWN_PAGES).s;
            && KernelMemory.Safe(u) && u.owned == {} && u.held == {} && u.next == u.first == t.next + |own|
            && u.pool.free == free && u.pool.a == |free| && KernelMemory.Frames(u) == KernelMemory.Frames(t)
            && u.pages == BootPages(t.pages, KernelMemory.BASE_PAGE + t.next, own, |own|)
    ensures Ascending(own) && |own| == VirtualRanges.OWN_PAGES
    ensures forall f :: f in t.pool.free <==> f in free || f * PAGE_SIZE in own
    ensures forall f :: f in free ==> f * PAGE_SIZE !in own
    ensures forall p :: p in own ==> p % PAGE_SIZE == 0
    ensures forall p, f :: p in own && f in free ==> p < f * PAGE_SIZE
  {
    hide KernelMemory.Safe, KernelMemory.Frames, FramePool.Sound, KernelMemory.MappedRun, FramePool.Least,
      KernelMemory.InitN, FramePool.GetRun, BootPages;
    var c := VirtualRanges.OWN_PAGES;
    KernelMemory.InitNSafe(t, c);
    KernelMemory.InitNMaps(t, c);
    KernelMemory.InitNFrames(t, c);
    KernelMemory.InitNCount(t, c);
    FramePool.GetRunAscending(t.pool, c);
    var u, fs := KernelMemory.InitN(t, c).s, FramePool.GetRun(t.pool, c).1;
    own, free := Addresses(fs), u.pool.free;
    TakenFrames(t.pool.free, fs, free);
    MappedIsBooted(t.pages, u.pages, KernelMemory.BASE_PAGE + t.next, fs);
  }

  lemma TakenFrames(free: set<nat>, fs: seq<nat>, rest: set<nat>)
    requires FramePool.Ascending(fs)
    requires forall f :: f in free <==> f in fs || f in rest
    requires forall f, g :: f in fs && g in rest ==> f < g
    ensures Ascending(Addresses(fs))
    ensures forall f :: f in free <==> f in rest || f * PAGE_SIZE in Addresses(fs)
    ensures forall f :: f in rest ==> f * PAGE_SIZE !in Addresses(fs)
    ensures forall p :: p in Addresses(fs) ==> p % PAGE_SIZE == 0
    ensures forall p, f :: p in Addresses(fs) && f in rest ==> p < f * PAGE_SIZE
  {
    var ps := Addresses(fs);
    forall f: nat ensures f * PAGE_SIZE in ps <==> f in fs {
      if f in fs {
        var i :| 0 <= i < |fs| && fs[i] == f;
        assert ps[i] == f * PAGE_SIZE;
      }
    }
  }

  lemma MappedIsBooted(m: map<nat, nat>, m': map<nat, nat>, page: nat, fs: seq<nat>)
    requires KernelMemory.MappedRun(m, m', page, fs)
    ensures m' == BootPages(m, page, Addresses(fs), |fs|)
  {
    var b := BootPages(m, page, Addresses(fs), |fs|);
    forall p: nat ensures (p in m' <==> p in b) && (p in m' ==> m'[p] == b[p]) {
      BootPagesAt(m, page, Addresses(fs), |fs|, p);
      if page <= p < page + |fs| { assert m'[page + (p - page)] == fs[p - page] * PAGE_SIZE; }
    }
  }

  lemma StartsNeeds(es: seq<Entry>, n: nat, w0: nat)
    requires OrderlyMap(es) && es != []
    ensures Starts(es, n, w0) ==> n < TotalPages(es)
  {
  }

  /** When the tables lie in one entry of the map, and not at its base, no run
      of the started kernel ever hands out, holds or maps one of their
      frames. */
  lemma TablesStayApart(es: seq<Entry>, idx: nat, w0: nat, w1: nat, s: KernelMemory.State, ops: seq<KernelMemory.Op>,
                        f: nat)
    requires OrderlyMap(es) && WindowInEntry(es, w0, w1) && TableFrames(es, idx, w0, w1, s)
    requires KernelMemory.Safe(s) && s.next <= KernelMemory.RAM_PAGES && KernelMemory.WellRun(s, ops)
    requires w0 <= f * PAGE_SIZE < w1
    ensures KernelMemory.Run(s, ops).Running? ==> f !in KernelMemory.Frames(KernelMemory.Run(s, ops).s)
  {
    NoLaterBase(es, w0, w1, idx, f * PAGE_SIZE);
    KernelMemory.RunSafe(s, ops);
  }

  /** Otherwise a frame of the tables that is the base of a later entry does
      get mapped as a page, once as many pages are committed as are left. */
  lemma TableOverwritten(es: seq<Entry>, idx: nat, w0: nat, w1: nat, s: KernelMemory.State, f: nat)
    requires TableFrames(es, idx, w0, w1, s) && w0 <= f * PAGE_SIZE < w1 && LaterBase(es, idx, f * PAGE_SIZE)
    requires KernelMemory.Safe(s) && s.held == {} && s.pool.a == |s.pool.free|
    ensures FramePool.Sound(s.pool) && KernelMemory.CommitN(s, s.pool.a).Running?
    ensures f in KernelMemory.PageFrames(KernelMemory.CommitN(s, s.pool.a).s.pages)
  {
    hide LaterBase;
    KernelMemory.AccountedGetsMapped(s, f);
  }

  lemma PickedAligned(es: seq<Entry>, frames: seq<nat>, k: nat)
    requires PickedBelow(es, frames, k)
    ensures forall i :: 0 <= i < |frames| ==> frames[i] % PAGE_SIZE == 0
  {
    forall i | 0 <= i < |frames| ensures frames[i] % PAGE_SIZE == 0 { assert frames[i] in frames; }
  }

  lemma HandedOverTables(pg: PageTables.Paging, pb: nat, pe: nat, frames: seq<nat>, nVa: nat)
    requires pb < pe && |frames| == KernelPages(pb, pe) + KERNEL_DATA_PAGE_COUNT
    requires HandedOver(pg, pb, pe, frames, nVa)
    ensures pg.tPg == RoundTables(Estimate(PageTables.PageOf(pb), KernelPages(pb, pe)))
  {
  }

  lemma WalkerValid(pg: PageTables.Paging, k: nat)
    requires WalkerReady(pg, k)
    ensures pg.Valid()
  {
  }

  lemma ReadyForInit(pm: FrameAllocator.PageArray, pg: PageTables.Paging, k: nat)
    requires WalkerReady(pg, k) && pm.Valid()
    requires pm as object != pg && pm.e as object !in {pm, pg, pg.mem} && pg.mem as object !in {pm, pg}
    ensures pg.Valid() && FramePool.Sound(pm.Abs()) && VirtualRanges.InitReady(pm, pg, k)
  {
  }
}
