/** The boot hand-off from memory map to a running range manager: loader frames,
    first tables, the frame allocator's bitmap and free set
    (src/uefi/main.c:406-524, src/kernel/memory/pm.c:21-69), and what they
    guarantee the kernel. */
module Startup {
  import opened Bitmap
  import opened BootMap
  import opened BootFrames
  import opened FrameStartup
  import opened BootLoader
  import opened Division
  import FramePool
  import FrameAllocator
  import PageTree
  import PageTables
  import KernelMemory
  import VirtualRanges

  // ---- frames for the bitmap

  /** p lies in an ACPI entry the bitmap's frames were not taken from. */
  ghost predicate SkippedAcpi(es: seq<Entry>, idx: nat, p: nat) {
    exists i: nat :: idx < i < |es| && InEntry(es, i, p) && es[i].Acpi() == 1
  }

  /** The frames are the pages of the map in [from, k), in order, but for those
      of ACPI entries after entry idx. */
  ghost predicate Backed(es: seq<Entry>, from: nat, idx: nat, frames: seq<nat>, k: nat) {
    && Ascending(frames)
    && (forall p: nat :: p in frames <==> InMap(es, p) && from <= p < k && !SkippedAcpi(es, idx, p))
  }

  lemma UniqueEntry(es: seq<Entry>, i: nat, j: nat, p: nat)
    requires OrderlyMap(es) && InEntry(es, i, p) && InEntry(es, j, p)
    ensures i == j
  {
    EntryOrder(es, i, j);
  }

  /** The next entry after idx that holds no ACPI tables (pm.c:31-35). */
  method NextUsable(es: seq<Entry>, idx: nat) returns (ok: bool, i: nat)
    requires idx < |es|
    ensures i == EntryFrom(es, idx + 1, true) && ok == (i < |es|)
  {
    i := idx + 1;
    while i < |es| && es[i].Acpi() == 1
      invariant idx < i <= |es| && EntryFrom(es, i, true) == EntryFrom(es, idx + 1, true)
    {
      i := i + 1;
    }
    ok := i < |es|;
  }

  lemma BackOne(es: seq<Entry>, from: nat, idx: nat, frames: seq<nat>, j: nat, k: nat)
    requires Cursor(es, j, k) && k < es[j].End() && from <= k && Backed(es, from, idx, frames, k)
    requires j > idx ==> es[j].Acpi() == 0
    ensures Backed(es, from, idx, frames + [k], k + PAGE_SIZE) && Cursor(es, j, k + PAGE_SIZE)
  {
    NextPage(es, j, k, k);
    assert InEntry(es, j, k);
    if SkippedAcpi(es, idx, k) {
      var i: nat :| idx < i < |es| && InEntry(es, i, k) && es[i].Acpi() == 1;
      UniqueEntry(es, i, j, k);
    }
    var s := frames + [k];
    forall a, b | 0 <= a < b < |s| ensures s[a] < s[b] {
      if b == |frames| { assert frames[a] in frames; }
    }
    forall p: nat
      ensures p in s <==> InMap(es, p) && from <= p < k + PAGE_SIZE && !SkippedAcpi(es, idx, p)
    {
      if InMap(es, p) { NextPage(es, j, k, p); }
      assert p in s <==> p in frames || p == k;
    }
  }

  lemma BackNext(es: seq<Entry>, from: nat, idx: nat, frames: seq<nat>, j: nat, i: nat)
    requires OrderlyMap(es) && idx <= j < i < |es| && Backed(es, from, idx, frames, es[j].End())
    requires forall k: nat :: j < k < i ==> es[k].Acpi() == 1
    ensures Backed(es, from, idx, frames, es[i].Base()) && Cursor(es, i, es[i].Base())
  {
    EntryOrder(es, j, i);
    forall p: nat
      ensures p in frames <==> InMap(es, p) && from <= p < es[i].Base() && !SkippedAcpi(es, idx, p)
    {
      if InMap(es, p) && es[j].End() <= p < es[i].Base() {
        var k: nat :| InEntry(es, k, p);
        EntryOrder(es, k, j);
        EntryOrder(es, k, i);
        assert j < k < i;
      }
    }
  }

  /** A walker ready for the kernel gigabyte from offset v on, where nothing is
      mapped yet. */
  ghost predicate WalkerReady(pg: PageTables.Paging, v: nat)
    reads pg, pg.mem
  {
    && pg.Valid() && pg.tPg >= VirtualRanges.TABLES_NEEDED
    && PageTree.Under(pg.Abs(), VirtualRanges.TOP_DIRECTORY)
    && (forall i: nat :: v <= i < KernelMemory.RAM_PAGES ==>
          pg.Reaches(VirtualRanges.KERNEL_BASE + i * KernelMemory.PAGE_SIZE))
    && forall p: nat :: p >= KernelMemory.BASE_PAGE + v ==> p !in PageTree.Pages(pg.Abs())
  }

  /** One page of the bitmap's backing, at offset v. */
  method BackPage(pg: PageTables.Paging, nVa: nat, pa: nat, ghost v: nat)
    requires WalkerReady(pg, v) && v < KernelMemory.RAM_PAGES && pa % PAGE_SIZE == 0
    requires nVa == VirtualRanges.KERNEL_BASE + v * KernelMemory.PAGE_SIZE
    modifies pg`uPg, pg`m, pg`labels, pg`parent, pg.mem
    ensures WalkerReady(pg, v + 1)
    ensures PageTree.Pages(pg.Abs()) == old(PageTree.Pages(pg.Abs()))[KernelMemory.BASE_PAGE + v := pa]
  {
    hide PageTree.Pages, PageTree.Tree;
    VirtualRanges.OffsetPage(v);
    QuotientUnique(nVa, 4096, VirtualRanges.KERNEL_BASE / 4096 + v, 0);
    PageTree.UnderUsesAtMost515(pg.Abs(), VirtualRanges.TOP_DIRECTORY);
    assert pg.Reaches(VirtualRanges.KERNEL_BASE + v * KernelMemory.PAGE_SIZE);
    var _ := pg.MapPage(nVa, pa);
  }

  /** Moves to the next usable page once k has reached the end of entry j
      (pm.c:29-37). */
  method MoveOn(es: seq<Entry>, j: nat, k: nat, ghost from: nat, ghost idx: nat, ghost frames: seq<nat>)
    returns (ok: bool, j': nat, k': nat)
    requires Cursor(es, j, k) && idx <= j && Backed(es, from, idx, frames, k) && (j > idx ==> es[j].Acpi() == 0)
    ensures ok == (Settled(es, j, k, true).j < |es|)
    ensures ok ==> Position(j', k') == Settled(es, j, k, true)
    ensures ok ==>
              Cursor(es, j', k') && k' < es[j'].End() && k' >= k && j' >= j && (j' > idx ==> es[j'].Acpi() == 0)
              && Backed(es, from, idx, frames, k')
  {
    hide Backed, EntryFrom, OrderlyMap;
    ok, j', k' := true, j, k;
    if k >= es[j].End() {
      ok, j' := NextUsable(es, j);
      if ok {
        CursorOrderly(es, j, k);
        BackNext(es, from, idx, frames, j, j');
        BaseInside(es, j, j');
        k' := es[j'].Base();
      }
    }
  }

  /** Maps sz pages for the bitmap from address nVa on (pm.c:24-40). When the
      map has no usable entry left the source's assertion fails. */
  method BackBitmap(pg: PageTables.Paging, es: seq<Entry>, nVa: nat, nPa: nat, idx: nat, sz: nat, ghost v: nat)
    returns (r: Status, nVa': nat, nPa': nat, idx': nat, ghost frames: seq<nat>)
    requires Cursor(es, idx, nPa) && nPa < es[idx].End()
    requires pg.Valid() && WalkerReady(pg, v) && v + sz <= KernelMemory.RAM_PAGES
    requires nVa == VirtualRanges.KERNEL_BASE + v * KernelMemory.PAGE_SIZE
    modifies pg`uPg, pg`m, pg`labels, pg`parent, pg.mem
    ensures r == if Remaining(es, Position(idx, nPa)) > sz then Ok else AssertionFailed
    ensures r == Ok ==> Position(idx', nPa') == Onward(es, Position(idx, nPa), sz, true)
    ensures r == Ok ==>
              && Cursor(es, idx', nPa') && nPa' < es[idx'].End() && nPa' >= nPa && idx' >= idx
              && nVa' == nVa + sz * PAGE_SIZE && WalkerReady(pg, v + sz)
              && |frames| == sz && Backed(es, nPa, idx, frames, nPa')
              && PageTree.Pages(pg.Abs()) ==
                 BootPages(old(PageTree.Pages(pg.Abs())), KernelMemory.BASE_PAGE + v, frames, sz)
  {
    hide WalkerReady, Backed, PageTree.Pages, OrderlyMap, BootPages, Remaining, Settled;
    r, nVa', nPa', idx', frames := Ok, nVa, nPa, idx, [];
    var n: nat := 0;
    ghost var was := PageTree.Pages(pg.Abs());
    BackStart(es, nPa, idx, was, KernelMemory.BASE_PAGE + v);
    while n < sz
      invariant n <= sz && Cursor(es, idx', nPa') && nPa' < es[idx'].End() && nPa' >= nPa && idx' >= idx
      invariant idx' > idx ==> es[idx'].Acpi() == 0
      invariant nVa' == nVa + n * PAGE_SIZE && WalkerReady(pg, v + n)
      invariant |frames| == n && Backed(es, nPa, idx, frames, nPa')
      invariant PageTree.Pages(pg.Abs()) == BootPages(was, KernelMemory.BASE_PAGE + v, frames, n)
      invariant Position(idx', nPa') == Onward(es, Position(idx, nPa), n, true)
    {
      BackPage(pg, nVa', nPa', v + n);
      BackOne(es, nPa, idx, frames, idx', nPa');
      BootPagesExtend(was, KernelMemory.BASE_PAGE + v, frames, nPa');
      frames := frames + [nPa'];
      nVa' := nVa' + PAGE_SIZE;
      n := n + 1;
      var ok;
      ok, idx', nPa' := MoveOn(es, idx', nPa' + PAGE_SIZE, nPa, idx, frames);
      if !ok {
        OnwardStops(es, Position(idx, nPa), n, sz);
        return AssertionFailed, nVa', nPa', idx', frames;
      }
    }
    OnwardWithin(es, Position(idx, nPa), sz);
  }

  /** Once off the end of the map, no more pages are reached. */
  lemma {:induction false} OnwardStops(es: seq<Entry>, p: Position, n: nat, sz: nat)
    requires Cursor(es, p.j, p.k) && p.k < es[p.j].End() && n <= sz && Onward(es, p, n, true).j >= |es|
    ensures Remaining(es, p) <= sz
  {
    OnwardWithin(es, p, n);
  }

  lemma BackStart(es: seq<Entry>, nPa: nat, idx: nat, m: map<nat, nat>, page: nat)
    requires Cursor(es, idx, nPa)
    ensures Backed(es, nPa, idx, [], nPa) && OrderlyMap(es) && BootPages(m, page, [], 0) == m
  {
  }

  lemma BaseInside(es: seq<Entry>, j: nat, i: nat)
    requires OrderlyMap(es) && j < i < |es|
    ensures es[j].End() <= es[i].Base() < es[i].End()
  {
  }

  lemma {:induction false} BootPagesPrefix(m: map<nat, nat>, page: nat, frames: seq<nat>, f: nat, n: nat)
    requires n <= |frames|
    ensures BootPages(m, page, frames + [f], n) == BootPages(m, page, frames, n)
  {
    if n > 0 { BootPagesPrefix(m, page, frames, f, n - 1); }
  }

  lemma BootPagesExtend(m: map<nat, nat>, page: nat, frames: seq<nat>, f: nat)
    ensures BootPages(m, page, frames + [f], |frames| + 1) == BootPages(m, page, frames, |frames|)[page + |frames| := f]
  {
    BootPagesPrefix(m, page, frames, f, |frames|);
  }

  // ---- pm_init

  /** Words of the bitmap that covers the map (pm.c:42). */
  function BitmapWords(es: seq<Entry>): nat
    requires es != []
  {
    ((es[|es| - 1].End() + PAGE_SIZE - 2) / PAGE_SIZE + WORD_BITS - 1) / WORD_BITS
  }

  /** Pages of the bitmap with its 32-byte header (pm.c:22). */
  function BitmapPages(es: seq<Entry>): nat
    requires es != []
  {
    (BitmapWords(es) * 8 + 32 + PAGE_SIZE - 1) / PAGE_SIZE
  }

  lemma BitmapCovers(es: seq<Entry>)
    requires OrderlyMap(es) && es != []
    ensures es[|es| - 1].End() <= BitmapWords(es) * WORD_BITS * PAGE_SIZE
  {
    var last := es[|es| - 1];
    var a := last.Base() / PAGE_SIZE + last.l / PAGE_SIZE;
    assert last.End() == a * PAGE_SIZE;
    QuotientUnique(last.End() + PAGE_SIZE - 2, PAGE_SIZE, a, PAGE_SIZE - 2);
    var w := BitmapWords(es);
    assert w == (a + WORD_BITS - 1) / WORD_BITS;
    assert w * WORD_BITS >= a;
  }

  /** n pages hold the header and the words of a bitmap, and no fewer do. */
  predicate Holds(n: nat, header: nat, words: nat) {
    n * PAGE_SIZE >= header + 8 * words && (n > 0 ==> (n - 1) * PAGE_SIZE < header + 8 * words)
  }

  /** w words have a bit for every page below an address, and no fewer have. */
  predicate HasBits(w: nat, end: nat) {
    w * WORD_BITS * PAGE_SIZE >= end && (w > 0 ==> (w - 1) * WORD_BITS * PAGE_SIZE < end)
  }

  /** The bitmap is as large as the map asks, and no larger. */
  lemma BitmapSizes(es: seq<Entry>)
    requires OrderlyMap(es) && es != []
    ensures HasBits(BitmapWords(es), es[|es| - 1].End()) && Holds(BitmapPages(es), 32, BitmapWords(es))
    ensures BitmapWords(es) > 0 && BitmapPages(es) > 0
  {
    var last := es[|es| - 1];
    var a := last.Base() / PAGE_SIZE + last.l / PAGE_SIZE;
    assert last.End() == a * PAGE_SIZE;
    QuotientUnique(last.End() + PAGE_SIZE - 2, PAGE_SIZE, a, PAGE_SIZE - 2);
    RoundedUp(a, WORD_BITS);
    RoundedUp(BitmapWords(es) * 8 + 32, PAGE_SIZE);
  }

  lemma RoundedUp(x: nat, k: nat)
    requires k > 0
    ensures var n := (x + k - 1) / k; n * k >= x && (x > 0 ==> n > 0 && (n - 1) * k < x)
  {
    var n := (x + k - 1) / k;
    assert x + k - 1 == n * k + (x + k - 1) % k;
    assert (n - 1) * k == n * k - k;
    if x > 0 && n == 0 { QuotientUnique(x + k - 1, k, 1, x - 1) by { assert x + k - 1 == 1 * k + (x - 1); } }
  }

  /** Where the free frames start when the bitmap's start at p. */
  function AfterBitmap(es: seq<Entry>, p: Position): Position
    requires es != []
  {
    Onward(es, p, BitmapPages(es), true)
  }

  /** Both assertions of pm_init hold: a usable page is left behind those of the
      bitmap, and it lies below the tables. */
  predicate PmStarts(es: seq<Entry>, p: Position, w0: nat)
    requires p.j < |es| && p.k <= es[p.j].End()
  {
    Remaining(es, p) > BitmapPages(es) && AfterBitmap(es, p).k < w0
  }

  /** The frame allocator's start-up: frames for its bitmap, then every other
      free page of the map. The source's assertion that the first free frame
      lies below the table window fails otherwise. */
  method PmInit(pg: PageTables.Paging, es: seq<Entry>, nVa: nat, nPa: nat, idx: nat, w0: nat, w1: nat, ghost v: nat)
    returns (r: Status, pm: FrameAllocator.PageArray?, nVa': nat, nPa': nat, idx': nat, ghost frames: seq<nat>)
    requires Cursor(es, idx, nPa) && nPa < es[idx].End()
    requires pg.Valid() && WalkerReady(pg, v) && v + BitmapPages(es) <= KernelMemory.RAM_PAGES
    requires nVa == VirtualRanges.KERNEL_BASE + v * KernelMemory.PAGE_SIZE
    modifies pg`uPg, pg`m, pg`labels, pg`parent, pg.mem
    ensures r == if PmStarts(es, Position(idx, nPa), w0) then Ok else AssertionFailed
    ensures r == Ok ==> Position(idx', nPa') == AfterBitmap(es, Position(idx, nPa))
    ensures r == Ok ==>
              && pm != null && fresh(pm) && fresh(pm.e) && pm.Valid() && pm.e.Length == BitmapWords(es)
              && Cursor(es, idx', nPa') && nPa' < es[idx'].End() && nPa <= nPa' < w0 && idx' >= idx
              && nVa' == nVa + BitmapPages(es) * PAGE_SIZE && WalkerReady(pg, v + BitmapPages(es))
              && |frames| == BitmapPages(es) && Backed(es, nPa, idx, frames, nPa')
              && PageTree.Pages(pg.Abs()) ==
                 BootPages(old(PageTree.Pages(pg.Abs())), KernelMemory.BASE_PAGE + v, frames, BitmapPages(es))
              && MarkedBelow(pm.Abs().free, es, nPa', idx', w0, w1, es[|es| - 1].End())
              && pm.Abs() == FramePool.Pool(pm.Abs().free, |pm.Abs().free|, nPa' / PAGE_SIZE)
    ensures r == Ok ==>
              var n := (nVa' - nVa) / PAGE_SIZE;
              && nVa' == nVa + n * PAGE_SIZE && Holds(n, 32, pm.e.Length) && HasBits(pm.e.Length, es[|es| - 1].End())
              && forall p :: KernelMemory.BASE_PAGE + v <= p < KernelMemory.BASE_PAGE + v + n ==> p in PageTree.Pages(pg.Abs())
  {
    hide Holds, HasBits, WalkerReady, Backed, PageTree.Pages, OrderlyMap, BootPages, BitmapWords, BitmapPages, MarkedBelow, Remaining,
      Onward;
    pm := null;
    CursorOrderly(es, idx, nPa);
    BitmapCovers(es);
    r, nVa', nPa', idx', frames := BackBitmap(pg, es, nVa, nPa, idx, BitmapPages(es), v);
    if r != Ok {
      return;
    }
    if nPa' >= w0 {
      r := AssertionFailed;
      return;
    }
    CursorInBitmap(es, idx', nPa', BitmapWords(es));
    pm := new FrameAllocator.PageArray(BitmapWords(es), nPa' / PAGE_SIZE);
    MarkFree(pm, es, nPa', idx', w0, w1);
    BitmapSizes(es);
    QuotientUnique(nVa' - nVa, PAGE_SIZE, BitmapPages(es), 0);
    BootPagesThere(old(PageTree.Pages(pg.Abs())), KernelMemory.BASE_PAGE + v, frames, BitmapPages(es));
  }

  lemma BootPagesThere(m: map<nat, nat>, page: nat, frames: seq<nat>, n: nat)
    requires n <= |frames|
    ensures forall p :: page <= p < page + n ==> p in BootPages(m, page, frames, n)
  {
    forall p | page <= p < page + n ensures p in BootPages(m, page, frames, n) { BootPagesAt(m, page, frames, n, p); }
  }

  lemma CursorOrderly(es: seq<Entry>, j: nat, k: nat)
    requires Cursor(es, j, k)
    ensures OrderlyMap(es) && es != []
  {
  }

  lemma CursorInBitmap(es: seq<Entry>, j: nat, k: nat, words: nat)
    requires Cursor(es, j, k) && k < es[j].End() && es[|es| - 1].End() <= words * WORD_BITS * PAGE_SIZE
    ensures WordOf(k / PAGE_SIZE) < words
  {
    EntryOrder(es, j, |es| - 1);
    assert k < words * WORD_BITS * PAGE_SIZE;
    assert k == k / PAGE_SIZE * PAGE_SIZE + k % PAGE_SIZE;
  }

  // ---- who owns which page of the map

  /** nPa0: the first frame after the loader's; idx0: its entry; [nPa0, nPa1):
      where the bitmap's frames come from; idx1: the entry of nPa1, the first
      free frame; [w0, w1): the page tables. */
  datatype Split = Split(nPa0: nat, idx0: nat, nPa1: nat, idx1: nat, w0: nat, w1: nat)

  ghost predicate WellSplit(es: seq<Entry>, s: Split) {
    && OrderlyMap(es) && s.nPa0 <= s.nPa1 < s.w0 <= s.w1
  }

  ghost predicate LoaderPage(es: seq<Entry>, s: Split, p: nat) { InMap(es, p) && p < s.nPa0 }

  ghost predicate BitmapPage(es: seq<Entry>, s: Split, p: nat) {
    InMap(es, p) && s.nPa0 <= p < s.nPa1 && !SkippedAcpi(es, s.idx0, p)
  }

  ghost predicate SkippedPage(es: seq<Entry>, s: Split, p: nat) {
    InMap(es, p) && s.nPa0 <= p < s.nPa1 && SkippedAcpi(es, s.idx0, p)
  }

  ghost predicate WindowFrame(es: seq<Entry>, s: Split, p: nat) { InMap(es, p) && s.w0 <= p < s.w1 }

  ghost predicate FreePage(es: seq<Entry>, s: Split, p: nat) { FreeAt(es, s.nPa1, s.idx1, s.w0, s.w1, p) }

  /** Every page of the map is the loader's, the bitmap's, an ACPI page the
      bitmap skipped, the window's or free; no two of these overlap, save that
      a page of the window is also marked free exactly when it is the first
      page of a later entry. */
  lemma BootPartition(es: seq<Entry>, s: Split, p: nat)
    requires WellSplit(es, s) && InMap(es, p)
    ensures LoaderPage(es, s, p) || BitmapPage(es, s, p) || SkippedPage(es, s, p) || WindowFrame(es, s, p) || FreePage(es, s, p)
    ensures LoaderPage(es, s, p) ==> !BitmapPage(es, s, p) && !SkippedPage(es, s, p) && !WindowFrame(es, s, p) && !FreePage(es, s, p)
    ensures BitmapPage(es, s, p) ==> !SkippedPage(es, s, p) && !WindowFrame(es, s, p) && !FreePage(es, s, p)
    ensures SkippedPage(es, s, p) ==> !WindowFrame(es, s, p) && !FreePage(es, s, p)
    ensures WindowFrame(es, s, p) ==> (FreePage(es, s, p) <==> LaterBase(es, s.idx1, p))
  {
  }

  /** A window that lies in one entry, and not at its base, is not marked. */
  lemma WindowInsideEntry(es: seq<Entry>, s: Split, j: nat, p: nat)
    requires WellSplit(es, s) && j < |es| && es[j].Base() < s.w0 && s.w1 <= es[j].End()
    requires WindowFrame(es, s, p)
    ensures !FreePage(es, s, p)
  {
    InnerPage(es, j, p, s.idx1);
  }

  // ---- the state the kernel starts from

  /** The map the loader and pm_init leave: the image at the loader's frames,
      the bitmap at its own. */
  function StartPages(page: nat, loader: seq<nat>, vpage: nat, bitmap: seq<nat>): map<nat, nat> {
    BootPages(BootPages(map[], page, loader, |loader|), vpage, bitmap, |bitmap|)
  }

  lemma StartPagesAt(page: nat, loader: seq<nat>, vpage: nat, bitmap: seq<nat>, p: nat)
    requires page + |loader| <= vpage
    ensures p in StartPages(page, loader, vpage, bitmap) <==> page <= p < page + |loader| || vpage <= p < vpage + |bitmap|
    ensures page <= p < page + |loader| ==> StartPages(page, loader, vpage, bitmap)[p] == loader[p - page]
    ensures vpage <= p < vpage + |bitmap| ==> StartPages(page, loader, vpage, bitmap)[p] == bitmap[p - vpage]
  {
    BootPagesAt(map[], page, loader, |loader|, p);
    BootPagesAt(BootPages(map[], page, loader, |loader|), vpage, bitmap, |bitmap|, p);
  }

  /** A frame the kernel's pages use: a page of the map below the first free
      frame. */
  lemma StartFrame(es: seq<Entry>, s: Split, page: nat, loader: seq<nat>, vpage: nat, bitmap: seq<nat>, p: nat)
    requires WellSplit(es, s) && PickedBelow(es, loader, s.nPa0) && Backed(es, s.nPa0, s.idx0, bitmap, s.nPa1)
    requires page + |loader| <= vpage && p in StartPages(page, loader, vpage, bitmap)
    ensures var pa := StartPages(page, loader, vpage, bitmap)[p];
            InMap(es, pa) && pa < s.nPa1 && (pa < s.nPa0 <==> p < vpage)
  {
    StartPagesAt(page, loader, vpage, bitmap, p);
    if p < vpage {
      assert loader[p - page] in loader;
    } else {
      assert bitmap[p - vpage] in bitmap;
    }
  }

  lemma StartInjective(es: seq<Entry>, s: Split, page: nat, loader: seq<nat>, vpage: nat, bitmap: seq<nat>)
    requires WellSplit(es, s) && PickedBelow(es, loader, s.nPa0) && Backed(es, s.nPa0, s.idx0, bitmap, s.nPa1)
    requires page + |loader| <= vpage
    ensures KernelMemory.Injective(StartPages(page, loader, vpage, bitmap))
  {
    var m := StartPages(page, loader, vpage, bitmap);
    forall p, q | p in m && q in m && p != q ensures m[p] != m[q] {
      StartFrame(es, s, page, loader, vpage, bitmap, p);
      StartFrame(es, s, page, loader, vpage, bitmap, q);
      StartPagesAt(page, loader, vpage, bitmap, p);
      StartPagesAt(page, loader, vpage, bitmap, q);
    }
  }

  /** Map pages have frame numbers from 256 to the bitmap's size. */
  lemma MapFrame(es: seq<Entry>, words: nat, p: nat)
    requires OrderlyMap(es) && InMap(es, p) && es[|es| - 1].End() <= words * WORD_BITS * PAGE_SIZE
    ensures 0 < p / PAGE_SIZE < words * WORD_BITS && p == p / PAGE_SIZE * PAGE_SIZE
  {
    LastEntry(es, p);
    var j: nat :| InEntry(es, j, p);
    assert es[j].Base() >= MIN_MEM_ADDRESS;
    assert p == p / PAGE_SIZE * PAGE_SIZE;
  }

  /** The memory the kernel starts with: the pool, the image and the bitmap
      mapped, nothing owned. */
  function StartState(s: Split, page: nat, loader: seq<nat>, v: nat, bitmap: seq<nat>, free: set<nat>,
                      words: nat): KernelMemory.State
  {
    KernelMemory.State(FramePool.Pool(free, |free|, s.nPa1 / PAGE_SIZE),
                       StartPages(page, loader, KernelMemory.BASE_PAGE + v, bitmap),
                       {}, v + |bitmap|, {}, v + |bitmap|, WORD_BITS * words)
  }

  /** The hand-off is safe: no two pages share a frame, no mapped frame is
      free, the pool is sound with its cursor on its least free frame, and
      nothing is mapped where the range manager will start. */
  lemma StartSafe(es: seq<Entry>, s: Split, page: nat, loader: seq<nat>, v: nat, bitmap: seq<nat>,
                  free: set<nat>, words: nat)
    requires WellSplit(es, s) && PickedBelow(es, loader, s.nPa0) && Backed(es, s.nPa0, s.idx0, bitmap, s.nPa1)
    requires page + |loader| <= KernelMemory.BASE_PAGE + v
    requires Cursor(es, s.idx1, s.nPa1) && s.nPa1 < es[s.idx1].End()
    requires MarkedBelow(free, es, s.nPa1, s.idx1, s.w0, s.w1, es[|es| - 1].End())
    requires es[|es| - 1].End() <= words * WORD_BITS * PAGE_SIZE
    ensures KernelMemory.Safe(StartState(s, page, loader, v, bitmap, free, words))
  {
    var vpage := KernelMemory.BASE_PAGE + v;
    var m := StartPages(page, loader, vpage, bitmap);
    var st := StartState(s, page, loader, v, bitmap, free, words);
    StartInjective(es, s, page, loader, vpage, bitmap);
    StartPool(es, s, free, words);
    hide KernelMemory.Injective, FramePool.Sound, MarkedBelow, FreeAt, Backed, PickedBelow, InMap;
    forall p | p in m ensures KernelMemory.MappedFrame(st, m[p]) {
      StartFrame(es, s, page, loader, vpage, bitmap, p);
      MapFrame(es, words, m[p]);
      assert m[p] / PAGE_SIZE !in free;
    }
    forall p | p in m ensures p < vpage + |bitmap| {
      StartPagesAt(page, loader, vpage, bitmap, p);
    }
    assert KernelMemory.Ranges(st);
  }

  lemma StartPool(es: seq<Entry>, s: Split, free: set<nat>, words: nat)
    requires WellSplit(es, s)
    requires Cursor(es, s.idx1, s.nPa1) && s.nPa1 < es[s.idx1].End()
    requires MarkedBelow(free, es, s.nPa1, s.idx1, s.w0, s.w1, es[|es| - 1].End())
    requires es[|es| - 1].End() <= words * WORD_BITS * PAGE_SIZE
    ensures FramePool.Sound(FramePool.Pool(free, |free|, s.nPa1 / PAGE_SIZE)) && s.nPa1 / PAGE_SIZE in free
    ensures forall f :: f in free ==> 0 < f < WORD_BITS * words && f >= s.nPa1 / PAGE_SIZE
    ensures forall f :: f in free ==> f * PAGE_SIZE >= s.nPa1
  {
    assert InEntry(es, s.idx1, s.nPa1);
    EntryOrder(es, s.idx1, |es| - 1);
    MapFrame(es, words, s.nPa1);
    forall f | f in free
      ensures 0 < f < WORD_BITS * words && s.nPa1 / PAGE_SIZE <= f && WordOf(s.nPa1 / PAGE_SIZE) <= WordOf(f)
    {
      MapFrame(es, words, f * PAGE_SIZE);
    }
  }

  /** A frame of the table window is accounted for by the memory the kernel
      starts with exactly when it is the base of a later entry: no image or
      bitmap page is mapped to it, and only then is it marked free. */
  lemma WindowFrameIff(es: seq<Entry>, s: Split, page: nat, loader: seq<nat>, v: nat, bitmap: seq<nat>,
                       free: set<nat>, words: nat, f: nat)
    requires WellSplit(es, s) && PickedBelow(es, loader, s.nPa0) && Backed(es, s.nPa0, s.idx0, bitmap, s.nPa1)
    requires page + |loader| <= KernelMemory.BASE_PAGE + v && es != []
    requires MarkedBelow(free, es, s.nPa1, s.idx1, s.w0, s.w1, es[|es| - 1].End())
    requires es[|es| - 1].End() <= words * WORD_BITS * PAGE_SIZE && s.w0 <= f * PAGE_SIZE < s.w1
    ensures f in KernelMemory.Frames(StartState(s, page, loader, v, bitmap, free, words))
            <==> LaterBase(es, s.idx1, f * PAGE_SIZE)
  {
    var m := StartPages(page, loader, KernelMemory.BASE_PAGE + v, bitmap);
    hide StartPages, Backed, PickedBelow, MarkedBelow, FreeAt, LaterBase, InMap;
    assert f !in KernelMemory.PageFrames(m) by {
      forall p | p in m ensures m[p] / PAGE_SIZE != f {
        StartFrame(es, s, page, loader, KernelMemory.BASE_PAGE + v, bitmap, p);
        MapFrame(es, words, m[p]);
      }
    }
    WindowFrameFree(es, s, free, f);
  }

  lemma WindowFrameFree(es: seq<Entry>, s: Split, free: set<nat>, f: nat)
    requires es != [] && WellSplit(es, s)
    requires MarkedBelow(free, es, s.nPa1, s.idx1, s.w0, s.w1, es[|es| - 1].End())
    requires s.w0 <= f * PAGE_SIZE < s.w1
    ensures f in free <==> LaterBase(es, s.idx1, f * PAGE_SIZE)
  {
    if LaterBase(es, s.idx1, f * PAGE_SIZE) {
      var j: nat :| s.idx1 < j < |es| && f * PAGE_SIZE == es[j].Base();
      assert InEntry(es, j, f * PAGE_SIZE) by { EntryOrder(es, j, j); BaseInEntry(es, j); }
      EntryOrder(es, j, |es| - 1);
    }
  }

  lemma BaseInEntry(es: seq<Entry>, j: nat)
    requires OrderlyMap(es) && j < |es|
    ensures es[j].Base() < es[j].End()
  {
  }

  /** The table window lies in one entry of the map, and not at its base. */
  ghost predicate WindowInEntry(es: seq<Entry>, w0: nat, w1: nat) {
    exists j: nat :: j < |es| && es[j].Base() < w0 && w1 <= es[j].End()
  }

  lemma NoLaterBase(es: seq<Entry>, w0: nat, w1: nat, idx: nat, p: nat)
    requires OrderlyMap(es) && WindowInEntry(es, w0, w1) && w0 <= p < w1
    ensures !LaterBase(es, idx, p)
  {
    var j: nat :| j < |es| && es[j].Base() < w0 && w1 <= es[j].End();
    InnerPage(es, j, p, idx);
  }

  /** The frames start-up marks free, below the end of the map. */
  ghost function FreeFrames(es: seq<Entry>, p: Position, w0: nat, w1: nat): set<nat>
    requires es != []
  {
    set f: nat | f < es[|es| - 1].End() && FreeAt(es, p.k, p.j, w0, w1, f * PAGE_SIZE) && f * PAGE_SIZE < es[|es| - 1].End()
  }

  lemma MarkedAre(free: set<nat>, es: seq<Entry>, p: Position, w0: nat, w1: nat)
    requires es != [] && MarkedBelow(free, es, p.k, p.j, w0, w1, es[|es| - 1].End())
    ensures free == FreeFrames(es, p, w0, w1)
  {
    hide FreeAt;
  }
}
