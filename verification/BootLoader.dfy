/** The loader's table building as a whole (src/uefi/main.c:391-406, 455-524):
    the table estimate, the kernel, IDT and stack pages, and the 2MB window the
    tables themselves are mapped at. */
module BootLoader {
  import opened PageTree
  import opened Division
  import opened BootTables
  import PageTables

  const IDT_SIZE: nat := 4096
  const KERNEL_STACK_SIZE: nat := 0x1_0000
  const KERNEL_DATA_PAGE_COUNT: nat := 17
  const PAGE_2MB: nat := 0x20_0000
  const LARGE_FLAGS: nat := 0x83

  /** Pages of the image [pb, pe). */
  function KernelPages(pb: nat, pe: nat): nat
    requires pb <= pe
  {
    (pe - pb + PAGE_SIZE - 1) / PAGE_SIZE
  }

  /** The image starts on a page and, with its IDT and stack, ends within the
      48-bit address space. */
  predicate Image(pb: nat, pe: nat) {
    && pb < pe && pb % PAGE_SIZE == 0
    && PageTables.PageOf(pb) + KernelPages(pb, pe) + KERNEL_DATA_PAGE_COUNT <= PAGE_COUNT
  }

  lemma LoopBounds(pb: nat, pe: nat, n: nat)
    requires pb < pe && pb % PAGE_SIZE == 0
    ensures pb + n * PAGE_SIZE < pe <==> n < KernelPages(pb, pe)
    ensures pb + n * PAGE_SIZE < pe + IDT_SIZE <==> n < KernelPages(pb, pe) + 1
    ensures pb + n * PAGE_SIZE < pe + IDT_SIZE + KERNEL_STACK_SIZE <==> n < KernelPages(pb, pe) + KERNEL_DATA_PAGE_COUNT
  {
    var k := KernelPages(pb, pe);
    var r := (pe - pb + PAGE_SIZE - 1) % PAGE_SIZE;
    assert pe - pb + PAGE_SIZE - 1 == k * PAGE_SIZE + r;
  }

  lemma PageAt(pb: nat, n: nat)
    requires PageTables.PageOf(pb) + n < PAGE_COUNT && pb % PAGE_SIZE == 0
    ensures PageTables.PageOf(pb + n * PAGE_SIZE) == PageTables.PageOf(pb) + n
  {
    var q := pb / PAGE_SIZE;
    QuotientUnique(pb + n * PAGE_SIZE, PAGE_SIZE, q + n, 0);
    QuotientUnique(q + n, PAGE_COUNT, q / PAGE_COUNT, q % PAGE_COUNT + n);
  }

  // ---- the estimate

  /** The tables the loader reserves: room for a PML4, a PDP and the window's
      512 entries, and one table for every PD and page table of the image. */
  function Estimate(page: nat, n: nat): nat {
    if n == 0 then 2 + ENTRIES
    else 2 + ENTRIES + Span(page, page + n - 1, 2) + Span(page, page + n - 1, 3)
  }

  function RoundTables(t: nat): nat { (t + ENTRIES - 1) / ENTRIES * ENTRIES }

  method EstimateTables(pb: nat, pe: nat) returns (tPg: nat)
    requires Image(pb, pe)
    ensures tPg == RoundTables(Estimate(PageTables.PageOf(pb), KernelPages(pb, pe)))
  {
    hide Prefix, Index, Span;
    tPg := 2 + ENTRIES;
    var li := new nat[3](_ => NO_INDEX);
    var i := pb;
    ghost var page, n := PageTables.PageOf(pb), 0;
    while i < pe
      invariant i == pb + n * PAGE_SIZE && n <= KernelPages(pb, pe)
      invariant tPg == Estimate(page, n)
      invariant forall j: nat :: j < 3 ==> li[j] == if n == 0 then NO_INDEX else Index(page + n - 1, j)
      decreases pe + PAGE_SIZE - i
    {
      LoopBounds(pb, pe, n);
      PageAt(pb, n);
      PageTables.IndicesOfAddress(i);
      var k := 0;
      while k < 3
        invariant k <= 3
        invariant forall j: nat :: j < 3 ==>
                    (li[j] == if j < k then Index(page + n, j) else if n == 0 then NO_INDEX else Index(page + n - 1, j))
        invariant tPg == Estimate(page, n) + Crossings(page, n, k)
      {
        CrossingStep(page, n, k);
        var l := IndexAt(i, k);
        if li[k] != l {
          if k != 0 {
            tPg := tPg + 1;
          }
          li[k] := l;
        }
        k := k + 1;
      }
      EstimateStep(page, n);
      i := i + PAGE_SIZE;
      n := n + 1;
    }
    LoopBounds(pb, pe, n);
    tPg := (tPg + ENTRIES - 1) / ENTRIES * ENTRIES;
  }

  /** Index changes counted at levels 1 to k-1 for page number page + n. */
  function Crossings(page: nat, n: nat, k: nat): nat {
    (if k > 1 then Crossing(page, n, 1) else 0) + (if k > 2 then Crossing(page, n, 2) else 0)
  }

  function Crossing(page: nat, n: nat, level: nat): nat {
    if n == 0 || Index(page + n, level) != Index(page + n - 1, level) then 1 else 0
  }

  lemma CrossingStep(page: nat, n: nat, k: nat)
    requires k < 3
    ensures Crossings(page, n, k + 1) == Crossings(page, n, k) + (if k == 0 then 0 else Crossing(page, n, k))
    ensures Index(page + n, k) != NO_INDEX
  {
  }

  lemma EstimateStep(page: nat, n: nat)
    requires page + n < PAGE_COUNT
    ensures Estimate(page, n + 1) == Estimate(page, n) + Crossings(page, n, 3)
  {
    SpanStep(page, n, 1);
    SpanStep(page, n, 2);
  }

  lemma SpanStep(page: nat, n: nat, level: nat)
    requires page + n < PAGE_COUNT && level < 3
    ensures Span(page, page + n, level + 1) ==
            (if n == 0 then 0 else Span(page, page + n - 1, level + 1)) + Crossing(page, n, level)
  {
    hide Prefix, Index;
    PrefixMonotone(page, page + n, level + 1);
    if n > 0 {
      PrefixMonotone(page, page + n - 1, level + 1);
      NextIndex(page + n - 1, level);
    }
  }

  /** The slots of size pages that the n pages from page on reach into. */
  ghost function Slots(page: nat, n: nat, size: nat): set<nat>
    requires size > 0
  {
    if n == 0 then {} else Slots(page, n - 1, size) + {(page + n - 1) / size}
  }

  lemma {:induction false} SlotsCount(page: nat, n: nat, size: nat)
    requires size > 0 && n > 0
    ensures |Slots(page, n, size)| == (page + n - 1) / size - page / size + 1
    ensures (page + n - 1) / size in Slots(page, n, size)
    ensures forall x :: x in Slots(page, n, size) ==> x <= (page + n - 1) / size
  {
    if n == 1 {
      assert Slots(page, 0, size) == {};
    } else {
      SlotsCount(page, n - 1, size);
      NextQuotient(page + n - 2, size);
    }
  }

  lemma NextQuotient(a: nat, d: nat)
    requires d > 0
    ensures (a + 1) / d == a / d || (a + 1) / d == a / d + 1
  {
    if a % d == d - 1 {
      QuotientUnique(a + 1, d, a / d + 1, 0);
    } else {
      QuotientUnique(a + 1, d, a / d, a % d + 1);
    }
  }

  /** The estimate is a PML4, a PDP, 512 for the window, one page directory for
      every gigabyte the image reaches into and one page table for every 2MB;
      it is rounded up to whole 2MB slots and no further. */
  lemma EstimateCounts(page: nat, n: nat)
    ensures Estimate(page, n) == 1 + 1 + 512 + |Slots(page, n, 0x4_0000)| + |Slots(page, n, 512)|
    ensures var t := Estimate(page, n);
            RoundTables(t) % 512 == 0 && t <= RoundTables(t) < t + 512
  {
    if n > 0 {
      SlotsCount(page, n, 0x4_0000);
      SlotsCount(page, n, 512);
      PrefixMonotone(page, page + n - 1, 2);
      PrefixMonotone(page, page + n - 1, 3);
    }
    var t := Estimate(page, n) + ENTRIES - 1;
    assert t == t / ENTRIES * ENTRIES + t % ENTRIES;
    QuotientUnique(t / ENTRIES * ENTRIES, ENTRIES, t / ENTRIES, 0);
  }

  /** For an image of at most a gigabyte the estimate covers every table the
      builder takes, with more than 500 to spare, and is at least 1024. */
  lemma EstimateSuffices(page: nat, n: nat)
    requires 0 < n <= 0x4_0000 && page + n + KERNEL_DATA_PAGE_COUNT <= PAGE_COUNT
    ensures Needed(page, n + KERNEL_DATA_PAGE_COUNT) + 500 <= RoundTables(Estimate(page, n))
    ensures RoundTables(Estimate(page, n)) >= 1024 && RoundTables(Estimate(page, n)) % ENTRIES == 0
  {
    var last, end := page + n - 1, page + n + KERNEL_DATA_PAGE_COUNT - 1;
    PrefixSpread(page, last, end);
    var t := Estimate(page, n) + ENTRIES - 1;
    assert t == t / ENTRIES * ENTRIES + t % ENTRIES;
    QuotientUnique(t / ENTRIES * ENTRIES, ENTRIES, t / ENTRIES, 0);
    assert Span(page, last, 2) >= 1 && Span(page, last, 3) >= 1 by {
      PrefixMonotone(page, last, 2);
      PrefixMonotone(page, last, 3);
    }
  }

  lemma PrefixSpread(page: nat, last: nat, end: nat)
    requires page <= last <= end == last + KERNEL_DATA_PAGE_COUNT && last < page + 0x4_0000
    ensures Span(page, end, 1) <= 2
    ensures Span(page, end, 2) <= Span(page, last, 2) + 1
    ensures Span(page, end, 3) <= Span(page, last, 3) + 1
  {
    assert end / 0x800_0000 <= page / 0x800_0000 + 1;
    assert end / 0x4_0000 <= last / 0x4_0000 + 1;
    assert end / 512 <= last / 512 + 1;
  }

  // ---- the kernel's pages

  /** m with page + i mapped to frames[i] for every i below n. */
  function BootPages(m: map<nat, nat>, page: nat, frames: seq<nat>, n: nat): map<nat, nat>
    requires n <= |frames|
  {
    if n == 0 then m else BootPages(m, page, frames, n - 1)[page + n - 1 := frames[n - 1]]
  }

  lemma BootPagesStep(m: map<nat, nat>, page: nat, frames: seq<nat>, n: nat)
    requires n < |frames|
    ensures BootPages(m, page, frames, n + 1) == BootPages(m, page, frames, n)[page + n := frames[n]]
  {
  }

  lemma {:induction false} BootPagesAt(m: map<nat, nat>, page: nat, frames: seq<nat>, n: nat, p: nat)
    requires n <= |frames|
    ensures p in BootPages(m, page, frames, n) <==> p in m || page <= p < page + n
    ensures page <= p < page + n ==> BootPages(m, page, frames, n)[p] == frames[p - page]
    ensures p in m && !(page <= p < page + n) ==> BootPages(m, page, frames, n)[p] == m[p]
  {
    if n > 0 { BootPagesAt(m, page, frames, n - 1, p); }
  }

  /** The pages of the image, its IDT and its stack are all walkable. */
  ghost predicate AllWalkable(w: Window, foreign: set<nat>, page: nat, n: nat) {
    forall p: nat :: page <= p < page + n ==> WalkableIn(w, foreign, p)
  }

  lemma NeededMonotone(page: nat, n: nat, n': nat)
    requires n <= n'
    ensures Needed(page, n) <= Needed(page, n')
  {
    if 0 < n {
      PrefixMonotone(page + n - 1, page + n' - 1, 1);
      PrefixMonotone(page + n - 1, page + n' - 1, 2);
      PrefixMonotone(page + n - 1, page + n' - 1, 3);
    }
  }

  /** The n-th page of the range, taken by the cached cursor. */
  method MapOne(b: Builder, va: nat, pa: nat, ghost page: nat, ghost n: nat)
    requires b.Standing(if n == 0 then 0 else page + n - 1, n == 0)
    requires PageTables.PageOf(va) == page + n && pa % PAGE_SIZE == 0
    requires WalkableIn(b.w, b.foreign, page + n) && b.uPg == Needed(page, n) && Needed(page, n + 1) <= b.w.total
    modifies b`uPg, b`m, b`labels, b`parent, b.mem, b.li, b.pt
    ensures b.Standing(page + n, false) && b.uPg == Needed(page, n + 1)
    ensures Pages(b.Abs()) == old(Pages(b.Abs()))[page + n := pa]
    ensures old(Under(b.Abs(), Prefix(page + n, 2))) ==> Under(b.Abs(), Prefix(page + n, 2))
  {
    hide *;
    ghost var s := b.Abs();
    StandingReady(b, page + n, if n == 0 then 0 else page + n - 1, n == 0);
    MissingCount(s, page, n);
    b.AddPage(va, pa, if n == 0 then 0 else page + n - 1, n == 0);
    MapPageAddsOne(s, page + n, pa);
    AbsFields(b);
    if Under(s, Prefix(page + n, 2)) {
      MapPageUnder(s, page + n, pa);
    }
  }

  lemma AbsFields(b: Builder)
    ensures b.Abs().u == b.uPg && b.Abs().w == b.w && b.Abs().foreign == b.foreign
  {
  }

  lemma StandingReady(b: Builder, p: nat, q: nat, first: bool)
    requires b.Standing(q, first) && (!first ==> p == q + 1) && WalkableIn(b.w, b.foreign, p)
    ensures Ready(b.Abs(), p, first) && Tree(b.Abs()) && Walkable(b.Abs(), p) && b.Abs().u == b.uPg && b.Abs().w == b.w
  {
  }

  lemma MapPageUnder(s: Tables, p: nat, pa: nat)
    requires Tree(s) && Walkable(s, p) && s.u + Missing(s, p, 3) <= s.w.total && Under(s, Prefix(p, 2))
    ensures Under(MapPage(s, p, pa), Prefix(p, 2))
  {
    GrowUnder(s, p, 3);
  }

  /** What the loop remembers of a page (main.c:486-498). */
  method NotePage(i: nat, pe: nat, idt: nat, kSp: nat) returns (idt': nat, kSp': nat)
    ensures idt' == if pe <= i < pe + IDT_SIZE then i else idt
    ensures kSp' == if i >= pe + IDT_SIZE && kSp == 0 then i + KERNEL_STACK_SIZE else kSp
  {
    idt', kSp' := idt, kSp;
    if i < pe {
    } else if i < pe + IDT_SIZE {
      idt' := i;
    } else if kSp == 0 {
      kSp' := i + KERNEL_STACK_SIZE;
    }
  }

  lemma KernelStart(b: Builder, pb: nat, pe: nat, m: map<nat, nat>, fs: seq<nat>)
    requires Image(pb, pe) && b.Standing(0, true)
    requires AllWalkable(b.w, b.foreign, PageTables.PageOf(pb), |fs|)
    requires |fs| == KernelPages(pb, pe) + KERNEL_DATA_PAGE_COUNT
    ensures forall d :: Under(b.Abs(), d)
    ensures b.uPg == Needed(PageTables.PageOf(pb), 0) && BootPages(m, PageTables.PageOf(pb), fs, 0) == m
    ensures forall p: nat :: PageTables.PageOf(pb) <= p < PageTables.PageOf(pb) + |fs| ==> WalkableIn(b.w, b.foreign, p)
    ensures pb < pe && pb % PAGE_SIZE == 0 && PageTables.PageOf(pb) + |fs| <= PAGE_COUNT
    ensures |fs| == KernelPages(pb, pe) + 17 && IDT_SIZE == PAGE_SIZE && KERNEL_STACK_SIZE == 16 * PAGE_SIZE
  {
  }

  /** Maps the image, the IDT page and the stack pages to the picked frames
      (main.c:467-499): page n of the range gets frame n, the IDT is the page
      after the image, and the stack pointer is the end of the range. */
  method MapKernel(b: Builder, pb: nat, pe: nat, frames: array<nat>) returns (idt: nat, kSp: nat)
    requires pb < pe && Image(pb, pe) && b.Standing(0, true)
    requires frames.Length == KernelPages(pb, pe) + KERNEL_DATA_PAGE_COUNT
    requires frames !in {b.li, b.pt} && forall i :: 0 <= i < frames.Length ==> frames[i] % PAGE_SIZE == 0
    requires Needed(PageTables.PageOf(pb), frames.Length) <= b.w.total
    requires AllWalkable(b.w, b.foreign, PageTables.PageOf(pb), frames.Length)
    modifies b`uPg, b`m, b`labels, b`parent, b.mem, b.li, b.pt
    ensures b.Standing(PageTables.PageOf(pb) + frames.Length - 1, false)
    ensures Pages(b.Abs()) == BootPages(old(Pages(b.Abs())), PageTables.PageOf(pb), frames[..], frames.Length)
    ensures b.uPg == Needed(PageTables.PageOf(pb), frames.Length)
    ensures Prefix(PageTables.PageOf(pb), 2) == Prefix(PageTables.PageOf(pb) + frames.Length - 1, 2) ==>
              Under(b.Abs(), Prefix(PageTables.PageOf(pb), 2))
    ensures idt == pb + KernelPages(pb, pe) * PAGE_SIZE
    ensures kSp == pb + frames.Length * PAGE_SIZE
  {
    hide Pages, Tree, Needed, KernelPages, AllWalkable, WalkableIn, Image, BootPages, PageTables.PageOf, Builder.Standing, Under, Prefix;
    ghost var page, k, was, fs := PageTables.PageOf(pb), KernelPages(pb, pe), Pages(b.Abs()), frames[..];
    KernelStart(b, pb, pe, was, fs);
    idt, kSp := 0, 0;
    var i, j: nat := pb, 0;
    while i < pe + IDT_SIZE + KERNEL_STACK_SIZE
      invariant i == pb + j * PAGE_SIZE && j <= frames.Length && frames[..] == fs
      invariant b.Standing(if j == 0 then 0 else page + j - 1, j == 0)
      invariant Pages(b.Abs()) == BootPages(was, page, fs, j)
      invariant b.uPg == Needed(page, j)
      invariant Prefix(page, 2) == Prefix(page + frames.Length - 1, 2) ==> Under(b.Abs(), Prefix(page, 2))
      invariant j > k ==> idt == pb + k * PAGE_SIZE
      invariant if j > k + 1 then kSp == pb + frames.Length * PAGE_SIZE else kSp == 0
      decreases pe + IDT_SIZE + KERNEL_STACK_SIZE + PAGE_SIZE - i
    {
      LoopBounds(pb, pe, j);
      PageAt(pb, j);
      NeededMonotone(page, j + 1, frames.Length);
      PrefixMonotone(page, page + j, 2);
      PrefixMonotone(page + j, page + frames.Length - 1, 2);
      BootPagesStep(was, page, fs, j);
      assert frames[j] == fs[j];
      MapOne(b, i, frames[j], page, j);
      idt, kSp := NotePage(i, pe, idt, kSp);
      j := j + 1;
      i := i + PAGE_SIZE;
    }
    LoopBounds(pb, pe, j);
  }

  // ---- the window

  /** The address the tables are mapped at: the next 2MB boundary after the
      mapped range (main.c:500-501). */
  function WindowAddress(pb: nat, pages: nat): nat {
    var end := pb + pages * PAGE_SIZE;
    end + PAGE_2MB - end % PAGE_2MB
  }

  /** The window's 2MB slots: slot i of the page directory that holds it maps
      the i-th 2MB of the tables. */
  ghost predicate WindowMapped(s: Tables, t: nat, slot: nat, n: nat) {
    && t < |s.m| && slot + n <= |s.m[t]|
    && forall i: nat :: slot <= i < slot + n ==> s.m[t][i] == s.w.pa + (i - slot) * PAGE_2MB + LARGE_FLAGS
  }

  /** The window lies in the page directory of page q, the last page mapped. */
  ghost predicate WindowInDirectory(w: Window, q: nat) {
    var v := PageTables.PageOf(w.va);
    && Prefix(v, 2) == Prefix(q, 2)
    && w.total % ENTRIES == 0
    && Index(v, 2) + w.total / ENTRIES <= ENTRIES
  }

  /** The first n window entries are in place in page directory t, which the
      walk to q meets, and the page map is still m. */
  ghost predicate WindowPart(s: Tables, m: map<nat, nat>, q: nat, t: nat, n: nat) {
    var v := PageTables.PageOf(s.w.va);
    && Tree(s) && Pages(s) == m && Walkable(s, q)
    && TableFor(s, q, 2) == Some(t) && t < s.u && s.labels[t] == Label(2, Prefix(v, 2))
    && WindowMapped(s, t, Index(v, 2), n)
  }

  lemma WindowStep(s: Tables, m: map<nat, nat>, q: nat, t: nat, n: nat)
    requires WindowPart(s, m, q, t, n)
    requires n < s.w.total / ENTRIES && Index(PageTables.PageOf(s.w.va), 2) + n < ENTRIES
    ensures HasEntry(s.m, t, Index(PageTables.PageOf(s.w.va), 2) + n)
    ensures WindowPart(WriteEntry(s, t, Index(PageTables.PageOf(s.w.va), 2) + n, s.w.pa + n * PAGE_2MB + LARGE_FLAGS), m, q, t, n + 1)
  {
    var v := PageTables.PageOf(s.w.va);
    hide PageTables.PageOf, Pages;
    var i, e := Index(v, 2) + n, s.w.pa + n * PAGE_2MB + LARGE_FLAGS;
    SlotOutside(s, t, v, n);
    WriteOutsideKeepsPages(s, t, i, e);
    WriteOutsideWalk(s, t, i, e, q, 2);
    assert HasEntry(s.m, t, i);
    var s' := WriteEntry(s, t, i, e);
    hide Tree, Prefix, Index, TableFor;
    assert s'.m[t] == s.m[t][i := e];
    assert WindowMapped(s', t, Index(v, 2), n + 1);
  }

  lemma WindowStart(b: Builder, q: nat)
    requires b.Standing(q, false) && WindowInDirectory(b.w, q)
    ensures Tree(b.Abs()) && TableFor(b.Abs(), q, 2).Some? && b.Laid()
    ensures WindowPart(b.Abs(), Pages(b.Abs()), q, TableFor(b.Abs(), q, 2).value, 0)
    ensures b.pt[2] == b.pml4 + TableFor(b.Abs(), q, 2).value * TABLE_SIZE && b.pml4 == b.w.pa
    ensures TableFor(b.Abs(), q, 2).value < b.w.total
    ensures IndexAt(b.w.va, 2) == Index(PageTables.PageOf(b.w.va), 2)
    ensures Index(PageTables.PageOf(b.w.va), 2) + b.w.total / ENTRIES <= ENTRIES
  {
    PageTables.IndicesOfAddress(b.w.va);
    assert Holds(b.pt[..], b.Abs(), q, 2);
    WalkLabel(b.Abs(), q, 2);
  }

  /** Writes the window's entries through the cursor (main.c:509-524). In the
      page directory of the last page the first two levels do not move. */
  method MapWindow(b: Builder, pml4Va: nat, tPg: nat, ghost q: nat)
    requires b.Standing(q, false) && WindowInDirectory(b.w, q)
    requires pml4Va == b.w.va && tPg == b.w.total
    modifies b`m, b.mem, b.li
    ensures b.Laid() && old(TableFor(b.Abs(), q, 2).Some?)
    ensures WindowPart(b.Abs(), old(Pages(b.Abs())), q, old(TableFor(b.Abs(), q, 2).value), tPg / ENTRIES)
  {
    hide WindowPart, Pages, Tree, TableFor, PageTables.PageOf, Builder.Standing, WindowInDirectory, Index;
    WindowStart(b, q);
    ghost var t, was := TableFor(b.Abs(), q, 2).value, Pages(b.Abs());
    var l := IndexAt(pml4Va, 2);
    b.li[2] := l;
    var i: nat := 0;
    while i < tPg / ENTRIES
      invariant i <= tPg / ENTRIES && b.Laid()
      invariant WindowPart(b.Abs(), was, q, t, i)
      invariant b.pt[2] == b.pml4 + t * TABLE_SIZE
    {
      WindowStep(b.Abs(), was, q, t, i);
      QuotientUnique(b.pt[2] - b.pml4, TABLE_SIZE, t, 0);
      b.Write(b.pt[2], l + i, b.pml4 + i * PAGE_2MB + LARGE_FLAGS);
      i := i + 1;
    }
  }

  lemma SlotOutside(s: Tables, t: nat, v: nat, i: nat)
    requires Tree(s) && t < s.u && s.labels[t] == Label(2, Prefix(v, 2))
    requires v == PageTables.PageOf(s.w.va) && i < s.w.total / ENTRIES && Index(v, 2) + i < ENTRIES
    ensures IsOutside(s, t, Index(v, 2) + i)
  {
    PrefixStep(v, 2);
  }

  // ---- the loader as a whole

  /** The image lies in the upper half, and the image, its data, the gap to a
      2MB boundary and the window fit in one page directory, as the kernel linked at
      0xffffffffc0000000 does. */
  ghost predicate Placed(pb: nat, pe: nat, tPg: nat) {
    && pb < pe && Image(pb, pe) && KernelPages(pb, pe) <= 0x4_0000
    && PageTables.PageOf(pb) >= 0x8_0000_0000
    && tPg == RoundTables(Estimate(PageTables.PageOf(pb), KernelPages(pb, pe)))
    && PageTables.PageOf(pb) + KernelPages(pb, pe) + KERNEL_DATA_PAGE_COUNT + 512 + tPg
       <= (Prefix(PageTables.PageOf(pb), 2) + 1) * 0x4_0000
  }

  /** The page of the window's first address: past the mapped range, at the
      start of a 2MB slot. */
  lemma WindowPage(pb: nat, n: nat)
    requires pb % PAGE_SIZE == 0 && PageTables.PageOf(pb) + n + 1024 < PAGE_COUNT
    ensures var v := PageTables.PageOf(WindowAddress(pb, n));
            v % 512 == 0 && PageTables.PageOf(pb) + n < v <= PageTables.PageOf(pb) + n + 512
    ensures WindowAddress(pb, n) % PAGE_SIZE == 0
  {
    var page := PageTables.PageOf(pb);
    var q := pb / PAGE_SIZE;
    var end := pb + n * PAGE_SIZE;
    var e := end / PAGE_2MB;
    var va := (e + 1) * PAGE_2MB;
    assert end == e * PAGE_2MB + end % PAGE_2MB && va == WindowAddress(pb, n);
    QuotientUnique(va, PAGE_SIZE, (e + 1) * 512, 0);
    var h := q / PAGE_COUNT;
    assert q == h * PAGE_COUNT + page;
    assert (q + n) * PAGE_SIZE == end;
    assert q + n < (e + 1) * 512 <= q + n + 512;
    QuotientUnique((e + 1) * 512, PAGE_COUNT, h, (e + 1) * 512 - h * PAGE_COUNT);
    QuotientUnique((e + 1) * 512 - h * PAGE_COUNT, 512, e + 1 - h * 0x800_0000, 0);
  }

  /** Nothing the loader maps falls in a firmware slot or in the window, and
      the window lies in the image's page directory. */
  lemma PlacedFacts(pb: nat, pe: nat, tPg: nat, w: Window)
    requires Placed(pb, pe, tPg)
    requires w.va == WindowAddress(pb, KernelPages(pb, pe) + KERNEL_DATA_PAGE_COUNT) && w.total == tPg
    ensures var page, n := PageTables.PageOf(pb), KernelPages(pb, pe) + KERNEL_DATA_PAGE_COUNT;
            && AllWalkable(w, LowerHalf(), page, n)
            && Prefix(page, 2) == Prefix(page + n - 1, 2) && WindowInDirectory(w, page + n - 1)
            && Needed(page, n) + 500 <= tPg && tPg >= 1024 && tPg % ENTRIES == 0
            && w.va % PAGE_SIZE == 0
            && forall p: nat :: PageTables.PageOf(w.va) + tPg <= p < PAGE_COUNT ==> WalkableIn(w, LowerHalf(), p)
  {
    hide PageTables.PageOf, WindowAddress, KernelPages, Estimate, RoundTables, Needed, Image;
    var page, n := PageTables.PageOf(pb), KernelPages(pb, pe) + KERNEL_DATA_PAGE_COUNT;
    PlacedBounds(pb, pe, tPg);
    EstimateSuffices(page, KernelPages(pb, pe));
    hide Placed;
    WindowPage(pb, n);
    var v := PageTables.PageOf(w.va);
    SlotArithmetic(page, n, v, tPg);
    hide Prefix, Index, WalkableIn, WindowSlot;
    forall p: nat | page <= p < page + n ensures WalkableIn(w, LowerHalf(), p) {
      assert p / 512 < v / 512;
      WalkableOutside(w, p);
    }
    forall p: nat | v + tPg <= p < PAGE_COUNT ensures WalkableIn(w, LowerHalf(), p) {
      assert p / 512 >= v / 512 + tPg / 512;
      WalkableOutside(w, p);
    }
  }

  lemma WalkableOutside(w: Window, p: nat)
    requires p < PAGE_COUNT && Index(p, 0) >= 256
    requires p / 512 < PageTables.PageOf(w.va) / 512 || p / 512 >= PageTables.PageOf(w.va) / 512 + w.total / 512
    ensures WalkableIn(w, LowerHalf(), p)
  {
  }

  lemma PlacedBounds(pb: nat, pe: nat, tPg: nat)
    requires Placed(pb, pe, tPg)
    ensures pb < pe && pb % PAGE_SIZE == 0 && 0 < KernelPages(pb, pe) <= 0x4_0000
    ensures 0x8_0000_0000 <= PageTables.PageOf(pb) && PageTables.PageOf(pb) / 0x4_0000 < 0x4_0000
    ensures PageTables.PageOf(pb) + KernelPages(pb, pe) + KERNEL_DATA_PAGE_COUNT <= PAGE_COUNT
    ensures tPg == RoundTables(Estimate(PageTables.PageOf(pb), KernelPages(pb, pe)))
    ensures PageTables.PageOf(pb) + KernelPages(pb, pe) + KERNEL_DATA_PAGE_COUNT + 512 + tPg
            <= (Prefix(PageTables.PageOf(pb), 2) + 1) * 0x4_0000 <= PAGE_COUNT
  {
  }

  lemma SlotArithmetic(page: nat, n: nat, v: nat, t: nat)
    requires 0x8_0000_0000 <= page && 0 < n && v % 512 == 0 && page + n < v <= page + n + 512 && t % 512 == 0 && t > 0
    requires v + t <= (Prefix(page, 2) + 1) * 0x4_0000 && page / 0x4_0000 < 0x4_0000
    ensures Prefix(page, 2) == Prefix(page + n - 1, 2) == Prefix(v, 2)
    ensures Index(v, 2) + t / 512 <= 512
    ensures forall p: nat :: page <= p < PAGE_COUNT ==> Index(p, 0) >= 256
    ensures forall p: nat :: p < v ==> p / 512 < v / 512
    ensures forall p: nat :: v + t <= p ==> p / 512 >= v / 512 + t / 512
  {
    var d := page / 0x4_0000;
    QuotientUnique(page + n - 1, 0x4_0000, d, page + n - 1 - d * 0x4_0000);
    QuotientUnique(v, 0x4_0000, d, v - d * 0x4_0000);
    QuotientUnique(v / 512, 512, d, v / 512 - d * 512);
    forall p: nat | page <= p < PAGE_COUNT ensures Index(p, 0) >= 256 {
      assert p / 0x800_0000 >= 256 && p / 0x800_0000 < 512;
    }
  }

  lemma FreshPages(b: Builder)
    requires b.Standing(0, true)
    ensures Tree(b.Abs()) && Pages(b.Abs()) == map[]
  {
    forall p: nat | Walkable(b.Abs(), p) ensures Translate(b.Abs(), p).None? {
      NothingBelow(b.Abs(), p, 3);
    }
    assert forall p: nat :: p !in Pages(b.Abs());
  }

  /** What the kernel is handed: a valid walker whose meaning is the image, IDT
      and stack pages at the picked frames, all within one page directory, with
      its tables mapped at its own window and the range above it untouched. */
  ghost predicate HandedOver(pg: PageTables.Paging, pb: nat, pe: nat, frames: seq<nat>, nVa: nat)
    reads pg, pg.mem
    requires pb < pe && |frames| == KernelPages(pb, pe) + KERNEL_DATA_PAGE_COUNT
  {
    var page, n := PageTables.PageOf(pb), |frames|;
    && pg.Valid()
    && pg.tPg == RoundTables(Estimate(page, KernelPages(pb, pe))) && pg.tPg >= 1024 && pg.uPg + 500 <= pg.tPg
    && pg.uPg == Needed(page, n)
    && Pages(pg.Abs()) == BootPages(map[], page, frames, n)
    && Under(pg.Abs(), Prefix(page, 2))
    && pg.pml4 == WindowAddress(pb, n) && nVa == pg.pml4 + pg.tPg * PAGE_SIZE
    && TableFor(pg.Abs(), page + n - 1, 2).Some?
    && WindowMapped(pg.Abs(), TableFor(pg.Abs(), page + n - 1, 2).value,
                    Index(PageTables.PageOf(pg.pml4), 2), pg.tPg / ENTRIES)
    && forall p: nat :: PageTables.PageOf(pg.pml4) + pg.tPg <= p < PAGE_COUNT ==> WalkableIn(pg.Win(), pg.foreign, p)
  }

  method BuildTables(pb: nat, pe: nat, frames: array<nat>, cr3: seq<nat>, pml4: nat)
    returns (pg: PageTables.Paging, idt: nat, kSp: nat, nVa: nat)
    requires pb < pe && Placed(pb, pe, RoundTables(Estimate(PageTables.PageOf(pb), KernelPages(pb, pe))))
    requires frames.Length == KernelPages(pb, pe) + KERNEL_DATA_PAGE_COUNT
    requires forall i :: 0 <= i < frames.Length ==> frames[i] % PAGE_SIZE == 0
    requires |cr3| == ENTRIES && pml4 % PAGE_SIZE == 0 && pml4 <= WindowAddress(pb, frames.Length)
    ensures fresh(pg) && fresh(pg.mem) && HandedOver(pg, pb, pe, frames[..], nVa)
    ensures pg.vaToPa == pg.pml4 - pml4
    ensures idt == pb + KernelPages(pb, pe) * PAGE_SIZE && kSp == pb + frames.Length * PAGE_SIZE
  {
    hide Tree, Pages, Placed, WindowPart, TableFor, PageTables.PageOf, Builder.Standing, Prefix, Index, KernelPages,
      Estimate, RoundTables, Needed, BootPages, AllWalkable, WalkableIn, WindowInDirectory, WindowMapped, WindowAddress,
      Under, Image;
    ghost var page := PageTables.PageOf(pb);
    PlacedImage(pb, pe);
    var tPg := EstimateTables(pb, pe);
    var pml4Va := WindowAddress(pb, frames.Length);
    PlacedFacts(pb, pe, tPg, Window(pml4Va, pml4, tPg));
    var b := new Builder(pml4, tPg, cr3, pml4Va);
    FreshPages(b);
    idt, kSp := MapKernel(b, pb, pe, frames);
    ghost var q, s := page + frames.Length - 1, b.Abs();
    MapWindow(b, pml4Va, tPg, q);
    WindowPartFacts(b.Abs(), Pages(s), q, TableFor(s, q, 2).value, tPg / ENTRIES);
    UnderSame(s, b.Abs(), Prefix(page, 2));
    BuilderMemory(b);
    pg := new PageTables.Paging(b.mem, pml4Va, tPg, b.uPg, pml4Va - pml4, b.Abs());
    nVa := pml4Va + tPg * PAGE_SIZE;
  }

  lemma UnderSame(s: Tables, t: Tables, d: nat)
    requires Under(s, d) && t.u == s.u && t.labels == s.labels
    ensures Under(t, d)
  {
  }

  lemma PlacedImage(pb: nat, pe: nat)
    requires pb < pe && Placed(pb, pe, RoundTables(Estimate(PageTables.PageOf(pb), KernelPages(pb, pe))))
    ensures Image(pb, pe) && KernelPages(pb, pe) > 0
  {
  }

  lemma BuilderMemory(b: Builder)
    requires b.Laid()
    ensures b.Abs().w == b.w && b.Abs().u == b.uPg && b.Abs().foreign == b.foreign && b.w.pa == b.pml4
    ensures b.mem.Length0 == b.w.total && b.mem.Length1 == ENTRIES && |b.Abs().m| == b.w.total
    ensures forall t: nat, i: nat :: t < b.w.total && i < ENTRIES ==> |b.Abs().m[t]| == ENTRIES && b.Abs().m[t][i] == b.mem[t, i]
  {
  }

  lemma WindowPartFacts(s: Tables, m: map<nat, nat>, q: nat, t: nat, n: nat)
    requires WindowPart(s, m, q, t, n)
    ensures Tree(s) && Pages(s) == m && TableFor(s, q, 2) == Some(t)
    ensures WindowMapped(s, t, Index(PageTables.PageOf(s.w.va), 2), n)
  {
  }
}
