/** The loader's first page tables (src/uefi/main.c:391-405 and 455-524):
    built for consecutive pages with a cached index and table for each level
    instead of a full walk. */
module BootTables {
  import opened PageTree
  import opened Division
  import PageTables

  // ---- consecutive pages

  /** Between a page and the next, a level's index changes exactly when the
      prefix below it does; the page-table index always changes. */
  lemma NextIndex(q: nat, level: nat)
    requires q + 1 < PAGE_COUNT && level < 3
    ensures Index(q + 1, level) != Index(q, level) <==> Prefix(q + 1, level + 1) != Prefix(q, level + 1)
    ensures Prefix(q, level + 1) <= Prefix(q + 1, level + 1) <= Prefix(q, level + 1) + 1
    ensures Index(q + 1, 3) != Index(q, 3)
  {
    PrefixStep(q, level);
    PrefixStep(q + 1, level);
    PrefixNext(q, level);
    PrefixNext(q, level + 1);
    NextQuotient(q, 512);
  }

  lemma PrefixNext(q: nat, level: nat)
    requires level <= 3
    ensures Prefix(q, level) <= Prefix(q + 1, level) <= Prefix(q, level) + 1
  {
    NextQuotient(q, 0x800_0000);
    NextQuotient(q, 0x4_0000);
    NextQuotient(q, 512);
  }

  lemma {:induction false} SamePrefixSameTable(s: Tables, p: nat, q: nat, level: nat)
    requires p < PAGE_COUNT && q < PAGE_COUNT && level <= 3 && Prefix(p, level) == Prefix(q, level)
    ensures TableFor(s, p, level) == TableFor(s, q, level)
    decreases level
  {
    if level > 0 {
      PrefixStep(p, level - 1);
      PrefixStep(q, level - 1);
      ServedSlot(Prefix(p, level), Prefix(p, level - 1), Index(p, level - 1));
      ServedSlot(Prefix(q, level), Prefix(q, level - 1), Index(q, level - 1));
      SamePrefixSameTable(s, p, q, level - 1);
    }
  }

  /** Every table in use serves pages up to q, and q's own tables exist. */
  ghost predicate UpTo(s: Tables, q: nat) {
    && Tree(s) && Walkable(s, q) && TableFor(s, q, 3).Some?
    && forall n: nat :: n < s.u ==> s.labels[n].prefix <= Prefix(q, s.labels[n].level)
  }

  /** A fresh tree: the PML4 alone, with no entry the tree owns. */
  ghost predicate Fresh(s: Tables) {
    Tree(s) && s.u == 1 && forall i: nat :: i < ENTRIES && i !in s.foreign ==> !Present(s.m[0][i])
  }

  /** For the page after q, a table is missing exactly at the levels whose
      prefix has changed. */
  lemma NextPageMissing(s: Tables, q: nat, level: nat)
    requires UpTo(s, q) && Walkable(s, q + 1) && 0 < level <= 3
    ensures TableFor(s, q + 1, level).None? <==> Prefix(q + 1, level) != Prefix(q, level)
    ensures Prefix(q + 1, level) == Prefix(q, level) ==> TableFor(s, q + 1, level) == TableFor(s, q, level)
  {
    NextIndex(q, level - 1);
    if Prefix(q + 1, level) == Prefix(q, level) {
      SamePrefixSameTable(s, q + 1, q, level);
      TableAbove(s, q, level);
    } else if TableFor(s, q + 1, level).Some? {
      WalkLabel(s, q + 1, level);
    }
  }

  /** A walk that reaches the last level reaches every level above it. */
  lemma {:induction false} TableAbove(s: Tables, q: nat, level: nat)
    requires level <= 3 && TableFor(s, q, 3).Some?
    ensures TableFor(s, q, level).Some?
    decreases 3 - level
  {
    if level < 3 { TableAbove(s, q, level + 1); }
  }

  /** The tree before page p is added: fresh, or built up to the page before. */
  ghost predicate Ready(s: Tables, p: nat, first: bool) {
    && Walkable(s, p)
    && if first then Fresh(s) else p > 0 && UpTo(s, p - 1)
  }

  /** The cached index differs at a level exactly when the table below is
      missing; when it does not, the cached table is the one the walk finds. */
  lemma CachedLevel(s: Tables, p: nat, first: bool, level: nat)
    requires Ready(s, p, first) && level < 3
    ensures TableFor(s, p, level + 1).None? <==> first || Index(p, level) != Index(p - 1, level)
    ensures TableFor(s, p, level + 1).Some? ==>
              TableFor(s, p, level + 1) == TableFor(s, p - 1, level + 1)
  {
    if first {
      NothingBelow(s, p, level + 1);
    } else {
      NextIndex(p - 1, level);
      NextPageMissing(s, p - 1, level + 1);
    }
  }

  lemma {:induction false} NothingBelow(s: Tables, p: nat, level: nat)
    requires Fresh(s) && Walkable(s, p) && 0 < level <= 3
    ensures TableFor(s, p, level).None?
    decreases level
  {
    if level > 1 {
      NothingBelow(s, p, level - 1);
    } else {
      assert TableFor(s, p, 0) == Some(0);
    }
  }

  /** Labels up to p: no table in use serves a later page. */
  ghost predicate LabelsUpTo(s: Tables, p: nat)
    requires Shape(s)
  {
    forall n: nat :: n < s.u ==> s.labels[n].prefix <= Prefix(p, s.labels[n].level)
  }

  lemma ReadyLabels(s: Tables, p: nat, first: bool)
    requires Ready(s, p, first)
    ensures LabelsUpTo(s, p)
  {
    if !first {
      forall n: nat | n < s.u ensures s.labels[n].prefix <= Prefix(p, s.labels[n].level) {
        assert s.labels[n].prefix <= Prefix(p - 1, s.labels[n].level);
      }
    }
  }

  lemma {:induction false} GrowLabels(s: Tables, p: nat, level: nat)
    requires Tree(s) && Walkable(s, p) && level <= 3 && s.u + Missing(s, p, level) <= s.w.total
    requires LabelsUpTo(s, p)
    ensures LabelsUpTo(Grow(s, p, level), p)
    decreases level
  {
    if level > 0 {
      GrowLabels(s, p, level - 1);
      GrowStep(s, p, level - 1);
      PrefixStep(p, level - 1);
    }
  }

  /** Once page p is mapped the tree is built up to p. */
  lemma MapPageUpTo(s: Tables, p: nat, first: bool, pa: nat)
    requires Ready(s, p, first) && s.u + Missing(s, p, 3) <= s.w.total && pa % PAGE_SIZE == 0
    ensures UpTo(MapPage(s, p, pa), p)
    ensures forall level: nat :: level <= 3 ==> TableFor(MapPage(s, p, pa), p, level) == TableFor(Grow(s, p, 3), p, level)
  {
    hide Tree, Grow;
    ReadyLabels(s, p, first);
    GrowLabels(s, p, 3);
    var g := Grow(s, p, 3);
    var t := TableFor(g, p, 3).value;
    WalkLabel(g, p, 3);
    MapPageAddsOne(s, p, pa);
    forall level: nat | level <= 3
      ensures TableFor(MapPage(s, p, pa), p, level) == TableFor(g, p, level)
    {
      WritePageWalk(g, t, Index(p, 3), pa + 3, p, level);
    }
  }

  /** What one level of the inner loop finds and does, with the tree grown to
      level k for page p. */
  lemma DescendStep(s: Tables, p: nat, first: bool, k: nat)
    requires Ready(s, p, first) && s.u + Missing(s, p, 3) <= s.w.total && k < 3
    ensures Tree(s) && Walkable(s, p) && Missing(s, p, k + 1) <= Missing(s, p, 3)
    ensures var g, t, i := Grow(s, p, k), TableFor(Grow(s, p, k), p, k).value, Index(p, k);
            && t < g.u <= |g.m| == s.w.total && t < |g.labels| && i < |g.m[t]| && g.w == s.w
            && (first || i != Index(p - 1, k) ==>
                  g.u < s.w.total && Grow(s, p, k + 1) == Install(g, t, i)
                  && TableFor(Grow(s, p, k + 1), p, k + 1) == Some(g.u))
            && (!first && i == Index(p - 1, k) ==>
                  Grow(s, p, k + 1) == g && TableFor(g, p, k + 1).Some?
                  && TableFor(g, p, k + 1) == TableFor(s, p - 1, k + 1))
  {
    CachedLevel(s, p, first, k);
    assert Tree(s) && Missing(s, p, k + 1) <= Missing(s, p, 3);
    GrowStep(s, p, k);
    var g, i := Grow(s, p, k), Index(p, k);
    var t := TableFor(g, p, k).value;
    assert Shape(g) && t < g.u <= |g.m| && i < |g.m[t]|;
    hide Downward, Upward, Distinct, UnusedZero;
    if first || i != Index(p - 1, k) {
      if Present(g.m[t][i]) { PresentEntryExtends(g, p, k); }
      InstallNew(g, t, i);
    } else {
      NothingToGrow(s, p, k + 1);
    }
  }

  /** A walk that already reaches a level grows nothing down to it. */
  lemma {:induction false} NothingToGrow(s: Tables, p: nat, level: nat)
    requires Tree(s) && Walkable(s, p) && level <= 3 && s.u + Missing(s, p, level) <= s.w.total
    requires TableFor(s, p, level).Some?
    ensures Grow(s, p, level) == s && (level > 0 ==> Grow(s, p, level - 1) == s)
  {
  }

  /** The tables already on the walk stay where they are. */
  lemma GrowKeepsUpper(s: Tables, p: nat, first: bool, k: nat, j: nat)
    requires Ready(s, p, first) && s.u + Missing(s, p, 3) <= s.w.total && j <= k < 3
    ensures Tree(s) && Walkable(s, p)
    ensures TableFor(Grow(s, p, k), p, j).Some? ==>
              TableFor(Grow(s, p, k + 1), p, j) == TableFor(Grow(s, p, k), p, j)
  {
    DescendStep(s, p, first, k);
    GrowStep(s, p, k);
    var g, i := Grow(s, p, k), Index(p, k);
    var t := TableFor(g, p, k).value;
    if !Present(g.m[t][i]) { InstallWalk(g, t, i, p, j); }
  }

  // ---- how many tables consecutive pages take

  /** Tables in use once n consecutive pages from `page` are mapped: the PML4
      and, for each level below, one for every prefix met. */
  function Needed(page: nat, n: nat): nat {
    if n == 0 then 1
    else
      var last := page + n - 1;
      1 + Span(page, last, 1) + Span(page, last, 2) + Span(page, last, 3)
  }

  function Span(page: nat, last: nat, level: nat): nat {
    if Prefix(last, level) < Prefix(page, level) then 0 else Prefix(last, level) - Prefix(page, level) + 1
  }

  lemma GapIs(s: Tables, page: nat, n: nat, level: nat)
    requires Ready(s, page + n, n == 0) && 0 < level <= 3
    ensures Gap(s, page + n, level) + (if n == 0 then 0 else Span(page, page + n - 1, level)) ==
            Span(page, page + n, level)
  {
    hide Ready, TableFor, Prefix, Index;
    CachedLevel(s, page + n, n == 0, level - 1);
    PrefixMonotone(page, page + n, level);
    if n > 0 {
      ReadyBounds(s, page + n);
      NextIndex(page + n - 1, level - 1);
      PrefixMonotone(page, page + n - 1, level);
    }
  }

  lemma ReadyBounds(s: Tables, p: nat)
    requires Ready(s, p, false)
    ensures 0 < p < PAGE_COUNT
  {
  }

  lemma PrefixMonotone(p: nat, q: nat, level: nat)
    requires p <= q
    ensures Prefix(p, level) <= Prefix(q, level)
  {
  }

  lemma MissingCount(s: Tables, page: nat, n: nat)
    requires Ready(s, page + n, n == 0)
    ensures Needed(page, n) + Missing(s, page + n, 3) == Needed(page, n + 1)
  {
    hide TableFor, Ready, Prefix, Span, Gap;
    GapIs(s, page, n, 1);
    GapIs(s, page, n, 2);
    GapIs(s, page, n, 3);
    MissingIsGaps(s, page + n);
    hide Missing;
  }

  lemma MissingIsGaps(s: Tables, p: nat)
    ensures Missing(s, p, 3) == Gap(s, p, 1) + Gap(s, p, 2) + Gap(s, p, 3)
  {
    assert Missing(s, p, 1) == Gap(s, p, 1);
    assert Missing(s, p, 2) == Missing(s, p, 1) + Gap(s, p, 2);
    assert Missing(s, p, 3) == Missing(s, p, 2) + Gap(s, p, 3);
  }

  function Gap(s: Tables, p: nat, level: nat): nat {
    if TableFor(s, p, level).None? then 1 else 0
  }

  // ---- the loader's cursor

  const NO_INDEX: nat := 0xffff
  const LEAF_FLAGS: nat := 3

  function IndexAt(va: nat, k: nat): nat {
    match k
    case 0 => PageTables.Pml4Index(va)
    case 1 => PageTables.PdpIndex(va)
    case 2 => PageTables.PdIndex(va)
    case _ => PageTables.PtIndex(va)
  }

  /** The PML4 slots of the lower half, which keep the firmware's tables. */
  ghost function LowerHalf(): set<nat> { SlotsBelow(ENTRIES / 2) }

  function SlotsBelow(n: nat): (r: set<nat>)
    ensures forall i: nat :: i in r <==> i < n
  {
    if n == 0 then {} else SlotsBelow(n - 1) + {n - 1}
  }

  /** tables[k] is the address of the table for page p at level k. */
  predicate Holds(tables: seq<nat>, s: Tables, p: nat, k: nat) {
    k < |tables| && TableFor(s, p, k).Some? && tables[k] == s.w.pa + TableFor(s, p, k).value * TABLE_SIZE
  }

  /** The loader's cursor over the table memory at physical address pml4: for
      each level the last index used (li) and the table it was used in (pt). */
  class Builder {
    const mem: array2<nat>
    const pml4: nat
    var uPg: nat
    const li: array<nat>
    const pt: array<nat>
    ghost const w: Window
    ghost const foreign: set<nat>
    ghost var m: seq<seq<nat>>
    ghost var labels: seq<Label>
    ghost var parent: seq<nat>

    ghost function Abs(): Tables
      reads this
    {
      Tables(w, foreign, m, uPg, labels, parent)
    }

    ghost predicate Laid()
      reads this, mem
    {
      && li.Length == 4 && pt.Length == 4 && li != pt
      && w.pa == pml4
      && mem.Length0 == w.total == |m| && mem.Length1 == ENTRIES
      && (forall t: nat :: t < |m| ==> |m[t]| == ENTRIES)
      && forall t: nat, i: nat :: t < w.total && i < ENTRIES ==> m[t][i] == mem[t, i]
    }

    /** The zeroed tables with the firmware's lower half copied in
        (main.c:457-468). */
    constructor (pml4: nat, tPg: nat, cr3: seq<nat>, ghost va: nat)
      requires tPg > 0 && pml4 % TABLE_SIZE == 0 && |cr3| == ENTRIES
      ensures Standing(0, true) && w == Window(va, pml4, tPg) && foreign == LowerHalf()
      ensures this.pml4 == pml4 && fresh(mem) && fresh(li) && fresh(pt)
    {
      this.pml4 := pml4;
      mem := new nat[tPg, ENTRIES]((t, i) => 0);
      li := new nat[4](_ => NO_INDEX);
      pt := new nat[4](_ => pml4);
      uPg := 1;
      w := Window(va, pml4, tPg);
      foreign := LowerHalf();
      labels, parent := [Label(0, 0)], [0];
      m := seq(tPg, t => seq(ENTRIES, i => 0));
      new;
      var i: nat := 0;
      while i < ENTRIES / 2
        invariant i <= ENTRIES / 2 && Laid() && uPg == 1 && labels == [Label(0, 0)] && parent == [0]
        invariant forall t: nat, j: nat :: t < tPg && j < ENTRIES && (t > 0 || j >= i) ==> m[t][j] == 0
        invariant li[..] == [NO_INDEX, NO_INDEX, NO_INDEX, NO_INDEX] && pt[0] == pml4
      {
        Write(pml4, i, cr3[i]);
        i := i + 1;
      }
    }

    /** Levels below k have moved on to page p, in a tree grown that far from
        s; the others still stand at the page before, q. */
    ghost predicate At(s: Tables, p: nat, q: nat, first: bool, k: nat)
      reads this, mem, li, pt
    {
      && Laid() && k <= 3 && (!first ==> p == q + 1)
      && Ready(s, p, first) && s.u + Missing(s, p, 3) <= s.w.total
      && Tree(s) && Walkable(s, p) && Missing(s, p, k) <= Missing(s, p, 3)
      && Abs() == Grow(s, p, k)
      && (forall j: nat :: j < k ==> li[j] == Index(p, j))
      && (forall j: nat :: k <= j < 4 ==> li[j] == if first then NO_INDEX else Index(q, j))
      && (forall j: nat :: j <= k ==> Holds(pt[..], Abs(), p, j))
      && (!first ==> forall j: nat :: k < j < 4 ==> Holds(pt[..], s, q, j))
    }

    method Write(tva: nat, i: nat, e: nat)
      requires Laid() && tva >= pml4 && (tva - pml4) / TABLE_SIZE < w.total && i < ENTRIES
      modifies this`m, mem
      ensures Laid()
      ensures Abs() == WriteEntry(old(Abs()), (tva - pml4) / TABLE_SIZE, i, e)
    {
      ghost var n := (tva - pml4) / TABLE_SIZE;
      mem[(tva - pml4) / TABLE_SIZE, i] := e;
      ghost var row: seq<nat> := m[n][i := e];
      m := m[n := row];
    }

    /** Takes the next table for entry l of table t at level k. */
    method TakeTable(k: nat, l: nat, ghost t: nat)
      requires Laid() && k < 3 && l < ENTRIES && t < w.total && t < |labels|
      requires pt[k] == pml4 + t * TABLE_SIZE && Shape(Abs()) && t < uPg
      modifies this`uPg, this`m, this`labels, this`parent, mem, li, pt
      ensures Laid() && Abs() == Install(old(Abs()), t, l)
      ensures li[..] == old(li[..])[k := l]
      ensures pt[..] == old(pt[..])[k + 1 := pml4 + old(uPg) * TABLE_SIZE]
    {
      var tva := pt[k];
      QuotientUnique(tva - pml4, TABLE_SIZE, t, 0);
      li[k] := l;
      pt[k + 1] := pml4 + uPg * TABLE_SIZE;
      Write(tva, l, pt[k + 1] + 3);
      labels := labels + [Label(labels[t].level + 1, labels[t].prefix * 512 + l)];
      parent := parent + [t];
      uPg := uPg + 1;
    }

    /** One level of the inner loop (main.c:471-479). */
    method Descend(va: nat, k: nat, ghost s: Tables, ghost p: nat, ghost q: nat, ghost first: bool)
      requires At(s, p, q, first, k) && k < 3 && p == PageTables.PageOf(va)
      modifies this`uPg, this`m, this`labels, this`parent, mem, li, pt
      ensures At(s, p, q, first, k + 1)
    {
      hide Grow, Ready, TableFor, Missing, Install;
      PageTables.IndicesOfAddress(va);
      DescendStep(s, p, first, k);
      forall j: nat | j <= k ensures TableFor(Grow(s, p, k + 1), p, j) == TableFor(Grow(s, p, k), p, j) {
        assert Holds(pt[..], Abs(), p, j);
        GrowKeepsUpper(s, p, first, k, j);
      }
      var l := IndexAt(va, k);
      ghost var was, g := pt[..], Abs();
      assert Holds(was, g, p, k);
      assert Shape(g);
      hide Tree;
      if li[k] != l {
        TakeTable(k, l, TableFor(g, p, k).value);
      } else {
        assert Holds(was, s, q, k + 1);
      }
      assert Abs() == Grow(s, p, k + 1);
      forall j: nat | j <= k ensures Holds(pt[..], Abs(), p, j) { assert Holds(was, g, p, j); }
      forall j: nat | k + 1 < j < 4 && !first ensures Holds(pt[..], s, q, j) { assert Holds(was, s, q, j); }
    }

    /** The cursor stands at page q, the last one mapped, or has not started. */
    ghost predicate Standing(q: nat, first: bool)
      reads this, mem, li, pt
    {
      && Laid()
      && (forall j: nat :: j < 4 ==> li[j] == if first then NO_INDEX else Index(q, j))
      && (if first then Fresh(Abs()) && pt[0] == pml4
          else UpTo(Abs(), q) && forall j: nat :: j < 4 ==> Holds(pt[..], Abs(), q, j))
    }

    /** One page of the outer loop (main.c:470-485): the cached cursor leaves
        what a full walk would. */
    method AddPage(va: nat, pa: nat, ghost q: nat, ghost first: bool)
      requires Standing(q, first) && (!first ==> PageTables.PageOf(va) == q + 1)
      requires WalkableIn(w, foreign, PageTables.PageOf(va)) && pa % PAGE_SIZE == 0
      requires uPg + Missing(Abs(), PageTables.PageOf(va), 3) <= w.total
      modifies this`uPg, this`m, this`labels, this`parent, mem, li, pt
      ensures Standing(PageTables.PageOf(va), false)
      ensures old(Tree(Abs())) && Abs() == MapPage(old(Abs()), PageTables.PageOf(va), pa)
    {
      ghost var s, p := Abs(), PageTables.PageOf(va);
      AtStart(p, q, first);
      hide *;
      Descend(va, 0, s, p, q, first);
      Descend(va, 1, s, p, q, first);
      Descend(va, 2, s, p, q, first);
      WriteLeaf(va, pa, s, p, q, first);
    }

    /** Stores the entry of the last level in table t, at an index the cursor
        is not at. */
    method StoreLeaf(l: nat, e: nat, ghost t: nat)
      requires Laid() && l < ENTRIES && t < w.total && pt[3] == pml4 + t * TABLE_SIZE && li[3] != l
      requires HasEntry(m, t, l)
      modifies this`m, mem, li
      ensures Laid() && Abs() == WriteEntry(old(Abs()), t, l, e)
      ensures li[..] == old(li[..])[3 := l]
    {
      li[3] := l;
      QuotientUnique(pt[3] - pml4, TABLE_SIZE, t, 0);
      Write(pt[3], l, e);
    }

    /** What the last level finds: its index moves, and its table is in use. */
    lemma AtLeaf(s: Tables, p: nat, q: nat, first: bool, pa: nat)
      requires At(s, p, q, first, 3) && pa % PAGE_SIZE == 0
      ensures Laid() && li[3] != Index(p, 3) && Tree(s) && TableFor(Abs(), p, 3).Some?
      ensures var t := TableFor(Abs(), p, 3).value;
              && t < w.total && pt[3] == pml4 + t * TABLE_SIZE && HasEntry(m, t, Index(p, 3))
              && MapPage(s, p, pa) == WriteEntry(Abs(), t, Index(p, 3), pa + 3)
    {
      hide Grow, Ready, Missing;
      LeafIndexMoves(s, p, q, first);
      WalkLabel(Grow(s, p, 3), p, 3);
      assert Holds(pt[..], Abs(), p, 3);
    }

    /** The last level (main.c:480-483). */
    method WriteLeaf(va: nat, pa: nat, ghost s: Tables, ghost p: nat, ghost q: nat, ghost first: bool)
      requires At(s, p, q, first, 3) && p == PageTables.PageOf(va) && pa % PAGE_SIZE == 0
      modifies this`m, mem, li
      ensures Standing(p, false)
      ensures Tree(s) && Abs() == MapPage(s, p, pa)
    {
      hide Grow, Ready, Missing, UpTo, Tree, TableFor, MapPage;
      PageTables.IndicesOfAddress(va);
      MapPageUpTo(s, p, first, pa);
      AtLeaf(s, p, q, first, pa);
      ghost var was, g := pt[..], Abs();
      var l := IndexAt(va, 3);
      if li[3] != l {
        StoreLeaf(l, pa + LEAF_FLAGS, TableFor(g, p, 3).value);
      }
      forall j: nat | j < 4 ensures Holds(pt[..], Abs(), p, j) { assert Holds(was, g, p, j); }
    }

    lemma AtStart(p: nat, q: nat, first: bool)
      requires Standing(q, first) && (!first ==> p == q + 1) && WalkableIn(w, foreign, p)
      requires uPg + Missing(Abs(), p, 3) <= w.total
      ensures At(Abs(), p, q, first, 0)
    {
      var s := Abs();
      assert Ready(s, p, first) && Tree(s) && Walkable(s, p);
      hide Tree, UpTo, Fresh;
      assert TableFor(s, p, 0) == TableFor(s, q, 0) == Some(0);
      assert first || Holds(pt[..], s, q, 0);
      assert Grow(s, p, 0) == s;
    }
  }

  lemma LeafIndexMoves(s: Tables, p: nat, q: nat, first: bool)
    requires Ready(s, p, first) && (!first ==> p == q + 1)
    ensures !first ==> Index(q, 3) != Index(p, 3)
    ensures Index(p, 3) != NO_INDEX
  {
    if !first { NextIndex(q, 0); }
  }
}
