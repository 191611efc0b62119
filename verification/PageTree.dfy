/** The 4-level page-table tree as a value: the 512-entry tables of one window,
    and what a walk over them means. Table 0 is the PML4. */
module PageTree {
  import opened Division
  const ENTRIES: nat := 512
  const TABLE_SIZE: nat := 4096
  const PAGE_SIZE: nat := 4096
  /** Pages of a 48-bit address space. */
  const PAGE_COUNT: nat := 0x10_0000_0000

  datatype Option<+T> = None | Some(value: T)

  /** Where the tables live: kernel address and physical address of table 0,
      and the number of tables reserved. */
  datatype Window = Window(va: nat, pa: nat, total: nat)

  /** The walk position a table serves: its level (0 the PML4, 3 a page table)
      and the page-number prefix that leads to it. */
  datatype Label = Label(level: nat, prefix: nat)

  /** w: the window; foreign: PML4 slots that hold firmware tables; m: the
      entries of all tables; u: the number of tables in use; labels and parent:
      for each table in use, the position it serves and the table that holds
      the entry naming it. */
  datatype Tables = Tables(w: Window, foreign: set<nat>, m: seq<seq<nat>>, u: nat,
                           labels: seq<Label>, parent: seq<nat>)

  // ---- entries

  predicate Present(e: nat) { e % 2 == 1 }

  function TableAddress(e: nat): nat { e - e % 512 }

  function PageAddress(e: nat): nat { e - e % 4096 }

  predicate PointsTo(w: Window, e: nat, n: nat) {
    Present(e) && TableAddress(e) == w.pa + n * TABLE_SIZE
  }

  // ---- positions

  /** The table index used at each level (bits 47-39, 38-30, 29-21, 20-12). */
  function Index(p: nat, level: nat): (i: nat)
    ensures i < ENTRIES
  {
    (match level case 0 => p / 0x800_0000 case 1 => p / 0x4_0000 case 2 => p / 512 case _ => p) % 512
  }

  function Prefix(p: nat, level: nat): nat {
    match level case 0 => 0 case 1 => p / 0x800_0000 case 2 => p / 0x4_0000 case _ => p / 512
  }

  lemma PrefixStep(p: nat, level: nat)
    requires p < PAGE_COUNT && level < 3
    ensures Prefix(p, level + 1) == Prefix(p, level) * 512 + Index(p, level)
  {
  }

  lemma PrefixDeterminesPage(p: nat, q: nat)
    requires Prefix(p, 3) == Prefix(q, 3) && Index(p, 3) == Index(q, 3)
    ensures p == q
  {
  }

  /** A page-directory slot (page number / 512) inside the window: it is mapped
      by a 2MB entry and has no page table. */
  predicate WindowSlot(w: Window, s: nat) {
    w.va / PAGE_SIZE % PAGE_COUNT / 512 <= s < w.va / PAGE_SIZE % PAGE_COUNT / 512 + w.total / 512
  }

  /** The pages the walker addresses: below no firmware slot and outside the
      window. */
  predicate WalkableIn(w: Window, foreign: set<nat>, p: nat) {
    p < PAGE_COUNT && Index(p, 0) !in foreign && !WindowSlot(w, p / 512)
  }

  predicate Walkable(s: Tables, p: nat) {
    WalkableIn(s.w, s.foreign, p)
  }

  // ---- the walk

  predicate HasEntry(m: seq<seq<nat>>, t: nat, i: nat) {
    t < |m| && i < |m[t]|
  }

  /** The table an entry leads to, if the entry is present. */
  function Next(s: Tables, t: nat, i: nat): Option<nat> {
    if !HasEntry(s.m, t, i) || !Present(s.m[t][i]) || TableAddress(s.m[t][i]) < s.w.pa then None
    else Some((TableAddress(s.m[t][i]) - s.w.pa) / TABLE_SIZE)
  }

  /** The table of a given level on the walk to page p. */
  function TableFor(s: Tables, p: nat, level: nat): Option<nat>
    decreases level
  {
    if level == 0 then Some(0)
    else match TableFor(s, p, level - 1)
      case None => None
      case Some(t) => Next(s, t, Index(p, level - 1))
  }

  /** The physical address page p is mapped to. */
  function Translate(s: Tables, p: nat): Option<nat> {
    match TableFor(s, p, 3)
    case None => None
    case Some(t) =>
      if HasEntry(s.m, t, Index(p, 3)) && Present(s.m[t][Index(p, 3)])
      then Some(PageAddress(s.m[t][Index(p, 3)])) else None
  }

  /** The meaning of the tables: a partial map from walkable pages to physical
      addresses. */
  ghost function Pages(s: Tables): map<nat, nat> {
    map p: nat | p < PAGE_COUNT && Walkable(s, p) && Translate(s, p).Some? :: Translate(s, p).value
  }

  lemma PagesAre(s: Tables, r: map<nat, nat>)
    requires forall p: nat :: p in r <==> Walkable(s, p) && Translate(s, p).Some?
    requires forall p: nat :: p in r ==> r[p] == Translate(s, p).value
    ensures Pages(s) == r
  {
    assert forall p: nat :: p in r <==> p in Pages(s);
  }

  // ---- the invariant

  /** Slots the tree does not own: firmware slots of the PML4 and the 2MB slots
      of the window. */
  predicate OutsideSlot(s: Tables, l: Label, i: nat) {
    || (l.level == 0 && i in s.foreign)
    || (l.level == 2 && WindowSlot(s.w, l.prefix * 512 + i))
  }

  predicate Shape(s: Tables) {
    && |s.m| == s.w.total
    && (forall t: nat :: t < |s.m| ==> |s.m[t]| == ENTRIES)
    && 1 <= s.u <= s.w.total
    && |s.labels| == |s.parent| == s.u
    && s.labels[0] == Label(0, 0)
    && s.w.pa % TABLE_SIZE == 0
  }

  /** Entry i of table t names a used table that serves exactly that slot. */
  predicate LeadsDown(s: Tables, t: nat, i: nat)
    requires Shape(s) && t < s.u && i < ENTRIES
  {
    match Next(s, t, i)
    case None => false
    case Some(n) =>
      && 0 < n < s.u
      && s.labels[n] == Label(s.labels[t].level + 1, s.labels[t].prefix * 512 + i)
      && PointsTo(s.w, s.m[t][i], n)
  }

  /** Every present entry the tree owns, above the last level, leads down. */
  ghost predicate Downward(s: Tables)
    requires Shape(s)
  {
    forall t: nat, i: nat {:trigger LeadsDown(s, t, i)} ::
      (t < s.u && i < ENTRIES && s.labels[t].level < 3 && !OutsideSlot(s, s.labels[t], i)
       && Present(s.m[t][i])) ==> LeadsDown(s, t, i)
  }

  /** The table that holds the entry naming used table n, and that entry. */
  predicate NamedByParent(s: Tables, n: nat)
    requires Shape(s) && 0 < n < s.u
  {
    && s.parent[n] < s.u
    && s.labels[n].level == s.labels[s.parent[n]].level + 1 <= 3
    && s.labels[n].prefix / 512 == s.labels[s.parent[n]].prefix
    && PointsTo(s.w, s.m[s.parent[n]][s.labels[n].prefix % 512], n)
    && !OutsideSlot(s, s.labels[s.parent[n]], s.labels[n].prefix % 512)
  }

  /** Every used table but the PML4 is named by its parent's entry. */
  ghost predicate Upward(s: Tables)
    requires Shape(s)
  {
    forall n: nat :: 0 < n < s.u ==> NamedByParent(s, n)
  }

  ghost predicate Distinct(s: Tables)
    requires Shape(s)
  {
    forall t: nat, n: nat :: t < n < s.u ==> s.labels[t] != s.labels[n]
  }

  ghost predicate UnusedZero(s: Tables)
    requires Shape(s)
  {
    forall t: nat, i: nat :: s.u <= t < |s.m| && i < ENTRIES ==> s.m[t][i] == 0
  }

  /** Present and writable, with no other flag: no large page, say. */
  predicate Plain(e: nat) { e % PAGE_SIZE == 3 }

  /** So is every present entry the tree owns. */
  ghost predicate Flagged(s: Tables)
    requires Shape(s)
  {
    forall t: nat, i: nat {:trigger Plain(s.m[t][i])} ::
      t < s.u && i < ENTRIES && !OutsideSlot(s, s.labels[t], i) && Present(s.m[t][i]) ==> Plain(s.m[t][i])
  }

  ghost predicate Tree(s: Tables) {
    Shape(s) && Downward(s) && Upward(s) && Distinct(s) && UnusedZero(s) && Flagged(s)
  }

  // ---- walks in a tree

  /** A walk stays among the used tables, each serving its own position. */
  lemma {:induction false} WalkLabel(s: Tables, p: nat, level: nat)
    requires Tree(s) && Walkable(s, p) && level <= 3
    requires TableFor(s, p, level).Some?
    ensures TableFor(s, p, level).value < s.u
    ensures s.labels[TableFor(s, p, level).value] == Label(level, Prefix(p, level))
    ensures level < 3 ==> !OutsideSlot(s, s.labels[TableFor(s, p, level).value], Index(p, level))
    decreases level
  {
    if level > 0 {
      WalkLabel(s, p, level - 1);
      PrefixStep(p, level - 1);
      assert LeadsDown(s, TableFor(s, p, level - 1).value, Index(p, level - 1));
    }
    if level < 3 { PrefixStep(p, level); }
  }

  /** Two different pages never share a page-table entry. */
  lemma DistinctEntries(s: Tables, p: nat, q: nat)
    requires Tree(s) && Walkable(s, p) && Walkable(s, q) && p != q
    requires TableFor(s, p, 3).Some? && TableFor(s, q, 3).Some?
    ensures (TableFor(s, p, 3).value, Index(p, 3)) != (TableFor(s, q, 3).value, Index(q, 3))
  {
    WalkLabel(s, p, 3);
    WalkLabel(s, q, 3);
    if Index(p, 3) == Index(q, 3) && Prefix(p, 3) == Prefix(q, 3) {
      PrefixDeterminesPage(p, q);
    }
  }

  /** Each used table is named by exactly one entry the tree owns. */
  lemma UniqueParent(s: Tables, t: nat, i: nat, t': nat, i': nat)
    requires Tree(s) && t < s.u && t' < s.u && i < ENTRIES && i' < ENTRIES
    requires s.labels[t].level < 3 && s.labels[t'].level < 3
    requires !OutsideSlot(s, s.labels[t], i) && !OutsideSlot(s, s.labels[t'], i')
    requires Next(s, t, i).Some? && Next(s, t, i) == Next(s, t', i')
    ensures t == t' && i == i'
  {
    assert LeadsDown(s, t, i) && LeadsDown(s, t', i');
    ServedSlot(s.labels[Next(s, t, i).value].prefix, s.labels[t].prefix, i);
    ServedSlot(s.labels[Next(s, t, i).value].prefix, s.labels[t'].prefix, i');
    assert s.labels[t] == s.labels[t'];
  }

  // ---- the two ways the tree changes

  ghost function WriteEntry(s: Tables, t: nat, i: nat, v: nat): (r: Tables)
    requires HasEntry(s.m, t, i)
  {
    var row: seq<nat> := s.m[t][i := v];
    s.(m := s.m[t := row])
  }

  /** The entry a freshly taken table n is stored with: its physical address,
      read-write, present. */
  function TableEntry(w: Window, n: nat): nat { w.pa + n * TABLE_SIZE + 3 }

  lemma TableEntryDecodes(w: Window, n: nat)
    requires w.pa % TABLE_SIZE == 0
    ensures Present(TableEntry(w, n)) && TableAddress(TableEntry(w, n)) == w.pa + n * TABLE_SIZE
    ensures Plain(TableEntry(w, n))
    ensures (w.pa + n * TABLE_SIZE - w.pa) / TABLE_SIZE == n
  {
    var k := w.pa / TABLE_SIZE + n;
    QuotientUnique(TableEntry(w, n), 512, 8 * k, 3);
    QuotientUnique(TableEntry(w, n), PAGE_SIZE, k, 3);
    QuotientUnique(TableEntry(w, n), 2, 2048 * k + 1, 1);
  }

  ghost function Install(s: Tables, t: nat, i: nat): (r: Tables)
    requires Shape(s) && t < s.u && i < ENTRIES
  {
    WriteEntry(s, t, i, TableEntry(s.w, s.u)).(
      u := s.u + 1,
      labels := s.labels + [Label(s.labels[t].level + 1, s.labels[t].prefix * 512 + i)],
      parent := s.parent + [t])
  }

  ghost predicate Installable(s: Tables, t: nat, i: nat) {
    && Tree(s) && t < s.u < s.w.total && i < ENTRIES
    && s.labels[t].level < 3 && !OutsideSlot(s, s.labels[t], i)
    && !Present(s.m[t][i])
  }

  /** The slot a used table serves holds a present entry. */
  lemma ServedSlotPresent(s: Tables, t: nat, i: nat, n: nat)
    requires Tree(s) && t < s.u && n < s.u && i < ENTRIES
    requires s.labels[n] == Label(s.labels[t].level + 1, s.labels[t].prefix * 512 + i)
    ensures Present(s.m[t][i])
  {
    assert NamedByParent(s, n);
    ServedSlot(s.labels[n].prefix, s.labels[t].prefix, i);
    assert s.labels[s.parent[n]] == s.labels[t];
  }

  lemma ServedSlot(prefix: nat, above: nat, i: nat)
    requires i < 512 && prefix == above * 512 + i
    ensures prefix / 512 == above && prefix % 512 == i
  {
  }

  lemma InstallNew(s: Tables, t: nat, i: nat)
    requires Installable(s, t, i)
    ensures LeadsDown(Install(s, t, i), t, i) && NamedByParent(Install(s, t, i), s.u)
    ensures Next(Install(s, t, i), t, i) == Some(s.u)
    ensures forall i': nat :: i' < ENTRIES ==> !Present(Install(s, t, i).m[s.u][i'])
  {
    TableEntryDecodes(s.w, s.u);
    ServedSlot(s.labels[t].prefix * 512 + i, s.labels[t].prefix, i);
  }

  lemma InstallOldEntry(s: Tables, t: nat, i: nat, t': nat, i': nat)
    requires Shape(s) && t < s.u < s.w.total && i < ENTRIES
    requires t' < s.u && i' < ENTRIES && (t', i') != (t, i)
    ensures Next(Install(s, t, i), t', i') == Next(s, t', i')
    ensures LeadsDown(s, t', i') ==> LeadsDown(Install(s, t, i), t', i')
  {
    var s' := Install(s, t, i);
    assert s'.m[t'][i'] == s.m[t'][i'];
    assert s'.labels[t'] == s.labels[t'];
  }

  lemma InstallOldParent(s: Tables, t: nat, i: nat, n: nat)
    requires Shape(s) && t < s.u < s.w.total && i < ENTRIES && !Present(s.m[t][i])
    requires 0 < n < s.u && NamedByParent(s, n)
    ensures NamedByParent(Install(s, t, i), n)
  {
    var s' := Install(s, t, i);
    var j := s.labels[n].prefix % 512;
    assert Present(s.m[s.parent[n]][j]);
    assert s'.m[s.parent[n]][j] == s.m[s.parent[n]][j];
  }

  lemma InstallDownward(s: Tables, t: nat, i: nat)
    requires Installable(s, t, i)
    ensures Downward(Install(s, t, i)) && Upward(Install(s, t, i))
  {
    var s' := Install(s, t, i);
    InstallNew(s, t, i);
    forall t': nat, i': nat {:trigger LeadsDown(s', t', i')} |
      t' < s'.u && i' < ENTRIES && s'.labels[t'].level < 3 && !OutsideSlot(s', s'.labels[t'], i')
      && Present(s'.m[t'][i'])
      ensures LeadsDown(s', t', i')
    {
      if t' < s.u && (t', i') != (t, i) {
        InstallOldEntry(s, t, i, t', i');
        assert LeadsDown(s, t', i');
      }
    }
    forall n: nat | 0 < n < s'.u ensures NamedByParent(s', n) {
      if n < s.u { InstallOldParent(s, t, i, n); }
    }
  }

  lemma InstallDistinct(s: Tables, t: nat, i: nat)
    requires Installable(s, t, i)
    ensures Distinct(Install(s, t, i))
  {
    forall n: nat | n < s.u
      ensures s.labels[n] != Label(s.labels[t].level + 1, s.labels[t].prefix * 512 + i)
    {
      if s.labels[n] == Label(s.labels[t].level + 1, s.labels[t].prefix * 512 + i) {
        ServedSlotPresent(s, t, i, n);
      }
    }
  }

  lemma InstallFlagged(s: Tables, t: nat, i: nat)
    requires Installable(s, t, i)
    ensures Flagged(Install(s, t, i))
  {
    var s' := Install(s, t, i);
    TableEntryDecodes(s.w, s.u);
    forall t': nat, i': nat {:trigger Plain(s'.m[t'][i'])}
      | t' < s'.u && i' < ENTRIES && !OutsideSlot(s', s'.labels[t'], i') && Present(s'.m[t'][i'])
      ensures Plain(s'.m[t'][i'])
    {
      if t' < s.u && (t', i') != (t, i) {
        assert s'.m[t'][i'] == s.m[t'][i'];
        assert Plain(s.m[t'][i']);
      }
    }
  }

  lemma InstallKeepsTree(s: Tables, t: nat, i: nat)
    requires Installable(s, t, i)
    ensures Tree(Install(s, t, i))
  {
    InstallDownward(s, t, i);
    InstallDistinct(s, t, i);
    InstallFlagged(s, t, i);
  }

  /** A fresh table changes no walk's outcome: a walk keeps every table it had,
      and one that now reaches the fresh table finds it empty. */
  lemma {:induction false} InstallWalk(s: Tables, t: nat, i: nat, p: nat, level: nat)
    requires Installable(s, t, i) && Walkable(s, p) && level <= 3
    ensures TableFor(s, p, level).Some? ==> TableFor(Install(s, t, i), p, level) == TableFor(s, p, level)
    ensures TableFor(s, p, level).None? ==> TableFor(Install(s, t, i), p, level) in {None, Some(s.u)}
    decreases level
  {
    if level > 0 {
      InstallWalk(s, t, i, p, level - 1);
      InstallNew(s, t, i);
      if TableFor(s, p, level - 1).Some? {
        WalkLabel(s, p, level - 1);
        var t' := TableFor(s, p, level - 1).value;
        if (t', Index(p, level - 1)) != (t, i) {
          InstallOldEntry(s, t, i, t', Index(p, level - 1));
        }
      }
    }
  }

  lemma InstallTranslate(s: Tables, t: nat, i: nat, p: nat)
    requires Installable(s, t, i) && Walkable(s, p)
    ensures Translate(Install(s, t, i), p) == Translate(s, p)
  {
    InstallWalk(s, t, i, p, 3);
    InstallNew(s, t, i);
    if TableFor(s, p, 3).Some? {
      WalkLabel(s, p, 3);
    }
  }

  lemma InstallKeepsPages(s: Tables, t: nat, i: nat)
    requires Installable(s, t, i)
    ensures Pages(Install(s, t, i)) == Pages(s)
  {
    var s' := Install(s, t, i);
    forall p: nat | Walkable(s, p) ensures Walkable(s', p) && Translate(s', p) == Translate(s, p) {
      InstallTranslate(s, t, i, p);
    }
    assert forall p: nat :: Walkable(s', p) <==> Walkable(s, p);
    forall p: nat ensures p in Pages(s') <==> p in Pages(s) { }
  }

  // ---- writing a page's entry

  ghost predicate IsPageTable(s: Tables, t: nat) {
    Tree(s) && t < s.u && s.labels[t].level == 3
  }

  lemma WritePageKeepsTree(s: Tables, t: nat, i: nat, v: nat)
    requires IsPageTable(s, t) && i < ENTRIES && (Present(v) ==> Plain(v))
    ensures Tree(WriteEntry(s, t, i, v))
  {
    var s' := WriteEntry(s, t, i, v);
    forall t': nat, i': nat {:trigger LeadsDown(s', t', i')} |
      t' < s'.u && i' < ENTRIES && s'.labels[t'].level < 3 && !OutsideSlot(s', s'.labels[t'], i')
      && Present(s'.m[t'][i'])
      ensures LeadsDown(s', t', i')
    {
      assert LeadsDown(s, t', i');
    }
    forall n: nat | 0 < n < s'.u ensures NamedByParent(s', n) {
      assert NamedByParent(s, n);
    }
  }

  lemma WriteOther(s: Tables, t: nat, i: nat, v: nat, t': nat, i': nat)
    requires HasEntry(s.m, t, i) && t' != t
    ensures Next(WriteEntry(s, t, i, v), t', i') == Next(s, t', i')
  {
    assert t' < |s.m| ==> WriteEntry(s, t, i, v).m[t'] == s.m[t'];
  }

  lemma {:induction false} WritePageWalk(s: Tables, t: nat, i: nat, v: nat, p: nat, level: nat)
    requires IsPageTable(s, t) && i < ENTRIES && Walkable(s, p) && level <= 3
    ensures TableFor(WriteEntry(s, t, i, v), p, level) == TableFor(s, p, level)
    decreases level
  {
    if level > 0 {
      WritePageWalk(s, t, i, v, p, level - 1);
      if TableFor(s, p, level - 1).Some? {
        WalkLabel(s, p, level - 1);
        WriteOther(s, t, i, v, TableFor(s, p, level - 1).value, Index(p, level - 1));
      }
    }
  }

  /** Writing the entry of page p changes the translation of p alone. */
  lemma WritePageTranslate(s: Tables, p: nat, v: nat, q: nat)
    requires Tree(s) && Walkable(s, p) && Walkable(s, q) && TableFor(s, p, 3).Some?
    ensures TableFor(s, p, 3).value < s.u
    ensures Translate(WriteEntry(s, TableFor(s, p, 3).value, Index(p, 3), v), q) ==
            if q != p then Translate(s, q) else if Present(v) then Some(PageAddress(v)) else None
  {
    WalkLabel(s, p, 3);
    WritePageWalk(s, TableFor(s, p, 3).value, Index(p, 3), v, q, 3);
    if TableFor(s, q, 3).Some? {
      WalkLabel(s, q, 3);
      if p != q { DistinctEntries(s, p, q); }
    }
  }

  lemma WritePagePages(s: Tables, p: nat, v: nat)
    requires Tree(s) && Walkable(s, p) && TableFor(s, p, 3).Some? && (Present(v) ==> Plain(v))
    ensures TableFor(s, p, 3).value < s.u
    ensures Tree(WriteEntry(s, TableFor(s, p, 3).value, Index(p, 3), v))
    ensures Pages(WriteEntry(s, TableFor(s, p, 3).value, Index(p, 3), v)) ==
            if Present(v) then Pages(s)[p := PageAddress(v)] else Pages(s) - {p}
  {
    WalkLabel(s, p, 3);
    var t := TableFor(s, p, 3).value;
    var s' := WriteEntry(s, t, Index(p, 3), v);
    WritePageKeepsTree(s, t, Index(p, 3), v);
    assert forall q: nat :: Walkable(s', q) <==> Walkable(s, q);
    forall q: nat | Walkable(s, q)
      ensures Translate(s', q) == if q != p then Translate(s, q) else if Present(v) then Some(PageAddress(v)) else None
    {
      WritePageTranslate(s, p, v, q);
    }
    PagesAre(s', if Present(v) then Pages(s)[p := PageAddress(v)] else Pages(s) - {p});
  }

  // ---- making room for a page

  /** How many of the tables of levels 1 to `level` the walk to p lacks. */
  function Missing(s: Tables, p: nat, level: nat): (n: nat)
    ensures n <= level
  {
    if level == 0 then 0
    else Missing(s, p, level - 1) + (if TableFor(s, p, level).None? then 1 else 0)
  }

  /** The tree with every table on the walk to p, down to `level`, in place. */
  ghost function Grow(s: Tables, p: nat, level: nat): (r: Tables)
    requires Tree(s) && Walkable(s, p) && level <= 3 && s.u + Missing(s, p, level) <= s.w.total
    ensures Tree(r) && Walkable(r, p) && r.w == s.w && r.foreign == s.foreign
    ensures Pages(r) == Pages(s)
    ensures r.u == s.u + Missing(s, p, level)
    ensures TableFor(r, p, level).Some?
    ensures TableFor(s, p, level).Some? ==> r == s
    ensures TableFor(s, p, level).None? && level < 3 ==> TableFor(r, p, level + 1).None?
    decreases level
  {
    hide Pages, Tree;
    if level == 0 then s
    else
      var g := Grow(s, p, level - 1);
      if TableFor(g, p, level).Some? then g
      else
        var t := TableFor(g, p, level - 1).value;
        WalkLabel(g, p, level - 1);
        InstallExtends(g, p, level - 1);
        InstallKeepsTree(g, t, Index(p, level - 1));
        InstallKeepsPages(g, t, Index(p, level - 1));
        Install(g, t, Index(p, level - 1))
  }

  lemma PresentEntryExtends(s: Tables, p: nat, level: nat)
    requires Tree(s) && Walkable(s, p) && level < 3 && TableFor(s, p, level).Some?
    requires TableFor(s, p, level).value < s.u
    requires Present(s.m[TableFor(s, p, level).value][Index(p, level)])
    ensures TableFor(s, p, level + 1).Some?
  {
    WalkLabel(s, p, level);
    assert LeadsDown(s, TableFor(s, p, level).value, Index(p, level));
  }

  /** Installing the next table of a walk extends the walk by that one table,
      which is empty. */
  lemma InstallExtends(s: Tables, p: nat, level: nat)
    requires Tree(s) && Walkable(s, p) && level < 3 && s.u < s.w.total
    requires TableFor(s, p, level).Some? && TableFor(s, p, level + 1).None?
    ensures TableFor(s, p, level).value < s.u
    ensures Installable(s, TableFor(s, p, level).value, Index(p, level))
    ensures TableFor(Install(s, TableFor(s, p, level).value, Index(p, level)), p, level + 1) == Some(s.u)
    ensures TableFor(Install(s, TableFor(s, p, level).value, Index(p, level)), p, level + 2).None?
  {
    WalkLabel(s, p, level);
    var t := TableFor(s, p, level).value;
    if Present(s.m[t][Index(p, level)]) {
      PresentEntryExtends(s, p, level);
    }
    InstallWalk(s, t, Index(p, level), p, level);
    InstallNew(s, t, Index(p, level));
  }

  /** One more level of Grow, as the walker performs it. */
  lemma GrowStep(s: Tables, p: nat, level: nat)
    requires Tree(s) && Walkable(s, p) && level < 3 && s.u + Missing(s, p, level + 1) <= s.w.total
    ensures var g, t := Grow(s, p, level), TableFor(Grow(s, p, level), p, level).value;
            && Tree(g) && t < g.u && g.labels[t] == Label(level, Prefix(p, level))
            && !OutsideSlot(g, g.labels[t], Index(p, level))
            && (Present(g.m[t][Index(p, level)]) || g.u < g.w.total)
            && Grow(s, p, level + 1) == (if Present(g.m[t][Index(p, level)]) then g else Install(g, t, Index(p, level)))
            && TableFor(Grow(s, p, level + 1), p, level + 1) == Next(Grow(s, p, level + 1), t, Index(p, level))
  {
    var g := Grow(s, p, level);
    WalkLabel(g, p, level);
    var t := TableFor(g, p, level).value;
    if Present(g.m[t][Index(p, level)]) {
      PresentEntryExtends(g, p, level);
    } else {
      assert TableFor(g, p, level + 1).None?;
      InstallExtends(g, p, level);
      InstallNew(g, t, Index(p, level));
    }
  }

  /** The tables that a page mapped at p sits under exist, and its entry holds
      v: what mapping and unmapping write. */
  ghost function MapPage(s: Tables, p: nat, pa: nat): Tables
    requires Tree(s) && Walkable(s, p) && s.u + Missing(s, p, 3) <= s.w.total
  {
    var g := Grow(s, p, 3);
    WalkLabel(g, p, 3);
    WriteEntry(g, TableFor(g, p, 3).value, Index(p, 3), pa + 3)
  }

  ghost function UnmapPage(s: Tables, p: nat): Tables
    requires Tree(s) && Walkable(s, p)
  {
    match TableFor(s, p, 3)
    case None => s
    case Some(t) => WalkLabel(s, p, 3); WriteEntry(s, t, Index(p, 3), 0)
  }

  lemma PageEntryDecodes(pa: nat)
    requires pa % PAGE_SIZE == 0
    ensures Present(pa + 3) && PageAddress(pa + 3) == pa && Plain(pa + 3)
  {
    QuotientUnique(pa + 3, 2, pa / PAGE_SIZE * 2048 + 1, 1);
    QuotientUnique(pa + 3, PAGE_SIZE, pa / PAGE_SIZE, 3);
  }

  lemma MappedIffPresent(s: Tables, p: nat)
    requires Tree(s) && Walkable(s, p) && TableFor(s, p, 3).Some?
    ensures TableFor(s, p, 3).value < s.u
    ensures p in Pages(s) <==> Present(s.m[TableFor(s, p, 3).value][Index(p, 3)])
    ensures p in Pages(s) ==> Pages(s)[p] == PageAddress(s.m[TableFor(s, p, 3).value][Index(p, 3)])
  {
    WalkLabel(s, p, 3);
  }

  /** A page already mapped has all its tables, and only then is its entry
      present once they exist. */
  lemma GrowMapped(s: Tables, p: nat)
    requires Tree(s) && Walkable(s, p) && s.u + Missing(s, p, 3) <= s.w.total
    ensures var g := Grow(s, p, 3); var t := TableFor(g, p, 3).value;
            && t < g.u && g.labels[t].level == 3
            && (p in Pages(s) <==> Present(g.m[t][Index(p, 3)]))
            && (p in Pages(s) ==> g == s)
  {
    WalkLabel(Grow(s, p, 3), p, 3);
    MappedIffPresent(Grow(s, p, 3), p);
  }

  /** Mapping adds exactly one pair to the meaning of the tables. */
  lemma MapPageAddsOne(s: Tables, p: nat, pa: nat)
    requires Tree(s) && Walkable(s, p) && s.u + Missing(s, p, 3) <= s.w.total && pa % PAGE_SIZE == 0
    ensures Tree(MapPage(s, p, pa))
    ensures Pages(MapPage(s, p, pa)) == Pages(s)[p := pa]
    ensures MapPage(s, p, pa).u == s.u + Missing(s, p, 3)
  {
    PageEntryDecodes(pa);
    WritePagePages(Grow(s, p, 3), p, pa + 3);
  }

  /** Unmapping removes exactly that pair. */
  lemma UnmapPageRemovesOne(s: Tables, p: nat)
    requires Tree(s) && Walkable(s, p)
    ensures Tree(UnmapPage(s, p))
    ensures Pages(UnmapPage(s, p)) == Pages(s) - {p}
    ensures UnmapPage(s, p).u == s.u
  {
    if TableFor(s, p, 3).Some? {
      WritePagePages(s, p, 0);
    } else {
      assert p !in Pages(s);
    }
  }

  // ---- the table budget of one page directory

  /** The position lies on a walk through page directory d (the PML4, one PDP,
      one PD, or one of the PD's 512 page tables). */
  predicate LabelUnder(l: Label, d: nat) {
    || l == Label(0, 0)
    || l == Label(1, d / 512)
    || l == Label(2, d)
    || (l.level == 3 && l.prefix / 512 == d)
  }

  ghost predicate Under(s: Tables, d: nat) {
    forall n: nat :: n < s.u && n < |s.labels| ==> LabelUnder(s.labels[n], d)
  }

  lemma {:induction false} GrowUnder(s: Tables, p: nat, level: nat)
    requires Tree(s) && Walkable(s, p) && level <= 3 && s.u + Missing(s, p, level) <= s.w.total
    requires Under(s, Prefix(p, 2))
    ensures Under(Grow(s, p, level), Prefix(p, 2))
    decreases level
  {
    if level > 0 {
      GrowUnder(s, p, level - 1);
      GrowStep(s, p, level - 1);
      PrefixStep(p, level - 1);
      PositionUnder(p, level);
    }
  }

  lemma PositionUnder(p: nat, level: nat)
    requires p < PAGE_COUNT && level <= 3
    ensures LabelUnder(Label(level, Prefix(p, level)), Prefix(p, 2))
  {
    PrefixStep(p, 1);
    ServedSlot(Prefix(p, 2), Prefix(p, 1), Index(p, 1));
    PrefixStep(p, 2);
    ServedSlot(Prefix(p, 3), Prefix(p, 2), Index(p, 2));
  }

  /** A distinct number below 515 for each position under d. */
  function Code(l: Label): nat {
    if l.level == 3 then 3 + l.prefix % 512 else l.level
  }

  lemma CodesDistinct(k: Label, l: Label, d: nat)
    requires LabelUnder(k, d) && LabelUnder(l, d) && k != l
    ensures Code(k) != Code(l) && Code(k) < 515
  {
  }

  lemma {:induction false} Pigeonhole(s: seq<nat>, bound: nat)
    requires forall i :: 0 <= i < |s| ==> s[i] < bound
    requires forall i, j :: 0 <= i < j < |s| ==> s[i] != s[j]
    ensures |s| <= bound
    decreases bound
  {
    if |s| > 0 {
      assert s[0] < bound;
      if k :| 0 <= k < |s| && s[k] == bound - 1 {
        var rest := s[..k] + s[k + 1..];
        assert forall i :: 0 <= i < |rest| ==> rest[i] == s[if i < k then i else i + 1];
        Pigeonhole(rest, bound - 1);
      } else {
        Pigeonhole(s, bound - 1);
      }
    }
  }

  /** However many pages of one 1GB directory are mapped, 515 tables do. */
  lemma UnderUsesAtMost515(s: Tables, d: nat)
    requires Tree(s) && Under(s, d)
    ensures s.u <= 515
  {
    var codes := seq(s.u, (n: nat) requires n < s.u => Code(s.labels[n]));
    forall i, j | 0 <= i < j < |codes| ensures codes[i] != codes[j] {
      CodesDistinct(s.labels[i], s.labels[j], d);
    }
    forall i | 0 <= i < |codes| ensures codes[i] < 515 {
      assert LabelUnder(s.labels[i], d);
    }
    Pigeonhole(codes, 515);
  }

  /** Any number of maps within one page directory keeps to 515 tables, so a
      window of 518 never runs out. */
  lemma MapPageWithinBudget(s: Tables, p: nat, pa: nat)
    requires Tree(s) && Walkable(s, p) && pa % PAGE_SIZE == 0 && s.w.total >= 518
    requires Under(s, Prefix(p, 2))
    ensures s.u + Missing(s, p, 3) <= s.w.total
    ensures Tree(MapPage(s, p, pa)) && Under(MapPage(s, p, pa), Prefix(p, 2))
    ensures MapPage(s, p, pa).u <= 515
  {
    UnderUsesAtMost515(s, Prefix(p, 2));
    MapPageAddsOne(s, p, pa);
    GrowUnder(s, p, 3);
    UnderUsesAtMost515(MapPage(s, p, pa), Prefix(p, 2));
  }

  // ---- writing an entry the tree does not own

  ghost predicate IsOutside(s: Tables, t: nat, i: nat) {
    Tree(s) && t < s.u && i < ENTRIES && s.labels[t].level < 3 && OutsideSlot(s, s.labels[t], i)
  }

  lemma WriteOutsideKeepsTree(s: Tables, t: nat, i: nat, v: nat)
    requires IsOutside(s, t, i)
    ensures Tree(WriteEntry(s, t, i, v))
  {
    var s' := WriteEntry(s, t, i, v);
    forall t': nat, i': nat {:trigger LeadsDown(s', t', i')} |
      t' < s'.u && i' < ENTRIES && s'.labels[t'].level < 3 && !OutsideSlot(s', s'.labels[t'], i')
      && Present(s'.m[t'][i'])
      ensures LeadsDown(s', t', i')
    {
      assert LeadsDown(s, t', i');
    }
    forall n: nat | 0 < n < s'.u ensures NamedByParent(s', n) {
      assert NamedByParent(s, n);
    }
  }

  lemma {:induction false} WriteOutsideWalk(s: Tables, t: nat, i: nat, v: nat, p: nat, level: nat)
    requires IsOutside(s, t, i) && Walkable(s, p) && level <= 3
    ensures TableFor(WriteEntry(s, t, i, v), p, level) == TableFor(s, p, level)
    decreases level
  {
    if level > 0 {
      WriteOutsideWalk(s, t, i, v, p, level - 1);
      if TableFor(s, p, level - 1).Some? {
        WalkLabel(s, p, level - 1);
        var t' := TableFor(s, p, level - 1).value;
        if t' != t { WriteOther(s, t, i, v, t', Index(p, level - 1)); }
      }
    }
  }

  lemma WriteOutsideKeepsPages(s: Tables, t: nat, i: nat, v: nat)
    requires IsOutside(s, t, i)
    ensures Tree(WriteEntry(s, t, i, v)) && Pages(WriteEntry(s, t, i, v)) == Pages(s)
  {
    var s' := WriteEntry(s, t, i, v);
    WriteOutsideKeepsTree(s, t, i, v);
    forall p: nat | Walkable(s, p) ensures Walkable(s', p) && Translate(s', p) == Translate(s, p) {
      WriteOutsideWalk(s, t, i, v, p, 3);
      if TableFor(s, p, 3).Some? { WalkLabel(s, p, 3); }
    }
    assert forall p: nat :: Walkable(s', p) <==> Walkable(s, p);
    forall p: nat ensures p in Pages(s') <==> p in Pages(s) { }
  }
}
