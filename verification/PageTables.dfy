/** The kernel's page-table walker of src/kernel/memory/paging.c. Tables are
    taken from a window of tPg zeroed tables with a bump counter; the window is
    mapped at pml4, and entries hold physical addresses. */
module PageTables {
  import opened PageTree
  import opened Division

  const PTE_FLAGS: nat := 3  // read-write, present

  datatype Outcome = Done | AssertionFailed

  /** The page a virtual address belongs to (bits 47-12). */
  function PageOf(va: nat): (p: nat)
    ensures p < PAGE_COUNT
  {
    va / PAGE_SIZE % PAGE_COUNT
  }

  function Pml4Index(va: nat): nat { va / 0x80_0000_0000 % 512 }
  function PdpIndex(va: nat): nat { va / 0x4000_0000 % 512 }
  function PdIndex(va: nat): nat { va / 0x20_0000 % 512 }
  function PtIndex(va: nat): nat { va / 0x1000 % 512 }

  lemma IndicesOfAddress(va: nat)
    ensures Pml4Index(va) == Index(PageOf(va), 0)
    ensures PdpIndex(va) == Index(PageOf(va), 1)
    ensures PdIndex(va) == Index(PageOf(va), 2)
    ensures PtIndex(va) == Index(PageOf(va), 3)
  {
    ShiftTwice(va);
    IndicesBelow36(va / PAGE_SIZE);
  }

  // ---- identity ranges

  /** The pages of the c pages that start at address a. */
  function PageRange(a: nat, c: nat): set<nat>
    decreases c
  {
    if c == 0 then {} else {PageOf(a)} + PageRange(a + PAGE_SIZE, c - 1)
  }

  /** m with each page of the range mapped to its own address. */
  function WithIdentity(m: map<nat, nat>, a: nat, c: nat): map<nat, nat>
    decreases c
  {
    if c == 0 then m else WithIdentity(m[PageOf(a) := a], a + PAGE_SIZE, c - 1)
  }

  /** No page of the range is mapped, or met twice. */
  predicate IdentityClear(m: map<nat, nat>, a: nat, c: nat)
    decreases c
  {
    c == 0 || (PageOf(a) !in m && IdentityClear(m[PageOf(a) := a], a + PAGE_SIZE, c - 1))
  }

  lemma {:induction false} WithIdentityOutside(m: map<nat, nat>, a: nat, c: nat)
    ensures WithIdentity(m, a, c) - PageRange(a, c) == m - PageRange(a, c)
    decreases c
  {
    if c > 0 {
      var m' := m[PageOf(a) := a];
      var rest := PageRange(a + PAGE_SIZE, c - 1);
      WithIdentityOutside(m', a + PAGE_SIZE, c - 1);
      assert WithIdentity(m, a, c) - PageRange(a, c) == (WithIdentity(m', a + PAGE_SIZE, c - 1) - rest) - {PageOf(a)};
      assert m - PageRange(a, c) == (m' - rest) - {PageOf(a)};
    }
  }

  lemma {:induction false} ClearIsDisjoint(m: map<nat, nat>, a: nat, c: nat)
    requires IdentityClear(m, a, c)
    ensures m.Keys !! PageRange(a, c)
    decreases c
  {
    if c > 0 { ClearIsDisjoint(m[PageOf(a) := a], a + PAGE_SIZE, c - 1); }
  }

  lemma AlignedStep(a: nat, c: nat, n: nat, b: nat)
    requires 0 < n <= c && b == a + (c - n) * PAGE_SIZE && b % PAGE_SIZE == 0
    ensures b + PAGE_SIZE == a + (c - (n - 1)) * PAGE_SIZE && (b + PAGE_SIZE) % PAGE_SIZE == 0
  {
    QuotientUnique(b + PAGE_SIZE, PAGE_SIZE, b / PAGE_SIZE + 1, 0);
  }

  /** Mapping the c pages from a into m is now mapping n pages from b into cur. */
  ghost predicate MapRest(m: map<nat, nat>, a: nat, c: nat, cur: map<nat, nat>, b: nat, n: nat) {
    WithIdentity(m, a, c) == WithIdentity(cur, b, n) && (IdentityClear(m, a, c) <==> IdentityClear(cur, b, n))
  }

  ghost predicate UnmapRest(m: map<nat, nat>, a: nat, c: nat, cur: map<nat, nat>, b: nat, n: nat) {
    m - PageRange(a, c) == cur - PageRange(b, n)
  }

  lemma MapRestStep(m: map<nat, nat>, a: nat, c: nat, cur: map<nat, nat>, b: nat, n: nat)
    requires MapRest(m, a, c, cur, b, n) && n > 0
    ensures PageOf(b) in cur ==> !IdentityClear(m, a, c)
    ensures PageOf(b) !in cur ==> MapRest(m, a, c, cur[PageOf(b) := b], b + PAGE_SIZE, n - 1)
  {
  }

  lemma UnmapRestStep(m: map<nat, nat>, a: nat, c: nat, cur: map<nat, nat>, b: nat, n: nat)
    requires UnmapRest(m, a, c, cur, b, n) && n > 0
    ensures UnmapRest(m, a, c, cur - {PageOf(b)}, b + PAGE_SIZE, n - 1)
  {
  }

  /** Identity-unmapping a range undoes identity-mapping it. */
  lemma IdentityRoundTrip(m: map<nat, nat>, a: nat, c: nat)
    requires IdentityClear(m, a, c)
    ensures WithIdentity(m, a, c) - PageRange(a, c) == m
  {
    WithIdentityOutside(m, a, c);
    ClearIsDisjoint(m, a, c);
  }

  class Paging {
    var pml4: nat
    var tPg: nat
    var uPg: nat
    var vaToPa: nat
    const mem: array2<nat>
    ghost const foreign: set<nat>
    ghost var m: seq<seq<nat>>
    ghost var labels: seq<Label>
    ghost var parent: seq<nat>

    /** paging_init: takes over the tables the loader built. */
    constructor (mem: array2<nat>, pml4: nat, tPg: nat, uPg: nat, vaToPa: nat,
                 ghost s: Tables)
      requires vaToPa <= pml4 && s.w == Window(pml4, pml4 - vaToPa, tPg) && s.u == uPg && Tree(s)
      requires mem.Length0 == tPg && mem.Length1 == ENTRIES
      requires forall t: nat, i: nat :: t < tPg && i < ENTRIES ==> s.m[t][i] == mem[t, i]
      ensures Valid() && Abs() == s && this.mem == mem
      ensures this.pml4 == pml4 && this.tPg == tPg && this.uPg == uPg && this.vaToPa == vaToPa
    {
      this.mem, this.pml4, this.tPg, this.uPg, this.vaToPa := mem, pml4, tPg, uPg, vaToPa;
      foreign, m, labels, parent := s.foreign, s.m, s.labels, s.parent;
    }

    ghost function Win(): Window
      reads this`pml4, this`vaToPa, this`tPg
      requires vaToPa <= pml4
    {
      Window(pml4, pml4 - vaToPa, tPg)
    }

    /** The walker reaches the page of address va. */
    ghost predicate Reaches(va: nat)
      reads this`pml4, this`vaToPa, this`tPg
    {
      vaToPa <= pml4 && WalkableIn(Win(), foreign, PageOf(va))
    }

    ghost function Abs(): (s: Tables)
      reads this
      requires vaToPa <= pml4
    {
      Tables(Win(), foreign, m, uPg, labels, parent)
    }

    /** The ghost copy m holds what the table memory holds. */
    ghost predicate Mirrored()
      reads this, mem
    {
      && mem.Length0 == tPg == |m| && mem.Length1 == ENTRIES
      && (forall t: nat :: t < |m| ==> |m[t]| == ENTRIES)
      && forall t: nat, i: nat :: t < tPg && i < ENTRIES ==> m[t][i] == mem[t, i]
    }

    ghost predicate Valid()
      reads this, mem
    {
      vaToPa <= pml4 && Mirrored() && Tree(Abs())
    }

    /** The entry at index i of the table at address tva. */
    method Load(tva: nat, i: nat) returns (e: nat)
      requires Mirrored() && tva >= pml4 && (tva - pml4) / TABLE_SIZE < tPg && i < ENTRIES
      ensures e == m[(tva - pml4) / TABLE_SIZE][i]
    {
      e := mem[(tva - pml4) / TABLE_SIZE, i];
    }

    method Store(tva: nat, i: nat, e: nat)
      requires vaToPa <= pml4 && Mirrored()
      requires tva >= pml4 && (tva - pml4) / TABLE_SIZE < tPg && i < ENTRIES
      modifies this`m, mem
      ensures Mirrored()
      ensures Abs() == WriteEntry(old(Abs()), (tva - pml4) / TABLE_SIZE, i, e)
    {
      ghost var n := (tva - pml4) / TABLE_SIZE;
      mem[(tva - pml4) / TABLE_SIZE, i] := e;
      ghost var row: seq<nat> := m[n][i := e];
      m := m[n := row];
    }

    /** The table below entry i of the table at address tva, taken from the
        window when the entry is absent (paging.c:41-45, repeated at 46-55). */
    method EnsureTable(tva: nat, i: nat, ghost t: nat) returns (next: nat)
      requires Valid() && tva == pml4 + t * TABLE_SIZE && t < uPg && i < ENTRIES
      requires labels[t].level < 3 && !OutsideSlot(Abs(), labels[t], i)
      requires Present(Abs().m[t][i]) || uPg < tPg
      modifies this`uPg, this`m, this`labels, this`parent, mem
      ensures Valid()
      ensures Abs() == if Present(old(Abs()).m[t][i]) then old(Abs()) else Install(old(Abs()), t, i)
      ensures Next(Abs(), t, i).Some? && next == pml4 + Next(Abs(), t, i).value * TABLE_SIZE
    {
      ghost var s := Abs();
      var e := Load(tva, i);
      if !Present(e) {
        InstallKeepsTree(s, t, i);
        Store(tva, i, pml4 + uPg * TABLE_SIZE - vaToPa + PTE_FLAGS);
        labels := labels + [Label(labels[t].level + 1, labels[t].prefix * 512 + i)];
        parent := parent + [t];
        uPg := uPg + 1;
        assert Abs() == Install(s, t, i);
        InstallNew(s, t, i);
      }
      assert LeadsDown(Abs(), t, i);
      e := Load(tva, i);
      next := TableAddress(e) + vaToPa;
    }

    /** The page table for va, with every table above it (paging.c:41-55). */
    method EnsurePageTable(va: nat) returns (t: nat)
      requires Valid() && Reaches(va)
      requires uPg + Missing(Abs(), PageOf(va), 3) <= tPg
      modifies this`uPg, this`m, this`labels, this`parent, mem
      ensures Valid() && Abs() == Grow(old(Abs()), PageOf(va), 3)
      ensures t == pml4 + TableFor(Abs(), PageOf(va), 3).value * TABLE_SIZE
    {
      hide Tree, Install;
      ghost var s := Abs();
      ghost var p := PageOf(va);
      IndicesOfAddress(va);
      GrowStep(s, p, 0);
      t := EnsureTable(pml4, Pml4Index(va), 0);
      GrowStep(s, p, 1);
      t := EnsureTable(t, PdpIndex(va), TableFor(Abs(), p, 1).value);
      GrowStep(s, p, 2);
      t := EnsureTable(t, PdIndex(va), TableFor(Abs(), p, 2).value);
    }

    /** Writes the page's entry unless it is present (paging.c:56-57). */
    method FillEntry(va: nat, pa: nat, t: nat) returns (r: Outcome)
      requires Valid() && Reaches(va) && pa % PAGE_SIZE == 0
      requires TableFor(Abs(), PageOf(va), 3).Some? && TableFor(Abs(), PageOf(va), 3).value < uPg
      requires t == pml4 + TableFor(Abs(), PageOf(va), 3).value * TABLE_SIZE
      modifies this`m, mem
      ensures Valid()
      ensures r == if PageOf(va) in old(Pages(Abs())) then AssertionFailed else Done
      ensures r == AssertionFailed ==> Abs() == old(Abs())
      ensures r == Done ==>
                Abs() == WriteEntry(old(Abs()), TableFor(old(Abs()), PageOf(va), 3).value, Index(PageOf(va), 3), pa + 3)
    {
      ghost var p := PageOf(va);
      MappedIffPresent(Abs(), p);
      IndicesOfAddress(va);
      var e := Load(t, PtIndex(va));
      if Present(e) {
        return AssertionFailed;
      }
      WalkLabel(Abs(), p, 3);
      PageEntryDecodes(pa);
      WritePageKeepsTree(Abs(), TableFor(Abs(), p, 3).value, Index(p, 3), pa + 3);
      Store(t, PtIndex(va), pa + PTE_FLAGS);
      r := Done;
    }

    /** Maps the page at va to the frame at pa. The three assertions of the
        source are the failing outcome; a failed call changes nothing. */
    method MapPage(va: nat, pa: nat) returns (r: Outcome)
      requires Valid() && Reaches(va)
      requires uPg + Missing(Abs(), PageOf(va), 3) <= tPg
      modifies this`uPg, this`m, this`labels, this`parent, mem
      ensures Valid()
      ensures r == (if pa % PAGE_SIZE != 0 || va % PAGE_SIZE != 0 || PageOf(va) in old(Pages(Abs()))
                    then AssertionFailed else Done)
      ensures r == AssertionFailed ==> Abs() == old(Abs())
      ensures r == Done ==> uPg == old(uPg + Missing(Abs(), PageOf(va), 3))
      ensures old(Under(Abs(), Prefix(PageOf(va), 2))) ==> Under(Abs(), Prefix(PageOf(va), 2))
      ensures r == Done ==> Pages(Abs()) == old(Pages(Abs()))[PageOf(va) := pa]
    {
      if pa % PAGE_SIZE != 0 || va % PAGE_SIZE != 0 {
        return AssertionFailed;
      }
      ghost var s := Abs();
      var t := EnsurePageTable(va);
      GrowMapped(s, PageOf(va));
      r := FillEntry(va, pa, t);
      MapPageAddsOne(s, PageOf(va), pa);
      if Under(s, Prefix(PageOf(va), 2)) {
        GrowUnder(s, PageOf(va), 3);
      }
    }

    /** One step of the read-only walk: the table below entry i, if present. */
    method Below(tva: nat, i: nat, ghost p: nat, ghost level: nat) returns (next: Option<nat>)
      requires Valid() && Walkable(Abs(), p) && level < 3 && i == Index(p, level)
      requires TableFor(Abs(), p, level).Some? && tva == pml4 + TableFor(Abs(), p, level).value * TABLE_SIZE
      ensures next.Some? <==> TableFor(Abs(), p, level + 1).Some?
      ensures next.Some? ==> next.value == pml4 + TableFor(Abs(), p, level + 1).value * TABLE_SIZE
    {
      WalkLabel(Abs(), p, level);
      var e := Load(tva, i);
      if !Present(e) {
        return None;
      }
      PresentEntryExtends(Abs(), p, level);
      assert LeadsDown(Abs(), TableFor(Abs(), p, level).value, i);
      next := Some(TableAddress(e) + vaToPa);
    }

    /** The page table va is walked through, if there is one (paging.c:71-82
        and 93-103). */
    method FindPageTable(va: nat) returns (t: Option<nat>)
      requires Valid() && Reaches(va)
      ensures t.Some? <==> TableFor(Abs(), PageOf(va), 3).Some?
      ensures t.Some? ==> t.value == pml4 + TableFor(Abs(), PageOf(va), 3).value * TABLE_SIZE
    {
      ghost var p := PageOf(va);
      IndicesOfAddress(va);
      t := Below(pml4, Pml4Index(va), p, 0);
      if t.Some? {
        t := Below(t.value, PdpIndex(va), p, 1);
        if t.Some? {
          t := Below(t.value, PdIndex(va), p, 2);
        }
      }
    }

    /** The physical address va is mapped to, or 0. */
    method ReverseTranslate(va: nat) returns (r: Outcome, pa: nat)
      requires Valid() && Reaches(va)
      ensures r == (if va % PAGE_SIZE != 0 then AssertionFailed else Done)
      ensures r == Done ==> pa == if PageOf(va) in Pages(Abs()) then Pages(Abs())[PageOf(va)] else 0
    {
      if va % PAGE_SIZE != 0 {
        return AssertionFailed, 0;
      }
      r, pa := Done, 0;
      var t := FindPageTable(va);
      if t.None? {
        return;
      }
      MappedIffPresent(Abs(), PageOf(va));
      IndicesOfAddress(va);
      var e := Load(t.value, PtIndex(va));
      if !Present(e) {
        return;
      }
      pa := PageAddress(e);
    }

    method UnmapPage(va: nat) returns (r: Outcome)
      requires Valid() && Reaches(va)
      modifies this`m, mem
      ensures Valid() && r == (if va % PAGE_SIZE != 0 then AssertionFailed else Done)
      ensures r == AssertionFailed ==> Abs() == old(Abs())

      ensures r == Done ==> Pages(Abs()) == old(Pages(Abs())) - {PageOf(va)}
    {
      if va % PAGE_SIZE != 0 {
        return AssertionFailed;
      }
      ghost var s := Abs();
      r := Done;
      var t := FindPageTable(va);
      UnmapPageRemovesOne(s, PageOf(va));
      if t.Some? {
        WalkLabel(s, PageOf(va), 3);
        IndicesOfAddress(va);
        Store(t.value, PtIndex(va), 0);
        assert Abs() == PageTree.UnmapPage(s, PageOf(va));
      }
    }

    /** Maps c pages from a to their own addresses; stops at the first page
        already mapped. */
    method IdentityMap(a: nat, c: nat) returns (r: Outcome)
      requires Valid() && a % PAGE_SIZE == 0 && uPg + 3 * c <= tPg
      requires forall k: nat :: k < c ==> Reaches(a + k * PAGE_SIZE)
      modifies this`uPg, this`m, this`labels, this`parent, mem
      ensures Valid()
      ensures r == if IdentityClear(old(Pages(Abs())), a, c) then Done else AssertionFailed
      ensures r == Done ==> Pages(Abs()) == WithIdentity(old(Pages(Abs())), a, c)
    {
      var b: nat, n: nat := a, c;
      hide Pages;
      ghost var was := Pages(Abs());
      while n > 0
        invariant n <= c && b == a + (c - n) * PAGE_SIZE && b % PAGE_SIZE == 0
        invariant Valid() && uPg + 3 * n <= tPg
        invariant MapRest(was, a, c, Pages(Abs()), b, n)
      {
        assert Reaches(a + (c - n) * PAGE_SIZE);
        MapRestStep(was, a, c, Pages(Abs()), b, n);
        AlignedStep(a, c, n, b);
        r := MapPage(b, b);
        if r == AssertionFailed {
          return;
        }
        b := b + PAGE_SIZE;
        n := n - 1;
      }
      r := Done;
    }

    method IdentityUnmap(a: nat, c: nat) returns (r: Outcome)
      requires Valid() && a % PAGE_SIZE == 0
      requires forall k: nat :: k < c ==> Reaches(a + k * PAGE_SIZE)
      modifies this`m, mem
      ensures Valid() && r == Done
      ensures Pages(Abs()) == old(Pages(Abs())) - PageRange(a, c)
    {
      var b: nat, n: nat := a, c;
      hide Pages;
      ghost var was := Pages(Abs());
      r := Done;
      while n > 0
        invariant n <= c && b == a + (c - n) * PAGE_SIZE && b % PAGE_SIZE == 0
        invariant Valid() && r == Done
        invariant UnmapRest(was, a, c, Pages(Abs()), b, n)
      {
        assert Reaches(a + (c - n) * PAGE_SIZE);
        UnmapRestStep(was, a, c, Pages(Abs()), b, n);
        AlignedStep(a, c, n, b);
        r := UnmapPage(b);
        b := b + PAGE_SIZE;
        n := n - 1;
      }
    }

    /** The physical address of the PML4. */
    method GetPhysPml4() returns (pa: nat)
      requires Valid()
      ensures pa == Abs().w.pa
    {
      pa := pml4 - vaToPa;
    }
  }
}
