/** The virtual-range manager of src/kernel/memory/vm.c, over the bitmap frame
    allocator and the page-table walker, refining the machine of KernelMemory. */
module VirtualRanges {
  import opened Words
  import opened Bitmap
  import opened FramePool
  import opened FrameAllocator
  import opened KernelMemory
  import PageTree
  import PageTables
  import Division
  import RangeLaws

  const KERNEL_BASE: nat := 0xffff_ffff_c000_0000
  const OWNERSHIP_WORDS: nat := 4096

  datatype Status = Completed | NotHandled | NoMemory | Asserted

  /** The page directory of the kernel gigabyte. */
  const TOP_DIRECTORY: nat := 0x3_ffff
  const TABLES_NEEDED: nat := 518

  lemma OffsetPage(k: nat)
    requires k < RAM_PAGES
    ensures PageTables.PageOf(KERNEL_BASE + k * KernelMemory.PAGE_SIZE) == BASE_PAGE + k
    ensures PageTree.Prefix(BASE_PAGE + k, 2) == TOP_DIRECTORY
  {
    var va := KERNEL_BASE + k * KernelMemory.PAGE_SIZE;
    Division.QuotientUnique(va, 4096, KERNEL_BASE / 4096 + k, 0);
    Division.QuotientUnique(KERNEL_BASE / 4096 + k, PageTree.PAGE_COUNT, 0xffff, BASE_PAGE + k);
    Division.QuotientUnique(BASE_PAGE + k, 0x4_0000, TOP_DIRECTORY, k);
  }

  class RangeManager {
    var nVa: nat
    const b: nat
    const e: array<Word>
    const pm: PageArray
    const pg: PageTables.Paging
    ghost var held: set<nat>
    ghost const first: nat

    ghost function Next(): nat
      reads this`nVa
    {
      if nVa < b then 0 else (nVa - b) / KernelMemory.PAGE_SIZE
    }

    /** The six objects of the manager are different objects. */
    ghost predicate Separate() {
      && e != pm.e
      && pm as object != pg && pm as object != this && pg as object != this
      && e as object !in {this, pm, pg, pg.mem}
      && pm.e as object !in {this, pm, pg, pg.mem}
      && pg.mem as object !in {this, pm, pg}
    }

    ghost predicate Valid()
      reads this, e, pm, pm.e, pg, pg.mem
    {
      && Separate()
      && b == KERNEL_BASE <= nVa && nVa % KernelMemory.PAGE_SIZE == 0
      && first <= Next() <= RAM_PAGES
      && e.Length == OWNERSHIP_WORDS
      && pm.Valid() && pg.Valid()
      && pg.tPg >= TABLES_NEEDED
      && PageTree.Under(pg.Abs(), TOP_DIRECTORY)
      && (forall k: nat :: first <= k < RAM_PAGES ==> pg.Reaches(b + k * KernelMemory.PAGE_SIZE))
      && (forall k :: k in Members(e[..]) ==> first <= k)
    }

    ghost function Abs(): State
      reads this, e, pm, pm.e, pg, pg.mem
      requires pg.Valid()
    {
      State(pm.Abs(), PageTree.Pages(pg.Abs()), Members(e[..]), Next(), held, first, WORD_BITS * pm.e.Length)
    }

    constructor (b: nat, nVa: nat, e: array<Word>, pm: PageArray, pg: PageTables.Paging)
      ensures this.b == b && this.nVa == nVa && this.e == e && this.pm == pm && this.pg == pg
      ensures held == {} && first == if nVa < b then 0 else (nVa - b) / KernelMemory.PAGE_SIZE
    {
      this.b, this.nVa, this.e, this.pm, this.pg := b, nVa, e, pm, pg;
      this.held := {};
      this.first := if nVa < b then 0 else (nVa - b) / KernelMemory.PAGE_SIZE;
    }

    method SetOwned(va: nat)
      requires Separate() && va >= b && (va - b) / KernelMemory.PAGE_SIZE < WORD_BITS * e.Length
      modifies e
      ensures Members(e[..]) == old(Members(e[..])) + {(va - b) / KernelMemory.PAGE_SIZE}
    {
      var k := (va - b) / KernelMemory.PAGE_SIZE;
      WordUpdates(e[WordOf(k)], BitOf(k));
      SetMember(e[..], k, SetBit(e[WordOf(k)], BitOf(k)));
      ghost var was := e[..];
      e[WordOf(k)] := SetBit(e[WordOf(k)], BitOf(k));
      assert e[..] == was[WordOf(k) := e[WordOf(k)]];
    }

    method ClearOwned(va: nat)
      requires Separate() && va >= b && (va - b) / KernelMemory.PAGE_SIZE < WORD_BITS * e.Length
      modifies e
      ensures Members(e[..]) == old(Members(e[..])) - {(va - b) / KernelMemory.PAGE_SIZE}
    {
      var k := (va - b) / KernelMemory.PAGE_SIZE;
      WordUpdates(e[WordOf(k)], BitOf(k));
      ClearMember(e[..], k, ClearBit(e[WordOf(k)], BitOf(k)));
      ghost var was := e[..];
      e[WordOf(k)] := ClearBit(e[WordOf(k)], BitOf(k));
      assert e[..] == was[WordOf(k) := e[WordOf(k)]];
    }

    /** The next address is the next page's, and one page on is the one after. */
    lemma Advance()
      requires nVa >= b && nVa % KernelMemory.PAGE_SIZE == 0 && b == KERNEL_BASE
      ensures (nVa - b) / KernelMemory.PAGE_SIZE == Next()
      ensures (nVa + KernelMemory.PAGE_SIZE - b) / KernelMemory.PAGE_SIZE == Next() + 1
      ensures (nVa + KernelMemory.PAGE_SIZE) % KernelMemory.PAGE_SIZE == 0
      ensures nVa == b + Next() * KernelMemory.PAGE_SIZE
    {
      var q := nVa / KernelMemory.PAGE_SIZE;
      Division.QuotientUnique(nVa - b, 4096, q - KERNEL_BASE / 4096, 0);
      Division.QuotientUnique(nVa + 4096 - b, 4096, q + 1 - KERNEL_BASE / 4096, 0);
      Division.QuotientUnique(nVa + 4096, 4096, q + 1, 0);
    }

    method Reserve(c: nat) returns (o: nat)
      requires Valid() && Next() + c <= RAM_PAGES
      modifies this`nVa, e
      ensures Valid() && o == old(nVa)
      ensures Abs() == ReserveN(old(Abs()), c)
      ensures Abs().owned == old(Abs().owned) + RangeLaws.Span(old(Next()), c) && Next() == old(Next()) + c
      ensures Abs().pages == old(Abs().pages) && Abs().pool == old(Abs().pool) && Abs().held == old(Abs().held)
    {
      hide PageTree.Pages, Members, PageTree.Tree;
      RangeLaws.ReserveOwns(Abs(), c);
      o := nVa;
      var n: nat := c;
      ghost var s := Abs();
      while n > 0
        invariant n <= c && Valid() && Next() + n <= RAM_PAGES
        invariant ReserveN(s, c) == ReserveN(Abs(), n)
      {
        Advance();
        SetOwned(nVa);
        nVa := nVa + KernelMemory.PAGE_SIZE;
        n := n - 1;
      }
    }

    /** Maps the page at offset k to the frame at pa. */
    method MapOffset(va: nat, ghost k: nat, pa: nat, ghost f: nat) returns (r: PageTables.Outcome)
      requires Valid() && first <= k < RAM_PAGES && va == b + k * KernelMemory.PAGE_SIZE
      requires pa % KernelMemory.PAGE_SIZE == 0 ==> pa == f * KernelMemory.PAGE_SIZE
      modifies pg`uPg, pg`m, pg`labels, pg`parent, pg.mem
      ensures Valid()
      ensures pa % KernelMemory.PAGE_SIZE == 0 ==>
                match MapAt(old(Abs()), k, f)
                case AssertionFailed => r == PageTables.AssertionFailed && Abs() == old(Abs())
                case Running(t) => r == PageTables.Done && Abs() == t
                case OutOfMemory => false
      ensures pa % KernelMemory.PAGE_SIZE != 0 ==> r == PageTables.AssertionFailed
    {
      hide PageTree.Pages, Members, PageTree.Tree;
      OffsetPage(k);
      Division.QuotientUnique(va, 4096, KERNEL_BASE / 4096 + k, 0);
      PageTree.UnderUsesAtMost515(pg.Abs(), TOP_DIRECTORY);
      assert pg.Reaches(b + k * KernelMemory.PAGE_SIZE);
      r := pg.MapPage(va, pa);
    }

    /** One page of a commit (vm.c:79-86). */
    method CommitPage() returns (r: Status)
      requires Valid() && Next() < RAM_PAGES
      modifies this`nVa, e, pm, pm.e, pg`uPg, pg`m, pg`labels, pg`parent, pg.mem
      ensures Valid() && Next() <= old(Next()) + 1
      ensures match CommitOne(old(Abs()))
              case Running(t) => r == Completed && Abs() == t
              case OutOfMemory => r == NoMemory
              case AssertionFailed => r == Asserted
    {
      hide PageTree.Pages, Members, PageTree.Tree, Get;
      ghost var t := Abs();
      Advance();
      var pa := pm.GetFree();
      Division.QuotientUnique(pa, 4096, Get(t.pool).1, 0);
      if pa == 0 {
        return NoMemory;
      }
      SetOwned(nVa);
      var m := MapOffset(nVa, Next(), pa, Get(t.pool).1);
      if m == PageTables.AssertionFailed {
        return Asserted;
      }
      nVa := nVa + KernelMemory.PAGE_SIZE;
      r := Completed;
    }

    /** Maps c fresh frames at the next c pages. Running out of frames, or the
        "already mapped" assertion, halts the kernel. */
    method Commit(c: nat) returns (o: nat, r: Status)
      requires Valid() && Next() + c <= RAM_PAGES
      modifies this`nVa, e, pm, pm.e, pg`uPg, pg`m, pg`labels, pg`parent, pg.mem
      ensures Valid() && (r == Completed ==> o == old(nVa))
      ensures match CommitN(old(Abs()), c)
              case Running(t) => r == Completed && Abs() == t
              case OutOfMemory => r == NoMemory
              case AssertionFailed => r == Asserted
    {
      hide PageTree.Pages, Members, PageTree.Tree, Get, CommitOne;
      o := nVa;
      var n: nat := c;
      ghost var s := Abs();
      while n > 0
        invariant n <= c && Valid() && Next() + n <= RAM_PAGES
        invariant CommitN(s, c) == CommitN(Abs(), n)
      {
        r := CommitPage();
        if r != Completed {
          return;
        }
        n := n - 1;
      }
      r := Completed;
    }

    /** Maps a frame the caller already holds at the next page. An address off a
        page boundary fails the assertion. */
    method CommitFixed(pa: nat, ghost f: nat) returns (o: nat, r: Status)
      requires Valid() && Next() < RAM_PAGES
      requires pa % KernelMemory.PAGE_SIZE == 0 ==> pa == f * KernelMemory.PAGE_SIZE
      modifies this`nVa, this`held, e, pg`uPg, pg`m, pg`labels, pg`parent, pg.mem
      ensures Valid() && o == old(nVa)
      ensures pa % KernelMemory.PAGE_SIZE == 0 ==>
                match FixOne(old(Abs()), f)
                case Running(t) => r == Completed && Abs() == t
                case _ => r == Asserted
      ensures pa % KernelMemory.PAGE_SIZE != 0 ==> r == Asserted
    {
      hide PageTree.Pages, Members, PageTree.Tree;
      Advance();
      o := nVa;
      SetOwned(o);
      held := held - {f};
      var m := MapOffset(o, Next(), pa, f);
      if m == PageTables.AssertionFailed {
        return o, Asserted;
      }
      nVa := nVa + KernelMemory.PAGE_SIZE;
      r := Completed;
    }

    /** A driver's own call of the frame allocator. */
    method TakeFrame() returns (pa: nat)
      requires Valid()
      modifies this`held, pm, pm.e
      ensures Valid() && Abs() == TakeOne(old(Abs()))
      ensures pa == Get(old(Abs()).pool).1 * KernelMemory.PAGE_SIZE
    {
      hide PageTree.Pages, Members, PageTree.Tree, Get;
      ghost var s := Abs();
      pa := pm.GetFree();
      held := if Get(s.pool).1 == 0 then held else held + {Get(s.pool).1};
    }

    /** The page-fault handler, for a fault at address cr2. */
    method HandleFault(cr2: nat) returns (r: Status)
      requires Valid()
      modifies pm, pm.e, pg`uPg, pg`m, pg`labels, pg`parent, pg.mem
      ensures Valid()
      ensures cr2 < b ==> r == NotHandled && Abs() == old(Abs())
      ensures cr2 >= b ==>
                var k := (cr2 - b) / KernelMemory.PAGE_SIZE;
                match FaultOne(old(Abs()), k)
                case Running(t) => Abs() == t && r == (if k in old(Abs()).owned then Completed else NotHandled)
                case OutOfMemory => r == NoMemory
                case AssertionFailed => r == Asserted
      ensures r == NotHandled <==> cr2 < b || (cr2 - b) / KernelMemory.PAGE_SIZE !in old(Abs().owned)
      ensures r == Completed ==> BASE_PAGE + (cr2 - b) / KernelMemory.PAGE_SIZE in Abs().pages
    {
      hide PageTree.Pages, PageTree.Tree, Get;
      ghost var s := Abs();
      var va := cr2 - cr2 % KernelMemory.PAGE_SIZE;
      FaultPage(cr2);
      if va < b || WordOf((va - b) / KernelMemory.PAGE_SIZE) >= OWNERSHIP_WORDS {
        return NotHandled;
      }
      var k := (va - b) / KernelMemory.PAGE_SIZE;
      if !Bit(e[WordOf(k)], BitOf(k)) {
        return NotHandled;
      }
      assert k in Members(e[..]);
      hide Members;
      var pa := pm.GetFree();
      Division.QuotientUnique(pa, 4096, Get(s.pool).1, 0);
      if pa == 0 {
        return NoMemory;
      }
      var m := MapOffset(va, k, pa, Get(s.pool).1);
      r := if m == PageTables.AssertionFailed then Asserted else Completed;
    }

    lemma FaultPage(cr2: nat)
      requires b == KERNEL_BASE
      ensures var va := cr2 - cr2 % KernelMemory.PAGE_SIZE;
              && (va < b <==> cr2 < b)
              && (va >= b ==> (va - b) / KernelMemory.PAGE_SIZE == (cr2 - b) / KernelMemory.PAGE_SIZE)
              && (va >= b ==> va == b + (cr2 - b) / KernelMemory.PAGE_SIZE * KernelMemory.PAGE_SIZE)
    {
      var q, r := cr2 / 4096, cr2 % 4096;
      assert cr2 == 4096 * q + r;
      if cr2 >= b {
        Division.QuotientUnique(cr2 - b, 4096, q - KERNEL_BASE / 4096, r);
        Division.QuotientUnique(4096 * q - b, 4096, q - KERNEL_BASE / 4096, 0);
      }
    }

    /** One page of a release (vm.c:106-111). */
    method ReleasePage(va: nat, ghost k: nat) returns (r: Status)
      requires Valid() && InBounds(Abs())
      requires first <= k < RAM_PAGES && va - va % KernelMemory.PAGE_SIZE == b + k * KernelMemory.PAGE_SIZE
      modifies e, pm, pm.e, pg`m, pg.mem
      ensures Valid() && InBounds(Abs()) && r == if va % KernelMemory.PAGE_SIZE != 0 then Asserted else Completed
      ensures Abs() == if r == Completed then ReleaseOne(old(Abs()), k) else old(Abs())
    {
      hide PageTree.Pages, Members, PageTree.Tree, Put;
      OffsetPage(k);
      Division.QuotientUnique(va, 4096, KERNEL_BASE / 4096 + k, va % 4096);
      Division.QuotientUnique(va - b, 4096, k, va % 4096);
      assert pg.Reaches(b + k * KernelMemory.PAGE_SIZE);
      ReleaseOneInBounds(Abs(), k);
      var o, pa := pg.ReverseTranslate(va);
      if o == PageTables.AssertionFailed {
        return Asserted;
      }
      if pa != 0 {
        assert BASE_PAGE + k in Abs().pages;
        pm.SetFree(pa);
        var _ := pg.UnmapPage(va);
      }
      ClearOwned(va);
      r := Completed;
    }

    /** Releases c pages from va on; the first is asserted to be on a page
        boundary. */
    method Release(va: nat, c: nat, ghost k: nat) returns (r: Status)
      requires Valid() && InBounds(Abs())
      requires first <= k && k + c <= RAM_PAGES && va - va % KernelMemory.PAGE_SIZE == b + k * KernelMemory.PAGE_SIZE
      modifies e, pm, pm.e, pg`m, pg.mem
      ensures Valid() && r == if c > 0 && va % KernelMemory.PAGE_SIZE != 0 then Asserted else Completed
      ensures Abs() == if r == Completed then ReleaseN(old(Abs()), k, c) else old(Abs())
    {
      hide PageTree.Pages, Members, PageTree.Tree, ReleaseOne;
      var a: nat, n: nat := va, c;
      ghost var s := Abs();
      while n > 0
        invariant n <= c && Valid() && InBounds(Abs())
        invariant a == va + (c - n) * KernelMemory.PAGE_SIZE && (n < c ==> va % KernelMemory.PAGE_SIZE == 0)
        invariant n == c ==> Abs() == s
        invariant ReleaseN(s, k, c) == ReleaseN(Abs(), k + (c - n), n)
      {
        r := ReleasePage(a, k + (c - n));
        if r != Completed {
          return;
        }
        a := a + KernelMemory.PAGE_SIZE;
        n := n - 1;
      }
      r := Completed;
    }
  }

  /** MAX_PROCESS_RAM's ownership bits and the 16-byte header, in pages. */
  const OWN_PAGES: nat := (OWNERSHIP_WORDS * 8 + 16 + 4095) / 4096

  /** The memory vm_init finds: a pool and a page map, with the range manager
      to start k pages above the kernel base. */
  ghost function Found(pm: PageArray, pg: PageTables.Paging, k: nat): State
    reads pm, pm.e, pg, pg.mem
    requires pg.Valid()
  {
    State(pm.Abs(), PageTree.Pages(pg.Abs()), {}, k, {}, k, WORD_BITS * pm.e.Length)
  }

  ghost predicate InitReady(pm: PageArray, pg: PageTables.Paging, k: nat)
    reads pm, pm.e, pg, pg.mem
  {
    && pm as object != pg && pm.e as object !in {pm, pg, pg.mem} && pg.mem as object !in {pm, pg}
    && pm.Valid() && pg.Valid()
    && pg.tPg >= TABLES_NEEDED && PageTree.Under(pg.Abs(), TOP_DIRECTORY)
    && forall i: nat :: k <= i < RAM_PAGES ==> pg.Reaches(KERNEL_BASE + i * KernelMemory.PAGE_SIZE)
  }

  /** Maps one page of the manager's own bitmap (vm.c:45-52). */
  method InitPage(pm: PageArray, pg: PageTables.Paging, va: nat, ghost k: nat) returns (r: Status)
    requires InitReady(pm, pg, k) && k < RAM_PAGES && va == KERNEL_BASE + k * KernelMemory.PAGE_SIZE
    modifies pm, pm.e, pg`uPg, pg`m, pg`labels, pg`parent, pg.mem
    ensures InitReady(pm, pg, k + 1)
    ensures match InitOne(old(Found(pm, pg, k)))
            case Running(t) => r == Completed && Found(pm, pg, k + 1) == t
            case OutOfMemory => r == NoMemory
            case AssertionFailed => r == Asserted
  {
    hide PageTree.Pages, Members, PageTree.Tree, Get;
    ghost var s := Found(pm, pg, k);
    var pa := pm.GetFree();
    Division.QuotientUnique(pa, 4096, Get(s.pool).1, 0);
    if pa == 0 {
      return NoMemory;
    }
    OffsetPage(k);
    Division.QuotientUnique(va, 4096, KERNEL_BASE / 4096 + k, 0);
    PageTree.UnderUsesAtMost515(pg.Abs(), TOP_DIRECTORY);
    assert pg.Reaches(va);
    var m := pg.MapPage(va, pa);
    r := if m == PageTables.AssertionFailed then Asserted else Completed;
  }

  /** The ownership bitmap has a bit for each page of the gigabyte, and its pages
      hold it with its header; no fewer do. */
  lemma OwnershipSizes()
    ensures OWNERSHIP_WORDS * WORD_BITS == RAM_PAGES && RAM_PAGES * KernelMemory.PAGE_SIZE == 0x4000_0000
    ensures (OWN_PAGES - 1) * KernelMemory.PAGE_SIZE < 16 + 8 * OWNERSHIP_WORDS <= OWN_PAGES * KernelMemory.PAGE_SIZE
  {
  }

  /** Start-up: maps the pages of the ownership bitmap at the first address the
      loader left, and starts a manager that owns nothing after them. The
      source reads the address through _vm_dt before it is set; the address
      meant, the one just stored, is used here. */
  method VmInit(pm: PageArray, pg: PageTables.Paging, nVa: nat, ghost k: nat)
    returns (r: Status, m: RangeManager?)
    requires InitReady(pm, pg, k) && k + OWN_PAGES <= RAM_PAGES
    requires nVa == KERNEL_BASE + k * KernelMemory.PAGE_SIZE
    modifies pm, pm.e, pg`uPg, pg`m, pg`labels, pg`parent, pg.mem
    ensures match InitN(old(Found(pm, pg, k)), OWN_PAGES)
            case Running(t) => r == Completed && m != null && fresh(m) && m.Valid() && m.Abs() == t
            case OutOfMemory => r == NoMemory
            case AssertionFailed => r == Asserted
    ensures r == Completed ==>
              && m.nVa - nVa - KernelMemory.PAGE_SIZE < 16 + 8 * m.e.Length <= m.nVa - nVa
              && m.e.Length * WORD_BITS * KernelMemory.PAGE_SIZE == 0x4000_0000
  {
    hide PageTree.Pages, PageTree.Tree, Get, InitOne;
    m := null;
    var va, n: nat := nVa, OWN_PAGES;
    ghost var s := Found(pm, pg, k);
    while n > 0
      invariant n <= OWN_PAGES && InitReady(pm, pg, k + (OWN_PAGES - n))
      invariant va == KERNEL_BASE + (k + (OWN_PAGES - n)) * KernelMemory.PAGE_SIZE
      invariant InitN(s, OWN_PAGES) == InitN(Found(pm, pg, k + (OWN_PAGES - n)), n)
    {
      r := InitPage(pm, pg, va, k + (OWN_PAGES - n));
      if r != Completed {
        return;
      }
      va := va + KernelMemory.PAGE_SIZE;
      n := n - 1;
    }
    var e := new Word[OWNERSHIP_WORDS](_ => 0);
    EmptyBitmap(e[..]);
    hide Members;
    ghost var last := k + OWN_PAGES;
    Division.QuotientUnique(va - KERNEL_BASE, 4096, last, 0);
    Division.QuotientUnique(va, 4096, KERNEL_BASE / 4096 + last, 0);
    m := new RangeManager(KERNEL_BASE, va, e, pm, pg);
    r := Completed;
  }
}
