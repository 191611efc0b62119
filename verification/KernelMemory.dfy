/** The kernel's memory as one abstract machine: the frame pool, the page map
    and the virtual-range manager's ownership set, and the operations of
    src/kernel/memory/vm.c over them. Module VirtualRanges shows that the
    kernel's bitmaps and tables refine it. */
module KernelMemory {
  import opened Bitmap
  import opened FramePool

  const PAGE_SIZE: nat := 4096
  /** MAX_PROCESS_RAM in pages: one gigabyte. */
  const RAM_PAGES: nat := 0x4_0000
  /** The page number of the kernel base address 0xffffffffc0000000. */
  const BASE_PAGE: nat := 0xf_fffc_0000

  /** pages maps page numbers to physical addresses; owned and next count pages
      from the kernel base; held are frames a driver took without mapping;
      first is where the range manager started; frames bounds the pool. */
  datatype State = State(pool: Pool, pages: map<nat, nat>, owned: set<nat>, next: nat,
                         held: set<nat>, first: nat, frames: nat)

  datatype Outcome = Running(s: State) | OutOfMemory | AssertionFailed

  datatype Op =
    | Reserve(c: nat)
    | Commit(c: nat)
    | TakeFrame
    | CommitFixed(f: nat)
    | Fault(k: nat)
    | Release(k: nat, c: nat)

  // ---- single steps

  function ReserveOne(s: State): State {
    s.(owned := s.owned + {s.next}, next := s.next + 1)
  }

  /** Maps the page at offset k to frame f; mapping a mapped page fails. */
  function MapAt(s: State, k: nat, f: nat): Outcome {
    if BASE_PAGE + k in s.pages then AssertionFailed
    else Running(s.(pages := s.pages[BASE_PAGE + k := f * PAGE_SIZE]))
  }

  ghost function CommitOne(s: State): Outcome
    requires Sound(s.pool)
  {
    var (pool, f) := Get(s.pool);
    if f == 0 then OutOfMemory
    else AdvanceAfter(MapAt(s.(pool := pool, owned := s.owned + {s.next}), s.next, f))
  }

  function AdvanceAfter(o: Outcome): Outcome {
    match o
    case Running(t) => Running(t.(next := t.next + 1))
    case _ => o
  }

  ghost function TakeOne(s: State): State
    requires Sound(s.pool)
  {
    var (pool, f) := Get(s.pool);
    s.(pool := pool, held := if f == 0 then s.held else s.held + {f})
  }

  function FixOne(s: State, f: nat): Outcome {
    AdvanceAfter(MapAt(s.(owned := s.owned + {s.next}, held := s.held - {f}), s.next, f))
  }

  /** A fault on an unowned page is not handled and changes nothing. */
  ghost function FaultOne(s: State, k: nat): Outcome
    requires Sound(s.pool)
  {
    if k >= RAM_PAGES || k !in s.owned then Running(s)
    else
      var (pool, f) := Get(s.pool);
      if f == 0 then OutOfMemory else MapAt(s.(pool := pool), k, f)
  }

  function FrameAt(s: State, k: nat): nat
    requires BASE_PAGE + k in s.pages
  {
    s.pages[BASE_PAGE + k] / PAGE_SIZE
  }

  /** A mapped page goes back to the pool; an unmapped one (or one at frame 0,
      which the walker cannot tell apart) only loses its ownership. */
  ghost function ReleaseOne(s: State, k: nat): State {
    var t := s.(owned := s.owned - {k});
    if BASE_PAGE + k in s.pages && s.pages[BASE_PAGE + k] != 0 then
      t.(pool := Put(s.pool, FrameAt(s, k)), pages := s.pages - {BASE_PAGE + k})
    else t
  }

  /** Frames of managed pages lie within the pool's bound. */
  ghost predicate InBounds(s: State) {
    forall p :: p in s.pages && p >= BASE_PAGE + s.first ==> s.pages[p] / PAGE_SIZE < s.frames
  }

  lemma ReleaseOneInBounds(s: State, k: nat)
    requires InBounds(s)
    ensures InBounds(ReleaseOne(s, k))
  {
  }

  // ---- safety

  ghost predicate PoolOk(s: State) {
    && Sound(s.pool) && CursorFree(s.pool)
    && forall f :: f in s.pool.free ==> 0 < f < s.frames
  }

  /** A frame a page is mapped to: within bounds, and neither free nor held. */
  ghost predicate MappedFrame(s: State, pa: nat) {
    && pa % PAGE_SIZE == 0 && 0 < pa / PAGE_SIZE < s.frames
    && pa / PAGE_SIZE !in s.pool.free
    && pa / PAGE_SIZE !in s.held
  }

  /** No mapped frame is free or held by a driver, and no frame is both. */
  ghost predicate Apart(s: State) {
    && (forall p :: p in s.pages ==> MappedFrame(s, s.pages[p]))
    && (forall f :: f in s.held ==> 0 < f < s.frames && f !in s.pool.free)
  }

  /** No two pages share a frame. */
  ghost predicate Injective(m: map<nat, nat>) {
    forall p, q :: p in m && q in m && p != q ==> m[p] != m[q]
  }

  /** Pages mapped since start-up are owned, owned pages lie between first and
      next, and nothing at or above next is mapped. */
  ghost predicate Ranges(s: State) {
    && s.first <= s.next
    && (forall k :: k in s.owned ==> s.first <= k < s.next)
    && (forall p :: p in s.pages && p >= BASE_PAGE + s.first ==> p - BASE_PAGE in s.owned)
  }

  ghost predicate Safe(s: State) {
    PoolOk(s) && Apart(s) && Injective(s.pages) && Ranges(s)
  }

  lemma NothingBeyondNext(s: State, k: nat)
    requires Safe(s) && k >= s.next
    ensures k !in s.owned && BASE_PAGE + k !in s.pages && s.first <= s.next
  {
  }

  /** What a hand-out does to a safe pool: either the pool is exhausted, or a
      free frame leaves it. */
  lemma GetSafe(s: State)
    requires Safe(s)
    ensures Sound(s.pool) && Sound(Get(s.pool).0) && CursorFree(Get(s.pool).0)
    ensures s.pool.a == 0 <==> Get(s.pool).1 == 0
    ensures s.pool.a > 0 ==>
              Get(s.pool).1 in s.pool.free && Get(s.pool).0.free == s.pool.free - {Get(s.pool).1}
    ensures s.pool.a > 0 ==> Get(s.pool).0.a == s.pool.a - 1
  {
    GetSound(s.pool);
  }

  /** Mapping a frame of nobody's at an owned, unmapped page keeps safety. */
  lemma MapAtSafe(s: State, k: nat, f: nat)
    requires Safe(s) && k in s.owned && BASE_PAGE + k !in s.pages
    requires 0 < f < s.frames && f !in s.pool.free && f !in s.held
    requires forall p :: p in s.pages ==> s.pages[p] / PAGE_SIZE != f
    ensures MapAt(s, k, f).Running? && Safe(MapAt(s, k, f).s)
  {
    var t := MapAt(s, k, f).s;
    assert f * PAGE_SIZE / PAGE_SIZE == f && f * PAGE_SIZE % PAGE_SIZE == 0;
    forall p | p in t.pages ensures MappedFrame(t, t.pages[p]) {
      if p in s.pages { assert MappedFrame(s, s.pages[p]); }
    }
  }

  ghost function PageFrames(m: map<nat, nat>): set<nat> {
    set p | p in m :: m[p] / PAGE_SIZE
  }

  /** Every frame the machine accounts for. */
  ghost function Frames(s: State): set<nat> {
    s.pool.free + s.held + PageFrames(s.pages)
  }

  lemma PageFramesWithout(m: map<nat, nat>, p: nat)
    requires p in m
    ensures PageFrames(m) == PageFrames(m - {p}) + {m[p] / PAGE_SIZE}
  {
    var r := m - {p};
    forall q | q in m ensures m[q] / PAGE_SIZE in PageFrames(r) + {m[p] / PAGE_SIZE} {
      if q != p { assert q in r && r[q] == m[q]; }
    }
    forall q | q in r ensures r[q] / PAGE_SIZE in PageFrames(m) {
      assert q in m && r[q] == m[q];
    }
  }

  /** A step within one run: nothing is lost, the fixed bounds stay, and the
      count of hand-outs left does not grow. */
  ghost predicate Follows(s: State, t: State) {
    && Frames(t) == Frames(s)
    && t.first == s.first && t.frames == s.frames
    && t.pool.a <= s.pool.a
  }

  ghost predicate GoodStep(s: State, o: Outcome) {
    && o != AssertionFailed
    && (o.Running? ==> Safe(o.s) && Follows(s, o.s))
  }

  // ---- each step keeps safety

  lemma ReserveOneSafe(s: State)
    requires Safe(s)
    ensures Safe(ReserveOne(s)) && Follows(s, ReserveOne(s))
  {
    var t := ReserveOne(s);
    forall p | p in t.pages ensures MappedFrame(t, t.pages[p]) { assert MappedFrame(s, s.pages[p]); }
  }

  /** Taking frame f out of the pool leaves the rest of a safe state safe. */
  lemma WithoutFrameSafe(s: State, owned: set<nat>)
    requires Safe(s) && s.pool.a > 0
    requires forall k :: k in owned ==> s.first <= k < s.next
    requires s.owned <= owned
    ensures Safe(s.(pool := Get(s.pool).0, owned := owned))
    ensures Get(s.pool).1 in s.pool.free && Get(s.pool).1 !in Get(s.pool).0.free
    ensures Get(s.pool).0.free + {Get(s.pool).1} == s.pool.free
    ensures Get(s.pool).0.a < s.pool.a
  {
    GetSafe(s);
    var t := s.(pool := Get(s.pool).0, owned := owned);
    forall p | p in t.pages ensures MappedFrame(t, t.pages[p]) { assert MappedFrame(s, s.pages[p]); }
  }

  lemma MapAtFrames(s: State, k: nat, f: nat)
    requires BASE_PAGE + k !in s.pages
    ensures MapAt(s, k, f).Running? && Frames(MapAt(s, k, f).s) == Frames(s) + {f}
  {
    var m := MapAt(s, k, f).s.pages;
    assert f * PAGE_SIZE / PAGE_SIZE == f;
    PageFramesWithout(m, BASE_PAGE + k);
    assert m - {BASE_PAGE + k} == s.pages;
  }

  lemma CommitOneSafe(s: State)
    requires Safe(s)
    ensures GoodStep(s, CommitOne(s))
    ensures CommitOne(s) == OutOfMemory <==> s.pool.a == 0
    ensures CommitOne(s).Running? ==> CommitOne(s).s.next == s.next + 1
  {
    hide Safe, Get, Frames, Sound;
    GetSafe(s);
    NothingBeyondNext(s, s.next);
    if s.pool.a > 0 {
      var u := CommitSource(s);
      CommitSourceSafe(s);
      MapAtSafe(u, s.next, Get(s.pool).1);
      MapAtFrames(u, s.next, Get(s.pool).1);
      assert CommitOne(s) == MapAt(u, s.next, Get(s.pool).1);
    }
  }

  /** A commit just before it maps its page. */
  ghost function CommitSource(s: State): State
    requires Sound(s.pool)
  {
    s.(pool := Get(s.pool).0, owned := s.owned + {s.next}, next := s.next + 1)
  }

  lemma CommitSourceSafe(s: State)
    requires Safe(s) && s.pool.a > 0
    ensures Safe(CommitSource(s)) && Get(s.pool).0.a < s.pool.a
    ensures var f := Get(s.pool).1; 0 < f < s.frames && f !in Get(s.pool).0.free && f !in s.held
    ensures forall p :: p in s.pages ==> s.pages[p] / PAGE_SIZE != Get(s.pool).1
    ensures Frames(CommitSource(s)) + {Get(s.pool).1} == Frames(s)
  {
    ReserveOneSafe(s);
    var r := ReserveOne(s);
    WithoutFrameSafe(r, r.owned);
    FreshFrame(s, Get(s.pool).1);
    hide Safe, Get;
    assert CommitSource(s) == r.(pool := Get(r.pool).0, owned := r.owned);
  }

  /** A free frame is in bounds and is nobody's. */
  lemma FreshFrame(s: State, f: nat)
    requires Safe(s) && f in s.pool.free
    ensures 0 < f < s.frames && f !in s.held
    ensures forall p :: p in s.pages ==> s.pages[p] / PAGE_SIZE != f
  {
    forall p | p in s.pages ensures s.pages[p] / PAGE_SIZE != f { assert MappedFrame(s, s.pages[p]); }
  }

  lemma TakeOneSafe(s: State)
    requires Safe(s)
    ensures Safe(TakeOne(s)) && Follows(s, TakeOne(s)) && TakeOne(s).next == s.next
  {
    GetSafe(s);
    if s.pool.a > 0 {
      WithoutFrameSafe(s, s.owned);
      var t := TakeOne(s);
      forall p | p in t.pages ensures MappedFrame(t, t.pages[p]) { assert MappedFrame(s, s.pages[p]); }
    }
  }

  lemma FixOneSafe(s: State, f: nat)
    requires Safe(s) && f in s.held
    ensures FixOne(s, f).Running? && GoodStep(s, FixOne(s, f))
    ensures FixOne(s, f).s.next == s.next + 1
  {
    hide Safe, Frames;
    var u := FixSource(s, f);
    FixSourceSafe(s, f);
    NothingBeyondNext(s, s.next);
    MapAtSafe(u, s.next, f);
    MapAtFrames(u, s.next, f);
    assert FixOne(s, f) == MapAt(u, s.next, f);
  }

  /** A fixed commit just before it maps its page. */
  function FixSource(s: State, f: nat): State {
    s.(owned := s.owned + {s.next}, held := s.held - {f}, next := s.next + 1)
  }

  lemma FixSourceSafe(s: State, f: nat)
    requires Safe(s) && f in s.held
    ensures Safe(FixSource(s, f)) && 0 < f < s.frames && f !in s.pool.free
    ensures forall p :: p in s.pages ==> s.pages[p] / PAGE_SIZE != f
    ensures Frames(FixSource(s, f)) + {f} == Frames(s)
  {
    hide PageFrames, Sound, CursorFree;
    var u := FixSource(s, f);
    forall p | p in u.pages ensures MappedFrame(u, u.pages[p]) && u.pages[p] / PAGE_SIZE != f {
      assert MappedFrame(s, s.pages[p]);
    }
  }

  lemma FaultOneSafe(s: State, k: nat)
    requires Safe(s) && (k in s.owned ==> BASE_PAGE + k !in s.pages)
    ensures GoodStep(s, FaultOne(s, k))
    ensures FaultOne(s, k).Running? ==> FaultOne(s, k).s.next == s.next
  {
    hide Safe, Get, Frames, Sound;
    GetSafe(s);
    if k < RAM_PAGES && k in s.owned && s.pool.a > 0 {
      var u := s.(pool := Get(s.pool).0);
      FaultSourceSafe(s);
      MapAtSafe(u, k, Get(s.pool).1);
      MapAtFrames(u, k, Get(s.pool).1);
    }
  }

  lemma FaultSourceSafe(s: State)
    requires Safe(s) && s.pool.a > 0
    ensures Sound(s.pool) && Safe(s.(pool := Get(s.pool).0)) && Get(s.pool).0.a < s.pool.a
    ensures var f := Get(s.pool).1; 0 < f < s.frames && f !in Get(s.pool).0.free && f !in s.held
    ensures forall p :: p in s.pages ==> s.pages[p] / PAGE_SIZE != Get(s.pool).1
    ensures Frames(s.(pool := Get(s.pool).0)) + {Get(s.pool).1} == Frames(s)
  {
    WithoutFrameSafe(s, s.owned);
    FreshFrame(s, Get(s.pool).1);
    hide Get, PageFrames, Safe;
  }

  /** The page at offset k is mapped, and giving its frame back would misplace
      the pool's cursor. */
  predicate MisplacingRelease(s: State, k: nat) {
    BASE_PAGE + k in s.pages && s.pool.a > 0 && Misplaces(s.pool, FrameAt(s, k))
  }

  lemma ReleaseOneFrames(s: State, k: nat)
    requires Safe(s)
    ensures Frames(ReleaseOne(s, k)) == Frames(s)
  {
    if BASE_PAGE + k in s.pages {
      assert MappedFrame(s, s.pages[BASE_PAGE + k]);
      PageFramesWithout(s.pages, BASE_PAGE + k);
      hide PageFrames;
    }
  }

  lemma ReleaseMappedSafeIff(s: State, k: nat)
    requires Safe(s) && s.first <= k && BASE_PAGE + k in s.pages
    ensures Safe(ReleaseOne(s, k)) <==> !MisplacingRelease(s, k)
    ensures ReleaseOne(s, k).pool == Put(s.pool, FrameAt(s, k)) && Sound(ReleaseOne(s, k).pool)
  {
    var t := ReleaseOne(s, k);
    var pa := s.pages[BASE_PAGE + k];
    assert MappedFrame(s, pa);
    PutSound(s.pool, pa / PAGE_SIZE);
    if s.pool.a > 0 { PutKeepsCursorIff(s.pool, pa / PAGE_SIZE); }
    assert CursorFree(t.pool) <==> !MisplacingRelease(s, k);
    hide Sound, CursorFree, Misplaces, MisplacingRelease;
    assert Apart(t) by {
      forall p | p in t.pages ensures MappedFrame(t, t.pages[p]) {
        assert MappedFrame(s, s.pages[p]) && s.pages[p] != pa;
      }
    }
    assert Injective(t.pages) && Ranges(t);
  }

  lemma ReleaseUnmappedSafe(s: State, k: nat)
    requires Safe(s) && s.first <= k && BASE_PAGE + k !in s.pages
    ensures Safe(ReleaseOne(s, k)) && ReleaseOne(s, k).pool == s.pool
  {
    var t := ReleaseOne(s, k);
    forall p | p in t.pages ensures MappedFrame(t, t.pages[p]) { assert MappedFrame(s, s.pages[p]); }
  }

  /** All of safety but the cursor survives any release; the cursor survives
      exactly when the freed frame is not at a higher bit of an earlier word. */
  lemma ReleaseOneSafeIff(s: State, k: nat)
    requires Safe(s) && s.first <= k
    ensures Safe(ReleaseOne(s, k)) <==> !MisplacingRelease(s, k)
    ensures Follows(s, ReleaseOne(s, k)) && ReleaseOne(s, k).next == s.next
    ensures Sound(ReleaseOne(s, k).pool)
  {
    ReleaseOneFrames(s, k);
    if BASE_PAGE + k in s.pages {
      ReleaseMappedSafeIff(s, k);
      assert MappedFrame(s, s.pages[BASE_PAGE + k]);
    } else {
      ReleaseUnmappedSafe(s, k);
    }
    hide Frames, Safe;
  }

  // ---- whole operations

  function ReserveN(s: State, c: nat): State
    decreases c
  {
    if c == 0 then s else ReserveN(ReserveOne(s), c - 1)
  }

  ghost function CommitN(s: State, c: nat): Outcome
    requires Sound(s.pool)
    decreases c
  {
    if c == 0 then Running(s)
    else
      GetSound(s.pool);
      match CommitOne(s)
      case Running(t) => CommitN(t, c - 1)
      case o => o
  }

  ghost function ReleaseN(s: State, k: nat, c: nat): State
    decreases c
  {
    if c == 0 then s else ReleaseN(ReleaseOne(s, k), k + 1, c - 1)
  }

  /** No frame freed along the way misplaces the cursor. */
  ghost predicate OrderlyRelease(s: State, k: nat, c: nat)
    decreases c
  {
    c == 0 || (!MisplacingRelease(s, k) && OrderlyRelease(ReleaseOne(s, k), k + 1, c - 1))
  }

  ghost function Step(s: State, op: Op): Outcome
    requires Sound(s.pool)
  {
    match op
    case Reserve(c) => Running(ReserveN(s, c))
    case Commit(c) => CommitN(s, c)
    case TakeFrame => Running(TakeOne(s))
    case CommitFixed(f) => FixOne(s, f)
    case Fault(k) => FaultOne(s, k)
    case Release(k, c) => Running(ReleaseN(s, k, c))
  }

  /** What callers and the hardware keep to: the range manager's gigabyte is
      not overrun, a fixed page's frame was taken for it, a fault happens only
      where nothing is mapped, and only the manager's own pages are released. */
  predicate Allowed(s: State, op: Op) {
    match op
    case Reserve(c) => s.next + c <= RAM_PAGES
    case Commit(c) => s.next + c <= RAM_PAGES
    case TakeFrame => true
    case CommitFixed(f) => f in s.held && s.next < RAM_PAGES
    case Fault(k) => BASE_PAGE + k !in s.pages
    case Release(k, c) => s.first <= k && k + c <= RAM_PAGES
  }

  ghost predicate Orderly(s: State, op: Op) {
    op.Release? ==> OrderlyRelease(s, op.k, op.c)
  }

  lemma {:induction false} ReserveNSafe(s: State, c: nat)
    requires Safe(s)
    ensures Safe(ReserveN(s, c)) && Follows(s, ReserveN(s, c)) && ReserveN(s, c).next == s.next + c
    decreases c
  {
    hide Safe, Frames;
    if c > 0 {
      ReserveOneSafe(s);
      ReserveNSafe(ReserveOne(s), c - 1);
    }
  }

  lemma {:induction false} CommitNSafe(s: State, c: nat)
    requires Safe(s)
    ensures GoodStep(s, CommitN(s, c))
    ensures CommitN(s, c).Running? ==> CommitN(s, c).s.next == s.next + c
    decreases c
  {
    hide Safe, CommitOne, Frames, Sound;
    GetSafe(s);
    if c > 0 {
      CommitOneSafe(s);
      if CommitOne(s).Running? { CommitNSafe(CommitOne(s).s, c - 1); }
    }
  }

  lemma {:induction false} ReleaseNSafe(s: State, k: nat, c: nat)
    requires Safe(s) && s.first <= k && OrderlyRelease(s, k, c)
    ensures Safe(ReleaseN(s, k, c)) && Follows(s, ReleaseN(s, k, c)) && ReleaseN(s, k, c).next == s.next
    decreases c
  {
    hide Safe, Frames, ReleaseOne, MisplacingRelease;
    if c > 0 {
      ReleaseOneSafeIff(s, k);
      ReleaseNSafe(ReleaseOne(s, k), k + 1, c - 1);
    }
  }

  /** Every allowed, orderly operation keeps safety and never meets the
      "already mapped" assertion. */
  lemma StepSafe(s: State, op: Op)
    requires Safe(s) && s.next <= RAM_PAGES && Allowed(s, op) && Orderly(s, op)
    ensures GoodStep(s, Step(s, op))
    ensures Step(s, op).Running? ==> Step(s, op).s.next <= RAM_PAGES
  {
    match op
    case Reserve(c) => ReserveNSafe(s, c);
    case Commit(c) => CommitNSafe(s, c);
    case TakeFrame => TakeOneSafe(s);
    case CommitFixed(f) => FixOneSafe(s, f);
    case Fault(k) => FaultOneSafe(s, k);
    case Release(k, c) => ReleaseNSafe(s, k, c);
  }

  // ---- start-up

  /** vm_init maps the pages of its own bitmap before it manages any range:
      nothing is owned, and the managed range starts after them. */
  ghost function InitOne(s: State): Outcome
    requires Sound(s.pool)
  {
    var (pool, f) := Get(s.pool);
    if f == 0 then OutOfMemory
    else match AdvanceAfter(MapAt(s.(pool := pool), s.next, f))
      case Running(t) => Running(t.(first := t.next))
      case o => o
  }

  ghost function InitN(s: State, c: nat): Outcome
    requires Sound(s.pool)
    decreases c
  {
    if c == 0 then Running(s)
    else
      GetSound(s.pool);
      match InitOne(s)
      case Running(t) => InitN(t, c - 1)
      case o => o
  }

  lemma InitOneSafe(s: State)
    requires Safe(s) && s.first == s.next && s.owned == {}
    ensures InitOne(s) != AssertionFailed
    ensures InitOne(s) == OutOfMemory <==> s.pool.a == 0
    ensures InitOne(s).Running? ==>
              var t := InitOne(s).s; Safe(t) && t.next == t.first == s.next + 1 && t.owned == {}
  {
    hide Get, Frames, Sound;
    GetSafe(s);
    NothingBeyondNext(s, s.next);
    if s.pool.a > 0 {
      FaultSourceSafe(s);
      var u := s.(pool := Get(s.pool).0, next := s.next + 1, first := s.next + 1);
      InitMapSafe(s.(pool := Get(s.pool).0), Get(s.pool).1);
    }
  }

  lemma InitMapSafe(s: State, f: nat)
    requires Safe(s) && s.first == s.next && s.owned == {}
    requires 0 < f < s.frames && f !in s.pool.free && f !in s.held
    requires forall p :: p in s.pages ==> s.pages[p] / PAGE_SIZE != f
    ensures MapAt(s, s.next, f).Running?
    ensures Safe(MapAt(s, s.next, f).s.(next := s.next + 1, first := s.next + 1))
  {
    hide Sound, CursorFree;
    NothingBeyondNext(s, s.next);
    assert f * PAGE_SIZE / PAGE_SIZE == f && f * PAGE_SIZE % PAGE_SIZE == 0;
    var t := MapAt(s, s.next, f).s.(next := s.next + 1, first := s.next + 1);
    forall p | p in t.pages ensures MappedFrame(t, t.pages[p]) {
      if p in s.pages { assert MappedFrame(s, s.pages[p]); }
    }
  }

  /** Start-up hands over a safe state that owns nothing, or runs out of memory
      when fewer than c hand-outs are left. */
  lemma {:induction false} InitNSafe(s: State, c: nat)
    requires Safe(s) && s.first == s.next && s.owned == {}
    ensures InitN(s, c) != AssertionFailed
    ensures InitN(s, c) == OutOfMemory <==> s.pool.a < c
    ensures InitN(s, c).Running? ==>
              var t := InitN(s, c).s; Safe(t) && t.next == t.first == s.next + c && t.owned == {}
    decreases c
  {
    hide Safe, Frames, Sound;
    GetSafe(s);
    if c > 0 {
      InitOneSafe(s);
      if InitOne(s).Running? { InitNSafe(InitOne(s).s, c - 1); }
    }
  }

  /** Start-up hands out frames it accounts for, and no others. */
  lemma {:induction false} InitNFrames(s: State, c: nat)
    requires Safe(s) && s.first == s.next && s.owned == {}
    ensures InitN(s, c).Running? ==> Frames(InitN(s, c).s) == Frames(s)
    decreases c
  {
    hide Safe, Frames, Sound;
    GetSafe(s);
    if c > 0 {
      InitOneSafe(s);
      InitOneFrames(s);
      if InitOne(s).Running? { InitNFrames(InitOne(s).s, c - 1); }
    }
  }

  lemma InitOneFrames(s: State)
    requires Safe(s) && s.first == s.next && s.owned == {}
    ensures InitOne(s).Running? ==> Frames(InitOne(s).s) == Frames(s)
  {
    hide Get, Sound, Safe;
    GetSafe(s);
    NothingBeyondNext(s, s.next);
    if s.pool.a > 0 {
      FaultSourceSafe(s);
      MapAtFrames(s.(pool := Get(s.pool).0), s.next, Get(s.pool).1);
    }
  }

  /** Start-up counts exactly: a hand-out for each page, and nothing held. */
  lemma {:induction false} InitNCount(s: State, c: nat)
    requires Safe(s) && s.first == s.next && s.owned == {} && s.pool.a == |s.pool.free|
    ensures InitN(s, c).Running? ==>
              var t := InitN(s, c).s; t.held == s.held && t.pool.a == |t.pool.free| == s.pool.a - c
    decreases c
  {
    hide Safe, Sound;
    GetSafe(s);
    if c > 0 {
      InitOneSafe(s);
      InitOneCount(s);
      if InitOne(s).Running? { InitNCount(InitOne(s).s, c - 1); }
    }
  }

  /** m with page + i mapped to frame fs[i]. */
  ghost predicate MappedRun(m: map<nat, nat>, m': map<nat, nat>, page: nat, fs: seq<nat>) {
    && (forall p :: p in m' <==> p in m || page <= p < page + |fs|)
    && (forall i: nat :: i < |fs| ==> page + i in m' && m'[page + i] == fs[i] * PAGE_SIZE)
    && (forall p :: p in m && !(page <= p < page + |fs|) ==> m'[p] == m[p])
  }

  /** Start-up maps the frames of a run of hand-outs, in order, and nothing
      else. */
  lemma {:induction false} InitNMaps(s: State, c: nat)
    requires Safe(s) && s.first == s.next && s.owned == {} && c <= s.pool.a
    ensures InitN(s, c).Running? && Sound(s.pool)
    ensures var t := InitN(s, c).s;
            t.pool == GetRun(s.pool, c).0 && MappedRun(s.pages, t.pages, BASE_PAGE + s.next, GetRun(s.pool, c).1)
    decreases c
  {
    hide Safe, Sound, Get;
    GetSafe(s);
    if c > 0 {
      InitOneSafe(s);
      InitOneMaps(s);
      var u := InitOne(s).s;
      InitNMaps(u, c - 1);
      var f, rest, t := Get(s.pool).1, GetRun(u.pool, c - 1).1, InitN(u, c - 1).s;
      assert GetRun(s.pool, c) == (GetRun(u.pool, c - 1).0, [f] + rest);
      MappedFront(s.pages, u.pages, t.pages, BASE_PAGE + s.next, f, rest);
    }
  }

  lemma InitOneMaps(s: State)
    requires Safe(s) && s.first == s.next && s.pool.a > 0
    ensures Sound(s.pool) && InitOne(s).Running?
    ensures var t := InitOne(s).s;
            t.pool == Get(s.pool).0 && t.pages == s.pages[BASE_PAGE + s.next := Get(s.pool).1 * PAGE_SIZE]
            && t.next == s.next + 1 && BASE_PAGE + s.next !in s.pages && t.pool.a == s.pool.a - 1
  {
    hide Get;
    GetSafe(s);
    NothingBeyondNext(s, s.next);
  }

  lemma MappedFront(m: map<nat, nat>, u: map<nat, nat>, t: map<nat, nat>, page: nat, f: nat, rest: seq<nat>)
    requires u == m[page := f * PAGE_SIZE] && MappedRun(u, t, page + 1, rest)
    ensures MappedRun(m, t, page, [f] + rest)
  {
    var fs := [f] + rest;
    forall i: nat | i < |fs| ensures page + i in t && t[page + i] == fs[i] * PAGE_SIZE {
      if i > 0 { assert t[page + 1 + (i - 1)] == rest[i - 1] * PAGE_SIZE; }
    }
  }

  lemma InitOneCount(s: State)
    requires Safe(s) && s.pool.a == |s.pool.free|
    ensures InitOne(s).Running? ==>
              var t := InitOne(s).s; t.held == s.held && t.pool.a == |t.pool.free| == s.pool.a - 1
  {
  }

  // ---- whole runs

  ghost predicate WellRun(s: State, ops: seq<Op>)
    requires Safe(s) && s.next <= RAM_PAGES
    decreases |ops|
  {
    ops == [] || (
      Allowed(s, ops[0]) && Orderly(s, ops[0]) && (
        StepSafe(s, ops[0]);
        Step(s, ops[0]).Running? ==> WellRun(Step(s, ops[0]).s, ops[1..])))
  }

  ghost function Run(s: State, ops: seq<Op>): Outcome
    requires Safe(s) && s.next <= RAM_PAGES && WellRun(s, ops)
    decreases |ops|
  {
    if ops == [] then Running(s)
    else
      StepSafe(s, ops[0]);
      match Step(s, ops[0])
      case Running(t) => Run(t, ops[1..])
      case o => o
  }

  /** Over every run: no two pages share a frame, no mapped or held frame is
      free, pages are mapped only where owned, nothing beyond next is mapped,
      every frame stays accounted for, and no run ends in a failed assertion. */
  lemma {:induction false} RunSafe(s: State, ops: seq<Op>)
    requires Safe(s) && s.next <= RAM_PAGES && WellRun(s, ops)
    ensures GoodStep(s, Run(s, ops))
    decreases |ops|
  {
    if ops != [] {
      StepSafe(s, ops[0]);
      if Step(s, ops[0]).Running? { RunSafe(Step(s, ops[0]).s, ops[1..]); }
    }
  }

  /** Releasing never makes a hand-out available again: once the count is
      zero, every later commit of a page runs out of memory. */
  lemma ExhaustedForGood(s: State, ops: seq<Op>, c: nat)
    requires Safe(s) && s.next <= RAM_PAGES && s.pool.a == 0 && WellRun(s, ops)
    requires Run(s, ops).Running? && c > 0
    ensures Sound(Run(s, ops).s.pool) && CommitN(Run(s, ops).s, c) == OutOfMemory
  {
    RunSafe(s, ops);
    CommitOneSafe(Run(s, ops).s);
  }

  // ---- frames outside the machine

  /** A frame the machine does not account for at the start is never handed
      out, held or mapped, in any run. */
  lemma NeverHandedOut(s: State, ops: seq<Op>, f: nat)
    requires Safe(s) && s.next <= RAM_PAGES && WellRun(s, ops) && f !in Frames(s)
    ensures Run(s, ops).Running? ==>
              var t := Run(s, ops).s;
              f !in t.pool.free && f !in t.held && forall p :: p in t.pages ==> t.pages[p] / PAGE_SIZE != f
  {
    hide Safe;
    RunSafe(s, ops);
    if Run(s, ops).Running? {
      var t := Run(s, ops).s;
      assert Frames(t) == Frames(s);
      forall p | p in t.pages ensures t.pages[p] / PAGE_SIZE != f { assert t.pages[p] / PAGE_SIZE in PageFrames(t.pages); }
    }
  }

  /** Commits of c pages with the count exact: c frames leave the free set. */
  lemma {:induction false} CommitsCount(s: State, c: nat)
    requires Safe(s) && s.pool.a == |s.pool.free| && c <= s.pool.a
    ensures Sound(s.pool) && CommitN(s, c).Running?
    ensures var t := CommitN(s, c).s;
            Safe(t) && t.held == s.held && Frames(t) == Frames(s) && t.pool.a == |t.pool.free| == s.pool.a - c
    decreases c
  {
    hide Safe, Frames, Sound;
    GetSafe(s);
    if c > 0 {
      CommitOneSafe(s);
      CommitOneCount(s);
      CommitsCount(CommitOne(s).s, c - 1);
    }
  }

  lemma CommitOneCount(s: State)
    requires Safe(s) && s.pool.a == |s.pool.free| > 0
    ensures CommitOne(s).Running? ==>
              var t := CommitOne(s).s; t.held == s.held && t.pool.a == |t.pool.free| == s.pool.a - 1
  {
  }

  /** A frame the machine accounts for, and that no driver holds, does get
      mapped: when the count is exact, committing all of it maps every free
      frame. */
  lemma AccountedGetsMapped(s: State, f: nat)
    requires Safe(s) && s.pool.a == |s.pool.free| && f in Frames(s) && f !in s.held
    ensures Sound(s.pool) && CommitN(s, s.pool.a).Running?
    ensures f in PageFrames(CommitN(s, s.pool.a).s.pages)
  {
    hide Safe, Sound, PageFrames;
    CommitsCount(s, s.pool.a);
    assert CommitN(s, s.pool.a).s.pool.free == {};
  }

  // ---- why the releases must be orderly

  /** After a release that misplaces the cursor the next commit maps the frame
      the cursor then names, which is not free: two pages share it exactly when
      one was mapped to it already. */
  lemma MisplacedCommitShares(s: State, k: nat)
    requires Safe(s) && s.first <= k && MisplacingRelease(s, k) && ReleaseOne(s, k).pool.cursor != 0
    ensures var t, g := ReleaseOne(s, k), ReleaseOne(s, k).pool.cursor;
            && Sound(t.pool) && g !in t.pool.free && CommitOne(t).Running?
            && CommitOne(t).s.pages == t.pages[BASE_PAGE + s.next := g * PAGE_SIZE]
            && (Injective(CommitOne(t).s.pages) <==> g !in PageFrames(t.pages))
  {
    hide Sound, CursorFree, Misplaces, PageFrames, Safe;
    var t, g := ReleaseOne(s, k), ReleaseOne(s, k).pool.cursor;
    NothingBeyondNext(s, s.next);
    ReleasedCursor(s, k);
    assert CommitOne(t) == AdvanceAfter(MapAt(t.(pool := Get(t.pool).0, owned := t.owned + {t.next}), t.next, g));
    OneMore(s, t.pages, BASE_PAGE + s.next, g);
  }

  lemma ReleasedCursor(s: State, k: nat)
    requires Safe(s) && s.first <= k && MisplacingRelease(s, k)
    ensures var q := ReleaseOne(s, k).pool; Sound(q) && q.a > 0 && q.cursor !in q.free && Get(q).1 == q.cursor
    ensures forall p :: p in ReleaseOne(s, k).pages ==> p in s.pages && ReleaseOne(s, k).pages[p] == s.pages[p]
  {
    var f := FrameAt(s, k);
    assert MappedFrame(s, s.pages[BASE_PAGE + k]);
    PutSound(s.pool, f);
    PutKeepsCursorIff(s.pool, f);
  }

  /** A further page at frame g, on top of pages of a safe state. */
  lemma OneMore(s: State, pages: map<nat, nat>, page: nat, g: nat)
    requires Safe(s) && page !in pages && forall p :: p in pages ==> p in s.pages && pages[p] == s.pages[p]
    ensures Injective(pages[page := g * PAGE_SIZE]) <==> g !in PageFrames(pages)
  {
    var m := pages[page := g * PAGE_SIZE];
    assert g * PAGE_SIZE / PAGE_SIZE == g;
    if g in PageFrames(pages) {
      var p :| p in pages && pages[p] / PAGE_SIZE == g;
      assert MappedFrame(s, s.pages[p]);
      assert m[p] == m[page];
    }
  }

  /** Four free frames above the first megabyte, two in each of two words; the
      range manager starts at page 40. */
  function SharedFrameStart(): State {
    State(Pool({260, 266, 323, 324}, 4, 260), map[], {}, 40, {}, 40, 384)
  }

  /** The state after committing n of the first three frames. */
  function SharedFrameAfter(n: nat): State
    requires n <= 3
  {
    match n
    case 0 => SharedFrameStart()
    case 1 => State(Pool({266, 323, 324}, 3, 266), map[BASE_PAGE + 40 := 260 * PAGE_SIZE], {40}, 41, {}, 40, 384)
    case 2 =>
      State(Pool({323, 324}, 2, 323), map[BASE_PAGE + 40 := 260 * PAGE_SIZE, BASE_PAGE + 41 := 266 * PAGE_SIZE], {40, 41},
            42, {}, 40, 384)
    case 3 =>
      State(Pool({324}, 1, 324),
            map[BASE_PAGE + 40 := 260 * PAGE_SIZE, BASE_PAGE + 41 := 266 * PAGE_SIZE, BASE_PAGE + 42 := 323 * PAGE_SIZE],
            {40, 41, 42}, 43, {}, 40, 384)
  }

  lemma LeastIs(s: set<nat>, m: nat)
    requires IsLeast(s, m)
    ensures s != {} && Least(s) == m
  {
  }

  lemma SharedFrameCommit(n: nat)
    requires n < 3
    ensures Sound(SharedFrameAfter(n).pool)
    ensures CommitOne(SharedFrameAfter(n)) == Running(SharedFrameAfter(n + 1))
  {
    var s, t := SharedFrameAfter(n), SharedFrameAfter(n + 1);
    assert s.pool.free - {s.pool.cursor} == t.pool.free;
    assert |s.pool.free| >= s.pool.a;
    LeastIs(t.pool.free, t.pool.cursor);
  }

  function SharedFrameReleased(): State {
    State(Pool({266, 324}, 1, 260), map[BASE_PAGE + 40 := 260 * PAGE_SIZE, BASE_PAGE + 42 := 323 * PAGE_SIZE], {40, 42}, 43,
          {}, 40, 384)
  }

  lemma SharedFrameRelease()
    ensures ReleaseN(SharedFrameAfter(3), 41, 1) == SharedFrameReleased()
    ensures MisplacingRelease(SharedFrameAfter(3), 41)
  {
    var s := SharedFrameAfter(3);
    assert FrameAt(s, 41) == 266;
    assert Put(s.pool, 266) == Pool({266, 324}, 1, 260);
    assert s.pages - {BASE_PAGE + 41} == SharedFrameReleased().pages;
    assert s.owned - {41} == {40, 42};
    assert ReleaseOne(s, 41) == SharedFrameReleased();
    assert ReleaseN(ReleaseOne(s, 41), 42, 0) == ReleaseOne(s, 41);
  }

  lemma SharedFrameLast()
    ensures Sound(SharedFrameReleased().pool)
    ensures CommitN(SharedFrameReleased(), 1).Running?
    ensures CommitN(SharedFrameReleased(), 1).s.pages ==
            SharedFrameReleased().pages[BASE_PAGE + 43 := 260 * PAGE_SIZE]
  {
    var s := SharedFrameReleased();
    assert 266 in s.pool.free && |s.pool.free| >= 1;
    GetSound(s.pool);
    assert CommitOne(s).Running?;
    assert CommitN(CommitOne(s).s, 0) == CommitOne(s);
  }

  lemma SharedFrameStartSafe()
    ensures Safe(SharedFrameStart())
  {
    assert |{260, 266, 323, 324}| == 4;
  }

  /** A safe, allowed run after which two pages share frame 260: commit
      three pages, release the second (frame 266, at bit 10 of word 4, while the
      cursor is at bit 4 of word 5), commit one more. */
  lemma SharedFrame()
    ensures Safe(SharedFrameStart())
    ensures CommitN(SharedFrameStart(), 3) == Running(SharedFrameAfter(3))
    ensures Allowed(SharedFrameAfter(3), Release(41, 1)) && !OrderlyRelease(SharedFrameAfter(3), 41, 1)
    ensures ReleaseN(SharedFrameAfter(3), 41, 1) == SharedFrameReleased() && Sound(SharedFrameReleased().pool)
    ensures CommitN(SharedFrameReleased(), 1).Running? && !Injective(CommitN(SharedFrameReleased(), 1).s.pages)
  {
    SharedFrameCommit(0);
    SharedFrameCommit(1);
    SharedFrameCommit(2);
    CommitThree(SharedFrameStart(), SharedFrameAfter(1), SharedFrameAfter(2), SharedFrameAfter(3));
    SharedFrameStartSafe();
    SharedFrameRelease();
    SharedFrameLast();
    hide Sound, Safe, CommitN, ReleaseN;
    var m := CommitN(SharedFrameReleased(), 1).s.pages;
    assert m[BASE_PAGE + 40] == m[BASE_PAGE + 43];
  }

  lemma CommitThree(s0: State, s1: State, s2: State, s3: State)
    requires Sound(s0.pool) && Sound(s1.pool) && Sound(s2.pool)
    requires CommitOne(s0) == Running(s1) && CommitOne(s1) == Running(s2) && CommitOne(s2) == Running(s3)
    ensures CommitN(s0, 3) == Running(s3)
  {
    assert Sound(s3.pool) by { GetSound(s2.pool); }
    assert CommitN(s3, 0) == Running(s3);
    assert CommitN(s2, 1) == Running(s3);
    assert CommitN(s1, 2) == Running(s3);
  }
}
