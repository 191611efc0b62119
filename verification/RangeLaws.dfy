/** What each operation of src/kernel/memory/vm.c does to the kernel's memory,
    in terms of what is owned, mapped and free before and after it, and that a
    reserved page is backed on its first touch. */
module RangeLaws {
  import opened Bitmap
  import opened FramePool
  import opened KernelMemory
  import opened Division

  /** The offsets of c pages from k on. */
  function Span(k: nat, c: nat): (r: set<nat>)
    ensures forall i :: i in r <==> k <= i < k + c
    decreases c
  {
    if c == 0 then {} else {k} + Span(k + 1, c - 1)
  }

  // ---- reserve

  /** Reserving owns the next pages, and does nothing else. */
  lemma {:induction false} ReserveOwns(s: State, c: nat)
    ensures var t := ReserveN(s, c);
            && t.owned == s.owned + Span(s.next, c) && t.next == s.next + c
            && t.pages == s.pages && t.pool == s.pool && t.held == s.held && t.first == s.first && t.frames == s.frames
    decreases c
  {
    if c > 0 {
      ReserveOwns(ReserveOne(s), c - 1);
    }
  }

  // ---- fault

  /** A fault on an owned page that is not mapped takes the next free frame and
      maps the page to it, or runs out of memory exactly when the count is
      zero; on a page that is not owned it changes nothing. */
  lemma FaultBacks(s: State, k: nat)
    requires Safe(s) && k < RAM_PAGES && BASE_PAGE + k !in s.pages
    ensures k !in s.owned ==> FaultOne(s, k) == Running(s)
    ensures k in s.owned && s.pool.a == 0 ==> FaultOne(s, k) == OutOfMemory
    ensures k in s.owned && s.pool.a > 0 ==>
              && FaultOne(s, k).Running?
              && (var t := FaultOne(s, k).s;
                  exists f ::
                    && f in s.pool.free && t.pool.free == s.pool.free - {f} && t.pool.a == s.pool.a - 1
                    && t.pages == s.pages[BASE_PAGE + k := f * PAGE_SIZE]
                    && t.owned == s.owned && t.held == s.held && t.next == s.next && t.first == s.first)
  {
    hide Safe, Get;
    GetSafe(s);
  }

  /** A second fault on a page that is mapped fails the walker's assertion, if
      a frame is left for it. */
  lemma FaultTwice(s: State, k: nat)
    requires Safe(s) && k in s.owned && k < RAM_PAGES && BASE_PAGE + k in s.pages
    ensures FaultOne(s, k) == if s.pool.a == 0 then OutOfMemory else AssertionFailed
  {
    hide Safe, Get;
    GetSafe(s);
  }

  // ---- the other operations

  /** A commit of one page is a reservation and a fault on it. */
  lemma CommitIsReserveAndFault(s: State)
    requires Safe(s) && s.next < RAM_PAGES
    ensures Sound(ReserveOne(s).pool) && CommitOne(s) == FaultOne(ReserveOne(s), s.next)
  {
    hide Safe, Get;
    GetSafe(s);
  }

  /** So it is with c pages: while hand-outs are left they are owned and mapped,
      in order, to the frames of as many hand-outs. */
  lemma {:induction false} CommitMaps(s: State, c: nat)
    requires Safe(s) && s.next + c <= RAM_PAGES && c <= s.pool.a
    ensures Sound(s.pool) && CommitN(s, c).Running?
    ensures var t := CommitN(s, c).s;
            && t.owned == s.owned + Span(s.next, c) && t.next == s.next + c && t.held == s.held && t.first == s.first
            && t.pool == GetRun(s.pool, c).0 && MappedRun(s.pages, t.pages, BASE_PAGE + s.next, GetRun(s.pool, c).1)
    decreases c
  {
    hide Safe, Sound, Get, MappedRun, Frames, CommitN, CommitOne, GetRun, Span;
    GetSafe(s);
    if c == 0 {
      NothingMapped(s.pages, BASE_PAGE + s.next);
      NoneCommitted(s);
    } else {
      CommitOneSafe(s);
      CommitMapsOne(s);
      var u := CommitOne(s).s;
      CommitMaps(u, c - 1);
      CommitUnfold(s, c);
      SpanStep(s.next, c);
      MappedFront(s.pages, u.pages, CommitN(u, c - 1).s.pages, BASE_PAGE + s.next, Get(s.pool).1, GetRun(u.pool, c - 1).1);
    }
  }

  lemma NoneCommitted(s: State)
    requires Sound(s.pool)
    ensures CommitN(s, 0) == Running(s) && GetRun(s.pool, 0) == (s.pool, []) && Span(s.next, 0) == {}
  {
  }

  lemma CommitUnfold(s: State, c: nat)
    requires c > 0 && Sound(s.pool) && CommitOne(s).Running? && CommitOne(s).s.pool == Get(s.pool).0
    ensures Sound(CommitOne(s).s.pool) && CommitN(s, c) == CommitN(CommitOne(s).s, c - 1)
    ensures var r := GetRun(CommitOne(s).s.pool, c - 1); GetRun(s.pool, c) == (r.0, [Get(s.pool).1] + r.1)
  {
    hide CommitOne, Get;
    GetSound(s.pool);
  }

  lemma NothingMapped(m: map<nat, nat>, page: nat)
    ensures MappedRun(m, m, page, [])
  {
  }

  lemma CommitMapsOne(s: State)
    requires Safe(s) && s.pool.a > 0
    ensures Sound(s.pool) && CommitOne(s).Running?
    ensures CommitOne(s).s ==
            s.(owned := s.owned + {s.next}, next := s.next + 1, pool := Get(s.pool).0,
               pages := s.pages[BASE_PAGE + s.next := Get(s.pool).1 * PAGE_SIZE])
    ensures CommitOne(s).s.pool.a == s.pool.a - 1
  {
    hide Get;
    GetSafe(s);
    NothingBeyondNext(s, s.next);
  }

  /** A driver's hand-out moves one frame from the free ones to those held. */
  lemma TakeHolds(s: State)
    requires Safe(s)
    ensures Sound(s.pool)
    ensures s.pool.a == 0 ==> TakeOne(s) == s
    ensures s.pool.a > 0 ==>
              exists f ::
                && f in s.pool.free && TakeOne(s).held == s.held + {f} && TakeOne(s).pool.free == s.pool.free - {f}
                && TakeOne(s) == s.(pool := TakeOne(s).pool, held := TakeOne(s).held)
  {
    hide Safe;
    GetSafe(s);
  }

  /** A fixed commit owns the next page and maps it to the frame, which is no
      longer held. */
  lemma FixMaps(s: State, f: nat)
    requires Safe(s) && f in s.held
    ensures FixOne(s, f) ==
            Running(s.(owned := s.owned + {s.next}, held := s.held - {f}, next := s.next + 1,
                       pages := s.pages[BASE_PAGE + s.next := f * PAGE_SIZE]))
  {
    NothingBeyondNext(s, s.next);
  }

  /** No managed page is mapped to address 0, which the source takes for a page
      that is not mapped. */
  ghost predicate AtFrames(s: State) {
    forall p :: p in s.pages && p >= BASE_PAGE + s.first ==> s.pages[p] != 0
  }

  lemma SafeAtFrames(s: State)
    requires Safe(s)
    ensures AtFrames(s)
  {
    forall p | p in s.pages && p >= BASE_PAGE + s.first ensures s.pages[p] != 0 { assert MappedFrame(s, s.pages[p]); }
  }

  /** A release of one page ends its ownership; a page that was mapped is not
      any more, and its frame is free. */
  lemma ReleaseFrees(s: State, k: nat)
    requires AtFrames(s) && s.first <= k
    ensures var t := ReleaseOne(s, k);
            && t.owned == s.owned - {k} && t.pages == s.pages - {BASE_PAGE + k}
            && t.pool.free == s.pool.free + (if BASE_PAGE + k in s.pages then {s.pages[BASE_PAGE + k] / PAGE_SIZE} else {})
            && t.pool.a == s.pool.a && t.held == s.held && t.next == s.next && t.first == s.first
    ensures AtFrames(ReleaseOne(s, k))
  {
  }

  /** The frames of the pages from k on that are mapped. */
  function FramesOf(m: map<nat, nat>, k: nat, c: nat): set<nat> {
    set p | p in m && BASE_PAGE + k <= p < BASE_PAGE + k + c :: m[p] / PAGE_SIZE
  }

  /** The page numbers of c pages from offset k on. */
  function PageSpan(k: nat, c: nat): set<nat> {
    Span(BASE_PAGE + k, c)
  }

  /** A release of c pages does so for each, whatever becomes of the pool's
      cursor. */
  lemma {:induction false} ReleaseFreesAll(s: State, k: nat, c: nat)
    requires AtFrames(s) && s.first <= k
    ensures var t := ReleaseN(s, k, c);
            && t.owned == s.owned - Span(k, c) && t.pages == s.pages - PageSpan(k, c)
            && t.pool.free == s.pool.free + FramesOf(s.pages, k, c) && t.pool.a == s.pool.a
            && t.held == s.held && t.next == s.next && t.first == s.first
    decreases c
  {
    hide AtFrames, ReleaseOne, FramesOf, PageSpan, Span;
    if c > 0 {
      ReleaseFrees(s, k);
      var t := ReleaseOne(s, k);
      ReleaseFreesAll(t, k + 1, c - 1);
      SpanStep(k, c);
      FramesStep(s.pages, t.pages, k, c);
    } else {
      FramesNone(s.pages, k);
    }
  }

  lemma SpanStep(k: nat, c: nat)
    requires c > 0
    ensures Span(k, c) == {k} + Span(k + 1, c - 1) && PageSpan(k, c) == {BASE_PAGE + k} + PageSpan(k + 1, c - 1)
  {
  }

  lemma FramesNone(m: map<nat, nat>, k: nat)
    ensures FramesOf(m, k, 0) == {} && Span(k, 0) == {} && PageSpan(k, 0) == {}
  {
  }

  lemma FramesStep(m: map<nat, nat>, m': map<nat, nat>, k: nat, c: nat)
    requires c > 0 && m' == m - {BASE_PAGE + k}
    ensures FramesOf(m, k, c) ==
            (if BASE_PAGE + k in m then {m[BASE_PAGE + k] / PAGE_SIZE} else {}) + FramesOf(m', k + 1, c - 1)
  {
    forall p | p in m && BASE_PAGE + k < p < BASE_PAGE + k + c ensures p in m' && m'[p] == m[p] { }
  }

  // ---- laws across operations

  /** A page that is reserved is backed at its first touch, whatever the kernel
      does to other pages in between: the fault is handled, and leaves it mapped
      unless no hand-out is left. */
  lemma ReservedIsBacked(s: State, c: nat, k: nat)
    requires Safe(s) && s.next + c <= RAM_PAGES && s.next <= k < s.next + c
    ensures var t := ReserveN(s, c);
            && Safe(t) && k in t.owned && BASE_PAGE + k !in t.pages
            && (if s.pool.a == 0 then FaultOne(t, k) == OutOfMemory
                else FaultOne(t, k).Running? && BASE_PAGE + k in FaultOne(t, k).s.pages)
  {
    ReserveNSafe(s, c);
    ReserveOwns(s, c);
    NothingBeyondNext(s, k);
    FaultBacks(ReserveN(s, c), k);
  }

  /** Touching each of a list of pages. */
  ghost function Touch(s: State, ks: seq<nat>): Outcome
    requires Safe(s)
    decreases |ks|
  {
    if ks == [] then Running(s)
    else if BASE_PAGE + ks[0] in s.pages then Touch(s, ks[1..])
    else
      FaultOneSafe(s, ks[0]);
      match FaultOne(s, ks[0])
      case Running(t) => Touch(t, ks[1..])
      case o => o
  }

  function Touched(ks: seq<nat>): set<nat> {
    set k | k in ks :: BASE_PAGE + k
  }

  /** t is s with the pages in added mapped as well, to frames that were free. */
  ghost predicate Backed(s: State, t: State, added: set<nat>) {
    && t.owned == s.owned && t.held == s.held && t.next == s.next
    && t.pages.Keys == s.pages.Keys + added && t.pool.free <= s.pool.free
    && (forall p :: p in s.pages ==> t.pages[p] == s.pages[p])
    && (forall p :: p in t.pages && p !in s.pages ==> t.pages[p] / PAGE_SIZE in s.pool.free)
  }

  lemma BackedThen(s: State, u: State, t: State, added: set<nat>, more: set<nat>)
    requires Backed(s, u, added) && Backed(u, t, more)
    ensures Backed(s, t, added + more)
  {
  }

  lemma BackedOne(s: State, k: nat)
    requires Safe(s) && k in s.owned && k < RAM_PAGES && BASE_PAGE + k !in s.pages && s.pool.a > 0
    ensures FaultOne(s, k).Running? && Safe(FaultOne(s, k).s) && FaultOne(s, k).s.pool.a == s.pool.a - 1
    ensures Backed(s, FaultOne(s, k).s, {BASE_PAGE + k})
  {
    hide Safe, FaultOne, Sound, Get;
    GetSafe(s);
    FaultBacks(s, k);
    FaultOneSafe(s, k);
    ghost var f :| f in s.pool.free && FaultOne(s, k).s.pages == s.pages[BASE_PAGE + k := f * PAGE_SIZE];
    QuotientUnique(f * PAGE_SIZE, PAGE_SIZE, f, 0);
  }

  /** Owned pages can be touched in any order, and again: with hand-outs enough
      all of them end up mapped, to frames that were free. */
  lemma {:induction false} TouchBacks(s: State, ks: seq<nat>)
    requires Safe(s) && |ks| <= s.pool.a && forall k :: k in ks ==> k in s.owned && k < RAM_PAGES
    ensures Touch(s, ks).Running? && Safe(Touch(s, ks).s)
    ensures Backed(s, Touch(s, ks).s, Touched(ks))
    decreases |ks|
  {
    hide Safe, FaultOne, Sound, Touched, Backed, Get;
    if ks == [] {
      TouchedNone();
      BackedNone(s);
    } else {
      var k, u := ks[0], s;
      TouchedStep(ks);
      if BASE_PAGE + k in s.pages {
        BackedAlready(s, BASE_PAGE + k);
      } else {
        GetSafe(s);
        BackedOne(s, k);
        BackedSame(s, FaultOne(s, k).s, {BASE_PAGE + k});
        u := FaultOne(s, k).s;
      }
      TouchBacks(u, ks[1..]);
      BackedThen(s, u, Touch(s, ks).s, {BASE_PAGE + k}, Touched(ks[1..]));
    }
  }

  lemma BackedNone(s: State)
    ensures Backed(s, s, {})
  {
    assert s.pages.Keys + {} == s.pages.Keys;
  }

  lemma BackedSame(s: State, t: State, added: set<nat>)
    requires Backed(s, t, added)
    ensures t.owned == s.owned
  {
  }

  lemma BackedAlready(s: State, p: nat)
    requires p in s.pages
    ensures Backed(s, s, {p})
  {
    assert s.pages.Keys + {p} == s.pages.Keys;
  }

  lemma TouchedNone()
    ensures Touched([]) == {}
  {
  }

  lemma TouchedStep(ks: seq<nat>)
    requires ks != []
    ensures Touched(ks) == {BASE_PAGE + ks[0]} + Touched(ks[1..])
    ensures ks[0] in ks && forall k :: k in ks[1..] ==> k in ks
  {
    assert forall k :: k in ks <==> k == ks[0] || k in ks[1..];
    assert ks[0] in ks;
  }

  /** Releasing pages that are not mapped ends their ownership and is orderly. */
  lemma {:induction false} ReleaseUntouched(s: State, k: nat, c: nat)
    requires forall p :: p in s.pages ==> !(BASE_PAGE + k <= p < BASE_PAGE + k + c)
    ensures OrderlyRelease(s, k, c) && ReleaseN(s, k, c) == s.(owned := s.owned - Span(k, c))
    decreases c
  {
    if c > 0 {
      assert BASE_PAGE + k !in s.pages;
      ReleaseUntouched(ReleaseOne(s, k), k + 1, c - 1);
      SpanStep(k, c);
    }
  }

  /** Reserving and releasing untouched pages gives the state back but for the
      next address. */
  lemma ReserveReleased(s: State, c: nat)
    requires Safe(s)
    ensures OrderlyRelease(ReserveN(s, c), s.next, c)
    ensures ReleaseN(ReserveN(s, c), s.next, c) == s.(next := s.next + c)
  {
    hide Safe;
    ReserveOwns(s, c);
    forall p | p in s.pages ensures !(BASE_PAGE + s.next <= p) {
      if BASE_PAGE + s.next <= p { NothingBeyondNext(s, p - BASE_PAGE); }
    }
    forall i | i in s.owned ensures i < s.next { if i >= s.next { NothingBeyondNext(s, i); } }
    ReleaseUntouched(ReserveN(s, c), s.next, c);
  }
}
