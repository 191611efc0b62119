/** The frame allocator's start-up (src/kernel/memory/pm.c:21-69): frames for
    its own bitmap, then the free frames of the rest of the map. */
module FrameStartup {
  import opened Bitmap
  import opened BootMap
  import opened BootFrames
  import opened Division
  import FramePool
  import FrameAllocator

  // ---- the free frames

  /** What the filling loop marks: the pages of the map from start on that are
      not in the table window, and every later entry's first page even if it
      is in the window. */
  ghost predicate FreeAt(es: seq<Entry>, start: nat, idx: nat, w0: nat, w1: nat, p: nat) {
    InMap(es, p) && p >= start && (w0 <= p < w1 ==> LaterBase(es, idx, p))
  }

  ghost predicate LaterBase(es: seq<Entry>, idx: nat, p: nat) {
    exists j: nat :: idx < j < |es| && p == es[j].Base()
  }

  /** The marked frames are those of FreeAt below address i. */
  ghost predicate MarkedBelow(free: set<nat>, es: seq<Entry>, start: nat, idx: nat, w0: nat, w1: nat, i: nat) {
    forall f: nat :: f in free <==> FreeAt(es, start, idx, w0, w1, f * PAGE_SIZE) && f * PAGE_SIZE < i
  }

  /** Where the filling loop stands: at a page it is about to mark. */
  ghost predicate AtPage(es: seq<Entry>, start: nat, idx: nat, w0: nat, w1: nat, j: nat, i: nat) {
    && Cursor(es, j, i) && i < es[j].End() && j >= idx && i >= start
    && FreeAt(es, start, idx, w0, w1, i)
  }

  /** Skips the window: the next address at or after i outside it. */
  method SkipWindow(i: nat, w0: nat, w1: nat) returns (k: nat)
    requires i % PAGE_SIZE == 0
    ensures k >= i && k % PAGE_SIZE == 0 && !(w0 <= k < w1)
    ensures forall p: nat :: i <= p < k && p % PAGE_SIZE == 0 ==> w0 <= p < w1
  {
    k := i;
    while k >= w0 && k < w1
      invariant k >= i && k % PAGE_SIZE == 0
      invariant forall p: nat :: i <= p < k && p % PAGE_SIZE == 0 ==> w0 <= p < w1
      decreases w1 - k
    {
      StepPage(k);
      k := k + PAGE_SIZE;
    }
  }

  lemma StepPage(k: nat)
    requires k % PAGE_SIZE == 0
    ensures (k + PAGE_SIZE) % PAGE_SIZE == 0
    ensures forall p: nat :: p % PAGE_SIZE == 0 && p < k + PAGE_SIZE ==> p <= k
  {
    QuotientUnique(k + PAGE_SIZE, PAGE_SIZE, k / PAGE_SIZE + 1, 0);
    forall p: nat | p % PAGE_SIZE == 0 && p < k + PAGE_SIZE ensures p <= k {
      assert p == p / PAGE_SIZE * PAGE_SIZE && k == k / PAGE_SIZE * PAGE_SIZE;
    }
  }

  /** A page of entry j after its first is no later entry's base. */
  lemma InnerPage(es: seq<Entry>, j: nat, p: nat, idx: nat)
    requires OrderlyMap(es) && j < |es| && es[j].Base() < p < es[j].End()
    ensures !LaterBase(es, idx, p)
  {
    forall i: nat | i < |es| ensures p != es[i].Base() {
      EntryOrder(es, i, j);
    }
  }

  lemma EntryOrder(es: seq<Entry>, i: nat, j: nat)
    requires OrderlyMap(es) && i < |es| && j < |es|
    ensures i < j ==> es[i].Base() < es[i].End() <= es[j].Base()
    ensures j < i ==> es[j].End() <= es[i].Base()
  {
  }

  /** Marking page i and moving on to k, the next address outside the window. */
  lemma MarkStep(free: set<nat>, es: seq<Entry>, start: nat, idx: nat, w0: nat, w1: nat, j: nat, i: nat, k: nat)
    requires MarkedBelow(free, es, start, idx, w0, w1, i) && AtPage(es, start, idx, w0, w1, j, i)
    requires k >= i + PAGE_SIZE && k % PAGE_SIZE == 0
    requires forall p: nat :: i + PAGE_SIZE <= p < k && p % PAGE_SIZE == 0 ==> w0 <= p < w1
    ensures i / PAGE_SIZE !in free
    ensures MarkedBelow(free + {i / PAGE_SIZE}, es, start, idx, w0, w1, if k < es[j].End() then k else es[j].End())
  {
    NextPage(es, j, i, i);
    StepPage(i);
    var g := i / PAGE_SIZE;
    assert i == g * PAGE_SIZE;
    var e := if k < es[j].End() then k else es[j].End();
    forall f: nat
      ensures f in free + {g} <==> FreeAt(es, start, idx, w0, w1, f * PAGE_SIZE) && f * PAGE_SIZE < e
    {
      var p := f * PAGE_SIZE;
      QuotientUnique(p, PAGE_SIZE, f, 0);
      if i < p < e {
        InnerPage(es, j, p, idx);
        assert i + PAGE_SIZE <= p < k;
      }
    }
  }

  /** Running off entry j on to the next one, whose first page is marked next. */
  lemma NextEntryStep(free: set<nat>, es: seq<Entry>, start: nat, idx: nat, w0: nat, w1: nat, j: nat)
    requires OrderlyMap(es) && idx <= j && j + 1 < |es| && start <= es[j].End()
    requires MarkedBelow(free, es, start, idx, w0, w1, es[j].End())
    ensures MarkedBelow(free, es, start, idx, w0, w1, es[j + 1].Base())
    ensures AtPage(es, start, idx, w0, w1, j + 1, es[j + 1].Base())
  {
    var k := es[j + 1].Base();
    assert es[j].End() <= k;
    assert InEntry(es, j + 1, k);
    forall f: nat
      ensures f in free <==> FreeAt(es, start, idx, w0, w1, f * PAGE_SIZE) && f * PAGE_SIZE < k
    {
      if InMap(es, f * PAGE_SIZE) { NextEntry(es, j, f * PAGE_SIZE); }
    }
  }

  /** Marks every free frame from start on (pm.c:47-68). */
  method MarkFree(pm: FrameAllocator.PageArray, es: seq<Entry>, start: nat, idx: nat, w0: nat, w1: nat)
    requires Cursor(es, idx, start) && start < es[idx].End() && start < w0
    requires pm.Valid() && pm.Abs() == FramePool.Pool({}, 0, start / PAGE_SIZE)
    requires es[|es| - 1].End() <= pm.e.Length * WORD_BITS * PAGE_SIZE
    modifies pm`a, pm.e
    ensures pm.Valid() && pm.Abs().cursor == start / PAGE_SIZE
    ensures MarkedBelow(pm.Abs().free, es, start, idx, w0, w1, es[|es| - 1].End())
    ensures pm.Abs().a == |pm.Abs().free| > 0
  {
    MarkStart(es, start, idx, w0, w1);
    hide OrderlyMap, MarkedBelow, FreeAt, AtPage, Cursor, FramePool.Sound, Members;
    var i: nat, j: nat := start, idx;
    ghost var free: set<nat> := {};
    var going := true;
    while going
      invariant pm.Valid() && pm.Abs() == FramePool.Pool(free, |free|, start / PAGE_SIZE) && OrderlyMap(es)
      invariant Filling(free, es, start, idx, w0, w1, going, j, i)
      decreases going, |es| - j, if j < |es| then es[j].End() - i else 0
    {
      going, j, i, free := MarkPage(pm, es, start, idx, w0, w1, j, i, free);
    }
  }

  /** The frames marked so far, and where the loop stands, if it still does. */
  ghost predicate Filling(free: set<nat>, es: seq<Entry>, start: nat, idx: nat, w0: nat, w1: nat,
                          going: bool, j: nat, i: nat)
    requires es != []
  {
    if going then j < |es| && AtPage(es, start, idx, w0, w1, j, i) && MarkedBelow(free, es, start, idx, w0, w1, i)
    else MarkedBelow(free, es, start, idx, w0, w1, es[|es| - 1].End()) && |free| > 0
  }

  /** Marks one page and moves on (pm.c:51-67). */
  method MarkPage(pm: FrameAllocator.PageArray, es: seq<Entry>, start: nat, idx: nat, w0: nat, w1: nat,
                  j: nat, i: nat, ghost free: set<nat>)
    returns (going: bool, j': nat, i': nat, ghost free': set<nat>)
    requires OrderlyMap(es) && es != [] && Filling(free, es, start, idx, w0, w1, true, j, i)
    requires pm.Valid() && pm.Abs() == FramePool.Pool(free, |free|, start / PAGE_SIZE)
    requires es[|es| - 1].End() <= pm.e.Length * WORD_BITS * PAGE_SIZE
    modifies pm`a, pm.e
    ensures pm.Valid() && pm.Abs() == FramePool.Pool(free', |free'|, start / PAGE_SIZE)
    ensures Filling(free', es, start, idx, w0, w1, going, j', i')
    ensures going ==> j' > j || (j' == j && es[j].End() - i' < es[j].End() - i)
  {
    hide OrderlyMap, MarkedBelow, FreeAt, AtPage, Cursor, FramePool.Sound, Members;
    PageInRange(es, start, idx, w0, w1, j, i, pm.e.Length);
    var k := SkipWindow(i + PAGE_SIZE, w0, w1);
    MarkStep(free, es, start, idx, w0, w1, j, i, k);
    pm.Mark(i);
    free' := free + {i / PAGE_SIZE};
    going, j', i' := true, j, k;
    if k >= es[j].End() {
      j' := j + 1;
      if j' == |es| {
        going := false;
        return;
      }
      NextEntryStep(free', es, start, idx, w0, w1, j);
      i' := es[j'].Base();
    } else {
      AtPageStep(es, start, idx, w0, w1, j, i, k);
    }
  }

  lemma MarkStart(es: seq<Entry>, start: nat, idx: nat, w0: nat, w1: nat)
    requires Cursor(es, idx, start) && start < es[idx].End() && start < w0
    ensures OrderlyMap(es) && AtPage(es, start, idx, w0, w1, idx, start)
    ensures MarkedBelow({}, es, start, idx, w0, w1, start)
  {
    assert InEntry(es, idx, start);
  }

  lemma PageInRange(es: seq<Entry>, start: nat, idx: nat, w0: nat, w1: nat, j: nat, i: nat, words: nat)
    requires AtPage(es, start, idx, w0, w1, j, i)
    requires es[|es| - 1].End() <= words * WORD_BITS * PAGE_SIZE
    ensures start / PAGE_SIZE <= i / PAGE_SIZE < WORD_BITS * words
    ensures (i + PAGE_SIZE) % PAGE_SIZE == 0
    ensures OrderlyMap(es) && j >= idx && i < es[j].End() && start <= es[j].End()
  {
    StepPage(i);
    EntryOrder(es, j, |es| - 1);
    assert i == i / PAGE_SIZE * PAGE_SIZE;
  }

  lemma AtPageStep(es: seq<Entry>, start: nat, idx: nat, w0: nat, w1: nat, j: nat, i: nat, k: nat)
    requires AtPage(es, start, idx, w0, w1, j, i) && i < k < es[j].End() && k % PAGE_SIZE == 0 && !(w0 <= k < w1)
    ensures AtPage(es, start, idx, w0, w1, j, k)
  {
    assert InEntry(es, j, k);
  }
}
