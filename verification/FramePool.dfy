/** What the physical frame allocator means: a set of free frames, a count of
    hand-outs still allowed, and the frame the next hand-out will name. The
    bitmap allocator in module FrameAllocator refines this pool. */
module FramePool {
  import opened Bitmap

  datatype Pool = Pool(free: set<nat>, a: nat, cursor: nat)

  ghost predicate IsLeast(s: set<nat>, m: nat) {
    m in s && forall x :: x in s ==> m <= x
  }

  lemma {:induction false} LeastExists(s: set<nat>, x: nat)
    requires x in s
    ensures exists m :: IsLeast(s, m)
    decreases x
  {
    if y: nat :| y in s && y < x {
      LeastExists(s, y);
    } else {
      assert IsLeast(s, x);
    }
  }

  ghost function Least(s: set<nat>): (m: nat)
    requires s != {}
    ensures IsLeast(s, m)
  {
    var x :| x in s;
    LeastExists(s, x);
    var m :| IsLeast(s, m);
    m
  }

  /** What every interleaving of hand-outs and returns keeps: the count never
      exceeds the free frames, and no free frame lies in a word before the
      cursor's, so the scan for the next free frame always ends. */
  ghost predicate Sound(p: Pool) {
    && p.a <= |p.free|
    && forall f :: f in p.free ==> WordOf(p.cursor) <= WordOf(f)
  }

  /** The next hand-out names a frame that is free. */
  ghost predicate CursorFree(p: Pool) {
    p.a > 0 ==> p.cursor in p.free
  }

  /** Frame 0 stands for "no frame left", as in the source. */
  ghost function Get(p: Pool): (r: (Pool, nat))
    requires Sound(p)
  {
    if p.a == 0 then (p, 0)
    else
      var free := p.free - {p.cursor};
      RemoveOne(p.free, p.cursor);
      var cursor := if p.a > 1 then Least(free) else p.cursor;
      (Pool(free, p.a - 1, cursor), p.cursor)
  }

  ghost function Put(p: Pool, f: nat): Pool {
    var cursor :=
      if WordOf(f) < WordOf(p.cursor) then
        WordOf(f) * WORD_BITS + (if BitOf(f) < BitOf(p.cursor) then BitOf(f) else BitOf(p.cursor))
      else p.cursor;
    Pool(p.free + {f}, p.a, cursor)
  }

  /** The frames whose return misplaces the cursor: an earlier word, at a
      strictly higher bit than the cursor's. */
  predicate Misplaces(p: Pool, f: nat) {
    WordOf(f) < WordOf(p.cursor) && BitOf(f) > BitOf(p.cursor)
  }

  lemma RemoveOne(s: set<nat>, x: nat)
    ensures |s - {x}| >= |s| - 1
  {
    if x in s {
      assert |s - {x}| == |s| - 1;
    } else {
      assert s - {x} == s;
    }
  }

  lemma GetSound(p: Pool)
    requires Sound(p)
    ensures Sound(Get(p).0) && CursorFree(Get(p).0)
    ensures Get(p).0.a > 0 ==> Get(p).0.cursor == Least(Get(p).0.free)
  {
    if p.a > 1 {
      var free := p.free - {p.cursor};
      RemoveOne(p.free, p.cursor);
      var m := Least(free);
      assert forall f :: f in free ==> m <= f && WordOf(m) <= WordOf(f);
    } else if p.a == 1 {
      assert forall f :: f in p.free - {p.cursor} ==> f in p.free;
    }
  }

  lemma PutSound(p: Pool, f: nat)
    requires Sound(p)
    ensures Sound(Put(p, f))
  {
    assert p.free <= p.free + {f};
    SubsetSize(p.free, p.free + {f});
  }

  lemma {:induction false} SubsetSize<T>(a: set<T>, b: set<T>)
    requires a <= b
    ensures |a| <= |b|
  {
    assert b == a + (b - a);
  }

  /** Returning a frame leaves the cursor on a free frame exactly when the
      frame is not at a higher bit of an earlier word. */
  lemma PutKeepsCursorIff(p: Pool, f: nat)
    requires Sound(p) && CursorFree(p) && p.a > 0
    ensures CursorFree(Put(p, f)) <==> !Misplaces(p, f)
  {
    var c := Put(p, f).cursor;
    if WordOf(f) < WordOf(p.cursor) {
      assert WordOf(c) == WordOf(f) && BitOf(c) == (if BitOf(f) < BitOf(p.cursor) then BitOf(f) else BitOf(p.cursor));
      assert c == f <==> BitOf(f) <= BitOf(p.cursor);
    }
  }

  /** After a misplacing return the very next hand-out names a frame that was
      not free. */
  lemma MisplacedGetHandsOutTaken(p: Pool, f: nat)
    requires Sound(p) && CursorFree(p) && p.a > 0 && Misplaces(p, f)
    ensures Sound(Put(p, f)) && Get(Put(p, f)).1 !in Put(p, f).free
  {
    PutSound(p, f);
    PutKeepsCursorIff(p, f);
  }

  /** n hand-outs in a row and the frames they name. */
  ghost function GetRun(p: Pool, n: nat): (r: (Pool, seq<nat>))
    requires Sound(p)
    ensures Sound(r.0) && |r.1| == n
    decreases n
  {
    if n == 0 then (p, [])
    else
      GetSound(p);
      var (q, f) := Get(p);
      var (last, rest) := GetRun(q, n - 1);
      (last, [f] + rest)
  }

  ghost predicate Ascending(s: seq<nat>) {
    forall i, j :: 0 <= i < j < |s| ==> s[i] < s[j]
  }

  /** One more hand-out in front of a run. */
  lemma GetRunStep(p: Pool, n: nat)
    requires Sound(p) && 0 < n <= p.a && p.cursor == Least(p.free)
    ensures Sound(Get(p).0) && n - 1 <= Get(p).0.a
    ensures Get(p).0.a > 0 ==> Get(p).0.cursor == Least(Get(p).0.free)
    ensures Get(p).0.free == p.free - {p.cursor} && p.cursor in p.free
    ensures GetRun(p, n).0 == GetRun(Get(p).0, n - 1).0
    ensures GetRun(p, n).1 == [p.cursor] + GetRun(Get(p).0, n - 1).1
  {
    GetSound(p);
    RemoveOne(p.free, p.cursor);
  }

  lemma {:induction false} GetRunPartition(p: Pool, n: nat)
    requires Sound(p) && n <= p.a
    requires p.a > 0 ==> p.cursor == Least(p.free)
    ensures forall f :: f in p.free <==> f in GetRun(p, n).1 || f in GetRun(p, n).0.free
    ensures GetRun(p, n).0.a == p.a - n
    decreases n
  {
    if n > 0 {
      GetRunStep(p, n);
      GetRunPartition(Get(p).0, n - 1);
    }
  }

  lemma PrependAscending(f: nat, rest: seq<nat>)
    requires Ascending(rest) && forall g :: g in rest ==> f < g
    ensures Ascending([f] + rest)
  {
    var s := [f] + rest;
    forall i, j | 0 <= i < j < |s| ensures s[i] < s[j] {
      assert s[j] == rest[j - 1] && rest[j - 1] in rest;
    }
  }

  /** What a run hands out comes before what it leaves. */
  lemma {:induction false} GetRunBelowRest(p: Pool, n: nat)
    requires Sound(p) && n <= p.a
    requires p.a > 0 ==> p.cursor == Least(p.free)
    ensures forall f, g :: f in GetRun(p, n).1 && g in GetRun(p, n).0.free ==> f < g
    decreases n
  {
    if n > 0 {
      GetRunStep(p, n);
      GetRunBelowRest(Get(p).0, n - 1);
      GetRunPartition(Get(p).0, n - 1);
    }
  }

  lemma {:induction false} GetRunAscends(p: Pool, n: nat)
    requires Sound(p) && n <= p.a
    requires p.a > 0 ==> p.cursor == Least(p.free)
    ensures Ascending(GetRun(p, n).1)
    decreases n
  {
    if n > 0 {
      GetRunStep(p, n);
      GetRunAscends(Get(p).0, n - 1);
      GetRunPartition(Get(p).0, n - 1);
      PrependAscending(p.cursor, GetRun(Get(p).0, n - 1).1);
    }
  }

  /** Hand-outs alone give the free frames in ascending order, each once: the
      run ascends, every frame left is above all of it, and together they are
      the frames that were free. */
  lemma GetRunAscending(p: Pool, n: nat)
    requires Sound(p) && n <= p.a
    requires p.a > 0 ==> p.cursor == Least(p.free)
    ensures Ascending(GetRun(p, n).1)
    ensures forall f :: f in p.free <==> f in GetRun(p, n).1 || f in GetRun(p, n).0.free
    ensures forall f, g :: f in GetRun(p, n).1 && g in GetRun(p, n).0.free ==> f < g
    ensures GetRun(p, n).0.a == p.a - n
  {
    GetRunPartition(p, n);
    GetRunAscends(p, n);
    GetRunBelowRest(p, n);
  }
}
