/** What free writes when a back link is out of date, which a join leaves behind
    (src/libc/alloc.c:140-156): when it writes inside a payload that somebody
    holds, and a run in which it does. */
module StaleLinks {
  import opened Division
  import opened HeapBlocks
  import opened HeapWords
  import Heap
  import opened WordRuns

  /** Some of the words in the payload differ. */
  ghost predicate Hits(mem: Memory, mem': Memory, q: Payload) {
    exists x :: Inside(q, x) && x in mem' && (x !in mem || mem'[x] != mem[x])
  }

  /** The header at b names a previous block inside the payload, and the word
      there has the FREE bit. */
  predicate Dangles(mem: Memory, b: nat, q: Payload)
    requires FreeReads(mem, b)
  {
    mem[b].a != 0 && Inside(q, mem[b].a) && GetFree(mem[mem[b].a].b)
  }

  /** A free, of any block with its header outside the payload, writes inside
      the payload exactly when its back link dangles there. */
  lemma FreeHitsIff(mem: Memory, b: nat, q: Payload)
    requires FreeReads(mem, b) && !Inside(q, b)
    ensures Hits(mem, FreeWords(mem, b), q) <==> Dangles(mem, b, q)
  {
    hide GetFree, HasNext;
    var m, m', pb := RightJoined(mem, b), FreeWords(mem, b), mem[b].a;
    if Dangles(mem, b, q) {
      assert m[pb] == mem[pb];
      assert m'[pb].b >= GetSize(m[pb].b) + HEADER > mem[pb].b;
    }
    if x :| Inside(q, x) && x in m' && (x !in mem || m'[x] != mem[x]) {
      assert x != b && x == pb;
    }
  }

  // ---- when no link is out of date

  /** No header lies in a payload. */
  lemma HeaderOutside(base: nat, l: seq<Block>, i: nat, j: nat)
    requires i < |l| && j < |l|
    ensures !Inside((Addr(base, l, j) + HEADER, l[j].size), Addr(base, l, i))
  {
    hide Addr;
    if j < i { Heap.AddrStrict(base, l, j, i); }
    if i < j { AddrMonotone(base, l, i, j); }
  }

  /** When the headers hold the list, a free of one of its blocks writes in no
      payload of the list, and in none behind it. */
  lemma LinkedFreeHitsNothing(mem: Memory, base: nat, l: seq<Block>, k: nat, q: Payload)
    requires WellFormed(l) && Heap.Repr(mem, base, l) && k < |l|
    requires q in Live(base, l) || base + Bytes(l) <= q.0
    ensures FreeReads(mem, Addr(base, l, k)) && !Hits(mem, FreeWords(mem, Addr(base, l, k)), q)
  {
    hide Heap.Repr, Live, Addr, Bytes, WellFormed, Hits, FreeReads, FreeWords;
    Heap.LinksRead(mem, base, l, k);
    ListOutside(base, l, k, q);
    if k > 0 { ListOutside(base, l, k - 1, q); }
    FreeHitsIff(mem, Addr(base, l, k), q);
  }

  lemma ListOutside(base: nat, l: seq<Block>, i: nat, q: Payload)
    requires i < |l| && (q in Live(base, l) || base + Bytes(l) <= q.0)
    ensures !Inside(q, Addr(base, l, i))
  {
    hide Live, Addr, Bytes;
    if q in Live(base, l) {
      var j := LiveIs(base, l, q);
      HeaderOutside(base, l, i, j);
    } else {
      AddrIsBytes(base, l, |l|);
      assert l[..|l|] == l;
      Heap.AddrStrict(base, l, i, |l|);
    }
  }

  // ---- what a join leaves

  /** A free that joins blocks, and not up to the last one, leaves the next
      header with a link into the joined block, where the FREE bit stands. */
  lemma JoinLeavesStale(mem: Memory, base: nat, l: seq<Block>, k: nat)
    requires WellFormed(l) && Heap.Repr(mem, base, l) && base > 0 && k < |l| && !l[k].free
    requires !Heap.FreeKeepsLinks(l, k)
    ensures FreeReads(mem, Addr(base, l, k))
    ensures var m, at := FreeWords(mem, Addr(base, l, k)), Addr(base, l, Hi(l, k));
            var joined := (Addr(base, l, Lo(l, k)) + HEADER, JoinSize(l, k));
            at in mem && at in m && m[at] == mem[at] && m[at].a != 0 && m[at].a in m
            && Inside(joined, m[at].a) && GetFree(m[m[at].a].b)
  {
    hide Encode, GetFree, HasNext, GetSize, Addr, WellFormed, Heap.Repr, RightJoined;
    var b, hi := Addr(base, l, k), Hi(l, k);
    Heap.LinksRead(mem, base, l, k);
    Heap.LinksRead(mem, base, l, hi);
    AddressesDiffer(base, l, k, hi);
    Heap.ReprAt(mem, base, l, hi - 1);
    AddrMonotone(base, l, 0, hi - 1);
    JoinedRange(base, l, k);
    if hi - 1 == k {
      MarkedWord(mem, base, l, k);
      AddressesDiffer(base, l, k - 1, k);
    } else {
      AddressesDiffer(base, l, k, k + 1);
      Heap.SizesAligned(l, k + 1);
      Decode(l[k + 1].size, true, true);
    }
  }

  lemma AddressesDiffer(base: nat, l: seq<Block>, i: nat, j: nat)
    requires i < j <= |l|
    ensures forall n: nat :: n <= i ==> Addr(base, l, n) < Addr(base, l, j)
  {
    hide Addr;
    forall n: nat | n <= i ensures Addr(base, l, n) < Addr(base, l, j) { Heap.AddrStrict(base, l, n, j); }
  }

  lemma JoinedRange(base: nat, l: seq<Block>, k: nat)
    requires k < |l| && Hi(l, k) != Lo(l, k) + 1
    ensures Inside((Addr(base, l, Lo(l, k)) + HEADER, JoinSize(l, k)), Addr(base, l, Hi(l, k) - 1))
  {
    hide Addr;
    var lo, hi := Lo(l, k), Hi(l, k);
    Heap.AddrStrict(base, l, lo, hi - 1);
    Heap.AddrStep(base, l, k + 1);
    Heap.AddrStep(base, l, hi);
    if k > 0 { Heap.AddrStep(base, l, k); }
  }

  /** Freed without a free successor, the block's own header has the FREE bit. */
  lemma MarkedWord(mem: Memory, base: nat, l: seq<Block>, k: nat)
    requires WellFormed(l) && Heap.Repr(mem, base, l) && k + 1 < |l| && !FreeRight(l, k)
    ensures FreeReads(mem, Addr(base, l, k)) && GetFree(RightJoined(mem, Addr(base, l, k))[Addr(base, l, k)].b)
  {
    hide Encode, GetFree, HasNext, GetSize, Addr, WellFormed, Heap.Repr;
    Heap.LinksRead(mem, base, l, k);
    Heap.ReprAt(mem, base, l, k);
    Heap.ReprAt(mem, base, l, k + 1);
    Heap.AddrStep(base, l, k + 1);
    Heap.SizesAligned(l, k);
    Heap.SizesAligned(l, k + 1);
    Heap.MarkedFree(mem, base, l, k);
    Decode(l[k].size, true, true);
    Decode(l[k + 1].size, k + 2 < |l|, false);
  }

  // ---- a run that writes in a held payload

  /** What a call of malloc, or of free with a payload the caller holds, does. */
  ghost predicate Does(s: State, c: Call, t: State) {
    match c
    case Malloc(sz) =>
      exists p :: MallocWords(s.w, sz) == At(p, t.w) && t.live == s.live + {(p, Rounded(sz))}
    case Write(x, v) => false
    case Free(q) =>
      && q in s.live && q.0 >= HEADER && FreeReads(s.w.mem, q.0 - HEADER)
      && t.w == s.w.(mem := FreeWords(s.w.mem, q.0 - HEADER)) && t.live == s.live - {q}
  }

  /** The n-th of three small payloads. */
  function Small(base: nat, n: nat): Payload { (base + 32 * n + 16, 16) }

  /** Three small blocks; the second is freed, then the first; a block as large
      as both with the header between them; the third is freed. */
  function StaleCall(base: nat, n: nat): Call {
    if n < 3 then Call.Malloc(16)
    else if n == 3 then Call.Free(Small(base, 1))
    else if n == 4 then Call.Free(Small(base, 0))
    else if n == 5 then Call.Malloc(48)
    else Call.Free(Small(base, 2))
  }

  /** The words of the first three headers, and of the rest. */
  function StaleMem(base: nat, x: nat, y: nat): Memory {
    map[base := MemBlock(0, x), base + 32 := MemBlock(base, y), base + 64 := MemBlock(base + 32, 18),
        base + 96 := MemBlock(base + 64, 32657)]
  }

  function StaleState(base: nat, n: nat): State {
    var (p, q, r) := (Small(base, 0), Small(base, 1), Small(base, 2));
    var w := (m: Memory) => Words(m, base, base + 32768);
    if n == 0 then WordRuns.State(Words(map[], 0, base), {})
    else if n == 1 then WordRuns.State(w(map[base := MemBlock(0, 18), base + 32 := MemBlock(base, 32721)]), {p})
    else if n == 2 then
      WordRuns.State(w(map[base := MemBlock(0, 18), base + 32 := MemBlock(base, 18), base + 64 := MemBlock(base + 32, 32689)]),
                     {p, q})
    else if n == 3 then WordRuns.State(w(StaleMem(base, 18, 18)), {p, q, r})
    else if n == 4 then WordRuns.State(w(StaleMem(base, 18, 19)), {p, r})
    else if n == 5 then WordRuns.State(w(StaleMem(base, 51, 19)), {r})
    else WordRuns.State(w(StaleMem(base, 48, 19)), {r, (base + 16, 48)})
  }

  /** The walk passes a block that is in use and has a successor. */
  lemma WalkPasses(mem: Memory, b: nat, sz: nat)
    requires b in mem && mem[b].b == 18
    ensures WalkFrom(mem, b, sz) == WalkFrom(mem, b + 32, sz)
  {
  }

  lemma Sizes()
    ensures Accepts(16) && Rounded(16) == 16 && Accepts(48) && Rounded(48) == 48
  {
  }

  lemma StaleFirst(base: nat)
    requires base > 0
    ensures Does(StaleState(base, 0), Call.Malloc(16), StaleState(base, 1))
  {
    hide Accepts, Rounded;
    Sizes();
    var s, t := StaleState(base, 0), StaleState(base, 1);
    assert MallocWords(s.w, 16) == At(base + 16, t.w);
  }

  lemma StaleSecond(base: nat)
    requires base > 0
    ensures Does(StaleState(base, 1), Call.Malloc(16), StaleState(base, 2))
  {
    hide Accepts, Rounded;
    Sizes();
    var s, t := StaleState(base, 1), StaleState(base, 2);
    WalkPasses(s.w.mem, base, 16);
    assert MallocWords(s.w, 16) == At(base + 48, t.w);
  }

  lemma StaleThird(base: nat)
    requires base > 0
    ensures Does(StaleState(base, 2), Call.Malloc(16), StaleState(base, 3))
  {
    hide Accepts, Rounded;
    Sizes();
    var s, t := StaleState(base, 2), StaleState(base, 3);
    WalkPasses(s.w.mem, base, 16);
    WalkPasses(s.w.mem, base + 32, 16);
    assert MallocWords(s.w, 16) == At(base + 80, t.w);
  }

  lemma StaleFrees(base: nat, n: nat)
    requires base > 0 && 3 <= n < 5
    ensures Does(StaleState(base, n), StaleCall(base, n), StaleState(base, n + 1))
  {
  }

  lemma StaleTakes(base: nat)
    requires base > 0
    ensures Does(StaleState(base, 5), Call.Malloc(48), StaleState(base, 6))
  {
    hide Accepts, Rounded;
    Sizes();
    var s, t := StaleState(base, 5), StaleState(base, 6);
    assert MallocWords(s.w, 48) == At(base + 16, t.w);
  }

  /** The last free of the run writes in the payload of forty-eight bytes, which
      its caller still holds. */
  lemma StaleHits(base: nat)
    requires base > 0
    ensures forall n: nat :: n < 6 ==> Does(StaleState(base, n), StaleCall(base, n), StaleState(base, n + 1))
    ensures var mem, q := StaleState(base, 6).w.mem, (base + 16, 48);
            && StaleCall(base, 6) == Call.Free(Small(base, 2)) && Small(base, 2) in StaleState(base, 6).live
            && q in StaleState(base, 6).live && FreeReads(mem, base + 64) && Dangles(mem, base + 64, q)
            && Hits(mem, FreeWords(mem, base + 64), q)
  {
    hide Does, Hits, FreeWords;
    forall n: nat | n < 6 ensures Does(StaleState(base, n), StaleCall(base, n), StaleState(base, n + 1)) {
      if n == 0 { StaleFirst(base); }
      if n == 1 { StaleSecond(base); }
      if n == 2 { StaleThird(base); }
      if 3 <= n < 5 { StaleFrees(base, n); }
      if n == 5 { StaleTakes(base); }
    }
    FreeHitsIff(StaleState(base, 6).w.mem, base + 64, (base + 16, 48));
  }
}
