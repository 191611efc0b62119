/** Runs of the libc heap as src/libc/alloc.c is written, without the repairs:
    what its callers hold, when two of them come to hold the same bytes, and
    when they do not. The heap is the only one to reserve pages. */
module WrittenHeap {
  import opened Division
  import opened HeapBlocks
  import opened Heap

  type Payload = (nat, nat)

  /** The blocks the header words still lead to, where the reserved pages end,
      and the payloads that callers hold: address and size. */
  datatype State = State(l: seq<Block>, end: nat, live: set<Payload>)

  datatype Outcome = Running(s: State) | Halted

  /** Payloads without a byte in common. */
  predicate Apart(p: Payload, q: Payload) { p.0 + p.1 <= q.0 || q.0 + q.1 <= p.0 }

  /** The payload malloc hands out. */
  ghost function NewPayload(base: nat, s: State, sz: nat): Payload
    requires WellFormed(s.l) && Accepts(sz)
  {
    SpotInReached(s.l, sz);
    (Addr(base, Reached(s.l, sz, false), Spot(s.l, sz)) + HEADER, Rounded(sz))
  }

  lemma SpotInReached(l: seq<Block>, sz: nat)
    requires WellFormed(l) && Accepts(sz)
    ensures WellFormed(Grow(l, Rounded(sz))) && Spot(l, sz) < |Grow(l, Rounded(sz))|
    ensures var r := Reached(l, sz, false);
            WellFormed(r) && Spot(l, sz) < |r| && r[Spot(l, sz)] == Block(Rounded(sz), false)
    ensures Cuttable(Grow(l, Rounded(sz)), Spot(l, sz), Rounded(sz)) && Rounded(sz) > 0
  {
    RoundedAligned(sz);
    AllocTakeable(l, Rounded(sz));
    AfterTakeKeeps(0, l, Rounded(sz), false);
  }

  /** Growth fails its assertion when the new pages do not follow the last
      block, unless that is the first one. */
  ghost predicate Halts(base: nat, s: State, sz: nat) {
    Accepts(sz) && Grows(s.l, Rounded(sz)) && |s.l| > 1 && base + Bytes(s.l) != s.end
  }

  /** Growth goes on behind a lone first block although the reserved pages end
      further on: blocks were lost there. */
  ghost predicate Overgrows(base: nat, s: State, sz: nat) {
    Accepts(sz) && Grows(s.l, Rounded(sz)) && |s.l| == 1 && base + Bytes(s.l) != s.end
  }

  /** Only reachable blocks are freed, and only when no back link breaks. */
  predicate Frees(s: State, op: Op) {
    op.Free? ==> op.i < |s.l| && !s.l[op.i].free && FreeKeepsLinks(s.l, op.i)
  }

  ghost function WrittenStep(base: nat, s: State, op: Op): Outcome
    requires WellFormed(s.l) && Frees(s, op)
  {
    match op
    case Malloc(sz) =>
      if !Accepts(sz) then Running(s)
      else if Halts(base, s, sz) then Halted
      else
        Running(State(Reached(s.l, sz, false), s.end + PagesAsked(s.l, op) * PAGE, s.live + {NewPayload(base, s, sz)}))
    case Free(i) =>
      Running(s.(l := FreeAt(s.l, i), live := s.live - {(Addr(base, s.l, i) + HEADER, s.l[i].size)}))
  }

  /** A held payload that no reachable block holds lies behind all of them. */
  ghost predicate Lost(base: nat, s: State, q: Payload) {
    q in s.live && base + Bytes(s.l) + HEADER <= q.0 && q.0 + q.1 <= s.end
  }

  /** What every run keeps. */
  ghost predicate Kept(base: nat, s: State) {
    && WellFormed(s.l) && base + Bytes(s.l) <= s.end && base % ALIGNMENT == 0
    && (s.l == [] ==> base == s.end)
    && Live(base, s.l) <= s.live
    && (forall q :: q in s.live && q !in Live(base, s.l) ==> Lost(base, s, q))
    && (forall q :: q in s.live ==> q.1 > 0)
    && forall p, q :: p in s.live && q in s.live && p != q ==> Apart(p, q)
  }

  // ---- live payloads of a list

  /** Live payloads lie within the list. */
  lemma {:induction false} LiveWithin(base: nat, l: seq<Block>, q: Payload)
    requires q in Live(base, l)
    ensures base + HEADER <= q.0 && q.0 + q.1 <= base + Bytes(l)
  {
    var rest := l[..|l| - 1];
    if q in Live(base, rest) { LiveWithin(base, rest, q); }
  }

  /** Live payloads after an allocation: those before the block taken, and the
      new one. */
  lemma ReachedLive(base: nat, l: seq<Block>, sz: nat)
    requires WellFormed(l) && Accepts(sz)
    ensures var z, g, i, r := Rounded(sz), Grow(l, Rounded(sz)), Spot(l, sz), Reached(l, sz, false);
            && i < |g| && i < |r|
            && Live(base, r) == Live(base, g[..i]) + {(Addr(base, r, i) + HEADER, z)}
            && Bytes(r) == Bytes(g[..i]) + HEADER + g[i].size
            && Addr(base, r, i) == base + Bytes(g[..i]) && z <= g[i].size
  {
    hide Live, Bytes, Grow, FirstFit, WellFormed;
    SpotInReached(l, sz);
    RoundedAligned(sz);
    var z, g, i := Rounded(sz), Grow(l, Rounded(sz)), Spot(l, sz);
    var r := g[..i] + Cut(g[i], z);
    assert Reached(l, sz, false) == r;
    AddrIsBytes(base, r, i);
    assert r[..i] == g[..i];
    LiveConcat(base, g[..i], Cut(g[i], z));
    BytesConcat(g[..i], Cut(g[i], z));
    CutKeeps(base + Bytes(g[..i]), g[i], z);
  }

  /** The grown list: its live payloads and those of a part of it. */
  lemma GrownLive(base: nat, l: seq<Block>, z: nat, i: nat)
    requires WellFormed(l) && i < |Grow(l, z)| && Grow(l, z)[i].free
    ensures var g := Grow(l, z);
            && Live(base, g) == Live(base, l)
            && Live(base, g) == Live(base, g[..i]) + Live(base + Bytes(g[..i]) + HEADER + g[i].size, g[i + 1..])
            && Bytes(g) == Bytes(g[..i]) + HEADER + g[i].size + Bytes(g[i + 1..])
  {
    hide Live, Bytes, FirstFit;
    var g := Grow(l, z);
    assert g == g[..i] + [g[i]] + g[i + 1..];
    LiveSplice(base, g[..i], [g[i]], g[i + 1..]);
    One(base + Bytes(g[..i]), g[i]);
    if l == [] {
      StartLive(base);
      GrowFromStart(z);
      GrowKeeps(base, Start([]), z);
    } else {
      GrowKeeps(base, l, z);
    }
  }

  lemma StartLive(base: nat)
    ensures Live(base, Start([])) == Live(base, []) == {}
    ensures WellFormed(Start([]))
  {
    One(base, Start([])[0]);
    StartWellFormed([]);
  }

  lemma GrowFromStart(z: nat)
    ensures Grow([], z) == Grow(Start([]), z)
  {
  }

  // ---- one step

  /** Unless growth halts or goes over lost blocks, the range after growth ends
      within the reserved pages and nothing is lost inside it. */
  lemma GrownRange(base: nat, s: State, sz: nat)
    requires Kept(base, s) && Accepts(sz) && !Halts(base, s, sz) && !Overgrows(base, s, sz)
    ensures base + Bytes(Grow(s.l, Rounded(sz))) <= s.end + PagesAsked(s.l, Malloc(sz)) * PAGE
    ensures forall q :: q in s.live && q !in Live(base, s.l) ==>
              base + Bytes(Grow(s.l, Rounded(sz))) + HEADER <= q.0 && q.0 + q.1 <= s.end
  {
    hide Live, Bytes, Grow, FirstFit, WellFormed;
    GrowAsked(s.l, sz);
    if s.l == [] {
      EmptyBytes();
      StartLive(base);
    } else {
      NothingAsked(s.l, sz);
    }
  }

  lemma NothingAsked(l: seq<Block>, sz: nat)
    requires WellFormed(l) && l != [] && Accepts(sz)
    ensures !Grows(l, Rounded(sz)) ==> PagesAsked(l, Malloc(sz)) == 0 && Grow(l, Rounded(sz)) == l
  {
  }

  /** Each held payload lies before the block taken, or behind all that is
      reachable afterwards. */
  lemma HeldElsewhere(base: nat, s: State, sz: nat, q: Payload)
    requires Kept(base, s) && Accepts(sz) && !Halts(base, s, sz) && !Overgrows(base, s, sz) && q in s.live
    ensures var g, i, r := Grow(s.l, Rounded(sz)), Spot(s.l, sz), Reached(s.l, sz, false);
            && i < |g| && (q in Live(base, g[..i]) || base + Bytes(r) + HEADER <= q.0)
            && q.0 + q.1 <= s.end + PagesAsked(s.l, Malloc(sz)) * PAGE
  {
    hide Live, Bytes, Grow, FirstFit, WellFormed, Reached, PagesAsked;
    var g, i, r := Grow(s.l, Rounded(sz)), Spot(s.l, sz), Reached(s.l, sz, false);
    SpotFree(s.l, sz);
    ReachedLive(base, s.l, sz);
    GrownLive(base, s.l, Rounded(sz), i);
    GrownRange(base, s, sz);
    if q in Live(base, s.l) {
      LiveWithin(base, g, q);
      if q !in Live(base, g[..i]) {
        LiveWithin(base + Bytes(r), g[i + 1..], q);
      }
    }
  }

  lemma SpotFree(l: seq<Block>, sz: nat)
    requires WellFormed(l) && Accepts(sz)
    ensures Spot(l, sz) < |Grow(l, Rounded(sz))| && Grow(l, Rounded(sz))[Spot(l, sz)].free
  {
    RoundedAligned(sz);
    AllocTakeable(l, Rounded(sz));
  }

  /** An allocation as written hands out bytes nobody holds. */
  lemma MallocApart(base: nat, s: State, sz: nat)
    requires Kept(base, s) && Accepts(sz) && !Halts(base, s, sz) && !Overgrows(base, s, sz)
    ensures forall q :: q in s.live ==> Apart(NewPayload(base, s, sz), q)
    ensures Kept(base, WrittenStep(base, s, Malloc(sz)).s)
  {
    hide Live, Bytes, Grow, FirstFit, WellFormed, Reached, PagesAsked;
    var g, i, r, p := Grow(s.l, Rounded(sz)), Spot(s.l, sz), Reached(s.l, sz, false), NewPayload(base, s, sz);
    var t := WrittenStep(base, s, Malloc(sz)).s;
    SpotInReached(s.l, sz);
    SpotFree(s.l, sz);
    ReachedLive(base, s.l, sz);
    GrownLive(base, s.l, Rounded(sz), i);
    GrownRange(base, s, sz);
    forall q | q in s.live
      ensures Apart(p, q) && (q in Live(base, r) || Lost(base, t, q))
    {
      HeldElsewhere(base, s, sz, q);
      if q in Live(base, g[..i]) { LiveWithin(base, g[..i], q); }
    }
    assert Live(base, r) <= t.live by {
      forall q | q in Live(base, g[..i]) ensures q in s.live { }
    }
  }

  /** Where an allocation lies: no further than right behind the list. */
  lemma NewWithin(base: nat, s: State, sz: nat)
    requires WellFormed(s.l) && Accepts(sz)
    ensures NewPayload(base, s, sz).0 <= base + Bytes(s.l) + HEADER && NewPayload(base, s, sz).1 > 0
    ensures forall q :: q in Live(base, s.l) ==> Apart(NewPayload(base, s, sz), q)
  {
    hide Live, Bytes, Grow, FirstFit, WellFormed, Reached;
    var g, i, p := Grow(s.l, Rounded(sz)), Spot(s.l, sz), NewPayload(base, s, sz);
    SpotInReached(s.l, sz);
    SpotFree(s.l, sz);
    ReachedLive(base, s.l, sz);
    GrownLive(base, s.l, Rounded(sz), i);
    GrownFront(s.l, Rounded(sz), i);
    forall q | q in Live(base, s.l) ensures Apart(p, q) {
      if q in Live(base, g[..i]) {
        LiveWithin(base, g[..i], q);
      } else {
        LiveWithin(base + Bytes(g[..i]) + HEADER + g[i].size, g[i + 1..], q);
      }
    }
  }

  /** Growth leaves what is in front of a block no longer than the list. */
  lemma GrownFront(l: seq<Block>, z: nat, i: nat)
    requires WellFormed(l) && i < |Grow(l, z)|
    ensures Bytes(Grow(l, z)[..i]) <= Bytes(l)
  {
    hide Bytes, FirstFit;
    var g := Grow(l, z);
    EmptyBytes();
    if l == [] {
      assert g[..i] == [];
    } else {
      assert g[..i] == l[..i];
      if i < |l| { PrefixBytes(l, i); } else { assert l[..i] == l; }
    }
  }

  /** An allocation as written that does not halt hands out bytes nobody holds
      exactly when it ends before every payload that was lost. */
  lemma MallocApartIff(base: nat, s: State, sz: nat)
    requires Kept(base, s) && Accepts(sz)
    ensures (forall q :: q in s.live ==> Apart(NewPayload(base, s, sz), q)) <==>
            (forall q :: q in s.live && q !in Live(base, s.l) ==>
               NewPayload(base, s, sz).0 + NewPayload(base, s, sz).1 <= q.0)
  {
    hide Live, Bytes, Grow, FirstFit, WellFormed, Reached, NewPayload;
    NewWithin(base, s, sz);
  }

  /** Growth over lost blocks behind a lone block always spoils the payload that
      was lost directly behind it: the new payload overlaps it or, when the block
      is free and the size asked for is just its own with a header, the header of
      what is left is written at its start. */
  lemma OvergrowthHits(base: nat, s: State, sz: nat, q: Payload)
    requires Kept(base, s) && Overgrows(base, s, sz)
    requires q in s.live && q.0 == base + Bytes(s.l) + HEADER
    ensures Apart(NewPayload(base, s, sz), q) <==> s.l[0].free && Rounded(sz) == s.l[0].size + HEADER
    ensures Apart(NewPayload(base, s, sz), q) ==>
              Spot(s.l, sz) + 1 < |Reached(s.l, sz, false)| && Addr(base, Reached(s.l, sz, false), Spot(s.l, sz) + 1) == q.0
  {
    hide Grow, FirstFit, WellFormed, Reached, Grows, Bytes;
    NewWithin(base, s, sz);
    LoneGrowth(base, s, sz);
    if Apart(NewPayload(base, s, sz), q) {
      AlignedSum(s.l[0].size, HEADER);
      RestBehind(base, s, sz);
    }
  }

  lemma RestBehind(base: nat, s: State, sz: nat)
    requires WellFormed(s.l) && Accepts(sz) && Grows(s.l, Rounded(sz)) && |s.l| == 1
    requires s.l[0].free && Rounded(sz) == s.l[0].size + HEADER
    ensures Spot(s.l, sz) == 0 && |Reached(s.l, sz, false)| == 2
    ensures Addr(base, Reached(s.l, sz, false), 1) == base + HEADER + Rounded(sz)
  {
    hide Bytes, WellFormed, FirstFit;
    var b, z := s.l[0], Rounded(sz);
    assert s.l == [b];
    RoundedAligned(sz);
    LoneGrown(b, z);
    SpotInReached(s.l, sz);
    var g := Grow([b], z);
    assert g[0].size == b.size + GrowPages([b], z) * PAGE;
    assert Reached(s.l, sz, false) == g[..0] + Cut(g[0], z);
  }

  /** What growth at a lone block hands out, and where what is left starts. */
  lemma LoneGrowth(base: nat, s: State, sz: nat)
    requires WellFormed(s.l) && Accepts(sz) && Grows(s.l, Rounded(sz)) && |s.l| == 1
    ensures Bytes(s.l) == HEADER + s.l[0].size && s.l[0].size % ALIGNMENT == Rounded(sz) % ALIGNMENT == 0
    ensures s.l[0].free ==> Rounded(sz) > s.l[0].size
    ensures NewPayload(base, s, sz) == (base + HEADER + (if s.l[0].free then 0 else Bytes(s.l)), Rounded(sz))
  {
    hide Bytes, WellFormed, FirstFit, Grow, Reached;
    var b, z := s.l[0], Rounded(sz);
    assert s.l == [b];
    One(base, b);
    EmptyBytes();
    RoundedAligned(sz);
    SizesAligned(s.l, 0);
    LoneGrown(b, z);
    SpotInReached(s.l, sz);
    SpotFree(s.l, sz);
    ReachedLive(base, s.l, sz);
    assert [b, Block(GrowPages([b], z) * PAGE - HEADER, true)][..1] == [b];
  }

  lemma LoneGrown(b: Block, z: nat)
    requires Grows([b], z) && z > 0 && z % ALIGNMENT == 0 && WellFormed([b])
    ensures var g := Grow([b], z);
            && (b.free ==> |g| == 1 && g[..0] == [] && b.size < z)
            && (!b.free ==> |g| == 2 && g[..1] == [b])
            && FirstFit(g, z) == |g| - 1
  {
    FitsOrGrows([b], z);
    assert !HeapBlocks.Fits([b][0], z);
  }

  /** A free of a reachable block. */
  lemma FreeApart(base: nat, s: State, i: nat)
    requires Kept(base, s) && Frees(s, Op.Free(i))
    ensures Kept(base, WrittenStep(base, s, Op.Free(i)).s)
  {
    hide Live, Bytes, FreeAt, WellFormed;
    var p := (Addr(base, s.l, i) + HEADER, s.l[i].size);
    FreeAtKeeps(base, s.l, i);
    FreeNonempty(s.l, i);
    FreedGone(base, s.l, i);
  }

  /** No other live payload equals the freed one. */
  lemma FreedGone(base: nat, l: seq<Block>, i: nat)
    requires WellFormed(l) && i < |l| && !l[i].free
    ensures (Addr(base, l, i) + HEADER, l[i].size) !in Live(base, FreeAt(l, i))
  {
    hide WellFormed, Live, Bytes, FreeAt, JoinSize;
    var lo, hi := Lo(l, i), Hi(l, i);
    var a, m, c, b := l[..lo], l[lo..hi], l[hi..], Block(JoinSize(l, i), true);
    var p := (Addr(base, l, i) + HEADER, l[i].size);
    FreeAtJoins(l, i);
    AddrIsBytes(base, l, lo);
    JoinedPart(base + Bytes(a), l, i);
    LiveSplice(base, a, [b], c);
    One(base + Bytes(a), b);
    LiveWithin(base + Bytes(a), m, p);
    if p in Live(base, a) { LiveWithin(base, a, p); }
    if p in Live(base + Bytes(a) + Bytes(m), c) { LiveWithin(base + Bytes(a) + Bytes(m), c, p); }
  }

  // ---- runs

  ghost predicate Orderly(base: nat, s: State, op: Op) {
    Frees(s, op) && (op.Malloc? ==> !Overgrows(base, s, op.sz))
  }

  lemma StepForm(base: nat, s: State, op: Op)
    requires WellFormed(s.l) && Frees(s, op)
    ensures WrittenStep(base, s, op).Running? ==> WellFormed(WrittenStep(base, s, op).s.l)
  {
    hide Live, Bytes, Grow, FirstFit, FreeAt, WellFormed, Reached;
    match op
    case Malloc(sz) => if Accepts(sz) { SpotInReached(s.l, sz); }
    case Free(i) => FreeAtKeeps(base, s.l, i);
  }

  ghost predicate OrderlyRun(base: nat, s: State, ops: seq<Op>)
    requires WellFormed(s.l)
    decreases |ops|
  {
    ops != [] ==>
      && Orderly(base, s, ops[0])
      && (StepForm(base, s, ops[0]);
          WrittenStep(base, s, ops[0]).Running? ==> OrderlyRun(base, WrittenStep(base, s, ops[0]).s, ops[1..]))
  }

  ghost function WrittenRun(base: nat, s: State, ops: seq<Op>): Outcome
    requires WellFormed(s.l) && OrderlyRun(base, s, ops)
    decreases |ops|
  {
    if ops == [] then Running(s)
    else
      StepForm(base, s, ops[0]);
      match WrittenStep(base, s, ops[0])
      case Running(t) => WrittenRun(base, t, ops[1..])
      case Halted => Halted
  }

  lemma StepKept(base: nat, s: State, op: Op)
    requires Kept(base, s) && Orderly(base, s, op)
    ensures WrittenStep(base, s, op).Running? ==> Kept(base, WrittenStep(base, s, op).s)
  {
    hide Kept;
    assert WellFormed(s.l) by { KeptForm(base, s); }
    match op
    case Malloc(sz) => if Accepts(sz) && !Halts(base, s, sz) { MallocApart(base, s, sz); }
    case Free(i) => FreeApart(base, s, i);
  }

  lemma KeptForm(base: nat, s: State)
    requires Kept(base, s)
    ensures WellFormed(s.l)
  {
  }

  /** As long as growth never goes over lost blocks, and only reachable blocks
      are freed whose links hold, the code as written keeps all that its callers
      hold apart, or halts at its own assertion. */
  lemma {:induction false} WrittenRunApart(base: nat, s: State, ops: seq<Op>)
    requires Kept(base, s) && OrderlyRun(base, s, ops)
    ensures var r := WrittenRun(base, s, ops);
            r.Running? ==> forall p, q :: p in r.s.live && q in r.s.live && p != q ==> Apart(p, q)
    decreases |ops|
  {
    hide WrittenStep;
    KeptForm(base, s);
    if ops != [] {
      StepKept(base, s, ops[0]);
      var o := WrittenStep(base, s, ops[0]);
      if o.Running? { WrittenRunApart(base, o.s, ops[1..]); }
    }
  }

  /** The empty heap is where runs start. */
  lemma EmptyKept(base: nat)
    requires base % ALIGNMENT == 0
    ensures Kept(base, State([], base, {}))
  {
  }

  // ---- the run that goes wrong

  /** Two small blocks, the first freed and taken again. */
  function LostOps(): seq<Op> { [Op.Malloc(16), Op.Malloc(16), Op.Free(0), Op.Malloc(16)] }

  function LostState(base: nat, n: nat): State
    requires n <= 4
  {
    var p, q := (base + 16, 16), (base + 48, 16);
    var u := Block(16, false);
    match n
    case 0 => State([], base, {})
    case 1 => State([u, Block(32720, true)], base + 32768, {p})
    case 2 => State([u, u, Block(32688, true)], base + 32768, {p, q})
    case 3 => State([Block(16, true), u, Block(32688, true)], base + 32768, {q})
    case _ => State([u], base + 32768, {p, q})
  }

  lemma FitAt(l: seq<Block>, sz: nat, i: nat)
    requires i <= |l| && (forall j :: 0 <= j < i ==> !HeapBlocks.Fits(l[j], sz)) && (i < |l| ==> HeapBlocks.Fits(l[i], sz))
    ensures FirstFit(l, sz) == i
  {
  }

  lemma SixteenAccepted()
    ensures Accepts(16) && Rounded(16) == 16
  {
  }

  /** What malloc of sixteen bytes does once the block it takes is known. */
  lemma MallocSixteen(base: nat, s: State, g: seq<Block>, i: nat)
    requires WellFormed(s.l) && Grow(s.l, 16) == g && i < |g| && FirstFit(g, 16) == i && Cuttable(g, i, 16)
    ensures SpotIs(s.l, i) && Reached(s.l, 16, false) == g[..i] + Cut(g[i], 16)
    ensures NewPayload(base, s, 16) == (base + Bytes(g[..i]) + HEADER, 16)
  {
    hide Grow, FirstFit, Bytes;
    SixteenAccepted();
    SpotInReached(s.l, 16);
    var r := Reached(s.l, 16, false);
    AddrIsBytes(base, r, i);
    assert r[..i] == g[..i];
  }

  ghost predicate SpotIs(l: seq<Block>, i: nat) { Accepts(16) && Rounded(16) == 16 && Spot(l, 16) == i }

  lemma SmallBytes(u: Block)
    requires u.size == 16
    ensures Bytes([]) == 0 && Bytes([u]) == 32
  {
    One(0, u);
  }

  lemma LostFirst(base: nat)
    ensures var s := LostState(base, 0);
            Frees(s, LostOps()[0]) && WrittenStep(base, s, LostOps()[0]) == Running(LostState(base, 1))
  {
    var s := LostState(base, 0);
    var g := Start([]);
    FitAt(g, 16, 0);
    assert Grow([], 16) == g;
    MallocSixteen(base, s, g, 0);
    assert g[..0] == [];
    assert Cut(g[0], 16) == [Block(16, false), Block(32720, true)];
    assert PagesAsked([], Op.Malloc(16)) == 8;
  }

  lemma LostSecond(base: nat)
    ensures var s := LostState(base, 1);
            WellFormed(s.l) && Frees(s, LostOps()[1]) && WrittenStep(base, s, LostOps()[1]) == Running(LostState(base, 2))
  {
    var s := LostState(base, 1);
    FitAt(s.l, 16, 1);
    assert Grow(s.l, 16) == s.l;
    MallocSixteen(base, s, s.l, 1);
    SmallBytes(s.l[0]);
    assert s.l[..1] == [s.l[0]];
    assert Cut(s.l[1], 16) == [Block(16, false), Block(32688, true)];
    NotGrowing(s.l);
    assert LostState(base, 2).l == s.l[..1] + Cut(s.l[1], 16);
  }

  /** An allocation that fits asks for no pages and cannot halt. */
  lemma NotGrowing(l: seq<Block>)
    requires l != [] && FirstFit(l, 16) < |l|
    ensures Accepts(16) && Rounded(16) == 16 && !Grows(l, 16) && PagesAsked(l, Op.Malloc(16)) == 0
  {
    SixteenAccepted();
  }

  lemma LostThird(base: nat)
    ensures var s := LostState(base, 2);
            WellFormed(s.l) && Frees(s, LostOps()[2]) && WrittenStep(base, s, LostOps()[2]) == Running(LostState(base, 3))
  {
    var s := LostState(base, 2);
    assert FreeAt(s.l, 0) == LostState(base, 3).l;
    assert (base + 16, 16) != (base + 48, 16);
    assert s.live - {(base + 16, 16)} == {(base + 48, 16)};
  }

  lemma LostFourth(base: nat)
    ensures var s := LostState(base, 3);
            WellFormed(s.l) && Frees(s, LostOps()[3]) && WrittenStep(base, s, LostOps()[3]) == Running(LostState(base, 4))
  {
    var s := LostState(base, 3);
    FitAt(s.l, 16, 0);
    assert Grow(s.l, 16) == s.l;
    MallocSixteen(base, s, s.l, 0);
    assert s.l[..0] == [] && Cut(s.l[0], 16) == [Block(16, false)];
    NotGrowing(s.l);
    SmallBytes(s.l[0]);
  }

  /** Two allocations of sixteen bytes, a free of the first and a third: the
      heap loses the second block, whose payload is still held. A fourth
      allocation grows over it and hands out the very same bytes. */
  lemma HeldTwice(base: nat)
    ensures forall n :: 0 <= n < 4 ==>
              var s := LostState(base, n);
              && WellFormed(s.l) && Frees(s, LostOps()[n])
              && WrittenStep(base, s, LostOps()[n]) == Running(LostState(base, n + 1))
    ensures var s := LostState(base, 4);
            && WellFormed(s.l) && Accepts(16) && !Halts(base, s, 16) && Overgrows(base, s, 16)
            && (base + 48, 16) in s.live && NewPayload(base, s, 16) == (base + 48, 16)
  {
    hide LostOps, WrittenStep;
    LostFirst(base);
    LostSecond(base);
    LostThird(base);
    LostFourth(base);
    LostAgain(base);
  }

  lemma LostAgain(base: nat)
    ensures var s := LostState(base, 4);
            && WellFormed(s.l) && Accepts(16) && !Halts(base, s, 16) && Overgrows(base, s, 16)
            && NewPayload(base, s, 16) == (base + 48, 16)
  {
    SixteenAccepted();
    var s := LostState(base, 4);
    var g := [Block(16, false), Block(32752, true)];
    FitAt(s.l, 16, 1);
    assert GrowPages(s.l, 16) == 8;
    assert Grow(s.l, 16) == g;
    FitAt(g, 16, 1);
    SmallBytes(g[0]);
    assert g[..1] == [g[0]];
    MallocSixteen(base, s, g, 1);
  }
}
