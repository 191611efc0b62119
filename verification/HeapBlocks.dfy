/** What the libc heap of src/libc/alloc.c means: a list of blocks that tile the
    reserved range, and first-fit allocation, growth, splitting and coalescing
    on that list. Module Heap shows when its header words follow it. */
module HeapBlocks {
  import opened Division

  const HEADER: nat := 16
  const ALIGNMENT: nat := 16
  const PAGE: nat := 4096
  const ALLOC_PAGES: nat := 8
  const MAX_ALLOC_SIZE: nat := 0x100_0000_0000

  datatype Block = Block(size: nat, free: bool)

  function Bytes(l: seq<Block>): nat {
    if l == [] then 0 else Bytes(l[..|l| - 1]) + HEADER + l[|l| - 1].size
  }

  /** Bytes the blocks offer or hold, without their headers. */
  function PayloadBytes(l: seq<Block>): nat {
    if l == [] then 0 else PayloadBytes(l[..|l| - 1]) + l[|l| - 1].size
  }

  /** Address of block i when the first one is at base. */
  function Addr(base: nat, l: seq<Block>, i: nat): nat
    requires i <= |l|
  {
    if i == 0 then base else Addr(base, l, i - 1) + HEADER + l[i - 1].size
  }

  predicate Fits(b: Block, sz: nat) { b.free && b.size >= sz }

  /** The first block that fits, or |l|. */
  function FirstFit(l: seq<Block>, sz: nat): (i: nat)
    ensures i <= |l|
    ensures i < |l| ==> Fits(l[i], sz)
    ensures forall j :: 0 <= j < i ==> !Fits(l[j], sz)
  {
    if l == [] then 0
    else
      var i := FirstFit(l[..|l| - 1], sz);
      if i < |l| - 1 then i else if Fits(l[|l| - 1], sz) then |l| - 1 else |l|
  }

  function LastFree(l: seq<Block>): nat {
    if l != [] && l[|l| - 1].free then l[|l| - 1].size else 0
  }

  /** Pages asked for when nothing fits. */
  function GrowPages(l: seq<Block>, sz: nat): nat
    requires sz >= LastFree(l)
  {
    var c := (sz - LastFree(l) + HEADER + PAGE - 1) / PAGE;
    if c < ALLOC_PAGES then ALLOC_PAGES else c
  }

  /** The list after c more pages: a free last block is extended, otherwise a
      free block is added. */
  function Extend(l: seq<Block>, c: nat): seq<Block>
    requires c > 0
  {
    if l != [] && l[|l| - 1].free then l[|l| - 1 := l[|l| - 1].(size := l[|l| - 1].size + c * PAGE)]
    else l + [Block(c * PAGE - HEADER, true)]
  }

  /** A first block of eight pages if there is none, then growth if nothing
      fits. */
  function Start(l: seq<Block>): seq<Block> {
    if l == [] then [Block(ALLOC_PAGES * PAGE - HEADER, true)] else l
  }

  function Grow(l: seq<Block>, sz: nat): seq<Block> {
    var s := Start(l);
    if FirstFit(s, sz) < |s| then s
    else
      NoFitLast(s, sz);
      Extend(s, GrowPages(s, sz))
  }

  lemma NoFitLast(l: seq<Block>, sz: nat)
    requires FirstFit(l, sz) == |l|
    ensures sz >= LastFree(l)
  {
    if l != [] { assert !Fits(l[|l| - 1], sz); }
  }

  /** The blocks block i becomes when sz bytes of it are taken. */
  function Cut(b: Block, sz: nat): seq<Block>
    requires b.size == sz || b.size >= sz + HEADER
  {
    [Block(sz, false)] + (if b.size > sz then [Block(b.size - sz - HEADER, true)] else [])
  }

  function Take(l: seq<Block>, i: nat, sz: nat): seq<Block>
    requires i < |l| && (l[i].size == sz || l[i].size >= sz + HEADER)
  {
    l[..i] + Cut(l[i], sz) + l[i + 1..]
  }

  /** Block i freed and joined with its free neighbours. */
  function FreeAt(l: seq<Block>, i: nat): seq<Block>
    requires i < |l|
  {
    var right := i + 1 < |l| && l[i + 1].free;
    var b := Block(l[i].size + (if right then HEADER + l[i + 1].size else 0), true);
    var rest := if right then l[i + 2..] else l[i + 1..];
    if i > 0 && l[i - 1].free then l[..i - 1] + [Block(l[i - 1].size + HEADER + b.size, true)] + rest
    else l[..i] + [b] + rest
  }

  // ---- what every operation keeps

  ghost predicate Aligned(l: seq<Block>) {
    forall i :: 0 <= i < |l| ==> l[i].size % ALIGNMENT == 0
  }

  ghost predicate NoFreeNeighbours(l: seq<Block>) {
    forall i {:trigger l[i]} :: 0 < i < |l| ==> !(l[i - 1].free && l[i].free)
  }

  ghost predicate WellFormed(l: seq<Block>) {
    Aligned(l) && NoFreeNeighbours(l)
  }

  lemma AlignedSum(a: nat, b: nat)
    requires a % ALIGNMENT == 0 && b % ALIGNMENT == 0
    ensures (a + b) % ALIGNMENT == 0
    ensures a >= b ==> (a - b) % ALIGNMENT == 0
    ensures a > b ==> a >= b + ALIGNMENT
  {
    QuotientUnique(a + b, ALIGNMENT, a / ALIGNMENT + b / ALIGNMENT, 0);
    if a >= b {
      assert a == a / ALIGNMENT * ALIGNMENT && b == b / ALIGNMENT * ALIGNMENT;
      QuotientUnique(a - b, ALIGNMENT, a / ALIGNMENT - b / ALIGNMENT, 0);
    }
  }

  lemma {:induction false} BytesConcat(a: seq<Block>, b: seq<Block>)
    ensures Bytes(a + b) == Bytes(a) + Bytes(b)
    ensures PayloadBytes(a + b) == PayloadBytes(a) + PayloadBytes(b)
    decreases |b|
  {
    if b == [] {
      assert a + b == a;
    } else {
      assert (a + b)[..|a + b| - 1] == a + b[..|b| - 1];
      BytesConcat(a, b[..|b| - 1]);
    }
  }

  /** Payload and headers account for every byte of the range. */
  lemma {:induction false} BytesSplit(l: seq<Block>)
    ensures Bytes(l) == PayloadBytes(l) + HEADER * |l|
  {
    if l != [] { BytesSplit(l[..|l| - 1]); }
  }

  /** The block after the last would start where the range ends. */
  lemma {:induction false} AddrIsBytes(base: nat, l: seq<Block>, i: nat)
    requires i <= |l|
    ensures Addr(base, l, i) == base + Bytes(l[..i])
  {
    if i > 0 {
      AddrIsBytes(base, l, i - 1);
      assert l[..i][..i - 1] == l[..i - 1];
    }
  }

  /** Payloads are 16-aligned and do not overlap: each ends before the next
      block's header, within the range. */
  lemma {:induction false} PayloadsDisjoint(base: nat, l: seq<Block>, i: nat, j: nat)
    requires Aligned(l) && i < j <= |l| && base % ALIGNMENT == 0
    ensures Addr(base, l, i) + HEADER + l[i].size <= Addr(base, l, j) <= base + Bytes(l)
    ensures (Addr(base, l, i) + HEADER) % ALIGNMENT == 0
    decreases |l| - j, j - i
  {
    AddrAligned(base, l, i);
    AlignedSum(Addr(base, l, i), HEADER);
    if j < |l| {
      PayloadsDisjoint(base, l, i, j + 1);
    } else {
      AddrIsBytes(base, l, |l|);
      assert l[..|l|] == l;
    }
    AddrMonotone(base, l, i + 1, j);
  }

  lemma {:induction false} AddrAligned(base: nat, l: seq<Block>, i: nat)
    requires Aligned(l) && i <= |l| && base % ALIGNMENT == 0
    ensures Addr(base, l, i) % ALIGNMENT == 0
  {
    if i > 0 {
      AddrAligned(base, l, i - 1);
      AlignedSum(Addr(base, l, i - 1), HEADER);
      AlignedSum(Addr(base, l, i - 1) + HEADER, l[i - 1].size);
    }
  }

  lemma {:induction false} AddrMonotone(base: nat, l: seq<Block>, i: nat, j: nat)
    requires i <= j <= |l|
    ensures Addr(base, l, i) <= Addr(base, l, j)
    decreases j
  {
    if i < j { AddrMonotone(base, l, i, j - 1); }
  }

  /** The live payloads: address and size of every block in use. */
  function Live(base: nat, l: seq<Block>): set<(nat, nat)> {
    if l == [] then {}
    else
      var b := l[|l| - 1];
      var rest := l[..|l| - 1];
      Live(base, rest) + (if b.free then {} else {(base + Bytes(rest) + HEADER, b.size)})
  }

  lemma {:induction false} LiveConcat(base: nat, a: seq<Block>, b: seq<Block>)
    ensures Live(base, a + b) == Live(base, a) + Live(base + Bytes(a), b)
    decreases |b|
  {
    if b == [] {
      assert a + b == a;
    } else {
      var b' := b[..|b| - 1];
      assert (a + b)[..|a + b| - 1] == a + b';
      LiveConcat(base, a, b');
      BytesConcat(a, b');
    }
  }

  /** Replacing a middle part by one of the same length in bytes changes the
      live payloads of that part alone. */
  lemma LiveSplice(base: nat, a: seq<Block>, m: seq<Block>, c: seq<Block>)
    ensures Live(base, a + m + c) == Live(base, a) + Live(base + Bytes(a), m) + Live(base + Bytes(a) + Bytes(m), c)
    ensures Bytes(a + m + c) == Bytes(a) + Bytes(m) + Bytes(c)
  {
    LiveConcat(base, a + m, c);
    LiveConcat(base, a, m);
    BytesConcat(a, m);
    BytesConcat(a + m, c);
  }

  lemma One(base: nat, b: Block)
    ensures Bytes([b]) == HEADER + b.size
    ensures Live(base, [b]) == if b.free then {} else {(base + HEADER, b.size)}
  {
    assert [b][..0] == [];
  }

  lemma Two(base: nat, b: Block, c: Block)
    ensures Bytes([b, c]) == HEADER + b.size + HEADER + c.size
    ensures Live(base, [b, c]) == Live(base, [b]) + Live(base + HEADER + b.size, [c])
  {
    assert [b, c] == [b] + [c];
    LiveConcat(base, [b], [c]);
    BytesConcat([b], [c]);
    One(base, b);
    One(base + HEADER + b.size, c);
  }

  // ---- growth

  lemma StartWellFormed(l: seq<Block>)
    requires WellFormed(l)
    ensures WellFormed(Start(l)) && Start(l) != []
    ensures Bytes(Start(l)) == if l == [] then ALLOC_PAGES * PAGE else Bytes(l)
  {
    if l == [] { One(0, Block(ALLOC_PAGES * PAGE - HEADER, true)); }
  }

  lemma ExtendKeeps(base: nat, l: seq<Block>, c: nat)
    requires WellFormed(l) && l != [] && c > 0
    ensures WellFormed(Extend(l, c)) && Bytes(Extend(l, c)) == Bytes(l) + c * PAGE
    ensures Live(base, Extend(l, c)) == Live(base, l)
  {
    var init, b := l[..|l| - 1], l[|l| - 1];
    var r := Extend(l, c);
    ExtendForm(l, c);
    hide WellFormed;
    if b.free {
      assert r[..|r| - 1] == init;
    } else {
      assert r[..|r| - 1] == l;
    }
  }

  lemma ExtendForm(l: seq<Block>, c: nat)
    requires WellFormed(l) && l != [] && c > 0
    ensures WellFormed(Extend(l, c))
  {
    QuotientUnique(c * PAGE, ALIGNMENT, c * 256, 0);
    QuotientUnique(c * PAGE - HEADER, ALIGNMENT, c * 256 - 1, 0);
    AlignedSum(l[|l| - 1].size, c * PAGE);
  }

  /** After growth something fits, and a block that fits is taken exactly or
      leaves room for the remainder's header. */
  lemma GrowFits(l: seq<Block>, sz: nat)
    requires WellFormed(l) && sz > 0 && sz % ALIGNMENT == 0
    ensures WellFormed(Grow(l, sz)) && Grow(l, sz) != []
    ensures var i := FirstFit(Grow(l, sz), sz);
            i < |Grow(l, sz)| && (Grow(l, sz)[i].size == sz || Grow(l, sz)[i].size >= sz + HEADER)
    ensures FirstFit(Start(l), sz) == |Start(l)| ==> FirstFit(Grow(l, sz), sz) == |Grow(l, sz)| - 1
  {
    StartWellFormed(l);
    var s, g := Start(l), Grow(l, sz);
    if FirstFit(s, sz) == |s| {
      NoFitLast(s, sz);
      var c := GrowPages(s, sz);
      EnoughPages(sz - LastFree(s) + HEADER);
      ExtendKeeps(0, s, c);
      assert Fits(g[|g| - 1], sz);
      forall j | 0 <= j < |g| - 1 ensures !Fits(g[j], sz) { assert g[j] == s[j]; }
    }
    AlignedSum(g[FirstFit(g, sz)].size, sz);
  }

  /** Growth asks for the fewest pages that make room for the block, its header
      and what is missing behind a free last block, but for eight at least. */
  lemma GrowthIsLeast(l: seq<Block>, sz: nat)
    requires sz >= LastFree(l)
    ensures var c := GrowPages(l, sz);
            && c >= 8 && LastFree(l) + c * 4096 >= sz + 16
            && (c > 8 ==> LastFree(l) + (c - 1) * 4096 < sz + 16)
  {
    EnoughPages(sz - LastFree(l) + HEADER);
  }

  lemma EnoughPages(n: nat)
    ensures (n + PAGE - 1) / PAGE * PAGE >= n
  {
  }

  /** Growth keeps every live payload and only adds whole pages. */
  lemma GrowKeeps(base: nat, l: seq<Block>, sz: nat)
    requires WellFormed(l) && l != []
    ensures Live(base, Grow(l, sz)) == Live(base, l)
    ensures Bytes(Grow(l, sz)) >= Bytes(l) && (Bytes(Grow(l, sz)) - Bytes(l)) % PAGE == 0
  {
    if FirstFit(l, sz) == |l| {
      NoFitLast(l, sz);
      ExtendKeeps(base, l, GrowPages(l, sz));
    }
  }

  // ---- taking and freeing

  predicate Takeable(l: seq<Block>, i: nat, sz: nat) {
    && i < |l| && l[i].free && sz > 0 && sz % ALIGNMENT == 0
    && (l[i].size == sz || l[i].size >= sz + HEADER)
  }

  lemma TakeKeeps(base: nat, l: seq<Block>, i: nat, sz: nat)
    requires WellFormed(l) && Takeable(l, i, sz)
    ensures WellFormed(Take(l, i, sz)) && Bytes(Take(l, i, sz)) == Bytes(l)
    ensures Live(base, Take(l, i, sz)) == Live(base, l) + {(Addr(base, l, i) + HEADER, sz)}
  {
    hide WellFormed, Live, Bytes;
    var a, c := l[..i], l[i + 1..];
    assert l == a + [l[i]] + c;
    LiveSplice(base, a, [l[i]], c);
    LiveSplice(base, a, Cut(l[i], sz), c);
    AddrIsBytes(base, l, i);
    One(base + Bytes(a), l[i]);
    CutKeeps(base + Bytes(a), l[i], sz);
    TakeWellFormed(l, i, sz);
  }

  lemma CutKeeps(base: nat, b: Block, sz: nat)
    requires b.size == sz || b.size >= sz + HEADER
    ensures Bytes(Cut(b, sz)) == HEADER + b.size
    ensures Live(base, Cut(b, sz)) == {(base + HEADER, sz)}
  {
    One(base, Block(sz, false));
    if b.size > sz {
      var rest := Block(b.size - sz - HEADER, true);
      Two(base, Block(sz, false), rest);
      One(base + HEADER + sz, rest);
      assert Cut(b, sz) == [Block(sz, false), rest];
    } else {
      assert Cut(b, sz) == [Block(sz, false)];
    }
  }

  /** Not both the last of a and the first of b are free. */
  predicate Boundary(a: seq<Block>, b: seq<Block>) {
    a == [] || b == [] || !(a[|a| - 1].free && b[0].free)
  }

  lemma WellFormedConcat(a: seq<Block>, b: seq<Block>)
    ensures WellFormed(a + b) <==> WellFormed(a) && WellFormed(b) && Boundary(a, b)
  {
    AlignedConcat(a, b);
    if NoFreeNeighbours(a + b) { NeighboursOfParts(a, b); }
    if NoFreeNeighbours(a) && NoFreeNeighbours(b) && Boundary(a, b) { NeighboursOfWhole(a, b); }
  }

  lemma AlignedConcat(a: seq<Block>, b: seq<Block>)
    ensures Aligned(a + b) <==> Aligned(a) && Aligned(b)
  {
    var l := a + b;
    if Aligned(l) {
      forall i | 0 <= i < |a| ensures a[i].size % ALIGNMENT == 0 { assert l[i] == a[i]; }
      forall i | 0 <= i < |b| ensures b[i].size % ALIGNMENT == 0 { assert l[|a| + i] == b[i]; }
    }
  }

  lemma NeighboursOfParts(a: seq<Block>, b: seq<Block>)
    requires NoFreeNeighbours(a + b)
    ensures NoFreeNeighbours(a) && NoFreeNeighbours(b) && Boundary(a, b)
  {
    var l := a + b;
    forall i {:trigger b[i]} | 0 < i < |b| ensures !(b[i - 1].free && b[i].free) {
      assert b[i] == l[|a| + i] && b[i - 1] == l[|a| + i - 1];
    }
    forall i {:trigger a[i]} | 0 < i < |a| ensures !(a[i - 1].free && a[i].free) {
      assert a[i] == l[i] && a[i - 1] == l[i - 1];
    }
    if a != [] && b != [] { assert l[|a|] == b[0] && l[|a| - 1] == a[|a| - 1]; }
  }

  lemma NeighboursOfWhole(a: seq<Block>, b: seq<Block>)
    requires NoFreeNeighbours(a) && NoFreeNeighbours(b) && Boundary(a, b)
    ensures NoFreeNeighbours(a + b)
  {
    var l := a + b;
    forall i {:trigger l[i]} | 0 < i < |l| ensures !(l[i - 1].free && l[i].free) {
      if i < |a| {
        assert l[i] == a[i] && l[i - 1] == a[i - 1];
      } else if i == |a| {
        assert l[i] == b[0] && l[i - 1] == a[i - 1];
      } else {
        assert l[i] == b[i - |a|] && l[i - 1] == b[i - |a| - 1];
      }
    }
  }

  lemma TakeWellFormed(l: seq<Block>, i: nat, sz: nat)
    requires WellFormed(l) && Takeable(l, i, sz)
    ensures WellFormed(Take(l, i, sz))
  {
    var a, c := l[..i], l[i + 1..];
    var m := Cut(l[i], sz);
    assert l == a + ([l[i]] + c) && Take(l, i, sz) == a + (m + c);
    WellFormedConcat(a, [l[i]] + c);
    WellFormedConcat([l[i]], c);
    AlignedSum(l[i].size, sz);
    if l[i].size > sz { AlignedSum(l[i].size - sz, HEADER); }
    assert WellFormed(m);
    WellFormedConcat(m, c);
    WellFormedConcat(a, m + c);
  }

  predicate FreeLeft(l: seq<Block>, i: nat) { 0 < i <= |l| && l[i - 1].free }

  predicate FreeRight(l: seq<Block>, i: nat) { i + 1 < |l| && l[i + 1].free }

  /** The blocks that become one when block i is freed: [Lo, Hi). */
  function Lo(l: seq<Block>, i: nat): nat { if FreeLeft(l, i) then i - 1 else i }

  function Hi(l: seq<Block>, i: nat): nat { if FreeRight(l, i) then i + 2 else i + 1 }

  /** The size of the block they become. */
  function JoinSize(l: seq<Block>, i: nat): nat
    requires i < |l|
  {
    (if FreeLeft(l, i) then l[i - 1].size + HEADER else 0) + l[i].size + (if FreeRight(l, i) then HEADER + l[i + 1].size else 0)
  }

  lemma FreeAtJoins(l: seq<Block>, i: nat)
    requires i < |l|
    ensures FreeAt(l, i) == l[..Lo(l, i)] + [Block(JoinSize(l, i), true)] + l[Hi(l, i)..]
    ensures l == l[..Lo(l, i)] + l[Lo(l, i)..Hi(l, i)] + l[Hi(l, i)..]
  {
  }

  lemma RightPart(base: nat, l: seq<Block>, i: nat)
    requires i < |l| && !l[i].free
    ensures Bytes(l[i..Hi(l, i)]) == HEADER + l[i].size + (if FreeRight(l, i) then HEADER + l[i + 1].size else 0)
    ensures Live(base, l[i..Hi(l, i)]) == {(base + HEADER, l[i].size)}
  {
    One(base, l[i]);
    if FreeRight(l, i) {
      Two(base, l[i], l[i + 1]);
      One(base + HEADER + l[i].size, l[i + 1]);
      assert l[i..i + 2] == [l[i], l[i + 1]];
    } else {
      assert l[i..i + 1] == [l[i]];
    }
  }

  /** What the joined part is: its bytes and the one live payload in it. */
  lemma JoinedPart(base: nat, l: seq<Block>, i: nat)
    requires i < |l| && !l[i].free
    ensures var m := l[Lo(l, i)..Hi(l, i)];
            && Bytes(m) == HEADER + JoinSize(l, i)
            && Live(base, m) == {(base + (if FreeLeft(l, i) then HEADER + l[i - 1].size else 0) + HEADER, l[i].size)}
  {
    hide Live, Bytes;
    var left := if FreeLeft(l, i) then HEADER + l[i - 1].size else 0;
    RightPart(base + left, l, i);
    if FreeLeft(l, i) {
      One(base, l[i - 1]);
      LiveConcat(base, [l[i - 1]], l[i..Hi(l, i)]);
      BytesConcat([l[i - 1]], l[i..Hi(l, i)]);
      SliceCons(l, i, Hi(l, i));
    }
  }

  lemma SliceCons(l: seq<Block>, i: nat, hi: nat)
    requires 0 < i <= hi <= |l|
    ensures l[i - 1..hi] == [l[i - 1]] + l[i..hi]
  {
  }

  lemma JoinAligned(l: seq<Block>, i: nat)
    requires Aligned(l) && i < |l|
    ensures JoinSize(l, i) % ALIGNMENT == 0
  {
    var left := if FreeLeft(l, i) then l[i - 1].size else 0;
    var right := if FreeRight(l, i) then l[i + 1].size else 0;
    AlignedSum(left, l[i].size);
    AlignedSum(left + l[i].size, right);
    AlignedSum(left + l[i].size + right, HEADER);
    AlignedSum(left + l[i].size + right + HEADER, HEADER);
  }

  lemma FreeAtKeeps(base: nat, l: seq<Block>, i: nat)
    requires WellFormed(l) && i < |l| && !l[i].free
    ensures WellFormed(FreeAt(l, i)) && Bytes(FreeAt(l, i)) == Bytes(l)
    ensures Live(base, FreeAt(l, i)) + {(Addr(base, l, i) + HEADER, l[i].size)} == Live(base, l)
  {
    hide WellFormed, Live, Bytes, FreeAt, JoinSize;
    var lo, hi := Lo(l, i), Hi(l, i);
    var a, m, c := l[..lo], l[lo..hi], l[hi..];
    FreeAtJoins(l, i);
    JoinedPart(base + Bytes(a), l, i);
    AddrIsBytes(base, l, lo);
    FreeAtWellFormed(l, i);
    var b := Block(JoinSize(l, i), true);
    LiveSplice(base, a, m, c);
    LiveSplice(base, a, [b], c);
    One(base + Bytes(a), b);
    assert Addr(base, l, i) == base + Bytes(a) + (if FreeLeft(l, i) then HEADER + l[i - 1].size else 0);
  }

  /** Beyond the joined part the blocks are in use. */
  lemma FreeEdges(l: seq<Block>, i: nat)
    requires WellFormed(l) && i < |l| && !l[i].free
    ensures Lo(l, i) < Hi(l, i) <= |l|
    ensures Lo(l, i) > 0 ==> !l[Lo(l, i) - 1].free
    ensures Hi(l, i) < |l| ==> !l[Hi(l, i)].free
    ensures WellFormed([Block(JoinSize(l, i), true)])
  {
    JoinAligned(l, i);
    if i > 1 { NotBothFree(l, i - 1); }
    if i + 2 < |l| { NotBothFree(l, i + 2); }
  }

  lemma NotBothFree(l: seq<Block>, i: nat)
    requires WellFormed(l) && 0 < i < |l|
    ensures l[i - 1].free ==> !l[i].free
  {
  }

  lemma ThreeParts(l: seq<Block>, lo: nat, hi: nat)
    requires lo <= hi <= |l|
    ensures l == l[..lo] + l[lo..hi] + l[hi..]
  {
  }

  lemma Regroup(a: seq<Block>, m: seq<Block>, c: seq<Block>)
    ensures a + m + c == a + (m + c)
  {
  }

  lemma FreeAtWellFormed(l: seq<Block>, i: nat)
    requires WellFormed(l) && i < |l| && !l[i].free
    ensures WellFormed(FreeAt(l, i))
  {
    hide FreeAt, WellFormed, JoinSize, Lo, Hi, Bytes;
    var lo, hi := Lo(l, i), Hi(l, i);
    FreeEdges(l, i);
    FreeAtJoins(l, i);
    var a, m, c := l[..lo], l[lo..hi], l[hi..];
    var b := [Block(JoinSize(l, i), true)];
    ThreeParts(l, lo, hi);
    Regroup(a, m, c);
    Regroup(a, b, c);
    WellFormedConcat(a, m + c);
    WellFormedConcat(m, c);
    WellFormedConcat(b, c);
    WellFormedConcat(a, b + c);
  }

  /** Freeing what was just taken gives the list back. */
  lemma FreeUndoesTake(l: seq<Block>, i: nat, sz: nat)
    requires WellFormed(l) && Takeable(l, i, sz)
    ensures FreeAt(Take(l, i, sz), i) == l
  {
    var t := Take(l, i, sz);
    assert t[i] == Block(sz, false);
    assert !FreeLeft(t, i) by {
      if i > 0 { assert t[i - 1] == l[i - 1]; }
    }
    if l[i].size > sz {
      assert t[i + 1] == Block(l[i].size - sz - HEADER, true) && t[i + 2..] == l[i + 1..];
    } else {
      assert t[i + 1..] == l[i + 1..];
      assert i + 1 < |t| ==> t[i + 1] == l[i + 1];
    }
    assert t[..i] == l[..i];
    assert l == l[..i] + [l[i]] + l[i + 1..];
  }

  // ---- runs

  datatype Op = Malloc(sz: nat) | Free(i: nat)

  /** Allocation of sz bytes, already rounded: grow if need be, take the first
      block that fits. */
  function Alloc(l: seq<Block>, sz: nat): seq<Block>
    requires Takeable(Grow(l, sz), FirstFit(Grow(l, sz), sz), sz)
  {
    Take(Grow(l, sz), FirstFit(Grow(l, sz), sz), sz)
  }

  function Rounded(sz: nat): nat {
    if sz % ALIGNMENT == 0 then sz else sz + (ALIGNMENT - sz % ALIGNMENT)
  }

  predicate Accepts(sz: nat) { 0 < Rounded(sz) <= MAX_ALLOC_SIZE }

  /** The least multiple of 16 that holds sz bytes. */
  lemma RoundedAligned(sz: nat)
    ensures Rounded(sz) % ALIGNMENT == 0 && sz <= Rounded(sz) < sz + 16
  {
    var q := sz / ALIGNMENT;
    if sz % ALIGNMENT != 0 { QuotientUnique(Rounded(sz), ALIGNMENT, q + 1, 0); }
  }

  lemma AllocTakeable(l: seq<Block>, sz: nat)
    requires WellFormed(l) && sz > 0 && sz % ALIGNMENT == 0
    ensures WellFormed(Grow(l, sz)) && Takeable(Grow(l, sz), FirstFit(Grow(l, sz), sz), sz)
  {
    GrowFits(l, sz);
  }

  ghost predicate Allowed(l: seq<Block>, op: Op) {
    op.Free? ==> op.i < |l| && !l[op.i].free
  }

  ghost function Step(l: seq<Block>, op: Op): seq<Block>
    requires WellFormed(l) && Allowed(l, op)
  {
    match op
    case Malloc(sz) =>
      if Accepts(sz) then
        RoundedAligned(sz);
        AllocTakeable(l, Rounded(sz));
        Alloc(l, Rounded(sz))
      else l
    case Free(i) => FreeAt(l, i)
  }

  /** Pages the heap asks for in one operation: the first eight, and growth. */
  ghost function PagesAsked(l: seq<Block>, op: Op): nat {
    if op.Free? || !Accepts(op.sz) then 0
    else
      var s, z := Start(l), Rounded(op.sz);
      (if l == [] then ALLOC_PAGES else 0)
      + if FirstFit(s, z) < |s| then 0 else NoFitLast(s, z); GrowPages(s, z)
  }

  /** Growth adds what it asks for to the range. */
  lemma GrowAsked(l: seq<Block>, sz: nat)
    requires WellFormed(l) && Accepts(sz)
    ensures Bytes(Grow(l, Rounded(sz))) == Bytes(l) + PagesAsked(l, Malloc(sz)) * PAGE
  {
    StartWellFormed(l);
    var s, z := Start(l), Rounded(sz);
    if FirstFit(s, z) == |s| {
      NoFitLast(s, z);
      ExtendKeeps(0, s, GrowPages(s, z));
    }
  }

  lemma StepKeeps(l: seq<Block>, op: Op)
    requires WellFormed(l) && Allowed(l, op)
    ensures WellFormed(Step(l, op)) && Bytes(Step(l, op)) == Bytes(l) + PagesAsked(l, op) * PAGE
  {
    match op
    case Malloc(sz) =>
      if Accepts(sz) {
        RoundedAligned(sz);
        AllocTakeable(l, Rounded(sz));
        GrowAsked(l, sz);
        TakeKeeps(0, Grow(l, Rounded(sz)), FirstFit(Grow(l, Rounded(sz)), Rounded(sz)), Rounded(sz));
      }
    case Free(i) => FreeAtKeeps(0, l, i);
  }

  ghost predicate AllowedRun(l: seq<Block>, ops: seq<Op>)
    requires WellFormed(l)
    decreases |ops|
  {
    ops == [] || (Allowed(l, ops[0]) && (StepKeeps(l, ops[0]); AllowedRun(Step(l, ops[0]), ops[1..])))
  }

  ghost function Run(l: seq<Block>, ops: seq<Op>): seq<Block>
    requires WellFormed(l) && AllowedRun(l, ops)
    decreases |ops|
  {
    if ops == [] then l
    else
      StepKeeps(l, ops[0]);
      Run(Step(l, ops[0]), ops[1..])
  }

  ghost function RunPages(l: seq<Block>, ops: seq<Op>): nat
    requires WellFormed(l) && AllowedRun(l, ops)
    decreases |ops|
  {
    if ops == [] then 0
    else
      StepKeeps(l, ops[0]);
      PagesAsked(l, ops[0]) + RunPages(Step(l, ops[0]), ops[1..])
  }

  lemma {:induction false} LiveIs(base: nat, l: seq<Block>, q: (nat, nat)) returns (j: nat)
    requires q in Live(base, l)
    ensures j < |l| && !l[j].free && q == (Addr(base, l, j) + HEADER, l[j].size)
  {
    var init := l[..|l| - 1];
    if q in Live(base, init) {
      j := LiveIs(base, init, q);
      AddrIsBytes(base, init, j);
      AddrIsBytes(base, l, j);
      assert init[..j] == l[..j];
    } else {
      j := |l| - 1;
      AddrIsBytes(base, l, j);
    }
  }

  /** Two live payloads have no byte in common, and start at multiples of
      sixteen. */
  lemma LiveApart(base: nat, l: seq<Block>, p: (nat, nat), q: (nat, nat))
    requires Aligned(l) && base % ALIGNMENT == 0 && p in Live(base, l) && q in Live(base, l) && p != q
    ensures p.0 % ALIGNMENT == 0 && (p.0 + p.1 <= q.0 || q.0 + q.1 <= p.0)
  {
    hide Addr, Live, Aligned;
    var i := LiveIs(base, l, p);
    var j := LiveIs(base, l, q);
    if i < j { PayloadsDisjoint(base, l, i, j); } else { PayloadsDisjoint(base, l, j, i); }
    PayloadsDisjoint(base, l, i, i + 1);
  }

  /** Over every run no two neighbours are free, live payloads stay apart, and
      the payload and header bytes of the blocks equal the bytes reserved before
      the run and in it. */
  lemma {:induction false} RunKeeps(base: nat, l: seq<Block>, ops: seq<Op>)
    requires WellFormed(l) && AllowedRun(l, ops) && base % ALIGNMENT == 0
    ensures WellFormed(Run(l, ops))
    ensures forall p, q :: p in Live(base, Run(l, ops)) && q in Live(base, Run(l, ops)) && p != q ==>
              p.0 % ALIGNMENT == 0 && (p.0 + p.1 <= q.0 || q.0 + q.1 <= p.0)
    ensures PayloadBytes(Run(l, ops)) + HEADER * |Run(l, ops)| == Bytes(l) + RunPages(l, ops) * PAGE
    decreases |ops|
  {
    hide Live;
    if ops == [] {
      BytesSplit(l);
      forall p, q | p in Live(base, l) && q in Live(base, l) && p != q
        ensures p.0 % ALIGNMENT == 0 && (p.0 + p.1 <= q.0 || q.0 + q.1 <= p.0)
      {
        LiveApart(base, l, p, q);
      }
    } else {
      StepKeeps(l, ops[0]);
      RunKeeps(base, Step(l, ops[0]), ops[1..]);
    }
  }

  // ---- stack discipline

  /** Blocks in use, then at most one free block. */
  ghost predicate StackShaped(l: seq<Block>) {
    forall i :: 0 <= i < |l| - 1 ==> !l[i].free
  }

  /** The newest block in use. */
  predicate Newest(l: seq<Block>, i: nat) {
    i < |l| && !l[i].free && (i == |l| - 1 || (i == |l| - 2 && l[|l| - 1].free))
  }

  /** Allocation from a stack-shaped heap takes the last block, which becomes
      the newest, and keeps the shape. */
  lemma StackAlloc(l: seq<Block>, sz: nat)
    requires WellFormed(l) && StackShaped(l) && sz > 0 && sz % ALIGNMENT == 0
    ensures WellFormed(Grow(l, sz)) && Takeable(Grow(l, sz), FirstFit(Grow(l, sz), sz), sz)
    ensures FirstFit(Grow(l, sz), sz) == |Grow(l, sz)| - 1 && StackShaped(Grow(l, sz))
    ensures StackShaped(Alloc(l, sz)) && Newest(Alloc(l, sz), |Grow(l, sz)| - 1)
  {
    AllocTakeable(l, sz);
    GrowFits(l, sz);
    var g := Grow(l, sz);
    var s := Start(l);
    assert StackShaped(s);
    assert StackShaped(g) by {
      if FirstFit(s, sz) == |s| { NoFitLast(s, sz); }
    }
    var r := Alloc(l, sz);
    assert forall j :: 0 <= j < |g| - 1 ==> r[j] == g[j];
  }

  /** Freeing the newest block keeps the shape and joins nothing that has a
      successor. */
  lemma StackFree(l: seq<Block>, i: nat)
    requires WellFormed(l) && StackShaped(l) && Newest(l, i)
    ensures StackShaped(FreeAt(l, i)) && Hi(l, i) == |l| && !FreeLeft(l, i)
  {
  }

  /** Freeing the newest block undoes its allocation up to the growth. */
  lemma StackUndo(l: seq<Block>, sz: nat)
    requires WellFormed(l) && StackShaped(l) && sz > 0 && sz % ALIGNMENT == 0
    ensures Takeable(Grow(l, sz), FirstFit(Grow(l, sz), sz), sz)
    ensures FirstFit(Grow(l, sz), sz) < |Alloc(l, sz)|
    ensures FreeAt(Alloc(l, sz), FirstFit(Grow(l, sz), sz)) == Grow(l, sz)
  {
    AllocTakeable(l, sz);
    FreeUndoesTake(Grow(l, sz), FirstFit(Grow(l, sz), sz), sz);
  }
}
