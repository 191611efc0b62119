/** The libc heap of src/libc/alloc.c over its header words. As written, malloc
    drops the NEXT bit of a block that had a successor, and neither a split nor
    a merge repairs the successor's back link; with `meant` both repairs are
    made. The contracts say exactly when the code as written still follows the
    block list. */
module Heap {
  import opened Division
  import opened HeapBlocks
  import opened HeapWords

  // ---- header words and the block list

  /** The header block i of the list has when its list starts at base. */
  function Header(base: nat, l: seq<Block>, i: nat): MemBlock
    requires i < |l|
  {
    MemBlock(if i == 0 then 0 else Addr(base, l, i - 1), Encode(l[i].size, i + 1 < |l|, l[i].free))
  }

  predicate HeaderAt(mem: map<nat, MemBlock>, base: nat, l: seq<Block>, i: nat)
    requires i < |l|
  {
    Addr(base, l, i) in mem && mem[Addr(base, l, i)] == Header(base, l, i)
  }

  /** The header words hold the list: sizes and bits, links both ways. */
  ghost predicate Repr(mem: map<nat, MemBlock>, base: nat, l: seq<Block>) {
    forall i: nat :: i < |l| ==> HeaderAt(mem, base, l, i)
  }

  lemma AddrOfPrefix(base: nat, a: seq<Block>, b: seq<Block>, i: nat)
    requires i <= |a|
    ensures Addr(base, a + b, i) == base + Bytes(a[..i])
  {
    AddrIsBytes(base, a + b, i);
    assert (a + b)[..i] == a[..i];
  }

  lemma AddrAfter(base: nat, a: seq<Block>, m: seq<Block>, c: seq<Block>, k: nat)
    requires k <= |c|
    ensures Addr(base, a + m + c, |a| + |m| + k) == base + Bytes(a) + Bytes(m) + Bytes(c[..k])
  {
    AddrIsBytes(base, a + m + c, |a| + |m| + k);
    assert (a + m + c)[..|a| + |m| + k] == a + m + c[..k];
    BytesConcat(a, m);
    BytesConcat(a + m, c[..k]);
  }

  lemma {:induction false} AddrStrict(base: nat, l: seq<Block>, i: nat, j: nat)
    requires i < j <= |l|
    ensures Addr(base, l, i) + HEADER + l[i].size <= Addr(base, l, j)
  {
    AddrMonotone(base, l, i + 1, j);
  }

  /** Prefixes of a list are shorter in bytes, by a header at least. */
  lemma {:induction false} PrefixBytes(a: seq<Block>, j: nat)
    requires j < |a|
    ensures Bytes(a[..j]) + HEADER + a[j].size <= Bytes(a)
  {
    AddrIsBytes(0, a, j);
    AddrIsBytes(0, a, |a|);
    assert a[..|a|] == a;
    AddrStrict(0, a, j, |a|);
  }

  /** The headers of a + x outside x stay what they are when x becomes y. */
  lemma FrontKeeps(mem: map<nat, MemBlock>, mem': map<nat, MemBlock>, base: nat, a: seq<Block>, x: seq<Block>,
                   y: seq<Block>)
    requires Repr(mem, base, a + x) && x != [] && y != []
    requires forall p: nat :: p in mem && p < base + Bytes(a) ==> p in mem' && mem'[p] == mem[p]
    ensures forall j: nat :: j < |a| ==> HeaderAt(mem', base, a + y, j)
  {
    hide Bytes, Addr, Encode;
    forall j: nat | j < |a| ensures HeaderAt(mem', base, a + y, j) {
      FrontHeader(mem, mem', base, a, x, y, j);
    }
  }

  lemma FrontHeader(mem: map<nat, MemBlock>, mem': map<nat, MemBlock>, base: nat, a: seq<Block>, x: seq<Block>,
                    y: seq<Block>, j: nat)
    requires j < |a| && HeaderAt(mem, base, a + x, j) && x != [] && y != []
    requires forall p: nat :: p in mem && p < base + Bytes(a) ==> p in mem' && mem'[p] == mem[p]
    ensures HeaderAt(mem', base, a + y, j)
  {
    hide Bytes, Addr, Encode;
    PrefixBytes(a, j);
    AddrOfPrefix(base, a, x, j);
    AddrOfPrefix(base, a, y, j);
    if j > 0 {
      AddrOfPrefix(base, a, x, j - 1);
      AddrOfPrefix(base, a, y, j - 1);
    }
  }

  /** mem' leaves the headers of c, which start at address at, alone but for
      the back link of the first. */
  ghost predicate SameBack(mem: map<nat, MemBlock>, mem': map<nat, MemBlock>, at: nat) {
    && (forall p: nat :: p in mem && p > at ==> p in mem' && mem'[p] == mem[p])
    && (at in mem ==> at in mem' && mem'[at].b == mem[at].b)
  }

  /** The headers after a middle part that keeps its length in bytes, given the
      back link of the first. */
  lemma BackKeeps(mem: map<nat, MemBlock>, mem': map<nat, MemBlock>, base: nat, a: seq<Block>, m: seq<Block>,
                  m': seq<Block>, c: seq<Block>)
    requires Repr(mem, base, a + m + c) && Bytes(m) == Bytes(m') && m != [] && m' != []
    requires SameBack(mem, mem', base + Bytes(a) + Bytes(m))
    requires c != [] ==>
      (var at := base + Bytes(a) + Bytes(m);
       at in mem' ==> mem'[at].a == Addr(base, a + m' + c, |a| + |m'| - 1))
    ensures forall n: nat :: |a| + |m'| <= n < |a| + |m'| + |c| ==> HeaderAt(mem', base, a + m' + c, n)
  {
    hide Bytes, Addr, Encode, Repr;
    forall n: nat | |a| + |m'| <= n < |a| + |m'| + |c| ensures HeaderAt(mem', base, a + m' + c, n) {
      BackHeader(mem, mem', base, a, m, m', c, n - |a| - |m'|);
    }
  }

  lemma BackHeader(mem: map<nat, MemBlock>, mem': map<nat, MemBlock>, base: nat, a: seq<Block>, m: seq<Block>,
                   m': seq<Block>, c: seq<Block>, k: nat)
    requires Repr(mem, base, a + m + c) && Bytes(m) == Bytes(m') && m != [] && m' != [] && k < |c|
    requires SameBack(mem, mem', base + Bytes(a) + Bytes(m))
    requires var at := base + Bytes(a) + Bytes(m);
             at in mem' ==> mem'[at].a == Addr(base, a + m' + c, |a| + |m'| - 1)
    ensures HeaderAt(mem', base, a + m' + c, |a| + |m'| + k)
  {
    hide Bytes, Addr, Encode, HeaderAt;
    var l, l' := a + m + c, a + m' + c;
    var n: nat, n': nat := |a| + |m| + k, |a| + |m'| + k;
    AddrAfter(base, a, m, c, k);
    AddrAfter(base, a, m', c, k);
    Behind(a, m, c, k);
    Behind(a, m', c, k);
    ReprAt(mem, base, l, n);
    EmptyBytes();
    assert c[..0] == [];
    if k > 0 {
      AddrAfter(base, a, m, c, k - 1);
      AddrAfter(base, a, m', c, k - 1);
      PrefixPositive(c, k);
    }
    HeaderMoves(mem, mem', base, l, n, l', n', k > 0);
  }

  /** Where the last part of a list lies in it. */
  lemma Behind(a: seq<Block>, m: seq<Block>, c: seq<Block>, k: nat)
    requires k < |c|
    ensures |a + m + c| == |a| + |m| + |c| && (a + m + c)[|a| + |m| + k] == c[k]
  {
  }

  /** A header whose block only changed its place in the list. */
  lemma HeaderMoves(mem: map<nat, MemBlock>, mem': map<nat, MemBlock>, base: nat, l: seq<Block>, n: nat,
                    l': seq<Block>, n': nat, linked: bool)
    requires 0 < n < |l| && 0 < n' < |l'| && l[n] == l'[n'] && (n + 1 < |l| <==> n' + 1 < |l'|)
    requires HeaderAt(mem, base, l, n) && Addr(base, l, n) == Addr(base, l', n')
    requires linked ==> Addr(base, l, n - 1) == Addr(base, l', n' - 1)
    requires var p := Addr(base, l, n);
             && p in mem' && mem'[p].b == mem[p].b
             && mem'[p].a == if linked then mem[p].a else Addr(base, l', n' - 1)
    ensures HeaderAt(mem', base, l', n')
  {
  }

  lemma EmptyBytes()
    ensures Bytes([]) == 0
  {
  }

  lemma PrefixPositive(c: seq<Block>, k: nat)
    requires 0 < k <= |c|
    ensures Bytes(c[..k]) >= HEADER
  {
  }

  /** A list and a proper prefix of it are never both what the headers hold:
      the NEXT bit of the prefix's last block differs. */
  lemma ReprIsWhole(mem: map<nat, MemBlock>, base: nat, x: seq<Block>, y: seq<Block>)
    requires x != [] && y != [] && Repr(mem, base, x) && x[|x| - 1].size % ALIGNMENT == 0
    ensures !Repr(mem, base, x + y)
  {
    var i: nat := |x| - 1;
    AddrOfPrefix(base, x, y, i);
    AddrOfPrefix(base, x, [], i);
    assert x + [] == x;
    assert HeaderAt(mem, base, x, i);
    assert (x + y)[i] == x[i];
    Decode(x[i].size, false, x[i].free);
    Decode(x[i].size, true, x[i].free);
    assert Header(base, x, i).b != Header(base, x + y, i).b;
    assert !HeaderAt(mem, base, x + y, i);
  }

  // ---- what a cut and a join write

  predicate Cuttable(l: seq<Block>, i: nat, sz: nat) {
    i < |l| && (l[i].size == sz || l[i].size >= sz + HEADER)
  }

  /** mem' has block i cut to sz bytes: its header, and the remainder's if
      there is one. Only with next does the part keep its successor. */
  ghost predicate CutWritten(mem: map<nat, MemBlock>, mem': map<nat, MemBlock>, base: nat, l: seq<Block>, i: nat,
                             sz: nat, next: bool)
    requires Cuttable(l, i, sz)
  {
    var b := Addr(base, l, i);
    var nb := b + HEADER + sz;
    && (forall p: nat :: p in mem && p < b ==> p in mem' && mem'[p] == mem[p])
    && b in mem && b in mem' && mem'[b] == MemBlock(mem[b].a, Encode(sz, next || l[i].size > sz, false))
    && (l[i].size > sz ==> nb in mem' && mem'[nb] == MemBlock(b, Encode(l[i].size - sz - HEADER, next, true)))
    && SameBack(mem, mem', b + HEADER + l[i].size)
  }

  /** The first header after block i links back to the block before it. */
  ghost predicate CutLinked(mem: map<nat, MemBlock>, base: nat, l: seq<Block>, i: nat, sz: nat)
    requires Cuttable(l, i, sz)
  {
    var b := Addr(base, l, i);
    var at := b + HEADER + l[i].size;
    at in mem ==> mem[at].a == if l[i].size > sz then b + HEADER + sz else b
  }

  /** The writes of a cut do that, and link the next header if next is set. */
  lemma CutWords(mem: map<nat, MemBlock>, mem': map<nat, MemBlock>, base: nat, l: seq<Block>, i: nat, sz: nat,
                 next: bool)
    requires Cuttable(l, i, sz)
    requires var b := Addr(base, l, i);
             var nb := b + HEADER + sz;
             var at := b + HEADER + l[i].size;
             && b in mem
             && (next ==> at in mem && mem[at].a == b)
             && (l[i].size == sz ==> mem' == mem[b := MemBlock(mem[b].a, Encode(sz, next, false))])
             && (l[i].size > sz ==>
                   var m := mem[b := MemBlock(mem[b].a, Encode(sz, true, false))]
                               [nb := MemBlock(b, Encode(l[i].size - sz - HEADER, next, true))];
                   mem' == if next then m[at := MemBlock(nb, mem[at].b)] else m)
    ensures CutWritten(mem, mem', base, l, i, sz, next)
    ensures next ==> CutLinked(mem', base, l, i, sz)
  {
    hide Addr, Encode;
  }

  lemma CutBytes(b: Block, sz: nat)
    requires b.size == sz || b.size >= sz + HEADER
    ensures Bytes(Cut(b, sz)) == Bytes([b]) == HEADER + b.size
  {
    CutKeeps(0, b, sz);
    One(0, b);
  }

  lemma CutMiddle(mem: map<nat, MemBlock>, mem': map<nat, MemBlock>, base: nat, l: seq<Block>, i: nat, sz: nat,
                  c: seq<Block>)
    requires Repr(mem, base, l) && Cuttable(l, i, sz) && CutWritten(mem, mem', base, l, i, sz, c != [])
    ensures var r := l[..i] + Cut(l[i], sz) + c;
            forall n: nat :: i <= n < i + |Cut(l[i], sz)| ==> HeaderAt(mem', base, r, n)
  {
    hide Bytes, Encode, Repr;
    var a, m := l[..i], Cut(l[i], sz);
    var r := a + m + c;
    AddrIsBytes(base, l, i);
    AddrIsBytes(base, r, i);
    assert r[..i] == a;
    assert HeaderAt(mem, base, l, i) by { ReprAt(mem, base, l, i); }
    if i > 0 {
      AddrIsBytes(base, l, i - 1);
      AddrIsBytes(base, r, i - 1);
      assert r[..i - 1] == l[..i - 1];
    }
    assert HeaderAt(mem', base, r, i);
    if l[i].size > sz { assert HeaderAt(mem', base, r, i + 1); }
  }

  lemma ReprAt(mem: map<nat, MemBlock>, base: nat, l: seq<Block>, i: nat)
    requires Repr(mem, base, l) && i < |l|
    ensures HeaderAt(mem, base, l, i)
  {
  }

  /** A cut that keeps the NEXT bit and repairs the back link holds the whole
      list. */
  lemma CutRepaired(mem: map<nat, MemBlock>, mem': map<nat, MemBlock>, base: nat, l: seq<Block>, i: nat, sz: nat)
    requires Repr(mem, base, l) && Cuttable(l, i, sz)
    requires CutWritten(mem, mem', base, l, i, sz, i + 1 < |l|)
    requires i + 1 < |l| ==> CutLinked(mem', base, l, i, sz)
    ensures Repr(mem', base, Take(l, i, sz))
  {
    hide Bytes, Encode, Repr, CutWritten;
    var a, m, m', c := l[..i], [l[i]], Cut(l[i], sz), l[i + 1..];
    var r := Take(l, i, sz);
    assert a + (m + c) == l == a + m + c && r == a + (m' + c);
    AddrIsBytes(base, l, i);
    CutBytes(l[i], sz);
    CutSides(mem, mem', base, l, i, sz, c != []);
    FrontKeeps(mem, mem', base, a, m + c, m' + c);
    CutMiddle(mem, mem', base, l, i, sz, c);
    if c != [] { CutBehind(mem, mem', base, l, i, sz); }
    ReprParts(mem', base, r, i, i + |m'|);
  }

  /** The headers behind a repaired cut. */
  lemma CutBehind(mem: map<nat, MemBlock>, mem': map<nat, MemBlock>, base: nat, l: seq<Block>, i: nat, sz: nat)
    requires Repr(mem, base, l) && Cuttable(l, i, sz) && i + 1 < |l|
    requires CutWritten(mem, mem', base, l, i, sz, true) && CutLinked(mem', base, l, i, sz)
    ensures forall n: nat :: i + |Cut(l[i], sz)| <= n < |Take(l, i, sz)| ==> HeaderAt(mem', base, Take(l, i, sz), n)
  {
    hide Bytes, Encode, Repr, CutWritten, Addr, HeaderAt;
    var a, m, m', c := l[..i], [l[i]], Cut(l[i], sz), l[i + 1..];
    assert l == a + m + c;
    AddrIsBytes(base, l, i);
    CutBytes(l[i], sz);
    CutSides(mem, mem', base, l, i, sz, true);
    LastOfCut(base, l, i, sz);
    BackKeeps(mem, mem', base, a, m, m', c);
  }

  lemma CutSides(mem: map<nat, MemBlock>, mem': map<nat, MemBlock>, base: nat, l: seq<Block>, i: nat, sz: nat,
                 next: bool)
    requires Cuttable(l, i, sz) && CutWritten(mem, mem', base, l, i, sz, next)
    ensures forall p: nat :: p in mem && p < Addr(base, l, i) ==> p in mem' && mem'[p] == mem[p]
    ensures SameBack(mem, mem', Addr(base, l, i) + HEADER + l[i].size)
  {
  }

  lemma LastOfCut(base: nat, l: seq<Block>, i: nat, sz: nat)
    requires Cuttable(l, i, sz)
    ensures var r := Take(l, i, sz);
            Addr(base, r, i + |Cut(l[i], sz)| - 1) == Addr(base, l, i) + (if l[i].size > sz then HEADER + sz else 0)
  {
    var r := Take(l, i, sz);
    AddrIsBytes(base, l, i);
    AddrIsBytes(base, r, i);
    assert r[..i] == l[..i];
  }

  lemma ReprParts(mem: map<nat, MemBlock>, base: nat, r: seq<Block>, i: nat, j: nat)
    requires i <= j <= |r|
    requires forall n: nat :: n < i ==> HeaderAt(mem, base, r, n)
    requires forall n: nat :: i <= n < j ==> HeaderAt(mem, base, r, n)
    requires forall n: nat :: j <= n < |r| ==> HeaderAt(mem, base, r, n)
    ensures Repr(mem, base, r)
  {
  }

  /** A cut as written holds the list up to the cut block and its remainder:
      what came after is lost. */
  lemma CutLoses(mem: map<nat, MemBlock>, mem': map<nat, MemBlock>, base: nat, l: seq<Block>, i: nat, sz: nat)
    requires Repr(mem, base, l) && Cuttable(l, i, sz) && CutWritten(mem, mem', base, l, i, sz, false)
    ensures Repr(mem', base, l[..i] + Cut(l[i], sz))
  {
    hide Bytes, Encode, Repr, CutWritten;
    var a, x, m' := l[..i], l[i..], Cut(l[i], sz);
    assert a + x == l && a + m' + [] == a + m';
    AddrIsBytes(base, l, i);
    CutSides(mem, mem', base, l, i, sz, false);
    FrontKeeps(mem, mem', base, a, x, m');
    CutMiddle(mem, mem', base, l, i, sz, []);
    ReprParts(mem', base, a + m', i, i + |m'|);
  }

  /** mem' has blocks lo to hi joined into one free block. */
  ghost predicate JoinWritten(mem: map<nat, MemBlock>, mem': map<nat, MemBlock>, base: nat, l: seq<Block>, lo: nat,
                              hi: nat, size: nat)
    requires lo < hi <= |l|
  {
    var x := Addr(base, l, lo);
    && (forall p: nat :: p in mem && p < x ==> p in mem' && mem'[p] == mem[p])
    && x in mem && x in mem' && mem'[x] == MemBlock(mem[x].a, Encode(size, hi < |l|, true))
    && SameBack(mem, mem', x + HEADER + size)
  }

  lemma JoinMiddle(mem: map<nat, MemBlock>, mem': map<nat, MemBlock>, base: nat, l: seq<Block>, lo: nat, hi: nat,
                   size: nat)
    requires lo < hi <= |l| && Repr(mem, base, l) && JoinWritten(mem, mem', base, l, lo, hi, size)
    ensures HeaderAt(mem', base, l[..lo] + [Block(size, true)] + l[hi..], lo)
  {
    hide Bytes, Encode, Repr;
    var r := l[..lo] + [Block(size, true)] + l[hi..];
    AddrIsBytes(base, l, lo);
    AddrIsBytes(base, r, lo);
    assert r[..lo] == l[..lo];
    ReprAt(mem, base, l, lo);
    if lo > 0 {
      AddrIsBytes(base, l, lo - 1);
      AddrIsBytes(base, r, lo - 1);
      assert r[..lo - 1] == l[..lo - 1];
    }
  }

  /** After a join the headers hold the joined list exactly when the first
      header behind it links back to the joined block. */
  lemma JoinHolds(mem: map<nat, MemBlock>, mem': map<nat, MemBlock>, base: nat, l: seq<Block>, lo: nat, hi: nat,
                  size: nat)
    requires lo < hi <= |l| && Repr(mem, base, l) && JoinWritten(mem, mem', base, l, lo, hi, size)
    requires Bytes(l[lo..hi]) == HEADER + size
    ensures var r := l[..lo] + [Block(size, true)] + l[hi..];
            var at := Addr(base, l, lo) + HEADER + size;
            && Addr(base, l, hi) == at && (hi < |l| ==> at in mem')
            && (Repr(mem', base, r) <==> (hi < |l| ==> mem'[at].a == Addr(base, l, lo)))
  {
    hide Bytes, Encode, Repr, JoinWritten;
    var a, m, m', c := l[..lo], l[lo..hi], [Block(size, true)], l[hi..];
    var r := a + m' + c;
    var at := Addr(base, l, lo) + HEADER + size;
    ThreeParts(l, lo, hi);
    Regroup(a, m, c);
    Regroup(a, m', c);
    One(0, m'[0]);
    JoinAddr(base, l, lo, hi, size);
    JoinSides(mem, mem', base, l, lo, hi, size);
    FrontKeeps(mem, mem', base, a, m + c, m' + c);
    JoinMiddle(mem, mem', base, l, lo, hi, size);
    if c != [] {
      ReprAt(mem, base, l, hi);
      if mem'[at].a == Addr(base, l, lo) {
        BackKeeps(mem, mem', base, a, m, m', c);
      }
      if Repr(mem', base, r) { ReprAt(mem', base, r, lo + 1); }
    }
    if c == [] || mem'[at].a == Addr(base, l, lo) { ReprParts(mem', base, r, lo, lo + 1); }
  }

  lemma JoinSides(mem: map<nat, MemBlock>, mem': map<nat, MemBlock>, base: nat, l: seq<Block>, lo: nat, hi: nat,
                  size: nat)
    requires lo < hi <= |l| && JoinWritten(mem, mem', base, l, lo, hi, size)
    ensures forall p: nat :: p in mem && p < Addr(base, l, lo) ==> p in mem' && mem'[p] == mem[p]
    ensures SameBack(mem, mem', Addr(base, l, lo) + HEADER + size)
  {
  }

  lemma JoinAddr(base: nat, l: seq<Block>, lo: nat, hi: nat, size: nat)
    requires lo < hi <= |l| && Bytes(l[lo..hi]) == HEADER + size
    ensures Addr(base, l, lo) == base + Bytes(l[..lo])
    ensures Addr(base, l, hi) == Addr(base, l, lo) + HEADER + size
    ensures var r := l[..lo] + [Block(size, true)] + l[hi..];
            Addr(base, r, lo) == Addr(base, l, lo) && Addr(base, r, lo + 1) == Addr(base, l, hi)
  {
    hide Bytes;
    var r := l[..lo] + [Block(size, true)] + l[hi..];
    AddrIsBytes(base, l, lo);
    AddrIsBytes(base, l, hi);
    AddrIsBytes(base, r, lo);
    assert l[..hi] == l[..lo] + l[lo..hi] && r[..lo] == l[..lo];
    BytesConcat(l[..lo], l[lo..hi]);
  }

  // ---- the heap

  /** Pages from the virtual-range manager, shared with its other users. */
  class PageSource {
    var nVa: nat

    ghost predicate Valid()
      reads this
    {
      nVa > 0 && nVa % PAGE == 0
    }

    method Reserve(c: nat) returns (o: nat)
      requires Valid()
      modifies this
      ensures Valid() && o == old(nVa) && nVa == o + c * PAGE
    {
      o := nVa;
      QuotientUnique(nVa + c * PAGE, PAGE, nVa / PAGE + c, 0);
      nVa := nVa + c * PAGE;
    }
  }

  datatype Outcome = Allocated(p: nat) | Null | AssertionFailed

  class Heap {
    var head: nat
    var mem: map<nat, MemBlock>
    const source: PageSource
    /** The blocks, and the end of the pages reserved for them without a gap. */
    ghost var l: seq<Block>
    ghost var end: nat

    ghost predicate Valid()
      reads this, source
    {
      && source.Valid() && (head == 0 <==> l == []) && head % ALIGNMENT == 0
      && WellFormed(l) && Repr(mem, head, l)
    }

    /** The blocks tile pages reserved without a gap. */
    ghost predicate Tiled()
      reads this
    {
      l != [] ==> head + Bytes(l) == end
    }

    ghost function Now(): Words
      reads this, source
    {
      Words(mem, head, source.nVa)
    }

    constructor (s: PageSource)
      requires s.Valid()
      ensures Valid() && l == [] && source == s && Tiled()
    {
      head, mem, source, l, end := 0, map[], s, [], 0;
    }

    /** The walk of malloc: the first block that fits, or the last one. */
    method Walk(sz: nat) returns (b: nat, fits: bool, ghost i: nat)
      requires Valid() && l != []
      ensures i < |l| && b == Addr(head, l, i) && fits == (FirstFit(l, sz) < |l|)
      ensures i == if fits then FirstFit(l, sz) else |l| - 1
      ensures WalkFrom(mem, head, sz) == Place(b, fits)
    {
      hide Encode, Addr, GetFree, GetSize, HasNext, NoFreeNeighbours;
      b, i := head, 0;
      assert b == Addr(head, l, 0) by { AddrOfPrefix(head, [], l, 0); EmptyBytes(); assert [] + l == l; assert l[..0] == []; }
      ReadHeader(i);
      while !(GetFree(mem[b].b) && GetSize(mem[b].b) >= sz)
        invariant i < |l| && b == Addr(head, l, i) && b in mem
        invariant HeaderBits(i)
        invariant WalkFrom(mem, head, sz) == WalkFrom(mem, b, sz)
        invariant forall j :: 0 <= j < i ==> !Fits(l[j], sz)
        decreases |l| - i
      {
        if !HasNext(mem[b].b) {
          return b, false, i;
        }
        b := b + GetSize(mem[b].b) + HEADER;
        i := i + 1;
        AddrStep(head, l, i);
        ReadHeader(i);
      }
      fits := true;
    }

    ghost predicate HeaderBits(i: nat)
      reads this
      requires i < |l|
    {
      var b := Addr(head, l, i);
      && b in mem && GetFree(mem[b].b) == l[i].free && GetSize(mem[b].b) == l[i].size
      && HasNext(mem[b].b) == (i + 1 < |l|)
      && mem[b].a == if i == 0 then 0 else Addr(head, l, i - 1)
    }

    lemma ReadHeader(i: nat)
      requires Valid() && i < |l|
      ensures HeaderBits(i)
    {
      hide Addr, NoFreeNeighbours, Encode, GetFree, GetSize, HasNext;
      ReprAt(mem, head, l, i);
      Decode(l[i].size, i + 1 < |l|, l[i].free);
    }

    /** Growth at the last block b. A free last block loses its FREE bit here,
        since malloc rewrites it at once: x is the grown list up to that bit. */
    method GrowLast(b: nat, sz: nat) returns (ok: bool, nb: nat, ghost x: seq<Block>)
      requires Valid() && l != [] && b == Addr(head, l, |l| - 1) && FirstFit(l, sz) == |l|
      modifies this`mem, this`end, source
      ensures source.Valid()
      ensures ok == (|l| == 1 || old(source.nVa) == head + Bytes(l))
      ensures !ok ==> mem == old(mem) && end == old(end)
      ensures ok ==> UpToLastFree(x, Grow(l, sz)) && Repr(mem, head, x) && nb == Addr(head, x, |x| - 1)
      ensures ok && old(Tiled()) ==>
                (head + Bytes(Grow(l, sz)) == end <==> old(source.nVa) == old(end))
      ensures b in old(mem) && nb in mem
      ensures var c := PagesAt(old(mem)[b].b, sz);
              && source.nVa == old(source.nVa) + c * PAGE
              && (ok <==> old(mem)[b].a == 0 || old(source.nVa) == b + GetSize(old(mem)[b].b) + HEADER)
              && (ok ==> (mem, nb) == Extended(old(mem), b, c))
    {
      hide Encode, Addr, Bytes, GetFree, GetSize, HasNext, Repr, Extend, Extended, FirstFit, WellFormed, Grow, PagesAt;
      LastPages(b, sz);
      var c := (sz - (if GetFree(mem[b].b) then GetSize(mem[b].b) else 0) + HEADER + PAGE - 1) / PAGE;
      if c < ALLOC_PAGES { c := ALLOC_PAGES; }
      var pg := source.Reserve(c);
      AddrEnd(head, l);
      LinkNonzero(|l| - 1);
      if mem[b].a != 0 && pg != b + GetSize(mem[b].b) + HEADER {
        return false, b, [];
      }
      if pg == end { end := pg + c * PAGE; }
      ok, nb, x := WriteGrowth(b, c);
    }

    /** The pages asked for at the last block, and what they make of the list. */
    lemma LastPages(b: nat, sz: nat)
      requires Valid() && l != [] && b == Addr(head, l, |l| - 1) && FirstFit(l, sz) == |l|
      ensures b in mem && GetSize(mem[b].b) == l[|l| - 1].size && (GetFree(mem[b].b) ==> GetSize(mem[b].b) <= sz)
      ensures var c := PagesAt(mem[b].b, sz);
              && c > 0 && Grow(l, sz) == Extend(l, c) && Bytes(Grow(l, sz)) == Bytes(l) + c * PAGE
      ensures var c := (sz - (if GetFree(mem[b].b) then GetSize(mem[b].b) else 0) + HEADER + PAGE - 1) / PAGE;
              PagesAt(mem[b].b, sz) == if c < ALLOC_PAGES then ALLOC_PAGES else c
    {
      hide Encode, Addr, Bytes, GetFree, GetSize, HasNext, Repr, Extend, FirstFit, WellFormed;
      ReadHeader(|l| - 1);
      NoFitLast(l, sz);
      ExtendKeeps(head, l, PagesAt(mem[b].b, sz));
    }

    lemma LinkNonzero(i: nat)
      requires Valid() && i < |l|
      ensures var b := Addr(head, l, i);
              b in mem && (mem[b].a == 0 <==> i == 0)
    {
      ReadHeader(i);
      if i > 0 { AddrMonotone(head, l, 0, i - 1); }
    }

    method WriteGrowth(b: nat, c: nat) returns (ok: bool, nb: nat, ghost x: seq<Block>)
      requires Valid() && l != [] && b == Addr(head, l, |l| - 1) && c > 0
      modifies this`mem
      ensures ok && UpToLastFree(x, Extend(l, c)) && Repr(mem, head, x) && nb == Addr(head, x, |x| - 1)
      ensures b in old(mem) && nb in mem && (mem, nb) == Extended(old(mem), b, c)
    {
      hide Encode, Addr, Bytes, GetFree, GetSize, HasNext, Repr;
      ok, nb := true, b;
      ghost var last: nat := |l| - 1;
      ghost var was := mem;
      ReadHeader(last);
      ReprAt(mem, head, l, last);
      if GetFree(mem[b].b) {
        x := l[last := Block(l[last].size + c * PAGE, false)];
        mem := mem[b := MemBlock(mem[b].a, Encode(c * PAGE + GetSize(mem[b].b), false, false))];
        ExtendedHeader(was, mem, head, l, c);
      } else {
        x := Extend(l, c);
        Decode(l[last].size, true, false);
        mem := mem[b := MemBlock(mem[b].a, Encode(GetSize(mem[b].b), true, false))];
        nb := b + GetSize(mem[b].b) + HEADER;
        mem := mem[nb := MemBlock(b, Encode(c * PAGE - HEADER, false, true))];
        AddedHeader(was, mem, head, l, c);
      }
    }

    /** Cuts block i at address b to sz bytes. The blocks are x. */
    method CutAt(b: nat, sz: nat, meant: bool, ghost x: seq<Block>, ghost i: nat)
      requires Repr(mem, head, x) && Cuttable(x, i, sz) && b == Addr(head, x, i) && x[i].size % ALIGNMENT == 0
      modifies this`mem
      ensures Repr(mem, head, if meant then Take(x, i, sz) else x[..i] + Cut(x[i], sz))
      ensures b in old(mem) && (!meant ==> mem == Split(old(mem), b, sz))
    {
      hide Encode, Addr, Bytes, Repr, GetSize, HasNext, GetFree;
      ghost var was := mem;
      ReprAt(mem, head, x, i);
      Decode(x[i].size, i + 1 < |x|, x[i].free);
      if i + 1 < |x| {
        ReprAt(mem, head, x, i + 1);
        AddrStep(head, x, i + 1);
      }
      var size, next := GetSize(mem[b].b), meant && HasNext(mem[b].b);
      var at := b + HEADER + size;
      mem := mem[b := MemBlock(mem[b].a, Encode(sz, next, false))];
      if size > sz {
        mem := mem[b := MemBlock(mem[b].a, Encode(sz, true, false))];
        var nb := b + HEADER + sz;
        mem := mem[nb := MemBlock(b, Encode(size - sz - HEADER, next, true))];
        if next { mem := mem[at := MemBlock(nb, mem[at].b)]; }
      }
      CutWords(was, mem, head, x, i, sz, next);
      if meant {
        CutRepaired(was, mem, head, x, i, sz);
      } else {
        CutLoses(was, mem, head, x, i, sz);
      }
    }

    /** The first eight pages. */
    method First()
      requires source.Valid() && head == 0
      modifies this, source
      ensures Valid() && l == Start([]) && Tiled() && head == old(source.nVa)
      ensures source.nVa == end
      ensures old(source.nVa) > 0 && Now() == WithFirst(old(Now()))
    {
      hide Encode, Bytes;
      var pg := source.Reserve(ALLOC_PAGES);
      head := pg;
      QuotientUnique(pg, ALIGNMENT, pg / PAGE * 256, 0);
      mem := mem[head := MemBlock(0, Encode(ALLOC_PAGES * PAGE - HEADER, false, true))];
      l := Start([]);
      end := pg + ALLOC_PAGES * PAGE;
      StartWellFormed([]);
    }

    /** The walk, growth and cut of malloc for a heap that has blocks. */
    method TakeFit(z: nat, meant: bool) returns (r: Outcome)
      requires Valid() && l != [] && z > 0 && z % ALIGNMENT == 0
      modifies this`mem, this`l, this`end, source
      ensures !r.Null? && source.Valid()
      ensures r.AssertionFailed? <==> |old(l)| > 1 && Grows(old(l), z) && old(source.nVa) != head + Bytes(old(l))
      ensures r.Allocated? ==> Valid() && l == AfterTake(old(l), z, meant)
      ensures r.Allocated? ==> r.p == Addr(head, l, FirstFit(Grow(old(l), z), z)) + HEADER
      ensures r.Allocated? && old(Tiled()) && meant ==> (Tiled() <==> !Grows(old(l), z) || old(source.nVa == end))
      ensures !meant ==> TakeWords(old(Now()), z) == if r.Allocated? then At(r.p, Now()) else Halts
    {
      hide Encode, Addr, Bytes, Repr, Cut, WellFormed, Grow, Take, FirstFit;
      TakePlace(l, z);
      ghost var g := Grow(l, z);
      var b, fits, i := Walk(z);
      ghost var x := l;
      FitsOrGrows(l, z);
      if !fits {
        var ok;
        ok, b, x := GrowLast(b, z);
        if !ok { return AssertionFailed; }
        i := |x| - 1;
      }
      SameTake(head, x, g, i, z);
      CutAt(b, z, meant, x, i);
      AfterTakeKeeps(head, l, z, meant);
      l := AfterTake(l, z, meant);
      r := Allocated(b + HEADER);
    }

    /** Allocates sz bytes, a 64-bit count. */
    method Malloc(sz: nat, meant: bool) returns (r: Outcome)
      requires Valid() && sz < TWO_64
      modifies this, source
      ensures r.Null? <==> !Accepts(sz)
      ensures r.Null? ==> Valid() && head == old(head) && mem == old(mem) && l == old(l) && end == old(end)
      ensures r.AssertionFailed? <==>
                Accepts(sz) && |old(l)| > 1 && Grows(old(l), Rounded(sz)) && old(source.nVa) != old(head) + Bytes(old(l))
      ensures r.Allocated? ==> Valid() && l == Reached(old(l), sz, meant)
      ensures r.Allocated? ==> (Repr(mem, head, Step(old(l), Op.Malloc(sz))) <==> meant || SpotIsLast(old(l), sz))
      ensures r.Allocated? ==>
                Spot(old(l), sz) < |l| && l[Spot(old(l), sz)] == Block(Rounded(sz), false)
                && r.p == Addr(head, l, Spot(old(l), sz)) + HEADER
      ensures r.Allocated? && old(Tiled()) && meant ==>
                (Tiled() <==> old(l) == [] || !Grows(old(l), Rounded(sz)) || old(source.nVa == end))
      ensures !meant ==>
                MallocWords(old(Now()), sz) ==
                match r case Allocated(p) => At(p, Now()) case Null => Refused case AssertionFailed => Halts
    {
      hide Repr, Addr, Grow, FirstFit, WellFormed, Rounded, Grows, AfterTake, Bytes, Start;
      RoundingWraps(sz);
      RoundedAligned(sz);
      var z := sz;
      if z % ALIGNMENT != 0 {
        z := (z + (ALIGNMENT - z % ALIGNMENT)) % TWO_64;
      }
      if z == 0 || z > MAX_ALLOC_SIZE {
        return Null;
      }
      if head == 0 {
        First();
        StartFirst(z);
      }
      r := TakeFit(z, meant);
      if r.Allocated? {
        AfterTakeKeeps(head, old(l), z, meant);
        ReachedAll(mem, head, old(l), sz, meant);
      }
    }

    /** Joins block k at address b, already marked free, with a free
        successor. */
    method JoinRight(b: nat, ghost k: nat)
      requires Valid() && k < |l| && b == Addr(head, l, k)
      modifies this`mem
      ensures JoinWritten(old(mem), mem, head, l, k, Hi(l, k), RightSize(l, k))
      ensures mem == old(mem)[b := mem[b]]
      ensures FreeReads(old(mem), b) && mem == RightJoined(old(mem), b)
    {
      hide Encode, Addr, Bytes, GetFree, GetSize, HasNext, Repr, WellFormed, SetFree, JoinWritten;
      LinksRead(mem, head, l, k);
      RightWritten(mem, head, l, k);
      ghost var was := mem;
      mem := mem[b := MemBlock(mem[b].a, SetFree(mem[b].b))];
      if HasNext(mem[b].b) {
        var nb := b + GetSize(mem[b].b) + HEADER;
        if GetFree(mem[nb].b) {
          mem := mem[b := MemBlock(mem[b].a, Encode(GetSize(mem[b].b) + GetSize(mem[nb].b) + HEADER, HasNext(mem[nb].b), true))];
        }
      }
      assert mem == RightJoined(was, b);
    }

    /** Joins block k at address b, already joined to the right, with a free
        predecessor; x is where the joined block starts. */
    method JoinLeft(b: nat, ghost k: nat, ghost was: map<nat, MemBlock>) returns (x: nat)
      requires WellFormed(l) && Repr(was, head, l) && k < |l| && b == Addr(head, l, k) && (head == 0 <==> l == [])
      requires JoinWritten(was, mem, head, l, k, Hi(l, k), RightSize(l, k)) && b in was && mem == was[b := mem[b]]
      requires FreeReads(was, b) && mem == RightJoined(was, b)
      modifies this`mem
      ensures JoinWritten(was, mem, head, l, Lo(l, k), Hi(l, k), JoinSize(l, k)) && x == Addr(head, l, Lo(l, k))
      ensures forall p: nat :: p in was && p > b ==> p in mem && mem[p] == was[p]
      ensures FreeReads(was, b) && mem == FreeWords(was, b)
    {
      hide Encode, Addr, Bytes, GetFree, GetSize, HasNext, Repr, WellFormed, RightJoined, FreeReads;
      x := b;
      SizesAligned(l, k);
      JoinedBits(was, mem, head, l, k, Hi(l, k), RightSize(l, k));
      ReprAt(was, head, l, k);
      if k > 0 {
        LeftBits(was, head, l, k);
      }
      if mem[b].a != 0 && GetFree(mem[mem[b].a].b) {
        var pb := mem[b].a;
        mem := mem[pb := MemBlock(mem[pb].a, Encode(GetSize(mem[pb].b) + GetSize(mem[b].b) + HEADER, HasNext(mem[b].b), true))];
        x := pb;
      }
    }

    /** Frees the payload at p: that of block k, or none. */
    method Free(p: nat, meant: bool, ghost k: nat)
      requires Valid()
      requires p != 0 ==> k < |l| && !l[k].free && p == Addr(head, l, k) + HEADER
      modifies this`mem, this`l
      ensures p == 0 ==> mem == old(mem) && l == old(l)
      ensures p != 0 ==> l == FreeAt(old(l), k) && WellFormed(l)
      ensures p != 0 ==> (Repr(mem, head, l) <==> meant || FreeKeepsLinks(old(l), k))
      ensures p == 0 || meant || FreeKeepsLinks(old(l), k) ==> Valid()
      ensures p != 0 && !meant ==> FreeReads(old(mem), p - HEADER) && mem == FreeWords(old(mem), p - HEADER)
      ensures old(Tiled()) ==> Tiled()
    {
      hide Encode, Addr, Bytes, GetFree, GetSize, HasNext, Repr, WellFormed, JoinWritten, FreeAt;
      if p == 0 {
        return;
      }
      var b := p - HEADER;
      ghost var was := mem;
      JoinRight(b, k);
      ReprAt(was, head, l, k);
      var x := JoinLeft(b, k, was);
      JoinFacts(was, mem, head, l, k);
      AddrStrict(head, l, k, Hi(l, k));
      ghost var joined := mem;
      if meant && HasNext(mem[x].b) {
        var at := x + HEADER + GetSize(mem[x].b);
        mem := mem[at := MemBlock(x, mem[at].b)];
        LinkKeepsJoin(was, joined, head, l, k, x);
      }
      FreeHolds(was, mem, head, l, k, meant);
      FreeAtKeeps(head, l, k);
      FreeNonempty(l, k);
      l := FreeAt(l, k);
    }
  }

  /** What a free reads around its block is there when the headers hold the
      list. */
  lemma LinksRead(mem: Memory, base: nat, l: seq<Block>, k: nat)
    requires WellFormed(l) && Repr(mem, base, l) && k < |l|
    ensures FreeReads(mem, Addr(base, l, k))
    ensures mem[Addr(base, l, k)].a == if k == 0 then 0 else Addr(base, l, k - 1)
  {
    hide Encode, GetFree, HasNext, GetSize, Addr, WellFormed;
    ReprAt(mem, base, l, k);
    if k > 0 { ReprAt(mem, base, l, k - 1); }
    SizesAligned(l, k);
    MarkedFree(mem, base, l, k);
    Decode(l[k].size, k + 1 < |l|, true);
    if k + 1 < |l| {
      ReprAt(mem, base, l, k + 1);
      AddrStep(base, l, k + 1);
    }
  }

  /** The words of a join to the right. */
  lemma RightWritten(mem: Memory, base: nat, l: seq<Block>, k: nat)
    requires WellFormed(l) && Repr(mem, base, l) && k < |l| && FreeReads(mem, Addr(base, l, k))
    ensures JoinWritten(mem, RightJoined(mem, Addr(base, l, k)), base, l, k, Hi(l, k), RightSize(l, k))
  {
    hide Encode, Addr, GetFree, GetSize, HasNext, WellFormed, SetFree, Repr, RightJoined;
    ReprAt(mem, base, l, k);
    RightWord(mem, base, l, k);
    AddrStrict(base, l, k, Hi(l, k));
  }

  /** The header of the block that is freed and joined to the right. */
  lemma RightWord(mem: Memory, base: nat, l: seq<Block>, k: nat)
    requires WellFormed(l) && Repr(mem, base, l) && k < |l| && FreeReads(mem, Addr(base, l, k))
    ensures var b := Addr(base, l, k);
            RightJoined(mem, b) == mem[b := MemBlock(mem[b].a, Encode(RightSize(l, k), Hi(l, k) < |l|, true))]
  {
    hide Encode, Addr, GetFree, GetSize, HasNext, WellFormed, SetFree, Repr;
    ReprAt(mem, base, l, k);
    SizesAligned(l, k);
    MarkedFree(mem, base, l, k);
    Decode(l[k].size, k + 1 < |l|, true);
    if k + 1 < |l| {
      SizesAligned(l, k + 1);
      ReprAt(mem, base, l, k + 1);
      AddrStep(base, l, k + 1);
      Decode(l[k + 1].size, k + 2 < |l|, l[k + 1].free);
    }
  }

  /** Nothing is joined, or the joined block is the last. */
  predicate FreeKeepsLinks(l: seq<Block>, k: nat) {
    Hi(l, k) == |l| || Hi(l, k) == Lo(l, k) + 1
  }

  /** Repairing the link behind the joined block leaves the join as it is. */
  lemma LinkKeepsJoin(mem: map<nat, MemBlock>, mem': map<nat, MemBlock>, base: nat, l: seq<Block>, k: nat, link: nat)
    requires k < |l| && JoinWritten(mem, mem', base, l, Lo(l, k), Hi(l, k), JoinSize(l, k))
    ensures var at := Addr(base, l, Lo(l, k)) + HEADER + JoinSize(l, k);
            at in mem' ==>
              JoinWritten(mem, mem'[at := MemBlock(link, mem'[at].b)], base, l, Lo(l, k), Hi(l, k), JoinSize(l, k))
  {
    hide Addr, Encode, JoinSize;
  }

  lemma FreeNonempty(l: seq<Block>, k: nat)
    requires k < |l|
    ensures FreeAt(l, k) != []
  {
  }

  lemma JoinFacts(mem: map<nat, MemBlock>, mem': map<nat, MemBlock>, base: nat, l: seq<Block>, k: nat)
    requires WellFormed(l) && k < |l| && !l[k].free && Repr(mem, base, l)
    requires JoinWritten(mem, mem', base, l, Lo(l, k), Hi(l, k), JoinSize(l, k))
    ensures var lo, hi := Lo(l, k), Hi(l, k);
            var x := Addr(base, l, lo);
            var at := x + HEADER + JoinSize(l, k);
            && x in mem' && GetSize(mem'[x].b) == JoinSize(l, k) && HasNext(mem'[x].b) == (hi < |l|)
            && at == Addr(base, l, hi)
            && (hi < |l| ==> at in mem && at in mem' && mem[at].a == Addr(base, l, hi - 1))
  {
    hide Encode, Addr, Bytes, GetFree, GetSize, HasNext, Repr, JoinWritten;
    var lo, hi := Lo(l, k), Hi(l, k);
    JoinAligned(l, k);
    JoinedPart(0, l, k);
    JoinAddr(base, l, lo, hi, JoinSize(l, k));
    JoinedBits(mem, mem', base, l, lo, hi, JoinSize(l, k));
    JoinSides(mem, mem', base, l, lo, hi, JoinSize(l, k));
    if hi < |l| { ReprAt(mem, base, l, hi); }
  }

  /** What the words hold once the back link behind the joined block is
      repaired, or left as it was. */
  lemma FreeHolds(mem: map<nat, MemBlock>, mem': map<nat, MemBlock>, base: nat, l: seq<Block>, k: nat, repaired: bool)
    requires WellFormed(l) && k < |l| && !l[k].free && Repr(mem, base, l)
    requires JoinWritten(mem, mem', base, l, Lo(l, k), Hi(l, k), JoinSize(l, k))
    requires var at := Addr(base, l, Lo(l, k)) + HEADER + JoinSize(l, k);
             Hi(l, k) < |l| ==> at in mem && at in mem' && mem'[at].a == if repaired then Addr(base, l, Lo(l, k)) else mem[at].a
    ensures Repr(mem', base, FreeAt(l, k)) <==> repaired || FreeKeepsLinks(l, k)
  {
    hide Encode, Addr, Bytes, Repr, JoinWritten, FreeAt;
    var lo, hi := Lo(l, k), Hi(l, k);
    JoinFacts(mem, mem', base, l, k);
    JoinedPart(0, l, k);
    FreeAtJoins(l, k);
    JoinHolds(mem, mem', base, l, lo, hi, JoinSize(l, k));
    if lo < hi - 1 { AddrStrict(base, l, lo, hi - 1); }
  }

  /** The header in front of block k. */
  lemma LeftBits(mem: map<nat, MemBlock>, base: nat, l: seq<Block>, k: nat)
    requires WellFormed(l) && Repr(mem, base, l) && 0 < k < |l| && base > 0
    ensures var pb := Addr(base, l, k - 1);
            && 0 < pb && pb + HEADER + l[k - 1].size == Addr(base, l, k)
            && pb in mem && GetFree(mem[pb].b) == l[k - 1].free && GetSize(mem[pb].b) == l[k - 1].size
  {
    hide GetFree, GetSize, HasNext, Encode, Bytes, NoFreeNeighbours;
    ReprAt(mem, base, l, k - 1);
    Decode(l[k - 1].size, true, l[k - 1].free);
    AddrMonotone(base, l, 0, k - 1);
  }

  /** The header a join leaves at the first of its blocks. */
  lemma JoinedBits(mem: map<nat, MemBlock>, mem': map<nat, MemBlock>, base: nat, l: seq<Block>, lo: nat, hi: nat,
                   size: nat)
    requires lo < hi <= |l| && JoinWritten(mem, mem', base, l, lo, hi, size) && size % ALIGNMENT == 0
    ensures var x := Addr(base, l, lo);
            x in mem' && GetSize(mem'[x].b) == size && HasNext(mem'[x].b) == (hi < |l|) && mem'[x].a == mem[x].a
  {
    hide Encode, Addr, GetSize, HasNext, GetFree, SameBack;
    Decode(size, hi < |l|, true);
  }

  lemma MarkedFree(mem: map<nat, MemBlock>, base: nat, l: seq<Block>, k: nat)
    requires WellFormed(l) && k < |l| && HeaderAt(mem, base, l, k)
    ensures SetFree(mem[Addr(base, l, k)].b) == Encode(l[k].size, k + 1 < |l|, true)
  {
    Decode(l[k].size, k + 1 < |l|, l[k].free);
  }

  lemma SizesAligned(l: seq<Block>, k: nat)
    requires WellFormed(l) && k < |l|
    ensures l[k].size % ALIGNMENT == 0
    ensures k > 0 ==> l[k - 1].size % ALIGNMENT == 0
    ensures k + 1 < |l| ==> l[k + 1].size % ALIGNMENT == 0
    ensures RightSize(l, k) % ALIGNMENT == 0
  {
    var right := if FreeRight(l, k) then l[k + 1].size else 0;
    AlignedSum(l[k].size, right);
    AlignedSum(l[k].size + right, HEADER);
  }

  /** The size of block k joined with a free successor. */
  function RightSize(l: seq<Block>, k: nat): nat
    requires k < |l|
  {
    l[k].size + (if FreeRight(l, k) then HEADER + l[k + 1].size else 0)
  }

  /** The blocks after z bytes are taken; as written, the ones the code can
      still reach. */
  ghost function AfterTake(l: seq<Block>, z: nat, meant: bool): seq<Block>
    requires WellFormed(l) && z > 0 && z % ALIGNMENT == 0
  {
    AllocTakeable(l, z);
    var g, i := Grow(l, z), FirstFit(Grow(l, z), z);
    if meant then Take(g, i, z) else g[..i] + Cut(g[i], z)
  }

  lemma FitsOrGrows(l: seq<Block>, z: nat)
    requires WellFormed(l) && l != [] && z > 0 && z % ALIGNMENT == 0
    ensures Start(l) == l && (Grows(l, z) <==> FirstFit(l, z) == |l|)
    ensures !Grows(l, z) ==> Grow(l, z) == l
    ensures Grows(l, z) ==> FirstFit(Grow(l, z), z) == |Grow(l, z)| - 1
  {
    GrowFits(l, z);
  }

  lemma TakePlace(l: seq<Block>, z: nat)
    requires WellFormed(l) && z > 0 && z % ALIGNMENT == 0
    ensures var g, i := Grow(l, z), FirstFit(Grow(l, z), z);
            && WellFormed(g) && g != [] && Cuttable(g, i, z) && g[i].size % ALIGNMENT == 0
  {
    GrowFits(l, z);
  }

  /** The free bit of the last block makes no difference to a cut of it. */
  lemma SameTake(base: nat, x: seq<Block>, g: seq<Block>, i: nat, z: nat)
    requires Cuttable(g, i, z) && (x == g || (UpToLastFree(x, g) && i == |g| - 1))
    ensures Cuttable(x, i, z) && x[i].size == g[i].size && Addr(base, x, i) == Addr(base, g, i)
    ensures Take(x, i, z) == Take(g, i, z) && x[..i] + Cut(x[i], z) == g[..i] + Cut(g[i], z)
  {
    hide Bytes, Addr;
    SameAround(x, g, i);
    AddrIsBytes(base, x, i);
    AddrIsBytes(base, g, i);
  }

  lemma SameAround(x: seq<Block>, g: seq<Block>, i: nat)
    requires i < |g| && (x == g || (UpToLastFree(x, g) && i == |g| - 1))
    ensures |x| == |g| && x[..i] == g[..i] && x[i + 1..] == g[i + 1..] && x[i].size == g[i].size
  {
  }

  lemma AfterTakeKeeps(base: nat, l: seq<Block>, z: nat, meant: bool)
    requires WellFormed(l) && z > 0 && z % ALIGNMENT == 0
    ensures var g, i := Grow(l, z), FirstFit(Grow(l, z), z);
            var r := AfterTake(l, z, meant);
            && WellFormed(r) && i < |r| && r[i] == Block(z, false) && i < |g| && Addr(base, r, i) == Addr(base, g, i)
            && (meant ==> Bytes(r) == Bytes(g))
  {
    hide Bytes, Live, Addr, WellFormed;
    AllocTakeable(l, z);
    var g, i := Grow(l, z), FirstFit(Grow(l, z), z);
    var r := AfterTake(l, z, meant);
    TakeKeeps(base, g, i, z);
    AddrIsBytes(base, g, i);
    AddrIsBytes(base, r, i);
    assert r[..i] == g[..i];
    if !meant {
      assert Take(g, i, z) == r + g[i + 1..];
      WellFormedConcat(r, g[i + 1..]);
    }
  }

  /** No block fits sz bytes, so that malloc asks for pages. */
  predicate Grows(l: seq<Block>, sz: nat) { FirstFit(Start(l), sz) == |Start(l)| }

  /** The block malloc takes. */
  ghost function Spot(l: seq<Block>, sz: nat): nat { FirstFit(Grow(l, Rounded(sz)), Rounded(sz)) }

  /** The block malloc takes is the last one. */
  ghost predicate SpotIsLast(l: seq<Block>, sz: nat) {
    Spot(l, sz) + 1 == |Grow(l, Rounded(sz))|
  }

  /** The blocks the code can reach after an allocation of sz bytes. */
  ghost function Reached(l: seq<Block>, sz: nat, meant: bool): seq<Block>
    requires WellFormed(l) && Accepts(sz)
  {
    RoundedAligned(sz);
    AfterTake(l, Rounded(sz), meant)
  }

  lemma ReachedAll(mem: map<nat, MemBlock>, base: nat, l: seq<Block>, sz: nat, meant: bool)
    requires WellFormed(l) && Accepts(sz) && Repr(mem, base, Reached(l, sz, meant))
    ensures Repr(mem, base, Step(l, Op.Malloc(sz))) <==> meant || SpotIsLast(l, sz)
    ensures meant || SpotIsLast(l, sz) ==> Reached(l, sz, meant) == Step(l, Op.Malloc(sz))
  {
    hide Repr, Addr, Grow, FirstFit, WellFormed, Rounded;
    RoundedAligned(sz);
    var z := Rounded(sz);
    TakePlace(l, z);
    AllocTakeable(l, z);
    var g, i := Grow(l, z), FirstFit(Grow(l, z), z);
    var x, y := g[..i] + Cut(g[i], z), g[i + 1..];
    assert Take(g, i, z) == x + y && (y == [] ==> x + y == x);
    AfterTakeKeeps(base, l, z, false);
    if !meant && y != [] {
      ReprIsWhole(mem, base, x, y) by { LastAligned(g, i, z); }
    }
  }

  lemma LastAligned(g: seq<Block>, i: nat, z: nat)
    requires Cuttable(g, i, z) && g[i].size % ALIGNMENT == 0 && z % ALIGNMENT == 0
    ensures var x := g[..i] + Cut(g[i], z);
            x[|x| - 1].size % ALIGNMENT == 0
  {
    AlignedSum(g[i].size, z);
    if g[i].size > z { AlignedSum(g[i].size - z, HEADER); }
  }

  /** Sixty-four-bit rounding wraps to zero, which malloc refuses like any size
      over the limit. */
  lemma RoundingWraps(sz: nat)
    requires sz < TWO_64
    ensures var z := if sz % ALIGNMENT != 0 then (sz + (ALIGNMENT - sz % ALIGNMENT)) % TWO_64 else sz;
            && (z == 0 || z > MAX_ALLOC_SIZE <==> !Accepts(sz))
            && (Accepts(sz) ==> z == Rounded(sz))
  {
    RoundedAligned(sz);
    var n := Rounded(sz);
    if n < TWO_64 {
      QuotientUnique(n, TWO_64, 0, n);
    } else {
      QuotientUnique(TWO_64, ALIGNMENT, 0x1000_0000_0000_0000, 0);
      AlignedSum(n, TWO_64);
      QuotientUnique(n, TWO_64, 1, n - TWO_64);
    }
  }

  lemma StartFirst(z: nat)
    requires z > 0 && z % ALIGNMENT == 0
    ensures WellFormed(Start([])) && |Start([])| == 1
    ensures Grow(Start([]), z) == Grow([], z) && (Grows(Start([]), z) <==> Grows([], z))
    ensures forall meant :: AfterTake(Start([]), z, meant) == AfterTake([], z, meant)
  {
    StartWellFormed([]);
  }

  /** The words of a free last block that more pages extend. */
  lemma ExtendedHeader(mem: map<nat, MemBlock>, mem': map<nat, MemBlock>, base: nat, l: seq<Block>, c: nat)
    requires l != [] && Repr(mem, base, l)
    requires var last := |l| - 1;
             var b := Addr(base, l, last);
             b in mem && mem' == mem[b := MemBlock(mem[b].a, Encode(c * PAGE + l[last].size, false, false))]
    ensures var x := l[|l| - 1 := Block(l[|l| - 1].size + c * PAGE, false)];
            Repr(mem', base, x) && Addr(base, x, |x| - 1) == Addr(base, l, |l| - 1)
  {
    hide Encode, Bytes, Repr;
    var last: nat := |l| - 1;
    var a, y := l[..last], [Block(l[last].size + c * PAGE, false)];
    var x := l[last := y[0]];
    assert l == a + [l[last]] && x == a + y;
    LastHeader(mem, mem', base, a, l[last], y);
  }

  /** The words of a block that more pages add. */
  lemma AddedHeader(mem: map<nat, MemBlock>, mem': map<nat, MemBlock>, base: nat, l: seq<Block>, c: nat)
    requires l != [] && Repr(mem, base, l) && !l[|l| - 1].free && c > 0
    requires var last := |l| - 1;
             var b := Addr(base, l, last);
             b in mem
             && mem' == mem[b := MemBlock(mem[b].a, Encode(l[last].size, true, false))]
                           [b + l[last].size + HEADER := MemBlock(b, Encode(c * PAGE - HEADER, false, true))]
    ensures var x := l + [Block(c * PAGE - HEADER, true)];
            Repr(mem', base, x) && Addr(base, x, |x| - 1) == Addr(base, l, |l| - 1) + l[|l| - 1].size + HEADER
  {
    hide Encode, Bytes, Repr;
    var last: nat := |l| - 1;
    var a, y := l[..last], [l[last], Block(c * PAGE - HEADER, true)];
    assert l == a + [l[last]] && l + [y[1]] == a + y;
    LastHeader(mem, mem', base, a, l[last], y);
  }

  /** Rewriting the last header, and adding one behind it. */
  lemma LastHeader(mem: map<nat, MemBlock>, mem': map<nat, MemBlock>, base: nat, a: seq<Block>, z: Block, y: seq<Block>)
    requires Repr(mem, base, a + [z]) && 1 <= |y| <= 2
    requires var b := Addr(base, a + [z], |a|);
             var nb := b + y[0].size + HEADER;
             && (forall p: nat :: p in mem && p < b ==> p in mem' && mem'[p] == mem[p])
             && b in mem && b in mem' && mem'[b] == MemBlock(mem[b].a, Encode(y[0].size, |y| == 2, y[0].free))
             && (|y| == 2 ==> nb in mem' && mem'[nb] == MemBlock(b, Encode(y[1].size, false, y[1].free)))
    ensures Repr(mem', base, a + y)
    ensures Addr(base, a + y, |a|) == Addr(base, a + [z], |a|)
    ensures |y| == 2 ==> Addr(base, a + y, |a| + 1) == Addr(base, a + [z], |a|) + y[0].size + HEADER
  {
    hide Encode, Bytes, Repr;
    var i := |a|;
    AddrOfPrefix(base, a, [z], i);
    AddrOfPrefix(base, a, y, i);
    ReprAt(mem, base, a + [z], i);
    assert a[..i] == a;
    if i > 0 {
      AddrOfPrefix(base, a, [z], i - 1);
      AddrOfPrefix(base, a, y, i - 1);
    }
    FrontKeeps(mem, mem', base, a, [z], y);
    assert HeaderAt(mem', base, a + y, i);
    if |y| == 2 { assert HeaderAt(mem', base, a + y, i + 1); }
    ReprParts(mem', base, a + y, i, |a + y|);
  }

  /** The lists agree up to the free bit of the last block. */
  predicate UpToLastFree(x: seq<Block>, g: seq<Block>) {
    |x| == |g| > 0 && x[..|x| - 1] == g[..|x| - 1] && x[|x| - 1].size == g[|x| - 1].size
  }

  lemma AddrEnd(base: nat, l: seq<Block>)
    requires l != []
    ensures Addr(base, l, |l| - 1) + HEADER + l[|l| - 1].size == base + Bytes(l)
  {
    AddrIsBytes(base, l, |l|);
    assert l[..|l|] == l;
  }

  lemma AddrStep(base: nat, l: seq<Block>, i: nat)
    requires 0 < i <= |l|
    ensures Addr(base, l, i) == Addr(base, l, i - 1) + l[i - 1].size + HEADER
  {
  }

  // ---- the code as written, under stack discipline

  /** The operation leaves the header words following the block list even
      without the repairs. */
  ghost predicate FollowsAsWritten(l: seq<Block>, op: Op)
    requires Allowed(l, op)
  {
    match op
    case Malloc(sz) => Accepts(sz) ==> SpotIsLast(l, sz)
    case Free(i) => FreeKeepsLinks(l, i)
  }

  /** Every free in the run frees the newest block in use. */
  ghost predicate LastInFirstOut(l: seq<Block>, ops: seq<Op>)
    requires WellFormed(l)
    decreases |ops|
  {
    ops != [] ==>
      Allowed(l, ops[0]) && (ops[0].Free? ==> Newest(l, ops[0].i))
      && (StepKeeps(l, ops[0]); LastInFirstOut(Step(l, ops[0]), ops[1..]))
  }

  ghost predicate FollowsThroughout(l: seq<Block>, ops: seq<Op>)
    requires WellFormed(l)
    decreases |ops|
  {
    ops != [] ==>
      Allowed(l, ops[0]) && FollowsAsWritten(l, ops[0])
      && (StepKeeps(l, ops[0]); FollowsThroughout(Step(l, ops[0]), ops[1..]))
  }

  lemma StackStep(l: seq<Block>, op: Op)
    requires WellFormed(l) && StackShaped(l) && Allowed(l, op) && (op.Free? ==> Newest(l, op.i))
    ensures FollowsAsWritten(l, op) && StackShaped(Step(l, op))
  {
    hide Grow, FirstFit, FreeAt, WellFormed;
    match op
    case Malloc(sz) =>
      if Accepts(sz) {
        RoundedAligned(sz);
        StackAlloc(l, Rounded(sz));
      }
    case Free(i) => StackFree(l, i);
  }

  /** When every free frees the newest block, the code as written follows the
      block list at every step of the run. */
  lemma {:induction false} StackRunFollows(l: seq<Block>, ops: seq<Op>)
    requires WellFormed(l) && StackShaped(l) && LastInFirstOut(l, ops)
    ensures FollowsThroughout(l, ops)
    decreases |ops|
  {
    if ops != [] {
      StackStep(l, ops[0]);
      StepKeeps(l, ops[0]);
      StackRunFollows(Step(l, ops[0]), ops[1..]);
    }
  }

  /** What calloc's check makes of a count and a size. */
  datatype Check = DividesByZero | Overflow | Passes(t: nat)

  /** The check: a 64-bit product divided by the size. */
  method CheckProduct(c: nat, sz: nat) returns (r: Check)
    requires c < TWO_64 && sz < TWO_64
    ensures r.DividesByZero? <==> sz == 0
    ensures r.Passes? <==> sz > 0 && sz * c < TWO_64
    ensures r.Passes? ==> r.t == sz * c
  {
    var t := sz * c % TWO_64;
    if sz == 0 { return DividesByZero; }
    OverflowCheckExact(c, sz);
    if t / sz != c { return Overflow; }
    r := Passes(t);
  }

  /** The division gives the count back exactly when the product fits. */
  lemma OverflowCheckExact(c: nat, sz: nat)
    requires 0 < sz < TWO_64 && c < TWO_64
    ensures sz * c % TWO_64 / sz == c <==> sz * c < TWO_64
    ensures sz * c < TWO_64 ==> sz * c % TWO_64 == sz * c
  {
    var t := sz * c % TWO_64;
    if sz * c < TWO_64 {
      QuotientUnique(sz * c, TWO_64, 0, sz * c);
      QuotientUnique(sz * c, sz, c, 0);
    } else {
      QuotientBelow(t, sz, c);
    }
  }
}
