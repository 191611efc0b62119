/** Runs of src/libc/alloc.c as written, over its words: any mallocs, frees of
    any payload that is held, and writes of the callers into what they hold.
    Which calls keep the blocks in order and the held payloads as they are. The
    heap is the only one to reserve pages. */
module WordRuns {
  import opened Division
  import opened HeapBlocks
  import opened HeapWords

  type Payload = (nat, nat)

  predicate Inside(q: Payload, x: nat) { q.0 <= x < q.0 + q.1 }

  function End(mem: Memory, x: nat): nat
    requires x in mem
  {
    x + HEADER + GetSize(mem[x].b)
  }

  /** A header among those at hs: where its block ends the next one starts or
      the pages end. A set NEXT bit says that there is a next one, a cleared one
      nothing; the back link may be out of date. */
  ghost predicate HeaderOk(w: Words, hs: set<nat>, x: nat) {
    && x in w.mem && 0 < w.head <= x && x % ALIGNMENT == 0 && GetSize(w.mem[x].b) % ALIGNMENT == 0
    && (End(w.mem, x) in hs || End(w.mem, x) == w.nVa)
    && (HasNext(w.mem[x].b) ==> End(w.mem, x) in hs)
    && w.mem[x].a < x && (w.mem[x].a == 0 <==> x == w.head) && (x != w.head ==> w.mem[x].a in w.mem)
  }

  /** Blocks with headers at hs tile the reserved pages. */
  ghost predicate Tiles(w: Words, hs: set<nat>) {
    && w.nVa > 0 && w.nVa % PAGE == 0
    && (if w.head == 0 then hs == {} else w.head in hs)
    && (forall x :: x in hs ==> HeaderOk(w, hs, x) && End(w.mem, x) <= w.nVa)
    && (forall x, y :: x in hs && y in hs && x < y ==> End(w.mem, x) <= y)
  }

  /** The payloads of the blocks in use. */
  ghost function Payloads(mem: Memory, hs: set<nat>): set<Payload>
    requires hs <= mem.Keys
  {
    set x | x in hs && !GetFree(mem[x].b) :: (x + HEADER, GetSize(mem[x].b))
  }

  lemma Known(w: Words, hs: set<nat>)
    requires Tiles(w, hs)
    ensures hs <= w.mem.Keys
  {
    forall x | x in hs ensures x in w.mem { assert HeaderOk(w, hs, x); }
  }

  // ---- the walk

  /** The walk stays on headers: it ends at a free block that fits, or at one
      that does not fit and has no NEXT bit. */
  lemma {:induction false} WalkInside(w: Words, hs: set<nat>, b: nat, z: nat)
    requires Tiles(w, hs) && b in hs
    ensures var r := WalkFrom(w.mem, b, z);
            && r.Place? && r.b in hs && r.b in w.mem
            && r.fits == (GetFree(w.mem[r.b].b) && GetSize(w.mem[r.b].b) >= z)
            && (!r.fits ==> !HasNext(w.mem[r.b].b))
    decreases From(w.mem, b)
  {
    hide GetFree, GetSize, HasNext;
    assert HeaderOk(w, hs, b);
    var x := w.mem[b].b;
    if !(GetFree(x) && GetSize(x) >= z) && HasNext(x) {
      assert b in From(w.mem, b);
      WalkInside(w, hs, End(w.mem, b), z);
    }
  }

  // ---- what a change of one block leaves

  /** Header x as it was, or its block's words elsewhere. */
  ghost predicate SameAt(mem: Memory, mem': Memory, x: nat) { x in mem && x in mem' && mem'[x] == mem[x] }

  /** The block at b is cut to z bytes in use; what is left is a free block. */
  ghost predicate SplitAt(mem: Memory, mem': Memory, b: nat, z: nat)
    requires b in mem
  {
    var size, nb := GetSize(mem[b].b), b + HEADER + z;
    && b in mem' && mem'[b].a == mem[b].a && GetSize(mem'[b].b) == z && !GetFree(mem'[b].b)
    && (size == z || size >= z + HEADER) && HasNext(mem'[b].b) == (size > z)
    && (size > z ==>
          nb in mem' && mem'[nb].a == b && GetSize(mem'[nb].b) == size - z - HEADER && GetFree(mem'[nb].b)
          && !HasNext(mem'[nb].b))
    && (forall x :: x in mem && x != b && !(size > z && x == nb) ==> SameAt(mem, mem', x))
  }

  lemma SplitIs(mem: Memory, b: nat, z: nat)
    requires b in mem && z <= GetSize(mem[b].b) && z % ALIGNMENT == 0 && GetSize(mem[b].b) % ALIGNMENT == 0
    ensures SplitAt(mem, Split(mem, b, z), b, z)
  {
    hide Encode, GetFree, GetSize, HasNext;
    var size := GetSize(mem[b].b);
    SplitSizes(size, z);
    Decode(z, size >= z + HEADER, false);
    if size >= z + HEADER { Decode(size - z - HEADER, false, true); }
  }

  lemma SplitSizes(size: nat, z: nat)
    requires size % ALIGNMENT == 0 && z % ALIGNMENT == 0 && z <= size
    ensures size < z + HEADER <==> size == z
    ensures size >= z + HEADER ==> (size - z - HEADER) % ALIGNMENT == 0
    ensures (HEADER + z) % ALIGNMENT == 0
  {
  }

  ghost function SplitHeaders(mem: Memory, hs: set<nat>, b: nat, z: nat): set<nat>
    requires b in mem
  {
    if GetSize(mem[b].b) > z then hs + {b + HEADER + z} else hs
  }

  /** The headers but for b, none of which lies in b's block. */
  ghost predicate Beside(w: Words, hs: set<nat>, b: nat, x: nat)
    requires b in w.mem
  {
    HeaderOk(w, hs, x) && End(w.mem, x) <= w.nVa && (x < b ==> End(w.mem, x) <= b) && (b < x ==> End(w.mem, b) <= x)
  }

  lemma BesideOf(w: Words, hs: set<nat>, b: nat, x: nat)
    requires Tiles(w, hs) && b in hs && x in hs
    ensures b in w.mem && Beside(w, hs, b, x)
  {
    hide GetFree, GetSize, HasNext;
    assert HeaderOk(w, hs, b);
  }

  lemma SplitHeader(w: Words, mem': Memory, hs: set<nat>, b: nat, z: nat, x: nat)
    requires b in w.mem && b in hs && Beside(w, hs, b, b) && z % ALIGNMENT == 0 && SplitAt(w.mem, mem', b, z)
    requires x in SplitHeaders(w.mem, hs, b, z) && (x in hs ==> Beside(w, hs, b, x))
    ensures b in mem' && x in mem' && Beside(w.(mem := mem'), SplitHeaders(w.mem, hs, b, z), b, x)
    ensures x in hs && x != b ==> SameAt(w.mem, mem', x)
    ensures x !in hs ==> x == b + HEADER + z && End(mem', x) == End(w.mem, b)
    ensures End(mem', b) == b + HEADER + z <= End(w.mem, b)
  {
    hide Encode, GetFree, GetSize, HasNext;
    SplitSizes(GetSize(w.mem[b].b), z);
  }

  lemma SplitAlone(w: Words, mem': Memory, hs: set<nat>, b: nat, z: nat, x: nat)
    requires Tiles(w, hs) && b in hs && b in w.mem && z % ALIGNMENT == 0 && SplitAt(w.mem, mem', b, z)
    requires x in SplitHeaders(w.mem, hs, b, z)
    ensures b in mem' && x in mem' && Beside(w.(mem := mem'), SplitHeaders(w.mem, hs, b, z), b, x)
    ensures forall y :: y in SplitHeaders(w.mem, hs, b, z) && x < y ==> End(mem', x) <= y
  {
    hide Encode, GetFree, GetSize, HasNext, Tiles, HeaderOk, SplitAt;
    BesideOf(w, hs, b, b);
    if x in hs { BesideOf(w, hs, b, x); }
    SplitHeader(w, mem', hs, b, z, x);
    forall y | y in SplitHeaders(w.mem, hs, b, z) && x < y ensures End(mem', x) <= y {
      if y in hs { BesideOf(w, hs, b, y); }
      SplitHeader(w, mem', hs, b, z, y);
      if x in hs && y in hs { InOrder(w, hs, x, y); }
    }
  }

  lemma SplitTiles(w: Words, mem': Memory, hs: set<nat>, b: nat, z: nat)
    requires Tiles(w, hs) && b in hs && b in w.mem && z % ALIGNMENT == 0 && SplitAt(w.mem, mem', b, z)
    ensures Tiles(w.(mem := mem'), SplitHeaders(w.mem, hs, b, z))
  {
    hide HeaderOk, SplitAt, End;
    var hs' := SplitHeaders(w.mem, hs, b, z);
    SplitAlone(w, mem', hs, b, z, b);
    forall x | x in hs' ensures x in mem' && Beside(w.(mem := mem'), hs', b, x) {
      SplitAlone(w, mem', hs, b, z, x);
    }
    forall x, y | x in hs' && y in hs' && x < y ensures End(mem', x) <= y {
      SplitAlone(w, mem', hs, b, z, x);
    }
  }

  lemma SplitPayloads(w: Words, mem': Memory, hs: set<nat>, b: nat, z: nat)
    requires Tiles(w, hs) && b in hs && b in w.mem && SplitAt(w.mem, mem', b, z)
    requires SplitHeaders(w.mem, hs, b, z) <= mem'.Keys && hs <= w.mem.Keys
    ensures Payloads(mem', SplitHeaders(w.mem, hs, b, z)) == Payloads(w.mem, hs - {b}) + {(b + HEADER, z)}
  {
    hide GetFree, GetSize, HasNext, Tiles, HeaderOk;
    var hs' := SplitHeaders(w.mem, hs, b, z);
    forall x | x in hs && x != b ensures x in hs' && SameAt(w.mem, mem', x) {
      BesideOf(w, hs, b, x);
    }
  }

  // ---- growth

  /** The last block b, at the end of the pages, gets c more: a free one is
      extended, behind one in use a free one is added. Where they start: nb. */
  ghost predicate ExtendedAt(mem: Memory, mem': Memory, b: nat, nb: nat, c: nat)
    requires b in mem && c > 0
  {
    && b in mem' && nb in mem' && mem'[b].a == mem[b].a && !GetFree(mem'[b].b)
    && (forall x :: x in mem && x != b && x != nb ==> SameAt(mem, mem', x))
    && !HasNext(mem'[nb].b)
    && if GetFree(mem[b].b) then nb == b && GetSize(mem'[b].b) == GetSize(mem[b].b) + c * PAGE
       else
         && nb == End(mem, b) && GetSize(mem'[b].b) == GetSize(mem[b].b) && mem'[nb].a == b
         && GetSize(mem'[nb].b) == c * PAGE - HEADER && GetFree(mem'[nb].b)
  }

  lemma ExtendedIs(mem: Memory, b: nat, c: nat)
    requires b in mem && c > 0 && GetSize(mem[b].b) % ALIGNMENT == 0
    ensures ExtendedAt(mem, Extended(mem, b, c).0, b, Extended(mem, b, c).1, c)
  {
    hide Encode, GetFree, GetSize, HasNext;
    PageSizes(c);
    var size := GetSize(mem[b].b);
    AlignedSum(c * PAGE, size);
    Decode(c * PAGE + size, false, false);
    Decode(size, true, false);
    Decode(c * PAGE - HEADER, false, true);
  }

  lemma PageSizes(c: nat)
    requires c > 0
    ensures c * PAGE % ALIGNMENT == 0 && c * PAGE >= PAGE && (c * PAGE - HEADER) % ALIGNMENT == 0 && c * PAGE % PAGE == 0
  {
    QuotientUnique(c * PAGE, ALIGNMENT, c * 256, 0);
    QuotientUnique(c * PAGE - HEADER, ALIGNMENT, c * 256 - 1, 0);
    QuotientUnique(c * PAGE, PAGE, c, 0);
  }

  lemma EnoughPages(x: nat, z: nat)
    requires !(GetFree(x) && GetSize(x) >= z)
    ensures var c := PagesAt(x, z);
            c > 0 && (if GetFree(x) then GetSize(x) + c * PAGE >= z else c * PAGE - HEADER >= z)
  {
    hide GetFree, GetSize;
    var n := z - (if GetFree(x) then GetSize(x) else 0) + HEADER + PAGE - 1;
    assert n == n / PAGE * PAGE + n % PAGE;
  }

  lemma GrownHeader(w: Words, mem': Memory, hs: set<nat>, b: nat, nb: nat, c: nat, x: nat)
    requires b in w.mem && b in hs && Beside(w, hs, b, b) && c > 0 && ExtendedAt(w.mem, mem', b, nb, c)
    requires End(w.mem, b) == w.nVa && !HasNext(w.mem[b].b)
    requires x in hs + {nb} && (x in hs ==> Beside(w, hs, b, x))
    ensures x in mem' && x <= nb && HeaderOk(Words(mem', w.head, w.nVa + c * PAGE), hs + {nb}, x)
    ensures x < nb ==> End(mem', x) <= nb
    ensures x < b ==> SameAt(w.mem, mem', x)
    ensures End(mem', nb) == w.nVa + c * PAGE
  {
    hide Encode, GetFree, GetSize, HasNext;
    PageSizes(c);
    AlignedSum(GetSize(w.mem[b].b), HEADER);
    AlignedSum(GetSize(w.mem[b].b), c * PAGE);
    AlignedSum(b, GetSize(w.mem[b].b) + HEADER);
  }

  /** No header lies behind the last block. */
  lemma LastHeader(w: Words, hs: set<nat>, b: nat, x: nat)
    requires Tiles(w, hs) && b in hs && x in hs && b in w.mem && End(w.mem, b) == w.nVa
    ensures x <= b && Beside(w, hs, b, x) && Beside(w, hs, b, b) && x in w.mem && w.nVa !in hs
  {
    hide GetFree, GetSize, HasNext;
    BesideOf(w, hs, b, x);
    BesideOf(w, hs, b, b);
    if w.nVa in hs { BesideOf(w, hs, b, w.nVa); }
  }

  lemma GrownAt(w: Words, mem': Memory, hs: set<nat>, b: nat, nb: nat, c: nat, x: nat)
    requires Tiles(w, hs) && b in hs && b in w.mem && c > 0 && ExtendedAt(w.mem, mem', b, nb, c)
    requires End(w.mem, b) == w.nVa && !HasNext(w.mem[b].b) && x in hs + {nb}
    ensures x in mem' && HeaderOk(Words(mem', w.head, w.nVa + c * PAGE), hs + {nb}, x)
    ensures End(mem', x) <= w.nVa + c * PAGE
    ensures forall y :: y in hs + {nb} && x < y ==> End(mem', x) <= y
  {
    hide Encode, GetFree, GetSize, HasNext, Tiles;
    PageSizes(c);
    LastHeader(w, hs, b, b);
    if x in hs { LastHeader(w, hs, b, x); }
    GrownHeader(w, mem', hs, b, nb, c, x);
    forall y | y in hs + {nb} && x < y ensures End(mem', x) <= y {
      if y in hs && y != nb {
        LastHeader(w, hs, b, y);
        assert Tiles(w, hs) && x in hs;
        InOrder(w, hs, x, y);
      }
    }
  }

  lemma InOrder(w: Words, hs: set<nat>, x: nat, y: nat)
    requires Tiles(w, hs) && x in hs && y in hs && x < y
    ensures x in w.mem && End(w.mem, x) <= y
  {
    hide GetFree, GetSize, HasNext;
    assert HeaderOk(w, hs, x);
  }

  lemma GrowTiles(w: Words, mem': Memory, hs: set<nat>, b: nat, nb: nat, c: nat)
    requires Tiles(w, hs) && b in hs && b in w.mem && c > 0 && ExtendedAt(w.mem, mem', b, nb, c)
    requires End(w.mem, b) == w.nVa && !HasNext(w.mem[b].b)
    ensures Tiles(Words(mem', w.head, w.nVa + c * PAGE), hs + {nb})
  {
    hide Encode, GetFree, GetSize, HasNext, HeaderOk, ExtendedAt, End;
    var hs', w' := hs + {nb}, Words(mem', w.head, w.nVa + c * PAGE);
    QuotientUnique(w.nVa + c * PAGE, PAGE, w.nVa / PAGE + c, 0);
    forall x | x in hs' ensures HeaderOk(w', hs', x) && x in mem' && End(mem', x) <= w'.nVa {
      GrownAt(w, mem', hs, b, nb, c, x);
    }
    forall x, y | x in hs' && y in hs' && x < y ensures End(mem', x) <= y {
      GrownAt(w, mem', hs, b, nb, c, x);
    }
  }

  lemma GrowPayloads(w: Words, mem': Memory, hs: set<nat>, b: nat, nb: nat, c: nat)
    requires Tiles(w, hs) && b in hs && b in w.mem && c > 0 && ExtendedAt(w.mem, mem', b, nb, c)
    requires End(w.mem, b) == w.nVa && !HasNext(w.mem[b].b)
    requires hs + {nb} <= mem'.Keys && hs <= w.mem.Keys
    ensures Payloads(mem', hs + {nb} - {nb}) == Payloads(w.mem, hs)
  {
    hide Encode, GetFree, GetSize, HasNext;
    LastHeader(w, hs, b, b);
    forall x | x in hs && x != nb
      ensures x in mem' && GetSize(mem'[x].b) == GetSize(w.mem[x].b) && GetFree(mem'[x].b) == GetFree(w.mem[x].b)
    {
      assert x == b || SameAt(w.mem, mem', x);
    }
  }

  // ---- malloc

  /** The words of the payloads are as they were. */
  ghost predicate KeepsHeld(mem: Memory, mem': Memory, held: set<Payload>) {
    forall q, x :: q in held && Inside(q, x) && x in mem ==> SameAt(mem, mem', x)
  }

  lemma HeldBlock(w: Words, hs: set<nat>, rest: set<nat>, q: Payload) returns (h: nat)
    requires Tiles(w, hs) && rest <= hs <= w.mem.Keys && q in Payloads(w.mem, rest)
    ensures h in rest && h in w.mem && q == (h + HEADER, GetSize(w.mem[h].b)) && !GetFree(w.mem[h].b)
    ensures q.0 + q.1 == End(w.mem, h) <= w.nVa
  {
    hide GetFree, GetSize, HasNext, HeaderOk;
    h :| h in rest && !GetFree(w.mem[h].b) && q == (h + HEADER, GetSize(w.mem[h].b));
  }

  /** Neither a header nor another block has a word in a payload. */
  lemma OutsideHeld(w: Words, hs: set<nat>, rest: set<nat>, q: Payload, b: nat, x: nat)
    requires Tiles(w, hs) && rest <= hs <= w.mem.Keys && q in Payloads(w.mem, rest)
    requires b in hs && (x == b || (b !in rest && b <= x < End(w.mem, b)))
    ensures !Inside(q, x)
  {
    hide GetFree, GetSize, HasNext, Payloads, Tiles, HeaderOk;
    var h := HeldBlock(w, hs, rest, q);
    if h < b { InOrder(w, hs, h, b); }
    if b < h { InOrder(w, hs, b, h); }
  }

  /** Block b, of at least z bytes, is taken. */
  lemma TakeBlock(w: Words, hs: set<nat>, b: nat, z: nat) returns (hs': set<nat>)
    requires Tiles(w, hs) && b in hs && b in w.mem && z % ALIGNMENT == 0 && z <= GetSize(w.mem[b].b)
    requires hs <= w.mem.Keys
    ensures var mem' := Split(w.mem, b, z);
            && Tiles(w.(mem := mem'), hs') && hs' <= mem'.Keys
            && Payloads(mem', hs') == Payloads(w.mem, hs - {b}) + {(b + HEADER, z)}
            && KeepsHeld(w.mem, mem', Payloads(w.mem, hs - {b}))
  {
    hide Tiles, Split, Payloads, GetFree, GetSize, HasNext;
    var mem' := Split(w.mem, b, z);
    BesideOf(w, hs, b, b);
    SplitIs(w.mem, b, z);
    hs' := SplitHeaders(w.mem, hs, b, z);
    SplitTiles(w, mem', hs, b, z);
    Known(w.(mem := mem'), hs');
    SplitPayloads(w, mem', hs, b, z);
    forall q, x | q in Payloads(w.mem, hs - {b}) && Inside(q, x) && x in w.mem ensures SameAt(w.mem, mem', x) {
      OutsideHeld(w, hs, hs - {b}, q, b, b);
      if GetSize(w.mem[b].b) > z { OutsideHeld(w, hs, hs - {b}, q, b, b + HEADER + z); }
    }
  }

  /** Pages are added behind the last block. */
  lemma GrowBlock(w: Words, hs: set<nat>, b: nat, c: nat) returns (hs': set<nat>)
    requires Tiles(w, hs) && b in hs && b in w.mem && c > 0 && hs <= w.mem.Keys
    requires End(w.mem, b) == w.nVa && !HasNext(w.mem[b].b)
    ensures var (mem', nb) := Extended(w.mem, b, c);
            && Tiles(Words(mem', w.head, w.nVa + c * PAGE), hs') && hs' <= mem'.Keys && nb in hs'
            && Payloads(mem', hs' - {nb}) == Payloads(w.mem, hs)
            && KeepsHeld(w.mem, mem', Payloads(w.mem, hs))
            && GetSize(mem'[nb].b) == (if GetFree(w.mem[b].b) then GetSize(w.mem[b].b) + c * PAGE else c * PAGE - HEADER)
  {
    hide Tiles, Extended, Payloads, GetFree, GetSize, HasNext;
    var (mem', nb) := Extended(w.mem, b, c);
    BesideOf(w, hs, b, b);
    ExtendedIs(w.mem, b, c);
    hs' := hs + {nb};
    GrowTiles(w, mem', hs, b, nb, c);
    Known(Words(mem', w.head, w.nVa + c * PAGE), hs');
    GrowPayloads(w, mem', hs, b, nb, c);
    forall q, x | q in Payloads(w.mem, hs) && Inside(q, x) && x in w.mem ensures SameAt(w.mem, mem', x) {
      OutsideHeld(w, hs, hs, q, b, b);
      var _ := HeldBlock(w, hs, hs, q);
    }
  }

  /** The first pages are one free block. */
  lemma FirstBlock(w: Words) returns (hs: set<nat>)
    requires Tiles(w, {}) && w.head == 0
    ensures Tiles(WithFirst(w), hs) && hs <= WithFirst(w).mem.Keys && Payloads(WithFirst(w).mem, hs) == {}
    ensures WithFirst(w).head == w.nVa != 0 && hs == {w.nVa} && w.nVa in WithFirst(w).mem
    ensures End(WithFirst(w).mem, w.nVa) == WithFirst(w).nVa
  {
    hide GetFree, GetSize, HasNext, Encode;
    hs := {w.nVa};
    PageSizes(ALLOC_PAGES);
    Decode(ALLOC_PAGES * PAGE - HEADER, false, true);
    QuotientUnique(w.nVa, ALIGNMENT, w.nVa / PAGE * 256, 0);
    QuotientUnique(w.nVa + ALLOC_PAGES * PAGE, PAGE, w.nVa / PAGE + ALLOC_PAGES, 0);
  }

  /** Growth asked for at a lone first block that does not end where the pages
      do. */
  ghost predicate Overgrows(w: Words, sz: nat) {
    Accepts(sz) && w.head != 0
    && match WalkFrom(w.mem, w.head, Rounded(sz))
       case Place(b, fits) => b in w.mem && !fits && w.mem[b].a == 0 && End(w.mem, b) != w.nVa
       case Lost => false
  }

  /** malloc for a heap with blocks: it halts, or hands out a payload that is
      apart from those held and leaves them as they are. */
  lemma TakeKeeps(w: Words, hs: set<nat>, sz: nat) returns (hs': set<nat>)
    requires Tiles(w, hs) && hs <= w.mem.Keys && w.head != 0 && Accepts(sz) && !Overgrows(w, sz)
    ensures TakeWords(w, Rounded(sz)).At? || TakeWords(w, Rounded(sz)).Halts?
    ensures TakeWords(w, Rounded(sz)).At? ==>
              var At(p, w') := TakeWords(w, Rounded(sz));
              && Tiles(w', hs') && hs' <= w'.mem.Keys
              && Payloads(w'.mem, hs') == Payloads(w.mem, hs) + {(p, Rounded(sz))}
              && KeepsHeld(w.mem, w'.mem, Payloads(w.mem, hs))
  {
    hide Tiles, Split, Extended, Payloads, KeepsHeld, GetFree, GetSize, HasNext, PagesAt, Accepts, Rounded;
    RoundedAligned(sz);
    hs' := hs;
    var z := Rounded(sz);
    HeadIn(w, hs);
    WalkInside(w, hs, w.head, z);
    var r := WalkFrom(w.mem, w.head, z);
    var b := r.b;
    if r.fits {
      hs' := TakeBlock(w, hs, b, z);
      WithoutFree(w, hs, b);
    } else {
      var c := PagesAt(w.mem[b].b, z);
      EnoughPages(w.mem[b].b, z);
      if End(w.mem, b) == w.nVa {
        var (m, nb) := Extended(w.mem, b, c);
        var h := GrowBlock(w, hs, b, c);
        var u := Words(m, w.head, w.nVa + c * PAGE);
        hs' := TakeBlock(u, h, nb, z);
        KeepsBoth(w.mem, m, Split(m, nb, z), Payloads(w.mem, hs));
      }
    }
  }

  lemma HeadIn(w: Words, hs: set<nat>)
    requires Tiles(w, hs) && w.head != 0
    ensures w.head in hs
  {
  }

  lemma WithoutFree(w: Words, hs: set<nat>, b: nat)
    requires hs <= w.mem.Keys && b in hs && GetFree(w.mem[b].b)
    ensures Payloads(w.mem, hs - {b}) == Payloads(w.mem, hs)
  {
    hide GetFree, GetSize;
  }

  lemma KeepsBoth(m0: Memory, m1: Memory, m2: Memory, held: set<Payload>)
    requires KeepsHeld(m0, m1, held) && KeepsHeld(m1, m2, held)
    ensures KeepsHeld(m0, m2, held)
  {
    forall q, x | q in held && Inside(q, x) && x in m0 ensures SameAt(m0, m2, x) {
      assert SameAt(m0, m1, x);
    }
  }

  // ---- free

  /** Blocks x and y, the next one, become one free block. */
  ghost predicate JoinedAt(mem: Memory, mem': Memory, x: nat, y: nat)
    requires x in mem && y in mem
  {
    && x in mem' && mem'[x].a == mem[x].a && GetSize(mem'[x].b) == GetSize(mem[x].b) + HEADER + GetSize(mem[y].b)
    && HasNext(mem'[x].b) == HasNext(mem[y].b) && GetFree(mem'[x].b)
    && (forall z :: z in mem && z != x ==> SameAt(mem, mem', z))
  }

  lemma JoinedHeader(w: Words, mem': Memory, hs: set<nat>, x: nat, y: nat)
    requires HeaderOk(w, hs, x) && HeaderOk(w, hs, y) && End(w.mem, x) == y && End(w.mem, y) <= w.nVa
    requires JoinedAt(w.mem, mem', x, y)
    ensures End(mem', x) == End(w.mem, y) && HeaderOk(w.(mem := mem'), hs - {y}, x) && x < y
  {
    hide GetFree, GetSize, HasNext;
    AlignedSum(GetSize(w.mem[x].b), HEADER);
    AlignedSum(GetSize(w.mem[x].b) + HEADER, GetSize(w.mem[y].b));
  }

  lemma OtherHeader(w: Words, mem': Memory, hs: set<nat>, x: nat, y: nat, z: nat)
    requires HeaderOk(w, hs, z) && x in w.mem && y in w.mem && z != x && End(w.mem, z) != y
    requires JoinedAt(w.mem, mem', x, y)
    ensures z in mem' && End(mem', z) == End(w.mem, z) && HeaderOk(w.(mem := mem'), hs - {y}, z)
  {
    hide GetFree, GetSize, HasNext;
    assert SameAt(w.mem, mem', z);
    if z != w.head && w.mem[z].a != x { assert SameAt(w.mem, mem', w.mem[z].a); }
  }

  lemma JoinedAlone(w: Words, mem': Memory, hs: set<nat>, x: nat, y: nat, z: nat)
    requires Tiles(w, hs) && x in hs && y in hs && x in w.mem && y in w.mem && End(w.mem, x) == y
    requires JoinedAt(w.mem, mem', x, y) && z in hs - {y}
    ensures z in mem' && HeaderOk(w.(mem := mem'), hs - {y}, z) && End(mem', z) <= w.nVa
    ensures forall u :: u in hs - {y} && z < u ==> End(mem', z) <= u
  {
    assert HeaderOk(w, hs, x) && HeaderOk(w, hs, y) && HeaderOk(w, hs, z);
    hide GetFree, GetSize, HasNext, HeaderOk, JoinedAt, Tiles;
    JoinedHeader(w, mem', hs, x, y);
    if z < x { InOrder(w, hs, z, x); }
    if x < z { InOrder(w, hs, x, z); }
    if z != x { OtherHeader(w, mem', hs, x, y, z) by { Goes(w, hs, z); } }
    forall u | u in hs - {y} && z < u ensures End(mem', z) <= u {
      InOrder(w, hs, z, u);
      if z == x { InOrder(w, hs, y, u); }
    }
  }

  lemma Goes(w: Words, hs: set<nat>, x: nat)
    requires HeaderOk(w, hs, x)
    ensures End(w.mem, x) > x
  {
  }

  lemma JoinTiles(w: Words, mem': Memory, hs: set<nat>, x: nat, y: nat)
    requires Tiles(w, hs) && x in hs && y in hs && x in w.mem && y in w.mem && End(w.mem, x) == y
    requires JoinedAt(w.mem, mem', x, y)
    ensures Tiles(w.(mem := mem'), hs - {y})
  {
    hide GetFree, GetSize, HasNext, HeaderOk, End, JoinedAt;
    assert x != y && w.head != y by { JoinedFirst(w, hs, x, y); }
    forall z | z in hs - {y} ensures HeaderOk(w.(mem := mem'), hs - {y}, z) && z in mem' && End(mem', z) <= w.nVa {
      JoinedAlone(w, mem', hs, x, y, z);
    }
    forall z, u | z in hs - {y} && u in hs - {y} && z < u ensures End(mem', z) <= u {
      JoinedAlone(w, mem', hs, x, y, z);
    }
  }

  lemma JoinedFirst(w: Words, hs: set<nat>, x: nat, y: nat)
    requires Tiles(w, hs) && x in hs && x in w.mem && End(w.mem, x) == y
    ensures w.head <= x < y
  {
    hide GetFree, GetSize, HasNext;
    assert HeaderOk(w, hs, x);
  }

  lemma JoinPayloads(mem: Memory, mem': Memory, hs: set<nat>, x: nat, y: nat)
    requires hs <= mem.Keys && hs - {y} <= mem'.Keys && x in hs && y in hs && x != y && JoinedAt(mem, mem', x, y)
    requires GetFree(mem[y].b)
    ensures Payloads(mem', hs - {y}) == Payloads(mem, hs - {x})
  {
    hide GetFree, GetSize, HasNext;
    forall z | z in hs && z != x && z != y ensures SameAt(mem, mem', z) { }
  }

  /** A word changes that is no header's. */
  lemma StrayWrite(w: Words, hs: set<nat>, x: nat, v: MemBlock)
    requires Tiles(w, hs) && x !in hs && hs <= w.mem.Keys
    ensures Tiles(w.(mem := w.mem[x := v]), hs) && hs <= w.mem[x := v].Keys
    ensures Payloads(w.mem[x := v], hs) == Payloads(w.mem, hs)
  {
    hide GetFree, GetSize, HasNext, Payloads;
    var w' := w.(mem := w.mem[x := v]);
    SameTiles(w, w', hs);
    SamePayloads(w.mem, w'.mem, hs);
  }

  /** Headers that keep their links, sizes and NEXT bits. */
  lemma SameTiles(w: Words, w': Words, hs: set<nat>)
    requires Tiles(w, hs) && w' == w.(mem := w'.mem) && hs <= w.mem.Keys <= w'.mem.Keys
    requires forall x :: x in hs ==>
               w'.mem[x].a == w.mem[x].a && GetSize(w'.mem[x].b) == GetSize(w.mem[x].b)
               && HasNext(w'.mem[x].b) == HasNext(w.mem[x].b)
    ensures Tiles(w', hs)
  {
    hide GetFree, GetSize, HasNext, HeaderOk, End;
    forall z | z in hs ensures HeaderOk(w', hs, z) && End(w'.mem, z) == End(w.mem, z) {
      assert HeaderOk(w, hs, z);
      SameHeader(w, w', hs, z);
    }
  }

  lemma SameHeader(w: Words, w': Words, hs: set<nat>, x: nat)
    requires HeaderOk(w, hs, x) && w' == w.(mem := w'.mem) && w.mem.Keys <= w'.mem.Keys
    requires w'.mem[x].a == w.mem[x].a && GetSize(w'.mem[x].b) == GetSize(w.mem[x].b)
    requires HasNext(w'.mem[x].b) == HasNext(w.mem[x].b)
    ensures HeaderOk(w', hs, x) && End(w'.mem, x) == End(w.mem, x)
  {
    hide GetFree, GetSize, HasNext;
  }

  lemma SamePayloads(mem: Memory, mem': Memory, hs: set<nat>)
    requires hs <= mem.Keys && hs <= mem'.Keys
    requires forall x :: x in hs ==> GetSize(mem'[x].b) == GetSize(mem[x].b) && GetFree(mem'[x].b) == GetFree(mem[x].b)
    ensures Payloads(mem', hs) == Payloads(mem, hs)
  {
    hide GetFree, GetSize;
  }

  lemma MarkedBits(x: nat)
    requires !GetFree(x)
    ensures GetFree(SetFree(x)) && HasNext(SetFree(x)) == HasNext(x) && GetSize(SetFree(x)) == GetSize(x)
  {
    var y := x / 2;
    var h, n := y / 2, y % 2;
    assert x == 2 * y && y == 2 * h + n;
    hide GetFree, GetSize, HasNext;
    BitsOf(x, h, n, 0);
    BitsOf(x + 1, h, n, 1);
  }

  lemma BitsOf(x: nat, h: nat, n: nat, f: nat)
    requires x == 4 * h + 2 * n + f && n < 2 && f < 2
    ensures GetFree(x) == (f == 1) && HasNext(x) == (n == 1) && GetSize(x) == 4 * h
  {
    QuotientUnique(x, 2, 2 * h + n, f);
    QuotientUnique(2 * h + n, 2, h, n);
    QuotientUnique(x, 4, h, 2 * n + f);
  }

  /** The block at b gets the FREE bit. */
  lemma MarkTiles(w: Words, hs: set<nat>, b: nat)
    requires Tiles(w, hs) && b in hs && b in w.mem && hs <= w.mem.Keys && !GetFree(w.mem[b].b)
    ensures var m := w.mem[b := MemBlock(w.mem[b].a, SetFree(w.mem[b].b))];
            Tiles(w.(mem := m), hs) && Payloads(m, hs) == Payloads(w.mem, hs - {b}) && GetFree(m[b].b)
            && GetSize(m[b].b) == GetSize(w.mem[b].b) && HasNext(m[b].b) == HasNext(w.mem[b].b)
  {
    hide GetFree, GetSize, HasNext, SetFree, Payloads, Tiles;
    MarkedBits(w.mem[b].b);
    var m := w.mem[b := MemBlock(w.mem[b].a, SetFree(w.mem[b].b))];
    SameTiles(w, w.(mem := m), hs);
    WithoutFree(w.(mem := m), hs, b);
    SamePayloads(w.mem, m, hs - {b});
  }

  /** What free reads is there. */
  lemma ReadsThere(w: Words, hs: set<nat>, b: nat)
    requires Tiles(w, hs) && b in hs && b in w.mem && !GetFree(w.mem[b].b)
    ensures FreeReads(w.mem, b) && w.mem[b].a < b
  {
    hide GetFree, GetSize, HasNext, SetFree, Tiles;
    MarkedBits(w.mem[b].b);
    HeaderOf(w, hs, b);
    if End(w.mem, b) in hs { HeaderOf(w, hs, End(w.mem, b)); }
  }

  lemma HeaderOf(w: Words, hs: set<nat>, x: nat)
    requires Tiles(w, hs) && x in hs
    ensures HeaderOk(w, hs, x)
  {
    hide HeaderOk;
  }

  /** The headers once the block at b is free and joined with a free next one. */
  ghost function RightHeaders(mem: Memory, hs: set<nat>, b: nat): set<nat>
    requires FreeReads(mem, b)
  {
    var nb := b + GetSize(SetFree(mem[b].b)) + HEADER;
    if HasNext(SetFree(mem[b].b)) && GetFree(mem[nb].b) then hs - {nb} else hs
  }

  /** The block marked free, with its size and NEXT bit, and a next one that is
      free: what free writes joins the two. */
  lemma RightJoin(mem: Memory, b: nat)
    requires FreeReads(mem, b) && GetSize(SetFree(mem[b].b)) % ALIGNMENT == 0
    ensures var m := mem[b := MemBlock(mem[b].a, SetFree(mem[b].b))];
            var nb := End(m, b);
            HasNext(m[b].b) && GetFree(mem[nb].b) && GetSize(mem[nb].b) % ALIGNMENT == 0 ==>
              nb in m && JoinedAt(m, RightJoined(mem, b), b, nb)
    ensures var m := mem[b := MemBlock(mem[b].a, SetFree(mem[b].b))];
            !(HasNext(m[b].b) && GetFree(mem[End(m, b)].b)) ==> RightJoined(mem, b) == m
  {
    hide GetFree, GetSize, HasNext, SetFree, Encode;
    var x := SetFree(mem[b].b);
    var nb := b + GetSize(x) + HEADER;
    if HasNext(x) && GetFree(mem[nb].b) && GetSize(mem[nb].b) % ALIGNMENT == 0 {
      AlignedSum(GetSize(x), GetSize(mem[nb].b));
      AlignedSum(GetSize(x) + GetSize(mem[nb].b), HEADER);
      Decode(GetSize(x) + GetSize(mem[nb].b) + HEADER, HasNext(mem[nb].b), true);
    }
  }

  /** The block at b is now free, in order with the others; no word but its
      header's differs. */
  ghost predicate Staged(w: Words, m: Memory, hs: set<nat>, hs': set<nat>, b: nat)
    requires hs <= w.mem.Keys
  {
    && Tiles(w.(mem := m), hs') && hs' <= m.Keys && Payloads(m, hs') == Payloads(w.mem, hs - {b})
    && b in hs' && hs' <= hs && GetFree(m[b].b) && (forall x :: x in hs && x <= b ==> x in hs')
    && forall x :: x in w.mem && x != b ==> SameAt(w.mem, m, x)
  }

  lemma RightStage(w: Words, hs: set<nat>, b: nat)
    requires Tiles(w, hs) && b in hs && hs <= w.mem.Keys && !GetFree(w.mem[b].b) && FreeReads(w.mem, b)
    ensures Staged(w, RightJoined(w.mem, b), hs, RightHeaders(w.mem, hs, b), b)
  {
    hide GetFree, GetSize, HasNext, SetFree, Payloads, Tiles, JoinedAt, RightJoined, Staged, HeaderOk, Encode;
    MarkTiles(w, hs, b);
    var m := w.mem[b := MemBlock(w.mem[b].a, SetFree(w.mem[b].b))];
    var nb := End(m, b);
    SizeAligned(w.(mem := m), hs, b);
    RightJoin(w.mem, b);
    Marked(w, hs, b);
    if HasNext(m[b].b) && GetFree(w.mem[nb].b) {
      NextThere(w.(mem := m), hs, b);
      MergeStaged(w, m, RightJoined(w.mem, b), hs, b, nb);
    }
  }

  lemma Marked(w: Words, hs: set<nat>, b: nat)
    requires b in hs && hs <= w.mem.Keys
    ensures var m := w.mem[b := MemBlock(w.mem[b].a, SetFree(w.mem[b].b))];
            Tiles(w.(mem := m), hs) && Payloads(m, hs) == Payloads(w.mem, hs - {b}) && GetFree(m[b].b)
            ==> Staged(w, m, hs, hs, b)
  {
    hide GetFree, GetSize, SetFree, Tiles, Payloads;
  }

  lemma MergeStaged(w: Words, m: Memory, m': Memory, hs: set<nat>, b: nat, nb: nat)
    requires hs <= w.mem.Keys && Staged(w, m, hs, hs, b) && nb in hs && nb in m && End(m, b) == nb
    requires GetFree(m[nb].b) && JoinedAt(m, m', b, nb)
    ensures Staged(w, m', hs, hs - {nb}, b)
  {
    hide GetFree, GetSize, HasNext, Payloads, Tiles, JoinedAt;
    MergeTwo(w.(mem := m), m', hs, b, nb);
    forall x | x in w.mem && x != b ensures SameAt(w.mem, m', x) { assert SameAt(w.mem, m, x) && SameAt(m, m', x); }
  }

  /** A free block and the next one, free too. */
  lemma MergeTwo(w: Words, mem': Memory, hs: set<nat>, x: nat, y: nat)
    requires Tiles(w, hs) && hs <= w.mem.Keys && x in hs && y in hs && End(w.mem, x) == y && JoinedAt(w.mem, mem', x, y)
    requires GetFree(w.mem[x].b) && GetFree(w.mem[y].b)
    ensures Tiles(w.(mem := mem'), hs - {y}) && hs - {y} <= mem'.Keys && x in hs - {y} && x < y
    ensures Payloads(mem', hs - {y}) == Payloads(w.mem, hs) && GetFree(mem'[x].b)
    ensures forall z :: z in w.mem && z != x ==> SameAt(w.mem, mem', z)
  {
    hide GetFree, GetSize, HasNext, Payloads, Tiles, JoinedAt;
    JoinTiles(w, mem', hs, x, y);
    JoinedFirst(w, hs, x, y);
    Known(w.(mem := mem'), hs - {y});
    JoinPayloads(w.mem, mem', hs, x, y);
    JoinedFree(w.mem, mem', x, y);
    WithoutFree(w, hs, x);
  }

  lemma JoinedFree(mem: Memory, mem': Memory, x: nat, y: nat)
    requires x in mem && y in mem && JoinedAt(mem, mem', x, y)
    ensures x in mem' && GetFree(mem'[x].b) && forall z :: z in mem && z != x ==> SameAt(mem, mem', z)
  {
  }

  lemma SizeAligned(w: Words, hs: set<nat>, b: nat)
    requires Tiles(w, hs) && b in hs
    ensures b in w.mem && GetSize(w.mem[b].b) % ALIGNMENT == 0
  {
    hide GetFree, GetSize, HasNext;
    assert HeaderOk(w, hs, b);
  }

  lemma NextThere(w: Words, hs: set<nat>, b: nat)
    requires Tiles(w, hs) && b in hs && b in w.mem && HasNext(w.mem[b].b)
    ensures var nb := End(w.mem, b);
            nb in hs && nb in w.mem && b < nb && GetSize(w.mem[nb].b) % ALIGNMENT == 0 && GetSize(w.mem[b].b) % ALIGNMENT == 0
  {
    hide GetFree, GetSize, HasNext;
    assert HeaderOk(w, hs, b) && HeaderOk(w, hs, End(w.mem, b));
  }

  /** The block the back link names, if free joins with it, is the one in front,
      or no header at all and in no payload. */
  ghost predicate LinkOk(mem: Memory, hs: set<nat>, b: nat)
    requires FreeReads(mem, b) && hs <= mem.Keys
  {
    JoinsLeft(mem, b) ==>
      && (mem[b].a in hs ==> End(mem, mem[b].a) == b)
      && forall q :: q in Payloads(mem, hs) ==> !Inside(q, mem[b].a)
  }

  /** The headers after free. */
  ghost function FreedHeaders(mem: Memory, hs: set<nat>, b: nat): set<nat>
    requires FreeReads(mem, b)
  {
    var r := RightHeaders(mem, hs, b);
    if JoinsLeft(mem, b) && mem[b].a in hs then r - {b} else r
  }

  /** After a free: the blocks in order, that payload gone, the others as they
      were. */
  ghost predicate Freed(w: Words, mem': Memory, hs: set<nat>, hs': set<nat>, b: nat)
    requires hs <= w.mem.Keys
  {
    && Tiles(w.(mem := mem'), hs') && hs' <= mem'.Keys && Payloads(mem', hs') == Payloads(w.mem, hs - {b})
    && KeepsHeld(w.mem, mem', Payloads(w.mem, hs - {b}))
  }

  lemma LeftJoin(m: Memory, mem: Memory, b: nat, a: nat)
    requires FreeReads(mem, b) && JoinsLeft(mem, b) && m == RightJoined(mem, b) && a == mem[b].a < b
    requires GetSize(m[a].b) % ALIGNMENT == 0 && GetSize(m[b].b) % ALIGNMENT == 0
    ensures JoinedAt(m, FreeWords(mem, b), a, b) && GetFree(m[a].b)
  {
    hide GetFree, GetSize, HasNext, SetFree, Encode, RightJoined;
    AlignedSum(GetSize(m[a].b), GetSize(m[b].b));
    AlignedSum(GetSize(m[a].b) + GetSize(m[b].b), HEADER);
    Decode(GetSize(m[a].b) + GetSize(m[b].b) + HEADER, HasNext(m[b].b), true);
  }

  lemma LeftStage(w: Words, hs: set<nat>, b: nat)
    requires Tiles(w, hs) && b in hs && hs <= w.mem.Keys && !GetFree(w.mem[b].b) && FreeReads(w.mem, b)
    requires LinkOk(w.mem, hs, b) && w.mem[b].a < b
    requires Staged(w, RightJoined(w.mem, b), hs, RightHeaders(w.mem, hs, b), b)
    ensures var mem', hs' := FreeWords(w.mem, b), FreedHeaders(w.mem, hs, b);
            Tiles(w.(mem := mem'), hs') && hs' <= mem'.Keys && Payloads(mem', hs') == Payloads(w.mem, hs - {b})
  {
    var m, r, a := RightJoined(w.mem, b), RightHeaders(w.mem, hs, b), w.mem[b].a;
    hide GetFree, GetSize, HasNext, SetFree, Encode, RightJoined, RightHeaders, Payloads, Tiles, JoinedAt;
    var w1 := w.(mem := m);
    if JoinsLeft(w.mem, b) {
      assert SameAt(w.mem, m, a);
      if a in hs {
        SizeAligned(w1, r, a);
        SizeAligned(w1, r, b);
        LeftJoin(m, w.mem, b, a);
        MergeTwo(w1, FreeWords(w.mem, b), r, a, b);
      } else {
        StrayWrite(w1, r, a, FreeWords(w.mem, b)[a]);
        assert FreeWords(w.mem, b) == m[a := FreeWords(w.mem, b)[a]];
      }
    }
  }

  /** What free writes besides the block's own header is the word it joins
      to. */
  lemma FreeWrites(mem: Memory, b: nat, x: nat)
    requires FreeReads(mem, b) && x in mem && x != b && (JoinsLeft(mem, b) ==> x != mem[b].a)
    ensures SameAt(mem, FreeWords(mem, b), x)
  {
    hide GetFree, GetSize, HasNext, SetFree, Encode;
  }

  lemma FreeKeeps(w: Words, hs: set<nat>, b: nat)
    requires Tiles(w, hs) && b in hs && hs <= w.mem.Keys && !GetFree(w.mem[b].b)
    ensures FreeReads(w.mem, b)
    ensures LinkOk(w.mem, hs, b) ==> Freed(w, FreeWords(w.mem, b), hs, FreedHeaders(w.mem, hs, b), b)
  {
    ReadsThere(w, hs, b);
    hide GetFree, GetSize, HasNext, Payloads, Tiles, Staged, FreeWords, RightJoined, RightHeaders, JoinsLeft, FreeReads;
    if LinkOk(w.mem, hs, b) {
      RightStage(w, hs, b);
      LeftStage(w, hs, b);
      var held := Payloads(w.mem, hs - {b});
      forall q, x | q in held && Inside(q, x) && x in w.mem ensures SameAt(w.mem, FreeWords(w.mem, b), x) {
        OutsideHeld(w, hs, hs - {b}, q, b, b);
        if JoinsLeft(w.mem, b) {
          if w.mem[b].a in hs { OutsideHeld(w, hs, hs - {b}, q, w.mem[b].a, w.mem[b].a); }
          FewerPayloads(w.mem, hs, b);
        }
        FreeWrites(w.mem, b, x);
      }
    }
  }

  lemma FewerPayloads(mem: Memory, hs: set<nat>, b: nat)
    requires hs <= mem.Keys
    ensures Payloads(mem, hs - {b}) <= Payloads(mem, hs)
  {
    hide GetFree, GetSize;
  }

  /** Otherwise a free breaks a held payload, or the order of the blocks. */
  lemma FreeBreaks(w: Words, hs: set<nat>, b: nat)
    requires Tiles(w, hs) && b in hs && hs <= w.mem.Keys && !GetFree(w.mem[b].b) && FreeReads(w.mem, b)
    requires !LinkOk(w.mem, hs, b)
    ensures !Freed(w, FreeWords(w.mem, b), hs, FreedHeaders(w.mem, hs, b), b)
  {
    ReadsThere(w, hs, b);
    var mem, mem', a := w.mem, FreeWords(w.mem, b), w.mem[b].a;
    hide GetFree, GetSize, HasNext, SetFree, Encode, Payloads, Tiles, RightJoined, RightHeaders;
    Larger(mem, b);
    if a in hs && End(mem, a) != b {
      StaleHeader(w, hs, b, a);
    } else {
      var q :| q in Payloads(mem, hs) && Inside(q, a);
      NotItsOwn(w, hs, b, q, a);
      assert !SameAt(mem, mem', a);
    }
  }

  lemma Larger(mem: Memory, b: nat)
    requires FreeReads(mem, b) && JoinsLeft(mem, b) && mem[b].a < b
    ensures var a, mem' := mem[b].a, FreeWords(mem, b);
            a in mem && a in mem' && mem'[a].b > mem[a].b && GetSize(mem'[a].b) >= GetSize(mem[a].b) + HEADER
  {
    var m, a := RightJoined(mem, b), mem[b].a;
    FourthBits(m[a].b);
    FourthBits(m[b].b);
    hide GetFree, GetSize, HasNext, SetFree;
    SizeOf(GetSize(m[a].b) + GetSize(m[b].b) + HEADER, HasNext(m[b].b));
  }

  lemma FourthBits(x: nat)
    ensures GetSize(x) % 4 == 0 && x < GetSize(x) + 4
  {
    assert x == x / 4 * 4 + x % 4;
    QuotientUnique(GetSize(x), 4, x / 4, 0);
  }

  lemma SizeOf(size: nat, next: bool)
    requires size % 4 == 0
    ensures GetSize(Encode(size, next, true)) == size <= Encode(size, next, true)
  {
    var n := if next then 3 else 1;
    QuotientUnique(size + n, 4, size / 4, n);
  }

  lemma StaleHeader(w: Words, hs: set<nat>, b: nat, a: nat)
    requires Tiles(w, hs) && b in hs && hs <= w.mem.Keys && FreeReads(w.mem, b) && JoinsLeft(w.mem, b)
    requires a == w.mem[b].a < b && a in hs && End(w.mem, a) != b
    requires a in FreeWords(w.mem, b) && GetSize(FreeWords(w.mem, b)[a].b) >= GetSize(w.mem[a].b) + HEADER
    ensures !Tiles(w.(mem := FreeWords(w.mem, b)), FreedHeaders(w.mem, hs, b))
  {
    hide GetFree, GetSize, HasNext, SetFree, Encode, RightJoined, JoinsLeft, FreeWords, FreeReads, Tiles;
    var h, hs', w' := End(w.mem, a), FreedHeaders(w.mem, hs, b), w.(mem := FreeWords(w.mem, b));
    InOrder(w, hs, a, b);
    NextHeader(w, hs, a, b);
    assert a in hs' && h in hs';
    if Tiles(w', hs') { InOrder(w', hs', a, h); }
  }

  lemma NextHeader(w: Words, hs: set<nat>, a: nat, b: nat)
    requires Tiles(w, hs) && a in hs && b in hs && a < b && a in w.mem && End(w.mem, a) <= b
    ensures End(w.mem, a) in hs && a < End(w.mem, a)
  {
    hide GetFree, GetSize, HasNext;
    assert HeaderOk(w, hs, a) && HeaderOk(w, hs, b);
  }

  lemma NotItsOwn(w: Words, hs: set<nat>, b: nat, q: Payload, a: nat)
    requires Tiles(w, hs) && hs <= w.mem.Keys && q in Payloads(w.mem, hs) && Inside(q, a) && a < b
    ensures q in Payloads(w.mem, hs - {b})
  {
    hide GetFree, GetSize, Tiles;
    var h := HeldBlock(w, hs, hs, q);
  }

  /** A free keeps the blocks in order and every other payload as it is exactly
      when its back link is good. */
  lemma FreeExact(w: Words, hs: set<nat>, b: nat)
    requires Tiles(w, hs) && b in hs && hs <= w.mem.Keys && !GetFree(w.mem[b].b)
    ensures FreeReads(w.mem, b)
    ensures Freed(w, FreeWords(w.mem, b), hs, FreedHeaders(w.mem, hs, b), b) <==> LinkOk(w.mem, hs, b)
  {
    hide Freed, LinkOk, Tiles, GetFree, FreeWords, FreedHeaders;
    FreeKeeps(w, hs, b);
    if !LinkOk(w.mem, hs, b) { FreeBreaks(w, hs, b); }
  }

  // ---- the headers of a heap

  /** The headers one comes to by the sizes. */
  ghost function ChainFrom(mem: Memory, x: nat, end: nat): set<nat>
    decreases if x < end then end - x else 0
  {
    if x in mem && x < end then {x} + ChainFrom(mem, End(mem, x), end) else {}
  }

  ghost function Headers(w: Words): set<nat> {
    if w.head == 0 then {} else ChainFrom(w.mem, w.head, w.nVa)
  }

  lemma {:induction false} ChainIs(w: Words, hs: set<nat>, x: nat)
    requires Tiles(w, hs) && (x in hs || x == w.nVa)
    ensures ChainFrom(w.mem, x, w.nVa) == set y | y in hs && y >= x
    decreases if x < w.nVa then w.nVa - x else 0
  {
    hide End, Tiles;
    ChainStep(w, hs, x);
    if x in hs { ChainIs(w, hs, End(w.mem, x)); }
  }

  lemma ChainStep(w: Words, hs: set<nat>, x: nat)
    requires Tiles(w, hs) && (x in hs || x == w.nVa)
    ensures x in hs ==>
              x in w.mem && x < End(w.mem, x) <= w.nVa && (End(w.mem, x) in hs || End(w.mem, x) == w.nVa)
              && forall y :: y in hs && y > x ==> y >= End(w.mem, x)
    ensures x !in hs ==> forall y :: y in hs ==> y < x
  {
    hide GetFree, GetSize, HasNext;
    if x in hs { assert HeaderOk(w, hs, x); }
    forall y | y in hs && y > x && x in hs ensures y >= End(w.mem, x) { InOrder(w, hs, x, y); }
    forall y | y in hs && x !in hs ensures y < x { assert HeaderOk(w, hs, y); }
  }

  lemma HeadersAre(w: Words, hs: set<nat>)
    requires Tiles(w, hs)
    ensures Headers(w) == hs
  {
    hide GetFree, GetSize, HasNext;
    if w.head != 0 {
      ChainIs(w, hs, w.head);
      forall y | y in hs ensures y >= w.head { assert HeaderOk(w, hs, y); }
    }
  }

  // ---- runs

  datatype State = State(w: Words, live: set<Payload>)

  datatype Call = Malloc(sz: nat) | Free(q: Payload) | Write(x: nat, v: MemBlock)

  datatype Outcome = Running(s: State) | Halted

  /** The blocks are in order, and callers hold the payloads of those in use. */
  ghost predicate Good(s: State) {
    Tiles(s.w, Headers(s.w)) && Headers(s.w) <= s.w.mem.Keys && s.live == Payloads(s.w.mem, Headers(s.w))
  }

  /** Callers free what they hold, and write into what they hold. */
  ghost predicate Allowed(s: State, c: Call) {
    match c
    case Malloc(sz) => true
    case Free(q) => q in s.live
    case Write(x, v) => exists q :: q in s.live && Inside(q, x)
  }

  lemma HeldHeader(s: State, q: Payload)
    requires Good(s) && q in s.live
    ensures q.0 >= HEADER && q.0 - HEADER in Headers(s.w) && FreeReads(s.w.mem, q.0 - HEADER)
    ensures !GetFree(s.w.mem[q.0 - HEADER].b) && q.1 == GetSize(s.w.mem[q.0 - HEADER].b)
  {
    hide GetFree, GetSize, HasNext, Tiles, Payloads;
    var h := HeldBlock(s.w, Headers(s.w), Headers(s.w), q);
    ReadsThere(s.w, Headers(s.w), h);
  }

  ghost function Do(s: State, c: Call): Outcome
    requires Good(s) && Allowed(s, c)
  {
    hide Good, FreeReads;
    match c
    case Malloc(sz) =>
      (match MallocWords(s.w, sz)
       case At(p, w) => Running(State(w, s.live + {(p, Rounded(sz))}))
       case Refused => Running(s)
       case _ => Halted)
    case Free(q) =>
      HeldHeader(s, q);
      Running(State(s.w.(mem := FreeWords(s.w.mem, q.0 - HEADER)), s.live - {q}))
    case Write(x, v) => Running(s.(w := s.w.(mem := s.w.mem[x := v])))
  }

  /** No growth goes over blocks, and no free follows a bad link. */
  ghost predicate Safe(s: State, c: Call)
    requires Good(s) && Allowed(s, c)
  {
    hide Tiles, Payloads, FreeReads;
    match c
    case Malloc(sz) => !Overgrows(s.w, sz)
    case Free(q) => HeldHeader(s, q); LinkOk(s.w.mem, Headers(s.w), q.0 - HEADER)
    case Write(x, v) => true
  }

  /** The call gives the payload up, or writes in it. */
  predicate Touches(c: Call, q: Payload) {
    match c
    case Malloc(sz) => false
    case Free(p) => p == q
    case Write(x, v) => Inside(q, x)
  }

  /** What a call leaves: payloads it does not touch are held still, with the
      same words. */
  ghost predicate Preserves(s: State, c: Call, t: State) {
    forall q :: q in s.live && !Touches(c, q) ==> q in t.live && KeepsHeld(s.w.mem, t.w.mem, {q})
  }

  lemma FirstFits(w: Words, hs: set<nat>, sz: nat)
    requires Tiles(WithFirst(w), hs) && hs == {w.nVa} && w.nVa in WithFirst(w).mem && WithFirst(w).head == w.nVa
    requires End(WithFirst(w).mem, w.nVa) == WithFirst(w).nVa
    ensures !Overgrows(WithFirst(w), sz)
  {
    hide Tiles, GetFree, GetSize, HasNext, Accepts, Rounded, WithFirst;
    WalkInside(WithFirst(w), hs, w.nVa, Rounded(sz));
  }

  /** malloc does not stray; it halts, or hands out a payload of its own. */
  lemma MallocGood(s: State, sz: nat)
    requires Good(s) && !Overgrows(s.w, sz)
    ensures !MallocWords(s.w, sz).Stray?
    ensures Do(s, Call.Malloc(sz)).Running? ==>
              var t := Do(s, Call.Malloc(sz)).s; Good(t) && Preserves(s, Call.Malloc(sz), t)
  {
    hide Tiles, Payloads, TakeWords, Accepts, Rounded, Headers, KeepsHeld, WithFirst, Overgrows;
    if Accepts(sz) {
      var u, hs := s.w, Headers(s.w);
      if s.w.head == 0 {
        NothingHeld(s);
        hs := FirstBlock(s.w);
        u := WithFirst(s.w);
        FirstFits(s.w, hs, sz);
      }
      var hs' := TakeKeeps(u, hs, sz);
      if TakeWords(u, Rounded(sz)).At? {
        var t := TakeWords(u, Rounded(sz)).w;
        HeadersAre(t, hs');
        forall q | q in s.live ensures KeepsHeld(s.w.mem, t.mem, {q}) { KeepsOne(s.w.mem, t.mem, s.live, q); }
      }
    } else {
      forall q | q in s.live ensures KeepsHeld(s.w.mem, s.w.mem, {q}) { KeepsSame(s.w.mem, q); }
    }
  }

  lemma NothingHeld(s: State)
    requires Good(s) && s.w.head == 0
    ensures Tiles(s.w, {}) && s.live == {}
  {
    hide GetFree;
  }

  lemma KeepsOne(mem: Memory, mem': Memory, held: set<Payload>, q: Payload)
    requires KeepsHeld(mem, mem', held) && q in held
    ensures KeepsHeld(mem, mem', {q})
  {
  }

  lemma FreeGood(s: State, q: Payload)
    requires Good(s) && q in s.live && Safe(s, Call.Free(q))
    ensures var t := Do(s, Call.Free(q)).s; Good(t) && Preserves(s, Call.Free(q), t)
  {
    hide Tiles, Payloads, Headers, KeepsHeld, GetFree, GetSize, FreeWords, FreedHeaders, LinkOk;
    HeldHeader(s, q);
    var b, hs := q.0 - HEADER, Headers(s.w);
    FreeExact(s.w, hs, b);
    var t := s.w.(mem := FreeWords(s.w.mem, b));
    HeadersAre(t, FreedHeaders(s.w.mem, hs, b));
    OthersHeld(s.w.mem, hs, b, q);
    forall p | p in s.live && p != q ensures KeepsHeld(s.w.mem, t.mem, {p}) {
      KeepsOne(s.w.mem, t.mem, Payloads(s.w.mem, hs - {b}), p);
    }
  }

  lemma OthersHeld(mem: Memory, hs: set<nat>, b: nat, q: Payload)
    requires hs <= mem.Keys && b in hs && q == (b + HEADER, GetSize(mem[b].b))
    ensures Payloads(mem, hs - {b}) == Payloads(mem, hs) - {q}
  {
    hide GetFree, GetSize;
  }

  lemma WriteGood(s: State, x: nat, v: MemBlock)
    requires Good(s) && Allowed(s, Call.Write(x, v))
    ensures var t := Do(s, Call.Write(x, v)).s; Good(t) && Preserves(s, Call.Write(x, v), t)
  {
    hide Tiles, Payloads, Headers, GetFree, GetSize;
    var hs := Headers(s.w);
    var p :| p in s.live && Inside(p, x);
    if x in hs { OutsideHeld(s.w, hs, hs, p, x, x); }
    StrayWrite(s.w, hs, x, v);
    HeadersAre(s.w.(mem := s.w.mem[x := v]), hs);
  }

  /** Held payloads have no byte in common. */
  lemma HeldApart(s: State, p: Payload, q: Payload)
    requires Good(s) && p in s.live && q in s.live && p != q
    ensures p.0 + p.1 <= q.0 || q.0 + q.1 <= p.0
  {
    hide GetFree, GetSize, Tiles, Payloads;
    var hs := Headers(s.w);
    var i := HeldBlock(s.w, hs, hs, p);
    var j := HeldBlock(s.w, hs, hs, q);
    if i < j { InOrder(s.w, hs, i, j); }
    if j < i { InOrder(s.w, hs, j, i); }
  }

  ghost predicate SafeRun(s: State, calls: seq<Call>)
    requires Good(s)
    decreases |calls|
  {
    calls != [] ==>
      && Allowed(s, calls[0]) && Safe(s, calls[0])
      && (StepGood(s, calls[0]); Do(s, calls[0]).Running? ==> SafeRun(Do(s, calls[0]).s, calls[1..]))
  }

  ghost function Run(s: State, calls: seq<Call>): Outcome
    requires Good(s) && SafeRun(s, calls)
    decreases |calls|
  {
    if calls == [] then Running(s)
    else
      StepGood(s, calls[0]);
      match Do(s, calls[0])
      case Running(t) => Run(t, calls[1..])
      case Halted => Halted
  }

  lemma StepGood(s: State, c: Call)
    requires Good(s) && Allowed(s, c) && Safe(s, c)
    ensures Do(s, c).Running? ==> Good(Do(s, c).s) && Preserves(s, c, Do(s, c).s)
  {
    hide Good, Do, Preserves, Overgrows, LinkOk;
    match c
    case Malloc(sz) => MallocGood(s, sz);
    case Free(q) => FreeGood(s, q);
    case Write(x, v) => WriteGood(s, x, v);
  }

  /** Over every run without growth over blocks and frees along bad links, in
      whatever order blocks are freed and whatever callers write into what they
      hold: the blocks stay in order, held payloads have no byte in common, and
      one that is neither freed nor written is held to the end with the words it
      had. */
  lemma {:induction false} RunKeepsHeld(s: State, calls: seq<Call>, q: Payload)
    requires Good(s) && SafeRun(s, calls) && q in s.live
    requires forall i :: 0 <= i < |calls| ==> !Touches(calls[i], q)
    ensures Run(s, calls).Running? ==>
              var t := Run(s, calls).s;
              && Good(t) && q in t.live && KeepsHeld(s.w.mem, t.w.mem, {q})
              && forall p :: p in t.live && p != q ==> p.0 + p.1 <= q.0 || q.0 + q.1 <= p.0
    decreases |calls|
  {
    hide Good, Do, Safe, Allowed, KeepsHeld;
    if calls == [] {
      forall p | p in s.live && p != q ensures p.0 + p.1 <= q.0 || q.0 + q.1 <= p.0 { HeldApart(s, p, q); }
      KeepsSame(s.w.mem, q);
    } else {
      StepGood(s, calls[0]);
      if Do(s, calls[0]).Running? {
        var t := Do(s, calls[0]).s;
        RunKeepsHeld(t, calls[1..], q);
        if Run(t, calls[1..]).Running? {
          KeepsBoth(s.w.mem, t.w.mem, Run(t, calls[1..]).s.w.mem, {q});
        }
      }
    }
  }

  /** So do all the others: at the end of such a run no two held payloads have
      a byte in common. */
  lemma {:induction false} RunGood(s: State, calls: seq<Call>)
    requires Good(s) && SafeRun(s, calls)
    ensures Run(s, calls).Running? ==>
              var t := Run(s, calls).s;
              Good(t) && forall p, q :: p in t.live && q in t.live && p != q ==> p.0 + p.1 <= q.0 || q.0 + q.1 <= p.0
    decreases |calls|
  {
    hide Good, Do, Safe, Allowed;
    if calls == [] {
      forall p, q | p in s.live && q in s.live && p != q ensures p.0 + p.1 <= q.0 || q.0 + q.1 <= p.0 {
        HeldApart(s, p, q);
      }
    } else {
      StepGood(s, calls[0]);
      if Do(s, calls[0]).Running? { RunGood(Do(s, calls[0]).s, calls[1..]); }
    }
  }

  /** Growth over blocks behind a first one in use hands out the address of the
      next block's payload, whoever holds it. */
  lemma OvergrowthReturnsNext(s: State, sz: nat)
    requires Good(s) && Overgrows(s.w, sz) && s.w.head in s.w.mem && !GetFree(s.w.mem[s.w.head].b)
    ensures MallocWords(s.w, sz).At?
    ensures var h := End(s.w.mem, s.w.head);
            h in Headers(s.w) && h in s.w.mem && MallocWords(s.w, sz).p == h + HEADER
            && (!GetFree(s.w.mem[h].b) ==> (h + HEADER, GetSize(s.w.mem[h].b)) in s.live)
  {
    hide GetFree, GetSize, HasNext, Encode, Accepts, Rounded, PagesAt, Split, Extended, Headers, Tiles, Payloads,
      ExtendedAt;
    var w, hs, z := s.w, Headers(s.w), Rounded(sz);
    HeadIn(w, hs);
    WalkInside(w, hs, w.head, z);
    var b := WalkFrom(w.mem, w.head, z).b;
    LinkZero(w, hs, b);
    SizeAligned(w, hs, b);
    EnoughPages(w.mem[b].b, z);
    var c := PagesAt(w.mem[b].b, z);
    ExtendedIs(w.mem, b, c);
    NextAddress(w.mem, Extended(w.mem, b, c).0, b, Extended(w.mem, b, c).1, c);
    if !GetFree(w.mem[End(w.mem, b)].b) { IsHeld(w.mem, hs, End(w.mem, b)); }
  }

  lemma NextAddress(mem: Memory, mem': Memory, b: nat, nb: nat, c: nat)
    requires b in mem && c > 0 && ExtendedAt(mem, mem', b, nb, c) && !GetFree(mem[b].b)
    ensures nb == End(mem, b) && nb in mem'
  {
  }

  lemma IsHeld(mem: Memory, hs: set<nat>, h: nat)
    requires hs <= mem.Keys && h in hs && !GetFree(mem[h].b)
    ensures (h + HEADER, GetSize(mem[h].b)) in Payloads(mem, hs)
  {
    hide GetFree, GetSize;
  }

  lemma LinkZero(w: Words, hs: set<nat>, b: nat)
    requires Tiles(w, hs) && b in hs && b in w.mem
    ensures w.mem[b].a == 0 <==> b == w.head
    ensures End(w.mem, b) != w.nVa ==> End(w.mem, b) in hs && End(w.mem, b) in w.mem
  {
    hide GetFree, GetSize, HasNext;
    assert HeaderOk(w, hs, b);
    if End(w.mem, b) in hs { assert HeaderOk(w, hs, End(w.mem, b)); }
  }

  lemma KeepsSame(mem: Memory, q: Payload)
    ensures KeepsHeld(mem, mem, {q})
  {
  }

  /** The empty heap is where runs start. */
  lemma EmptyGood(nVa: nat)
    requires nVa > 0 && nVa % PAGE == 0
    ensures Good(State(Words(map[], 0, nVa), {}))
  {
  }
}
