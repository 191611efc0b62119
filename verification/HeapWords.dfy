/** The libc heap of src/libc/alloc.c as its words: what malloc and free read
    and write as the code stands, whatever the words are. Module Heap shows that
    its methods without the repairs do just this. */
module HeapWords {
  import opened Division
  import opened HeapBlocks

  const TWO_64: nat := 0x1_0000_0000_0000_0000
  const NEXT: nat := 2
  const FREE: nat := 1

  /** The two words of a header: the previous block's address, and the size
      with the NEXT and FREE bits. Headers and payloads start at multiples of
      sixteen, so that memory is a map from those to pairs of words. */
  datatype MemBlock = MemBlock(a: nat, b: nat)

  type Memory = map<nat, MemBlock>

  function GetFree(b: nat): bool { b % 2 == 1 }

  function HasNext(b: nat): bool { b / 2 % 2 == 1 }

  function GetSize(b: nat): nat { b - b % 4 }

  function Encode(size: nat, next: bool, free: bool): nat {
    size + (if next then NEXT else 0) + (if free then FREE else 0)
  }

  lemma Decode(size: nat, next: bool, free: bool)
    requires size % ALIGNMENT == 0
    ensures var b := Encode(size, next, free);
            GetFree(b) == free && HasNext(b) == next && GetSize(b) == size
  {
    var h := size / ALIGNMENT;
    var n, f := if next then 1 else 0, if free then 1 else 0;
    var b := Encode(size, next, free);
    assert b == 16 * h + 2 * n + f;
    QuotientUnique(b, 2, 8 * h + n, f);
    QuotientUnique(b, 4, 4 * h, 2 * n + f);
    QuotientUnique(8 * h + n, 2, 4 * h, n);
  }

  /** Setting the FREE bit. */
  function SetFree(b: nat): nat { if GetFree(b) then b else b + FREE }

  // ---- malloc

  /** The head, the next address pages come from, and the memory. */
  datatype Words = Words(mem: Memory, head: nat, nVa: nat)

  /** Stray: the walk reads words nobody wrote. */
  datatype Result = At(p: nat, w: Words) | Refused | Halts | Stray

  datatype Place = Place(b: nat, fits: bool) | Lost

  /** The headers from b on. */
  ghost function From(mem: Memory, b: nat): set<nat> { set x | x in mem && x >= b }

  /** The walk from header b: the first block that fits, or the last one. */
  function WalkFrom(mem: Memory, b: nat, sz: nat): Place
    decreases From(mem, b)
  {
    if b !in mem then Lost
    else if GetFree(mem[b].b) && GetSize(mem[b].b) >= sz then Place(b, true)
    else if !HasNext(mem[b].b) then Place(b, false)
    else
      assert b in From(mem, b);
      WalkFrom(mem, b + GetSize(mem[b].b) + HEADER, sz)
  }

  /** The first pages, one block. */
  function WithFirst(w: Words): Words {
    Words(w.mem[w.nVa := MemBlock(0, Encode(ALLOC_PAGES * PAGE - HEADER, false, true))], w.nVa,
          w.nVa + ALLOC_PAGES * PAGE)
  }

  /** The pages asked for at a last block that does not fit. */
  function PagesAt(x: nat, sz: nat): nat {
    var c := (sz - (if GetFree(x) && GetSize(x) <= sz then GetSize(x) else 0) + HEADER + PAGE - 1) / PAGE;
    if c < ALLOC_PAGES then ALLOC_PAGES else c
  }

  /** c more pages for the last block b, or a block of their own behind it. */
  function Extended(mem: Memory, b: nat, c: nat): (Memory, nat)
    requires b in mem && c > 0
  {
    if GetFree(mem[b].b) then
      (mem[b := MemBlock(mem[b].a, Encode(c * PAGE + GetSize(mem[b].b), false, false))], b)
    else
      var x := Encode(GetSize(mem[b].b), true, false);
      var nb := b + GetSize(x) + HEADER;
      (mem[b := MemBlock(mem[b].a, x)][nb := MemBlock(b, Encode(c * PAGE - HEADER, false, true))], nb)
  }

  /** Block b cut to sz bytes. Sizes are multiples of sixteen, so that a larger
      block has room for the header of what is left. */
  function Split(mem: Memory, b: nat, sz: nat): Memory
    requires b in mem
  {
    var size := GetSize(mem[b].b);
    if size < sz + HEADER then mem[b := MemBlock(mem[b].a, Encode(sz, false, false))]
    else
      mem[b := MemBlock(mem[b].a, Encode(sz, true, false))]
         [b + HEADER + sz := MemBlock(b, Encode(size - sz - HEADER, false, true))]
  }

  /** malloc for a heap that has blocks. */
  function TakeWords(w: Words, z: nat): Result {
    match WalkFrom(w.mem, w.head, z)
    case Lost => Stray
    case Place(b, fits) =>
      if b !in w.mem then Stray
      else if fits then At(b + HEADER, w.(mem := Split(w.mem, b, z)))
      else
        var c, pg := PagesAt(w.mem[b].b, z), w.nVa;
        if w.mem[b].a != 0 && pg != b + GetSize(w.mem[b].b) + HEADER then Halts
        else
          var (m, nb) := Extended(w.mem, b, c);
          if nb !in m then Stray
          else At(nb + HEADER, Words(Split(m, nb, z), w.head, pg + c * PAGE))
  }

  function MallocWords(w: Words, sz: nat): Result {
    if !Accepts(sz) then Refused
    else TakeWords(if w.head == 0 then WithFirst(w) else w, Rounded(sz))
  }

  // ---- free

  /** What free reads behind and in front of the block at b is there. */
  predicate FreeReads(mem: Memory, b: nat) {
    && b in mem
    && (HasNext(SetFree(mem[b].b)) ==> b + GetSize(SetFree(mem[b].b)) + HEADER in mem)
    && (mem[b].a != 0 ==> mem[b].a in mem)
  }

  /** The block at b marked free and joined with a free successor. */
  function RightJoined(mem: Memory, b: nat): (m: Memory)
    requires FreeReads(mem, b)
    ensures b in m && m == mem[b := m[b]] && m[b].a == mem[b].a
  {
    var x := SetFree(mem[b].b);
    var nb := b + GetSize(x) + HEADER;
    if HasNext(x) && GetFree(mem[nb].b) then
      mem[b := MemBlock(mem[b].a, Encode(GetSize(x) + GetSize(mem[nb].b) + HEADER, HasNext(mem[nb].b), true))]
    else mem[b := MemBlock(mem[b].a, x)]
  }

  /** The block free joins its own to: the one its header names as previous. */
  predicate JoinsLeft(mem: Memory, b: nat)
    requires FreeReads(mem, b)
  {
    mem[b].a != 0 && GetFree(RightJoined(mem, b)[mem[b].a].b)
  }

  function FreeWords(mem: Memory, b: nat): Memory
    requires FreeReads(mem, b)
  {
    var m := RightJoined(mem, b);
    var pb := mem[b].a;
    if JoinsLeft(mem, b) then
      m[pb := MemBlock(m[pb].a, Encode(GetSize(m[pb].b) + GetSize(m[b].b) + HEADER, HasNext(m[b].b), true))]
    else m
  }
}
