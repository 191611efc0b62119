/** The bitmap frame allocator of src/kernel/memory/pm.c: one bit a frame, a
    count, and a cached cursor (word ai, bit abi). */
module FrameAllocator {
  import opened Words
  import opened Bitmap
  import opened FramePool

  const PAGE_SIZE: nat := 4096

  /** With every earlier word zero, the lowest bit of the first non-zero word
      is the least free frame. */
  lemma FirstSetBitIsLeast(e: seq<Word>, i: nat)
    requires i < |e| && e[i] != 0
    requires forall k :: 0 <= k < i ==> e[k] == 0
    ensures Members(e) != {} && Ctz(e[i]) < WORD_BITS
    ensures i * WORD_BITS + Ctz(e[i]) == Least(Members(e))
  {
    CtzBound(e[i]);
    var f := i * WORD_BITS + Ctz(e[i]);
    assert WordOf(f) == i && BitOf(f) == Ctz(e[i]);
    assert f in Members(e);
    var m := Least(Members(e));
    if m < f {
      if WordOf(m) < i {
        ZeroWordIff(e, WordOf(m));
      }
    }
  }

  class PageArray {
    var a: nat
    var ai: nat
    var abi: nat
    const e: array<Word>

    ghost predicate Valid()
      reads this, e
    {
      && abi < WORD_BITS
      && ai < e.Length
      && Sound(Abs())
    }

    ghost function Abs(): Pool
      reads this, e
    {
      Pool(Members(e[..]), a, ai * WORD_BITS + abi)
    }

    /** The zeroed bitmap of pm.c:64-67 with its cursor on one frame. */
    constructor (l: nat, cursor: nat)
      requires WordOf(cursor) < l
      ensures Valid() && fresh(e) && e.Length == l
      ensures Abs() == Pool({}, 0, cursor)
    {
      e := new Word[l](_ => 0);
      a := 0;
      ai := WordOf(cursor);
      abi := BitOf(cursor);
      new;
      EmptyBitmap(e[..]);
    }

    /** Marks one more frame free while the bitmap is first filled
        (pm.c:51-52). */
    method Mark(pa: nat)
      requires Valid() && Abs().cursor <= pa / PAGE_SIZE < WORD_BITS * e.Length
      requires pa / PAGE_SIZE !in Abs().free
      modifies this`a, e
      ensures Valid()
      ensures Abs() == Pool(old(Abs()).free + {pa / PAGE_SIZE}, old(a) + 1, old(Abs()).cursor)
    {
      hide Members;
      ghost var p := Abs();
      ghost var f := pa / PAGE_SIZE;
      var i := pa / PAGE_SIZE / WORD_BITS;
      var b := pa / PAGE_SIZE % WORD_BITS;
      WordUpdates(e[i], b);
      SetMember(e[..], f, SetBit(e[i], b));
      ghost var was := e[..];
      e[i] := SetBit(e[i], b);
      assert e[..] == was[i := e[i]];
      a := a + 1;
      assert p.free + {f} == Abs().free;
    }

    method GetFree() returns (pa: nat)
      requires Valid()
      modifies this, e
      ensures Valid()
      ensures Abs() == Get(old(Abs())).0 && pa == Get(old(Abs())).1 * PAGE_SIZE
    {
      hide Members;
      if a == 0 {
        return 0;
      }
      ghost var p := Abs();
      ghost var was := e[..];
      pa := (ai * WORD_BITS + abi) * PAGE_SIZE;
      assert WordOf(p.cursor) == ai && BitOf(p.cursor) == abi;
      WordUpdates(e[ai], abi);
      ClearMember(was, p.cursor, ClearBit(e[ai], abi));
      e[ai] := ClearBit(e[ai], abi);
      assert e[..] == was[ai := e[ai]];
      a := a - 1;
      if a > 0 {
        RemoveOne(p.free, p.cursor);
        forall k | 0 <= k < ai ensures e[k] == 0 {
          ZeroWordIff(e[..], k);
        }
        Rescan();
      }
      GetSound(p);
    }

    /** Moves the cursor on to the least free frame (pm.c:81-84). */
    method Rescan()
      requires ai < e.Length && Members(e[..]) != {}
      requires forall k :: 0 <= k < ai ==> e[k] == 0
      modifies this`ai, this`abi
      ensures ai < e.Length && abi < WORD_BITS
      ensures ai * WORD_BITS + abi == Least(Members(e[..]))
    {
      ghost var m := Least(Members(e[..]));
      ZeroWordIff(e[..], WordOf(m));
      while e[ai] == 0
        invariant ai <= WordOf(m) < e.Length
        invariant forall k :: 0 <= k < ai ==> e[k] == 0
        decreases WordOf(m) - ai
      {
        ai := ai + 1;
      }
      FirstSetBitIsLeast(e[..], ai);
      abi := Ctz(e[ai]);
    }

    method SetFree(pa: nat)
      requires Valid() && pa / PAGE_SIZE < WORD_BITS * e.Length
      modifies this, e
      ensures Valid() && Abs() == Put(old(Abs()), pa / PAGE_SIZE)
    {
      hide Members;
      ghost var p := Abs();
      ghost var f := pa / PAGE_SIZE;
      var i := pa / PAGE_SIZE / WORD_BITS;
      var b := pa / PAGE_SIZE % WORD_BITS;
      assert WordOf(p.cursor) == ai && BitOf(p.cursor) == abi;
      WordUpdates(e[i], b);
      SetMember(e[..], f, SetBit(e[i], b));
      ghost var was := e[..];
      e[i] := SetBit(e[i], b);
      assert e[..] == was[i := e[i]];
      if i < ai {
        ai := i;
        if b < abi {
          abi := b;
        }
      }
      PutSound(p, f);
    }
  }
}
