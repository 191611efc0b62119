/** Bitmaps over arrays of 64-bit words, and the set of numbers they hold:
    number f is bit f % 64 of word f / 64 (the index macros of
    src/kernel/memory/pm.c:11-13 and src/kernel/memory/vm.c:14-16). */
module Bitmap {
  import opened Words

  const WORD_BITS: nat := 64

  function WordOf(f: nat): nat { f / WORD_BITS }

  function BitOf(f: nat): nat { f % WORD_BITS }

  ghost predicate Holds(e: seq<Word>, f: nat) {
    WordOf(f) < |e| && Bit(e[WordOf(f)], BitOf(f))
  }

  ghost function Members(e: seq<Word>): set<nat> {
    set f | 0 <= f < WORD_BITS * |e| && Holds(e, f)
  }

  lemma SetMember(e: seq<Word>, f: nat, w: Word)
    requires WordOf(f) < |e| && w == SetBit(e[WordOf(f)], BitOf(f))
    ensures Members(e[WordOf(f) := w]) == Members(e) + {f}
  {
    var e' := e[WordOf(f) := w];
    forall g: nat | g < WORD_BITS * |e|
      ensures g in Members(e') <==> g in Members(e) || g == f
    {
      if WordOf(g) == WordOf(f) {
        SetBitBits(e[WordOf(f)], BitOf(f), BitOf(g));
      }
    }
    assert f < WORD_BITS * |e|;
    assert Members(e') == Members(e) + {f};
  }

  lemma ClearMember(e: seq<Word>, f: nat, w: Word)
    requires WordOf(f) < |e| && w == ClearBit(e[WordOf(f)], BitOf(f))
    ensures Members(e[WordOf(f) := w]) == Members(e) - {f}
  {
    var e' := e[WordOf(f) := w];
    forall g: nat | g < WORD_BITS * |e|
      ensures g in Members(e') <==> g in Members(e) && g != f
    {
      if WordOf(g) == WordOf(f) {
        ClearBitBits(e[WordOf(f)], BitOf(f), BitOf(g));
      }
    }
    assert Members(e') == Members(e) - {f};
  }

  /** A word is zero exactly when it contributes no member. */
  lemma ZeroWordIff(e: seq<Word>, i: nat)
    requires i < |e|
    ensures e[i] == 0 <==> forall f :: f in Members(e) ==> WordOf(f) != i
  {
    if e[i] == 0 {
      forall f | f in Members(e) ensures WordOf(f) != i {
        if WordOf(f) == i { ZeroHasNoBits(BitOf(f)); }
      }
    } else {
      CtzBound(e[i]);
      var f := i * WORD_BITS + Ctz(e[i]);
      assert WordOf(f) == i && BitOf(f) == Ctz(e[i]);
      assert f in Members(e);
    }
  }

  lemma EmptyBitmap(e: seq<Word>)
    requires forall i :: 0 <= i < |e| ==> e[i] == 0
    ensures Members(e) == {}
  {
    forall f: nat ensures f !in Members(e) {
      ZeroHasNoBits(BitOf(f));
    }
  }
}
