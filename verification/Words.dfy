/** Machine words as naturals below 2^64, with the bit operations the kernel
    applies to its bitmaps. Each operation follows the binary digits, so that
    `w | 1ull << k` is SetBit(w, k), `w & ~(1ull << k)` is ClearBit(w, k) and
    `__builtin_ctzll(w)` is Ctz(w). */
module Words {
  const TWO_64: nat := 0x1_0000_0000_0000_0000
  type Word = w: nat | w < TWO_64

  function Pow2(k: nat): (p: nat)
    ensures p > 0
  {
    if k == 0 then 1 else 2 * Pow2(k - 1)
  }

  predicate Bit(w: nat, k: nat) {
    if k == 0 then w % 2 == 1 else Bit(w / 2, k - 1)
  }

  function SetBit(w: nat, k: nat): (r: nat)
    ensures r == if Bit(w, k) then w else w + Pow2(k)
  {
    if k == 0 then (if w % 2 == 1 then w else w + 1)
    else 2 * SetBit(w / 2, k - 1) + w % 2
  }

  function ClearBit(w: nat, k: nat): (r: nat)
    ensures r == if Bit(w, k) then w - Pow2(k) else w
  {
    if k == 0 then w - w % 2
    else 2 * ClearBit(w / 2, k - 1) + w % 2
  }

  function Ctz(w: nat): (k: nat)
    requires w > 0
    ensures Bit(w, k)
    ensures forall j: nat :: j < k ==> !Bit(w, j)
  {
    if w % 2 == 1 then 0 else 1 + Ctz(w / 2)
  }

  lemma {:induction false} SetBitBits(w: nat, k: nat, j: nat)
    ensures Bit(SetBit(w, k), j) <==> j == k || Bit(w, j)
    decreases k
  {
    if k > 0 && j > 0 {
      SetBitBits(w / 2, k - 1, j - 1);
      assert SetBit(w, k) / 2 == SetBit(w / 2, k - 1);
    }
  }

  lemma {:induction false} ClearBitBits(w: nat, k: nat, j: nat)
    ensures Bit(ClearBit(w, k), j) <==> j != k && Bit(w, j)
    decreases k
  {
    if k > 0 && j > 0 {
      ClearBitBits(w / 2, k - 1, j - 1);
      assert ClearBit(w, k) / 2 == ClearBit(w / 2, k - 1);
    }
  }

  /** A word below 2^n has no bit at or above n, so a bit index stays below 64. */
  lemma {:induction false} HighBitsClear(w: nat, n: nat, k: nat)
    requires w < Pow2(n) && n <= k
    ensures !Bit(w, k)
    decreases k
  {
    if n > 0 {
      HighBitsClear(w / 2, n - 1, k - 1);
    } else if k > 0 {
      HighBitsClear(w / 2, 0, k - 1);
    }
  }

  lemma {:induction false} SetBitBound(w: nat, k: nat, n: nat)
    requires w < Pow2(n) && k < n
    ensures SetBit(w, k) < Pow2(n)
    decreases k
  {
    HalfBound(w, Pow2(n - 1));
    if k > 0 {
      SetBitBound(w / 2, k - 1, n - 1);
    }
  }

  lemma HalfBound(w: nat, p: nat)
    ensures w < 2 * p <==> w / 2 < p
  {
  }

  lemma {:induction false} ZeroHasNoBits(k: nat)
    ensures !Bit(0, k)
  {
    if k > 0 { ZeroHasNoBits(k - 1); }
  }

  lemma Pow64()
    ensures Pow2(64) == TWO_64
  {
    assert Pow2(4) == 16;
    PowAdd(4, 4);
    assert Pow2(8) == 0x100;
    PowAdd(8, 8);
    assert Pow2(16) == 0x1_0000;
    PowAdd(16, 16);
    assert Pow2(32) == 0x1_0000_0000;
    PowAdd(32, 32);
  }

  lemma {:induction false} PowAdd(a: nat, b: nat)
    ensures Pow2(a + b) == Pow2(a) * Pow2(b)
  {
    if a > 0 { PowAdd(a - 1, b); }
  }

  /** The bits of a Word are exactly at positions below 64. */
  lemma WordBits(w: Word, k: nat)
    requires Bit(w, k)
    ensures k < 64
  {
    Pow64();
    if k >= 64 { HighBitsClear(w, 64, k); }
  }

  lemma WordUpdates(w: Word, k: nat)
    requires k < 64
    ensures SetBit(w, k) < TWO_64 && ClearBit(w, k) <= w
  {
    Pow64();
    SetBitBound(w, k, 64);
  }

  lemma CtzBound(w: Word)
    requires w > 0
    ensures Ctz(w) < 64
  {
    WordBits(w, Ctz(w));
  }
}
