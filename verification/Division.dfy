/** Facts about quotients and remainders the address arithmetic rests on. */
module Division {
  lemma {:induction false} MulAtLeast(a: int, k: nat)
    requires a >= 1
    ensures a * k >= k
    decreases a
  {
    if a > 1 { MulAtLeast(a - 1, k); assert a * k == (a - 1) * k + k; }
  }

  /** The quotient and remainder of a number are the only ones. */
  lemma QuotientUnique(x: nat, k: nat, q: nat, r: nat)
    requires k > 0 && x == q * k + r && r < k
    ensures x / k == q && x % k == r
  {
    var q', r' := x / k, x % k;
    assert (q - q') * k == r' - r by {
      assert x == q' * k + r';
      assert (q - q') * k == q * k - q' * k;
    }
    if q > q' { MulAtLeast(q - q', k); }
    if q' > q {
      assert (q' - q) * k == -((q - q') * k);
      MulAtLeast(q' - q, k);
    }
  }

  lemma ShiftTwice(va: nat)
    ensures va / 0x20_0000 == va / 4096 / 512
    ensures va / 0x4000_0000 == va / 4096 / 0x4_0000
    ensures va / 0x80_0000_0000 == va / 4096 / 0x800_0000
  {
    var q := va / 4096;
    assert q == 512 * (q / 512) + q % 512;
    QuotientUnique(va, 0x20_0000, q / 512, q % 512 * 4096 + va % 4096);
    assert q == 0x4_0000 * (q / 0x4_0000) + q % 0x4_0000;
    QuotientUnique(va, 0x4000_0000, q / 0x4_0000, q % 0x4_0000 * 4096 + va % 4096);
    assert q == 0x800_0000 * (q / 0x800_0000) + q % 0x800_0000;
    QuotientUnique(va, 0x80_0000_0000, q / 0x800_0000, q % 0x800_0000 * 4096 + va % 4096);
  }

  /** The index bits of a page number lie below bit 36. */
  lemma IndicesBelow36(q: nat)
    ensures q % 0x10_0000_0000 % 512 == q % 512
    ensures q % 0x10_0000_0000 / 512 % 512 == q / 512 % 512
    ensures q % 0x10_0000_0000 / 0x4_0000 % 512 == q / 0x4_0000 % 512
    ensures q % 0x10_0000_0000 / 0x800_0000 % 512 == q / 0x800_0000 % 512
  {
    var h := q / 0x10_0000_0000;
    var p := q % 0x10_0000_0000;
    assert q == h * 0x10_0000_0000 + p;
    QuotientUnique(q, 512, h * 0x800_0000 + p / 512, p % 512);
    QuotientUnique(q, 0x4_0000, h * 0x4_0000 + p / 0x4_0000, p % 0x4_0000);
    QuotientUnique(q, 0x800_0000, h * 512 + p / 0x800_0000, p % 0x800_0000);
    QuotientUnique(q / 512, 512, h * 0x4_0000 + p / 512 / 512, p / 512 % 512);
    QuotientUnique(q / 0x4_0000, 512, h * 512 + p / 0x4_0000 / 512, p / 0x4_0000 % 512);
    QuotientUnique(q / 0x800_0000, 512, h, p / 0x800_0000);
    QuotientUnique(p / 0x800_0000, 512, 0, p / 0x800_0000);
  }

  lemma QuotientBelow(t: nat, k: nat, c: nat)
    requires k > 0 && t < k * c
    ensures t / k < c
  {
    assert (c - t / k) * k == c * k - t / k * k > 0;
  }

  /** The next number has the same quotient or the next one. */
  lemma NextQuotient(q: nat, k: nat)
    requires k > 0
    ensures (q + 1) / k == if q % k + 1 < k then q / k else q / k + 1
    ensures (q + 1) % k == if q % k + 1 < k then q % k + 1 else 0
  {
    if q % k + 1 < k {
      QuotientUnique(q + 1, k, q / k, q % k + 1);
    } else {
      QuotientUnique(q + 1, k, q / k + 1, 0);
    }
  }
}
