/** Digits of a number in a base, and the value they stand for. */
module Numerals {
  import opened Division

  function Pow(b: nat, k: nat): (p: nat)
    ensures b > 0 ==> p > 0
  {
    if k == 0 then 1 else b * Pow(b, k - 1)
  }

  /** The digits of v, most significant first, without leading zeros. */
  function DigitsOf(b: nat, v: nat): (d: seq<nat>)
    requires b >= 2
    ensures forall i :: 0 <= i < |d| ==> d[i] < b
    ensures v > 0 ==> |d| > 0
  {
    if v == 0 then [] else
      DivSmaller(v, b);
      DigitsOf(b, v / b) + [v % b]
  }

  lemma DivSmaller(v: nat, b: nat)
    requires v > 0 && b >= 2
    ensures v / b < v
  {
    Parts(v, b);
    Doubles(v / b, b);
  }

  lemma Parts(v: nat, b: nat)
    requires b > 0
    ensures v == v / b * b + v % b && v % b < b
  {
  }

  lemma Doubles(q: nat, b: nat)
    requires b >= 2
    ensures q * b >= q + q
  {
    if q > 0 { assert q * b == q * 2 + q * (b - 2); }
  }

  /** The value of a string of digits. */
  function Value(b: nat, d: seq<nat>): nat {
    if d == [] then 0 else Value(b, d[..|d| - 1]) * b + d[|d| - 1]
  }

  /** Reading the digits back gives the number. */
  lemma {:induction false} ValueOfDigits(b: nat, v: nat)
    requires b >= 2
    ensures Value(b, DigitsOf(b, v)) == v
    decreases v
  {
    if v > 0 {
      DivSmaller(v, b);
      ValueOfDigits(b, v / b);
      ValueAppend(b, DigitsOf(b, v / b), v % b);
      Parts(v, b);
    }
  }

  function Zeros(n: nat): (z: seq<nat>)
    ensures |z| == n && forall i :: 0 <= i < n ==> z[i] == 0
  {
    seq(n, i => 0)
  }

  /** Zeros in front do not change the value. */
  lemma {:induction false} LeadingZeros(b: nat, n: nat, d: seq<nat>)
    ensures Value(b, Zeros(n) + d) == Value(b, d)
    decreases n + |d|
  {
    var x := Zeros(n) + d;
    if d != [] {
      assert x[..|x| - 1] == Zeros(n) + d[..|d| - 1];
      LeadingZeros(b, n, d[..|d| - 1]);
    } else if n > 0 {
      assert x[..|x| - 1] == Zeros(n - 1) + d;
      LeadingZeros(b, n - 1, d);
    }
  }

  /** Zeros behind scale it. */
  lemma {:induction false} TrailingZeros(b: nat, n: nat, d: seq<nat>)
    ensures Value(b, d + Zeros(n)) == Value(b, d) * Pow(b, n)
  {
    if n == 0 {
      assert d + Zeros(0) == d;
    } else {
      TrailingZeros(b, n - 1, d);
      assert d + Zeros(n) == d + Zeros(n - 1) + [0];
      ValueAppend(b, d + Zeros(n - 1), 0);
      TimesPower(Value(b, d), Pow(b, n - 1), b);
    }
  }

  lemma TimesPower(v: nat, p: nat, b: nat)
    ensures v * p * b == v * (b * p)
  {
  }

  lemma QuotientOfQuotient(v: nat, p: nat, b: nat)
    requires p > 0 && b > 0
    ensures b * p > 0 && v / p / b == v / (b * p)
  {
    MulAtLeast(b, p);
    Parts(v, p);
    Parts(v / p, b);
    Regroup(v, p, b, v / p / b, v / p % b, v % p);
    QuotientUnique(v, b * p, v / p / b, v / p % b * p + v % p);
  }

  lemma Regroup(v: nat, p: nat, b: nat, q: nat, s: nat, r: nat)
    requires v == (q * b + s) * p + r && s < b && r < p
    ensures v == q * (b * p) + (s * p + r) && s * p + r < b * p
  {
    assert (q * b + s) * p == q * b * p + s * p;
    assert q * b * p == q * (b * p);
    assert b * p == s * p + (b - s) * p;
    MulAtLeast(b - s, p);
  }

  lemma PowStep(v: nat, b: nat, k: nat)
    requires b > 0
    ensures v / Pow(b, k) / b == v / Pow(b, k + 1)
  {
    QuotientOfQuotient(v, Pow(b, k), b);
  }

  /** As many digits as the least power above the number says. */
  lemma {:induction false} DigitCount(b: nat, v: nat)
    requires b >= 2
    ensures v < Pow(b, |DigitsOf(b, v)|)
    ensures v > 0 ==> Pow(b, |DigitsOf(b, v)| - 1) <= v
    decreases v
  {
    if v > 0 {
      DivSmaller(v, b);
      DigitCount(b, v / b);
      Parts(v, b);
      var n := |DigitsOf(b, v / b)|;
      assert Pow(b, n + 1) == b * Pow(b, n);
      if v / b > 0 { assert Pow(b, n) == b * Pow(b, n - 1); }
      Between(v, b, v / b, v % b, Pow(b, n), if v / b > 0 then Pow(b, n - 1) else 0);
    }
  }

  lemma Between(v: nat, b: nat, q: nat, r: nat, hi: nat, lo: nat)
    requires v == q * b + r && r < b && lo <= q < hi
    ensures b * lo <= v < b * hi
  {
    TimesMonotone(b, lo, q);
    TimesMonotone(b, q + 1, hi);
    assert b * (q + 1) == b * q + b;
  }

  lemma TimesMonotone(b: nat, x: nat, y: nat)
    requires x <= y
    ensures b * x <= b * y
  {
    assert b * y == b * x + b * (y - x);
  }

  lemma {:induction false} PowMonotone(b: nat, j: nat, k: nat)
    requires b > 0 && j <= k
    ensures Pow(b, j) <= Pow(b, k)
    decreases k
  {
    if j < k {
      PowMonotone(b, j, k - 1);
      MulAtLeast(b, Pow(b, k - 1));
    }
  }

  /** The count of digits is the only one with these bounds. */
  lemma DigitCountUnique(b: nat, v: nat, n: nat)
    requires b >= 2 && n > 0 && Pow(b, n - 1) <= v < Pow(b, n)
    ensures |DigitsOf(b, v)| == n
  {
    DigitCount(b, v);
    var m := |DigitsOf(b, v)|;
    if m < n { PowMonotone(b, m, n - 1); }
    if m > n { PowMonotone(b, n, m - 1); }
  }

  /** The digits of a number's upper part, one more digit at a time. */
  lemma NextDigit(b: nat, v: nat, k: nat)
    requires b >= 2 && k < |DigitsOf(b, v)|
    ensures DigitsOf(b, v / Pow(b, k)) == DigitsOf(b, v / Pow(b, k + 1)) + [v / Pow(b, k) % b]
  {
    PowStep(v, b, k);
    DigitCount(b, v);
    var n := |DigitsOf(b, v)|;
    PowMonotone(b, k, n - 1);
    Parts(v, Pow(b, k));
    assert v / Pow(b, k) != 0;
  }

  lemma NoDigitsLeft(b: nat, v: nat)
    requires b >= 2
    ensures v / Pow(b, |DigitsOf(b, v)|) == 0
  {
    DigitCount(b, v);
    QuotientUnique(v, Pow(b, |DigitsOf(b, v)|), 0, v);
  }

  /** The last n digits of v. */
  function LastDigits(b: nat, n: nat, v: nat): (d: seq<nat>)
    requires b >= 2
    ensures |d| == n && forall i :: 0 <= i < |d| ==> d[i] < b
  {
    if n == 0 then [] else LastDigits(b, n - 1, v / b) + [v % b]
  }

  lemma {:induction false} ValueOfLastDigits(b: nat, n: nat, v: nat)
    requires b >= 2 && v < Pow(b, n)
    ensures Value(b, LastDigits(b, n, v)) == v
  {
    if n > 0 {
      QuotientBelow(v, b, Pow(b, n - 1));
      ValueOfLastDigits(b, n - 1, v / b);
      ValueAppend(b, LastDigits(b, n - 1, v / b), v % b);
      Parts(v, b);
    }
  }

  lemma ValueAppend(b: nat, d: seq<nat>, x: nat)
    ensures Value(b, d + [x]) == Value(b, d) * b + x
  {
    assert (d + [x])[..|d|] == d;
  }
}
