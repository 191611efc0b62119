/** Number output of src/libc/printf.c:38-262: sign, prefix, zero padding and
    digits, through a reserve and a write callback either of which may be
    missing. */
module PrintedNumbers {
  import opened Division
  import opened Numerals

  const MAX_64: nat := 0xFFFF_FFFF_FFFF_FFFF

  datatype Length = IntLength | HH | H | L | LL

  datatype Flags = Flags(padZero: bool, sign: bool, space: bool, left: bool, alt: bool, prec: bool, len: Length, upper: bool)

  /** The buffer behind the callbacks: the characters reserved for it and the
      ones written. */
  class Context {
    const rs: bool
    const cb: bool
    var sz: nat
    var out: string

    constructor (rs: bool, cb: bool)
      ensures this.rs == rs && this.cb == cb && sz == 0 && out == "" && Balanced()
    {
      this.rs, this.cb, sz, out := rs, cb, 0, "";
    }

    /** With both callbacks, all that was reserved is written. */
    ghost predicate Balanced()
      reads this
    {
      rs && cb ==> sz == |out|
    }

    method Reserve(n: nat)
      modifies this`sz
      ensures sz == old(sz) + if rs then n else 0
    {
      if rs { sz := sz + n; }
    }

    /** A write below what is reserved. */
    method Write(c: char)
      requires cb && (rs ==> |out| < sz)
      modifies this`out
      ensures out == old(out) + [c]
    {
      out := out + [c];
    }

    method WriteMany(c: char, n: nat)
      requires cb && (rs ==> |out| + n <= sz)
      modifies this`out
      ensures out == old(out) + Repeat(c, n)
    {
      var w: nat := n;
      while w > 0
        invariant w <= n && out == old(out) + Repeat(c, n - w)
      {
        w := w - 1;
        Write(c);
      }
    }

    /** Reserves and writes a text. */
    ghost predicate Emits(sz0: nat, out0: string, text: string)
      reads this
    {
      sz == sz0 + (if rs then |text| else 0) && out == out0 + (if cb then text else "")
    }
  }

  function Repeat(c: char, n: nat): (s: string)
    ensures |s| == n && forall i :: 0 <= i < n ==> s[i] == c
  {
    seq(n, i => c)
  }

  // ---- what is printed

  function SignText(f: Flags, negative: bool): string {
    if negative then "-" else if f.space then " " else if f.sign then "+" else ""
  }

  /** A digit as a character: upper-case letters on request. */
  function DigitChar(d: nat, upper: bool): char
    requires d < 16
  {
    (48 + (if d > 9 then if upper then 7 else 39 else 0) + d) as char
  }

  function DigitOfChar(c: char): nat {
    var k := c as int;
    if 48 <= k < 58 then k - 48 else if 65 <= k < 71 then k - 55 else if 97 <= k < 103 then k - 87 else 0
  }

  function Chars(d: seq<nat>, upper: bool): (s: string)
    requires forall i :: 0 <= i < |d| ==> d[i] < 16
    ensures |s| == |d|
  {
    seq(|d|, i requires 0 <= i < |d| => DigitChar(d[i], upper))
  }

  function ReadDigits(s: string): (d: seq<nat>)
    ensures |d| == |s|
  {
    seq(|s|, i requires 0 <= i < |s| => DigitOfChar(s[i]))
  }

  predicate Base(b: nat) { b == 8 || b == 10 || b == 16 }

  /** The digits the code finds: at 2^64-1 the power loop of base ten stops at
      once, since v + 1 wraps to zero, and only the last digit is printed. */
  function Printed(b: nat, v: nat): (d: seq<nat>)
    requires Base(b)
    ensures forall i :: 0 <= i < |d| ==> d[i] < b
    ensures v > 0 ==> |d| > 0
  {
    if b == 10 && v == MAX_64 then [5] else DigitsOf(b, v)
  }

  function Monus(w: nat, n: nat): nat { if w > n then w - n else 0 }

  /** Digits and zeros of a number in a field of w: the zeros follow the digits
      when left-justified. */
  function Field(f: Flags, b: nat, v: nat, w: nat): (d: seq<nat>)
    requires Base(b)
    ensures forall i :: 0 <= i < |d| ==> d[i] < b
  {
    if v == 0 then Zeros(if w == 0 then 1 else w)
    else
      var d := Printed(b, v);
      var pad := Zeros(Monus(w, |d|));
      if f.left then d + pad else pad + d
  }

  function Prefix(f: Flags, b: nat): string {
    if f.alt && b == 8 then "0" else if f.alt && b == 16 then if f.upper then "0X" else "0x" else ""
  }

  /** The text of an unsigned number with precision p. */
  function UIntText(f: Flags, b: nat, v: nat, p: nat): string
    requires Base(b)
  {
    var w := if f.prec then p else 1;
    if w == 0 && v == 0 then if f.alt && b == 8 then "0" else ""
    else Prefix(f, b) + Chars(Field(f, b, v, Monus(w, |Prefix(f, b)|)), f.upper)
  }

  // ---- reading it back

  lemma ReadChars(d: seq<nat>, upper: bool)
    requires forall i :: 0 <= i < |d| ==> d[i] < 16
    ensures ReadDigits(Chars(d, upper)) == d
  {
  }

  lemma {:induction false} ZeroValue(b: nat, n: nat)
    ensures Value(b, Zeros(n)) == 0
  {
    assert Zeros(n) + [] == Zeros(n);
    LeadingZeros(b, n, []);
  }

  /** The digits printed after the prefix read back as the number exactly when
      it is not 2^64-1 in base ten and no zeros were put behind it. */
  lemma ReadsBack(f: Flags, b: nat, v: nat, w: nat)
    requires Base(b) && v <= MAX_64
    ensures Value(b, ReadDigits(Chars(Field(f, b, v, w), f.upper))) == v <==>
            !(b == 10 && v == MAX_64) && (v == 0 || !f.left || w <= |Printed(b, v)|)
  {
    hide Value, Pow, DigitsOf;
    ReadChars(Field(f, b, v, w), f.upper);
    if v == 0 {
      ZeroValue(b, if w == 0 then 1 else w);
    } else {
      var d := Printed(b, v);
      var n := Monus(w, |d|);
      PrintedValue(b, v);
      LeadingZeros(b, n, d);
      TrailingZeros(b, n, d);
      assert d + Zeros(0) == d;
      TrailingZeros(b, 0, d);
      Scaled(b, Value(b, d), n);
      if b == 10 && v == MAX_64 { FiveScaled(n); }
    }
  }

  lemma PrintedValue(b: nat, v: nat)
    requires Base(b)
    ensures Value(b, Printed(b, v)) == if b == 10 && v == MAX_64 then 5 else v
  {
    ValueOfDigits(b, v);
    assert [5][..0] == [];
  }

  lemma Scaled(b: nat, v: nat, n: nat)
    requires b >= 2 && v > 0
    ensures v * Pow(b, n) == v <==> n == 0
  {
    if n > 0 {
      PowMonotone(b, 1, n);
      assert Pow(b, 1) == b * Pow(b, 0) == b;
      TimesMonotone(v, 2, Pow(b, n));
    }
  }

  lemma FiveScaled(n: nat)
    ensures 5 * Pow(10, n) != MAX_64
  {
    if n > 0 {
      assert 5 * Pow(10, n) == 2 * (25 * Pow(10, n - 1));
    }
  }

  // ---- the code

  lemma CharsAppend(d: seq<nat>, e: seq<nat>, upper: bool)
    requires forall i :: 0 <= i < |d| ==> d[i] < 16
    requires forall i :: 0 <= i < |e| ==> e[i] < 16
    ensures Chars(d + e, upper) == Chars(d, upper) + Chars(e, upper)
  {
  }

  lemma CharsZeros(n: nat, upper: bool)
    ensures Chars(Zeros(n), upper) == Repeat('0', n)
  {
  }

  method HandleSign(ctx: Context, f: Flags, n: bool) returns (i: nat)
    requires ctx.Balanced()
    modifies ctx`sz, ctx`out
    ensures ctx.Balanced() && ctx.Emits(old(ctx.sz), old(ctx.out), SignText(f, n)) && i == |SignText(f, n)|
  {
    if f.sign || f.space || n {
      ctx.Reserve(1);
      if ctx.cb {
        ctx.Write(if n then '-' else if f.space then ' ' else '+');
      }
      return 1;
    }
    i := 0;
  }

  /** The digits of v in base eight or sixteen. */
  method CountDigits(b: nat, v: nat) returns (sz: nat)
    requires b == 8 || b == 16
    ensures sz == |DigitsOf(b, v)|
  {
    sz := 0;
    var nv: nat := v;
    while nv > 0
      invariant sz + |DigitsOf(b, nv)| == |DigitsOf(b, v)|
      decreases nv
    {
      DivSmaller(nv, b);
      nv := nv / b;
      sz := sz + 1;
    }
  }

  /** Writes them from the highest shift down. */
  method WriteShifted(ctx: Context, b: nat, v: nat, sz: nat, upper: bool)
    requires (b == 8 || b == 16) && sz == |DigitsOf(b, v)| && ctx.cb && (ctx.rs ==> |ctx.out| + sz <= ctx.sz)
    modifies ctx`out
    ensures ctx.out == old(ctx.out) + Chars(DigitsOf(b, v), upper)
  {
    hide DigitsOf, Pow;
    NoDigitsLeft(b, v);
    EmptyDigits(b);
    assert v / Pow(b, sz) == 0;
    var j := sz;
    while j > 0
      invariant 0 <= j <= sz && ctx.out == old(ctx.out) + Chars(DigitsOf(b, v / Pow(b, j)), upper)
      invariant |ctx.out| == |old(ctx.out)| + sz - j
    {
      j := j - 1;
      NextDigit(b, v, j);
      var c := v / Pow(b, j) % b;
      CharsAppend(DigitsOf(b, v / Pow(b, j + 1)), [c], upper);
      ctx.Write(DigitChar(c, upper));
    }
    assert v / Pow(b, 0) == v by { PowZero(b, v); }
  }

  lemma EmptyDigits(b: nat)
    requires b >= 2
    ensures DigitsOf(b, 0) == []
  {
  }

  lemma PowZero(b: nat, v: nat)
    ensures Pow(b, 0) == 1 && v / Pow(b, 0) == v
  {
  }

  lemma TwentyDigits()
    ensures Pow(10, 19) == 1_0000_0000_0000_0000_000 && Pow(10, 20) == 10 * Pow(10, 19) > MAX_64 > Pow(10, 19)
  {
    assert Pow(10, 5) == 100000;
    assert Pow(10, 10) == 100000 * Pow(10, 5);
    assert Pow(10, 15) == 100000 * Pow(10, 10);
    assert Pow(10, 19) == 10000 * Pow(10, 15);
  }

  /** The digits of v in base ten and a power of ten: at twenty digits the
      loop stops before the power overflows. */
  method CountDecimal(v: nat) returns (sz: nat, pw: nat)
    requires 0 < v <= MAX_64
    ensures sz == |Printed(10, v)| && 1 <= sz <= 20 && pw == Pow(10, if sz == 20 then 19 else sz) <= MAX_64
  {
    hide DigitsOf, Pow;
    sz, pw := 1, 10;
    TenFirst();
    TwentyDigits();
    var limit := (v + 1) % (MAX_64 + 1);
    while pw < limit
      invariant 1 <= sz < 20 && pw == Pow(10, sz) <= MAX_64
      invariant if limit > 0 then Pow(10, sz - 1) <= v else sz == 1
      decreases 20 - sz
    {
      sz := sz + 1;
      if sz == 20 {
        DigitCountUnique(10, v, 20);
        return;
      }
      pw := pw * 10;
      TenTimes(sz);
    }
    if limit > 0 {
      DigitCountUnique(10, v, sz);
    }
  }

  lemma TenFirst()
    ensures Pow(10, 0) == 1 && Pow(10, 1) == 10
  {
  }

  lemma TenTimes(k: nat)
    requires 0 < k < 20
    ensures Pow(10, k) == Pow(10, k - 1) * 10 && Pow(10, k) <= MAX_64
  {
    hide Pow;
    TwentyDigits();
    PowMonotone(10, k, 19);
    PowTen(k);
  }

  lemma PowTen(k: nat)
    requires k > 0
    ensures Pow(10, k) == Pow(10, k - 1) * 10
  {
  }

  /** Writes the digits of v in base ten from the given power of ten down. */
  method WriteDecimal(ctx: Context, v: nat, sz: nat, pw: nat)
    requires 0 < v <= MAX_64 && sz == |Printed(10, v)| && 1 <= sz <= 20 && pw == Pow(10, sz - 1)
    requires ctx.cb && (ctx.rs ==> |ctx.out| + sz <= ctx.sz)
    modifies ctx`out
    ensures ctx.out == old(ctx.out) + Chars(Printed(10, v), false)
  {
    hide DigitsOf, Pow;
    var n: nat, p: nat := sz, pw;
    DecimalStart(v, sz);
    ghost var done: seq<nat> := [];
    while n > 0
      invariant n <= sz && DecimalPart(v, sz, n, done)
      invariant n > 0 ==> p == Pow(10, n - 1)
      invariant ctx.out == old(ctx.out) + Chars(done, false)
    {
      DecimalStep(v, sz, n, done, p);
      CharsAppend(done, [v / p % 10], false);
      ctx.Write(DigitChar(v / p % 10, false));
      done := done + [v / p % 10];
      n := n - 1;
      p := p / 10;
    }
    DecimalEnd(v, sz, done);
  }

  /** done holds all but the last n of the sz digits printed. */
  ghost predicate DecimalPart(v: nat, sz: nat, n: nat, done: seq<nat>)
    requires n <= sz
  {
    && |done| == sz - n && (forall i :: 0 <= i < |done| ==> done[i] < 10)
    && (v == MAX_64 ==> done == if n == 0 then [5] else [])
    && (v != MAX_64 ==> done == DigitsOf(10, v / Pow(10, n)))
  }

  lemma DecimalStart(v: nat, sz: nat)
    requires sz == |Printed(10, v)|
    ensures DecimalPart(v, sz, sz, [])
  {
    if v != MAX_64 { NoDigitsLeft(10, v); }
  }

  lemma DecimalStep(v: nat, sz: nat, n: nat, done: seq<nat>, p: nat)
    requires v > 0 && sz == |Printed(10, v)| && 0 < n <= sz && DecimalPart(v, sz, n, done) && p == Pow(10, n - 1)
    ensures p > 0 && DecimalPart(v, sz, n - 1, done + [v / p % 10])
    ensures n > 1 ==> p / 10 == Pow(10, n - 2)
  {
    hide DigitsOf, Pow;
    if v == MAX_64 {
      PowZero(10, v);
    } else {
      NextDigit(10, v, n - 1);
    }
    if n > 1 {
      PowTen(n - 1);
      QuotientUnique(p, 10, Pow(10, n - 2), 0);
    }
  }

  lemma DecimalEnd(v: nat, sz: nat, done: seq<nat>)
    requires DecimalPart(v, sz, 0, done)
    ensures done == Printed(10, v)
  {
    PowZero(10, v);
  }

  /** The digits alone, given their count and in base ten its power of ten. */
  method WriteDigits(ctx: Context, b: nat, v: nat, sz: nat, pw: nat, upper: bool)
    requires Base(b) && 0 < v <= MAX_64 && sz == |Printed(b, v)|
    requires b == 10 ==> 1 <= sz <= 20 && pw == Pow(10, if sz == 20 then 19 else sz)
    requires ctx.cb && (ctx.rs ==> |ctx.out| + sz <= ctx.sz)
    modifies ctx`out
    ensures ctx.out == old(ctx.out) + Chars(Printed(b, v), upper)
  {
    hide DigitsOf, Pow;
    if b == 10 {
      var p := pw;
      if sz != 20 {
        PowTen(sz);
        QuotientUnique(p, 10, Pow(10, sz - 1), 0);
        p := p / 10;
      }
      WriteDecimal(ctx, v, sz, p);
      DecimalCase(v, upper);
    } else {
      WriteShifted(ctx, b, v, sz, upper);
    }
  }

  /** A number that is not zero, in a field of w. */
  method WriteNonzero(ctx: Context, f: Flags, b: nat, v: nat, w: nat) returns (i: nat)
    requires ctx.Balanced() && Base(b) && 0 < v <= MAX_64
    modifies ctx`sz, ctx`out
    ensures ctx.Balanced() && i == |Field(f, b, v, w)|
    ensures ctx.Emits(old(ctx.sz), old(ctx.out), Chars(Field(f, b, v, w), f.upper))
  {
    hide DigitsOf, Pow, Chars, Repeat, Field, Printed;
    FieldLength(f, b, v, w);
    var sz: nat, pw: nat := 0, 1;
    if b == 10 {
      sz, pw := CountDecimal(v);
    } else {
      sz := CountDigits(b, v);
    }
    i := if w < sz then sz else w;
    ctx.Reserve(i);
    if ctx.cb {
      var pad := i - sz;
      FieldText(f, b, v, w, pad);
      ghost var d, z := Chars(Printed(b, v), f.upper), Repeat('0', pad);
      Associative(ctx.out, if f.left then d else z, if f.left then z else d);
      if !f.left { ctx.WriteMany('0', pad); }
      WriteDigits(ctx, b, v, sz, pw, f.upper);
      if f.left { ctx.WriteMany('0', pad); }
    }
  }

  lemma Associative(o: string, x: string, y: string)
    ensures o + (x + y) == o + x + y
  {
  }

  lemma FieldLength(f: Flags, b: nat, v: nat, w: nat)
    requires Base(b) && v > 0
    ensures var sz := |Printed(b, v)|;
            |Field(f, b, v, w)| == if w < sz then sz else w
    ensures b != 10 ==> Printed(b, v) == DigitsOf(b, v)
  {
  }

  lemma FieldText(f: Flags, b: nat, v: nat, w: nat, pad: nat)
    requires Base(b) && v > 0 && pad == Monus(w, |Printed(b, v)|)
    ensures var d := Chars(Printed(b, v), f.upper);
            Chars(Field(f, b, v, w), f.upper) == if f.left then d + Repeat('0', pad) else Repeat('0', pad) + d
  {
    CharsZeros(pad, f.upper);
    CharsAppend(Printed(b, v), Zeros(pad), f.upper);
    CharsAppend(Zeros(pad), Printed(b, v), f.upper);
  }

  lemma DecimalCase(v: nat, upper: bool)
    ensures Chars(Printed(10, v), upper) == Chars(Printed(10, v), false)
  {
  }

  lemma RepeatJoins(c: char, n: nat)
    ensures Repeat(c, n + 1) == Repeat(c, n) + [c] == [c] + Repeat(c, n)
  {
  }

  /** Zero, in a field of w. */
  method WriteZero(ctx: Context, f: Flags, b: nat, w: nat) returns (i: nat)
    requires ctx.Balanced() && Base(b)
    modifies ctx`sz, ctx`out
    ensures ctx.Balanced() && i == |Field(f, b, 0, w)|
    ensures ctx.Emits(old(ctx.sz), old(ctx.out), Chars(Field(f, b, 0, w), f.upper))
  {
    hide Repeat, Chars;
    i := if w == 0 then 1 else w;
    CharsZeros(i, f.upper);
    RepeatJoins('0', i - 1);
    ctx.Reserve(i);
    if ctx.cb {
      if !f.left { ctx.WriteMany('0', i - 1); }
      ctx.Write('0');
      if f.left { ctx.WriteMany('0', i - 1); }
    }
  }

  /** The prefix of the alternative form, and what it leaves of the width. */
  method WritePrefix(ctx: Context, f: Flags, b: nat, w: nat) returns (i: nat, rest: nat)
    requires ctx.Balanced()
    modifies ctx`sz, ctx`out
    ensures ctx.Balanced() && i == |Prefix(f, b)| && rest == Monus(w, i)
    ensures ctx.Emits(old(ctx.sz), old(ctx.out), Prefix(f, b))
  {
    i, rest := 0, w;
    if f.alt && b == 8 {
      ctx.Reserve(1);
      if ctx.cb { ctx.Write('0'); }
      i := 1;
      if rest > 0 { rest := rest - 1; }
    } else if f.alt && b == 16 {
      ctx.Reserve(2);
      if ctx.cb {
        ctx.Write('0');
        ctx.Write(if f.upper then 'X' else 'x');
      }
      i := 2;
      rest := if rest > 1 then rest - 2 else 0;
    }
  }

  /** The digits of v in a field of w. */
  method WriteField(ctx: Context, f: Flags, b: nat, v: nat, w: nat) returns (i: nat)
    requires ctx.Balanced() && Base(b) && v <= MAX_64
    modifies ctx`sz, ctx`out
    ensures ctx.Balanced() && i == |Field(f, b, v, w)|
    ensures ctx.Emits(old(ctx.sz), old(ctx.out), Chars(Field(f, b, v, w), f.upper))
  {
    hide Field, Chars, Base;
    if v == 0 {
      i := WriteZero(ctx, f, b, w);
    } else {
      i := WriteNonzero(ctx, f, b, v, w);
    }
  }

  /** Prints v in base b with precision p: returns what it prints, reserving
      exactly that many characters before any is written. */
  method WriteUint(ctx: Context, f: Flags, b: nat, v: nat, p: nat) returns (i: nat)
    requires ctx.Balanced() && Base(b) && v <= MAX_64
    modifies ctx`sz, ctx`out
    ensures ctx.Balanced() && i == |UIntText(f, b, v, p)|
    ensures ctx.Emits(old(ctx.sz), old(ctx.out), UIntText(f, b, v, p))
  {
    hide Field, Chars, Prefix;
    var w := if f.prec then p else 1;
    if w == 0 && f.prec && v == 0 {
      if f.alt && b == 8 {
        ctx.Reserve(1);
        if ctx.cb { ctx.Write('0'); }
        return 1;
      }
      return 0;
    }
    ghost var digits := Chars(Field(f, b, v, Monus(w, |Prefix(f, b)|)), f.upper);
    Associative(ctx.out, Prefix(f, b), digits);
    i, w := WritePrefix(ctx, f, b, w);
    var n := WriteField(ctx, f, b, v, w);
    i := i + n;
  }
}
