/** What a reader finds in the output of src/libc/printf.c: the sign and the
    number of every integer conversion, the text of every string, and in a
    format the conversion that was written there. */
module PrintLaws {
  import opened Division
  import opened Numerals
  import opened PrintedNumbers
  import opened Formatter

  // ---- a reader of numbers

  predicate IsSign(c: char) { c == '-' || c == '+' || c == ' ' }

  function AfterSign(s: string): string {
    if s != "" && IsSign(s[0]) then s[1..] else s
  }

  function AfterPrefix(b: nat, s: string): string {
    if b == 16 && |s| >= 2 && s[0] == '0' && (s[1] == 'x' || s[1] == 'X') then s[2..] else s
  }

  /** The number a text stands for in base b. */
  function NumberIn(b: nat, s: string): int {
    var n: int := Value(b, ReadDigits(AfterPrefix(b, AfterSign(s))));
    if s != "" && s[0] == '-' then -n else n
  }

  function BaseOf(x: char): (b: nat)
    ensures Base(b)
  {
    if x == 'o' then 8 else if x == 'x' || x == 'X' then 16 else 10
  }

  // ---- the numbers that are printed

  function Bits(len: Length): (r: nat)
    ensures r > 0
  {
    match len
    case HH => 0x100
    case H => 0x1_0000
    case IntLength => TWO_32
    case _ => MAX_64 + 1
  }

  /** The number an integer conversion prints. */
  function Printable(x: char, len: Length, word: nat): int {
    if x == 'd' || x == 'i' then SignedValue(len, word) else UnsignedValue(len, word)
  }

  /** n is the word up to a multiple of r, and within that range: from minus a
      half to a half of it, or from zero on. */
  predicate BroughtInto(x: char, r: nat, word: nat, n: int)
    requires r > 0
  {
    && (word - n) % r == 0
    && if x == 'd' || x == 'i' then -(r as int) <= 2 * n < r else 0 <= n < r
  }

  /** It is the argument brought into the range of its length. */
  lemma PrintableIs(x: char, len: Length, word: nat)
    ensures BroughtInto(x, Bits(len), word, Printable(x, len, word))
  {
    hide BroughtInto, Signed;
    WordBrought(x, Bits(len), word);
  }

  lemma WordBrought(x: char, r: nat, word: nat)
    requires r > 0 && r % 2 == 0
    ensures BroughtInto(x, r, word, if x == 'd' || x == 'i' then Signed(word, r) else word % r)
  {
    HalfRange(word % r, r);
    Remainder(word, r, word % r);
    Remainder(word, r, word % r - r);
  }

  lemma HalfRange(m: nat, r: nat)
    requires m < r && r % 2 == 0
    ensures m >= r / 2 ==> -(r as int) <= 2 * (m - r) < 0
    ensures m < r / 2 ==> 2 * m < r
  {
  }

  lemma Remainder(word: nat, r: nat, n: int)
    requires r > 0 && (n == word % r || n == word % r - r)
    ensures (word - n) % r == 0
  {
    var q := word / r;
    assert word == q * r + word % r;
    Multiple(q, r);
    Multiple(q + 1, r);
    assert (q + 1) * r == q * r + r;
  }

  lemma Multiple(q: nat, r: nat)
    requires r > 0
    ensures q * r % r == 0
  {
    QuotientUnique(q * r, r, q, 0);
  }

  // ---- texts of numbers

  lemma DigitPlain(d: nat, upper: bool)
    requires d < 16
    ensures var c := DigitChar(d, upper); !IsSign(c) && c != 'x' && c != 'X' && DigitOfChar(c) == d
    ensures d < 10 ==> DigitChar(d, upper) == DigitChar(d, !upper)
    ensures d >= 10 ==> if upper then 'A' <= DigitChar(d, upper) <= 'F' else 'a' <= DigitChar(d, upper) <= 'f'
  {
  }

  /** Nothing is taken for a sign or a prefix in digits. */
  lemma DigitsStay(d: seq<nat>, upper: bool, b: nat)
    requires forall i :: 0 <= i < |d| ==> d[i] < 16
    ensures AfterSign(Chars(d, upper)) == Chars(d, upper) && AfterPrefix(b, Chars(d, upper)) == Chars(d, upper)
    ensures ReadDigits(Chars(d, upper)) == d
  {
    hide DigitChar, DigitOfChar;
    forall i | 0 <= i < |d|
      ensures var c := Chars(d, upper)[i]; !IsSign(c) && c != 'x' && c != 'X' && DigitOfChar(c) == d[i]
    {
      DigitPlain(d[i], upper);
    }
  }

  /** The digits behind a prefix, without it. */
  lemma UnsignedReads(f: Flags, b: nat, v: nat, p: nat)
    requires Base(b) && v <= MAX_64
    ensures var s := UIntText(f, b, v, p);
            && AfterSign(s) == s
            && (Value(b, ReadDigits(AfterPrefix(b, s))) == v <==> PrintsWell(f, b, v, p))
  {
    hide Value, Field, Chars, DigitsOf, Printed, DigitOfChar;
    var w := if f.prec then p else 1;
    if w == 0 && v == 0 {
      ZeroReads(b);
    } else {
      var d := Field(f, b, v, Monus(w, |Prefix(f, b)|));
      DigitsStay(d, f.upper, b);
      ReadsBack(f, b, v, Monus(w, |Prefix(f, b)|));
      PrefixGone(Prefix(f, b), Chars(d, f.upper), b);
      assert "" + Chars(d, f.upper) == Chars(d, f.upper);
      if f.alt && b == 8 { OctalZero(d, f.upper); }
    }
  }

  lemma PrefixGone(prefix: string, s: string, b: nat)
    requires AfterSign(s) == s && AfterPrefix(b, s) == s
    requires prefix == "" || (prefix == "0" && b == 8) || ((prefix == "0x" || prefix == "0X") && b == 16)
    ensures AfterSign(prefix + s) == prefix + s
    ensures AfterPrefix(b, prefix + s) == if b == 16 then s else prefix + s
  {
    if prefix == "" {
      assert prefix + s == s;
    } else if b == 16 {
      assert (prefix + s)[2..] == s;
    }
  }

  /** The exact condition: not the largest number in base ten, and no zeros
      behind the digits. */
  predicate PrintsWell(f: Flags, b: nat, v: nat, p: nat)
    requires Base(b)
  {
    && !(b == 10 && v == MAX_64)
    && (v == 0 || !f.left || Monus(if f.prec then p else 1, |Prefix(f, b)|) <= |Printed(b, v)|)
  }

  lemma ZeroReads(b: nat)
    requires Base(b)
    ensures Value(b, ReadDigits("")) == 0 && Value(b, ReadDigits("0")) == 0
  {
    assert ReadDigits("0") == [0];
    assert [0][..0] == [];
  }

  lemma ReadFirst(c: char, s: string)
    ensures ReadDigits([c] + s) == [DigitOfChar(c)] + ReadDigits(s)
  {
    hide DigitOfChar;
  }

  /** The prefix of base eight is a leading zero. */
  lemma OctalZero(d: seq<nat>, upper: bool)
    requires forall i :: 0 <= i < |d| ==> d[i] < 8
    ensures ReadDigits("0" + Chars(d, upper)) == [0] + d && Value(8, [0] + d) == Value(8, d)
  {
    hide Value, ReadDigits, Chars;
    DigitsStay(d, upper, 8);
    ReadFirst('0', Chars(d, upper));
    LeadingZeros(8, 1, d);
    assert Zeros(1) == [0];
  }

  // ---- integer conversions

  /** A text of the number n: read in its base it is n exactly under that
      condition; it starts with a minus sign exactly when n is negative, and else
      with a space or a plus sign exactly by the flags. */
  predicate Shows(x: char, f: Flags, p: nat, n: int, s: string) {
    && (NumberIn(BaseOf(x), s) == n <==> PrintsWell(f, BaseOf(x), Magnitude(n), p))
    && (s != "" && s[0] == '-' <==> n < 0)
    && (s != "" && s[0] == ' ' <==> n >= 0 && f.space)
    && (s != "" && s[0] == '+' <==> n >= 0 && !f.space && f.sign)
  }

  function Magnitude(n: int): nat { if n < 0 then -n else n }

  /** The text of an integer conversion is one of its number. */
  lemma IntegerReads(c: Conv, x: char, word: nat)
    requires IsInteger(x)
    ensures Shows(x, c.f, c.p, Printable(x, c.f.len, word), IntegerText(c, x, word))
  {
    hide UIntText, Printable, IntegerText, PrintsWell, AfterSign, Shows, SignText;
    var n := Printable(x, c.f.len, word);
    IntegerTextIs(c, x, word);
    var f := if x == 'X' then c.f.(upper := true) else c.f;
    UnsignedReads(f, BaseOf(x), Magnitude(n), c.p);
    SignShows(x, f, c.p, n, UIntText(f, BaseOf(x), Magnitude(n), c.p));
    assert Shows(x, c.f, c.p, n, IntegerText(c, x, word)) by { ShowsUpper(x, c.f, c.p, n, IntegerText(c, x, word)); }
  }

  lemma IntegerTextIs(c: Conv, x: char, word: nat)
    requires IsInteger(x)
    ensures var n, f := Printable(x, c.f.len, word), if x == 'X' then c.f.(upper := true) else c.f;
            Magnitude(n) <= MAX_64 && IntegerText(c, x, word) == SignText(f, n < 0) + UIntText(f, BaseOf(x), Magnitude(n), c.p)
  {
    hide UIntText, SignedValue, UnsignedValue, SignText;
    SignedFits(c.f.len, word);
  }

  lemma ShowsUpper(x: char, f: Flags, p: nat, n: int, s: string)
    ensures Shows(x, f.(upper := true), p, n, s) == Shows(x, f, p, n, s)
  {
    hide PrintsWell, NumberIn;
    WellUpper(f, BaseOf(x), Magnitude(n), p);
  }

  lemma SignShows(x: char, f: Flags, p: nat, n: int, u: string)
    requires AfterSign(u) == u
    requires Value(BaseOf(x), ReadDigits(AfterPrefix(BaseOf(x), u))) == Magnitude(n) <==> PrintsWell(f, BaseOf(x), Magnitude(n), p)
    ensures Shows(x, f, p, n, SignText(f, n < 0) + u)
  {
    hide Value, ReadDigits, AfterPrefix, PrintsWell, BaseOf;
    SignGone(SignText(f, n < 0), u);
  }

  lemma NoSign(u: string)
    ensures u != "" && IsSign(u[0]) ==> |AfterSign(u)| < |u|
  {
  }

  /** The sign in front of a text without one. */
  lemma SignGone(sign: string, u: string)
    requires AfterSign(u) == u && (sign == "" || (|sign| == 1 && IsSign(sign[0])))
    ensures AfterSign(sign + u) == u
    ensures var s := sign + u; forall c :: IsSign(c) ==> (s != "" && s[0] == c <==> sign == [c])
  {
    NoSign(u);
    assert sign == "" ==> sign + u == u;
    assert |sign| == 1 ==> (sign + u)[1..] == u && sign == [sign[0]];
  }

  lemma WellUpper(f: Flags, b: nat, v: nat, p: nat)
    requires Base(b)
    ensures PrintsWell(f.(upper := true), b, v, p) == PrintsWell(f, b, v, p)
  {
  }

  /** Small letters for a small conversion letter, capitals for a capital. */
  predicate CaseOk(s: string, upper: bool) {
    forall i :: 0 <= i < |s| ==> if upper then !('a' <= s[i] <= 'z') else !('A' <= s[i] <= 'Z')
  }

  /** The length of a number: its precision, or prefix and digits if they are
      longer; nothing for a zero of precision zero, unless it is the zero of the
      octal form. */
  lemma UnsignedForm(f: Flags, b: nat, v: nat, p: nat)
    requires Base(b) && v <= MAX_64
    ensures var s, w, n := UIntText(f, b, v, p), if f.prec then p else 1, |Prefix(f, b)|;
            && CaseOk(s, f.upper)
            && (if w == 0 && v == 0 then s == if f.alt && b == 8 then "0" else ""
                else
                  var d := if v == 0 then 1 else |Printed(b, v)|;
                  |s| == (if w > n + d then w else n + d) && s[..n] == Prefix(f, b))
    ensures f.alt && b == 16 ==> Prefix(f, b) == if f.upper then "0X" else "0x"
    ensures f.alt && b == 8 ==> Prefix(f, b) == "0"
    ensures !f.alt || b == 10 ==> Prefix(f, b) == ""
  {
    hide DigitsOf, Printed, CaseOk, Chars;
    var w := if f.prec then p else 1;
    if w == 0 && v == 0 {
      CaseDigits([], f.upper);
      CaseJoin("", "", f.upper);
    } else {
      var d := Field(f, b, v, Monus(w, |Prefix(f, b)|));
      CaseDigits(d, f.upper);
      CaseJoin(Prefix(f, b), Chars(d, f.upper), f.upper);
    }
  }

  /** An integer conversion has capitals exactly for the letter X, and is as long
      as its sign and its precision, or the digits with their prefix where they
      are longer. */
  lemma IntegerForm(c: Conv, x: char, word: nat)
    requires IsInteger(x) && !c.f.upper
    ensures var s, n, w := IntegerText(c, x, word), Printable(x, c.f.len, word), if c.f.prec then c.p else 1;
            && CaseOk(s, x == 'X') && Magnitude(n) <= MAX_64
            && (w > 0 || n != 0 ==>
                  var d := (if n == 0 then 1 else |Printed(BaseOf(x), Magnitude(n))|) + |Prefix(c.f, BaseOf(x))|;
                  |s| == (if n < 0 || c.f.space || c.f.sign then 1 else 0) + if w > d then w else d)
  {
    hide UIntText, Printable, IntegerText, CaseOk, Printed;
    IntegerTextIs(c, x, word);
    var n := Printable(x, c.f.len, word);
    var f := if x == 'X' then c.f.(upper := true) else c.f;
    UnsignedForm(f, BaseOf(x), Magnitude(n), c.p);
    SignCase(SignText(f, n < 0), UIntText(f, BaseOf(x), Magnitude(n), c.p), f.upper);
  }

  lemma SignCase(sign: string, u: string, upper: bool)
    requires CaseOk(u, upper) && forall i :: 0 <= i < |sign| ==> IsSign(sign[i])
    ensures CaseOk(sign + u, upper)
  {
  }

  lemma CaseDigits(d: seq<nat>, upper: bool)
    requires forall i :: 0 <= i < |d| ==> d[i] < 16
    ensures CaseOk(Chars(d, upper), upper)
  {
    hide DigitChar;
    forall i | 0 <= i < |d|
      ensures var c := Chars(d, upper)[i]; if upper then !('a' <= c <= 'z') else !('A' <= c <= 'Z')
    {
      DigitCase(d[i], upper);
    }
  }

  lemma CaseJoin(s: string, t: string, upper: bool)
    requires CaseOk(t, upper) && (s == "" || s == "0" || s == if upper then "0X" else "0x")
    ensures CaseOk(s + t, upper) && CaseOk("0", upper) && CaseOk("", upper)
  {
  }

  lemma DigitCase(d: nat, upper: bool)
    requires d < 16
    ensures var c := DigitChar(d, upper); if upper then !('a' <= c <= 'z') else !('A' <= c <= 'Z')
  {
  }

  // ---- texts in a field

  /** r is s at one end of a field of w places, or longer if s is, and spaces fill
      the rest. */
  predicate InField(r: string, left: bool, w: nat, s: string) {
    && |r| == (if w > |s| then w else |s|)
    && if left then r[..|s|] == s && forall i :: |s| <= i < |r| ==> r[i] == ' '
       else r[|r| - |s|..] == s && forall i :: 0 <= i < |r| - |s| ==> r[i] == ' '
  }

  lemma Justified(left: bool, w: nat, s: string)
    ensures InField(Justify(left, w, s), left, w, s)
  {
  }

  lemma SameLength(mem: Memory, s: nat, l: nat)
    requires mem.Terminated() && mem.at(s + l) == '\0' && forall j :: s <= j < s + l ==> mem.at(j) != '\0'
    ensures StringLength(mem, s, mem.nul(s)) == l
  {
    var m := StringLength(mem, s, mem.nul(s));
    var x, y := mem.at(s + m), mem.at(s + l);
  }

  /** A pointer is sixteen small hexadecimal digits, in the kernel with an
      underscore after the eighth. */
  lemma PointerForm(kernel: bool, word: nat)
    ensures var s := PointerText(kernel, word);
            && CaseOk(s, false) && |s| == (if kernel then 17 else 16)
            && forall i :: 0 <= i < |s| ==> (s[i] == '_' <==> kernel && i == 8)
  {
    hide DigitChar;
    var d := LastDigits(16, 16, word);
    forall i | 0 <= i < |d| ensures var c := Chars(d, false)[i]; !('A' <= c <= 'Z') && c != '_' {
      DigitCase(d[i], false);
      NoUnderscore(d[i]);
    }
  }

  lemma NoUnderscore(d: nat)
    requires d < 16
    ensures DigitChar(d, false) != '_'
  {
  }
}
