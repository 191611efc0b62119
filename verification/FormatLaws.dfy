/** The conversion syntax of src/libc/printf.c:309-407 read from what was
    written: flags in any order, a width, a precision, a length and a letter;
    and what is then printed. */
module FormatLaws {
  import opened Numerals
  import opened PrintedNumbers
  import opened Formatter
  import opened PrintLaws

  /** A width or precision: digits, or a star for the next argument. */
  datatype Size = Absent | Given(n: nat) | Star

  /** s stands in t from index k on. */
  predicate Stands(t: string, k: nat, s: string) {
    k + |s| <= |t| && t[k..k + |s|] == s
  }

  function SizeText(z: Size): string {
    match z
    case Absent => ""
    case Given(n) => Chars(DigitsOf(10, n), false)
    case Star => "*"
  }

  function PrecisionText(z: Size): string {
    if z.Absent? then "" else "." + SizeText(z)
  }

  predicate IsLength(l: string) { l in ["", "hh", "h", "l", "ll", "j", "z", "t"] }

  predicate IsLetter(x: char) { x in "%csdioxXup" }

  /** A conversion as it is written behind the percent sign. */
  function Written(flags: string, w: Size, p: Size, l: string, x: char): string {
    flags + (SizeText(w) + (PrecisionText(p) + (l + [x])))
  }

  lemma StandsParts(t: string, k: nat, s: string, r: string)
    requires Stands(t, k, s + r)
    ensures Stands(t, k, s) && Stands(t, k + |s|, r)
  {
    assert t[k..k + |s|] == (s + r)[..|s|];
    assert t[k + |s|..k + |s| + |r|] == (s + r)[|s|..];
  }

  lemma StandsChar(t: string, k: nat, s: string, i: nat)
    requires Stands(t, k, s) && i < |s|
    ensures k + i < |t| && t[k + i] == s[i]
  {
    assert t[k..k + |s|][i] == s[i];
  }

  // ---- flags

  ghost predicate AllFlags(s: string) { forall c :: c in s ==> IsFlag(c) }

  /** f with the flags whose characters are in s. */
  function WithFlags(f: Flags, s: string): Flags {
    f.(padZero := f.padZero || '0' in s, sign := f.sign || '+' in s, space := f.space || ' ' in s,
       left := f.left || '-' in s, alt := f.alt || '#' in s)
  }

  lemma OneFlag(f: Flags, c: char, s: string)
    requires IsFlag(c)
    ensures WithFlags(WithFlag(f, c), s) == WithFlags(f, [c] + s)
  {
    hide IsFlag, WithFlag;
    FlagIs(f, c);
    InFront('0', c, s);
    InFront('+', c, s);
    InFront(' ', c, s);
    InFront('-', c, s);
    InFront('#', c, s);
  }

  lemma FlagIs(f: Flags, c: char)
    requires IsFlag(c)
    ensures WithFlag(f, c) ==
            f.(padZero := f.padZero || c == '0', sign := f.sign || c == '+', space := f.space || c == ' ',
               left := f.left || c == '-', alt := f.alt || c == '#')
  {
  }

  lemma InFront(x: char, c: char, s: string)
    ensures x in [c] + s <==> x == c || x in s
  {
    if x in s {
      var i :| 0 <= i < |s| && s[i] == x;
      assert ([c] + s)[i + 1] == x;
    }
    if x == c { assert ([c] + s)[0] == x; }
  }

  /** The flags are those whose characters stand there, in any order. */
  lemma {:induction false} FlagsRead(t: string, c: Conv, s: string)
    requires CString(t) && Stands(t, c.at, s) && AllFlags(s) && c.at + |s| < |t| && !IsFlag(t[c.at + |s|])
    ensures SkipFlags(t, c) == c.(at := c.at + |s|, f := WithFlags(c.f, s))
    decreases |s|
  {
    hide WithFlags, WithFlag, IsFlag;
    if s == "" {
      NoFlag(c.f);
    } else {
      StandsChar(t, c.at, s, 0);
      assert s == [s[0]] + s[1..] && s[0] in s;
      OneFlag(c.f, s[0], s[1..]);
      StandsParts(t, c.at, [s[0]], s[1..]);
      FlagsRead(t, c.(at := c.at + 1, f := WithFlag(c.f, s[0])), s[1..]);
    }
  }

  lemma NoFlag(f: Flags)
    ensures WithFlags(f, "") == f
  {
  }

  // ---- numbers

  lemma {:induction false} ValueGrows(b: nat, d: seq<nat>, e: seq<nat>)
    requires b > 0
    ensures Value(b, d) <= Value(b, d + e)
    decreases |e|
  {
    if e == [] {
      assert d + e == d;
    } else {
      var e' := e[..|e| - 1];
      assert d + e == d + e' + [e[|e| - 1]];
      ValueGrows(b, d, e');
      ValueAppend(b, d + e', e[|e| - 1]);
      Times(Value(b, d + e'), b);
    }
  }

  lemma Times(v: nat, b: nat)
    requires b > 0
    ensures v * b >= v
  {
    assert v * b == v + v * (b - 1);
  }

  lemma {:induction false} NumberRead(t: string, k: nat, done: seq<nat>, d: seq<nat>)
    requires CString(t) && (forall i :: 0 <= i < |d| ==> d[i] < 10) && Stands(t, k, Chars(d, false))
    requires k + |d| < |t| && !IsDigit(t[k + |d|]) && Value(10, done + d) < TWO_32
    ensures Number(t, k, Value(10, done)) == (k + |d|, Value(10, done + d))
    decreases |d|
  {
    hide Value, Chars, Number, Stands;
    NumberUnfold(t, k, Value(10, done));
    if d == [] {
      assert done + d == done;
    } else {
      FirstDigit(t, k, d);
      assert done + d == done + [d[0]] + d[1..];
      ValueGrows(10, done + [d[0]], d[1..]);
      ValueAppend(10, done, d[0]);
      NumberRead(t, k + 1, done + [d[0]], d[1..]);
    }
  }

  lemma NumberUnfold(t: string, k: nat, w: nat)
    requires CString(t) && k < |t|
    ensures Number(t, k, w) ==
            if IsDigit(t[k]) then Number(t, k + 1, (w * 10 + (t[k] as nat - 48)) % TWO_32) else (k, w)
  {
  }

  lemma FirstDigit(t: string, k: nat, d: seq<nat>)
    requires d != [] && (forall i :: 0 <= i < |d| ==> d[i] < 10) && Stands(t, k, Chars(d, false))
    ensures k < |t| && IsDigit(t[k]) && t[k] as nat - 48 == d[0] && Stands(t, k + 1, Chars(d[1..], false))
  {
    var s := Chars(d, false);
    StandsChar(t, k, s, 0);
    assert s == [s[0]] + s[1..] && s[1..] == Chars(d[1..], false);
    StandsParts(t, k, [s[0]], s[1..]);
  }

  /** The digits of a number, from zero. */
  lemma GivenRead(t: string, k: nat, n: nat)
    requires CString(t) && n < TWO_32 && Stands(t, k, SizeText(Given(n)))
    requires k + |SizeText(Given(n))| < |t| && !IsDigit(t[k + |SizeText(Given(n))|])
    ensures Number(t, k, 0) == (k + |SizeText(Given(n))|, n)
  {
    var d := DigitsOf(10, n);
    assert [] + d == d;
    ValueOfDigits(10, n);
    assert Value(10, []) == 0;
    NumberRead(t, k, [], d);
  }

  lemma SizeStart(z: Size)
    ensures SizeText(z) != "" ==> var c := SizeText(z)[0]; if z.Star? then c == '*' else '1' <= c <= '9'
  {
    if z.Given? { LeadingDigit(z.n); }
  }

  lemma {:induction false} LeadingDigit(n: nat)
    ensures n > 0 ==> DigitsOf(10, n)[0] > 0
    decreases n
  {
    if n > 0 {
      DivSmaller(n, 10);
      LeadingDigit(n / 10);
      if n / 10 == 0 { assert DigitsOf(10, n / 10) == []; }
    }
  }

  // ---- the whole conversion

  /** The number a size gives, and how many arguments it takes. */
  ghost function Amount(z: Size, env: Env, a: nat): int {
    match z
    case Absent => 0
    case Given(n) => n
    case Star => IntArg(env.args(a))
  }

  function Taken(z: Size): nat { if z.Star? then 1 else 0 }

  ghost predicate SizeOk(z: Size) { z.Given? ==> 0 < z.n < TWO_32 }

  lemma WidthRead(t: string, c: Conv, z: Size, env: Env)
    requires CString(t) && c.w == 0 && SizeOk(z) && Stands(t, c.at, SizeText(z))
    requires c.at + |SizeText(z)| < |t| && !IsDigit(t[c.at + |SizeText(z)|]) && t[c.at + |SizeText(z)|] != '*'
    ensures var n := Amount(z, env, c.a);
            ReadWidth(t, c, env) ==
            c.(at := c.at + |SizeText(z)|, a := c.a + Taken(z), w := if n < 0 then -n else n,
               f := c.f.(left := c.f.left || n < 0))
  {
    hide IntArg, DigitsOf, Chars;
    SizeStart(z);
    match z
    case Absent =>
    case Given(n) =>
      DigitsThere(n);
      StandsChar(t, c.at, SizeText(z), 0);
      GivenRead(t, c.at, n);
    case Star => StandsChar(t, c.at, "*", 0);
  }

  lemma DigitsThere(n: nat)
    ensures n > 0 ==> SizeText(Given(n)) != ""
  {
  }

  lemma PrecisionRead(t: string, c: Conv, z: Size, env: Env)
    requires CString(t) && c.p == 0 && (z.Given? ==> z.n < TWO_32) && Stands(t, c.at, PrecisionText(z))
    requires c.at + |PrecisionText(z)| < |t|
    requires var x := t[c.at + |PrecisionText(z)|]; !IsDigit(x) && x != '*' && x != '.'
    ensures var n := Amount(z, env, c.a);
            ReadPrecision(t, c, env) ==
            c.(at := c.at + |PrecisionText(z)|, a := c.a + Taken(z), p := if n < 0 then 0 else n,
               f := c.f.(prec := c.f.prec || !z.Absent?))
  {
    hide IntArg, SizeText, PrecisionText, Stands, Number;
    if !z.Absent? {
      PrecisionStart(t, c.at, z);
      if z.Given? { GivenRead(t, c.at + 1, z.n); }
    } else {
      assert PrecisionText(z) == "" by { NoPrecision(z); }
    }
  }

  lemma NoPrecision(z: Size)
    requires z.Absent?
    ensures PrecisionText(z) == ""
  {
  }

  lemma PrecisionStart(t: string, k: nat, z: Size)
    requires !z.Absent? && Stands(t, k, PrecisionText(z)) && k + |PrecisionText(z)| < |t| && t[k + |PrecisionText(z)|] != '*'
    ensures k + 1 < |t| && t[k] == '.' && Stands(t, k + 1, SizeText(z)) && |PrecisionText(z)| == 1 + |SizeText(z)|
    ensures if z.Star? then t[k + 1] == '*' && |SizeText(z)| == 1 else t[k + 1] != '*'
  {
    hide DigitsOf, Chars, Stands;
    SizeStart(z);
    StandsParts(t, k, ".", SizeText(z));
    StandsChar(t, k, ".", 0);
    if SizeText(z) != "" { StandsChar(t, k + 1, SizeText(z), 0); }
  }

  /** The range of the argument that a length asks for. */
  function LengthRange(l: string): (r: nat)
    ensures r > 0
  {
    match l
    case "" => TWO_32
    case "h" => 0x1_0000
    case "hh" => 0x100
    case _ => MAX_64 + 1
  }

  function LengthOf(l: string): Length {
    if l == "" then IntLength else if l == "h" then H else if l == "hh" then HH else if l == "l" then L else LL
  }

  lemma LengthRead(t: string, c: Conv, l: string, x: char)
    requires CString(t) && c.f.len.IntLength? && IsLength(l) && IsLetter(x) && Stands(t, c.at, l + [x])
    ensures var r := ReadLength(t, c);
            && r == c.(at := c.at + |l|, f := c.f.(len := r.f.len)) && Bits(r.f.len) == LengthRange(l) && t[r.at] == x
  {
    hide Stands, IsLetter, Bits, LengthRange, LengthOf, IsLength, ReadLength;
    LengthChars(t, c.at, l, x);
    LetterIsNoLength(x);
    LengthTaken(t, c, l);
    LengthBits(l);
  }

  lemma LengthTaken(t: string, c: Conv, l: string)
    requires CString(t) && c.f.len.IntLength? && IsLength(l) && c.at + |l| < |t| && t[c.at + |l|] !in "hljzt"
    requires |l| >= 1 ==> t[c.at] == l[0]
    requires |l| >= 2 ==> t[c.at + 1] == l[1]
    ensures ReadLength(t, c) == c.(at := c.at + |l|, f := c.f.(len := LengthOf(l)))
  {
    if |l| == 0 {
    } else if |l| == 1 {
      assert l == [l[0]];
    } else {
      assert l == [l[0], l[1]];
    }
  }

  lemma LengthBits(l: string)
    requires IsLength(l)
    ensures Bits(LengthOf(l)) == LengthRange(l)
  {
  }

  lemma LetterIsNoLength(x: char)
    requires IsLetter(x)
    ensures x !in "hljzt"
  {
  }

  lemma LengthChars(t: string, k: nat, l: string, x: char)
    requires IsLength(l) && Stands(t, k, l + [x])
    ensures k + |l| < |t| && t[k + |l|] == x
    ensures |l| >= 1 ==> t[k] == l[0]
    ensures |l| >= 2 ==> t[k + 1] == l[1]
  {
    hide IsLength;
    var s := l + [x];
    StandsChar(t, k, s, |l|);
    StandsChar(t, k, s, 0);
    if |l| >= 2 { StandsChar(t, k, s, 1); }
  }

  /** A conversion is read as it was written: its flags in any order, its width
      and precision, given or from the arguments, its length and its letter. */
  lemma ConversionRead(t: string, k: nat, a: nat, env: Env, flags: string, w: Size, p: Size, l: string, x: char)
    requires CString(t) && AllFlags(flags) && SizeOk(w) && (p.Given? ==> p.n < TWO_32) && IsLength(l) && IsLetter(x)
    requires Stands(t, k, Written(flags, w, p, l, x))
    ensures var c := Read(t, k, a, env);
            var m, n := Amount(w, env, a), Amount(p, env, a + Taken(w));
            && c.at == k + |Written(flags, w, p, l, x)| - 1 && t[c.at] == x && c.a == a + Taken(w) + Taken(p)
            && c.w == (if m < 0 then -m else m) && c.p == (if n < 0 then 0 else n)
            && c.f == Flags('0' in flags, '+' in flags, ' ' in flags, '-' in flags || m < 0, '#' in flags, !p.Absent?,
                            c.f.len, false)
            && Bits(c.f.len) == LengthRange(l)
  {
    hide IntArg, SkipFlags, ReadWidth, ReadPrecision, ReadLength, SizeText, Bits, LengthRange, IsLength, IsLetter, Stands,
      Written, WithFlags, PrecisionText, AllFlags, Amount, IsFlag, IsDigit;
    var k1, k2, k3 := PartsStand(t, k, flags, w, p, l, x);
    Follows(t, k1, k2, k3, w, p, l, x);
    var c0 := Conv(k, a, NO_FLAGS, 0, 0);
    FlagsRead(t, c0, flags);
    FirstFlags(flags);
    var c1 := SkipFlags(t, c0);
    WidthRead(t, c1, w, env);
    var c2 := ReadWidth(t, c1, env);
    PrecisionRead(t, c2, p, env);
    LengthRead(t, ReadPrecision(t, c2, env), l, x);
  }

  lemma FirstFlags(flags: string)
    ensures WithFlags(NO_FLAGS, flags) ==
            Flags('0' in flags, '+' in flags, ' ' in flags, '-' in flags, '#' in flags, false, IntLength, false)
  {
  }

  /** Where the parts of a conversion stand. */
  lemma PartsStand(t: string, k: nat, flags: string, w: Size, p: Size, l: string, x: char)
    returns (k1: nat, k2: nat, k3: nat)
    requires Stands(t, k, Written(flags, w, p, l, x))
    ensures k1 == k + |flags| && k2 == k1 + |SizeText(w)| && k3 == k2 + |PrecisionText(p)|
    ensures k3 + |l| == k + |Written(flags, w, p, l, x)| - 1 < |t|
    ensures Stands(t, k, flags) && Stands(t, k1, SizeText(w)) && Stands(t, k2, PrecisionText(p)) && Stands(t, k3, l + [x])
  {
    hide SizeText, PrecisionText, Stands;
    var tail := PrecisionText(p) + (l + [x]);
    StandsParts(t, k, flags, SizeText(w) + tail);
    k1 := k + |flags|;
    StandsParts(t, k1, SizeText(w), tail);
    k2 := k1 + |SizeText(w)|;
    StandsParts(t, k2, PrecisionText(p), l + [x]);
    k3 := k2 + |PrecisionText(p)|;
    StandsChar(t, k3, l + [x], |l|);
  }

  /** No part of a conversion is taken for more of the part before it. */
  lemma Follows(t: string, k1: nat, k2: nat, k3: nat, w: Size, p: Size, l: string, x: char)
    requires IsLength(l) && IsLetter(x) && SizeOk(w)
    requires Stands(t, k1, SizeText(w)) && Stands(t, k2, PrecisionText(p)) && Stands(t, k3, l + [x])
    requires k2 == k1 + |SizeText(w)| && k3 == k2 + |PrecisionText(p)|
    ensures k3 < |t| && (var c := t[k3]; !IsDigit(c) && c != '*' && c != '.' && !IsFlag(c))
    ensures k2 < |t| && (var c := t[k2]; !IsDigit(c) && c != '*' && !IsFlag(c))
    ensures k1 < |t| && !IsFlag(t[k1])
  {
    hide SizeText, IsLength, IsLetter, IsDigit, IsFlag;
    LengthFirst(l, x);
    DotFree();
    StandsChar(t, k3, l + [x], 0);
    if !p.Absent? { StandsChar(t, k2, PrecisionText(p), 0); }
    if SizeText(w) != "" {
      SizeFree(w);
      StandsChar(t, k1, SizeText(w), 0);
    }
  }

  lemma LengthFirst(l: string, x: char)
    requires IsLength(l) && IsLetter(x)
    ensures var c := (l + [x])[0]; !IsDigit(c) && c != '*' && c != '.' && !IsFlag(c)
  {
    if l == "" { assert (l + [x])[0] == x; } else { assert (l + [x])[0] == l[0]; }
  }

  lemma DotFree()
    ensures !IsDigit('.') && !IsFlag('.')
  {
  }

  lemma SizeFree(z: Size)
    requires SizeOk(z) && SizeText(z) != ""
    ensures !IsFlag(SizeText(z)[0])
  {
    hide SizeText;
    SizeStart(z);
  }

  // ---- what is printed for it

  /** Wherever an integer conversion stands in a format, what is printed for it
      reads back as its argument, brought into its range, exactly under the
      condition of IntegerReads; and so for its sign. */
  lemma IntegerPiece(t: string, st: nat, a: nat, env: Env, cb: bool)
    requires CString(t) && st + 1 < |t| && t[st] == '%' && env.mem.Terminated()
    requires IsInteger(t[Read(t, st + 1, a, env).at])
    ensures var c := Read(t, st + 1, a, env);
            var x, ps := t[c.at], Pieces(t, st, a, env, cb);
            && ps != [] && ps == [ps[0]] + Pieces(t, c.at + 1, c.a + 1, env, cb)
            && Shows(x, c.f, c.p, Printable(x, c.f.len, env.args(c.a)), ps[0].text)
  {
    hide Read, IntegerText, StringText, PointerText, Printable, Shows;
    var c := Read(t, st + 1, a, env);
    var x := t[c.at];
    IntegerReads(c, x, env.args(c.a));
    assert Step(t, st, a, env, cb).piece.text == IntegerText(c, x, env.args(c.a));
  }

  /** A character conversion prints the low byte of its argument at one end of
      its width, in spaces; a pass that only measures leaves the argument. */
  lemma CharPiece(t: string, st: nat, a: nat, env: Env, cb: bool)
    requires CString(t) && st + 1 < |t| && t[st] == '%' && env.mem.Terminated()
    requires t[Read(t, st + 1, a, env).at] == 'c'
    ensures var c, ps := Read(t, st + 1, a, env), Pieces(t, st, a, env, cb);
            && ps != [] && ps == [ps[0]] + Pieces(t, c.at + 1, if cb then c.a + 1 else c.a, env, cb)
            && InField(ps[0].text, c.f.left, c.w, [(env.args(c.a) % 256) as char])
  {
    hide Read, IntegerText, StringText, PointerText, Justify;
    var c := Read(t, st + 1, a, env);
    Justified(c.f.left, c.w, [(env.args(c.a) % 256) as char]);
  }

  /** A string conversion prints the characters its argument points to, as many
      as the precision says or up to the first NUL, in its width; and (null) for
      a null pointer, whatever the width. */
  lemma StringPiece(t: string, st: nat, a: nat, env: Env, cb: bool, s: string)
    requires CString(t) && st + 1 < |t| && t[st] == '%' && env.mem.Terminated()
    requires t[Read(t, st + 1, a, env).at] == 's'
    requires var c := Read(t, st + 1, a, env);
             Pointed(env.mem, env.args(c.a), s) && if c.f.prec then |s| == c.p else Ended(env.mem, env.args(c.a), s)
    ensures var c, ps := Read(t, st + 1, a, env), Pieces(t, st, a, env, cb);
            && ps != [] && ps == [ps[0]] + Pieces(t, c.at + 1, c.a + 1, env, cb)
            && if env.args(c.a) == 0 then ps[0].text == "(null)" else InField(ps[0].text, c.f.left, c.w, s)
  {
    hide Read, IntegerText, PointerText, Justify, StringLength;
    var c := Read(t, st + 1, a, env);
    var p := env.args(c.a);
    assert Bytes(env.mem, p, |s|) == s;
    Justified(c.f.left, c.w, s);
    if !c.f.prec { SameLength(env.mem, p, |s|); }
  }

  /** s stands in memory from p on. */
  ghost predicate Pointed(mem: Memory, p: nat, s: string) {
    forall i :: 0 <= i < |s| ==> s[i] == mem.at(p + i)
  }

  /** And a NUL after it, the first. */
  ghost predicate Ended(mem: Memory, p: nat, s: string) {
    mem.at(p + |s|) == '\0' && forall j :: p <= j < p + |s| ==> mem.at(j) != '\0'
  }

  /** A pointer conversion prints a text whose digits are those of its argument. */
  lemma PointerPiece(t: string, st: nat, a: nat, env: Env, cb: bool)
    requires CString(t) && st + 1 < |t| && t[st] == '%' && env.mem.Terminated()
    requires t[Read(t, st + 1, a, env).at] == 'p' && env.args(Read(t, st + 1, a, env).a) <= MAX_64
    ensures var c, ps := Read(t, st + 1, a, env), Pieces(t, st, a, env, cb);
            && ps != [] && ps == [ps[0]] + Pieces(t, c.at + 1, c.a + 1, env, cb)
            && (var s := ps[0].text;
                && |s| == (if env.kernel then 17 else 16)
                && Value(16, ReadDigits(if env.kernel then s[..8] + s[9..] else s)) == env.args(c.a))
  {
    hide Read, IntegerText, StringText, PointerText, Value, ReadDigits;
    var c := Read(t, st + 1, a, env);
    PointerReadsBack(env.kernel, env.args(c.a));
  }

  ghost predicate NoNul(s: string) { forall i :: 0 <= i < |s| ==> s[i] != '\0' }

  lemma WrittenNoNul(flags: string, w: Size, p: Size, l: string, x: char)
    requires AllFlags(flags) && IsLength(l) && IsLetter(x)
    ensures NoNul(Written(flags, w, p, l, x))
  {
    hide SizeText, DigitsOf;
    forall i | 0 <= i < |flags| ensures flags[i] != '\0' { assert flags[i] in flags && IsFlag(flags[i]); }
    SizeNoNul(w);
    SizeNoNul(p);
    Joins(l, [x]);
    Joins(".", SizeText(p));
    Joins(PrecisionText(p), l + [x]);
    Joins(SizeText(w), PrecisionText(p) + (l + [x]));
    Joins(flags, SizeText(w) + (PrecisionText(p) + (l + [x])));
  }

  lemma SizeNoNul(z: Size)
    ensures NoNul(SizeText(z))
  {
    hide DigitsOf;
    if z.Given? {
      var d := DigitsOf(10, z.n);
      forall i | 0 <= i < |d| ensures Chars(d, false)[i] != '\0' { assert d[i] < 10; }
    }
  }

  lemma Joins(s: string, r: string)
    ensures NoNul(s) && NoNul(r) ==> NoNul(s + r)
  {
  }

  /** A format of one integer conversion prints its argument, brought into the
      range its length asks for: read in its base, the output is that number
      exactly when it is not 2^64-1 in base ten and no zeros follow its
      digits. */
  lemma PrintedAlone(flags: string, w: Size, p: Size, l: string, x: char, env: Env, cb: bool)
    requires AllFlags(flags) && SizeOk(w) && (p.Given? ==> p.n < TWO_32) && IsLength(l) && IsInteger(x)
    requires env.mem.Terminated()
    ensures var t := "%" + Written(flags, w, p, l, x) + "\0";
            CString(t) &&
            (var c, word := Read(t, 1, 0, env), env.args(Taken(w) + Taken(p));
             var n := Printable(x, c.f.len, word);
             BroughtInto(x, LengthRange(l), word, n) && Shows(x, c.f, c.p, n, Text(Pieces(t, 0, 0, env, cb))))
  {
    hide Written, Read, Printable, Shows, BroughtInto, IntArg, Text, Pieces, Bits, LengthRange, IsLength, AllFlags, SizeOk;
    IntegerLetter(x);
    var t := AsFormat(flags, w, p, l, x);
    ConversionRead(t, 1, 0, env, flags, w, p, l, x);
    var c := Read(t, 1, 0, env);
    IntegerPiece(t, 0, 0, env, cb);
    PrintableIs(x, c.f.len, env.args(c.a));
    NoMorePieces(t, c.at + 1, c.a + 1, env, cb);
    OnePiece(Pieces(t, 0, 0, env, cb));
  }

  lemma IntegerLetter(x: char)
    requires IsInteger(x)
    ensures IsLetter(x)
  {
  }

  lemma AsFormat(flags: string, w: Size, p: Size, l: string, x: char) returns (t: string)
    requires AllFlags(flags) && IsLength(l) && IsLetter(x)
    ensures t == "%" + Written(flags, w, p, l, x) + "\0" && CString(t) && t[0] == '%'
    ensures Stands(t, 1, Written(flags, w, p, l, x)) && |t| == |Written(flags, w, p, l, x)| + 2
  {
    hide Written;
    WrittenNoNul(flags, w, p, l, x);
    var s := Written(flags, w, p, l, x);
    t := "%" + s + "\0";
    forall k | 0 <= k < |t| - 1 ensures t[k] != '\0' { if k > 0 { assert t[k] == s[k - 1]; } }
    assert t[1..1 + |s|] == s;
  }

  lemma OnePiece(ps: seq<Piece>)
    requires |ps| == 1
    ensures Text(ps) == ps[0].text
  {
    assert ps[..0] == [];
    assert Text([]) + ps[0].text == ps[0].text;
  }

  // ---- the rest of a format

  lemma {:induction false} TextFirst(p: Piece, ps: seq<Piece>)
    ensures Text([p] + ps) == p.text + Text(ps)
  {
    hide Text;
    TextUnfold([p] + ps);
    TextUnfold(ps);
    if ps == [] {
      OnePiece([p]);
      assert [p] + ps == [p] && p.text + "" == p.text;
    } else {
      var n := |ps| - 1;
      TextFirst(p, ps[..n]);
      assert ([p] + ps)[..|ps|] == [p] + ps[..n];
      assert p.text + Text(ps[..n]) + ps[n].text == p.text + (Text(ps[..n]) + ps[n].text);
    }
  }

  lemma TextUnfold(ps: seq<Piece>)
    ensures Text(ps) == if ps == [] then "" else Text(ps[..|ps| - 1]) + ps[|ps| - 1].text
  {
  }

  /** Text without a percent sign is printed as it stands, and the arguments wait
      for what follows it. */
  lemma {:induction false} LiteralPrinted(t: string, k: nat, s: string, a: nat, env: Env, cb: bool)
    requires CString(t) && k + |s| < |t| && Stands(t, k, s) && '%' !in s && env.mem.Terminated()
    ensures Text(Pieces(t, k, a, env, cb)) == s + Text(Pieces(t, k + |s|, a, env, cb))
    decreases |s|
  {
    hide Convert, Text;
    if s != [] {
      assert t[k] == s[0] && t[k + 1..k + |s|] == s[1..];
      LiteralPrinted(t, k + 1, s[1..], a, env, cb);
      var n := Step(t, k, a, env, cb);
      TextFirst(n.piece, Pieces(t, k + 1, a, env, cb));
      assert s == [s[0]] + s[1..];
    }
  }

  /** Two percent signs print one. */
  lemma PercentPrinted(t: string, k: nat, a: nat, env: Env, cb: bool)
    requires CString(t) && k + 2 < |t| && Stands(t, k, "%%") && env.mem.Terminated()
    ensures Text(Pieces(t, k, a, env, cb)) == "%" + Text(Pieces(t, k + 2, a, env, cb))
  {
    hide Text, Read, IntegerText, StringText, PointerText;
    assert t[k] == '%' && t[k + 1] == '%';
    BareRead(t, k + 1, a, env);
    TextFirst(Step(t, k, a, env, cb).piece, Pieces(t, k + 2, a, env, cb));
  }

  lemma BareRead(t: string, k: nat, a: nat, env: Env)
    requires CString(t) && k + 1 < |t| && t[k] == '%'
    ensures var c := Read(t, k, a, env); c.at == k && c.a == a
  {
    assert "" + ("" + ("" + ("" + ['%']))) == "%";
    assert t[k..k + 1] == "%";
    ConversionRead(t, k, a, env, "", Absent, Absent, "", '%');
  }
}
