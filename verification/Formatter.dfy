/** Formatted output of src/libc/printf.c:292-576: the conversion syntax, what
    each conversion prints, and the loop over the format with either callback
    missing. Arguments are a stream of 64-bit words. */
module Formatter {
  import opened Division
  import opened Numerals
  import opened PrintedNumbers

  const TWO_32: nat := 0x1_0000_0000

  /** Memory a string argument points into: nul gives a NUL at or after each
      address. */
  datatype Memory = Memory(at: nat -> char, nul: nat -> nat) {
    ghost predicate Terminated() {
      forall s: nat :: s <= nul(s) && at(nul(s)) == '\0'
    }
  }

  datatype Env = Env(kernel: bool, mem: Memory, args: nat -> nat)

  /** A C string: one NUL, at the end. */
  ghost predicate CString(t: string) {
    |t| > 0 && t[|t| - 1] == '\0' && forall k :: 0 <= k < |t| - 1 ==> t[k] != '\0'
  }

  /** The signed number in the low bits of a word. */
  function Signed(word: nat, modulus: nat): int
    requires modulus > 0
  {
    var x := word % modulus;
    if x >= modulus / 2 then x - modulus else x
  }

  function IntArg(word: nat): int { Signed(word, TWO_32) }

  // ---- conversion syntax

  /** A conversion read so far: the index of the next character and argument. */
  datatype Conv = Conv(at: nat, a: nat, f: Flags, w: nat, p: nat)

  const NO_FLAGS := Flags(false, false, false, false, false, false, IntLength, false)

  predicate IsFlag(c: char) { c in "0+ -#" }

  function WithFlag(f: Flags, c: char): Flags {
    match c
    case '0' => f.(padZero := true)
    case '+' => f.(sign := true)
    case ' ' => f.(space := true)
    case '-' => f.(left := true)
    case _ => f.(alt := true)
  }

  predicate IsDigit(c: char) { '0' <= c <= '9' }

  ghost function SkipFlags(t: string, c: Conv): (r: Conv)
    requires CString(t) && c.at < |t|
    ensures c.at <= r.at < |t| && r.a == c.a
    decreases |t| - c.at
  {
    if IsFlag(t[c.at]) then SkipFlags(t, c.(at := c.at + 1, f := WithFlag(c.f, t[c.at]))) else c
  }

  /** Decimal digits from k on, accumulated in 32 bits. */
  ghost function Number(t: string, k: nat, w: nat): (r: (nat, nat))
    requires CString(t) && k < |t|
    ensures k <= r.0 < |t|
    decreases |t| - k
  {
    if IsDigit(t[k]) then Number(t, k + 1, (w * 10 + (t[k] as nat - 48)) % TWO_32) else (k, w)
  }

  ghost function ReadWidth(t: string, c: Conv, env: Env): (r: Conv)
    requires CString(t) && c.at < |t|
    ensures c.at <= r.at < |t|
  {
    if t[c.at] == '*' then
      var a := IntArg(env.args(c.a));
      c.(at := c.at + 1, a := c.a + 1, w := if a < 0 then -a else a, f := c.f.(left := c.f.left || a < 0))
    else
      var n := Number(t, c.at, c.w);
      c.(at := n.0, w := n.1)
  }

  ghost function ReadPrecision(t: string, c: Conv, env: Env): (r: Conv)
    requires CString(t) && c.at < |t|
    ensures c.at <= r.at < |t|
  {
    if t[c.at] != '.' then c
    else if t[c.at + 1] == '*' then
      var a := IntArg(env.args(c.a));
      c.(at := c.at + 2, a := c.a + 1, p := if a < 0 then 0 else a, f := c.f.(prec := true))
    else
      var n := Number(t, c.at + 1, c.p);
      c.(at := n.0, p := n.1, f := c.f.(prec := true))
  }

  ghost function ReadLength(t: string, c: Conv): (r: Conv)
    requires CString(t) && c.at < |t|
    ensures c.at <= r.at < |t|
  {
    var x := t[c.at];
    if x == 'h' then
      if t[c.at + 1] == 'h' then c.(at := c.at + 2, f := c.f.(len := HH)) else c.(at := c.at + 1, f := c.f.(len := H))
    else if x == 'l' then
      if t[c.at + 1] == 'l' then c.(at := c.at + 2, f := c.f.(len := LL)) else c.(at := c.at + 1, f := c.f.(len := L))
    else if x == 'j' || x == 'z' || x == 't' then c.(at := c.at + 1, f := c.f.(len := LL))
    else c
  }

  /** The conversion whose '%' is before index k. */
  ghost function Read(t: string, k: nat, a: nat, env: Env): (r: Conv)
    requires CString(t) && k < |t|
    ensures k <= r.at < |t|
  {
    ReadLength(t, ReadPrecision(t, ReadWidth(t, SkipFlags(t, Conv(k, a, NO_FLAGS, 0, 0)), env), env))
  }

  method ReadNumber(t: string, k: nat) returns (j: nat, w: nat)
    requires CString(t) && k < |t|
    ensures (j, w) == Number(t, k, 0)
  {
    j, w := k, 0;
    while IsDigit(t[j])
      invariant k <= j < |t| && Number(t, j, w) == Number(t, k, 0)
      decreases |t| - j
    {
      w := (w * 10 + (t[j] as nat - 48)) % TWO_32;
      j := j + 1;
    }
  }

  /** Reads a conversion; no index reaches past the terminator. */
  method ReadConversion(t: string, k: nat, a: nat, env: Env) returns (c: Conv)
    requires CString(t) && k < |t|
    ensures c == Read(t, k, a, env) && k <= c.at < |t|
  {
    hide IntArg;
    c := Conv(k, a, NO_FLAGS, 0, 0);
    while IsFlag(t[c.at])
      invariant c.at < |t| && c.w == c.p == 0
      invariant SkipFlags(t, c) == SkipFlags(t, Conv(k, a, NO_FLAGS, 0, 0))
      decreases |t| - c.at
    {
      c := c.(at := c.at + 1, f := WithFlag(c.f, t[c.at]));
    }
    c := TakeWidth(t, c, env);
    c := TakePrecision(t, c, env);
    c := TakeLength(t, c);
  }

  method TakeWidth(t: string, c: Conv, env: Env) returns (r: Conv)
    requires CString(t) && c.at < |t| && c.w == 0
    ensures r == ReadWidth(t, c, env) && r.p == c.p
  {
    hide IntArg;
    r := c;
    if t[r.at] == '*' {
      var a := IntArg(env.args(r.a));
      r := r.(a := r.a + 1);
      if a < 0 {
        r := r.(f := r.f.(left := true));
        a := -a;
      }
      r := r.(w := a, at := r.at + 1);
    } else {
      var j, w := ReadNumber(t, r.at);
      r := r.(at := j, w := w);
    }
  }

  method TakePrecision(t: string, c: Conv, env: Env) returns (r: Conv)
    requires CString(t) && c.at < |t| && c.p == 0
    ensures r == ReadPrecision(t, c, env)
  {
    hide IntArg;
    r := c;
    if t[r.at] == '.' {
      r := r.(f := r.f.(prec := true), at := r.at + 1);
      if t[r.at] == '*' {
        var a := IntArg(env.args(r.a));
        r := r.(a := r.a + 1);
        if a < 0 { a := 0; }
        r := r.(p := a, at := r.at + 1);
      } else {
        var j, p := ReadNumber(t, r.at);
        r := r.(at := j, p := p);
      }
    }
  }

  method TakeLength(t: string, c: Conv) returns (r: Conv)
    requires CString(t) && c.at < |t|
    ensures r == ReadLength(t, c)
  {
    r := c;
    if t[r.at] == 'h' {
      r := r.(at := r.at + 1);
      if t[r.at] == 'h' {
        r := r.(f := r.f.(len := HH), at := r.at + 1);
      } else {
        r := r.(f := r.f.(len := H));
      }
    } else if t[r.at] == 'l' {
      r := r.(at := r.at + 1);
      if t[r.at] == 'l' {
        r := r.(f := r.f.(len := LL), at := r.at + 1);
      } else {
        r := r.(f := r.f.(len := L));
      }
    } else if t[r.at] == 'j' || t[r.at] == 'z' || t[r.at] == 't' {
      r := r.(f := r.f.(len := LL), at := r.at + 1);
    }
  }

  // ---- what a conversion prints

  /** Plain pieces return their length; a padded character counts once, a
      pointer always sixteen. */
  datatype Kind = Plain | Padded | Pointer

  datatype Piece = Piece(text: string, ret: nat, kind: Kind)

  /** A piece and where the format and the arguments go on. */
  datatype Next = Next(piece: Piece, k: nat, a: nat)

  function Justify(left: bool, w: nat, s: string): (r: string)
    ensures |r| == if w > |s| then w else |s|
  {
    var pad := Repeat(' ', Monus(w, |s|));
    if left then s + pad else pad + s
  }

  ghost function StringLength(mem: Memory, s: nat, z: nat): (l: nat)
    requires s <= z && mem.at(z) == '\0'
    ensures mem.at(s + l) == '\0' && forall j :: s <= j < s + l ==> mem.at(j) != '\0'
    decreases z - s
  {
    if mem.at(s) == '\0' then 0 else 1 + StringLength(mem, s + 1, z)
  }

  function Bytes(mem: Memory, s: nat, l: nat): (r: string)
    ensures |r| == l
  {
    seq(l, i requires 0 <= i => mem.at(s + i))
  }

  ghost function StringText(c: Conv, env: Env, s: nat): string
    requires env.mem.Terminated()
  {
    if s == 0 then "(null)"
    else
      var l := if c.f.prec then c.p else StringLength(env.mem, s, env.mem.nul(s));
      Justify(c.f.left, c.w, Bytes(env.mem, s, l))
  }

  function SignedValue(len: Length, word: nat): int {
    match len
    case HH => Signed(word, 0x100)
    case H => Signed(word, 0x1_0000)
    case IntLength => Signed(word, TWO_32)
    case _ => Signed(word, MAX_64 + 1)
  }

  function UnsignedValue(len: Length, word: nat): (n: nat)
    ensures n <= MAX_64
  {
    match len
    case HH => word % 0x100
    case H => word % 0x1_0000
    case IntLength => word % TWO_32
    case _ => word % (MAX_64 + 1)
  }

  predicate IsInteger(x: char) { x in "dioxXu" }

  function IntegerText(c: Conv, x: char, word: nat): string
    requires IsInteger(x)
  {
    var f := if x == 'X' then c.f.(upper := true) else c.f;
    if x == 'd' || x == 'i' then
      var n := SignedValue(f.len, word);
      SignText(f, n < 0) + UIntText(f, 10, if n < 0 then -n else n, c.p)
    else
      SignText(f, false) + UIntText(f, if x == 'o' then 8 else if x == 'u' then 10 else 16, UnsignedValue(f.len, word), c.p)
  }

  /** Sixteen hexadecimal digits; the kernel splits them with an underscore. */
  function PointerText(kernel: bool, word: nat): (s: string)
    ensures |s| == if kernel then 17 else 16
  {
    var d := Chars(LastDigits(16, 16, word), false);
    if kernel then d[..8] + "_" + d[8..] else d
  }

  /** The piece of the '%' at index st. Without a write callback a character
      conversion leaves its argument where it is. An unknown conversion prints
      the '%' and goes on right after it, keeping the arguments its stars
      took. */
  ghost function Convert(t: string, st: nat, a: nat, env: Env, cb: bool): (n: Next)
    requires CString(t) && st + 1 < |t| && env.mem.Terminated()
    ensures st < n.k < |t|
  {
    var c := Read(t, st + 1, a, env);
    var x := t[c.at];
    var word := env.args(c.a);
    if x == '%' then Next(Piece("%", 1, Plain), c.at + 1, c.a)
    else if x == 'c' then
      var text := Justify(c.f.left, c.w, [(word % 256) as char]);
      Next(Piece(text, 1, Padded), c.at + 1, if cb then c.a + 1 else c.a)
    else if x == 's' then
      var text := StringText(c, env, word);
      Next(Piece(text, |text|, Plain), c.at + 1, c.a + 1)
    else if IsInteger(x) then
      var text := IntegerText(c, x, word);
      Next(Piece(text, |text|, Plain), c.at + 1, c.a + 1)
    else if x == 'p' then Next(Piece(PointerText(env.kernel, word), 16, Pointer), c.at + 1, c.a + 1)
    else Next(Piece("%", 1, Plain), st + 1, c.a)
  }

  ghost function Step(t: string, k: nat, a: nat, env: Env, cb: bool): (n: Next)
    requires CString(t) && k < |t| - 1 && env.mem.Terminated()
    ensures k < n.k < |t|
  {
    if t[k] != '%' then Next(Piece([t[k]], 1, Plain), k + 1, a) else Convert(t, k, a, env, cb)
  }

  /** The pieces of the format from index k and argument a on. */
  ghost function Pieces(t: string, k: nat, a: nat, env: Env, cb: bool): seq<Piece>
    requires CString(t) && k < |t| && env.mem.Terminated()
    decreases |t| - k
  {
    if t[k] == '\0' then []
    else
      var n := Step(t, k, a, env, cb);
      [n.piece] + Pieces(t, n.k, n.a, env, cb)
  }

  function Text(ps: seq<Piece>): string {
    if ps == [] then "" else Text(ps[..|ps| - 1]) + ps[|ps| - 1].text
  }

  /** The running count of __vprintf_raw over the pieces. */
  function Returned(ps: seq<Piece>): nat {
    if ps == [] then 0 else Returned(ps[..|ps| - 1]) + ps[|ps| - 1].ret
  }

  // ---- the code

  /** Padding before or after one character. */
  method EmitChar(ctx: Context, c: Conv, word: nat) returns (i: nat)
    requires ctx.Balanced()
    modifies ctx`sz, ctx`out
    ensures ctx.Balanced() && i == 1
    ensures ctx.Emits(old(ctx.sz), old(ctx.out), Justify(c.f.left, c.w, [(word % 256) as char]))
  {
    hide Repeat;
    var w := if c.w == 0 then 1 else c.w;
    ctx.Reserve(w);
    if ctx.cb {
      var x := (word % 256) as char;
      w := w - 1;
      assert w == Monus(c.w, 1);
      Associative(ctx.out, if c.f.left then [x] else Repeat(' ', w), if c.f.left then Repeat(' ', w) else [x]);
      if !c.f.left { ctx.WriteMany(' ', w); }
      ctx.Write(x);
      if c.f.left { ctx.WriteMany(' ', w); }
    }
    i := 1;
  }

  method WriteBytes(ctx: Context, mem: Memory, s: nat, l: nat)
    requires ctx.cb && (ctx.rs ==> |ctx.out| + l <= ctx.sz)
    modifies ctx`out
    ensures ctx.out == old(ctx.out) + Bytes(mem, s, l)
  {
    var j: nat := l;
    while j > 0
      invariant j <= l && ctx.out == old(ctx.out) + Bytes(mem, s, l - j)
    {
      ctx.Write(mem.at(s + (l - j)));
      j := j - 1;
    }
  }

  method CountString(mem: Memory, s: nat) returns (l: nat)
    requires mem.Terminated()
    ensures l == StringLength(mem, s, mem.nul(s))
  {
    l := 0;
    ghost var z := mem.nul(s);
    while mem.at(s + l) != '\0'
      invariant s + l <= z && StringLength(mem, s, z) == l + StringLength(mem, s + l, z)
      decreases z - s - l
    {
      l := l + 1;
    }
  }

  /** Writes the six characters of a missing string one by one. */
  method EmitNull(ctx: Context) returns (i: nat)
    requires ctx.Balanced()
    modifies ctx`sz, ctx`out
    ensures ctx.Balanced() && i == 6 && ctx.Emits(old(ctx.sz), old(ctx.out), "(null)")
  {
    ctx.Reserve(6);
    if ctx.cb {
      ctx.Write('(');
      ctx.Write('n');
      ctx.Write('u');
      ctx.Write('l');
      ctx.Write('l');
      ctx.Write(')');
    }
    i := 6;
  }

  method EmitString(ctx: Context, c: Conv, env: Env, s: nat) returns (i: nat)
    requires ctx.Balanced() && env.mem.Terminated()
    modifies ctx`sz, ctx`out
    ensures ctx.Balanced() && i == |StringText(c, env, s)|
    ensures ctx.Emits(old(ctx.sz), old(ctx.out), StringText(c, env, s))
  {
    hide Repeat, Bytes;
    if s == 0 {
      i := EmitNull(ctx);
      return;
    }
    var l := c.p;
    if !c.f.prec {
      l := CountString(env.mem, s);
    }
    i := if l > c.w then l else c.w;
    ctx.Reserve(i);
    var w := if c.w < l then 0 else c.w - l;
    if ctx.cb {
      ghost var x, z := Bytes(env.mem, s, l), Repeat(' ', w);
      assert w == Monus(c.w, l);
      Associative(ctx.out, if c.f.left then x else z, if c.f.left then z else x);
      if !c.f.left { ctx.WriteMany(' ', w); }
      WriteBytes(ctx, env.mem, s, l);
      if c.f.left { ctx.WriteMany(' ', w); }
    }
  }

  method EmitInteger(ctx: Context, c: Conv, x: char, word: nat) returns (i: nat)
    requires ctx.Balanced() && IsInteger(x)
    modifies ctx`sz, ctx`out
    ensures ctx.Balanced() && i == |IntegerText(c, x, word)|
    ensures ctx.Emits(old(ctx.sz), old(ctx.out), IntegerText(c, x, word))
  {
    hide UIntText, SignText, SignedValue, UnsignedValue;
    var f := c.f;
    if x == 'X' { f := f.(upper := true); }
    var n: nat;
    ghost var negative := false;
    if x == 'd' || x == 'i' {
      SignedFits(f.len, word);
      var sn := SignedValue(f.len, word);
      negative := sn < 0;
      i := HandleSign(ctx, f, sn < 0);
      n := if sn < 0 then -sn else sn;
    } else {
      n := UnsignedValue(f.len, word);
      i := HandleSign(ctx, f, false);
    }
    var b := if x == 'o' then 8 else if x == 'x' || x == 'X' then 16 else 10;
    Associative(old(ctx.out), SignText(f, negative), UIntText(f, b, n, c.p));
    assert IntegerText(c, x, word) == SignText(f, negative) + UIntText(f, b, n, c.p);
    var k := WriteUint(ctx, f, b, n, c.p);
    i := i + k;
  }

  lemma SignedFits(len: Length, word: nat)
    ensures -(MAX_64 as int) <= SignedValue(len, word) <= MAX_64
  {
  }

  /** The digit at shift 4j, with an underscore before bit 28 in the kernel. */
  method EmitDigit(ctx: Context, kernel: bool, word: nat, j: nat)
    requires j < 16 && ctx.cb && (ctx.rs ==> |ctx.out| + (if kernel && j == 7 then 2 else 1) <= ctx.sz)
    modifies ctx`out
    ensures ctx.out == old(ctx.out) + DigitText(kernel, word, j)
  {
    hide Pow;
    if kernel && j == 7 {
      ctx.Write('_');
    }
    ctx.Write(DigitChar(word / Pow(16, j) % 16, false));
  }

  method EmitPointer(ctx: Context, kernel: bool, word: nat) returns (i: nat)
    requires ctx.Balanced()
    modifies ctx`sz, ctx`out
    ensures ctx.Balanced() && i == 16 && ctx.Emits(old(ctx.sz), old(ctx.out), PointerText(kernel, word))
  {
    hide PointerText, PointerPart, DigitText;
    i := 16;
    ctx.Reserve(if kernel then 17 else 16);
    PointerEnds(kernel, word);
    if ctx.cb {
      var j: nat := 16;
      ghost var was := ctx.out;
      ghost var size := ctx.sz;
      while j > 0
        invariant ctx.sz == size
        invariant j <= 16 && ctx.out == was + PointerPart(kernel, word, j)
      {
        j := j - 1;
        PointerDigit(kernel, word, j);
        Associative(was, PointerPart(kernel, word, j + 1), DigitText(kernel, word, j));
        EmitDigit(ctx, kernel, word, j);
      }
    }
  }

  function DigitText(kernel: bool, word: nat, j: nat): (s: string)
    ensures |s| == if kernel && j == 7 then 2 else 1
  {
    var d := DigitChar(word / Pow(16, j) % 16, false);
    if kernel && j == 7 then ['_', d] else [d]
  }

  /** A word without its last j hexadecimal digits. */
  function Upper(word: nat, j: nat): nat { word / Pow(16, j) }

  /** What is written of a pointer before its last j digits. */
  function PointerPart(kernel: bool, word: nat, j: nat): (s: string)
    requires j <= 16
    ensures |s| == 16 - j + if kernel && j < 8 then 1 else 0
  {
    var d := Chars(LastDigits(16, 16 - j, Upper(word, j)), false);
    if kernel && j < 8 then d[..8] + "_" + d[8..] else d
  }

  lemma PointerEnds(kernel: bool, word: nat)
    ensures PointerPart(kernel, word, 16) == ""
    ensures PointerPart(kernel, word, 0) == PointerText(kernel, word)
  {
    PowZero(16, word);
  }

  lemma PointerDigit(kernel: bool, word: nat, j: nat)
    requires j < 16
    ensures PointerPart(kernel, word, j) == PointerPart(kernel, word, j + 1) + DigitText(kernel, word, j)
  {
    hide Pow;
    PowStep(word, 16, j);
    var c := word / Pow(16, j) % 16;
    var d := LastDigits(16, 15 - j, word / Pow(16, j + 1));
    assert LastDigits(16, 16 - j, word / Pow(16, j)) == d + [c];
    CharsAppend(d, [c], false);
    assert Chars([c], false) == [DigitChar(c, false)];
  }

  /** The conversion at the '%' at index st, and where to go on. */
  method EmitConversion(ctx: Context, t: string, st: nat, a: nat, env: Env) returns (k: nat, a': nat, i: nat)
    requires ctx.Balanced() && CString(t) && st + 1 < |t| && env.mem.Terminated()
    modifies ctx`sz, ctx`out
    ensures var n := Convert(t, st, a, env, ctx.cb);
            && ctx.Balanced() && ctx.Emits(old(ctx.sz), old(ctx.out), n.piece.text)
            && k == n.k && a' == n.a && i == n.piece.ret
  {
    hide Read, StringText, IntegerText, PointerText, Justify;
    var c := ReadConversion(t, st + 1, a, env);
    var x := t[c.at];
    k, a' := c.at + 1, c.a;
    if x == '%' {
      ctx.Reserve(1);
      if ctx.cb { ctx.Write('%'); }
      i := 1;
    } else if x == 'c' {
      i := EmitChar(ctx, c, env.args(c.a));
      if ctx.cb { a' := a' + 1; }
    } else if x == 's' {
      a' := a' + 1;
      i := EmitString(ctx, c, env, env.args(c.a));
    } else if IsInteger(x) {
      a' := a' + 1;
      i := EmitInteger(ctx, c, x, env.args(c.a));
    } else if x == 'p' {
      a' := a' + 1;
      i := EmitPointer(ctx, env.kernel, env.args(c.a));
    } else {
      k := st + 1;
      ctx.Reserve(1);
      if ctx.cb { ctx.Write('%'); }
      i := 1;
    }
  }

  lemma TextAppend(ps: seq<Piece>, p: Piece)
    ensures Text(ps + [p]) == Text(ps) + p.text && Returned(ps + [p]) == Returned(ps) + p.ret
  {
    assert (ps + [p])[..|ps|] == ps;
  }

  /** One turn of the loop: a character, or the conversion at a '%'. */
  method EmitPiece(ctx: Context, t: string, k: nat, a: nat, env: Env) returns (k': nat, a': nat, i: nat)
    requires ctx.Balanced() && CString(t) && k < |t| - 1 && env.mem.Terminated()
    modifies ctx`sz, ctx`out
    ensures var n := Step(t, k, a, env, ctx.cb);
            && ctx.Balanced() && ctx.Emits(old(ctx.sz), old(ctx.out), n.piece.text)
            && k' == n.k && a' == n.a && i == n.piece.ret
  {
    hide Convert;
    if t[k] != '%' {
      ctx.Reserve(1);
      if ctx.cb { ctx.Write(t[k]); }
      k', a', i := k + 1, a, 1;
    } else {
      k', a', i := EmitConversion(ctx, t, k, a, env);
    }
  }

  /** One more piece is out. */
  lemma PieceDone(t: string, k: nat, a: nat, env: Env, cb: bool, done: seq<Piece>, out: string)
    requires CString(t) && k < |t| - 1 && env.mem.Terminated()
    requires Pieces(t, 0, 0, env, cb) == done + Pieces(t, k, a, env, cb)
    ensures var n := Step(t, k, a, env, cb);
            && Pieces(t, 0, 0, env, cb) == done + [n.piece] + Pieces(t, n.k, n.a, env, cb)
            && Text(done + [n.piece]) == Text(done) + n.piece.text
            && Returned(done + [n.piece]) == Returned(done) + n.piece.ret
            && out + Text(done + [n.piece]) == out + Text(done) + n.piece.text
  {
    hide Step, Text, Returned;
    var n := Step(t, k, a, env, cb);
    TextAppend(done, n.piece);
    Associative(out, Text(done), n.piece.text);
    var rest := Pieces(t, n.k, n.a, env, cb);
    assert done + ([n.piece] + rest) == done + [n.piece] + rest;
  }

  /** __vprintf_raw: every piece and a NUL are reserved and written, and the
      count it returns is theirs. Nothing happens without any callback. */
  method Vprintf(ctx: Context, t: string, env: Env) returns (r: nat)
    requires ctx.Balanced() && CString(t) && env.mem.Terminated()
    modifies ctx`sz, ctx`out
    ensures ctx.Balanced()
    ensures !ctx.rs && !ctx.cb ==> r == 0 && ctx.sz == old(ctx.sz) && ctx.out == old(ctx.out)
    ensures ctx.rs || ctx.cb ==>
              (var ps := Pieces(t, 0, 0, env, ctx.cb);
               ctx.Emits(old(ctx.sz), old(ctx.out), Text(ps) + ['\0']) && r == Returned(ps) + 1)
  {
    hide Text, Returned, Step, Pieces;
    if !ctx.rs && !ctx.cb {
      return 0;
    }
    var i, k, a := 0, 0, 0;
    ghost var done: seq<Piece> := [];
    ghost var out := ctx.out;
    NoText();
    while t[k] != '\0'
      invariant k < |t| && ctx.Balanced()
      invariant Pieces(t, 0, 0, env, ctx.cb) == done + Pieces(t, k, a, env, ctx.cb)
      invariant ctx.Emits(old(ctx.sz), out, Text(done)) && i == Returned(done)
      decreases |t| - k
    {
      PieceDone(t, k, a, env, ctx.cb, done, out);
      done := done + [Step(t, k, a, env, ctx.cb).piece];
      var j;
      k, a, j := EmitPiece(ctx, t, k, a, env);
      i := i + j;
    }
    assert Pieces(t, k, a, env, ctx.cb) == [] by { NoMorePieces(t, k, a, env, ctx.cb); }
    assert done + [] == done;
    Associative(out, Text(done), ['\0']);
    ctx.Reserve(1);
    if ctx.cb { ctx.Write('\0'); }
    r := i + 1;
  }

  lemma NoMorePieces(t: string, k: nat, a: nat, env: Env, cb: bool)
    requires CString(t) && k < |t| && t[k] == '\0' && env.mem.Terminated()
    ensures Pieces(t, k, a, env, cb) == []
  {
  }

  lemma NoText()
    ensures Text([]) == "" && Returned([]) == 0
  {
  }

  // ---- the returned count

  /** Characters a piece writes beyond what it returns: the padding of a
      character, and the kernel's underscore in a pointer. */
  function Excess(kernel: bool, p: Piece): nat {
    match p.kind
    case Plain => 0
    case Padded => Monus(|p.text|, 1)
    case Pointer => if kernel then 1 else 0
  }

  function TotalExcess(kernel: bool, ps: seq<Piece>): nat {
    if ps == [] then 0 else TotalExcess(kernel, ps[..|ps| - 1]) + Excess(kernel, ps[|ps| - 1])
  }

  predicate Counted(kernel: bool, p: Piece) {
    |p.text| == p.ret + Excess(kernel, p)
  }

  lemma StepCounted(t: string, k: nat, a: nat, env: Env, cb: bool)
    requires CString(t) && k < |t| - 1 && env.mem.Terminated()
    ensures Counted(env.kernel, Step(t, k, a, env, cb).piece)
    ensures Step(t, k, a, env, cb).piece.kind.Padded? <==> t[k] == '%' && t[Read(t, k + 1, a, env).at] == 'c'
  {
    hide Read, StringText, IntegerText;
  }

  lemma {:induction false} PiecesCounted(t: string, k: nat, a: nat, env: Env, cb: bool)
    requires CString(t) && k < |t| && env.mem.Terminated()
    ensures forall p :: p in Pieces(t, k, a, env, cb) ==> Counted(env.kernel, p)
    decreases |t| - k
  {
    hide Step, Counted;
    if t[k] != '\0' {
      StepCounted(t, k, a, env, cb);
      var n := Step(t, k, a, env, cb);
      PiecesCounted(t, n.k, n.a, env, cb);
    }
  }

  lemma {:induction false} CountTotal(kernel: bool, ps: seq<Piece>)
    requires forall p :: p in ps ==> Counted(kernel, p)
    ensures |Text(ps)| == Returned(ps) + TotalExcess(kernel, ps)
    ensures TotalExcess(kernel, ps) == 0 <==> forall p :: p in ps ==> Excess(kernel, p) == 0
  {
    hide Excess;
    if ps != [] {
      var init, last := ps[..|ps| - 1], ps[|ps| - 1];
      CountTotal(kernel, init);
      assert ps == init + [last];
      assert Counted(kernel, last);
    }
  }

  /** The count returned is the characters written less the padding of
      characters and the underscores of kernel pointers, and it is exact just
      when the format has neither. */
  lemma ReturnedCount(t: string, env: Env, cb: bool)
    requires CString(t) && env.mem.Terminated()
    ensures var ps := Pieces(t, 0, 0, env, cb);
            && |Text(ps)| == Returned(ps) + TotalExcess(env.kernel, ps)
            && (Returned(ps) == |Text(ps)| <==> forall p :: p in ps ==> Excess(env.kernel, p) == 0)
  {
    PiecesCounted(t, 0, 0, env, cb);
    CountTotal(env.kernel, Pieces(t, 0, 0, env, cb));
  }

  // ---- measuring without writing

  /** Without character conversions a pass that only reserves goes through the
      same pieces as one that writes. */
  lemma {:induction false} MeasureAgrees(t: string, k: nat, a: nat, env: Env)
    requires CString(t) && k < |t| && env.mem.Terminated()
    requires forall p :: p in Pieces(t, k, a, env, true) ==> !p.kind.Padded?
    ensures Pieces(t, k, a, env, false) == Pieces(t, k, a, env, true)
    decreases |t| - k
  {
    hide Read, StringText, IntegerText, PointerText;
    if t[k] != '\0' {
      var n := Step(t, k, a, env, true);
      assert Pieces(t, k, a, env, true) == [n.piece] + Pieces(t, n.k, n.a, env, true);
      assert n.piece in Pieces(t, k, a, env, true);
      assert Step(t, k, a, env, false) == n;
      forall p | p in Pieces(t, n.k, n.a, env, true) ensures !p.kind.Padded? {
        assert p in Pieces(t, k, a, env, true);
      }
      MeasureAgrees(t, n.k, n.a, env);
    }
  }

  /** With one it does not: "%c%d" of 65 and 5 prints two characters, and the
      measuring pass finds three. */
  lemma MeasureDiffers(mem: Memory)
    requires mem.Terminated()
    ensures var env := Env(false, mem, i => if i == 0 then 65 else 5);
            && |Text(Pieces("%c%d\0", 0, 0, env, true))| == 2
            && |Text(Pieces("%c%d\0", 0, 0, env, false))| == 3
  {
    var t := "%c%d\0";
    var env := Env(false, mem, i => if i == 0 then 65 else 5);
    MeasureFrom(t, env, 1, 5, "5");
    MeasureFrom(t, env, 0, 65, "65");
    var p := Piece("A", 1, Padded);
    CharPiece(t, env, true);
    CharPiece(t, env, false);
    TextOfTwo(p, Piece("5", 1, Plain));
    TextOfTwo(p, Piece("65", 2, Plain));
  }

  lemma TextOfTwo(p: Piece, q: Piece)
    ensures Text([p, q]) == p.text + q.text
  {
    TextAppend([p], q);
    TextAppend([], p);
    assert [p] + [q] == [p, q] && [] + [p] == [p];
  }

  lemma CharPiece(t: string, env: Env, cb: bool)
    requires t == "%c%d\0" && env.mem.Terminated() && env.args(0) == 65
    ensures Pieces(t, 0, 0, env, cb) == [Piece("A", 1, Padded)] + Pieces(t, 2, if cb then 1 else 0, env, cb)
  {
    var c := Conv(1, 0, NO_FLAGS, 0, 0);
    assert Read(t, 1, 0, env) == c;
    assert Justify(false, 0, [65 as char]) == "A";
    assert Step(t, 0, 0, env, cb) == Next(Piece("A", 1, Padded), 2, if cb then 1 else 0);
  }

  lemma SmallDigits(v: nat)
    requires v == 5 || v == 65
    ensures Field(NO_FLAGS, 10, v, 1) == if v == 5 then [5] else [6, 5]
  {
    assert DigitsOf(10, v) == if v == 5 then [5] else [6, 5];
  }

  lemma PrintsSmall(a: nat, v: nat, text: string)
    requires (v == 5 && text == "5") || (v == 65 && text == "65")
    ensures IntegerText(Conv(3, a, NO_FLAGS, 0, 0), 'd', v) == text
  {
    hide Field, DigitsOf;
    SmallDigits(v);
    assert SignedValue(IntLength, v) == v;
    assert UIntText(NO_FLAGS, 10, v, 0) == text;
  }

  lemma MeasureFrom(t: string, env: Env, a: nat, v: nat, text: string)
    requires t == "%c%d\0" && env.mem.Terminated() && env.args(a) == v
    requires (v == 5 && text == "5") || (v == 65 && text == "65")
    ensures forall cb :: Pieces(t, 2, a, env, cb) == [Piece(text, |text|, Plain)]
  {
    hide IntegerText;
    assert Read(t, 3, a, env) == Conv(3, a, NO_FLAGS, 0, 0);
    PrintsSmall(a, v, text);
    forall cb ensures Pieces(t, 2, a, env, cb) == [Piece(text, |text|, Plain)] {
      assert Step(t, 2, a, env, cb) == Next(Piece(text, |text|, Plain), 4, a + 1);
      assert Pieces(t, 4, a + 1, env, cb) == [];
    }
  }

  // ---- reading a pointer back

  /** The hexadecimal digits of a pointer, underscore or not, read back as the
      word. */
  lemma PointerReadsBack(kernel: bool, word: nat)
    requires word <= MAX_64
    ensures var s := PointerText(kernel, word);
            Value(16, ReadDigits(if kernel then s[..8] + s[9..] else s)) == word
  {
    hide Pow, Value;
    SixteenDigits();
    ValueOfLastDigits(16, 16, word);
    var d := LastDigits(16, 16, word);
    ReadChars(d, false);
    var s := PointerText(kernel, word);
    assert (if kernel then s[..8] + s[9..] else s) == Chars(d, false);
  }

  lemma SixteenDigits()
    ensures Pow(16, 16) == MAX_64 + 1
  {
    assert Pow(16, 8) == 0x1_0000_0000;
    assert Pow(16, 12) == 0x1_0000 * Pow(16, 8);
  }
}
