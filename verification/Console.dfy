/** The text console of src/kernel/gfx/console.c:32-103: a cursor, a buffer of
    cells and the framebuffer it is shown in. */
module Console {
  import opened Division
  import opened Words
  import opened Graphics

  const SPACE: nat := 32
  const NEWLINE: nat := 10
  const COLORS: nat := 0x100_0000

  /** CHAR_AND_COLOR, GET_CHAR and GET_COLOR on a cell word. */
  function Pack(c: nat, cl: nat): nat { c * COLORS + cl }

  function CharOf(v: nat): nat { v / COLORS }

  function ColorOf(v: nat): nat { v % COLORS }

  const BLANK: nat := 0x2000_0000

  lemma Unpack(c: nat, cl: nat)
    requires cl < COLORS
    ensures CharOf(Pack(c, cl)) == c && ColorOf(Pack(c, cl)) == cl
  {
    QuotientUnique(Pack(c, cl), COLORS, c, cl);
  }

  lemma BlankIs()
    ensures BLANK == Pack(SPACE, 0) && CharOf(BLANK) == SPACE && ColorOf(BLANK) == 0
  {
    Unpack(SPACE, 0);
  }

  // ---- wrapped text

  datatype Glyph = Glyph(c: nat, cl: nat)

  type Line = seq<Glyph>

  /** Lines so far: a newline ends one, and so does the last column. */
  function Put(lines: seq<Line>, g: Glyph, w: nat): (r: seq<Line>)
    requires lines != []
    ensures r != []
  {
    if g.c == NEWLINE then lines + [[]]
    else
      var n := |lines| - 1;
      var l := lines[n] + [g];
      lines[..n] + [l] + (if |l| == w then [[]] else [])
  }

  function PutAll(lines: seq<Line>, text: seq<Glyph>, w: nat): (r: seq<Line>)
    requires lines != []
    ensures r != []
  {
    if text == [] then lines else Put(PutAll(lines, text[..|text| - 1], w), text[|text| - 1], w)
  }

  /** Every line fits, and the one being written has room. */
  ghost predicate Wrapped(lines: seq<Line>, w: nat) {
    && lines != [] && (forall n :: 0 <= n < |lines| ==> |lines[n]| <= w)
    && |lines[|lines| - 1]| < w
    && (forall n, k :: 0 <= n < |lines| && 0 <= k < |lines[n]| ==> lines[n][k].cl < COLORS && lines[n][k].c != NEWLINE)
  }

  function Cell(g: Glyph): nat { if g.c == SPACE then BLANK else Pack(g.c, g.cl) }

  /** What column c of line n shows. */
  function CellAt(lines: seq<Line>, n: nat, c: nat): nat {
    if n < |lines| && c < |lines[n]| then Cell(lines[n][c]) else BLANK
  }

  /** The number of the first line still in view. */
  function Top(lines: seq<Line>, h: nat): nat { if |lines| > h then |lines| - h else 0 }

  /** The last h lines in rows of w cells. */
  function View(lines: seq<Line>, w: nat, h: nat): (v: seq<nat>)
    requires w > 0
    ensures |v| == w * h
  {
    seq(w * h, i requires 0 <= i < w * h => CellAt(lines, Top(lines, h) + Row(w, i), Col(w, i)))
  }

  // ---- wrapping loses nothing

  function Concat(lines: seq<Line>): seq<Glyph> {
    if lines == [] then [] else Concat(lines[..|lines| - 1]) + lines[|lines| - 1]
  }

  function Visible(text: seq<Glyph>): seq<Glyph> {
    if text == [] then []
    else
      var g := text[|text| - 1];
      Visible(text[..|text| - 1]) + (if g.c == NEWLINE then [] else [g])
  }

  lemma ConcatAppend(lines: seq<Line>, l: Line)
    ensures Concat(lines + [l]) == Concat(lines) + l
  {
    assert (lines + [l])[..|lines|] == lines;
  }

  lemma PutHolds(lines: seq<Line>, g: Glyph, w: nat)
    requires lines != []
    ensures Concat(Put(lines, g, w)) == Concat(lines) + if g.c == NEWLINE then [] else [g]
  {
    var n := |lines| - 1;
    ConcatAppend(lines, []);
    ConcatAppend(lines[..n], lines[n] + [g]);
    ConcatAppend(lines[..n] + [lines[n] + [g]], []);
    assert lines[..n] + [lines[n] + [g]] + [] == lines[..n] + [lines[n] + [g]];
  }

  /** The lines hold every character but the newlines, in order. */
  lemma {:induction false} LinesHoldText(lines: seq<Line>, text: seq<Glyph>, w: nat)
    requires lines != []
    ensures Concat(PutAll(lines, text, w)) == Concat(lines) + Visible(text)
  {
    if text != [] {
      var init, g := text[..|text| - 1], text[|text| - 1];
      LinesHoldText(lines, init, w);
      PutHolds(PutAll(lines, init, w), g, w);
    }
  }

  lemma PutWrapped(lines: seq<Line>, g: Glyph, w: nat)
    requires Wrapped(lines, w) && g.cl < COLORS
    ensures Wrapped(Put(lines, g, w), w)
  {
    var r: seq<Line> := Put(lines, g, w);
    forall n, k | 0 <= n < |r| && 0 <= k < |r[n]| ensures r[n][k].cl < COLORS && r[n][k].c != NEWLINE {
      if n < |lines| && k < |lines[n]| { assert r[n][k] == lines[n][k]; }
    }
  }

  lemma {:induction false} PutAllWrapped(lines: seq<Line>, text: seq<Glyph>, w: nat)
    requires Wrapped(lines, w) && forall g :: g in text ==> g.cl < COLORS
    ensures Wrapped(PutAll(lines, text, w), w)
  {
    if text != [] {
      PutAllWrapped(lines, text[..|text| - 1], w);
      PutWrapped(PutAll(lines, text[..|text| - 1], w), text[|text| - 1], w);
    }
  }

  // ---- the lines determine the text

  /** A newline leaves no colour behind. */
  function Plain(text: seq<Glyph>): (r: seq<Glyph>) {
    if text == [] then []
    else
      var g := text[|text| - 1];
      Plain(text[..|text| - 1]) + [if g.c == NEWLINE then Glyph(NEWLINE, 0) else g]
  }

  /** The text lines stand for: a line shorter than w cells was ended by a
      newline, a full one by its last cell. */
  function Unwrap(lines: seq<Line>, w: nat): seq<Glyph> {
    if |lines| <= 1 then Concat(lines)
    else
      var n := |lines| - 1;
      Unwrap(lines[..n], w) + (if |lines[n - 1]| == w then [] else [Glyph(NEWLINE, 0)]) + lines[n]
  }

  lemma UnwrapAppend(lines: seq<Line>, l: Line, w: nat)
    requires lines != []
    ensures Unwrap(lines + [l], w) ==
            Unwrap(lines, w) + (if |lines[|lines| - 1]| == w then [] else [Glyph(NEWLINE, 0)]) + l
  {
    assert (lines + [l])[..|lines|] == lines;
  }

  /** The last line's last character comes last. */
  lemma UnwrapLonger(lines: seq<Line>, l: Line, g: Glyph, w: nat)
    ensures Unwrap(lines + [l + [g]], w) == Unwrap(lines + [l], w) + [g]
  {
    if lines == [] {
      ConcatAppend([], l);
      ConcatAppend([], l + [g]);
    } else {
      UnwrapAppend(lines, l, w);
      UnwrapAppend(lines, l + [g], w);
    }
  }

  lemma PutUnwraps(lines: seq<Line>, g: Glyph, w: nat)
    requires lines != [] && |lines[|lines| - 1]| < w
    ensures Unwrap(Put(lines, g, w), w) == Unwrap(lines, w) + Plain([g])
    ensures var r := Put(lines, g, w); |r[|r| - 1]| < w
  {
    hide Unwrap;
    var n := |lines| - 1;
    assert lines == lines[..n] + [lines[n]];
    UnwrapAppend(lines, [], w);
    UnwrapLonger(lines[..n], lines[n], g, w);
    UnwrapAppend(lines[..n] + [lines[n] + [g]], [], w);
    PlainOne(g);
    var r := lines[..n] + [lines[n] + [g]];
    assert r + [] == r && Unwrap(lines, w) + [g] + [] + [] == Unwrap(lines, w) + [g];
  }

  /** Wrapping is undone: the text is read back off its lines. */
  lemma {:induction false} TextRecovered(text: seq<Glyph>, w: nat)
    requires w > 0
    ensures Unwrap(PutAll([[]], text, w), w) == Plain(text)
    ensures var r := PutAll([[]], text, w); |r[|r| - 1]| < w
  {
    hide Unwrap, Put;
    if text == [] {
      ConcatAppend([], []);
      assert Unwrap([[]], w) == [] by { UnwrapOne([], w); }
    } else {
      var init, g := text[..|text| - 1], text[|text| - 1];
      TextRecovered(init, w);
      PutUnwraps(PutAll([[]], init, w), g, w);
      PlainOne(g);
    }
  }

  lemma UnwrapOne(l: Line, w: nat)
    ensures Unwrap([l], w) == l
  {
    ConcatAppend([], l);
  }

  lemma PlainOne(g: Glyph)
    ensures Plain([g]) == [if g.c == NEWLINE then Glyph(NEWLINE, 0) else g]
  {
    assert [g][..0] == [];
  }

  function Extent(lines: seq<Line>): nat {
    if lines == [] then 0 else Extent(lines[..|lines| - 1]) + |lines[|lines| - 1]| + 1
  }

  lemma ExtentAppend(lines: seq<Line>, l: Line)
    ensures Extent(lines + [l]) == Extent(lines) + |l| + 1
  {
    assert (lines + [l])[..|lines|] == lines;
  }

  /** No other lines stand for that text. */
  lemma {:induction false} LinesRecovered(lines: seq<Line>, w: nat)
    requires Wrapped(lines, w)
    ensures PutAll([[]], Unwrap(lines, w), w) == lines
    decreases Extent(lines)
  {
    hide Unwrap, Put, Extent, PutAll;
    var n := |lines| - 1;
    assert lines == lines[..n] + [lines[n]];
    if lines[n] != [] {
      var l, g := lines[n][..|lines[n]| - 1], lines[n][|lines[n]| - 1];
      var r := lines[..n] + [l];
      assert lines[n] == l + [g];
      ShorterWrapped(lines, r, w);
      ExtentAppend(lines[..n], l);
      ExtentAppend(lines[..n], l + [g]);
      LinesRecovered(r, w);
      UnwrapLonger(lines[..n], l, g, w);
      PutAllStep(Unwrap(r, w), g, w);
      PutLast(lines[..n], l, g, w);
    } else if n == 0 {
      UnwrapOne([], w);
      assert PutAll([[]], [], w) == [[]] by { PutAllNone(w); }
    } else {
      LineRecovered(lines[..n], w);
    }
  }

  /** The same where the line being written is empty. */
  lemma {:induction false} LineRecovered(lines: seq<Line>, w: nat)
    requires lines != [] && Wrapped(lines + [[]], w)
    ensures PutAll([[]], Unwrap(lines + [[]], w), w) == lines + [[]]
    decreases Extent(lines + [[]]), 0
  {
    hide Unwrap, Put, Extent, PutAll;
    var n := |lines| - 1;
    var all := lines + [[]];
    UnwrapAppend(lines, [], w);
    ExtentAppend(lines, []);
    assert lines == lines[..n] + [lines[n]];
    assert all[n] == lines[n];
    if |lines[n]| < w {
      var t := Unwrap(lines, w) + [Glyph(NEWLINE, 0)];
      assert t + [] == t;
      ShorterWrapped(all, lines, w);
      LinesRecovered(lines, w);
      PutAllStep(Unwrap(lines, w), Glyph(NEWLINE, 0), w);
      PutNewline(lines, w);
    } else {
      var l, g := lines[n][..w - 1], lines[n][w - 1];
      var r := lines[..n] + [l];
      assert lines[n] == l + [g];
      ShorterWrapped(all, r, w);
      ExtentAppend(lines[..n], l);
      ExtentAppend(lines[..n], l + [g]);
      LinesRecovered(r, w);
      UnwrapLonger(lines[..n], l, g, w);
      assert Unwrap(lines, w) + [] + [] == Unwrap(lines, w);
      PutAllStep(Unwrap(r, w), g, w);
      PutLast(lines[..n], l, g, w);
    }
  }

  /** Lines cut out of wrapped ones are wrapped when the last has room. */
  lemma ShorterWrapped(lines: seq<Line>, r: seq<Line>, w: nat)
    requires Wrapped(lines, w) && 0 < |r| <= |lines| && |r[|r| - 1]| < w
    requires forall n :: 0 <= n < |r| ==> r[n] <= lines[n]
    ensures Wrapped(r, w)
  {
    forall n, k | 0 <= n < |r| && 0 <= k < |r[n]| ensures r[n][k].cl < COLORS && r[n][k].c != NEWLINE {
      assert r[n][k] == lines[n][k];
    }
  }

  lemma PutAllStep(text: seq<Glyph>, g: Glyph, w: nat)
    ensures PutAll([[]], text + [g], w) == Put(PutAll([[]], text, w), g, w)
  {
    assert (text + [g])[..|text|] == text;
  }

  lemma PutAllNone(w: nat)
    ensures PutAll([[]], [], w) == [[]]
  {
  }

  lemma PutLast(lines: seq<Line>, l: Line, g: Glyph, w: nat)
    requires g.c != NEWLINE
    ensures Put(lines + [l], g, w) == lines + [l + [g]] + (if |l| + 1 == w then [[]] else [])
  {
    assert (lines + [l])[..|lines|] == lines;
  }

  lemma PutNewline(lines: seq<Line>, w: nat)
    requires lines != []
    ensures Put(lines, Glyph(NEWLINE, 0), w) == lines + [[]]
  {
  }

  // ---- what a character does to the view

  /** A character that is not a space sets one cell, a space none. */
  lemma ViewAfterChar(lines: seq<Line>, g: Glyph, w: nat, h: nat)
    requires Wrapped(lines, w) && g.c != NEWLINE && h > 0
    ensures var n := |lines| - 1;
            var l := lines[..n] + [lines[n] + [g]];
            var y := n - Top(lines, h);
            var i := Index(w, y, |lines[n]|);
            i < w * h && View(l, w, h) == if g.c == SPACE then View(lines, w, h) else View(lines, w, h)[i := Pack(g.c, g.cl)]
  {
    hide Row, Col, Index, Pack;
    var n := |lines| - 1;
    var l := lines[..n] + [lines[n] + [g]];
    var y, x := n - Top(lines, h), |lines[n]|;
    IndexBound(w, y, x, h);
    IndexAt(w, y, x);
    var i := Index(w, y, x);
    forall k | 0 <= k < w * h && k != i ensures View(l, w, h)[k] == View(lines, w, h)[k] {
      IndexOf(w, k);
    }
  }

  /** A new line below h lines is a scroll, otherwise it changes nothing. */
  lemma ViewAfterNewline(lines: seq<Line>, w: nat, h: nat)
    requires w > 0 && h > 0
    ensures |lines| < h ==> View(lines + [[]], w, h) == View(lines, w, h)
    ensures |lines| >= h ==> w <= w * h && View(lines + [[]], w, h) == View(lines, w, h)[w..] + Blanks(w)
  {
    hide Row, Col, Index;
    var l := lines + [[]];
    MulAtLeast(h, w);
    forall k | 0 <= k < w * h ensures View(l, w, h)[k] ==
      if |lines| < h then View(lines, w, h)[k] else (View(lines, w, h)[w..] + Blanks(w))[k]
    {
      IndexOf(w, k);
      if |lines| >= h {
        RowBelow(w, k, h);
        LastRow(w, k, h);
      }
    }
  }

  function Blanks(n: nat): (b: seq<nat>)
    ensures |b| == n
  {
    seq(n, i => BLANK)
  }

  lemma RowBelow(w: nat, k: nat, h: nat)
    requires w > 0
    ensures Row(w, k + w) == Row(w, k) + 1 && Col(w, k + w) == Col(w, k)
  {
    QuotientUnique(k + w, w, k / w + 1, k % w);
  }

  lemma LastRow(w: nat, k: nat, h: nat)
    requires w > 0 && h > 0
    ensures k < w * h - w <==> Row(w, k) < h - 1
    ensures k < w * h <==> Row(w, k) < h
  {
    RowLimit(w, k, h);
    RowLimit(w, k, h - 1);
    assert w * (h - 1) == w * h - w;
  }

  lemma RowLimit(w: nat, k: nat, r: nat)
    requires w > 0
    ensures k < w * r <==> Row(w, k) < r
  {
    IndexOf(w, k);
    if Row(w, k) < r {
      IndexBound(w, Row(w, k), Col(w, k), r);
    } else {
      assert Row(w, k) * w == r * w + (Row(w, k) - r) * w && (Row(w, k) - r) * w >= 0;
    }
  }

  // ---- the framebuffer

  /** The framebuffer's width in pixels, the cells it holds, and the font. */
  datatype Layout = Layout(width: nat, w: nat, h: nat, f: Font)

  ghost predicate Fits(o: Layout, pixels: nat) {
    && o.w > 0 && o.h > 0 && o.w * 8 <= o.width && o.h * 16 * o.width <= pixels
    && Complete(o.f) && o.f.mx >= SPACE
  }

  /** Pixel (px, py) of a cell: black for a space, else the glyph in the
      cell's color on black. */
  function CellPixel(f: Font, v: nat, px: nat, py: nat): nat
    requires Complete(f) && CharOf(v) <= f.mx && py < 16
  {
    if CharOf(v) != SPACE && GlyphPixel(f, CharOf(v), px, py) then ColorOf(v) else 0
  }

  /** The cell a pixel belongs to. */
  function CellOf(o: Layout, k: nat): nat
    requires o.width > 0
  {
    Index(o.w, Row(o.width, k) / 16, Col(o.width, k) / 8)
  }

  predicate InArea(o: Layout, k: nat)
    requires o.width > 0
  {
    Row(o.width, k) < o.h * 16 && Col(o.width, k) < o.w * 8
  }

  ghost predicate Printable(o: Layout, bf: seq<nat>) {
    |bf| == o.w * o.h && forall i :: 0 <= i < |bf| ==> CharOf(bf[i]) <= o.f.mx
  }

  lemma CellInBuffer(o: Layout, pixels: nat, k: nat)
    requires Fits(o, pixels) && InArea(o, k)
    ensures CellOf(o, k) < o.w * o.h
  {
    IndexBound(o.w, Row(o.width, k) / 16, Col(o.width, k) / 8, o.h);
  }

  ghost function PixelFor(o: Layout, bf: seq<nat>, k: nat): nat
    requires Fits(o, o.h * 16 * o.width) && Printable(o, bf)
  {
    if InArea(o, k) then
      CellInBuffer(o, o.h * 16 * o.width, k);
      CellPixel(o.f, bf[CellOf(o, k)], Col(o.width, k) % 8, Row(o.width, k) % 16)
    else 0
  }

  /** Every 8 by 16 block shows its cell; the margins are black. */
  ghost predicate Shown(o: Layout, fb: seq<nat>, bf: seq<nat>) {
    && Fits(o, |fb|) && Printable(o, bf)
    && forall k :: 0 <= k < |fb| ==> fb[k] == PixelFor(o, bf, k)
  }

  lemma SameCell(o: Layout, pixels: nat, k: nat, cy: nat, cx: nat)
    requires Fits(o, pixels) && cx < o.w && cy < o.h
    ensures InRect(o.width, k, cx * 8, cy * 16, 8, 16) <==> InArea(o, k) && CellOf(o, k) == Index(o.w, cy, cx)
    ensures InRect(o.width, k, cx * 8, cy * 16, 8, 16) ==>
              Col(o.width, k) - cx * 8 == Col(o.width, k) % 8 && Row(o.width, k) - cy * 16 == Row(o.width, k) % 16
  {
    hide Index, Row, Col;
    IndexAt(o.w, cy, cx);
    if InArea(o, k) { IndexAt(o.w, Row(o.width, k) / 16, Col(o.width, k) / 8); }
  }

  /** Drawing one cell shows the buffer with that cell set. */
  lemma CellShown(o: Layout, fb: seq<nat>, fb': seq<nat>, bf: seq<nat>, cy: nat, cx: nat, v: nat)
    requires Shown(o, fb, bf) && cx < o.w && cy < o.h && CharOf(v) <= o.f.mx && |fb'| == |fb|
    requires forall k :: 0 <= k < |fb| ==>
               fb'[k] == if InRect(o.width, k, cx * 8, cy * 16, 8, 16)
                         then CellPixel(o.f, v, Col(o.width, k) - cx * 8, Row(o.width, k) - cy * 16) else fb[k]
    ensures Index(o.w, cy, cx) < |bf| && Shown(o, fb', bf[Index(o.w, cy, cx) := v])
  {
    hide Index, Row, Col, CellPixel, CharOf;
    IndexBound(o.w, cy, cx, o.h);
    var bf' := bf[Index(o.w, cy, cx) := v];
    forall k | 0 <= k < |fb| ensures fb'[k] == PixelFor(o, bf', k) {
      SameCell(o, |fb|, k, cy, cx);
      assert fb[k] == PixelFor(o, bf, k);
      if InArea(o, k) { CellInBuffer(o, |fb|, k); }
    }
  }

  /** Blackening the bottom row shows the buffer with a blank bottom row. */
  lemma BottomShown(o: Layout, fb: seq<nat>, fb': seq<nat>, bf: seq<nat>, bf': seq<nat>)
    requires Shown(o, fb, bf) && |fb'| == |fb| && |bf'| == |bf|
    requires forall i :: 0 <= i < |bf| ==> bf'[i] == if i < o.w * (o.h - 1) then bf[i] else BLANK
    requires forall k :: 0 <= k < |fb| ==>
               fb'[k] == if InRect(o.width, k, 0, (o.h - 1) * 16, o.w * 8, 16) then 0 else fb[k]
    ensures Shown(o, fb', bf')
  {
    hide Index, Row, Col, CharOf, ColorOf;
    BlankIs();
    forall k | 0 <= k < |fb| ensures fb'[k] == PixelFor(o, bf', k) {
      assert fb[k] == PixelFor(o, bf, k);
      if InArea(o, k) {
        CellInBuffer(o, |fb|, k);
        RowLimit(o.w, CellOf(o, k), o.h - 1);
        IndexAt(o.w, Row(o.width, k) / 16, Col(o.width, k) / 8);
      }
    }
  }

  /** A character past the font, drawn in the cell before, leaves a cell showing
      what it should exactly when its upper half is black. */
  lemma PastFontSpoils(o: Layout, fb: seq<nat>, fb': seq<nat>, bf: seq<nat>, cy: nat, cx: nat)
    requires Shown(o, fb, bf) && cx + 1 < o.w && cy < o.h && |fb'| == |fb|
    requires forall k :: 0 <= k < |fb| ==> fb'[k] == if InSpans(o.width, k, cx * 8, 16, cy * 16, cy * 16 + 8) then 0 else fb[k]
    ensures Index(o.w, cy, cx + 1) < |bf|
    ensures (forall k :: 0 <= k < |fb| && InRect(o.width, k, (cx + 1) * 8, cy * 16, 8, 16) ==> fb'[k] == PixelFor(o, bf, k))
            <==> UpperBlack(o, bf[Index(o.w, cy, cx + 1)])
  {
    hide Index, Row, Col, CellPixel, CharOf, InSpans;
    IndexBound(o.w, cy, cx + 1, o.h);
    var v := bf[Index(o.w, cy, cx + 1)];
    forall k | 0 <= k < |fb| && InRect(o.width, k, (cx + 1) * 8, cy * 16, 8, 16)
      ensures PixelFor(o, bf, k) == CellPixel(o.f, v, Col(o.width, k) % 8, Row(o.width, k) % 16) == fb[k]
      ensures fb'[k] == if Row(o.width, k) % 16 < 8 then 0 else fb[k]
    {
      SameCell(o, |fb|, k, cy, cx + 1);
      SpansAreRect(o.width, k, cx * 8, cy * 16, 16, 8);
    }
    if !UpperBlack(o, v) {
      var px, py :| 0 <= px < 8 && 0 <= py < 8 && CellPixel(o.f, v, px, py) != 0;
      PixelAt(o, |fb|, cy, cx + 1, px, py);
    }
  }

  /** No pixel of the upper half of a cell is lit. */
  ghost predicate UpperBlack(o: Layout, v: nat)
    requires Complete(o.f) && CharOf(v) <= o.f.mx
  {
    forall px: nat, py: nat :: px < 8 && py < 8 ==> CellPixel(o.f, v, px, py) == 0
  }

  /** Where a pixel of a cell is. */
  lemma PixelAt(o: Layout, pixels: nat, cy: nat, cx: nat, px: nat, py: nat)
    requires Fits(o, pixels) && cx < o.w && cy < o.h && px < 8 && py < 16
    ensures var k := Index(o.width, cy * 16 + py, cx * 8 + px);
            && k < pixels && InRect(o.width, k, cx * 8, cy * 16, 8, 16)
            && Col(o.width, k) % 8 == px && Row(o.width, k) % 16 == py
  {
    hide Index, Row, Col;
    var r, c := cy * 16 + py, cx * 8 + px;
    IndexAt(o.width, r, c);
    IndexBound(o.width, r, c, o.h * 16);
  }

  // ---- the code

  /** Draws the glyph of a cell that is not a space, or blackens its block. */
  method DrawCell(o: Layout, fb: array<nat>, v: nat, cy: nat, cx: nat)
    requires Fits(o, fb.Length) && cx < o.w && cy < o.h && CharOf(v) <= o.f.mx
    modifies fb
    ensures forall k :: 0 <= k < fb.Length ==>
              fb[k] == if InRect(o.width, k, cx * 8, cy * 16, 8, 16)
                       then CellPixel(o.f, v, Col(o.width, k) - cx * 8, Row(o.width, k) - cy * 16) else old(fb[k])
  {
    hide Row, Col, GlyphPixel, CharOf, ColorOf, CharPixel, InSpans, Index;
    RowsFit(o.width, cy * 16 + 16, o.h * 16, fb.Length);
    if CharOf(v) != SPACE {
      ghost var was := fb[..];
      PrintChar(fb, o.width, CharOf(v), cx * 8, cy * 16, ColorOf(v), o.f, 1);
      forall k | 0 <= k < fb.Length
        ensures fb[k] == if InRect(o.width, k, cx * 8, cy * 16, 8, 16)
                         then CellPixel(o.f, v, Col(o.width, k) - cx * 8, Row(o.width, k) - cy * 16) else old(fb[k])
      {
        CharAtScaleOne(was[k], o.width, k, cx * 8, cy * 16, CharOf(v), ColorOf(v), o.f);
      }
    } else {
      RectFits(o.width, cx * 8, cy * 16, 8, 16, fb.Length);
      FillRect(fb, o.width, cx * 8, cy * 16, 8, 16, 0);
    }
  }

  /** The first i cells hold what was a row below. */
  ghost predicate Moved(bf: seq<nat>, was: seq<nat>, w: nat, i: nat) {
    && |bf| == |was| && i + w <= |was|
    && (forall k :: 0 <= k < i ==> bf[k] == was[k + w])
    && (forall k :: i <= k < |bf| ==> bf[k] == was[k])
  }

  lemma MoveOne(bf: seq<nat>, was: seq<nat>, w: nat, i: nat)
    requires Moved(bf, was, w, i) && i + w < |was| && w > 0
    ensures bf[i + w] == was[i + w] && Moved(bf[i := bf[i + w]], was, w, i + 1)
  {
  }

  /** The scroll: every row moves up, cell by cell, and the last becomes
      blank. */
  method Scroll(o: Layout, bf: array<nat>, fb: array<nat>)
    requires bf != fb && Shown(o, fb[..], bf[..])
    modifies bf, fb
    ensures o.w <= bf.Length && bf[..] == old(bf[..])[o.w..] + Blanks(o.w) && Shown(o, fb[..], bf[..])
  {
    hide Row, Col, Index, CharOf, PixelFor, Shown;
    ghost var was := bf[..];
    ghost var n := o.w * (o.h - 1);
    ShownFacts(o, fb[..], was);
    var i := 0;
    while i < o.w * (o.h - 1)
      invariant i <= n && Moved(bf[..], was, o.w, i) && Shown(o, fb[..], bf[..])
    {
      MoveOne(bf[..], was, o.w, i);
      MoveCell(o, bf, fb, i);
      i := i + 1;
    }
    ghost var moved, shown := bf[..], fb[..];
    while i < o.w * o.h
      invariant n <= i <= o.w * o.h && fb[..] == shown
      invariant forall k :: 0 <= k < |was| ==> bf[k] == if n <= k < i then BLANK else moved[k]
    {
      bf[i] := BLANK;
      i := i + 1;
    }
    RectFits(o.width, 0, (o.h - 1) * 16, o.w * 8, 16, fb.Length);
    FillRect(fb, o.width, 0, (o.h - 1) * 16, o.w * 8, 16, 0);
    BottomShown(o, shown, fb[..], moved, bf[..]);
    assert bf[..] == was[o.w..] + Blanks(o.w);
  }

  lemma ShownFacts(o: Layout, fb: seq<nat>, bf: seq<nat>)
    requires Shown(o, fb, bf)
    ensures Fits(o, |fb|) && |bf| == o.w * o.h == o.w * (o.h - 1) + o.w
    ensures Moved(bf, bf, o.w, 0)
  {
    hide PixelFor, CharOf;
    assert o.w * o.h == o.w * (o.h - 1) + o.w;
    assert o.w * (o.h - 1) >= 0;
  }

  /** Cell i takes the value of the cell below and is drawn. */
  method MoveCell(o: Layout, bf: array<nat>, fb: array<nat>, i: nat)
    requires bf != fb && Shown(o, fb[..], bf[..]) && i + o.w < bf.Length
    modifies bf, fb
    ensures bf[..] == old(bf[..])[i := old(bf[i + o.w])] && Shown(o, fb[..], bf[..])
  {
    hide Row, Col, Index, CharOf, PixelFor;
    ghost var was := bf[..];
    ghost var shown := fb[..];
    RowLimit(o.w, i, o.h);
    IndexOf(o.w, i);
    var v := bf[i + o.w];
    bf[i] := v;
    DrawCell(o, fb, v, Row(o.w, i), Col(o.w, i));
    CellShown(o, shown, fb[..], was, Row(o.w, i), Col(o.w, i), v);
    assert bf[..] == was[i := v];
  }

  lemma EmptyView(o: Layout, fb: seq<nat>, bf: seq<nat>)
    requires Fits(o, |fb|) && |bf| == o.w * o.h
    requires (forall k :: 0 <= k < |fb| ==> fb[k] == 0) && (forall i :: 0 <= i < |bf| ==> bf[i] == BLANK)
    ensures Shown(o, fb, bf) && bf == View([[]], o.w, o.h) && Wrapped([[]], o.w)
  {
    hide Row, Col, Index, CharOf, ColorOf;
    BlankIs();
    forall k | 0 <= k < |fb| ensures fb[k] == PixelFor(o, bf, k) {
      if InArea(o, k) { CellInBuffer(o, |fb|, k); }
    }
  }

  method FillBlank(bf: array<nat>, n: nat)
    requires n == bf.Length
    modifies bf
    ensures forall k :: 0 <= k < n ==> bf[k] == BLANK
  {
    var i := 0;
    while i < n
      invariant i <= n && forall k :: 0 <= k < i ==> bf[k] == BLANK
    {
      bf[i] := BLANK;
      i := i + 1;
    }
  }

  class TextConsole {
    const o: Layout
    const bf: array<nat>
    const fb: array<nat>
    var x: nat
    var y: nat
    /** The text printed so far, wrapped. */
    ghost var lines: seq<Line>

    /** The buffer is the last h lines, the framebuffer shows it, and the cursor
        is behind the last character. */
    ghost predicate Valid()
      reads this, bf, fb
    {
      Shows(lines) && Wrapped(lines, o.w)
    }

    ghost predicate Shows(l: seq<Line>)
      reads this, bf, fb
    {
      && bf != fb && Shown(o, fb[..], bf[..]) && l != [] && bf[..] == View(l, o.w, o.h)
      && x == |l[|l| - 1]| && y == |l| - 1 - Top(l, o.h)
    }

    constructor (vmemW: nat, vmemH: nat, vmem: array<nat>, f: Font)
      requires vmemW >= 8 && vmemH >= 16 && vmemW * vmemH <= vmem.Length && Complete(f) && f.mx >= SPACE
      requires forall k :: 0 <= k < vmem.Length ==> vmem[k] == 0
      ensures Valid() && lines == [[]] && fb == vmem && fresh(bf) && o == Layout(vmemW, vmemW / 8, vmemH / 16, f)
    {
      var w, h := vmemW / 8, vmemH / 16;
      o := Layout(vmemW, w, h, f);
      fb := vmem;
      lines := [[]];
      x, y := 0, 0;
      var cells := w * h;
      bf := new nat[cells];
      new;
      hide Row, Col, Index, CharOf, ColorOf, PixelFor, Shown, View;
      FillBlank(bf, cells);
      AreaFits(vmemW, vmemH, vmem.Length);
      EmptyView(o, fb[..], bf[..]);
    }

    /** The cursor goes to a new line, scrolling if there is no row left. */
    method NewRow(ghost l: seq<Line>)
      requires Shows(l)
      modifies this`x, this`y, bf, fb
      ensures Shows(l + [[]])
    {
      hide Row, Col, Index, View, PixelFor, CharOf;
      ViewAfterNewline(l, o.w, o.h);
      x, y := 0, y + 1;
      if y == o.h {
        Scroll(o, bf, fb);
        y := y - 1;
      }
    }

    /** A character that is not a newline at the cursor. */
    method SetCharacter(c: nat, cl: nat)
      requires Valid() && c <= o.f.mx && c != NEWLINE && cl < COLORS
      modifies this`x, bf, fb
      ensures Shows(lines[..|lines| - 1] + [lines[|lines| - 1] + [Glyph(c, cl)]])
    {
      hide Row, Col, Index, View, PixelFor, CharOf, Pack, Shown;
      ViewAfterChar(lines, Glyph(c, cl), o.w, o.h);
      if c != SPACE {
        ghost var was, shown := bf[..], fb[..];
        ShownFacts(o, shown, was);
        Unpack(c, cl);
        ViewLength(lines, o.w, o.h);
        bf[Index(o.w, y, x)] := Pack(c, cl);
        DrawCell(o, fb, Pack(c, cl), y, x);
        CellShown(o, shown, fb[..], was, y, x, Pack(c, cl));
        assert bf[..] == was[Index(o.w, y, x) := Pack(c, cl)];
      }
      x := x + 1;
    }

    /** Prints one character in a color. */
    method PrintCharacter(c: nat, cl: nat)
      requires Valid() && c <= o.f.mx && cl < COLORS
      modifies this, bf, fb
      ensures Valid() && lines == Put(old(lines), Glyph(c, cl), o.w)
    {
      hide Shown, View, CharOf, Pack;
      PutWrapped(lines, Glyph(c, cl), o.w);
      if c == NEWLINE {
        NewRow(lines);
      } else {
        SetCharacter(c, cl);
        ghost var l := lines[..|lines| - 1] + [lines[|lines| - 1] + [Glyph(c, cl)]];
        assert l + [] == l;
        if x == o.w {
          NewRow(l);
        }
      }
      lines := Put(lines, Glyph(c, cl), o.w);
    }

    /** Prints a string up to its NUL. */
    method Print(s: seq<nat>, cl: nat)
      requires Valid() && cl < COLORS && s != [] && s[|s| - 1] == 0
      requires forall k :: 0 <= k < |s| - 1 ==> 0 < s[k] <= o.f.mx
      modifies this, bf, fb
      ensures Valid() && lines == PutAll(old(lines), Glyphs(s[..|s| - 1], cl), o.w)
    {
      hide Put, Shown, View, Wrapped;
      var i := 0;
      while s[i] != 0
        invariant i < |s| && Valid()
        invariant lines == PutAll(old(lines), Glyphs(s[..i], cl), o.w)
        decreases |s| - i
      {
        PrintCharacter(s[i], cl);
        assert Glyphs(s[..i + 1], cl)[..i] == Glyphs(s[..i], cl);
        i := i + 1;
      }
    }
  }

  function Glyphs(s: seq<nat>, cl: nat): (g: seq<Glyph>)
    ensures |g| == |s|
  {
    seq(|s|, i requires 0 <= i < |s| => Glyph(s[i], cl))
  }

  lemma ViewLength(lines: seq<Line>, w: nat, h: nat)
    requires w > 0
    ensures |View(lines, w, h)| == w * h
  {
  }

  lemma AreaFits(w: nat, h: nat, n: nat)
    requires w * h <= n
    ensures h / 16 * 16 * w <= n
  {
    RowsFit(w, h / 16 * 16, h, n);
  }
}
