/** Drawing into the framebuffer, src/kernel/gfx/gfx.c:28-95. */
module Graphics {
  import opened Words
  import opened Division

  /** Two words a glyph, eight rows of eight pixels each. */
  datatype Font = Font(mx: nat, dt: seq<Word>)

  predicate Complete(f: Font) { |f.dt| >= 2 * (f.mx + 1) }

  // ---- pixel positions

  function Row(w: nat, k: nat): nat
    requires w > 0
  {
    k / w
  }

  function Col(w: nat, k: nat): (c: nat)
    requires w > 0
    ensures c < w
  {
    k % w
  }

  function Index(w: nat, r: nat, c: nat): nat { r * w + c }

  lemma IndexAt(w: nat, r: nat, c: nat)
    requires c < w
    ensures Row(w, Index(w, r, c)) == r && Col(w, Index(w, r, c)) == c
  {
    QuotientUnique(r * w + c, w, r, c);
  }

  lemma IndexOf(w: nat, k: nat)
    requires w > 0
    ensures k == Index(w, Row(w, k), Col(w, k))
  {
  }

  lemma IndexNext(w: nat, r: nat, c: nat)
    ensures Index(w, r, c) + 1 == Index(w, r, c + 1)
    ensures Index(w, r, c + w) == Index(w, r + 1, c)
  {
    assert (r + 1) * w == r * w + w;
  }

  lemma IndexBound(w: nat, r: nat, c: nat, rows: nat)
    requires c < w && r < rows
    ensures Index(w, r, c) < rows * w
  {
    MulAtLeast(rows - r, w);
    assert rows * w == r * w + (rows - r) * w;
  }

  predicate InRect(width: nat, k: nat, x: nat, y: nat, w: nat, h: nat)
    requires width > 0
  {
    x <= Col(width, k) < x + w && y <= Row(width, k) < y + h
  }

  lemma IndexGrows(w: nat, r: nat, r': nat, c: nat)
    requires r <= r'
    ensures Index(w, r, c) <= Index(w, r', c)
  {
    assert r' * w == r * w + (r' - r) * w && (r' - r) * w >= 0;
  }

  // ---- rectangles

  /** Position k is one of the w pixels from column x of row r on; past the
      right edge they are the first of the next row. */
  predicate Span(width: nat, k: nat, x: nat, w: nat, r: nat) { Index(width, r, x) <= k < Index(width, r, x) + w }

  ghost predicate InSpans(width: nat, k: nat, x: nat, w: nat, y: nat, end: nat) {
    exists r: nat :: y <= r < end && Span(width, k, x, w, r)
  }

  /** A rectangle that does not pass the right edge is what it should be. */
  lemma SpansAreRect(width: nat, k: nat, x: nat, y: nat, w: nat, h: nat)
    requires 0 < width && x + w <= width
    ensures InSpans(width, k, x, w, y, y + h) <==> InRect(width, k, x, y, w, h)
  {
    hide Row, Col, Index;
    IndexOf(width, k);
    if InRect(width, k, x, y, w, h) {
      IndexSpan(width, Row(width, k), x, Col(width, k) - x);
      assert Span(width, k, x, w, Row(width, k));
    }
    if r: nat :| y <= r < y + h && Span(width, k, x, w, r) {
      IndexSpan(width, r, x, k - Index(width, r, x));
      IndexAt(width, r, x + (k - Index(width, r, x)));
    }
  }

  lemma IndexSpan(width: nat, r: nat, c: nat, n: nat)
    ensures Index(width, r, c) + n == Index(width, r, c + n)
  {
  }

  /** The rows from y to before row yy, and n pixels of row yy. */
  ghost predicate PaintedOnly(fb: seq<nat>, was: seq<nat>, width: nat, x: nat, y: nat, w: nat, yy: nat, n: nat, cl: nat) {
    |fb| == |was| && forall k :: 0 <= k < |fb| ==> fb[k] == PaintedPixel(was[k], width, k, x, y, w, yy, n, cl)
  }

  ghost function PaintedPixel(was: nat, width: nat, k: nat, x: nat, y: nat, w: nat, yy: nat, n: nat, cl: nat): nat {
    if InSpans(width, k, x, w, y, yy) || Span(width, k, x, n, yy) then cl else was
  }

  lemma PaintOne(fb: seq<nat>, was: seq<nat>, width: nat, x: nat, y: nat, w: nat, yy: nat, n: nat, cl: nat)
    requires Index(width, yy, x) + n < |fb|
    requires PaintedOnly(fb, was, width, x, y, w, yy, n, cl)
    ensures PaintedOnly(fb[Index(width, yy, x) + n := cl], was, width, x, y, w, yy, n + 1, cl)
  {
    hide InSpans, Index;
  }

  lemma NothingPainted(fb: seq<nat>, width: nat, x: nat, y: nat, w: nat, cl: nat)
    ensures PaintedOnly(fb, fb, width, x, y, w, y, 0, cl)
  {
  }

  lemma RowPainted(fb: seq<nat>, was: seq<nat>, width: nat, x: nat, y: nat, w: nat, yy: nat, cl: nat)
    requires y <= yy && PaintedOnly(fb, was, width, x, y, w, yy, w, cl)
    ensures PaintedOnly(fb, was, width, x, y, w, yy + 1, 0, cl)
  {
    hide Index;
    forall k | 0 <= k < |fb|
      ensures PaintedPixel(was[k], width, k, x, y, w, yy, w, cl) == PaintedPixel(was[k], width, k, x, y, w, yy + 1, 0, cl)
    {
      if r: nat :| y <= r < yy + 1 && Span(width, k, x, w, r) {
        assert r < yy ==> InSpans(width, k, x, w, y, yy);
      }
    }
  }

  lemma AllPainted(fb: seq<nat>, was: seq<nat>, width: nat, x: nat, y: nat, w: nat, end: nat, cl: nat)
    requires PaintedOnly(fb, was, width, x, y, w, end, 0, cl)
    ensures |fb| == |was| && forall k :: 0 <= k < |fb| ==> fb[k] == if InSpans(width, k, x, w, y, end) then cl else was[k]
  {
    hide InSpans;
  }

  /** Rows of w pixels each, h of them; only the memory bounds them. */
  method FillRect(fb: array<nat>, width: nat, x: nat, y: nat, w: nat, h: nat, cl: nat)
    requires w > 0 && h > 0 ==> Index(width, y + h - 1, x) + w <= fb.Length
    modifies fb
    ensures forall k :: 0 <= k < fb.Length ==> fb[k] == if InSpans(width, k, x, w, y, y + h) then cl else old(fb[k])
    ensures 0 < width && x + w <= width ==>
              forall k :: 0 <= k < fb.Length ==> fb[k] == if InRect(width, k, x, y, w, h) then cl else old(fb[k])
  {
    hide Row, Col, Index, InSpans, Span, PaintedOnly;
    ghost var was := fb[..];
    NothingPainted(was, width, x, y, w, cl);
    var yy := y;
    while yy < y + h
      invariant y <= yy <= y + h && PaintedOnly(fb[..], was, width, x, y, w, yy, 0, cl)
    {
      var i, j := Index(width, yy, x), x;
      while j < x + w
        invariant x <= j <= x + w && i == Index(width, yy, x) + (j - x)
        invariant PaintedOnly(fb[..], was, width, x, y, w, yy, j - x, cl)
      {
        IndexGrows(width, yy, y + h - 1, x);
        PaintOne(fb[..], was, width, x, y, w, yy, j - x, cl);
        ghost var next := fb[..][i := cl];
        fb[i] := cl;
        assert fb[..] == next;
        i := i + 1;
        j := j + 1;
      }
      RowPainted(fb[..], was, width, x, y, w, yy, cl);
      yy := yy + 1;
    }
    AllPainted(fb[..], was, width, x, y, w, y + h, cl);
    forall k | 0 <= k < fb.Length
      ensures fb[k] == if InSpans(width, k, x, w, y, y + h) then cl else old(fb[k])
      ensures 0 < width && x + w <= width ==> (InSpans(width, k, x, w, y, y + h) <==> InRect(width, k, x, y, w, h))
    {
      assert fb[k] == fb[..][k] && was[k] == old(fb[k]);
      if 0 < width && x + w <= width { SpansAreRect(width, k, x, y, w, h); }
    }
  }

  // ---- glyphs

  /** Pixel (px, py) of a word that holds eight rows. */
  predicate Lit(g: nat, px: nat, py: nat) { Bit(g, py * 8 + px) }

  /** The number of the pixel of a word that position k shows, at scale sc. */
  function PixelOf(width: nat, k: nat, x: nat, y: nat, sc: nat): (p: (nat, nat))
    requires width > 0 && InRect(width, k, x, y, 8 * sc, 8 * sc)
    ensures p.0 < 8 && p.1 < 8
  {
    QuotientBelow(Col(width, k) - x, sc, 8);
    QuotientBelow(Row(width, k) - y, sc, 8);
    ((Col(width, k) - x) / sc, (Row(width, k) - y) / sc)
  }

  /** The word g drawn at (x, y), every pixel a square of sc by sc. */
  function WordPixel(was: nat, width: nat, k: nat, x: nat, y: nat, g: nat, cl: nat, sc: nat): nat
    requires width > 0
  {
    if InRect(width, k, x, y, 8 * sc, 8 * sc) then
      var p := PixelOf(width, k, x, y, sc);
      if Lit(g, p.0, p.1) then cl else 0
    else was
  }

  /** The same after the first j pixels. */
  function DrawnPixel(was: nat, width: nat, k: nat, x: nat, y: nat, g: nat, cl: nat, sc: nat, j: nat): nat
    requires width > 0
  {
    if InRect(width, k, x, y, 8 * sc, 8 * sc) then
      var p := PixelOf(width, k, x, y, sc);
      if p.1 * 8 + p.0 < j then if Lit(g, p.0, p.1) then cl else 0 else was
    else was
  }

  ghost predicate Drawn(fb: seq<nat>, was: seq<nat>, width: nat, x: nat, y: nat, g: nat, cl: nat, sc: nat, j: nat)
    requires width > 0
  {
    |fb| == |was| && forall k :: 0 <= k < |fb| ==> fb[k] == DrawnPixel(was[k], width, k, x, y, g, cl, sc, j)
  }

  /** The square of pixel j holds the positions that show it. */
  lemma SquareOfPixel(width: nat, k: nat, x: nat, y: nat, sc: nat, j: nat)
    requires width > 0 && j < 64
    ensures InRect(width, k, x + j % 8 * sc, y + j / 8 * sc, sc, sc)
            <==> InRect(width, k, x, y, 8 * sc, 8 * sc) && PixelOf(width, k, x, y, sc) == (j % 8, j / 8)
  {
    hide Row, Col;
    var c, r := Col(width, k), Row(width, k);
    Within(c, x, sc, j % 8);
    Within(r, y, sc, j / 8);
  }

  lemma Within(c: nat, x: nat, sc: nat, n: nat)
    requires n < 8
    ensures x + n * sc <= c < x + n * sc + sc <==> x <= c < x + 8 * sc && sc > 0 && (c - x) / sc == n
  {
    SevenAtMost(sc, n);
    if x <= c && sc > 0 { Slot(c - x, sc, n); }
  }

  /** Which slot of length sc a number lies in. */
  lemma Slot(d: nat, sc: nat, n: nat)
    requires sc > 0
    ensures n * sc <= d < n * sc + sc <==> d / sc == n
  {
    if n * sc <= d < n * sc + sc { QuotientUnique(d, sc, n, d - n * sc); }
    assert d == d / sc * sc + d % sc;
  }

  lemma SevenAtMost(sc: nat, c: nat)
    requires c < 8
    ensures 0 <= c * sc && c * sc + sc <= 8 * sc
  {
    assert 8 * sc == c * sc + (8 - c) * sc == c * sc + sc + (7 - c) * sc;
  }

  /** One more pixel drawn as its square. */
  lemma DrawOne(fb: seq<nat>, fb': seq<nat>, was: seq<nat>, width: nat, x: nat, y: nat, g: nat, cl: nat, sc: nat, j: nat)
    requires width > 0 && j < 64 && Drawn(fb, was, width, x, y, g, cl, sc, j) && |fb'| == |fb|
    requires forall k :: 0 <= k < |fb| ==>
               fb'[k] == if InRect(width, k, x + j % 8 * sc, y + j / 8 * sc, sc, sc) then (if Bit(g, j) then cl else 0) else fb[k]
    ensures Drawn(fb', was, width, x, y, g, cl, sc, j + 1)
  {
    hide Bit, InRect, PixelOf;
    forall k | 0 <= k < |fb| ensures fb'[k] == DrawnPixel(was[k], width, k, x, y, g, cl, sc, j + 1) {
      SquareOfPixel(width, k, x, y, sc, j);
      assert fb[k] == DrawnPixel(was[k], width, k, x, y, g, cl, sc, j);
    }
  }

  lemma NothingDrawn(fb: seq<nat>, width: nat, x: nat, y: nat, g: nat, cl: nat, sc: nat)
    requires width > 0
    ensures Drawn(fb, fb, width, x, y, g, cl, sc, 0)
  {
  }

  lemma AllDrawn(fb: seq<nat>, was: seq<nat>, width: nat, x: nat, y: nat, g: nat, cl: nat, sc: nat)
    requires width > 0 && Drawn(fb, was, width, x, y, g, cl, sc, 64)
    ensures |fb| == |was| && forall k :: 0 <= k < |fb| ==> fb[k] == WordPixel(was[k], width, k, x, y, g, cl, sc)
  {
    hide Lit, InRect;
    forall k | 0 <= k < |fb|
      ensures DrawnPixel(was[k], width, k, x, y, g, cl, sc, 64) == WordPixel(was[k], width, k, x, y, g, cl, sc)
    {
    }
  }

  /** The square of one pixel (gfx.c:39-51): at scale one a single store. */
  method DrawSquare(fb: array<nat>, width: nat, i: nat, v: nat, sc: nat, ghost x: nat, ghost y: nat)
    requires width > 0 && x + sc <= width && (y + sc) * width <= fb.Length && i == Index(width, y, x)
    modifies fb
    ensures forall k :: 0 <= k < fb.Length ==> fb[k] == if InRect(width, k, x, y, sc, sc) then v else old(fb[k])
  {
    hide Row, Col, Index, InSpans, Span, PaintedOnly;
    ghost var was := fb[..];
    NothingPainted(was, width, x, y, sc, v);
    if sc == 1 {
      IndexBound(width, y, x, y + 1);
      PaintOne(fb[..], was, width, x, y, sc, y, 0, v);
      ghost var next := fb[..][i := v];
      fb[i] := v;
      assert fb[..] == next;
      RowPainted(fb[..], was, width, x, y, sc, y, v);
    } else {
      var k := i;
      for l := 0 to sc
        invariant k == Index(width, y + l, x) && PaintedOnly(fb[..], was, width, x, y, sc, y + l, 0, v)
      {
        for m := 0 to sc
          invariant PaintedOnly(fb[..], was, width, x, y, sc, y + l, m, v)
        {
          IndexSpan(width, y + l, x, m);
          IndexBound(width, y + l, x + m, y + sc);
          PaintOne(fb[..], was, width, x, y, sc, y + l, m, v);
          ghost var next := fb[..][k + m := v];
          fb[k + m] := v;
          assert fb[..] == next;
        }
        RowPainted(fb[..], was, width, x, y, sc, y + l, v);
        IndexNext(width, y + l, x);
        IndexSpan(width, y + l, x, width);
        k := k + width;
      }
    }
    AllPainted(fb[..], was, width, x, y, sc, y + sc, v);
    forall k | 0 <= k < fb.Length ensures fb[k] == if InRect(width, k, x, y, sc, sc) then v else old(fb[k]) {
      assert fb[k] == fb[..][k] && was[k] == old(fb[k]);
      SpansAreRect(width, k, x, y, sc, sc);
    }
  }

  /** A square of the glyph lies in the glyph. */
  lemma SquareFits(width: nat, x: nat, y: nat, sc: nat, c: nat, r: nat, n: nat)
    requires c < 8 && r < 8 && x + 8 * sc <= width && (y + 8 * sc) * width <= n
    ensures x + c * sc + sc <= width && (y + r * sc + sc) * width <= n
  {
    SevenAtMost(sc, c);
    SevenAtMost(sc, r);
    RowsFit(width, y + r * sc + sc, y + 8 * sc, n);
  }

  /** Where the square after that of pixel j starts. */
  lemma NextSquare(width: nat, x: nat, y: nat, sc: nat, j: nat)
    requires 8 * sc <= width
    ensures width * sc >= 8 * sc
    ensures var i := Index(width, y + j / 8 * sc, x + j % 8 * sc) + sc;
            (if (j + 1) % 8 == 0 then i + (width * sc - 8 * sc) else i)
            == Index(width, y + (j + 1) / 8 * sc, x + (j + 1) % 8 * sc)
  {
    hide Index;
    var c, r := j % 8, j / 8;
    RowsSpan(width, y + r * sc, x, sc);
    NextQuotient(j, 8);
    IndexSpan(width, y + r * sc, x + c * sc, sc);
    IndexSpan(width, y + r * sc, x, 8 * sc);
    assert (r + 1) * sc == r * sc + sc && (c + 1) * sc == c * sc + sc;
  }

  lemma RowsSpan(width: nat, r: nat, c: nat, sc: nat)
    requires 8 * sc <= width
    ensures width * sc >= 8 * sc && Index(width, r, c) + width * sc == Index(width, r + sc, c)
  {
    if sc > 0 { MulAtLeast(sc, width); }
    assert width * sc == sc * width && (r + sc) * width == r * width + sc * width;
  }

  /** Draws the 64 pixels of a word, eight rows of eight from (x, y) on. */
  method DrawWord(fb: array<nat>, width: nat, g: nat, x: nat, y: nat, cl: nat, sc: nat)
    requires width > 0 && x + 8 * sc <= width && (y + 8 * sc) * width <= fb.Length
    modifies fb
    ensures forall k :: 0 <= k < fb.Length ==> fb[k] == WordPixel(old(fb[k]), width, k, x, y, g, cl, sc)
  {
    hide Row, Col, Index, DrawnPixel, Lit, InRect, Drawn, WordPixel;
    ghost var was := fb[..];
    NothingDrawn(was, width, x, y, g, cl, sc);
    var g', i, j := g, Index(width, y, x), 0;
    while j < 64
      invariant j <= 64 && i == Index(width, y + j / 8 * sc, x + j % 8 * sc)
      invariant forall k: nat :: Bit(g', k) == Bit(g, j + k)
      invariant Drawn(fb[..], was, width, x, y, g, cl, sc, j)
    {
      SquareFits(width, x, y, sc, j % 8, j / 8, fb.Length);
      NextSquare(width, x, y, sc, j);
      assert Bit(g', 0) == Bit(g, j + 0);
      ghost var before := fb[..];
      DrawSquare(fb, width, i, if g' % 2 == 1 then cl else 0, sc, x + j % 8 * sc, y + j / 8 * sc);
      DrawOne(before, fb[..], was, width, x, y, g, cl, sc, j);
      ShiftBits(g, g', j);
      g' := g' / 2;
      i := i + sc;
      j := j + 1;
      if j % 8 == 0 {
        i := i + (width * sc - 8 * sc);
      }
    }
    AllDrawn(fb[..], was, width, x, y, g, cl, sc);
    forall k | 0 <= k < fb.Length ensures fb[k] == WordPixel(old(fb[k]), width, k, x, y, g, cl, sc) {
      assert fb[k] == fb[..][k] && was[k] == old(fb[k]);
    }
  }

  lemma ShiftBits(g: nat, g': nat, j: nat)
    requires forall k: nat :: Bit(g', k) == Bit(g, j + k)
    ensures forall k: nat :: Bit(g' / 2, k) == Bit(g, j + 1 + k)
  {
    forall k: nat ensures Bit(g' / 2, k) == Bit(g, j + 1 + k) {
      assert Bit(g', k + 1) == Bit(g, j + (k + 1));
    }
  }

  /** Pixel (px, py) of the 8 by 16 glyph of c. */
  predicate GlyphPixel(f: Font, c: nat, px: nat, py: nat)
    requires Complete(f) && c <= f.mx && py < 16
  {
    Lit(f.dt[2 * c + py / 8], px, py % 8)
  }

  /** What position k shows of the glyph of c at (x, y), every pixel a square of
      sc by sc. */
  function CharPixel(was: nat, width: nat, k: nat, x: nat, y: nat, c: nat, cl: nat, f: Font, sc: nat): nat
    requires Complete(f) && c <= f.mx && width > 0
  {
    if InRect(width, k, x, y, 8 * sc, 16 * sc) then
      QuotientBelow(Row(width, k) - y, sc, 16);
      if GlyphPixel(f, c, (Col(width, k) - x) / sc, (Row(width, k) - y) / sc) then cl else 0
    else was
  }

  /** The two words of a glyph, one above the other. */
  lemma TwoWords(was: nat, width: nat, k: nat, x: nat, y: nat, c: nat, cl: nat, f: Font, sc: nat)
    requires Complete(f) && c <= f.mx && width > 0
    ensures WordPixel(WordPixel(was, width, k, x, y, f.dt[2 * c], cl, sc), width, k, x, y + 8 * sc, f.dt[2 * c + 1], cl, sc)
            == CharPixel(was, width, k, x, y, c, cl, f, sc)
  {
    hide Row, Col, Lit;
    var r := Row(width, k);
    if sc > 0 && y <= r { Halves(r - y, sc); }
  }

  /** The upper and the lower eight of sixteen slots. */
  lemma Halves(d: nat, sc: nat)
    requires sc > 0
    ensures d < 8 * sc ==> d / sc < 8
    ensures 8 * sc <= d < 16 * sc ==> d / sc == (d - 8 * sc) / sc + 8 && (d - 8 * sc) / sc < 8
  {
    if d < 8 * sc {
      QuotientBelow(d, sc, 8);
    } else if d < 16 * sc {
      var e := d - 8 * sc;
      QuotientBelow(e, sc, 8);
      assert d == (e / sc + 8) * sc + e % sc;
      QuotientUnique(d, sc, e / sc + 8, e % sc);
    }
  }

  /** Draws the glyph of c at (x, y) at scale sc. A character past the end of
      the font blackens a block of sixteen by eight instead. */
  method PrintChar(fb: array<nat>, width: nat, c: nat, x: nat, y: nat, cl: nat, f: Font, sc: nat)
    requires Complete(f) && width > 0
    requires if c <= f.mx then x + 8 * sc <= width && (y + 16 * sc) * width <= fb.Length
             else sc > 0 ==> Index(width, y + 8 * sc - 1, x) + 16 * sc <= fb.Length
    modifies fb
    ensures c <= f.mx ==>
              forall k :: 0 <= k < fb.Length ==> fb[k] == CharPixel(old(fb[k]), width, k, x, y, c, cl, f, sc)
    ensures c > f.mx ==>
              forall k :: 0 <= k < fb.Length ==>
                fb[k] == if InSpans(width, k, x, 16 * sc, y, y + 8 * sc) then 0 else old(fb[k])
  {
    hide Row, Col, Lit, WordPixel, CharPixel, InSpans;
    if c > f.mx {
      FillRect(fb, width, x, y, 16 * sc, 8 * sc, 0);
      return;
    }
    RowsFit(width, y + 8 * sc, y + 16 * sc, fb.Length);
    ghost var was := fb[..];
    DrawWord(fb, width, f.dt[2 * c], x, y, cl, sc);
    DrawWord(fb, width, f.dt[2 * c + 1], x, y + 8 * sc, cl, sc);
    forall k | 0 <= k < fb.Length ensures fb[k] == CharPixel(old(fb[k]), width, k, x, y, c, cl, f, sc) {
      TwoWords(was[k], width, k, x, y, c, cl, f, sc);
    }
  }

  /** At scale one a pixel of the glyph is a pixel of the screen. */
  lemma CharAtScaleOne(was: nat, width: nat, k: nat, x: nat, y: nat, c: nat, cl: nat, f: Font)
    requires Complete(f) && c <= f.mx && width > 0
    ensures CharPixel(was, width, k, x, y, c, cl, f, 1) ==
            if InRect(width, k, x, y, 8, 16) then (if GlyphPixel(f, c, Col(width, k) - x, Row(width, k) - y) then cl else 0)
            else was
  {
    hide Row, Col, GlyphPixel;
  }

  lemma RectFits(width: nat, x: nat, y: nat, w: nat, h: nat, n: nat)
    requires x + w <= width && h > 0 && (y + h) * width <= n
    ensures Index(width, y + h - 1, x) + w <= n
  {
    assert (y + h) * width == (y + h - 1) * width + width;
  }

  lemma RowsFit(width: nat, a: nat, b: nat, n: nat)
    requires a <= b && b * width <= n
    ensures a * width <= n
  {
    assert b * width == a * width + (b - a) * width && (b - a) * width >= 0;
  }
}
