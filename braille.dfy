/**
 * The text encoding behind the terminal camera: a `w` by `h` buffer of
 * pixels stored row by row, packed two columns by four rows into
 * codepoints of the Unicode Braille Patterns block (U+2800..U+28FF), laid
 * out as lines of text. Codepoints are integers; `'\n'` is 10.
 */
module Braille {
  import opened Base

  const BRAILLE_EMPTY: nat := 0x2800
  const NEWLINE: nat := 10

  /** `a.div_ceil(b)`. */
  function DivCeil(a: nat, b: nat): nat
    requires b > 0
  {
    (a + b - 1) / b
  }

  /** Codepoints per line: one per two pixel columns. */
  function Bw(w: nat): nat
  {
    DivCeil(w, 2)
  }

  /** Lines of codepoints: one per four pixel rows. */
  function Bh(h: nat): nat
  {
    DivCeil(h, 4)
  }

  // ---------------------------------------------------------------------
  // Pixel coordinates in a row-major buffer of width w
  // ---------------------------------------------------------------------

  /** `xy_from`. */
  function XyFrom(w: nat, x: nat, y: nat): nat
  {
    y * w + x
  }

  /** `xy_to`. */
  function XyTo(w: nat, n: nat): (nat, nat)
    requires w > 0
  {
    (n % w, n / w)
  }

  /** The quotient and remainder of `n` by `w` are the only split `n == q * w + r` with `r < w`. */
  lemma DivModUnique(n: nat, w: nat, q: nat, r: nat)
    requires w > 0 && r < w && n == q * w + r
    ensures n % w == r && n / w == q
  {
    ModUnique(n, w, q, r);
    assert w * (n / w) + n % w == n;
    var k := n / w - q;
    assert w * k == 0;
    if k >= 1 {
      MulAtLeast(w, k);
    } else if k <= -1 {
      MulAtLeast(w, -k);
    }
  }

  /** `xy_to` inverts `xy_from` for every column inside the buffer, and conversely. */
  lemma XyRoundTrip(w: nat, x: nat, y: nat)
    requires w > 0 && x < w
    ensures XyTo(w, XyFrom(w, x, y)) == (x, y)
  {
    DivModUnique(XyFrom(w, x, y), w, y, x);
  }

  lemma XyFromTo(w: nat, n: nat)
    requires w > 0
    ensures XyTo(w, n).0 < w && XyFrom(w, XyTo(w, n).0, XyTo(w, n).1) == n
  {
  }

  /** A flat index names exactly one pixel. */
  lemma XyBijection(w: nat, n: nat, x: nat, y: nat)
    requires w > 0 && x < w
    ensures (n == XyFrom(w, x, y)) <==> (XyTo(w, n) == (x, y))
  {
    XyRoundTrip(w, x, y);
    XyFromTo(w, n);
  }

  lemma MulMono(a: nat, b: nat, w: nat)
    requires a <= b
    ensures a * w <= b * w
  {
  }

  /** The pixels of a `w` by `h` buffer are the indices below `w * h`. */
  lemma XyInside(w: nat, h: nat, x: nat, y: nat)
    requires x < w && y < h
    ensures XyFrom(w, x, y) < w * h
  {
    MulMono(y + 1, h, w);
  }

  lemma XyToInside(w: nat, h: nat, n: nat)
    requires w > 0 && n < w * h
    ensures XyTo(w, n).1 < h
  {
    if n / w >= h {
      MulMono(h, n / w, w);
    }
  }

  // ---------------------------------------------------------------------
  // Braille dots
  // ---------------------------------------------------------------------

  /**
   * `get_hex_value`: the weight of the dot a pixel occupies in its 2x4
   * block, chosen by its column `x % 2` and row `y % 4`.
   */
  function HexValue(x: nat, y: nat): nat
  {
    var c, r := x % 2, y % 4;
    if c == 0 && r == 0 then 0x1
    else if c == 1 && r == 0 then 0x8
    else if c == 0 && r == 1 then 0x2
    else if c == 1 && r == 1 then 0x10
    else if c == 0 && r == 2 then 0x4
    else if c == 1 && r == 2 then 0x20
    else if c == 0 && r == 3 then 0x40
    else 0x80
  }

  /**
   * The Unicode Braille dot numbering, counted from 0: dots 1-3 run down
   * the left column, dots 4-6 down the right column, dots 7 and 8 form the
   * bottom row; dot `d` has weight `2^(d - 1)`.
   */
  function DotBit(c: nat, r: nat): nat
    requires c < 2 && r < 4
  {
    if r < 3 then 3 * c + r else 6 + c
  }

  /** Every weight is the bit of the standard dot at that position. */
  lemma HexValueIsDot(x: nat, y: nat)
    ensures HexValue(x, y) == Pow2(DotBit(x % 2, y % 4))
  {
    assert Pow2(0) == 1 && Pow2(1) == 2 && Pow2(2) == 4 && Pow2(3) == 8;
    assert Pow2(4) == 0x10 && Pow2(5) == 0x20 && Pow2(6) == 0x40 && Pow2(7) == 0x80;
  }

  /** Distinct positions in a block have distinct weights. */
  lemma HexValueInjective(x1: nat, y1: nat, x2: nat, y2: nat)
    requires HexValue(x1, y1) == HexValue(x2, y2)
    ensures x1 % 2 == x2 % 2 && y1 % 4 == y2 % 4
  {
  }

  /** What pixel `(x, y)` adds to its codepoint once the first `n` pixels have been seen. */
  function Dot(cbs: seq<bool>, w: nat, h: nat, x: nat, y: nat, n: nat): nat
  {
    if x < w && y < h && XyFrom(w, x, y) < n && XyFrom(w, x, y) < |cbs| && cbs[XyFrom(w, x, y)]
    then HexValue(x, y) else 0
  }

  /** The dots of block `(cx, cy)` contributed by the first `n` pixels. */
  function Partial(cbs: seq<bool>, w: nat, h: nat, cx: nat, cy: nat, n: nat): nat
  {
    var x, y := 2 * cx, 4 * cy;
    Dot(cbs, w, h, x, y, n) + Dot(cbs, w, h, x + 1, y, n)
    + Dot(cbs, w, h, x, y + 1, n) + Dot(cbs, w, h, x + 1, y + 1, n)
    + Dot(cbs, w, h, x, y + 2, n) + Dot(cbs, w, h, x + 1, y + 2, n)
    + Dot(cbs, w, h, x, y + 3, n) + Dot(cbs, w, h, x + 1, y + 3, n)
  }

  /** The dots of the lit pixels of block `(cx, cy)`. */
  function BlockDots(cbs: seq<bool>, w: nat, h: nat, cx: nat, cy: nat): nat
  {
    Partial(cbs, w, h, cx, cy, |cbs|)
  }

  /** Eight distinct dot bits sum to at most 0xFF: every codepoint is a Braille pattern. */
  lemma PartialIsPattern(cbs: seq<bool>, w: nat, h: nat, cx: nat, cy: nat, n: nat)
    ensures Partial(cbs, w, h, cx, cy, n) <= 0xFF
    ensures BRAILLE_EMPTY <= BRAILLE_EMPTY + Partial(cbs, w, h, cx, cy, n) <= 0x28FF
  {
    var x, y := 2 * cx, 4 * cy;
    assert HexValue(x, y) == 0x01 && HexValue(x + 1, y) == 0x08;
    assert HexValue(x, y + 1) == 0x02 && HexValue(x + 1, y + 1) == 0x10;
    assert HexValue(x, y + 2) == 0x04 && HexValue(x + 1, y + 2) == 0x20;
    assert HexValue(x, y + 3) == 0x40 && HexValue(x + 1, y + 3) == 0x80;
  }

  /** What seeing pixel `(px, py)`, lit or not, adds at position `(x, y)`. */
  function Hit(x: nat, y: nat, px: nat, py: nat, lit: bool): nat
  {
    if (x, y) == (px, py) && lit then HexValue(x, y) else 0
  }

  /** Seeing pixel `n` adds its weight to its own position only. */
  lemma DotStep(cbs: seq<bool>, w: nat, h: nat, x: nat, y: nat, n: nat)
    requires w > 0 && n < |cbs| == w * h
    ensures Dot(cbs, w, h, x, y, n + 1) == Dot(cbs, w, h, x, y, n) + Hit(x, y, XyTo(w, n).0, XyTo(w, n).1, cbs[n])
  {
    XyFromTo(w, n);
    XyToInside(w, h, n);
    if x < w {
      XyBijection(w, n, x, y);
    }
  }

  /** Of the eight positions of block `(cx, cy)`, pixel `(px, py)` is one exactly when the block is its own. */
  lemma HitsSum(cx: nat, cy: nat, px: nat, py: nat, lit: bool)
    ensures Hit(2 * cx, 4 * cy, px, py, lit) + Hit(2 * cx + 1, 4 * cy, px, py, lit)
          + Hit(2 * cx, 4 * cy + 1, px, py, lit) + Hit(2 * cx + 1, 4 * cy + 1, px, py, lit)
          + Hit(2 * cx, 4 * cy + 2, px, py, lit) + Hit(2 * cx + 1, 4 * cy + 2, px, py, lit)
          + Hit(2 * cx, 4 * cy + 3, px, py, lit) + Hit(2 * cx + 1, 4 * cy + 3, px, py, lit)
         == if (cx, cy) == (px / 2, py / 4) && lit then HexValue(px, py) else 0
  {
    assert px == 2 * (px / 2) + px % 2 && py == 4 * (py / 4) + py % 4;
  }

  /**
   * Seeing pixel `n` at `(x, y)` adds its weight to block `(x / 2, y / 4)`
   * and to no other block.
   */
  lemma PartialStep(cbs: seq<bool>, w: nat, h: nat, cx: nat, cy: nat, n: nat, x: nat, y: nat)
    requires w > 0 && n < |cbs| == w * h && (x, y) == XyTo(w, n)
    ensures Partial(cbs, w, h, cx, cy, n + 1)
         == Partial(cbs, w, h, cx, cy, n) + (if (cx, cy) == (x / 2, y / 4) && cbs[n] then HexValue(x, y) else 0)
  {
    var x0, y0 := 2 * cx, 4 * cy;
    DotStep(cbs, w, h, x0, y0, n);
    DotStep(cbs, w, h, x0 + 1, y0, n);
    DotStep(cbs, w, h, x0, y0 + 1, n);
    DotStep(cbs, w, h, x0 + 1, y0 + 1, n);
    DotStep(cbs, w, h, x0, y0 + 2, n);
    DotStep(cbs, w, h, x0 + 1, y0 + 2, n);
    DotStep(cbs, w, h, x0, y0 + 3, n);
    DotStep(cbs, w, h, x0 + 1, y0 + 3, n);
    HitsSum(cx, cy, x, y, cbs[n]);
  }

  lemma PartialNone(cbs: seq<bool>, w: nat, h: nat, cx: nat, cy: nat)
    ensures Partial(cbs, w, h, cx, cy, 0) == 0
  {
  }

  /** Block `(cx, cy)` is stored at index `cy * bw + cx`; distinct blocks use distinct indices. */
  lemma BlockIndex(bw: nat, bh: nat, cx: nat, cy: nat)
    requires cx < bw && cy < bh
    ensures XyFrom(bw, cx, cy) < bw * bh
    ensures forall cx': nat, cy': nat :: cx' < bw && XyFrom(bw, cx', cy') == XyFrom(bw, cx, cy) ==> (cx', cy') == (cx, cy)
  {
    XyInside(bw, bh, cx, cy);
    forall cx': nat, cy': nat | cx' < bw && XyFrom(bw, cx', cy') == XyFrom(bw, cx, cy)
      ensures (cx', cy') == (cx, cy)
    {
      XyRoundTrip(bw, cx, cy);
      XyRoundTrip(bw, cx', cy');
    }
  }

  /** The block of a pixel inside the buffer is inside the codepoint grid. */
  lemma BlockOfPixel(w: nat, h: nat, x: nat, y: nat)
    requires x < w && y < h
    ensures x / 2 < Bw(w) && y / 4 < Bh(h)
    ensures XyFrom(Bw(w), x / 2, y / 4) < Bw(w) * Bh(h)
  {
    BlockIndex(Bw(w), Bh(h), x / 2, y / 4);
  }

  // ---------------------------------------------------------------------
  // The text
  // ---------------------------------------------------------------------

  /** The text after the first `i` codepoints: a newline before each that starts a line, except the first. */
  function LayoutUpTo(cps: seq<nat>, bw: nat, i: nat): seq<nat>
    requires i <= |cps| && (bw > 0 || |cps| == 0)
  {
    if i == 0 then []
    else
      LayoutUpTo(cps, bw, i - 1)
      + (if i - 1 > 0 && (i - 1) % bw == 0 then [NEWLINE] else [])
      + [cps[i - 1]]
  }

  /** The frame buffer built from the codepoints: the loop above and a final newline. */
  function Layout(cps: seq<nat>, bw: nat): seq<nat>
    requires bw > 0 || |cps| == 0
  {
    LayoutUpTo(cps, bw, |cps|) + [NEWLINE]
  }

  /** The first `r` lines of `bw` codepoints, each followed by a newline. */
  function Rows(cps: seq<nat>, bw: nat, r: nat): seq<nat>
    requires r * bw <= |cps|
  {
    if r == 0 then []
    else
      MulMono(r - 1, r, bw);
      Rows(cps, bw, r - 1) + cps[(r - 1) * bw .. r * bw] + [NEWLINE]
  }

  /** Inside a line, one more codepoint extends the line's text. */
  lemma LayoutInRow(cps: seq<nat>, bw: nat, r: nat, j: nat)
    requires bw > 0 && 1 < j <= bw && r * bw + j <= |cps|
    requires LayoutUpTo(cps, bw, r * bw + j - 1) == Rows(cps, bw, r) + cps[r * bw .. r * bw + j - 1]
    ensures LayoutUpTo(cps, bw, r * bw + j) == Rows(cps, bw, r) + cps[r * bw .. r * bw + j]
  {
    var i := r * bw + j;
    DivModUnique(i - 1, bw, r, j - 1);
    assert cps[r * bw .. i] == cps[r * bw .. i - 1] + [cps[i - 1]];
  }

  /** The first codepoint of a later line comes after the newline that ends the line before. */
  lemma LayoutNewRow(cps: seq<nat>, bw: nat, r: nat)
    requires bw > 0 && r > 0 && r * bw + 1 <= |cps|
    requires (r - 1) * bw + bw == r * bw
    requires LayoutUpTo(cps, bw, r * bw) == Rows(cps, bw, r - 1) + cps[(r - 1) * bw .. r * bw]
    ensures LayoutUpTo(cps, bw, r * bw + 1) == Rows(cps, bw, r) + cps[r * bw .. r * bw + 1]
  {
    var i := r * bw + 1;
    DivModUnique(i - 1, bw, r, 0);
    assert LayoutUpTo(cps, bw, i) == LayoutUpTo(cps, bw, i - 1) + [NEWLINE] + [cps[i - 1]];
    assert cps[r * bw .. i] == [cps[i - 1]];
  }

  lemma {:induction false} LayoutRowPrefix(cps: seq<nat>, bw: nat, r: nat, j: nat)
    requires bw > 0 && 1 <= j <= bw && r * bw + j <= |cps|
    ensures r * bw <= |cps|
    ensures LayoutUpTo(cps, bw, r * bw + j) == Rows(cps, bw, r) + cps[r * bw .. r * bw + j]
    decreases r, j
  {
    if j > 1 {
      LayoutRowPrefix(cps, bw, r, j - 1);
      LayoutInRow(cps, bw, r, j);
    } else if r == 0 {
      LayoutFirst(cps, bw);
    } else {
      PrevRow(r, bw);
      LayoutRowPrefix(cps, bw, r - 1, bw);
      LayoutNewRow(cps, bw, r);
    }
  }

  /** The first codepoint alone starts the first line. */
  lemma LayoutFirst(cps: seq<nat>, bw: nat)
    requires bw > 0 && 1 <= |cps|
    ensures LayoutUpTo(cps, bw, 1) == Rows(cps, bw, 0) + cps[0..1]
  {
    assert LayoutUpTo(cps, bw, 1) == [cps[0]] == cps[0..1];
  }

  lemma PrevRow(r: nat, bw: nat)
    requires r > 0
    ensures (r - 1) * bw + bw == r * bw
  {
  }

  /** With at least one line, the text is exactly its lines, each ending in a newline. */
  lemma LayoutIsRows(cps: seq<nat>, bw: nat, bh: nat)
    requires bw > 0 && bh > 0 && |cps| == bw * bh
    ensures Layout(cps, bw) == Rows(cps, bw, bh)
  {
    PrevRow(bh, bw);
    LayoutRowPrefix(cps, bw, bh - 1, bw);
    LastRow(cps, bw, bh, (bh - 1) * bw, bh * bw);
  }

  /** The last line closes the text: the layout up to the end, then the final newline. */
  lemma LastRow(cps: seq<nat>, bw: nat, r: nat, lo: nat, hi: nat)
    requires bw > 0 && r > 0 && lo == (r - 1) * bw && hi == r * bw && lo + bw == hi && hi == |cps|
    requires LayoutUpTo(cps, bw, hi) == Rows(cps, bw, r - 1) + cps[lo .. hi]
    ensures Layout(cps, bw) == Rows(cps, bw, r)
  {
  }

  /** With no codepoints the text is a single newline. */
  lemma LayoutEmpty(bw: nat)
    ensures Layout([], bw) == [NEWLINE]
  {
  }

  function Count(s: seq<nat>, c: nat): nat
  {
    if s == [] then 0 else Count(s[..|s| - 1], c) + (if s[|s| - 1] == c then 1 else 0)
  }

  lemma {:induction false} CountAppend(a: seq<nat>, b: seq<nat>, c: nat)
    ensures Count(a + b, c) == Count(a, c) + Count(b, c)
    decreases |b|
  {
    if b == [] {
      assert a + b == a;
    } else {
      assert (a + b)[..|a + b| - 1] == a + b[..|b| - 1];
      CountAppend(a, b[..|b| - 1], c);
    }
  }

  lemma {:induction false} CountNone(s: seq<nat>, c: nat)
    requires forall k :: 0 <= k < |s| ==> s[k] != c
    ensures Count(s, c) == 0
    decreases |s|
  {
    if s != [] {
      CountNone(s[..|s| - 1], c);
    }
  }

  lemma {:induction false} RowsNewlines(cps: seq<nat>, bw: nat, r: nat)
    requires r * bw <= |cps|
    requires forall k :: 0 <= k < |cps| ==> cps[k] != NEWLINE
    ensures Count(Rows(cps, bw, r), NEWLINE) == r
    decreases r
  {
    if r > 0 {
      MulMono(r - 1, r, bw);
      RowsNewlines(cps, bw, r - 1);
      var row := cps[(r - 1) * bw .. r * bw];
      CountNone(row, NEWLINE);
      CountAppend(Rows(cps, bw, r - 1), row, NEWLINE);
      CountAppend(Rows(cps, bw, r - 1) + row, [NEWLINE], NEWLINE);
    }
  }

  /** A frame of `bh` lines holds exactly `bh` newlines, one ending each line. */
  lemma LayoutNewlines(cps: seq<nat>, bw: nat, bh: nat)
    requires bw > 0 && bh > 0 && |cps| == bw * bh
    requires forall k :: 0 <= k < |cps| ==> cps[k] != NEWLINE
    ensures Count(Layout(cps, bw), NEWLINE) == bh
  {
    LayoutIsRows(cps, bw, bh);
    RowsNewlines(cps, bw, bh);
  }
}
