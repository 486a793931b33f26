/**
 * The terminal camera of src/camera.rs (and its earlier copy src/render.rs):
 * a pixel buffer `cb` of `w * h` switches, the codepoints `cp` of its
 * Braille rendering and the text `fb` laid out from them, plus the drawing
 * routines that turn pixels on and off. A failed `assert!`, an index out of
 * bounds or an unsigned underflow is a `Panic`.
 */
module Cameras {
  import opened Base
  import opened Braille
  import Cells

  /** Pixel `p` lies in the `cols` by `rows` rectangle whose top-left corner is `(x, y)`. */
  predicate InRect(p: (nat, nat), x: nat, y: nat, cols: nat, rows: nat)
  {
    x <= p.0 < x + cols && y <= p.1 < y + rows
  }

  /** Pixel `p` lies on the border of a `w` by `h` screen. */
  predicate OnOutline(p: (nat, nat), w: nat, h: nat)
  {
    p.1 == 0 || p.1 == h - 1 || p.0 == 0 || p.0 == w - 1
  }

  class Camera {
    /** Width and height of the pixel buffer. */
    const w: nat
    const h: nat
    /** The pixel buffer, row by row. */
    const cb: array<bool>
    /** The codepoints of the rendering, one per 2x4 block, row by row. */
    const cp: array<nat>
    /** The frame buffer: the codepoints as text. */
    var fb: seq<nat>
    /** The offset from the origin. */
    var x: int
    var y: int

    predicate Valid()
    {
      cb.Length == w * h && (w == 0 ==> cb.Length == 0)
      && cp.Length == Bw(w) * Bh(h) && (Bw(w) == 0 ==> cp.Length == 0)
    }

    /** `Camera::new(w, h)`: every pixel off, every codepoint blank, the text laid out from them. */
    constructor(w0: nat, h0: nat)
      ensures w == w0 && h == h0 && Valid() && fresh(cb) && fresh(cp)
      ensures forall n :: 0 <= n < cb.Length ==> !cb[n]
      ensures forall k :: 0 <= k < cp.Length ==> cp[k] == BRAILLE_EMPTY
      ensures fb == Layout(cp[..], Bw(w)) && x == 0 && y == 0
    {
      w, h := w0, h0;
      cb := new bool[w0 * h0](_ => false);
      cp := new nat[Bw(w0) * Bh(h0)](_ => BRAILLE_EMPTY);
      x, y := 0, 0;
      new;
      fb := Frame(cp, Bw(w0));
    }

    /** The loop that lays the codepoints out as text, shared by `new` and `render`. */
    static method Frame(cps: array<nat>, bw: nat) returns (text: seq<nat>)
      requires bw > 0 || cps.Length == 0
      ensures text == Layout(cps[..], bw)
    {
      text := [];
      for i := 0 to cps.Length
        invariant text == LayoutUpTo(cps[..], bw, i)
      {
        if i > 0 && i % bw == 0 {
          text := text + [NEWLINE];
        }
        text := text + [cps[i]];
      }
      text := text + [NEWLINE];
    }

    /** `offset_x`: moves the view horizontally. */
    method OffsetX(offset: int)
      modifies this`x
      ensures x == old(x) + offset
    {
      x := x + offset;
    }

    /** `offset_y`: moves the view vertically. */
    method OffsetY(offset: int)
      modifies this`y
      ensures y == old(y) + offset
    {
      y := y + offset;
    }

    /** `draw_pixel(x, y)`: switches on exactly pixel `(x, y)`; outside the screen it panics. */
    method DrawPixel(px: nat, py: nat) returns (r: Outcome<()>)
      requires Valid()
      modifies cb
      ensures !r.Diverge?
      ensures r.Done? <==> px < w && py < h
      ensures r.Done? ==> forall n :: 0 <= n < cb.Length ==> cb[n] == (old(cb[n]) || XyTo(w, n) == (px, py))
      ensures r.Panic? ==> cb[..] == old(cb[..])
    {
      if px >= w || py >= h {
        return Panic;
      }
      var i := XyFrom(w, px, py);
      XyInside(w, h, px, py);
      forall n | 0 <= n < cb.Length
        ensures (n == i) <==> (XyTo(w, n) == (px, py))
      {
        XyBijection(w, n, px, py);
      }
      cb[i] := true;
      return Done(());
    }

    /**
     * The body of `draw_square` and `draw_clear_square`: sets the `s` by `s`
     * square at `(x, y)` to `on`. Both coordinates must stay strictly below
     * `w - s` and `h - s`, so the square never reaches the last column or row.
     */
    method FillSquare(x0: nat, y0: nat, s: nat, on: bool) returns (r: Outcome<()>)
      requires Valid()
      modifies cb
      ensures !r.Diverge?
      ensures r.Done? <==> s <= w && x0 < w - s && s <= h && y0 < h - s
      ensures r.Done? ==> forall n :: 0 <= n < cb.Length ==>
        cb[n] == if InRect(XyTo(w, n), x0, y0, s, s) then on else old(cb[n])
      ensures r.Panic? ==> cb[..] == old(cb[..])
    {
      if s > w || x0 >= w - s {
        return Panic;
      }
      if s > h || y0 >= h - s {
        return Panic;
      }
      for dx := 0 to s
        invariant forall n :: 0 <= n < cb.Length ==>
          cb[n] == if InRect(XyTo(w, n), x0, y0, dx, s) then on else old(cb[n])
      {
        for dy := 0 to s
          invariant forall n :: 0 <= n < cb.Length ==>
            cb[n] == if InRect(XyTo(w, n), x0, y0, dx, s) || InRect(XyTo(w, n), x0 + dx, y0, 1, dy) then on else old(cb[n])
        {
          var px, py := x0 + dx, y0 + dy;
          var i := XyFrom(w, px, py);
          XyInside(w, h, px, py);
          forall n | 0 <= n < cb.Length
            ensures (n == i) <==> (XyTo(w, n) == (px, py))
          {
            XyBijection(w, n, px, py);
          }
          cb[i] := on;
        }
      }
      return Done(());
    }

    /** `draw_square(x, y, s)`: switches on the `s` by `s` square at `(x, y)`. */
    method DrawSquare(x0: nat, y0: nat, s: nat) returns (r: Outcome<()>)
      requires Valid()
      modifies cb
      ensures !r.Diverge?
      ensures r.Done? <==> s <= w && x0 < w - s && s <= h && y0 < h - s
      ensures r.Done? ==> forall n :: 0 <= n < cb.Length ==>
        cb[n] == (old(cb[n]) || InRect(XyTo(w, n), x0, y0, s, s))
      ensures r.Panic? ==> cb[..] == old(cb[..])
    {
      r := FillSquare(x0, y0, s, true);
    }

    /** `draw_clear_square(x, y, s)`: switches off the `s` by `s` square at `(x, y)`. */
    method DrawClearSquare(x0: nat, y0: nat, s: nat) returns (r: Outcome<()>)
      requires Valid()
      modifies cb
      ensures !r.Diverge?
      ensures r.Done? <==> s <= w && x0 < w - s && s <= h && y0 < h - s
      ensures r.Done? ==> forall n :: 0 <= n < cb.Length ==>
        cb[n] == (old(cb[n]) && !InRect(XyTo(w, n), x0, y0, s, s))
      ensures r.Panic? ==> cb[..] == old(cb[..])
    {
      r := FillSquare(x0, y0, s, false);
    }

    /**
     * `draw_outline`: switches on the first and last row and column. A screen
     * with no rows but some columns, or the reverse, underflows `h - 1` or
     * `w - 1` before anything is drawn.
     */
    method DrawOutline() returns (r: Outcome<()>)
      requires Valid()
      modifies cb
      ensures !r.Diverge?
      ensures r.Done? <==> ((w == 0) <==> (h == 0))
      ensures r.Done? ==> forall n :: 0 <= n < cb.Length ==> cb[n] == (old(cb[n]) || OnOutline(XyTo(w, n), w, h))
      ensures r.Panic? ==> cb[..] == old(cb[..])
    {
      if w > 0 && h == 0 {
        return Panic;
      }
      for px := 0 to w
        invariant forall n :: 0 <= n < cb.Length ==>
          cb[n] == (old(cb[n]) || (XyTo(w, n).0 < px && (XyTo(w, n).1 == 0 || XyTo(w, n).1 == h - 1)))
      {
        var i, j := XyFrom(w, px, 0), XyFrom(w, px, h - 1);
        XyInside(w, h, px, 0);
        XyInside(w, h, px, h - 1);
        forall n | 0 <= n < cb.Length
          ensures (n == i) <==> (XyTo(w, n) == (px, 0))
          ensures (n == j) <==> (XyTo(w, n) == (px, h - 1))
        {
          XyBijection(w, n, px, 0);
          XyBijection(w, n, px, h - 1);
        }
        cb[i] := true;
        cb[j] := true;
      }
      if h > 0 && w == 0 {
        return Panic;
      }
      for py := 0 to h
        invariant forall n :: 0 <= n < cb.Length ==>
          cb[n] == (old(cb[n]) || XyTo(w, n).1 == 0 || XyTo(w, n).1 == h - 1
                    || (XyTo(w, n).1 < py && (XyTo(w, n).0 == 0 || XyTo(w, n).0 == w - 1)))
      {
        var i, j := XyFrom(w, 0, py), XyFrom(w, w - 1, py);
        XyInside(w, h, 0, py);
        XyInside(w, h, w - 1, py);
        forall n | 0 <= n < cb.Length
          ensures (n == i) <==> (XyTo(w, n) == (0, py))
          ensures (n == j) <==> (XyTo(w, n) == (w - 1, py))
        {
          XyBijection(w, n, 0, py);
          XyBijection(w, n, w - 1, py);
        }
        cb[i] := true;
        cb[j] := true;
      }
      forall n | 0 <= n < cb.Length
        ensures XyTo(w, n).1 < h
      {
        XyToInside(w, h, n);
      }
      return Done(());
    }

    /** `reset`: switches every pixel off. */
    method Reset()
      requires Valid()
      modifies cb
      ensures forall n :: 0 <= n < cb.Length ==> !cb[n]
    {
      for k := 0 to cb.Length
        invariant forall n :: 0 <= n < k ==> !cb[n]
      {
        cb[k] := false;
      }
    }

    /** The dots of block `k` of the codepoint grid, from the first `n` pixels. */
    predicate CodepointsUpTo(n: nat)
      requires Valid()
      reads cp, cb
    {
      forall k :: 0 <= k < cp.Length ==>
        cp[k] == BRAILLE_EMPTY + Partial(cb[..], w, h, XyTo(Bw(w), k).0, XyTo(Bw(w), k).1, n)
    }

    /** `self.cp.fill(BRAILLE_EMPTY)`: no pixel counted yet. */
    method BlankCodepoints()
      requires Valid()
      modifies cp
      ensures CodepointsUpTo(0)
    {
      for k := 0 to cp.Length
        invariant forall j :: 0 <= j < k ==> cp[j] == BRAILLE_EMPTY
      {
        cp[k] := BRAILLE_EMPTY;
      }
      forall k | 0 <= k < cp.Length
        ensures cp[k] == BRAILLE_EMPTY + Partial(cb[..], w, h, XyTo(Bw(w), k).0, XyTo(Bw(w), k).1, 0)
      {
        PartialNone(cb[..], w, h, XyTo(Bw(w), k).0, XyTo(Bw(w), k).1);
      }
    }

    /** One turn of the loop of `render`: pixel `n`, if lit, adds its weight to its block. */
    method AddDot(n: nat)
      requires Valid() && n < cb.Length && CodepointsUpTo(n)
      modifies cp
      ensures CodepointsUpTo(n + 1)
    {
      var bw := Bw(w);
      var (px, py) := XyTo(w, n);
      var hex := HexValue(px, py);
      XyToInside(w, h, n);
      BlockOfPixel(w, h, px, py);
      ghost var before := cp[..];
      if cb[n] {
        var i := (py / 4) * bw + px / 2;
        cp[i] := cp[i] + hex;
      }
      RenderStep(cb[..], w, h, n, px, py, before, cp[..]);
    }

    /** The loop of `render` over the pixels: each lit pixel adds its weight to its block. */
    method AddDots()
      requires Valid() && CodepointsUpTo(0)
      modifies cp
      ensures CodepointsUpTo(cb.Length)
    {
      for n := 0 to cb.Length
        invariant CodepointsUpTo(n)
      {
        AddDot(n);
      }
    }

    /**
     * `render`: every codepoint becomes the blank pattern plus the dot
     * weights of the lit pixels of its block, and the text is laid out
     * again from the codepoints.
     */
    method Render() returns (text: seq<nat>)
      requires Valid()
      modifies cp, this`fb
      ensures forall k :: 0 <= k < cp.Length ==>
        cp[k] == BRAILLE_EMPTY + BlockDots(cb[..], w, h, XyTo(Bw(w), k).0, XyTo(Bw(w), k).1)
      ensures forall k :: 0 <= k < cp.Length ==> BRAILLE_EMPTY <= cp[k] <= 0x28FF
      ensures fb == Layout(cp[..], Bw(w)) && text == fb
    {
      BlankCodepoints();
      AddDots();
      forall k | 0 <= k < cp.Length
        ensures BRAILLE_EMPTY <= cp[k] <= 0x28FF
      {
        PartialIsPattern(cb[..], w, h, XyTo(Bw(w), k).0, XyTo(Bw(w), k).1, cb.Length);
      }
      text := Frame(cp, Bw(w));
      fb := text;
    }
  }

  /** Adding the weight of pixel `n` to its block's codepoint carries the invariant of `render` from `n` to `n + 1`. */
  lemma RenderStep(cbs: seq<bool>, w: nat, h: nat, n: nat, px: nat, py: nat, before: seq<nat>, after: seq<nat>)
    requires w > 0 && n < |cbs| == w * h && (px, py) == XyTo(w, n) && py < h
    requires |before| == Bw(w) * Bh(h)
    requires XyFrom(Bw(w), px / 2, py / 4) < |before|
    requires forall k :: 0 <= k < |before| ==>
      before[k] == BRAILLE_EMPTY + Partial(cbs, w, h, XyTo(Bw(w), k).0, XyTo(Bw(w), k).1, n)
    requires after == if cbs[n] then before[XyFrom(Bw(w), px / 2, py / 4) := before[XyFrom(Bw(w), px / 2, py / 4)] + HexValue(px, py)] else before
    ensures forall k :: 0 <= k < |after| ==>
      after[k] == BRAILLE_EMPTY + Partial(cbs, w, h, XyTo(Bw(w), k).0, XyTo(Bw(w), k).1, n + 1)
  {
    var i := XyFrom(Bw(w), px / 2, py / 4);
    forall k | 0 <= k < |after|
      ensures after[k] == BRAILLE_EMPTY + Partial(cbs, w, h, XyTo(Bw(w), k).0, XyTo(Bw(w), k).1, n + 1)
    {
      assert after[k] == if cbs[n] && k == i then before[k] + HexValue(px, py) else before[k];
      RenderStepAt(cbs, w, h, n, px, py, k, before[k], after[k]);
    }
  }

  /** `RenderStep` at one codepoint `k`. */
  lemma RenderStepAt(cbs: seq<bool>, w: nat, h: nat, n: nat, px: nat, py: nat, k: nat, b: nat, a: nat)
    requires w > 0 && n < |cbs| == w * h && (px, py) == XyTo(w, n) && py < h
    requires b == BRAILLE_EMPTY + Partial(cbs, w, h, XyTo(Bw(w), k).0, XyTo(Bw(w), k).1, n)
    requires a == if cbs[n] && k == XyFrom(Bw(w), px / 2, py / 4) then b + HexValue(px, py) else b
    ensures a == BRAILLE_EMPTY + Partial(cbs, w, h, XyTo(Bw(w), k).0, XyTo(Bw(w), k).1, n + 1)
  {
    var bw := Bw(w);
    PartialStep(cbs, w, h, XyTo(bw, k).0, XyTo(bw, k).1, n, px, py);
    BlockOfPixel(w, h, px, py);
    XyBijection(bw, k, px / 2, py / 4);
  }
}

/**
 * The drawing of src/camera.rs outside the camera: `draw_rule` draws a
 * 4x4 block of cells given as a 16-bit word, `draw_leaf` the four blocks
 * of a leaf, `draw_cell` a whole subtree, each shrunk by `2^scale`.
 */
module Drawing {
  import opened Base
  import opened Braille
  import opened Cameras
  import Cells

  /** Bit `b` of a 16-bit word. */
  predicate RuleBit(rule: bv16, b: nat)
    requires b < 16
  {
    (rule >> b) & 1 == 1
  }

  /** The mask of the loop in `draw_rule` after `k` shifts. */
  function MaskAt(k: nat): bv16
    requires k <= 16
  {
    0x8000 >> k
  }

  lemma MaskShift(k: nat)
    requires k < 16
    ensures MaskAt(k) >> 1 == MaskAt(k + 1)
    ensures MaskAt(k) > 0 && MaskAt(16) == 0
  {
  }

  lemma MaskIsBit(k: nat, m: bv16)
    requires k < 16 && m == MaskAt(k)
    ensures m == 1 << (15 - k)
  {
  }

  /** Testing the mask after `k` shifts reads bit `15 - k`. */
  lemma MaskTest(rule: bv16, k: nat, m: bv16)
    requires k < 16 && m == MaskAt(k)
    ensures (rule & m == m) == RuleBit(rule, 15 - k)
  {
    MaskIsBit(k, m);
    BitTest(rule, m, 15 - k);
  }

  lemma BitTest(rule: bv16, m: bv16, b: nat)
    requires b < 16 && m == 1 << b
    ensures (rule & m == m) == RuleBit(rule, b)
  {
  }

  /** The masks `draw_rule` tests at scale 1: the four 2x2 quarters of the 4x4 block. */
  const TL_MASK: bv16 := 0xCC00
  const TR_MASK: bv16 := 0x3300
  const BL_MASK: bv16 := 0x00CC
  const BR_MASK: bv16 := 0x0033

  /**
   * Whether `draw_rule(rule, dx, dy, scale)` lights pixel `p`. At scale 0
   * the bits of the word fill the 4x4 block from the top-left corner, most
   * significant first, row by row; at scale 1 each pixel stands for one
   * 2x2 quarter of the block; at scale 2 one pixel stands for the whole
   * block; at larger scales nothing is drawn.
   */
  predicate RuleLit(rule: bv16, dx: nat, dy: nat, scale: nat, p: (nat, nat))
  {
    if scale == 0 then
      InRect(p, dx, dy, 4, 4) && RuleBit(rule, 15 - (4 * (p.1 - dy) + (p.0 - dx)))
    else if scale == 1 then
      (p == (dx, dy) && rule & TL_MASK != 0) || (p == (dx + 1, dy) && rule & TR_MASK != 0)
      || (p == (dx, dy + 1) && rule & BL_MASK != 0) || (p == (dx + 1, dy + 1) && rule & BR_MASK != 0)
    else if scale == 2 then
      p == (dx, dy) && rule != 0
    else
      false
  }

  /** Every pixel `draw_rule` lights is on a `w` by `h` screen, so it does not panic. */
  predicate RuleFits(rule: bv16, dx: nat, dy: nat, scale: nat, w: nat, h: nat)
  {
    if scale == 0 then
      forall k :: 0 <= k < 16 && RuleBit(rule, 15 - k) ==> dx + k % 4 < w && dy + k / 4 < h
    else if scale == 1 then
      (rule & TL_MASK != 0 ==> dx < w && dy < h) && (rule & TR_MASK != 0 ==> dx + 1 < w && dy < h)
      && (rule & BL_MASK != 0 ==> dx < w && dy + 1 < h) && (rule & BR_MASK != 0 ==> dx + 1 < w && dy + 1 < h)
    else if scale == 2 then
      rule != 0 ==> dx < w && dy < h
    else
      true
  }

  /** The bits drawn at scale 0 are exactly the set bits, each on its own pixel of the block. */
  lemma RuleLitZero(rule: bv16, dx: nat, dy: nat, k: nat)
    requires k < 16
    ensures RuleLit(rule, dx, dy, 0, (dx + k % 4, dy + k / 4)) <==> RuleBit(rule, 15 - k)
  {
  }

  /** At scale 1 a quarter's pixel is lit exactly when one of the four bits of that quarter is set. */
  lemma QuarterMasks(rule: bv16)
    ensures rule & TL_MASK != 0 <==> RuleBit(rule, 15) || RuleBit(rule, 14) || RuleBit(rule, 11) || RuleBit(rule, 10)
    ensures rule & TR_MASK != 0 <==> RuleBit(rule, 13) || RuleBit(rule, 12) || RuleBit(rule, 9) || RuleBit(rule, 8)
    ensures rule & BL_MASK != 0 <==> RuleBit(rule, 7) || RuleBit(rule, 6) || RuleBit(rule, 3) || RuleBit(rule, 2)
    ensures rule & BR_MASK != 0 <==> RuleBit(rule, 5) || RuleBit(rule, 4) || RuleBit(rule, 1) || RuleBit(rule, 0)
  {
  }

  /** The source writes the quarter masks as shifts of `0x33`. */
  lemma QuarterShifts()
    ensures (0x33 as bv16) << 10 == TL_MASK && (0x33 as bv16) << 8 == TR_MASK
    ensures (0x33 as bv16) << 2 == BL_MASK && (0x33 as bv16) == BR_MASK
  {
  }

  /** The position of bit `15 - k` in the block: column `k % 4`, row `k / 4`. */
  lemma CellOfBit(dx: nat, dy: nat, k: nat, p: (nat, nat))
    requires k < 16
    ensures (p == (dx + k % 4, dy + k / 4)) <==> (InRect(p, dx, dy, 4, 4) && 4 * (p.1 - dy) + (p.0 - dx) == k)
  {
  }

  /** The column and row counters of the scale-0 loop. */
  lemma CounterStep(k: nat, x: nat, y: nat)
    requires x == k % 4 && y == k / 4
    ensures (x + 1) % 4 == (k + 1) % 4
    ensures (if (x + 1) % 4 == 0 then y + 1 else y) == (k + 1) / 4
  {
  }

  /** The pixels of `cbs` are those of `start` and the first `k` set bits of `rule`. */
  predicate DrawnUpTo(start: seq<bool>, cbs: seq<bool>, w: nat, rule: bv16, dx: nat, dy: nat, k: nat)
    requires w > 0 || |cbs| == 0
  {
    |cbs| == |start|
    && forall n :: 0 <= n < |cbs| ==>
      cbs[n] == (start[n] || (RuleLit(rule, dx, dy, 0, XyTo(w, n)) && 4 * (XyTo(w, n).1 - dy) + (XyTo(w, n).0 - dx) < k))
  }

  /** Drawing bit `15 - k` when it is set carries `DrawnUpTo` from `k` to `k + 1`. */
  lemma DrawnStep(start: seq<bool>, before: seq<bool>, after: seq<bool>, w: nat, rule: bv16, dx: nat, dy: nat, k: nat)
    requires k < 16 && (w > 0 || |before| == 0) && DrawnUpTo(start, before, w, rule, dx, dy, k) && |after| == |before|
    requires RuleBit(rule, 15 - k) ==>
      forall n :: 0 <= n < |after| ==> after[n] == (before[n] || XyTo(w, n) == (dx + k % 4, dy + k / 4))
    requires !RuleBit(rule, 15 - k) ==> after == before
    ensures DrawnUpTo(start, after, w, rule, dx, dy, k + 1)
  {
    forall n | 0 <= n < |after|
      ensures after[n] == (start[n] || (RuleLit(rule, dx, dy, 0, XyTo(w, n)) && 4 * (XyTo(w, n).1 - dy) + (XyTo(w, n).0 - dx) < k + 1))
    {
      CellOfBit(dx, dy, k, XyTo(w, n));
    }
  }

  /** The bits before `k` fit the screen; if bit `15 - k` is set and fits, the bits up to `k` do. */
  lemma FitsStep(rule: bv16, dx: nat, dy: nat, w: nat, h: nat, k: nat)
    requires k < 16
    requires forall j :: 0 <= j < k && RuleBit(rule, 15 - j) ==> dx + j % 4 < w && dy + j / 4 < h
    requires RuleBit(rule, 15 - k) ==> dx + k % 4 < w && dy + k / 4 < h
    ensures forall j :: 0 <= j < k + 1 && RuleBit(rule, 15 - j) ==> dx + j % 4 < w && dy + j / 4 < h
  {
  }

  /** After all sixteen bits the drawn pixels are exactly the lit ones. */
  lemma DrawnAll(start: seq<bool>, cbs: seq<bool>, w: nat, rule: bv16, dx: nat, dy: nat)
    requires w > 0 || |cbs| == 0
    requires DrawnUpTo(start, cbs, w, rule, dx, dy, 16)
    ensures forall n :: 0 <= n < |cbs| ==> cbs[n] == (start[n] || RuleLit(rule, dx, dy, 0, XyTo(w, n)))
  {
  }

  /** One turn of the scale-0 loop: draws bit `15 - k` at `(dx + x, dy + y)` when the mask finds it set. */
  method DrawBit(cam: Camera, rule: bv16, dx: nat, dy: nat, ghost k: nat, mask: bv16, x: nat, y: nat, ghost start: seq<bool>)
    returns (r: Outcome<()>)
    requires cam.Valid() && k < 16 && mask == MaskAt(k) && x == k % 4 && y == k / 4
    requires forall j :: 0 <= j < k && RuleBit(rule, 15 - j) ==> dx + j % 4 < cam.w && dy + j / 4 < cam.h
    requires DrawnUpTo(start, cam.cb[..], cam.w, rule, dx, dy, k)
    modifies cam.cb
    ensures !r.Diverge?
    ensures r.Panic? ==> !RuleFits(rule, dx, dy, 0, cam.w, cam.h)
    ensures r.Done? ==> forall j :: 0 <= j < k + 1 && RuleBit(rule, 15 - j) ==> dx + j % 4 < cam.w && dy + j / 4 < cam.h
    ensures r.Done? ==> DrawnUpTo(start, cam.cb[..], cam.w, rule, dx, dy, k + 1)
  {
    MaskTest(rule, k, mask);
    ghost var before := cam.cb[..];
    if rule & mask == mask {
      r := cam.DrawPixel(dx + x, dy + y);
      if r.Panic? {
        return;
      }
    }
    DrawnStep(start, before, cam.cb[..], cam.w, rule, dx, dy, k);
    FitsStep(rule, dx, dy, cam.w, cam.h, k);
    return Done(());
  }

  /** `draw_rule` at scale 0: the mask walks the sixteen bits from the top, `(x, y)` the block row by row. */
  method DrawRuleCells(cam: Camera, rule: bv16, dx: nat, dy: nat) returns (r: Outcome<()>)
    requires cam.Valid()
    modifies cam.cb
    ensures !r.Diverge?
    ensures r.Done? <==> RuleFits(rule, dx, dy, 0, cam.w, cam.h)
    ensures r.Done? ==> forall n :: 0 <= n < cam.cb.Length ==>
      cam.cb[n] == (old(cam.cb[n]) || RuleLit(rule, dx, dy, 0, XyTo(cam.w, n)))
  {
    var x: nat, y: nat := 0, 0;
    var mask: bv16 := 1 << 0xF;
    ghost var k: nat := 0;
    MaskShift(0);
    while mask > 0
      invariant k <= 16 && mask == MaskAt(k) && x == k % 4 && y == k / 4
      invariant forall j :: 0 <= j < k && RuleBit(rule, 15 - j) ==> dx + j % 4 < cam.w && dy + j / 4 < cam.h
      invariant DrawnUpTo(old(cam.cb[..]), cam.cb[..], cam.w, rule, dx, dy, k)
      decreases 16 - k
    {
      MaskShift(if k < 16 then k else 0);
      var d := DrawBit(cam, rule, dx, dy, k, mask, x, y, old(cam.cb[..]));
      if d.Panic? {
        return Panic;
      }
      CounterStep(k, x, y);
      x := (x + 1) % 4;
      if x == 0 {
        y := y + 1;
      }
      mask := mask >> 1;
      k := k + 1;
    }
    DrawnAll(old(cam.cb[..]), cam.cb[..], cam.w, rule, dx, dy);
    return Done(());
  }

  /** `cbs` is `start` with the pixels `pts` switched on. */
  predicate Lights(start: seq<bool>, cbs: seq<bool>, w: nat, pts: set<(nat, nat)>)
    requires w > 0 || |cbs| == 0
  {
    |cbs| == |start| && forall n :: 0 <= n < |cbs| ==> cbs[n] == (start[n] || XyTo(w, n) in pts)
  }

  lemma LightsCompose(a: seq<bool>, b: seq<bool>, c: seq<bool>, w: nat, p: set<(nat, nat)>, q: set<(nat, nat)>)
    requires w > 0 || |b| == 0
    requires Lights(a, b, w, p) && |c| == |b| && Lights(b, c, w, q)
    ensures Lights(a, c, w, p + q)
  {
  }

  /** `if cond { cam.draw_pixel(x, y) }`. */
  method DrawIf(cam: Camera, cond: bool, px: nat, py: nat) returns (r: Outcome<()>)
    requires cam.Valid()
    modifies cam.cb
    ensures !r.Diverge?
    ensures r.Done? <==> (cond ==> px < cam.w && py < cam.h)
    ensures r.Done? ==> Lights(old(cam.cb[..]), cam.cb[..], cam.w, if cond then {(px, py)} else {})
  {
    if cond {
      r := cam.DrawPixel(px, py);
    } else {
      r := Done(());
    }
  }

  /** The pixels of the quarters flagged `tl`, `tr`, `bl`, `br` of the 2x2 square at `(dx, dy)`. */
  function QuarterPixels(tl: bool, tr: bool, bl: bool, br: bool, dx: nat, dy: nat): set<(nat, nat)>
  {
    (if tl then {(dx, dy)} else {}) + (if tr then {(dx + 1, dy)} else {})
    + (if bl then {(dx, dy + 1)} else {}) + (if br then {(dx + 1, dy + 1)} else {})
  }

  /** The four conditional `draw_pixel` calls of scale 1, in the source's order. */
  method DrawQuarters(cam: Camera, tl: bool, tr: bool, bl: bool, br: bool, dx: nat, dy: nat) returns (r: Outcome<()>)
    requires cam.Valid()
    modifies cam.cb
    ensures !r.Diverge?
    ensures r.Done? <==>
      (tl ==> dx < cam.w && dy < cam.h) && (tr ==> dx + 1 < cam.w && dy < cam.h)
      && (bl ==> dx < cam.w && dy + 1 < cam.h) && (br ==> dx + 1 < cam.w && dy + 1 < cam.h)
    ensures r.Done? ==> Lights(old(cam.cb[..]), cam.cb[..], cam.w, QuarterPixels(tl, tr, bl, br, dx, dy))
  {
    ghost var c0 := cam.cb[..];
    r := DrawIf(cam, tl, dx, dy);
    if r.Panic? {
      return;
    }
    ghost var c1 := cam.cb[..];
    r := DrawIf(cam, tr, dx + 1, dy);
    if r.Panic? {
      return;
    }
    ghost var c2 := cam.cb[..];
    r := DrawIf(cam, bl, dx, dy + 1);
    if r.Panic? {
      return;
    }
    ghost var c3 := cam.cb[..];
    r := DrawIf(cam, br, dx + 1, dy + 1);
    if r.Panic? {
      return;
    }
    ghost var p1: set<(nat, nat)> := if tl then {(dx, dy)} else {};
    ghost var p2: set<(nat, nat)> := if tr then {(dx + 1, dy)} else {};
    ghost var p3: set<(nat, nat)> := if bl then {(dx, dy + 1)} else {};
    ghost var p4: set<(nat, nat)> := if br then {(dx + 1, dy + 1)} else {};
    LightsCompose(c0, c1, c2, cam.w, p1, p2);
    LightsCompose(c0, c2, c3, cam.w, p1 + p2, p3);
    LightsCompose(c0, c3, cam.cb[..], cam.w, p1 + p2 + p3, p4);
  }

  /** The quarter pixels of a word are the pixels scale 1 lights. */
  lemma QuarterPixelsLit(rule: bv16, dx: nat, dy: nat, p: (nat, nat))
    ensures p in QuarterPixels(rule & TL_MASK != 0, rule & TR_MASK != 0, rule & BL_MASK != 0, rule & BR_MASK != 0, dx, dy)
        <==> RuleLit(rule, dx, dy, 1, p)
  {
  }

  /** `draw_rule` at scale 1: one pixel for each 2x2 quarter with a live cell. */
  method DrawRuleQuarters(cam: Camera, rule: bv16, dx: nat, dy: nat) returns (r: Outcome<()>)
    requires cam.Valid()
    modifies cam.cb
    ensures !r.Diverge?
    ensures r.Done? <==> RuleFits(rule, dx, dy, 1, cam.w, cam.h)
    ensures r.Done? ==> forall n :: 0 <= n < cam.cb.Length ==>
      cam.cb[n] == (old(cam.cb[n]) || RuleLit(rule, dx, dy, 1, XyTo(cam.w, n)))
  {
    var br := rule & 0x33;
    var bl := rule & (0x33 << 2);
    var tr := rule & (0x33 << 8);
    var tl := rule & (0x33 << 10);
    QuarterShifts();
    r := DrawQuarters(cam, tl != 0, tr != 0, bl != 0, br != 0, dx, dy);
    if r.Done? {
      forall n | 0 <= n < cam.cb.Length
        ensures cam.cb[n] == (old(cam.cb[n]) || RuleLit(rule, dx, dy, 1, XyTo(cam.w, n)))
      {
        QuarterPixelsLit(rule, dx, dy, XyTo(cam.w, n));
      }
    }
  }

  /** `draw_rule` at scale 2: one pixel for the whole block, lit when any cell is. */
  method DrawRuleBlock(cam: Camera, rule: bv16, dx: nat, dy: nat) returns (r: Outcome<()>)
    requires cam.Valid()
    modifies cam.cb
    ensures !r.Diverge?
    ensures r.Done? <==> RuleFits(rule, dx, dy, 2, cam.w, cam.h)
    ensures r.Done? ==> forall n :: 0 <= n < cam.cb.Length ==>
      cam.cb[n] == (old(cam.cb[n]) || RuleLit(rule, dx, dy, 2, XyTo(cam.w, n)))
  {
    if rule != 0 {
      r := cam.DrawPixel(dx, dy);
    } else {
      r := Done(());
    }
  }

  /** `draw_rule(cam, rule, dx, dy, scale)`: draws the 4x4 block of cells `rule` shrunk by `2^scale`. */
  method DrawRule(cam: Camera, rule: bv16, dx: nat, dy: nat, scale: nat) returns (r: Outcome<()>)
    requires cam.Valid()
    modifies cam.cb
    ensures !r.Diverge?
    ensures r.Done? <==> RuleFits(rule, dx, dy, scale, cam.w, cam.h)
    ensures r.Done? ==> forall n :: 0 <= n < cam.cb.Length ==>
      cam.cb[n] == (old(cam.cb[n]) || RuleLit(rule, dx, dy, scale, XyTo(cam.w, n)))
  {
    if scale == 0 {
      r := DrawRuleCells(cam, rule, dx, dy);
    } else if scale == 1 {
      r := DrawRuleQuarters(cam, rule, dx, dy);
    } else if scale == 2 {
      r := DrawRuleBlock(cam, rule, dx, dy);
    } else {
      r := Done(());
    }
  }

  // ---------------------------------------------------------------------
  // Leaves and cells
  // ---------------------------------------------------------------------

  /** `x & !LEAF_MASK`: the word with its leaf flag cleared. */
  function ClearLeafFlag(x: usize): (r: usize)
    ensures r < Cells.LEAF_MASK && r % 0x1_0000 == x % 0x1_0000
  {
    x % Cells.LEAF_MASK
  }

  /** The four 4x4 blocks of a leaf, as `draw_leaf` reads them. */
  function LeafWords(cell: Cells.Cell): (bv16, bv16, bv16, bv16)
  {
    (Cells.Low16(ClearLeafFlag(cell.nw)), Cells.Low16(cell.ne), Cells.Low16(cell.sw), Cells.Low16(cell.se))
  }

  /** How far apart `draw_leaf` puts the blocks of a leaf: a block's four pixels, shrunk by `2^scale`. */
  function LeafOffset(scale: nat): nat
    requires scale <= 2
  {
    if scale == 0 then 4 else if scale == 1 then 2 else 1
  }

  lemma LeafOffsetShrinks(scale: nat)
    requires scale <= 2
    ensures LeafOffset(scale) * Pow2(scale) == 4
  {
    assert Pow2(1) == 2 && Pow2(2) == 4;
  }

  /** The pixels of four blocks drawn at `(dx, dy)`, `(dx + o, dy)`, `(dx, dy + o)` and `(dx + o, dy + o)`. */
  predicate FourLit(a: bv16, b: bv16, c: bv16, d: bv16, dx: nat, dy: nat, o: nat, scale: nat, p: (nat, nat))
  {
    RuleLit(a, dx, dy, scale, p) || RuleLit(b, dx + o, dy, scale, p)
    || RuleLit(c, dx, dy + o, scale, p) || RuleLit(d, dx + o, dy + o, scale, p)
  }

  predicate FourFits(a: bv16, b: bv16, c: bv16, d: bv16, dx: nat, dy: nat, o: nat, scale: nat, w: nat, h: nat)
  {
    RuleFits(a, dx, dy, scale, w, h) && RuleFits(b, dx + o, dy, scale, w, h)
    && RuleFits(c, dx, dy + o, scale, w, h) && RuleFits(d, dx + o, dy + o, scale, w, h)
  }

  /** The pixels `draw_leaf(cam, cell, dx, dy, scale)` lights. */
  predicate LeafLit(cell: Cells.Cell, dx: nat, dy: nat, scale: nat, isVoid: Cells.Cell -> bool, p: (nat, nat))
  {
    var (a, b, c, d) := LeafWords(cell);
    if scale <= 2 then FourLit(a, b, c, d, dx, dy, LeafOffset(scale), scale, p)
    else if scale == 3 then !isVoid(cell) && p == (dx, dy)
    else false
  }

  predicate LeafFits(cell: Cells.Cell, dx: nat, dy: nat, scale: nat, isVoid: Cells.Cell -> bool, w: nat, h: nat)
  {
    var (a, b, c, d) := LeafWords(cell);
    if scale <= 2 then FourFits(a, b, c, d, dx, dy, LeafOffset(scale), scale, w, h)
    else if scale == 3 then !isVoid(cell) ==> dx < w && dy < h
    else true
  }

  /** Four `draw_rule` calls in a row light the union of their pixels. */
  lemma FourCompose(c0: seq<bool>, c1: seq<bool>, c2: seq<bool>, c3: seq<bool>, c4: seq<bool>, w: nat,
                    a: bv16, b: bv16, c: bv16, d: bv16, dx: nat, dy: nat, o: nat, scale: nat)
    requires w > 0 || |c0| == 0
    requires |c1| == |c0| && |c2| == |c0| && |c3| == |c0| && |c4| == |c0|
    requires forall n :: 0 <= n < |c1| ==> c1[n] == (c0[n] || RuleLit(a, dx, dy, scale, XyTo(w, n)))
    requires forall n :: 0 <= n < |c2| ==> c2[n] == (c1[n] || RuleLit(b, dx + o, dy, scale, XyTo(w, n)))
    requires forall n :: 0 <= n < |c3| ==> c3[n] == (c2[n] || RuleLit(c, dx, dy + o, scale, XyTo(w, n)))
    requires forall n :: 0 <= n < |c4| ==> c4[n] == (c3[n] || RuleLit(d, dx + o, dy + o, scale, XyTo(w, n)))
    ensures forall n :: 0 <= n < |c4| ==> c4[n] == (c0[n] || FourLit(a, b, c, d, dx, dy, o, scale, XyTo(w, n)))
  {
  }

  /** The four `draw_rule` calls of `draw_leaf` at scales 0 to 2. */
  method DrawFour(cam: Camera, a: bv16, b: bv16, c: bv16, d: bv16, dx: nat, dy: nat, o: nat, scale: nat)
    returns (r: Outcome<()>)
    requires cam.Valid()
    modifies cam.cb
    ensures !r.Diverge?
    ensures r.Done? <==> FourFits(a, b, c, d, dx, dy, o, scale, cam.w, cam.h)
    ensures r.Done? ==> forall n :: 0 <= n < cam.cb.Length ==>
      cam.cb[n] == (old(cam.cb[n]) || FourLit(a, b, c, d, dx, dy, o, scale, XyTo(cam.w, n)))
  {
    ghost var c0 := cam.cb[..];
    r := DrawRule(cam, a, dx, dy, scale);
    if r.Panic? {
      return;
    }
    ghost var c1 := cam.cb[..];
    r := DrawRule(cam, b, dx + o, dy, scale);
    if r.Panic? {
      return;
    }
    ghost var c2 := cam.cb[..];
    r := DrawRule(cam, c, dx, dy + o, scale);
    if r.Panic? {
      return;
    }
    ghost var c3 := cam.cb[..];
    r := DrawRule(cam, d, dx + o, dy + o, scale);
    if r.Panic? {
      return;
    }
    FourCompose(c0, c1, c2, c3, cam.cb[..], cam.w, a, b, c, d, dx, dy, o, scale);
  }

  /**
   * `draw_leaf(cam, cell, dx, dy, scale)`: a leaf is 8x8 cells; scales 0 to 2
   * draw its four 4x4 blocks, scale 3 one pixel unless the leaf is void,
   * larger scales nothing. A cell that is not a leaf panics.
   */
  method DrawLeaf(cam: Camera, cell: Cells.Cell, dx: nat, dy: nat, scale: nat, isVoid: Cells.Cell -> bool)
    returns (r: Outcome<()>)
    requires cam.Valid()
    modifies cam.cb
    ensures !r.Diverge?
    ensures !Cells.IsLeaf(cell) ==> r.Panic? && cam.cb[..] == old(cam.cb[..])
    ensures r.Done? <==> Cells.IsLeaf(cell) && LeafFits(cell, dx, dy, scale, isVoid, cam.w, cam.h)
    ensures r.Done? ==> forall n :: 0 <= n < cam.cb.Length ==>
      cam.cb[n] == (old(cam.cb[n]) || LeafLit(cell, dx, dy, scale, isVoid, XyTo(cam.w, n)))
  {
    if !Cells.IsLeaf(cell) {
      return Panic;
    }
    var (a, b, c, d) := LeafWords(cell);
    if scale == 0 {
      r := DrawFour(cam, a, b, c, d, dx, dy, 4, scale);
    } else if scale == 1 {
      r := DrawFour(cam, a, b, c, d, dx, dy, 2, scale);
    } else if scale == 2 {
      r := DrawFour(cam, a, b, c, d, dx, dy, 1, scale);
    } else if scale == 3 {
      r := DrawIf(cam, !isVoid(cell), dx, dy);
    } else {
      r := Done(());
    }
  }

  /**
   * `draw_cell(cam, buf, cell, dx, dy, n, scale)`: draws the `2^n` cell
   * `cell`, whose quadrants are indices into `buf`, shrunk to a square of
   * side `2^(n - scale)`. `2usize.pow` overflows, and panics, from an
   * exponent of 64 on.
   */
  method DrawCell(cam: Camera, buf: seq<Cells.Cell>, cell: Cells.Cell, dx: nat, dy: nat, n: nat, scale: nat,
                  isVoid: Cells.Cell -> bool)
    returns (r: Outcome<()>)
    requires cam.Valid()
    modifies cam.cb
    decreases n
    ensures !r.Diverge?
    ensures scale > n ==> r == Done(()) && cam.cb[..] == old(cam.cb[..])
    ensures scale <= n && n - scale >= 64 ==> r == Panic && cam.cb[..] == old(cam.cb[..])
    ensures scale <= n < scale + 64 && isVoid(cell) ==>
      var s := Pow2(n - scale);
      (r.Done? <==> s <= cam.w && dx < cam.w - s && s <= cam.h && dy < cam.h - s)
      && (r.Done? ==> forall k :: 0 <= k < cam.cb.Length ==>
            cam.cb[k] == (old(cam.cb[k]) && !InRect(XyTo(cam.w, k), dx, dy, s, s)))
    ensures scale == n && !isVoid(cell) ==>
      (r.Done? <==> dx < cam.w && dy < cam.h)
      && (r.Done? ==> forall k :: 0 <= k < cam.cb.Length ==> cam.cb[k] == (old(cam.cb[k]) || XyTo(cam.w, k) == (dx, dy)))
  {
    if scale > n {
      return Done(());
    }
    if n - scale >= 64 {
      return Panic;
    }
    var sw := Pow2(n - scale);
    if isVoid(cell) {
      r := cam.DrawClearSquare(dx, dy, sw);
    } else if sw == 1 {
      r := cam.DrawPixel(dx, dy);
    } else if n == 3 {
      r := DrawLeaf(cam, cell, dx, dy, scale, isVoid);
    } else {
      var half := sw / 2;
      if cell.ne >= |buf| {
        return Panic;
      }
      r := DrawCell(cam, buf, buf[cell.ne], dx, dy, n - 1, scale, isVoid);
      if r.Panic? {
        return;
      }
      if cell.nw >= |buf| {
        return Panic;
      }
      r := DrawCell(cam, buf, buf[cell.nw], dx + half, dy, n - 1, scale, isVoid);
      if r.Panic? {
        return;
      }
      if cell.se >= |buf| {
        return Panic;
      }
      r := DrawCell(cam, buf, buf[cell.se], dx, dy + half, n - 1, scale, isVoid);
      if r.Panic? {
        return;
      }
      if cell.sw >= |buf| {
        return Panic;
      }
      r := DrawCell(cam, buf, buf[cell.sw], dx + half, dy + half, n - 1, scale, isVoid);
    }
  }
}
