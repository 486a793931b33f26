/**
 * The packed hashlife cell of src/cell.rs: four quadrant indices and a
 * result index, with the leaf flag kept in the most significant bit of
 * `nw`, two wrapping polynomial hashes, and the grandchild selections used
 * to assemble the centre of a cell.
 */
module Cells {
  import opened Base

  /** `1usize << 63`: the most significant bit of a 64-bit word. */
  const LEAF_MASK: usize := 0x8000_0000_0000_0000

  /** A leading bit on `res` means the result is not computed yet. */
  const RES_UNSET_MASK: usize := LEAF_MASK

  /** A `CellHash`: an index into a buffer of cells, or leaf bits. */
  datatype Cell = Cell(nw: usize, ne: usize, sw: usize, se: usize, res: usize)

  // Bit 63 of a 64-bit word, and the two bitwise operations the source
  // applies with LEAF_MASK, written on the word's value.

  /** Bit 63 of `x`. */
  predicate TopBit(x: usize)
  {
    x / LEAF_MASK % 2 == 1
  }

  /** `x & LEAF_MASK`: keeps bit 63 and clears every other bit. */
  function AndLeafMask(x: usize): (r: usize)
    ensures r == (x / LEAF_MASK % 2) * LEAF_MASK
    ensures r == LEAF_MASK <==> TopBit(x)
  {
    if x >= LEAF_MASK then LEAF_MASK else 0
  }

  /** `x ^ LEAF_MASK`: inverts bit 63 and keeps every other bit. */
  function XorLeafMask(x: usize): (r: usize)
    ensures TopBit(r) <==> !TopBit(x)
    ensures r % LEAF_MASK == x % LEAF_MASK
  {
    if x >= LEAF_MASK then x - LEAF_MASK else x + LEAF_MASK
  }

  /**
   * LEAF_MASK is half the word range, so it is the most significant bit,
   * and that bit is set exactly for the values from LEAF_MASK on.
   */
  lemma TopBitIsHalf(x: usize)
    ensures 2 * LEAF_MASK == USIZE_MOD
    ensures TopBit(x) <==> x >= LEAF_MASK
  {
  }

  lemma XorLeafMaskInvolution(x: usize)
    ensures XorLeafMask(XorLeafMask(x)) == x
  {
  }

  /** `Cell::void`: the canonical empty cell. */
  function Void(): (c: Cell)
    ensures c.nw == 0 && c.ne == 0 && c.sw == 0 && c.se == 0
    ensures c.res == RES_UNSET_MASK
    ensures !IsLeaf(c)
  {
    Cell(0, 0, 0, 0, RES_UNSET_MASK)
  }

  /** `Cell::unset`: the marker of a free buffer slot. */
  function Unset(): (c: Cell)
    ensures c.nw == 0 && c.ne == 0 && c.sw == 0 && c.se == 0
    ensures c.res == RES_UNSET_MASK
    ensures !IsLeaf(c)
  {
    Cell(0, 0, 0, 0, RES_UNSET_MASK)
  }

  /** A void cell cannot be told apart from a free slot. */
  lemma VoidIsUnset()
    ensures Void() == Unset()
  {
  }

  /** `is_leaf`: `nw & LEAF_MASK == LEAF_MASK`. */
  predicate IsLeaf(c: Cell)
  {
    AndLeafMask(c.nw) == LEAF_MASK
  }

  lemma IsLeafTopBit(c: Cell)
    ensures IsLeaf(c) <==> TopBit(c.nw)
    ensures IsLeaf(c) <==> c.nw >= LEAF_MASK
  {
  }

  /** `children`: the four quadrant indices of a node; leaves have none. */
  function Children(c: Cell): (r: Option<seq<usize>>)
    ensures r.None? <==> IsLeaf(c)
    ensures r.Some? ==> r.value == [c.nw, c.ne, c.sw, c.se]
  {
    if IsLeaf(c) then None else Some([c.nw, c.ne, c.sw, c.se])
  }

  // `Wrapping<usize>` arithmetic.

  function WrapAdd(a: usize, b: usize): (r: usize)
    ensures r == (a + b) % USIZE_MOD
  {
    if a + b < USIZE_MOD then a + b else a + b - USIZE_MOD
  }

  function WrapMul(a: usize, b: usize): (r: usize)
  {
    (a * b) % USIZE_MOD
  }

  /** `node_hash`: `se + 3 * (sw + 3 * (ne + 3 * nw + 3))`, every step wrapping. */
  function NodeHash(c: Cell): usize
  {
    WrapAdd(c.se, WrapMul(3, WrapAdd(c.sw, WrapMul(3, WrapAdd(WrapAdd(c.ne, WrapMul(3, c.nw)), 3)))))
  }

  /** `leaf_hash`: `se + 9 * (sw + 9 * (ne + 9 * nw))`, every step wrapping. */
  function LeafHash(c: Cell): usize
  {
    WrapAdd(c.se, WrapMul(9, WrapAdd(c.sw, WrapMul(9, WrapAdd(c.ne, WrapMul(9, c.nw))))))
  }

  /** `hash`: the leaf hash for leaves, the node hash otherwise. */
  function Hash(c: Cell): usize
  {
    if IsLeaf(c) then LeafHash(c) else NodeHash(c)
  }

  /** Both hashes are polynomials in the four quadrants, taken mod 2^64. */
  lemma HashPolynomial(c: Cell)
    ensures IsLeaf(c) ==> Hash(c) == (c.se + 9 * c.sw + 81 * c.ne + 729 * c.nw) % USIZE_MOD
    ensures !IsLeaf(c) ==> Hash(c) == (c.se + 3 * c.sw + 9 * c.ne + 27 * c.nw + 27) % USIZE_MOD
  {
    if IsLeaf(c) {
      LeafHashPolynomial(c);
    } else {
      NodeHashPolynomial(c);
    }
  }

  // Reducing modulo 2^64 after every step gives the same word as reducing
  // once at the end.

  lemma ModAdd(a: int, b: int)
    ensures (a % USIZE_MOD + b) % USIZE_MOD == (a + b) % USIZE_MOD
  {
    var q := a / USIZE_MOD;
    assert a == USIZE_MOD * q + a % USIZE_MOD;
    ModShift(a % USIZE_MOD + b, q, USIZE_MOD);
  }

  lemma ModScale(k: nat, a: int)
    ensures (k * (a % USIZE_MOD)) % USIZE_MOD == (k * a) % USIZE_MOD
  {
    var q := a / USIZE_MOD;
    assert a == USIZE_MOD * q + a % USIZE_MOD;
    assert k * a == k * (a % USIZE_MOD) + USIZE_MOD * (k * q);
    ModShift(k * (a % USIZE_MOD), k * q, USIZE_MOD);
  }

  lemma NodeHashPolynomial(c: Cell)
    ensures NodeHash(c) == (c.se + 3 * c.sw + 9 * c.ne + 27 * c.nw + 27) % USIZE_MOD
  {
    var a := WrapAdd(c.ne, WrapMul(3, c.nw));
    ModAdd(3 * c.nw, c.ne);
    assert a == (c.ne + 3 * c.nw) % USIZE_MOD;
    var b := WrapAdd(a, 3);
    ModAdd(c.ne + 3 * c.nw, 3);
    assert b == (c.ne + 3 * c.nw + 3) % USIZE_MOD;
    var d := WrapAdd(c.sw, WrapMul(3, b));
    ModScale(3, c.ne + 3 * c.nw + 3);
    ModAdd(3 * (c.ne + 3 * c.nw + 3), c.sw);
    assert d == (c.sw + 3 * c.ne + 9 * c.nw + 9) % USIZE_MOD;
    ModScale(3, c.sw + 3 * c.ne + 9 * c.nw + 9);
    ModAdd(3 * (c.sw + 3 * c.ne + 9 * c.nw + 9), c.se);
  }

  lemma LeafHashPolynomial(c: Cell)
    ensures LeafHash(c) == (c.se + 9 * c.sw + 81 * c.ne + 729 * c.nw) % USIZE_MOD
  {
    var a := WrapAdd(c.ne, WrapMul(9, c.nw));
    ModAdd(9 * c.nw, c.ne);
    assert a == (c.ne + 9 * c.nw) % USIZE_MOD;
    var d := WrapAdd(c.sw, WrapMul(9, a));
    ModScale(9, c.ne + 9 * c.nw);
    ModAdd(9 * (c.ne + 9 * c.nw), c.sw);
    assert d == (c.sw + 9 * c.ne + 81 * c.nw) % USIZE_MOD;
    ModScale(9, c.sw + 9 * c.ne + 81 * c.nw);
    ModAdd(9 * (c.sw + 9 * c.ne + 81 * c.nw), c.se);
  }

  /** Every cell of a free or void slot hashes to 27, when it is not a leaf. */
  lemma VoidHash()
    ensures Hash(Void()) == 27
  {
  }

  // `cell_utils`. Indexing `buf` out of bounds panics in the source; the
  // functions return None exactly then.

  /** `center`: the half-size cell at the centre of `c`. */
  function Center(c: Cell, buf: seq<Cell>): (r: Option<Cell>)
    ensures r.Some? <==> c.nw < |buf| && c.ne < |buf| && c.sw < |buf| && c.se < |buf|
    ensures r.Some? ==> r.value == Cell(buf[c.nw].se, buf[c.ne].sw, buf[c.sw].ne, buf[c.se].nw, RES_UNSET_MASK)
  {
    if c.nw < |buf| && c.ne < |buf| && c.sw < |buf| && c.se < |buf| then
      Some(Cell(buf[c.nw].se, buf[c.ne].sw, buf[c.sw].ne, buf[c.se].nw, RES_UNSET_MASK))
    else
      None
  }

  /** `h_center`: the half-size cell on the boundary between `w` (left) and `e` (right). */
  function HCenter(w: Cell, e: Cell, buf: seq<Cell>): Option<Cell>
  {
    if w.ne < |buf| && e.nw < |buf| && w.se < |buf| && e.sw < |buf| then
      Some(Cell(buf[w.ne].se, buf[e.nw].sw, buf[w.se].ne, buf[e.sw].nw, RES_UNSET_MASK))
    else
      None
  }

  /** `v_center`: the half-size cell on the boundary between `n` (above) and `s` (below). */
  function VCenter(n: Cell, s: Cell, buf: seq<Cell>): Option<Cell>
  {
    if n.sw < |buf| && n.se < |buf| && s.nw < |buf| && s.ne < |buf| then
      Some(Cell(buf[n.sw].se, buf[n.se].sw, buf[s.nw].ne, buf[s.ne].nw, RES_UNSET_MASK))
    else
      None
  }

  /** `super_center`: the quarter-size cell at the centre of `c`. */
  function SuperCenter(c: Cell, buf: seq<Cell>): Option<Cell>
  {
    if c.nw < |buf| && c.ne < |buf| && c.sw < |buf| && c.se < |buf|
       && buf[c.nw].se < |buf| && buf[c.ne].sw < |buf| && buf[c.sw].ne < |buf| && buf[c.se].nw < |buf|
    then
      Some(Cell(buf[buf[c.nw].se].se, buf[buf[c.ne].sw].sw, buf[buf[c.sw].ne].ne, buf[buf[c.se].nw].nw, RES_UNSET_MASK))
    else
      None
  }

  /**
   * The boundary cell between `w` and `e` is the centre of the cell made of
   * the east half of `w` and the west half of `e`.
   */
  lemma HCenterIsCenter(w: Cell, e: Cell, buf: seq<Cell>)
    ensures HCenter(w, e, buf) == Center(Cell(w.ne, e.nw, w.se, e.sw, RES_UNSET_MASK), buf)
  {
  }

  /**
   * The boundary cell between `n` and `s` is the centre of the cell made of
   * the south half of `n` and the north half of `s`.
   */
  lemma VCenterIsCenter(n: Cell, s: Cell, buf: seq<Cell>)
    ensures VCenter(n, s, buf) == Center(Cell(n.sw, n.se, s.nw, s.ne, RES_UNSET_MASK), buf)
  {
  }

  /** The quarter-size centre is the centre of the half-size centre, and panics exactly when that does. */
  lemma SuperCenterIsCenterOfCenter(c: Cell, buf: seq<Cell>)
    ensures SuperCenter(c, buf) == match Center(c, buf) case None => None case Some(m) => Center(m, buf)
  {
  }

  // The leaf-index arithmetic of `compute_leaf_res`, on 16-bit words.

  /** The four indices `tl`, `tr`, `bl`, `br` that `compute_leaf_res` looks up in `next`. */
  function LeafIndices(nw: bv16, ne: bv16, sw: bv16, se: bv16): (bv16, bv16, bv16, bv16)
  {
    var t00 := nw & 0x0660;
    var t01 := ((nw & 0x0110) << 2) & ((ne & 0x0880) >> 2);
    var t02 := ne & 0x0660;
    var t10 := ((nw & 0x0006) << 8) & ((sw & 0x6000) >> 8);
    var t11 := ((nw & 0x0001) << 10) & ((ne & 0x0008) << 6) & ((sw & 0x1000) >> 6) & ((se & 0x8000) >> 10);
    var t12 := ((ne & 0x0006) << 8) & ((se & 0x6000) >> 8);
    var t20 := sw & 0x0660;
    var t21 := ((sw & 0x0110) << 2) & ((se & 0x0880) >> 2);
    var t22 := se & 0x0660;
    ((t00 << 5) & (t01 << 3) & (t10 >> 1) & (t11 >> 5),
     (t01 << 5) & (t02 << 3) & (t11 >> 1) & (t12 >> 5),
     (t10 << 5) & (t11 << 3) & (t20 >> 1) & (t21 >> 5),
     (t11 << 5) & (t12 << 3) & (t21 >> 1) & (t22 >> 5))
  }

  /**
   * Each of `t01`, `t10`, `t11`, `t12`, `t21` is an AND of masks with no bit
   * in common, so it is 0, and each of the four indices ANDs in one of
   * them: `compute_leaf_res` only ever reads `next[0]`.
   */
  lemma LeafIndicesZero(nw: bv16, ne: bv16, sw: bv16, se: bv16)
    ensures LeafIndices(nw, ne, sw, se) == (0, 0, 0, 0)
  {
  }

  /** `u16` truncation of a word, as `x as u16`. */
  function Low16(x: usize): (r: bv16)
  {
    (x % 0x1_0000) as bv16
  }

  /** A `&mut Cell`: the place `unmask_leaf`, `mask_leaf` and `compute_leaf_res` update. */
  class CellSlot {
    var cell: Cell

    constructor(c: Cell)
      ensures cell == c
    {
      cell := c;
    }

    /** `unmask_leaf`: asserts the leaf flag, then `nw ^= LEAF_MASK`. */
    method UnmaskLeaf()
      requires IsLeaf(cell)
      modifies this
      ensures cell == old(cell).(nw := XorLeafMask(old(cell).nw))
      ensures cell.nw == old(cell).nw - LEAF_MASK
      ensures !IsLeaf(cell)
    {
      cell := cell.(nw := XorLeafMask(cell.nw));
    }

    /** `mask_leaf`: `nw &= LEAF_MASK`, which keeps bit 63 and clears the other 63 bits. */
    method MaskLeaf()
      modifies this
      ensures cell == old(cell).(nw := AndLeafMask(old(cell).nw))
      ensures IsLeaf(cell) <==> IsLeaf(old(cell))
    {
      cell := cell.(nw := AndLeafMask(cell.nw));
    }

    /**
     * `compute_leaf_res`: unmask, look the four indices up in `next` and
     * discard the combination, then mask again. Since `mask_leaf` ANDs
     * instead of ORs, the net effect is that `nw` becomes 0 and the cell is
     * no longer a leaf. The lookups panic only when `next` is empty, as all
     * four indices are 0.
     */
    method ComputeLeafRes(next: seq<bv16>)
      requires IsLeaf(cell)
      requires |next| > 0
      modifies this
      ensures cell == old(cell).(nw := 0)
      ensures !IsLeaf(cell)
    {
      UnmaskLeaf();
      var idx := LeafIndices(Low16(cell.nw), Low16(cell.ne), Low16(cell.sw), Low16(cell.se));
      LeafIndicesZero(Low16(cell.nw), Low16(cell.ne), Low16(cell.sw), Low16(cell.se));
      var discarded := (next[idx.0 as int] << 5) & (next[idx.1 as int] << 3)
        & (next[idx.2 as int] >> 1) & (next[idx.3 as int] >> 5);
      MaskLeaf();
    }
  }

  /** Unmasking followed by masking clears `nw` entirely. */
  lemma MaskAfterUnmask(x: usize)
    requires TopBit(x)
    ensures AndLeafMask(XorLeafMask(x)) == 0
  {
  }
}
