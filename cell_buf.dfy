/**
 * The open-addressing cell table of src/main.rs: a fixed buffer of cells
 * probed quadratically from a cell's hash, the relocation of a cell tree
 * into a larger buffer, and the `next_prime` helper it sizes buffers with.
 */
module CellBufs {
  import opened Base
  import opened Cells

  /* ----- next_prime ----- */

  /**
   * The largest `n` for which `is_prime` keeps `i * i` inside `usize`:
   * `(2^32 - 1)^2`, the square of the last odd `i` whose square fits.
   */
  const SQUARE_MAX: nat := 0xFFFF_FFFE_0000_0001

  /**
   * `is_prime`: tries odd `i` from 3 while `i * i < n`, but tests
   * `i % n == 0` rather than `n % i == 0`. Inside the loop `i < n`, so the
   * test never holds and the answer is never false. Once every odd `i`
   * whose square fits has passed, the next `i * i` overflows and panics.
   */
  method IsPrime(n: usize) returns (r: Outcome<bool>)
    ensures r.Panic? <==> n > SQUARE_MAX
    ensures r != Done(false) && !r.Diverge?
  {
    var i: nat := 3;
    while i * i < USIZE_MOD && i * i < n
      invariant 3 <= i <= 0x1_0000_0001 && i % 2 == 1
      invariant i > 3 ==> (i - 2) * (i - 2) < n
      decreases n - i
    {
      SquareBound(i, n);
      if i % n == 0 {
        return Done(false);
      }
      SquareFits(i);
      i := i + 2;
    }
    SquareFits(i);
    if i * i >= USIZE_MOD {
      // `i * i` overflows
      assert i == 0x1_0000_0001;
      assert (i - 2) * (i - 2) == SQUARE_MAX;
      return Panic;
    }
    SquareMono(i, 0xFFFF_FFFF);
    return Done(true);
  }

  lemma SquareBound(i: int, n: int)
    requires i >= 3 && i * i < n
    ensures 0 < i < n && i % n == i
  {
    assert i < i * i;
  }

  /** `i * i` fits a `usize` exactly when `i` fits 32 bits. */
  lemma SquareFits(i: nat)
    ensures i * i < USIZE_MOD <==> i <= 0xFFFF_FFFF
  {
    if i <= 0xFFFF_FFFF {
      SquareMono(i, 0xFFFF_FFFF);
    } else {
      SquareMono(0x1_0000_0000, i);
    }
  }

  lemma SquareMono(a: nat, b: nat)
    requires a <= b
    ensures a * a <= b * b
  {
    assert a * a <= a * b;
    assert a * b <= b * b;
  }

  /**
   * `next_prime`: `n |= 1`, then step by 2 until `is_prime` holds. As
   * `is_prime` never answers false, the answer is `n | 1`, the least odd
   * number that is at least `n`, unless `is_prime` panics on it.
   */
  method NextPrime(n: usize) returns (r: Outcome<usize>)
    ensures r.Panic? <==> n > SQUARE_MAX
    ensures r.Done? ==> r.value == OrOne(n)
    ensures r.Done? ==> r.value % 2 == 1 && n <= r.value <= n + 1
    ensures !r.Diverge?
  {
    var m := OrOne(n);
    var prime := IsPrime(m);
    if prime.Panic? {
      return Panic;
    }
    if prime == Done(false) {
      // `n += 2` and the next round of the loop: never reached
      assert false;
    }
    return Done(m);
  }

  /* ----- probing ----- */

  const C1: nat := 1
  const C2: nat := 1

  /** The `i`-th slot probed for hash `h` in a buffer of `n` slots. */
  function Probe(h: nat, i: nat, n: nat): (r: nat)
    requires n > 0
    ensures r < n
  {
    (h + C1 * i + C2 * i * i) % n
  }

  /**
   * The probe sum `h + C1 * i + C2 * i * i` leaves the `usize` range. With
   * overflow checks on, the source then panics; every partial sum is at
   * most the whole, so one of its three operations overflows exactly when
   * the whole sum does.
   */
  predicate Overflows(h: nat, i: nat)
  {
    h + C1 * i + C2 * i * i >= USIZE_MOD
  }

  /** Once the sum overflows, every later probe's sum does too. */
  lemma OverflowsLater(h: nat, i: nat, k: nat)
    requires i <= k && Overflows(h, i)
    ensures Overflows(h, k)
  {
    assert i * i <= i * k <= k * k;
  }

  /** The probe sequence repeats after `n` probes. */
  lemma ProbePeriodic(h: nat, i: nat, n: nat)
    requires n > 0
    ensures Probe(h, i, n) == Probe(h, i % n, n)
  {
    var q := i / n;
    var r := i % n;
    assert i == n * q + r;
    assert i * i == r * r + n * (2 * r * q + n * q * q) by {
      assert i * i == (n * q + r) * (n * q + r);
    }
    assert h + i + i * i == (h + r + r * r) + n * (q + 2 * r * q + n * q * q);
    ModShift(h + r + r * r, q + 2 * r * q + n * q * q, n);
  }

  predicate Free(t: seq<Cell>, k: nat)
  {
    k < |t| && t[k] == Unset()
  }

  /** The first probe from the `k`-th on, among the first `|t|`, that hits a free slot. */
  function FreeFrom(t: seq<Cell>, h: nat, k: nat): (r: Option<nat>)
    requires |t| > 0
    ensures r.Some? ==> k <= r.value < |t| && Free(t, Probe(h, r.value, |t|))
    ensures r.Some? ==> forall j :: k <= j < r.value ==> !Free(t, Probe(h, j, |t|))
    ensures r.None? ==> forall j :: k <= j < |t| ==> !Free(t, Probe(h, j, |t|))
    decreases |t| - k
  {
    if k >= |t| then None
    else if Free(t, Probe(h, k, |t|)) then Some(k)
    else FreeFrom(t, h, k + 1)
  }

  /**
   * When none of the first `|t|` probes is free, no probe ever is: the
   * source's unbounded probing loop then never returns.
   */
  lemma NeverFree(t: seq<Cell>, h: nat)
    requires |t| > 0 && FreeFrom(t, h, 0).None?
    ensures forall i: nat :: !Free(t, Probe(h, i, |t|))
  {
    forall i: nat
      ensures !Free(t, Probe(h, i, |t|))
    {
      ProbePeriodic(h, i, |t|);
    }
  }

  /**
   * `insert_buf` on a buffer `t`: the index of the first free slot of the
   * probe sequence of `cell.hash()` and the buffer with `cell` written
   * there. An empty buffer panics (`% 0`), and so does a probe whose
   * `usize` sum overflows before a free slot is found. The loop never runs
   * forever: once no probe of the first period is free, none ever is, and
   * the growing sum overflows.
   */
  function InsertInto(cell: Cell, t: seq<Cell>): (r: Outcome<(usize, seq<Cell>)>)
    requires |t| < LEAF_MASK
    ensures !r.Diverge?
    ensures |t| == 0 ==> r.Panic?
    ensures r.Done? ==>
      var j := r.value.0;
      Free(t, j) && r.value.1 == t[j := cell] &&
      exists k :: 0 <= k < |t| && j == Probe(Hash(cell), k, |t|) && !Overflows(Hash(cell), k) &&
        forall m :: 0 <= m < k ==> !Free(t, Probe(Hash(cell), m, |t|))
  {
    if |t| == 0 then Panic
    else
      match FreeFrom(t, Hash(cell), 0)
      case None => Panic
      case Some(k) =>
        if Overflows(Hash(cell), k) then Panic
        else
          var j := Probe(Hash(cell), k, |t|);
          Done((j, t[j := cell]))
  }

  /* ----- move_cell ----- */

  /**
   * From index `i` of `s`, every chain of quadrant and result indices stays
   * inside `s` and reaches a leaf within `d` steps: exactly when
   * `move_cell` neither indexes out of bounds nor recurses forever.
   */
  predicate Tree(s: seq<Cell>, i: nat, d: nat)
    decreases d
  {
    i < |s| &&
    (IsLeaf(s[i]) ||
     (d > 0 && Tree(s, s[i].nw, d - 1) && Tree(s, s[i].ne, d - 1) && Tree(s, s[i].sw, d - 1)
            && Tree(s, s[i].se, d - 1) && Tree(s, s[i].res, d - 1)))
  }

  /** A slot holding a cell keeps it. */
  predicate Keeps(t: seq<Cell>, t': seq<Cell>)
  {
    |t'| == |t| && forall k :: 0 <= k < |t| && t[k] != Unset() ==> t'[k] == t[k]
  }

  lemma KeepsTrans(t: seq<Cell>, t': seq<Cell>, t'': seq<Cell>)
    requires Keeps(t, t') && Keeps(t', t'')
    ensures Keeps(t, t'')
  {
  }

  /**
   * `move_cell` from the cells `s` into the buffer `t`: a leaf is inserted
   * as it is; a node first has its four quadrants and its result moved,
   * in that order, and is then inserted with the new indices.
   */
  function Moved(s: seq<Cell>, i: nat, t: seq<Cell>, d: nat): (r: Outcome<(usize, seq<Cell>)>)
    requires Tree(s, i, d) && 0 < |t| < LEAF_MASK
    ensures !r.Diverge?
    ensures r.Done? ==> r.value.0 < |t| && |r.value.1| == |t|
    decreases d
  {
    var cell := s[i];
    if IsLeaf(cell) then
      InsertInto(cell, t)
    else
      var a :- Moved(s, cell.nw, t, d - 1);
      var b :- Moved(s, cell.ne, a.1, d - 1);
      var c :- Moved(s, cell.sw, b.1, d - 1);
      var e :- Moved(s, cell.se, c.1, d - 1);
      var f :- Moved(s, cell.res, e.1, d - 1);
      InsertInto(cell.(nw := a.0, ne := b.0, sw := c.0, se := e.0, res := f.0), f.1)
  }

  /** The five moved indices still point at occupied slots once all five moves are done. */
  lemma MovedNode(ta: seq<Cell>, tb: seq<Cell>, tc: seq<Cell>, te: seq<Cell>, tf: seq<Cell>,
                  a: nat, b: nat, c: nat, e: nat, f: nat)
    requires Keeps(ta, tb) && Keeps(tb, tc) && Keeps(tc, te) && Keeps(te, tf)
    requires a < |ta| && ta[a] != Unset() && b < |tb| && tb[b] != Unset()
    requires c < |tc| && tc[c] != Unset() && e < |te| && te[e] != Unset() && f < |tf| && tf[f] != Unset()
    ensures Keeps(ta, tf)
    ensures tf[a] != Unset() && tf[b] != Unset() && tf[c] != Unset() && tf[e] != Unset()
  {
    KeepsTrans(ta, tb, tc);
    KeepsTrans(ta, tc, te);
    KeepsTrans(ta, te, tf);
  }

  /** A node whose result index is below LEAF_MASK is not the unset marker. */
  lemma NodeNotUnset(node: Cell)
    requires node.res < LEAF_MASK
    ensures node != Unset()
  {
  }

  /**
   * What `move_cell` leaves in the new buffer when it moves `cell` from
   * `t` to `t'` and returns `j`: no occupied slot is overwritten, slot `j`
   * holds the moved cell (a leaf exactly when `cell` is one, and `cell`
   * itself for a leaf), and a moved node's five indices point at occupied
   * slots.
   */
  predicate MovedWell(cell: Cell, t: seq<Cell>, j: nat, t': seq<Cell>)
  {
    Occupies(t, j, t') && (IsLeaf(t'[j]) <==> IsLeaf(cell)) &&
    (IsLeaf(cell) ==> t'[j] == cell) &&
    (!IsLeaf(cell) ==>
       t'[j].nw < |t'| && t'[j].ne < |t'| && t'[j].sw < |t'| && t'[j].se < |t'| && t'[j].res < |t'| &&
       t'[t'[j].nw] != Unset() && t'[t'[j].ne] != Unset() && t'[t'[j].sw] != Unset() &&
       t'[t'[j].se] != Unset() && t'[t'[j].res] != Unset())
  }

  /** `t'` keeps every cell of `t` and holds a cell in slot `j`. */
  predicate Occupies(t: seq<Cell>, j: nat, t': seq<Cell>)
  {
    Keeps(t, t') && j < |t'| && t'[j] != Unset()
  }

  lemma {:induction false} MovedFacts(s: seq<Cell>, i: nat, t: seq<Cell>, d: nat)
    requires Tree(s, i, d) && 0 < |t| < LEAF_MASK
    requires Moved(s, i, t, d).Done?
    ensures MovedWell(s[i], t, Moved(s, i, t, d).value.0, Moved(s, i, t, d).value.1)
    decreases d
  {
    var cell := s[i];
    if IsLeaf(cell) {
      LeafNotUnset(cell);
      InsertKeeps(cell, t);
    } else {
      var a := Moved(s, cell.nw, t, d - 1).value;
      MovedFacts(s, cell.nw, t, d - 1);
      var b := Moved(s, cell.ne, a.1, d - 1).value;
      MovedFacts(s, cell.ne, a.1, d - 1);
      var c := Moved(s, cell.sw, b.1, d - 1).value;
      MovedFacts(s, cell.sw, b.1, d - 1);
      var e := Moved(s, cell.se, c.1, d - 1).value;
      MovedFacts(s, cell.se, c.1, d - 1);
      var f := Moved(s, cell.res, e.1, d - 1).value;
      MovedFacts(s, cell.res, e.1, d - 1);
      var node := cell.(nw := a.0, ne := b.0, sw := c.0, se := e.0, res := f.0);
      assert Moved(s, i, t, d) == InsertInto(node, f.1);
      NodeFacts(cell, t, a, b, c, e, f, node);
    }
  }

  /** The node case of MovedFacts, from the facts about its five moves. */
  lemma NodeFacts(cell: Cell, t: seq<Cell>, a: (usize, seq<Cell>), b: (usize, seq<Cell>),
                  c: (usize, seq<Cell>), e: (usize, seq<Cell>), f: (usize, seq<Cell>), node: Cell)
    requires !IsLeaf(cell) && 0 < |t| < LEAF_MASK
    requires Occupies(t, a.0, a.1) && Occupies(a.1, b.0, b.1) && Occupies(b.1, c.0, c.1)
    requires Occupies(c.1, e.0, e.1) && Occupies(e.1, f.0, f.1)
    requires node == cell.(nw := a.0, ne := b.0, sw := c.0, se := e.0, res := f.0)
    requires InsertInto(node, f.1).Done?
    ensures MovedWell(cell, t, InsertInto(node, f.1).value.0, InsertInto(node, f.1).value.1)
  {
    MovedNode(a.1, b.1, c.1, e.1, f.1, a.0, b.0, c.0, e.0, f.0);
    KeepsTrans(t, a.1, f.1);
    NodeNotUnset(node);
    InsertKeeps(node, f.1);
    var (j, t') := InsertInto(node, f.1).value;
    assert t'[j] == node;
    KeepsTrans(t, f.1, t');
  }

  /** A leaf is never the unset marker. */
  lemma LeafNotUnset(c: Cell)
    requires IsLeaf(c)
    ensures c != Unset()
  {
  }

  /** `insert_buf` only fills a free slot. */
  lemma InsertKeeps(cell: Cell, t: seq<Cell>)
    requires |t| < LEAF_MASK && InsertInto(cell, t).Done?
    ensures Keeps(t, InsertInto(cell, t).value.1)
  {
  }

  /** `Moved` with only its index: the part `move_cell` returns. */
  function Index(o: Outcome<(usize, seq<Cell>)>): (r: Outcome<usize>)
    ensures r.Done? <==> o.Done?
    ensures r.Done? ==> r.value == o.value.0
  {
    match o
    case Done(p) => Done(p.0)
    case Panic => Panic
    case Diverge => Diverge
  }

  /** A buffer of `n` unset cells: `vec![Cell::unset(); n]`. */
  function Unsets(n: nat): (t: seq<Cell>)
    ensures |t| == n && forall k :: 0 <= k < n ==> t[k] == Unset()
  {
    seq(n, k => Unset())
  }

  /** The table size `insert` starts with: `next_prime(10_000)`. */
  const INITIAL_SLOTS: nat := 10001

  /** `size / len > 0.8`, in exact arithmetic. */
  predicate ShouldGrow(size: nat, len: nat)
  {
    5 * size > 4 * len
  }

  class CellBuf {
    /** Index of the root cell in `buf`. */
    var root: usize
    /** Every cell of the program. */
    var buf: array<Cell>
    /** Number of cells inserted. */
    var size: nat

    /** `grow` never stores the table it builds, so the buffer keeps its first length. */
    predicate Valid()
      reads this
    {
      buf.Length == INITIAL_SLOTS
    }

    /** `CellBuf::new`. */
    constructor()
      ensures Valid() && fresh(buf)
      ensures root == 0 && size == 0
      ensures buf[..] == Unsets(INITIAL_SLOTS)
    {
      root := 0;
      size := 0;
      var n := NextPrime(10000);
      InitialPrime();
      buf := new Cell[n.value](k => Unset());
    }

    /** `get`: the cell in slot `index`, or None for a free slot; out of bounds panics. */
    method Get(index: usize) returns (r: Outcome<Option<Cell>>)
      ensures r.Panic? <==> index >= buf.Length
      ensures r == Done(None) <==> index < buf.Length && buf[index] == Unset()
      ensures index < buf.Length && buf[index] != Unset() ==> r == Done(Some(buf[index]))
      ensures !r.Diverge?
    {
      if index >= buf.Length {
        return Panic;
      }
      var cell := buf[index];
      if cell == Unset() {
        r := Done(None);
      } else {
        r := Done(Some(cell));
      }
    }

    /**
     * `insert_buf`: probes `(h + i + i * i) % n` for `i = 0, 1, ...` and
     * writes `cell` into the first free slot; a sum that overflows `usize`
     * panics. The probes repeat after `n` steps, so once `n` probes have
     * failed none will succeed and the loop goes on until the sum overflows.
     */
    static method InsertBuf(cell: Cell, b: array<Cell>) returns (r: Outcome<usize>)
      requires b.Length < LEAF_MASK
      modifies b
      ensures !r.Diverge?
      ensures r == Index(InsertInto(cell, old(b[..])))
      ensures r.Done? ==> b[..] == InsertInto(cell, old(b[..])).value.1
      ensures !r.Done? ==> b[..] == old(b[..])
    {
      var n := b.Length;
      if n == 0 {
        return Panic;
      }
      var h := Hash(cell);
      var i := 0;
      while i < n
        invariant 0 <= i <= n
        invariant b[..] == old(b[..])
        invariant FreeFrom(b[..], h, 0) == FreeFrom(b[..], h, i)
      {
        if h + C1 * i + C2 * i * i >= USIZE_MOD {
          // the `usize` sum overflows, and so does every later one
          if FreeFrom(b[..], h, i).Some? {
            OverflowsLater(h, i, FreeFrom(b[..], h, i).value);
          }
          return Panic;
        }
        var index := (h + C1 * i + C2 * i * i) % n;
        if b[index] == Unset() {
          b[index] := cell;
          return Done(index);
        }
        i := i + 1;
      }
      // the later probes repeat these, none is free, and the sum overflows in the end
      return Panic;
    }

    /** `move_cell`: relocates the tree at `index` of `buf` into `nbuf`. */
    method MoveCell(index: usize, nbuf: array<Cell>, ghost d: nat) returns (r: Outcome<usize>)
      requires Tree(buf[..], index, d)
      requires nbuf != buf && 0 < nbuf.Length < LEAF_MASK
      modifies nbuf
      ensures !r.Diverge?
      ensures r == Index(Moved(buf[..], index, old(nbuf[..]), d))
      ensures r.Done? ==> nbuf[..] == Moved(buf[..], index, old(nbuf[..]), d).value.1
      decreases d
    {
      var cell := buf[index];
      if !IsLeaf(cell) {
        var a := MoveCell(cell.nw, nbuf, d - 1);
        if !a.Done? { return a; }
        var b := MoveCell(cell.ne, nbuf, d - 1);
        if !b.Done? { return b; }
        var c := MoveCell(cell.sw, nbuf, d - 1);
        if !c.Done? { return c; }
        var e := MoveCell(cell.se, nbuf, d - 1);
        if !e.Done? { return e; }
        var f := MoveCell(cell.res, nbuf, d - 1);
        if !f.Done? { return f; }
        cell := cell.(nw := a.value, ne := b.value, sw := c.value, se := e.value, res := f.value);
      }
      r := InsertBuf(cell, nbuf);
    }

    /**
     * `grow`: moves the tree at `root` into a fresh buffer of
     * `next_prime(2 * len)` slots and keeps only the new root index; the
     * new buffer is dropped, and `buf` is left as it was.
     */
    method Grow(ghost d: nat) returns (r: Outcome<()>)
      requires Valid() && Tree(buf[..], root, d)
      modifies this
      ensures Valid() && buf == old(buf) && size == old(size)
      ensures r.Done? <==> Moved(buf[..], old(root), Unsets(OrOne(2 * buf.Length)), d).Done?
      ensures r.Done? ==> root == Moved(buf[..], old(root), Unsets(OrOne(2 * buf.Length)), d).value.0
      ensures !r.Done? ==> root == old(root)
      ensures !r.Diverge?
    {
      var prime := NextPrime(2 * buf.Length);
      var n := prime.value;
      var nbuf := new Cell[n](k => Unset());
      assert nbuf[..] == Unsets(n);
      var moved := MoveCell(root, nbuf, d);
      if !moved.Done? {
        return Panic;
      }
      root := moved.value;
      return Done(());
    }

    /**
     * `insert`: grows first when the table is more than 80% full, counts
     * the cell and writes it with `insert_buf`.
     */
    method Insert(cell: Cell, ghost d: nat) returns (r: Outcome<usize>)
      requires Valid() && (ShouldGrow(size, buf.Length) ==> Tree(buf[..], root, d))
      modifies this, buf
      ensures Valid() && buf == old(buf)
      ensures r.Done? ==> size == old(size) + 1
      ensures r.Done? ==> r == Index(InsertInto(cell, old(buf[..])))
      ensures r.Done? ==> buf[..] == InsertInto(cell, old(buf[..])).value.1
      ensures r.Done? && !ShouldGrow(old(size), buf.Length) ==> root == old(root)
      ensures r.Done? && ShouldGrow(old(size), buf.Length) ==>
        && Moved(old(buf[..]), old(root), Unsets(OrOne(2 * buf.Length)), d).Done?
        && root == Moved(old(buf[..]), old(root), Unsets(OrOne(2 * buf.Length)), d).value.0
      ensures !r.Diverge?
      ensures r == if ShouldGrow(old(size), buf.Length)
                      && !Moved(old(buf[..]), old(root), Unsets(OrOne(2 * buf.Length)), d).Done?
                   then Panic
                   else Index(InsertInto(cell, old(buf[..])))
    {
      ghost var cells := buf[..];
      if ShouldGrow(size, buf.Length) {
        var grown := Grow(d);
        if !grown.Done? {
          return Panic;
        }
        assert buf[..] == cells;
        assert root == Moved(cells, old(root), Unsets(OrOne(2 * buf.Length)), d).value.0;
      }
      ghost var grownRoot := root;
      size := size + 1;
      r := InsertBuf(cell, buf);
      assert root == grownRoot;
    }
  }

  /* ----- properties ----- */

  /** `next_prime(10_000)` is 10001. */
  lemma InitialPrime()
    ensures OrOne(10000) == 10001 && OrOne(10001) == 10001
  {
  }

  /**
   * `insert_buf` returns an index exactly when some probe whose sum does not
   * overflow hits a free slot; otherwise it panics.
   */
  lemma InsertBufTerminates(cell: Cell, t: seq<Cell>)
    requires 0 < |t| < LEAF_MASK
    ensures InsertInto(cell, t).Done? <==>
      exists i: nat :: Free(t, Probe(Hash(cell), i, |t|)) && !Overflows(Hash(cell), i)
    ensures !InsertInto(cell, t).Done? ==> InsertInto(cell, t).Panic?
  {
    var h := Hash(cell);
    if InsertInto(cell, t).Done? {
      var k := FreeFrom(t, h, 0).value;
      assert Free(t, Probe(h, k, |t|)) && !Overflows(h, k);
    } else {
      forall i: nat | Free(t, Probe(h, i, |t|))
        ensures Overflows(h, i)
      {
        FreeProbeOverflows(t, h, i, i % |t|);
      }
    }
  }

  lemma ModAtMost(i: nat, n: nat)
    requires n > 0
    ensures i % n <= i
  {
    if i >= n {
      assert i % n < n;
    }
  }

  /** A free probe `i` when the first free probe of the first period overflows. */
  lemma FreeProbeOverflows(t: seq<Cell>, h: nat, i: nat, q: nat)
    requires 0 < |t| && q == i % |t| && Free(t, Probe(h, i, |t|))
    requires FreeFrom(t, h, 0).None? || Overflows(h, FreeFrom(t, h, 0).value)
    ensures Overflows(h, i)
  {
    ProbePeriodic(h, i, |t|);
    assert Free(t, Probe(h, q, |t|));
    if FreeFrom(t, h, 0).None? {
      NeverFree(t, h);
      assert false;
    }
    var k := FreeFrom(t, h, 0).value;
    assert k <= q;
    ModAtMost(i, |t|);
    OverflowsLater(h, k, i);
  }

  /**
   * A cell hashing to `usize::MAX` whose own slot is taken panics: the
   * second probe's sum `h + 1 + 1` already overflows.
   */
  lemma TopHashPanics(cell: Cell, t: seq<Cell>)
    requires 0 < |t| < LEAF_MASK
    requires Hash(cell) == USIZE_MAX && !Free(t, Hash(cell) % |t|)
    ensures InsertInto(cell, t) == Panic
  {
    assert Probe(Hash(cell), 0, |t|) == Hash(cell) % |t|;
    var k := FreeFrom(t, Hash(cell), 0);
    if k.Some? {
      assert k.value >= 1;
      assert Overflows(Hash(cell), k.value);
    }
  }

  /** Into a buffer with no cell at all, a cell goes to the slot its hash selects. */
  lemma InsertIntoEmpty(cell: Cell, n: nat)
    requires 0 < n < LEAF_MASK
    ensures InsertInto(cell, Unsets(n)) == Done((Hash(cell) % n, Unsets(n)[Hash(cell) % n := cell]))
  {
    assert Free(Unsets(n), Probe(Hash(cell), 0, n));
  }

  /** A leaf moved into an empty buffer lands, unchanged, at its hash slot. */
  lemma MoveLeafIntoEmpty(s: seq<Cell>, i: nat, n: nat, d: nat)
    requires i < |s| && IsLeaf(s[i]) && 0 < n < LEAF_MASK
    ensures Moved(s, i, Unsets(n), d) == Done((Hash(s[i]) % n, Unsets(n)[Hash(s[i]) % n := s[i]]))
  {
    InsertIntoEmpty(s[i], n);
  }

  /**
   * A free slot at index 0 is a node whose quadrants all point back at
   * index 0: no tree passes through it, so `move_cell` either runs out of
   * bounds on its result index or recurses forever.
   */
  lemma {:induction false} UnsetIsNoTree(s: seq<Cell>, d: nat)
    requires |s| > 0 && s[0] == Unset()
    ensures !Tree(s, 0, d)
    decreases d
  {
    if d > 0 {
      UnsetIsNoTree(s, d - 1);
    }
  }
}
