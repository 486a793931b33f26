/**
 * The pointer quadtree: a node is alive or dead and owns up to four optional
 * quadrants. Grandchild selection (`center`, `north`, `south`, `east`,
 * `west`), the 3x3 overlapping tiling of `next_gen`, centred growth and the
 * coordinate-driven descent of `set`.
 *
 * Geometry used by the lemmas: the sixteen grandchildren of a node form a
 * 4x4 grid, column 0 to 3 from west to east and row 0 to 3 from north to
 * south; `Window(n, c, r)` is the 2x2 block of that grid whose north-west
 * corner is at column `c`, row `r`.
 */
module QuadTrees {
  import opened Base

  datatype Quadrant = NW | NE | SW | SE

  datatype Node = Node(on: bool, nw: Option<Node>, ne: Option<Node>, sw: Option<Node>, se: Option<Node>)

  /** `Node::new`: a dead node without quadrants. */
  function New(): (r: Node)
    ensures IsEmpty(r) && !IsLeaf(r)
  {
    Node(false, None, None, None, None)
  }

  /** `Node::from`: a dead node over copies of the four given quadrants. */
  function From(nw: Option<Node>, ne: Option<Node>, sw: Option<Node>, se: Option<Node>): (r: Node)
    ensures !r.on
    ensures Child(r, NW) == nw && Child(r, NE) == ne && Child(r, SW) == sw && Child(r, SE) == se
  {
    Node(false, nw, ne, sw, se)
  }

  predicate NoChildren(n: Node)
  {
    n.nw.None? && n.ne.None? && n.sw.None? && n.se.None?
  }

  predicate IsEmpty(n: Node)
  {
    !n.on && NoChildren(n)
  }

  predicate IsLeaf(n: Node)
  {
    n.on && NoChildren(n)
  }

  lemma EmptyIsNotLeaf(n: Node)
    ensures !(IsEmpty(n) && IsLeaf(n))
    ensures IsEmpty(n) <==> n == New()
  {
  }

  function Child(n: Node, q: Quadrant): Option<Node>
  {
    match q
    case NW => n.nw
    case NE => n.ne
    case SW => n.sw
    case SE => n.se
  }

  /** `n` with quadrant `q` replaced by `Some(c)`. */
  function WithChild(n: Node, q: Quadrant, c: Node): (r: Node)
    ensures r.on == n.on
    ensures Child(r, q) == Some(c)
    ensures forall q' :: q' != q ==> Child(r, q') == Child(n, q')
  {
    match q
    case NW => n.(nw := Some(c))
    case NE => n.(ne := Some(c))
    case SW => n.(sw := Some(c))
    case SE => n.(se := Some(c))
  }

  /** Quadrant `q` of the node in `o` (`o.as_ref().and_then(|m| m.q.clone())`). */
  function Sub(o: Option<Node>, q: Quadrant): Option<Node>
  {
    match o
    case None => None
    case Some(m) => Child(m, q)
  }

  // ---------------------------------------------------------------------
  // Grandchild selection
  // ---------------------------------------------------------------------

  function Center(n: Node): Node
  {
    Node(false, Sub(n.nw, SE), Sub(n.ne, SW), Sub(n.sw, NE), Sub(n.se, NW))
  }

  function North(n: Node): Node
  {
    Node(false, Sub(n.nw, NE), Sub(n.ne, NW), Sub(n.nw, SE), Sub(n.ne, SW))
  }

  function South(n: Node): Node
  {
    Node(false, Sub(n.sw, NE), Sub(n.se, NW), Sub(n.sw, SE), Sub(n.se, SW))
  }

  function East(n: Node): Node
  {
    Node(false, Sub(n.ne, SW), Sub(n.ne, SE), Sub(n.se, NW), Sub(n.se, NE))
  }

  function West(n: Node): Node
  {
    Node(false, Sub(n.nw, SW), Sub(n.nw, SE), Sub(n.sw, NW), Sub(n.sw, NE))
  }

  /** The quadrant at column `c`, row `r` of a 2x2 block. */
  function Q(c: nat, r: nat): Quadrant
    requires c < 2 && r < 2
  {
    if r == 0 then (if c == 0 then NW else NE) else (if c == 0 then SW else SE)
  }

  /** The grandchild at column `c`, row `r` of the 4x4 grid below `n`. */
  function Grand(n: Node, c: nat, r: nat): Option<Node>
    requires c < 4 && r < 4
  {
    Sub(Child(n, Q(c / 2, r / 2)), Q(c % 2, r % 2))
  }

  /** The dead node over the 2x2 block of grandchildren at column `c`, row `r`. */
  function Window(n: Node, c: nat, r: nat): Node
    requires c < 3 && r < 3
  {
    Node(false, Grand(n, c, r), Grand(n, c + 1, r), Grand(n, c, r + 1), Grand(n, c + 1, r + 1))
  }

  /**
   * The five selections are the five 2x2 windows of the grandchild grid
   * that do not sit in a corner: centre, top, bottom, right and left.
   */
  lemma SelectionsAreWindows(n: Node)
    ensures Center(n) == Window(n, 1, 1)
    ensures North(n) == Window(n, 1, 0)
    ensures South(n) == Window(n, 1, 2)
    ensures East(n) == Window(n, 2, 1)
    ensures West(n) == Window(n, 0, 1)
  {
  }

  /** A corner window is the corner quadrant itself, minus its own flag. */
  lemma CornerWindow(n: Node, c: nat, r: nat)
    requires c < 3 && r < 3 && c != 1 && r != 1
    requires Child(n, Q(c / 2, r / 2)).Some?
    ensures Center(Window(n, c, r)) == Center(Child(n, Q(c / 2, r / 2)).value)
  {
  }

  // ---------------------------------------------------------------------
  // next_gen
  // ---------------------------------------------------------------------

  function CenterOf(o: Option<Node>): Option<Node>
  {
    match o
    case None => None
    case Some(m) => Some(Center(m))
  }

  /**
   * `next_gen(depth)`. Depth 0 is `todo!()` and panics; otherwise the nine
   * overlapping tiles are assembled into four dead quadrants.
   */
  function NextGen(n: Node, depth: nat): (r: Outcome<Node>)
    ensures r.Panic? <==> depth == 0
    ensures r.Done? ==> !r.value.on
  {
    if depth == 0 then Panic
    else
      var n00 := CenterOf(n.nw);
      var n01 := Some(Center(North(n)));
      var n02 := CenterOf(n.ne);
      var n10 := Some(Center(West(n)));
      var n11 := Some(Center(Center(n)));
      var n12 := Some(Center(East(n)));
      var n20 := CenterOf(n.sw);
      var n21 := Some(Center(South(n)));
      var n22 := CenterOf(n.se);
      Done(From(Some(From(n00, n01, n10, n11)), Some(From(n01, n02, n11, n12)),
                Some(From(n10, n11, n20, n21)), Some(From(n11, n12, n21, n22))))
  }

  /**
   * Tile `(c, r)` of the 3x3 tiling: the centre of window `(c, r)`; a
   * corner tile is absent when the corner quadrant is.
   */
  function Tile(n: Node, c: nat, r: nat): Option<Node>
    requires c < 3 && r < 3
  {
    if c != 1 && r != 1 && Child(n, Q(c / 2, r / 2)).None? then None
    else Some(Center(Window(n, c, r)))
  }

  /** Quadrant `(a, b)` of the result of `next_gen` is the 2x2 block of tiles at `(a, b)`. */
  lemma {:induction false} NextGenTiling(n: Node, depth: nat, a: nat, b: nat, c: nat, d: nat)
    requires depth > 0 && a < 2 && b < 2 && c < 2 && d < 2
    ensures Child(NextGen(n, depth).value, Q(a, b)).Some?
    ensures !Child(NextGen(n, depth).value, Q(a, b)).value.on
    ensures Child(Child(NextGen(n, depth).value, Q(a, b)).value, Q(c, d)) == Tile(n, a + c, b + d)
  {
    SelectionsAreWindows(n);
    if n.nw.Some? { CornerWindow(n, 0, 0); }
    if n.ne.Some? { CornerWindow(n, 2, 0); }
    if n.sw.Some? { CornerWindow(n, 0, 2); }
    if n.se.Some? { CornerWindow(n, 2, 2); }
  }

  /** The middle tile is shared by all four quadrants of the result. */
  lemma NextGenSharesMiddle(n: Node, depth: nat)
    requires depth > 0
    ensures var r := NextGen(n, depth).value;
      Sub(r.nw, SE) == Sub(r.ne, SW) == Sub(r.sw, NE) == Sub(r.se, NW) == Some(Center(Center(n)))
  {
  }

  /** Adjacent quadrants of the result share the edge tile between them. */
  lemma NextGenSharesEdges(n: Node, depth: nat)
    requires depth > 0
    ensures var r := NextGen(n, depth).value;
      && Sub(r.nw, NE) == Sub(r.ne, NW) == Some(Center(North(n)))
      && Sub(r.sw, NE) == Sub(r.se, NW) == Some(Center(Center(n)))
      && Sub(r.nw, SW) == Sub(r.sw, NW) == Some(Center(West(n)))
      && Sub(r.ne, SE) == Sub(r.se, NE) == Some(Center(East(n)))
      && Sub(r.sw, SE) == Sub(r.se, SW) == Some(Center(South(n)))
  {
  }

  // ---------------------------------------------------------------------
  // Growth
  // ---------------------------------------------------------------------

  /** The root built by `QuadTree::grow`: each old quadrant moves to the inner corner of a new one. */
  function Grown(root: Node): Node
  {
    Node(false,
         Some(New().(se := root.nw)), Some(New().(sw := root.ne)),
         Some(New().(ne := root.sw)), Some(New().(nw := root.se)))
  }

  /** Growing keeps the content centred: the centre of the new root is the old root's quadrants. */
  lemma GrowCentred(root: Node)
    ensures Center(Grown(root)) == root.(on := false)
    ensures !Grown(root).on
    ensures forall q :: Child(Grown(root), q).Some? && !Child(Grown(root), q).value.on
    ensures forall c, r :: 0 <= c < 4 && 0 <= r < 4 && !(1 <= c <= 2 && 1 <= r <= 2) ==>
      Grand(Grown(root), c, r).None?
  {
  }

  // ---------------------------------------------------------------------
  // set: the descent
  // ---------------------------------------------------------------------

  /** The quadrant `set` enters for the coordinates `(x, y)`: chosen by their signs. */
  function QuadrantOf(x: int, y: int): (q: Quadrant)
    ensures q == NW <==> x < 0 && y >= 0
    ensures q == NE <==> x >= 0 && y >= 0
    ensures q == SW <==> x < 0 && y < 0
    ensures q == SE <==> x >= 0 && y < 0
  {
    if x < 0 then (if y < 0 then SW else NW)
    else if y < 0 then SE else NE
  }

  /** `(v & (s - 1)) - (s >> 1)` for a power of two `s`. */
  function Step(v: int, s: nat): (r: int)
    requires s > 0
    ensures -((s / 2) as int) <= r < s - s / 2
  {
    v % s - s / 2
  }

  /**
   * The quadrants `set` enters from a node of depth `d`, as written: on
   * leaving depth `d` the coordinates are recentred with `s = 2^d`, the
   * side of the node being left.
   */
  function Path(d: nat, x: int, y: int): (p: seq<Quadrant>)
    ensures |p| == d
    ensures d > 0 ==> p[0] == QuadrantOf(x, y)
  {
    if d == 0 then []
    else [QuadrantOf(x, y)] + Path(d - 1, Step(x, Pow2(d)), Step(y, Pow2(d)))
  }

  /** The node reached by following `p`, if every node on the way exists. */
  function At(n: Node, p: seq<Quadrant>): Option<Node>
  {
    if p == [] then Some(n)
    else
      match Child(n, p[0])
      case None => None
      case Some(c) => At(c, p[1..])
  }

  /** The node found at `p`, or the fresh `Node::new()` that `set` creates there. */
  function Existing(n: Node, p: seq<Quadrant>): Node
  {
    match At(n, p)
    case None => New()
    case Some(m) => m
  }

  function OrNew(o: Option<Node>): Node
  {
    match o
    case None => New()
    case Some(c) => c
  }

  /** Follow `p`, creating missing quadrants with `Node::new()`, and switch on the node reached. */
  function SetPath(n: Node, p: seq<Quadrant>): (r: Node)
    ensures p != [] ==> r.on == n.on
    decreases |p|
  {
    if p == [] then n.(on := true)
    else WithChild(n, p[0], SetPath(OrNew(Child(n, p[0])), p[1..]))
  }

  /** `set(x, y)` on a root of level `d`. */
  function SetAt(n: Node, d: nat, x: int, y: int): Node
  {
    SetPath(n, Path(d, x, y))
  }

  lemma AtNew(p: seq<Quadrant>)
    requires p != []
    ensures At(New(), p) == None
  {
  }

  /** The node reached is the one found there (or a new one), now switched on. */
  lemma {:induction false} SetPathReaches(n: Node, p: seq<Quadrant>)
    ensures At(SetPath(n, p), p) == Some(Existing(n, p).(on := true))
    decreases |p|
  {
    if p != [] {
      var c := OrNew(Child(n, p[0]));
      SetPathReaches(c, p[1..]);
      if Child(n, p[0]).None? && p[1..] != [] {
        AtNew(p[1..]);
      }
    }
  }

  /** Every node off the path is as before, wherever the other path leaves `p`. */
  lemma {:induction false} SetPathElsewhere(n: Node, p: seq<Quadrant>, p': seq<Quadrant>, k: nat)
    requires k < |p| && k < |p'| && p'[..k] == p[..k] && p'[k] != p[k]
    ensures At(SetPath(n, p), p') == At(n, p')
    decreases k
  {
    if k > 0 {
      assert p'[0] == p'[..k][0] == p[..k][0] == p[0];
      assert p'[1..][..k - 1] == p'[..k][1..] == p[..k][1..] == p[1..][..k - 1];
      var c := OrNew(Child(n, p[0]));
      SetPathElsewhere(c, p[1..], p'[1..], k - 1);
      if Child(n, p[0]).None? {
        AtNew(p'[1..]);
      }
    }
  }

  /** Below the reached node nothing changes but its flag. */
  lemma {:induction false} SetPathBelow(n: Node, p: seq<Quadrant>, p': seq<Quadrant>)
    requires p' != []
    ensures At(SetPath(n, p), p + p') == At(Existing(n, p), p')
    decreases |p|
  {
    if p == [] {
      assert p + p' == p';
    } else {
      var c := OrNew(Child(n, p[0]));
      assert (p + p')[0] == p[0];
      assert (p + p')[1..] == p[1..] + p';
      SetPathBelow(c, p[1..], p');
      if Child(n, p[0]).None? && p[1..] != [] {
        AtNew(p[1..]);
      }
    }
  }

  /**
   * A parent and the quadrant through which the descent left it: the
   * model's stand-in for the `&mut` cursor of `set`.
   */
  datatype Frame = Frame(parent: Node, q: Quadrant)

  /** Put `n` back into the frames, innermost last. */
  function Plug(ctx: seq<Frame>, n: Node): Node
    decreases |ctx|
  {
    if ctx == [] then n
    else
      var f := ctx[|ctx| - 1];
      Plug(ctx[..|ctx| - 1], WithChild(f.parent, f.q, n))
  }

  /** One step of the descent: the frame left behind and the rest of the path below it. */
  lemma DescendStep(ctx: seq<Frame>, node: Node, depth: nat, x: int, y: int, q: Quadrant, x': int, y': int)
    requires depth > 0 && q == QuadrantOf(x, y)
    requires x' == Step(x, Pow2(depth)) && y' == Step(y, Pow2(depth))
    ensures Plug(ctx + [Frame(node, q)], SetPath(OrNew(Child(node, q)), Path(depth - 1, x', y')))
         == Plug(ctx, SetPath(node, Path(depth, x, y)))
  {
    var ctx' := ctx + [Frame(node, q)];
    assert ctx'[..|ctx'| - 1] == ctx;
    var p := Path(depth, x, y);
    assert p[1..] == Path(depth - 1, x', y');
  }

  /** Plugging the innermost frame first. */
  lemma PlugLast(ctx: seq<Frame>, i: nat, r: Node)
    requires 0 < i <= |ctx|
    ensures Plug(ctx[..i], r) == Plug(ctx[..i - 1], WithChild(ctx[i - 1].parent, ctx[i - 1].q, r))
  {
    assert ctx[..i][..i - 1] == ctx[..i - 1];
  }

  /**
   * The loop of `set`: walk down `level` times, choosing the quadrant by the
   * signs of `x` and `y` and creating missing quadrants, then switch on the
   * node reached.
   */
  method SetNode(root: Node, level: nat, x0: int, y0: int) returns (r: Node)
    ensures r == SetAt(root, level, x0, y0)
  {
    var x, y, depth := x0, y0, level;
    var node := root;
    var ctx: seq<Frame> := [];
    while depth > 0
      invariant Plug(ctx, SetPath(node, Path(depth, x, y))) == SetAt(root, level, x0, y0)
      decreases depth
    {
      var s := Pow2(depth);
      var q := QuadrantOf(x, y);
      var child := OrNew(Child(node, q));
      DescendStep(ctx, node, depth, x, y, q, Step(x, s), Step(y, s));
      ctx := ctx + [Frame(node, q)];
      node := child;
      depth := depth - 1;
      x := Step(x, s);
      y := Step(y, s);
    }
    assert Path(0, x, y) == [];
    node := node.(on := true);
    r := node;
    var i := |ctx|;
    assert ctx[..i] == ctx;
    while i > 0
      invariant 0 <= i <= |ctx|
      invariant Plug(ctx[..i], r) == SetAt(root, level, x0, y0)
      decreases i
    {
      PlugLast(ctx, i, r);
      i := i - 1;
      r := WithChild(ctx[i].parent, ctx[i].q, r);
    }
    assert ctx[..0] == [];
  }

  /** `QuadTree` of src/quadtree/mod.rs: a level and an owned root. */
  class QuadTree {
    var level: nat
    var root: Node

    /** `QuadTree::new(k)`: side `2^k`, an empty root. */
    constructor(k: nat)
      ensures level == k && IsEmpty(root)
    {
      level := k;
      root := New();
    }

    /** `grow`: one level more, the old content centred in the new root. */
    method Grow()
      modifies this
      ensures level == old(level) + 1
      ensures root == Grown(old(root))
      ensures Center(root) == old(root).(on := false)
    {
      GrowCentred(root);
      level := level + 1;
      root := Grown(root);
    }

    /** `set(x, y)`. */
    method Set(x: int, y: int)
      modifies this
      ensures level == old(level)
      ensures root == SetAt(old(root), level, x, y)
      ensures At(root, Path(level, x, y)) == Some(Existing(old(root), Path(level, x, y)).(on := true))
    {
      SetPathReaches(root, Path(level, x, y));
      root := SetNode(root, level, x, y);
    }
  }

  // ---------------------------------------------------------------------
  // The recentring of set
  // ---------------------------------------------------------------------

  /** The coordinates a node of depth `d` covers, centred: `-2^(d-1) <= v < 2^(d-1)`. */
  predicate InRange(v: int, d: nat)
  {
    -(Pow2(d) as int) <= 2 * v < Pow2(d)
  }

  /** The two quadrants entered in a level-2 tree, as written. */
  lemma PathTwo(x: int, y: int)
    ensures Path(2, x, y) == [QuadrantOf(x, y), QuadrantOf(Step(x, 4), Step(y, 4))]
  {
    assert Pow2(2) == 4;
    var p := Path(1, Step(x, 4), Step(y, 4));
    assert p == [QuadrantOf(Step(x, 4), Step(y, 4))];
  }

  /**
   * As written, `set(-2, 0)` and `set(-1, 0)` on a 4x4 tree enter the same
   * quadrants (the coordinates are parameters so that the verifier does not
   * unfold the literal calls).
   */
  lemma PathCollides(d: nat, x1: int, x2: int, y: int)
    requires d == 2 && x1 == -2 && x2 == -1 && y == 0
    ensures InRange(x1, d) && InRange(x2, d) && x1 != x2
    ensures Path(d, x1, y) == Path(d, x2, y) == [NW, SE]
  {
    assert Pow2(d) == 4;
    PathTwo(x1, y);
    PathTwo(x2, y);
    assert Step(x1, 4) == 0 && Step(x2, 4) == 1 && Step(y, 4) == -2;
  }

  /** So the two calls switch on the same cell: `set` is not injective on the cells of the tree. */
  lemma SetCollides(n: Node)
    ensures SetAt(n, 2, -2, 0) == SetAt(n, 2, -1, 0)
  {
    PathCollides(2, -2, -1, 0);
  }

  /** The descent recentred with the side `2^(d-1)` of the quadrant being entered. */
  function IntendedPath(d: nat, x: int, y: int): (p: seq<Quadrant>)
    ensures |p| == d
  {
    if d == 0 then []
    else [QuadrantOf(x, y)] + IntendedPath(d - 1, Step(x, Pow2(d - 1)), Step(y, Pow2(d - 1)))
  }

  /** Recentring with the quadrant's side `h` maps a coordinate of the node into the quadrant's range. */
  lemma IntendedStep(v: int, d: nat, h: nat, a: int)
    requires d > 0 && h == Pow2(d - 1) && InRange(v, d) && a == Step(v, h)
    ensures InRange(a, d - 1)
    ensures a == v + (if v < 0 then h else 0) - h / 2
  {
    assert Pow2(d) == 2 * h;
    if v < 0 {
      ModUnique(v, h, -1, v + h);
    } else {
      ModUnique(v, h, 0, v);
    }
    if d >= 2 {
      assert h == 2 * Pow2(d - 2);
    }
  }

  lemma IntendedPathUnfold(d: nat, x: int, y: int, x': int, y': int)
    requires d > 0 && x' == Step(x, Pow2(d - 1)) && y' == Step(y, Pow2(d - 1))
    ensures IntendedPath(d, x, y)[0] == QuadrantOf(x, y)
    ensures IntendedPath(d, x, y)[1..] == IntendedPath(d - 1, x', y')
  {
  }

  /** Two cells in the same quadrant stay distinct and in range after recentring. */
  lemma IntendedStepDistinct(d: nat, h: nat, x1: int, y1: int, x2: int, y2: int, a1: int, b1: int, a2: int, b2: int)
    requires d > 0 && h == Pow2(d - 1)
    requires InRange(x1, d) && InRange(y1, d) && InRange(x2, d) && InRange(y2, d)
    requires (x1, y1) != (x2, y2) && QuadrantOf(x1, y1) == QuadrantOf(x2, y2)
    requires a1 == Step(x1, h) && b1 == Step(y1, h) && a2 == Step(x2, h) && b2 == Step(y2, h)
    ensures InRange(a1, d - 1) && InRange(b1, d - 1) && InRange(a2, d - 1) && InRange(b2, d - 1)
    ensures (a1, b1) != (a2, b2)
  {
    IntendedStep(x1, d, h, a1);
    IntendedStep(y1, d, h, b1);
    IntendedStep(x2, d, h, a2);
    IntendedStep(y2, d, h, b2);
    assert (x1 < 0) == (x2 < 0) && (y1 < 0) == (y2 < 0);
  }

  /** With the intended recentring, distinct cells of a level-`d` tree have distinct paths. */
  lemma {:induction false} IntendedPathInjective(d: nat, x1: int, y1: int, x2: int, y2: int)
    requires InRange(x1, d) && InRange(y1, d) && InRange(x2, d) && InRange(y2, d)
    requires (x1, y1) != (x2, y2)
    ensures IntendedPath(d, x1, y1) != IntendedPath(d, x2, y2)
    decreases d
  {
    if d > 0 {
      var h := Pow2(d - 1);
      var a1, b1, a2, b2 := Step(x1, h), Step(y1, h), Step(x2, h), Step(y2, h);
      IntendedPathUnfold(d, x1, y1, a1, b1);
      IntendedPathUnfold(d, x2, y2, a2, b2);
      if QuadrantOf(x1, y1) == QuadrantOf(x2, y2) {
        IntendedStepDistinct(d, h, x1, y1, x2, y2, a1, b1, a2, b2);
        IntendedPathInjective(d - 1, a1, b1, a2, b2);
      }
    }
  }
}
