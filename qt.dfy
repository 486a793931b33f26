/**
 * The second pointer quadtree (src/qt/mod.rs). Its `Node` has the same shape
 * as the one in src/quadtree/mod.rs, so the model shares `QuadTrees.Node`;
 * `Node::dead()` builds exactly the value `Node::new()` does, and `set` is the
 * same descent, filling missing quadrants with dead nodes.
 */
module Qts {
  import opened Base
  import opened QuadTrees

  /** `Node::alive`: a live node without quadrants, that is, a leaf. */
  function Alive(): (r: Node)
    ensures r.on && NoChildren(r) && IsLeaf(r)
  {
    Node(true, None, None, None, None)
  }

  /** `Node::dead`: a dead node without quadrants. */
  function Dead(): (r: Node)
    ensures !r.on && NoChildren(r) && IsEmpty(r)
  {
    Node(false, None, None, None, None)
  }

  /** The missing quadrants `set` fills are dead nodes, and switching one on makes it alive. */
  lemma DeadIsNew()
    ensures Dead() == New()
    ensures Dead().(on := true) == Alive()
  {
  }

  /** On a level-0 tree `set` switches on the root and nothing else. */
  lemma SetLevelZero(n: Node, x: int, y: int)
    ensures SetAt(n, 0, x, y) == n.(on := true)
  {
    assert Path(0, x, y) == [];
  }

  class QuadTree {
    var level: nat
    var root: Node

    /** `QuadTree::new(k)`: side `2^k`, a dead root. */
    constructor(k: nat)
      ensures level == k && root == Dead()
    {
      level := k;
      root := Dead();
    }

    /** `set(x, y)`: the descent of `QuadTrees.SetNode`, missing quadrants filled with `Node::dead()`. */
    method Set(x: int, y: int)
      modifies this
      ensures level == old(level)
      ensures root == SetAt(old(root), level, x, y)
      ensures |Path(level, x, y)| == level
      ensures At(root, Path(level, x, y)) == Some(Existing(old(root), Path(level, x, y)).(on := true))
    {
      DeadIsNew();
      SetPathReaches(root, Path(level, x, y));
      root := SetNode(root, level, x, y);
    }
  }
}
