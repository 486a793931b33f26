/**
 * The world of src/world.rs: a rule table, a buffer of hashed cells and the
 * index of the root cell. A cell goes to slot `hash % len`; a collision
 * regrows the buffer, copying the cells reachable from the root to their
 * hash slots in a buffer about twice as large.
 *
 * The copy recurses through `children()` and stops only at leaves. The
 * model gives it `fuel` levels of recursion: `Diverge` from a member with a
 * `fuel` parameter means the recursion was still going at that depth.
 * CopiedFinishes shows that enough fuel always suffices for a finite tree,
 * and VoidLoops that a void cell at slot 0 makes every copy through it
 * endless, whatever the fuel.
 */
module Worlds {
  import opened Base
  import opened Cells
  import Rules
  import RuleSets
  import CellBufs

  /* ----- copy_children ----- */

  /** The slot a cell's hash selects in a buffer of `n` slots. */
  function Slot(c: Cell, n: nat): (k: nat)
    requires n > 0
    ensures k < n
  {
    Hash(c) % n
  }

  /**
   * `copy_children(index)` into the buffer `t`: the cell at `index` is
   * written to slot `hash % len` whatever that slot holds, and then, for a
   * node, its four quadrants are copied in order. Indices are not remapped.
   */
  function Copied(s: seq<Cell>, i: nat, t: seq<Cell>, fuel: nat): (r: Outcome<seq<Cell>>)
    requires |t| > 0
    ensures r.Done? ==> |r.value| == |t|
    decreases fuel, 0
  {
    if i >= |s| then Panic
    else
      var cell := s[i];
      var t1 := t[Slot(cell, |t|) := cell];
      match Children(cell)
      case None => Done(t1)
      case Some(children) =>
        if fuel == 0 then Diverge else CopiedAll(s, children, t1, fuel - 1)
  }

  /** `for index in children { copy_children(index) }`. */
  function CopiedAll(s: seq<Cell>, ids: seq<nat>, t: seq<Cell>, fuel: nat): (r: Outcome<seq<Cell>>)
    requires |t| > 0
    ensures r.Done? ==> |r.value| == |t|
    decreases fuel, 1, |ids|
  {
    if ids == [] then Done(t)
    else
      var t' :- Copied(s, ids[0], t, fuel);
      CopiedAll(s, ids[1..], t', fuel)
  }

  /** The cells `copy_children` visits, in the order it writes them (pre-order). */
  function Visits(s: seq<Cell>, i: nat, fuel: nat): Outcome<seq<Cell>>
    decreases fuel, 0
  {
    if i >= |s| then Panic
    else
      var cell := s[i];
      match Children(cell)
      case None => Done([cell])
      case Some(children) =>
        if fuel == 0 then Diverge
        else
          var below :- VisitsAll(s, children, fuel - 1);
          Done([cell] + below)
  }

  function VisitsAll(s: seq<Cell>, ids: seq<nat>, fuel: nat): Outcome<seq<Cell>>
    decreases fuel, 1, |ids|
  {
    if ids == [] then Done([])
    else
      var first :- Visits(s, ids[0], fuel);
      var rest :- VisitsAll(s, ids[1..], fuel);
      Done(first + rest)
  }

  /** Each of `cs` written in turn to its hash slot, with no collision check. */
  function WriteAll(t: seq<Cell>, cs: seq<Cell>): (r: seq<Cell>)
    requires |t| > 0
    ensures |r| == |t|
    decreases |cs|
  {
    if cs == [] then t else WriteAll(t[Slot(cs[0], |t|) := cs[0]], cs[1..])
  }

  lemma {:induction false} WriteAllAppend(t: seq<Cell>, a: seq<Cell>, b: seq<Cell>)
    requires |t| > 0
    ensures WriteAll(t, a + b) == WriteAll(WriteAll(t, a), b)
    decreases |a|
  {
    if a == [] {
      assert a + b == b;
    } else {
      var t1 := t[Slot(a[0], |t|) := a[0]];
      assert (a + b)[0] == a[0];
      assert (a + b)[1..] == a[1..] + b;
      assert WriteAll(t, a + b) == WriteAll(t1, a[1..] + b);
      WriteAllAppend(t1, a[1..], b);
    }
  }

  /** Writing `[c] + cs` is writing `c` to its slot, then `cs`. */
  lemma WriteFirst(t: seq<Cell>, c: Cell, cs: seq<Cell>)
    requires |t| > 0
    ensures WriteAll(t, [c] + cs) == WriteAll(t[Slot(c, |t|) := c], cs)
  {
    assert ([c] + cs)[0] == c;
    assert ([c] + cs)[1..] == cs;
  }

  /**
   * `copy_children` is the pre-order list of visited cells, each written
   * to its hash slot in turn: later writes overwrite earlier ones. Whether
   * it finishes, panics or runs on does not depend on the buffer.
   */
  lemma {:induction false} CopiedIsWrites(s: seq<Cell>, i: nat, t: seq<Cell>, fuel: nat)
    requires |t| > 0
    ensures Copied(s, i, t, fuel).Done? <==> Visits(s, i, fuel).Done?
    ensures Copied(s, i, t, fuel).Panic? <==> Visits(s, i, fuel).Panic?
    ensures Copied(s, i, t, fuel).Done? ==>
      Copied(s, i, t, fuel).value == WriteAll(t, Visits(s, i, fuel).value)
    decreases fuel, 0
  {
    if i < |s| {
      var cell := s[i];
      var t1 := t[Slot(cell, |t|) := cell];
      if Children(cell).None? {
        WriteFirst(t, cell, []);
      } else if fuel > 0 {
        var children := Children(cell).value;
        CopiedAllIsWrites(s, children, t1, fuel - 1);
        if CopiedAll(s, children, t1, fuel - 1).Done? {
          WriteFirst(t, cell, VisitsAll(s, children, fuel - 1).value);
        }
      }
    }
  }

  lemma {:induction false} CopiedAllIsWrites(s: seq<Cell>, ids: seq<nat>, t: seq<Cell>, fuel: nat)
    requires |t| > 0
    ensures CopiedAll(s, ids, t, fuel).Done? <==> VisitsAll(s, ids, fuel).Done?
    ensures CopiedAll(s, ids, t, fuel).Panic? <==> VisitsAll(s, ids, fuel).Panic?
    ensures CopiedAll(s, ids, t, fuel).Done? ==>
      CopiedAll(s, ids, t, fuel).value == WriteAll(t, VisitsAll(s, ids, fuel).value)
    decreases fuel, 1, |ids|
  {
    if ids != [] {
      CopiedIsWrites(s, ids[0], t, fuel);
      if Copied(s, ids[0], t, fuel).Done? {
        var t' := Copied(s, ids[0], t, fuel).value;
        CopiedAllIsWrites(s, ids[1..], t', fuel);
        if CopiedAll(s, ids[1..], t', fuel).Done? {
          WriteAllAppend(t, Visits(s, ids[0], fuel).value, VisitsAll(s, ids[1..], fuel).value);
        }
      }
    }
  }

  /** Every slot after the writes keeps its old cell or holds a written cell whose hash selects it. */
  lemma {:induction false} WriteAllSlots(t: seq<Cell>, cs: seq<Cell>, k: nat)
    requires |t| > 0 && k < |t|
    ensures WriteAll(t, cs)[k] == t[k] || (WriteAll(t, cs)[k] in cs && Slot(WriteAll(t, cs)[k], |t|) == k)
    decreases |cs|
  {
    if cs != [] {
      WriteAllSlots(t[Slot(cs[0], |t|) := cs[0]], cs[1..], k);
    }
  }

  /** The last cell written to its hash slot is the one left there. */
  lemma LastWriteWins(t: seq<Cell>, cs: seq<Cell>, c: Cell)
    requires |t| > 0
    ensures WriteAll(t, cs + [c])[Slot(c, |t|)] == c
  {
    WriteAllAppend(t, cs, [c]);
    assert WriteAll(WriteAll(t, cs), [c]) == WriteAll(WriteAll(t, cs)[Slot(c, |t|) := c], []);
  }

  /**
   * From index `i` of `s`, every chain of quadrant indices stays inside `s`
   * and reaches a leaf within `d` steps.
   */
  predicate Reach(s: seq<Cell>, i: nat, d: nat)
    decreases d
  {
    i < |s| &&
    (IsLeaf(s[i]) ||
     (d > 0 && Reach(s, s[i].nw, d - 1) && Reach(s, s[i].ne, d - 1)
            && Reach(s, s[i].sw, d - 1) && Reach(s, s[i].se, d - 1)))
  }

  /** Enough fuel always suffices when the cells below `i` form a finite tree. */
  lemma {:induction false} CopiedFinishes(s: seq<Cell>, i: nat, t: seq<Cell>, d: nat, fuel: nat)
    requires |t| > 0 && Reach(s, i, d) && d <= fuel
    ensures Copied(s, i, t, fuel).Done?
    decreases fuel, 0
  {
    var cell := s[i];
    if !IsLeaf(cell) {
      var children := Children(cell).value;
      CopiedAllFinishes(s, children, t[Slot(cell, |t|) := cell], d - 1, fuel - 1);
    }
  }

  lemma {:induction false} CopiedAllFinishes(s: seq<Cell>, ids: seq<nat>, t: seq<Cell>, d: nat, fuel: nat)
    requires |t| > 0 && d <= fuel
    requires forall k :: 0 <= k < |ids| ==> Reach(s, ids[k], d)
    ensures CopiedAll(s, ids, t, fuel).Done?
    decreases fuel, 1, |ids|
  {
    if ids != [] {
      CopiedFinishes(s, ids[0], t, d, fuel);
      var t' := Copied(s, ids[0], t, fuel).value;
      CopiedAllFinishes(s, ids[1..], t', d, fuel);
    }
  }

  /**
   * A void cell is a node whose quadrants are all index 0. With a void cell
   * at slot 0, copying from any void cell revisits slot 0 forever.
   */
  lemma {:induction false} VoidLoops(s: seq<Cell>, i: nat, t: seq<Cell>, fuel: nat)
    requires |t| > 0 && |s| > 0 && s[0] == Void() && i < |s| && s[i] == Void()
    ensures Copied(s, i, t, fuel) == Diverge
    decreases fuel
  {
    if fuel > 0 {
      var t1 := t[Slot(Void(), |t|) := Void()];
      VoidLoops(s, 0, t1, fuel - 1);
      assert Children(Void()).value == [0, 0, 0, 0];
    }
  }

  /* ----- grow_buf and insert_cell ----- */

  /**
   * `grow_buf` on the buffer `s`: `next_prime(2 * len)` unset slots, an
   * `assert!` that this is below LEAF_MASK, then the cells reachable from
   * `root` copied in. Where `next_prime` itself panics, `2 * len | 1` is
   * above LEAF_MASK as well, so the outcome is the same panic.
   */
  function Grown(s: seq<Cell>, root: nat, fuel: nat): (r: Outcome<seq<Cell>>)
    ensures r.Done? ==> |r.value| == OrOne(2 * |s|) < LEAF_MASK
  {
    var n := OrOne(2 * |s|);
    if n >= LEAF_MASK then Panic
    else Copied(s, root, CellBufs.Unsets(n), fuel)
  }

  /**
   * `insert_cell(hash, cell)` on the buffer `s`: written to slot
   * `hash % len` when that slot is void; otherwise grow and try again,
   * with one less unit of fuel.
   */
  function Inserted(s: seq<Cell>, root: nat, hash: nat, cell: Cell, fuel: nat): (r: Outcome<seq<Cell>>)
    requires 0 < |s| < LEAF_MASK
    ensures r.Done? ==> 0 < |r.value| < LEAF_MASK
    decreases fuel
  {
    if s[hash % |s|] != Void() then
      var s' :- Grown(s, root, fuel);
      if fuel == 0 then Diverge else Inserted(s', root, hash, cell, fuel - 1)
    else
      Done(s[hash % |s| := cell])
  }

  /**
   * `insert_cell` leaves `cell` in the slot its hash selects. It writes the
   * buffer it was given, in that slot and nowhere else, exactly when that
   * slot is void; otherwise the buffer it leaves is a grown, longer one.
   */
  lemma {:induction false} InsertedWrites(s: seq<Cell>, root: nat, hash: nat, cell: Cell, fuel: nat)
    requires 0 < |s| < LEAF_MASK && Inserted(s, root, hash, cell, fuel).Done?
    ensures var t := Inserted(s, root, hash, cell, fuel).value;
      t[hash % |t|] == cell && |t| >= |s| &&
      (s[hash % |s|] == Void() <==> |t| == |s|) &&
      (s[hash % |s|] == Void() ==> t == s[hash % |s| := cell])
    decreases fuel
  {
    if s[hash % |s|] != Void() {
      var s' := Grown(s, root, fuel).value;
      InsertedWrites(s', root, hash, cell, fuel - 1);
    }
  }

  /** Copying from the root of a new world (two void cells, root 1) never ends. */
  lemma NewWorldCannotGrow(fuel: nat)
    ensures Grown([Void(), Void()], 1, fuel) == Diverge
  {
    VoidLoops([Void(), Void()], 1, CellBufs.Unsets(5), fuel);
  }

  /** In a new world, the slot a hash selects is always free. */
  lemma NewWorldInsert(hash: nat, cell: Cell, fuel: nat)
    ensures Inserted([Void(), Void()], 1, hash, cell, fuel) == Done([Void(), Void()][hash % 2 := cell])
  {
  }

  /** Only the success or failure of an outcome. */
  function Status<T>(o: Outcome<T>): (r: Outcome<()>)
    ensures r.Done? <==> o.Done?
    ensures r.Panic? <==> o.Panic?
  {
    match o
    case Done(_) => Done(())
    case Panic => Panic
    case Diverge => Diverge
  }

  class World {
    /** `rules[r]`: the step of leaf `r`. */
    var rules: seq<bv16>
    /** Index of the root cell in `buf`. */
    var root: usize
    /** Every cell of the world. */
    var buf: array<Cell>
    /** The side of the world is `2^(depth + 3)`. */
    var depth: u8

    predicate Valid()
      reads this
    {
      0 < buf.Length < LEAF_MASK
    }

    constructor(rules: seq<bv16>, depth: u8)
      ensures Valid() && fresh(buf)
      ensures this.rules == rules && this.depth == depth
      ensures buf[..] == [Void(), Void()] && root == 1
    {
      this.rules := rules;
      this.depth := depth;
      root := 1;
      buf := new Cell[2](k => Void());
      new;
      assert buf[..] == [buf[0], buf[1]];
    }

    /**
     * `World::new`: parse the rule string, tabulate its steps, and start
     * with two void cells and the root at index 1.
     */
    static method New(depth: u8, ruleSet: string) returns (r: Result<World, Rules.RuleSetError>)
      ensures Rules.Parse(ruleSet).Err? ==> r == Err(Rules.Parse(ruleSet).error)
      ensures Rules.Parse(ruleSet).Ok? ==> r.Ok?
      ensures r.Ok? ==> var w := r.value; var rs := Rules.Parse(ruleSet).value;
        fresh(w) && fresh(w.buf) && w.Valid() &&
        w.buf[..] == [Void(), Void()] && w.root == 1 && w.depth == depth &&
        |w.rules| == 0x1_0000 &&
        forall c :: 0 <= c < 0x1_0000 ==>
          w.rules[c] == RuleSets.Successor(Rules.Births(rs), Rules.Survivals(rs), c as bv16)
    {
      var parsed := Rules.FromStr(ruleSet);
      if parsed.Err? {
        return Err(parsed.error);
      }
      var table := Rules.ComputeRules(parsed.value);
      var w := new World(table[..], depth);
      return Ok(w);
    }

    /** `grow(0)`: returns at once. */
    method Grow(k: nat)
      requires k == 0
      modifies this
      ensures unchanged(this)
    {
      if k == 0 {
        return;
      }
    }

    /** `copy_children`: copies the cells reachable from `index` of `buf` into `nbuf`. */
    method CopyChildren(index: usize, nbuf: array<Cell>, fuel: nat) returns (r: Outcome<()>)
      requires nbuf != buf && nbuf.Length > 0
      modifies nbuf
      ensures r == Status(Copied(buf[..], index, old(nbuf[..]), fuel))
      ensures r.Done? ==> nbuf[..] == Copied(buf[..], index, old(nbuf[..]), fuel).value
      decreases fuel
    {
      if index >= buf.Length {
        return Panic;
      }
      var n := nbuf.Length;
      var cell := buf[index];
      var h := Hash(cell) % n;
      assert h == Slot(cell, n);
      nbuf[h] := cell;
      match Children(cell) {
        case None =>
          r := Done(());
        case Some(children) =>
          if fuel == 0 {
            return Diverge;
          }
          ghost var t1 := nbuf[..];
          for k := 0 to |children|
            invariant CopiedAll(buf[..], children[k..], nbuf[..], fuel - 1)
                   == CopiedAll(buf[..], children, t1, fuel - 1)
          {
            assert children[k..][1..] == children[k + 1..];
            var c := CopyChildren(children[k], nbuf, fuel - 1);
            if !c.Done? {
              return c;
            }
          }
          r := Done(());
      }
    }

    /** `grow_buf`: replaces `buf` by the grown copy. */
    method GrowBuf(fuel: nat) returns (r: Outcome<()>)
      requires Valid()
      modifies this
      ensures Valid()
      ensures rules == old(rules) && root == old(root) && depth == old(depth)
      ensures r == Status(Grown(old(buf[..]), root, fuel))
      ensures r.Done? ==> fresh(buf) && buf[..] == Grown(old(buf[..]), root, fuel).value
      ensures !r.Done? ==> buf == old(buf)
    {
      var prime := CellBufs.NextPrime(2 * buf.Length);
      if !prime.Done? {
        return Panic;
      }
      var n := prime.value;
      if n >= LEAF_MASK {
        return Panic;
      }
      var nbuf := new Cell[n](k => Unset());
      assert nbuf[..] == CellBufs.Unsets(n);
      r := CopyChildren(root, nbuf, fuel);
      if r.Done? {
        buf := nbuf;
      }
    }

    /** `insert_cell`: writes `cell` at `hash % len`, regrowing on a collision. */
    method InsertCell(hash: usize, cell: Cell, fuel: nat) returns (r: Outcome<()>)
      requires Valid()
      modifies this, buf
      ensures Valid()
      ensures rules == old(rules) && root == old(root) && depth == old(depth)
      ensures r == Status(Inserted(old(buf[..]), root, hash, cell, fuel))
      ensures r.Done? ==> buf[..] == Inserted(old(buf[..]), root, hash, cell, fuel).value
      decreases fuel
    {
      var n := buf.Length;
      var index := hash % n;
      if buf[index] != Void() {
        var g := GrowBuf(fuel);
        if !g.Done? {
          return g;
        }
        if fuel == 0 {
          return Diverge;
        }
        r := InsertCell(hash, cell, fuel - 1);
      } else {
        buf[index] := cell;
        r := Done(());
      }
    }
  }
}
