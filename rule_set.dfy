/**
 * Life-like rules (`rule_set.rs`): a birth set and a survival set packed
 * into a `u32`, the step of the centre 2x2 of a 4x4 leaf, the lookup table
 * of that step over every leaf, and the parsers of `b3/s23` and `3/23`
 * rule strings.
 *
 * A 4x4 leaf is a `u16`; bit `15 - (4 * y + x)` holds the cell in column
 * `x` and row `y`, so bit 15 is the top-left cell and bit 0 the
 * bottom-right one.
 */
module RuleSets {
  import opened Base
  import opened ParseUtil

  const NBHD_MASK: bv16 := 0x0757
  const CELL_MASK: bv16 := 0x0020

  /* ----- counting bits ----- */

  function PopCount(x: bv16): nat
    decreases x
  {
    if x == 0 then 0 else Low(x) + PopCount(x >> 1)
  }

  function Low(x: bv16): nat
  {
    if x & 1 == 1 then 1 else 0
  }

  lemma PopCountUnfold(x: bv16)
    ensures PopCount(x) == Low(x) + PopCount(x >> 1)
  {
  }

  lemma EvenStep(x: bv16, y: bv16, z: bv16)
    requires x != 0 && x & 1 == 0 && y == x & (x - 1) && z == x >> 1
    ensures z != 0 && y >> 1 == z & (z - 1) && Low(y) == 0 && Low(x) == 0
  {
  }

  lemma OddStep(x: bv16, y: bv16)
    requires x & 1 == 1 && y == x & (x - 1)
    ensures y >> 1 == x >> 1 && Low(y) == 0 && Low(x) == 1
  {
  }

  /** Clearing the lowest set bit (`x &= x - 1`) removes exactly one set bit. */
  lemma {:induction false} Kernighan(x: bv16, y: bv16)
    requires x != 0 && y == x & (x - 1)
    ensures PopCount(y) + 1 == PopCount(x)
    decreases x
  {
    PopCountUnfold(x);
    PopCountUnfold(y);
    if x & 1 == 1 {
      OddStep(x, y);
    } else {
      var z := x >> 1;
      EvenStep(x, y, z);
      Kernighan(z, z & (z - 1));
    }
  }

  /** `count_bits`: Kernighan's loop counts the set bits of `x0`. */
  method CountBits(x0: bv16) returns (n: nat)
    ensures n == PopCount(x0)
  {
    var x := x0;
    n := 0;
    while x != 0
      invariant n + PopCount(x) == PopCount(x0)
      decreases x
    {
      Kernighan(x, x & (x - 1));
      x := x & (x - 1);
      n := n + 1;
    }
  }

  lemma AndStep(x: bv16, m: bv16, a: bv16)
    requires m != 0 && a == x & m
    ensures a >> 1 == (x >> 1) & (m >> 1) && Low(a) <= Low(m) && m >> 1 < m
  {
  }

  /** Masking can only remove set bits. */
  lemma {:induction false} PopCountAnd(x: bv16, m: bv16)
    ensures PopCount(x & m) <= PopCount(m)
    decreases m
  {
    if m != 0 {
      var a := x & m;
      AndStep(x, m, a);
      PopCountUnfold(a);
      PopCountUnfold(m);
      PopCountAnd(x >> 1, m >> 1);
    }
  }

  /* ----- the geometry of a leaf ----- */

  /** The four shifts of the neighbourhood mask, in the order `next` visits them. */
  function Shift(i: nat): (s: nat)
    requires i < 4
    ensures s <= 5
  {
    if i == 0 then 0 else if i == 1 then 1 else if i == 2 then 4 else 5
  }

  /** The column and row of the centre cell that shift `Shift(i)` looks at. */
  function CentreX(i: nat): (x: nat)
    requires i < 4
    ensures 1 <= x <= 2
  {
    if i % 2 == 0 then 2 else 1
  }

  function CentreY(i: nat): (y: nat)
    requires i < 4
    ensures 1 <= y <= 2
  {
    if i < 2 then 2 else 1
  }

  /** The bit of the cell in column `x`, row `y`. */
  function CellAt(x: nat, y: nat): bv16
    requires x < 4 && y < 4
  {
    1 << (15 - 4 * y - x)
  }

  /** The eight cells around column `x`, row `y`. */
  function Moore(x: nat, y: nat): bv16
    requires 1 <= x <= 2 && 1 <= y <= 2
  {
    CellAt(x - 1, y - 1) | CellAt(x, y - 1) | CellAt(x + 1, y - 1)
    | CellAt(x - 1, y) | CellAt(x + 1, y)
    | CellAt(x - 1, y + 1) | CellAt(x, y + 1) | CellAt(x + 1, y + 1)
  }

  lemma MasksAt0() ensures NBHD_MASK << 0 == Moore(2, 2) && CELL_MASK << 0 == CellAt(2, 2) {}
  lemma MasksAt1() ensures NBHD_MASK << 1 == Moore(1, 2) && CELL_MASK << 1 == CellAt(1, 2) {}
  lemma MasksAt4() ensures NBHD_MASK << 4 == Moore(2, 1) && CELL_MASK << 4 == CellAt(2, 1) {}
  lemma MasksAt5() ensures NBHD_MASK << 5 == Moore(1, 1) && CELL_MASK << 5 == CellAt(1, 1) {}

  /**
   * The shifted masks of `next` are the Moore neighbourhood and the cell
   * itself for each of the four centre cells of the leaf.
   */
  lemma MasksAreMooreNeighbourhoods(i: nat)
    requires i < 4
    ensures NBHD_MASK << Shift(i) == Moore(CentreX(i), CentreY(i))
    ensures CELL_MASK << Shift(i) == CellAt(CentreX(i), CentreY(i))
  {
    if i == 0 {
      assert Shift(i) == 0 && CentreX(i) == 2 && CentreY(i) == 2;
      MasksAt0();
    } else if i == 1 {
      assert Shift(i) == 1 && CentreX(i) == 1 && CentreY(i) == 2;
      MasksAt1();
    } else if i == 2 {
      assert Shift(i) == 4 && CentreX(i) == 2 && CentreY(i) == 1;
      MasksAt4();
    } else {
      assert Shift(i) == 5 && CentreX(i) == 1 && CentreY(i) == 1;
      MasksAt5();
    }
  }

  /** The bit of centre cell `i`. */
  function CentreBit(i: nat): bv16
    requires i < 4
  {
    if i == 0 then 0x0020 else if i == 1 then 0x0040 else if i == 2 then 0x0200 else 0x0400
  }

  /** The centre bits are the cell mask moved by the shifts of `next`. */
  lemma CentreBitMask(i: nat)
    requires i < 4
    ensures CentreBit(i) == CELL_MASK << Shift(i)
  {
  }

  lemma ShiftUpFacts(x: bv16, y: bv16)
    requires x & 0x8000 == 0 && y == x << 1
    ensures y >> 1 == x && Low(y) == 0
  {
  }

  lemma ShiftUpKeepsCount(x: bv16)
    requires x & 0x8000 == 0
    ensures PopCount(x << 1) == PopCount(x)
  {
    var y := x << 1;
    ShiftUpFacts(x, y);
    PopCountUnfold(y);
  }

  /** Every shifted neighbourhood mask has eight cells. */
  lemma NeighbourhoodSize(i: nat)
    requires i < 4
    ensures PopCount(NBHD_MASK << Shift(i)) == 8
  {
    var m: bv16 := 0x0757;
    PopCountUnfold(m); PopCountUnfold(m >> 1); PopCountUnfold(m >> 2); PopCountUnfold(m >> 3);
    PopCountUnfold(m >> 4); PopCountUnfold(m >> 5); PopCountUnfold(m >> 6); PopCountUnfold(m >> 7);
    PopCountUnfold(m >> 8); PopCountUnfold(m >> 9); PopCountUnfold(m >> 10);
    assert m >> 11 == 0;
    ShiftUpKeepsCount(m);
    ShiftUpKeepsCount(m << 1);
    ShiftUpKeepsCount(m << 2);
    ShiftUpKeepsCount(m << 3);
    ShiftUpKeepsCount(m << 4);
    assert (m << 1) << 1 == m << 2 && (m << 2) << 1 == m << 3;
    assert (m << 3) << 1 == m << 4 && (m << 4) << 1 == m << 5;
  }

  /* ----- one generation of the centre 2x2 ----- */

  /** Bit `k` of `x`. */
  predicate Bit(x: bv16, k: bv16)
    requires k < 16
  {
    (x >> k) & 1 == 1
  }

  /** The number of live cells among the eight around centre cell `i`. */
  function NeighbourCount(cell: bv16, i: nat): (n: nat)
    requires i < 4
    ensures n <= 8
  {
    NeighbourhoodSize(i);
    PopCountAnd(cell, NBHD_MASK << Shift(i));
    PopCount(cell & (NBHD_MASK << Shift(i)))
  }

  /** That number as a bit position. */
  function Neighbours(cell: bv16, i: nat): bv16
    requires i < 4
  {
    Small(NeighbourCount(cell, i))
  }

  /** A small count (at most nine) as a bit-vector. */
  function Small(n: nat): (r: bv16)
    requires n <= 9
    ensures r <= 9 && (n <= 8 ==> r <= 8)
  {
    if n == 0 then 0 else if n == 1 then 1 else if n == 2 then 2 else if n == 3 then 3
    else if n == 4 then 4 else if n == 5 then 5 else if n == 6 then 6 else if n == 7 then 7
    else if n == 8 then 8 else 9
  }

  predicate Alive(cell: bv16, i: nat)
    requires i < 4
  {
    cell & CentreBit(i) != 0
  }

  /**
   * The rule's verdict on the centre cell `i`: a live cell survives when its
   * number of live neighbours is in the survival set, a dead one is born
   * when that number is in the birth set.
   */
  predicate Lives(births: bv16, survivals: bv16, cell: bv16, i: nat)
    requires i < 4
  {
    if Alive(cell, i) then Bit(survivals, Neighbours(cell, i)) else Bit(births, Neighbours(cell, i))
  }

  /** The centre cells `0..k` of the next generation. */
  function Upto(births: bv16, survivals: bv16, cell: bv16, k: nat): bv16
    requires k <= 4
  {
    if k == 0 then 0
    else Upto(births, survivals, cell, k - 1)
         | (if Lives(births, survivals, cell, k - 1) then CentreBit(k - 1) else 0)
  }

  /** The next generation of the centre 2x2 of `cell`; every other bit is clear. */
  function Successor(births: bv16, survivals: bv16, cell: bv16): bv16
  {
    Upto(births, survivals, cell, 4)
  }

  /** The test of `next` on one centre cell is the rule's verdict on it. */
  lemma StepTest(births: bv16, survivals: bv16, c: bv16, num: bv16, dead: bool, m: bv16, res: bv16, res': bv16)
    requires c <= 8 && num == (1 as bv16) << c
    requires res' == if dead then (if num & births == num then res | m else res)
                     else (if num & survivals == num then res | m else res)
    ensures res' == res | (if (if dead then Bit(births, c) else Bit(survivals, c)) then m else 0)
  {
  }

  /** A small count shifts like the same count as a bit-vector. */
  lemma ShiftByCount(n: nat, c: bv16, num: bv16)
    requires n <= 9 && c == Small(n) && num == (1 as bv16) << n
    ensures num == (1 as bv16) << c
  {
    if n == 0 {} else if n == 1 {} else if n == 2 {} else if n == 3 {} else if n == 4 {}
    else if n == 5 {} else if n == 6 {} else if n == 7 {} else if n == 8 {} else {}
  }

  lemma UptoStep(births: bv16, survivals: bv16, cell: bv16, i: nat, res: bv16, m: bv16, lives: bool)
    requires i < 4 && res == Upto(births, survivals, cell, i) && m == CentreBit(i)
    requires lives == Lives(births, survivals, cell, i)
    ensures Upto(births, survivals, cell, i + 1) == res | (if lives then m else 0)
  {
  }

  lemma LivesTest(births: bv16, survivals: bv16, cell: bv16, i: nat, m: bv16, c: bv16)
    requires i < 4 && m == CentreBit(i) && c == Neighbours(cell, i)
    ensures Lives(births, survivals, cell, i) == if cell & m == 0 then Bit(births, c) else Bit(survivals, c)
  {
  }

  /** One turn of the loop of `next` adds the verdict on centre cell `i`. */
  lemma NextStep(births: bv16, survivals: bv16, cell: bv16, i: nat, res: bv16, c: bv16, num: bv16, m: bv16, res': bv16)
    requires i < 4 && res == Upto(births, survivals, cell, i) && m == CentreBit(i)
    requires c == Neighbours(cell, i) && c <= 8 && num == (1 as bv16) << c
    requires res' == if cell & m == 0 then (if num & births == num then res | m else res)
                     else (if num & survivals == num then res | m else res)
    ensures res' == Upto(births, survivals, cell, i + 1)
  {
    var t := if cell & m == 0 then Bit(births, c) else Bit(survivals, c);
    StepTest(births, survivals, c, num, cell & m == 0, m, res, res');
    LivesTest(births, survivals, cell, i, m, c);
    UptoStep(births, survivals, cell, i, res, m, t);
  }

  /** The cell mask of turn `i` of `next` is centre bit `i`. */
  lemma TurnMask(i: nat, shift: nat, cellMask: bv16)
    requires i < 4 && shift == Shift(i) && cellMask == CELL_MASK << shift
    ensures cellMask == CentreBit(i)
  {
    CentreBitMask(i);
  }

  /** Turn `i` of `next` counts the neighbours of centre cell `i`. */
  lemma TurnCount(cell: bv16, i: nat, shift: nat, nbhdMask: bv16, n: nat)
    requires i < 4 && shift == Shift(i) && nbhdMask == NBHD_MASK << shift
    requires n == PopCount(cell & nbhdMask)
    ensures n <= 8 && Neighbours(cell, i) == Small(n)
  {
    assert n == NeighbourCount(cell, i);
  }

  /** `next`: the step of one leaf, for the birth and survival sets of the rule. */
  method Next(births: bv16, survivals: bv16, cell: bv16) returns (res: bv16)
    ensures res == Successor(births, survivals, cell)
  {
    res := 0;
    var shifts: seq<nat> := [0, 1, 4, 5];
    for i := 0 to 4
      invariant res == Upto(births, survivals, cell, i)
    {
      var shift := shifts[i];
      var nbhdMask := NBHD_MASK << shift;
      var cellMask := CELL_MASK << shift;
      var dead := cell & cellMask == 0;
      var numNeighbors := CountBits(cell & nbhdMask);
      TurnMask(i, shift, cellMask);
      TurnCount(cell, i, shift, nbhdMask, numNeighbors);
      var num: bv16 := 1 << numNeighbors;
      ShiftByCount(numNeighbors, Neighbours(cell, i), num);
      ghost var res0 := res;
      if dead {
        if num & births == num {
          res := res | cellMask;
        }
      } else if num & survivals == num {
        res := res | cellMask;
      }
      NextStep(births, survivals, cell, i, res0, Neighbours(cell, i), num, cellMask, res);
    }
  }

  /** Four verdicts placed on the four centre bits can be read back, and nothing else is set. */
  lemma CentreCells(l0: bool, l1: bool, l2: bool, l3: bool, u1: bv16, u2: bv16, u3: bv16, u: bv16)
    requires u1 == 0 | (if l0 then 0x0020 else 0)
    requires u2 == u1 | (if l1 then 0x0040 else 0)
    requires u3 == u2 | (if l2 then 0x0200 else 0)
    requires u == u3 | (if l3 then 0x0400 else 0)
    ensures u & !0x0660 == 0
    ensures (u & 0x0020 != 0 <==> l0) && (u & 0x0040 != 0 <==> l1)
    ensures (u & 0x0200 != 0 <==> l2) && (u & 0x0400 != 0 <==> l3)
  {
  }

  /** The successor step by step: the verdicts on centre cells 0, 1, 2 and 3 in turn. */
  lemma SuccessorChain(births: bv16, survivals: bv16, cell: bv16, u1: bv16, u2: bv16, u3: bv16)
    requires u1 == Upto(births, survivals, cell, 1) && u2 == Upto(births, survivals, cell, 2)
    requires u3 == Upto(births, survivals, cell, 3)
    ensures u1 == 0 | (if Lives(births, survivals, cell, 0) then 0x0020 else 0)
    ensures u2 == u1 | (if Lives(births, survivals, cell, 1) then 0x0040 else 0)
    ensures u3 == u2 | (if Lives(births, survivals, cell, 2) then 0x0200 else 0)
    ensures Successor(births, survivals, cell) == u3 | (if Lives(births, survivals, cell, 3) then 0x0400 else 0)
  {
    UptoStep(births, survivals, cell, 0, 0, 0x0020, Lives(births, survivals, cell, 0));
    UptoStep(births, survivals, cell, 1, u1, 0x0040, Lives(births, survivals, cell, 1));
    UptoStep(births, survivals, cell, 2, u2, 0x0200, Lives(births, survivals, cell, 2));
    UptoStep(births, survivals, cell, 3, u3, 0x0400, Lives(births, survivals, cell, 3));
  }

  /**
   * The successor only sets centre cells, and sets centre cell `i` exactly
   * when the rule says it lives.
   */
  lemma SuccessorCells(births: bv16, survivals: bv16, cell: bv16)
    ensures Successor(births, survivals, cell) & !0x0660 == 0
    ensures Successor(births, survivals, cell) & CentreBit(0) != 0 <==> Lives(births, survivals, cell, 0)
    ensures Successor(births, survivals, cell) & CentreBit(1) != 0 <==> Lives(births, survivals, cell, 1)
    ensures Successor(births, survivals, cell) & CentreBit(2) != 0 <==> Lives(births, survivals, cell, 2)
    ensures Successor(births, survivals, cell) & CentreBit(3) != 0 <==> Lives(births, survivals, cell, 3)
  {
    var u1 := Upto(births, survivals, cell, 1);
    var u2 := Upto(births, survivals, cell, 2);
    var u3 := Upto(births, survivals, cell, 3);
    SuccessorChain(births, survivals, cell, u1, u2, u3);
    CentreCells(Lives(births, survivals, cell, 0), Lives(births, survivals, cell, 1),
                Lives(births, survivals, cell, 2), Lives(births, survivals, cell, 3),
                u1, u2, u3, Successor(births, survivals, cell));
  }

  /** Centre bit `i` is the cell in column `CentreX(i)`, row `CentreY(i)`. */
  lemma CentreBitCell(i: nat)
    requires i < 4
    ensures CentreBit(i) == CellAt(CentreX(i), CentreY(i))
  {
    CentreBitMask(i);
    MasksAreMooreNeighbourhoods(i);
  }

  /**
   * `compute_rules`: the table of `next` over every leaf, indexed by the
   * leaf itself.
   */
  method ComputeRules(births: bv16, survivals: bv16) returns (rules: array<bv16>)
    ensures fresh(rules) && rules.Length == 0x1_0000
    ensures forall c :: 0 <= c < 0x1_0000 ==> rules[c] == Successor(births, survivals, c as bv16)
  {
    rules := new bv16[0x1_0000](_ => 0);
    for cell := 0 to 0x1_0000
      invariant forall c :: 0 <= c < cell ==> rules[c] == Successor(births, survivals, c as bv16)
    {
      rules[cell] := Next(births, survivals, cell as bv16);
    }
  }

  /* ----- the packed rule ----- */

  /** Births in bits 16..24, survivals in bits 0..8. */
  datatype RuleSet = RuleSet(rule: bv32)

  /** `RuleSet::new`: bits past the 8th of either set are dropped. */
  function New(b: bv16, s: bv16): (r: RuleSet)
    ensures Births(r) == b & 0x1FF && Survivals(r) == s & 0x1FF
    ensures r.rule & !0x01FF_01FF == 0
  {
    RuleSet((((b & 0x1FF) as bv32) << 16) | (s & 0x1FF) as bv32)
  }

  function Births(rs: RuleSet): (b: bv16)
    ensures b & !0x1FF == 0
  {
    ((rs.rule & 0x1FF_0000) >> 16) as bv16
  }

  function Survivals(rs: RuleSet): (s: bv16)
    ensures s & !0x1FF == 0
  {
    (rs.rule & 0x1FF) as bv16
  }

  /** Conway's Game of Life: born with 3 neighbours, survives with 2 or 3. */
  const B3S23: RuleSet := New(0x8, 0xC)

  lemma DocumentedRuleValues()
    ensures B3S23.rule == 0x0008_000C
    ensures New(0, 0).rule == 0
    ensures New(0x1FF, 0x1FF).rule == 0x01FF_01FF
  {
  }

  lemma BitOfSmall(c: bv16)
    requires c <= 8
    ensures Bit(0x8, c) <==> c == 3
    ensures Bit(0xC, c) <==> c == 2 || c == 3
  {
  }

  /** Under B3S23 the step is Conway's rule. */
  lemma ConwayRule(cell: bv16, i: nat)
    requires i < 4
    ensures Lives(Births(B3S23), Survivals(B3S23), cell, i)
      <==> Neighbours(cell, i) == 3 || (Alive(cell, i) && Neighbours(cell, i) == 2)
  {
    assert Births(B3S23) == 0x8 && Survivals(B3S23) == 0xC;
    BitOfSmall(Neighbours(cell, i));
  }

  /* ----- parsing ----- */

  /** The bit position of an ASCII digit. */
  function DigitPos(b: u8): (d: bv16)
    requires IsAsciiDigit(b)
    ensures d <= 9
  {
    Small(DigitValue(b))
  }

  /** The set of digits in `ds`, bit `d` for the digit `d`. */
  function DigitMask(ds: seq<u8>): bv16
    requires AllDigits(ds)
  {
    if ds == [] then 0
    else WithBit(DigitMask(ds[..|ds| - 1]), DigitPos(ds[|ds| - 1]))
  }

  ghost predicate HasDigit(ds: seq<u8>, d: bv16)
    requires AllDigits(ds)
  {
    exists k :: 0 <= k < |ds| && DigitPos(ds[k]) == d
  }

  lemma HasDigitSnoc(ds: seq<u8>, d: bv16)
    requires AllDigits(ds) && ds != []
    ensures HasDigit(ds, d) <==> HasDigit(ds[..|ds| - 1], d) || DigitPos(ds[|ds| - 1]) == d
  {
    var init := ds[..|ds| - 1];
    if HasDigit(ds, d) {
      var k :| 0 <= k < |ds| && DigitPos(ds[k]) == d;
      if k < |ds| - 1 {
        assert init[k] == ds[k];
      }
    }
    if HasDigit(init, d) {
      var k :| 0 <= k < |init| && DigitPos(init[k]) == d;
      assert ds[k] == init[k];
    }
  }

  lemma OrBit(m: bv16, e: bv16, d: bv16, r: bv16)
    requires e < 16 && d < 16 && r == m | ((1 as bv16) << e)
    ensures Bit(r, d) <==> Bit(m, d) || d == e
  {
  }

  lemma OrBits(m: bv16, e: bv16, r: bv16)
    requires e < 16 && r == m | ((1 as bv16) << e)
    ensures forall d: bv16 :: d < 16 ==> (Bit(r, d) <==> Bit(m, d) || d == e)
  {
    forall d: bv16 | d < 16
      ensures Bit(r, d) <==> Bit(m, d) || d == e
    {
      OrBit(m, e, d, r);
    }
  }

  /** `m` with bit `e` set. */
  function WithBit(m: bv16, e: bv16): (r: bv16)
    requires e < 16
    ensures forall d: bv16 :: d < 16 ==> (Bit(r, d) <==> Bit(m, d) || d == e)
  {
    OrBits(m, e, m | ((1 as bv16) << e));
    m | ((1 as bv16) << e)
  }

  /** Bit `d` of the mask is set exactly when some byte is the digit `d`. */
  lemma {:induction false} DigitMaskBits(ds: seq<u8>, d: bv16)
    requires AllDigits(ds) && d < 16
    ensures Bit(DigitMask(ds), d) <==> HasDigit(ds, d)
  {
    if ds != [] {
      DigitMaskBits(ds[..|ds| - 1], d);
      HasDigitSnoc(ds, d);
    }
  }

  /** What `bytes_to_num` returns. */
  function DigitsToNum(bytes: seq<u8>): (r: ParseResult<bv16>)
    ensures r.Ok? <==> AllDigits(bytes)
    ensures r.Err? ==> r.error == NotDigits
  {
    if AllDigits(bytes) then Ok(DigitMask(bytes)) else Err(NotDigits)
  }

  /** `bytes_to_num`: the digits of a birth or survival list as a bit set. */
  method BytesToNum(bytes: seq<u8>) returns (r: ParseResult<bv16>)
    ensures r == DigitsToNum(bytes)
  {
    var n: bv16 := 0;
    for i := 0 to |bytes|
      invariant AllDigits(bytes[..i]) && n == DigitMask(bytes[..i])
    {
      var b := bytes[i];
      if !IsAsciiDigit(b) {
        return Err(NotDigits);
      }
      assert bytes[..i + 1] == bytes[..i] + [b];
      MaskAppend(bytes[..i], b);
      n := n | ((1 as bv16) << DigitPos(b));
    }
    assert bytes[..|bytes|] == bytes;
    return Ok(n);
  }

  /** One more digit adds its bit to the set of the digits before it. */
  lemma MaskAppend(ds: seq<u8>, b: u8)
    requires AllDigits(ds) && IsAsciiDigit(b)
    ensures AllDigits(ds + [b])
    ensures DigitMask(ds + [b]) == DigitMask(ds) | ((1 as bv16) << DigitPos(b))
  {
    var e := ds + [b];
    assert e[..|e| - 1] == ds;
  }

  /**
   * The part `parse_rule` and `parse_nameless_rule` share: the survival list
   * up to the next whitespace, then both lists turned into bit sets, births first.
   */
  function RuleTail(births: seq<u8>, bytes: seq<u8>): (r: ParseResult<(RuleSet, seq<u8>)>)
    ensures r.Ok? ==> IsSuffix(r.value.1, bytes) && |r.value.1| > 0 && IsAsciiWhitespace(r.value.1[0])
  {
    match TakeUntilWs(bytes)
    case (None, _) => Err(MissingSurvivals)
    case (Some(s), rest) =>
      match (DigitsToNum(births), DigitsToNum(s))
      case (Err(e), _) => Err(e)
      case (_, Err(e)) => Err(e)
      case (Ok(b), Ok(s)) => Ok((New(b, s), rest))
  }

  /** `parse_rule`: a rule written `b3/s23` or `B3/S23`, followed by whitespace. */
  function ParseRule(bytes: seq<u8>): (r: ParseResult<(RuleSet, seq<u8>)>)
    ensures r.Ok? ==> IsSuffix(r.value.1, bytes) && |r.value.1| > 0 && IsAsciiWhitespace(r.value.1[0])
  {
    var (c, rest) := TakeOne(bytes);
    if c != Some('b' as int) && c != Some('B' as int) then Err(MissingBirthPrefix)
    else
      var (b, rest1) := TakeUntil('/' as int, rest);
      if b.None? then Err(MissingBirths)
      else
        var r := SlashSurvivals(b.value, rest1);
        assert r.Ok? ==> IsSuffix(r.value.1, bytes) by {
          if r.Ok? {
            SuffixUnder(r.value.1, rest1, b.value, rest);
            SuffixUnder(r.value.1, rest, [c.value], bytes);
          }
        }
        r
  }

  /** The rest of `parse_rule` after the births: `/`, `s` or `S`, then the shared tail. */
  function SlashSurvivals(births: seq<u8>, bytes: seq<u8>): (r: ParseResult<(RuleSet, seq<u8>)>)
    ensures r.Ok? ==> IsSuffix(r.value.1, bytes) && |r.value.1| > 0 && IsAsciiWhitespace(r.value.1[0])
  {
    var e := Expect('/' as int, bytes);
    if e.Err? then Err(e.error)
    else
      var (c, rest) := TakeOne(e.value);
      if c != Some('s' as int) && c != Some('S' as int) then Err(MissingSurvivalPrefix)
      else
        var r := RuleTail(births, rest);
        assert r.Ok? ==> IsSuffix(r.value.1, bytes) by {
          if r.Ok? {
            SuffixUnder(r.value.1, rest, [c.value], e.value);
            assert bytes == ['/' as int] + e.value;
            SuffixUnder(r.value.1, e.value, ['/' as int], bytes);
          }
        }
        r
  }

  /** `parse_nameless_rule`: a rule written `3/23` (births first), followed by whitespace. */
  function ParseNamelessRule(bytes: seq<u8>): (r: ParseResult<(RuleSet, seq<u8>)>)
    ensures r.Ok? ==> IsSuffix(r.value.1, bytes) && |r.value.1| > 0 && IsAsciiWhitespace(r.value.1[0])
  {
    match TakeUntil('/' as int, bytes)
    case (None, _) => Err(MissingBirths)
    case (Some(b), rest1) =>
      match Expect('/' as int, rest1)
      case Err(e) => Err(e)
      case Ok(rest2) =>
        var r := RuleTail(b, rest2);
        assert r.Ok? ==> IsSuffix(r.value.1, bytes) by {
          if r.Ok? {
            var t := r.value.1;
            assert rest1 == ['/' as int] + rest2;
            SuffixUnder(t, rest2, ['/' as int], rest1);
            SuffixUnder(t, rest1, b, bytes);
          }
        }
        r
  }

  /** The shared tail reads a survival list up to whitespace and converts both lists. */
  lemma RuleTailRoundTrip(bs: seq<u8>, ss: seq<u8>, tail: seq<u8>)
    requires AllDigits(bs) && |ss| > 0 && AllDigits(ss)
    requires |tail| > 0 && IsAsciiWhitespace(tail[0])
    ensures RuleTail(bs, ss + tail) == Ok((New(DigitMask(bs), DigitMask(ss)), tail))
  {
    TakeUntilWsSplit(ss, tail);
  }

  /** A rule written `b<births>/s<survivals>` followed by whitespace parses to those two digit sets. */
  lemma ParseRuleRoundTrip(bp: u8, bs: seq<u8>, sp: u8, ss: seq<u8>, tail: seq<u8>)
    requires bp == 'b' as int || bp == 'B' as int
    requires sp == 's' as int || sp == 'S' as int
    requires |bs| > 0 && AllDigits(bs) && |ss| > 0 && AllDigits(ss)
    requires |tail| > 0 && IsAsciiWhitespace(tail[0])
    ensures ParseRule([bp] + bs + ['/' as int, sp] + ss + tail)
         == Ok((New(DigitMask(bs), DigitMask(ss)), tail))
  {
    var rest2 := [sp] + (ss + tail);
    var rest1 := ['/' as int] + rest2;
    var rest := bs + rest1;
    var input := [bp] + rest;
    assert [bp] + bs + ['/' as int, sp] + ss + tail == input;
    assert TakeOne(input) == (Some(bp), rest);
    TakeUntilSplit('/' as int, bs, rest1);
    assert ParseRule(input) == SlashSurvivals(bs, rest1);
    assert Expect('/' as int, rest1) == Ok(rest2);
    assert TakeOne(rest2) == (Some(sp), ss + tail);
    RuleTailRoundTrip(bs, ss, tail);
  }

  /** A rule written `<births>/<survivals>` followed by whitespace parses to those two digit sets. */
  lemma ParseNamelessRuleRoundTrip(bs: seq<u8>, ss: seq<u8>, tail: seq<u8>)
    requires |bs| > 0 && AllDigits(bs) && |ss| > 0 && AllDigits(ss)
    requires |tail| > 0 && IsAsciiWhitespace(tail[0])
    ensures ParseNamelessRule(bs + ['/' as int] + ss + tail)
         == Ok((New(DigitMask(bs), DigitMask(ss)), tail))
  {
    var rest1 := ['/' as int] + (ss + tail);
    assert bs + ['/' as int] + ss + tail == bs + rest1;
    TakeUntilSplit('/' as int, bs, rest1);
    assert Expect('/' as int, rest1) == Ok(ss + tail);
    RuleTailRoundTrip(bs, ss, tail);
  }

  /** `bytes` is `<bp><bs>/<sp><ss><tail>`: the lettered form `parse_rule` reads. */
  predicate RuleForm(bytes: seq<u8>, bp: u8, bs: seq<u8>, sp: u8, ss: seq<u8>, tail: seq<u8>)
  {
    && bytes == [bp] + bs + ['/' as int, sp] + ss + tail
    && (bp == 'b' as int || bp == 'B' as int)
    && (sp == 's' as int || sp == 'S' as int)
    && |bs| > 0 && AllDigits(bs) && |ss| > 0 && AllDigits(ss)
    && |tail| > 0 && IsAsciiWhitespace(tail[0])
  }

  /** `bytes` is `<bs>/<ss><tail>`: the nameless form `parse_nameless_rule` reads. */
  predicate NamelessForm(bytes: seq<u8>, bs: seq<u8>, ss: seq<u8>, tail: seq<u8>)
  {
    && bytes == bs + ['/' as int] + ss + tail
    && |bs| > 0 && AllDigits(bs) && |ss| > 0 && AllDigits(ss)
    && |tail| > 0 && IsAsciiWhitespace(tail[0])
  }

  /**
   * When the shared tail succeeds, the birth list was all digits and the
   * input was a non-empty run of digits before whitespace, giving the masks.
   */
  lemma RuleTailAccepted(births: seq<u8>, bytes: seq<u8>) returns (ss: seq<u8>, tail: seq<u8>)
    requires RuleTail(births, bytes).Ok?
    ensures AllDigits(births) && |ss| > 0 && AllDigits(ss)
    ensures bytes == ss + tail && |tail| > 0 && IsAsciiWhitespace(tail[0])
    ensures RuleTail(births, bytes).value == (New(DigitMask(births), DigitMask(ss)), tail)
  {
    var split := TakeUntilWs(bytes);
    ss, tail := split.0.value, split.1;
  }

  /**
   * Whatever `parse_rule` accepts is a lettered rule `b<births>/s<survivals>`
   * with two non-empty digit lists followed by whitespace, and the result is
   * the two digit sets and that whitespace-led rest. With
   * `ParseRuleRoundTrip` this is an exact description of the accepted inputs.
   */
  lemma ParseRuleAccepted(bytes: seq<u8>)
    ensures ParseRule(bytes).Ok? ==>
      exists bp, bs, sp, ss, tail :: RuleForm(bytes, bp, bs, sp, ss, tail)
        && ParseRule(bytes).value == (New(DigitMask(bs), DigitMask(ss)), tail)
  {
    if ParseRule(bytes).Ok? {
      var bp, bs, sp, rest3 := ParseRuleHead(bytes);
      var ss, tail := RuleTailAccepted(bs, rest3);
      JoinedRule(bytes, bp, bs, sp, rest3, ss, tail);
      assert RuleForm(bytes, bp, bs, sp, ss, tail);
    }
  }

  /** The letters and the birth list of an accepted lettered rule, and the tail still to read. */
  lemma ParseRuleHead(bytes: seq<u8>) returns (bp: u8, bs: seq<u8>, sp: u8, rest3: seq<u8>)
    requires ParseRule(bytes).Ok?
    ensures bytes == [bp] + bs + ['/' as int, sp] + rest3
    ensures (bp == 'b' as int || bp == 'B' as int) && (sp == 's' as int || sp == 'S' as int) && |bs| > 0
    ensures ParseRule(bytes) == RuleTail(bs, rest3)
  {
    var rest;
    bp, rest := bytes[0], bytes[1..];
    assert TakeOne(bytes) == (Some(bp), rest);
    var (b, rest1) := TakeUntil('/' as int, rest);
    assert b.Some?;
    bs := b.value;
    assert ParseRule(bytes) == SlashSurvivals(bs, rest1);
    sp, rest3 := SlashSurvivalsHead(bs, rest1);
    assert rest == bs + rest1;
    assert bytes == [bp] + rest;
    SplicedRule(bytes, bp, bs, sp, rest3);
  }

  /** The letter and the tail after the births of an accepted lettered rule. */
  lemma SlashSurvivalsHead(births: seq<u8>, bytes: seq<u8>) returns (sp: u8, rest: seq<u8>)
    requires SlashSurvivals(births, bytes).Ok?
    ensures bytes == ['/' as int, sp] + rest
    ensures sp == 's' as int || sp == 'S' as int
    ensures SlashSurvivals(births, bytes) == RuleTail(births, rest)
  {
    var rest1 := bytes[1..];
    assert Expect('/' as int, bytes) == Ok(rest1);
    sp, rest := rest1[0], rest1[1..];
    assert TakeOne(rest1) == (Some(sp), rest);
    assert bytes == ['/' as int] + ([sp] + rest);
  }

  lemma JoinedRule(bytes: seq<u8>, bp: u8, bs: seq<u8>, sp: u8, rest3: seq<u8>, ss: seq<u8>, tail: seq<u8>)
    requires bytes == [bp] + bs + ['/' as int, sp] + rest3 && rest3 == ss + tail
    ensures bytes == [bp] + bs + ['/' as int, sp] + ss + tail
  {
  }

  lemma SplicedRule(bytes: seq<u8>, bp: u8, bs: seq<u8>, sp: u8, rest3: seq<u8>)
    requires bytes == [bp] + (bs + (['/' as int, sp] + rest3))
    ensures bytes == [bp] + bs + ['/' as int, sp] + rest3
  {
  }

  /**
   * Whatever `parse_nameless_rule` accepts is `<births>/<survivals>` with two
   * non-empty digit lists followed by whitespace; with
   * `ParseNamelessRuleRoundTrip` this describes the accepted inputs exactly.
   */
  lemma ParseNamelessRuleAccepted(bytes: seq<u8>)
    ensures ParseNamelessRule(bytes).Ok? ==>
      exists bs, ss, tail :: NamelessForm(bytes, bs, ss, tail)
        && ParseNamelessRule(bytes).value == (New(DigitMask(bs), DigitMask(ss)), tail)
  {
    if ParseNamelessRule(bytes).Ok? {
      var bs, rest2 := ParseNamelessRuleHead(bytes);
      var ss, tail := RuleTailAccepted(bs, rest2);
      assert rest2 == ss + tail;
      SplicedNameless(bytes, bs, ss, tail);
      assert NamelessForm(bytes, bs, ss, tail);
    }
  }

  /** The birth list of an accepted nameless rule, and the tail still to read. */
  lemma ParseNamelessRuleHead(bytes: seq<u8>) returns (bs: seq<u8>, rest2: seq<u8>)
    requires ParseNamelessRule(bytes).Ok?
    ensures bytes == bs + (['/' as int] + rest2) && |bs| > 0
    ensures ParseNamelessRule(bytes) == RuleTail(bs, rest2)
  {
    var (b, rest1) := TakeUntil('/' as int, bytes);
    assert b.Some? && Expect('/' as int, rest1).Ok?;
    bs, rest2 := b.value, rest1[1..];
    assert rest1 == ['/' as int] + rest2;
    assert bytes == bs + rest1;
  }

  lemma SplicedNameless(bytes: seq<u8>, bs: seq<u8>, ss: seq<u8>, tail: seq<u8>)
    requires bytes == bs + (['/' as int] + (ss + tail))
    ensures bytes == bs + ['/' as int] + ss + tail
  {
  }

  /** `b3/s23 ` reads as Conway's rule and leaves the space. */
  lemma ParseRuleExample()
    ensures ParseRule(Bytes("b3/s23 ")) == Ok((B3S23, [' ' as int]))
  {
    var bs: seq<u8> := ['3' as int];
    var ss: seq<u8> := ['2' as int, '3' as int];
    var tail: seq<u8> := [' ' as int];
    ExampleBytes();
    ParseRuleRoundTrip('b' as int, bs, 's' as int, ss, tail);
    DigitMaskExamples();
  }

  lemma ExampleBytes()
    ensures Bytes("b3/s23 ") == [('b' as int) as u8] + ['3' as int] + ['/' as int, 's' as int]
                                 + ['2' as int, '3' as int] + [' ' as int]
  {
  }

  lemma DigitMaskExamples()
    ensures DigitMask(['3' as int]) == 0x8
    ensures DigitMask(['2' as int, '3' as int]) == 0xC
  {
    assert ['2' as int, '3' as int][..1] == ['2' as int];
  }

  /** An empty birth list is refused: `take_until` finds the `/` at once. */
  lemma ParseRuleEmptyBirths(bp: u8, tail: seq<u8>)
    requires bp == 'b' as int || bp == 'B' as int
    ensures ParseRule([bp, '/' as int] + tail) == Err(MissingBirths)
  {
    var rest := ['/' as int] + tail;
    assert [bp, '/' as int] + tail == [bp] + rest;
    assert FirstWhere(a => a == '/' as int, rest) == 0;
  }

  /** An empty birth list is refused without the letters too. */
  lemma ParseNamelessRuleEmptyBirths(tail: seq<u8>)
    ensures ParseNamelessRule(['/' as int] + tail) == Err(MissingBirths)
  {
    assert FirstWhere(a => a == '/' as int, ['/' as int] + tail) == 0;
  }
}
