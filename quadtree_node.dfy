/**
 * The index-based quadtree node of src/quadtree/node.rs: four indices into a
 * vector of nodes, `usize::MAX` meaning "no node", and its `Debug` text.
 */
module IndexNodes {
  import opened Base

  const ISIZE_MIN: int := -0x8000_0000_0000_0000
  const ISIZE_MAX: int := 0x7FFF_FFFF_FFFF_FFFF

  /** A 64-bit `isize`. */
  type isize = x: int | ISIZE_MIN <= x <= ISIZE_MAX

  datatype Node = Node(nw: usize, ne: usize, sw: usize, se: usize)

  /** `Node::empty`: every quadrant is the sentinel `usize::MAX`. */
  function Empty(): (r: Node)
    ensures r.nw == USIZE_MAX && r.ne == USIZE_MAX && r.sw == USIZE_MAX && r.se == USIZE_MAX
  {
    Node(USIZE_MAX, USIZE_MAX, USIZE_MAX, USIZE_MAX)
  }

  /** `i as isize`: the same 64 bits read as two's complement. */
  function AsIsize(i: usize): (r: isize)
    ensures i <= ISIZE_MAX ==> r == i
    ensures i > ISIZE_MAX ==> r == i - USIZE_MOD
  {
    if i <= ISIZE_MAX then i else i - USIZE_MOD
  }

  /** The number the `Debug` impl prints for an index: -1 for the sentinel. */
  function Shown(i: usize): (r: isize)
    ensures r == -1 <==> i == USIZE_MAX
    ensures i <= ISIZE_MAX ==> r == i
  {
    if i == USIZE_MAX then -1 else AsIsize(i)
  }

  /** The sentinel branch changes nothing: the cast already sends `usize::MAX` to -1. */
  lemma ShownIsCast(i: usize)
    ensures Shown(i) == AsIsize(i)
  {
  }

  /** Distinct indices print distinct numbers. */
  lemma ShownInjective(i: usize, j: usize)
    requires Shown(i) == Shown(j)
    ensures i == j
  {
  }

  // ---------------------------------------------------------------------
  // Decimal text
  // ---------------------------------------------------------------------

  function DigitChar(d: nat): (c: char)
    requires d < 10
    ensures '0' <= c <= '9' && c as int - '0' as int == d
  {
    ('0' as int + d) as char
  }

  predicate IsDigit(c: char)
  {
    '0' <= c <= '9'
  }

  /** A character that can occur in the decimal text of an integer. */
  predicate NumberChar(c: char)
  {
    IsDigit(c) || c == '-'
  }

  function NatText(n: nat): (s: string)
    ensures |s| > 0 && forall k :: 0 <= k < |s| ==> IsDigit(s[k])
  {
    if n < 10 then [DigitChar(n)] else NatText(n / 10) + [DigitChar(n % 10)]
  }

  /** `Display` of an integer: a minus sign for negatives, then the digits. */
  function IntText(i: int): (s: string)
    ensures |s| > 0 && forall k :: 0 <= k < |s| ==> NumberChar(s[k])
    ensures IsDigit(s[0]) <==> i >= 0
  {
    if i < 0 then "-" + NatText(-i) else NatText(i)
  }

  /** The value of a string of digits. */
  function DigitsValue(s: string): nat
    requires forall k :: 0 <= k < |s| ==> IsDigit(s[k])
  {
    if s == [] then 0
    else
      var c := s[|s| - 1];
      assert IsDigit(c);
      10 * DigitsValue(s[..|s| - 1]) + (c as int - '0' as int)
  }

  lemma {:induction false} NatTextValue(n: nat)
    ensures DigitsValue(NatText(n)) == n
  {
    var s := NatText(n);
    if n >= 10 {
      NatTextValue(n / 10);
      assert s[..|s| - 1] == NatText(n / 10);
    }
  }

  /** The decimal text determines the integer. */
  lemma IntTextInjective(i: int, j: int)
    requires IntText(i) == IntText(j)
    ensures i == j
  {
    if i < 0 && j < 0 {
      assert NatText(-i) == IntText(i)[1..] == IntText(j)[1..] == NatText(-j);
      NatTextValue(-i);
      NatTextValue(-j);
    } else if i >= 0 && j >= 0 {
      NatTextValue(i);
      NatTextValue(j);
    }
  }

  /** `format!("[nw: {}, ne: {}, sw: {}, se: {}]", ...)` of the `Debug` impl. */
  function Debug(n: Node): (s: string)
  {
    "[nw: " + (IntText(Shown(n.nw)) + (", ne: " + (IntText(Shown(n.ne)) + (", sw: " +
      (IntText(Shown(n.sw)) + (", se: " + (IntText(Shown(n.se)) + "]")))))))
  }

  /** In a number followed by other text, the number ends at the first character no number contains. */
  lemma NumberEnds(u: string, r: string)
    requires forall k :: 0 <= k < |u| ==> NumberChar(u[k])
    requires r != [] && !NumberChar(r[0])
    ensures forall k :: 0 <= k < |u| ==> NumberChar((u + r)[k])
    ensures !NumberChar((u + r)[|u|])
  {
  }

  /** A number followed by a character no number contains splits one way only. */
  lemma SplitNumber(u1: string, r1: string, u2: string, r2: string)
    requires forall k :: 0 <= k < |u1| ==> NumberChar(u1[k])
    requires forall k :: 0 <= k < |u2| ==> NumberChar(u2[k])
    requires r1 != [] && r2 != [] && !NumberChar(r1[0]) && !NumberChar(r2[0])
    requires u1 + r1 == u2 + r2
    ensures u1 == u2 && r1 == r2
  {
    NumberEnds(u1, r1);
    NumberEnds(u2, r2);
    assert |u1| == |u2|;
    assert u1 == (u1 + r1)[..|u1|] == (u2 + r2)[..|u2|] == u2;
    assert r1 == (u1 + r1)[|u1|..] == (u2 + r2)[|u2|..] == r2;
  }

  /** A field's text and the rest after it, separated once. */
  lemma SplitField(p: string, i: int, r1: string, j: int, r2: string)
    requires r1 != [] && r2 != [] && !NumberChar(r1[0]) && r1[0] == r2[0]
    requires p + (IntText(i) + r1) == p + (IntText(j) + r2)
    ensures i == j && r1 == r2
  {
    assert IntText(i) + r1 == (p + (IntText(i) + r1))[|p|..];
    assert IntText(j) + r2 == (p + (IntText(j) + r2))[|p|..];
    SplitNumber(IntText(i), r1, IntText(j), r2);
    IntTextInjective(i, j);
  }

  /** The `Debug` text determines the node. */
  lemma DebugInjective(a: Node, b: Node)
    requires Debug(a) == Debug(b)
    ensures a == b
  {
    var ta := ", se: " + (IntText(Shown(a.se)) + "]");
    var tb := ", se: " + (IntText(Shown(b.se)) + "]");
    var sa := ", sw: " + (IntText(Shown(a.sw)) + ta);
    var sb := ", sw: " + (IntText(Shown(b.sw)) + tb);
    var na := ", ne: " + (IntText(Shown(a.ne)) + sa);
    var nb := ", ne: " + (IntText(Shown(b.ne)) + sb);
    SplitField("[nw: ", Shown(a.nw), na, Shown(b.nw), nb);
    SplitField(", ne: ", Shown(a.ne), sa, Shown(b.ne), sb);
    SplitField(", sw: ", Shown(a.sw), ta, Shown(b.sw), tb);
    SplitField(", se: ", Shown(a.se), "]", Shown(b.se), "]");
    ShownInjective(a.nw, b.nw);
    ShownInjective(a.ne, b.ne);
    ShownInjective(a.sw, b.sw);
    ShownInjective(a.se, b.se);
  }

  /** The empty node prints as four -1s. */
  lemma DebugEmpty()
    ensures Debug(Empty()) == "[nw: -1, ne: -1, sw: -1, se: -1]"
  {
    assert DigitChar(1) == '1';
    assert NatText(1) == "1";
    assert Shown(USIZE_MAX) == -1;
    assert IntText(-1) == "-1";
  }
}
