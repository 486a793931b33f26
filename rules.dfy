/**
 * The second rule module (`rules.rs`): the same 4x4 step and lookup table
 * as `RuleSets`, over a `u32` whose upper half is the birth set and whose
 * lower half is the survival set, read from a rule string by a small state
 * machine (`FromStr`).
 */
module Rules {
  import opened Base
  import RuleSets

  /** Births in bits 16..31, survivals in bits 0..15. */
  datatype RuleSet = RuleSet(rule: bv32)

  datatype RuleSetError = InvalidString

  /** `births`: the upper 16 bits. */
  function Births(rs: RuleSet): (b: bv16)
    ensures b as bv32 == rs.rule >> 16
  {
    ((rs.rule & ((0xFFFF as bv32) << 16)) >> 16) as bv16
  }

  /** `survivals`: the lower 16 bits. */
  function Survivals(rs: RuleSet): (s: bv16)
    ensures s as bv32 == rs.rule & 0xFFFF
  {
    (rs.rule & 0xFFFF) as bv16
  }

  /** The two halves together are the whole rule: nothing is lost or shared. */
  lemma HalvesRebuildRule(rs: RuleSet)
    ensures ((Births(rs) as bv32) << 16) | (Survivals(rs) as bv32) == rs.rule
  {
    SplitHalves(rs.rule);
  }

  lemma SplitHalves(x: bv32)
    ensures ((x >> 16) << 16) | (x & 0xFFFF) == x
  {
  }

  /** `next`: the centre 2x2 after one step, read from this layout. */
  method Next(rs: RuleSet, cell: bv16) returns (res: bv16)
    ensures res == RuleSets.Successor(Births(rs), Survivals(rs), cell)
    ensures res & !0x0660 == 0
    ensures forall i :: 0 <= i < 4 ==>
      (res & RuleSets.CentreBit(i) != 0 <==> RuleSets.Lives(Births(rs), Survivals(rs), cell, i))
  {
    res := RuleSets.Next(Births(rs), Survivals(rs), cell);
    RuleSets.SuccessorCells(Births(rs), Survivals(rs), cell);
  }

  /** `compute_rules`: the step of every leaf, indexed by the leaf. */
  method ComputeRules(rs: RuleSet) returns (rules: array<bv16>)
    ensures fresh(rules) && rules.Length == 0x1_0000
    ensures forall c :: 0 <= c < 0x1_0000 ==>
      rules[c] == RuleSets.Successor(Births(rs), Survivals(rs), c as bv16)
  {
    rules := RuleSets.ComputeRules(Births(rs), Survivals(rs));
  }

  /* ----- FromStr ----- */

  datatype Mode = Birth | Survival

  predicate IsBirthLetter(c: char)
  {
    c == 'b' || c == 'B'
  }

  predicate IsSurvivalLetter(c: char)
  {
    c == 's' || c == 'S'
  }

  /** A decimal digit `to_digit(10)` accepts that is at most 8. */
  predicate IsCountDigit(c: char)
  {
    '0' <= c <= '8'
  }

  /** Every character the state machine accepts. */
  predicate Accepted(c: char)
  {
    IsBirthLetter(c) || IsSurvivalLetter(c) || IsCountDigit(c)
  }

  /** `to_digit(10)` on a decimal digit, as a shift amount. */
  function DigitValue(c: char): (n: bv32)
    requires '0' <= c <= '9'
    ensures n <= 9
    ensures n <= 8 <==> IsCountDigit(c)
  {
    if c == '0' then 0 else if c == '1' then 1 else if c == '2' then 2
    else if c == '3' then 3 else if c == '4' then 4 else if c == '5' then 5
    else if c == '6' then 6 else if c == '7' then 7 else if c == '8' then 8 else 9
  }

  /** How one turn of the loop sees a character. */
  datatype Token = BirthLetter | SurvivalLetter | Digit(n: bv32) | Bad

  /** The `match` of the loop body, up to the digit check. */
  function Classify(c: char): (t: Token)
    ensures t == BirthLetter <==> IsBirthLetter(c)
    ensures t == SurvivalLetter <==> IsSurvivalLetter(c)
    ensures t.Digit? <==> IsCountDigit(c)
    ensures t.Digit? ==> t.n <= 8
    ensures t == Bad <==> !Accepted(c)
  {
    if IsBirthLetter(c) then BirthLetter
    else if IsSurvivalLetter(c) then SurvivalLetter
    else if !('0' <= c <= '9') then Bad
    else if DigitValue(c) > 8 then Bad
    else Digit(DigitValue(c))
  }

  /** Distinct count digits have distinct values. */
  lemma ClassifyInjective(c: char, d: char)
    requires Classify(c).Digit? && Classify(c) == Classify(d)
    ensures c == d
  {
  }

  /** The state of the machine: the current mode and the bits set so far. */
  datatype Scan = Scan(mode: Mode, rule: bv32)

  /** The rest of the loop body: switch the mode, or OR in the digit's bit. */
  function Apply(st: Scan, t: Token): (r: Result<Scan, RuleSetError>)
    requires t.Digit? ==> t.n <= 8
    ensures r.Ok? <==> t != Bad
  {
    match t
    case BirthLetter => Ok(Scan(Birth, st.rule))
    case SurvivalLetter => Ok(Scan(Survival, st.rule))
    case Bad => Err(InvalidString)
    case Digit(n) =>
      if st.mode == Survival then Ok(Scan(st.mode, st.rule | ((1 as bv32) << n)))
      else Ok(Scan(st.mode, st.rule | ((1 as bv32) << (n + 0x10))))
  }

  /** The state after the whole of `s`, starting in birth mode with no bits. */
  function Run(s: string): Result<Scan, RuleSetError>
  {
    if s == [] then Ok(Scan(Birth, 0))
    else match Run(s[..|s| - 1])
      case Err(e) => Err(e)
      case Ok(st) => Apply(st, Classify(s[|s| - 1]))
  }

  /** What `from_str` returns. */
  function Parse(s: string): Result<RuleSet, RuleSetError>
  {
    match Run(s)
    case Err(e) => Err(e)
    case Ok(st) => Ok(RuleSet(st.rule))
  }

  /** `from_str`: the state machine over the characters of `s`. */
  method FromStr(s: string) returns (r: Result<RuleSet, RuleSetError>)
    ensures r == Parse(s)
  {
    var state := Birth;
    var rule: bv32 := 0;
    for i := 0 to |s|
      invariant Run(s[..i]) == Ok(Scan(state, rule))
    {
      assert s[..i + 1][..i] == s[..i];
      var c := s[i];
      if c == 'b' || c == 'B' {
        state := Birth;
      } else if c == 's' || c == 'S' {
        state := Survival;
      } else {
        if !('0' <= c <= '9') {
          RunStaysFailed(s, i + 1);
          return Err(InvalidString);
        }
        var n := DigitValue(c);
        if n > 8 {
          RunStaysFailed(s, i + 1);
          return Err(InvalidString);
        }
        match state {
          case Survival =>
            rule := rule | ((1 as bv32) << n);
          case Birth =>
            rule := rule | ((1 as bv32) << (n + 0x10));
        }
      }
    }
    assert s[..|s|] == s;
    return Ok(RuleSet(rule));
  }

  /** Once a prefix is refused, so is every longer prefix. */
  lemma {:induction false} RunStaysFailed(s: string, i: nat)
    requires i <= |s| && Run(s[..i]).Err?
    ensures Run(s) == Err(InvalidString)
    decreases |s| - i
  {
    RunErrorIsInvalid(s[..i]);
    if i < |s| {
      assert s[..i + 1][..i] == s[..i];
      RunStaysFailed(s, i + 1);
    } else {
      assert s[..i] == s;
    }
  }

  lemma {:induction false} RunErrorIsInvalid(s: string)
    ensures Run(s).Err? ==> Run(s) == Err(InvalidString)
  {
    if s != [] {
      RunErrorIsInvalid(s[..|s| - 1]);
    }
  }

  /* ----- what the machine accepts, and the bits it sets ----- */

  /** `from_str` succeeds exactly when every character is a letter b, B, s, S or a digit 0..8. */
  lemma {:induction false} ParseAccepts(s: string)
    ensures Parse(s).Ok? <==> forall k :: 0 <= k < |s| ==> Accepted(s[k])
  {
    if s != [] {
      var init := s[..|s| - 1];
      ParseAccepts(init);
      assert forall k :: 0 <= k < |init| ==> init[k] == s[k];
    }
  }

  /** The mode after `s`: set by its last letter, birth when it has none. */
  function ModeAfter(s: string): Mode
  {
    if s == [] then Birth
    else if IsBirthLetter(s[|s| - 1]) then Birth
    else if IsSurvivalLetter(s[|s| - 1]) then Survival
    else ModeAfter(s[..|s| - 1])
  }

  /** Some digit of value `p` in `s` is read in mode `m`. */
  ghost predicate Marks(s: string, m: Mode, p: bv32)
  {
    exists k :: 0 <= k < |s| && Classify(s[k]) == Digit(p) && ModeAfter(s[..k]) == m
  }

  lemma MarksSnoc(s: string, m: Mode, p: bv32)
    requires s != []
    ensures Marks(s, m, p) <==>
      Marks(s[..|s| - 1], m, p) || (Classify(s[|s| - 1]) == Digit(p) && ModeAfter(s[..|s| - 1]) == m)
  {
    var init := s[..|s| - 1];
    if Marks(s, m, p) {
      var k :| 0 <= k < |s| && Classify(s[k]) == Digit(p) && ModeAfter(s[..k]) == m;
      if k < |s| - 1 {
        assert init[k] == s[k] && init[..k] == s[..k];
      }
    }
    if Marks(init, m, p) {
      var k :| 0 <= k < |init| && Classify(init[k]) == Digit(p) && ModeAfter(init[..k]) == m;
      assert s[k] == init[k] && s[..k] == init[..k];
    }
  }

  /** Bit `k` of a rule. */
  predicate Bit32(x: bv32, k: bv32)
    requires k < 32
  {
    x & ((1 as bv32) << k) != 0
  }

  lemma OrBit32(x: bv32, e: bv32, d: bv32, r: bv32)
    requires e < 32 && d < 32 && r == x | ((1 as bv32) << e)
    ensures Bit32(r, d) <==> Bit32(x, d) || d == e
  {
  }

  lemma OrKeepsLayout(x: bv32, e: bv32, r: bv32)
    requires x & !0x01FF_01FF == 0 && (e <= 8 || 16 <= e <= 24) && r == x | ((1 as bv32) << e)
    ensures r & !0x01FF_01FF == 0
  {
  }

  /** What a successful run has read: the mode, and one bit per (mode, digit value) pair it met. */
  ghost predicate Reads(s: string, st: Scan)
  {
    && st.mode == ModeAfter(s)
    && st.rule & !0x01FF_01FF == 0
    && forall p: bv32 :: p <= 8 ==>
         (Bit32(st.rule, p + 16) <==> Marks(s, Birth, p))
         && (Bit32(st.rule, p) <==> Marks(s, Survival, p))
  }

  /** Setting the survival bit of the digit `q`, read back at the digit `p`. */
  lemma SurvivalOr(r: bv32, r': bv32, q: bv32, p: bv32, inB: bool, inS: bool)
    requires p <= 8 && q <= 8 && r' == r | ((1 as bv32) << q)
    requires (Bit32(r, p + 16) <==> inB) && (Bit32(r, p) <==> inS)
    ensures Bit32(r', p + 16) <==> inB
    ensures Bit32(r', p) <==> inS || p == q
  {
    OrBit32(r, q, p + 16, r');
    OrBit32(r, q, p, r');
  }

  /** Setting the birth bit `e` of the digit `q`, read back at the digit `p` (birth bit `d`). */
  lemma BirthOr(r: bv32, r': bv32, e: bv32, d: bv32, q: bv32, p: bv32, inB: bool, inS: bool)
    requires p <= 8 && q <= 8 && e == q + 16 && d == p + 16 && r' == r | ((1 as bv32) << e)
    requires (Bit32(r, d) <==> inB) && (Bit32(r, p) <==> inS)
    ensures Bit32(r', d) <==> inB || p == q
    ensures Bit32(r', p) <==> inS
  {
    HalvesApart(p, q);
    OrBit32(r, e, d, r');
    OrBit32(r, e, p, r');
  }

  lemma HalvesApart(p: bv32, q: bv32)
    requires p <= 8 && q <= 8
    ensures (p + 16 == q + 16 <==> p == q) && p != q + 16
  {
  }

  lemma ApplySurvival(st: Scan, q: bv32, st': Scan)
    requires q <= 8 && st.mode == Survival && Apply(st, Digit(q)) == Ok(st')
    ensures st' == Scan(Survival, st.rule | ((1 as bv32) << q))
  {
  }

  lemma ApplyBirth(st: Scan, q: bv32, st': Scan)
    requires q <= 8 && st.mode == Birth && Apply(st, Digit(q)) == Ok(st')
    ensures st' == Scan(Birth, st.rule | ((1 as bv32) << (q + 16)))
  {
  }

  lemma ApplyLetter(st: Scan, t: Token, st': Scan)
    requires !t.Digit? && Apply(st, t) == Ok(st')
    ensures st'.rule == st.rule
    ensures st'.mode == (if t == BirthLetter then Birth else Survival)
  {
  }

  /** One step on the token `t`, seen from the two bits of the digit value `p`. */
  lemma ApplyBits(st: Scan, st': Scan, t: Token, p: bv32, inB: bool, inS: bool)
    requires p <= 8 && (t.Digit? ==> t.n <= 8) && Apply(st, t) == Ok(st')
    requires Bit32(st.rule, p + 16) <==> inB
    requires Bit32(st.rule, p) <==> inS
    ensures Bit32(st'.rule, p + 16) <==> inB || (t == Digit(p) && st.mode == Birth)
    ensures Bit32(st'.rule, p) <==> inS || (t == Digit(p) && st.mode == Survival)
  {
    if t.Digit? && st.mode == Survival {
      SurvivalBits(st, t.n, st', p, inB, inS);
    } else if t.Digit? {
      BirthBits(st, t.n, st', p, inB, inS);
    } else {
      ApplyLetter(st, t, st');
    }
  }

  lemma SurvivalBits(st: Scan, q: bv32, st': Scan, p: bv32, inB: bool, inS: bool)
    requires p <= 8 && q <= 8 && st.mode == Survival && Apply(st, Digit(q)) == Ok(st')
    requires (Bit32(st.rule, p + 16) <==> inB) && (Bit32(st.rule, p) <==> inS)
    ensures Bit32(st'.rule, p + 16) <==> inB
    ensures Bit32(st'.rule, p) <==> inS || p == q
  {
    ApplySurvival(st, q, st');
    SurvivalOr(st.rule, st'.rule, q, p, inB, inS);
  }

  lemma BirthBits(st: Scan, q: bv32, st': Scan, p: bv32, inB: bool, inS: bool)
    requires p <= 8 && q <= 8 && st.mode == Birth && Apply(st, Digit(q)) == Ok(st')
    requires (Bit32(st.rule, p + 16) <==> inB) && (Bit32(st.rule, p) <==> inS)
    ensures Bit32(st'.rule, p + 16) <==> inB || p == q
    ensures Bit32(st'.rule, p) <==> inS
  {
    ApplyBirth(st, q, st');
    BirthOr(st.rule, st'.rule, q + 16, p + 16, q, p, inB, inS);
  }

  /** One more character keeps the bits of the digit value `p` in step with `Marks`. */
  lemma StepDigit(s: string, st: Scan, st': Scan, p: bv32)
    requires s != [] && Reads(s[..|s| - 1], st) && Apply(st, Classify(s[|s| - 1])) == Ok(st')
    requires p <= 8
    ensures Bit32(st'.rule, p + 16) <==> Marks(s, Birth, p)
    ensures Bit32(st'.rule, p) <==> Marks(s, Survival, p)
  {
    var init := s[..|s| - 1];
    MarksSnoc(s, Birth, p);
    MarksSnoc(s, Survival, p);
    ApplyBits(st, st', Classify(s[|s| - 1]), p, Marks(init, Birth, p), Marks(init, Survival, p));
  }

  /** The layout and the mode after one more token. */
  lemma ApplyLayout(st: Scan, t: Token, st': Scan)
    requires (t.Digit? ==> t.n <= 8) && Apply(st, t) == Ok(st')
    requires st.rule & !0x01FF_01FF == 0
    ensures st'.rule & !0x01FF_01FF == 0
    ensures st'.mode == (if t == BirthLetter then Birth else if t == SurvivalLetter then Survival else st.mode)
  {
    if t.Digit? && st.mode == Survival {
      SurvivalLayout(st, t.n, st');
    } else if t.Digit? {
      BirthLayout(st, t.n, st');
    } else {
      ApplyLetter(st, t, st');
    }
  }

  lemma SurvivalLayout(st: Scan, q: bv32, st': Scan)
    requires q <= 8 && st.mode == Survival && Apply(st, Digit(q)) == Ok(st')
    requires st.rule & !0x01FF_01FF == 0
    ensures st'.rule & !0x01FF_01FF == 0 && st'.mode == Survival
  {
    ApplySurvival(st, q, st');
    OrKeepsLayout(st.rule, q, st'.rule);
  }

  lemma BirthLayout(st: Scan, q: bv32, st': Scan)
    requires q <= 8 && st.mode == Birth && Apply(st, Digit(q)) == Ok(st')
    requires st.rule & !0x01FF_01FF == 0
    ensures st'.rule & !0x01FF_01FF == 0 && st'.mode == Birth
  {
    ApplyBirth(st, q, st');
    OrKeepsLayout(st.rule, q + 16, st'.rule);
  }

  lemma StepReads(s: string, st: Scan, st': Scan)
    requires s != [] && Reads(s[..|s| - 1], st) && Apply(st, Classify(s[|s| - 1])) == Ok(st')
    ensures Reads(s, st')
  {
    ApplyLayout(st, Classify(s[|s| - 1]), st');
    forall p: bv32 | p <= 8
      ensures (Bit32(st'.rule, p + 16) <==> Marks(s, Birth, p))
           && (Bit32(st'.rule, p) <==> Marks(s, Survival, p))
    {
      StepDigit(s, st, st', p);
    }
  }

  lemma {:induction false} RunReads(s: string)
    requires Run(s).Ok?
    ensures Reads(s, Run(s).value)
  {
    if s != [] {
      var init := s[..|s| - 1];
      RunReads(init);
      StepReads(s, Run(init).value, Run(s).value);
    }
  }

  /**
   * A parsed rule holds bit `p + 16` exactly when a digit `p` was read in
   * birth mode, bit `p` exactly when one was read in survival mode, and no
   * other bit.
   */
  lemma ParseBits(s: string, rs: RuleSet)
    requires Parse(s) == Ok(rs)
    ensures rs.rule & !0x01FF_01FF == 0
    ensures forall p: bv32 :: p <= 8 ==>
      (Bit32(rs.rule, p + 16) <==> Marks(s, Birth, p))
      && (Bit32(rs.rule, p) <==> Marks(s, Survival, p))
  {
    RunReads(s);
  }

  /** Reading a digit twice in a row changes nothing: the bit is OR-ed in again. */
  lemma RepeatedDigit(s: string, c: char)
    requires IsCountDigit(c)
    ensures Parse(s + [c, c]) == Parse(s + [c])
  {
    var once := s + [c];
    var twice := s + [c, c];
    assert twice[..|twice| - 1] == once;
    assert once[..|once| - 1] == s;
    if Run(s).Ok? {
      ApplyTwice(Run(s).value, Classify(c));
    }
  }

  /** A digit token applied twice has the effect of applying it once. */
  lemma ApplyTwice(st: Scan, t: Token)
    requires t.Digit? && t.n <= 8
    ensures Apply(st, t).Ok? && Apply(Apply(st, t).value, t) == Apply(st, t)
  {
    var m: bv32 := if st.mode == Survival then (1 as bv32) << t.n else (1 as bv32) << (t.n + 16);
    OrTwice(st.rule, m);
  }

  lemma OrTwice(r: bv32, m: bv32)
    ensures (r | m) | m == r | m
  {
  }

  /** The empty string is accepted and sets nothing. */
  lemma EmptyRule()
    ensures Parse("") == Ok(RuleSet(0))
  {
  }

  /** `b3s23` is the documented `0000_0000_0000_1000_0000_0000_0000_1100`. */
  lemma ConwayString()
    ensures Parse("b3s23") == Ok(RuleSet(0x0008_000C))
    ensures Parse("b3s23").value.rule == RuleSets.B3S23.rule
  {
    RuleSets.DocumentedRuleValues();
    assert "b3s23"[..4] == "b3s2";
    assert "b3s2"[..3] == "b3s";
    assert "b3s"[..2] == "b3";
    assert "b3"[..1] == "b";
    assert "b"[..0] == "";
  }

  /** The digit 9 and characters outside the notation are refused. */
  lemma RefusedStrings()
    ensures Parse("b9") == Err(InvalidString)
    ensures Parse("b3/s23") == Err(InvalidString)
  {
    ParseAccepts("b9");
    assert !Accepted("b9"[1]);
    RunErrorIsInvalid("b9");
    ParseAccepts("b3/s23");
    assert !Accepted("b3/s23"[2]);
    RunErrorIsInvalid("b3/s23");
  }
}
