/**
 * The byte-slice parsing primitives of `parse_util.rs`. A slice is a
 * `seq<u8>`; every primitive returns what it consumed and the rest of the
 * input, and the rest is always a suffix of the input (slices are never
 * copied, only narrowed).
 */
module ParseUtil {
  import opened Base

  /**
   * The reasons a parse is abandoned. Each constructor stands for one
   * `bail!` site (or one wrapped error) of the parsers; `Panicked` stands
   * for a panic of the source (an index out of range, `unreachable!`),
   * which no caller catches.
   */
  datatype ParseError =
    | ExpectedByte(expected: u8, found: Option<u8>)
    | ExpectedSlice(prefix: seq<u8>)
    | ConvertFailed
    | MissingBirthPrefix
    | MissingBirths
    | MissingSurvivalPrefix
    | MissingSurvivals
    | NotDigits
    | NoCommentType
    | EmptyName
    | EmptyAuthor
    | InvalidCoordinates
    | UnrecognizedCommentType(b: u8)
    | DuplicateName
    | DuplicateAuthor
    | DuplicateOffset
    | InvalidHeaderToken(b: u8)
    | MissingX
    | MissingY
    | UnexpectedEnd
    | RepeatCutOff
    | UnrecognizedCharacter(b: u8)
    | Panicked

  type ParseResult<T> = Result<T, ParseError>

  /** `r` is what is left of `s` after a prefix of it was consumed. */
  predicate IsSuffix(r: seq<u8>, s: seq<u8>)
  {
    |r| <= |s| && r == s[|s| - |r|..]
  }

  lemma SuffixTrans(a: seq<u8>, b: seq<u8>, c: seq<u8>)
    requires IsSuffix(a, b) && IsSuffix(b, c)
    ensures IsSuffix(a, c)
  {
    assert c[|c| - |b|..][|b| - |a|..] == c[|c| - |a|..];
  }

  /** A suffix of what follows a prefix is a suffix of the whole. */
  lemma SuffixUnder(t: seq<u8>, s: seq<u8>, p: seq<u8>, whole: seq<u8>)
    requires IsSuffix(t, s) && whole == p + s
    ensures IsSuffix(t, whole)
  {
    assert whole[|p|..] == s;
    SuffixTrans(t, s, whole);
  }

  /** `u8::is_ascii_whitespace`: space, tab, line feed, form feed, carriage return. */
  predicate IsAsciiWhitespace(b: u8)
  {
    b == 0x20 || b == 0x09 || b == 0x0A || b == 0x0C || b == 0x0D
  }

  predicate IsAsciiDigit(b: u8)
  {
    '0' as int <= b <= '9' as int
  }

  predicate NotWhitespace(b: u8)
  {
    !IsAsciiWhitespace(b)
  }

  /** The value of an ASCII digit. */
  function DigitValue(b: u8): (d: nat)
    requires IsAsciiDigit(b)
    ensures d < 10 && b == '0' as int + d
  {
    b - '0' as int
  }

  /** The index of the first byte satisfying `p`, or `|bytes|` when there is none. */
  function FirstWhere(p: u8 -> bool, bytes: seq<u8>): (j: nat)
    ensures j <= |bytes|
    ensures j < |bytes| ==> p(bytes[j])
    ensures forall k :: 0 <= k < j ==> !p(bytes[k])
  {
    if bytes == [] then 0
    else if p(bytes[0]) then 0
    else 1 + FirstWhere(p, bytes[1..])
  }

  /**
   * What `take_ws` returns for a non-empty slice: the slice from its first
   * non-whitespace byte on, or, when every byte is whitespace, its last byte.
   */
  function WsSuffix(bytes: seq<u8>): (r: seq<u8>)
    requires |bytes| > 0
    ensures |r| > 0 && IsSuffix(r, bytes)
    ensures forall k :: 0 <= k < |bytes| - |r| ==> IsAsciiWhitespace(bytes[k])
    ensures !IsAsciiWhitespace(r[0]) || (|r| == 1 && forall k :: 0 <= k < |bytes| ==> IsAsciiWhitespace(bytes[k]))
  {
    var j := FirstWhere(NotWhitespace, bytes);
    if j < |bytes| then bytes[j..] else bytes[|bytes| - 1..]
  }

  /** `take_ws`. On an empty slice the source computes `0 - 1` in `usize` and panics. */
  method TakeWs(bytes: seq<u8>) returns (r: seq<u8>)
    requires |bytes| > 0
    ensures r == WsSuffix(bytes)
  {
    var i := |bytes| - 1;
    var j := 0;
    while j < |bytes|
      invariant 0 <= j <= |bytes| && i == |bytes| - 1
      invariant forall k :: 0 <= k < j ==> IsAsciiWhitespace(bytes[k])
    {
      if !IsAsciiWhitespace(bytes[j]) {
        i := j;
        break;
      }
      j := j + 1;
    }
    r := bytes[i..];
    assert FirstWhere(NotWhitespace, bytes) == (if j < |bytes| then j else |bytes|);
  }

  /**
   * `take_ws` as the parsers call it: on a slice that may be empty, where
   * the source panics.
   */
  function SkipWs(bytes: seq<u8>): (r: ParseResult<seq<u8>>)
    ensures r.Err? <==> bytes == []
    ensures r.Err? ==> r.error == Panicked
    ensures r.Ok? ==> r.value == WsSuffix(bytes)
  {
    if bytes == [] then Err(Panicked) else Ok(WsSuffix(bytes))
  }

  /** `take_1`. */
  function TakeOne(bytes: seq<u8>): (r: (Option<u8>, seq<u8>))
    ensures r.0.None? <==> bytes == []
    ensures r.0.None? ==> r.1 == bytes
    ensures r.0.Some? ==> [r.0.value] + r.1 == bytes
  {
    if bytes == [] then (None, bytes) else (Some(bytes[0]), bytes[1..])
  }

  /** `peek_1`. */
  function PeekOne(bytes: seq<u8>): (r: Option<u8>)
    ensures r == TakeOne(bytes).0
  {
    if bytes == [] then None else Some(bytes[0])
  }

  /** `split_n`. */
  function SplitN(bytes: seq<u8>, n: nat): (r: (Option<seq<u8>>, seq<u8>))
    ensures r.0.Some? <==> n <= |bytes|
    ensures r.0.None? ==> r.1 == bytes
    ensures r.0.Some? ==> |r.0.value| == n && r.0.value + r.1 == bytes
  {
    if n <= |bytes| then (Some(bytes[..n]), bytes[n..]) else (None, bytes)
  }

  /** `peek_n`. */
  function PeekN(bytes: seq<u8>, n: nat): (r: Option<seq<u8>>)
    ensures r == SplitN(bytes, n).0
  {
    if n <= |bytes| then Some(bytes[..n]) else None
  }

  /** `expect`: consume the byte `b`, or fail naming what was found instead. */
  function Expect(b: u8, bytes: seq<u8>): (r: ParseResult<seq<u8>>)
    ensures r.Ok? <==> |bytes| > 0 && bytes[0] == b
    ensures r.Ok? ==> r.value == bytes[1..]
    ensures r.Err? ==> r.error == ExpectedByte(b, PeekOne(bytes))
  {
    match TakeOne(bytes)
    case (None, _) => Err(ExpectedByte(b, None))
    case (Some(a), rest) => if a != b then Err(ExpectedByte(b, Some(a))) else Ok(rest)
  }

  /** `expect_slice`: consume the bytes `bs`. */
  function ExpectSlice(bs: seq<u8>, bytes: seq<u8>): (r: ParseResult<seq<u8>>)
    ensures r.Ok? <==> bs <= bytes
    ensures r.Ok? ==> bs + r.value == bytes
    ensures r.Err? ==> r.error == ExpectedSlice(bs)
  {
    if bs <= bytes then Ok(bytes[|bs|..]) else Err(ExpectedSlice(bs))
  }

  /**
   * What `take_until_fn` returns: the bytes before the first one satisfying
   * `p`, and the rest from that byte on. When no byte satisfies `p`, or the
   * first one already does, nothing is consumed.
   */
  function SplitBefore(p: u8 -> bool, bytes: seq<u8>): (r: (Option<seq<u8>>, seq<u8>))
    ensures r.0.Some? ==>
      && r.0.value + r.1 == bytes
      && |r.0.value| > 0 && |r.1| > 0 && p(r.1[0])
      && forall k :: 0 <= k < |r.0.value| ==> !p(r.0.value[k])
    ensures r.0.None? ==>
      && r.1 == bytes
      && (bytes == [] || p(bytes[0]) || forall k :: 0 <= k < |bytes| ==> !p(bytes[k]))
  {
    var j := FirstWhere(p, bytes);
    if j == 0 || j == |bytes| then (None, bytes) else (Some(bytes[..j]), bytes[j..])
  }

  /** `take_until_fn`. */
  method TakeUntilFn(p: u8 -> bool, bytes: seq<u8>) returns (res: Option<seq<u8>>, rest: seq<u8>)
    ensures (res, rest) == SplitBefore(p, bytes)
  {
    var i := 0;
    var j := 0;
    while j < |bytes|
      invariant 0 <= j <= |bytes| && i == 0
      invariant forall k :: 0 <= k < j ==> !p(bytes[k])
    {
      if p(bytes[j]) {
        i := j;
        break;
      }
      j := j + 1;
    }
    assert FirstWhere(p, bytes) == j;
    if i == 0 {
      res, rest := None, bytes;
    } else {
      res, rest := Some(bytes[..i]), bytes[i..];
    }
  }

  /** `take_until`: the bytes before the first `b`, when there are some and a `b` follows them. */
  function TakeUntil(b: u8, bytes: seq<u8>): (r: (Option<seq<u8>>, seq<u8>))
    ensures r.0.Some? ==>
      && r.0.value + r.1 == bytes
      && |r.0.value| > 0 && |r.1| > 0 && r.1[0] == b
      && b !in r.0.value
    ensures r.0.None? <==> bytes == [] || bytes[0] == b || b !in bytes
    ensures r.0.None? ==> r.1 == bytes
  {
    SplitBefore(a => a == b, bytes)
  }

  /** `take_until_ws`: the bytes before the first whitespace, when there are some and whitespace follows them. */
  function TakeUntilWs(bytes: seq<u8>): (r: (Option<seq<u8>>, seq<u8>))
    ensures r.0.Some? ==>
      && r.0.value + r.1 == bytes
      && |r.0.value| > 0 && |r.1| > 0 && IsAsciiWhitespace(r.1[0])
      && forall k :: 0 <= k < |r.0.value| ==> !IsAsciiWhitespace(r.0.value[k])
    ensures r.0.None? <==>
      bytes == [] || IsAsciiWhitespace(bytes[0]) || forall k :: 0 <= k < |bytes| ==> !IsAsciiWhitespace(bytes[k])
    ensures r.0.None? ==> r.1 == bytes
  {
    SplitBefore(IsAsciiWhitespace, bytes)
  }

  /** `take_with_fn`: like `take_until_fn`, and the terminating byte is consumed too. */
  function TakeWithFn(p: u8 -> bool, bytes: seq<u8>): (r: (Option<seq<u8>>, seq<u8>))
    ensures r.0.Some? ==>
      && |r.0.value| > 0
      && |r.0.value| + 1 + |r.1| == |bytes|
      && bytes == r.0.value + [bytes[|r.0.value|]] + r.1
      && p(bytes[|r.0.value|])
      && forall k :: 0 <= k < |r.0.value| ==> !p(bytes[k])
    ensures r.0.None? <==> bytes == [] || p(bytes[0]) || forall k :: 0 <= k < |bytes| ==> !p(bytes[k])
    ensures r.0.None? ==> r.1 == bytes
  {
    match SplitBefore(p, bytes)
    case (None, rest) => (None, rest)
    case (Some(res), rest) => (Some(res), TakeOne(rest).1)
  }

  /** `take_with`: the bytes before the first `b`, when there are some, with that `b` dropped. */
  function TakeWith(b: u8, bytes: seq<u8>): (r: (Option<seq<u8>>, seq<u8>))
    ensures r.0.Some? ==>
      && |r.0.value| > 0 && b !in r.0.value
      && bytes == r.0.value + [b] + r.1
    ensures r.0.None? <==> bytes == [] || bytes[0] == b || b !in bytes
    ensures r.0.None? ==> r.1 == bytes
  {
    TakeWithFn(a => a == b, bytes)
  }

  lemma {:induction false} TakeUntilRoundTrip(p: u8 -> bool, head: seq<u8>, tail: seq<u8>)
    requires |head| > 0 && |tail| > 0 && p(tail[0])
    requires forall k :: 0 <= k < |head| ==> !p(head[k])
    ensures SplitBefore(p, head + tail) == (Some(head), tail)
  {
    FirstWhereAt(p, head + tail, |head|);
  }

  /** `take_until(b, head + tail)` splits there when `head` has no `b` and `tail` starts with one. */
  lemma TakeUntilSplit(b: u8, head: seq<u8>, tail: seq<u8>)
    requires |head| > 0 && |tail| > 0 && tail[0] == b
    requires forall k :: 0 <= k < |head| ==> head[k] != b
    ensures TakeUntil(b, head + tail) == (Some(head), tail)
  {
    TakeUntilRoundTrip(a => a == b, head, tail);
  }

  /** `take_until_ws(head + tail)` splits there when `head` has no whitespace and `tail` starts with some. */
  lemma TakeUntilWsSplit(head: seq<u8>, tail: seq<u8>)
    requires |head| > 0 && |tail| > 0 && IsAsciiWhitespace(tail[0])
    requires forall k :: 0 <= k < |head| ==> !IsAsciiWhitespace(head[k])
    ensures TakeUntilWs(head + tail) == (Some(head), tail)
  {
    TakeUntilRoundTrip(IsAsciiWhitespace, head, tail);
  }

  /** `take_with(b, head + [b] + tail)` returns `head` and drops the `b` when `head` has none. */
  lemma TakeWithSplit(b: u8, head: seq<u8>, tail: seq<u8>)
    requires |head| > 0
    requires forall k :: 0 <= k < |head| ==> head[k] != b
    ensures TakeWith(b, head + [b] + tail) == (Some(head), tail)
  {
    assert head + [b] + tail == head + ([b] + tail);
    TakeUntilRoundTrip(a => a == b, head, [b] + tail);
  }

  /** `expect_slice(bs, bs + tail)` consumes exactly `bs`. */
  lemma ExpectSliceSplit(bs: seq<u8>, tail: seq<u8>)
    ensures ExpectSlice(bs, bs + tail) == Ok(tail)
  {
    assert (bs + tail)[|bs|..] == tail;
  }

  /** `take_ws` skips a run of whitespace up to the first other byte. */
  lemma SkipWsSplit(ws: seq<u8>, tail: seq<u8>)
    requires forall k :: 0 <= k < |ws| ==> IsAsciiWhitespace(ws[k])
    requires |tail| > 0 && !IsAsciiWhitespace(tail[0])
    ensures SkipWs(ws + tail) == Ok(tail)
  {
    FirstWhereAt(NotWhitespace, ws + tail, |ws|);
  }

  lemma {:induction false} FirstWhereAt(p: u8 -> bool, bytes: seq<u8>, j: nat)
    requires j < |bytes| && p(bytes[j])
    requires forall k :: 0 <= k < j ==> !p(bytes[k])
    ensures FirstWhere(p, bytes) == j
  {
    if j > 0 {
      FirstWhereAt(p, bytes[1..], j - 1);
    }
  }

  /** The value of a non-empty run of decimal digits. */
  function DecimalValue(ds: seq<u8>): (v: nat)
    requires forall k :: 0 <= k < |ds| ==> IsAsciiDigit(ds[k])
    ensures v < Pow10(|ds|)
  {
    if ds == [] then 0
    else
      var v := DecimalValue(ds[..|ds| - 1]);
      assert 10 * v + 10 <= 10 * Pow10(|ds| - 1);
      10 * v + DigitValue(ds[|ds| - 1])
  }

  function Pow10(k: nat): (r: nat)
    ensures r >= 1
    ensures k > 0 ==> r == 10 * Pow10(k - 1)
  {
    if k == 0 then 1 else 10 * Pow10(k - 1)
  }

  predicate AllDigits(ds: seq<u8>)
  {
    forall k :: 0 <= k < |ds| ==> IsAsciiDigit(ds[k])
  }

  /**
   * `convert` at an integer type whose values are `lo..=hi` (`i128` for
   * world offsets, `u64` for run lengths): the `FromStr` of Rust's integer
   * types, which takes an optional `+` (or `-` when the type is signed)
   * followed by at least one decimal digit, and rejects values out of range.
   */
  function Convert(bytes: seq<u8>, lo: int, hi: int): (r: ParseResult<int>)
    ensures r.Ok? ==> lo <= r.value <= hi
    ensures r.Err? ==> r.error == ConvertFailed
  {
    var negative := |bytes| > 0 && bytes[0] == '-' as int && lo < 0;
    var ds := if |bytes| > 0 && (bytes[0] == '+' as int || negative) then bytes[1..] else bytes;
    if ds == [] || !AllDigits(ds) then Err(ConvertFailed)
    else
      var v := if negative then -(DecimalValue(ds) as int) else DecimalValue(ds);
      if lo <= v <= hi then Ok(v) else Err(ConvertFailed)
  }

  lemma ConvertDigits(ds: seq<u8>, lo: int, hi: int)
    requires |ds| > 0 && AllDigits(ds)
    requires lo <= DecimalValue(ds) <= hi
    ensures Convert(ds, lo, hi) == Ok(DecimalValue(ds))
    ensures Convert([('+' as int) as u8] + ds, lo, hi) == Ok(DecimalValue(ds))
  {
    assert IsAsciiDigit(ds[0]);
    var signed := [('+' as int) as u8] + ds;
    assert signed[0] == '+' as int && signed[1..] == ds;
  }

  lemma ConvertNegative(ds: seq<u8>, lo: int, hi: int)
    requires |ds| > 0 && AllDigits(ds)
    ensures lo < 0 && lo <= -(DecimalValue(ds) as int) <= hi ==> Convert([('-' as int) as u8] + ds, lo, hi) == Ok(-(DecimalValue(ds) as int))
    ensures lo >= 0 ==> Convert([('-' as int) as u8] + ds, lo, hi).Err?
  {
    assert ([('-' as int) as u8] + ds)[1..] == ds;
    assert !IsAsciiDigit(('-' as int) as u8);
  }

  lemma ConvertExampleUnsigned()
    ensures Convert(Bytes("123"), 0, USIZE_MAX) == Ok(123)
  {
    var ds := Bytes("123");
    assert ds == [49, 50, 51];
    assert ds[..2] == [49, 50] && ds[..2][..1] == [49] && ds[..2][..1][..0] == [];
    ConvertDigits(ds, 0, USIZE_MAX);
  }

  lemma ConvertExampleSigns()
    ensures Convert(Bytes("-5"), -10, 10) == Ok(-5)
    ensures Convert(Bytes("-5"), 0, 10).Err?
    ensures Convert(Bytes("+7"), 0, 10) == Ok(7)
  {
    var five: seq<u8> := [53];
    assert five[..0] == [];
    assert Bytes("-5") == [('-' as int) as u8] + five;
    ConvertNegative(five, -10, 10);
    ConvertNegative(five, 0, 10);
    var seven: seq<u8> := [55];
    assert seven[..0] == [];
    assert Bytes("+7") == [('+' as int) as u8] + seven;
    ConvertDigits(seven, 0, 10);
  }

  lemma ConvertExampleRejects()
    ensures Convert(Bytes(""), 0, 10).Err?
    ensures Convert(Bytes("+"), 0, 10).Err?
    ensures Convert(Bytes("1 "), 0, 10).Err?
  {
    assert Bytes("+") == [43];
    assert Bytes("1 ") == [49, 32];
  }
}
