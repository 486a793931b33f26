/**
 * The reader of the Run Length Encoded pattern format (`parse_rle.rs`):
 * `#` comment lines (name, author, offset, rule), an optional
 * `x = <int>, y = <int>[, rule = <rule>]` header, and the run-length
 * encoded cells up to `!`.
 *
 * The callback the source calls for every live cell is modelled as the
 * sequence of coordinates it receives, in order. A call that fails still
 * reports the cells emitted before the failure, since the callback has
 * already seen them.
 */
module ParseRle {
  import opened Base
  import opened ParseUtil
  import RuleSets

  /** The range of `i128` (`WorldOffset`). */
  const I128_MIN: int := -0x8000_0000_0000_0000_0000_0000_0000_0000
  const I128_MAX: int := 0x7FFF_FFFF_FFFF_FFFF_FFFF_FFFF_FFFF_FFFF

  /** The largest `u64`, the type of a run length. */
  const U64_MAX: int := 0xFFFF_FFFF_FFFF_FFFF

  /** The bytes `rule`. */
  const RULE_WORD: seq<u8> := [0x72, 0x75, 0x6C, 0x65]

  datatype RleFile = RleFile(
    name: Option<seq<u8>>,
    author: Option<seq<u8>>,
    offset: Option<(int, int)>,
    rules: RuleSets.RuleSet)

  /** `RleFile::default()`: nothing named, no offset, the rule set's default `B3S23`. */
  const DEFAULT_FILE: RleFile := RleFile(None, None, None, RuleSets.B3S23)

  datatype CommentLine =
    | Comment
    | Name(name: seq<u8>)
    | Author(author: seq<u8>)
    | Offset(x: int, y: int)
    | RuleLine(rules: RuleSets.RuleSet)

  datatype HeaderLine = HeaderLine(x: int, y: int, rules: Option<RuleSets.RuleSet>)

  /** The outcome of a call, together with the live cells it passed to the callback. */
  datatype Emitted<T> = Emitted(result: ParseResult<T>, cells: seq<(int, int)>)

  /* ----- coordinates ----- */

  predicate IsCoordEnd(b: u8)
  {
    b == ',' as int || b == '\n' as int
  }

  /**
   * `read_coordinates`: `x`, `=`, the x value up to a `,` (which is
   * consumed), `y`, `=`, and the y value up to a `,` or a line feed (which
   * is not). Whitespace may follow `x`, `=`, `,`, `y` and `=`.
   */
  function ReadCoordinates(bytes: seq<u8>): (r: ParseResult<((int, int), seq<u8>)>)
    ensures r.Ok? ==> |r.value.1| > 0 && IsCoordEnd(r.value.1[0]) && |r.value.1| < |bytes|
    ensures r.Ok? ==> I128_MIN <= r.value.0.0 <= I128_MAX && I128_MIN <= r.value.0.1 <= I128_MAX
    ensures |bytes| == 0 || bytes[0] != 'x' as int ==> r == Err(ExpectedByte('x' as int, PeekOne(bytes)))
  {
    var b1 :- Assigned('x' as int, bytes);
    var x :- XValue(b1);
    var b3 :- SkipWs(x.1);
    var b4 :- Assigned('y' as int, b3);
    var y :- YValue(b4);
    Ok(((x.0, y.0), y.1))
  }

  /** The x value, up to a `,`, which is consumed. */
  function XValue(bytes: seq<u8>): (r: ParseResult<(int, seq<u8>)>)
    ensures r.Ok? ==> |r.value.1| < |bytes| && I128_MIN <= r.value.0 <= I128_MAX
  {
    match TakeWith(',' as int, bytes)
    case (None, _) => Err(MissingX)
    case (Some(xs), rest) =>
      var x :- Convert(xs, I128_MIN, I128_MAX);
      Ok((x, rest))
  }

  /** The y value, up to a `,` or a line feed, which is not consumed. */
  function YValue(bytes: seq<u8>): (r: ParseResult<(int, seq<u8>)>)
    ensures r.Ok? ==> |r.value.1| > 0 && IsCoordEnd(r.value.1[0]) && |r.value.1| < |bytes|
    ensures r.Ok? ==> I128_MIN <= r.value.0 <= I128_MAX
  {
    match SplitBefore(IsCoordEnd, bytes)
    case (None, _) => Err(MissingY)
    case (Some(ys), rest) =>
      var y :- Convert(ys, I128_MIN, I128_MAX);
      Ok((y, rest))
  }

  /** The common start of both coordinates: the letter, whitespace, `=`, whitespace. */
  function Assigned(letter: u8, bytes: seq<u8>): (r: ParseResult<seq<u8>>)
    ensures r.Ok? ==> |r.value| < |bytes|
    ensures |bytes| == 0 || bytes[0] != letter ==> r == Err(ExpectedByte(letter, PeekOne(bytes)))
  {
    var b1 :- Expect(letter, bytes);
    var b2 :- SkipWs(b1);
    var b3 :- Expect('=' as int, b2);
    SkipWs(b3)
  }

  /* ----- comment lines ----- */

  /**
   * `read_line_comment`: a line starting with `#` and a letter, or nothing
   * when the input does not start with `#`.
   */
  function ReadLineComment(bytes: seq<u8>): (r: ParseResult<(Option<CommentLine>, seq<u8>)>)
    ensures r.Ok? && r.value.0.None? ==> r.value.1 == bytes
    ensures r.Ok? && r.value.0.Some? ==> |r.value.1| < |bytes|
    ensures (|bytes| == 0 || bytes[0] != '#' as int) <==> r == Ok((None, bytes))
  {
    match Expect('#' as int, bytes)
    case Err(_) => Ok((None, bytes))
    case Ok(b1) =>
      match TakeOne(b1)
      case (None, _) => Err(NoCommentType)
      case (Some(b), b2) => CommentOfType(b, b2)
  }

  /** The comment line whose type letter `b` has just been read. */
  function CommentOfType(b: u8, bytes: seq<u8>): (r: ParseResult<(Option<CommentLine>, seq<u8>)>)
    ensures r.Ok? ==> r.value.0.Some? && |r.value.1| <= |bytes|
  {
    if b == 'r' as int then RuleOf(bytes)
    else if b == 'R' as int || b == 'P' as int then OffsetOf(bytes)
    else if b == 'C' as int || b == 'c' as int then CommentOf(bytes)
    else if b == 'N' as int then NameOf(bytes)
    else if b == 'O' as int then AuthorOf(bytes)
    else Err(UnrecognizedCommentType(b))
  }

  /** `#C` and `#c`: the rest of the line is skipped. */
  function CommentOf(bytes: seq<u8>): (r: ParseResult<(Option<CommentLine>, seq<u8>)>)
    ensures r.Ok? ==> r.value.0.Some? && |r.value.1| <= |bytes|
  {
    Ok((Some(Comment), TakeWith('\n' as int, bytes).1))
  }

  /** `#N`: the rest of the line is the name, which may not be empty. */
  function NameOf(bytes: seq<u8>): (r: ParseResult<(Option<CommentLine>, seq<u8>)>)
    ensures r.Ok? ==> r.value.0.Some? && |r.value.1| <= |bytes|
  {
    match RestOfLine(bytes)
    case Err(e) => Err(e)
    case Ok((None, _)) => Err(EmptyName)
    case Ok((Some(name), rest)) => Ok((Some(Name(name)), rest))
  }

  /** `#O`: the rest of the line is the author, who may not be empty. */
  function AuthorOf(bytes: seq<u8>): (r: ParseResult<(Option<CommentLine>, seq<u8>)>)
    ensures r.Ok? ==> r.value.0.Some? && |r.value.1| <= |bytes|
  {
    match RestOfLine(bytes)
    case Err(e) => Err(e)
    case Ok((None, _)) => Err(EmptyAuthor)
    case Ok((Some(author), rest)) => Ok((Some(Author(author)), rest))
  }

  /** The text of `#N` and `#O`: leading whitespace skipped, then everything up to a line feed, which is dropped. */
  function RestOfLine(bytes: seq<u8>): (r: ParseResult<(Option<seq<u8>>, seq<u8>)>)
    ensures r.Ok? ==> |r.value.1| <= |bytes|
  {
    var b1 :- SkipWs(bytes);
    Ok(TakeWith('\n' as int, b1))
  }

  /** The coordinates of `#R` and `#P`, after leading whitespace. */
  function OffsetOf(bytes: seq<u8>): (r: ParseResult<(Option<CommentLine>, seq<u8>)>)
    ensures r.Ok? ==> r.value.0.Some? && |r.value.1| <= |bytes|
    ensures r.Err? ==> r.error == Panicked || r.error == InvalidCoordinates
  {
    var b1 :- SkipWs(bytes);
    match ReadCoordinates(b1)
    // the let-else catches only errors: a panic inside `read_coordinates` aborts
    case Err(Panicked) => Err(Panicked)
    case Err(_) => Err(InvalidCoordinates)
    case Ok(((x, y), rest)) => Ok((Some(Offset(x, y)), rest))
  }

  /** The nameless rule of `#r`, between leading and trailing whitespace. */
  function RuleOf(bytes: seq<u8>): (r: ParseResult<(Option<CommentLine>, seq<u8>)>)
    ensures r.Ok? ==> r.value.0.Some? && |r.value.1| <= |bytes|
  {
    var b1 :- SkipWs(bytes);
    var parsed :- RuleSets.ParseNamelessRule(b1);
    // the rule leaves at least one byte, so this `take_ws` cannot panic
    Ok((Some(RuleLine(parsed.0)), WsSuffix(parsed.1)))
  }

  /* ----- the header line ----- */

  /**
   * `read_line_header`: coordinates, then either a line feed or
   * `, rule = <rule>`; nothing when the input does not start with
   * coordinates. The byte after the coordinates is always a `,` or a line
   * feed, so the source's `unreachable!` and its other-token error cannot
   * be reached. A panic inside `read_coordinates` is not an error the
   * let-else can catch: it aborts the whole read.
   */
  function ReadLineHeader(bytes: seq<u8>): (r: ParseResult<(Option<HeaderLine>, seq<u8>)>)
    ensures r.Ok? && r.value.0.None? ==> r.value.1 == bytes
    ensures ReadCoordinates(bytes).Err? && ReadCoordinates(bytes).error != Panicked <==> r == Ok((None, bytes))
    ensures ReadCoordinates(bytes) == Err(Panicked) ==> r == Err(Panicked)
  {
    match ReadCoordinates(bytes)
    case Err(Panicked) => Err(Panicked)
    case Err(_) => Ok((None, bytes))
    case Ok(((x, y), b1)) =>
      if b1[0] == ',' as int then
        match RuleClause(b1[1..])
        case Err(e) => Err(e)
        case Ok((rules, rest)) => Ok((Some(HeaderLine(x, y, Some(rules))), rest))
      else
        Ok((Some(HeaderLine(x, y, None)), b1[1..]))
  }

  /** What follows the `,` after the coordinates: `rule = <rule>`, with whitespace around each part. */
  function RuleClause(bytes: seq<u8>): (r: ParseResult<(RuleSets.RuleSet, seq<u8>)>)
  {
    var b1 :- SkipWs(bytes);
    var b2 :- ExpectSlice(RULE_WORD, b1);
    var b3 :- SkipWs(b2);
    var b4 :- Expect('=' as int, b3);
    var b5 :- SkipWs(b4);
    RuleSets.ParseRule(b5)
  }

  /* ----- the encoded cells ----- */

  predicate NotDigit(b: u8)
  {
    !IsAsciiDigit(b)
  }

  /** `rep` live cells in a row, starting at column `x`. */
  function Run(x: int, y: int, rep: nat): (cs: seq<(int, int)>)
    ensures |cs| == rep
    ensures forall i :: 0 <= i < rep ==> cs[i] == (x + i, y)
  {
    seq(rep, i requires 0 <= i < rep => (x + i, y))
  }

  /** The cells `e` reports, after the cells `cells` already reported. */
  function After<T>(cells: seq<(int, int)>, e: Emitted<T>): Emitted<T>
  {
    Emitted(e.result, cells + e.cells)
  }

  /**
   * What `read_encoding` does from the input `bytes` on, at column `x`,
   * row `y`, with run length `rep`. Rows go downwards: `$` lowers `y`.
   */
  function Decode(bytes: seq<u8>, dx: int, dy: int, x: int, y: int, rep: nat): Emitted<()>
    decreases |bytes|
  {
    if bytes == [] then Emitted(Err(UnexpectedEnd), [])
    else
      var b := bytes[0];
      if b == '\n' as int then Decode(bytes[1..], dx, dy, x, y, rep)
      else if b == '!' as int then Emitted(Ok(()), [])
      else if b == 'b' as int then Decode(bytes[1..], dx, dy, x + rep, y, 1)
      else if b == 'o' as int then After(Run(dx + x, dy + y, rep), Decode(bytes[1..], dx, dy, x + rep, y, 1))
      else if b == '$' as int then Decode(bytes[1..], dx, dy, 0, y - rep, 1)
      else if IsAsciiDigit(b) then
        match SplitBefore(NotDigit, bytes)
        // the digits run to the end of the input: the source's `unreachable!`
        case (None, _) => Emitted(Err(Panicked), [])
        case (Some(n), rest) =>
          if PeekOne(rest) == Some('\n' as int) then Emitted(Err(RepeatCutOff), [])
          else match Convert(n, 0, U64_MAX)
            case Err(e) => Emitted(Err(e), [])
            case Ok(v) => Decode(rest, dx, dy, x, y, v)
      else Emitted(Err(UnrecognizedCharacter(b)), [])
  }

  /** `read_encoding`: the cells of the pattern, shifted by `(dx, dy)`, up to `!`. */
  method ReadEncoding(bytes0: seq<u8>, dx: int, dy: int) returns (r: ParseResult<()>, cells: seq<(int, int)>)
    ensures Emitted(r, cells) == Decode(bytes0, dx, dy, 0, 0, 1)
  {
    var bytes := bytes0;
    var rep: nat := 1;
    var x, y := 0, 0;
    cells := [];
    while true
      invariant After(cells, Decode(bytes, dx, dy, x, y, rep)) == Decode(bytes0, dx, dy, 0, 0, 1)
      decreases |bytes|
    {
      var peeked := PeekOne(bytes);
      if peeked.None? {
        return Err(UnexpectedEnd), cells;
      }
      var b := peeked.value;
      if b == '\n' as int {
        bytes := TakeOne(bytes).1;
      } else if b == '!' as int {
        return Ok(()), cells;
      } else if b == 'b' as int {
        bytes := TakeOne(bytes).1;
        x := x + rep;
        rep := 1;
      } else if b == 'o' as int {
        ghost var before := cells;
        bytes := TakeOne(bytes).1;
        for i := 0 to rep
          invariant cells == before + Run(dx + x, dy + y, i)
        {
          assert Run(dx + x, dy + y, i + 1) == Run(dx + x, dy + y, i) + [(dx + x + i, dy + y)];
          cells := cells + [(dx + x + i, dy + y)];
        }
        x := x + rep;
        rep := 1;
      } else if b == '$' as int {
        bytes := TakeOne(bytes).1;
        y := y - rep;
        x := 0;
        rep := 1;
      } else if IsAsciiDigit(b) {
        var n, rest := TakeUntilFn(NotDigit, bytes);
        if n.None? {
          return Err(Panicked), cells;
        }
        bytes := rest;
        if PeekOne(bytes) == Some('\n' as int) {
          return Err(RepeatCutOff), cells;
        }
        var v := Convert(n.value, 0, U64_MAX);
        if v.Err? {
          return Err(v.error), cells;
        }
        rep := v.value;
      } else {
        return Err(UnrecognizedCharacter(b)), cells;
      }
    }
  }

  /* ----- the whole file ----- */

  /** One comment line applied to the file: a name, author or offset may be given once. */
  function AddLine(file: RleFile, line: CommentLine): ParseResult<RleFile>
  {
    match line
    case Comment => Ok(file)
    case Name(n) => if file.name.Some? then Err(DuplicateName) else Ok(file.(name := Some(n)))
    case Author(a) => if file.author.Some? then Err(DuplicateAuthor) else Ok(file.(author := Some(a)))
    case Offset(x, y) => if file.offset.Some? then Err(DuplicateOffset) else Ok(file.(offset := Some((x, y))))
    case RuleLine(s) => Ok(file.(rules := s))
  }

  /** The comment loop of `read_rle`: comment lines for as long as there are any. */
  function Comments(bytes: seq<u8>, file: RleFile): ParseResult<(RleFile, seq<u8>)>
    decreases |bytes|
  {
    var read :- ReadLineComment(bytes);
    match read.0
    case None => Ok((file, bytes))
    case Some(line) =>
      var file' :- AddLine(file, line);
      Comments(read.1, file')
  }

  /** The encoding read at the file's offset, `(0, 0)` when it has none. */
  function Body(file: RleFile, bytes: seq<u8>): Emitted<RleFile>
  {
    var (dx, dy) := if file.offset.Some? then file.offset.value else (0, 0);
    var d := Decode(bytes, dx, dy, 0, 0, 1);
    Emitted(if d.result.Ok? then Ok(file) else Err(d.result.error), d.cells)
  }

  /** What `read_rle` does. */
  function Read(bytes: seq<u8>): Emitted<RleFile>
  {
    match Comments(bytes, DEFAULT_FILE)
    case Err(e) => Emitted(Err(e), [])
    case Ok((file, b1)) =>
      match ReadLineHeader(b1)
      case Err(e) => Emitted(Err(e), [])
      case Ok((None, b2)) => Body(file, b2)
      case Ok((Some(h), b2)) =>
        if file.offset.Some? then Emitted(Err(DuplicateOffset), [])
        else Body(file.(offset := Some((h.x, h.y))), b2)
  }

  /** `read_rle`. */
  method ReadRle(bytes0: seq<u8>) returns (r: ParseResult<RleFile>, cells: seq<(int, int)>)
    ensures Emitted(r, cells) == Read(bytes0)
  {
    var file := DEFAULT_FILE;
    var bytes := bytes0;
    while true
      invariant Comments(bytes, file) == Comments(bytes0, DEFAULT_FILE)
      decreases |bytes|
    {
      var res := ReadLineComment(bytes);
      if res.Err? {
        return Err(res.error), [];
      }
      var (line, rest) := res.value;
      if line.None? {
        break;
      }
      var added := AddLine(file, line.value);
      if added.Err? {
        return Err(added.error), [];
      }
      file := added.value;
      bytes := rest;
    }
    var header := ReadLineHeader(bytes);
    if header.Err? {
      return Err(header.error), [];
    }
    if header.value.0.Some? {
      var h := header.value.0.value;
      if file.offset.Some? {
        return Err(DuplicateOffset), [];
      }
      file := file.(offset := Some((h.x, h.y)));
      bytes := header.value.1;
    }
    var (dx, dy) := if file.offset.Some? then file.offset.value else (0, 0);
    var status;
    status, cells := ReadEncoding(bytes, dx, dy);
    if status.Err? {
      return Err(status.error), cells;
    }
    return Ok(file), cells;
  }

  /* ----- comment lines, case by case ----- */

  predicate NoLineFeed(text: seq<u8>)
  {
    forall k :: 0 <= k < |text| ==> text[k] != '\n' as int
  }

  predicate AllWhitespace(ws: seq<u8>)
  {
    forall k :: 0 <= k < |ws| ==> IsAsciiWhitespace(ws[k])
  }

  /** `#` with nothing after it names no comment type. */
  lemma HashAlone()
    ensures ReadLineComment(['#' as int]) == Err(NoCommentType)
  {
  }

  /** After `#`, the letter after it picks the kind of line. */
  lemma CommentType(b: u8, tail: seq<u8>)
    ensures ReadLineComment(['#' as int, b] + tail) == CommentOfType(b, tail)
  {
    assert ['#' as int, b] + tail == ['#' as int] + ([b] + tail);
  }

  /** `#C` and `#c` skip their line, line feed included. */
  lemma CommentLineSkipped(c: u8, text: seq<u8>, tail: seq<u8>)
    requires c == 'C' as int || c == 'c' as int
    requires |text| > 0 && NoLineFeed(text)
    ensures CommentOfType(c, text + ['\n' as int] + tail) == Ok((Some(Comment), tail))
  {
    TakeWithSplit('\n' as int, text, tail);
  }

  /** `#C` and `#c` hand the rest of the input to the comment's parser. */
  lemma CommentDispatch(c: u8, bytes: seq<u8>)
    requires c == 'C' as int || c == 'c' as int
    ensures CommentOfType(c, bytes) == CommentOf(bytes)
  {
    assert !(c == 'r' as int || c == 'R' as int || c == 'P' as int);
  }

  /**
   * An empty `#C` line keeps its line feed: `take_with` finds the line feed
   * first and consumes nothing.
   */
  lemma EmptyCommentKeepsLineFeed(c: u8, tail: seq<u8>)
    requires c == 'C' as int || c == 'c' as int
    ensures CommentOfType(c, ['\n' as int] + tail) == Ok((Some(Comment), ['\n' as int] + tail))
  {
    CommentDispatch(c, ['\n' as int] + tail);
    assert FirstWhere(a => a == '\n' as int, ['\n' as int] + tail) == 0;
  }

  /**
   * So an empty `#C` line ends the comment lines: the line feed left behind
   * is not a `#`, and whatever comment lines follow are not read as such.
   */
  lemma EmptyCommentEndsComments(c: u8, tail: seq<u8>, file: RleFile)
    requires c == 'C' as int || c == 'c' as int
    ensures Comments(['#' as int, c, '\n' as int] + tail, file) == Ok((file, ['\n' as int] + tail))
  {
    var rest := ['\n' as int] + tail;
    assert ['#' as int, c, '\n' as int] + tail == ['#' as int, c] + rest;
    CommentType(c, rest);
    EmptyCommentKeepsLineFeed(c, tail);
    assert ReadLineComment(rest) == Ok((None, rest));
  }

  /** The text of a line: leading whitespace skipped, up to the line feed. */
  lemma RestOfLineSplit(ws: seq<u8>, text: seq<u8>, tail: seq<u8>)
    requires AllWhitespace(ws)
    requires |text| > 0 && !IsAsciiWhitespace(text[0]) && NoLineFeed(text)
    ensures RestOfLine(ws + (text + ['\n' as int] + tail)) == Ok((Some(text), tail))
  {
    SkipWsSplit(ws, text + ['\n' as int] + tail);
    TakeWithSplit('\n' as int, text, tail);
  }

  /** `#N` takes the rest of its line, after leading whitespace, as the name. */
  lemma NameLine(ws: seq<u8>, name: seq<u8>, tail: seq<u8>)
    requires AllWhitespace(ws)
    requires |name| > 0 && !IsAsciiWhitespace(name[0]) && NoLineFeed(name)
    ensures CommentOfType('N' as int, ws + (name + ['\n' as int] + tail)) == Ok((Some(Name(name)), tail))
  {
    var bytes := ws + (name + ['\n' as int] + tail);
    RestOfLineSplit(ws, name, tail);
    assert NameOf(bytes) == Ok((Some(Name(name)), tail));
    NameDispatch('N' as int, bytes);
  }

  /** `#O` takes the rest of its line, after leading whitespace, as the author. */
  lemma AuthorLine(ws: seq<u8>, author: seq<u8>, tail: seq<u8>)
    requires AllWhitespace(ws)
    requires |author| > 0 && !IsAsciiWhitespace(author[0]) && NoLineFeed(author)
    ensures CommentOfType('O' as int, ws + (author + ['\n' as int] + tail)) == Ok((Some(Author(author)), tail))
  {
    var bytes := ws + (author + ['\n' as int] + tail);
    RestOfLineSplit(ws, author, tail);
    assert AuthorOf(bytes) == Ok((Some(Author(author)), tail));
    AuthorDispatch('O' as int, bytes);
  }

  /** `#N` hands the rest of the input to the name's parser. */
  lemma NameDispatch(c: u8, bytes: seq<u8>)
    requires c == 'N' as int
    ensures CommentOfType(c, bytes) == NameOf(bytes)
  {
    assert !(c == 'r' as int || c == 'R' as int || c == 'P' as int || c == 'C' as int || c == 'c' as int);
  }

  /** `#O` hands the rest of the input to the author's parser. */
  lemma AuthorDispatch(c: u8, bytes: seq<u8>)
    requires c == 'O' as int
    ensures CommentOfType(c, bytes) == AuthorOf(bytes)
  {
    assert !(c == 'r' as int || c == 'R' as int || c == 'P' as int || c == 'C' as int || c == 'c' as int);
  }

  /**
   * A `#N` or `#O` line whose text does not end in a line feed (the last
   * line of the input) is refused as empty.
   */
  lemma UnterminatedNameLine(ws: seq<u8>, text: seq<u8>)
    requires AllWhitespace(ws)
    requires |text| > 0 && !IsAsciiWhitespace(text[0]) && NoLineFeed(text)
    ensures CommentOfType('N' as int, ws + text) == Err(EmptyName)
    ensures CommentOfType('O' as int, ws + text) == Err(EmptyAuthor)
  {
    SkipWsSplit(ws, text);
    assert FirstWhere(a => a == '\n' as int, text) == |text|;
  }

  /**
   * `take_ws` also skips line feeds, so a `#N` line with no text takes the
   * next line as the name.
   */
  lemma BlankNameLine(name: seq<u8>, tail: seq<u8>)
    requires |name| > 0 && !IsAsciiWhitespace(name[0]) && NoLineFeed(name)
    ensures CommentOfType('N' as int, ['\n' as int] + (name + ['\n' as int] + tail)) == Ok((Some(Name(name)), tail))
  {
    NameLine(['\n' as int], name, tail);
  }

  /** `#R` and `#P` read coordinates after leading whitespace. */
  lemma OffsetLine(c: u8, ws: seq<u8>, coords: seq<u8>, xy: (int, int), rest: seq<u8>)
    requires c == 'R' as int || c == 'P' as int
    requires AllWhitespace(ws)
    requires ReadCoordinates(coords) == Ok((xy, rest))
    ensures CommentOfType(c, ws + coords) == Ok((Some(Offset(xy.0, xy.1)), rest))
  {
    SkipWsSplit(ws, coords);
  }

  /**
   * The offset must be written like a header, `x = <int>, y = <int>`: the
   * plain form `#R <x> <y>` of the format is refused.
   */
  lemma PlainOffsetRefused(c: u8, ws: seq<u8>, coords: seq<u8>)
    requires c == 'R' as int || c == 'P' as int
    requires AllWhitespace(ws)
    requires |coords| > 0 && !IsAsciiWhitespace(coords[0]) && coords[0] != 'x' as int
    ensures CommentOfType(c, ws + coords) == Err(InvalidCoordinates)
  {
    SkipWsSplit(ws, coords);
  }

  /** `#r` reads a nameless rule after leading whitespace, and the whitespace after it. */
  lemma RuleCommentLine(ws: seq<u8>, rule: seq<u8>, rules: RuleSets.RuleSet, rest: seq<u8>)
    requires AllWhitespace(ws)
    requires |rule| > 0 && !IsAsciiWhitespace(rule[0])
    requires RuleSets.ParseNamelessRule(rule) == Ok((rules, rest))
    ensures |rest| > 0
    ensures CommentOfType('r' as int, ws + rule) == Ok((Some(RuleLine(rules)), WsSuffix(rest)))
  {
    SkipWsSplit(ws, rule);
  }

  /** Any other letter after `#` is refused. */
  lemma UnknownCommentType(b: u8, tail: seq<u8>)
    requires b !in {'C' as int, 'c' as int, 'N' as int, 'O' as int, 'R' as int, 'P' as int, 'r' as int}
    ensures CommentOfType(b, tail) == Err(UnrecognizedCommentType(b))
  {
  }

  /* ----- coordinates and the header, case by case ----- */

  /** `<letter> = ` with any whitespace around the `=`. */
  lemma AssignedSplit(letter: u8, ws1: seq<u8>, ws2: seq<u8>, tail: seq<u8>)
    requires AllWhitespace(ws1) && AllWhitespace(ws2)
    requires |tail| > 0 && !IsAsciiWhitespace(tail[0])
    requires !IsAsciiWhitespace(letter)
    ensures Assigned(letter, [letter] + (ws1 + (['=' as int] + (ws2 + tail)))) == Ok(tail)
  {
    SkipWsSplit(ws1, ['=' as int] + (ws2 + tail));
    SkipWsSplit(ws2, tail);
  }

  /** The x value runs up to the first `,`. */
  lemma XValueSplit(xs: seq<u8>, x: int, tail: seq<u8>)
    requires |xs| > 0 && forall k :: 0 <= k < |xs| ==> xs[k] != ',' as int
    requires Convert(xs, I128_MIN, I128_MAX) == Ok(x)
    ensures XValue(xs + ([',' as int] + tail)) == Ok((x, tail))
  {
    assert xs + ([',' as int] + tail) == xs + [',' as int] + tail;
    TakeWithSplit(',' as int, xs, tail);
  }

  /** The y value runs up to the first `,` or line feed. */
  lemma YValueSplit(ys: seq<u8>, y: int, tail: seq<u8>)
    requires |ys| > 0 && forall k :: 0 <= k < |ys| ==> !IsCoordEnd(ys[k])
    requires Convert(ys, I128_MIN, I128_MAX) == Ok(y)
    requires |tail| > 0 && IsCoordEnd(tail[0])
    ensures YValue(ys + tail) == Ok((y, tail))
  {
    TakeUntilRoundTrip(IsCoordEnd, ys, tail);
  }

  /**
   * `x = <x>, y = <y>` reads as the two values, and leaves the `,` or line
   * feed that ends `y`.
   */
  lemma CoordinatesSplit(xs: seq<u8>, x: int, ys: seq<u8>, y: int, tail: seq<u8>)
    requires |xs| > 0 && !IsAsciiWhitespace(xs[0]) && forall k :: 0 <= k < |xs| ==> xs[k] != ',' as int
    requires |ys| > 0 && !IsAsciiWhitespace(ys[0]) && forall k :: 0 <= k < |ys| ==> !IsCoordEnd(ys[k])
    requires Convert(xs, I128_MIN, I128_MAX) == Ok(x) && Convert(ys, I128_MIN, I128_MAX) == Ok(y)
    requires |tail| > 0 && IsCoordEnd(tail[0])
    ensures ReadCoordinates(Spaced('x' as int, xs + ([',' as int] + ([' ' as int] + Spaced('y' as int, ys + tail)))))
         == Ok(((x, y), tail))
  {
    var b3 := Spaced('y' as int, ys + tail);
    var sp: seq<u8> := [' ' as int];
    var b2 := sp + b3;
    var comma: seq<u8> := [',' as int];
    XHalf(xs, x, b2);
    YHalf(ys, y, tail);
    CoordinatesSteps(Spaced('x' as int, xs + (comma + b2)), xs + (comma + b2), b2, b3, ys + tail, x, y, tail);
  }

  /** `x = <x>,` and the value of `x`. */
  lemma XHalf(xs: seq<u8>, x: int, b2: seq<u8>)
    requires |xs| > 0 && !IsAsciiWhitespace(xs[0]) && forall k :: 0 <= k < |xs| ==> xs[k] != ',' as int
    requires Convert(xs, I128_MIN, I128_MAX) == Ok(x)
    ensures Assigned('x' as int, Spaced('x' as int, xs + ([',' as int] + b2))) == Ok(xs + ([',' as int] + b2))
    ensures XValue(xs + ([',' as int] + b2)) == Ok((x, b2))
  {
    var sp: seq<u8> := [' ' as int];
    AssignedSplit('x' as int, sp, sp, xs + ([',' as int] + b2));
    XValueSplit(xs, x, b2);
  }

  /** ` y = <y>` up to the `,` or line feed, and the value of `y`. */
  lemma YHalf(ys: seq<u8>, y: int, tail: seq<u8>)
    requires |ys| > 0 && !IsAsciiWhitespace(ys[0]) && forall k :: 0 <= k < |ys| ==> !IsCoordEnd(ys[k])
    requires Convert(ys, I128_MIN, I128_MAX) == Ok(y)
    requires |tail| > 0 && IsCoordEnd(tail[0])
    ensures SkipWs([' ' as int] + Spaced('y' as int, ys + tail)) == Ok(Spaced('y' as int, ys + tail))
    ensures Assigned('y' as int, Spaced('y' as int, ys + tail)) == Ok(ys + tail)
    ensures YValue(ys + tail) == Ok((y, tail))
  {
    var sp: seq<u8> := [' ' as int];
    SkipWsSplit(sp, Spaced('y' as int, ys + tail));
    AssignedSplit('y' as int, sp, sp, ys + tail);
    YValueSplit(ys, y, tail);
  }

  /** `read_coordinates` is its five steps in a row. */
  lemma CoordinatesSteps(bytes: seq<u8>, b1: seq<u8>, b2: seq<u8>, b3: seq<u8>, b4: seq<u8>, x: int, y: int, tail: seq<u8>)
    requires Assigned('x' as int, bytes) == Ok(b1) && XValue(b1) == Ok((x, b2)) && SkipWs(b2) == Ok(b3)
    requires Assigned('y' as int, b3) == Ok(b4) && YValue(b4) == Ok((y, tail))
    ensures ReadCoordinates(bytes) == Ok(((x, y), tail))
  {
  }

  /** `<letter> = <rest>` as the format writes it, with single spaces. */
  function Spaced(letter: u8, rest: seq<u8>): (r: seq<u8>)
    ensures |r| == 4 + |rest|
  {
    [letter] + ([' ' as int] + (['=' as int] + ([' ' as int] + rest)))
  }

  /** The coordinates `x = 1, y = 1` followed by a line feed. */
  lemma CoordinatesExample()
    ensures ReadCoordinates(Bytes("x = 1, y = 1\n")) == Ok(((1, 1), ['\n' as int]))
  {
    var one: seq<u8> := ['1' as int];
    assert Bytes("x = 1, y = 1\n")
        == Spaced('x' as int, one + ([',' as int] + ([' ' as int] + Spaced('y' as int, one + ['\n' as int]))));
    ConvertDigits(one, I128_MIN, I128_MAX);
    CoordinatesSplit(one, 1, one, 1, ['\n' as int]);
  }

  /** A header ending at its line feed has no rule. */
  lemma HeaderWithoutRule(bytes: seq<u8>, xy: (int, int), tail: seq<u8>)
    requires ReadCoordinates(bytes) == Ok((xy, ['\n' as int] + tail))
    ensures ReadLineHeader(bytes) == Ok((Some(HeaderLine(xy.0, xy.1, None)), tail))
  {
    assert (['\n' as int] + tail)[1..] == tail;
  }

  /** `rule = <rule>` after the coordinates' `,` reads the rule; what follows the rule is left. */
  lemma RuleClauseSplit(rule: seq<u8>)
    requires |rule| > 0 && !IsAsciiWhitespace(rule[0])
    ensures RuleClause([' ' as int] + (RULE_WORD + [' ' as int, '=' as int, ' ' as int] + rule)) == RuleSets.ParseRule(rule)
  {
    var sp: seq<u8> := [' ' as int];
    var b4: seq<u8> := ['=' as int] + (sp + rule);
    var b2 := sp + b4;
    assert RULE_WORD + [' ' as int, '=' as int, ' ' as int] + rule == RULE_WORD + b2;
    SkipWsSplit(sp, RULE_WORD + b2);
    ExpectSliceSplit(RULE_WORD, b2);
    SkipWsSplit(sp, b4);
    SkipWsSplit(sp, rule);
  }

  /** A header whose coordinates are followed by `,` and a rule clause carries that clause's rule. */
  lemma HeaderWithRule(bytes: seq<u8>, xy: (int, int), clause: seq<u8>)
    requires ReadCoordinates(bytes) == Ok((xy, [',' as int] + clause))
    ensures ReadLineHeader(bytes) == match RuleClause(clause)
      case Err(e) => Err(e)
      case Ok((rules, rest)) => Ok((Some(HeaderLine(xy.0, xy.1, Some(rules))), rest))
  {
    assert ([',' as int] + clause)[1..] == clause;
  }

  /** After the coordinates' `,`, anything but `rule` is refused. */
  lemma NotARuleClause(other: seq<u8>)
    requires |other| > 0 && !IsAsciiWhitespace(other[0]) && !(RULE_WORD <= other)
    ensures RuleClause([' ' as int] + other) == Err(ExpectedSlice(RULE_WORD))
  {
    SkipWsSplit([' ' as int], other);
  }

  /** The header of a Life pattern, `x = 3, y = 3, rule = B3/S23`, leaves its line feed. */
  lemma ConwayHeader(bytes: seq<u8>)
    requires bytes == Bytes("x = 3, y = 3, rule = B3/S23\n")
    ensures ReadLineHeader(bytes) == Ok((Some(HeaderLine(3, 3, Some(RuleSets.B3S23))), ['\n' as int]))
  {
    var rule := Bytes("B3/S23\n");
    var clause := [' ' as int] + (RULE_WORD + [' ' as int, '=' as int, ' ' as int] + rule);
    ConwayHeaderCoordinates(bytes, clause);
    HeaderWithRule(bytes, (3, 3), clause);
    RuleClauseSplit(rule);
    ConwayRule();
  }

  lemma ConwayHeaderCoordinates(bytes: seq<u8>, clause: seq<u8>)
    requires bytes == Bytes("x = 3, y = 3, rule = B3/S23\n")
    requires clause == [' ' as int] + (RULE_WORD + [' ' as int, '=' as int, ' ' as int] + Bytes("B3/S23\n"))
    ensures ReadCoordinates(bytes) == Ok(((3, 3), [',' as int] + clause))
  {
    var three: seq<u8> := ['3' as int];
    ConwayHeaderText(bytes, clause);
    ConvertDigits(three, I128_MIN, I128_MAX);
    CoordinatesSplit(three, 3, three, 3, [',' as int] + clause);
  }

  lemma ConwayHeaderText(bytes: seq<u8>, clause: seq<u8>)
    requires bytes == Bytes("x = 3, y = 3, rule = B3/S23\n")
    requires clause == [' ' as int] + (RULE_WORD + [' ' as int, '=' as int, ' ' as int] + Bytes("B3/S23\n"))
    ensures bytes == Spaced('x' as int, ['3' as int] + ([',' as int] + ([' ' as int]
                       + Spaced('y' as int, ['3' as int] + ([',' as int] + clause)))))
  {
  }

  lemma ConwayRule()
    ensures RuleSets.ParseRule(Bytes("B3/S23\n")) == Ok((RuleSets.B3S23, ['\n' as int]))
  {
    assert Bytes("B3/S23\n") == [('B' as int) as u8] + ['3' as int] + ['/' as int, 'S' as int] + ['2' as int, '3' as int] + ['\n' as int];
    RuleSets.ParseRuleRoundTrip('B' as int, ['3' as int], 'S' as int, ['2' as int, '3' as int], ['\n' as int]);
    RuleSets.DigitMaskExamples();
  }

  /* ----- the encoded cells, case by case ----- */

  /** The cells moved by `(dx, dy)`. */
  function Shifted(cells: seq<(int, int)>, dx: int, dy: int): (r: seq<(int, int)>)
    ensures |r| == |cells|
    ensures forall i :: 0 <= i < |cells| ==> r[i] == (cells[i].0 + dx, cells[i].1 + dy)
  {
    seq(|cells|, i requires 0 <= i < |cells| => (cells[i].0 + dx, cells[i].1 + dy))
  }

  lemma ShiftedAppend(a: seq<(int, int)>, b: seq<(int, int)>, dx: int, dy: int)
    ensures Shifted(a + b, dx, dy) == Shifted(a, dx, dy) + Shifted(b, dx, dy)
  {
  }

  /**
   * The offset only moves the cells: decoding at `(dx, dy)` reports the
   * cells decoded at `(0, 0)`, each moved by `(dx, dy)`, and ends the same way.
   */
  lemma {:induction false} DecodeShift(bytes: seq<u8>, dx: int, dy: int, x: int, y: int, rep: nat)
    ensures Decode(bytes, dx, dy, x, y, rep).result == Decode(bytes, 0, 0, x, y, rep).result
    ensures Decode(bytes, dx, dy, x, y, rep).cells == Shifted(Decode(bytes, 0, 0, x, y, rep).cells, dx, dy)
    decreases |bytes|
  {
    if bytes == [] {
    } else {
      var b := bytes[0];
      if b == '\n' as int {
        DecodeShift(bytes[1..], dx, dy, x, y, rep);
      } else if b == '!' as int {
      } else if b == 'b' as int {
        DecodeShift(bytes[1..], dx, dy, x + rep, y, 1);
      } else if b == 'o' as int {
        DecodeShift(bytes[1..], dx, dy, x + rep, y, 1);
        ShiftedAppend(Run(x, y, rep), Decode(bytes[1..], 0, 0, x + rep, y, 1).cells, dx, dy);
        assert Run(dx + x, dy + y, rep) == Shifted(Run(0 + x, 0 + y, rep), dx, dy);
      } else if b == '$' as int {
        DecodeShift(bytes[1..], dx, dy, 0, y - rep, 1);
      } else if IsAsciiDigit(b) {
        var (n, rest) := SplitBefore(NotDigit, bytes);
        if n.Some? && PeekOne(rest) != Some('\n' as int) && Convert(n.value, 0, U64_MAX).Ok? {
          DecodeShift(rest, dx, dy, x, y, Convert(n.value, 0, U64_MAX).value);
        }
      }
    }
  }

  /**
   * Rows go downwards and columns start again from 0 at each `$`: every
   * reported cell lies right of the offset's column and no higher than the
   * row decoding started on.
   */
  lemma {:induction false} DecodeBounds(bytes: seq<u8>, dx: int, dy: int, x: int, y: int, rep: nat)
    requires x >= 0
    ensures forall c :: c in Decode(bytes, dx, dy, x, y, rep).cells ==> dx <= c.0 && c.1 <= dy + y
    decreases |bytes|
  {
    if bytes == [] {
    } else {
      var b := bytes[0];
      if b == '\n' as int {
        DecodeBounds(bytes[1..], dx, dy, x, y, rep);
      } else if b == '!' as int {
      } else if b == 'b' as int {
        DecodeBounds(bytes[1..], dx, dy, x + rep, y, 1);
      } else if b == 'o' as int {
        DecodeBounds(bytes[1..], dx, dy, x + rep, y, 1);
      } else if b == '$' as int {
        DecodeBounds(bytes[1..], dx, dy, 0, y - rep, 1);
      } else if IsAsciiDigit(b) {
        var (n, rest) := SplitBefore(NotDigit, bytes);
        if n.Some? && PeekOne(rest) != Some('\n' as int) && Convert(n.value, 0, U64_MAX).Ok? {
          DecodeBounds(rest, dx, dy, x, y, Convert(n.value, 0, U64_MAX).value);
        }
      }
    }
  }

  /** A run count sets the run length of the token after it. */
  lemma DecodeCount(ds: seq<u8>, tail: seq<u8>, dx: int, dy: int, x: int, y: int, rep: nat)
    requires |ds| > 0 && AllDigits(ds) && DecimalValue(ds) <= U64_MAX
    requires |tail| > 0 && !IsAsciiDigit(tail[0]) && tail[0] != '\n' as int
    ensures Decode(ds + tail, dx, dy, x, y, rep) == Decode(tail, dx, dy, x, y, DecimalValue(ds))
  {
    TakeUntilRoundTrip(NotDigit, ds, tail);
    ConvertDigits(ds, 0, U64_MAX);
  }

  /** A run count may not be followed directly by a line feed. */
  lemma DecodeCountCutOff(ds: seq<u8>, tail: seq<u8>, dx: int, dy: int, x: int, y: int, rep: nat)
    requires |ds| > 0 && AllDigits(ds)
    ensures Decode(ds + (['\n' as int] + tail), dx, dy, x, y, rep) == Emitted(Err(RepeatCutOff), [])
  {
    TakeUntilRoundTrip(NotDigit, ds, ['\n' as int] + tail);
  }

  /** A run count that runs to the end of the input reaches the source's `unreachable!`. */
  lemma DecodeCountAtEnd(ds: seq<u8>, dx: int, dy: int, x: int, y: int, rep: nat)
    requires |ds| > 0 && AllDigits(ds)
    ensures Decode(ds, dx, dy, x, y, rep) == Emitted(Err(Panicked), [])
  {
    assert FirstWhere(NotDigit, ds) == |ds|;
  }

  /** Any byte that is not a token, a digit or a line feed is refused. */
  lemma DecodeUnrecognized(b: u8, tail: seq<u8>, dx: int, dy: int, x: int, y: int, rep: nat)
    requires b !in {'\n' as int, '!' as int, 'b' as int, 'o' as int, '$' as int} && !IsAsciiDigit(b)
    ensures Decode([b] + tail, dx, dy, x, y, rep) == Emitted(Err(UnrecognizedCharacter(b)), [])
  {
    assert ([b] + tail)[0] == b;
  }

  /** `!` ends the pattern: nothing after it is read. */
  lemma DecodeStops(tail: seq<u8>, dx: int, dy: int, x: int, y: int, rep: nat)
    ensures Decode(['!' as int] + tail, dx, dy, x, y, rep) == Emitted(Ok(()), [])
  {
  }

  /** The glider `bo$2bo$3o!`, read from the top row down. */
  lemma Glider(bytes: seq<u8>)
    requires bytes == Bytes("bo$2bo$3o!")
    ensures Decode(bytes, 0, 0, 0, 0, 1) == Emitted(Ok(()), [(1, 0), (2, -1), (0, -2), (1, -2), (2, -2)])
  {
    var two: seq<u8> := ['2' as int];
    var three: seq<u8> := ['3' as int];
    assert DecimalValue(two) == 2 && DecimalValue(three) == 3;
    // the last row: `3o!`
    assert bytes[8..] == ['o' as int, '!' as int];
    assert Decode(bytes[9..], 0, 0, 3, -2, 1) == Emitted(Ok(()), []);
    assert Run(0, -2, 3) == [(0, -2), (1, -2), (2, -2)];
    assert Decode(bytes[8..], 0, 0, 0, -2, 3) == Emitted(Ok(()), [(0, -2), (1, -2), (2, -2)]);
    assert bytes[7..] == three + bytes[8..];
    DecodeCount(three, bytes[8..], 0, 0, 0, -2, 1);
    // the middle row: `2bo$`
    assert Decode(bytes[6..], 0, 0, 3, -1, 1) == Emitted(Ok(()), [(0, -2), (1, -2), (2, -2)]);
    assert Decode(bytes[5..], 0, 0, 2, -1, 1) == Emitted(Ok(()), [(2, -1), (0, -2), (1, -2), (2, -2)]);
    assert Decode(bytes[4..], 0, 0, 0, -1, 2) == Emitted(Ok(()), [(2, -1), (0, -2), (1, -2), (2, -2)]);
    assert bytes[3..] == two + bytes[4..];
    DecodeCount(two, bytes[4..], 0, 0, 0, -1, 1);
    // the first row: `bo$`
    assert Decode(bytes[2..], 0, 0, 2, 0, 1) == Emitted(Ok(()), [(2, -1), (0, -2), (1, -2), (2, -2)]);
    assert Decode(bytes[1..], 0, 0, 1, 0, 1) == Emitted(Ok(()), [(1, 0), (2, -1), (0, -2), (1, -2), (2, -2)]);
  }

  /** Without `!` the input ends too early, after the cells already reported. */
  lemma MissingEnd(bytes: seq<u8>)
    requires bytes == Bytes("2o")
    ensures Decode(bytes, 0, 0, 0, 0, 1) == Emitted(Err(UnexpectedEnd), [(0, 0), (1, 0)])
  {
    var two: seq<u8> := ['2' as int];
    assert DecimalValue(two) == 2;
    assert bytes == two + bytes[1..];
    DecodeCount(two, bytes[1..], 0, 0, 0, 0, 1);
    assert Run(0, 0, 2) == [(0, 0), (1, 0)];
  }

  /* ----- the whole file ----- */

  /**
   * The comment loop only adds what is missing: a name, author or offset
   * that is already set comes out unchanged. It stops at the first line
   * that is not a comment line, which it leaves unread.
   */
  lemma {:induction false} CommentsKeep(bytes: seq<u8>, file: RleFile)
    requires Comments(bytes, file).Ok?
    ensures file.name.Some? ==> Comments(bytes, file).value.0.name == file.name
    ensures file.author.Some? ==> Comments(bytes, file).value.0.author == file.author
    ensures file.offset.Some? ==> Comments(bytes, file).value.0.offset == file.offset
    ensures |Comments(bytes, file).value.1| <= |bytes|
    ensures ReadLineComment(Comments(bytes, file).value.1) == Ok((None, Comments(bytes, file).value.1))
    decreases |bytes|
  {
    var read := ReadLineComment(bytes).value;
    if read.0.Some? {
      var file' := AddLine(file, read.0.value).value;
      assert Comments(bytes, file) == Comments(read.1, file');
      AddLineKeeps(file, read.0.value);
      CommentsKeep(read.1, file');
    }
  }

  /** One line applied to the file keeps a name, author or offset that is already set. */
  lemma AddLineKeeps(file: RleFile, line: CommentLine)
    requires AddLine(file, line).Ok?
    ensures file.name.Some? ==> AddLine(file, line).value.name == file.name
    ensures file.author.Some? ==> AddLine(file, line).value.author == file.author
    ensures file.offset.Some? ==> AddLine(file, line).value.offset == file.offset
  {
  }

  /** A second name, author or offset line is refused; a rule line replaces the rule set. */
  lemma CommentLineAdded(bytes: seq<u8>, file: RleFile, line: CommentLine, rest: seq<u8>)
    requires ReadLineComment(bytes) == Ok((Some(line), rest))
    ensures line.Name? && file.name.Some? ==> Comments(bytes, file) == Err(DuplicateName)
    ensures line.Author? && file.author.Some? ==> Comments(bytes, file) == Err(DuplicateAuthor)
    ensures line.Offset? && file.offset.Some? ==> Comments(bytes, file) == Err(DuplicateOffset)
    ensures line.RuleLine? ==> Comments(bytes, file) == Comments(rest, file.(rules := line.rules))
    ensures line.Comment? ==> Comments(bytes, file) == Comments(rest, file)
  {
  }

  /** Two name lines in a row: the second is refused. */
  lemma TwoNames(bytes: seq<u8>, file: RleFile, a: seq<u8>, rest: seq<u8>, b: seq<u8>, rest2: seq<u8>)
    requires file.name.None?
    requires ReadLineComment(bytes) == Ok((Some(Name(a)), rest))
    requires ReadLineComment(rest) == Ok((Some(Name(b)), rest2))
    ensures Comments(bytes, file) == Err(DuplicateName)
  {
    CommentLineAdded(rest, file.(name := Some(a)), Name(b), rest2);
  }

  /**
   * Without comment lines or a header, the file has the defaults: no name,
   * no author, no offset, Conway's rule, and the cells are read from `(0, 0)`.
   */
  lemma NoPreamble(bytes: seq<u8>)
    requires |bytes| > 0 && bytes[0] != '#' as int && bytes[0] != 'x' as int
    ensures Read(bytes).cells == Decode(bytes, 0, 0, 0, 0, 1).cells
    ensures Read(bytes).result.Ok? <==> Decode(bytes, 0, 0, 0, 0, 1).result.Ok?
    ensures Read(bytes).result.Ok? ==> Read(bytes).result.value == DEFAULT_FILE
    ensures DEFAULT_FILE.rules == RuleSets.B3S23
  {
  }

  /**
   * The header's coordinates become the offset the cells are read at; a
   * rule given in the header is parsed but not kept.
   */
  lemma HeaderOffset(bytes: seq<u8>, file: RleFile, b1: seq<u8>, h: HeaderLine, b2: seq<u8>)
    requires Comments(bytes, DEFAULT_FILE) == Ok((file, b1))
    requires file.offset.None?
    requires ReadLineHeader(b1) == Ok((Some(h), b2))
    ensures Read(bytes).cells == Decode(b2, h.x, h.y, 0, 0, 1).cells
    ensures Read(bytes).result.Ok? <==> Decode(b2, h.x, h.y, 0, 0, 1).result.Ok?
    ensures Read(bytes).result.Ok? ==> Read(bytes).result.value == file.(offset := Some((h.x, h.y)))
  {
  }

  /** A header after a `#R` or `#P` offset defines the offset a second time. */
  lemma HeaderAfterOffset(bytes: seq<u8>, file: RleFile, b1: seq<u8>, h: HeaderLine, b2: seq<u8>)
    requires Comments(bytes, DEFAULT_FILE) == Ok((file, b1))
    requires file.offset.Some?
    requires ReadLineHeader(b1) == Ok((Some(h), b2))
    ensures Read(bytes) == Emitted(Err(DuplicateOffset), [])
  {
  }

  /** Without a header, the cells are read at the offset of the comment lines, `(0, 0)` if none. */
  lemma NoHeader(bytes: seq<u8>, file: RleFile, b1: seq<u8>)
    requires Comments(bytes, DEFAULT_FILE) == Ok((file, b1))
    requires ReadCoordinates(b1).Err? && ReadCoordinates(b1).error != Panicked
    ensures file.offset.Some? ==> Read(bytes).cells == Decode(b1, file.offset.value.0, file.offset.value.1, 0, 0, 1).cells
    ensures file.offset.None? ==> Read(bytes).cells == Decode(b1, 0, 0, 0, 0, 1).cells
    ensures Read(bytes).result.Ok? ==> Read(bytes).result.value == file
  {
  }

  /** A header cut short inside its coordinates panics, and the whole read stops with nothing reported. */
  lemma HeaderPanics(bytes: seq<u8>, file: RleFile, b1: seq<u8>)
    requires Comments(bytes, DEFAULT_FILE) == Ok((file, b1))
    requires ReadCoordinates(b1) == Err(Panicked)
    ensures Read(bytes) == Emitted(Err(Panicked), [])
  {
  }

  /** A lone `x` is a header cut short after its letter: `take_ws` meets an empty slice. */
  lemma LoneXPanics()
    ensures ReadCoordinates(['x' as int]) == Err(Panicked)
    ensures ReadLineHeader(['x' as int]) == Err(Panicked)
    ensures Read(['x' as int]) == Emitted(Err(Panicked), [])
  {
    assert ReadLineComment(['x' as int]) == Ok((None, ['x' as int]));
  }

  /** `#R` and `#P` read their line with `OffsetOf`. */
  lemma OffsetDispatch(c: u8, tail: seq<u8>)
    requires c == 'R' as int || c == 'P' as int
    ensures CommentOfType(c, tail) == OffsetOf(tail)
  {
  }

  /** `#R` (or `#P`) followed by a lone `x` panics in the same place. */
  lemma OffsetPanics(c: u8, tail: seq<u8>)
    requires c == 'R' as int || c == 'P' as int
    requires tail == ['x' as int]
    ensures ReadLineComment(['#' as int, c] + tail) == Err(Panicked)
  {
    CommentType(c, tail);
    OffsetDispatch(c, tail);
    LoneXPanics();
    assert SkipWs(tail) == Ok(tail);
  }
}
