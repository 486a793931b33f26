# hashlife: a Dafny model of its rule tables, cell buffers, quadtrees, RLE reader and Braille camera

The repository is a Game of Life / hashlife engine in an unfinished state. Its memoised
result step is still `todo!()`, so this project models the self-contained, sequential parts
around it and proves what they do. Each part is modelled as the code is written, including
its quirks.

| file | module | models |
|---|---|---|
| `base.dfy` | `Base` | shared `Option`, `Result`, `Outcome` (`Done`, `Panic`, `Diverge`), byte and `usize` ranges, powers of two |
| `rule_set.dfy` | `RuleSets` | `src/rule_set.rs`: packed birth and survival sets, Kernighan popcount, the 4x4 to 2x2 step `next`, the 65536-entry table, the `b3/s23` and `3/23` parsers, `bytes_to_num` |
| `rules.dfy` | `Rules` | `src/rules.rs`: the `u32` rule with births in the upper half, and its `FromStr` state machine |
| `cell.dfy` | `Cells` | `src/cell.rs`: the packed cell with its leaf flag in bit 63 of `nw`, the two wrapping hashes, leaf masking, `compute_leaf_res`'s effect on the cell, and the grandchild selections |
| `cell_buf.dfy` | `CellBufs` | `src/main.rs`: the open-addressing `CellBuf` with quadratic probing, `move_cell`, `grow`, and `is_prime`/`next_prime` |
| `world.dfy` | `Worlds` | `src/world.rs`: `World::new`, `grow(0)`, `insert_cell`, `grow_buf`, `copy_children`, `next_prime` |
| `quadtree.dfy` | `QuadTrees` | `src/quadtree/mod.rs`: the pointer `Node`, its grandchild selections, `next_gen` tiling, centred `grow` and the `set` descent |
| `qt.dfy` | `Qts` | `src/qt/mod.rs`: `alive`, `dead`, `QuadTree::new` and `set` |
| `quadtree_node.dfy` | `IndexNodes` | `src/quadtree/node.rs`: `Node::empty` and the `Debug` text with its `usize::MAX` to -1 mapping |
| `partition.dfy` | `Partitions` | `src/quadtree/util.rs`: `partition_in_place` over an array, and the file's unit tests as lemmas |
| `parse_util.dfy` | `ParseUtil` | `src/parse_util.rs`: the byte-slice combinators, with `convert` as a decimal integer parser |
| `parse_rle.dfy` | `ParseRle` | `src/parse_rle.rs`: `read_rle`, comment lines, the header, coordinates and the run-length encoding |
| `braille.dfy` | `Braille` | the pixel-index arithmetic, dot weights and text layout behind the camera |
| `camera.dfy` | `Cameras`, `Drawing` | `src/camera.rs` (and `src/render.rs`): the `Camera` class with its drawing and rendering, plus `draw_rule`, `draw_leaf` and `draw_cell` |

Conventions:

- `usize` is 64 bits.
- The `u16` and `u32` rule words are `bv16` and `bv32`.
- Cell fields are integers in `[0, 2^64)`, and `Wrapping` arithmetic is written out modulo 2^64.
- A failed `assert!`, an out-of-bounds index, `unreachable!`, an unsigned underflow or a `usize` overflow is the outcome `Panic`, as with Rust's overflow checks on. A panic is never caught: it ends the whole call, even inside a `let Ok(..) = .. else` that catches errors.
- A loop or recursion that may never end takes a `fuel` bound, and `Diverge` means the bound ran out while that code was still going.
- Slices are `seq<u8>`, and text is a sequence of integer codepoints.
- The RLE callback becomes the sequence of coordinates it is called with.
- Code that mutates in place is modelled imperatively: `Camera`, `CellBuf`, `World`, the array in `partition_in_place`, and the loops in the rule code and the parsers. Each method is proved against a specification function, and the properties are lemmas about that function.

Quirks of the code, each modelled as written and stated by a lemma:

- `is_prime` tests `i % n` with `i < n`, so it never returns false. Hence `next_prime(n) == n | 1` for every `n` up to `(2^32 - 1)^2`; above that, `i * i` overflows `usize` and both panic (`CellBufs.IsPrime`, `CellBufs.NextPrime`). The tables here never reach that size: `CellBuf` asks for `next_prime(20_002)`, and `World::grow_buf` panics at its `LEAF_MASK` assertion for any such size anyway.
- `mask_leaf` uses `&=`, so `compute_leaf_res` leaves `nw == 0` and the cell stops being a leaf. Its table indices are always 0 (`Cells.MaskAfterUnmask`, `Cells.CellSlot.ComputeLeafRes`).
- `CellBuf::grow` builds its larger table and drops it. The buffer is unchanged and only `root` moves (`CellBufs.CellBuf.Grow`).
- A void cell is a non-leaf whose children are all index 0. A copy that reaches one at index 0 recurses forever (`Worlds.VoidLoops`).
- `draw_square` and `draw_clear_square` demand `x < w - s` and `y < h - s`. A square touching the right or bottom edge therefore panics.
- `draw_outline` panics when exactly one of `w` and `h` is 0.
- `draw_cell` draws the `ne` child at the north-west offset and the `nw` child at the north-east offset, and likewise `se` and `sw` in the south.
- In the RLE reader, an empty `#C` line leaves its line feed behind, so it ends the comment lines and any `#N`, `#O` or `#R` line after it is not read as one (`ParseRle.EmptyCommentKeepsLineFeed`, `ParseRle.EmptyCommentEndsComments`).
- In the RLE reader, a `#N` or `#O` with blank text takes the next line as its text (`ParseRle.BlankNameLine`).
- The RLE reader refuses the bare form `#R x y`, because it expects `x = .., y = ..` (`ParseRle.PlainOffsetRefused`).
- In the RLE reader, a run count that runs to the end of input panics (`ParseRle.DecodeCountAtEnd`).
- In the RLE reader, a header or `#R` line cut short inside its coordinates (a lone `x`) reaches `take_ws` on an empty slice and panics, although the surrounding `let Ok(..) = .. else` would have caught an error (`ParseRle.LoneXPanics`, `ParseRle.OffsetPanics`).
- In `insert_buf`, the probe sum `h + i + i * i` overflows `usize` for large hashes and panics; the probing loop therefore never runs forever (`CellBufs.InsertBufTerminates`, `CellBufs.TopHashPanics`).
- In the RLE reader, the header's `rule = ..` is parsed and then dropped (`ParseRle.HeaderOffset`).
- `rules.rs`'s `FromStr` accepts the empty string and repeated digits (`Rules.EmptyRule`, `Rules.RepeatedDigit`).

## Model

A function that only computes a value has no row of its own: the row of the lemma about it says what it computes. `Cells.IsLeaf` is stated by `Cells.IsLeafTopBit`; `Cells.Hash`, `NodeHash` and `LeafHash` by the three `HashPolynomial` lemmas; `Cells.HCenter`, `VCenter` and `SuperCenter` by `HCenterIsCenter`, `VCenterIsCenter` and `SuperCenterIsCenterOfCenter`; `ParseRle.Read` by `ReadRle`, `NoPreamble`, `HeaderOffset` and `HeaderPanics`; `ParseRle.Decode` by `ReadEncoding`, `DecodeShift` and `DecodeBounds`; `ParseRle.RuleClause` by `RuleClauseSplit`; `Braille.XyFrom` and `XyTo` by `XyRoundTrip` and `XyFromTo`; `Braille.HexValue` by `HexValueIsDot`; `Braille.Layout` by `LayoutIsRows`; the five `QuadTrees` selections by `SelectionsAreWindows`; `CellBufs.ShouldGrow` by `CellBufs.CellBuf.Insert`.

| member | source | states |
|---|---|---|
| ParseRle.ReadCoordinates | src/parse_rle.rs:292-317 | on success both values are in the `i128` range and the rest is shorter than the input and starts with the `,` or line feed that ended `y`; input not starting with `x` fails, naming `x` |
| ParseRle.XValue | src/parse_rle.rs:298-301 | the x value is an `i128` read up to a `,`, which is consumed |
| ParseRle.YValue | src/parse_rle.rs:309-314 | the y value is an `i128` read up to a `,` or line feed, which is left |
| ParseRle.Assigned | src/parse_rle.rs:293-296 | a letter, whitespace, `=`, whitespace; input not starting with the letter fails, naming it |
| ParseRle.AssignedSplit | src/parse_rle.rs:293-296 | `<letter> = ` with any whitespace around the `=` is consumed up to the value |
| ParseRle.XValueSplit | src/parse_rle.rs:298-301 | the x value runs up to the first `,` |
| ParseRle.YValueSplit | src/parse_rle.rs:309-314 | the y value runs up to the first `,` or line feed |
| ParseRle.XHalf | src/parse_rle.rs:293-301 | `x = <x>,` reads the value of `x` |
| ParseRle.YHalf | src/parse_rle.rs:303-314 | ` y = <y>` reads the value of `y` up to the `,` or line feed |
| ParseRle.CoordinatesSteps | src/parse_rle.rs:292-317 | `read_coordinates` is its five steps in a row |
| ParseRle.CoordinatesSplit | src/parse_rle.rs:292-317 | `x = <x>, y = <y>` reads as the two values and leaves the `,` or line feed ending `y` |
| ParseRle.Spaced | src/parse_rle.rs:293-296 | `<letter> = <rest>` with single spaces is four bytes longer than the rest |
| ParseRle.CoordinatesExample | src/parse_rle.rs:319-326 | the source's own test: `x = 1, y = 1` followed by a line feed reads as `(1, 1)` |
| ParseRle.ReadLineComment | src/parse_rle.rs:92-162 | nothing is read exactly when the input does not start with `#`, and then the input is left as it is; a comment line read consumes something; a panic in the line's parser ends the read as `Panicked` |
| ParseRle.CommentOfType | src/parse_rle.rs:102-161 | a recognised comment type yields a line and does not lengthen the input; errors and panics of the line's parser are passed on |
| ParseRle.CommentOf | src/parse_rle.rs:104-108 | `#C` and `#c` give a comment line and do not lengthen the input |
| ParseRle.NameOf | src/parse_rle.rs:111-120 | `#N` gives a name line and does not lengthen the input |
| ParseRle.AuthorOf | src/parse_rle.rs:123-132 | `#O` gives an author line and does not lengthen the input |
| ParseRle.RestOfLine | src/parse_rle.rs:112-115 | the text of a name or author line does not lengthen the input |
| ParseRle.OffsetOf | src/parse_rle.rs:135-144 | `#R` and `#P` give an offset line and do not lengthen the input; a coordinate error becomes `InvalidCoordinates`, while a panic inside `read_coordinates` stays `Panicked` |
| ParseRle.RuleOf | src/parse_rle.rs:147-156 | `#r` gives a rule line and does not lengthen the input |
| ParseRle.HashAlone | src/parse_rle.rs:98-100 | `#` with nothing after it names no comment type |
| ParseRle.CommentType | src/parse_rle.rs:94-102 | after `#`, the next byte picks the kind of line |
| ParseRle.CommentLineSkipped | src/parse_rle.rs:104-108 | `#C` and `#c` with non-empty text skip their line, line feed included |
| ParseRle.EmptyCommentKeepsLineFeed | src/parse_rle.rs:104-108 | an empty `#C` or `#c` line consumes nothing, so its line feed stays in the input |
| ParseRle.EmptyCommentEndsComments | src/parse_rle.rs:29-33 | after an empty `#C` or `#c` line the comment loop stops at the line feed left behind, with the file as it was |
| ParseRle.RestOfLineSplit | src/parse_rle.rs:112-115 | the text of a line is what follows leading whitespace, up to the line feed, which is dropped |
| ParseRle.NameLine | src/parse_rle.rs:111-120 | `#N` takes the rest of its line after leading whitespace as the name |
| ParseRle.AuthorLine | src/parse_rle.rs:123-132 | `#O` takes the rest of its line after leading whitespace as the author |
| ParseRle.UnterminatedNameLine | src/parse_rle.rs:113-127 | a `#N` or `#O` line with no line feed after its text is refused as empty |
| ParseRle.BlankNameLine | src/parse_rle.rs:112-113 | `take_ws` also skips line feeds, so a `#N` line with no text takes the next line as the name |
| ParseRle.OffsetLine | src/parse_rle.rs:135-144 | `#R` and `#P` read coordinates after leading whitespace |
| ParseRle.PlainOffsetRefused | src/parse_rle.rs:136-139 | the plain form `#R <x> <y>` is refused: the offset must be written `x = .., y = ..` |
| ParseRle.RuleCommentLine | src/parse_rle.rs:147-156 | `#r` reads a nameless rule after leading whitespace and skips the whitespace after it |
| ParseRle.UnknownCommentType | src/parse_rle.rs:158-160 | any other letter after `#` is refused, naming the letter |
| ParseRle.ReadLineHeader | src/parse_rle.rs:170-206 | nothing is read exactly when `read_coordinates` returns an error, and then the input is left as it is; a panic inside `read_coordinates` is not caught and ends the read as `Panicked` |
| ParseRle.HeaderWithoutRule | src/parse_rle.rs:199-203 | a header ending at its line feed has no rule |
| ParseRle.RuleClauseSplit | src/parse_rle.rs:181-189 | ` rule = <rule>` after the coordinates' `,` reads the rule as `parse_rule` does |
| ParseRle.HeaderWithRule | src/parse_rle.rs:180-198 | a header whose coordinates are followed by `,` carries the rule of the clause after it, or its error |
| ParseRle.NotARuleClause | src/parse_rle.rs:183 | after the coordinates' `,` anything but `rule` is refused |
| ParseRle.ConwayHeader | src/parse_rle.rs:170-206 | `x = 3, y = 3, rule = B3/S23` reads as `(3, 3)` with Conway's rule and leaves its line feed |
| ParseRle.ConwayHeaderCoordinates | src/parse_rle.rs:292-317 | the coordinates of that header are `(3, 3)` and leave the rule clause |
| ParseRle.ConwayHeaderText | src/parse_rle.rs:292-317 | that header is the coordinates `3` and `3` in the spaced form, then the rule clause |
| ParseRle.ConwayRule | src/parse_rle.rs:188-189 | `B3/S23` parses to Conway's rule and leaves the line feed |
| ParseRle.Run | src/parse_rle.rs:250-252 | `rep` live cells in a row from column `x` on |
| ParseRle.ReadEncoding | src/parse_rle.rs:208-290 | the loop reports the cells and ends the way `Decode` describes |
| ParseRle.Shifted | src/parse_rle.rs:251 | each cell moved by `(dx, dy)` |
| ParseRle.ShiftedAppend | src/parse_rle.rs:251 | moving a concatenation is concatenating the moved parts |
| ParseRle.DecodeShift | src/parse_rle.rs:208-290 | the offset only moves the cells: decoding at `(dx, dy)` reports the cells decoded at `(0, 0)` each moved by `(dx, dy)`, and ends the same way |
| ParseRle.DecodeBounds | src/parse_rle.rs:236-268 | every reported cell is right of the offset's column and no higher than the starting row: rows go downwards and `$` restarts columns at 0 |
| ParseRle.DecodeCount | src/parse_rle.rs:271-283 | a run count sets the run length of the token after it |
| ParseRle.DecodeCountCutOff | src/parse_rle.rs:278-280 | a run count may not be followed directly by a line feed |
| ParseRle.DecodeCountAtEnd | src/parse_rle.rs:271-275 | a run count that runs to the end of the input reaches the source's `unreachable!` |
| ParseRle.DecodeUnrecognized | src/parse_rle.rs:285 | any byte that is not a token, a digit or a line feed is refused, naming the byte |
| ParseRle.DecodeStops | src/parse_rle.rs:233 | `!` ends the pattern, and nothing after it is read |
| ParseRle.Glider | src/parse_rle.rs:208-290 | the glider `bo$2bo$3o!` reports its five cells, row by row going down |
| ParseRle.MissingEnd | src/parse_rle.rs:222-224 | without `!` the input ends too early, after the cells already reported |
| ParseRle.ReadRle | src/parse_rle.rs:19-82 | the comment loop, the header and the encoding report the cells and end the way `Read` describes, panics included |
| ParseRle.CommentsKeep | src/parse_rle.rs:29-62 | the comment loop keeps a name, author or offset already set, and stops at the first line that is not a comment line, which it leaves unread |
| ParseRle.AddLineKeeps | src/parse_rle.rs:33-59 | one line applied to the file keeps a name, author or offset already set |
| ParseRle.CommentLineAdded | src/parse_rle.rs:33-61 | a second name, author or offset is refused; a rule line replaces the rule set; a comment changes nothing |
| ParseRle.TwoNames | src/parse_rle.rs:35-41 | of two name lines in a row, the second is refused |
| ParseRle.NoPreamble | src/parse_rle.rs:26-81 | without comment lines or a header the file has no name, author or offset and Conway's rule, and the cells are read from `(0, 0)` |
| ParseRle.HeaderOffset | src/parse_rle.rs:64-79 | the header's coordinates become the offset the cells are read at; the header's rule is parsed and dropped |
| ParseRle.HeaderAfterOffset | src/parse_rle.rs:66-70 | a header after a `#R` or `#P` offset defines the offset twice and is refused |
| ParseRle.NoHeader | src/parse_rle.rs:64-79 | when `read_coordinates` returns an error, there is no header and the cells are read at the offset of the comment lines, or `(0, 0)` |
| ParseRle.HeaderPanics | src/parse_rle.rs:64-65 | when `read_coordinates` panics on the text after the comment lines, `read_rle` ends with that panic and reports no cell |
| ParseRle.LoneXPanics | src/parse_rle.rs:292-294 | a lone `x` makes `read_coordinates`, `read_line_header` and `read_rle` panic at the `take_ws` after `x` |
| ParseRle.OffsetPanics | src/parse_rle.rs:135-139 | `#R` or `#P` followed by a lone `x` panics instead of failing with `Invalid coordinates` |
| ParseUtil.WsSuffix | src/parse_util.rs:8-20 | on a non-empty slice the result is a non-empty suffix; everything it skipped is whitespace; it starts with a non-whitespace byte, or the whole slice was whitespace and only its last byte is kept |
| ParseUtil.TakeWs | src/parse_util.rs:8-20 | the `for` loop over the slice returns the suffix `WsSuffix` describes; a caller must pass a non-empty slice |
| ParseUtil.SkipWs | src/parse_util.rs:8-20 | fails (a panic, from `bytes.len() - 1`) exactly on the empty slice, and is otherwise `WsSuffix` |
| ParseUtil.SkipWsSplit | src/parse_util.rs:8-20 | a run of whitespace followed by a non-whitespace byte is skipped exactly up to that byte |
| ParseUtil.TakeOne | src/parse_util.rs:23-29 | `None` exactly on the empty slice, which is then left as it is; otherwise the byte taken and the rest make up the input |
| ParseUtil.PeekOne | src/parse_util.rs:32-36 | the byte `take_1` would take, with nothing consumed |
| ParseUtil.SplitN | src/parse_util.rs:39-45 | `Some` exactly when `n` is at most the length; then the part has length `n` and part plus rest is the input; otherwise the input is left as it is |
| ParseUtil.PeekN | src/parse_util.rs:48-52 | the part `split_n` would split off, with nothing consumed |
| ParseUtil.Expect | src/parse_util.rs:55-65 | succeeds exactly when the first byte is `b`, and then drops just that byte; on failure the error names `b` and the byte found, or the end of input |
| ParseUtil.ExpectSlice | src/parse_util.rs:68-83 | succeeds exactly when `bs` is a prefix, and then `bs` plus the rest is the input; on failure the error names `bs` |
| ParseUtil.ExpectSliceSplit | src/parse_util.rs:68-83 | `expect_slice(bs, bs + tail)` returns `tail` |
| ParseUtil.FirstWhere | src/parse_util.rs:92-99 | the index where the loop stops: no earlier byte satisfies `p`, and the byte there does unless it is the length |
| ParseUtil.SplitBefore | src/parse_util.rs:87-109 | when it splits, head plus rest is the input, both are non-empty, no head byte satisfies `p` and the rest starts with one that does; when it does not, nothing is consumed and the input is empty, starts with a `p` byte, or has none |
| ParseUtil.TakeUntilFn | src/parse_util.rs:87-109 | the loop with its `break` returns what `SplitBefore` describes |
| ParseUtil.TakeUntilRoundTrip | src/parse_util.rs:87-109 | for a non-empty head with no `p` byte followed by a tail that starts with one, the split gives back exactly head and tail |
| ParseUtil.TakeUntilSplit | src/parse_util.rs:112-114 | the same round trip for `take_until(b, ..)` |
| ParseUtil.TakeUntilWsSplit | src/parse_util.rs:117-119 | the same round trip for `take_until_ws` |
| ParseUtil.TakeWithFn | src/parse_util.rs:123-134 | when it splits, the head is non-empty and free of `p` bytes, and the input is head, one terminating `p` byte and the rest; it returns `None` exactly on empty input, a `p` byte first or no `p` byte at all, and then consumes nothing |
| ParseUtil.TakeUntil | src/parse_util.rs:112-114 | the non-empty run of bytes before the first `b`, with the rest starting at that `b`; `None` exactly on empty input, a leading `b` or no `b` at all, consuming nothing |
| ParseUtil.TakeUntilWs | src/parse_util.rs:117-119 | the non-empty run of non-whitespace bytes before the first whitespace, with the rest starting there; `None` exactly on empty input, leading whitespace or no whitespace at all, consuming nothing |
| ParseUtil.TakeWith | src/parse_util.rs:137-145 | the non-empty run of bytes before the first `b`, with that `b` dropped; `None` exactly when `take_until` gives `None`, consuming nothing |
| ParseUtil.TakeWithSplit | src/parse_util.rs:137-145 | `take_with(b, head + [b] + tail)` returns `head` and `tail` when `head` holds no `b` |
| ParseUtil.DecimalValue | src/parse_util.rs:148-156 | the value of `k` decimal digits is below `10^k` |
| ParseUtil.Convert | src/parse_util.rs:148-156 | a success lies within the target type's range; every failure is the conversion error |
| ParseUtil.ConvertDigits | src/parse_util.rs:148-156 | digits, with or without a leading `+`, convert to their decimal value when it is in range |
| ParseUtil.ConvertNegative | src/parse_util.rs:148-156 | a `-` and digits convert to the negated value for a signed type in range, and fail for an unsigned type |
| ParseUtil.ConvertExampleUnsigned | src/parse_util.rs:148-156 | `"123"` converts to 123 as a `usize` |
| ParseUtil.ConvertExampleSigns | src/parse_util.rs:148-156 | `"-5"` is -5 for a signed type and an error for an unsigned one; `"+7"` is 7 |
| ParseUtil.ConvertExampleRejects | src/parse_util.rs:148-156 | the empty text, a lone `+` and trailing whitespace are rejected |
| RuleSets.PopCountUnfold | src/rule_set.rs:9-20 | the number of set bits is the low bit plus the count of the rest |
| RuleSets.Kernighan | src/rule_set.rs:14-17 | clearing the lowest set bit (`x &= x - 1`) removes exactly one set bit |
| RuleSets.CountBits | src/rule_set.rs:11-20 | Kernighan's loop returns the number of set bits of its argument |
| RuleSets.PopCountAnd | src/rule_set.rs:111 | masking keeps at most the bits of the mask |
| RuleSets.Shift | src/rule_set.rs:100-101 | the four shifts `next` visits are at most 5 |
| RuleSets.CentreX | src/rule_set.rs:100-108 | the column of a centre cell is 1 or 2 |
| RuleSets.CentreY | src/rule_set.rs:100-108 | the row of a centre cell is 1 or 2 |
| RuleSets.MasksAreMooreNeighbourhoods | src/rule_set.rs:6-7 | each shifted `NBHD_MASK` is the Moore neighbourhood of one centre cell, and the shifted `CELL_MASK` is that cell |
| RuleSets.MasksAt0 | src/rule_set.rs:6-7 | with no shift the masks pick the cell at column 2, row 2 and its eight neighbours |
| RuleSets.MasksAt1 | src/rule_set.rs:6-7 | shifted by 1, the cell at column 1, row 2 |
| RuleSets.MasksAt4 | src/rule_set.rs:6-7 | shifted by 4, the cell at column 2, row 1 |
| RuleSets.MasksAt5 | src/rule_set.rs:6-7 | shifted by 5, the cell at column 1, row 1 |
| RuleSets.CentreBitMask | src/rule_set.rs:107-108 | the centre bits are `CELL_MASK` moved by the shifts of `next` |
| RuleSets.CentreBitCell | src/rule_set.rs:100-108 | centre bit `i` is the cell at its column and row |
| RuleSets.ShiftUpKeepsCount | src/rule_set.rs:107 | shifting up a mask whose top bit is clear keeps its number of cells |
| RuleSets.NeighbourhoodSize | src/rule_set.rs:6 | every shifted neighbourhood mask has exactly eight cells |
| RuleSets.NeighbourCount | src/rule_set.rs:111 | a cell has at most eight live neighbours |
| RuleSets.Small | src/rule_set.rs:113 | a neighbour count below ten stays below ten as a bit position |
| RuleSets.LivesTest | src/rule_set.rs:110-121 | the test of `next` on a centre cell is the birth test for a dead cell and the survival test for a live one |
| RuleSets.NextStep | src/rule_set.rs:106-122 | one turn of the loop of `next` adds the rule's verdict on one centre cell to the result |
| RuleSets.TurnMask | src/rule_set.rs:108 | the cell mask of turn `i` is centre bit `i` |
| RuleSets.TurnCount | src/rule_set.rs:107-111 | turn `i` counts the live neighbours of centre cell `i`, at most eight |
| RuleSets.Next | src/rule_set.rs:97-125 | `next` returns the successor of the leaf under the rule's birth and survival sets |
| RuleSets.CentreCells | src/rule_set.rs:115-121 | four verdicts placed on the four centre bits can be read back, and no other bit is set |
| RuleSets.SuccessorChain | src/rule_set.rs:106-122 | the successor is the four verdicts on centre cells 0, 1, 2 and 3 in turn |
| RuleSets.SuccessorCells | src/rule_set.rs:97-125 | the successor sets only the centre 2x2, and sets a centre cell exactly when the rule says it lives |
| RuleSets.ComputeRules | src/rule_set.rs:87-95 | the table has 65536 entries and entry `c` is the successor of leaf `c` |
| RuleSets.New | src/rule_set.rs:55-67 | births and survivals read back as the arguments with bits past the 8th dropped, and no other bit of the packed rule is set |
| RuleSets.Births | src/rule_set.rs:69-71 | the birth set has no bit past the 8th |
| RuleSets.Survivals | src/rule_set.rs:73-75 | the survival set has no bit past the 8th |
| RuleSets.DocumentedRuleValues | src/rule_set.rs:23-39 | B3S23, b0s0 and b012345678s012345678 pack to the values in the documentation |
| RuleSets.BitOfSmall | src/rule_set.rs:23 | the set of B3 holds just 3; the set of S23 holds just 2 and 3 |
| RuleSets.ConwayRule | src/rule_set.rs:23 | under B3S23 a dead centre cell is born with exactly 3 neighbours and a live one survives with 2 or 3 |
| RuleSets.DigitPos | src/rule_set.rs:181 | a digit's bit position is at most 9 |
| RuleSets.HasDigitSnoc | src/rule_set.rs:176-182 | one more byte adds exactly its own digit to the set |
| RuleSets.OrBits | src/rule_set.rs:181 | `m | 1 << e` has exactly the bits of `m` and bit `e` |
| RuleSets.WithBit | src/rule_set.rs:181 | setting a bit adds it and keeps every other |
| RuleSets.DigitMaskBits | src/rule_set.rs:173-185 | bit `d` of the digit set is on exactly when some byte is the digit `d` |
| RuleSets.DigitsToNum | src/rule_set.rs:173-185 | succeeds exactly when every byte is a digit; any other byte fails |
| RuleSets.BytesToNum | src/rule_set.rs:173-185 | the loop computes what `DigitsToNum` describes |
| RuleSets.RuleTail | src/rule_set.rs:144-151 | on success the rest is a suffix of the input that starts with whitespace |
| RuleSets.SlashSurvivals | src/rule_set.rs:138-151 | the part of `parse_rule` after the births: on success the rest is a suffix of the input that starts with whitespace |
| RuleSets.ParseRule | src/rule_set.rs:129-152 | on success the rest is a suffix of the input that starts with whitespace |
| RuleSets.ParseNamelessRule | src/rule_set.rs:155-170 | on success the rest is a suffix of the input that starts with whitespace |
| RuleSets.RuleTailRoundTrip | src/rule_set.rs:144-151 | a survival list followed by whitespace converts both lists into the rule and leaves the whitespace |
| RuleSets.ParseRuleRoundTrip | src/rule_set.rs:129-152 | `b<births>/s<survivals>` (either case) followed by whitespace parses to `RuleSet::new` of the two digit sets |
| RuleSets.ParseNamelessRuleRoundTrip | src/rule_set.rs:155-170 | `<births>/<survivals>` followed by whitespace parses to `RuleSet::new` of the two digit sets, births first |
| RuleSets.RuleTailAccepted | src/rule_set.rs:144-151 | when the shared tail succeeds, the birth list is all digits, the input is a non-empty digit run followed by whitespace, and the result is `RuleSet::new` of the two digit sets with that whitespace-led rest |
| RuleSets.ParseRuleAccepted | src/rule_set.rs:129-152 | every input `parse_rule` accepts is `b|B`, a non-empty digit list, `/`, `s|S`, a non-empty digit list and whitespace, and the result is `RuleSet::new` of the two digit sets with the rest from that whitespace |
| RuleSets.ParseNamelessRuleAccepted | src/rule_set.rs:155-170 | every input `parse_nameless_rule` accepts is a non-empty digit list, `/`, a non-empty digit list and whitespace, and the result is `RuleSet::new` of the two digit sets with the rest from that whitespace |
| RuleSets.ParseRuleExample | src/rule_set.rs:129-152 | `b3/s23 ` parses to B3S23 and leaves the space |
| RuleSets.DigitMaskExamples | src/rule_set.rs:173-185 | `3` is the set 0x8 and `23` the set 0xC |
| RuleSets.ParseRuleEmptyBirths | src/rule_set.rs:134-136 | an empty birth list is refused, because `take_until` finds the `/` at once |
| RuleSets.ParseNamelessRuleEmptyBirths | src/rule_set.rs:156-158 | an empty birth list is refused without the letters too |
| Rules.Births | src/rules.rs:95-97 | the birth set is the upper half of the packed rule |
| Rules.Survivals | src/rules.rs:99-101 | the survival set is the lower half |
| Rules.HalvesRebuildRule | src/rules.rs:95-101 | the two halves together give back the whole rule, so nothing is lost or shared |
| Rules.Next | src/rules.rs:65-93 | `next` is the same successor as in `rule_set.rs`, read through this layout: only the centre 2x2 is set, each centre cell by the rule's verdict on it |
| Rules.ComputeRules | src/rules.rs:55-63 | the table has 65536 entries and entry `c` is the successor of leaf `c` |
| Rules.DigitValue | src/rules.rs:130-134 | `to_digit(10)` of a decimal digit is at most 9, and at most 8 exactly for an accepted count |
| Rules.Classify | src/rules.rs:122-134 | each character is seen as a birth letter, a survival letter, a count digit 0..8, or refused, and each class is exactly its characters |
| Rules.ClassifyInjective | src/rules.rs:130 | distinct count digits give distinct counts |
| Rules.Apply | src/rules.rs:122-145 | one turn of the loop fails exactly on a refused character |
| Rules.FromStr | src/rules.rs:112-149 | the loop over the characters returns what `Parse` describes |
| Rules.RunStaysFailed | src/rules.rs:130-134 | once a prefix is refused the whole string is refused with `InvalidString` |
| Rules.RunErrorIsInvalid | src/rules.rs:105-107 | every failure is `InvalidString` |
| Rules.ParseAccepts | src/rules.rs:112-149 | `from_str` succeeds exactly when every character is `b`, `B`, `s`, `S` or a digit 0..8 |
| Rules.MarksSnoc | src/rules.rs:121-146 | a digit read in a mode is one read before the last character or the last character itself read in the mode then current |
| Rules.OrKeepsLayout | src/rules.rs:136-143 | setting a birth or survival bit keeps every bit outside 0..8 and 16..24 clear |
| Rules.ApplySurvival | src/rules.rs:137-139 | a count in survival mode sets bit `n` |
| Rules.ApplyBirth | src/rules.rs:140-142 | a count in birth mode sets bit `n + 16` |
| Rules.ApplyLetter | src/rules.rs:123-128 | a letter only switches the mode |
| Rules.ApplyBits | src/rules.rs:121-146 | after one token the birth and survival bits of a count change only when that count was read in that mode |
| Rules.StepDigit | src/rules.rs:121-146 | one more character keeps the rule's bits in step with the digits read in each mode |
| Rules.ApplyLayout | src/rules.rs:121-146 | one token keeps the layout and updates the mode as the letters say |
| Rules.StepReads | src/rules.rs:121-146 | the rule read so far stays an exact record of the digits read in each mode |
| Rules.RunReads | src/rules.rs:112-149 | a successful run is an exact record of the digits read in each mode |
| Rules.ParseBits | src/rules.rs:112-149 | a parsed rule has bit `p + 16` exactly when digit `p` was read in birth mode, bit `p` exactly when it was read in survival mode, and no other bit |
| Rules.RepeatedDigit | src/rules.rs:138-141 | reading a digit twice in a row changes nothing |
| Rules.ApplyTwice | src/rules.rs:138-141 | a count token applied twice has the effect of applying it once |
| Rules.EmptyRule | src/rules.rs:118-148 | the empty string is accepted and sets no bit |
| Rules.ConwayString | src/rules.rs:27-33 | `b3s23` is the documented value, the same rule as B3S23 of `rule_set.rs` |
| Rules.RefusedStrings | src/rules.rs:129-134 | the digit 9 and the `/` of the other notation are refused |
| Cells.AndLeafMask | src/cell.rs:8-12 | `x & LEAF_MASK` is `LEAF_MASK` when bit 63 of `x` is set and 0 otherwise |
| Cells.XorLeafMask | src/cell.rs:8-12 | `x ^ LEAF_MASK` flips bit 63 and keeps the other 63 bits |
| Cells.TopBitIsHalf | src/cell.rs:1-12 | `LEAF_MASK` is half the 64-bit range, so bit 63 is set exactly from `LEAF_MASK` on |
| Cells.XorLeafMaskInvolution | src/cell.rs:76 | flipping the leaf bit twice gives the word back |
| Cells.Void | src/cell.rs:36-45 | the void cell has four zero quadrants, an unset result, and is not a leaf |
| Cells.Unset | src/cell.rs:47-56 | the unset cell has four zero quadrants, an unset result, and is not a leaf |
| Cells.VoidIsUnset | src/cell.rs:36-56 | a void cell cannot be told apart from a free slot |
| Cells.IsLeafTopBit | src/cell.rs:85-88 | a cell is a leaf exactly when bit 63 of `nw` is set |
| Cells.Children | src/cell.rs:90-96 | `None` exactly for leaves; a node's children are `nw`, `ne`, `sw`, `se` in that order |
| Cells.WrapAdd | src/cell.rs:186-193 | `Wrapping` addition is addition mod 2^64 |
| Cells.HashPolynomial | src/cell.rs:175-182 | the hash of a leaf is `se + 9 sw + 81 ne + 729 nw`, of a node `se + 3 sw + 9 ne + 27 nw + 27`, both mod 2^64 |
| Cells.NodeHashPolynomial | src/cell.rs:184-195 | the nested wrapping expression of `node_hash` equals that polynomial mod 2^64 |
| Cells.LeafHashPolynomial | src/cell.rs:197-208 | the nested wrapping expression of `leaf_hash` equals that polynomial mod 2^64 |
| Cells.VoidHash | src/cell.rs:36-45 | the void cell, and so every free slot, hashes to 27 |
| Cells.Center | src/cell.rs:226-235 | panics exactly when a quadrant index is outside the buffer; otherwise the cell of the four inner grandchildren, with an unset result |
| Cells.HCenterIsCenter | src/cell.rs:237-247 | the cell on the boundary of `w` and `e` is the centre of the east half of `w` joined to the west half of `e` |
| Cells.VCenterIsCenter | src/cell.rs:249-259 | the cell on the boundary of `n` and `s` is the centre of the south half of `n` joined to the north half of `s` |
| Cells.SuperCenterIsCenterOfCenter | src/cell.rs:261-270 | the quarter-size centre is the centre of the half-size centre, and panics exactly when one of them does |
| Cells.LeafIndicesZero | src/cell.rs:113-151 | every one of the four indices `compute_leaf_res` looks up in `next` is 0, because each ANDs masks with no bit in common |
| Cells.CellSlot.constructor | src/cell.rs:20-33 | the slot holds the given cell |
| Cells.CellSlot.UnmaskLeaf | src/cell.rs:71-77 | requires the leaf flag (every caller asserts `is_leaf` first), then clears it by XOR, keeping every other bit of `nw`; the cell is then not a leaf |
| Cells.CellSlot.MaskLeaf | src/cell.rs:79-83 | `nw &= LEAF_MASK` keeps the leaf flag and clears the other 63 bits; being a leaf does not change |
| Cells.CellSlot.ComputeLeafRes | src/cell.rs:107-154 | on a leaf, the lookups read `next[0]` four times and the result is discarded; afterwards `nw` is 0 and the cell is no longer a leaf |
| Cells.MaskAfterUnmask | src/cell.rs:73-83 | unmasking and then masking a leaf word gives 0, not the leaf word back |
| CellBufs.IsPrime | src/main.rs:98-109 | `is_prime` never answers false, because it tests `i % n` with `i < n`; it panics exactly when `n > (2^32 - 1)^2`, where `i * i` overflows `usize`, and otherwise answers true |
| CellBufs.SquareFits | src/main.rs:100 | the loop's `i * i` fits a `usize` exactly when `i < 2^32` |
| CellBufs.SquareBound | src/main.rs:100-101 | inside the loop `i < n`, so `i % n` is `i` and never 0 |
| CellBufs.NextPrime | src/main.rs:97-120 | `next_prime(n)` panics exactly when `n > (2^32 - 1)^2`, and is otherwise `n | 1`: odd, at least `n` and at most `n + 1` |
| CellBufs.InitialPrime | src/main.rs:32 | `next_prime(10_000)` is 10001 |
| CellBufs.Probe | src/main.rs:84-85 | probe `i` for hash `h`, `(h + i + i*i) mod n`, is a slot of the buffer |
| CellBufs.OverflowsLater | src/main.rs:84-85 | once the `usize` probe sum `h + i + i*i` overflows, the sum of every later probe does too |
| CellBufs.ProbePeriodic | src/main.rs:84-85 | the probe sequence repeats after `n` probes |
| CellBufs.FreeFrom | src/main.rs:84-91 | the first free probe among the first `n`, with every earlier probe occupied; none when all `n` are occupied |
| CellBufs.NeverFree | src/main.rs:84-93 | when none of the first `n` probes is free, no probe ever is |
| CellBufs.InsertInto | src/main.rs:80-94 | never runs forever; panics on an empty buffer (`% 0`); on success writes the cell into the first free slot of the probe sequence, reached before the `usize` probe sum overflows, and changes nothing else |
| CellBufs.InsertBufTerminates | src/main.rs:84-93 | `insert_buf` returns an index exactly when some probe whose `usize` sum does not overflow hits a free slot, and panics otherwise |
| CellBufs.TopHashPanics | src/main.rs:84-85 | a cell hashing to `usize::MAX` whose own slot is taken panics, because the second probe's sum overflows |
| CellBufs.InsertIntoEmpty | src/main.rs:80-94 | into an empty buffer a cell goes to the slot its hash selects |
| CellBufs.InsertKeeps | src/main.rs:87-90 | `insert_buf` only fills a free slot |
| CellBufs.KeepsTrans | src/main.rs:66-78 | a slot that keeps its cell through two steps keeps it through both |
| CellBufs.Moved | src/main.rs:66-78 | on a well-formed tree `move_cell` never runs forever; a result is a slot of the new buffer, whose length is unchanged |
| CellBufs.MovedNode | src/main.rs:70-74 | the five moved indices of a node still point at occupied slots once all five moves are done |
| CellBufs.NodeNotUnset | src/main.rs:70-77 | a node whose result index is a real index is not the unset marker |
| CellBufs.LeafNotUnset | src/main.rs:69 | a leaf is never the unset marker |
| CellBufs.MovedFacts | src/main.rs:66-78 | `move_cell` overwrites no occupied slot, and leaves at the returned slot the moved cell: a leaf exactly when the original is one, the leaf itself unchanged, and a node whose five indices point at occupied slots |
| CellBufs.NodeFacts | src/main.rs:69-77 | the node case: the facts about the five recursive moves give the facts about the inserted node |
| CellBufs.MoveLeafIntoEmpty | src/main.rs:66-78 | a leaf moved into an empty buffer lands unchanged at its hash slot |
| CellBufs.UnsetIsNoTree | src/main.rs:66-78 | a free slot at index 0 points back at itself, so `move_cell` from there never finishes a tree |
| CellBufs.Index | src/main.rs:66-78 | the index part of an outcome, with the outcome's success preserved |
| CellBufs.Unsets | src/main.rs:32 | `vec![Cell::unset(); n]`: `n` slots, all unset |
| CellBufs.CellBuf.constructor | src/main.rs:29-35 | root 0, size 0, and 10001 slots that are all unset |
| CellBufs.CellBuf.Get | src/main.rs:49-56 | never runs forever; panics exactly out of bounds; `None` exactly for a free slot; `Some` of the cell for an occupied slot |
| CellBufs.CellBuf.InsertBuf | src/main.rs:80-94 | the probing loop never runs forever, returns the index `InsertInto` describes and leaves the buffer as it describes; when it panics the buffer is unchanged |
| CellBufs.CellBuf.MoveCell | src/main.rs:66-78 | the recursion never runs forever on a tree, and returns the index `Moved` describes and leaves the new buffer as it describes |
| CellBufs.CellBuf.Grow | src/main.rs:58-64 | the buffer and size are unchanged; the root becomes the index the tree is moved to in a fresh buffer of `next_prime(2 * len)` slots, or stays when that fails |
| CellBufs.CellBuf.Insert | src/main.rs:37-47 | the result is a panic when the table is more than 80% full and moving the root tree fails, and otherwise exactly what `insert_buf` returns on the unchanged buffer; on success the size grows by one and the cell is written as `insert_buf` describes; the root stays when the table was at most 80% full, and otherwise becomes the index `grow` moves the root tree to in a fresh buffer of `next_prime(2 * len)` slots |
| Worlds.Slot | src/world.rs:87 | the slot `hash % len` is inside the buffer |
| Worlds.Copied | src/world.rs:110-122 | a finished copy leaves a buffer of the same length |
| Worlds.CopiedAll | src/world.rs:117-121 | copying a list of children leaves a buffer of the same length |
| Worlds.WriteAll | src/world.rs:113-115 | writing cells to their hash slots keeps the buffer's length |
| Worlds.WriteAllAppend | src/world.rs:113-121 | writing `a + b` is writing `a` and then `b` |
| Worlds.WriteFirst | src/world.rs:113-115 | writing `[c] + cs` is writing `c` to its slot and then `cs` |
| Worlds.CopiedIsWrites | src/world.rs:110-122 | `copy_children` writes the cells it visits in pre-order, each to its hash slot, later writes overwriting earlier ones; whether it finishes, panics or runs on does not depend on the target buffer |
| Worlds.CopiedAllIsWrites | src/world.rs:117-121 | the same for the loop over the four children |
| Worlds.WriteAllSlots | src/world.rs:113-115 | each slot afterwards keeps its old cell or holds a written cell whose hash selects that slot |
| Worlds.LastWriteWins | src/world.rs:113-115 | the last cell written to a slot is the one left there |
| Worlds.CopiedFinishes | src/world.rs:110-122 | when the cells below `index` form a finite tree inside the buffer, enough recursion depth always finishes the copy |
| Worlds.CopiedAllFinishes | src/world.rs:117-121 | the same for a list of children |
| Worlds.VoidLoops | src/world.rs:110-122 | with a void cell at slot 0, copying from a void cell revisits slot 0 forever |
| Worlds.Grown | src/world.rs:98-108 | a grown buffer has `next_prime(2 * len)` slots, fewer than `LEAF_MASK` (the `assert!`) |
| Worlds.Inserted | src/world.rs:82-96 | a finished insertion leaves a non-empty buffer shorter than `LEAF_MASK` |
| Worlds.InsertedWrites | src/world.rs:82-96 | the cell ends up in the slot its hash selects; the buffer keeps its length exactly when that slot was void, and then only that slot changes; otherwise the buffer grew |
| Worlds.NewWorldCannotGrow | src/world.rs:33-108 | growing a new world (two void cells, root 1) never ends |
| Worlds.NewWorldInsert | src/world.rs:33-96 | in a new world the slot a hash selects is always void, so the cell is written there |
| Worlds.Status | src/world.rs:98-122 | keeps only whether an outcome finished, panicked or ran on |
| Worlds.World.constructor | src/world.rs:9-25 | the given rules and depth, two void cells, root 1 |
| Worlds.World.New | src/world.rs:28-43 | a rule string that does not parse is returned as that error; otherwise two void cells, root 1, the given depth, and a table of 65536 entries whose entry `c` is the successor of leaf `c` under the parsed rule |
| Worlds.World.Grow | src/world.rs:55-59 | `grow(0)` returns at once and changes nothing |
| Worlds.World.CopyChildren | src/world.rs:110-122 | the recursion finishes, panics or runs on as `Copied` says, and leaves the target buffer as `Copied` describes |
| Worlds.World.GrowBuf | src/world.rs:98-108 | rules, root and depth are unchanged; on success `buf` is a fresh buffer holding the grown copy; on failure `buf` is unchanged |
| Worlds.World.InsertCell | src/world.rs:82-96 | rules, root and depth are unchanged, and `buf` ends as `Inserted` describes |
| QuadTrees.New | src/quadtree/mod.rs:21-29 | a new node is empty (dead, no quadrants) and not a leaf |
| QuadTrees.From | src/quadtree/mod.rs:31-44 | a dead node whose four quadrants are copies of the arguments |
| QuadTrees.EmptyIsNotLeaf | src/quadtree/mod.rs:46-52 | no node is both empty and a leaf, and the empty node is exactly `Node::new()` |
| QuadTrees.WithChild | src/quadtree/mod.rs:187-211 | replacing one quadrant sets that quadrant and keeps the flag and the other three |
| QuadTrees.SelectionsAreWindows | src/quadtree/mod.rs:54-107 | `center`, `north`, `south`, `east` and `west` are the centre, top, bottom, right and left 2x2 windows of the 4x4 grid of grandchildren |
| QuadTrees.CornerWindow | src/quadtree/mod.rs:115-123 | the centre of a corner window is the centre of that corner quadrant |
| QuadTrees.NextGen | src/quadtree/mod.rs:109-132 | panics (`todo!()`) exactly at depth 0; otherwise the result is a dead node |
| QuadTrees.NextGenTiling | src/quadtree/mod.rs:114-131 | quadrant `(a, b)` of the result is a dead node whose quadrant `(c, d)` is tile `(a + c, b + d)` of the 3x3 tiling of centres |
| QuadTrees.NextGenSharesMiddle | src/quadtree/mod.rs:125-130 | the middle tile is shared by all four quadrants of the result |
| QuadTrees.NextGenSharesEdges | src/quadtree/mod.rs:125-130 | adjacent quadrants of the result share the edge tile between them |
| QuadTrees.GrowCentred | src/quadtree/mod.rs:146-172 | the centre of the grown root is the old root's quadrants; the new root and its quadrants are dead, and every grandchild outside the centre is missing |
| QuadTrees.QuadrantOf | src/quadtree/mod.rs:185-211 | `set` enters NW, NE, SW or SE by the signs of `x` and `y`, each exactly for its sign pattern |
| QuadTrees.Step | src/quadtree/mod.rs:214-215 | the recentred coordinate `(v & (s - 1)) - (s >> 1)` lies in `-s/2 .. s - s/2` |
| QuadTrees.Path | src/quadtree/mod.rs:176-216 | `set` on a level-`d` tree enters `d` quadrants, the first chosen by the signs of the coordinates |
| QuadTrees.SetPath | src/quadtree/mod.rs:181-218 | following a non-empty path keeps the root's flag |
| QuadTrees.AtNew | src/quadtree/mod.rs:21-29 | a new node has nothing below it |
| QuadTrees.SetPathReaches | src/quadtree/mod.rs:181-218 | after `set` the node at the end of the path is the one found there, or a new node, switched on |
| QuadTrees.SetPathElsewhere | src/quadtree/mod.rs:181-218 | every node off the path is as before |
| QuadTrees.SetPathBelow | src/quadtree/mod.rs:218 | below the node reached nothing changes |
| QuadTrees.DescendStep | src/quadtree/mod.rs:181-216 | one turn of the loop leaves a frame for the parent and the rest of the path below it, which put back together give the same tree |
| QuadTrees.PlugLast | src/quadtree/mod.rs:179-191 | putting the innermost frame back first |
| QuadTrees.SetNode | src/quadtree/mod.rs:176-219 | the loop of `set` returns the tree with the path of `(x, y)` created and its last node switched on |
| QuadTrees.QuadTree.constructor | src/quadtree/mod.rs:136-144 | level `k` and an empty root |
| QuadTrees.QuadTree.Grow | src/quadtree/mod.rs:146-172 | one level more, and the old content is the centre of the new root |
| QuadTrees.QuadTree.Set | src/quadtree/mod.rs:174-219 | the level is unchanged and the node at the end of the path of `(x, y)` is switched on |
| QuadTrees.PathTwo | src/quadtree/mod.rs:181-216 | in a level-2 tree `set` enters the quadrant of `(x, y)`, then that of the coordinates recentred with `s = 4` |
| QuadTrees.PathCollides | src/quadtree/mod.rs:181-216 | `(-2, 0)` and `(-1, 0)`, distinct cells of a 4x4 tree, both enter NW then SE |
| QuadTrees.SetCollides | src/quadtree/mod.rs:174-219 | so `set(-2, 0)` and `set(-1, 0)` switch on the same cell |
| QuadTrees.IntendedPath | src/quadtree/mod.rs:181-216 | the descent recentred with the side of the quadrant entered has one quadrant per level |
| QuadTrees.IntendedStep | src/quadtree/mod.rs:214-215 | recentring with the quadrant's side maps a coordinate of the node into the quadrant's range |
| QuadTrees.IntendedPathUnfold | src/quadtree/mod.rs:181-216 | the corrected path is the first quadrant followed by the corrected path of the recentred coordinates |
| QuadTrees.IntendedStepDistinct | src/quadtree/mod.rs:214-215 | two distinct cells in the same quadrant stay distinct and in range after recentring |
| QuadTrees.IntendedPathInjective | src/quadtree/mod.rs:181-216 | with that recentring, distinct cells of a level-`d` tree have distinct paths |
| Qts.Alive | src/qt/mod.rs:19-27 | a live node without quadrants, that is, a leaf |
| Qts.Dead | src/qt/mod.rs:29-37 | a dead node without quadrants, that is, an empty one |
| Qts.DeadIsNew | src/qt/mod.rs:29-37 | `Node::dead()` is the node `Node::new()` builds, and switching it on gives `Node::alive()` |
| Qts.SetLevelZero | src/qt/mod.rs:53-95 | on a level-0 tree `set` switches on the root and nothing else |
| Qts.QuadTree.constructor | src/qt/mod.rs:41-49 | level `k` and a dead root |
| Qts.QuadTree.Set | src/qt/mod.rs:51-95 | the level is unchanged; the root is the tree with the path of `(x, y)` created from dead nodes and its last node switched on |
| Partitions.Scan | src/quadtree/util.rs:15-37 | the two-pointer loop from a state to its end keeps the list's length |
| Partitions.Partition | src/quadtree/util.rs:7-38 | the list after `partition_in_place` keeps its length; the empty list gives index 0 |
| Partitions.ScanPermutes | src/quadtree/util.rs:17-31 | the loop only swaps, so the list stays a permutation of its input |
| Partitions.ScanSplits | src/quadtree/util.rs:17-37 | the loop keeps "all left of `lo` satisfy `P`, none right of `hi` does", so the index it returns splits the list |
| Partitions.PartitionCorrect | src/quadtree/util.rs:1-38 | the result is a permutation of the input in which every element before the returned index satisfies `P` and none at or after it does; the empty list gives 0 |
| Partitions.ScanKeepsSplit | src/quadtree/util.rs:17-37 | over a list already split at `j` the loop never swaps and stops at `j` |
| Partitions.PartitionKeepsSplit | src/quadtree/util.rs:7-38 | a list whose `P`-elements already come first is left unchanged, and the index is where they end |
| Partitions.PartitionAll | src/quadtree/util.rs:5-6 | when `P` holds everywhere the list is unchanged and the index is its length |
| Partitions.PartitionInPlace | src/quadtree/util.rs:7-38 | the loop over the array swapping in place leaves the list and returns the index `Partition` describes |
| Partitions.SwapStep | src/quadtree/util.rs:28-30 | one swap of the loop moves both pointers inward over the swapped list |
| Partitions.PartitionSimple | src/quadtree/util.rs:44-52 | the `partition_simple` test: the list and index the test expects |
| Partitions.PartitionSorted | src/quadtree/util.rs:54-62 | the `partition_sorted` test: the sorted list is unchanged, index 4 |
| Partitions.PartitionTrivialPredicate | src/quadtree/util.rs:64-72 | the `partition_trivial_pred` test: unchanged list, index 10 |
| Partitions.PartitionBoolsKept | src/quadtree/util.rs:74-96 | the rows of the `partition_bools` table that need no swap |
| Partitions.PartitionBoolsSwapped | src/quadtree/util.rs:74-96 | the rows of the `partition_bools` table where the loop swaps once |
| IndexNodes.Empty | src/quadtree/node.rs:12-22 | all four quadrant indices are the sentinel `usize::MAX` |
| IndexNodes.AsIsize | src/quadtree/node.rs:27 | `i as isize` keeps indices up to `isize::MAX` and wraps larger ones by 2^64 |
| IndexNodes.Shown | src/quadtree/node.rs:27 | the printed number is -1 exactly for the sentinel, and the index itself up to `isize::MAX` |
| IndexNodes.ShownIsCast | src/quadtree/node.rs:27 | the sentinel branch changes nothing: the cast already sends `usize::MAX` to -1 |
| IndexNodes.ShownInjective | src/quadtree/node.rs:27 | distinct indices print distinct numbers |
| IndexNodes.DigitChar | src/quadtree/node.rs:29 | a digit's character is `'0'` plus the digit |
| IndexNodes.NatText | src/quadtree/node.rs:29 | the decimal text of a natural number is non-empty digits |
| IndexNodes.IntText | src/quadtree/node.rs:29 | the text of an integer is non-empty digits and minus signs, and starts with a digit exactly for non-negatives |
| IndexNodes.NatTextValue | src/quadtree/node.rs:29 | the decimal text reads back as the number |
| IndexNodes.IntTextInjective | src/quadtree/node.rs:29 | the decimal text determines the integer |
| IndexNodes.NumberEnds | src/quadtree/node.rs:29 | in a number followed by other text, the number ends at the first character no number contains |
| IndexNodes.SplitNumber | src/quadtree/node.rs:29 | a number followed by a character no number contains splits one way only |
| IndexNodes.SplitField | src/quadtree/node.rs:29 | one field of the text and the rest after it separate one way only |
| IndexNodes.DebugInjective | src/quadtree/node.rs:25-30 | the `Debug` text determines the node |
| IndexNodes.DebugEmpty | src/quadtree/node.rs:12-30 | the empty node prints as `[nw: -1, ne: -1, sw: -1, se: -1]` |
| Braille.XyRoundTrip | src/camera.rs:193-199 | `xy_to` inverts `xy_from` for every column inside the buffer |
| Braille.XyFromTo | src/camera.rs:193-199 | `xy_from` inverts `xy_to`, and the column `xy_to` returns is inside the row |
| Braille.XyBijection | src/camera.rs:193-199 | a flat index names exactly one pixel: `n == xy_from(x, y)` if and only if `xy_to(n) == (x, y)` |
| Braille.XyInside | src/camera.rs:193-199 | every pixel of a `w` by `h` buffer has a flat index below `w * h` |
| Braille.XyToInside | src/camera.rs:193-195 | every flat index below `w * h` names a row below `h` |
| Braille.HexValueIsDot | src/camera.rs:201-213 | the weight `get_hex_value` gives a pixel is the bit of the Unicode Braille dot at its position in the 2x4 block |
| Braille.HexValueInjective | src/camera.rs:201-213 | distinct positions in a block have distinct weights |
| Braille.PartialIsPattern | src/camera.rs:4-14 | the dots a block collects sum to at most 0xFF, so every codepoint stays in U+2800..U+28FF |
| Braille.DotStep | src/camera.rs:168-175 | visiting pixel `n` adds its weight at its own position only |
| Braille.HitsSum | src/camera.rs:173 | of the eight positions of a block, a pixel is one exactly when the block at `(x / 2, y / 4)` is its own |
| Braille.PartialStep | src/camera.rs:168-175 | visiting pixel `n` adds its weight to block `(x / 2, y / 4)` and to no other block |
| Braille.PartialNone | src/camera.rs:166 | before any pixel is visited every block is blank |
| Braille.BlockIndex | src/camera.rs:173 | block `(cx, cy)` is stored at `cy * bw + cx`, inside the codepoint buffer, and distinct blocks use distinct indices |
| Braille.BlockOfPixel | src/camera.rs:173 | the block of a pixel inside the buffer is inside the `div_ceil` grid of codepoints |
| Braille.LayoutInRow | src/camera.rs:178-188 | inside a line, one more codepoint extends that line's text |
| Braille.LayoutNewRow | src/camera.rs:178-188 | the first codepoint of a later line comes right after the newline that ends the previous line |
| Braille.LayoutRowPrefix | src/camera.rs:178-188 | after any prefix of the codepoints, the text is the finished lines, each ending in a newline, then the current line so far |
| Braille.LayoutIsRows | src/camera.rs:178-188 | with at least one line, the frame text is exactly the `bh` lines of `bw` codepoints, each followed by a newline |
| Braille.LayoutEmpty | src/camera.rs:178-188 | with no codepoints the frame text is a single newline |
| Braille.CountAppend | src/camera.rs:178-188 | the newlines of two joined texts are the newlines of each |
| Braille.CountNone | src/camera.rs:178-188 | a text without newline characters counts none |
| Braille.RowsNewlines | src/camera.rs:178-188 | `r` finished lines of Braille codepoints hold exactly `r` newlines |
| Braille.LayoutNewlines | src/camera.rs:178-188 | a frame of `bh` lines holds exactly `bh` newlines, one ending each line |
| Cameras.Camera.constructor | src/camera.rs:40-80 | `Camera::new(w, h)`: a `w * h` pixel buffer all off, `div_ceil(w, 2) * div_ceil(h, 4)` blank codepoints, the text laid out from them, offset zero |
| Cameras.Camera.Frame | src/camera.rs:59-69 | the text built by the layout loop is the codepoints with a newline before each line but the first, and a final newline |
| Cameras.Camera.OffsetX | src/camera.rs:90-92 | `offset_x` adds to the horizontal offset and changes nothing else |
| Cameras.Camera.OffsetY | src/camera.rs:94-96 | `offset_y` adds to the vertical offset and changes nothing else |
| Cameras.Camera.DrawPixel | src/camera.rs:98-106 | succeeds exactly when the pixel is on the screen, then switches on that pixel and no other; otherwise panics with the buffer unchanged |
| Cameras.Camera.FillSquare | src/camera.rs:126-153 | the shared square loop: succeeds exactly when `s <= w`, `x0 < w - s`, `s <= h` and `y0 < h - s`, then sets exactly the pixels of the square to the given value |
| Cameras.Camera.DrawSquare | src/camera.rs:126-139 | succeeds exactly under the strict bounds of its asserts, then switches on exactly the pixels of the square |
| Cameras.Camera.DrawClearSquare | src/camera.rs:141-153 | succeeds exactly under the strict bounds of its asserts, then switches off exactly the pixels of the square |
| Cameras.Camera.DrawOutline | src/camera.rs:108-124 | succeeds exactly when `w` and `h` are both zero or both non-zero, then switches on exactly the border pixels |
| Cameras.Camera.Reset | src/camera.rs:155-158 | every pixel is off afterwards |
| Cameras.Camera.BlankCodepoints | src/camera.rs:166 | every codepoint is reset to U+2800 before the pixels are visited |
| Cameras.Camera.AddDot | src/camera.rs:168-175 | visiting pixel `n` keeps every codepoint equal to U+2800 plus the dots of its block among the pixels seen |
| Cameras.Camera.AddDots | src/camera.rs:168-175 | after the pixel loop every codepoint is U+2800 plus the dots of the lit pixels of its block |
| Cameras.Camera.Render | src/camera.rs:160-191 | every codepoint is U+2800 plus the dots of its block and lies in U+2800..U+28FF; the frame buffer is their layout and is what is returned |
| Cameras.RenderStep | src/camera.rs:168-175 | one step of the pixel loop over the whole codepoint buffer keeps every codepoint equal to its block's dots so far |
| Cameras.RenderStepAt | src/camera.rs:173-174 | one step of the pixel loop at a single codepoint |
| Drawing.MaskShift | src/camera.rs:224-236 | the mask starts at bit 15, halves each step and reaches zero after sixteen steps |
| Drawing.MaskIsBit | src/camera.rs:224-236 | the mask of step `k` is the single bit `15 - k` |
| Drawing.MaskTest | src/camera.rs:226 | `rule & mask == mask` at step `k` tests bit `15 - k` of the rule |
| Drawing.BitTest | src/camera.rs:226 | `rule & mask == mask` for a single-bit mask tests that bit |
| Drawing.RuleLitZero | src/camera.rs:222-238 | at scale 0, pixel `(dx + k % 4, dy + k / 4)` is lit exactly when bit `15 - k` is set |
| Drawing.QuarterMasks | src/camera.rs:242-245 | each quarter mask is non-zero exactly when one of the four bits of its 2x2 quarter is set |
| Drawing.QuarterShifts | src/camera.rs:242-245 | the shifted masks `0x33 << 10`, `0x33 << 8`, `0x33 << 2` and `0x33` are the four 2x2 quarters |
| Drawing.CellOfBit | src/camera.rs:222-238 | bit `k` is drawn at the pixel of the 4x4 block whose row-major offset is `k`, and only there |
| Drawing.CounterStep | src/camera.rs:230-234 | the column and row counters stay `k % 4` and `k / 4` |
| Drawing.DrawnStep | src/camera.rs:225-237 | one step of the mask loop adds the pixel of its bit, if set, to the pixels drawn so far |
| Drawing.FitsStep | src/camera.rs:225-237 | one more step keeps every pixel drawn so far on the screen |
| Drawing.DrawnAll | src/camera.rs:225-237 | after sixteen steps the drawn pixels are exactly those of the set bits |
| Drawing.DrawBit | src/camera.rs:226-228 | one step of the mask loop panics only when the rule does not fit, and otherwise draws the pixel of its bit if it is set |
| Drawing.DrawRuleCells | src/camera.rs:222-238 | scale 0 succeeds exactly when every set bit's pixel is on the screen, then lights exactly those pixels |
| Drawing.LightsCompose | src/camera.rs:247-261 | lighting one set of pixels then another lights their union |
| Drawing.DrawIf | src/camera.rs:247-249 | a guarded `draw_pixel` panics exactly when its guard holds and the pixel is off the screen, and otherwise lights that pixel if the guard holds |
| Drawing.DrawQuarters | src/camera.rs:247-261 | the four guarded draws succeed exactly when every guarded pixel is on the screen, then light exactly the guarded pixels |
| Drawing.QuarterPixelsLit | src/camera.rs:241-262 | the guarded pixels of the four quarter tests are the pixels scale 1 lights |
| Drawing.DrawRuleQuarters | src/camera.rs:241-262 | scale 1 succeeds exactly when each non-empty quarter's pixel is on the screen, then lights exactly those pixels |
| Drawing.DrawRuleBlock | src/camera.rs:265-269 | scale 2 succeeds exactly when the rule is zero or `(dx, dy)` is on the screen, then lights that pixel if the rule is non-zero |
| Drawing.DrawRule | src/camera.rs:218-274 | `draw_rule` succeeds exactly when every pixel it lights is on the screen, then switches on exactly those pixels and keeps the rest; above scale 2 it draws nothing |
| Drawing.ClearLeafFlag | src/camera.rs:282 | `nw & !LEAF_MASK` clears the leaf flag and keeps the low sixteen bits |
| Drawing.LeafOffsetShrinks | src/camera.rs:281-302 | the offset of the second rule (4, 2, 1) times the pixel size `2^scale` is always the four cells of a rule |
| Drawing.FourCompose | src/camera.rs:281-302 | four rules drawn in turn light the union of their pixels |
| Drawing.DrawFour | src/camera.rs:281-302 | the four `draw_rule` calls of a leaf succeed exactly when all four fit, then light exactly the union of their pixels |
| Drawing.DrawLeaf | src/camera.rs:276-314 | a non-leaf cell fails the assert with the screen unchanged; a leaf succeeds exactly when its pixels fit, then lights exactly the pixels of its four rules at scales 0-2, its one pixel at scale 3 unless void, and nothing above |
| Drawing.DrawCell | src/camera.rs:317-354 | above its own size it draws nothing; `2^(n - scale)` overflows from exponent 64 on; a void cell clears its square of side `2^(n - scale)` under the square's bounds; at pixel size it lights one pixel when on the screen |

## Left out

- The unfinished hashlife step is not modelled, because it is `todo!()` or depends on code that is not shown: `Cell::next`, `compute_res`, `compute_node_res`, `Node::next_gen(0)`, `World::next`, and `World::grow` for `k > 0`, which calls a `Cell::grow` that does not exist.
- The lookup combination in `compute_leaf_res` is not modelled. Its value is discarded, so only the table reads, which can panic, and the effect on the cell are modelled.
- `src/rle.rs` is an abandoned draft that `src/parse_rle.rs` supersedes. It imports a module that does not exist and its encoding loop never advances.
- The rest of the repository is outside this model:
  - the `f32` geometry of `src/quadtree/aabb.rs` and `src/quadtree/point.rs`;
  - the SDL drawing of `src/draw/` and `src/ext/sdl.rs`;
  - the terminal I/O, events, file reading, timing and sleeping of `src/io.rs`, `src/events.rs` and `examples/`;
  - the directory walk of `tests/rle_tests.rs`;
  - the logging and fixtures of `src/lib.rs`;
  - the empty `src/hashlife/mod.rs`;
  - the drawing, logging, `main` and `Debug` code of `src/main.rs` and `src/world.rs`.
- `Debug` impls are not modelled except the one in `src/quadtree/node.rs`.
- The callback of `read_rle` is not modelled as a function call. It becomes the sequence of coordinates it receives, and the callback's own effects are not modelled.
- `parse_util::convert` is Rust's integer `FromStr`. It is modelled as a decimal parser with an optional sign and a range check; only its yes/no answer and its value are modelled.
- `Cell::is_void` is not defined in `src/cell.rs`, so the drawing code takes it as a parameter.
- `char::from_u32(..).unwrap()` and `String` building in `render` are modelled as integer codepoints; `'\n'` is 10.
- The `width` and `height` getters of the camera are the fields `Cameras.Camera.w` and `h` and have no members of their own.
- `src/render.rs` is an earlier copy of `src/camera.rs` without `draw_outline` and `draw_clear_square`, so it is modelled by the same `Cameras.Camera` members.
- `World::next_prime` is the same code as `src/main.rs`'s and is modelled once, as `CellBufs.NextPrime`.
- `count_bits`, `next` and `compute_rules` are the same in `src/rules.rs` as in `src/rule_set.rs`, and are modelled once in `RuleSets`.
- The `&mut` cursor of the two `set` loops is not kept as a position inside the tree. The descent is modelled as a rebuild of the path from the root; the tree cannot alias, so the result is the same.
- Partitions.PartitionInPlace: takes the predicate as a pure function, where the source accepts an `FnMut` closure; a predicate with its own state, which could observe how often and in what order it is called, is not modelled.
- The `f64` quotient `size / len > 0.8` in `insert` is modelled in exact arithmetic as `5 * size > 4 * len`, so the model does not capture floating-point rounding.
- A release build, without overflow checks, wraps the probe sum of `insert_buf` modulo 2^64 and probes on; the model follows the checked build, where the overflow panics.
- The model does not capture overflow of `i32`, `isize` or `i128` coordinate arithmetic: the RLE reader and `set` use unbounded integers. `convert`'s range check keeps the parsed `x`, `y` and run counts inside their types, but the sums the reader forms from them (`dx + x + i`, `dy + y`, `x += rep`, `y -= rep`) are not checked; where one leaves `i128`, the source panics (checked build) or wraps (release build), and the model reports the unbounded value.
- The model does not capture overflow of `usize` arithmetic in the pixel offsets of the drawing code, such as `dx + sw` and `dy + sw` in `draw_cell`; the pixel coordinates are unbounded naturals, where the source panics (checked build) or wraps (release build) past `usize::MAX`.
- Drawing.DrawCell: for a leaf at `n == 3` and for a node with four children, its contract states only the panic and divergence behaviour, and not which pixels are lit; those branches are left to `Drawing.DrawLeaf` and the recursive calls.
- Cells.CellSlot.ComputeLeafRes: requires a leaf and a non-empty `next` table, where the source panics on a non-leaf (the `assert!`) and on an empty table (`next[0]`).
- CellBufs.CellBuf.MoveCell: requires the cells reachable from `index` to form a tree of bounded depth inside the buffer; on other buffers the source indexes out of bounds or recurses forever.
- CellBufs.CellBuf.Grow: requires the same of the root, for the `move_cell` it calls.
- CellBufs.CellBuf.Insert: requires the same of the root when the table is more than 80% full, for the `grow` it calls.
- Worlds.World.Grow: models `grow(0)` only, which returns at once; `grow(k)` for `k > 0` calls `Cell::grow`, which is not shown.
- ParseUtil.TakeWs: requires a non-empty slice, because on an empty one the source's `len() - 1` underflows and panics; the RLE reader's uses of `take_ws` model that panic as the error `Panicked`.
- The model gives `copy_children`, `grow_buf` and `insert_cell` in `src/world.rs` a `fuel` bound, because their recursion need not end. `Diverge` means the recursion was still going at that depth; the bound leaves unmodelled only how much deeper a run that did not end at that depth would have gone.

## Findings

| source | as written | input that shows it | evidently intended | confidence | as-written member | corrected member |
|---|---|---|---|---|---|---|
| src/quadtree/mod.rs:183-215 | after entering a quadrant, `set` recentres with `s = 2^depth`, the side of the node it leaves, so `x := x mod 2^depth - 2^(depth-1)` | on a level-2 tree, `set(-2, 0)` and `set(-1, 0)` are two different cells, and both descend NW then SE to the same node | recentring with the side `2^(depth-1)` of the quadrant entered, which maps each quadrant onto the centred range of the next level, so distinct cells reach distinct nodes | not executed | QuadTrees.PathCollides | QuadTrees.IntendedPathInjective |

`QuadTrees.SetCollides` states the consequence for the whole tree. The same recentring is in `src/qt/mod.rs:89-91`. `QuadTrees.QuadTree.Set` and `Qts.QuadTree.Set` model the code as written. `QuadTrees.IntendedPath` is the corrected descent: one quadrant per level, recentred by the quadrant's side. `QuadTrees.IntendedPathInjective` proves that this descent sends distinct cells of the tree's centred range to distinct paths.
