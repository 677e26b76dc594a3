# rsChess FEN decoder and board renderer in Dafny

This project models the FEN (Forsyth–Edwards Notation) decoder and board
renderer of rsChess's `src/engine/mod.rs`:

- `convert_square_to_bitboard` turns the en-passant field into a mask.
  That field is an algebraic square such as `e6`, or `-`.
- `parse_fen` splits a FEN record on whitespace. It reads the turn, the
  castling rights, the en-passant target and the two clocks from fields 1
  to 5. It then walks the placement field (field 0) with a cursor `pos`:
  - each piece letter ORs `9223372036854775808 >> pos` into its own mask
    and advances the cursor by one;
  - a digit `1`..`8` advances the cursor by its value;
  - `/` does nothing;
  - any other character panics.
- `populate_array` and `Display::fmt` fold the twelve masks into a
  64-character array, in the order `P R N B Q K p r n b q k`. They then
  write the array from index 63 down to 0: eight lines of eight
  "character, space" pairs, each line followed by a newline.

Every panic of the source is a `Failure` in the model, with the panic's
cause (`Engine.Panic`):
- an index past the end of the field list;
- an `unwrap` of `None`;
- an `unwrap` of a failed integer parse;
- a shift by an amount outside `0..63`;
- an overflow of the `u32` cursor;
- the explicit `panic!()` on an unexpected placement character.

Checks happen in the order the source evaluates them: the struct literal's
fields first, then the placement loop.

## How the model is built

Files, in dependency order:

- `wrappers.dfy`: `Option` and `Result`.
- `text.dfy`: Rust's `split_whitespace`, which splits on the Unicode
  White_Space characters. Also `str::len` as a UTF-8 byte count, and
  `str::parse::<i32>`: an optional sign, then ASCII digits, with a range
  check.
- `bits.dfy`: the `u64` masks. A mask is represented by the set of
  positions of its set bits. `Bits.Abs` maps a `bv64` to that set. This
  module proves the representation exact, and proves that each bit
  operation the source performs is the matching set operation:
  - `m | (TopBit >> k)` inserts `63 - k`;
  - `(m >> i) & 1 == 1` is membership;
  - `0` is the empty set.
- `engine.dfy`: the piece kinds, their letters, the `Board` record (twelve
  masks and the metadata), the render order and the panic causes.
- `square.dfy`: `convert_square_to_bitboard`.
- `fen.dfy`: the placement loop (`Step`, `Walk`) and `parse_fen`
  (`ParseFields`, `ParseFen`).
  - The reference meaning of a placement is its cell expansion, `Cells`:
    the squares in reading order. A piece letter gives one occupied cell,
    a digit gives that many empty cells, and `/` gives none.
  - Cell `k` corresponds to bit `63 - k`, and `Agrees` says that a board's
    masks are the ones a cell expansion calls for.
- `render.dfy`:
  - `populate_array` (`PopulateArray`);
  - the array fold (`BoardArray`);
  - the text layout (`Display`);
  - the decode-then-render round trip (`RenderFen`).

## What the code does not check

`src/engine/mod.rs` accepts more than a well-formed FEN record, and reports
every problem it does notice by panicking. The model keeps this behaviour:

- Errors are panics; there is no typed parse error.
- More than six fields are accepted; fields after the sixth are ignored
  (`Fen.ExtraFieldsIgnored`).
- Ranks are not checked to sum to 8, and the cursor need not end at 64. A
  piece letter fails only when the cursor is already at 64 or beyond
  (`Fen.WalkSucceedsIff`).
- The turn and the castling field are not validated
  (`Fen.TurnAndCastlingNotValidated`). The clocks may be any `i32`,
  including negative values.
- The mapper returns 0 for any one-byte text, not only `-`
  (`Square.OneByteIsEmpty`).
- The mapper accepts rank digits `0` and `9` when the shift stays within
  `0..63`: `a9` names the same bit as `b1` (`Square.RankNineAliases`).
- The mapper's bit for a square is `63 - (file * 8 + rank - 1)`, with file
  varying slowest. In a placement whose ranks each hold exactly eight
  cells, the placement cursor puts file `f`, rank `r` at bit
  `63 - ((8 - r) * 8 + f)`; the code never checks that ranks have eight
  cells. The two bits never coincide, so the en-passant mask does not mark
  the same bit a piece on that square would
  (`Square.MapperDisagreesWithPlacement`).
- On a square held by several masks the renderer shows the kind folded
  last (`Render.LaterKindWins`). Boards produced by `parse_fen` never have
  such a square (`Fen.ParseFieldsCorrect`, disjointness).

## Model

| member | source | states |
|---|---|---|
| Text.SplitWhitespace | src/engine/mod.rs:71 | every field is a non-empty run of non-whitespace characters, and the fields concatenated are exactly the non-whitespace characters of the input |
| Text.SplitJoin | src/engine/mod.rs:71 | splitting whitespace-free fields joined by spaces gives back exactly those fields |
| Text.SplitSkipsWhitespace | src/engine/mod.rs:71 | any whitespace character before the first field, a tab or a run of spaces included, is skipped and starts no field |
| Text.SplitTakesToken | src/engine/mod.rs:71 | a run of non-whitespace characters followed by whitespace or the end of the text is exactly one field, so fields break at whitespace and nowhere else |
| Text.Utf8Length | src/engine/mod.rs:121 | the byte length is at least the character count, and is 1 exactly for a single ASCII character |
| Text.ParseI32 | src/engine/mod.rs:89-90 | a parse fails on empty text, and succeeds only on an optional sign followed by digits; without a minus sign the value is non-negative |
| Text.ParseDecimal | src/engine/mod.rs:89-90 | the decimal spelling of any count up to 2147483647, with or without `+`, parses back to that count |
| Text.ParseNegativeDecimal | src/engine/mod.rs:89-90 | a minus sign before a decimal spelling gives its negation, down to -2147483648 |
| Text.ParseOneChar | src/engine/mod.rs:129 | a one-character text parses exactly when it is a digit, and then to the digit's value |
| Bits.AbsHas | src/engine/mod.rs:62 | the renderer's test `(m >> i) & 1 == 1` holds exactly when `i` is in the mask's position set |
| Bits.FromTopBit | src/engine/mod.rs:96 | `9223372036854775808 >> k` has bit `i` set exactly when `i == 63 - k` |
| Bits.AbsSetTop | src/engine/mod.rs:96-107 | the decoder's update, OR-ing `9223372036854775808 >> k` into `m`, adds position `63 - k` and changes nothing else |
| Bits.AbsFromTop | src/engine/mod.rs:130 | the mapper's `9223372036854775808 >> k` on its own is the single position `63 - k` |
| Bits.AbsZero | src/engine/mod.rs:73-84 | the initial zero masks have no set bit |
| Bits.AbsAnd | src/engine/mod.rs:5-16 | `&` of two masks is the intersection of their position sets |
| Bits.DisjointAndZero | src/engine/mod.rs:5-16 | two `u64` masks have no position in common exactly when their `&` is zero, so disjoint position sets are disjoint `u64` masks |
| Bits.AbsInjective | src/engine/mod.rs:5-16 | two `u64` masks are equal exactly when their position sets are, so the set representation loses nothing |
| Engine.PieceOf | src/engine/mod.rs:95-112 | a character that names a piece is that piece's letter; `Engine.LetterRoundTrip` shows exactly the twelve letters of `PRNBQKprnbqk` name one |
| Engine.EmptyBoard | src/engine/mod.rs:72-91 | the struct literal's twelve masks are all empty and hold no set bit in total |
| Engine.LetterRoundTrip | src/engine/mod.rs:95-113 | reading a piece's letter gives the piece back, and exactly the twelve letters of `PRNBQKprnbqk` name a piece |
| Engine.LetterInjective | src/engine/mod.rs:96-107 | distinct piece kinds have distinct letters |
| Engine.OrderIndexInverse | src/engine/mod.rs:31-42 | each kind's place in the render order holds that kind, and each place's kind maps back to the place |
| Engine.RenderOrderIsPermutation | src/engine/mod.rs:31-42 | the render order lists every kind exactly once, spelling `PRNBQKprnbqk` |
| Engine.WithMask | src/engine/mod.rs:96-107 | updating one kind's mask leaves the other eleven masks and all metadata unchanged |
| Engine.BoardExtensionality | src/engine/mod.rs:3-24 | a board is determined by its twelve masks and its metadata |
| Square.FileIndex | src/engine/mod.rs:125-128 | the file number is below 8 and indexes the letter in `abcdefgh`; there is none exactly for other characters |
| Square.SquareToBitboard | src/engine/mod.rs:120-132 | a successful result is a mask with at most one bit, all below 64 |
| Square.OneByteIsEmpty | src/engine/mod.rs:121-124 | any one-character ASCII text, `-` or not, gives the empty mask |
| Square.ValidSquare | src/engine/mod.rs:125-130 | a file `a`..`h` followed by a rank `1`..`8` gives exactly bit `63 - (file * 8 + rank - 1)`, whatever follows |
| Square.ValidSquareBits | src/engine/mod.rs:130 | that result is the `u64` value `9223372036854775808 >> (file * 8 + rank - 1)` |
| Square.ValidSquaresDistinct | src/engine/mod.rs:125-130 | distinct well-formed squares give distinct masks |
| Square.SquareIndexInjective | src/engine/mod.rs:130 | distinct (file, rank) pairs with ranks 1..8 give distinct shift amounts |
| Square.SquareSucceedsIff | src/engine/mod.rs:120-132 | the mapper succeeds exactly on one-byte text, or on a file letter and a digit whose shift lies in `0..63` |
| Square.TrailingIgnored | src/engine/mod.rs:126-127 | characters after the second never change the result |
| Square.RankNineAliases | src/engine/mod.rs:129-130 | rank `9` is accepted and names the first rank of the next file |
| Square.OutOfRangeShifts | src/engine/mod.rs:130 | `a0` and `h9` stop with shift overflows of -1 and 64 |
| Square.BadFile | src/engine/mod.rs:128 | a first character outside `a`..`h` stops at the `unwrap` of the file lookup |
| Square.BadRank | src/engine/mod.rs:129 | a non-digit second character stops at the `unwrap` of the rank parse |
| Square.MapperDisagreesWithPlacement | src/engine/mod.rs:130 | for every well-formed square, the mapper's bit differs from the bit the placement cursor uses for that square |
| Fen.Step | src/engine/mod.rs:95-114 | one loop iteration moves the cursor past the character's cells in the cell expansion, leaves the metadata alone, and panics on a character that is no piece letter, digit `1`..`8` or `/`; when it succeeds is `Fen.StepSucceedsIff`, what it sets is `Fen.StepAgrees` |
| Fen.Walk | src/engine/mod.rs:93-115 | the placement loop, when it completes, leaves the cursor after the last cell of the expansion and the metadata untouched; `Fen.WalkSucceedsIff` and `Fen.WalkAgrees` state when it completes and what the masks are |
| Fen.StepSucceedsIff | src/engine/mod.rs:95-114 | one loop iteration succeeds exactly when the character is a piece letter, digit or `/`, its cells stay within the `u32` cursor range and a piece lands below 64; the cursor advances by the character's cell count |
| Fen.StepAgrees | src/engine/mod.rs:94-114 | one iteration extends agreement with the cell expansion by the character's cells, keeps the metadata, and adds one set bit per piece letter |
| Fen.StepMatchesU64 | src/engine/mod.rs:96-107 | a piece letter's update of the position set is the source's OR of `9223372036854775808 >> pos` into the `u64` mask |
| Fen.ExpectedAppendPiece | src/engine/mod.rs:96-113 | a piece in the next cell adds bit `63 - cell` to its own kind's expected mask only |
| Fen.ExpectedAppendEmpty | src/engine/mod.rs:108 | empty cells change no expected mask |
| Fen.PiecesFitAppend | src/engine/mod.rs:93-114 | the pieces of two concatenated cell runs fit on the board exactly when each run fits at its own starting cursor |
| Fen.PlacementOkCons | src/engine/mod.rs:94-114 | a placement walks exactly when its first character steps and the rest walks from the new cursor |
| Fen.WalkAgrees | src/engine/mod.rs:93-115 | the placement loop ends with every mask equal to the one the cell expansion calls for (cell `k` at bit `63 - k`), the cursor after the last cell, the metadata untouched and one set bit per piece letter |
| Fen.WalkSucceedsIff | src/engine/mod.rs:93-115 | the placement loop completes exactly when every character is valid, every piece lands on one of the 64 squares and the cursor stays a `u32` |
| Fen.EmptyAgrees | src/engine/mod.rs:72-84 | the all-zero board agrees with the empty expansion and has no set bits |
| Fen.AgreesDisjoint | src/engine/mod.rs:96-114 | a board that agrees with a cell expansion has pairwise disjoint masks within the 64 positions |
| Fen.AgreesBit | src/engine/mod.rs:96-107 | under agreement, bit `x` is in a kind's mask exactly when cell `63 - x` holds that kind |
| Fen.ParseFieldsCorrect | src/engine/mod.rs:70-118 | decoding the fields succeeds exactly when the en-passant square maps, both clocks parse and the placement walks. On success the turn is field 1's first character, the castling rights are field 2, and the en-passant target and clocks are fields 3 to 5 converted. The masks are the placement's cell expansion, they are disjoint, and their total count is the number of piece letters |
| Fen.ParseFields | src/engine/mod.rs:72-117 | decoding split fields succeeds only with at least six fields and a non-empty turn field, and then copies the turn's first character and the castling field; `Fen.ParseFieldsCorrect` gives the full condition and result |
| Fen.ParseFen | src/engine/mod.rs:70-118 | a decoded record has at least six whitespace-separated fields and a turn that is not whitespace; `Fen.ParseFenCorrect` gives the full condition |
| Fen.ParseFenCorrect | src/engine/mod.rs:70-118 | on text, decoding fails with fewer than six fields, and otherwise succeeds exactly when the en-passant field, both clocks and the placement are acceptable |
| Fen.ExtraFieldsIgnored | src/engine/mod.rs:86-94 | fields after the sixth never affect the result |
| Fen.ParseFenOfJoin | src/engine/mod.rs:71 | a record written as whitespace-free fields separated by spaces decodes from exactly those fields |
| Fen.NoPieceLettersNoBits | src/engine/mod.rs:108-109 | a placement with no piece letter, such as `8/8/8/8/8/8/8/8`, leaves every mask empty |
| Fen.TurnAndCastlingNotValidated | src/engine/mod.rs:86-87 | any whitespace-free turn and castling words are accepted and copied, the turn as its first character |
| Render.PopulateArray | src/engine/mod.rs:59-68 | each cell becomes the piece where the mask has the bit, and keeps its old character everywhere else |
| Render.BoardArray | src/engine/mod.rs:28-42 | array index `i` holds the letter of the last kind in the render order whose mask has bit `i`, or `.` |
| Render.LaterKindWins | src/engine/mod.rs:31-42 | when several masks share an index, the kind folded last is shown |
| Render.DotIffNoKind | src/engine/mod.rs:28-42 | an index shows `.` exactly when no folded mask has that bit |
| Render.LayeredOfAgrees | src/engine/mod.rs:31-42 | on a decoded board, index `i` shows the occupant of cell `63 - i` when that occupant's kind has been folded in |
| Render.BoardArrayOfAgrees | src/engine/mod.rs:28-42 | after all twelve folds, index `i` shows the occupant of cell `63 - i` of the placement, or `.` |
| Render.Display | src/engine/mod.rs:44-52 | the text is 136 characters. Line `row`, column `col` shows array index `63 - (8 * row + col)` followed by a space, and every line ends in a newline |
| Render.AppendLine | src/engine/mod.rs:46-51 | appending one rendered line keeps the earlier lines and lays out the new one |
| Render.CellOfAgrees | src/engine/mod.rs:46-52 | the character rendered for line `row`, column `col` of a decoded board is the occupant of placement cell `8 * row + col` |
| Render.DisplayOfAgrees | src/engine/mod.rs:46-52 | the rendered text of a decoded board shows, at every line and column, the occupant of the matching placement cell |
| Render.ParsedAgrees | src/engine/mod.rs:93-117 | a decoded board agrees with the cell expansion of its placement field |
| Render.RenderFen | src/engine/mod.rs:26-56 | decode-then-render yields text exactly when decoding succeeds, with the same panic otherwise. Line `row`, column `col` then shows the piece letter or `.` of placement cell `8 * row + col` |

## Left out

- `src/main.rs` is not part of this model. It is entry-point I/O that prints a board.
- The `std::fmt::Formatter` and `write!` plumbing is not modelled; `Render.Display` returns the text as a string.
- Panic messages and unwinding are not modelled; a panic is a `Failure` carrying its cause.
- Build-mode arithmetic is not modelled:
  - a shift by a negative amount or by 64 or more is the debug build's panic, not the release build's masked shift;
  - a `u32` cursor overflow is likewise the debug build's panic, not a wrap-around.
- `Square.SquareToBitboard`: returns the mask as its set of bit positions rather than a `bv64`. `Square.ValidSquareBits` and `Bits.AbsFromTop` state the `u64` value, and `Bits.AbsInjective` shows the two forms determine each other.
- `Render.PopulateArray`: takes the mask as its set of bit positions, so its test is membership. `Bits.AbsHas` shows this is the source's `(bitboard >> i) & 1 == 1`.
- The fold of the twelve masks is a loop over the render order, where the source has twelve written-out calls in the same order.
- Concrete whole-record scenarios, such as the standard starting position, are not stated as separate lemmas; `Fen.ParseFieldsCorrect` and `Render.RenderFen` cover every record.
