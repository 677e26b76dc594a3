/**
 * `Display::fmt` and `populate_array`: the board as text.
 *
 * The twelve masks are folded, in `RenderOrder`, into a 64-character array
 * that starts all `.`; each fold writes the piece letter at every index
 * whose bit is set, so on a shared index the later kind wins. The array is
 * then written from index 63 down to 0, eight characters per line, each
 * followed by a space, and each line followed by a newline: reading-order
 * cell `k` (line `k / 8`, column `k % 8`) shows index `63 - k`.
 */
module Render {
  import opened Wrappers
  import opened Text
  import opened Engine
  import opened Fen

  /**
   * `populate_array`: write `piece` at every index whose bit is set in
   * `bitboard` (the source's test `(bitboard >> i) & 1 == 1`, which
   * `Bits.AbsHas` shows is membership) and keep every other cell.
   */
  method PopulateArray(arr: seq<char>, piece: char, bitboard: Mask) returns (r: seq<char>)
    requires |arr| == 64
    ensures |r| == 64
    ensures forall i :: 0 <= i < 64 ==> r[i] == (if i in bitboard then piece else arr[i])
  {
    r := arr;
    var i := 0;
    while i < 64
      invariant 0 <= i <= 64 && |r| == 64
      invariant forall k :: 0 <= k < i ==> r[k] == (if k in bitboard then piece else arr[k])
      invariant forall k :: i <= k < 64 ==> r[k] == arr[k]
    {
      if i in bitboard {
        r := r[i := piece];
      }
      i := i + 1;
    }
  }

  /** The character at array index `i` after folding the masks of `order`, first to last, into `.`s. */
  function Layered(b: Board, order: seq<Piece>, i: nat): char
    decreases |order|
  {
    if order == [] then '.'
    else if i in MaskOf(b, order[|order| - 1]) then Letter(order[|order| - 1])
    else Layered(b, order[..|order| - 1], i)
  }

  /** The array `Display::fmt` builds before writing it out. */
  method BoardArray(b: Board) returns (arr: seq<char>)
    ensures |arr| == 64
    ensures forall i :: 0 <= i < 64 ==> arr[i] == Layered(b, RenderOrder, i)
  {
    arr := seq(64, _ => '.');
    var j := 0;
    while j < |RenderOrder|
      invariant 0 <= j <= |RenderOrder| && |arr| == 64
      invariant forall i :: 0 <= i < 64 ==> arr[i] == Layered(b, RenderOrder[..j], i)
    {
      arr := PopulateArray(arr, Letter(RenderOrder[j]), MaskOf(b, RenderOrder[j]));
      assert RenderOrder[..j + 1][..j] == RenderOrder[..j];
      j := j + 1;
    }
    assert RenderOrder[..|RenderOrder|] == RenderOrder;
  }

  /** The text index of the character at line `row`, column `col`. */
  function Offset(row: nat, col: nat): nat {
    17 * row + 2 * col
  }

  /** The text index of the newline ending line `row`. */
  function LineEnd(row: nat): nat {
    17 * row + 16
  }

  /**
   * The rendered board: eight lines of eight "character, space" pairs and a
   * newline; line `row`, column `col` shows array index `63 - (8 * row + col)`.
   */
  method Display(b: Board) returns (text: string)
    ensures |text| == 136
    ensures forall row, col :: 0 <= row < 8 && 0 <= col < 8 ==>
      text[Offset(row, col)] == Layered(b, RenderOrder, 63 - (8 * row + col)) &&
      text[Offset(row, col) + 1] == ' '
    ensures forall row :: 0 <= row < 8 ==> text[LineEnd(row)] == '\n'
  {
    var arr := BoardArray(b);
    text := [];
    var i := 8;
    while i > 0
      invariant 0 <= i <= 8 && |text| == 17 * (8 - i)
      invariant forall row, col :: 0 <= row < 8 - i && 0 <= col < 8 ==>
        text[Offset(row, col)] == arr[63 - (8 * row + col)] && text[Offset(row, col) + 1] == ' '
      invariant forall row :: 0 <= row < 8 - i ==> text[LineEnd(row)] == '\n'
    {
      i := i - 1;
      var line := [];
      var j := 8;
      while j > 0
        invariant 0 <= j <= 8 && |line| == 2 * (8 - j)
        invariant forall col :: 0 <= col < 8 - j ==>
          line[2 * col] == arr[i * 8 + 7 - col] && line[2 * col + 1] == ' '
      {
        j := j - 1;
        line := line + [arr[i * 8 + j], ' '];
      }
      line := line + ['\n'];
      AppendLine(text, line, 7 - i, arr);
      text := text + line;
    }
  }

  /** Appending the line for `row` extends the rendered prefix by one line. */
  lemma AppendLine(text: string, line: string, row: nat, arr: seq<char>)
    requires row < 8 && |arr| == 64 && |text| == 17 * row && |line| == 17
    requires forall r, col :: 0 <= r < row && 0 <= col < 8 ==>
      text[Offset(r, col)] == arr[63 - (8 * r + col)] && text[Offset(r, col) + 1] == ' '
    requires forall r :: 0 <= r < row ==> text[LineEnd(r)] == '\n'
    requires forall col :: 0 <= col < 8 ==>
      line[2 * col] == arr[(7 - row) * 8 + 7 - col] && line[2 * col + 1] == ' '
    requires line[16] == '\n'
    ensures forall r, col :: 0 <= r < row + 1 && 0 <= col < 8 ==>
      (text + line)[Offset(r, col)] == arr[63 - (8 * r + col)] && (text + line)[Offset(r, col) + 1] == ' '
    ensures forall r :: 0 <= r < row + 1 ==> (text + line)[LineEnd(r)] == '\n'
  {
    var t := text + line;
    forall r, col | 0 <= r < row + 1 && 0 <= col < 8
      ensures t[Offset(r, col)] == arr[63 - (8 * r + col)] && t[Offset(r, col) + 1] == ' '
    {
      if r == row {
        assert t[Offset(r, col)] == line[2 * col];
        assert t[Offset(r, col) + 1] == line[2 * col + 1];
      }
    }
    assert t[LineEnd(row)] == line[16];
  }

  // ---------------------------------------------------------------------
  // What the array shows

  /**
   * Later kinds win: when the mask of `order[j]` holds `i` and no later
   * kind's mask does, index `i` shows the letter of `order[j]`.
   */
  lemma {:induction false} LaterKindWins(b: Board, order: seq<Piece>, i: nat, j: nat)
    requires j < |order| && i in MaskOf(b, order[j])
    requires forall j' :: j < j' < |order| ==> i !in MaskOf(b, order[j'])
    ensures Layered(b, order, i) == Letter(order[j])
    decreases |order|
  {
    var init := order[..|order| - 1];
    if j < |order| - 1 {
      assert init[j] == order[j];
      LaterKindWins(b, init, i, j);
    }
  }

  /** An index that no mask of `order` holds stays `.`, and only such an index does. */
  lemma {:induction false} DotIffNoKind(b: Board, order: seq<Piece>, i: nat)
    ensures Layered(b, order, i) == '.' <==> forall j :: 0 <= j < |order| ==> i !in MaskOf(b, order[j])
    decreases |order|
  {
    if order != [] {
      var init := order[..|order| - 1];
      DotIffNoKind(b, init, i);
      LetterRoundTrip(order[|order| - 1], '.');
      assert forall j :: 0 <= j < |init| ==> init[j] == order[j];
    }
  }

  /** The glyph the renderer uses for a cell's occupant. */
  function GlyphOf(o: Option<Piece>): char {
    if o.Some? then Letter(o.value) else '.'
  }

  /**
   * On a board that agrees with a cell expansion, index `i` shows the
   * occupant of cell `63 - i`, provided the occupant's kind is in `order`.
   */
  lemma {:induction false} LayeredOfAgrees(b: Board, cells: seq<Option<Piece>>, order: seq<Piece>, i: nat)
    requires Agrees(b, cells) && i < 64
    ensures var o := Occupant(cells, 63 - i);
      Layered(b, order, i) == if o.Some? && o.value in order then Letter(o.value) else '.'
    decreases |order|
  {
    if order != [] {
      var last := order[|order| - 1];
      var init := order[..|order| - 1];
      AgreesBit(b, cells, last, i);
      LayeredOfAgrees(b, cells, init, i);
      assert order == init + [last];
    }
  }

  /** With all twelve kinds folded in, the array shows exactly the cell expansion, mirrored. */
  lemma BoardArrayOfAgrees(b: Board, cells: seq<Option<Piece>>, i: nat)
    requires Agrees(b, cells) && i < 64
    ensures Layered(b, RenderOrder, i) == GlyphOf(Occupant(cells, 63 - i))
  {
    LayeredOfAgrees(b, cells, RenderOrder, i);
    var o := Occupant(cells, 63 - i);
    if o.Some? {
      RenderOrderIsPermutation(o.value);
    }
  }

  /** One rendered cell of a board that agrees with a cell expansion shows that cell's occupant. */
  lemma CellOfAgrees(b: Board, cells: seq<Option<Piece>>, row: nat, col: nat, shown: char)
    requires Agrees(b, cells) && row < 8 && col < 8
    requires shown == Layered(b, RenderOrder, 63 - (8 * row + col))
    ensures shown == GlyphOf(Occupant(cells, 8 * row + col))
  {
    var k := 8 * row + col;
    BoardArrayOfAgrees(b, cells, 63 - k);
    assert 63 - (63 - k) == k;
  }

  /** The rendered text of a board that agrees with a cell expansion shows that expansion. */
  lemma DisplayOfAgrees(b: Board, cells: seq<Option<Piece>>, text: string)
    requires Agrees(b, cells) && |text| == 136
    requires forall row, col :: 0 <= row < 8 && 0 <= col < 8 ==>
      text[Offset(row, col)] == Layered(b, RenderOrder, 63 - (8 * row + col))
    ensures forall row, col :: 0 <= row < 8 && 0 <= col < 8 ==>
      text[Offset(row, col)] == GlyphOf(Occupant(cells, 8 * row + col))
  {
    forall row, col | 0 <= row < 8 && 0 <= col < 8
      ensures text[Offset(row, col)] == GlyphOf(Occupant(cells, 8 * row + col))
    {
      CellOfAgrees(b, cells, row, col, text[Offset(row, col)]);
    }
  }

  /** A decoded board agrees with the cell expansion of its placement field. */
  lemma ParsedAgrees(fenString: string)
    requires ParseFen(fenString).Success?
    ensures Agrees(ParseFen(fenString).value, Cells(SplitWhitespace(fenString)[0]))
  {
    ParseFieldsCorrect(SplitWhitespace(fenString));
  }

  /**
   * Decode a FEN record and render it. The text exists exactly when the
   * record decodes, and then line `row`, column `col` shows the occupant
   * of reading-order cell `8 * row + col` of the placement field.
   */
  method RenderFen(fenString: string) returns (r: Result<string, Panic>)
    ensures r.Success? <==> ParseFen(fenString).Success?
    ensures r.Failure? ==> r.error == ParseFen(fenString).error
    ensures r.Success? ==>
      var placement := SplitWhitespace(fenString)[0];
      |r.value| == 136 &&
      forall row, col :: 0 <= row < 8 && 0 <= col < 8 ==>
        r.value[Offset(row, col)] == GlyphOf(Occupant(Cells(placement), 8 * row + col))
  {
    var parsed := ParseFen(fenString);
    if parsed.Failure? {
      return Failure(parsed.error);
    }
    ParsedAgrees(fenString);
    var text := Display(parsed.value);
    DisplayOfAgrees(parsed.value, Cells(SplitWhitespace(fenString)[0]), text);
    r := Success(text);
  }
}
