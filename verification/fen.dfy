/**
 * `parse_fen`: decoding a FEN record into a `Board`.
 *
 * The record is split on whitespace. Fields 1 to 5 are read first, in the
 * order of the struct literal: the turn is the first character of field 1,
 * the castling rights are field 2 verbatim, the en-passant target is field
 * 3 through the square mapper, and the two clocks are fields 4 and 5 parsed
 * as `i32`. Then the placement, field 0, is walked with a `u32` cursor:
 * a piece letter sets bit `63 - pos` of its own mask and advances the
 * cursor by one, a digit `1`..`8` advances it by its value, `/` does
 * nothing, and any other character panics.
 *
 * The reference meaning of a placement is its cell expansion (`Cells`):
 * the squares in reading order, a piece letter giving one occupied cell and
 * a digit that many empty ones. `WalkAgrees` shows that the cursor walk
 * puts the piece of cell `k` at bit `63 - k`.
 */
module Fen {
  import opened Wrappers
  import opened Text
  import opened Engine
  import opened Square
  import Bits

  /** The largest `u32`, the type of the cursor. */
  const U32Max: nat := 0xFFFF_FFFF

  /** Values of Rust's `u32`. */
  type U32 = x: nat | x <= U32Max

  /** The decoder's state: the board so far and the cursor `pos`. */
  datatype Cursor = Cursor(board: Board, pos: U32)

  predicate IsSkipDigit(c: char) {
    '1' <= c <= '8'
  }

  predicate IsPlacementChar(c: char) {
    PieceOf(c).Some? || IsSkipDigit(c) || c == '/'
  }

  /**
   * One iteration of the placement loop. On success the cursor moves past
   * the character's cells and the metadata is untouched; a character that
   * is no piece letter, digit `1`..`8` or `/` panics.
   */
  function Step(c: char, cur: Cursor): (r: Result<Cursor, Panic>)
    ensures r.Success? ==>
      r.value.pos == cur.pos + |CellsOf(c)| && SameMetadata(r.value.board, cur.board)
    ensures !IsPlacementChar(c) ==> r == Failure(UnexpectedChar(c))
  {
    match PieceOf(c)
    case Some(p) =>
      if cur.pos < 64 then
        var mask := MaskOf(cur.board, p) + {63 - cur.pos};
        Success(Cursor(WithMask(cur.board, p, mask), cur.pos + 1))
      else
        Failure(ShiftOverflow(cur.pos))
    case None =>
      if IsSkipDigit(c) then
        if cur.pos + DigitValue(c) > U32Max then Failure(AddOverflow)
        else Success(Cursor(cur.board, cur.pos + DigitValue(c)))
      else if c == '/' then Success(cur)
      else Failure(UnexpectedChar(c))
  }

  /**
   * The placement loop over `s`, stopping at the first panic. On success
   * the cursor has moved past every cell of `s` and the metadata is
   * untouched.
   */
  function Walk(s: string, cur: Cursor): (r: Result<Cursor, Panic>)
    ensures r.Success? ==>
      r.value.pos == cur.pos + |Cells(s)| && SameMetadata(r.value.board, cur.board)
    decreases |s|
  {
    if s == [] then Success(cur)
    else match Step(s[0], cur)
      case Failure(e) => Failure(e)
      case Success(next) => Walk(s[1..], next)
  }

  /** `n` empty cells. */
  function Empties(n: nat): (cells: seq<Option<Piece>>)
    ensures |cells| == n && forall k :: 0 <= k < n ==> cells[k] == None
  {
    seq(n, _ => None)
  }

  /** The cells one placement character stands for. */
  function CellsOf(c: char): seq<Option<Piece>> {
    if PieceOf(c).Some? then [PieceOf(c)]
    else if IsSkipDigit(c) then Empties(DigitValue(c))
    else []
  }

  /** The cell expansion of a placement: its squares in reading order. */
  function Cells(s: string): seq<Option<Piece>>
    decreases |s|
  {
    if s == [] then [] else CellsOf(s[0]) + Cells(s[1..])
  }

  /** The number of piece letters in `s`. */
  function PieceCount(s: string): nat
    decreases |s|
  {
    if s == [] then 0 else (if PieceOf(s[0]).Some? then 1 else 0) + PieceCount(s[1..])
  }

  /** The occupant of reading-order cell `k`; cells past the end are empty. */
  function Occupant(cells: seq<Option<Piece>>, k: int): Option<Piece> {
    if 0 <= k < |cells| then cells[k] else None
  }

  /** The occupant of the cell that bit `x` stands for: cell `k` is bit `63 - k`. */
  function OccupantOfBit(cells: seq<Option<Piece>>, x: nat): Option<Piece> {
    Occupant(cells, 63 - x)
  }

  /** The mask of `p` that the cells call for. */
  ghost function Expected(cells: seq<Option<Piece>>, p: Piece): Mask {
    set x: nat | x < 64 && OccupantOfBit(cells, x) == Some(p)
  }

  /** Every mask of `b` is the one the cells call for. */
  ghost predicate Agrees(b: Board, cells: seq<Option<Piece>>) {
    forall p :: MaskOf(b, p) == Expected(cells, p)
  }

  /** Every occupied cell is one of the 64 squares. */
  predicate PiecesFit(cells: seq<Option<Piece>>, pos: nat) {
    forall k :: 0 <= k < |cells| && cells[k].Some? ==> pos + k < 64
  }

  /**
   * The placement loop started at cursor `pos` completes exactly when every
   * character is a piece letter, a digit `1`..`8` or `/`, every piece lands
   * on one of the 64 squares, and the cursor never exceeds the `u32` range.
   */
  predicate PlacementOk(s: string, pos: nat) {
    (forall i :: 0 <= i < |s| ==> IsPlacementChar(s[i])) &&
    pos + |Cells(s)| <= U32Max &&
    PiecesFit(Cells(s), pos)
  }

  // ---------------------------------------------------------------------
  // Cell expansion facts

  lemma CellsOfPiece(c: char)
    requires PieceOf(c).Some?
    ensures CellsOf(c) == [PieceOf(c)]
  {
  }

  lemma OccupantAppend(a: seq<Option<Piece>>, b: seq<Option<Piece>>, k: int)
    ensures Occupant(a + b, k) == if 0 <= k < |a| then a[k] else Occupant(b, k - |a|)
  {
  }

  /** Appending one piece at cell `|cells|` adds bit `63 - |cells|` to its own mask only. */
  lemma ExpectedAppendPiece(cells: seq<Option<Piece>>, p: Piece, q: Piece)
    requires |cells| < 64
    ensures Expected(cells + [Some(p)], q) ==
      if q == p then Expected(cells, q) + {63 - |cells|} else Expected(cells, q)
  {
    var cells' := cells + [Some(p)];
    forall x: nat | x < 64
      ensures x in Expected(cells', q) <==> x in Expected(cells, q) || (q == p && x == 63 - |cells|)
    {
      OccupantAppend(cells, [Some(p)], 63 - x);
    }
  }

  /** Appending empty cells changes no expected mask. */
  lemma ExpectedAppendEmpty(cells: seq<Option<Piece>>, more: seq<Option<Piece>>, q: Piece)
    requires forall k :: 0 <= k < |more| ==> more[k] == None
    ensures Expected(cells + more, q) == Expected(cells, q)
  {
    forall x: nat | x < 64
      ensures x in Expected(cells + more, q) <==> x in Expected(cells, q)
    {
      OccupantAppend(cells, more, 63 - x);
    }
  }

  /** The cursor's cell is empty in the cells decoded so far. */
  lemma NextCellFree(b: Board, cells: seq<Option<Piece>>, p: Piece)
    requires Agrees(b, cells) && |cells| < 64
    ensures 63 - |cells| !in MaskOf(b, p)
  {
  }

  // ---------------------------------------------------------------------
  // The walk agrees with the cell expansion

  /** One step keeps the board in agreement with the cells, now extended by the character's cells. */
  lemma StepAgrees(c: char, cur: Cursor, cells: seq<Option<Piece>>)
    requires Agrees(cur.board, cells) && cur.pos == |cells|
    requires Step(c, cur).Success?
    ensures var next := Step(c, cur).value;
      Agrees(next.board, cells + CellsOf(c)) &&
      next.pos == |cells| + |CellsOf(c)| &&
      SameMetadata(next.board, cur.board) &&
      TotalPop(next.board) == TotalPop(cur.board) + (if PieceOf(c).Some? then 1 else 0)
  {
    var next := Step(c, cur).value;
    match PieceOf(c)
    case Some(p) =>
      CellsOfPiece(c);
      forall q
        ensures MaskOf(next.board, q) == Expected(cells + CellsOf(c), q)
      {
        ExpectedAppendPiece(cells, p, q);
      }
      NextCellFree(cur.board, cells, p);
      TotalPopWithMask(cur.board, p, MaskOf(cur.board, p) + {63 - cur.pos});
    case None =>
      forall q
        ensures MaskOf(next.board, q) == Expected(cells + CellsOf(c), q)
      {
        ExpectedAppendEmpty(cells, CellsOf(c), q);
      }
  }

  /**
   * The placement loop, run from a board that agrees with `cells` at
   * cursor `|cells|`, ends agreeing with `cells + Cells(s)`, with the
   * cursor after the last cell, the metadata untouched and one more set bit
   * per piece letter.
   */
  lemma {:induction false} WalkAgrees(s: string, cur: Cursor, cells: seq<Option<Piece>>)
    requires Agrees(cur.board, cells) && cur.pos == |cells|
    requires Walk(s, cur).Success?
    ensures var end := Walk(s, cur).value;
      Agrees(end.board, cells + Cells(s)) &&
      end.pos == |cells| + |Cells(s)| &&
      SameMetadata(end.board, cur.board) &&
      TotalPop(end.board) == TotalPop(cur.board) + PieceCount(s)
    decreases |s|
  {
    if s == [] {
      assert cells + Cells(s) == cells;
    } else {
      var next := Step(s[0], cur).value;
      StepAgrees(s[0], cur, cells);
      WalkAgrees(s[1..], next, cells + CellsOf(s[0]));
      assert cells + CellsOf(s[0]) + Cells(s[1..]) == cells + Cells(s);
    }
  }

  /** One step succeeds exactly when the character is valid and its cells fit at the cursor. */
  lemma StepSucceedsIff(c: char, cur: Cursor)
    ensures Step(c, cur).Success? <==>
      IsPlacementChar(c) && cur.pos + |CellsOf(c)| <= U32Max && PiecesFit(CellsOf(c), cur.pos)
    ensures Step(c, cur).Success? ==> Step(c, cur).value.pos == cur.pos + |CellsOf(c)|
  {
    if PieceOf(c).Some? {
      CellsOfPiece(c);
      assert CellsOf(c)[0].Some?;
    } else if IsSkipDigit(c) {
      assert PiecesFit(CellsOf(c), cur.pos);
    } else {
      assert CellsOf(c) == [];
    }
  }

  lemma PiecesFitAppend(a: seq<Option<Piece>>, b: seq<Option<Piece>>, pos: nat)
    ensures PiecesFit(a + b, pos) <==> PiecesFit(a, pos) && PiecesFit(b, pos + |a|)
  {
    if PiecesFit(a + b, pos) {
      forall k | 0 <= k < |a| && a[k].Some?
        ensures pos + k < 64
      {
        assert (a + b)[k] == a[k];
      }
      forall k | 0 <= k < |b| && b[k].Some?
        ensures pos + |a| + k < 64
      {
        assert (a + b)[|a| + k] == b[k];
      }
    }
    if PiecesFit(a, pos) && PiecesFit(b, pos + |a|) {
      forall k | 0 <= k < |a + b| && (a + b)[k].Some?
        ensures pos + k < 64
      {
        if k >= |a| {
          assert (a + b)[k] == b[k - |a|];
        }
      }
    }
  }

  lemma PlacementCharsCons(s: string)
    requires s != []
    ensures (forall i :: 0 <= i < |s| ==> IsPlacementChar(s[i])) <==>
      IsPlacementChar(s[0]) && forall i :: 0 <= i < |s[1..]| ==> IsPlacementChar(s[1..][i])
  {
    if IsPlacementChar(s[0]) && forall i :: 0 <= i < |s[1..]| ==> IsPlacementChar(s[1..][i]) {
      forall i | 0 <= i < |s|
        ensures IsPlacementChar(s[i])
      {
        if i > 0 {
          assert s[i] == s[1..][i - 1];
        }
      }
    }
  }

  lemma PlacementOkCons(s: string, pos: nat)
    requires s != []
    ensures PlacementOk(s, pos) <==>
      IsPlacementChar(s[0]) && pos + |CellsOf(s[0])| <= U32Max && PiecesFit(CellsOf(s[0]), pos) &&
      PlacementOk(s[1..], pos + |CellsOf(s[0])|)
  {
    assert Cells(s) == CellsOf(s[0]) + Cells(s[1..]);
    PiecesFitAppend(CellsOf(s[0]), Cells(s[1..]), pos);
    PlacementCharsCons(s);
  }

  /** The placement loop completes exactly when `PlacementOk` holds at its start. */
  lemma {:induction false} WalkSucceedsIff(s: string, cur: Cursor)
    ensures Walk(s, cur).Success? <==> PlacementOk(s, cur.pos)
    decreases |s|
  {
    if s != [] {
      StepSucceedsIff(s[0], cur);
      PlacementOkCons(s, cur.pos);
      if Step(s[0], cur).Success? {
        WalkSucceedsIff(s[1..], Step(s[0], cur).value);
      }
    }
  }

  /** Setting a piece through the position set is the source's `mask |= TopBit >> pos` on the `u64`. */
  lemma StepMatchesU64(c: char, cur: Cursor, m: bv64)
    requires PieceOf(c).Some? && cur.pos < 64
    requires Bits.Abs(m) == MaskOf(cur.board, PieceOf(c).value)
    ensures Step(c, cur).Success?
    ensures MaskOf(Step(c, cur).value.board, PieceOf(c).value) == Bits.Abs(m | Bits.FromTop(cur.pos))
  {
    Bits.AbsSetTop(m, cur.pos);
  }

  // ---------------------------------------------------------------------
  // Properties of boards that agree with a cell expansion

  /** The masks of a board with no pieces agree with the empty expansion. */
  lemma EmptyAgrees(b: Board)
    requires forall p :: MaskOf(b, p) == {}
    ensures Agrees(b, []) && TotalPop(b) == 0
  {
    forall p
      ensures MaskOf(b, p) == Expected([], p)
    {
      assert forall x: nat :: x !in Expected([], p);
    }
    assert MaskOf(b, WhitePawn) == {} && MaskOf(b, WhiteRook) == {} && MaskOf(b, WhiteKnight) == {};
    assert MaskOf(b, WhiteBishop) == {} && MaskOf(b, WhiteQueen) == {} && MaskOf(b, WhiteKing) == {};
    assert MaskOf(b, BlackPawn) == {} && MaskOf(b, BlackRook) == {} && MaskOf(b, BlackKnight) == {};
    assert MaskOf(b, BlackBishop) == {} && MaskOf(b, BlackQueen) == {} && MaskOf(b, BlackKing) == {};
  }

  /** Agreement makes the masks pairwise disjoint subsets of the 64 positions. */
  lemma AgreesDisjoint(b: Board, cells: seq<Option<Piece>>)
    requires Agrees(b, cells)
    ensures Disjoint(b)
    ensures forall p :: IsMask(MaskOf(b, p))
  {
    forall p, q, x | p != q && x in MaskOf(b, p)
      ensures x !in MaskOf(b, q)
    {
      assert x in Expected(cells, p);
    }
  }

  /** With agreement, bit `x` is in the mask of `p` exactly when cell `63 - x` holds `p`. */
  lemma AgreesBit(b: Board, cells: seq<Option<Piece>>, p: Piece, x: nat)
    requires Agrees(b, cells)
    ensures x in MaskOf(b, p) <==> x < 64 && Occupant(cells, 63 - x) == Some(p)
  {
    assert MaskOf(b, p) == Expected(cells, p);
  }

  // ---------------------------------------------------------------------
  // parse_fen

  /** `parse_fen` after the whitespace split, over the list of fields. */
  function ParseFields(fields: seq<string>): (r: Result<Board, Panic>)
    ensures r.Success? ==>
      |fields| >= 6 && fields[1] != [] &&
      r.value.turn == fields[1][0] && r.value.castlingRights == fields[2]
  {
    if |fields| < 2 then Failure(IndexOutOfBounds(1, |fields|))
    else if fields[1] == [] then Failure(UnwrapNone)
    else if |fields| < 3 then Failure(IndexOutOfBounds(2, |fields|))
    else if |fields| < 4 then Failure(IndexOutOfBounds(3, |fields|))
    else match SquareToBitboard(fields[3])
      case Failure(e) => Failure(e)
      case Success(enPassant) =>
        if |fields| < 5 then Failure(IndexOutOfBounds(4, |fields|))
        else match ParseI32(fields[4])
          case None => Failure(ParseIntError(fields[4]))
          case Some(half) =>
            if |fields| < 6 then Failure(IndexOutOfBounds(5, |fields|))
            else match ParseI32(fields[5])
              case None => Failure(ParseIntError(fields[5]))
              case Some(full) =>
                var start := EmptyBoard(fields[1][0], fields[2], enPassant, half, full);
                match Walk(fields[0], Cursor(start, 0))
                case Failure(e) => Failure(e)
                case Success(end) => Success(end.board)
  }

  /** `parse_fen`: decode a FEN record, or the panic that stops it. */
  function ParseFen(fenString: string): (r: Result<Board, Panic>)
    ensures r.Success? ==>
      |SplitWhitespace(fenString)| >= 6 && !IsWhitespace(r.value.turn)
  {
    ParseFields(SplitWhitespace(fenString))
  }

  /** The metadata and placement conditions under which the fields decode. */
  predicate FieldsOk(fields: seq<string>) {
    |fields| >= 6 && fields[1] != [] &&
    SquareToBitboard(fields[3]).Success? &&
    ParseI32(fields[4]).Some? && ParseI32(fields[5]).Some? &&
    PlacementOk(fields[0], 0)
  }

  /**
   * Decoding succeeds exactly under `FieldsOk`, and then the board holds
   * the metadata copied or parsed from fields 1 to 5 and, for each piece
   * kind, the mask the cell expansion of field 0 calls for; the masks are
   * disjoint and hold one bit per piece letter.
   */
  lemma ParseFieldsCorrect(fields: seq<string>)
    ensures ParseFields(fields).Success? <==> FieldsOk(fields)
    ensures ParseFields(fields).Success? ==>
      var b := ParseFields(fields).value;
      b.turn == fields[1][0] &&
      b.castlingRights == fields[2] &&
      b.enPassantTarget == SquareToBitboard(fields[3]).value &&
      b.halfMoveClock == ParseI32(fields[4]).value &&
      b.fullMoveClock == ParseI32(fields[5]).value &&
      Agrees(b, Cells(fields[0])) &&
      Disjoint(b) &&
      TotalPop(b) == PieceCount(fields[0])
  {
    if |fields| >= 6 && fields[1] != [] && SquareToBitboard(fields[3]).Success? &&
       ParseI32(fields[4]).Some? && ParseI32(fields[5]).Some? {
      var start := EmptyBoard(fields[1][0], fields[2], SquareToBitboard(fields[3]).value,
                              ParseI32(fields[4]).value, ParseI32(fields[5]).value);
      var cur := Cursor(start, 0);
      WalkSucceedsIff(fields[0], cur);
      if Walk(fields[0], cur).Success? {
        EmptyAgrees(start);
        WalkAgrees(fields[0], cur, []);
        assert [] + Cells(fields[0]) == Cells(fields[0]);
        AgreesDisjoint(Walk(fields[0], cur).value.board, Cells(fields[0]));
      }
    }
  }

  /** Fields after the sixth are never read. */
  lemma ExtraFieldsIgnored(fields: seq<string>)
    requires |fields| >= 6
    ensures ParseFields(fields) == ParseFields(fields[..6])
  {
  }

  /** A record written as whitespace-free fields joined by spaces decodes from exactly those fields. */
  lemma ParseFenOfJoin(fields: seq<string>)
    requires forall i :: 0 <= i < |fields| ==> IsToken(fields[i])
    ensures ParseFen(Join(fields)) == ParseFields(fields)
  {
    SplitJoin(fields);
  }

  /**
   * `parse_fen` on text: it fails with fewer than six fields, otherwise it
   * succeeds exactly when the en-passant field maps, both clocks parse and
   * the placement walks; the board is then as `ParseFieldsCorrect` says.
   */
  lemma ParseFenCorrect(fenString: string)
    ensures var fields := SplitWhitespace(fenString);
      ParseFen(fenString).Success? <==>
        |fields| >= 6 &&
        SquareToBitboard(fields[3]).Success? &&
        ParseI32(fields[4]).Some? && ParseI32(fields[5]).Some? &&
        PlacementOk(fields[0], 0)
  {
    ParseFieldsCorrect(SplitWhitespace(fenString));
  }

  /** A placement with no piece letter, such as `8/8/8/8/8/8/8/8`, leaves every mask empty. */
  lemma NoPieceLettersNoBits(fields: seq<string>)
    requires ParseFields(fields).Success?
    requires PieceCount(fields[0]) == 0
    ensures forall p :: MaskOf(ParseFields(fields).value, p) == {}
  {
    ParseFieldsCorrect(fields);
  }

  /**
   * The turn and castling fields are not checked: any whitespace-free
   * words are accepted and copied, the turn as its first character.
   */
  lemma TurnAndCastlingNotValidated(placement: string, turn: string, castling: string)
    requires IsToken(placement) && IsToken(turn) && IsToken(castling)
    requires PlacementOk(placement, 0)
    ensures var r := ParseFen(Join([placement, turn, castling, "-", "0", "1"]));
      r.Success? && r.value.turn == turn[0] && r.value.castlingRights == castling &&
      r.value.enPassantTarget == {} && r.value.halfMoveClock == 0 && r.value.fullMoveClock == 1
  {
    var fields := [placement, turn, castling, "-", "0", "1"];
    assert IsToken("-") && IsToken("0") && IsToken("1");
    assert forall i :: 0 <= i < |fields| ==> IsToken(fields[i]);
    ParseFenOfJoin(fields);
    OneByteIsEmpty('-');
    ParseOneChar('0');
    ParseOneChar('1');
    assert "-" == ['-'] && "0" == ['0'] && "1" == ['1'];
    ParseFieldsCorrect(fields);
  }
}
