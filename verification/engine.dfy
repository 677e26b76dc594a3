/**
 * The engine's board: twelve occupancy masks, one per piece kind, and the
 * metadata fields of a FEN record.
 *
 * A `u64` mask is represented by the set of positions of its set bits
 * (bit 0 is the least significant); module Bits proves that this
 * representation is exact and that the bit operations the engine performs
 * are the set operations used here.
 */
module Engine {
  import opened Wrappers
  import opened Text

  /** The set of set-bit positions of a `u64`; every member is below 64. */
  type Mask = set<nat>

  predicate IsMask(m: Mask) {
    forall x :: x in m ==> x < 64
  }

  datatype Piece =
    | WhitePawn | WhiteRook | WhiteKnight | WhiteBishop | WhiteQueen | WhiteKing
    | BlackPawn | BlackRook | BlackKnight | BlackBishop | BlackQueen | BlackKing

  /** The FEN letter of a piece kind, upper case for white. */
  function Letter(p: Piece): char {
    match p
    case WhitePawn => 'P'
    case WhiteRook => 'R'
    case WhiteKnight => 'N'
    case WhiteBishop => 'B'
    case WhiteQueen => 'Q'
    case WhiteKing => 'K'
    case BlackPawn => 'p'
    case BlackRook => 'r'
    case BlackKnight => 'n'
    case BlackBishop => 'b'
    case BlackQueen => 'q'
    case BlackKing => 'k'
  }

  /** The piece kind a placement letter names, if any. */
  function PieceOf(c: char): (r: Option<Piece>)
    ensures r.Some? ==> Letter(r.value) == c
  {
    match c
    case 'P' => Some(WhitePawn)
    case 'R' => Some(WhiteRook)
    case 'N' => Some(WhiteKnight)
    case 'B' => Some(WhiteBishop)
    case 'Q' => Some(WhiteQueen)
    case 'K' => Some(WhiteKing)
    case 'p' => Some(BlackPawn)
    case 'r' => Some(BlackRook)
    case 'n' => Some(BlackKnight)
    case 'b' => Some(BlackBishop)
    case 'q' => Some(BlackQueen)
    case 'k' => Some(BlackKing)
    case _ => None
  }

  /** The letters for which the decoder advances its cursor by one. */
  const PieceLetters: string := "PRNBQKprnbqk"

  /** `PieceOf` and `Letter` are inverse, and `PieceLetters` lists exactly the piece letters. */
  lemma LetterRoundTrip(p: Piece, c: char)
    ensures PieceOf(Letter(p)) == Some(p)
    ensures PieceOf(c).Some? <==> c in PieceLetters
    ensures PieceOf(c).None? ==> Letter(p) != c
  {
  }

  lemma LetterInjective(p: Piece, q: Piece)
    ensures Letter(p) == Letter(q) <==> p == q
  {
    LetterRoundTrip(p, Letter(p));
    LetterRoundTrip(q, Letter(q));
  }

  /** The order in which the renderer folds the masks into its array. */
  const RenderOrder: seq<Piece> := [
    WhitePawn, WhiteRook, WhiteKnight, WhiteBishop, WhiteQueen, WhiteKing,
    BlackPawn, BlackRook, BlackKnight, BlackBishop, BlackQueen, BlackKing
  ]

  /** The place of a piece kind in `RenderOrder`. */
  function OrderIndex(p: Piece): nat {
    match p
    case WhitePawn => 0
    case WhiteRook => 1
    case WhiteKnight => 2
    case WhiteBishop => 3
    case WhiteQueen => 4
    case WhiteKing => 5
    case BlackPawn => 6
    case BlackRook => 7
    case BlackKnight => 8
    case BlackBishop => 9
    case BlackQueen => 10
    case BlackKing => 11
  }

  lemma OrderIndexInverse(p: Piece)
    ensures OrderIndex(p) < |RenderOrder| && RenderOrder[OrderIndex(p)] == p
    ensures forall i :: 0 <= i < |RenderOrder| ==> OrderIndex(RenderOrder[i]) == i
  {
  }

  /** Every piece kind appears in `RenderOrder` exactly once, spelled by `PieceLetters`. */
  lemma RenderOrderIsPermutation(p: Piece)
    ensures p in RenderOrder
    ensures forall i, j :: 0 <= i < j < |RenderOrder| ==> RenderOrder[i] != RenderOrder[j]
    ensures forall i :: 0 <= i < |RenderOrder| ==> Letter(RenderOrder[i]) == PieceLetters[i]
  {
    OrderIndexInverse(p);
    forall i, j | 0 <= i < j < |RenderOrder|
      ensures RenderOrder[i] != RenderOrder[j]
    {
      OrderIndexInverse(RenderOrder[i]);
    }
  }

  /** A parsed position. */
  datatype Board = Board(
    whitePawns: Mask,
    whiteRooks: Mask,
    whiteKnights: Mask,
    whiteBishops: Mask,
    whiteQueens: Mask,
    whiteKing: Mask,
    blackPawns: Mask,
    blackRooks: Mask,
    blackKnights: Mask,
    blackBishops: Mask,
    blackQueens: Mask,
    blackKing: Mask,
    turn: char,
    castlingRights: string,
    enPassantTarget: Mask,
    halfMoveClock: i32,
    fullMoveClock: i32)

  /** The occupancy mask of one piece kind. */
  function MaskOf(b: Board, p: Piece): Mask {
    match p
    case WhitePawn => b.whitePawns
    case WhiteRook => b.whiteRooks
    case WhiteKnight => b.whiteKnights
    case WhiteBishop => b.whiteBishops
    case WhiteQueen => b.whiteQueens
    case WhiteKing => b.whiteKing
    case BlackPawn => b.blackPawns
    case BlackRook => b.blackRooks
    case BlackKnight => b.blackKnights
    case BlackBishop => b.blackBishops
    case BlackQueen => b.blackQueens
    case BlackKing => b.blackKing
  }

  /** `b` with the mask of `p` replaced by `m`. */
  function WithMask(b: Board, p: Piece, m: Mask): (r: Board)
    ensures MaskOf(r, p) == m
    ensures forall q :: q != p ==> MaskOf(r, q) == MaskOf(b, q)
    ensures SameMetadata(r, b)
  {
    match p
    case WhitePawn => b.(whitePawns := m)
    case WhiteRook => b.(whiteRooks := m)
    case WhiteKnight => b.(whiteKnights := m)
    case WhiteBishop => b.(whiteBishops := m)
    case WhiteQueen => b.(whiteQueens := m)
    case WhiteKing => b.(whiteKing := m)
    case BlackPawn => b.(blackPawns := m)
    case BlackRook => b.(blackRooks := m)
    case BlackKnight => b.(blackKnights := m)
    case BlackBishop => b.(blackBishops := m)
    case BlackQueen => b.(blackQueens := m)
    case BlackKing => b.(blackKing := m)
  }

  predicate SameMetadata(a: Board, b: Board) {
    a.turn == b.turn && a.castlingRights == b.castlingRights &&
    a.enPassantTarget == b.enPassantTarget &&
    a.halfMoveClock == b.halfMoveClock && a.fullMoveClock == b.fullMoveClock
  }

  /** Two boards with the same metadata and the same twelve masks are equal. */
  lemma BoardExtensionality(a: Board, b: Board)
    requires SameMetadata(a, b)
    requires forall p :: MaskOf(a, p) == MaskOf(b, p)
    ensures a == b
  {
    assert MaskOf(a, WhitePawn) == MaskOf(b, WhitePawn);
    assert MaskOf(a, WhiteRook) == MaskOf(b, WhiteRook);
    assert MaskOf(a, WhiteKnight) == MaskOf(b, WhiteKnight);
    assert MaskOf(a, WhiteBishop) == MaskOf(b, WhiteBishop);
    assert MaskOf(a, WhiteQueen) == MaskOf(b, WhiteQueen);
    assert MaskOf(a, WhiteKing) == MaskOf(b, WhiteKing);
    assert MaskOf(a, BlackPawn) == MaskOf(b, BlackPawn);
    assert MaskOf(a, BlackRook) == MaskOf(b, BlackRook);
    assert MaskOf(a, BlackKnight) == MaskOf(b, BlackKnight);
    assert MaskOf(a, BlackBishop) == MaskOf(b, BlackBishop);
    assert MaskOf(a, BlackQueen) == MaskOf(b, BlackQueen);
    assert MaskOf(a, BlackKing) == MaskOf(b, BlackKing);
  }

  /** The sum of the population counts of the twelve masks. */
  function TotalPop(b: Board): nat {
    |b.whitePawns| + |b.whiteRooks| + |b.whiteKnights| + |b.whiteBishops| +
    |b.whiteQueens| + |b.whiteKing| + |b.blackPawns| + |b.blackRooks| +
    |b.blackKnights| + |b.blackBishops| + |b.blackQueens| + |b.blackKing|
  }

  /** Replacing one mask changes the total by the change in that mask's count. */
  lemma TotalPopWithMask(b: Board, p: Piece, m: Mask)
    ensures TotalPop(WithMask(b, p, m)) == TotalPop(b) - |MaskOf(b, p)| + |m|
  {
  }

  /** A board with all twelve masks empty and the given metadata. */
  function EmptyBoard(turn: char, castling: string, enPassant: Mask, half: i32, full: i32): (b: Board)
    ensures forall p :: MaskOf(b, p) == {}
    ensures TotalPop(b) == 0
  {
    Board({}, {}, {}, {}, {}, {}, {}, {}, {}, {}, {}, {},
          turn, castling, enPassant, half, full)
  }

  /** No position is in two masks. */
  ghost predicate Disjoint(b: Board) {
    forall p, q, x :: p != q && x in MaskOf(b, p) ==> x !in MaskOf(b, q)
  }

  /**
   * The ways the engine stops with a panic: indexing past the end of the
   * field list, unwrapping `None`, unwrapping a failed integer parse, a
   * shift by an amount outside `0 .. 63`, overflowing the `u32` cursor, and
   * the decoder's explicit `panic!()` on an unexpected character.
   */
  datatype Panic =
    | IndexOutOfBounds(index: nat, len: nat)
    | UnwrapNone
    | ParseIntError(text: string)
    | ShiftOverflow(amount: int)
    | AddOverflow
    | UnexpectedChar(c: char)
}
