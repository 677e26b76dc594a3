/**
 * `convert_square_to_bitboard`: the en-passant field of a FEN record,
 * an algebraic square such as `e6` or the placeholder `-`, as a mask.
 *
 * The shift amount is `file * 8 + (rank - 1)`, file-major; the placement
 * decoder's cursor runs rank-major from the top, so the two conventions
 * disagree (see `MapperDisagreesWithPlacement`).
 */
module Square {
  import opened Wrappers
  import opened Text
  import opened Engine
  import Bits

  /** The file letters, in the order whose index is the file number. */
  const Alphabet: string := "abcdefgh"

  /** The index of the first occurrence of `c` in `Alphabet`, if any. */
  function FileIndex(c: char): (r: Option<nat>)
    ensures r.Some? ==> r.value < 8 && Alphabet[r.value] == c
    ensures r.None? <==> c !in Alphabet
  {
    if c == 'a' then Some(0)
    else if c == 'b' then Some(1)
    else if c == 'c' then Some(2)
    else if c == 'd' then Some(3)
    else if c == 'e' then Some(4)
    else if c == 'f' then Some(5)
    else if c == 'g' then Some(6)
    else if c == 'h' then Some(7)
    else None
  }

  /**
   * The mask for a square: empty when the text is a single byte long,
   * otherwise the single position `63 - (file * 8 + rank - 1)`, where the
   * shift must lie in `0 .. 63`.
   */
  function SquareToBitboard(square: string): (r: Result<Mask, Panic>)
    ensures r.Success? ==> IsMask(r.value) && |r.value| <= 1
  {
    if Utf8Length(square) == 1 then Success({})
    else if |square| < 2 then Failure(UnwrapNone)
    else match FileIndex(square[0])
      case None => Failure(UnwrapNone)
      case Some(file) =>
        match ParseI32([square[1]])
        case None => Failure(ParseIntError([square[1]]))
        case Some(rank) =>
          var shift := file * 8 + (rank as int - 1);
          if 0 <= shift < 64 then Success({63 - shift}) else Failure(ShiftOverflow(shift))
  }

  /** The shift amount of a well-formed square `f r`, `f` in a..h and `r` in 1..8. */
  function SquareIndex(file: nat, rank: nat): int {
    file * 8 + rank - 1
  }

  /** Any one-character ASCII text, `-` or not, maps to the empty mask. */
  lemma OneByteIsEmpty(c: char)
    requires c as int < 0x80
    ensures SquareToBitboard([c]) == Success({})
  {
    assert Utf8Length([c]) == 1;
  }

  /** A file letter followed by a rank digit `1`..`8` maps to exactly one bit. */
  lemma ValidSquare(square: string, file: nat, rank: nat)
    requires file < 8 && 1 <= rank <= 8
    requires |square| >= 2 && square[0] == Alphabet[file] && square[1] == DigitChar(rank)
    ensures SquareToBitboard(square) == Success({63 - SquareIndex(file, rank)})
    ensures 0 <= SquareIndex(file, rank) < 64
  {
    assert Utf8Length(square) != 1;
    ParseOneChar(DigitChar(rank));
  }

  /** The same square as the `u64` the source computes, `TopBit >> shift`. */
  lemma ValidSquareBits(square: string, file: nat, rank: nat)
    requires file < 8 && 1 <= rank <= 8
    requires |square| >= 2 && square[0] == Alphabet[file] && square[1] == DigitChar(rank)
    ensures SquareToBitboard(square) == Success(Bits.Abs(Bits.FromTop(SquareIndex(file, rank) as nat)))
  {
    ValidSquare(square, file, rank);
    Bits.AbsFromTop(SquareIndex(file, rank) as nat);
  }

  lemma SquareIndexInjective(f1: nat, r1: nat, f2: nat, r2: nat)
    requires 1 <= r1 <= 8 && 1 <= r2 <= 8
    requires (f1, r1) != (f2, r2)
    ensures SquareIndex(f1, r1) != SquareIndex(f2, r2)
  {
    if f1 < f2 {
      assert SquareIndex(f1, r1) < f1 * 8 + 8 <= f2 * 8 <= SquareIndex(f2, r2);
    } else if f2 < f1 {
      assert SquareIndex(f2, r2) < f2 * 8 + 8 <= f1 * 8 <= SquareIndex(f1, r1);
    }
  }

  /** Distinct well-formed squares give distinct masks. */
  lemma ValidSquaresDistinct(s1: string, f1: nat, r1: nat, s2: string, f2: nat, r2: nat)
    requires f1 < 8 && 1 <= r1 <= 8 && |s1| >= 2 && s1[0] == Alphabet[f1] && s1[1] == DigitChar(r1)
    requires f2 < 8 && 1 <= r2 <= 8 && |s2| >= 2 && s2[0] == Alphabet[f2] && s2[1] == DigitChar(r2)
    requires (f1, r1) != (f2, r2)
    ensures SquareToBitboard(s1) != SquareToBitboard(s2)
  {
    ValidSquare(s1, f1, r1);
    ValidSquare(s2, f2, r2);
    var x1 := 63 - SquareIndex(f1, r1);
    var x2 := 63 - SquareIndex(f2, r2);
    SquareIndexInjective(f1, r1, f2, r2);
    assert x1 in {x1} && x1 !in {x2};
  }

  /**
   * The mapper succeeds exactly when the text is one byte long, or when its
   * first character is a file letter, its second a decimal digit, and the
   * shift lies in `0 .. 63`; characters after the second are not read.
   */
  lemma SquareSucceedsIff(square: string)
    ensures SquareToBitboard(square).Success? <==>
      Utf8Length(square) == 1 ||
      (|square| >= 2 && square[0] in Alphabet && IsDigit(square[1]) &&
       0 <= FileIndex(square[0]).value * 8 + DigitValue(square[1]) - 1 < 64)
  {
    if |square| >= 2 {
      ParseOneChar(square[1]);
    }
  }

  /** Only the first two characters of a longer text matter. */
  lemma TrailingIgnored(square: string, rest: string)
    requires |square| == 2
    ensures SquareToBitboard(square + rest) == SquareToBitboard(square)
  {
    var s := square + rest;
    assert s[0] == square[0] && s[1] == square[1];
    assert Utf8Length(s) != 1 && Utf8Length(square) != 1;
  }

  /** Rank `9` is not rejected: it names the first rank of the next file. */
  lemma RankNineAliases(file: nat)
    requires file < 7
    ensures SquareToBitboard([Alphabet[file], '9']) == SquareToBitboard([Alphabet[file + 1], '1'])
  {
    var s := [Alphabet[file], '9'];
    var t := [Alphabet[file + 1], '1'];
    assert s[0] == Alphabet[file] && s[1] == '9' && t[0] == Alphabet[file + 1] && t[1] == '1';
    assert Utf8Length(s) != 1 && Utf8Length(t) != 1;
    ParseOneChar('9');
    ParseOneChar('1');
  }

  /** `a0` shifts by -1 and `h9` by 64: both stop with a shift overflow. */
  lemma OutOfRangeShifts()
    ensures SquareToBitboard("a0") == Failure(ShiftOverflow(-1))
    ensures SquareToBitboard("h9") == Failure(ShiftOverflow(64))
  {
    ParseOneChar('0');
    ParseOneChar('9');
    assert Utf8Length("a0") != 1 && Utf8Length("h9") != 1;
  }

  /** A first character that is not a file letter stops at the `unwrap` of the lookup. */
  lemma BadFile(square: string)
    requires |square| >= 2 && square[0] !in Alphabet
    ensures SquareToBitboard(square) == Failure(UnwrapNone)
  {
  }

  /** A second character that is not a digit stops at the `unwrap` of the parse. */
  lemma BadRank(square: string)
    requires |square| >= 2 && square[0] in Alphabet && !IsDigit(square[1])
    ensures SquareToBitboard(square) == Failure(ParseIntError([square[1]]))
  {
    ParseOneChar(square[1]);
  }

  /**
   * For every well-formed square, the mapper's bit differs from the bit the
   * placement decoder sets for that square. In a placement whose ranks each
   * hold exactly eight cells (the decoder never checks this), the decoder
   * puts file `f`, rank `r` at cursor `(8 - r) * 8 + f`, that is bit
   * `63 - ((8 - r) * 8 + f)`.
   */
  lemma MapperDisagreesWithPlacement(square: string, file: nat, rank: nat)
    requires file < 8 && 1 <= rank <= 8
    requires |square| >= 2 && square[0] == Alphabet[file] && square[1] == DigitChar(rank)
    ensures SquareToBitboard(square) != Success({63 - ((8 - rank) * 8 + file)})
  {
    ValidSquare(square, file, rank);
    assert 63 - SquareIndex(file, rank) in {63 - SquareIndex(file, rank)};
  }
}
