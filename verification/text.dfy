/**
 * Text primitives the FEN decoder relies on: Rust's `split_whitespace`,
 * the UTF-8 byte length behind `str::len`, and `str::parse::<i32>`.
 * Strings are sequences of Unicode scalar values.
 */
module Text {
  import opened Wrappers

  /** Rust's `char::is_whitespace`: the Unicode White_Space property. */
  predicate IsWhitespace(c: char) {
    || ('\t' <= c <= '\r')
    || c == ' '
    || c == '\U{85}'
    || c == '\U{A0}'
    || c == '\U{1680}'
    || ('\U{2000}' <= c <= '\U{200A}')
    || c == '\U{2028}'
    || c == '\U{2029}'
    || c == '\U{202F}'
    || c == '\U{205F}'
    || c == '\U{3000}'
  }

  /** A field as `split_whitespace` yields it: non-empty, no whitespace. */
  predicate IsToken(t: string) {
    |t| > 0 && forall i :: 0 <= i < |t| ==> !IsWhitespace(t[i])
  }

  /** The characters of `s` that are not whitespace, in order. */
  function NonWhitespace(s: string): string {
    if s == [] then []
    else (if IsWhitespace(s[0]) then [] else [s[0]]) + NonWhitespace(s[1..])
  }

  /** All fields glued together without separators. */
  function Concat(fields: seq<string>): string {
    if fields == [] then [] else fields[0] + Concat(fields[1..])
  }

  /** The fields written back with one space between neighbours. */
  function Join(fields: seq<string>): string {
    if fields == [] then []
    else if |fields| == 1 then fields[0]
    else fields[0] + " " + Join(fields[1..])
  }

  lemma {:induction false} NonWhitespaceAppend(a: string, b: string)
    ensures NonWhitespace(a + b) == NonWhitespace(a) + NonWhitespace(b)
  {
    if a == [] {
      assert a + b == b;
    } else {
      assert (a + b)[1..] == a[1..] + b;
      NonWhitespaceAppend(a[1..], b);
    }
  }

  lemma {:induction false} NonWhitespaceOfWord(w: string)
    requires forall i :: 0 <= i < |w| ==> !IsWhitespace(w[i])
    ensures NonWhitespace(w) == w
  {
    if w != [] {
      NonWhitespaceOfWord(w[1..]);
    }
  }

  /** The longest prefix of `s` that holds no whitespace. */
  function Word(s: string): (w: string)
    ensures |w| <= |s| && w == s[..|w|]
    ensures forall i :: 0 <= i < |w| ==> !IsWhitespace(w[i])
    ensures |w| == |s| || IsWhitespace(s[|w|])
  {
    if s == [] || IsWhitespace(s[0]) then [] else [s[0]] + Word(s[1..])
  }

  /**
   * Rust's `str::split_whitespace`: the maximal runs of non-whitespace
   * characters. Every field is a token, and the fields together hold
   * exactly the non-whitespace characters of `s`.
   */
  function SplitWhitespace(s: string): (fields: seq<string>)
    ensures forall i :: 0 <= i < |fields| ==> IsToken(fields[i])
    ensures Concat(fields) == NonWhitespace(s)
    decreases |s|
  {
    if s == [] then []
    else if IsWhitespace(s[0]) then SplitWhitespace(s[1..])
    else
      var w := Word(s);
      var rest := SplitWhitespace(s[|w|..]);
      assert s == w + s[|w|..];
      NonWhitespaceAppend(w, s[|w|..]);
      NonWhitespaceOfWord(w);
      [w] + rest
  }

  lemma {:induction false} WordOfToken(t: string, rest: string)
    requires forall i :: 0 <= i < |t| ==> !IsWhitespace(t[i])
    requires rest == [] || IsWhitespace(rest[0])
    ensures Word(t + rest) == t
  {
    if t == [] {
      assert t + rest == rest;
    } else {
      assert (t + rest)[1..] == t[1..] + rest;
      WordOfToken(t[1..], rest);
    }
  }

  /** Splitting the space-joined tokens gives the tokens back. */
  /** Whitespace before the first field is skipped. */
  lemma SplitSkipsWhitespace(c: char, s: string)
    requires IsWhitespace(c)
    ensures SplitWhitespace([c] + s) == SplitWhitespace(s)
  {
    assert ([c] + s)[1..] == s;
  }

  /**
   * A token followed by whitespace or the end of the text is one field:
   * fields break exactly at whitespace.
   */
  lemma SplitTakesToken(t: string, s: string)
    requires IsToken(t)
    requires s == [] || IsWhitespace(s[0])
    ensures SplitWhitespace(t + s) == [t] + SplitWhitespace(s)
  {
    WordOfToken(t, s);
    assert (t + s)[|t|..] == s;
  }

  lemma {:induction false} SplitJoin(fields: seq<string>)
    requires forall i :: 0 <= i < |fields| ==> IsToken(fields[i])
    ensures SplitWhitespace(Join(fields)) == fields
  {
    if fields == [] {
    } else if |fields| == 1 {
      var t := fields[0];
      WordOfToken(t, []);
      assert t + [] == t;
      assert t[|t|..] == [];
    } else {
      var t := fields[0];
      var tail := Join(fields[1..]);
      var s := t + " " + tail;
      assert Join(fields) == s;
      WordOfToken(t, " " + tail);
      assert s == t + (" " + tail);
      assert Word(s) == t;
      assert s[|t|..] == " " + tail;
      assert (" " + tail)[1..] == tail;
      SplitJoin(fields[1..]);
      assert SplitWhitespace(" " + tail) == SplitWhitespace(tail);
    }
  }

  /** Number of bytes UTF-8 needs for `c`. */
  function Utf8Width(c: char): nat {
    if c as int < 0x80 then 1
    else if c as int < 0x800 then 2
    else if c as int < 0x1_0000 then 3
    else 4
  }

  /**
   * Rust's `str::len`: the UTF-8 byte length. It is at least the number
   * of characters, and it is 1 exactly for a single ASCII character.
   */
  function Utf8Length(s: string): (n: nat)
    ensures n >= |s|
    ensures n == 1 <==> |s| == 1 && s[0] as int < 0x80
  {
    if s == [] then 0 else Utf8Width(s[0]) + Utf8Length(s[1..])
  }

  predicate IsDigit(c: char) {
    '0' <= c <= '9'
  }

  predicate AllDigits(s: string) {
    forall i :: 0 <= i < |s| ==> IsDigit(s[i])
  }

  function DigitValue(c: char): (d: nat)
    requires IsDigit(c)
    ensures d < 10
  {
    c as int - '0' as int
  }

  function DigitChar(d: nat): (c: char)
    requires d < 10
    ensures IsDigit(c) && DigitValue(c) == d
  {
    ('0' as int + d) as char
  }

  /** The value of a string of decimal digits, most significant first. */
  function DecimalValue(s: string): nat
    requires AllDigits(s)
  {
    if s == [] then 0
    else DecimalValue(s[..|s| - 1]) * 10 + DigitValue(s[|s| - 1])
  }

  /** The shortest decimal spelling of `n`. */
  function Decimal(n: nat): (s: string)
    ensures |s| > 0 && AllDigits(s)
  {
    if n < 10 then [DigitChar(n)] else Decimal(n / 10) + [DigitChar(n % 10)]
  }

  lemma {:induction false} DecimalValueOfDecimal(n: nat)
    ensures DecimalValue(Decimal(n)) == n
  {
    if n >= 10 {
      var s := Decimal(n / 10) + [DigitChar(n % 10)];
      assert s[..|s| - 1] == Decimal(n / 10);
      DecimalValueOfDecimal(n / 10);
    }
  }

  const I32Min: int := -0x8000_0000
  const I32Max: int := 0x7FFF_FFFF

  /** Rust's `i32`. */
  newtype i32 = x: int | -0x8000_0000 <= x < 0x8000_0000

  /**
   * Rust's `str::parse::<i32>`: an optional `+` or `-`, then at least one
   * ASCII digit, with a value that fits in 32 bits.
   */
  function ParseI32(s: string): (r: Option<i32>)
    ensures s == [] ==> r.None?
    ensures r.Some? ==> forall i :: 0 < i < |s| ==> IsDigit(s[i])
    ensures r.Some? ==> IsDigit(s[0]) || (|s| >= 2 && (s[0] == '+' || s[0] == '-'))
    ensures r.Some? && s[0] != '-' ==> r.value >= 0
  {
    if s == [] then None
    else if (s[0] == '+' || s[0] == '-') && |s| == 1 then None
    else
      var digits := if s[0] == '+' || s[0] == '-' then s[1..] else s;
      if !AllDigits(digits) then None
      else
        var v: int := if s[0] == '-' then 0 - DecimalValue(digits) else DecimalValue(digits);
        if I32Min <= v <= I32Max then Some(v as i32) else None
  }

  /** Parsing the decimal spelling of an in-range count gives it back. */
  lemma ParseDecimal(n: nat)
    requires n <= I32Max
    ensures ParseI32(Decimal(n)) == Some(n as i32)
    ensures ParseI32("+" + Decimal(n)) == Some(n as i32)
  {
    DecimalValueOfDecimal(n);
    var s := Decimal(n);
    assert ("+" + s)[1..] == s;
  }

  /** A minus sign negates, down to the most negative `i32`. */
  lemma ParseNegativeDecimal(n: nat)
    requires n <= -I32Min
    ensures ParseI32("-" + Decimal(n)) == Some((0 - n) as i32)
  {
    DecimalValueOfDecimal(n);
    var s := Decimal(n);
    assert ("-" + s)[1..] == s;
  }

  /** A single character parses exactly when it is a digit, to its value. */
  lemma ParseOneChar(c: char)
    ensures ParseI32([c]).Some? <==> IsDigit(c)
    ensures IsDigit(c) ==> ParseI32([c]) == Some(DigitValue(c) as i32)
  {
    assert [c][0] == c;
    assert AllDigits([c]) <==> IsDigit(c);
    if IsDigit(c) {
      assert [c][..0] == [];
      assert DecimalValue([c]) == DigitValue(c);
    }
  }
}
