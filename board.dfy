/**
 * The board helpers of knight_tour.py: the bounds test of the fixed 8 by 8
 * board and the translation between coordinate pairs and algebraic names.
 *
 * A square is the pair (x, y) where x is the rank index (0 for rank "1")
 * and y is the file index (0 for file "a").
 */
module Board {
  import opened Wrappers

  /** The board is hard-wired to 8 by 8. */
  const Size: int := 8

  type Square = (int, int)

  /** `is_valid`: the pair lies on the board, so it is one of the 64 squares numbered by Code. */
  predicate IsValid(x: int, y: int): (valid: bool)
    ensures valid ==> 0 <= Code((x, y)) < Size * Size
  {
    0 <= x < Size && 0 <= y < Size
  }

  /** The characters Python's `int` turns into a number when given one character (ASCII only here). */
  predicate IsDigit(c: char) {
    '0' <= c <= '9'
  }

  function DigitValue(c: char): (n: int)
    requires IsDigit(c)
    ensures 0 <= n <= 9
  {
    c as int - '0' as int
  }

  function DigitChar(n: int): (c: char)
    requires 0 <= n <= 9
    ensures IsDigit(c) && DigitValue(c) == n
  {
    ('0' as int + n) as char
  }

  /** The number a string of decimal digits denotes, most significant digit first. */
  function DigitsValue(s: string): nat
    requires forall i :: 0 <= i < |s| ==> IsDigit(s[i])
  {
    if s == [] then 0 else 10 * DigitsValue(s[..|s| - 1]) + DigitValue(s[|s| - 1])
  }

  /** The decimal numeral of a natural number, as `str` writes it: its digits denote `n`, with no sign and no leading zero. */
  function NatToString(n: nat): (s: string)
    ensures 1 <= |s| && forall i :: 0 <= i < |s| ==> IsDigit(s[i])
    ensures DigitsValue(s) == n
    ensures |s| > 1 ==> s[0] != '0'
    ensures |s| == 1 <==> n <= 9
  {
    if n <= 9 then [DigitChar(n)]
    else
      var front := NatToString(n / 10);
      assert (front + [DigitChar(n % 10)])[..|front|] == front;
      front + [DigitChar(n % 10)]
  }

  /** The decimal numeral of an integer, as `str` writes it: a minus sign for negative numbers. */
  function IntToString(n: int): (s: string)
    ensures 1 <= |s| && (s[0] == '-' <==> n < 0)
    ensures forall i :: 0 < i < |s| ==> IsDigit(s[i])
    ensures n >= 0 ==> IsDigit(s[0]) && DigitsValue(s) == n && (|s| > 1 ==> s[0] != '0')
    ensures n < 0 ==> |s| >= 2 && DigitsValue(s[1..]) == -n && (|s| > 2 ==> s[1] != '0')
    ensures |s| == 1 <==> 0 <= n <= 9
  {
    if n < 0 then
      var digits := NatToString(-n);
      assert ("-" + digits)[1..] == digits;
      "-" + digits
    else NatToString(n)
  }

  /**
   * Code points that `chr` accepts but a Dafny `char` cannot hold. They are
   * excluded from the domain of ToAlgebraic.
   */
  predicate IsSurrogate(code: int) {
    0xD800 <= code < 0xE000
  }

  /**
   * `to_algebraic`: the file letter `chr(y + ord('a'))` followed by the rank
   * number `x + 1`. None stands for the failure of `chr` on a code point
   * outside [0, 0x110000).
   */
  function ToAlgebraic(x: int, y: int): (name: Option<string>)
    requires !IsSurrogate(y + 'a' as int)
    ensures name.Some? <==> 0 <= y + 'a' as int < 0x11_0000
    ensures name.Some? ==> |name.value| >= 2 && name.value[0] as int == y + 'a' as int
    ensures name.Some? ==> (|name.value| == 2 <==> -1 <= x <= 8) && (name.value[1] == '-' <==> x < -1)
  {
    var code := y + 'a' as int;
    if 0 <= code < 0x11_0000 then Some([code as char] + IntToString(x + 1)) else None
  }

  /**
   * `from_algebraic`: reads `pos[1]` as a digit and `pos[0]` as a letter and
   * yields `(int(pos[1]) - 1, ord(pos[0]) - ord('a'))`, with no bounds check.
   * None stands for the IndexError of a name shorter than two characters and
   * the ValueError of a second character that is not a digit.
   */
  function FromAlgebraic(pos: string): (square: Option<Square>)
    ensures square.Some? <==> |pos| >= 2 && IsDigit(pos[1])
    ensures square.Some? ==> -1 <= square.value.0 <= 8 && square.value.1 + 'a' as int == pos[0] as int
  {
    if |pos| < 2 || !IsDigit(pos[1]) then None
    else Some((DigitValue(pos[1]) - 1, pos[0] as int - 'a' as int))
  }

  /** Formatting a square and reading the name back gives the square again. */
  lemma RoundTrip(x: int, y: int)
    requires -1 <= x <= 8 && 0 <= y + 'a' as int < 0x11_0000 && !IsSurrogate(y + 'a' as int)
    ensures ToAlgebraic(x, y).Some? && |ToAlgebraic(x, y).value| == 2
    ensures FromAlgebraic(ToAlgebraic(x, y).value) == Some((x, y))
  {
    var name := ToAlgebraic(x, y).value;
    assert name == [(y + 'a' as int) as char, DigitChar(x + 1)];
  }

  /** Reading a two-character name and formatting the result gives the name again. */
  lemma ParseThenFormat(pos: string)
    requires |pos| == 2 && IsDigit(pos[1])
    ensures FromAlgebraic(pos).Some?
    ensures var sq := FromAlgebraic(pos).value;
      !IsSurrogate(sq.1 + 'a' as int) && ToAlgebraic(sq.0, sq.1) == Some(pos)
  {
    var sq := FromAlgebraic(pos).value;
    assert sq.1 + 'a' as int == pos[0] as int;
    assert !IsSurrogate(pos[0] as int);
    assert ([(sq.1 + 'a' as int) as char]) == [pos[0]];
    assert IntToString(sq.0 + 1) == [pos[1]];
    assert ToAlgebraic(sq.0, sq.1).value == [pos[0]] + [pos[1]] == pos;
  }

  /** Only the first two characters of a name are read. */
  lemma ReadsFirstTwoCharacters(pos: string, rest: string)
    requires |pos| == 2
    ensures FromAlgebraic(pos + rest) == FromAlgebraic(pos)
  {
  }

  /**
   * A name is rejected exactly when it is too short or its second character
   * is not a digit: `|pos| < 2` is the IndexError of `pos[1]`, and a
   * non-digit `pos[1]` is the ValueError of `int(pos[1])`. Both are the
   * exceptions `main` catches; every other name is read without complaint.
   */
  lemma FromAlgebraicFails(pos: string)
    ensures FromAlgebraic(pos).None? <==> |pos| < 2 || !IsDigit(pos[1])
  {
  }

  /** The names that denote a square on the board are exactly those starting with a file a-h and a rank 1-8. */
  lemma OnBoardNames(pos: string)
    ensures (FromAlgebraic(pos).Some? && IsValid(FromAlgebraic(pos).value.0, FromAlgebraic(pos).value.1))
        <==> (|pos| >= 2 && 'a' <= pos[0] <= 'h' && '1' <= pos[1] <= '8')
  {
  }

  /** A pair is on the board exactly when its name is a file a-h followed by a single rank digit 1-8. */
  lemma ValidIffStandardName(x: int, y: int)
    requires !IsSurrogate(y + 'a' as int)
    ensures IsValid(x, y) <==>
      (ToAlgebraic(x, y).Some? &&
       var name := ToAlgebraic(x, y).value;
       |name| == 2 && 'a' <= name[0] <= 'h' && '1' <= name[1] <= '8')
  {
    var code := y + 'a' as int;
    if 0 <= code < 0x11_0000 {
      var name := ToAlgebraic(x, y).value;
      if x + 1 < 0 {
        assert name[1] == '-';
      } else {
        assert |name| == 2 <==> x + 1 <= 9;
        if x + 1 <= 9 {
          assert name[1] == DigitChar(x + 1);
        }
      }
    }
  }

  /** The worked examples of the doc comments, names off the board, and ranks whose number is not one digit. */
  lemma NamedExamples()
    ensures ToAlgebraic(0, 0) == Some("a1")
    ensures ToAlgebraic(9, 0) == Some("a10") && ToAlgebraic(-3, 7) == Some("h-2")
    ensures FromAlgebraic("a1") == Some((0, 0))
    ensures FromAlgebraic("h8") == Some((7, 7))
    ensures FromAlgebraic("z9") == Some((8, 25)) && !IsValid(8, 25)
    ensures FromAlgebraic("a10") == Some((0, 0))
    ensures FromAlgebraic("a") == None && FromAlgebraic("ax") == None
  {
    assert IntToString(1) == [DigitChar(1)] == "1";
    assert [('a' as int) as char] == "a";
    assert ToAlgebraic(0, 0).value == "a" + "1" == "a1";
    assert IntToString(10) == NatToString(1) + [DigitChar(0)] == "10";
    assert ToAlgebraic(9, 0).value == "a" + "10" == "a10";
    assert IntToString(-2) == "-" + [DigitChar(2)] == "-2";
    assert [('a' as int + 7) as char] == "h";
    assert ToAlgebraic(-3, 7).value == "h" + "-2" == "h-2";
  }

  /** The number of a square in row-major order; distinct board squares get distinct numbers below 64. */
  function Code(sq: Square): int {
    Size * sq.0 + sq.1
  }

  lemma CodeDetermines(sq: Square)
    requires IsValid(sq.0, sq.1)
    ensures sq == (Code(sq) / Size, Code(sq) % Size)
  {
  }

  lemma {:induction false} SquaresBelowCode(squares: set<Square>, n: nat)
    requires forall sq :: sq in squares ==> IsValid(sq.0, sq.1) && Code(sq) < n
    ensures |squares| <= n
    decreases n
  {
    if n > 0 {
      var top: Square := ((n - 1) / Size, (n - 1) % Size);
      var rest := squares - {top};
      forall sq | sq in rest
        ensures IsValid(sq.0, sq.1) && Code(sq) < n - 1
      {
        CodeDetermines(sq);
      }
      SquaresBelowCode(rest, n - 1);
    }
  }

  /** The board has 64 squares, so any set of on-board squares has at most 64 elements. */
  lemma BoardSquaresBound(squares: set<Square>)
    requires forall sq :: sq in squares ==> IsValid(sq.0, sq.1)
    ensures |squares| <= Size * Size
  {
    SquaresBelowCode(squares, Size * Size);
  }
}
