/**
 * A Block is one cell of the grid holding one integer, 0 meaning empty
 * (main.py:26-57).  The grid stores the integers themselves; this module
 * holds the Block constants, the tile-value invariant and the fixed-width
 * text of a cell.  The mutators clear and new_val act on a cell of the grid
 * and are methods of Game.Grid.
 */
module Block {

  /** Display width of one cell (main.py:27). */
  const Width: int := 6
  /** The value of an empty cell (main.py:28). */
  const EmptyVal: int := 0

  predicate IsEmpty(v: int)
  {
    v == EmptyVal
  }

  // ---------------------------------------------------------------------
  // Tile values: 0, or a power of two that is at least 2
  // ---------------------------------------------------------------------

  predicate IsPowerOfTwo(v: int)
    decreases v
  {
    v == 1 || (v > 1 && v % 2 == 0 && IsPowerOfTwo(v / 2))
  }

  predicate IsTileValue(v: int)
  {
    v == EmptyVal || (v >= 2 && IsPowerOfTwo(v))
  }

  /** Doubling a tile, as a merge does, yields a tile. */
  lemma DoubleIsTile(v: int)
    requires IsTileValue(v)
    ensures IsTileValue(v * 2)
    ensures v != EmptyVal ==> v * 2 != EmptyVal
  {
    if v != EmptyVal {
      assert (v * 2) / 2 == v;
    }
  }

  /** The two values new_val can produce, randint(1, 2) * 2, are tiles (main.py:35). */
  lemma NewValueIsTile(coin: int)
    requires 1 <= coin <= 2
    ensures IsTileValue(coin * 2) && !IsEmpty(coin * 2)
  {
    assert IsPowerOfTwo(2);
    assert IsPowerOfTwo(4) by { assert IsPowerOfTwo(4 / 2); }
  }

  /** Every tile is non-negative, and a non-empty tile is at least 2. */
  lemma TileBounds(v: int)
    requires IsTileValue(v)
    ensures v >= 0 && (v != EmptyVal ==> v >= 2)
  {
  }

  // ---------------------------------------------------------------------
  // Decimal text, as Python's str on an int
  // ---------------------------------------------------------------------

  predicate IsDigit(c: char)
  {
    '0' <= c <= '9'
  }

  function DigitChar(d: int): (c: char)
    requires 0 <= d < 10
    ensures IsDigit(c) && c as int - '0' as int == d
  {
    "0123456789"[d]
  }

  /** The decimal digits of v, most significant first, without leading zeros. */
  function NatDigits(v: nat): (s: string)
    ensures |s| >= 1
    ensures forall j :: 0 <= j < |s| ==> IsDigit(s[j])
    decreases v
  {
    if v < 10 then [DigitChar(v)] else NatDigits(v / 10) + [DigitChar(v % 10)]
  }

  function DecimalString(v: int): (s: string)
    ensures |s| >= 1 && (s[0] == '-' <==> v < 0)
    ensures s[0] == '-' || IsDigit(s[0])
    ensures forall j :: 1 <= j < |s| ==> IsDigit(s[j])
    ensures IsDigit(s[|s| - 1])
  {
    if v < 0 then "-" + NatDigits(-v) else NatDigits(v)
  }

  function ParseNat(s: string): int
    requires forall j :: 0 <= j < |s| ==> IsDigit(s[j])
  {
    if s == [] then 0 else ParseNat(s[..|s| - 1]) * 10 + (s[|s| - 1] as int - '0' as int)
  }

  function ParseInt(s: string): int
    requires |s| >= 1
    requires s[0] == '-' || IsDigit(s[0])
    requires forall j :: 1 <= j < |s| ==> IsDigit(s[j])
  {
    if s[0] == '-' then -ParseNat(s[1..]) else ParseNat(s)
  }

  lemma {:induction false} NatDigitsRoundTrip(v: nat)
    ensures ParseNat(NatDigits(v)) == v
    decreases v
  {
    if v >= 10 {
      NatDigitsRoundTrip(v / 10);
      var s := NatDigits(v);
      assert s[..|s| - 1] == NatDigits(v / 10);
    }
  }

  /** Reading the decimal text back gives the value: the text loses nothing. */
  lemma DecimalRoundTrip(v: int)
    ensures var s := DecimalString(v);
            (s[0] == '-' || IsDigit(s[0])) && ParseInt(s) == v
  {
    if v < 0 {
      NatDigitsRoundTrip(-v);
      assert DecimalString(v)[1..] == NatDigits(-v);
    } else {
      NatDigitsRoundTrip(v);
    }
  }

  /** A natural number has at most k >= 1 digits exactly when it is below 10^k. */
  lemma {:induction false} DigitsFit(v: nat, k: nat)
    requires k >= 1
    ensures |NatDigits(v)| <= k <==> v < Pow10(k)
    decreases v
  {
    if v >= 10 && k >= 2 {
      DigitsFit(v / 10, k - 1);
    } else if v < 10 {
      Pow10AtLeast10(k);
    } else {
      assert |NatDigits(v)| == |NatDigits(v / 10)| + 1;
    }
  }

  function Pow10(k: nat): int
  {
    if k == 0 then 1 else 10 * Pow10(k - 1)
  }

  lemma {:induction false} Pow10Positive(k: nat)
    ensures Pow10(k) >= 1
  {
    if k > 0 { Pow10Positive(k - 1); }
  }

  lemma Pow10AtLeast10(k: nat)
    requires k >= 1
    ensures Pow10(k) >= 10
  {
    Pow10Positive(k - 1);
  }

  // ---------------------------------------------------------------------
  // Fixed-width cell text (main.py:46-57)
  // ---------------------------------------------------------------------

  /** Python's " " * k: k spaces, or nothing when k is not positive. */
  function Spaces(k: int): (s: string)
    ensures |s| == if k > 0 then k else 0
    ensures forall j :: 0 <= j < |s| ==> s[j] == ' '
  {
    if k <= 0 then "" else seq(k, _ => ' ')
  }

  /** Python's int(x / 2): halve, truncating towards zero. */
  function TruncHalf(x: int): int
  {
    if x >= 0 then x / 2 else -((-x) / 2)
  }

  /**
   * The text of a cell: an empty cell is Width spaces; otherwise the
   * decimal digits, centred in Width characters with the odd space on the
   * right; a value wider than Width is shown unpadded.
   */
  function StringifyVal(v: int): (r: string)
    ensures IsEmpty(v) ==> |r| == Width && forall j :: 0 <= j < Width ==> r[j] == ' '
    ensures !IsEmpty(v) && |DecimalString(v)| <= Width ==>
              var s := DecimalString(v);
              var lead := (Width - |s|) / 2;
              && |r| == Width
              && r[lead..lead + |s|] == s
              && (forall j :: 0 <= j < lead ==> r[j] == ' ')
              && (forall j :: lead + |s| <= j < Width ==> r[j] == ' ')
              && lead <= Width - |s| - lead <= lead + 1
    ensures !IsEmpty(v) && |DecimalString(v)| > Width ==> r == DecimalString(v)
  {
    if !IsEmpty(v) then
      var s := DecimalString(v);
      var spaces := Width - |s|;
      var pos := TruncHalf(spaces);
      Spaces(pos) + s + Spaces(Width - |s| - pos)
    else
      Spaces(Width)
  }

  /** Leading and trailing spaces removed. */
  function Strip(s: string): (r: string)
    decreases |s|
  {
    if |s| > 0 && s[0] == ' ' then Strip(s[1..])
    else if |s| > 0 && s[|s| - 1] == ' ' then Strip(s[..|s| - 1])
    else s
  }

  lemma {:induction false} StripPadded(a: nat, s: string, b: nat)
    requires |s| >= 1 && s[0] != ' ' && s[|s| - 1] != ' '
    ensures Strip(Spaces(a) + s + Spaces(b)) == s
    decreases a + b
  {
    var t := Spaces(a) + s + Spaces(b);
    if a > 0 {
      assert t[1..] == Spaces(a - 1) + s + Spaces(b);
      StripPadded(a - 1, s, b);
    } else if b > 0 {
      assert t[0] == s[0];
      assert t[..|t| - 1] == Spaces(0) + s + Spaces(b - 1);
      StripPadded(0, s, b - 1);
    } else {
      assert t == s;
    }
  }

  /** A non-empty cell's text is its decimal text padded by spaces on both sides. */
  lemma StringifyValPadded(v: int) returns (a: nat, b: nat)
    requires !IsEmpty(v)
    ensures StringifyVal(v) == Spaces(a) + DecimalString(v) + Spaces(b)
  {
    var s := DecimalString(v);
    var pos := TruncHalf(Width - |s|);
    a := if pos > 0 then pos else 0;
    b := if Width - |s| - pos > 0 then Width - |s| - pos else 0;
    assert StringifyVal(v) == Spaces(pos) + s + Spaces(Width - |s| - pos);
    assert Spaces(pos) == Spaces(a);
    assert Spaces(Width - |s| - pos) == Spaces(b);
  }

  /** The value of a non-empty cell can be read back from its text. */
  lemma StringifyValReadable(v: int)
    requires !IsEmpty(v)
    ensures var t := Strip(StringifyVal(v));
            |t| >= 1 && (t[0] == '-' || IsDigit(t[0])) &&
            (forall j :: 1 <= j < |t| ==> IsDigit(t[j])) && ParseInt(t) == v
  {
    var a, b := StringifyValPadded(v);
    StripPadded(a, DecimalString(v), b);
    DecimalRoundTrip(v);
  }
}
