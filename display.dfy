/**
 * The plain-text picture of the grid built by _plaintext_disp
 * (main.py:83-93).  Every row of cells takes int(Width / 2) text lines
 * followed by a horizontal rule, and the cell values are written on
 * sub-line int(Width / 4) of their row; the other sub-lines hold blanks.
 * The three nested loops of the source become three nested
 * concatenations.  When every cell's text is Width characters wide, each
 * text line is 7 * n + 2 characters long and the text of cell (r, c) sits
 * at a fixed offset from which its value can be read back.
 */
module Display {
  import opened Directions
  import opened Block

  /** Text lines per row of cells, int(Block.width / 2) (main.py:86). */
  const SubRows: int := Width / 2
  /** The sub-line that shows the values, int(Block.width / 4) (main.py:89). */
  const ValueRow: int := Width / 4

  /** The pieces laid end to end, as the repeated += of the source. */
  function Concat(parts: seq<string>): string
  {
    if parts == [] then "" else parts[0] + Concat(parts[1..])
  }

  /** The segment of the rule above or below one cell: Width dashes and a "+". */
  function RuleCell(): string
  {
    seq(Width, _ => '-') + "+"
  }

  /** The horizontal rule, "+" + ("-" * width + "+") * n + "\n" (main.py:84). */
  function Rule(n: nat): string
  {
    "+" + Concat(seq(n, _ => RuleCell())) + "\n"
  }

  /** What cell value v contributes to sub-line i: its text on the value sub-line, blanks elsewhere (main.py:89). */
  function CellText(v: int, i: int): string
  {
    if i == ValueRow then StringifyVal(v) else Spaces(Width)
  }

  /** The value of cell (r, c), grid[to_flat(r, c)] (main.py:77, 88). */
  function CellValue(n: nat, g: seq<int>, r: int, c: int): int
    requires |g| == n * n && 0 <= r < n && 0 <= c < n
  {
    MulMono(r, n - 1, n);
    g[r * n + c]
  }

  lemma CellValueIsFlat(n: nat, g: seq<int>, r: int, c: int)
    requires |g| == n * n && 0 <= r < n && 0 <= c < n
    ensures CellValue(n, g, r, c) == g[ToFlat(n, r, c)]
  {
  }

  /** The cells of sub-line i of row r, each a "|" and the cell's text. */
  function LineCells(n: nat, g: seq<int>, r: int, i: int): (parts: seq<string>)
    requires |g| == n * n && 0 <= r < n
    ensures |parts| == n
  {
    seq(n, c requires 0 <= c < n => "|" + CellText(CellValue(n, g, r, c), i))
  }

  /** Sub-line i of row r: its cells, then "|\n" (main.py:87-91). */
  function CellsLine(n: nat, g: seq<int>, r: int, i: int): string
    requires |g| == n * n && 0 <= r < n
  {
    Concat(LineCells(n, g, r, i)) + "|\n"
  }

  /** The sub-lines of row r. */
  function RowLines(n: nat, g: seq<int>, r: int): (parts: seq<string>)
    requires |g| == n * n && 0 <= r < n
    ensures |parts| == SubRows
  {
    seq(SubRows, i => CellsLine(n, g, r, i))
  }

  /** The text of row r: its SubRows sub-lines, then the rule (main.py:86-92). */
  function RowText(n: nat, g: seq<int>, r: int): string
    requires |g| == n * n && 0 <= r < n
  {
    Concat(RowLines(n, g, r)) + Rule(n)
  }

  /** The texts of the rows of the grid. */
  function Bands(n: nat, g: seq<int>): (parts: seq<string>)
    requires |g| == n * n
    ensures |parts| == n
  {
    seq(n, r requires 0 <= r < n => RowText(n, g, r))
  }

  /** _plaintext_disp: the rule, then the text of every row (main.py:83-93). */
  function PlaintextDisp(n: nat, g: seq<int>): string
    requires |g| == n * n
  {
    Rule(n) + Concat(Bands(n, g))
  }

  // ---------------------------------------------------------------------
  // Pieces of equal length
  // ---------------------------------------------------------------------

  ghost predicate Uniform(parts: seq<string>, w: int)
  {
    forall j :: 0 <= j < |parts| ==> |parts[j]| == w
  }

  lemma {:induction false} ConcatLength(parts: seq<string>, w: int)
    requires Uniform(parts, w)
    ensures |Concat(parts)| == |parts| * w
    decreases |parts|
  {
    if parts != [] {
      ConcatLength(parts[1..], w);
      assert |parts| * w == w + (|parts| - 1) * w;
    }
  }

  /** Piece k of pieces of length w starts k * w characters in. */
  lemma {:induction false} ConcatAt(parts: seq<string>, w: int, k: int)
    requires Uniform(parts, w) && 0 <= k < |parts|
    ensures |Concat(parts)| == |parts| * w
    ensures 0 <= k * w && k * w + w <= |parts| * w
    ensures Concat(parts)[k * w..k * w + w] == parts[k]
    decreases k
  {
    ConcatLength(parts, w);
    var rest := Concat(parts[1..]);
    ConcatLength(parts[1..], w);
    assert Concat(parts) == parts[0] + rest;
    if k == 0 {
      assert (parts[0] + rest)[0..w] == parts[0];
    } else {
      ConcatAt(parts[1..], w, k - 1);
      assert k * w == w + (k - 1) * w;
      assert rest[(k - 1) * w..(k - 1) * w + w] == parts[k];
      assert |parts| * w == w + (|parts| - 1) * w;
      assert (parts[0] + rest)[k * w..k * w + w] == rest[(k - 1) * w..(k - 1) * w + w];
    }
  }

  /** A slice of piece k of pieces of length w, found in their concatenation followed by a tail. */
  lemma SliceOfLeadingPiece(parts: seq<string>, tail: string, w: int, k: int, z: int, m: int, t: string)
    requires Uniform(parts, w) && 0 <= k < |parts|
    requires 0 <= z && 0 <= m && z + m <= w && parts[k][z..z + m] == t
    ensures |Concat(parts) + tail| == |parts| * w + |tail|
    ensures 0 <= k * w && k * w + z + m <= |parts| * w
    ensures (Concat(parts) + tail)[k * w + z..k * w + z + m] == t
  {
    var s := Concat(parts);
    ConcatAt(parts, w, k);
    SliceOfSlice(s, k * w, w, z, m);
    assert (s + tail)[k * w + z..k * w + z + m] == s[k * w + z..k * w + z + m];
  }

  lemma SliceOfSlice(s: string, x: int, m: int, y: int, w: int)
    requires 0 <= x && 0 <= m && x + m <= |s| && 0 <= y && 0 <= w && y + w <= m
    ensures s[x..x + m][y..y + w] == s[x + y..x + y + w]
  {
    var a := s[x..x + m][y..y + w];
    var b := s[x + y..x + y + w];
    forall k | 0 <= k < w ensures a[k] == b[k] {
    }
  }

  // ---------------------------------------------------------------------
  // Layout of the picture
  // ---------------------------------------------------------------------

  /** Every cell's text is exactly Width characters wide. */
  predicate Fits(g: seq<int>)
  {
    forall j :: 0 <= j < |g| ==> |StringifyVal(g[j])| == Width
  }

  /** A cell's text has width Width exactly when the cell is empty or its decimal text fits. */
  lemma FitsIff(v: int)
    ensures |StringifyVal(v)| == Width <==> IsEmpty(v) || |DecimalString(v)| <= Width
  {
  }

  /** A non-negative value below 10^Width, in particular every 2048 tile that small, fits. */
  lemma SmallValueFits(v: int)
    requires 0 <= v < Pow10(Width)
    ensures |StringifyVal(v)| == Width
  {
    DigitsFit(v, Width);
    FitsIff(v);
  }

  /**
   * Characters in one text line of an n by n grid: Width + 1 = 7 per cell
   * (a "|" and the cell's text), then "|" and the newline.
   */
  function LineLength(n: int): int
  {
    7 * n + 2
  }

  /** Characters in the text of one row of cells: SubRows + 1 = 4 lines. */
  function BandLength(n: int): int
  {
    4 * LineLength(n)
  }

  /**
   * Offset of the first character of cell (r, c) in the picture: past the
   * top rule, r bands, ValueRow = 1 sub-line, and c cells and a "|" of the
   * value sub-line.
   */
  function CellOffset(n: int, r: int, c: int): (x: int)
    requires 0 <= r < n && 0 <= c < n
    ensures 0 <= x && x + Width <= (4 * n + 1) * LineLength(n)
  {
    MulMono(0, r, BandLength(n));
    MulMono(r + 1, n, BandLength(n));
    MulSucc(r, BandLength(n));
    LinesArith(n, LineLength(n));
    LineLength(n) + r * BandLength(n) + LineLength(n) + 7 * c + 1
  }

  lemma RuleLength(n: nat)
    ensures |Rule(n)| == LineLength(n)
  {
    var parts := seq(n, _ => RuleCell());
    ConcatLength(parts, Width + 1);
  }

  lemma LineCellsUniform(n: nat, g: seq<int>, r: int, i: int)
    requires |g| == n * n && 0 <= r < n && Fits(g)
    ensures Uniform(LineCells(n, g, r, i), Width + 1)
  {
    var parts := LineCells(n, g, r, i);
    forall c | 0 <= c < n ensures |parts[c]| == Width + 1 {
      MulMono(r, n - 1, n);
      assert |StringifyVal(g[r * n + c])| == Width;
    }
  }

  lemma CellsLineLength(n: nat, g: seq<int>, r: int, i: int)
    requires |g| == n * n && 0 <= r < n && Fits(g)
    ensures |CellsLine(n, g, r, i)| == LineLength(n)
  {
    LineCellsUniform(n, g, r, i);
    ConcatLength(LineCells(n, g, r, i), Width + 1);
  }

  /** Within a sub-line, the text of cell c starts 7 * c + 1 characters in. */
  lemma CellsLineCell(n: nat, g: seq<int>, r: int, i: int, c: int)
    requires |g| == n * n && 0 <= r < n && 0 <= c < n && Fits(g)
    ensures |CellsLine(n, g, r, i)| == LineLength(n)
    ensures CellsLine(n, g, r, i)[7 * c + 1..7 * c + 1 + Width] == CellText(CellValue(n, g, r, c), i)
  {
    var parts := LineCells(n, g, r, i);
    var t := CellText(CellValue(n, g, r, c), i);
    LineCellsUniform(n, g, r, i);
    assert parts[c][1..1 + Width] == t;
    SliceOfLeadingPiece(parts, "|\n", Width + 1, c, 1, Width, t);
  }

  lemma RowLinesUniform(n: nat, g: seq<int>, r: int)
    requires |g| == n * n && 0 <= r < n && Fits(g)
    ensures Uniform(RowLines(n, g, r), LineLength(n))
  {
    var parts := RowLines(n, g, r);
    forall i | 0 <= i < SubRows ensures |parts[i]| == LineLength(n) {
      CellsLineLength(n, g, r, i);
    }
  }

  lemma RowTextLength(n: nat, g: seq<int>, r: int)
    requires |g| == n * n && 0 <= r < n && Fits(g)
    ensures |RowText(n, g, r)| == BandLength(n)
  {
    var L := LineLength(n);
    var parts := RowLines(n, g, r);
    RowLinesUniform(n, g, r);
    RuleLength(n);
    ConcatTailLength(parts, Rule(n), L);
    assert |parts| == 3;
    assert RowText(n, g, r) == Concat(parts) + Rule(n);
  }

  lemma ConcatTailLength(parts: seq<string>, tail: string, w: int)
    requires Uniform(parts, w) && |tail| == w
    ensures |Concat(parts) + tail| == (|parts| + 1) * w
  {
    ConcatLength(parts, w);
  }

  lemma BandsUniform(n: nat, g: seq<int>)
    requires |g| == n * n && Fits(g)
    ensures Uniform(Bands(n, g), BandLength(n))
  {
    var parts := Bands(n, g);
    forall r | 0 <= r < n ensures |parts[r]| == BandLength(n) {
      RowTextLength(n, g, r);
    }
  }

  lemma LinesArith(n: int, L: int)
    ensures (4 * n + 1) * L == L + n * (4 * L)
  {
  }

  /**
   * When every cell's text is Width wide, the picture has
   * (SubRows + 1) * n + 1 = 4 * n + 1 lines of LineLength(n) characters each.
   */
  lemma DisplayLength(n: nat, g: seq<int>)
    requires |g| == n * n && Fits(g)
    ensures |PlaintextDisp(n, g)| == (4 * n + 1) * LineLength(n)
  {
    BandsUniform(n, g);
    ConcatLength(Bands(n, g), BandLength(n));
    RuleLength(n);
    LinesArith(n, LineLength(n));
  }

  // ---------------------------------------------------------------------
  // Line structure of the picture
  // ---------------------------------------------------------------------

  /**
   * Offset of the last character of line s of band r: past the top rule,
   * r bands of 4 lines and s lines.  Lines 0 .. SubRows - 1 of a band are
   * its sub-lines and line SubRows = 3 is the rule under it.
   */
  function LineEnd(n: int, r: int, s: int): (x: int)
    requires 0 <= r < n && 0 <= s <= 3
    ensures 0 <= x < (4 * n + 1) * LineLength(n)
  {
    MulMono(0, r, BandLength(n));
    MulMono(r + 1, n, BandLength(n));
    MulSucc(r, BandLength(n));
    MulMono(0, s, LineLength(n));
    MulMono(s, 3, LineLength(n));
    LinesArith(n, LineLength(n));
    LineLength(n) + r * BandLength(n) + s * LineLength(n) + LineLength(n) - 1
  }

  lemma RuleEndsLine(n: nat)
    ensures |Rule(n)| == LineLength(n) && Rule(n)[LineLength(n) - 1] == '\n'
  {
    RuleLength(n);
  }

  lemma CellsLineEndsLine(n: nat, g: seq<int>, r: int, i: int)
    requires |g| == n * n && 0 <= r < n && Fits(g)
    ensures |CellsLine(n, g, r, i)| == LineLength(n) && CellsLine(n, g, r, i)[LineLength(n) - 1] == '\n'
  {
    CellsLineLength(n, g, r, i);
  }

  /** In pieces of length w followed by a tail of length w, the last character of piece s (or of the tail). */
  lemma PieceLastChar(parts: seq<string>, tail: string, w: int, s: int, ch: char)
    requires Uniform(parts, w) && |tail| == w && w >= 1 && 0 <= s <= |parts|
    requires forall k :: 0 <= k < |parts| ==> parts[k][w - 1] == ch
    requires tail[w - 1] == ch
    ensures 0 <= s * w && s * w + w <= |Concat(parts) + tail|
    ensures (Concat(parts) + tail)[s * w + w - 1] == ch
  {
    ConcatLength(parts, w);
    MulMono(0, s, w);
    MulMono(s, |parts|, w);
    if s < |parts| {
      ConcatAt(parts, w, s);
      assert Concat(parts)[s * w..s * w + w][w - 1] == Concat(parts)[s * w + w - 1];
    }
  }

  /** A character of piece r of pieces of length B, found in a text that starts with a header. */
  lemma CharOfPiece(head: string, parts: seq<string>, B: int, r: int, z: int)
    requires Uniform(parts, B) && 0 <= r < |parts| && 0 <= z < B
    ensures 0 <= r * B && |head| + r * B + z < |head + Concat(parts)|
    ensures (head + Concat(parts))[|head| + r * B + z] == parts[r][z]
  {
    ConcatAt(parts, B, r);
    assert Concat(parts)[r * B..r * B + B][z] == Concat(parts)[r * B + z];
  }

  /** Line s of the text of row r ends with a newline. */
  lemma RowTextLineEnd(n: nat, g: seq<int>, r: int, s: int)
    requires |g| == n * n && Fits(g) && 0 <= r < n && 0 <= s <= 3
    ensures |RowText(n, g, r)| == BandLength(n)
    ensures 0 <= s * LineLength(n) && s * LineLength(n) + LineLength(n) <= BandLength(n)
    ensures RowText(n, g, r)[s * LineLength(n) + LineLength(n) - 1] == '\n'
  {
    var parts := RowLines(n, g, r);
    RowTextLength(n, g, r);
    RowLinesUniform(n, g, r);
    RuleEndsLine(n);
    forall k | 0 <= k < |parts| ensures parts[k][LineLength(n) - 1] == '\n' {
      CellsLineEndsLine(n, g, r, k);
    }
    PieceLastChar(parts, Rule(n), LineLength(n), s, '\n');
  }

  /** Line s of band r of the picture ends with a newline. */
  lemma BandLineEnd(n: nat, g: seq<int>, r: int, s: int)
    requires |g| == n * n && Fits(g) && 0 <= r < n && 0 <= s <= 3
    ensures LineEnd(n, r, s) < |PlaintextDisp(n, g)| && PlaintextDisp(n, g)[LineEnd(n, r, s)] == '\n'
  {
    var L, B := LineLength(n), BandLength(n);
    var bands := Bands(n, g);
    var z := s * L + L - 1;
    BandsUniform(n, g);
    RowTextLineEnd(n, g, r, s);
    assert bands[r][z] == '\n';
    RuleLength(n);
    CharOfPiece(Rule(n), bands, B, r, z);
    assert LineEnd(n, r, s) == |Rule(n)| + r * B + z;
    assert PlaintextDisp(n, g) == Rule(n) + Concat(bands);
  }

  /**
   * When every cell's text is Width wide, the picture is 4 * n + 1 lines of
   * LineLength(n) characters, each ending with a newline: the top rule, and
   * for every band r its SubRows sub-lines and its rule.
   */
  lemma DisplayLines(n: nat, g: seq<int>)
    requires |g| == n * n && Fits(g)
    ensures |PlaintextDisp(n, g)| == (4 * n + 1) * LineLength(n)
    ensures PlaintextDisp(n, g)[LineLength(n) - 1] == '\n'
    ensures forall r, s :: 0 <= r < n && 0 <= s <= 3 ==>
              LineEnd(n, r, s) < |PlaintextDisp(n, g)| && PlaintextDisp(n, g)[LineEnd(n, r, s)] == '\n'
  {
    DisplayLength(n, g);
    RuleEndsLine(n);
    assert PlaintextDisp(n, g)[LineLength(n) - 1] == Rule(n)[LineLength(n) - 1];
    forall r, s | 0 <= r < n && 0 <= s <= 3
      ensures LineEnd(n, r, s) < |PlaintextDisp(n, g)| && PlaintextDisp(n, g)[LineEnd(n, r, s)] == '\n'
    {
      BandLineEnd(n, g, r, s);
    }
  }

  /** Within the text of row r, the text of cell (r, c) starts LineLength(n) + 7 * c + 1 characters in. */
  lemma RowTextShowsCell(n: nat, g: seq<int>, r: int, c: int)
    requires |g| == n * n && Fits(g) && 0 <= r < n && 0 <= c < n
    ensures |RowText(n, g, r)| == BandLength(n)
    ensures var z := LineLength(n) + 7 * c + 1;
            RowText(n, g, r)[z..z + Width] == StringifyVal(CellValue(n, g, r, c))
  {
    var L := LineLength(n);
    var parts := RowLines(n, g, r);
    RowTextLength(n, g, r);
    RowLinesUniform(n, g, r);
    CellsLineCell(n, g, r, ValueRow, c);
    assert ValueRow == 1;
    SliceOfLeadingPiece(parts, Rule(n), L, 1, 7 * c + 1, Width, StringifyVal(CellValue(n, g, r, c)));
  }

  /** A slice of piece r of pieces of length B, found in a text that starts with a header. */
  lemma SliceOfPiece(head: string, parts: seq<string>, B: int, r: int, z: int, w: int, t: string)
    requires Uniform(parts, B) && 0 <= r < |parts|
    requires 0 <= z && 0 <= w && z + w <= B && parts[r][z..z + w] == t
    ensures 0 <= r * B && |head| + r * B + z + w <= |head + Concat(parts)|
    ensures (head + Concat(parts))[|head| + r * B + z..|head| + r * B + z + w] == t
  {
    var rows := Concat(parts);
    ConcatAt(parts, B, r);
    SliceOfSlice(rows, r * B, B, z, w);
    ShiftedSlice(head, rows, r * B + z, w, t);
  }

  /** The text of cell (r, c) appears at CellOffset(n, r, c) of the picture. */
  lemma DisplayShowsCell(n: nat, g: seq<int>, r: int, c: int)
    requires |g| == n * n && Fits(g) && 0 <= r < n && 0 <= c < n
    ensures |PlaintextDisp(n, g)| == (4 * n + 1) * LineLength(n)
    ensures PlaintextDisp(n, g)[CellOffset(n, r, c)..CellOffset(n, r, c) + Width] == StringifyVal(CellValue(n, g, r, c))
  {
    DisplayLength(n, g);
    BandsUniform(n, g);
    RowTextShowsCell(n, g, r, c);
    RuleLength(n);
    SliceOfPiece(Rule(n), Bands(n, g), BandLength(n), r, LineLength(n) + 7 * c + 1, Width,
                 StringifyVal(CellValue(n, g, r, c)));
  }

  lemma ShiftedSlice(a: string, b: string, y: int, w: int, t: string)
    requires 0 <= y && 0 <= w && y + w <= |b| && b[y..y + w] == t
    ensures (a + b)[|a| + y..|a| + y + w] == t
  {
    assert (a + b)[|a| + y..|a| + y + w] == b[y..y + w];
  }

  /**
   * The picture loses no value: at the offset of cell (r, c) stand Width
   * spaces when the cell is empty, and otherwise text that, stripped of
   * its padding, reads back as the cell's value.
   */
  lemma DisplayReadable(n: nat, g: seq<int>, r: int, c: int)
    requires |g| == n * n && Fits(g) && 0 <= r < n && 0 <= c < n
    ensures |PlaintextDisp(n, g)| == (4 * n + 1) * LineLength(n)
    ensures var v := CellValue(n, g, r, c);
            var t := PlaintextDisp(n, g)[CellOffset(n, r, c)..CellOffset(n, r, c) + Width];
            (IsEmpty(v) ==> forall j :: 0 <= j < Width ==> t[j] == ' ') &&
            (!IsEmpty(v) ==> var u := Strip(t);
               |u| >= 1 && (u[0] == '-' || IsDigit(u[0])) &&
               (forall j :: 1 <= j < |u| ==> IsDigit(u[j])) && ParseInt(u) == v)
  {
    DisplayShowsCell(n, g, r, c);
    var v := CellValue(n, g, r, c);
    if !IsEmpty(v) {
      StringifyValReadable(v);
    }
  }
}
