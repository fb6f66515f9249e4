/**
 * The four move directions of the 2048 grid and the direction table that
 * drives every grid algorithm: for each direction a flat step (plus or
 * minus 1 or n), a traversal order over the flat indices and a bound check
 * on the destination index (main.py:12-16, 69-75).
 *
 * Beside the table this module describes the geometry the table encodes.
 * For a direction d the n*n cells split into n "lines" (the rows for Left
 * and Right, the columns for Up and Down).  Cell (l, k) is the k-th cell of
 * line l counted from the edge that tiles move towards, so one step in
 * direction d takes offset k to offset k - 1.
 */
module Directions {

  datatype Direction = Up | Left | Down | Right

  // ---------------------------------------------------------------------
  // Row-major flat layout (main.py:77)
  // ---------------------------------------------------------------------

  /** The flat index of row r, column c; its row and column can be read back. */
  function ToFlat(n: int, r: int, c: int): (i: int)
    requires 0 <= r < n && 0 <= c < n
    ensures 0 <= i < n * n
    ensures i / n == r && i % n == c
  {
    FlatFacts(n, r, c);
    r * n + c
  }

  lemma DivModUnique(x: int, n: int, q: int, r: int)
    requires n >= 1 && 0 <= r < n && x == q * n + r
    ensures x / n == q && x % n == r
  {
    var q', r' := x / n, x % n;
    assert x == q' * n + r';
    assert (q - q') * n == r' - r;
    if q > q' {
      MulAtLeast(q - q', n);
    } else if q < q' {
      MulAtLeast(q' - q, n);
    }
  }

  lemma MulAtLeast(a: int, n: int)
    requires a >= 1 && n >= 1
    ensures a * n >= n
  {
  }

  lemma MulMono(a: int, b: int, n: int)
    requires a <= b && n >= 0
    ensures a * n <= b * n
  {
    assert b * n - a * n == (b - a) * n;
  }

  lemma FlatFacts(n: int, r: int, c: int)
    requires 0 <= r < n && 0 <= c < n
    ensures 0 <= r * n + c < n * n
    ensures (r * n + c) / n == r && (r * n + c) % n == c
  {
    DivModUnique(r * n + c, n, r, c);
    MulMono(r, n - 1, n);
  }

  /** Every flat index of the grid is the flat index of its own row and column. */
  lemma Unflat(n: int, i: int)
    requires n >= 1 && 0 <= i < n * n
    ensures 0 <= i / n < n && 0 <= i % n < n
    ensures ToFlat(n, i / n, i % n) == i
  {
    if i / n >= n {
      MulMono(n, i / n, n);
    }
  }

  // ---------------------------------------------------------------------
  // The direction table (main.py:69-75)
  // ---------------------------------------------------------------------

  /**
   * The flat step towards the destination edge.  It is never 0, and it
   * points to lower indices exactly for the two directions whose traversal
   * runs upwards, so that every traversal starts at the destination edge.
   */
  function Step(d: Direction, n: int): (s: int)
    ensures n >= 1 ==> s != 0 && (s < 0 <==> Ascending(d))
  {
    match d
    case Up => -n
    case Left => -1
    case Down => n
    case Right => 1
  }

  /** Up and Left traverse range(n*n); Down and Right traverse it backwards. */
  predicate Ascending(d: Direction)
  {
    d.Up? || d.Left?
  }

  /** The flat index visited at position t of the traversal. */
  function Order(d: Direction, n: int, t: int): (i: int)
    requires 0 <= t < n * n
    ensures 0 <= i < n * n
  {
    if Ascending(d) then t else n * n - 1 - t
  }

  /** The bound check, applied to a destination index x. */
  predicate InBound(d: Direction, n: int, x: int)
    requires n >= 1
  {
    match d
    case Up => x >= 0
    case Left => (x + 1) % n != 0
    case Down => x < n * n
    case Right => x % n != 0
  }

  /**
   * The bound check accepts the destination i + step exactly when it is a
   * valid index in the same row (Left, Right) or the same column (Up, Down)
   * as the source i: a move never leaves the grid and never wraps around.
   */
  lemma BoundTable(d: Direction, n: int, i: int)
    requires n >= 1 && 0 <= i < n * n
    ensures InBound(d, n, i + Step(d, n)) <==>
              0 <= i + Step(d, n) < n * n &&
              if d.Left? || d.Right? then (i + Step(d, n)) / n == i / n
              else (i + Step(d, n)) % n == i % n
  {
    match d
    case Left => BoundLeft(n, i);
    case Right => BoundRight(n, i);
    case Up => BoundUp(n, i);
    case Down => BoundDown(n, i);
  }

  lemma BoundLeft(n: int, i: int)
    requires n >= 1 && 0 <= i < n * n
    ensures (i - 1 + 1) % n != 0 <==> 0 <= i - 1 < n * n && (i - 1) / n == i / n
  {
    Unflat(n, i);
    var r, c := i / n, i % n;
    if c >= 1 {
      FlatFacts(n, r, c - 1);
    } else if r > 0 {
      DivModUnique(i - 1, n, r - 1, n - 1);
    }
  }

  lemma BoundRight(n: int, i: int)
    requires n >= 1 && 0 <= i < n * n
    ensures (i + 1) % n != 0 <==> 0 <= i + 1 < n * n && (i + 1) / n == i / n
  {
    Unflat(n, i);
    var r, c := i / n, i % n;
    if c + 1 < n {
      FlatFacts(n, r, c + 1);
    } else {
      DivModUnique(i + 1, n, r + 1, 0);
    }
  }

  lemma BoundUp(n: int, i: int)
    requires n >= 1 && 0 <= i < n * n
    ensures i - n >= 0 <==> 0 <= i - n < n * n && (i - n) % n == i % n
  {
    Unflat(n, i);
    var r, c := i / n, i % n;
    if i - n >= 0 {
      MulSucc(r - 1, n);
      DivModUnique(i - n, n, r - 1, c);
    }
  }

  lemma BoundDown(n: int, i: int)
    requires n >= 1 && 0 <= i < n * n
    ensures i + n < n * n <==> 0 <= i + n < n * n && (i + n) % n == i % n
  {
    Unflat(n, i);
    var r, c := i / n, i % n;
    if i + n < n * n {
      MulSucc(r, n);
      DivModUnique(i + n, n, r + 1, c);
    }
  }

  lemma MulSucc(r: int, n: int)
    ensures (r + 1) * n == r * n + n
  {
  }

  // ---------------------------------------------------------------------
  // Lines: the geometry behind the table
  // ---------------------------------------------------------------------

  /** The flat index of offset k of line l. */
  function Idx(d: Direction, n: int, l: int, k: int): (i: int)
    requires 0 <= l < n && 0 <= k < n
    ensures 0 <= i < n * n
  {
    match d
    case Left => ToFlat(n, l, k)
    case Right => ToFlat(n, l, n - 1 - k)
    case Up => ToFlat(n, k, l)
    case Down => ToFlat(n, n - 1 - k, l)
  }

  /** The line that flat index i lies on. */
  function LineOf(d: Direction, n: int, i: int): (l: int)
    requires n >= 1 && 0 <= i < n * n
    ensures 0 <= l < n
  {
    Unflat(n, i);
    if d.Left? || d.Right? then i / n else i % n
  }

  /** The offset of flat index i within its line. */
  function OffOf(d: Direction, n: int, i: int): (k: int)
    requires n >= 1 && 0 <= i < n * n
    ensures 0 <= k < n
  {
    Unflat(n, i);
    match d
    case Left => i % n
    case Right => n - 1 - i % n
    case Up => i / n
    case Down => n - 1 - i / n
  }

  /** Line and offset can be read back from the flat index. */
  lemma IdxInverse(d: Direction, n: int, l: int, k: int)
    requires 0 <= l < n && 0 <= k < n
    ensures LineOf(d, n, Idx(d, n, l, k)) == l && OffOf(d, n, Idx(d, n, l, k)) == k
  {
  }

  /** Every cell lies on some line: the lines cover the grid. */
  lemma IdxCover(d: Direction, n: int, i: int)
    requires n >= 1 && 0 <= i < n * n
    ensures Idx(d, n, LineOf(d, n, i), OffOf(d, n, i)) == i
  {
    Unflat(n, i);
  }

  /** Distinct cells of the lines are distinct cells of the grid. */
  lemma IdxInjective(d: Direction, n: int, l: int, k: int, l': int, k': int)
    requires 0 <= l < n && 0 <= k < n && 0 <= l' < n && 0 <= k' < n
    requires Idx(d, n, l, k) == Idx(d, n, l', k')
    ensures l == l' && k == k'
  {
    IdxInverse(d, n, l, k);
    IdxInverse(d, n, l', k');
  }

  /**
   * The cells of a ray towards the edge: a step from offset m >= 1 leads to
   * offset m - 1, the step from offset 0 leaves the grid, and no cell repeats.
   */
  ghost predicate Ray(d: Direction, n: int, ray: seq<int>)
    requires n >= 1
  {
    && (forall m :: 0 <= m < |ray| ==> 0 <= ray[m] < n * n)
    && (forall m :: 0 <= m < |ray| ==> (InBound(d, n, ray[m] + Step(d, n)) <==> m >= 1))
    && (forall m :: 1 <= m < |ray| ==> ray[m] + Step(d, n) == ray[m - 1])
    && (forall a, b :: 0 <= a < b < |ray| ==> ray[a] != ray[b])
  }

  /** The cells of line l, from the edge of d inwards. */
  ghost function LineCells(d: Direction, n: int, l: int): (ray: seq<int>)
    requires 0 <= l < n
    ensures |ray| == n && forall m :: 0 <= m < n ==> ray[m] == Idx(d, n, l, m)
  {
    seq(n, m requires 0 <= m < n => Idx(d, n, l, m))
  }

  lemma RayOfLine(d: Direction, n: int, l: int)
    requires 0 <= l < n
    ensures Ray(d, n, LineCells(d, n, l))
  {
    LineCellsStep(d, n, l);
    LineCellsDistinct(d, n, l);
  }

  lemma LineCellsStep(d: Direction, n: int, l: int)
    requires 0 <= l < n
    ensures var ray := LineCells(d, n, l);
            && (forall m :: 0 <= m < n ==> (InBound(d, n, ray[m] + Step(d, n)) <==> m >= 1))
            && (forall m :: 1 <= m < n ==> ray[m] + Step(d, n) == ray[m - 1])
  {
    var ray := LineCells(d, n, l);
    forall m | 0 <= m < n
      ensures InBound(d, n, ray[m] + Step(d, n)) <==> m >= 1
      ensures m >= 1 ==> ray[m] + Step(d, n) == ray[m - 1]
    {
      StepAlongLine(d, n, l, m);
    }
  }

  lemma LineCellsDistinct(d: Direction, n: int, l: int)
    requires 0 <= l < n
    ensures var ray := LineCells(d, n, l);
            forall a, b :: 0 <= a < b < n ==> ray[a] != ray[b]
  {
    var ray := LineCells(d, n, l);
    forall a, b | 0 <= a < b < n ensures ray[a] != ray[b] {
      IdxDistinct(d, n, l, a, b);
    }
  }

  /** Two offsets of one line are two cells of the grid. */
  lemma IdxDistinct(d: Direction, n: int, l: int, k: int, k': int)
    requires 0 <= l < n && 0 <= k < n && 0 <= k' < n && k != k'
    ensures Idx(d, n, l, k) != Idx(d, n, l, k')
  {
    IdxInverse(d, n, l, k);
    IdxInverse(d, n, l, k');
  }

  /**
   * One step from offset k of a line is in bound exactly when k >= 1, and
   * then it lands on offset k - 1 of the same line.
   */
  lemma StepAlongLine(d: Direction, n: int, l: int, k: int)
    requires 0 <= l < n && 0 <= k < n
    ensures InBound(d, n, Idx(d, n, l, k) + Step(d, n)) <==> k >= 1
    ensures k >= 1 ==> Idx(d, n, l, k) + Step(d, n) == Idx(d, n, l, k - 1)
  {
    match d
    case Left => StepLeft(n, l, k);
    case Right => StepRight(n, l, k);
    case Up => StepUp(n, l, k);
    case Down => StepDown(n, l, k);
  }

  lemma StepLeft(n: int, l: int, k: int)
    requires 0 <= l < n && 0 <= k < n
    ensures (ToFlat(n, l, k) - 1 + 1) % n != 0 <==> k >= 1
    ensures k >= 1 ==> ToFlat(n, l, k) - 1 == ToFlat(n, l, k - 1)
  {
  }

  lemma StepRight(n: int, l: int, k: int)
    requires 0 <= l < n && 0 <= k < n
    ensures (ToFlat(n, l, n - 1 - k) + 1) % n != 0 <==> k >= 1
    ensures k >= 1 ==> ToFlat(n, l, n - 1 - k) + 1 == ToFlat(n, l, n - 1 - (k - 1))
  {
    var x := ToFlat(n, l, n - 1 - k) + 1;
    if k == 0 {
      assert x == (l + 1) * n + 0;
      DivModUnique(x, n, l + 1, 0);
    } else {
      assert x == ToFlat(n, l, n - k);
    }
  }

  lemma StepUp(n: int, l: int, k: int)
    requires 0 <= l < n && 0 <= k < n
    ensures ToFlat(n, k, l) - n >= 0 <==> k >= 1
    ensures k >= 1 ==> ToFlat(n, k, l) - n == ToFlat(n, k - 1, l)
  {
    if k >= 1 {
      assert k * n + l - n == (k - 1) * n + l;
      assert ToFlat(n, k - 1, l) >= 0;
    }
  }

  lemma StepDown(n: int, l: int, k: int)
    requires 0 <= l < n && 0 <= k < n
    ensures ToFlat(n, n - 1 - k, l) + n < n * n <==> k >= 1
    ensures k >= 1 ==> ToFlat(n, n - 1 - k, l) + n == ToFlat(n, n - 1 - (k - 1), l)
  {
    if k >= 1 {
      assert (n - 1 - k) * n + l + n == (n - k) * n + l;
    } else {
      assert (n - 1) * n + l + n == n * n + l;
    }
  }

  // ---------------------------------------------------------------------
  // Traversal order along the lines
  // ---------------------------------------------------------------------

  /** The position in the traversal at which cell (l, k) is visited. */
  function Rank(d: Direction, n: int, l: int, k: int): (t: int)
    requires 0 <= l < n && 0 <= k < n
    ensures 0 <= t < n * n && Order(d, n, t) == Idx(d, n, l, k)
  {
    var i := Idx(d, n, l, k);
    if Ascending(d) then i else n * n - 1 - i
  }

  /** The traversal visits the destination of a step before its source. */
  lemma RankStep(d: Direction, n: int, l: int, k: int)
    requires 0 <= l < n && 1 <= k < n
    ensures Rank(d, n, l, k - 1) < Rank(d, n, l, k)
  {
    StepAlongLine(d, n, l, k);
  }

  /** So each line is traversed from its destination edge outwards. */
  lemma {:induction false} RankMono(d: Direction, n: int, l: int, a: int, b: int)
    requires 0 <= l < n && 0 <= a < b < n
    ensures Rank(d, n, l, a) < Rank(d, n, l, b)
    decreases b - a
  {
    RankStep(d, n, l, b);
    if a < b - 1 {
      RankMono(d, n, l, a, b - 1);
    }
  }

  /**
   * Progress(d, n, t)[l] counts the cells of line l among the first t cells
   * of the traversal.
   */
  ghost function Progress(d: Direction, n: int, t: int): (p: seq<int>)
    requires n >= 1 && 0 <= t <= n * n
    ensures |p| == n
    decreases t
  {
    if t == 0 then seq(n, _ => 0)
    else
      var p := Progress(d, n, t - 1);
      var l := LineOf(d, n, Order(d, n, t - 1));
      p[l := p[l] + 1]
  }

  /** After t steps exactly a prefix of each line has been visited. */
  lemma {:induction false} ProgressSpec(d: Direction, n: int, t: int)
    requires n >= 1 && 0 <= t <= n * n
    ensures forall l :: 0 <= l < n ==> 0 <= Progress(d, n, t)[l] <= n
    ensures forall l, k :: 0 <= l < n && 0 <= k < n ==>
              (k < Progress(d, n, t)[l] <==> Rank(d, n, l, k) < t)
    decreases t
  {
    if t > 0 {
      ProgressSpec(d, n, t - 1);
      var p := Progress(d, n, t - 1);
      var j := Order(d, n, t - 1);
      var l0, k0 := LineOf(d, n, j), OffOf(d, n, j);
      IdxCover(d, n, j);
      assert Rank(d, n, l0, k0) == t - 1;
      if k0 >= 1 {
        RankMono(d, n, l0, k0 - 1, k0);
      }
      assert p[l0] == k0;
      forall l, k | 0 <= l < n && 0 <= k < n
        ensures k < Progress(d, n, t)[l] <==> Rank(d, n, l, k) < t
      {
        if l == l0 {
          if k < k0 { RankMono(d, n, l0, k, k0); }
          if k > k0 { RankMono(d, n, l0, k0, k); }
        } else if Rank(d, n, l, k) == t - 1 {
          IdxInjective(d, n, l, k, l0, k0);
        }
      }
    }
  }

  /** The cell visited at step t is the next offset of its line. */
  lemma ProgressAt(d: Direction, n: int, t: int)
    requires n >= 1 && 0 <= t < n * n
    ensures Progress(d, n, t)[LineOf(d, n, Order(d, n, t))] == OffOf(d, n, Order(d, n, t))
  {
    ProgressSpec(d, n, t);
    var j := Order(d, n, t);
    var l0, k0 := LineOf(d, n, j), OffOf(d, n, j);
    IdxCover(d, n, j);
    assert Rank(d, n, l0, k0) == t;
    if k0 >= 1 {
      RankMono(d, n, l0, k0 - 1, k0);
    }
  }

  /** At the end of the traversal every line has been visited completely. */
  lemma ProgressDone(d: Direction, n: int)
    requires n >= 1
    ensures forall l :: 0 <= l < n ==> Progress(d, n, n * n)[l] == n
  {
    ProgressSpec(d, n, n * n);
    forall l | 0 <= l < n ensures Progress(d, n, n * n)[l] == n {
      assert Rank(d, n, l, n - 1) < n * n;
    }
  }
}
