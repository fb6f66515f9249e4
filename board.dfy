/**
 * The grid as a flat row-major sequence of n*n cell values and what the
 * grid algorithms do to it as a whole.  The line decomposition of
 * Directions turns every per-line description of Lines into a grid
 * description: ShiftGrid, CollapseGrid and MoveGrid apply Compact,
 * CollapseLine and MoveLine to every line of the direction.  The end
 * of the game is stated on rows and columns (GameOver) and related to the
 * flat neighbour tests of is_game_over (main.py:144-157).
 */
module Board {
  import opened Directions
  import opened Block
  import opened Lines

  ghost predicate IsGrid(n: int, g: seq<int>)
  {
    n >= 1 && |g| == n * n
  }

  ghost predicate AreLines(n: int, lines: seq<seq<int>>)
  {
    |lines| == n && forall l :: 0 <= l < n ==> |lines[l]| == n
  }

  /** Line l of direction d, read from its destination edge. */
  function Line(d: Direction, n: int, g: seq<int>, l: int): (s: seq<int>)
    requires IsGrid(n, g) && 0 <= l < n
    ensures |s| == n
  {
    seq(n, k requires 0 <= k < n => g[Idx(d, n, l, k)])
  }

  ghost function LinesOf(d: Direction, n: int, g: seq<int>): (lines: seq<seq<int>>)
    requires IsGrid(n, g)
    ensures AreLines(n, lines)
  {
    seq(n, l requires 0 <= l < n => Line(d, n, g, l))
  }

  /** The grid whose lines of direction d are the given lines. */
  function Rebuild(d: Direction, n: int, lines: seq<seq<int>>): (g: seq<int>)
    requires n >= 1 && AreLines(n, lines)
    ensures IsGrid(n, g)
  {
    seq(n * n, j requires 0 <= j < n * n => lines[LineOf(d, n, j)][OffOf(d, n, j)])
  }

  /** Rebuilding from lines and cutting into lines are inverse. */
  lemma LinesOfRebuild(d: Direction, n: int, lines: seq<seq<int>>)
    requires n >= 1 && AreLines(n, lines)
    ensures LinesOf(d, n, Rebuild(d, n, lines)) == lines
    ensures forall l :: 0 <= l < n ==> Line(d, n, Rebuild(d, n, lines), l) == lines[l]
  {
    var g := Rebuild(d, n, lines);
    forall l | 0 <= l < n ensures Line(d, n, g, l) == lines[l] {
      forall k | 0 <= k < n ensures Line(d, n, g, l)[k] == lines[l][k] {
        IdxInverse(d, n, l, k);
      }
    }
  }

  lemma RebuildOfLines(d: Direction, n: int, g: seq<int>)
    requires IsGrid(n, g)
    ensures Rebuild(d, n, LinesOf(d, n, g)) == g
  {
    forall j | 0 <= j < n * n ensures Rebuild(d, n, LinesOf(d, n, g))[j] == g[j] {
      IdxCover(d, n, j);
    }
  }

  /** Two grids with the same lines are equal. */
  lemma SameLines(d: Direction, n: int, g: seq<int>, h: seq<int>)
    requires IsGrid(n, g) && IsGrid(n, h)
    requires forall l :: 0 <= l < n ==> Line(d, n, g, l) == Line(d, n, h, l)
    ensures g == h
  {
    forall j | 0 <= j < n * n ensures g[j] == h[j] {
      IdxCover(d, n, j);
      var l, k := LineOf(d, n, j), OffOf(d, n, j);
      assert Line(d, n, g, l)[k] == Line(d, n, h, l)[k];
    }
  }

  lemma RebuildAt(d: Direction, n: int, lines: seq<seq<int>>, l: int, k: int)
    requires n >= 1 && AreLines(n, lines) && 0 <= l < n && 0 <= k < n
    ensures Rebuild(d, n, lines)[Idx(d, n, l, k)] == lines[l][k]
  {
    IdxInverse(d, n, l, k);
  }

  // ---------------------------------------------------------------------
  // The three algorithms on the whole grid
  // ---------------------------------------------------------------------

  function ShiftGrid(d: Direction, n: int, g: seq<int>): (r: seq<int>)
    requires IsGrid(n, g)
    ensures IsGrid(n, r)
  {
    Rebuild(d, n, seq(n, l requires 0 <= l < n => Compact(Line(d, n, g, l))))
  }

  function CollapseGrid(d: Direction, n: int, g: seq<int>): (r: seq<int>)
    requires IsGrid(n, g)
    ensures IsGrid(n, r)
  {
    Rebuild(d, n, seq(n, l requires 0 <= l < n => CollapseLine(Line(d, n, g, l))))
  }

  /** A whole move: every line moves by the 2048 rule. */
  function MoveGrid(d: Direction, n: int, g: seq<int>): (r: seq<int>)
    requires IsGrid(n, g)
    ensures IsGrid(n, r)
  {
    Rebuild(d, n, seq(n, l requires 0 <= l < n => MoveLine(Line(d, n, g, l))))
  }

  lemma ShiftGridLines(d: Direction, n: int, g: seq<int>)
    requires IsGrid(n, g)
    ensures forall l :: 0 <= l < n ==> Line(d, n, ShiftGrid(d, n, g), l) == Compact(Line(d, n, g, l))
  {
    LinesOfRebuild(d, n, seq(n, l requires 0 <= l < n => Compact(Line(d, n, g, l))));
  }

  lemma CollapseGridLines(d: Direction, n: int, g: seq<int>)
    requires IsGrid(n, g)
    ensures forall l :: 0 <= l < n ==> Line(d, n, CollapseGrid(d, n, g), l) == CollapseLine(Line(d, n, g, l))
  {
    LinesOfRebuild(d, n, seq(n, l requires 0 <= l < n => CollapseLine(Line(d, n, g, l))));
  }

  lemma MoveGridLines(d: Direction, n: int, g: seq<int>)
    requires IsGrid(n, g)
    ensures forall l :: 0 <= l < n ==> Line(d, n, MoveGrid(d, n, g), l) == MoveLine(Line(d, n, g, l))
  {
    LinesOfRebuild(d, n, seq(n, l requires 0 <= l < n => MoveLine(Line(d, n, g, l))));
  }

  /** shift_and_collapse, a shift, a collapse and a shift, is the whole move. */
  lemma ShiftCollapseShiftIsMove(d: Direction, n: int, g: seq<int>)
    requires IsGrid(n, g)
    ensures ShiftGrid(d, n, CollapseGrid(d, n, ShiftGrid(d, n, g))) == MoveGrid(d, n, g)
  {
    var g1 := ShiftGrid(d, n, g);
    var g2 := CollapseGrid(d, n, g1);
    var g3 := ShiftGrid(d, n, g2);
    ShiftGridLines(d, n, g);
    CollapseGridLines(d, n, g1);
    ShiftGridLines(d, n, g2);
    MoveGridLines(d, n, g);
    SameLines(d, n, g3, MoveGrid(d, n, g));
  }

  // ---------------------------------------------------------------------
  // The grid part-way through a traversal
  // ---------------------------------------------------------------------

  /** After t steps of _shift, each line has its visited prefix compacted. */
  ghost function ShiftAfter(d: Direction, n: int, g: seq<int>, t: int): (lines: seq<seq<int>>)
    requires IsGrid(n, g) && 0 <= t <= n * n
    ensures AreLines(n, lines)
  {
    ProgressSpec(d, n, t);
    seq(n, l requires 0 <= l < n => ShiftPrefix(Line(d, n, g, l), Progress(d, n, t)[l]))
  }

  /** After t steps of _collapse, each line has had its visited offsets merged. */
  ghost function CollapseAfter(d: Direction, n: int, g: seq<int>, t: int): (lines: seq<seq<int>>)
    requires IsGrid(n, g) && 0 <= t <= n * n
    ensures AreLines(n, lines)
  {
    ProgressSpec(d, n, t);
    seq(n, l requires 0 <= l < n => CollapsePrefix(Line(d, n, g, l), Progress(d, n, t)[l]))
  }

  /** Step t of the traversal visits offset k of line l, and only that line advances. */
  lemma ProgressStep(d: Direction, n: int, t: int)
    requires n >= 1 && 0 <= t < n * n
    ensures var j := Order(d, n, t);
            Progress(d, n, t + 1) ==
              Progress(d, n, t)[LineOf(d, n, j) := OffOf(d, n, j) + 1]
  {
    ProgressAt(d, n, t);
  }

  lemma ShiftAfterStart(d: Direction, n: int, g: seq<int>)
    requires IsGrid(n, g)
    ensures Rebuild(d, n, ShiftAfter(d, n, g, 0)) == g
  {
    forall l | 0 <= l < n ensures ShiftAfter(d, n, g, 0)[l] == LinesOf(d, n, g)[l] {
      ShiftPrefixEnds(Line(d, n, g, l));
    }
    assert ShiftAfter(d, n, g, 0) == LinesOf(d, n, g);
    RebuildOfLines(d, n, g);
  }

  lemma ShiftAfterEnd(d: Direction, n: int, g: seq<int>)
    requires IsGrid(n, g)
    ensures Rebuild(d, n, ShiftAfter(d, n, g, n * n)) == ShiftGrid(d, n, g)
  {
    ProgressDone(d, n);
    forall l | 0 <= l < n ensures ShiftAfter(d, n, g, n * n)[l] == Compact(Line(d, n, g, l)) {
      ShiftPrefixEnds(Line(d, n, g, l));
    }
    assert ShiftAfter(d, n, g, n * n) == seq(n, l requires 0 <= l < n => Compact(Line(d, n, g, l)));
  }

  lemma ShiftAfterStep(d: Direction, n: int, g: seq<int>, t: int)
    requires IsGrid(n, g) && 0 <= t < n * n
    ensures var j := Order(d, n, t);
            var l, k := LineOf(d, n, j), OffOf(d, n, j);
            && ShiftAfter(d, n, g, t)[l] == ShiftPrefix(Line(d, n, g, l), k)
            && ShiftAfter(d, n, g, t + 1) == ShiftAfter(d, n, g, t)[l := ShiftPrefix(Line(d, n, g, l), k + 1)]
  {
    var j := Order(d, n, t);
    var l, k := LineOf(d, n, j), OffOf(d, n, j);
    ProgressAt(d, n, t);
    ProgressStep(d, n, t);
    ProgressSpec(d, n, t);
    ProgressSpec(d, n, t + 1);
    var a := ShiftAfter(d, n, g, t + 1);
    var b := ShiftAfter(d, n, g, t)[l := ShiftPrefix(Line(d, n, g, l), k + 1)];
    forall l' | 0 <= l' < n ensures a[l'] == b[l'] {
      if l' != l {
        assert Progress(d, n, t + 1)[l'] == Progress(d, n, t)[l'];
      }
    }
  }

  lemma CollapseAfterStart(d: Direction, n: int, g: seq<int>)
    requires IsGrid(n, g)
    ensures Rebuild(d, n, CollapseAfter(d, n, g, 0)) == g
  {
    assert CollapseAfter(d, n, g, 0) == LinesOf(d, n, g);
    RebuildOfLines(d, n, g);
  }

  lemma CollapseAfterEnd(d: Direction, n: int, g: seq<int>)
    requires IsGrid(n, g)
    ensures Rebuild(d, n, CollapseAfter(d, n, g, n * n)) == CollapseGrid(d, n, g)
  {
    ProgressDone(d, n);
    assert CollapseAfter(d, n, g, n * n) == seq(n, l requires 0 <= l < n => CollapseLine(Line(d, n, g, l)));
  }

  lemma CollapseAfterStep(d: Direction, n: int, g: seq<int>, t: int)
    requires IsGrid(n, g) && 0 <= t < n * n
    ensures var j := Order(d, n, t);
            var l, k := LineOf(d, n, j), OffOf(d, n, j);
            && CollapseAfter(d, n, g, t)[l] == CollapsePrefix(Line(d, n, g, l), k)
            && CollapseAfter(d, n, g, t + 1) ==
                 CollapseAfter(d, n, g, t)[l := MergeAt(CollapsePrefix(Line(d, n, g, l), k), k)]
  {
    var j := Order(d, n, t);
    var l, k := LineOf(d, n, j), OffOf(d, n, j);
    ProgressAt(d, n, t);
    ProgressStep(d, n, t);
    ProgressSpec(d, n, t);
    ProgressSpec(d, n, t + 1);
    var a := CollapseAfter(d, n, g, t + 1);
    var b := CollapseAfter(d, n, g, t)[l := MergeAt(CollapsePrefix(Line(d, n, g, l), k), k)];
    forall l' | 0 <= l' < n ensures a[l'] == b[l'] {
      if l' != l {
        assert Progress(d, n, t + 1)[l'] == Progress(d, n, t)[l'];
      }
    }
  }

  /** An empty cell at step t leaves the traversal state as it is. */
  lemma ShiftAfterSkip(d: Direction, n: int, g: seq<int>, t: int)
    requires IsGrid(n, g) && 0 <= t < n * n && IsEmpty(g[Order(d, n, t)])
    ensures ShiftAfter(d, n, g, t + 1) == ShiftAfter(d, n, g, t)
  {
    var j := Order(d, n, t);
    var l, k := LineOf(d, n, j), OffOf(d, n, j);
    var s := Line(d, n, g, l);
    IdxCover(d, n, j);
    assert s[k] == g[j];
    ShiftPrefixSkip(s, k);
    ShiftAfterStep(d, n, g, t);
    assert ShiftAfter(d, n, g, t)[l := ShiftAfter(d, n, g, t)[l]] == ShiftAfter(d, n, g, t);
  }

  // The invariants of the two traversals, with the totals each keeps.

  /** h has the given lines in direction d (the same as h == Rebuild(d, n, lines)). */
  ghost predicate HasLines(d: Direction, n: int, h: seq<int>, lines: seq<seq<int>>)
    requires n >= 1 && AreLines(n, lines)
  {
    |h| == n * n && forall l, k :: 0 <= l < n && 0 <= k < n ==> h[Idx(d, n, l, k)] == lines[l][k]
  }

  lemma HasLinesRebuild(d: Direction, n: int, h: seq<int>, lines: seq<seq<int>>)
    requires n >= 1 && AreLines(n, lines)
    ensures HasLines(d, n, h, lines) <==> h == Rebuild(d, n, lines)
  {
    if HasLines(d, n, h, lines) {
      forall j | 0 <= j < n * n ensures h[j] == Rebuild(d, n, lines)[j] {
        IdxCover(d, n, j);
      }
    }
    if h == Rebuild(d, n, lines) {
      forall l, k | 0 <= l < n && 0 <= k < n ensures h[Idx(d, n, l, k)] == lines[l][k] {
        RebuildAt(d, n, lines, l, k);
      }
    }
  }

  /** h is the grid after t steps of _shift from g; the values are only rearranged. */
  ghost predicate Shifting(d: Direction, n: int, g: seq<int>, t: int, h: seq<int>)
    requires IsGrid(n, g) && 0 <= t <= n * n
  {
    && HasLines(d, n, h, ShiftAfter(d, n, g, t))
    && multiset(h) == multiset(g) && Sum(h) == Sum(g) && EmptyCount(h) == EmptyCount(g)
  }

  lemma ShiftingStart(d: Direction, n: int, g: seq<int>)
    requires IsGrid(n, g)
    ensures Shifting(d, n, g, 0, g)
  {
    ShiftAfterStart(d, n, g);
    HasLinesRebuild(d, n, g, ShiftAfter(d, n, g, 0));
  }

  lemma ShiftingEnd(d: Direction, n: int, g: seq<int>, h: seq<int>)
    requires IsGrid(n, g) && Shifting(d, n, g, n * n, h)
    ensures h == ShiftGrid(d, n, g)
  {
    ShiftAfterEnd(d, n, g);
    HasLinesRebuild(d, n, h, ShiftAfter(d, n, g, n * n));
  }

  /**
   * Where the tile visited at step t comes to rest: offset q of its line,
   * q being the number of tiles that precede it in the line of g.
   */
  ghost function ShiftTarget(d: Direction, n: int, g: seq<int>, t: int): (p: int)
    requires IsGrid(n, g) && 0 <= t < n * n
    ensures 0 <= p < n * n
  {
    var j := Order(d, n, t);
    var l, k := LineOf(d, n, j), OffOf(d, n, j);
    Idx(d, n, l, |NonZeros(Line(d, n, g, l)[..k])|)
  }

  /**
   * At step t the cell visited, offset k of line l, still holds its value
   * in g; the first q offsets of the line hold the tiles already placed and
   * offsets q .. k - 1 are empty.
   */
  lemma ShiftingLayout(d: Direction, n: int, g: seq<int>, t: int, h: seq<int>) returns (q: int)
    requires IsGrid(n, g) && 0 <= t < n * n && Shifting(d, n, g, t, h)
    ensures var j := Order(d, n, t);
            var l, k := LineOf(d, n, j), OffOf(d, n, j);
            && Idx(d, n, l, k) == j && h[j] == g[j]
            && q == |NonZeros(Line(d, n, g, l)[..k])| && 0 <= q <= k && Idx(d, n, l, q) == ShiftTarget(d, n, g, t)
            && (forall m :: q <= m < k ==> IsEmpty(h[Idx(d, n, l, m)]))
            && (q >= 1 ==> !IsEmpty(h[Idx(d, n, l, q - 1)]))
  {
    var j := Order(d, n, t);
    var l, k := LineOf(d, n, j), OffOf(d, n, j);
    var s := Line(d, n, g, l);
    q := |NonZeros(s[..k])|;
    IdxCover(d, n, j);
    ShiftAfterStep(d, n, g, t);
    ShiftPrefixLayout(s, k);
  }

  /**
   * The inner loop's view of step t: the visited cell is offset k of a ray
   * of cells towards the edge, offsets q .. k - 1 of it are empty, offset
   * q - 1 (if any) holds a tile and offset q is where ShiftTarget puts it.
   */
  lemma ShiftingRay(d: Direction, n: int, g: seq<int>, t: int, h: seq<int>) returns (ray: seq<int>, k: int, q: int)
    requires IsGrid(n, g) && 0 <= t < n * n && Shifting(d, n, g, t, h)
    ensures 0 <= q <= k < |ray| && ray[k] == Order(d, n, t) && Ray(d, n, ray)
    ensures forall m :: q <= m < k ==> IsEmpty(h[ray[m]])
    ensures q >= 1 ==> !IsEmpty(h[ray[q - 1]])
    ensures ray[q] == ShiftTarget(d, n, g, t)
  {
    var j := Order(d, n, t);
    var l := LineOf(d, n, j);
    k := OffOf(d, n, j);
    q := ShiftingLayout(d, n, g, t, h);
    ray := LineCells(d, n, l);
    RayOfLine(d, n, l);
  }

  /** At step t an empty visited cell needs no work. */
  lemma ShiftingSkip(d: Direction, n: int, g: seq<int>, t: int, h: seq<int>)
    requires IsGrid(n, g) && 0 <= t < n * n && Shifting(d, n, g, t, h) && IsEmpty(h[Order(d, n, t)])
    ensures Shifting(d, n, g, t + 1, h)
  {
    var q := ShiftingLayout(d, n, g, t, h);
    ShiftAfterSkip(d, n, g, t);
  }

  /** Writing x at offset k of line l writes it in the lines too. */
  lemma HasLinesSet(d: Direction, n: int, lines: seq<seq<int>>, l: int, k: int, x: int, h: seq<int>)
    requires n >= 1 && AreLines(n, lines) && 0 <= l < n && 0 <= k < n && HasLines(d, n, h, lines)
    ensures HasLines(d, n, h[Idx(d, n, l, k) := x], lines[l := lines[l][k := x]])
  {
    var h2 := h[Idx(d, n, l, k) := x];
    var lines2 := lines[l := lines[l][k := x]];
    forall l', k' | 0 <= l' < n && 0 <= k' < n ensures h2[Idx(d, n, l', k')] == lines2[l'][k'] {
      if Idx(d, n, l', k') == Idx(d, n, l, k) {
        IdxInjective(d, n, l', k', l, k);
      } else if l' == l {
        assert k' != k;
      }
    }
  }

  /** Moving the value at offset k of line l to offset q <= k, and emptying offset k, moves it in the lines too. */
  lemma HasLinesJump(d: Direction, n: int, lines: seq<seq<int>>, l: int, k: int, q: int, h: seq<int>)
    requires n >= 1 && AreLines(n, lines) && 0 <= l < n && 0 <= q <= k < n && HasLines(d, n, h, lines)
    ensures var v := h[Idx(d, n, l, k)];
            HasLines(d, n, h[Idx(d, n, l, k) := EmptyVal][Idx(d, n, l, q) := v],
                     lines[l := lines[l][k := EmptyVal][q := v]])
  {
    var v := h[Idx(d, n, l, k)];
    var h2 := h[Idx(d, n, l, k) := EmptyVal][Idx(d, n, l, q) := v];
    var lines2 := lines[l := lines[l][k := EmptyVal][q := v]];
    forall l', k' | 0 <= l' < n && 0 <= k' < n ensures h2[Idx(d, n, l', k')] == lines2[l'][k'] {
      if Idx(d, n, l', k') == Idx(d, n, l, q) {
        IdxInjective(d, n, l', k', l, q);
      } else if Idx(d, n, l', k') == Idx(d, n, l, k) {
        IdxInjective(d, n, l', k', l, k);
      } else if l' == l {
        assert k' != q && k' != k;
      }
    }
  }

  /**
   * The tile visited at step t, offset k of line l, put straight at offset
   * q just past the tiles already placed, completes step t.
   */
  lemma ShiftingJump(d: Direction, n: int, g: seq<int>, t: int, h: seq<int>, h2: seq<int>)
    requires IsGrid(n, g) && 0 <= t < n * n && Shifting(d, n, g, t, h) && !IsEmpty(h[Order(d, n, t)])
    requires h2 == h[Order(d, n, t) := EmptyVal][ShiftTarget(d, n, g, t) := h[Order(d, n, t)]]
    ensures Shifting(d, n, g, t + 1, h2)
  {
    var j, p := Order(d, n, t), ShiftTarget(d, n, g, t);
    var l, k := LineOf(d, n, j), OffOf(d, n, j);
    var q := ShiftingLayout(d, n, g, t, h);
    if q < k {
      assert IsEmpty(h[Idx(d, n, l, q)]);
    } else {
      assert q == k;
      assert p == j;
    }
    ShiftingJumpLines(d, n, g, t, h);
    MoveTotals(h, j, p);
  }

  /** The line part of ShiftingJump: the moved tile lands where ShiftAfter puts it. */
  lemma ShiftingJumpLines(d: Direction, n: int, g: seq<int>, t: int, h: seq<int>)
    requires IsGrid(n, g) && 0 <= t < n * n && HasLines(d, n, h, ShiftAfter(d, n, g, t))
    requires !IsEmpty(h[Order(d, n, t)])
    ensures var j := Order(d, n, t);
            HasLines(d, n, h[j := EmptyVal][ShiftTarget(d, n, g, t) := h[j]], ShiftAfter(d, n, g, t + 1))
  {
    var j := Order(d, n, t);
    var l, k := LineOf(d, n, j), OffOf(d, n, j);
    var q := |NonZeros(Line(d, n, g, l)[..k])|;
    var lines := ShiftAfter(d, n, g, t);
    IdxCover(d, n, j);
    ShiftAfterJump(d, n, g, t);
    HasLinesJump(d, n, lines, l, k, q, h);
  }

  /** In line terms: a tile at offset k that is visited moves to offset q, the count of tiles before it. */
  lemma ShiftAfterJump(d: Direction, n: int, g: seq<int>, t: int)
    requires IsGrid(n, g) && 0 <= t < n * n
    ensures var j := Order(d, n, t);
            var l, k := LineOf(d, n, j), OffOf(d, n, j);
            var s := Line(d, n, g, l);
            var q := |NonZeros(s[..k])|;
            var lines := ShiftAfter(d, n, g, t);
            && q <= k && lines[l][k] == s[k]
            && (!IsEmpty(s[k]) ==> lines[l := lines[l][k := EmptyVal][q := s[k]]] == ShiftAfter(d, n, g, t + 1))
  {
    var j := Order(d, n, t);
    var l, k := LineOf(d, n, j), OffOf(d, n, j);
    var s := Line(d, n, g, l);
    var q := |NonZeros(s[..k])|;
    var lines := ShiftAfter(d, n, g, t);
    ShiftAfterStep(d, n, g, t);
    assert lines[l] == ShiftPrefix(s, k);
    ShiftPrefixLayout(s, k);
    if !IsEmpty(s[k]) {
      ShiftPrefixJump(s, k);
      assert lines[l][k := EmptyVal][q := s[k]] == ShiftPrefix(s, k + 1);
    }
  }

  /** h is the grid after t steps of _collapse from g; the sum is kept and no tile appears. */
  ghost predicate Collapsing(d: Direction, n: int, g: seq<int>, t: int, h: seq<int>)
    requires IsGrid(n, g) && 0 <= t <= n * n
  {
    && HasLines(d, n, h, CollapseAfter(d, n, g, t))
    && Sum(h) == Sum(g) && EmptyCount(h) >= EmptyCount(g) && (AllTiles(g) ==> AllTiles(h))
  }

  lemma CollapsingStart(d: Direction, n: int, g: seq<int>)
    requires IsGrid(n, g)
    ensures Collapsing(d, n, g, 0, g)
  {
    CollapseAfterStart(d, n, g);
    HasLinesRebuild(d, n, g, CollapseAfter(d, n, g, 0));
  }

  lemma CollapsingEnd(d: Direction, n: int, g: seq<int>, h: seq<int>)
    requires IsGrid(n, g) && Collapsing(d, n, g, n * n, h)
    ensures h == CollapseGrid(d, n, g)
  {
    CollapseAfterEnd(d, n, g);
    HasLinesRebuild(d, n, h, CollapseAfter(d, n, g, n * n));
  }

  /** The neighbour of the cell of step t towards the edge is a cell when the bound check accepts it. */
  lemma CollapseTarget(d: Direction, n: int, t: int)
    requires n >= 1 && 0 <= t < n * n
    ensures var j := Order(d, n, t);
            InBound(d, n, j + Step(d, n)) ==> 0 <= j + Step(d, n) < n * n && j + Step(d, n) != j
  {
    BoundTable(d, n, Order(d, n, t));
  }

  /** Step t of _collapse when its test succeeds: the neighbour doubles and the cell is cleared. */
  lemma CollapsingMerge(d: Direction, n: int, g: seq<int>, t: int, h: seq<int>)
    requires IsGrid(n, g) && 0 <= t < n * n && Collapsing(d, n, g, t, h)
    requires 0 <= Order(d, n, t) + Step(d, n) < n * n && InBound(d, n, Order(d, n, t) + Step(d, n))
    requires h[Order(d, n, t)] == h[Order(d, n, t) + Step(d, n)]
    ensures var j := Order(d, n, t);
            var dst := j + Step(d, n);
            Collapsing(d, n, g, t + 1, h[dst := h[dst] * 2][j := EmptyVal])
  {
    var j := Order(d, n, t);
    var dst := j + Step(d, n);
    CollapseTarget(d, n, t);
    CollapsingMergeLines(d, n, g, t, h);
    MergeInto(h, dst, j);
  }

  /** The line part of CollapsingMerge. */
  lemma CollapsingMergeLines(d: Direction, n: int, g: seq<int>, t: int, h: seq<int>)
    requires IsGrid(n, g) && 0 <= t < n * n && HasLines(d, n, h, CollapseAfter(d, n, g, t))
    requires 0 <= Order(d, n, t) + Step(d, n) < n * n && InBound(d, n, Order(d, n, t) + Step(d, n))
    requires h[Order(d, n, t)] == h[Order(d, n, t) + Step(d, n)]
    ensures var j := Order(d, n, t);
            var dst := j + Step(d, n);
            HasLines(d, n, h[dst := h[dst] * 2][j := EmptyVal], CollapseAfter(d, n, g, t + 1))
  {
    var j := Order(d, n, t);
    var l, k := LineOf(d, n, j), OffOf(d, n, j);
    var lines := CollapseAfter(d, n, g, t);
    var dst := j + Step(d, n);
    IdxCover(d, n, j);
    StepAlongLine(d, n, l, k);
    assert k >= 1 && j == Idx(d, n, l, k) && dst == Idx(d, n, l, k - 1);
    HasLinesMerge(d, n, lines, l, k, h);
    CollapseAfterMerge(d, n, g, t);
    var c := lines[l];
    assert CollapseAfter(d, n, g, t + 1) == lines[l := c[k - 1 := c[k - 1] * 2][k := EmptyVal]];
  }

  /** Doubling offset k - 1 of line l and clearing offset k, when they are equal, does so in the lines too. */
  lemma HasLinesMerge(d: Direction, n: int, lines: seq<seq<int>>, l: int, k: int, h: seq<int>)
    requires n >= 1 && AreLines(n, lines) && 0 <= l < n && 1 <= k < n && HasLines(d, n, h, lines)
    requires h[Idx(d, n, l, k)] == h[Idx(d, n, l, k - 1)]
    ensures var c := lines[l];
            var v := h[Idx(d, n, l, k - 1)] * 2;
            && c[k] == c[k - 1]
            && HasLines(d, n, h[Idx(d, n, l, k - 1) := v][Idx(d, n, l, k) := EmptyVal],
                        lines[l := c[k - 1 := c[k - 1] * 2][k := EmptyVal]])
  {
    var c := lines[l];
    var v := h[Idx(d, n, l, k - 1)] * 2;
    HasLinesSet(d, n, lines, l, k - 1, v, h);
    var lines1 := lines[l := c[k - 1 := v]];
    HasLinesSet(d, n, lines1, l, k, EmptyVal, h[Idx(d, n, l, k - 1) := v]);
    assert lines1[l := lines1[l][k := EmptyVal]] == lines[l := c[k - 1 := v][k := EmptyVal]];
  }

  /** In line terms: step t merges offsets k and k - 1 of its line when they are equal, and otherwise changes nothing. */
  lemma CollapseAfterMerge(d: Direction, n: int, g: seq<int>, t: int)
    requires IsGrid(n, g) && 0 <= t < n * n
    ensures var j := Order(d, n, t);
            var l, k := LineOf(d, n, j), OffOf(d, n, j);
            var lines := CollapseAfter(d, n, g, t);
            var c := lines[l];
            && (k >= 1 && c[k] == c[k - 1] ==>
                  CollapseAfter(d, n, g, t + 1) == lines[l := c[k - 1 := c[k - 1] * 2][k := EmptyVal]])
            && (!(k >= 1 && c[k] == c[k - 1]) ==> CollapseAfter(d, n, g, t + 1) == lines)
  {
    var j := Order(d, n, t);
    var l, k := LineOf(d, n, j), OffOf(d, n, j);
    var lines := CollapseAfter(d, n, g, t);
    CollapseAfterStep(d, n, g, t);
    if !(k >= 1 && lines[l][k] == lines[l][k - 1]) {
      assert lines[l := lines[l]] == lines;
    }
  }

  /** Step t of _collapse when its test fails changes nothing. */
  lemma CollapsingKeep(d: Direction, n: int, g: seq<int>, t: int, h: seq<int>)
    requires IsGrid(n, g) && 0 <= t < n * n && Collapsing(d, n, g, t, h)
    requires var dst := Order(d, n, t) + Step(d, n);
             InBound(d, n, dst) ==> 0 <= dst < n * n && h[Order(d, n, t)] != h[dst]
    ensures Collapsing(d, n, g, t + 1, h)
  {
    var j := Order(d, n, t);
    var dst := j + Step(d, n);
    var l, k := LineOf(d, n, j), OffOf(d, n, j);
    var c := CollapseAfter(d, n, g, t)[l];
    IdxCover(d, n, j);
    StepAlongLine(d, n, l, k);
    if k >= 1 {
      assert dst == Idx(d, n, l, k - 1);
      assert c[k] == h[j] && c[k - 1] == h[dst];
    }
    CollapseAfterMerge(d, n, g, t);
  }

  // ---------------------------------------------------------------------
  // Compacted grids
  // ---------------------------------------------------------------------

  /** No tile has an in-bound empty cell one step towards the edge. */
  ghost predicate CompactedGrid(d: Direction, n: int, g: seq<int>)
    requires IsGrid(n, g)
  {
    forall i :: 0 <= i < n * n && !IsEmpty(g[i]) && 0 <= i + Step(d, n) < n * n && InBound(d, n, i + Step(d, n))
      ==> !IsEmpty(g[i + Step(d, n)])
  }

  /** A grid is compacted exactly when each of its lines is. */
  lemma CompactedGridLines(d: Direction, n: int, g: seq<int>)
    requires IsGrid(n, g)
    ensures CompactedGrid(d, n, g) <==> forall l :: 0 <= l < n ==> Compacted(Line(d, n, g, l))
  {
    if CompactedGrid(d, n, g) {
      forall l | 0 <= l < n ensures Compacted(Line(d, n, g, l)) {
        forall k | 1 <= k < n && !IsEmpty(Line(d, n, g, l)[k]) ensures !IsEmpty(Line(d, n, g, l)[k - 1]) {
          CompactedGridAt(d, n, g, l, k);
        }
      }
    }
    if forall l :: 0 <= l < n ==> Compacted(Line(d, n, g, l)) {
      forall i | 0 <= i < n * n && !IsEmpty(g[i]) && 0 <= i + Step(d, n) < n * n && InBound(d, n, i + Step(d, n))
        ensures !IsEmpty(g[i + Step(d, n)])
      {
        CompactedLinesAt(d, n, g, i);
      }
    }
  }

  lemma CompactedGridAt(d: Direction, n: int, g: seq<int>, l: int, k: int)
    requires IsGrid(n, g) && CompactedGrid(d, n, g) && 0 <= l < n && 1 <= k < n
    requires !IsEmpty(Line(d, n, g, l)[k])
    ensures !IsEmpty(Line(d, n, g, l)[k - 1])
  {
    var i := Idx(d, n, l, k);
    StepAlongLine(d, n, l, k);
    assert !IsEmpty(g[i]);
    assert i + Step(d, n) == Idx(d, n, l, k - 1);
  }

  lemma CompactedLinesAt(d: Direction, n: int, g: seq<int>, i: int)
    requires IsGrid(n, g) && forall l :: 0 <= l < n ==> Compacted(Line(d, n, g, l))
    requires 0 <= i < n * n && !IsEmpty(g[i]) && 0 <= i + Step(d, n) < n * n && InBound(d, n, i + Step(d, n))
    ensures !IsEmpty(g[i + Step(d, n)])
  {
    var l, k := LineOf(d, n, i), OffOf(d, n, i);
    IdxCover(d, n, i);
    StepAlongLine(d, n, l, k);
    var s := Line(d, n, g, l);
    assert s[k] == g[i];
    assert Compacted(s);
    assert s[k - 1] == g[i + Step(d, n)];
  }

  /** After a shift the grid is compacted. */
  lemma ShiftGridCompacted(d: Direction, n: int, g: seq<int>)
    requires IsGrid(n, g)
    ensures CompactedGrid(d, n, ShiftGrid(d, n, g))
  {
    ShiftGridLines(d, n, g);
    forall l | 0 <= l < n ensures Compacted(Line(d, n, ShiftGrid(d, n, g), l)) {
      CompactIsCompacted(Line(d, n, g, l));
    }
    CompactedGridLines(d, n, ShiftGrid(d, n, g));
  }

  /** A shift leaves a compacted grid alone. */
  lemma ShiftGridFixesCompacted(d: Direction, n: int, g: seq<int>)
    requires IsGrid(n, g) && CompactedGrid(d, n, g)
    ensures ShiftGrid(d, n, g) == g
  {
    CompactedGridLines(d, n, g);
    ShiftGridLines(d, n, g);
    forall l | 0 <= l < n ensures Line(d, n, ShiftGrid(d, n, g), l) == Line(d, n, g, l) {
      CompactedFixed(Line(d, n, g, l));
    }
    SameLines(d, n, ShiftGrid(d, n, g), g);
  }

  /** So a second shift in the same direction changes nothing. */
  lemma ShiftGridIdempotent(d: Direction, n: int, g: seq<int>)
    requires IsGrid(n, g)
    ensures ShiftGrid(d, n, ShiftGrid(d, n, g)) == ShiftGrid(d, n, g)
  {
    ShiftGridCompacted(d, n, g);
    ShiftGridFixesCompacted(d, n, ShiftGrid(d, n, g));
  }

  /** After a whole move the grid is compacted. */
  lemma MoveGridCompacted(d: Direction, n: int, g: seq<int>)
    requires IsGrid(n, g)
    ensures CompactedGrid(d, n, MoveGrid(d, n, g))
  {
    ShiftCollapseShiftIsMove(d, n, g);
    ShiftGridCompacted(d, n, CollapseGrid(d, n, ShiftGrid(d, n, g)));
  }

  // ---------------------------------------------------------------------
  // The end of the game
  // ---------------------------------------------------------------------

  /** The cell at row r, column c. */
  function At(n: int, g: seq<int>, r: int, c: int): int
    requires IsGrid(n, g) && 0 <= r < n && 0 <= c < n
  {
    g[ToFlat(n, r, c)]
  }

  /** Every cell holds a tile and no two orthogonal neighbours are equal. */
  ghost predicate GameOver(n: int, g: seq<int>)
    requires IsGrid(n, g)
  {
    && (forall i :: 0 <= i < n * n ==> !IsEmpty(g[i]))
    && (forall r, c :: 0 <= r < n && 0 <= c < n - 1 ==> At(n, g, r, c) != At(n, g, r, c + 1))
    && (forall r, c :: 0 <= r < n - 1 && 0 <= c < n ==> At(n, g, r, c) != At(n, g, r + 1, c))
  }

  /** Which flat neighbours of i exist, as the flat tests of is_game_over decide. */
  lemma FlatNeighbours(n: int, i: int)
    requires n >= 1 && 0 <= i < n * n
    ensures var r, c := i / n, i % n;
            && 0 <= r < n && 0 <= c < n && i == ToFlat(n, r, c)
            && (i % n != 0 <==> c >= 1)
            && (c >= 1 ==> i - 1 == ToFlat(n, r, c - 1))
            && ((i + 1) % n != 0 <==> c < n - 1)
            && (c < n - 1 ==> i + 1 == ToFlat(n, r, c + 1))
            && (i >= n <==> r >= 1)
            && (r >= 1 ==> i - n == ToFlat(n, r - 1, c))
            && (i < n * (n - 1) <==> r < n - 1)
            && (r < n - 1 ==> i + n == ToFlat(n, r + 1, c))
  {
    Unflat(n, i);
    FlatHorizontal(n, i / n, i % n);
    FlatVertical(n, i / n, i % n);
  }

  lemma FlatHorizontal(n: int, r: int, c: int)
    requires 0 <= r < n && 0 <= c < n
    ensures var i := ToFlat(n, r, c);
            && (c >= 1 ==> i - 1 == ToFlat(n, r, c - 1))
            && ((i + 1) % n != 0 <==> c < n - 1)
            && (c < n - 1 ==> i + 1 == ToFlat(n, r, c + 1))
  {
    var i := r * n + c;
    if c < n - 1 {
      FlatFacts(n, r, c + 1);
    } else {
      assert i + 1 == (r + 1) * n;
      DivModUnique(i + 1, n, r + 1, 0);
    }
  }

  lemma FlatVertical(n: int, r: int, c: int)
    requires 0 <= r < n && 0 <= c < n
    ensures var i := ToFlat(n, r, c);
            && (i >= n <==> r >= 1)
            && (r >= 1 ==> i - n == ToFlat(n, r - 1, c))
            && (i < n * (n - 1) <==> r < n - 1)
            && (r < n - 1 ==> i + n == ToFlat(n, r + 1, c))
  {
    var i := r * n + c;
    assert n * (n - 1) == (n - 1) * n;
    if r < n - 1 {
      MulMono(r + 1, n - 1, n);
      assert i + n == (r + 1) * n + c;
    } else {
      assert i == (n - 1) * n + c;
    }
    if r >= 1 {
      MulMono(1, r, n);
      assert i - n == (r - 1) * n + c;
    } else {
      assert i == c;
    }
  }

  /**
   * The tests is_game_over makes at cell i all fail: the cell holds a tile
   * and it differs from each neighbour that exists.
   */
  ghost predicate CellStuck(n: int, g: seq<int>, i: int)
    requires IsGrid(n, g) && 0 <= i < n * n
  {
    FlatNeighbours(n, i);
    && !IsEmpty(g[i])
    && (i % n != 0 ==> g[i - 1] != g[i])
    && ((i + 1) % n != 0 ==> g[i + 1] != g[i])
    && (i >= n ==> g[i - n] != g[i])
    && (i < n * (n - 1) ==> g[i + n] != g[i])
  }

  /** On a finished grid every cell passes the flat tests. */
  lemma GameOverCellStuck(n: int, g: seq<int>, i: int)
    requires IsGrid(n, g) && 0 <= i < n * n && GameOver(n, g)
    ensures CellStuck(n, g, i)
  {
    FlatNeighbours(n, i);
    var r, c := i / n, i % n;
    if c >= 1 { assert At(n, g, r, c - 1) != At(n, g, r, c); }
    if c < n - 1 { assert At(n, g, r, c) != At(n, g, r, c + 1); }
    if r >= 1 { assert At(n, g, r - 1, c) != At(n, g, r, c); }
    if r < n - 1 { assert At(n, g, r, c) != At(n, g, r + 1, c); }
  }

  /** A grid whose every cell passes the flat tests is finished. */
  lemma CellsStuckGameOver(n: int, g: seq<int>)
    requires IsGrid(n, g)
    requires forall i :: 0 <= i < n * n ==> CellStuck(n, g, i)
    ensures GameOver(n, g)
  {
    forall i | 0 <= i < n * n ensures !IsEmpty(g[i]) {
      assert CellStuck(n, g, i);
    }
    forall r, c | 0 <= r < n && 0 <= c < n - 1 ensures At(n, g, r, c) != At(n, g, r, c + 1) {
      CellStuckRight(n, g, r, c);
    }
    forall r, c | 0 <= r < n - 1 && 0 <= c < n ensures At(n, g, r, c) != At(n, g, r + 1, c) {
      CellStuckDown(n, g, r, c);
    }
  }

  lemma CellStuckRight(n: int, g: seq<int>, r: int, c: int)
    requires IsGrid(n, g) && 0 <= r < n && 0 <= c < n - 1
    requires CellStuck(n, g, ToFlat(n, r, c))
    ensures At(n, g, r, c) != At(n, g, r, c + 1)
  {
    FlatHorizontal(n, r, c);
  }

  lemma CellStuckDown(n: int, g: seq<int>, r: int, c: int)
    requires IsGrid(n, g) && 0 <= r < n - 1 && 0 <= c < n
    requires CellStuck(n, g, ToFlat(n, r, c))
    ensures At(n, g, r, c) != At(n, g, r + 1, c)
  {
    FlatVertical(n, r, c);
  }

  /** The flat tests of is_game_over decide exactly the row-and-column condition. */
  lemma GameOverIsFlat(n: int, g: seq<int>)
    requires IsGrid(n, g)
    ensures GameOver(n, g) <==> forall i :: 0 <= i < n * n ==> CellStuck(n, g, i)
  {
    if GameOver(n, g) {
      forall i | 0 <= i < n * n ensures CellStuck(n, g, i) {
        GameOverCellStuck(n, g, i);
      }
    }
    if forall i :: 0 <= i < n * n ==> CellStuck(n, g, i) {
      CellsStuckGameOver(n, g);
    }
  }

  /** Neighbouring offsets of a line are orthogonal neighbours of the grid. */
  lemma LineNeighbours(d: Direction, n: int, g: seq<int>, l: int, k: int)
    requires IsGrid(n, g) && GameOver(n, g) && 0 <= l < n && 1 <= k < n
    ensures Line(d, n, g, l)[k] != Line(d, n, g, l)[k - 1]
  {
    match d
    case Left => assert At(n, g, l, k - 1) != At(n, g, l, k);
    case Right => assert At(n, g, l, n - 1 - k) != At(n, g, l, n - 1 - k + 1);
    case Up => assert At(n, g, k - 1, l) != At(n, g, k, l);
    case Down => assert At(n, g, n - 1 - k, l) != At(n, g, n - 1 - k + 1, l);
  }

  /** On a finished grid no move in any direction changes anything. */
  lemma GameOverNoMove(d: Direction, n: int, g: seq<int>)
    requires IsGrid(n, g) && GameOver(n, g)
    ensures MoveGrid(d, n, g) == g
  {
    MoveGridLines(d, n, g);
    forall l | 0 <= l < n ensures Line(d, n, MoveGrid(d, n, g), l) == Line(d, n, g, l) {
      var s := Line(d, n, g, l);
      forall k | 1 <= k < n ensures s[k] != s[k - 1] {
        LineNeighbours(d, n, g, l, k);
      }
      StuckLine(s);
    }
    SameLines(d, n, MoveGrid(d, n, g), g);
  }

  /** Two 2 by 2 grids: a finished one, and one with equal neighbours in both rows. */
  lemma GameOverExamples()
    ensures GameOver(2, [2, 4, 4, 2])
    ensures !GameOver(2, [2, 2, 4, 4])
  {
    var g := [2, 4, 4, 2];
    forall r, c | 0 <= r < 2 && 0 <= c < 1 ensures At(2, g, r, c) != At(2, g, r, c + 1) {
      assert r == 0 || r == 1;
    }
    forall r, c | 0 <= r < 1 && 0 <= c < 2 ensures At(2, g, r, c) != At(2, g, r + 1, c) {
      assert c == 0 || c == 1;
    }
    assert At(2, [2, 2, 4, 4], 0, 0) == At(2, [2, 2, 4, 4], 0, 1);
  }
}
