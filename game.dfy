/**
 * The Grid object of main.py:60-163: an n by n board held as a flat
 * row-major array of cell values, updated in place by the move algorithms
 * and by the spawning of new tiles.  Each method is proved against the
 * grid-level description in Board.
 */
module Game {
  import opened Directions
  import opened Block
  import opened Lines
  import opened Board

  class Grid {
    /** Side length of the board. */
    const n: int
    /** Tiles placed when the grid is created. */
    const initBlocks: int
    /** Numbers of tiles the game loop may add after a move. */
    const bpr: seq<int>
    /** Whether the game loop shows the coloured display. */
    const colors: bool
    /** The cells in row-major order; cell (r, c) is cells[r * n + c]. */
    const cells: array<int>

    ghost predicate Valid()
      reads this
    {
      n >= 1 && cells.Length == n * n
    }

    /** Every cell holds 0 or a power of two that is at least 2. */
    ghost predicate Tiles()
      reads this, cells
    {
      AllTiles(cells[..])
    }

    /**
     * A fresh grid of n * n empty cells, then init_blocks new tiles; so it
     * holds min(init_blocks, n * n) tiles, each a 2 or a 4.
     */
    constructor (n: int, initBlocks: int, bpr: seq<int>, colors: bool)
      requires n >= 1
      ensures Valid() && fresh(cells)
      ensures this.n == n && this.initBlocks == initBlocks && this.bpr == bpr && this.colors == colors
      ensures Tiles()
      ensures forall i :: 0 <= i < n * n ==> IsEmpty(cells[i]) || cells[i] == 2 || cells[i] == 4
      ensures n * n - EmptyCount(cells[..]) == Min(Max(initBlocks, 0), n * n)
    {
      this.n := n;
      this.initBlocks := initBlocks;
      this.bpr := bpr;
      this.colors := colors;
      cells := new int[n * n](_ => EmptyVal);
      new;
      assert cells[..] == Zeros(n * n);
      EmptyCountZeros(n * n);
      MakeNewBlocks(initBlocks);
    }

    // -------------------------------------------------------------------
    // Block operations on one cell (main.py:34-44)
    // -------------------------------------------------------------------

    /** Block.clear: the cell becomes empty, nothing else changes. */
    method ClearCell(pos: int)
      requires Valid() && 0 <= pos < n * n
      modifies cells
      ensures cells[..] == old(cells[..])[pos := EmptyVal]
    {
      cells[pos] := EmptyVal;
    }

    /** Block.new_val: the cell gets a 2 or a 4, chosen at random; nothing else changes. */
    method NewVal(pos: int)
      requires Valid() && 0 <= pos < n * n
      modifies cells
      ensures cells[pos] == 2 || cells[pos] == 4
      ensures cells[..] == old(cells[..])[pos := cells[pos]]
    {
      var coin :| 1 <= coin <= 2;
      cells[pos] := coin * 2;
    }

    // -------------------------------------------------------------------
    // The move algorithms (main.py:80-81, 109-142)
    // -------------------------------------------------------------------

    /**
     * _available: pos passes the bound check of d and its cell is empty.
     * pos is one step from a cell of the grid; the bound check accepts it
     * exactly when it is a cell of the same row or column.
     */
    function Available(pos: int, d: Direction): (r: bool)
      requires Valid() && 0 <= pos - Step(d, n) < n * n
      reads this, cells
      ensures r <==> 0 <= pos < n * n && IsEmpty(cells[pos]) &&
                     if d.Left? || d.Right? then pos / n == (pos - Step(d, n)) / n
                     else pos % n == (pos - Step(d, n)) % n
    {
      BoundTable(d, n, pos - Step(d, n));
      InBound(d, n, pos) && IsEmpty(cells[pos])
    }

    /**
     * _shift: every tile slides towards the edge of d while the next cell
     * is empty.  The grid becomes ShiftGrid, so the values are only
     * rearranged and no tile is left next to an empty cell.
     */
    method Shift(d: Direction)
      requires Valid()
      modifies cells
      ensures cells[..] == ShiftGrid(d, n, old(cells[..]))
      ensures multiset(cells[..]) == multiset(old(cells[..]))
      ensures Sum(cells[..]) == Sum(old(cells[..]))
      ensures EmptyCount(cells[..]) == EmptyCount(old(cells[..]))
      ensures CompactedGrid(d, n, cells[..])
    {
      ghost var g := cells[..];
      ShiftingStart(d, n, g);
      var t := 0;
      while t < n * n
        invariant 0 <= t <= n * n
        invariant Shifting(d, n, g, t, cells[..])
      {
        Visit(d, g, t);
        t := t + 1;
      }
      ShiftingEnd(d, n, g, cells[..]);
      ShiftGridCompacted(d, n, g);
    }

    /** One iteration of _shift's outer loop: the t-th cell in traversal order. */
    method Visit(d: Direction, ghost g: seq<int>, t: int)
      requires Valid() && IsGrid(n, g) && 0 <= t < n * n && Shifting(d, n, g, t, cells[..])
      modifies cells
      ensures Shifting(d, n, g, t + 1, cells[..])
    {
      var i := Order(d, n, t);
      ghost var h := cells[..];
      if !IsEmpty(cells[i]) {
        ghost var ray, k, q := ShiftingRay(d, n, g, t, h);
        Slide(d, i, ray, k, q);
        ShiftingJump(d, n, g, t, h, cells[..]);
      } else {
        ShiftingSkip(d, n, g, t, h);
      }
    }

    /**
     * The inner loop of _shift.  The tile in cell i = ray[k] moves one cell
     * at a time towards the edge, ray[k - 1], ray[k - 2], ..., while the
     * next cell is in bound and empty.  When cells ray[q] .. ray[k - 1] are
     * empty and ray[q - 1] (if any) holds a tile, it comes to rest at ray[q].
     */
    method Slide(d: Direction, i: int, ghost ray: seq<int>, ghost k: int, ghost q: int)
      requires Valid() && 0 <= q <= k < |ray| && ray[k] == i && Ray(d, n, ray)
      requires forall m :: q <= m < k ==> IsEmpty(cells[ray[m]])
      requires q >= 1 ==> !IsEmpty(cells[ray[q - 1]])
      modifies cells
      ensures cells[..] == old(cells[..])[i := EmptyVal][ray[q] := old(cells[i])]
    {
      ghost var h := cells[..];
      ghost var m := k;
      var oldPos := i;
      var newPos := i + Step(d, n);
      while Available(newPos, d)
        invariant q <= m <= k && oldPos == ray[m] && newPos == oldPos + Step(d, n)
        invariant cells[..] == h[i := EmptyVal][oldPos := h[i]]
        decreases m
      {
        assert m >= 1 && newPos == ray[m - 1] && ray[m - 1] != ray[k];
        cells[newPos] := cells[oldPos];
        ClearCell(oldPos);
        oldPos := newPos;
        newPos := newPos + Step(d, n);
        m := m - 1;
      }
      if m >= 1 {
        assert newPos == ray[m - 1] && ray[m - 1] != ray[k] && ray[m - 1] != ray[m];
        assert !IsEmpty(h[ray[m - 1]]);
      }
    }

    /**
     * _collapse: in traversal order, a cell equal to its in-bound neighbour
     * towards the edge doubles that neighbour and is cleared.  The grid
     * becomes CollapseGrid; the sum is kept, no tile is created and tile
     * values stay tile values.
     */
    method Collapse(d: Direction)
      requires Valid()
      modifies cells
      ensures cells[..] == CollapseGrid(d, n, old(cells[..]))
      ensures Sum(cells[..]) == Sum(old(cells[..]))
      ensures EmptyCount(cells[..]) >= EmptyCount(old(cells[..]))
      ensures old(Tiles()) ==> Tiles()
    {
      ghost var g := cells[..];
      CollapsingStart(d, n, g);
      var t := 0;
      while t < n * n
        invariant 0 <= t <= n * n
        invariant Collapsing(d, n, g, t, cells[..])
      {
        MergeCell(d, g, t);
        t := t + 1;
      }
      CollapsingEnd(d, n, g, cells[..]);
    }

    /** One iteration of _collapse's loop: the t-th cell in traversal order. */
    method MergeCell(d: Direction, ghost g: seq<int>, t: int)
      requires Valid() && IsGrid(n, g) && 0 <= t < n * n && Collapsing(d, n, g, t, cells[..])
      modifies cells
      ensures Collapsing(d, n, g, t + 1, cells[..])
    {
      var i := Order(d, n, t);
      var j := i + Step(d, n);
      CollapseTarget(d, n, t);
      if InBound(d, n, j) && cells[i] == cells[j] {
        ghost var h := cells[..];
        cells[j] := cells[j] * 2;
        ClearCell(i);
        CollapsingMerge(d, n, g, t, h);
      } else {
        CollapsingKeep(d, n, g, t, cells[..]);
      }
    }

    /**
     * shift_and_collapse: the whole move in direction d.  The grid becomes
     * MoveGrid (each line moved by the 2048 rule), the score is unchanged
     * and the grid is left compacted.
     */
    method ShiftAndCollapse(d: Direction)
      requires Valid()
      modifies cells
      ensures cells[..] == MoveGrid(d, n, old(cells[..]))
      ensures Sum(cells[..]) == Sum(old(cells[..]))
      ensures CompactedGrid(d, n, cells[..])
      ensures EmptyCount(cells[..]) >= EmptyCount(old(cells[..]))
      ensures old(Tiles()) ==> Tiles()
    {
      Shift(d);
      ghost var g1 := cells[..];
      if old(Tiles()) {
        SameValuesTiles(old(cells[..]), g1);
      }
      Collapse(d);
      ghost var g2 := cells[..];
      Shift(d);
      if old(Tiles()) {
        SameValuesTiles(g2, cells[..]);
      }
      ShiftCollapseShiftIsMove(d, n, old(cells[..]));
    }

    // -------------------------------------------------------------------
    // Spawning (main.py:129-137)
    // -------------------------------------------------------------------

    /** The number of empty cells, sum(map(Block.is_empty, grid)). */
    function EmptyCells(): (c: int)
      requires Valid()
      reads this, cells
      ensures 0 <= c <= n * n
      ensures c == 0 <==> forall i :: 0 <= i < n * n ==> !IsEmpty(cells[i])
    {
      EmptyCountBound(cells[..]);
      EmptyCountZero(cells[..]);
      EmptyCount(cells[..])
    }

    /**
     * make_new_blocks: up to numBlocks times, stop if the grid is full, else
     * give a randomly chosen empty cell a 2 or a 4.  Exactly
     * min(numBlocks, empty cells) empty cells become tiles; no other cell
     * changes.
     */
    method MakeNewBlocks(numBlocks: int)
      requires Valid()
      modifies cells
      ensures forall i :: 0 <= i < n * n ==>
                cells[i] == old(cells[i]) || (IsEmpty(old(cells[i])) && (cells[i] == 2 || cells[i] == 4))
      ensures EmptyCount(cells[..]) == old(EmptyCount(cells[..])) - Min(Max(numBlocks, 0), old(EmptyCount(cells[..])))
      ensures old(Tiles()) ==> Tiles()
    {
      var b := 0;
      while b < numBlocks
        invariant 0 <= b <= Max(numBlocks, 0)
        invariant forall i :: 0 <= i < n * n ==>
                    cells[i] == old(cells[i]) || (IsEmpty(old(cells[i])) && (cells[i] == 2 || cells[i] == 4))
        invariant EmptyCount(cells[..]) == old(EmptyCount(cells[..])) - b
        invariant old(Tiles()) ==> Tiles()
      {
        if EmptyCells() == 0 {
          return;
        }
        ghost var w := EmptyCountWitness(cells[..]);
        var pos :| 0 <= pos < n * n && IsEmpty(cells[pos]);
        ghost var before := cells[..];
        NewVal(pos);
        EmptyCountUpdate(before, pos, cells[pos]);
        NewValueIsTile(cells[pos] / 2);
        assert cells[..] == before[pos := cells[pos]];
        b := b + 1;
      }
    }

    // -------------------------------------------------------------------
    // End of game and score (main.py:144-163)
    // -------------------------------------------------------------------

    /**
     * is_game_over: every cell is a tile and none equals an orthogonal
     * neighbour.  The flat tests look at the left, right, upper and lower
     * neighbour that exists, returning at the first success.
     */
    method IsGameOver() returns (over: bool)
      requires Valid()
      ensures over == GameOver(n, cells[..])
    {
      var i := 0;
      while i < n * n
        invariant 0 <= i <= n * n
        invariant forall j :: 0 <= j < i ==> CellStuck(n, cells[..], j)
      {
        FlatNeighbours(n, i);
        if IsEmpty(cells[i]) {
          NotStuckNotOver(n, cells[..], i);
          return false;
        }
        var v := cells[i];
        if i % n != 0 && cells[i - 1] == v {
          NotStuckNotOver(n, cells[..], i);
          return false;
        }
        if (i + 1) % n != 0 && cells[i + 1] == v {
          NotStuckNotOver(n, cells[..], i);
          return false;
        }
        if i >= n && cells[i - n] == v {
          NotStuckNotOver(n, cells[..], i);
          return false;
        }
        if i < n * (n - 1) && cells[i + n] == v {
          NotStuckNotOver(n, cells[..], i);
          return false;
        }
        i := i + 1;
      }
      CellsStuckGameOver(n, cells[..]);
      return true;
    }

    /** get_score: the sum of the cells; with tile values, at least 2 per tile and 0 only when empty. */
    function GetScore(): (score: int)
      requires Valid()
      reads this, cells
      ensures Tiles() ==> score >= 2 * (n * n - EmptyCount(cells[..]))
      ensures Tiles() ==> (score == 0 <==> EmptyCount(cells[..]) == n * n)
    {
      TileSum(cells[..]);
      Sum(cells[..])
    }
  }

  function Min(a: int, b: int): int
  {
    if a <= b then a else b
  }

  function Max(a: int, b: int): int
  {
    if a >= b then a else b
  }

  /** A cell that fails the flat tests shows the grid is not finished. */
  lemma NotStuckNotOver(n: int, g: seq<int>, i: int)
    requires IsGrid(n, g) && 0 <= i < n * n && !CellStuck(n, g, i)
    ensures !GameOver(n, g)
  {
    if GameOver(n, g) {
      GameOverCellStuck(n, g, i);
    }
  }
}
