/**
 * What the grid algorithms do to one line of cells.  A line is listed from
 * the edge the tiles move towards (offset 0) outwards; Directions says
 * which flat indices form the lines of a direction.  The traversal of
 * main.py visits the offsets of every line in increasing order, so each
 * grid algorithm acts on every line as a function of that line alone:
 *
 *   _shift    (main.py:109-120)  turns a line into Compact(line);
 *   _collapse (main.py:122-127)  turns a line into CollapseLine(line);
 *   shift_and_collapse (main.py:139-142) turns it into MoveLine(line).
 *
 * Each of these comes with an independent description: Compact is the only
 * compacted line with the same tiles in the same order, CollapseLine equals
 * a left-to-right pairing RefCollapse, and MoveLine is the usual 2048 rule
 * Merged applied to the tiles of the line.
 */
module Lines {
  import opened Block

  // ---------------------------------------------------------------------
  // Sums and counts of a sequence of cells
  // ---------------------------------------------------------------------

  function Sum(s: seq<int>): int
  {
    if s == [] then 0 else s[0] + Sum(s[1..])
  }

  function EmptyCount(s: seq<int>): nat
  {
    if s == [] then 0 else (if IsEmpty(s[0]) then 1 else 0) + EmptyCount(s[1..])
  }

  ghost predicate AllTiles(s: seq<int>)
  {
    forall j :: 0 <= j < |s| ==> IsTileValue(s[j])
  }

  lemma {:induction false} SumAppend(a: seq<int>, b: seq<int>)
    ensures Sum(a + b) == Sum(a) + Sum(b)
  {
    if a != [] {
      assert (a + b)[0] == a[0] && (a + b)[1..] == a[1..] + b;
      SumAppend(a[1..], b);
    } else {
      assert a + b == b;
    }
  }

  lemma {:induction false} EmptyCountAppend(a: seq<int>, b: seq<int>)
    ensures EmptyCount(a + b) == EmptyCount(a) + EmptyCount(b)
  {
    if a != [] {
      assert (a + b)[0] == a[0] && (a + b)[1..] == a[1..] + b;
      EmptyCountAppend(a[1..], b);
    } else {
      assert a + b == b;
    }
  }

  /** Overwriting one cell changes the sum by the difference of the values. */
  lemma {:induction false} SumUpdate(s: seq<int>, i: int, x: int)
    requires 0 <= i < |s|
    ensures Sum(s[i := x]) == Sum(s) - s[i] + x
  {
    if i > 0 {
      assert s[i := x][1..] == s[1..][i - 1 := x];
      SumUpdate(s[1..], i - 1, x);
    }
  }

  /** Overwriting one cell changes the number of empty cells by at most one. */
  lemma {:induction false} EmptyCountUpdate(s: seq<int>, i: int, x: int)
    requires 0 <= i < |s|
    ensures EmptyCount(s[i := x]) ==
              EmptyCount(s) - (if IsEmpty(s[i]) then 1 else 0) + (if IsEmpty(x) then 1 else 0)
  {
    if i > 0 {
      assert s[i := x][1..] == s[1..][i - 1 := x];
      EmptyCountUpdate(s[1..], i - 1, x);
    }
  }

  lemma {:induction false} EmptyCountBound(s: seq<int>)
    ensures EmptyCount(s) <= |s|
  {
    if s != [] { EmptyCountBound(s[1..]); }
  }

  /** A sequence with an empty cell has an index holding one. */
  lemma {:induction false} EmptyCountWitness(s: seq<int>) returns (j: int)
    requires EmptyCount(s) > 0
    ensures 0 <= j < |s| && IsEmpty(s[j])
  {
    if IsEmpty(s[0]) {
      j := 0;
    } else {
      var j' := EmptyCountWitness(s[1..]);
      j := j' + 1;
    }
  }

  /** With no empty cell, no index holds one. */
  lemma {:induction false} NoEmptyCell(s: seq<int>, j: int)
    requires EmptyCount(s) == 0 && 0 <= j < |s|
    ensures !IsEmpty(s[j])
  {
    if j > 0 { NoEmptyCell(s[1..], j - 1); }
  }

  /** No cell is empty exactly when the count of empty cells is 0. */
  lemma EmptyCountZero(s: seq<int>)
    ensures EmptyCount(s) == 0 <==> forall j :: 0 <= j < |s| ==> !IsEmpty(s[j])
  {
    if EmptyCount(s) > 0 {
      var j := EmptyCountWitness(s);
    } else {
      forall j | 0 <= j < |s| ensures !IsEmpty(s[j]) {
        NoEmptyCell(s, j);
      }
    }
  }

  /** Tiles sum to at least 2 per non-empty cell, so the sum is 0 only when all cells are empty. */
  lemma {:induction false} SumOfTiles(s: seq<int>)
    requires AllTiles(s)
    ensures Sum(s) >= 2 * (|s| - EmptyCount(s))
    ensures Sum(s) == 0 <==> EmptyCount(s) == |s|
  {
    if s != [] {
      assert AllTiles(s[1..]) by {
        forall j | 0 <= j < |s[1..]| ensures IsTileValue(s[1..][j]) {
          assert s[1..][j] == s[j + 1];
        }
      }
      SumOfTiles(s[1..]);
      EmptyCountBound(s[1..]);
      TileBounds(s[0]);
    }
  }

  /**
   * Clearing cell src and writing its value into dst, which is empty or src
   * itself, keeps the values, the sum and the number of empty cells.
   */
  lemma MoveTotals(s: seq<int>, src: int, dst: int)
    requires 0 <= src < |s| && 0 <= dst < |s| && (src == dst || IsEmpty(s[dst]))
    ensures var r := s[src := EmptyVal][dst := s[src]];
            && multiset(r) == multiset(s)
            && Sum(r) == Sum(s)
            && EmptyCount(r) == EmptyCount(s)
  {
    if src == dst {
      assert s[src := EmptyVal][dst := s[src]] == s;
    } else {
      var t := s[src := EmptyVal];
      SumUpdate(s, src, EmptyVal);
      SumUpdate(t, dst, s[src]);
      EmptyCountUpdate(s, src, EmptyVal);
      EmptyCountUpdate(t, dst, s[src]);
    }
  }

  /**
   * Doubling the cell dst and clearing the equal cell src keeps the sum,
   * never adds a tile (exactly one disappears when they hold a tile) and
   * keeps tile values tile values.
   */
  lemma MergeInto(s: seq<int>, dst: int, src: int)
    requires 0 <= src < |s| && 0 <= dst < |s| && src != dst && s[src] == s[dst]
    ensures var r := s[dst := s[dst] * 2][src := EmptyVal];
            && Sum(r) == Sum(s)
            && EmptyCount(r) == EmptyCount(s) + (if IsEmpty(s[src]) then 0 else 1)
            && (AllTiles(s) ==> AllTiles(r))
  {
    var v := s[src];
    var t := s[dst := v * 2];
    SumUpdate(s, dst, v * 2);
    SumUpdate(t, src, EmptyVal);
    EmptyCountUpdate(s, dst, v * 2);
    EmptyCountUpdate(t, src, EmptyVal);
    if AllTiles(s) {
      DoubleIsTile(v);
    }
  }

  /** Tile values are a property of the multiset of values. */
  lemma SameValuesTiles(s: seq<int>, r: seq<int>)
    requires multiset(r) == multiset(s) && AllTiles(s)
    ensures AllTiles(r)
  {
    forall j | 0 <= j < |r| ensures IsTileValue(r[j]) {
      assert r[j] in multiset(s);
    }
  }

  lemma TileSum(s: seq<int>)
    ensures AllTiles(s) ==> Sum(s) >= 2 * (|s| - EmptyCount(s))
    ensures AllTiles(s) ==> (Sum(s) == 0 <==> EmptyCount(s) == |s|)
  {
    if AllTiles(s) {
      SumOfTiles(s);
    }
  }

  // ---------------------------------------------------------------------
  // Shift: compaction of a line
  // ---------------------------------------------------------------------

  function Zeros(m: int): (z: seq<int>)
    ensures |z| == if m > 0 then m else 0
    ensures forall j :: 0 <= j < |z| ==> z[j] == EmptyVal
  {
    if m <= 0 then [] else seq(m, _ => EmptyVal)
  }

  /** The tiles of a line, in order. */
  function NonZeros(s: seq<int>): (r: seq<int>)
    ensures |r| <= |s|
    ensures forall j :: 0 <= j < |r| ==> !IsEmpty(r[j])
  {
    if s == [] then []
    else (if IsEmpty(s[0]) then [] else [s[0]]) + NonZeros(s[1..])
  }

  /** A line is compacted when no tile has an empty cell next to it towards the edge. */
  ghost predicate Compacted(s: seq<int>)
  {
    forall k :: 1 <= k < |s| && !IsEmpty(s[k]) ==> !IsEmpty(s[k - 1])
  }

  /** The tiles of the line pushed to its destination edge. */
  function Compact(s: seq<int>): (r: seq<int>)
    ensures |r| == |s|
  {
    NonZeros(s) + Zeros(|s| - |NonZeros(s)|)
  }

  lemma {:induction false} NonZerosAppend(a: seq<int>, b: seq<int>)
    ensures NonZeros(a + b) == NonZeros(a) + NonZeros(b)
  {
    if a != [] {
      assert (a + b)[0] == a[0] && (a + b)[1..] == a[1..] + b;
      NonZerosAppend(a[1..], b);
    } else {
      assert a + b == b;
    }
  }

  lemma {:induction false} NonZerosOfZeros(m: int)
    ensures NonZeros(Zeros(m)) == []
    decreases m
  {
    if m > 0 {
      assert Zeros(m)[1..] == Zeros(m - 1);
      NonZerosOfZeros(m - 1);
    }
  }

  lemma {:induction false} NonZerosOfTiles(a: seq<int>)
    requires forall j :: 0 <= j < |a| ==> !IsEmpty(a[j])
    ensures NonZeros(a) == a
  {
    if a != [] { NonZerosOfTiles(a[1..]); }
  }

  lemma {:induction false} SumNonZeros(s: seq<int>)
    ensures Sum(NonZeros(s)) == Sum(s)
  {
    if s != [] {
      SumNonZeros(s[1..]);
      SumAppend(if IsEmpty(s[0]) then [] else [s[0]], NonZeros(s[1..]));
    }
  }

  lemma {:induction false} SumZeros(m: int)
    ensures Sum(Zeros(m)) == 0
    decreases m
  {
    if m > 0 {
      assert Zeros(m)[1..] == Zeros(m - 1);
      SumZeros(m - 1);
    }
  }

  lemma {:induction false} EmptyCountZeros(m: nat)
    ensures EmptyCount(Zeros(m)) == m
  {
    if m > 0 {
      assert Zeros(m)[1..] == Zeros(m - 1);
      EmptyCountZeros(m - 1);
    }
  }

  lemma {:induction false} EmptyCountNonZeros(s: seq<int>)
    ensures EmptyCount(NonZeros(s)) == 0
    ensures EmptyCount(s) == |s| - |NonZeros(s)|
  {
    if s != [] {
      EmptyCountNonZeros(s[1..]);
      EmptyCountAppend(if IsEmpty(s[0]) then [] else [s[0]], NonZeros(s[1..]));
    }
  }

  /** Compaction is a rearrangement: the multiset of values is unchanged. */
  lemma {:induction false} CompactPermutes(s: seq<int>)
    ensures multiset(Compact(s)) == multiset(s)
  {
    if s != [] {
      var t := s[1..];
      CompactPermutes(t);
      CompactConsPermutes(s[0], t);
      assert s == [s[0]] + t;
    }
  }

  /** Putting one more cell in front of a line adds that cell to the multiset of its compaction. */
  lemma CompactConsPermutes(v: int, t: seq<int>)
    ensures multiset(Compact([v] + t)) == multiset{v} + multiset(Compact(t))
  {
    var s := [v] + t;
    assert s[1..] == t;
    var nz, m := NonZeros(t), |t| - |NonZeros(t)|;
    assert Compact(t) == nz + Zeros(m);
    if IsEmpty(v) {
      assert NonZeros(s) == nz;
      ZerosCons(m);
      MultisetInsert(nz, v, Zeros(m));
    } else {
      assert Compact(s) == [v] + (nz + Zeros(m));
    }
  }

  /** One more empty cell in front of a run of empty cells. */
  lemma ZerosCons(m: nat)
    ensures Zeros(m + 1) == [EmptyVal] + Zeros(m)
  {
  }

  /** Inserting a value anywhere in a sequence adds it to the multiset. */
  lemma MultisetInsert(a: seq<int>, x: int, b: seq<int>)
    ensures multiset(a + ([x] + b)) == multiset{x} + multiset(a + b)
  {
  }

  /** Compaction keeps the tiles, their order, the sum and the number of empty cells. */
  lemma CompactKeeps(s: seq<int>)
    ensures NonZeros(Compact(s)) == NonZeros(s)
    ensures Sum(Compact(s)) == Sum(s)
    ensures EmptyCount(Compact(s)) == EmptyCount(s)
  {
    var z := Zeros(|s| - |NonZeros(s)|);
    NonZerosAppend(NonZeros(s), z);
    NonZerosOfZeros(|s| - |NonZeros(s)|);
    NonZerosOfTiles(NonZeros(s));
    SumAppend(NonZeros(s), z);
    SumZeros(|s| - |NonZeros(s)|);
    SumNonZeros(s);
    EmptyCountAppend(NonZeros(s), z);
    EmptyCountNonZeros(s);
    EmptyCountZeros(|s| - |NonZeros(s)|);
  }

  /** After a shift the line is compacted. */
  lemma CompactIsCompacted(s: seq<int>)
    ensures Compacted(Compact(s))
  {
    var r := Compact(s);
    var q := |NonZeros(s)|;
    forall k | 1 <= k < |r| && !IsEmpty(r[k]) ensures !IsEmpty(r[k - 1]) {
      assert k < q;
    }
  }

  lemma {:induction false} CompactedEmptyHead(s: seq<int>)
    requires Compacted(s) && s != [] && IsEmpty(s[0])
    ensures forall j :: 0 <= j < |s| ==> IsEmpty(s[j])
  {
    forall j | 0 <= j < |s| ensures IsEmpty(s[j]) {
      EmptyBelow(s, j);
    }
  }

  lemma {:induction false} EmptyBelow(s: seq<int>, j: int)
    requires Compacted(s) && 0 <= j < |s| && IsEmpty(s[0])
    ensures IsEmpty(s[j])
  {
    if j > 0 { EmptyBelow(s, j - 1); }
  }

  /** A compacted line is left alone by compaction: shifting twice changes nothing more. */
  lemma {:induction false} CompactedFixed(s: seq<int>)
    requires Compacted(s)
    ensures Compact(s) == s
  {
    if s != [] {
      if IsEmpty(s[0]) {
        CompactedEmptyHead(s);
        NonZerosOfAllEmpty(s);
      } else {
        assert Compacted(s[1..]) by {
          forall k | 1 <= k < |s[1..]| && !IsEmpty(s[1..][k]) ensures !IsEmpty(s[1..][k - 1]) {
            assert s[1..][k] == s[k + 1];
          }
        }
        CompactedFixed(s[1..]);
        assert Compact(s) == [s[0]] + Compact(s[1..]);
      }
    }
  }

  lemma {:induction false} NonZerosOfAllEmpty(s: seq<int>)
    requires forall j :: 0 <= j < |s| ==> IsEmpty(s[j])
    ensures NonZeros(s) == [] && s == Zeros(|s|)
  {
    if s != [] { NonZerosOfAllEmpty(s[1..]); }
  }

  lemma CompactIdempotent(s: seq<int>)
    ensures Compact(Compact(s)) == Compact(s)
  {
    CompactIsCompacted(s);
    CompactedFixed(Compact(s));
  }

  /**
   * Compact(s) is the only compacted line of the same length holding the
   * same tiles in the same order.
   */
  lemma CompactUnique(s: seq<int>, r: seq<int>)
    requires |r| == |s| && Compacted(r) && NonZeros(r) == NonZeros(s)
    ensures r == Compact(s)
  {
    CompactedFixed(r);
  }

  // The state of a line while _shift works along it.

  /** The first p offsets have been processed: they are compacted, the rest is untouched. */
  function ShiftPrefix(s: seq<int>, p: int): (r: seq<int>)
    requires 0 <= p <= |s|
    ensures |r| == |s|
  {
    Compact(s[..p]) + s[p..]
  }

  lemma ShiftPrefixEnds(s: seq<int>)
    ensures ShiftPrefix(s, 0) == s
    ensures ShiftPrefix(s, |s|) == Compact(s)
  {
    assert s[..|s|] == s;
  }

  /** An empty cell at offset p needs no work. */
  lemma ShiftPrefixSkip(s: seq<int>, p: int)
    requires 0 <= p < |s| && IsEmpty(s[p])
    ensures ShiftPrefix(s, p + 1) == ShiftPrefix(s, p)
  {
    var z := NonZeros(s[..p]);
    assert NonZeros(s[..p + 1]) == z by {
      assert s[..p + 1] == s[..p] + [s[p]];
      NonZerosAppend(s[..p], [s[p]]);
      assert NonZeros([s[p]]) == [];
    }
    assert Zeros(p + 1 - |z|) == Zeros(p - |z|) + [EmptyVal];
    assert s[p..] == [s[p]] + s[p + 1..];
    assert ShiftPrefix(s, p + 1) == z + Zeros(p + 1 - |z|) + s[p + 1..];
  }

  /**
   * When _shift reaches offset p, the first q = |NonZeros(s[..p])| offsets
   * hold the tiles already placed, offsets q .. p - 1 are empty and offset
   * p still holds its original value.
   */
  lemma ShiftPrefixLayout(s: seq<int>, p: int)
    requires 0 <= p < |s|
    ensures var q := |NonZeros(s[..p])|;
            var r := ShiftPrefix(s, p);
            && q <= p && r[p] == s[p]
            && (forall m :: q <= m < p ==> IsEmpty(r[m]))
            && (forall m :: 0 <= m < q ==> !IsEmpty(r[m]))
  {
  }

  /**
   * A tile at offset p that comes to rest at offset q, just past the tiles
   * already placed, completes offset p.
   */
  lemma ShiftPrefixJump(s: seq<int>, p: int)
    requires 0 <= p < |s| && !IsEmpty(s[p])
    ensures var q := |NonZeros(s[..p])|;
            q <= p && ShiftPrefix(s, p)[p := EmptyVal][q := s[p]] == ShiftPrefix(s, p + 1)
  {
    var placed := NonZeros(s[..p]);
    var q := |placed|;
    assert s[..p + 1] == s[..p] + [s[p]];
    NonZerosAppend(s[..p], [s[p]]);
    assert NonZeros([s[p]]) == [s[p]];
    var a := ShiftPrefix(s, p)[p := EmptyVal][q := s[p]];
    var b := ShiftPrefix(s, p + 1);
    assert b == placed + [s[p]] + Zeros(p - q) + s[p + 1..];
    forall j | 0 <= j < |s| ensures a[j] == b[j] {
      if j < q {
      } else if j == q {
      } else if j <= p {
      } else {
        assert a[j] == s[j];
      }
    }
  }

  // ---------------------------------------------------------------------
  // Collapse: one merging pass along a line
  // ---------------------------------------------------------------------

  /**
   * The work at offset k: if the cell at k equals its neighbour at k - 1,
   * the neighbour doubles and k is cleared.  Offset 0 has no neighbour.  As
   * in the source there is no test for emptiness: two empty cells "merge"
   * into an empty cell, which changes nothing (MergeAtGuardIrrelevant).
   */
  function MergeAt(s: seq<int>, k: int): (r: seq<int>)
    ensures |r| == |s|
  {
    if 1 <= k < |s| && s[k] == s[k - 1] then s[k - 1 := s[k - 1] * 2][k := EmptyVal] else s
  }

  /** After processing the first p offsets. */
  function CollapsePrefix(s: seq<int>, p: int): (r: seq<int>)
    requires 0 <= p <= |s|
    ensures |r| == |s|
  {
    if p == 0 then s else MergeAt(CollapsePrefix(s, p - 1), p - 1)
  }

  function CollapseLine(s: seq<int>): (r: seq<int>)
    ensures |r| == |s|
  {
    CollapsePrefix(s, |s|)
  }

  /** The same step with the test for an empty cell that the source leaves out. */
  function MergeAtGuarded(s: seq<int>, k: int): (r: seq<int>)
    ensures |r| == |s|
  {
    if 1 <= k < |s| && !IsEmpty(s[k]) && s[k] == s[k - 1] then s[k - 1 := s[k - 1] * 2][k := EmptyVal] else s
  }

  function CollapsePrefixGuarded(s: seq<int>, p: int): (r: seq<int>)
    requires 0 <= p <= |s|
    ensures |r| == |s|
  {
    if p == 0 then s else MergeAtGuarded(CollapsePrefixGuarded(s, p - 1), p - 1)
  }

  /** Leaving out the emptiness test changes nothing: an empty pair merges into itself. */
  lemma {:induction false} MergeAtGuardIrrelevant(s: seq<int>, p: int)
    requires 0 <= p <= |s|
    ensures CollapsePrefix(s, p) == CollapsePrefixGuarded(s, p)
  {
    if p > 0 {
      MergeAtGuardIrrelevant(s, p - 1);
      var t := CollapsePrefix(s, p - 1);
      if 1 <= p - 1 && IsEmpty(t[p - 1]) && t[p - 1] == t[p - 2] {
        assert t[p - 2 := t[p - 2] * 2][p - 1 := EmptyVal] == t;
      }
    }
  }

  /** A merge of two equal tiles is exact: same sum, one tile fewer, tiles stay tiles. */
  lemma MergeAtExact(s: seq<int>, k: int)
    requires 1 <= k < |s| && s[k] == s[k - 1] && !IsEmpty(s[k])
    ensures Sum(MergeAt(s, k)) == Sum(s)
    ensures EmptyCount(MergeAt(s, k)) == EmptyCount(s) + 1
    ensures MergeAt(s, k)[k - 1] == 2 * s[k] && IsEmpty(MergeAt(s, k)[k])
    ensures AllTiles(s) ==> AllTiles(MergeAt(s, k))
  {
    MergeInto(s, k - 1, k);
  }

  /** Any step, equal pair or not, keeps the sum, never adds a tile and keeps tiles tiles. */
  lemma MergeAtKeeps(s: seq<int>, k: int)
    ensures Sum(MergeAt(s, k)) == Sum(s)
    ensures EmptyCount(MergeAt(s, k)) >= EmptyCount(s)
    ensures AllTiles(s) ==> AllTiles(MergeAt(s, k))
  {
    if 1 <= k < |s| && s[k] == s[k - 1] {
      if IsEmpty(s[k]) {
        assert MergeAt(s, k) == s;
      } else {
        MergeAtExact(s, k);
      }
    }
  }

  lemma {:induction false} CollapsePrefixKeeps(s: seq<int>, p: int)
    requires 0 <= p <= |s|
    ensures Sum(CollapsePrefix(s, p)) == Sum(s)
    ensures EmptyCount(CollapsePrefix(s, p)) >= EmptyCount(s)
    ensures AllTiles(s) ==> AllTiles(CollapsePrefix(s, p))
  {
    if p > 0 {
      CollapsePrefixKeeps(s, p - 1);
      MergeAtKeeps(CollapsePrefix(s, p - 1), p - 1);
    }
  }

  /** A collapse keeps the sum, never adds tiles and keeps every value a tile. */
  lemma CollapseLineKeeps(s: seq<int>)
    ensures Sum(CollapseLine(s)) == Sum(s)
    ensures EmptyCount(CollapseLine(s)) >= EmptyCount(s)
    ensures AllTiles(s) ==> AllTiles(CollapseLine(s))
  {
    CollapsePrefixKeeps(s, |s|);
  }

  // A reference description of the collapse pass.

  /**
   * Read the line from the edge: an equal pair at the front becomes the
   * double and an empty cell, and the scan continues after the pair;
   * otherwise the front cell stays and the scan continues with the next.
   */
  function RefCollapse(s: seq<int>): (r: seq<int>)
    ensures |r| == |s|
    decreases |s|
  {
    if |s| < 2 then s
    else if s[0] == s[1] then [s[0] * 2, EmptyVal] + RefCollapse(s[2..])
    else [s[0]] + RefCollapse(s[1..])
  }

  lemma {:induction false} RefCollapseEmptyHead(t: seq<int>)
    ensures RefCollapse([EmptyVal] + t) == [EmptyVal] + RefCollapse(t)
    decreases |t|
  {
    var s := [EmptyVal] + t;
    if |t| >= 1 {
      if IsEmpty(t[0]) {
        assert s[2..] == t[1..];
        if |t| >= 2 {
          RefCollapseEmptyHead(t[1..]);
          assert t == [EmptyVal] + t[1..];
        } else {
          assert t == [EmptyVal];
        }
      } else {
        assert s[1..] == t;
      }
    }
  }

  /** The source's loop, run from offset k to the end. */
  ghost function CollapseFrom(s: seq<int>, k: int): (r: seq<int>)
    requires 0 <= k <= |s|
    ensures |r| == |s|
    decreases |s| - k
  {
    if k == |s| then s else CollapseFrom(MergeAt(s, k), k + 1)
  }

  lemma {:induction false} PrefixThenRest(s: seq<int>, p: int)
    requires 0 <= p <= |s|
    ensures CollapseFrom(CollapsePrefix(s, p), p) == CollapseFrom(s, 0)
  {
    if p > 0 {
      PrefixThenRest(s, p - 1);
    }
  }

  lemma {:induction false} CollapseFromIsRef(s: seq<int>, k: int)
    requires 1 <= k <= |s|
    ensures CollapseFrom(s, k) == s[..k - 1] + RefCollapse(s[k - 1..])
    decreases |s| - k
  {
    if k == |s| {
      assert s[k - 1..] == [s[k - 1]];
      assert s[..k - 1] + [s[k - 1]] == s;
    } else {
      CollapseFromIsRef(MergeAt(s, k), k + 1);
      if s[k] == s[k - 1] {
        MergeStepIsRef(s, k);
      } else {
        KeepStepIsRef(s, k);
      }
    }
  }

  lemma MergeStepIsRef(s: seq<int>, k: int)
    requires 1 <= k < |s| && s[k] == s[k - 1]
    ensures var s' := MergeAt(s, k);
            s'[..k] + RefCollapse(s'[k..]) == s[..k - 1] + RefCollapse(s[k - 1..])
  {
    var s' := MergeAt(s, k);
    var tail := s[k - 1..];
    assert s'[..k] == s[..k - 1] + [s[k - 1] * 2];
    assert s'[k..] == [EmptyVal] + s[k + 1..];
    RefCollapseEmptyHead(s[k + 1..]);
    assert tail[0] == tail[1] && tail[2..] == s[k + 1..];
    assert RefCollapse(tail) == [s[k - 1] * 2, EmptyVal] + RefCollapse(s[k + 1..]);
  }

  lemma KeepStepIsRef(s: seq<int>, k: int)
    requires 1 <= k < |s| && s[k] != s[k - 1]
    ensures var s' := MergeAt(s, k);
            s'[..k] + RefCollapse(s'[k..]) == s[..k - 1] + RefCollapse(s[k - 1..])
  {
    var tail := s[k - 1..];
    assert s[..k] == s[..k - 1] + [s[k - 1]];
    assert tail[0] != tail[1] && tail[1..] == s[k..];
    assert RefCollapse(tail) == [s[k - 1]] + RefCollapse(s[k..]);
  }

  /** The source's in-place pass and the reference reading agree on every line. */
  lemma CollapseLineIsRef(s: seq<int>)
    ensures CollapseLine(s) == RefCollapse(s)
  {
    PrefixThenRest(s, |s|);
    if |s| >= 1 {
      assert MergeAt(s, 0) == s;
      CollapseFromIsRef(s, 1);
      assert s[0..] == s;
    }
  }

  // ---------------------------------------------------------------------
  // A full move: shift, collapse, shift
  // ---------------------------------------------------------------------

  function MoveLine(s: seq<int>): (r: seq<int>)
    ensures |r| == |s|
  {
    Compact(CollapseLine(Compact(s)))
  }

  /**
   * The usual 2048 rule on the tiles of a line, read from the edge: two
   * equal neighbours become one tile of double value and neither takes part
   * in another merge; any other tile is kept.
   */
  function Merged(a: seq<int>): (r: seq<int>)
    ensures |r| <= |a|
    decreases |a|
  {
    if |a| < 2 then a
    else if a[0] == a[1] then [a[0] * 2] + Merged(a[2..])
    else [a[0]] + Merged(a[1..])
  }

  lemma {:induction false} RefCollapseZeros(m: nat)
    ensures RefCollapse(Zeros(m)) == Zeros(m)
    decreases m
  {
    if m >= 2 {
      RefCollapseZeros(m - 2);
      assert Zeros(m)[2..] == Zeros(m - 2);
      assert Zeros(m) == [EmptyVal, EmptyVal] + Zeros(m - 2);
    }
  }

  lemma {:induction false} RefCollapseOfCompacted(a: seq<int>, m: nat)
    requires forall j :: 0 <= j < |a| ==> !IsEmpty(a[j])
    ensures NonZeros(RefCollapse(a + Zeros(m))) == Merged(a)
    decreases |a|
  {
    var s := a + Zeros(m);
    if |a| == 0 {
      assert s == Zeros(m);
      RefCollapseZeros(m);
      NonZerosOfZeros(m);
    } else if |a| == 1 {
      if m == 0 {
        assert s == a;
        NonZerosOfTiles(a);
      } else {
        assert s[1..] == Zeros(m);
        RefCollapseZeros(m);
        NonZerosOfZeros(m);
        NonZerosAppend([a[0]], Zeros(m));
      }
    } else if a[0] == a[1] {
      assert s[2..] == a[2..] + Zeros(m);
      RefCollapseOfCompacted(a[2..], m);
      DoubleIsNotEmpty(a[0]);
      NonZerosAppend([a[0] * 2, EmptyVal], RefCollapse(s[2..]));
      assert NonZeros([a[0] * 2, EmptyVal]) == [a[0] * 2];
    } else {
      assert s[1..] == a[1..] + Zeros(m);
      RefCollapseOfCompacted(a[1..], m);
      NonZerosAppend([a[0]], RefCollapse(s[1..]));
    }
  }

  lemma DoubleIsNotEmpty(v: int)
    requires !IsEmpty(v)
    ensures !IsEmpty(v * 2)
  {
  }

  /**
   * A full move of a line is the 2048 rule applied to its tiles, followed
   * by empty cells.  In particular no tile takes part in two merges.
   */
  lemma MoveLineIsMerged(s: seq<int>)
    ensures MoveLine(s) == Merged(NonZeros(s)) + Zeros(|s| - |Merged(NonZeros(s))|)
  {
    var m := Merged(NonZeros(s));
    var c := CollapseLine(Compact(s));
    assert MoveLine(s) == Compact(c);
    CollapsedTiles(s);
    assert Compact(c) == m + Zeros(|c| - |m|);
    assert |c| == |s|;
  }


  /** The tiles left by the collapse pass over a compacted line are the 2048 rule's. */
  lemma CollapsedTiles(s: seq<int>)
    ensures NonZeros(CollapseLine(Compact(s))) == Merged(NonZeros(s))
  {
    var a := NonZeros(s);
    assert Compact(s) == a + Zeros(|s| - |a|);
    CollapseLineIsRef(Compact(s));
    RefCollapseOfCompacted(a, |s| - |a|);
  }

  /**
   * The 2048 rule keeps at least half of the tiles: each step of Merged
   * turns one or two tiles into one.
   */
  lemma {:induction false} MergedKeepsHalf(a: seq<int>)
    ensures |a| <= 2 * |Merged(a)|
    decreases |a|
  {
    if |a| >= 2 {
      if a[0] == a[1] { MergedKeepsHalf(a[2..]); } else { MergedKeepsHalf(a[1..]); }
    }
  }

  lemma {:induction false} MergedSum(a: seq<int>)
    ensures Sum(Merged(a)) == Sum(a)
    decreases |a|
  {
    if |a| >= 2 {
      if a[0] == a[1] {
        MergedSum(a[2..]);
        SumAppend([a[0] * 2], Merged(a[2..]));
        assert a == [a[0], a[1]] + a[2..];
        SumAppend([a[0], a[1]], a[2..]);
      } else {
        MergedSum(a[1..]);
        SumAppend([a[0]], Merged(a[1..]));
      }
    }
  }

  /**
   * A move keeps the sum, leaves the line compacted, never adds a tile,
   * and keeps at least half of the tiles.
   */
  lemma MoveLineProperties(s: seq<int>)
    ensures Sum(MoveLine(s)) == Sum(s)
    ensures Compacted(MoveLine(s))
    ensures |NonZeros(MoveLine(s))| <= |NonZeros(s)| <= 2 * |NonZeros(MoveLine(s))|
    ensures EmptyCount(MoveLine(s)) >= EmptyCount(s)
    ensures AllTiles(s) ==> AllTiles(MoveLine(s))
  {
    MoveLineKeeps(s);
    MoveLineShape(s);
    EmptyCountNonZeros(s);
    EmptyCountNonZeros(MoveLine(s));
  }

  lemma MoveLineKeeps(s: seq<int>)
    ensures Sum(MoveLine(s)) == Sum(s)
    ensures AllTiles(s) ==> AllTiles(MoveLine(s))
  {
    var c := Compact(s);
    CompactKeeps(s);
    CollapseLineKeeps(c);
    CompactKeeps(CollapseLine(c));
    if AllTiles(s) {
      CompactTiles(s);
      CompactTiles(CollapseLine(c));
    }
  }

  lemma MoveLineShape(s: seq<int>)
    ensures Compacted(MoveLine(s))
    ensures |NonZeros(MoveLine(s))| <= |NonZeros(s)| <= 2 * |NonZeros(MoveLine(s))|
  {
    var c := Compact(s);
    CompactIsCompacted(CollapseLine(c));
    MoveLineIsMerged(s);
    var m := Merged(NonZeros(s));
    MergedKeepsHalf(NonZeros(s));
    MergedTiles(NonZeros(s));
    NonZerosAppend(m, Zeros(|s| - |m|));
    NonZerosOfZeros(|s| - |m|);
    NonZerosOfTiles(m);
  }

  lemma {:induction false} MergedTiles(a: seq<int>)
    requires forall j :: 0 <= j < |a| ==> !IsEmpty(a[j])
    ensures forall j :: 0 <= j < |Merged(a)| ==> !IsEmpty(Merged(a)[j])
    decreases |a|
  {
    if |a| >= 2 {
      if a[0] == a[1] {
        MergedTiles(a[2..]);
        DoubleIsNotEmpty(a[0]);
      } else {
        MergedTiles(a[1..]);
      }
    }
  }

  lemma CompactTiles(s: seq<int>)
    requires AllTiles(s)
    ensures AllTiles(Compact(s))
  {
    CompactPermutes(s);
    SameValuesTiles(s, Compact(s));
  }

  /** A full line with no equal neighbours cannot move. */
  lemma StuckLine(s: seq<int>)
    requires forall k :: 0 <= k < |s| ==> !IsEmpty(s[k])
    requires forall k :: 1 <= k < |s| ==> s[k] != s[k - 1]
    ensures MoveLine(s) == s
  {
    NonZerosOfTiles(s);
    assert Compact(s) == s;
    CollapseLineIsRef(s);
    RefCollapseNoPairs(s);
  }

  lemma {:induction false} RefCollapseNoPairs(s: seq<int>)
    requires forall k :: 1 <= k < |s| ==> s[k] != s[k - 1]
    ensures RefCollapse(s) == s
    decreases |s|
  {
    if |s| >= 2 {
      assert s[0] != s[1];
      RefCollapseNoPairs(s[1..]);
    }
  }

  // ---------------------------------------------------------------------
  // Traced moves of one row towards its edge
  // ---------------------------------------------------------------------

  /** Four equal tiles make two pairs, not one tile of four times the value. */
  lemma MoveLineFourEqual(v: int)
    requires !IsEmpty(v)
    ensures MoveLine([v, v, v, v]) == [2 * v, 2 * v, 0, 0]
  {
    var s := [v, v, v, v];
    MoveLineIsMerged(s);
    NonZerosOfTiles(s);
    assert s[2..] == [v, v];
    assert Merged(s) == [2 * v, 2 * v];
    assert Zeros(2) == [0, 0];
  }

  /** Three tiles followed by an empty cell move as the 2048 rule on the three. */
  lemma MoveLineThreeTiles(a: seq<int>)
    requires |a| == 3 && !IsEmpty(a[0]) && !IsEmpty(a[1]) && !IsEmpty(a[2])
    ensures MoveLine(a + [EmptyVal]) == Merged(a) + Zeros(4 - |Merged(a)|)
  {
    MoveLineIsMerged(a + [EmptyVal]);
    NonZerosAppend(a, [EmptyVal]);
    NonZerosOfTiles(a);
    assert [EmptyVal][1..] == [];
    assert NonZeros([EmptyVal]) == [];
    assert NonZeros(a + [EmptyVal]) == a;
  }

  /** A tile made by a merge does not merge again with the equal tile beside it. */
  lemma MoveLineNoRemerge(v: int)
    requires !IsEmpty(v)
    ensures MoveLine([2 * v, v, v, 0]) == [2 * v, 2 * v, 0, 0]
  {
    var a := [2 * v, v, v];
    MoveLineThreeTiles(a);
    assert a + [EmptyVal] == [2 * v, v, v, 0];
    assert a[1..] == [v, v] && a[1..][2..] == [];
    assert Merged(a) == [2 * v, 2 * v];
    assert Zeros(2) == [0, 0];
  }

  /** Of three equal tiles, the two nearest the edge merge. */
  lemma MoveLineEdgePairFirst(v: int)
    requires !IsEmpty(v)
    ensures MoveLine([v, v, v, 0]) == [2 * v, v, 0, 0]
  {
    var a := [v, v, v];
    MoveLineThreeTiles(a);
    assert a + [EmptyVal] == [v, v, v, 0];
    assert a[2..] == [v];
    assert Merged(a) == [2 * v, v];
    assert Zeros(2) == [0, 0];
  }

  /** A merged tile next to an equal tile of the line stays apart from it. */
  lemma MoveLineMergedStays(v: int)
    requires !IsEmpty(v)
    ensures MoveLine([v, v, 2 * v, 0]) == [2 * v, 2 * v, 0, 0]
  {
    var a := [v, v, 2 * v];
    MoveLineThreeTiles(a);
    assert a + [EmptyVal] == [v, v, 2 * v, 0];
    assert a[2..] == [2 * v];
    assert Merged(a) == [2 * v, 2 * v];
    assert Zeros(2) == [0, 0];
  }
}
