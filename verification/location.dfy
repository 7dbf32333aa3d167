/**
 Cell coordinates of a hedgehog puzzle: a cell sits at (chunk, row, column).
 The module also fixes the order in which the constructor visits the cells
 (chunk first, then row, then column) and proves the counting facts the
 search needs: a grid has exactly chunks * rows * cols cells, so a list of
 distinct cells is never longer than that.
 */
module Location {

  /** The only chunk count for which an adjacency table exists. */
  const Chunks: int := 4

  /** The location of one cell. */
  datatype Loc = Loc(chunk: int, row: int, col: int)

  predicate Valid(rows: int, cols: int, l: Loc) {
    0 <= l.chunk < Chunks && 0 <= l.row < rows && 0 <= l.col < cols
  }

  /**
   Number of cells of a four-chunk grid with the given chunk size, counted
   row by row so that the search's arithmetic stays linear.
   */
  function TotalBlocks(rows: nat, cols: nat): nat {
    if rows == 0 then 0 else TotalBlocks(rows - 1, cols) + Chunks * cols
  }

  /** The row-by-row count is the product chunks * rows * cols. */
  lemma {:induction false} TotalBlocksProduct(rows: nat, cols: nat)
    ensures TotalBlocks(rows, cols) == Chunks * rows * cols
  {
    if rows > 0 {
      TotalBlocksProduct(rows - 1, cols);
      assert Chunks * rows * cols == Chunks * (rows - 1) * cols + Chunks * cols;
    }
  }

  /** Strict scan order of the constructor's nested loops. */
  predicate Before(a: Loc, b: Loc) {
    || a.chunk < b.chunk
    || (a.chunk == b.chunk && a.row < b.row)
    || (a.chunk == b.chunk && a.row == b.row && a.col < b.col)
  }

  predicate Increasing(s: seq<Loc>) {
    forall i, j :: 0 <= i < j < |s| ==> Before(s[i], s[j])
  }

  ghost predicate Distinct<T>(s: seq<T>) {
    forall i, j :: 0 <= i < j < |s| ==> s[i] != s[j]
  }

  /** The cells of one row, by ascending column. */
  function RowScan(chunk: int, row: int, cols: nat): (s: seq<Loc>)
    ensures |s| == cols
    ensures forall l :: l in s <==> l.chunk == chunk && l.row == row && 0 <= l.col < cols
    ensures Increasing(s)
  {
    var s := seq(cols, j => Loc(chunk, row, j));
    assert forall l: Loc :: l.chunk == chunk && l.row == row && 0 <= l.col < cols ==> s[l.col] == l;
    s
  }

  /** The cells of one chunk, row by row. */
  function ChunkScan(chunk: int, rows: nat, cols: nat): (s: seq<Loc>)
    ensures |s| == rows * cols
    ensures forall l :: l in s <==> l.chunk == chunk && 0 <= l.row < rows && 0 <= l.col < cols
    ensures Increasing(s)
  {
    if rows == 0 then []
    else
      var front := ChunkScan(chunk, rows - 1, cols);
      var last := RowScan(chunk, rows - 1, cols);
      assert forall i, j :: 0 <= i < |front| && 0 <= j < |last| ==> Before(front[i], last[j]) by {
        forall i, j | 0 <= i < |front| && 0 <= j < |last|
          ensures Before(front[i], last[j])
        {
          assert front[i] in front;
          assert last[j] in last;
        }
      }
      assert (rows - 1) * cols + cols == rows * cols;
      front + last
  }

  /** The first `chunks` chunks of the grid, in the constructor's order. */
  function ScanChunks(chunks: nat, rows: nat, cols: nat): (s: seq<Loc>)
    ensures |s| == chunks * (rows * cols)
    ensures forall l :: l in s <==> 0 <= l.chunk < chunks && 0 <= l.row < rows && 0 <= l.col < cols
    ensures Increasing(s)
  {
    if chunks == 0 then []
    else
      var front := ScanChunks(chunks - 1, rows, cols);
      var last := ChunkScan(chunks - 1, rows, cols);
      assert forall i, j :: 0 <= i < |front| && 0 <= j < |last| ==> Before(front[i], last[j]) by {
        forall i, j | 0 <= i < |front| && 0 <= j < |last|
          ensures Before(front[i], last[j])
        {
          assert front[i] in front;
          assert last[j] in last;
        }
      }
      var k := rows * cols;
      assert (chunks - 1) * k + k == chunks * k;
      front + last
  }

  /** Every cell of the grid, in the order the constructor visits them. */
  function AllLocs(rows: nat, cols: nat): (s: seq<Loc>)
    ensures |s| == TotalBlocks(rows, cols)
    ensures forall l :: l in s <==> Valid(rows, cols, l)
    ensures Increasing(s)
  {
    TotalBlocksProduct(rows, cols);
    assert Chunks * rows * cols == Chunks * (rows * cols);
    ScanChunks(Chunks, rows, cols)
  }

  /** Dropping the last element of an increasing sequence leaves an increasing sequence below it. */
  lemma IncreasingFront(s: seq<Loc>)
    requires Increasing(s) && |s| > 0
    ensures Increasing(s[..|s| - 1])
    ensures forall x :: x in s[..|s| - 1] ==> x in s && Before(x, s[|s| - 1])
    ensures s == s[..|s| - 1] + [s[|s| - 1]]
  {
    var front := s[..|s| - 1];
    forall x | x in front
      ensures x in s && Before(x, s[|s| - 1])
    {
      var i :| 0 <= i < |front| && front[i] == x;
      assert s[i] == x;
    }
  }

  lemma IncreasingIsDistinct(s: seq<Loc>)
    requires Increasing(s)
    ensures Distinct(s)
  {
    forall i, j | 0 <= i < j < |s|
      ensures s[i] != s[j]
    {
      assert Before(s[i], s[j]);
    }
  }

  /** A sequence without repetitions has as many elements as its set. */
  lemma {:induction false} DistinctCard<T>(s: seq<T>)
    requires Distinct(s)
    ensures |set x | x in s| == |s|
  {
    if |s| > 0 {
      var front := s[..|s| - 1];
      assert Distinct(front);
      DistinctCard(front);
      assert s == front + [s[|s| - 1]];
      assert s[|s| - 1] !in front;
      assert (set x | x in s) == (set x | x in front) + {s[|s| - 1]};
    }
  }

  lemma SubsetCard<T>(a: set<T>, b: set<T>)
    requires a <= b
    ensures |a| <= |b|
    ensures |a| == |b| ==> a == b
  {
    assert b == a + (b - a);
    assert a !! (b - a);
    assert |b| == |a| + |b - a|;
  }

  /**
   Pigeonhole: distinct cells of the grid are at most as many as the grid
   has cells, and when they are exactly as many they are all of them.
   */
  lemma Pigeonhole(s: seq<Loc>, rows: nat, cols: nat)
    requires Distinct(s)
    requires forall i :: 0 <= i < |s| ==> Valid(rows, cols, s[i])
    ensures |s| <= TotalBlocks(rows, cols)
    ensures |s| == TotalBlocks(rows, cols) ==> forall l :: Valid(rows, cols, l) ==> l in s
  {
    var all := AllLocs(rows, cols);
    IncreasingIsDistinct(all);
    DistinctCard(all);
    DistinctCard(s);
    var a := set x | x in s;
    var g := set x | x in all;
    forall x | x in a
      ensures x in g
    {
      var i :| 0 <= i < |s| && s[i] == x;
    }
    SubsetCard(a, g);
    if |s| == TotalBlocks(rows, cols) {
      forall l | Valid(rows, cols, l)
        ensures l in s
      {
        assert l in g;
      }
    }
  }
}
