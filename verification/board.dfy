/**
 The puzzle board: every cell (a Block) with its number and its `fixed`
 flag, the number index that maps each placed number to the cell holding it,
 and the root cell holding 1. The constructor builds it from the input
 puzzle, a chunk x row x column array of integers with -1 for a blank.
 */
module Board {
  import opened Location

  /** The number of a cell that holds no number yet. */
  const Blank: int := -1

  /** A cell's state; its location is the key under which the board stores it. */
  datatype Block = Block(num: int, fixed: bool)

  /**
   The board: the chunk size, the cell of every location, the number index
   (number -> location of the cell holding it) and the root cell.
   */
  datatype Hedgehog = Hedgehog(rows: nat, cols: nat, grid: map<Loc, Block>, index: map<int, Loc>, root: Loc)

  /** The input puzzle, indexed by chunk, row and column. */
  type Puzzle = seq<seq<seq<int>>>

  function Total(h: Hedgehog): nat {
    TotalBlocks(h.rows, h.cols)
  }

  /** The grid covers exactly the valid locations and the index points into it. */
  ghost predicate Shaped(h: Hedgehog) {
    && h.rows >= 1 && h.cols >= 1
    && (forall l :: l in h.grid <==> Valid(h.rows, h.cols, l))
    && (forall n :: n in h.index ==> h.index[n] in h.grid)
  }

  /** The number index maps n to l exactly when the cell at l holds n. */
  ghost predicate IndexConsistent(h: Hedgehog) {
    && Blank !in h.index
    && (forall n :: n in h.index ==> h.index[n] in h.grid && h.grid[h.index[n]].num == n)
    && (forall l :: l in h.grid && h.grid[l].num != Blank ==> h.grid[l].num in h.index && h.index[h.grid[l].num] == l)
  }

  /**
   A board the search may work on: consistent index, the root holds a fixed 1,
   fixed cells hold a number, and every number lies in 1..N.
   */
  ghost predicate WellFormed(h: Hedgehog) {
    && Shaped(h)
    && IndexConsistent(h)
    && h.root in h.grid
    && h.grid[h.root] == Block(1, true)
    && (forall l :: l in h.grid && h.grid[l].fixed ==> h.grid[l].num != Blank)
    && (forall l :: l in h.grid ==> h.grid[l].num == Blank || 1 <= h.grid[l].num <= Total(h))
  }

  /** A freshly built board: only the fixed cells hold numbers. */
  ghost predicate Initial(h: Hedgehog) {
    && WellFormed(h)
    && (forall l :: l in h.grid && !h.grid[l].fixed ==> h.grid[l].num == Blank)
  }

  /**
   A puzzle the constructor can read without an index error: four chunks of
   equal, non-empty shape.
   */
  predicate Rectangular(p: Puzzle) {
    && |p| == Chunks
    && |p[0]| >= 1
    && |p[0][0]| >= 1
    && (forall c :: 0 <= c < |p| ==> |p[c]| == |p[0]|)
    && (forall c, r :: 0 <= c < |p| && 0 <= r < |p[c]| ==> |p[c][r]| == |p[0][0]|)
  }

  function Rows(p: Puzzle): nat
    requires Rectangular(p)
  {
    |p[0]|
  }

  function Cols(p: Puzzle): nat
    requires Rectangular(p)
  {
    |p[0][0]|
  }

  function Value(p: Puzzle, l: Loc): int
    requires Rectangular(p)
    requires Valid(Rows(p), Cols(p), l)
  {
    p[l.chunk][l.row][l.col]
  }

  /** Some cell holds 1; otherwise the constructor leaves the root unset. */
  predicate HasRoot(p: Puzzle) {
    exists c, r, k :: 0 <= c < |p| && 0 <= r < |p[c]| && 0 <= k < |p[c][r]| && p[c][r][k] == 1
  }

  /** No number is given to two cells. */
  ghost predicate DistinctValues(p: Puzzle)
    requires Rectangular(p)
  {
    forall a, b ::
      Valid(Rows(p), Cols(p), a) && Valid(Rows(p), Cols(p), b) && Value(p, a) != Blank && Value(p, a) == Value(p, b)
      ==> a == b
  }

  /** Every given number is a position of the chain 1..N. */
  ghost predicate ValuesInRange(p: Puzzle)
    requires Rectangular(p)
  {
    forall l :: Valid(Rows(p), Cols(p), l) ==>
      Value(p, l) == Blank || 1 <= Value(p, l) <= TotalBlocks(Rows(p), Cols(p))
  }

  /** The puzzles the search is defined for. */
  ghost predicate ValidPuzzle(p: Puzzle) {
    Rectangular(p) && HasRoot(p) && DistinctValues(p) && ValuesInRange(p)
  }

  /**
   The number index as the constructor fills it: visiting `locs` in order,
   every non-blank value is put under its number, a later cell replacing an
   earlier one with the same number. The result maps each given number to the
   LAST cell (in visiting order) that holds it.
   */
  function IndexOf(p: Puzzle, locs: seq<Loc>): (r: map<int, Loc>)
    requires Rectangular(p)
    requires forall l :: l in locs ==> Valid(Rows(p), Cols(p), l)
    requires Increasing(locs)
    ensures forall n :: n in r ==> n != Blank && r[n] in locs && Value(p, r[n]) == n
    ensures forall l :: l in locs && Value(p, l) != Blank ==> Value(p, l) in r && !Before(r[Value(p, l)], l)
  {
    if locs == [] then map[]
    else
      var front := locs[..|locs| - 1];
      var l := locs[|locs| - 1];
      IncreasingFront(locs);
      var m := IndexOf(p, front);
      if Value(p, l) != Blank then m[Value(p, l) := l] else m
  }

  /**
   The constructor: every cell is fixed exactly when its input value is not
   -1, every given number is entered in the index under that number (the last
   cell wins on a repeat), and the root is the last cell holding 1.
   */
  function Build(p: Puzzle): (h: Hedgehog)
    requires Rectangular(p)
    requires HasRoot(p)
    ensures h.rows == |p[0]| && h.cols == |p[0][0]|
    ensures forall l :: l in h.grid <==> Valid(h.rows, h.cols, l)
    ensures forall l :: l in h.grid ==> h.grid[l].num == Value(p, l) && (h.grid[l].fixed <==> Value(p, l) != Blank)
    ensures forall n :: n in h.index ==> n != Blank && h.index[n] in h.grid && Value(p, h.index[n]) == n
    ensures forall l :: l in h.grid && Value(p, l) != Blank ==> Value(p, l) in h.index && !Before(h.index[Value(p, l)], l)
    ensures h.root in h.grid && Value(p, h.root) == 1
    ensures forall l :: l in h.grid && Value(p, l) == 1 ==> !Before(h.root, l)
  {
    var locs := AllLocs(Rows(p), Cols(p));
    var grid := map l | l in locs :: Block(Value(p, l), Value(p, l) != Blank);
    var index := IndexOf(p, locs);
    var c, r, k :| 0 <= c < |p| && 0 <= r < |p[c]| && 0 <= k < |p[c][r]| && p[c][r][k] == 1;
    assert Loc(c, r, k) in locs;
    Hedgehog(Rows(p), Cols(p), grid, index, index[1])
  }

  /** With distinct given numbers the index holds each given cell under its own number. */
  lemma BuildIndexesEveryGivenCell(p: Puzzle)
    requires ValidPuzzle(p)
    ensures forall l :: l in Build(p).grid && Value(p, l) != Blank ==> Build(p).index[Value(p, l)] == l
  {
  }

  lemma BuildShaped(p: Puzzle)
    requires Rectangular(p) && HasRoot(p)
    ensures Shaped(Build(p))
  {
  }

  /** With distinct given numbers the built index is consistent with the cells. */
  lemma BuildIndexConsistent(p: Puzzle)
    requires ValidPuzzle(p)
    ensures IndexConsistent(Build(p))
  {
    BuildIndexesEveryGivenCell(p);
  }

  /** The built grid is the one that holds each input value, fixed exactly when given. */
  lemma BuildGridIs(p: Puzzle, g: map<Loc, Block>)
    requires Rectangular(p) && HasRoot(p)
    requires forall l :: l in g <==> Valid(Rows(p), Cols(p), l)
    requires forall l :: l in g ==> g[l] == Block(Value(p, l), Value(p, l) != Blank)
    ensures Build(p).grid == g
  {
    var h := Build(p);
    assert h.rows == Rows(p) && h.cols == Cols(p);
    GridsEqual(p, h.grid, g);
  }

  /** Two grids that both hold exactly the input's cells are equal. */
  lemma GridsEqual(p: Puzzle, a: map<Loc, Block>, b: map<Loc, Block>)
    requires Rectangular(p)
    requires forall l :: l in a <==> Valid(Rows(p), Cols(p), l)
    requires forall l :: l in a ==> a[l] == Block(Value(p, l), Value(p, l) != Blank)
    requires forall l :: l in b <==> Valid(Rows(p), Cols(p), l)
    requires forall l :: l in b ==> b[l] == Block(Value(p, l), Value(p, l) != Blank)
    ensures a == b
  {
    assert forall l :: l in a <==> l in b;
  }

  /**
   The built index is the one that puts every given number under its cell,
   and the root is the cell holding 1.
   */
  lemma BuildIndexIs(p: Puzzle, m: map<int, Loc>)
    requires ValidPuzzle(p)
    requires forall n :: n in m ==> Valid(Rows(p), Cols(p), m[n]) && Value(p, m[n]) == n && n != Blank
    requires forall l :: Valid(Rows(p), Cols(p), l) && Value(p, l) != Blank ==> Value(p, l) in m
    ensures Build(p).index == m
    ensures 1 in m && Build(p).root == m[1]
  {
    BuildIndexesEveryGivenCell(p);
    var h := Build(p);
    forall n | n in m
      ensures n in h.index && h.index[n] == m[n]
    {
      assert h.grid[m[n]].num == n;
    }
    forall n | n in h.index
      ensures n in m
    {
      assert Value(p, h.index[n]) == n;
    }
    IndexesEqual(h.index, m);
    assert Value(p, h.root) == 1;
  }

  lemma IndexesEqual(a: map<int, Loc>, b: map<int, Loc>)
    requires forall n :: n in a <==> n in b
    requires forall n :: n in a ==> a[n] == b[n]
    ensures a == b
  {
    // Restating both requires as assertions lets the verifier apply map extensionality.
    assert forall n :: n in a <==> n in b;
    assert forall n :: n in a ==> a[n] == b[n];
  }

  /** A valid puzzle builds a board the search may start from. */
  lemma BuildInitial(p: Puzzle)
    requires ValidPuzzle(p)
    ensures Initial(Build(p))
  {
    BuildShaped(p);
    BuildIndexConsistent(p);
  }

  /**
   Descend's placement: sets the cell's number to n and enters the cell in the
   index under n. On a consistent board, placing a new number in a blank
   unfixed cell keeps the index consistent, and nothing else changes.
   */
  function Assign(h: Hedgehog, l: Loc, n: int): (r: Hedgehog)
    requires l in h.grid
    ensures r.rows == h.rows && r.cols == h.cols && r.root == h.root && r.grid.Keys == h.grid.Keys
    ensures r.grid[l] == Block(n, h.grid[l].fixed)
    ensures forall x :: x in h.grid && x != l ==> r.grid[x] == h.grid[x]
    ensures Shaped(h) ==> Shaped(r)
    ensures IndexConsistent(h) && h.grid[l].num == Blank && n != Blank && n !in h.index
      ==> IndexConsistent(r) && r.index.Keys == h.index.Keys + {n}
  {
    h.(grid := h.grid[l := h.grid[l].(num := n)], index := h.index[n := l])
  }

  /**
   Backtrack's removal: takes the cell's number out of the index and blanks
   the cell. On a consistent board it keeps the index consistent and drops
   exactly the cell's number.
   */
  function Unassign(h: Hedgehog, l: Loc): (r: Hedgehog)
    requires l in h.grid
    ensures r.rows == h.rows && r.cols == h.cols && r.root == h.root && r.grid.Keys == h.grid.Keys
    ensures r.grid[l] == Block(Blank, h.grid[l].fixed)
    ensures forall x :: x in h.grid && x != l ==> r.grid[x] == h.grid[x]
    ensures Shaped(h) ==> Shaped(r)
    ensures IndexConsistent(h) ==> IndexConsistent(r) && r.index.Keys == h.index.Keys - {h.grid[l].num}
  {
    h.(grid := h.grid[l := h.grid[l].(num := Blank)], index := h.index - {h.grid[l].num})
  }

  /** Backtracking a placement restores the board exactly. */
  lemma UnassignUndoesAssign(h: Hedgehog, l: Loc, n: int)
    requires IndexConsistent(h)
    requires l in h.grid && h.grid[l].num == Blank
    requires n != Blank && n !in h.index
    ensures Unassign(Assign(h, l, n), l) == h
  {
    var r := Unassign(Assign(h, l, n), l);
    assert r.grid == h.grid;
    assert r.index == h.index;
  }

  /** Placing the removed number again restores the board exactly. */
  lemma AssignRedoesUnassign(h: Hedgehog, l: Loc)
    requires IndexConsistent(h)
    requires l in h.grid && h.grid[l].num != Blank
    ensures Assign(Unassign(h, l), l, h.grid[l].num) == h
  {
    var r := Assign(Unassign(h, l), l, h.grid[l].num);
    assert r.grid == h.grid;
    assert r.index == h.index;
  }

  /** Placing a new number 1..N in a blank unfixed cell other than the root keeps the board well formed. */
  lemma AssignWellFormed(h: Hedgehog, l: Loc, n: int)
    requires WellFormed(h)
    requires l in h.grid && !h.grid[l].fixed && h.grid[l].num == Blank
    requires 1 <= n <= Total(h) && n !in h.index
    ensures WellFormed(Assign(h, l, n))
  {
    assert l != h.root;
  }

  /** Clearing an unfixed cell keeps the board well formed. */
  lemma UnassignWellFormed(h: Hedgehog, l: Loc)
    requires WellFormed(h)
    requires l in h.grid && !h.grid[l].fixed
    ensures WellFormed(Unassign(h, l))
  {
    assert l != h.root;
  }

  /** The numbers 1..n. */
  function UpTo(n: nat): (s: set<int>)
    ensures |s| == n
    ensures forall i :: i in s <==> 1 <= i <= n
  {
    if n == 0 then {} else UpTo(n - 1) + {n}
  }

  /**
   On a well-formed board an index with N entries holds every number 1..N, so
   in particular N: the lookup of the solved check always finds a cell.
   */
  lemma FullIndexHasLast(h: Hedgehog)
    requires WellFormed(h)
    requires |h.index| == Total(h)
    ensures Total(h) in h.index
  {
    var n := Total(h);
    if n !in h.index {
      forall k | k in h.index
        ensures k in UpTo(n - 1)
      {
        var l := h.index[k];
        assert l in h.grid && h.grid[l].num == k;
      }
      SubsetCard(h.index.Keys, UpTo(n - 1));
    }
  }

  /** Every cell of the board holds a number. */
  ghost predicate AllNumbered(h: Hedgehog) {
    forall l :: l in h.grid ==> h.grid[l].num != Blank
  }

  /** A shaped board has exactly N cells. */
  lemma GridCard(h: Hedgehog)
    requires Shaped(h)
    ensures |h.grid.Keys| == Total(h)
  {
    var all := AllLocs(h.rows, h.cols);
    IncreasingIsDistinct(all);
    DistinctCard(all);
    assert (set x | x in all) == h.grid.Keys;
  }

  /** The cells a number-to-cell map gives to the numbers of s. */
  function Image(s: set<int>, m: map<int, Loc>): set<Loc>
    requires s <= m.Keys
  {
    set x | x in s :: m[x]
  }

  /** A map that is one-to-one on s sends s to a set of the same size. */
  lemma {:induction false} ImageCard(s: set<int>, m: map<int, Loc>)
    requires s <= m.Keys
    requires forall x, y :: x in s && y in s && m[x] == m[y] ==> x == y
    ensures |Image(s, m)| == |s|
    decreases |s|
  {
    if forall x :: x !in s {
      assert s == {};
      assert Image(s, m) == {};
    } else {
      var x :| x in s;
      var rest := s - {x};
      ImageCard(rest, m);
      assert Image(s, m) == Image(rest, m) + {m[x]};
      assert m[x] !in Image(rest, m);
    }
  }

  /** A consistent index has one entry per numbered cell. */
  lemma IndexCard(h: Hedgehog)
    requires WellFormed(h)
    ensures |h.index| == |set l | l in h.grid && h.grid[l].num != Blank|
  {
    var keys := h.index.Keys;
    forall x, y | x in keys && y in keys && h.index[x] == h.index[y]
      ensures x == y
    {
      assert h.grid[h.index[x]].num == x && h.grid[h.index[y]].num == y;
    }
    ImageCard(keys, h.index);
    var numbered := set l | l in h.grid && h.grid[l].num != Blank;
    forall l | l in numbered
      ensures l in Image(keys, h.index)
    {
      assert h.grid[l].num in keys && h.index[h.grid[l].num] == l;
    }
    assert numbered == Image(keys, h.index);
  }

  /**
   The first half of the solved check, in terms of the cells: on a
   well-formed board the index holds N numbers exactly when every cell holds
   a number.
   */
  lemma FullIndexIffAllNumbered(h: Hedgehog)
    requires WellFormed(h)
    ensures |h.index| == Total(h) <==> AllNumbered(h)
  {
    var numbered := set l | l in h.grid && h.grid[l].num != Blank;
    IndexCard(h);
    GridCard(h);
    SubsetCard(numbered, h.grid.Keys);
    if AllNumbered(h) {
      assert numbered == h.grid.Keys;
    }
  }
}
