/**
 The candidate generator: the cells that may receive the number after the
 one a given cell holds. If that next number is already on the board the
 continuation is forced; otherwise the candidates are the blank cells that
 line up with the cell in the chunks its chunk is linked to.
 */
module Candidates {
  import opened Location
  import opened Topology
  import opened Board

  /**
   The cells of the entry's chunk that line up with b, in the order the
   generator scans them: b's row by ascending column for a ROW link, b's
   column by ascending row for a COL link.
   */
  function Line(h: Hedgehog, b: Loc, e: Adjacency): (s: seq<Loc>)
    requires Valid(h.rows, h.cols, b)
    ensures |s| == (if e.alignment == Row then h.cols else h.rows)
    ensures forall x :: x in s <==>
      x.chunk == e.chunk && Aligned(e.alignment, b, x) && 0 <= x.row < h.rows && 0 <= x.col < h.cols
  {
    match e.alignment
    case Row =>
      var s := seq(h.cols, i => Loc(e.chunk, b.row, i));
      assert forall x: Loc :: x.chunk == e.chunk && x.row == b.row && 0 <= x.col < h.cols ==> s[x.col] == x;
      s
    case Col =>
      var s := seq(h.rows, i => Loc(e.chunk, i, b.col));
      assert forall x: Loc :: x.chunk == e.chunk && x.col == b.col && 0 <= x.row < h.rows ==> s[x.row] == x;
      s
  }

  /** The blank cells of a line, in line order: cells that already hold a number are skipped. */
  function Blanks(h: Hedgehog, line: seq<Loc>): (r: seq<Loc>)
    requires forall x :: x in line ==> x in h.grid
    ensures forall x :: x in r <==> x in line && h.grid[x].num == Blank
    ensures |r| <= |line|
  {
    if line == [] then []
    else
      var rest := Blanks(h, line[1..]);
      assert forall x :: x in line <==> x == line[0] || x in line[1..];
      if h.grid[line[0]].num == Blank then [line[0]] + rest else rest
  }

  /**
   The free continuation: the blank cells of every linked line, entry after
   entry. A cell is listed iff it is blank and some entry targets its chunk
   with a matching row or column.
   */
  function FreeCandidates(h: Hedgehog, b: Loc, es: seq<Adjacency>): (r: seq<Loc>)
    requires Shaped(h) && Valid(h.rows, h.cols, b)
    requires forall e :: e in es ==> 0 <= e.chunk < Chunks
    ensures forall x :: x in r <==>
      && x in h.grid
      && h.grid[x].num == Blank
      && exists i :: 0 <= i < |es| && es[i].chunk == x.chunk && Aligned(es[i].alignment, b, x)
  {
    if es == [] then []
    else
      var line := Line(h, b, es[0]);
      var rest := FreeCandidates(h, b, es[1..]);
      assert forall i :: 1 <= i < |es| ==> es[i] == es[1..][i - 1];
      assert forall i :: 0 <= i < |es| - 1 ==> es[1..][i] == es[i + 1];
      Blanks(h, line) + rest
  }

  /**
   The position of an adjacent cell in the generator's order: first the
   row-linked chunk by ascending column, then the column-linked chunk by
   ascending row.
   */
  function ScanKey(h: Hedgehog, b: Loc, x: Loc): int {
    if x.chunk == RowPartner(b.chunk) then x.col else h.cols + x.row
  }

  ghost predicate ScanOrdered(h: Hedgehog, b: Loc, s: seq<Loc>) {
    forall i, j :: 0 <= i < j < |s| ==> ScanKey(h, b, s[i]) < ScanKey(h, b, s[j])
  }

  lemma {:induction false} BlanksOrdered(h: Hedgehog, b: Loc, line: seq<Loc>)
    requires forall x :: x in line ==> x in h.grid
    requires ScanOrdered(h, b, line)
    ensures ScanOrdered(h, b, Blanks(h, line))
  {
    if line != [] {
      var rest := Blanks(h, line[1..]);
      assert ScanOrdered(h, b, line[1..]);
      BlanksOrdered(h, b, line[1..]);
      forall x | x in rest
        ensures ScanKey(h, b, line[0]) < ScanKey(h, b, x)
      {
        var j :| 0 <= j < |line[1..]| && line[1..][j] == x;
        assert line[j + 1] == x;
      }
    }
  }

  /** With the two-entry table the free continuation is the blank row line followed by the blank column line. */
  lemma FreeCandidatesUnfold(h: Hedgehog, b: Loc)
    requires Shaped(h) && Valid(h.rows, h.cols, b)
    ensures var es := AdjacencyMap(b.chunk);
      FreeCandidates(h, b, es) == Blanks(h, Line(h, b, es[0])) + Blanks(h, Line(h, b, es[1]))
  {
    var es := AdjacencyMap(b.chunk);
    assert es[1..] == [es[1]];
    assert es[1..][1..] == [];
    assert FreeCandidates(h, b, es[1..][1..]) == [];
  }

  lemma LineOrdered(h: Hedgehog, b: Loc, e: Adjacency)
    requires Shaped(h) && Valid(h.rows, h.cols, b)
    requires e.alignment == Row <==> e.chunk == RowPartner(b.chunk)
    ensures var line := Line(h, b, e);
      forall i :: 0 <= i < |line| ==> ScanKey(h, b, line[i]) == (if e.alignment == Row then i else h.cols + i)
    ensures ScanOrdered(h, b, Line(h, b, e))
  {
    var line := Line(h, b, e);
    forall i | 0 <= i < |line|
      ensures ScanKey(h, b, line[i]) == (if e.alignment == Row then i else h.cols + i)
    {
      assert line[i] in line;
    }
  }

  /** Two ordered runs whose keys are separated by a bound concatenate to an ordered run. */
  lemma ConcatOrdered(h: Hedgehog, b: Loc, s: seq<Loc>, t: seq<Loc>, bound: int)
    requires ScanOrdered(h, b, s) && ScanOrdered(h, b, t)
    requires forall x :: x in s ==> ScanKey(h, b, x) < bound
    requires forall x :: x in t ==> bound <= ScanKey(h, b, x)
    ensures ScanOrdered(h, b, s + t)
  {
    forall i, j | 0 <= i < j < |s + t|
      ensures ScanKey(h, b, (s + t)[i]) < ScanKey(h, b, (s + t)[j])
    {
      if j < |s| {
      } else if i < |s| {
        assert (s + t)[i] in s;
        assert (s + t)[j] in t;
      } else {
        assert (s + t)[i] == t[i - |s|];
        assert (s + t)[j] == t[j - |s|];
      }
    }
  }

  /**
   The blank cells of the row-linked line are in strictly increasing scan
   position, and all of them come before every column-linked cell.
   */
  lemma RowRun(h: Hedgehog, b: Loc)
    requires Shaped(h) && Valid(h.rows, h.cols, b)
    ensures var row := Blanks(h, Line(h, b, AdjacencyMap(b.chunk)[0]));
      && ScanOrdered(h, b, row)
      && forall x :: x in row ==> ScanKey(h, b, x) < h.cols
  {
    var e := AdjacencyMap(b.chunk)[0];
    var line := Line(h, b, e);
    LineOrdered(h, b, e);
    BlanksOrdered(h, b, line);
    forall x | x in Blanks(h, line)
      ensures ScanKey(h, b, x) < h.cols
    {
      assert x in line;
    }
  }

  /**
   The blank cells of the column-linked line are in strictly increasing scan
   position, and all of them come after every row-linked cell.
   */
  lemma ColRun(h: Hedgehog, b: Loc)
    requires Shaped(h) && Valid(h.rows, h.cols, b)
    ensures var col := Blanks(h, Line(h, b, AdjacencyMap(b.chunk)[1]));
      && ScanOrdered(h, b, col)
      && forall x :: x in col ==> h.cols <= ScanKey(h, b, x)
  {
    var e := AdjacencyMap(b.chunk)[1];
    var line := Line(h, b, e);
    LineOrdered(h, b, e);
    BlanksOrdered(h, b, line);
    forall x | x in Blanks(h, line)
      ensures h.cols <= ScanKey(h, b, x)
    {
      assert x in line && x.chunk == e.chunk;
    }
  }

  /** The free continuation has at most one cell per cell of the two scanned lines. */
  lemma FreeCandidatesBound(h: Hedgehog, b: Loc)
    requires Shaped(h) && Valid(h.rows, h.cols, b)
    ensures |FreeCandidates(h, b, AdjacencyMap(b.chunk))| <= h.rows + h.cols
  {
    FreeCandidatesUnfold(h, b);
  }

  /** The free continuation lists its cells in strictly increasing scan position. */
  lemma FreeCandidatesOrdered(h: Hedgehog, b: Loc)
    requires Shaped(h) && Valid(h.rows, h.cols, b)
    ensures ScanOrdered(h, b, FreeCandidates(h, b, AdjacencyMap(b.chunk)))
  {
    var es := AdjacencyMap(b.chunk);
    var row := Blanks(h, Line(h, b, es[0]));
    var col := Blanks(h, Line(h, b, es[1]));
    assert FreeCandidates(h, b, es) == row + col by { FreeCandidatesUnfold(h, b); }
    assert ScanOrdered(h, b, row) && forall x :: x in row ==> ScanKey(h, b, x) < h.cols by { RowRun(h, b); }
    assert ScanOrdered(h, b, col) && forall x :: x in col ==> h.cols <= ScanKey(h, b, x) by { ColRun(h, b); }
    ConcatOrdered(h, b, row, col, h.cols);
  }

  /**
   The free case in list order: the blank cells of b's row in the row-linked
   chunk by ascending column, then the blank cells of b's column in the
   column-linked chunk by ascending row.
   */
  lemma PossibilitiesFree(h: Hedgehog, b: Loc)
    requires Shaped(h) && b in h.grid && h.grid[b].num + 1 !in h.index
    ensures Possibilities(h, b) ==
      Blanks(h, Line(h, b, Adjacency(RowPartner(b.chunk), Row))) + Blanks(h, Line(h, b, Adjacency(ColPartner(b.chunk), Col)))
  {
    FreeCandidatesUnfold(h, b);
  }

  /** The one-element run of a cell if it is blank. */
  function KeepBlank(h: Hedgehog, x: Loc): seq<Loc>
    requires x in h.grid
  {
    if h.grid[x].num == Blank then [x] else []
  }

  lemma BlanksPair(h: Hedgehog, x: Loc, y: Loc)
    requires x in h.grid && y in h.grid
    ensures Blanks(h, [x, y]) == KeepBlank(h, x) + KeepBlank(h, y)
  {
    assert [x, y][1..] == [y];
    assert [y][1..] == [];
  }

  lemma BlanksSingle(h: Hedgehog, x: Loc)
    requires x in h.grid
    ensures Blanks(h, [x]) == KeepBlank(h, x)
  {
    assert [x][1..] == [];
  }

  /** On chunks of one row and two columns a row line has two cells and a column line one. */
  lemma LinesOneByTwo(h: Hedgehog, b: Loc)
    requires h.rows == 1 && h.cols == 2 && Valid(h.rows, h.cols, b)
    ensures Line(h, b, Adjacency(RowPartner(b.chunk), Row)) == [Loc(RowPartner(b.chunk), 0, 0), Loc(RowPartner(b.chunk), 0, 1)]
    ensures Line(h, b, Adjacency(ColPartner(b.chunk), Col)) == [Loc(ColPartner(b.chunk), 0, b.col)]
  {
  }

  /**
   On chunks of one row and two columns the free case checks exactly three
   cells: both cells of the row-linked chunk, then the cell of b's column in
   the column-linked chunk.
   */
  lemma PossibilitiesOneByTwo(h: Hedgehog, b: Loc)
    requires Shaped(h) && h.rows == 1 && h.cols == 2
    requires b in h.grid && h.grid[b].num + 1 !in h.index
    ensures Loc(RowPartner(b.chunk), 0, 0) in h.grid && Loc(RowPartner(b.chunk), 0, 1) in h.grid
    ensures Loc(ColPartner(b.chunk), 0, b.col) in h.grid
    ensures Possibilities(h, b) ==
      KeepBlank(h, Loc(RowPartner(b.chunk), 0, 0)) + KeepBlank(h, Loc(RowPartner(b.chunk), 0, 1))
        + KeepBlank(h, Loc(ColPartner(b.chunk), 0, b.col))
  {
    var r0 := Loc(RowPartner(b.chunk), 0, 0);
    var r1 := Loc(RowPartner(b.chunk), 0, 1);
    var c0 := Loc(ColPartner(b.chunk), 0, b.col);
    assert Valid(h.rows, h.cols, r0) && Valid(h.rows, h.cols, r1) && Valid(h.rows, h.cols, c0);
    LinesOneByTwo(h, b);
    BlanksPair(h, r0, r1);
    BlanksSingle(h, c0);
    PossibilitiesFree(h, b);
  }

  /**
   The candidate list of `possibilities`. If the number after b's is already
   placed, the only candidate is that cell when it is adjacent to b and there
   is none when it is not. Otherwise the candidates are exactly the blank cells adjacent to b,
   each once, in scan order. Every candidate is adjacent to b.
   */
  function Possibilities(h: Hedgehog, b: Loc): (r: seq<Loc>)
    requires Shaped(h) && b in h.grid
    ensures forall x :: x in r ==> x in h.grid && Adjacent(b, x)
    ensures |r| <= h.rows + h.cols
    ensures Distinct(r)
    ensures h.grid[b].num + 1 in h.index ==>
      var next := h.index[h.grid[b].num + 1];
      (Adjacent(b, next) ==> r == [next]) && (!Adjacent(b, next) ==> r == [])
    ensures h.grid[b].num + 1 !in h.index ==>
      && (forall x :: x in r <==> x in h.grid && h.grid[x].num == Blank && Adjacent(b, x))
      && ScanOrdered(h, b, r)
  {
    var k := h.grid[b].num + 1;
    if k in h.index then
      if Adjacent(b, h.index[k]) then [h.index[k]] else []
    else
      FreeCandidatesOrdered(h, b);
      FreeCandidatesBound(h, b);
      var r := FreeCandidates(h, b, AdjacencyMap(b.chunk));
      assert Distinct(r) by {
        forall i, j | 0 <= i < j < |r|
          ensures r[i] != r[j]
        {
          assert ScanKey(h, b, r[i]) < ScanKey(h, b, r[j]);
        }
      }
      r
  }
}
