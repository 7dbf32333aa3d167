/**
 The chunk topology of the four-chunk puzzle. Every chunk lists, in a fixed
 order, the chunks it is linked to and how: a ROW link makes two cells
 adjacent when they share a row, a COL link when they share a column.
 Chunks 0 and 1, and 2 and 3, are linked by row; chunks 0 and 2, and 1 and 3,
 by column.
 */
module Topology {
  import opened Location

  datatype Alignment = Row | Col

  /** One entry of a chunk's adjacency list. */
  datatype Adjacency = Adjacency(chunk: int, alignment: Alignment)

  /** The chunk a chunk is linked to by row. */
  function RowPartner(chunk: int): int {
    if chunk % 2 == 0 then chunk + 1 else chunk - 1
  }

  /** The chunk a chunk is linked to by column. */
  function ColPartner(chunk: int): int {
    (chunk + 2) % Chunks
  }

  /**
   The hard-coded adjacency table: each chunk has its ROW link first and its
   COL link second, both to other chunks, and the two links go to different
   chunks.
   */
  function AdjacencyMap(chunk: int): (r: seq<Adjacency>)
    requires 0 <= chunk < Chunks
    ensures r == [Adjacency(RowPartner(chunk), Row), Adjacency(ColPartner(chunk), Col)]
    ensures forall e :: e in r ==> 0 <= e.chunk < Chunks && e.chunk != chunk
    ensures r[0].chunk != r[1].chunk
  {
    if chunk == 0 then [Adjacency(1, Row), Adjacency(2, Col)]
    else if chunk == 1 then [Adjacency(0, Row), Adjacency(3, Col)]
    else if chunk == 2 then [Adjacency(3, Row), Adjacency(0, Col)]
    else [Adjacency(2, Row), Adjacency(1, Col)]
  }

  /** The table is symmetric: a chunk's partner lists it back with the same alignment. */
  lemma AdjacencyMapSymmetric(chunk: int, e: Adjacency)
    requires 0 <= chunk < Chunks
    requires e in AdjacencyMap(chunk)
    ensures 0 <= e.chunk < Chunks
    ensures Adjacency(chunk, e.alignment) in AdjacencyMap(e.chunk)
  {
  }

  /** Whether two cells line up under an alignment kind. */
  predicate Aligned(alignment: Alignment, a: Loc, b: Loc) {
    match alignment
    case Row => a.row == b.row
    case Col => a.col == b.col
  }

  /**
   The loop of `adjacent`: or-accumulate, over the entries in list order,
   whether the entry targets b's chunk and the cells line up.
   */
  function Linked(entries: seq<Adjacency>, a: Loc, b: Loc): (r: bool)
    ensures r <==> exists i :: 0 <= i < |entries| && entries[i].chunk == b.chunk && Aligned(entries[i].alignment, a, b)
  {
    if entries == [] then false
    else
      var front := entries[..|entries| - 1];
      var e := entries[|entries| - 1];
      assert forall i :: 0 <= i < |front| ==> front[i] == entries[i];
      Linked(front, a, b) || (e.chunk == b.chunk && Aligned(e.alignment, a, b))
  }

  /**
   Whether b may hold the number after a's: the table loop, which amounts to
   b lying in a's row partner on a's row, or in a's column partner in a's column.
   */
  function Adjacent(a: Loc, b: Loc): (r: bool)
    requires 0 <= a.chunk < Chunks
    ensures r <==>
      (b.chunk == RowPartner(a.chunk) && a.row == b.row) || (b.chunk == ColPartner(a.chunk) && a.col == b.col)
  {
    TableLinked(a, b);
    Linked(AdjacencyMap(a.chunk), a, b)
  }

  /** The loop over a's two table entries finds b exactly in the closed-form cases. */
  lemma TableLinked(a: Loc, b: Loc)
    requires 0 <= a.chunk < Chunks
    ensures Linked(AdjacencyMap(a.chunk), a, b) <==>
      (b.chunk == RowPartner(a.chunk) && a.row == b.row) || (b.chunk == ColPartner(a.chunk) && a.col == b.col)
  {
    var es := AdjacencyMap(a.chunk);
    if (b.chunk == RowPartner(a.chunk) && a.row == b.row) {
      assert es[0].chunk == b.chunk && Aligned(es[0].alignment, a, b);
    } else if (b.chunk == ColPartner(a.chunk) && a.col == b.col) {
      assert es[1].chunk == b.chunk && Aligned(es[1].alignment, a, b);
    }
  }

  lemma AdjacentSymmetric(a: Loc, b: Loc)
    requires 0 <= a.chunk < Chunks && 0 <= b.chunk < Chunks
    ensures Adjacent(a, b) <==> Adjacent(b, a)
  {
  }

  /** No chunk links to itself, so cells of one chunk are never adjacent. */
  lemma SameChunkNotAdjacent(a: Loc, b: Loc)
    requires 0 <= a.chunk < Chunks
    requires a.chunk == b.chunk
    ensures !Adjacent(a, b)
  {
  }
}
