/**
 A puzzle on which the solved check as written accepts a broken chain.

 The puzzle has four chunks of one row and two columns; chunk 0 gives 1 in
 its first cell and chunk 1 gives 8 in its first cell, everything else is
 blank. Naming the cells a0 a1 (chunk 0), b0 b1 (chunk 1), c0 c1 (chunk 2)
 and d0 d1 (chunk 3), the search always takes the first candidate and
 places 2..7 on b1, a1, c1, d0, c0, d1. The only cell that may follow d1 is
 b0, which holds the given 8, but d1 and b0 are not adjacent (chunk 3 is
 linked to chunk 1 by column and their columns differ), so d1 has no
 candidate. At that point the index holds 8 numbers and the root a0 is
 adjacent to b0, so the check as written reports a solution although the
 stack is seven frames deep and 7 -> 8 is not a step of the chain.
 */
module Counterexample {
  import opened Location
  import opened Topology
  import opened Board
  import opened Candidates
  import opened Search

  const A0 := Loc(0, 0, 0)
  const A1 := Loc(0, 0, 1)
  const B0 := Loc(1, 0, 0)
  const B1 := Loc(1, 0, 1)
  const C0 := Loc(2, 0, 0)
  const C1 := Loc(2, 0, 1)
  const D0 := Loc(3, 0, 0)
  const D1 := Loc(3, 0, 1)

  /** The input puzzle, chunk by chunk. */
  function Given(): Puzzle {
    [[[1, Blank]], [[8, Blank]], [[Blank, Blank]], [[Blank, Blank]]]
  }

  /** A board of this puzzle: a0 holds the given 1 and b0 the given 8, the other cells the numbers passed. */
  function Stage(a1: int, b1: int, c0: int, c1: int, d0: int, d1: int, index: map<int, Loc>): Hedgehog {
    Hedgehog(1, 2,
      map[A0 := Block(1, true), A1 := Block(a1, false),
          B0 := Block(8, true), B1 := Block(b1, false),
          C0 := Block(c0, false), C1 := Block(c1, false),
          D0 := Block(d0, false), D1 := Block(d1, false)],
      index,
      A0)
  }

  lemma StageShaped(a1: int, b1: int, c0: int, c1: int, d0: int, d1: int, index: map<int, Loc>)
    requires forall n :: n in index ==> Valid(1, 2, index[n])
    ensures Shaped(Stage(a1, b1, c0, c1, d0, d1, index))
  {
    var h := Stage(a1, b1, c0, c1, d0, d1, index);
    forall l | Valid(1, 2, l)
      ensures l in h.grid
    {
      assert l.row == 0;
    }
  }

  /** The board the constructor builds, and the boards after placing 2..7. */
  function H1(): Hedgehog { Stage(Blank, Blank, Blank, Blank, Blank, Blank, map[1 := A0, 8 := B0]) }
  function H2(): Hedgehog { Stage(Blank, 2, Blank, Blank, Blank, Blank, map[1 := A0, 8 := B0, 2 := B1]) }
  function H3(): Hedgehog { Stage(3, 2, Blank, Blank, Blank, Blank, map[1 := A0, 8 := B0, 2 := B1, 3 := A1]) }
  function H4(): Hedgehog { Stage(3, 2, Blank, 4, Blank, Blank, map[1 := A0, 8 := B0, 2 := B1, 3 := A1, 4 := C1]) }
  function H5(): Hedgehog {
    Stage(3, 2, Blank, 4, 5, Blank, map[1 := A0, 8 := B0, 2 := B1, 3 := A1, 4 := C1, 5 := D0])
  }
  function H6(): Hedgehog {
    Stage(3, 2, 6, 4, 5, Blank, map[1 := A0, 8 := B0, 2 := B1, 3 := A1, 4 := C1, 5 := D0, 6 := C0])
  }
  function H7(): Hedgehog {
    Stage(3, 2, 6, 4, 5, 7, map[1 := A0, 8 := B0, 2 := B1, 3 := A1, 4 := C1, 5 := D0, 6 := C0, 7 := D1])
  }

  lemma GivenValid()
    ensures ValidPuzzle(Given())
  {
    var p := Given();
    assert p[0][0][0] == 1;
  }

  /** The cells of a one-row, two-column puzzle whose only givens are 1 on a0 and 8 on b0. */
  predicate GivenShape(p: Puzzle)
    requires Rectangular(p)
  {
    && Rows(p) == 1 && Cols(p) == 2
    && p[0][0][0] == 1 && p[1][0][0] == 8
    && p[0][0][1] == Blank && p[1][0][1] == Blank
    && p[2][0][0] == Blank && p[2][0][1] == Blank
    && p[3][0][0] == Blank && p[3][0][1] == Blank
  }

  lemma GivenHasShape()
    ensures Rectangular(Given()) && GivenShape(Given())
  {
  }

  lemma BuildGrid(p: Puzzle)
    requires Rectangular(p) && HasRoot(p) && GivenShape(p)
    ensures Build(p).grid == H1().grid
  {
    var g := H1().grid;
    forall l
      ensures l in g <==> Valid(Rows(p), Cols(p), l)
    {
      if Valid(1, 2, l) {
        assert l.row == 0;
      }
    }
    forall l | l in g
      ensures g[l] == Block(Value(p, l), Value(p, l) != Blank)
    {
      assert Value(p, l) == p[l.chunk][0][l.col];
    }
    BuildGridIs(p, g);
  }

  lemma BuildIndex(p: Puzzle)
    requires ValidPuzzle(p) && GivenShape(p)
    ensures Build(p).index == H1().index
    ensures Build(p).root == A0
  {
    var m := H1().index;
    forall l | Valid(Rows(p), Cols(p), l) && Value(p, l) != Blank
      ensures Value(p, l) in m
    {
      assert l.row == 0;
    }
    BuildIndexIs(p, m);
  }

  /** The constructor builds exactly the first board, and the search may start from it. */
  lemma BuildGiven()
    ensures ValidPuzzle(Given())
    ensures Build(Given()) == H1()
    ensures Initial(H1())
  {
    GivenValid();
    GivenHasShape();
    BuildGrid(Given());
    BuildIndex(Given());
    BuildInitial(Given());
  }

  /**
   The stack after one descent to c: the top frame has used one more
   candidate and a frame for c with candidates q is pushed.
   */
  function Advance(stack: seq<Frame>, c: Loc, q: seq<Loc>): (r: seq<Frame>)
    requires |stack| > 0
    ensures |r| == |stack| + 1 && Top(r) == Frame(c, q, 0)
  {
    stack[..|stack| - 1] + [Top(stack).(next := Top(stack).next + 1), Frame(c, q, 0)]
  }

  /** The frames of the search after each descent. */
  function S1(): seq<Frame> { [Frame(A0, [B1, C0], 0)] }
  function S2(): seq<Frame> { Advance(S1(), B1, [A1, D1]) }
  function S3(): seq<Frame> { Advance(S2(), A1, [C1]) }
  function S4(): seq<Frame> { Advance(S3(), C1, [D0, D1]) }
  function S5(): seq<Frame> { Advance(S4(), D0, [C0]) }
  function S6(): seq<Frame> { Advance(S5(), C0, [D1]) }
  function S7(): seq<Frame> { Advance(S6(), D1, []) }

  lemma Candidates1()
    ensures Shaped(H1())
    ensures Possibilities(H1(), A0) == [B1, C0]
  {
    StageShaped(Blank, Blank, Blank, Blank, Blank, Blank, H1().index);
    assert RowPartner(0) == 1 && ColPartner(0) == 2;
    Scan1();
    PossibilitiesOneByTwo(H1(), A0);
  }

  lemma Scan1()
    ensures KeepBlank(H1(), B0) + KeepBlank(H1(), B1) + KeepBlank(H1(), C0) == [B1, C0]
  {
    assert KeepBlank(H1(), B0) == [];
    assert KeepBlank(H1(), B1) == [B1];
    assert KeepBlank(H1(), C0) == [C0];
  }

  lemma Candidates2()
    ensures Shaped(H2())
    ensures Possibilities(H2(), B1) == [A1, D1]
  {
    StageShaped(Blank, 2, Blank, Blank, Blank, Blank, H2().index);
    assert RowPartner(1) == 0 && ColPartner(1) == 3;
    Scan2();
    PossibilitiesOneByTwo(H2(), B1);
  }

  lemma Scan2()
    ensures KeepBlank(H2(), A0) + KeepBlank(H2(), A1) + KeepBlank(H2(), D1) == [A1, D1]
  {
    assert KeepBlank(H2(), A0) == [];
    assert KeepBlank(H2(), A1) == [A1];
    assert KeepBlank(H2(), D1) == [D1];
  }

  lemma Candidates3()
    ensures Shaped(H3())
    ensures Possibilities(H3(), A1) == [C1]
  {
    StageShaped(3, 2, Blank, Blank, Blank, Blank, H3().index);
    assert RowPartner(0) == 1 && ColPartner(0) == 2;
    Scan3();
    PossibilitiesOneByTwo(H3(), A1);
  }

  lemma Scan3()
    ensures KeepBlank(H3(), B0) + KeepBlank(H3(), B1) + KeepBlank(H3(), C1) == [C1]
  {
    assert KeepBlank(H3(), B0) == [];
    assert KeepBlank(H3(), B1) == [];
    assert KeepBlank(H3(), C1) == [C1];
  }

  lemma Candidates4()
    ensures Shaped(H4())
    ensures Possibilities(H4(), C1) == [D0, D1]
  {
    StageShaped(3, 2, Blank, 4, Blank, Blank, H4().index);
    assert RowPartner(2) == 3 && ColPartner(2) == 0;
    Scan4();
    PossibilitiesOneByTwo(H4(), C1);
  }

  lemma Scan4()
    ensures KeepBlank(H4(), D0) + KeepBlank(H4(), D1) + KeepBlank(H4(), A1) == [D0, D1]
  {
    assert KeepBlank(H4(), D0) == [D0];
    assert KeepBlank(H4(), D1) == [D1];
    assert KeepBlank(H4(), A1) == [];
  }

  lemma Candidates5()
    ensures Shaped(H5())
    ensures Possibilities(H5(), D0) == [C0]
  {
    StageShaped(3, 2, Blank, 4, 5, Blank, H5().index);
    assert RowPartner(3) == 2 && ColPartner(3) == 1;
    Scan5();
    PossibilitiesOneByTwo(H5(), D0);
  }

  lemma Scan5()
    ensures KeepBlank(H5(), C0) + KeepBlank(H5(), C1) + KeepBlank(H5(), B0) == [C0]
  {
    assert KeepBlank(H5(), C0) == [C0];
    assert KeepBlank(H5(), C1) == [];
    assert KeepBlank(H5(), B0) == [];
  }

  lemma Candidates6()
    ensures Shaped(H6())
    ensures Possibilities(H6(), C0) == [D1]
  {
    StageShaped(3, 2, 6, 4, 5, Blank, H6().index);
    assert RowPartner(2) == 3 && ColPartner(2) == 0;
    Scan6();
    PossibilitiesOneByTwo(H6(), C0);
  }

  lemma Scan6()
    ensures KeepBlank(H6(), D0) + KeepBlank(H6(), D1) + KeepBlank(H6(), A0) == [D1]
  {
    assert KeepBlank(H6(), D0) == [];
    assert KeepBlank(H6(), D1) == [D1];
    assert KeepBlank(H6(), A0) == [];
  }

  /** d1 holds 7 and 8 is already placed on b0, which is not adjacent to d1: no candidate. */
  lemma Candidates7()
    ensures Shaped(H7())
    ensures Possibilities(H7(), D1) == []
  {
    StageShaped(3, 2, 6, 4, 5, 7, H7().index);
  }

  /** One step of the inner loop: the top frame has a candidate left and descending to it gives (h', s'). */
  ghost predicate Descends(h: Hedgehog, s: seq<Frame>, h': Hedgehog, s': seq<Frame>) {
    Shaped(h) && HasNext(s) && NextCandidate(s) in h.grid && Descend(h, s) == (h', s')
  }

  lemma AppendTwo<T>(a: seq<T>, x: T, y: T)
    ensures a + [x] + [y] == a + [x, y]
  {
  }

  /** A descent whose placement and new candidate list are known. */
  lemma DescendTo(h: Hedgehog, stack: seq<Frame>, h': Hedgehog, c: Loc, q: seq<Loc>)
    requires Shaped(h) && HasNext(stack) && NextCandidate(stack) == c && c in h.grid
    requires Place(h, c, |stack| + 1) == h'
    requires Possibilities(h', c) == q
    ensures Descend(h, stack) == (h', Advance(stack, c, q))
  {
    var top' := Top(stack).(next := Top(stack).next + 1);
    var front := stack[..|stack| - 1];
    assert Push(h', c) == Frame(c, q, 0);
    AppendTwo(front, top', Frame(c, q, 0));
  }

  lemma Place1()
    ensures Place(H1(), B1, 2) == H2()
  {
    StageShaped(Blank, Blank, Blank, Blank, Blank, Blank, H1().index);
    assert Assign(H1(), B1, 2).grid == H2().grid;
  }

  lemma Step1()
    ensures NextCandidate(S1()) == B1
    ensures Descends(H1(), S1(), H2(), S2())
  {
    Candidates1();
    Candidates2();
    Place1();
    DescendTo(H1(), S1(), H2(), B1, [A1, D1]);
  }

  lemma Place2()
    ensures Place(H2(), A1, 3) == H3()
  {
    StageShaped(Blank, 2, Blank, Blank, Blank, Blank, H2().index);
    assert Assign(H2(), A1, 3).grid == H3().grid;
  }

  lemma Step2()
    ensures NextCandidate(S2()) == A1
    ensures Descends(H2(), S2(), H3(), S3())
  {
    Candidates2();
    Candidates3();
    Place2();
    DescendTo(H2(), S2(), H3(), A1, [C1]);
  }

  lemma Place3()
    ensures Place(H3(), C1, 4) == H4()
  {
    StageShaped(3, 2, Blank, Blank, Blank, Blank, H3().index);
    assert Assign(H3(), C1, 4).grid == H4().grid;
  }

  lemma Step3()
    ensures NextCandidate(S3()) == C1
    ensures Descends(H3(), S3(), H4(), S4())
  {
    Candidates3();
    Candidates4();
    Place3();
    DescendTo(H3(), S3(), H4(), C1, [D0, D1]);
  }

  lemma Place4()
    ensures Place(H4(), D0, 5) == H5()
  {
    StageShaped(3, 2, Blank, 4, Blank, Blank, H4().index);
    assert Assign(H4(), D0, 5).grid == H5().grid;
  }

  lemma Step4()
    ensures NextCandidate(S4()) == D0
    ensures Descends(H4(), S4(), H5(), S5())
  {
    Candidates4();
    Candidates5();
    Place4();
    DescendTo(H4(), S4(), H5(), D0, [C0]);
  }

  lemma Place5()
    ensures Place(H5(), C0, 6) == H6()
  {
    StageShaped(3, 2, Blank, 4, 5, Blank, H5().index);
    assert Assign(H5(), C0, 6).grid == H6().grid;
  }

  lemma Step5()
    ensures NextCandidate(S5()) == C0
    ensures Descends(H5(), S5(), H6(), S6())
  {
    Candidates5();
    Candidates6();
    Place5();
    DescendTo(H5(), S5(), H6(), C0, [D1]);
  }

  lemma Place6()
    ensures Place(H6(), D1, 7) == H7()
  {
    StageShaped(3, 2, 6, 4, 5, Blank, H6().index);
    assert Assign(H6(), D1, 7).grid == H7().grid;
  }

  lemma Step6()
    ensures NextCandidate(S6()) == D1
    ensures Descends(H6(), S6(), H7(), S7())
  {
    Candidates6();
    Candidates7();
    Place6();
    DescendTo(H6(), S6(), H7(), D1, []);
  }

  /** The search starts from the built board with the root's frame. */
  lemma Reach1()
    ensures Inv(H1(), H1(), S1())
  {
    BuildGiven();
    StartInv(H1());
    Candidates1();
    assert [Push(H1(), A0)] == S1();
  }

  lemma Reach2()
    ensures Inv(H1(), H2(), S2())
  {
    Reach1();
    Step1();
    DescendInv(H1(), H1(), S1());
  }

  lemma Reach3()
    ensures Inv(H1(), H3(), S3())
  {
    Reach2();
    Step2();
    DescendInv(H1(), H2(), S2());
  }

  lemma Reach4()
    ensures Inv(H1(), H4(), S4())
  {
    Reach3();
    Step3();
    DescendInv(H1(), H3(), S3());
  }

  lemma Reach5()
    ensures Inv(H1(), H5(), S5())
  {
    Reach4();
    Step4();
    DescendInv(H1(), H4(), S4());
  }

  lemma Reach6()
    ensures Inv(H1(), H6(), S6())
  {
    Reach5();
    Step5();
    DescendInv(H1(), H5(), S5());
  }

  lemma Reach7()
    ensures Inv(H1(), H7(), S7())
  {
    Reach6();
    Step6();
    DescendInv(H1(), H6(), S6());
  }

  /** The index of the last board holds all eight numbers, and 8 sits on b0, next to the root. */
  lemma LastBoardAsWritten()
    requires WellFormed(H7())
    ensures Total(H7()) == 8
    ensures SolvedAsWritten(H7())
  {
    LastIndexFull();
    assert Adjacent(A0, B0);
  }

  lemma LastIndexFull()
    ensures |H7().index| == 8 == Total(H7()) && H7().index[8] == B0
  {
    assert H7().index.Keys == {1, 2, 3, 4, 5, 6, 7, 8};
  }

  /** From the built board the inner loop descends six times, always to the first candidate. */
  lemma Trace()
    ensures Descends(H1(), S1(), H2(), S2()) && Descends(H2(), S2(), H3(), S3())
    ensures Descends(H3(), S3(), H4(), S4()) && Descends(H4(), S4(), H5(), S5())
    ensures Descends(H5(), S5(), H6(), S6()) && Descends(H6(), S6(), H7(), S7())
  {
    Step1(); Step2(); Step3(); Step4(); Step5(); Step6();
  }

  /** There the top frame (d1) has no candidate, and the check as written accepts the board. */
  lemma Stop()
    ensures !HasNext(S7())
    ensures WellFormed(H7()) && SolvedAsWritten(H7())
    ensures |S7()| == 7 && Total(H7()) == 8
    ensures H7().index[7] == D1 && H7().index[8] == B0 && !Adjacent(D1, B0)
    ensures !Solved(H7(), S7())
  {
    Reach7();
    LastBoardAsWritten();
  }

  /**
   The finding. Starting from the built board, the search descends six
   times, taking the first candidate each time, and then finds no candidate
   for d1. The solved check as written accepts the board there, although the
   stack is only seven frames deep and 7 -> 8 is not a step between
   adjacent cells. The corrected check rejects it, so the search backtracks.
   */
  lemma AsWrittenAcceptsBrokenChain()
    ensures ValidPuzzle(Given()) && Build(Given()) == H1()
    ensures Descends(H1(), S1(), H2(), S2()) && Descends(H2(), S2(), H3(), S3())
    ensures Descends(H3(), S3(), H4(), S4()) && Descends(H4(), S4(), H5(), S5())
    ensures Descends(H5(), S5(), H6(), S6()) && Descends(H6(), S6(), H7(), S7())
    ensures !HasNext(S7())
    ensures WellFormed(H7()) && SolvedAsWritten(H7())
    ensures |S7()| == 7 && Total(H7()) == 8
    ensures H7().index[7] == D1 && H7().index[8] == B0 && !Adjacent(D1, B0)
    ensures !Solved(H7(), S7())
  {
    BuildGiven();
    Trace();
    Stop();
  }
}
