/**
 The backtracking search. The stack holds one frame per placed number: the
 frame at depth i (1-based) holds the cell numbered i together with the
 candidates computed for number i+1 when it was pushed, and how many of them
 have been tried. Descending takes the next candidate, numbers it
 depth + 1 unless it is fixed, and pushes a frame for it; when the top frame
 has no candidate left the search stops if the board is solved and
 otherwise pops the frame, clearing the cell's number unless it is fixed.
 */
module Search {
  import opened Location
  import opened Topology
  import opened Board
  import opened Candidates
  import opened Termination

  /** One level of the search (a `TreeRow`): the iterator is the candidate list plus a cursor. */
  datatype Frame = Frame(block: Loc, possibilities: seq<Loc>, next: nat)

  /** The outcome reported to the caller. */
  datatype Outcome = Solution(board: Hedgehog, chain: seq<Loc>) | NotSolvable

  function Push(h: Hedgehog, b: Loc): (f: Frame)
    requires Shaped(h) && b in h.grid
    ensures f.block == b && f.next == 0
    ensures |f.possibilities| <= h.rows + h.cols
  {
    Frame(b, Possibilities(h, b), 0)
  }

  function Top(stack: seq<Frame>): Frame
    requires |stack| > 0
  {
    stack[|stack| - 1]
  }

  /** The cells on the stack, bottom first. */
  function Blocks(stack: seq<Frame>): (s: seq<Loc>)
    ensures |s| == |stack|
    ensures forall i :: 0 <= i < |stack| ==> s[i] == stack[i].block
  {
    seq(|stack|, i requires 0 <= i < |stack| => stack[i].block)
  }

  /** The top frame still has an untried candidate. */
  predicate HasNext(stack: seq<Frame>) {
    |stack| > 0 && Top(stack).next < |Top(stack).possibilities|
  }

  function NextCandidate(stack: seq<Frame>): Loc
    requires HasNext(stack)
  {
    Top(stack).possibilities[Top(stack).next]
  }

  /** Descend's placement: an unfixed cell receives the number n, a fixed cell keeps its own. */
  function Place(h: Hedgehog, c: Loc, n: int): (r: Hedgehog)
    requires Shaped(h) && c in h.grid
    ensures Shaped(r) && SameFixed(h, r)
    ensures r.grid[c].num == (if h.grid[c].fixed then h.grid[c].num else n)
    ensures forall l :: l in h.grid && l != c ==> r.grid[l] == h.grid[l]
  {
    if h.grid[c].fixed then h else Assign(h, c, n)
  }

  /**
   One descent: the next candidate of the top frame receives the number
   |stack| + 1 unless it is fixed, and a frame for it is pushed; the frame
   below records that one more candidate has been tried.
   */
  function Descend(h: Hedgehog, stack: seq<Frame>): (r: (Hedgehog, seq<Frame>))
    requires Shaped(h) && HasNext(stack) && NextCandidate(stack) in h.grid
    ensures r.0 == Place(h, NextCandidate(stack), |stack| + 1)
    ensures |r.1| == |stack| + 1
    ensures forall i :: 0 <= i < |stack| - 1 ==> r.1[i] == stack[i]
    ensures r.1[|stack| - 1] == Top(stack).(next := Top(stack).next + 1)
    ensures forall i :: 0 <= i < |stack| ==> r.1[i].block == stack[i].block
    ensures Top(r.1) == Push(r.0, NextCandidate(stack))
  {
    var top := Top(stack);
    var c := top.possibilities[top.next];
    var h' := Place(h, c, |stack| + 1);
    (h', stack[..|stack| - 1] + [top.(next := top.next + 1)] + [Push(h', c)])
  }

  /** One backtrack: pop the top frame and clear its cell's number unless the cell is fixed. */
  function Backtrack(h: Hedgehog, stack: seq<Frame>): (r: (Hedgehog, seq<Frame>))
    requires |stack| > 0 && Top(stack).block in h.grid
    ensures r.1 == stack[..|stack| - 1]
    ensures r.0.grid.Keys == h.grid.Keys
    ensures r.0.grid[Top(stack).block].num == (if h.grid[Top(stack).block].fixed then h.grid[Top(stack).block].num else Blank)
    ensures forall l :: l in h.grid && l != Top(stack).block ==> r.0.grid[l] == h.grid[l]
  {
    var b := Top(stack).block;
    (if h.grid[b].fixed then h else Unassign(h, b), stack[..|stack| - 1])
  }

  /**
   Backtracking right after a descent gives back the board exactly and the
   stack as it was, with the tried candidate consumed.
   */
  lemma BacktrackUndoesDescend(h: Hedgehog, stack: seq<Frame>)
    requires Shaped(h) && IndexConsistent(h)
    requires HasNext(stack) && NextCandidate(stack) in h.grid
    requires !h.grid[NextCandidate(stack)].fixed ==>
      h.grid[NextCandidate(stack)].num == Blank && |stack| + 1 !in h.index
    ensures var d := Descend(h, stack);
      Backtrack(d.0, d.1) == (h, stack[..|stack| - 1] + [Top(stack).(next := Top(stack).next + 1)])
  {
    var c := NextCandidate(stack);
    var d := Descend(h, stack);
    var top' := Top(stack).(next := Top(stack).next + 1);
    assert d.1[..|stack|] == stack[..|stack| - 1] + [top'];
    if !h.grid[c].fixed {
      UnassignUndoesAssign(h, c, |stack| + 1);
    }
  }

  /**
   `solved()` as written: the index holds N numbers and the root is adjacent
   to the cell holding N. In terms of the cells: every cell holds a number,
   and the cell holding N is adjacent to the root.
   */
  function SolvedAsWritten(h: Hedgehog): (r: bool)
    requires WellFormed(h)
    ensures r <==> AllNumbered(h) && exists l :: l in h.grid && h.grid[l].num == Total(h) && Adjacent(h.root, l)
  {
    FullIndexIffAllNumbered(h);
    if |h.index| == Total(h) then
      FullIndexHasLast(h);
      var last := h.index[Total(h)];
      assert last in h.grid && h.grid[last].num == Total(h);
      Adjacent(h.root, last)
    else
      false
  }

  /**
   The solved check the search uses: the check as written, and the chain
   has reached depth N.
   */
  function Solved(h: Hedgehog, stack: seq<Frame>): (r: bool)
    requires WellFormed(h)
    ensures r <==>
      && |stack| == Total(h)
      && AllNumbered(h)
      && exists l :: l in h.grid && h.grid[l].num == Total(h) && Adjacent(h.root, l)
  {
    SolvedAsWritten(h) && |stack| == Total(h)
  }

  /** The search only renumbers unfixed cells: the shape, the root and every fixed cell stay as they were. */
  ghost predicate SameFixed(h0: Hedgehog, h: Hedgehog) {
    && h.rows == h0.rows && h.cols == h0.cols && h.root == h0.root
    && h.grid.Keys == h0.grid.Keys
    && (forall l :: l in h0.grid ==> h.grid[l].fixed == h0.grid[l].fixed)
    && (forall l :: l in h0.grid && h0.grid[l].fixed ==> h.grid[l].num == h0.grid[l].num)
  }

  ghost predicate NoFixedNumber(h: Hedgehog, n: int) {
    forall l :: l in h.grid && h.grid[l].fixed ==> h.grid[l].num != n
  }

  /**
   What holds of frame i (the frame of the cell numbered i + 1) from the
   moment it is pushed: its cell is valid, its cursor is within its
   candidates, and each candidate is adjacent to its cell; a fixed candidate
   already holds i + 2, and an unfixed one is none of the cells of frames
   0..i while no fixed cell holds i + 2. Only fixed cells are consulted, so
   renumbering unfixed cells keeps it.
   */
  ghost predicate FrameOk(h: Hedgehog, stack: seq<Frame>, i: int)
    requires 0 <= i < |stack|
  {
    && Valid(h.rows, h.cols, stack[i].block)
    && stack[i].next <= |stack[i].possibilities| <= h.rows + h.cols
    && forall x :: x in stack[i].possibilities ==>
         && x in h.grid
         && Adjacent(stack[i].block, x)
         && (h.grid[x].fixed ==> h.grid[x].num == i + 2)
         && (!h.grid[x].fixed ==> NoFixedNumber(h, i + 2) && forall j :: 0 <= j <= i ==> stack[j].block != x)
  }

  /** Frame i holds a cell numbered i + 1, and the bottom frame holds the root. */
  ghost predicate NumberedStack(h: Hedgehog, stack: seq<Frame>) {
    && (|stack| > 0 ==> stack[0].block == h.root)
    && (forall i :: 0 <= i < |stack| ==> stack[i].block in h.grid && h.grid[stack[i].block].num == i + 1)
  }

  /** The only unfixed cells holding a number are those the stack numbered. */
  ghost predicate OnlyStackNumbered(h: Hedgehog, depth: int) {
    forall l :: l in h.grid && !h.grid[l].fixed && h.grid[l].num != Blank ==> h.grid[l].num <= depth
  }

  /** Consecutive frames hold adjacent cells. */
  ghost predicate ChainAdjacent(stack: seq<Frame>) {
    forall i :: 0 <= i < |stack| - 1 ==>
      0 <= stack[i].block.chunk < Chunks && Adjacent(stack[i].block, stack[i + 1].block)
  }

  ghost predicate FramesOk(h: Hedgehog, stack: seq<Frame>) {
    forall i :: 0 <= i < |stack| ==> FrameOk(h, stack, i)
  }

  /** The loop invariant of the search. */
  ghost predicate Inv(h0: Hedgehog, h: Hedgehog, stack: seq<Frame>) {
    && Initial(h0)
    && WellFormed(h)
    && SameFixed(h0, h)
    && |stack| <= Total(h)
    && NumberedStack(h, stack)
    && OnlyStackNumbered(h, |stack|)
    && ChainAdjacent(stack)
    && FramesOk(h, stack)
  }

  /** The remaining-candidate count of every frame. */
  ghost function Remaining(stack: seq<Frame>): (rs: seq<nat>)
    ensures |rs| == |stack|
  {
    seq(|stack|, i requires 0 <= i < |stack| =>
      if stack[i].next <= |stack[i].possibilities| then |stack[i].possibilities| - stack[i].next else 0)
  }

  ghost function Measure(h0: Hedgehog, stack: seq<Frame>): nat
    requires |stack| <= Total(h0)
  {
    Weight(Remaining(stack), h0.rows + h0.cols + 2, Total(h0))
  }

  /** A complete closed chain: the solution the search promises. */
  ghost predicate IsSolution(h0: Hedgehog, h: Hedgehog, chain: seq<Loc>) {
    && SameFixed(h0, h)
    && |chain| == Total(h0) && |chain| > 0
    && (forall i :: 0 <= i < |chain| ==> Valid(h.rows, h.cols, chain[i]))
    && (forall i :: 0 <= i < |chain| ==> chain[i] in h.grid && h.grid[chain[i]].num == i + 1)
    && chain[0] == h0.root
    && (forall i :: 0 <= i < |chain| - 1 ==> Adjacent(chain[i], chain[i + 1]))
    && Adjacent(chain[0], chain[|chain| - 1])
    && (forall l :: l in h.grid ==> l in chain)
    && (forall l :: l in h.grid ==> 1 <= h.grid[l].num <= Total(h0))
  }

  lemma StackDistinct(h: Hedgehog, stack: seq<Frame>)
    requires forall i :: 0 <= i < |stack| ==> stack[i].block in h.grid && h.grid[stack[i].block].num == i + 1
    ensures Distinct(Blocks(stack))
  {
    forall i, j | 0 <= i < j < |stack|
      ensures stack[i].block != stack[j].block
    {
      assert h.grid[stack[i].block].num != h.grid[stack[j].block].num;
    }
  }

  /**
   A frame pushed for the top cell of a stack whose cells hold 1..|stack|, on
   a board where no other unfixed cell holds a number, satisfies the frame
   invariant.
   */
  lemma PushedFrameOk(h: Hedgehog, stack: seq<Frame>)
    requires WellFormed(h)
    requires |stack| > 0
    requires forall i :: 0 <= i < |stack| ==> stack[i].block in h.grid && h.grid[stack[i].block].num == i + 1
    requires OnlyStackNumbered(h, |stack|)
    requires Top(stack) == Push(h, Top(stack).block)
    ensures FrameOk(h, stack, |stack| - 1)
  {
    var d := |stack| - 1;
    var b := Top(stack).block;
    var n := |stack| + 1;
    assert h.grid[b].num + 1 == n;
    forall x | x in Top(stack).possibilities
      ensures h.grid[x].fixed ==> h.grid[x].num == n
      ensures !h.grid[x].fixed ==> NoFixedNumber(h, n) && forall j :: 0 <= j <= d ==> stack[j].block != x
    {
      if n in h.index {
        assert x == h.index[n];
      } else {
        assert h.grid[x].num == Blank;
        forall j | 0 <= j <= d
          ensures stack[j].block != x
        {
          assert h.grid[stack[j].block].num == j + 1;
        }
      }
    }
  }

  /** The search starts from a state satisfying the invariant. */
  lemma StartInv(h0: Hedgehog)
    requires Initial(h0)
    ensures Inv(h0, h0, [Push(h0, h0.root)])
  {
    var stack := [Push(h0, h0.root)];
    assert Valid(h0.rows, h0.cols, h0.root);
    PushedFrameOk(h0, stack);
  }

  /**
   A frame keeps its invariant when the board changes only in unfixed cells
   and the frames up to it keep their cells, candidates and a cursor within
   the candidates.
   */
  lemma FrameOkTransfer(h: Hedgehog, stack: seq<Frame>, h': Hedgehog, s': seq<Frame>, i: int)
    requires 0 <= i < |stack| && i < |s'|
    requires FrameOk(h, stack, i)
    requires SameFixed(h, h')
    requires s'[i].block == stack[i].block && s'[i].possibilities == stack[i].possibilities
    requires s'[i].next <= |s'[i].possibilities|
    requires forall j :: 0 <= j <= i ==> s'[j].block == stack[j].block
    ensures FrameOk(h', s', i)
  {
  }

  /** Equal stack numbers in a consistent index are the same cell. */
  lemma NumberedCellOnStack(h: Hedgehog, stack: seq<Frame>, l: Loc)
    requires IndexConsistent(h) && NumberedStack(h, stack)
    requires l in h.grid && 1 <= h.grid[l].num <= |stack|
    ensures l == stack[h.grid[l].num - 1].block
  {
    var k := h.grid[l].num;
    assert h.grid[stack[k - 1].block].num == k;
  }

  /**
   What a descent needs of its candidate: it is a cell adjacent to the top
   cell and not on the stack; if fixed it already holds the next number,
   otherwise it is blank and the next number is not placed; and the next
   number is within 1..N.
   */
  ghost predicate DescendReady(h: Hedgehog, stack: seq<Frame>) {
    && Shaped(h) && HasNext(stack)
    && Valid(h.rows, h.cols, Top(stack).block)
    && NextCandidate(stack) in h.grid
    && Adjacent(Top(stack).block, NextCandidate(stack))
    && (forall j :: 0 <= j < |stack| ==> stack[j].block != NextCandidate(stack))
    && (h.grid[NextCandidate(stack)].fixed ==> h.grid[NextCandidate(stack)].num == |stack| + 1)
    && (!h.grid[NextCandidate(stack)].fixed ==>
          h.grid[NextCandidate(stack)].num == Blank && |stack| + 1 !in h.index)
    && |stack| + 1 <= Total(h)
  }

  /** The cells of a stack and one more cell that is none of them number at most N. */
  lemma StackFits(h: Hedgehog, stack: seq<Frame>, c: Loc)
    requires Shaped(h)
    requires forall i :: 0 <= i < |stack| ==> stack[i].block in h.grid && h.grid[stack[i].block].num == i + 1
    requires c in h.grid
    requires forall j :: 0 <= j < |stack| ==> stack[j].block != c
    ensures |stack| + 1 <= Total(h)
  {
    StackDistinct(h, stack);
    var s := Blocks(stack) + [c];
    assert Distinct(s);
    forall i | 0 <= i < |s|
      ensures Valid(h.rows, h.cols, s[i])
    {
      if i < |stack| {
        assert s[i] == stack[i].block;
      }
    }
    Pigeonhole(s, h.rows, h.cols);
  }

  /** Under the invariant the next candidate is always ready to take. */
  lemma DescendCandidateFresh(h0: Hedgehog, h: Hedgehog, stack: seq<Frame>)
    requires Inv(h0, h, stack) && HasNext(stack)
    ensures DescendReady(h, stack)
  {
    var d := |stack| - 1;
    var c := NextCandidate(stack);
    assert FrameOk(h, stack, d);
    assert c in Top(stack).possibilities;
    if h.grid[c].fixed {
      forall j | 0 <= j < |stack|
        ensures stack[j].block != c
      {
        assert h.grid[stack[j].block].num == j + 1;
      }
    } else if h.grid[c].num != Blank {
      NumberedCellOnStack(h, stack, c);
      assert false;
    }
    StackFits(h, stack, c);
  }

  /** A descent keeps the board well formed. */
  lemma DescendWellFormed(h: Hedgehog, stack: seq<Frame>)
    requires WellFormed(h) && DescendReady(h, stack)
    ensures WellFormed(Descend(h, stack).0)
  {
    var c := NextCandidate(stack);
    if !h.grid[c].fixed {
      assert Place(h, c, |stack| + 1) == Assign(h, c, |stack| + 1);
      AssignWellFormed(h, c, |stack| + 1);
    }
  }

  /** After a descent the only numbered unfixed cells are those of the deeper stack. */
  lemma DescendOnlyStackNumbered(h: Hedgehog, stack: seq<Frame>)
    requires OnlyStackNumbered(h, |stack|) && DescendReady(h, stack)
    ensures OnlyStackNumbered(Descend(h, stack).0, |stack| + 1)
  {
  }

  /**
   Numbering a cell that is on no frame with |stack| + 1 and pushing it
   extends a numbered stack by one.
   */
  lemma NumberedPush(h: Hedgehog, stack: seq<Frame>, h': Hedgehog, s': seq<Frame>, c: Loc)
    requires forall i :: 0 <= i < |stack| ==> stack[i].block in h.grid && h.grid[stack[i].block].num == i + 1
    requires forall j :: 0 <= j < |stack| ==> stack[j].block != c
    requires forall l :: l in h.grid && l != c ==> l in h'.grid && h'.grid[l] == h.grid[l]
    requires c in h'.grid && h'.grid[c].num == |stack| + 1
    requires |s'| == |stack| + 1 && s'[|stack|].block == c
    requires forall i :: 0 <= i < |stack| ==> s'[i].block == stack[i].block
    ensures forall i :: 0 <= i < |s'| ==> s'[i].block in h'.grid && h'.grid[s'[i].block].num == i + 1
  {
  }

  /** A descent numbers the pushed cell one more than the old top and leaves the frames below numbered. */
  lemma DescendNumbered(h: Hedgehog, stack: seq<Frame>)
    requires NumberedStack(h, stack) && DescendReady(h, stack)
    ensures NumberedStack(Descend(h, stack).0, Descend(h, stack).1)
  {
    var r := Descend(h, stack);
    NumberedPush(h, stack, r.0, r.1, NextCandidate(stack));
  }

  /** A descent pushes a cell adjacent to the old top. */
  lemma DescendChain(h: Hedgehog, stack: seq<Frame>)
    requires ChainAdjacent(stack) && DescendReady(h, stack)
    ensures ChainAdjacent(Descend(h, stack).1)
  {
    var d := |stack| - 1;
    var s' := Descend(h, stack).1;
    forall i | 0 <= i < |s'| - 1
      ensures 0 <= s'[i].block.chunk < Chunks && Adjacent(s'[i].block, s'[i + 1].block)
    {
      if i < d {
        assert s'[i] == stack[i];
        if i + 1 < d {
          assert s'[i + 1] == stack[i + 1];
        }
      }
    }
  }

  /**
   The frames a descent keeps (all but the pushed one) keep their
   invariants: their cells and candidates are unchanged, the old top's
   cursor moved within its candidates, and no fixed cell changed.
   */
  lemma FramesKept(h: Hedgehog, stack: seq<Frame>, h': Hedgehog, s': seq<Frame>)
    requires FramesOk(h, stack) && HasNext(stack) && SameFixed(h, h')
    requires |s'| == |stack| + 1
    requires forall i :: 0 <= i < |stack| - 1 ==> s'[i] == stack[i]
    requires s'[|stack| - 1] == Top(stack).(next := Top(stack).next + 1)
    ensures forall i :: 0 <= i < |stack| ==> FrameOk(h', s', i)
  {
    forall i | 0 <= i < |stack|
      ensures FrameOk(h', s', i)
    {
      assert forall j :: 0 <= j <= i ==> s'[j].block == stack[j].block;
      FrameOkTransfer(h, stack, h', s', i);
    }
  }

  /** Kept frames and a freshly pushed top frame make a stack whose every frame is sound. */
  lemma FramesAfterPush(h: Hedgehog, stack: seq<Frame>, h': Hedgehog, s': seq<Frame>)
    requires FramesOk(h, stack) && HasNext(stack) && SameFixed(h, h')
    requires |s'| == |stack| + 1
    requires forall i :: 0 <= i < |stack| - 1 ==> s'[i] == stack[i]
    requires s'[|stack| - 1] == Top(stack).(next := Top(stack).next + 1)
    requires WellFormed(h')
    requires forall i :: 0 <= i < |s'| ==> s'[i].block in h'.grid && h'.grid[s'[i].block].num == i + 1
    requires OnlyStackNumbered(h', |s'|)
    requires Top(s') == Push(h', Top(s').block)
    ensures FramesOk(h', s')
  {
    FramesKept(h, stack, h', s');
    PushedFrameOk(h', s');
  }

  /** A descent keeps every frame's invariant, the pushed frame's included. */
  lemma DescendFrames(h: Hedgehog, stack: seq<Frame>)
    requires FramesOk(h, stack) && DescendReady(h, stack)
    requires WellFormed(Descend(h, stack).0) && SameFixed(h, Descend(h, stack).0)
    requires NumberedStack(Descend(h, stack).0, Descend(h, stack).1)
    requires OnlyStackNumbered(Descend(h, stack).0, |stack| + 1)
    ensures FramesOk(Descend(h, stack).0, Descend(h, stack).1)
  {
    var r := Descend(h, stack);
    FramesAfterPush(h, stack, r.0, r.1);
  }

  /** The remaining counts after a descent: one fewer on the old top, and the new frame's full count. */
  lemma RemainingDescend(stack: seq<Frame>, s': seq<Frame>)
    requires HasNext(stack)
    requires |s'| == |stack| + 1
    requires forall i :: 0 <= i < |stack| - 1 ==> s'[i] == stack[i]
    requires s'[|stack| - 1] == Top(stack).(next := Top(stack).next + 1)
    requires Top(s').next == 0
    ensures Remaining(stack)[|stack| - 1] > 0
    ensures Remaining(s') == Remaining(stack)[..|stack| - 1] + [Remaining(stack)[|stack| - 1] - 1] + [|Top(s').possibilities|]
  {
  }

  /** The remaining counts after a pop are those of the frames left. */
  lemma RemainingPop(stack: seq<Frame>)
    requires |stack| > 0
    ensures Remaining(stack) == Remaining(stack[..|stack| - 1]) + [Remaining(stack)[|stack| - 1]]
  {
  }

  /** The weight of the stack drops when a descent takes one candidate and pushes a frame. */
  lemma WeightStep(stack: seq<Frame>, s': seq<Frame>, base: nat, depth: nat)
    requires HasNext(stack)
    requires |s'| == |stack| + 1 <= depth
    requires forall i :: 0 <= i < |stack| - 1 ==> s'[i] == stack[i]
    requires s'[|stack| - 1] == Top(stack).(next := Top(stack).next + 1)
    requires Top(s').next == 0
    requires |Top(s').possibilities| + 1 < base
    ensures Weight(Remaining(s'), base, depth) < Weight(Remaining(stack), base, depth)
  {
    var d := |stack| - 1;
    var rs := Remaining(stack);
    RemainingDescend(stack, s');
    RemainingPop(stack);
    assert rs == rs[..d] + [rs[d]];
    WeightDescend(rs[..d], rs[d], |Top(s').possibilities|, base, depth);
  }

  /** The measure drops when a descent takes one candidate and pushes a frame. */
  lemma MeasureStep(h0: Hedgehog, stack: seq<Frame>, s': seq<Frame>)
    requires HasNext(stack)
    requires |s'| == |stack| + 1 <= Total(h0)
    requires forall i :: 0 <= i < |stack| - 1 ==> s'[i] == stack[i]
    requires s'[|stack| - 1] == Top(stack).(next := Top(stack).next + 1)
    requires Top(s').next == 0
    requires |Top(s').possibilities| <= h0.rows + h0.cols
    ensures Measure(h0, s') < Measure(h0, stack)
  {
    WeightStep(stack, s', h0.rows + h0.cols + 2, Total(h0));
  }

  /** A descent lowers the measure. */
  lemma DescendMeasure(h0: Hedgehog, h: Hedgehog, stack: seq<Frame>)
    requires Shaped(h) && HasNext(stack) && NextCandidate(stack) in h.grid
    requires h.rows == h0.rows && h.cols == h0.cols
    requires |stack| + 1 <= Total(h0)
    ensures |Descend(h, stack).1| <= Total(h0)
    ensures Measure(h0, Descend(h, stack).1) < Measure(h0, stack)
  {
    MeasureStep(h0, stack, Descend(h, stack).1);
  }

  /** A descent keeps the loop invariant and lowers the measure. */
  lemma DescendInv(h0: Hedgehog, h: Hedgehog, stack: seq<Frame>)
    requires Inv(h0, h, stack) && HasNext(stack)
    ensures NextCandidate(stack) in h.grid
    ensures Inv(h0, Descend(h, stack).0, Descend(h, stack).1)
    ensures Measure(h0, Descend(h, stack).1) < Measure(h0, stack)
  {
    DescendCandidateFresh(h0, h, stack);
    DescendWellFormed(h, stack);
    DescendOnlyStackNumbered(h, stack);
    DescendNumbered(h, stack);
    DescendChain(h, stack);
    DescendFrames(h, stack);
    DescendMeasure(h0, h, stack);
  }

  /** A backtrack keeps the board well formed and clears exactly the popped number. */
  lemma BacktrackBoard(h: Hedgehog, stack: seq<Frame>)
    requires WellFormed(h) && NumberedStack(h, stack) && OnlyStackNumbered(h, |stack|) && |stack| > 0
    ensures Top(stack).block in h.grid
    ensures WellFormed(Backtrack(h, stack).0)
    ensures SameFixed(h, Backtrack(h, stack).0)
    ensures OnlyStackNumbered(Backtrack(h, stack).0, |stack| - 1)
  {
    var d := |stack| - 1;
    var b := Top(stack).block;
    var h' := Backtrack(h, stack).0;
    assert h.grid[b].num == d + 1;
    assert h.index[d + 1] == b;
    if !h.grid[b].fixed {
      assert h' == Unassign(h, b);
      assert b != h.root;
    }
  }

  /** A backtrack leaves the frames below numbered, chained and valid. */
  lemma BacktrackStack(h: Hedgehog, stack: seq<Frame>)
    requires Shaped(h) && NumberedStack(h, stack) && ChainAdjacent(stack) && FramesOk(h, stack) && |stack| > 0
    requires SameFixed(h, Backtrack(h, stack).0)
    ensures NumberedStack(Backtrack(h, stack).0, Backtrack(h, stack).1)
    ensures ChainAdjacent(Backtrack(h, stack).1)
    ensures FramesOk(Backtrack(h, stack).0, Backtrack(h, stack).1)
  {
    var r := Backtrack(h, stack);
    forall i | 0 <= i < |r.1|
      ensures r.1[i].block in r.0.grid && r.0.grid[r.1[i].block].num == i + 1
    {
      assert h.grid[stack[i].block].num == i + 1;
      assert stack[i].block != Top(stack).block;
    }
    forall i | 0 <= i < |r.1|
      ensures FrameOk(r.0, r.1, i)
    {
      FrameOkTransfer(h, stack, r.0, r.1, i);
    }
  }

  /** A backtrack keeps the loop invariant and lowers the measure. */
  lemma BacktrackInv(h0: Hedgehog, h: Hedgehog, stack: seq<Frame>)
    requires Inv(h0, h, stack) && |stack| > 0
    ensures Top(stack).block in h.grid
    ensures Inv(h0, Backtrack(h, stack).0, Backtrack(h, stack).1)
    ensures Measure(h0, Backtrack(h, stack).1) < Measure(h0, stack)
  {
    BacktrackBoard(h, stack);
    BacktrackStack(h, stack);
    var d := |stack| - 1;
    RemainingPop(stack);
    WeightPop(Remaining(stack[..d]), Remaining(stack)[d], h0.rows + h0.cols + 2, Total(h0));
  }

  /** Once every frame is popped, every number placed by the search is gone again. */
  lemma ExhaustedRestores(h0: Hedgehog, h: Hedgehog)
    requires Inv(h0, h, [])
    ensures h == h0
  {
    forall l | l in h.grid
      ensures h.grid[l] == h0.grid[l]
    {
    }
    assert h.grid == h0.grid;
    forall n | n in h.index
      ensures n in h0.index && h0.index[n] == h.index[n]
    {
      var l := h.index[n];
      assert h.grid[l].num == n;
    }
    forall n | n in h0.index
      ensures n in h.index
    {
      var l := h0.index[n];
      assert h.grid[l].num == n;
    }
    assert h.index == h0.index;
  }

  /** A stack of N numbered frames covers the board: every cell holds a number in 1..N. */
  lemma FullStackCovers(h: Hedgehog, stack: seq<Frame>)
    requires Shaped(h)
    requires forall i :: 0 <= i < |stack| ==> stack[i].block in h.grid && h.grid[stack[i].block].num == i + 1
    requires |stack| == Total(h)
    ensures forall l :: l in h.grid ==> l in Blocks(stack)
    ensures forall l :: l in h.grid ==> 1 <= h.grid[l].num <= Total(h)
  {
    var chain := Blocks(stack);
    StackDistinct(h, stack);
    Pigeonhole(chain, h.rows, h.cols);
    forall l | l in h.grid
      ensures l in chain && 1 <= h.grid[l].num <= Total(h)
    {
      assert l in chain;
      var i :| 0 <= i < |chain| && chain[i] == l;
    }
  }

  /** The solved check's adjacency test closes the chain: the last frame's cell is adjacent to the root. */
  lemma SolvedCloses(h: Hedgehog, stack: seq<Frame>)
    requires WellFormed(h) && NumberedStack(h, stack) && |stack| > 0
    requires Solved(h, stack)
    ensures Adjacent(stack[0].block, stack[|stack| - 1].block)
  {
    var n := Total(h);
    assert h.grid[stack[n - 1].block].num == n;
  }

  /** The cells of a numbered, chained stack form a chain from the root through adjacent cells. */
  lemma StackChain(h: Hedgehog, stack: seq<Frame>)
    requires Shaped(h) && NumberedStack(h, stack) && ChainAdjacent(stack) && |stack| > 0
    requires Adjacent(stack[0].block, stack[|stack| - 1].block)
    ensures var chain := Blocks(stack);
      && (forall i :: 0 <= i < |chain| ==> Valid(h.rows, h.cols, chain[i]))
      && (forall i :: 0 <= i < |chain| ==> chain[i] in h.grid && h.grid[chain[i]].num == i + 1)
      && chain[0] == h.root
      && (forall i :: 0 <= i < |chain| - 1 ==> Adjacent(chain[i], chain[i + 1]))
      && Adjacent(chain[0], chain[|chain| - 1])
  {
  }

  /** When the search stops on the solved check, the stack is a complete closed chain. */
  lemma SolvedIsSolution(h0: Hedgehog, h: Hedgehog, stack: seq<Frame>)
    requires Inv(h0, h, stack) && |stack| > 0
    requires Solved(h, stack)
    ensures IsSolution(h0, h, Blocks(stack))
  {
    FullStackCovers(h, stack);
    SolvedCloses(h, stack);
    StackChain(h, stack);
  }

  /**
   The search loop (`solve`). It ends either with an empty stack, having put
   the board back as it was built (the puzzle is not solvable), or on the
   solved check with the stack holding a complete closed chain through every
   cell that keeps every fixed number.
   */
  method Solve(h0: Hedgehog) returns (h: Hedgehog, stack: seq<Frame>)
    requires Initial(h0)
    ensures WellFormed(h)
    ensures stack == [] ==> h == h0
    ensures stack != [] ==> Solved(h, stack) && IsSolution(h0, h, Blocks(stack))
  {
    h := h0;
    StartInv(h0);
    stack := [Push(h0, h0.root)];
    while stack != []
      invariant Inv(h0, h, stack)
      decreases Measure(h0, stack)
    {
      ghost var before := Measure(h0, stack);
      while HasNext(stack)
        invariant Inv(h0, h, stack) && stack != []
        invariant Measure(h0, stack) <= before
        decreases Measure(h0, stack)
      {
        DescendInv(h0, h, stack);
        var r := Descend(h, stack);
        h, stack := r.0, r.1;
      }
      if Solved(h, stack) {
        SolvedIsSolution(h0, h, stack);
        return;
      }
      BacktrackInv(h0, h, stack);
      var r := Backtrack(h, stack);
      h, stack := r.0, r.1;
    }
    ExhaustedRestores(h0, h);
  }

  /**
   Build the board from a puzzle and search it. A solution numbers every cell
   1..N, keeps every given number, and chains consecutive numbers through
   adjacent cells, N back to 1.
   */
  method SolvePuzzle(p: Puzzle) returns (outcome: Outcome)
    requires ValidPuzzle(p)
    ensures outcome.Solution? ==>
      && IsSolution(Build(p), outcome.board, outcome.chain)
      && (forall l :: Valid(Rows(p), Cols(p), l) && Value(p, l) != Blank ==>
            l in outcome.board.grid && outcome.board.grid[l].num == Value(p, l))
  {
    var h0 := Build(p);
    BuildInitial(p);
    var h, stack := Solve(h0);
    if stack == [] {
      outcome := NotSolvable;
    } else {
      outcome := Solution(h, Blocks(stack));
    }
  }
}
