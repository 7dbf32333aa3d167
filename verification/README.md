# Hedgehog puzzle solver — a Dafny model

A hedgehog puzzle is a grid of four chunks. Each chunk has `rows` x `cols` cells. Some cells hold given numbers and the rest are blank (`-1`). A solution writes 1..N, with N = 4 * rows * cols, into the cells so that:

- every given number stays where it is;
- each number k + 1 sits in a cell "adjacent" to the cell holding k;
- the cell holding N is adjacent to the cell holding 1 (the root).

Adjacency comes from a fixed chunk table. Chunks 0/1 and 2/3 are linked by row; chunks 0/2 and 1/3 are linked by column. A cell is adjacent to the cells of its row-linked chunk that lie on the same row. It is also adjacent to the cells of its column-linked chunk that lie in the same column.

The solver in `Hedgehog.java` works as follows:

- the constructor builds the board from the input array;
- `possibilities` lists the cells that may hold the next number;
- `solve` runs an iterative depth-first search over an explicit stack of frames;
- descending writes `depth + 1` into an unfixed candidate; backtracking clears it again;
- `solved()` is checked whenever the top frame runs out of candidates.

The model uses values throughout:

- a board (`Board.Hedgehog`) is a map from location to cell, plus the number index (number -> location) and the root;
- a frame is its cell, its candidate list and a cursor, in place of the Java iterator;
- each operation is a function from board and stack to board and stack;
- the search loop is `Search.Solve`. Its invariant says:
  - the frame at depth i holds the cell numbered i;
  - consecutive frames are adjacent;
  - every candidate of a frame is adjacent to its cell, and is either the fixed cell already holding the next number or a blank cell off the stack;
  - the index agrees with the cells.

Termination is proved with a lexicographic weight over the remaining-candidate counts of the frames (module `Termination`).

Modules:

- `Location`: cells and scan order.
- `Topology`: the chunk table and `adjacent`.
- `Board`: the data classes, the constructor, placing and clearing a number.
- `Candidates`: `possibilities`.
- `Termination`: the search measure.
- `Search`: frames, descend, backtrack, the solved checks and the loop.
- `Counterexample`: a concrete run showing that `solved()` as written accepts a broken chain (see Findings).

## Model

| member | source | states |
|---|---|---|
| Location.TotalBlocksProduct | src/main/java/com/bborchard/Hedgehog.java:35 | the cell count used throughout is chunks * rows * cols |
| Location.AllLocs | src/main/java/com/bborchard/Hedgehog.java:41-56 | the constructor's nested loops visit every cell of the grid exactly once, chunk by chunk, row by row, column by column |
| Location.Pigeonhole | src/main/java/com/bborchard/Hedgehog.java:35 | distinct cells are never more than N, and N distinct cells are all the cells; this bounds the search depth by N |
| Topology.AdjacencyMap | src/main/java/com/bborchard/Hedgehog.java:59-66 | each chunk lists one ROW link then one COL link, to two different chunks other than itself: 0-1 and 2-3 by row, 0-2 and 1-3 by column |
| Topology.AdjacencyMapSymmetric | src/main/java/com/bborchard/Hedgehog.java:60-66 | the table is symmetric: a chunk's partner lists it back with the same alignment |
| Topology.Linked | src/main/java/com/bborchard/Hedgehog.java:164-170 | the or-accumulating loop is true exactly when some entry targets b's chunk and the two cells share its row or column |
| Topology.Adjacent | src/main/java/com/bborchard/Hedgehog.java:163-171 | the table loop of `adjacent` holds exactly when b is in a's row partner on a's row, or in a's column partner in a's column |
| Topology.AdjacentSymmetric | src/main/java/com/bborchard/Hedgehog.java:163-171 | adjacency is symmetric |
| Topology.SameChunkNotAdjacent | src/main/java/com/bborchard/Hedgehog.java:163-171 | two cells of the same chunk are never adjacent |
| Board.IndexOf | src/main/java/com/bborchard/Hedgehog.java:49 | filling the index in visiting order maps every given number to the last visited cell that holds it, and to no blank |
| Board.Build | src/main/java/com/bborchard/Hedgehog.java:30-56 | every cell gets its input value and is fixed exactly when that value is not -1; every given number is indexed to a cell holding it; the root is the last cell holding 1 |
| Board.BuildIndexesEveryGivenCell | src/main/java/com/bborchard/Hedgehog.java:49 | with distinct givens, every given cell is the index entry of its own number |
| Board.BuildIndexConsistent | src/main/java/com/bborchard/Hedgehog.java:41-56 | with distinct givens, the built index maps n to c exactly when c holds n |
| Board.BuildInitial | src/main/java/com/bborchard/Hedgehog.java:30-56 | a valid puzzle builds a well-formed board where only fixed cells hold numbers, the root holds a fixed 1, and every number is in 1..N |
| Board.BuildGridIs | src/main/java/com/bborchard/Hedgehog.java:41-48 | the built grid is the one holding each input value, fixed exactly when given |
| Board.BuildIndexIs | src/main/java/com/bborchard/Hedgehog.java:49-50 | the built index is any map that puts each given number under its cell, and the root is the cell under 1 |
| Board.Assign | src/main/java/com/bborchard/Hedgehog.java:82-85 | placing n in a blank cell keeps the index consistent and adds exactly n to it; no other cell changes |
| Board.Unassign | src/main/java/com/bborchard/Hedgehog.java:99-102 | clearing a cell keeps the index consistent and removes exactly its number; no other cell changes |
| Board.UnassignUndoesAssign | src/main/java/com/bborchard/Hedgehog.java:96-102 | clearing a cell just given a fresh number restores the board exactly |
| Board.AssignRedoesUnassign | src/main/java/com/bborchard/Hedgehog.java:82-85 | putting a cleared number back restores the board exactly |
| Board.AssignWellFormed | src/main/java/com/bborchard/Hedgehog.java:82-85 | placing a fresh number in 1..N in a blank unfixed cell keeps the board well formed |
| Board.UnassignWellFormed | src/main/java/com/bborchard/Hedgehog.java:99-102 | clearing an unfixed cell keeps the board well formed |
| Board.FullIndexHasLast | src/main/java/com/bborchard/Hedgehog.java:116 | when the index has N entries, the lookup of N in the solved check finds a cell |
| Board.FullIndexIffAllNumbered | src/main/java/com/bborchard/Hedgehog.java:116 | on a well-formed board the index holds N numbers exactly when every cell holds a number |
| Candidates.Line | src/main/java/com/bborchard/Hedgehog.java:148-151 | the scanned line holds exactly the cells of the linked chunk on b's row (ROW) or in b's column (COL) |
| Candidates.Blanks | src/main/java/com/bborchard/Hedgehog.java:152-155 | a line's candidates are exactly its blank cells |
| Candidates.FreeCandidates | src/main/java/com/bborchard/Hedgehog.java:145-157 | a cell is listed exactly when it is blank and some table entry links its chunk to b with a matching row or column |
| Candidates.FreeCandidatesOrdered | src/main/java/com/bborchard/Hedgehog.java:145-157 | the free list is strictly ordered: row-linked cells by ascending column, then column-linked cells by ascending row |
| Candidates.FreeCandidatesBound | src/main/java/com/bborchard/Hedgehog.java:145-157 | the free list has at most one cell per cell of the two scanned lines, so at most rows + cols |
| Candidates.PossibilitiesFree | src/main/java/com/bborchard/Hedgehog.java:144-159 | when the next number is unplaced, the candidates are the blank cells of the row line followed by those of the column line |
| Candidates.PossibilitiesOneByTwo | src/main/java/com/bborchard/Hedgehog.java:147-157 | on one-by-two chunks the free case checks exactly three cells: both cells of the row partner, then one cell of the column partner |
| Candidates.Possibilities | src/main/java/com/bborchard/Hedgehog.java:131-161 | if k+1 is placed, the only candidate is its cell when adjacent, and there is none otherwise; else the candidates are exactly the blank adjacent cells, each once, in scan order; all are adjacent |
| Search.Push | src/main/java/com/bborchard/Hedgehog.java:87 | a new frame starts with its cursor at 0 and at most rows + cols candidates |
| Search.Place | src/main/java/com/bborchard/Hedgehog.java:82-86 | an unfixed candidate receives the new number, a fixed one keeps its own; fixed cells and all other cells are untouched |
| Search.Descend | src/main/java/com/bborchard/Hedgehog.java:80-89 | the candidate is placed with depth + 1; the frames below keep their cells; the old top has used one more candidate; the new top is the candidate's fresh frame |
| Search.Backtrack | src/main/java/com/bborchard/Hedgehog.java:96-102 | the top frame is popped; its cell is cleared unless fixed; no other cell changes |
| Search.BacktrackUndoesDescend | src/main/java/com/bborchard/Hedgehog.java:80-102 | backtracking right after a descent restores the board exactly and the stack with the tried candidate consumed |
| Search.StartInv | src/main/java/com/bborchard/Hedgehog.java:73-74 | the stack holding only the root's frame satisfies the search invariant |
| Search.DescendCandidateFresh | src/main/java/com/bborchard/Hedgehog.java:80-86 | under the invariant the next candidate is adjacent to the top cell and not on the stack; if fixed it already holds depth + 1; if unfixed it is blank and depth + 1 is unplaced |
| Search.DescendInv | src/main/java/com/bborchard/Hedgehog.java:80-89 | a descent keeps the search invariant and lowers the termination measure |
| Search.DescendMeasure | src/main/java/com/bborchard/Hedgehog.java:80-89 | a descent lowers the termination measure |
| Search.BacktrackInv | src/main/java/com/bborchard/Hedgehog.java:96-102 | a backtrack keeps the search invariant and lowers the termination measure |
| Search.ExhaustedRestores | src/main/java/com/bborchard/Hedgehog.java:77-109 | when the stack runs empty, the board is exactly the built one again |
| Search.SolvedAsWritten | src/main/java/com/bborchard/Hedgehog.java:115-117 | the check as written holds exactly when every cell holds a number and the cell holding N is adjacent to the root |
| Search.Solved | src/main/java/com/bborchard/Hedgehog.java:115-117 | the corrected check holds exactly when the stack is N deep, every cell holds a number and the cell holding N is adjacent to the root |
| Search.SolvedIsSolution | src/main/java/com/bborchard/Hedgehog.java:91-94 | stopping on the corrected check `Search.Solved` (the check of lines 115-117 plus a stack of depth N) means the stack's cells hold 1..N in order, cover the grid, chain adjacently, close N back to 1, and keep every given number |
| Search.Solve | src/main/java/com/bborchard/Hedgehog.java:70-103 | the loop, run with the corrected check `Search.Solved`, terminates; it ends either with an empty stack and the board as built, or on `Search.Solved` with a complete closed chain |
| Search.SolvePuzzle | src/main/java/com/bborchard/Hedgehog.java:104-113 | with the search stopping on the corrected check `Search.Solved`, a reported solution is a closed chain 1..N through every cell that keeps every number of the input |
| Counterexample.AsWrittenAcceptsBrokenChain | src/main/java/com/bborchard/Hedgehog.java:30-117 | the whole run: the example puzzle is valid and builds the first board; the inner loop places 2..7 on b1, a1, c1, d0, c0, d1; d1 then has no candidate; the check as written accepts that seven-frame stack although its 7 -> 8 step is not adjacent, while the corrected check `Search.Solved` rejects it |

## Left out

- Output: `printPuzzle`, `System.out`/`System.err` and `System.exit(1)` are console I/O and process exit. The outcome is returned as a value: `Solution(board, chain)` or `NotSolvable`.
- The `debug` flag and `debug(...)` only log and do not affect behaviour.
- `main` and the literal fixtures `test19`, `test22` and `test23` are left out. The search is not run on them.
- The unused `jdk.nashorn` import, the `NO_BLOCKS` iterator, `Stack` and `HashMap` are replaced by sequences, a cursor and maps.
- Board.Build: requires exactly four chunks. With no chunks the constructor fails at `puzzle[0]` (Hedgehog.java:33). With one to three or five or more chunks the table stays empty. The first `possibilities(root)` then dereferences the missing table entry, either directly (line 147) or through `adjacent` (line 165).
- Board.Build: requires equal chunk shapes with at least one row and one column. The Java code sizes the position array from the first chunk (Hedgehog.java:39). A chunk larger than the first overruns that array in the constructor (line 48). A smaller one leaves empty slots. A later scan (lines 149-152) dereferences such a slot, unless the search ends first; in that case the puzzle is reported unsolvable.
- Board.Build: requires that some cell holds 1. Without one the root stays null and `solve` fails on its first `possibilities(root)`.
- Search.Solve: requires given numbers that are distinct and in 1..N. The Java code does no validation; it silently overwrites a repeated number in the index.
- Input rejection: the code performs no validation. Malformed puzzles are therefore excluded by preconditions rather than rejected with an error result.
- Search.Solve: the loop is modelled with the corrected solved check `Search.Solved`, which also requires a stack of depth N. The stop of the check as written is shown only by `Counterexample.AsWrittenAcceptsBrokenChain` (see Findings).
- Search.Solve, Search.SolvePuzzle: soundness only. An empty stack, and so the `NotSolvable` outcome, is not proved to mean that no solution exists (completeness of the search). The program promises this when it prints "Puzzle not solvable!" at line 107.
- Java `int` width is not modelled. Numbers stay within 1..N and depths within N, far below 2^31 for any board the search could finish.

## Findings

| source | as written | input that shows it | evidently intended | confidence | as-written member | corrected member |
|---|---|---|---|---|---|---|
| src/main/java/com/bborchard/Hedgehog.java:115-117 | `solved()` checks only that the index holds N numbers and that the cell holding N is adjacent to the root. It does not check that the stack reached depth N. | Four chunks of one row and two columns. Chunk 0 is `[1, -1]`, chunk 1 is `[8, -1]`, chunks 2 and 3 are blank. The search places 2..7 on b1, a1, c1, d0, c0, d1. d1 then has no candidate, because 8 sits on b0, which is not adjacent to d1. The index holds 8 numbers and b0 is adjacent to the root, so `solved()` returns true with a seven-frame stack whose 7 -> 8 step breaks the chain. | report solved only when the chain has reached depth N (`possibilityTree.size() == totalBlocks` as well) | not executed | Counterexample.AsWrittenAcceptsBrokenChain | Search.SolvedIsSolution |

`Search.SolvedAsWritten` is the check as written. `Search.Solved` adds the depth condition, and `Search.Solve` uses it.
