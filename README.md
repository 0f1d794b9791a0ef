# Calibron 12 solver: skyline placement and backtracking search

This project models the solver for the Calibron 12 rectangle-packing puzzle.
The repository has two near-duplicate implementations, `solver.py` and `solver.cpp`.
Both keep the open top boundary of the pieces placed so far as a *skyline*: a
min-heap of horizontal edges `(x, y, length)` ordered by `(y, x)`.

- `place` does the following:
  - takes the lowest, then left-most, edge;
  - rejects a piece that would stick out above the board;
  - merges the contiguous edges at that height into the edge in hand;
  - rejects a piece wider than the merged run;
  - otherwise pushes the piece's top edge, plus the uncovered remainder when the
    piece is narrower than the run.
- `solve` tries every remaining piece in list order, unrotated and then rotated.
  Each try runs on a copy of the heap. On a fit it:
  - records a `SolutionPart`;
  - recurses on the list with that piece taken out;
  - undoes the record when the recursion fails.
- Before the search:
  - the pieces are sorted by descending area;
  - the heap holds the single edge `(0, 0, BOARD_WIDTH)`.

Layout:

- `shapes.dfy` (module `Shapes`):
  - pieces, edges and solution parts;
  - removing a list element by index;
  - the descending-area sort;
  - pieces up to rotation.
- `skyline.dfy` (module `Skyline`):
  - the `(y, x)` order and the heap's pop-min;
  - the skyline invariant (the edges cover `[0, width)` once, with no gaps and
    no overlaps, and their lengths add up to `width`);
  - the merge loop as the function `MergeRun`;
  - the edges a placement pushes;
  - the class `EdgeQueue`, the heap both `place` functions mutate by reference.
    Its methods `Pop`, `PopLowest`, `Push`, `MergeInto` and `Copy` are the heap
    operations and the merge loop.
- `py_solver.dfy` (module `PySolver`) and `cpp_solver.dfy` (module `CppSolver`),
  one module per source file. Each holds:
  - the comparison operators;
  - a specification function for `place` (`Placed`, `CppPlaced`);
  - specification functions for `solve` (`Search` / `SearchFrom` / `Attempt`);
  - a class `Solver` whose `const`s are the board size and whose field `solution`
    is the global trace. Its methods `Place`, `Solve`, `Try` (the body of
    `solve`'s inner loop) and `Run` (the top level) are imperative code, proved
    equal to those functions.
- `equivalence.dfy` (module `Equivalence`): the two files' `place` functions
  differ in three ways, yet both searches return the same result on every input
  (`Equivalence.SearchAgree`).
  1. C++ checks the vertical fit before popping.
  2. C++ pushes the merged edge back on a horizontal failure.
  3. C++ appends the part inside `place`.

A search trial at a node is the pair `(idx, turn)`: piece `idx`, unrotated at
turn 0 and rotated at turn 1. `SearchFrom(.., idx, turn)` is the search from that
trial on. This matches the two nested loops of `solve`.

## Model

| member | source | states |
|---|---|---|
| Skyline.EdgeLess | solver.py:23-26 | `Edge.__lt__`. Its partner `EdgeLessIsLexicographic` proves it is the lexicographic order on `(y, x)`. |
| Skyline.MinIndex | solver.py:38 | The position `heappop` takes from is an index of the heap. Its partner `MinIndexIsMinimal` proves no edge is smaller than the one there. |
| Skyline.Lowest | solver.py:46 | `edges[0]`, the heap's top, is an edge of the heap. Its partner `LowestIsMinimal` proves it is the lowest, then left-most, edge. |
| Skyline.RemoveLowest | solver.py:48 | Popping leaves one edge fewer. Its partner `RemoveLowestMultiset` proves exactly the top is gone. |
| Skyline.EdgeQueue.Top | solver.cpp:73 | `edges.top()` is an edge of the heap, the one `Lowest` picks. |
| Skyline.MergeRun | solver.py:44-52 | The merge loop never grows the heap. Its partners `MergedEdge`, `MergeRemovesAbsorbed`, `MergeKeepsLength` and `MergeKeepsSkyline` state what the loop computes and preserves. |
| Skyline.PlacedEdges | solver.py:59-63 | The one or two edges pushed after a fit. Its partners `PlacedEdgesLength` and `PlacedEdgesReplace` prove they have the merged edge's length and cover exactly its columns. |
| Shapes.RemoveAt | solver.py:79 | `pieces[:idx] + pieces[idx+1:]` is one piece shorter. Its partners `RemoveAtMultiset` and `RemoveAtIndex` prove which piece goes and that the order is kept. |
| Shapes.Rotated | solver.cpp:105-107 | The rotated piece `Piece{height, width}` has the same area and is positive exactly when the piece is. |
| Shapes.Candidate | solver.py:72-74 | The piece tried at a turn (unrotated at turn 0, rotated at turn 1) is the list's piece up to rotation and has its area. |
| PySolver.PieceLess | solver.py:10-11 | `Piece.__lt__` by area. Its partner `SortedForPieceLess` proves the sorted list is in non-increasing order under it. |
| CppSolver.PieceGreater | solver.cpp:14-16 | `Piece::operator>` by area. Its partner `SortedForPieceGreater` proves the sorted vector is in non-increasing order under it. |
| CppSolver.CppEdgeLess | solver.cpp:28-33 | The reversed `Edge::operator<`. Its partner `TopIsLowest` proves it is `EdgeLess` turned around. |
| Skyline.EdgeLessIsLexicographic | solver.py:23-26 | `Edge.__lt__` is the lexicographic order on `(y, x)`. It is irreflexive and transitive, and it ranks any two edges with different keys. |
| Skyline.MinIndexIsMinimal | solver.py:38 | The index pop-min takes holds an edge that no edge of the heap is smaller than. |
| Skyline.LowestIsMinimal | solver.py:22-26 | The heap's top is the lowest edge and, among the lowest edges, the left-most one. |
| Skyline.SkylineKeysDistinct | solver.py:22-26 | On a skyline no two edges share a `(y, x)` key: two edges starting at the same column would both cover it. |
| Skyline.DistinctKeysRemoveAt | solver.py:48 | Taking an edge out of a heap with distinct keys keeps the keys distinct. |
| Skyline.LowestIsUnique | solver.py:22-26 | In a heap with distinct keys the top is strictly smaller than every other edge, so the heap's tie-breaking cannot change which edge is popped. |
| Skyline.PoppedHeaps | solver.py:44-52 | The heaps the merge loop pops from, one per absorbed edge: each is non-empty, and its top is the edge absorbed at that step. |
| Skyline.MergeKeepsDistinctKeys | solver.py:44-52 | Every heap the merge loop pops from (each one in `PoppedHeaps`) has distinct keys, and its top is strictly smaller than each of its other edges. The heap the loop leaves also has distinct keys; `place` pushes onto that heap, and C++ pushes the merged edge back onto it. |
| Skyline.RemoveLowestMultiset | solver.py:38 | Popping removes exactly the top edge and keeps every other edge. |
| Skyline.InitialSkyline | solver.py:104 | The single edge `Edge(0, 0, BOARD_WIDTH)` is a skyline: it covers every column once, and its length is the board's width. |
| Skyline.SkylineNotEmpty | solver.cpp:127-128 | A skyline over a board of positive width is never empty. |
| Skyline.PopKeepsSkyline | solver.py:38 | The popped top edge in hand plus the rest of the heap still form the skyline. |
| Skyline.MergedEdge | solver.py:44-52 | The merged edge keeps the popped edge's `x` and `y`. Its length is the popped edge's plus that of every absorbed edge. The absorbed edges form a contiguous run at the same height that starts where the popped edge ends. |
| Skyline.MergeRemovesAbsorbed | solver.py:44-52 | The heap loses exactly the absorbed edges, and no length is lost. The loop stops when the heap is empty or its top no longer adjoins the merged edge. |
| Skyline.MergeKeepsLength | solver.cpp:71-82 | The heap after the pop and the merge, plus the merged edge, is as long as the heap before the pop. |
| Skyline.MergeKeepsSkyline | solver.py:44-52 | The merged edge in hand plus what is left of the heap still partition the board's width. |
| Skyline.PlacedEdgesLength | solver.py:59-63 | The one or two pushed edges are together as long as the merged edge they replace. |
| Skyline.PlacedEdgesReplace | solver.py:59-63 | When the piece fits, the pushed edges cover exactly the merged edge's columns and lie inside the board's band. |
| Skyline.PlacementKeepsSkyline | solver.py:58-64 | Placing a piece that fits on the merged edge keeps the skyline, and the piece's columns and base lie inside the board. |
| Skyline.EdgeQueue.constructor | solver.cpp:127-128 | The heap starts with the given edges. |
| Skyline.EdgeQueue.Pop | solver.cpp:71 | `edges.pop()` removes the top and nothing else. |
| Skyline.EdgeQueue.PopLowest | solver.py:38 | `heappop` returns the top and removes it. |
| Skyline.EdgeQueue.Push | solver.py:60 | `heappush` adds the edge and keeps the others. |
| Skyline.EdgeQueue.MergeInto | solver.cpp:72-82 | The merge loop of both `place` functions leaves the edge in hand and the heap that `MergeRun` describes. The loop terminates because each pass pops one edge. |
| Skyline.EdgeQueue.Copy | solver.py:75 | `copy.deepcopy` gives a fresh heap with the same edges. |
| Shapes.RemoveAtMultiset | solver.py:79 | `pieces[:idx] + pieces[idx+1:]` removes exactly one occurrence of `pieces[idx]` and adds nothing. |
| Shapes.RemoveAtIndex | solver.cpp:111-114 | Removing index `i` keeps the pieces before `i` in place and shifts the ones after it down by one, so relative order is preserved. |
| Shapes.InsertByArea | solver.py:106 | Inserting into a list sorted by descending area keeps it sorted and adds exactly that piece. |
| Shapes.SortByAreaDesc | solver.py:106 | The sort's result has non-increasing area and is a permutation of its input. |
| Shapes.InsertByAreaClass | solver.py:106 | Inserting a piece puts it in front of every piece of its own area and changes nothing else in that area's order. |
| Shapes.SortByAreaDescIsStable | solver.py:106 | The sort is stable: for every area, the pieces of that area come out in the order they went in, as Python's `list.sort` guarantees. |
| Shapes.CanonicalAllOfPermutation | solver.py:106 | Sorting does not change which pieces there are, up to rotation. |
| PySolver.SortedForPieceLess | solver.py:10-11 | After `pieces.sort(reverse=True)` with `Piece.__lt__` (area), no piece is smaller than a later one, and the list holds the same pieces. |
| PySolver.Placed | solver.py:37-64 | On failure `place` returns `(False, -1, -1)`. It fails whenever the popped edge is too high, and then only that edge is gone. On success it returns the popped edge's `x` and `y` with `y + height <= BOARD_HEIGHT` and leaves a non-empty heap. |
| PySolver.PlacedFitsExactly | solver.py:37-64 | The piece fits if and only if it stays under the board's top and is no wider than the merged run. The new heap is the rest of the merge plus the pushed edges: one edge for an exact fit, two when the piece is narrower. |
| PySolver.PlacedKeepsSkyline | solver.py:58-64 | On a skyline, a successful placement lies inside the board and leaves a skyline: no gap, no overlap, the same total length. |
| PySolver.PlacedKeepsLength | solver.py:58-63 | A successful placement keeps the heap's total edge length, from any heap. |
| PySolver.PlacedFailureDropsEdges | solver.py:38-56 | A failed placement leaves its heap copy shorter than the board's width, because the popped and merged edges are not pushed back. |
| PySolver.Search | solver.py:66-83 | A found solution has exactly one part per piece. |
| PySolver.SearchFrom | solver.py:71-83 | A solution found from any trial on has one part per piece. |
| PySolver.Attempt | solver.py:75-82 | A successful trial yields one part per piece. |
| PySolver.SearchFromFailureIsExhaustive | solver.py:71-83 | When the search from a trial fails, every later trial (each index, unrotated then rotated) does not fit or leads to a failing subtree. |
| PySolver.SearchFromFailsIfAllFail | solver.py:71-83 | Conversely, the search fails once every trial from there on fails: no trial is skipped. |
| PySolver.SearchFailsIffEveryTrialFails | solver.py:71-83 | `solve` on a non-empty list returns False if and only if every piece, in both orientations, fails to fit or leaves a failing search. |
| PySolver.SearchInBoard | solver.py:66-83 | Starting from a skyline with positive pieces, every part of a found solution lies inside the board. |
| PySolver.SearchFromInBoard | solver.py:71-83 | The same, for the search from any trial on. |
| PySolver.AttemptInBoard | solver.py:75-82 | The same, for one trial: its part and every part below it lie inside the board. |
| PySolver.SearchUsesEachPiece | solver.py:78-80 | A found solution uses every piece exactly once, up to rotation. |
| PySolver.SearchFromUsesEachPiece | solver.py:71-83 | The same, for the search from any trial on. |
| PySolver.AttemptUsesEachPiece | solver.py:78-80 | The same, for one trial: its part plus the parts found for the remaining pieces. |
| PySolver.Solver.constructor | solver.py:103 | The solver starts with the board size and an empty `solution`. |
| PySolver.Solver.Place | solver.py:37-64 | `place` mutates the heap it is given into exactly what `Placed` describes and returns `Placed`'s `(fits, x, y)`. |
| PySolver.Solver.Solve | solver.py:66-83 | `solve` never changes its heap argument and returns True exactly when `Search` finds a solution. On True, `solution` has grown by exactly the parts found, one per piece. On False, `solution` is as it was on entry. |
| PySolver.Solver.Try | solver.py:73-82 | One trial on a copy of the heap. It leaves the caller's heap untouched. On success `solution` grows by what the search from this trial finds. On failure `solution` is restored and the search moves on to the next trial. |
| PySolver.Solver.Run | solver.py:103-107 | The top level: sort, single initial edge, `solve`. A solution it finds has one part per piece and uses every piece once up to rotation. With a positive board width and positive pieces, every part lies inside the board. On failure `solution` is empty. |
| CppSolver.TopIsLowest | solver.cpp:28-33 | The reversed `Edge::operator<` is the `(y, x)` order turned around, so the max-heap's top is the lowest, then left-most, edge. |
| CppSolver.SortedForPieceGreater | solver.cpp:126 | After `std::sort` with `std::greater<Piece>` (area), no piece compares greater than one before it, and the vector holds the same pieces. |
| CppSolver.CppPlaced | solver.cpp:66-96 | A piece too high for the top edge changes nothing. A part is recorded only on success: it is the piece at the top edge's `x` and `y`, with `y + height <= BOARD_HEIGHT`. The heap is never left empty. |
| CppSolver.CppPlacedKeepsLength | solver.cpp:66-96 | `place` keeps the heap's total edge length from any heap, on success and on both failures. |
| CppSolver.CppPlacedKeepsSkyline | solver.cpp:66-96 | On a skyline, `place` always leaves a skyline of the same total length, and a recorded part lies inside the board. |
| CppSolver.CppSearch | solver.cpp:98-123 | A found solution has exactly one part per piece. |
| CppSolver.CppSearchFrom | solver.cpp:102-122 | A solution found from any trial on has one part per piece. |
| CppSolver.CppAttempt | solver.cpp:108-119 | A successful trial yields one part per piece. |
| CppSolver.CppSearchInBoard | solver.cpp:98-123 | Starting from a skyline with positive pieces, every part of a found solution lies inside the board. |
| CppSolver.CppSearchFromInBoard | solver.cpp:102-122 | The same, for the search from any trial on. |
| CppSolver.CppAttemptInBoard | solver.cpp:108-119 | The same, for one trial. |
| CppSolver.Solver.constructor | solver.cpp:64 | The solver starts with the board size and an empty `solution`. |
| CppSolver.Solver.Place | solver.cpp:66-96 | `place` mutates the heap into exactly what `CppPlaced` describes. It returns true exactly when a part is recorded and appends exactly that part to `solution`. On false, `solution` is unchanged. |
| CppSolver.Solver.Solve | solver.cpp:98-123 | `solve` works on its own copy of the heap and returns true exactly when `CppSearch` finds a solution. On true, `solution` has grown by exactly those parts. On false, the `pop_back` undo restores `solution`. |
| CppSolver.Solver.Try | solver.cpp:105-119 | One trial on a copy of the heap. On success `solution` grows by what the search from this trial finds. On failure it is restored and the search moves on to the next trial. |
| CppSolver.Solver.Run | solver.cpp:125-130 | `main` without clock and output: sort, single initial edge, `solve`. A solution has one part per piece, and `Equivalence.CppTopLevelUsesEachPiece` shows it uses every piece once up to rotation; with a positive board width and positive pieces, every part lies inside the board. |
| Equivalence.PlacedAgree | solver.cpp:66-96 | Both `place` functions agree on whether the piece fits. On a fit they agree on the part's position and on the heap they leave. |
| Equivalence.SearchAgree | solver.cpp:98-123 | The two `solve` functions find the same solution, or both fail, from any heap. |
| Equivalence.SearchFromAgree | solver.cpp:102-122 | The same, from any trial on. |
| Equivalence.AttemptAgree | solver.cpp:108-119 | The same, for one trial. |
| Equivalence.CppSearchUsesEachPiece | solver.cpp:111-115 | A solution the C++ search finds uses every piece exactly once, up to rotation. |
| Equivalence.CppTopLevelUsesEachPiece | solver.cpp:125-130 | The C++ top level: a solution found for the area-sorted pieces on the single initial edge uses every input piece exactly once, up to rotation, as the Python top level does. |

## Left out

- `main` (solver.cpp:125-141) and the Python module's top level are left out beyond the sort, the initial edge and the call to `solve`. Clock readings and console output are I/O.
- The `toString` / `__str__` members and the printing loop in Python's base case (solver.py:68-69) are presentation only and are not modelled.
- The hard-coded Calibron 12 board and pieces are parameters here. The outcome of the 56x56 instance, an exponential search, is not stated.
- The heaps' internal layout and tie-breaking for equal keys are not modelled. The heap is its contents, and pop-min takes the first edge with the least `(y, x)` key. `Skyline.SkylineKeysDistinct` shows that on a skyline no two edges share a key, and `Skyline.MergeKeepsDistinctKeys` that every heap the merge loop pops from (`Skyline.PoppedHeaps`) and the heap it leaves keep that property. By `Skyline.LowestIsUnique` each of those pops takes an edge strictly smaller than all the others, so any heap pops the same edge.
- A copy of the heap is a value copy (`EdgeQueue.Copy`). Aliasing between heaps does not arise in either source file.
- Integers are unbounded. The 32-bit `int` arithmetic of the C++ file (area products in `operator>`, edge coordinate sums) is assumed not to overflow, which holds for boards of realistic size.
- Python's `pieces.sort` is stable and `std::sort` is not. Both are modelled by one stable sort (`SortByAreaDesc`). For C++ this is one of the orders `std::sort` may produce, so pieces of equal area may come out in a different order there.
- `Solve` requires `|pieces| > 0 ==> |edges.items| > 0`. The source pops from an empty heap in that case. In Python `heappop` raises `IndexError`; in C++ `edges.top()` on an empty `std::priority_queue` is undefined behaviour, not a reported error. Starting from `Edge(0, 0, BOARD_WIDTH)` this cannot happen, because `Placed`/`CppPlaced` never leave an empty heap after a fit.
- Search completeness (a tiling is found whenever one exists) and pairwise no-overlap of the placed pieces are not stated. Neither file claims them. The model states the per-node exhaustiveness of the search (`SearchFailsIffEveryTrialFails`) and in-board placement instead.
- The body of `solve`'s inner loop is a method of its own (`Try` in each solver), so that each proof stays small. Its contract is stated through the search from its own trial (`SearchFrom`).
