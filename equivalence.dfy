/** The two source files are near-duplicates whose `place` functions differ in
    what they do to the heap when a piece does not fit and in where the part is
    recorded. Neither difference changes what the search finds: a failed
    placement's heap is a copy that is thrown away. */
module Equivalence {
  import opened Shapes
  import opened Skyline
  import PySolver
  import CppSolver

  /** Both `place` functions agree on whether the piece fits, and when it does,
      on where it goes and on the heap they leave. */
  lemma PlacedAgree(piece: Piece, q: seq<Edge>, boardHeight: int)
    requires |q| > 0
    ensures var p := PySolver.Placed(piece, q, boardHeight);
      var c := CppSolver.CppPlaced(piece, q, boardHeight);
      && (p.fits <==> c.part.Some?)
      && (p.fits ==> c.part.value == SolutionPart(piece, p.x, p.y) && c.edges == p.edges)
  {
  }

  /** The two searches find the same solution, or both fail, from any heap. */
  lemma {:induction false} SearchAgree(pieces: seq<Piece>, q: seq<Edge>, boardHeight: int)
    requires |pieces| > 0 ==> |q| > 0
    ensures CppSolver.CppSearch(pieces, q, boardHeight) == PySolver.Search(pieces, q, boardHeight)
    decreases |pieces|, 1
  {
    if |pieces| > 0 {
      SearchFromAgree(pieces, q, boardHeight, 0, 0);
    }
  }

  lemma {:induction false} SearchFromAgree(pieces: seq<Piece>, q: seq<Edge>, boardHeight: int, idx: nat, turn: nat)
    requires |q| > 0 && idx <= |pieces| && turn <= 2
    ensures CppSolver.CppSearchFrom(pieces, q, boardHeight, idx, turn) == PySolver.SearchFrom(pieces, q, boardHeight, idx, turn)
    decreases |pieces|, 0, |pieces| - idx, 2 - turn
  {
    if idx < |pieces| {
      if turn == 2 {
        SearchFromAgree(pieces, q, boardHeight, idx + 1, 0);
      } else {
        AttemptAgree(pieces, q, boardHeight, idx, Candidate(pieces, idx, turn));
        SearchFromAgree(pieces, q, boardHeight, idx, turn + 1);
      }
    }
  }

  lemma {:induction false} AttemptAgree(pieces: seq<Piece>, q: seq<Edge>, boardHeight: int, idx: nat, piece: Piece)
    requires |q| > 0 && idx < |pieces|
    ensures CppSolver.CppAttempt(pieces, q, boardHeight, idx, piece) == PySolver.Attempt(pieces, q, boardHeight, idx, piece)
    decreases |pieces|, 0, 0, 0
  {
    PlacedAgree(piece, q, boardHeight);
    var o := PySolver.Placed(piece, q, boardHeight);
    if o.fits {
      SearchAgree(RemoveAt(pieces, idx), o.edges, boardHeight);
    }
  }

  /** A solution the C++ search finds uses every piece exactly once, up to
      rotation. */
  lemma CppSearchUsesEachPiece(pieces: seq<Piece>, q: seq<Edge>, boardHeight: int)
    requires |pieces| > 0 ==> |q| > 0
    requires CppSolver.CppSearch(pieces, q, boardHeight).Some?
    ensures multiset(CanonicalAll(PiecesOf(CppSolver.CppSearch(pieces, q, boardHeight).value))) == multiset(CanonicalAll(pieces))
  {
    SearchAgree(pieces, q, boardHeight);
    PySolver.SearchUsesEachPiece(pieces, q, boardHeight);
  }

  /** The C++ top level: a solution found for the area-sorted pieces on the
      single initial edge uses every input piece exactly once, up to rotation,
      as `PySolver.Solver.Run` promises for the Python one. */
  lemma CppTopLevelUsesEachPiece(pieces: seq<Piece>, boardWidth: int, boardHeight: int)
    requires CppSolver.CppSearch(SortByAreaDesc(pieces), [Edge(0, 0, boardWidth)], boardHeight).Some?
    ensures var parts := CppSolver.CppSearch(SortByAreaDesc(pieces), [Edge(0, 0, boardWidth)], boardHeight).value;
      multiset(CanonicalAll(PiecesOf(parts))) == multiset(CanonicalAll(pieces))
  {
    var sorted := SortByAreaDesc(pieces);
    CppSearchUsesEachPiece(sorted, [Edge(0, 0, boardWidth)], boardHeight);
    CanonicalAllOfPermutation(sorted, pieces);
  }
}
