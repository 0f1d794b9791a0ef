/** solver.cpp: the same skyline placement and backtracking search as the
    Python file, written against `std::priority_queue` and a global
    `std::vector<SolutionPart>`. Its `place` differs in three ways: it checks
    the vertical fit before popping, it pushes the merged edge back when the
    piece is too wide, and it appends the part to `solution` itself. */
module CppSolver {
  import opened Shapes
  import opened Skyline

  /** `Edge::operator<`, reversed so that the max-heap `std::priority_queue`
      has the lowest, then left-most, edge on top: a ranks below b when a lies
      higher, or at the same height further right. */
  predicate CppEdgeLess(a: Edge, b: Edge) {
    if a.y == b.y then a.x > b.x else a.y > b.y
  }

  /** The reversed order is the (y, x) order turned around, and the edge on top
      of the max-heap, one that no edge ranks above, is the lowest, then
      left-most one. */
  lemma TopIsLowest(q: seq<Edge>)
    requires |q| > 0
    ensures forall a, b :: CppEdgeLess(a, b) <==> EdgeLess(b, a)
    ensures forall f | f in q :: !CppEdgeLess(Lowest(q), f)
  {
    LowestIsMinimal(q);
  }

  /** `Piece::operator>`: pieces are compared by area. */
  predicate PieceGreater(a: Piece, b: Piece) {
    a.width * a.height > b.width * b.height
  }

  /** `std::sort(pieces.begin(), pieces.end(), std::greater<Piece>())`: no piece
      compares greater than a piece before it, and the vector holds the same
      pieces. */
  lemma SortedForPieceGreater(pieces: seq<Piece>)
    ensures var r := SortByAreaDesc(pieces);
      && (forall i, j :: 0 <= i < j < |r| ==> !PieceGreater(r[j], r[i]))
      && multiset(r) == multiset(pieces)
  {
    var r := SortByAreaDesc(pieces);
    forall i, j | 0 <= i < j < |r| ensures !PieceGreater(r[j], r[i]) {
      assert Area(r[i]) >= Area(r[j]);
    }
  }

  /** What `place` does: the part it appends to `solution` when it returns
      true (None when it returns false), and the heap it leaves. */
  datatype CppPlacement = CppPlacement(part: Option<SolutionPart>, edges: seq<Edge>)

  /** `place(piece, edges)`: look at the top edge and give up, touching nothing,
      if the piece would stick out above the board; otherwise pop it, merge the
      contiguous edges at that height into it, and push the merged edge back
      and give up if the piece is wider than it; else append the part and push
      the piece's top edge and the uncovered remainder. */
  function CppPlaced(piece: Piece, q: seq<Edge>, boardHeight: int): (r: CppPlacement)
    requires |q| > 0
    ensures piece.height + Lowest(q).y > boardHeight ==> r == CppPlacement(None, q)
    ensures r.part.Some? ==> r.part.value.piece == piece && r.part.value.x == Lowest(q).x && r.part.value.y == Lowest(q).y
    ensures r.part.Some? ==> r.part.value.y + piece.height <= boardHeight
    ensures |r.edges| > 0
  {
    var e := Lowest(q);
    if piece.height + e.y > boardHeight then
      CppPlacement(None, q)
    else
      var (m, rest) := MergeRun(e, RemoveLowest(q));
      MergedEdge(e, RemoveLowest(q));
      if piece.width > m.length then
        CppPlacement(None, rest + [m])
      else
        CppPlacement(Some(SolutionPart(piece, m.x, m.y)), rest + PlacedEdges(m, piece))
  }

  /** Once the vertical check has passed and the merge loop has left the edge m
      in hand and the heap rest, the outcome depends only on m's length. */
  lemma CppPlacedAfterMerge(piece: Piece, q: seq<Edge>, boardHeight: int, m: Edge, rest: seq<Edge>)
    requires |q| > 0 && piece.height + Lowest(q).y <= boardHeight
    requires MergeRun(Lowest(q), RemoveLowest(q)) == (m, rest)
    ensures CppPlaced(piece, q, boardHeight) ==
      if piece.width > m.length then CppPlacement(None, rest + [m])
      else CppPlacement(Some(SolutionPart(piece, m.x, m.y)), rest + PlacedEdges(m, piece))
  {
  }

  /** `place` never changes the total length of the edges, from any heap and
      whatever the outcome: a vertical failure touches nothing, a horizontal
      failure pushes the merged edge back, and a fit replaces the merged edge
      by edges of the same total length. */
  lemma CppPlacedKeepsLength(piece: Piece, q: seq<Edge>, boardHeight: int)
    requires |q| > 0
    ensures TotalLength(CppPlaced(piece, q, boardHeight).edges) == TotalLength(q)
  {
    if piece.height + Lowest(q).y <= boardHeight {
      MergeKeepsLength(q);
      var mr := MergeRun(Lowest(q), RemoveLowest(q));
      CppPlacedAfterMerge(piece, q, boardHeight, mr.0, mr.1);
      TotalLengthAppend(mr.1, [mr.0]);
      assert TotalLength([mr.0]) == mr.0.length;
      TotalLengthAppend(mr.1, PlacedEdges(mr.0, piece));
      PlacedEdgesLength(mr.0, piece);
    }
  }

  /** On a skyline `place` always leaves a skyline over the same width: on
      success the part lies inside the board, and on either failure the heap
      covers the same columns as before (with the run at the lowest height
      merged into one edge after a horizontal failure). */
  lemma CppPlacedKeepsSkyline(piece: Piece, q: seq<Edge>, width: int, height: int)
    requires IsSkyline(q, width, height) && |q| > 0 && Positive(piece)
    ensures var r := CppPlaced(piece, q, height);
      && IsSkyline(r.edges, width, height)
      && TotalLength(r.edges) == TotalLength(q)
      && (r.part.Some? ==> InBoard(r.part.value, width, height))
  {
    var e := Lowest(q);
    if piece.height + e.y <= height {
      PopKeepsSkyline(q, width, height);
      MergeKeepsSkyline(e, RemoveLowest(q), width, height);
      var mr := MergeRun(e, RemoveLowest(q));
      var m, rest := mr.0, mr.1;
      CppPlacedAfterMerge(piece, q, height, m, rest);
      if piece.width <= m.length {
        PlacementKeepsSkyline(rest, m, piece, width, height);
      }
    }
  }

  /** `solve(pieces, edges)`: the parts it leaves appended to `solution` when
      it returns true, or None when it returns false. */
  function CppSearch(pieces: seq<Piece>, q: seq<Edge>, boardHeight: int): (r: Option<seq<SolutionPart>>)
    requires |pieces| > 0 ==> |q| > 0
    ensures r.Some? ==> |r.value| == |pieces|
    decreases |pieces|, 1
  {
    if |pieces| < 1 then Some([]) else CppSearchFrom(pieces, q, boardHeight, 0, 0)
  }

  /** The search at one node from index i, turn `turn` on: the first trial
      whose attempt succeeds wins; turn 2 moves on to the next index. */
  function CppSearchFrom(pieces: seq<Piece>, q: seq<Edge>, boardHeight: int, i: nat, turn: nat): (r: Option<seq<SolutionPart>>)
    requires |q| > 0 && i <= |pieces| && turn <= 2
    ensures r.Some? ==> |r.value| == |pieces|
    decreases |pieces|, 0, |pieces| - i, 2 - turn
  {
    if i == |pieces| then None
    else if turn == 2 then CppSearchFrom(pieces, q, boardHeight, i + 1, 0)
    else
      var a := CppAttempt(pieces, q, boardHeight, i, Candidate(pieces, i, turn));
      if a.Some? then a else CppSearchFrom(pieces, q, boardHeight, i, turn + 1)
  }

  /** One trial at a node: `place` on a copy of the heap, which appends the
      part on a fit; then the search of the pieces other than i on that
      copy. */
  function CppAttempt(pieces: seq<Piece>, q: seq<Edge>, boardHeight: int, i: nat, piece: Piece): (r: Option<seq<SolutionPart>>)
    requires |q| > 0 && i < |pieces|
    ensures r.Some? ==> |r.value| == |pieces|
    decreases |pieces|, 0, 0, 0
  {
    var o := CppPlaced(piece, q, boardHeight);
    if o.part.Some? then
      match CppSearch(RemoveAt(pieces, i), o.edges, boardHeight)
      case Some(rest) => Some([o.part.value] + rest)
      case None => None
    else
      None
  }

  /** Every part of a found solution lies inside the board, provided the search
      starts from a skyline and the pieces have positive sides. */
  lemma {:induction false} CppSearchInBoard(pieces: seq<Piece>, q: seq<Edge>, width: int, height: int)
    requires IsSkyline(q, width, height) && AllPositive(pieces) && (|pieces| > 0 ==> |q| > 0)
    requires CppSearch(pieces, q, height).Some?
    ensures forall part | part in CppSearch(pieces, q, height).value :: InBoard(part, width, height)
    decreases |pieces|, 1
  {
    if |pieces| > 0 {
      CppSearchFromInBoard(pieces, q, width, height, 0, 0);
    }
  }

  lemma {:induction false} CppSearchFromInBoard(pieces: seq<Piece>, q: seq<Edge>, width: int, height: int, i: nat, turn: nat)
    requires IsSkyline(q, width, height) && AllPositive(pieces) && |q| > 0 && i <= |pieces| && turn <= 2
    requires CppSearchFrom(pieces, q, height, i, turn).Some?
    ensures forall part | part in CppSearchFrom(pieces, q, height, i, turn).value :: InBoard(part, width, height)
    decreases |pieces|, 0, |pieces| - i, 2 - turn
  {
    if turn == 2 {
      CppSearchFromInBoard(pieces, q, width, height, i + 1, 0);
    } else if CppAttempt(pieces, q, height, i, Candidate(pieces, i, turn)).Some? {
      assert pieces[i] in pieces;
      CppAttemptInBoard(pieces, q, width, height, i, Candidate(pieces, i, turn));
    } else {
      CppSearchFromInBoard(pieces, q, width, height, i, turn + 1);
    }
  }

  lemma {:induction false} CppAttemptInBoard(pieces: seq<Piece>, q: seq<Edge>, width: int, height: int, i: nat, piece: Piece)
    requires IsSkyline(q, width, height) && AllPositive(pieces) && |q| > 0 && i < |pieces|
    requires Positive(piece)
    requires CppAttempt(pieces, q, height, i, piece).Some?
    ensures forall part | part in CppAttempt(pieces, q, height, i, piece).value :: InBoard(part, width, height)
    decreases |pieces|, 0, 0, 0
  {
    var o := CppPlaced(piece, q, height);
    var smaller := RemoveAt(pieces, i);
    RemoveAtMultiset(pieces, i);
    CppPlacedKeepsSkyline(piece, q, width, height);
    CppSearchInBoard(smaller, o.edges, width, height);
    var rest := CppSearch(smaller, o.edges, height).value;
    forall part | part in [o.part.value] + rest ensures InBoard(part, width, height) {
      if part != o.part.value {
        assert part in rest;
      }
    }
  }

  // ---------------------------------------------------------------------------
  // The imperative code.

  class Solver {
    /** BOARD_WIDTH and BOARD_HEIGHT. */
    const boardWidth: int
    const boardHeight: int
    /** The global `solution` vector. */
    var solution: seq<SolutionPart>

    constructor (width: int, height: int)
      ensures boardWidth == width && boardHeight == height && solution == []
    {
      boardWidth := width;
      boardHeight := height;
      solution := [];
    }

    /** `place`: mutates the heap it is given by reference, and appends the
        part to `solution` exactly when it returns true. */
    method Place(piece: Piece, edges: EdgeQueue) returns (fits: bool)
      requires |edges.items| > 0
      modifies this, edges
      ensures var r := CppPlaced(piece, old(edges.items), boardHeight);
        fits == r.part.Some? && edges.items == r.edges
      ensures fits ==> solution == old(solution) + [CppPlaced(piece, old(edges.items), boardHeight).part.value]
      ensures !fits ==> solution == old(solution)
    {
      ghost var q0 := edges.items;
      var edgeToInsertOn := edges.Top();
      if piece.height + edgeToInsertOn.y > boardHeight {
        return false;
      }
      edges.Pop();
      edgeToInsertOn := edges.MergeInto(edgeToInsertOn);
      CppPlacedAfterMerge(piece, q0, boardHeight, edgeToInsertOn, edges.items);
      ghost var rest := edges.items;
      if piece.width > edgeToInsertOn.length {
        edges.Push(edgeToInsertOn);
        return false;
      }
      solution := solution + [SolutionPart(piece, edgeToInsertOn.x, edgeToInsertOn.y)];
      if edgeToInsertOn.length == piece.width {
        edges.Push(Edge(edgeToInsertOn.x, edgeToInsertOn.y + piece.height, piece.width));
      } else {
        edges.Push(Edge(edgeToInsertOn.x, edgeToInsertOn.y + piece.height, piece.width));
        edges.Push(Edge(edgeToInsertOn.x + piece.width, edgeToInsertOn.y, edgeToInsertOn.length - piece.width));
      }
      PushedPlacedEdges(rest, edgeToInsertOn, piece, edges.items);
      return true;
    }

    /** `solve`: on success `solution` has grown by the parts the search
        found, one per piece; on failure it is as it was. Its queue is passed
        by value, so the caller's heap is never touched. */
    method Solve(pieces: seq<Piece>, edges: EdgeQueue) returns (found: bool)
      requires |pieces| > 0 ==> |edges.items| > 0
      modifies this
      ensures unchanged(edges)
      ensures found == CppSearch(pieces, edges.items, boardHeight).Some?
      ensures found ==> solution == old(solution) + CppSearch(pieces, edges.items, boardHeight).value
      ensures !found ==> solution == old(solution)
      decreases |pieces|, 1
    {
      if |pieces| < 1 {
        return true;
      }
      ghost var q := edges.items;
      ghost var result := CppSearchFrom(pieces, q, boardHeight, 0, 0);
      for i := 0 to |pieces|
        invariant edges.items == q
        invariant solution == old(solution)
        invariant result == CppSearchFrom(pieces, q, boardHeight, i, 0)
      {
        var curPiece := pieces[i];
        for turn := 0 to 2
          invariant edges.items == q
          invariant solution == old(solution)
          invariant turn < 2 ==> curPiece == pieces[i]
          invariant result == CppSearchFrom(pieces, q, boardHeight, i, turn)
        {
          var rotate := turn == 1;
          if rotate {
            curPiece := Piece(curPiece.height, curPiece.width);
          }
          var solved := Try(pieces, edges, i, turn, curPiece);
          if solved {
            return true;
          }
        }
      }
      return false;
    }

    /** The body of `solve`'s inner loop: `place` on a copy of the queue, which
        appends the part on a fit; then search the other pieces on that copy,
        and `pop_back` the part when that search fails. */
    method Try(pieces: seq<Piece>, edges: EdgeQueue, i: nat, turn: nat, curPiece: Piece) returns (solved: bool)
      requires |edges.items| > 0 && i < |pieces| && turn < 2
      requires curPiece == Candidate(pieces, i, turn)
      modifies this
      ensures unchanged(edges)
      ensures solved ==> CppSearchFrom(pieces, edges.items, boardHeight, i, turn).Some?
      ensures solved ==> solution == old(solution) + CppSearchFrom(pieces, edges.items, boardHeight, i, turn).value
      ensures !solved ==> CppSearchFrom(pieces, edges.items, boardHeight, i, turn) == CppSearchFrom(pieces, edges.items, boardHeight, i, turn + 1)
      ensures !solved ==> solution == old(solution)
      decreases |pieces|, 0
    {
      ghost var o := CppPlaced(curPiece, edges.items, boardHeight);
      var edgesCopy := edges.Copy();
      var placed := Place(curPiece, edgesCopy);
      if placed {
        ghost var withPart := solution;
        assert withPart == old(solution) + [o.part.value];
        var newPieces := pieces[..i] + pieces[i + 1..];
        solved := Solve(newPieces, edgesCopy);
        if solved {
          return;
        }
        assert solution == withPart;
        solution := solution[..|solution| - 1];
      }
      return false;
    }

    /** `main` without the clock and the output: the `std::greater` sort, the
        queue built from the single edge `Edge{0, 0, BOARD_WIDTH}`, then
        `solve`. A solution it finds has one part per piece, each inside the
        board. */
    method Run(pieces: seq<Piece>) returns (solved: bool)
      modifies this
      ensures var r := CppSearch(SortByAreaDesc(pieces), [Edge(0, 0, boardWidth)], boardHeight);
        && solved == r.Some?
        && solution == (if solved then r.value else [])
      ensures solved ==> |solution| == |pieces|
      ensures solved && boardWidth > 0 && boardHeight >= 0 && AllPositive(pieces) ==>
        forall part | part in solution :: InBoard(part, boardWidth, boardHeight)
    {
      solution := [];
      var sorted := SortByAreaDesc(pieces);
      var edges := new EdgeQueue([Edge(0, 0, boardWidth)]);
      solved := Solve(sorted, edges);
      if solved {
        assert |sorted| == |pieces| by {
          assert |multiset(sorted)| == |multiset(pieces)|;
        }
        if boardWidth > 0 && boardHeight >= 0 && AllPositive(pieces) {
          InitialSkyline(boardWidth, boardHeight);
          SortKeepsPositive(pieces);
          CppSearchInBoard(sorted, [Edge(0, 0, boardWidth)], boardWidth, boardHeight);
        }
      }
    }
  }
}
