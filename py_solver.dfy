/** solver.py: the skyline placement `place` and the backtracking search
    `solve`, with the board size and the global `solution` list held by a
    Solver object. */
module PySolver {
  import opened Shapes
  import opened Skyline

  /** `Piece.__lt__`: pieces are ordered by area. */
  predicate PieceLess(a: Piece, b: Piece) {
    a.width * a.height < b.width * b.height
  }

  /** `pieces.sort(reverse=True)`: afterwards no piece is smaller than a piece
      after it, and the list holds the same pieces. */
  lemma SortedForPieceLess(pieces: seq<Piece>)
    ensures var r := SortByAreaDesc(pieces);
      && (forall i, j :: 0 <= i < j < |r| ==> !PieceLess(r[i], r[j]))
      && multiset(r) == multiset(pieces)
  {
    var r := SortByAreaDesc(pieces);
    forall i, j | 0 <= i < j < |r| ensures !PieceLess(r[i], r[j]) {
      assert Area(r[i]) >= Area(r[j]);
    }
  }

  /** What `place` returns, `(fits, x, y)`, together with the heap it leaves. */
  datatype Placement = Placement(fits: bool, x: int, y: int, edges: seq<Edge>)

  /** `place(piece, edges)`: pop the lowest edge; give up if the piece would
      stick out above the board; otherwise merge the contiguous edges at that
      height into it, give up if the piece is wider than the merged run, and
      else push the piece's top edge and the uncovered remainder. On failure
      the popped and merged edges are not pushed back. */
  function Placed(piece: Piece, q: seq<Edge>, boardHeight: int): (r: Placement)
    requires |q| > 0
    ensures !r.fits ==> r.x == -1 && r.y == -1
    ensures piece.height + Lowest(q).y > boardHeight ==> !r.fits && r.edges == RemoveLowest(q)
    ensures r.fits ==> r.x == Lowest(q).x && r.y == Lowest(q).y && r.y + piece.height <= boardHeight
    ensures r.fits ==> |r.edges| > 0
  {
    var e := Lowest(q);
    if piece.height + e.y > boardHeight then
      Placement(false, -1, -1, RemoveLowest(q))
    else
      var (m, rest) := MergeRun(e, RemoveLowest(q));
      MergedEdge(e, RemoveLowest(q));
      if piece.width > m.length then
        Placement(false, -1, -1, rest)
      else
        Placement(true, m.x, m.y, rest + PlacedEdges(m, piece))
  }

  /** The piece fits exactly when it stays under the board's top and is no wider
      than the run of contiguous edges at the lowest height; then the new heap is
      what is left of that run's merge plus the pushed edges. */
  lemma PlacedFitsExactly(piece: Piece, q: seq<Edge>, boardHeight: int)
    requires |q| > 0
    ensures var (m, rest) := MergeRun(Lowest(q), RemoveLowest(q));
      var r := Placed(piece, q, boardHeight);
      && (r.fits <==> Lowest(q).y + piece.height <= boardHeight && piece.width <= m.length)
      && (r.fits ==> r.edges == rest + PlacedEdges(m, piece) && |r.edges| == |rest| + (if piece.width < m.length then 2 else 1))
  {
  }

  /** Once the vertical check has passed and the merge loop has left the edge m
      in hand and the heap rest, the outcome depends only on m's length. */
  lemma PlacedAfterMerge(piece: Piece, q: seq<Edge>, boardHeight: int, m: Edge, rest: seq<Edge>)
    requires |q| > 0 && piece.height + Lowest(q).y <= boardHeight
    requires MergeRun(Lowest(q), RemoveLowest(q)) == (m, rest)
    ensures Placed(piece, q, boardHeight) ==
      if piece.width > m.length then Placement(false, -1, -1, rest)
      else Placement(true, m.x, m.y, rest + PlacedEdges(m, piece))
  {
  }

  /** On a skyline, a successful placement lies inside the board and leaves a
      skyline over the same width: no gap, no overlap, the same total length. */
  lemma PlacedKeepsSkyline(piece: Piece, q: seq<Edge>, width: int, height: int)
    requires IsSkyline(q, width, height) && |q| > 0 && Positive(piece)
    requires Placed(piece, q, height).fits
    ensures var r := Placed(piece, q, height);
      && IsSkyline(r.edges, width, height)
      && InBoard(SolutionPart(piece, r.x, r.y), width, height)
  {
    var e := Lowest(q);
    PopKeepsSkyline(q, width, height);
    MergeKeepsSkyline(e, RemoveLowest(q), width, height);
    var (m, rest) := MergeRun(e, RemoveLowest(q));
    PlacementKeepsSkyline(rest, m, piece, width, height);
  }

  /** A successful placement keeps the total length of the edges, from any
      heap. */
  lemma PlacedKeepsLength(piece: Piece, q: seq<Edge>, boardHeight: int)
    requires |q| > 0 && Placed(piece, q, boardHeight).fits
    ensures TotalLength(Placed(piece, q, boardHeight).edges) == TotalLength(q)
  {
    MergeKeepsLength(q);
    var mr := MergeRun(Lowest(q), RemoveLowest(q));
    TotalLengthAppend(mr.1, PlacedEdges(mr.0, piece));
    PlacedEdgesLength(mr.0, piece);
  }

  /** A failed placement leaves the copy of the heap short of edges: its total
      length drops below the board's width, so it is no skyline any more. The
      search never uses such a copy again. */
  lemma PlacedFailureDropsEdges(piece: Piece, q: seq<Edge>, width: int, height: int)
    requires IsSkyline(q, width, height) && |q| > 0
    requires !Placed(piece, q, height).fits
    ensures TotalLength(Placed(piece, q, height).edges) < width
  {
    var e := Lowest(q);
    PopKeepsSkyline(q, width, height);
    TotalLengthAppend(RemoveLowest(q), [e]);
    assert TotalLength([e]) == e.length;
    if piece.height + e.y <= height {
      MergeKeepsSkyline(e, RemoveLowest(q), width, height);
      var (m, rest) := MergeRun(e, RemoveLowest(q));
      assert m in rest + [m];
      TotalLengthAppend(rest, [m]);
      assert TotalLength([m]) == m.length;
    }
  }

  // ---------------------------------------------------------------------------
  // The search.

  /** `solve(pieces, edges)`: the parts it appends to `solution` when it
      returns True, or None when it returns False. */
  function Search(pieces: seq<Piece>, q: seq<Edge>, boardHeight: int): (r: Option<seq<SolutionPart>>)
    requires |pieces| > 0 ==> |q| > 0
    ensures r.Some? ==> |r.value| == |pieces|
    decreases |pieces|, 1
  {
    if |pieces| < 1 then Some([]) else SearchFrom(pieces, q, boardHeight, 0, 0)
  }

  /** The search at one node from index idx, turn `turn` on: the first trial
      whose attempt succeeds wins; turn 2 moves on to the next index. */
  function SearchFrom(pieces: seq<Piece>, q: seq<Edge>, boardHeight: int, idx: nat, turn: nat): (r: Option<seq<SolutionPart>>)
    requires |q| > 0 && idx <= |pieces| && turn <= 2
    ensures r.Some? ==> |r.value| == |pieces|
    decreases |pieces|, 0, |pieces| - idx, 2 - turn
  {
    if idx == |pieces| then None
    else if turn == 2 then SearchFrom(pieces, q, boardHeight, idx + 1, 0)
    else
      var a := Attempt(pieces, q, boardHeight, idx, Candidate(pieces, idx, turn));
      if a.Some? then a else SearchFrom(pieces, q, boardHeight, idx, turn + 1)
  }

  /** One trial at a node: place `piece` (piece idx, possibly rotated) on a
      copy of the heap; on a fit, record its part and search the pieces other
      than idx on that copy. */
  function Attempt(pieces: seq<Piece>, q: seq<Edge>, boardHeight: int, idx: nat, piece: Piece): (r: Option<seq<SolutionPart>>)
    requires |q| > 0 && idx < |pieces|
    ensures r.Some? ==> |r.value| == |pieces|
    decreases |pieces|, 0, 0, 0
  {
    var o := Placed(piece, q, boardHeight);
    if o.fits then
      match Search(RemoveAt(pieces, idx), o.edges, boardHeight)
      case Some(rest) => Some([SolutionPart(piece, o.x, o.y)] + rest)
      case None => None
    else
      None
  }

  /** Trial (idx, turn) does not fit, or the search below it fails. */
  ghost predicate TrialFails(pieces: seq<Piece>, q: seq<Edge>, boardHeight: int, idx: nat, turn: nat)
    requires |q| > 0 && idx < |pieces|
  {
    Attempt(pieces, q, boardHeight, idx, Candidate(pieces, idx, turn)).None?
  }

  /** Trial (idx, turn) comes at or after trial (i0, t0) in the loops' order. */
  predicate AtOrAfter(idx: nat, turn: nat, i0: nat, t0: nat) {
    idx > i0 || (idx == i0 && turn >= t0)
  }

  /** When the search from (i0, t0) fails, every trial from there on either
      does not fit or leads to a subtree that fails. */
  lemma {:induction false} SearchFromFailureIsExhaustive(pieces: seq<Piece>, q: seq<Edge>, boardHeight: int, i0: nat, t0: nat, idx: nat, turn: nat)
    requires |q| > 0 && i0 <= |pieces| && t0 <= 2
    requires idx < |pieces| && turn < 2 && AtOrAfter(idx, turn, i0, t0)
    requires SearchFrom(pieces, q, boardHeight, i0, t0).None?
    ensures TrialFails(pieces, q, boardHeight, idx, turn)
    decreases |pieces| - i0, 2 - t0
  {
    if t0 == 2 {
      SearchFromFailureIsExhaustive(pieces, q, boardHeight, i0 + 1, 0, idx, turn);
    } else if idx == i0 && turn == t0 {
      assert Attempt(pieces, q, boardHeight, idx, Candidate(pieces, idx, turn)).None?;
    } else {
      SearchFromFailureIsExhaustive(pieces, q, boardHeight, i0, t0 + 1, idx, turn);
    }
  }

  /** Conversely, the search from (i0, t0) fails once every trial from there
      on fails: no trial is skipped. */
  lemma {:induction false} SearchFromFailsIfAllFail(pieces: seq<Piece>, q: seq<Edge>, boardHeight: int, i0: nat, t0: nat)
    requires |q| > 0 && i0 <= |pieces| && t0 <= 2
    requires forall idx: nat, turn: nat | idx < |pieces| && turn < 2 && AtOrAfter(idx, turn, i0, t0) ::
      TrialFails(pieces, q, boardHeight, idx, turn)
    ensures SearchFrom(pieces, q, boardHeight, i0, t0).None?
    decreases |pieces| - i0, 2 - t0
  {
    if i0 < |pieces| {
      if t0 == 2 {
        SearchFromFailsIfAllFail(pieces, q, boardHeight, i0 + 1, 0);
      } else {
        assert TrialFails(pieces, q, boardHeight, i0, t0);
        SearchFromFailsIfAllFail(pieces, q, boardHeight, i0, t0 + 1);
      }
    }
  }

  /** `solve` returns False on a non-empty list exactly when every piece, in
      both orientations, either does not fit or leaves a search that fails. */
  lemma SearchFailsIffEveryTrialFails(pieces: seq<Piece>, q: seq<Edge>, boardHeight: int)
    requires |pieces| > 0 && |q| > 0
    ensures Search(pieces, q, boardHeight).None? <==>
      forall idx: nat, turn: nat | idx < |pieces| && turn < 2 :: TrialFails(pieces, q, boardHeight, idx, turn)
  {
    if Search(pieces, q, boardHeight).None? {
      forall idx: nat, turn: nat | idx < |pieces| && turn < 2 ensures TrialFails(pieces, q, boardHeight, idx, turn) {
        SearchFromFailureIsExhaustive(pieces, q, boardHeight, 0, 0, idx, turn);
      }
    }
    if forall idx: nat, turn: nat | idx < |pieces| && turn < 2 :: TrialFails(pieces, q, boardHeight, idx, turn) {
      SearchFromFailsIfAllFail(pieces, q, boardHeight, 0, 0);
    }
  }

  /** Every part of a found solution lies inside the board, provided the search
      starts from a skyline and the pieces have positive sides. */
  lemma {:induction false} SearchInBoard(pieces: seq<Piece>, q: seq<Edge>, width: int, height: int)
    requires IsSkyline(q, width, height) && AllPositive(pieces) && (|pieces| > 0 ==> |q| > 0)
    requires Search(pieces, q, height).Some?
    ensures forall part | part in Search(pieces, q, height).value :: InBoard(part, width, height)
    decreases |pieces|, 1
  {
    if |pieces| > 0 {
      SearchFromInBoard(pieces, q, width, height, 0, 0);
    }
  }

  lemma {:induction false} SearchFromInBoard(pieces: seq<Piece>, q: seq<Edge>, width: int, height: int, idx: nat, turn: nat)
    requires IsSkyline(q, width, height) && AllPositive(pieces) && |q| > 0 && idx <= |pieces| && turn <= 2
    requires SearchFrom(pieces, q, height, idx, turn).Some?
    ensures forall part | part in SearchFrom(pieces, q, height, idx, turn).value :: InBoard(part, width, height)
    decreases |pieces|, 0, |pieces| - idx, 2 - turn
  {
    if turn == 2 {
      SearchFromInBoard(pieces, q, width, height, idx + 1, 0);
    } else if Attempt(pieces, q, height, idx, Candidate(pieces, idx, turn)).Some? {
      assert pieces[idx] in pieces;
      AttemptInBoard(pieces, q, width, height, idx, Candidate(pieces, idx, turn));
    } else {
      SearchFromInBoard(pieces, q, width, height, idx, turn + 1);
    }
  }

  lemma {:induction false} AttemptInBoard(pieces: seq<Piece>, q: seq<Edge>, width: int, height: int, idx: nat, piece: Piece)
    requires IsSkyline(q, width, height) && AllPositive(pieces) && |q| > 0 && idx < |pieces|
    requires Positive(piece)
    requires Attempt(pieces, q, height, idx, piece).Some?
    ensures forall part | part in Attempt(pieces, q, height, idx, piece).value :: InBoard(part, width, height)
    decreases |pieces|, 0, 0, 0
  {
    var o := Placed(piece, q, height);
    var smaller := RemoveAt(pieces, idx);
    RemoveAtMultiset(pieces, idx);
    PlacedKeepsSkyline(piece, q, width, height);
    SearchInBoard(smaller, o.edges, width, height);
    var head := SolutionPart(piece, o.x, o.y);
    var rest := Search(smaller, o.edges, height).value;
    forall part | part in [head] + rest ensures InBoard(part, width, height) {
      if part != head {
        assert part in rest;
      }
    }
  }

  /** A found solution uses every piece exactly once, up to rotation. */
  lemma {:induction false} SearchUsesEachPiece(pieces: seq<Piece>, q: seq<Edge>, boardHeight: int)
    requires |pieces| > 0 ==> |q| > 0
    requires Search(pieces, q, boardHeight).Some?
    ensures multiset(CanonicalAll(PiecesOf(Search(pieces, q, boardHeight).value))) == multiset(CanonicalAll(pieces))
    decreases |pieces|, 1
  {
    if |pieces| > 0 {
      SearchFromUsesEachPiece(pieces, q, boardHeight, 0, 0);
    }
  }

  lemma {:induction false} SearchFromUsesEachPiece(pieces: seq<Piece>, q: seq<Edge>, boardHeight: int, idx: nat, turn: nat)
    requires |q| > 0 && idx <= |pieces| && turn <= 2
    requires SearchFrom(pieces, q, boardHeight, idx, turn).Some?
    ensures multiset(CanonicalAll(PiecesOf(SearchFrom(pieces, q, boardHeight, idx, turn).value))) == multiset(CanonicalAll(pieces))
    decreases |pieces|, 0, |pieces| - idx, 2 - turn
  {
    if turn == 2 {
      SearchFromUsesEachPiece(pieces, q, boardHeight, idx + 1, 0);
    } else if Attempt(pieces, q, boardHeight, idx, Candidate(pieces, idx, turn)).Some? {
      AttemptUsesEachPiece(pieces, q, boardHeight, idx, turn);
    } else {
      SearchFromUsesEachPiece(pieces, q, boardHeight, idx, turn + 1);
    }
  }

  lemma {:induction false} AttemptUsesEachPiece(pieces: seq<Piece>, q: seq<Edge>, boardHeight: int, idx: nat, turn: nat)
    requires |q| > 0 && idx < |pieces|
    requires Attempt(pieces, q, boardHeight, idx, Candidate(pieces, idx, turn)).Some?
    ensures multiset(CanonicalAll(PiecesOf(Attempt(pieces, q, boardHeight, idx, Candidate(pieces, idx, turn)).value))) == multiset(CanonicalAll(pieces))
    decreases |pieces|, 0, 0, 0
  {
    var piece := Candidate(pieces, idx, turn);
    var o := Placed(piece, q, boardHeight);
    var smaller := RemoveAt(pieces, idx);
    var rest := Search(smaller, o.edges, boardHeight).value;
    SearchUsesEachPiece(smaller, o.edges, boardHeight);
    CanonicalOfCons(SolutionPart(piece, o.x, o.y), rest);
    CanonicalOfRotated(pieces[idx]);
    CanonicalOfRemoveAt(pieces, idx);
  }

  // ---------------------------------------------------------------------------
  // The imperative code.

  class Solver {
    /** BOARD_WIDTH and BOARD_HEIGHT. */
    const boardWidth: int
    const boardHeight: int
    /** The global `solution` list. */
    var solution: seq<SolutionPart>

    constructor (width: int, height: int)
      ensures boardWidth == width && boardHeight == height && solution == []
    {
      boardWidth := width;
      boardHeight := height;
      solution := [];
    }

    /** `place`: mutates the heap and reports whether the piece fit and where. */
    method Place(piece: Piece, edges: EdgeQueue) returns (fits: bool, x: int, y: int)
      requires |edges.items| > 0
      modifies edges
      ensures Placed(piece, old(edges.items), boardHeight) == Placement(fits, x, y, edges.items)
    {
      ghost var q0 := edges.items;
      var edgeToInsertOn := edges.PopLowest();
      if piece.height + edgeToInsertOn.y > boardHeight {
        return false, -1, -1;
      }
      edgeToInsertOn := edges.MergeInto(edgeToInsertOn);
      PlacedAfterMerge(piece, q0, boardHeight, edgeToInsertOn, edges.items);
      ghost var rest := edges.items;
      if piece.width > edgeToInsertOn.length {
        return false, -1, -1;
      }
      if edgeToInsertOn.length == piece.width {
        edges.Push(Edge(edgeToInsertOn.x, edgeToInsertOn.y + piece.height, piece.width));
      } else {
        edges.Push(Edge(edgeToInsertOn.x, edgeToInsertOn.y + piece.height, piece.width));
        edges.Push(Edge(edgeToInsertOn.x + piece.width, edgeToInsertOn.y, edgeToInsertOn.length - piece.width));
      }
      PushedPlacedEdges(rest, edgeToInsertOn, piece, edges.items);
      return true, edgeToInsertOn.x, edgeToInsertOn.y;
    }

    /** `solve`: on success `solution` has grown by the parts the search
        found, one per piece; on failure it is as it was; the caller's heap is
        never touched. */
    method Solve(pieces: seq<Piece>, edges: EdgeQueue) returns (found: bool)
      requires |pieces| > 0 ==> |edges.items| > 0
      modifies this
      ensures unchanged(edges)
      ensures found == Search(pieces, edges.items, boardHeight).Some?
      ensures found ==> solution == old(solution) + Search(pieces, edges.items, boardHeight).value
      ensures !found ==> solution == old(solution)
      decreases |pieces|, 1
    {
      if |pieces| < 1 {
        return true;
      }
      ghost var q := edges.items;
      ghost var result := SearchFrom(pieces, q, boardHeight, 0, 0);
      for idx := 0 to |pieces|
        invariant edges.items == q
        invariant solution == old(solution)
        invariant result == SearchFrom(pieces, q, boardHeight, idx, 0)
      {
        var piece := pieces[idx];
        for turn := 0 to 2
          invariant edges.items == q
          invariant solution == old(solution)
          invariant turn < 2 ==> piece == pieces[idx]
          invariant result == SearchFrom(pieces, q, boardHeight, idx, turn)
        {
          var rotate := turn == 1;
          if rotate {
            piece := Piece(piece.height, piece.width);
          }
          var solved := Try(pieces, edges, idx, turn, piece);
          if solved {
            return true;
          }
        }
      }
      return false;
    }

    /** The body of `solve`'s inner loop: place the piece on a copy of the
        heap; on a fit append its part, search the other pieces on that copy,
        and take the part back off when that search fails. */
    method Try(pieces: seq<Piece>, edges: EdgeQueue, idx: nat, turn: nat, piece: Piece) returns (solved: bool)
      requires |edges.items| > 0 && idx < |pieces| && turn < 2
      requires piece == Candidate(pieces, idx, turn)
      modifies this
      ensures unchanged(edges)
      ensures solved ==> SearchFrom(pieces, edges.items, boardHeight, idx, turn).Some?
      ensures solved ==> solution == old(solution) + SearchFrom(pieces, edges.items, boardHeight, idx, turn).value
      ensures !solved ==> SearchFrom(pieces, edges.items, boardHeight, idx, turn) == SearchFrom(pieces, edges.items, boardHeight, idx, turn + 1)
      ensures !solved ==> solution == old(solution)
      decreases |pieces|, 0
    {
      var edgesCopy := edges.Copy();
      var fits, xPos, yPos := Place(piece, edgesCopy);
      if fits {
        solution := solution + [SolutionPart(piece, xPos, yPos)];
        var newPieces := pieces[..idx] + pieces[idx + 1..];
        solved := Solve(newPieces, edgesCopy);
        if solved {
          return;
        }
        solution := solution[..|solution| - 1];
      }
      return false;
    }

    /** The top level of solver.py: an empty `solution`, the single edge
        `Edge(0, 0, BOARD_WIDTH)`, the area sort, then `solve`. A solution it
        finds places every piece once, up to rotation, inside the board. */
    method Run(pieces: seq<Piece>) returns (solved: bool)
      modifies this
      ensures var r := Search(SortByAreaDesc(pieces), [Edge(0, 0, boardWidth)], boardHeight);
        && solved == r.Some?
        && solution == (if solved then r.value else [])
      ensures solved ==> |solution| == |pieces|
      ensures solved ==> multiset(CanonicalAll(PiecesOf(solution))) == multiset(CanonicalAll(pieces))
      ensures solved && boardWidth > 0 && boardHeight >= 0 && AllPositive(pieces) ==>
        forall part | part in solution :: InBoard(part, boardWidth, boardHeight)
    {
      solution := [];
      var edges := new EdgeQueue([Edge(0, 0, boardWidth)]);
      var sorted := SortByAreaDesc(pieces);
      solved := Solve(sorted, edges);
      if solved {
        assert |sorted| == |pieces| by {
          assert |multiset(sorted)| == |multiset(pieces)|;
        }
        SearchUsesEachPiece(sorted, [Edge(0, 0, boardWidth)], boardHeight);
        CanonicalAllOfPermutation(sorted, pieces);
        if boardWidth > 0 && boardHeight >= 0 && AllPositive(pieces) {
          InitialSkyline(boardWidth, boardHeight);
          SortKeepsPositive(pieces);
          SearchInBoard(sorted, [Edge(0, 0, boardWidth)], boardWidth, boardHeight);
        }
      }
    }
  }
}
