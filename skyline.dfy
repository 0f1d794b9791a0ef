/** The skyline: the bag of horizontal edges that form the open top boundary of
    the pieces placed so far. Both source files keep it in a binary heap keyed
    by (y, x); here its contents are a sequence and popping takes out its
    lowest, then left-most, edge. */
module Skyline {
  import opened Shapes

  /** `Edge.__lt__` in the Python file: the lower edge is smaller, and of two
      edges at the same height the left one. */
  predicate EdgeLess(a: Edge, b: Edge) {
    if a.y == b.y then a.x < b.x else a.y < b.y
  }

  /** EdgeLess is a strict order that ranks any two edges with different
      (y, x) keys: lexicographic on (y, x). */
  lemma EdgeLessIsLexicographic(a: Edge, b: Edge, c: Edge)
    ensures EdgeLess(a, b) <==> a.y < b.y || (a.y == b.y && a.x < b.x)
    ensures !EdgeLess(a, a)
    ensures EdgeLess(a, b) && EdgeLess(b, c) ==> EdgeLess(a, c)
    ensures EdgeLess(a, b) || EdgeLess(b, a) || (a.y == b.y && a.x == b.x)
  {
  }

  /** The index of the first edge that no other edge is smaller than. */
  function MinIndex(q: seq<Edge>): (i: nat)
    requires |q| > 0
    ensures i < |q|
    decreases |q|
  {
    if |q| == 1 then 0
    else
      var m := MinIndex(q[1..]) + 1;
      if EdgeLess(q[m], q[0]) then m else 0
  }

  lemma {:induction false} MinIndexIsMinimal(q: seq<Edge>)
    requires |q| > 0
    ensures forall j | 0 <= j < |q| :: !EdgeLess(q[j], q[MinIndex(q)])
    decreases |q|
  {
    if |q| > 1 {
      MinIndexIsMinimal(q[1..]);
      var m := MinIndex(q[1..]) + 1;
      forall j | 1 <= j < |q| ensures !EdgeLess(q[j], q[m]) {
        assert q[j] == q[1..][j - 1];
      }
    }
  }

  /** The heap's top: the lowest, then left-most, edge. */
  function Lowest(q: seq<Edge>): (e: Edge)
    requires |q| > 0
    ensures e in q
  {
    q[MinIndex(q)]
  }

  /** `Edge.__lt__` makes the heap's top the lowest edge, and of the lowest
      edges the left-most: no edge of the heap is smaller. */
  lemma LowestIsMinimal(q: seq<Edge>)
    requires |q| > 0
    ensures forall f | f in q :: Lowest(q).y < f.y || (Lowest(q).y == f.y && Lowest(q).x <= f.x)
  {
    MinIndexIsMinimal(q);
    forall f | f in q ensures Lowest(q).y < f.y || (Lowest(q).y == f.y && Lowest(q).x <= f.x) {
      var j :| 0 <= j < |q| && q[j] == f;
      assert !EdgeLess(q[j], q[MinIndex(q)]);
    }
  }

  /** The heap after popping its top. */
  function RemoveLowest(q: seq<Edge>): (r: seq<Edge>)
    requires |q| > 0
    ensures |r| == |q| - 1
  {
    RemoveAt(q, MinIndex(q))
  }

  /** Popping takes out the top and nothing else. */
  lemma RemoveLowestMultiset(q: seq<Edge>)
    requires |q| > 0
    ensures multiset(RemoveLowest(q)) + multiset{Lowest(q)} == multiset(q)
  {
    RemoveAtMultiset(q, MinIndex(q));
  }

  // ---------------------------------------------------------------------------
  // Measures over the edges.

  function TotalLength(q: seq<Edge>): int {
    if q == [] then 0 else q[0].length + TotalLength(q[1..])
  }

  predicate Covers(e: Edge, c: int) {
    e.x <= c < e.x + e.length
  }

  /** How many edges lie over column c. */
  function CoverCount(q: seq<Edge>, c: int): nat {
    if q == [] then 0 else (if Covers(q[0], c) then 1 else 0) + CoverCount(q[1..], c)
  }

  lemma {:induction false} TotalLengthAppend(a: seq<Edge>, b: seq<Edge>)
    ensures TotalLength(a + b) == TotalLength(a) + TotalLength(b)
  {
    if a != [] {
      assert (a + b)[1..] == a[1..] + b;
      TotalLengthAppend(a[1..], b);
    } else {
      assert a + b == b;
    }
  }

  lemma {:induction false} CoverCountAppend(a: seq<Edge>, b: seq<Edge>, c: int)
    ensures CoverCount(a + b, c) == CoverCount(a, c) + CoverCount(b, c)
  {
    if a != [] {
      assert (a + b)[1..] == a[1..] + b;
      CoverCountAppend(a[1..], b, c);
    } else {
      assert a + b == b;
    }
  }

  lemma RemoveAtSplit(q: seq<Edge>, i: nat)
    requires i < |q|
    ensures q == q[..i] + [q[i]] + q[i + 1..]
    ensures RemoveAt(q, i) == q[..i] + q[i + 1..]
  {
  }

  lemma TotalLengthRemoveAt(q: seq<Edge>, i: nat)
    requires i < |q|
    ensures TotalLength(q) == q[i].length + TotalLength(RemoveAt(q, i))
  {
    RemoveAtSplit(q, i);
    TotalLengthAppend(q[..i] + [q[i]], q[i + 1..]);
    TotalLengthAppend(q[..i], [q[i]]);
    TotalLengthAppend(q[..i], q[i + 1..]);
    assert TotalLength([q[i]]) == q[i].length;
  }

  lemma CoverCountRemoveAt(q: seq<Edge>, i: nat, c: int)
    requires i < |q|
    ensures CoverCount(q, c) == CoverCount([q[i]], c) + CoverCount(RemoveAt(q, i), c)
  {
    RemoveAtSplit(q, i);
    CoverCountAppend(q[..i] + [q[i]], q[i + 1..], c);
    CoverCountAppend(q[..i], [q[i]], c);
    CoverCountAppend(q[..i], q[i + 1..], c);
  }

  // ---------------------------------------------------------------------------
  // The skyline invariant.

  /** An edge of positive length inside [0, width), at a height in [0, height]. */
  predicate InBand(e: Edge, width: int, height: int) {
    && 0 < e.length && 0 <= e.x && e.x + e.length <= width
    && 0 <= e.y <= height
  }

  /** The edges partition [0, width): every column lies under exactly one edge,
      so there are neither gaps nor overlaps, and the lengths add up to width. */
  ghost predicate IsSkyline(q: seq<Edge>, width: int, height: int) {
    && AllInBand(q, width, height)
    && CoveredOnce(q, width)
    && TotalLength(q) == width
  }

  ghost predicate AllInBand(q: seq<Edge>, width: int, height: int) {
    forall e | e in q :: InBand(e, width, height)
  }

  ghost predicate CoveredOnce(q: seq<Edge>, width: int) {
    forall c | 0 <= c < width :: CoverCount(q, c) == 1
  }

  /** The single edge the search starts from: `Edge(0, 0, BOARD_WIDTH)`. */
  lemma InitialSkyline(width: int, height: int)
    requires width > 0 && height >= 0
    ensures IsSkyline([Edge(0, 0, width)], width, height)
  {
    forall c | 0 <= c < width ensures CoverCount([Edge(0, 0, width)], c) == 1 {
      assert [Edge(0, 0, width)][1..] == [];
    }
    assert [Edge(0, 0, width)][1..] == [];
  }

  /** A skyline over a board of positive width is never empty. */
  lemma SkylineNotEmpty(q: seq<Edge>, width: int, height: int)
    requires IsSkyline(q, width, height) && width > 0
    ensures |q| > 0
  {
    assert CoverCount(q, 0) == 1;
  }

  /** Two edges of a skyline never share a column. */
  lemma CoverCountTwo(q: seq<Edge>, i: nat, j: nat, c: int)
    requires i < j < |q|
    ensures CoverCount(q, c) >= CoverCount([q[i]], c) + CoverCount([q[j]], c)
  {
    CoverCountRemoveAt(q, i, c);
    var r := RemoveAt(q, i);
    RemoveAtIndex(q, i, j - 1);
    CoverCountRemoveAt(r, j - 1, c);
  }

  /** No two edges of q share a (y, x) key. */
  predicate DistinctKeys(q: seq<Edge>) {
    forall i, j | 0 <= i < j < |q| :: !(q[i].y == q[j].y && q[i].x == q[j].x)
  }

  /** On a skyline no two edges share a (y, x) key: two edges starting at the
      same column would both cover it. */
  lemma SkylineKeysDistinct(q: seq<Edge>, width: int, height: int)
    requires IsSkyline(q, width, height)
    ensures DistinctKeys(q)
  {
    forall i, j | 0 <= i < j < |q| ensures !(q[i].y == q[j].y && q[i].x == q[j].x) {
      if q[i].y == q[j].y && q[i].x == q[j].x {
        var c := q[i].x;
        assert q[i] in q && q[j] in q;
        assert [q[i]][1..] == [] && [q[j]][1..] == [];
        CoverCountTwo(q, i, j, c);
        assert false;
      }
    }
  }

  /** Taking edges out of a heap with distinct keys keeps the keys distinct, so
      every heap the merge loop pops from has them too. */
  lemma DistinctKeysRemoveAt(q: seq<Edge>, i: nat)
    requires DistinctKeys(q) && i < |q|
    ensures DistinctKeys(RemoveAt(q, i))
  {
    var r := RemoveAt(q, i);
    forall a, b | 0 <= a < b < |r| ensures !(r[a].y == r[b].y && r[a].x == r[b].x) {
      RemoveAtIndex(q, i, a);
      RemoveAtIndex(q, i, b);
      var a', b' := if a < i then a else a + 1, if b < i then b else b + 1;
      assert r[a] == q[a'] && r[b] == q[b'] && a' < b';
    }
  }

  /** With distinct keys the top is strictly smaller than every other edge, so
      the top is the same whatever the heap's tie-breaking. */
  lemma LowestIsUnique(q: seq<Edge>)
    requires DistinctKeys(q) && |q| > 0
    ensures forall j | 0 <= j < |q| && j != MinIndex(q) :: EdgeLess(q[MinIndex(q)], q[j])
  {
    var m := MinIndex(q);
    MinIndexIsMinimal(q);
    forall j | 0 <= j < |q| && j != m ensures EdgeLess(q[m], q[j]) {
      if m < j {
        assert !(q[m].y == q[j].y && q[m].x == q[j].x);
      } else {
        assert !(q[j].y == q[m].y && q[j].x == q[m].x);
      }
    }
  }

  /** Replacing some edges by others that cover the same columns, with the same
      total length and each inside the band, keeps a skyline a skyline. */
  lemma ReplaceKeepsSkyline(rest: seq<Edge>, before: seq<Edge>, after: seq<Edge>, width: int, height: int)
    requires IsSkyline(rest + before, width, height)
    requires forall e | e in after :: InBand(e, width, height)
    requires forall c :: CoverCount(after, c) == CoverCount(before, c)
    requires TotalLength(after) == TotalLength(before)
    ensures IsSkyline(rest + after, width, height)
  {
    forall c | 0 <= c < width ensures CoverCount(rest + after, c) == 1 {
      CoverCountAppend(rest, after, c);
      CoverCountAppend(rest, before, c);
    }
    TotalLengthAppend(rest, after);
    TotalLengthAppend(rest, before);
    forall e | e in rest + after ensures InBand(e, width, height) {
      if e in rest { assert e in rest + before; }
    }
  }

  /** Holding the popped top in hand, after the rest of the heap, keeps the
      invariant of the whole. */
  lemma PopKeepsSkyline(q: seq<Edge>, width: int, height: int)
    requires IsSkyline(q, width, height) && |q| > 0
    ensures IsSkyline(RemoveLowest(q) + [Lowest(q)], width, height)
  {
    var i := MinIndex(q);
    var r := RemoveLowest(q) + [Lowest(q)];
    forall c | 0 <= c < width ensures CoverCount(r, c) == 1 {
      CoverCountRemoveAt(q, i, c);
      CoverCountAppend(RemoveLowest(q), [Lowest(q)], c);
    }
    TotalLengthRemoveAt(q, i);
    TotalLengthAppend(RemoveLowest(q), [Lowest(q)]);
    assert TotalLength([Lowest(q)]) == Lowest(q).length;
  }

  // ---------------------------------------------------------------------------
  // Merging contiguous edges at the same height.

  /** `next` lies at the same height as e and starts where e ends. */
  predicate Adjoins(e: Edge, next: Edge) {
    next.y == e.y && next.x == e.x + e.length
  }

  /** `Edge(e.x, e.y, e.length + next.length)`: e grown over next. */
  function Widened(e: Edge, next: Edge): Edge {
    Edge(e.x, e.y, e.length + next.length)
  }

  /** The merge loop of `place`: while the heap's top adjoins the edge in hand,
      pop it and widen the edge over it. Yields the merged edge and what is left
      of the heap. */
  function MergeRun(e: Edge, q: seq<Edge>): (r: (Edge, seq<Edge>))
    ensures |r.1| <= |q|
    decreases |q|
  {
    if |q| > 0 && Adjoins(e, Lowest(q)) then
      MergeRun(Widened(e, Lowest(q)), RemoveLowest(q))
    else
      (e, q)
  }

  /** One pass of the merge loop: the top adjoins the edge in hand, so it is
      popped and the edge widened over it. */
  lemma MergeRunStep(e: Edge, q: seq<Edge>)
    requires |q| > 0 && Adjoins(e, Lowest(q))
    ensures MergeRun(e, q) == MergeRun(Widened(e, Lowest(q)), RemoveLowest(q))
  {
  }

  /** The loop's exit: the heap is empty or its top does not adjoin. */
  lemma MergeRunStops(e: Edge, q: seq<Edge>)
    requires |q| == 0 || !Adjoins(e, Lowest(q))
    ensures MergeRun(e, q) == (e, q)
  {
  }

  /** The edges the merge loop pops, in the order it pops them. */
  function Absorbed(e: Edge, q: seq<Edge>): seq<Edge>
    decreases |q|
  {
    if |q| > 0 && Adjoins(e, Lowest(q)) then
      [Lowest(q)] + Absorbed(Widened(e, Lowest(q)), RemoveLowest(q))
    else
      []
  }

  /** The heaps the merge loop pops from, in the order it pops from them: the
      k-th one's top is the k-th absorbed edge. */
  function PoppedHeaps(e: Edge, q: seq<Edge>): (r: seq<seq<Edge>>)
    ensures |r| == |Absorbed(e, q)|
    ensures forall k | 0 <= k < |r| :: |r[k]| > 0 && Lowest(r[k]) == Absorbed(e, q)[k]
    decreases |q|
  {
    if |q| > 0 && Adjoins(e, Lowest(q)) then
      [q] + PoppedHeaps(Widened(e, Lowest(q)), RemoveLowest(q))
    else
      []
  }

  /** The edges of `run` lie at height y, the first starting at column x and
      each next one where the previous one ends. */
  predicate IsRun(x: int, y: int, run: seq<Edge>)
    decreases |run|
  {
    run == [] || (run[0].y == y && run[0].x == x && IsRun(x + run[0].length, y, run[1..]))
  }

  /** What the merge loop computes: the merged edge keeps the first edge's x and
      y and its length is the first edge's plus that of every absorbed edge, and
      the absorbed edges form a contiguous run at that height starting where the
      first edge ends. */
  lemma {:induction false} MergedEdge(e: Edge, q: seq<Edge>)
    ensures MergeRun(e, q).0 == Edge(e.x, e.y, e.length + TotalLength(Absorbed(e, q)))
    ensures IsRun(e.x + e.length, e.y, Absorbed(e, q))
    decreases |q|
  {
    if |q| > 0 && Adjoins(e, Lowest(q)) {
      var n := Lowest(q);
      MergedEdge(Widened(e, n), RemoveLowest(q));
      var tail := Absorbed(Widened(e, n), RemoveLowest(q));
      assert ([n] + tail)[1..] == tail;
    }
  }

  /** The heap loses exactly the absorbed edges, no length is lost, and the loop
      stops when the heap is empty or its top no longer adjoins the merged edge. */
  lemma {:induction false} MergeRemovesAbsorbed(e: Edge, q: seq<Edge>)
    ensures multiset(q) == multiset(MergeRun(e, q).1) + multiset(Absorbed(e, q))
    ensures e.length + TotalLength(q) == MergeRun(e, q).0.length + TotalLength(MergeRun(e, q).1)
    ensures var (m, rest) := MergeRun(e, q); rest == [] || !Adjoins(m, Lowest(rest))
    decreases |q|
  {
    if |q| > 0 && Adjoins(e, Lowest(q)) {
      var n := Lowest(q);
      MergeRemovesAbsorbed(Widened(e, n), RemoveLowest(q));
      RemoveLowestMultiset(q);
      TotalLengthRemoveAt(q, MinIndex(q));
    }
  }

  /** Every heap the merge loop pops from, and the heap it leaves, keeps
      distinct keys, so each pop takes the one edge that is strictly the least. */
  lemma {:induction false} MergeKeepsDistinctKeys(e: Edge, q: seq<Edge>)
    requires DistinctKeys(q)
    ensures forall h | h in PoppedHeaps(e, q) ::
      DistinctKeys(h) && forall j | 0 <= j < |h| && j != MinIndex(h) :: EdgeLess(Lowest(h), h[j])
    ensures DistinctKeys(MergeRun(e, q).1)
    decreases |q|
  {
    if |q| > 0 && Adjoins(e, Lowest(q)) {
      DistinctKeysRemoveAt(q, MinIndex(q));
      MergeKeepsDistinctKeys(Widened(e, Lowest(q)), RemoveLowest(q));
      LowestIsUnique(q);
      assert PoppedHeaps(e, q) == [q] + PoppedHeaps(Widened(e, Lowest(q)), RemoveLowest(q));
    }
  }

  /** One merge step on a skyline whose top edge is in hand keeps the skyline. */
  lemma MergeStepKeepsSkyline(q: seq<Edge>, m: Edge, width: int, height: int)
    requires |q| > 0 && Adjoins(m, Lowest(q))
    requires IsSkyline(q + [m], width, height)
    ensures IsSkyline(RemoveLowest(q) + [Widened(m, Lowest(q))], width, height)
  {
    var n := Lowest(q);
    var i := MinIndex(q);
    var w := Widened(m, n);
    var r := RemoveLowest(q);
    RemoveAtMultiset(q, i);
    assert m in q + [m] && n in q + [m];
    forall c | 0 <= c < width ensures CoverCount(r + [w], c) == 1 {
      CoverCountAppend(r, [w], c);
      CoverCountAppend(q, [m], c);
      CoverCountRemoveAt(q, i, c);
    }
    TotalLengthAppend(r, [w]);
    TotalLengthAppend(q, [m]);
    TotalLengthRemoveAt(q, i);
    assert TotalLength([w]) == w.length && TotalLength([m]) == m.length;
    forall f | f in r + [w] ensures InBand(f, width, height) {
      if f in r { assert f in q + [m]; }
    }
  }

  /** The merge loop keeps the skyline: the merged edge in hand plus what is left
      of the heap still partition the board's width. */
  lemma {:induction false} MergeKeepsSkyline(e: Edge, q: seq<Edge>, width: int, height: int)
    requires IsSkyline(q + [e], width, height)
    ensures IsSkyline(MergeRun(e, q).1 + [MergeRun(e, q).0], width, height)
    decreases |q|
  {
    if |q| > 0 && Adjoins(e, Lowest(q)) {
      MergeStepKeepsSkyline(q, e, width, height);
      MergeKeepsSkyline(Widened(e, Lowest(q)), RemoveLowest(q), width, height);
    }
  }

  // ---------------------------------------------------------------------------
  // The edges a successful placement pushes.

  /** After a piece is placed on the merged edge m: its top `(m.x, m.y +
      height, width)`, and, when it is narrower than m, the uncovered remainder
      `(m.x + width, m.y, m.length - width)`, pushed in that order. */
  function PlacedEdges(m: Edge, piece: Piece): seq<Edge> {
    if m.length == piece.width then
      [Edge(m.x, m.y + piece.height, piece.width)]
    else
      [Edge(m.x, m.y + piece.height, piece.width), Edge(m.x + piece.width, m.y, m.length - piece.width)]
  }

  /** The pushed edges lie over exactly the columns of m, with m's length, and
      inside the band when the piece fits. */
  lemma PlacedEdgesReplace(m: Edge, piece: Piece, width: int, height: int)
    requires InBand(m, width, height) && Positive(piece)
    requires piece.width <= m.length && m.y + piece.height <= height
    ensures forall e | e in PlacedEdges(m, piece) :: InBand(e, width, height)
    ensures forall c :: CoverCount(PlacedEdges(m, piece), c) == CoverCount([m], c)
    ensures TotalLength(PlacedEdges(m, piece)) == TotalLength([m])
  {
    var p := PlacedEdges(m, piece);
    assert [m][1..] == [];
    if |p| == 2 {
      assert p[1..][1..] == [];
    } else {
      assert p[1..] == [];
    }
  }

  /** The pushed edges together are exactly as long as the edge they replace. */
  lemma PlacedEdgesLength(m: Edge, piece: Piece)
    ensures TotalLength(PlacedEdges(m, piece)) == m.length
  {
    var p := PlacedEdges(m, piece);
    if |p| == 2 {
      assert p[1..][1..] == [];
      assert TotalLength(p[1..]) == p[1].length;
    } else {
      assert p[1..] == [];
    }
  }

  /** The merge loop moves length from the heap into the edge in hand and loses
      none: the heap after the pop and the merge, plus the merged edge, is as
      long as the heap before the pop. */
  lemma MergeKeepsLength(q: seq<Edge>)
    requires |q| > 0
    ensures TotalLength(MergeRun(Lowest(q), RemoveLowest(q)).1) + MergeRun(Lowest(q), RemoveLowest(q)).0.length == TotalLength(q)
  {
    MergeRemovesAbsorbed(Lowest(q), RemoveLowest(q));
    TotalLengthRemoveAt(q, MinIndex(q));
  }

  /** Pushing the piece's top edge, and then the remainder when the piece is
      narrower than m, appends PlacedEdges(m, piece) to the heap. */
  lemma PushedPlacedEdges(rest: seq<Edge>, m: Edge, piece: Piece, items: seq<Edge>)
    requires m.length == piece.width ==> items == rest + [Edge(m.x, m.y + piece.height, piece.width)]
    requires m.length != piece.width ==>
      items == rest + [Edge(m.x, m.y + piece.height, piece.width)] + [Edge(m.x + piece.width, m.y, m.length - piece.width)]
    ensures items == rest + PlacedEdges(m, piece)
  {
    if m.length != piece.width {
      assert rest + [Edge(m.x, m.y + piece.height, piece.width)] + [Edge(m.x + piece.width, m.y, m.length - piece.width)]
        == rest + [Edge(m.x, m.y + piece.height, piece.width), Edge(m.x + piece.width, m.y, m.length - piece.width)];
    }
  }

  /** Placing a piece that fits on the merged edge in hand keeps the skyline. */
  lemma PlacementKeepsSkyline(rest: seq<Edge>, m: Edge, piece: Piece, width: int, height: int)
    requires IsSkyline(rest + [m], width, height) && Positive(piece)
    requires piece.width <= m.length && m.y + piece.height <= height
    ensures IsSkyline(rest + PlacedEdges(m, piece), width, height)
    ensures 0 <= m.x && m.x + piece.width <= width && 0 <= m.y
  {
    assert m in rest + [m];
    PlacedEdgesReplace(m, piece, width, height);
    ReplaceKeepsSkyline(rest, [m], PlacedEdges(m, piece), width, height);
  }

  // ---------------------------------------------------------------------------
  // The heap object both `place` functions mutate by reference.

  /** A min-heap of edges (`heapq` on a Python list, `std::priority_queue` in
      C++), seen through its contents. */
  class EdgeQueue {
    var items: seq<Edge>

    constructor (initial: seq<Edge>)
      ensures items == initial
    {
      items := initial;
    }

    function Size(): nat
      reads this
    {
      |items|
    }

    /** `edges[0]` / `edges.top()`. */
    function Top(): (t: Edge)
      reads this
      requires |items| > 0
      ensures t in items
    {
      Lowest(items)
    }

    /** `edges.pop()`. */
    method Pop()
      requires |items| > 0
      modifies this
      ensures items == RemoveLowest(old(items))
    {
      items := RemoveLowest(items);
    }

    /** `heapq.heappop(edges)`. */
    method PopLowest() returns (e: Edge)
      requires |items| > 0
      modifies this
      ensures e == Lowest(old(items)) && items == RemoveLowest(old(items))
    {
      e := Top();
      Pop();
    }

    /** `heapq.heappush(edges, e)` / `edges.push(e)`. */
    method Push(e: Edge)
      modifies this
      ensures items == old(items) + [e]
    {
      items := items + [e];
    }

    /** The merge loop both `place` functions run once the top edge e has been
        popped: while the top adjoins the edge in hand, pop it and widen the
        edge over it. The edge in hand and the heap end up as MergeRun says. */
    method MergeInto(e: Edge) returns (edgeToInsertOn: Edge)
      modifies this
      ensures (edgeToInsertOn, items) == MergeRun(e, old(items))
    {
      edgeToInsertOn := e;
      if Size() > 0 {
        var nextEdge := Top();
        while nextEdge.y == edgeToInsertOn.y && nextEdge.x == edgeToInsertOn.x + edgeToInsertOn.length
          invariant |items| > 0 && nextEdge == Lowest(items)
          invariant MergeRun(edgeToInsertOn, items) == MergeRun(e, old(items))
          decreases |items|
        {
          MergeRunStep(edgeToInsertOn, items);
          Pop();
          edgeToInsertOn := Edge(edgeToInsertOn.x, edgeToInsertOn.y, edgeToInsertOn.length + nextEdge.length);
          if Size() < 1 {
            break;
          }
          nextEdge := Top();
        }
      }
      assert MergeRun(edgeToInsertOn, items) == MergeRun(e, old(items));
      MergeRunStops(edgeToInsertOn, items);
    }

    /** `copy.deepcopy(edges)` / the copy `edgesCopy = edges`. */
    method Copy() returns (c: EdgeQueue)
      ensures fresh(c) && c.items == items
    {
      c := new EdgeQueue(items);
    }
  }
}
