/** The value records shared by both solvers: pieces, skyline edges and the
    parts of a solution trace, plus the area order that sorts the pieces before
    the search starts. */
module Shapes {

  datatype Option<+T> = None | Some(value: T)

  /** A rectangular piece. The Python file calls the sides x and y, the C++ file
      width and height. */
  datatype Piece = Piece(width: int, height: int)

  /** One horizontal segment of the skyline: it starts at column x, lies at
      height y and spans `length` columns. */
  datatype Edge = Edge(x: int, y: int, length: int)

  /** A committed placement: the piece as placed (possibly rotated) and the
      bottom-left corner it was placed at. */
  datatype SolutionPart = SolutionPart(piece: Piece, x: int, y: int)

  function Area(p: Piece): int {
    p.width * p.height
  }

  /** The piece turned by 90 degrees: `Piece(piece.y, piece.x)` in the search. */
  function Rotated(p: Piece): (r: Piece)
    ensures Area(r) == Area(p)
    ensures Positive(r) == Positive(p)
  {
    Piece(p.height, p.width)
  }

  predicate Positive(p: Piece) {
    p.width > 0 && p.height > 0
  }

  predicate AllPositive(pieces: seq<Piece>) {
    forall p | p in pieces :: Positive(p)
  }

  /** The placed piece lies inside the board [0, width) x [0, height). */
  predicate InBoard(part: SolutionPart, width: int, height: int) {
    && 0 <= part.x && part.x + part.piece.width <= width
    && 0 <= part.y && part.y + part.piece.height <= height
  }

  /** `s[:i] + s[i+1:]`: the sequence with the element at index i taken out and
      every other element kept in its relative order. */
  function RemoveAt<T>(s: seq<T>, i: nat): (r: seq<T>)
    requires i < |s|
    ensures |r| == |s| - 1
  {
    s[..i] + s[i + 1..]
  }

  /** RemoveAt takes out exactly one occurrence of s[i] and adds nothing. */
  lemma RemoveAtMultiset<T>(s: seq<T>, i: nat)
    requires i < |s|
    ensures multiset(RemoveAt(s, i)) == multiset(s) - multiset{s[i]}
    ensures forall x | x in RemoveAt(s, i) :: x in s
  {
    assert s == s[..i] + [s[i]] + s[i + 1..];
  }

  /** RemoveAt keeps the elements before i in place and shifts the ones after
      it down by one. */
  lemma RemoveAtIndex<T>(s: seq<T>, i: nat, j: nat)
    requires i < |s| && j < |s| - 1
    ensures RemoveAt(s, i)[j] == if j < i then s[j] else s[j + 1]
  {
  }

  /** The piece tried at turn `turn` of index idx: unrotated at turn 0,
      rotated at turn 1. */
  function Candidate(pieces: seq<Piece>, idx: nat, turn: nat): (r: Piece)
    requires idx < |pieces|
    ensures Canonical(r) == Canonical(pieces[idx]) && Area(r) == Area(pieces[idx])
  {
    if turn == 0 then pieces[idx] else Rotated(pieces[idx])
  }

  // ---------------------------------------------------------------------------
  // The initial sort: bigger pieces first.

  predicate NonIncreasingArea(s: seq<Piece>) {
    forall i, j :: 0 <= i < j < |s| ==> Area(s[i]) >= Area(s[j])
  }

  /** Inserts p in front of the first piece whose area is not larger, so that
      pieces of equal area keep their original order. */
  function InsertByArea(p: Piece, s: seq<Piece>): (r: seq<Piece>)
    requires NonIncreasingArea(s)
    ensures NonIncreasingArea(r)
    ensures multiset(r) == multiset(s) + multiset{p}
    decreases |s|
  {
    if s == [] || Area(s[0]) <= Area(p) then
      [p] + s
    else
      assert s == [s[0]] + s[1..];
      var t := InsertByArea(p, s[1..]);
      HeadAboveRest(s[0], s[1..], p, t);
      [s[0]] + t
  }

  /** A head whose area bounds every later piece and the inserted one keeps the
      insertion sorted. */
  lemma HeadAboveRest(h: Piece, tail: seq<Piece>, p: Piece, t: seq<Piece>)
    requires NonIncreasingArea([h] + tail) && NonIncreasingArea(t)
    requires Area(h) > Area(p)
    requires multiset(t) == multiset(tail) + multiset{p}
    ensures NonIncreasingArea([h] + t)
  {
    forall j | 0 <= j < |t| ensures Area(h) >= Area(t[j]) {
      assert t[j] in multiset(t);
      if t[j] != p {
        assert t[j] in multiset(tail);
        var k :| 0 <= k < |tail| && tail[k] == t[j];
        var ht := [h] + tail;
        assert ht[0] == h && ht[k + 1] == t[j];
        assert Area(ht[0]) >= Area(ht[k + 1]);
      }
    }
  }

  /** The list sorted by descending area, a stable sort: the order that
      `pieces.sort(reverse=True)` gives in Python, and one of the orders that
      `std::sort` with `std::greater<Piece>` may give in C++. */
  function SortByAreaDesc(s: seq<Piece>): (r: seq<Piece>)
    ensures NonIncreasingArea(r)
    ensures multiset(r) == multiset(s)
  {
    if s == [] then []
    else
      assert s == [s[0]] + s[1..];
      InsertByArea(s[0], SortByAreaDesc(s[1..]))
  }

  /** The pieces of s whose area is k, in their order in s. */
  function AreaClass(s: seq<Piece>, k: int): seq<Piece>
    decreases |s|
  {
    if s == [] then [] else (if Area(s[0]) == k then [s[0]] else []) + AreaClass(s[1..], k)
  }

  lemma AreaClassCons(p: Piece, s: seq<Piece>, k: int)
    ensures AreaClass([p] + s, k) == (if Area(p) == k then [p] else []) + AreaClass(s, k)
  {
    assert ([p] + s)[1..] == s;
  }

  /** Inserting p puts it in front of every piece of its own area. */
  lemma {:induction false} InsertByAreaClass(p: Piece, s: seq<Piece>, k: int)
    requires NonIncreasingArea(s)
    ensures AreaClass(InsertByArea(p, s), k) == (if Area(p) == k then [p] else []) + AreaClass(s, k)
    decreases |s|
  {
    if s == [] || Area(s[0]) <= Area(p) {
      AreaClassCons(p, s, k);
    } else {
      var t := InsertByArea(p, s[1..]);
      assert InsertByArea(p, s) == [s[0]] + t;
      InsertByAreaClass(p, s[1..], k);
      AreaClassCons(s[0], t, k);
      assert s == [s[0]] + s[1..];
      AreaClassCons(s[0], s[1..], k);
      var x, y := (if Area(s[0]) == k then [s[0]] else []), (if Area(p) == k then [p] else []);
      // s[0] is strictly larger than p, so at most one of them has area k.
      assert x == [] || y == [];
      calc {
        AreaClass(InsertByArea(p, s), k);
        x + AreaClass(t, k);
        x + (y + AreaClass(s[1..], k));
        y + (x + AreaClass(s[1..], k));
        y + AreaClass(s, k);
      }
    }
  }

  /** The sort is stable: the pieces of each area come out in the order they
      went in, as `pieces.sort(reverse=True)` guarantees. */
  lemma {:induction false} SortByAreaDescIsStable(s: seq<Piece>, k: int)
    ensures AreaClass(SortByAreaDesc(s), k) == AreaClass(s, k)
    decreases |s|
  {
    if s != [] {
      SortByAreaDescIsStable(s[1..], k);
      InsertByAreaClass(s[0], SortByAreaDesc(s[1..]), k);
      AreaClassCons(s[0], s[1..], k);
      assert s == [s[0]] + s[1..];
    }
  }

  lemma SortKeepsPositive(s: seq<Piece>)
    requires AllPositive(s)
    ensures AllPositive(SortByAreaDesc(s))
  {
    var r := SortByAreaDesc(s);
    forall p | p in r ensures Positive(p) {
      assert p in multiset(r);
    }
  }

  // ---------------------------------------------------------------------------
  // Pieces up to rotation, for stating that a solution uses every piece once.

  /** The representative of a piece and its rotation: the narrower side first. */
  function Canonical(p: Piece): (c: Piece)
    ensures c == p || c == Rotated(p)
    ensures c.width <= c.height
  {
    if p.width <= p.height then p else Rotated(p)
  }

  lemma CanonicalOfRotated(p: Piece)
    ensures Canonical(Rotated(p)) == Canonical(p)
  {
  }

  function CanonicalAll(s: seq<Piece>): seq<Piece> {
    seq(|s|, i requires 0 <= i < |s| => Canonical(s[i]))
  }

  function PiecesOf(parts: seq<SolutionPart>): seq<Piece> {
    seq(|parts|, i requires 0 <= i < |parts| => parts[i].piece)
  }

  lemma CanonicalOfRemoveAt(s: seq<Piece>, i: nat)
    requires i < |s|
    ensures multiset(CanonicalAll(s)) == multiset(CanonicalAll(RemoveAt(s, i))) + multiset{Canonical(s[i])}
  {
    RemoveAtMultiset(CanonicalAll(s), i);
    var a, b := CanonicalAll(RemoveAt(s, i)), RemoveAt(CanonicalAll(s), i);
    forall j | 0 <= j < |a| ensures a[j] == b[j] {
      RemoveAtIndex(s, i, j);
      RemoveAtIndex(CanonicalAll(s), i, j);
    }
    assert a == b;
  }

  lemma CanonicalAllCons(p: Piece, s: seq<Piece>)
    ensures CanonicalAll([p] + s) == [Canonical(p)] + CanonicalAll(s)
  {
    var l, r := CanonicalAll([p] + s), [Canonical(p)] + CanonicalAll(s);
    forall j | 0 <= j < |l| ensures l[j] == r[j] {
      if j > 0 {
        assert ([p] + s)[j] == s[j - 1];
      }
    }
  }

  /** Two lists holding the same pieces hold the same pieces up to rotation. */
  lemma {:induction false} CanonicalAllOfPermutation(a: seq<Piece>, b: seq<Piece>)
    requires multiset(a) == multiset(b)
    ensures multiset(CanonicalAll(a)) == multiset(CanonicalAll(b))
    decreases |a|
  {
    if a != [] {
      assert a[0] in multiset(b);
      var i :| 0 <= i < |b| && b[i] == a[0];
      RemoveAtMultiset(b, i);
      assert a == [a[0]] + a[1..];
      CanonicalAllOfPermutation(a[1..], RemoveAt(b, i));
      CanonicalOfRemoveAt(b, i);
      CanonicalAllCons(a[0], a[1..]);
    } else {
      assert |multiset(b)| == 0;
    }
  }

  lemma CanonicalOfCons(part: SolutionPart, rest: seq<SolutionPart>)
    ensures CanonicalAll(PiecesOf([part] + rest)) == [Canonical(part.piece)] + CanonicalAll(PiecesOf(rest))
  {
  }
}
