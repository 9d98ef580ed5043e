/*
 * The Delaunay graph of the TinyKeep generator: an incremental
 * triangulation over point indices, started from a large auxiliary
 * triangle, repaired by Lawson flips and finally stripped of every triangle
 * that still uses a corner of the auxiliary triangle.
 *
 * The flip test compares two angles in floating point; here it is an
 * oracle on the four corner indices.  Sets of corner indices are listed in
 * increasing order wherever the program lists a Python set.
 */
module TinyKeepDelaunay {
  import opened TinyKeepGeometry
  import opened Lists

  datatype Option<T> = None | Some(value: T)

  // ---------------------------------------------------------------------
  // Small sets of corner indices, listed in increasing order

  function Elems(s: seq<int>): set<int>
  {
    set x | x in s
  }

  /** x put in its place in the increasing s, unless it is there already. */
  function Insert(x: int, s: seq<int>): (r: seq<int>)
    requires Increasing(s)
    ensures Increasing(r) && Elems(r) == Elems(s) + {x}
  {
    if |s| == 0 then [x]
    else if x < s[0] then
      InsertFront(x, s);
      [x] + s
    else if x == s[0] then s
    else
      TailIncreasing(s);
      var rest := Insert(x, s[1..]);
      InsertAfter(x, s, rest);
      [s[0]] + rest
  }

  lemma TailIncreasing(s: seq<int>)
    requires Increasing(s) && |s| > 0
    ensures Increasing(s[1..]) && Elems(s) == {s[0]} + Elems(s[1..])
  {
    assert s == [s[0]] + s[1..];
  }

  lemma InsertFront(x: int, s: seq<int>)
    requires Increasing(s) && |s| > 0 && x < s[0]
    ensures Increasing([x] + s) && Elems([x] + s) == Elems(s) + {x}
  {
  }

  lemma InsertAfter(x: int, s: seq<int>, rest: seq<int>)
    requires Increasing(s) && |s| > 0 && s[0] < x
    requires Increasing(rest) && Elems(rest) == Elems(s[1..]) + {x}
    ensures Increasing([s[0]] + rest) && Elems([s[0]] + rest) == Elems(s) + {x}
  {
    var r := [s[0]] + rest;
    forall i, j | 0 <= i < j < |r|
      ensures r[i] < r[j]
    {
      if i == 0 {
        assert rest[j - 1] in Elems(rest);
        if rest[j - 1] != x {
          var k :| 0 <= k < |s[1..]| && s[1..][k] == rest[j - 1];
          assert s[0] < s[k + 1];
        }
      }
    }
    TailIncreasing(s);
    assert Elems(r) == {s[0]} + Elems(rest);
  }

  /** The distinct entries of xs in increasing order. */
  function Ascending(xs: seq<int>): (r: seq<int>)
    ensures Increasing(r) && Elems(r) == Elems(xs)
  {
    if |xs| == 0 then []
    else
      var n := |xs| - 1;
      assert xs == xs[..n] + [xs[n]];
      Insert(xs[n], Ascending(xs[..n]))
  }

  /** An increasing list has as many entries as its set has members. */
  lemma {:induction false} IncreasingCard(s: seq<int>)
    requires Increasing(s)
    ensures |Elems(s)| == |s|
    decreases |s|
  {
    if |s| > 0 {
      IncreasingCard(s[1..]);
      assert Elems(s) == {s[0]} + Elems(s[1..]);
      assert s[0] !in Elems(s[1..]);
    }
  }

  // ---------------------------------------------------------------------
  // Triangles over point indices

  datatype Triangle = Triangle(a: int, b: int, c: int)

  function Corners(t: Triangle): set<int>
  {
    {t.a, t.b, t.c}
  }

  /** Triangle equality in the program: the same corners, in any order. */
  predicate Same(t1: Triangle, t2: Triangle)
  {
    Corners(t1) == Corners(t2)
  }

  /** The corners of t that are (inS) or are not (!inS) in s, in corner order. */
  function Pick(t: Triangle, s: set<int>, inS: bool): (r: seq<int>)
    ensures Elems(r) == if inS then Corners(t) * s else Corners(t) - s
  {
    (if (t.a in s) == inS then [t.a] else []) +
    (if (t.b in s) == inS then [t.b] else []) +
    (if (t.c in s) == inS then [t.c] else [])
  }

  /** The corners of t that are (inS) or are not (!inS) in s, in increasing order. */
  function Listing(t: Triangle, s: set<int>, inS: bool): (r: seq<int>)
    ensures Increasing(r) && |r| == |Elems(r)|
    ensures inS ==> Elems(r) == Corners(t) * s
    ensures !inS ==> Elems(r) == Corners(t) - s
  {
    var r := Ascending(Pick(t, s, inS));
    IncreasingCard(r);
    r
  }

  /** The set of a short increasing list. */
  lemma Listed(l: seq<int>)
    requires Increasing(l)
    ensures |l| == 1 ==> Elems(l) == {l[0]}
    ensures |l| == 2 ==> Elems(l) == {l[0], l[1]} && l[0] < l[1]
  {
    if |l| == 1 {
      assert l == [l[0]];
    } else if |l| == 2 {
      assert l == [l[0], l[1]];
    }
  }

  /**
   * list.remove: ts without its first triangle equal to t; None (a
   * ValueError) when no triangle of ts equals t.
   */
  function Remove(ts: seq<Triangle>, t: Triangle): (r: Option<seq<Triangle>>)
    ensures r.None? <==> forall j :: 0 <= j < |ts| ==> !Same(ts[j], t)
    ensures r.Some? ==> |r.value| == |ts| - 1 && forall s :: s in r.value ==> s in ts
  {
    if |ts| == 0 then None
    else if Same(ts[0], t) then Some(ts[1..])
    else
      match Remove(ts[1..], t)
      case None => None
      case Some(rest) => Some([ts[0]] + rest)
  }

  /** Removing an entry equal to ts[k] takes out the one at some f <= k. */
  lemma {:induction false} FirstRemoved(ts: seq<Triangle>, t: Triangle, k: int) returns (f: int)
    requires 0 <= k < |ts| && Same(ts[k], t)
    ensures 0 <= f <= k && Remove(ts, t) == Some(ts[..f] + ts[f + 1..])
    decreases k
  {
    if !Same(ts[0], t) {
      var g := FirstRemoved(ts[1..], t, k - 1);
      f := g + 1;
      assert [ts[0]] + (ts[1..][..g] + ts[1..][g + 1..]) == ts[..f] + ts[f + 1..];
    } else {
      f := 0;
      assert ts[1..] == ts[..0] + ts[1..];
    }
  }

  /** The triangle removed is the first one equal to t. */
  lemma {:induction false} RemoveAt(ts: seq<Triangle>, t: Triangle, k: int)
    requires 0 <= k < |ts| && Same(ts[k], t)
    requires forall j :: 0 <= j < k ==> !Same(ts[j], t)
    ensures Remove(ts, t) == Some(ts[..k] + ts[k + 1..])
    decreases k
  {
    if k > 0 {
      assert !Same(ts[0], t);
      RemoveAt(ts[1..], t, k - 1);
      assert [ts[0]] + (ts[1..][..k - 1] + ts[1..][k..]) == ts[..k] + ts[k + 1..];
      assert Remove(ts, t) == Some([ts[0]] + (ts[1..][..k - 1] + ts[1..][k..]));
    } else {
      assert ts[..0] + ts[1..] == ts[1..];
    }
  }

  /** The merged corners in terms of the three listings. */
  lemma QuadParts(l1: seq<int>, l2: seq<int>, l3: seq<int>, v: seq<int>, A: set<int>, B: set<int>)
    requires |l1| == 1 && |l2| == 1 && |l3| == 2 && v == [l1[0], l3[0], l2[0], l3[1]]
    requires A - B == {l1[0]} && B - A == {l2[0]} && A * B == {l3[0], l3[1]} && l3[0] < l3[1]
    ensures A - B == {v[0]} && B - A == {v[2]} && A * B == {v[1], v[3]} && v[1] < v[3]
  {
  }

  /** The listings of A - B, B - A and A * B as the merge reads them. */
  lemma ListedParts(l1: seq<int>, l2: seq<int>, l3: seq<int>, A: set<int>, B: set<int>)
    requires Increasing(l1) && Increasing(l2) && Increasing(l3)
    requires |l1| == |Elems(l1)| && |l2| == |Elems(l2)| && |l3| == |Elems(l3)|
    requires Elems(l1) == A - B && Elems(l2) == B - A && Elems(l3) == A * B
    ensures |l1| == |A - B| && |l2| == |B - A| && |l3| == |A * B|
    ensures |l1| == 1 ==> A - B == {l1[0]}
    ensures |l2| == 1 ==> B - A == {l2[0]}
    ensures |l3| == 2 ==> A * B == {l3[0], l3[1]} && l3[0] < l3[1]
  {
    Listed(l1);
    Listed(l2);
    Listed(l3);
  }

  /**
   * The two triangles are the two halves of the quadrilateral v:
   * v[0] v[1] v[3] and v[2] v[1] v[3].
   */
  lemma MergeHalves(v: seq<int>, A: set<int>, B: set<int>)
    requires |v| == 4 && A - B == {v[0]} && B - A == {v[2]} && A * B == {v[1], v[3]}
    ensures A == {v[0], v[1], v[3]} && B == {v[2], v[1], v[3]} && v[0] != v[2]
  {
    assert A == (A - B) + (A * B);
    assert B == (B - A) + (A * B);
  }

  predicate InRange(t: Triangle, n: int)
  {
    0 <= t.a < n && 0 <= t.b < n && 0 <= t.c < n
  }

  /** The corners of the quadrilateral index points when the corners of its halves do. */
  lemma MergeInRange(t1: Triangle, t2: Triangle, v: seq<int>, n: int)
    requires InRange(t1, n) && InRange(t2, n) && IsQuad(t1, t2, v)
    ensures 0 <= v[0] < n && 0 <= v[1] < n && 0 <= v[2] < n && 0 <= v[3] < n
  {
    assert v[0] in Corners(t1) - Corners(t2);
    assert v[1] in Corners(t1) * Corners(t2) && v[3] in Corners(t1) * Corners(t2);
    assert v[2] in Corners(t2) - Corners(t1);
    CornerInRange(t1, v[0], n);
    CornerInRange(t1, v[1], n);
    CornerInRange(t2, v[2], n);
    CornerInRange(t1, v[3], n);
  }

  lemma CornerInRange(t: Triangle, v: int, n: int)
    requires InRange(t, n) && v in Corners(t)
    ensures 0 <= v < n
  {
  }

  /** The triangle uses no corner of the auxiliary triangle (indices n and up). */
  predicate Finite(t: Triangle, n: int)
  {
    t.a < n && t.b < n && t.c < n
  }

  /** The indices of the triangles that are kept when the auxiliary corners go. */
  function Kept(ts: seq<Triangle>, n: int): set<int>
  {
    set k | 0 <= k < |ts| && Finite(ts[k], n)
  }

  /** The point p lies in the triangle t whose corners index pts. */
  predicate Covers(pts: seq<Point>, t: Triangle, p: Point)
    requires InRange(t, |pts|)
  {
    PointInTriangle(p, pts[t.a], pts[t.b], pts[t.c])
  }

  /** The indices of the triangles of ts covering p. */
  ghost function CoverSet(pts: seq<Point>, ts: seq<Triangle>, p: Point): set<int>
    requires forall t :: t in ts ==> InRange(t, |pts|)
  {
    set k | 0 <= k < |ts| && Covers(pts, ts[k], p)
  }

  /** The edge p1 p2 is an edge of t (both are corners of t). */
  predicate HasEdge(t: Triangle, p1: int, p2: int)
  {
    {p1, p2} <= Corners(t)
  }

  /**
   * The triangle across the edge p1 p2: Missing when no triangle has that
   * edge; Across(k, q) when the first one is triangles[k] and q is its
   * third corner (the least one, when it has several); Flat(k) when
   * triangles[k] has no corner besides p1 and p2, where the program fails
   * with an IndexError.
   */
  datatype Neighbour = Missing | Across(k: int, q: int) | Flat(k: int)

  ghost predicate Locates(ts: seq<Triangle>, p1: int, p2: int, nb: Neighbour)
  {
    (nb.Missing? <==> forall k :: 0 <= k < |ts| ==> !HasEdge(ts[k], p1, p2)) &&
    (!nb.Missing? ==>
      0 <= nb.k < |ts| && HasEdge(ts[nb.k], p1, p2) &&
      (forall j :: 0 <= j < nb.k ==> !HasEdge(ts[j], p1, p2)) &&
      (nb.Flat? <==> Corners(ts[nb.k]) <= {p1, p2})) &&
    (nb.Across? ==>
      nb.q in Corners(ts[nb.k]) - {p1, p2} &&
      forall v :: v in Corners(ts[nb.k]) - {p1, p2} ==> nb.q <= v)
  }

  /** The first triangle with the edge, and the smallest of its other corners. */
  lemma FoundEdge(ts: seq<Triangle>, p1: int, p2: int, k: int, rest: seq<int>)
    requires 0 <= k < |ts| && HasEdge(ts[k], p1, p2)
    requires forall j :: 0 <= j < k ==> !HasEdge(ts[j], p1, p2)
    requires Increasing(rest) && Elems(rest) == Corners(ts[k]) - {p1, p2}
    ensures Locates(ts, p1, p2, if |rest| == 0 then Flat(k) else Across(k, rest[0]))
  {
    if |rest| > 0 {
      assert rest[0] in Elems(rest);
      forall v | v in Corners(ts[k]) - {p1, p2}
        ensures rest[0] <= v
      {
        var i :| 0 <= i < |rest| && rest[i] == v;
        assert i == 0 || rest[0] < rest[i];
      }
    } else {
      assert Corners(ts[k]) - {p1, p2} == {};
    }
  }

  /** There is only one neighbour across an edge. */
  lemma LocatesUnique(ts: seq<Triangle>, p1: int, p2: int, nb1: Neighbour, nb2: Neighbour)
    requires Locates(ts, p1, p2, nb1) && Locates(ts, p1, p2, nb2)
    ensures nb1 == nb2
  {
    if !nb1.Missing? && !nb2.Missing? {
      assert nb1.k == nb2.k;
    }
  }

  /**
   * The triangle across the edge p1 p2, searched for from position k on
   * as LocateTriangle2 searches.
   */
  function NeighbourFrom(ts: seq<Triangle>, p1: int, p2: int, k: nat): (nb: Neighbour)
    ensures !nb.Missing? ==> k <= nb.k < |ts|
    decreases |ts| - k
  {
    if k >= |ts| then Missing
    else if HasEdge(ts[k], p1, p2) then
      var rest := Listing(ts[k], {p1, p2}, false);
      if |rest| == 0 then Flat(k) else Across(k, rest[0])
    else NeighbourFrom(ts, p1, p2, k + 1)
  }

  /** The search finds the neighbour Locates describes. */
  lemma {:induction false} NeighbourFromLocates(ts: seq<Triangle>, p1: int, p2: int, k: nat)
    requires k <= |ts| && forall j :: 0 <= j < k ==> !HasEdge(ts[j], p1, p2)
    ensures Locates(ts, p1, p2, NeighbourFrom(ts, p1, p2, k))
    decreases |ts| - k
  {
    if k < |ts| {
      if HasEdge(ts[k], p1, p2) {
        FoundEdge(ts, p1, p2, k, Listing(ts[k], {p1, p2}, false));
      } else {
        NeighbourFromLocates(ts, p1, p2, k + 1);
      }
    }
  }

  /** Any neighbour Locates describes is the one the search finds. */
  lemma LocatesSearch(ts: seq<Triangle>, p1: int, p2: int, nb: Neighbour)
    requires Locates(ts, p1, p2, nb)
    ensures nb == NeighbourFrom(ts, p1, p2, 0)
  {
    NeighbourFromLocates(ts, p1, p2, 0);
    LocatesUnique(ts, p1, p2, nb, NeighbourFrom(ts, p1, p2, 0));
  }

  /** Decides whether to flip the edge A B of the triangle A B C, across from q. */
  type Flip = (int, int, int, int) -> bool

  /**
   * What the flip test of t leaves of ts: None on the IndexError of a flat
   * neighbour; when the neighbour across t.a t.b (third corner q) passes
   * the flip test, it leaves and t.a t.c q, t.b t.c q are appended;
   * otherwise t itself is appended.
   */
  function FlipTest(ts: seq<Triangle>, t: Triangle, flip: Flip): (r: Option<seq<Triangle>>)
  {
    var nb := NeighbourFrom(ts, t.a, t.b, 0);
    if nb.Flat? then None
    else if nb.Across? && flip(t.a, t.b, t.c, nb.q) then
      Some(ts[..nb.k] + ts[nb.k + 1..] + [Triangle(t.a, t.c, nb.q), Triangle(t.b, t.c, nb.q)])
    else Some(ts + [t])
  }

  /** The flip tests of the batch, one after another; None once one fails. */
  function BatchTest(ts: seq<Triangle>, batch: seq<Triangle>, flip: Flip): (r: Option<seq<Triangle>>)
    decreases |batch|
  {
    if |batch| == 0 then Some(ts)
    else match FlipTest(ts, batch[0], flip)
      case None => None
      case Some(ts1) => BatchTest(ts1, batch[1..], flip)
  }

  /**
   * A batch of triangles with corner i adds one triangle per entry, and
   * every triangle it leaves is an old one or has corner i.
   */
  lemma {:induction false} BatchTestGrows(ts: seq<Triangle>, batch: seq<Triangle>, flip: Flip, i: int)
    requires forall j :: 0 <= j < |batch| ==> batch[j].c == i
    requires BatchTest(ts, batch, flip).Some?
    ensures |BatchTest(ts, batch, flip).value| == |ts| + |batch|
    ensures forall s :: s in BatchTest(ts, batch, flip).value ==> s in ts || i in Corners(s)
    decreases |batch|
  {
    if |batch| > 0 {
      var ts1 := FlipTest(ts, batch[0], flip).value;
      assert forall s :: s in ts1 ==> s in ts || i in Corners(s);
      BatchTestGrows(ts1, batch[1..], flip, i);
    }
  }

  /** The two triangles share exactly one edge: the merge's assertions hold. */
  predicate Merges(t1: Triangle, t2: Triangle)
  {
    |Corners(t1) - Corners(t2)| == 1 && |Corners(t2) - Corners(t1)| == 1 &&
    |Corners(t1) * Corners(t2)| == 2
  }

  /**
   * v is the quadrilateral of t1 and t2: the corner only t1 has, the
   * smaller shared corner, the corner only t2 has, the larger shared corner.
   */
  predicate IsQuad(t1: Triangle, t2: Triangle, v: seq<int>)
  {
    |v| == 4 &&
    Corners(t1) - Corners(t2) == {v[0]} && Corners(t2) - Corners(t1) == {v[2]} &&
    Corners(t1) * Corners(t2) == {v[1], v[3]} && v[1] < v[3]
  }

  /** The quadrilateral of two triangles is determined. */
  lemma QuadUnique(t1: Triangle, t2: Triangle, v: seq<int>, w: seq<int>)
    requires IsQuad(t1, t2, v) && IsQuad(t1, t2, w)
    ensures v == w
  {
    assert v[0] in {w[0]} && v[2] in {w[2]};
    assert v[1] in {w[1], w[3]} && v[3] in {w[1], w[3]};
    assert w[1] in {v[1], v[3]} && w[3] in {v[1], v[3]};
  }

  /** The three triangles of t0's edges with the point i inside it. */
  function InsideBatch(t0: Triangle, i: int): seq<Triangle>
  {
    [Triangle(t0.a, t0.b, i), Triangle(t0.b, t0.c, i), Triangle(t0.c, t0.a, i)]
  }

  /** The four triangles of the quadrilateral v's sides with the point i on its diagonal. */
  function EdgeBatch(v: seq<int>, i: int): seq<Triangle>
    requires |v| == 4
  {
    [Triangle(v[0], v[1], i), Triangle(v[1], v[2], i), Triangle(v[2], v[3], i), Triangle(v[3], v[0], i)]
  }

  /** The triangles of the batch of a quadrilateral index points when its corners and i do. */
  lemma EdgeBatchInRange(v: seq<int>, i: int, n: int)
    requires |v| == 4 && 0 <= i < n
    requires 0 <= v[0] < n && 0 <= v[1] < n && 0 <= v[2] < n && 0 <= v[3] < n
    ensures forall j :: 0 <= j < 4 ==> InRange(EdgeBatch(v, i)[j], n) && EdgeBatch(v, i)[j].c == i
  {
  }

  /** Inserting i inside t0: t0 leaves the list, then its batch is tested. */
  function SplitIn(ts: seq<Triangle>, t0: Triangle, i: int, flip: Flip): Option<seq<Triangle>>
  {
    match Remove(ts, t0)
    case None => None
    case Some(rest) => BatchTest(rest, InsideBatch(t0, i), flip)
  }

  /** A quadrilateral has halves that merge. */
  lemma QuadMerges(t1: Triangle, t2: Triangle, v: seq<int>)
    requires IsQuad(t1, t2, v)
    ensures Merges(t1, t2)
  {
    assert |{v[1], v[3]}| == 2;
  }

  /** The quadrilateral of t1 and t2 when they have one, and [] when not. */
  ghost function QuadOf(t1: Triangle, t2: Triangle): (v: seq<int>)
    ensures (exists w :: IsQuad(t1, t2, w)) ==> IsQuad(t1, t2, v)
    ensures !(exists w :: IsQuad(t1, t2, w)) ==> v == []
  {
    if exists w :: IsQuad(t1, t2, w) then var w :| IsQuad(t1, t2, w); w else []
  }

  /** The quadrilateral MergeTriangles lists is the one QuadOf names; it has none when they do not merge. */
  lemma QuadOfIs(t1: Triangle, t2: Triangle, v: Option<seq<int>>)
    requires v.Some? <==> Merges(t1, t2)
    requires v.Some? ==> IsQuad(t1, t2, v.value)
    ensures v.Some? ==> QuadOf(t1, t2) == v.value
    ensures v.None? ==> !IsQuad(t1, t2, QuadOf(t1, t2))
  {
    if v.Some? {
      QuadUnique(t1, t2, QuadOf(t1, t2), v.value);
    } else if IsQuad(t1, t2, QuadOf(t1, t2)) {
      QuadMerges(t1, t2, QuadOf(t1, t2));
    }
  }

  /**
   * Inserting i on the edge t0 and t1 share: both leave the list, then the
   * batch of their quadrilateral is tested; no quadrilateral, no insertion.
   */
  ghost function SplitOn(ts: seq<Triangle>, t0: Triangle, t1: Triangle, i: int, flip: Flip): Option<seq<Triangle>>
  {
    match Remove(ts, t0)
    case None => None
    case Some(r0) =>
      match Remove(r0, t1)
      case None => None
      case Some(r1) =>
        var v := QuadOf(t0, t1);
        if IsQuad(t0, t1, v) then BatchTest(r1, EdgeBatch(v, i), flip) else None
  }

  /** The ascending indices below k of the triangles of ts that index pts and cover p. */
  function Covering(pts: seq<Point>, ts: seq<Triangle>, p: Point, k: nat): (at: seq<int>)
    requires k <= |ts|
    ensures forall j :: 0 <= j < |at| ==> 0 <= at[j] < k
  {
    if k == 0 then []
    else Covering(pts, ts, p, k - 1) + (if InRange(ts[k - 1], |pts|) && Covers(pts, ts[k - 1], p) then [k - 1] else [])
  }

  /** Covering lists, in increasing order, exactly the covering triangles below k. */
  lemma {:induction false} CoveringLists(pts: seq<Point>, ts: seq<Triangle>, p: Point, k: nat)
    requires k <= |ts|
    ensures Increasing(Covering(pts, ts, p, k))
    ensures forall m :: m in Covering(pts, ts, p, k) <==>
      0 <= m < k && InRange(ts[m], |pts|) && Covers(pts, ts[m], p)
  {
    if k > 0 {
      CoveringLists(pts, ts, p, k - 1);
    }
  }

  /**
   * Inserting point i into ts: split the one triangle covering it, or the
   * two sharing the edge it lies on; any other number of covering
   * triangles fails, and so does an index that names no point.
   */
  ghost function AddPoint(pts: seq<Point>, ts: seq<Triangle>, i: int, flip: Flip): Option<seq<Triangle>>
  {
    if !(0 <= i < |pts|) then None
    else
      var at := Covering(pts, ts, pts[i], |ts|);
      if |at| == 1 then SplitIn(ts, ts[at[0]], i, flip)
      else if |at| == 2 then SplitOn(ts, ts[at[0]], ts[at[1]], i, flip)
      else None
  }

  /** One step of a growth: the triangles so far and the index of the next point. */
  type Step = (seq<Triangle>, int) -> Option<seq<Triangle>>

  /** The insertion of the next point of pts. */
  ghost function Inserting(pts: seq<Point>, flip: Flip): Step
  {
    (ts: seq<Triangle>, i: int) => AddPoint(pts, ts, i, flip)
  }

  /** The steps for 0 to n - 1 taken in turn from ts, stopping at the first failure. */
  ghost function Grow(step: Step, ts: seq<Triangle>, n: nat): Option<seq<Triangle>>
  {
    if n == 0 then Some(ts)
    else
      match Grow(step, ts, n - 1)
      case None => None
      case Some(g) => step(g, n - 1)
  }

  /** Once a step fails, the growth fails. */
  lemma {:induction false} GrowStops(step: Step, ts: seq<Triangle>, n: nat, m: nat)
    requires n <= m && Grow(step, ts, n).None?
    ensures Grow(step, ts, m).None?
    decreases m - n
  {
    if n < m {
      GrowStops(step, ts, n + 1, m);
    }
  }

  /** A growth that reached g takes its next step from g. */
  lemma GrowNext(step: Step, ts: seq<Triangle>, n: nat, g: seq<Triangle>)
    requires Grow(step, ts, n) == Some(g)
    ensures Grow(step, ts, n + 1) == step(g, n)
  {
  }

  /** Every step of step is the insertion AddPoint makes into pts. */
  ghost predicate Steps(step: Step, pts: seq<Point>, flip: Flip)
  {
    forall ts, i {:trigger AddPoint(pts, ts, i, flip)} :: step(ts, i) == AddPoint(pts, ts, i, flip)
  }

  lemma InsertingSteps(pts: seq<Point>, flip: Flip)
    ensures Steps(Inserting(pts, flip), pts, flip)
  {
  }

  /**
   * The triangulation of pts: the auxiliary triangle around them, every
   * point inserted in turn, then only the triangles without an auxiliary
   * corner, in their order.
   */
  ghost function Triangulation(pts: seq<Point>, flip: Flip): Option<seq<Triangle>>
  {
    var n := |pts|;
    match Grow(Inserting(pts + Super(Bound(pts)), flip), [Triangle(n, n + 1, n + 2)], n)
    case None => None
    case Some(g) => Some(Sub(g, Kept(g, n)))
  }

  // ---------------------------------------------------------------------
  // The graph

  class DelaunayGraph {
    var points: seq<Point>
    var npoints: int
    var triangles: seq<Triangle>

    /** Every corner of every triangle indexes a point. */
    ghost predicate Indexed()
      reads this
    {
      forall t :: t in triangles ==> InRange(t, |points|)
    }

    /** The graph before its triangles are computed. */
    constructor(pts: seq<Point>)
      ensures points == pts && npoints == |pts| && triangles == []
    {
      points := pts;
      npoints := |pts|;
      triangles := [];
    }

    /** The triangles containing point i, with their ascending indices at. */
    method LocateTriangle(i: int) returns (ret: seq<Triangle>, ghost at: seq<int>)
      requires Indexed() && 0 <= i < |points|
      ensures |ret| == |at| && Increasing(at)
      ensures forall j :: 0 <= j < |at| ==> 0 <= at[j] < |triangles| && ret[j] == triangles[at[j]]
      ensures Elems(at) == CoverSet(points, triangles, points[i])
      ensures at == Covering(points, triangles, points[i], |triangles|)
    {
      ret, at := [], [];
      for k := 0 to |triangles|
        invariant |ret| == |at| && at == Covering(points, triangles, points[i], k)
        invariant forall j :: 0 <= j < |at| ==> ret[j] == triangles[at[j]]
      {
        assert triangles[k] in triangles;
        if Covers(points, triangles[k], points[i]) {
          ret, at := ret + [triangles[k]], at + [k];
        }
      }
      CoveringLists(points, triangles, points[i], |triangles|);
    }

    /** The first triangle with the edge p1 p2, and its third corner. */
    method LocateTriangle2(p1: int, p2: int) returns (nb: Neighbour)
      ensures Locates(triangles, p1, p2, nb)
    {
      var k := 0;
      while k < |triangles|
        invariant 0 <= k <= |triangles|
        invariant forall j :: 0 <= j < k ==> !HasEdge(triangles[j], p1, p2)
      {
        var t := triangles[k];
        if {p1, p2} <= Corners(t) {
          var rest := Listing(t, {p1, p2}, false);
          FoundEdge(triangles, p1, p2, k, rest);
          if |rest| == 0 {
            return Flat(k);
          }
          return Across(k, rest[0]);
        }
        k := k + 1;
      }
      return Missing;
    }

    /**
     * The four corners of the quadrilateral two triangles sharing an edge
     * make: the corner only t1 has, the smaller shared corner, the corner
     * only t2 has, the larger shared corner.  None is the failed assertion
     * when the two do not share exactly two corners.
     */
    method MergeTriangles(t1: Triangle, t2: Triangle) returns (r: Option<seq<int>>)
      ensures r.Some? <==> Merges(t1, t2)
      ensures r.Some? ==> IsQuad(t1, t2, r.value)
    {
      var l1 := Listing(t1, Corners(t2), false);
      var l2 := Listing(t2, Corners(t1), false);
      var l3 := Listing(t1, Corners(t2), true);
      ListedParts(l1, l2, l3, Corners(t1), Corners(t2));
      if |l1| != 1 || |l2| != 1 || |l3| != 2 {
        return None;
      }
      var v := [l1[0], l3[0], l2[0], l3[1]];
      QuadParts(l1, l2, l3, v, Corners(t1), Corners(t2));
      return Some(v);
    }

    /**
     * The Lawson flip of the edge t.a t.b: when the triangle across it
     * has third corner q and the flip test holds, that triangle is
     * removed and t.a t.c q and t.b t.c q are added.  ok is false on the
     * IndexError of a flat neighbour.
     */
    method LawsonFlip(t: Triangle, flip: Flip) returns (flipped: bool, ok: bool, ghost nb: Neighbour)
      requires Indexed() && InRange(t, |points|)
      modifies this`triangles
      ensures Locates(old(triangles), t.a, t.b, nb)
      ensures ok <==> !nb.Flat?
      ensures flipped <==> nb.Across? && flip(t.a, t.b, t.c, nb.q)
      ensures flipped ==>
        triangles == old(triangles)[..nb.k] + old(triangles)[nb.k + 1..] + [Triangle(t.a, t.c, nb.q), Triangle(t.b, t.c, nb.q)]
      ensures !flipped ==> triangles == old(triangles)
      ensures Indexed()
      ensures forall s :: s in triangles ==> s in old(triangles) || t.c in Corners(s)
    {
      var r := LocateTriangle2(t.a, t.b);
      nb := r;
      if r.Missing? {
        return false, true, nb;
      }
      if r.Flat? {
        return false, false, nb;
      }
      if !flip(t.a, t.b, t.c, r.q) {
        return false, true, nb;
      }
      var k := r.k;
      forall j | 0 <= j < k
        ensures !Same(triangles[j], triangles[k])
      {
        assert !HasEdge(triangles[j], t.a, t.b);
      }
      RemoveAt(triangles, triangles[k], k);
      var rest := Remove(triangles, triangles[k]);
      assert triangles[k] in triangles;
      CornerInRange(triangles[k], r.q, |points|);
      triangles := rest.value + [Triangle(t.a, t.c, r.q), Triangle(t.b, t.c, r.q)];
      return true, true, nb;
    }

    /**
     * Each triangle of the batch (all with third corner i) takes the flip
     * test in turn: it is appended unless the Lawson flip replaced its
     * neighbour; ok is false on the IndexError of a flat neighbour.
     */
    method BatchFlipTest(batch: seq<Triangle>, i: int, flip: Flip) returns (ok: bool)
      requires Indexed() && forall j :: 0 <= j < |batch| ==> InRange(batch[j], |points|) && batch[j].c == i
      modifies this`triangles
      ensures Indexed()
      ensures ok <==> BatchTest(old(triangles), batch, flip).Some?
      ensures ok ==> triangles == BatchTest(old(triangles), batch, flip).value
      ensures forall s :: s in triangles ==> s in old(triangles) || i in Corners(s)
    {
      for j := 0 to |batch|
        invariant Indexed()
        invariant forall s :: s in triangles ==> s in old(triangles) || i in Corners(s)
        invariant BatchTest(triangles, batch[j..], flip) == BatchTest(old(triangles), batch, flip)
      {
        ghost var before := triangles;
        var flipped, fine, nb := LawsonFlip(batch[j], flip);
        LocatesSearch(before, batch[j].a, batch[j].b, nb);
        assert batch[j..][0] == batch[j] && batch[j..][1..] == batch[j + 1..];
        if !fine {
          return false;
        }
        if !flipped {
          triangles := triangles + [batch[j]];
        }
      }
      assert batch[|batch|..] == [];
      return true;
    }

    /**
     * Inserts point i: it must lie in one triangle, which is split into
     * three, or on the edge two triangles share, which are split into four;
     * each new triangle then takes the flip test.  Anything else fails.
     */
    method IncrementalDelaunay(i: int, flip: Flip) returns (ok: bool)
      requires Indexed() && 0 <= i < |points|
      modifies this`triangles
      ensures Indexed()
      ensures ok <==> AddPoint(points, old(triangles), i, flip).Some?
      ensures ok ==> AddPoint(points, old(triangles), i, flip) == Some(triangles)
      ensures ok ==> |triangles| == |old(triangles)| + 2
      ensures ok ==> |CoverSet(points, old(triangles), points[i])| in {1, 2}
      ensures forall s :: s in triangles ==> s in old(triangles) || i in Corners(s)
    {
      var t, at := LocateTriangle(i);
      IncreasingCard(at);
      if |t| == 1 {
        assert triangles[at[0]] == t[0];
        Listed(at);
        ok := SplitInside(t[0], i, flip);
      } else if |t| == 2 {
        assert triangles[at[0]] == t[0] && triangles[at[1]] == t[1];
        Listed(at);
        ok := SplitOnEdge(t[0], t[1], at[0], at[1], i, flip);
      } else {
        ok := false;
      }
    }

    /**
     * The point i lies in the triangle t0 only: t0 leaves the list and the
     * three triangles of its edges with i take the flip test.
     */
    method SplitInside(t0: Triangle, i: int, flip: Flip) returns (ok: bool)
      requires Indexed() && 0 <= i < |points| && t0 in triangles
      modifies this`triangles
      ensures Indexed()
      ensures ok <==> SplitIn(old(triangles), t0, i, flip).Some?
      ensures ok ==> triangles == SplitIn(old(triangles), t0, i, flip).value
      ensures ok ==> |triangles| == |old(triangles)| + 2
      ensures forall s :: s in triangles ==> s in old(triangles) || i in Corners(s)
    {
      var rest := Remove(triangles, t0);
      var a, b, c := t0.a, t0.b, t0.c;
      assert InRange(Triangle(a, b, i), |points|) && InRange(Triangle(b, c, i), |points|) && InRange(Triangle(c, a, i), |points|);
      triangles := rest.value;
      var batch := [Triangle(a, b, i), Triangle(b, c, i), Triangle(c, a, i)];
      assert batch == InsideBatch(t0, i);
      ok := BatchFlipTest(batch, i, flip);
      if ok {
        BatchTestGrows(rest.value, batch, flip, i);
      }
    }

    /**
     * The point i lies on the edge triangles[k0] = t0 and triangles[k1] = t1
     * share: both leave the list, and the four triangles of the sides of
     * their quadrilateral with i take the flip test.  ok is false when the
     * merge's assertions fail or a flip test does.
     */
    method SplitOnEdge(t0: Triangle, t1: Triangle, ghost k0: int, ghost k1: int, i: int, flip: Flip)
      returns (ok: bool)
      requires Indexed() && 0 <= i < |points|
      requires 0 <= k0 < k1 < |triangles| && triangles[k0] == t0 && triangles[k1] == t1
      modifies this`triangles
      ensures Indexed()
      ensures ok <==> SplitOn(old(triangles), t0, t1, i, flip).Some?
      ensures ok ==> triangles == SplitOn(old(triangles), t0, t1, i, flip).value
      ensures ok ==> |triangles| == |old(triangles)| + 2
      ensures !Merges(t0, t1) ==> !ok
      ensures forall s :: s in triangles ==> s in old(triangles) || i in Corners(s)
    {
      ghost var ts := triangles;
      assert t0 in ts && t1 in ts;
      var rest := Remove(triangles, t0);
      ghost var f := FirstRemoved(triangles, t0, k0);
      triangles := rest.value;
      assert triangles[k1 - 1] == t1;
      var rest2 := Remove(triangles, t1);
      triangles := rest2.value;
      assert forall s :: s in triangles ==> s in ts;
      var v := MergeTriangles(t0, t1);
      QuadOfIs(t0, t1, v);
      if v.None? {
        return false;
      }
      MergeInRange(t0, t1, v.value, |points|);
      EdgeBatchInRange(v.value, i, |points|);
      var batch := EdgeBatch(v.value, i);
      ok := BatchFlipTest(batch, i, flip);
      if ok {
        BatchTestGrows(rest2.value, batch, flip, i);
      }
    }

    /**
     * The triangulation: the auxiliary triangle around all points, every
     * point inserted in turn, and then the triangles that use a corner of
     * the auxiliary triangle removed.  grown is the list before that
     * removal; what is left is its triangles without auxiliary corners, in
     * their order, and these use only the points given.
     */
    method ComputeTriangles(flip: Flip) returns (ok: bool, ghost grown: seq<Triangle>)
      requires npoints == |points| && triangles == []
      modifies this`points, this`triangles
      ensures points == old(points) + Super(Bound(old(points)))
      ensures ok <==> Triangulation(old(points), flip).Some?
      ensures ok ==> Triangulation(old(points), flip) == Some(triangles)
      ensures ok ==> Grow(Inserting(points, flip), [Triangle(npoints, npoints + 1, npoints + 2)], npoints) == Some(grown)
      ensures ok ==> |grown| == 1 + 2 * npoints && triangles == Sub(grown, Kept(grown, npoints))
      ensures ok ==> forall t :: t in triangles ==> InRange(t, npoints)
    {
      grown := [];
      AddAuxiliary();
      var n := npoints;
      triangles := triangles + [Triangle(n, n + 1, n + 2)];
      ghost var start := triangles;
      assert start == [Triangle(n, n + 1, n + 2)] && points == old(points) + Super(Bound(old(points)));
      InsertingSteps(points, flip);
      ok := InsertPoints(flip, Inserting(points, flip));
      ghost var g := Grow(Inserting(points, flip), start, n);
      assert Triangulation(old(points), flip) == if g.None? then None else Some(Sub(g.value, Kept(g.value, n)));
      if !ok {
        return;
      }
      grown := triangles;
      StripAuxiliary(n);
      KeptInRange(grown, n, n + 3);
      ok := true;
    }

    /** Appends the corners of the auxiliary triangle, three times the largest coordinate out. */
    method AddAuxiliary()
      modifies this`points
      ensures points == old(points) + Super(Bound(old(points)))
    {
      var m := 0;
      for k := 0 to |points|
        invariant points == old(points)
        invariant m == Bound(points[..k])
      {
        assert points[..k + 1][..k] == points[..k];
        m := Max(Max(points[k].x, points[k].y), m);
      }
      assert points[..|points|] == points;
      points := points + Super(m);
    }

    /** Inserts the points 0 to npoints - 1 in turn, stopping at the first failure. */
    method InsertPoints(flip: Flip, ghost step: Step) returns (ok: bool)
      requires Indexed() && 0 <= npoints <= |points| && Steps(step, points, flip)
      modifies this`triangles
      ensures Indexed()
      ensures ok <==> Grow(step, old(triangles), npoints).Some?
      ensures ok ==> Grow(step, old(triangles), npoints) == Some(triangles)
      ensures ok ==> |triangles| == |old(triangles)| + 2 * npoints
    {
      ok := true;
      for i := 0 to npoints
        invariant Indexed() && |triangles| == |old(triangles)| + 2 * i
        invariant Grow(step, old(triangles), i) == Some(triangles)
      {
        ok := InsertNext(i, flip, step, old(triangles));
        if !ok {
          GrowStops(step, old(triangles), i + 1, npoints);
          return;
        }
      }
    }

    /** Point i inserted after the points before it: one more step of the growth from ts. */
    method InsertNext(i: int, flip: Flip, ghost step: Step, ghost ts: seq<Triangle>) returns (ok: bool)
      requires Indexed() && 0 <= i < |points| && Steps(step, points, flip)
      requires Grow(step, ts, i) == Some(triangles)
      modifies this`triangles
      ensures Indexed()
      ensures ok <==> Grow(step, ts, i + 1).Some?
      ensures ok ==> Grow(step, ts, i + 1) == Some(triangles)
      ensures ok ==> |triangles| == |old(triangles)| + 2
    {
      GrowNext(step, ts, i, triangles);
      ok := IncrementalDelaunay(i, flip);
      assert step(old(triangles), i) == AddPoint(points, old(triangles), i, flip);
    }

    /**
     * The triangles with a corner at index n or above, collected first and
     * then removed one after another (each the first equal to it): what is
     * left is the others, in their order.
     */
    method StripAuxiliary(n: int)
      modifies this`triangles
      ensures triangles == Sub(old(triangles), Kept(old(triangles), n))
    {
      ghost var grown := triangles;
      var removeSet, drop := CollectAuxiliary(n);
      var cur := triangles;
      ghost var p := 0;
      for j := 0 to |removeSet|
        invariant Stripped(grown, Kept(grown, n), cur, drop, p, j)
      {
        StripStep(grown, n, removeSet, drop, cur, p, j);
        var rest := Remove(cur, removeSet[j]);
        cur := rest.value;
        p := drop[j] + 1;
      }
      StripDone(grown, n, removeSet, drop, cur, p);
      triangles := cur;
    }

    /** The triangles with a corner at index n or above, and (ghost) their positions. */
    method CollectAuxiliary(n: int) returns (removeSet: seq<Triangle>, ghost drop: seq<int>)
      ensures Collected(triangles, n, removeSet, drop)
    {
      removeSet, drop := [], [];
      for k := 0 to |triangles|
        invariant |removeSet| == |drop| && Increasing(drop)
        invariant forall j :: 0 <= j < |drop| ==> 0 <= drop[j] < k && removeSet[j] == triangles[drop[j]]
        invariant forall m :: 0 <= m < k ==> (m in drop <==> m !in Kept(triangles, n))
      {
        var t := triangles[k];
        if t.a >= n || t.b >= n || t.c >= n {
          removeSet, drop := removeSet + [t], drop + [k];
        }
      }
    }

    /** The neighbours of every point: the points it shares a triangle with. */
    method AdjacencyList() returns (adj: seq<set<int>>)
      requires 0 <= npoints
      requires forall t :: t in triangles ==> InRange(t, npoints)
      ensures |adj| == npoints
      ensures forall u, v :: 0 <= u < npoints ==>
        (v in adj[u] <==> exists k :: 0 <= k < |triangles| && Linked(triangles[k], u, v))
    {
      adj := seq(npoints, _ => {});
      for k := 0 to |triangles|
        invariant |adj| == npoints
        invariant forall u, v :: 0 <= u < npoints ==>
          (v in adj[u] <==> exists m :: 0 <= m < k && Linked(triangles[m], u, v))
      {
        var t := triangles[k];
        assert t in triangles;
        adj := adj[t.a := adj[t.a] + {t.b, t.c}];
        adj := adj[t.b := adj[t.b] + {t.c, t.a}];
        adj := adj[t.c := adj[t.c] + {t.a, t.b}];
      }
    }
  }

  /** The three corners of the auxiliary triangle for coordinates up to m. */
  function Super(m: int): seq<Point>
  {
    [Point(3 * m, 0), Point(0, 3 * m), Point(-3 * m, -3 * m)]
  }

  /** The largest coordinate of the points, and 0 when that is larger. */
  function Bound(pts: seq<Point>): (m: int)
    ensures m >= 0 && forall k :: 0 <= k < |pts| ==> pts[k].x <= m && pts[k].y <= m
    ensures m == 0 || exists k :: 0 <= k < |pts| && (pts[k].x == m || pts[k].y == m)
  {
    if |pts| == 0 then 0
    else
      var n := |pts| - 1;
      var r := Max(Max(pts[n].x, pts[n].y), Bound(pts[..n]));
      assert forall k :: 0 <= k < n ==> pts[..n][k] == pts[k];
      r
  }

  /** The auxiliary triangle contains every point in the square 0 .. m by 0 .. m. */
  lemma SuperContains(m: int, p: Point)
    requires 0 <= p.x <= m && 0 <= p.y <= m
    ensures PointInTriangle(p, Super(m)[0], Super(m)[1], Super(m)[2])
  {
    SuperOrients(m, p);
    InTriangleIff(p, Super(m)[0], Super(m)[1], Super(m)[2]);
  }

  lemma SuperOrients(m: int, p: Point)
    requires 0 <= p.x <= m && 0 <= p.y <= m
    ensures Orient(p, Point(3 * m, 0), Point(0, 3 * m)) >= 0
    ensures Orient(p, Point(0, 3 * m), Point(-3 * m, -3 * m)) >= 0
    ensures Orient(p, Point(-3 * m, -3 * m), Point(3 * m, 0)) >= 0
  {
    var x, y := p.x, p.y;
    ScaleBound(m, x);
    ScaleBound(m, y);
    assert (3 * m - x) * (3 * m - y) - (0 - x) * (0 - y) == 9 * (m * m) - 3 * (m * x) - 3 * (m * y);
    assert (0 - x) * (-3 * m - y) - (-3 * m - x) * (3 * m - y) == 9 * (m * m) + 6 * (m * x) - 3 * (m * y);
    assert (-3 * m - x) * (0 - y) - (3 * m - x) * (-3 * m - y) == 9 * (m * m) + 6 * (m * y) - 3 * (m * x);
  }

  lemma ScaleBound(m: int, x: int)
    requires 0 <= x <= m
    ensures 0 <= m * x <= m * m
  {
  }

  /** The two corners of a triangle edge, in either direction. */
  predicate Linked(t: Triangle, u: int, v: int)
  {
    (u == t.a && (v == t.b || v == t.c)) ||
    (u == t.b && (v == t.c || v == t.a)) ||
    (u == t.c && (v == t.a || v == t.b))
  }

  /** The adjacency is symmetric. */
  lemma LinkedSymmetric(t: Triangle, u: int, v: int)
    ensures Linked(t, u, v) == Linked(t, v, u)
  {
  }

  lemma FiniteNotSame(t1: Triangle, t2: Triangle, n: int)
    requires Finite(t1, n) && !Finite(t2, n)
    ensures !Same(t1, t2)
  {
    if t2.a >= n {
      assert t2.a !in Corners(t1);
    } else if t2.b >= n {
      assert t2.b !in Corners(t1);
    } else {
      assert t2.c !in Corners(t1);
    }
  }

  lemma SameRefl(t: Triangle)
    ensures Same(t, t)
  {
  }

  /** The triangles left after the strip use only the points below n. */
  lemma KeptInRange(ts: seq<Triangle>, n: int, m: int)
    requires forall t :: t in ts ==> InRange(t, m)
    ensures forall t :: t in Sub(ts, Kept(ts, n)) ==> InRange(t, n)
  {
    forall t | t in Sub(ts, Kept(ts, n))
      ensures InRange(t, n)
    {
      SubFrom(ts, Kept(ts, n), t);
      var k :| 0 <= k < |ts| && k in Kept(ts, n) && ts[k] == t;
      assert ts[k] in ts;
    }
  }

  /** removeSet lists the triangles of grown outside Kept(grown, n), drop their positions. */
  ghost predicate Collected(grown: seq<Triangle>, n: int, removeSet: seq<Triangle>, drop: seq<int>)
  {
    |removeSet| == |drop| && Increasing(drop) &&
    (forall e :: 0 <= e < |drop| ==> 0 <= drop[e] < |grown| && removeSet[e] == grown[drop[e]]) &&
    (forall m :: 0 <= m < |grown| ==> (m in drop <==> m !in Kept(grown, n)))
  }

  /**
   * The removal loop has taken out the triangles at drop[..j]: the list is
   * the kept triangles before p, followed by all from p on.
   */
  ghost predicate Stripped(grown: seq<Triangle>, keep: set<int>, cur: seq<Triangle>, drop: seq<int>, p: int, j: int)
  {
    0 <= j <= |drop| && (j == 0 ==> p == 0) && (0 < j ==> p == drop[j - 1] + 1) &&
    0 <= p <= |grown| &&
    cur == Sub(grown[..p], keep) + grown[p..] && |Sub(grown[..p], keep)| == p - j
  }

  /** The next removal takes out exactly the triangle at drop[j]. */
  lemma StripStep(grown: seq<Triangle>, n: int, removeSet: seq<Triangle>, drop: seq<int>, cur: seq<Triangle>, p: int, j: int)
    requires Collected(grown, n, removeSet, drop) && j < |drop|
    requires Stripped(grown, Kept(grown, n), cur, drop, p, j)
    ensures Remove(cur, removeSet[j]).Some?
    ensures Stripped(grown, Kept(grown, n), Remove(cur, removeSet[j]).value, drop, drop[j] + 1, j + 1)
  {
    var keep := Kept(grown, n);
    var d := drop[j];
    GapKept(grown, keep, drop, j, p);
    RemoveNext(grown, keep, cur, p, j, d);
    assert removeSet[j] == grown[d] && !Finite(grown[d], n);
    forall e | 0 <= e < d - j
      ensures !Same(cur[e], removeSet[j])
    {
      SubFrom(grown[..d], keep, cur[e]);
      FiniteNotSame(cur[e], removeSet[j], n);
    }
    SameRefl(removeSet[j]);
    RemoveAt(cur, removeSet[j], d - j);
  }

  /** After the last removal, what is left is the kept triangles. */
  lemma StripDone(grown: seq<Triangle>, n: int, removeSet: seq<Triangle>, drop: seq<int>, cur: seq<Triangle>, p: int)
    requires Collected(grown, n, removeSet, drop)
    requires Stripped(grown, Kept(grown, n), cur, drop, p, |drop|)
    ensures cur == Sub(grown, Kept(grown, n))
  {
    var keep := Kept(grown, n);
    GapKept(grown, keep, drop, |drop|, p);
    SubRun(grown, keep, p, |grown|);
    assert grown[..|grown|] == grown;
  }

  /** The positions between two removals are kept. */
  lemma GapKept(s: seq<Triangle>, keep: set<int>, drop: seq<int>, j: int, p: int)
    requires Increasing(drop) && 0 <= j <= |drop|
    requires forall m :: 0 <= m < |s| ==> (m in drop <==> m !in keep)
    requires forall e :: 0 <= e < |drop| ==> 0 <= drop[e] < |s|
    requires j == 0 ==> p == 0
    requires 0 < j ==> p == drop[j - 1] + 1
    ensures forall m :: p <= m < (if j < |drop| then drop[j] else |s|) ==> m in keep
  {
    forall m | p <= m < (if j < |drop| then drop[j] else |s|)
      ensures m in keep
    {
      forall e | 0 <= e < |drop|
        ensures drop[e] != m
      {
        if e < j - 1 {
          assert drop[e] < drop[j - 1];
        } else if j < e {
          assert drop[j] < drop[e];
        }
      }
    }
  }
}
