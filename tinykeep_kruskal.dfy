/*
 * The corridor graph of the TinyKeep generator: the edges u < v of the
 * room adjacency lists, and a Kruskal pass over them with a union-find list
 * that compresses paths as it looks up roots.  An edge whose ends already
 * have the same root is kept only when a coin comes up (the chance of a
 * loop in the dungeon); the coin is an oracle on the edge's position.
 *
 * The union re-parents the first end itself, not its root, so the union-find
 * does not always merge whole classes: the retained edges need not form a
 * tree.  What is proved is that they connect everything the input edges
 * connect, and that every dropped edge closes a cycle of edges retained
 * before it.
 */
module TinyKeepKruskal {
  import opened Lists

  datatype Edge = Edge(u: int, v: int)

  // ---------------------------------------------------------------------
  // Connectivity through a list of undirected edges

  predicate Linked(es: seq<Edge>, a: int, b: int)
  {
    Edge(a, b) in es || Edge(b, a) in es
  }

  /** Consecutive points of p are linked by edges of es. */
  ghost predicate Walk(es: seq<Edge>, p: seq<int>)
  {
    forall i :: 0 <= i && i + 1 < |p| ==> Linked(es, p[i], p[i + 1])
  }

  /** Some walk along es leads from a to b. */
  ghost predicate Conn(es: seq<Edge>, a: int, b: int)
  {
    exists p :: |p| > 0 && p[0] == a && p[|p| - 1] == b && Walk(es, p)
  }

  lemma ConnRefl(es: seq<Edge>, a: int)
    ensures Conn(es, a, a)
  {
    assert Walk(es, [a]);
  }

  lemma ConnEdge(es: seq<Edge>, a: int, b: int)
    requires Linked(es, a, b)
    ensures Conn(es, a, b)
  {
    assert Walk(es, [a, b]);
  }

  lemma ConnTrans(es: seq<Edge>, a: int, b: int, c: int)
    requires Conn(es, a, b) && Conn(es, b, c)
    ensures Conn(es, a, c)
  {
    var p :| |p| > 0 && p[0] == a && p[|p| - 1] == b && Walk(es, p);
    var q :| |q| > 0 && q[0] == b && q[|q| - 1] == c && Walk(es, q);
    var r := p + q[1..];
    forall i | 0 <= i && i + 1 < |r|
      ensures Linked(es, r[i], r[i + 1])
    {
      if i + 1 < |p| {
        assert r[i] == p[i] && r[i + 1] == p[i + 1];
      } else {
        var j := i + 1 - |p|;
        assert r[i] == q[j] && r[i + 1] == q[j + 1];
      }
    }
    assert Walk(es, r);
  }

  lemma {:induction false} ConnSym(es: seq<Edge>, a: int, b: int)
    requires Conn(es, a, b)
    ensures Conn(es, b, a)
  {
    var p :| |p| > 0 && p[0] == a && p[|p| - 1] == b && Walk(es, p);
    ConnSymWalk(es, p);
  }

  lemma {:induction false} ConnSymWalk(es: seq<Edge>, p: seq<int>)
    requires |p| > 0 && Walk(es, p)
    ensures Conn(es, p[|p| - 1], p[0])
    decreases |p|
  {
    if |p| == 1 {
      ConnRefl(es, p[0]);
    } else {
      var q := p[1..];
      assert Walk(es, q) by {
        forall i | 0 <= i && i + 1 < |q|
          ensures Linked(es, q[i], q[i + 1])
        {
          assert q[i] == p[i + 1] && q[i + 1] == p[i + 2];
        }
      }
      ConnSymWalk(es, q);
      assert Linked(es, p[1], p[0]);
      ConnEdge(es, p[1], p[0]);
      ConnTrans(es, p[|p| - 1], p[1], p[0]);
    }
  }

  /** More edges connect at least as much. */
  lemma ConnGrow(es: seq<Edge>, e: Edge, a: int, b: int)
    requires Conn(es, a, b)
    ensures Conn(es + [e], a, b)
  {
    var p :| |p| > 0 && p[0] == a && p[|p| - 1] == b && Walk(es, p);
    forall i | 0 <= i && i + 1 < |p|
      ensures Linked(es + [e], p[i], p[i + 1])
    {
      assert Linked(es, p[i], p[i + 1]);
    }
    assert Walk(es + [e], p);
  }

  /**
   * When the ends of every edge of es are connected through ks, whatever es
   * connects ks connects too.
   */
  lemma {:induction false} ConnTransfer(es: seq<Edge>, ks: seq<Edge>, a: int, b: int)
    requires forall e :: e in es ==> Conn(ks, e.u, e.v)
    requires Conn(es, a, b)
    ensures Conn(ks, a, b)
  {
    var p :| |p| > 0 && p[0] == a && p[|p| - 1] == b && Walk(es, p);
    TransferWalk(es, ks, p);
  }

  lemma {:induction false} TransferWalk(es: seq<Edge>, ks: seq<Edge>, p: seq<int>)
    requires forall e :: e in es ==> Conn(ks, e.u, e.v)
    requires |p| > 0 && Walk(es, p)
    ensures Conn(ks, p[0], p[|p| - 1])
    decreases |p|
  {
    if |p| == 1 {
      ConnRefl(ks, p[0]);
    } else {
      var q := p[1..];
      assert Walk(es, q) by {
        forall i | 0 <= i && i + 1 < |q|
          ensures Linked(es, q[i], q[i + 1])
        {
          assert q[i] == p[i + 1] && q[i + 1] == p[i + 2];
        }
      }
      TransferWalk(es, ks, q);
      assert Linked(es, p[0], p[1]);
      if Edge(p[0], p[1]) in es {
        assert Conn(ks, Edge(p[0], p[1]).u, Edge(p[0], p[1]).v);
      } else {
        assert Conn(ks, Edge(p[1], p[0]).u, Edge(p[1], p[0]).v);
        ConnSym(ks, p[1], p[0]);
      }
      ConnTrans(ks, p[0], p[1], p[|p| - 1]);
    }
  }

  // ---------------------------------------------------------------------
  // The union-find list

  /**
   * parent is a forest: every index points into the list, and a ghost rank
   * below bound grows strictly from a child to its parent, so following
   * parents always ends at a root.
   */
  ghost predicate Ranked(parent: seq<int>, rank: seq<int>, bound: int)
  {
    |rank| == |parent| &&
    forall x :: 0 <= x < |parent| ==>
      0 <= parent[x] < |parent| && 0 <= rank[x] < bound &&
      (parent[x] != x ==> rank[x] < rank[parent[x]])
  }

  /** The root reached from x by following parents. */
  ghost function Root(parent: seq<int>, rank: seq<int>, bound: int, x: int): (r: int)
    requires Ranked(parent, rank, bound) && 0 <= x < |parent|
    ensures 0 <= r < |parent| && parent[r] == r
    ensures r != x ==> rank[x] < rank[r]
    decreases bound - rank[x]
  {
    if parent[x] == x then x else Root(parent, rank, bound, parent[x])
  }

  /** Pointing x straight at its root changes no root. */
  lemma {:induction false} CompressRoot(parent: seq<int>, rank: seq<int>, bound: int, x: int, z: int)
    requires Ranked(parent, rank, bound) && 0 <= x < |parent| && 0 <= z < |parent|
    ensures Ranked(parent[x := Root(parent, rank, bound, x)], rank, bound)
    ensures Root(parent[x := Root(parent, rank, bound, x)], rank, bound, z) == Root(parent, rank, bound, z)
    decreases bound - rank[z]
  {
    var p' := parent[x := Root(parent, rank, bound, x)];
    assert Ranked(p', rank, bound);
    if parent[z] != z && z != x {
      CompressRoot(parent, rank, bound, x, parent[z]);
    }
  }

  /**
   * Pointing x at the root ry, with ry's rank raised above x's: a root
   * changes only for the indices whose root was x's, and then to ry.
   */
  lemma {:induction false} RelinkRoot(parent: seq<int>, rank: seq<int>, bound: int, x: int, ry: int, z: int)
    requires Ranked(parent, rank, bound) && 0 <= x < |parent| && 0 <= z < |parent|
    requires 0 <= ry < |parent| && parent[ry] == ry
    ensures Ranked(parent[x := ry], Relinked(rank, x, ry), bound + rank[x] + 2)
    ensures
      var z' := Root(parent[x := ry], Relinked(rank, x, ry), bound + rank[x] + 2, z);
      z' == Root(parent, rank, bound, z) ||
      (Root(parent, rank, bound, z) == Root(parent, rank, bound, x) && z' == ry)
    ensures Root(parent[x := ry], Relinked(rank, x, ry), bound + rank[x] + 2, x) == ry
    decreases bound - rank[z]
  {
    var p', rk', b' := parent[x := ry], Relinked(rank, x, ry), bound + rank[x] + 2;
    assert Ranked(p', rk', b');
    if z != x && parent[z] != z {
      RelinkRoot(parent, rank, bound, x, ry, parent[z]);
    }
  }

  /** The ranks after x is linked under the root ry. */
  ghost function Relinked(rank: seq<int>, x: int, ry: int): seq<int>
    requires 0 <= x < |rank| && 0 <= ry < |rank|
  {
    if x == ry then rank else rank[ry := rank[ry] + rank[x] + 1]
  }

  /** The list L of the Kruskal pass, with the ghost ranks that bound its paths. */
  class UnionFind {
    var parent: seq<int>
    ghost var rank: seq<int>
    ghost var bound: int

    ghost predicate Valid()
      reads this
    {
      Ranked(parent, rank, bound)
    }

    /** Every index its own root. */
    constructor (n: nat)
      ensures Valid() && |parent| == n && |rank| == n && bound == 1
      ensures forall x :: 0 <= x < n ==> parent[x] == x && rank[x] == 0
    {
      parent := seq(n, i => i);
      rank := seq(n, i => 0);
      bound := 1;
    }

    /**
     * The root of x.  On the way back every index on the path from x is
     * pointed straight at the root, which changes no root.
     */
    method Find(x: int) returns (r: int)
      requires Valid() && 0 <= x < |parent|
      modifies this`parent
      ensures Valid() && |parent| == |old(parent)|
      ensures r == Root(old(parent), rank, bound, x) && parent[x] == r
      ensures SameRoots(old(parent), parent, rank, bound)
      ensures parent == Compressed(old(parent), rank, bound, x)
      decreases bound - rank[x]
    {
      if parent[x] == x {
        return x;
      }
      r := Find(parent[x]);
      CompressRoots(parent, rank, bound, x);
      parent := parent[x := r];
    }

    /**
     * x is pointed at the root of y.  Only the indices that had x's root
     * may change root, and those that do now have y's.
     */
    method Union(x: int, y: int)
      requires Valid() && 0 <= x < |parent| && 0 <= y < |parent|
      modifies this
      ensures Valid() && |parent| == |old(parent)|
      ensures Rejoined(old(parent), old(rank), old(bound), parent, rank, bound, x, y)
      ensures
        var ry := Root(old(parent), old(rank), old(bound), y);
        parent == Compressed(old(parent), old(rank), old(bound), y)[x := ry] &&
        rank == Relinked(old(rank), x, ry) && bound == old(bound) + old(rank)[x] + 2
    {
      ghost var p0, r0, b0 := parent, rank, bound;
      var ry := Find(y);
      ghost var r1, b1 := Relinked(r0, x, ry), b0 + r0[x] + 2;
      RejoinedAfterFind(p0, parent, r0, b0, x, y, ry, parent[x := ry], r1, b1);
      rank, bound := r1, b1;
      parent := parent[x := ry];
    }
  }

  /** Both lists are forests over the same ranks, and give every index the same root. */
  ghost predicate SameRoots(p0: seq<int>, p1: seq<int>, rank: seq<int>, bound: int)
  {
    Ranked(p0, rank, bound) && Ranked(p1, rank, bound) && |p1| == |p0| &&
    forall z :: 0 <= z < |p0| ==> Root(p1, rank, bound, z) == Root(p0, rank, bound, z)
  }

  /** Compressing the path at x: the same roots. */
  lemma CompressRoots(parent: seq<int>, rank: seq<int>, bound: int, x: int)
    requires Ranked(parent, rank, bound) && 0 <= x < |parent|
    ensures SameRoots(parent, parent[x := Root(parent, rank, bound, x)], rank, bound)
  {
    CompressRoot(parent, rank, bound, x, x);
    forall z | 0 <= z < |parent|
      ensures Root(parent[x := Root(parent, rank, bound, x)], rank, bound, z) == Root(parent, rank, bound, z)
    {
      CompressRoot(parent, rank, bound, x, z);
    }
  }

  /**
   * The parent list after a find on x: every index on the path from x up
   * to its root is pointed straight at the root, the nearest last.
   */
  ghost function Compressed(parent: seq<int>, rank: seq<int>, bound: int, x: int): (p: seq<int>)
    requires Ranked(parent, rank, bound) && 0 <= x < |parent|
    ensures Ranked(p, rank, bound) && |p| == |parent| && p[x] == Root(parent, rank, bound, x)
    decreases bound - rank[x]
  {
    if parent[x] == x then parent
    else Compressed(parent, rank, bound, parent[x])[x := Root(parent, rank, bound, x)]
  }

  /** A find changes no root. */
  lemma {:induction false} CompressedSame(parent: seq<int>, rank: seq<int>, bound: int, x: int)
    requires Ranked(parent, rank, bound) && 0 <= x < |parent|
    ensures SameRoots(parent, Compressed(parent, rank, bound, x), rank, bound)
    decreases bound - rank[x]
  {
    if parent[x] != x {
      var p1 := Compressed(parent, rank, bound, parent[x]);
      CompressedSame(parent, rank, bound, parent[x]);
      CompressRoots(p1, rank, bound, x);
      assert Root(p1, rank, bound, x) == Root(parent, rank, bound, x);
    }
  }

  /**
   * (p1, r1, b1) is (p0, r0, b0) after x is put under y's root: x now has
   * y's old root, and every index keeps its root or trades x's old root for
   * y's.
   */
  ghost predicate Rejoined(p0: seq<int>, r0: seq<int>, b0: int, p1: seq<int>, r1: seq<int>, b1: int, x: int, y: int)
  {
    Ranked(p0, r0, b0) && Ranked(p1, r1, b1) && |p1| == |p0| && 0 <= x < |p0| && 0 <= y < |p0| &&
    Root(p1, r1, b1, x) == Root(p0, r0, b0, y) &&
    forall z :: 0 <= z < |p0| ==>
      Root(p1, r1, b1, z) == Root(p0, r0, b0, z) ||
      (Root(p0, r0, b0, z) == Root(p0, r0, b0, x) && Root(p1, r1, b1, z) == Root(p0, r0, b0, y))
  }

  /** Relinking x under the root ry, for every index at once. */
  lemma RelinkRoots(parent: seq<int>, rank: seq<int>, bound: int, x: int, ry: int)
    requires Ranked(parent, rank, bound) && 0 <= x < |parent|
    requires 0 <= ry < |parent| && parent[ry] == ry
    ensures Ranked(parent[x := ry], Relinked(rank, x, ry), bound + rank[x] + 2)
    ensures Root(parent[x := ry], Relinked(rank, x, ry), bound + rank[x] + 2, x) == ry
    ensures forall z :: 0 <= z < |parent| ==>
      Root(parent[x := ry], Relinked(rank, x, ry), bound + rank[x] + 2, z) == Root(parent, rank, bound, z) ||
      (Root(parent, rank, bound, z) == Root(parent, rank, bound, x) &&
       Root(parent[x := ry], Relinked(rank, x, ry), bound + rank[x] + 2, z) == ry)
  {
    RelinkRoot(parent, rank, bound, x, ry, x);
    forall z | 0 <= z < |parent|
      ensures
        Root(parent[x := ry], Relinked(rank, x, ry), bound + rank[x] + 2, z) == Root(parent, rank, bound, z) ||
        (Root(parent, rank, bound, z) == Root(parent, rank, bound, x) &&
         Root(parent[x := ry], Relinked(rank, x, ry), bound + rank[x] + 2, z) == ry)
    {
      RelinkRoot(parent, rank, bound, x, ry, z);
    }
  }

  /** A find on y before the relink changes no root, so the relink rejoins as seen from before it. */
  lemma RejoinedAfterFind(p0: seq<int>, p1: seq<int>, rank: seq<int>, bound: int, x: int, y: int, ry: int,
                          p2: seq<int>, r2: seq<int>, b2: int)
    requires SameRoots(p0, p1, rank, bound) && 0 <= x < |p0| && 0 <= y < |p0|
    requires ry == Root(p0, rank, bound, y)
    requires p2 == p1[x := ry] && r2 == Relinked(rank, x, ry) && b2 == bound + rank[x] + 2
    ensures Rejoined(p0, rank, bound, p2, r2, b2, x, y)
  {
    RelinkRoots(p1, rank, bound, x, ry);
    forall z | 0 <= z < |p0|
      ensures Root(p2, r2, b2, z) == Root(p0, rank, bound, z) ||
        (Root(p0, rank, bound, z) == Root(p0, rank, bound, x) && Root(p2, r2, b2, z) == ry)
    {
      assert Root(p1, rank, bound, z) == Root(p0, rank, bound, z);
      assert Root(p1, rank, bound, x) == Root(p0, rank, bound, x);
    }
  }

  // ---------------------------------------------------------------------
  // Edges of the adjacency lists

  /** a comes before b: by first end, then by second end. */
  predicate Before(a: Edge, b: Edge)
  {
    a.u < b.u || (a.u == b.u && a.v < b.v)
  }

  predicate Ordered(es: seq<Edge>)
  {
    forall i, j :: 0 <= i < j < |es| ==> Before(es[i], es[j])
  }

  lemma MinExists(s: set<int>)
    requires s != {}
    ensures exists m :: m in s && forall w :: w in s ==> m <= w
  {
    if forall y :: y !in s {
      assert false;
    }
    var x :| x in s;
    if s - {x} != {} {
      MinExists(s - {x});
      var m :| m in s - {x} && forall w :: w in s - {x} ==> m <= w;
      MinAdd(s, x, m);
    } else {
      assert s == {x};
      assert forall w :: w in s ==> x <= w;
    }
  }

  /** The least of s - {x}, compared with x, is the least of s. */
  lemma MinAdd(s: set<int>, x: int, m: int)
    requires x in s && m in s - {x} && forall w :: w in s - {x} ==> m <= w
    ensures exists l :: l in s && forall w :: w in s ==> l <= w
  {
    var least := if x < m then x else m;
    forall w | w in s
      ensures least <= w
    {
      if w != x {
        assert w in s - {x};
      }
    }
    assert least in s;
  }

  /**
   * Every pair u < v with v a neighbour of u, once, in order: by u, and
   * for one u by v (a set of neighbours is listed in increasing order).
   */
  method ListEdges(adj: seq<set<int>>) returns (edges: seq<Edge>)
    ensures Ordered(edges)
    ensures forall e :: e in edges <==> 0 <= e.u < |adj| && e.u < e.v && e.v in adj[e.u]
  {
    edges := [];
    for u := 0 to |adj|
      invariant Ordered(edges)
      invariant forall e :: e in edges <==> 0 <= e.u < u && e.u < e.v && e.v in adj[e.u]
    {
      var rest := adj[u];
      while rest != {}
        invariant rest <= adj[u] && Ordered(edges)
        invariant forall e :: e in edges <==>
          (0 <= e.u < u && e.u < e.v && e.v in adj[e.u]) || (e.u == u && u < e.v && e.v in adj[u] - rest)
        invariant forall e, w :: e in edges && w in rest ==> Before(e, Edge(u, w))
        decreases |rest|
      {
        MinExists(rest);
        var v :| v in rest && forall w :: w in rest ==> v <= w;
        rest := rest - {v};
        if u < v {
          edges := edges + [Edge(u, v)];
        }
      }
    }
  }

  // ---------------------------------------------------------------------
  // The Kruskal pass

  /** Every index is connected to its root by retained edges. */
  ghost predicate RootsLinked(parent: seq<int>, rank: seq<int>, bound: int, kept: seq<Edge>)
  {
    Ranked(parent, rank, bound) &&
    forall z :: 0 <= z < |parent| ==> Conn(kept, z, Root(parent, rank, bound, z))
  }

  /**
   * The first k edges are scanned: kept is the edges at the positions idx,
   * every position whose coin came up is among them, every other one
   * closes a cycle of edges retained before it, and the ends of every
   * scanned edge are connected by retained edges.
   */
  ghost predicate Scanned(edges: seq<Edge>, coin: int -> bool, kept: seq<Edge>, idx: set<int>, k: int)
  {
    0 <= k <= |edges| &&
    (forall j :: j in idx ==> 0 <= j < k) &&
    kept == Sub(edges[..k], idx) &&
    (forall j :: 0 <= j < k && coin(j) ==> j in idx) &&
    (forall j :: 0 <= j < k && j !in idx ==>
      !coin(j) && Conn(Sub(edges[..j], idx), edges[j].u, edges[j].v)) &&
    (forall j :: 0 <= j < k ==> Conn(kept, edges[j].u, edges[j].v))
  }

  /** Ends with one root are connected by retained edges. */
  lemma SameRoot(kept: seq<Edge>, a: int, b: int, r: int)
    requires Conn(kept, a, r) && Conn(kept, b, r)
    ensures Conn(kept, a, b)
  {
    ConnSym(kept, b, r);
    ConnTrans(kept, a, r, b);
  }

  /** After the edge e joins the roots of its ends, z reaches the new root. */
  lemma UnionLinked(kept: seq<Edge>, e: Edge, z: int, rx: int, ry: int)
    requires Conn(kept, z, rx) && Conn(kept, e.u, rx) && Conn(kept, e.v, ry)
    ensures Conn(kept + [e], z, ry)
  {
    var ks := kept + [e];
    SameRoot(kept, z, e.u, rx);
    ConnGrow(kept, e, z, e.u);
    ConnEdge(ks, e.u, e.v);
    ConnGrow(kept, e, e.v, ry);
    ConnTrans(ks, z, e.u, e.v);
    ConnTrans(ks, z, e.v, ry);
  }

  /** Finds change no root, so every index still reaches its root. */
  lemma LinkedAfterFind(p0: seq<int>, p1: seq<int>, rank: seq<int>, bound: int, kept: seq<Edge>)
    requires RootsLinked(p0, rank, bound, kept) && SameRoots(p0, p1, rank, bound)
    ensures RootsLinked(p1, rank, bound, kept)
  {
  }

  /** A retained edge keeps every index connected to its root. */
  lemma LinkedGrow(parent: seq<int>, rank: seq<int>, bound: int, kept: seq<Edge>, e: Edge)
    requires RootsLinked(parent, rank, bound, kept)
    ensures RootsLinked(parent, rank, bound, kept + [e])
  {
    forall z | 0 <= z < |parent|
      ensures Conn(kept + [e], z, Root(parent, rank, bound, z))
    {
      ConnGrow(kept, e, z, Root(parent, rank, bound, z));
    }
  }

  /** So does the union its ends make when it is retained. */
  lemma LinkedUnion(p0: seq<int>, r0: seq<int>, b0: int, p1: seq<int>, r1: seq<int>, b1: int,
                    kept: seq<Edge>, e: Edge)
    requires RootsLinked(p0, r0, b0, kept) && Rejoined(p0, r0, b0, p1, r1, b1, e.u, e.v)
    ensures RootsLinked(p1, r1, b1, kept + [e])
  {
    var rx, ry := Root(p0, r0, b0, e.u), Root(p0, r0, b0, e.v);
    forall z | 0 <= z < |p1|
      ensures Conn(kept + [e], z, Root(p1, r1, b1, z))
    {
      if Root(p1, r1, b1, z) == Root(p0, r0, b0, z) {
        ConnGrow(kept, e, z, Root(p0, r0, b0, z));
      } else {
        UnionLinked(kept, e, z, rx, ry);
      }
    }
  }

  /** The edge at k is retained. */
  lemma ScanKeep(edges: seq<Edge>, coin: int -> bool, kept: seq<Edge>, idx: set<int>, k: int)
    requires Scanned(edges, coin, kept, idx, k) && k < |edges|
    ensures Scanned(edges, coin, kept + [edges[k]], idx + {k}, k + 1)
  {
    var e := edges[k];
    var kept', idx' := kept + [e], idx + {k};
    assert edges[..k + 1][..k] == edges[..k];
    SubSame(edges[..k], idx, idx');
    forall j | 0 <= j < k && j !in idx'
      ensures Sub(edges[..j], idx') == Sub(edges[..j], idx)
    {
      SubSame(edges[..j], idx, idx');
    }
    forall j | 0 <= j < k
      ensures Conn(kept', edges[j].u, edges[j].v)
    {
      ConnGrow(kept, e, edges[j].u, edges[j].v);
    }
    ConnEdge(kept', e.u, e.v);
  }

  /** The edge at k is dropped: its coin did not come up and its ends are connected already. */
  lemma ScanDrop(edges: seq<Edge>, coin: int -> bool, kept: seq<Edge>, idx: set<int>, k: int)
    requires Scanned(edges, coin, kept, idx, k) && k < |edges|
    requires !coin(k) && Conn(kept, edges[k].u, edges[k].v)
    ensures Scanned(edges, coin, kept, idx, k + 1)
  {
    assert edges[..k + 1][..k] == edges[..k];
  }

  /** The root of y is still a root after a find on y, and x can be put under it. */
  lemma RelinkRanked(p2: seq<int>, rank: seq<int>, bound: int, x: int, y: int)
    requires Ranked(p2, rank, bound) && 0 <= x < |p2| && 0 <= y < |p2|
    ensures
      var ry := Root(p2, rank, bound, y);
      Ranked(Compressed(p2, rank, bound, y)[x := ry], Relinked(rank, x, ry), bound + rank[x] + 2)
  {
    var ry, p3 := Root(p2, rank, bound, y), Compressed(p2, rank, bound, y);
    CompressedSame(p2, rank, bound, y);
    assert Root(p3, rank, bound, ry) == ry;
    assert Ranked(p3[x := ry], Relinked(rank, x, ry), bound + rank[x] + 2);
  }

  /** The union-find list with its ghost ranks, as a value. */
  datatype Forest = Forest(parent: seq<int>, rank: seq<int>, bound: int)

  /** Every edge joins two of the points 0 .. n-1. */
  predicate Within(n: int, edges: seq<Edge>)
  {
    forall j :: 0 <= j < |edges| ==> 0 <= edges[j].u < n && 0 <= edges[j].v < n
  }

  /**
   * One edge of the pass: find on u, then on v, and when the roots differ
   * the union, which finds v once more and points u at v's root.
   */
  ghost function Visit(f: Forest, e: Edge): (g: Forest)
    requires Ranked(f.parent, f.rank, f.bound) && 0 <= e.u < |f.parent| && 0 <= e.v < |f.parent|
    ensures Ranked(g.parent, g.rank, g.bound) && |g.parent| == |f.parent|
  {
    var p1 := Compressed(f.parent, f.rank, f.bound, e.u);
    var p2 := Compressed(p1, f.rank, f.bound, e.v);
    if Root(f.parent, f.rank, f.bound, e.u) == Root(p1, f.rank, f.bound, e.v) then
      Forest(p2, f.rank, f.bound)
    else
      var ry := Root(p2, f.rank, f.bound, e.v);
      var p3 := Compressed(p2, f.rank, f.bound, e.v);
      RelinkRanked(p2, f.rank, f.bound, e.u, e.v);
      Forest(p3[e.u := ry], Relinked(f.rank, e.u, ry), f.bound + f.rank[e.u] + 2)
  }

  /** The union-find list before the edge at k is visited. */
  ghost function Forests(n: nat, edges: seq<Edge>, k: nat): (f: Forest)
    requires Within(n, edges) && k <= |edges|
    ensures Ranked(f.parent, f.rank, f.bound) && |f.parent| == n
  {
    if k == 0 then Forest(seq(n, i => i), seq(n, i => 0), 1)
    else Visit(Forests(n, edges, k - 1), edges[k - 1])
  }

  /**
   * The edge at k is retained: its ends have different roots when it is
   * visited, or else its coin comes up.
   */
  ghost predicate Retained(n: nat, edges: seq<Edge>, coin: int -> bool, k: nat)
    requires Within(n, edges) && k < |edges|
  {
    Keeps(Forests(n, edges, k), edges[k], coin(k))
  }

  /** The edge e, visited with the list f, is retained when c is its coin. */
  ghost predicate Keeps(f: Forest, e: Edge, c: bool)
    requires Ranked(f.parent, f.rank, f.bound) && 0 <= e.u < |f.parent| && 0 <= e.v < |f.parent|
  {
    Root(f.parent, f.rank, f.bound, e.u) != Root(f.parent, f.rank, f.bound, e.v) || c
  }

  /** Every end named by the list is one of the n points. */
  lemma WithinAll(n: nat, edges: seq<Edge>)
    requires forall e :: e in edges ==> 0 <= e.u < n && 0 <= e.v < n
    ensures Within(n, edges)
  {
    forall j | 0 <= j < |edges|
      ensures 0 <= edges[j].u < n && 0 <= edges[j].v < n
    {
      assert edges[j] in edges;
    }
  }

  /** The fresh forest is the start of the fold, and each point is its own root. */
  lemma FoldStart(n: nat, edges: seq<Edge>, parent: seq<int>, rank: seq<int>, bound: int)
    requires Within(n, edges) && Ranked(parent, rank, bound) && |parent| == n && |rank| == n && bound == 1
    requires forall x :: 0 <= x < n ==> parent[x] == x && rank[x] == 0
    ensures Forests(n, edges, 0) == Forest(parent, rank, bound)
    ensures RootsLinked(parent, rank, bound, [])
  {
    forall z | 0 <= z < n
      ensures Conn([], z, Root(parent, rank, bound, z))
    {
      ConnRefl([], z);
    }
  }

  /** One more edge of the fold, given the visit and the choice for it. */
  lemma FoldNext(n: nat, edges: seq<Edge>, coin: int -> bool, k: nat, f: Forest, g: Forest, kept: seq<Edge>, kept': seq<Edge>)
    requires Within(n, edges) && k < |edges|
    requires Forests(n, edges, k) == f && kept == Kruskal(n, edges, coin, k)
    requires g == Visit(f, edges[k])
    requires kept' == kept + if Keeps(f, edges[k], coin(k)) then [edges[k]] else []
    ensures Forests(n, edges, k + 1) == g && kept' == Kruskal(n, edges, coin, k + 1)
  {
  }

  /**
   * On the triangle 0-1, 1-2, 2-0 with no coin coming up, the first two
   * edges join everything and the third is dropped.
   */
  lemma TriangleDropsLast()
    ensures Kruskal(3, [Edge(0, 1), Edge(1, 2), Edge(2, 0)], k => false, 3) == [Edge(0, 1), Edge(1, 2)]
  {
    var es, no := [Edge(0, 1), Edge(1, 2), Edge(2, 0)], (k: int) => false;
    var f2 := Forest([1, 2, 2], [0, 1, 2], 6);
    TriangleForests();
    assert Root(f2.parent, f2.rank, f2.bound, 1) == 2;
    assert Root(f2.parent, f2.rank, f2.bound, 0) == 2;
    assert !Retained(3, es, no, 2);
  }

  /** The forests after the first and the second edge of the triangle. */
  lemma TriangleForests()
    ensures Forests(3, [Edge(0, 1), Edge(1, 2), Edge(2, 0)], 2) == Forest([1, 2, 2], [0, 1, 2], 6)
  {
    var es := [Edge(0, 1), Edge(1, 2), Edge(2, 0)];
    var f0 := Forest([0, 1, 2], [0, 0, 0], 1);
    var f1 := Forest([1, 1, 2], [0, 1, 0], 3);
    assert Forests(3, es, 0) == f0;
    TriangleFirst(f0, f1);
    TriangleSecond(f1, Forest([1, 2, 2], [0, 1, 2], 6));
  }

  lemma TriangleFirst(f0: Forest, f1: Forest)
    requires f0 == Forest([0, 1, 2], [0, 0, 0], 1) && f1 == Forest([1, 1, 2], [0, 1, 0], 3)
    ensures Ranked(f0.parent, f0.rank, f0.bound) && Visit(f0, Edge(0, 1)) == f1
  {
    assert Root(f0.parent, f0.rank, f0.bound, 0) == 0 && Root(f0.parent, f0.rank, f0.bound, 1) == 1;
  }

  lemma TriangleSecond(f1: Forest, f2: Forest)
    requires f1 == Forest([1, 1, 2], [0, 1, 0], 3) && f2 == Forest([1, 2, 2], [0, 1, 2], 6)
    ensures Ranked(f1.parent, f1.rank, f1.bound) && Visit(f1, Edge(1, 2)) == f2
  {
    assert Root(f1.parent, f1.rank, f1.bound, 1) == 1 && Root(f1.parent, f1.rank, f1.bound, 2) == 2;
  }

  /** The edges of the first k that the pass retains, in order. */
  ghost function Kruskal(n: nat, edges: seq<Edge>, coin: int -> bool, k: nat): seq<Edge>
    requires Within(n, edges) && k <= |edges|
  {
    if k == 0 then []
    else Kruskal(n, edges, coin, k - 1) + (if Retained(n, edges, coin, k - 1) then [edges[k - 1]] else [])
  }

  /**
   * Kruskal's pass over the edges in the order given, on the points 0 .. n-1.
   * An edge is retained when its ends have different roots (and the first
   * end is then put under the second's root), or else when coin(k) comes up
   * for its position k.  idx is the set of positions retained.
   */
  method AuxPseudoEmst(n: nat, edges: seq<Edge>, coin: int -> bool) returns (kept: seq<Edge>, ghost idx: set<int>)
    requires forall e :: e in edges ==> 0 <= e.u < n && 0 <= e.v < n
    ensures Within(n, edges) && kept == Kruskal(n, edges, coin, |edges|)
    ensures kept == Sub(edges, idx) && forall e :: e in kept ==> e in edges
    ensures forall k :: 0 <= k < |edges| && coin(k) ==> k in idx
    ensures forall k :: 0 <= k < |edges| && k !in idx ==>
      !coin(k) && Conn(Sub(edges[..k], idx), edges[k].u, edges[k].v)
    ensures forall e :: e in edges ==> Conn(kept, e.u, e.v)
    ensures forall a, b :: Conn(edges, a, b) ==> Conn(kept, a, b)
  {
    WithinAll(n, edges);
    var uf := new UnionFind(n);
    kept, idx := [], {};
    FoldStart(n, edges, uf.parent, uf.rank, uf.bound);
    for k := 0 to |edges|
      invariant uf.Valid() && |uf.parent| == n
      invariant RootsLinked(uf.parent, uf.rank, uf.bound, kept)
      invariant Scanned(edges, coin, kept, idx, k)
      invariant Forests(n, edges, k) == Forest(uf.parent, uf.rank, uf.bound)
      invariant kept == Kruskal(n, edges, coin, k)
    {
      ghost var f, kept0 := Forest(uf.parent, uf.rank, uf.bound), kept;
      kept, idx := VisitEdge(uf, n, edges, coin, k, kept, idx);
      FoldNext(n, edges, coin, k, f, Forest(uf.parent, uf.rank, uf.bound), kept0, kept);
    }
    ScanDone(edges, coin, kept, idx);
  }

  /**
   * The edge at k: find on each end, then retain it with a union when the
   * roots differ, or without one when its coin comes up.
   */
  method VisitEdge(uf: UnionFind, n: nat, edges: seq<Edge>, coin: int -> bool, k: nat,
                   kept: seq<Edge>, ghost idx: set<int>) returns (kept': seq<Edge>, ghost idx': set<int>)
    requires Within(n, edges) && k < |edges|
    requires uf.Valid() && |uf.parent| == n
    requires RootsLinked(uf.parent, uf.rank, uf.bound, kept) && Scanned(edges, coin, kept, idx, k)
    modifies uf
    ensures uf.Valid() && |uf.parent| == n
    ensures RootsLinked(uf.parent, uf.rank, uf.bound, kept') && Scanned(edges, coin, kept', idx', k + 1)
    ensures Forest(uf.parent, uf.rank, uf.bound) == Visit(Forest(old(uf.parent), old(uf.rank), old(uf.bound)), edges[k])
    ensures kept' == kept + if Keeps(Forest(old(uf.parent), old(uf.rank), old(uf.bound)), edges[k], coin(k)) then [edges[k]] else []
  {
    var e := edges[k];
    ghost var p0, r0, b0 := uf.parent, uf.rank, uf.bound;
    ghost var p1 := Compressed(p0, r0, b0, e.u);
    var ru, rv := FindBoth(uf, e.u, e.v);
    LinkedAfterFind(p0, uf.parent, r0, b0, kept);
    if ru == rv {
      SameRoot(kept, e.u, e.v, ru);
      VisitFound(Forest(p0, r0, b0), e, p1, uf.parent);
      if coin(k) {
        LinkedGrow(uf.parent, uf.rank, uf.bound, kept, e);
        ScanKeep(edges, coin, kept, idx, k);
        kept', idx' := kept + [e], idx + {k};
      } else {
        ScanDrop(edges, coin, kept, idx, k);
        kept', idx' := kept, idx;
      }
    } else {
      ghost var p2 := uf.parent;
      uf.Union(e.u, e.v);
      VisitJoined(Forest(p0, r0, b0), e, p1, p2, Root(p2, r0, b0, e.v), Forest(uf.parent, uf.rank, uf.bound));
      LinkedUnion(p2, r0, b0, uf.parent, uf.rank, uf.bound, kept, e);
      ScanKeep(edges, coin, kept, idx, k);
      kept', idx' := kept + [e], idx + {k};
    }
  }

  /** Find on u, then on v: the roots before either find, and both paths compressed. */
  method FindBoth(uf: UnionFind, u: int, v: int) returns (ru: int, rv: int)
    requires uf.Valid() && 0 <= u < |uf.parent| && 0 <= v < |uf.parent|
    modifies uf`parent
    ensures uf.Valid() && |uf.parent| == |old(uf.parent)|
    ensures ru == Root(old(uf.parent), uf.rank, uf.bound, u) && rv == Root(old(uf.parent), uf.rank, uf.bound, v)
    ensures SameRoots(old(uf.parent), uf.parent, uf.rank, uf.bound)
    ensures
      var p1 := Compressed(old(uf.parent), uf.rank, uf.bound, u);
      uf.parent == Compressed(p1, uf.rank, uf.bound, v) && rv == Root(p1, uf.rank, uf.bound, v)
  {
    ru := uf.Find(u);
    rv := uf.Find(v);
  }

  /** Visit when the two finds meet at one root: only the compressions remain. */
  lemma VisitFound(f: Forest, e: Edge, p1: seq<int>, p2: seq<int>)
    requires Ranked(f.parent, f.rank, f.bound) && 0 <= e.u < |f.parent| && 0 <= e.v < |f.parent|
    requires p1 == Compressed(f.parent, f.rank, f.bound, e.u) && p2 == Compressed(p1, f.rank, f.bound, e.v)
    requires Root(f.parent, f.rank, f.bound, e.u) == Root(p1, f.rank, f.bound, e.v)
    ensures Visit(f, e) == Forest(p2, f.rank, f.bound)
  {
  }

  /** Visit when the roots differ: the union hangs the first endpoint under the second root. */
  lemma VisitJoined(f: Forest, e: Edge, p1: seq<int>, p2: seq<int>, ry: int, g: Forest)
    requires Ranked(f.parent, f.rank, f.bound) && 0 <= e.u < |f.parent| && 0 <= e.v < |f.parent|
    requires p1 == Compressed(f.parent, f.rank, f.bound, e.u) && p2 == Compressed(p1, f.rank, f.bound, e.v)
    requires Root(f.parent, f.rank, f.bound, e.u) != Root(p1, f.rank, f.bound, e.v)
    requires ry == Root(p2, f.rank, f.bound, e.v)
    requires g.parent == Compressed(p2, f.rank, f.bound, e.v)[e.u := ry]
    requires g.rank == Relinked(f.rank, e.u, ry) && g.bound == f.bound + f.rank[e.u] + 2
    ensures Visit(f, e) == g
  {
  }

  /** The whole list scanned: what AuxPseudoEmst promises. */
  lemma ScanDone(edges: seq<Edge>, coin: int -> bool, kept: seq<Edge>, idx: set<int>)
    requires Scanned(edges, coin, kept, idx, |edges|)
    ensures kept == Sub(edges, idx) && forall e :: e in kept ==> e in edges
    ensures forall e :: e in edges ==> Conn(kept, e.u, e.v)
    ensures forall a, b :: Conn(edges, a, b) ==> Conn(kept, a, b)
  {
    assert edges[..|edges|] == edges;
    forall e | e in kept
      ensures e in edges
    {
      SubFrom(edges, idx, e);
    }
    forall a, b | Conn(edges, a, b)
      ensures Conn(kept, a, b)
    {
      ConnTransfer(edges, kept, a, b);
    }
  }

  /**
   * The corridors between rooms: the edges u < v of the adjacency lists,
   * put in the order reorder gives them (any permutation), and then the
   * Kruskal pass.  Every retained edge is an adjacency, and the ends of
   * every adjacency are connected by retained edges.
   */
  method PseudoEmst(adj: seq<set<int>>, reorder: seq<Edge> -> seq<Edge>, coin: int -> bool)
    returns (kept: seq<Edge>)
    requires forall u, v :: 0 <= u < |adj| && v in adj[u] ==> 0 <= v < |adj|
    requires forall es :: multiset(reorder(es)) == multiset(es)
    ensures forall e :: e in kept ==> 0 <= e.u < e.v < |adj| && e.v in adj[e.u]
    ensures forall u, v :: 0 <= u < v && u < |adj| && v in adj[u] ==> Conn(kept, u, v)
  {
    var listed := ListEdges(adj);
    var edges := reorder(listed);
    assert multiset(edges) == multiset(listed);
    assert forall e :: e in edges <==> e in listed by {
      forall e
        ensures e in edges <==> e in listed
      {
        assert e in edges <==> e in multiset(edges);
        assert e in listed <==> e in multiset(listed);
      }
    }
    ghost var idx;
    kept, idx := AuxPseudoEmst(|adj|, edges, coin);
    forall u, v | 0 <= u < v && u < |adj| && v in adj[u]
      ensures Conn(kept, u, v)
    {
      assert Edge(u, v) in listed;
      assert Conn(kept, Edge(u, v).u, Edge(u, v).v);
    }
  }
}
