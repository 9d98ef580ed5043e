/*
 * Connecting up a cave map.  The open (non-wall) cells are labelled with
 * region numbers by a recursive 4-connected flood fill started from every
 * cell in row-major order; each region's cells are collected, the largest
 * region is found, and every other region is joined to it by a tunnel walk
 * that steps to a neighbouring interior cell strictly closer to a target
 * cell, turning walls into floor.
 *
 * The label map is a value threaded through the calls.  The random draws
 * of the tunnel walk are parameters: the indices of the two end cells and
 * the sequence of directions drawn.
 */
module CaRegions {

  import opened Grids
  import opened CaCaves

  /** p is a cell of the map that is not a wall. */
  predicate Open(g: Grid, p: Pos)
  {
    0 <= p.1 < |g| && 0 <= p.0 < |g[p.1]| && g[p.1][p.0] != Wall
  }

  /** The label map l has the shape of the map g. */
  ghost predicate Fits(l: Grid, g: Grid)
  {
    |l| == |g| && forall j :: 0 <= j < |g| ==> |l[j]| == |g[j]|
  }

  function Left(p: Pos): Pos { (p.0 - 1, p.1) }
  function Up(p: Pos): Pos { (p.0, p.1 - 1) }
  function Right(p: Pos): Pos { (p.0 + 1, p.1) }
  function Down(p: Pos): Pos { (p.0, p.1 + 1) }

  /** n is one of the four neighbours of p. */
  predicate Adj(p: Pos, n: Pos)
  {
    n == Left(p) || n == Up(p) || n == Right(p) || n == Down(p)
  }

  /** Every open neighbour of p carries a label. */
  ghost predicate Surrounded(g: Grid, l: Grid, p: Pos)
  {
    (Open(g, Left(p)) ==> At(l, Left(p)) != 0) &&
    (Open(g, Up(p)) ==> At(l, Up(p)) != 0) &&
    (Open(g, Right(p)) ==> At(l, Right(p)) != 0) &&
    (Open(g, Down(p)) ==> At(l, Down(p)) != 0)
  }

  /** Every open neighbour of p carries p's label. */
  ghost predicate Same(g: Grid, l: Grid, p: Pos)
  {
    (Open(g, Left(p)) ==> At(l, Left(p)) == At(l, p)) &&
    (Open(g, Up(p)) ==> At(l, Up(p)) == At(l, p)) &&
    (Open(g, Right(p)) ==> At(l, Right(p)) == At(l, p)) &&
    (Open(g, Down(p)) ==> At(l, Down(p)) == At(l, p))
  }

  /**
   * l2 is l with some unlabelled open cells given the label id: no label
   * is changed and no wall is labelled.
   */
  ghost predicate Grew(g: Grid, l: Grid, l2: Grid, id: int)
  {
    forall p {:trigger At(l2, p)} ::
      At(l2, p) == At(l, p) || (At(l, p) == 0 && Open(g, p) && At(l2, p) == id)
  }

  /** Every cell labelled in l2 but not in l has all its open neighbours labelled. */
  ghost predicate FilledAround(g: Grid, l: Grid, l2: Grid)
  {
    forall p {:trigger Surrounded(g, l2, p)} :: At(l, p) == 0 && At(l2, p) != 0 ==> Surrounded(g, l2, p)
  }

  /** Labelled cells share their label with their open neighbours. */
  ghost predicate Agree(g: Grid, l: Grid)
  {
    forall p {:trigger Same(g, l, p)} :: At(l, p) != 0 ==> Same(g, l, p)
  }

  lemma GrewTrans(g: Grid, a: Grid, b: Grid, c: Grid, id: int)
    requires Grew(g, a, b, id) && Grew(g, b, c, id)
    ensures Grew(g, a, c, id)
  {
  }

  /** Labels only grow, so a surrounded cell stays surrounded. */
  lemma KeepSurrounded(g: Grid, b: Grid, c: Grid, id: int, p: Pos)
    requires Grew(g, b, c, id) && Surrounded(g, b, p)
    ensures Surrounded(g, c, p)
  {
  }

  lemma FilledTrans(g: Grid, a: Grid, b: Grid, c: Grid, id: int)
    requires FilledAround(g, a, b) && FilledAround(g, b, c) && Grew(g, b, c, id)
    ensures FilledAround(g, a, c)
  {
    forall p | At(a, p) == 0 && At(c, p) != 0
      ensures Surrounded(g, c, p)
    {
      if At(b, p) != 0 {
        assert Surrounded(g, b, p);
        KeepSurrounded(g, b, c, id, p);
      }
    }
  }

  /** Labelling one unlabelled open cell. */
  lemma LabelOne(g: Grid, l: Grid, p: Pos, id: int)
    requires Fits(l, g) && Open(g, p) && At(l, p) == 0
    ensures Fits(Set2(l, p, id), g) && At(Set2(l, p, id), p) == id
    ensures forall q {:trigger At(Set2(l, p, id), q)} :: q != p ==> At(Set2(l, p, id), q) == At(l, q)
    ensures Grew(g, l, Set2(l, p, id), id)
    ensures Count(Set2(l, p, id), 0) == Count(l, 0) - (if id == 0 then 0 else 1)
  {
    CountSet(l, p, id, 0);
  }

  /**
   * What a fill from s with the label id leaves: labels of the map's shape,
   * s labelled when it is open, labels only grown by id on open cells, every
   * newly labelled cell surrounded and reached from s through cells
   * unlabelled before, and no more unlabelled cells than before.
   */
  ghost predicate FillOf(g: Grid, l: Grid, l2: Grid, s: Pos, id: int)
  {
    Fits(l2, g) && (Open(g, s) ==> At(l2, s) != 0) &&
    Grew(g, l, l2, id) && FilledAround(g, l, l2) && Spread(g, l, l2, s) &&
    Count(l2, 0) <= Count(l, 0)
  }

  /** A fill that labels nothing, from a cell that is closed or labelled already. */
  lemma FillNone(g: Grid, l: Grid, s: Pos, id: int)
    requires Fits(l, g) && (Open(g, s) ==> At(l, s) != 0)
    ensures FillOf(g, l, l, s, id)
  {
  }

  /**
   * The labelling of p followed by the four fills of its neighbours (left,
   * up, right, down) is a fill from p.
   */
  lemma FillDone(g: Grid, l: Grid, l1: Grid, l2: Grid, l3: Grid, l4: Grid, l5: Grid, x: int, y: int, id: int)
    requires Fits(l, g) && Open(g, (x, y)) && At(l, (x, y)) == 0 && id != 0 && l1 == Set2(l, (x, y), id)
    requires FillOf(g, l1, l2, (x - 1, y), id) && FillOf(g, l2, l3, (x, y - 1), id)
    requires FillOf(g, l3, l4, (x + 1, y), id) && FillOf(g, l4, l5, (x, y + 1), id)
    ensures FillOf(g, l, l5, (x, y), id) && At(l5, (x, y)) == id
  {
    LabelOne(g, l, (x, y), id);
    FillSurrounds(g, l, l1, l2, l3, l4, l5, x, y, id);
    FillReach(g, l, l1, l2, l3, l4, l5, x, y, id);
  }

  /** The growth and the surrounded cells of the fill from (x, y), put together from its parts. */
  lemma FillSurrounds(g: Grid, l: Grid, l1: Grid, l2: Grid, l3: Grid, l4: Grid, l5: Grid, x: int, y: int, id: int)
    requires Open(g, (x, y)) && At(l, (x, y)) == 0 && id != 0
    requires Grew(g, l, l1, id) && At(l1, (x, y)) == id
    requires forall q {:trigger At(l1, q)} :: q != (x, y) ==> At(l1, q) == At(l, q)
    requires Grew(g, l1, l2, id) && Grew(g, l2, l3, id) && Grew(g, l3, l4, id) && Grew(g, l4, l5, id)
    requires FilledAround(g, l1, l2) && FilledAround(g, l2, l3)
    requires FilledAround(g, l3, l4) && FilledAround(g, l4, l5)
    requires Open(g, (x - 1, y)) ==> At(l2, (x - 1, y)) != 0
    requires Open(g, (x, y - 1)) ==> At(l3, (x, y - 1)) != 0
    requires Open(g, (x + 1, y)) ==> At(l4, (x + 1, y)) != 0
    requires Open(g, (x, y + 1)) ==> At(l5, (x, y + 1)) != 0
    ensures Grew(g, l, l5, id) && At(l5, (x, y)) == id
    ensures FilledAround(g, l, l5)
  {
    var p := (x, y);
    GrewTrans(g, l4, l5, l5, id);
    GrewTrans(g, l3, l4, l5, id);
    GrewTrans(g, l2, l3, l5, id);
    GrewTrans(g, l1, l2, l5, id);
    GrewTrans(g, l, l1, l5, id);
    FilledTrans(g, l1, l2, l3, id);
    FilledTrans(g, l1, l3, l4, id);
    FilledTrans(g, l1, l4, l5, id);
    assert Surrounded(g, l5, p);
    forall q | At(l, q) == 0 && At(l5, q) != 0
      ensures Surrounded(g, l5, q)
    {
      if q != p {
        assert At(l1, q) == 0;
      }
    }
  }

  // ---------------------------------------------------------------------
  // Paths of open cells

  /** Cell k of the path is open and, after the first, a neighbour of the cell before it. */
  ghost predicate Hop(g: Grid, path: seq<Pos>, k: int)
    requires 0 <= k < |path|
  {
    Open(g, path[k]) && (k > 0 ==> Adj(path[k - 1], path[k]))
  }

  /** A 4-connected path of open cells. */
  ghost predicate OpenPath(g: Grid, path: seq<Pos>)
  {
    forall k {:trigger Hop(g, path, k)} :: 0 <= k < |path| ==> Hop(g, path, k)
  }

  /** No cell of the path carries a label in l. */
  ghost predicate Unlabelled(l: Grid, path: seq<Pos>)
  {
    forall k :: 0 <= k < |path| ==> At(l, path[k]) == 0
  }

  /** p and q are joined by a 4-connected path of open cells. */
  ghost predicate Joined(g: Grid, p: Pos, q: Pos)
  {
    exists path {:trigger OpenPath(g, path)} :: |path| > 0 && path[0] == p && path[|path| - 1] == q && OpenPath(g, path)
  }

  /** p is reached from s by a 4-connected path of open cells unlabelled in l. */
  ghost predicate Reach(g: Grid, l: Grid, s: Pos, p: Pos)
  {
    exists path {:trigger OpenPath(g, path), Unlabelled(l, path)} ::
      |path| > 0 && path[0] == s && path[|path| - 1] == p && OpenPath(g, path) && Unlabelled(l, path)
  }

  /** p is unlabelled in l and labelled in l2. */
  ghost predicate Fresh(l: Grid, l2: Grid, p: Pos)
  {
    At(l, p) == 0 && At(l2, p) != 0
  }

  /** Every cell labelled in l2 but not in l is reached from s through cells unlabelled in l. */
  ghost predicate Spread(g: Grid, l: Grid, l2: Grid, s: Pos)
  {
    forall p {:trigger Fresh(l, l2, p)} :: Fresh(l, l2, p) ==> Reach(g, l, s, p)
  }

  lemma ReachSelf(g: Grid, l: Grid, s: Pos)
    requires Open(g, s) && At(l, s) == 0
    ensures Reach(g, l, s, s)
  {
    var path := [s];
    assert Hop(g, path, 0);
    assert OpenPath(g, path) && Unlabelled(l, path);
  }

  /** A path unlabelled after labels grew was unlabelled before. */
  lemma ReachLift(g: Grid, l: Grid, l2: Grid, id: int, s: Pos, p: Pos)
    requires Grew(g, l, l2, id) && Reach(g, l2, s, p)
    ensures Reach(g, l, s, p)
  {
    var path :| |path| > 0 && path[0] == s && path[|path| - 1] == p && OpenPath(g, path) && Unlabelled(l2, path);
    forall k | 0 <= k < |path|
      ensures At(l, path[k]) == 0
    {
      assert At(l2, path[k]) == 0;
    }
    assert Unlabelled(l, path);
  }

  /** An open unlabelled neighbour q of s reaches whatever s reaches. */
  lemma ReachPrepend(g: Grid, l: Grid, q: Pos, s: Pos, p: Pos)
    requires Open(g, q) && At(l, q) == 0 && Adj(q, s) && Reach(g, l, s, p)
    ensures Reach(g, l, q, p)
  {
    var path :| |path| > 0 && path[0] == s && path[|path| - 1] == p && OpenPath(g, path) && Unlabelled(l, path);
    var path' := [q] + path;
    forall k | 0 <= k < |path'|
      ensures Hop(g, path', k) && At(l, path'[k]) == 0
    {
      if k > 0 {
        assert path'[k] == path[k - 1];
        assert Hop(g, path, k - 1);
        if k > 1 {
          assert path'[k - 1] == path[k - 2];
        }
      }
    }
    assert OpenPath(g, path') && Unlabelled(l, path');
  }

  lemma ReachJoined(g: Grid, l: Grid, s: Pos, p: Pos)
    requires Reach(g, l, s, p)
    ensures Joined(g, s, p)
  {
    var path :| |path| > 0 && path[0] == s && path[|path| - 1] == p && OpenPath(g, path) && Unlabelled(l, path);
  }

  /** A 4-connected path walked backwards is one too. */
  lemma JoinedSym(g: Grid, p: Pos, q: Pos)
    requires Joined(g, p, q)
    ensures Joined(g, q, p)
  {
    var path :| |path| > 0 && path[0] == p && path[|path| - 1] == q && OpenPath(g, path);
    var n := |path|;
    var back := seq(n, i requires 0 <= i < n => path[n - 1 - i]);
    forall k | 0 <= k < n
      ensures Hop(g, back, k)
    {
      assert Hop(g, path, n - 1 - k);
      if k > 0 {
        assert Hop(g, path, n - k);
        assert back[k - 1] == path[n - k];
        var a := path[n - 1 - k];
        assert Right(Left(a)) == a && Down(Up(a)) == a && Left(Right(a)) == a && Up(Down(a)) == a;
      }
    }
    assert OpenPath(g, back);
  }

  /** Two 4-connected paths meeting at q make one. */
  lemma JoinedTrans(g: Grid, p: Pos, q: Pos, r: Pos)
    requires Joined(g, p, q) && Joined(g, q, r)
    ensures Joined(g, p, r)
  {
    var a :| |a| > 0 && a[0] == p && a[|a| - 1] == q && OpenPath(g, a);
    var b :| |b| > 0 && b[0] == q && b[|b| - 1] == r && OpenPath(g, b);
    var c := a + b[1..];
    forall k | 0 <= k < |c|
      ensures Hop(g, c, k)
    {
      if k < |a| {
        assert Hop(g, a, k);
      } else {
        var j := k - |a| + 1;
        assert c[k] == b[j];
        assert Hop(g, b, j);
        assert c[k - 1] == b[j - 1];
      }
    }
    assert c[|c| - 1] == r;
    assert OpenPath(g, c);
  }

  /**
   * The cells newly labelled by the four fills from the neighbours of
   * (x, y) are reached from (x, y) through cells unlabelled before (x, y)
   * itself was labelled.
   */
  lemma FillReach(g: Grid, l: Grid, l1: Grid, l2: Grid, l3: Grid, l4: Grid, l5: Grid, x: int, y: int, id: int)
    requires Open(g, (x, y)) && At(l, (x, y)) == 0
    requires Grew(g, l, l1, id) && forall q {:trigger At(l1, q)} :: q != (x, y) ==> At(l1, q) == At(l, q)
    requires Grew(g, l1, l2, id) && Grew(g, l2, l3, id) && Grew(g, l3, l4, id) && Grew(g, l4, l5, id)
    requires Spread(g, l1, l2, (x - 1, y)) && Spread(g, l2, l3, (x, y - 1))
    requires Spread(g, l3, l4, (x + 1, y)) && Spread(g, l4, l5, (x, y + 1))
    ensures Spread(g, l, l5, (x, y))
  {
    var s := (x, y);
    GrewTrans(g, l, l1, l2, id);
    GrewTrans(g, l, l2, l3, id);
    GrewTrans(g, l, l3, l4, id);
    forall p | Fresh(l, l5, p)
      ensures Reach(g, l, s, p)
    {
      if p == s {
        ReachSelf(g, l, s);
      } else {
        assert At(l1, p) == 0;
        if At(l2, p) != 0 {
          assert Fresh(l1, l2, p);
          ReachLift(g, l, l1, id, (x - 1, y), p);
          ReachPrepend(g, l, s, (x - 1, y), p);
        } else if At(l3, p) != 0 {
          assert Fresh(l2, l3, p);
          ReachLift(g, l, l2, id, (x, y - 1), p);
          ReachPrepend(g, l, s, (x, y - 1), p);
        } else if At(l4, p) != 0 {
          assert Fresh(l3, l4, p);
          ReachLift(g, l, l3, id, (x + 1, y), p);
          ReachPrepend(g, l, s, (x + 1, y), p);
        } else {
          assert Fresh(l4, l5, p);
          ReachLift(g, l, l4, id, (x, y + 1), p);
          ReachPrepend(g, l, s, (x, y + 1), p);
        }
      }
    }
  }

  /**
   * The flood fill from (x, y) over the map g of xs by ys cells (the fill
   * only reads the map, so it is given as a value): when that cell is on the
   * map, open and unlabelled, it gets the label id and the fill goes on to
   * its left, upper, right and lower neighbours; the answer says whether it
   * was labelled.
   */
  method MarkRegion(g: Grid, xs: int, ys: int, x: int, y: int, labels: Grid, id: int)
      returns (marked: bool, labels': Grid)
    requires Shaped(g, xs, ys) && Fits(labels, g) && id != 0
    ensures marked <==> Open(g, (x, y)) && At(labels, (x, y)) == 0
    ensures !marked ==> labels' == labels
    ensures marked ==> At(labels', (x, y)) == id
    ensures FillOf(g, labels, labels', (x, y), id)
    decreases Count(labels, 0)
  {
    if x < 0 || x >= xs || y < 0 || y >= ys {
      FillNone(g, labels, (x, y), id);
      return false, labels;
    }
    if g[y][x] == Wall || labels[y][x] != 0 {
      FillNone(g, labels, (x, y), id);
      return false, labels;
    }
    LabelOne(g, labels, (x, y), id);
    var l1 := Set2(labels, (x, y), id);
    var l2, l3, l4, l5;
    marked, l2 := MarkRegion(g, xs, ys, x - 1, y, l1, id);
    marked, l3 := MarkRegion(g, xs, ys, x, y - 1, l2, id);
    marked, l4 := MarkRegion(g, xs, ys, x + 1, y, l3, id);
    marked, l5 := MarkRegion(g, xs, ys, x, y + 1, l4, id);
    FillDone(g, labels, l1, l2, l3, l4, l5, x, y, id);
    return true, l5;
  }

  /**
   * A fill that grows agreeing labels with one new label, leaving every
   * newly labelled cell surrounded, keeps them agreeing: a newly labelled
   * cell cannot touch an old region, whose open neighbours were all labelled.
   */
  lemma AgreeStep(g: Grid, l: Grid, l2: Grid, id: int)
    requires Agree(g, l) && Grew(g, l, l2, id) && FilledAround(g, l, l2) && id != 0
    ensures Agree(g, l2)
  {
    forall p | At(l2, p) != 0
      ensures Same(g, l2, p)
    {
      AgreeAt(g, l, l2, id, p);
    }
  }

  lemma AgreeAt(g: Grid, l: Grid, l2: Grid, id: int, p: Pos)
    requires Agree(g, l) && Grew(g, l, l2, id) && FilledAround(g, l, l2) && id != 0
    requires At(l2, p) != 0
    ensures Same(g, l2, p)
  {
    assert Right(Left(p)) == p && Down(Up(p)) == p && Left(Right(p)) == p && Up(Down(p)) == p;
    assert At(l, p) != 0 ==> Same(g, l, p);
    assert At(l, p) == 0 ==> Surrounded(g, l2, p);
    assert At(l, Left(p)) != 0 ==> Same(g, l, Left(p));
    assert At(l, Up(p)) != 0 ==> Same(g, l, Up(p));
    assert At(l, Right(p)) != 0 ==> Same(g, l, Right(p));
    assert At(l, Down(p)) != 0 ==> Same(g, l, Down(p));
  }

  /** Some cell carries the label k. */
  ghost predicate Used(l: Grid, k: int)
  {
    exists p :: At(l, p) == k
  }

  /** Every cell with a label k in 1 .. |seeds| is joined to seeds[k - 1]. */
  ghost predicate Rooted(g: Grid, l: Grid, seeds: seq<Pos>)
  {
    forall p {:trigger At(l, p)} :: 0 < At(l, p) <= |seeds| ==> Joined(g, seeds[At(l, p) - 1], p)
  }

  /** A fill with the next label from s keeps every label joined to its seed. */
  lemma RootedStep(g: Grid, l: Grid, l2: Grid, seeds: seq<Pos>, s: Pos, id: int)
    requires Rooted(g, l, seeds) && id == |seeds| + 1
    requires forall p {:trigger At(l, p)} :: At(l, p) < id
    requires Grew(g, l, l2, id) && Spread(g, l, l2, s)
    ensures Rooted(g, l2, seeds + [s])
  {
    var seeds' := seeds + [s];
    forall p | 0 < At(l2, p) <= |seeds'|
      ensures Joined(g, seeds'[At(l2, p) - 1], p)
    {
      if At(l2, p) == At(l, p) && At(l, p) != 0 {
        assert seeds'[At(l, p) - 1] == seeds[At(l, p) - 1];
      } else {
        assert Fresh(l, l2, p);
        ReachJoined(g, l, s, p);
      }
    }
  }

  /** Two cells with one label are joined, through that label's seed. */
  lemma SameLabelJoined(g: Grid, l: Grid, seeds: seq<Pos>, p: Pos, q: Pos)
    requires Rooted(g, l, seeds) && 0 < At(l, p) <= |seeds| && At(l, p) == At(l, q)
    ensures Joined(g, p, q)
  {
    var s := seeds[At(l, p) - 1];
    assert Joined(g, s, p) && Joined(g, s, q);
    JoinedSym(g, s, p);
    JoinedTrans(g, p, s, q);
  }

  /** Open neighbours in agreeing labels where every open cell is labelled share their label. */
  lemma Neighbours(g: Grid, l: Grid, p: Pos, n: Pos)
    requires Agree(g, l) && forall q {:trigger At(l, q)} :: Open(g, q) ==> At(l, q) != 0
    requires Open(g, p) && Open(g, n) && Adj(p, n)
    ensures At(l, p) == At(l, n)
  {
    assert At(l, p) != 0;
    assert Same(g, l, p);
  }

  /**
   * The labelling loop: a fill with a fresh label from every cell in
   * row-major order.  Afterwards exactly the open cells are labelled, with
   * labels 1 .. regionCnt - 1 each of which is used, and 4-adjacent open
   * cells share their label.
   */
  method LabelRegions(cmap: CavesMap) returns (labels: Grid, regionCnt: int)
    requires cmap.Valid()
    ensures Fits(labels, cmap.grid1) && 1 <= regionCnt
    ensures forall p {:trigger At(labels, p)} :: At(labels, p) != 0 <==> Open(cmap.grid1, p)
    ensures forall p {:trigger At(labels, p)} :: 0 <= At(labels, p) < regionCnt
    ensures forall k :: 1 <= k < regionCnt ==> Used(labels, k)
    ensures forall p, n {:trigger Adj(p, n)} ::
      Open(cmap.grid1, p) && Open(cmap.grid1, n) && Adj(p, n) ==> At(labels, p) == At(labels, n)
    ensures forall p, q {:trigger Joined(cmap.grid1, p, q)} ::
      At(labels, p) != 0 && At(labels, p) == At(labels, q) ==> Joined(cmap.grid1, p, q)
  {
    ghost var g := cmap.grid1;
    labels := seq(cmap.ysize, _ => seq(cmap.xsize, _ => 0));
    regionCnt := 1;
    ghost var seeds: seq<Pos> := [];
    for y := 0 to cmap.ysize
      invariant Fits(labels, g) && 1 <= regionCnt
      invariant forall p {:trigger At(labels, p)} :: At(labels, p) != 0 ==> Open(g, p)
      invariant forall p {:trigger At(labels, p)} :: 0 <= At(labels, p) < regionCnt
      invariant forall p {:trigger At(labels, p)} :: Open(g, p) && p.1 < y ==> At(labels, p) != 0
      invariant Agree(g, labels)
      invariant |seeds| == regionCnt - 1
      invariant forall k :: 0 <= k < |seeds| ==> At(labels, seeds[k]) == k + 1
      invariant Rooted(g, labels, seeds)
    {
      for x := 0 to cmap.xsize
        invariant Fits(labels, g) && 1 <= regionCnt
        invariant forall p {:trigger At(labels, p)} :: At(labels, p) != 0 ==> Open(g, p)
        invariant forall p {:trigger At(labels, p)} :: 0 <= At(labels, p) < regionCnt
        invariant forall p {:trigger At(labels, p)} ::
          Open(g, p) && (p.1 < y || (p.1 == y && p.0 < x)) ==> At(labels, p) != 0
        invariant Agree(g, labels)
        invariant |seeds| == regionCnt - 1
        invariant forall k :: 0 <= k < |seeds| ==> At(labels, seeds[k]) == k + 1
        invariant Rooted(g, labels, seeds)
      {
        var marked, next := MarkRegion(cmap.grid1, cmap.xsize, cmap.ysize, x, y, labels, regionCnt);
        AgreeStep(g, labels, next, regionCnt);
        if marked {
          RootedStep(g, labels, next, seeds, (x, y), regionCnt);
        }
        labels := next;
        if marked {
          seeds := seeds + [(x, y)];
          regionCnt := regionCnt + 1;
        }
      }
    }
    forall k | 1 <= k < regionCnt
      ensures Used(labels, k)
    {
      assert At(labels, seeds[k - 1]) == k;
    }
    forall p, n | Open(g, p) && Open(g, n) && Adj(p, n)
      ensures At(labels, p) == At(labels, n)
    {
      Neighbours(g, labels, p, n);
    }
    forall p, q | At(labels, p) != 0 && At(labels, p) == At(labels, q)
      ensures Joined(g, p, q)
    {
      SameLabelJoined(g, labels, seeds, p, q);
    }
  }

  /** p comes before q in row-major order. */
  predicate Before(p: Pos, q: Pos)
  {
    p.1 < q.1 || (p.1 == q.1 && p.0 < q.0)
  }

  /** The cells of each region, in row-major order. */
  ghost predicate RowMajor(regions: seq<seq<Pos>>)
  {
    forall k, i, j :: 0 <= k < |regions| && 0 <= i < j < |regions[k]| ==> Before(regions[k][i], regions[k][j])
  }

  /**
   * The region lists: list k holds the cells labelled k, in row-major
   * order; list 0 stays empty.
   */
  method CollectRegions(labels: Grid, xs: int, ys: int, regionCnt: int) returns (regions: seq<seq<Pos>>)
    requires Shaped(labels, xs, ys) && 0 <= xs && 0 <= regionCnt
    requires forall p {:trigger At(labels, p)} :: 0 <= At(labels, p) < regionCnt
    ensures |regions| == regionCnt
    ensures forall k, p {:trigger p in regions[k]} ::
      0 <= k < regionCnt ==> (p in regions[k] <==> k != 0 && At(labels, p) == k)
    ensures RowMajor(regions)
  {
    regions := seq(regionCnt, _ => []);
    for y := 0 to ys
      invariant |regions| == regionCnt && RowMajor(regions)
      invariant forall k, p {:trigger p in regions[k]} ::
        0 <= k < regionCnt ==> (p in regions[k] <==> k != 0 && At(labels, p) == k && p.1 < y)
    {
      for x := 0 to xs
        invariant |regions| == regionCnt && RowMajor(regions)
        invariant forall k, p {:trigger p in regions[k]} ::
          0 <= k < regionCnt ==> (p in regions[k] <==> k != 0 && At(labels, p) == k && Before(p, (x, y)))
      {
        var id := labels[y][x];
        if id != 0 {
          assert At(labels, (x, y)) == id;
          forall i | 0 <= i < |regions[id]|
            ensures Before(regions[id][i], (x, y))
          {
            assert regions[id][i] in regions[id];
          }
          regions := regions[id := regions[id] + [(x, y)]];
        }
      }
    }
  }

  /** The first index of a longest list; 0 when there is none or all are empty. */
  method GetMaxRegion(regions: seq<seq<Pos>>) returns (ret: int)
    ensures |regions| == 0 ==> ret == 0
    ensures |regions| > 0 ==> 0 <= ret < |regions|
    ensures forall i :: 0 <= i < |regions| ==> |regions[i]| <= |regions[ret]|
    ensures forall i :: 0 <= i < ret ==> |regions[i]| < |regions[ret]|
  {
    ret := 0;
    var maxLen := 0;
    for i := 0 to |regions|
      invariant (i == 0 && ret == 0 && maxLen == 0) || (0 <= ret < i && maxLen == |regions[ret]|)
      invariant forall j :: 0 <= j < i ==> |regions[j]| <= maxLen
      invariant forall j :: 0 <= j < ret ==> |regions[j]| < maxLen
    {
      var l := |regions[i]|;
      if l > maxLen {
        ret, maxLen := i, l;
      }
    }
  }

  // ---------------------------------------------------------------------
  // The tunnel walk

  /** Squared distance between two cells. */
  function Dist2(p: Pos, q: Pos): int
  {
    (q.0 - p.0) * (q.0 - p.0) + (q.1 - p.1) * (q.1 - p.1)
  }

  lemma Dist2NonNegative(p: Pos, q: Pos)
    ensures Dist2(p, q) >= 0
  {
    var a, b := q.0 - p.0, q.1 - p.1;
    assert a * a >= 0 && b * b >= 0;
  }

  /** Step k of the walk goes to an interior neighbour strictly closer to target. */
  ghost predicate Moves(path: seq<Pos>, k: int, target: Pos, xs: int, ys: int)
    requires 0 < k < |path|
  {
    Inner(xs, ys, path[k].0, path[k].1) && Adj(path[k - 1], path[k]) &&
    Dist2(path[k], target) < Dist2(path[k - 1], target)
  }

  ghost predicate Walk(path: seq<Pos>, target: Pos, xs: int, ys: int)
  {
    forall k {:trigger Moves(path, k, target, xs, ys)} :: 0 < k < |path| ==> Moves(path, k, target, xs, ys)
  }

  lemma WalkSnoc(path: seq<Pos>, q: Pos, target: Pos, xs: int, ys: int)
    requires |path| > 0 && Walk(path, target, xs, ys)
    requires Inner(xs, ys, q.0, q.1) && Adj(path[|path| - 1], q)
    requires Dist2(q, target) < Dist2(path[|path| - 1], target)
    ensures Walk(path + [q], target, xs, ys)
  {
    var path' := path + [q];
    forall k | 0 < k < |path'|
      ensures Moves(path', k, target, xs, ys)
    {
      if k < |path| {
        assert Moves(path, k, target, xs, ys);
      }
    }
  }

  /**
   * A walk whose every step gets strictly closer to the target has at most
   * as many steps as the squared distance it started at.
   */
  lemma {:induction false} WalkBound(path: seq<Pos>, target: Pos, xs: int, ys: int)
    requires |path| > 0 && Walk(path, target, xs, ys)
    ensures Dist2(path[|path| - 1], target) + (|path| - 1) <= Dist2(path[0], target)
    ensures |path| - 1 <= Dist2(path[0], target)
  {
    Dist2NonNegative(path[|path| - 1], target);
    if |path| > 1 {
      var pre := path[..|path| - 1];
      forall k | 0 < k < |pre|
        ensures Moves(pre, k, target, xs, ys)
      {
        assert Moves(path, k, target, xs, ys);
      }
      WalkBound(pre, target, xs, ys);
      assert Moves(path, |path| - 1, target, xs, ys);
    }
  }

  /** b differs from a only where a wall of a became floor. */
  ghost predicate Carved(a: Grid, b: Grid)
  {
    forall p {:trigger At(b, p)} :: At(b, p) == At(a, p) || (At(a, p) == Wall && At(b, p) == Floor)
  }

  /** b differs from a only where a wall of a on the path became floor. */
  ghost predicate CarvedAlong(a: Grid, b: Grid, path: seq<Pos>)
  {
    forall p {:trigger At(b, p)} :: At(b, p) == At(a, p) || (At(a, p) == Wall && At(b, p) == Floor && p in path)
  }

  /**
   * What the tunnel walk keeps: its path is a walk towards target, every
   * cell it moved to is open and outside region r2, and the map differs
   * from the map g0 it started on only by walls on the path turned floor.
   */
  ghost predicate Tunnel(g0: Grid, g: Grid, labels: Grid, path: seq<Pos>, r2: int, target: Pos, xs: int, ys: int)
  {
    Walk(path, target, xs, ys) &&
    (forall k :: 0 < k < |path| ==> At(g, path[k]) != Wall && At(labels, path[k]) != r2) &&
    CarvedAlong(g0, g, path)
  }

  /** One accepted move of the walk to q, turning q into floor when it is a wall. */
  lemma TunnelStep(g0: Grid, g: Grid, g': Grid, labels: Grid, path: seq<Pos>, q: Pos, r2: int, target: Pos,
                   xs: int, ys: int)
    requires |path| > 0 && Tunnel(g0, g, labels, path, r2, target, xs, ys)
    requires Inner(xs, ys, q.0, q.1) && Adj(path[|path| - 1], q) && At(labels, q) != r2
    requires Dist2(q, target) < Dist2(path[|path| - 1], target)
    requires 0 <= q.1 < |g| && 0 <= q.0 < |g[q.1]|
    requires g' == if g[q.1][q.0] == Wall then Set2(g, q, Floor) else g
    ensures Tunnel(g0, g', labels, path + [q], r2, target, xs, ys)
  {
    WalkSnoc(path, q, target, xs, ys);
    AtSet(g, q, Floor);
    var path' := path + [q];
    forall k | 0 < k < |path'|
      ensures At(g', path'[k]) != Wall && At(labels, path'[k]) != r2
    {
      if k < |path| {
        assert path'[k] == path[k];
      }
    }
    forall p
      ensures At(g', p) == At(g0, p) || (At(g0, p) == Wall && At(g', p) == Floor && p in path')
    {
      assert At(g, p) == At(g0, p) || (At(g0, p) == Wall && At(g, p) == Floor && p in path);
    }
  }

  /**
   * The tunnel from cell i1 of region r1 towards cell i2 of region r2: each
   * draw picks a direction; a move off the interior or not strictly closer
   * to the target is dropped, a move into region r2 ends the walk, and
   * otherwise the walk moves there, turning a wall into floor.  The walk
   * also ends at the target or when the draws run out.  The ghost path
   * holds the cells the walk stood on.
   */
  method DoConnect(cmap: CavesMap, labels: Grid, regions: seq<seq<Pos>>, r1: int, r2: int,
                   i1: int, i2: int, draws: seq<int>) returns (ghost path: seq<Pos>)
    requires cmap.Valid() && Shaped(labels, cmap.xsize, cmap.ysize)
    requires 0 <= r1 < |regions| && 0 <= r2 < |regions|
    requires 0 <= i1 < |regions[r1]| && 0 <= i2 < |regions[r2]|
    requires forall i :: 0 <= i < |draws| ==> 0 <= draws[i] < 4
    modifies cmap
    ensures cmap.Valid() && cmap.grid2 == old(cmap.grid2)
    ensures |path| >= 1 && path[0] == regions[r1][i1]
    ensures |path| - 1 <= Dist2(regions[r1][i1], regions[r2][i2])
    ensures Tunnel(old(cmap.grid1), cmap.grid1, labels, path, r2, regions[r2][i2], cmap.xsize, cmap.ysize)
  {
    var pos1 := regions[r1][i1];
    var pos2 := regions[r2][i2];
    var dx := [1, 0, -1, 0];
    var dy := [0, -1, 0, 1];
    path := [pos1];
    var i := 0;
    while pos1 != pos2 && i < |draws|
      invariant cmap.Valid() && cmap.grid2 == old(cmap.grid2) && 0 <= i <= |draws|
      invariant |path| >= 1 && path[0] == regions[r1][i1] && path[|path| - 1] == pos1
      invariant Tunnel(old(cmap.grid1), cmap.grid1, labels, path, r2, pos2, cmap.xsize, cmap.ysize)
      decreases |draws| - i
    {
      var dir := draws[i];
      i := i + 1;
      var x, y := pos1.0 + dx[dir], pos1.1 + dy[dir];
      if x < 1 || x >= cmap.xsize - 1 || y < 1 || y >= cmap.ysize - 1 {
        continue;
      }
      if !(Dist2((x, y), pos2) < Dist2(pos1, pos2)) {
        continue;
      }
      if labels[y][x] == r2 {
        break;
      }
      assert Adj(pos1, (x, y));
      ghost var before := cmap.grid1;
      if cmap.Get(x, y) == Wall {
        cmap.Set(x, y, Floor);
      }
      TunnelStep(old(cmap.grid1), before, cmap.grid1, labels, path, (x, y), r2, pos2, cmap.xsize, cmap.ysize);
      pos1 := (x, y);
      path := path + [pos1];
    }
    WalkBound(path, pos2, cmap.xsize, cmap.ysize);
  }

  lemma CarvedTrans(a: Grid, b: Grid, c: Grid, labels: Grid, path: seq<Pos>, r2: int, target: Pos, xs: int, ys: int)
    requires Carved(a, b) && Tunnel(b, c, labels, path, r2, target, xs, ys)
    ensures Carved(a, c)
  {
  }

  /**
   * Labels the regions, collects them, and joins every region other than
   * the first largest one to it by a tunnel walk.  The draws for the walk
   * joining region k are pick1(k, n) and pick2(k, n) for the indices of its
   * two end cells in lists of length n, and walk(k) for its directions.
   */
  method ConnectUpRegions(cmap: CavesMap, pick1: (int, int) -> int, pick2: (int, int) -> int,
                          walk: int -> seq<int>)
    requires cmap.Valid()
    requires forall k, n :: 0 < n ==> 0 <= pick1(k, n) < n
    requires forall k, n :: 0 < n ==> 0 <= pick2(k, n) < n
    requires forall k, i :: 0 <= i < |walk(k)| ==> 0 <= walk(k)[i] < 4
    modifies cmap
    ensures cmap.Valid() && cmap.grid2 == old(cmap.grid2)
    ensures Carved(old(cmap.grid1), cmap.grid1)
  {
    var labels, regionCnt := LabelRegions(cmap);
    assert Shaped(labels, cmap.xsize, cmap.ysize);
    var regions := CollectRegions(labels, cmap.xsize, cmap.ysize, regionCnt);
    var maxId := GetMaxRegion(regions);
    for k := 1 to |regions|
      invariant cmap.Valid() && cmap.grid2 == old(cmap.grid2)
      invariant Carved(old(cmap.grid1), cmap.grid1)
    {
      if k != maxId {
        assert Used(labels, k);
        ghost var p :| At(labels, p) == k;
        assert p in regions[k];
        var i1 := pick1(k, |regions[k]|);
        var i2 := pick2(k, |regions[maxId]|);
        ghost var before := cmap.grid1;
        ghost var path := DoConnect(cmap, labels, regions, k, maxId, i1, i2, walk(k));
        CarvedTrans(old(cmap.grid1), before, cmap.grid1, labels, path, maxId, regions[maxId][i2],
                    cmap.xsize, cmap.ysize);
      }
    }
  }
}
