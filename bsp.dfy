/*
 * Dungeon generation by binary space partitioning.  The map's inner
 * rectangle is split recursively, each split cutting off one row or column
 * between the two halves; the tree is kept in heap order (node 1 the root,
 * nodes 2i and 2i+1 the children of i) in a list of 2^level entries.  A
 * room is placed inside each leaf space, and the bounding regions of the
 * rooms are then propagated bottom-up, children before their parent.
 *
 * The random draws are parameters: vertical(i) says whether node i is split
 * by a vertical line, split(i, a, b) is the line drawn for node i within
 * [a, b], and pick(i, k, lo, hi) is the k-th draw for the room of node i
 * within [lo, hi].
 */
module BspDungeon {

  import opened Grids

  const Room := 0x01
  const Rock := 0x02
  const Corr := 0x04
  const Door := 0x08

  datatype Option<T> = None | Some(value: T)

  datatype Rect = Rect(x: int, y: int, width: int, height: int)

  function Min(a: int, b: int): int { if a <= b then a else b }
  function Max(a: int, b: int): int { if a >= b then a else b }

  /** A list length: negative counts give an empty list. */
  function Size(n: int): nat { if n < 0 then 0 else n }

  /** The tile p lies in the rectangle r. */
  predicate InRect(p: Pos, r: Rect)
  {
    r.x <= p.0 < r.x + r.width && r.y <= p.1 < r.y + r.height
  }

  /** The rectangle a lies inside the rectangle b. */
  predicate Inside(a: Rect, b: Rect)
  {
    b.x <= a.x && b.y <= a.y && a.x + a.width <= b.x + b.width && a.y + a.height <= b.y + b.height
  }

  /** A space that is kept in the tree: at least 3 by 3. */
  predicate Big(r: Rect)
  {
    r.width >= 3 && r.height >= 3
  }

  // ---------------------------------------------------------------------
  // Splits and the tree

  /**
   * l and r are the halves of p on either side of a vertical line (a
   * column of p other than its first and last) or of a horizontal line.
   */
  predicate SplitOf(p: Rect, l: Rect, r: Rect)
  {
    (l == Rect(p.x, p.y, l.width, p.height) && r == Rect(p.x + l.width + 1, p.y, p.width - l.width - 1, p.height) &&
     1 <= l.width <= p.width - 2) ||
    (l == Rect(p.x, p.y, p.width, l.height) && r == Rect(p.x, p.y + l.height + 1, p.width, p.height - l.height - 1) &&
     1 <= l.height <= p.height - 2)
  }

  /** The two halves of a split lie inside it, apart from each other. */
  lemma SplitInside(p: Rect, l: Rect, r: Rect, q: Pos)
    requires SplitOf(p, l, r)
    ensures Inside(l, p) && Inside(r, p)
    ensures !(InRect(q, l) && InRect(q, r))
    ensures l.width + r.width + 1 == p.width || l.height + r.height + 1 == p.height
  {
  }

  /** Node i lies in the subtree of node n. */
  ghost predicate Desc(i: int, n: int)
    decreases i
  {
    i == n || (n >= 1 && i > n && Desc(i / 2, n))
  }

  lemma {:induction false} DescUp(i: int, n: int)
    requires n >= 1 && (Desc(i, 2 * n) || Desc(i, 2 * n + 1))
    ensures Desc(i, n)
    decreases i
  {
    if i != 2 * n && i != 2 * n + 1 {
      DescUp(i / 2, n);
    }
  }

  /** A node below n other than n lies below one of its children. */
  lemma {:induction false} DescDown(i: int, n: int)
    requires Desc(i, n) && i != n
    ensures Desc(i, 2 * n) || Desc(i, 2 * n + 1)
    decreases i
  {
    if i / 2 != n {
      DescDown(i / 2, n);
    }
  }

  /** Subtrees of two nodes either nest or are apart. */
  lemma {:induction false} DescNest(i: int, a: int, b: int)
    requires Desc(i, a) && Desc(i, b) && a <= b
    ensures Desc(b, a)
    decreases i
  {
    if i != b {
      DescNest(i / 2, a, b);
    }
  }

  /** The subtrees of the two children of a node are apart. */
  lemma ChildrenApart(i: int, n: int)
    requires n >= 1
    ensures !(Desc(i, 2 * n) && Desc(i, 2 * n + 1))
    ensures !Desc(n, 2 * n) && !Desc(n, 2 * n + 1)
  {
    if Desc(i, 2 * n) && Desc(i, 2 * n + 1) {
      DescNest(i, 2 * n, 2 * n + 1);
      assert false;
    }
  }

  /** No space is stored in the subtree of n. */
  ghost predicate Vacant(t: seq<Option<Rect>>, n: int)
  {
    forall i :: 0 <= i < |t| && Desc(i, n) ==> t[i].None?
  }

  /**
   * The part of the tree reached from node n is a proper split tree: every
   * stored space is at least 3 by 3, the two children of a stored node are
   * both stored or both absent, and when stored they are the halves of a
   * split of their parent.
   */
  ghost predicate Built(t: seq<Option<Rect>>, n: int)
    requires n >= 1
    decreases |t| - n
  {
    n >= |t| || t[n].None? ||
    (Big(t[n].value) &&
     (2 * n + 1 < |t| ==>
        (t[2 * n].Some? <==> t[2 * n + 1].Some?) &&
        (t[2 * n].Some? ==> SplitOf(t[n].value, t[2 * n].value, t[2 * n + 1].value))) &&
     Built(t, 2 * n) && Built(t, 2 * n + 1))
  }

  /** Whether the subtree of n is built depends on that subtree only. */
  lemma {:induction false} BuiltFrame(t: seq<Option<Rect>>, t': seq<Option<Rect>>, n: int)
    requires n >= 1 && |t| == |t'| && Built(t, n)
    requires forall i :: 0 <= i < |t| && Desc(i, n) ==> t[i] == t'[i]
    ensures Built(t', n)
    decreases |t| - n
  {
    if n < |t| && t[n].Some? {
      assert Desc(n, n);
      if 2 * n < |t| {
        assert Desc(2 * n, n);
      }
      if 2 * n + 1 < |t| {
        assert Desc(2 * n + 1, n);
      }
      forall i | 0 <= i < |t| && Desc(i, 2 * n)
        ensures t[i] == t'[i]
      {
        DescUp(i, n);
      }
      forall i | 0 <= i < |t| && Desc(i, 2 * n + 1)
        ensures t[i] == t'[i]
      {
        DescUp(i, n);
      }
      BuiltFrame(t, t', 2 * n);
      BuiltFrame(t, t', 2 * n + 1);
    }
  }

  /** A vacant subtree is built. */
  lemma {:induction false} VacantBuilt(t: seq<Option<Rect>>, n: int)
    requires n >= 1 && Vacant(t, n)
    ensures Built(t, n)
  {
    if n < |t| {
      assert Desc(n, n);
    }
  }

  /** The smallest rectangle holding both a and b. */
  function Merge(a: Rect, b: Rect): (m: Rect)
    ensures Inside(a, m) && Inside(b, m)
  {
    var x1, y1 := Min(a.x, b.x), Min(a.y, b.y);
    var x2 := Max(a.x + a.width, b.x + b.width);
    var y2 := Max(a.y + a.height, b.y + b.height);
    Rect(x1, y1, x2 - x1, y2 - y1)
  }

  /** Every rectangle holding both a and b holds their merge. */
  lemma MergeLeast(a: Rect, b: Rect, r: Rect)
    requires Inside(a, r) && Inside(b, r)
    ensures Inside(Merge(a, b), r)
  {
  }

  /**
   * The region a parent gets from its children's regions l and r: the
   * present one, or the merge of both; its own when both are absent.
   */
  function Combine(l: Option<Rect>, r: Option<Rect>, own: Option<Rect>): Option<Rect>
  {
    if l.None? && r.None? then own
    else if l.None? then r
    else if r.None? then l
    else Some(Merge(l.value, r.value))
  }

  /** The combined region holds each present child region. */
  lemma CombineCovers(l: Option<Rect>, r: Option<Rect>, own: Option<Rect>)
    ensures l.Some? ==> Combine(l, r, own).Some? && Inside(l.value, Combine(l, r, own).value)
    ensures r.Some? ==> Combine(l, r, own).Some? && Inside(r.value, Combine(l, r, own).value)
    ensures l.None? && r.None? ==> Combine(l, r, own) == own
  {
    if l.Some? && r.Some? {
      assert Inside(l.value, Merge(l.value, r.value));
    }
  }

  // ---------------------------------------------------------------------
  // Straight corridor runs

  /** A map of h rows of w rock tiles; negative sizes give no rows or empty rows. */
  function AllRock(w: int, h: int): (g: seq<seq<int>>)
    ensures Shaped(g, Size(w), Size(h))
    ensures forall p :: OnMap(g, p) ==> At(g, p) == Rock
  {
    seq(Size(h), _ => seq(Size(w), _ => Rock))
  }

  const DX := [1, 0, -1, 0]
  const DY := [0, -1, 0, 1]

  /** How many steps from (x, y) in direction dir stay on a map of w by h tiles. */
  function Reach(w: int, h: int, x: int, y: int, dir: int): int
    requires 0 <= dir < 4
  {
    if dir == 0 then w - x else if dir == 1 then y + 1 else if dir == 2 then x + 1 else h - y
  }

  predicate OnMap(g: seq<seq<int>>, p: Pos)
  {
    0 <= p.1 < |g| && 0 <= p.0 < |g[p.1]|
  }

  /**
   * Walking from (x, y) in direction dir over the map g meets a tile other
   * than rock before leaving the map.
   */
  ghost predicate Stops(g: seq<seq<int>>, w: int, x: int, y: int, dir: int)
    requires 0 <= dir < 4
    decreases Reach(w, |g|, x, y, dir)
  {
    OnMap(g, (x, y)) && |g[y]| == w &&
    (g[y][x] != Rock || Stops(g, w, x + DX[dir], y + DY[dir], dir))
  }

  /** The number of rock tiles the walk meets before it stops. */
  ghost function RunLength(g: seq<seq<int>>, w: int, x: int, y: int, dir: int): nat
    requires 0 <= dir < 4 && Stops(g, w, x, y, dir)
    decreases Reach(w, |g|, x, y, dir)
  {
    if g[y][x] != Rock then 0 else 1 + RunLength(g, w, x + DX[dir], y + DY[dir], dir)
  }

  /** The step count from (x0, y0) to p along direction dir, or -1 when p is off that line. */
  function RayIndex(p: Pos, x0: int, y0: int, dir: int): int
  {
    if dir == 0 then (if p.1 == y0 && p.0 >= x0 then p.0 - x0 else -1)
    else if dir == 1 then (if p.0 == x0 && p.1 <= y0 then y0 - p.1 else -1)
    else if dir == 2 then (if p.1 == y0 && p.0 <= x0 then x0 - p.0 else -1)
    else (if p.0 == x0 && p.1 >= y0 then p.1 - y0 else -1)
  }

  /** The tiles of the L-shaped run from (x1, y1) to (x2, y2) that starts in direction dir. */
  predicate OnRun(p: Pos, x1: int, y1: int, x2: int, y2: int, dir: int)
  {
    if dir == 3 then
      (p.0 == x1 && y1 <= p.1 < y2) || (p.1 == Max(y1, y2) && x2 <= p.0 <= x1)
    else if dir == 0 then
      (p.1 == y1 && x1 <= p.0 < x2) || (p.0 == Max(x1, x2) && y1 <= p.1 <= y2)
    else false
  }

  /** The tiles met on the way from (x, y) in direction dir before it stops are rock. */
  lemma {:induction false} RunRock(g: seq<seq<int>>, w: int, x: int, y: int, dir: int, p: Pos)
    requires 0 <= dir < 4 && Stops(g, w, x, y, dir)
    requires 0 <= RayIndex(p, x, y, dir) < RunLength(g, w, x, y, dir)
    ensures At(g, p) == Rock
    decreases Reach(w, |g|, x, y, dir)
  {
    if RayIndex(p, x, y, dir) > 0 {
      RunRock(g, w, x + DX[dir], y + DY[dir], dir, p);
    }
  }

  // ---------------------------------------------------------------------
  // The random draws

  /** split(n, a, b), the line drawn for node n, lies in [a, b]. */
  ghost predicate SplitInRange(split: (int, int, int) -> int)
  {
    forall n, a, b :: a <= b ==> a <= split(n, a, b) <= b
  }

  /** pick(n, k, a, b), the k-th draw for the room of node n, lies in [a, b]. */
  ghost predicate PickInRange(pick: (int, int, int, int) -> int)
  {
    forall n, k, a, b :: a <= b ==> a <= pick(n, k, a, b) <= b
  }

  /** The largest room side for a space side: the space side, or the set maximum when smaller. */
  function Cap(side: int, mx: int): int
  {
    if mx < 0 then side else Min(side, mx)
  }

  // ---------------------------------------------------------------------
  // Leaves, reached nodes and the regions above them

  /** Node i gets a room rather than children: its children are off the list or both absent. */
  predicate Leaf(t: seq<Option<Rect>>, i: int)
    requires 0 <= i
  {
    2 * i + 1 >= |t| || (t[2 * i].None? && t[2 * i + 1].None?)
  }

  /** Placing rooms from node n reaches node i: every node above i up to n has children. */
  ghost predicate Reached(t: seq<Option<Rect>>, n: int, i: int)
    decreases i
  {
    i == n || (n >= 1 && i > n && Reached(t, n, i / 2) && !Leaf(t, i / 2))
  }

  lemma {:induction false} ReachedDesc(t: seq<Option<Rect>>, n: int, i: int)
    requires Reached(t, n, i)
    ensures Desc(i, n) && i >= n
    decreases i
  {
    if i != n {
      ReachedDesc(t, n, i / 2);
    }
  }

  /** What is reached from a child of a node with children is reached from the node. */
  lemma {:induction false} ReachedUp(t: seq<Option<Rect>>, n: int, c: int, i: int)
    requires n >= 1 && (c == 2 * n || c == 2 * n + 1) && !Leaf(t, n) && Reached(t, c, i)
    ensures Reached(t, n, i)
    decreases i
  {
    if i != c {
      ReachedUp(t, n, c, i / 2);
    }
  }

  /** What is reached from a node with children, other than the node, is reached from a child. */
  lemma {:induction false} ReachedDown(t: seq<Option<Rect>>, n: int, i: int)
    requires n >= 1 && Reached(t, n, i) && i != n
    ensures Reached(t, 2 * n, i) || Reached(t, 2 * n + 1, i)
    decreases i
  {
    if i / 2 != n {
      ReachedDown(t, n, i / 2);
      if Reached(t, 2 * n, i / 2) {
        ReachedDesc(t, 2 * n, i / 2);
      } else {
        ReachedDesc(t, 2 * n + 1, i / 2);
      }
    }
  }

  /** Nothing below a leaf is reached from it. */
  lemma {:induction false} ReachedLeaf(t: seq<Option<Rect>>, n: int, i: int)
    requires 0 <= n && Leaf(t, n) && Reached(t, n, i)
    ensures i == n
    decreases i
  {
    if i != n {
      ReachedLeaf(t, n, i / 2);
    }
  }

  /** Every tile of the room is a room tile. */
  ghost predicate Paved(g: seq<seq<int>>, room: Rect)
  {
    forall p {:trigger InRect(p, room)} :: InRect(p, room) ==> At(g, p) == Room
  }

  /** g2 differs from g only by new room tiles. */
  ghost predicate OnlyRooms(g: seq<seq<int>>, g2: seq<seq<int>>)
  {
    forall p {:trigger At(g2, p)} :: At(g2, p) == At(g, p) || At(g2, p) == Room
  }

  lemma PavedKeep(g: seq<seq<int>>, g2: seq<seq<int>>, room: Rect)
    requires Paved(g, room) && OnlyRooms(g, g2)
    ensures Paved(g2, room)
  {
    forall p | InRect(p, room)
      ensures At(g2, p) == Room
    {
      assert At(g2, p) == At(g, p) || At(g2, p) == Room;
    }
  }

  /**
   * The regions r after propagating r0 bottom-up over a list of n nodes:
   * every node with children in the list holds the combination of its
   * children's regions, every other node keeps its own.
   */
  ghost predicate Propagated(r0: seq<Option<Rect>>, r: seq<Option<Rect>>, n: int)
  {
    |r| == |r0| == n &&
    forall p {:trigger r0[p]} :: 0 <= p < n ==>
      r[p] == if 1 <= p && 2 * p + 1 < n then Combine(r[2 * p], r[2 * p + 1], r0[p]) else r0[p]
  }

  /** After propagation the region of a node holds every region below it. */
  lemma {:induction false} RegionsCover(r0: seq<Option<Rect>>, r: seq<Option<Rect>>, n: int, p: int, d: int)
    requires Propagated(r0, r, n) && n % 2 == 0
    requires 1 <= p && Desc(d, p) && d < n && r[d].Some?
    ensures r[p].Some? && Inside(r[d].value, r[p].value)
    decreases d
  {
    if d != p {
      var q := d / 2;
      assert r[q] == Combine(r[2 * q], r[2 * q + 1], r0[q]);
      CombineCovers(r[2 * q], r[2 * q + 1], r0[q]);
      RegionsCover(r0, r, n, p, q);
    }
  }

  /**
   * t2 is t after splitting the space r for node n: entries outside the
   * subtree of n are kept; n holds r when r is at least 3 by 3 and n is in
   * the list, and nothing changes otherwise; the children of a stored n are
   * both stored or both absent; and when the subtree was vacant, it now is a
   * split tree whose spaces lie inside r.
   */
  ghost predicate Updated(t: seq<Option<Rect>>, t2: seq<Option<Rect>>, n: int, r: Rect)
    requires n >= 1
  {
    |t2| == |t| &&
    (forall i :: 0 <= i < |t| && !Desc(i, n) ==> t2[i] == t[i]) &&
    (if Big(r) && n < |t| then t2[n] == Some(r) else t2 == t) &&
    (Big(r) && 2 * n + 1 < |t| ==> (t2[2 * n].Some? <==> t2[2 * n + 1].Some?)) &&
    (Vacant(t, n) ==>
       Built(t2, n) &&
       forall i :: 0 <= i < |t2| && Desc(i, n) && t2[i].Some? ==> Big(t2[i].value) && Inside(t2[i].value, r))
  }

  /** One call of the split: storing r, splitting both halves, then dropping unmatched children. */
  lemma UpdateStep(t0: seq<Option<Rect>>, t1: seq<Option<Rect>>, t2: seq<Option<Rect>>,
                   t3: seq<Option<Rect>>, t4: seq<Option<Rect>>, n: int, r: Rect, lr: Rect, rr: Rect)
    requires n >= 1 && Big(r) && n < |t0| && t1 == t0[n := Some(r)] && SplitOf(r, lr, rr)
    requires Updated(t1, t2, 2 * n, lr) && Updated(t2, t3, 2 * n + 1, rr)
    requires t4 == if 2 * n + 1 < |t3| && (t3[2 * n].None? || t3[2 * n + 1].None?)
                   then t3[2 * n := None][2 * n + 1 := None] else t3
    ensures Updated(t0, t4, n, r)
  {
    ChildrenApart(n, n);
    assert Desc(n, n);
    forall i | 0 <= i < |t0| && !Desc(i, n)
      ensures t4[i] == t0[i]
    {
      if Desc(i, 2 * n) || Desc(i, 2 * n + 1) {
        DescUp(i, n);
      }
    }
    if Vacant(t0, n) {
      assert Vacant(t1, 2 * n) by {
        forall i | 0 <= i < |t1| && Desc(i, 2 * n)
          ensures t1[i].None?
        {
          DescUp(i, n);
        }
      }
      assert Vacant(t2, 2 * n + 1) by {
        forall i | 0 <= i < |t2| && Desc(i, 2 * n + 1)
          ensures t2[i].None?
        {
          DescUp(i, n);
          ChildrenApart(i, n);
        }
      }
      forall i | 0 <= i < |t4| && Desc(i, n) && t4[i].Some?
        ensures Big(t4[i].value) && Inside(t4[i].value, r)
      {
        if i != n {
          DescDown(i, n);
          ChildrenApart(i, n);
        }
      }
      if 2 * n + 1 < |t0| {
        assert Desc(2 * n, 2 * n) && Desc(2 * n + 1, 2 * n + 1);
        if t4[2 * n].Some? {
          forall i | 0 <= i < |t2| && Desc(i, 2 * n)
            ensures t2[i] == t4[i]
          {
            ChildrenApart(i, n);
          }
          BuiltFrame(t2, t4, 2 * n);
          BuiltFrame(t3, t4, 2 * n + 1);
        } else {
          assert Built(t4, 2 * n) && Built(t4, 2 * n + 1);
        }
      } else {
        assert Built(t4, 2 * n) && Built(t4, 2 * n + 1);
      }
    }
  }

  /** A list of n absent entries. */
  function NoSpaces(n: nat): (t: seq<Option<Rect>>)
    ensures |t| == n && forall i :: 0 <= i < n ==> t[i].None?
  {
    seq(n, _ => None)
  }

  /** Splitting the root space into an empty tree grows a split tree inside that space. */
  lemma Grown(t0: seq<Option<Rect>>, t: seq<Option<Rect>>, root: Rect)
    requires |t0| >= 2 && t0 == NoSpaces(|t0|) && Updated(t0, t, 1, root)
    ensures Built(t, 1) && (t[1].Some? <==> Big(root))
    ensures forall i :: 0 <= i < |t| && t[i].Some? ==> Big(t[i].value) && Inside(t[i].value, root)
  {
    assert Vacant(t0, 1);
    forall i | 0 <= i < |t| && t[i].Some?
      ensures Desc(i, 1)
    {
      assert t0[i].None?;
    }
  }

  // ---------------------------------------------------------------------
  // Rooms

  /** The room size settings; a negative maximum means none is set. */
  datatype RoomSize = RoomSize(mnw: int, mxw: int, mnh: int, mxh: int)

  /** Node i of the tree t holds a space large enough for the smallest room. */
  predicate Eligible(b: RoomSize, t: seq<Option<Rect>>, i: int)
    requires 0 <= i < |t|
  {
    t[i].Some? && t[i].value.width >= b.mnw && t[i].value.height >= b.mnh
  }

  /** Node i is eligible but no room side can be drawn for it. */
  predicate Stuck(b: RoomSize, t: seq<Option<Rect>>, i: int)
    requires 0 <= i < |t|
  {
    Eligible(b, t, i) &&
    (Max(3, b.mnw) > Cap(t[i].value.width, b.mxw) ||
     Max(3, b.mnh) > Cap(t[i].value.height, b.mxh))
  }

  /** The room lies inside the space, with sides within the room size bounds. */
  ghost predicate RoomFits(b: RoomSize, room: Rect, space: Rect)
  {
    Inside(room, space) &&
    Max(3, b.mnw) <= room.width <= Cap(space.width, b.mxw) &&
    Max(3, b.mnh) <= room.height <= Cap(space.height, b.mxh)
  }

  /** Node i has a room that fits its space, paved with room tiles in g. */
  ghost predicate RoomAt(b: RoomSize, t: seq<Option<Rect>>, r: seq<Option<Rect>>, g: seq<seq<int>>, i: int)
    requires 0 <= i < |t| == |r|
  {
    t[i].Some? && r[i].Some? && RoomFits(b, r[i].value, t[i].value) && Paved(g, r[i].value)
  }

  /** From r0 to r, regions changed only at leaves reached from n, each to a room in g. */
  ghost predicate Placed(b: RoomSize, t: seq<Option<Rect>>, r0: seq<Option<Rect>>, r: seq<Option<Rect>>, g: seq<seq<int>>, n: int)
  {
    |r| == |r0| == |t| &&
    forall i :: 0 <= i < |r| ==> r[i] == r0[i] || (Reached(t, n, i) && Leaf(t, i) && RoomAt(b, t, r, g, i))
  }

  /** Every eligible leaf reached from n has a room. */
  ghost predicate Complete(b: RoomSize, t: seq<Option<Rect>>, r: seq<Option<Rect>>, g: seq<seq<int>>, n: int)
    requires |r| == |t|
  {
    forall i :: 0 <= i < |t| && Reached(t, n, i) && Leaf(t, i) && Eligible(b, t, i) ==> RoomAt(b, t, r, g, i)
  }

  /** Some leaf reached from n is stuck. */
  ghost predicate SomeStuck(b: RoomSize, t: seq<Option<Rect>>, n: int)
  {
    exists i :: 0 <= i < |t| && Reached(t, n, i) && Leaf(t, i) && Stuck(b, t, i)
  }

  /** Placing at the left child, then at the right child, places at the node. */
  lemma PlacedStep(b: RoomSize, t: seq<Option<Rect>>, r0: seq<Option<Rect>>, r1: seq<Option<Rect>>, r2: seq<Option<Rect>>,
                   g0: seq<seq<int>>, g1: seq<seq<int>>, g2: seq<seq<int>>, n: int)
    requires n >= 1 && !Leaf(t, n)
    requires Placed(b, t, r0, r1, g1, 2 * n) && OnlyRooms(g0, g1)
    requires Placed(b, t, r1, r2, g2, 2 * n + 1) && OnlyRooms(g1, g2)
    ensures Placed(b, t, r0, r2, g2, n) && OnlyRooms(g0, g2)
    ensures Complete(b, t, r1, g1, 2 * n) && Complete(b, t, r2, g2, 2 * n + 1) ==> Complete(b, t, r2, g2, n)
  {
    forall i | 0 <= i < |r2| && r2[i] != r0[i]
      ensures Reached(t, n, i) && Leaf(t, i) && RoomAt(b, t, r2, g2, i)
    {
      if r2[i] != r1[i] {
        ReachedUp(t, n, 2 * n + 1, i);
      } else {
        ReachedUp(t, n, 2 * n, i);
        PavedKeep(g1, g2, r1[i].value);
      }
    }
    forall p
      ensures At(g2, p) == At(g0, p) || At(g2, p) == Room
    {
      assert At(g2, p) == At(g1, p) || At(g2, p) == Room;
      assert At(g1, p) == At(g0, p) || At(g1, p) == Room;
    }
    if Complete(b, t, r1, g1, 2 * n) && Complete(b, t, r2, g2, 2 * n + 1) {
      forall i | 0 <= i < |t| && Reached(t, n, i) && Leaf(t, i) && Eligible(b, t, i)
        ensures RoomAt(b, t, r2, g2, i)
      {
        ReachedDown(t, n, i);
        if Reached(t, 2 * n, i) {
          ReachedDesc(t, 2 * n, i);
          if Reached(t, 2 * n + 1, i) {
            ReachedDesc(t, 2 * n + 1, i);
            ChildrenApart(i, n);
          }
          PavedKeep(g1, g2, r1[i].value);
        }
      }
    }
  }

  /** The tile p lies in the room of a leaf reached from n. */
  ghost predicate InLeafRoom(t: seq<Option<Rect>>, r: seq<Option<Rect>>, n: int, p: Pos)
  {
    exists i :: 0 <= i < |r| && Reached(t, n, i) && Leaf(t, i) && r[i].Some? && InRect(p, r[i].value)
  }

  /** From g to g2, only tiles inside the rooms r of leaves reached from n changed. */
  ghost predicate ChangedInRooms(t: seq<Option<Rect>>, r: seq<Option<Rect>>, g: seq<seq<int>>, g2: seq<seq<int>>, n: int)
  {
    forall p {:trigger At(g2, p)} :: At(g2, p) != At(g, p) ==> InLeafRoom(t, r, n, p)
  }

  /**
   * Rooms placed from the left child and then from the right child changed
   * only tiles in rooms of leaves reached from the node: the right child
   * leaves the left child's rooms as they are.
   */
  lemma RoomsStep(b: RoomSize, t: seq<Option<Rect>>, r1: seq<Option<Rect>>, r2: seq<Option<Rect>>,
                  g0: seq<seq<int>>, g1: seq<seq<int>>, g2: seq<seq<int>>, n: int)
    requires n >= 1 && !Leaf(t, n)
    requires ChangedInRooms(t, r1, g0, g1, 2 * n) && ChangedInRooms(t, r2, g1, g2, 2 * n + 1)
    requires Placed(b, t, r1, r2, g2, 2 * n + 1)
    ensures ChangedInRooms(t, r2, g0, g2, n)
  {
    forall p | At(g2, p) != At(g0, p)
      ensures InLeafRoom(t, r2, n, p)
    {
      if At(g2, p) != At(g1, p) {
        var i :| 0 <= i < |r2| && Reached(t, 2 * n + 1, i) && Leaf(t, i) && r2[i].Some? && InRect(p, r2[i].value);
        ReachedUp(t, n, 2 * n + 1, i);
      } else {
        assert At(g1, p) != At(g0, p);
        var i :| 0 <= i < |r1| && Reached(t, 2 * n, i) && Leaf(t, i) && r1[i].Some? && InRect(p, r1[i].value);
        if r2[i] != r1[i] {
          ReachedDesc(t, 2 * n, i);
          ReachedDesc(t, 2 * n + 1, i);
          ChildrenApart(i, n);
        }
        ReachedUp(t, n, 2 * n, i);
      }
    }
  }

  /** Placing from a child places from the node. */
  lemma PlacedUp(b: RoomSize, t: seq<Option<Rect>>, r0: seq<Option<Rect>>, r1: seq<Option<Rect>>, g1: seq<seq<int>>, n: int, c: int)
    requires n >= 1 && (c == 2 * n || c == 2 * n + 1) && !Leaf(t, n) && Placed(b, t, r0, r1, g1, c)
    ensures Placed(b, t, r0, r1, g1, n)
    ensures SomeStuck(b, t, c) ==> SomeStuck(b, t, n)
  {
    forall i | 0 <= i < |r1| && r1[i] != r0[i]
      ensures Reached(t, n, i)
    {
      ReachedUp(t, n, c, i);
    }
    if SomeStuck(b, t, c) {
      var i :| 0 <= i < |t| && Reached(t, c, i) && Leaf(t, i) && Stuck(b, t, i);
      ReachedUp(t, n, c, i);
    }
  }

  // ---------------------------------------------------------------------
  // The generator

  class Dungeon {
    var width: int
    var height: int
    /** The number of levels of the split tree. */
    var level: int
    /** The length of the node lists, 2^level; node 0 is unused. */
    var nnodes: int
    /** The spaces of the split tree, by node. */
    var bspTree: seq<Option<Rect>>
    /** regions[i]: the bounding rectangle of the rooms in the space of node i. */
    var regions: seq<Option<Rect>>
    var roomMnw: int
    var roomMnh: int
    var roomMxw: int
    var roomMxh: int
    /** The map, height rows of width tiles. */
    var rep: seq<seq<int>>

    /** The default settings: an 80 by 24 map, a tree of four levels, room sizes unset. */
    constructor()
      ensures width == 80 && height == 24 && level == 4 && nnodes == 16
      ensures bspTree == [] && regions == [] && rep == []
      ensures roomMnw == -1 && roomMnh == -1 && roomMxw == -1 && roomMxh == -1
    {
      width, height, level, nnodes := 80, 24, 4, 16;
      bspTree, regions, rep := [], [], [];
      roomMnw, roomMnh, roomMxw, roomMxh := -1, -1, -1, -1;
    }

    method SetGeometry(w: int, h: int)
      modifies this`width, this`height
      ensures width == w && height == h
    {
      width, height := w, h;
    }

    method SetLevel(l: int)
      requires l > 0
      modifies this`level
      ensures level == l
    {
      level := l;
    }

    /** Sets the room sizes: widths in [mnw, mxw], heights in [mnh, mxh]. */
    method SetRoomsz(mnw: int, mxw: int, mnh: int, mxh: int)
      requires 0 < mnw <= mxw && 0 < mnh <= mxh
      modifies this`roomMnw, this`roomMxw, this`roomMnh, this`roomMxh
      ensures roomMnw == mnw && roomMxw == mxw && roomMnh == mnh && roomMxh == mxh
    {
      roomMnw, roomMxw := mnw, mxw;
      roomMnh, roomMxh := mnh, mxh;
    }

    /** The room size settings. */
    function Sizes(): RoomSize
      reads this
    {
      RoomSize(roomMnw, roomMxw, roomMnh, roomMxh)
    }

    /** The node lists have nnodes entries and the map its size. */
    ghost predicate Ready()
      reads this
    {
      |bspTree| == nnodes && |regions| == nnodes && Shaped(rep, Size(width), Size(height))
    }

    /** Every stored space lies inside the map. */
    ghost predicate SpacesOnMap()
      reads this
    {
      forall i :: 0 <= i < |bspTree| && bspTree[i].Some? ==> Inside(bspTree[i].value, Rect(0, 0, width, height))
    }

    /**
     * Draws a room for node: nothing for a missing or undersized space, an
     * error when no side length can be drawn, and otherwise a room inside the
     * space, recorded as the region of node and paved with room tiles.
     */
    method PlaceRoom(node: int, pick: (int, int, int, int) -> int) returns (placed: bool, raised: bool)
      requires Ready() && SpacesOnMap() && 0 <= node < nnodes && PickInRange(pick)
      modifies this`regions, this`rep
      ensures Ready()
      ensures raised <==> Stuck(Sizes(), bspTree, node)
      ensures placed <==> Eligible(Sizes(), bspTree, node) && !raised
      ensures regions == if placed then old(regions)[node := regions[node]] else old(regions)
      ensures placed ==> regions[node].Some? && RoomFits(Sizes(), regions[node].value, bspTree[node].value)
      ensures forall p {:trigger At(rep, p)} ::
        At(rep, p) == if placed && InRect(p, regions[node].value) then Room else At(old(rep), p)
    {
      if bspTree[node].None? {
        return false, false;
      }
      var space := bspTree[node].value;
      if space.width < roomMnw || space.height < roomMnh {
        return false, false;
      }
      var mxw := Cap(space.width, roomMxw);
      var mxh := Cap(space.height, roomMxh);
      if Max(3, roomMnw) > mxw {
        return false, true;
      }
      var w := pick(node, 0, Max(3, roomMnw), mxw);
      if Max(3, roomMnh) > mxh {
        return false, true;
      }
      var h := pick(node, 1, Max(3, roomMnh), mxh);
      var x := pick(node, 2, space.x, space.x + space.width - w);
      var y := pick(node, 3, space.y, space.y + space.height - h);
      regions := regions[node := Some(Rect(x, y, w, h))];
      ghost var g0 := rep;
      for i := y to y + h
        invariant regions == old(regions)[node := Some(Rect(x, y, w, h))]
        invariant Shaped(rep, Size(width), Size(height))
        invariant forall p {:trigger At(rep, p)} :: At(rep, p) == if InRect(p, Rect(x, y, w, i - y)) then Room else At(g0, p)
      {
        for j := x to x + w
          invariant regions == old(regions)[node := Some(Rect(x, y, w, h))]
          invariant Shaped(rep, Size(width), Size(height))
          invariant forall p {:trigger At(rep, p)} ::
            At(rep, p) == if InRect(p, Rect(x, y, w, i - y)) || (p.1 == i && x <= p.0 < j) then Room else At(g0, p)
        {
          AtSet(rep, (j, i), Room);
          rep := Set2(rep, (j, i), Room);
        }
      }
      placed, raised := true, false;
    }

    /**
     * Places rooms in the leaves reached from node: a node whose children are
     * off the list or both absent gets a room, any other node places rooms
     * under its left child, then under its right one; an error stops it.
     */
    method PlaceRooms(node: int, pick: (int, int, int, int) -> int) returns (raised: bool)
      requires Ready() && SpacesOnMap() && 1 <= node < nnodes && PickInRange(pick)
      modifies this`regions, this`rep
      decreases nnodes - node
      ensures Ready()
      ensures Placed(Sizes(), bspTree, old(regions), regions, rep, node) && OnlyRooms(old(rep), rep)
      ensures raised <==> SomeStuck(Sizes(), bspTree, node)
      ensures !raised ==> Complete(Sizes(), bspTree, regions, rep, node)
      ensures ChangedInRooms(bspTree, regions, old(rep), rep, node)
    {
      var left, right := 2 * node, 2 * node + 1;
      if left >= nnodes || right >= nnodes || (bspTree[left].None? && bspTree[right].None?) {
        var placed;
        placed, raised := PlaceRoom(node, pick);
        forall i | 0 <= i < |bspTree| && Reached(bspTree, node, i)
          ensures i == node
        {
          ReachedLeaf(bspTree, node, i);
        }
        assert Reached(bspTree, node, node);
        if placed {
          assert Paved(rep, regions[node].value);
        }
        forall p | At(rep, p) != At(old(rep), p)
          ensures InLeafRoom(bspTree, regions, node, p)
        {
          assert Reached(bspTree, node, node) && Leaf(bspTree, node) && InRect(p, regions[node].value);
        }
      } else {
        ghost var r0, g0 := regions, rep;
        raised := PlaceRooms(left, pick);
        ghost var r1, g1 := regions, rep;
        PlacedUp(Sizes(), bspTree, r0, r1, g1, node, left);
        if !raised {
          raised := PlaceRooms(right, pick);
          PlacedStep(Sizes(), bspTree, r0, r1, regions, g0, g1, rep, node);
          PlacedUp(Sizes(), bspTree, r1, regions, rep, node, right);
          RoomsStep(Sizes(), bspTree, r1, regions, g0, g1, rep, node);
        } else {
          forall p | At(rep, p) != At(g0, p)
            ensures InLeafRoom(bspTree, regions, node, p)
          {
            var i :| 0 <= i < |regions| && Reached(bspTree, left, i) && Leaf(bspTree, i) && regions[i].Some? && InRect(p, regions[i].value);
            ReachedUp(bspTree, node, left, i);
          }
        }
      }
    }

    /**
     * Splits the space rect for node: when rect is at least 3 by 3 and node
     * is in the list, rect is stored there and its two halves are split in
     * turn for the children, both children being dropped when either of
     * them was not stored.
     */
    method UpdateBspTree(node: int, rect: Rect, vertical: int -> bool, split: (int, int, int) -> int)
      requires 1 <= node && |bspTree| == nnodes && SplitInRange(split)
      modifies this`bspTree
      decreases nnodes - node
      ensures Updated(old(bspTree), bspTree, node, rect)
    {
      if rect.width < 3 || rect.height < 3 || node >= nnodes {
        return;
      }
      bspTree := bspTree[node := Some(rect)];
      var left, right := 2 * node, 2 * node + 1;
      var l, r;
      if vertical(node) {
        var sx := split(node, rect.x + 1, rect.x + rect.width - 2);
        l := Rect(rect.x, rect.y, sx - rect.x, rect.height);
        r := Rect(sx + 1, rect.y, rect.width - sx - 1 + rect.x, rect.height);
      } else {
        var sy := split(node, rect.y + 1, rect.y + rect.height - 2);
        l := Rect(rect.x, rect.y, rect.width, sy - rect.y);
        r := Rect(rect.x, sy + 1, rect.width, rect.height - sy - 1 + rect.y);
      }
      ghost var t1 := bspTree;
      UpdateBspTree(left, l, vertical, split);
      ghost var t2 := bspTree;
      UpdateBspTree(right, r, vertical, split);
      ghost var t3 := bspTree;
      if left < nnodes && right < nnodes && (bspTree[left].None? || bspTree[right].None?) {
        bspTree := bspTree[left := None][right := None];
      }
      UpdateStep(old(bspTree), t1, t2, t3, bspTree, node, rect, l, r);
    }

    /**
     * Propagates the regions bottom-up: walking the right children from the
     * last node down to node 3, the parent of each pair gets the merge of
     * both children's regions, or the one present, and keeps its own when
     * both are absent.  A node is walked before its parent.
     */
    method PlaceCorrs()
      requires |regions| == nnodes && nnodes >= 2 && nnodes % 2 == 0
      modifies this`regions
      ensures Propagated(old(regions), regions, nnodes)
    {
      ghost var r0 := regions;
      var node := nnodes - 1;
      while node > 1
        invariant 1 <= node < nnodes && node % 2 == 1 && |regions| == nnodes
        invariant forall p {:trigger r0[p]} :: 0 <= p < nnodes ==>
          regions[p] == if 1 <= p && node < 2 * p + 1 < nnodes then Combine(regions[2 * p], regions[2 * p + 1], r0[p]) else r0[p]
        decreases node
      {
        var parent, sibling := node / 2, node - 1;
        if regions[node].None? && regions[sibling].None? {
        } else if regions[node].Some? && regions[sibling].None? {
          regions := regions[parent := regions[node]];
        } else if regions[node].None? && regions[sibling].Some? {
          regions := regions[parent := regions[sibling]];
        } else {
          regions := regions[parent := Some(Merge(regions[sibling].value, regions[node].value))];
        }
        node := node - 2;
      }
    }

    /**
     * Turns rock into corridor from (x, y) in direction dir (0 right, 1 up,
     * 2 left, 3 down) up to the first tile that is not rock.
     */
    method PlaceCorrsDir(x: int, y: int, dir: int)
      requires Ready() && 0 <= dir < 4 && Stops(rep, Size(width), x, y, dir)
      modifies this`rep
      ensures Ready()
      ensures forall p {:trigger At(rep, p)} ::
        At(rep, p) == if 0 <= RayIndex(p, x, y, dir) < RunLength(old(rep), Size(width), x, y, dir) then Corr else At(old(rep), p)
      ensures forall p {:trigger At(rep, p)} :: At(rep, p) != At(old(rep), p) ==> At(old(rep), p) == Rock && At(rep, p) == Corr
    {
      ghost var g0, k := rep, 0;
      var cx, cy := x, y;
      while rep[cy][cx] == Rock
        invariant Shaped(rep, Size(width), Size(height))
        invariant Stops(g0, Size(width), cx, cy, dir) && RayIndex((cx, cy), x, y, dir) == k >= 0
        invariant RunLength(g0, Size(width), x, y, dir) == k + RunLength(g0, Size(width), cx, cy, dir)
        invariant forall p {:trigger At(rep, p)} :: At(rep, p) == if 0 <= RayIndex(p, x, y, dir) < k then Corr else At(g0, p)
        decreases RunLength(g0, Size(width), cx, cy, dir)
      {
        assert At(rep, (cx, cy)) == At(g0, (cx, cy));
        AtSet(rep, (cx, cy), Corr);
        rep := Set2(rep, (cx, cy), Corr);
        cx, cy := cx + DX[dir], cy + DY[dir];
        k := k + 1;
      }
      assert At(rep, (cx, cy)) == At(g0, (cx, cy));
      forall p | At(rep, p) != At(g0, p)
        ensures At(g0, p) == Rock && At(rep, p) == Corr
      {
        RunRock(g0, Size(width), x, y, dir, p);
      }
    }

    /**
     * Lays the L-shaped corridor from (x1, y1) towards (x2, y2): for dir 3
     * down the column x1 to row y2, then left along that row to column x2;
     * for dir 0 right along row y1 to column x2, then down that column to
     * row y2.  Any other direction is an error.
     */
    method PlaceCorrsBetweenPoints(x1: int, y1: int, x2: int, y2: int, dir: int) returns (raised: bool)
      requires Ready()
      requires forall p {:trigger OnRun(p, x1, y1, x2, y2, dir)} :: OnRun(p, x1, y1, x2, y2, dir) ==> OnMap(rep, p)
      modifies this`rep
      ensures Ready()
      ensures raised <==> dir != 0 && dir != 3
      ensures forall p {:trigger At(rep, p)} :: At(rep, p) == if OnRun(p, x1, y1, x2, y2, dir) then Corr else At(old(rep), p)
    {
      ghost var g0 := rep;
      var x, y := x1, y1;
      raised := false;
      if dir == 3 {
        while y < y2
          invariant Shaped(rep, Size(width), Size(height)) && y1 <= y <= Max(y1, y2)
          invariant forall p {:trigger At(rep, p)} :: At(rep, p) == if p.0 == x1 && y1 <= p.1 < y then Corr else At(g0, p)
          decreases y2 - y
        {
          assert OnRun((x, y), x1, y1, x2, y2, dir);
          AtSet(rep, (x, y), Corr);
          rep := Set2(rep, (x, y), Corr);
          y := y + 1;
        }
        while x >= x2
          invariant Shaped(rep, Size(width), Size(height)) && x <= x1 && x >= Min(x1 + 1, x2) - 1
          invariant forall p {:trigger At(rep, p)} ::
            At(rep, p) == if (p.0 == x1 && y1 <= p.1 < y2) || (p.1 == y && x < p.0 <= x1) then Corr else At(g0, p)
          decreases x
        {
          assert OnRun((x, y), x1, y1, x2, y2, dir);
          AtSet(rep, (x, y), Corr);
          rep := Set2(rep, (x, y), Corr);
          x := x - 1;
        }
      } else if dir == 0 {
        while x < x2
          invariant Shaped(rep, Size(width), Size(height)) && x1 <= x <= Max(x1, x2)
          invariant forall p {:trigger At(rep, p)} :: At(rep, p) == if p.1 == y1 && x1 <= p.0 < x then Corr else At(g0, p)
          decreases x2 - x
        {
          assert OnRun((x, y), x1, y1, x2, y2, dir);
          AtSet(rep, (x, y), Corr);
          rep := Set2(rep, (x, y), Corr);
          x := x + 1;
        }
        while y <= y2
          invariant Shaped(rep, Size(width), Size(height)) && y >= y1 && y <= Max(y1 - 1, y2) + 1
          invariant forall p {:trigger At(rep, p)} ::
            At(rep, p) == if (p.1 == y1 && x1 <= p.0 < x2) || (p.0 == x && y1 <= p.1 < y) then Corr else At(g0, p)
          decreases y2 - y
        {
          assert OnRun((x, y), x1, y1, x2, y2, dir);
          AtSet(rep, (x, y), Corr);
          rep := Set2(rep, (x, y), Corr);
          y := y + 1;
        }
      } else {
        raised := true;
      }
    }

    /**
     * The first half of the generation: an all-rock map, no regions, and a
     * split tree of 2^level nodes grown from the map without its border.
     */
    method Plan(vertical: int -> bool, split: (int, int, int) -> int)
      requires level >= 1 && SplitInRange(split)
      modifies this`rep, this`nnodes, this`bspTree, this`regions
      ensures nnodes == Pow2(level) && rep == AllRock(width, height) && regions == NoSpaces(nnodes)
      ensures Ready() && SpacesOnMap()
      ensures Built(bspTree, 1)
      ensures bspTree[1].Some? <==> width >= 5 && height >= 5
      ensures forall i :: 0 <= i < nnodes && bspTree[i].Some? ==>
        Big(bspTree[i].value) && Inside(bspTree[i].value, Rect(1, 1, width - 2, height - 2))
    {
      rep := AllRock(width, height);
      nnodes := Pow2(level);
      bspTree := NoSpaces(nnodes);
      regions := NoSpaces(nnodes);
      ghost var t0 := bspTree;
      UpdateBspTree(1, Rect(1, 1, width - 2, height - 2), vertical, split);
      Grown(t0, bspTree, Rect(1, 1, width - 2, height - 2));
    }

    /**
     * Generates a dungeon: an all-rock map, a split tree of 2^level nodes
     * grown from the map without its border, rooms in its leaves and, unless
     * drawing a room failed, the regions propagated up the tree.  rooms are
     * the regions right after the rooms are placed.
     */
    method Generate(vertical: int -> bool, split: (int, int, int) -> int, pick: (int, int, int, int) -> int)
      returns (raised: bool, ghost rooms: seq<Option<Rect>>)
      requires level >= 1 && SplitInRange(split) && PickInRange(pick)
      modifies this`rep, this`nnodes, this`bspTree, this`regions
      ensures nnodes == Pow2(level) && Ready() && SpacesOnMap()
      ensures Built(bspTree, 1)
      ensures bspTree[1].Some? <==> width >= 5 && height >= 5
      ensures forall i :: 0 <= i < nnodes && bspTree[i].Some? ==>
        Big(bspTree[i].value) && Inside(bspTree[i].value, Rect(1, 1, width - 2, height - 2))
      ensures Placed(Sizes(), bspTree, NoSpaces(nnodes), rooms, rep, 1)
      ensures OnlyRooms(AllRock(width, height), rep)
      ensures ChangedInRooms(bspTree, rooms, AllRock(width, height), rep, 1)
      ensures raised <==> SomeStuck(Sizes(), bspTree, 1)
      ensures !raised ==> Complete(Sizes(), bspTree, rooms, rep, 1) && Propagated(rooms, regions, nnodes)
      ensures raised ==> regions == rooms
    {
      Plan(vertical, split);
      raised := PlaceRooms(1, pick);
      rooms := regions;
      if !raised {
        PlaceCorrs();
      }
    }
  }
}
