/*
 * The TinyKeep dungeon generator: cells scattered on a grid are pushed
 * apart until none overlap (or the overlapping ones are dropped), cells
 * outside the grid are dropped, the large cells become rooms, the room
 * centres are joined along a pseudo minimum spanning tree of their
 * Delaunay graph by L-shaped hallways, the cells no hallway crosses are
 * dropped, and finally cells and then rooms are stamped on the tile grid.
 *
 * Cells are values; a cell object of the program is a position in the
 * cell list, so removing a cell object from the list is removing the entry
 * at its position.  The cells to start from, the relocation offsets, the
 * flip test of the triangulation, the edge order and the coin for extra
 * edges are parameters.
 */
module TinyKeepDungeon {
  import opened Lists
  import opened TinyKeepGeometry
  import D = TinyKeepDelaunay
  import K = TinyKeepKruskal

  const TileRoom := 1
  const TileRock := 2
  const TileCorr := 4
  const TileCell := 8

  // ---------------------------------------------------------------------
  // Cells

  /** Some other cell overlaps cells[i]. */
  predicate Active(cells: seq<Rect>, i: int)
  {
    0 <= i < |cells| && exists j :: 0 <= j < |cells| && j != i && Overlaps(cells[j], cells[i])
  }

  /** No two cells overlap. */
  predicate Separated(cells: seq<Rect>)
  {
    forall i, j :: 0 <= i < |cells| && 0 <= j < |cells| && i != j ==> !Overlaps(cells[i], cells[j])
  }

  /** The cell lies within the width by height grid. */
  predicate Inside(r: Rect, width: int, height: int)
  {
    0 <= r.x && 0 <= r.y && r.x + r.w <= width && r.y + r.h <= height
  }

  /** Large enough to be a room. */
  predicate Big(r: Rect, minWidth: int, minHeight: int)
  {
    r.w >= minWidth && r.h >= minHeight
  }

  function Moved(r: Rect, d: Point): Rect
  {
    Rect(r.x + d.x, r.y + d.y, r.w, r.h)
  }

  /** The positions of the cells inside the grid. */
  function InsideAt(cells: seq<Rect>, width: int, height: int): (r: set<int>)
    ensures forall i :: i in r <==> 0 <= i < |cells| && Inside(cells[i], width, height)
  {
    set i | 0 <= i < |cells| && Inside(cells[i], width, height)
  }

  /** The positions of the cells large enough to be rooms, and of the others. */
  function BigAt(cells: seq<Rect>, minWidth: int, minHeight: int, big: bool): (r: set<int>)
    ensures forall i :: i in r <==> 0 <= i < |cells| && Big(cells[i], minWidth, minHeight) == big
  {
    set i | 0 <= i < |cells| && Big(cells[i], minWidth, minHeight) == big
  }

  /** With no active cell, no two overlap. */
  lemma NoneActive(cells: seq<Rect>)
    requires forall i :: 0 <= i < |cells| ==> !Active(cells, i)
    ensures Separated(cells)
  {
    forall i, j | 0 <= i < |cells| && 0 <= j < |cells| && i != j
      ensures !Overlaps(cells[i], cells[j])
    {
      assert !Active(cells, j);
    }
  }

  /** Dropping cells keeps the others apart. */
  lemma SubSeparated(s: seq<Rect>, keep: set<int>)
    requires Separated(s)
    ensures Separated(Sub(s, keep))
  {
    var r := Sub(s, keep);
    forall a, b | 0 <= a < |r| && 0 <= b < |r| && a != b
      ensures !Overlaps(r[a], r[b])
    {
      if a < b {
        var i, j := SubPairs(s, keep, a, b);
      } else {
        var i, j := SubPairs(s, keep, b, a);
      }
    }
  }

  /**
   * The cells that were not active before a step did not move in it, and
   * none of them overlapped any other cell: once the active ones are
   * dropped, no two of the rest overlap.
   */
  lemma InactiveSeparated(c0: seq<Rect>, c1: seq<Rect>, active: seq<int>)
    requires |c1| == |c0|
    requires forall i :: i in active <==> 0 <= i < |c0| && Active(c0, i)
    requires forall i :: 0 <= i < |c0| && i !in active ==> c1[i] == c0[i]
    ensures Separated(Sub(c1, Others(|c1|, active)))
  {
    var keep := Others(|c1|, active);
    var r := Sub(c1, keep);
    forall a, b | 0 <= a < |r| && 0 <= b < |r| && a != b
      ensures !Overlaps(r[a], r[b])
    {
      if a < b {
        var i, j := SubPairs(c1, keep, a, b);
        assert !Active(c0, j);
      } else {
        var i, j := SubPairs(c1, keep, b, a);
        assert !Active(c0, i);
      }
    }
  }

  /**
   * Room selection splits the cells in two: the rooms, each large enough,
   * and the cells left, each too narrow or too low; together they are the
   * cells there were.
   */
  lemma SelectSplit(cells: seq<Rect>, minWidth: int, minHeight: int)
    ensures forall r :: r in Sub(cells, BigAt(cells, minWidth, minHeight, true)) ==>
      Big(r, minWidth, minHeight)
    ensures forall c :: c in Sub(cells, BigAt(cells, minWidth, minHeight, false)) ==>
      !Big(c, minWidth, minHeight)
    ensures multiset(Sub(cells, BigAt(cells, minWidth, minHeight, true))) +
      multiset(Sub(cells, BigAt(cells, minWidth, minHeight, false))) == multiset(cells)
  {
    var bigs, smalls := BigAt(cells, minWidth, minHeight, true), BigAt(cells, minWidth, minHeight, false);
    forall r | r in Sub(cells, bigs)
      ensures Big(r, minWidth, minHeight)
    {
      SubFrom(cells, bigs, r);
    }
    forall c | c in Sub(cells, smalls)
      ensures !Big(c, minWidth, minHeight)
    {
      SubFrom(cells, smalls, c);
    }
    SubSplit(cells, bigs, smalls);
  }

  /** Rooms and cells taken apart from separated cells stay apart from each other. */
  lemma SelectApart(cells: seq<Rect>, minWidth: int, minHeight: int)
    requires Separated(cells)
    ensures forall r, c ::
      (r in Sub(cells, BigAt(cells, minWidth, minHeight, true)) &&
       c in Sub(cells, BigAt(cells, minWidth, minHeight, false))) ==> !Overlaps(r, c)
  {
    var bigs, smalls := BigAt(cells, minWidth, minHeight, true), BigAt(cells, minWidth, minHeight, false);
    forall r, c | r in Sub(cells, bigs) && c in Sub(cells, smalls)
      ensures !Overlaps(r, c)
    {
      SubFrom(cells, bigs, r);
      SubFrom(cells, smalls, c);
      var i :| 0 <= i < |cells| && i in bigs && cells[i] == r;
      var j :| 0 <= j < |cells| && j in smalls && cells[j] == c;
    }
  }

  /** The centres of the rooms, in their order: the points of the Delaunay graph. */
  function Centres(rooms: seq<Rect>): seq<Point>
  {
    seq(|rooms|, k requires 0 <= k < |rooms| => Center(rooms[k]))
  }

  /** Some triangle of tri has u and v for two of its corners. */
  ghost predicate Joined(tri: seq<D.Triangle>, u: int, v: int)
  {
    exists k :: 0 <= k < |tri| && D.Linked(tri[k], u, v)
  }

  // ---------------------------------------------------------------------
  // The tile grid

  /** height rows of width tiles each; a tile (x, y) is rep[y][x]. */
  predicate Grid(rep: seq<seq<int>>, width: int, height: int)
  {
    |rep| == height && forall y :: 0 <= y < height ==> |rep[y]| == width
  }

  /** The grid of the given size with rock everywhere. */
  function RockGrid(width: nat, height: nat): (rep: seq<seq<int>>)
    ensures Grid(rep, width, height)
    ensures forall y, x :: 0 <= y < height && 0 <= x < width ==> rep[y][x] == TileRock
  {
    seq(height, _ => seq(width, _ => TileRock))
  }

  /**
   * r1 is r0 with every tile (x, y) of area set to tile, and every other
   * tile as it was.
   */
  ghost predicate Painted(r0: seq<seq<int>>, r1: seq<seq<int>>, area: iset<(int, int)>, tile: int)
  {
    |r1| == |r0| &&
    (forall y :: 0 <= y < |r0| ==> |r1[y]| == |r0[y]|) &&
    forall y, x :: 0 <= y < |r0| && 0 <= x < |r0[y]| ==>
      r1[y][x] == if (x, y) in area then tile else r0[y][x]
  }

  /** The tiles x0 .. x1 by y0 .. y1, ends included. */
  ghost function Span(x0: int, x1: int, y0: int, y1: int): iset<(int, int)>
  {
    iset p: (int, int) | x0 <= p.0 <= x1 && y0 <= p.1 <= y1
  }

  /** The tiles of a cell. */
  ghost function RectTiles(r: Rect): iset<(int, int)>
  {
    Span(r.x, r.x + r.w - 1, r.y, r.y + r.h - 1)
  }

  /** The tiles of all the cells of rs. */
  ghost function Tiles(rs: seq<Rect>): iset<(int, int)>
  {
    if |rs| == 0 then iset{} else Tiles(rs[..|rs| - 1]) + RectTiles(rs[|rs| - 1])
  }

  /** The two ends of a hallway, the one further left first. */
  function Ends(c1: Point, c2: Point): (Point, Point)
  {
    if c1.x > c2.x then (c2, c1) else (c1, c2)
  }

  /**
   * The L-shaped hallway between two centres: along the row of the left
   * end as far as the column of the right end, then along that column up
   * or down to the right end.
   */
  ghost function HallTiles(c1: Point, c2: Point): iset<(int, int)>
  {
    var (a, b) := Ends(c1, c2);
    Span(a.x, b.x, a.y, a.y) + Span(b.x, b.x, Min(a.y, b.y), Max(a.y, b.y))
  }

  /** The hallways along the edges es between room centres. */
  ghost function Halls(rooms: seq<Rect>, es: seq<K.Edge>): iset<(int, int)>
    requires forall e :: e in es ==> 0 <= e.u < |rooms| && 0 <= e.v < |rooms|
  {
    if |es| == 0 then iset{}
    else
      var e := es[|es| - 1];
      Halls(rooms, es[..|es| - 1]) + HallTiles(Center(rooms[e.u]), Center(rooms[e.v]))
  }

  /** Some tile of the cell is a hallway tile. */
  predicate HasCorr(rep: seq<seq<int>>, c: Rect)
  {
    exists y, x :: c.y <= y < c.y + c.h && c.x <= x < c.x + c.w &&
      0 <= y < |rep| && 0 <= x < |rep[y]| && rep[y][x] == TileCorr
  }

  /** Some tile of the cell lies in area. */
  ghost predicate Crosses(c: Rect, area: iset<(int, int)>)
  {
    exists y, x :: c.y <= y < c.y + c.h && c.x <= x < c.x + c.w && (x, y) in area
  }

  /** The positions of the cells a hallway tile lies in. */
  function WantedAt(rep: seq<seq<int>>, cells: seq<Rect>): (r: set<int>)
    ensures forall i :: i in r <==> 0 <= i < |cells| && HasCorr(rep, cells[i])
  {
    set i | 0 <= i < |cells| && HasCorr(rep, cells[i])
  }

  /** The tile the finished grid holds at p: room over cell over hallway over rock. */
  ghost function Layered(rooms: seq<Rect>, cells: seq<Rect>, halls: iset<(int, int)>, p: (int, int)): int
  {
    if p in Tiles(rooms) then TileRoom
    else if p in Tiles(cells) then TileCell
    else if p in halls then TileCorr
    else TileRock
  }

  /** Setting one more tile paints one more tile. */
  lemma PaintNext(r0: seq<seq<int>>, r1: seq<seq<int>>, a1: iset<(int, int)>, a2: iset<(int, int)>,
                  tile: int, x: int, y: int)
    requires Painted(r0, r1, a1, tile) && 0 <= y < |r1| && 0 <= x < |r1[y]|
    requires forall p :: p in a2 <==> p in a1 || p == (x, y)
    ensures Painted(r0, r1[y := r1[y][x := tile]], a2, tile)
  {
  }

  /** Only the tiles of the grid matter. */
  lemma PaintedSame(r0: seq<seq<int>>, r1: seq<seq<int>>, a1: iset<(int, int)>, a2: iset<(int, int)>, tile: int)
    requires Painted(r0, r1, a1, tile)
    requires forall y, x :: 0 <= y < |r0| && 0 <= x < |r0[y]| ==> ((x, y) in a1 <==> (x, y) in a2)
    ensures Painted(r0, r1, a2, tile)
  {
  }

  /** Painting one area and then another with the same tile paints both. */
  lemma PaintedThen(r0: seq<seq<int>>, r1: seq<seq<int>>, r2: seq<seq<int>>,
                    a1: iset<(int, int)>, a2: iset<(int, int)>, tile: int)
    requires Painted(r0, r1, a1, tile) && Painted(r1, r2, a2, tile)
    ensures Painted(r0, r2, a1 + a2, tile)
  {
  }

  /** Painting an area a second time changes nothing. */
  lemma PaintTwice(r0: seq<seq<int>>, r1: seq<seq<int>>, r2: seq<seq<int>>, area: iset<(int, int)>, tile: int)
    requires Painted(r0, r1, area, tile) && Painted(r1, r2, area, tile)
    ensures r2 == r1
  {
    forall y | 0 <= y < |r1|
      ensures r2[y] == r1[y]
    {
      assert forall x :: 0 <= x < |r1[y]| ==> r2[y][x] == r1[y][x];
    }
  }

  /** The hallway between two centres of the grid lies on the grid. */
  lemma HallInGrid(c1: Point, c2: Point, width: int, height: int, x: int, y: int)
    requires 0 <= c1.x < width && 0 <= c1.y < height && 0 <= c2.x < width && 0 <= c2.y < height
    requires (x, y) in HallTiles(c1, c2)
    ensures 0 <= x < width && 0 <= y < height
  {
  }

  /**
   * On a grid of rock, a hallway tile after the hallways are dug lies in
   * one of them: a cell with a hallway tile crosses a hallway.
   */
  lemma CorrIsHall(r0: seq<seq<int>>, r1: seq<seq<int>>, halls: iset<(int, int)>, c: Rect)
    requires forall y, x :: 0 <= y < |r0| && 0 <= x < |r0[y]| ==> r0[y][x] == TileRock
    requires Painted(r0, r1, halls, TileCorr) && HasCorr(r1, c)
    ensures Crosses(c, halls)
  {
    var y, x :| c.y <= y < c.y + c.h && c.x <= x < c.x + c.w &&
      0 <= y < |r1| && 0 <= x < |r1[y]| && r1[y][x] == TileCorr;
    assert r0[y][x] == TileRock;
  }

  /** Hallways, then cells, then rooms stamped on rock give the layered grid. */
  lemma Layers(r0: seq<seq<int>>, r1: seq<seq<int>>, r2: seq<seq<int>>, r3: seq<seq<int>>,
               rooms: seq<Rect>, cells: seq<Rect>, halls: iset<(int, int)>, width: int, height: int)
    requires Grid(r0, width, height)
    requires forall y, x :: 0 <= y < height && 0 <= x < width ==> r0[y][x] == TileRock
    requires Painted(r0, r1, halls, TileCorr)
    requires Painted(r1, r2, Tiles(cells), TileCell)
    requires Painted(r2, r3, Tiles(rooms), TileRoom)
    ensures Grid(r3, width, height)
    ensures forall y, x :: 0 <= y < height && 0 <= x < width ==> r3[y][x] == Layered(rooms, cells, halls, (x, y))
  {
    forall y, x | 0 <= y < height && 0 <= x < width
      ensures r3[y][x] == Layered(rooms, cells, halls, (x, y))
    {
      assert r0[y][x] == TileRock;
      assert |r1[y]| == width && |r2[y]| == width;
    }
  }

  /**
   * Rooms and cells as generation leaves them: all on the grid, the rooms
   * large enough and the cells not, and no two of them overlapping.
   */
  ghost predicate Placed(rooms: seq<Rect>, cells: seq<Rect>, width: int, height: int, minWidth: int, minHeight: int)
  {
    (forall r :: r in rooms ==> Inside(r, width, height) && Big(r, minWidth, minHeight)) &&
    (forall c :: c in cells ==> Inside(c, width, height) && !Big(c, minWidth, minHeight)) &&
    Separated(rooms) && Separated(cells) &&
    (forall r, c :: r in rooms && c in cells ==> !Overlaps(r, c))
  }

  /** Dropping cells keeps rooms and cells placed. */
  lemma PlacedSub(rooms: seq<Rect>, cells: seq<Rect>, keep: set<int>,
                  width: int, height: int, minWidth: int, minHeight: int)
    requires Placed(rooms, cells, width, height, minWidth, minHeight)
    ensures Placed(rooms, Sub(cells, keep), width, height, minWidth, minHeight)
  {
    SubSeparated(cells, keep);
    SubIn(cells, keep);
  }

  /** On a grid of rock, the cells with a hallway tile after digging cross a hallway. */
  lemma AllCross(r0: seq<seq<int>>, r1: seq<seq<int>>, halls: iset<(int, int)>, cells: seq<Rect>)
    requires forall y, x :: 0 <= y < |r0| && 0 <= x < |r0[y]| ==> r0[y][x] == TileRock
    requires Painted(r0, r1, halls, TileCorr)
    requires forall c :: c in cells ==> HasCorr(r1, c)
    ensures forall c :: c in cells ==> Crosses(c, halls)
  {
    forall c | c in cells
      ensures Crosses(c, halls)
    {
      CorrIsHall(r0, r1, halls, c);
    }
  }

  /** Cells taken from cells inside the grid are inside the grid. */
  lemma SubInside(s: seq<Rect>, keep: set<int>, width: int, height: int)
    requires forall c :: c in s ==> Inside(c, width, height)
    ensures forall c :: c in Sub(s, keep) ==> Inside(c, width, height)
  {
    SubIn(s, keep);
  }

  class Dungeon {
    const width: int
    const height: int
    const relocAttempts: int
    const minRoomWidth: int
    const minRoomHeight: int
    var cells: seq<Rect>
    var rooms: seq<Rect>
    var rep: seq<seq<int>>

    /** The settings; no cells, no rooms and no grid yet. */
    constructor (width: int, height: int, relocAttempts: int, minRoomWidth: int, minRoomHeight: int)
      ensures this.width == width && this.height == height && this.relocAttempts == relocAttempts
      ensures this.minRoomWidth == minRoomWidth && this.minRoomHeight == minRoomHeight
      ensures cells == [] && rooms == [] && rep == []
    {
      this.width := width;
      this.height := height;
      this.relocAttempts := relocAttempts;
      this.minRoomWidth := minRoomWidth;
      this.minRoomHeight := minRoomHeight;
      cells, rooms, rep := [], [], [];
    }

    /** The positions, in order, of the cells some other cell overlaps. */
    method GetActiveCells() returns (active: seq<int>)
      ensures Increasing(active)
      ensures forall e :: 0 <= e < |active| ==> 0 <= active[e] < |cells|
      ensures forall i :: i in active <==> 0 <= i < |cells| && Active(cells, i)
    {
      active := [];
      for i := 0 to |cells|
        invariant Increasing(active)
        invariant forall e :: 0 <= e < |active| ==> 0 <= active[e] < i
        invariant forall m :: m in active <==> 0 <= m < i && Active(cells, m)
      {
        var isActive := false;
        var j := 0;
        while j < |cells|
          invariant 0 <= j <= |cells|
          invariant !isActive ==> forall k :: 0 <= k < j && k != i ==> !Overlaps(cells[k], cells[i])
          invariant isActive ==> Active(cells, i)
        {
          if j != i && Overlaps(cells[j], cells[i]) {
            isActive := true;
            break;
          }
          j := j + 1;
        }
        if isActive {
          active := active + [i];
        }
      }
    }

    /**
     * One separation step: each active cell moves by the offset velocity
     * gives for it (the rounded steering velocity), the others stay.
     */
    method RelocateStep(active: seq<int>, step: int, velocity: (int, int) -> Point)
      requires Increasing(active) && forall e :: 0 <= e < |active| ==> 0 <= active[e] < |cells|
      modifies this`cells
      ensures |cells| == |old(cells)|
      ensures forall i :: 0 <= i < |cells| ==>
        cells[i] == if i in active then Moved(old(cells)[i], velocity(step, i)) else old(cells)[i]
    {
      for e := 0 to |active|
        invariant |cells| == |old(cells)|
        invariant forall i :: 0 <= i < |cells| ==>
          cells[i] == if i in active[..e] then Moved(old(cells)[i], velocity(step, i)) else old(cells)[i]
      {
        var i := active[e];
        assert active[..e + 1] == active[..e] + [i];
        assert i !in active[..e];
        cells := cells[i := Moved(cells[i], velocity(step, i))];
      }
      assert active[..|active|] == active;
    }

    /**
     * The cells at the ascending positions drop removed one after another
     * (each found where the earlier removals left it): the others are
     * left, in order.
     */
    method RemoveCells(drop: seq<int>)
      requires Increasing(drop) && forall e :: 0 <= e < |drop| ==> 0 <= drop[e] < |cells|
      modifies this`cells
      ensures cells == Sub(old(cells), Others(|old(cells)|, drop))
    {
      cells := RemoveAll(cells, drop);
    }

    /** The cells outside the grid are dropped; the others are left, in order. */
    method ClearOobCells()
      modifies this`cells
      ensures cells == Sub(old(cells), InsideAt(old(cells), width, height))
      ensures forall c :: c in cells ==> Inside(c, width, height)
    {
      var drop := [];
      for k := 0 to |cells|
        invariant Increasing(drop) && forall e :: 0 <= e < |drop| ==> 0 <= drop[e] < k
        invariant forall m :: m in drop <==> 0 <= m < k && !Inside(cells[m], width, height)
      {
        if cells[k].x < 0 || cells[k].y < 0 || cells[k].x + cells[k].w > width || cells[k].y + cells[k].h > height {
          drop := drop + [k];
        }
      }
      ghost var s := cells;
      RemoveCells(drop);
      assert Others(|s|, drop) == InsideAt(s, width, height);
      forall c | c in cells
        ensures Inside(c, width, height)
      {
        SubFrom(s, InsideAt(s, width, height), c);
      }
    }

    /**
     * Separation: while some cells overlap, move them apart, at most
     * relocAttempts times; if they still overlap after the last attempt,
     * drop them.  Then drop the cells outside the grid.  steps is the
     * number of moves made.
     */
    method RelocateCells(velocity: (int, int) -> Point) returns (ghost steps: int)
      requires relocAttempts >= 1
      modifies this`cells
      ensures 0 <= steps <= relocAttempts
      ensures Separated(cells) && forall c :: c in cells ==> Inside(c, width, height)
    {
      var step := 0;
      while true
        invariant 0 <= step < relocAttempts
        decreases relocAttempts - step
      {
        var active := GetActiveCells();
        if |active| == 0 {
          NoneActive(cells);
          break;
        }
        ghost var c0 := cells;
        RelocateStep(active, step, velocity);
        step := step + 1;
        if step == relocAttempts {
          InactiveSeparated(c0, cells, active);
          RemoveCells(active);
          break;
        }
      }
      steps := step;
      ghost var c1 := cells;
      ClearOobCells();
      SubSeparated(c1, InsideAt(c1, width, height));
    }

    /**
     * The cells large enough become the rooms, in order, and are taken out
     * of the cells.
     */
    method SelectRooms()
      modifies this`cells, this`rooms
      ensures rooms == Sub(old(cells), BigAt(old(cells), minRoomWidth, minRoomHeight, true))
      ensures cells == Sub(old(cells), BigAt(old(cells), minRoomWidth, minRoomHeight, false))
    {
      var bigs: seq<int> := [];
      rooms := [];
      for k := 0 to |cells|
        invariant cells == old(cells)
        invariant Increasing(bigs) && forall e :: 0 <= e < |bigs| ==> 0 <= bigs[e] < k
        invariant forall m :: m in bigs <==> 0 <= m < k && Big(cells[m], minRoomWidth, minRoomHeight)
        invariant rooms == Sub(cells[..k], BigAt(cells, minRoomWidth, minRoomHeight, true))
      {
        assert cells[..k + 1][..k] == cells[..k];
        if cells[k].w >= minRoomWidth && cells[k].h >= minRoomHeight {
          rooms := rooms + [cells[k]];
          bigs := bigs + [k];
        }
      }
      assert cells[..|cells|] == cells;
      ghost var s := cells;
      RemoveCells(bigs);
      assert Others(|s|, bigs) == BigAt(s, minRoomWidth, minRoomHeight, false);
    }

    /** Sets the tiles x0 .. x1 of row y to tile, from left to right. */
    method PaintRow(x0: int, x1: int, y: int, tile: int)
      requires Grid(rep, width, height) && 0 <= y < height && (x0 <= x1 ==> 0 <= x0 && x1 < width)
      modifies this`rep
      ensures Grid(rep, width, height)
      ensures Painted(old(rep), rep, Span(x0, x1, y, y), tile)
    {
      var x := x0;
      while x <= x1
        invariant x0 <= x <= Max(x0, x1 + 1) && Grid(rep, width, height)
        invariant Painted(old(rep), rep, Span(x0, x - 1, y, y), tile)
      {
        PaintNext(old(rep), rep, Span(x0, x - 1, y, y), Span(x0, x, y, y), tile, x, y);
        rep := rep[y := rep[y][x := tile]];
        x := x + 1;
      }
      PaintedSame(old(rep), rep, Span(x0, x - 1, y, y), Span(x0, x1, y, y), tile);
    }

    /** Sets the tiles y0 .. y1 of column x to tile, from top to bottom. */
    method PaintColumn(x: int, y0: int, y1: int, tile: int)
      requires Grid(rep, width, height) && 0 <= x < width && (y0 <= y1 ==> 0 <= y0 && y1 < height)
      modifies this`rep
      ensures Grid(rep, width, height)
      ensures Painted(old(rep), rep, Span(x, x, y0, y1), tile)
    {
      var y := y0;
      while y <= y1
        invariant y0 <= y <= Max(y0, y1 + 1) && Grid(rep, width, height)
        invariant Painted(old(rep), rep, Span(x, x, y0, y - 1), tile)
      {
        PaintNext(old(rep), rep, Span(x, x, y0, y - 1), Span(x, x, y0, y), tile, x, y);
        rep := rep[y := rep[y][x := tile]];
        y := y + 1;
      }
      PaintedSame(old(rep), rep, Span(x, x, y0, y - 1), Span(x, x, y0, y1), tile);
    }

    /**
     * Digs the L-shaped hallway between the centres of two rooms: the
     * hallway tiles become corridor, nothing else changes.
     */
    method CreateHallways(i1: int, i2: int)
      requires Grid(rep, width, height) && 0 <= i1 < |rooms| && 0 <= i2 < |rooms|
      requires 0 <= Center(rooms[i1]).x < width && 0 <= Center(rooms[i1]).y < height
      requires 0 <= Center(rooms[i2]).x < width && 0 <= Center(rooms[i2]).y < height
      modifies this`rep
      ensures Grid(rep, width, height)
      ensures Painted(old(rep), rep, HallTiles(Center(rooms[i1]), Center(rooms[i2])), TileCorr)
    {
      var c1, c2 := Center(rooms[i1]), Center(rooms[i2]);
      if c1.x > c2.x {
        c1, c2 := c2, c1;
      }
      assert (c1, c2) == Ends(Center(rooms[i1]), Center(rooms[i2]));
      PaintRow(c1.x, c2.x, c1.y, TileCorr);
      ghost var r1 := rep;
      if c1.y > c2.y {
        PaintColumn(c2.x, c2.y, c1.y, TileCorr);
      } else {
        PaintColumn(c2.x, c1.y, c2.y, TileCorr);
      }
      PaintedThen(old(rep), r1, rep, Span(c1.x, c2.x, c1.y, c1.y),
        Span(c2.x, c2.x, Min(c1.y, c2.y), Max(c1.y, c2.y)), TileCorr);
    }

    /**
     * Stamps the cells of rs, one after another, on the grid: every tile
     * of every one of them becomes tile, nothing else changes.
     */
    method Stamp(rs: seq<Rect>, tile: int)
      requires Grid(rep, width, height) && forall r :: r in rs ==> Inside(r, width, height)
      modifies this`rep
      ensures Grid(rep, width, height)
      ensures Painted(old(rep), rep, Tiles(rs), tile)
    {
      for k := 0 to |rs|
        invariant Grid(rep, width, height)
        invariant Painted(old(rep), rep, Tiles(rs[..k]), tile)
      {
        var r := rs[k];
        assert r in rs;
        ghost var before := Tiles(rs[..k]);
        var y := r.y;
        while y < r.y + r.h
          invariant r.y <= y <= Max(r.y, r.y + r.h) && Grid(rep, width, height)
          invariant Painted(old(rep), rep, before + Span(r.x, r.x + r.w - 1, r.y, y - 1), tile)
        {
          ghost var r1 := rep;
          PaintRow(r.x, r.x + r.w - 1, y, tile);
          PaintedThen(old(rep), r1, rep, before + Span(r.x, r.x + r.w - 1, r.y, y - 1),
            Span(r.x, r.x + r.w - 1, y, y), tile);
          PaintedSame(old(rep), rep, before + Span(r.x, r.x + r.w - 1, r.y, y - 1) + Span(r.x, r.x + r.w - 1, y, y),
            before + Span(r.x, r.x + r.w - 1, r.y, y), tile);
          y := y + 1;
        }
        assert rs[..k + 1][..k] == rs[..k];
        PaintedSame(old(rep), rep, before + Span(r.x, r.x + r.w - 1, r.y, y - 1), Tiles(rs[..k + 1]), tile);
      }
      assert rs[..|rs|] == rs;
    }

    /** Whether some tile of the cell is a hallway tile. */
    method IsWanted(c: Rect) returns (wanted: bool)
      requires Grid(rep, width, height) && Inside(c, width, height)
      ensures wanted <==> HasCorr(rep, c)
    {
      var y := c.y;
      while y < c.y + c.h
        invariant c.y <= y
        invariant forall yy, xx :: c.y <= yy < y && yy < c.y + c.h && c.x <= xx < c.x + c.w ==> rep[yy][xx] != TileCorr
      {
        var x := c.x;
        while x < c.x + c.w
          invariant c.x <= x
          invariant forall xx :: c.x <= xx < x && xx < c.x + c.w ==> rep[y][xx] != TileCorr
        {
          if rep[y][x] == TileCorr {
            return true;
          }
          x := x + 1;
        }
        y := y + 1;
      }
      return false;
    }

    /**
     * The cells no hallway crosses are dropped; the others are left, in
     * order, and every one of them has a hallway tile.
     */
    method ClearCells()
      requires Grid(rep, width, height) && forall c :: c in cells ==> Inside(c, width, height)
      modifies this`cells
      ensures cells == Sub(old(cells), WantedAt(rep, old(cells)))
      ensures forall c :: c in cells ==> HasCorr(rep, c)
    {
      var wanted := [];
      for k := 0 to |cells|
        invariant cells == old(cells)
        invariant wanted == Sub(cells[..k], WantedAt(rep, cells))
      {
        assert cells[..k + 1][..k] == cells[..k];
        assert cells[k] in cells;
        var w := IsWanted(cells[k]);
        if w {
          wanted := wanted + [cells[k]];
        }
      }
      assert cells[..|cells|] == cells;
      ghost var s := cells;
      cells := wanted;
      forall c | c in cells
        ensures HasCorr(rep, c)
      {
        SubFrom(s, WantedAt(rep, s), c);
      }
    }

    /**
     * The Delaunay graph of the room centres: tri is its triangulation and
     * adj[u] the rooms sharing a triangle with room u.
     */
    method RoomGraph(flip: D.Flip) returns (ok: bool, adj: seq<set<int>>, ghost tri: seq<D.Triangle>)
      ensures ok <==> D.Triangulation(Centres(rooms), flip).Some?
      ensures ok ==> D.Triangulation(Centres(rooms), flip) == D.Some(tri)
      ensures ok ==> forall t :: t in tri ==> D.InRange(t, |rooms|)
      ensures ok ==> |adj| == |rooms|
      ensures ok ==> forall u, v :: 0 <= u < |rooms| ==> (v in adj[u] <==> Joined(tri, u, v))
      ensures ok ==> forall u, v :: 0 <= u < |adj| && v in adj[u] ==> 0 <= v < |adj|
    {
      var centers := [];
      for k := 0 to |rooms|
        invariant |centers| == k && forall j :: 0 <= j < k ==> centers[j] == Center(rooms[j])
      {
        centers := centers + [Center(rooms[k])];
      }
      assert centers == Centres(rooms);
      var graph := new D.DelaunayGraph(centers);
      ghost var grown;
      ok, grown := graph.ComputeTriangles(flip);
      if !ok {
        return false, [], [];
      }
      tri := graph.triangles;
      adj := graph.AdjacencyList();
      forall u, v | 0 <= u < |adj| && v in adj[u]
        ensures 0 <= v < |adj|
      {
        var k :| 0 <= k < |tri| && D.Linked(tri[k], u, v);
        assert tri[k] in tri;
      }
    }

    /** Digs a hallway along each edge in turn, between the centres of its rooms. */
    method DigHallways(es: seq<K.Edge>)
      requires Grid(rep, width, height)
      requires forall e :: e in es ==> 0 <= e.u < |rooms| && 0 <= e.v < |rooms|
      requires forall k :: 0 <= k < |rooms| ==>
        Inside(rooms[k], width, height) && rooms[k].w >= 1 && rooms[k].h >= 1
      modifies this`rep
      ensures Grid(rep, width, height)
      ensures Painted(old(rep), rep, Halls(rooms, es), TileCorr)
    {
      for k := 0 to |es|
        invariant Grid(rep, width, height)
        invariant Painted(old(rep), rep, Halls(rooms, es[..k]), TileCorr)
      {
        var e := es[k];
        assert e in es;
        CenterInside(rooms[e.u]);
        CenterInside(rooms[e.v]);
        ghost var r1 := rep;
        CreateHallways(e.u, e.v);
        assert es[..k + 1][..k] == es[..k];
        PaintedThen(old(rep), r1, rep, Halls(rooms, es[..k]), HallTiles(Center(rooms[e.u]), Center(rooms[e.v])), TileCorr);
      }
      assert es[..|es|] == es;
    }

    /**
     * Joins the rooms: the Delaunay graph of the room centres, a pseudo
     * minimum spanning tree of it, and a hallway along each of its edges.
     * tri is the triangulation and edges the tree's edges, in the order
     * their hallways are dug.  A failed triangulation changes nothing.
     */
    method ConnectRooms(flip: D.Flip, reorder: seq<K.Edge> -> seq<K.Edge>, coin: int -> bool)
      returns (ok: bool, ghost tri: seq<D.Triangle>, ghost edges: seq<K.Edge>)
      requires Grid(rep, width, height)
      requires forall k :: 0 <= k < |rooms| ==>
        Inside(rooms[k], width, height) && rooms[k].w >= 1 && rooms[k].h >= 1
      requires forall es :: multiset(reorder(es)) == multiset(es)
      modifies this`rep
      ensures Grid(rep, width, height)
      ensures ok <==> D.Triangulation(Centres(rooms), flip).Some?
      ensures ok ==> D.Triangulation(Centres(rooms), flip) == D.Some(tri)
      ensures ok ==> forall t :: t in tri ==> D.InRange(t, |rooms|)
      ensures ok ==> forall e :: e in edges ==> 0 <= e.u < e.v < |rooms| && Joined(tri, e.u, e.v)
      ensures ok ==> forall u, v :: 0 <= u < v < |rooms| && Joined(tri, u, v) ==> K.Conn(edges, u, v)
      ensures ok ==> Painted(old(rep), rep, Halls(rooms, edges), TileCorr)
      ensures !ok ==> rep == old(rep)
    {
      var adj;
      ok, adj, tri := RoomGraph(flip);
      if !ok {
        return false, [], [];
      }
      var kept := K.PseudoEmst(adj, reorder, coin);
      edges := kept;
      DigHallways(kept);
    }

    /**
     * The first half of the generation from the cells start: rock
     * everywhere, the cells separated and kept on the grid, and the large
     * ones taken as rooms.
     */
    method LayOut(start: seq<Rect>, velocity: (int, int) -> Point)
      requires width >= 0 && height >= 0 && relocAttempts >= 1
      modifies this`cells, this`rooms, this`rep
      ensures rep == RockGrid(width, height)
      ensures Placed(rooms, cells, width, height, minRoomWidth, minRoomHeight)
    {
      rep := RockGrid(width, height);
      cells := start;
      ghost var steps := RelocateCells(velocity);
      ghost var all := cells;
      SelectRooms();
      SelectSplit(all, minRoomWidth, minRoomHeight);
      SelectApart(all, minRoomWidth, minRoomHeight);
      SubSeparated(all, BigAt(all, minRoomWidth, minRoomHeight, true));
      SubSeparated(all, BigAt(all, minRoomWidth, minRoomHeight, false));
      SubInside(all, BigAt(all, minRoomWidth, minRoomHeight, true), width, height);
      SubInside(all, BigAt(all, minRoomWidth, minRoomHeight, false), width, height);
    }

    /**
     * The last half, once the hallways are dug on rock: the cells no
     * hallway crosses dropped, and the cells and then the rooms stamped on
     * the grid.
     */
    method Finish(ghost r0: seq<seq<int>>, ghost halls: iset<(int, int)>)
      requires Grid(r0, width, height)
      requires forall y, x :: 0 <= y < height && 0 <= x < width ==> r0[y][x] == TileRock
      requires Painted(r0, rep, halls, TileCorr)
      requires Placed(rooms, cells, width, height, minRoomWidth, minRoomHeight)
      modifies this`cells, this`rep
      ensures Placed(rooms, cells, width, height, minRoomWidth, minRoomHeight)
      ensures forall c :: c in cells ==> Crosses(c, halls)
      ensures Grid(rep, width, height)
      ensures forall y, x :: 0 <= y < height && 0 <= x < width ==> rep[y][x] == Layered(rooms, cells, halls, (x, y))
    {
      ghost var r1 := rep;
      ghost var small := cells;
      ClearCells();
      PlacedSub(rooms, small, WantedAt(r1, small), width, height, minRoomWidth, minRoomHeight);
      AllCross(r0, r1, halls, cells);
      Stamp(cells, TileCell);
      ghost var r2 := rep;
      Stamp(rooms, TileRoom);
      Layers(r0, r1, r2, rep, rooms, cells, halls, width, height);
    }

    /**
     * The whole generation from the cells start.  tri is the Delaunay
     * triangulation of the room centres and edges the edges the hallways
     * follow; when the triangulation fails the grid is left all rock.
     */
    method Generate(start: seq<Rect>, velocity: (int, int) -> Point, flip: D.Flip,
                    reorder: seq<K.Edge> -> seq<K.Edge>, coin: int -> bool)
      returns (ok: bool, ghost tri: seq<D.Triangle>, ghost edges: seq<K.Edge>)
      requires width >= 0 && height >= 0 && relocAttempts >= 1
      requires minRoomWidth >= 1 && minRoomHeight >= 1
      requires forall es :: multiset(reorder(es)) == multiset(es)
      modifies this`cells, this`rooms, this`rep
      ensures Grid(rep, width, height)
      ensures Placed(rooms, cells, width, height, minRoomWidth, minRoomHeight)
      ensures ok <==> D.Triangulation(Centres(rooms), flip).Some?
      ensures ok ==> D.Triangulation(Centres(rooms), flip) == D.Some(tri)
      ensures ok ==> forall e :: e in edges ==> 0 <= e.u < e.v < |rooms| && Joined(tri, e.u, e.v)
      ensures ok ==> forall u, v :: 0 <= u < v < |rooms| && Joined(tri, u, v) ==> K.Conn(edges, u, v)
      ensures ok ==> forall c :: c in cells ==> Crosses(c, Halls(rooms, edges))
      ensures ok ==> forall y, x :: 0 <= y < height && 0 <= x < width ==>
        rep[y][x] == Layered(rooms, cells, Halls(rooms, edges), (x, y))
      ensures !ok ==> rep == RockGrid(width, height)
    {
      LayOut(start, velocity);
      assert forall k :: 0 <= k < |rooms| ==> rooms[k] in rooms;
      ok, tri, edges := ConnectRooms(flip, reorder, coin);
      if ok {
        Finish(RockGrid(width, height), Halls(rooms, edges));
      }
    }
  }
}
