/*
 * The plane geometry of the TinyKeep generator on integer points: doubled
 * triangle areas, the point-in-triangle test, and the cells (rectangles)
 * the generator scatters, with their centres and the overlap test.
 *
 * All coordinates are integers, so twice a triangle's area is an integer
 * and comparing areas up to a small tolerance is comparing them exactly.
 */
module TinyKeepGeometry {

  datatype Point = Point(x: int, y: int)

  function Abs(n: int): nat { if n < 0 then -n else n }
  function Min(a: int, b: int): int { if a <= b then a else b }
  function Max(a: int, b: int): int { if a >= b then a else b }

  function Minus(a: Point, b: Point): Point
  {
    Point(a.x - b.x, a.y - b.y)
  }

  function Cross(u: Point, v: Point): int
  {
    u.x * v.y - v.x * u.y
  }

  /** Twice the signed area of the triangle p, a, b: positive when it turns left. */
  function Orient(p: Point, a: Point, b: Point): int
  {
    Cross(Minus(a, p), Minus(b, p))
  }

  /** Twice the area of the triangle a, b, c. */
  function TwiceArea(a: Point, b: Point, c: Point): nat
  {
    Abs(Cross(Minus(b, a), Minus(c, a)))
  }

  /**
   * p lies in the triangle a, b, c (its boundary included): the triangles p
   * makes with the three sides add up to the whole.
   */
  predicate PointInTriangle(p: Point, a: Point, b: Point, c: Point)
  {
    TwiceArea(a, b, c) == TwiceArea(p, a, b) + TwiceArea(p, b, c) + TwiceArea(p, c, a)
  }

  /** The signed area of a triangle splits at any point p into the three parts p makes. */
  lemma OrientSplit(p: Point, a: Point, b: Point, c: Point)
    ensures Orient(a, b, c) == Orient(p, a, b) + Orient(p, b, c) + Orient(p, c, a)
  {
    var a1, a2, b1, b2, c1, c2 := a.x - p.x, a.y - p.y, b.x - p.x, b.y - p.y, c.x - p.x, c.y - p.y;
    calc {
      Orient(a, b, c);
      (b1 - a1) * (c2 - a2) - (c1 - a1) * (b2 - a2);
      { assert (b1 - a1) * (c2 - a2) == b1 * c2 - b1 * a2 - a1 * c2 + a1 * a2;
        assert (c1 - a1) * (b2 - a2) == c1 * b2 - c1 * a2 - a1 * b2 + a1 * a2; }
      (a1 * b2 - b1 * a2) + (b1 * c2 - c1 * b2) + (c1 * a2 - a1 * c2);
    }
  }

  /**
   * The point-in-triangle test is the orientation test: p is in the triangle
   * exactly when it lies on the same side of (or on) all three sides.
   */
  lemma InTriangleIff(p: Point, a: Point, b: Point, c: Point)
    ensures PointInTriangle(p, a, b, c) <==>
      (Orient(p, a, b) >= 0 && Orient(p, b, c) >= 0 && Orient(p, c, a) >= 0) ||
      (Orient(p, a, b) <= 0 && Orient(p, b, c) <= 0 && Orient(p, c, a) <= 0)
  {
    OrientSplit(p, a, b, c);
    assert TwiceArea(a, b, c) == Abs(Orient(a, b, c));
    assert TwiceArea(p, a, b) == Abs(Orient(p, a, b));
    assert TwiceArea(p, b, c) == Abs(Orient(p, b, c));
    assert TwiceArea(p, c, a) == Abs(Orient(p, c, a));
  }

  /** The parts never add up to less than the whole. */
  lemma AreaSplitBound(p: Point, a: Point, b: Point, c: Point)
    ensures TwiceArea(a, b, c) <= TwiceArea(p, a, b) + TwiceArea(p, b, c) + TwiceArea(p, c, a)
  {
    InTriangleIff(p, a, b, c);
    assert TwiceArea(a, b, c) == Abs(Orient(a, b, c));
    assert TwiceArea(p, a, b) == Abs(Orient(p, a, b));
    assert TwiceArea(p, b, c) == Abs(Orient(p, b, c));
    assert TwiceArea(p, c, a) == Abs(Orient(p, c, a));
  }

  /** The area does not depend on the order of the corners. */
  lemma AreaSymmetric(a: Point, b: Point, c: Point)
    ensures TwiceArea(a, b, c) == TwiceArea(b, c, a) == TwiceArea(b, a, c)
  {
    assert Cross(Minus(c, b), Minus(a, b)) == Cross(Minus(b, a), Minus(c, a));
    assert Cross(Minus(a, b), Minus(c, b)) == -Cross(Minus(b, a), Minus(c, a));
  }

  /** Neither does the point-in-triangle test; and the corners lie in the triangle. */
  lemma InTriangleSymmetric(p: Point, a: Point, b: Point, c: Point)
    ensures PointInTriangle(p, a, b, c) == PointInTriangle(p, b, c, a) == PointInTriangle(p, b, a, c)
    ensures PointInTriangle(a, a, b, c) && PointInTriangle(b, a, b, c) && PointInTriangle(c, a, b, c)
  {
    AreaSymmetric(a, b, c);
    AreaSymmetric(p, a, b);
    AreaSymmetric(p, b, c);
    AreaSymmetric(p, c, a);
    assert TwiceArea(a, a, b) == 0 && TwiceArea(b, b, c) == 0 && TwiceArea(c, c, a) == 0;
    AreaSymmetric(b, c, a);
    AreaSymmetric(c, a, b);
  }

  // ---------------------------------------------------------------------
  // Cells

  /** A cell: the tiles x .. x + w - 1 by y .. y + h - 1. */
  datatype Rect = Rect(x: int, y: int, w: int, h: int)

  /** The centre, rounded down (division by 2 rounds down for either sign). */
  function Center(r: Rect): Point
  {
    Point(r.x + r.w / 2, r.y + r.h / 2)
  }

  /** The two cells overlap, sharing an edge or a corner included. */
  predicate Overlaps(a: Rect, b: Rect)
  {
    Max(a.x, b.x) <= Min(a.x + a.w, b.x + b.w) && Max(a.y, b.y) <= Min(a.y + a.h, b.y + b.h)
  }

  /** Overlap as closed intervals on both axes. */
  lemma OverlapsIff(a: Rect, b: Rect)
    ensures Overlaps(a, b) == Overlaps(b, a)
    ensures Overlaps(a, b) <==>
      a.w >= 0 && b.w >= 0 && a.h >= 0 && b.h >= 0 &&
      a.x <= b.x + b.w && b.x <= a.x + a.w && a.y <= b.y + b.h && b.y <= a.y + a.h
  {
  }

  /** The centre of a cell at least 1 by 1 is one of its tiles. */
  lemma CenterInside(r: Rect)
    requires r.w >= 1 && r.h >= 1
    ensures r.x <= Center(r).x < r.x + r.w && r.y <= Center(r).y < r.y + r.h
  {
  }
}
