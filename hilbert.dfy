/** Hilbert curves of order n, generated by recursive subdivision of a frame
    (hilbert_curve.py). A frame is a start point and two axis vectors, the
    unit x vector (xi, xj) and the unit y vector (yi, yj); the curve of order n
    visits 4^n points of the 2^n x 2^n square that the frame spans. */
module HilbertCurve {

  import opened Grids

  datatype Point = Point(x: int, y: int)

  /** Start point o, unit x vector u = (xi, xj), unit y vector v = (yi, yj). */
  datatype Frame = Frame(o: Point, u: Point, v: Point)

  function Pow4(n: nat): (r: nat)
    ensures r >= 1
  {
    if n == 0 then 1 else 4 * Pow4(n - 1)
  }

  lemma Distrib(a: int, b: int, c: int)
    ensures (a + b) * c == a * c + b * c
  {
  }

  /** The point with frame coordinates (a, b): o + a*u + b*v. */
  function At(f: Frame, a: int, b: int): Point
  {
    Point(f.o.x + a * f.u.x + b * f.v.x, f.o.y + a * f.u.y + b * f.v.y)
  }

  lemma Origin(f: Frame)
    ensures At(f, 0, 0) == f.o
  {
  }

  /** Frame of the first quarter: same start, axes swapped. */
  function Part1(f: Frame): Frame
  {
    Frame(f.o, f.v, f.u)
  }

  /** Frame of the second quarter: start moved sub steps along x. */
  function Part2(f: Frame, sub: int): Frame
  {
    Frame(Point(f.o.x + f.u.x * sub, f.o.y + f.u.y * sub), f.u, f.v)
  }

  /** Frame of the third quarter: start moved sub times the sum of the axes. */
  function Part3(f: Frame, sub: int): Frame
  {
    Frame(Point(f.o.x + (f.u.x + f.v.x) * sub, f.o.y + (f.u.y + f.v.y) * sub), f.u, f.v)
  }

  /** Frame of the last quarter: start at frame coordinates (sub - 1, sz - 1),
      axes swapped and reversed. */
  function Part4(f: Frame, sub: int, sz: int): Frame
  {
    Frame(Point(f.o.x + f.u.x * (sub - 1) + f.v.x * (sz - 1), f.o.y + f.u.y * (sub - 1) + f.v.y * (sz - 1)),
          Point(-f.v.x, -f.v.y), Point(-f.u.x, -f.u.y))
  }

  /** True when (i, j) is one of the four unit axis vectors. */
  predicate UnitVector(i: int, j: int)
  {
    (i == 0 && (j == 1 || j == -1)) || (j == 0 && (i == 1 || i == -1))
  }

  predicate UnitFrame(f: Frame)
  {
    UnitVector(f.u.x, f.u.y) && UnitVector(f.v.x, f.v.y)
  }

  /** p and q are 4-neighbours: they differ by one unit step in x or in y. */
  predicate UnitStep(p: Point, q: Point)
  {
    UnitVector(q.x - p.x, q.y - p.y)
  }

  /** Frame coordinates of the quarter frames, seen in the whole frame. */
  lemma Part1At(f: Frame, a: int, b: int)
    ensures At(Part1(f), a, b) == At(f, b, a)
  {
  }

  lemma Part2At(f: Frame, sub: int, a: int, b: int)
    ensures At(Part2(f, sub), a, b) == At(f, sub + a, b)
  {
    Distrib(sub, a, f.u.x);
    Distrib(sub, a, f.u.y);
  }

  lemma Part3At(f: Frame, sub: int, a: int, b: int)
    ensures At(Part3(f, sub), a, b) == At(f, sub + a, sub + b)
  {
    Distrib(sub, a, f.u.x);
    Distrib(sub, a, f.u.y);
    Distrib(sub, b, f.v.x);
    Distrib(sub, b, f.v.y);
    Distrib(f.u.x, f.v.x, sub);
    Distrib(f.u.y, f.v.y, sub);
  }

  lemma Part4At(f: Frame, sub: int, sz: int, a: int, b: int)
    ensures At(Part4(f, sub, sz), a, b) == At(f, sub - 1 - b, sz - 1 - a)
  {
    Distrib(sub - 1, -b, f.u.x);
    Distrib(sub - 1, -b, f.u.y);
    Distrib(sz - 1, -a, f.v.x);
    Distrib(sz - 1, -a, f.v.y);
  }

  /** The curve of order n in frame f: a single point for order 0, else the
      four quarter curves. */
  function Curve(f: Frame, n: nat): (r: seq<Point>)
    ensures |r| == Pow4(n)
    decreases n, 1
  {
    if n == 0 then [f.o] else Quarters(f, n)
  }

  /** The four sub-curves of order n - 1 in the quarter frames, in order. */
  function Quarters(f: Frame, n: nat): (r: seq<Point>)
    requires n >= 1
    ensures |r| == Pow4(n)
    decreases n, 0
  {
    var sub := Pow2(n - 1);
    Curve(Part1(f), n - 1) + Curve(Part2(f, sub), n - 1) + Curve(Part3(f, sub), n - 1)
      + Curve(Part4(f, sub, Pow2(n)), n - 1)
  }

  /** Point k of the order-n curve, read off the quarter it lies in. */
  lemma {:induction false} CurveParts(f: Frame, n: nat, k: nat)
    requires n >= 1 && k < Pow4(n)
    ensures var q := Pow4(n - 1);
            var s := Pow2(n - 1);
            var r := Curve(f, n);
            && (k < q ==> r[k] == Curve(Part1(f), n - 1)[k])
            && (q <= k < 2 * q ==> r[k] == Curve(Part2(f, s), n - 1)[k - q])
            && (2 * q <= k < 3 * q ==> r[k] == Curve(Part3(f, s), n - 1)[k - 2 * q])
            && (3 * q <= k ==> r[k] == Curve(Part4(f, s, Pow2(n)), n - 1)[k - 3 * q])
  {
    var q := Pow4(n - 1);
    var s := Pow2(n - 1);
    var r1 := Curve(Part1(f), n - 1);
    var r2 := Curve(Part2(f, s), n - 1);
    var r3 := Curve(Part3(f, s), n - 1);
    var r4 := Curve(Part4(f, s, Pow2(n)), n - 1);
    assert Curve(f, n) == Quarters(f, n) == r1 + r2 + r3 + r4;
    var r12 := r1 + r2;
    var r123 := r12 + r3;
    if k < q {
      assert r123[k] == r12[k] == r1[k];
    } else if k < 2 * q {
      assert r123[k] == r12[k] == r2[k - q];
    } else if k < 3 * q {
      assert r123[k] == r3[k - 2 * q];
    } else {
      assert (r123 + r4)[k] == r4[k - 3 * q];
    }
  }

  lemma InPart1(f: Frame, n: nat, k: nat)
    requires n >= 1 && k < Pow4(n - 1)
    ensures Curve(f, n)[k] == Curve(Part1(f), n - 1)[k]
  {
    CurveParts(f, n, k);
  }

  lemma InPart2(f: Frame, n: nat, k: nat)
    requires n >= 1 && Pow4(n - 1) <= k < 2 * Pow4(n - 1)
    ensures Curve(f, n)[k] == Curve(Part2(f, Pow2(n - 1)), n - 1)[k - Pow4(n - 1)]
  {
    CurveParts(f, n, k);
  }

  lemma InPart3(f: Frame, n: nat, k: nat)
    requires n >= 1 && 2 * Pow4(n - 1) <= k < 3 * Pow4(n - 1)
    ensures Curve(f, n)[k] == Curve(Part3(f, Pow2(n - 1)), n - 1)[k - 2 * Pow4(n - 1)]
  {
    CurveParts(f, n, k);
  }

  lemma InPart4(f: Frame, n: nat, k: nat)
    requires n >= 1 && 3 * Pow4(n - 1) <= k < Pow4(n)
    ensures Curve(f, n)[k] == Curve(Part4(f, Pow2(n - 1), Pow2(n)), n - 1)[k - 3 * Pow4(n - 1)]
  {
    CurveParts(f, n, k);
  }

  /** The curve starts at the frame's start point. */
  lemma {:induction false} CurveStart(f: Frame, n: nat)
    ensures Curve(f, n)[0] == f.o
    decreases n
  {
    if n > 0 {
      InPart1(f, n, 0);
      CurveStart(Part1(f), n - 1);
    }
  }

  /** The curve ends 2^n - 1 steps along the frame's y axis. */
  lemma {:induction false} CurveEnd(f: Frame, n: nat)
    ensures Curve(f, n)[Pow4(n) - 1] == At(f, 0, Pow2(n) - 1)
    decreases n
  {
    if n > 0 {
      var s := Pow2(n - 1);
      InPart4(f, n, Pow4(n) - 1);
      CurveEnd(Part4(f, s, Pow2(n)), n - 1);
      Part4At(f, s, Pow2(n), 0, s - 1);
    } else {
      Origin(f);
    }
  }

  /** Every point of the curve has frame coordinates a and b in [0, 2^n). */
  lemma {:induction false} CurveInFrame(f: Frame, n: nat, k: nat) returns (a: int, b: int)
    requires k < Pow4(n)
    ensures 0 <= a < Pow2(n) && 0 <= b < Pow2(n)
    ensures Curve(f, n)[k] == At(f, a, b)
    decreases n, 1
  {
    if n == 0 {
      a, b := 0, 0;
    } else if k < Pow4(n - 1) {
      a, b := InFrame1(f, n, k);
    } else if k < 2 * Pow4(n - 1) {
      a, b := InFrame2(f, n, k);
    } else if k < 3 * Pow4(n - 1) {
      a, b := InFrame3(f, n, k);
    } else {
      a, b := InFrame4(f, n, k);
    }
  }

  lemma {:induction false} InFrame1(f: Frame, n: nat, k: nat) returns (a: int, b: int)
    requires n >= 1 && k < Pow4(n - 1)
    ensures 0 <= a < Pow2(n) && 0 <= b < Pow2(n)
    ensures Curve(f, n)[k] == At(f, a, b)
    decreases n, 0
  {
    InPart1(f, n, k);
    var a1, b1 := CurveInFrame(Part1(f), n - 1, k);
    Part1At(f, a1, b1);
    a, b := b1, a1;
  }

  lemma {:induction false} InFrame2(f: Frame, n: nat, k: nat) returns (a: int, b: int)
    requires n >= 1 && Pow4(n - 1) <= k < 2 * Pow4(n - 1)
    ensures 0 <= a < Pow2(n) && 0 <= b < Pow2(n)
    ensures Curve(f, n)[k] == At(f, a, b)
    decreases n, 0
  {
    var s := Pow2(n - 1);
    InPart2(f, n, k);
    var a1, b1 := CurveInFrame(Part2(f, s), n - 1, k - Pow4(n - 1));
    Part2At(f, s, a1, b1);
    a, b := s + a1, b1;
  }

  lemma {:induction false} InFrame3(f: Frame, n: nat, k: nat) returns (a: int, b: int)
    requires n >= 1 && 2 * Pow4(n - 1) <= k < 3 * Pow4(n - 1)
    ensures 0 <= a < Pow2(n) && 0 <= b < Pow2(n)
    ensures Curve(f, n)[k] == At(f, a, b)
    decreases n, 0
  {
    var s := Pow2(n - 1);
    InPart3(f, n, k);
    var a1, b1 := CurveInFrame(Part3(f, s), n - 1, k - 2 * Pow4(n - 1));
    Part3At(f, s, a1, b1);
    a, b := s + a1, s + b1;
  }

  lemma {:induction false} InFrame4(f: Frame, n: nat, k: nat) returns (a: int, b: int)
    requires n >= 1 && 3 * Pow4(n - 1) <= k < Pow4(n)
    ensures 0 <= a < Pow2(n) && 0 <= b < Pow2(n)
    ensures Curve(f, n)[k] == At(f, a, b)
    decreases n, 0
  {
    var s := Pow2(n - 1);
    var sz := Pow2(n);
    InPart4(f, n, k);
    var a1, b1 := CurveInFrame(Part4(f, s, sz), n - 1, k - 3 * Pow4(n - 1));
    Part4At(f, s, sz, a1, b1);
    a, b := s - 1 - b1, sz - 1 - a1;
  }

  /** One step along the x axis of a frame with unit axes is a 4-neighbour step. */
  lemma StepX(f: Frame, a: int, b: int)
    requires UnitFrame(f)
    ensures UnitStep(At(f, a, b), At(f, a + 1, b))
  {
    Distrib(a, 1, f.u.x);
    Distrib(a, 1, f.u.y);
  }

  /** One step along the y axis of a frame with unit axes is a 4-neighbour step. */
  lemma StepY(f: Frame, a: int, b: int)
    requires UnitFrame(f)
    ensures UnitStep(At(f, a, b), At(f, a, b + 1))
  {
    Distrib(b, 1, f.v.x);
    Distrib(b, 1, f.v.y);
  }

  /** Where the quarters meet: the end of each quarter curve and the start of
      the next are 4-neighbours in a frame with unit axes. */
  lemma Seam1(f: Frame, s: int)
    requires UnitFrame(f)
    ensures UnitStep(At(Part1(f), 0, s - 1), Part2(f, s).o)
  {
    Part1At(f, 0, s - 1);
    Part2At(f, s, 0, 0);
    Origin(Part2(f, s));
    StepX(f, s - 1, 0);
  }

  lemma Seam2(f: Frame, s: int)
    requires UnitFrame(f)
    ensures UnitStep(At(Part2(f, s), 0, s - 1), Part3(f, s).o)
  {
    Part2At(f, s, 0, s - 1);
    Part3At(f, s, 0, 0);
    Origin(Part3(f, s));
    StepY(f, s, s - 1);
  }

  lemma Seam3(f: Frame, s: int)
    requires UnitFrame(f)
    ensures UnitStep(At(Part3(f, s), 0, s - 1), Part4(f, s, 2 * s).o)
  {
    Part3At(f, s, 0, s - 1);
    Part4At(f, s, 2 * s, 0, 0);
    Origin(Part4(f, s, 2 * s));
    StepX(f, s - 1, 2 * s - 1);
  }

  /** The points where the first two quarter curves meet. */
  lemma Meet1(f: Frame, n: nat)
    requires n >= 1
    ensures Curve(f, n)[Pow4(n - 1) - 1] == At(Part1(f), 0, Pow2(n - 1) - 1)
    ensures Curve(f, n)[Pow4(n - 1)] == Part2(f, Pow2(n - 1)).o
  {
    assert Pow4(n) == 4 * Pow4(n - 1);
    var s := Pow2(n - 1);
    InPart1(f, n, Pow4(n - 1) - 1);
    InPart2(f, n, Pow4(n - 1));
    CurveEnd(Part1(f), n - 1);
    CurveStart(Part2(f, s), n - 1);
  }

  /** The points where the second and third quarter curves meet. */
  lemma Meet2(f: Frame, n: nat)
    requires n >= 1
    ensures Curve(f, n)[2 * Pow4(n - 1) - 1] == At(Part2(f, Pow2(n - 1)), 0, Pow2(n - 1) - 1)
    ensures Curve(f, n)[2 * Pow4(n - 1)] == Part3(f, Pow2(n - 1)).o
  {
    assert Pow4(n) == 4 * Pow4(n - 1);
    var s := Pow2(n - 1);
    InPart2(f, n, 2 * Pow4(n - 1) - 1);
    InPart3(f, n, 2 * Pow4(n - 1));
    CurveEnd(Part2(f, s), n - 1);
    CurveStart(Part3(f, s), n - 1);
  }

  /** The points where the third and last quarter curves meet. */
  lemma Meet3(f: Frame, n: nat)
    requires n >= 1
    ensures Curve(f, n)[3 * Pow4(n - 1) - 1] == At(Part3(f, Pow2(n - 1)), 0, Pow2(n - 1) - 1)
    ensures Curve(f, n)[3 * Pow4(n - 1)] == Part4(f, Pow2(n - 1), 2 * Pow2(n - 1)).o
  {
    assert Pow4(n) == 4 * Pow4(n - 1);
    var s := Pow2(n - 1);
    assert Pow2(n) == 2 * s;
    InPart3(f, n, 3 * Pow4(n - 1) - 1);
    InPart4(f, n, 3 * Pow4(n - 1));
    CurveEnd(Part3(f, s), n - 1);
    CurveStart(Part4(f, s, 2 * s), n - 1);
  }

  lemma Junction1(f: Frame, n: nat)
    requires UnitFrame(f) && n >= 1
    ensures UnitStep(Curve(f, n)[Pow4(n - 1) - 1], Curve(f, n)[Pow4(n - 1)])
  {
    var s := Pow2(n - 1);
    assert UnitStep(At(Part1(f), 0, s - 1), Part2(f, s).o) by { Seam1(f, s); }
    Meet1(f, n);
  }

  lemma Junction2(f: Frame, n: nat)
    requires UnitFrame(f) && n >= 1
    ensures UnitStep(Curve(f, n)[2 * Pow4(n - 1) - 1], Curve(f, n)[2 * Pow4(n - 1)])
  {
    var s := Pow2(n - 1);
    assert UnitStep(At(Part2(f, s), 0, s - 1), Part3(f, s).o) by { Seam2(f, s); }
    Meet2(f, n);
  }

  lemma Junction3(f: Frame, n: nat)
    requires UnitFrame(f) && n >= 1
    ensures UnitStep(Curve(f, n)[3 * Pow4(n - 1) - 1], Curve(f, n)[3 * Pow4(n - 1)])
  {
    var s := Pow2(n - 1);
    assert UnitStep(At(Part3(f, s), 0, s - 1), Part4(f, s, 2 * s).o) by { Seam3(f, s); }
    Meet3(f, n);
  }

  /** In a frame whose axes are unit axis vectors, consecutive points of the
      curve are 4-neighbours. */
  lemma {:induction false} CurveSteps(f: Frame, n: nat, k: nat)
    requires UnitFrame(f)
    requires k + 1 < Pow4(n)
    ensures UnitStep(Curve(f, n)[k], Curve(f, n)[k + 1])
    decreases n, 1
  {
    var q := Pow4(n - 1);
    if k + 1 < q {
      Steps1(f, n, k);
    } else if k + 1 == q {
      Junction1(f, n);
    } else if k + 1 < 2 * q {
      Steps2(f, n, k);
    } else if k + 1 == 2 * q {
      Junction2(f, n);
    } else if k + 1 < 3 * q {
      Steps3(f, n, k);
    } else if k + 1 == 3 * q {
      Junction3(f, n);
    } else {
      Steps4(f, n, k);
    }
  }

  lemma {:induction false} Steps1(f: Frame, n: nat, k: nat)
    requires UnitFrame(f) && n >= 1 && k + 1 < Pow4(n - 1)
    ensures UnitStep(Curve(f, n)[k], Curve(f, n)[k + 1])
    decreases n, 0
  {
    InPart1(f, n, k);
    InPart1(f, n, k + 1);
    CurveSteps(Part1(f), n - 1, k);
  }

  lemma {:induction false} Steps2(f: Frame, n: nat, k: nat)
    requires UnitFrame(f) && n >= 1 && Pow4(n - 1) <= k && k + 1 < 2 * Pow4(n - 1)
    ensures UnitStep(Curve(f, n)[k], Curve(f, n)[k + 1])
    decreases n, 0
  {
    InPart2(f, n, k);
    InPart2(f, n, k + 1);
    CurveSteps(Part2(f, Pow2(n - 1)), n - 1, k - Pow4(n - 1));
  }

  lemma {:induction false} Steps3(f: Frame, n: nat, k: nat)
    requires UnitFrame(f) && n >= 1 && 2 * Pow4(n - 1) <= k && k + 1 < 3 * Pow4(n - 1)
    ensures UnitStep(Curve(f, n)[k], Curve(f, n)[k + 1])
    decreases n, 0
  {
    InPart3(f, n, k);
    InPart3(f, n, k + 1);
    CurveSteps(Part3(f, Pow2(n - 1)), n - 1, k - 2 * Pow4(n - 1));
  }

  lemma {:induction false} Steps4(f: Frame, n: nat, k: nat)
    requires UnitFrame(f) && n >= 1 && 3 * Pow4(n - 1) <= k && k + 1 < Pow4(n)
    ensures UnitStep(Curve(f, n)[k], Curve(f, n)[k + 1])
    decreases n, 0
  {
    InPart4(f, n, k);
    InPart4(f, n, k + 1);
    CurveSteps(Part4(f, Pow2(n - 1), Pow2(n)), n - 1, k - 3 * Pow4(n - 1));
  }

  /** The frame of the unit square: start at the origin, x and y axes as given. */
  const Unit := Frame(Point(0, 0), Point(1, 0), Point(0, 1))

  /** In the unit frame, frame coordinates are plane coordinates. */
  lemma UnitAt(f: Frame, a: int, b: int)
    requires f.o == Point(0, 0) && f.u == Point(1, 0) && f.v == Point(0, 1)
    ensures At(f, a, b) == Point(a, b)
  {
  }

  /** The curve of order n in the unit frame (hilbert_curve). */
  function Hilbert(n: nat): (r: seq<Point>)
    ensures |r| == Pow4(n)
  {
    Curve(Unit, n)
  }

  lemma UnitStart(f: Frame, n: nat)
    requires f.o == Point(0, 0) && f.u == Point(1, 0) && f.v == Point(0, 1)
    ensures Curve(f, n)[0] == Point(0, 0)
  {
    CurveStart(f, n);
  }

  lemma UnitEnd(f: Frame, n: nat)
    requires f.o == Point(0, 0) && f.u == Point(1, 0) && f.v == Point(0, 1)
    ensures Curve(f, n)[Pow4(n) - 1] == Point(0, Pow2(n) - 1)
  {
    CurveEnd(f, n);
    UnitAt(f, 0, Pow2(n) - 1);
  }

  /** The order-n curve from the origin starts at (0, 0) and ends at (0, 2^n - 1). */
  lemma HilbertEnds(n: nat)
    ensures Hilbert(n)[0] == Point(0, 0)
    ensures Hilbert(n)[Pow4(n) - 1] == Point(0, Pow2(n) - 1)
  {
    UnitStart(Unit, n);
    UnitEnd(Unit, n);
  }

  lemma UnitInSquare(f: Frame, n: nat, k: nat)
    requires f.o == Point(0, 0) && f.u == Point(1, 0) && f.v == Point(0, 1)
    requires k < Pow4(n)
    ensures 0 <= Curve(f, n)[k].x < Pow2(n) && 0 <= Curve(f, n)[k].y < Pow2(n)
  {
    var a, b := CurveInFrame(f, n, k);
    UnitAt(f, a, b);
  }

  /** The order-n curve from the origin stays inside the square [0, 2^n - 1]^2. */
  lemma HilbertInSquare(n: nat, k: nat)
    requires k < Pow4(n)
    ensures 0 <= Hilbert(n)[k].x < Pow2(n) && 0 <= Hilbert(n)[k].y < Pow2(n)
  {
    UnitInSquare(Unit, n, k);
  }

  /** Consecutive points of the order-n curve from the origin are 4-neighbours. */
  lemma HilbertSteps(n: nat, k: nat)
    requires k + 1 < Pow4(n)
    ensures UnitStep(Hilbert(n)[k], Hilbert(n)[k + 1])
  {
    CurveSteps(Unit, n, k);
  }
}
