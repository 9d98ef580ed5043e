/*
 * Cellular-automaton caves.  A cave map starts as random noise with a wall
 * border; each generation step rewrites every interior cell from two counts
 * taken on the previous grid: R1, the non-floor cells of the 3x3 block around
 * it, and R2, the non-floor cells of the 5x5 block minus its corners, clipped
 * to the grid.  The cell becomes wall when R1 reaches the rule's first cutoff
 * or R2 does not exceed its second cutoff.  The step writes into a second
 * grid and copies the interior back.
 *
 * The random draws of the fill are a parameter: fill(x, y) says whether the
 * draw for cell (x, y) fell below the fill probability.
 */
module CaCaves {

  import opened Grids

  const Wall := 1
  const Floor := 0

  type Grid = seq<seq<int>>

  /** One generation rule: the two cutoffs and how many steps to apply it. */
  datatype Rule = Rule(r1Cutoff: int, r2Cutoff: int, reps: int)

  predicate OnBorder(xs: int, ys: int, x: int, y: int)
  {
    x == 0 || x == xs - 1 || y == 0 || y == ys - 1
  }

  /** Every border cell of g is a wall. */
  ghost predicate Walled(g: Grid, xs: int, ys: int)
    requires Shaped(g, xs, ys)
  {
    forall y, x :: 0 <= y < ys && 0 <= x < xs && OnBorder(xs, ys, x, y) ==> g[y][x] == Wall
  }

  /** Two grids of one shape are equal when they agree cell by cell. */
  lemma GridExt(a: Grid, b: Grid, xs: int, ys: int)
    requires Shaped(a, xs, ys) && Shaped(b, xs, ys)
    requires forall y, x :: 0 <= y < ys && 0 <= x < xs ==> a[y][x] == b[y][x]
    ensures a == b
  {
    forall y | 0 <= y < ys
      ensures a[y] == b[y]
    {
    }
  }

  // ---------------------------------------------------------------------
  // The initial grid

  /**
   * The grid the fill draws give: a wall where the draw fell below the fill
   * probability and all along the border, floor elsewhere.
   */
  function Fresh(xs: nat, ys: nat, fill: (int, int) -> bool): Grid
  {
    seq(ys, y => seq(xs, x => if fill(x, y) || OnBorder(xs, ys, x, y) then Wall else Floor))
  }

  /** A grid of walls only: the second buffer, drawn with fill probability 1. */
  function AllWall(xs: nat, ys: nat): Grid
  {
    seq(ys, _ => seq(xs, _ => Wall))
  }

  // ---------------------------------------------------------------------
  // The neighbour counts

  /** 1 when the cell (x, y) of g is not floor. */
  function NotFloor(g: Grid, x: int, y: int): nat
    requires 0 <= y < |g| && 0 <= x < |g[y]|
  {
    if g[y][x] != Floor then 1 else 0
  }

  /** Non-floor cells of row y in columns lo .. hi - 1. */
  function RowCount(g: Grid, y: int, lo: int, hi: int): nat
    requires 0 <= y < |g| && 0 <= lo <= hi <= |g[y]|
    decreases hi - lo
  {
    if lo == hi then 0 else RowCount(g, y, lo, hi - 1) + NotFloor(g, hi - 1, y)
  }

  /** Non-floor cells of rows ylo .. yhi - 1 in columns lo .. hi - 1. */
  function BlockCount(g: Grid, xs: int, ys: int, ylo: int, yhi: int, lo: int, hi: int): nat
    requires Shaped(g, xs, ys) && 0 <= ylo <= yhi <= ys && 0 <= lo <= hi <= xs
    decreases yhi - ylo
  {
    if ylo == yhi then 0 else BlockCount(g, xs, ys, ylo, yhi - 1, lo, hi) + RowCount(g, yhi - 1, lo, hi)
  }

  predicate Inner(xs: int, ys: int, x: int, y: int)
  {
    1 <= x < xs - 1 && 1 <= y < ys - 1
  }

  /** R1: the non-floor cells of the 3x3 block centred on (x, y), centre included. */
  function R1(g: Grid, xs: int, ys: int, x: int, y: int): nat
    requires Shaped(g, xs, ys) && Inner(xs, ys, x, y)
  {
    BlockCount(g, xs, ys, y - 1, y + 2, x - 1, x + 2)
  }

  function Abs(n: int): int
  {
    if n < 0 then -n else n
  }

  /** 1 when (xo, yo) is one of the cells R2 counts around (x, y) and is not floor. */
  function R2Cell(g: Grid, xs: int, ys: int, x: int, y: int, xo: int, yo: int): nat
    requires Shaped(g, xs, ys)
  {
    if Abs(y - yo) == 2 && Abs(x - xo) == 2 then 0
    else if yo < 0 || yo >= ys || xo < 0 || xo >= xs then 0
    else NotFloor(g, xo, yo)
  }

  /** R2's count over row yo, columns x - 2 .. hi - 1. */
  function R2Row(g: Grid, xs: int, ys: int, x: int, y: int, yo: int, hi: int): nat
    requires Shaped(g, xs, ys) && x - 2 <= hi
    decreases hi - (x - 2)
  {
    if hi == x - 2 then 0 else R2Row(g, xs, ys, x, y, yo, hi - 1) + R2Cell(g, xs, ys, x, y, hi - 1, yo)
  }

  /** R2's count over rows y - 2 .. hi - 1. */
  function R2Rows(g: Grid, xs: int, ys: int, x: int, y: int, hi: int): nat
    requires Shaped(g, xs, ys) && y - 2 <= hi
    decreases hi - (y - 2)
  {
    if hi == y - 2 then 0 else R2Rows(g, xs, ys, x, y, hi - 1) + R2Row(g, xs, ys, x, y, hi - 1, x + 3)
  }

  /** R2: the non-floor cells of the 5x5 block around (x, y) without its corners, clipped to the grid. */
  function R2(g: Grid, xs: int, ys: int, x: int, y: int): nat
    requires Shaped(g, xs, ys)
  {
    R2Rows(g, xs, ys, x, y, y + 3)
  }

  lemma {:induction false} RowCountBound(g: Grid, y: int, lo: int, hi: int)
    requires 0 <= y < |g| && 0 <= lo <= hi <= |g[y]|
    ensures RowCount(g, y, lo, hi) <= hi - lo
    decreases hi - lo
  {
    if lo < hi {
      RowCountBound(g, y, lo, hi - 1);
    }
  }

  /** R1 counts at most the nine cells of its block. */
  lemma R1Bound(g: Grid, xs: int, ys: int, x: int, y: int)
    requires Shaped(g, xs, ys) && Inner(xs, ys, x, y)
    ensures R1(g, xs, ys, x, y) <= 9
  {
    RowCountBound(g, y - 1, x - 1, x + 2);
    RowCountBound(g, y, x - 1, x + 2);
    RowCountBound(g, y + 1, x - 1, x + 2);
    assert BlockCount(g, xs, ys, y - 1, y, x - 1, x + 2) == RowCount(g, y - 1, x - 1, x + 2);
    assert BlockCount(g, xs, ys, y - 1, y + 1, x - 1, x + 2) ==
           RowCount(g, y - 1, x - 1, x + 2) + RowCount(g, y, x - 1, x + 2);
  }

  /** A row of R2 counts at most its five cells, or three in the rows whose corners are skipped. */
  lemma R2RowBound(g: Grid, xs: int, ys: int, x: int, y: int, yo: int)
    requires Shaped(g, xs, ys)
    ensures R2Row(g, xs, ys, x, y, yo, x + 3) <= if Abs(y - yo) == 2 then 3 else 5
  {
    assert R2Cell(g, xs, ys, x, y, x - 2, yo) <= if Abs(y - yo) == 2 then 0 else 1;
    assert R2Cell(g, xs, ys, x, y, x + 2, yo) <= if Abs(y - yo) == 2 then 0 else 1;
    assert R2Row(g, xs, ys, x, y, yo, x - 1) == R2Cell(g, xs, ys, x, y, x - 2, yo);
    assert R2Row(g, xs, ys, x, y, yo, x) ==
           R2Row(g, xs, ys, x, y, yo, x - 1) + R2Cell(g, xs, ys, x, y, x - 1, yo);
    assert R2Row(g, xs, ys, x, y, yo, x + 1) ==
           R2Row(g, xs, ys, x, y, yo, x) + R2Cell(g, xs, ys, x, y, x, yo);
    assert R2Row(g, xs, ys, x, y, yo, x + 2) ==
           R2Row(g, xs, ys, x, y, yo, x + 1) + R2Cell(g, xs, ys, x, y, x + 1, yo);
  }

  /** R2 counts at most the 21 cells of its window. */
  lemma R2Bound(g: Grid, xs: int, ys: int, x: int, y: int)
    requires Shaped(g, xs, ys)
    ensures R2(g, xs, ys, x, y) <= 21
  {
    R2RowBound(g, xs, ys, x, y, y - 2);
    R2RowBound(g, xs, ys, x, y, y - 1);
    R2RowBound(g, xs, ys, x, y, y);
    R2RowBound(g, xs, ys, x, y, y + 1);
    R2RowBound(g, xs, ys, x, y, y + 2);
    assert R2Rows(g, xs, ys, x, y, y - 1) == R2Row(g, xs, ys, x, y, y - 2, x + 3);
    assert R2Rows(g, xs, ys, x, y, y) ==
           R2Rows(g, xs, ys, x, y, y - 1) + R2Row(g, xs, ys, x, y, y - 1, x + 3);
    assert R2Rows(g, xs, ys, x, y, y + 1) ==
           R2Rows(g, xs, ys, x, y, y) + R2Row(g, xs, ys, x, y, y, x + 3);
    assert R2Rows(g, xs, ys, x, y, y + 2) ==
           R2Rows(g, xs, ys, x, y, y + 1) + R2Row(g, xs, ys, x, y, y + 1, x + 3);
  }

  // ---------------------------------------------------------------------
  // One generation step and the rules

  /** The new value of the interior cell (x, y). */
  function StepCell(g: Grid, xs: int, ys: int, r1Cutoff: int, r2Cutoff: int, x: int, y: int): int
    requires Shaped(g, xs, ys) && Inner(xs, ys, x, y)
  {
    if R1(g, xs, ys, x, y) >= r1Cutoff || R2(g, xs, ys, x, y) <= r2Cutoff then Wall else Floor
  }

  /** The grid after one step: interior cells rewritten, border cells kept. */
  function Step(g: Grid, xs: nat, ys: nat, r1Cutoff: int, r2Cutoff: int): (g': Grid)
    requires Shaped(g, xs, ys)
    ensures Shaped(g', xs, ys)
  {
    seq(ys, y requires 0 <= y < ys =>
      seq(xs, x requires 0 <= x < xs =>
        if Inner(xs, ys, x, y) then StepCell(g, xs, ys, r1Cutoff, r2Cutoff, x, y) else g[y][x]))
  }

  /** The grid inner, with the border cells of outer. */
  function WithBorder(inner: Grid, outer: Grid, xs: nat, ys: nat): (g: Grid)
    requires Shaped(inner, xs, ys) && Shaped(outer, xs, ys)
    ensures Shaped(g, xs, ys)
  {
    seq(ys, y requires 0 <= y < ys =>
      seq(xs, x requires 0 <= x < xs => if Inner(xs, ys, x, y) then inner[y][x] else outer[y][x]))
  }

  /** n steps with the same cutoffs. */
  function Iterate(g: Grid, xs: nat, ys: nat, r1Cutoff: int, r2Cutoff: int, n: nat): (g': Grid)
    requires Shaped(g, xs, ys)
    ensures Shaped(g', xs, ys)
  {
    if n == 0 then g else Step(Iterate(g, xs, ys, r1Cutoff, r2Cutoff, n - 1), xs, ys, r1Cutoff, r2Cutoff)
  }

  function Reps(rule: Rule): nat
  {
    if rule.reps < 0 then 0 else rule.reps
  }

  /** The rules applied in order, each its number of times. */
  function Generate(g: Grid, xs: nat, ys: nat, rules: seq<Rule>): (g': Grid)
    requires Shaped(g, xs, ys)
    ensures Shaped(g', xs, ys)
  {
    if |rules| == 0 then g
    else
      var last := rules[|rules| - 1];
      Iterate(Generate(g, xs, ys, rules[..|rules| - 1]), xs, ys, last.r1Cutoff, last.r2Cutoff, Reps(last))
  }

  /** The total number of steps the rules make. */
  function Steps(rules: seq<Rule>): nat
  {
    if |rules| == 0 then 0 else Steps(rules[..|rules| - 1]) + Reps(rules[|rules| - 1])
  }

  /**
   * A step rewrites each interior cell to wall exactly when R1 reaches the
   * first cutoff or R2 stays within the second, and keeps the border.
   */
  lemma StepCells(g: Grid, xs: nat, ys: nat, r1Cutoff: int, r2Cutoff: int, x: int, y: int)
    requires Shaped(g, xs, ys) && 0 <= x < xs && 0 <= y < ys
    ensures Inner(xs, ys, x, y) ==>
      (Step(g, xs, ys, r1Cutoff, r2Cutoff)[y][x] == Wall <==>
       R1(g, xs, ys, x, y) >= r1Cutoff || R2(g, xs, ys, x, y) <= r2Cutoff)
    ensures Inner(xs, ys, x, y) ==> Step(g, xs, ys, r1Cutoff, r2Cutoff)[y][x] in {Wall, Floor}
    ensures !Inner(xs, ys, x, y) ==> Step(g, xs, ys, r1Cutoff, r2Cutoff)[y][x] == g[y][x]
  {
  }

  /** Steps keep a wall border. */
  lemma {:induction false} IterateWalled(g: Grid, xs: nat, ys: nat, r1Cutoff: int, r2Cutoff: int, n: nat)
    requires Shaped(g, xs, ys) && Walled(g, xs, ys)
    ensures Walled(Iterate(g, xs, ys, r1Cutoff, r2Cutoff, n), xs, ys)
  {
    if n > 0 {
      IterateWalled(g, xs, ys, r1Cutoff, r2Cutoff, n - 1);
    }
  }

  /** Generation keeps a wall border. */
  lemma {:induction false} GenerateWalled(g: Grid, xs: nat, ys: nat, rules: seq<Rule>)
    requires Shaped(g, xs, ys) && Walled(g, xs, ys)
    ensures Walled(Generate(g, xs, ys, rules), xs, ys)
  {
    if |rules| > 0 {
      var last := rules[|rules| - 1];
      GenerateWalled(g, xs, ys, rules[..|rules| - 1]);
      IterateWalled(Generate(g, xs, ys, rules[..|rules| - 1]), xs, ys, last.r1Cutoff, last.r2Cutoff, Reps(last));
    }
  }

  /** Replacing the inner part twice keeps only the last one. */
  lemma WithBorderTwice(a: Grid, b: Grid, c: Grid, xs: nat, ys: nat)
    requires Shaped(a, xs, ys) && Shaped(b, xs, ys) && Shaped(c, xs, ys)
    ensures WithBorder(a, WithBorder(b, c, xs, ys), xs, ys) == WithBorder(a, c, xs, ys)
  {
    GridExt(WithBorder(a, WithBorder(b, c, xs, ys), xs, ys), WithBorder(a, c, xs, ys), xs, ys);
  }

  /**
   * The write buffer after n steps from an all-wall buffer: untouched when
   * no step ran, else the last grid's interior inside a wall border.
   */
  function Buffer(g: Grid, n: nat, xs: nat, ys: nat): (b: Grid)
    requires Shaped(g, xs, ys)
    ensures Shaped(b, xs, ys)
  {
    if n == 0 then AllWall(xs, ys) else WithBorder(g, AllWall(xs, ys), xs, ys)
  }

  /** The buffer after k more steps, whatever grids the earlier steps left. */
  lemma BufferStep(prev: Grid, g: Grid, before: Grid, n: nat, k: nat, xs: nat, ys: nat)
    requires Shaped(prev, xs, ys) && Shaped(g, xs, ys)
    requires before == Buffer(prev, n, xs, ys) && (k == 0 ==> g == prev)
    ensures (if k == 0 then before else WithBorder(g, before, xs, ys)) == Buffer(g, n + k, xs, ys)
  {
    if k > 0 && n > 0 {
      WithBorderTwice(g, prev, AllWall(xs, ys), xs, ys);
    }
  }

  /** Generation and the step count of one more rule. */
  lemma GenerateSnoc(g: Grid, xs: nat, ys: nat, rules: seq<Rule>, i: nat)
    requires Shaped(g, xs, ys) && i < |rules|
    ensures Generate(g, xs, ys, rules[..i + 1]) ==
            Iterate(Generate(g, xs, ys, rules[..i]), xs, ys, rules[i].r1Cutoff, rules[i].r2Cutoff, Reps(rules[i]))
    ensures Steps(rules[..i + 1]) == Steps(rules[..i]) + Reps(rules[i])
  {
    assert rules[..i + 1][..i] == rules[..i];
  }

  // ---------------------------------------------------------------------
  // The map

  class CavesMap {
    const xsize: int
    const ysize: int
    /** The current grid and the step's write buffer, indexed [y][x]. */
    var grid1: Grid
    var grid2: Grid

    ghost predicate Valid()
      reads this
    {
      1 <= xsize && 1 <= ysize && Shaped(grid1, xsize, ysize) && Shaped(grid2, xsize, ysize)
    }

    /**
     * Builds the map: grid1 from the fill draws, grid2 all walls, then
     * applies the rules in order.
     */
    constructor(xsize: int, ysize: int, fill: (int, int) -> bool, rules: seq<Rule>)
      requires 1 <= xsize && 1 <= ysize
      ensures this.xsize == xsize && this.ysize == ysize && Valid()
      ensures grid1 == Generate(Fresh(xsize, ysize, fill), xsize, ysize, rules)
      ensures grid2 == Buffer(grid1, Steps(rules), xsize, ysize)
      ensures Walled(grid1, xsize, ysize)
    {
      this.xsize := xsize;
      this.ysize := ysize;
      var g1 := RandGrid(xsize, ysize, fill);
      var g2 := RandGrid(xsize, ysize, (x, y) => true);
      GridExt(g2, AllWall(xsize, ysize), xsize, ysize);
      grid1 := g1;
      grid2 := g2;
      new;
      ghost var start := grid1;
      for i := 0 to |rules|
        invariant Valid()
        invariant grid1 == Generate(start, xsize, ysize, rules[..i])
        invariant grid2 == Buffer(grid1, Steps(rules[..i]), xsize, ysize)
      {
        ghost var prev := grid1;
        ghost var before := grid2;
        Update(rules[i]);
        GenerateSnoc(start, xsize, ysize, rules, i);
        BufferStep(prev, grid1, before, Steps(rules[..i]), Reps(rules[i]), xsize, ysize);
      }
      assert rules[..|rules|] == rules;
      GenerateWalled(start, xsize, ysize, rules);
    }

    /**
     * A grid of the given size: a wall where fill says the draw fell below
     * the fill probability, then walls all along the border.
     */
    static method RandGrid(xsize: int, ysize: int, fill: (int, int) -> bool) returns (grid: Grid)
      requires 1 <= xsize && 1 <= ysize
      ensures grid == Fresh(xsize, ysize, fill)
      ensures Shaped(grid, xsize, ysize) && Walled(grid, xsize, ysize)
      ensures forall y, x :: Inner(xsize, ysize, x, y) ==> (grid[y][x] == Wall <==> fill(x, y))
    {
      grid := seq(ysize, _ => seq(xsize, _ => Floor));
      for y := 0 to ysize
        invariant Shaped(grid, xsize, ysize)
        invariant forall j, i :: 0 <= j < ysize && 0 <= i < xsize ==>
          grid[j][i] == if j < y && fill(i, j) then Wall else Floor
      {
        for x := 0 to xsize
          invariant Shaped(grid, xsize, ysize)
          invariant forall j, i :: 0 <= j < ysize && 0 <= i < xsize ==>
            grid[j][i] == if (j < y || (j == y && i < x)) && fill(i, j) then Wall else Floor
        {
          if fill(x, y) {
            grid := Set2(grid, (x, y), Wall);
          }
        }
      }
      for y := 0 to ysize
        invariant Shaped(grid, xsize, ysize)
        invariant forall j, i :: 0 <= j < ysize && 0 <= i < xsize ==>
          grid[j][i] == if fill(i, j) || (j < y && (i == 0 || i == xsize - 1)) then Wall else Floor
      {
        grid := Set2(grid, (0, y), Wall);
        grid := Set2(grid, (xsize - 1, y), Wall);
      }
      for x := 0 to xsize
        invariant Shaped(grid, xsize, ysize)
        invariant forall j, i :: 0 <= j < ysize && 0 <= i < xsize ==>
          grid[j][i] == if fill(i, j) || i == 0 || i == xsize - 1 || ((j == 0 || j == ysize - 1) && i < x)
                        then Wall else Floor
      {
        grid := Set2(grid, (x, 0), Wall);
        grid := Set2(grid, (x, ysize - 1), Wall);
      }
      GridExt(grid, Fresh(xsize, ysize, fill), xsize, ysize);
    }

    /** Applies the rule's step rule.reps times. */
    method Update(rule: Rule)
      requires Valid()
      modifies this
      ensures Valid()
      ensures grid1 == Iterate(old(grid1), xsize, ysize, rule.r1Cutoff, rule.r2Cutoff, Reps(rule))
      ensures grid2 == if Reps(rule) == 0 then old(grid2)
                       else WithBorder(grid1, old(grid2), xsize, ysize)
    {
      var i := 0;
      while i < rule.reps
        invariant Valid() && 0 <= i && (i <= rule.reps || i == 0)
        invariant grid1 == Iterate(old(grid1), xsize, ysize, rule.r1Cutoff, rule.r2Cutoff, i)
        invariant grid2 == if i == 0 then old(grid2) else WithBorder(grid1, old(grid2), xsize, ysize)
      {
        ghost var before := grid2;
        UpdateAux(rule.r1Cutoff, rule.r2Cutoff);
        if i > 0 {
          WithBorderTwice(grid1, old(grid1), old(grid2), xsize, ysize);
          WithBorderTwice(grid1, Iterate(old(grid1), xsize, ysize, rule.r1Cutoff, rule.r2Cutoff, i),
                          old(grid2), xsize, ysize);
        }
        i := i + 1;
      }
    }

    /**
     * One step: every interior cell of grid2 gets its new value from the
     * counts on grid1, then the interior of grid2 is copied into grid1.
     */
    method UpdateAux(r1Cutoff: int, r2Cutoff: int)
      requires Valid()
      modifies this
      ensures Valid()
      ensures grid1 == Step(old(grid1), xsize, ysize, r1Cutoff, r2Cutoff)
      ensures grid2 == WithBorder(grid1, old(grid2), xsize, ysize)
    {
      var y := 1;
      while y < ysize - 1
        invariant Valid() && grid1 == old(grid1) && 1 <= y
        invariant forall j, i :: 0 <= j < ysize && 0 <= i < xsize ==>
          grid2[j][i] == if Inner(xsize, ysize, i, j) && j < y
                         then StepCell(grid1, xsize, ysize, r1Cutoff, r2Cutoff, i, j)
                         else old(grid2)[j][i]
      {
        var x := 1;
        while x < xsize - 1
          invariant Valid() && grid1 == old(grid1) && 1 <= x
          invariant forall j, i :: 0 <= j < ysize && 0 <= i < xsize ==>
            grid2[j][i] == if Inner(xsize, ysize, i, j) && (j < y || (j == y && i < x))
                           then StepCell(grid1, xsize, ysize, r1Cutoff, r2Cutoff, i, j)
                           else old(grid2)[j][i]
        {
          var r1 := CountR1(x, y);
          var r2 := CountR2(x, y);
          if r1 >= r1Cutoff || r2 <= r2Cutoff {
            grid2 := Set2(grid2, (x, y), Wall);
          } else {
            grid2 := Set2(grid2, (x, y), Floor);
          }
          x := x + 1;
        }
        y := y + 1;
      }
      ghost var next := grid2;
      y := 1;
      while y < ysize - 1
        invariant Valid() && grid2 == next && 1 <= y
        invariant forall j, i :: 0 <= j < ysize && 0 <= i < xsize ==>
          grid1[j][i] == if Inner(xsize, ysize, i, j) && j < y then next[j][i] else old(grid1)[j][i]
      {
        var x := 1;
        while x < xsize - 1
          invariant Valid() && grid2 == next && 1 <= x
          invariant forall j, i :: 0 <= j < ysize && 0 <= i < xsize ==>
            grid1[j][i] == if Inner(xsize, ysize, i, j) && (j < y || (j == y && i < x))
                           then next[j][i] else old(grid1)[j][i]
        {
          grid1 := Set2(grid1, (x, y), grid2[y][x]);
          x := x + 1;
        }
        y := y + 1;
      }
      GridExt(grid1, Step(old(grid1), xsize, ysize, r1Cutoff, r2Cutoff), xsize, ysize);
      GridExt(grid2, WithBorder(grid1, old(grid2), xsize, ysize), xsize, ysize);
    }

    /** R1 at the interior cell (x, y) of grid1, counted over the 3x3 offsets. */
    method CountR1(x: int, y: int) returns (r1: int)
      requires Valid() && Inner(xsize, ysize, x, y)
      ensures r1 == R1(grid1, xsize, ysize, x, y)
    {
      r1 := 0;
      for yOff := -1 to 2
        invariant r1 == BlockCount(grid1, xsize, ysize, y - 1, y + yOff, x - 1, x + 2)
      {
        for xOff := -1 to 2
          invariant r1 == BlockCount(grid1, xsize, ysize, y - 1, y + yOff, x - 1, x + 2) +
                          RowCount(grid1, y + yOff, x - 1, x + xOff)
        {
          if grid1[y + yOff][x + xOff] != Floor {
            r1 := r1 + 1;
          }
        }
      }
    }

    /**
     * R2 at (x, y) of grid1: the 5x5 offsets, skipping the four corners and
     * the cells outside the grid.
     */
    method CountR2(x: int, y: int) returns (r2: int)
      requires Valid()
      ensures r2 == R2(grid1, xsize, ysize, x, y)
    {
      r2 := 0;
      for yOth := y - 2 to y + 3
        invariant r2 == R2Rows(grid1, xsize, ysize, x, y, yOth)
      {
        for xOth := x - 2 to x + 3
          invariant r2 == R2Rows(grid1, xsize, ysize, x, y, yOth) + R2Row(grid1, xsize, ysize, x, y, yOth, xOth)
        {
          if Abs(y - yOth) == 2 && Abs(x - xOth) == 2 {
            continue;
          }
          if yOth < 0 || yOth >= ysize || xOth < 0 || xOth >= xsize {
            continue;
          }
          if grid1[yOth][xOth] != Floor {
            r2 := r2 + 1;
          }
        }
      }
    }

    /** The tile at (x, y). */
    function Get(x: int, y: int): (t: int)
      requires Valid() && 0 <= x < xsize && 0 <= y < ysize
      reads this
      ensures t == At(grid1, (x, y))
    {
      grid1[y][x]
    }

    /** Sets the tile at (x, y) to v. */
    method Set(x: int, y: int, v: int)
      requires Valid() && 0 <= x < xsize && 0 <= y < ysize
      modifies this
      ensures Valid() && grid1 == Set2(old(grid1), (x, y), v) && grid2 == old(grid2)
    {
      grid1 := Set2(grid1, (x, y), v);
    }
  }
}
