/*
 * Grids stored as rows of entries, indexed [y][x] as the generators index
 * their nested lists, with single-entry updates and entry counts.
 */
module Grids {

  /** A position (x, y): column x of row y. */
  type Pos = (int, int)

  /** Two to the power n. */
  function Pow2(n: nat): (r: nat)
    ensures r >= 1
  {
    if n == 0 then 1 else 2 * Pow2(n - 1)
  }

  /** The grid g has ys rows of xs entries each. */
  ghost predicate Shaped<T>(g: seq<seq<T>>, xs: int, ys: int)
  {
    |g| == ys && forall j :: 0 <= j < ys ==> |g[j]| == xs
  }

  /** The grid g with the entry at p (column p.0 of row p.1) set to v. */
  function Set2<T>(g: seq<seq<T>>, p: Pos, v: T): seq<seq<T>>
    requires 0 <= p.1 < |g| && 0 <= p.0 < |g[p.1]|
  {
    g[p.1 := g[p.1][p.0 := v]]
  }

  /** The entry of an integer grid at p, or 0 off the grid. */
  function At(g: seq<seq<int>>, p: Pos): int
  {
    if 0 <= p.1 < |g| && 0 <= p.0 < |g[p.1]| then g[p.1][p.0] else 0
  }

  /** Setting one entry of an integer grid changes it there only. */
  lemma AtSet(g: seq<seq<int>>, p: Pos, v: int)
    requires 0 <= p.1 < |g| && 0 <= p.0 < |g[p.1]|
    ensures forall q {:trigger At(Set2(g, p, v), q)} :: At(Set2(g, p, v), q) == if q == p then v else At(g, q)
  {
  }

  /** The grid g holds v at p. */
  ghost predicate Has<T>(g: seq<seq<T>>, p: Pos, v: T)
  {
    0 <= p.1 < |g| && 0 <= p.0 < |g[p.1]| && g[p.1][p.0] == v
  }

  /** Setting one entry changes what the grid holds there and nowhere else. */
  lemma SetHas<T>(g: seq<seq<T>>, p: Pos, w: T, v: T)
    requires 0 <= p.1 < |g| && 0 <= p.0 < |g[p.1]|
    ensures |Set2(g, p, w)| == |g|
    ensures forall j :: 0 <= j < |g| ==> |Set2(g, p, w)[j]| == |g[j]|
    ensures forall q :: Has(Set2(g, p, w), q, v) <==> if q == p then w == v else Has(g, q, v)
  {
  }

  /** Number of entries of a row equal to v. */
  function CountRow<T(==)>(row: seq<T>, v: T): nat
  {
    if |row| == 0 then 0
    else CountRow(row[..|row| - 1], v) + (if row[|row| - 1] == v then 1 else 0)
  }

  /** Number of entries of a grid equal to v. */
  function Count<T(==)>(g: seq<seq<T>>, v: T): nat
  {
    if |g| == 0 then 0
    else Count(g[..|g| - 1], v) + CountRow(g[|g| - 1], v)
  }

  /** Overwriting one entry changes the count by what left and what came. */
  lemma {:induction false} CountRowSet<T>(row: seq<T>, i: int, w: T, v: T)
    requires 0 <= i < |row|
    ensures CountRow(row[i := w], v) ==
            CountRow(row, v) - (if row[i] == v then 1 else 0) + (if w == v then 1 else 0)
  {
    var n := |row| - 1;
    if i == n {
      assert row[i := w][..n] == row[..n];
    } else {
      assert row[i := w][..n] == row[..n][i := w];
      CountRowSet(row[..n], i, w, v);
    }
  }

  lemma {:induction false} CountSet<T>(g: seq<seq<T>>, p: Pos, w: T, v: T)
    requires 0 <= p.1 < |g| && 0 <= p.0 < |g[p.1]|
    ensures Count(Set2(g, p, w), v) ==
            Count(g, v) - (if g[p.1][p.0] == v then 1 else 0) + (if w == v then 1 else 0)
  {
    var n := |g| - 1;
    if p.1 == n {
      assert Set2(g, p, w)[..n] == g[..n];
      CountRowSet(g[n], p.0, w, v);
    } else {
      assert Set2(g, p, w)[..n] == Set2(g[..n], p, w);
      CountSet(g[..n], p, w, v);
    }
  }

  /** A grid without an entry v counts none. */
  lemma {:induction false} CountNone<T>(g: seq<seq<T>>, v: T)
    requires forall j, i :: 0 <= j < |g| && 0 <= i < |g[j]| ==> g[j][i] != v
    ensures Count(g, v) == 0
  {
    if |g| > 0 {
      var n := |g| - 1;
      CountNone(g[..n], v);
      RowNone(g[n], v);
    }
  }

  lemma {:induction false} RowNone<T>(row: seq<T>, v: T)
    requires forall i :: 0 <= i < |row| ==> row[i] != v
    ensures CountRow(row, v) == 0
  {
    if |row| > 0 {
      RowNone(row[..|row| - 1], v);
    }
  }

  /** A grid holding v at no more places than another (of the same shape) counts no more v. */
  lemma {:induction false} CountMono<T>(a: seq<seq<T>>, b: seq<seq<T>>, v: T)
    requires |a| == |b| && forall j :: 0 <= j < |a| ==> |a[j]| == |b[j]|
    requires forall j, i :: 0 <= j < |a| && 0 <= i < |a[j]| && a[j][i] == v ==> b[j][i] == v
    ensures Count(a, v) <= Count(b, v)
  {
    if |a| > 0 {
      var n := |a| - 1;
      CountMono(a[..n], b[..n], v);
      RowMono(a[n], b[n], v);
    }
  }

  lemma {:induction false} RowMono<T>(a: seq<T>, b: seq<T>, v: T)
    requires |a| == |b| && forall i :: 0 <= i < |a| && a[i] == v ==> b[i] == v
    ensures CountRow(a, v) <= CountRow(b, v)
  {
    if |a| > 0 {
      RowMono(a[..|a| - 1], b[..|b| - 1], v);
    }
  }
}
