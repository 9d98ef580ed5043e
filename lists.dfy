/*
 * Sub-sequences picked by index, as left behind when the entries at the
 * other indices are removed one after another.
 */
module Lists {

  predicate Increasing(s: seq<int>)
  {
    forall i, j :: 0 <= i < j < |s| ==> s[i] < s[j]
  }

  /** The entries of s at the indices in keep, in their order in s. */
  function Sub<T>(s: seq<T>, keep: set<int>): seq<T>
  {
    if |s| == 0 then []
    else Sub(s[..|s| - 1], keep) + (if |s| - 1 in keep then [s[|s| - 1]] else [])
  }

  /** The picked entries are entries of s at kept indices. */
  lemma {:induction false} SubFrom<T>(s: seq<T>, keep: set<int>, x: T)
    requires x in Sub(s, keep)
    ensures exists i :: 0 <= i < |s| && i in keep && s[i] == x
    decreases |s|
  {
    var n := |s| - 1;
    if x !in Sub(s[..n], keep) {
      assert n in keep && s[n] == x;
    } else {
      SubFrom(s[..n], keep, x);
      var i :| 0 <= i < n && i in keep && s[..n][i] == x;
      assert s[i] == x;
    }
  }

  /** Every picked entry is an entry of s. */
  lemma SubIn<T>(s: seq<T>, keep: set<int>)
    ensures forall x :: x in Sub(s, keep) ==> x in s
  {
    forall x | x in Sub(s, keep)
      ensures x in s
    {
      SubFrom(s, keep, x);
    }
  }

  /** An entry at a kept index is picked. */
  lemma {:induction false} SubHas<T>(s: seq<T>, keep: set<int>, i: int)
    requires 0 <= i < |s| && i in keep
    ensures s[i] in Sub(s, keep)
    decreases |s|
  {
    var n := |s| - 1;
    if i < n {
      SubHas(s[..n], keep, i);
    }
  }

  /** A run of kept indices is picked whole. */
  lemma {:induction false} SubRun<T>(s: seq<T>, keep: set<int>, p: int, m: int)
    requires 0 <= p <= m <= |s|
    requires forall i :: p <= i < m ==> i in keep
    ensures Sub(s[..m], keep) == Sub(s[..p], keep) + s[p..m]
    decreases m
  {
    if m > p {
      SubRun(s, keep, p, m - 1);
      assert s[..m][..m - 1] == s[..m - 1];
      assert s[p..m] == s[p..m - 1] + [s[m - 1]];
    } else {
      assert s[p..m] == [];
    }
  }

  /** Only the indices of s matter. */
  lemma {:induction false} SubSame<T>(s: seq<T>, keep1: set<int>, keep2: set<int>)
    requires forall i :: 0 <= i < |s| ==> (i in keep1 <==> i in keep2)
    ensures Sub(s, keep1) == Sub(s, keep2)
    decreases |s|
  {
    if |s| > 0 {
      SubSame(s[..|s| - 1], keep1, keep2);
    }
  }

  /** An index that is not kept adds nothing. */
  lemma SubSkip<T>(s: seq<T>, keep: set<int>, d: int)
    requires 0 <= d < |s| && d !in keep
    ensures Sub(s[..d + 1], keep) == Sub(s[..d], keep)
  {
    assert s[..d + 1][..d] == s[..d];
  }

  /** Picking with two complementary index sets splits s into two parts. */
  lemma {:induction false} SubSplit<T>(s: seq<T>, keep: set<int>, drop: set<int>)
    requires forall i :: 0 <= i < |s| ==> (i in keep <==> i !in drop)
    ensures multiset(Sub(s, keep)) + multiset(Sub(s, drop)) == multiset(s)
    decreases |s|
  {
    if |s| > 0 {
      var n := |s| - 1;
      SubSplit(s[..n], keep, drop);
      assert s == s[..n] + [s[n]];
    }
  }

  /**
   * Removing, one after another, the entries at the ascending indices
   * drop[..j] leaves Sub(s[..p], keep) + s[p..], p just past drop[j - 1];
   * removing next the entry at drop[j] - j leaves the same with p just past
   * drop[j].
   */
  lemma RemoveNext<T>(s: seq<T>, keep: set<int>, cur: seq<T>, p: int, j: int, d: int)
    requires 0 <= p <= d < |s| && d !in keep && 0 <= j
    requires forall i :: p <= i < d ==> i in keep
    requires cur == Sub(s[..p], keep) + s[p..] && |Sub(s[..p], keep)| == p - j
    ensures 0 <= d - j < |cur| && cur[d - j] == s[d]
    ensures cur[..d - j] == Sub(s[..d], keep)
    ensures cur[..d - j] + cur[d - j + 1..] == Sub(s[..d + 1], keep) + s[d + 1..]
    ensures |Sub(s[..d + 1], keep)| == d + 1 - (j + 1)
  {
    SubRun(s, keep, p, d);
    SubSkip(s, keep, d);
    assert cur == Sub(s[..d], keep) + s[d..];
    assert s[d..] == [s[d]] + s[d + 1..];
  }

  /** Where the entry at a of Sub(s, keep) comes from. */
  lemma {:induction false} SubIndex<T>(s: seq<T>, keep: set<int>, a: int) returns (i: int)
    requires 0 <= a < |Sub(s, keep)|
    ensures 0 <= i < |s| && i in keep && Sub(s, keep)[a] == s[i]
    decreases |s|
  {
    var n := |s| - 1;
    if a < |Sub(s[..n], keep)| {
      i := SubIndex(s[..n], keep, a);
    } else {
      i := n;
    }
  }

  /** Two entries of Sub(s, keep) come from two kept indices, in the same order. */
  lemma {:induction false} SubPairs<T>(s: seq<T>, keep: set<int>, a: int, b: int) returns (i: int, j: int)
    requires 0 <= a < b < |Sub(s, keep)|
    ensures 0 <= i < j < |s| && i in keep && j in keep
    ensures Sub(s, keep)[a] == s[i] && Sub(s, keep)[b] == s[j]
    decreases |s|
  {
    var n := |s| - 1;
    if b < |Sub(s[..n], keep)| {
      i, j := SubPairs(s[..n], keep, a, b);
    } else {
      i := SubIndex(s[..n], keep, a);
      j := n;
    }
  }

  /** The indices below n that are not among drop. */
  function Others(n: int, drop: seq<int>): (r: set<int>)
    ensures forall i :: i in r <==> 0 <= i < n && i !in drop
  {
    set i | 0 <= i < n && i !in drop
  }

  /**
   * The entries of s at the ascending positions drop[..j] removed one after
   * another from the front: cur is Sub(s[..p], keep) + s[p..], with p just
   * past drop[j - 1].
   */
  ghost predicate Removing<T>(s: seq<T>, drop: seq<int>, cur: seq<T>, p: int, j: int)
  {
    0 <= j <= |drop| && (j == 0 ==> p == 0) && (0 < j ==> p == drop[j - 1] + 1) &&
    0 <= p <= |s| &&
    cur == Sub(s[..p], Others(|s|, drop)) + s[p..] && |Sub(s[..p], Others(|s|, drop))| == p - j
  }

  /** The indices from p up to the next removal are kept. */
  lemma GapOthers<T>(s: seq<T>, drop: seq<int>, cur: seq<T>, p: int, j: int, m: int)
    requires Increasing(drop) && (forall e :: 0 <= e < |drop| ==> 0 <= drop[e] < |s|)
    requires Removing(s, drop, cur, p, j)
    requires p <= m < (if j < |drop| then drop[j] else |s|)
    ensures m in Others(|s|, drop)
  {
  }

  /** The next removal takes out the entry at drop[j], which sits at drop[j] - j. */
  lemma RemoveStep<T>(s: seq<T>, drop: seq<int>, cur: seq<T>, p: int, j: int)
    requires Increasing(drop) && (forall e :: 0 <= e < |drop| ==> 0 <= drop[e] < |s|)
    requires Removing(s, drop, cur, p, j) && j < |drop|
    ensures 0 <= drop[j] - j < |cur| && cur[drop[j] - j] == s[drop[j]]
    ensures Removing(s, drop, cur[..drop[j] - j] + cur[drop[j] - j + 1..], drop[j] + 1, j + 1)
  {
    var keep, d := Others(|s|, drop), drop[j];
    forall m | p <= m < d
      ensures m in keep
    {
      GapOthers(s, drop, cur, p, j, m);
    }
    assert d !in keep;
    RemoveNext(s, keep, cur, p, j, d);
  }

  /** s without its entry at k, when there is one. */
  function Cut<T>(s: seq<T>, k: int): seq<T>
  {
    if 0 <= k < |s| then s[..k] + s[k + 1..] else s
  }

  /** s after removing, one after another, the entries at drop[0], drop[1] - 1, ..., drop[j - 1] - (j - 1). */
  function Removed<T>(s: seq<T>, drop: seq<int>, j: nat): seq<T>
    requires j <= |drop|
  {
    if j == 0 then s else Cut(Removed(s, drop, j - 1), drop[j - 1] - (j - 1))
  }

  /** An increasing list of indices that are not negative has its entry j at j or above. */
  lemma {:induction false} IncreasingAbove(drop: seq<int>, j: int)
    requires Increasing(drop) && (forall e :: 0 <= e < |drop| ==> 0 <= drop[e]) && 0 <= j < |drop|
    ensures drop[j] >= j
  {
    if j > 0 {
      IncreasingAbove(drop, j - 1);
    }
  }

  /** The position just past the last of the first j removals. */
  function Past(drop: seq<int>, j: int): int
    requires 0 <= j <= |drop|
  {
    if j == 0 then 0 else drop[j - 1] + 1
  }

  /** Before any removal, all of s is still there. */
  lemma RemovingStart<T>(s: seq<T>, drop: seq<int>)
    ensures Removing(s, drop, s, 0, 0)
  {
    assert s[..0] == [] && s[0..] == s;
  }

  /** Removing says the same of equal arguments. */
  lemma RemovingSame<T>(s: seq<T>, drop: seq<int>, cur: seq<T>, p: int, j: int, cur': seq<T>, p': int, j': int)
    requires Removing(s, drop, cur, p, j) && cur == cur' && p == p' && j == j'
    ensures Removing(s, drop, cur', p', j')
  {
  }

  /** Removed takes the next removal, the one after the first i, as RemoveStep does. */
  lemma RemovedNext<T>(s: seq<T>, drop: seq<int>, i: nat, j: nat)
    requires Increasing(drop) && (forall e :: 0 <= e < |drop| ==> 0 <= drop[e] < |s|) && j == i + 1 <= |drop|
    requires Removing(s, drop, Removed(s, drop, i), Past(drop, i), i)
    ensures Removing(s, drop, Removed(s, drop, j), Past(drop, j), j)
  {
    var cur, k := Removed(s, drop, i), drop[i] - i;
    RemoveStep(s, drop, cur, Past(drop, i), i);
    assert Removed(s, drop, j) == Cut(cur, k);
    RemovingSame(s, drop, cur[..k] + cur[k + 1..], drop[i] + 1, i + 1, Removed(s, drop, j), Past(drop, j), j);
  }

  /** The removals of Removed are those Removing describes. */
  lemma {:induction false} RemovedIs<T>(s: seq<T>, drop: seq<int>, j: nat)
    requires Increasing(drop) && (forall e :: 0 <= e < |drop| ==> 0 <= drop[e] < |s|) && j <= |drop|
    ensures Removing(s, drop, Removed(s, drop, j), Past(drop, j), j)
  {
    if j == 0 {
      RemovingStart(s, drop);
    } else {
      RemovedIs(s, drop, j - 1);
      RemovedNext(s, drop, j - 1, j);
    }
  }

  /**
   * The entries of s at the ascending positions drop removed one after
   * another, each found where the earlier removals left it: the others are
   * left, in order.
   */
  method RemoveAll<T>(s: seq<T>, drop: seq<int>) returns (cur: seq<T>)
    requires Increasing(drop) && forall e :: 0 <= e < |drop| ==> 0 <= drop[e] < |s|
    ensures cur == Sub(s, Others(|s|, drop))
  {
    cur := s;
    for j := 0 to |drop|
      invariant cur == Removed(s, drop, j) && |cur| == |s| - j
    {
      var at := drop[j] - j;
      IncreasingAbove(drop, j);
      cur := cur[..at] + cur[at + 1..];
    }
    RemovedIs(s, drop, |drop|);
    RemoveDone(s, drop, cur, Past(drop, |drop|));
  }

  /** After the last removal what is left is the entries at the other indices. */
  lemma RemoveDone<T>(s: seq<T>, drop: seq<int>, cur: seq<T>, p: int)
    requires Increasing(drop) && (forall e :: 0 <= e < |drop| ==> 0 <= drop[e] < |s|)
    requires Removing(s, drop, cur, p, |drop|)
    ensures cur == Sub(s, Others(|s|, drop))
  {
    var keep := Others(|s|, drop);
    forall m | p <= m < |s|
      ensures m in keep
    {
      GapOthers(s, drop, cur, p, |drop|, m);
    }
    SubRun(s, keep, p, |s|);
    assert s[..|s|] == s;
  }
}
