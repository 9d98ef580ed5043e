/*
 * Recursive-backtracker maze carving.  A maze is a grid of rock tiles in
 * which a depth-first walk, starting from the cell (width/2 + 1, height/2 + 1),
 * jumps two tiles at a time in a shuffled order of the four directions and
 * carves the tile it jumps over, until no jump is left or the corridor budget
 * is used up.
 *
 * The grids are rows of tiles indexed [y][x], as in the program.  The
 * invariants of the walk are stated on a value snapshot of the maze (a
 * Walk) and proved for the two changes the walk makes: entering a cell and
 * carving the tile towards the next one.
 */
module MazeGen {

  import opened Grids

  datatype Tile = Rock | Corr

  /** Jump offsets of the four directions: east, north, west, south. */
  const DX: seq<int> := [2, 0, -2, 0]
  const DY: seq<int> := [0, -2, 0, 2]

  /** The cell two tiles away from p in direction d. */
  function Jump(p: Pos, d: int): Pos
    requires 0 <= d < 4
  {
    (p.0 + DX[d], p.1 + DY[d])
  }

  /** The tile between p and Jump(p, d). */
  function Mid(p: Pos, d: int): Pos
    requires 0 <= d < 4
  {
    (p.0 + DX[d] / 2, p.1 + DY[d] / 2)
  }

  /** A shuffled direction list: the four direction indices, each once. */
  predicate IsShuffle(s: seq<int>)
  {
    |s| == 4 && multiset(s) == multiset{0, 1, 2, 3}
  }

  lemma ShuffleEntry(s: seq<int>, i: int)
    requires IsShuffle(s) && 0 <= i < 4
    ensures 0 <= s[i] < 4
  {
    assert s[i] in multiset(s);
  }

  /** Every direction occurs in a shuffled direction list. */
  lemma ShuffleCovers(s: seq<int>, d: int)
    requires IsShuffle(s) && 0 <= d < 4
    ensures exists k :: 0 <= k < 4 && s[k] == d
  {
    assert d in multiset(s);
    assert d in s;
  }

  function Max(a: int, b: int): int
  {
    if a < b then b else a
  }

  // ---------------------------------------------------------------------
  // The walk on a snapshot of the maze

  /** The maze's dimensions and corridor budget. */
  datatype Config = Config(width: int, height: int, maxCorrs: int)

  ghost predicate WellFormed(c: Config)
  {
    c.width % 2 == 1 && c.height % 2 == 1 && 3 <= c.width && 3 <= c.height
  }

  function Start(c: Config): Pos
  {
    (c.width / 2 + 1, c.height / 2 + 1)
  }

  ghost predicate InGrid(c: Config, p: Pos)
  {
    0 <= p.0 < c.width && 0 <= p.1 < c.height
  }

  ghost predicate Interior(c: Config, p: Pos)
  {
    1 <= p.0 < c.width - 1 && 1 <= p.1 < c.height - 1
  }

  /** Cells at an even offset from the start cell in both coordinates. */
  ghost predicate OnLattice(c: Config, p: Pos)
  {
    (p.0 - Start(c).0) % 2 == 0 && (p.1 - Start(c).1) % 2 == 0
  }

  /** The four tiles around a lattice cell are off the lattice. */
  lemma AroundOffLattice(c: Config, u: Pos)
    requires OnLattice(c, u)
    ensures !OnLattice(c, (u.0 + 1, u.1)) && !OnLattice(c, (u.0 - 1, u.1))
    ensures !OnLattice(c, (u.0, u.1 + 1)) && !OnLattice(c, (u.0, u.1 - 1))
  {
  }

  /** The tiles, the visited flags and the corridor counter of a maze. */
  datatype Walk = Walk(rep: seq<seq<Tile>>, visited: seq<seq<bool>>, ncorrs: int)

  ghost predicate Shaped(c: Config, s: Walk)
  {
    |s.rep| == c.height && |s.visited| == c.height &&
    (forall j :: 0 <= j < c.height ==> |s.rep[j]| == c.width) &&
    (forall j :: 0 <= j < c.height ==> |s.visited[j]| == c.width)
  }

  ghost predicate IsCorr(s: Walk, p: Pos)
  {
    Has(s.rep, p, Corr)
  }

  ghost predicate Visited(s: Walk, p: Pos)
  {
    Has(s.visited, p, true)
  }

  /** The shape every reachable maze has. */
  ghost predicate Good(c: Config, s: Walk)
  {
    Shaped(c, s) &&
    // visited cells are carved, on the start cell's lattice, and inside the
    // border unless it is the start cell
    (forall p {:trigger Visited(s, p)} :: Visited(s, p) ==>
       IsCorr(s, p) && OnLattice(c, p) && (p == Start(c) || Interior(c, p))) &&
    // a carved lattice cell has been visited
    (forall p {:trigger IsCorr(s, p)} :: IsCorr(s, p) && OnLattice(c, p) ==> Visited(s, p)) &&
    // the counter counts the carved tiles
    s.ncorrs == Count(s.rep, Corr) &&
    s.ncorrs <= Max(1, c.maxCorrs + 1)
  }

  /** None of the four tiles around u has been carved. */
  ghost predicate Sealed(s: Walk, u: Pos)
  {
    !IsCorr(s, (u.0 + 1, u.1)) && !IsCorr(s, (u.0 - 1, u.1)) &&
    !IsCorr(s, (u.0, u.1 + 1)) && !IsCorr(s, (u.0, u.1 - 1))
  }

  /** Every unvisited lattice cell other than e is still sealed. */
  ghost predicate SealedExcept(c: Config, s: Walk, e: Pos)
  {
    forall u {:trigger Sealed(s, u)} ::
      InGrid(c, u) && OnLattice(c, u) && !Visited(s, u) && u != e ==> Sealed(s, u)
  }

  /** q has been visited, or it is the cell e the walk is about to enter. */
  ghost predicate VisitedOr(s: Walk, q: Pos, e: Pos)
  {
    Visited(s, q) || q == e
  }

  /**
   * The tile m, off the lattice, lies between two lattice cells that have
   * been visited (or are e): the cells left and right of it, or the cells
   * above and below it.
   */
  ghost predicate Bridge(c: Config, s: Walk, e: Pos, m: Pos)
  {
    ((m.0 - Start(c).0) % 2 != 0 && (m.1 - Start(c).1) % 2 == 0 &&
     VisitedOr(s, (m.0 - 1, m.1), e) && VisitedOr(s, (m.0 + 1, m.1), e)) ||
    ((m.0 - Start(c).0) % 2 == 0 && (m.1 - Start(c).1) % 2 != 0 &&
     VisitedOr(s, (m.0, m.1 - 1), e) && VisitedOr(s, (m.0, m.1 + 1), e))
  }

  /** Every carved tile off the lattice joins two visited cells (or e). */
  ghost predicate Bridged(c: Config, s: Walk, e: Pos)
  {
    forall m {:trigger IsCorr(s, m)} :: IsCorr(s, m) && !OnLattice(c, m) ==> Bridge(c, s, e, m)
  }

  /** The jump test of the walk. */
  ghost predicate CanJump(c: Config, s: Walk, p: Pos)
  {
    Interior(c, p) && !Visited(s, p) && s.ncorrs < c.maxCorrs
  }

  /** The walk may enter p: the state PlaceCorrs expects on entry. */
  ghost predicate CanEnter(c: Config, s: Walk, p: Pos)
  {
    Good(c, s) && SealedExcept(c, s, p) && Bridged(c, s, p) &&
    InGrid(c, p) && OnLattice(c, p) && !Visited(s, p) &&
    (p == Start(c) || Interior(c, p)) &&
    s.ncorrs <= Max(0, c.maxCorrs)
  }

  /** The walk has nowhere left to go from p. */
  ghost predicate Closed(c: Config, s: Walk, p: Pos)
  {
    forall d :: 0 <= d < 4 ==> !CanJump(c, s, Jump(p, d))
  }

  /**
   * s' extends s: nothing visited is forgotten, nothing carved is filled in,
   * the counter does not drop.
   */
  ghost predicate Grows(s: Walk, s': Walk)
  {
    (forall p :: Visited(s, p) ==> Visited(s', p)) &&
    (forall p :: IsCorr(s, p) ==> IsCorr(s', p)) &&
    s.ncorrs <= s'.ncorrs
  }

  /** The walk enters p: the tile is carved, the cell visited and counted. */
  function Enter(c: Config, s: Walk, p: Pos): Walk
    requires Shaped(c, s) && InGrid(c, p)
  {
    Walk(Set2(s.rep, p, Corr), Set2(s.visited, p, true), s.ncorrs + 1)
  }

  /** The walk carves the tile m and counts it. */
  function Carve(c: Config, s: Walk, m: Pos): Walk
    requires Shaped(c, s) && InGrid(c, m)
  {
    Walk(Set2(s.rep, m, Corr), s.visited, s.ncorrs + 1)
  }

  /** Entering an unvisited lattice cell keeps the maze's shape. */
  lemma EnterGood(c: Config, s: Walk, p: Pos)
    requires WellFormed(c) && Good(c, s)
    requires InGrid(c, p) && OnLattice(c, p) && !Visited(s, p)
    requires p == Start(c) || Interior(c, p)
    requires s.ncorrs <= Max(0, c.maxCorrs)
    ensures Good(c, Enter(c, s, p))
    ensures forall q :: Visited(Enter(c, s, p), q) <==> Visited(s, q) || q == p
    ensures Grows(s, Enter(c, s, p)) && Visited(Enter(c, s, p), p)
    ensures Count(Enter(c, s, p).visited, false) < Count(s.visited, false)
  {
    var s' := Enter(c, s, p);
    assert !IsCorr(s, p);
    assert s.visited[p.1][p.0] == false;
    CountSet(s.rep, p, Corr, Corr);
    CountSet(s.visited, p, true, false);
    SetHas(s.rep, p, Corr, Corr);
    SetHas(s.visited, p, true, true);
    assert forall q :: IsCorr(s', q) <==> IsCorr(s, q) || q == p;
    assert forall q :: Visited(s', q) <==> Visited(s, q) || q == p;
    assert Shaped(c, s');
  }

  /** Entering p leaves every other unvisited lattice cell sealed. */
  lemma EnterSeals(c: Config, s: Walk, p: Pos)
    requires Shaped(c, s) && SealedExcept(c, s, p)
    requires InGrid(c, p) && OnLattice(c, p)
    ensures SealedExcept(c, Enter(c, s, p), p)
  {
    var s' := Enter(c, s, p);
    SetHas(s.rep, p, Corr, Corr);
    SetHas(s.visited, p, true, true);
    forall u | InGrid(c, u) && OnLattice(c, u) && !Visited(s', u) && u != p
      ensures Sealed(s', u)
    {
      assert Sealed(s, u);
      AroundOffLattice(c, u);
    }
  }

  /** Entering p keeps every carved tile between visited cells. */
  lemma EnterBridged(c: Config, s: Walk, p: Pos)
    requires Shaped(c, s) && Bridged(c, s, p)
    requires InGrid(c, p) && OnLattice(c, p)
    ensures Bridged(c, Enter(c, s, p), p)
  {
    var s' := Enter(c, s, p);
    SetHas(s.rep, p, Corr, Corr);
    SetHas(s.visited, p, true, true);
    forall m | IsCorr(s', m) && !OnLattice(c, m)
      ensures Bridge(c, s', p, m)
    {
      assert IsCorr(s, m);
    }
  }

  /** Carving from a visited p towards Jump(p, d) joins p and that cell. */
  lemma CarveBridged(c: Config, s: Walk, p: Pos, d: int)
    requires Shaped(c, s) && Bridged(c, s, p)
    requires Visited(s, p) && OnLattice(c, p) && 0 <= d < 4 && InGrid(c, Mid(p, d))
    ensures Bridged(c, Carve(c, s, Mid(p, d)), Jump(p, d))
  {
    var m, t := Mid(p, d), Jump(p, d);
    var s' := Carve(c, s, m);
    SetHas(s.rep, m, Corr, Corr);
    forall u | IsCorr(s', u) && !OnLattice(c, u)
      ensures Bridge(c, s', t, u)
    {
      if u == m {
        if d == 0 {
          assert (m.0 - 1, m.1) == p && (m.0 + 1, m.1) == t;
        } else if d == 1 {
          assert (m.0, m.1 + 1) == p && (m.0, m.1 - 1) == t;
        } else if d == 2 {
          assert (m.0 + 1, m.1) == p && (m.0 - 1, m.1) == t;
        } else {
          assert (m.0, m.1 - 1) == p && (m.0, m.1 + 1) == t;
        }
      } else {
        assert IsCorr(s, u);
      }
    }
  }

  /** Once e has been visited, it needs no exception. */
  lemma BridgedVisited(c: Config, s: Walk, e: Pos, e': Pos)
    requires Bridged(c, s, e) && Visited(s, e)
    ensures Bridged(c, s, e')
  {
    forall m | IsCorr(s, m) && !OnLattice(c, m)
      ensures Bridge(c, s, e', m)
    {
      assert Bridge(c, s, e, m);
    }
  }

  /** A tile joining two cells is the tile a jump between them carves. */
  lemma BridgeIsMid(c: Config, s: Walk, e: Pos, m: Pos) returns (p: Pos, d: int)
    requires Bridge(c, s, e, m)
    ensures 0 <= d < 4 && Mid(p, d) == m
    ensures VisitedOr(s, p, e) && VisitedOr(s, Jump(p, d), e)
  {
    if (m.0 - Start(c).0) % 2 != 0 {
      p, d := (m.0 - 1, m.1), 0;
    } else {
      p, d := (m.0, m.1 + 1), 1;
    }
  }

  /**
   * Once the walk's current cell e has been visited, every corridor tile
   * that is not a visited cell is the tile carved by a jump between two
   * visited cells.
   */
  lemma CarvedBetween(c: Config, s: Walk, e: Pos, m: Pos) returns (p: Pos, d: int)
    requires Good(c, s) && Bridged(c, s, e) && Visited(s, e)
    requires IsCorr(s, m) && !Visited(s, m)
    ensures 0 <= d < 4 && Mid(p, d) == m
    ensures Visited(s, p) && Visited(s, Jump(p, d))
  {
    assert !OnLattice(c, m);
    p, d := BridgeIsMid(c, s, e, m);
  }

  /** The jump target is on the lattice; the carved tile is not. */
  lemma JumpFacts(c: Config, p: Pos, d: int)
    requires OnLattice(c, p) && 0 <= d < 4
    ensures OnLattice(c, Jump(p, d)) && !OnLattice(c, Mid(p, d))
  {
    AroundOffLattice(c, p);
  }

  /** The carved tile is one of the four tiles around the jump target. */
  lemma MidBeside(s: Walk, p: Pos, d: int)
    requires 0 <= d < 4 && Sealed(s, Jump(p, d))
    ensures !IsCorr(s, Mid(p, d))
  {
    var t := Jump(p, d);
    if d == 0 {
      assert Mid(p, d) == (t.0 - 1, t.1);
    } else if d == 1 {
      assert Mid(p, d) == (t.0, t.1 + 1);
    } else if d == 2 {
      assert Mid(p, d) == (t.0 + 1, t.1);
    } else {
      assert Mid(p, d) == (t.0, t.1 - 1);
    }
  }

  /** The carved tile touches no lattice cell but the two it joins. */
  lemma MidAway(c: Config, p: Pos, d: int, u: Pos)
    requires OnLattice(c, p) && OnLattice(c, u) && 0 <= d < 4
    requires u != p && u != Jump(p, d)
    ensures Mid(p, d) !in {(u.0 + 1, u.1), (u.0 - 1, u.1), (u.0, u.1 + 1), (u.0, u.1 - 1)}
  {
    AroundOffLattice(c, u);
    AroundOffLattice(c, p);
  }

  /**
   * Carving the tile towards a cell the walk may jump to keeps the maze's
   * shape, and the budget left for the target is intact.
   */
  lemma CarveGood(c: Config, s: Walk, p: Pos, d: int)
    requires WellFormed(c) && Good(c, s) && SealedExcept(c, s, p)
    requires Visited(s, p) && 0 <= d < 4 && CanJump(c, s, Jump(p, d))
    ensures InGrid(c, Mid(p, d)) && InGrid(c, Jump(p, d)) && OnLattice(c, Jump(p, d))
    ensures Good(c, Carve(c, s, Mid(p, d))) && Grows(s, Carve(c, s, Mid(p, d)))
    ensures Carve(c, s, Mid(p, d)).ncorrs <= Max(0, c.maxCorrs)
  {
    var t, m := Jump(p, d), Mid(p, d);
    JumpFacts(c, p, d);
    assert Sealed(s, t);
    MidBeside(s, p, d);
    var s' := Carve(c, s, m);
    assert s.rep[m.1][m.0] != Corr;
    CountSet(s.rep, m, Corr, Corr);
    SetHas(s.rep, m, Corr, Corr);
    assert forall q :: IsCorr(s', q) <==> IsCorr(s, q) || q == m;
    assert forall q :: Visited(s', q) <==> Visited(s, q);
    assert Shaped(c, s');
  }

  /** Carving towards Jump(p, d) unseals that cell and no other. */
  lemma CarveSeals(c: Config, s: Walk, p: Pos, d: int)
    requires Shaped(c, s) && SealedExcept(c, s, p)
    requires Visited(s, p) && OnLattice(c, p) && 0 <= d < 4 && InGrid(c, Mid(p, d))
    ensures SealedExcept(c, Carve(c, s, Mid(p, d)), Jump(p, d))
  {
    var t, m := Jump(p, d), Mid(p, d);
    var s' := Carve(c, s, m);
    SetHas(s.rep, m, Corr, Corr);
    forall u | InGrid(c, u) && OnLattice(c, u) && !Visited(s', u) && u != t
      ensures Sealed(s', u)
    {
      assert Sealed(s, u);
      MidAway(c, p, d, u);
    }
  }

  /** A maze of rock with nothing visited. */
  function Blank(c: Config): Walk
    requires 0 <= c.width && 0 <= c.height
  {
    Walk(seq(c.height, _ => seq(c.width, _ => Rock)), seq(c.height, _ => seq(c.width, _ => false)), 0)
  }

  /** The walk may start at the start cell of a blank maze. */
  lemma BlankReady(c: Config)
    requires WellFormed(c)
    ensures CanEnter(c, Blank(c), Start(c))
    ensures forall q :: !Visited(Blank(c), q)
  {
    CountNone(Blank(c).rep, Corr);
  }

  /** When the walk started from nothing, all cells it visited are closed. */
  lemma AllClosed(c: Config, s0: Walk, s: Walk)
    requires NewClosed(c, s0, s) && forall q :: !Visited(s0, q)
    ensures forall q :: Visited(s, q) ==> Closed(c, s, q)
  {
  }

  /** After carving towards a cell the walk may jump to, it may enter that cell. */
  lemma CarveReady(c: Config, s: Walk, x: int, y: int, d: int)
    requires WellFormed(c) && Good(c, s) && SealedExcept(c, s, (x, y)) && Bridged(c, s, (x, y))
    requires Visited(s, (x, y)) && 0 <= d < 4 && CanJump(c, s, Jump((x, y), d))
    ensures InGrid(c, Mid((x, y), d))
    ensures CanEnter(c, Carve(c, s, Mid((x, y), d)), (x + DX[d], y + DY[d]))
    ensures Grows(s, Carve(c, s, Mid((x, y), d)))
    ensures Carve(c, s, Mid((x, y), d)).visited == s.visited
  {
    assert Jump((x, y), d) == (x + DX[d], y + DY[d]);
    CarveGood(c, s, (x, y), d);
    CarveSeals(c, s, (x, y), d);
    CarveBridged(c, s, (x, y), d);
  }

  /** Carving m makes it a corridor tile. */
  lemma CarveCorr(c: Config, s: Walk, m: Pos)
    requires Shaped(c, s) && InGrid(c, m)
    ensures IsCorr(Carve(c, s, m), m)
  {
  }

  /** A cell with nowhere to go stays so as the walk grows. */
  lemma ClosedMono(c: Config, s: Walk, s': Walk, q: Pos)
    requires Grows(s, s') && Closed(c, s, q)
    ensures Closed(c, s', q)
  {
  }

  /** Every cell visited in s but not in s0 has nowhere left to go in s. */
  ghost predicate NewClosed(c: Config, s0: Walk, s: Walk)
  {
    forall q :: Visited(s, q) && !Visited(s0, q) ==> Closed(c, s, q)
  }

  lemma NewClosedTrans(c: Config, s0: Walk, s1: Walk, s2: Walk)
    requires Grows(s0, s1) && Grows(s1, s2)
    requires NewClosed(c, s0, s1) && NewClosed(c, s1, s2)
    ensures Grows(s0, s2) && NewClosed(c, s0, s2)
  {
    forall q | Visited(s2, q) && !Visited(s0, q)
      ensures Closed(c, s2, q)
    {
      if Visited(s1, q) {
        ClosedMono(c, s1, s2, q);
      }
    }
  }

  /** The first n directions of dirs lead nowhere from p any more. */
  ghost predicate Tried(c: Config, s: Walk, p: Pos, dirs: seq<int>, n: int)
    requires 0 <= n <= |dirs| && forall k :: 0 <= k < |dirs| ==> 0 <= dirs[k] < 4
  {
    forall k :: 0 <= k < n ==> !CanJump(c, s, Jump(p, dirs[k]))
  }

  lemma TriedStep(c: Config, s: Walk, s': Walk, p: Pos, dirs: seq<int>, n: int)
    requires 0 <= n < |dirs| && forall k :: 0 <= k < |dirs| ==> 0 <= dirs[k] < 4
    requires Tried(c, s, p, dirs, n) && Grows(s, s') && !CanJump(c, s', Jump(p, dirs[n]))
    ensures Tried(c, s', p, dirs, n + 1)
  {
  }

  /** Trying every direction of a shuffle closes the cell. */
  lemma TriedAll(c: Config, s: Walk, p: Pos, dirs: seq<int>)
    requires IsShuffle(dirs) && forall k :: 0 <= k < |dirs| ==> 0 <= dirs[k] < 4
    requires Tried(c, s, p, dirs, 4)
    ensures Closed(c, s, p)
  {
    forall d | 0 <= d < 4
      ensures !CanJump(c, s, Jump(p, d))
    {
      ShuffleCovers(dirs, d);
    }
  }

  /**
   * After carving from p towards t and walking on from t, p keeps the walk's
   * invariants and the jump to t is no longer possible.
   */
  lemma JumpDone(c: Config, s0: Walk, s1: Walk, s2: Walk, p: Pos, t: Pos)
    requires Grows(s0, s1) && s1.visited == s0.visited
    requires Grows(s1, s2) && NewClosed(c, s1, s2)
    requires SealedExcept(c, s2, t) && Bridged(c, s2, t) && Visited(s2, t)
    ensures Grows(s0, s2) && NewClosed(c, s0, s2)
    ensures SealedExcept(c, s2, p) && Bridged(c, s2, p) && !CanJump(c, s2, t)
  {
    BridgedVisited(c, s2, t, p);
  }

  /** Once the walk from p is done, p and all cells visited after it are closed. */
  lemma EnteredClosed(c: Config, s0: Walk, s1: Walk, s2: Walk, p: Pos)
    requires Grows(s1, s2) && NewClosed(c, s1, s2) && Closed(c, s2, p)
    requires forall q :: Visited(s1, q) && !Visited(s0, q) ==> q == p
    ensures NewClosed(c, s0, s2)
  {
  }

  // ---------------------------------------------------------------------
  // The maze

  class Maze {
    const width: int
    const height: int
    const maxCorrs: int
    /** The shuffled direction list drawn when the walk enters a cell. */
    const shuffle: (int, int) -> seq<int>
    /** Tiles and visited flags, indexed [y][x]. */
    var rep: seq<seq<Tile>>
    var visited: seq<seq<bool>>
    var ncorrs: int

    ghost function Cfg(): Config
    {
      Config(width, height, maxCorrs)
    }

    ghost function State(): Walk
      reads this
    {
      Walk(rep, visited, ncorrs)
    }

    ghost predicate Inv()
      reads this
    {
      WellFormed(Cfg()) && Good(Cfg(), State())
    }

    /** Every cell's draw is a shuffle of the four directions. */
    ghost predicate Shuffled()
    {
      forall x, y :: IsShuffle(shuffle(x, y))
    }

    /** A position the walk may jump to. */
    function ValidPos(x: int, y: int): (r: bool)
      requires Inv()
      reads this
      ensures r <==> CanJump(Cfg(), State(), (x, y))
    {
      if x < 1 || x >= width - 1 then false
      else if y < 1 || y >= height - 1 then false
      else if visited[y][x] then false
      else if ncorrs >= maxCorrs then false
      else true
    }

    constructor(width: int, height: int, maxCorrs: int, shuffle: (int, int) -> seq<int>)
      requires width % 2 != 0 && height % 2 != 0
      requires 3 <= width && 3 <= height
      requires forall x, y :: IsShuffle(shuffle(x, y))
      ensures Shuffled()
      ensures this.width == width && this.height == height && this.maxCorrs == maxCorrs
      ensures Inv() && SealedExcept(Cfg(), State(), Start(Cfg()))
      ensures Visited(State(), Start(Cfg())) && Bridged(Cfg(), State(), Start(Cfg()))
      ensures 1 <= ncorrs <= Max(1, maxCorrs + 1)
      ensures forall q :: Visited(State(), q) ==> Closed(Cfg(), State(), q)
    {
      this.width := width;
      this.height := height;
      this.maxCorrs := maxCorrs;
      this.shuffle := shuffle;
      rep := seq(height, _ => seq(width, _ => Rock));
      visited := seq(height, _ => seq(width, _ => false));
      ncorrs := 0;
      new;
      ghost var blank := State();
      assert blank == Blank(Cfg());
      BlankReady(Cfg());
      PlaceCorrs(width / 2 + 1, height / 2 + 1);
      AllClosed(Cfg(), blank, State());
    }

    /**
     * Visits (x, y), then tries the four jumps in shuffled order, carving
     * the tile in between and recursing on every jump that is still valid.
     */
    method PlaceCorrs(x: int, y: int)
      requires Inv() && Shuffled() && CanEnter(Cfg(), State(), (x, y))
      modifies this
      decreases Count(visited, false), 0
      ensures Inv() && SealedExcept(Cfg(), State(), (x, y))
      ensures Visited(State(), (x, y)) && rep[y][x] == Corr && Bridged(Cfg(), State(), (x, y))
      ensures Grows(old(State()), State()) && old(ncorrs) < ncorrs
      ensures Count(visited, false) < old(Count(visited, false))
      ensures NewClosed(Cfg(), old(State()), State())
    {
      EnterGood(Cfg(), State(), (x, y));
      EnterSeals(Cfg(), State(), (x, y));
      EnterBridged(Cfg(), State(), (x, y));
      rep := Set2(rep, (x, y), Corr);
      visited := Set2(visited, (x, y), true);
      ncorrs := ncorrs + 1;
      ghost var entered := State();
      assert entered == Enter(Cfg(), old(State()), (x, y));
      var dirs := shuffle(x, y);
      forall k | 0 <= k < 4
        ensures 0 <= dirs[k] < 4
      {
        ShuffleEntry(dirs, k);
      }
      for i := 0 to 4
        invariant Inv() && SealedExcept(Cfg(), State(), (x, y)) && Bridged(Cfg(), State(), (x, y))
        invariant Grows(entered, State())
        invariant Count(visited, false) <= Count(entered.visited, false)
        invariant NewClosed(Cfg(), entered, State())
        invariant Tried(Cfg(), State(), (x, y), dirs, i)
      {
        ghost var before := State();
        TryJump(x, y, dirs[i]);
        NewClosedTrans(Cfg(), entered, before, State());
        TriedStep(Cfg(), before, State(), (x, y), dirs, i);
      }
      TriedAll(Cfg(), State(), (x, y), dirs);
      EnteredClosed(Cfg(), old(State()), entered, State(), (x, y));
    }

    /**
     * One turn of the loop in PlaceCorrs: if the jump from (x, y) in
     * direction d is valid, carve the tile in between and walk on from the
     * target cell; otherwise nothing changes.
     */
    method TryJump(x: int, y: int, d: int)
      requires Inv() && Shuffled() && SealedExcept(Cfg(), State(), (x, y))
      requires Bridged(Cfg(), State(), (x, y))
      requires Visited(State(), (x, y)) && 0 <= d < 4
      modifies this
      decreases Count(visited, false), 2
      ensures Inv() && SealedExcept(Cfg(), State(), (x, y)) && Bridged(Cfg(), State(), (x, y))
      ensures old(CanJump(Cfg(), State(), Jump((x, y), d))) ==>
                IsCorr(State(), Mid((x, y), d)) && Visited(State(), Jump((x, y), d))
      ensures !old(CanJump(Cfg(), State(), Jump((x, y), d))) ==> State() == old(State())
      ensures Grows(old(State()), State())
      ensures Count(visited, false) <= old(Count(visited, false))
      ensures !CanJump(Cfg(), State(), Jump((x, y), d))
      ensures NewClosed(Cfg(), old(State()), State())
    {
      assert (x + DX[d], y + DY[d]) == Jump((x, y), d);
      if ValidPos(x + DX[d], y + DY[d]) {
        JumpTo(x, y, d);
      }
    }

    /** The valid jump from (x, y) in direction d: carve, then walk on. */
    method JumpTo(x: int, y: int, d: int)
      requires Inv() && Shuffled() && SealedExcept(Cfg(), State(), (x, y))
      requires Bridged(Cfg(), State(), (x, y))
      requires Visited(State(), (x, y)) && 0 <= d < 4
      requires CanJump(Cfg(), State(), Jump((x, y), d))
      modifies this
      decreases Count(visited, false), 1
      ensures Inv() && SealedExcept(Cfg(), State(), (x, y)) && Bridged(Cfg(), State(), (x, y))
      ensures IsCorr(State(), Mid((x, y), d)) && Visited(State(), Jump((x, y), d))
      ensures Grows(old(State()), State())
      ensures Count(visited, false) <= old(Count(visited, false))
      ensures !CanJump(Cfg(), State(), Jump((x, y), d))
      ensures NewClosed(Cfg(), old(State()), State())
    {
      CarveReady(Cfg(), State(), x, y, d);
      CarveCorr(Cfg(), State(), Mid((x, y), d));
      rep := Set2(rep, Mid((x, y), d), Corr);
      ncorrs := ncorrs + 1;
      ghost var carved := State();
      assert carved == Carve(Cfg(), old(State()), Mid((x, y), d));
      PlaceCorrs(x + DX[d], y + DY[d]);
      JumpDone(Cfg(), old(State()), carved, State(), (x, y), (x + DX[d], y + DY[d]));
    }
  }
}
