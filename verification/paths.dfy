/** The reference meaning of a hop count: shortest 4-connected sea paths from
    the source, and the level sets ("reachable within n hops") that a
    breadth-first search uncovers one after another. */
module SeaPaths {
  import opened GridCells

  /** A path from `s`: consecutive cells are 4-adjacent, every cell is on the
      grid, and every cell after the first is sea. The first cell is the source
      itself, which the search expands whatever it holds. */
  ghost predicate IsSeaPath(g: Grid, s: Cell, path: seq<Cell>)
  {
    && |path| >= 1
    && path[0] == s
    && (forall i :: 0 <= i < |path| ==> InBounds(g, path[i]))
    && (forall i :: 1 <= i < |path| ==> IsSea(g, path[i]))
    && (forall i :: 0 <= i < |path| - 1 ==> Adjacent(path[i], path[i + 1]))
  }

  ghost predicate PathTo(g: Grid, s: Cell, path: seq<Cell>, p: Cell)
  {
    IsSeaPath(g, s, path) && path[|path| - 1] == p
  }

  /** `d` is the length (in hops) of a shortest sea path from `s` to `p`. */
  ghost predicate ShortestHops(g: Grid, s: Cell, p: Cell, d: nat)
  {
    && (exists path :: PathTo(g, s, path, p) && |path| == d + 1)
    && (forall path :: PathTo(g, s, path, p) ==> d + 1 <= |path|)
  }

  /** No sea path leads from `s` to `p`. */
  ghost predicate Unreachable(g: Grid, s: Cell, p: Cell)
  {
    forall path :: !PathTo(g, s, path, p)
  }

  /** `p` is reachable from `s` in at most `n` hops: the source alone at level 0,
      and at level `n` also every sea cell next to a cell of level `n - 1`. */
  ghost predicate WithinHops(g: Grid, s: Cell, p: Cell, n: nat)
    decreases n
  {
    if n == 0 then p == s
    else
      || WithinHops(g, s, p, n - 1)
      || (IsSea(g, p) && exists k :: 0 <= k < 4 && WithinHops(g, s, Move(p, k), n - 1))
  }

  lemma AdjacentSymmetric(p: Cell, q: Cell)
    ensures Adjacent(p, q) <==> Adjacent(q, p)
  {
  }

  /** The level sets are nested. */
  lemma {:induction false} WithinHopsGrows(g: Grid, s: Cell, p: Cell, n: nat, m: nat)
    requires n <= m && WithinHops(g, s, p, n)
    ensures WithinHops(g, s, p, m)
  {
    if n < m {
      WithinHopsGrows(g, s, p, n, m - 1);
    }
  }

  /** A sea path of `|path| - 1` hops puts its last cell in that level. */
  lemma {:induction false} PathReachesLevel(g: Grid, s: Cell, path: seq<Cell>)
    requires IsSeaPath(g, s, path)
    ensures WithinHops(g, s, path[|path| - 1], |path| - 1)
  {
    if |path| > 1 {
      var init := path[..|path| - 1];
      assert IsSeaPath(g, s, init);
      PathReachesLevel(g, s, init);
      var p, q := init[|init| - 1], path[|path| - 1];
      assert Adjacent(p, q);
      AdjacentSymmetric(p, q);
      MovesAreNeighbours(q, p);
      var k :| 0 <= k < 4 && Move(q, k) == p;
      assert IsSea(g, q) && WithinHops(g, s, Move(q, k), |path| - 2);
    }
  }

  /** Every cell of level `n` is the end of a sea path of at most `n` hops. */
  lemma {:induction false} LevelHasPath(g: Grid, s: Cell, p: Cell, n: nat) returns (path: seq<Cell>)
    requires InBounds(g, s)
    requires WithinHops(g, s, p, n)
    ensures PathTo(g, s, path, p) && |path| <= n + 1
    decreases n
  {
    if n == 0 {
      path := [s];
    } else if WithinHops(g, s, p, n - 1) {
      path := LevelHasPath(g, s, p, n - 1);
    } else {
      var k :| 0 <= k < 4 && WithinHops(g, s, Move(p, k), n - 1);
      var prev := LevelHasPath(g, s, Move(p, k), n - 1);
      MovesAreNeighbours(p, Move(p, k));
      AdjacentSymmetric(p, Move(p, k));
      path := prev + [p];
      assert forall i :: 0 <= i < |prev| ==> path[i] == prev[i];
    }
  }

  /** Shortest sea paths and level sets agree: `d` is the shortest hop count to
      `p` exactly when `p` lies in level `d` and in no earlier level. */
  lemma ShortestIsFirstLevel(g: Grid, s: Cell, p: Cell, d: nat)
    requires InBounds(g, s)
    ensures ShortestHops(g, s, p, d) <==> FirstLevel(g, s, p, d)
  {
    if ShortestHops(g, s, p, d) {
      ShortestGivesFirstLevel(g, s, p, d);
    }
    if FirstLevel(g, s, p, d) {
      FirstLevelGivesShortest(g, s, p, d);
    }
  }

  /** `p` lies in level `d` and in no earlier level. */
  ghost predicate FirstLevel(g: Grid, s: Cell, p: Cell, d: nat)
  {
    WithinHops(g, s, p, d) && forall n: nat :: n < d ==> !WithinHops(g, s, p, n)
  }

  lemma ShortestGivesFirstLevel(g: Grid, s: Cell, p: Cell, d: nat)
    requires InBounds(g, s) && ShortestHops(g, s, p, d)
    ensures FirstLevel(g, s, p, d)
  {
    var path :| PathTo(g, s, path, p) && |path| == d + 1;
    PathReachesLevel(g, s, path);
    forall n: nat | n < d
      ensures !WithinHops(g, s, p, n)
    {
      if WithinHops(g, s, p, n) {
        var short := LevelHasPath(g, s, p, n);
      }
    }
  }

  lemma FirstLevelGivesShortest(g: Grid, s: Cell, p: Cell, d: nat)
    requires InBounds(g, s) && FirstLevel(g, s, p, d)
    ensures ShortestHops(g, s, p, d)
  {
    var path := LevelHasPath(g, s, p, d);
    forall other | PathTo(g, s, other, p)
      ensures d + 1 <= |other|
    {
      PathReachesLevel(g, s, other);
      var m: nat := |other| - 1;
      assert WithinHops(g, s, p, m);
    }
    PathReachesLevel(g, s, path);
    var m: nat := |path| - 1;
    assert WithinHops(g, s, p, m);
    assert |path| == d + 1;
  }

  /** `p` has no sea path from `s` exactly when it lies in no level. */
  lemma UnreachableIsNoLevel(g: Grid, s: Cell, p: Cell)
    requires InBounds(g, s)
    ensures Unreachable(g, s, p) <==> forall n: nat :: !WithinHops(g, s, p, n)
  {
    if Unreachable(g, s, p) {
      forall n: nat
        ensures !WithinHops(g, s, p, n)
      {
        if WithinHops(g, s, p, n) {
          var path := LevelHasPath(g, s, p, n);
        }
      }
    } else {
      var path :| PathTo(g, s, path, p);
      PathReachesLevel(g, s, path);
      var m: nat := |path| - 1;
      assert WithinHops(g, s, p, m);
    }
  }

  /** Every cell with a sea path from `s` has a shortest hop count. */
  lemma ReachableHasShortest(g: Grid, s: Cell, p: Cell) returns (d: nat)
    requires InBounds(g, s) && !Unreachable(g, s, p)
    ensures ShortestHops(g, s, p, d)
  {
    var path :| PathTo(g, s, path, p);
    PathReachesLevel(g, s, path);
    d := LeastLevel(g, s, p, |path| - 1);
    FirstLevelGivesShortest(g, s, p, d);
  }

  /** The first level, at or below `n`, that contains `p`. */
  lemma {:induction false} LeastLevel(g: Grid, s: Cell, p: Cell, n: nat) returns (d: nat)
    requires WithinHops(g, s, p, n)
    ensures d <= n && FirstLevel(g, s, p, d)
    decreases n
  {
    if n > 0 && WithinHops(g, s, p, n - 1) {
      d := LeastLevel(g, s, p, n - 1);
    } else {
      d := n;
      forall m: nat | m < n
        ensures !WithinHops(g, s, p, m)
      {
        if WithinHops(g, s, p, m) {
          WithinHopsGrows(g, s, p, m, n - 1);
        }
      }
    }
  }

  /** A shortest hop count is unique. */
  lemma ShortestHopsUnique(g: Grid, s: Cell, p: Cell, d1: nat, d2: nat)
    requires ShortestHops(g, s, p, d1) && ShortestHops(g, s, p, d2)
    ensures d1 == d2
  {
    var path1 :| PathTo(g, s, path1, p) && |path1| == d1 + 1;
    var path2 :| PathTo(g, s, path2, p) && |path2| == d2 + 1;
    assert d2 + 1 <= |path1| && d1 + 1 <= |path2|;
  }

  /** Stepping from `p` onto an adjacent sea cell `q` lengthens a sea path by one. */
  lemma ExtendPath(g: Grid, s: Cell, path: seq<Cell>, p: Cell, q: Cell) returns (longer: seq<Cell>)
    requires PathTo(g, s, path, p)
    requires Adjacent(p, q) && IsSea(g, q)
    ensures PathTo(g, s, longer, q) && |longer| == |path| + 1
  {
    longer := path + [q];
    assert forall i :: 0 <= i < |path| ==> longer[i] == path[i];
  }

  /** A sea cell next to a reachable cell is reachable, at most one hop further. */
  lemma NeighbourHops(g: Grid, s: Cell, p: Cell, q: Cell, dp: nat, dq: nat)
    requires ShortestHops(g, s, p, dp) && ShortestHops(g, s, q, dq)
    requires Adjacent(p, q) && IsSea(g, q)
    ensures dq <= dp + 1
  {
    var path :| PathTo(g, s, path, p) && |path| == dp + 1;
    var longer := ExtendPath(g, s, path, p, q);
  }

  /** A sea cell next to a reachable cell is itself reachable. */
  lemma NeighbourReachable(g: Grid, s: Cell, p: Cell, q: Cell)
    requires !Unreachable(g, s, p)
    requires Adjacent(p, q) && IsSea(g, q)
    ensures !Unreachable(g, s, q)
  {
    var path :| PathTo(g, s, path, p);
    var longer := ExtendPath(g, s, path, p, q);
  }

  /** Every in-bounds cell is sea. */
  ghost predicate OpenSea(g: Grid)
  {
    forall p :: InBounds(g, p) ==> IsSea(g, p)
  }

  function Manhattan(p: Cell, q: Cell): nat
  {
    Abs(p.row - q.row) + Abs(p.col - q.col)
  }

  /** Without land, the level sets are the Manhattan balls around the source,
      cut to the grid. */
  lemma OpenSeaLevels(g: Grid, s: Cell, p: Cell, n: nat)
    requires Rectangular(g) && InBounds(g, s) && OpenSea(g)
    ensures WithinHops(g, s, p, n) <==> InBounds(g, p) && Manhattan(s, p) <= n
  {
    if WithinHops(g, s, p, n) {
      LevelInsideBall(g, s, p, n);
    }
    if InBounds(g, p) && Manhattan(s, p) <= n {
      BallInsideLevel(g, s, p, n);
    }
  }

  /** One hop changes the Manhattan distance to the source by at most one. */
  lemma {:induction false} LevelInsideBall(g: Grid, s: Cell, p: Cell, n: nat)
    requires InBounds(g, s) && WithinHops(g, s, p, n)
    ensures InBounds(g, p) && Manhattan(s, p) <= n
    decreases n
  {
    if n > 0 {
      if WithinHops(g, s, p, n - 1) {
        LevelInsideBall(g, s, p, n - 1);
      } else {
        var k :| 0 <= k < 4 && WithinHops(g, s, Move(p, k), n - 1);
        LevelInsideBall(g, s, Move(p, k), n - 1);
        MovesAreNeighbours(p, Move(p, k));
      }
    }
  }

  /** On open sea, a step towards the source stays on the grid and shortens the
      Manhattan distance by one. */
  lemma {:induction false} BallInsideLevel(g: Grid, s: Cell, p: Cell, n: nat)
    requires Rectangular(g) && InBounds(g, s) && OpenSea(g)
    requires InBounds(g, p) && Manhattan(s, p) <= n
    ensures WithinHops(g, s, p, n)
    decreases n
  {
    if n > 0 {
      if Manhattan(s, p) <= n - 1 {
        BallInsideLevel(g, s, p, n - 1);
      } else {
        var k: nat :=
          if p.row > s.row then 0
          else if p.row < s.row then 1
          else if p.col > s.col then 2
          else 3;
        var q := Move(p, k);
        assert q.row == p.row + Directions[k].0 && q.col == p.col + Directions[k].1;
        assert |g[q.row]| == |g[0]| == |g[p.row]|;
        assert InBounds(g, q) && Manhattan(s, q) == n - 1;
        BallInsideLevel(g, s, q, n - 1);
        assert IsSea(g, p);
      }
    }
  }

  /** Without land, the shortest hop count to any cell is its Manhattan distance. */
  lemma OpenSeaShortest(g: Grid, s: Cell, p: Cell)
    requires Rectangular(g) && InBounds(g, s) && OpenSea(g) && InBounds(g, p)
    ensures ShortestHops(g, s, p, Manhattan(s, p))
  {
    var d := Manhattan(s, p);
    OpenSeaLevels(g, s, p, d);
    forall n: nat | n < d
      ensures !WithinHops(g, s, p, n)
    {
      OpenSeaLevels(g, s, p, n);
    }
    FirstLevelGivesShortest(g, s, p, d);
  }
}
