/** Properties of the hop-count field that follow from its definition alone,
    and so hold for whatever `Search` returns: the source is at zero, land is
    unreachable, sea neighbours differ by at most one hop, the field is
    unique, and on open sea it is the Manhattan distance. */
module FieldLaws {
  import opened GridCells
  import opened SeaPaths
  import opened DistanceField

  /** The source is at distance zero. */
  lemma SourceIsZero(g: Grid, s: Cell, dist: seq<seq<Dist>>)
    requires IsDistanceField(g, s, dist) && InBounds(g, s)
    ensures At(dist, s) == Fin(0)
  {
    var alone := [s];
    assert PathTo(g, s, alone, s);
    assert ShortestHops(g, s, s, 0);
    ShortestHopsUnique(g, s, s, 0, At(dist, s).hops);
  }

  /** Land other than the source is never entered, so its entry stays infinite. */
  lemma LandIsInfinite(g: Grid, s: Cell, dist: seq<seq<Dist>>, p: Cell)
    requires IsDistanceField(g, s, dist)
    requires InBounds(g, p) && !IsSea(g, p) && p != s
    ensures At(dist, p) == Inf
  {
    assert Unreachable(g, s, p);
  }

  /** Adjacent sea cells are both reachable or both unreachable, and their hop
      counts differ by at most one. */
  lemma NeighboursDifferByOne(g: Grid, s: Cell, dist: seq<seq<Dist>>, p: Cell, q: Cell)
    requires IsDistanceField(g, s, dist) && InBounds(g, s)
    requires IsSea(g, p) && IsSea(g, q) && Adjacent(p, q)
    ensures At(dist, p).Fin? <==> At(dist, q).Fin?
    ensures At(dist, p).Fin? ==> At(dist, p).hops <= At(dist, q).hops + 1 && At(dist, q).hops <= At(dist, p).hops + 1
  {
    AdjacentSymmetric(p, q);
    if At(dist, p).Fin? {
      NeighbourReachable(g, s, p, q);
    }
    if At(dist, q).Fin? {
      NeighbourReachable(g, s, q, p);
    }
    if At(dist, p).Fin? && At(dist, q).Fin? {
      NeighbourHops(g, s, p, q, At(dist, p).hops, At(dist, q).hops);
      NeighbourHops(g, s, q, p, At(dist, q).hops, At(dist, p).hops);
    }
  }

  /** A reachable cell's entry is its shortest hop count, whichever shortest
      count one names; an unreachable cell's entry is `Inf`. */
  lemma EntryMatchesShortest(g: Grid, s: Cell, dist: seq<seq<Dist>>, p: Cell)
    requires IsDistanceField(g, s, dist) && InBounds(g, s) && InBounds(g, p)
    ensures forall d: nat :: ShortestHops(g, s, p, d) ==> At(dist, p) == Fin(d)
    ensures Unreachable(g, s, p) ==> At(dist, p) == Inf
  {
    forall d: nat | ShortestHops(g, s, p, d)
      ensures At(dist, p) == Fin(d)
    {
      var path :| PathTo(g, s, path, p) && |path| == d + 1;
      ShortestHopsUnique(g, s, p, d, At(dist, p).hops);
    }
  }

  /** Two hop-count fields of the same grid and source are equal: the search
      is deterministic in what it returns. */
  lemma DistanceFieldUnique(g: Grid, s: Cell, dist1: seq<seq<Dist>>, dist2: seq<seq<Dist>>)
    requires InBounds(g, s)
    requires IsDistanceField(g, s, dist1) && IsDistanceField(g, s, dist2)
    ensures dist1 == dist2
  {
    forall r | 0 <= r < |dist1|
      ensures dist1[r] == dist2[r]
    {
      forall c | 0 <= c < |dist1[r]|
        ensures dist1[r][c] == dist2[r][c]
      {
        var p := Cell(r, c);
        if At(dist1, p).Fin? {
          EntryMatchesShortest(g, s, dist2, p);
        } else {
          EntryMatchesShortest(g, s, dist2, p);
        }
      }
    }
  }

  /** On a grid that is all sea, every entry is the Manhattan distance to the source. */
  lemma OpenSeaField(g: Grid, s: Cell, dist: seq<seq<Dist>>)
    requires IsDistanceField(g, s, dist) && InBounds(g, s) && OpenSea(g)
    ensures forall p :: InBounds(g, p) ==> At(dist, p) == Fin(Manhattan(s, p))
  {
    forall p | InBounds(g, p)
      ensures At(dist, p) == Fin(Manhattan(s, p))
    {
      OpenSeaShortest(g, s, p);
      EntryMatchesShortest(g, s, dist, p);
    }
  }

  /** A 3 x 3 open sea searched from its middle cell. */
  lemma OpenSquareExample(dist: seq<seq<Dist>>)
    requires IsDistanceField([[0, 0, 0], [0, 0, 0], [0, 0, 0]], Cell(1, 1), dist)
    ensures dist == [[Fin(2), Fin(1), Fin(2)], [Fin(1), Fin(0), Fin(1)], [Fin(2), Fin(1), Fin(2)]]
  {
    var g: Grid := [[0, 0, 0], [0, 0, 0], [0, 0, 0]];
    assert OpenSea(g);
    OpenSeaField(g, Cell(1, 1), dist);
    SquareOfManhattan(dist);
  }

  lemma SquareOfManhattan(dist: seq<seq<Dist>>)
    requires Shape(dist, 3, 3)
    requires forall p: Cell :: 0 <= p.row < 3 && 0 <= p.col < 3 ==> At(dist, p) == Fin(Manhattan(Cell(1, 1), p))
    ensures dist == [[Fin(2), Fin(1), Fin(2)], [Fin(1), Fin(0), Fin(1)], [Fin(2), Fin(1), Fin(2)]]
  {
    RowOfManhattan(dist, 0, 1);
    RowOfManhattan(dist, 1, 0);
    RowOfManhattan(dist, 2, 1);
    assert dist == [dist[0], dist[1], dist[2]];
  }

  lemma RowOfManhattan(dist: seq<seq<Dist>>, r: nat, e: nat)
    requires Shape(dist, 3, 3) && r < 3 && e == Abs(r - 1)
    requires forall p: Cell :: 0 <= p.row < 3 && 0 <= p.col < 3 ==> At(dist, p) == Fin(Manhattan(Cell(1, 1), p))
    ensures dist[r] == [Fin(e + 1), Fin(e), Fin(e + 1)]
  {
    assert At(dist, Cell(r, 0)) == Fin(e + 1);
    assert At(dist, Cell(r, 1)) == Fin(e);
    assert At(dist, Cell(r, 2)) == Fin(e + 1);
  }

  /** A single row whose second cell is land, searched from its first cell:
      the wall cuts off everything beyond it. */
  lemma WallExample(dist: seq<seq<Dist>>)
    requires IsDistanceField([[0, 1, 0, 0, 0]], Cell(0, 0), dist)
    ensures dist == [[Fin(0), Inf, Inf, Inf, Inf]]
  {
    var g: Grid := [[0, 1, 0, 0, 0]];
    var s := Cell(0, 0);
    SourceIsZero(g, s, dist);
    forall c | 1 <= c < 5
      ensures dist[0][c] == Inf
    {
      var p := Cell(0, c);
      assert InBounds(g, p);
      forall path
        ensures !PathTo(g, s, path, p)
      {
        if IsSeaPath(g, s, path) {
          WallStopsEveryPath(path);
        }
      }
    }
    assert dist[0] == [Fin(0), Inf, Inf, Inf, Inf];
  }

  /** In the row `[0, 1, 0, 0, 0]`, no sea path leaves the first cell. */
  lemma WallStopsEveryPath(path: seq<Cell>)
    requires IsSeaPath([[0, 1, 0, 0, 0]], Cell(0, 0), path)
    ensures |path| == 1
  {
    var g: Grid := [[0, 1, 0, 0, 0]];
    assert !(|path| >= 2 && path[0] == Cell(0, 0) && InBounds(g, path[1]) && IsSea(g, path[1]) && Adjacent(path[0], path[1]));
  }
}
