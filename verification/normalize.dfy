/** `compute_distance_field` of BFS/vis_bfs_1026.py as a whole: the
    breadth-first hop counts divided by 300, with the infinity sentinel kept
    on every cell the search never reached. */
module Normalization {
  import opened GridCells
  import opened SeaPaths
  import opened DistanceField
  import opened FieldLaws

  /** The divisor applied to the whole field on return. */
  const Scale: real := 300.0

  /** An entry of the returned field: `Infinity` is `np.inf`, which the
      division leaves infinite. */
  datatype Scaled = Infinity | Finite(value: real)

  /** One entry divided by `Scale`: infinity stays infinity, and a finite
      entry is a non-negative value that scales back to its hop count. */
  function Normalize(d: Dist): (v: Scaled)
    ensures v.Infinity? <==> d.Inf?
    ensures v.Finite? ==> v.value >= 0.0 && v.value * Scale == d.hops as real
  {
    match d
    case Inf => Infinity
    case Fin(n) => Finite(n as real / Scale)
  }

  /** The division loses nothing: different entries stay different. */
  lemma NormalizeInjective(d1: Dist, d2: Dist)
    ensures Normalize(d1) == Normalize(d2) <==> d1 == d2
  {
    if Normalize(d1) == Normalize(d2) && d1.Fin? && d2.Fin? {
      assert d1.hops as real == Normalize(d1).value * Scale == d2.hops as real;
    }
  }

  /** The division keeps the order of hop counts. */
  lemma NormalizeMonotone(a: nat, b: nat)
    ensures a <= b <==> Normalize(Fin(a)).value <= Normalize(Fin(b)).value
  {
    assert Normalize(Fin(a)).value * Scale == a as real;
    assert Normalize(Fin(b)).value * Scale == b as real;
  }

  /** The hop-count matrix divided entry by entry (`distance / 300.0`). */
  function NormalizeField(dist: seq<seq<Dist>>): (field: seq<seq<Scaled>>)
    ensures |field| == |dist| && forall r :: 0 <= r < |dist| ==> |field[r]| == |dist[r]|
    ensures forall p :: InBounds(dist, p) ==> InBounds(field, p) && At(field, p) == Normalize(At(dist, p))
  {
    seq(|dist|, r requires 0 <= r < |dist| => seq(|dist[r]|, c requires 0 <= c < |dist[r]| => Normalize(dist[r][c])))
  }

  /** `field` is the normalised distance field of `g` from `s`: grid-shaped,
      `Infinity` exactly on the cells without a sea path, and the shortest
      hop count divided by `Scale` on every other cell. */
  ghost predicate IsScaledField(g: Grid, s: Cell, field: seq<seq<Scaled>>)
  {
    && Rectangular(g)
    && Shape(field, |g|, Cols(g))
    && forall p :: InBounds(g, p) ==>
         && (At(field, p) == Infinity <==> Unreachable(g, s, p))
         && (forall d: nat :: ShortestHops(g, s, p, d) ==> At(field, p) == Finite(d as real / Scale))
  }

  /** `compute_distance_field(grid, start)` (BFS/vis_bfs_1026.py:8-39): the
      search followed by the division of the whole field. */
  method ComputeDistanceField(g: Grid, start: Cell) returns (field: seq<seq<Scaled>>)
    requires Rectangular(g) && InBounds(g, start)
    ensures IsScaledField(g, start, field)
    ensures At(field, start) == Finite(0.0)
  {
    var dist, visits := Search(g, start);
    field := NormalizeField(dist);
    forall p | InBounds(g, p)
      ensures && (At(field, p) == Infinity <==> Unreachable(g, start, p))
              && (forall d: nat :: ShortestHops(g, start, p, d) ==> At(field, p) == Finite(d as real / Scale))
    {
      assert InBounds(dist, p);
      EntryMatchesShortest(g, start, dist, p);
    }
  }

  /** Every finite entry is some shortest hop count divided by `Scale`. */
  lemma FiniteEntryIsShortest(g: Grid, s: Cell, field: seq<seq<Scaled>>, p: Cell) returns (d: nat)
    requires IsScaledField(g, s, field) && InBounds(g, s) && InBounds(g, p)
    requires At(field, p).Finite?
    ensures ShortestHops(g, s, p, d) && At(field, p).value == d as real / Scale
  {
    d := ReachableHasShortest(g, s, p);
  }

  /** Two normalised fields of the same grid and source are equal. */
  lemma ScaledFieldUnique(g: Grid, s: Cell, field1: seq<seq<Scaled>>, field2: seq<seq<Scaled>>)
    requires InBounds(g, s)
    requires IsScaledField(g, s, field1) && IsScaledField(g, s, field2)
    ensures field1 == field2
  {
    forall r | 0 <= r < |field1|
      ensures field1[r] == field2[r]
    {
      forall c | 0 <= c < |field1[r]|
        ensures field1[r][c] == field2[r][c]
      {
        var p := Cell(r, c);
        assert InBounds(g, p);
        if !Unreachable(g, s, p) {
          var d := ReachableHasShortest(g, s, p);
        }
      }
    }
  }

  /** Adjacent sea cells are both finite or both infinite, and their
      normalised distances differ by at most `1 / Scale`. */
  lemma ScaledNeighboursClose(g: Grid, s: Cell, field: seq<seq<Scaled>>, p: Cell, q: Cell)
    requires IsScaledField(g, s, field) && InBounds(g, s)
    requires IsSea(g, p) && IsSea(g, q) && Adjacent(p, q)
    ensures At(field, p).Finite? <==> At(field, q).Finite?
    ensures At(field, p).Finite? ==>
              -1.0 / Scale <= At(field, p).value - At(field, q).value <= 1.0 / Scale
  {
    AdjacentSymmetric(p, q);
    if At(field, p).Finite? {
      NeighbourReachable(g, s, p, q);
    }
    if At(field, q).Finite? {
      NeighbourReachable(g, s, q, p);
    }
    if At(field, p).Finite? && At(field, q).Finite? {
      var dp := ReachableHasShortest(g, s, p);
      var dq := ReachableHasShortest(g, s, q);
      NeighbourHops(g, s, p, q, dp, dq);
      NeighbourHops(g, s, q, p, dq, dp);
      assert At(field, p).value - At(field, q).value == (dp as real - dq as real) / Scale;
    }
  }
}
