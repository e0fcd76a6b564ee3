/** `compute_distance_field` of BFS/vis_bfs_1026.py before its final division:
    a breadth-first search from one source cell over a 4-connected sea mask,
    giving every cell its hop count or the infinity sentinel. */
module DistanceField {
  import opened GridCells
  import opened SeaPaths

  /** An entry of the hop-count field: `Inf` is the source's `np.inf`. */
  datatype Dist = Inf | Fin(hops: nat)

  /** `dist` is the hop-count field of `g` from `s`: same shape as the grid,
      the shortest sea-path length on every reachable cell and `Inf` on every
      other one. */
  ghost predicate IsDistanceField(g: Grid, s: Cell, dist: seq<seq<Dist>>)
  {
    && Rectangular(g)
    && Shape(dist, |g|, Cols(g))
    && forall p :: InBounds(g, p) ==>
         && (At(dist, p) == Inf <==> Unreachable(g, s, p))
         && (At(dist, p).Fin? ==> ShortestHops(g, s, p, At(dist, p).hops))
  }

  /** The entry of `dist` at `p`, `Inf` off the matrix. */
  function Get(dist: seq<seq<Dist>>, p: Cell): Dist
  {
    if InBounds(dist, p) then At(dist, p) else Inf
  }

  /** The hop count at `p`, for a cell whose entry is finite. */
  function HopsAt(dist: seq<seq<Dist>>, p: Cell): nat
  {
    if Get(dist, p).Fin? then Get(dist, p).hops else 0
  }

  /** The `visited` flag at `p`, false off the matrix. */
  function Flag(visited: seq<seq<bool>>, p: Cell): bool
  {
    InBounds(visited, p) && At(visited, p)
  }

  /** On a matrix shaped like the grid, the total lookups agree with indexing. */
  lemma LookupsInBounds(g: Grid, dist: seq<seq<Dist>>, visited: seq<seq<bool>>)
    requires Rectangular(g) && Shape(dist, |g|, Cols(g)) && Shape(visited, |g|, Cols(g))
    ensures forall p :: InBounds(g, p) ==> InBounds(dist, p) && Get(dist, p) == At(dist, p)
    ensures forall p :: InBounds(g, p) ==> InBounds(visited, p) && Flag(visited, p) == At(visited, p)
    ensures forall p :: !InBounds(g, p) ==> Get(dist, p) == Inf && !Flag(visited, p)
  {
  }

  /** The matrices have the grid's shape and the source is on it. */
  ghost predicate Frame(g: Grid, start: Cell, dist: seq<seq<Dist>>, visited: seq<seq<bool>>)
  {
    Rectangular(g) && InBounds(g, start) && Shape(dist, |g|, Cols(g)) && Shape(visited, |g|, Cols(g))
  }

  /** `visits` (everything ever appended to the queue) starts at the source and
      holds distinct on-grid cells, only sea after the source. */
  ghost predicate QueueOk(g: Grid, start: Cell, visits: seq<Cell>)
  {
    && |visits| >= 1 && visits[0] == start
    && (forall i :: 0 <= i < |visits| ==> InBounds(g, visits[i]))
    && Distinct(visits)
    && (forall i :: 1 <= i < |visits| ==> IsSea(g, visits[i]))
  }

  /** The visited cells are exactly the queued ones, and exactly those with a
      finite entry. */
  ghost predicate FlagsOk(dist: seq<seq<Dist>>, visited: seq<seq<bool>>, visits: seq<Cell>)
  {
    && (forall q :: Flag(visited, q) <==> q in visits)
    && (forall q :: Get(dist, q).Fin? <==> Flag(visited, q))
  }

  /** The source has 0, every recorded count is a level the cell really lies
      in, and counts never decrease along the queue. */
  ghost predicate LevelsOk(g: Grid, start: Cell, dist: seq<seq<Dist>>, visits: seq<Cell>)
  {
    && Get(dist, start) == Fin(0)
    && (forall i :: 0 <= i < |visits| ==> WithinHops(g, start, visits[i], HopsAt(dist, visits[i])))
    && (forall i, j :: 0 <= i <= j < |visits| ==> HopsAt(dist, visits[i]) <= HopsAt(dist, visits[j]))
  }

  /** What the search keeps true between steps. */
  ghost predicate Consistent(g: Grid, start: Cell, dist: seq<seq<Dist>>, visited: seq<seq<bool>>, visits: seq<Cell>)
  {
    && Frame(g, start, dist, visited)
    && QueueOk(g, start, visits)
    && FlagsOk(dist, visited, visits)
    && LevelsOk(g, start, dist, visits)
  }

  /** Every cell dequeued so far (`visits[..head]`) has had its four neighbours
      examined: each sea neighbour is on the queue, at most one hop further. */
  ghost predicate Expanded(g: Grid, dist: seq<seq<Dist>>, visits: seq<Cell>, head: nat)
    requires head <= |visits|
  {
    forall i, k :: 0 <= i < head && 0 <= k < 4 && IsSea(g, Move(visits[i], k)) ==>
      Get(dist, Move(visits[i], k)).Fin? &&
      HopsAt(dist, Move(visits[i], k)) <= HopsAt(dist, visits[i]) + 1
  }

  /** Expansion facts survive appending to the queue, since finite entries are
      never overwritten. */
  lemma ExpandedStable(g: Grid, dist: seq<seq<Dist>>, visits: seq<Cell>, dist': seq<seq<Dist>>, visits': seq<Cell>, head: nat)
    requires head <= |visits| <= |visits'| && visits'[..|visits|] == visits
    requires Expanded(g, dist, visits, head)
    requires forall q :: Get(dist, q).Fin? ==> Get(dist', q) == Get(dist, q)
    ensures Expanded(g, dist', visits', head)
  {
    forall i, k | 0 <= i < head && 0 <= k < 4 && IsSea(g, Move(visits'[i], k))
      ensures Get(dist', Move(visits'[i], k)).Fin?
      ensures HopsAt(dist', Move(visits'[i], k)) <= HopsAt(dist', visits'[i]) + 1
    {
      assert visits'[i] == visits[i];
    }
  }

  /** Overwriting one entry changes the total lookup at that cell only. */
  lemma UpdateGet(dist: seq<seq<Dist>>, q: Cell, v: Dist)
    requires InBounds(dist, q)
    ensures forall x :: Get(Update(dist, q, v), x) == if x == q then v else Get(dist, x)
  {
  }

  lemma UpdateFlag(visited: seq<seq<bool>>, q: Cell)
    requires InBounds(visited, q)
    ensures forall x :: Flag(Update(visited, q, true), x) == (x == q || Flag(visited, x))
  {
  }

  /** Appending a new on-grid sea cell keeps the queue's own facts. */
  lemma AppendKeepsQueue(g: Grid, start: Cell, visits: seq<Cell>, q: Cell)
    requires QueueOk(g, start, visits)
    requires IsSea(g, q) && q !in visits
    ensures QueueOk(g, start, visits + [q])
  {
  }

  /** Marking `q` visited and giving it a finite entry while enqueueing it
      keeps the three views of "seen" in step. */
  lemma AppendKeepsFlags(dist: seq<seq<Dist>>, visited: seq<seq<bool>>, visits: seq<Cell>, q: Cell, d: nat)
    requires InBounds(dist, q) && InBounds(visited, q)
    requires FlagsOk(dist, visited, visits)
    ensures FlagsOk(Update(dist, q, Fin(d)), Update(visited, q, true), visits + [q])
  {
    UpdateGet(dist, q, Fin(d));
    UpdateFlag(visited, q);
    assert forall x :: x in visits + [q] <==> x == q || x in visits;
  }

  /** Giving a newly enqueued cell `q` the count `d` keeps every recorded
      count a true level and keeps counts non-decreasing along the queue,
      provided `d` is a level of `q` and no earlier count exceeds it. */
  lemma AppendKeepsLevels(g: Grid, start: Cell, dist: seq<seq<Dist>>, visits: seq<Cell>, q: Cell, d: nat)
    requires InBounds(dist, q) && q != start && q !in visits
    requires LevelsOk(g, start, dist, visits)
    requires WithinHops(g, start, q, d)
    requires forall i :: 0 <= i < |visits| ==> HopsAt(dist, visits[i]) <= d
    ensures LevelsOk(g, start, Update(dist, q, Fin(d)), visits + [q])
  {
    var (dist', visits') := (Update(dist, q, Fin(d)), visits + [q]);
    UpdateGet(dist, q, Fin(d));
    assert forall i :: 0 <= i < |visits| ==> visits'[i] == visits[i] && HopsAt(dist', visits[i]) == HopsAt(dist, visits[i]);
  }

  /** Enqueueing an unvisited sea cell with a true level no smaller than any
      recorded count keeps the search state consistent. */
  lemma EnqueueConsistent(g: Grid, start: Cell, dist: seq<seq<Dist>>, visited: seq<seq<bool>>, visits: seq<Cell>, q: Cell, d: nat)
    requires Consistent(g, start, dist, visited, visits)
    requires IsSea(g, q) && q !in visits
    requires WithinHops(g, start, q, d)
    requires forall i :: 0 <= i < |visits| ==> HopsAt(dist, visits[i]) <= d
    ensures Consistent(g, start, Update(dist, q, Fin(d)), Update(visited, q, true), visits + [q])
  {
    LookupsInBounds(g, dist, visited);
    assert q != start;
    AppendKeepsQueue(g, start, visits, q);
    AppendKeepsFlags(dist, visited, visits, q, d);
    AppendKeepsLevels(g, start, dist, visits, q, d);
  }

  /** One pass of the inner loop (BFS/vis_bfs_1026.py:32-37): look at the
      `k`-th neighbour of the dequeued cell `p`; if it is on the grid, sea and
      not yet visited, give it `p`'s count plus one, mark it and enqueue it. */
  method VisitNeighbour(g: Grid, start: Cell, dist: seq<seq<Dist>>, visited: seq<seq<bool>>, visits: seq<Cell>, p: Cell, k: nat)
    returns (dist': seq<seq<Dist>>, visited': seq<seq<bool>>, visits': seq<Cell>)
    requires Consistent(g, start, dist, visited, visits)
    requires p in visits && k < 4
    requires forall i :: 0 <= i < |visits| ==> HopsAt(dist, visits[i]) <= HopsAt(dist, p) + 1
    ensures Consistent(g, start, dist', visited', visits')
    ensures visits' == if IsSea(g, Move(p, k)) && Move(p, k) !in visits then visits + [Move(p, k)] else visits
    ensures visits' == visits || (|visits'| == |visits| + 1 && visits'[..|visits|] == visits)
    ensures |visits'| <= |g| * Cols(g)
    ensures forall q :: Get(dist, q).Fin? ==> Get(dist', q) == Get(dist, q)
    ensures forall i :: 0 <= i < |visits'| ==> HopsAt(dist', visits'[i]) <= HopsAt(dist, p) + 1
    ensures IsSea(g, Move(p, k)) ==>
              Get(dist', Move(p, k)).Fin? && HopsAt(dist', Move(p, k)) <= HopsAt(dist, p) + 1
    ensures visits' != visits ==> Get(dist', Move(p, k)) == Fin(HopsAt(dist, p) + 1)
    ensures forall x :: x != Move(p, k) ==> Get(dist', x) == Get(dist, x)
  {
    var rows, cols := |g|, |g[0]|;
    dist', visited', visits' := dist, visited, visits;
    var q := Move(p, k);
    if 0 <= q.row < rows && 0 <= q.col < cols && g[q.row][q.col] == 0 && !visited[q.row][q.col] {
      var d := dist[p.row][p.col].hops;
      EnqueueStep(g, start, dist, visited, visits, p, k, d);
      dist' := Update(dist, q, Fin(d + 1));
      visited' := Update(visited, q, true);
      visits' := visits + [q];
    } else {
      SkipStep(g, start, dist, visited, visits, p, k);
    }
    DistinctCellsBound(visits', rows, cols);
  }

  /** The enqueue branch: the `k`-th neighbour `q` of `p` is an unvisited sea
      cell; it gets `p`'s count plus one. */
  lemma EnqueueStep(g: Grid, start: Cell, dist: seq<seq<Dist>>, visited: seq<seq<bool>>, visits: seq<Cell>, p: Cell, k: nat, d: nat)
    requires Consistent(g, start, dist, visited, visits)
    requires p in visits && k < 4
    requires forall i :: 0 <= i < |visits| ==> HopsAt(dist, visits[i]) <= HopsAt(dist, p) + 1
    requires InBounds(dist, p) && d == At(dist, p).hops
    requires InBounds(visited, Move(p, k)) && !At(visited, Move(p, k))
    requires InBounds(g, Move(p, k)) && At(g, Move(p, k)) == 0
    ensures var (q, dist', visits') := (Move(p, k), Update(dist, Move(p, k), Fin(d + 1)), visits + [Move(p, k)]);
      && Consistent(g, start, dist', Update(visited, q, true), visits')
      && IsSea(g, q) && q !in visits
      && |visits'| == |visits| + 1 && visits'[..|visits|] == visits
      && (forall x :: Get(dist, x).Fin? ==> Get(dist', x) == Get(dist, x))
      && (forall i :: 0 <= i < |visits'| ==> HopsAt(dist', visits'[i]) <= HopsAt(dist, p) + 1)
      && Get(dist', q).Fin? && HopsAt(dist', q) <= HopsAt(dist, p) + 1
      && Get(dist', q) == Fin(d + 1)
      && (forall x :: x != q ==> Get(dist', x) == Get(dist, x))
  {
    var q := Move(p, k);
    LookupsInBounds(g, dist, visited);
    assert WithinHops(g, start, q, d + 1) by {
      MoveOpposite(p, k);
      assert IsSea(g, q) && WithinHops(g, start, Move(q, Opposite(k)), d);
    }
    EnqueueConsistent(g, start, dist, visited, visits, q, d + 1);
    UpdateGet(dist, q, Fin(d + 1));
    var visits' := visits + [q];
    assert visits'[..|visits|] == visits;
    assert forall i :: 0 <= i < |visits| ==> visits'[i] == visits[i];
  }

  /** The skip branch: the `k`-th neighbour of `p` is off the grid, land, or
      already visited, and in the last case already at most one hop further. */
  lemma SkipStep(g: Grid, start: Cell, dist: seq<seq<Dist>>, visited: seq<seq<bool>>, visits: seq<Cell>, p: Cell, k: nat)
    requires Consistent(g, start, dist, visited, visits)
    requires p in visits && k < 4
    requires forall i :: 0 <= i < |visits| ==> HopsAt(dist, visits[i]) <= HopsAt(dist, p) + 1
    requires !(InBounds(g, Move(p, k)) && At(g, Move(p, k)) == 0 && !At(visited, Move(p, k)))
    ensures !(IsSea(g, Move(p, k)) && Move(p, k) !in visits)
    ensures IsSea(g, Move(p, k)) ==>
              Get(dist, Move(p, k)).Fin? && HopsAt(dist, Move(p, k)) <= HopsAt(dist, p) + 1
  {
    LookupsInBounds(g, dist, visited);
    var q := Move(p, k);
    if IsSea(g, q) {
      assert Flag(visited, q);
      var i :| 0 <= i < |visits| && visits[i] == q;
    }
  }

  /** On termination every cell of level `n` has a hop count of at most `n`:
      the queue never misses a reachable cell, nor gives it too large a count. */
  lemma {:induction false} LevelsAreFound(g: Grid, s: Cell, dist: seq<seq<Dist>>, visited: seq<seq<bool>>, visits: seq<Cell>, p: Cell, n: nat)
    requires Consistent(g, s, dist, visited, visits)
    requires Expanded(g, dist, visits, |visits|)
    requires WithinHops(g, s, p, n)
    ensures Get(dist, p).Fin? && HopsAt(dist, p) <= n
    decreases n
  {
    if n > 0 && !WithinHops(g, s, p, n - 1) {
      var k :| 0 <= k < 4 && WithinHops(g, s, Move(p, k), n - 1);
      var q := Move(p, k);
      LevelsAreFound(g, s, dist, visited, visits, q, n - 1);
      var i :| 0 <= i < |visits| && visits[i] == q;
      MoveOpposite(p, k);
      assert Move(visits[i], Opposite(k)) == p;
    } else if n > 0 {
      LevelsAreFound(g, s, dist, visited, visits, p, n - 1);
    }
  }

  /** After the search, each entry is the shortest hop count, or `Inf` for a
      cell without a sea path. */
  lemma FieldEntryIsShortest(g: Grid, s: Cell, dist: seq<seq<Dist>>, visited: seq<seq<bool>>, visits: seq<Cell>, p: Cell)
    requires Consistent(g, s, dist, visited, visits)
    requires Expanded(g, dist, visits, |visits|)
    ensures Get(dist, p) == Inf <==> Unreachable(g, s, p)
    ensures Get(dist, p).Fin? ==> ShortestHops(g, s, p, Get(dist, p).hops)
  {
    UnreachableIsNoLevel(g, s, p);
    if Get(dist, p).Fin? {
      var d := Get(dist, p).hops;
      var i :| 0 <= i < |visits| && visits[i] == p;
      assert WithinHops(g, s, p, d);
      forall n: nat | n < d
        ensures !WithinHops(g, s, p, n)
      {
        if WithinHops(g, s, p, n) {
          LevelsAreFound(g, s, dist, visited, visits, p, n);
        }
      }
      FirstLevelGivesShortest(g, s, p, d);
    } else {
      forall n: nat
        ensures !WithinHops(g, s, p, n)
      {
        if WithinHops(g, s, p, n) {
          LevelsAreFound(g, s, dist, visited, visits, p, n);
        }
      }
    }
  }

  /** The first `k` neighbours of `p` have been examined: each sea one has a
      finite entry at most one more than `d`. */
  ghost predicate NeighboursSeen(g: Grid, dist: seq<seq<Dist>>, p: Cell, k: nat, d: nat)
    requires k <= 4
  {
    forall j :: 0 <= j < k && IsSea(g, Move(p, j)) ==>
      Get(dist, Move(p, j)).Fin? && HopsAt(dist, Move(p, j)) <= d + 1
  }

  lemma NeighboursSeenStep(g: Grid, dist: seq<seq<Dist>>, dist': seq<seq<Dist>>, p: Cell, k: nat, d: nat)
    requires k < 4 && NeighboursSeen(g, dist, p, k, d)
    requires forall q :: Get(dist, q).Fin? ==> Get(dist', q) == Get(dist, q)
    requires IsSea(g, Move(p, k)) ==> Get(dist', Move(p, k)).Fin? && HopsAt(dist', Move(p, k)) <= d + 1
    ensures NeighboursSeen(g, dist', p, k + 1, d)
  {
    forall j | 0 <= j < k + 1 && IsSea(g, Move(p, j))
      ensures Get(dist', Move(p, j)).Fin? && HopsAt(dist', Move(p, j)) <= d + 1
    {
      if j < k {
        assert Get(dist', Move(p, j)) == Get(dist, Move(p, j));
      }
    }
  }

  /** One round of the outer loop after `popleft` (BFS/vis_bfs_1026.py:30-37):
      the cell `visits[head - 1]` has just been dequeued, and its four
      neighbours are examined in the order of `Directions`. */
  method ExpandCell(g: Grid, start: Cell, dist: seq<seq<Dist>>, visited: seq<seq<bool>>, visits: seq<Cell>, head: nat)
    returns (dist': seq<seq<Dist>>, visited': seq<seq<bool>>, visits': seq<Cell>)
    requires Consistent(g, start, dist, visited, visits)
    requires 1 <= head <= |visits|
    requires forall i :: 0 <= i < |visits| ==> HopsAt(dist, visits[i]) <= HopsAt(dist, visits[head - 1]) + 1
    requires Expanded(g, dist, visits, head - 1)
    ensures Consistent(g, start, dist', visited', visits')
    ensures |visits| <= |visits'| <= |g| * Cols(g) && visits'[..|visits|] == visits
    ensures HopsAt(dist', visits[head - 1]) == HopsAt(dist, visits[head - 1])
    ensures forall q :: Get(dist, q).Fin? ==> Get(dist', q) == Get(dist, q)
    ensures forall i :: 0 <= i < |visits'| ==> HopsAt(dist', visits'[i]) <= HopsAt(dist, visits[head - 1]) + 1
    ensures Expanded(g, dist', visits', head)
  {
    var p := visits[head - 1];
    ghost var d := HopsAt(dist, p);
    dist', visited', visits' := dist, visited, visits;
    DistinctCellsBound(visits, |g|, Cols(g));
    var k := 0;
    while k < 4
      invariant 0 <= k <= 4
      invariant Consistent(g, start, dist', visited', visits')
      invariant |visits| <= |visits'| <= |g| * Cols(g) && visits'[..|visits|] == visits
      invariant Get(dist', p) == Get(dist, p)
      invariant forall q :: Get(dist, q).Fin? ==> Get(dist', q) == Get(dist, q)
      invariant forall i :: 0 <= i < |visits'| ==> HopsAt(dist', visits'[i]) <= d + 1
      invariant Expanded(g, dist', visits', head - 1)
      invariant NeighboursSeen(g, dist', p, k, d)
    {
      ghost var (dist0, visits0) := (dist', visits');
      assert p == visits0[head - 1];
      dist', visited', visits' := VisitNeighbour(g, start, dist', visited', visits', p, k);
      ExpandedStable(g, dist0, visits0, dist', visits', head - 1);
      PrefixGrows(visits, visits0, visits');
      NeighboursSeenStep(g, dist0, dist', p, k, d);
      k := k + 1;
    }
    ExpandedExtend(g, dist', visits', head, d);
  }

  lemma PrefixGrows(a: seq<Cell>, b: seq<Cell>, c: seq<Cell>)
    requires |a| <= |b| && b[..|a|] == a
    requires c == b || (|c| == |b| + 1 && c[..|b|] == b)
    ensures |a| <= |c| && c[..|a|] == a
  {
    if c != b {
      assert c[..|a|] == c[..|b|][..|a|];
    }
  }

  /** Once all four neighbours of `visits[head - 1]` are seen, one more queue
      entry counts as expanded. */
  lemma ExpandedExtend(g: Grid, dist: seq<seq<Dist>>, visits: seq<Cell>, head: nat, d: nat)
    requires 1 <= head <= |visits|
    requires Expanded(g, dist, visits, head - 1)
    requires HopsAt(dist, visits[head - 1]) == d
    requires NeighboursSeen(g, dist, visits[head - 1], 4, d)
    ensures Expanded(g, dist, visits, head)
  {
  }

  /** `compute_distance_field` without its final division
      (BFS/vis_bfs_1026.py:19-37): the search from `start`, returning the
      hop-count field together with `visits`, every cell in the order it was
      appended to the FIFO queue (the deque's `popleft` is the advance of
      `head`). */
  method Search(g: Grid, start: Cell) returns (dist: seq<seq<Dist>>, visits: seq<Cell>)
    requires Rectangular(g) && InBounds(g, start)
    ensures IsDistanceField(g, start, dist)
    ensures At(dist, start) == Fin(0)
    ensures |visits| >= 1 && visits[0] == start
    ensures forall i :: 0 <= i < |visits| ==> InBounds(g, visits[i])
    ensures Distinct(visits) && |visits| <= |g| * Cols(g)
    ensures forall i :: 1 <= i < |visits| ==> IsSea(g, visits[i])
    ensures forall p :: InBounds(g, p) ==> (p in visits <==> At(dist, p).Fin?)
    ensures forall i, j :: 0 <= i <= j < |visits| ==>
              At(dist, visits[i]).Fin? && At(dist, visits[j]).Fin? &&
              At(dist, visits[i]).hops <= At(dist, visits[j]).hops
  {
    var rows, cols := |g|, |g[0]|;
    dist := Fill(rows, cols, Inf);
    var visited := Fill(rows, cols, false);
    visits := [start];
    dist := Update(dist, start, Fin(0));
    visited := Update(visited, start, true);
    var head := 0;
    LookupsInBounds(g, dist, visited);
    assert WithinHops(g, start, start, 0);
    while head < |visits|
      invariant Consistent(g, start, dist, visited, visits)
      invariant head <= |visits| <= rows * cols
      invariant head < |visits| ==>
                  forall i :: 0 <= i < |visits| ==> HopsAt(dist, visits[i]) <= HopsAt(dist, visits[head]) + 1
      invariant Expanded(g, dist, visits, head)
      decreases rows * cols - head
    {
      head := head + 1;
      ghost var d := HopsAt(dist, visits[head - 1]);
      dist, visited, visits := ExpandCell(g, start, dist, visited, visits, head);
      if head < |visits| {
        assert d <= HopsAt(dist, visits[head]);
      }
    }
    LookupsInBounds(g, dist, visited);
    forall p | InBounds(g, p)
      ensures && (At(dist, p) == Inf <==> Unreachable(g, start, p))
              && (At(dist, p).Fin? ==> ShortestHops(g, start, p, At(dist, p).hops))
    {
      FieldEntryIsShortest(g, start, dist, visited, visits, p);
    }
  }
}
