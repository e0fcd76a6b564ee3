/** Cells, rectangular grids and the 4-neighbourhood used by the breadth-first
    search of BFS/vis_bfs_1026.py. */
module GridCells {

  /** A (row, col) coordinate; it may lie outside any particular grid. */
  datatype Cell = Cell(row: int, col: int)

  /** A land/sea mask: 0 is sea (traversable), every other value is land. */
  type Grid = seq<seq<int>>

  /** Every row has the length of the first one, as for a 2-D numpy array. */
  predicate Rectangular<T>(m: seq<seq<T>>)
  {
    forall r :: 0 <= r < |m| ==> |m[r]| == |m[0]|
  }

  /** Number of columns of a rectangular matrix (0 when it has no rows). */
  function Cols<T>(m: seq<seq<T>>): nat
  {
    if |m| == 0 then 0 else |m[0]|
  }

  /** Every row of a rectangular matrix has `Cols` entries. */
  lemma RowsHaveCols<T>(m: seq<seq<T>>)
    requires Rectangular(m)
    ensures forall r :: 0 <= r < |m| ==> |m[r]| == Cols(m)
  {
  }

  /** `m` has exactly `rows` rows of exactly `cols` entries each. */
  predicate Shape<T>(m: seq<seq<T>>, rows: nat, cols: nat)
  {
    |m| == rows && forall r :: 0 <= r < rows ==> |m[r]| == cols
  }

  predicate InBounds<T>(m: seq<seq<T>>, p: Cell)
  {
    0 <= p.row < |m| && 0 <= p.col < |m[p.row]|
  }

  function At<T>(m: seq<seq<T>>, p: Cell): T
    requires InBounds(m, p)
  {
    m[p.row][p.col]
  }

  /** `p` moved by the offset `d`, and back. */
  function Shift(p: Cell, d: Cell): Cell
  {
    Cell(p.row + d.row, p.col + d.col)
  }

  function Unshift(p: Cell, d: Cell): Cell
  {
    Cell(p.row - d.row, p.col - d.col)
  }

  predicate IsSea(g: Grid, p: Cell)
  {
    InBounds(g, p) && At(g, p) == 0
  }

  /** A `rows` x `cols` matrix holding `v` everywhere (numpy's `np.full`). */
  function Fill<T>(rows: nat, cols: nat, v: T): (m: seq<seq<T>>)
    ensures Shape(m, rows, cols)
    ensures forall p: Cell :: 0 <= p.row < rows && 0 <= p.col < cols ==> At(m, p) == v
  {
    seq(rows, _ => seq(cols, _ => v))
  }

  /** `m` with the entry at `p` replaced by `v` (numpy's `m[p] = v`). */
  function Update<T>(m: seq<seq<T>>, p: Cell, v: T): (m': seq<seq<T>>)
    requires InBounds(m, p)
    ensures |m'| == |m| && forall r :: 0 <= r < |m| ==> |m'[r]| == |m[r]|
    ensures InBounds(m', p) && At(m', p) == v
    ensures forall q :: InBounds(m, q) && q != p ==> At(m', q) == At(m, q)
  {
    m[p.row := m[p.row][p.col := v]]
  }

  /** The four offsets examined from every dequeued cell, in the source's order:
      up, down, left, right. */
  const Directions: seq<(int, int)> := [(-1, 0), (1, 0), (0, -1), (0, 1)]

  /** The `k`-th neighbour of `p`. */
  function Move(p: Cell, k: nat): Cell
    requires k < 4
  {
    Cell(p.row + Directions[k].0, p.col + Directions[k].1)
  }

  /** The direction that undoes direction `k`. */
  function Opposite(k: nat): (k': nat)
    requires k < 4
    ensures k' < 4
  {
    [1, 0, 3, 2][k]
  }

  function Abs(x: int): nat
  {
    if x < 0 then -x else x
  }

  /** 4-connectivity, stated independently of `Directions`: the cells differ by
      one step in exactly one coordinate. */
  predicate Adjacent(p: Cell, q: Cell)
  {
    Abs(p.row - q.row) + Abs(p.col - q.col) == 1
  }

  /** Stepping in direction `k` and then in the opposite direction returns to the start. */
  lemma MoveOpposite(p: Cell, k: nat)
    requires k < 4
    ensures Move(Move(p, k), Opposite(k)) == p
  {
    if k == 0 {
      assert Move(p, 0) == Cell(p.row - 1, p.col);
    } else if k == 1 {
      assert Move(p, 1) == Cell(p.row + 1, p.col);
    } else if k == 2 {
      assert Move(p, 2) == Cell(p.row, p.col - 1);
    } else {
      assert Move(p, 3) == Cell(p.row, p.col + 1);
    }
  }

  /** The four directions reach exactly the 4-adjacent cells: every `Move` is
      adjacent, and every adjacent cell is reached by some `Move`. */
  lemma MovesAreNeighbours(p: Cell, q: Cell)
    ensures Adjacent(p, q) <==> exists k :: 0 <= k < 4 && Move(p, k) == q
  {
    assert Move(p, 0) == Cell(p.row - 1, p.col);
    assert Move(p, 1) == Cell(p.row + 1, p.col);
    assert Move(p, 2) == Cell(p.row, p.col - 1);
    assert Move(p, 3) == Cell(p.row, p.col + 1);
    if Adjacent(p, q) {
      if q.row == p.row - 1 {
        assert Move(p, 0) == q;
      } else if q.row == p.row + 1 {
        assert Move(p, 1) == q;
      } else if q.col == p.col - 1 {
        assert Move(p, 2) == q;
      } else {
        assert Move(p, 3) == q;
      }
    }
  }

  /** The in-bounds cells of a `rows` x `cols` grid, built row by row. */
  ghost function Box(rows: nat, cols: nat): set<Cell>
  {
    if rows == 0 then {} else Box(rows - 1, cols) + RowCells(rows - 1, cols)
  }

  ghost function RowCells(r: int, cols: nat): set<Cell>
  {
    if cols == 0 then {} else RowCells(r, cols - 1) + {Cell(r, cols - 1)}
  }

  lemma {:induction false} RowCellsMembers(r: int, cols: nat)
    ensures forall p :: p in RowCells(r, cols) <==> p.row == r && 0 <= p.col < cols
  {
    if cols > 0 {
      RowCellsMembers(r, cols - 1);
    }
  }

  lemma {:induction false} RowCellsSize(r: int, cols: nat)
    ensures |RowCells(r, cols)| == cols
  {
    if cols > 0 {
      RowCellsSize(r, cols - 1);
      assert Cell(r, cols - 1) !in RowCells(r, cols - 1) by {
        RowCellsMembers(r, cols - 1);
      }
    }
  }

  lemma {:induction false} BoxMembers(rows: nat, cols: nat)
    ensures forall p :: p in Box(rows, cols) <==> 0 <= p.row < rows && 0 <= p.col < cols
  {
    if rows > 0 {
      BoxMembers(rows - 1, cols);
      RowCellsMembers(rows - 1, cols);
    }
  }

  lemma {:induction false} BoxSize(rows: nat, cols: nat)
    ensures |Box(rows, cols)| == rows * cols
  {
    if rows > 0 {
      BoxSize(rows - 1, cols);
      RowCellsSize(rows - 1, cols);
      NewRowIsDisjoint(rows - 1, cols);
      ProductStep(rows, cols);
    }
  }

  /** Row `r` shares no cell with the rows above it. */
  lemma NewRowIsDisjoint(r: nat, cols: nat)
    ensures Box(r, cols) !! RowCells(r, cols)
  {
    BoxMembers(r, cols);
    RowCellsMembers(r, cols);
  }

  lemma ProductStep(rows: nat, cols: nat)
    requires rows > 0
    ensures (rows - 1) * cols + cols == rows * cols
  {
  }

  ghost predicate Distinct(xs: seq<Cell>)
  {
    forall i, j :: 0 <= i < j < |xs| ==> xs[i] != xs[j]
  }

  lemma {:induction false} DistinctElements(xs: seq<Cell>)
    requires Distinct(xs)
    ensures |set i | 0 <= i < |xs| :: xs[i]| == |xs|
  {
    if |xs| > 0 {
      var init := xs[..|xs| - 1];
      DistinctElements(init);
      var s := set i | 0 <= i < |xs| :: xs[i];
      var t := set i | 0 <= i < |init| :: init[i];
      assert s == t + {xs[|xs| - 1]};
      assert xs[|xs| - 1] !in t;
    }
  }

  /** A sequence of pairwise different cells of a `rows` x `cols` grid has at
      most `rows * cols` elements. */
  lemma DistinctCellsBound(xs: seq<Cell>, rows: nat, cols: nat)
    requires Distinct(xs)
    requires forall i :: 0 <= i < |xs| ==> 0 <= xs[i].row < rows && 0 <= xs[i].col < cols
    ensures |xs| <= rows * cols
  {
    DistinctElements(xs);
    BoxMembers(rows, cols);
    BoxSize(rows, cols);
    var s := set i | 0 <= i < |xs| :: xs[i];
    assert s <= Box(rows, cols);
    assert |s| <= |Box(rows, cols)| by {
      SubsetCard(s, Box(rows, cols));
    }
  }

  lemma {:induction false} SubsetCard(a: set<Cell>, b: set<Cell>)
    requires a <= b
    ensures |a| <= |b|
  {
    if a != {} {
      var x :| x in a;
      SubsetCard(a - {x}, b - {x});
    }
  }
}
