/** `crop_centered_subregion_with_offset` of BFS/vis_bfs_1026.py: a window of
    a requested size around a center cell, clipped to the array, together with
    the center's position inside the clipped window. */
module RegionCrop {
  import opened GridCells

  /** The cropped sub-array and `center_in_crop`, the center's (row, col)
      measured from the cropped array's top-left corner. */
  datatype CropResult<T> = CropResult(region: seq<seq<T>>, center: Cell)

  /** The clipped window: rows `[rowMin, rowMax)` and columns `[colMin, colMax)`. */
  datatype Window = Window(rowMin: int, rowMax: int, colMin: int, colMax: int)

  function Min(a: int, b: int): int
  {
    if a <= b then a else b
  }

  function Max(a: int, b: int): int
  {
    if a >= b then a else b
  }

  predicate InSpan(x: int, lo: int, hi: int)
  {
    lo <= x < hi
  }

  /** `p` lies in the unclipped `h` x `w` window around `center`: rows
      `[r - h // 2, r - h // 2 + h)` and columns `[c - w // 2, c - w // 2 + w)`.
      Dafny's `/` rounds down for the positive divisor 2, as Python's `//`
      does, so an even size puts its extra row or column after the center. */
  predicate InWindow(center: Cell, h: int, w: int, p: Cell)
  {
    && InSpan(p.row, center.row - h / 2, center.row - h / 2 + h)
    && InSpan(p.col, center.col - w / 2, center.col - w / 2 + w)
  }

  /** The bounds of BFS/vis_bfs_1026.py:52-57 for an array of `height` rows
      and `width` columns: the unclipped window cut to `[0, height]` and
      `[0, width]`. On the array, a row or column is inside the bounds exactly
      when it is inside the unclipped window, and neither side exceeds the
      requested size. */
  function ClipWindow(height: nat, width: nat, center: Cell, h: int, w: int): (b: Window)
    ensures 0 <= b.rowMin && b.rowMax <= height && 0 <= b.colMin && b.colMax <= width
    ensures b.rowMax - b.rowMin <= h && b.colMax - b.colMin <= w
    ensures forall x :: 0 <= x < height ==>
              (InSpan(x, b.rowMin, b.rowMax) <==> InSpan(x, center.row - h / 2, center.row - h / 2 + h))
    ensures forall y :: 0 <= y < width ==>
              (InSpan(y, b.colMin, b.colMax) <==> InSpan(y, center.col - w / 2, center.col - w / 2 + w))
  {
    var dh, dw := h / 2, w / 2;
    Window(Max(0, center.row - dh), Min(height, center.row + h - dh),
           Max(0, center.col - dw), Min(width, center.col + w - dw))
  }

  /** Python's normalisation of one bound of a step-1 slice of a length-`n`
      sequence: a negative bound counts from the end, then the bound is
      clamped to `[0, n]`. */
  function SliceBound(i: int, n: nat): (b: nat)
    ensures b <= n
    ensures 0 <= i ==> b == Min(i, n)
    ensures i < 0 ==> b == Max(0, n + i)
  {
    if i < 0 then (if n + i < 0 then 0 else n + i)
    else if i > n then n
    else i
  }

  /** `s[lo:hi]` with Python's (and numpy's) slice semantics. */
  function PySlice<T>(s: seq<T>, lo: int, hi: int): (r: seq<T>)
    ensures |r| <= |s|
    ensures 0 <= lo <= hi <= |s| ==> r == s[lo..hi]
    ensures 0 <= lo && 0 <= hi ==> |r| == Max(0, Min(hi, |s|) - Min(lo, |s|))
  {
    var a, b := SliceBound(lo, |s|), SliceBound(hi, |s|);
    if a < b then s[a..b] else []
  }

  /** numpy's `a[rowMin:rowMax, colMin:colMax]` for a rectangular `a`. */
  function SliceRegion<T>(a: seq<seq<T>>, b: Window): (r: seq<seq<T>>)
    requires Rectangular(a)
    ensures |r| <= |a|
    ensures forall i :: 0 <= i < |r| ==> |r[i]| <= Cols(a)
  {
    var rows := PySlice(a, b.rowMin, b.rowMax);
    assert forall i :: 0 <= i < |rows| ==> |rows[i]| == Cols(a) by {
      if 0 < |rows| {
        var lo := SliceBound(b.rowMin, |a|);
        assert forall i :: 0 <= i < |rows| ==> rows[i] == a[lo + i];
      }
    }
    seq(|rows|, i requires 0 <= i < |rows| => PySlice(rows[i], b.colMin, b.colMax))
  }

  /** The crop exactly as BFS/vis_bfs_1026.py:49-64 computes it: numpy slicing
      of both axes with the clipped bounds. A negative upper bound counts
      from the end of the axis; the bounds are built so that this happens
      only when the whole window lies before the array. */
  function CropAsWritten<T>(a: seq<seq<T>>, center: Cell, h: int, w: int): (c: CropResult<T>)
    requires Rectangular(a)
    ensures |c.region| <= |a|
    ensures forall i :: 0 <= i < |c.region| ==> |c.region[i]| <= Cols(a)
  {
    var b := ClipWindow(|a|, Cols(a), center, h, w);
    CropResult(SliceRegion(a, b), Cell(center.row - b.rowMin, center.col - b.colMin))
  }

  /** The `n` x `m` sub-matrix of `a` whose top-left entry is `a[corner]`. */
  function Extract<T>(a: seq<seq<T>>, corner: Cell, n: nat, m: nat): (r: seq<seq<T>>)
    requires 0 <= corner.row && corner.row + n <= |a| && 0 <= corner.col
    requires forall i :: 0 <= i < |a| ==> corner.col + m <= |a[i]|
    ensures |r| == n
    ensures forall i :: 0 <= i < n ==> |r[i]| == m
    ensures forall q :: InBounds(r, q) ==> InBounds(a, Shift(q, corner)) && At(r, q) == At(a, Shift(q, corner))
  {
    seq(n, i requires 0 <= i < n => a[corner.row + i][corner.col..corner.col + m])
  }

  /** The entries of `a` inside the window `b`, as numpy's
      `a[rowMin:rowMax, colMin:colMax]` returns them for non-negative bounds
      that do not pass the last row or column. */
  function Region<T>(a: seq<seq<T>>, b: Window): (r: seq<seq<T>>)
    requires 0 <= b.rowMin && b.rowMax <= |a| && 0 <= b.colMin
    requires forall i :: 0 <= i < |a| ==> b.colMax <= |a[i]|
    ensures |r| == Max(0, b.rowMax - b.rowMin)
    ensures forall i :: 0 <= i < |r| ==> |r[i]| == Max(0, b.colMax - b.colMin)
    ensures forall q :: InBounds(r, q) ==>
              InBounds(a, Shift(q, Cell(b.rowMin, b.colMin))) && At(r, q) == At(a, Shift(q, Cell(b.rowMin, b.colMin)))
  {
    var n, m := Max(0, b.rowMax - b.rowMin), Max(0, b.colMax - b.colMin);
    if n == 0 then []
    else if m == 0 then seq(n, _ => [])
    else Extract(a, Cell(b.rowMin, b.colMin), n, m)
  }

  /** The clipped crop: the part of `a` inside the `h` x `w` window around
      `center`, with the center's position inside it. The region is a
      rectangle no larger than the array or the window, and an on-array
      center with `h, w >= 1` is a valid index of the region holding the
      center's value. */
  function Crop<T>(a: seq<seq<T>>, center: Cell, h: int, w: int): (c: CropResult<T>)
    requires Rectangular(a)
    ensures |c.region| <= |a| && |c.region| <= Max(0, h)
    ensures forall i :: 0 <= i < |c.region| ==> |c.region[i]| == |c.region[0]| <= Max(0, w) && |c.region[0]| <= Cols(a)
    ensures InBounds(a, center) && h >= 1 && w >= 1 ==>
              InBounds(c.region, c.center) && At(c.region, c.center) == At(a, center)
  {
    var b := ClipWindow(|a|, Cols(a), center, h, w);
    RowsHaveCols(a);
    var r := Region(a, b);
    var off := Cell(center.row - b.rowMin, center.col - b.colMin);
    WindowInRegion(a, center, h, w, b, r, off);
    CropResult(r, off)
  }

  /** The crop is exactly the window: region cell `q` is array cell `q`
      shifted by `center - c.center`, that array cell lies in the window, and
      every on-array cell of the window appears in the region. */
  lemma CropIsWindow<T>(a: seq<seq<T>>, center: Cell, h: int, w: int)
    requires Rectangular(a)
    ensures var c := Crop(a, center, h, w);
      forall q :: InBounds(c.region, q) ==>
        var p := Shift(q, Unshift(center, c.center));
        InBounds(a, p) && InWindow(center, h, w, p) && At(c.region, q) == At(a, p)
    ensures var c := Crop(a, center, h, w);
      forall p :: InBounds(a, p) && InWindow(center, h, w, p) ==>
        InBounds(c.region, Unshift(p, Unshift(center, c.center)))
  {
    var b := ClipWindow(|a|, Cols(a), center, h, w);
    RowsHaveCols(a);
    var r := Region(a, b);
    var off := Cell(center.row - b.rowMin, center.col - b.colMin);
    assert Crop(a, center, h, w) == CropResult(r, off);
    RegionInWindow(a, center, h, w, b, r, off);
    WindowInRegion(a, center, h, w, b, r, off);
  }

  /** Every cell of the clipped region comes from an on-array cell of the window. */
  lemma RegionInWindow<T>(a: seq<seq<T>>, center: Cell, h: int, w: int, b: Window, r: seq<seq<T>>, off: Cell)
    requires forall i :: 0 <= i < |a| ==> |a[i]| == Cols(a)
    requires b == ClipWindow(|a|, Cols(a), center, h, w) && r == Region(a, b)
    requires off == Cell(center.row - b.rowMin, center.col - b.colMin)
    ensures forall q :: InBounds(r, q) ==>
              var p := Shift(q, Unshift(center, off));
              InBounds(a, p) && InWindow(center, h, w, p) && At(r, q) == At(a, p)
  {
    assert Unshift(center, off) == Cell(b.rowMin, b.colMin);
    forall q | InBounds(r, q)
      ensures InWindow(center, h, w, Shift(q, Cell(b.rowMin, b.colMin)))
    {
      assert InSpan(b.rowMin + q.row, b.rowMin, b.rowMax);
      assert InSpan(b.colMin + q.col, b.colMin, b.colMax);
    }
  }

  /** Every on-array cell of the window, and the on-array center, land inside
      the clipped region. */
  lemma WindowInRegion<T>(a: seq<seq<T>>, center: Cell, h: int, w: int, b: Window, r: seq<seq<T>>, off: Cell)
    requires forall i :: 0 <= i < |a| ==> |a[i]| == Cols(a)
    requires b == ClipWindow(|a|, Cols(a), center, h, w) && r == Region(a, b)
    requires off == Cell(center.row - b.rowMin, center.col - b.colMin)
    ensures forall p :: InBounds(a, p) && InWindow(center, h, w, p) ==>
              InBounds(r, Unshift(p, Unshift(center, off)))
    ensures InBounds(a, center) && h >= 1 && w >= 1 ==>
              InBounds(r, off) && At(r, off) == At(a, center)
  {
    assert Unshift(center, off) == Cell(b.rowMin, b.colMin);
    forall p | InBounds(a, p) && InWindow(center, h, w, p)
      ensures InBounds(r, Unshift(p, Cell(b.rowMin, b.colMin)))
    {
      assert InSpan(p.row, b.rowMin, b.rowMax);
      assert InSpan(p.col, b.colMin, b.colMax);
    }
    if InBounds(a, center) && h >= 1 && w >= 1 {
      assert InWindow(center, h, w, center);
      assert Unshift(center, Cell(b.rowMin, b.colMin)) == off;
      assert Shift(off, Cell(b.rowMin, b.colMin)) == center;
    }
  }

  /** The crop's shape and center in terms of the clipped bounds. */
  lemma CropShape<T>(a: seq<seq<T>>, center: Cell, h: int, w: int)
    requires Rectangular(a)
    ensures var b, c := ClipWindow(|a|, Cols(a), center, h, w), Crop(a, center, h, w);
      && |c.region| == Max(0, b.rowMax - b.rowMin)
      && (forall i :: 0 <= i < |c.region| ==> |c.region[i]| == Max(0, b.colMax - b.colMin))
      && c.center == Cell(center.row - b.rowMin, center.col - b.colMin)
  {
    RowsHaveCols(a);
  }

  /** A window that lies wholly inside the array is not clipped: the crop has
      the requested shape and the center sits at `(h // 2, w // 2)`. */
  lemma UnclippedCrop<T>(a: seq<seq<T>>, center: Cell, h: nat, w: nat)
    requires Rectangular(a)
    requires 0 <= center.row - h / 2 && center.row - h / 2 + h <= |a|
    requires 0 <= center.col - w / 2 && center.col - w / 2 + w <= Cols(a)
    ensures |Crop(a, center, h, w).region| == h
    ensures forall i :: 0 <= i < h ==> |Crop(a, center, h, w).region[i]| == w
    ensures Crop(a, center, h, w).center == Cell(h / 2, w / 2)
  {
    CropShape(a, center, h, w);
    var b := ClipWindow(|a|, Cols(a), center, h, w);
    assert b == Window(center.row - h / 2, center.row - h / 2 + h, center.col - w / 2, center.col - w / 2 + w);
  }

  /** At the top-left corner of an array at least as large as the window, the
      rows and columns before the center are cut away: the crop has shape
      `(h - h // 2, w - w // 2)` and the center is its top-left cell. */
  lemma CornerCrop<T>(a: seq<seq<T>>, h: nat, w: nat)
    requires Rectangular(a) && h <= |a| && w <= Cols(a)
    ensures |Crop(a, Cell(0, 0), h, w).region| == h - h / 2
    ensures forall i :: 0 <= i < h - h / 2 ==> |Crop(a, Cell(0, 0), h, w).region[i]| == w - w / 2
    ensures Crop(a, Cell(0, 0), h, w).center == Cell(0, 0)
  {
    CropShape(a, Cell(0, 0), h, w);
    ClipAtCorner(|a|, Cols(a), h, w);
  }

  lemma ClipAtCorner(height: nat, width: nat, h: nat, w: nat)
    requires h <= height && w <= width
    ensures ClipWindow(height, width, Cell(0, 0), h, w) == Window(0, h - h / 2, 0, w - w / 2)
  {
    var dh, dw := h / 2, w / 2;
    assert 0 <= dh <= h && 0 <= dw <= w;
  }

  /** A window covering the whole array returns the whole array, and the
      center keeps its own coordinates. */
  lemma CoveringCrop<T>(a: seq<seq<T>>, center: Cell, h: int, w: int)
    requires Rectangular(a)
    requires center.row - h / 2 <= 0 && |a| <= center.row - h / 2 + h
    requires center.col - w / 2 <= 0 && Cols(a) <= center.col - w / 2 + w
    ensures Crop(a, center, h, w).region == a
    ensures Crop(a, center, h, w).center == center
  {
    var c := Crop(a, center, h, w);
    assert |c.region| == |a|;
    forall i | 0 <= i < |a|
      ensures c.region[i] == a[i]
    {
      assert |c.region[i]| == |a[i]|;
    }
  }

  /** The as-written crop equals the clipped crop whenever the window does not
      end before the first row or the first column, which holds for every
      on-array center and non-negative size. */
  lemma AsWrittenMatchesCrop<T>(a: seq<seq<T>>, center: Cell, h: int, w: int)
    requires Rectangular(a)
    requires center.row + h - h / 2 >= 0 && center.col + w - w / 2 >= 0
    ensures CropAsWritten(a, center, h, w) == Crop(a, center, h, w)
  {
    var b := ClipWindow(|a|, Cols(a), center, h, w);
    RowsHaveCols(a);
    assert CropAsWritten(a, center, h, w).region == SliceRegion(a, b);
    assert Crop(a, center, h, w).region == Region(a, b);
    SlicesMatchRegion(a, b);
  }

  /** With non-negative bounds inside the array, numpy slicing and `Region`
      agree. */
  lemma SlicesMatchRegion<T>(a: seq<seq<T>>, b: Window)
    requires Rectangular(a) && forall i :: 0 <= i < |a| ==> |a[i]| == Cols(a)
    requires 0 <= b.rowMin && 0 <= b.rowMax <= |a| && 0 <= b.colMin && 0 <= b.colMax <= Cols(a)
    ensures SliceRegion(a, b) == Region(a, b)
  {
    var rows := PySlice(a, b.rowMin, b.rowMax);
    var sliced, clipped := SliceRegion(a, b), Region(a, b);
    if b.rowMin < b.rowMax {
      assert rows == a[b.rowMin..b.rowMax];
      assert |sliced| == |clipped|;
      forall i | 0 <= i < |sliced|
        ensures sliced[i] == clipped[i]
      {
        assert rows[i] == a[b.rowMin + i];
        if b.colMin < b.colMax {
          assert sliced[i] == a[b.rowMin + i][b.colMin..b.colMax];
        } else {
          assert sliced[i] == [];
        }
      }
    } else {
      assert rows == [];
    }
  }

  /** Two windows wholly above a 10 x 10 array, where the clipped crop is
      empty. At center `(-10, 0)` the end row is `-8`, which numpy reads as
      `10 - 8`, so the as-written crop has two rows. At center `(-3, 0)` the
      end row is `-1`, read as `9`: nine rows for a window of height 4. */
  lemma AsWrittenCropAboveArray()
    ensures var a := Fill(10, 10, 0);
      && |CropAsWritten(a, Cell(-10, 0), 4, 4).region| == 2
      && |Crop(a, Cell(-10, 0), 4, 4).region| == 0
    ensures var a := Fill(10, 10, 0);
      && |CropAsWritten(a, Cell(-3, 0), 4, 4).region| == 9 > 4
      && |Crop(a, Cell(-3, 0), 4, 4).region| == 0
  {
    var a := Fill(10, 10, 0);
    assert Rectangular(a);
    assert ClipWindow(10, 10, Cell(-10, 0), 4, 4) == Window(0, -8, 0, 2);
    assert ClipWindow(10, 10, Cell(-3, 0), 4, 4) == Window(0, -1, 0, 2);
  }

  /** The worked example: a 10 x 10 array, center `(0, 0)`, window `(4, 4)`
      gives bounds `[0, 2) x [0, 2)`, a 2 x 2 crop and center `(0, 0)`. */
  lemma CornerExample<T>(a: seq<seq<T>>)
    requires Shape(a, 10, 10)
    ensures ClipWindow(10, 10, Cell(0, 0), 4, 4) == Window(0, 2, 0, 2)
    ensures |Crop(a, Cell(0, 0), 4, 4).region| == 2
    ensures |Crop(a, Cell(0, 0), 4, 4).region[0]| == 2
    ensures Crop(a, Cell(0, 0), 4, 4).center == Cell(0, 0)
  {
    assert Rectangular(a);
  }
}
