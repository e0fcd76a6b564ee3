# BFS distance field and centered crop, in Dafny

This project models the algorithmic core of `BFS/vis_bfs_1026.py`:

- `compute_distance_field(grid, start)` runs a breadth-first search from one
  source cell over a 4-connected land/sea mask (0 is sea, anything else is land).
  Every reached cell gets its hop count and every other cell keeps `inf`. The
  whole field is then divided by 300.
- `crop_centered_subregion_with_offset(array, center, crop_size)` cuts an
  `h` x `w` window around a center cell, clipped to the array, and reports the
  center's position inside the clipped window.

The modules follow the structure of the program:

| file | module | contents |
|---|---|---|
| `grid.dfy` | `GridCells` | cells, rectangular matrices, `np.full`, single-entry assignment, the four directions, a counting bound for distinct cells |
| `paths.dfy` | `SeaPaths` | the reference meaning of a hop count: shortest sea paths, and the BFS level sets that uncover them |
| `bfs.dfy` | `DistanceField` | the search itself, with the queue, the `visited` matrix and the hop-count matrix, proved to compute shortest sea paths |
| `laws.dfy` | `FieldLaws` | consequences of that result: source at zero, land infinite, neighbour bound, uniqueness, open sea, two worked grids |
| `normalize.dfy` | `Normalization` | the division by 300 and `compute_distance_field` as a whole |
| `crop.dfy` | `RegionCrop` | Python/numpy slicing, the crop as written, the clipped crop, and their laws |

How the search is modelled:

- The numpy matrices are `seq<seq<_>>`, updated functionally.
- `distance` holds `Dist = Inf | Fin(hops)`.
- The deque is the sequence `visits` of every cell ever appended, plus a
  `head` index. `popleft` advances `head`.
- The sequence `visits` is returned, so the contract can say that every cell
  is enqueued at most once, that there are at most `rows * cols` enqueues, and
  that hop counts are non-decreasing in queue order.
- The loop invariant of `Search` keeps every queued hop count within one of the
  count at the head: the queue spans at most two consecutive levels.
- Every matrix access is a checked sequence index. The model therefore also
  shows that no index outside `[0, rows) x [0, cols)` is read or written.

Where the code and its documentation disagree, the model follows the code:

- The docstring (BFS/vis_bfs_1026.py:14) asks for a sea start. The function
  does not check that the start is sea; the only check is in the caller
  (BFS/vis_bfs_1026.py:98-99). The model accepts
  any on-grid start. A land start gets 0 and is expanded like any other cell.
  For that reason a sea path may begin on the start cell whatever that cell
  holds, and `FieldLaws.LandIsInfinite` excludes the start itself.
- The crop function does not reject a crop size of zero or below. It
  computes with such sizes, and so does the model.
- A window larger than the array returns the whole axis only when it covers
  that axis, which `RegionCrop.CoveringCrop` states. For example, with 10
  rows, center row 0 and height 11, the window is rows `[-5, 6)`, so the crop
  has 6 rows.
- The docstring of the crop function (BFS/vis_bfs_1026.py:44-45) says its
  second result is the offset of the crop's top-left corner within the
  array. The code (BFS/vis_bfs_1026.py:61-62) returns the center's position
  inside the crop, `(r - r_min, c - c_min)`, and so does the model
  (`CropResult.center`).

## Model

| member | source | states |
|---|---|---|
| `GridCells.Fill` | BFS/vis_bfs_1026.py:20-21 | `np.full`: the matrix has the requested shape and holds the value at every cell |
| `GridCells.Update` | BFS/vis_bfs_1026.py:35-36 | an assignment `m[p] = v` sets that entry, keeps every row length and leaves every other entry unchanged |
| `GridCells.MovesAreNeighbours` | BFS/vis_bfs_1026.py:27 | the four offsets reach exactly the 4-adjacent cells, one step in one coordinate |
| `GridCells.DistinctCellsBound` | BFS/vis_bfs_1026.py:34-37 | pairwise different cells of a `rows` x `cols` grid number at most `rows * cols`, which bounds the enqueues |
| `SeaPaths.ShortestIsFirstLevel` | BFS/vis_bfs_1026.py:29-37 | a shortest sea path has `d` hops exactly when the cell lies in BFS level `d` and in no earlier level |
| `SeaPaths.UnreachableIsNoLevel` | BFS/vis_bfs_1026.py:29-37 | a cell has no sea path from the source exactly when no BFS level contains it |
| `SeaPaths.ReachableHasShortest` | BFS/vis_bfs_1026.py:9-17 | every cell with a sea path has a shortest hop count |
| `SeaPaths.ShortestHopsUnique` | BFS/vis_bfs_1026.py:9-17 | the shortest hop count of a cell is unique |
| `SeaPaths.NeighbourHops` | BFS/vis_bfs_1026.py:35 | a sea cell next to a cell `d` hops away is at most `d + 1` hops away |
| `SeaPaths.OpenSeaShortest` | BFS/vis_bfs_1026.py:27-37 | on a grid with no land, the shortest hop count is the Manhattan distance |
| `DistanceField.VisitNeighbour` | BFS/vis_bfs_1026.py:32-37 | examining one neighbour: it is appended, given one more than the current cell and marked visited exactly when it is an in-bounds, unvisited sea cell; nothing else changes and the queue invariants are kept |
| `DistanceField.ExpandCell` | BFS/vis_bfs_1026.py:30-37 | after the four neighbours of a dequeued cell are examined, every sea neighbour has a finite entry of at most one more, earlier entries are unchanged, and the queue invariants are kept |
| `DistanceField.LevelsAreFound` | BFS/vis_bfs_1026.py:29-37 | once the queue is exhausted, every cell of BFS level `n` is in the queue with at most `n` hops |
| `DistanceField.FieldEntryIsShortest` | BFS/vis_bfs_1026.py:29-37 | once the queue is exhausted, an entry is `Inf` exactly for the unreachable cells and is the shortest hop count otherwise |
| `DistanceField.Search` | BFS/vis_bfs_1026.py:19-37 | the returned hop-count field is the shortest sea-path field: the source is at 0; each cell is enqueued at most once and there are at most `rows * cols` enqueues; only sea follows the source in the queue; a cell was enqueued exactly when its entry is finite; hop counts never decrease along the queue |
| `FieldLaws.SourceIsZero` | BFS/vis_bfs_1026.py:23-25 | the source's entry is 0 |
| `FieldLaws.LandIsInfinite` | BFS/vis_bfs_1026.py:34 | a land cell other than the source keeps `Inf` |
| `FieldLaws.NeighboursDifferByOne` | BFS/vis_bfs_1026.py:35 | adjacent sea cells are both finite or both infinite, and their hop counts differ by at most one |
| `FieldLaws.EntryMatchesShortest` | BFS/vis_bfs_1026.py:9-17 | an entry equals `Fin(d)` for every shortest hop count `d`, and is `Inf` on unreachable cells |
| `FieldLaws.DistanceFieldUnique` | BFS/vis_bfs_1026.py:29-37 | two hop-count fields of the same grid and source are equal, so the result does not depend on the scan order |
| `FieldLaws.OpenSeaField` | BFS/vis_bfs_1026.py:27-37 | on a grid with no land, every entry is the Manhattan distance to the source |
| `FieldLaws.OpenSquareExample` | BFS/vis_bfs_1026.py:27-37 | a 3 x 3 open sea searched from its middle gives `[[2,1,2],[1,0,1],[2,1,2]]` |
| `FieldLaws.WallExample` | BFS/vis_bfs_1026.py:33-34 | the row `[0,1,0,0,0]` searched from its first cell gives `[0, inf, inf, inf, inf]` |
| `Normalization.Normalize` | BFS/vis_bfs_1026.py:39 | dividing one entry: `inf` stays `inf`, and a finite entry becomes a non-negative value that times 300 gives back the hop count |
| `Normalization.NormalizeInjective` | BFS/vis_bfs_1026.py:39 | two entries divide to the same value exactly when they are equal |
| `Normalization.NormalizeMonotone` | BFS/vis_bfs_1026.py:39 | the division keeps the order of hop counts, in both directions |
| `Normalization.NormalizeField` | BFS/vis_bfs_1026.py:39 | `distance / 300.0` keeps the matrix shape and divides each entry |
| `Normalization.ComputeDistanceField` | BFS/vis_bfs_1026.py:8-39 | the result has the grid's shape, is `inf` exactly on cells without a sea path, is the shortest hop count divided by 300 on every other cell, and is 0 at the source |
| `Normalization.FiniteEntryIsShortest` | BFS/vis_bfs_1026.py:9-17 | every finite entry of the result is a shortest hop count divided by 300 |
| `Normalization.ScaledFieldUnique` | BFS/vis_bfs_1026.py:8-39 | two results for the same grid and source are equal |
| `Normalization.ScaledNeighboursClose` | BFS/vis_bfs_1026.py:35-39 | adjacent sea cells are both finite or both infinite, and their values differ by at most 1/300 |
| `RegionCrop.ClipWindow` | BFS/vis_bfs_1026.py:52-57 | the bounds lie in `[0, H]` and `[0, W]`, span at most `h` rows and `w` columns, and on the array contain exactly the rows and columns of the unclipped window `[r - h//2, r - h//2 + h)` x `[c - w//2, c - w//2 + w)` |
| `RegionCrop.PySlice` | BFS/vis_bfs_1026.py:59 | Python slicing: never longer than the sequence, the ordinary subsequence for in-range bounds, and for non-negative bounds as long as the clamped bounds allow |
| `RegionCrop.SliceRegion` | BFS/vis_bfs_1026.py:59 | numpy's two-axis slice is no larger than the array on either axis |
| `RegionCrop.CropAsWritten` | BFS/vis_bfs_1026.py:49-64 | the crop as the code computes it is no larger than the array |
| `RegionCrop.Region` | BFS/vis_bfs_1026.py:59 | for on-array bounds, the slice has the bounds' shape and its cell `q` is the array's cell `q` moved by the window's corner |
| `RegionCrop.Crop` | BFS/vis_bfs_1026.py:49-64 | the clipped crop is a rectangle no larger than the array or the window; for an on-array center and `h, w >= 1` the reported center is a valid index of the crop and holds the center's value |
| `RegionCrop.CropIsWindow` | BFS/vis_bfs_1026.py:54-62 | the crop is exactly the window: each crop cell is the array cell shifted by `center - center_in_crop`, that cell lies in the window, and every on-array cell of the window appears in the crop |
| `RegionCrop.UnclippedCrop` | BFS/vis_bfs_1026.py:52-62 | a window wholly inside the array gives shape `(h, w)` and center `(h // 2, w // 2)` |
| `RegionCrop.CornerCrop` | BFS/vis_bfs_1026.py:52-62 | at center `(0, 0)` on an array at least `h` x `w`, the shape is `(h - h // 2, w - w // 2)` and the center is `(0, 0)` |
| `RegionCrop.CoveringCrop` | BFS/vis_bfs_1026.py:54-62 | a window covering the whole array returns the whole array, with the center at its own coordinates |
| `RegionCrop.CornerExample` | BFS/vis_bfs_1026.py:52-62 | a 10 x 10 array, center `(0, 0)` and window `(4, 4)` give bounds `[0, 2) x [0, 2)`, a 2 x 2 crop and center `(0, 0)` |
| `RegionCrop.AsWrittenMatchesCrop` | BFS/vis_bfs_1026.py:54-59 | the code's crop equals the clipped crop whenever the window does not end before row 0 or column 0, in particular for every on-array center with `h, w >= 0` |
| `RegionCrop.AsWrittenCropAboveArray` | BFS/vis_bfs_1026.py:55-59 | on a 10 x 10 array with crop size `(4, 4)`, where the clipped crop is empty: center `(-10, 0)` gives two rows as the code computes it, and center `(-3, 0)` gives nine rows, more than the four requested |

## Left out

- Plotting, file loading, the sub-region slicing and its checks, and the torch
  conversion in `generate_bfs_distance_visualization` (BFS/vis_bfs_1026.py:67-179).
  These are I/O, rendering and foreign libraries. This includes the land check
  on the start cell at lines 98-99.
- `vis_marine_env/` (NetCDF reading, interpolation, contour plots and GIF
  export) is not part of this model.
- Floating point is not modelled:
  - `np.inf` is the constructor `Infinity` (and `Inf` before the division).
  - Hop counts are exact naturals; a float holds them exactly only up to 2^53.
  - The division by 300 is exact real division, so `Normalization.Normalize`
    states the value times 300 equals the hop count. IEEE rounding of
    `n / 300.0` makes that only approximately true of the code.
- DistanceField.Search: requires the start cell to lie on the grid. numpy
  would read a negative start coordinate from the end of the axis and then
  expand neighbours of the negative coordinate; that case is not modelled.
  An out-of-range positive start raises `IndexError` in numpy.
- RegionCrop.Region, RegionCrop.SliceRegion, RegionCrop.Crop: a crop with
  no rows is the empty sequence, so its column count is lost. numpy keeps it:
  `array[r_min:r_max, c_min:c_max]` with no rows has shape
  `(0, c_max - c_min)`. That shape reaches the print at
  BFS/vis_bfs_1026.py:144 and the `D_L` tensor at line 161. A sequence of
  rows cannot carry a width without rows.
- The `visited` matrix is created with the grid's shape via `np.zeros_like`.
  It is modelled with the `rows` x `cols` shape of a rectangular grid, which is
  what numpy gives for the 2-D arrays this function is called with.

## Findings

| source | as written | input that shows it | evidently intended | confidence | as-written member | corrected member |
|---|---|---|---|---|---|---|
| BFS/vis_bfs_1026.py:55-59 | `r_max = min(H, r + h - h // 2)` can be negative when the window lies wholly above the array; numpy then counts the stop from the end, so `array[0:r_max]` returns the first `H + r_max` rows (likewise for columns) | a 10 x 10 array, center `(-10, 0)`, crop size `(4, 4)`: `r_max = -8`, and `array[0:-8]` is rows 0 and 1; with center `(-3, 0)`, `r_max = -1` and `array[0:-1]` is 9 rows for a 4-row window | an empty crop, since no row of the array lies in the window `[-12, -8)` | medium; not executed | `RegionCrop.AsWrittenCropAboveArray` | `RegionCrop.CropIsWindow` |

How the two halves fit together:

- `RegionCrop.CropAsWritten` is the code as written.
- `RegionCrop.Crop` is the corrected definition. It takes the rows and columns
  of the clipped bounds with no wrap-around.
- `RegionCrop.CropIsWindow` proves that the corrected crop contains exactly
  the on-array cells of the window.
- `RegionCrop.AsWrittenMatchesCrop` shows that the two definitions agree
  whenever the window does not end before the array. That includes every
  on-array center, which is how the caller normally uses the function.
