# Melt-pool tracker: a Dafny model of the reslicing and surface utilities

napari-melt-pool-tracker follows a laser melt pool through a stack of
X-ray frames recorded during one laser pass. Its utility module does
several jobs:

- It fits the laser trajectory as a line, time frame = coef × position +
  intercept. The fit comes either from two user-chosen points or from the
  brightest response in a space-time projection.
- It reslices the stack with a moving window, so that in the output the
  laser stays put and the sample moves.
- It drops the frames in which the window ran off the recorded data.
- It locates the material surface in every column and collapses a thin
  band below that surface into a profile image.
- It dispatches to a family of directional edge filters for the radial
  gradient.

This project models those steps on immutable nested sequences that carry
their shape (`Arrays.Array2`, `Arrays.Array3`), over exact reals and
unbounded integers. Every exception the Python code raises is an `Err`
value of `Errors.Result`, except the errors from mismatched array shapes
listed under "## Left out". The modelled errors are:

- division by zero;
- a window too large for the stack;
- a negative dimension given to `np.zeros`;
- an index out of range;
- the maximum of an empty selection;
- an unknown filter name;
- stacking nothing, or stacking results of different shapes.

The modules follow the source:

- `Numerics`: Python `round` (half to even), negative indexing,
  `np.isclose`, and the sum, count and max reductions.
- `Arrays`: stacks and images, `apply_2D_function_to_stack`, and frame
  selection.
- `LineFit`: the two-point fit.
- `LaserTracking`: the index steps of the automatic fit.
- `Reslice`: the moving-window reslice and its position log.
- `RadialGradient`: the filter dispatch and `estimate_material_height`.
- `Surface`: `incomplete_frames`, `get_surface` and `get_surface_image`.

Two facts about the code shape the model:

- `determine_laser_speed_and_position` projects the maximum over the
  height axis. This gives an image indexed (time, position). `argmax(0)`
  then picks, for every position, the time of the strongest response. The
  fitted coefficient is therefore frames per position. This is the
  reading that `_reslice_with_moving_window` uses, with
  `t = round(intercept + pos * coef)`.
- The reslice never pads. A window is cut only where it lies inside the
  frame. A frame index outside the stack raises IndexError, and a
  negative index reads frames counted from the end.

Only a pass from right to left, with a negative coefficient, gives a
meaningful reslice. This matches the docstring of
`determine_laser_speed_and_position`, which describes one laser pass from
right to left. For a negative coefficient, every frame the reslice reads
is at index 0 or above (`Reslice.TimeFrameSign`). An IndexError occurs
exactly when the first position's frame lies beyond the stack
(`Reslice.IndexErrorOnlyAtFirstFrame`). For a positive coefficient,
every frame index read is 0 or below. Python then reads frames counted
from the end of the stack, so the frames come from the wrong end of the
recording. The model reproduces that behaviour as written.

## Model

| member | source | states |
|---|---|---|
| `Numerics.IsClose` | src/napari_melt_pool_tracker/_utils.py:268 | `np.isclose(a, b)` with numpy's default tolerances, `abs(a - b) <= 1e-8 + 1e-5 * abs(b)`, over exact reals |
| `Numerics.Round` | src/napari_melt_pool_tracker/_utils.py:122 | the result lies within 0.5 of the argument, and a tie goes to the even neighbour |
| `Numerics.RoundUnique` | src/napari_melt_pool_tracker/_utils.py:122 | those two properties single out one integer, so they determine Python's `round` |
| `Numerics.RoundMonotone` | src/napari_melt_pool_tracker/_utils.py:122 | rounding never reverses the order of two reals |
| `Numerics.PyIndex` | src/napari_melt_pool_tracker/_utils.py:123 | an index selects an element exactly when it lies in [-n, n); the element selected is the index modulo n |
| `Numerics.IntegerCloseness` | src/napari_melt_pool_tracker/_utils.py:268 | on integer samples, closeness to 0 and to 1 is plain equality |
| `Numerics.Sum` | src/napari_melt_pool_tracker/_utils.py:267 | `np.sum` of a one-dimensional array over exact reals: the sum of all but the last entry plus the last |
| `Numerics.SumOfIntegral` | src/napari_melt_pool_tracker/_utils.py:267 | a column of integer samples sums to an integer |
| `Numerics.SumOfZeros` | src/napari_melt_pool_tracker/_utils.py:267-268 | a column of zeros sums to zero |
| `Numerics.SumNonNegative` | src/napari_melt_pool_tracker/_utils.py:267 | a sum of non-negative terms is non-negative |
| `Numerics.SumBoundsTerm` | src/napari_melt_pool_tracker/_utils.py:267 | a sum of non-negative terms is at least each of its terms |
| `Numerics.Count` | src/napari_melt_pool_tracker/_utils.py:175 | the count is at most the length; it is 0 exactly when nothing is true and the full length exactly when everything is |
| `Numerics.CountIsCardinality` | src/napari_melt_pool_tracker/_utils.py:175 | the count is the size of the set of true positions |
| `Numerics.MaxOf` | src/napari_melt_pool_tracker/_utils.py:39 | the maximum is attained and bounds every element |
| `Arrays.Column` | src/napari_melt_pool_tracker/_utils.py:175 | `a[t, :, x]` has the stack's height and holds the samples of that column |
| `Arrays.MapFrames` | src/napari_melt_pool_tracker/_utils.py:178-188 | stacking nothing fails; results of different shapes fail; no other failure occurs; otherwise frame t of the result is the function applied to frame t |
| `Arrays.MapFramesIdentity` | src/napari_melt_pool_tracker/_utils.py:178-188 | applying the function that rebuilds each frame gives back the stack |
| `Arrays.AsArray2` | src/napari_melt_pool_tracker/_utils.py:185-186 | a frame read as the 2-D array `img` is a valid image exactly when it is rectangular; it serves `Arrays.MapFramesIdentity` |
| `Arrays.Unflagged` | src/napari_melt_pool_tracker/_utils.py:324 | `stack[~mask]` keeps only unflagged frames, and as many as there are unflagged entries |
| `Arrays.UnflaggedIncreasing` | src/napari_melt_pool_tracker/_utils.py:324 | the kept frames stay in their original order |
| `Arrays.UnflaggedComplete` | src/napari_melt_pool_tracker/_utils.py:324 | every unflagged frame is kept |
| `Arrays.SelectFrames` | src/napari_melt_pool_tracker/_utils.py:324-325 | frame k of the selection is frame `keep[k]` of the stack |
| `Arrays.DropLast` | src/napari_melt_pool_tracker/_utils.py:328 | `a[:-1]` keeps every frame but the last, and nothing of an empty stack |
| `Arrays.MarkerMask` | src/napari_melt_pool_tracker/_utils.py:326 | the mask has the stack's shape, and a sample is marked exactly when it is close to 1 |
| `Arrays.SumOverHeight` | src/napari_melt_pool_tracker/_utils.py:330 | every entry is the sum of its column over the height |
| `LineFit.FromPoints` | src/napari_melt_pool_tracker/_utils.py:143-171 | equal first coordinates divide by zero; otherwise both points lie on the fitted line |
| `LineFit.InterceptsAgree` | src/napari_melt_pool_tracker/_utils.py:169-171 | the intercepts computed from the two points are equal, so their mean is either of them |
| `LineFit.FitIsUnique` | src/napari_melt_pool_tracker/_utils.py:168-171 | any line through both points is the fitted line |
| `LineFit.SwappedReadingFails` | src/napari_melt_pool_tracker/_tests/test_utils.py:19-26 | through (0, 1) and (1, 2) the fit is value = arg + 1, and (0, 1) does not satisfy the reading the tests check |
| `LineFit.FromPointsSwapped` | src/napari_melt_pool_tracker/_tests/test_utils.py:19-26 | the fit the tests expect: it fails exactly when the second coordinates agree, and otherwise both points satisfy `p[0] = coef * p[1] + intercept` |
| `LineFit.SwappedFitIsUnique` | src/napari_melt_pool_tracker/_tests/test_utils.py:25-26 | any line whose swapped reading passes through both points is the swapped fit |
| `LaserTracking.Footprint` | src/napari_melt_pool_tracker/_utils.py:40-44 | the footprint is k by k; entry (i, j) is 1 exactly when i + j is k - 2, k - 1 or k, and 0 otherwise; it is symmetric |
| `LaserTracking.MaxProjection` | src/napari_melt_pool_tracker/_utils.py:38-39 | fails exactly on a stack without rows; otherwise the (time, position) image holds a maximum that is attained in the column and bounds it |
| `LaserTracking.ColumnMax` | src/napari_melt_pool_tracker/_utils.py:39 | the value is attained in the column and bounds it |
| `LaserTracking.FirstArgmaxUnique` | src/napari_melt_pool_tracker/_utils.py:48 | at most one index is the first maximum of a column |
| `LaserTracking.ColumnArgmax` | src/napari_melt_pool_tracker/_utils.py:48 | the index returned is the first row at which the column takes its maximum |
| `LaserTracking.Argmax` | src/napari_melt_pool_tracker/_utils.py:48 | fails exactly on an image without rows; otherwise one index per column, each the first occurrence of that column's maximum |
| `Reslice.FirstPosition` | src/napari_melt_pool_tracker/_utils.py:99 | the first position is the least number that is at least both 0 and the window offset |
| `Reslice.LastPosition` | src/napari_melt_pool_tracker/_utils.py:100-102 | the range end is the smaller of the rounded zero crossing and `width - window_size + window_offset` |
| `Reslice.TimeFrame` | src/napari_melt_pool_tracker/_utils.py:122 | the frame read lies within half a frame of `intercept + pos * coef` |
| `Reslice.LaserRange` | src/napari_melt_pool_tracker/_utils.py:99-104 | a zero coefficient divides by zero; a range of fewer than one position raises ValueError; there is no other error; otherwise the range is [max(0, offset), last), with last at most the rounded zero crossing of the trajectory, and every window of the range fits inside the frame |
| `Reslice.ResliceWithMovingWindow` | src/napari_melt_pool_tracker/_utils.py:96-140 | each of the four errors with its exact condition, and no other error, so the reslice succeeds whenever none of them applies; on success, one frame and one log row per position in increasing order; each row records the rounded trajectory frame, the position, and a window of the requested size starting `offset` behind the laser, inside the frame; each output frame is that window of the frame the row names |
| `Reslice.Window` | src/napari_melt_pool_tracker/_utils.py:123-125 | `stack[t, :, start:start + size]` of a window inside the frame has the stack's height and `size` columns, and column x of it is column `start + x` of frame t |
| `Reslice.TimeFramesMonotone` | src/napari_melt_pool_tracker/_utils.py:121-122 | the frame read moves monotonically with the position: increasing for a positive coefficient, decreasing for a negative one |
| `Reslice.TimeFrameSign` | src/napari_melt_pool_tracker/_utils.py:101 | before the rounded zero crossing, a negative coefficient gives frames >= 0 and a positive one gives frames <= 0 |
| `Reslice.IndexErrorOnlyAtFirstFrame` | src/napari_melt_pool_tracker/_utils.py:99-125 | for a pass from right to left, the reslice reads a missing frame exactly when the first position's frame lies beyond the stack |
| `RadialGradient.ParseMethod` | src/napari_melt_pool_tracker/_utils.py:211-226 | exactly the four names sobel, prewitt, scharr and farid are accepted, each naming its family; any other name raises ValueError carrying the name |
| `RadialGradient.ParseMethodName` | src/napari_melt_pool_tracker/_utils.py:211-222 | every family is selected by its own name |
| `RadialGradient.DirectionalGradients` | src/napari_melt_pool_tracker/_utils.py:211-226 | an unknown name fails before any filtering; the only other failures are those of stacking; the x gradient is the family's vertical filter and the y gradient its horizontal filter, each applied frame by frame |
| `RadialGradient.EstimateMaterialHeight` | src/napari_melt_pool_tracker/_utils.py:174-175 | a column index outside [-width, width) raises IndexError; otherwise there is one height per frame, at most the frame height; it is 0 exactly when no sample of the column is close to 1, and the full height exactly when all are |
| `RadialGradient.MaterialHeightIsMarkerCount` | src/napari_melt_pool_tracker/_utils.py:174-175 | each height is the number of rows of the column whose sample is close to 1 |
| `Surface.IncompleteFrames` | src/napari_melt_pool_tracker/_utils.py:261-270 | one flag per frame, set exactly when some column of the frame sums to nearly zero |
| `Surface.IntegerIncompleteFrames` | src/napari_melt_pool_tracker/_utils.py:261-270 | on integer data a frame is flagged exactly when some column sums to exactly 0 |
| `Surface.EmptyColumnMakesFrameIncomplete` | src/napari_melt_pool_tracker/_utils.py:261-270 | a column of zeros, as left where the window ran off the data, flags its frame |
| `Surface.FilledFrameIsComplete` | src/napari_melt_pool_tracker/_utils.py:261-270 | on non-negative data, a frame in which every column holds a sample of at least 1 is not flagged |
| `Surface.LastTrue` | src/napari_melt_pool_tracker/_utils.py:310 | no row exactly when the column has no true sample; otherwise the deepest true row |
| `Surface.MarkedHasSurface` | src/napari_melt_pool_tracker/_utils.py:310 | a column with a true sample has a surface row |
| `Surface.EveryMarkedColumnHasSurface` | src/napari_melt_pool_tracker/_utils.py:308-310 | when every column is marked, every column has a surface row |
| `Surface.GetSurface` | src/napari_melt_pool_tracker/_utils.py:273-319 | a negative layer count raises ValueError; a column without a true mask sample fails; nothing else fails; otherwise entry (t, l, x) is sample `surface + top + l` of its column, or 0 past the bottom edge |
| `Surface.BandEntry` | src/napari_melt_pool_tracker/_utils.py:311-318 | the skip-or-copy branch with `k = min(n_layers, height - surface_height - top_offset)` gives entry l of the zero-padded band from the surface row plus `top`, and 0 past the layers |
| `Surface.SurfaceSample` | src/napari_melt_pool_tracker/_utils.py:310-318 | the skip-or-copy logic of the loop body yields the zero-padded band below the surface row |
| `Surface.SurfaceColumn` | src/napari_melt_pool_tracker/_utils.py:308-318 | a column of the extracted surface is the zero-padded band below its surface row |
| `Surface.SurfaceProfile` | src/napari_melt_pool_tracker/_utils.py:324-330 | the only failure is a column without a sample close to 1; the image has one row per selected frame but the last, and the stack's width |
| `Surface.GetSurfaceImage` | src/napari_melt_pool_tracker/_utils.py:322-331 | the only failure is a column without a sample close to 1; the image has one row per complete frame but the last, and the stack's width |
| `Surface.SurfaceImageOfCompleteFrames` | src/napari_melt_pool_tracker/_utils.py:323-325 | the image is the profile of the complete frames in increasing order, whichever way that selection is written down |
| `Arrays.UnflaggedDetermined` | src/napari_melt_pool_tracker/_utils.py:324 | `stack[~mask]` selects the one strictly increasing sequence of exactly the unflagged frames |
| `Arrays.IncreasingBySet` | src/napari_melt_pool_tracker/_utils.py:324 | a strictly increasing frame selection is determined by the frames it contains |
| `Surface.ProfileColumns` | src/napari_melt_pool_tracker/_utils.py:324-328 | the columns read after frame selection and dropping the last frame are the columns of the selected frames of the original stacks |
| `Surface.SurfaceProfileFailsExactly` | src/napari_melt_pool_tracker/_utils.py:324-329 | the profile fails exactly when a column of a selected frame other than the last has no sample close to 1 |
| `Surface.SurfaceProfileEntry` | src/napari_melt_pool_tracker/_utils.py:324-330 | every entry is the sum of the 5 edge samples from the surface row of its column down, zero past the bottom edge |

## Findings

| source | as written | input that shows it | evidently intended | confidence | as-written member | corrected member |
|---|---|---|---|---|---|---|
| src/napari_melt_pool_tracker/_utils.py:168-171 | the fit treats `point[0]` as the argument and `point[1]` as the value | points (0, 1) and (1, 2): the fit is coef 1, intercept 1, so 1 · 1 + 1 = 2 differs from the first coordinate 0, which `_tests/test_utils.py:25` checks | each point should satisfy `point[0] = coef * point[1] + intercept`, as `_tests/test_utils.py:25-26` asserts; this also matches napari's (row, column) = (time, position) order | medium; not executed | `LineFit.SwappedReadingFails` | `LineFit.FromPointsSwapped` |

`LineFit.FromPoints` keeps the code's reading, because
`_reslice_with_moving_window` is given whatever the fit returns. No other
member of the model depends on which reading is chosen.

## Left out

- The median filters, the Sobel filters, `scipy.signal.medfilt` and the
  support-vector regression of `determine_laser_speed_and_position` are
  left out. They are numerical image filters and a learned fit that are
  not part of this model. Only the projection, the footprint and the
  argmax are modelled.
- The filters in `radial_gradient` are parameters of
  `RadialGradient.DirectionalGradients`. The radial vectors, their
  normalisation, the projection and `np.arctan2` are left out, because
  they are floating-point image arithmetic. `calculate_radial_gradient`
  only composes `estimate_material_height` with that arithmetic.
- Floating point is modelled as exact reals. NaN, infinities and
  rounding error are not represented. numpy scalar division by zero gives
  `inf` with a warning rather than an error. The model raises only where
  Python's `float` division does.
- The pandas DataFrame of `_reslice_with_moving_window` is a sequence of
  `Reslice.WindowRow` records, one per `pd.concat`. Column dtypes and the
  DataFrame index are not modelled.
- The `np.zeros` pre-allocation of the reslice is not modelled. Every
  frame of it is overwritten, so its dtype and zeros never show.
- `_widget.py`, `_reader.py`, `_sample_data.py` and `__init__.py` are not
  part of this model. They are GUI wiring, file I/O and sample download.
- `Surface.GetSurface`: `top_offset` is a natural number. For a negative
  offset, Python's slice start `surface_height + top_offset` may be
  negative and count from the bottom. That case is not modelled.
- `Surface.GetSurface`: the stack and the mask must have the same shape,
  and the model excludes other shapes by a precondition. In the source,
  `surface_mask[i, :, j]` raises IndexError when the mask has fewer frames
  or fewer columns than the stack. A different height, or a larger mask,
  runs without an error.
- `Surface.GetSurfaceImage`: `stack` and `edges` must have the same shape,
  and the model excludes other shapes by a precondition. In the source,
  `edges[~mask]` raises IndexError when `edges` has a different number of
  frames. `get_surface` raises IndexError when `edges` is wider than
  `stack`. A different height, or a narrower `edges`, runs without an
  error.
- `LaserTracking.MaxProjection`: a stack with no frames or no columns is
  treated as reducible, because numpy returns an empty image in that
  case. Only a missing height axis is an error.
- `Arrays.MapFrames`: the function is a parameter, and its results must
  be well-formed images.
- `RadialGradient.DirectionalGradients`: the families' filters are
  parameters, so their output is not characterised further.
