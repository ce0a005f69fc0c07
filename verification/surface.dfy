/** Surface extraction: the frames whose reslicing window left a column
    empty are dropped, the material surface of every column is located as
    the deepest sample marked as outside the material, and a thin band of
    samples right below it is collapsed into one profile image. */
module Surface {
  import opened Errors
  import opened Numerics
  import opened Arrays

  /** `incomplete_frames`: a frame is incomplete when some column sums to
      (nearly) zero over the height. */
  function IncompleteFrames(stack: Array3<real>): (r: seq<bool>)
    requires stack.Valid()
    ensures |r| == stack.frames
    ensures forall t | 0 <= t < stack.frames ::
      r[t] <==> exists x | 0 <= x < stack.width :: IsClose(Sum(Column(stack, t, x)), 0.0)
  {
    var projection := SumOverHeight(stack);
    seq(stack.frames, t requires 0 <= t < stack.frames =>
      exists x | 0 <= x < stack.width :: IsClose(projection.data[t][x], 0.0))
  }

  /** A column left entirely unfilled makes its frame incomplete. */
  lemma EmptyColumnMakesFrameIncomplete(stack: Array3<real>, t: nat, x: nat)
    requires stack.Valid() && t < stack.frames && x < stack.width
    requires forall y | 0 <= y < stack.height :: stack.data[t][y][x] == 0.0
    ensures IncompleteFrames(stack)[t]
  {
    SumOfZeros(Column(stack, t, x));
  }

  /** On non-negative data, a frame in which every column holds a sample
      of at least 1 is complete. */
  lemma FilledFrameIsComplete(stack: Array3<real>, t: nat)
    requires stack.Valid() && t < stack.frames
    requires forall y, x | 0 <= y < stack.height && 0 <= x < stack.width :: stack.data[t][y][x] >= 0.0
    requires forall x | 0 <= x < stack.width :: ReachesOne(stack, t, x)
    ensures !IncompleteFrames(stack)[t]
  {
    forall x | 0 <= x < stack.width
      ensures !IsClose(Sum(Column(stack, t, x)), 0.0)
    {
      assert ReachesOne(stack, t, x);
      var y :| 0 <= y < stack.height && stack.data[t][y][x] >= 1.0;
      SumBoundsTerm(Column(stack, t, x), y);
    }
  }

  /** Every sample of the stack holds an integer. */
  predicate IntegerStack(stack: Array3<real>)
    requires stack.Valid()
  {
    forall t, y, x | 0 <= t < stack.frames && 0 <= y < stack.height && 0 <= x < stack.width ::
      Integral(stack.data[t][y][x])
  }

  /** On integer data the tolerance of `np.isclose` plays no part: a frame
      is incomplete exactly when some column sums to 0. */
  lemma IntegerIncompleteFrames(stack: Array3<real>, t: nat)
    requires stack.Valid() && IntegerStack(stack) && t < stack.frames
    ensures IncompleteFrames(stack)[t] <==> exists x | 0 <= x < stack.width :: Sum(Column(stack, t, x)) == 0.0
  {
    forall x | 0 <= x < stack.width
      ensures IsClose(Sum(Column(stack, t, x)), 0.0) <==> Sum(Column(stack, t, x)) == 0.0
    {
      var c := Column(stack, t, x);
      SumOfIntegral(c);
      IntegerCloseness(Sum(c).Floor);
    }
  }

  /** Column `x` of frame `t` holds a sample of at least 1. */
  predicate ReachesOne(stack: Array3<real>, t: nat, x: nat)
    requires stack.Valid() && t < stack.frames && x < stack.width
  {
    exists y | 0 <= y < stack.height :: stack.data[t][y][x] >= 1.0
  }

  /** `np.max(np.where(column)[0])`: the deepest row of a mask column that is
      True; numpy has no maximum of an empty selection. */
  function LastTrue(column: seq<bool>): (r: Option<nat>)
    ensures r.None? <==> forall y | 0 <= y < |column| :: !column[y]
    ensures r.Some? ==> r.value < |column| && column[r.value]
    ensures r.Some? ==> forall y | r.value < y < |column| :: !column[y]
  {
    if |column| == 0 then None
    else if column[|column| - 1] then Some(|column| - 1)
    else LastTrue(column[..|column| - 1])
  }

  /** Entry `l` of the band copied below the surface row `surface` of a
      column, as `get_surface` fills it: nothing when fewer than one row is
      left below the surface plus `top`, otherwise the first `k` entries of
      the slice and zeros after them. */
  function BandEntry(column: seq<real>, surface: nat, top: nat, layers: nat, l: nat): (v: real)
    ensures l < layers ==> v == Band(column, surface + top, layers)[l]
    ensures layers <= l ==> v == 0.0
  {
    if |column| - surface - top < 1 then 0.0
    else
      var k := Min(layers, |column| - surface - top);
      if l < k then column[surface + top + l] else 0.0
  }

  /** `n` samples of a column from row `start` on, with zeros past the
      bottom edge. */
  function Band(column: seq<real>, start: nat, n: nat): (b: seq<real>)
    ensures |b| == n
  {
    seq(n, l requires 0 <= l < n => if start + l < |column| then column[start + l] else 0.0)
  }

  /** Column `x` of frame `t` of the mask has a True sample. */
  predicate Marked(mask: Array3<bool>, t: nat, x: nat)
    requires mask.Valid() && t < mask.frames && x < mask.width
  {
    exists y | 0 <= y < mask.height :: mask.data[t][y][x]
  }

  /** Every column of every frame of the mask has a True sample. */
  predicate EveryColumnMarked(mask: Array3<bool>)
    requires mask.Valid()
  {
    forall t, x | 0 <= t < mask.frames && 0 <= x < mask.width :: Marked(mask, t, x)
  }

  /** A marked column has a deepest True row. */
  lemma MarkedHasSurface(mask: Array3<bool>, t: nat, x: nat)
    requires mask.Valid() && t < mask.frames && x < mask.width
    requires Marked(mask, t, x)
    ensures LastTrue(Column(mask, t, x)).Some?
  {
    var y :| 0 <= y < mask.height && mask.data[t][y][x];
    assert Column(mask, t, x)[y];
  }

  /** When every column is marked, every column has a surface row. */
  lemma EveryMarkedColumnHasSurface(mask: Array3<bool>)
    requires mask.Valid() && EveryColumnMarked(mask)
    ensures forall t, x | 0 <= t < mask.frames && 0 <= x < mask.width :: LastTrue(Column(mask, t, x)).Some?
  {
    forall t, x | 0 <= t < mask.frames && 0 <= x < mask.width
      ensures LastTrue(Column(mask, t, x)).Some?
    {
      MarkedHasSurface(mask, t, x);
    }
  }

  /** `get_surface`: for every frame and column, the `bottom - top` samples
      starting `top` rows below the deepest True row of the mask, cut off at
      the bottom edge of the frame and zero past it. */
  function GetSurface(stack: Array3<real>, mask: Array3<bool>, top: nat, bottom: int): (r: Result<Array3<real>>)
    requires stack.Valid() && mask.Valid() && mask.SameShape(stack)
    ensures r == Err(NegativeDimension) <==> bottom < top
    ensures r == Err(EmptyReduction) <==> bottom >= top && !EveryColumnMarked(mask)
    ensures r.Err? ==> r.error in {NegativeDimension, EmptyReduction}
    ensures r.Ok? ==>
      && EveryColumnMarked(mask)
      && r.value.Valid()
      && r.value.frames == stack.frames
      && r.value.height == bottom - top
      && r.value.width == stack.width
    ensures r.Ok? ==> forall t, l, x | 0 <= t < stack.frames && 0 <= l < bottom - top && 0 <= x < stack.width ::
      && LastTrue(Column(mask, t, x)).Some?
      && r.value.data[t][l][x] == Band(Column(stack, t, x), LastTrue(Column(mask, t, x)).value + top, bottom - top)[l]
  {
    if bottom < top then Err(NegativeDimension)
    else if !EveryColumnMarked(mask) then Err(EmptyReduction)
    else
      var layers := bottom - top;
      var data :=
        seq(stack.frames, t requires 0 <= t < stack.frames =>
          seq(layers, l requires 0 <= l < layers =>
            seq(stack.width, x requires 0 <= x < stack.width =>
              SurfaceSample(stack, mask, top, layers, t, l, x))));
      assert forall t, l, x | 0 <= t < stack.frames && 0 <= l < layers && 0 <= x < stack.width ::
        data[t][l][x] == SurfaceSample(stack, mask, top, layers, t, l, x);
      EveryMarkedColumnHasSurface(mask);
      Ok(Array3(stack.frames, layers, stack.width, data))
  }

  /** One entry of the extracted surface, read below the surface row of its
      column. */
  function SurfaceSample(stack: Array3<real>, mask: Array3<bool>, top: nat, layers: nat, t: nat, l: nat, x: nat): (v: real)
    requires stack.Valid() && mask.Valid() && mask.SameShape(stack)
    requires t < stack.frames && x < stack.width && l < layers
    requires EveryColumnMarked(mask)
    ensures LastTrue(Column(mask, t, x)).Some?
    ensures v == Band(Column(stack, t, x), LastTrue(Column(mask, t, x)).value + top, layers)[l]
  {
    MarkedHasSurface(mask, t, x);
    BandEntry(Column(stack, t, x), LastTrue(Column(mask, t, x)).value, top, layers, l)
  }

  /** The surface profile of the frames `keep` of two co-registered
      stacks: the surface is located from the samples of `stack` close to
      1, and the 5 rows of `edges` below it are summed, in every selected
      frame but the last. */
  function SurfaceProfile(stack: Array3<real>, edges: Array3<real>, keep: seq<nat>): (r: Result<Array2<real>>)
    requires stack.Valid() && edges.Valid() && edges.SameShape(stack)
    requires forall k | 0 <= k < |keep| :: keep[k] < stack.frames
    ensures r.Err? ==> r.error == EmptyReduction
    ensures r.Ok? ==> r.value.Valid() && r.value.rows == Max(|keep| - 1, 0) && r.value.cols == stack.width
  {
    match GetSurface(DropLast(SelectFrames(edges, keep)), DropLast(MarkerMask(SelectFrames(stack, keep))), 0, 5)
    case Err(e) => Err(e)
    case Ok(surface) => Ok(SumOverHeight(surface))
  }

  /** `get_surface_image`: the surface profile of the complete frames. */
  function GetSurfaceImage(stack: Array3<real>, edges: Array3<real>): (r: Result<Array2<real>>)
    requires stack.Valid() && edges.Valid() && edges.SameShape(stack)
    ensures r.Err? ==> r.error == EmptyReduction
    ensures r.Ok? ==>
      && r.value.Valid()
      && r.value.rows == Max(stack.frames - Count(IncompleteFrames(stack)) - 1, 0)
      && r.value.cols == stack.width
  {
    SurfaceProfile(stack, edges, Unflagged(IncompleteFrames(stack)))
  }

  /** The image `get_surface_image` returns is the surface profile of any
      selection that lists exactly the complete frames in increasing
      order: the frame selection is determined by those two properties. */
  lemma SurfaceImageOfCompleteFrames(stack: Array3<real>, edges: Array3<real>, keep: seq<nat>)
    requires stack.Valid() && edges.Valid() && edges.SameShape(stack)
    requires forall k, l | 0 <= k < l < |keep| :: keep[k] < keep[l]
    requires forall k | 0 <= k < |keep| :: keep[k] < stack.frames && !IncompleteFrames(stack)[keep[k]]
    requires forall t | 0 <= t < stack.frames && !IncompleteFrames(stack)[t] :: t in keep
    ensures GetSurfaceImage(stack, edges) == SurfaceProfile(stack, edges, keep)
  {
    UnflaggedDetermined(IncompleteFrames(stack), keep);
  }

  /** The columns `get_surface` reads for the profile are the columns of
      the selected frames of the original stacks. */
  lemma ProfileColumns(stack: Array3<real>, edges: Array3<real>, keep: seq<nat>, k: nat, x: nat)
    requires stack.Valid() && edges.Valid() && edges.SameShape(stack)
    requires forall j | 0 <= j < |keep| :: keep[j] < stack.frames
    requires k + 1 < |keep| && x < stack.width
    ensures var e := DropLast(SelectFrames(edges, keep));
      var m := DropLast(MarkerMask(SelectFrames(stack, keep)));
      && e.frames == m.frames == |keep| - 1
      && Column(e, k, x) == Column(edges, keep[k], x)
      && Column(m, k, x) == Column(MarkerMask(stack), keep[k], x)
  {
    var e := DropLast(SelectFrames(edges, keep));
    var m := DropLast(MarkerMask(SelectFrames(stack, keep)));
    assert e.data[k] == edges.data[keep[k]];
    assert Column(e, k, x) == Column(edges, keep[k], x);
    assert Column(m, k, x) == Column(MarkerMask(stack), keep[k], x);
  }

  /** The profile fails exactly when, in a selected frame other than the
      last, some column of `stack` has no sample close to 1. */
  lemma SurfaceProfileFailsExactly(stack: Array3<real>, edges: Array3<real>, keep: seq<nat>)
    requires stack.Valid() && edges.Valid() && edges.SameShape(stack)
    requires forall k | 0 <= k < |keep| :: keep[k] < stack.frames
    ensures SurfaceProfile(stack, edges, keep).Err? <==>
      exists k, x | 0 <= k < |keep| - 1 && 0 <= x < stack.width :: !Marked(MarkerMask(stack), keep[k], x)
  {
    var m := DropLast(MarkerMask(SelectFrames(stack, keep)));
    forall k, x | 0 <= k < |keep| - 1 && 0 <= x < stack.width
      ensures Marked(m, k, x) <==> Marked(MarkerMask(stack), keep[k], x)
    {
      ProfileColumns(stack, edges, keep, k, x);
      if Marked(m, k, x) {
        var y :| 0 <= y < m.height && m.data[k][y][x];
        assert Column(m, k, x)[y];
      }
      if Marked(MarkerMask(stack), keep[k], x) {
        var y :| 0 <= y < stack.height && MarkerMask(stack).data[keep[k]][y][x];
        assert Column(MarkerMask(stack), keep[k], x)[y];
        assert Column(m, k, x)[y];
      }
    }
  }

  /** Every entry of the profile is the sum of the 5 samples of `edges`
      from the surface row of its column down, cut off at the bottom edge;
      the surface row is the deepest sample of `stack` close to 1. */
  lemma SurfaceProfileEntry(stack: Array3<real>, edges: Array3<real>, keep: seq<nat>, k: nat, x: nat)
    requires stack.Valid() && edges.Valid() && edges.SameShape(stack)
    requires forall j | 0 <= j < |keep| :: keep[j] < stack.frames
    requires SurfaceProfile(stack, edges, keep).Ok?
    requires k + 1 < |keep| && x < stack.width
    ensures LastTrue(Column(MarkerMask(stack), keep[k], x)).Some?
    ensures SurfaceProfile(stack, edges, keep).value.data[k][x]
      == Sum(Band(Column(edges, keep[k], x), LastTrue(Column(MarkerMask(stack), keep[k], x)).value, 5))
  {
    var e := DropLast(SelectFrames(edges, keep));
    var m := DropLast(MarkerMask(SelectFrames(stack, keep)));
    ProfileColumns(stack, edges, keep, k, x);
    var r := GetSurface(e, m, 0, 5);
    assert r.Ok?;
    assert SurfaceProfile(stack, edges, keep) == Ok(SumOverHeight(r.value));
    SurfaceColumn(e, m, 0, 5, k, x);
    var t := keep[k];
    assert Column(r.value, k, x) == Band(Column(edges, t, x), LastTrue(Column(MarkerMask(stack), t, x)).value, 5);
    assert SumOverHeight(r.value).data[k][x] == Sum(Column(r.value, k, x));
  }

  /** A column of the extracted surface is the band below the surface row. */
  lemma SurfaceColumn(stack: Array3<real>, mask: Array3<bool>, top: nat, bottom: int, t: nat, x: nat)
    requires stack.Valid() && mask.Valid() && mask.SameShape(stack)
    requires GetSurface(stack, mask, top, bottom).Ok?
    requires t < stack.frames && x < stack.width
    ensures LastTrue(Column(mask, t, x)).Some?
    ensures Column(GetSurface(stack, mask, top, bottom).value, t, x)
      == Band(Column(stack, t, x), LastTrue(Column(mask, t, x)).value + top, bottom - top)
  {
    MarkedHasSurface(mask, t, x);
  }
}
