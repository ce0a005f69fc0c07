/** The index and dispatch parts of the radial-gradient step: the per-frame
    material height at a fixed column, which places the reference point of
    each frame, and the choice of the pair of directional edge filters. The
    filters themselves and the radial projection are not modelled. */
module RadialGradient {
  import opened Errors
  import opened Numerics
  import opened Arrays

  /** The edge-filter families `radial_gradient` offers. */
  datatype GradientMethod = Sobel | Prewitt | Scharr | Farid

  function MethodName(m: GradientMethod): string
  {
    match m
    case Sobel => "sobel"
    case Prewitt => "prewitt"
    case Scharr => "scharr"
    case Farid => "farid"
  }

  /** The `method` argument of `radial_gradient`: one of four names, any
      other name raises ValueError. */
  function ParseMethod(name: string): (r: Result<GradientMethod>)
    ensures r.Ok? <==> name in {"sobel", "prewitt", "scharr", "farid"}
    ensures r.Ok? ==> MethodName(r.value) == name
    ensures r.Err? ==> r.error == UnknownMethod(name)
  {
    if name == "sobel" then Ok(Sobel)
    else if name == "prewitt" then Ok(Prewitt)
    else if name == "scharr" then Ok(Scharr)
    else if name == "farid" then Ok(Farid)
    else Err(UnknownMethod(name))
  }

  /** Every family is selected by its own name, so distinct families have
      distinct names. */
  lemma ParseMethodName(m: GradientMethod)
    ensures ParseMethod(MethodName(m)) == Ok(m)
  {
  }

  /** A per-frame filter, returning an image. */
  type Filter = seq<seq<real>> -> Array2<real>

  /** The two directional gradient stacks of `radial_gradient`: the x
      gradient from the family's vertical-edge filter (`*_v`) and the y
      gradient from its horizontal-edge filter (`*_h`), each applied frame by
      frame. The method name is checked before any filtering. */
  function DirectionalGradients(stack: Array3<real>, name: string,
                                vertical: GradientMethod -> Filter,
                                horizontal: GradientMethod -> Filter): (r: Result<(Array3<real>, Array3<real>)>)
    requires stack.Valid()
    requires forall m, t | 0 <= t < stack.frames :: vertical(m)(stack.data[t]).Valid()
    requires forall m, t | 0 <= t < stack.frames :: horizontal(m)(stack.data[t]).Valid()
    ensures r == Err(UnknownMethod(name)) <==> ParseMethod(name).Err?
    ensures ParseMethod(name).Ok? ==> (r == Err(NothingToStack) <==> stack.frames == 0)
    ensures r.Err? ==> r.error in {UnknownMethod(name), NothingToStack, ShapeMismatch}
    ensures r.Ok? ==>
      var m := ParseMethod(name).value;
      var (xGrad, yGrad) := r.value;
      && ParseMethod(name).Ok?
      && xGrad.Valid() && yGrad.Valid()
      && xGrad.frames == yGrad.frames == stack.frames
      && (forall t | 0 <= t < stack.frames :: xGrad.data[t] == vertical(m)(stack.data[t]).data)
      && (forall t | 0 <= t < stack.frames :: yGrad.data[t] == horizontal(m)(stack.data[t]).data)
  {
    match ParseMethod(name)
    case Err(e) => Err(e)
    case Ok(m) =>
      match MapFrames(stack, vertical(m))
      case Err(e) => Err(e)
      case Ok(xGrad) =>
        match MapFrames(stack, horizontal(m))
        case Err(e) => Err(e)
        case Ok(yGrad) => Ok((xGrad, yGrad))
  }

  /** `estimate_material_height`: per frame, the number of samples of column
      `x` that are close to 1. A column index outside [-width, width)
      raises IndexError; a negative one counts from the right. */
  function EstimateMaterialHeight(stack: Array3<real>, x: int): (r: Result<seq<nat>>)
    requires stack.Valid()
    ensures r.Err? <==> !(-(stack.width as int) <= x < stack.width)
    ensures r.Err? ==> r.error == IndexOutOfRange
    ensures r.Ok? ==> |r.value| == stack.frames
    ensures r.Ok? ==> forall t | 0 <= t < stack.frames :: r.value[t] <= stack.height
    ensures r.Ok? ==> forall t | 0 <= t < stack.frames ::
      (r.value[t] == 0 <==> forall y | 0 <= y < stack.height :: !IsClose(stack.data[t][y][x % stack.width], 1.0))
    ensures r.Ok? ==> forall t | 0 <= t < stack.frames ::
      (r.value[t] == stack.height <==> forall y | 0 <= y < stack.height :: IsClose(stack.data[t][y][x % stack.width], 1.0))
  {
    match PyIndex(x, stack.width)
    case None => Err(IndexOutOfRange)
    case Some(col) =>
      Ok(seq(stack.frames, t requires 0 <= t < stack.frames => Count(Column(MarkerMask(stack), t, col))))
  }

  /** Each per-frame height is the size of the set of marker rows of the column. */
  lemma MaterialHeightIsMarkerCount(stack: Array3<real>, x: int, t: nat)
    requires stack.Valid() && t < stack.frames
    requires EstimateMaterialHeight(stack, x).Ok?
    ensures -(stack.width as int) <= x < stack.width
    ensures EstimateMaterialHeight(stack, x).value[t]
      == |set y | 0 <= y < stack.height && IsClose(stack.data[t][y][x % stack.width], 1.0)|
  {
    var col := x % stack.width;
    var c := Column(MarkerMask(stack), t, col);
    CountIsCardinality(c);
    assert (set y | 0 <= y < |c| && c[y])
      == (set y | 0 <= y < stack.height && IsClose(stack.data[t][y][col], 1.0));
  }
}
