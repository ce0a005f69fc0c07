/** The index steps of the automatic laser-trajectory estimate: the
    maximum projection over the height axis, the banded footprint of the
    median filter, and the per-column first-occurrence argmax that picks the
    time of the strongest response at every spatial position. The filters
    themselves and the robust line regression are not modelled. */
module LaserTracking {
  import opened Errors
  import opened Numerics
  import opened Arrays

  /** `np.eye(n, k=d)`: ones on the diagonal shifted `d` columns right. */
  function Eye(n: nat, d: int): seq<seq<int>>
  {
    seq(n, i requires 0 <= i < n => seq(n, j requires 0 <= j < n => if j == i + d then 1 else 0))
  }

  /** `m[:, ::-1]`: every row with its columns in reverse order. */
  function ReverseColumns(m: seq<seq<int>>): seq<seq<int>>
  {
    seq(|m|, i requires 0 <= i < |m| => seq(|m[i]|, j requires 0 <= j < |m[i]| => m[i][|m[i]| - 1 - j]))
  }

  /** Element-wise sum of two matrices of the same shape. */
  function AddMatrices(a: seq<seq<int>>, b: seq<seq<int>>): seq<seq<int>>
    requires |a| == |b| && forall i | 0 <= i < |a| :: |a[i]| == |b[i]|
  {
    seq(|a|, i requires 0 <= i < |a| => seq(|a[i]|, j requires 0 <= j < |a[i]| => a[i][j] + b[i][j]))
  }

  /** The median-filter footprint: the anti-diagonal of a k-by-k matrix and
      the two diagonals next to it. It is a 0/1 matrix whose entry (i, j)
      is 1 exactly when i + j is k - 2, k - 1 or k, hence symmetric. */
  function Footprint(k: nat): (f: seq<seq<int>>)
    ensures |f| == k
    ensures forall i | 0 <= i < k :: |f[i]| == k
    ensures forall i, j | 0 <= i < k && 0 <= j < k ::
      f[i][j] == (if k - 2 <= i + j <= k then 1 else 0)
    ensures forall i, j | 0 <= i < k && 0 <= j < k :: f[i][j] == f[j][i]
  {
    var anti := ReverseColumns(Eye(k, 0));
    var above := ReverseColumns(Eye(k, 1));
    var below := ReverseColumns(Eye(k, -1));
    AddMatrices(AddMatrices(anti, above), below)
  }

  /** `np.max(np.swapaxes(stack, 0, 1), axis=0)`: for every frame and column
      the brightest sample over the height; numpy has no maximum of an
      empty axis. */
  function MaxProjection(stack: Array3<real>): (r: Result<Array2<real>>)
    requires stack.Valid()
    ensures r.Err? <==> stack.height == 0
    ensures r.Err? ==> r.error == EmptyReduction
    ensures r.Ok? ==> r.value.Valid() && r.value.rows == stack.frames && r.value.cols == stack.width
    ensures r.Ok? ==> forall t, x | 0 <= t < stack.frames && 0 <= x < stack.width ::
      IsColumnMax(stack, t, x, r.value.data[t][x])
  {
    if stack.height == 0 then Err(EmptyReduction)
    else
      var data := seq(stack.frames, t requires 0 <= t < stack.frames =>
        seq(stack.width, x requires 0 <= x < stack.width => ColumnMax(stack, t, x)));
      assert forall t, x | 0 <= t < stack.frames && 0 <= x < stack.width ::
        data[t][x] == ColumnMax(stack, t, x);
      Ok(Array2(stack.frames, stack.width, data))
  }

  /** `m` is a sample of column `x` of frame `t` and no sample of it is larger. */
  predicate IsColumnMax(stack: Array3<real>, t: nat, x: nat, m: real)
    requires stack.Valid() && t < stack.frames && x < stack.width
  {
    && (forall y | 0 <= y < stack.height :: stack.data[t][y][x] <= m)
    && (exists y | 0 <= y < stack.height :: stack.data[t][y][x] == m)
  }

  /** The largest sample of column `x` of frame `t`. */
  function ColumnMax(stack: Array3<real>, t: nat, x: nat): (m: real)
    requires stack.Valid() && t < stack.frames && x < stack.width && stack.height > 0
    ensures IsColumnMax(stack, t, x, m)
  {
    var c := Column(stack, t, x);
    var m := MaxOf(c);
    assert forall y | 0 <= y < stack.height :: stack.data[t][y][x] == c[y];
    m
  }

  /** `t` is where column `x` of `img` takes its maximum for the first time. */
  predicate IsFirstArgmax(img: Array2<real>, x: nat, t: nat)
    requires img.Valid() && x < img.cols
  {
    && t < img.rows
    && (forall s | 0 <= s < img.rows :: img.data[s][x] <= img.data[t][x])
    && (forall s | 0 <= s < t :: img.data[s][x] < img.data[t][x])
  }

  /** The first-occurrence rule leaves no choice: a column has one such index. */
  lemma FirstArgmaxUnique(img: Array2<real>, x: nat, a: nat, b: nat)
    requires img.Valid() && x < img.cols
    requires IsFirstArgmax(img, x, a) && IsFirstArgmax(img, x, b)
    ensures a == b
  {
    assert img.data[a][x] <= img.data[b][x] <= img.data[a][x];
  }

  /** The argmax of one column, scanning rows from the top. */
  method ColumnArgmax(img: Array2<real>, x: nat) returns (t: nat)
    requires img.Valid() && x < img.cols && img.rows > 0
    ensures IsFirstArgmax(img, x, t)
  {
    t := 0;
    var s := 1;
    while s < img.rows
      invariant 1 <= s <= img.rows
      invariant t < s
      invariant forall u | 0 <= u < s :: img.data[u][x] <= img.data[t][x]
      invariant forall u | 0 <= u < t :: img.data[u][x] < img.data[t][x]
    {
      if img.data[s][x] > img.data[t][x] {
        t := s;
      }
      s := s + 1;
    }
  }

  /** `img.argmax(0)`: for every column the first row holding its maximum;
      numpy refuses an image without rows. */
  method Argmax(img: Array2<real>) returns (r: Result<seq<nat>>)
    requires img.Valid()
    ensures r.Err? <==> img.rows == 0
    ensures r.Err? ==> r.error == EmptyReduction
    ensures r.Ok? ==> |r.value| == img.cols
    ensures r.Ok? ==> forall x | 0 <= x < img.cols :: IsFirstArgmax(img, x, r.value[x])
  {
    if img.rows == 0 {
      return Err(EmptyReduction);
    }
    var maxima: seq<nat> := [];
    while |maxima| < img.cols
      invariant |maxima| <= img.cols
      invariant forall x | 0 <= x < |maxima| :: IsFirstArgmax(img, x, maxima[x])
    {
      var t := ColumnArgmax(img, |maxima|);
      maxima := maxima + [t];
    }
    return Ok(maxima);
  }
}
