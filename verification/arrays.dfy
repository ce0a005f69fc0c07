/** numpy arrays as immutable nested sequences that carry their shape, so
    that arrays with a zero-length axis keep the extents of the others.
    Stacks have axes (time, height, width); each time slice is one frame. */
module Arrays {
  import opened Errors
  import opened Numerics

  /** A two-dimensional array: `data[row][col]`. */
  datatype Array2<T> = Array2(rows: nat, cols: nat, data: seq<seq<T>>)
  {
    predicate Valid()
    {
      && |data| == rows
      && forall y | 0 <= y < |data| :: |data[y]| == cols
    }
  }

  /** A stack of frames: `data[t][y][x]` is the sample at time `t`, row `y`
      and column `x`. */
  datatype Array3<T> = Array3(frames: nat, height: nat, width: nat, data: seq<seq<seq<T>>>)
  {
    predicate Valid()
    {
      && |data| == frames
      && (forall t | 0 <= t < |data| :: |data[t]| == height)
      && (forall t, y | 0 <= t < |data| && 0 <= y < |data[t]| :: |data[t][y]| == width)
    }

    predicate SameShape<U>(other: Array3<U>)
    {
      frames == other.frames && height == other.height && width == other.width
    }
  }

  /** `a[t, :, x]`: the column `x` of frame `t`, top to bottom. */
  function Column<T>(a: Array3<T>, t: nat, x: nat): (c: seq<T>)
    requires a.Valid() && t < a.frames && x < a.width
    ensures |c| == a.height
    ensures forall y | 0 <= y < |c| :: c[y] == a.data[t][y][x]
  {
    seq(a.height, y requires 0 <= y < a.height => a.data[t][y][x])
  }

  /** `np.stack([func(img) for img in stack], axis=0)`: applies a 2-D
      function to every frame; numpy refuses to stack nothing and refuses
      results whose shapes differ. */
  function MapFrames<A, B>(stack: Array3<A>, func: seq<seq<A>> -> Array2<B>): (r: Result<Array3<B>>)
    requires stack.Valid()
    requires forall t | 0 <= t < stack.frames :: func(stack.data[t]).Valid()
    ensures r == Err(NothingToStack) <==> stack.frames == 0
    ensures r == Err(ShapeMismatch) <==>
      && stack.frames > 0
      && exists t | 0 <= t < stack.frames ::
           func(stack.data[t]).rows != func(stack.data[0]).rows
           || func(stack.data[t]).cols != func(stack.data[0]).cols
    ensures r.Err? ==> r.error in {NothingToStack, ShapeMismatch}
    ensures r.Ok? ==>
      && r.value.Valid()
      && r.value.frames == stack.frames
      && forall t | 0 <= t < stack.frames :: r.value.data[t] == func(stack.data[t]).data
  {
    if stack.frames == 0 then Err(NothingToStack)
    else
      var first := func(stack.data[0]);
      if exists t | 0 <= t < stack.frames ::
           func(stack.data[t]).rows != first.rows || func(stack.data[t]).cols != first.cols then
        Err(ShapeMismatch)
      else
        var data := seq(stack.frames, t requires 0 <= t < stack.frames => func(stack.data[t]).data);
        assert forall t | 0 <= t < |data| ::
          (data[t] == func(stack.data[t]).data && func(stack.data[t]).Valid()
           && func(stack.data[t]).rows == first.rows && func(stack.data[t]).cols == first.cols);
        Ok(Array3(stack.frames, first.rows, first.cols, data))
  }

  /** Mapping the function that rebuilds each frame as an array gives back
      the stack it was applied to (a frame without rows does not remember
      its width, hence the non-empty height). */
  lemma MapFramesIdentity<A>(stack: Array3<A>)
    requires stack.Valid() && stack.frames > 0 && stack.height > 0
    ensures MapFrames(stack, (img: seq<seq<A>>) => AsArray2(img)) == Ok(stack)
  {
    var func := (img: seq<seq<A>>) => AsArray2(img);
    forall t | 0 <= t < stack.frames
      ensures func(stack.data[t]) == Array2(stack.height, stack.width, stack.data[t])
    {
      assert |stack.data[t][0]| == stack.width;
    }
    var r := MapFrames(stack, func);
    assert r.Ok?;
    assert r.value.data == stack.data;
  }

  /** Reads a rectangular nested sequence as a 2-D array; an array without
      rows is read as having no columns. */
  function AsArray2<A>(img: seq<seq<A>>): (r: Array2<A>)
    ensures r.Valid() <==> forall y | 0 <= y < |img| :: |img[y]| == |img[0]|
    ensures r.data == img
  {
    Array2(|img|, if |img| == 0 then 0 else |img[0]|, img)
  }

  /** The indices of the entries of `flags` that are false, in increasing
      order: the frame selection `stack[~mask]`. */
  function Unflagged(flags: seq<bool>): (r: seq<nat>)
    ensures forall k | 0 <= k < |r| :: r[k] < |flags| && !flags[r[k]]
    ensures |r| + Count(flags) == |flags|
  {
    if |flags| == 0 then []
    else
      var last := |flags| - 1;
      Unflagged(flags[..last]) + (if flags[last] then [] else [last])
  }

  /** The selected indices keep their original order. */
  lemma {:induction false} UnflaggedIncreasing(flags: seq<bool>)
    ensures forall k, l | 0 <= k < l < |Unflagged(flags)| :: Unflagged(flags)[k] < Unflagged(flags)[l]
  {
    if |flags| > 0 {
      var last := |flags| - 1;
      UnflaggedIncreasing(flags[..last]);
    }
  }

  /** Every unflagged index is selected. */
  lemma {:induction false} UnflaggedComplete(flags: seq<bool>, t: nat)
    requires t < |flags| && !flags[t]
    ensures t in Unflagged(flags)
  {
    var last := |flags| - 1;
    if t < last {
      UnflaggedComplete(flags[..last], t);
    }
  }

  /** Two strictly increasing sequences with the same elements are equal. */
  lemma {:induction false} IncreasingBySet(a: seq<nat>, b: seq<nat>)
    requires forall k, l | 0 <= k < l < |a| :: a[k] < a[l]
    requires forall k, l | 0 <= k < l < |b| :: b[k] < b[l]
    requires forall t :: t in a <==> t in b
    ensures a == b
    decreases |a| + |b|
  {
    if |a| > 0 {
      assert a[0] in b;
    }
    if |b| > 0 {
      assert b[0] in a;
    }
    if |a| > 0 {
      var m, n := a[|a| - 1], b[|b| - 1];
      assert m in b && n in a;
      assert m == n;
      var a', b' := a[..|a| - 1], b[..|b| - 1];
      forall t
        ensures t in a' <==> t in b'
      {
        if t in a' {
          assert t < m;
          assert t in b;
        }
        if t in b' {
          assert t < n;
          assert t in a;
        }
      }
      IncreasingBySet(a', b');
      assert a == a' + [m] && b == b' + [n];
    }
  }

  /** `Unflagged` is the only strictly increasing sequence of exactly the
      unflagged indices. */
  lemma UnflaggedDetermined(flags: seq<bool>, keep: seq<nat>)
    requires forall k, l | 0 <= k < l < |keep| :: keep[k] < keep[l]
    requires forall k | 0 <= k < |keep| :: keep[k] < |flags| && !flags[keep[k]]
    requires forall t | 0 <= t < |flags| && !flags[t] :: t in keep
    ensures Unflagged(flags) == keep
  {
    var selected := Unflagged(flags);
    UnflaggedIncreasing(flags);
    forall t | t in selected
      ensures t in keep
    {
      var k :| 0 <= k < |selected| && selected[k] == t;
    }
    forall t | t in keep
      ensures t in selected
    {
      var k :| 0 <= k < |keep| && keep[k] == t;
      UnflaggedComplete(flags, t);
    }
    IncreasingBySet(selected, keep);
  }

  /** `a[keep]` for a sequence of frame indices. */
  function SelectFrames<T>(a: Array3<T>, keep: seq<nat>): (r: Array3<T>)
    requires a.Valid()
    requires forall k | 0 <= k < |keep| :: keep[k] < a.frames
    ensures r.Valid() && r.frames == |keep| && r.height == a.height && r.width == a.width
    ensures forall k | 0 <= k < |keep| :: r.data[k] == a.data[keep[k]]
  {
    Array3(|keep|, a.height, a.width, seq(|keep|, k requires 0 <= k < |keep| => a.data[keep[k]]))
  }

  /** `a[:-1]`: every frame but the last; nothing from an empty stack. */
  function DropLast<T>(a: Array3<T>): (r: Array3<T>)
    requires a.Valid()
    ensures r.Valid() && r.height == a.height && r.width == a.width
    ensures r.frames == Max(a.frames - 1, 0)
    ensures forall t | 0 <= t < r.frames :: r.data[t] == a.data[t]
  {
    if a.frames == 0 then a
    else Array3(a.frames - 1, a.height, a.width, a.data[..a.frames - 1])
  }

  /** `np.isclose(a, 1)`: the samples marking the outside of the material. */
  function MarkerMask(a: Array3<real>): (r: Array3<bool>)
    requires a.Valid()
    ensures r.Valid() && r.SameShape(a)
    ensures forall t, y, x | 0 <= t < a.frames && 0 <= y < a.height && 0 <= x < a.width ::
      r.data[t][y][x] == IsClose(a.data[t][y][x], 1.0)
  {
    Array3(a.frames, a.height, a.width,
      seq(a.frames, t requires 0 <= t < a.frames =>
        seq(a.height, y requires 0 <= y < a.height =>
          seq(a.width, x requires 0 <= x < a.width => IsClose(a.data[t][y][x], 1.0)))))
  }

  /** `np.sum(a, axis=1)`: every column of every frame summed over the height. */
  function SumOverHeight(a: Array3<real>): (r: Array2<real>)
    requires a.Valid()
    ensures r.Valid() && r.rows == a.frames && r.cols == a.width
    ensures forall t, x | 0 <= t < a.frames && 0 <= x < a.width :: r.data[t][x] == Sum(Column(a, t, x))
  {
    Array2(a.frames, a.width,
      seq(a.frames, t requires 0 <= t < a.frames =>
        seq(a.width, x requires 0 <= x < a.width => Sum(Column(a, t, x)))))
  }
}
