/** The moving-window reslice: for every laser position in a range, the
    frame in which the laser stands there is cut to a fixed-width window
    placed at a constant offset behind the laser, so that in the resliced
    stack the laser stays put and the sample appears to move.

    The trajectory gives the time frame as a function of the laser
    position: frame = round(intercept + position * coef). */
module Reslice {
  import opened Errors
  import opened Numerics
  import opened Arrays

  /** One row of the position log: the columns "Time frame",
      "Laser position", "Window start" and "Window stop". */
  datatype WindowRow = WindowRow(timeFrame: int, laserPosition: int, windowStart: int, windowStop: int)

  /** The resliced stack together with its position log. */
  datatype Resliced<T> = Resliced(resliced: Array3<T>, positions: seq<WindowRow>)

  /** `max(0, window_offset)`: the first laser position resliced. */
  function FirstPosition(offset: int): (p: int)
    ensures 0 <= p && offset <= p
    ensures p == 0 || p == offset
  {
    Max(0, offset)
  }

  /** `min(round(-intercept / coef), width - window_size + window_offset)`:
      the exclusive end of the resliced laser positions. */
  function LastPosition(width: nat, coef: real, intercept: real, offset: int, size: int): (p: int)
    requires coef != 0.0
    ensures p <= Round(-intercept / coef) && p <= width - size + offset
    ensures p == Round(-intercept / coef) || p == width - size + offset
  {
    Min(Round(-intercept / coef), width - size + offset)
  }

  /** `intercept + pos * coef`: the (fractional) frame at which the laser
      passes `pos`. */
  function Trajectory(coef: real, intercept: real, pos: int): real
  {
    intercept + pos as real * coef
  }

  /** `round(intercept + pos * coef)`: the frame read for the laser at `pos`. */
  function TimeFrame(coef: real, intercept: real, pos: int): (t: int)
    ensures Trajectory(coef, intercept, pos) - 0.5 <= t as real <= Trajectory(coef, intercept, pos) + 0.5
  {
    Round(Trajectory(coef, intercept, pos))
  }

  /** The window of the laser position `pos` lies inside a stack of the
      given width, and never touches its last column. */
  predicate WindowInside(pos: int, offset: int, size: int, width: nat)
  {
    0 <= pos - offset && pos - offset + size <= width - 1
  }

  /** The range [first, last) of laser positions to reslice, or the error
      raised before anything is allocated. */
  function LaserRange(width: nat, coef: real, intercept: real, offset: int, size: int): (r: Result<(int, int)>)
    ensures r == Err(ZeroDivision) <==> coef == 0.0
    ensures r == Err(WindowTooLarge) <==>
      coef != 0.0 && LastPosition(width, coef, intercept, offset, size) - FirstPosition(offset) < 1
    ensures r.Err? ==> r.error in {ZeroDivision, WindowTooLarge}
    ensures r.Ok? ==> r.value == (FirstPosition(offset), LastPosition(width, coef, intercept, offset, size))
    ensures r.Ok? ==> 0 <= r.value.0 < r.value.1 <= Round(-intercept / coef)
    ensures r.Ok? ==> forall pos | r.value.0 <= pos < r.value.1 :: WindowInside(pos, offset, size, width)
  {
    if coef == 0.0 then Err(ZeroDivision)
    else
      var first := FirstPosition(offset);
      var last := LastPosition(width, coef, intercept, offset, size);
      if last - first < 1 then Err(WindowTooLarge)
      else Ok((first, last))
  }

  /** `_reslice_with_moving_window`: one output frame and one log row per
      laser position of `LaserRange`, in increasing position order. */
  method ResliceWithMovingWindow<T>(stack: Array3<T>, coef: real, intercept: real, offset: int, size: int)
    returns (r: Result<Resliced<T>>)
    requires stack.Valid()
    ensures r == Err(ZeroDivision) <==> coef == 0.0
    ensures r == Err(WindowTooLarge) <==>
      coef != 0.0 && LastPosition(stack.width, coef, intercept, offset, size) - FirstPosition(offset) < 1
    ensures r == Err(NegativeDimension) <==>
      LaserRange(stack.width, coef, intercept, offset, size).Ok? && size < 0
    ensures r == Err(IndexOutOfRange) <==>
      && LaserRange(stack.width, coef, intercept, offset, size).Ok?
      && size >= 0
      && exists pos | FirstPosition(offset) <= pos < LastPosition(stack.width, coef, intercept, offset, size) ::
           PyIndex(TimeFrame(coef, intercept, pos), stack.frames).None?
    ensures r.Err? ==> r.error in {ZeroDivision, WindowTooLarge, NegativeDimension, IndexOutOfRange}
    ensures r.Ok? ==>
      var first := FirstPosition(offset);
      var out := r.value.resliced;
      var log := r.value.positions;
      && coef != 0.0
      && out.Valid()
      && out.frames == |log| == LastPosition(stack.width, coef, intercept, offset, size) - first
      && out.height == stack.height
      && out.width == size
      && (forall i | 0 <= i < |log| :: log[i].laserPosition == first + i)
      && (forall i, j | 0 <= i < j < |log| :: log[i].laserPosition < log[j].laserPosition)
      && (forall i | 0 <= i < |log| :: log[i].timeFrame == TimeFrame(coef, intercept, log[i].laserPosition))
      && (forall i | 0 <= i < |log| :: log[i].windowStart == log[i].laserPosition - offset)
      && (forall i | 0 <= i < |log| :: log[i].windowStop - log[i].windowStart == size)
      && (forall i | 0 <= i < |log| :: 0 <= log[i].windowStart && log[i].windowStop <= stack.width - 1)
      && (forall i | 0 <= i < |log| :: PyIndex(log[i].timeFrame, stack.frames).Some?)
      && (forall i, y, x | 0 <= i < |log| && 0 <= y < stack.height && 0 <= x < size ::
            out.data[i][y][x]
            == stack.data[PyIndex(log[i].timeFrame, stack.frames).value][y][log[i].windowStart + x])
  {
    var range := LaserRange(stack.width, coef, intercept, offset, size);
    if range.Err? {
      return Err(range.error);
    }
    var first, last := range.value.0, range.value.1;
    if size < 0 {
      return Err(NegativeDimension);
    }
    var frames: seq<seq<seq<T>>> := [];
    var log: seq<WindowRow> := [];
    var pos := first;
    while pos < last
      invariant first <= pos <= last
      invariant |frames| == |log| == pos - first
      invariant forall i | 0 <= i < |log| :: log[i] == LogRow(coef, intercept, offset, size, first + i)
      invariant forall p | first <= p < pos :: PyIndex(TimeFrame(coef, intercept, p), stack.frames).Some?
      invariant forall i | 0 <= i < |frames| ::
        && PyIndex(log[i].timeFrame, stack.frames).Some?
        && WindowInside(first + i, offset, size, stack.width)
        && frames[i] == Window(stack, PyIndex(log[i].timeFrame, stack.frames).value, log[i].windowStart, size)
    {
      var t := TimeFrame(coef, intercept, pos);
      var k := PyIndex(t, stack.frames);
      if k.None? {
        return Err(IndexOutOfRange);
      }
      assert WindowInside(pos, offset, size, stack.width);
      frames := frames + [Window(stack, k.value, pos - offset, size)];
      log := log + [WindowRow(t, pos, pos - offset, pos - offset + size)];
      pos := pos + 1;
    }
    return Ok(Resliced(Array3(last - first, stack.height, size, frames), log));
  }

  /** The log row of the laser position `pos`. */
  function LogRow(coef: real, intercept: real, offset: int, size: int, pos: int): WindowRow
  {
    WindowRow(TimeFrame(coef, intercept, pos), pos, pos - offset, pos - offset + size)
  }

  /** `stack[k, :, start:start + size]` for a window inside the frame. */
  function Window<T>(stack: Array3<T>, k: nat, start: int, size: int): (w: seq<seq<T>>)
    requires stack.Valid() && k < stack.frames
    requires 0 <= start && 0 <= size && start + size <= stack.width
    ensures |w| == stack.height
    ensures forall y | 0 <= y < |w| :: |w[y]| == size
    ensures forall y, x | 0 <= y < |w| && 0 <= x < size :: w[y][x] == stack.data[k][y][start + x]
  {
    seq(stack.height, y requires 0 <= y < stack.height => stack.data[k][y][start..start + size])
  }

  /** Time frames follow the laser position monotonically: increasing with
      it for a positive coefficient, decreasing for a negative one. */
  lemma TimeFramesMonotone(coef: real, intercept: real, p: int, q: int)
    requires p <= q
    ensures coef > 0.0 ==> TimeFrame(coef, intercept, p) <= TimeFrame(coef, intercept, q)
    ensures coef < 0.0 ==> TimeFrame(coef, intercept, p) >= TimeFrame(coef, intercept, q)
  {
    var x, y := Trajectory(coef, intercept, p), Trajectory(coef, intercept, q);
    if coef > 0.0 {
      MulMonotone(p as real, q as real, coef);
      RoundMonotone(x, y);
    } else if coef < 0.0 {
      MulMonotone(p as real, q as real, -coef);
      RoundMonotone(y, x);
    }
  }

  /** The range ends at the rounded position where the trajectory meets
      frame 0. For a negative coefficient (a pass from right to left) every
      resliced position therefore maps to a frame index >= 0; for a
      positive one every frame index is <= 0, so Python's negative indexing
      reads frames counted from the end of the stack. */
  lemma TimeFrameSign(coef: real, intercept: real, pos: int)
    requires coef != 0.0
    requires pos < Round(-intercept / coef)
    ensures coef < 0.0 ==> TimeFrame(coef, intercept, pos) >= 0
    ensures coef > 0.0 ==> TimeFrame(coef, intercept, pos) <= 0
  {
    var zero := -intercept / coef;
    var x := pos as real;
    var t := Trajectory(coef, intercept, pos);
    assert x <= zero - 0.5;
    assert zero * coef == -intercept;
    if coef < 0.0 {
      MulMonotone(x, zero - 0.5, -coef);
      assert t >= -0.5 * coef;
    } else {
      MulMonotone(x, zero - 0.5, coef);
      assert t <= -0.5 * coef;
    }
  }

  /** For a pass from right to left the reslice reads a frame that does not
      exist exactly when the frame of the first position is beyond the end
      of the stack: frames only decrease from there and never go negative. */
  lemma {:induction false} IndexErrorOnlyAtFirstFrame(width: nat, frames: nat, coef: real, intercept: real, offset: int, size: int)
    requires coef < 0.0
    requires LaserRange(width, coef, intercept, offset, size).Ok?
    ensures
      (exists pos | FirstPosition(offset) <= pos < LastPosition(width, coef, intercept, offset, size) ::
         PyIndex(TimeFrame(coef, intercept, pos), frames).None?)
      <==> TimeFrame(coef, intercept, FirstPosition(offset)) >= frames
  {
    var first := FirstPosition(offset);
    var last := LastPosition(width, coef, intercept, offset, size);
    if TimeFrame(coef, intercept, first) >= frames {
      assert PyIndex(TimeFrame(coef, intercept, first), frames).None?;
    } else {
      forall pos | first <= pos < last
        ensures PyIndex(TimeFrame(coef, intercept, pos), frames).Some?
      {
        TimeFramesMonotone(coef, intercept, first, pos);
        TimeFrameSign(coef, intercept, pos);
      }
    }
  }
}
