/** Scalar building blocks of Python and numpy semantics: `round`, sequence
    indexing with negative indices, `np.isclose`, and the reductions
    `sum`, `count_nonzero`-style counting and `max`. */
module Numerics {
  import opened Errors

  function Min(a: int, b: int): int { if a <= b then a else b }

  function Max(a: int, b: int): int { if a >= b then a else b }

  function Abs(x: real): real { if x < 0.0 then -x else x }

  /** Python's built-in `round` on a float: the nearest integer, with ties
      sent to the even neighbour. */
  function Round(x: real): (r: int)
    ensures x - 0.5 <= r as real <= x + 0.5
    ensures (r as real == x - 0.5 || r as real == x + 0.5) ==> r % 2 == 0
  {
    var f := x.Floor;
    var d := x - f as real;
    if d < 0.5 then f
    else if d > 0.5 then f + 1
    else if f % 2 == 0 then f
    else f + 1
  }

  /** The two properties in the contract of `Round` single out one integer. */
  lemma RoundUnique(x: real, n: int)
    requires x - 0.5 <= n as real <= x + 0.5
    requires (n as real == x - 0.5 || n as real == x + 0.5) ==> n % 2 == 0
    ensures n == Round(x)
  {
  }

  /** Rounding never reverses the order of two reals. */
  lemma RoundMonotone(x: real, y: real)
    requires x <= y
    ensures Round(x) <= Round(y)
  {
  }

  /** Multiplying by a non-negative factor keeps the order. */
  lemma MulMonotone(a: real, b: real, c: real)
    requires a <= b && c >= 0.0
    ensures a * c <= b * c
  {
  }

  /** Python indexing of an axis of length `n`: indices in [-n, 0) count from
      the end, anything outside [-n, n) raises IndexError. */
  function PyIndex(i: int, n: nat): (r: Option<nat>)
    ensures r.Some? <==> -(n as int) <= i < n
    ensures r.Some? ==> r.value < n && r.value == i % n
  {
    if 0 <= i < n then Some(i)
    else if -(n as int) <= i < 0 then Some(i + n)
    else None
  }

  /** numpy's default tolerances for `isclose`. */
  const RelativeTolerance: real := 0.00001
  const AbsoluteTolerance: real := 0.00000001

  /** `np.isclose(a, b)` with the default tolerances, over exact reals. */
  predicate IsClose(a: real, b: real)
  {
    Abs(a - b) <= AbsoluteTolerance + RelativeTolerance * Abs(b)
  }

  /** On integer-valued samples, closeness to 0 or to 1 is plain equality. */
  lemma IntegerCloseness(m: int)
    ensures IsClose(m as real, 0.0) <==> m == 0
    ensures IsClose(m as real, 1.0) <==> m == 1
  {
  }

  /** `np.sum` of a one-dimensional array, over exact reals. */
  function Sum(s: seq<real>): real
  {
    if |s| == 0 then 0.0 else Sum(s[..|s| - 1]) + s[|s| - 1]
  }

  /** `v` holds an integer, as the samples of an integer-typed image do. */
  predicate Integral(v: real)
  {
    v == v.Floor as real
  }

  /** A sum of integers is an integer. */
  lemma {:induction false} SumOfIntegral(s: seq<real>)
    requires forall i | 0 <= i < |s| :: Integral(s[i])
    ensures Integral(Sum(s))
  {
    if |s| > 0 {
      var p := s[..|s| - 1];
      SumOfIntegral(p);
      assert Sum(s) == (Sum(p).Floor + s[|s| - 1].Floor) as real;
    }
  }

  /** A sum of zeros is zero. */
  lemma {:induction false} SumOfZeros(s: seq<real>)
    requires forall i | 0 <= i < |s| :: s[i] == 0.0
    ensures Sum(s) == 0.0
  {
    if |s| > 0 {
      SumOfZeros(s[..|s| - 1]);
    }
  }

  /** A sum of non-negative terms is non-negative. */
  lemma {:induction false} SumNonNegative(s: seq<real>)
    requires forall i | 0 <= i < |s| :: s[i] >= 0.0
    ensures Sum(s) >= 0.0
  {
    if |s| > 0 {
      SumNonNegative(s[..|s| - 1]);
    }
  }

  /** A sum of non-negative terms is at least each of its terms. */
  lemma {:induction false} SumBoundsTerm(s: seq<real>, k: nat)
    requires forall i | 0 <= i < |s| :: s[i] >= 0.0
    requires k < |s|
    ensures Sum(s) >= s[k]
  {
    if k < |s| - 1 {
      SumBoundsTerm(s[..|s| - 1], k);
    } else {
      SumNonNegative(s[..|s| - 1]);
    }
  }

  /** The number of `true` entries of a boolean array. */
  function Count(s: seq<bool>): (r: nat)
    ensures r <= |s|
    ensures r == 0 <==> forall i | 0 <= i < |s| :: !s[i]
    ensures r == |s| <==> forall i | 0 <= i < |s| :: s[i]
  {
    if |s| == 0 then 0 else Count(s[..|s| - 1]) + (if s[|s| - 1] then 1 else 0)
  }

  /** `Count` is the size of the set of positions holding `true`. */
  lemma {:induction false} CountIsCardinality(s: seq<bool>)
    ensures Count(s) == |set i | 0 <= i < |s| && s[i]|
  {
    if |s| > 0 {
      var p := s[..|s| - 1];
      CountIsCardinality(p);
      var before := set i | 0 <= i < |p| && p[i];
      var after := set i | 0 <= i < |s| && s[i];
      if s[|s| - 1] {
        assert after == before + {|s| - 1};
      } else {
        assert after == before;
      }
    }
  }

  /** `np.max` of a non-empty one-dimensional array. */
  function MaxOf(s: seq<real>): (r: real)
    requires |s| > 0
    ensures exists i | 0 <= i < |s| :: s[i] == r
    ensures forall i | 0 <= i < |s| :: s[i] <= r
  {
    if |s| == 1 then s[0]
    else
      var m := MaxOf(s[..|s| - 1]);
      if s[|s| - 1] > m then s[|s| - 1] else m
  }
}
