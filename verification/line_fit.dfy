/** The manual trajectory fit: a line `value = coef * arg + intercept`
    through two user-chosen points, each point being `(arg, value)`. */
module LineFit {
  import opened Errors

  datatype Line = Line(coef: real, intercept: real)

  /** Point `p = (p.0, p.1)` lies on the line read as `p.1 = coef * p.0 + intercept`. */
  predicate OnLine(l: Line, p: (real, real))
  {
    p.1 == l.coef * p.0 + l.intercept
  }

  /** The axis-swapped reading `p.0 = coef * p.1 + intercept`. */
  predicate OnSwappedLine(l: Line, p: (real, real))
  {
    p.0 == l.coef * p.1 + l.intercept
  }

  /** The intercept that puts the line of slope `coef` through `p`. */
  function InterceptThrough(coef: real, p: (real, real)): real
  {
    p.1 - coef * p.0
  }

  /** The slope between two points and the mean of the two intercepts;
      equal first coordinates divide by zero. */
  function FromPoints(p: (real, real), q: (real, real)): (r: Result<Line>)
    ensures r.Err? <==> p.0 == q.0
    ensures r.Err? ==> r.error == ZeroDivision
    ensures r.Ok? ==> OnLine(r.value, p) && OnLine(r.value, q)
  {
    if q.0 - p.0 == 0.0 then Err(ZeroDivision)
    else
      var coef := (q.1 - p.1) / (q.0 - p.0);
      InterceptsAgree(p, q);
      Ok(Line(coef, (InterceptThrough(coef, p) + InterceptThrough(coef, q)) / 2.0))
  }

  /** The intercept computed from either point is the same one, so the
      mean of the two equals both. */
  lemma InterceptsAgree(p: (real, real), q: (real, real))
    requires p.0 != q.0
    ensures var coef := (q.1 - p.1) / (q.0 - p.0);
      InterceptThrough(coef, p) == InterceptThrough(coef, q)
  {
    var coef := (q.1 - p.1) / (q.0 - p.0);
    assert coef * (q.0 - p.0) == q.1 - p.1;
    assert coef * q.0 - coef * p.0 == q.1 - p.1;
  }

  /** Any line through both points is the fitted one: the fit is the unique
      line through them. */
  lemma FitIsUnique(p: (real, real), q: (real, real), l: Line)
    requires p.0 != q.0
    requires OnLine(l, p) && OnLine(l, q)
    ensures FromPoints(p, q) == Ok(l)
  {
    var coef := (q.1 - p.1) / (q.0 - p.0);
    assert q.1 - p.1 == l.coef * (q.0 - p.0);
    assert coef == l.coef;
    assert InterceptThrough(coef, p) == l.intercept;
    assert InterceptThrough(coef, q) == l.intercept;
  }

  /** The axis-swapped relation does not hold of the fit in general:
      through (0, 1) and (1, 2) the fit is value = arg + 1, which puts
      (0, 1) on the line but not on its swapped reading. */
  lemma SwappedReadingFails()
    ensures FromPoints((0.0, 1.0), (1.0, 2.0)) == Ok(Line(1.0, 1.0))
    ensures !OnSwappedLine(Line(1.0, 1.0), (0.0, 1.0))
  {
  }

  /** The fit the repository's tests expect, `p.0 = coef * p.1 + intercept`
      for both points: `FromPoints` with the coordinates of every point
      exchanged. Points whose second coordinates agree divide by zero. */
  function FromPointsSwapped(p: (real, real), q: (real, real)): (r: Result<Line>)
    ensures r.Err? <==> p.1 == q.1
    ensures r.Err? ==> r.error == ZeroDivision
    ensures r.Ok? ==> OnSwappedLine(r.value, p) && OnSwappedLine(r.value, q)
  {
    FromPoints((p.1, p.0), (q.1, q.0))
  }

  /** Any line whose swapped reading passes through both points is the
      swapped fit. */
  lemma SwappedFitIsUnique(p: (real, real), q: (real, real), l: Line)
    requires p.1 != q.1
    requires OnSwappedLine(l, p) && OnSwappedLine(l, q)
    ensures FromPointsSwapped(p, q) == Ok(l)
  {
    FitIsUnique((p.1, p.0), (q.1, q.0), l);
  }
}
