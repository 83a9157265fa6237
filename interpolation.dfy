/** What the solver's answer means: when the shares lie on a polynomial and
    every pivot division is exact, the answer is the polynomial's constant
    term. Also the corrected solver that refuses an inexact division instead
    of truncating it. */
module Interpolation {
  import opened Types
  import opened Arith
  import opened LinearSystem

  /** The polynomial c[0] + c[1]*x + c[2]*x^2 + ... evaluated at x by Horner's rule. */
  function Eval(c: seq<int>, x: int): int
    decreases |c|
  {
    if |c| == 0 then 0 else c[0] + x * Eval(c[1..], x)
  }

  /** The points lie on the polynomial with coefficients c / d: d is a common
      denominator, and d = 1 is a polynomial with integer coefficients. */
  predicate Interpolates(points: seq<Point>, c: seq<int>, d: int)
  {
    forall i :: 0 <= i < |points| ==> d * points[i].y == Eval(c, points[i].x)
  }

  /** c solves the system scaled by d: every row times c gives d times its result. */
  predicate Satisfies(s: System, c: seq<int>, d: int)
    requires Square(s) && |c| == Size(s)
  {
    forall i :: 0 <= i < Size(s) ==> Dot(s.m[i], c) == d * s.y[i]
  }

  /** Every pivot division of the elimination of these points is exact. */
  predicate Exact(points: seq<Point>)
  {
    CheckedRun(Vandermonde(points), |points|).Ok?
  }

  /** A row of powers of x times the coefficients is the polynomial's value at x. */
  lemma {:induction false} EvalIsPowersDot(c: seq<int>, x: int)
    ensures Eval(c, x) == Dot(Powers(x, |c|), c)
    decreases |c|
  {
    var n := |c|;
    if n > 0 {
      var row := Powers(x, n);
      DotHead(row, c);
      DotScaleLeft(row[1..], Powers(x, n - 1), c[1..], x);
      EvalIsPowersDot(c[1..], x);
    }
  }

  /** Points on the polynomial make its coefficients a solution of the system the solver builds. */
  lemma VandermondeSatisfies(points: seq<Point>, c: seq<int>, d: int)
    requires |c| == |points| && Interpolates(points, c, d)
    ensures Satisfies(Vandermonde(points), c, d)
  {
    forall i | 0 <= i < |points|
      ensures Dot(Vandermonde(points).m[i], c) == d * Vandermonde(points).y[i]
    {
      EvalIsPowersDot(c, points[i].x);
    }
  }

  /** An exact elimination step keeps every solution of the system. */
  lemma ExactStepPreserves(s: System, i: nat, c: seq<int>, d: int)
    requires Square(s) && i < Size(s) && |c| == Size(s)
    requires ExactAt(s, i) && Satisfies(s, c, d)
    ensures Satisfies(Step(s, i), c, d)
  {
    var t := Step(s, i);
    forall r | 0 <= r < Size(s)
      ensures Dot(t.m[r], c) == d * t.y[r]
    {
      if r == i {
        PivotRowKeeps(s, i, c, d);
      } else if r > i {
        PivotRowKeeps(s, i, c, d);
        EliminatedRowKeeps(s, i, r, c, d);
      }
    }
  }

  /** Dividing row i and its result exactly by the pivot keeps that row's equation. */
  lemma PivotRowKeeps(s: System, i: nat, c: seq<int>, d: int)
    requires Square(s) && i < Size(s) && |c| == Size(s)
    requires ExactAt(s, i) && Dot(s.m[i], c) == d * s.y[i]
    ensures Dot(Step(s, i).m[i], c) == d * Step(s, i).y[i]
  {
    var t, p := Step(s, i), s.m[i][i];
    var pivotRow, pivotY := t.m[i], t.y[i];
    assert pivotY * p == s.y[i];
    assert forall k :: 0 <= k < Size(s) ==> s.m[i][k] == pivotRow[k] * p;
    DotScaleLeft(s.m[i], pivotRow, c, p);
    ExactQuotient(p, Dot(pivotRow, c), d, pivotY, s.y[i]);
  }

  /** If p*b is d times y and y is q*p, then b is d*q. */
  lemma ExactQuotient(p: int, b: int, d: int, q: int, y: int)
    requires p != 0 && q * p == y && p * b == d * y
    ensures b == d * q
  {
    assert p * b == p * (d * q);
    Cancel(p, b, d * q);
  }

  /** Subtracting a multiple of the normalised pivot row keeps a lower row's equation. */
  lemma EliminatedRowKeeps(s: System, i: nat, r: nat, c: seq<int>, d: int)
    requires Square(s) && i < r < Size(s) && |c| == Size(s) && s.m[i][i] != 0
    requires Dot(s.m[r], c) == d * s.y[r]
    requires Dot(Step(s, i).m[i], c) == d * Step(s, i).y[i]
    ensures Dot(Step(s, i).m[r], c) == d * Step(s, i).y[r]
  {
    var t, f := Step(s, i), s.m[r][i];
    var pivotRow, pivotY := t.m[i], t.y[i];
    assert forall k :: 0 <= k < Size(s) ==> t.m[r][k] == s.m[r][k] - pivotRow[k] * f;
    DotCombine(t.m[r], s.m[r], pivotRow, c, f);
    assert t.y[r] == s.y[r] - pivotY * f;
    CombineEquations(Dot(s.m[r], c), s.y[r], Dot(pivotRow, c), pivotY, d, f);
  }

  /** Row r minus f times row i, applied to both sides of two equations. */
  lemma CombineEquations(a: int, y: int, b: int, q: int, d: int, f: int)
    requires a == d * y && b == d * q
    ensures a - f * b == d * (y - q * f)
  {
  }

  lemma Cancel(p: int, a: int, b: int)
    requires p != 0 && p * a == p * b
    ensures a == b
  {
    assert p * (a - b) == 0;
  }

  /** Every solution survives a successful checked elimination. */
  lemma {:induction false} CheckedRunSatisfies(s: System, t: nat, c: seq<int>, d: int)
    requires Square(s) && t <= Size(s) && |c| == Size(s)
    requires Satisfies(s, c, d) && CheckedRun(s, t).Ok?
    ensures Satisfies(CheckedRun(s, t).value, c, d)
    decreases t
  {
    if t > 0 {
      CheckedRunSatisfies(s, t - 1, c, d);
      ExactStepPreserves(CheckedRun(s, t - 1).value, t - 1, c, d);
    }
  }

  /** Round trip: if the shares lie on the polynomial with coefficients c / d
      and every pivot division is exact, the solver returns the constant term
      c[0] / d; for a polynomial with integer coefficients (d = 1), exactly c[0]. */
  lemma RoundTrip(points: seq<Point>, c: seq<int>, d: int)
    requires |points| > 0 && |c| == |points|
    requires Interpolates(points, c, d) && Exact(points)
    ensures Secret(points).Ok? && d * Secret(points).value == c[0]
  {
    var s, n := Vandermonde(points), |points|;
    VandermondeSatisfies(points, c, d);
    CheckedRunSatisfies(s, n, c, d);
    CheckedAgrees(s, n);
    var u := Run(s, n).value;
    EliminationTriangular(s);
    BackSubUnique(u, c, d, 0);
  }

  /** An exact solver, which never returns a truncated value: the same
      elimination, but a pivot that does not divide its row stops it with an
      error instead of truncating. Whenever it answers, it agrees with the
      source's solver. */
  function SecretChecked(points: seq<Point>): (r: Result<int>)
    ensures r.Ok? <==> |points| > 0 && Exact(points)
    ensures r.Ok? ==> r == Secret(points)
  {
    var s, n := Vandermonde(points), |points|;
    match CheckedRun(s, n)
    case Err(e) => Err(e)
    case Ok(u) =>
      CheckedAgrees(s, n);
      if n == 0 then Err(EmptySystem) else Ok(BackSub(u)[0])
  }

  /** The corrected solver never answers with anything but the constant term
      of a polynomial through the points. */
  lemma SecretCheckedCorrect(points: seq<Point>, c: seq<int>, d: int)
    requires |c| == |points| && Interpolates(points, c, d) && SecretChecked(points).Ok?
    ensures d * SecretChecked(points).value == c[0]
  {
    RoundTrip(points, c, d);
  }

  /** The shares (2, 2) and (4, 3) lie on 1 + x/2, whose constant term is 1;
      the source's solver truncates 1/2 to 0 at the second pivot and answers 2,
      while the corrected solver reports the inexact step. */
  lemma TruncationLosesSecret()
    ensures Interpolates([Point(2, 2), Point(4, 3)], [2, 1], 2)
    ensures Secret([Point(2, 2), Point(4, 3)]) == Ok(2)
    ensures 2 * Secret([Point(2, 2), Point(4, 3)]).value != [2, 1][0]
    ensures SecretChecked([Point(2, 2), Point(4, 3)]) == Err(Inexact(1))
  {
    var points := [Point(2, 2), Point(4, 3)];
    var s := Vandermonde(points);
    assert Pow(2, 1) == 2 && Pow(4, 1) == 4;
    assert s.m[0] == [1, 2] && s.m[1] == [1, 4];
    assert s.y == [2, 3];
    var s1 := Step(s, 0);
    assert TDiv(1, 1) == 1 && TDiv(2, 1) == 2;
    assert s1.m[0] == [1, 2] && s1.m[1] == [0, 2];
    assert s1.y == [2, 1];
    assert Run(s, 1) == Ok(s1);
    var s2 := Step(s1, 1);
    assert TDiv(0, 2) == 0 && TDiv(2, 2) == 1 && TDiv(1, 2) == 0;
    assert s2.m[0] == [1, 2] && s2.m[1] == [0, 1];
    assert s2.y == [2, 0];
    assert Run(s, 2) == Ok(s2);
    assert BackSubFrom(s2, 1) == [0];
    assert s2.m[0][1..] == [2];
    assert BackSub(s2) == [2, 0];
    assert CheckedRun(s, 1) == Ok(s1) by {
      assert ExactAt(s, 0);
    }
    assert !ExactAt(s1, 1) by {
      assert !ExactDiv(s1.y[1], 2);
    }
  }
}
