/** The linear system of solveUsingGaussianElimination
    (ShamirSecretSharing.java, lines 56-106) as values: how it is built from
    the points, what one elimination step does to it, the whole elimination,
    back substitution, and the value the method returns. */
module LinearSystem {
  import opened Types
  import opened Arith

  type Matrix = seq<seq<int>>

  /** A coefficient matrix (`matrix`) with its right-hand side (`results`). */
  datatype System = System(m: Matrix, y: seq<int>)

  function Size(s: System): nat
  {
    |s.y|
  }

  predicate Square(s: System)
  {
    |s.m| == |s.y| && forall i :: 0 <= i < |s.y| ==> |s.m[i]| == |s.y|
  }

  /** The row 1, x, x^2, ..., x^(n-1). */
  function Powers(x: int, n: nat): seq<int>
  {
    seq(n, j requires 0 <= j < n => Pow(x, j))
  }

  /** The system the method sets up: one row of powers of x per point, and
      the point's y on the right. */
  function Vandermonde(points: seq<Point>): (s: System)
    ensures Square(s) && Size(s) == |points|
  {
    var n := |points|;
    System(seq(n, i requires 0 <= i < n => Powers(points[i].x, n)),
           seq(n, i requires 0 <= i < n => points[i].y))
  }

  /** Step i of the elimination: row i and results[i] are divided (truncating)
      by the pivot; then every row j below it loses factor times the new row i,
      where factor is the entry of row j in column i. */
  function Step(s: System, i: nat): (t: System)
    requires Square(s) && i < Size(s) && s.m[i][i] != 0
    ensures Square(t) && Size(t) == Size(s)
    ensures forall r :: 0 <= r < i ==> t.m[r] == s.m[r] && t.y[r] == s.y[r]
  {
    var n, p := Size(s), s.m[i][i];
    var pivotRow := seq(n, k requires 0 <= k < n => TDiv(s.m[i][k], p));
    var pivotY := TDiv(s.y[i], p);
    System(
      seq(n, j requires 0 <= j < n =>
        if j < i then s.m[j]
        else if j == i then pivotRow
        else seq(n, k requires 0 <= k < n => s.m[j][k] - pivotRow[k] * s.m[j][i])),
      seq(n, j requires 0 <= j < n =>
        if j < i then s.y[j]
        else if j == i then pivotY
        else s.y[j] - pivotY * s.m[j][i]))
  }

  /** The entries Step i produces, row by row: the normalised pivot row, and
      each lower row minus its column-i entry times the normalised pivot row. */
  lemma StepEntries(s: System, i: nat)
    requires Square(s) && i < Size(s) && s.m[i][i] != 0
    ensures var t, p, n := Step(s, i), s.m[i][i], Size(s);
      && (forall c :: 0 <= c < n ==> t.m[i][c] == TDiv(s.m[i][c], p))
      && t.y[i] == TDiv(s.y[i], p)
      && (forall r, c :: i < r < n && 0 <= c < n ==> t.m[r][c] == s.m[r][c] - t.m[i][c] * s.m[r][i])
      && (forall r :: i < r < n ==> t.y[r] == s.y[r] - t.y[i] * s.m[r][i])
  {
  }

  /** The system after the first t elimination steps, or the failure of the
      first step whose pivot is zero (BigInteger.divide by zero). */
  function Run(s: System, t: nat): (r: Result<System>)
    requires Square(s) && t <= Size(s)
    ensures r.Ok? ==> Square(r.value) && Size(r.value) == Size(s)
    decreases t
  {
    if t == 0 then Ok(s)
    else
      match Run(s, t - 1)
      case Err(e) => Err(e)
      case Ok(u) => if u.m[t - 1][t - 1] == 0 then Err(ZeroPivot(t - 1)) else Ok(Step(u, t - 1))
  }

  /** Every division step i performs is exact. */
  predicate ExactAt(s: System, i: nat)
    requires Square(s) && i < Size(s)
  {
    var p := s.m[i][i];
    p != 0 && ExactDiv(s.y[i], p) && forall k :: 0 <= k < Size(s) ==> ExactDiv(s.m[i][k], p)
  }

  /** The elimination with every division checked: it stops at the first
      step whose pivot is zero or does not divide its row. */
  function CheckedRun(s: System, t: nat): (r: Result<System>)
    requires Square(s) && t <= Size(s)
    ensures r.Ok? ==> Square(r.value) && Size(r.value) == Size(s)
    decreases t
  {
    if t == 0 then Ok(s)
    else
      match CheckedRun(s, t - 1)
      case Err(e) => Err(e)
      case Ok(u) =>
        if u.m[t - 1][t - 1] == 0 then Err(ZeroPivot(t - 1))
        else if !ExactAt(u, t - 1) then Err(Inexact(t - 1))
        else Ok(Step(u, t - 1))
  }

  /** Back substitution from row i down: solution[i..], each entry being its
      right-hand side minus the row's later entries times the later solution. */
  function BackSubFrom(s: System, i: nat): (sol: seq<int>)
    requires Square(s) && i <= Size(s)
    ensures |sol| == Size(s) - i
    decreases Size(s) - i
  {
    if i == Size(s) then []
    else
      var rest := BackSubFrom(s, i + 1);
      [s.y[i] - Dot(s.m[i][i + 1..], rest)] + rest
  }

  function BackSub(s: System): seq<int>
    requires Square(s)
  {
    BackSubFrom(s, 0)
  }

  /** What solveUsingGaussianElimination returns for the points: solution[0]
      of the eliminated system, a zero-pivot failure, or, for no points at all,
      the out-of-bounds access to solution[0]. */
  function Secret(points: seq<Point>): (r: Result<int>)
    ensures |points| == 0 ==> r == Err(EmptySystem)
    ensures r.Ok? <==> |points| > 0 && Run(Vandermonde(points), |points|).Ok?
    ensures r.Err? && r.error != EmptySystem ==> r.error.ZeroPivot? && r.error.step < |points|
  {
    match Run(Vandermonde(points), |points|)
    case Err(e) =>
      FailureIsZeroPivot(Vandermonde(points), |points|);
      Err(e)
    case Ok(u) => if |points| == 0 then Err(EmptySystem) else Ok(BackSub(u)[0])
  }

  /** Unit upper-triangular form of the first t columns: ones on the diagonal
      and zeros below it. */
  predicate UnitUpperUpTo(s: System, t: nat)
    requires Square(s) && t <= Size(s)
  {
    (forall c :: 0 <= c < t ==> s.m[c][c] == 1) &&
    (forall r, c :: 0 <= c < t && c < r < Size(s) ==> s.m[r][c] == 0)
  }

  predicate UnitUpper(s: System)
    requires Square(s)
  {
    UnitUpperUpTo(s, Size(s))
  }

  // ---------------------------------------------------------------------------
  // Elimination

  /** Rows 0..t-1 and their results are final once t steps have run: no
      later step touches them. */
  lemma {:induction false} RowsFinal(s: System, t: nat, u: nat)
    requires Square(s) && t <= u <= Size(s) && Run(s, u).Ok?
    ensures Run(s, t).Ok?
    ensures forall r :: 0 <= r < t ==> Run(s, u).value.m[r] == Run(s, t).value.m[r]
    ensures forall r :: 0 <= r < t ==> Run(s, u).value.y[r] == Run(s, t).value.y[r]
    decreases u
  {
    if u > t {
      RowsFinal(s, t, u - 1);
    }
  }

  /** A zero pivot met at step i makes the whole elimination fail there. */
  lemma {:induction false} ZeroPivotFails(s: System, i: nat, t: nat)
    requires Square(s) && i < t <= Size(s)
    requires Run(s, i).Ok? && Run(s, i).value.m[i][i] == 0
    ensures Run(s, t) == Err(ZeroPivot(i))
    decreases t
  {
    if t > i + 1 {
      ZeroPivotFails(s, i, t - 1);
    }
  }

  /** The only way the elimination fails is a zero pivot, at a step it reached. */
  lemma {:induction false} FailureIsZeroPivot(s: System, t: nat)
    requires Square(s) && t <= Size(s) && Run(s, t).Err?
    ensures Run(s, t).error.ZeroPivot?
    ensures var i := Run(s, t).error.step;
      i < t && Run(s, i).Ok? && Run(s, i).value.m[i][i] == 0
    decreases t
  {
    if Run(s, t - 1).Err? {
      FailureIsZeroPivot(s, t - 1);
    }
  }

  /** One step extends the triangular part by one column. */
  lemma StepEchelon(s: System, i: nat)
    requires Square(s) && i < Size(s) && s.m[i][i] != 0 && UnitUpperUpTo(s, i)
    ensures UnitUpperUpTo(Step(s, i), i + 1)
  {
    var t, n, p := Step(s, i), Size(s), s.m[i][i];
    assert TDiv(p, p) == 1;
    forall r, c | 0 <= c < i + 1 && c < r < n
      ensures t.m[r][c] == 0
    {
      if r == i {
        assert TDiv(0, p) == 0;
      } else {
        assert t.m[r][c] == s.m[r][c] - TDiv(s.m[i][c], p) * s.m[r][i];
        if c < i {
          assert s.m[i][c] == 0;
        }
      }
    }
  }

  /** After t steps the first t columns are in unit upper-triangular form. */
  lemma {:induction false} RunEchelon(s: System, t: nat)
    requires Square(s) && t <= Size(s) && Run(s, t).Ok?
    ensures UnitUpperUpTo(Run(s, t).value, t)
    decreases t
  {
    if t > 0 {
      RunEchelon(s, t - 1);
      StepEchelon(Run(s, t - 1).value, t - 1);
    }
  }

  /** A completed elimination leaves a unit upper-triangular matrix. */
  lemma EliminationTriangular(s: System)
    requires Square(s) && Run(s, Size(s)).Ok?
    ensures UnitUpper(Run(s, Size(s)).value)
  {
    RunEchelon(s, Size(s));
  }

  /** Where every division is exact, the checked and the unchecked elimination agree. */
  lemma {:induction false} CheckedAgrees(s: System, t: nat)
    requires Square(s) && t <= Size(s) && CheckedRun(s, t).Ok?
    ensures Run(s, t) == CheckedRun(s, t)
    decreases t
  {
    if t > 0 {
      CheckedAgrees(s, t - 1);
    }
  }

  /** Every step of a successful checked elimination was exact. */
  lemma {:induction false} CheckedStepsExact(s: System, i: nat, t: nat)
    requires Square(s) && i < t <= Size(s) && CheckedRun(s, t).Ok?
    ensures CheckedRun(s, i).Ok? && ExactAt(CheckedRun(s, i).value, i)
    decreases t
  {
    if t > i + 1 {
      CheckedStepsExact(s, i, t - 1);
    }
  }

  // ---------------------------------------------------------------------------
  // Back substitution

  lemma {:induction false} BackSubSuffix(s: System, i: nat)
    requires Square(s) && i <= Size(s)
    ensures BackSub(s)[i..] == BackSubFrom(s, i)
    decreases i
  {
    if i > 0 {
      BackSubSuffix(s, i - 1);
      assert BackSubFrom(s, i - 1)[1..] == BackSubFrom(s, i);
    }
  }

  /** Each entry of the back-substituted vector satisfies its row of the
      reduced system: solution[i] plus the row's later entries times the
      later solution entries gives results[i]. */
  lemma BackSubReduced(s: System, i: nat)
    requires Square(s) && i < Size(s)
    ensures var sol := BackSub(s);
      sol[i] + Dot(s.m[i][i + 1..], sol[i + 1..]) == s.y[i]
  {
    BackSubSuffix(s, i);
    BackSubSuffix(s, i + 1);
    assert BackSub(s)[i] == BackSubFrom(s, i)[0];
  }

  /** A row whose entries before column i are zero and whose entry at i is one. */
  lemma RowDot(row: seq<int>, v: seq<int>, i: nat)
    requires |row| == |v| && i < |row| && row[i] == 1
    requires forall c :: 0 <= c < i ==> row[c] == 0
    ensures Dot(row, v) == v[i] + Dot(row[i + 1..], v[i + 1..])
  {
    DotSplit(row, v, i);
    DotZero(row[..i], v[..i]);
    DotHead(row[i..], v[i..]);
    assert row[i..][1..] == row[i + 1..] && v[i..][1..] == v[i + 1..];
  }

  /** On a unit upper-triangular system the back-substituted vector solves
      the whole system: every row times the solution gives its result. */
  lemma BackSubSolves(s: System)
    requires Square(s) && UnitUpper(s)
    ensures forall i :: 0 <= i < Size(s) ==> Dot(s.m[i], BackSub(s)) == s.y[i]
  {
    forall i | 0 <= i < Size(s)
      ensures Dot(s.m[i], BackSub(s)) == s.y[i]
    {
      RowDot(s.m[i], BackSub(s), i);
      BackSubReduced(s, i);
    }
  }

  /** On a unit upper-triangular system, any vector c with row-times-c equal
      to d times the result is d times the back-substituted vector, from
      entry i on. */
  lemma {:induction false} BackSubUnique(s: System, c: seq<int>, d: int, i: nat)
    requires Square(s) && UnitUpper(s) && |c| == Size(s) && i <= Size(s)
    requires forall r :: 0 <= r < Size(s) ==> Dot(s.m[r], c) == d * s.y[r]
    ensures forall r :: i <= r < Size(s) ==> c[r] == d * BackSub(s)[r]
    decreases Size(s) - i
  {
    if i < Size(s) {
      BackSubUnique(s, c, d, i + 1);
      var sol := BackSub(s);
      RowDot(s.m[i], c, i);
      BackSubReduced(s, i);
      DotScaleRight(s.m[i][i + 1..], c[i + 1..], sol[i + 1..], d);
      assert c[i] == d * s.y[i] - d * Dot(s.m[i][i + 1..], sol[i + 1..]);
      assert c[i] == d * sol[i];
    }
  }
}
