/** solveUsingGaussianElimination (ShamirSecretSharing.java, lines 56-106)
    as the source runs it: a two-dimensional `matrix` and a `results` array
    filled by nested loops, rewritten row by row in place, and a `solution`
    array filled by a descending loop. Each phase is proved against the
    value-level description in LinearSystem. */
module Gauss {
  import opened Types
  import opened Arith
  import opened LinearSystem

  /** The array holds exactly the square matrix m. */
  ghost predicate Holds(a: array2<int>, m: Matrix)
    reads a
  {
    a.Length0 == |m| && a.Length1 == |m| &&
    (forall r :: 0 <= r < |m| ==> |m[r]| == |m|) &&
    forall r, c :: 0 <= r < |m| && 0 <= c < |m| ==> a[r, c] == m[r][c]
  }

  /** Lines 57-74: an n-by-n matrix with x_i^j in row i, column j, and y_i in results[i]. */
  method BuildSystem(points: seq<Point>) returns (matrix: array2<int>, results: array<int>)
    ensures fresh(matrix) && fresh(results)
    ensures matrix.Length0 == matrix.Length1 == results.Length == |points|
    ensures forall i, j :: 0 <= i < |points| && 0 <= j < |points| ==> matrix[i, j] == Pow(points[i].x, j)
    ensures forall i :: 0 <= i < |points| ==> results[i] == points[i].y
    ensures Holds(matrix, Vandermonde(points).m) && results[..] == Vandermonde(points).y
  {
    var n := |points|;
    matrix := new int[n, n];
    results := new int[n];
    for i := 0 to n
      invariant forall r, c :: 0 <= r < i && 0 <= c < n ==> matrix[r, c] == Pow(points[r].x, c)
      invariant forall r :: 0 <= r < i ==> results[r] == points[r].y
    {
      var x, y := points[i].x, points[i].y;
      for j := 0 to n
        invariant forall r, c :: 0 <= r < i && 0 <= c < n ==> matrix[r, c] == Pow(points[r].x, c)
        invariant forall c :: 0 <= c < j ==> matrix[i, c] == Pow(x, c)
        invariant forall r :: 0 <= r < i ==> results[r] == points[r].y
      {
        matrix[i, j] := Pow(x, j);
      }
      results[i] := y;
    }
    assert results[..] == Vandermonde(points).y;
  }

  /** Line 80-82: every entry of row i divided (truncating) by the pivot. */
  method DivideRow(matrix: array2<int>, i: nat, pivot: int)
    requires i < matrix.Length0 && pivot != 0
    modifies matrix
    ensures forall r, c :: 0 <= r < matrix.Length0 && 0 <= c < matrix.Length1 ==>
      matrix[r, c] == if r == i then TDiv(old(matrix[r, c]), pivot) else old(matrix[r, c])
  {
    for j := 0 to matrix.Length1
      invariant forall r, c :: 0 <= r < matrix.Length0 && 0 <= c < matrix.Length1 ==>
        matrix[r, c] == if r == i && c < j then TDiv(old(matrix[r, c]), pivot) else old(matrix[r, c])
    {
      matrix[i, j] := TDiv(matrix[i, j], pivot);
    }
  }

  /** Lines 88-90: row j loses factor times row i. */
  method SubtractRow(matrix: array2<int>, i: nat, j: nat, factor: int)
    requires i < matrix.Length0 && j < matrix.Length0 && i != j
    modifies matrix
    ensures forall r, c :: 0 <= r < matrix.Length0 && 0 <= c < matrix.Length1 ==>
      matrix[r, c] == if r == j then old(matrix[j, c]) - old(matrix[i, c]) * factor else old(matrix[r, c])
  {
    for k := 0 to matrix.Length1
      invariant forall r, c :: 0 <= r < matrix.Length0 && 0 <= c < matrix.Length1 ==>
        matrix[r, c] == if r == j && c < k then old(matrix[j, c]) - old(matrix[i, c]) * factor else old(matrix[r, c])
    {
      matrix[j, k] := matrix[j, k] - matrix[i, k] * factor;
    }
  }

  /** Lines 79-92: elimination step i in place. The arrays go from holding
      the system s to holding Step(s, i). */
  method EliminationStep(matrix: array2<int>, results: array<int>, i: nat, ghost s: System)
    requires Square(s) && i < Size(s) && s.m[i][i] != 0
    requires Holds(matrix, s.m) && results[..] == s.y
    modifies matrix, results
    ensures Holds(matrix, Step(s, i).m) && results[..] == Step(s, i).y
  {
    var n := results.Length;
    ghost var t := Step(s, i);
    StepEntries(s, i);
    var pivot := matrix[i, i];
    DivideRow(matrix, i, pivot);
    results[i] := TDiv(results[i], pivot);
    for j := i + 1 to n
      invariant forall r, c :: 0 <= r < n && 0 <= c < n ==>
        matrix[r, c] == (if i <= r < j then t.m[r][c] else s.m[r][c])
      invariant forall r :: 0 <= r < n ==> results[r] == (if i <= r < j then t.y[r] else s.y[r])
    {
      var factor := matrix[j, i];
      SubtractRow(matrix, i, j, factor);
      results[j] := results[j] - results[i] * factor;
    }
    assert results[..] == t.y;
  }

  /** Lines 77-93: the elimination in place. Step i divides row i and
      results[i] by the pivot, then clears column i from every row below it.
      A zero pivot stops it (BigInteger.divide throws ArithmeticException).
      On success the arrays hold the eliminated system, which is unit upper
      triangular. */
  method Eliminate(matrix: array2<int>, results: array<int>, ghost s0: System) returns (outcome: Result<()>)
    requires Square(s0) && Holds(matrix, s0.m) && results[..] == s0.y
    modifies matrix, results
    ensures match Run(s0, Size(s0))
      case Ok(u) => outcome == Ok(()) && Holds(matrix, u.m) && results[..] == u.y && UnitUpper(u)
      case Err(e) => outcome == Err(e)
  {
    var n := results.Length;
    for i := 0 to n
      invariant Run(s0, i).Ok?
      invariant Holds(matrix, Run(s0, i).value.m) && results[..] == Run(s0, i).value.y
    {
      ghost var s := Run(s0, i).value;
      var pivot := matrix[i, i];
      if pivot == 0 {
        ZeroPivotFails(s0, i, n);
        return Err(ZeroPivot(i));
      }
      EliminationStep(matrix, results, i, s);
      assert Run(s0, i + 1) == Ok(Step(s, i));
    }
    EliminationTriangular(s0);
    assert Run(s0, Size(s0)).Ok?;
    outcome := Ok(());
  }

  /** Lines 95-102: back substitution from the last row up; solution[i] is
      results[i] minus matrix[i][j] * solution[j] for every j after i. */
  method BackSubstitute(matrix: array2<int>, results: array<int>, ghost s: System) returns (solution: array<int>)
    requires Square(s) && Holds(matrix, s.m) && results[..] == s.y
    ensures fresh(solution) && solution[..] == BackSub(s)
  {
    var n := results.Length;
    ghost var sol := BackSub(s);
    solution := new int[n];
    var i := n;
    while i > 0
      invariant 0 <= i <= n
      invariant forall r :: i <= r < n ==> solution[r] == sol[r]
    {
      i := i - 1;
      solution[i] := results[i];
      for j := i + 1 to n
        invariant forall r :: i < r < n ==> solution[r] == sol[r]
        invariant solution[i] == s.y[i] - Dot(s.m[i][i + 1..j], sol[i + 1..j])
      {
        ghost var a, b := s.m[i][i + 1..j + 1], sol[i + 1..j + 1];
        assert a[..|a| - 1] == s.m[i][i + 1..j] && b[..|b| - 1] == sol[i + 1..j];
        solution[i] := solution[i] - matrix[i, j] * solution[j];
      }
      assert s.m[i][i + 1..n] == s.m[i][i + 1..] && sol[i + 1..n] == sol[i + 1..];
      BackSubReduced(s, i);
    }
    assert solution[..] == sol;
  }

  /** The whole solver: build, eliminate, back-substitute, return
      solution[0]. It returns exactly the value LinearSystem.Secret describes,
      failures included. */
  method SolveUsingGaussianElimination(points: seq<Point>) returns (r: Result<int>)
    ensures r == Secret(points)
  {
    var matrix, results := BuildSystem(points);
    var outcome := Eliminate(matrix, results, Vandermonde(points));
    if outcome.Err? {
      return Err(outcome.error);
    }
    var solution := BackSubstitute(matrix, results, Run(Vandermonde(points), |points|).value);
    if solution.Length == 0 {
      return Err(EmptySystem);
    }
    r := Ok(solution[0]);
  }
}
