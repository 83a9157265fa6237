/** Integer arithmetic the solver relies on: exact powers, the truncating
    division of BigInteger.divide, and dot products of integer vectors. */
module Arith {

  function Abs(a: int): nat
  {
    if a < 0 then -a else a
  }

  /** Exact integer power x^j; like Math.pow, x^0 is 1 even for x = 0. */
  function Pow(x: int, j: nat): (r: int)
    ensures j == 0 ==> r == 1
    ensures x == 0 && j > 0 ==> r == 0
    ensures x != 0 ==> r != 0
    ensures x > 0 ==> r > 0
    decreases j
  {
    if j == 0 then 1 else x * Pow(x, j - 1)
  }

  /** BigInteger.divide: the quotient rounded toward zero. Dafny's own `/`
      is Euclidean, which differs from this whenever an operand is negative. */
  function TDiv(a: int, b: int): (q: int)
    requires b != 0
    ensures Abs(q) * Abs(b) <= Abs(a) < (Abs(q) + 1) * Abs(b)
    ensures q > 0 ==> (a > 0 <==> b > 0)
    ensures q < 0 ==> (a > 0 <==> b < 0)
  {
    var m := Abs(a) / Abs(b);
    DivBounds(Abs(a), Abs(b));
    if (a < 0) == (b < 0) then m else -m
  }

  lemma DivBounds(a: nat, b: nat)
    requires b > 0
    ensures (a / b) * b <= a < (a / b + 1) * b
    ensures a / b >= 0
  {
    var q, r := a / b, a % b;
    assert a == b * q + r && 0 <= r < b;
    assert (q + 1) * b == q * b + b;
  }

  /** A division that loses nothing: the quotient times the divisor gives back the dividend. */
  predicate ExactDiv(a: int, b: int)
    requires b != 0
  {
    TDiv(a, b) * b == a
  }

  /** A truncating division is exact exactly when the divisor divides the dividend. */
  lemma ExactIffDivides(a: int, b: int)
    requires b != 0
    ensures ExactDiv(a, b) <==> a % b == 0
  {
    if a % b == 0 {
      var e := a / b;
      assert a == e * b;
      TDivOfMultiple(e, b);
    } else if TDiv(a, b) * b == a {
      QuotientUnique(a, b, TDiv(a, b), 0);
      assert false;
    }
  }

  /** Euclidean division has only one quotient and remainder. */
  lemma QuotientUnique(a: int, b: int, q: int, r: int)
    requires b != 0
    requires a == q * b + r && 0 <= r < Abs(b)
    ensures q == a / b && r == a % b
  {
    var q', r' := a / b, a % b;
    assert a == q' * b + r' && 0 <= r' < Abs(b);
    var d := q - q';
    assert d * b == r' - r;
    if d != 0 {
      AbsMul(d, b);
      MulAtLeast(Abs(d), Abs(b));
      assert false;
    }
  }

  lemma MulAtLeast(d: nat, b: nat)
    requires d >= 1
    ensures d * b >= b
  {
    assert d * b == (d - 1) * b + b;
  }

  lemma AbsMul(e: int, b: int)
    ensures Abs(e * b) == Abs(e) * Abs(b)
  {
    if e < 0 && b < 0 {
      assert e * b == (-e) * (-b);
    } else if e < 0 {
      assert -(e * b) == (-e) * b;
    } else if b < 0 {
      assert -(e * b) == e * (-b);
    }
  }

  lemma TDivOfMultiple(e: int, b: int)
    requires b != 0
    ensures TDiv(e * b, b) == e
  {
    AbsMul(e, b);
    QuotientUnique(Abs(e) * Abs(b), Abs(b), Abs(e), 0);
    assert Abs(e * b) / Abs(b) == Abs(e);
    if e > 0 {
      assert (e * b < 0) == (b < 0);
    } else if e < 0 {
      assert (e * b < 0) == (b > 0);
    }
  }

  /** Dot product, accumulated from the left as the source's inner loops do. */
  function Dot(a: seq<int>, b: seq<int>): int
    requires |a| == |b|
    decreases |a|
  {
    if |a| == 0 then 0 else Dot(a[..|a| - 1], b[..|b| - 1]) + a[|a| - 1] * b[|b| - 1]
  }

  /** Taking the vector apart after its first component. */
  lemma {:induction false} DotHead(a: seq<int>, b: seq<int>)
    requires |a| == |b| > 0
    ensures Dot(a, b) == a[0] * b[0] + Dot(a[1..], b[1..])
    decreases |a|
  {
    var n := |a|;
    if n > 1 {
      DotHead(a[..n - 1], b[..n - 1]);
      assert a[..n - 1][1..] == a[1..][..n - 2];
      assert b[..n - 1][1..] == b[1..][..n - 2];
    } else {
      assert a[1..] == [] && b[1..] == [];
    }
  }

  /** Splitting a dot product at any index. */
  lemma {:induction false} DotSplit(a: seq<int>, b: seq<int>, t: nat)
    requires |a| == |b| && t <= |a|
    ensures Dot(a, b) == Dot(a[..t], b[..t]) + Dot(a[t..], b[t..])
    decreases |a| - t
  {
    if t < |a| {
      DotSplit(a, b, t + 1);
      DotHead(a[t..], b[t..]);
      assert a[t..][1..] == a[t + 1..] && b[t..][1..] == b[t + 1..];
      assert a[..t + 1][..t] == a[..t] && b[..t + 1][..t] == b[..t];
    } else {
      assert a[t..] == [] && b[t..] == [];
      assert a[..t] == a && b[..t] == b;
    }
  }

  /** A zero vector contributes nothing. */
  lemma {:induction false} DotZero(a: seq<int>, b: seq<int>)
    requires |a| == |b|
    requires forall k :: 0 <= k < |a| ==> a[k] == 0
    ensures Dot(a, b) == 0
    decreases |a|
  {
    if |a| > 0 {
      DotZero(a[..|a| - 1], b[..|b| - 1]);
    }
  }

  /** Scaling the left vector scales the dot product. */
  lemma {:induction false} DotScaleLeft(r: seq<int>, a: seq<int>, b: seq<int>, f: int)
    requires |r| == |a| == |b|
    requires forall k :: 0 <= k < |a| ==> r[k] == a[k] * f
    ensures Dot(r, b) == f * Dot(a, b)
    decreases |a|
  {
    var n := |a|;
    if n > 0 {
      DotScaleLeft(r[..n - 1], a[..n - 1], b[..n - 1], f);
      calc {
        Dot(r, b);
        Dot(r[..n - 1], b[..n - 1]) + r[n - 1] * b[n - 1];
        f * Dot(a[..n - 1], b[..n - 1]) + (a[n - 1] * f) * b[n - 1];
        f * (Dot(a[..n - 1], b[..n - 1]) + a[n - 1] * b[n - 1]);
      }
    }
  }

  /** Scaling the right vector scales the dot product. */
  lemma {:induction false} DotScaleRight(a: seq<int>, r: seq<int>, b: seq<int>, f: int)
    requires |r| == |a| == |b|
    requires forall k :: 0 <= k < |b| ==> r[k] == f * b[k]
    ensures Dot(a, r) == f * Dot(a, b)
    decreases |a|
  {
    var n := |a|;
    if n > 0 {
      DotScaleRight(a[..n - 1], r[..n - 1], b[..n - 1], f);
      calc {
        Dot(a, r);
        Dot(a[..n - 1], r[..n - 1]) + a[n - 1] * r[n - 1];
        f * Dot(a[..n - 1], b[..n - 1]) + a[n - 1] * (f * b[n - 1]);
        f * (Dot(a[..n - 1], b[..n - 1]) + a[n - 1] * b[n - 1]);
      }
    }
  }

  /** Subtracting a multiple of one row from another does the same to their dot products. */
  lemma {:induction false} DotCombine(r: seq<int>, a: seq<int>, b: seq<int>, c: seq<int>, f: int)
    requires |r| == |a| == |b| == |c|
    requires forall k :: 0 <= k < |a| ==> r[k] == a[k] - b[k] * f
    ensures Dot(r, c) == Dot(a, c) - f * Dot(b, c)
    decreases |a|
  {
    var n := |a|;
    if n > 0 {
      DotCombine(r[..n - 1], a[..n - 1], b[..n - 1], c[..n - 1], f);
      calc {
        Dot(r, c);
        Dot(r[..n - 1], c[..n - 1]) + r[n - 1] * c[n - 1];
        Dot(a[..n - 1], c[..n - 1]) - f * Dot(b[..n - 1], c[..n - 1]) + (a[n - 1] - b[n - 1] * f) * c[n - 1];
        { assert (a[n - 1] - b[n - 1] * f) * c[n - 1] == a[n - 1] * c[n - 1] - f * (b[n - 1] * c[n - 1]); }
        (Dot(a[..n - 1], c[..n - 1]) + a[n - 1] * c[n - 1]) - f * (Dot(b[..n - 1], c[..n - 1]) + b[n - 1] * c[n - 1]);
      }
    }
  }
}
