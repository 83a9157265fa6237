/** processTestCase (ShamirSecretSharing.java, lines 23-53) without the file
    and JSON handling: the shares arrive as a sequence in the order the JSON
    object enumerated its keys, each decoded into a point; the threshold
    check follows, and the first k points go to the solver. */
module SecretSharing {
  import opened Types
  import Numerals
  import LinearSystem
  import Gauss

  /** One JSON entry other than "keys": its key as the x-coordinate, and the
      radix and digit string of its y-coordinate. */
  datatype Share = Share(x: int, base: int, value: string)

  /** Line 40: `new BigInteger(value, base)`. */
  function DecodeShare(share: Share): (r: Result<int>)
    ensures r.Ok? <==> 2 <= share.base <= 36 && |Numerals.Unsigned(share.value)| > 0
                       && Numerals.AllDigits(Numerals.Unsigned(share.value), share.base)
    ensures r.Ok? ==> r.value == Numerals.SignOf(share.value) * Numerals.Positional(share.base, Numerals.Unsigned(share.value))
  {
    Numerals.Decode(share.base, share.value)
  }

  /** Lines 34-43: the shares decoded in order into points by `decode`; the
      first share that does not decode aborts the whole test case with its
      error. The decoder is a parameter so that the bookkeeping of the loop
      can be reasoned about apart from the numerals themselves. */
  function DecodeAll(shares: seq<Share>, decode: Share -> Result<int>): (r: Result<seq<Point>>)
    ensures r.Ok? <==> forall i :: 0 <= i < |shares| ==> decode(shares[i]).Ok?
    ensures r.Ok? ==> |r.value| == |shares|
    ensures r.Ok? ==> forall i :: 0 <= i < |shares| ==> r.value[i] == Point(shares[i].x, decode(shares[i]).value)
    decreases |shares|
  {
    if |shares| == 0 then Ok([])
    else
      var n := |shares|;
      var init, last := shares[..n - 1], shares[n - 1];
      assert forall i :: 0 <= i < n - 1 ==> init[i] == shares[i];
      match DecodeAll(init, decode)
      case Err(e) => Err(e)
      case Ok(ps) =>
        match decode(last)
        case Err(e) => Err(e)
        case Ok(y) => Ok(ps + [Point(last.x, y)])
  }

  /** The error of a failed decoding is that of the first share that does not decode. */
  lemma {:induction false} DecodeErrorIsFirst(shares: seq<Share>, decode: Share -> Result<int>)
    requires DecodeAll(shares, decode).Err?
    ensures exists i :: FirstFailure(shares, decode, i) && decode(shares[i]) == Err(DecodeAll(shares, decode).error)
    decreases |shares|
  {
    var n := |shares|;
    var init, e := shares[..n - 1], DecodeAll(shares, decode).error;
    if DecodeAll(init, decode).Err? {
      DecodeErrorIsFirst(init, decode);
      var i :| FirstFailure(init, decode, i) && decode(init[i]) == Err(e);
      assert init[i] == shares[i];
      assert FirstFailure(shares, decode, i);
    } else {
      assert FirstFailure(shares, decode, n - 1);
    }
  }

  /** Share i is the first that does not decode. */
  predicate FirstFailure(shares: seq<Share>, decode: Share -> Result<int>, i: int)
  {
    0 <= i < |shares| && decode(shares[i]).Err? &&
    forall j :: 0 <= j < i ==> decode(shares[j]).Ok?
  }

  function DecodeShares(shares: seq<Share>): Result<seq<Point>>
  {
    DecodeAll(shares, DecodeShare)
  }

  /** Lines 46-51: fewer points than k is rejected; otherwise exactly the
      first k points, in their order, go to the solver (a negative k makes
      subList(0, k) throw). */
  function SelectPoints(points: seq<Point>, k: int): (r: Result<seq<Point>>)
    ensures |points| < k <==> r == Err(InsufficientPoints)
    ensures k < 0 <==> r == Err(NegativeThreshold)
    ensures r.Ok? <==> 0 <= k <= |points|
    ensures r.Ok? ==> |r.value| == k && forall i :: 0 <= i < k ==> r.value[i] == points[i]
  {
    if |points| < k then Err(InsufficientPoints)
    else if k < 0 then Err(NegativeThreshold)
    else Ok(points[..k])
  }

  /** What one test case yields: decode every share, check the threshold,
      solve with the first k points. */
  function TestCaseSecret(shares: seq<Share>, k: int): (r: Result<int>)
    ensures DecodeShares(shares).Err? ==> r == Err(DecodeShares(shares).error)
    ensures DecodeShares(shares).Ok? && |shares| < k ==> r == Err(InsufficientPoints)
    ensures DecodeShares(shares).Ok? && k < 0 ==> r == Err(NegativeThreshold)
    ensures DecodeShares(shares).Ok? && 0 <= k <= |shares| ==> r == LinearSystem.Secret(DecodeShares(shares).value[..k])
    ensures r.Ok? ==> 0 < k <= |shares| && forall i :: 0 <= i < |shares| ==> DecodeShare(shares[i]).Ok?
  {
    match DecodeShares(shares)
    case Err(e) => Err(e)
    case Ok(points) =>
      match SelectPoints(points, k)
      case Err(e) => Err(e)
      case Ok(chosen) => LinearSystem.Secret(chosen)
  }

  /** A decoding failure in a prefix is the failure of every longer prefix. */
  lemma {:induction false} DecodeErrorSticks(shares: seq<Share>, decode: Share -> Result<int>, i: nat, j: nat)
    requires i <= j <= |shares| && DecodeAll(shares[..i], decode).Err?
    ensures DecodeAll(shares[..j], decode) == DecodeAll(shares[..i], decode)
    decreases j
  {
    if j > i {
      DecodeErrorSticks(shares, decode, i, j - 1);
      var prefix, e := shares[..j], DecodeAll(shares[..i], decode).error;
      assert prefix[..j - 1] == shares[..j - 1];
      assert DecodeAll(prefix[..j - 1], decode) == Err(e);
      assert DecodeAll(prefix, decode) == Err(e);
    }
  }

  /** Only the first k shares reach the solver: two test cases that decode
      completely and agree on their first k shares yield the same secret. */
  lemma OnlyFirstKMatter(shares: seq<Share>, others: seq<Share>, k: int)
    requires 0 <= k <= |shares| && k <= |others| && shares[..k] == others[..k]
    requires DecodeShares(shares).Ok? && DecodeShares(others).Ok?
    ensures TestCaseSecret(shares, k) == TestCaseSecret(others, k)
  {
    var ps, qs := DecodeShares(shares).value, DecodeShares(others).value;
    forall i | 0 <= i < k
      ensures ps[i] == qs[i]
    {
      assert shares[i] == shares[..k][i] == others[..k][i] == others[i];
    }
    assert ps[..k] == qs[..k];
    assert SelectPoints(ps, k) == SelectPoints(qs, k);
  }

  /** Lines 23-53 without the file, JSON and printing: decode the shares one
      by one, reject too few points, and hand the first k to the solver. */
  method ProcessTestCase(shares: seq<Share>, k: int) returns (r: Result<int>)
    ensures r == TestCaseSecret(shares, k)
  {
    var points: seq<Point> := [];
    for i := 0 to |shares|
      invariant DecodeAll(shares[..i], DecodeShare) == Ok(points)
    {
      var y := DecodeShare(shares[i]);
      assert shares[..i + 1][..i] == shares[..i];
      if y.Err? {
        DecodeErrorSticks(shares, DecodeShare, i + 1, |shares|);
        assert shares[..|shares|] == shares;
        return Err(y.error);
      }
      points := points + [Point(shares[i].x, y.value)];
    }
    assert shares[..|shares|] == shares;
    if |points| < k {
      return Err(InsufficientPoints);
    }
    if k < 0 {
      return Err(NegativeThreshold);
    }
    r := Gauss.SolveUsingGaussianElimination(points[..k]);
  }
}
