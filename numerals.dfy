/** The numeral decoder: what `new BigInteger(value, base)` computes from a
    share's digit string (ShamirSecretSharing.java, line 40). */
module Numerals {
  import opened Types
  import opened Arith

  /** Character.digit(ch, 36) restricted to ASCII: the value of a digit or
      letter of either case, and -1 for any other character. */
  function DigitValue(ch: char): int
  {
    if '0' <= ch <= '9' then ch as int - '0' as int
    else if 'a' <= ch <= 'z' then ch as int - 'a' as int + 10
    else if 'A' <= ch <= 'Z' then ch as int - 'A' as int + 10
    else -1
  }

  predicate IsDigit(ch: char, radix: int)
  {
    0 <= DigitValue(ch) < radix
  }

  predicate AllDigits(ds: string, radix: int)
  {
    forall i :: 0 <= i < |ds| ==> IsDigit(ds[i], radix)
  }

  /** The characters after one optional leading sign. */
  function Unsigned(s: string): string
  {
    if |s| > 0 && (s[0] == '-' || s[0] == '+') then s[1..] else s
  }

  function SignOf(s: string): int
  {
    if |s| > 0 && s[0] == '-' then -1 else 1
  }

  /** The positional value of a digit string: the sum of each digit times the
      radix raised to the number of digits that follow it. */
  function Positional(radix: int, ds: string): int
    requires AllDigits(ds, radix)
    decreases |ds|
  {
    if |ds| == 0 then 0
    else DigitValue(ds[0]) * Pow(radix, |ds| - 1) + Positional(radix, ds[1..])
  }

  /** Horner's rule, most significant digit first: the way the decoder
      accumulates the value. */
  function Horner(radix: int, ds: string): int
    requires AllDigits(ds, radix)
    decreases |ds|
  {
    if |ds| == 0 then 0
    else Horner(radix, ds[..|ds| - 1]) * radix + DigitValue(ds[|ds| - 1])
  }

  /** Horner's rule peeled from the front: the leading digit is worth radix^(n-1). */
  lemma {:induction false} HornerHead(radix: int, ds: string)
    requires AllDigits(ds, radix) && |ds| > 0
    ensures Horner(radix, ds) == DigitValue(ds[0]) * Pow(radix, |ds| - 1) + Horner(radix, ds[1..])
    decreases |ds|
  {
    var n := |ds|;
    if n > 1 {
      var init, tail := ds[..n - 1], ds[1..];
      HornerHead(radix, init);
      assert init[1..] == tail[..n - 2];
      var d0, p, h, e := DigitValue(ds[0]), Pow(radix, n - 2), Horner(radix, init[1..]), DigitValue(ds[n - 1]);
      assert Horner(radix, init) == d0 * p + h;
      assert Horner(radix, tail) == h * radix + e;
      assert Pow(radix, n - 1) == radix * p;
      Regroup(d0, p, h, radix, e);
    } else {
      assert ds[..0] == [] && ds[1..] == [];
    }
  }

  lemma Regroup(d: int, p: int, h: int, radix: int, e: int)
    ensures (d * p + h) * radix + e == d * (radix * p) + (h * radix + e)
  {
  }

  /** Horner's rule computes the positional value. */
  lemma {:induction false} HornerIsPositional(radix: int, ds: string)
    requires AllDigits(ds, radix)
    ensures Horner(radix, ds) == Positional(radix, ds)
    decreases |ds|
  {
    if |ds| > 0 {
      HornerHead(radix, ds);
      HornerIsPositional(radix, ds[1..]);
    }
  }

  /** A numeral of n digits is a non-negative number below radix^n. */
  lemma {:induction false} PositionalBounds(radix: int, ds: string)
    requires 2 <= radix && AllDigits(ds, radix)
    ensures 0 <= Positional(radix, ds) < Pow(radix, |ds|)
    decreases |ds|
  {
    if |ds| > 0 {
      var n := |ds|;
      PositionalBounds(radix, ds[1..]);
      var d, p, rest := DigitValue(ds[0]), Pow(radix, n - 1), Positional(radix, ds[1..]);
      assert Positional(radix, ds) == d * p + rest;
      assert Pow(radix, n) == radix * p;
      DigitStep(d, p, rest, radix);
    }
  }

  /** One more leading digit below the radix keeps the value below the next power. */
  lemma DigitStep(d: int, p: int, rest: int, radix: int)
    requires 0 <= d < radix && 0 <= rest < p
    ensures 0 <= d * p + rest < radix * p
  {
    assert d * p <= (radix - 1) * p by {
      assert (radix - 1) * p - d * p == (radix - 1 - d) * p;
    }
    assert (radix - 1) * p + p == radix * p;
  }

  /** `new BigInteger(s, radix)`: the radix is checked first, then one
      leading '-' or '+' is taken as the sign, then every remaining character
      must be a digit of the radix and at least one must be present. */
  function Decode(radix: int, s: string): (r: Result<int>)
    ensures r.Ok? <==> 2 <= radix <= 36 && |Unsigned(s)| > 0 && AllDigits(Unsigned(s), radix)
    ensures !(2 <= radix <= 36) ==> r == Err(RadixOutOfRange)
    ensures 2 <= radix <= 36 && |Unsigned(s)| == 0 ==> r == Err(ZeroLength)
    ensures 2 <= radix <= 36 && |Unsigned(s)| > 0 && !AllDigits(Unsigned(s), radix) ==> r == Err(IllegalDigit)
    ensures r.Ok? ==> r.value == SignOf(s) * Positional(radix, Unsigned(s))
  {
    if radix < 2 || radix > 36 then Err(RadixOutOfRange)
    else
      var ds := Unsigned(s);
      if |ds| == 0 then Err(ZeroLength)
      else if !AllDigits(ds, radix) then Err(IllegalDigit)
      else
        HornerIsPositional(radix, ds);
        Ok(SignOf(s) * Horner(radix, ds))
  }

  /** The lower-case digit character for a digit value, as BigInteger.toString(radix) writes it. */
  function DigitChar(d: nat): char
    requires d < 36
  {
    if d < 10 then ('0' as int + d) as char else ('a' as int + d - 10) as char
  }

  /** The digits of a non-negative value, most significant first, without leading zeros. */
  function Numeral(radix: int, v: nat): string
    requires 2 <= radix <= 36
    decreases v
  {
    if v < radix then [DigitChar(v)]
    else Numeral(radix, v / radix) + [DigitChar(v % radix)]
  }

  /** Writes any integer as a numeral in the radix, with '-' before a negative one. */
  function Encode(radix: int, v: int): string
    requires 2 <= radix <= 36
  {
    if v < 0 then ['-'] + Numeral(radix, -v) else Numeral(radix, v)
  }

  lemma {:induction false} NumeralDigits(radix: int, v: nat)
    requires 2 <= radix <= 36
    ensures |Numeral(radix, v)| > 0 && AllDigits(Numeral(radix, v), radix)
    ensures Horner(radix, Numeral(radix, v)) == v
    decreases v
  {
    if v >= radix {
      var q, d := v / radix, v % radix;
      DivStep(v, radix);
      NumeralDigits(radix, q);
      var init := Numeral(radix, q);
      var s := init + [DigitChar(d)];
      assert Numeral(radix, v) == s;
      assert s[..|s| - 1] == init;
      assert DigitValue(DigitChar(d)) == d;
      assert AllDigits(s, radix) by {
        forall i | 0 <= i < |s| ensures IsDigit(s[i], radix) {
          if i < |init| {
            assert s[i] == init[i];
          }
        }
      }
      assert Horner(radix, s) == Horner(radix, init) * radix + d;
    } else {
      assert DigitValue(DigitChar(v)) == v;
    }
  }

  lemma DivStep(v: nat, radix: int)
    requires 2 <= radix <= v
    ensures v == (v / radix) * radix + v % radix && 0 <= v % radix < radix
    ensures 0 < v / radix < v
  {
    var q, d := v / radix, v % radix;
    assert v == q * radix + d;
    assert q * radix == q * (radix - 2) + 2 * q;
  }

  /** Decoding undoes encoding, for every radix the decoder accepts and every integer. */
  lemma DecodeEncode(radix: int, v: int)
    requires 2 <= radix <= 36
    ensures Decode(radix, Encode(radix, v)) == Ok(v)
  {
    var s := Encode(radix, v);
    var n := Numeral(radix, if v < 0 then -v else v);
    NumeralDigits(radix, if v < 0 then -v else v);
    HornerIsPositional(radix, n);
    assert IsDigit(n[0], radix);
    assert Unsigned(s) == n by {
      if v < 0 {
        assert s[1..] == n;
      }
    }
  }

  /** Worked example: hexadecimal "1a" is 26. */
  lemma DecodeHexExample()
    ensures Decode(16, "1a") == Ok(26)
  {
    assert Unsigned("1a") == "1a" && AllDigits("1a", 16);
    assert "1a"[..1] == "1";
    assert Horner(16, "1a") == 26;
  }

  /** Worked example: binary "101" is 5. */
  lemma DecodeBinaryExample()
    ensures Decode(2, "101") == Ok(5)
  {
    assert Unsigned("101") == "101" && AllDigits("101", 2);
    assert "101"[..2] == "10" && "10"[..1] == "1";
    assert Horner(2, "101") == 5;
  }

  /** Worked example: base-36 "z" and "Z" are both 35. */
  lemma DecodeBase36Example()
    ensures Decode(36, "z") == Ok(35) && Decode(36, "Z") == Ok(35)
  {
    assert Unsigned("z") == "z" && Unsigned("Z") == "Z";
    assert Horner(36, "z") == 35 && Horner(36, "Z") == 35;
  }

  /** Worked example: a leading '-' negates the value. */
  lemma DecodeSignedExample()
    ensures Decode(10, "-42") == Ok(-42)
  {
    assert Unsigned("-42") == "42" && AllDigits("42", 10);
    assert "42"[..1] == "4";
    assert Horner(10, "42") == 42;
  }

  /** Rejected inputs: a digit beyond the radix, a sign with no digits, a radix above 36. */
  lemma DecodeRejections()
    ensures Decode(2, "2") == Err(IllegalDigit)
    ensures Decode(10, "-") == Err(ZeroLength)
    ensures Decode(10, "") == Err(ZeroLength)
    ensures Decode(37, "1") == Err(RadixOutOfRange)
  {
    assert !IsDigit("2"[0], 2);
  }
}
