/**
 * Exact decimal values, the part of BigDecimal the Number variant relies
 * on: reading a decimal text into an integer mantissa and a power-of-ten
 * exponent, numeric comparison, and truncation toward zero.
 */
module Decimals {
  import opened Base

  /** The number mantissa · 10^exponent. */
  datatype Decimal = Decimal(mantissa: int, exponent: int)

  function Pow10(n: nat): (p: nat)
    ensures p >= 1
  {
    if n == 0 then 1 else 10 * Pow10(n - 1)
  }

  /** 10^e as a real number, for any integer e. */
  function RPow10(e: int): real
    decreases if e >= 0 then e else -e
  {
    if e == 0 then 1.0
    else if e > 0 then 10.0 * RPow10(e - 1)
    else RPow10(e + 1) / 10.0
  }

  /** The value a decimal stands for: the reference its comparisons are checked against. */
  function ToReal(d: Decimal): real
  {
    d.mantissa as real * RPow10(d.exponent)
  }

  /** Numeric equality by integers alone: both mantissas scaled to the smaller exponent. */
  predicate SameValue(a: Decimal, b: Decimal)
  {
    var e := if a.exponent <= b.exponent then a.exponent else b.exponent;
    a.mantissa * Pow10(a.exponent - e) == b.mantissa * Pow10(b.exponent - e)
  }

  /** BigDecimal#to_i: the value truncated toward zero. */
  function Truncate(d: Decimal): (r: int)
    ensures 0 <= d.mantissa ==> 0 <= r
    ensures d.mantissa <= 0 ==> r <= 0
    ensures d.exponent < 0 && 0 <= d.mantissa ==> r <= d.mantissa
    ensures d.exponent < 0 && d.mantissa <= 0 ==> d.mantissa <= r
  {
    if d.exponent >= 0 then
      ScalingKeepsSign(d.mantissa, Pow10(d.exponent));
      d.mantissa * Pow10(d.exponent)
    else if d.mantissa >= 0 then
      QuotientShrinks(d.mantissa, Pow10(-d.exponent));
      d.mantissa / Pow10(-d.exponent)
    else
      QuotientShrinks(-d.mantissa, Pow10(-d.exponent));
      -((-d.mantissa) / Pow10(-d.exponent))
  }

  lemma ScalingKeepsSign(m: int, p: nat)
    ensures 0 <= m ==> 0 <= m * p
    ensures m <= 0 ==> m * p <= 0
  {
  }

  lemma QuotientShrinks(n: nat, p: nat)
    requires p >= 1
    ensures 0 <= n / p <= n
  {
    assert n == p * (n / p) + n % p;
  }

  // ---------------------------------------------------------------------
  // Reading decimal text

  predicate IsDigit(c: char) { '0' <= c <= '9' }

  predicate AllDigits(s: string) { forall k :: 0 <= k < |s| ==> IsDigit(s[k]) }

  /** The length of the run of decimal digits at the front of `s`. */
  function DigitRun(s: string): (n: nat)
    ensures n <= |s| && AllDigits(s[..n])
    ensures n < |s| ==> !IsDigit(s[n])
  {
    if |s| == 0 || !IsDigit(s[0]) then 0
    else
      var n := 1 + DigitRun(s[1..]);
      assert s[..n] == [s[0]] + s[1..][..n - 1];
      n
  }

  /** The number a run of decimal digits writes. */
  function DigitsValue(ds: string): nat
    requires AllDigits(ds)
  {
    if |ds| == 0 then 0
    else DigitsValue(ds[..|ds| - 1]) * 10 + (ds[|ds| - 1] as int - '0' as int)
  }

  /** An optional sign: whether it is '-', and what follows it. */
  function SplitSign(s: string): (bool, string)
  {
    if |s| > 0 && (s[0] == '-' || s[0] == '+') then (s[0] == '-', s[1..]) else (false, s)
  }

  /** An optional '.' with one or more digits: the digits, and what follows them. */
  function ParseFraction(s: string): (r: Option<(string, string)>)
    ensures r.Some? ==> AllDigits(r.value.0)
    ensures r.Some? && |r.value.0| > 0 ==> s == "." + r.value.0 + r.value.1
    ensures r.Some? && |r.value.0| == 0 ==> r.value.1 == s
  {
    if |s| > 0 && s[0] == '.' then
      var n := DigitRun(s[1..]);
      if n == 0 then None
      else
        assert s == "." + s[1..][..n] + s[1..][n..];
        Some((s[1..][..n], s[1..][n..]))
    else Some(([], s))
  }

  /** An optional exponent marker with a signed digit run, ending the text: its value. */
  function ParseExponent(s: string): Option<int>
  {
    if |s| == 0 then Some(0)
    else if s[0] == 'e' || s[0] == 'E' then
      var negative := SplitSign(s[1..]).0;
      var body := SplitSign(s[1..]).1;
      var n := DigitRun(body);
      if n == 0 || n != |body| then None
      else Some(if negative then -(DigitsValue(body) as int) else DigitsValue(body))
    else None
  }

  /**
   * BigDecimal's reading of a number text, strict form:
   * [+-]? digits ('.' digits)? ([eE] [+-]? digits)?; anything else is rejected.
   */
  function ParseDecimal(s: string): Option<Decimal>
  {
    var body := SplitSign(s).1;
    var n := DigitRun(body);
    if n == 0 then None else ParseAfterDigits(SplitSign(s).0, body[..n], body[n..])
  }

  /** The rest of the reading once the sign and the integer digits are known. */
  function ParseAfterDigits(negative: bool, whole: string, rest: string): Option<Decimal>
    requires AllDigits(whole)
  {
    var fraction := ParseFraction(rest);
    if fraction.None? then None
    else
      var exponent := ParseExponent(fraction.value.1);
      if exponent.None? then None
      else Some(Assemble(negative, whole, fraction.value.0, exponent.value))
  }

  /** The value of sign, integer digits, fraction digits and exponent. */
  function Assemble(negative: bool, whole: string, fracDigits: string, e: int): Decimal
    requires AllDigits(whole) && AllDigits(fracDigits)
  {
    assert AllDigits(whole + fracDigits);
    var magnitude: int := DigitsValue(whole + fracDigits);
    Decimal(if negative then -magnitude else magnitude, e - |fracDigits|)
  }

  // ---------------------------------------------------------------------
  // Powers of ten

  lemma RPow10Step(e: int)
    ensures RPow10(e + 1) == 10.0 * RPow10(e)
  {
  }

  lemma {:induction false} RPow10Shift(k: nat, e: int)
    ensures RPow10(e + k) == Pow10(k) as real * RPow10(e)
    decreases k
  {
    if k > 0 {
      RPow10Shift(k - 1, e);
      RPow10Step(e + k - 1);
    }
  }

  lemma {:induction false} RPow10Positive(e: int)
    ensures RPow10(e) > 0.0
    decreases if e >= 0 then e else -e
  {
    if e > 0 {
      RPow10Positive(e - 1);
    } else if e < 0 {
      RPow10Positive(e + 1);
    }
  }

  /** A negative power of ten is the reciprocal of the matching whole power. */
  lemma RPow10Negative(k: nat)
    ensures RPow10(-(k as int)) * Pow10(k) as real == 1.0
  {
    RPow10Shift(k, -(k as int));
  }

  lemma RPow10Whole(k: nat)
    ensures RPow10(k) == Pow10(k) as real
  {
    RPow10Shift(k, 0);
  }

  // ---------------------------------------------------------------------
  // Numeric equality

  lemma ProductAsReal(m: int, p: int)
    ensures (m * p) as real == m as real * p as real
  {
  }

  lemma MultiplyAssociates(m: real, p: real, r: real)
    ensures m * (p * r) == (m * p) * r
  {
  }

  /** A power of ten split at a smaller exponent. */
  lemma RPow10Split(t: int, k: nat, e: int)
    requires t == e + k
    ensures RPow10(t) == Pow10(k) as real * RPow10(e)
  {
    RPow10Shift(k, e);
  }

  /** A decimal's value, written over a smaller exponent. */
  lemma ValueOverExponent(d: Decimal, k: nat, e: int)
    requires d.exponent == e + k
    ensures ToReal(d) == ToReal(Decimal(d.mantissa * Pow10(k), e))
  {
    RPow10Split(d.exponent, k, e);
    Regroup(d.mantissa, Pow10(k), RPow10(e), RPow10(d.exponent), ToReal(d));
    ToRealOf(d.mantissa * Pow10(k), e);
  }

  lemma ToRealOf(m: int, e: int)
    ensures ToReal(Decimal(m, e)) == m as real * RPow10(e)
  {
  }

  lemma Regroup(m: int, p: int, r: real, q: real, t: real)
    requires q == p as real * r && t == m as real * q
    ensures t == (m * p) as real * r
  {
    ProductAsReal(m, p);
    MultiplyAssociates(m as real, p as real, r);
  }

  /** Over one exponent, values are equal exactly when mantissas are. */
  lemma SameExponentValues(x: int, y: int, e: int)
    ensures ToReal(Decimal(x, e)) == ToReal(Decimal(y, e)) <==> x == y
  {
    RPow10Positive(e);
    ToRealOf(x, e);
    ToRealOf(y, e);
    if x != y {
      var r := RPow10(e);
      assert (x as real - y as real) * r != 0.0;
      assert x as real * r - y as real * r != 0.0;
    }
  }

  /** Over any exponent at or below both, equal values mean equal scaled mantissas. */
  lemma EqualOverExponent(a: Decimal, b: Decimal, e: int)
    requires e <= a.exponent && e <= b.exponent
    ensures ToReal(a) == ToReal(b) <==>
            a.mantissa * Pow10(a.exponent - e) == b.mantissa * Pow10(b.exponent - e)
  {
    var ka: nat := a.exponent - e;
    var kb: nat := b.exponent - e;
    ValueOverExponent(a, ka, e);
    ValueOverExponent(b, kb, e);
    SameExponentValues(a.mantissa * Pow10(ka), b.mantissa * Pow10(kb), e);
  }

  /** Comparison by cross-scaled mantissas is exactly equality of the values. */
  lemma SameValueIsNumericEquality(a: Decimal, b: Decimal)
    ensures SameValue(a, b) <==> ToReal(a) == ToReal(b)
  {
    EqualOverExponent(a, b, if a.exponent <= b.exponent then a.exponent else b.exponent);
  }

  lemma SameValueIsEquivalence(a: Decimal, b: Decimal, c: Decimal)
    ensures SameValue(a, a)
    ensures SameValue(a, b) ==> SameValue(b, a)
    ensures SameValue(a, b) && SameValue(b, c) ==> SameValue(a, c)
  {
    SameValueIsNumericEquality(a, a);
    SameValueIsNumericEquality(a, b);
    SameValueIsNumericEquality(b, a);
    SameValueIsNumericEquality(b, c);
    SameValueIsNumericEquality(a, c);
  }

  /** Writing trailing zeros into the mantissa does not change the value. */
  lemma ScalingKeepsValue(d: Decimal, k: nat)
    ensures SameValue(d, Decimal(d.mantissa * Pow10(k), d.exponent - k))
  {
  }

  // ---------------------------------------------------------------------
  // Truncation

  lemma QuotientBounds(n: nat, p: nat, x: real, v: real)
    requires p >= 1 && x * p as real == 1.0 && v == n as real * x
    ensures 0 <= n / p
    ensures (n / p) as real <= v < (n / p) as real + 1.0
  {
    var q := n / p;
    var r := n % p;
    assert n == q * p + r;
    assert n as real * x == q as real * (p as real * x) + r as real * x;
    assert x > 0.0;
    assert r as real * x < p as real * x;
  }

  /** A non-negative mantissa over a negative exponent lies between its quotient and the next integer. */
  lemma ScaledDownBounds(n: nat, k: nat)
    ensures 0 <= n / Pow10(k)
    ensures (n / Pow10(k)) as real <= ToReal(Decimal(n, -(k as int))) < (n / Pow10(k)) as real + 1.0
  {
    RPow10Negative(k);
    ToRealOf(n, -(k as int));
    QuotientBounds(n, Pow10(k), RPow10(-(k as int)), ToReal(Decimal(n, -(k as int))));
  }

  /** A positive mantissa has a positive value. */
  lemma PositiveValue(n: nat, e: int)
    requires n > 0
    ensures ToReal(Decimal(n, e)) > 0.0
  {
    RPow10Positive(e);
    ToRealOf(n, e);
  }

  lemma NegatedValue(n: nat, e: int)
    ensures ToReal(Decimal(-(n as int), e)) == -ToReal(Decimal(n, e))
  {
    ToRealOf(n, e);
    ToRealOf(-(n as int), e);
  }

  /** to_i truncates toward zero: it is the integer next to the value on zero's side. */
  lemma TruncateTowardZero(d: Decimal)
    ensures ToReal(d) >= 0.0 ==> Truncate(d) as real <= ToReal(d) < Truncate(d) as real + 1.0
    ensures ToReal(d) < 0.0 ==> Truncate(d) as real - 1.0 < ToReal(d) <= Truncate(d) as real
  {
    if d.exponent >= 0 {
      TruncateOfWholeIsExact(d);
    } else {
      var k: nat := -d.exponent;
      assert d.exponent == -(k as int);
      if d.mantissa >= 0 {
        var n: nat := d.mantissa;
        assert d == Decimal(n, -(k as int));
        assert Truncate(d) == n / Pow10(k);
        ScaledDownBounds(n, k);
      } else {
        var n: nat := -d.mantissa;
        assert d == Decimal(-(n as int), -(k as int));
        var q := n / Pow10(k);
        assert Truncate(d) == -q;
        var v := ToReal(Decimal(n, -(k as int)));
        ScaledDownBounds(n, k);
        PositiveValue(n, -(k as int));
        NegatedValue(n, -(k as int));
        assert ToReal(d) == -v;
        assert q as real <= v < q as real + 1.0;
      }
    }
  }

  /** Numerically equal decimals truncate to the same integer. */
  lemma TruncateRespectsValue(a: Decimal, b: Decimal)
    requires SameValue(a, b)
    ensures Truncate(a) == Truncate(b)
  {
    SameValueIsNumericEquality(a, b);
    TruncateTowardZero(a);
    TruncateTowardZero(b);
  }

  /** A decimal with no negative exponent is a whole number, and to_i loses nothing. */
  lemma TruncateOfWholeIsExact(d: Decimal)
    requires d.exponent >= 0
    ensures Truncate(d) as real == ToReal(d)
  {
    RPow10Whole(d.exponent);
  }

  // ---------------------------------------------------------------------
  // Digit runs

  lemma {:induction false} DigitsValueAppend(a: string, b: string)
    requires AllDigits(a) && AllDigits(b)
    ensures AllDigits(a + b)
    ensures DigitsValue(a + b) == DigitsValue(a) * Pow10(|b|) + DigitsValue(b)
    decreases |b|
  {
    if |b| > 0 {
      var b' := b[..|b| - 1];
      assert (a + b)[..|a + b| - 1] == a + b';
      assert (a + b)[|a + b| - 1] == b[|b| - 1];
      DigitsValueAppend(a, b');
      ShiftOneDigit(DigitsValue(a), DigitsValue(b'), Pow10(|b'|), b[|b| - 1] as int - '0' as int);
    } else {
      assert a + b == a;
    }
  }

  /** Appending one digit after a value split at a power of ten. */
  lemma ShiftOneDigit(x: int, y: int, p: int, d: int)
    ensures (x * p + y) * 10 + d == x * (10 * p) + (y * 10 + d)
  {
  }

  lemma {:induction false} DigitRunOfDigits(ds: string, rest: string)
    requires AllDigits(ds)
    requires |rest| > 0 ==> !IsDigit(rest[0])
    ensures DigitRun(ds + rest) == |ds|
    decreases |ds|
  {
    if |ds| > 0 {
      assert (ds + rest)[1..] == ds[1..] + rest;
      DigitRunOfDigits(ds[1..], rest);
    } else {
      assert ds + rest == rest;
    }
  }
}
