/**
 * The scorer's numbers. Every quotient the evaluation computes (the fidelity
 * score, the conflict ratio) is a count divided by a count, so it is kept
 * here as an exact pair of naturals; a comparison with a decimal threshold
 * `t / 10` becomes a comparison of cross products.
 */
module Ratios {

  /** The quotient `num / den`. */
  datatype Ratio = Ratio(num: nat, den: nat)

  /** `Math.max` on counts. */
  function Max(a: nat, b: nat): (r: nat)
    ensures r >= a && r >= b
    ensures r == a || r == b
  {
    if a >= b then a else b
  }

  /** `num / den > tenths / 10`, for a positive denominator. */
  predicate Exceeds(q: Ratio, tenths: nat) {
    10 * q.num > tenths * q.den
  }

  /** The cross-multiplied comparison is the comparison of the quotients. */
  lemma ExceedsIsGreater(q: Ratio, tenths: nat)
    requires q.den > 0
    ensures Exceeds(q, tenths) <==> (q.num as real) / (q.den as real) > (tenths as real) / 10.0
  {
    var x, d := q.num as real, q.den as real;
    assert (10 * q.num) as real == 10.0 * x;
    assert (tenths * q.den) as real == (tenths as real) * d;
    assert x / d > (tenths as real) / 10.0 <==> 10.0 * x > (tenths as real) * d by {
      assert x / d * d == x;
    }
  }

  /** A larger numerator over the same denominator passes every threshold
      the smaller one passes. */
  lemma ExceedsMonotone(a: nat, b: nat, den: nat, tenths: nat)
    requires a <= b
    ensures Exceeds(Ratio(a, den), tenths) ==> Exceeds(Ratio(b, den), tenths)
  {
  }

  /** `(q * 100).toFixed(1)` as a count of tenths of a percent: `1000 * q`
      rounded to the nearest whole number, halves upwards. */
  function Tenths(q: Ratio): (t: nat)
    requires q.den > 0
    ensures 2 * q.den * t <= 2000 * q.num + q.den < 2 * q.den * (t + 1)
  {
    var t := (2000 * q.num + q.den) / (2 * q.den);
    DivBounds(2000 * q.num + q.den, 2 * q.den);
    t
  }

  lemma DivBounds(n: nat, d: nat)
    requires d > 0
    ensures d * (n / d) <= n < d * (n / d + 1)
  {
  }

  /** With at most ten items on either side, `1000 * num / den` is never
      exactly half-way between two whole numbers, so the halves-upwards
      rule of `Tenths` never has to decide anything that the binary
      floating-point value and `toFixed` could decide differently. */
  lemma NoHalfTenths(q: Ratio)
    requires 0 < q.den <= 10
    ensures (2000 * q.num) % (2 * q.den) != q.den
  {
    var n := 2000 * q.num;
    var d := q.den;
    // 2000 * num is a multiple of 16, while an odd multiple of a
    // denominator of at most 10 has at most three factors 2.
    if n % (2 * d) == d {
      var k := n / (2 * d);
      assert n == 2 * d * k + d;
      assert n == d * (2 * k + 1);
      assert n % 16 == 0 by {
        assert n == 16 * (125 * q.num);
      }
      OddMultipleNotBy16(d, 2 * k + 1);
      assert false;
    }
  }

  lemma OddMultipleNotBy16(d: nat, m: nat)
    requires 0 < d <= 10 && m % 2 == 1
    ensures (d * m) % 16 != 0
  {
    var j := m / 2;
    assert m == 2 * j + 1;
    if d == 1 { assert d * m == 2 * j + 1; }
    else if d == 2 { assert d * m == 4 * j + 2; }
    else if d == 3 { assert d * m == 6 * j + 3; }
    else if d == 4 { assert d * m == 8 * j + 4; }
    else if d == 5 { assert d * m == 10 * j + 5; }
    else if d == 6 { assert d * m == 12 * j + 6; }
    else if d == 7 { assert d * m == 14 * j + 7; }
    else if d == 8 { assert d * m == 16 * j + 8; }
    else if d == 9 { assert d * m == 18 * j + 9; }
    else { assert d * m == 20 * j + 10; }
  }

  /** The character of a decimal digit. */
  function DigitChar(d: nat): (c: char)
    requires d < 10
    ensures '0' <= c <= '9'
  {
    ('0' as int + d) as char
  }

  /** The decimal digits of `n`, without leading zeros (`String(n)`). */
  function NatText(n: nat): (s: string)
    ensures |s| >= 1
    ensures forall i :: 0 <= i < |s| ==> '0' <= s[i] <= '9'
    ensures |s| > 1 ==> s[0] != '0'
  {
    if n < 10 then [DigitChar(n)] else NatText(n / 10) + [DigitChar(n % 10)]
  }

  /** The value of a string of decimal digits. */
  function ParseNat(s: string): nat
    requires forall i :: 0 <= i < |s| ==> '0' <= s[i] <= '9'
  {
    if s == [] then 0 else 10 * ParseNat(s[..|s| - 1]) + (s[|s| - 1] as int - '0' as int)
  }

  /** Reading back the digits gives the number. */
  lemma {:induction false} NatTextRoundTrip(n: nat)
    ensures ParseNat(NatText(n)) == n
  {
    if n >= 10 {
      NatTextRoundTrip(n / 10);
      var s := NatText(n);
      assert s[..|s| - 1] == NatText(n / 10);
    }
  }

  /** The text of the percentage in the rationale: the whole percent, a
      point and one decimal. */
  function PercentText(q: Ratio): (s: string)
    requires q.den > 0
    ensures |s| >= 3 && s[|s| - 2] == '.'
    ensures forall i :: 0 <= i < |s| && i != |s| - 2 ==> '0' <= s[i] <= '9'
    ensures |s| > 3 ==> s[0] != '0'
  {
    var t := Tenths(q);
    NatText(t / 10) + "." + [DigitChar(t % 10)]
  }

  /** Reading back a percentage: the whole part and the decimal. */
  function ParsePercent(s: string): nat
    requires |s| >= 3 && s[|s| - 2] == '.'
    requires forall i :: 0 <= i < |s| && i != |s| - 2 ==> '0' <= s[i] <= '9'
  {
    10 * ParseNat(s[..|s| - 2]) + (s[|s| - 1] as int - '0' as int)
  }

  /** The percentage text states `Tenths(q)` exactly. */
  lemma PercentTextRoundTrip(q: Ratio)
    requires q.den > 0
    ensures ParsePercent(PercentText(q)) == Tenths(q)
  {
    var t := Tenths(q);
    var s := PercentText(q);
    assert s[..|s| - 2] == NatText(t / 10);
    NatTextRoundTrip(t / 10);
  }
}
