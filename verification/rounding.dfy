/** `ItemStack::RoundValue` and `ItemStack::TruncatePrecision`, over exact
    real numbers. */
module Rounding {
  import opened Wrappers

  /** True when `x` is a whole number. */
  predicate Integral(x: real) {
    x == x.Floor as real
  }

  /** `ceil(x)`, as the negation of the floor of the negation. */
  function Ceil(x: real): (c: int)
    ensures x <= c as real < x + 1.0
  {
    -((-x).Floor)
  }

  /** Rounds to the nearest whole number, halves away from zero: `floor`
      of `v + 0.5` for non-negative `v`, `ceil` of `v - 0.5` otherwise. */
  function RoundValue(v: real): (r: real)
    ensures Integral(r)
    ensures v >= 0.0 ==> v - 0.5 < r <= v + 0.5
    ensures v < 0.0 ==> v - 0.5 <= r < v + 0.5
  {
    if v >= 0.0 then (v + 0.5).Floor as real else Ceil(v - 0.5) as real
  }

  /** Rounding commutes with negation: the rule is symmetric about zero. */
  lemma RoundValueSymmetric(v: real)
    ensures RoundValue(-v) == -RoundValue(v)
  {
    if v > 0.0 {
      assert -v - 0.5 == -(v + 0.5);
    } else if v < 0.0 {
      assert -(v - 0.5) == -v + 0.5;
    }
  }

  /** No whole number is closer to `v` than its rounding. */
  lemma RoundValueNearest(v: real, n: int)
    ensures Abs(RoundValue(v) - v) <= Abs(n as real - v)
  {
    var r := RoundValue(v);
    if n as real != r {
      var k := r.Floor;
      assert r == k as real;
      assert n <= k - 1 || n >= k + 1;
    }
  }

  /** The one whole number strictly between `lo` and `lo + 2`. */
  lemma WholeBetween(r: real, lo: int)
    requires Integral(r) && lo as real < r < lo as real + 2.0
    ensures r == lo as real + 1.0
  {
    var k := r.Floor;
    assert r == k as real;
    assert lo < k < lo + 2;
  }

  /** A whole number rounds to itself. */
  lemma RoundValueOfWhole(n: int)
    ensures RoundValue(n as real) == n as real
  {
    var v := n as real;
    if n >= 0 {
      WholeBetween(RoundValue(v), n - 1);
    } else {
      RoundValueSymmetric(-v);
      WholeBetween(RoundValue(-v), -n - 1);
    }
  }

  /** A tie rounds away from zero. */
  lemma RoundValueTiesAwayFromZero(n: nat)
    ensures RoundValue(n as real + 0.5) == n as real + 1.0
    ensures RoundValue(-(n as real) - 0.5) == -(n as real) - 1.0
  {
    WholeBetween(RoundValue(n as real + 0.5), n);
    RoundValueSymmetric(n as real + 0.5);
    assert -(n as real + 0.5) == -(n as real) - 0.5;
  }

  /** A value halfway between two whole numbers rounds to the one farther
      from zero. */
  lemma RoundValueOfTie(x: real)
    ensures Integral(x + 0.5) ==> RoundValue(x) == if x >= 0.0 then x + 0.5 else x - 0.5
  {
    if Integral(x + 0.5) {
      var n := (x + 0.5).Floor;
      assert x + 0.5 == n as real;
      if x < 0.0 {
        assert -(x - 0.5) == (1 - n) as real;
        assert (-(x - 0.5)).Floor == 1 - n;
      }
    }
  }

  function Abs(x: real): real {
    if x < 0.0 then -x else x
  }

  /** `TruncatePrecision`: null for a value that is not positive unless
      negatives are allowed; otherwise the value rounded to two decimals. */
  function TruncatePrecision(v: real, allowNegative: bool): (r: Option<real>)
    ensures r.None? <==> v <= 0.0 && !allowNegative
    ensures r.Some? ==> Integral(r.value * 100.0)
    ensures r.Some? ==> v - 0.005 <= r.value <= v + 0.005
    ensures r.Some? && Integral(v * 100.0 + 0.5) ==> r.value == (if v >= 0.0 then v + 0.005 else v - 0.005)
  {
    if v <= 0.0 && !allowNegative then None
    else
      var r := RoundValue(v * 100.0) / 100.0;
      assert r * 100.0 == RoundValue(v * 100.0);
      RoundValueOfTie(v * 100.0);
      Some(r)
  }

  /** No whole number of hundredths is nearer to the value than the result. */
  lemma TruncatePrecisionNearest(v: real, allowNegative: bool, n: int)
    requires TruncatePrecision(v, allowNegative).Some?
    ensures Abs(TruncatePrecision(v, allowNegative).value * 100.0 - v * 100.0) <= Abs(n as real - v * 100.0)
  {
    RoundValueNearest(v * 100.0, n);
  }

  /** Examples: the third decimal decides, ties go away from zero, zero is
      null unless negatives are allowed. */
  lemma TruncatePrecisionExamples()
    ensures TruncatePrecision(2.674, false) == Some(2.67)
    ensures TruncatePrecision(2.675, false) == Some(2.68)
    ensures TruncatePrecision(-2.675, true) == Some(-2.68)
    ensures TruncatePrecision(-2.675, false) == None
    ensures TruncatePrecision(0.0, false) == None
    ensures TruncatePrecision(0.0, true) == Some(0.0)
  {
    assert (267.4 + 0.5).Floor == 267;
    assert (267.5 + 0.5).Floor == 268;
    assert Ceil(-267.5 - 0.5) == -268;
    assert (0.0 + 0.5).Floor == 0;
  }
}
