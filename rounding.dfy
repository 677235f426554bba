/** Integer rounding of exact reals: `math.ceil`, `int()` of a float and the
    `_round_up_to_nearest` helper that health_goals and summary_notifier both define. */
module Rounding {

  /** `math.ceil`: the least integer not below `x`. */
  function Ceil(x: real): (c: int)
    ensures c as real >= x && (c - 1) as real < x
  {
    -((-x).Floor)
  }

  /** `int(x)` of a float: truncation toward zero. */
  function Trunc(x: real): (t: int)
    ensures x >= 0.0 ==> 0 <= t && t as real <= x < (t + 1) as real
    ensures x < 0.0 ==> t <= 0 && (t - 1) as real < x <= t as real
  {
    if x >= 0.0 then x.Floor else Ceil(x)
  }

  /** `int(math.ceil(value / nearest) * nearest)`; nearest is nonzero or Python divides by zero. */
  function RoundUpToNearest(value: real, nearest: int): (r: int)
    requires nearest != 0
    ensures nearest > 0 ==> r % nearest == 0 && r as real >= value && r as real < value + nearest as real
  {
    var q := Ceil(value / nearest as real);
    MultipleBounds(value, nearest, q);
    q * nearest
  }

  lemma MultipleBounds(value: real, nearest: int, q: int)
    requires nearest != 0 && q == Ceil(value / nearest as real)
    ensures nearest > 0 ==> (q * nearest) % nearest == 0
    ensures nearest > 0 ==> (q * nearest) as real >= value && (q * nearest) as real < value + nearest as real
  {
    if nearest > 0 {
      var n := nearest as real;
      var x := value / n;
      assert x * n == value;
      MulLe(x, q as real, n);
      MulLt((q - 1) as real, x, n);
      assert ((q - 1) as real) * n == (q as real) * n - n;
      CastMul(q, nearest);
      MultipleMod(q, nearest);
    }
  }

  lemma MultipleMod(q: int, n: int)
    requires n > 0
    ensures (q * n) % n == 0
  {
    var a := q * n;
    var d := a / n - q;
    assert a == n * (a / n) + a % n;
    assert n * d == -(a % n);
    if d >= 1 {
      IntMulLe(1, d, n);
    } else if d <= -1 {
      IntMulLe(d, -1, n);
    }
    assert d == 0;
  }

  lemma MulLe(a: real, b: real, c: real)
    requires a <= b && c >= 0.0
    ensures a * c <= b * c
  {
  }

  lemma MulLt(a: real, b: real, c: real)
    requires a < b && c > 0.0
    ensures a * c < b * c
  {
  }

  lemma CastMul(a: int, b: int)
    ensures (a * b) as real == (a as real) * (b as real)
  {
  }

  /** The rounded value is the least multiple of `nearest` that is not below `value`. */
  lemma RoundUpIsLeastMultiple(value: real, nearest: int, k: int)
    requires nearest > 0 && (k * nearest) as real >= value
    ensures RoundUpToNearest(value, nearest) <= k * nearest
  {
    var n := nearest as real;
    var q := Ceil(value / n);
    assert RoundUpToNearest(value, nearest) == q * nearest;
    CastMul(k, nearest);
    assert (k as real) * n >= value;
    DivLe(value, k as real, n);
    assert (q - 1) as real < k as real;
    assert q <= k;
    IntMulLe(q, k, nearest);
  }

  lemma DivLe(v: real, k: real, n: real)
    requires n > 0.0 && k * n >= v
    ensures v / n <= k
  {
  }

  lemma IntMulLe(a: int, b: int, c: int)
    requires a <= b && c >= 0
    ensures a * c <= b * c
  {
  }

  /** A non-positive value rounds to a non-positive multiple; a positive one to a positive multiple. */
  lemma RoundUpSign(value: real, nearest: int)
    requires nearest > 0
    ensures value <= 0.0 ==> RoundUpToNearest(value, nearest) <= 0
    ensures value > 0.0 ==> RoundUpToNearest(value, nearest) >= nearest
    ensures value == 0.0 ==> RoundUpToNearest(value, nearest) == 0
  {
    var n := nearest as real;
    var q := Ceil(value / n);
    assert RoundUpToNearest(value, nearest) == q * nearest;
    if value <= 0.0 {
      RoundUpIsLeastMultiple(value, nearest, 0);
    } else {
      assert value / n > 0.0;
      assert q >= 1;
      IntMulLe(1, q, nearest);
    }
  }
}
