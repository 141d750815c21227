/** Clamp and interpolation arithmetic (Sources/Refresher/Math.swift).
    Every indicator position and opacity in the library is built from `Lerp` and
    `Normalize`. Lengths (`CGFloat`) are modelled as mathematical reals. */
module RefreshMath {

  function Min(a: real, b: real): real { if a <= b then a else b }
  function Max(a: real, b: real): real { if a <= b then b else a }

  /** Linear interpolation: moves from `from` (at `t` = 0) to `to` (at `t` = 1).
      `t` is not clamped, so values outside [0, 1] extrapolate. */
  function Lerp(from: real, to: real, t: real): (r: real)
    ensures t == 0.0 ==> r == from
    ensures t == 1.0 ==> r == to
    ensures from == to ==> r == from
    ensures r - from == (to - from) * t
  {
    from * (1.0 - t) + to * t
  }

  /** Position of `val` within [min, max] as a fraction, clamped to [0, 1]. */
  function Normalize(min: real, max: real, val: real): (r: real)
    requires min < max
    ensures 0.0 <= r <= 1.0
    ensures r == 0.0 <==> val <= min
    ensures r == 1.0 <==> val >= max
    ensures min <= val <= max ==> r * (max - min) == val - min
  {
    DivisionFacts(val - min, max - min);
    var v := (val - min) / (max - min);
    if v < 0.0 then 0.0 else if v > 1.0 then 1.0 else v
  }

  /** How a quotient by a positive real compares with 0 and 1. */
  lemma DivisionFacts(n: real, d: real)
    requires 0.0 < d
    ensures n / d < 0.0 <==> n < 0.0
    ensures n / d > 1.0 <==> n > d
    ensures n / d == 0.0 <==> n == 0.0
    ensures n / d == 1.0 <==> n == d
    ensures (n / d) * d == n
  {
    var q := n / d;
    assert q * d == n;
    if q < 0.0 {
      MulStrict(d, q, 0.0);
    } else {
      MulMonotone(d, 0.0, q);
    }
    if q > 1.0 {
      MulStrict(d, 1.0, q);
    } else if q < 1.0 {
      MulStrict(d, q, 1.0);
    }
  }

  /** A product of two positive reals is positive. */
  lemma MulPositive(a: real, b: real)
    requires 0.0 < a && 0.0 < b
    ensures 0.0 < a * b
  {
  }

  /** Scaling by a positive factor preserves strict order. */
  lemma MulStrict(a: real, b1: real, b2: real)
    requires 0.0 < a && b1 < b2
    ensures a * b1 < a * b2
  {
    MulPositive(a, b2 - b1);
    assert a * b2 - a * b1 == a * (b2 - b1);
  }

  /** A product of two non-negative reals is non-negative. */
  lemma MulNonNegative(a: real, b: real)
    requires 0.0 <= a && 0.0 <= b
    ensures 0.0 <= a * b
  {
  }

  /** Scaling by a non-negative factor preserves order. */
  lemma MulMonotone(a: real, b1: real, b2: real)
    requires 0.0 <= a && b1 <= b2
    ensures a * b1 <= a * b2
  {
    MulNonNegative(a, b2 - b1);
    assert a * b2 - a * b1 == a * (b2 - b1);
  }

  /** A fraction in [0, 1] of a non-negative span lies within the span. */
  lemma ScaledWithin(d: real, t: real)
    requires 0.0 <= d && 0.0 <= t <= 1.0
    ensures 0.0 <= d * t <= d
  {
    MulNonNegative(d, t);
    MulNonNegative(d, 1.0 - t);
    assert d * (1.0 - t) == d - d * t;
  }

  /** Two interpolants between the same endpoints differ by the span times the
      difference of their weights. */
  lemma LerpDifference(from: real, to: real, t1: real, t2: real)
    ensures Lerp(from, to, t2) - Lerp(from, to, t1) == (to - from) * (t2 - t1)
  {
    assert Lerp(from, to, t1) - from == (to - from) * t1;
    assert Lerp(from, to, t2) - from == (to - from) * t2;
    assert (to - from) * (t2 - t1) == (to - from) * t2 - (to - from) * t1;
  }

  lemma LerpBetweenRising(from: real, to: real, t: real)
    requires from <= to && 0.0 <= t <= 1.0
    ensures from <= Lerp(from, to, t) <= to
  {
    ScaledWithin(to - from, t);
  }

  lemma LerpBetweenFalling(from: real, to: real, t: real)
    requires to <= from && 0.0 <= t <= 1.0
    ensures to <= Lerp(from, to, t) <= from
  {
    LerpSymmetric(from, to, t);
    LerpBetweenRising(to, from, 1.0 - t);
  }

  /** Interpolating backwards with the complementary weight gives the same point. */
  lemma LerpSymmetric(from: real, to: real, t: real)
    ensures Lerp(from, to, t) == Lerp(to, from, 1.0 - t)
  {
    assert 1.0 - (1.0 - t) == t;
  }

  /** With the weight in [0, 1], the interpolant stays between its endpoints. */
  lemma LerpBetween(from: real, to: real, t: real)
    requires 0.0 <= t <= 1.0
    ensures Min(from, to) <= Lerp(from, to, t) <= Max(from, to)
  {
    if from <= to {
      LerpBetweenRising(from, to, t);
    } else {
      LerpBetweenFalling(from, to, t);
    }
  }

  /** Interpolating towards a larger endpoint is non-decreasing in the weight,
      towards a smaller one non-increasing. */
  lemma LerpMonotone(from: real, to: real, b1: real, b2: real)
    requires b1 <= b2
    ensures from <= to ==> Lerp(from, to, b1) <= Lerp(from, to, b2)
    ensures to <= from ==> Lerp(from, to, b2) <= Lerp(from, to, b1)
  {
    LerpDifference(from, to, b1, b2);
    if from <= to {
      MulNonNegative(to - from, b2 - b1);
    } else {
      MulNonNegative(from - to, b2 - b1);
      assert (to - from) * (b2 - b1) == -((from - to) * (b2 - b1));
    }
  }

  /** A division by a positive real preserves order. */
  lemma DivMonotone(a: real, b: real, d: real)
    requires 0.0 < d && a <= b
    ensures a / d <= b / d
  {
    assert b / d - a / d == (b - a) / d;
  }

  /** `Normalize` is monotone non-decreasing in the value. */
  lemma NormalizeMonotone(min: real, max: real, a: real, b: real)
    requires min < max && a <= b
    ensures Normalize(min, max, a) <= Normalize(min, max, b)
  {
    DivMonotone(a - min, b - min, max - min);
  }

  /** Within [min, max], interpolating between the bounds undoes `Normalize`. */
  lemma LerpNormalizeRoundTrip(min: real, max: real, val: real)
    requires min < max && min <= val <= max
    ensures Lerp(min, max, Normalize(min, max, val)) == val
  {
  }

  /** For weights in [0, 1], `Normalize` recovers the weight of a `Lerp` between the bounds. */
  lemma NormalizeLerpRoundTrip(min: real, max: real, t: real)
    requires min < max && 0.0 <= t <= 1.0
    ensures Normalize(min, max, Lerp(min, max, t)) == t
  {
    LerpBetween(min, max, t);
    var v := Lerp(min, max, t);
    assert (v - min) == (max - min) * t;
    assert (v - min) / (max - min) == t;
  }

  /** The clamped fraction is at most `c` exactly when the value lies at most a
      fraction `c` of the way from `min` to `max` (for a threshold `c` below 1). */
  lemma NormalizeAtMost(min: real, max: real, val: real, c: real)
    requires min < max && 0.0 <= c < 1.0
    ensures Normalize(min, max, val) <= c <==> val <= min + c * (max - min)
  {
    var d := max - min;
    MulMonotone(d, 0.0, c);
    MulMonotone(d, c, 1.0);
    if val <= min {
    } else if val >= max {
      MulStrict(d, c, 1.0);
      assert c * d == d * c;
    } else {
      var r := Normalize(min, max, val);
      assert r * d == val - min;
      if r <= c {
        MulMonotone(d, r, c);
        assert r * d == d * r;
      } else {
        MulStrict(d, c, r);
        assert r * d == d * r;
      }
    }
  }
}
