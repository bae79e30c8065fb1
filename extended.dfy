/**
 * The two non-real values the reconstruction produces: an infinite variance
 * (numpy's `np.inf`, written where the balanced variance is not positive) and
 * the signal-to-noise quotient `sky / sqrt(var)`, kept exact without a square
 * root so that comparing it with a threshold is decided in real arithmetic.
 */
module Extended {

  /** A variance value: a real number, or +infinity. */
  datatype Ext = Fin(v: real) | Inf

  /**
   * `np.square(n) * e` for a non-zero `n`: a finite value is multiplied by
   * `n^2 > 0`, so a positive one stays positive, and infinity stays infinity.
   */
  function ScaleBySquare(n: real, e: Ext): (r: Ext)
    requires n != 0.0
    ensures r.Inf? <==> e.Inf?
    ensures e.Fin? ==> r == Fin(n * n * e.v)
    ensures PositiveOrInf(e) ==> PositiveOrInf(r)
  {
    match e
    case Fin(v) =>
      var w := n * n * v;
      if v > 0.0 then SquareTimesPositive(n, v, w); Fin(w) else Fin(w)
    case Inf => Inf
  }

  /** `e` may be used as a divisor's square: strictly positive or infinite. */
  predicate PositiveOrInf(e: Ext)
  {
    e.Inf? || e.v > 0.0
  }

  /** The largest finite IEEE-754 double, 2^1024 - 2^971, which `np.nan_to_num` writes for +infinity. */
  const LargestFinite: real := 179769313486231570814527423731704356798070567525844996598917476803157260780028538760589558632766878171540458953514382464234321326889464182768467546703537516986049910576551282076245490090389328944075868508455133942304583236903222948165808559332123348274797826204144723168738177180919299881250404026184124858368.0

  /**
   * A signal-to-noise value: either an exact real `x`, or the quotient
   * `num / sqrt(den)` of a real by the square root of a positive `den`.
   */
  datatype Snr = Exact(x: real) | Quot(num: real, den: real)

  predicate WellFormed(s: Snr)
  {
    s.Quot? ==> s.den > 0.0
  }

  /**
   * `s > t`. For a quotient `n / y` with `y = sqrt(d) > 0` this is `n > t*y`,
   * which is decided by comparing squares.
   */
  predicate Exceeds(s: Snr, t: real)
  {
    match s
    case Exact(x) => x > t
    case Quot(n, d) =>
      if t < 0.0 then n >= 0.0 || n * n < t * t * d
      else n > 0.0 && n * n > t * t * d
  }

  lemma PositiveProduct(x: real, y: real)
    requires x > 0.0 && y > 0.0
    ensures x * y > 0.0
  {
  }

  lemma NegativeProduct(x: real, y: real)
    requires x > 0.0 && y < 0.0
    ensures x * y < 0.0
  {
  }

  /** `n^2 * v > 0` for `n != 0` and `v > 0`; the product is passed in as `w`. */
  lemma SquareTimesPositive(n: real, v: real, w: real)
    requires n != 0.0 && v > 0.0 && w == n * n * v
    ensures w > 0.0
  {
    var m := if n > 0.0 then n else -n;
    PositiveProduct(m, v);
    PositiveProduct(m, m * v);
    assert w == m * (m * v);
  }

  lemma SquareMonotone(x: real, y: real)
    requires 0.0 <= x && 0.0 <= y
    ensures x < y <==> x * x < y * y
  {
    if x < y {
      assert (y - x) * x >= 0.0;
      assert (y - x) * y > 0.0;
      assert y * y - x * x == (y - x) * x + (y - x) * y;
    } else {
      assert (x - y) * x >= 0.0;
      assert (x - y) * y >= 0.0;
      assert x * x - y * y == (x - y) * x + (x - y) * y;
    }
  }

  /**
   * `Exceeds` means what its name says: for every positive square root `y`
   * of the denominator, `Quot(n, d)` exceeds `t` exactly when `n / y > t`.
   */
  lemma ExceedsQuotient(n: real, d: real, y: real, t: real)
    requires y > 0.0 && y * y == d
    ensures Exceeds(Quot(n, d), t) <==> n / y > t
  {
    assert n / y > t <==> n > t * y by {
      assert (n / y) * y == n;
      if n / y > t {
        assert (n / y) * y > t * y;
      } else {
        assert (n / y) * y <= t * y;
      }
    }
    assert t * t * d == (t * y) * (t * y);
    if t < 0.0 {
      if n < 0.0 {
        SquareMonotone(-n, -(t * y));
        assert n * n == (-n) * (-n);
        assert (t * y) * (t * y) == (-(t * y)) * (-(t * y));
      }
    } else {
      if n > 0.0 {
        SquareMonotone(t * y, n);
      }
    }
  }

  /** Two signal-to-noise values that denote the same real number. */
  predicate SameSnr(a: Snr, b: Snr)
  {
    match (a, b)
    case (Exact(x), Exact(y)) => x == y
    case (Quot(n1, d1), Quot(n2, d2)) =>
      (n1 > 0.0 <==> n2 > 0.0) && (n1 < 0.0 <==> n2 < 0.0) && n1 * n1 * d2 == n2 * n2 * d1
    case _ => false
  }

  lemma SameQuotValue(n1: real, d1: real, y1: real, n2: real, d2: real, y2: real)
    requires y1 > 0.0 && y1 * y1 == d1 && y2 > 0.0 && y2 * y2 == d2
    requires SameSnr(Quot(n1, d1), Quot(n2, d2))
    ensures n1 / y1 == n2 / y2
  {
    var q1, q2 := n1 / y1, n2 / y2;
    assert q1 * y1 == n1 && q2 * y2 == n2;
    assert n1 * n1 * d2 == q1 * q1 * (y1 * y1) * (y2 * y2);
    assert n2 * n2 * d1 == q2 * q2 * (y1 * y1) * (y2 * y2);
    assert (y1 * y1) * (y2 * y2) > 0.0;
    assert q1 * q1 == q2 * q2;
    assert (q1 > 0.0 <==> n1 > 0.0) && (q2 > 0.0 <==> n2 > 0.0);
    assert (q1 < 0.0 <==> n1 < 0.0) && (q2 < 0.0 <==> n2 < 0.0);
    if q1 >= 0.0 {
      SquareMonotone(q1, q2);
      SquareMonotone(q2, q1);
    } else {
      SquareMonotone(-q1, -q2);
      SquareMonotone(-q2, -q1);
    }
  }

  /**
   * `SameSnr` is equality of the denoted real numbers: whatever positive
   * square roots are taken, the quotients agree, and so does every comparison
   * with a threshold.
   */
  lemma SameSnrAgrees(a: Snr, b: Snr, t: real)
    requires WellFormed(a) && WellFormed(b) && SameSnr(a, b)
    ensures Exceeds(a, t) <==> Exceeds(b, t)
  {
    if a.Quot? {
      var (n1, d1, n2, d2) := (a.num, a.den, b.num, b.den);
      // n1^2 * d2 == n2^2 * d1 with d1, d2 > 0 lets each square comparison be
      // transported from one side to the other.
      assert t * t * d1 * d2 == t * t * d2 * d1;
      if n1 * n1 > t * t * d1 {
        assert n1 * n1 * d2 > t * t * d1 * d2;
        assert n2 * n2 * d1 > t * t * d2 * d1;
        assert n2 * n2 > t * t * d2;
      } else {
        assert n1 * n1 * d2 <= t * t * d1 * d2;
        assert n2 * n2 * d1 <= t * t * d2 * d1;
        assert n2 * n2 <= t * t * d2;
      }
      if n1 * n1 < t * t * d1 {
        assert n1 * n1 * d2 < t * t * d1 * d2;
        assert n2 * n2 * d1 < t * t * d2 * d1;
        assert n2 * n2 < t * t * d2;
      } else {
        assert n1 * n1 * d2 >= t * t * d1 * d2;
        assert n2 * n2 * d1 >= t * t * d2 * d1;
        assert n2 * n2 >= t * t * d2;
      }
    }
  }
}
