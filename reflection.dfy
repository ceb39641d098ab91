/**
 * Reflection at the bounds of a proposal interval.
 *
 * The speciation parameter proposes new rates with two kernels: an additive
 * sliding window that mirrors a value across the violated bound
 * (x ~> 2*lo - x, x ~> 2*hi - x), and a multiplicative scale move that
 * mirrors it in log space (x ~> lo*lo/x, x ~> hi*hi/x). This module holds the
 * arithmetic both kernels need: termination bounds for their reflection
 * loops, the orbit that additive reflection moves a value along, and the
 * single multiplicative reflection.
 */
module Reflection {

  /** q to the power k. */
  function Pow(q: real, k: nat): real
  {
    if k == 0 then 1.0 else q * Pow(q, k - 1)
  }

  lemma {:induction false} PowAtLeastOne(q: real, k: nat)
    requires q >= 1.0
    ensures Pow(q, k) >= 1.0
  {
    if k > 0 {
      PowAtLeastOne(q, k - 1);
      assert q * Pow(q, k - 1) >= 1.0 * Pow(q, k - 1);
    }
  }

  /** Bernoulli's inequality: powers of q >= 1 grow at least linearly. */
  lemma {:induction false} Bernoulli(q: real, k: nat)
    requires q >= 1.0
    ensures Pow(q, k) >= 1.0 + (k as real) * (q - 1.0)
  {
    if k > 0 {
      Bernoulli(q, k - 1);
      PowAtLeastOne(q, k - 1);
      var p := Pow(q, k - 1);
      var d := q - 1.0;
      assert Pow(q, k) == q * p;
      assert q * p == p + p * d;
      MulMonotone(1.0, p, d);
      assert (k as real) * d == ((k - 1) as real) * d + d;
    }
  }

  /** A number of window widths w that covers a distance e. */
  ghost function WindowSteps(e: real, w: real): (k: nat)
    requires e >= 0.0 && w > 0.0
    ensures e <= (k as real) * w
  {
    var z := e / w;
    assert z * w == e;
    var k := z.Floor + 1;
    assert (k as real) > z;
    assert (k as real) * w - z * w == ((k as real) - z) * w;
    assert ((k as real) - z) * w > 0.0;
    k
  }

  /** An exponent k with b * q^k at least a, for 0 < b <= a and a ratio q > 1. */
  ghost function ScaleSteps(a: real, b: real, q: real): (k: nat)
    requires 0.0 < b <= a && q > 1.0
    ensures a <= b * Pow(q, k)
  {
    var e := a / b;
    assert e * b == a;
    CancelLe(1.0, e, b);
    var k := WindowSteps(e - 1.0, q - 1.0);
    Bernoulli(q, k);
    assert e <= Pow(q, k);
    MulMonotone(e, Pow(q, k), b);
    k
  }

  /** x moved by n whole periods of additive reflection in [lo, hi]. */
  function Shift(x: real, n: int, lo: real, hi: real): real
  {
    x + (n as real) * (2.0 * (hi - lo))
  }

  /**
   * The values that repeated additive reflection across lo and hi can reach
   * from x: x itself and its mirror image at lo, each moved by whole periods
   * 2*(hi - lo).
   */
  ghost predicate InOrbit(a: real, x: real, lo: real, hi: real)
  {
    exists n: int :: a == Shift(x, n, lo, hi) || a == Shift(2.0 * lo - x, n, lo, hi)
  }

  /** An integer multiple of p strictly inside (-p, p) is zero. */
  lemma MultipleInsidePeriod(k: int, p: real, kp: real)
    requires p > 0.0 && kp == (k as real) * p
    requires -p < kp < p
    ensures k == 0
  {
    if k != 0 {
      MulMonotone(1.0, if k > 0 then k as real else -(k as real), p);
    }
  }

  /** A product of positive numbers is positive. */
  lemma MulPositive(a: real, b: real)
    requires a > 0.0 && b > 0.0
    ensures a * b > 0.0
  {
    MulMonotone(0.0, a, b);
    assert a * b != 0.0;
  }

  /** Multiplying by a non-negative factor keeps an inequality. */
  lemma MulMonotone(a: real, b: real, c: real)
    requires a <= b && c >= 0.0
    ensures a * c <= b * c
  {
    assert b * c - a * c == (b - a) * c;
  }

  /**
   * One additive reflection of a point that lies within k window widths
   * outside the range: it needed k >= 1, and afterwards lies within k - 1.
   */
  lemma WindowStep(e: real, w: real, k: nat)
    requires w > 0.0 && 0.0 < e <= (k as real) * w
    ensures k >= 1
    ensures e - w <= ((k - 1) as real) * w
  {
    assert ((k - 1) as real) * w == (k as real) * w - w;
  }

  /**
   * One multiplicative reflection at lo of a point x whose shortfall is
   * bounded by q^k, q = hi/lo (lo <= x * q^k): it needed k >= 1, and if the
   * image overshoots hi it lies within q^(k-1) above hi.
   */
  lemma ScaleBelowStep(x: real, lo: real, hi: real, k: nat)
    requires 0.0 < lo < hi && 0.0 < x < lo
    requires lo <= x * Pow(hi / lo, k)
    ensures k >= 1
    ensures lo * lo / x <= hi * Pow(hi / lo, k - 1)
  {
    var q := hi / lo;
    if k >= 1 {
      var r := Pow(q, k - 1);
      assert q * lo == hi;
      assert (lo * lo / x) * x == lo * lo;
      MulMonotone(lo, x * (q * r), lo);
      assert lo * (x * (q * r)) == x * (hi * r);
      CancelLe(lo * lo / x, hi * r, x);
    }
  }

  /**
   * One multiplicative reflection at hi of a point x whose excess is
   * bounded by q^k, q = hi/lo (x <= hi * q^k): it needed k >= 1, and if the
   * image undershoots lo it lies within q^(k-1) below lo.
   */
  lemma ScaleAboveStep(x: real, lo: real, hi: real, k: nat)
    requires 0.0 < lo < hi < x
    requires x <= hi * Pow(hi / lo, k)
    ensures k >= 1
    ensures lo <= (hi * hi / x) * Pow(hi / lo, k - 1)
  {
    var q := hi / lo;
    if k >= 1 {
      var r := Pow(q, k - 1);
      var y := hi * hi / x;
      assert q * lo == hi;
      assert y * x == hi * hi;
      assert y > 0.0;
      MulMonotone(x, hi * (q * r), y);
      assert hi * hi <= hi * (y * q * r);
      CancelLe(hi, y * q * r, hi);
      assert lo * q <= (y * r) * q;
      CancelLe(lo, y * r, q);
    }
  }

  /**
   * The distance of v from [lo, hi] is covered by k multiplicative
   * reflections' worth of the ratio hi/lo.
   */
  ghost predicate ScaleBudget(v: real, lo: real, hi: real, k: nat)
    requires 0.0 < lo < hi
  {
    (v < lo ==> lo <= v * Pow(hi / lo, k)) && (v > hi ==> v <= hi * Pow(hi / lo, k))
  }

  /** A budget that covers any positive starting value. */
  ghost function ScaleBudgetSteps(v: real, lo: real, hi: real): (k: nat)
    requires 0.0 < lo < hi && v > 0.0
    ensures ScaleBudget(v, lo, hi, k)
  {
    assert hi / lo > 1.0 by {
      assert (hi / lo) * lo == hi;
    }
    if v < lo then ScaleSteps(lo, v, hi / lo)
    else if v > hi then ScaleSteps(v, hi, hi / lo)
    else 0
  }

  /** Reflecting a value below lo spends one step of the budget. */
  lemma ScaleBudgetLow(v: real, lo: real, hi: real, k: nat)
    requires 0.0 < lo < hi && 0.0 < v < lo && ScaleBudget(v, lo, hi, k)
    ensures k >= 1 && lo * lo / v > lo
    ensures ScaleBudget(lo * lo / v, lo, hi, k - 1)
  {
    ScaleBelowStep(v, lo, hi, k);
    ReflectBelowInRange(v, lo, hi);
  }

  /** Reflecting a value above hi spends one step of the budget. */
  lemma ScaleBudgetHigh(v: real, lo: real, hi: real, k: nat)
    requires 0.0 < lo < hi && hi < v && ScaleBudget(v, lo, hi, k)
    ensures k >= 1 && 0.0 < hi * hi / v < hi
    ensures ScaleBudget(hi * hi / v, lo, hi, k - 1)
  {
    ScaleAboveStep(v, lo, hi, k);
    ReflectAboveInRange(v, lo, hi);
  }

  /** A positive factor cancels from both sides of an inequality. */
  lemma CancelLe(a: real, b: real, c: real)
    requires c > 0.0 && a * c <= b * c
    ensures a <= b
  {
  }

  /**
   * The point of x's orbit reached after whole periods n, starting from x
   * itself or from its mirror image at lo.
   */
  function OrbitPoint(x: real, lo: real, hi: real, mirrored: bool, n: int): real
  {
    Shift(if mirrored then 2.0 * lo - x else x, n, lo, hi)
  }

  /** Every named orbit point is in the orbit. */
  lemma OrbitPointInOrbit(x: real, lo: real, hi: real, mirrored: bool, n: int)
    ensures InOrbit(OrbitPoint(x, lo, hi, mirrored, n), x, lo, hi)
  {
    var a := OrbitPoint(x, lo, hi, mirrored, n);
    assert a == Shift(x, n, lo, hi) || a == Shift(2.0 * lo - x, n, lo, hi);
  }

  /** Mirroring an orbit point at lo gives the orbit point of the other class, -n periods on. */
  lemma MirrorLowPoint(x: real, lo: real, hi: real, mirrored: bool, n: int)
    ensures 2.0 * lo - OrbitPoint(x, lo, hi, mirrored, n) == OrbitPoint(x, lo, hi, !mirrored, -n)
  {
    assert ((-n) as real) * (2.0 * (hi - lo)) == -((n as real) * (2.0 * (hi - lo)));
  }

  /** Mirroring an orbit point at hi gives the orbit point of the other class, 1 - n periods on. */
  lemma MirrorHighPoint(x: real, lo: real, hi: real, mirrored: bool, n: int)
    ensures 2.0 * hi - OrbitPoint(x, lo, hi, mirrored, n) == OrbitPoint(x, lo, hi, !mirrored, 1 - n)
  {
    assert ((-n) as real) * (2.0 * (hi - lo)) == -((n as real) * (2.0 * (hi - lo)));
    assert ((1 - n) as real) * (2.0 * (hi - lo)) == 2.0 * (hi - lo) + ((-n) as real) * (2.0 * (hi - lo));
  }

  /**
   * The orbit of x meets [lo, hi] in exactly one point: whatever sequence of
   * reflections brings x into range, the value it ends at is the same.
   */
  lemma OrbitPointUnique(a1: real, a2: real, x: real, lo: real, hi: real)
    requires lo < hi
    requires lo <= a1 <= hi && lo <= a2 <= hi
    requires InOrbit(a1, x, lo, hi) && InOrbit(a2, x, lo, hi)
    ensures a1 == a2
  {
    var n1: int :| a1 == Shift(x, n1, lo, hi) || a1 == Shift(2.0 * lo - x, n1, lo, hi);
    var n2: int :| a2 == Shift(x, n2, lo, hi) || a2 == Shift(2.0 * lo - x, n2, lo, hi);
    var direct1 := a1 == Shift(x, n1, lo, hi);
    var direct2 := a2 == Shift(x, n2, lo, hi);
    if direct1 && direct2 {
      SamePeriodClass(a1, a2, x, n1, n2, lo, hi);
    } else if !direct1 && !direct2 {
      SamePeriodClass(a1, a2, 2.0 * lo - x, n1, n2, lo, hi);
    } else if direct1 {
      MirroredPeriodClass(a1, a2, x, n1, n2, lo, hi);
    } else {
      MirroredPeriodClass(a2, a1, x, n2, n1, lo, hi);
    }
  }

  /** Two in-range points a whole number of periods apart coincide. */
  lemma SamePeriodClass(a1: real, a2: real, y: real, n1: int, n2: int, lo: real, hi: real)
    requires lo < hi
    requires lo <= a1 <= hi && lo <= a2 <= hi
    requires a1 == Shift(y, n1, lo, hi) && a2 == Shift(y, n2, lo, hi)
    ensures a1 == a2
  {
    var p := 2.0 * (hi - lo);
    var kp := ((n1 - n2) as real) * p;
    assert a1 - a2 == kp;
    MultipleInsidePeriod(n1 - n2, p, kp);
  }

  /**
   * An in-range point of x's class and one of its mirror's class coincide:
   * they add up to 2*lo plus whole periods, which inside the range only
   * 2*lo (both at lo) and 2*hi (both at hi) do.
   */
  lemma MirroredPeriodClass(a1: real, a2: real, x: real, n1: int, n2: int, lo: real, hi: real)
    requires lo < hi
    requires lo <= a1 <= hi && lo <= a2 <= hi
    requires a1 == Shift(x, n1, lo, hi) && a2 == Shift(2.0 * lo - x, n2, lo, hi)
    ensures a1 == a2
  {
    var p := 2.0 * (hi - lo);
    var k := n1 + n2;
    var kp := (k as real) * p;
    assert a1 + a2 == 2.0 * lo + kp;
    assert 0.0 <= kp <= p;
    MultipleInUnitPeriod(k, p, kp);
    if k == 1 {
      assert kp == p;
    }
  }

  /** A whole multiple of p > 0 that lies in [0, p] is 0 or p itself. */
  lemma MultipleInUnitPeriod(k: int, p: real, kp: real)
    requires p > 0.0 && kp == (k as real) * p
    requires 0.0 <= kp <= p
    ensures k == 0 || k == 1
  {
    if k >= 2 {
      MulMonotone(2.0, k as real, p);
    } else if k < 0 {
      MulMonotone(k as real, -1.0, p);
    }
  }

  /** x lies where one multiplicative reflection at lo or hi brings it into [lo, hi]. */
  predicate WithinOneReflection(x: real, lo: real, hi: real)
    requires 0.0 < lo < hi
  {
    lo * lo / hi <= x <= hi * hi / lo
  }

  /**
   * nv is what a scale move from ov with multiplier m must produce wherever a
   * single reflection brings ov * m into [lo, hi]: that reflection.
   */
  predicate ScaleExact(ov: real, m: real, nv: real, lo: real, hi: real)
    requires 0.0 < lo < hi && ov > 0.0 && m > 0.0
  {
    MulPositive(ov, m);
    WithinOneReflection(ov * m, lo, hi) ==> nv == ScaleReflectOnce(ov * m, lo, hi)
  }

  /** One multiplicative reflection of x at the bound it violates. */
  function ScaleReflectOnce(x: real, lo: real, hi: real): (r: real)
    requires 0.0 < lo < hi && x > 0.0
    ensures lo <= x <= hi ==> r == x
    ensures WithinOneReflection(x, lo, hi) ==> lo <= r <= hi
  {
    if x < lo then
      ReflectBelowInRange(x, lo, hi);
      lo * lo / x
    else if x > hi then
      ReflectAboveInRange(x, lo, hi);
      hi * hi / x
    else
      x
  }

  lemma ReflectBelowInRange(x: real, lo: real, hi: real)
    requires 0.0 < lo < hi && 0.0 < x < lo
    ensures lo * lo / x > lo
    ensures lo * lo / hi <= x ==> lo * lo / x <= hi
  {
    assert lo * lo / x - lo == lo * (lo - x) / x;
    if lo * lo / hi <= x {
      assert lo * lo <= x * hi by {
        assert lo * lo == (lo * lo / hi) * hi;
      }
      assert lo * lo / x <= x * hi / x;
    }
  }

  lemma ReflectAboveInRange(x: real, lo: real, hi: real)
    requires 0.0 < lo < hi < x
    ensures hi * hi / x < hi
    ensures x <= hi * hi / lo ==> lo <= hi * hi / x
  {
    assert hi - hi * hi / x == hi * (x - hi) / x;
    if x <= hi * hi / lo {
      assert x * lo <= hi * hi by {
        assert hi * hi == (hi * hi / lo) * lo;
      }
      assert x * lo / x <= hi * hi / x;
    }
  }

  /**
   * A value inside [lo, hi] scaled by a multiplier no further from 1 than
   * hi/lo lands where a single reflection brings it back into range.
   */
  lemma OneReflectionSuffices(ov: real, m: real, lo: real, hi: real)
    requires 0.0 < lo < hi
    requires lo <= ov <= hi
    requires lo / hi <= m <= hi / lo
    ensures WithinOneReflection(ov * m, lo, hi)
  {
    MulMonotone(lo, ov, lo / hi);
    MulMonotone(lo / hi, m, ov);
    MulMonotone(m, hi / lo, ov);
    MulMonotone(ov, hi, hi / lo);
    assert lo * (lo / hi) == lo * lo / hi;
    assert hi * (hi / lo) == hi * hi / lo;
  }
}
