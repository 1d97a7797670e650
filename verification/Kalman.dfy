/** The one-dimensional Kalman filter over exact numbers. */
module Kalman {

  // ----- products, as an uninterpreted function with the laws of a field -----

  function Times(a: real, b: real): real { a * b }

  lemma Commutes(a: real, b: real)
    ensures Times(a, b) == Times(b, a)
  {
  }

  lemma Associates(a: real, b: real, c: real)
    ensures Times(Times(a, b), c) == Times(a, Times(b, c))
  {
  }

  lemma Distributes(a: real, b: real, c: real)
    ensures Times(a, b + c) == Times(a, b) + Times(a, c)
    ensures Times(b + c, a) == Times(b, a) + Times(c, a)
    ensures Times(b - c, a) == Times(b, a) - Times(c, a)
  {
  }

  lemma Unit(a: real)
    ensures Times(1.0, a) == a && Times(0.0, a) == 0.0
  {
  }

  lemma Grows(a: real, b: real, c: real)
    requires a <= b && c >= 0.0
    ensures Times(a, c) <= Times(b, c)
  {
    assert (b - a) * c >= 0.0;
  }

  lemma GrowsStrictly(a: real, b: real, c: real)
    requires a < b && c > 0.0
    ensures Times(a, c) < Times(b, c)
  {
    assert (b - a) * c > 0.0;
  }

  /** A comparison of products is one of the factors. */
  lemma Cancels(a: real, b: real, c: real)
    requires c > 0.0
    ensures Times(a, c) <= Times(b, c) <==> a <= b
    ensures Times(a, c) < Times(b, c) <==> a < b
  {
    if a <= b {
      Grows(a, b, c);
    } else {
      GrowsStrictly(b, a, c);
    }
    if a < b {
      GrowsStrictly(a, b, c);
    } else {
      Grows(b, a, c);
    }
  }

  lemma Positive(a: real, b: real)
    requires a > 0.0 && b > 0.0
    ensures Times(a, b) > 0.0
  {
  }

  lemma DivTimes(a: real, b: real)
    requires b > 0.0
    ensures Times(a / b, b) == a
  {
  }

  // ----- one update -----

  /** The gain of an update from a predicted variance. */
  function Gain(predicted: real, r: real): real
    requires predicted + r > 0.0
  {
    predicted / (predicted + r)
  }

  /** The variance after an update. */
  function Variance(p: real, q: real, r: real): real
    requires p + q + r > 0.0
  {
    (1.0 - Gain(p + q, r)) * (p + q)
  }

  /** The estimate after an update. */
  function Estimate(x: real, p: real, q: real, r: real, z: real): real
    requires p + q + r > 0.0
  {
    x + Gain(p + q, r) * (z - x)
  }

  /** The gain lies strictly between 0 and 1. */
  lemma GainBounds(predicted: real, r: real)
    requires predicted > 0.0 && r > 0.0
    ensures 0.0 < Gain(predicted, r) < 1.0
    ensures Times(Gain(predicted, r), predicted + r) == predicted
  {
    var (k, s) := (Gain(predicted, r), predicted + r);
    DivTimes(predicted, s);
    hide Gain, Times;
    Unit(s);
    Cancels(0.0, k, s);
    Cancels(k, 1.0, s);
  }

  /** The variance as a fraction: r * m over m + r, for the predicted variance m. */
  lemma VarianceFraction(p: real, q: real, r: real)
    requires p >= 0.0 && q > 0.0 && r > 0.0
    ensures Times(Variance(p, q, r), p + q + r) == Times(p + q, r)
  {
    var (m, s) := (p + q, p + q + r);
    GainBounds(m, r);
    var k := Gain(m, r);
    assert Variance(p, q, r) == Times(1.0 - k, m);
    hide Gain, Variance, Times;
    Commutes(1.0 - k, m);
    Associates(m, 1.0 - k, s);
    Distributes(s, 1.0, k);
    Unit(s);
  }

  /** The variance stays strictly between 0 and that of a measurement. */
  lemma VarianceBounds(p: real, q: real, r: real)
    requires p >= 0.0 && q > 0.0 && r > 0.0
    ensures 0.0 < Variance(p, q, r) < r
  {
    VarianceFraction(p, q, r);
    var (m, s, v) := (p + q, p + q + r, Variance(p, q, r));
    hide Variance, Times;
    Positive(m, r);
    Positive(r, r);
    Unit(s);
    Cancels(0.0, v, s);
    Distributes(r, m, r);
    Commutes(m, r);
    Commutes(r, s);
    Cancels(v, r, s);
  }

  /** The estimate stays between the old one and the measurement. */
  lemma EstimateInHull(x: real, p: real, q: real, r: real, z: real, lo: real, hi: real)
    requires p >= 0.0 && q > 0.0 && r > 0.0 && lo <= x <= hi && lo <= z <= hi
    ensures lo <= Estimate(x, p, q, r, z) <= hi
  {
    GainBounds(p + q, r);
    var (k, d) := (Gain(p + q, r), z - x);
    assert Estimate(x, p, q, r, z) == x + Times(k, d);
    hide Gain, Estimate, Times;
    Commutes(k, d);
    Unit(d);
    Unit(k);
    Commutes(1.0, d);
    Commutes(0.0, d);
    if d >= 0.0 {
      Grows(k, 1.0, d);
      Grows(0.0, d, k);
    } else {
      Grows(d, 0.0, k);
      Distributes(d, 1.0, k);
      Grows(d, 0.0, 1.0 - k);
      Unit(1.0 - k);
      Commutes(d, 1.0 - k);
    }
  }

  class Kalman1D {
    var x: real
    var p: real
    var q: real
    var r: real

    /** kalman1d_init. */
    constructor (x0: real, p0: real, q: real, r: real)
      ensures x == x0 && p == p0 && this.q == q && this.r == r
    {
      x, p, this.q, this.r := x0, p0, q, r;
    }

    ghost predicate Valid()
      reads this
    {
      p >= 0.0 && q > 0.0 && r > 0.0
    }

    /** kalman1d_update: the estimate moves towards the measurement and never past it. */
    method Update(z: real) returns (estimate: real)
      requires Valid()
      modifies this`x, this`p
      ensures Valid() && estimate == x == Estimate(old(x), old(p), q, r, z) && p == Variance(old(p), q, r) && 0.0 < p < r
      ensures if old(x) <= z then old(x) <= x <= z else z <= x <= old(x)
    {
      EstimateInHull(x, p, q, r, z, if x <= z then x else z, if x <= z then z else x);
      VarianceBounds(p, q, r);
      var predicted := p + q;
      var gain := predicted / (predicted + r);
      UpdateIs(x, p, q, r, z, gain);
      hide Variance, Estimate;
      x := x + gain * (z - x);
      p := (1.0 - gain) * predicted;
      return x;
    }
  }

  lemma UpdateIs(x: real, p: real, q: real, r: real, z: real, gain: real)
    requires p >= 0.0 && q > 0.0 && r > 0.0 && gain == (p + q) / (p + q + r)
    ensures Estimate(x, p, q, r, z) == x + gain * (z - x) && Variance(p, q, r) == (1.0 - gain) * (p + q)
  {
    assert gain == Gain(p + q, r);
    hide Gain;
  }

  // ----- runs -----

  /** The variance after n updates. */
  function VarianceAfter(p: real, q: real, r: real, n: nat): real
    requires p >= 0.0 && q > 0.0 && r > 0.0
    decreases n
  {
    if n == 0 then p
    else
      VarianceBounds(p, q, r);
      VarianceAfter(Variance(p, q, r), q, r, n - 1)
  }

  function EstimateAfter(x: real, p: real, q: real, r: real, zs: seq<real>): real
    requires p >= 0.0 && q > 0.0 && r > 0.0
    decreases |zs|
  {
    if zs == [] then x
    else
      VarianceBounds(p, q, r);
      EstimateAfter(Estimate(x, p, q, r, zs[0]), Variance(p, q, r), q, r, zs[1..])
  }

  /** Over any run the estimate stays between the smallest and the largest of the start and the measurements. */
  lemma {:induction false} RunInHull(x: real, p: real, q: real, r: real, zs: seq<real>, lo: real, hi: real)
    requires p >= 0.0 && q > 0.0 && r > 0.0 && lo <= x <= hi && forall i :: 0 <= i < |zs| ==> lo <= zs[i] <= hi
    ensures lo <= EstimateAfter(x, p, q, r, zs) <= hi
    decreases |zs|
  {
    if zs != [] {
      VarianceBounds(p, q, r);
      EstimateInHull(x, p, q, r, zs[0], lo, hi);
      RunInHull(Estimate(x, p, q, r, zs[0]), Variance(p, q, r), q, r, zs[1..], lo, hi);
    }
  }

  function Abs(a: real): real { if a < 0.0 then -a else a }

  function Power(a: real, n: nat): real { if n == 0 then 1.0 else Times(a, Power(a, n - 1)) }

  /** The factor by which two variances approach each other in an update, at least. */
  function Contraction(q: real, r: real): real
    requires q > 0.0 && r > 0.0
  {
    (r / (q + r)) * (r / (q + r))
  }

  lemma ContractionBounds(q: real, r: real)
    requires q > 0.0 && r > 0.0
    ensures 0.0 < Contraction(q, r) < 1.0
    ensures Times(Contraction(q, r), Times(q + r, q + r)) == Times(r, r)
  {
    var (k, g) := (r / (q + r), q + r);
    assert Contraction(q, r) == Times(k, k);
    DivTimes(r, g);
    hide Times, Contraction;
    Unit(g);
    Cancels(0.0, k, g);
    Cancels(k, 1.0, g);
    Positive(k, k);
    Unit(k);
    GrowsStrictly(k, 1.0, k);
    Associates(k, k, Times(g, g));
    Associates(k, g, g);
    Commutes(k, Times(r, g));
    Associates(r, g, k);
    Commutes(g, k);
  }

  /** The difference of r * a over a + r and r * b over b + r. */
  lemma FractionsDiffer(u: real, v: real, a: real, b: real, r: real)
    requires Times(u, a + r) == Times(a, r) && Times(v, b + r) == Times(b, r)
    ensures Times(u - v, Times(a + r, b + r)) == Times(a - b, Times(r, r))
  {
    hide Times;
    var (s, t) := (a + r, b + r);
    Distributes(Times(s, t), u, v);
    Associates(u, s, t);
    Commutes(s, t);
    Associates(v, t, s);
    Distributes(Times(a, r), b, r);
    Distributes(Times(b, r), a, r);
    Associates(a, r, b);
    Associates(b, r, a);
    Commutes(Times(a, r), b);
    Associates(b, a, r);
    Commutes(b, a);
    Commutes(Times(b, r), a);
    Associates(a, b, r);
    Associates(a, r, r);
    Associates(b, r, r);
    Distributes(Times(r, r), a, b);
  }

  lemma AbsTimes(a: real, b: real)
    requires b > 0.0
    ensures Abs(Times(a, b)) == Times(Abs(a), b)
  {
    hide Times;
    Unit(b);
    Distributes(b, 0.0, a);
    Cancels(a, 0.0, b);
  }

  /** Larger denominators make the difference smaller. */
  lemma Shrinks(d: real, e: real, s: real, t: real, g: real, c: real, k: real)
    requires d >= 0.0 && e >= 0.0 && s >= g > 0.0 && t >= g
    requires Times(d, Times(s, t)) == Times(e, c) && Times(k, Times(g, g)) == c
    ensures d <= Times(k, e)
  {
    hide Times;
    var (h, p) := (Times(g, g), Times(s, t));
    Grows(g, s, t);
    Grows(g, t, g);
    Commutes(g, t);
    Positive(g, g);
    Grows(h, p, d);
    Commutes(h, d);
    Commutes(p, d);
    Associates(e, k, h);
    Commutes(e, k);
    Cancels(d, Times(k, e), h);
  }

  /** Two filters with the same settings agree more after every update. */
  lemma VariancesApproach(a: real, b: real, q: real, r: real)
    requires a >= 0.0 && b >= 0.0 && q > 0.0 && r > 0.0
    ensures Abs(Variance(a, q, r) - Variance(b, q, r)) <= Times(Contraction(q, r), Abs(a - b))
  {
    VarianceFraction(a, q, r);
    VarianceFraction(b, q, r);
    ContractionBounds(q, r);
    var (u, v, c) := (Variance(a, q, r), Variance(b, q, r), Contraction(q, r));
    var (m, n) := (a + q, b + q);
    assert m + r == a + q + r && n + r == b + q + r && m - n == a - b;
    hide Variance, Contraction, Times;
    FractionsDiffer(u, v, m, n, r);
    var (s, t) := (m + r, n + r);
    Positive(s, t);
    Positive(r, r);
    AbsTimes(u - v, Times(s, t));
    AbsTimes(a - b, Times(r, r));
    Shrinks(Abs(u - v), Abs(a - b), s, t, q + r, Times(r, r), c);
  }

  lemma AfterOne(p: real, q: real, r: real, n: nat)
    requires p >= 0.0 && q > 0.0 && r > 0.0 && n > 0 && Variance(p, q, r) >= 0.0
    ensures VarianceAfter(p, q, r, n) == VarianceAfter(Variance(p, q, r), q, r, n - 1)
  {
    hide Variance;
  }

  /** Main result: two covariance runs approach each other geometrically, whatever variances they start from. */
  lemma {:induction false} VariancesConverge(a: real, b: real, q: real, r: real, n: nat)
    requires a >= 0.0 && b >= 0.0 && q > 0.0 && r > 0.0
    ensures Abs(VarianceAfter(a, q, r, n) - VarianceAfter(b, q, r, n)) <= Times(Power(Contraction(q, r), n), Abs(a - b))
    decreases n
  {
    if n == 0 {
      Unit(Abs(a - b));
    } else {
      VarianceBounds(a, q, r);
      VarianceBounds(b, q, r);
      var (u, v, c) := (Variance(a, q, r), Variance(b, q, r), Contraction(q, r));
      AfterOne(a, q, r, n);
      AfterOne(b, q, r, n);
      assert Power(c, n) == Times(c, Power(c, n - 1));
      hide *;
      ContractionBounds(q, r);
      VariancesApproach(a, b, q, r);
      VariancesConverge(u, v, q, r, n - 1);
      PowerPositive(c, n - 1);
      var (m, d, e) := (Power(c, n - 1), Abs(u - v), Abs(a - b));
      Grows(d, Times(c, e), m);
      Commutes(d, m);
      Commutes(c, m);
      Commutes(Times(c, e), m);
      Associates(m, c, e);
    }
  }

  lemma {:induction false} PowerPositive(c: real, n: nat)
    requires c > 0.0
    ensures Power(c, n) > 0.0
  {
    if n > 0 {
      PowerPositive(c, n - 1);
      Positive(c, Power(c, n - 1));
    }
  }
}
