/** Arithmetic of the progress percentages the pipeline reports: a fraction
    `a / n` of the work done, scaled into a band `[lo, hi]`. */
module Progress {

  /** `lo + (hi - lo) * f`: the point a fraction `f` of the way through `[lo, hi]`. */
  function InBand(lo: real, hi: real, f: real): real
  {
    lo + (hi - lo) * f
  }

  lemma FractionBounds(a: nat, n: nat)
    requires a <= n && 0 < n
    ensures 0.0 <= a as real / n as real <= 1.0
    ensures a == n ==> a as real / n as real == 1.0
    ensures 0 < a ==> 0.0 < a as real / n as real
  {
  }

  lemma FractionMonotone(a: nat, b: nat, n: nat)
    requires a < b && 0 < n
    ensures a as real / n as real < b as real / n as real
  {
    assert b as real / n as real - a as real / n as real == (b - a) as real / n as real;
  }

  /** Moving further through a band never goes down, and goes up when the
      band is not a single point. */
  lemma InBandMonotone(lo: real, hi: real, f: real, g: real)
    requires lo <= hi && 0.0 <= f <= g <= 1.0
    ensures lo <= InBand(lo, hi, f) <= InBand(lo, hi, g) <= hi
    ensures lo < hi && f < g ==> InBand(lo, hi, f) < InBand(lo, hi, g)
  {
    var d := hi - lo;
    MulNonNegative(d, g - f);
    assert d * g - d * f == d * (g - f);
    MulNonNegative(d, 1.0 - g);
    assert d - d * g == d * (1.0 - g);
    MulNonNegative(d, f);
    if lo < hi && f < g {
      var e := g - f;
      MulPositive(d, e);
      var p := d * e;
      assert InBand(lo, hi, g) == InBand(lo, hi, f) + p;
    }
  }

  lemma MulNonNegative(x: real, y: real)
    requires 0.0 <= x && 0.0 <= y
    ensures 0.0 <= x * y
  {
  }

  lemma MulPositive(x: real, y: real)
    requires 0.0 < x && 0.0 < y
    ensures 0.0 < x * y
  {
  }

  /** The whole band is reached at fraction 1. */
  lemma InBandEnd(lo: real, hi: real)
    ensures InBand(lo, hi, 1.0) == hi
  {
  }
}
