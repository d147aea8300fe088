/** `Number.prototype.toFixed(2)` over exact reals, and two facts about
    weighted means used by both GPA calculations.  For a non-negative value,
    toFixed(2) picks the multiple of 0.01 nearest to it, and the larger one
    when two are equally near; every value the calculator rounds is >= 0. */
module Rounding {

  /** x is a whole number of hundredths */
  predicate IsCents(x: real) {
    (x * 100.0).Floor as real == x * 100.0
  }

  /** Rounds to two decimals, halves upward. */
  function Round2(x: real): (r: real)
    ensures IsCents(r)
    ensures r - 0.005 <= x < r + 0.005
  {
    ((x * 100.0 + 0.5).Floor as real) / 100.0
  }

  /** The two properties of Round2 determine it: it is the only whole number
      of hundredths within half a hundredth below x and strictly less than
      half a hundredth above it. */
  lemma Round2Unique(x: real, r: real)
    requires IsCents(r)
    requires r - 0.005 <= x < r + 0.005
    ensures Round2(x) == r
  {
    var k := (r * 100.0).Floor;
    assert k as real - 0.5 <= x * 100.0 < k as real + 0.5;
    assert (x * 100.0 + 0.5).Floor == k;
  }

  /** A value that is already two-decimal is left alone (re-parsing the
      text toFixed produced gives back the same number). */
  lemma Round2OfCents(x: real)
    requires IsCents(x)
    ensures Round2(x) == x
  {
    Round2Unique(x, x);
  }

  lemma Round2Monotone(x: real, y: real)
    requires x <= y
    ensures Round2(x) <= Round2(y)
  {
    var a, b := (x * 100.0 + 0.5).Floor, (y * 100.0 + 0.5).Floor;
    assert a as real < b as real + 1.0;
    assert a <= b;
    assert Round2(x) == a as real / 100.0 && Round2(y) == b as real / 100.0;
  }

  /** Rounding keeps a value inside any interval whose ends are two-decimal. */
  lemma Round2Between(x: real, lo: real, hi: real)
    requires IsCents(lo) && IsCents(hi)
    requires lo <= x <= hi
    ensures lo <= Round2(x) <= hi
  {
    Round2Monotone(lo, x);
    Round2Monotone(x, hi);
    Round2OfCents(lo);
    Round2OfCents(hi);
  }

  /** A mean w / c with c > 0 lies in [lo, hi] when w lies between lo and
      hi times c. */
  lemma MeanBetween(w: real, c: real, lo: real, hi: real)
    requires c > 0.0 && lo * c <= w <= hi * c
    ensures lo <= w / c <= hi
  {
    assert (w / c) * c == w;
  }

  /** Adding g times c to a value between lo and hi times k keeps it between
      lo and hi times k + c. */
  lemma ScaledStep(lo: real, hi: real, k: real, w: real, g: real, c: real)
    requires lo * k <= w <= hi * k
    requires lo <= g <= hi && c > 0.0
    ensures lo * (k + c) <= w + g * c <= hi * (k + c)
  {
    assert lo * c <= g * c <= hi * c;
    assert lo * (k + c) == lo * k + lo * c;
    assert hi * (k + c) == hi * k + hi * c;
  }
}
