/** Two-decimal arithmetic: `parseFloat(x.toFixed(2))` on exact reals, and
    the values a DECIMAL(p,2) column can hold. */
module Decimal {

  /** x is a whole number of hundredths. */
  predicate IsCents(x: real) {
    (x * 100.0).Floor as real == x * 100.0
  }

  /** The number of hundredths nearest to a non-negative y, a tie going up. */
  function NearestHundredths(y: real): (h: int)
    requires y >= 0.0
    ensures h >= 0
    ensures y * 100.0 - 0.5 < h as real <= y * 100.0 + 0.5
  {
    (y * 100.0 + 0.5).Floor
  }

  /** `x.toFixed(2)`: the nearest multiple of 0.01, a tie going to the
      larger magnitude (the sign is split off first). */
  function Round2(x: real): (r: real)
    ensures IsCents(r)
    ensures x >= 0.0 ==> 0.0 <= r && -0.005 < r - x <= 0.005
    ensures x < 0.0 ==> r <= 0.0 && -0.005 <= r - x < 0.005
  {
    if x >= 0.0 then
      var h := NearestHundredths(x);
      CentsFromInt(h);
      h as real / 100.0
    else
      var h := NearestHundredths(-x);
      CentsFromInt(-h);
      (-h) as real / 100.0
  }

  lemma CentsFromInt(k: int)
    ensures IsCents(k as real / 100.0)
  {
    assert (k as real / 100.0) * 100.0 == k as real;
  }

  /** A value that already has two decimals is left as it is. */
  lemma Round2OfCents(x: real)
    requires IsCents(x)
    ensures Round2(x) == x
  {
    var k := (x * 100.0).Floor;
    if x >= 0.0 {
      assert NearestHundredths(x) == k;
    } else {
      assert NearestHundredths(-x) == -k;
    }
  }

  /** Rounding non-negative values never reverses their order. */
  lemma Round2Monotone(x: real, y: real)
    requires 0.0 <= x <= y
    ensures Round2(x) <= Round2(y)
  {
    assert NearestHundredths(x) <= NearestHundredths(y);
  }

  /** Rounding a value that lies between two two-decimal bounds stays
      between them. */
  lemma Round2Between(lo: real, x: real, hi: real)
    requires IsCents(lo) && IsCents(hi)
    requires 0.0 <= lo <= x <= hi
    ensures lo <= Round2(x) <= hi
  {
    Round2Monotone(lo, x);
    Round2Monotone(x, hi);
    Round2OfCents(lo);
    Round2OfCents(hi);
  }

  lemma CentsAdd(a: real, b: real)
    requires IsCents(a) && IsCents(b)
    ensures IsCents(a + b) && IsCents(a - b)
  {
    var m, n := (a * 100.0).Floor, (b * 100.0).Floor;
    assert a + b == (m + n) as real / 100.0;
    assert a - b == (m - n) as real / 100.0;
    CentsFromInt(m + n);
    CentsFromInt(m - n);
  }
}
