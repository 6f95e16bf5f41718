/** Sums and means of real sequences, as used by the diffusion step (`sum(temps)/len(temps)`). */
module Stats {

  function Sum(s: seq<real>): real {
    if |s| == 0 then 0.0 else s[0] + Sum(s[1..])
  }

  function Mean(s: seq<real>): real
    requires |s| > 0
  {
    Sum(s) / (|s| as real)
  }

  /** Every element lies in `[lo, hi]`. */
  predicate AllWithin(s: seq<real>, lo: real, hi: real) {
    forall i :: 0 <= i < |s| ==> lo <= s[i] <= hi
  }

  lemma {:induction false} SumWithin(s: seq<real>, lo: real, hi: real)
    requires AllWithin(s, lo, hi)
    ensures (|s| as real) * lo <= Sum(s) <= (|s| as real) * hi
  {
    if |s| > 0 {
      SumWithin(s[1..], lo, hi);
      var n := |s[1..]| as real;
      assert (|s| as real) * lo == n * lo + lo;
      assert (|s| as real) * hi == n * hi + hi;
    }
  }

  /** The mean of values in `[lo, hi]` lies in `[lo, hi]`. */
  lemma MeanWithin(s: seq<real>, lo: real, hi: real)
    requires |s| > 0 && AllWithin(s, lo, hi)
    ensures lo <= Mean(s) <= hi
  {
    SumWithin(s, lo, hi);
    var n := |s| as real;
    assert Mean(s) * n == Sum(s);
  }

  /** The weighted average keeping weight `a` on `x` and `1 - a` on `y`. */
  function Weighted(a: real, x: real, y: real): real {
    a * x + (1.0 - a) * y
  }

  /** A weighted average with weight in `[0, 1]` of two values in `[lo, hi]` lies in `[lo, hi]`. */
  lemma ConvexWithin(a: real, x: real, y: real, lo: real, hi: real)
    requires 0.0 <= a <= 1.0 && lo <= x <= hi && lo <= y <= hi
    ensures lo <= Weighted(a, x, y) <= hi
  {
    var b := 1.0 - a;
    ProductNonNegative(a, x - lo);
    ProductNonNegative(a, hi - x);
    ProductNonNegative(b, y - lo);
    ProductNonNegative(b, hi - y);
    assert a * x + b * y - lo == a * (x - lo) + b * (y - lo);
    assert hi - (a * x + b * y) == a * (hi - x) + b * (hi - y);
  }

  lemma ProductNonNegative(u: real, v: real)
    requires u >= 0.0 && v >= 0.0
    ensures u * v >= 0.0
  {
  }



}
