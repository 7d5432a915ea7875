/** The self-guided filter's per-window arithmetic fits in 32 bits, if only just. */
module LrfArith {
  import opened Bits

  /** Strengths of the radius-2 and radius-1 passes of each parameter set; 0 turns a pass off. */
  const SGRPROJ_PARAMS_S: seq<(nat, nat)> := [
    (140, 3236), (112, 2158), (93, 1618), (80, 1438), (70, 1295), (58, 1177), (47, 1079), (37, 996),
    (30, 925), (25, 863), (0, 2589), (0, 1618), (0, 1177), (0, 925), (56, 0), (22, 0)]

  // Sums over a window of pixels -----------------------------------------------------

  function Sum(xs: seq<nat>): nat {
    if xs == [] then 0 else Sum(xs[..|xs| - 1]) + xs[|xs| - 1]
  }

  function SumSq(xs: seq<nat>): nat {
    if xs == [] then 0 else SumSq(xs[..|xs| - 1]) + Mul(xs[|xs| - 1], xs[|xs| - 1])
  }

  function Mul(a: int, b: int): int {
    a * b
  }

  ghost predicate Within(xs: seq<nat>, max: nat) {
    forall i :: 0 <= i < |xs| ==> xs[i] <= max
  }

  /** The spread of n values, plus a linear term. */
  function Spread(n: int, ssq: int, sum: int, c: int): int {
    Mul(n, ssq) - Mul(sum, sum) + Mul(c, sum)
  }

  /** In each value the spread is convex, so one of the two extremes is at least as large. */
  lemma Extreme(n: int, c: int, sum: int, ssq: int, x: int, max: int)
    requires n >= 1 && 0 <= x <= max
    ensures Spread(n, ssq + Mul(x, x), sum + x, c) <= Spread(n, ssq, sum, c)
         || Spread(n, ssq + Mul(x, x), sum + x, c) <= Spread(n, ssq + Mul(max, max), sum + max, c)
  {
    SpreadGain(n, c, sum, ssq, x);
    SpreadGain(n, c, sum, ssq, max);
    var slope, top := Mul(n - 1, x) + c - 2 * sum, Mul(n - 1, max) + c - 2 * sum;
    MulMono(n - 1, x, max);
    if slope <= 0 {
      MulSign(x, slope);
    } else {
      MulMono2(x, max, slope, top);
    }
  }

  lemma SpreadGain(n: int, c: int, sum: int, ssq: int, x: int)
    ensures Spread(n, ssq + Mul(x, x), sum + x, c) == Spread(n, ssq, sum, c) + Mul(x, Mul(n - 1, x) + c - 2 * sum)
  {
    var q := Mul(x, x);
    Distribute(n, ssq, q);
    Distribute(c, sum, x);
    SquareOfSum(sum, x);
    Distribute(x, Mul(n - 1, x) + c, -2 * sum);
    Distribute(x, Mul(n - 1, x), c);
    OneLess(n, x);
    Twice(x, sum);
    Swap(x, c);
    hide Mul;
  }

  lemma Distribute(a: int, b: int, c: int)
    ensures Mul(a, b + c) == Mul(a, b) + Mul(a, c)
  {
  }

  lemma SquareOfSum(a: int, b: int)
    ensures Mul(a + b, a + b) == Mul(a, a) + 2 * Mul(b, a) + Mul(b, b)
  {
  }

  lemma OneLess(n: int, x: int)
    ensures Mul(x, Mul(n - 1, x)) == Mul(n, Mul(x, x)) - Mul(x, x)
  {
    assert x * ((n - 1) * x) == n * (x * x) - x * x;
  }

  lemma Swap(a: int, b: int)
    ensures Mul(a, b) == Mul(b, a)
  {
  }

  lemma Twice(x: int, sum: int)
    ensures Mul(x, -2 * sum) == -2 * Mul(x, sum)
  {
  }

  lemma MulMono(a: int, x: int, y: int)
    requires a >= 0 && x <= y
    ensures Mul(a, x) <= Mul(a, y)
  {
  }

  lemma MulSign(x: int, y: int)
    requires x >= 0 && y <= 0
    ensures Mul(x, y) <= 0
  {
  }

  lemma MulMono2(a: int, b: int, x: int, y: int)
    requires 0 <= a <= b && 0 <= x <= y
    ensures Mul(a, x) <= Mul(b, y)
  {
    MulMono(a, x, y);
    assert a * y <= b * y;
  }

  /** Pushing every value to an extreme, one at a time: the spread of any window is at most
      that of one whose values are all 0 or max. */
  lemma {:induction false} SpreadOfExtremes(n: nat, c: int, xs: seq<nat>, sum: int, ssq: int, max: nat) returns (k: nat)
    requires n >= 1 && Within(xs, max)
    ensures k <= |xs|
    ensures Spread(n, ssq + SumSq(xs), sum + Sum(xs), c) <= Spread(n, ssq + Mul(k, Mul(max, max)), sum + Mul(k, max), c)
    decreases |xs|
  {
    hide Mul, Spread;
    if xs == [] {
      k := 0;
      MulZero(max);
      MulZero(Mul(max, max));
    } else {
      var rest, x := xs[..|xs| - 1], xs[|xs| - 1];
      Extreme(n, c, sum + Sum(rest), ssq + SumSq(rest), x, max);
      var without := Spread(n, ssq + SumSq(rest), sum + Sum(rest), c);
      if Spread(n, ssq + SumSq(rest) + Mul(x, x), sum + Sum(rest) + x, c) <= without {
        k := SpreadOfExtremes(n, c, rest, sum, ssq, max);
      } else {
        var k' := SpreadOfExtremes(n, c, rest, sum + max, ssq + Mul(max, max), max);
        k := k' + 1;
        MulNext(k', max);
        MulNext(k', Mul(max, max));
        assert ssq + Mul(max, max) + SumSq(rest) == ssq + SumSq(rest) + Mul(max, max);
        assert sum + max + Sum(rest) == sum + Sum(rest) + max;
        assert ssq + SumSq(xs) == ssq + SumSq(rest) + Mul(x, x);
        assert sum + Sum(xs) == sum + Sum(rest) + x;
        assert ssq + Mul(max, max) + Mul(k', Mul(max, max)) == ssq + Mul(k, Mul(max, max));
        assert sum + max + Mul(k', max) == sum + Mul(k, max);
      }
    }
  }

  lemma MulZero(x: int)
    ensures Mul(0, x) == 0
  {
  }

  lemma MulNext(k: int, x: int)
    ensures Mul(k + 1, x) == Mul(k, x) + x
  {
  }

  /** The integral bound: with n values the best split is as even as n allows. */
  lemma SpreadBound(xs: seq<nat>, c: nat, max: nat)
    requires (|xs| == 9 || |xs| == 25) && Within(xs, max)
    ensures |xs| == 9 ==> Spread(9, SumSq(xs), Sum(xs), c) <= 20 * Mul(max, max) + 9 * Mul(c, max)
    ensures |xs| == 25 ==> Spread(25, SumSq(xs), Sum(xs), c) <= 156 * Mul(max, max) + 25 * Mul(c, max)
  {
    var n := |xs|;
    var k := SpreadOfExtremes(n, c, xs, 0, 0, max);
    ExtremesSpread(n, k, c, max);
    SplitBound(k);
    hide Sum, SumSq, Spread;
    MulMono2(0, c, 0, max);
    MulMono2(0, max, 0, max);
    MulZero(0);
    hide Mul;
    WeightedBelow(k * (n - k), if n == 9 then 20 else 156, Mul(max, max));
    WeightedBelow(k, n, Mul(c, max));
  }

  lemma WeightedBelow(w: nat, most: nat, x: nat)
    requires w <= most
    ensures Mul(w, x) <= most * x
  {
    MulMono2(w, most, x, x);
  }

  lemma SplitBound(k: nat)
    ensures k <= 9 ==> 0 <= k * (9 - k) <= 20
    ensures k <= 25 ==> 0 <= k * (25 - k) <= 156
  {
    assert k <= 4 ==> k * (9 - k) <= 4 * 5 by { if k <= 4 { SplitStep(k, 9); } }
    if 5 <= k <= 9 {
      SplitStep(9 - k, 9);
    }
    if k <= 12 {
      SplitStep(k, 25);
    } else if k <= 25 {
      SplitStep(25 - k, 25);
    }
  }

  /** Below half, k * (n - k) grows with k. */
  lemma {:induction false} SplitStep(k: nat, n: nat)
    requires n % 2 == 1 && 2 * k < n
    ensures 0 <= k * (n - k) <= (n / 2) * (n - n / 2)
    decreases n - k
  {
    if k < n / 2 {
      SplitStep(k + 1, n);
      assert (k + 1) * (n - (k + 1)) == k * (n - k) + n - 2 * k - 1;
    }
  }

  lemma ExtremesSpread(n: int, k: int, c: int, max: int)
    ensures Spread(n, Mul(k, Mul(max, max)), Mul(k, max), c) == Mul(k * (n - k), Mul(max, max)) + Mul(k, Mul(c, max))
  {
    var q := max * max;
    assert (k * max) * (k * max) == k * k * q;
    assert n * (k * q) - k * k * q == (k * (n - k)) * q;
    assert c * (k * max) == k * (c * max);
  }

  // The computation ----------------------------------------------------------------------

  predicate BitDepth(bd: nat) {
    bd == 8 || bd == 10 || bd == 12
  }

  function MaxPixel(bd: nat): nat
    requires BitDepth(bd)
  {
    if bd == 8 then 255 else if bd == 10 then 1023 else 4095
  }

  /** `1 << (bd - 8)`. */
  function Scale(bd: nat): nat
    requires BitDepth(bd)
  {
    if bd == 8 then 1 else if bd == 10 then 4 else 16
  }

  predicate Pass(n: nat, oneOverN: nat, s: nat) {
    (n == 9 && oneOverN == 455 && s <= 3236) || (n == 25 && oneOverN == 164 && s <= 140)
  }

  /** Every parameter set gives two passes within these limits. */
  lemma ParamsArePasses(set_: nat)
    requires set_ < 16
    ensures Pass(25, 164, SGRPROJ_PARAMS_S[set_].0) && Pass(9, 455, SGRPROJ_PARAMS_S[set_].1)
    ensures SGRPROJ_PARAMS_S[set_].0 > 0 || SGRPROJ_PARAMS_S[set_].1 > 0
  {
  }

  /** Blend weight of a window in 1/256: the flatter the window, the smaller. */
  function Weight(z: nat): (a: nat)
    ensures 1 <= a <= 256
  {
    if z >= 255 then 256
    else if z == 0 then 1
    else
      WeightBound(z);
      (z * 256 + z / 2) / (z + 1)
  }

  lemma WeightBound(z: nat)
    requires z > 0
    ensures 1 <= (z * 256 + z / 2) / (z + 1) <= 256
  {
    var x, d := z * 256 + z / 2, z + 1;
    var q := x / d;
    assert q * d <= x < q * d + d;
    if q > 256 {
      MulMono2(257, q, d, d);
    }
  }

  /** A sum of squares and a sum, rounded to what they would be at eight bits. */
  function RoundSsq(ssq: int, bd: nat): int
    requires BitDepth(bd)
  {
    var d := Scale(bd);
    (ssq + d * d / 2) / (d * d)
  }

  function RoundSum(sum: int, bd: nat): int
    requires BitDepth(bd)
  {
    var d := Scale(bd);
    (sum + d / 2) / d
  }

  lemma RoundedSmaller(x: nat, bd: nat)
    requires BitDepth(bd)
    ensures 0 <= RoundSsq(x, bd) <= x && 0 <= RoundSum(x, bd) <= x
  {
    if bd == 8 {
      assert Scale(8) == 1;
    } else if bd == 10 {
      assert Scale(10) == 4 && RoundSsq(x, 10) == (x + 8) / 16;
    } else {
      assert Scale(12) == 16 && RoundSsq(x, 12) == (x + 128) / 256;
    }
  }

  /** `p`, without the saturating subtraction's floor. */
  function Variance(ssq: int, sum: int, n: int, bd: nat): int
    requires BitDepth(bd)
  {
    Mul(RoundSsq(ssq, bd), n) - Mul(RoundSum(sum, bd), RoundSum(sum, bd))
  }

  /** The value of the two results, over unbounded integers. */
  function Finish(ssq: nat, sum: nat, n: nat, oneOverN: nat, s: nat, bd: nat): (nat, nat)
    requires BitDepth(bd)
  {
    var v := Variance(ssq, sum, n, bd);
    var p := if v < 0 then 0 else v;
    var a := Weight((MulNat(p, s) + 0x8_0000) / 0x10_0000);
    (a, (MulNat(MulNat(256 - a, sum), oneOverN) + 0x800) / 0x1000)
  }

  function MulNat(a: nat, b: nat): nat {
    MulNonNegative(a, b);
    Mul(a, b)
  }

  lemma MulNonNegative(a: int, b: int)
    requires a >= 0 && b >= 0
    ensures Mul(a, b) >= 0
  {
  }

  /** A variance at some bit depth, against the spread of the unrounded sums. */
  predicate Bounded(v: int, ssq: int, sum: int, n: int, bd: nat) {
    && (bd == 8 ==> v <= Spread(n, ssq, sum, 0))
    && (bd == 10 ==> 16 * v <= Spread(n, ssq, sum, 2) + 8 * n)
    && (bd == 12 ==> 256 * v <= Spread(n, ssq, sum, 14) + 128 * n)
  }

  /** Rounding to eight bits first costs at most a linear term in the sum. */
  lemma VarianceBound(ssq: nat, sum: nat, n: nat, bd: nat)
    requires BitDepth(bd) && (n == 9 || n == 25)
    ensures Bounded(Variance(ssq, sum, n, bd), ssq, sum, n, bd)
  {
    hide Variance, Spread;
    if bd == 8 {
      VarianceBound8(ssq, sum, n);
    } else if bd == 10 {
      VarianceAt(ssq, sum, n);
      RoundedVariance(ssq, sum, n, 4);
    } else {
      VarianceAt(ssq, sum, n);
      RoundedVariance(ssq, sum, n, 16);
    }
  }

  lemma VarianceAt(ssq: int, sum: int, n: int)
    ensures Variance(ssq, sum, n, 10) == Mul((ssq + 8) / 16, n) - Mul((sum + 2) / 4, (sum + 2) / 4)
    ensures Variance(ssq, sum, n, 12) == Mul((ssq + 128) / 256, n) - Mul((sum + 8) / 16, (sum + 8) / 16)
  {
    hide Mul;
    assert Scale(10) == 4 && Scale(12) == 16;
  }

  lemma RoundedVariance(ssq: nat, sum: nat, n: nat, d: nat)
    requires (d == 4 || d == 16) && (n == 9 || n == 25)
    ensures d == 4 ==>
      16 * (Mul((ssq + 8) / 16, n) - Mul((sum + 2) / 4, (sum + 2) / 4)) <= Spread(n, ssq, sum, 2) + 8 * n
    ensures d == 16 ==>
      256 * (Mul((ssq + 128) / 256, n) - Mul((sum + 8) / 16, (sum + 8) / 16)) <= Spread(n, ssq, sum, 14) + 128 * n
  {
    hide Mul;
    var x, y := (ssq + d * d / 2) / (d * d), (sum + d / 2) / d;
    if d == 4 {
      RoundedSquare(sum, y, 4);
      RoundedDown(ssq, x, 4);
      ScaledRounding(x, ssq, n, 4);
    } else {
      RoundedSquare(sum, y, 16);
      RoundedDown(ssq, x, 16);
      ScaledRounding(x, ssq, n, 16);
    }
  }

  lemma VarianceBound8(ssq: nat, sum: nat, n: nat)
    ensures Variance(ssq, sum, n, 8) == Spread(n, ssq, sum, 0)
  {
    assert Mul(0, sum) == 0 && Mul(n, ssq) == Mul(ssq, n);
  }

  lemma RoundedDown(ssq: nat, x: nat, d: nat)
    requires (d == 4 || d == 16) && x == (ssq + d * d / 2) / (d * d)
    ensures d * d * x <= ssq + d * d / 2
  {
  }

  lemma ScaledRounding(x: nat, ssq: nat, n: nat, d: nat)
    requires (d == 4 || d == 16) && (n == 9 || n == 25) && d * d * x <= ssq + d * d / 2
    ensures d * d * Mul(x, n) <= Mul(n, ssq) + n * (d * d / 2)
  {
  }

  /** If y is sum / d rounded, (d * y)^2 is at least sum^2 less (d - 2) * sum. */
  lemma RoundedSquare(sum: nat, y: nat, d: nat)
    requires (d == 4 || d == 16) && y == (sum + d / 2) / d
    ensures d * d * Mul(y, y) >= Mul(sum, sum) - Mul(d - 2, sum)
  {
    var t := d * y;
    assert t >= sum - (d / 2 - 1);
    assert Mul(t, t) == d * d * Mul(y, y);
    var e := d / 2 - 1;
    if sum >= e {
      MulMono2(sum - e, t, sum - e, t);
      assert Mul(sum - e, sum - e) == Mul(sum, sum) - 2 * e * sum + e * e;
    } else {
      MulNonNegative(t, t);
      MulMono(sum, sum, d - 2);
      assert Mul(sum, d - 2) == Mul(d - 2, sum);
    }
  }

  lemma {:induction false} SumBounds(xs: seq<nat>, max: nat)
    requires Within(xs, max)
    ensures Sum(xs) <= |xs| * max && SumSq(xs) <= |xs| * Mul(max, max)
    decreases |xs|
  {
    if xs != [] {
      var m := |xs| - 1;
      SumBounds(xs[..m], max);
      MulMono2(xs[m], max, xs[m], max);
      assert m * max + max == (m + 1) * max;
      assert m * Mul(max, max) + Mul(max, max) == (m + 1) * Mul(max, max);
    }
  }

  /** For every window of pixels, parameter set and bit depth, no step leaves 32 bits, so the
      fixed-width computation returns the exact values. */
  method SumFinish(ssq: u32, sum: u32, n: nat, oneOverN: nat, s: nat, bd: nat, ghost xs: seq<nat>)
      returns (a: u32, b: u32)
    requires BitDepth(bd) && Pass(n, oneOverN, s)
    requires |xs| == n && Within(xs, MaxPixel(bd)) && ssq == SumSq(xs) && sum == Sum(xs)
    ensures (a, b) == Finish(ssq, sum, n, oneOverN, s, bd)
    ensures 1 <= a <= 256 && b <= 0x10_0000
  {
    hide Sum, SumSq, Weight, Spread, Mul, Bounded, Within, RoundSsq, RoundSum;
    SumBounds(xs, MaxPixel(bd));
    SpreadBound(xs, if bd == 8 then 0 else Scale(bd) - 2, MaxPixel(bd));
    VarianceBound(ssq, sum, n, bd);
    FinishFits(ssq, sum, n, oneOverN, s, bd);
    RoundedSmaller(ssq, bd);
    RoundedSmaller(sum, bd);
    var scaledSsq: u32 := RoundSsq(ssq, bd);
    var scaledSum: u32 := RoundSum(sum, bd);
    var left: u32 := Mul(scaledSsq, n);
    var right: u32 := Mul(scaledSum, scaledSum);
    var p: u32 := if left < right then 0 else left - right;
    MulZero(s);
    var ps: u32 := MulNat(p, s);
    var z: u32 := (ps + 0x8_0000) / 0x10_0000;
    a := Weight(z);
    WeightedSumFits(256 - a, sum, n, oneOverN, MaxPixel(bd));
    var ws: u32 := MulNat(256 - a, sum);
    var bn: u32 := MulNat(ws, oneOverN);
    b := (bn + 0x800) / 0x1000;
  }

  /** The tight part: the variance times the strength, with the rounding term, is below 2^32. */
  lemma FinishFits(ssq: nat, sum: nat, n: nat, oneOverN: nat, s: nat, bd: nat)
    requires BitDepth(bd) && Pass(n, oneOverN, s)
    requires sum <= n * MaxPixel(bd) && ssq <= n * Mul(MaxPixel(bd), MaxPixel(bd))
    requires var c := if bd == 8 then 0 else Scale(bd) - 2; var max := MaxPixel(bd);
      && (n == 9 ==> Spread(9, ssq, sum, c) <= 20 * Mul(max, max) + 9 * Mul(c, max))
      && (n == 25 ==> Spread(25, ssq, sum, c) <= 156 * Mul(max, max) + 25 * Mul(c, max))
    requires Bounded(Variance(ssq, sum, n, bd), ssq, sum, n, bd)
    ensures 0 <= Mul(RoundSsq(ssq, bd), n) < 0x1_0000_0000
    ensures 0 <= Mul(RoundSum(sum, bd), RoundSum(sum, bd)) < 0x1_0000_0000
    ensures var v := Variance(ssq, sum, n, bd);
      v > 0 ==> Mul(v, s) + 0x8_0000 < 0x1_0000_0000
  {
    hide Spread;
    var v := Variance(ssq, sum, n, bd);
    assert Mul(255, 255) == 65025 && Mul(1023, 1023) == 1046529 && Mul(4095, 4095) == 16769025;
    assert Mul(2, 1023) == 2046 && Mul(14, 4095) == 57330 && Mul(0, 255) == 0;
    RoundedSmaller(ssq, bd);
    RoundedSmaller(sum, bd);
    var y := RoundSum(sum, bd);
    SumLimit(sum, n, bd);
    MulMono2(y, 6400, y, 6400);
    assert Mul(6400, 6400) == 40960000;
    MulNonNegative(y, y);
    VarianceLimit(v, Spread(n, ssq, sum, if bd == 8 then 0 else Scale(bd) - 2), n, bd);
    if v > 0 {
      MulMono2(v, if n == 9 then 1313000 else 10300000, s, if n == 9 then 3236 else 140);
      assert Mul(1313000, 3236) == 4248868000 && Mul(10300000, 140) == 1442000000;
    }
  }

  lemma SumLimit(sum: nat, n: nat, bd: nat)
    requires BitDepth(bd) && (n == 9 || n == 25) && sum <= n * MaxPixel(bd)
    ensures RoundSum(sum, bd) <= 6400
  {
    if bd == 8 {
      assert Scale(8) == 1;
    } else if bd == 10 {
      assert RoundSum(sum, 10) == (sum + 2) / 4;
    } else {
      assert RoundSum(sum, 12) == (sum + 8) / 16;
    }
  }

  lemma VarianceLimit(v: int, spread: int, n: nat, bd: nat)
    requires BitDepth(bd) && (n == 9 || n == 25)
    requires var max, c := MaxPixel(bd), if bd == 8 then 0 else Scale(bd) - 2;
      spread <= if n == 9 then 20 * Mul(max, max) + 9 * Mul(c, max) else 156 * Mul(max, max) + 25 * Mul(c, max)
    requires bd == 8 ==> v <= spread
    requires bd == 10 ==> 16 * v <= spread + 8 * n
    requires bd == 12 ==> 256 * v <= spread + 128 * n
    ensures v <= if n == 9 then 1313000 else 10300000
  {
    assert Mul(255, 255) == 65025 && Mul(1023, 1023) == 1046529 && Mul(4095, 4095) == 16769025;
    assert Mul(2, 1023) == 2046 && Mul(14, 4095) == 57330 && Mul(0, 255) == 0;
  }

  lemma WeightedSumFits(w: nat, sum: nat, n: nat, oneOverN: nat, max: nat)
    requires w <= 255 && sum <= n * max && max <= 4095
    requires (n == 9 && oneOverN == 455) || (n == 25 && oneOverN == 164)
    ensures 0 <= Mul(w, sum) < 0x1_0000_0000
    ensures Mul(Mul(w, sum), oneOverN) + 0x800 < 0x1_0000_0000
    ensures (Mul(Mul(w, sum), oneOverN) + 0x800) / 0x1000 <= 0x10_0000
  {
    MulMono2(w, 255, sum, n * 4095);
    MulNonNegative(w, sum);
    MulMono2(Mul(w, sum), 255 * (n * 4095), oneOverN, oneOverN);
  }
}
