/** Deblocking one line of pixels across an edge: thresholds, flatness tests and filters. */
module DeblockFilters {
  import opened Bits

  const MAX_LOOP_FILTER := 63

  /** The taps of one line, the edge in the middle. */
  type Line = seq<int>

  predicate IsSize(n: nat) {
    n == 4 || n == 6 || n == 8 || n == 14
  }

  function Half(t: Line): nat {
    |t| / 2
  }

  /** The i-th tap before the edge. */
  function P(t: Line, i: nat): int
    requires IsSize(|t|) && i < Half(t)
  {
    t[Half(t) - 1 - i]
  }

  /** The i-th tap after the edge. */
  function Q(t: Line, i: nat): int
    requires IsSize(|t|) && i < Half(t)
  {
    t[Half(t) + i]
  }

  function Max(a: int, b: int): int {
    if a > b then a else b
  }

  // Levels and thresholds ---------------------------------------------------

  function LevelToLimit(level: nat, shift: nat): nat {
    Shl(level, shift)
  }

  function LimitToLevel(limit: nat, shift: nat): nat {
    ShlAtLeast(1, shift);
    Shr(limit + Pow2(shift) - 1, shift)
  }

  function LevelToBlimit(level: nat, shift: nat): nat {
    Shl(3 * level + 4, shift)
  }

  /** The division rounds toward zero, so both remainders below zero give level 0. */
  function BlimitToLevel(blimit: nat, shift: nat): nat {
    var b := LimitToLevel(blimit, shift) - 2;
    if b < 0 then 0 else b / 3
  }

  function LevelToThresh(level: nat, shift: nat): nat {
    Shl(level / 16, shift)
  }

  function ThreshToLevel(thresh: nat, shift: nat): nat {
    16 * LimitToLevel(thresh, shift)
  }

  lemma LimitAdjoint(x: nat, level: nat, shift: nat)
    ensures LimitToLevel(x, shift) <= level <==> x <= LevelToLimit(level, shift)
  {
    hide Shl, Shr;
    ShlAtLeast(1, shift);
    var y := x + Pow2(shift) - 1;
    SplitBits(y, shift);
    ShlAdd(level, 1, shift);
    if x <= Shl(level, shift) {
      ShrBound(y, level + 1, shift);
    } else {
      ShlMono(Shr(y, shift), level, shift);
    }
  }

  lemma BlimitAdjoint(x: nat, level: nat, shift: nat)
    ensures BlimitToLevel(x, shift) <= level <==> x <= LevelToBlimit(level, shift)
  {
    LimitAdjoint(x, 3 * level + 4, shift);
  }

  lemma ThreshAdjoint(x: nat, level: nat, shift: nat)
    ensures ThreshToLevel(x, shift) <= level <==> x <= LevelToThresh(level, shift)
  {
    LimitAdjoint(x, level / 16, shift);
  }

  // Tests on a line -----------------------------------------------------------

  /** Largest step between neighbouring taps, over the n steps nearest the edge. */
  function Step(t: Line, n: nat): nat
    requires IsSize(|t|) && n < Half(t)
  {
    if n == 0 then 0
    else Max(Step(t, n - 1), Max(Abs(P(t, n) - P(t, n - 1)), Abs(Q(t, n) - Q(t, n - 1))))
  }

  /** Largest distance from the taps at the edge, over taps a to b on each side. */
  function Spread(t: Line, a: nat, b: nat): nat
    requires IsSize(|t|) && a <= b < Half(t)
    decreases b - a
  {
    var here := Max(Abs(P(t, b) - P(t, 0)), Abs(Q(t, b) - Q(t, 0)));
    if a == b then here else Max(Spread(t, a, b - 1), here)
  }

  /** How many steps the filter mask of each size looks at: mask4, mask6, and mask8 for 8 and 14. */
  function MaskSteps(t: Line): nat
    requires IsSize(|t|)
  {
    if |t| == 4 then 1 else if |t| == 6 then 2 else 3
  }

  function EdgeStep(t: Line): nat
    requires IsSize(|t|)
  {
    Abs(P(t, 0) - Q(t, 0)) * 2 + Abs(P(t, 1) - Q(t, 1)) / 2
  }

  /** The least level at which the line is filtered. */
  function Mask(t: Line, shift: nat): nat
    requires IsSize(|t|)
  {
    Max(LimitToLevel(Step(t, MaskSteps(t)), shift), BlimitToLevel(EdgeStep(t), shift))
  }

  /** The least level at which the line does not count as a high-variance edge. */
  function Nhev(t: Line, shift: nat): nat
    requires IsSize(|t|)
  {
    ThreshToLevel(Step(t, 1), shift)
  }

  predicate Flat(t: Line, shift: nat)
    requires IsSize(|t|)
  {
    |t| > 4 && Spread(t, 1, if |t| == 6 then 2 else 3) <= Pow2(shift)
  }

  predicate FlatOuter(t: Line, shift: nat)
    requires IsSize(|t|)
  {
    |t| == 14 && Spread(t, 4, 6) <= Pow2(shift)
  }

  /** The filter mask as the AV1 specification states it (section 7.14.6.2), level by level:
      the least level of Mask is exactly where the limits stop being exceeded. */
  lemma MaskIsLimits(t: Line, level: nat, shift: nat)
    requires IsSize(|t|)
    ensures Mask(t, shift) <= level <==>
      Step(t, MaskSteps(t)) <= LevelToLimit(level, shift) && EdgeStep(t) <= LevelToBlimit(level, shift)
    ensures Nhev(t, shift) <= level <==> Step(t, 1) <= LevelToThresh(level, shift)
  {
    LimitAdjoint(Step(t, MaskSteps(t)), level, shift);
    BlimitAdjoint(EdgeStep(t), level, shift);
    ThreshAdjoint(Step(t, 1), level, shift);
  }

  // Filters -------------------------------------------------------------------

  function Top(shift: nat): nat {
    Shl(128, shift)
  }

  function Signed(x: int, shift: nat): int {
    Clamp(x, 0 - Top(shift), Top(shift) - 1)
  }

  function Pixel(x: int, shift: nat): int {
    Clamp(x, 0, 2 * Top(shift) - 1)
  }

  /** The two correction terms of the narrow filters; `>> 3` rounds down, as Euclidean `/ 8` does. */
  function Filter1(base: int, shift: nat): int {
    Signed(base + 4, shift) / 8
  }

  function Filter2(base: int, shift: nat): int {
    Signed(base + 3, shift) / 8
  }

  /** Clamping before adding the rounding term as well changes nothing, for any input. */
  lemma OneClampIsEnough(base: int, shift: nat)
    ensures Filter1(base, shift) == Signed(Signed(base, shift) + 4, shift) / 8
    ensures Filter2(base, shift) == Signed(Signed(base, shift) + 3, shift) / 8
  {
    var k := Shl(16, shift);
    TopIsEight(shift);
    ShlAtLeast(16, shift);
  }

  lemma TopIsEight(shift: nat)
    ensures Top(shift) == 8 * Shl(16, shift)
  {
    ShlAdd(64, 64, shift);
    ShlAdd(32, 32, shift);
    ShlAdd(16, 16, shift);
  }

  function Narrow2(t: Line, shift: nat): (r: Line)
    requires IsSize(|t|)
    ensures |r| == |t|
  {
    var h := Half(t);
    var base := Signed(P(t, 1) - Q(t, 1), shift) + 3 * (Q(t, 0) - P(t, 0));
    t[h - 1 := Pixel(P(t, 0) + Filter2(base, shift), shift)]
     [h := Pixel(Q(t, 0) - Filter1(base, shift), shift)]
  }

  function Narrow4(t: Line, shift: nat): (r: Line)
    requires IsSize(|t|)
    ensures |r| == |t|
  {
    var h := Half(t);
    var base := 3 * (Q(t, 0) - P(t, 0));
    var filter1, filter2 := Filter1(base, shift), Filter2(base, shift);
    var filter3 := (filter1 + 1) / 2;
    t[h - 2 := Pixel(P(t, 1) + filter3, shift)]
     [h - 1 := Pixel(P(t, 0) + filter2, shift)]
     [h := Pixel(Q(t, 0) - filter1, shift)]
     [h + 1 := Pixel(Q(t, 1) - filter3, shift)]
  }

  function Wide6(t: Line): (r: Line)
    requires |t| == 6
    ensures |r| == |t|
  {
    var p2, p1, p0, q0, q1, q2 := t[0], t[1], t[2], t[3], t[4], t[5];
    [p2,
     (p2 * 3 + p1 * 2 + p0 * 2 + q0 + 4) / 8,
     (p2 + p1 * 2 + p0 * 2 + q0 * 2 + q1 + 4) / 8,
     (p1 + p0 * 2 + q0 * 2 + q1 * 2 + q2 + 4) / 8,
     (p0 + q0 * 2 + q1 * 2 + q2 * 3 + 4) / 8,
     q2]
  }

  function Wide8(t: Line): (r: Line)
    requires |t| == 8
    ensures |r| == |t|
  {
    var p3, p2, p1, p0, q0, q1, q2, q3 := t[0], t[1], t[2], t[3], t[4], t[5], t[6], t[7];
    [p3,
     (p3 * 3 + p2 * 2 + p1 + p0 + q0 + 4) / 8,
     (p3 * 2 + p2 + p1 * 2 + p0 + q0 + q1 + 4) / 8,
     (p3 + p2 + p1 + p0 * 2 + q0 + q1 + q2 + 4) / 8,
     (p2 + p1 + p0 + q0 * 2 + q1 + q2 + q3 + 4) / 8,
     (p1 + p0 + q0 + q1 * 2 + q2 + q3 * 2 + 4) / 8,
     (p0 + q0 + q1 + q2 * 2 + q3 * 3 + 4) / 8,
     q3]
  }

  function Wide14(t: Line): (r: Line)
    requires |t| == 14
    ensures |r| == |t|
  {
    var p6, p5, p4, p3, p2, p1, p0 := t[0], t[1], t[2], t[3], t[4], t[5], t[6];
    var q0, q1, q2, q3, q4, q5, q6 := t[7], t[8], t[9], t[10], t[11], t[12], t[13];
    [p6,
     (p6 * 7 + p5 * 2 + p4 * 2 + p3 + p2 + p1 + p0 + q0 + 8) / 16,
     (p6 * 5 + p5 * 2 + p4 * 2 + p3 * 2 + p2 + p1 + p0 + q0 + q1 + 8) / 16,
     (p6 * 4 + p5 + p4 * 2 + p3 * 2 + p2 * 2 + p1 + p0 + q0 + q1 + q2 + 8) / 16,
     (p6 * 3 + p5 + p4 + p3 * 2 + p2 * 2 + p1 * 2 + p0 + q0 + q1 + q2 + q3 + 8) / 16,
     (p6 * 2 + p5 + p4 + p3 + p2 * 2 + p1 * 2 + p0 * 2 + q0 + q1 + q2 + q3 + q4 + 8) / 16,
     (p6 + p5 + p4 + p3 + p2 + p1 * 2 + p0 * 2 + q0 * 2 + q1 + q2 + q3 + q4 + q5 + 8) / 16,
     (p5 + p4 + p3 + p2 + p1 + p0 * 2 + q0 * 2 + q1 * 2 + q2 + q3 + q4 + q5 + q6 + 8) / 16,
     (p4 + p3 + p2 + p1 + p0 + q0 * 2 + q1 * 2 + q2 * 2 + q3 + q4 + q5 + q6 * 2 + 8) / 16,
     (p3 + p2 + p1 + p0 + q0 + q1 * 2 + q2 * 2 + q3 * 2 + q4 + q5 + q6 * 3 + 8) / 16,
     (p2 + p1 + p0 + q0 + q1 + q2 * 2 + q3 * 2 + q4 * 2 + q5 + q6 * 4 + 8) / 16,
     (p1 + p0 + q0 + q1 + q2 + q3 * 2 + q4 * 2 + q5 * 2 + q6 * 5 + 8) / 16,
     (p0 + q0 + q1 + q2 + q3 + q4 * 2 + q5 * 2 + q6 * 7 + 8) / 16,
     q6]
  }

  /** The filter for a line that passed its flatness test. */
  function Wide(t: Line, shift: nat): (r: Line)
    requires IsSize(|t|) && |t| > 4
    ensures |r| == |t|
  {
    if |t| == 6 then Wide6(t)
    else if |t| == 8 then Wide8(t)
    else if FlatOuter(t, shift) then Wide14(t)
    else t[..3] + Wide8(t[3..11]) + t[11..]
  }

  /** Deblocking one line at a level (at bit depth 8 + shift). */
  function Filtered(t: Line, level: nat, shift: nat): (r: Line)
    requires IsSize(|t|)
    ensures |r| == |t|
  {
    if Mask(t, shift) > level then t
    else if Flat(t, shift) then Wide(t, shift)
    else if Nhev(t, shift) <= level then Narrow4(t, shift)
    else Narrow2(t, shift)
  }

  // What the filters keep ------------------------------------------------------

  predicate InRange(t: Line, shift: nat) {
    forall i :: 0 <= i < |t| ==> 0 <= t[i] < 2 * Top(shift)
  }

  /** Filtered pixels are pixels: storing them in the plane's type loses nothing. */
  lemma FilteredInRange(t: Line, level: nat, shift: nat)
    requires IsSize(|t|) && InRange(t, shift)
    ensures InRange(Filtered(t, level, shift), shift)
  {
    hide Mask, Nhev, Flat, FlatOuter, Filter1, Filter2, Signed;
    ShlAtLeast(128, shift);
    if Mask(t, shift) <= level && Flat(t, shift) {
      assert |t| > 4 by { FlatIsLong(t, shift); }
      WideInRange(t, shift);
    }
  }

  lemma FlatIsLong(t: Line, shift: nat)
    requires IsSize(|t|) && Flat(t, shift)
    ensures |t| > 4
  {
  }

  lemma WideInRange(t: Line, shift: nat)
    requires IsSize(|t|) && |t| > 4 && InRange(t, shift)
    ensures InRange(Wide(t, shift), shift)
  {
    hide FlatOuter, Top;
    if |t| == 6 {
    } else if |t| == 8 {
      Wide8InRange(t, shift);
    } else if FlatOuter(t, shift) {
      Wide14InRange(t, shift);
    } else {
      Wide8InRange(t[3..11], shift);
    }
  }

  lemma Wide8InRange(t: Line, shift: nat)
    requires |t| == 8 && InRange(t, shift)
    ensures InRange(Wide8(t), shift)
  {
    hide Top;
  }

  lemma Wide14InRange(t: Line, shift: nat)
    requires |t| == 14 && InRange(t, shift)
    ensures InRange(Wide14(t), shift)
  {
    forall i | 0 <= i < 14 ensures 0 <= Wide14(t)[i] < 2 * Top(shift) {
      if i < 4 {
        Wide14Left(t, shift, i);
      } else if i < 10 {
        Wide14Middle(t, shift, i);
      } else {
        Wide14Right(t, shift, i);
      }
    }
    hide Wide14;
  }

  lemma Wide14Left(t: Line, shift: nat, i: nat)
    requires |t| == 14 && InRange(t, shift) && i < 4
    ensures 0 <= Wide14(t)[i] < 2 * Top(shift)
  {
    hide Top;
  }

  lemma Wide14Middle(t: Line, shift: nat, i: nat)
    requires |t| == 14 && InRange(t, shift) && 4 <= i < 10
    ensures 0 <= Wide14(t)[i] < 2 * Top(shift)
  {
    hide Top;
  }

  lemma Wide14Right(t: Line, shift: nat, i: nat)
    requires |t| == 14 && InRange(t, shift) && 10 <= i < 14
    ensures 0 <= Wide14(t)[i] < 2 * Top(shift)
  {
    hide Top;
  }

  /** The outermost taps are read but never written, except by the four-tap filter. */
  lemma FilteredKeepsEnds(t: Line, level: nat, shift: nat)
    requires IsSize(|t|) && |t| > 4
    ensures Filtered(t, level, shift)[0] == t[0]
    ensures Filtered(t, level, shift)[|t| - 1] == t[|t| - 1]
  {
    hide Mask, Nhev, Flat, Wide, Narrow2, Narrow4;
    WideKeepsEnds(t, shift);
    NarrowKeepsEnds(t, shift);
  }

  lemma NarrowKeepsEnds(t: Line, shift: nat)
    requires IsSize(|t|) && |t| > 4
    ensures Narrow2(t, shift)[0] == Narrow4(t, shift)[0] == t[0]
    ensures Narrow2(t, shift)[|t| - 1] == Narrow4(t, shift)[|t| - 1] == t[|t| - 1]
  {
    hide Filter1, Filter2, Signed, Pixel;
  }

  lemma WideKeepsEnds(t: Line, shift: nat)
    requires IsSize(|t|) && |t| > 4
    ensures Wide(t, shift)[0] == t[0] && Wide(t, shift)[|t| - 1] == t[|t| - 1]
  {
    hide FlatOuter, Wide8, Wide14;
    if |t| == 8 {
      Wide8KeepsEnds(t);
    } else if |t| == 14 {
      Wide14KeepsEnds(t);
    }
  }

  lemma Wide8KeepsEnds(t: Line)
    requires |t| == 8
    ensures Wide8(t)[0] == t[0] && Wide8(t)[7] == t[7]
  {
  }

  lemma Wide14KeepsEnds(t: Line)
    requires |t| == 14
    ensures Wide14(t)[0] == t[0] && Wide14(t)[13] == t[13]
  {
  }
}
