/** Choosing deblocking levels: one pass over the edges accumulates, as differences
    between neighbouring levels, the squared error that every level would leave. */
module DeblockTally {
  import opened Bits
  import opened DeblockFilters

  /** The taps of one line, and the source pixels they should have been. */
  datatype Sample = Sample(rec: Line, src: Line)

  ghost predicate WellFormed(s: Sample) {
    IsSize(|s.rec|) && |s.src| == |s.rec|
  }

  function Square(x: int): nat {
    if x >= 0 then SquareNat(x) else SquareNat(-x)
  }

  function SquareNat(x: nat): nat {
    x * x
  }

  /** Squared error over taps i to n. */
  function ErrorFrom(a: Line, b: Line, i: nat, n: nat): nat
    requires i <= n <= |a| == |b|
    decreases n - i
  {
    if i == n then 0 else Square(a[i] - b[i]) + ErrorFrom(a, b, i + 1, n)
  }

  /** The taps whose error counts: all four, or all but the outermost two. */
  function Error(src: Line, out: Line): nat
    requires IsSize(|src|) && |src| == |out|
  {
    if |src| == 4 then ErrorFrom(src, out, 0, 4) else ErrorFrom(src, out, 1, |src| - 1)
  }

  /** The error a line has once deblocked at a level; level 0 means deblocking is off. */
  function ErrorAt(s: Sample, level: nat, shift: nat): nat
    requires WellFormed(s)
  {
    Error(s.src, if level == 0 then s.rec else Filtered(s.rec, level, shift))
  }

  function TotalErrorAt(ss: seq<Sample>, level: nat, shift: nat): nat
    requires forall i :: 0 <= i < |ss| ==> WellFormed(ss[i])
    decreases |ss|
  {
    if ss == [] then 0
    else TotalErrorAt(ss[..|ss| - 1], level, shift) + ErrorAt(ss[|ss| - 1], level, shift)
  }

  lemma SquareBound(x: int)
    requires x <= 4095 && -x <= 4095
    ensures Square(x) <= 16769025
  {
    SquareNatBound(if x >= 0 then x else -x);
    hide SquareNat;
  }

  lemma SquareNatBound(x: nat)
    requires x <= 4095
    ensures SquareNat(x) <= 16769025
  {
    Times(x, 4095, x);
  }

  lemma Times(a: nat, b: nat, c: nat)
    requires a <= b
    ensures a * c <= b * c
  {
  }

  lemma {:induction false} ErrorBound(a: Line, b: Line, i: nat, n: nat)
    requires i <= n <= |a| == |b|
    requires forall k :: 0 <= k < |a| ==> 0 <= a[k] <= 4095 && 0 <= b[k] <= 4095
    ensures ErrorFrom(a, b, i, n) <= (n - i) * 16769025
    decreases n - i
  {
    hide Square;
    if i < n {
      SquareBound(a[i] - b[i]);
      ErrorBound(a, b, i + 1, n);
    }
  }

  /** A line's error fits the 32-bit sum it is computed in, at every bit depth up to 12. */
  lemma ErrorFits(s: Sample, level: nat, shift: nat)
    requires WellFormed(s) && shift <= 4 && InRange(s.rec, shift) && InRange(s.src, shift)
    ensures ErrorAt(s, level, shift) < 0x8000_0000
  {
    hide Filtered;
    var out := if level == 0 then s.rec else Filtered(s.rec, level, shift);
    FilteredInRange(s.rec, level, shift);
    assert Shl(128, shift) <= 2048;
    hide Shl, ErrorFrom;
    if |s.src| == 4 {
      ErrorBound(s.src, out, 0, 4);
    } else {
      ErrorBound(s.src, out, 1, |s.src| - 1);
    }
  }

  // Difference arrays ----------------------------------------------------------

  function RunningSum(t: seq<int>, n: nat): int
    requires n < |t|
  {
    if n == 0 then t[0] else RunningSum(t, n - 1) + t[n]
  }

  lemma {:induction false} SumAfterAdd(t: seq<int>, k: nat, x: int, n: nat)
    requires k < |t| && n < |t|
    ensures RunningSum(t[k := t[k] + x], n) == RunningSum(t, n) + (if k <= n then x else 0)
  {
    if n > 0 {
      SumAfterAdd(t, k, x, n - 1);
    }
  }

  // One line ---------------------------------------------------------------------

  /** Adds, at the levels where a line's treatment changes, the change in its error. */
  method AddLine(s: Sample, tally: array<int>, shift: nat)
    requires WellFormed(s) && tally.Length == MAX_LOOP_FILTER + 2
    modifies tally
    ensures forall level :: 0 <= level <= MAX_LOOP_FILTER ==>
      RunningSum(tally[..], level) == RunningSum(old(tally[..]), level) + ErrorAt(s, level, shift)
  {
    hide Error, Narrow2, Narrow4, Wide, Mask, Nhev, Flat, RunningSum;
    var none := Error(s.src, s.rec);
    var mask := Clamp(Mask(s.rec, shift), 1, MAX_LOOP_FILTER + 1);
    var flat := Flat(s.rec, shift);
    var nhev := Clamp(Nhev(s.rec, shift), mask, MAX_LOOP_FILTER + 1);
    ghost var t0 := tally[..];
    if flat {
      FlatIsLong(s.rec, shift);
      var wide := if mask <= MAX_LOOP_FILTER then Error(s.src, Wide(s.rec, shift)) else none;
      tally[0] := tally[0] + none;
      tally[mask] := tally[mask] - none;
      tally[mask] := tally[mask] + wide;
      forall level | 0 <= level <= MAX_LOOP_FILTER
        ensures RunningSum(tally[..], level) == RunningSum(t0, level) + ErrorAt(s, level, shift)
      {
        ThreeAdds(t0, tally[..], none, mask, wide, level);
      }
    } else {
      var narrow2 := if nhev != mask then Error(s.src, Narrow2(s.rec, shift)) else none;
      var narrow4 := if nhev <= MAX_LOOP_FILTER then Error(s.src, Narrow4(s.rec, shift)) else none;
      tally[0] := tally[0] + none;
      tally[mask] := tally[mask] - none;
      tally[mask] := tally[mask] + narrow2;
      ghost var t3 := tally[..];
      tally[nhev] := tally[nhev] - narrow2;
      tally[nhev] := tally[nhev] + narrow4;
      forall level | 0 <= level <= MAX_LOOP_FILTER
        ensures RunningSum(tally[..], level) == RunningSum(t0, level) + ErrorAt(s, level, shift)
      {
        ThreeAdds(t0, t3, none, mask, narrow2, level);
        TwoAdds(t3, tally[..], nhev, narrow2, narrow4, level);
      }
    }
  }

  lemma TwoAdds(t: seq<int>, u: seq<int>, k: nat, a: int, b: int, n: nat)
    requires k < |t| && n < |t| && |u| == |t|
    requires u == t[k := t[k] - a + b]
    ensures RunningSum(u, n) == RunningSum(t, n) + (if k <= n then b - a else 0)
  {
    hide RunningSum;
    SumAfterAdd(t, k, b - a, n);
  }

  lemma ThreeAdds(t: seq<int>, u: seq<int>, a: int, k: nat, b: int, n: nat)
    requires 0 < k < |t| && n < |t| && |u| == |t|
    requires u == t[0 := t[0] + a][k := t[k] - a + b]
    ensures RunningSum(u, n) == RunningSum(t, n) + a + (if k <= n then b - a else 0)
  {
    hide RunningSum;
    SumAfterAdd(t, 0, a, n);
    TwoAdds(t[0 := t[0] + a], u, k, a, b, n);
  }

  // All lines, and the choice -----------------------------------------------------

  /** The lines an edge segment contributes, in the order they are visited. */
  method AddSegment(lines: seq<Sample>, tally: array<int>, shift: nat)
    requires tally.Length == MAX_LOOP_FILTER + 2
    requires forall i :: 0 <= i < |lines| ==> WellFormed(lines[i])
    modifies tally
    ensures forall level :: 0 <= level <= MAX_LOOP_FILTER ==>
      RunningSum(tally[..], level) == RunningSum(old(tally[..]), level) + TotalErrorAt(lines, level, shift)
  {
    hide RunningSum, ErrorAt;
    for i := 0 to |lines|
      invariant forall level :: 0 <= level <= MAX_LOOP_FILTER ==>
        RunningSum(tally[..], level) == RunningSum(old(tally[..]), level) + TotalErrorAt(lines[..i], level, shift)
    {
      AddLine(lines[i], tally, shift);
      assert lines[..i + 1][..i] == lines[..i];
    }
    assert lines[..|lines|] == lines;
  }

  lemma {:induction false} TotalErrorJoin(a: seq<Sample>, b: seq<Sample>, level: nat, shift: nat)
    requires forall i :: 0 <= i < |a| ==> WellFormed(a[i])
    requires forall i :: 0 <= i < |b| ==> WellFormed(b[i])
    ensures TotalErrorAt(a + b, level, shift) == TotalErrorAt(a, level, shift) + TotalErrorAt(b, level, shift)
    decreases |b|
  {
    hide ErrorAt;
    if b == [] {
      assert a + b == a;
    } else {
      TotalErrorJoin(a, b[..|b| - 1], level, shift);
      assert (a + b)[..|a + b| - 1] == a + b[..|b| - 1];
    }
  }

  /** Turns differences into the totals they stand for. */
  method PrefixSum(tally: array<int>)
    requires tally.Length == MAX_LOOP_FILTER + 2
    modifies tally
    ensures forall level :: 0 <= level <= MAX_LOOP_FILTER ==> tally[level] == RunningSum(old(tally[..]), level)
  {
    ghost var t := tally[..];
    for i := 1 to MAX_LOOP_FILTER + 1
      invariant forall k :: 0 <= k < i ==> tally[k] == RunningSum(t, k)
      invariant forall k :: i <= k < tally.Length ==> tally[k] == t[k]
    {
      tally[i] := tally[i] + tally[i - 1];
    }
  }

  const UNSET := 999

  /** The first of the levels with the least total. */
  method BestLevel(tally: array<int>) returns (best: nat)
    requires tally.Length == MAX_LOOP_FILTER + 2
    ensures best <= MAX_LOOP_FILTER
    ensures forall level :: 0 <= level <= MAX_LOOP_FILTER ==> tally[best] <= tally[level]
    ensures forall level :: 0 <= level < best ==> tally[best] < tally[level]
  {
    best := UNSET;
    for i := 0 to MAX_LOOP_FILTER + 1
      invariant i == 0 ==> best == UNSET
      invariant i > 0 ==> best < i
      invariant forall k :: 0 <= k < i ==> tally[best] <= tally[k]
      invariant i > 0 ==> forall k :: 0 <= k < best ==> tally[best] < tally[k]
    {
      if best == UNSET || tally[best] > tally[i] {
        best := i;
      }
    }
  }

  // The error over all taps ---------------------------------------------------------------

  /** The squared error a whole line has once deblocked at a level. */
  function LineErrorAt(s: Sample, level: nat, shift: nat): nat
    requires WellFormed(s)
  {
    ErrorFrom(s.src, if level == 0 then s.rec else Filtered(s.rec, level, shift), 0, |s.src|)
  }

  function TotalLineErrorAt(ss: seq<Sample>, level: nat, shift: nat): nat
    requires AllWellFormed(ss)
    decreases |ss|
  {
    if ss == [] then 0
    else TotalLineErrorAt(ss[..|ss| - 1], level, shift) + LineErrorAt(ss[|ss| - 1], level, shift)
  }

  lemma {:induction false} ErrorSplitsLast(a: Line, b: Line, i: nat, n: nat)
    requires i < n <= |a| == |b|
    ensures ErrorFrom(a, b, i, n) == ErrorFrom(a, b, i, n - 1) + Square(a[n - 1] - b[n - 1])
    decreases n - i
  {
    hide Square;
    if i + 1 < n {
      ErrorSplitsLast(a, b, i + 1, n);
    }
  }

  /** The outermost taps that are not counted are the same at every level. */
  lemma CountedIsRest(s: Sample, level: nat, shift: nat)
    requires WellFormed(s)
    ensures LineErrorAt(s, level, shift) - ErrorAt(s, level, shift) ==
      if |s.rec| == 4 then 0
      else Square(s.src[0] - s.rec[0]) + Square(s.src[|s.rec| - 1] - s.rec[|s.rec| - 1])
  {
    hide Filtered, Square;
    if |s.rec| > 4 {
      FilteredKeepsEnds(s.rec, level, shift);
      var out := if level == 0 then s.rec else Filtered(s.rec, level, shift);
      ErrorSplitsLast(s.src, out, 1, |s.src|);
    }
  }

  /** Totals differ between levels as those over all taps do. */
  lemma {:induction false} TotalsDiffer(ss: seq<Sample>, a: nat, b: nat, shift: nat)
    requires AllWellFormed(ss)
    ensures TotalErrorAt(ss, a, shift) - TotalErrorAt(ss, b, shift) ==
      TotalLineErrorAt(ss, a, shift) - TotalLineErrorAt(ss, b, shift)
    decreases |ss|
  {
    hide ErrorAt, LineErrorAt, WellFormed, Square;
    if ss != [] {
      TotalsDiffer(ss[..|ss| - 1], a, b, shift);
      CountedIsRest(ss[|ss| - 1], a, shift);
      CountedIsRest(ss[|ss| - 1], b, shift);
    }
  }

  /** No level leaves less squared error over all taps of these lines, and no lower level leaves
      as little. */
  ghost predicate LeastError(ss: seq<Sample>, best: nat, shift: nat)
    requires AllWellFormed(ss)
  {
    && best <= MAX_LOOP_FILTER
    && (forall level :: 0 <= level <= MAX_LOOP_FILTER ==>
          TotalLineErrorAt(ss, best, shift) <= TotalLineErrorAt(ss, level, shift))
    && (forall level :: 0 <= level < best ==>
          TotalLineErrorAt(ss, best, shift) < TotalLineErrorAt(ss, level, shift))
  }

  lemma CountedDecides(ss: seq<Sample>, best: nat, shift: nat)
    requires AllWellFormed(ss) && best <= MAX_LOOP_FILTER
    requires forall level :: 0 <= level <= MAX_LOOP_FILTER ==>
      && TotalErrorAt(ss, best, shift) <= TotalErrorAt(ss, level, shift)
      && (level < best ==> TotalErrorAt(ss, best, shift) < TotalErrorAt(ss, level, shift))
    ensures LeastError(ss, best, shift)
  {
    hide TotalErrorAt, TotalLineErrorAt;
    forall level | 0 <= level <= MAX_LOOP_FILTER
      ensures TotalLineErrorAt(ss, best, shift) <= TotalLineErrorAt(ss, level, shift)
      ensures level < best ==> TotalLineErrorAt(ss, best, shift) < TotalLineErrorAt(ss, level, shift)
    {
      TotalsDiffer(ss, best, level, shift);
    }
  }

  /** The level chosen for luma edges of one direction. */
  method OptimizeLevel(segments: seq<seq<Sample>>, shift: nat) returns (best: nat)
    requires forall i, j :: 0 <= i < |segments| && 0 <= j < |segments[i]| ==> WellFormed(segments[i][j])
    ensures AllWellFormed(Joined(segments)) && LeastError(Joined(segments), best, shift)
  {
    hide TotalErrorAt, RunningSum, LeastError;
    var tally := Tallied(segments, shift);
    PrefixSum(tally);
    best := BestLevel(tally);
    CountedDecides(Joined(segments), best, shift);
  }

  /** Chroma edges of both directions share one level. */
  method OptimizeSharedLevel(vertical: seq<seq<Sample>>, horizontal: seq<seq<Sample>>, shift: nat) returns (best: nat)
    requires forall i, j :: 0 <= i < |vertical| && 0 <= j < |vertical[i]| ==> WellFormed(vertical[i][j])
    requires forall i, j :: 0 <= i < |horizontal| && 0 <= j < |horizontal[i]| ==> WellFormed(horizontal[i][j])
    ensures AllWellFormed(Joined(vertical) + Joined(horizontal))
    ensures LeastError(Joined(vertical) + Joined(horizontal), best, shift)
  {
    hide TotalErrorAt, RunningSum, LeastError;
    var v := Tallied(vertical, shift);
    var h := Tallied(horizontal, shift);
    PrefixSum(v);
    PrefixSum(h);
    ghost var all := Joined(vertical) + Joined(horizontal);
    forall level | 0 <= level <= MAX_LOOP_FILTER ensures v[level] + h[level] == TotalErrorAt(all, level, shift) {
      TotalErrorJoin(Joined(vertical), Joined(horizontal), level, shift);
    }
    best := UNSET;
    for i := 0 to MAX_LOOP_FILTER + 1
      invariant i == 0 ==> best == UNSET
      invariant i > 0 ==> best < i
      invariant forall k :: 0 <= k < i ==> v[best] + h[best] <= v[k] + h[k]
      invariant i > 0 ==> forall k :: 0 <= k < best ==> v[best] + h[best] < v[k] + h[k]
    {
      if best == UNSET || v[best] + h[best] > v[i] + h[i] {
        best := i;
      }
    }
    forall level | 0 <= level <= MAX_LOOP_FILTER
      ensures TotalErrorAt(all, best, shift) <= TotalErrorAt(all, level, shift)
      ensures level < best ==> TotalErrorAt(all, best, shift) < TotalErrorAt(all, level, shift)
    {
      assert v[level] + h[level] == TotalErrorAt(all, level, shift);
    }
    CountedDecides(all, best, shift);
  }

  ghost predicate AllWellFormed(ss: seq<Sample>) {
    forall i :: 0 <= i < |ss| ==> WellFormed(ss[i])
  }

  function Joined(segments: seq<seq<Sample>>): (r: seq<Sample>)
    ensures (forall i, j :: 0 <= i < |segments| && 0 <= j < |segments[i]| ==> WellFormed(segments[i][j]))
        ==> AllWellFormed(r)
    decreases |segments|
  {
    if segments == [] then [] else Joined(segments[..|segments| - 1]) + segments[|segments| - 1]
  }

  method Tallied(segments: seq<seq<Sample>>, shift: nat) returns (tally: array<int>)
    requires forall i, j :: 0 <= i < |segments| && 0 <= j < |segments[i]| ==> WellFormed(segments[i][j])
    ensures fresh(tally) && tally.Length == MAX_LOOP_FILTER + 2
    ensures AllWellFormed(Joined(segments))
    ensures forall level :: 0 <= level <= MAX_LOOP_FILTER ==>
      RunningSum(tally[..], level) == TotalErrorAt(Joined(segments), level, shift)
  {
    hide TotalErrorAt;
    tally := new int[MAX_LOOP_FILTER + 2](_ => 0);
    forall level | 0 <= level <= MAX_LOOP_FILTER
      ensures RunningSum(tally[..], level) == 0 == TotalErrorAt([], level, shift)
    {
      ZeroSums(tally[..], level);
      NoError(level, shift);
    }
    for i := 0 to |segments|
      invariant AllWellFormed(Joined(segments[..i]))
      invariant forall level :: 0 <= level <= MAX_LOOP_FILTER ==>
        RunningSum(tally[..], level) == TotalErrorAt(Joined(segments[..i]), level, shift)
    {
      assert segments[..i + 1][..i] == segments[..i];
      AddSegment(segments[i], tally, shift);
      forall level | 0 <= level <= MAX_LOOP_FILTER
        ensures TotalErrorAt(Joined(segments[..i + 1]), level, shift)
             == TotalErrorAt(Joined(segments[..i]), level, shift) + TotalErrorAt(segments[i], level, shift)
      {
        TotalErrorJoin(Joined(segments[..i]), segments[i], level, shift);
      }
    }
    assert segments[..|segments|] == segments;
  }

  lemma {:induction false} ZeroSums(t: seq<int>, n: nat)
    requires n < |t| && forall i :: 0 <= i < |t| ==> t[i] == 0
    ensures RunningSum(t, n) == 0
  {
    if n > 0 {
      ZeroSums(t, n - 1);
    }
  }

  lemma NoError(level: nat, shift: nat)
    ensures TotalErrorAt([], level, shift) == 0
  {
  }
}
