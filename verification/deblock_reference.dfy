/** The edge filters as the AV1 specification words them (section 7.14.6), to compare with the
    unrolled ones of the encoder. */
module DeblockReference {
  import opened Bits
  import opened DeblockFilters

  // The wide filter (section 7.14.6.4): a moving weighted window -------------------------------

  /** The middle of the window counts double: the tap itself, or it and its neighbours. */
  function Weight(j: int, n2: nat): nat {
    if Abs(j) <= n2 then 2 else 1
  }

  /** The i-th term of the window around tap k; taps beyond the ends repeat the ends. */
  function Term(t: Line, k: nat, n: nat, n2: nat, i: nat): int
    requires t != []
  {
    Weight(i - n, n2) * t[Clamp(k + i - n, 0, |t| - 1)]
  }

  function WindowSum(t: Line, k: nat, n: nat, n2: nat, m: nat): int
    requires t != []
  {
    if m == 0 then 0 else WindowSum(t, k, n, n2, m - 1) + Term(t, k, n, n2, m - 1)
  }

  predicate IsWide(n: nat) {
    n == 6 || n == 8 || n == 14
  }

  function Windowed(t: Line, k: nat): int
    requires IsWide(|t|)
  {
    var n, n2, whole := |t| / 2 - 1, if |t| == 8 then 0 else 1, if |t| == 14 then 16 else 8;
    (WindowSum(t, k, n, n2, 2 * n + 1) + whole / 2) / whole
  }

  lemma WindowOfFive(t: Line, k: nat, n: nat, n2: nat)
    requires t != []
    ensures WindowSum(t, k, n, n2, 5) == Term(t, k, n, n2, 0) + Term(t, k, n, n2, 1) + Term(t, k, n, n2, 2)
      + Term(t, k, n, n2, 3) + Term(t, k, n, n2, 4)
  {
    hide Term;
    assert WindowSum(t, k, n, n2, 1) == Term(t, k, n, n2, 0);
    assert WindowSum(t, k, n, n2, 2) == Term(t, k, n, n2, 0) + Term(t, k, n, n2, 1);
    assert WindowSum(t, k, n, n2, 4) == WindowSum(t, k, n, n2, 2) + Term(t, k, n, n2, 2) + Term(t, k, n, n2, 3);
  }

  lemma WindowGrows(t: Line, k: nat, n: nat, n2: nat, m: nat)
    requires t != []
    ensures WindowSum(t, k, n, n2, m + 4) == WindowSum(t, k, n, n2, m) + Term(t, k, n, n2, m) + Term(t, k, n, n2, m + 1)
      + Term(t, k, n, n2, m + 2) + Term(t, k, n, n2, m + 3)
  {
    hide Term;
    assert WindowSum(t, k, n, n2, m + 2) == WindowSum(t, k, n, n2, m) + Term(t, k, n, n2, m) + Term(t, k, n, n2, m + 1);
  }

  lemma Window6(t: Line, k: nat)
    requires |t| == 6 && 1 <= k <= 4
    ensures Wide6(t)[k] == Windowed(t, k)
  {
    hide WindowSum;
    WindowOfFive(t, k, 2, 1);
  }

  lemma Window8(t: Line, k: nat)
    requires |t| == 8 && 1 <= k <= 6
    ensures Wide8(t)[k] == Windowed(t, k)
  {
    WindowOfFive(t, k, 3, 0);
    assert WindowSum(t, k, 3, 0, 7) == WindowSum(t, k, 3, 0, 5) + Term(t, k, 3, 0, 5) + Term(t, k, 3, 0, 6);
    hide WindowSum;
  }

  lemma WindowOfThirteen(t: Line, k: nat)
    requires |t| == 14
    ensures WindowSum(t, k, 6, 1, 13) ==
      T14(t, k, 0) + T14(t, k, 1) + T14(t, k, 2) + T14(t, k, 3) + T14(t, k, 4) + T14(t, k, 5) + T14(t, k, 6)
      + T14(t, k, 7) + T14(t, k, 8) + T14(t, k, 9) + T14(t, k, 10) + T14(t, k, 11) + T14(t, k, 12)
  {
    hide Term;
    WindowOfFive(t, k, 6, 1);
    WindowGrows(t, k, 6, 1, 5);
    WindowGrows(t, k, 6, 1, 9);
  }

  /** The i-th term of a window over fourteen taps. */
  function T14(t: Line, k: nat, i: nat): int
    requires |t| == 14
  {
    Term(t, k, 6, 1, i)
  }

  lemma Window14First(t: Line, k: nat)
    requires |t| == 14 && 1 <= k <= 2
    ensures Wide14(t)[k] == (WindowSum(t, k, 6, 1, 13) + 8) / 16
  {
    WindowOfThirteen(t, k);
    hide WindowSum;
  }

  lemma Window14Second(t: Line, k: nat)
    requires |t| == 14 && 3 <= k <= 4
    ensures Wide14(t)[k] == (WindowSum(t, k, 6, 1, 13) + 8) / 16
  {
    WindowOfThirteen(t, k);
    hide WindowSum;
  }

  lemma Window14Third(t: Line, k: nat)
    requires |t| == 14 && 5 <= k <= 6
    ensures Wide14(t)[k] == (WindowSum(t, k, 6, 1, 13) + 8) / 16
  {
    WindowOfThirteen(t, k);
    hide WindowSum;
  }

  lemma Window14Fourth(t: Line, k: nat)
    requires |t| == 14 && 7 <= k <= 8
    ensures Wide14(t)[k] == (WindowSum(t, k, 6, 1, 13) + 8) / 16
  {
    WindowOfThirteen(t, k);
    hide WindowSum;
  }

  lemma Window14Fifth(t: Line, k: nat)
    requires |t| == 14 && 9 <= k <= 10
    ensures Wide14(t)[k] == (WindowSum(t, k, 6, 1, 13) + 8) / 16
  {
    WindowOfThirteen(t, k);
    hide WindowSum;
  }

  lemma Window14Sixth(t: Line, k: nat)
    requires |t| == 14 && 11 <= k <= 12
    ensures Wide14(t)[k] == (WindowSum(t, k, 6, 1, 13) + 8) / 16
  {
    WindowOfThirteen(t, k);
    hide WindowSum;
  }

  /** The whole line, its ends unchanged. */
  function WideReference(t: Line): (r: Line)
    requires IsWide(|t|)
    ensures |r| == |t|
  {
    seq(|t|, k requires 0 <= k < |t| => if k == 0 || k == |t| - 1 then t[k] else Windowed(t, k))
  }

  lemma WideIsWindowed(t: Line)
    requires IsWide(|t|)
    ensures WideReference(t) == if |t| == 6 then Wide6(t) else if |t| == 8 then Wide8(t) else Wide14(t)
  {
    forall k | 1 <= k < |t| - 1
      ensures Windowed(t, k) == if |t| == 6 then Wide6(t)[k] else if |t| == 8 then Wide8(t)[k] else Wide14(t)[k]
    {
      WindowIsWide(t, k);
    }
    hide Windowed;
  }

  lemma WindowIsWide(t: Line, k: nat)
    requires IsWide(|t|) && 1 <= k < |t| - 1
    ensures Windowed(t, k) == if |t| == 6 then Wide6(t)[k] else if |t| == 8 then Wide8(t)[k] else Wide14(t)[k]
  {
    hide WindowSum, Wide6, Wide8, Wide14;
    if |t| == 6 {
      Window6(t, k);
    } else if |t| == 8 {
      Window8(t, k);
    } else if k <= 2 {
      Window14First(t, k);
    } else if k <= 4 {
      Window14Second(t, k);
    } else if k <= 6 {
      Window14Third(t, k);
    } else if k <= 8 {
      Window14Fourth(t, k);
    } else if k <= 10 {
      Window14Fifth(t, k);
    } else {
      Window14Sixth(t, k);
    }
  }

  // The narrow filter (section 7.14.6.3): signed values, every step clamped -----------------------

  function NarrowReference(t: Line, hev: bool, shift: nat): (r: Line)
    requires IsSize(|t|)
    ensures |r| == |t|
  {
    var h, top := Half(t), Top(shift);
    var ps1, ps0, qs0, qs1 := P(t, 1) - top, P(t, 0) - top, Q(t, 0) - top, Q(t, 1) - top;
    var start := if hev then Signed(ps1 - qs1, shift) else 0;
    var filter := Signed(start + 3 * (qs0 - ps0), shift);
    var filter1, filter2 := Signed(filter + 4, shift) / 8, Signed(filter + 3, shift) / 8;
    var inner := t[h - 1 := Signed(ps0 + filter2, shift) + top][h := Signed(qs0 - filter1, shift) + top];
    var half := (filter1 + 1) / 2;
    if hev then inner
    else inner[h - 2 := Signed(ps1 + half, shift) + top][h + 1 := Signed(qs1 - half, shift) + top]
  }

  /** One clamp fewer and no offset by half the pixel range come to the same. */
  lemma NarrowIsReference(t: Line, shift: nat)
    requires IsSize(|t|)
    ensures Narrow2(t, shift) == NarrowReference(t, true, shift)
    ensures Narrow4(t, shift) == NarrowReference(t, false, shift)
  {
    NarrowHev(t, shift);
    NarrowNoHev(t, shift);
  }

  lemma OffsetClamp(x: int, shift: nat)
    ensures Signed(x - Top(shift), shift) + Top(shift) == Pixel(x, shift)
  {
  }

  lemma NarrowHev(t: Line, shift: nat)
    requires IsSize(|t|)
    ensures Narrow2(t, shift) == NarrowReference(t, true, shift)
  {
    hide Filter1, Filter2, Top, Signed, Pixel;
    var base := Signed(P(t, 1) - Q(t, 1), shift) + 3 * (Q(t, 0) - P(t, 0));
    OneClampIsEnough(base, shift);
    OffsetClamp(P(t, 0) + Filter2(base, shift), shift);
    OffsetClamp(Q(t, 0) - Filter1(base, shift), shift);
    assert P(t, 0) - Top(shift) + Filter2(base, shift) == P(t, 0) + Filter2(base, shift) - Top(shift);
    assert Q(t, 0) - Top(shift) - Filter1(base, shift) == Q(t, 0) - Filter1(base, shift) - Top(shift);
    assert P(t, 1) - Top(shift) - (Q(t, 1) - Top(shift)) == P(t, 1) - Q(t, 1);
    assert Q(t, 0) - Top(shift) - (P(t, 0) - Top(shift)) == Q(t, 0) - P(t, 0);
  }

  lemma NarrowNoHev(t: Line, shift: nat)
    requires IsSize(|t|)
    ensures Narrow4(t, shift) == NarrowReference(t, false, shift)
  {
    hide Filter1, Filter2, Top, Signed, Pixel;
    var base := 3 * (Q(t, 0) - P(t, 0));
    OneClampIsEnough(base, shift);
    var half := (Filter1(base, shift) + 1) / 2;
    OffsetClamp(P(t, 0) + Filter2(base, shift), shift);
    OffsetClamp(Q(t, 0) - Filter1(base, shift), shift);
    OffsetClamp(P(t, 1) + half, shift);
    OffsetClamp(Q(t, 1) - half, shift);
    assert P(t, 0) - Top(shift) + Filter2(base, shift) == P(t, 0) + Filter2(base, shift) - Top(shift);
    assert Q(t, 0) - Top(shift) - Filter1(base, shift) == Q(t, 0) - Filter1(base, shift) - Top(shift);
    assert P(t, 1) - Top(shift) + half == P(t, 1) + half - Top(shift);
    assert Q(t, 1) - Top(shift) - half == Q(t, 1) - half - Top(shift);
    assert Q(t, 0) - Top(shift) - (P(t, 0) - Top(shift)) == Q(t, 0) - P(t, 0);
  }

  // The masks (section 7.14.6.2) ------------------------------------------------------------------

  predicate Hev(t: Line, level: nat, shift: nat)
    requires IsSize(|t|)
  {
    var thresh := Shl(level / 16, shift);
    Abs(P(t, 1) - P(t, 0)) > thresh || Abs(Q(t, 1) - Q(t, 0)) > thresh
  }

  /** How many steps on each side are limited, by filter size. */
  function Steps(size: nat): nat {
    if size == 4 then 1 else if size == 6 then 2 else 3
  }

  predicate StepWithin(t: Line, i: nat, limit: nat)
    requires IsSize(|t|) && i + 1 < Half(t)
  {
    Abs(P(t, i + 1) - P(t, i)) <= limit && Abs(Q(t, i + 1) - Q(t, i)) <= limit
  }

  predicate FilterMask(t: Line, level: nat, shift: nat)
    requires IsSize(|t|)
  {
    && (forall i :: 0 <= i < Steps(|t|) ==> StepWithin(t, i, Shl(level, shift)))
    && Abs(P(t, 0) - Q(t, 0)) * 2 + Abs(P(t, 1) - Q(t, 1)) / 2 <= Shl(3 * level + 4, shift)
  }

  predicate TapWithin(t: Line, i: nat, limit: nat)
    requires IsSize(|t|) && i < Half(t)
  {
    Abs(P(t, i) - P(t, 0)) <= limit && Abs(Q(t, i) - Q(t, 0)) <= limit
  }

  predicate FlatMask(t: Line, shift: nat)
    requires IsSize(|t|) && |t| > 4
  {
    forall i :: 1 <= i <= Steps(|t|) ==> TapWithin(t, i, Shl(1, shift))
  }

  predicate FlatMask2(t: Line, shift: nat)
    requires |t| == 14
  {
    forall i :: 4 <= i <= 6 ==> TapWithin(t, i, Shl(1, shift))
  }

  lemma MasksAgree(t: Line, level: nat, shift: nat)
    requires IsSize(|t|)
    ensures FilterMask(t, level, shift) <==> Mask(t, shift) <= level
    ensures Hev(t, level, shift) <==> Nhev(t, shift) > level
    ensures Flat(t, shift) <==> |t| > 4 && FlatMask(t, shift)
    ensures |t| == 14 ==> (FlatOuter(t, shift) <==> FlatMask2(t, shift))
  {
    hide Mask, Nhev, Shl, Step, Spread;
    MaskIsLimits(t, level, shift);
    StepIsLargest(t, Steps(|t|), Shl(level, shift));
    StepIsLargest(t, 1, Shl(level / 16, shift));
    assert StepWithin(t, 0, Shl(level / 16, shift)) <==> !Hev(t, level, shift);
    if |t| > 4 {
      SpreadIsLargest(t, 1, Steps(|t|), Shl(1, shift));
    }
    if |t| == 14 {
      SpreadIsLargest(t, 4, 6, Shl(1, shift));
    }
  }

  lemma {:induction false} StepIsLargest(t: Line, n: nat, limit: nat)
    requires IsSize(|t|) && n < Half(t)
    ensures Step(t, n) <= limit <==> forall i :: 0 <= i < n ==> StepWithin(t, i, limit)
  {
    if n > 0 {
      StepIsLargest(t, n - 1, limit);
      assert StepWithin(t, n - 1, limit) <==>
        Abs(P(t, n) - P(t, n - 1)) <= limit && Abs(Q(t, n) - Q(t, n - 1)) <= limit;
    }
  }

  lemma {:induction false} SpreadIsLargest(t: Line, a: nat, b: nat, limit: nat)
    requires IsSize(|t|) && a <= b < Half(t)
    ensures Spread(t, a, b) <= limit <==> forall i :: a <= i <= b ==> TapWithin(t, i, limit)
    decreases b - a
  {
    if a < b {
      SpreadIsLargest(t, a, b - 1, limit);
    }
    assert TapWithin(t, b, limit) <==> Max(Abs(P(t, b) - P(t, 0)), Abs(Q(t, b) - Q(t, 0))) <= limit;
  }

  // The whole process -----------------------------------------------------------------------------

  function Reference(t: Line, level: nat, shift: nat): Line
    requires IsSize(|t|)
  {
    if !FilterMask(t, level, shift) then t
    else if |t| == 4 || !FlatMask(t, shift) then NarrowReference(t, Hev(t, level, shift), shift)
    else if |t| < 14 || FlatMask2(t, shift) then WideReference(t)
    else t[..3] + WideReference(t[3..11]) + t[11..]
  }

  /** Whatever the taps, level and bit depth, the encoder's filters are those AV1 specifies. */
  lemma FilteredIsReference(t: Line, level: nat, shift: nat)
    requires IsSize(|t|)
    ensures Filtered(t, level, shift) == Reference(t, level, shift)
  {
    hide Mask, Nhev, Flat, FlatOuter, FilterMask, Hev, FlatMask, FlatMask2, Wide6, Wide8, Wide14, WideReference;
    hide NarrowReference, Narrow2, Narrow4;
    MasksAgree(t, level, shift);
    NarrowIsReference(t, shift);
    if |t| > 4 {
      WideIsWindowed(t);
    }
    if |t| == 14 {
      WideIsWindowed(t[3..11]);
    }
  }
}
