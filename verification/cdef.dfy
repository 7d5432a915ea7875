/** The constrained directional enhancement filter on one block: unavailable border pixels
    are replaced by a huge sentinel, and the arithmetic must make that the same as skipping
    them (section 7.15 of the AV1 specification). */
module Cdef {
  import opened Bits

  const CDEF_VERY_LARGE := 0x8000

  datatype Edges = Edges(left: bool, right: bool, top: bool, bottom: bool)

  const HAVE_ALL := Edges(true, true, true, true)

  datatype Strength = Strength(pri: nat, sec: nat, dir: nat, damping: nat, bitDepth: nat)

  /** The bit depths, dampings and strengths the encoder passes. */
  predicate Usable(s: Strength) {
    && 8 <= s.bitDepth <= 12 && s.dir < 8 && s.damping <= 13
    && s.pri <= 0x4000 && s.sec <= 0x4000
  }

  function Msb(x: nat): nat
    requires x > 0
  {
    if x == 1 then 0 else 1 + Msb(x / 2)
  }

  lemma {:induction false} MsbBound(x: nat)
    requires x > 0
    ensures x < Pow2(Msb(x) + 1)
  {
    if x > 1 {
      MsbBound(x / 2);
      assert Pow2(Msb(x) + 1) == 2 * Pow2(Msb(x / 2) + 1);
    } else {
      assert Pow2(1) == 2 * Pow2(0) && Pow2(0) == 1;
    }
  }

  function Constrain(diff: int, threshold: nat, damping: nat): int {
    if threshold == 0 then 0
    else
      var msb := Msb(threshold);
      var shift := if damping > msb then damping - msb else 0;
      var magnitude := Clamp(threshold - Shr(Abs(diff), shift), 0, Abs(diff));
      if diff < 0 then -magnitude else magnitude
  }

  /** A difference to the sentinel is too large for any tap to pass it. */
  lemma SentinelContributesNothing(x: nat, threshold: nat, damping: nat)
    requires x < 0x1000 && threshold <= 0x4000 && damping <= 13
    ensures Constrain(CDEF_VERY_LARGE - x, threshold, damping) == 0
  {
    if threshold != 0 {
      var msb := Msb(threshold);
      MsbBound(threshold);
      var shift := if damping > msb then damping - msb else 0;
      if shift > 0 {
        StillLarge(CDEF_VERY_LARGE - x, threshold, msb, shift);
      }
      hide Shl, Msb;
    }
  }

  /** Whatever damping shifts away, the sentinel's difference stays above the threshold. */
  lemma StillLarge(diff: nat, threshold: nat, msb: nat, shift: nat)
    requires diff >= 0x6000 && threshold < Pow2(msb + 1) && msb + shift <= 13
    ensures Shr(diff, shift) >= threshold
  {
    Pow2Values();
    hide Shl, Shr, LowBits;
    Pow2Mono(msb + 1 + shift, 14);
    ShlShl(1, msb + 1, shift);
    ShlMono(threshold, Pow2(msb + 1), shift);
    SplitBits(diff, shift);
    ShlMono(Shr(diff, shift) + 1, threshold, shift);
    ShlAdd(Shr(diff, shift), 1, shift);
  }

  /** A tap pulls towards its pixel, and never past it. */
  lemma ConstrainBetween(diff: int, threshold: nat, damping: nat)
    ensures diff >= 0 ==> 0 <= Constrain(diff, threshold, damping) <= diff
    ensures diff <= 0 ==> diff <= Constrain(diff, threshold, damping) <= 0
  {
  }

  lemma {:induction false} MsbReached(x: nat)
    requires x > 0
    ensures Pow2(Msb(x)) <= x
  {
    if x > 1 {
      MsbReached(x / 2);
      assert Pow2(Msb(x)) == 2 * Pow2(Msb(x / 2));
    }
  }

  /** The highest bit is the only power of two that x reaches and doubling exceeds. */
  lemma MsbIs(x: nat, n: nat)
    requires Pow2(n) <= x < Pow2(n + 1)
    ensures x > 0 && Msb(x) == n
  {
    MsbBound(x);
    MsbReached(x);
    if Msb(x) < n {
      Pow2Mono(Msb(x) + 1, n);
    } else if n < Msb(x) {
      Pow2Mono(n + 1, Msb(x));
    }
  }

  /** Small differences pass a tap whole, large ones not at all, and between them a tap passes
      the less the larger the difference is, whichever sign it has. Damping stretches this. */
  lemma ConstrainTapers(diff: int, threshold: nat, damping: nat, msb: nat)
    requires Pow2(msb) <= threshold < Pow2(msb + 1)
    ensures Constrain(-diff, threshold, damping) == -Constrain(diff, threshold, damping)
    ensures diff >= 0 ==>
      var lost := Shr(diff, if damping > msb then damping - msb else 0);
      var c := Constrain(diff, threshold, damping);
      && (diff + lost <= threshold ==> c == diff)
      && (lost <= threshold <= diff + lost ==> c == threshold - lost)
      && (threshold <= lost ==> c == 0)
  {
    MsbIs(threshold, msb);
    hide Shl, Msb, Shr;
  }

  /** Luma strengths follow the block's variance; the adjustment only ever weakens them. */
  function AdjustStrength(strength: nat, variance: nat): nat {
    if variance != 0 then (strength * (4 + Boost(variance)) + 8) / 16 else 0
  }

  function Boost(variance: nat): (i: nat)
    ensures i <= 12
  {
    if variance / 64 != 0 then (if Msb(variance / 64) < 12 then Msb(variance / 64) else 12) else 0
  }

  lemma AdjustStrengthWeakens(strength: nat, variance: nat)
    ensures AdjustStrength(strength, variance) <= strength
  {
    hide Boost;
    TimesGrows(strength, 4 + Boost(variance), 16);
  }

  lemma {:induction false} MsbMono(x: nat, y: nat)
    requires 0 < x <= y
    ensures Msb(x) <= Msb(y)
  {
    if x > 1 {
      MsbMono(x / 2, y / 2);
    }
  }

  lemma BoostGrows(v: nat, w: nat)
    requires v <= w
    ensures Boost(v) <= Boost(w)
    ensures v < 128 ==> Boost(v) == 0
    ensures w >= 0x4_0000 ==> Boost(w) == 12
  {
    MsbOf4096();
    hide Msb;
    if v / 64 > 0 {
      MsbMono(v / 64, w / 64);
    }
    if w >= 0x4_0000 {
      MsbMono(4096, w / 64);
    }
  }

  lemma MsbOf4096()
    ensures Msb(1) == 0 && Msb(4096) == 12
  {
    Pow2Values();
    assert Pow2(12) == 4096 && Pow2(13) == 8192;
    MsbIs(4096, 12);
  }

  lemma TimesGrows(a: nat, b: nat, c: nat)
    requires b <= c
    ensures a * b <= a * c
  {
  }

  /** The adjusted strength grows with the variance, from a quarter for the least, up to all of it. */
  lemma AdjustStrengthGrows(strength: nat, v: nat, w: nat)
    requires v <= w
    ensures AdjustStrength(strength, v) <= AdjustStrength(strength, w)
    ensures 0 < v < 128 ==> AdjustStrength(strength, v) == (strength + 2) / 4
    ensures v >= 0x4_0000 ==> AdjustStrength(strength, v) == strength
    ensures AdjustStrength(strength, 0) == 0
  {
    hide Boost;
    BoostGrows(v, w);
    BoostGrows(v, v);
    TimesGrows(strength, 4 + Boost(v), 4 + Boost(w));
  }

  // Taps -----------------------------------------------------------------------

  /** Offsets (row, column) of the nearer and farther tap of a direction. */
  function Direction(dir: nat, k: nat): (int, int)
    requires dir < 8 && k < 2
  {
    match dir
    case 0 => if k == 0 then (-1, 1) else (-2, 2)
    case 1 => if k == 0 then (0, 1) else (-1, 2)
    case 2 => if k == 0 then (0, 1) else (0, 2)
    case 3 => if k == 0 then (0, 1) else (1, 2)
    case 4 => if k == 0 then (1, 1) else (2, 2)
    case 5 => if k == 0 then (1, 0) else (2, 1)
    case 6 => if k == 0 then (1, 0) else (2, 0)
    case 7 => if k == 0 then (1, 0) else (2, -1)
  }

  function Back(o: (int, int)): (int, int) {
    (-o.0, -o.1)
  }

  function PriTap(s: Strength, k: nat): nat
    requires s.bitDepth >= 8 && k < 2
  {
    if Shr(s.pri, s.bitDepth - 8) % 2 == 0 then (if k == 0 then 4 else 2) else 3
  }

  function SecTap(k: nat): nat
    requires k < 2
  {
    if k == 0 then 2 else 1
  }

  /** The twelve taps in the order they are added up: at each distance the two primary
      ones, then the four secondary ones 90 degrees apart. */
  function TapOffset(dir: nat, n: nat): (int, int)
    requires dir < 8 && n < 12
  {
    var k, m := n / 6, n % 6;
    if m == 0 then Direction(dir, k)
    else if m == 1 then Back(Direction(dir, k))
    else if m == 2 then Direction((dir + 2) % 8, k)
    else if m == 3 then Back(Direction((dir + 2) % 8, k))
    else if m == 4 then Direction((dir + 6) % 8, k)
    else Back(Direction((dir + 6) % 8, k))
  }

  function TapTerm(s: Strength, n: nat, diff: int): int
    requires Usable(s) && n < 12
  {
    if n % 6 < 2 then PriTap(s, n / 6) * Constrain(diff, s.pri, s.damping)
    else SecTap(n / 6) * Constrain(diff, s.sec, s.damping)
  }

  /** A quarter turn. */
  function Turned(o: (int, int)): (int, int) {
    (o.1, -o.0)
  }

  function TowardZero(x: int): int {
    if x < 0 then -(-x / 2) else x / 2
  }

  /** The far tap of the directions in turn goes down the right side of the square two pixels
      away, and then along its bottom; the near tap is halfway to it, rounded toward the centre. */
  lemma DirectionsGoRound(dir: nat)
    requires dir < 8
    ensures Direction(dir, 1) == (if dir <= 4 then (dir - 2, 2) else (2, 6 - dir))
    ensures Direction(dir, 0) == (TowardZero(Direction(dir, 1).0), TowardZero(Direction(dir, 1).1))
  {
  }

  /** Four directions further on is a quarter turn, so the secondary taps form a cross. */
  lemma QuarterTurn(dir: nat, k: nat)
    requires dir < 8 && k < 2
    ensures dir < 4 ==> Direction(dir + 4, k) == Turned(Direction(dir, k))
    ensures var a, b := TapOffset(dir, 6 * k + 2), TapOffset(dir, 6 * k + 4);
      b == Turned(a) || b == Back(Turned(a))
  {
  }

  /** The weights of all taps add up to 24, half of it on the primary ones, and fall off with the
      distance, which primary ones do at every other strength only. */
  lemma Weights(s: Strength)
    requires s.bitDepth >= 8
    ensures PriTap(s, 0) + PriTap(s, 1) == 6 && SecTap(0) + SecTap(1) == 3
    ensures PriTap(s, 0) == 2 * PriTap(s, 1) || PriTap(s, 0) == PriTap(s, 1)
    ensures PriTap(s, 0) == PriTap(s, 1) <==> Shr(s.pri, s.bitDepth - 8) % 2 == 1
    ensures SecTap(0) == 2 * SecTap(1)
  {
  }

  lemma TapsStayClose(dir: nat, n: nat)
    requires dir < 8 && n < 12
    ensures -2 <= TapOffset(dir, n).0 <= 2 && -2 <= TapOffset(dir, n).1 <= 2
  {
  }

  // The filter as specified: unavailable taps do not exist --------------------------

  /** A block and its surroundings; pixel rows and columns run from -2 to size + 1. */
  datatype Block = Block(rows: seq<seq<int>>, h: nat, w: nat, edges: Edges)

  ghost predicate Proper(b: Block, bitDepth: nat) {
    && 8 <= bitDepth <= 12
    && |b.rows| == b.h + 4 && (forall r :: 0 <= r < b.h + 4 ==> |b.rows[r]| == b.w + 4)
    && (forall i, j :: Available(b, i, j) ==> 0 <= b.rows[i + 2][j + 2] < Pow2(bitDepth))
  }

  predicate Available(b: Block, i: int, j: int) {
    && (if b.edges.top then -2 else 0) <= i < b.h + (if b.edges.bottom then 2 else 0)
    && (if b.edges.left then -2 else 0) <= j < b.w + (if b.edges.right then 2 else 0)
  }

  function PixelAt(b: Block, i: int, j: int): int
    requires |b.rows| == b.h + 4 && (forall r :: 0 <= r < b.h + 4 ==> |b.rows[r]| == b.w + 4)
    requires -2 <= i < b.h + 2 && -2 <= j < b.w + 2
  {
    b.rows[i + 2][j + 2]
  }

  /** Weighted sum, and the range of the pixels seen, over the first n taps. */
  datatype Sums = Sums(sum: int, min: int, max: int)

  ghost function SpecSums(b: Block, s: Strength, i: nat, j: nat, n: nat): Sums
    requires Proper(b, s.bitDepth) && Usable(s) && i < b.h && j < b.w && n <= 12
  {
    var x := PixelAt(b, i, j);
    if n == 0 then Sums(0, x, x)
    else
      var a, o := SpecSums(b, s, i, j, n - 1), TapOffset(s.dir, n - 1);
      TapsStayClose(s.dir, n - 1);
      if Available(b, i + o.0, j + o.1) then
        var p := PixelAt(b, i + o.0, j + o.1);
        Sums(a.sum + TapTerm(s, n - 1, p - x), if p < a.min then p else a.min, if p > a.max then p else a.max)
      else a
  }

  function Rounded(x: int, a: Sums): int {
    Clamp(x + (8 + a.sum - (if a.sum < 0 then 1 else 0)) / 16, a.min, a.max)
  }

  ghost function SpecPixel(b: Block, s: Strength, i: nat, j: nat): int
    requires Proper(b, s.bitDepth) && Usable(s) && i < b.h && j < b.w
  {
    Rounded(PixelAt(b, i, j), SpecSums(b, s, i, j, 12))
  }

  /** The running minimum and maximum are attained by the centre or an available tap. */
  lemma {:induction false} SumsRange(b: Block, s: Strength, i: nat, j: nat, n: nat, lo: int, hi: int)
    requires Proper(b, s.bitDepth) && Usable(s) && i < b.h && j < b.w && n <= 12
    requires lo <= PixelAt(b, i, j) <= hi
    requires forall k :: 0 <= k < 12 ==> TapWithin(b, s, i, j, k, lo, hi)
    ensures lo <= SpecSums(b, s, i, j, n).min <= PixelAt(b, i, j) <= SpecSums(b, s, i, j, n).max <= hi
  {
    hide TapOffset, TapTerm;
    if n > 0 {
      SumsRange(b, s, i, j, n - 1, lo, hi);
      assert TapWithin(b, s, i, j, n - 1, lo, hi);
      TapsStayClose(s.dir, n - 1);
    }
  }

  ghost predicate TapWithin(b: Block, s: Strength, i: nat, j: nat, k: nat, lo: int, hi: int)
    requires Proper(b, s.bitDepth) && Usable(s) && i < b.h && j < b.w && k < 12
  {
    var o := TapOffset(s.dir, k);
    TapsStayClose(s.dir, k);
    Available(b, i + o.0, j + o.1) ==> lo <= PixelAt(b, i + o.0, j + o.1) <= hi
  }

  /** The output never leaves the range spanned by the centre and the available taps. */
  lemma OutputBetween(b: Block, s: Strength, i: nat, j: nat, lo: int, hi: int)
    requires Proper(b, s.bitDepth) && Usable(s) && i < b.h && j < b.w
    requires lo <= PixelAt(b, i, j) <= hi
    requires forall k :: 0 <= k < 12 ==> TapWithin(b, s, i, j, k, lo, hi)
    ensures lo <= SpecPixel(b, s, i, j) <= hi
  {
    hide SpecSums, TapWithin;
    SumsRange(b, s, i, j, 12, lo, hi);
  }

  /** A flat neighbourhood is left alone. */
  lemma FlatUnchanged(b: Block, s: Strength, i: nat, j: nat)
    requires Proper(b, s.bitDepth) && Usable(s) && i < b.h && j < b.w
    requires forall k :: 0 <= k < 12 ==> TapWithin(b, s, i, j, k, PixelAt(b, i, j), PixelAt(b, i, j))
    ensures SpecPixel(b, s, i, j) == PixelAt(b, i, j)
  {
    OutputBetween(b, s, i, j, PixelAt(b, i, j), PixelAt(b, i, j));
  }

  // The filter as implemented: a padded copy with a sentinel ------------------------

  /** Copies what the edges allow into the middle of a buffer full of sentinels. */
  method PadIntoTmp16(dst: array2<int>, b: Block)
    requires dst.Length0 == b.h + 4 && dst.Length1 == b.w + 4
    requires |b.rows| == b.h + 4 && forall r :: 0 <= r < b.h + 4 ==> |b.rows[r]| == b.w + 4
    requires forall r, c :: 0 <= r < b.h + 4 && 0 <= c < b.w + 4 ==> dst[r, c] == CDEF_VERY_LARGE
    modifies dst
    ensures forall r, c :: 0 <= r < b.h + 4 && 0 <= c < b.w + 4 ==>
      dst[r, c] == if Available(b, r - 2, c - 2) then b.rows[r][c] else CDEF_VERY_LARGE
  {
    var w, h := b.w, b.h;
    var dstCol := 2;
    if b.edges.left {
      w := w + 2;
      dstCol := 0;
    }
    if b.edges.right {
      w := w + 2;
    }
    var dstRow := 2;
    if b.edges.top {
      h := h + 2;
      dstRow := 0;
    }
    if b.edges.bottom {
      h := h + 2;
    }
    for y := 0 to h
      invariant forall r, c :: 0 <= r < b.h + 4 && 0 <= c < b.w + 4 ==>
        dst[r, c] == if r < dstRow + y && Available(b, r - 2, c - 2) then b.rows[r][c] else CDEF_VERY_LARGE
    {
      for x := 0 to w
        invariant forall r, c :: 0 <= r < b.h + 4 && 0 <= c < b.w + 4 ==>
          dst[r, c] ==
            if (r < dstRow + y || (r == dstRow + y && c < dstCol + x)) && Available(b, r - 2, c - 2) then b.rows[r][c]
            else CDEF_VERY_LARGE
      {
        dst[dstRow + y, dstCol + x] := b.rows[dstRow + y][dstCol + x];
      }
    }
  }

  /** What the padded buffer holds at a tap. */
  ghost predicate Padded(tmp: array2<int>, b: Block)
    reads tmp
  {
    && tmp.Length0 == b.h + 4 == |b.rows| && tmp.Length1 == b.w + 4
    && (forall r :: 0 <= r < b.h + 4 ==> |b.rows[r]| == b.w + 4)
    && (forall r, c :: 0 <= r < b.h + 4 && 0 <= c < b.w + 4 ==>
         tmp[r, c] == if Available(b, r - 2, c - 2) then b.rows[r][c] else CDEF_VERY_LARGE)
  }

  /** One tap: the sentinel raises no maximum, lowers no minimum and adds nothing. */
  method AddTap(tmp: array2<int>, a: Sums, n: nat, s: Strength, i: nat, j: nat, ghost b: Block) returns (r: Sums)
    requires Proper(b, s.bitDepth) && Usable(s) && i < b.h && j < b.w && n < 12
    requires Padded(tmp, b) && a == SpecSums(b, s, i, j, n)
    ensures r == SpecSums(b, s, i, j, n + 1)
  {
    hide TapOffset, Constrain, PriTap, SecTap;
    TapsStayClose(s.dir, n);
    var o := TapOffset(s.dir, n);
    var x, p := tmp[i + 2, j + 2], tmp[i + 2 + o.0, j + 2 + o.1];
    CentreInRange(b, s, i, j, n);
    if !Available(b, i + o.0, j + o.1) {
      SentinelContributesNothing(x, s.pri, s.damping);
      SentinelContributesNothing(x, s.sec, s.damping);
    } else {
      PixelBelowSentinel(b, s.bitDepth, i + o.0, j + o.1);
    }
    var max := if p != CDEF_VERY_LARGE && p > a.max then p else a.max;
    var min := if p < a.min then p else a.min;
    r := Sums(a.sum + TapTerm(s, n, p - x), min, max);
  }

  lemma PixelBelowSentinel(b: Block, bitDepth: nat, i: int, j: int)
    requires Proper(b, bitDepth) && Available(b, i, j)
    ensures 0 <= PixelAt(b, i, j) < 0x1000
  {
    Pow2Mono(bitDepth, 12);
    assert Pow2(4) == 16 && Pow2(8) == 256 && Pow2(12) == 0x1000;
  }

  lemma {:induction false} CentreInRange(b: Block, s: Strength, i: nat, j: nat, n: nat)
    requires Proper(b, s.bitDepth) && Usable(s) && i < b.h && j < b.w && n <= 12
    ensures 0 <= PixelAt(b, i, j) < 0x1000 && SpecSums(b, s, i, j, n).min <= PixelAt(b, i, j)
  {
    hide TapOffset, TapTerm;
    PixelBelowSentinel(b, s.bitDepth, i, j);
    if n > 0 {
      CentreInRange(b, s, i, j, n - 1);
    }
  }

  method FilterPixel(tmp: array2<int>, s: Strength, i: nat, j: nat, ghost b: Block) returns (v: int)
    requires Proper(b, s.bitDepth) && Usable(s) && i < b.h && j < b.w
    requires Padded(tmp, b)
    ensures v == SpecPixel(b, s, i, j)
  {
    hide SpecSums, Rounded;
    var x := tmp[i + 2, j + 2];
    var a := Sums(0, x, x);
    SpecSumsStart(b, s, i, j);
    for n := 0 to 12
      invariant Padded(tmp, b) && a == SpecSums(b, s, i, j, n)
    {
      a := AddTap(tmp, a, n, s, i, j, b);
    }
    v := Rounded(x, a);
  }

  /** Filters a block through the padded copy; every output pixel is the specified one. */
  method FilterBlock(dst: array2<int>, b: Block, s: Strength)
    requires Proper(b, s.bitDepth) && Usable(s)
    requires dst.Length0 == b.h && dst.Length1 == b.w
    modifies dst
    ensures forall i, j :: 0 <= i < b.h && 0 <= j < b.w ==> dst[i, j] == SpecPixel(b, s, i, j)
  {
    hide SpecSums, Rounded;
    var tmp := new int[b.h + 4, b.w + 4]((r, c) => CDEF_VERY_LARGE);
    if b.edges != HAVE_ALL {
      PadIntoTmp16(tmp, b);
    } else {
      // With every border present the frame itself is read.
      tmp := new int[b.h + 4, b.w + 4]((r, c) requires 0 <= r < b.h + 4 && 0 <= c < b.w + 4 => b.rows[r][c]);
    }
    for i := 0 to b.h
      invariant tmp != dst && Padded(tmp, b)
      invariant forall r, c :: 0 <= r < i && 0 <= c < b.w ==> dst[r, c] == SpecPixel(b, s, r, c)
    {
      for j := 0 to b.w
        invariant tmp != dst && Padded(tmp, b)
        invariant forall r, c :: 0 <= r < i && 0 <= c < b.w ==> dst[r, c] == SpecPixel(b, s, r, c)
        invariant forall c :: 0 <= c < j ==> dst[i, c] == SpecPixel(b, s, i, c)
      {
        var v := FilterPixel(tmp, s, i, j, b);
        dst[i, j] := v;
      }
    }
  }

  lemma SpecSumsStart(b: Block, s: Strength, i: nat, j: nat)
    requires Proper(b, s.bitDepth) && Usable(s) && i < b.h && j < b.w
    ensures SpecSums(b, s, i, j, 0) == Sums(0, PixelAt(b, i, j), PixelAt(b, i, j))
  {
  }
}
