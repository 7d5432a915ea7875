/** When one radius-2 row may serve two output rows: down to the rounded pixel, only when the
    switched-off pass has no weight. */
module LrfSharing {
  import opened LrfIntegral
  import opened LrfArith
  import opened LrfStripe

  /** The job filters this stripe: padded around, and the CDEF output itself inside. */
  ghost predicate FromPlanes(j: Job, p: Source) {
    && Proper(p) && j.src == Padded(p) && j.h == p.stripeH && j.w == p.stripeW && |j.lines| >= EvenHeight(j.h)
    && forall r, c :: 0 <= r < j.h && 0 <= c < j.w ==> SameAt(j, p, r, c)
  }

  predicate SameAt(j: Job, p: Source, r: nat, c: nat) {
    && r < |j.lines| && c < |j.lines[r]| && p.y + r < |p.cdeffed| && p.x + c < |p.cdeffed[p.y + r]|
    && j.lines[r][c] == p.cdeffed[p.y + r][p.x + c]
  }

  /** Inside the frame a stripe's own pixels are the source's, four rows and columns in. */
  lemma LinesAreSource(j: Job, p: Source, y: nat, x: nat)
    requires FromPlanes(j, p) && y < j.h && x < j.w && y < p.cropH
    ensures y + 4 < |j.src| && x + 4 < |j.src[y + 4]| && |j.lines| > y && |j.lines[y]| > x
    ensures j.src[y + 4][x + 4] == j.lines[y][x]
  {
    assert SameAt(j, p, y, x);
    StripeRowExists(p, y + 4);
    assert Padded(p)[y + 4] == PaddedRow(p, y + 4);
  }

  /** A bit depth, a radius-1 strength and two weights, with the radius-2 pass off. */
  ghost predicate RunsWith(j: Job, bd: nat, s1: nat, w0: int, w1: int) {
    Ready(j) && j.bd == bd && j.s2 == 0 && j.s1 == s1 && j.w0 == w0 && j.w1 == w1
  }

  /** No stripe of any planes shows a wrong pixel. */
  ghost predicate SharingRight(bd: nat, s1: nat, w0: int, w1: int) {
    forall j: Job, p: Source, y: nat, x: nat | RunsWith(j, bd, s1, w0, w1) && FromPlanes(j, p) && y < j.h && x < j.w ::
      SharedPixel(j, y, x) == SpecPixel(j, y, x)
  }

  /** With the radius-2 pass off, sharing its row is right for every stripe if and only if its
      weight is zero, whatever the bit depth, the other strength and the other weight. */
  lemma SharingRightIff(bd: nat, s1: nat, w0: int, w1: int)
    requires BitDepth(bd) && Pass(9, 455, s1) && -128 <= w0 <= 127 && -128 <= w1 <= 127
    ensures SharingRight(bd, s1, w0, w1) <==> w0 == 0
  {
    hide SharedPixel, SpecPixel, FromPlanes, Ready;
    if w0 == 0 {
      forall j: Job, p: Source, y: nat, x: nat | RunsWith(j, bd, s1, w0, w1) && FromPlanes(j, p) && y < j.h && x < j.w
        ensures SharedPixel(j, y, x) == SpecPixel(j, y, x)
      {
        SharingHarmless(j, y, x);
      }
    } else {
      DarkSpotShows(bd, s1, w0, w1);
    }
  }

  // A stripe that shows it ----------------------------------------------------------------------

  const LEVEL := 128

  function FlatPlane(): (s: Rows)
    ensures Shaped(s, 64, 80) && forall r, c :: 0 <= r < 64 && 0 <= c < 80 ==> s[r][c] == LEVEL
  {
    seq<seq<nat>>(64, r => seq<nat>(80, c => LEVEL))
  }

  function DarkAt(r: int, c: int): nat {
    if r == 0 && c == 0 then 0 else LEVEL
  }

  /** A mid-grey plane with one black pixel, the first of a stripe. */
  function DarkPlane(): (s: Rows)
    ensures Shaped(s, 64, 80) && forall r, c :: 0 <= r < 64 && 0 <= c < 80 ==> s[r][c] == DarkAt(r - 56, c - 64)
  {
    seq<seq<nat>>(64, r => seq<nat>(80, c => DarkAt(r - 56, c - 64)))
  }

  function DarkSource(): Source {
    Source(DarkPlane(), FlatPlane(), 64, 56, 8, 8, 2, 2)
  }

  lemma DarkIsProper()
    ensures Proper(DarkSource())
  {
    hide DarkPlane, FlatPlane;
    var p := DarkSource();
    assert Shaped(p.cdeffed, |p.cdeffed|, 80) && Shaped(p.deblocked, |p.cdeffed|, 80);
  }

  function DarkLines(): (s: Rows)
    ensures Shaped(s, 2, 2) && forall r, c :: 0 <= r < 2 && 0 <= c < 2 ==> s[r][c] == DarkAt(r, c)
  {
    seq<seq<nat>>(2, r => seq<nat>(2, c => DarkAt(r, c)))
  }

  ghost function DarkJob(bd: nat, s1: nat, w0: int, w1: int): Job {
    DarkIsProper();
    Job(Padded(DarkSource()), DarkLines(), 0, s1, w0, w1, bd, 2, 2)
  }

  /** Around the stripe too, every pixel but that one is grey. */
  lemma DarkPadded(r: nat, c: nat)
    requires r < 8 && c < 9
    ensures Proper(DarkSource()) && Shaped(Padded(DarkSource()), 8, 9)
    ensures Padded(DarkSource())[r][c] == DarkAt(r - 4, c - 4)
  {
    hide DarkPlane, FlatPlane, Proper;
    DarkIsProper();
    var p := DarkSource();
    StripeRowExists(p, r);
    assert Padded(p)[r] == PaddedRow(p, r);
    assert Padded(p)[r][c] == PaddedPixel(p, r, c);
  }

  /** The padded stripe: grey but for one black pixel. */
  ghost predicate Spotted(s: Rows) {
    Shaped(s, 8, 9) && forall r, c :: 0 <= r < 8 && 0 <= c < 9 ==> s[r][c] == DarkAt(r - 4, c - 4)
  }

  lemma DarkIsSpotted()
    ensures Proper(DarkSource()) && Spotted(Padded(DarkSource()))
  {
    hide Padded, Proper, DarkAt, DarkSource;
    DarkPadded(0, 0);
    var s := Padded(DarkSource());
    forall r: nat, c: nat | r < 8 && c < 9 ensures s[r][c] == DarkAt(r - 4, c - 4) {
      DarkPadded(r, c);
    }
    forall r, c | 0 <= r < 8 && 0 <= c < 9 ensures s[r][c] == DarkAt(r - 4, c - 4) {
    }
  }

  lemma SpottedFits(s: Rows, bd: nat)
    requires Spotted(s) && BitDepth(bd)
    ensures forall r, c :: 0 <= r < |s| && 0 <= c < |s[r]| ==> s[r][c] <= MaxPixel(bd)
  {
  }

  lemma DarkIsReady(bd: nat, s1: nat, w0: int, w1: int)
    requires BitDepth(bd) && Pass(9, 455, s1) && -128 <= w0 <= 127 && -128 <= w1 <= 127
    ensures RunsWith(DarkJob(bd, s1, w0, w1), bd, s1, w0, w1)
    ensures Proper(DarkSource()) && DarkJob(bd, s1, w0, w1).src == Padded(DarkSource()) && Spotted(Padded(DarkSource()))
  {
    hide DarkLines, Padded, Proper, DarkSource, Spotted;
    DarkIsSpotted();
    SpottedFits(Padded(DarkSource()), bd);
    assert Shaped(Padded(DarkSource()), 8, 9) by {
      ShapedIfSpotted(Padded(DarkSource()));
    }
  }

  lemma ShapedIfSpotted(s: Rows)
    requires Spotted(s)
    ensures Shaped(s, 8, 9)
  {
  }

  lemma DarkIsReal(bd: nat, s1: nat, w0: int, w1: int)
    requires BitDepth(bd) && Pass(9, 455, s1) && -128 <= w0 <= 127 && -128 <= w1 <= 127
    ensures FromPlanes(DarkJob(bd, s1, w0, w1), DarkSource())
  {
    hide DarkPlane, FlatPlane, DarkLines, Padded, Proper;
    DarkIsProper();
  }

  lemma NinePixels(s: Rows, y: nat, x: nat)
    requires y + 3 <= |s| && forall r :: 0 <= r < |s| ==> x + 3 <= |s[r]|
    ensures BoxSum(s, y, x, 3, 3) ==
      s[y][x] + s[y][x + 1] + s[y][x + 2] + s[y + 1][x] + s[y + 1][x + 1] + s[y + 1][x + 2]
      + s[y + 2][x] + s[y + 2][x + 1] + s[y + 2][x + 2]
  {
    forall r | r == y || r == y + 1 || r == y + 2 ensures RowPart(s[r], x, 3) == s[r][x] + s[r][x + 1] + s[r][x + 2] {
      assert RowPart(s[r], x, 1) == s[r][x];
      assert RowPart(s[r], x, 2) == s[r][x] + s[r][x + 1];
    }
    hide RowPart;
    assert BoxSum(s, y, x, 1, 3) == RowPart(s[y], x, 3);
    assert BoxSum(s, y, x, 2, 3) == RowPart(s[y], x, 3) + RowPart(s[y + 1], x, 3);
  }

  lemma ThreePixels(s: Rows, r: nat, x: nat)
    requires Spotted(s) && r < 8 && x <= 6
    ensures r != 4 ==> s[r][x] + s[r][x + 1] + s[r][x + 2] == 3 * LEVEL
    ensures 2 * LEVEL <= s[r][x] + s[r][x + 1] + s[r][x + 2] <= 3 * LEVEL
  {
  }

  lemma SpottedBoxSum(s: Rows, y: nat, x: nat)
    requires Spotted(s) && y <= 5 && x <= 6
    ensures Shaped(s, 8, 9) && 8 * LEVEL <= BoxSum(s, y, x, 3, 3) <= 9 * LEVEL
  {
    ThreePixels(s, y, x);
    ThreePixels(s, y + 1, x);
    ThreePixels(s, y + 2, x);
    hide BoxSum, DarkAt;
    NinePixels(s, y, x);
  }

  /** A box whose mean is near grey: weight a, and (256 - a) times the mean. */
  ghost predicate NearGrey(a: nat, b: nat) {
    1 <= a <= 256 && 113 * (256 - a) <= b <= LEVEL * (256 - a)
  }

  lemma WeightedMean(x: nat, sum: nat)
    requires x <= 255 && 8 * LEVEL <= sum <= 9 * LEVEL
    ensures 113 * x <= (MulNat(MulNat(x, sum), 455) + 0x800) / 0x1000 <= LEVEL * x
  {
    MulMono2(x, x, 8 * LEVEL, sum);
    MulMono2(x, x, sum, 9 * LEVEL);
    assert Mul(x, 8 * LEVEL) == 1024 * x && Mul(x, 9 * LEVEL) == 1152 * x;
    var m := Mul(x, sum);
    assert Mul(m, 455) == 455 * m;
  }

  lemma DarkBox(bd: nat, s1: nat, w0: int, w1: int, y: nat, x: nat)
    requires BitDepth(bd) && Pass(9, 455, s1) && -128 <= w0 <= 127 && -128 <= w1 <= 127
    requires y <= 3 && x < 4
    ensures RunsWith(DarkJob(bd, s1, w0, w1), bd, s1, w0, w1)
    ensures var b := Box(DarkJob(bd, s1, w0, w1), 1, y, x); NearGrey(b.0, b.1)
  {
    hide Weight, Variance, BoxSum, Padded, Proper, Ready, MulNat, Spotted;
    DarkIsReady(bd, s1, w0, w1);
    SpottedBoxSum(Padded(DarkSource()), y + 2, x + 2);
    var j := DarkJob(bd, s1, w0, w1);
    assert HasBoxRow(j, 1, y);
    var b := Box(j, 1, y, x);
    WeightedMean(256 - b.0, BoxSum(j.src, y + 2, x + 2, 3, 3));
  }

  /** The radius-1 value of the pixel below the black one is within 240 of grey. */
  lemma DarkF1(bd: nat, s1: nat, w0: int, w1: int)
    requires BitDepth(bd) && Pass(9, 455, s1) && -128 <= w0 <= 127 && -128 <= w1 <= 127
    ensures RunsWith(DarkJob(bd, s1, w0, w1), bd, s1, w0, w1)
    ensures 1808 <= F1(DarkJob(bd, s1, w0, w1), 1, 0) <= 16 * LEVEL
  {
    hide Box, Ready, Padded, Proper, Spotted;
    DarkIsReady(bd, s1, w0, w1);
    var j := DarkJob(bd, s1, w0, w1);
    assert j.lines[1][0] == LEVEL;
    if s1 > 0 {
      forall y, x: nat | 1 <= y <= 3 && x < 3
        ensures HasBoxRow(j, 1, y) && NearGrey(Box(j, 1, y, x).0, Box(j, 1, y, x).1)
      {
        DarkBox(bd, s1, w0, w1, y, x);
      }
      hide DarkJob;
      CrossNearGrey(TapsAt(j, 1, 1, 0), TapsAt(j, 1, 2, 0), TapsAt(j, 1, 3, 0));
    }
  }

  ghost predicate RowNearGrey(t: Taps) {
    NearGrey(t.a0, t.b0) && NearGrey(t.a1, t.b1) && NearGrey(t.a2, t.b2)
  }

  lemma CrossNearGrey(t: Taps, m: Taps, b: Taps)
    requires RowNearGrey(t) && RowNearGrey(m) && RowNearGrey(b)
    ensures 1808 <= Cross(t, m, b, LEVEL) <= 16 * LEVEL
  {
    var wa := 3 * (t.a0 + b.a0 + t.a2 + b.a2) + 4 * (m.a0 + t.a1 + m.a1 + b.a1 + m.a2);
    assert MulNat(wa, LEVEL) == LEVEL * wa;
    hide MulNat;
  }

  /** The pixel below the black one comes out wrong by the weight, if not clamped. */
  lemma DarkSpotShows(bd: nat, s1: nat, w0: int, w1: int)
    requires BitDepth(bd) && Pass(9, 455, s1) && -128 <= w0 <= 127 && -128 <= w1 <= 127 && w0 != 0
    ensures RunsWith(DarkJob(bd, s1, w0, w1), bd, s1, w0, w1) && FromPlanes(DarkJob(bd, s1, w0, w1), DarkSource())
    ensures SharedPixel(DarkJob(bd, s1, w0, w1), 1, 0) != SpecPixel(DarkJob(bd, s1, w0, w1), 1, 0)
  {
    hide F1, Padded, Proper, Ready, FromPlanes, Mul, Spotted;
    DarkIsReady(bd, s1, w0, w1);
    DarkIsReal(bd, s1, w0, w1);
    DarkF1(bd, s1, w0, w1);
    var j := DarkJob(bd, s1, w0, w1);
    assert j.lines[0][0] == 0 && j.lines[1][0] == LEVEL;
    assert F2(j, 1, 0) == 16 * LEVEL && F2(j, 0, 0) == 0 && SharedF2(j, 1, 0) == 0;
    ShiftedByWeight(F1(j, 1, 0), w0, w1, bd);
  }

  lemma ShiftedByWeight(f1: nat, w0: int, w1: int, bd: nat)
    requires BitDepth(bd) && -128 <= w0 <= 127 && -128 <= w1 <= 127 && w0 != 0 && 1808 <= f1 <= 16 * LEVEL
    ensures RoundPixel(Weighted(0, LEVEL, f1, w0, w1), bd) != RoundPixel(Weighted(16 * LEVEL, LEVEL, f1, w0, w1), bd)
  {
    var w := 128 - w0 - w1;
    assert Mul(w0, 0) == 0 && Mul(w0, 2048) == 2048 * w0 && Mul(w1, 2048) == 2048 * w1;
    SmallProduct(w, f1 - 2048);
    assert Mul(w, f1) == 2048 * w + Mul(w, f1 - 2048);
    hide Mul;
  }

  lemma SmallProduct(w: int, d: int)
    requires -126 <= w <= 384 && -240 <= d <= 0
    ensures -92160 <= Mul(w, d) <= 30240
  {
    if w >= 0 {
      MulMono2(0, w, 0, -d);
      MulMono2(w, 384, -d, 240);
      assert Mul(w, -d) == -Mul(w, d);
    } else {
      MulMono2(0, -w, 0, -d);
      MulMono2(-w, 126, -d, 240);
      assert Mul(-w, -d) == Mul(w, d);
    }
  }
}
