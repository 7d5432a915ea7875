/** The self-guided filter on one stripe: box rows live in small rotating buffers and are
    shared between output rows, yet every pixel must come out as if all had been kept. */
module LrfStripe {
  import opened Bits
  import opened LrfIntegral
  import opened LrfArith

  type i32 = x: int | -0x8000_0000 <= x < 0x8000_0000

  // Windows of the padded source --------------------------------------------------------

  function WindowOf(s: Rows, y: nat, x: nat, m: nat, n: nat): (r: seq<nat>)
    requires y + m <= |s| && forall i :: 0 <= i < |s| ==> x + n <= |s[i]|
    ensures |r| == m * n
  {
    if m == 0 then [] else WindowOf(s, y, x, m - 1, n) + s[y + m - 1][x..x + n]
  }

  lemma {:induction false} SumJoin(a: seq<nat>, b: seq<nat>)
    ensures Sum(a + b) == Sum(a) + Sum(b) && SumSq(a + b) == SumSq(a) + SumSq(b)
    decreases |b|
  {
    hide Mul;
    if b == [] {
      assert a + b == a;
    } else {
      SumJoin(a, b[..|b| - 1]);
      assert (a + b)[..|a + b| - 1] == a + b[..|b| - 1];
    }
  }

  lemma {:induction false} SumOfRow(r: seq<nat>, x: nat, n: nat)
    requires x + n <= |r|
    ensures Sum(r[x..x + n]) == RowPart(r, x, n)
    ensures SumSq(r[x..x + n]) == RowPart(SquareRow(r), x, n)
  {
    if n > 0 {
      SumOfRow(r, x, n - 1);
      assert r[x..x + n][..n - 1] == r[x..x + (n - 1)];
    }
  }

  lemma {:induction false} SumOfWindow(s: Rows, y: nat, x: nat, m: nat, n: nat)
    requires y + m <= |s| && forall i :: 0 <= i < |s| ==> x + n <= |s[i]|
    ensures Sum(WindowOf(s, y, x, m, n)) == BoxSum(s, y, x, m, n)
    ensures SumSq(WindowOf(s, y, x, m, n)) == BoxSum(SquareRows(s), y, x, m, n)
  {
    hide Sum, SumSq;
    if m > 0 {
      SumOfWindow(s, y, x, m - 1, n);
      SumOfRow(s[y + m - 1], x, n);
      SumJoin(WindowOf(s, y, x, m - 1, n), s[y + m - 1][x..x + n]);
    } else {
      SumsOfNone();
    }
  }

  lemma SumsOfNone()
    ensures Sum([]) == 0 == SumSq([])
  {
  }

  lemma {:induction false} WindowWithin(s: Rows, y: nat, x: nat, m: nat, n: nat, max: nat)
    requires y + m <= |s| && (forall i :: 0 <= i < |s| ==> x + n <= |s[i]|)
    requires forall i, j :: 0 <= i < |s| && 0 <= j < |s[i]| ==> s[i][j] <= max
    ensures Within(WindowOf(s, y, x, m, n), max)
  {
    if m > 0 {
      WindowWithin(s, y, x, m - 1, n, max);
    }
  }

  // The filter on whole planes -----------------------------------------------------------

  /** Everything one stripe is filtered with. src is the padded source, lines the rows to
      filter; s2 and s1 are the strengths of the two passes. */
  datatype Job = Job(src: Rows, lines: Rows, s2: nat, s1: nat, w0: int, w1: int, bd: nat, w: nat, h: nat)

  ghost predicate Ready(j: Job) {
    && BitDepth(j.bd) && Pass(25, 164, j.s2) && Pass(9, 455, j.s1)
    && Shaped(j.src, EvenHeight(j.h) + 6, j.w + 7)
    && (forall r, c :: 0 <= r < |j.src| && 0 <= c < |j.src[r]| ==> j.src[r][c] <= MaxPixel(j.bd))
    && |j.lines| >= EvenHeight(j.h)
    && (forall r :: 0 <= r < |j.lines| ==> |j.lines[r]| >= j.w)
    && (forall r, c :: 0 <= r < |j.lines| && 0 <= c < |j.lines[r]| ==> j.lines[r][c] <= MaxPixel(j.bd))
    && -128 <= j.w0 <= 127 && -128 <= j.w1 <= 127
  }

  /** Box rows a pass has: the wider window ends one row earlier. */
  predicate HasBoxRow(j: Job, radius: nat, y: nat) {
    y + radius < EvenHeight(j.h) + 3
  }

  /** Box (y, x) of a pass: its blend weight and its weighted mean. Both passes centre it on
      the same pixel, so the radius-1 window starts one further in. */
  ghost function Box(j: Job, radius: nat, y: nat, x: nat): (nat, nat)
    requires Ready(j) && (radius == 1 || radius == 2)
    requires HasBoxRow(j, radius, y) && x < j.w + 2
  {
    var d, o := 2 * radius + 1, 3 - radius;
    Finish(BoxSum(SquareRows(j.src), y + o, x + o, d, d), BoxSum(j.src, y + o, x + o, d, d),
           d * d, if radius == 1 then 455 else 164, if radius == 1 then j.s1 else j.s2, j.bd)
  }

  /** Three neighbouring boxes of a row: their weights a and means b. */
  datatype Taps = Taps(a0: nat, a1: nat, a2: nat, b0: nat, b1: nat, b2: nat)

  ghost function TapsAt(j: Job, radius: nat, y: nat, x: nat): Taps
    requires Ready(j) && (radius == 1 || radius == 2) && HasBoxRow(j, radius, y) && x < j.w
  {
    var l, m, r := Box(j, radius, y, x), Box(j, radius, y, x + 1), Box(j, radius, y, x + 2);
    Taps(l.0, m.0, r.0, l.1, m.1, r.1)
  }

  /** Weights 3 in the corners and 4 on the cross of three rows. */
  function Cross(t: Taps, m: Taps, b: Taps, pixel: nat): nat {
    var a := 3 * (t.a0 + b.a0 + t.a2 + b.a2) + 4 * (m.a0 + t.a1 + m.a1 + b.a1 + m.a2);
    var b := 3 * (t.b0 + b.b0 + t.b2 + b.b2) + 4 * (m.b0 + t.b1 + m.b1 + b.b1 + m.b2);
    (MulNat(a, pixel) + b + 256) / 512
  }

  /** Weights 5, 6, 5 along each of two rows. */
  function TwoRows(t: Taps, b: Taps, pixel: nat): nat {
    var a := (5 * (t.a0 + t.a2) + 6 * t.a1) + (5 * (b.a0 + b.a2) + 6 * b.a1);
    var b := (5 * (t.b0 + t.b2) + 6 * t.b1) + (5 * (b.b0 + b.b2) + 6 * b.b1);
    (MulNat(a, pixel) + b + 256) / 512
  }

  /** The same along one row. */
  function OneRow(t: Taps, pixel: nat): nat {
    (MulNat(5 * (t.a0 + t.a2) + 6 * t.a1, pixel) + 5 * (t.b0 + t.b2) + 6 * t.b1 + 128) / 256
  }

  ghost function F1(j: Job, y: nat, x: nat): nat
    requires Ready(j) && y < j.h && x < j.w
  {
    if j.s1 == 0 then 16 * j.lines[y][x]
    else Cross(TapsAt(j, 1, y, x), TapsAt(j, 1, y + 1, x), TapsAt(j, 1, y + 2, x), j.lines[y][x])
  }

  lemma BoxRowsExist(j: Job, y: nat)
    requires y < EvenHeight(j.h)
    ensures HasBoxRow(j, 2, y) && HasBoxRow(j, 2, y + 1) && (y % 2 == 0 ==> HasBoxRow(j, 2, y + 2))
  {
  }

  /** Even rows mix the box rows y and y + 2, odd ones use box row y + 1 alone. */
  ghost function F2(j: Job, y: nat, x: nat): nat
    requires Ready(j) && y < EvenHeight(j.h) && x < j.w
  {
    BoxRowsExist(j, y);
    if j.s2 == 0 then 16 * j.lines[y][x]
    else if y % 2 == 0 then TwoRows(TapsAt(j, 2, y, x), TapsAt(j, 2, y + 2, x), j.lines[y][x])
    else OneRow(TapsAt(j, 2, y + 1, x), j.lines[y][x])
  }

  /** The projection of the two filtered values and the pixel, before rounding. */
  function Weighted(f2: nat, u: nat, f1: nat, w0: int, w1: int): int {
    Mul(w0, f2) + Mul(w1, 16 * u) + Mul(128 - w0 - w1, f1)
  }

  function RoundPixel(v: int, bd: nat): nat
    requires BitDepth(bd)
  {
    var s := (v + 1024) / 2048;
    if s < 0 then 0 else if s > MaxPixel(bd) then MaxPixel(bd) else s
  }

  /** The pixel the specification asks for. */
  ghost function SpecPixel(j: Job, y: nat, x: nat): nat
    requires Ready(j) && y < j.h && x < j.w
  {
    RoundPixel(Weighted(F2(j, y, x), j.lines[y][x], F1(j, y, x), j.w0, j.w1), j.bd)
  }

  /** What the radius-2 buffer offers row y: with that pass off, two rows share one. */
  ghost function SharedF2(j: Job, y: nat, x: nat): nat
    requires Ready(j) && y < EvenHeight(j.h) && x < j.w
  {
    if j.s2 == 0 then F2(j, y - y % 2, x) else F2(j, y, x)
  }

  /** An even row and the one after it, as the radius-2 pass computes them. */
  lemma SharedRows(j: Job, y: nat, x: nat)
    requires Ready(j) && y % 2 == 0 && y < EvenHeight(j.h) && x < j.w
    ensures y + 1 < EvenHeight(j.h) && HasBoxRow(j, 2, y + 2)
    ensures j.s2 == 0 ==> SharedF2(j, y, x) == 16 * j.lines[y][x] == SharedF2(j, y + 1, x) < 0x4_0000
    ensures j.s2 > 0 ==> SharedF2(j, y, x) == TwoRows(TapsAt(j, 2, y, x), TapsAt(j, 2, y + 2, x), j.lines[y][x])
    ensures j.s2 > 0 ==> SharedF2(j, y + 1, x) == OneRow(TapsAt(j, 2, y + 2, x), j.lines[y + 1][x])
  {
    hide TwoRows, OneRow, TapsAt;
    assert (y + 1) % 2 == 1;
  }

  ghost function SharedPixel(j: Job, y: nat, x: nat): nat
    requires Ready(j) && y < j.h && x < j.w
  {
    RoundPixel(Weighted(SharedF2(j, y, x), j.lines[y][x], F1(j, y, x), j.w0, j.w1), j.bd)
  }

  /** Sharing is harmless unless the radius-2 pass is off and still has a weight. */
  lemma SharingHarmless(j: Job, y: nat, x: nat)
    requires Ready(j) && y < j.h && x < j.w
    requires j.s2 > 0 || j.w0 == 0
    ensures SharedPixel(j, y, x) == SpecPixel(j, y, x)
  {
    hide F1, F2;
    if j.s2 == 0 {
      MulZero(F2(j, y, x));
      MulZero(SharedF2(j, y, x));
    }
  }

  /** With the pass off, the weighted value of a pixel is the specified one exactly when that
      weight is zero, or the row is the first of its pair, or the two rows agree there. */
  lemma SharingExact(j: Job, y: nat, x: nat, f1: nat)
    requires Ready(j) && y < j.h && x < j.w && j.s2 == 0
    ensures var d := j.lines[y][x];
      Weighted(SharedF2(j, y, x), d, f1, j.w0, j.w1) == Weighted(F2(j, y, x), d, f1, j.w0, j.w1)
      <==> j.w0 == 0 || j.lines[y - y % 2][x] == d
  {
    MulCancels(j.w0, SharedF2(j, y, x), F2(j, y, x));
  }

  lemma MulCancels(w: int, a: nat, b: nat)
    ensures Mul(w, a) == Mul(w, b) <==> w == 0 || a == b
  {
    if w != 0 && a != b {
      assert w * (a - b) != 0;
      assert w * (a - b) == w * a - w * b;
    }
  }

  /** The solver's weights, whatever its floating-point estimates were. */
  function SolvedWeights(s2: nat, s1: nat, estimate: (int, int)): (int, int) {
    var (xq0, xq1) := if s2 == 0 then (0, estimate.1) else if s1 == 0 then (estimate.0, 0) else estimate;
    var w0 := Clamp(xq0, -96, 31);
    (w0, Clamp(128 - w0 - xq1, -32, 95))
  }

  /** So every pixel is right for weights that come from the solver. */
  lemma SolverKeepsSharingHarmless(j: Job, estimate: (int, int), y: nat, x: nat)
    requires Ready(j) && y < j.h && x < j.w
    requires (j.w0, j.w1) == SolvedWeights(j.s2, j.s1, estimate)
    ensures SharedPixel(j, y, x) == SpecPixel(j, y, x)
  {
    SharingHarmless(j, y, x);
  }

  // Bounds ---------------------------------------------------------------------------------

  lemma BoxBounds(j: Job, radius: nat, y: nat, x: nat)
    requires Ready(j) && (radius == 1 || radius == 2)
    requires HasBoxRow(j, radius, y) && x < j.w + 2
    ensures 1 <= Box(j, radius, y, x).0 <= 256 && Box(j, radius, y, x).1 <= 0x10_0000
  {
    hide BoxSum, Sum, SumSq, WindowOf, Variance, Weight, Mul;
    var d, o := 2 * radius + 1, 3 - radius;
    SumOfWindow(j.src, y + o, x + o, d, d);
    WindowWithin(j.src, y + o, x + o, d, d, MaxPixel(j.bd));
    SumBounds(WindowOf(j.src, y + o, x + o, d, d), MaxPixel(j.bd));
    var v := Variance(BoxSum(SquareRows(j.src), y + o, x + o, d, d), BoxSum(j.src, y + o, x + o, d, d), d * d, j.bd);
    var a := Box(j, radius, y, x).0;
    var oneOverN := if radius == 1 then 455 else 164;
    WeightedSumFits(256 - a, BoxSum(j.src, y + o, x + o, d, d), d * d, oneOverN, MaxPixel(j.bd));
  }

  // The rotating buffers ---------------------------------------------------------------------

  /** Slot k of the two buffers holds box row y. */
  ghost predicate RowIn(j: Job, radius: nat, af: array2<u32>, bf: array2<u32>, k: nat, y: nat)
    requires Ready(j) && (radius == 1 || radius == 2)
    reads af, bf
  {
    && k < af.Length0 && k < bf.Length0 && j.w + 2 <= af.Length1 && j.w + 2 <= bf.Length1
    && HasBoxRow(j, radius, y)
    && forall x :: 0 <= x < j.w + 2 ==> (af[k, x], bf[k, x]) == Box(j, radius, y, x)
  }

  /** Computes a box row into a slot and leaves the other slots alone. */
  method BoxAb(j: Job, radius: nat, af: array2<u32>, bf: array2<u32>, k: nat, y: nat, img: array2<u32>, sq: array2<u32>)
    requires Ready(j) && (radius == 1 || radius == 2)
    requires af != bf && {af, bf} !! {img, sq}
    requires k < af.Length0 && k < bf.Length0 && j.w + 2 <= af.Length1 && j.w + 2 <= bf.Length1
    requires HasBoxRow(j, radius, y)
    requires Tables(j, img, sq)
    modifies af, bf
    ensures RowIn(j, radius, af, bf, k, y)
    ensures forall r, c :: 0 <= r < af.Length0 && 0 <= c < af.Length1 && r != k ==> af[r, c] == old(af[r, c])
    ensures forall r, c :: 0 <= r < bf.Length0 && 0 <= c < bf.Length1 && r != k ==> bf[r, c] == old(bf[r, c])
  {
    hide Box;
    for x := 0 to j.w + 2
      invariant Tables(j, img, sq)
      invariant forall c :: 0 <= c < x ==> (af[k, c], bf[k, c]) == Box(j, radius, y, c)
      invariant forall r, c :: 0 <= r < af.Length0 && 0 <= c < af.Length1 && r != k ==> af[r, c] == old(af[r, c])
      invariant forall r, c :: 0 <= r < bf.Length0 && 0 <= c < bf.Length1 && r != k ==> bf[r, c] == old(bf[r, c])
    {
      var a, b := BoxAt(j, radius, y, x, img, sq);
      af[k, x] := a;
      bf[k, x] := b;
    }
  }

  method BoxAt(j: Job, radius: nat, y: nat, x: nat, img: array2<u32>, sq: array2<u32>) returns (a: u32, b: u32)
    requires Ready(j) && (radius == 1 || radius == 2)
    requires HasBoxRow(j, radius, y) && x < j.w + 2
    requires Tables(j, img, sq)
    ensures (a, b) == Box(j, radius, y, x)
  {
    hide BoxSum, Sum, SumSq, WindowOf, Finish, Mul;
    var d, offset := 2 * radius + 1, 2 - radius;
    ghost var o := offset + 1;
    ghost var xs := WindowOf(j.src, y + o, x + o, d, d);
    SumOfWindow(j.src, y + o, x + o, d, d);
    WindowWithin(j.src, y + o, x + o, d, d, MaxPixel(j.bd));
    SumBounds(xs, MaxPixel(j.bd));
    LargestSquare();
    var sum := GetIntegralSquare(img, x + offset, y + offset, d, j.src, EvenHeight(j.h) + 6, j.w + 7);
    var ssq := GetIntegralSquare(sq, x + offset, y + offset, d, SquareRows(j.src), EvenHeight(j.h) + 6, j.w + 7);
    a, b := SumFinish(ssq, sum, d * d, if radius == 1 then 455 else 164, if radius == 1 then j.s1 else j.s2, j.bd, xs);
  }

  lemma LargestSquare()
    ensures Mul(255, 255) == 65025 && Mul(1023, 1023) == 1046529 && Mul(4095, 4095) == 16769025
  {
  }

  ghost predicate Small(t: Taps) {
    && t.a0 <= 256 && t.a1 <= 256 && t.a2 <= 256
    && t.b0 <= 0x10_0000 && t.b1 <= 0x10_0000 && t.b2 <= 0x10_0000
  }

  method ReadTaps(j: Job, radius: nat, af: array2<u32>, bf: array2<u32>, k: nat, ghost y: nat, x: nat) returns (t: Taps)
    requires Ready(j) && (radius == 1 || radius == 2) && RowIn(j, radius, af, bf, k, y) && x < j.w
    ensures t == TapsAt(j, radius, y, x) && Small(t)
  {
    hide Box;
    BoxBounds(j, radius, y, x);
    BoxBounds(j, radius, y, x + 1);
    BoxBounds(j, radius, y, x + 2);
    t := Taps(af[k, x], af[k, x + 1], af[k, x + 2], bf[k, x], bf[k, x + 1], bf[k, x + 2]);
  }

  /** The filtered values fit in 32 bits on the way, and in 18 bits at the end. */
  lemma FilteredFits(a: nat, b: nat, pixel: nat)
    requires a <= 32 * 256 && b <= 32 * 0x10_0000 && pixel <= 4095
    ensures 0 <= Mul(a, pixel) && Mul(a, pixel) + b + 256 < 0x1_0000_0000
    ensures (Mul(a, pixel) + b + 256) / 512 < 0x4_0000
    ensures a <= 16 * 256 && b <= 16 * 0x10_0000 ==> (Mul(a, pixel) + b + 128) / 256 < 0x4_0000
  {
    MulMono2(a, 32 * 256, pixel, 4095);
    MulNonNegative(a, pixel);
    assert Mul(32 * 256, 4095) == 33546240;
    if a <= 16 * 256 {
      MulMono2(a, 16 * 256, pixel, 4095);
      assert Mul(16 * 256, 4095) == 16773120;
    }
  }

  /** One row of the radius-1 pass, or the source row if the pass is off. */
  method BoxF1(j: Job, af: array2<u32>, bf: array2<u32>, y: nat) returns (f: seq<u32>)
    requires Ready(j) && y < j.h
    requires j.s1 > 0 ==>
      && RowIn(j, 1, af, bf, y % 3, y) && RowIn(j, 1, af, bf, (y + 1) % 3, y + 1)
      && RowIn(j, 1, af, bf, (y + 2) % 3, y + 2)
    ensures |f| == j.w && forall x :: 0 <= x < j.w ==> f[x] == F1(j, y, x) < 0x4_0000
  {
    hide RowIn, TapsAt, Mul;
    f := [];
    for x := 0 to j.w
      invariant |f| == x && forall c :: 0 <= c < x ==> f[c] == F1(j, y, c) < 0x4_0000
    {
      var pixel := j.lines[y][x];
      if j.s1 > 0 {
        var t := ReadTaps(j, 1, af, bf, y % 3, y, x);
        var m := ReadTaps(j, 1, af, bf, (y + 1) % 3, y + 1, x);
        var b := ReadTaps(j, 1, af, bf, (y + 2) % 3, y + 2, x);
        var v := CrossOf(t, m, b, pixel);
        f := f + [v];
      } else {
        f := f + [16 * pixel];
      }
    }
  }

  method CrossOf(t: Taps, m: Taps, b: Taps, pixel: nat) returns (f: u32)
    requires Small(t) && Small(m) && Small(b) && pixel <= 4095
    ensures f == Cross(t, m, b, pixel) < 0x4_0000
  {
    hide Mul;
    var wa: u32 := 3 * (t.a0 + b.a0 + t.a2 + b.a2) + 4 * (m.a0 + t.a1 + m.a1 + b.a1 + m.a2);
    var wb: u32 := 3 * (t.b0 + b.b0 + t.b2 + b.b2) + 4 * (m.b0 + t.b1 + m.b1 + b.b1 + m.b2);
    FilteredFits(wa, wb, pixel);
    var v: u32 := MulNat(wa, pixel) + wb;
    f := (v + 256) / 512;
  }

  method TwoRowsOf(t: Taps, b: Taps, pixel: nat, below: nat) returns (f: u32, g: u32)
    requires Small(t) && Small(b) && pixel <= 4095 && below <= 4095
    ensures f == TwoRows(t, b, pixel) < 0x4_0000 && g == OneRow(b, below) < 0x4_0000
  {
    hide Mul;
    var wa: u32, wb: u32 := 5 * (t.a0 + t.a2) + 6 * t.a1, 5 * (t.b0 + t.b2) + 6 * t.b1;
    var wao: u32, wbo: u32 := 5 * (b.a0 + b.a2) + 6 * b.a1, 5 * (b.b0 + b.b2) + 6 * b.b1;
    FilteredFits(wa + wao, wb + wbo, pixel);
    FilteredFits(wao, wbo, below);
    var v: u32 := MulNat(wa + wao, pixel) + wb + wbo;
    f := (v + 256) / 512;
    var vo: u32 := MulNat(wao, below) + wbo;
    g := (vo + 128) / 256;
  }

  /** The beginning of a row of the radius-2 pass. */
  ghost predicate RowF2(j: Job, y: nat, f: seq<u32>)
    requires Ready(j) && y < EvenHeight(j.h) && |f| <= j.w
  {
    forall x :: 0 <= x < |f| ==> f[x] == SharedF2(j, y, x) < 0x4_0000
  }

  /** Two rows of the radius-2 pass at once; with the pass off, the second is never computed. */
  method BoxF2(j: Job, af: array2<u32>, bf: array2<u32>, y: nat) returns (f0: seq<u32>, f1: seq<u32>)
    requires Ready(j) && y % 2 == 0 && y < j.h
    requires j.s2 > 0 ==> RowIn(j, 2, af, bf, (y / 2) % 2, y) && RowIn(j, 2, af, bf, (y / 2 + 1) % 2, y + 2)
    ensures |f0| == j.w == |f1| && RowF2(j, y, f0) && RowF2(j, y + 1, f1)
  {
    hide RowIn, TapsAt, Mul, SharedF2, TwoRows, OneRow;
    f0, f1 := [], [];
    for x := 0 to j.w
      invariant |f0| == x == |f1| && y + 1 < EvenHeight(j.h)
      invariant RowF2(j, y, f0) && RowF2(j, y + 1, f1)
    {
      SharedRows(j, y, x);
      if j.s2 > 0 {
        var t := ReadTaps(j, 2, af, bf, (y / 2) % 2, y, x);
        var b := ReadTaps(j, 2, af, bf, (y / 2 + 1) % 2, y + 2, x);
        var v, vo := TwoRowsOf(t, b, j.lines[y][x], j.lines[y + 1][x]);
        f0 := f0 + [v];
        f1 := f1 + [vo];
      } else {
        f0 := f0 + [16 * j.lines[y][x]];
        f1 := f1 + [16 * j.lines[y][x]];
      }
    }
  }

  /** Projects and rounds one row. */
  method ApplyFilter(j: Job, out: array2<nat>, y: nat, f1: seq<u32>, f2: seq<u32>)
    requires Ready(j) && y < j.h && j.h <= out.Length0 && j.w <= out.Length1
    requires |f1| == j.w == |f2| && RowF2(j, y, f2)
    requires forall x :: 0 <= x < j.w ==> f1[x] == F1(j, y, x) < 0x4_0000
    modifies out
    ensures forall x :: 0 <= x < j.w ==> out[y, x] == SharedPixel(j, y, x)
    ensures forall r, c :: 0 <= r < out.Length0 && 0 <= c < out.Length1 && r != y ==> out[r, c] == old(out[r, c])
  {
    hide F1, F2, Mul;
    for x := 0 to j.w
      invariant forall c :: 0 <= c < x ==> out[y, c] == SharedPixel(j, y, c)
      invariant forall r, c :: 0 <= r < out.Length0 && 0 <= c < out.Length1 && r != y ==> out[r, c] == old(out[r, c])
    {
      var u := j.lines[y][x];
      WeightedFits(f2[x], u, f1[x], j.w0, j.w1);
      var v: i32 := Mul(j.w0, f2[x]) + Mul(j.w1, 16 * u) + Mul(128 - j.w0 - j.w1, f1[x]);
      out[y, x] := RoundPixel(v, j.bd);
    }
  }

  lemma WeightedFits(f2: nat, u: nat, f1: nat, w0: int, w1: int)
    requires f2 < 0x4_0000 && f1 < 0x4_0000 && u <= 4095 && -128 <= w0 <= 127 && -128 <= w1 <= 127
    ensures -0x4000_0000 <= Mul(w0, f2) + Mul(w1, 16 * u) + Mul(128 - w0 - w1, f1) <= 0x4000_0000
  {
    ProductBound(w0, 512, f2);
    ProductBound(w1, 512, 16 * u);
    ProductBound(128 - w0 - w1, 512, f1);
  }

  lemma ProductBound(w: int, m: nat, x: nat)
    requires 0 - m <= w <= m && x < 0x4_0000
    ensures 0 - m * 0x4_0000 <= Mul(w, x) <= m * 0x4_0000
  {
    if w >= 0 {
      MulMono2(w, m, x, 0x4_0000);
      MulNonNegative(w, x);
    } else {
      MulMono2(-w, m, x, 0x4_0000);
      MulNonNegative(-w, x);
      assert Mul(-w, x) == -Mul(w, x);
    }
  }

  /** Two rows at a time, odd heights included: however the row buffers rotate, every pixel
      is the one computed from whole planes of box rows (and the specified one for any
      weights the solver gives). */
  method StripeFilter(j: Job, img: array2<u32>, sq: array2<u32>, out: array2<nat>)
    requires Ready(j) && j.h <= out.Length0 && j.w <= out.Length1
    requires Tables(j, img, sq)
    modifies out
    ensures forall y, x :: 0 <= y < j.h && 0 <= x < j.w ==> out[y, x] == SharedPixel(j, y, x)
    ensures j.s2 > 0 || j.w0 == 0 ==> forall y, x :: 0 <= y < j.h && 0 <= x < j.w ==> out[y, x] == SpecPixel(j, y, x)
  {
    hide RowIn, SharedPixel, SpecPixel, F1, F2, Tables, Ready, Primed;
    var a1, b1, a2, b2 := Prime(j, img, sq);
    var y := 0;
    while y < j.h
      invariant y % 2 == 0 && y <= EvenHeight(j.h)
      invariant fresh(a1) && fresh(b1) && fresh(a2) && fresh(b2)
      invariant Buffers(j, a1, b1, a2, b2) && Tables(j, img, sq)
      invariant y < j.h ==> Primed(j, a1, b1, a2, b2, y)
      invariant forall r, c :: 0 <= r < y && r < j.h && 0 <= c < j.w ==> out[r, c] == SharedPixel(j, r, c)
    {
      FilterPair(j, img, sq, a1, b1, a2, b2, out, y);
      y := y + 2;
    }
    if j.s2 > 0 || j.w0 == 0 {
      forall r, c | 0 <= r < j.h && 0 <= c < j.w ensures out[r, c] == SpecPixel(j, r, c) {
        SharingHarmless(j, r, c);
      }
    }
  }

  /** The buffers, with the box rows the first output row will find in them. */
  method Prime(j: Job, img: array2<u32>, sq: array2<u32>)
      returns (a1: array2<u32>, b1: array2<u32>, a2: array2<u32>, b2: array2<u32>)
    requires Ready(j) && Tables(j, img, sq)
    ensures fresh(a1) && fresh(b1) && fresh(a2) && fresh(b2)
    ensures Buffers(j, a1, b1, a2, b2) && Primed(j, a1, b1, a2, b2, 0)
  {
    hide RowIn, Tables, Ready;
    a2, b2 := new u32[2, j.w + 2]((_, _) => 0), new u32[2, j.w + 2]((_, _) => 0);
    a1, b1 := new u32[3, j.w + 2]((_, _) => 0), new u32[3, j.w + 2]((_, _) => 0);
    if j.s2 > 0 {
      BoxAb(j, 2, a2, b2, 0, 0, img, sq);
    }
    if j.s1 > 0 {
      BoxAb(j, 1, a1, b1, 0, 0, img, sq);
      NextRow(j, 1, a1, b1, 1, 1, img, sq, 0, 0, 0, 0);
    }
  }

  ghost predicate Tables(j: Job, img: array2<u32>, sq: array2<u32>)
    reads img, sq
  {
    && IsIntegral(img, j.src, EvenHeight(j.h) + 6, j.w + 7)
    && IsIntegral(sq, SquareRows(j.src), EvenHeight(j.h) + 6, j.w + 7)
  }

  /** Before output row y: the box rows that earlier rows have left for it. */
  ghost predicate Primed(j: Job, a1: array2<u32>, b1: array2<u32>, a2: array2<u32>, b2: array2<u32>, y: nat)
    requires Ready(j)
    reads a1, b1, a2, b2
  {
    && (j.s2 > 0 ==> RowIn(j, 2, a2, b2, (y / 2) % 2, y))
    && (j.s1 > 0 ==> Primed1(j, a1, b1, y))
  }

  ghost predicate Primed1(j: Job, a1: array2<u32>, b1: array2<u32>, y: nat)
    requires Ready(j)
    reads a1, b1
  {
    RowIn(j, 1, a1, b1, y % 3, y) && RowIn(j, 1, a1, b1, (y + 1) % 3, y + 1)
  }

  method FilterPair(j: Job, img: array2<u32>, sq: array2<u32>, a1: array2<u32>, b1: array2<u32>, a2: array2<u32>,
                    b2: array2<u32>, out: array2<nat>, y: nat)
    requires Ready(j) && Buffers(j, a1, b1, a2, b2) && Tables(j, img, sq) && {a1, b1, a2, b2} !! {img, sq}
    requires y % 2 == 0 && y < j.h <= out.Length0 && j.w <= out.Length1
    requires Primed(j, a1, b1, a2, b2, y)
    modifies a1, b1, a2, b2, out
    ensures y + 2 < j.h ==> Primed(j, a1, b1, a2, b2, y + 2)
    ensures forall r, c :: y <= r < y + 2 && r < j.h && 0 <= c < j.w ==> out[r, c] == SharedPixel(j, r, c)
    ensures forall r, c :: 0 <= r < y && 0 <= c < j.w ==> out[r, c] == old(out[r, c])
  {
    hide RowIn, SharedPixel, SharedF2, F1, F2, Tables, Ready, Primed1;
    if j.s2 > 0 {
      NextRow(j, 2, a2, b2, (y / 2 + 1) % 2, y + 2, img, sq, (y / 2) % 2, y, (y / 2) % 2, y);
    }
    var f20, f21 := BoxF2(j, a2, b2, y);
    for dy := 0 to if j.h - y < 2 then j.h - y else 2
      invariant Tables(j, img, sq)
      invariant j.s2 > 0 ==> RowIn(j, 2, a2, b2, (y / 2 + 1) % 2, y + 2)
      invariant j.s1 > 0 ==> Primed1(j, a1, b1, y + dy)
      invariant forall r, c :: y <= r < y + dy && 0 <= c < j.w ==> out[r, c] == SharedPixel(j, r, c)
      invariant forall r, c :: 0 <= r < y && 0 <= c < j.w ==> out[r, c] == old(out[r, c])
    {
      var f2 := if dy == 0 then f20 else f21;
      assert y + dy == if dy == 0 then y else y + 1;
      forall x | 0 <= x < j.w ensures f2[x] == SharedF2(j, y + dy, x) < 0x4_0000 {
        assert f20[x] == SharedF2(j, y, x) < 0x4_0000 && f21[x] == SharedF2(j, y + 1, x) < 0x4_0000;
      }
      FilterRow(j, img, sq, a1, b1, out, y + dy, f2);
    }
    assert (y + 2) / 2 == y / 2 + 1;
  }

  method FilterRow(j: Job, img: array2<u32>, sq: array2<u32>, a1: array2<u32>, b1: array2<u32>, out: array2<nat>,
                   y: nat, f2: seq<u32>)
    requires Ready(j) && Tables(j, img, sq) && {a1, b1} !! {img, sq} && a1 != b1
    requires a1.Length0 == b1.Length0 == 3 && a1.Length1 == b1.Length1 == j.w + 2
    requires y < j.h <= out.Length0 && j.w <= out.Length1
    requires j.s1 > 0 ==> Primed1(j, a1, b1, y)
    requires |f2| == j.w && RowF2(j, y, f2)
    modifies a1, b1, out
    ensures j.s1 > 0 ==> Primed1(j, a1, b1, y + 1)
    ensures forall c :: 0 <= c < j.w ==> out[y, c] == SharedPixel(j, y, c)
    ensures forall r, c :: 0 <= r < out.Length0 && 0 <= c < out.Length1 && r != y ==> out[r, c] == old(out[r, c])
  {
    hide RowIn, SharedPixel, SharedF2, F1, Tables, Ready;
    if j.s1 > 0 {
      NextRow(j, 1, a1, b1, (y + 2) % 3, y + 2, img, sq, y % 3, y, (y + 1) % 3, y + 1);
    }
    var f1 := BoxF1(j, a1, b1, y);
    ApplyFilter(j, out, y, f1, f2);
  }

  ghost predicate Buffers(j: Job, a1: array2<u32>, b1: array2<u32>, a2: array2<u32>, b2: array2<u32>)
  {
    && a1 != b1 && a2 != b2 && a1 != a2 && a1 != b2 && b1 != a2 && b1 != b2
    && a1.Length0 == b1.Length0 == 3 && a2.Length0 == b2.Length0 == 2
    && a1.Length1 == b1.Length1 == a2.Length1 == b2.Length1 == j.w + 2
  }

  /** Overwrites one slot; two rows in other slots stay where they are. */
  method NextRow(j: Job, radius: nat, af: array2<u32>, bf: array2<u32>, k: nat, y: nat,
                 img: array2<u32>, sq: array2<u32>, ghost k1: nat, ghost y1: nat, ghost k2: nat, ghost y2: nat)
    requires Ready(j) && (radius == 1 || radius == 2)
    requires af != bf && {af, bf} !! {img, sq}
    requires k < af.Length0 && k < bf.Length0 && j.w + 2 <= af.Length1 && j.w + 2 <= bf.Length1
    requires HasBoxRow(j, radius, y) && Tables(j, img, sq)
    requires k1 != k && RowIn(j, radius, af, bf, k1, y1) && k2 != k && RowIn(j, radius, af, bf, k2, y2)
    modifies af, bf
    ensures RowIn(j, radius, af, bf, k, y)
    ensures RowIn(j, radius, af, bf, k1, y1) && RowIn(j, radius, af, bf, k2, y2)
  {
    BoxAb(j, radius, af, bf, k, y, img, sq);
  }

  /** Both steps in turn, as the encoder calls them: whatever the tables held before, each
      pixel is filtered from the true sums over the padded source. */
  method SetupAndFilter(p: Source, j: Job, img: array2<u32>, sq: array2<u32>, out: array2<nat>)
    requires Proper(p) && Ready(j) && j.src == Padded(p) && j.h == p.stripeH && j.w == p.stripeW
    requires img != sq && PaddedHeight(p) <= img.Length0 && PaddedWidth(p) <= img.Length1
    requires PaddedHeight(p) <= sq.Length0 && PaddedWidth(p) <= sq.Length1
    requires j.h <= out.Length0 && j.w <= out.Length1
    modifies img, sq, out
    ensures forall y, x :: 0 <= y < j.h && 0 <= x < j.w ==> out[y, x] == SharedPixel(j, y, x)
    ensures j.s2 > 0 || j.w0 == 0 ==> forall y, x :: 0 <= y < j.h && 0 <= x < j.w ==> out[y, x] == SpecPixel(j, y, x)
  {
    hide SharedPixel, SpecPixel, IsIntegral, Proper, Padded;
    SetupIntegralImage(img, sq, p);
    StripeFilter(j, img, sq, out);
  }
}
