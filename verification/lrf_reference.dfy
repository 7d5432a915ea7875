/** What the self-guided filter reads and how it weighs it, said without the tables: each pixel
    depends on its own neighbourhood only, and the box values around it are weighed as the
    self-guided filter of the AV1 specification weighs them. */
module LrfReference {
  import opened Bits
  import opened LrfIntegral
  import opened LrfArith
  import opened LrfStripe

  // Each pixel from its own neighbourhood --------------------------------------------------------

  /** Two sources agree up to dr rows and dc columns from a position. */
  ghost predicate SameAround(s: Rows, t: Rows, row: int, column: int, dr: nat, dc: nat) {
    forall r, c :: row - dr <= r <= row + dr && column - dc <= c <= column + dc ==>
      0 <= r < |s| && r < |t| && 0 <= c < |s[r]| && c < |t[r]| ==> s[r][c] == t[r][c]
  }

  lemma {:induction false} RowPartSame(a: seq<nat>, b: seq<nat>, x: nat, n: nat)
    requires x + n <= |a| && x + n <= |b| && forall i :: x <= i < x + n ==> a[i] == b[i]
    ensures RowPart(a, x, n) == RowPart(b, x, n)
  {
    if n == 0 {
    } else {
      RowPartSame(a, b, x, n - 1);
    }
  }

  lemma {:induction false} BoxSumSame(s: Rows, t: Rows, y: nat, x: nat, m: nat, n: nat)
    requires y + m <= |s| && y + m <= |t|
    requires (forall r :: 0 <= r < |s| ==> x + n <= |s[r]|) && (forall r :: 0 <= r < |t| ==> x + n <= |t[r]|)
    requires forall r, c :: y <= r < y + m && x <= c < x + n ==> s[r][c] == t[r][c]
    ensures BoxSum(s, y, x, m, n) == BoxSum(t, y, x, m, n)
  {
    hide RowPart;
    if m == 0 {
    } else {
      BoxSumSame(s, t, y, x, m - 1, n);
      RowPartSame(s[y + m - 1], t[y + m - 1], x, n);
    }
  }

  /** Two jobs that differ in nothing but pixels. */
  ghost predicate Alike(j: Job, k: Job) {
    Ready(j) && Ready(k) && j.(src := k.src, lines := k.lines) == k
  }

  /** A box depends on the pixels up to its radius around its centre, which is three rows and
      columns into the padded source. */
  lemma BoxIsCentred(j: Job, k: Job, radius: nat, y: nat, x: nat)
    requires Alike(j, k) && (radius == 1 || radius == 2) && HasBoxRow(j, radius, y) && x < j.w + 2
    requires SameAround(j.src, k.src, y + 3, x + 3, radius, radius)
    ensures HasBoxRow(k, radius, y) && Box(j, radius, y, x) == Box(k, radius, y, x)
  {
    hide BoxSum, Finish, RowPart;
    var d, o := 2 * radius + 1, 3 - radius;
    BoxSumSame(j.src, k.src, y + o, x + o, d, d);
    BoxSumSame(SquareRows(j.src), SquareRows(k.src), y + o, x + o, d, d);
  }

  lemma SameCloser(s: Rows, t: Rows, row: int, column: int, dr: nat, dc: nat,
                   row': int, column': int, dr': nat, dc': nat)
    requires SameAround(s, t, row, column, dr, dc)
    requires row - dr <= row' - dr' && row' + dr' <= row + dr
    requires column - dc <= column' - dc' && column' + dc' <= column + dc
    ensures SameAround(s, t, row', column', dr', dc')
  {
  }

  lemma TapsAreCentred(j: Job, k: Job, radius: nat, y: nat, x: nat)
    requires Alike(j, k) && (radius == 1 || radius == 2) && HasBoxRow(j, radius, y) && x < j.w
    requires SameAround(j.src, k.src, y + 3, x + 4, radius, radius + 1)
    ensures HasBoxRow(k, radius, y) && TapsAt(j, radius, y, x) == TapsAt(k, radius, y, x)
  {
    hide Box, SameAround, Ready;
    SameCloser(j.src, k.src, y + 3, x + 4, radius, radius + 1, y + 3, x + 3, radius, radius);
    SameCloser(j.src, k.src, y + 3, x + 4, radius, radius + 1, y + 3, x + 1 + 3, radius, radius);
    SameCloser(j.src, k.src, y + 3, x + 4, radius, radius + 1, y + 3, x + 2 + 3, radius, radius);
    BoxIsCentred(j, k, radius, y, x);
    BoxIsCentred(j, k, radius, y, x + 1);
    BoxIsCentred(j, k, radius, y, x + 2);
  }

  /** Box row y + i of a pass, for the pixel in row y. */
  lemma TapsNear(j: Job, k: Job, radius: nat, y: nat, x: nat, i: nat, d: nat)
    requires Alike(j, k) && (radius == 1 || radius == 2) && i <= 2 && HasBoxRow(j, radius, y + i) && x < j.w
    requires SameAround(j.src, k.src, y + 4, x + 4, d, d) && radius + 1 <= d
    ensures HasBoxRow(k, radius, y + i) && TapsAt(j, radius, y + i, x) == TapsAt(k, radius, y + i, x)
  {
    hide TapsAt, SameAround, Ready;
    SameCloser(j.src, k.src, y + 4, x + 4, d, d, y + i + 3, x + 4, radius, radius + 1);
    TapsAreCentred(j, k, radius, y + i, x);
  }

  /** A filtered pixel depends on the pixel itself and on the source up to two pixels around it,
      three if the radius-2 pass is on. */
  lemma PixelIsLocal(j: Job, k: Job, y: nat, x: nat)
    requires Alike(j, k) && y < j.h && x < j.w && j.lines[y][x] == k.lines[y][x]
    requires var d := if j.s2 == 0 then 2 else 3; SameAround(j.src, k.src, y + 4, x + 4, d, d)
    ensures SpecPixel(j, y, x) == SpecPixel(k, y, x)
  {
    hide TapsAt, SameAround, Ready, Cross, TwoRows, OneRow, Weighted, RoundPixel;
    var d := if j.s2 == 0 then 2 else 3;
    if j.s1 > 0 {
      TapsNear(j, k, 1, y, x, 0, d);
      TapsNear(j, k, 1, y, x, 1, d);
      TapsNear(j, k, 1, y, x, 2, d);
    }
    assert F1(j, y, x) == F1(k, y, x);
    if j.s2 > 0 {
      BoxRowsExist(j, y);
      if y % 2 == 0 {
        TapsNear(j, k, 2, y, x, 0, d);
        TapsNear(j, k, 2, y, x, 2, d);
      } else {
        TapsNear(j, k, 2, y, x, 1, d);
      }
    }
    assert F2(j, y, x) == F2(k, y, x);
  }

  // The filter as worded -------------------------------------------------------------------------

  /** Division by 2^n, rounded to nearest. */
  function Round2(x: int, n: nat): int {
    ShlAtLeast(1, n);
    if n == 0 then x else (x + Pow2(n - 1)) / Pow2(n)
  }

  const SGR_BITS := 8
  const MTABLE_BITS := 20
  const RECIP_BITS := 12
  const RST_BITS := 4
  const PRJ_BITS := 7

  /** The share z / (z + 1) in 1/256, but never none and all of it from 255 on. */
  function Blend(z: int): int {
    if z >= 255 then 256 else if z <= 0 then 1 else (z * 256 + z / 2) / (z + 1)
  }

  /** Weight and weighted mean of n pixels, from their sum and the sum of their squares. */
  function WordedFinish(ssq: nat, sum: nat, n: nat, s: nat, bd: nat): (int, int)
    requires BitDepth(bd) && n > 0
  {
    var a, m := Round2(ssq, 2 * (bd - 8)), Round2(sum, bd - 8);
    var p := Mul(a, n) - Mul(m, m);
    var z := Round2(Mul(if p < 0 then 0 else p, s), MTABLE_BITS);
    var weight := Blend(z);
    (weight, Round2(Mul(Mul(256 - weight, sum), (4096 + n / 2) / n), RECIP_BITS))
  }

  /** The same for the square window around a position of the stripe, one row or column outside
      it included. */
  ghost function WordedBox(j: Job, radius: nat, row: int, column: int): (int, int)
    requires Ready(j) && (radius == 1 || radius == 2)
    requires row >= -1 && HasBoxRow(j, radius, row + 1) && -1 <= column <= j.w
  {
    var y, x, d := row + 4 - radius, column + 4 - radius, 2 * radius + 1;
    WordedFinish(BoxSum(SquareRows(j.src), y, x, d, d), BoxSum(j.src, y, x, d, d), if radius == 2 then 25 else 9,
                 if radius == 2 then j.s2 else j.s1, j.bd)
  }

  /** What a neighbouring box counts: 4 on the cross and 3 in the corners; or only boxes of odd
      rows, 6 in the pixel's column and 5 beside it. */
  function CellWeight(radius: nat, row: int, dy: int, dx: int): nat {
    if radius == 1 then (if dx == 0 || dy == 0 then 4 else 3)
    else if (row + dy) % 2 == 0 then 0 else if dx == 0 then 6 else 5
  }

  /** Three boxes of a row, weighed. */
  ghost function WordedRow(j: Job, radius: nat, row: nat, x: nat, dy: int): (int, int)
    requires Ready(j) && (radius == 1 || radius == 2) && -1 <= dy <= 1 && x < j.w
    requires CellWeight(radius, row, dy, 0) > 0 ==> HasBoxRow(j, radius, row + dy + 1)
  {
    if CellWeight(radius, row, dy, 0) == 0 then (0, 0)
    else
      var l, m, r := WordedBox(j, radius, row + dy, x - 1), WordedBox(j, radius, row + dy, x),
                     WordedBox(j, radius, row + dy, x + 1);
      var side, middle := CellWeight(radius, row, dy, -1), CellWeight(radius, row, dy, 0);
      (side * l.0 + middle * m.0 + side * r.0, side * l.1 + middle * m.1 + side * r.1)
  }

  ghost predicate RowsExist(j: Job, radius: nat, row: nat) {
    forall dy :: -1 <= dy <= 1 && CellWeight(radius, row, dy, 0) > 0 ==> HasBoxRow(j, radius, row + dy + 1)
  }

  ghost function PixelIn(j: Job, y: nat, x: nat): nat
    requires Ready(j) && y < j.h && x < j.w
  {
    j.lines[y][x]
  }

  /** A pass's value of a pixel, with four more bits. */
  ghost function WordedPass(j: Job, radius: nat, y: nat, x: nat): int
    requires Ready(j) && (radius == 1 || radius == 2) && y < j.h && x < j.w && RowsExist(j, radius, y)
  {
    var t, m, b := WordedRow(j, radius, y, x, -1), WordedRow(j, radius, y, x, 0), WordedRow(j, radius, y, x, 1);
    var shift := if radius == 2 && y % 2 == 1 then 4 else 5;
    Round2(Mul(t.0 + m.0 + b.0, PixelIn(j, y, x)) + (t.1 + m.1 + b.1), SGR_BITS + shift - RST_BITS)
  }

  lemma WordedRowsExist(j: Job, y: nat)
    requires y < j.h
    ensures RowsExist(j, 1, y) && RowsExist(j, 2, y)
  {
  }

  /** Each pass, or the pixel itself where it is off, counts with its weight. */
  ghost function WordedPixel(j: Job, y: nat, x: nat): int
    requires Ready(j) && y < j.h && x < j.w
  {
    WordedRowsExist(j, y);
    var u := 16 * PixelIn(j, y, x);
    var f0 := if j.s2 == 0 then u else WordedPass(j, 2, y, x);
    var f1 := if j.s1 == 0 then u else WordedPass(j, 1, y, x);
    var v := Mul(j.w0, f0) + Mul(j.w1, u) + Mul(128 - j.w0 - j.w1, f1);
    Clamp(Round2(v, RST_BITS + PRJ_BITS), 0, Pow2(j.bd) - 1)
  }

  lemma Powers()
    ensures Pow2(0) == 1 && Pow2(1) == 2 && Pow2(2) == 4 && Pow2(3) == 8 && Pow2(4) == 16 && Pow2(7) == 128
    ensures Pow2(8) == 256 && Pow2(9) == 512 && Pow2(10) == 1024 && Pow2(11) == 2048 && Pow2(12) == 4096
    ensures Pow2(19) == 0x8_0000 && Pow2(20) == 0x10_0000
  {
    Pow2Values();
    assert Pow2(5) == 32 && Pow2(17) == 0x2_0000 && Pow2(19) == 4 * Pow2(17);
  }

  lemma RoundedAsWorded(x: nat, bd: nat)
    requires BitDepth(bd)
    ensures RoundSsq(x, bd) == Round2(x, 2 * (bd - 8)) && RoundSum(x, bd) == Round2(x, bd - 8)
  {
    Powers();
    hide Shl;
    assert Scale(8) == 1 && Scale(10) == 4 && Scale(12) == 16;
  }

  lemma FinishIsWorded(ssq: nat, sum: nat, n: nat, s: nat, bd: nat)
    requires BitDepth(bd) && (n == 9 || n == 25)
    ensures Finish(ssq, sum, n, if n == 9 then 455 else 164, s, bd) == WordedFinish(ssq, sum, n, s, bd)
  {
    hide RoundSsq, RoundSum, Mul, Round2, Weight, Blend;
    RoundedAsWorded(ssq, bd);
    RoundedAsWorded(sum, bd);
    var v := Variance(ssq, sum, n, bd);
    var p := if v < 0 then 0 else v;
    MulNonNegative(p, s);
    LargeRounds(Mul(p, s));
    var z := Round2(Mul(p, s), MTABLE_BITS);
    BlendIsWeight(z);
    LargeRounds(Mul(Mul(256 - Weight(z), sum), if n == 9 then 455 else 164));
    MulNonNegative(256 - Weight(z), sum);
    MulNonNegative(Mul(256 - Weight(z), sum), if n == 9 then 455 else 164);
  }

  lemma LargeRounds(x: int)
    ensures Round2(x, MTABLE_BITS) == (x + 0x8_0000) / 0x10_0000 && Round2(x, RECIP_BITS) == (x + 0x800) / 0x1000
    ensures Round2(x, 8) == (x + 128) / 256 && Round2(x, 9) == (x + 256) / 512 && Round2(x, 11) == (x + 1024) / 2048
  {
    Powers();
  }

  lemma BlendIsWeight(z: int)
    requires z >= 0
    ensures Blend(z) == Weight(z)
  {
  }

  /** Weight and mean are those worded. */
  lemma BoxIsWorded(j: Job, radius: nat, y: nat, x: nat)
    requires Ready(j) && (radius == 1 || radius == 2) && HasBoxRow(j, radius, y) && x < j.w + 2
    ensures Box(j, radius, y, x) == WordedBox(j, radius, y - 1, x - 1)
  {
    hide BoxSum, Finish, WordedFinish;
    var d, o := 2 * radius + 1, 3 - radius;
    FinishIsWorded(BoxSum(SquareRows(j.src), y + o, x + o, d, d), BoxSum(j.src, y + o, x + o, d, d),
      if radius == 2 then 25 else 9, if radius == 2 then j.s2 else j.s1, j.bd);
  }

  /** Three neighbouring boxes with these weights. */
  lemma RowIsWorded(j: Job, radius: nat, y: nat, x: nat, dy: int)
    requires Ready(j) && (radius == 1 || radius == 2) && -1 <= dy <= 1 && y < j.h && x < j.w
    requires CellWeight(radius, y, dy, 0) > 0 && HasBoxRow(j, radius, y + dy + 1)
    ensures var t := TapsAt(j, radius, y + dy + 1, x);
      var side, middle := CellWeight(radius, y, dy, -1), CellWeight(radius, y, dy, 0);
      WordedRow(j, radius, y, x, dy) == (side * (t.a0 + t.a2) + middle * t.a1, side * (t.b0 + t.b2) + middle * t.b1)
  {
    hide Box, WordedBox, Ready;
    BoxIsWorded(j, radius, y + dy + 1, x);
    BoxIsWorded(j, radius, y + dy + 1, x + 1);
    BoxIsWorded(j, radius, y + dy + 1, x + 2);
  }

  lemma CrossIsWorded(t: Taps, m: Taps, b: Taps, pixel: nat)
    ensures Cross(t, m, b, pixel) == Round2(
      Mul((3 * (t.a0 + t.a2) + 4 * t.a1) + (4 * (m.a0 + m.a2) + 4 * m.a1) + (3 * (b.a0 + b.a2) + 4 * b.a1), pixel)
      + ((3 * (t.b0 + t.b2) + 4 * t.b1) + (4 * (m.b0 + m.b2) + 4 * m.b1) + (3 * (b.b0 + b.b2) + 4 * b.b1)), 9)
  {
    hide Mul, Round2;
    LargeRounds(
      Mul((3 * (t.a0 + t.a2) + 4 * t.a1) + (4 * (m.a0 + m.a2) + 4 * m.a1) + (3 * (b.a0 + b.a2) + 4 * b.a1), pixel)
      + ((3 * (t.b0 + t.b2) + 4 * t.b1) + (4 * (m.b0 + m.b2) + 4 * m.b1) + (3 * (b.b0 + b.b2) + 4 * b.b1)));
  }

  lemma TwoRowsAreWorded(t: Taps, b: Taps, pixel: nat)
    ensures TwoRows(t, b, pixel) == Round2(
      Mul((5 * (t.a0 + t.a2) + 6 * t.a1) + (5 * (b.a0 + b.a2) + 6 * b.a1), pixel)
      + ((5 * (t.b0 + t.b2) + 6 * t.b1) + (5 * (b.b0 + b.b2) + 6 * b.b1)), 9)
    ensures OneRow(t, pixel) == Round2(Mul(5 * (t.a0 + t.a2) + 6 * t.a1, pixel) + (5 * (t.b0 + t.b2) + 6 * t.b1), 8)
  {
    hide Mul, Round2;
    LargeRounds(Mul((5 * (t.a0 + t.a2) + 6 * t.a1) + (5 * (b.a0 + b.a2) + 6 * b.a1), pixel)
      + ((5 * (t.b0 + t.b2) + 6 * t.b1) + (5 * (b.b0 + b.b2) + 6 * b.b1)));
    LargeRounds(Mul(5 * (t.a0 + t.a2) + 6 * t.a1, pixel) + (5 * (t.b0 + t.b2) + 6 * t.b1));
  }

  lemma F1IsWorded(j: Job, y: nat, x: nat)
    requires Ready(j) && y < j.h && x < j.w && j.s1 > 0
    ensures RowsExist(j, 1, y) && F1(j, y, x) == WordedPass(j, 1, y, x)
  {
    hide TapsAt, WordedRow, Ready, Mul, Round2, Cross;
    var pixel := PixelIn(j, y, x);
    WordedRowsExist(j, y);
    RowIsWorded(j, 1, y, x, -1);
    RowIsWorded(j, 1, y, x, 0);
    RowIsWorded(j, 1, y, x, 1);
    CrossIsWorded(TapsAt(j, 1, y, x), TapsAt(j, 1, y + 1, x), TapsAt(j, 1, y + 2, x), pixel);
  }

  lemma F2IsWorded(j: Job, y: nat, x: nat)
    requires Ready(j) && y < j.h && x < j.w && j.s2 > 0
    ensures RowsExist(j, 2, y) && F2(j, y, x) == WordedPass(j, 2, y, x)
  {
    hide TapsAt, WordedRow, Ready, Mul, Round2, TwoRows, OneRow;
    var pixel := PixelIn(j, y, x);
    WordedRowsExist(j, y);
    BoxRowsExist(j, y);
    NoWeight(j, y, x);
    if y % 2 == 0 {
      RowIsWorded(j, 2, y, x, -1);
      RowIsWorded(j, 2, y, x, 1);
      TwoRowsAreWorded(TapsAt(j, 2, y, x), TapsAt(j, 2, y + 2, x), pixel);
    } else {
      RowIsWorded(j, 2, y, x, 0);
      TwoRowsAreWorded(TapsAt(j, 2, y + 1, x), TapsAt(j, 2, y + 1, x), pixel);
    }
  }

  /** Boxes of even rows do not count in the radius-2 pass. */
  lemma NoWeight(j: Job, y: nat, x: nat)
    requires Ready(j) && y < j.h && x < j.w && RowsExist(j, 2, y)
    ensures y % 2 == 0 ==> WordedRow(j, 2, y, x, 0) == (0, 0)
    ensures y % 2 == 1 ==> WordedRow(j, 2, y, x, -1) == (0, 0) == WordedRow(j, 2, y, x, 1)
  {
    hide Ready, WordedBox;
  }

  /** Every pixel is the one worded. */
  lemma PixelIsWorded(j: Job, y: nat, x: nat)
    requires Ready(j) && y < j.h && x < j.w
    ensures SpecPixel(j, y, x) == WordedPixel(j, y, x)
  {
    hide F1, F2, WordedPass, Ready, Mul, Round2, RoundPixel, Clamp;
    DepthOf(j);
    var pixel := PixelIn(j, y, x);
    WordedRowsExist(j, y);
    F1OrPixel(j, y, x);
    F2OrPixel(j, y, x);
    RoundsAsWorded(Weighted(F2(j, y, x), pixel, F1(j, y, x), j.w0, j.w1), j.bd);
  }

  lemma RoundsAsWorded(v: int, bd: nat)
    requires BitDepth(bd)
    ensures RoundPixel(v, bd) == Clamp(Round2(v, RST_BITS + PRJ_BITS), 0, Pow2(bd) - 1)
  {
    LargeRounds(v);
    Powers();
    hide Round2, Shl;
  }

  lemma DepthOf(j: Job)
    requires Ready(j)
    ensures BitDepth(j.bd)
  {
  }

  lemma F1OrPixel(j: Job, y: nat, x: nat)
    requires Ready(j) && y < j.h && x < j.w
    ensures RowsExist(j, 1, y) && F1(j, y, x) == if j.s1 == 0 then 16 * PixelIn(j, y, x) else WordedPass(j, 1, y, x)
  {
    hide WordedPass, TapsAt, Cross;
    WordedRowsExist(j, y);
    if j.s1 > 0 {
      F1IsWorded(j, y, x);
    }
  }

  lemma F2OrPixel(j: Job, y: nat, x: nat)
    requires Ready(j) && y < j.h && x < j.w
    ensures RowsExist(j, 2, y) && F2(j, y, x) == if j.s2 == 0 then 16 * PixelIn(j, y, x) else WordedPass(j, 2, y, x)
  {
    hide WordedPass, TapsAt, TwoRows, OneRow;
    WordedRowsExist(j, y);
    if j.s2 > 0 {
      F2IsWorded(j, y, x);
    }
  }
}
