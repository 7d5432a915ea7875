/** Integral images for loop restoration: tables that wrap at 32 bits, over a source padded
    at frame and stripe borders, from which every box sum still comes out exact. */
module LrfIntegral {
  import opened Bits

  function WrappingAdd(a: u32, b: u32): u32 {
    (a + b) % WRAP
  }

  function WrappingSub(a: u32, b: u32): u32 {
    (a - b) % WRAP
  }

  type Rows = seq<seq<nat>>

  predicate Shaped(s: Rows, h: nat, w: nat) {
    |s| == h && forall r :: 0 <= r < h ==> |s[r]| == w
  }

  // True sums -----------------------------------------------------------------

  /** Sum of n elements from x on. */
  function RowPart(r: seq<nat>, x: nat, n: nat): nat
    requires x + n <= |r|
  {
    if n == 0 then 0 else RowPart(r, x, n - 1) + r[x + n - 1]
  }

  /** Sum over the n columns from x on of the m rows from y on. */
  function BoxSum(s: Rows, y: nat, x: nat, m: nat, n: nat): nat
    requires y + m <= |s| && forall r :: 0 <= r < |s| ==> x + n <= |s[r]|
  {
    if m == 0 then 0 else BoxSum(s, y, x, m - 1, n) + RowPart(s[y + m - 1], x, n)
  }

  function SquareRow(r: seq<nat>): (q: seq<nat>)
    ensures |q| == |r|
  {
    seq(|r|, i requires 0 <= i < |r| => r[i] * r[i])
  }

  function SquareRows(s: Rows): (q: Rows)
    ensures |q| == |s| && forall r :: 0 <= r < |s| ==> q[r] == SquareRow(s[r])
  {
    seq(|s|, i requires 0 <= i < |s| => SquareRow(s[i]))
  }

  lemma {:induction false} RowPartSplit(r: seq<nat>, x: nat, n: nat)
    requires x + n <= |r|
    ensures RowPart(r, 0, x + n) == RowPart(r, 0, x) + RowPart(r, x, n)
  {
    if n > 0 {
      RowPartSplit(r, x, n - 1);
    }
  }

  lemma {:induction false} BoxSplitColumns(s: Rows, y: nat, x: nat, m: nat, n: nat)
    requires y + m <= |s| && forall r :: 0 <= r < |s| ==> x + n <= |s[r]|
    ensures BoxSum(s, y, 0, m, x + n) == BoxSum(s, y, 0, m, x) + BoxSum(s, y, x, m, n)
  {
    if m > 0 {
      BoxSplitColumns(s, y, x, m - 1, n);
      RowPartSplit(s[y + m - 1], x, n);
    }
  }

  lemma {:induction false} BoxSplitRows(s: Rows, y: nat, x: nat, m: nat, n: nat)
    requires y + m <= |s| && forall r :: 0 <= r < |s| ==> x + n <= |s[r]|
    ensures BoxSum(s, 0, x, y + m, n) == BoxSum(s, 0, x, y, n) + BoxSum(s, y, x, m, n)
  {
    if m > 0 {
      BoxSplitRows(s, y, x, m - 1, n);
    }
  }

  // Wrapped tables --------------------------------------------------------------

  /** Entry (r, c) is the sum of everything up to and including (r, c), modulo 2^32. */
  ghost predicate IsIntegral(img: array2<u32>, s: Rows, h: nat, w: nat)
    reads img
  {
    && Shaped(s, h, w) && h <= img.Length0 && w <= img.Length1
    && forall r, c :: 0 <= r < h && 0 <= c < w ==> img[r, c] == Entry(s, r, c)
  }

  function Entry(s: Rows, r: nat, c: nat): u32
    requires r < |s| && forall i :: 0 <= i < |s| ==> c < |s[i]|
  {
    BoxSum(s, 0, 0, r + 1, c + 1) % WRAP
  }

  lemma ModAdd(a: nat, b: nat)
    ensures (a % WRAP + b % WRAP) % WRAP == (a + b) % WRAP
    ensures (a % WRAP + b) % WRAP == (a + b) % WRAP
  {
  }

  lemma ModCancel(tl: nat, br: nat, bl: nat, tr: nat, sum: nat)
    requires tl + br == bl + tr + sum
    ensures WrappingSub(WrappingSub(WrappingAdd(tl % WRAP, br % WRAP), bl % WRAP), tr % WRAP) == sum % WRAP
  {
    ModAdd(tl, br);
    var a := (tl + br) % WRAP;
    ModSub(bl + (tr + sum), bl);
    ModSub(tr + sum, tr);
  }

  lemma ModSub(a: nat, b: nat)
    requires b <= a
    ensures (a % WRAP - b % WRAP) % WRAP == (a - b) % WRAP
  {
    var q, r := a / WRAP, b / WRAP;
    assert a % WRAP - b % WRAP == (a - b) - (q - r) * WRAP;
    ModShift(a - b, r - q);
  }

  lemma ModShift(x: int, k: int)
    ensures (x + k * WRAP) % WRAP == x % WRAP
  {
  }

  /** The box sum of the size x size window just below and right of (y, x): wrap-around
      in the table cancels as long as the sum itself fits. */
  method GetIntegralSquare(img: array2<u32>, x: nat, y: nat, size: nat, ghost s: Rows, ghost h: nat, ghost w: nat)
      returns (sum: u32)
    requires IsIntegral(img, s, h, w) && y + size < h && x + size < w
    requires BoxSum(s, y + 1, x + 1, size, size) < WRAP
    ensures sum == BoxSum(s, y + 1, x + 1, size, size)
  {
    hide BoxSum;
    var topLeft := img[y, x];
    var topRight := img[y, x + size];
    var bottomLeft := img[y + size, x];
    var bottomRight := img[y + size, x + size];
    BoxSplitRows(s, y + 1, 0, size, x + 1 + size);
    BoxSplitRows(s, y + 1, 0, size, x + 1);
    BoxSplitColumns(s, y + 1, x + 1, size, size);
    assert y + 1 + size == y + size + 1 && x + 1 + size == x + size + 1;
    ModCancel(BoxSum(s, 0, 0, y + 1, x + 1), BoxSum(s, 0, 0, y + size + 1, x + size + 1),
              BoxSum(s, 0, 0, y + size + 1, x + 1), BoxSum(s, 0, 0, y + 1, x + size + 1),
              BoxSum(s, y + 1, x + 1, size, size));
    sum := WrappingSub(WrappingSub(WrappingAdd(topLeft, bottomRight), bottomLeft), topRight);
  }

  // The padded source --------------------------------------------------------------

  /** Two planes of one size: the source is cdeffed inside the stripe and deblocked around it.
      The slice starts at (x, y); cropW and cropH count from there. */
  datatype Source = Source(cdeffed: Rows, deblocked: Rows, x: nat, y: nat, cropW: nat, cropH: nat,
                           stripeW: nat, stripeH: nat)

  /** Two pixels above and below the stripe exist, or are replaced; the columns the filter
      reads exist up to the crop; a slice that is not at the left edge has four columns before it. */
  ghost predicate Proper(p: Source) {
    && p.stripeW > 0 && p.stripeH > 0 && p.stripeW <= p.cropW && p.cropH > 0
    && (p.x == 0 || p.x >= 4)
    && (exists w: nat {:trigger Shaped(p.cdeffed, |p.cdeffed|, w)} ::
         w >= p.x + p.cropW && Shaped(p.cdeffed, |p.cdeffed|, w) && Shaped(p.deblocked, |p.cdeffed|, w))
    && |p.cdeffed| >= p.y + p.cropH
    && PixelsFit(p.cdeffed) && PixelsFit(p.deblocked)
  }

  /** At most 12 bits. */
  ghost predicate PixelsFit(s: Rows) {
    forall r, c :: 0 <= r < |s| && 0 <= c < |s[r]| ==> s[r][c] <= 4095
  }

  /** With r = 2 only every other row is used, so an odd stripe needs one more. */
  function EvenHeight(h: nat): (e: nat)
    ensures e % 2 == 0 && h <= e <= h + 1
  {
    h + h % 2
  }

  function PaddedHeight(p: Source): nat {
    4 + EvenHeight(p.stripeH) + 2
  }

  function PaddedWidth(p: Source): nat {
    4 + p.stripeW + 3
  }

  /** Row k of the padded source: clamped to the frame, then to two rows around the stripe. For
      stripes of even height, and for the last one of a frame, this is where section 7.17.6 of
      the AV1 specification places it; any other odd stripe gets one more row of CDEF output. */
  function StripeRow(p: Source, k: nat): int {
    Clamp(Clamp(p.y - 4 + k, 0, p.y + p.cropH - 1), p.y - 2, p.y + EvenHeight(p.stripeH) + 1)
  }

  function StripeColumn(p: Source, k: nat): int {
    Clamp(p.x - 4 + k, 0, p.x + p.cropW - 1)
  }

  lemma StripeRowExists(p: Source, k: nat)
    requires Proper(p)
    ensures 0 <= StripeRow(p, k) < |p.cdeffed| == |p.deblocked|
    ensures |p.cdeffed[StripeRow(p, k)]| == |p.deblocked[StripeRow(p, k)]| >= p.x + p.cropW
    ensures forall j :: 0 <= j < |p.cdeffed| ==> |p.cdeffed[j]| == |p.deblocked[j]| == |p.cdeffed[0]|
  {
  }

  ghost function PaddedPixel(p: Source, k: nat, c: nat): nat
    requires Proper(p)
  {
    var r := StripeRow(p, k);
    StripeRowExists(p, k);
    if p.y <= r < p.y + EvenHeight(p.stripeH) then p.cdeffed[r][StripeColumn(p, c)]
    else p.deblocked[r][StripeColumn(p, c)]
  }

  ghost function PaddedRow(p: Source, k: nat): (r: seq<nat>)
    requires Proper(p)
    ensures |r| == PaddedWidth(p)
  {
    seq(PaddedWidth(p), c requires 0 <= c < PaddedWidth(p) => PaddedPixel(p, k, c))
  }

  ghost function Padded(p: Source): (s: Rows)
    requires Proper(p)
    ensures Shaped(s, PaddedHeight(p), PaddedWidth(p))
    ensures PixelsFit(s)
  {
    var s := seq(PaddedHeight(p), k requires 0 <= k < PaddedHeight(p) => PaddedRow(p, k));
    assert PixelsFit(s) by {
      forall r, c | 0 <= r < |s| && 0 <= c < |s[r]| ensures s[r][c] <= 4095 {
        StripeRowExists(p, r);
        assert s[r][c] == PaddedPixel(p, r, c);
      }
    }
    s
  }

  /** Rows a stripe may read: those of the frame no further than two from the stripe. */
  predicate MayRead(p: Source, r: int) {
    0 <= r < p.y + p.cropH && p.y - 2 <= r < p.y + EvenHeight(p.stripeH) + 2
  }

  /** Every padded pixel is the one nearest to its own position that may be read, from the CDEF
      output inside the stripe and from the deblocked frame around it. */
  lemma NearestMayRead(p: Source, k: nat, c: nat, r: int, column: int)
    requires Proper(p) && k < PaddedHeight(p) && c < PaddedWidth(p)
    requires MayRead(p, r) && 0 <= column < p.x + p.cropW
    ensures var near, beside := StripeRow(p, k), StripeColumn(p, c);
      && MayRead(p, near) && Abs(near - (p.y - 4 + k)) <= Abs(r - (p.y - 4 + k))
      && 0 <= beside < p.x + p.cropW && Abs(beside - (p.x - 4 + c)) <= Abs(column - (p.x - 4 + c))
      && near < |p.cdeffed| == |p.deblocked| && beside < |p.cdeffed[near]| == |p.deblocked[near]|
      && Padded(p)[k][c] ==
        if p.y <= near < p.y + EvenHeight(p.stripeH) then p.cdeffed[near][beside] else p.deblocked[near][beside]
  {
    StripeRowExists(p, k);
    assert Padded(p)[k] == PaddedRow(p, k);
  }

  /** Walks the rows of the padded source. */
  class VertPaddedIter {
    const deblocked: Rows
    const cdeffed: Rows
    var y: int
    const end: int
    const stripeBegin: int
    const stripeEnd: int
    const crop: int

    constructor (p: Source)
      ensures cdeffed == p.cdeffed && deblocked == p.deblocked
      ensures y == p.y - 4 && end == y + 4 + EvenHeight(p.stripeH) + 2
      ensures stripeBegin == p.y && stripeEnd == p.y + EvenHeight(p.stripeH) && crop == p.y + p.cropH
    {
      deblocked, cdeffed := p.deblocked, p.cdeffed;
      y, end := p.y - 4, p.y - 4 + (4 + EvenHeight(p.stripeH) + 2);
      stripeBegin, stripeEnd, crop := p.y, p.y + EvenHeight(p.stripeH), p.y + p.cropH;
    }

    ghost predicate Walks(p: Source)
      reads this
    {
      && cdeffed == p.cdeffed && deblocked == p.deblocked && end == p.y - 4 + PaddedHeight(p)
      && stripeBegin == p.y && stripeEnd == p.y + EvenHeight(p.stripeH) && crop == p.y + p.cropH
      && p.y - 4 <= y <= end
    }

    /** The next row, whole; None past the end. */
    method Next(ghost p: Source) returns (more: bool, row: seq<nat>)
      requires Proper(p) && Walks(p)
      modifies this`y
      ensures Walks(p) && (more <==> old(y) < end)
      ensures more ==> y == old(y) + 1
      ensures more ==> |row| >= p.x + p.cropW
      ensures more ==> forall c :: 0 <= c < PaddedWidth(p) ==>
        row[StripeColumn(p, c)] == PaddedPixel(p, old(y) - (p.y - 4), c)
    {
      more, row := false, [];
      if end > y {
        StripeRowExists(p, y - (p.y - 4));
        var croppedY := Clamp(y, 0, crop - 1);
        var ly := Clamp(croppedY, stripeBegin - 2, stripeEnd + 1);
        more := true;
        row := if ly >= stripeBegin && ly < stripeEnd then cdeffed[ly] else deblocked[ly];
        y := y + 1;
      }
    }
  }

  /** Walks a row, repeating its first element before it starts and its last after it ends. */
  class HorzPaddedIter {
    const slice: seq<nat>
    var index: int
    const end: int

    constructor (s: seq<nat>, start: int, width: nat)
      ensures slice == s && index == start && end == width + start
    {
      slice, index, end := s, start, width + start;
    }

    method Next() returns (more: bool, v: nat)
      requires |slice| > 0
      modifies this`index
      ensures more <==> old(index) < end
      ensures more ==> index == old(index) + 1 && v == slice[Clamp(old(index), 0, |slice| - 1)]
      ensures !more ==> index == old(index)
    {
      more, v := false, 0;
      if index < end {
        v := slice[Clamp(index, 0, |slice| - 1)];
        more := true;
        index := index + 1;
      }
    }
  }

  /** Where the columns actually copied start, and how many of them differ. */
  function LeftUniques(p: Source): nat {
    if p.x == 0 then 0 else 4
  }

  function RowUniques(p: Source): nat
    requires p.stripeW <= p.cropW
  {
    LeftUniques(p) + p.stripeW + if p.cropW - p.stripeW < 3 then p.cropW - p.stripeW else 3
  }

  /** Clamping an index to the copied columns is clamping the column to the frame. */
  lemma ColumnAgrees(p: Source, k: nat)
    requires Proper(p) && k < PaddedWidth(p)
    ensures Clamp((if p.x == 0 then -4 else 0) + k, 0, RowUniques(p) - 1) == StripeColumn(p, k) - (p.x - LeftUniques(p))
  {
  }

  /** Reads one padded row through the iterators. */
  method PadRow(it: VertPaddedIter, p: Source, ghost k: nat) returns (row: seq<nat>)
    requires Proper(p) && it.Walks(p) && it.y == p.y - 4 + k && k < PaddedHeight(p)
    modifies it`y
    ensures it.Walks(p) && it.y == p.y - 4 + k + 1
    ensures row == PaddedRow(p, k)
  {
    var more, whole := it.Next(p);
    var from := p.x - LeftUniques(p);
    var slice := whole[from..from + RowUniques(p)];
    var horz := new HorzPaddedIter(slice, if p.x == 0 then -4 else 0, 4 + p.stripeW + 3);
    row := [];
    for c := 0 to PaddedWidth(p)
      invariant fresh(horz) && horz.index == (if p.x == 0 then -4 else 0) + c
      invariant it.Walks(p) && it.y == p.y - 4 + k + 1
      invariant |row| == c && forall j :: 0 <= j < c ==> row[j] == PaddedPixel(p, k, j)
    {
      ColumnAgrees(p, c);
      var some, v := horz.Next();
      row := row + [v];
    }
  }

  lemma RunningSum(r: seq<nat>, c: nat)
    requires c < |r| && r[c] < WRAP
    ensures WrappingAdd(RowPart(r, 0, c) % WRAP, r[c]) == RowPart(r, 0, c + 1) % WRAP
  {
    ModAdd(RowPart(r, 0, c), r[c]);
  }

  lemma FirstEntry(s: Rows, c: nat)
    requires |s| > 0 && forall i :: 0 <= i < |s| ==> c < |s[i]|
    ensures Entry(s, 0, c) == RowPart(s[0], 0, c + 1) % WRAP
  {
    assert BoxSum(s, 0, 0, 0, c + 1) == 0;
  }

  lemma NextEntry(s: Rows, k: nat, c: nat)
    requires 0 < k < |s| && forall i :: 0 <= i < |s| ==> c < |s[i]|
    ensures WrappingAdd(RowPart(s[k], 0, c + 1) % WRAP, Entry(s, k - 1, c)) == Entry(s, k, c)
  {
    ModAdd(RowPart(s[k], 0, c + 1), BoxSum(s, 0, 0, k, c + 1));
  }

  ghost predicate RowIs(img: array2<u32>, s: Rows, k: nat, w: nat)
    requires k < |s| && k < img.Length0 && w <= img.Length1
    requires forall i :: 0 <= i < |s| ==> w <= |s[i]|
    reads img
  {
    forall c :: 0 <= c < w ==> img[k, c] == Entry(s, k, c)
  }

  /** Fills row k of both tables: running sums, added to the table row above if there is one. */
  method FillRow(img: array2<u32>, sq: array2<u32>, row: seq<nat>, k: nat, ghost s: Rows)
    requires img != sq && k < |s| && k < img.Length0 && k < sq.Length0
    requires |row| <= img.Length1 && |row| <= sq.Length1
    requires s[k] == row && (forall i :: 0 <= i < |row| ==> row[i] <= 4095)
    requires forall r :: 0 <= r < |s| ==> |s[r]| == |row|
    requires k > 0 ==> RowIs(img, s, k - 1, |row|) && RowIs(sq, SquareRows(s), k - 1, |row|)
    modifies img, sq
    ensures RowIs(img, s, k, |row|) && RowIs(sq, SquareRows(s), k, |row|)
    ensures forall r, c :: 0 <= r < img.Length0 && 0 <= c < img.Length1 && r != k ==> img[r, c] == old(img[r, c])
    ensures forall r, c :: 0 <= r < sq.Length0 && 0 <= c < sq.Length1 && r != k ==> sq[r, c] == old(sq[r, c])
  {
    hide BoxSum, RowPart, Entry, WrappingAdd;
    ghost var squares := SquareRow(row);
    EmptySums(row, squares);
    var sum: u32, sqSum: u32 := 0, 0;
    for c := 0 to |row|
      invariant sum == RowPart(row, 0, c) % WRAP && sqSum == RowPart(squares, 0, c) % WRAP
      invariant forall j :: 0 <= j < c ==> img[k, j] == Entry(s, k, j)
      invariant forall j :: 0 <= j < c ==> sq[k, j] == Entry(SquareRows(s), k, j)
      invariant forall r, j :: 0 <= r < img.Length0 && 0 <= j < img.Length1 && r != k ==> img[r, j] == old(img[r, j])
      invariant forall r, j :: 0 <= r < sq.Length0 && 0 <= j < sq.Length1 && r != k ==> sq[r, j] == old(sq[r, j])
    {
      var current: u32 := row[c];
      SquareFits(current);
      var square: u32 := current * current;
      assert squares[c] == square;
      RunningSum(row, c);
      RunningSum(squares, c);
      sum := WrappingAdd(sum, current);
      sqSum := WrappingAdd(sqSum, square);
      if k == 0 {
        FirstEntry(s, c);
        FirstEntry(SquareRows(s), c);
        img[k, c] := sum;
        sq[k, c] := sqSum;
      } else {
        NextEntry(s, k, c);
        NextEntry(SquareRows(s), k, c);
        img[k, c] := WrappingAdd(sum, img[k - 1, c]);
        sq[k, c] := WrappingAdd(sqSum, sq[k - 1, c]);
      }
    }
  }

  lemma EmptySums(a: seq<nat>, b: seq<nat>)
    ensures RowPart(a, 0, 0) == 0 == RowPart(b, 0, 0)
  {
  }

  lemma SquareFits(x: nat)
    requires x <= 4095
    ensures x * x <= 4095 * 4095
  {
    ProductGrows(x, 4095, x);
    ProductGrows(x, 4095, 4095);
  }

  lemma ProductGrows(a: nat, b: nat, c: nat)
    requires a <= b
    ensures a * c <= b * c
  {
  }

  /** Fills both tables, whatever the buffers held before. */
  method SetupIntegralImage(img: array2<u32>, sq: array2<u32>, p: Source)
    requires Proper(p) && img != sq
    requires PaddedHeight(p) <= img.Length0 && PaddedWidth(p) <= img.Length1
    requires PaddedHeight(p) <= sq.Length0 && PaddedWidth(p) <= sq.Length1
    modifies img, sq
    ensures IsIntegral(img, Padded(p), PaddedHeight(p), PaddedWidth(p))
    ensures IsIntegral(sq, SquareRows(Padded(p)), PaddedHeight(p), PaddedWidth(p))
  {
    hide Entry, SquareRow, PaddedPixel, StripeRow;
    var it := new VertPaddedIter(p);
    var row := PadRow(it, p, 0);
    ghost var s := Padded(p);
    FillRow(img, sq, row, 0, s);
    for k := 1 to PaddedHeight(p)
      invariant fresh(it) && it.Walks(p) && it.y == p.y - 4 + k
      invariant forall r, c :: 0 <= r < k && 0 <= c < PaddedWidth(p) ==> img[r, c] == Entry(s, r, c)
      invariant forall r, c :: 0 <= r < k && 0 <= c < PaddedWidth(p) ==> sq[r, c] == Entry(SquareRows(s), r, c)
    {
      row := PadRow(it, p, k);
      FillRow(img, sq, row, k, s);
    }
  }
}
