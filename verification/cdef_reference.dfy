/** The enhancement filter as the AV1 specification words it, with its tables, and that the taps
    added up in a row come to the same. */
module CdefReference {
  import opened Bits
  import opened Cdef

  /** By direction and distance. */
  const DIRECTIONS: seq<seq<(int, int)>> := [
    [(-1, 1), (-2, 2)], [(0, 1), (-1, 2)], [(0, 1), (0, 2)], [(0, 1), (1, 2)],
    [(1, 1), (2, 2)], [(1, 0), (2, 1)], [(1, 0), (2, 0)], [(1, 0), (2, -1)]]

  /** By parity of the strength, scaled to 8 bits, and distance. */
  const PRI_TAPS: seq<seq<int>> := [[4, 2], [3, 3]]

  const SEC_TAPS: seq<int> := [2, 1]

  /** A pixel of a block, and the strengths it is filtered with. */
  ghost predicate Site(b: Block, s: Strength, i: nat, j: nat) {
    Proper(b, s.bitDepth) && Usable(s) && i < b.h && j < b.w
  }

  predicate Near(o: (int, int)) {
    -2 <= o.0 <= 2 && -2 <= o.1 <= 2
  }

  function Tabled(dir: nat, k: nat): (o: (int, int))
    requires dir < 8 && k < 2
    ensures Near(o) && Near(Back(o))
  {
    DIRECTIONS[dir][k]
  }

  /** What the pixel at an offset adds, before it is weighted. */
  ghost function Pull(b: Block, s: Strength, i: nat, j: nat, o: (int, int), strength: nat): int
    requires Site(b, s, i, j) && Near(o)
  {
    if Available(b, i + o.0, j + o.1) then
      Constrain(PixelAt(b, i + o.0, j + o.1) - PixelAt(b, i, j), strength, s.damping)
    else 0
  }

  /** On either side of the pixel. */
  ghost function Pulls(b: Block, s: Strength, i: nat, j: nat, dir: nat, k: nat, strength: nat): int
    requires Site(b, s, i, j) && dir < 8 && k < 2
  {
    Pull(b, s, i, j, Tabled(dir, k), strength) + Pull(b, s, i, j, Back(Tabled(dir, k)), strength)
  }

  function Times(w: int, x: int): int {
    w * x
  }

  /** The weighted sum over the six taps at one distance. */
  ghost function WordedSum(b: Block, s: Strength, i: nat, j: nat, k: nat): int
    requires Site(b, s, i, j) && k < 2
  {
    Times(PRI_TAPS[Shr(s.pri, s.bitDepth - 8) % 2][k], Pulls(b, s, i, j, s.dir, k, s.pri))
    + Times(SEC_TAPS[k], Pulls(b, s, i, j, (s.dir + 2) % 8, k, s.sec))
    + Times(SEC_TAPS[k], Pulls(b, s, i, j, (s.dir + 6) % 8, k, s.sec))
  }

  // One tap after the other --------------------------------------------------------------------

  ghost function SumOf(b: Block, s: Strength, i: nat, j: nat, n: nat): int
    requires Site(b, s, i, j) && n <= 12
  {
    SpecSums(b, s, i, j, n).sum
  }

  function Weight(s: Strength, m: nat, k: nat): int
    requires s.bitDepth >= 8 && m < 3 && k < 2
  {
    if m == 0 then PRI_TAPS[Shr(s.pri, s.bitDepth - 8) % 2][k] else SEC_TAPS[k]
  }

  /** The pairs at one distance: along the direction, and along the two at 45 degrees to it. */
  function Along(dir: nat, m: nat): (d: nat)
    requires dir < 8 && m < 3
    ensures d < 8
  {
    if m == 0 then dir else if m == 1 then (dir + 2) % 8 else (dir + 6) % 8
  }

  function StrengthOf(s: Strength, m: nat): nat {
    if m == 0 then s.pri else s.sec
  }

  lemma OneTap(b: Block, s: Strength, i: nat, j: nat, n: nat, w: int, o: (int, int), strength: nat)
    requires Site(b, s, i, j) && n < 12 && Near(o) && o == TapOffset(s.dir, n)
    requires w == if n % 6 < 2 then PriTap(s, n / 6) else SecTap(n / 6)
    requires strength == if n % 6 < 2 then s.pri else s.sec
    ensures SumOf(b, s, i, j, n + 1) == SumOf(b, s, i, j, n) + Times(w, Pull(b, s, i, j, o, strength))
  {
    hide TapOffset, Constrain, PriTap, SecTap;
    TapsStayClose(s.dir, n);
  }

  lemma FirstOfPair(b: Block, s: Strength, i: nat, j: nat, m: nat, k: nat)
    requires Site(b, s, i, j) && m < 3 && k < 2
    ensures SumOf(b, s, i, j, 6 * k + 2 * m + 1) == SumOf(b, s, i, j, 6 * k + 2 * m) +
      Times(Weight(s, m, k), Pull(b, s, i, j, Tabled(Along(s.dir, m), k), StrengthOf(s, m)))
  {
    hide Pull, Proper, SumOf, Times;
    OneTap(b, s, i, j, 6 * k + 2 * m, Weight(s, m, k), Tabled(Along(s.dir, m), k), StrengthOf(s, m));
  }

  lemma SecondOfPair(b: Block, s: Strength, i: nat, j: nat, m: nat, k: nat)
    requires Site(b, s, i, j) && m < 3 && k < 2
    ensures SumOf(b, s, i, j, 6 * k + 2 * m + 2) == SumOf(b, s, i, j, 6 * k + 2 * m + 1) +
      Times(Weight(s, m, k), Pull(b, s, i, j, Back(Tabled(Along(s.dir, m), k)), StrengthOf(s, m)))
  {
    hide Pull, Proper, SumOf, Times;
    OneTap(b, s, i, j, 6 * k + 2 * m + 1, Weight(s, m, k), Back(Tabled(Along(s.dir, m), k)), StrengthOf(s, m));
  }

  lemma Distribute(w: int, a: int, b: int)
    ensures Times(w, a) + Times(w, b) == Times(w, a + b)
  {
  }

  lemma Pair(b: Block, s: Strength, i: nat, j: nat, m: nat, k: nat)
    requires Site(b, s, i, j) && s.dir < 8 && s.bitDepth >= 8 && m < 3 && k < 2
    ensures SumOf(b, s, i, j, 6 * k + 2 * m + 2) == SumOf(b, s, i, j, 6 * k + 2 * m)
      + Times(Weight(s, m, k), Pulls(b, s, i, j, Along(s.dir, m), k, StrengthOf(s, m)))
  {
    hide SumOf, Pull, Weight, Along, Site, Times, StrengthOf, Tabled, Near, Back;
    FirstOfPair(b, s, i, j, m, k);
    SecondOfPair(b, s, i, j, m, k);
    var o := Tabled(Along(s.dir, m), k);
    Distribute(Weight(s, m, k), Pull(b, s, i, j, o, StrengthOf(s, m)), Pull(b, s, i, j, Back(o), StrengthOf(s, m)));
  }

  /** Three pairs at one distance. */
  lemma Distance(b: Block, s: Strength, i: nat, j: nat, k: nat)
    requires Site(b, s, i, j) && k < 2
    ensures SumOf(b, s, i, j, 6 * k + 6) == SumOf(b, s, i, j, 6 * k) + WordedSum(b, s, i, j, k)
  {
    hide SumOf, Pulls, Times, Proper;
    Pair(b, s, i, j, 0, k);
    Pair(b, s, i, j, 1, k);
    Pair(b, s, i, j, 2, k);
  }

  /** The twelve taps in a row are those of the tables. */
  lemma SumIsWorded(b: Block, s: Strength, i: nat, j: nat)
    requires Site(b, s, i, j)
    ensures SpecSums(b, s, i, j, 12).sum == WordedSum(b, s, i, j, 0) + WordedSum(b, s, i, j, 1)
  {
    SpecSumsStart(b, s, i, j);
    hide SpecSums, WordedSum, Proper;
    Distance(b, s, i, j, 0);
    Distance(b, s, i, j, 1);
  }

  // Range ------------------------------------------------------------------------------------

  ghost predicate TapIs(b: Block, s: Strength, i: nat, j: nat, k: nat, p: int)
    requires Site(b, s, i, j) && k < 12
  {
    var o := TapOffset(s.dir, k);
    TapsStayClose(s.dir, k);
    Available(b, i + o.0, j + o.1) && p == PixelAt(b, i + o.0, j + o.1)
  }

  /** One of the pixels seen: the centre or an available tap. */
  ghost predicate Seen(b: Block, s: Strength, i: nat, j: nat, n: nat, p: int)
    requires Site(b, s, i, j) && n <= 12
  {
    p == PixelAt(b, i, j) || exists k :: 0 <= k < n && TapIs(b, s, i, j, k, p)
  }

  /** The running minimum and maximum are those of the pixels seen. */
  lemma {:induction false} SumsExtent(b: Block, s: Strength, i: nat, j: nat, n: nat, p: int)
    requires Site(b, s, i, j) && n <= 12
    ensures var a := SpecSums(b, s, i, j, n);
      Seen(b, s, i, j, n, a.min) && Seen(b, s, i, j, n, a.max) && (Seen(b, s, i, j, n, p) ==> a.min <= p <= a.max)
  {
    hide TapOffset, TapTerm;
    if n > 0 {
      SumsExtent(b, s, i, j, n - 1, p);
      TapsStayClose(s.dir, n - 1);
      var o := TapOffset(s.dir, n - 1);
      if Available(b, i + o.0, j + o.1) {
        assert TapIs(b, s, i, j, n - 1, PixelAt(b, i + o.0, j + o.1));
      }
    }
  }

  /** A sixteenth, rounded to the nearest; halves are rounded away from zero. */
  function Sixteenth(sum: int): int {
    if sum < 0 then -((8 - sum) / 16) else (sum + 8) / 16
  }

  /** The filtered pixel moves by a sixteenth of the worded sum, within the extent of the pixels
      seen. */
  lemma PixelIsWorded(b: Block, s: Strength, i: nat, j: nat, min: int, max: int)
    requires Site(b, s, i, j)
    requires Seen(b, s, i, j, 12, min) && Seen(b, s, i, j, 12, max)
    requires forall p :: Seen(b, s, i, j, 12, p) ==> min <= p <= max
    ensures SpecPixel(b, s, i, j) ==
      Clamp(PixelAt(b, i, j) + Sixteenth(WordedSum(b, s, i, j, 0) + WordedSum(b, s, i, j, 1)), min, max)
  {
    hide SpecSums, WordedSum, Seen, Proper;
    SumIsWorded(b, s, i, j);
    SumsExtent(b, s, i, j, 12, min);
    SumsExtent(b, s, i, j, 12, max);
  }
}
