/** Fractional bit counts: three squarings of the range give eighths of a bit. */
module BitCost {
  import opened Bits
  import opened RangeInterval

  const OD_BITRES := 3

  /** One squaring step: the range squared, rescaled, and the bit that falls out on top. */
  function Squared(rng: nat): nat {
    rng * rng / 0x8000
  }

  function Digit(rng: nat): nat {
    Squared(rng) / 0x1_0000
  }

  function Halved(rng: nat): nat {
    Shr(Squared(rng), Digit(rng))
  }

  /** Eighths of a bit by which a range above 0x8000 saves on whole bits. */
  function Correction(rng: nat): nat {
    4 * Digit(rng) + 2 * Digit(Halved(rng)) + Digit(Halved(Halved(rng)))
  }

  lemma SquareStep(rng: nat)
    requires 0x8000 <= rng < 0x1_0000
    ensures Digit(rng) <= 1
    ensures 0x8000 <= Halved(rng) < 0x1_0000
    ensures Halved(rng) * Shl(0x8000, Digit(rng)) <= rng * rng
  {
    MulAtLeast(rng);
    var s := Squared(rng);
    assert 0x8000 <= s < 0x2_0000;
    assert Shr(s, 1) == s / 2 && Shr(s, 0) == s;
    assert Shl(0x8000, 1) == 0x1_0000 && Shl(0x8000, 0) == 0x8000;
  }

  lemma MulAtLeast(rng: nat)
    requires 0x8000 <= rng < 0x1_0000
    ensures 0x8000 * 0x8000 <= rng * rng <= 0xFFFF * 0xFFFF
  {
    Product(0x8000, rng, 0x8000, rng);
    Product(rng, 0xFFFF, rng, 0xFFFF);
  }

  lemma Product(a: nat, b: nat, c: nat, d: nat)
    requires a <= b && c <= d
    ensures a * c <= b * d
  {
    assert a * c <= b * c <= b * d;
  }

  function Sq(x: nat): nat {
    x * x
  }

  lemma SqMono(a: nat, b: nat)
    requires a <= b
    ensures Sq(a) <= Sq(b)
  {
    Product(a, b, a, b);
  }

  lemma SqProduct(a: nat, b: nat)
    ensures Sq(a * b) == Sq(a) * Sq(b)
  {
    calc {
      Sq(a * b);
      (a * b) * (a * b);
      ((a * b) * a) * b;
      (a * (b * a)) * b;
      (a * (a * b)) * b;
      ((a * a) * b) * b;
      (a * a) * (b * b);
    }
  }

  lemma DoubleProduct(a: nat, b: nat)
    ensures a * (2 * b) == 2 * (a * b)
  {
  }

  lemma {:induction false} Pow2Product(m: nat, n: nat)
    ensures Pow2(m) * Pow2(n) == Pow2(m + n)
  {
    if n > 0 {
      assert Pow2(n) == 2 * Pow2(n - 1) && Pow2(m + n) == 2 * Pow2(m + (n - 1));
      hide Shl;
      Pow2Product(m, n - 1);
      DoubleProduct(Pow2(m), Pow2(n - 1));
    }
  }

  lemma SqPow2(n: nat)
    ensures Sq(Pow2(n)) == Pow2(2 * n)
  {
    Pow2Product(n, n);
  }

  /** If r' * 2^k fits under r^2 and 2^m under a power of r', then 2^(m + ...) fits under r's. */
  lemma Raise(x: nat, y: nat, k: nat, m: nat)
    requires y * Pow2(k) <= Sq(x) && Pow2(m) <= Sq(y)
    ensures Pow2(2 * k + m) <= Sq(Sq(x))
  {
    SqMono(y * Pow2(k), Sq(x));
    SqProduct(y, Pow2(k));
    SqPow2(k);
    Product(Pow2(m), Sq(y), Pow2(2 * k), Pow2(2 * k));
    Pow2Product(m, 2 * k);
  }

  /** The correction never claims more than the range is worth: 2^(l/8) <= rng / 2^15,
      so the total never under-reports. */
  lemma CorrectionSound(rng: nat)
    requires 0x8000 <= rng < 0x1_0000
    ensures Pow2(120 + Correction(rng)) <= Sq(Sq(Sq(rng)))
  {
    hide Squared, Digit, Halved, Shl, Sq;
    var r1, r2 := Halved(rng), Halved(Halved(rng));
    var b0, b1, b2 := Digit(rng), Digit(r1), Digit(r2);
    SquareStep(rng);
    SquareStep(r1);
    SquareStep(r2);
    StepPow2(b0);
    StepPow2(b1);
    StepPow2(b2);
    TopStep(r2, Halved(r2), b2);
    IsSq(rng);
    IsSq(r1);
    Raise(r1, r2, 15 + b1, 30 + b2);
    RaiseTwice(rng, r1, 15 + b0, 60 + 2 * b1 + b2);
    assert 4 * (15 + b0) + (60 + 2 * b1 + b2) == 120 + Correction(rng);
  }

  lemma IsSq(x: nat)
    ensures x * x == Sq(x)
  {
  }

  lemma StepPow2(b: nat)
    requires b <= 1
    ensures Shl(0x8000, b) == Pow2(15 + b)
  {
    Pow2Values();
    ShlShl(1, 15, b);
  }

  lemma TopStep(r: nat, h: nat, b: nat)
    requires b <= 1 && 0x8000 <= h && h * Pow2(15 + b) <= r * r
    ensures Pow2(30 + b) <= Sq(r)
  {
    Pow2Values();
    Product(0x8000, h, Pow2(15 + b), Pow2(15 + b));
    Pow2Product(15, 15 + b);
  }

  lemma RaiseTwice(x: nat, y: nat, k: nat, m: nat)
    requires y * Pow2(k) <= Sq(x) && Pow2(m) <= Sq(Sq(y))
    ensures Pow2(4 * k + m) <= Sq(Sq(Sq(x)))
  {
    SqMono(y * Pow2(k), Sq(x));
    SqProduct(y, Pow2(k));
    SqPow2(k);
    Raise(Sq(x), Sq(y), 2 * k, m);
  }

  lemma DigitMono(r: nat, s: nat)
    requires r <= s
    ensures Digit(r) <= Digit(s)
    ensures Digit(r) == Digit(s) ==> Halved(r) <= Halved(s)
  {
    Product(r, s, r, s);
    assert r * r <= s * s;
    ShrGap(Squared(s), Squared(r), Digit(s));
  }

  /** A wider range is never charged more. */
  lemma CorrectionMono(r: nat, s: nat)
    requires 0x8000 <= r <= s < 0x1_0000
    ensures Correction(r) <= Correction(s) <= 7
  {
    hide Squared, Digit, Halved;
    SquareStep(r);
    SquareStep(s);
    SquareStep(Halved(r));
    SquareStep(Halved(s));
    SquareStep(Halved(Halved(r)));
    SquareStep(Halved(Halved(s)));
    DigitMono(r, s);
    if Digit(r) == Digit(s) {
      DigitMono(Halved(r), Halved(s));
      if Digit(Halved(r)) == Digit(Halved(s)) {
        DigitMono(Halved(Halved(r)), Halved(Halved(s)));
      }
    }
  }

  /** The least width whose correction is k. */
  function Turn(k: nat): nat
    requires k <= 7
  {
    [0x8000, 35734, 38968, 42496, 46341, 50536, 55110, 60098][k]
  }

  lemma StepTo(r: nat, h: nat)
    requires 0x8000 <= h < 0x1_0000
    ensures h * 0x8000 <= r * r < (h + 1) * 0x8000 ==> Digit(r) == 0 && Halved(r) == h
    ensures h * 0x1_0000 <= r * r < (h + 1) * 0x1_0000 ==> Digit(r) == 1 && Halved(r) == h
  {
    assert Shr(Squared(r), 0) == Squared(r) && Shr(Squared(r), 1) == Squared(r) / 2;
  }

  predicate Within(r: nat, h: nat, unit: nat) {
    h * unit <= r * r < (h + 1) * unit
  }

  /** The digits that the three squarings of a width leave. */
  lemma Evaluate(r: nat, r1: nat, r2: nat, r3: nat)
    requires 0x8000 <= r1 < 0x1_0000 && 0x8000 <= r2 < 0x1_0000 && 0x8000 <= r3 < 0x1_0000
    requires Within(r, r1, 0x8000) || Within(r, r1, 0x1_0000)
    requires Within(r1, r2, 0x8000) || Within(r1, r2, 0x1_0000)
    requires Within(r2, r3, 0x8000) || Within(r2, r3, 0x1_0000)
    ensures Correction(r) == (if Within(r, r1, 0x8000) then 0 else 4) + (if Within(r1, r2, 0x8000) then 0 else 2)
      + (if Within(r2, r3, 0x8000) then 0 else 1)
  {
    hide Digit, Halved;
    StepTo(r, r1);
    StepTo(r1, r2);
    StepTo(r2, r3);
  }

  lemma AtTheTurn(k: nat)
    requires 1 <= k <= 7
    ensures Correction(Turn(k) - 1) == k - 1 && Correction(Turn(k)) == k
  {
    hide Correction;
    match k
    case 1 =>
      Evaluate(35733, 38966, 46336, 65522);
      Evaluate(35734, 38968, 46341, 32768);
    case 2 =>
      Evaluate(38967, 46338, 65527, 65518);
      Evaluate(38968, 46341, 32768, 32768);
    case 3 =>
      Evaluate(42495, 55109, 46340, 65533);
      Evaluate(42496, 55112, 46346, 32775);
    case 4 =>
      Evaluate(46340, 65533, 65530, 65524);
      Evaluate(46341, 32768, 32768, 32768);
    case 5 =>
      Evaluate(50535, 38967, 46338, 65527);
      Evaluate(50536, 38969, 46343, 32770);
    case 6 =>
      Evaluate(55109, 46340, 65533, 65530);
      Evaluate(55110, 46342, 32769, 32770);
    case 7 =>
      Evaluate(60097, 55109, 46340, 65533);
      Evaluate(60098, 55111, 46344, 32772);
  }

  /** Which widths have which correction. */
  lemma CorrectionTurns(rng: nat, k: nat)
    requires 0x8000 <= rng < 0x1_0000 && 1 <= k <= 7
    ensures Correction(rng) >= k <==> rng >= Turn(k)
  {
    AtTheTurn(k);
    hide Correction;
    if rng < Turn(k) {
      CorrectionMono(rng, Turn(k) - 1);
    } else {
      CorrectionMono(Turn(k), rng);
    }
  }

  lemma Eighth(x: nat, x2: nat, x4: nat, x8: nat)
    requires x * x == x2 && x2 * x2 == x4 && x4 * x4 == x8
    ensures Sq(Sq(Sq(x))) == x8
  {
  }

  lemma Pow2From120()
    ensures Pow2(120) == 0x100_0000_0000_0000_0000_0000_0000_0000
  {
    Pow2Values();
    Pow2Product(15, 15);
    Pow2Product(30, 30);
    Pow2Product(60, 60);
  }

  lemma Pow2After120(c: nat)
    requires c <= 7
    ensures Pow2(121 + c) == 0x200_0000_0000_0000_0000_0000_0000_0000 *
      [1, 2, 4, 8, 16, 32, 64, 128][c]
  {
    if c == 0 {
      Pow2From120();
    } else {
      Pow2After120(c - 1);
    }
  }

  /** Three widths are worth the next eighth of a bit already. */
  predicate Late(rng: nat) {
    rng == 42495 || rng == 55109 || rng == 60097
  }

  /** The widest range of each correction, worth less than an eighth more unless it is late. */
  lemma WidestOf(c: nat)
    requires c <= 7
    ensures var top := if c == 7 then 0xFFFF else Turn(c + 1) - 1;
      if Late(top) then Sq(Sq(Sq(top - 1))) < Pow2(121 + c) <= Sq(Sq(Sq(top)))
      else Sq(Sq(Sq(top))) < Pow2(121 + c)
  {
    Pow2After120(c);
    hide Sq, Shl;
    match c
    case 0 => Eighth(35733, 1276847289, 1630338999426649521, 2658005253051488707163968771769529441);
    case 1 => Eighth(38967, 1518427089, 2305620824609013921, 5315887386870749333097879763971794241);
    case 2 =>
      Eighth(42495, 1805825025, 3261004020916250625, 10634147224431954343744540207812890625);
      Eighth(42494, 1805740036, 3260697077613281296, 10632145431955792987868057532023439616);
    case 3 => Eighth(46340, 2147395600, 4611307862899360000, 21264160206437462722345488409600000000);
    case 4 => Eighth(50535, 2553786225, 6521824082999750625, 42534189369595538129238603812187890625);
    case 5 =>
      Eighth(55109, 3037001881, 9223380425197538161, 85070746467917119839754818175051261921);
      Eighth(55108, 3036891664, 9222710978872688896, 85058397799818831407797386485201698816);
    case 6 =>
      Eighth(60097, 3611649409, 13044011453530049281, 170146234799823108993317782826288616961);
      Eighth(60096, 3611529216, 13043143278021574656, 170123586570999387942763590201781518336);
    case 7 => Eighth(65535, 4294836225, 18445618199572250625, 340240830764391036687105719527812890625);
  }

  /** The correction is eight times the logarithm of rng / 2^15, rounded down, except at the three
      late widths, where it is one less. */
  lemma CorrectionIsFloor(rng: nat)
    requires 0x8000 <= rng < 0x1_0000
    ensures Pow2(120 + Correction(rng)) <= Sq(Sq(Sq(rng)))
    ensures Sq(Sq(Sq(rng))) < Pow2(121 + Correction(rng)) <==> !Late(rng)
  {
    CorrectionSound(rng);
    CorrectionMono(rng, rng);
    hide Correction, Sq, Shl;
    var c := Correction(rng);
    WidestOf(c);
    var top := if c == 7 then 0xFFFF else Turn(c + 1) - 1;
    if c < 7 {
      CorrectionTurns(rng, c + 1);
    }
    if c > 0 {
      CorrectionTurns(rng, c);
    }
    var most := if Late(top) && rng < top then top - 1 else top;
    SqMono(rng, most);
    SqMono(Sq(rng), Sq(most));
    SqMono(Sq(Sq(rng)), Sq(Sq(most)));
  }

  /** With no bit spent the subtraction is in range exactly up to this width. An encoder
      without spent bits has width 0x8000, but a simulating writer can have any. */
  lemma CorrectionZero(rng: nat)
    requires 0x8000 <= rng < 0x1_0000
    ensures Correction(rng) == 0 <==> rng <= 0x8B95
  {
    hide Correction;
    CorrectionTurns(rng, 1);
  }

  /** The total in eighths of a bit, and whether the bits used cover the correction; if not, the
      32-bit subtraction wraps. */
  method FracCompute(nbitsTotal: nat, range: u16) returns (frac: nat, inRange: bool)
    requires 0x8000 <= range
    ensures inRange <==> Correction(range) <= 8 * nbitsTotal
    ensures frac == 8 * nbitsTotal - Correction(range) + (if inRange then 0 else WRAP)
  {
    hide Squared, Digit, Halved;
    var rng: u32 := range;
    var l := 0;
    for i := 0 to OD_BITRES
      invariant 0x8000 <= rng < 0x1_0000
      invariant i == 0 ==> rng == range && l == 0
      invariant i == 1 ==> rng == Halved(range) && l == Digit(range)
      invariant i == 2 ==> rng == Halved(Halved(range)) && l == 2 * Digit(range) + Digit(Halved(range))
      invariant i == 3 ==> l == Correction(range)
    {
      SquareStep(rng);
      rng, l := SquareAndShift(rng, l);
    }
    CorrectionMono(range, range);
    inRange := l <= 8 * nbitsTotal;
    frac := if inRange then 8 * nbitsTotal - l else 8 * nbitsTotal - l + WRAP;
  }

  method SquareAndShift(r: u32, l: nat) returns (rng: u32, l': nat)
    requires 0x8000 <= r < 0x1_0000
    ensures rng == Halved(r) && l' == 2 * l + Digit(r)
  {
    MulAtLeast(r);
    var product: u32 := r * r;
    rng := product / 0x8000;
    var b := rng / 0x1_0000;
    l' := 2 * l + b;
    ShrGap(rng, 0, b);
    rng := Shr(rng, b);
  }

  /** Eighths of a bit an encoder reports after coding these tokens, fake bits aside. */
  ghost function FracBits(ts: seq<Token>): int
    requires AllValid(ts)
  {
    8 * (Code(ts).shift + 1) - Correction(Code(ts).rng)
  }

  /** Coding one more token never lowers the count. */
  lemma FracBitsGrow(ts: seq<Token>, t: Token)
    requires AllValid(ts) && ValidToken(t)
    ensures AllValid(ts + [t]) && FracBits(ts) <= FracBits(ts + [t])
    ensures FracBits(ts) >= 1
  {
    hide ScaleBound, Correction;
    CodeSnoc(ts, t);
    var i := Code(ts);
    SubrangeBounds(i.rng, t);
    var r := Sub(i, t).rng;
    var d := LeadingZeros16(r);
    LeadingZeros16Range(r);
    var j := Narrow(i, t);
    CorrectionMono(i.rng, i.rng);
    CorrectionMono(j.rng, j.rng);
    if d == 0 {
      CorrectionMono(j.rng, i.rng);
    }
  }
}
