/** What may follow a finished stream. `done` leaves zeros implied after its last byte;
    other bytes there are harmless exactly when the interval has room for them. */
module EncoderTail {
  import opened Bits
  import opened RangeInterval
  import opened EncoderState
  import opened EncoderFlush

  lemma BitOfJoin(b: seq<u8>, rest: seq<u8>, k: nat)
    ensures BitAt(b + rest, 8 * |b| + k) == BitAt(rest, k)
  {
    hide Shr;
    var n := 8 * |b| + k;
    assert n / 8 == |b| + k / 8 && n % 8 == k % 8;
  }

  lemma {:induction false} PrefixOfJoin(b: seq<u8>, rest: seq<u8>, k: nat)
    ensures Prefix(b + rest, 8 * |b| + k) == Shl(Value(b), k) + Prefix(rest, k)
  {
    hide Prefix, Value, BitAt;
    if k == 0 {
      NextBit(rest, 0);
      PrefixOfBytes(b + rest, |b|);
      assert (b + rest)[..|b|] == b;
    } else {
      assert Shl(Value(b), k) == 2 * Shl(Value(b), k - 1);
      hide Shl;
      PrefixOfJoin(b, rest, k - 1);
      NextBit(b + rest, 8 * |b| + (k - 1));
      NextBit(rest, k - 1);
      BitOfJoin(b, rest, k - 1);
    }
  }

  lemma {:induction false} PrefixBelow(b: seq<u8>, k: nat)
    ensures Prefix(b, k) < Pow2(k)
  {
    if k > 0 {
      PrefixBelow(b, k - 1);
    }
  }

  lemma {:induction false} PrefixOfOnes(k: nat)
    requires k <= 16
    ensures Prefix([255, 255], k) + 1 == Pow2(k)
  {
    if k > 0 {
      PrefixOfOnes(k - 1);
      ShrOfOnes(7 - (k - 1) % 8);
    }
  }

  lemma {:induction false} ShrOfOnes(n: nat)
    requires n <= 7
    ensures Shr(255, n) % 2 == 1
  {
    assert Shr(255, 3) == 31;
    if n > 3 {
      assert Shr(255, 4) == Shr(15, 0) && Shr(255, 5) == Shr(15, 1);
      assert Shr(255, 6) == Shr(15, 2) && Shr(255, 7) == Shr(15, 3);
    }
  }

  // The trailing bit ---------------------------------------------------------------------------

  lemma {:induction false} ZerosAfter(b: seq<u8>, k: nat, d: nat)
    requires Prefix(b, k + d) == Shl(Prefix(b, k), d)
    ensures forall j :: k <= j < k + d ==> BitAt(b, j) == 0
  {
    if d == 0 {
    } else {
      PrefixExtend(b, k, d - 1);
      assert Prefix(b, k + d) == 2 * Prefix(b, k + (d - 1)) + BitAt(b, k + (d - 1));
      ZerosAfter(b, k, d - 1);
    }
  }

  /** An odd number of units of 2^14 ends in a one and fourteen zeros. */
  lemma LastOne(b: seq<u8>, n: nat, q: nat)
    requires Prefix(b, n + 1 + 14) == 0x4000 * q && q % 2 == 1
    ensures BitAt(b, n) == 1 && forall j :: n < j < n + 15 ==> BitAt(b, j) == 0
  {
    PrefixExtend(b, n + 1, 14);
    Pow2Values();
    Shl14(Prefix(b, n + 1));
    assert Prefix(b, n + 1) == 2 * Prefix(b, n) + BitAt(b, n);
    hide Prefix, Shl, BitAt;
    assert Prefix(b, n + 1) == q;
    ZerosAfter(b, n + 1, 14);
  }

  lemma FlushPointOdd(low: nat) returns (q: nat)
    ensures FlushPoint(low) == 0x4000 * q && q % 2 == 1
  {
    var up := (low + 0x3FFF) / 0x4000;
    assert up * 0x4000 / 0x4000 == up;
    q := if up % 2 == 0 then up + 1 else up;
  }

  lemma OddUnits(low: nat, value: nat, k: nat) returns (q: nat)
    requires k >= 15
    ensures Shl(value, k) + FlushPoint(low) == 0x4000 * q && q % 2 == 1
  {
    ShlShl(value, k - 15, 15);
    var high := Shl(value, k - 15);
    Shl14(high);
    assert Shl(high, 15) == 2 * Shl(high, 14);
    hide Shl, FlushPoint;
    q := FlushPointOdd(low);
    q := q + 2 * high;
  }

  /** The last bit of a tile is a one, right after the bits that were told; zeros fill the byte. */
  lemma TrailingBit(e: Enc, out: seq<u8>)
    requires Reachable(e) && FlushedFrom(e, out)
    ensures BitAt(out, Shift(e)) == 1 && forall k :: k > Shift(e) ==> BitAt(out, k) == 0
  {
    hide Shl, Prefix, Value, FlushPoint, FlushedFrom;
    FlushedHolds(e, out);
    var q := OddUnits(e.low, Value(e.precarry), e.cnt + 24);
    hide Reachable, TailBits;
    LastOne(out, Shift(e), q);
  }

  /** A finished stream stays correct whatever bytes follow it if and only if a whole
      unit of its last place fits between the flushed value and the top of the interval. */
  lemma AnyTailHolds(i: Interval, out: seq<u8>)
    requires 8 * |out| - 7 <= i.shift + 1 <= 8 * |out|
    requires Holds(i, out)
    ensures (forall rest: seq<u8> :: Holds(i, out + rest))
       <==> Prefix(out, i.shift + 15) + Pow2(i.shift + 15 - 8 * |out|) <= i.low + i.rng
  {
    hide Prefix, Shl;
    var k := i.shift + 15 - 8 * |out|;
    assert i.shift + 15 == 8 * |out| + k;
    PrefixPastEnd(out, k);
    if Prefix(out, i.shift + 15) + Pow2(k) <= i.low + i.rng {
      forall rest: seq<u8> ensures Holds(i, out + rest) {
        PrefixOfJoin(out, rest, k);
        PrefixBelow(rest, k);
      }
    } else {
      PrefixOfJoin(out, [255, 255], k);
      PrefixOfOnes(k);
      assert !Holds(i, out + [255, 255]);
    }
  }

  /** Room for any tail, told from the encoder's fields before it is flushed. */
  predicate RoomForTail(low: nat, rng: nat, cnt: int) {
    TailBits(cnt) >= 0 && FlushPoint(low) + Pow2(TailBits(cnt)) <= low + rng
  }

  /** What `done` writes decodes correctly whatever bytes follow if and only if there is room. */
  lemma FlushedTail(e: Enc, out: seq<u8>)
    requires Reachable(e) && FlushedFrom(e, out)
    ensures (forall rest: seq<u8> :: Holds(IntervalOf(e), out + rest)) <==> RoomForTail(e.low, e.rng, e.cnt)
  {
    hide Holds, Prefix, FlushPoint, FlushedFrom;
    FlushedHolds(e, out);
    AnyTailHolds(IntervalOf(e), out);
  }

  /** There need not be room: the state after one symbol flushes to a byte that must be
      followed by zeros. */
  lemma TailCanMatter(e: Enc, out: seq<u8>)
    requires AllValid([Token(13376, 13120, 2)]) && Reachable(e) && FlushedFrom(e, out)
    requires IntervalOf(e) == Code([Token(13376, 13120, 2)])
    ensures out == [153] && !RoomForTail(e.low, e.rng, e.cnt)
    ensures !Holds(IntervalOf(e), [153, 255, 255])
  {
    OneSymbolInterval();
    hide Prefix, Shl, Code;
    assert e.cnt == -2 && e.precarry == [];
    NoWords(e.cnt + 24);
    FlushPointThere();
    assert out == [out[0]];
    ValueOfOne(out[0]);
    PrefixPastEnd([153], 14);
    PrefixOfJoin([153], [255, 255], 14);
    PrefixOfOnes(14);
    assert [153] + [255, 255] == [153, 255, 255];
    Pow2Values();
  }

  // Two flat bits, the second in a range wider than the first's -----------------------------------

  const TWO_BITS := [Token(32768, 16384, 2), Token(16384, 0, 1)]

  lemma TwoBitsFlush(e: Enc, out: seq<u8>)
    requires AllValid(TWO_BITS) && Reachable(e) && FlushedFrom(e, out) && IntervalOf(e) == Code(TWO_BITS)
    ensures out == [80]
  {
    TwoBitsInterval();
    hide Shl, Code;
    assert e.cnt == -6 && e.precarry == [];
    NoWords(e.cnt + 24);
    assert FlushPoint(65752) == 80 * 0x400;
    assert out == [out[0]];
    ValueOfOne(out[0]);
    Shl10(out[0]);
  }

  lemma Shl10(x: nat)
    ensures Shl(x, 10) == 0x400 * x
  {
    Shl8(x);
    assert Shl(x, 10) == 4 * Shl(x, 8);
  }

  lemma TwoBitsInterval()
    ensures AllValid(TWO_BITS) && Code(TWO_BITS) == Interval(65752, 65288, 3)
  {
    var t, u := TWO_BITS[0], TWO_BITS[1];
    TwoBitsSteps();
    hide Shl, LeadingZeros16, ScaleBound, UpperBound, LowerBound, Sub;
    CodeSnoc([], t);
    CodeSnoc([t], u);
    assert [] + [t] == [t] && [t] + [u] == TWO_BITS;
  }

  lemma TwoBitsSteps()
    ensures Sub(WHOLE, TWO_BITS[0]) == Interval(0, 16380, 0)
    ensures Sub(Interval(0, 65520, 2), TWO_BITS[1]) == Interval(32876, 32644, 2)
    ensures LeadingZeros16(16380) == 2 && LeadingZeros16(32644) == 1
    ensures Shl(0, 2) == 0 && Shl(16380, 2) == 65520 && Shl(32876, 1) == 65752 && Shl(32644, 1) == 65288
  {
    assert ScaleBound(0x8000, 16384) == 128 * 256 / 2 == 16384;
    assert ScaleBound(65520, 16384) == 255 * 256 / 2 == 32640;
    assert ScaleBound(65520, 0) == 0;
    assert LeadingZeros16(65520) == 0 && LeadingZeros16(32760) == 1;
    assert LeadingZeros16(65288) == 0;
  }

  lemma NoWords(k: nat)
    ensures Shl(Value([]), k) == 0
  {
    ShlAdd(0, 0, k);
  }

  lemma FlushPointThere()
    ensures FlushPoint(2481152) == 153 * 0x4000
  {
  }

  lemma OneSymbolInterval()
    ensures AllValid([Token(13376, 13120, 2)])
    ensures Code([Token(13376, 13120, 2)]) == Interval(2481152, 33280, 7)
  {
    var t := Token(13376, 13120, 2);
    FirstSubrange();
    SevenShifts();
    hide Shl, LeadingZeros16, ScaleBound, UpperBound, LowerBound, Sub;
    CodeSnoc([], t);
    assert [] + [t] == [t];
  }

  lemma FirstSubrange()
    ensures Sub(WHOLE, Token(13376, 13120, 2)) == Interval(19384, 260, 0)
  {
    assert ScaleBound(0x8000, 13376) == 128 * 209 / 2 == 13376;
    assert ScaleBound(0x8000, 13120) == 128 * 205 / 2 == 13120;
  }

  lemma ValueOfOne(x: u8)
    ensures Value([x]) == x && Shl(x, 14) == 0x4000 * x
  {
    assert [x][..0] == [];
    Shl14(x);
  }

  lemma SevenShifts()
    ensures LeadingZeros16(260) == 7
    ensures Shl(19384, 7) == 2481152 && Shl(260, 7) == 33280
  {
    assert LeadingZeros16(0x8200) == 0;
    assert LeadingZeros16(4160) == 3;
    assert LeadingZeros16(1040) == 5;
    assert Shl(19384, 3) == 155072 && Shl(19384, 6) == 1240576;
    assert Shl(260, 3) == 2080 && Shl(260, 6) == 16640;
  }
}
