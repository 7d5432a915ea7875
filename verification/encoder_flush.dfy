/** Ending a stream: the value `done` flushes, and what its bytes mean to a reader. */
module EncoderFlush {
  import opened Bits
  import opened RangeInterval
  import opened EncoderState

  /** `((l + m) & !m) | (m + 1)` with m = 0x3FFF. */
  function FlushPoint(low: nat): nat {
    var up := (low + 0x3FFF) / 0x4000 * 0x4000;
    if up / 0x4000 % 2 == 0 then up + 0x4000 else up
  }

  lemma FlushPointInside(low: nat)
    ensures low <= FlushPoint(low) < low + 0x8000
    ensures LowBits(FlushPoint(low), 14) == 0
  {
    var e := FlushPoint(low);
    assert e == 0x4000 * (e / 0x4000);
    Shl14(e / 0x4000);
    SplitUniqueZero(e / 0x4000);
  }

  lemma SplitUniqueZero(q: nat)
    ensures LowBits(Shl(q, 14), 14) == 0
  {
    ShlAtLeast(1, 14);
    SplitUnique(q, 0, 14);
  }

  lemma Shl14(q: nat)
    ensures Shl(q, 14) == 0x4000 * q
  {
    Shl8(q);
    assert Shl(q, 10) == 4 * Shl(q, 8);
    assert Shl(q, 12) == 4 * Shl(q, 10);
  }

  lemma {:induction false} MaskKeepsZeros(x: nat, k: nat, n: nat)
    requires LowBits(x, n) == 0
    ensures LowBits(LowBits(x, k), n) == 0
    decreases n
  {
    if k > 0 && n > 0 {
      assert LowBits(x, n) == 2 * LowBits(x / 2, n - 1) + x % 2;
      var y := LowBits(x, k);
      assert y == 2 * LowBits(x / 2, k - 1) + x % 2;
      assert y / 2 == LowBits(x / 2, k - 1) && LowBits(y, n) == 2 * LowBits(y / 2, n - 1) + y % 2;
      hide LowBits;
      MaskKeepsZeros(x / 2, k - 1, n - 1);
    } else {
      ZeroLowBits(n);
    }
  }

  lemma ZeroWhenSmall(x: nat, n: nat)
    requires LowBits(x, n) == 0 && x < Pow2(n)
    ensures x == 0
  {
    SplitBits(x, n);
    ShrBound(x, 1, n);
    ShlAdd(0, 0, n);
  }

  lemma {:induction false} ZeroLowBits(n: nat)
    ensures LowBits(0, n) == 0
  {
    if n > 0 {
      ZeroLowBits(n - 1);
    }
  }

  // Bytes as seen by a reader ----------------------------------------------

  lemma {:induction false} ValuePrepend(w: nat, ws: seq<nat>)
    ensures Value([w] + ws) == Shl(w, 8 * |ws|) + Value(ws)
    decreases |ws|
  {
    if ws == [] {
      assert [w] + ws == [w];
      assert [w][..0] == [];
    } else {
      var n := |ws| - 1;
      ValuePrepend(w, ws[..n]);
      assert ([w] + ws)[..|ws|] == [w] + ws[..n];
      ShlShl(w, 8 * n, 8);
      Shl8(Shl(w, 8 * n));
    }
  }

  lemma {:induction false} ShrHalf(x: nat, n: nat)
    ensures Shr(x, n + 1) == Shr(x, n) / 2
    decreases n
  {
    if n > 0 {
      ShrHalf(x / 2, n - 1);
    }
  }

  lemma BitOfByte(b: seq<u8>, k: nat, j: nat)
    requires k < |b| && j < 8
    ensures BitAt(b, 8 * k + j) == Shr(b[k], 7 - j) % 2
  {
    hide Shr;
    assert (8 * k + j) / 8 == k && (8 * k + j) % 8 == j;
  }

  lemma {:induction false} ByteBits(b: seq<u8>, k: nat, j: nat)
    requires k < |b| && j <= 8
    requires Shr(b[k], 8) == 0
    ensures Prefix(b, 8 * k + j) == Shl(Prefix(b, 8 * k), j) + Shr(b[k], 8 - j)
  {
    hide Prefix, Shr, BitAt;
    if j > 0 {
      assert Shl(Prefix(b, 8 * k), j) == 2 * Shl(Prefix(b, 8 * k), j - 1);
      hide Shl;
      ByteBits(b, k, j - 1);
      NextBit(b, 8 * k + (j - 1));
      BitOfByte(b, k, j - 1);
      ShrHalf(b[k], 8 - j);
    }
  }

  lemma NextByte(b: seq<u8>, k: nat)
    requires k < |b|
    ensures Prefix(b, 8 * k + 8) == 256 * Prefix(b, 8 * k) + b[k]
  {
    hide Prefix;
    assert Shr(b[k], 0) == b[k];
    Pow2Values();
    hide Shl;
    ShrBound(b[k], 1, 8);
    hide Shr;
    ByteBits(b, k, 8);
    Shl8(Prefix(b, 8 * k));
  }

  lemma {:induction false} PrefixOfBytes(b: seq<u8>, k: nat)
    requires k <= |b|
    ensures Prefix(b, 8 * k) == Value(b[..k])
  {
    if k == 0 {
      assert Prefix(b, 0) == 0 && Value([]) == 0;
    } else {
      assert b[..k][..k - 1] == b[..k - 1];
      assert Value(b[..k]) == 256 * Value(b[..k - 1]) + b[k - 1];
      hide Prefix, Value;
      PrefixOfBytes(b, k - 1);
      NextByte(b, k - 1);
    }
  }

  /** Past its end a stream reads as zeros. */
  lemma {:induction false} PrefixPastEnd(b: seq<u8>, k: nat)
    ensures Prefix(b, 8 * |b| + k) == Shl(Value(b), k)
  {
    if k == 0 {
      PrefixOfBytes(b, |b|);
      assert b[..|b|] == b;
    } else {
      PrefixPastEnd(b, k - 1);
      assert BitAt(b, 8 * |b| + (k - 1)) == 0;
      assert Prefix(b, 8 * |b| + k) == 2 * Prefix(b, 8 * |b| + (k - 1)) + BitAt(b, 8 * |b| + (k - 1));
    }
  }

  /** Bits of the window that the flushed bytes leave out. */
  function TailBits(cnt: int): int {
    if cnt == -1 then 7 else cnt + 16
  }

  /** The bytes `done` makes of a state: one or two more than the words already emitted, with
      the flush point as their value. */
  ghost predicate FlushedFrom(e: Enc, out: seq<u8>) {
    && -9 <= e.cnt <= -1
    && |out| == |e.precarry| + (if e.cnt == -1 then 2 else 1)
    && Shl(Value(out), TailBits(e.cnt)) == Shl(Value(e.precarry), e.cnt + 24) + FlushPoint(e.low)
  }

  lemma FlushedLength(e: Enc, out: seq<u8>)
    requires FlushedFrom(e, out)
    ensures Shift(e) + 15 - 8 * |out| == TailBits(e.cnt) >= 7 && 8 * |out| - 7 <= Shift(e) + 1 <= 8 * |out|
  {
    hide Shl, Value, FlushPoint;
  }

  /** The flushed bytes are a bitstream of the final interval, at the flush point itself. */
  lemma FlushedHolds(e: Enc, out: seq<u8>)
    requires Reachable(e) && FlushedFrom(e, out)
    ensures Holds(IntervalOf(e), out)
    ensures Prefix(out, Shift(e) + 15) == IntervalOf(e).low + (FlushPoint(e.low) - e.low)
    ensures Shift(e) + 15 - 8 * |out| == TailBits(e.cnt) && 8 * |out| - 7 <= Shift(e) + 1 <= 8 * |out|
  {
    hide Shl, Prefix, Value, FlushPoint;
    FlushPointInside(e.low);
    FlushedLength(e, out);
    assert Shl(Value(out), TailBits(e.cnt)) == IntervalOf(e).low - e.low + FlushPoint(e.low);
    assert e.rng >= 0x8000;
    hide Reachable, TailBits, FlushedFrom;
    var k := TailBits(e.cnt);
    PrefixPastEnd(out, k);
    assert 8 * |out| + k == Shift(e) + 15;
  }

  lemma FlushPointBelowTop(e: Enc)
    requires Reachable(e)
    ensures -9 <= e.cnt <= -1 && Shl(Value(e.precarry), e.cnt + 24) + FlushPoint(e.low) < Pow2(Shift(e) + 15)
  {
    hide Shl, Value, FlushPoint, LowBits;
    FlushPointInside(e.low);
  }

  /** The flushed value is below one, so resolving carries never needs another byte in front. */
  lemma FlushedBelowOne(e: Enc, w: Window)
    requires Reachable(e)
    requires w.low == 0 && w.cnt >= -24
    requires Content(w) == Content(Window(e.precarry, FlushPoint(e.low), e.cnt))
    requires 8 * |w.words| + w.cnt == 8 * |e.precarry| + e.cnt
    ensures Value(w.words) < Pow2(8 * |w.words|)
  {
    hide Shl, Value, FlushPoint, Reachable;
    FlushPointBelowTop(e);
    var n := 8 * |w.words|;
    assert n + (w.cnt + 24) == Shift(e) + 15;
    hide Content, Shift;
    ShlShl(1, n, w.cnt + 24);
    ShlMono(Pow2(n), Value(w.words), w.cnt + 24);
  }
}
