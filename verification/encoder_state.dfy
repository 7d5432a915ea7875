/** The encoder's finite-precision state, the interval it stands for, and the
    proof that storing a token narrows that interval exactly. */
module EncoderState {
  import opened Bits
  import opened RangeInterval

  /** precarry words are base-256 digits that may still hold a carry (up to 511). */
  datatype Enc = Enc(precarry: seq<nat>, low: nat, rng: nat, cnt: int)

  const NEW := Enc([], 0, 0x8000, -9)

  /** Base-256 value of a word list, carries included. */
  function Value(ws: seq<nat>): nat {
    if ws == [] then 0 else 256 * Value(ws[..|ws| - 1]) + ws[|ws| - 1]
  }

  function Shift(e: Enc): int {
    8 * |e.precarry| + e.cnt + 9
  }

  ghost function IntervalOf(e: Enc): Interval
    requires e.cnt >= -9
  {
    Interval(Shl(Value(e.precarry), e.cnt + 24) + e.low, e.rng, Shift(e))
  }

  /** What every reachable encoder state satisfies. */
  ghost predicate Reachable(e: Enc) {
    && -9 <= e.cnt <= -1
    && 0x8000 <= e.rng < 0x1_0000
    && e.low + e.rng <= Pow2(e.cnt + 25)
    && (forall k :: 0 <= k < |e.precarry| ==> e.precarry[k] <= 511)
    && (e.cnt == -9 ==> e.precarry == [])
    && IntervalOf(e).low + e.rng <= Pow2(Shift(e) + 15)
  }

  lemma NewReachable()
    ensures Reachable(NEW) && IntervalOf(NEW) == WHOLE
  {
    Pow2Values();
    ShlAdd(0, 0, 15);
  }

  /** The window never needs more than 24 bits and `low + rng` never overflows it. */
  lemma LowBounded(e: Enc)
    requires Reachable(e)
    ensures e.low + e.rng <= 0x100_0000
  {
    Pow2Values();
    Pow2Mono(e.cnt + 25, 24);
  }

  /** With no shift spent the range is still whole, so `cnt + 9` bits bound the correction. */
  lemma FreshRange(e: Enc)
    requires Reachable(e) && e.cnt == -9
    ensures e.rng == 0x8000 && e.low == 0
  {
    Pow2Values();
  }

  /** The words already emitted and the `cnt + 25` bits still in the window. */
  datatype Window = Window(words: seq<nat>, low: nat, cnt: int)

  /** The word above bit `cnt + 16` leaves the window. */
  function Push(w: Window): Window
    requires w.cnt >= -16
  {
    Window(w.words + [Shr(w.low, w.cnt + 16)], LowBits(w.low, w.cnt + 16), w.cnt - 8)
  }

  function Content(w: Window): nat
    requires w.cnt >= -24
  {
    Shl(Value(w.words), w.cnt + 24) + w.low
  }

  /** The window moves left by d after none, one or two words have left it. */
  function Shifted(e: Enc, sum: nat, r: nat, d: nat): Enc
    requires -9 <= e.cnt <= -1 && d <= 15
  {
    var w := Flushed(Window(e.precarry, sum, e.cnt), d);
    Enc(w.words, Shl(w.low, d), Shl(r, d), w.cnt + d)
  }

  function Flushed(w: Window, d: nat): Window
    requires -9 <= w.cnt <= -1 && d <= 15
  {
    if w.cnt + d < 0 then w
    else if w.cnt + d < 8 then Push(w)
    else Push(Push(w))
  }

  /** The state after one token: its sub-range, shifted up until bit 15 is set again. */
  function Stored(e: Enc, t: Token): Enc
    requires Reachable(e) && ValidToken(t)
  {
    SubrangeBounds(e.rng, t);
    var r := UpperBound(e.rng, t) - LowerBound(e.rng, t);
    LeadingZeros16Range(r);
    Shifted(e, e.low + (e.rng - UpperBound(e.rng, t)), r, LeadingZeros16(r))
  }

  lemma ValueAppend(ws: seq<nat>, w: nat)
    ensures Value(ws + [w]) == 256 * Value(ws) + w
  {
    assert (ws + [w])[..|ws|] == ws;
  }

  /** Moving a digit out of the window keeps the value it stands for. */
  lemma PushKeeps(w: Window)
    requires w.cnt >= -16
    ensures Content(Push(w)) == Content(w)
  {
    var c := w.cnt + 16;
    SplitBits(w.low, c);
    ShlAdd(256 * Value(w.words), Shr(w.low, c), c);
    EightMore(Value(w.words), c);
    ValueAppend(w.words, Shr(w.low, c));
  }

  lemma EightMore(p: nat, c: nat)
    ensures Shl(p, c + 8) == Shl(256 * p, c)
  {
    ShlShl(p, 8, c);
    Shl8(p);
  }

  lemma Shl8(p: nat)
    ensures Shl(p, 8) == 256 * p
  {
    assert Shl(p, 1) == 2 * p;
    assert Shl(p, 2) == 4 * p;
    assert Shl(p, 4) == 16 * p;
    assert Shl(p, 6) == 64 * p;
  }

  lemma Rescaled(p: nat, k: nat, d: nat, low: nat)
    ensures Shl(p, k + d) + Shl(low, d) == Shl(Shl(p, k) + low, d)
  {
    ShlShl(p, k, d);
    ShlAdd(Shl(p, k), low, d);
  }

  lemma ShiftedValue(e: Enc, sum: nat, r: nat, d: nat)
    requires -9 <= e.cnt <= -1 && d <= 15
    ensures var f := Shifted(e, sum, r, d);
      && f.cnt >= -9
      && IntervalOf(f).low == Shl(Shl(Value(e.precarry), e.cnt + 24) + sum, d)
      && Shift(f) == Shift(e) + d
  {
    var w := Window(e.precarry, sum, e.cnt);
    PushKeeps(w);
    if w.cnt + d >= 8 {
      PushKeeps(Push(w));
    }
    var v := Flushed(w, d);
    Rescaled(Value(v.words), v.cnt + 24, d, v.low);
  }

  /** Storing a token is exactly narrowing the interval, at any precision. */
  lemma StoredNarrows(e: Enc, t: Token)
    requires Reachable(e) && ValidToken(t)
    ensures Stored(e, t).cnt >= -9
    ensures IntervalOf(Stored(e, t)) == Narrow(IntervalOf(e), t)
  {
    hide ScaleBound;
    SubrangeBounds(e.rng, t);
    var r := UpperBound(e.rng, t) - LowerBound(e.rng, t);
    LeadingZeros16Range(r);
    ShiftedValue(e, e.low + (e.rng - UpperBound(e.rng, t)), r, LeadingZeros16(r));
  }

  /** The window left after a push is at most half full, so the next carry has room. */
  lemma WindowBound(lo: nat, c: nat, d: nat, r: nat)
    requires lo < Pow2(c) && Shl(r, d) <= 0x1_0000 && c + d >= 16
    ensures Shl(lo, d) + Shl(r, d) <= Pow2(c + d + 1)
  {
    ShlShl(1, c, d);
    ShlMono(lo, Pow2(c), d);
    Pow2Values();
    Pow2Mono(16, c + d);
  }

  lemma ShiftedFits(e: Enc, sum: nat, r: nat, d: nat)
    requires -9 <= e.cnt <= -1 && (e.cnt == -9 ==> e.precarry == [])
    requires forall k :: 0 <= k < |e.precarry| ==> e.precarry[k] <= 511
    requires 0 < r && sum + r <= Pow2(e.cnt + 25)
    requires d <= 15 && 0x8000 <= Shl(r, d) < 0x1_0000
    ensures var f := Shifted(e, sum, r, d);
      && -9 <= f.cnt <= -1
      && f.low + f.rng <= Pow2(f.cnt + 25)
      && (forall k :: 0 <= k < |f.precarry| ==> f.precarry[k] <= 511)
      && (f.cnt == -9 ==> f.precarry == [])
      && e.precarry <= f.precarry
  {
    hide Shl, Shr, LowBits;
    var w := Window(e.precarry, sum, e.cnt);
    if w.cnt + d < 0 {
      ShlShl(1, e.cnt + 25, d);
      ShlMono(sum + r, Pow2(e.cnt + 25), d);
      ShlAdd(sum, r, d);
    } else {
      PushFits(w);
      if w.cnt + d >= 8 {
        PushFits(Push(w));
      }
      WindowBound(Flushed(w, d).low, Flushed(w, d).cnt + 24, d, r);
    }
  }

  lemma PushFits(w: Window)
    requires w.cnt >= -16 && w.low < Pow2(w.cnt + 25)
    ensures Push(w).words[|w.words|] <= 511
    ensures Push(w).low < Pow2(Push(w).cnt + 24) < Pow2(Push(w).cnt + 25)
  {
    SplitBits(w.low, w.cnt + 16);
    WordFits(w.low, w.cnt + 16);
    ShlAtLeast(1, w.cnt + 16);
  }

  lemma WordFits(sum: nat, c: nat)
    requires sum < Pow2(c + 9)
    ensures Shr(sum, c) <= 511
  {
    EightMore(1, c);
    assert Pow2(c + 9) == 2 * Pow2(c + 8);
    ShlAdd(256, 256, c);
    ShrBound(sum, 512, c);
  }

  lemma StoredReachable(e: Enc, t: Token)
    requires Reachable(e) && ValidToken(t)
    ensures Reachable(Stored(e, t))
    ensures e.precarry <= Stored(e, t).precarry
  {
    hide ScaleBound, Shl, Shr, LowBits, LeadingZeros16, Value;
    StoredNarrows(e, t);
    NarrowInUnit(IntervalOf(e), t);
    SubrangeBounds(e.rng, t);
    var r := UpperBound(e.rng, t) - LowerBound(e.rng, t);
    LeadingZeros16Range(r);
    ShiftedFits(e, e.low + (e.rng - UpperBound(e.rng, t)), r, LeadingZeros16(r));
  }

  // Whole runs -------------------------------------------------------------

  function StoredAll(e: Enc, ts: seq<Token>): Enc
    requires Reachable(e) && AllValid(ts)
    ensures Reachable(StoredAll(e, ts))
    decreases |ts|
  {
    if ts == [] then e
    else
      var f := StoredAll(e, ts[..|ts| - 1]);
      StoredReachable(f, ts[|ts| - 1]);
      Stored(f, ts[|ts| - 1])
  }

  /** Over any run the encoder's interval is the ideal coder's. */
  lemma {:induction false} StoredAllCodes(ts: seq<Token>)
    requires AllValid(ts)
    ensures Reachable(NEW) && IntervalOf(StoredAll(NEW, ts)) == Code(ts)
    decreases |ts|
  {
    NewReachable();
    if ts != [] {
      StoredAllCodes(ts[..|ts| - 1]);
      StoredNarrows(StoredAll(NEW, ts[..|ts| - 1]), ts[|ts| - 1]);
    }
  }

  /** Words once emitted are never touched again: carries stay pending inside them,
      so truncating the buffer is enough to undo any number of stores. */
  lemma {:induction false} StoredAllExtends(ts: seq<Token>, n: nat)
    requires Reachable(NEW) && AllValid(ts) && n <= |ts|
    ensures StoredAll(NEW, ts[..n]).precarry <= StoredAll(NEW, ts).precarry
    decreases |ts|
  {
    if n == |ts| {
      assert ts[..n] == ts;
    } else {
      var m := |ts| - 1;
      assert ts[..m][..n] == ts[..n];
      assert StoredAll(NEW, ts) == Stored(StoredAll(NEW, ts[..m]), ts[m]);
      hide Stored, Reachable, StoredAll;
      StoredAllExtends(ts[..m], n);
      StoredReachable(StoredAll(NEW, ts[..m]), ts[m]);
    }
  }

  lemma StoredAllSnoc(ts: seq<Token>, t: Token)
    requires Reachable(NEW) && AllValid(ts) && ValidToken(t)
    ensures AllValid(ts + [t]) && StoredAll(NEW, ts + [t]) == Stored(StoredAll(NEW, ts), t)
  {
    assert (ts + [t])[..|ts|] == ts;
  }
}
