/** The writer that produces a range-coded bitstream. */
module Encoder {
  import opened Bits
  import opened RangeInterval
  import opened Cdf
  import opened EncoderState
  import opened EncoderFlush
  import opened EncoderTail
  import opened BitCost
  import opened SymbolCost

  /** A position to return to; each writer reads only checkpoints of its own. */
  datatype Checkpoint = Checkpoint(streamSize: nat, backendVar: nat, rng: nat, cnt: int)

  ghost function EncoderCheckpoint(ts: seq<Token>): Checkpoint
    requires Reachable(NEW) && AllValid(ts)
  {
    var e := StoredAll(NEW, ts);
    Checkpoint(|e.precarry|, e.low, e.rng, e.cnt)
  }

  class WriterEncoder {
    var rng: u16
    var cnt: int
    var low: u32
    var precarry: seq<u16>
    var fakeBitsFrac: nat
    // The tokens the state stands for: those stored and not rolled back.
    ghost var tokens: seq<Token>

    ghost function State(): Enc
      reads this
    {
      Enc(precarry, low, rng, cnt)
    }

    ghost predicate Valid()
      reads this
    {
      AllValid(tokens) && Reachable(NEW) && State() == StoredAll(NEW, tokens)
    }

    constructor ()
      ensures Valid() && tokens == [] && fakeBitsFrac == 0
    {
      rng, cnt, low, precarry, fakeBitsFrac := 0x8000, -9, 0, [], 0;
      tokens := [];
      new;
      NewReachable();
    }

    /** None of the fixed-width steps below overflows on a reachable state. */
    method Store(t: Token)
      requires Valid() && ValidToken(t)
      modifies this
      ensures Valid() && tokens == old(tokens) + [t] && fakeBitsFrac == old(fakeBitsFrac)
    {
      hide ScaleBound, Shl, Shr, LowBits, LeadingZeros16, Value, StoredAll;
      StoredAllSnoc(tokens, t);
      SubrangeBounds(rng, t);
      LowBounded(State());
      StoredReachable(State(), t);
      var l: u32 := rng - UpperBound(rng, t);
      var r: u16 := UpperBound(rng, t) - LowerBound(rng, t);
      var sum: u32 := l + low;
      var c := cnt;
      LeadingZeros16Range(r);
      var d := LeadingZeros16(r);
      var s := c + d;
      LowBounded(Stored(State(), t));
      if s >= 0 {
        c := c + 16;
        ghost var w := Window(precarry, sum, cnt);
        PushFits(w);
        if s >= 8 {
          PushFits(Push(w));
          precarry := precarry + [Shr(sum, c)];
          SplitBits(sum, c);
          sum := LowBits(sum, c);
          c := c - 8;
        }
        precarry := precarry + [Shr(sum, c)];
        s := c + d - 24;
        SplitBits(sum, c);
        sum := LowBits(sum, c);
      }
      low := Shl(sum, d);
      rng := Shl(r, d);
      cnt := s;
      tokens := tokens + [t];
    }

    method Symbol(s: nat, cdf: CdfTable)
      requires Valid() && Codable(cdf) && s < |cdf|
      modifies this
      ensures Valid() && tokens == old(tokens) + [TokenOf(cdf, s)] && fakeBitsFrac == old(fakeBitsFrac)
    {
      TokenOfValid(cdf, s);
      Store(TokenOf(cdf, s));
    }

    method SymbolWithUpdate(s: nat, cdf: array<nat>)
      requires Valid() && Adaptable(cdf[..]) && s < cdf.Length
      modifies this, cdf
      ensures Valid() && tokens == old(tokens) + [TokenOf(old(cdf[..]), s)]
      ensures cdf[..] == Learned(old(cdf[..]), s)
    {
      hide StoredAll, TokenOf;
      AdaptableIsCodable(cdf[..]);
      AdaptedStays(cdf[..], s);
      Symbol(s, cdf[..]);
      UpdateCdf(cdf, s);
    }

    /** val codes as symbol 1 of a two-entry table whose first entry is f. */
    method Bool(val: bool, f: nat)
      requires Valid() && 0 < f < 32768
      modifies this
      ensures Valid() && tokens == old(tokens) + [TokenOf([f, 0], if val then 1 else 0)]
      ensures fakeBitsFrac == old(fakeBitsFrac)
    {
      Symbol(if val then 1 else 0, [f, 0]);
    }

    method Tell() returns (bits: nat)
      requires Valid()
      ensures bits == Code(tokens).shift + 1 + fakeBitsFrac / 256
    {
      StoredAllCodes(tokens);
      bits := (8 * |precarry| + cnt + 10) + fakeBitsFrac / 256;
    }

    method TellFrac() returns (frac: nat)
      requires Valid()
      ensures frac == FracBits(tokens) + 8 * (fakeBitsFrac / 256) + fakeBitsFrac
    {
      hide StoredAll, Correction, Squared, Code, Value;
      StoredAllCodes(tokens);
      assert rng == Code(tokens).rng && 0x8000 <= rng;
      hide Reachable, IntervalOf, Shl, Valid;
      CorrectionMono(rng, rng);
      var bits := Tell();
      var f, _ := FracCompute(bits, rng);
      frac := f + fakeBitsFrac;
    }

    /** What coding the symbol would add to the fractional count, without coding it. No
        subtraction is ever out of range. */
    method SymbolBits(s: nat, cdf: CdfTable) returns (cost: nat, inRange: bool)
      requires Valid() && Codable(cdf) && s < |cdf|
      ensures AllValid(tokens + [TokenOf(cdf, s)])
      ensures cost == FracBits(tokens + [TokenOf(cdf, s)]) - FracBits(tokens) && inRange
    {
      hide StoredAll, Correction, Shl, LeadingZeros16, ScaleBound, UpperBound, LowerBound, Codable, Growth;
      StoredAllCodes(tokens);
      if cnt == -9 {
        FreshRange(State());
      }
      cost, inRange := SymbolCost.SymbolBits(rng, cnt, s, cdf);
      GrowthIsIncrease(tokens, TokenOf(cdf, s));
    }

    method TakeCheckpoint() returns (cp: Checkpoint)
      requires Valid()
      ensures cp == EncoderCheckpoint(tokens)
    {
      cp := Checkpoint(|precarry|, low, rng, cnt);
    }

    /** Undoes every store since a checkpoint, whatever was stored or rolled back between. */
    method Rollback(cp: Checkpoint, ghost n: nat)
      requires Valid() && n <= |tokens| && cp == EncoderCheckpoint(tokens[..n])
      modifies this
      ensures Valid() && tokens == old(tokens)[..n] && fakeBitsFrac == old(fakeBitsFrac)
    {
      hide StoredAll;
      StoredAllExtends(tokens, n);
      LowBounded(StoredAll(NEW, tokens[..n]));
      rng := cp.rng;
      cnt := cp.cnt;
      low := cp.backendVar;
      precarry := precarry[..cp.streamSize];
      tokens := tokens[..n];
    }

    /** Ends the stream at the flush point. The bytes, read with zeros after them, lie in the
        interval of every token stored so far, and there are as few as `tell` bits allow; the last
        bit that is set comes right after the bits of the tokens. Read with anything but zeros
        after them, the bytes lie there exactly when there is room. */
    method Done() returns (out: seq<u8>)
      requires Valid()
      modifies this
      ensures Holds(Code(old(tokens)), out)
      ensures 8 * |out| - 7 <= Code(old(tokens)).shift + 1 <= 8 * |out|
      ensures FlushedFrom(old(State()), out)
      ensures var told := Code(old(tokens)).shift; BitAt(out, told) == 1 && forall k :: k > told ==> BitAt(out, k) == 0
      ensures (forall rest: seq<u8> :: Holds(Code(old(tokens)), out + rest))
        <==> RoomForTail(old(low), old(rng), old(cnt))
    {
      hide Shl, Shr, LowBits, Value, LeadingZeros16, Prefix, StoredAll, Holds, RoomForTail;
      StoredAllCodes(tokens);
      ghost var e0 := State();
      LowBounded(e0);
      FlushPointInside(low);
      var e: nat, c := FlushPoint(low), cnt;
      var s := 10 + c;
      ghost var w0 := Window(precarry, e, c);
      assert e < Pow2(c + 25);
      while s > 0
        invariant s == 10 + c && -17 <= c <= -1
        invariant |precarry| == |e0.precarry| <==> c == e0.cnt
        invariant Content(Window(precarry, e, c)) == Content(w0)
        invariant 8 * |precarry| + c == 8 * |e0.precarry| + e0.cnt
        invariant LowBits(e, 14) == 0
        invariant e < Pow2(c + 25) && (c < e0.cnt ==> e < Pow2(c + 24))
        invariant forall k :: 0 <= k < |precarry| ==> precarry[k] <= 511
      {
        ghost var w := Window(precarry, e, c);
        PushKeeps(w);
        PushFits(w);
        MaskKeepsZeros(e, c + 16, 14);
        precarry := precarry + [Shr(e, c + 16)];
        e := LowBits(e, c + 16);
        s := s - 8;
        c := c - 8;
      }
      Pow2Mono(c + 24, 14);
      ZeroWhenSmall(e, 14);
      ghost var w := Window(precarry, 0, c);
      FlushedBelowOne(e0, w);
      out := ResolveCarries(precarry);
      assert FlushedFrom(e0, out);
      hide FlushedFrom;
      FlushedHolds(e0, out);
      FlushedTail(e0, out);
      TrailingBit(e0, out);
    }

    static method ResolveCarries(words: seq<u16>) returns (bytes: seq<u8>)
      requires forall k :: 0 <= k < |words| ==> words[k] <= 511
      requires Value(words) < Pow2(8 * |words|)
      ensures |bytes| == |words| && Value(bytes) == Value(words)
    {
      hide Shl, Value;
      var c: u16 := 0;
      var offs := |words|;
      var out := new u8[offs];
      assert words[offs..] == [] && out[offs..] == [];
      ValueEmpty();
      ShlZero(8 * (|words| - offs));
      while offs > 0
        invariant 0 <= offs <= |words| && c <= 2
        invariant Value(words[offs..]) == Shl(c, 8 * (|words| - offs)) + Value(out[offs..])
      {
        offs := offs - 1;
        ghost var tail, done := words[offs + 1..], out[offs + 1..];
        ghost var carry := c;
        assert words[offs..] == [words[offs]] + tail;
        ValuePrepend(words[offs], tail);
        c := c + words[offs];
        ShlAdd(words[offs], carry, 8 * |tail|);
        out[offs] := c % 256;
        CarrySplit(c, |tail|);
        assert out[offs..] == [c % 256] + done;
        ValuePrepend(c % 256, done);
        c := c / 256;
      }
      assert words[0..] == words && out[0..] == out[..];
      ShlMono(1, c, 8 * |words|);
      ShlZero(8 * |words|);
      bytes := out[..];
    }
  }

  /** A tile of one symbol, which only zeros may follow. */
  method OneSymbol() returns (out: seq<u8>)
    ensures Codable([13376, 13120, 0]) && TokenOf([13376, 13120, 0], 1) == Token(13376, 13120, 2)
    ensures AllValid([Token(13376, 13120, 2)])
    ensures out == [153] && Holds(Code([Token(13376, 13120, 2)]), out)
    ensures !Holds(Code([Token(13376, 13120, 2)]), out + [255, 255])
  {
    hide Code, StoredAll, Holds, FlushedFrom, RoomForTail;
    var w := new WriterEncoder();
    w.Symbol(1, [13376, 13120, 0]);
    ghost var e := w.State();
    assert w.tokens == [Token(13376, 13120, 2)];
    StoredAllCodes(w.tokens);
    out := w.Done();
    TailCanMatter(e, out);
    assert out + [255, 255] == [153, 255, 255];
  }

  /** A tile of two flat bits, 0 and 1. */
  method TwoFlatBits() returns (out: seq<u8>)
    ensures out == [80]
  {
    hide Code, StoredAll, Holds, FlushedFrom, RoomForTail;
    var w := new WriterEncoder();
    w.Bool(false, 16384);
    w.Bool(true, 16384);
    ghost var e := w.State();
    assert w.tokens == TWO_BITS;
    StoredAllCodes(w.tokens);
    out := w.Done();
    TwoBitsFlush(e, out);
  }

  lemma CarrySplit(c: nat, n: nat)
    ensures Shl(c, 8 * n) == Shl(c / 256, 8 * (n + 1)) + Shl(c % 256, 8 * n)
  {
    EightMore(c / 256, 8 * n);
    ShlAdd(256 * (c / 256), c % 256, 8 * n);
  }

  lemma ShlZero(n: nat)
    ensures Shl(0, n) == 0
  {
    ShlAdd(0, 0, n);
  }

  lemma ValueEmpty()
    ensures Value([]) == 0
  {
  }
}
