/** The two writers that only simulate the encoder, and replay between writers. */
module Writers {
  import opened Bits
  import opened RangeInterval
  import opened EncoderState
  import opened Encoder
  import opened Cdf
  import opened BitCost
  import opened SymbolCost

  /** Counts the bits an encoder would use, and stores nothing. */
  class WriterCounter {
    var rng: u16
    var bits: nat
    var cnt: int
    var fakeBitsFrac: nat
    // The tokens counted and not rolled back.
    ghost var tokens: seq<Token>

    ghost predicate Valid()
      reads this
    {
      AllValid(tokens) && rng == Code(tokens).rng && bits == Code(tokens).shift && cnt == -9
    }

    constructor ()
      ensures Valid() && tokens == [] && fakeBitsFrac == 0
    {
      rng, bits, cnt, fakeBitsFrac, tokens := 0x8000, 0, -9, 0, [];
    }

    method Store(t: Token)
      requires Valid() && ValidToken(t)
      modifies this
      ensures Valid() && tokens == old(tokens) + [t] && fakeBitsFrac == old(fakeBitsFrac)
    {
      hide ScaleBound, Shl, LeadingZeros16, Code;
      CodeSnoc(tokens, t);
      SubrangeBounds(rng, t);
      var r: u16 := UpperBound(rng, t) - LowerBound(rng, t);
      LeadingZeros16Range(r);
      var d := LeadingZeros16(r);
      bits := bits + d;
      rng := Shl(r, d);
      tokens := tokens + [t];
    }

    method Tell() returns (n: nat)
      requires Valid()
      ensures n == Code(tokens).shift + 1 + fakeBitsFrac / 256
    {
      n := (bits + cnt + 10) + fakeBitsFrac / 256;
    }

    method TellFrac() returns (frac: nat)
      requires Valid()
      ensures frac == FracBits(tokens) + 8 * (fakeBitsFrac / 256) + fakeBitsFrac
    {
      hide Correction, Code;
      CorrectionMono(rng, rng);
      var n := Tell();
      var f, _ := FracCompute(n, rng);
      frac := f + fakeBitsFrac;
    }

    /** The same cost as on an encoder, but since cnt stays at -9 the subtractions are in range
        only up to a width. */
    method SymbolBits(s: nat, cdf: CdfTable) returns (cost: nat, inRange: bool)
      requires Valid() && Codable(cdf) && s < |cdf|
      ensures AllValid(tokens + [TokenOf(cdf, s)])
      ensures cost == FracBits(tokens + [TokenOf(cdf, s)]) - FracBits(tokens)
      ensures inRange <==> rng <= 0x8B95
    {
      hide Correction, Code, UpperBound, LowerBound, Codable, Growth;
      cost, inRange := SymbolCost.SymbolBits(rng, cnt, s, cdf);
      GrowthIsIncrease(tokens, TokenOf(cdf, s));
    }

    method TakeCheckpoint() returns (cp: Checkpoint)
      requires Valid()
      ensures cp == CounterCheckpoint(tokens)
    {
      cp := Checkpoint(bits, 0, rng, cnt);
    }

    method Rollback(cp: Checkpoint, ghost n: nat)
      requires Valid() && n <= |tokens| && cp == CounterCheckpoint(tokens[..n])
      modifies this
      ensures Valid() && tokens == old(tokens)[..n] && fakeBitsFrac == old(fakeBitsFrac)
    {
      rng := cp.rng;
      bits := cp.streamSize;
      tokens := tokens[..n];
    }
  }

  ghost function CounterCheckpoint(ts: seq<Token>): Checkpoint
    requires AllValid(ts)
  {
    Checkpoint(Code(ts).shift, 0, Code(ts).rng, -9)
  }

  ghost function RecorderCheckpoint(ts: seq<Token>): Checkpoint
    requires AllValid(ts)
  {
    Checkpoint(Code(ts).shift, |ts|, Code(ts).rng, -9)
  }

  /** Counts bits and keeps the tokens, to be replayed into another writer. */
  class WriterRecorder {
    var rng: u16
    var bits: nat
    var cnt: int
    var storage: seq<Token>
    var fakeBitsFrac: nat

    ghost predicate Valid()
      reads this
    {
      AllValid(storage) && rng == Code(storage).rng && bits == Code(storage).shift && cnt == -9
    }

    constructor ()
      ensures Valid() && storage == [] && fakeBitsFrac == 0
    {
      rng, bits, cnt, fakeBitsFrac, storage := 0x8000, 0, -9, 0, [];
    }

    method Store(t: Token)
      requires Valid() && ValidToken(t)
      modifies this
      ensures Valid() && storage == old(storage) + [t] && fakeBitsFrac == old(fakeBitsFrac)
    {
      hide ScaleBound, Shl, LeadingZeros16, Code;
      CodeSnoc(storage, t);
      SubrangeBounds(rng, t);
      var r: u16 := UpperBound(rng, t) - LowerBound(rng, t);
      LeadingZeros16Range(r);
      var d := LeadingZeros16(r);
      bits := bits + d;
      rng := Shl(r, d);
      storage := storage + [t];
    }

    method Tell() returns (n: nat)
      requires Valid()
      ensures n == Code(storage).shift + 1 + fakeBitsFrac / 256
    {
      n := (bits + cnt + 10) + fakeBitsFrac / 256;
    }

    method TellFrac() returns (frac: nat)
      requires Valid()
      ensures frac == FracBits(storage) + 8 * (fakeBitsFrac / 256) + fakeBitsFrac
    {
      hide Correction, Code;
      CorrectionMono(rng, rng);
      var n := Tell();
      var f, _ := FracCompute(n, rng);
      frac := f + fakeBitsFrac;
    }

    /** The same cost as on an encoder, but since cnt stays at -9 the subtractions are in range
        only up to a width. */
    method SymbolBits(s: nat, cdf: CdfTable) returns (cost: nat, inRange: bool)
      requires Valid() && Codable(cdf) && s < |cdf|
      ensures AllValid(storage + [TokenOf(cdf, s)])
      ensures cost == FracBits(storage + [TokenOf(cdf, s)]) - FracBits(storage)
      ensures inRange <==> rng <= 0x8B95
    {
      hide Correction, Code, UpperBound, LowerBound, Codable, Growth;
      cost, inRange := SymbolCost.SymbolBits(rng, cnt, s, cdf);
      GrowthIsIncrease(storage, TokenOf(cdf, s));
    }

    method TakeCheckpoint() returns (cp: Checkpoint)
      requires Valid()
      ensures cp == RecorderCheckpoint(storage)
    {
      cp := Checkpoint(bits, |storage|, rng, cnt);
    }

    method Rollback(cp: Checkpoint, ghost n: nat)
      requires Valid() && n <= |storage| && cp == RecorderCheckpoint(storage[..n])
      modifies this
      ensures Valid() && storage == old(storage)[..n] && fakeBitsFrac == old(fakeBitsFrac)
    {
      rng := cp.rng;
      cnt := cp.cnt;
      bits := cp.streamSize;
      storage := storage[..cp.backendVar];
    }

    /** The encoder ends up as if the recorded tokens had been stored in it directly,
        and the recorder is as good as new. */
    method Replay(dest: WriterEncoder)
      requires Valid() && dest.Valid()
      modifies this, dest
      ensures dest.Valid() && dest.tokens == old(dest.tokens) + old(storage)
      ensures dest.fakeBitsFrac == old(dest.fakeBitsFrac)
      ensures Valid() && storage == [] && fakeBitsFrac == old(fakeBitsFrac)
    {
      hide Code, StoredAll, WriterEncoder.Valid;
      CodeEmpty();
      for i := 0 to |storage|
        invariant dest.Valid() && Valid() && storage == old(storage)
        invariant dest.tokens == old(dest.tokens) + storage[..i]
        invariant dest.fakeBitsFrac == old(dest.fakeBitsFrac) && fakeBitsFrac == old(fakeBitsFrac)
      {
        dest.Store(storage[i]);
        assert storage[..i + 1] == storage[..i] + [storage[i]];
      }
      assert storage[..|storage|] == storage;
      rng := 0x8000;
      cnt := -9;
      storage := [];
      bits := 0;
    }

    method ReplayInto(dest: WriterRecorder)
      requires this != dest && Valid() && dest.Valid()
      modifies this, dest
      ensures dest.Valid() && dest.storage == old(dest.storage) + old(storage)
      ensures Valid() && storage == [] && fakeBitsFrac == old(fakeBitsFrac)
    {
      hide Code;
      CodeEmpty();
      for i := 0 to |storage|
        invariant dest.Valid() && Valid() && storage == old(storage)
        invariant dest.storage == old(dest.storage) + storage[..i]
        invariant fakeBitsFrac == old(fakeBitsFrac)
      {
        dest.Store(storage[i]);
        assert storage[..i + 1] == storage[..i] + [storage[i]];
      }
      assert storage[..|storage|] == storage;
      rng := 0x8000;
      cnt := -9;
      storage := [];
      bits := 0;
    }
  }

  /** One flat bit already leaves a counter too wide to price the next symbol without a
      subtraction out of range. */
  method PriceAfterFlatBit(s: nat, cdf: CdfTable) returns (counter: WriterCounter, inRange: bool)
    requires Codable(cdf) && s < |cdf|
    ensures fresh(counter) && counter.Valid() && counter.tokens == [TokenOf([16384, 0], 0)]
    ensures counter.rng == 0xFFF0 && !inRange
  {
    hide Code, Codable;
    counter := new WriterCounter();
    FlatBitWidth();
    counter.Store(TokenOf([16384, 0], 0));
    var _, ok := counter.SymbolBits(s, cdf);
    inRange := ok;
  }

  lemma FlatBitWidth()
    ensures ValidToken(TokenOf([16384, 0], 0)) && AllValid([TokenOf([16384, 0], 0)])
    ensures Code([TokenOf([16384, 0], 0)]).rng == 0xFFF0
  {
    var t := TokenOf([16384, 0], 0);
    assert t == Token(32768, 16384, 2);
    assert ScaleBound(0x8000, 16384) == 128 * 256 / 2 == 16384;
    assert UpperBound(0x8000, t) - LowerBound(0x8000, t) == 16380;
    assert LeadingZeros16(65520) == 0 && LeadingZeros16(32760) == 1 && LeadingZeros16(16380) == 2;
    assert Shl(16380, 2) == 65520;
    CodeEmpty();
    CodeSnoc([], t);
    assert [] + [t] == [t];
  }

  lemma CodeEmpty()
    ensures Code([]) == WHOLE
  {
  }

  // Recording with detours -----------------------------------------------------

  /** One step of a search: store a token, remember the position, or return to the
      k-th remembered position (which forgets the ones after it). */
  datatype Action = Put(token: Token) | Save | Return(k: nat)

  /** The surviving tokens, and how many of them there were at each live position. */
  datatype Trail = Trail(tokens: seq<Token>, marks: seq<nat>)

  ghost predicate Permitted(tr: Trail, a: Action) {
    match a
    case Put(t) => ValidToken(t)
    case Save => true
    case Return(k) => k < |tr.marks| && tr.marks[k] <= |tr.tokens|
  }

  ghost function Follow(tr: Trail, a: Action): Trail
    requires Permitted(tr, a)
  {
    match a
    case Put(t) => Trail(tr.tokens + [t], tr.marks)
    case Save => Trail(tr.tokens, tr.marks + [|tr.tokens|])
    case Return(k) => Trail(tr.tokens[..tr.marks[k]], tr.marks[..k + 1])
  }

  /** All actions of a search lead somewhere; its last trail is what survives. */
  ghost predicate IsSearch(actions: seq<Action>, trails: seq<Trail>) {
    && |trails| == |actions| + 1
    && trails[0] == Trail([], [])
    && forall i :: 0 <= i < |actions| ==>
        Permitted(trails[i], actions[i]) && trails[i + 1] == Follow(trails[i], actions[i])
  }

  type Position = (Checkpoint, Checkpoint)

  /** The saved checkpoints are those of the positions the trail remembers. */
  ghost predicate Tracks(saved: seq<Position>, tr: Trail) {
    && AllValid(tr.tokens) && |saved| == |tr.marks|
    && (forall j :: 0 <= j < |saved| ==> IsPosition(saved[j], tr.tokens, tr.marks[j]))
    && (forall j, k :: 0 <= j < k < |saved| ==> tr.marks[j] <= tr.marks[k])
  }

  ghost predicate IsPosition(p: Position, ts: seq<Token>, n: nat)
    requires AllValid(ts)
  {
    n <= |ts| && p == (RecorderCheckpoint(ts[..n]), CounterCheckpoint(ts[..n]))
  }

  lemma TracksPut(saved: seq<Position>, tr: Trail, t: Token)
    requires Tracks(saved, tr) && ValidToken(t)
    ensures Tracks(saved, Follow(tr, Put(t)))
  {
    var ts := tr.tokens + [t];
    forall j | 0 <= j < |saved| ensures IsPosition(saved[j], ts, tr.marks[j]) {
      assert IsPosition(saved[j], tr.tokens, tr.marks[j]);
      assert ts[..tr.marks[j]] == tr.tokens[..tr.marks[j]];
    }
  }

  lemma TracksSave(saved: seq<Position>, tr: Trail, p: Position)
    requires Tracks(saved, tr) && p == (RecorderCheckpoint(tr.tokens), CounterCheckpoint(tr.tokens))
    ensures Tracks(saved + [p], Follow(tr, Save))
  {
    assert tr.tokens[..|tr.tokens|] == tr.tokens;
    forall j | 0 <= j < |saved| ensures tr.marks[j] <= |tr.tokens| {
      assert IsPosition(saved[j], tr.tokens, tr.marks[j]);
    }
  }

  lemma TracksReturn(saved: seq<Position>, tr: Trail, k: nat)
    requires Tracks(saved, tr) && k < |saved|
    ensures Permitted(tr, Return(k)) && IsPosition(saved[k], tr.tokens, tr.marks[k])
    ensures Tracks(saved[..k + 1], Follow(tr, Return(k)))
  {
    assert IsPosition(saved[k], tr.tokens, tr.marks[k]);
    var ts := tr.tokens[..tr.marks[k]];
    forall j | 0 <= j <= k ensures IsPosition(saved[j], ts, tr.marks[j]) {
      assert IsPosition(saved[j], tr.tokens, tr.marks[j]);
      assert tr.marks[j] <= tr.marks[k];
      assert ts[..tr.marks[j]] == tr.tokens[..tr.marks[j]];
    }
  }

  /** What a writer tells between two steps: the bits used so far and the range. */
  datatype Reading = Reading(tell: nat, rng: nat)

  /** What an encoder that stored these tokens would tell. */
  ghost predicate ReadsAs(r: Reading, ts: seq<Token>) {
    AllValid(ts) && r == Reading(Code(ts).shift + 1, Code(ts).rng)
  }

  /** A search over a recorder and a counter side by side, then a replay, leaves the
      encoder where storing just the surviving tokens would have left it. Before and after
      every step recorder and counter tell what an encoder of those tokens would. */
  method SearchAndReplay(actions: seq<Action>, ghost trails: seq<Trail>, dest: WriterEncoder)
      returns (recorded: seq<Reading>, counted: seq<Reading>)
    requires dest.Valid() && IsSearch(actions, trails)
    modifies dest
    ensures dest.Valid() && dest.tokens == old(dest.tokens) + trails[|actions|].tokens
    ensures recorded == counted && |recorded| == |trails|
    ensures forall i :: 0 <= i < |trails| ==> ReadsAs(recorded[i], trails[i].tokens)
  {
    hide Code, StoredAll, IsPosition, AllValid, ReadsAs;
    var rec := new WriterRecorder();
    var counter := new WriterCounter();
    var saved: seq<Position> := [];
    CodeEmpty();
    assert Tracks(saved, trails[0]);
    var r, n := Readings(rec, counter);
    recorded, counted := [r], [n];
    for i := 0 to |actions|
      invariant fresh(rec) && fresh(counter) && rec.Valid() && counter.Valid()
      invariant rec.storage == counter.tokens == trails[i].tokens
      invariant rec.fakeBitsFrac == counter.fakeBitsFrac == 0
      invariant recorded == counted && |recorded| == i + 1
      invariant forall k :: 0 <= k <= i ==> ReadsAs(recorded[k], trails[k].tokens)
      invariant Tracks(saved, trails[i])
      invariant dest.Valid() && dest.tokens == old(dest.tokens)
    {
      ghost var tr := trails[i];
      assert Permitted(tr, actions[i]) && trails[i + 1] == Follow(tr, actions[i]);
      match actions[i] {
        case Put(t) =>
          TracksPut(saved, tr, t);
          rec.Store(t);
          counter.Store(t);
        case Save =>
          var a := rec.TakeCheckpoint();
          var b := counter.TakeCheckpoint();
          TracksSave(saved, tr, (a, b));
          saved := saved + [(a, b)];
        case Return(k) =>
          TracksReturn(saved, tr, k);
          ReturnTo(rec, counter, saved[k], tr.marks[k]);
          saved := saved[..k + 1];
      }
      r, n := Readings(rec, counter);
      recorded, counted := recorded + [r], counted + [n];
    }
    rec.Replay(dest);
  }

  method Readings(rec: WriterRecorder, counter: WriterCounter) returns (r: Reading, n: Reading)
    requires rec.Valid() && counter.Valid() && rec.storage == counter.tokens
    requires rec.fakeBitsFrac == counter.fakeBitsFrac == 0
    ensures r == n && ReadsAs(r, rec.storage)
  {
    var a := rec.Tell();
    var b := counter.Tell();
    r, n := Reading(a, rec.rng), Reading(b, counter.rng);
  }

  method ReturnTo(rec: WriterRecorder, counter: WriterCounter, p: Position, ghost n: nat)
    requires rec.Valid() && counter.Valid() && rec.storage == counter.tokens
    requires IsPosition(p, rec.storage, n)
    modifies rec, counter
    ensures rec.Valid() && counter.Valid()
    ensures rec.storage == counter.tokens == old(rec.storage)[..n]
    ensures rec.fakeBitsFrac == old(rec.fakeBitsFrac) && counter.fakeBitsFrac == old(counter.fakeBitsFrac)
  {
    rec.Rollback(p.0, n);
    counter.Rollback(p.1, n);
  }
}
