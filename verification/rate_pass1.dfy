/** The first pass: what it sums up while it encodes, and the stats stream it writes. Sums and
    counts have the source's widths: a scale sum wraps at 64 bits, the TUs at 32, and the frames
    of a type stop counting at the largest 32-bit integer. */
module RatePass1 {
  import opened Bits
  import opened RatePackets
  import opened RateFeed
  import opened RateFile
  import opened RateWindow

  const FRAME_LIMIT := I32_MAX

  // The scale of a frame ---------------------------------------------------------------------

  /** Q57 logarithms of 16 and of nothing, and the Q24 logarithm of 16. */
  const MAX_LOG_Q57 := 0x2000_0000_0000_0000
  const NO_LOG_Q57 := -0x8000_0000_0000_0000
  const MAX_LOG_Q24 := 0x1000_0000

  function Q57ToQ24(v: int): int {
    (v / 0x1_0000_0000 + 1) / 2
  }

  /** The logarithm of a frame's scale, of which the estimate is given: at most 16, and as good
      as nothing for a frame that was dropped or only shows an earlier one. */
  function LogScaleQ24(bits: int, fti: nat, estimate: int): (q: int)
    requires IsI64(estimate)
    ensures IsI32(q) && q <= MAX_LOG_Q24
  {
    Q57ToQ24(if fti == FRAME_SUBTYPE_SEF || bits <= 0 then NO_LOG_Q57
             else if estimate < MAX_LOG_Q57 then estimate else MAX_LOG_Q57)
  }

  /** An estimate below 16 is rounded to the nearest Q24 number. */
  lemma LogScaleIsNearest(bits: int, fti: nat, estimate: int)
    requires IsI64(estimate)
    ensures var q := LogScaleQ24(bits, fti, estimate);
      if fti == FRAME_SUBTYPE_SEF || bits <= 0 then q == -0x4000_0000
      else if estimate >= 0x2000_0000_0000_0000 then q == 0x1000_0000
      else 0x2_0000_0000 * q - 0x1_0000_0000 <= estimate < 0x2_0000_0000 * q + 0x1_0000_0000
  {
  }

  const MAX_SCALE := 0x100_0000_0000

  /** What the exponential of a scale can be: a Q24 number, 2^40 for the largest logarithm. */
  ghost predicate ScaleFunction(bexp: int -> int) {
    && (forall x :: x <= MAX_LOG_Q24 ==> 0 <= bexp(x) <= MAX_SCALE)
    && bexp(MAX_LOG_Q24) == MAX_SCALE
  }

  ghost predicate Capped(m: FrameMetrics) {
    ValidMetrics(m) && m.logScaleQ24 <= MAX_LOG_Q24
  }

  ghost predicate Emittable(ms: seq<FrameMetrics>) {
    forall i :: 0 <= i < |ms| ==> Capped(ms[i])
  }

  // Sums over whole files -----------------------------------------------------------------------

  lemma {:induction false} ScalesBound(ms: seq<FrameMetrics>, t: nat, bexp: int -> int)
    requires ScaleFunction(bexp) && Emittable(ms)
    ensures 0 <= Scales(ms, t, bexp) <= |ms| * MAX_SCALE
  {
    if ms == [] {
    } else {
      ScalesBound(ms[..|ms| - 1], t, bexp);
    }
  }

  const LARGEST_FRAME := FrameMetrics(MAX_LOG_Q24, FRAME_SUBTYPE_I, true)

  function Largest(n: nat): (ms: seq<FrameMetrics>)
    ensures |ms| == n
  {
    seq(n, _ => LARGEST_FRAME)
  }

  /** The sums of a run of frames at the cap; the bound is attained. */
  lemma {:induction false} LargestSums(n: nat, bexp: int -> int)
    requires ScaleFunction(bexp)
    ensures Scales(Largest(n), FRAME_SUBTYPE_I, bexp) == n * MAX_SCALE && Shown(Largest(n)) == n
  {
    if n == 0 {
    } else {
      LargestSums(n - 1, bexp);
      assert Largest(n)[..n - 1] == Largest(n - 1);
    }
  }

  const TOO_MANY := 0x80_0000

  /** Scale sums fit 64 bits in every file of n frames if and only if n is below 2^23; the frame
      counts, which the source keeps at 32 bits for this, would have to be at 23. */
  lemma SumsFitIff(n: nat, bexp: int -> int)
    requires ScaleFunction(bexp)
    ensures n < TOO_MANY <==>
      forall ms: seq<FrameMetrics>, t: nat :: |ms| == n && Emittable(ms) ==> IsI64(Scales(ms, t, bexp))
  {
    if n < TOO_MANY {
      forall ms: seq<FrameMetrics>, t: nat | |ms| == n && Emittable(ms) ensures IsI64(Scales(ms, t, bexp)) {
        ScalesBound(ms, t, bexp);
      }
    } else {
      LargestSums(n, bexp);
      assert Emittable(Largest(n)) && !IsI64(Scales(Largest(n), FRAME_SUBTYPE_I, bexp));
    }
  }

  lemma {:induction false} FramesBound(ms: seq<FrameMetrics>, t: nat)
    ensures Frames(ms, t) <= |ms|
  {
    if ms == [] {
    } else {
      FramesBound(ms[..|ms| - 1], t);
    }
  }

  lemma {:induction false} ShownBound(ms: seq<FrameMetrics>)
    ensures Shown(ms) <= |ms|
  {
    if ms == [] {
    } else {
      ShownBound(ms[..|ms| - 1]);
    }
  }

  lemma {:induction false} PacketsSnoc(ms: seq<FrameMetrics>, m: FrameMetrics)
    ensures Packets(ms + [m]) == Packets(ms) + PacketBytes(m)
  {
    hide PacketBytes;
    if ms == [] {
      assert [m][1..] == [] && [] + [m] == [m];
    } else {
      PacketsSnoc(ms[1..], m);
      assert (ms + [m])[1..] == ms[1..] + [m];
    }
  }

  /** Frames by type, as far as they are counted. */
  ghost predicate Counted(ms: seq<FrameMetrics>, nframes: seq<int>) {
    && |nframes| == FRAME_NSUBTYPES + 1
    && forall t :: 0 <= t <= FRAME_NSUBTYPES ==>
        nframes[t] == if Frames(ms, t) < I32_MAX then Frames(ms, t) else I32_MAX
  }

  lemma CountedEnter(ms: seq<FrameMetrics>, m: FrameMetrics, nframes: seq<int>)
    requires Counted(ms, nframes) && m.fti <= FRAME_NSUBTYPES
    ensures Counted(ms + [m], if nframes[m.fti] < I32_MAX then Add(nframes, m.fti, 1) else nframes)
  {
    assert (ms + [m])[..|ms|] == ms;
  }

  /** TUs and scale sums, as far as the integers that hold them reach. */
  ghost predicate Tallied(ms: seq<FrameMetrics>, bexp: int -> int, ntus: int, sums: seq<int>) {
    && |sums| == FRAME_NSUBTYPES && ntus == Signed32(Shown(ms))
    && forall t :: 0 <= t < FRAME_NSUBTYPES ==> sums[t] == Signed64(Scales(ms, t, bexp))
  }

  /** Adding before or after the wrap makes no difference. */
  lemma WrapLate64(a: int, b: int)
    ensures Signed64(Signed64(a) + b) == Signed64(a + b)
  {
    var q := a / 0x1_0000_0000_0000_0000;
    Period64(a + b, q);
    Period64(a + b, q + 1);
    assert Signed64(a) == a - q * 0x1_0000_0000_0000_0000 || Signed64(a) == a - (q + 1) * 0x1_0000_0000_0000_0000;
  }

  lemma Period64(x: int, q: int)
    ensures Signed64(x - q * 0x1_0000_0000_0000_0000) == Signed64(x)
  {
    assert (x - q * 0x1_0000_0000_0000_0000) % 0x1_0000_0000_0000_0000 == x % 0x1_0000_0000_0000_0000;
  }

  lemma Period32(x: int, q: int)
    ensures Signed32(x - q * 0x1_0000_0000) == Signed32(x)
  {
    assert (x - q * 0x1_0000_0000) % 0x1_0000_0000 == x % 0x1_0000_0000;
  }

  lemma WrapLate32(a: int, b: int)
    ensures Signed32(Signed32(a) + b) == Signed32(a + b)
  {
    var q := a / 0x1_0000_0000;
    Period32(a + b, q);
    Period32(a + b, q + 1);
    assert Signed32(a) == a - q * 0x1_0000_0000 || Signed32(a) == a - (q + 1) * 0x1_0000_0000;
  }

  lemma TalliedEnter(ms: seq<FrameMetrics>, m: FrameMetrics, bexp: int -> int, ntus: int, sums: seq<int>)
    requires Tallied(ms, bexp, ntus, sums)
    ensures |sums| == FRAME_NSUBTYPES
    ensures Tallied(ms + [m], bexp, if m.showFrame then Signed32(ntus + 1) else ntus,
      if m.fti < FRAME_NSUBTYPES then sums[m.fti := Signed64(sums[m.fti] + bexp(m.logScaleQ24))] else sums)
  {
    WrapLate32(Shown(ms), 1);
    if m.fti < FRAME_NSUBTYPES {
      WrapLate64(Scales(ms, m.fti, bexp), bexp(m.logScaleQ24));
    }
    hide Signed32, Signed64;
    assert (ms + [m])[..|ms|] == ms;
  }

  /** Bit 63 is zero. */
  predicate SignClear(x: int) {
    x / 0x8000_0000_0000_0000 % 2 == 0
  }

  ghost predicate SignsClear(ms: seq<FrameMetrics>, bexp: int -> int) {
    forall t :: 0 <= t < FRAME_NSUBTYPES ==> SignClear(Scales(ms, t, bexp))
  }

  lemma SignOfSum(x: int)
    ensures Signed64(x) >= 0 <==> SignClear(x)
  {
    var q, r := x / 0x8000_0000_0000_0000, x % 0x8000_0000_0000_0000;
    var h := q / 2;
    assert x == h * 0x1_0000_0000_0000_0000 + (q % 2) * 0x8000_0000_0000_0000 + r;
  }

  lemma TalliedSigns(ms: seq<FrameMetrics>, bexp: int -> int, ntus: int, sums: seq<int>)
    requires Tallied(ms, bexp, ntus, sums)
    ensures |ms| <= I32_MAX ==> ntus == Shown(ms)
    ensures (forall i :: 0 <= i < |sums| ==> sums[i] >= 0) <==> SignsClear(ms, bexp)
  {
    ShownBound(ms);
    hide Shown, Scales;
    forall t | 0 <= t < FRAME_NSUBTYPES ensures sums[t] >= 0 <==> SignClear(Scales(ms, t, bexp)) {
      SignOfSum(Scales(ms, t, bexp));
    }
    hide SignClear, Signed32, Signed64;
    if SignsClear(ms, bexp) {
      forall i | 0 <= i < |sums| ensures sums[i] >= 0 {
        assert SignClear(Scales(ms, i, bexp));
      }
    }
  }

  ghost predicate SumsFit(ms: seq<FrameMetrics>, bexp: int -> int) {
    forall t :: 0 <= t < FRAME_NSUBTYPES ==> IsI64(Scales(ms, t, bexp))
  }

  lemma ShortSumsFit(ms: seq<FrameMetrics>, bexp: int -> int)
    requires ScaleFunction(bexp) && Emittable(ms) && |ms| < TOO_MANY
    ensures SumsFit(ms, bexp) && SignsClear(ms, bexp)
  {
    hide Scales, Emittable;
    forall t | 0 <= t < FRAME_NSUBTYPES ensures IsI64(Scales(ms, t, bexp)) && SignClear(Scales(ms, t, bexp)) {
      ScalesBound(ms, t, bexp);
    }
  }

  lemma TalliedTrue(ms: seq<FrameMetrics>, bexp: int -> int, nframes: seq<int>, ntus: int, sums: seq<int>)
    requires Counted(ms, nframes) && Tallied(ms, bexp, ntus, sums) && Emittable(ms) && |ms| <= I32_MAX
    ensures Describe(ms, bexp, nframes, sums, ntus) <==> SumsFit(ms, bexp)
  {
    CountedExact(ms, nframes);
    ShownBound(ms);
    hide Counted, Frames, Scales, Shown;
    forall t | 0 <= t < FRAME_NSUBTYPES
      ensures sums[t] == Scales(ms, t, bexp) <==> IsI64(Scales(ms, t, bexp))
    {
      WrapOnlyWhenOut(Scales(ms, t, bexp));
    }
    hide Signed64, IsI64;
    if SumsFit(ms, bexp) {
      assert forall t :: 0 <= t < FRAME_NSUBTYPES ==> sums[t] == Scales(ms, t, bexp);
    } else {
      var t :| 0 <= t < FRAME_NSUBTYPES && !IsI64(Scales(ms, t, bexp));
      assert sums[t] != Scales(ms, t, bexp);
    }
  }

  lemma WrapOnlyWhenOut(x: int)
    ensures Signed64(x) == x <==> IsI64(x)
  {
  }

  lemma CountedExact(ms: seq<FrameMetrics>, nframes: seq<int>)
    requires Counted(ms, nframes) && |ms| <= I32_MAX
    ensures forall t :: 0 <= t <= FRAME_NSUBTYPES ==> nframes[t] == Frames(ms, t)
  {
    forall t | 0 <= t <= FRAME_NSUBTYPES ensures nframes[t] == Frames(ms, t) {
      FramesBound(ms, t);
    }
  }

  lemma CountedTotal(ms: seq<FrameMetrics>, nframes: seq<int>)
    requires Counted(ms, nframes) && Emittable(ms) && |ms| <= I32_MAX
    ensures SumTo(nframes, FRAME_NSUBTYPES + 1) == |ms| && forall i :: 0 <= i < |nframes| ==> nframes[i] >= 0
  {
    CountedExact(ms, nframes);
    CountsAddUp(ms);
    TotalIsSum(nframes);
  }

  class Pass1State {
    const bexp: int -> int
    const exp: seq<u8>
    const buffer: array<u8>
    var ntus: int
    var nframes: seq<int>
    var scaleSum: seq<int>
    var nencodedFrames: int
    var nsefFrames: int
    var prevMetrics: FrameMetrics
    var pass1DataRetrieved: bool
    // Whether the last update was a trial encode, which the next one overwrites.
    ghost var tried: bool
    // Frames that were dropped instead of encoded.
    ghost var drops: nat
    // The frames whose packets were emitted, and all that were emitted.
    ghost var frames: seq<FrameMetrics>
    ghost var emitted: seq<u8>

    /** The frames so far, the last of which may still await emission. */
    ghost function All(): seq<FrameMetrics>
      reads this
    {
      if pass1DataRetrieved || tried then frames else frames + [prevMetrics]
    }

    /** Frame counts cover all frames, TUs and scale sums those emitted. */
    ghost predicate Valid()
      reads this
    {
      && buffer.Length == TWOPASS_HEADER_SZ && |exp| == FRAME_NSUBTYPES
      && Tallied(frames, bexp, ntus, scaleSum) && Counted(All(), nframes) && Emittable(frames) && Capped(prevMetrics)
      && emitted == Packets(frames)
      && nencodedFrames + nsefFrames + drops == |All()| && |frames| < FRAME_LIMIT + drops
    }

    constructor (bexpQ24: int -> int, exp0: seq<u8>)
      requires |exp0| == FRAME_NSUBTYPES
      ensures Valid() && frames == [] && pass1DataRetrieved && !tried && drops == 0
      ensures bexp == bexpQ24 && exp == exp0 && fresh(buffer)
    {
      bexp, exp := bexpQ24, exp0;
      buffer := new u8[TWOPASS_HEADER_SZ](_ => 0);
      ntus, nframes, scaleSum := 0, [0, 0, 0, 0, 0], [0, 0, 0, 0];
      nencodedFrames, nsefFrames := 0, 0;
      prevMetrics, pass1DataRetrieved := NO_METRICS, true;
      tried, drops, frames, emitted := false, 0, [], [];
    }

    /** The end of a frame: allowed once the one before was emitted. A trial encode of the first
        frame of a type may come first; only its metrics are kept, and only until the next. */
    method UpdateState(bits: int, fti: nat, showFrame: bool, estimate: int, trial: bool)
      requires Valid() && (pass1DataRetrieved || tried) && fti <= FRAME_NSUBTYPES && IsI64(estimate)
      requires trial ==> nframes[fti] == 0 && bits > 0 && fti != FRAME_SUBTYPE_SEF
      modifies this`nframes, this`nencodedFrames, this`nsefFrames, this`prevMetrics, this`pass1DataRetrieved,
        this`tried, this`drops
      ensures Valid() && !pass1DataRetrieved && tried == trial
      ensures trial ==> All() == frames && nframes == old(nframes) && drops == old(drops)
      ensures !trial ==> All() == frames + [FrameMetrics(LogScaleQ24(bits, fti, estimate), fti, showFrame)]
      ensures !trial ==> drops == old(drops) + (if fti != FRAME_SUBTYPE_SEF && bits <= 0 then 1 else 0)
    {
      hide Tallied, Counted, Emittable, Packets, LogScaleQ24;
      CountFrame(bits, fti, trial);
      prevMetrics := FrameMetrics(LogScaleQ24(bits, fti, estimate), fti, showFrame);
      pass1DataRetrieved, tried := false, trial;
      if !trial {
        CountType();
      }
    }

    /** One more frame of its type, unless there are too many to count. */
    method CountType()
      requires Counted(frames, nframes) && prevMetrics.fti <= FRAME_NSUBTYPES
      modifies this`nframes
      ensures Counted(frames + [prevMetrics], nframes)
    {
      CountedEnter(frames, prevMetrics, nframes);
      var fti := prevMetrics.fti;
      if nframes[fti] < I32_MAX {
        nframes := Add(nframes, fti, 1);
      }
    }

    /** The counters of frames encoded; a trial encode counts for nothing. */
    method CountFrame(bits: int, fti: nat, trial: bool)
      requires trial ==> bits > 0 && fti != FRAME_SUBTYPE_SEF
      modifies this`nencodedFrames, this`nsefFrames, this`drops
      ensures nencodedFrames + nsefFrames + drops == old(nencodedFrames + nsefFrames + drops) + (if trial then 0 else 1)
      ensures drops == old(drops) + (if fti != FRAME_SUBTYPE_SEF && bits <= 0 then 1 else 0)
    {
      if fti == FRAME_SUBTYPE_SEF {
        nsefFrames := nsefFrames + 1;
      } else if bits <= 0 {
        drops := drops + 1;
      } else if !trial {
        nencodedFrames := nencodedFrames + 1;
      }
    }

    /** The frame just encoded enters the sums. */
    method Tally()
      requires Tallied(frames, bexp, ntus, scaleSum)
      modifies this`scaleSum, this`ntus
      ensures Tallied(frames + [prevMetrics], bexp, ntus, scaleSum)
    {
      hide *;
      TalliedEnter(frames, prevMetrics, bexp, ntus, scaleSum);
      if prevMetrics.fti < FRAME_NSUBTYPES {
        scaleSum := scaleSum[prevMetrics.fti := Signed64(scaleSum[prevMetrics.fti] + bexp(prevMetrics.logScaleQ24))];
      }
      if prevMetrics.showFrame {
        ntus := Signed32(ntus + 1);
      }
    }

    /** The packet of the frame just encoded, unless that frame reached the limit. */
    method EmitFrameData() returns (r: Result<nat>)
      requires Valid() && !pass1DataRetrieved && !tried
      modifies this`scaleSum, this`ntus, this`pass1DataRetrieved, this`frames, this`emitted, buffer
      ensures r.Ok? <==> old(|All()|) < FRAME_LIMIT + drops
      ensures r.Ok? ==> Valid() && pass1DataRetrieved && frames == old(All())
      ensures r.Ok? ==> r.value == TWOPASS_PACKET_SZ && emitted == old(emitted) + buffer[..r.value]
      ensures r.Err? ==> !pass1DataRetrieved && frames == old(frames) && emitted == old(emitted)
    {
      hide Tallied, Counted, Packets, PacketBytes, Capped;
      ghost var m := prevMetrics;
      Tally();
      if nencodedFrames + nsefFrames >= FRAME_LIMIT {
        return Err("Too many frames");
      }
      var curPos := RatePackets.EmitFrameData(buffer, prevMetrics);
      PacketsSnoc(frames, m);
      frames, emitted := frames + [m], emitted + buffer[..curPos];
      pass1DataRetrieved := true;
      r := Ok(curPos);
    }

    /** The summary, once every frame was emitted. */
    method EmitSummary() returns (curPos: nat)
      requires Valid() && pass1DataRetrieved
      modifies buffer
      ensures Valid() && curPos == TWOPASS_HEADER_SZ && buffer[..curPos] == SummaryBytes(ntus, nframes, exp, scaleSum)
    {
      SummaryIsShaped();
      curPos := RatePackets.EmitSummary(buffer, ntus, nframes, exp, scaleSum);
    }

    lemma SummaryIsShaped()
      requires Valid()
      ensures Shaped(ntus, nframes, exp, scaleSum)
    {
      hide Emittable, Packets;
    }

    /** Of any number of frames that can be counted, the summary is accepted if and only if some
        frame was shown and no scale sum wrapped to a negative one. */
    lemma SummaryIsAccepted()
      requires Valid() && pass1DataRetrieved && |frames| <= I32_MAX
      ensures Judged(ntus, nframes, exp, scaleSum).Ok? <==> Shown(frames) > 0 && SignsClear(frames, bexp)
      ensures SumTo(nframes, FRAME_NSUBTYPES + 1) == |frames|
    {
      SummaryIsShaped();
      SummaryAccepted(ntus, nframes, exp, scaleSum);
      CountedTotal(frames, nframes);
      TalliedSigns(frames, bexp, ntus, scaleSum);
      ShownBound(frames);
      hide Judged, Shaped, Frames, Shown, Emittable, Packets, SumTo, Tallied, SignsClear;
      assert SumTo(nframes, |nframes|) == |frames|;
    }

    /** In a file of fewer than 2^23 frames the sums are exact, and one shown frame is enough. */
    lemma ShortSummaryIsAccepted()
      requires Valid() && pass1DataRetrieved && ScaleFunction(bexp) && |frames| < TOO_MANY
      ensures Describe(frames, bexp, nframes, scaleSum, ntus)
      ensures Judged(ntus, nframes, exp, scaleSum).Ok? <==> Shown(frames) > 0
    {
      SummaryIsAccepted();
      SummaryIsTrue();
      ShortSumsFit(frames, bexp);
    }

    /** The summary says exactly what the frames are if and only if their scale sums fit 64 bits. */
    lemma SummaryIsTrue()
      requires Valid() && pass1DataRetrieved && |frames| <= I32_MAX
      ensures Describe(frames, bexp, nframes, scaleSum, ntus) <==> SumsFit(frames, bexp)
    {
      hide Packets;
      TalliedTrue(frames, bexp, nframes, ntus, scaleSum);
    }
  }

  lemma LargestIsRejected(p: Pass1State)
    requires p.Valid() && p.pass1DataRetrieved && ScaleFunction(p.bexp) && p.frames == Largest(TOO_MANY)
    ensures Shown(p.frames) == TOO_MANY
    ensures Judged(p.ntus, p.nframes, p.exp, p.scaleSum) == Err("Got negative scale sum")
  {
    LargestSums(TOO_MANY, p.bexp);
    p.SummaryIsShaped();
    p.SummaryIsAccepted();
    FrameTotalAccepts(p.nframes, FRAME_NSUBTYPES + 1);
    hide Frames, Scales, Shown, FrameTotal, SumTo, Counted, Emittable, Packets;
    assert p.ntus == TOO_MANY && p.scaleSum[0] == -0x8000_0000_0000_0000;
    assert forall i :: 0 <= i < |p.nframes| ==> p.nframes[i] >= 0;
  }

  /** 2^23 frames at the cap make the shortest file whose summary the second pass rejects for its
      sums, although every frame was shown. */
  method TooManyFrames(bexp: int -> int, exp: seq<u8>) returns (p: Pass1State)
    requires |exp| == FRAME_NSUBTYPES && ScaleFunction(bexp)
    ensures fresh(p) && p.Valid() && p.pass1DataRetrieved && p.drops == 0 && |p.frames| == TOO_MANY == Shown(p.frames)
    ensures Judged(p.ntus, p.nframes, p.exp, p.scaleSum) == Err("Got negative scale sum")
  {
    hide Pass1State.Valid, Judged, Shown, ScaleFunction;
    p := new Pass1State(bexp, exp);
    for i := 0 to TOO_MANY
      invariant fresh(p) && fresh(p.buffer) && p.Valid() && p.pass1DataRetrieved && p.drops == 0 && p.bexp == bexp
      invariant p.frames == Largest(i)
    {
      p.UpdateState(1, FRAME_SUBTYPE_I, true, MAX_LOG_Q57, false);
      var r := p.EmitFrameData();
      assert p.frames == Largest(i + 1);
    }
    LargestIsRejected(p);
  }

  /** A file short enough for its sums is one that the second pass can read in full if and only if
      it has a shown frame and an intra frame. */
  lemma WrittenIsWhole(p: Pass1State)
    requires p.Valid() && p.pass1DataRetrieved && ScaleFunction(p.bexp) && |p.frames| < TOO_MANY
    ensures Whole(File(p.ntus, p.nframes, p.exp, p.scaleSum, p.frames)) <==>
      Shown(p.frames) > 0 && Frames(p.frames, FRAME_SUBTYPE_I) > 0
    ensures Stream(File(p.ntus, p.nframes, p.exp, p.scaleSum, p.frames)) ==
      SummaryBytes(p.ntus, p.nframes, p.exp, p.scaleSum) + p.emitted
  {
    hide Tallied, Scales, Shown;
    p.SummaryIsAccepted();
    p.ShortSummaryIsAccepted();
    p.SummaryIsShaped();
    FramesBound(p.frames, FRAME_SUBTYPE_I);
    hide Judged, SumTo, Frames;
    assert forall i :: 0 <= i < |p.frames| ==> ValidMetrics(p.frames[i]) by {
      assert Emittable(p.frames);
    }
  }
}
