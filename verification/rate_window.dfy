/** The second pass of two-pass rate control with a finite look-ahead: a ring of frame
    metrics, statistics kept up to date as frames enter and leave it, and a ready flag. */
module RateWindow {
  import opened Bits
  import opened RateFeed
  import opened RateIntake
  import opened RatePackets

  function Add(v: seq<int>, i: nat, x: int): (r: seq<int>)
    requires i < |v|
    ensures |r| == |v|
  {
    v[i := v[i] + x]
  }

  // Folds over the frames in the window ------------------------------------------------------

  function Frames(ms: seq<FrameMetrics>, fti: nat): nat {
    if ms == [] then 0 else Frames(ms[..|ms| - 1], fti) + (if ms[|ms| - 1].fti == fti then 1 else 0)
  }

  function Scales(ms: seq<FrameMetrics>, fti: nat, bexp: int -> int): int {
    if ms == [] then 0
    else Scales(ms[..|ms| - 1], fti, bexp) + (if ms[|ms| - 1].fti == fti then bexp(ms[|ms| - 1].logScaleQ24) else 0)
  }

  function Total(v: seq<int>): int
    requires |v| == FRAME_NSUBTYPES + 1
  {
    v[0] + v[1] + v[2] + v[3] + v[4]
  }

  lemma TotalIsSum(v: seq<int>)
    requires |v| == FRAME_NSUBTYPES + 1
    ensures SumTo(v, 5) == Total(v)
  {
    assert SumTo(v, 1) == v[0];
    assert SumTo(v, 2) == v[0] + v[1];
    assert SumTo(v, 3) == v[0] + v[1] + v[2];
  }

  lemma TotalAdd(v: seq<int>, i: nat, x: int)
    requires |v| == FRAME_NSUBTYPES + 1 && i < |v|
    ensures Total(Add(v, i, x)) == Total(v) + x
  {
  }

  lemma DescribeTypes(ms: seq<FrameMetrics>, bexp: int -> int, nframes: seq<int>, sums: seq<int>, ntus: int)
    requires Describe(ms, bexp, nframes, sums, ntus) && ms != []
    ensures ms[0].fti <= FRAME_NSUBTYPES
  {
  }

  /** The statistics of a window: counts and scale sums by frame type, and shown frames. */
  ghost predicate Describe(ms: seq<FrameMetrics>, bexp: int -> int, nframes: seq<int>, sums: seq<int>, ntus: int) {
    && |nframes| == FRAME_NSUBTYPES + 1 && |sums| == FRAME_NSUBTYPES
    && (forall i :: 0 <= i < |ms| ==> ms[i].fti <= FRAME_NSUBTYPES)
    && (forall t :: 0 <= t <= FRAME_NSUBTYPES ==> nframes[t] == Frames(ms, t))
    && (forall t :: 0 <= t < FRAME_NSUBTYPES ==> sums[t] == Scales(ms, t, bexp))
    && ntus == Shown(ms)
  }

  lemma DescribeEnter(ms: seq<FrameMetrics>, m: FrameMetrics, bexp: int -> int,
                      nframes: seq<int>, sums: seq<int>, ntus: int)
    requires Describe(ms, bexp, nframes, sums, ntus) && m.fti <= FRAME_NSUBTYPES
    ensures Describe(ms + [m], bexp, Add(nframes, m.fti, 1),
      if m.fti < FRAME_NSUBTYPES then Add(sums, m.fti, bexp(m.logScaleQ24)) else sums,
      ntus + (if m.showFrame then 1 else 0))
  {
    assert (ms + [m])[..|ms|] == ms;
  }

  lemma {:induction false} FoldsSplitFirst(ms: seq<FrameMetrics>, fti: nat, bexp: int -> int)
    requires ms != []
    ensures Frames(ms, fti) == Frames(ms[1..], fti) + (if ms[0].fti == fti then 1 else 0)
    ensures Scales(ms, fti, bexp) ==
      Scales(ms[1..], fti, bexp) + (if ms[0].fti == fti then bexp(ms[0].logScaleQ24) else 0)
    ensures Shown(ms) == Shown(ms[1..]) + (if ms[0].showFrame then 1 else 0)
    decreases |ms|
  {
    if |ms| == 1 {
      assert ms[1..] == [] && ms[..0] == [];
    } else {
      FoldsSplitFirst(ms[..|ms| - 1], fti, bexp);
      assert ms[..|ms| - 1][1..] == ms[1..][..|ms| - 2];
    }
  }

  lemma DescribeLeave(ms: seq<FrameMetrics>, bexp: int -> int, nframes: seq<int>, sums: seq<int>, ntus: int)
    requires Describe(ms, bexp, nframes, sums, ntus) && ms != []
    ensures Describe(ms[1..], bexp, Add(nframes, ms[0].fti, -1),
      if ms[0].fti < FRAME_NSUBTYPES then Add(sums, ms[0].fti, -bexp(ms[0].logScaleQ24)) else sums,
      ntus - (if ms[0].showFrame then 1 else 0))
  {
    forall t | 0 <= t <= FRAME_NSUBTYPES ensures Frames(ms[1..], t) == Frames(ms, t) - (if ms[0].fti == t then 1 else 0)
      && Scales(ms[1..], t, bexp) == Scales(ms, t, bexp) - (if ms[0].fti == t then bexp(ms[0].logScaleQ24) else 0)
    {
      FoldsSplitFirst(ms, t, bexp);
    }
    FoldsSplitFirst(ms, 0, bexp);
  }

  /** Every frame has exactly one type, so the counts add up to the window's length. */
  lemma {:induction false} CountsAddUp(ms: seq<FrameMetrics>)
    requires forall i :: 0 <= i < |ms| ==> ms[i].fti <= FRAME_NSUBTYPES
    ensures Frames(ms, 0) + Frames(ms, 1) + Frames(ms, 2) + Frames(ms, 3) + Frames(ms, 4) == |ms|
  {
    if ms != [] {
      CountsAddUp(ms[..|ms| - 1]);
    }
  }

  lemma DescribeTotal(ms: seq<FrameMetrics>, bexp: int -> int, nframes: seq<int>, sums: seq<int>, ntus: int)
    requires Describe(ms, bexp, nframes, sums, ntus)
    ensures Total(nframes) == |ms|
  {
    CountsAddUp(ms);
  }

  /** Where the i-th entry of a ring of n slots lies. */
  function Slot(head: nat, i: nat, n: nat): (s: nat)
    requires head < n && i <= n
    ensures s < n
  {
    if head + i < n then head + i else head + i - n
  }

  /** The n live entries of a ring, in the order they entered. */
  function LiveOf(ring: seq<FrameMetrics>, head: nat, n: nat): (ms: seq<FrameMetrics>)
    requires head < |ring| && n <= |ring|
    ensures |ms| == n
    ensures n > 0 ==> ms[0] == ring[head]
  {
    seq(n, i requires 0 <= i < n => ring[Slot(head, i, |ring|)])
  }

  lemma LiveEnter(ring: seq<FrameMetrics>, head: nat, n: nat, m: FrameMetrics)
    requires head < |ring| && n < |ring|
    ensures LiveOf(ring[Slot(head, n, |ring|) := m], head, n + 1) == LiveOf(ring, head, n) + [m]
  {
  }

  lemma LiveLeave(ring: seq<FrameMetrics>, head: nat, n: nat)
    requires head < |ring| && 0 < n <= |ring|
    ensures LiveOf(ring, Slot(head, 1, |ring|), n - 1) == LiveOf(ring, head, n)[1..]
  {
  }

  lemma Slices(b: seq<u8>, i: nat, j: nat)
    requires i <= j <= |b|
    ensures b[i..][j - i..] == b[j..] && b[i..][..j - i] == b[i..j]
  {
  }

  datatype Input = NoBuffer | Buffer(bytes: seq<u8>)

  class RCState {
    const bexp: int -> int
    const des: RCDeserialize
    const ring: array<FrameMetrics>
    var nframeMetrics: nat
    var head: nat
    var prevMetrics: FrameMetrics
    var curMetrics: FrameMetrics
    var pass2DataReady: bool
    var reservoirFrameDelay: int
    var ntusTotal: int
    var ntusLeft: int
    var nframesTotal: seq<int>
    var nframesLeft: seq<int>
    var nframesTotalTotal: int
    var exp: seq<u8>
    var nencodedFrames: int
    var nsefFrames: int
    var scaleWindowNtus: int
    var scaleWindowNframes: seq<int>
    var scaleWindowSum: seq<int>
    // Frames that were dropped instead of encoded.
    ghost var drops: nat

    /** The live entries of the ring, the current frame first. */
    ghost function Live(): (ms: seq<FrameMetrics>)
      requires head < ring.Length && nframeMetrics <= ring.Length
      reads this`head, this`nframeMetrics, ring
      ensures |ms| == nframeMetrics
    {
      LiveOf(ring[..], head, nframeMetrics)
    }

    /** Until a summary with intra frames has been read, input is taken for a summary. */
    predicate HasSummary()
      requires |nframesTotal| == FRAME_NSUBTYPES + 1
      reads this
    {
      nframesTotal[FRAME_SUBTYPE_I] > 0
    }

    /** No frame has entered or left the window yet. */
    ghost predicate Untouched()
      reads this
    {
      nframeMetrics == 0 && nencodedFrames + nsefFrames == 0 && drops == 0
    }

    /** What remains of Valid while the frame counters are being adjusted. */
    ghost predicate Settled()
      reads this, ring, des, des.buffer
    {
      && des.Valid() && |nframesTotal| == FRAME_NSUBTYPES + 1 && nframesTotal[FRAME_SUBTYPE_I] >= 0
      && (HasSummary() ==> des.fill <= TWOPASS_PACKET_SZ)
      && head < ring.Length && nframeMetrics <= ring.Length && reservoirFrameDelay >= 1
      && |scaleWindowNframes| == |nframesLeft| == FRAME_NSUBTYPES + 1 && |scaleWindowSum| == FRAME_NSUBTYPES
      && Describe(Live(), bexp, scaleWindowNframes, scaleWindowSum, scaleWindowNtus)
      && nframeMetrics <= Total(nframesLeft)
    }

    /** Window statistics are folds of the live entries, and no more frames are buffered than are left. */
    ghost predicate Valid()
      reads this, ring, des, des.buffer
    {
      && Settled()
      && nframesTotalTotal - (nencodedFrames + nsefFrames) == Total(nframesLeft) + drops
    }

    /** When ready, the current metrics are those of the first live entry. */
    ghost predicate ReadyMeansHead()
      requires head < ring.Length && nframeMetrics <= ring.Length
      reads this, ring
    {
      pass2DataReady ==> nframeMetrics > 0 && curMetrics == Live()[0]
    }

    /** No frames are left, yet earlier drops make it look as if some were. */
    ghost predicate Misled()
      requires |nframesLeft| == |nframesTotal| == FRAME_NSUBTYPES + 1
      reads this
    {
      HasSummary() && Total(nframesLeft) == 0 && drops > 0
    }

    /** A finite buffer of so many entries, to which nothing has been fed. */
    constructor (bexpQ24: int -> int, delay: nat, entries: nat, exp0: seq<u8>)
      requires delay >= 1 && entries > 0
      ensures Valid() && Untouched() && !HasSummary() && !pass2DataReady && Live() == [] && Held() == []
      ensures Total(nframesLeft) == 0 && reservoirFrameDelay == delay
      ensures ring.Length == entries && exp == exp0 && bexp == bexpQ24
      ensures fresh(ring) && fresh(des) && fresh(des.buffer)
    {
      bexp := bexpQ24;
      des := new RCDeserialize();
      ring := new FrameMetrics[entries](_ => NO_METRICS);
      nframeMetrics, head := 0, 0;
      prevMetrics, curMetrics := NO_METRICS, NO_METRICS;
      pass2DataReady := false;
      reservoirFrameDelay := delay;
      ntusTotal, ntusLeft, nframesTotal, nframesLeft := 0, 0, [0, 0, 0, 0, 0], [0, 0, 0, 0, 0];
      nframesTotalTotal, exp := 0, exp0;
      nencodedFrames, nsefFrames := 0, 0;
      scaleWindowNtus, scaleWindowNframes, scaleWindowSum := 0, [0, 0, 0, 0, 0], [0, 0, 0, 0];
      drops := 0;
    }

    /** All that decides what becomes of the next bytes. */
    ghost function IntakeNow(): Intake
      requires head < ring.Length && nframeMetrics <= ring.Length && des.fill <= des.buffer.Length
      requires |nframesLeft| == FRAME_NSUBTYPES + 1
      reads this, ring, des, des.buffer
    {
      Intake(Header(ntusTotal, nframesTotal, exp), reservoirFrameDelay, Total(nframesLeft), ring.Length, Live(), Held())
    }

    /** The state and result that such an outcome stands for. */
    ghost predicate Obeys(o: Outcome, bytes: seq<u8>, r: Result<nat>)
      requires head < ring.Length && nframeMetrics <= ring.Length && des.fill <= des.buffer.Length
      requires |nframesLeft| == FRAME_NSUBTYPES + 1
      reads this, ring, des, des.buffer
    {
      IntakeNow() == o.state && r.Err? == o.failed && (r.Ok? ==> r.value <= |bytes| && bytes[r.value..] == o.rest)
    }

    /** A summary replaces what was known of the file. */
    method SetupSecondPass(s: Summary)
      requires Valid() && Untouched() && Accepted(s) && des.fill <= TWOPASS_PACKET_SZ
      modifies this`ntusTotal, this`ntusLeft, this`nframesTotal, this`nframesLeft, this`nframesTotalTotal,
        this`reservoirFrameDelay, this`exp
      ensures Valid() && ntusTotal == ntusLeft == s.ntus && nframesTotal == s.nframes && exp == s.exp
      ensures nframesTotalTotal == s.total == Total(nframesLeft)
      ensures reservoirFrameDelay == if old(reservoirFrameDelay) < s.ntus then old(reservoirFrameDelay) else s.ntus
    {
      hide Describe, LiveOf, Total, FrameTotal;
      FrameTotalAccepts(s.nframes, |s.nframes|);
      TotalIsSum(s.nframes);
      ExpectFrames(s);
      ntusTotal, ntusLeft, exp := s.ntus, s.ntus, s.exp;
    }

    method ExpectFrames(s: Summary)
      requires Valid() && Untouched() && des.fill <= TWOPASS_PACKET_SZ
      requires |s.nframes| == FRAME_NSUBTYPES + 1 && s.nframes[0] >= 0 && 1 <= s.ntus <= s.total == Total(s.nframes)
      modifies this`nframesTotal, this`nframesLeft, this`nframesTotalTotal, this`reservoirFrameDelay
      ensures Valid() && nframesTotal == s.nframes && nframesTotalTotal == s.total == Total(nframesLeft)
      ensures reservoirFrameDelay == if old(reservoirFrameDelay) < s.ntus then old(reservoirFrameDelay) else s.ntus
    {
      hide Describe, LiveOf, Total;
      nframesTotal, nframesLeft := s.nframes, s.nframes;
      nframesTotalTotal := Total(s.nframes);
      reservoirFrameDelay := if reservoirFrameDelay < s.ntus then reservoirFrameDelay else s.ntus;
    }

    /** Reads a summary, or the part of one that the input has. */
    method TwopassParseSummary(buf: seq<u8>) returns (r: Result<nat>)
      requires Valid() && Untouched() && !HasSummary()
      modifies this`ntusTotal, this`ntusLeft, this`nframesTotal, this`nframesLeft, this`nframesTotalTotal,
        this`reservoirFrameDelay, this`exp, des, des.buffer
      ensures Valid() && Untouched() && Obeys(old(TakeHeader(IntakeNow(), buf)), buf, r)
    {
      hide Describe, LiveOf, Total, TakeHeader, ParsedSummary, Accepted;
      ghost var before := IntakeNow();
      var consumed := des.BufferFill(buf, 0, TWOPASS_HEADER_SZ);
      assert buf[..consumed] == buf[0..consumed];
      HeaderRound(before, buf, consumed);
      if des.fill >= TWOPASS_HEADER_SZ {
        des.pos := 0;
        var s := des.ParseSummary();
        assert Held() == des.buffer[..TWOPASS_HEADER_SZ];
        if s.Err? {
          return Err(s.error);
        }
        des.fill := 0;
        SetupSecondPass(s.value);
      }
      r := Ok(consumed);
    }

    ghost function FramesMissing(): (n: nat)
      requires |nframesLeft| == FRAME_NSUBTYPES + 1 && nframeMetrics <= Total(nframesLeft)
      reads this
      ensures n <= Total(nframesLeft) - nframeMetrics
    {
      Missing(reservoirFrameDelay, Total(nframesLeft), scaleWindowNtus, nframeMetrics)
    }

    /** What the second pass is going to read. */
    ghost function Planned(): Plan
      requires |nframesLeft| == FRAME_NSUBTYPES + 1 && Total(nframesLeft) >= 0
      reads this
    {
      Plan(reservoirFrameDelay, Total(nframesLeft), ring.Length)
    }

    /** The bytes of a packet that is not complete yet. */
    ghost function Held(): seq<u8>
      requires des.fill <= des.buffer.Length
      reads this, des, des.buffer
    {
      des.buffer[..des.fill]
    }

    lemma MissingMeansWants()
      requires Valid()
      ensures FramesMissing() > 0 <==> Wants(Planned(), Live())
    {
      hide LiveOf, Total;
    }

    lemma MissingAreWanted()
      requires Valid() && HasSummary() && FramesMissing() > 0
      ensures BytesWanted(IntakeNow()) == TWOPASS_PACKET_SZ * FramesMissing() - |Held()|
    {
      hide LiveOf, Total;
    }

    /** Frames still to be read before the next can be encoded. */
    method FramesNeeded() returns (n: int)
      requires Valid()
      ensures n == FramesMissing()
    {
      var window, left := Total(scaleWindowNframes), Total(nframesLeft);
      DescribeTotal(Live(), bexp, scaleWindowNframes, scaleWindowSum, scaleWindowNtus);
      var want := reservoirFrameDelay - scaleWindowNtus;
      n := if want < 0 then 0 else if want > left - window then left - window else want;
    }

    /** A frame enters the window at the tail of the ring. */
    method Enter(m: FrameMetrics)
      requires Valid() && m.fti <= FRAME_NSUBTYPES
      requires nframeMetrics < ring.Length && nframeMetrics < Total(nframesLeft)
      modifies this`nframeMetrics, this`scaleWindowNframes, this`scaleWindowSum, this`scaleWindowNtus, ring
      ensures Valid() && Live() == old(Live()) + [m]
      ensures scaleWindowNtus == old(scaleWindowNtus) + (if m.showFrame then 1 else 0)
    {
      hide Describe, Total, LiveOf;
      ghost var live := Live();
      DescribeEnter(live, m, bexp, scaleWindowNframes, scaleWindowSum, scaleWindowNtus);
      LiveEnter(ring[..], head, nframeMetrics, m);
      var fmi := head + nframeMetrics;
      if fmi >= ring.Length {
        fmi := fmi - ring.Length;
      }
      nframeMetrics := nframeMetrics + 1;
      ring[fmi] := m;
      scaleWindowNframes := Add(scaleWindowNframes, m.fti, 1);
      if m.fti < FRAME_NSUBTYPES {
        scaleWindowSum := Add(scaleWindowSum, m.fti, bexp(m.logScaleQ24));
      }
      if m.showFrame {
        scaleWindowNtus := scaleWindowNtus + 1;
      }
      assert ring[..] == old(ring[..])[fmi := m];
    }

    /** Moves bytes of the input into the deserializer until it holds a packet. */
    method FillPacket(buf: seq<u8>, start: nat) returns (consumed: nat)
      requires Valid() && start <= |buf| && des.fill <= TWOPASS_PACKET_SZ
      modifies des, des.buffer
      ensures Valid() && start <= consumed <= |buf| && (des.fill == TWOPASS_PACKET_SZ || consumed == |buf|)
      ensures Held() == old(Held()) + buf[start..consumed] && consumed == start + Take(old(Held()), buf[start..])
      ensures unchanged(this) && unchanged(ring)
    {
      hide Describe, Total, LiveOf;
      consumed := des.BufferFill(buf, start, TWOPASS_PACKET_SZ);
    }

    /** Reads the metrics out of a full packet; the packet is kept if it is malformed. */
    method NextMetrics() returns (r: Result<FrameMetrics>)
      requires Valid() && des.fill == TWOPASS_PACKET_SZ
      modifies des
      ensures Valid() && r == ParsedPacket(des.buffer[..TWOPASS_PACKET_SZ]) && des.fill == TWOPASS_PACKET_SZ
      ensures unchanged(this) && unchanged(ring)
    {
      hide Describe, Total, LiveOf;
      des.pos := 0;
      r := des.ParseMetrics();
    }

    /** The metrics in a whole packet, which is dropped unless it is malformed. */
    method WholePacket(buf: seq<u8>) returns (r: Result<FrameMetrics>)
      requires Valid() && |buf| == TWOPASS_PACKET_SZ && des.fill <= TWOPASS_PACKET_SZ
      modifies des, des.buffer
      ensures Valid() && unchanged(this) && unchanged(ring)
      ensures r.Ok? ==> r.value.fti <= FRAME_NSUBTYPES
      ensures old(Held()) == [] ==> r == ParsedPacket(buf)
    {
      hide Describe, Total, LiveOf;
      var _ := FillPacket(buf, 0);
      assert old(Held()) == [] ==> des.buffer[..TWOPASS_PACKET_SZ] == buf;
      r := NextMetrics();
      if r.Ok? {
        des.fill := 0;
      }
    }

    /** One whole packet at a time. */
    method ParseFrameDataPacket(buf: seq<u8>) returns (r: Result<()>)
      requires Valid() && ReadyMeansHead() && des.fill <= TWOPASS_PACKET_SZ
      modifies this`nframeMetrics, this`scaleWindowNframes, this`scaleWindowSum, this`scaleWindowNtus, this`curMetrics,
        this`pass2DataReady, ring, des, des.buffer
      ensures Valid() && ReadyMeansHead() && old(Live()) <= Live()
      ensures r.Err? ==> Live() == old(Live()) && pass2DataReady == old(pass2DataReady)
      ensures |buf| != TWOPASS_PACKET_SZ ==> r.Err?
      ensures old(Held()) == [] && |buf| == TWOPASS_PACKET_SZ ==>
        (r.Ok? <==> ParsedPacket(buf).Ok? && old(FramesMissing()) > 0 && old(nframeMetrics) < ring.Length)
      ensures r.Ok? ==> old(FramesMissing()) > 0
      ensures r.Ok? ==> (pass2DataReady <==> old(pass2DataReady) || old(FramesMissing()) == 1)
      ensures r.Ok? && FramesMissing() == 0 ==> pass2DataReady
      ensures r.Ok? && old(FramesMissing()) == 1 ==>
        (FramesMissing() == 0 <==> Live()[|Live()| - 1].showFrame || |Live()| == Total(nframesLeft))
      ensures r.Ok? && old(Held()) == [] ==> ParsedPacket(buf).Ok? && Live() == old(Live()) + [ParsedPacket(buf).value]
    {
      hide Describe, Total, LiveOf, ParsedPacket;
      if |buf| != TWOPASS_PACKET_SZ {
        return Err("Incorrect buffer size");
      }
      var parsed := WholePacket(buf);
      if parsed.Err? {
        return Err(parsed.error);
      }
      r := AdmitMetrics(parsed.value);
    }

    /** A frame enters if one is missing and a slot is free. */
    method AdmitMetrics(m: FrameMetrics) returns (r: Result<()>)
      requires Valid() && ReadyMeansHead() && m.fti <= FRAME_NSUBTYPES
      modifies this`nframeMetrics, this`scaleWindowNframes, this`scaleWindowSum, this`scaleWindowNtus, this`curMetrics,
        this`pass2DataReady, ring
      ensures Valid() && ReadyMeansHead()
      ensures r.Err? ==> Live() == old(Live()) && pass2DataReady == old(pass2DataReady)
      ensures r.Ok? <==> old(FramesMissing()) > 0 && old(nframeMetrics) < ring.Length
      ensures r.Ok? ==> Live() == old(Live()) + [m]
      ensures r.Ok? ==> (pass2DataReady <==> old(pass2DataReady) || old(FramesMissing()) == 1)
      ensures r.Ok? && FramesMissing() == 0 ==> pass2DataReady
      ensures r.Ok? && old(FramesMissing()) == 1 ==>
        (FramesMissing() == 0 <==> m.showFrame || |Live()| == Total(nframesLeft))
    {
      hide Describe, Total, LiveOf;
      var needed := FramesNeeded();
      if needed > 0 {
        if nframeMetrics >= ring.Length {
          return Err("Read too many frames without finding enough TUs");
        }
        OneMore(reservoirFrameDelay, Total(nframesLeft), scaleWindowNtus, nframeMetrics, m.showFrame);
        Enter(m);
        if needed == 1 {
          BecomeReady();
        }
      } else {
        return Err("No frames needed");
      }
      r := Ok(());
    }

    /** A full packet's frame enters the window, if it parses and a slot is free. */
    method TakePacket() returns (r: Result<()>)
      requires Valid() && des.fill == TWOPASS_PACKET_SZ && nframeMetrics < Total(nframesLeft)
      modifies this`nframeMetrics, this`scaleWindowNframes, this`scaleWindowSum, this`scaleWindowNtus, ring, des
      ensures Valid()
      ensures r.Ok? <==> old(ParsedPacket(des.buffer[..TWOPASS_PACKET_SZ])).Ok? && old(nframeMetrics) < ring.Length
      ensures r.Ok? ==> Live() == old(Live()) + [old(ParsedPacket(des.buffer[..TWOPASS_PACKET_SZ])).value]
      ensures r.Err? ==> Live() == old(Live()) && scaleWindowNtus == old(scaleWindowNtus)
      ensures des.fill == TWOPASS_PACKET_SZ && Held() == old(Held())
    {
      hide Describe, Total, LiveOf, ParsedPacket;
      var parsed := NextMetrics();
      if parsed.Err? {
        return Err(parsed.error);
      }
      if nframeMetrics >= ring.Length {
        return Err("Read too many frames without finding enough TUs");
      }
      Enter(parsed.value);
      r := Ok(());
    }

    /** The state and result that such feeding leads to. */
    ghost predicate Fed(f: Feed, bytes: seq<u8>, r: Result<nat>)
      requires head < ring.Length && nframeMetrics <= ring.Length && des.fill <= des.buffer.Length
      reads this, ring, des, des.buffer
    {
      && Live() == f.live && Held() == f.held && r.Err? == f.failed
      && (r.Ok? ==> r.value <= |bytes| && bytes[r.value..] == f.rest)
    }

    /** One round of the loop that reads packets: true if a frame entered the window, false if
        the input ended inside a packet. */
    method ReadPacket(bytes: seq<u8>, start: nat) returns (consumed: nat, r: Result<bool>)
      requires Valid() && FramesMissing() > 0 && start <= |bytes| && des.fill <= TWOPASS_PACKET_SZ
      modifies this`nframeMetrics, this`scaleWindowNframes, this`scaleWindowSum, this`scaleWindowNtus, ring, des,
        des.buffer
      ensures Valid() && start <= consumed <= |bytes| && des.fill <= TWOPASS_PACKET_SZ
      ensures r == Ok(true) ==> old(Live()) <= Live() && nframeMetrics == old(nframeMetrics) + 1
      ensures r == Ok(true) ==>
        Absorb(Planned(), Live(), Held(), bytes[consumed..]) == old(Absorb(Planned(), Live(), Held(), bytes[start..]))
      ensures r != Ok(true) ==>
        Live() == old(Live()) && nframeMetrics == old(nframeMetrics) && scaleWindowNtus == old(scaleWindowNtus)
      ensures r != Ok(true) ==>
        old(Absorb(Planned(), Live(), Held(), bytes[start..])) == Feed(Live(), Held(), bytes[consumed..], r.Err?)
    {
      hide Describe, Total, LiveOf, ParsedPacket, Absorb, Wants, Take, Missing;
      MissingMeansWants();
      ghost var live, held := Live(), Held();
      consumed := FillPacket(bytes, start);
      Slices(bytes, start, consumed);
      AbsorbRound(Planned(), live, held, bytes[start..], Held(), bytes[consumed..]);
      if des.fill >= TWOPASS_PACKET_SZ {
        assert Held() == des.buffer[..TWOPASS_PACKET_SZ];
        var taken := TakePacket();
        if taken.Err? {
          return consumed, Err(taken.error);
        }
        des.fill := 0;
        r := Ok(true);
      } else {
        r := Ok(false);
      }
    }

    /** Reads packets until enough frames are buffered or the input runs out. With no input,
        says how many bytes the packets of the missing frames still lack. */
    method ParseFrameData(input: Input, start: nat) returns (r: Result<nat>)
      requires Valid() && HasSummary() && !pass2DataReady && (input.Buffer? ==> start <= |input.bytes|)
      modifies this`nframeMetrics, this`scaleWindowNframes, this`scaleWindowSum, this`scaleWindowNtus, this`curMetrics,
        this`pass2DataReady, ring, des, des.buffer
      ensures Valid() && old(Live()) <= Live()
      ensures input.NoBuffer? ==> Live() == old(Live()) && Held() == old(Held())
      ensures input.Buffer? ==> Fed(old(Absorb(Planned(), Live(), Held(), input.bytes[start..])), input.bytes, r)
      ensures pass2DataReady ==> FramesMissing() == 0
      ensures pass2DataReady && nframeMetrics > 0 ==> curMetrics == Live()[0]
      ensures r.Ok? ==> (pass2DataReady <==> FramesMissing() == 0)
      ensures input.NoBuffer? ==> r.Ok?
      ensures input.NoBuffer? ==>
        r.value == if FramesMissing() == 0 then start else TWOPASS_PACKET_SZ * FramesMissing() - |Held()|
    {
      hide Describe, Total, LiveOf, Absorb, Wants, Missing;
      var consumed: nat := start;
      var needed := FramesNeeded();
      while needed > 0
        invariant Valid() && !pass2DataReady && needed == FramesMissing()
        invariant old(Live()) <= Live()
        invariant input.NoBuffer? ==> Live() == old(Live()) && Held() == old(Held()) && consumed == start
        invariant input.Buffer? ==> consumed <= |input.bytes|
        invariant input.Buffer? ==>
          old(Absorb(Planned(), Live(), Held(), input.bytes[start..])) ==
            Absorb(Planned(), Live(), Held(), input.bytes[consumed..])
        decreases Total(nframesLeft) - nframeMetrics
      {
        if input.NoBuffer? {
          return Ok(TWOPASS_PACKET_SZ * needed - des.fill);
        }
        var read: Result<bool>;
        consumed, read := ReadPacket(input.bytes, consumed);
        if read.Err? {
          return Err(read.error);
        }
        if !read.value {
          break;
        }
        needed := FramesNeeded();
      }
      MissingMeansWants();
      AbsorbDone(Planned(), Live(), Held(), if input.Buffer? then input.bytes[consumed..] else []);
      if needed <= 0 {
        BecomeReady();
      }
      r := Ok(consumed);
    }

    /** The head of the ring is the next frame to encode. */
    method BecomeReady()
      requires Valid()
      modifies this`curMetrics, this`pass2DataReady
      ensures Valid() && pass2DataReady && (nframeMetrics > 0 ==> curMetrics == Live()[0])
    {
      hide Describe, Total;
      curMetrics := ring[head];
      pass2DataReady := true;
    }

    /** Readiness never comes before the window is full; true of every state that TwopassIn
        alone has fed. */
    ghost predicate Prompt()
      requires |nframesLeft| == FRAME_NSUBTYPES + 1 && nframeMetrics <= Total(nframesLeft)
      reads this
    {
      pass2DataReady ==> FramesMissing() == 0
    }

    /** Every frame of the file was encoded. */
    predicate Ended()
      reads this
    {
      nencodedFrames + nsefFrames >= nframesTotalTotal
    }

    /** Once the summary is known: packets are read until a frame can be encoded, and none after
        the last frame. Ready afterwards means there is a current frame, unless every frame is
        gone and some were dropped. */
    method ReadFrames(input: Input, start: nat) returns (r: Result<nat>)
      requires Valid() && HasSummary() && (ReadyMeansHead() || !pass2DataReady)
      requires input.Buffer? ==> start <= |input.bytes|
      modifies this`nframeMetrics, this`scaleWindowNframes, this`scaleWindowSum, this`scaleWindowNtus, this`curMetrics,
        this`pass2DataReady, ring, des, des.buffer
      ensures Valid() && old(Live()) <= Live()
      ensures input.NoBuffer? ==> r.Ok? && Live() == old(Live()) && Held() == old(Held())
      ensures input.NoBuffer? && Ended() ==> r.value == start && !pass2DataReady
      ensures input.NoBuffer? && !Ended() ==>
        && (pass2DataReady <==> old(pass2DataReady) || FramesMissing() == 0)
        && r.value == (if pass2DataReady then start else TWOPASS_PACKET_SZ * FramesMissing() - |Held()|)
      ensures input.Buffer? && old(Prompt()) ==>
        Obeys(old(TakeFrames(IntakeNow(), input.bytes[start..])), input.bytes, r)
      ensures old(Prompt()) ==> Prompt()
      ensures r.Ok? && !Ended() && old(Prompt()) ==>
        (pass2DataReady <==> FramesMissing() == 0)
      ensures !Misled() ==> ReadyMeansHead()
      ensures Misled() && r.Ok? ==> pass2DataReady && nframeMetrics == 0
    {
      hide Absorb, LiveOf, Describe, Total;
      DescribeTotal(Live(), bexp, scaleWindowNframes, scaleWindowSum, scaleWindowNtus);
      if !Ended() && !pass2DataReady {
        r := ParseFrameData(input, start);
        if pass2DataReady && nframeMetrics == 0 {
          EmptyWindow();
        }
        return;
      }
      if input.Buffer? && Prompt() {
        MissingMeansWants();
        AbsorbDone(Planned(), Live(), Held(), input.bytes[start..]);
      }
      if Ended() {
        pass2DataReady := false;
      }
      r := Ok(start);
    }

    /** A packet was rejected, and was to be the last. */
    ghost predicate Stuck()
      requires |nframesLeft| == FRAME_NSUBTYPES + 1 && nframeMetrics <= Total(nframesLeft)
      requires des.fill <= des.buffer.Length
      reads this, des, des.buffer
    {
      |Held()| == TWOPASS_PACKET_SZ && FramesMissing() == 1
    }

    /** Accepts statistics, first a summary and then packets, or with no input says how many bytes
        are wanted. What it does with any input is what taking in that input means. While frames
        are left, no bytes are wanted exactly when the next is ready, unless it is stuck. */
    method TwopassIn(input: Input) returns (r: Result<nat>)
      requires Valid() && (ReadyMeansHead() || !pass2DataReady)
      requires input.Buffer? && !HasSummary() ==> Untouched()
      modifies this`ntusTotal, this`ntusLeft, this`nframesTotal, this`nframesLeft, this`nframesTotalTotal,
        this`reservoirFrameDelay, this`exp, this`nframeMetrics, this`scaleWindowNframes, this`scaleWindowSum,
        this`scaleWindowNtus, this`curMetrics, this`pass2DataReady, ring, des, des.buffer
      ensures Valid() && old(Live()) <= Live() && (old(Prompt()) ==> Prompt())
      ensures input.Buffer? && old(Prompt()) ==> Obeys(old(TakeIn(IntakeNow(), input.bytes)), input.bytes, r)
      ensures input.Buffer? && !HasSummary() ==> Untouched()
      ensures input.NoBuffer? ==>
        r.Ok? && IntakeNow() == old(IntakeNow()) && nframesTotalTotal == old(nframesTotalTotal)
      ensures input.NoBuffer? && !(HasSummary() && (pass2DataReady || Ended())) ==>
        r.value == BytesWanted(IntakeNow())
      ensures input.NoBuffer? && HasSummary() && Ended() ==> r.value == 0 && !pass2DataReady
      ensures input.NoBuffer? && HasSummary() && !Ended() ==>
        && (pass2DataReady <==> old(pass2DataReady) || FramesMissing() == 0)
        && (r.value == 0 <==> pass2DataReady || Stuck())
      ensures old(HasSummary()) ==> HasSummary()
      ensures r.Ok? && HasSummary() && !Ended() && old(Prompt()) ==>
        (pass2DataReady <==> FramesMissing() == 0)
      ensures !Misled() ==> ReadyMeansHead()
      ensures !HasSummary() ==> !pass2DataReady
      ensures Misled() && r.Ok? ==> pass2DataReady && nframeMetrics == 0
    {
      hide Describe, LiveOf, Total, TakeFrames, TakeHeader;
      var consumed := 0;
      if !HasSummary() {
        pass2DataReady := false;
        if input.NoBuffer? {
          return Ok(TWOPASS_HEADER_SZ + reservoirFrameDelay * TWOPASS_PACKET_SZ);
        }
        var parsed := TwopassParseSummary(input.bytes);
        if parsed.Err? {
          return parsed;
        }
        consumed := parsed.value;
      }
      if HasSummary() {
        r := ReadFrames(input, consumed);
        if input.NoBuffer? && !Ended() && !pass2DataReady {
          MissingAreWanted();
        }
        return;
      }
      r := Ok(consumed);
    }

    lemma EmptyWindow()
      requires Valid() && nframeMetrics == 0
      ensures scaleWindowNtus == 0
    {
      assert Live() == [];
    }

    /** The current frame's statistics leave the window. */
    method BackOut()
      requires |scaleWindowNframes| == |nframesLeft| == FRAME_NSUBTYPES + 1 && |scaleWindowSum| == FRAME_NSUBTYPES
      requires curMetrics.fti <= FRAME_NSUBTYPES
      modifies this`prevMetrics, this`nframesLeft, this`scaleWindowNframes, this`scaleWindowSum, this`ntusLeft,
        this`scaleWindowNtus
      ensures prevMetrics == curMetrics
      ensures nframesLeft == Add(old(nframesLeft), curMetrics.fti, -1)
      ensures scaleWindowNframes == Add(old(scaleWindowNframes), curMetrics.fti, -1)
      ensures scaleWindowSum == (if curMetrics.fti < FRAME_NSUBTYPES
        then Add(old(scaleWindowSum), curMetrics.fti, -bexp(curMetrics.logScaleQ24)) else old(scaleWindowSum))
      ensures ntusLeft == old(ntusLeft) - (if curMetrics.showFrame then 1 else 0)
      ensures scaleWindowNtus == old(scaleWindowNtus) - (if curMetrics.showFrame then 1 else 0)
    {
      hide Add;
      prevMetrics := curMetrics;
      var ftj := prevMetrics.fti;
      nframesLeft := Add(nframesLeft, ftj, -1);
      scaleWindowNframes := Add(scaleWindowNframes, ftj, -1);
      if ftj < FRAME_NSUBTYPES {
        scaleWindowSum := Add(scaleWindowSum, ftj, -bexp(prevMetrics.logScaleQ24));
      }
      if prevMetrics.showFrame {
        ntusLeft := ntusLeft - 1;
        scaleWindowNtus := scaleWindowNtus - 1;
      }
    }

    /** The current frame leaves the window and its slot of the ring is freed. */
    method Leave()
      requires Settled() && nframeMetrics > 0 && curMetrics == Live()[0]
      modifies this`prevMetrics, this`nframesLeft, this`scaleWindowNframes, this`scaleWindowSum, this`ntusLeft,
        this`scaleWindowNtus, this`nframeMetrics, this`head
      ensures Settled() && Live() == old(Live())[1..] && prevMetrics == curMetrics
      ensures Total(nframesLeft) == old(Total(nframesLeft)) - 1
    {
      hide Describe, Total, Add, LiveOf;
      ghost var live := Live();
      DescribeLeave(live, bexp, scaleWindowNframes, scaleWindowSum, scaleWindowNtus);
      DescribeTypes(live, bexp, scaleWindowNframes, scaleWindowSum, scaleWindowNtus);
      LiveLeave(ring[..], head, nframeMetrics);
      TotalAdd(nframesLeft, curMetrics.fti, -1);
      BackOut();
      nframeMetrics := nframeMetrics - 1;
      head := head + 1;
      if head >= ring.Length {
        head := 0;
      }
    }

    /** The part of the end-of-frame update that moves the window: the frame just encoded, or
        dropped, leaves; the next becomes current if it is already buffered. Afterwards a ready
        state has a current frame if and only if it has not been misled by a drop. */
    method UpdateState(bits: int, fti: nat, showFrame: bool, trial: bool)
      requires Valid() && pass2DataReady && ReadyMeansHead() && fti <= FRAME_NSUBTYPES
      requires trial ==> bits > 0 && fti != FRAME_SUBTYPE_SEF
      modifies this, ring, des, des.buffer
      ensures Valid() && nframesTotal == old(nframesTotal) && nframesTotalTotal == old(nframesTotalTotal)
      ensures trial ==> IntakeNow() == old(IntakeNow()) && drops == old(drops) && ReadyMeansHead() && pass2DataReady
      ensures !trial ==> Live() == old(Live())[1..] && prevMetrics == old(curMetrics)
      ensures !trial ==> Total(nframesLeft) == old(Total(nframesLeft)) - 1
      ensures !trial ==> drops == old(drops) + (if fti != FRAME_SUBTYPE_SEF && bits <= 0 then 1 else 0)
      ensures !trial ==> (ReadyMeansHead() <==> !Misled())
      ensures !trial ==> IntakeNow() == Advance(old(IntakeNow())) && Prompt()
    {
      hide Describe, Total, LiveOf;
      CountFrame(bits, fti, trial);
      if !trial {
        EndFrame();
      }
    }

    /** The current frame is done; the next becomes current if it is already buffered. */
    method EndFrame()
      requires Settled() && nframeMetrics > 0 && curMetrics == Live()[0]
      requires nframesTotalTotal - (nencodedFrames + nsefFrames) == Total(nframesLeft) + drops - 1
      modifies this`prevMetrics, this`ntusTotal, this`ntusLeft, this`nframesTotal, this`nframesLeft,
        this`nframesTotalTotal, this`reservoirFrameDelay, this`exp, this`nframeMetrics, this`scaleWindowNframes,
        this`scaleWindowSum, this`scaleWindowNtus, this`curMetrics, this`pass2DataReady, this`head,
        ring, des, des.buffer
      ensures Valid() && nframesTotal == old(nframesTotal) && nframesTotalTotal == old(nframesTotalTotal)
      ensures Live() == old(Live())[1..] && prevMetrics == old(curMetrics)
      ensures Total(nframesLeft) == old(Total(nframesLeft)) - 1
      ensures ReadyMeansHead() <==> !Misled()
      ensures IntakeNow() == Advance(old(IntakeNow())) && Prompt()
    {
      hide Describe, Total, LiveOf;
      Leave();
      pass2DataReady := false;
      var _ := TwopassIn(NoBuffer);
    }

    /** The frame counters; a trial encode counts for nothing. */
    method CountFrame(bits: int, fti: nat, trial: bool)
      requires Valid() && fti <= FRAME_NSUBTYPES && (trial ==> bits > 0 && fti != FRAME_SUBTYPE_SEF)
      modifies this`nsefFrames, this`nencodedFrames, this`drops
      ensures Settled() && IntakeNow() == old(IntakeNow())
      ensures drops == old(drops) + (if fti != FRAME_SUBTYPE_SEF && bits <= 0 then 1 else 0)
      ensures nframesTotalTotal - (nencodedFrames + nsefFrames) == Total(nframesLeft) + drops - (if trial then 0 else 1)
    {
      hide Describe, Total, LiveOf;
      if fti == FRAME_SUBTYPE_SEF {
        nsefFrames := nsefFrames + 1;
      } else if bits <= 0 {
        drops := drops + 1;
      } else if !trial {
        nencodedFrames := nencodedFrames + 1;
      }
    }
  }
}
