/** How many bytes of a stats file the next frame of the second pass waits for, and how the number
    asked for compares with it. */
module RateWanted {
  import opened Bits
  import opened RatePackets
  import opened RateFeed
  import opened RateIntake
  import opened RateFile

  lemma ShownOneMore(live: seq<FrameMetrics>, m: FrameMetrics)
    ensures Shown(live + [m]) == Shown(live) + (if m.showFrame then 1 else 0)
  {
    assert (live + [m])[..|live|] == live;
  }

  function StillMissing(p: Plan, live: seq<FrameMetrics>): nat
    requires |live| <= p.left
  {
    Missing(p.delay, p.left, Shown(live), |live|)
  }

  /** Whatever the input is, if it is shorter than the packets of the missing frames, frames stay
      missing. */
  lemma {:induction false} TooFew(p: Plan, live: seq<FrameMetrics>, held: seq<u8>, bytes: seq<u8>)
    requires |held| <= TWOPASS_PACKET_SZ && |live| <= p.left
    requires |held| + |bytes| < TWOPASS_PACKET_SZ * StillMissing(p, live)
    ensures Wants(p, Absorb(p, live, held, bytes).live)
    decreases p.left - |live|
  {
    hide Shown, ParsedPacket;
    var n := Take(held, bytes);
    var packet := held + bytes[..n];
    AbsorbRound(p, live, held, bytes, packet, bytes[n..]);
    if |packet| == TWOPASS_PACKET_SZ && ParsedPacket(packet).Ok? && |live| < p.entries {
      var m := ParsedPacket(packet).value;
      ShownOneMore(live, m);
      OneMore(p.delay, p.left, Shown(live), |live|, m.showFrame);
      TooFew(p, live + [m], [], bytes[n..]);
    }
  }

  /** How many of the frames that follow are read before no more are wanted. */
  function Enough(p: Plan, live: seq<FrameMetrics>, ms: seq<FrameMetrics>): (n: nat)
    ensures n <= |ms|
    decreases |ms|
  {
    if ms == [] || !Wants(p, live) then 0 else 1 + Enough(p, live + [ms[0]], ms[1..])
  }

  /** At least the missing frames are needed; these suffice exactly when they are all shown or are
      all that is left. */
  lemma {:induction false} MissingIsEnough(p: Plan, live: seq<FrameMetrics>, ms: seq<FrameMetrics>)
    requires |live| + |ms| == p.left
    ensures var n := StillMissing(p, live);
      && n <= Enough(p, live, ms)
      && (n == Enough(p, live, ms) <==> n == |ms| || forall i :: 0 <= i < n ==> ms[i].showFrame)
    decreases |ms|
  {
    hide Shown;
    if Wants(p, live) {
      var n := StillMissing(p, live);
      ShownOneMore(live, ms[0]);
      MissingIsEnough(p, live + [ms[0]], ms[1..]);
      if forall i :: 0 <= i < n ==> ms[i].showFrame {
        assert ms[0].showFrame;
      }
      assert forall i :: 0 < i < n ==> ms[1..][i - 1] == ms[i];
    }
  }

  /** How far the packets of the frames that follow have to be fed for none to be missing. */
  lemma {:induction false} BytesDecide(p: Plan, live: seq<FrameMetrics>, held: seq<u8>, bytes: seq<u8>,
                                       future: seq<u8>, ms: seq<FrameMetrics>)
    requires |held| < TWOPASS_PACKET_SZ && held + (bytes + future) == Packets(ms)
    requires |live| + |ms| == p.left && forall i :: 0 <= i < |ms| ==> ValidMetrics(ms[i])
    ensures var o := Absorb(p, live, held, bytes);
      !o.failed ==> (Wants(p, o.live) <==> |held| + |bytes| < TWOPASS_PACKET_SZ * Enough(p, live, ms))
    decreases |ms|
  {
    hide Shown, ParsedPacket, Packets, PacketBytes, ValidMetrics;
    PacketsFirst(ms, held, bytes, future);
    if Wants(p, live) {
      var n := Take(held, bytes);
      AbsorbRound(p, live, held, bytes, held + bytes[..n], bytes[n..]);
      hide Absorb, Wants;
      if |held| + |bytes| >= TWOPASS_PACKET_SZ {
        PacketRoundTrip(ms[0]);
        if |live| < p.entries {
          BytesDecide(p, live + [ms[0]], [], bytes[n..], future, ms[1..]);
        }
      }
    } else {
      AbsorbDone(p, live, held, bytes);
    }
  }

  // A whole file -------------------------------------------------------------------------------

  /** No frame is missing. */
  predicate Full(k: Intake)
    requires k.left >= 0
  {
    Started(k) && !Wants(PlanOf(k), k.live)
  }

  /** How many of the file's frames are read, from the first that is not encoded, before the
      look-ahead is full. */
  function Needed(delay: int, entries: nat, done: nat, live: seq<FrameMetrics>, ms: seq<FrameMetrics>): nat
    requires done + |live| <= |ms|
  {
    Enough(Plan(delay, |ms| - done, entries), live, ms[done + |live|..])
  }

  /** How many more bytes of the file have to be fed for the next frame to be ready, when so many
      frames are encoded. */
  function Least(k: Intake, done: nat, f: File): int
    requires done + |k.live| <= |f.frames|
  {
    TWOPASS_PACKET_SZ * Needed(LookAhead(k, f), k.entries, done, k.live, f.frames) - |k.held|
      + (if Started(k) then 0 else TWOPASS_HEADER_SZ)
  }

  lemma ReadingDecides(k: Intake, done: nat, bytes: seq<u8>, future: seq<u8>, f: File)
    requires Whole(f) && Reading(k, done, bytes + future, f)
    ensures var o := TakeFrames(k, bytes); !o.failed ==> (Full(o.state) <==> |bytes| >= Least(k, done, f))
  {
    hide Judged, Shaped, SumTo, Packets, ValidMetrics, Absorb, Enough, Wants;
    BytesDecide(PlanOf(k), k.live, k.held, bytes, future, f.frames[done + |k.live|..]);
  }

  lemma WithinFile(k: Intake, done: nat, unread: seq<u8>, f: File)
    requires Underway(k, done, unread, f)
    ensures Fits(k) && done + |k.live| <= |f.frames|
  {
  }

  /** The header is in hand: what is left of the input goes to the packets. */
  lemma HeaderTaken(k: Intake, bytes: seq<u8>)
    requires |k.held| < TWOPASS_HEADER_SZ <= |k.held| + |bytes| && !TakeHeader(k, bytes).failed
    ensures var o := TakeHeader(k, bytes);
      o.state.live == k.live && o.state.held == [] && |o.rest| == |k.held| + |bytes| - TWOPASS_HEADER_SZ
  {
    hide ParsedSummary;
  }

  lemma OpeningDecides(k: Intake, bytes: seq<u8>, future: seq<u8>, f: File)
    requires Whole(f) && Underway(k, 0, bytes + future, f) && !Started(k)
    ensures Fits(k) && k.live == []
    ensures var o := TakeIn(k, bytes); !o.failed ==> (Full(o.state) <==> |bytes| >= Least(k, 0, f))
  {
    hide TakeFrames, TakeHeader, Whole, Wants, Needed, Reading, Packets, Stream;
    HeaderIsJudged(f);
    if |k.held| + |bytes| < TWOPASS_HEADER_SZ {
      HeaderUnread(k, bytes);
    } else {
      Opened(k, bytes, future, f);
      HeaderTaken(k, bytes);
      var o := TakeHeader(k, bytes);
      FitsUnderway(o.state, 0, o.rest + future, f);
      ReadingDecides(o.state, 0, o.rest, future, f);
    }
  }

  /** The next frame is ready exactly when that many bytes, or more, were fed. */
  lemma LeastDecides(k: Intake, done: nat, bytes: seq<u8>, future: seq<u8>, f: File)
    requires Whole(f) && Underway(k, done, bytes + future, f)
    ensures Fits(k) && done + |k.live| <= |f.frames|
    ensures var o := TakeIn(k, bytes); !o.failed ==> (Full(o.state) <==> |bytes| >= Least(k, done, f))
  {
    hide Reading, Opening, TakeFrames, TakeHeader, Whole, Wants, Least, Full;
    WithinFile(k, done, bytes + future, f);
    if Started(k) {
      ReadingDecides(k, done, bytes, future, f);
    } else {
      OpeningDecides(k, bytes, future, f);
    }
  }

  /** Once the summary is known, no more is asked for than the next frame waits for, and just that
      exactly when the missing frames are all shown or are the last. */
  lemma WantedIsLower(k: Intake, done: nat, unread: seq<u8>, f: File)
    requires Whole(f) && Reading(k, done, unread, f) && Wants(PlanOf(k), k.live)
    ensures k.delay >= 0 && Fits(k) && done + |k.live| <= |f.frames|
    ensures BytesWanted(k) <= Least(k, done, f)
    ensures var at, n := done + |k.live|, StillMissing(PlanOf(k), k.live);
      BytesWanted(k) == Least(k, done, f) <==>
        at + n == |f.frames| || forall i :: 0 <= i < n ==> f.frames[at..][i].showFrame
  {
    hide Whole, Packets, Enough;
    MissingIsEnough(PlanOf(k), k.live, f.frames[done + |k.live|..]);
  }

  lemma NtusWithin(f: File)
    requires Whole(f)
    ensures 1 <= f.ntus <= |f.frames|
  {
    HeaderIsJudged(f);
    hide Judged, SummaryBytes;
    SummaryAccepted(f.ntus, f.nframes, f.exp, f.scaleSum);
  }

  /** Before the summary is known, the number asked for is a lower bound exactly when the frames
      needed beyond the look-ahead make up for the bytes held. So it is one as long as nothing was
      fed of a file with at least as many TUs as the look-ahead, and only then if no frame of the
      file is hidden. */
  lemma FirstWantedIsLower(k: Intake, unread: seq<u8>, f: File)
    requires Whole(f) && Underway(k, 0, unread, f) && !Started(k) && k.delay >= 1
    ensures Fits(k) && k.live == []
    ensures BytesWanted(k) <= Least(k, 0, f) <==>
      |k.held| <= TWOPASS_PACKET_SZ * (Needed(LookAhead(k, f), k.entries, 0, [], f.frames) - k.delay)
    ensures k.held == [] && k.delay <= f.ntus ==> BytesWanted(k) <= Least(k, 0, f)
    ensures (forall i :: 0 <= i < |f.frames| ==> f.frames[i].showFrame) ==>
      (BytesWanted(k) <= Least(k, 0, f) <==> k.held == [] && k.delay <= f.ntus)
  {
    hide Whole, Packets, Stream, Enough;
    NtusWithin(f);
    var p := Plan(LookAhead(k, f), |f.frames|, k.entries);
    assert f.frames[0..] == f.frames;
    MissingIsEnough(p, [], f.frames);
    assert StillMissing(p, []) == LookAhead(k, f);
  }

  /** A file of one frame shows that it need not be one: with a look-ahead of more frames the first
      answer is more than its frame waits for. */
  lemma OneFrameAsksTooMuch(k: Intake, exp: seq<u8>)
    requires Fresh(k) && k.delay > 1 && |exp| == FRAME_NSUBTYPES
    ensures Fits(k)
    ensures var f := File(1, [1, 0, 0, 0, 0], exp, [0, 0, 0, 0], [FrameMetrics(0, FRAME_SUBTYPE_I, true)]);
      Whole(f) && Underway(k, 0, Stream(f), f) && Least(k, 0, f) < BytesWanted(k)
  {
    hide Packets, RateFile.Header;
    var f := File(1, [1, 0, 0, 0, 0], exp, [0, 0, 0, 0], [FrameMetrics(0, FRAME_SUBTYPE_I, true)]);
    assert SumTo(f.nframes, 3) == 1;
    assert SumTo(f.nframes, 5) == 1;
    assert [] + Stream(f) == Stream(f);
    assert f.frames[0].showFrame;
    hide Stream, Enough;
    assert Whole(f);
    FirstWantedIsLower(k, Stream(f), f);
  }

  /** While frames are missing, bytes are left to read. */
  lemma MoreToRead(k: Intake, done: nat, unread: seq<u8>, f: File)
    requires Whole(f) && Underway(k, done, unread, f)
    ensures Fits(k) && (!Full(k) ==> unread != [])
  {
    hide PacketBytes, Missing, Shown, Whole;
    if Started(k) {
      var ms := f.frames[done + |k.live|..];
      if ms != [] {
        assert |Packets(ms)| >= TWOPASS_PACKET_SZ;
      }
    } else {
      HeaderIsJudged(f);
      hide RateFile.Header, Packets;
    }
  }

  lemma TakesSome(p: Plan, live: seq<FrameMetrics>, held: seq<u8>, bytes: seq<u8>)
    requires |held| < TWOPASS_PACKET_SZ && Wants(p, live) && bytes != []
    ensures |Absorb(p, live, held, bytes).rest| < |bytes|
  {
    hide Wants, ParsedPacket;
  }

  lemma OpeningTakesSome(k: Intake, bytes: seq<u8>)
    requires |k.held| < TWOPASS_HEADER_SZ && bytes != []
    ensures |TakeHeader(k, bytes).rest| < |bytes|
  {
    hide ParsedSummary, SetUp;
  }

  /** While frames are missing, some of any input is taken in. */
  lemma Progress(k: Intake, done: nat, unread: seq<u8>, f: File, bytes: seq<u8>)
    requires Underway(k, done, unread, f)
    ensures Fits(k) && (!Full(k) && bytes != [] ==> |TakeIn(k, bytes).rest| < |bytes|)
  {
    hide Packets, Stream, Wants, TakeHeader, Absorb;
    FitsUnderway(k, done, unread, f);
    if !Full(k) && bytes != [] {
      if Started(k) {
        TakesSome(PlanOf(k), k.live, k.held, bytes);
      } else {
        OpeningTakesSome(k, bytes);
      }
    }
  }
}
