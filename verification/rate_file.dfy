/** A whole stats file on its way through the second pass: which of its frames were encoded,
    which are buffered, and which bytes are still to be read. */
module RateFile {
  import opened Bits
  import opened RatePackets
  import opened RateFeed
  import opened RateIntake

  /** The fields of a summary, and the frames it sums up. */
  datatype File = File(ntus: int, nframes: seq<int>, exp: seq<u8>, scaleSum: seq<int>, frames: seq<FrameMetrics>)

  /** A file that can be read in full: an acceptable summary with intra frames, which counts the
      frames that follow. */
  ghost predicate Whole(f: File) {
    && Shaped(f.ntus, f.nframes, f.exp, f.scaleSum) && Judged(f.ntus, f.nframes, f.exp, f.scaleSum).Ok?
    && f.nframes[FRAME_SUBTYPE_I] > 0 && SumTo(f.nframes, FRAME_NSUBTYPES + 1) == |f.frames|
    && forall i :: 0 <= i < |f.frames| ==> ValidMetrics(f.frames[i])
  }

  function Header(f: File): seq<u8> {
    SummaryBytes(f.ntus, f.nframes, f.exp, f.scaleSum)
  }

  function Stream(f: File): seq<u8> {
    Header(f) + Packets(f.frames)
  }

  /** With the frames before this one encoded, a ring of so many entries has a slot for every
      frame that is still wanted. */
  ghost predicate RoomAt(ms: seq<FrameMetrics>, delay: int, entries: nat, done: nat) {
    forall j :: done <= j < |ms| && Shown(ms[done..j]) < delay ==> j - done < entries
  }

  /** No stretch with fewer shown frames than the look-ahead is too long for the ring. */
  ghost predicate RingSuffices(ms: seq<FrameMetrics>, delay: int, entries: nat) {
    forall i :: 0 <= i <= |ms| ==> RoomAt(ms, delay, entries, i)
  }

  lemma {:induction false} ShownGrows(ms: seq<FrameMetrics>, n: nat)
    requires n <= |ms|
    ensures Shown(ms[..n]) <= Shown(ms)
  {
    if n == |ms| {
      assert ms[..n] == ms;
    } else {
      ShownGrows(ms[..|ms| - 1], n);
      assert ms[..|ms| - 1][..n] == ms[..n];
    }
  }

  /** The look-ahead: the configured one, but no longer than the file. */
  function LookAhead(k: Intake, f: File): int {
    if Started(k) || k.delay < f.ntus then k.delay else f.ntus
  }

  /** The summary is being read. */
  ghost predicate Opening(k: Intake, unread: seq<u8>, f: File) {
    !Started(k) && k.left >= 0 && k.live == [] && |k.held| < TWOPASS_HEADER_SZ && k.held + unread == Stream(f)
  }

  /** So many frames are encoded, those in the window are next, and the bytes held and unread are
      the packets of the rest. */
  ghost predicate Reading(k: Intake, done: nat, unread: seq<u8>, f: File) {
    && Started(k) && done + |k.live| <= |f.frames| && k.left == |f.frames| - done && |k.live| <= k.entries
    && k.live == f.frames[done..done + |k.live|]
    && |k.held| < TWOPASS_PACKET_SZ && k.held + unread == Packets(f.frames[done + |k.live|..])
  }

  ghost predicate Underway(k: Intake, done: nat, unread: seq<u8>, f: File) {
    if Started(k) then Reading(k, done, unread, f) else done == 0 && Opening(k, unread, f)
  }

  // Packets --------------------------------------------------------------------------------

  lemma PacketsFirst(ms: seq<FrameMetrics>, held: seq<u8>, bytes: seq<u8>, future: seq<u8>)
    requires |held| < TWOPASS_PACKET_SZ && held + (bytes + future) == Packets(ms)
    ensures ms == [] ==> bytes == []
    ensures |held| + |bytes| < TWOPASS_PACKET_SZ && future == [] ==> ms == []
    ensures |held| + |bytes| >= TWOPASS_PACKET_SZ ==> var n := TWOPASS_PACKET_SZ - |held|;
      ms != [] && held + bytes[..n] == PacketBytes(ms[0]) && [] + (bytes[n..] + future) == Packets(ms[1..])
  {
    hide PacketBytes;
    if ms == [] {
      assert |held + (bytes + future)| == 0;
    } else if |held| + |bytes| >= TWOPASS_PACKET_SZ {
      var n := TWOPASS_PACKET_SZ - |held|;
      assert Packets(ms)[..TWOPASS_PACKET_SZ] == PacketBytes(ms[0]) &&
        Packets(ms)[TWOPASS_PACKET_SZ..] == Packets(ms[1..]);
      assert (held + (bytes + future))[..TWOPASS_PACKET_SZ] == held + bytes[..n];
      assert (held + (bytes + future))[TWOPASS_PACKET_SZ..] == bytes[n..] + future;
    }
  }

  lemma FirstThenRest(live: seq<FrameMetrics>, ms: seq<FrameMetrics>, k: nat)
    requires 0 < k <= |ms|
    ensures live + [ms[0]] + ms[1..][..k - 1] == live + ms[..k] && ms[1..][k - 1..] == ms[k..]
  {
  }

  /** What is taken in of the packets of some frames are exactly the first of these frames. It
      fails only for want of a slot, and stops short of the end of its input only when no more
      frames are wanted. */
  lemma {:induction false} FramesFollow(p: Plan, live: seq<FrameMetrics>, held: seq<u8>, bytes: seq<u8>,
                                        future: seq<u8>, ms: seq<FrameMetrics>)
    requires |held| < TWOPASS_PACKET_SZ && held + (bytes + future) == Packets(ms)
    requires |live| + |ms| == p.left && |live| <= p.entries && forall i :: 0 <= i < |ms| ==> ValidMetrics(ms[i])
    ensures var o := Absorb(p, live, held, bytes); var n := |o.live| - |live|;
      && 0 <= n <= |ms| && o.live == live + ms[..n] && |o.live| <= p.entries
      && (o.failed ==> Wants(p, o.live) && |o.live| == p.entries)
      && (!o.failed ==> |o.held| < TWOPASS_PACKET_SZ && o.held + (o.rest + future) == Packets(ms[n..]))
      && (!o.failed && (o.rest != [] || future == []) ==> !Wants(p, o.live))
    decreases |ms|
  {
    hide Shown, ParsedPacket, Packets, PacketBytes, ValidMetrics;
    PacketsFirst(ms, held, bytes, future);
    assert ms[..0] == [] && ms[0..] == ms && live + [] == live;
    if Wants(p, live) {
      var n := Take(held, bytes);
      AbsorbRound(p, live, held, bytes, held + bytes[..n], bytes[n..]);
      hide Absorb, Wants;
      if |held| + n < TWOPASS_PACKET_SZ {
        assert bytes[..n] == bytes && held + (bytes + future) == held + bytes + ([] + future);
      } else {
        PacketRoundTrip(ms[0]);
        if |live| < p.entries {
          FramesFollow(p, live + [ms[0]], [], bytes[n..], future, ms[1..]);
          FirstThenRest(live, ms, |Absorb(p, live, held, bytes).live| - |live|);
        }
      }
    } else {
      AbsorbDone(p, live, held, bytes);
    }
  }

  // Steps -------------------------------------------------------------------------------------

  lemma StepReading(k: Intake, done: nat, chunk: seq<u8>, future: seq<u8>, f: File)
    requires Whole(f) && Reading(k, done, chunk + future, f)
    ensures var o := TakeFrames(k, chunk);
      && (o.failed ==> !RoomAt(f.frames, k.delay, k.entries, done))
      && (!o.failed ==> Reading(o.state, done, o.rest + future, f))
      && o.state.delay == k.delay && o.state.entries == k.entries
      && (!o.failed && (o.rest != [] || future == []) ==> !Wants(PlanOf(o.state), o.state.live))
  {
    hide Judged, Shaped, SumTo, Packets, ValidMetrics, Absorb, Shown;
    var at := done + |k.live|;
    FramesFollow(PlanOf(k), k.live, k.held, chunk, future, f.frames[at..]);
    var o := TakeFrames(k, chunk);
    var n := |o.state.live| - |k.live|;
    assert k.live + f.frames[at..][..n] == f.frames[done..at + n] && f.frames[at..][n..] == f.frames[at + n..];
    if o.failed {
      assert done <= at + n < |f.frames| && Shown(f.frames[done..at + n]) < k.delay;
    }
  }

  lemma HeaderIsJudged(f: File)
    requires Whole(f)
    ensures |Header(f)| == TWOPASS_HEADER_SZ && |f.frames| > 0
    ensures |f.nframes| == FRAME_NSUBTYPES + 1 && f.nframes[FRAME_SUBTYPE_I] > 0
    ensures ParsedSummary(Header(f)) == Ok(Summary(f.ntus, f.nframes, f.exp, f.scaleSum, |f.frames|))
  {
    hide ParsedSummary, SummaryBytes;
    SummaryRoundTrip(f.ntus, f.nframes, f.exp, f.scaleSum);
    SummaryAccepted(f.ntus, f.nframes, f.exp, f.scaleSum);
  }

  lemma OpeningSplits(held: seq<u8>, chunk: seq<u8>, future: seq<u8>, f: File, n: nat)
    requires held + (chunk + future) == Stream(f) && |Header(f)| == TWOPASS_HEADER_SZ
    requires |held| + n == TWOPASS_HEADER_SZ && n <= |chunk|
    ensures held + chunk[..n] == Header(f) && chunk[n..] + future == Packets(f.frames)
  {
    hide Header, Packets;
    assert Stream(f)[..TWOPASS_HEADER_SZ] == Header(f) && Stream(f)[TWOPASS_HEADER_SZ..] == Packets(f.frames);
    assert (held + (chunk + future))[..TWOPASS_HEADER_SZ] == held + chunk[..n];
    assert (held + (chunk + future))[TWOPASS_HEADER_SZ..] == chunk[n..] + future;
  }

  /** The summary is not complete yet. */
  lemma StillOpening(k: Intake, chunk: seq<u8>, future: seq<u8>, f: File)
    requires Opening(k, chunk + future, f) && |k.held| + |chunk| < TWOPASS_HEADER_SZ <= |Stream(f)|
    ensures var o := TakeHeader(k, chunk);
      && !o.failed && o.state == k.(held := k.held + chunk) && o.rest == [] && future != []
      && Opening(o.state, o.rest + future, f)
  {
    hide TakeHeader, Stream;
    HeaderUnread(k, chunk);
    assert k.held + (chunk + future) == k.held + chunk + ([] + future);
    assert |Stream(f)| == |k.held| + |chunk| + |future|;
  }

  /** The summary sets up the second pass; packets follow. */
  lemma Opened(k: Intake, chunk: seq<u8>, future: seq<u8>, f: File)
    requires Whole(f) && Opening(k, chunk + future, f) && |k.held| + |chunk| >= TWOPASS_HEADER_SZ
    ensures var o := TakeHeader(k, chunk);
      && !o.failed && o.state.entries == k.entries && o.state.delay == LookAhead(k, f)
      && Reading(o.state, 0, o.rest + future, f)
  {
    hide ParsedSummary, Header, Packets, Whole, TakeHeader;
    HeaderIsJudged(f);
    var n := TWOPASS_HEADER_SZ - |k.held|;
    OpeningSplits(k.held, chunk, future, f, n);
    HeaderRound(k, chunk, n);
    hide Stream, Opening;
    assert f.frames[0..0] == [] && f.frames[0..] == f.frames && [] + (chunk[n..] + future) == chunk[n..] + future;
  }

  /** Whatever is fed next, and however the rest will be cut: the file stays underway. It is
      rejected only if the ring is too small, and with input to spare or no more to come, no more
      frames are wanted. */
  lemma StepIn(k: Intake, done: nat, chunk: seq<u8>, future: seq<u8>, f: File)
    requires Whole(f) && Underway(k, done, chunk + future, f)
    ensures Fits(k)
    ensures var o := TakeIn(k, chunk);
      && (o.failed ==> !RoomAt(f.frames, LookAhead(k, f), k.entries, done))
      && (!o.failed ==> Underway(o.state, done, o.rest + future, f))
      && LookAhead(o.state, f) == LookAhead(k, f) && o.state.entries == k.entries
      && (!o.failed && (o.rest != [] || future == []) ==> Started(o.state) && !Wants(PlanOf(o.state), o.state.live))
  {
    hide Reading, Opening, TakeFrames, TakeHeader, Whole, Wants, RoomAt;
    FitsUnderway(k, done, chunk + future, f);
    if Started(k) {
      StepReading(k, done, chunk, future, f);
    } else {
      HeaderIsJudged(f);
      if |k.held| + |chunk| < TWOPASS_HEADER_SZ {
        StillOpening(k, chunk, future, f);
      } else {
        Opened(k, chunk, future, f);
        var o := TakeHeader(k, chunk);
        FitsUnderway(o.state, 0, o.rest + future, f);
        StepReading(o.state, 0, o.rest, future, f);
      }
    }
  }

  lemma FitsUnderway(k: Intake, done: nat, unread: seq<u8>, f: File)
    requires Underway(k, done, unread, f) || Reading(k, done, unread, f)
    ensures Fits(k) && (Reading(k, done, unread, f) ==> Started(k))
  {
  }

  /** The head of the window is encoded; the next frame follows. */
  lemma StepOut(k: Intake, done: nat, unread: seq<u8>, f: File)
    requires Reading(k, done, unread, f) && k.live != []
    ensures k.live[0] == f.frames[done] && Reading(Advance(k), done + 1, unread, f)
  {
    hide Packets;
  }

  /** With no more frames wanted the ring was large enough. */
  lemma FullMeansRoom(k: Intake, done: nat, unread: seq<u8>, f: File)
    requires Reading(k, done, unread, f) && !Wants(PlanOf(k), k.live)
    ensures RoomAt(f.frames, k.delay, k.entries, done)
  {
    hide Packets;
    forall j | done + |k.live| <= j < |f.frames| ensures Shown(k.live) <= Shown(f.frames[done..j]) {
      ShownGrows(f.frames[done..j], |k.live|);
      assert f.frames[done..j][..|k.live|] == k.live;
    }
  }

  /** Nothing is left of a file all of whose frames are encoded. */
  lemma AllEncoded(k: Intake, unread: seq<u8>, f: File)
    requires Reading(k, |f.frames|, unread, f)
    ensures k.left == 0 && k.live == [] && k.held == [] && unread == []
  {
    assert |k.held + unread| == 0;
  }
}
