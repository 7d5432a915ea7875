/** Whole stats streams fed to the second pass in pieces. */
module RateStream {
  import opened Bits
  import opened RatePackets
  import opened RateFeed
  import opened RateFile
  import opened RateIntake
  import opened RateWanted
  import opened RateWindow

  /** A state that TwopassIn may be given any input in. */
  ghost predicate Feedable(rc: RCState)
    reads rc, rc.ring, rc.des, rc.des.buffer
  {
    && rc.Valid() && rc.Prompt() && (rc.ReadyMeansHead() || !rc.pass2DataReady)
    && (!rc.HasSummary() ==> rc.Untouched()) && !rc.Misled()
  }

  /** With frames left to encode, the next is ready exactly when no more need to be read. */
  ghost predicate ReadyWhenFull(rc: RCState)
    requires rc.Valid()
    reads rc, rc.ring, rc.des, rc.des.buffer
  {
    rc.HasSummary() && Total(rc.nframesLeft) > 0 ==> (rc.pass2DataReady <==> rc.FramesMissing() == 0)
  }

  lemma FeedableFits(rc: RCState)
    requires Feedable(rc)
    ensures Fits(rc.IntakeNow()) && (Started(rc.IntakeNow()) <==> rc.HasSummary())
  {
  }

  /** Feeds a stream chunk by chunk, each after what the one before left over, and stops at the
      first that is rejected. */
  method FeedChunks(rc: RCState, chunks: seq<seq<u8>>) returns (ok: bool, rest: seq<u8>)
    requires Feedable(rc)
    modifies rc, rc.ring, rc.des, rc.des.buffer
    ensures rc.Valid()
    ensures ok ==> Feedable(rc) && TakeChunks(old(rc.IntakeNow()), chunks) == Outcome(rc.IntakeNow(), rest, false)
    ensures ok && chunks != [] ==> ReadyWhenFull(rc)
    ensures !ok ==> exists i :: 0 < i <= |chunks| && TakeChunks(old(rc.IntakeNow()), chunks[..i]).failed
  {
    hide TakeIn, Describe, LiveOf;
    ghost var k := rc.IntakeNow();
    FeedableFits(rc);
    rest := [];
    for i := 0 to |chunks|
      invariant i > 0 ==> rc.Valid() && ReadyWhenFull(rc)
      invariant Feedable(rc) && Fits(k) && TakeChunks(k, chunks[..i]) == Outcome(rc.IntakeNow(), rest, false)
    {
      assert chunks[..i + 1][..i] == chunks[..i];
      FeedableFits(rc);
      ghost var before := rc.IntakeNow();
      var input := rest + chunks[i];
      var r := rc.TwopassIn(Buffer(input));
      assert TakeChunks(k, chunks[..i + 1]) == TakeIn(before, input);
      LeftStays(before, input);
      if r.Err? {
        return false, [];
      }
      rest := input[r.value..];
    }
    assert chunks[..|chunks|] == chunks;
    ok := true;
  }

  /** What a caller may do: feed bytes, which follow what was left over before, or encode the
      current frame, once or first as a trial. */
  datatype Step = Feed(chunk: seq<u8>) | Encode(bits: int, fti: nat, showFrame: bool, trial: bool)

  /** Some bits are spent on every frame that is not just shown again. */
  predicate DropFree(s: Step) {
    s.Encode? ==>
      && s.fti <= FRAME_NSUBTYPES && (s.bits > 0 || s.fti == FRAME_SUBTYPE_SEF)
      && (s.trial ==> s.bits > 0 && s.fti != FRAME_SUBTYPE_SEF)
  }

  function BytesOf(s: Step): seq<u8> {
    if s.Feed? then s.chunk else []
  }

  function FedBy(steps: seq<Step>): seq<u8> {
    if steps == [] then [] else BytesOf(steps[0]) + FedBy(steps[1..])
  }

  /** So many frames of a file were encoded, none was dropped, and the bytes that follow those
      taken in are these. */
  ghost predicate Follows(rc: RCState, done: nat, unread: seq<u8>, f: File)
    reads rc, rc.ring, rc.des, rc.des.buffer
  {
    && Feedable(rc) && rc.drops == 0 && rc.ReadyMeansHead() && (rc.pass2DataReady ==> rc.HasSummary())
    && Underway(rc.IntakeNow(), done, unread, f)
  }

  /** The look-ahead that a second pass uses on this file. */
  ghost function Ahead(rc: RCState, f: File): int
    requires rc.Valid()
    reads rc, rc.ring, rc.des, rc.des.buffer
  {
    LookAhead(rc.IntakeNow(), f)
  }

  /** Feeds some bytes. They are rejected only if the ring is too small; once all bytes were fed,
      the next frame is ready, unless there is none. */
  method FeedMore(rc: RCState, input: seq<u8>, ghost done: nat, ghost future: seq<u8>, ghost f: File)
      returns (ok: bool, rest: seq<u8>)
    requires Whole(f) && Follows(rc, done, input + future, f)
    modifies rc, rc.ring, rc.des, rc.des.buffer
    ensures rc.Valid()
    ensures |rest| <= |input| && (ok && input != [] && !old(Full(rc.IntakeNow())) ==> |rest| < |input|)
    ensures !ok ==> !RoomAt(f.frames, old(Ahead(rc, f)), rc.ring.Length, done)
    ensures ok ==> Follows(rc, done, rest + future, f) && Ahead(rc, f) == old(Ahead(rc, f))
    ensures ok && future == [] ==> (rc.pass2DataReady <==> done < |f.frames|)
    ensures ok && future == [] ==> RoomAt(f.frames, Ahead(rc, f), rc.ring.Length, done)
  {
    hide TakeIn, Whole, RoomAt, Reading, Opening, Wants;
    ghost var k := rc.IntakeNow();
    StepIn(k, done, input, future, f);
    Progress(k, done, input + future, f, input);
    var r := rc.TwopassIn(Buffer(input));
    if r.Err? {
      return false, [];
    }
    ok, rest := true, input[r.value..];
    if future == [] {
      FullMeansRoom(rc.IntakeNow(), done, rest + future, f);
      rc.MissingMeansWants();
      ReadyUntilDone(rc, done, rest + future, f);
    }
  }

  /** A state that wants no more frames is ready unless all are encoded. */
  lemma ReadyUntilDone(rc: RCState, done: nat, unread: seq<u8>, f: File)
    requires Follows(rc, done, unread, f) && rc.HasSummary() && rc.FramesMissing() == 0 && ReadyWhenFull(rc)
    ensures rc.pass2DataReady <==> done < |f.frames|
  {
    hide Packets, Describe, Total, LiveOf, Missing;
    assert Total(rc.nframesLeft) == |f.frames| - done;
  }

  /** What the answer tells of the next frame: none are wanted exactly when it is ready or every
      frame is encoded. */
  ghost predicate Tells(n: nat, rc: RCState, done: nat, f: File)
    requires rc.Valid()
    reads rc, rc.ring, rc.des, rc.des.buffer
  {
    && (n == 0 <==> rc.HasSummary() && (rc.pass2DataReady || done == |f.frames|))
    && (rc.pass2DataReady ==> done < |f.frames|)
    && (n > 0 ==> !Full(rc.IntakeNow()))
  }

  /** Asks how many bytes are wanted. Once the summary is known, these are no more than the next
      frame waits for. */
  method Ask(rc: RCState, ghost done: nat, ghost unread: seq<u8>, ghost f: File) returns (n: nat)
    requires Whole(f) && Follows(rc, done, unread, f)
    modifies rc, rc.ring, rc.des, rc.des.buffer
    ensures rc.Valid() && Follows(rc, done, unread, f) && rc.IntakeNow() == old(rc.IntakeNow())
    ensures Ahead(rc, f) == old(Ahead(rc, f))
    ensures Tells(n, rc, done, f) && (n > 0 ==> n == BytesWanted(rc.IntakeNow()))
    ensures n > 0 && rc.HasSummary() ==> n <= Least(rc.IntakeNow(), done, f)
  {
    hide Whole, Packets, Stream;
    var r := rc.TwopassIn(NoBuffer);
    n := r.value;
    if n > 0 && rc.HasSummary() {
      WantedIsLower(rc.IntakeNow(), done, unread, f);
    }
  }

  lemma MoreToFeed(n: nat, rc: RCState, done: nat, unread: seq<u8>, f: File)
    requires Whole(f) && Follows(rc, done, unread, f) && Tells(n, rc, done, f) && n > 0
    ensures unread != [] && !Full(rc.IntakeNow())
  {
    hide Whole;
    MoreToRead(rc.IntakeNow(), done, unread, f);
  }

  lemma FollowsIsValid(rc: RCState, done: nat, unread: seq<u8>, f: File)
    requires Follows(rc, done, unread, f)
    ensures rc.Valid()
  {
    hide RCState.Valid;
  }

  lemma NothingMore(rc: RCState, done: nat, unread: seq<u8>, f: File)
    requires Follows(rc, done, unread, f) && Tells(0, rc, done, f)
    ensures rc.pass2DataReady <==> done < |f.frames|
    ensures RoomAt(f.frames, Ahead(rc, f), rc.ring.Length, done)
  {
    hide Packets, Stream;
    if rc.pass2DataReady {
      rc.MissingMeansWants();
      FullMeansRoom(rc.IntakeNow(), done, unread, f);
    }
  }

  /** The loop that callers are told to write: feeds as many bytes as are asked for, until none
      are. It ends, and then the next frame is ready unless every frame is encoded, or else the
      ring is too small. */
  method FeedAsked(rc: RCState, stream: seq<u8>, ghost done: nat, ghost f: File) returns (ok: bool, rest: seq<u8>)
    requires Whole(f) && Follows(rc, done, stream, f)
    modifies rc, rc.ring, rc.des, rc.des.buffer
    ensures rc.Valid()
    ensures ok <==> RoomAt(f.frames, old(Ahead(rc, f)), rc.ring.Length, done)
    ensures ok ==> Follows(rc, done, rest, f) && (rc.pass2DataReady <==> done < |f.frames|)
  {
    hide Whole, Follows, Feedable, RoomAt, Ahead, RCState.Valid, Tells, Full;
    FollowsIsValid(rc, done, stream, f);
    rest := stream;
    ghost var look := Ahead(rc, f);
    var n: nat := Ask(rc, done, rest, f);
    while n > 0
      invariant rc.Valid() && Follows(rc, done, rest, f) && Ahead(rc, f) == look
      invariant Tells(n, rc, done, f)
      decreases |rest|
    {
      MoreToFeed(n, rc, done, rest, f);
      var m := if n < |rest| then n else |rest|;
      var chunk, later := rest[..m], rest[m..];
      assert chunk + later == rest;
      var left;
      ok, left := FeedMore(rc, chunk, done, later, f);
      if !ok {
        return;
      }
      rest := left + later;
      n := Ask(rc, done, rest, f);
    }
    NothingMore(rc, done, rest, f);
    ok := true;
  }

  /** Encodes the current frame, which is the file's next. */
  method EncodeNext(rc: RCState, s: Step, ghost done: nat, ghost unread: seq<u8>, ghost f: File)
      returns (m: FrameMetrics)
    requires Follows(rc, done, unread, f) && rc.pass2DataReady && s.Encode? && DropFree(s)
    modifies rc, rc.ring, rc.des, rc.des.buffer
    ensures done < |f.frames| && m == f.frames[done]
    ensures rc.Valid() && Follows(rc, if s.trial then done else done + 1, unread, f)
    ensures Ahead(rc, f) == old(Ahead(rc, f))
  {
    hide Packets;
    StepOut(rc.IntakeNow(), done, unread, f);
    m := rc.curMetrics;
    rc.UpdateState(s.bits, s.fti, s.showFrame, s.trial);
  }

  /** The bytes that come with the later steps, and after them. */
  ghost function ToCome(steps: seq<Step>, i: nat, tail: seq<u8>): seq<u8>
    requires i <= |steps|
  {
    FedBy(steps[i..]) + tail
  }

  lemma AllToCome(steps: seq<Step>, tail: seq<u8>)
    ensures [] + ToCome(steps, 0, tail) == FedBy(steps) + tail && ToCome(steps, |steps|, tail) == tail
  {
    assert steps[0..] == steps;
  }

  lemma NextStep(steps: seq<Step>, i: nat, rest: seq<u8>, tail: seq<u8>)
    requires i < |steps|
    ensures rest + ToCome(steps, i, tail) == rest + BytesOf(steps[i]) + ToCome(steps, i + 1, tail)
  {
    hide BytesOf;
    assert steps[i..][1..] == steps[i + 1..];
  }

  /** One step of the caller; a frame is encoded only when ready. */
  method TakeStep(rc: RCState, s: Step, rest: seq<u8>, before: seq<FrameMetrics>, ghost future: seq<u8>, ghost f: File)
      returns (ok: bool, encoded: seq<FrameMetrics>, left: seq<u8>)
    requires Whole(f) && DropFree(s) && before <= f.frames && Follows(rc, |before|, rest + BytesOf(s) + future, f)
    modifies rc, rc.ring, rc.des, rc.des.buffer
    ensures rc.Valid() && encoded <= f.frames
    ensures |encoded| == |before| + (if s.Encode? && !s.trial && old(rc.pass2DataReady) then 1 else 0)
    ensures !ok ==> !RoomAt(f.frames, old(Ahead(rc, f)), rc.ring.Length, |before|)
    ensures ok ==> Follows(rc, |encoded|, left + future, f) && Ahead(rc, f) == old(Ahead(rc, f))
    ensures ok && s.Feed? && future == [] ==> (rc.pass2DataReady <==> |encoded| < |f.frames|)
  {
    hide Whole, Underway, RoomAt, Ahead, DropFree;
    ok, encoded, left := true, before, rest;
    if s.Feed? {
      ok, left := FeedMore(rc, rest + s.chunk, |before|, future, f);
    } else {
      assert rest + [] == rest;
      if rc.pass2DataReady {
        var m := EncodeNext(rc, s, |before|, rest + future, f);
        encoded := if s.trial then before else before + [m];
      }
    }
  }

  /** Feeding and encoding in any order: the frames encoded are the file's, in order, and nothing
      is rejected but for a ring that is too small. Once all is fed, the next frame is ready until
      none is left. */
  method RunSteps(rc: RCState, steps: seq<Step>, ghost tail: seq<u8>, ghost f: File)
      returns (ok: bool, encoded: seq<FrameMetrics>, rest: seq<u8>)
    requires Feedable(rc) && Fresh(rc.IntakeNow()) && rc.drops == 0 && Whole(f)
    requires FedBy(steps) + tail == Stream(f) && forall i :: 0 <= i < |steps| ==> DropFree(steps[i])
    modifies rc, rc.ring, rc.des, rc.des.buffer
    ensures rc.Valid() && encoded <= f.frames
    ensures !ok ==> !RingSuffices(f.frames, old(Ahead(rc, f)), rc.ring.Length)
    ensures ok ==> Follows(rc, |encoded|, rest + tail, f)
    ensures ok && tail == [] && steps != [] && steps[|steps| - 1].Feed? ==>
      (rc.pass2DataReady <==> |encoded| < |f.frames|)
  {
    FreshFollows(rc, f);
    AllToCome(steps, tail);
    hide Whole, Follows, Feedable, RoomAt, Stream, Ahead, RCState.Valid, DropFree, ToCome, BytesOf, FedBy, Fresh;
    encoded, rest := [], [];
    ghost var look := Ahead(rc, f);
    for i := 0 to |steps|
      invariant rc.Valid() && encoded <= f.frames
      invariant Follows(rc, |encoded|, rest + ToCome(steps, i, tail), f) && Ahead(rc, f) == look
      invariant i > 0 && ToCome(steps, i, tail) == [] && steps[i - 1].Feed? ==>
        (rc.pass2DataReady <==> |encoded| < |f.frames|)
    {
      NextStep(steps, i, rest, tail);
      ok, encoded, rest := TakeStep(rc, steps[i], rest, encoded, ToCome(steps, i + 1, tail), f);
      if !ok {
        return;
      }
    }
    ok := true;
  }

  /** The usual second pass: after each frame, of the type it had in the first pass, it is fed all
      that is left. It gets through the file, in the order written, if and only if the ring is
      large enough. */
  method EncodeAll(rc: RCState, stream: seq<u8>, ghost f: File) returns (ok: bool, encoded: seq<FrameMetrics>)
    requires Feedable(rc) && Fresh(rc.IntakeNow()) && rc.drops == 0 && Whole(f) && stream == Stream(f)
    modifies rc, rc.ring, rc.des, rc.des.buffer
    ensures rc.Valid() && encoded <= f.frames
    ensures ok <==> RingSuffices(f.frames, old(Ahead(rc, f)), rc.ring.Length)
    ensures ok ==> encoded == f.frames && !rc.pass2DataReady
    ensures ok ==> rc.Live() == [] && rc.Held() == [] && Total(rc.nframesLeft) == 0
  {
    hide Whole, Follows, Feedable, RoomAt, Stream, Ahead, RCState.Valid;
    encoded := [];
    FreshFollows(rc, f);
    ghost var look := Ahead(rc, f);
    var rest;
    assert stream + [] == stream;
    ok, rest := FeedMore(rc, stream, 0, [], f);
    while ok && rc.pass2DataReady
      invariant rc.Valid() && encoded <= f.frames
      invariant forall i :: 0 <= i < |encoded| ==> RoomAt(f.frames, look, rc.ring.Length, i)
      invariant !ok ==> !RoomAt(f.frames, look, rc.ring.Length, |encoded|)
      invariant ok ==> Follows(rc, |encoded|, rest + [], f) && Ahead(rc, f) == look
      invariant ok ==> RoomAt(f.frames, look, rc.ring.Length, |encoded|)
      invariant ok ==> (rc.pass2DataReady <==> |encoded| < |f.frames|)
      decreases ok, |f.frames| - |encoded|
    {
      var fti, showFrame := rc.curMetrics.fti, rc.curMetrics.showFrame;
      CurrentType(rc, |encoded|, rest + [], f);
      var m := EncodeNext(rc, Encode(1, fti, showFrame, false), |encoded|, rest + [], f);
      encoded := encoded + [m];
      ok, rest := FeedMore(rc, rest, |encoded|, [], f);
    }
    if ok {
      NothingLeft(rc, rest + [], f);
    }
  }

  lemma FreshFollows(rc: RCState, f: File)
    requires Feedable(rc) && Fresh(rc.IntakeNow()) && rc.drops == 0
    ensures rc.Valid() && Follows(rc, 0, Stream(f), f)
  {
    hide Stream;
    assert [] + Stream(f) == Stream(f);
  }

  lemma CurrentType(rc: RCState, done: nat, unread: seq<u8>, f: File)
    requires Follows(rc, done, unread, f) && rc.pass2DataReady
    ensures rc.curMetrics.fti <= FRAME_NSUBTYPES
  {
  }

  lemma NothingLeft(rc: RCState, unread: seq<u8>, f: File)
    requires Follows(rc, |f.frames|, unread, f) && Whole(f)
    ensures rc.Live() == [] && rc.Held() == [] && Total(rc.nframesLeft) == 0 && unread == []
  {
    HeaderIsJudged(f);
    hide Whole;
    AllEncoded(rc.IntakeNow(), unread, f);
  }

  lemma ShortFileAccepted(nframes: seq<int>, exp: seq<u8>)
    requires nframes == [1, 0, 0, 0, 0] || nframes == [1, 1, 0, 0, 0]
    ensures Accepted(Summary(1, nframes, exp, [0, 0, 0, 0], nframes[0] + nframes[1]))
  {
    FrameTotalAccepts(nframes, 5);
    TotalIsSum(nframes);
  }

  /** A file of one shown frame, buffered and ready. */
  method OneFrame(bexp: int -> int, exp: seq<u8>) returns (rc: RCState)
    ensures fresh(rc) && fresh(rc.ring) && fresh(rc.des) && fresh(rc.des.buffer)
    ensures rc.Valid() && rc.HasSummary() && rc.pass2DataReady && rc.ReadyMeansHead()
    ensures Total(rc.nframesLeft) == 1 && rc.drops == 0
  {
    hide PacketBytes, ParsedPacket, Describe, LiveOf, FrameTotal, Accepted;
    rc := new RCState(bexp, 12, 32, exp);
    rc.EmptyWindow();
    ShortFileAccepted([1, 0, 0, 0, 0], exp);
    rc.SetupSecondPass(Summary(1, [1, 0, 0, 0, 0], exp, [0, 0, 0, 0], 1));
    var frame := FrameMetrics(0, FRAME_SUBTYPE_I, true);
    PacketRoundTrip(frame);
    var _ := rc.ParseFrameDataPacket(PacketBytes(frame));
  }

  /** If that frame is dropped, nothing is left and nothing is buffered, and yet the state calls
      itself ready. */
  method OneDroppedFrame(bexp: int -> int, exp: seq<u8>) returns (rc: RCState)
    ensures fresh(rc) && rc.Valid() && rc.Misled() && rc.pass2DataReady && rc.Live() == []
  {
    rc := OneFrame(bexp, exp);
    rc.UpdateState(0, FRAME_SUBTYPE_I, true, false);
  }

  /** A file of a hidden frame and another: given the first as a packet, the state calls itself
      ready and still misses a frame. */
  method OneHiddenFrame(bexp: int -> int, exp: seq<u8>) returns (rc: RCState)
    ensures fresh(rc) && rc.Valid() && rc.HasSummary() && rc.pass2DataReady && rc.FramesMissing() == 1
  {
    hide PacketBytes, ParsedPacket, Describe, LiveOf, FrameTotal, Accepted;
    rc := new RCState(bexp, 12, 32, exp);
    rc.EmptyWindow();
    ShortFileAccepted([1, 1, 0, 0, 0], exp);
    rc.SetupSecondPass(Summary(1, [1, 1, 0, 0, 0], exp, [0, 0, 0, 0], 2));
    var frame := FrameMetrics(0, FRAME_SUBTYPE_I, false);
    PacketRoundTrip(frame);
    var _ := rc.ParseFrameDataPacket(PacketBytes(frame));
  }
}
