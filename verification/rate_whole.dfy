/** The second pass when no look-ahead is configured: there is no ring, the window is the whole
    rest of the file, and its statistics start out as the sums of the summary. One packet is read
    for each frame, and what that frame adds to the sums is taken out again when it is done. */
module RateWhole {
  import opened Bits
  import opened RatePackets
  import opened RateFeed
  import opened RateFile
  import opened RateWindow
  import opened RateStream

  /** The bytes that a summary being read has after some more input. */
  function Begun(held: seq<u8>, buf: seq<u8>): (h: seq<u8>)
    requires |held| <= TWOPASS_HEADER_SZ
    ensures |h| == if |held| + |buf| < TWOPASS_HEADER_SZ then |held| + |buf| else TWOPASS_HEADER_SZ
  {
    if |held| + |buf| < TWOPASS_HEADER_SZ then held + buf else held + buf[..TWOPASS_HEADER_SZ - |held|]
  }

  /** What is known of the file and of what is left of it. */
  datatype Knowledge = Knowledge(nframes: seq<int>, total: int, ntus: int, left: seq<int>,
                                 window: seq<int>, sums: seq<int>)

  /** One frame less. */
  function Without(k: Knowledge, m: FrameMetrics, bexp: int -> int): Knowledge
    requires |k.left| == |k.window| == FRAME_NSUBTYPES + 1 && |k.sums| == FRAME_NSUBTYPES && m.fti <= FRAME_NSUBTYPES
  {
    k.(ntus := k.ntus - (if m.showFrame then 1 else 0),
       left := Add(k.left, m.fti, -1),
       window := Add(k.window, m.fti, -1),
       sums := if m.fti < FRAME_NSUBTYPES then Add(k.sums, m.fti, -bexp(m.logScaleQ24)) else k.sums)
  }

  class WholeState {
    const bexp: int -> int
    const des: RCDeserialize
    var prevMetrics: FrameMetrics
    var curMetrics: FrameMetrics
    var pass2DataReady: bool
    var reservoirFrameDelay: int
    var ntusTotal: int
    var ntusLeft: int
    var nframesTotal: seq<int>
    var nframesLeft: seq<int>
    var nframesTotalTotal: int
    var exp: seq<u8>
    var nencodedFrames: int
    var nsefFrames: int
    var scaleWindowNtus: int
    var scaleWindowNframes: seq<int>
    var scaleWindowSum: seq<int>

    predicate HasSummary()
      requires |nframesTotal| == FRAME_NSUBTYPES + 1
      reads this
    {
      nframesTotal[FRAME_SUBTYPE_I] > 0
    }

    ghost predicate Valid()
      reads this, des
    {
      && des.Valid() && |nframesTotal| == FRAME_NSUBTYPES + 1 && nframesTotal[FRAME_SUBTYPE_I] >= 0
      && (HasSummary() ==> des.fill <= TWOPASS_PACKET_SZ)
      && |scaleWindowNframes| == |nframesLeft| == FRAME_NSUBTYPES + 1 && |scaleWindowSum| == FRAME_NSUBTYPES
      && curMetrics.fti <= FRAME_NSUBTYPES
    }

    constructor (bexpQ24: int -> int, exp0: seq<u8>)
      ensures Valid() && !HasSummary() && !pass2DataReady && nencodedFrames + nsefFrames == 0 && bexp == bexpQ24
      ensures Held() == [] && fresh(des) && fresh(des.buffer)
    {
      bexp := bexpQ24;
      des := new RCDeserialize();
      prevMetrics, curMetrics, pass2DataReady := NO_METRICS, NO_METRICS, false;
      reservoirFrameDelay, ntusTotal, ntusLeft := 0, 0, 0;
      nframesTotal, nframesLeft, nframesTotalTotal, exp := [0, 0, 0, 0, 0], [0, 0, 0, 0, 0], 0, exp0;
      nencodedFrames, nsefFrames := 0, 0;
      scaleWindowNtus, scaleWindowNframes, scaleWindowSum := 0, [0, 0, 0, 0, 0], [0, 0, 0, 0];
    }

    /** The bytes of a summary or packet that is not complete yet. */
    ghost function Held(): seq<u8>
      requires des.fill <= des.buffer.Length
      reads this, des, des.buffer
    {
      des.buffer[..des.fill]
    }

    /** What a summary sets up. */
    ghost predicate SetUpBy(s: Summary)
      reads this
    {
      && ntusTotal == ntusLeft == reservoirFrameDelay == s.ntus && exp == s.exp
      && nframesTotal == nframesLeft == scaleWindowNframes == s.nframes && scaleWindowSum == s.scaleSum
      && nframesTotalTotal == s.total
    }

    method SetupSecondPass(s: Summary)
      requires Valid() && Accepted(s) && |s.scaleSum| == FRAME_NSUBTYPES && des.fill <= TWOPASS_PACKET_SZ
      modifies this`ntusTotal, this`ntusLeft, this`nframesTotal, this`nframesLeft, this`nframesTotalTotal,
        this`reservoirFrameDelay, this`exp, this`scaleWindowNframes, this`scaleWindowSum
      ensures Valid() && SetUpBy(s)
    {
      FrameTotalAccepts(s.nframes, |s.nframes|);
      TotalIsSum(s.nframes);
      ntusTotal, ntusLeft := s.ntus, s.ntus;
      nframesTotal, nframesLeft := s.nframes, s.nframes;
      nframesTotalTotal := Total(s.nframes);
      reservoirFrameDelay := s.ntus;
      scaleWindowNframes, scaleWindowSum := nframesTotal, s.scaleSum;
      exp := s.exp;
    }

    method TwopassParseSummary(buf: seq<u8>) returns (r: Result<nat>)
      requires Valid() && !HasSummary()
      modifies this`ntusTotal, this`ntusLeft, this`nframesTotal, this`nframesLeft, this`nframesTotalTotal,
        this`reservoirFrameDelay, this`exp, this`scaleWindowNframes, this`scaleWindowSum, des, des.buffer
      ensures Valid()
      ensures var h := old(Begun(Held(), buf));
        if |h| < TWOPASS_HEADER_SZ then r == Ok(|buf|) && Held() == h && !HasSummary()
        else if ParsedSummary(h).Err? then r.Err?
        else r == Ok(TWOPASS_HEADER_SZ - old(|Held()|)) && Held() == [] && SetUpBy(ParsedSummary(h).value)
    {
      hide ParsedSummary, Accepted;
      var consumed := des.BufferFill(buf, 0, TWOPASS_HEADER_SZ);
      assert buf[..consumed] == buf[0..consumed];
      if des.fill >= TWOPASS_HEADER_SZ {
        des.pos := 0;
        var s := des.ParseSummary();
        assert Held() == des.buffer[..TWOPASS_HEADER_SZ];
        if s.Err? {
          return Err(s.error);
        }
        SummaryHasSums(des.buffer[..TWOPASS_HEADER_SZ]);
        des.fill := 0;
        SetupSecondPass(s.value);
      }
      r := Ok(consumed);
    }

    /** The state after reading on in a packet from some position. */
    ghost predicate PacketRead(held: seq<u8>, bytes: seq<u8>, start: nat, r: Result<nat>)
      requires |held| <= TWOPASS_PACKET_SZ && start <= |bytes| && des.fill <= des.buffer.Length
      reads this, des, des.buffer
    {
      var n := Take(held, bytes[start..]);
      var packet := held + bytes[start..][..n];
      if |packet| < TWOPASS_PACKET_SZ then r == Ok(|bytes|) && Held() == packet && !pass2DataReady
      else if ParsedPacket(packet).Err? then r.Err? && !pass2DataReady
      else r == Ok(start + n) && Held() == [] && pass2DataReady && curMetrics == ParsedPacket(packet).value
    }

    /** One packet; with no input, how many bytes are wanted. */
    method ParseFrameData(input: Input, start: nat) returns (r: Result<nat>)
      requires Valid() && HasSummary() && !pass2DataReady && (input.Buffer? ==> start <= |input.bytes|)
      modifies this`curMetrics, this`pass2DataReady, des, des.buffer
      ensures Valid()
      ensures input.Buffer? ==> PacketRead(old(Held()), input.bytes, start, r)
      ensures input.NoBuffer? ==> r == Ok(TWOPASS_PACKET_SZ - des.fill) && !pass2DataReady && Held() == old(Held())
    {
      hide ParsedPacket;
      if input.NoBuffer? {
        return Ok(TWOPASS_PACKET_SZ - des.fill);
      }
      var consumed := des.BufferFill(input.bytes, start, TWOPASS_PACKET_SZ);
      assert input.bytes[start..][..consumed - start] == input.bytes[start..consumed];
      if des.fill >= TWOPASS_PACKET_SZ {
        assert Held() == des.buffer[..TWOPASS_PACKET_SZ];
        des.pos := 0;
        var m := des.ParseMetrics();
        if m.Err? {
          return Err(m.error);
        }
        PacketTypes(des.buffer[..TWOPASS_PACKET_SZ]);
        curMetrics := m.value;
        des.fill := 0;
        pass2DataReady := true;
      }
      r := Ok(consumed);
    }

    ghost function Known(): Knowledge
      reads this
    {
      Knowledge(nframesTotal, nframesTotalTotal, ntusLeft, nframesLeft, scaleWindowNframes, scaleWindowSum)
    }

    predicate MoreFrames()
      reads this
    {
      nencodedFrames + nsefFrames < nframesTotalTotal
    }

    /** Takes a summary, and then a packet whenever none is current and frames remain. With no
        input it says how many bytes the next frame waits for, counted without a summary as if
        none of that were held. */
    method TwopassIn(input: Input) returns (r: Result<nat>)
      requires Valid()
      modifies this`ntusTotal, this`ntusLeft, this`nframesTotal, this`nframesLeft, this`nframesTotalTotal,
        this`reservoirFrameDelay, this`exp, this`scaleWindowNframes, this`scaleWindowSum,
        this`curMetrics, this`pass2DataReady, des, des.buffer
      ensures Valid()
      ensures input.NoBuffer? ==>
        && r.Ok? && Known() == old(Known()) && Held() == old(Held())
        && pass2DataReady == (old(pass2DataReady) && HasSummary() && MoreFrames())
      ensures input.NoBuffer? && HasSummary() ==>
        r.value == if pass2DataReady || !MoreFrames() then 0 else TWOPASS_PACKET_SZ - |Held()|
      ensures input.NoBuffer? && !HasSummary() ==> r.value == TWOPASS_HEADER_SZ + TWOPASS_PACKET_SZ
      ensures input.Buffer? && old(!HasSummary()) ==>
        var h := old(Begun(Held(), input.bytes));
        if |h| < TWOPASS_HEADER_SZ then r == Ok(|input.bytes|) && Held() == h && !HasSummary() && !pass2DataReady
        else if ParsedSummary(h).Err? then r.Err?
        else
          && SetUpBy(ParsedSummary(h).value)
          && (HasSummary() && MoreFrames() ==> PacketRead([], input.bytes, TWOPASS_HEADER_SZ - old(|Held()|), r))
      ensures input.Buffer? && old(HasSummary()) ==>
        && Known() == old(Known())
        && if old(!pass2DataReady && MoreFrames()) then PacketRead(old(Held()), input.bytes, 0, r)
           else
             && r == Ok(0) && Held() == old(Held()) && curMetrics == old(curMetrics)
             && pass2DataReady == (old(pass2DataReady) && MoreFrames())
    {
      hide ParsedSummary, ParsedPacket, Take;
      var consumed := 0;
      if !HasSummary() {
        pass2DataReady := false;
        if input.NoBuffer? {
          return Ok(TWOPASS_HEADER_SZ + TWOPASS_PACKET_SZ);
        }
        var parsed := TwopassParseSummary(input.bytes);
        if parsed.Err? {
          return parsed;
        }
        consumed := parsed.value;
      }
      if HasSummary() {
        if !MoreFrames() {
          pass2DataReady := false;
        } else if !pass2DataReady {
          r := ParseFrameData(input, consumed);
          return;
        }
      }
      r := Ok(consumed);
    }

    /** The end of a frame: it leaves the window, and the next is not ready before its packet is
        read. A trial encode counts for nothing. */
    method UpdateState(bits: int, fti: nat, showFrame: bool, trial: bool)
      requires Valid() && pass2DataReady && HasSummary() && fti <= FRAME_NSUBTYPES
      requires trial ==> bits > 0 && fti != FRAME_SUBTYPE_SEF
      modifies this, des, des.buffer
      ensures Valid() && Held() == old(Held())
      ensures nframesTotal == old(nframesTotal) && nframesTotalTotal == old(nframesTotalTotal)
      ensures trial ==> Known() == old(Known()) && pass2DataReady && curMetrics == old(curMetrics)
      ensures !trial ==> !pass2DataReady && prevMetrics == old(curMetrics)
      ensures !trial ==> Known() == Without(old(Known()), old(curMetrics), bexp)
      ensures nencodedFrames + nsefFrames ==
        old(nencodedFrames + nsefFrames) + (if trial || (fti != FRAME_SUBTYPE_SEF && bits <= 0) then 0 else 1)
    {
      hide Without;
      CountFrame(bits, fti, trial);
      if !trial {
        prevMetrics := curMetrics;
        BackOut();
        pass2DataReady := false;
        var _ := TwopassIn(NoBuffer);
      }
    }

    /** The frame counters; neither a trial encode nor a dropped frame counts. */
    method CountFrame(bits: int, fti: nat, trial: bool)
      requires trial ==> fti != FRAME_SUBTYPE_SEF
      modifies this`nsefFrames, this`nencodedFrames
      ensures nencodedFrames + nsefFrames ==
        old(nencodedFrames + nsefFrames) + (if trial || (fti != FRAME_SUBTYPE_SEF && bits <= 0) then 0 else 1)
    {
      if fti == FRAME_SUBTYPE_SEF {
        nsefFrames := nsefFrames + 1;
      } else if bits > 0 && !trial {
        nencodedFrames := nencodedFrames + 1;
      }
    }

    method BackOut()
      requires Valid() && prevMetrics.fti <= FRAME_NSUBTYPES
      modifies this`nframesLeft, this`scaleWindowNframes, this`scaleWindowSum, this`ntusLeft, this`scaleWindowNtus
      ensures Valid() && Known() == Without(old(Known()), prevMetrics, bexp)
    {
      var ftj := prevMetrics.fti;
      nframesLeft := Add(nframesLeft, ftj, -1);
      scaleWindowNframes := Add(scaleWindowNframes, ftj, -1);
      if ftj < FRAME_NSUBTYPES {
        scaleWindowSum := Add(scaleWindowSum, ftj, -bexp(prevMetrics.logScaleQ24));
      }
      if prevMetrics.showFrame {
        ntusLeft := ntusLeft - 1;
        scaleWindowNtus := scaleWindowNtus - 1;
      }
    }
  }

  lemma SummaryHasSums(b: seq<u8>)
    requires |b| == TWOPASS_HEADER_SZ && ParsedSummary(b).Ok?
    ensures |ParsedSummary(b).value.scaleSum| == FRAME_NSUBTYPES
  {
  }

  lemma PacketTypes(b: seq<u8>)
    requires |b| == TWOPASS_PACKET_SZ && ParsedPacket(b).Ok?
    ensures ParsedPacket(b).value.fti <= FRAME_NSUBTYPES
  {
  }

  // A whole file -------------------------------------------------------------------------------

  /** The summary says what the frames are. */
  ghost predicate Truthful(f: File, bexp: int -> int) {
    Describe(f.frames, bexp, f.nframes, f.scaleSum, f.ntus)
  }

  /** So many frames are encoded: the window describes exactly the others, and the bytes held and
      unread are the packets of those whose metrics are not current yet. */
  ghost predicate Serves(ws: WholeState, done: nat, unread: seq<u8>, f: File)
    reads ws, ws.des, ws.des.buffer
  {
    && ws.Valid() && done <= |f.frames|
    && if !ws.HasSummary() then
         && done == 0 && ws.nencodedFrames + ws.nsefFrames == 0 && !ws.pass2DataReady
         && |ws.Held()| < TWOPASS_HEADER_SZ && ws.Held() + unread == Stream(f)
       else
         && ws.nframesTotalTotal - (ws.nencodedFrames + ws.nsefFrames) == |f.frames| - done
         && ws.nframesLeft == ws.scaleWindowNframes
         && Describe(f.frames[done..], ws.bexp, ws.scaleWindowNframes, ws.scaleWindowSum, ws.ntusLeft)
         && Upcoming(ws, done, unread, f)
  }

  /** How many more bytes of the file the next frame waits for. */
  ghost function Lacking(ws: WholeState): int
    requires ws.Valid()
    reads ws, ws.des, ws.des.buffer
  {
    TWOPASS_PACKET_SZ + (if ws.HasSummary() then 0 else TWOPASS_HEADER_SZ) - |ws.Held()|
  }

  /** Which packets are still to be read. */
  ghost predicate Upcoming(ws: WholeState, done: nat, unread: seq<u8>, f: File)
    requires done <= |f.frames| && ws.des.fill <= ws.des.buffer.Length
    reads ws, ws.des, ws.des.buffer
  {
    if ws.pass2DataReady then
      done < |f.frames| && ws.curMetrics == f.frames[done] && ws.Held() == [] && unread == Packets(f.frames[done + 1..])
    else
      |ws.Held()| < TWOPASS_PACKET_SZ && ws.Held() + unread == Packets(f.frames[done..])
  }

  /** The packet read is the next frame's, or a part of it. */
  lemma PacketServes(ws: WholeState, held: seq<u8>, bytes: seq<u8>, start: nat, r: Result<nat>,
                     done: nat, future: seq<u8>, f: File)
    requires |held| < TWOPASS_PACKET_SZ && start <= |bytes| && ws.des.fill <= ws.des.buffer.Length && done < |f.frames|
    requires Whole(f) && held + (bytes[start..] + future) == Packets(f.frames[done..])
    requires ws.PacketRead(held, bytes, start, r)
    ensures r.Ok? && r.value <= |bytes| && Upcoming(ws, done, bytes[r.value..] + future, f)
    ensures future == [] ==> ws.pass2DataReady
    ensures ws.pass2DataReady <==> |held| + |bytes| - start >= TWOPASS_PACKET_SZ
  {
    hide Packets, PacketBytes, ParsedPacket, ValidMetrics;
    assert ValidMetrics(f.frames[done]);
    hide Whole;
    var ms, input := f.frames[done..], bytes[start..];
    PacketsFirst(ms, held, input, future);
    PacketRoundTrip(ms[0]);
    assert ms[1..] == f.frames[done + 1..];
    if |held| + |input| < TWOPASS_PACKET_SZ {
      AllTaken(held, input, future);
      assert bytes[|bytes|..] == [];
    } else {
      Skipped(bytes, start, TWOPASS_PACKET_SZ - |held|);
    }
  }

  lemma AllTaken(held: seq<u8>, input: seq<u8>, future: seq<u8>)
    ensures held + input[..|input|] + ([] + future) == held + (input + future)
  {
    assert input[..|input|] == input;
  }

  lemma Skipped(bytes: seq<u8>, start: nat, n: nat)
    requires start + n <= |bytes|
    ensures bytes[start..][n..] == bytes[start + n..]
  {
  }

  /** What the bytes of a file are while its summary is being read. */
  lemma BegunShort(held: seq<u8>, input: seq<u8>, future: seq<u8>, f: File)
    requires Whole(f) && |held| + |input| < TWOPASS_HEADER_SZ && held + (input + future) == Stream(f)
    ensures Begun(held, input) + (input[|input|..] + future) == Stream(f) && future != []
  {
    hide Packets, Header, Whole;
    HeaderIsJudged(f);
    assert |Stream(f)| >= TWOPASS_HEADER_SZ;
    hide Stream;
    assert |held + (input + future)| == |held| + |input| + |future|;
  }

  lemma BegunFull(held: seq<u8>, input: seq<u8>, future: seq<u8>, f: File)
    requires Whole(f) && |held| <= TWOPASS_HEADER_SZ <= |held| + |input| && held + (input + future) == Stream(f)
    ensures Begun(held, input) == Header(f)
    ensures [] + (input[TWOPASS_HEADER_SZ - |held|..] + future) == Packets(f.frames[0..])
  {
    hide Packets, Header, Whole, Stream;
    HeaderIsJudged(f);
    OpeningSplits(held, input, future, f, TWOPASS_HEADER_SZ - |held|);
    NothingBefore(input[TWOPASS_HEADER_SZ - |held|..] + future);
    NothingSkipped(f.frames);
  }

  lemma NothingBefore(a: seq<u8>)
    ensures [] + a == a
  {
  }

  lemma NothingSkipped(ms: seq<FrameMetrics>)
    ensures ms[0..] == ms
  {
  }

  /** Bytes of the summary, and perhaps of the first packet. */
  method FeedOpening(ws: WholeState, input: seq<u8>, ghost future: seq<u8>, ghost f: File) returns (rest: seq<u8>)
    requires Whole(f) && Truthful(f, ws.bexp) && Serves(ws, 0, input + future, f) && !ws.HasSummary()
    modifies ws, ws.des, ws.des.buffer
    ensures Serves(ws, 0, rest + future, f)
    ensures future == [] ==> ws.pass2DataReady
    ensures ws.pass2DataReady <==> |input| >= old(Lacking(ws))
  {
    hide ParsedSummary, ParsedPacket, Take, Packets, Stream, Header, Describe, Whole, ValidMetrics;
    hide WholeState.PacketRead, Begun;
    ghost var n := TWOPASS_HEADER_SZ - |ws.Held()|;
    HeaderIsJudged(f);
    NothingSkipped(f.frames);
    if |input| < n {
      BegunShort(ws.Held(), input, future, f);
    } else {
      BegunFull(ws.Held(), input, future, f);
    }
    var r := ws.TwopassIn(Buffer(input));
    if |input| >= n {
      PacketServes(ws, [], input, n, r, 0, future, f);
    }
    rest := input[r.value..];
  }

  /** Bytes of a packet, or none if one is current. */
  method FeedReading(ws: WholeState, input: seq<u8>, ghost done: nat, ghost future: seq<u8>, ghost f: File)
      returns (rest: seq<u8>)
    requires Whole(f) && Serves(ws, done, input + future, f) && ws.HasSummary()
    modifies ws, ws.des, ws.des.buffer
    ensures Serves(ws, done, rest + future, f)
    ensures done < |f.frames| && !old(ws.pass2DataReady) ==> (ws.pass2DataReady <==> |input| >= old(Lacking(ws)))
    ensures future == [] ==> (ws.pass2DataReady <==> done < |f.frames|)
  {
    hide ParsedSummary, ParsedPacket, Take, Packets, Stream, Describe, Whole, WholeState.PacketRead;
    ghost var held, waiting := ws.Held(), !ws.pass2DataReady && done < |f.frames|;
    assert input[0..] == input;
    var r := ws.TwopassIn(Buffer(input));
    if waiting {
      PacketServes(ws, held, input, 0, r, done, future, f);
    }
    rest := input[r.value..];
  }

  /** Feeding some bytes never fails on a whole file. The next frame becomes ready exactly when the
      bytes lacking were fed, and is once all were, unless there is none. */
  method FeedMore(ws: WholeState, input: seq<u8>, ghost done: nat, ghost future: seq<u8>, ghost f: File)
      returns (rest: seq<u8>)
    requires Whole(f) && Truthful(f, ws.bexp) && Serves(ws, done, input + future, f)
    modifies ws, ws.des, ws.des.buffer
    ensures Serves(ws, done, rest + future, f)
    ensures done < |f.frames| && !old(ws.pass2DataReady) ==> (ws.pass2DataReady <==> |input| >= old(Lacking(ws)))
    ensures future == [] ==> (ws.pass2DataReady <==> done < |f.frames|)
  {
    if ws.HasSummary() {
      rest := FeedReading(ws, input, done, future, f);
    } else {
      rest := FeedOpening(ws, input, future, f);
      HeaderIsJudged(f);
    }
  }

  /** Encodes the current frame, which is the file's next; the window then describes the rest. */
  method EncodeNext(ws: WholeState, s: Step, ghost done: nat, ghost unread: seq<u8>, ghost f: File)
      returns (m: FrameMetrics)
    requires Serves(ws, done, unread, f) && ws.pass2DataReady && s.Encode? && DropFree(s)
    modifies ws, ws.des, ws.des.buffer
    ensures done < |f.frames| && m == f.frames[done]
    ensures Serves(ws, if s.trial then done else done + 1, unread, f)
  {
    hide Describe, Packets, Add, Stream;
    m := ws.curMetrics;
    ghost var left := f.frames[done..];
    DescribeLeave(left, ws.bexp, ws.scaleWindowNframes, ws.scaleWindowSum, ws.ntusLeft);
    assert left[1..] == f.frames[done + 1..];
    ws.UpdateState(s.bits, s.fti, s.showFrame, s.trial);
  }

  /** One step of the caller; a frame is encoded only when ready. */
  method TakeStep(ws: WholeState, s: Step, rest: seq<u8>, before: seq<FrameMetrics>,
                  ghost future: seq<u8>, ghost f: File)
      returns (encoded: seq<FrameMetrics>, left: seq<u8>)
    requires Whole(f) && Truthful(f, ws.bexp) && DropFree(s)
    requires before <= f.frames && Serves(ws, |before|, rest + BytesOf(s) + future, f)
    modifies ws, ws.des, ws.des.buffer
    ensures encoded <= f.frames && Serves(ws, |encoded|, left + future, f)
    ensures |encoded| == |before| + (if s.Encode? && !s.trial && old(ws.pass2DataReady) then 1 else 0)
    ensures s.Feed? && future == [] ==> (ws.pass2DataReady <==> |encoded| < |f.frames|)
  {
    hide Whole, Truthful, Serves, DropFree;
    encoded, left := before, rest;
    if s.Feed? {
      left := FeedMore(ws, rest + s.chunk, |before|, future, f);
    } else {
      assert rest + [] == rest;
      if ws.pass2DataReady {
        var m := EncodeNext(ws, s, |before|, rest + future, f);
        encoded := if s.trial then before else before + [m];
      }
    }
  }

  /** A new state serves any file from its start. */
  lemma FreshServes(ws: WholeState, f: File)
    requires ws.Valid() && !ws.HasSummary() && !ws.pass2DataReady && ws.nencodedFrames + ws.nsefFrames == 0
    requires ws.Held() == []
    ensures Serves(ws, 0, Stream(f), f)
  {
    NothingBefore(Stream(f));
  }

  /** Feeding and encoding in any order: nothing is rejected, the frames encoded are the file's, in
      order, and the window always describes exactly the frames that are left. Once all is fed, the
      next frame is ready until none is left. */
  method RunSteps(ws: WholeState, steps: seq<Step>, ghost tail: seq<u8>, ghost f: File)
      returns (encoded: seq<FrameMetrics>, rest: seq<u8>)
    requires ws.Valid() && !ws.HasSummary() && !ws.pass2DataReady && ws.nencodedFrames + ws.nsefFrames == 0
    requires ws.Held() == [] && Whole(f) && Truthful(f, ws.bexp)
    requires FedBy(steps) + tail == Stream(f) && forall i :: 0 <= i < |steps| ==> DropFree(steps[i])
    modifies ws, ws.des, ws.des.buffer
    ensures encoded <= f.frames && Serves(ws, |encoded|, rest + tail, f)
    ensures tail == [] && steps != [] && steps[|steps| - 1].Feed? ==> (ws.pass2DataReady <==> |encoded| < |f.frames|)
  {
    FreshServes(ws, f);
    AllToCome(steps, tail);
    hide Whole, Truthful, Serves, Stream, DropFree, ToCome, BytesOf, FedBy;
    encoded, rest := [], [];
    for i := 0 to |steps|
      invariant encoded <= f.frames && Serves(ws, |encoded|, rest + ToCome(steps, i, tail), f)
      invariant i > 0 && ToCome(steps, i, tail) == [] && steps[i - 1].Feed? ==>
        (ws.pass2DataReady <==> |encoded| < |f.frames|)
    {
      NextStep(steps, i, rest, tail);
      encoded, rest := TakeStep(ws, steps[i], rest, encoded, ToCome(steps, i + 1, tail), f);
    }
  }

  /** After the last frame every statistic is zero and no byte is left over. */
  lemma AllServed(ws: WholeState, unread: seq<u8>, f: File)
    requires Whole(f) && Serves(ws, |f.frames|, unread, f)
    ensures ws.ntusLeft == 0 && ws.nframesLeft == ws.scaleWindowNframes == [0, 0, 0, 0, 0]
    ensures ws.scaleWindowSum == [0, 0, 0, 0] && unread == [] && ws.Held() == [] && !ws.pass2DataReady
  {
    hide Whole, Describe, Stream;
    HeaderIsJudged(f);
    assert f.frames[|f.frames|..] == [] && Packets([]) == [];
    hide Packets;
    DescribeNone(ws.bexp, ws.scaleWindowNframes, ws.scaleWindowSum, ws.ntusLeft);
    assert |ws.Held() + unread| == 0;
  }

  lemma DescribeNone(bexp: int -> int, nframes: seq<int>, sums: seq<int>, ntus: int)
    requires Describe([], bexp, nframes, sums, ntus)
    ensures nframes == [0, 0, 0, 0, 0] && sums == [0, 0, 0, 0] && ntus == 0
  {
  }
}
