/** What feeding a whole stats stream to the second pass means: first a summary, then packets,
    however the bytes are cut. */
module RateIntake {
  import opened Bits
  import opened RatePackets
  import opened RateFeed

  /** What is kept of a summary. */
  datatype Header = Header(ntus: int, nframes: seq<int>, exp: seq<u8>)

  /** All that decides what becomes of the next bytes. */
  datatype Intake = Intake(header: Header, delay: int, left: int, entries: nat, live: seq<FrameMetrics>, held: seq<u8>)

  /** The new state, the bytes not looked at, and whether the input was rejected. */
  datatype Outcome = Outcome(state: Intake, rest: seq<u8>, failed: bool)

  /** A summary counts as read once it has intra frames. */
  predicate Started(k: Intake) {
    |k.header.nframes| == FRAME_NSUBTYPES + 1 && k.header.nframes[FRAME_SUBTYPE_I] > 0
  }

  /** A second pass that nothing has been fed to. */
  predicate Fresh(k: Intake) {
    !Started(k) && k.left >= 0 && k.live == [] && k.held == []
  }

  predicate Fits(k: Intake) {
    k.left >= 0 && |k.held| <= (if Started(k) then TWOPASS_PACKET_SZ else TWOPASS_HEADER_SZ)
  }

  function PlanOf(k: Intake): Plan
    requires k.left >= 0
  {
    Plan(k.delay, k.left, k.entries)
  }

  /** A finite buffer keeps its own look-ahead, but no longer than the whole file. */
  function SetUp(k: Intake, s: Summary): Intake {
    k.(header := Header(s.ntus, s.nframes, s.exp),
       delay := if k.delay < s.ntus then k.delay else s.ntus,
       left := s.total)
  }

  function TakeHeader(k: Intake, bytes: seq<u8>): (o: Outcome)
    requires |k.held| <= TWOPASS_HEADER_SZ
    ensures |o.rest| <= |bytes| && o.rest == bytes[|bytes| - |o.rest|..]
    ensures Fits(k) && !Started(k) ==> Fits(o.state)
  {
    var n := if TWOPASS_HEADER_SZ - |k.held| <= |bytes| then TWOPASS_HEADER_SZ - |k.held| else |bytes|;
    var h := k.held + bytes[..n];
    if |h| < TWOPASS_HEADER_SZ then Outcome(k.(held := h), [], false)
    else match ParsedSummary(h)
      case Err(_) => Outcome(k.(held := h), bytes[n..], true)
      case Ok(s) => Outcome(SetUp(k, s).(held := []), bytes[n..], false)
  }

  /** The header in hand and the input after it decide. */
  lemma HeaderRound(k: Intake, bytes: seq<u8>, n: nat)
    requires |k.held| <= TWOPASS_HEADER_SZ && n <= |bytes| && |k.held| + n <= TWOPASS_HEADER_SZ
    requires |k.held| + n == TWOPASS_HEADER_SZ || n == |bytes|
    ensures var h := k.held + bytes[..n];
      TakeHeader(k, bytes) == (
        if |h| < TWOPASS_HEADER_SZ then Outcome(k.(held := h), bytes[n..], false)
        else if ParsedSummary(h).Err? then Outcome(k.(held := h), bytes[n..], true)
        else Outcome(SetUp(k, ParsedSummary(h).value).(held := []), bytes[n..], false))
  {
    hide ParsedSummary, SetUp;
  }

  function TakeFrames(k: Intake, bytes: seq<u8>): (o: Outcome)
    requires k.left >= 0 && |k.held| <= TWOPASS_PACKET_SZ
    ensures Fits(o.state) && o.state.header == k.header && |o.rest| <= |bytes|
  {
    var f := Absorb(PlanOf(k), k.live, k.held, bytes);
    Outcome(k.(live := f.live, held := f.held), f.rest, f.failed)
  }

  function TakeIn(k: Intake, bytes: seq<u8>): (o: Outcome)
    requires Fits(k)
    ensures Fits(o.state)
  {
    if Started(k) then TakeFrames(k, bytes)
    else
      var o := TakeHeader(k, bytes);
      if o.failed || !Started(o.state) then o else TakeFrames(o.state, o.rest)
  }

  /** How many bytes are asked for: until there is a summary, that and a packet for each frame of
      the look-ahead; then what the packets of the missing frames still lack. */
  function BytesWanted(k: Intake): nat
    requires Fits(k) && k.delay >= 0 && |k.live| <= k.left
  {
    if !Started(k) then TWOPASS_HEADER_SZ + k.delay * TWOPASS_PACKET_SZ
    else if !Wants(PlanOf(k), k.live) then 0
    else TWOPASS_PACKET_SZ * Missing(k.delay, k.left, Shown(k.live), |k.live|) - |k.held|
  }

  lemma LeftStays(k: Intake, bytes: seq<u8>)
    requires Fits(k)
    ensures Started(k) ==> TakeIn(k, bytes).state.left == k.left
  {
    hide Absorb;
  }

  /** The head of the window is done. */
  function Advance(k: Intake): Intake
    requires k.live != []
  {
    k.(left := k.left - 1, live := k.live[1..])
  }

  // Cutting the stream -----------------------------------------------------------------------

  /** If the stream completes an acceptable summary, that summary has intra frames. Reading
      stops after one that has none, and the next input is taken for another summary. */
  ghost predicate HasIntra(k: Intake, bytes: seq<u8>) {
    var all := k.held + bytes;
    !Started(k) && |all| >= TWOPASS_HEADER_SZ && ParsedSummary(all[..TWOPASS_HEADER_SZ]).Ok? ==>
      ParsedSummary(all[..TWOPASS_HEADER_SZ]).value.nframes[FRAME_SUBTYPE_I] > 0
  }

  lemma HeaderSplit(k: Intake, a: seq<u8>, b: seq<u8>)
    requires |k.held| <= TWOPASS_HEADER_SZ
    ensures var o := TakeHeader(k, a);
      if |k.held| + |a| < TWOPASS_HEADER_SZ then o.rest == [] && TakeHeader(k, a + b) == TakeHeader(o.state, b)
      else
        && TakeHeader(k, a + b) == o.(rest := o.rest + b)
        && o.failed == ParsedSummary((k.held + a)[..TWOPASS_HEADER_SZ]).Err?
    ensures var o := TakeHeader(k, a); o.failed ==> TakeHeader(o.state, o.rest + b) == o.(rest := o.rest + b)
  {
    hide ParsedSummary;
    var want := TWOPASS_HEADER_SZ - |k.held|;
    if |a| < want {
      assert a[..|a|] == a;
      var m := if want <= |a + b| then want else |a + b|;
      assert (a + b)[..m] == a + b[..m - |a|] && (a + b)[m..] == b[m - |a|..];
      assert k.held + (a + b[..m - |a|]) == k.held + a + b[..m - |a|];
    } else {
      assert (a + b)[..want] == a[..want] && (a + b)[want..] == a[want..] + b;
      assert (k.held + a)[..TWOPASS_HEADER_SZ] == k.held + a[..want];
      var h := k.held + a[..want];
      assert h + (a[want..] + b)[..0] == h;
    }
  }

  lemma FramesSplit(k: Intake, a: seq<u8>, b: seq<u8>)
    requires k.left >= 0 && |k.held| <= TWOPASS_PACKET_SZ
    ensures var o := TakeFrames(k, a); TakeFrames(k, a + b) == TakeFrames(o.state, o.rest + b)
  {
    hide Absorb;
    AbsorbSplit(PlanOf(k), k.live, k.held, a, b);
  }

  /** Where the stream is cut makes no difference. */
  lemma TakeInSplit(k: Intake, a: seq<u8>, b: seq<u8>)
    requires Fits(k) && HasIntra(k, a)
    ensures var o := TakeIn(k, a); TakeIn(k, a + b) == TakeIn(o.state, o.rest + b)
  {
    hide TakeHeader, TakeFrames, ParsedSummary;
    if Started(k) {
      FramesSplit(k, a, b);
    } else {
      HeaderSplit(k, a, b);
      var o := TakeHeader(k, a);
      if |k.held| + |a| < TWOPASS_HEADER_SZ {
        HeaderUnread(k, a);
        assert [] + b == b;
      } else if !o.failed {
        HeaderRead(k, a);
        FramesSplit(o.state, o.rest, b);
      } else {
        HeaderRefused(k, a);
      }
    }
  }

  /** A file of one inter frame is such a stream, whatever its exponents. */
  lemma NoIntraShows(k: Intake, exp: seq<u8>)
    requires Fresh(k) && |exp| == FRAME_NSUBTYPES
    ensures !HasIntra(k, SummaryBytes(1, [0, 1, 0, 0, 0], exp, [0, 0, 0, 0]))
  {
    hide SummaryBytes, ParsedSummary, Judged;
    var nframes := [0, 1, 0, 0, 0];
    assert SumTo(nframes, 3) == 1;
    assert SumTo(nframes, 5) == 1;
    hide SumTo;
    var b := SummaryBytes(1, nframes, exp, [0, 0, 0, 0]);
    SummaryRoundTrip(1, nframes, exp, [0, 0, 0, 0]);
    SummaryAccepted(1, nframes, exp, [0, 0, 0, 0]);
    assert (k.held + b)[..TWOPASS_HEADER_SZ] == b;
  }

  /** After a summary without intra frames the cut matters, unless nothing follows. */
  lemma CutAfterNoIntra(k: Intake, a: seq<u8>, b: seq<u8>)
    requires Fits(k) && !HasIntra(k, a)
    ensures var o := TakeIn(k, a); TakeIn(k, a + b) == TakeIn(o.state, o.rest + b) <==> o.rest + b == []
  {
    hide TakeFrames, ParsedSummary;
    HeaderSplit(k, a, b);
    assert !TakeHeader(k, a).failed by {
      HeaderSplit(k, a, b);
    }
    HeaderRead(k, a);
    var o := TakeHeader(k, a);
    assert !Started(o.state);
    if o.rest + b != [] {
      assert |TakeHeader(o.state, o.rest + b).rest| < |o.rest + b|;
    }
  }

  lemma HeaderUnread(k: Intake, a: seq<u8>)
    requires |k.held| + |a| < TWOPASS_HEADER_SZ
    ensures TakeHeader(k, a) == Outcome(k.(held := k.held + a), [], false)
  {
    assert a[..|a|] == a;
  }

  lemma HeaderRefused(k: Intake, a: seq<u8>)
    requires |k.held| <= TWOPASS_HEADER_SZ && TakeHeader(k, a).failed
    ensures TakeHeader(k, a).state.header == k.header && |TakeHeader(k, a).state.held| == TWOPASS_HEADER_SZ
  {
  }

  lemma HeaderRead(k: Intake, a: seq<u8>)
    requires |k.held| <= TWOPASS_HEADER_SZ <= |k.held| + |a| && !TakeHeader(k, a).failed
    ensures var p := ParsedSummary((k.held + a)[..TWOPASS_HEADER_SZ]);
      p.Ok? && TakeHeader(k, a).state == SetUp(k, p.value).(held := [])
  {
    var want := TWOPASS_HEADER_SZ - |k.held|;
    assert (k.held + a)[..TWOPASS_HEADER_SZ] == k.held + a[..want];
  }

  /** An input that was rejected is rejected again. */
  lemma RejectedStays(k: Intake, a: seq<u8>, b: seq<u8>)
    requires Fits(k) && TakeIn(k, a).failed
    ensures var o := TakeIn(k, a); TakeIn(o.state, o.rest + b).failed
  {
    hide TakeHeader, ParsedSummary, Absorb;
    if Started(k) {
      AbsorbFailed(PlanOf(k), k.live, k.held, a, b);
    } else {
      HeaderSplit(k, a, b);
      var o := TakeHeader(k, a);
      if o.failed {
        HeaderRefused(k, a);
      } else {
        AbsorbFailed(PlanOf(o.state), o.state.live, o.state.held, o.rest, b);
      }
    }
  }

  lemma {:induction false} AbsorbFailed(p: Plan, live: seq<FrameMetrics>, held: seq<u8>, a: seq<u8>, b: seq<u8>)
    requires |held| <= TWOPASS_PACKET_SZ && Absorb(p, live, held, a).failed
    ensures var f := Absorb(p, live, held, a); Absorb(p, f.live, f.held, f.rest + b).failed
    decreases p.left - |live|
  {
    hide Shown, Missing, ParsedPacket, Take;
    var n := Take(held, a);
    var packet := held + a[..n];
    var m := ParsedPacket(packet);
    if m.Err? || |live| >= p.entries {
      NothingToTake(packet, a[n..] + b);
    } else {
      AbsorbFailed(p, live + [m.value], [], a[n..], b);
    }
  }

  lemma NothingToTake(packet: seq<u8>, bytes: seq<u8>)
    requires |packet| == TWOPASS_PACKET_SZ
    ensures Take(packet, bytes) == 0 && packet + bytes[..0] == packet
  {
  }

  /** Chunk after chunk, each preceded by what the one before left over. */
  function TakeChunks(k: Intake, chunks: seq<seq<u8>>): (o: Outcome)
    requires Fits(k)
    ensures Fits(o.state)
  {
    if chunks == [] then Outcome(k, [], false)
    else
      var o := TakeChunks(k, chunks[..|chunks| - 1]);
      TakeIn(o.state, o.rest + chunks[|chunks| - 1])
  }

  lemma HasIntraPrefix(k: Intake, a: seq<u8>, b: seq<u8>)
    requires HasIntra(k, a + b)
    ensures HasIntra(k, a)
  {
    var all := k.held + a;
    if |all| >= TWOPASS_HEADER_SZ {
      assert (k.held + (a + b))[..TWOPASS_HEADER_SZ] == all[..TWOPASS_HEADER_SZ];
    }
  }

  /** Any chunks of a stream come to the same as the whole stream at once. */
  lemma {:induction false} ChunksAreTheStream(k: Intake, chunks: seq<seq<u8>>)
    requires Fits(k) && chunks != [] && HasIntra(k, Concat(chunks))
    ensures TakeChunks(k, chunks) == TakeIn(k, Concat(chunks))
  {
    hide TakeIn, HasIntra;
    var last := chunks[|chunks| - 1];
    if |chunks| == 1 {
      assert chunks[..0] == [] && [] + last == last;
    } else {
      var before := chunks[..|chunks| - 1];
      HasIntraPrefix(k, Concat(before), last);
      ChunksAreTheStream(k, before);
      TakeInSplit(k, Concat(before), last);
    }
  }
}
