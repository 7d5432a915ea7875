/** What feeding bytes to the second pass means, apart from how they are cut into chunks. */
module RateFeed {
  import opened Bits
  import opened RatePackets

  function Shown(ms: seq<FrameMetrics>): nat {
    if ms == [] then 0 else Shown(ms[..|ms| - 1]) + (if ms[|ms| - 1].showFrame then 1 else 0)
  }

  /** Frames still to be read: enough to fill the reservoir with shown frames, but never more
      than are left to encode. */
  function Missing(delay: int, left: int, ntus: int, n: nat): (m: nat)
    requires n <= left
    ensures m <= left - n
  {
    if delay - ntus < 0 then 0 else if delay - ntus > left - n then left - n else delay - ntus
  }

  /** So many shown frames more, and no fewer, fill the reservoir or are all that is left. */
  lemma MissingIsLeast(delay: int, left: int, ntus: int, n: nat, more: nat)
    requires n + more <= left
    ensures ntus + more >= delay || n + more == left <==> more >= Missing(delay, left, ntus, n)
  {
  }

  /** A frame that enters lowers the number missing by at most one. The last one wanted leaves
      none missing exactly when it is shown or no other frame is left. */
  lemma OneMore(delay: int, left: int, ntus: int, n: nat, shown: bool)
    requires n < left
    ensures Missing(delay, left, ntus + (if shown then 1 else 0), n + 1) + 1 >= Missing(delay, left, ntus, n)
    ensures Missing(delay, left, ntus, n) == 1 ==>
      (Missing(delay, left, ntus + (if shown then 1 else 0), n + 1) == 0 <==> shown || n + 1 == left)
  {
  }

  /** The frames in the window, the bytes of an unfinished packet, the bytes not looked at, and
      whether reading stopped at a packet that cannot be taken. */
  datatype Feed = Feed(live: seq<FrameMetrics>, held: seq<u8>, rest: seq<u8>, failed: bool)

  /** A second pass that wants `delay` shown frames, has `left` frames to encode and a ring of
      `entries` slots. */
  datatype Plan = Plan(delay: int, left: nat, entries: nat)

  predicate Wants(p: Plan, live: seq<FrameMetrics>) {
    |live| <= p.left && Missing(p.delay, p.left, Shown(live), |live|) > 0
  }

  lemma WantsMore(p: Plan, live: seq<FrameMetrics>)
    requires |live| <= p.left
    ensures Wants(p, live) <==> Shown(live) < p.delay && |live| < p.left
  {
    MissingIsLeast(p.delay, p.left, Shown(live), |live|, 0);
  }

  /** How many bytes complete the packet that is being held. */
  function Take(held: seq<u8>, bytes: seq<u8>): (n: nat)
    requires |held| <= TWOPASS_PACKET_SZ
    ensures n <= |bytes| && |held| + n <= TWOPASS_PACKET_SZ
    ensures |held| + n == TWOPASS_PACKET_SZ || n == |bytes|
  {
    if TWOPASS_PACKET_SZ - |held| <= |bytes| then TWOPASS_PACKET_SZ - |held| else |bytes|
  }

  /** Packets are completed and their frames enter the window while any are wanted. */
  function Absorb(p: Plan, live: seq<FrameMetrics>, held: seq<u8>, bytes: seq<u8>): (f: Feed)
    requires |held| <= TWOPASS_PACKET_SZ
    ensures live <= f.live && |f.held| <= TWOPASS_PACKET_SZ && |f.rest| <= |bytes|
    ensures |live| <= p.left ==> |f.live| <= p.left
    decreases p.left - |live|
  {
    if !Wants(p, live) then Feed(live, held, bytes, false)
    else
      var n := Take(held, bytes);
      var packet := held + bytes[..n];
      if |packet| < TWOPASS_PACKET_SZ then Feed(live, packet, [], false)
      else
        var m := ParsedPacket(packet);
        if m.Err? || |live| >= p.entries then Feed(live, packet, bytes[n..], true)
        else Absorb(p, live + [m.value], [], bytes[n..])
  }

  /** One round of reading, by what becomes of the packet being held. */
  lemma AbsorbRound(p: Plan, live: seq<FrameMetrics>, held: seq<u8>, bytes: seq<u8>, packet: seq<u8>, rest: seq<u8>)
    requires |held| <= TWOPASS_PACKET_SZ && Wants(p, live)
    requires packet == held + bytes[..Take(held, bytes)] && rest == bytes[Take(held, bytes)..]
    ensures |packet| < TWOPASS_PACKET_SZ ==> rest == [] && Absorb(p, live, held, bytes) == Feed(live, packet, [], false)
    ensures |packet| == TWOPASS_PACKET_SZ && (ParsedPacket(packet).Err? || |live| >= p.entries) ==>
      Absorb(p, live, held, bytes) == Feed(live, packet, rest, true)
    ensures |packet| == TWOPASS_PACKET_SZ && ParsedPacket(packet).Ok? && |live| < p.entries ==>
      Absorb(p, live, held, bytes) == Absorb(p, live + [ParsedPacket(packet).value], [], rest)
  {
  }

  lemma AbsorbDone(p: Plan, live: seq<FrameMetrics>, held: seq<u8>, bytes: seq<u8>)
    requires |held| <= TWOPASS_PACKET_SZ
    ensures !Wants(p, live) ==> Absorb(p, live, held, bytes) == Feed(live, held, bytes, false)
  {
  }

  lemma TakeAcross(held: seq<u8>, a: seq<u8>, b: seq<u8>)
    requires |held| + |a| < TWOPASS_PACKET_SZ
    ensures var n, k := Take(held, a + b), Take(held + a, b);
      held + (a + b)[..n] == held + a + b[..k] && (a + b)[n..] == b[k..]
  {
    var n, k := Take(held, a + b), Take(held + a, b);
    assert n == |a| + k;
    assert (a + b)[..n] == a + b[..k];
    assert held + (a + b[..k]) == held + a + b[..k];
  }

  lemma TakeWithin(held: seq<u8>, a: seq<u8>, b: seq<u8>)
    requires |held| <= TWOPASS_PACKET_SZ <= |held| + |a|
    ensures var n := Take(held, a); Take(held, a + b) == n && (a + b)[..n] == a[..n] && (a + b)[n..] == a[n..] + b
  {
  }

  /** Where the input is cut makes no difference. */
  lemma {:induction false} AbsorbSplit(p: Plan, live: seq<FrameMetrics>, held: seq<u8>, a: seq<u8>, b: seq<u8>)
    requires |held| <= TWOPASS_PACKET_SZ
    ensures var f := Absorb(p, live, held, a); Absorb(p, live, held, a + b) == Absorb(p, f.live, f.held, f.rest + b)
    decreases p.left - |live|
  {
    hide Shown, Missing, ParsedPacket, Take;
    if Wants(p, live) {
      if |held| + |a| < TWOPASS_PACKET_SZ {
        TakeAcross(held, a, b);
        assert Take(held, a) == |a| && a[..|a|] == a && [] + b == b;
      } else {
        TakeWithin(held, a, b);
        var n := Take(held, a);
        var packet := held + a[..n];
        var m := ParsedPacket(packet);
        if m.Err? || |live| >= p.entries {
          assert Take(packet, a[n..] + b) == 0;
          assert packet + (a[n..] + b)[..0] == packet;
        } else {
          AbsorbSplit(p, live + [m.value], [], a[n..], b);
        }
      }
    }
  }

  function Concat(chunks: seq<seq<u8>>): seq<u8> {
    if chunks == [] then [] else Concat(chunks[..|chunks| - 1]) + chunks[|chunks| - 1]
  }

  function Packets(ms: seq<FrameMetrics>): seq<u8> {
    if ms == [] then [] else PacketBytes(ms[0]) + Packets(ms[1..])
  }

  lemma PacketIsRead(p: Plan, live: seq<FrameMetrics>, m: FrameMetrics, rest: seq<u8>)
    requires ValidMetrics(m) && Wants(p, live) && |live| < p.entries
    ensures Absorb(p, live, [], PacketBytes(m) + rest) == Absorb(p, live + [m], [], rest)
  {
    hide Wants, ParsedPacket, PacketBytes, ValidMetrics;
    var head := PacketBytes(m);
    PacketRoundTrip(m);
    assert [] + (head + rest)[..TWOPASS_PACKET_SZ] == head && (head + rest)[TWOPASS_PACKET_SZ..] == rest;
  }

  /** As long as frames are wanted, the written packets of any frames are read back as exactly
      those frames. */
  lemma {:induction false} PacketsAreRead(p: Plan, live: seq<FrameMetrics>, ms: seq<FrameMetrics>, tail: seq<u8>)
    requires forall i :: 0 <= i < |ms| ==> ValidMetrics(ms[i]) && Wants(p, live + ms[..i])
    requires |live| + |ms| <= p.entries
    ensures Absorb(p, live, [], Packets(ms) + tail) == Absorb(p, live + ms, [], tail)
    decreases |ms|
  {
    hide Absorb, PacketBytes, Wants, ValidMetrics;
    if ms == [] {
      assert [] + tail == tail && live + ms == live;
    } else {
      assert live + ms[..0] == live && Wants(p, live);
      PacketIsRead(p, live, ms[0], Packets(ms[1..]) + tail);
      assert PacketBytes(ms[0]) + (Packets(ms[1..]) + tail) == Packets(ms) + tail;
      forall i | 0 <= i < |ms| - 1 ensures ValidMetrics(ms[1..][i]) && Wants(p, live + [ms[0]] + ms[1..][..i]) {
        assert live + [ms[0]] + ms[1..][..i] == live + ms[..i + 1];
      }
      PacketsAreRead(p, live + [ms[0]], ms[1..], tail);
      assert live + [ms[0]] + ms[1..] == live + ms;
    }
  }
}
