/** The two-pass statistics stream: packets written by the first pass, and the parser that
    reads them back from chunks of any size. */
module RatePackets {
  import opened Bits

  const FRAME_NSUBTYPES := 4
  const FRAME_SUBTYPE_I := 0
  const FRAME_SUBTYPE_SEF := 4
  const TWOPASS_MAGIC := 0x50324156
  const TWOPASS_VERSION := 1
  const TWOPASS_HEADER_SZ := 68
  const TWOPASS_PACKET_SZ := 8

  datatype Result<+T> = Ok(value: T) | Err(error: string)

  /** What pass 1 learnt about one frame. */
  datatype FrameMetrics = FrameMetrics(logScaleQ24: int, fti: nat, showFrame: bool)

  const NO_METRICS := FrameMetrics(0, 0, false)

  datatype Summary = Summary(ntus: int, nframes: seq<int>, exp: seq<u8>, scaleSum: seq<int>, total: int)

  const I32_MAX := 0x7FFF_FFFF

  predicate IsI32(x: int) {
    -0x8000_0000 <= x <= I32_MAX
  }

  predicate IsI64(x: int) {
    -0x8000_0000_0000_0000 <= x <= 0x7FFF_FFFF_FFFF_FFFF
  }

  // Integers as bytes, low byte first ------------------------------------------------------

  /** The low n bytes of a value's two's complement; both operators floor. */
  function Bytes(val: int, n: nat): (b: seq<u8>)
    ensures |b| == n
    decreases n
  {
    if n == 0 then [] else [val % 256] + Bytes(val / 256, n - 1)
  }

  function Unsigned(b: seq<u8>): nat {
    if b == [] then 0 else b[0] + 256 * Unsigned(b[1..])
  }

  function Pow256(n: nat): (p: nat)
    ensures p >= 1
  {
    if n == 0 then 1 else 256 * Pow256(n - 1)
  }

  lemma Pow256Values()
    ensures Pow256(1) == 0x100 && Pow256(4) == 0x1_0000_0000 && Pow256(8) == 0x1_0000_0000_0000_0000
  {
    assert Pow256(2) == 0x1_0000;
    assert Pow256(4) == 0x1_0000_0000;
    assert Pow256(6) == 0x1_0000_0000_0000;
  }

  /** Reading back what was written gives the value up to a multiple of 256^n. */
  lemma {:induction false} BytesValue(val: int, n: nat) returns (k: int)
    ensures Unsigned(Bytes(val, n)) < Pow256(n)
    ensures val == Unsigned(Bytes(val, n)) + k * Pow256(n)
    decreases n
  {
    if n == 0 {
      k := val;
    } else {
      k := BytesValue(val / 256, n - 1);
      var u := Unsigned(Bytes(val / 256, n - 1));
      assert Bytes(val, n)[1..] == Bytes(val / 256, n - 1);
      var p := Pow256(n - 1);
      assert k * (256 * p) == 256 * (k * p);
    }
  }

  /** Which byte goes where. */
  lemma {:induction false} LowByteFirst(val: int, n: nat, i: nat)
    requires i < n
    ensures Bytes(val, n)[i] == (val / Pow256(i)) % 256
    decreases n
  {
    if i > 0 {
      LowByteFirst(val / 256, n - 1, i - 1);
      DivideTwice(val, Pow256(i - 1));
    }
  }

  lemma DivideTwice(x: int, p: nat)
    requires p >= 1
    ensures x / 256 / p == x / (256 * p)
  {
    var q, y := x / 256 / p, x / 256;
    assert y == p * q + y % p;
    QuotientIs(x, 256 * p, q, 256 * (y % p) + x % 256);
  }

  lemma QuotientIs(x: int, d: nat, q: int, r: int)
    requires x == d * q + r && 0 <= r < d
    ensures x / d == q
  {
    Multiple(d, x / d - q, r - x % d);
  }

  lemma Multiple(d: nat, k: int, m: int)
    requires d * k == m && m < d && m + d > 0
    ensures k == 0
  {
  }

  function Signed32(u: int): int {
    var w := u % 0x1_0000_0000;
    if w >= 0x8000_0000 then w - 0x1_0000_0000 else w
  }

  function Signed64(u: int): int {
    var w := u % 0x1_0000_0000_0000_0000;
    if w >= 0x8000_0000_0000_0000 then w - 0x1_0000_0000_0000_0000 else w
  }

  /** A 32-bit value survives four bytes and a cast, negative ones included. */
  lemma FourBytes(val: int)
    ensures IsI32(val) ==> Signed32(Unsigned(Bytes(val, 4))) == val
    ensures 0 <= val < 0x1_0000_0000 ==> Unsigned(Bytes(val, 4)) == val
    ensures Unsigned(Bytes(val, 4)) < 0x1_0000_0000
  {
    Pow256Values();
    var k := BytesValue(val, 4);
    hide Bytes, Unsigned, Pow256;
    assert val == Unsigned(Bytes(val, 4)) + k * 0x1_0000_0000;
  }

  lemma Wrapped64(val: int, u: nat, k: int)
    requires IsI64(val) && u < 0x1_0000_0000_0000_0000 && val == u + k * 0x1_0000_0000_0000_0000
    ensures Signed64(u) == val
  {
    assert k == 0 || k == -1;
  }

  lemma EightBytes(val: int)
    requires IsI64(val)
    ensures Signed64(Unsigned(Bytes(val, 8))) == val
  {
    Pow256Values();
    var k := BytesValue(val, 8);
    hide Bytes, Unsigned, Pow256;
    assert Pow256(8) == 0x1_0000_0000_0000_0000;
    Wrapped64(val, Unsigned(Bytes(val, 8)), k);
  }

  // Packets ------------------------------------------------------------------------------

  ghost predicate ValidMetrics(m: FrameMetrics) {
    IsI32(m.logScaleQ24) && m.fti <= FRAME_NSUBTYPES
  }

  function TypeWord(m: FrameMetrics): int {
    (if m.showFrame then 0x8000_0000 else 0) + m.fti
  }

  function PacketBytes(m: FrameMetrics): (b: seq<u8>)
    ensures |b| == TWOPASS_PACKET_SZ
  {
    Bytes(TypeWord(m), 4) + Bytes(m.logScaleQ24, 4)
  }

  function ParsedPacket(b: seq<u8>): (r: Result<FrameMetrics>)
    requires |b| == TWOPASS_PACKET_SZ
    ensures r.Ok? ==> r.value.fti <= FRAME_NSUBTYPES && IsI32(r.value.logScaleQ24)
  {
    var ft := Unsigned(b[..4]);
    var fti := ft % 0x8000_0000;
    if fti > FRAME_NSUBTYPES then Err("Invalid frame type")
    else Ok(FrameMetrics(Signed32(Unsigned(b[4..])), fti, ft / 0x8000_0000 != 0))
  }

  /** Every frame's metrics come back, whatever the sign of the scale. */
  lemma PacketRoundTrip(m: FrameMetrics)
    requires ValidMetrics(m)
    ensures ParsedPacket(PacketBytes(m)) == Ok(m)
  {
    hide Bytes, Unsigned;
    FourBytes(TypeWord(m));
    FourBytes(m.logScaleQ24);
    assert PacketBytes(m)[..4] == Bytes(TypeWord(m), 4);
    assert PacketBytes(m)[4..] == Bytes(m.logScaleQ24, 4);
  }

  /** Where the parts of a packet lie: the frame's type, the top bit that tells whether it is
      shown, and its scale. */
  lemma PacketLayout(m: FrameMetrics)
    requires ValidMetrics(m)
    ensures PacketBytes(m)[0] == m.fti && PacketBytes(m)[1] == PacketBytes(m)[2] == 0
    ensures PacketBytes(m)[3] == if m.showFrame then 0x80 else 0
    ensures forall i :: 0 <= i < 4 ==> PacketBytes(m)[4 + i] == (m.logScaleQ24 / Pow256(i)) % 256
  {
    hide Bytes;
    assert Pow256(2) == 0x1_0000;
    assert Pow256(3) == 0x100_0000;
    LowByteFirst(TypeWord(m), 4, 0);
    LowByteFirst(TypeWord(m), 4, 1);
    LowByteFirst(TypeWord(m), 4, 2);
    LowByteFirst(TypeWord(m), 4, 3);
    forall i | 0 <= i < 4 ensures PacketBytes(m)[4 + i] == (m.logScaleQ24 / Pow256(i)) % 256 {
      LowByteFirst(m.logScaleQ24, 4, i);
    }
  }

  // The summary -----------------------------------------------------------------------------

  function Joined(vals: seq<int>, n: nat): (b: seq<u8>)
    ensures |b| == n * |vals|
  {
    if vals == [] then [] else Joined(vals[..|vals| - 1], n) + Bytes(vals[|vals| - 1], n)
  }

  /** The fields of a summary as pass 1 holds them. */
  ghost predicate Shaped(ntus: int, nframes: seq<int>, exp: seq<u8>, scaleSum: seq<int>) {
    && IsI32(ntus) && |nframes| == FRAME_NSUBTYPES + 1 && |exp| == FRAME_NSUBTYPES == |scaleSum|
    && (forall i :: 0 <= i < |nframes| ==> IsI32(nframes[i]))
    && (forall i :: 0 <= i < |scaleSum| ==> IsI64(scaleSum[i]))
  }

  function SummaryBytes(ntus: int, nframes: seq<int>, exp: seq<u8>, scaleSum: seq<int>): (b: seq<u8>)
    ensures |nframes| == FRAME_NSUBTYPES + 1 && |exp| == FRAME_NSUBTYPES == |scaleSum| ==> |b| == TWOPASS_HEADER_SZ
  {
    Bytes(TWOPASS_MAGIC, 4) + Bytes(TWOPASS_VERSION, 4) + Bytes(ntus, 4)
    + Joined(nframes, 4) + exp + Joined(scaleSum, 8)
  }

  /** The total of the first n frame counts, or why they are not acceptable. */
  function FrameTotal(nframes: seq<int>, n: nat): Result<int>
    requires n <= |nframes|
  {
    if n == 0 then Ok(0)
    else match FrameTotal(nframes, n - 1)
      case Err(e) => Err(e)
      case Ok(t) =>
        if nframes[n - 1] < 0 then Err("Got negative frame count")
        else if t + nframes[n - 1] > I32_MAX then Err("Frame count too large")
        else Ok(t + nframes[n - 1])
  }

  /** What the parser makes of these fields. */
  function Judged(ntus: int, nframes: seq<int>, exp: seq<u8>, scaleSum: seq<int>): (r: Result<Summary>)
    requires |scaleSum| == FRAME_NSUBTYPES
    ensures r.Ok? ==> 1 <= r.value.ntus <= r.value.total && r.value.nframes == nframes
    ensures r.Ok? ==> FrameTotal(nframes, |nframes|) == Ok(r.value.total)
  {
    if ntus < 1 then Err("No TUs found in first pass summary")
    else match FrameTotal(nframes, |nframes|)
      case Err(e) => Err(e)
      case Ok(total) =>
        if ntus > total then Err("More TUs than frames")
        else if scaleSum[0] < 0 || scaleSum[1] < 0 || scaleSum[2] < 0 || scaleSum[3] < 0 then
          Err("Got negative scale sum")
        else Ok(Summary(ntus, nframes, exp, scaleSum, total))
  }

  /** What the parser guarantees of a summary. */
  predicate Accepted(s: Summary) {
    && |s.nframes| == FRAME_NSUBTYPES + 1 && 1 <= s.ntus <= s.total
    && FrameTotal(s.nframes, |s.nframes|) == Ok(s.total)
  }

  function Word(b: seq<u8>, p: nat): int
    requires p + 4 <= |b|
  {
    Signed32(Unsigned(b[p..p + 4]))
  }

  function Long(b: seq<u8>, p: nat): int
    requires p + 8 <= |b|
  {
    Signed64(Unsigned(b[p..p + 8]))
  }

  function ParsedSummary(b: seq<u8>): (r: Result<Summary>)
    requires |b| == TWOPASS_HEADER_SZ
    ensures r.Ok? ==> Accepted(r.value)
  {
    if Unsigned(b[..4]) != TWOPASS_MAGIC then Err("Magic value mismatch")
    else if Unsigned(b[4..8]) != TWOPASS_VERSION then Err("Version number mismatch")
    else Judged(Word(b, 8), [Word(b, 12), Word(b, 16), Word(b, 20), Word(b, 24), Word(b, 28)],
                b[32..36], [Long(b, 36), Long(b, 44), Long(b, 52), Long(b, 60)])
  }

  lemma JoinedFive(v: seq<int>)
    requires |v| == 5
    ensures Joined(v, 4) == Bytes(v[0], 4) + Bytes(v[1], 4) + Bytes(v[2], 4) + Bytes(v[3], 4) + Bytes(v[4], 4)
  {
    hide Bytes;
    assert v[..4][..3] == v[..3] && v[..3][..2] == v[..2] && v[..2][..1] == v[..1] && v[..1][..0] == [];
    assert Joined(v[..0], 4) == [];
    assert Joined(v[..1], 4) == Bytes(v[0], 4);
    assert Joined(v[..2], 4) == Bytes(v[0], 4) + Bytes(v[1], 4);
    assert Joined(v[..3], 4) == Bytes(v[0], 4) + Bytes(v[1], 4) + Bytes(v[2], 4);
  }

  lemma JoinedFour(v: seq<int>)
    requires |v| == 4
    ensures Joined(v, 8) == Bytes(v[0], 8) + Bytes(v[1], 8) + Bytes(v[2], 8) + Bytes(v[3], 8)
  {
    hide Bytes;
    assert v[..3][..2] == v[..2] && v[..2][..1] == v[..1] && v[..1][..0] == [];
    assert Joined(v[..0], 8) == [];
    assert Joined(v[..1], 8) == Bytes(v[0], 8);
    assert Joined(v[..2], 8) == Bytes(v[0], 8) + Bytes(v[1], 8);
  }

  lemma SummarySlices(ntus: int, nframes: seq<int>, exp: seq<u8>, scaleSum: seq<int>)
    requires Shaped(ntus, nframes, exp, scaleSum)
    ensures var b := SummaryBytes(ntus, nframes, exp, scaleSum);
      && b[..4] == Bytes(TWOPASS_MAGIC, 4) && b[4..8] == Bytes(TWOPASS_VERSION, 4) && b[8..12] == Bytes(ntus, 4)
      && b[12..16] == Bytes(nframes[0], 4) && b[16..20] == Bytes(nframes[1], 4) && b[20..24] == Bytes(nframes[2], 4)
      && b[24..28] == Bytes(nframes[3], 4) && b[28..32] == Bytes(nframes[4], 4) && b[32..36] == exp
      && b[36..44] == Bytes(scaleSum[0], 8) && b[44..52] == Bytes(scaleSum[1], 8)
      && b[52..60] == Bytes(scaleSum[2], 8) && b[60..68] == Bytes(scaleSum[3], 8)
  {
    hide Bytes, Joined;
    JoinedFive(nframes);
    JoinedFour(scaleSum);
  }

  /** A summary comes back exactly when its contents are acceptable, and otherwise the parser
      says what is wrong with it. */
  lemma SummaryRoundTrip(ntus: int, nframes: seq<int>, exp: seq<u8>, scaleSum: seq<int>)
    requires Shaped(ntus, nframes, exp, scaleSum)
    ensures ParsedSummary(SummaryBytes(ntus, nframes, exp, scaleSum)) == Judged(ntus, nframes, exp, scaleSum)
  {
    hide Bytes, Joined, Unsigned, Judged, SummaryBytes;
    SummarySlices(ntus, nframes, exp, scaleSum);
    FourBytes(TWOPASS_MAGIC);
    FourBytes(TWOPASS_VERSION);
    FourBytes(ntus);
    forall i | 0 <= i < 5 ensures Signed32(Unsigned(Bytes(nframes[i], 4))) == nframes[i] {
      FourBytes(nframes[i]);
    }
    forall i | 0 <= i < 4 ensures Signed64(Unsigned(Bytes(scaleSum[i], 8))) == scaleSum[i] {
      EightBytes(scaleSum[i]);
    }
    var b := SummaryBytes(ntus, nframes, exp, scaleSum);
    assert nframes == [Word(b, 12), Word(b, 16), Word(b, 20), Word(b, 24), Word(b, 28)];
    assert scaleSum == [Long(b, 36), Long(b, 44), Long(b, 52), Long(b, 60)];
  }

  function SumTo(nframes: seq<int>, n: nat): int
    requires n <= |nframes|
  {
    if n == 0 then 0 else SumTo(nframes, n - 1) + nframes[n - 1]
  }

  lemma {:induction false} FrameTotalAccepts(nframes: seq<int>, n: nat)
    requires n <= |nframes|
    ensures FrameTotal(nframes, n).Ok? <==> (forall i :: 0 <= i < n ==> nframes[i] >= 0) && SumTo(nframes, n) <= I32_MAX
    ensures FrameTotal(nframes, n).Ok? ==> FrameTotal(nframes, n).value == SumTo(nframes, n)
  {
    if n > 0 {
      FrameTotalAccepts(nframes, n - 1);
    }
  }

  /** Which summaries come back. */
  lemma SummaryAccepted(ntus: int, nframes: seq<int>, exp: seq<u8>, scaleSum: seq<int>)
    requires Shaped(ntus, nframes, exp, scaleSum)
    ensures Judged(ntus, nframes, exp, scaleSum).Ok? <==>
      && (forall i :: 0 <= i < |nframes| ==> nframes[i] >= 0) && (forall i :: 0 <= i < |scaleSum| ==> scaleSum[i] >= 0)
      && 1 <= ntus <= SumTo(nframes, |nframes|) <= I32_MAX
    ensures Judged(ntus, nframes, exp, scaleSum).Ok? ==>
      Judged(ntus, nframes, exp, scaleSum).value == Summary(ntus, nframes, exp, scaleSum, SumTo(nframes, |nframes|))
  {
    FrameTotalAccepts(nframes, |nframes|);
    hide FrameTotal, SumTo;
    assert (forall i :: 0 <= i < |scaleSum| ==> scaleSum[i] >= 0)
      <==> scaleSum[0] >= 0 && scaleSum[1] >= 0 && scaleSum[2] >= 0 && scaleSum[3] >= 0;
  }

  // Writing -----------------------------------------------------------------------------------

  /** Writes the low bytes of a value; the cursor moves past them. */
  method BufferVal(buffer: array<u8>, val: int, bytes: nat, curPos: nat) returns (pos: nat)
    requires curPos + bytes <= buffer.Length
    modifies buffer
    ensures pos == curPos + bytes
    ensures buffer[curPos..pos] == Bytes(val, bytes)
    ensures buffer[..curPos] == old(buffer[..curPos]) && buffer[pos..] == old(buffer[pos..])
  {
    var v, left: nat := val, bytes;
    pos := curPos;
    while left > 0
      invariant left <= bytes && pos == curPos + (bytes - left)
      invariant buffer[curPos..pos] + Bytes(v, left) == Bytes(val, bytes)
      invariant forall i :: 0 <= i < buffer.Length && !(curPos <= i < pos) ==> buffer[i] == old(buffer[i])
      decreases left
    {
      ghost var before := buffer[curPos..pos];
      left := left - 1;
      buffer[pos] := v % 256;
      pos := pos + 1;
      assert buffer[curPos..pos] == before + [v % 256];
      assert Bytes(v, left + 1) == [v % 256] + Bytes(v / 256, left);
      assert before + ([v % 256] + Bytes(v / 256, left)) == before + [v % 256] + Bytes(v / 256, left);
      v := v / 256;
    }
    assert buffer[curPos..pos] + [] == buffer[curPos..pos];
  }

  method EmitFrameData(buffer: array<u8>, m: FrameMetrics) returns (curPos: nat)
    requires buffer.Length == TWOPASS_HEADER_SZ
    modifies buffer
    ensures curPos == TWOPASS_PACKET_SZ && buffer[..curPos] == PacketBytes(m)
  {
    hide Bytes;
    curPos := BufferVal(buffer, TypeWord(m), 4, 0);
    ghost var first := buffer[..4];
    curPos := BufferVal(buffer, m.logScaleQ24, 4, curPos);
    assert buffer[..8] == buffer[..4] + buffer[4..8];
  }

  /** Appends a list of values, each the same width. */
  method BufferAll(buffer: array<u8>, vals: seq<int>, bytes: nat, curPos: nat) returns (pos: nat)
    requires curPos + bytes * |vals| <= buffer.Length
    modifies buffer
    ensures pos == curPos + bytes * |vals|
    ensures buffer[..pos] == old(buffer[..curPos]) + Joined(vals, bytes)
  {
    hide Bytes;
    pos := curPos;
    for i := 0 to |vals|
      invariant pos == curPos + bytes * i <= buffer.Length
      invariant buffer[..pos] == old(buffer[..curPos]) + Joined(vals[..i], bytes)
    {
      ghost var done := buffer[..pos];
      RoomFor(bytes, i, |vals|);
      var next := BufferVal(buffer, vals[i], bytes, pos);
      assert buffer[..next] == buffer[..pos] + buffer[pos..next];
      assert vals[..i + 1][..i] == vals[..i];
      pos := next;
    }
    assert vals[..|vals|] == vals;
  }

  lemma RoomFor(bytes: nat, i: nat, n: nat)
    requires i < n
    ensures bytes * (i + 1) == bytes * i + bytes <= bytes * n
  {
    assert bytes * n == bytes * (i + 1) + bytes * (n - i - 1);
  }

  method EmitSummary(buffer: array<u8>, ntus: int, nframes: seq<int>, exp: seq<u8>, scaleSum: seq<int>)
      returns (curPos: nat)
    requires buffer.Length == TWOPASS_HEADER_SZ && Shaped(ntus, nframes, exp, scaleSum)
    modifies buffer
    ensures curPos == TWOPASS_HEADER_SZ && buffer[..curPos] == SummaryBytes(ntus, nframes, exp, scaleSum)
  {
    hide Bytes, Joined;
    curPos := BufferAll(buffer, [TWOPASS_MAGIC], 4, 0);
    curPos := BufferAll(buffer, [TWOPASS_VERSION], 4, curPos);
    curPos := BufferAll(buffer, [ntus], 4, curPos);
    JoinedOne(TWOPASS_MAGIC, 4);
    JoinedOne(TWOPASS_VERSION, 4);
    JoinedOne(ntus, 4);
    curPos := BufferAll(buffer, nframes, 4, curPos);
    curPos := BufferAll(buffer, exp, 1, curPos);
    JoinedBytes(exp);
    curPos := BufferAll(buffer, scaleSum, 8, curPos);
  }

  lemma JoinedOne(v: int, n: nat)
    ensures Joined([v], n) == Bytes(v, n)
  {
    assert [v][..0] == [];
    assert Joined([v][..0], n) == [];
  }

  lemma {:induction false} JoinedBytes(b: seq<u8>)
    ensures Joined(b, 1) == b
  {
    if b != [] {
      var m := |b| - 1;
      JoinedBytes(b[..m]);
      assert Bytes(b[m], 1) == [b[m]] by {
        assert Bytes(b[m] / 256, 0) == [];
      }
      assert b == b[..m] + [b[m]];
    }
  }

  // Reading -----------------------------------------------------------------------------------

  class RCDeserialize {
    var pos: nat
    var fill: nat
    const buffer: array<u8>

    ghost predicate Valid()
      reads this
    {
      buffer.Length == TWOPASS_HEADER_SZ && fill <= TWOPASS_HEADER_SZ
    }

    constructor ()
      ensures Valid() && fill == 0 && fresh(buffer)
    {
      pos, fill := 0, 0;
      buffer := new u8[TWOPASS_HEADER_SZ](_ => 0);
    }

    /** Takes bytes until the goal is reached or the input ends. */
    method BufferFill(buf: seq<u8>, start: nat, goal: nat) returns (consumed: nat)
      requires Valid() && start <= |buf| && fill <= goal <= TWOPASS_HEADER_SZ
      modifies this`fill, buffer
      ensures Valid() && start <= consumed <= |buf| && fill <= goal
      ensures fill == goal || consumed == |buf|
      ensures buffer[..fill] == old(buffer[..fill]) + buf[start..consumed]
    {
      consumed := start;
      while fill < goal && consumed < |buf|
        invariant Valid() && start <= consumed <= |buf| && fill <= goal
        invariant buffer[..fill] == old(buffer[..fill]) + buf[start..consumed]
        decreases |buf| - consumed
      {
        ghost var held := buffer[..fill];
        buffer[fill] := buf[consumed];
        fill := fill + 1;
        assert buffer[..fill] == held + [buf[consumed]];
        consumed := consumed + 1;
      }
    }

    /** The next n bytes, before any sign is read into them. */
    method UnbufferVal(n: nat) returns (ret: nat)
      requires Valid() && pos + n <= TWOPASS_HEADER_SZ
      modifies this`pos
      ensures pos == old(pos) + n && ret == Unsigned(buffer[old(pos)..pos])
    {
      var bytes: nat := n;
      ret := 0;
      ghost var from, whole := pos, buffer[pos..pos + n];
      var weight := 1;
      while bytes > 0
        invariant bytes <= n && pos == from + (n - bytes)
        invariant weight == Pow256(n - bytes)
        invariant ret + MulNat(weight, Unsigned(buffer[pos..from + n])) == Unsigned(whole)
        decreases bytes
      {
        ghost var rest := buffer[pos..from + n];
        bytes := bytes - 1;
        assert rest[1..] == buffer[pos + 1..from + n];
        Peel(weight, rest);
        ret := ret + MulNat(weight, buffer[pos]);
        pos := pos + 1;
        weight := 256 * weight;
      }
      NothingLeft(weight);
    }

    method ParseMetrics() returns (r: Result<FrameMetrics>)
      requires Valid() && pos == 0 && fill >= TWOPASS_PACKET_SZ
      modifies this`pos
      ensures r == ParsedPacket(buffer[..TWOPASS_PACKET_SZ])
    {
      hide Unsigned;
      ghost var b := buffer[..TWOPASS_PACKET_SZ];
      var ft := UnbufferVal(4);
      assert b[..4] == buffer[0..4] && b[4..] == buffer[4..8];
      var showFrame := ft / 0x8000_0000 != 0;
      var fti := ft % 0x8000_0000;
      if fti > FRAME_NSUBTYPES {
        return Err("Invalid frame type");
      }
      var log := UnbufferVal(4);
      r := Ok(FrameMetrics(Signed32(log), fti, showFrame));
    }

    method ParseSummary() returns (r: Result<Summary>)
      requires Valid() && pos == 0
      modifies this`pos
      ensures r == ParsedSummary(buffer[..TWOPASS_HEADER_SZ])
    {
      hide Unsigned, Signed32, Signed64;
      ghost var b := buffer[..TWOPASS_HEADER_SZ];
      assert b == buffer[..];
      var magic := UnbufferVal(4);
      assert b[..4] == buffer[0..4];
      if magic != TWOPASS_MAGIC {
        return Err("Magic value mismatch");
      }
      var version := UnbufferVal(4);
      assert b[4..8] == buffer[4..8];
      if version != TWOPASS_VERSION {
        return Err("Version number mismatch");
      }
      var word := UnbufferVal(4);
      assert b[8..12] == buffer[8..12];
      var ntus := Signed32(word);
      if ntus < 1 {
        return Err("No TUs found in first pass summary");
      }
      ghost var counts := [Word(b, 12), Word(b, 16), Word(b, 20), Word(b, 24), Word(b, 28)];
      var nframes, total: int := [], 0;
      for i := 0 to FRAME_NSUBTYPES + 1
        invariant pos == 12 + 4 * i && buffer[..] == b
        invariant nframes == counts[..i] && FrameTotal(counts, i) == Ok(total)
      {
        word := UnbufferVal(4);
        assert b[12 + 4 * i..16 + 4 * i] == buffer[12 + 4 * i..16 + 4 * i];
        var n := Signed32(word);
        assert n == counts[i];
        if n < 0 {
          FailureStays(counts, i + 1, 5);
          return Err("Got negative frame count");
        }
        if total + n > I32_MAX {
          FailureStays(counts, i + 1, 5);
          return Err("Frame count too large");
        }
        total := total + n;
        nframes := nframes + [n];
      }
      assert nframes == counts && |counts| == 5;
      assert buffer[..] == b;
      if ntus > total {
        return Err("More TUs than frames");
      }
      r := ParseScales(ntus, nframes, total);
    }

    /** The tail of the summary: exponents, then sums that must not be negative. */
    method ParseScales(ntus: int, nframes: seq<int>, total: int) returns (r: Result<Summary>)
      requires Valid() && pos == 32
      modifies this`pos
      ensures var b := buffer[..]; var sums := [Long(b, 36), Long(b, 44), Long(b, 52), Long(b, 60)];
        r == if sums[0] < 0 || sums[1] < 0 || sums[2] < 0 || sums[3] < 0 then Err("Got negative scale sum")
             else Ok(Summary(ntus, nframes, b[32..36], sums, total))
    {
      hide Unsigned, Signed64;
      ghost var b := buffer[..];
      var exp: seq<u8> := [];
      for i := 0 to FRAME_NSUBTYPES
        invariant pos == 32 + i && buffer[..] == b && exp == b[32..32 + i]
      {
        var x := UnbufferVal(1);
        UnsignedOne(buffer[32 + i..33 + i]);
        exp := exp + [x % 256];
      }
      ghost var sums := [Long(b, 36), Long(b, 44), Long(b, 52), Long(b, 60)];
      var scaleSum: seq<int> := [];
      for i := 0 to FRAME_NSUBTYPES
        invariant pos == 36 + 8 * i && buffer[..] == b && scaleSum == sums[..i]
        invariant i > 0 ==> sums[0] >= 0
        invariant i > 1 ==> sums[1] >= 0
        invariant i > 2 ==> sums[2] >= 0
        invariant i > 3 ==> sums[3] >= 0
      {
        var x := UnbufferVal(8);
        assert b[36 + 8 * i..44 + 8 * i] == buffer[36 + 8 * i..44 + 8 * i];
        var s := Signed64(x);
        assert s == sums[i];
        scaleSum := scaleSum + [s];
        if s < 0 {
          assert i == 0 || i == 1 || i == 2 || i == 3;
          return Err("Got negative scale sum");
        }
      }
      assert scaleSum == sums;
      r := Ok(Summary(ntus, nframes, exp, scaleSum, total));
    }
  }

  lemma {:induction false} FailureStays(nframes: seq<int>, i: nat, n: nat)
    requires i <= n <= |nframes| && FrameTotal(nframes, i).Err?
    ensures FrameTotal(nframes, n) == FrameTotal(nframes, i)
  {
    if i < n {
      FailureStays(nframes, i, n - 1);
    }
  }

  lemma UnsignedOne(b: seq<u8>)
    requires |b| == 1
    ensures Unsigned(b) == b[0]
  {
    assert b[1..] == [];
  }

  function MulNat(a: nat, b: nat): nat {
    a * b
  }

  lemma Peel(weight: nat, rest: seq<u8>)
    requires |rest| > 0
    ensures MulNat(weight, Unsigned(rest)) == MulNat(weight, rest[0]) + MulNat(256 * weight, Unsigned(rest[1..]))
  {
    PeelProduct(weight, rest[0], Unsigned(rest[1..]));
  }

  lemma PeelProduct(w: nat, x: nat, u: nat)
    ensures MulNat(w, x + 256 * u) == MulNat(w, x) + MulNat(256 * w, u)
  {
    assert w * (256 * u) == (256 * w) * u;
  }

  lemma NothingLeft(weight: nat)
    ensures MulNat(weight, Unsigned([])) == 0
  {
  }
}
