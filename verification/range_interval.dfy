/** The arithmetic-coding core of the range coder: what one token does to an
    interval of unbounded precision, and which bitstreams lie in an interval. */
module RangeInterval {
  import opened Bits

  const EC_MIN_PROB := 4

  /** A symbol reduced to its inverse-CDF bounds and the number of symbols from it on. */
  datatype Token = Token(fl: nat, fh: nat, nms: nat)

  /** What `symbol` asserts of the token it stores; only the first symbol has fl == 32768. */
  predicate ValidToken(t: Token) {
    && 1 <= t.nms <= 16
    && t.fh < 32768
    && t.fh / 64 <= t.fl / 64
    && (t.fl == 32768 || (t.fl < 32768 && t.nms <= 15))
  }

  function ScaleBound(rng: nat, f: nat): nat {
    ((rng / 256) * (f / 64)) / 2
  }

  /** Distance from the top of the range at which the token's sub-range starts. */
  function UpperBound(rng: nat, t: Token): nat {
    if t.fl >= 32768 then rng else ScaleBound(rng, t.fl) + EC_MIN_PROB * t.nms
  }

  /** Distance from the top of the range at which the token's sub-range ends. */
  function LowerBound(rng: nat, t: Token): nat
    requires t.nms >= 1
  {
    ScaleBound(rng, t.fh) + EC_MIN_PROB * (t.nms - 1)
  }

  lemma ScaleBoundMono(rng: nat, f: nat, g: nat)
    requires f / 64 <= g / 64
    ensures ScaleBound(rng, f) <= ScaleBound(rng, g)
  {
    var k, a, b := rng / 256, f / 64, g / 64;
    assert k * a <= k * b;
  }

  /** How far rounding can take the scaled bound below the exact product, in units of 2^-15. */
  function Slack(rng: nat, f: nat): nat {
    16384 + 63 * rng + 255 * f
  }

  /** The bound is the frequency's share of the range: rng * f / 32768, rounded down as far as
      dropping eight bits of the range and six of the frequency goes. */
  lemma ScaleBoundIsShare(rng: nat, f: nat)
    ensures 32768 * ScaleBound(rng, f) <= rng * f <= 32768 * ScaleBound(rng, f) + Slack(rng, f)
  {
    var k, a, m, b := rng / 256, rng % 256, f / 64, f % 64;
    Expand(k, a, m, b);
    AtMost(k, b, 63);
    AtMost(f, a, 255);
    var p := k * m;
    assert ScaleBound(rng, f) == p / 2;
    assert rng * f == 16384 * p + 256 * (k * b) + f * a;
  }

  lemma Expand(k: nat, a: nat, m: nat, b: nat)
    ensures (256 * k + a) * (64 * m + b) == 16384 * (k * m) + 256 * (k * b) + (64 * m + b) * a
  {
    var f := 64 * m + b;
    assert (256 * k + a) * f == 256 * (k * f) + f * a;
    assert k * f == 64 * (k * m) + k * b;
  }

  lemma AtMost(x: nat, y: nat, max: nat)
    requires y <= max
    ensures 0 <= x * y <= x * max
  {
  }

  /** A symbol's sub-range is its probability's share of the range, up to rounding at its two
      bounds and the floor of four for it and, if it is the first, each symbol after it. */
  lemma WidthIsShare(rng: nat, t: Token)
    requires 0x8000 <= rng && ValidToken(t)
    ensures var share, width := rng * (t.fl - t.fh), UpperBound(rng, t) - LowerBound(rng, t);
      if t.fl < 32768 then
        share - Slack(rng, t.fl) <= 32768 * (width - EC_MIN_PROB) <= share + Slack(rng, t.fh)
      else
        share <= 32768 * (width + EC_MIN_PROB * (t.nms - 1)) <= share + Slack(rng, t.fh)
  {
    hide ScaleBound, Slack, Share;
    ShareBounds(rng, t.fl);
    ShareBounds(rng, t.fh);
    ShareDifference(rng, t.fl, t.fh);
  }

  function Share(rng: nat, f: nat): nat {
    rng * f
  }

  lemma ShareBounds(rng: nat, f: nat)
    ensures 32768 * ScaleBound(rng, f) <= Share(rng, f) <= 32768 * ScaleBound(rng, f) + Slack(rng, f)
  {
    ScaleBoundIsShare(rng, f);
  }

  lemma ShareDifference(rng: nat, f: nat, g: nat)
    ensures rng * (f - g) == Share(rng, f) - Share(rng, g)
    ensures Share(rng, 32768) == 32768 * rng
  {
  }

  /** Nothing but the floor is left for a symbol without a share. */
  lemma FloorOnly(rng: nat, t: Token)
    requires ValidToken(t) && t.fl < 32768 && t.fl / 64 == t.fh / 64
    ensures UpperBound(rng, t) - LowerBound(rng, t) == EC_MIN_PROB
  {
  }

  /** Sixteen symbols fit: the probability floor never outgrows the room the
      truncated scaling leaves at the top of the range. */
  lemma ScaleBoundRoom(rng: nat, f: nat)
    requires 0x8000 <= rng && f < 32768
    ensures ScaleBound(rng, f) + 64 <= rng
  {
    var k, a := rng / 256, f / 64;
    assert a <= 511 && k >= 128;
    assert k * a <= k * 511;
  }

  /** Every valid token gets a sub-range inside the range and at least four wide. */
  lemma SubrangeBounds(rng: nat, t: Token)
    requires 0x8000 <= rng && ValidToken(t)
    ensures LowerBound(rng, t) + EC_MIN_PROB <= UpperBound(rng, t) <= rng
  {
    ScaleBoundRoom(rng, t.fh);
    if t.fl < 32768 {
      ScaleBoundRoom(rng, t.fl);
      ScaleBoundMono(rng, t.fh, t.fl);
    }
  }

  /** The codes from low to low + rng, exclusive, at scale 2^(shift + 15). */
  datatype Interval = Interval(low: nat, rng: nat, shift: nat)

  const WHOLE := Interval(0, 0x8000, 0)

  ghost predicate Normal(i: Interval) {
    0x8000 <= i.rng < 0x1_0000
  }

  ghost function Sub(i: Interval, t: Token): Interval
    requires Normal(i) && ValidToken(t)
  {
    SubrangeBounds(i.rng, t);
    Interval(i.low + (i.rng - UpperBound(i.rng, t)),
             UpperBound(i.rng, t) - LowerBound(i.rng, t), i.shift)
  }

  /** Coding a token: take its sub-range, then rescale until bit 15 is set again. */
  ghost function Narrow(i: Interval, t: Token): (j: Interval)
    requires Normal(i) && ValidToken(t)
    ensures Normal(j)
  {
    SubrangeBounds(i.rng, t);
    var s := Sub(i, t);
    var d := LeadingZeros16(s.rng);
    LeadingZeros16Range(s.rng);
    Interval(Shl(s.low, d), Shl(s.rng, d), i.shift + d)
  }

  ghost predicate AllValid(ts: seq<Token>) {
    forall k :: 0 <= k < |ts| ==> ValidToken(ts[k])
  }

  ghost function Code(ts: seq<Token>): (j: Interval)
    requires AllValid(ts)
    ensures Normal(j)
  {
    if ts == [] then WHOLE else Narrow(Code(ts[..|ts| - 1]), ts[|ts| - 1])
  }

  lemma CodeSnoc(ts: seq<Token>, t: Token)
    requires AllValid(ts) && ValidToken(t)
    ensures AllValid(ts + [t]) && Code(ts + [t]) == Narrow(Code(ts), t)
  {
    assert (ts + [t])[..|ts|] == ts;
  }

  // Bitstreams -------------------------------------------------------------

  function BitAt(b: seq<u8>, k: nat): (bit: nat)
    ensures bit <= 1
  {
    if k / 8 < |b| then Shr(b[k / 8], 7 - k % 8) % 2 else 0
  }

  /** The first k bits of b, most significant first, with zeros after its end. */
  function Prefix(b: seq<u8>, k: nat): nat {
    if k == 0 then 0 else 2 * Prefix(b, k - 1) + BitAt(b, k - 1)
  }

  lemma NextBit(b: seq<u8>, k: nat)
    ensures Prefix(b, 0) == 0 && Prefix(b, k + 1) == 2 * Prefix(b, k) + BitAt(b, k)
  {
    hide BitAt;
  }

  ghost predicate Holds(i: Interval, b: seq<u8>) {
    i.low <= Prefix(b, i.shift + 15) < i.low + i.rng
  }

  /** The next d bits refine a prefix: they add less than one unit of its last place. */
  lemma {:induction false} PrefixExtend(b: seq<u8>, k: nat, d: nat)
    ensures Shl(Prefix(b, k), d) <= Prefix(b, k + d) < Shl(Prefix(b, k), d) + Pow2(d)
  {
    if d > 0 {
      PrefixExtend(b, k, d - 1);
      assert Prefix(b, k + d) == 2 * Prefix(b, k + (d - 1)) + BitAt(b, k + (d - 1));
    }
  }

  /** Rescaling an interval does not change its bitstreams. */
  lemma RescaleHolds(i: Interval, j: Interval, d: nat, b: seq<u8>)
    requires j == Interval(Shl(i.low, d), Shl(i.rng, d), i.shift + d)
    ensures Holds(j, b) <==> Holds(i, b)
  {
    var k := i.shift + 15;
    PrefixExtend(b, k, d);
    assert j.shift + 15 == k + d;
    ShlAdd(i.low, i.rng, d);
    ShlMono(i.low, Prefix(b, k), d);
    ShlMono(Prefix(b, k), i.low, d);
    ShlMono(i.low + i.rng, Prefix(b, k), d);
    ShlMono(Prefix(b, k), i.low + i.rng, d);
  }

  /** Bitstreams of a narrower interval are bitstreams of the wider one:
      the coded value never leaves an interval once chosen. */
  lemma NarrowHolds(i: Interval, t: Token, b: seq<u8>)
    requires Normal(i) && ValidToken(t)
    ensures Holds(Narrow(i, t), b) <==> Holds(Sub(i, t), b)
    ensures Holds(Narrow(i, t), b) ==> Holds(i, b)
  {
    SubrangeBounds(i.rng, t);
    RescaleHolds(Sub(i, t), Narrow(i, t), LeadingZeros16(Sub(i, t).rng), b);
  }

  lemma {:induction false} CodeHolds(ts: seq<Token>, k: nat, b: seq<u8>)
    requires AllValid(ts) && k <= |ts|
    requires Holds(Code(ts), b)
    ensures Holds(Code(ts[..k]), b)
    decreases |ts|
  {
    if k == |ts| {
      assert ts[..k] == ts;
    } else {
      var n := |ts| - 1;
      NarrowHolds(Code(ts[..n]), ts[n], b);
      CodeHolds(ts[..n], k, b);
      assert ts[..n][..k] == ts[..k];
    }
  }

  /** No carry ever leaves the front of the stream: every reachable interval lies in [0, 1). */
  lemma NarrowInUnit(i: Interval, t: Token)
    requires Normal(i) && ValidToken(t)
    requires i.low + i.rng <= Pow2(i.shift + 15)
    ensures Narrow(i, t).low + Narrow(i, t).rng <= Pow2(Narrow(i, t).shift + 15)
  {
    SubrangeBounds(i.rng, t);
    var s := Sub(i, t);
    var d := LeadingZeros16(s.rng);
    ShlShl(1, i.shift + 15, d);
    ShlAdd(s.low, s.rng, d);
    ShlMono(s.low + s.rng, Pow2(i.shift + 15), d);
    assert i.shift + 15 + d == Narrow(i, t).shift + 15;
  }
}
