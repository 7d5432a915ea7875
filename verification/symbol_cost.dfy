/** What coding a symbol would add to the fractional bit count, computed by any writer without
    coding it. */
module SymbolCost {
  import opened Bits
  import opened RangeInterval
  import opened Cdf
  import opened BitCost

  method SymbolWidth(range: u16, cdf: CdfTable, s: nat) returns (r: nat)
    requires 0x8000 <= range && Codable(cdf) && s < |cdf|
    ensures r == UpperBound(range, TokenOf(cdf, s)) - LowerBound(range, TokenOf(cdf, s))
  {
    TokenOfValid(cdf, s);
    SubrangeBounds(range, TokenOf(cdf, s));
    var rng, fh := range / 256, cdf[s] / 64;
    if s > 0 {
      var fl := cdf[s - 1] / 64;
      r := rng * fl / 2 - rng * fh / 2 + EC_MIN_PROB;
    } else {
      r := range - rng * fh / 2 - (|cdf| - s - 1) * EC_MIN_PROB;
    }
  }

  /** Eighths of a bit by which a range narrowed to width r grows the count. */
  function Growth(rng: nat, r: nat): int
    requires 0 < r < 0x1_0000
  {
    8 * LeadingZeros16(r) + Correction(rng) - Correction(Shl(r, LeadingZeros16(r)))
  }

  lemma GrowthRange(rng: nat, r: nat)
    requires 0x8000 <= rng < 0x1_0000 && 0 < r <= rng
    ensures 0 <= Growth(rng, r) <= 127
    ensures LeadingZeros16(r) == 0 ==> Correction(r) <= Correction(rng)
    ensures Correction(rng) <= 7 && Correction(Shl(r, LeadingZeros16(r))) <= 7
  {
    hide Correction;
    LeadingZeros16Range(r);
    var d := LeadingZeros16(r);
    CorrectionMono(rng, rng);
    CorrectionMono(Shl(r, d), Shl(r, d));
    if d == 0 {
      CorrectionMono(r, rng);
    }
  }

  /** The cost is right for any fields a writer may have, even where 32-bit subtractions wrap.
      None of them does, exactly when bits are left in the window or the range is narrow. */
  method SymbolBits(range: u16, cnt: int, s: nat, cdf: CdfTable) returns (cost: nat, inRange: bool)
    requires 0x8000 <= range && -9 <= cnt <= -1 && Codable(cdf) && s < |cdf|
    ensures ValidToken(TokenOf(cdf, s))
    ensures var r := UpperBound(range, TokenOf(cdf, s)) - LowerBound(range, TokenOf(cdf, s));
      0 < r <= range && cost == Growth(range, r)
    ensures inRange <==> cnt > -9 || range <= 0x8B95
  {
    hide Correction, Shl, LeadingZeros16, ScaleBound, UpperBound, LowerBound, Codable;
    TokenOfValid(cdf, s);
    SubrangeBounds(range, TokenOf(cdf, s));
    var r: u16 := SymbolWidth(range, cdf, s);
    LeadingZeros16Range(r);
    GrowthRange(range, r);
    CorrectionZero(range);
    var pre, preOk := FracCompute(cnt + 9, range);
    var d := LeadingZeros16(r);
    var c, bits := cnt, 0;
    var sh := c + d;
    if sh >= 0 {
      c := c + 16;
      if sh >= 8 {
        bits := bits + 8;
        c := c - 8;
      }
      bits := bits + 8;
      sh := c + d - 24;
    }
    assert bits + sh + 9 == cnt + d + 9;
    var width := Shl(r, d);
    assert d == 0 ==> width == r by { ShlByNone(r); }
    var post, postOk := FracCompute(bits + sh + 9, width);
    cost := if post < pre then post - pre + WRAP else post - pre;
    inRange := preOk && postOk && post >= pre;
  }

  lemma ShlByNone(x: nat)
    ensures Shl(x, 0) == x
  {
  }

  /** For a writer whose range is that of its tokens, the cost is the increase of the count. */
  lemma GrowthIsIncrease(ts: seq<Token>, t: Token)
    requires AllValid(ts) && ValidToken(t)
    ensures AllValid(ts + [t])
    ensures var r := UpperBound(Code(ts).rng, t) - LowerBound(Code(ts).rng, t);
      0 < r <= Code(ts).rng && Growth(Code(ts).rng, r) == FracBits(ts + [t]) - FracBits(ts)
  {
    hide Correction, Shl, LeadingZeros16, ScaleBound, UpperBound, LowerBound, Code;
    CodeSnoc(ts, t);
    SubrangeBounds(Code(ts).rng, t);
  }
}
