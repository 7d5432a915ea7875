/** Adaptive inverse CDFs: what keeps one usable, and how coding a symbol changes it. */
module Cdf {
  import opened Bits
  import opened RangeInterval

  /** Inverse CDF entries; the last word holds the adaptation count instead. */
  type CdfTable = seq<nat>

  /** What `symbol` demands of a table before it codes with it. */
  ghost predicate Codable(c: CdfTable) {
    && 1 <= |c| <= 16
    && c[|c| - 1] < 64
    && (forall i :: 0 <= i < |c| ==> c[i] < 32768)
    && (forall i, j :: 0 <= i < j < |c| ==> c[j] / 64 <= c[i] / 64)
  }

  /** The form adaptation keeps: exactly sorted, with the counter still in range. */
  ghost predicate Adaptable(c: CdfTable) {
    && 1 <= |c| <= 16
    && c[|c| - 1] <= 32
    && (forall i :: 0 <= i < |c| - 1 ==> c[i] < 32768)
    && (forall i, j :: 0 <= i < j < |c| - 1 ==> c[j] <= c[i])
  }

  lemma AdaptableIsCodable(c: CdfTable)
    requires Adaptable(c)
    ensures Codable(c)
  {
    forall i, j | 0 <= i < j < |c| ensures c[j] / 64 <= c[i] / 64 {
      if j < |c| - 1 {
        assert c[j] <= c[i];
      } else {
        assert c[j] / 64 == 0;
      }
    }
  }

  function TokenOf(c: CdfTable, s: nat): Token
    requires s < |c|
  {
    Token(if s > 0 then c[s - 1] else 32768, c[s], |c| - s)
  }

  lemma TokenOfValid(c: CdfTable, s: nat)
    requires Codable(c) && s < |c|
    ensures ValidToken(TokenOf(c, s))
  {
    if s == 0 {
      assert c[0] / 64 <= 512;
    } else {
      assert c[s] / 64 <= c[s - 1] / 64;
    }
  }

  // The symbols' sub-ranges tile the range -----------------------------------

  ghost function SymbolLow(rng: nat, c: CdfTable, s: nat): int
    requires s < |c|
  {
    rng - UpperBound(rng, TokenOf(c, s))
  }

  ghost function SymbolHigh(rng: nat, c: CdfTable, s: nat): int
    requires s < |c|
  {
    rng - LowerBound(rng, TokenOf(c, s))
  }

  /** Left to right the sub-ranges start at 0, abut, end at rng, and each is at least four wide. */
  lemma SymbolsTile(rng: nat, c: CdfTable)
    requires 0x8000 <= rng && Codable(c)
    ensures SymbolLow(rng, c, 0) == 0
    ensures SymbolHigh(rng, c, |c| - 1) == rng
    ensures forall s :: 0 <= s < |c| - 1 ==> SymbolHigh(rng, c, s) == SymbolLow(rng, c, s + 1)
    ensures forall s :: 0 <= s < |c| ==> SymbolLow(rng, c, s) + 4 <= SymbolHigh(rng, c, s)
  {
    forall s | 0 <= s < |c| ensures SymbolLow(rng, c, s) + 4 <= SymbolHigh(rng, c, s) {
      TokenOfValid(c, s);
      SubrangeBounds(rng, TokenOf(c, s));
    }
    var f := c[|c| - 1] / 64;
    assert f == 0;
    assert (rng / 256) * f == 0;
  }

  lemma {:induction false} SymbolsOrdered(rng: nat, c: CdfTable, s: nat, t: nat)
    requires 0x8000 <= rng && Codable(c)
    requires s < t < |c|
    ensures SymbolHigh(rng, c, s) <= SymbolLow(rng, c, t)
    decreases t
  {
    SymbolsTile(rng, c);
    if s < t - 1 {
      SymbolsOrdered(rng, c, s, t - 1);
    }
    assert SymbolHigh(rng, c, t - 1) == SymbolLow(rng, c, t - 1 + 1);
  }

  /** A bitstream picks out at most one symbol of a table. */
  lemma SymbolUnique(i: Interval, c: CdfTable, s: nat, t: nat, b: seq<u8>)
    requires Normal(i) && Codable(c) && s < |c| && t < |c|
    requires ValidToken(TokenOf(c, s)) && ValidToken(TokenOf(c, t))
    requires Holds(Narrow(i, TokenOf(c, s)), b) && Holds(Narrow(i, TokenOf(c, t)), b)
    ensures s == t
  {
    NarrowHolds(i, TokenOf(c, s), b);
    NarrowHolds(i, TokenOf(c, t), b);
    SubrangeBounds(i.rng, TokenOf(c, s));
    SubrangeBounds(i.rng, TokenOf(c, t));
    if s < t {
      SymbolsOrdered(i.rng, c, s, t);
    } else if t < s {
      SymbolsOrdered(i.rng, c, t, s);
    }
  }

  // Adaptation ---------------------------------------------------------------

  const CDF_LEN_MAX := 16

  function Rate(c: CdfTable): nat
    requires |c| > 0
  {
    3 + (if |c| / 2 < 2 then |c| / 2 else 2) + c[|c| - 1] / 16
  }

  /** An entry moves a 2^-rate part of its way to 0 at and after val, to 32768 before it. */
  function AdaptedEntry(c: CdfTable, val: nat, i: nat): nat
    requires i < |c| && (i < |c| - 1 ==> c[i] <= 32768) && c[|c| - 1] < 64
  {
    if i == |c| - 1 then c[i] + 1 - c[i] / 32
    else if i >= val then ShrGap(c[i], 0, Rate(c)); c[i] - Shr(c[i], Rate(c))
    else c[i] + Shr(32768 - c[i], Rate(c))
  }

  function Adapted(c: CdfTable, val: nat): (d: CdfTable)
    requires |c| > 0 && c[|c| - 1] < 64
    requires forall i :: 0 <= i < |c| - 1 ==> c[i] <= 32768
    ensures |d| == |c|
    ensures forall i :: 0 <= i < |c| ==> d[i] == AdaptedEntry(c, val, i)
  {
    seq(|c|, i requires 0 <= i < |c| => AdaptedEntry(c, val, i))
  }

  /** Into how many parts the way is divided: twice as many for tables of four symbols and more,
      twice as many after 16 symbols coded, and again after 32. */
  function Parts(n: nat, count: nat): nat {
    (if n >= 4 then 32 else 16) * (if count < 16 then 1 else if count < 32 then 2 else 4)
  }

  lemma AdaptedMoves(c: CdfTable, val: nat, i: nat)
    requires Adaptable(c) && i < |c| - 1
    ensures var d, parts := Adapted(c, val), Parts(|c|, c[|c| - 1]);
      && (i >= val ==> c[i] - d[i] == c[i] / parts)
      && (i < val ==> d[i] - c[i] == (32768 - c[i]) / parts)
      && d[|c| - 1] == (if c[|c| - 1] < 32 then c[|c| - 1] + 1 else 32)
  {
    hide Shr;
    ShrIsDivision(c[i], Rate(c));
    ShrIsDivision(32768 - c[i], Rate(c));
  }

  lemma ShrIsDivision(x: nat, n: nat)
    requires 4 <= n <= 7
    ensures Shr(x, n) == x / (if n == 4 then 16 else if n == 5 then 32 else if n == 6 then 64 else 128)
  {
    assert Shr(x, 4) == x / 2 / 2 / 2 / 2;
    assert n > 4 ==> Shr(x, n) == Shr(x / 2 / 2 / 2 / 2, n - 4);
    assert x / 2 / 2 / 2 / 2 == x / 16;
  }

  /** Any number of adaptations keep a table sorted, below 32768 and its count at most 32. */
  lemma AdaptedStays(c: CdfTable, val: nat)
    requires Adaptable(c)
    ensures Adaptable(Adapted(c, val))
  {
    var d := Adapted(c, val);
    forall i | 0 <= i < |c| - 1 ensures d[i] < 32768 {
      ShrGap(c[i], 0, Rate(c));
      ShrGap(32768 - c[i], 0, Rate(c));
    }
    forall i, j | 0 <= i < j < |c| - 1 ensures d[j] <= d[i] {
      assert c[j] <= c[i];
      ShrGap(c[i], c[j], Rate(c));
      ShrGap(32768 - c[j], 32768 - c[i], Rate(c));
    }
  }

  function Learned(c: CdfTable, val: nat): (d: CdfTable)
    requires Adaptable(c)
    ensures Adaptable(d) && |d| == |c|
  {
    AdaptedStays(c, val);
    Adapted(c, val)
  }

  function AdaptedAll(c: CdfTable, vals: seq<nat>): CdfTable
    requires Adaptable(c)
    ensures Adaptable(AdaptedAll(c, vals))
    ensures |AdaptedAll(c, vals)| == |c|
    decreases |vals|
  {
    if vals == [] then c
    else Learned(AdaptedAll(c, vals[..|vals| - 1]), vals[|vals| - 1])
  }

  /** Adapting to a symbol never narrows that symbol's own sub-range. */
  lemma AdaptedFavours(c: CdfTable, val: nat, rng: nat)
    requires Adaptable(c) && val < |c| && 0x8000 <= rng
    ensures SymbolHigh(rng, Adapted(c, val), val) - SymbolLow(rng, Adapted(c, val), val)
         >= SymbolHigh(rng, c, val) - SymbolLow(rng, c, val)
  {
    var d := Adapted(c, val);
    AdaptedStays(c, val);
    AdaptableIsCodable(c);
    AdaptableIsCodable(d);
    if val == |c| - 1 {
      SymbolsTile(rng, c);
      SymbolsTile(rng, d);
    } else {
      ScaleBoundMono(rng, d[val], c[val]);
    }
    if val > 0 {
      ScaleBoundMono(rng, c[val - 1], d[val - 1]);
    }
  }

  method UpdateCdf(cdf: array<nat>, val: nat)
    requires cdf.Length > 0 ==> cdf[cdf.Length - 1] < 64
    requires cdf.Length <= CDF_LEN_MAX
    requires forall i :: 0 <= i < cdf.Length - 1 ==> cdf[i] <= 32768
    modifies cdf
    ensures cdf.Length > 0 ==> cdf[..] == Adapted(old(cdf[..]), val)
  {
    var nsymbs := cdf.Length;
    if nsymbs == 0 {
      return;
    }
    ghost var was := cdf[..];
    var rate := 3 + if nsymbs / 2 < 2 then nsymbs / 2 else 2;
    var count := cdf[nsymbs - 1];
    rate := rate + count / 16;
    cdf[nsymbs - 1] := count + 1 - count / 32;
    var last := if nsymbs - 1 < CDF_LEN_MAX - 1 then nsymbs - 1 else CDF_LEN_MAX - 1;
    for i := 0 to last
      invariant forall k :: 0 <= k < i ==> cdf[k] == AdaptedEntry(was, val, k)
      invariant forall k :: i <= k < nsymbs - 1 ==> cdf[k] == was[k]
      invariant cdf[nsymbs - 1] == AdaptedEntry(was, val, nsymbs - 1)
    {
      if i >= val {
        ShrGap(cdf[i], 0, rate);
        cdf[i] := cdf[i] - Shr(cdf[i], rate);
      } else {
        cdf[i] := cdf[i] + Shr(32768 - cdf[i], rate);
      }
    }
  }
}
