/** The matching decoder (section 8.2.6 of the AV1 specification): a 32-bit window over
    the complement of the bitstream, refilled a byte at a time. */
module Reader {
  import opened Bits
  import opened RangeInterval
  import opened Cdf
  import opened EncoderState
  import opened EncoderFlush

  const WINDOW_SIZE := 32
  const LOTS_OF_BITS := 0x4000

  // Exclusive or, and the one use of it: clearing bits that are known to be set ----

  function Xor(a: nat, b: nat): nat
    decreases a + b
  {
    if a == 0 && b == 0 then 0 else 2 * Xor(a / 2, b / 2) + (a + b) % 2
  }

  predicate Aligned(x: nat, n: nat) {
    LowBits(x, n) == 0
  }

  lemma AlignedShl(q: nat, n: nat)
    ensures Aligned(Shl(q, n), n)
  {
    ShlAtLeast(1, n);
    SplitUnique(q, 0, n);
  }

  lemma AlignedSub(x: nat, y: nat, n: nat)
    requires Aligned(x, n) && Aligned(y, n) && y <= x
    ensures Aligned(x - y, n)
  {
    SplitBits(x, n);
    SplitBits(y, n);
    ShlMono(Shr(x, n), Shr(y, n), n);
    ShlAdd(Shr(x, n) - Shr(y, n), Shr(y, n), n);
    AlignedShl(Shr(x, n) - Shr(y, n), n);
  }

  lemma AlignedLess(x: nat, m: nat, n: nat)
    requires Aligned(x, m) && n <= m
    ensures Aligned(x, n)
  {
    SplitBits(x, m);
    ShlShl(Shr(x, m), m - n, n);
    AlignedShl(Shl(Shr(x, m), m - n), n);
  }

  lemma AlignedMore(x: nat, n: nat, d: nat)
    requires Aligned(x, n)
    ensures Aligned(Shl(x, d), n + d)
  {
    SplitBits(x, n);
    ShlShl(Shr(x, n), n, d);
    AlignedShl(Shr(x, n), n + d);
  }

  lemma {:induction false} XorZero(a: nat)
    ensures Xor(a, 0) == a
    decreases a
  {
    if a > 0 {
      XorZero(a / 2);
    }
  }

  /** Where the low n bits of a are all ones, exclusive or subtracts. */
  lemma {:induction false} XorOnes(a: nat, x: nat, n: nat)
    requires Aligned(a + 1, n) && x < Pow2(n)
    ensures x <= a && Xor(a, x) == a - x
    decreases n
  {
    if n == 0 {
      XorZero(a);
    } else {
      assert LowBits(a + 1, n) == 2 * LowBits((a + 1) / 2, n - 1) + (a + 1) % 2;
      assert a % 2 == 1 && (a + 1) / 2 == a / 2 + 1;
      assert Pow2(n) == 2 * Pow2(n - 1);
      hide LowBits, Shl;
      XorOnes(a / 2, x / 2, n - 1);
    }
  }

  // What the window holds ---------------------------------------------------

  lemma {:induction false} PrefixOfPart(b: seq<u8>, n: nat, k: nat)
    requires n <= |b| && (k <= 8 * n || n == |b|)
    ensures Prefix(b[..n], k) == Prefix(b, k)
  {
    if n == |b| {
      assert b[..n] == b;
    } else if k > 0 {
      PrefixOfPart(b, n, k - 1);
    }
  }

  lemma {:induction false} PrefixZeros(b: seq<u8>, k: nat, d: nat)
    requires k >= 8 * |b|
    ensures Prefix(b, k + d) == Shl(Prefix(b, k), d)
  {
    if d > 0 {
      PrefixZeros(b, k, d - 1);
      assert BitAt(b, k + (d - 1)) == 0;
      assert Prefix(b, k + d) == 2 * Prefix(b, k + (d - 1)) + BitAt(b, k + (d - 1));
    }
  }

  /** One more byte adds its value at the place where the zeros were. */
  lemma PrefixGrows(b: seq<u8>, n: nat, s: nat)
    requires n < |b|
    ensures Prefix(b[..n + 1], 8 * n + 8 + s) == Prefix(b[..n], 8 * n + 8 + s) + Shl(b[n], s)
  {
    hide Prefix, Shl;
    PrefixOfBytes(b[..n + 1], n + 1);
    PrefixOfBytes(b[..n], n);
    assert b[..n + 1][..n + 1] == b[..n + 1] && b[..n][..n] == b[..n];
    assert b[..n + 1][..n] == b[..n];
    PrefixZeros(b[..n + 1], 8 * n + 8, s);
    PrefixZeros(b[..n], 8 * n, 8 + s);
    assert 8 * n + (8 + s) == 8 * n + 8 + s;
    EightMore(Value(b[..n]), s);
    ShlAdd(256 * Value(b[..n]), b[n], s);
    ValueAppend(b[..n], b[n]);
    assert b[..n] + [b[n]] == b[..n + 1];
  }

  class Reader {
    const buf: seq<u8>
    var bptr: nat
    var dif: u32
    var rng: u16
    var cnt: int
    // The interval decoded so far; the decoder itself only needs its width.
    ghost var low: nat
    ghost var shift: nat

    ghost function At(): Interval
      reads this
    {
      Interval(low, rng, shift)
    }

    /** dif is the distance from the code to the top of the interval, less one unit,
        computed from the bytes read so far and with ones where bytes are still missing. */
    ghost predicate Window()
      reads this
    {
      && 0x8000 <= rng && bptr <= |buf|
      && 8 * bptr <= shift + 31
      && dif + 1 + Prefix(buf[..bptr], shift + 31) == Shl(low + rng, 16)
      && (bptr < |buf| ==> -15 <= cnt <= 16 && cnt == 8 * bptr - shift - 15 && Aligned(dif + 1, 16 - cnt))
    }

    ghost predicate Valid()
      reads this
    {
      Window() && cnt >= 0 && Holds(At(), buf)
    }

    constructor (b: seq<u8>)
      requires Holds(WHOLE, b)
      ensures Valid() && buf == b && At() == WHOLE
    {
      buf, bptr, dif, rng, cnt := b, 0, 0x7FFF_FFFF, 0x8000, -15;
      low, shift := 0, 0;
      new;
      hide Prefix, Shl, LowBits;
      FreshWindow(b);
      Refill();
    }

    method Refill()
      requires Window() && cnt >= -15
      modifies this`dif, this`cnt, this`bptr
      ensures Window() && cnt >= 0
    {
      hide Prefix, Shl, LowBits, Xor, Holds;
      var s := WINDOW_SIZE - 9 - (cnt + 15);
      while s >= 0 && bptr < |buf|
        invariant Window()
        invariant bptr < |buf| ==> s == 8 - cnt
        invariant bptr < |buf| || cnt >= -15
        decreases |buf| - bptr
      {
        assert s + 8 == 16 - cnt && s == shift + 31 - (8 * bptr + 8);
        PrefixGrows(buf, bptr, s);
        ByteBelow(buf[bptr], s);
        XorOnes(dif, Shl(buf[bptr], s), s + 8);
        AlignedLess(dif + 1, s + 8, s);
        AlignedShl(buf[bptr], s);
        AlignedSub(dif + 1, Shl(buf[bptr], s), s);
        dif := Xor(dif, Shl(buf[bptr], s));
        cnt := cnt + 8;
        s := s - 8;
        bptr := bptr + 1;
      }
      if bptr >= |buf| {
        cnt := LOTS_OF_BITS;
      }
    }

    /** Takes the sub-range from u down to v, counted from the top of the range. */
    method Normalize(newDif: nat, width: nat, ghost u: nat, ghost v: nat)
      requires Valid()
      requires v < u <= rng && width == u - v
      requires newDif + Shl(v, 16) == dif && newDif < Shl(width, 16)
      requires Holds(Interval(low + (rng - u), width, shift), buf)
      modifies this
      ensures Valid()
      ensures At() == Interval(Shl(old(low) + (old(rng) - u), LeadingZeros16(width)),
                               Shl(width, LeadingZeros16(width)), old(shift) + LeadingZeros16(width))
    {
      hide Prefix, Shl, LowBits, LeadingZeros16;
      LeadingZeros16Range(width);
      var d := LeadingZeros16(width);
      ghost var before := Interval(low + (rng - u), width, shift);
      ghost var after := Interval(Shl(low + (rng - u), d), Shl(width, d), shift + d);
      RescaleHolds(before, after, d, buf);
      WindowMoves(buf[..bptr], dif, newDif, low + rng, v, shift, d);
      ShlAdd(low + (rng - u), width, d);
      NewDifFits(newDif, width, d);
      if bptr < |buf| {
        AlignedShl(v, 16);
        AlignedLess(Shl(v, 16), 16, 16 - cnt);
        AlignedSub(dif + 1, Shl(v, 16), 16 - cnt);
        AlignedMore(newDif + 1, 16 - cnt, d);
      }
      cnt := cnt - d;
      dif := Shl(newDif + 1, d) - 1;
      rng := Shl(width, d);
      low, shift := Shl(low + (old(rng) - u), d), shift + d;
      if cnt < 0 {
        Refill();
      }
    }

    /** Walks down the table until the window top is no longer below the symbol. */
    method Locate(icdf: CdfTable) returns (ret: nat, u: nat, v: nat)
      requires Valid() && Codable(icdf)
      ensures ret < |icdf| && v <= Shr(dif, 16) < u
      ensures u == UpperBound(rng, TokenOf(icdf, ret)) && v == LowerBound(rng, TokenOf(icdf, ret))
    {
      hide Prefix, Shl, Shr, LowBits, LeadingZeros16, ScaleBound, UpperBound;
      var n := |icdf| - 1;
      var c := Shr(dif, WINDOW_SIZE - 16);
      TopOfWindow(buf, bptr, dif, low, rng, shift);
      ret := 0;
      u := rng;
      v := LowerBound(rng, TokenOf(icdf, 0));
      BoundsChain(rng, icdf);
      while c < v
        invariant ret <= n && c < u
        invariant u == UpperBound(rng, TokenOf(icdf, ret)) && v == LowerBound(rng, TokenOf(icdf, ret))
        decreases n - ret
      {
        u := v;
        ret := ret + 1;
        v := LowerBound(rng, TokenOf(icdf, ret));
      }
    }

    /** Decodes the one symbol whose sub-interval the bitstream lies in. */
    method Symbol(icdf: CdfTable) returns (ret: nat)
      requires Valid() && Codable(icdf)
      modifies this
      ensures Valid()
      ensures ret < |icdf| && ValidToken(TokenOf(icdf, ret))
      ensures At() == Narrow(old(At()), TokenOf(icdf, ret))
    {
      hide Prefix, Shl, Shr, LowBits, LeadingZeros16, ScaleBound;
      var u, v;
      ret, u, v := Locate(icdf);
      TopOfWindow(buf, bptr, dif, low, rng, shift);
      ChosenSymbol(At(), icdf, ret, Shr(dif, 16), buf);
      SplitTop(dif, Shr(dif, 16), u, v);
      Normalize(dif - Shl(v, WINDOW_SIZE - 16), u - v, u, v);
    }

    /** A one-bit table read without the symbol loop. */
    method Bool(f: nat) returns (val: bool)
      requires Valid() && 0 < f < 32768
      modifies this
      ensures Valid()
      ensures ValidToken(BoolToken(val, f)) && At() == Narrow(old(At()), BoolToken(val, f))
    {
      hide Prefix, Shl, Shr, LowBits, LeadingZeros16;
      var r: nat := rng;
      ghost var c := Shr(dif, 16);
      TopOfWindow(buf, bptr, dif, low, rng, shift);
      ScaleBoundRoom(r, f);
      var v := ScaleBound(r, f) + EC_MIN_PROB;
      var vw := Shl(v, WINDOW_SIZE - 16);
      SplitBits(dif, 16);
      assert f / 64 <= 511 && 0 / 64 == 0 && (r / 256) * 0 == 0;
      ShlMono(v, c, 16);
      ShlMono(c + 1, v, 16);
      ShlAdd(c, 1, 16);
      if dif >= vw {
        SplitTop(dif, c, r, v);
        Normalize(dif - vw, r - v, r, v);
        val := false;
      } else {
        SplitTop(dif, c, v, 0);
        ShlAdd(0, 0, 16);
        Normalize(dif, v, v, 0);
        val := true;
      }
    }
  }

  lemma BoundsChain(rng: nat, c: CdfTable)
    requires 0x8000 <= rng && Codable(c)
    ensures UpperBound(rng, TokenOf(c, 0)) == rng
    ensures LowerBound(rng, TokenOf(c, |c| - 1)) == 0
    ensures forall s :: 0 <= s < |c| - 1 ==> LowerBound(rng, TokenOf(c, s)) == UpperBound(rng, TokenOf(c, s + 1))
  {
    hide ScaleBound;
    SymbolsTile(rng, c);
  }

  /** The symbol whose bounds enclose the window top is the one the stream was coded with. */
  lemma ChosenSymbol(i: Interval, c: CdfTable, s: nat, top: nat, b: seq<u8>)
    requires Normal(i) && Codable(c) && s < |c|
    requires top + 1 + Prefix(b, i.shift + 15) == i.low + i.rng
    requires LowerBound(i.rng, TokenOf(c, s)) <= top < UpperBound(i.rng, TokenOf(c, s))
    ensures ValidToken(TokenOf(c, s)) && UpperBound(i.rng, TokenOf(c, s)) <= i.rng
    ensures Holds(Sub(i, TokenOf(c, s)), b)
  {
    TokenOfValid(c, s);
    SubrangeBounds(i.rng, TokenOf(c, s));
  }

  function BoolToken(val: bool, f: nat): Token {
    if val then Token(f, 0, 1) else Token(32768, f, 2)
  }

  lemma FreshWindow(b: seq<u8>)
    ensures 0x8000_0000 + Prefix(b[..0], 31) == Shl(0x8000, 16)
    ensures Aligned(0x8000_0000, 31)
  {
    hide LowBits, Shl;
    assert b[..0] == [] && Prefix([], 0) == 0;
    PrefixZeros([], 0, 31);
    ShlAdd(0, 0, 31);
    AlignedShl(1, 31);
    ShlShl(1, 15, 16);
    Shl16Values();
  }

  lemma Shl16Values()
    ensures Shl(1, 15) == 0x8000
    ensures Shl(0x8000, 16) == 0x8000_0000 && Shl(0x1_0000, 16) == 0x1_0000_0000
  {
    Pow2Values();
    Shl8(0x8000);
    Shl8(0x80_0000);
    ShlShl(0x8000, 8, 8);
    ShlAdd(0x8000, 0x8000, 16);
    hide Shl;
  }

  lemma ByteBelow(x: u8, s: nat)
    ensures Shl(x, s) < Pow2(s + 8)
  {
    EightMore(1, s);
    ShlMono(x, 256, s);
    ShlAtLeast(1, s);
  }

  /** The top sixteen window bits: one less than the distance from the code to the top. */
  lemma TopOfWindow(b: seq<u8>, n: nat, dif: nat, low: nat, rng: nat, shift: nat)
    requires n <= |b| && (8 * n >= shift + 15 || n == |b|)
    requires dif + 1 + Prefix(b[..n], shift + 31) == Shl(low + rng, 16)
    requires Holds(Interval(low, rng, shift), b)
    ensures Shr(dif, 16) + 1 + Prefix(b, shift + 15) == low + rng && Shr(dif, 16) < rng
  {
    hide Prefix, Shl, Shr, LowBits;
    var q := Prefix(b, shift + 15);
    PrefixOfPart(b, n, shift + 15);
    PrefixExtend(b[..n], shift + 15, 16);
    assert shift + 15 + 16 == shift + 31;
    TopBits(dif, low + rng, q, Prefix(b[..n], shift + 31));
  }

  lemma TopBits(dif: nat, top: nat, q: nat, p: nat)
    requires dif + 1 + p == Shl(top, 16) && q < top
    requires Shl(q, 16) <= p < Shl(q, 16) + Pow2(16)
    ensures Shr(dif, 16) + 1 + q == top
  {
    hide Shl, Shr, LowBits;
    ShlAdd(top - q - 1, q + 1, 16);
    ShlAdd(q, 1, 16);
    SplitUnique(top - q - 1, Pow2(16) - 1 - (p - Shl(q, 16)), 16);
  }

  lemma SplitTop(dif: nat, c: nat, u: nat, v: nat)
    requires c == Shr(dif, 16) && v <= c < u
    ensures Shl(v, 16) <= dif && dif - Shl(v, 16) < Shl(u - v, 16)
  {
    hide Shl, Shr, LowBits;
    SplitBits(dif, 16);
    ShlMono(v, c, 16);
    ShlAdd(u - v, v, 16);
    ShlMono(c, u, 16);
  }

  /** Removing v from the top and shifting left by d keeps the window equation. */
  lemma WindowMoves(b: seq<u8>, dif: nat, newDif: nat, top: nat, v: nat, shift: nat, d: nat)
    requires newDif + Shl(v, 16) == dif && v <= top
    requires 8 * |b| <= shift + 31
    requires dif + 1 + Prefix(b, shift + 31) == Shl(top, 16)
    ensures Shl(newDif + 1, d) + Prefix(b, shift + d + 31) == Shl(Shl(top - v, d), 16)
  {
    hide Shl, Prefix;
    PrefixZeros(b, shift + 31, d);
    assert shift + 31 + d == shift + d + 31;
    ShlAdd(top - v, v, 16);
    ShlAdd(newDif + 1, Prefix(b, shift + 31), d);
    ShlShl(top - v, 16, d);
    ShlShl(top - v, d, 16);
    assert 16 + d == d + 16;
  }

  lemma NewDifFits(newDif: nat, width: nat, d: nat)
    requires newDif < Shl(width, 16) && Shl(width, d) < 0x1_0000
    ensures 0 < Shl(newDif + 1, d) <= 0x1_0000_0000
  {
    hide Shl;
    ShlMono(newDif + 1, Shl(width, 16), d);
    ShlShl(width, 16, d);
    ShlShl(width, d, 16);
    assert 16 + d == d + 16;
    ShlMono(Shl(width, d), 0x1_0000, 16);
    Shl16Values();
  }
}
