/** Flat-probability codes: literals, quasi-uniform, finite subexponential, and the
    recentring of a value around a reference, with the AV1 decoding process for each. */
module Subexp {
  import opened Bits
  import opened RangeInterval
  import opened Cdf
  import opened Encoder

  // What is written ---------------------------------------------------------

  /** The low bits of s, most significant first. */
  function LiteralCode(bits: nat, s: nat): (r: seq<bool>)
    ensures |r| == bits
  {
    if bits == 0 then [] else [Shr(s, bits - 1) % 2 == 1] + LiteralCode(bits - 1, s)
  }

  /** `32 - leading_zeros`. */
  function BitLength(n: nat): nat {
    if n == 0 then 0 else 1 + BitLength(n / 2)
  }

  lemma {:induction false} BitLengthBounds(n: nat)
    requires n > 0
    ensures BitLength(n) > 0 && Pow2(BitLength(n) - 1) <= n < Pow2(BitLength(n))
  {
    if n > 1 {
      BitLengthBounds(n / 2);
    } else {
      assert BitLength(1) == 1 && Pow2(0) == 1 && Pow2(1) == 2;
    }
  }

  /** How many values the quasi-uniform code gives the shorter form. */
  function ShortCount(n: nat): (m: nat)
    requires n > 0
    ensures m + n == Pow2(BitLength(n))
  {
    BitLengthBounds(n);
    Pow2(BitLength(n)) - n
  }

  function QuniformCode(n: nat, v: nat): seq<bool>
    requires v < n
  {
    var l, m := BitLength(n), ShortCount(n);
    BitLengthBounds(n);
    if n <= 1 then []
    else if v < m then LiteralCode(l - 1, v)
    else LiteralCode(l - 1, m + (v - m) / 2) + LiteralCode(1, (v - m) % 2)
  }

  function Width(k: nat, i: nat): nat {
    if i != 0 then k + i - 1 else k
  }

  function SubexpCode(n: nat, k: nat, v: nat, i: nat, mk: nat): seq<bool>
    requires mk <= v < n
    decreases n - mk
  {
    var b := Width(k, i);
    var a := Pow2(b);
    ShlAtLeast(1, b);
    if n <= mk + 3 * a then QuniformCode(n - mk, v - mk)
    else if v >= mk + a then [true] + SubexpCode(n, k, v, i + 1, mk + a)
    else [false] + LiteralCode(b, v - mk)
  }

  lemma SubexpStep(n: nat, k: nat, v: nat, i: nat, mk: nat)
    requires mk <= v < n
    ensures SubexpCode(n, k, v, i, mk) == (
      if n <= mk + 3 * Pow2(Width(k, i)) then QuniformCode(n - mk, v - mk)
      else if v >= mk + Pow2(Width(k, i)) then [true] + SubexpCode(n, k, v, i + 1, mk + Pow2(Width(k, i)))
      else [false] + LiteralCode(Width(k, i), v - mk))
  {
  }

  function Recenter(r: nat, v: nat): nat {
    if v > 2 * r then v else if v >= r then 2 * (v - r) else 2 * (r - v) - 1
  }

  /** The value recentred around whichever end of [0, n) the reference is nearer to. */
  function RecenterFinite(n: nat, r: nat, v: nat): nat
    requires v < n && r < n
  {
    if 2 * r <= n then Recenter(r, v) else Recenter(n - 1 - r, n - 1 - v)
  }

  function RefSubexpCode(n: nat, k: nat, r: nat, v: nat): seq<bool>
    requires v < n && r < n
  {
    RecenterInRange(n, r, v);
    SubexpCode(n, k, RecenterFinite(n, r, v), 0, 0)
  }

  // How AV1 reads it (sections 4.10.7 and 5.9.26 to 5.9.29 of the AV1 specification) ----

  datatype Read = Value(value: nat, rest: seq<bool>) | EndOfData

  function ReadLiteral(bits: nat, s: seq<bool>): Read
    decreases bits
  {
    if bits == 0 then Value(0, s)
    else if s == [] then EndOfData
    else match ReadLiteral(bits - 1, s[1..])
      case Value(x, rest) => Value((if s[0] then Pow2(bits - 1) else 0) + x, rest)
      case EndOfData => EndOfData
  }

  function ReadQuniform(n: nat, s: seq<bool>): Read
    requires n > 0
  {
    var w, m := BitLength(n), ShortCount(n);
    BitLengthBounds(n);
    match ReadLiteral(w - 1, s)
    case EndOfData => EndOfData
    case Value(v, rest) =>
      if v < m then Value(v, rest)
      else match ReadLiteral(1, rest)
        case EndOfData => EndOfData
        case Value(extra, rest') => Value(2 * v - m + extra, rest')
  }

  function ReadSubexp(n: nat, k: nat, i: nat, mk: nat, s: seq<bool>): Read
    requires mk < n
    decreases n - mk
  {
    var b := Width(k, i);
    var a := Pow2(b);
    ShlAtLeast(1, b);
    if n <= mk + 3 * a then Add(ReadQuniform(n - mk, s), mk)
    else if s == [] then EndOfData
    else if s[0] then ReadSubexp(n, k, i + 1, mk + a, s[1..])
    else Add(ReadLiteral(b, s[1..]), mk)
  }

  function Add(r: Read, mk: nat): Read {
    match r
    case EndOfData => EndOfData
    case Value(v, rest) => Value(v + mk, rest)
  }

  function InverseRecenter(r: nat, v: nat): int {
    if v > 2 * r then v else if v % 2 == 1 then r - (v + 1) / 2 else r + v / 2
  }

  function InverseRecenterFinite(n: nat, r: nat, x: nat): int
    requires r < n
  {
    if 2 * r <= n then InverseRecenter(r, x) else n - 1 - InverseRecenter(n - 1 - r, x)
  }

  // Reading undoes writing --------------------------------------------------

  lemma {:induction false} LiteralRoundTrip(bits: nat, s: nat, tail: seq<bool>)
    ensures ReadLiteral(bits, LiteralCode(bits, s) + tail) == Value(LowBits(s, bits), tail)
  {
    if bits > 0 {
      LiteralRoundTrip(bits - 1, s, tail);
      var c := LiteralCode(bits, s) + tail;
      assert c[0] == (Shr(s, bits - 1) % 2 == 1);
      assert c[1..] == LiteralCode(bits - 1, s) + tail;
      TopBit(s, bits - 1);
      ShlAdd(0, 0, bits - 1);
    } else {
      assert LiteralCode(0, s) + tail == tail;
    }
  }

  lemma {:induction false} TopBit(s: nat, n: nat)
    ensures LowBits(s, n + 1) == Shl(Shr(s, n) % 2, n) + LowBits(s, n)
    decreases n
  {
    if n > 0 {
      TopBit(s / 2, n - 1);
    } else {
      assert LowBits(s, 1) == 2 * LowBits(s / 2, 0) + s % 2;
    }
    ShlAdd(0, 0, n);
  }

  lemma SmallLiteral(bits: nat, s: nat, tail: seq<bool>)
    requires s < Pow2(bits)
    ensures ReadLiteral(bits, LiteralCode(bits, s) + tail) == Value(s, tail)
  {
    LiteralRoundTrip(bits, s, tail);
    ShlAdd(0, 0, bits);
    SplitUnique(0, s, bits);
  }

  lemma QuniformRoundTrip(n: nat, v: nat, tail: seq<bool>)
    requires v < n
    ensures ReadQuniform(n, QuniformCode(n, v) + tail) == Value(v, tail)
  {
    hide LiteralCode, ReadLiteral;
    var l, m := BitLength(n), ShortCount(n);
    BitLengthBounds(n);
    assert Pow2(l) == 2 * Pow2(l - 1);
    if n == 1 {
      assert l == 1 && Pow2(0) == 1 && Pow2(1) == 2;
      SmallLiteral(0, 0, tail);
      NothingWritten(tail);
    } else if v < m {
      SmallLiteral(l - 1, v, tail);
    } else {
      var extra := LiteralCode(1, (v - m) % 2);
      assert Pow2(1) == 2 * Pow2(0) && Pow2(0) == 1;
      SmallLiteral(l - 1, m + (v - m) / 2, extra + tail);
      SmallLiteral(1, (v - m) % 2, tail);
      assert QuniformCode(n, v) + tail == LiteralCode(l - 1, m + (v - m) / 2) + (extra + tail);
    }
  }

  lemma NothingWritten(tail: seq<bool>)
    ensures LiteralCode(0, 0) + tail == tail && [] + tail == tail
  {
  }

  lemma {:induction false} SubexpRoundTrip(n: nat, k: nat, v: nat, i: nat, mk: nat, tail: seq<bool>)
    requires mk <= v < n
    ensures ReadSubexp(n, k, i, mk, SubexpCode(n, k, v, i, mk) + tail) == Value(v, tail)
    decreases n - mk
  {
    hide LiteralCode, ReadLiteral, QuniformCode, ReadQuniform, Shl;
    var b := Width(k, i);
    var a := Pow2(b);
    ShlAtLeast(1, b);
    var code := SubexpCode(n, k, v, i, mk);
    if n <= mk + 3 * a {
      QuniformRoundTrip(n - mk, v - mk, tail);
    } else if v >= mk + a {
      SubexpRoundTrip(n, k, v, i + 1, mk + a, tail);
      assert (code + tail)[0] && (code + tail)[1..] == code[1..] + tail;
    } else {
      SmallLiteral(b, v - mk, tail);
      assert !(code + tail)[0] && (code + tail)[1..] == LiteralCode(b, v - mk) + tail;
    }
  }

  lemma RecenterInRange(n: nat, r: nat, v: nat)
    requires v < n && r < n
    ensures RecenterFinite(n, r, v) < n
  {
  }

  /** Recentring is a bijection of [0, n): its inverse undoes it on both sides. */
  lemma RecenterBijection(n: nat, r: nat, v: nat)
    requires v < n && r < n
    ensures RecenterFinite(n, r, v) < n
    ensures InverseRecenterFinite(n, r, RecenterFinite(n, r, v)) == v
    ensures 0 <= InverseRecenterFinite(n, r, v) < n
    ensures RecenterFinite(n, r, InverseRecenterFinite(n, r, v)) == v
  {
    RecenterInverse(if 2 * r <= n then r else n - 1 - r, if 2 * r <= n then v else n - 1 - v);
    RecenterInverse(if 2 * r <= n then r else n - 1 - r, v);
  }

  function Distance(a: nat, b: nat): nat {
    if a < b then b - a else a - b
  }

  /** Of two values the one nearer to the reference is recentred to the smaller. Of two as near, it
      is the one on the side of the end that the reference is nearer to. */
  lemma NearerIsSmaller(n: nat, r: nat, v: nat, w: nat)
    requires v < n && w < n && r < n
    ensures Distance(v, r) < Distance(w, r) ==> RecenterFinite(n, r, v) < RecenterFinite(n, r, w)
    ensures v < r < w && Distance(v, r) == Distance(w, r) ==>
      (RecenterFinite(n, r, v) < RecenterFinite(n, r, w) <==> 2 * r <= n)
  {
  }

  function Ones(j: nat): seq<bool> {
    if j == 0 then [] else [true] + Ones(j - 1)
  }

  /** A small value is a zero and its k low bits. */
  lemma SmallShape(n: nat, k: nat, v: nat)
    requires v < Pow2(k) && n > 3 * Pow2(k)
    ensures SubexpCode(n, k, v, 0, 0) == [false] + LiteralCode(k, v)
  {
  }

  /** A larger one is a one for every doubling, a zero, and the bits below its highest: as long as
      that leaves three such ranges, else the quasi-uniform code takes over. */
  lemma LargeShape(n: nat, k: nat, v: nat, j: nat)
    requires Pow2(k + j) <= v < Pow2(k + j + 1) && v < n && n > Pow2(k + j + 2)
    ensures SubexpCode(n, k, v, 0, 0) == Ones(j + 1) + ([false] + LiteralCode(k + j, v - Pow2(k + j)))
  {
    hide LiteralCode, SubexpCode, Shl;
    Pow2Mono(k, k + j);
    Pow2Mono(k + 2, k + j + 2);
    FirstOne(n, k, v);
    LargeShapeFrom(n, k, v, 0, j);
    OnesThen(j, [false] + LiteralCode(k + j, v - Pow2(k + j)));
  }

  lemma FirstOne(n: nat, k: nat, v: nat)
    requires Pow2(k) <= v < n && n > Pow2(k + 2)
    ensures SubexpCode(n, k, v, 0, 0) == [true] + SubexpCode(n, k, v, 1, Pow2(k))
  {
    hide QuniformCode, Shl, SubexpCode;
    Doubles(k);
    Doubles(k + 1);
    SubexpStep(n, k, v, 0, 0);
  }

  lemma OnesThen(j: nat, rest: seq<bool>)
    ensures Ones(j + 1) + rest == [true] + (Ones(j) + rest)
  {
  }

  lemma Doubles(n: nat)
    ensures Pow2(n + 1) == 2 * Pow2(n)
  {
  }

  lemma {:induction false} LargeShapeFrom(n: nat, k: nat, v: nat, i: nat, j: nat)
    requires i <= j && Pow2(k + j) <= v < Pow2(k + j + 1) && v < n && n > Pow2(k + j + 2)
    requires Pow2(k + i) <= v
    ensures SubexpCode(n, k, v, i + 1, Pow2(k + i)) ==
      Ones(j - i) + ([false] + LiteralCode(k + j, v - Pow2(k + j)))
    decreases j - i
  {
    hide LiteralCode, QuniformCode, Shl, SubexpCode;
    Doubles(k + i);
    Doubles(k + i + 1);
    Pow2Mono(k + i + 2, k + j + 2);
    SubexpStep(n, k, v, i + 1, Pow2(k + i));
    if i < j {
      Pow2Mono(k + i + 1, k + j);
      LargeShapeFrom(n, k, v, i + 1, j);
    }
  }

  lemma RecenterInverse(r: nat, v: nat)
    ensures InverseRecenter(r, Recenter(r, v)) == v
    ensures InverseRecenter(r, v) >= 0 && Recenter(r, InverseRecenter(r, v)) == v
  {
    if v > 2 * r {
    } else if v % 2 == 1 {
      var k := v / 2;
      assert v == 2 * k + 1 && InverseRecenter(r, v) == r - (k + 1);
    } else {
      var k := v / 2;
      assert v == 2 * k && InverseRecenter(r, v) == r + k;
    }
    if v > 2 * r {
    } else if v >= r {
      assert InverseRecenter(r, 2 * (v - r)) == r + (v - r);
    } else {
      var k := r - v - 1;
      assert Recenter(r, v) == 2 * k + 1;
      assert InverseRecenter(r, 2 * k + 1) == r - (k + 1);
    }
  }

  /** The AV1 decoding process recovers an unsigned value coded against a reference. */
  lemma RefSubexpRoundTrip(n: nat, k: nat, r: nat, v: nat, tail: seq<bool>)
    requires v < n && r < n
    ensures var d := ReadSubexp(n, k, 0, 0, RefSubexpCode(n, k, r, v) + tail);
      d.Value? && d.rest == tail && InverseRecenterFinite(n, r, d.value) == v
  {
    RecenterBijection(n, r, v);
    SubexpRoundTrip(n, k, RecenterFinite(n, r, v), 0, 0, tail);
  }

  /** And a signed value in [low, high), offset to start at zero. */
  lemma SignedRefSubexpRoundTrip(low: int, high: int, k: nat, r: int, v: int, tail: seq<bool>)
    requires low <= v < high && low <= r < high
    ensures var d := ReadSubexp(high - low, k, 0, 0, RefSubexpCode(high - low, k, r - low, v - low) + tail);
      d.Value? && d.rest == tail && InverseRecenterFinite(high - low, r - low, d.value) + low == v
  {
    hide SubexpCode, ReadSubexp;
    RefSubexpRoundTrip(high - low, k, r - low, v - low, tail);
  }

  // Writing through the encoder ----------------------------------------------

  /** A bit at even odds, as `bit` stores it. */
  function FlatToken(bit: bool): (t: Token)
    ensures ValidToken(t)
  {
    TokenOf([16384, 0], if bit then 1 else 0)
  }

  function FlatTokens(bits: seq<bool>): (ts: seq<Token>)
    ensures |ts| == |bits|
  {
    seq(|bits|, i requires 0 <= i < |bits| => FlatToken(bits[i]))
  }

  lemma FlatTokensJoin(a: seq<bool>, b: seq<bool>)
    ensures FlatTokens(a + b) == FlatTokens(a) + FlatTokens(b)
  {
  }

  lemma FlatTokensSnoc(a: seq<bool>, t: bool)
    ensures FlatTokens(a + [t]) == FlatTokens(a) + [FlatToken(t)]
  {
  }

  method Bit(w: WriterEncoder, one: bool)
    requires w.Valid()
    modifies w
    ensures w.Valid() && w.tokens == old(w.tokens) + [FlatToken(one)]
  {
    w.Bool(one, 16384);
  }

  method Literal(w: WriterEncoder, bits: nat, s: nat)
    requires w.Valid()
    modifies w
    ensures w.Valid() && w.tokens == old(w.tokens) + FlatTokens(LiteralCode(bits, s))
  {
    hide WriterEncoder.Valid, FlatTokens, FlatToken, Shr;
    var bit: nat := bits;
    ghost var done: seq<bool> := [];
    FlatTokensOfNone();
    while bit > 0
      invariant bit <= bits && w.Valid()
      invariant w.tokens == old(w.tokens) + FlatTokens(done)
      invariant done + LiteralCode(bit, s) == LiteralCode(bits, s)
    {
      bit := bit - 1;
      var one := Shr(s, bit) % 2 == 1;
      FlatTokensSnoc(done, one);
      JoinOne(done, one, LiteralCode(bit, s), LiteralCode(bits, s));
      Bit(w, one);
      done := done + [one];
    }
    assert done == done + LiteralCode(bit, s);
  }

  method WriteQuniform(w: WriterEncoder, n: u32, v: u32)
    requires w.Valid() && v < n < 0x8000_0000
    modifies w
    ensures w.Valid() && w.tokens == old(w.tokens) + FlatTokens(QuniformCode(n, v))
  {
    hide WriterEncoder.Valid, LiteralCode, FlatTokens, Shl;
    if n > 1 {
      BitLengthBounds(n);
      ShortFits(n);
      var l := BitLength(n);
      var m: u32 := Pow2(l) - n;
      if v < m {
        Literal(w, l - 1, v);
      } else {
        ghost var high, low := LiteralCode(l - 1, m + (v - m) / 2), LiteralCode(1, (v - m) % 2);
        assert QuniformCode(n, v) == high + low;
        hide QuniformCode;
        FlatTokensJoin(high, low);
        TokensJoin(w.tokens, FlatTokens(high), FlatTokens(low));
        Literal(w, l - 1, m + (v - m) / 2);
        Literal(w, 1, (v - m) % 2);
      }
    } else {
      FlatTokensOfNone();
    }
  }

  lemma JoinOne(done: seq<bool>, t: bool, rest: seq<bool>, whole: seq<bool>)
    requires done + ([t] + rest) == whole
    ensures done + [t] + rest == whole
  {
  }

  lemma TokensJoin(a: seq<Token>, b: seq<Token>, c: seq<Token>)
    ensures a + b + c == a + (b + c)
  {
  }

  lemma FlatTokensOfNone()
    ensures FlatTokens([]) == []
  {
  }

  lemma ShortFits(n: nat)
    requires 0 < n < 0x8000_0000
    ensures BitLength(n) > 0 && Pow2(BitLength(n)) <= 2 * n
  {
    BitLengthBounds(n);
  }

  /** After the first step mk and the next step's width double together, so nothing
      the loop computes reaches 2n unless it was there at the start. */
  method WriteSubexp(w: WriterEncoder, n: u32, k: nat, v: u32)
    requires w.Valid() && v < n < 0x8000_0000 && k <= 30
    modifies w
    ensures w.Valid() && w.tokens == old(w.tokens) + FlatTokens(SubexpCode(n, k, v, 0, 0))
  {
    hide WriterEncoder.Valid, LiteralCode, FlatTokens, FlatToken, Shl, QuniformCode, SubexpCode;
    var i, mk: u32, going := 0, 0, true;
    ghost var done: seq<bool> := [];
    FlatTokensOfNone();
    while going
      invariant w.Valid() && mk <= v
      invariant if i == 0 then mk == 0 else mk == Pow2(k + i - 1) && 2 * mk <= n
      invariant w.tokens == old(w.tokens) + FlatTokens(done)
      invariant going ==> done + SubexpCode(n, k, v, i, mk) == SubexpCode(n, k, v, 0, 0)
      invariant !going ==> done == SubexpCode(n, k, v, 0, 0)
      decreases going, n - mk
    {
      var b := if i != 0 then k + i - 1 else k;
      ShlAtLeast(1, b);
      StepFits(k, i, mk, n);
      SubexpStep(n, k, v, i, mk);
      ghost var whole := SubexpCode(n, k, v, 0, 0);
      var a: u32 := Pow2(b);
      var limit: u32 := mk + 3 * a;
      if n <= limit {
        FlatTokensJoin(done, QuniformCode(n - mk, v - mk));
        TokensJoin(old(w.tokens), FlatTokens(done), FlatTokens(QuniformCode(n - mk, v - mk)));
        WriteQuniform(w, n - mk, v - mk);
        done := done + QuniformCode(n - mk, v - mk);
        going := false;
      } else {
        var t := v >= mk + a;
        FlatTokensSnoc(done, t);
        TokensJoin(old(w.tokens), FlatTokens(done), [FlatToken(t)]);
        Bit(w, t);
        ghost var before := done;
        done := done + [t];
        if t {
          JoinOne(before, true, SubexpCode(n, k, v, i + 1, mk + a), whole);
          NextStep(k, i, mk);
          i := i + 1;
          mk := mk + a;
        } else {
          JoinOne(before, false, LiteralCode(b, v - mk), whole);
          FlatTokensJoin(done, LiteralCode(b, v - mk));
          TokensJoin(old(w.tokens), FlatTokens(done), FlatTokens(LiteralCode(b, v - mk)));
          Literal(w, b, v - mk);
          done := done + LiteralCode(b, v - mk);
          going := false;
        }
      }
    }
  }

  lemma NextStep(k: nat, i: nat, mk: nat)
    requires if i == 0 then mk == 0 else mk == Pow2(k + i - 1)
    ensures mk + Pow2(Width(k, i)) == Pow2(k + (i + 1) - 1)
  {
    if i > 0 {
      assert Pow2(k + i) == 2 * Pow2(k + i - 1);
    }
  }

  lemma StepFits(k: nat, i: nat, mk: nat, n: nat)
    requires k <= 30 && n < 0x8000_0000
    requires if i == 0 then mk == 0 else mk == Pow2(k + i - 1) && 2 * mk <= n
    ensures mk + 3 * Pow2(Width(k, i)) < 0x1_0000_0000
  {
    Pow2Mono(k, 30);
    ShlShl(1, 16, 14);
    Pow2Values();
    assert Shl(0x1_0000, 14) == 0x4000_0000 by {
      Shl14();
    }
  }

  lemma Shl14()
    ensures Shl(0x1_0000, 14) == 0x4000_0000
  {
    assert Shl(0x1_0000, 3) == 0x8_0000;
    assert Shl(0x1_0000, 6) == 0x40_0000;
    assert Shl(0x1_0000, 9) == 0x200_0000;
    assert Shl(0x1_0000, 12) == 0x1000_0000;
  }

  method WriteUnsignedSubexpWithRef(w: WriterEncoder, v: u32, n: u32, k: nat, r: u32)
    requires w.Valid() && v < n < 0x8000_0000 && r < n && k <= 30
    modifies w
    ensures w.Valid() && w.tokens == old(w.tokens) + FlatTokens(RefSubexpCode(n, k, r, v))
  {
    hide WriterEncoder.Valid, SubexpCode, FlatTokens;
    RecenterInRange(n, r, v);
    if 2 * r <= n {
      WriteSubexp(w, n, k, Recenter(r, v));
    } else {
      WriteSubexp(w, n, k, Recenter(n - 1 - r, n - 1 - v));
    }
  }

  method WriteSignedSubexpWithRef(w: WriterEncoder, v: int, low: int, high: int, k: nat, r: int)
    requires w.Valid() && low <= v < high < low + 0x8000_0000 && low <= r < high && k <= 30
    modifies w
    ensures w.Valid() && w.tokens == old(w.tokens) + FlatTokens(RefSubexpCode(high - low, k, r - low, v - low))
  {
    hide WriterEncoder.Valid, SubexpCode, FlatTokens;
    WriteUnsignedSubexpWithRef(w, v - low, high - low, k, r - low);
  }

  // Counting without writing --------------------------------------------------

  method CountQuniform(n: u32, v: u32) returns (bits: nat)
    requires v < n < 0x8000_0000
    ensures bits == 8 * |QuniformCode(n, v)|
  {
    hide Shl;
    bits := 0;
    if n > 1 {
      BitLengthBounds(n);
      ShortFits(n);
      var l := BitLength(n);
      var m: u32 := Pow2(l) - n;
      bits := bits + (l - 1) * 8;
      if v >= m {
        bits := bits + 8;
      }
    }
  }

  method CountSubexp(n: u32, k: nat, v: u32) returns (bits: nat)
    requires v < n < 0x8000_0000 && k <= 30
    ensures bits == 8 * |SubexpCode(n, k, v, 0, 0)|
  {
    hide LiteralCode, Shl, QuniformCode;
    var i, mk: u32, going := 0, 0, true;
    bits := 0;
    while going
      invariant mk <= v
      invariant if i == 0 then mk == 0 else mk == Pow2(k + i - 1) && 2 * mk <= n
      invariant going ==> bits + 8 * |SubexpCode(n, k, v, i, mk)| == 8 * |SubexpCode(n, k, v, 0, 0)|
      invariant !going ==> bits == 8 * |SubexpCode(n, k, v, 0, 0)|
      decreases going, n - mk
    {
      var b := if i != 0 then k + i - 1 else k;
      ShlAtLeast(1, b);
      StepFits(k, i, mk, n);
      var a: u32 := Pow2(b);
      var limit: u32 := mk + 3 * a;
      if n <= limit {
        var q := CountQuniform(n - mk, v - mk);
        bits := bits + q;
        going := false;
      } else {
        var t := v >= mk + a;
        bits := bits + 8;
        if t {
          NextStep(k, i, mk);
          i := i + 1;
          mk := mk + a;
        } else {
          bits := bits + b * 8;
          going := false;
        }
      }
    }
  }

  method CountUnsignedSubexpWithRef(v: u32, n: u32, k: nat, r: u32) returns (bits: nat)
    requires v < n < 0x8000_0000 && r < n && k <= 30
    ensures bits == 8 * |RefSubexpCode(n, k, r, v)|
  {
    hide SubexpCode;
    RecenterInRange(n, r, v);
    if 2 * r <= n {
      bits := CountSubexp(n, k, Recenter(r, v));
    } else {
      bits := CountSubexp(n, k, Recenter(n - 1 - r, n - 1 - v));
    }
  }
}
