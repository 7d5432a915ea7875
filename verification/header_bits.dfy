/** The same codes written as plain bits into frame headers, in 16-bit arithmetic. */
module HeaderBits {
  import opened Bits
  import opened Subexp

  class BitWriter {
    var bits: seq<bool>

    constructor ()
      ensures bits == []
    {
      bits := [];
    }

    /** One value, most significant bit first. */
    method WriteVar(width: nat, v: u16)
      modifies this
      ensures bits == old(bits) + LiteralCode(width, v)
    {
      hide Shr;
      var left: nat := width;
      ghost var written: seq<bool> := [];
      while left > 0
        invariant left <= width && bits == old(bits) + written
        invariant written + LiteralCode(left, v) == LiteralCode(width, v)
      {
        left := left - 1;
        var one := Shr(v, left) % 2 == 1;
        JoinOne(written, one, LiteralCode(left, v), LiteralCode(width, v));
        Regroup(old(bits), written, [one]);
        bits := bits + [one];
        written := written + [one];
      }
      assert written + [] == written;
    }

    method WriteQuniform(n: u16, v: u16)
      requires v < n < 0x8000
      modifies this
      ensures bits == old(bits) + QuniformCode(n, v)
    {
      hide LiteralCode;
      if n > 1 {
        ShortFits(n);
        BitLengthBounds(n);
        var l := BitLength(n);
        LengthFits(n);
        var power: u16 := Pow2(l);
        var m: u16 := power - n;
        hide Shl;
        if v < m {
          WriteVar(l - 1, v);
        } else {
          WriteVar(l - 1, m + (v - m) / 2);
          WriteBit((v - m) % 2 == 1);
          OneBit((v - m) % 2);
        }
      }
    }

    method WriteBit(one: bool)
      modifies this
      ensures bits == old(bits) + [one]
    {
      bits := bits + [one];
    }

    /** The loop ends, and none of its 16-bit sums overflows. */
    method WriteSubexpfin(n: u16, k: u16, v: u16)
      requires v < n < 0x8000 && k <= 14
      modifies this
      ensures bits == old(bits) + SubexpCode(n, k, v, 0, 0)
    {
      hide LiteralCode, Shl, QuniformCode, SubexpCode;
      var i, mk: u16, going := 0, 0, true;
      ghost var written: seq<bool> := [];
      ghost var whole := SubexpCode(n, k, v, 0, 0);
      while going
        invariant mk <= v && bits == old(bits) + written
        invariant if i == 0 then mk == 0 else mk == Pow2(k + i - 1) && 2 * mk <= n
        invariant if going then written + SubexpCode(n, k, v, i, mk) == whole else written == whole
        decreases going, n - mk
      {
        var b := if i > 0 then k + i - 1 else k;
        ShlAtLeast(1, b);
        StepFits16(k, i, mk, n);
        SubexpStep(n, k, v, i, mk);
        var a: u16 := Pow2(b);
        var limit: u16 := mk + 3 * a;
        if n <= limit {
          WriteQuniform(n - mk, v - mk);
          Regroup(old(bits), written, QuniformCode(n - mk, v - mk));
          written := written + QuniformCode(n - mk, v - mk);
          going := false;
        } else {
          var t := v >= mk + a;
          WriteBit(t);
          Regroup(old(bits), written, [t]);
          ghost var before := written;
          written := written + [t];
          if t {
            JoinOne(before, true, SubexpCode(n, k, v, i + 1, mk + a), whole);
            NextStep(k, i, mk);
            i := i + 1;
            mk := mk + a;
          } else {
            JoinOne(before, false, LiteralCode(b, v - mk), whole);
            WriteVar(b, v - mk);
            Regroup(old(bits), written, LiteralCode(b, v - mk));
            written := written + LiteralCode(b, v - mk);
            going := false;
          }
        }
      }
    }

    method WriteRefsubexpfin(n: u16, k: u16, r: u16, v: u16)
      requires v < n < 0x8000 && r < n && k <= 14
      modifies this
      ensures bits == old(bits) + RefSubexpCode(n, k, r, v)
    {
      hide SubexpCode;
      RecenterInRange(n, r, v);
      var recentered := if 2 * r <= n then Recenter(r, v) else Recenter(n - 1 - r, n - 1 - v);
      WriteSubexpfin(n, k, recentered);
    }

    /** A value in (-n, n) given a reference in (-n, n): what the signed code of AV1
        reads from low = 1 - n up to high = n. */
    method WriteSRefsubexpfin(n: u16, k: u16, r: int, v: int)
      requires 0 < n <= 0x4000 && k <= 14 && r < n && v < n && 0 < r + n && 0 < v + n
      modifies this
      ensures bits == old(bits) + RefSubexpCode(n - (1 - n), k, r - (1 - n), v - (1 - n))
    {
      WriteRefsubexpfin(2 * n - 1, k, r + (n - 1), v + (n - 1));
    }
  }

  lemma Regroup(a: seq<bool>, b: seq<bool>, c: seq<bool>)
    ensures a + b + c == a + (b + c)
  {
  }

  lemma LengthFits(n: nat)
    requires 0 < n < 0x8000
    ensures BitLength(n) <= 15 && Pow2(BitLength(n)) <= 0x8000
  {
    BitLengthBounds(n);
    Pow2Values();
    if BitLength(n) > 15 {
      Pow2Mono(15, BitLength(n) - 1);
    }
    Pow2Mono(BitLength(n), 15);
  }

  lemma OneBit(x: nat)
    requires x < 2
    ensures LiteralCode(1, x) == [x == 1]
  {
    assert LiteralCode(0, x) == [];
  }

  lemma StepFits16(k: nat, i: nat, mk: nat, n: nat)
    requires k <= 14 && n < 0x8000
    requires if i == 0 then mk == 0 else mk == Pow2(k + i - 1) && 2 * mk <= n
    ensures mk + 3 * Pow2(Width(k, i)) < 0x1_0000
  {
    Pow2Mono(k, 14);
    Pow2Values();
  }
}
