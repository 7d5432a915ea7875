/** Machine widths and clamping, and shifts defined bit by bit so that reasoning about them stays
    linear. */
module Bits {
  type u8 = x: int | 0 <= x < 0x100
  type u16 = x: int | 0 <= x < 0x1_0000
  type u32 = x: int | 0 <= x < 0x1_0000_0000

  const WRAP := 0x1_0000_0000

  function Abs(x: int): nat {
    if x < 0 then -x else x
  }

  function Clamp(x: int, lo: int, hi: int): int {
    if x < lo then lo else if x > hi then hi else x
  }

  /** `x << n`, with room for every bit. */
  function Shl(x: nat, n: nat): nat {
    if n == 0 then x else 2 * Shl(x, n - 1)
  }

  /** `x >> n`. */
  function Shr(x: nat, n: nat): nat
    decreases n
  {
    if n == 0 then x else Shr(x / 2, n - 1)
  }

  /** `x & ((1 << n) - 1)`. */
  function LowBits(x: nat, n: nat): nat
    decreases n
  {
    if n == 0 then 0 else 2 * LowBits(x / 2, n - 1) + x % 2
  }

  function Pow2(n: nat): nat {
    Shl(1, n)
  }

  lemma {:induction false} ShlAdd(x: nat, y: nat, n: nat)
    ensures Shl(x + y, n) == Shl(x, n) + Shl(y, n)
  {
    if n > 0 {
      ShlAdd(x, y, n - 1);
    }
  }

  lemma {:induction false} ShlShl(x: nat, m: nat, n: nat)
    ensures Shl(Shl(x, m), n) == Shl(x, m + n)
  {
    if n > 0 {
      ShlShl(x, m, n - 1);
      assert Shl(x, m + n) == 2 * Shl(x, m + (n - 1));
    }
  }

  /** Shifting left keeps order, and keeps strict order by a whole unit. */
  lemma ShlMono(x: nat, y: nat, n: nat)
    ensures x <= y ==> Shl(x, n) <= Shl(y, n)
    ensures x < y ==> Shl(x, n) + Pow2(n) <= Shl(y, n)
    ensures Pow2(n) >= 1 && Shl(x, n) >= x
  {
    ShlAtLeast(1, n);
    ShlAtLeast(x, n);
    if x <= y {
      ShlAdd(x, y - x, n);
      if x < y {
        ShlAdd(1, y - x - 1, n);
      }
    }
  }

  lemma {:induction false} ShlAtLeast(x: nat, n: nat)
    ensures x <= Shl(x, n)
  {
    if n > 0 {
      ShlAtLeast(x, n - 1);
    }
  }

  lemma Pow2Mono(m: nat, n: nat)
    requires m <= n
    ensures Pow2(m) <= Pow2(n)
  {
    ShlShl(1, m, n - m);
    ShlAtLeast(Pow2(m), n - m);
  }

  lemma Pow2Values()
    ensures Pow2(0) == 1 && Pow2(1) == 2 && Pow2(7) == 0x80 && Pow2(8) == 0x100
    ensures Pow2(14) == 0x4000 && Pow2(15) == 0x8000 && Pow2(16) == 0x1_0000
    ensures Pow2(23) == 0x80_0000 && Pow2(24) == 0x100_0000
  {
    assert Pow2(4) == 16;
    assert Pow2(8) == 256;
    assert Pow2(12) == 4096;
    assert Pow2(16) == 0x1_0000;
    assert Pow2(20) == 0x10_0000;
  }

  /** A shift and a mask together lose nothing. */
  lemma {:induction false} SplitBits(x: nat, n: nat)
    ensures x == Shl(Shr(x, n), n) + LowBits(x, n)
    ensures LowBits(x, n) < Pow2(n) && LowBits(x, n) <= x
    decreases n
  {
    if n > 0 {
      SplitBits(x / 2, n - 1);
    }
  }

  lemma {:induction false} SplitUnique(q: nat, r: nat, n: nat)
    requires r < Pow2(n)
    ensures Shr(Shl(q, n) + r, n) == q && LowBits(Shl(q, n) + r, n) == r
    decreases n
  {
    if n > 0 {
      assert (Shl(q, n) + r) / 2 == Shl(q, n - 1) + r / 2;
      SplitUnique(q, r / 2, n - 1);
    }
  }

  lemma ShrBound(x: nat, q: nat, n: nat)
    requires x < Shl(q, n)
    ensures Shr(x, n) < q
  {
    SplitBits(x, n);
    ShlMono(q, Shr(x, n), n);
  }

  /** Shifting right never enlarges a value or the distance between two. */
  lemma {:induction false} ShrGap(a: nat, b: nat, n: nat)
    requires b <= a
    ensures Shr(b, n) <= Shr(a, n) <= Shr(b, n) + (a - b)
    ensures Shr(a, n) <= a
    ensures n > 0 && a > 0 ==> Shr(a, n) < a
    decreases n
  {
    if n > 0 {
      ShrGap(a / 2, b / 2, n - 1);
    }
  }

  /** `leading_zeros` of a non-zero u16: how far left it must move to fill bit 15. */
  function LeadingZeros16(r: nat): nat
    requires 0 < r < 0x1_0000
    decreases 0x1_0000 - r
  {
    if r >= 0x8000 then 0 else 1 + LeadingZeros16(2 * r)
  }

  lemma {:induction false} LeadingZeros16Fills(r: nat)
    requires 0 < r < 0x1_0000
    ensures 0x8000 <= Shl(r, LeadingZeros16(r)) < 0x1_0000
    decreases 0x1_0000 - r
  {
    if r < 0x8000 {
      LeadingZeros16Fills(2 * r);
      ShlAdd(r, r, LeadingZeros16(2 * r));
    }
  }

  lemma LeadingZeros16Range(r: nat)
    requires 0 < r < 0x1_0000
    ensures 0x8000 <= Shl(r, LeadingZeros16(r)) < 0x1_0000
    ensures LeadingZeros16(r) <= 15
  {
    LeadingZeros16Fills(r);
    var d := LeadingZeros16(r);
    ShlMono(1, r, d);
    if d > 15 {
      Pow2Values();
      Pow2Mono(16, d);
    }
  }
}
