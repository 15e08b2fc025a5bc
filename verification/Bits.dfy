/**
 A 64-bit integer seen as the set of its one bits, in two's complement. Bitwise OR is
 then set union and AND NOT is set difference.
 */
module Bits {
  import opened Decimal

  type Mask = m: set<nat> | forall b | b in m :: b < 64

  predicate Bit(n: int, b: nat)
    decreases b
  {
    if b == 0 then n % 2 == 1 else Bit(n / 2, b - 1)
  }

  function MaskOf(n: int): Mask {
    set b: nat | b < 64 && Bit(n, b)
  }

  /** The integer whose bits are those of `m` from bit `b` up; bit 63 is the sign. */
  function Word(m: Mask, b: nat): int
    requires b < 64
    decreases 64 - b
  {
    if b == 63 then (if 63 in m then -1 else 0)
    else (if b in m then 1 else 0) + 2 * Word(m, b + 1)
  }

  function IntOf(m: Mask): int {
    Word(m, 0)
  }

  function Pow2(n: nat): (p: int)
    ensures p > 0
  {
    if n == 0 then 1 else 2 * Pow2(n - 1)
  }

  /** Bit `b` is the parity of what is left after halving `b` times, rounding down. */
  lemma {:induction false} BitIsParity(n: int, b: nat)
    ensures Bit(n, b) <==> (n / Pow2(b)) % 2 == 1
    decreases b
  {
    if b > 0 {
      BitIsParity(n / 2, b - 1);
      HalveThenDivide(n, Pow2(b - 1));
    }
  }

  lemma HalveThenDivide(n: int, p: int)
    requires p > 0
    ensures n / 2 / p == n / (2 * p)
  {
    var q, r := n / 2 / p, n / 2 % p;
    assert n / 2 == q * p + r;
    assert n == q * (2 * p) + (2 * r + n % 2);
    QuotientIs(n, 2 * p, q, 2 * r + n % 2);
  }

  lemma QuotientIs(n: int, d: int, q: int, r: int)
    requires d > 0 && n == q * d + r && 0 <= r < d
    ensures n / d == q
  {
    var q' := n / d;
    assert n == q' * d + n % d;
    if q > q' {
      assert (q - q') * d == q * d - q' * d;
      Multiple(q - q', d);
    } else if q < q' {
      assert (q' - q) * d == q' * d - q * d;
      Multiple(q' - q, d);
    }
  }

  lemma Multiple(x: int, d: int)
    requires x >= 1 && d > 0
    ensures x * d >= d
  {
    assert x * d == (x - 1) * d + d;
  }

  lemma {:induction false} Pow2Add(m: nat, n: nat)
    ensures Pow2(m + n) == Pow2(m) * Pow2(n)
  {
    if m > 0 {
      Pow2Add(m - 1, n);
    }
  }

  lemma Pow2Of63()
    ensures Pow2(63) == 0x8000_0000_0000_0000
  {
    assert Pow2(1) == 2 && Pow2(2) == 4;
    Pow2Add(2, 2);
    Pow2Add(4, 4);
    Pow2Add(8, 8);
    Pow2Add(16, 16);
    Pow2Add(32, 16);
    Pow2Add(48, 8);
    Pow2Add(56, 4);
    Pow2Add(60, 2);
    Pow2Add(62, 1);
  }

  lemma {:induction false} WordRange(m: Mask, b: nat)
    requires b < 64
    ensures -Pow2(63 - b) <= Word(m, b) < Pow2(63 - b)
    decreases 64 - b
  {
    if b < 63 {
      WordRange(m, b + 1);
    }
  }

  lemma {:induction false} BitOfWord(m: Mask, b: nat, i: nat)
    requires b + i < 64
    ensures Bit(Word(m, b), i) <==> b + i in m
    decreases i
  {
    if b < 63 && i > 0 {
      BitOfWord(m, b + 1, i - 1);
    }
  }

  /** Every mask is the bits of one 64-bit integer. */
  lemma MaskOfInt(m: Mask)
    ensures INT64_MIN <= IntOf(m) <= INT64_MAX
    ensures MaskOf(IntOf(m)) == m
  {
    WordRange(m, 0);
    Pow2Of63();
    forall b: nat | b < 64
      ensures Bit(IntOf(m), b) <==> b in m
    {
      BitOfWord(m, 0, b);
    }
  }

  lemma {:induction false} ZeroBits(b: nat)
    ensures !Bit(0, b)
  {
    if b > 0 {
      ZeroBits(b - 1);
    }
  }

  lemma {:induction false} HighestBit(n: int, w: nat)
    requires -Pow2(w) <= n < Pow2(w) && n != 0
    ensures exists b: nat :: b <= w && Bit(n, b)
    decreases w
  {
    if n % 2 == 1 {
      assert Bit(n, 0);
    } else {
      HighestBit(n / 2, w - 1);
      var b: nat :| b <= w - 1 && Bit(n / 2, b);
      assert Bit(n, b + 1);
    }
  }

  /** Only zero has no bit. */
  lemma MaskOfZero(n: int)
    requires INT64_MIN <= n <= INT64_MAX
    ensures MaskOf(n) == {} <==> n == 0
  {
    if n == 0 {
      forall b: nat ensures !Bit(0, b) { ZeroBits(b); }
    } else {
      Pow2Of63();
      HighestBit(n, 63);
      var b: nat :| b <= 63 && Bit(n, b);
      assert b in MaskOf(n);
    }
  }

  lemma IntOfZero(m: Mask)
    ensures IntOf(m) == 0 <==> m == {}
  {
    MaskOfInt(m);
    MaskOfZero(IntOf(m));
  }
}
