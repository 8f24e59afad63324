/** Bit-level operations on naturals, as the C sources use them on unsigned words. */
module Bits {

  function Pow2(k: nat): (p: nat)
    ensures p >= 1
  {
    if k == 0 then 1 else 2 * Pow2(k - 1)
  }

  /** x shifted right by k bits. */
  function Shr(x: nat, k: nat): nat { Div(x, Pow2(k)) }

  /** x shifted left by k bits, without a word limit. */
  function Shl(x: nat, k: nat): nat { Mul(x, Pow2(k)) }

  /** The low k bits of x. */
  function LowBits(x: nat, k: nat): nat { Mod(x, Pow2(k)) }

  lemma ShlIsProduct(x: nat, k: nat)
    ensures Shl(x, k) == x * Pow2(k)
  {
  }

  function Div(x: nat, d: nat): nat
    requires d > 0
  {
    x / d
  }

  function Mod(x: nat, d: nat): nat
    requires d > 0
  {
    x % d
  }

  function Mul(x: int, y: int): (p: int)
    ensures x >= 0 && y >= 0 ==> p >= 0
  {
    x * y
  }

  /** The value of an expression computed in unsigned 32-bit arithmetic. */
  function U32(x: int): (r: nat)
    ensures r < 0x1_0000_0000
  {
    x % 0x1_0000_0000
  }

  lemma PowZero()
    ensures Pow2(0) == 1
  {
  }

  lemma DoublePow(i: nat)
    ensures Pow2(i + 1) == Pow2(i) + Pow2(i)
  {
  }

  lemma PowPositive(i: nat)
    ensures Pow2(i) > 0
  {
  }

  lemma PowMonotone(a: nat, b: nat)
    requires a <= b
    ensures Pow2(a) <= Pow2(b)
  {
  }

  lemma SmallPowers()
    ensures Pow2(0) == 1 && Pow2(1) == 2 && Pow2(2) == 4 && Pow2(3) == 8 && Pow2(4) == 16
  {
  }

  lemma ByteAndHalfWord()
    ensures Pow2(8) == 0x100 && Pow2(16) == 0x1_0000
  {
  }

  lemma WordPowers()
    ensures Pow2(31) == 0x8000_0000 && Pow2(32) == 0x1_0000_0000
  {
    ByteAndHalfWord();
    Pow2Add(16, 16);
    DoublePow(31);
  }

  /** Bitwise or of two naturals. */
  function Or(x: nat, y: nat): nat
    decreases x + y
  {
    if x == 0 then y
    else if y == 0 then x
    else (if x % 2 == 1 || y % 2 == 1 then 1 else 0) + 2 * Or(x / 2, y / 2)
  }

  lemma Pow2Add(a: nat, b: nat)
    ensures Pow2(a + b) == Pow2(a) * Pow2(b)
  {
    if a > 0 {
      Pow2Add(a - 1, b);
    }
  }

  /** When the low k bits of x are clear and y has only low k bits, x | y is x + y. */
  lemma {:induction false} OrDisjoint(x: nat, y: nat, k: nat)
    requires x % Pow2(k) == 0 && y < Pow2(k)
    ensures Or(x, y) == x + y
  {
    if k > 0 && x > 0 && y > 0 {
      var p := Pow2(k - 1);
      var c := x / Pow2(k);
      assert x == (2 * p) * c == 2 * (p * c);
      assert (p * c) % p == 0 by { MulMod(p, c); }
      OrDisjoint(x / 2, y / 2, k - 1);
    }
  }

  lemma OrCommutes(x: nat, y: nat)
    ensures Or(x, y) == Or(y, x)
    decreases x + y
  {
  }

  lemma MulMod(p: nat, c: nat)
    requires p > 0
    ensures (p * c) % p == 0 && (p * c) / p == c
  {
    DivModUnique(p * c, p, c, 0);
  }

  lemma MulMonotone(a: int, b: int, c: int)
    requires a <= b && 0 <= c
    ensures a * c <= b * c && c * a <= c * b
  {
  }

  /** Quotient and remainder are determined by the division equation. */
  lemma DivModUnique(x: int, d: int, q: int, r: int)
    requires 0 <= r < d && x == d * q + r
    ensures x / d == q && x % d == r
  {
    var k := x / d;
    var s := x % d;
    assert x == d * k + s;
    assert d * (k + 1) == d * k + d;
    assert d * (q + 1) == d * q + d;
    if k < q {
      MulMonotone(k + 1, q, d);
    } else if q < k {
      MulMonotone(q + 1, k, d);
    }
  }
}
