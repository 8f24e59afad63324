/** Searching a region's free list for a block that meets alignment and range constraints
    (410kern/lmm/lmm_alloc_gen.c). */
module LmmSearch {
  import opened Basics
  import opened Bits
  import opened FreeList
  import opened LmmRegion

  /** Bit i of a word. */
  function Bit(x: nat, i: nat): nat { Mod(Div(x, Pow2(i)), 2) }

  /** x is congruent to ofs modulo 2^bits. */
  ghost predicate Congruent(x: nat, ofs: nat, bits: nat) {
    Mod(x, Pow2(bits)) == Mod(ofs, Pow2(bits))
  }

  /** a is the least address from start on with the wanted low bits. */
  ghost predicate LeastCongruent(a: nat, start: nat, ofs: nat, bits: nat) {
    start <= a && Congruent(a, ofs, bits) && forall x: nat :: start <= x && Congruent(x, ofs, bits) ==> a <= x
  }

  lemma ModTwice(x: nat, p: nat)
    requires p > 0
    ensures x % (2 * p) == x % p + p * ((x / p) % 2)
  {
    ModTwiceParts(x, p, x / p, x % p, (x / p) / 2, (x / p) % 2);
  }

  lemma ModTwiceParts(x: nat, p: nat, q: nat, r: nat, h: nat, b: nat)
    requires r < p && x == p * q + r && q == 2 * h + b && b < 2
    ensures x % (2 * p) == r + p * b
  {
    assert p * q == p * (2 * h) + p * b;
    assert p * (2 * h) == (2 * p) * h;
    assert p * b == if b == 0 then 0 else p;
    DivModUnique(x, 2 * p, h, p * b + r);
  }

  lemma CongruentNext(x: nat, ofs: nat, i: nat)
    ensures Congruent(x, ofs, i + 1) <==> Congruent(x, ofs, i) && Bit(x, i) == Bit(ofs, i)
  {
    var p := Pow2(i);
    ModTwice(x, p);
    ModTwice(ofs, p);
    CongruentSplit(x % p, ofs % p, p, (x / p) % 2, (ofs / p) % 2);
  }

  lemma CongruentSplit(r: nat, s: nat, p: nat, b: nat, c: nat)
    requires r < p && s < p && b < 2 && c < 2
    ensures r + p * b == s + p * c <==> r == s && b == c
  {
  }

  /** Adding 2^i flips bit i and keeps the lower bits. */
  lemma AddBit(x: nat, i: nat)
    ensures Mod(x + Pow2(i), Pow2(i)) == Mod(x, Pow2(i)) && Bit(x + Pow2(i), i) != Bit(x, i)
  {
    var p := Pow2(i);
    assert x == p * (x / p) + x % p;
    assert p * (x / p + 1) == p * (x / p) + p;
    DivModUnique(x + p, p, x / p + 1, x % p);
  }

  /** Numbers congruent modulo p are at least p apart. */
  lemma CongruentApart(x: nat, y: nat, p: nat)
    requires p > 0 && x < y && x % p == y % p
    ensures x + p <= y
  {
    assert x == p * (x / p) + x % p && y == p * (y / p) + y % p;
    if y / p <= x / p {
      MulMonotone(y / p, x / p, p);
    } else {
      MulMonotone(x / p + 1, y / p, p);
      assert p * (x / p + 1) == p * (x / p) + p;
    }
  }

  lemma AlignStep(a: nat, start: nat, ofs: nat, i: nat)
    requires LeastCongruent(a, start, ofs, i)
    ensures LeastCongruent(if Bit(a, i) != Bit(ofs, i) then a + Pow2(i) else a, start, ofs, i + 1)
  {
    hide Pow2, Bit;
    CongruentNext(a, ofs, i);
    AddBit(a, i);
    BitRange(a, i);
    BitRange(a + Pow2(i), i);
    BitRange(ofs, i);
    CongruentNext(a + Pow2(i), ofs, i);
    var b := if Bit(a, i) != Bit(ofs, i) then a + Pow2(i) else a;
    var n := i + 1;
    forall x: nat | start <= x && Congruent(x, ofs, n) ensures b <= x {
      CongruentNext(x, ofs, i);
      if a < x {
        CongruentApart(a, x, Pow2(i));
      }
    }
  }

  lemma BitRange(x: nat, i: nat)
    ensures Bit(x, i) < 2
  {
  }

  lemma AlignStart(start: nat, ofs: nat)
    ensures LeastCongruent(start, start, ofs, 0)
  {
  }

  const ADDRESS_SPACE: nat := 0x1_0000_0000

  /** Agreeing in some low bits includes agreeing in fewer. */
  lemma {:induction false} CongruentFewer(x: nat, ofs: nat, i: nat, bits: nat)
    requires i <= bits && Congruent(x, ofs, bits)
    ensures Congruent(x, ofs, i)
  {
    if i < bits {
      CongruentNext(x, ofs, bits - 1);
      CongruentFewer(x, ofs, i, bits - 1);
    }
  }

  /** From any start on, an address with the wanted low bits follows within 2^bits. */
  lemma {:induction false} SomeCongruent(start: nat, ofs: nat, bits: nat) returns (a: nat)
    ensures LeastCongruent(a, start, ofs, bits) && a < start + Pow2(bits)
  {
    hide Pow2, Bit, LeastCongruent;
    if bits == 0 {
      AlignStart(start, ofs);
      PowPositive(0);
      a := start;
    } else {
      a := SomeCongruent(start, ofs, bits - 1);
      AlignStep(a, start, ofs, bits - 1);
      DoublePow(bits - 1);
      if Bit(a, bits - 1) != Bit(ofs, bits - 1) {
        a := a + Pow2(bits - 1);
      }
    }
  }

  /** There is an address with the wanted low bits, from the start on, at which size bytes end below the top of
      the 32-bit address space. */
  ghost predicate RoomAbove(start: nat, ofs: nat, bits: nat, size: nat) {
    exists a: nat :: start <= a && a + size < ADDRESS_SPACE && Congruent(a, ofs, bits)
  }

  /** Raises an address, bit by bit, to the least one with the wanted low bits. Nothing wraps exactly when
      there is such an address. */
  method AlignUp(start: nat, ofs: nat, bits: nat) returns (addr: nat)
    requires RoomAbove(start, ofs, bits, 0)
    ensures LeastCongruent(addr, start, ofs, bits) && addr < ADDRESS_SPACE
  {
    hide Pow2, Bit, LeastCongruent, Congruent;
    ghost var a: nat :| start <= a < ADDRESS_SPACE && Congruent(a, ofs, bits);
    addr := start;
    AlignStart(start, ofs);
    var i := 0;
    while i < bits
      invariant i <= bits && LeastCongruent(addr, start, ofs, i) && addr < ADDRESS_SPACE
    {
      var bit := Pow2(i);
      AlignStep(addr, start, ofs, i);
      CongruentFewer(a, ofs, i + 1, bits);
      if Bit(addr, i) != Bit(ofs, i) {
        LeastIsLeast(addr + bit, start, ofs, i + 1, a);
        assert addr + bit < ADDRESS_SPACE;  // no 32-bit wrap
        addr := addr + bit;
      }
      i := i + 1;
    }
  }

  lemma LeastIsLeast(a: nat, start: nat, ofs: nat, bits: nat, x: nat)
    requires LeastCongruent(a, start, ofs, bits) && start <= x && Congruent(x, ofs, bits)
    ensures a <= x
  {
  }

  // ---------------------------------------------------------------- what fits

  /** A request: size bytes, low address bits as in ofs, inside the range from lo up to hi. */
  datatype Request = Request(size: nat, bits: nat, ofs: nat, lo: nat, hi: nat)

  /** The bytes a request asks for are free at x and meet its constraints. */
  ghost predicate Fits(s: seq<Block>, q: Request, x: nat) {
    q.lo <= x && x + q.size <= q.hi && Congruent(x, q.ofs, q.bits) &&
    forall y: int :: x <= y < x + q.size ==> Covers(s, y)
  }

  /** No fit begins before block i. */
  ghost predicate NoneBefore(s: seq<Block>, q: Request, i: nat) {
    forall x: nat :: Fits(s, q, x) ==> i < |s| && s[i].addr <= x
  }

  lemma FitInBlock(s: seq<Block>, q: Request, x: nat) returns (j: nat)
    requires Sound(s) && q.size > 0 && Fits(s, q, x)
    ensures j < |s| && s[j].addr <= x && x + q.size <= s[j].End()
  {
    j := RangeInOneBlock(s, x, x + q.size);
  }

  lemma InOrder(s: seq<Block>, i: nat, j: nat)
    requires Sound(s) && i < j < |s|
    ensures s[i].End() < s[j].addr
  {
  }

  lemma NoneBeforeFirst(s: seq<Block>, q: Request)
    requires Sound(s) && q.size > 0
    ensures NoneBefore(s, q, 0)
  {
    forall x: nat | Fits(s, q, x) ensures 0 < |s| && s[0].addr <= x {
      var j := FitInBlock(s, q, x);
      if j > 0 {
        InOrder(s, 0, j);
      }
    }
  }

  /** A block that holds no fit can be passed over. */
  lemma NoneBeforeNext(s: seq<Block>, q: Request, i: nat)
    requires Sound(s) && q.size > 0 && i < |s| && NoneBefore(s, q, i)
    requires forall x: nat :: Fits(s, q, x) && s[i].addr <= x ==> x + q.size > s[i].End()
    ensures NoneBefore(s, q, i + 1)
  {
    forall x: nat | Fits(s, q, x) ensures i + 1 < |s| && s[i + 1].addr <= x {
      var j := FitInBlock(s, q, x);
      if j > i + 1 {
        InOrder(s, i + 1, j);
      }
    }
  }

  /** Where the request would have to start in block i or after it. */
  lemma FitNotBefore(s: seq<Block>, q: Request, i: nat, addr: nat, x: nat)
    requires i < |s| && LeastCongruent(addr, Max(s[i].addr, q.lo), q.ofs, q.bits)
    requires Fits(s, q, x) && s[i].addr <= x
    ensures addr <= x
  {
  }

  lemma TooSmall(s: seq<Block>, q: Request, i: nat)
    requires Sound(s) && q.size > 0 && i < |s| && NoneBefore(s, q, i) && s[i].size < q.size
    ensures NoneBefore(s, q, i + 1)
  {
    NoneBeforeNext(s, q, i);
  }

  lemma AlignedPastEnd(s: seq<Block>, q: Request, i: nat, addr: nat)
    requires Sound(s) && q.size > 0 && i < |s| && NoneBefore(s, q, i)
    requires LeastCongruent(addr, Max(s[i].addr, q.lo), q.ofs, q.bits) && addr + q.size > s[i].End()
    ensures NoneBefore(s, q, i + 1)
  {
    forall x: nat | Fits(s, q, x) && s[i].addr <= x ensures x + q.size > s[i].End() {
      FitNotBefore(s, q, i, addr, x);
    }
    NoneBeforeNext(s, q, i);
  }

  /** Once the aligned address passes the range constraint, no later block can fit either. */
  lemma AlignedPastRange(s: seq<Block>, q: Request, i: nat, addr: nat)
    requires i < |s| && NoneBefore(s, q, i)
    requires LeastCongruent(addr, Max(s[i].addr, q.lo), q.ofs, q.bits) && addr + q.size > q.hi
    ensures forall x: nat :: !Fits(s, q, x)
  {
    forall x: nat ensures !Fits(s, q, x) {
      if Fits(s, q, x) {
        FitNotBefore(s, q, i, addr, x);
      }
    }
  }

  lemma AlignedFits(s: seq<Block>, q: Request, i: nat, addr: nat)
    requires i < |s| && NoneBefore(s, q, i)
    requires LeastCongruent(addr, Max(s[i].addr, q.lo), q.ofs, q.bits)
    requires addr + q.size <= s[i].End() && addr + q.size <= q.hi
    ensures Fits(s, q, addr) && forall x: nat :: Fits(s, q, x) ==> addr <= x
  {
  }
}
