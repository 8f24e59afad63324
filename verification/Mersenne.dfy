/** The Mersenne Twister MT19937 with its in-place batch regeneration (410kern/RNG/mt19937int.c). */
module Mersenne {

  const N: nat := 624
  const M: nat := 397
  const MATRIX_A: bv32 := 0x9908b0df
  const UPPER_MASK: bv32 := 0x80000000
  const LOWER_MASK: bv32 := 0x7fffffff
  const TEMPERING_MASK_B: bv32 := 0x9d2c5680
  const TEMPERING_MASK_C: bv32 := 0xefc60000
  const DEFAULT_SEED: bv32 := 4357

  // ---------------------------------------------------------------- the recurrence

  /** The top bit of one word and the rest of the next. */
  function Join(u: bv32, v: bv32): bv32 { (u & UPPER_MASK) | (v & LOWER_MASK) }

  function Low(y: bv32): bv32 { y & 1 }

  function Mag(y: bv32): bv32 { if Low(y) == 0 then 0 else MATRIX_A }

  function Half(y: bv32): bv32 { y >> 1 }

  function Blend(far: bv32, y: bv32): bv32 { Xor(Xor(far, Half(y)), Mag(y)) }

  /** One step of the recurrence: the word far ahead, mixed with two neighbouring words. */
  function Twist(far: bv32, u: bv32, v: bv32): bv32 { Blend(far, Join(u, v)) }

  /** The congruential generator that fills the first N words. */
  function SeedStep(x: bv32): bv32 { (69069 * x) & 0xffffffff }

  /** The unbounded sequence: 624 seeded words, then the linear recurrence. */
  function X(seed: bv32, n: nat): bv32 {
    if n == 0 then seed
    else if n < N then SeedStep(X(seed, n - 1))
    else Twist(X(seed, n - N + M), X(seed, n - N), X(seed, n - N + 1))
  }

  lemma Recurrence(seed: bv32, n: nat)
    ensures X(seed, n + N) == Twist(X(seed, n + M), X(seed, n), X(seed, n + 1))
  {
  }

  // ---------------------------------------------------------------- what a step reads, and how it is undone

  function Top(x: bv32): bv32 { x & 0x8000_0000 }

  function Rest(x: bv32): bv32 { x & 0x7fff_ffff }

  function Unshift(t: bv32): bv32 { if Top(t) == 0 then t << 1 else ((t ^ MATRIX_A) << 1) | 1 }

  /** The word that a step joins, from the step's result and the word far ahead. */
  function Untwist(far: bv32, x: bv32): bv32 { Unshift(Xor(x, far)) }

  /** A step reads the top bit of one word and the other bits of the next, and all of them: they can be recovered. */
  lemma StepReads(u: bv32, v: bv32)
    ensures Top(Join(u, v)) == Top(u) && Rest(Join(u, v)) == Rest(v)
  {
  }

  lemma BothParts(u: bv32, v: bv32)
    requires Top(u) == Top(v) && Rest(u) == Rest(v)
    ensures u == v
  {
  }

  lemma UnshiftOf(y: bv32)
    ensures Unshift(Xor(Half(y), Mag(y))) == y
  {
  }

  lemma XorAssoc(a: bv32, b: bv32, c: bv32)
    ensures Xor(a, Xor(b, c)) == Xor(Xor(a, b), c)
  {
  }

  lemma XorComm(a: bv32, b: bv32)
    ensures Xor(a, b) == Xor(b, a)
  {
  }

  lemma XorSelf(a: bv32)
    ensures Xor(a, a) == 0 && Xor(0, a) == a && Xor(a, 0) == a
  {
  }

  lemma XorMoves(a: bv32, b: bv32, c: bv32)
    ensures Xor(Xor(a, b), c) == Xor(Xor(a, c), b)
  {
    hide Xor;
    XorAssoc(a, b, c);
    XorComm(b, c);
    XorAssoc(a, c, b);
  }

  lemma XorLeaves(a: bv32, b: bv32, c: bv32)
    ensures Xor(Xor(Xor(a, b), c), a) == Xor(b, c)
  {
    hide Xor;
    XorMoves(Xor(a, b), c, a);
    XorMoves(a, b, a);
    XorSelf(a);
    XorSelf(b);
  }

  /** A step can be undone. */
  lemma StepUndone(far: bv32, u: bv32, v: bv32)
    ensures Untwist(far, Twist(far, u, v)) == Join(u, v)
  {
    hide Join, Half, Mag, Unshift, Xor;
    var y := Join(u, v);
    XorLeaves(far, Half(y), Mag(y));
    UnshiftOf(y);
  }

  lemma XorPairs(a: bv32, b: bv32, c: bv32, d: bv32)
    ensures Xor(Xor(a, b), Xor(c, d)) == Xor(Xor(a, c), Xor(b, d))
  {
    hide Xor;
    XorAssoc(Xor(a, b), c, d);
    XorMoves(a, b, c);
    XorAssoc(Xor(a, c), b, d);
  }

  lemma HalfLinear(y: bv32, z: bv32)
    ensures Half(Xor(y, z)) == Xor(Half(y), Half(z))
  {
  }

  lemma MagLinear(y: bv32, z: bv32)
    ensures Mag(Xor(y, z)) == Xor(Mag(y), Mag(z))
  {
    LowOfXor(y, z);
    XorSelf(MATRIX_A);
    XorSelf(0);
    hide Xor, Low;
  }

  lemma LowOfXor(y: bv32, z: bv32)
    ensures Low(Xor(y, z)) == 0 <==> (Low(y) == 0 <==> Low(z) == 0)
  {
  }

  lemma PartsLinear(u: bv32, v: bv32)
    ensures Top(Xor(u, v)) == Xor(Top(u), Top(v)) && Rest(Xor(u, v)) == Xor(Rest(u), Rest(v))
  {
  }

  lemma JoinIsSum(u: bv32, v: bv32)
    ensures Join(u, v) == Xor(Top(u), Rest(v))
  {
  }

  lemma JoinLinear(u: bv32, v: bv32, u': bv32, v': bv32)
    ensures Join(Xor(u, u'), Xor(v, v')) == Xor(Join(u, v), Join(u', v'))
  {
    hide Join, Xor, Top, Rest;
    JoinIsSum(u, v);
    JoinIsSum(u', v');
    JoinIsSum(Xor(u, u'), Xor(v, v'));
    PartsLinear(u, u');
    PartsLinear(v, v');
    XorPairs(Top(u), Top(u'), Rest(v), Rest(v'));
  }

  /** The step is linear over exclusive or. */
  lemma StepLinear(f: bv32, u: bv32, v: bv32, f': bv32, u': bv32, v': bv32)
    ensures Twist(Xor(f, f'), Xor(u, u'), Xor(v, v')) == Xor(Twist(f, u, v), Twist(f', u', v'))
  {
    hide Join, Half, Mag, Xor;
    JoinLinear(u, v, u', v');
    var y, y' := Join(u, v), Join(u', v');
    HalfLinear(y, y');
    MagLinear(y, y');
    XorPairs(f, f', Half(y), Half(y'));
    XorPairs(Xor(f, Half(y)), Xor(f', Half(y')), Mag(y), Mag(y'));
  }

  ghost predicate FollowsAt(w: nat -> bv32, n: nat) { w(n + N) == Twist(w(n + M), w(n), w(n + 1)) }

  /** Words that follow the recurrence, whatever the first N of them are. */
  ghost predicate Follows(w: nat -> bv32) { forall n: nat :: FollowsAt(w, n) }

  /** The recurrence is linear over exclusive or from its first N words on. */
  lemma {:induction false} RunsAdd(a: nat -> bv32, b: nat -> bv32, c: nat -> bv32, n: nat)
    requires Follows(a) && Follows(b) && Follows(c) && forall k: nat :: k < N ==> c(k) == Xor(a(k), b(k))
    ensures c(n) == Xor(a(n), b(n))
  {
    hide Twist, Xor;
    if n >= N {
      var m := n - N;
      RunsAdd(a, b, c, m);
      RunsAdd(a, b, c, m + 1);
      RunsAdd(a, b, c, m + M);
      StepLinear(a(m + M), a(m), a(m + 1), b(m + M), b(m), b(m + 1));
      assert FollowsAt(a, m) && FollowsAt(b, m) && FollowsAt(c, m);
    }
  }

  lemma SameStep(far: bv32, u: bv32, u': bv32, v: bv32)
    requires Top(u) == Top(u')
    ensures Twist(far, u, v) == Twist(far, u', v)
  {
    hide Join, Top, Blend;
    JoinIsSum(u, v);
    JoinIsSum(u', v);
  }

  /** Of the first word only the top bit is ever used. */
  lemma {:induction false} TopBitOnly(a: nat -> bv32, b: nat -> bv32, n: nat)
    requires Follows(a) && Follows(b) && (forall k: nat :: 1 <= k < N ==> a(k) == b(k)) && n >= 1
    requires Top(a(0)) == Top(b(0))
    ensures a(n) == b(n)
  {
    hide Twist, Top;
    if n >= N {
      var m := n - N;
      TopBitOnly(a, b, m + 1);
      TopBitOnly(a, b, m + M);
      if m > 0 {
        TopBitOnly(a, b, m);
      }
      SameStep(a(m + M), a(m), b(m), a(m + 1));
      assert FollowsAt(a, m) && FollowsAt(b, m);
    }
  }

  function SeedBack(x: bv32): bv32 { x * 0xa5e2a705 }

  lemma ProductUndone(x: bv32)
    ensures SeedBack(69069 * x) == x
  {
  }

  /** The congruential generator loses nothing either. */
  lemma SeedUndone(x: bv32)
    ensures SeedBack(SeedStep(x)) == x
  {
    ProductUndone(x);
    hide SeedBack;
    MaskAll(69069 * x);
  }

  // ---------------------------------------------------------------- tempering

  function Xor(x: bv32, y: bv32): bv32 { x ^ y }
  function And(x: bv32, y: bv32): bv32 { x & y }
  function ShiftU(y: bv32): bv32 { y >> 11 }
  function ShiftS(y: bv32): bv32 { y << 7 }
  function ShiftT(y: bv32): bv32 { y << 15 }
  function ShiftL(y: bv32): bv32 { y >> 18 }

  function T1(y: bv32): bv32 { Xor(y, ShiftU(y)) }
  function T2(y: bv32): bv32 { Xor(y, And(ShiftS(y), TEMPERING_MASK_B)) }
  function T3(y: bv32): bv32 { Xor(y, And(ShiftT(y), TEMPERING_MASK_C)) }
  function T4(y: bv32): bv32 { Xor(y, ShiftL(y)) }

  function Temper(y: bv32): bv32 { T4(T3(T2(T1(y)))) }

  /** The four tempering assignments. No state word is lost: each can be recovered from its output. */
  method Tempered(w: bv32) returns (y: bv32)
    ensures y == Temper(w) && Untemper(y) == w
  {
    hide Xor, And, ShiftU, ShiftS, ShiftT, ShiftL, Untemper;
    TemperRoundTrip(w);
    y := w;
    y := Xor(y, ShiftU(y));
    y := Xor(y, And(ShiftS(y), TEMPERING_MASK_B));
    y := Xor(y, And(ShiftT(y), TEMPERING_MASK_C));
    y := Xor(y, ShiftL(y));
  }

  /** Inverses of the four steps. */
  function U1(z: bv32): bv32 { Xor(Xor(z, ShiftU(z)), ShiftU(ShiftU(z))) }
  function U2(z: bv32): bv32 { Fill(z, Fill(z, Fill(z, Fill(z, z)))) }
  function Fill(z: bv32, u: bv32): bv32 { z ^ ((u << 7) & TEMPERING_MASK_B) }
  function U3(z: bv32): bv32 { z ^ (((z ^ ((z << 15) & TEMPERING_MASK_C)) << 15) & TEMPERING_MASK_C) }
  function U4(z: bv32): bv32 { T4(z) }

  /** Recovers a state word from an output. */
  function Untemper(z: bv32): bv32 { U1(U2(U3(U4(z)))) }

  lemma ShiftXor(x: bv32, y: bv32)
    ensures ShiftU(Xor(x, y)) == Xor(ShiftU(x), ShiftU(y)) && ShiftL(Xor(x, y)) == Xor(ShiftL(x), ShiftL(y))
  {
  }

  lemma ShiftedOut(y: bv32)
    ensures ShiftU(ShiftU(ShiftU(y))) == 0 && ShiftL(ShiftL(y)) == 0
  {
  }

  lemma XorCancels(x: bv32, y: bv32, z: bv32)
    ensures Xor(Xor(x, y), y) == x && Xor(x, 0) == x && Xor(Xor(Xor(x, y), Xor(y, z)), z) == x
  {
  }

  lemma Undo1(y: bv32)
    ensures U1(T1(y)) == y
  {
    hide Xor, ShiftU;
    var s := ShiftU(y);
    ShiftXor(y, s);
    ShiftXor(s, ShiftU(s));
    ShiftedOut(y);
    XorCancels(y, s, ShiftU(s));
    XorCancels(ShiftU(s), 0, 0);
  }

  lemma Undo2(y: bv32)
    ensures U2(T2(y)) == y
  {
  }

  lemma Undo3(y: bv32)
    ensures U3(T3(y)) == y
  {
  }

  lemma Undo4(y: bv32)
    ensures U4(T4(y)) == y
  {
    hide Xor, ShiftL;
    var s := ShiftL(y);
    ShiftXor(y, s);
    ShiftedOut(y);
    XorCancels(y, s, 0);
    XorCancels(s, 0, 0);
  }

  /** Tempering loses nothing: every output determines the word it came from. */
  lemma TemperRoundTrip(y: bv32)
    ensures Untemper(Temper(y)) == y
  {
    hide T1, T2, T3, T4, U1, U2, U3, U4;
    Undo4(T3(T2(T1(y))));
    Undo3(T2(T1(y)));
    Undo2(T1(y));
    Undo1(y);
  }

  lemma TemperInjective(x: bv32, y: bv32)
    requires Temper(x) == Temper(y)
    ensures x == y
  {
    hide Temper, Untemper;
    TemperRoundTrip(x);
    TemperRoundTrip(y);
  }

  // ---------------------------------------------------------------- the generator

  class Generator {
    const mt: array<bv32>
    var mti: nat
    ghost var seed: bv32
    ghost var base: nat

    /** The static state before any call. */
    constructor ()
      ensures Valid() && !Seeded()
    {
      mt := new bv32[N];
      mti, seed, base := N + 1, 0, 0;
    }

    ghost predicate Seeded()
      reads this
    {
      mti <= N
    }

    /** Once seeded, the array is a window of the sequence, from place base on. */
    ghost predicate Valid()
      reads this, mt
    {
      mt.Length == N && mti <= N + 1 && (Seeded() ==> base + mti >= N && Window(mt[..], seed, base))
    }

    /** How many numbers have been drawn since seeding. */
    ghost function Drawn(): nat
      requires Valid() && Seeded()
      reads this, mt
    {
      base + mti - N
    }

    /** Fills the array from a seed. */
    method Sgenrand(s: bv32)
      requires Valid()
      modifies this, mt
      ensures Valid() && Seeded() && seed == s && Drawn() == 0 && mti == N
    {
      hide X, SeedStep;
      SeedWord(s, 0);
      MaskAll(s);
      mt[0] := s & 0xffffffff;
      mti := 1;
      while mti < N
        invariant 1 <= mti <= N && forall k :: 0 <= k < mti ==> mt[k] == X(s, k)
      {
        SeedWord(s, mti);
        mt[mti] := SeedStep(mt[mti - 1]);
        mti := mti + 1;
      }
      seed, base := s, 0;
    }

    /** Generates N words at one time, over the old ones. */
    method Regenerate()
      requires Valid() && Seeded()
      modifies mt, this`base
      ensures mt.Length == N && Window(mt[..], seed, base) && base == old(base) + N
    {
      hide X, Join, Blend, Mixed, Window;
      MixStart(mt[..], seed, base);
      var kk := 0;
      while kk < N - M
        invariant kk <= N - M && base == old(base) && Mixed(mt[..], seed, base, kk)
      {
        MixStep(mt[..], seed, base, kk, kk + M, kk + 1);
        var y := Join(mt[kk], mt[kk + 1]);
        Write(kk, Blend(mt[kk + M], y));
        kk := kk + 1;
      }
      while kk < N - 1
        invariant N - M <= kk <= N - 1 && base == old(base) && Mixed(mt[..], seed, base, kk)
      {
        MixStep(mt[..], seed, base, kk, kk + M - N, kk + 1);
        var y := Join(mt[kk], mt[kk + 1]);
        Write(kk, Blend(mt[kk + M - N], y));
        kk := kk + 1;
      }
      MixStep(mt[..], seed, base, N - 1, M - 1, 0);
      var y := Join(mt[N - 1], mt[0]);
      Write(N - 1, Blend(mt[M - 1], y));
      MixEnd(mt[..], seed, base);
      base := base + N;
    }

    method Write(k: nat, w: bv32)
      requires k < mt.Length
      modifies mt
      ensures mt[..] == old(mt[..])[k := w]
    {
      mt[k] := w;
    }

    /** The next number: the tempering of the next word of the recurrence. */
    method Genrand() returns (y: bv32)
      requires Valid()
      modifies this, mt
      ensures Valid() && Seeded() && seed == if old(Seeded()) then old(seed) else DEFAULT_SEED
      ensures old(Seeded()) ==> y == Temper(X(seed, N + old(Drawn()))) && Drawn() == old(Drawn()) + 1
      ensures !old(Seeded()) ==> y == Temper(X(DEFAULT_SEED, N)) && Drawn() == 1
    {
      hide X, Temper;
      if mti >= N {
        if mti == N + 1 {
          Sgenrand(4357);
        }
        Regenerate();
        mti := 0;
      }
      y := mt[mti];
      mti := mti + 1;
      y := Tempered(y);
    }
  }

  lemma MaskAll(x: bv32)
    ensures x & 0xffffffff == x
  {
  }

  /** The array holds the words of the sequence from place base on. */
  ghost predicate Window(m: seq<bv32>, seed: bv32, base: nat) {
    |m| == N && forall k: nat :: k < N ==> m[k] == X(seed, base + k)
  }

  /** The first kk words have been replaced by those N places further on. */
  ghost predicate Mixed(m: seq<bv32>, seed: bv32, base: nat, kk: nat) {
    |m| == N && (forall k: nat :: k < kk && k < N ==> m[k] == X(seed, base + N + k)) &&
    forall k: nat :: kk <= k < N ==> m[k] == X(seed, base + k)
  }

  lemma MixStart(m: seq<bv32>, seed: bv32, base: nat)
    requires Window(m, seed, base)
    ensures Mixed(m, seed, base, 0)
  {
  }

  /** The words that step kk reads are those the recurrence asks for, whether already replaced or not. */
  lemma MixStep(m: seq<bv32>, seed: bv32, base: nat, kk: nat, far: nat, next: nat)
    requires Mixed(m, seed, base, kk) && kk < N
    requires far == (if kk < N - M then kk + M else kk + M - N) && next == (if kk < N - 1 then kk + 1 else 0)
    ensures |m| == N && Mixed(m[kk := Twist(m[far], m[kk], m[next])], seed, base, kk + 1)
  {
    hide X, Twist;
    Recurrence(seed, base + kk);
    assert m[far] == X(seed, base + kk + M);
    assert m[next] == X(seed, base + kk + 1);
  }

  lemma MixEnd(m: seq<bv32>, seed: bv32, base: nat)
    requires Mixed(m, seed, base, N)
    ensures Window(m, seed, base + N)
  {
  }

  lemma SeedWord(s: bv32, n: nat)
    requires n < N
    ensures X(s, 0) == s && (n > 0 ==> X(s, n) == SeedStep(X(s, n - 1)))
  {
  }

  /** The recurrence from seed 0 never leaves 0, which is why the seed must not be 0. */
  lemma {:induction false} ZeroSeed(n: nat)
    ensures X(0, n) == 0 && Temper(X(0, n)) == 0
  {
    if n == 0 {
    } else if n < N {
      ZeroSeed(n - 1);
    } else {
      ZeroSeed(n - N);
      ZeroSeed(n - N + 1);
      ZeroSeed(n - N + M);
    }
  }

  /** 624 consecutive outputs determine every later one, whatever seed they came from. */
  lemma {:induction false} OutputsDetermine(s: bv32, t: bv32, n: nat, m: nat)
    requires forall k: nat :: n <= k < n + N ==> Temper(X(s, k)) == Temper(X(t, k))
    requires n <= m
    ensures X(s, m) == X(t, m)
    decreases m
  {
    hide X, Temper;
    if m < n + N {
      TemperInjective(X(s, m), X(t, m));
    } else {
      OutputsDetermine(s, t, n, m - N);
      OutputsDetermine(s, t, n, m - N + 1);
      OutputsDetermine(s, t, n, m - N + M);
      Recurrence(s, m - N);
      Recurrence(t, m - N);
    }
  }

  /** They determine every earlier word too, but for the first, and with it the seed. */
  lemma {:induction false} OutputsDetermineEarlier(s: bv32, t: bv32, n: nat, m: nat)
    requires forall k: nat :: n <= k < n + N ==> Temper(X(s, k)) == Temper(X(t, k))
    requires 1 <= m <= n + N
    ensures X(s, m) == X(t, m)
    decreases n + N - m
  {
    hide X, Temper, Twist, Untwist, Top, Rest;
    if m >= n {
      OutputsDetermine(s, t, n, m);
    } else {
      OutputsDetermineEarlier(s, t, n, m + 1);
      OutputsDetermineEarlier(s, t, n, m + M);
      OutputsDetermineEarlier(s, t, n, m + N);
      OutputsDetermineEarlier(s, t, n, m + M - 1);
      OutputsDetermineEarlier(s, t, n, m + N - 1);
      Recovered(s, m);
      Recovered(t, m);
      BothParts(X(s, m), X(t, m));
    }
  }

  /** The word at place m from those after it: its top bit, and its other bits. */
  lemma Recovered(s: bv32, m: nat)
    requires m >= 1
    ensures Top(X(s, m)) == Top(Untwist(X(s, m + M), X(s, m + N)))
    ensures Rest(X(s, m)) == Rest(Untwist(X(s, m + M - 1), X(s, m + N - 1)))
  {
    hide X, Twist, Untwist, Join, Top, Rest;
    Recurrence(s, m);
    Recurrence(s, m - 1);
    StepUndone(X(s, m + M), X(s, m), X(s, m + 1));
    StepUndone(X(s, m + M - 1), X(s, m - 1), X(s, m));
    StepReads(X(s, m), X(s, m + 1));
    StepReads(X(s, m - 1), X(s, m));
  }

  /** 624 consecutive numbers determine the seed. */
  lemma OutputsDetermineSeed(s: bv32, t: bv32, n: nat)
    requires forall k: nat :: n <= k < n + N ==> Temper(X(s, k)) == Temper(X(t, k))
    ensures s == t
  {
    hide X, Temper, SeedStep, SeedBack;
    OutputsDetermineEarlier(s, t, n, 1);
    SeedWord(s, 0);
    SeedWord(s, 1);
    SeedWord(t, 0);
    SeedWord(t, 1);
    SeedUndone(s);
    SeedUndone(t);
  }
}
