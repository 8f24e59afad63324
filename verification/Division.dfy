/** Unsigned 64-bit division built from 16-bit digits in wrapping 32-bit arithmetic
    (410kern/misc/gccisms.c). A C pointer into a digit buffer is an array with an offset. */
module Division {
  import opened Basics
  import opened Bits
  import opened DigitArith

  /** A division by zero traps; any other division gives the quotient and, when the caller
      passed a place for it, the remainder. */
  datatype Outcome = DivideFault | Quotient(q: nat, r: Option<nat>)

  // ---------------------------------------------------------------- shifting digits

  /** The part of digit x that a left shift by sh bits moves into the next digit. */
  function High(x: nat, sh: nat): nat
    requires sh <= 16
  {
    Shr(x, 16 - sh)
  }

  /** The part of digit x that a left shift by sh bits leaves in its own digit. */
  function Low(x: nat, sh: nat): nat
    requires sh <= 16
  {
    Shl(LowBits(x, 16 - sh), sh)
  }

  lemma SplitByFactors(x: nat, h: nat, l: nat, a: nat, c: nat)
    requires x < B && a >= 1 && c >= 1 && a * c == B && x == c * h + l && l < c
    ensures h < a && x * a == h * B + l * a && l * a + a <= B
  {
    MulMonotone(l + 1, c, a);
    assert (l + 1) * a == l * a + a;
    assert x * a == (c * h) * a + l * a;
    assert (c * h) * a == h * (a * c);
    if h >= a {
      MulMonotone(a, h, c);
    }
  }

  lemma LowOfShift(y: nat, h: nat, low: nat, a: nat)
    requires y == h * B + low && low < B && h < a <= B
    ensures LHalf(U32(y)) == low
  {
  }

  lemma ShiftByFactors(x: nat, a: nat, c: nat)
    requires x < B && a >= 1 && c >= 1 && a * c == B
    ensures x / c < a
    ensures x * a == (x / c) * B + (x % c) * a
    ensures (x % c) * a + a <= B
    ensures LHalf(U32(x * a)) == (x % c) * a
  {
    DivBounds(x, c);
    SplitByFactors(x, x / c, x % c, a, c);
    LowOfShift(x * a, x / c, (x % c) * a, a);
  }

  lemma ShiftFactors(sh: nat)
    requires sh <= 16
    ensures Pow2(sh) * Pow2(16 - sh) == B
  {
    Pow2Add(sh, 16 - sh);
    ByteAndHalfWord();
  }

  lemma ShiftSplit(x: nat, sh: nat)
    requires x < B && sh <= 16
    ensures High(x, sh) < Pow2(sh)
    ensures Shl(x, sh) == High(x, sh) * B + Low(x, sh)
    ensures Low(x, sh) + Pow2(sh) <= B
    ensures LHalf(U32(Shl(x, sh))) == Low(x, sh)
  {
    hide Pow2;
    ShiftFactors(sh);
    ShiftByFactors(x, Pow2(sh), Pow2(16 - sh));
  }

  lemma LowMultiple(x: nat, sh: nat)
    requires sh <= 16
    ensures Low(x, sh) % Pow2(sh) == 0
  {
    MulMod(Pow2(sh), LowBits(x, 16 - sh));
  }

  lemma ShlDigit(x: nat, y: nat, sh: nat)
    requires x < B && y < B && sh <= 16
    ensures Or(LHalf(U32(Shl(x, sh))), High(y, sh)) == Low(x, sh) + High(y, sh)
    ensures Low(x, sh) + High(y, sh) < B
  {
    hide *;
    ShiftSplit(x, sh);
    ShiftSplit(y, sh);
    LowMultiple(x, sh);
    OrDisjoint(Low(x, sh), High(y, sh), sh);
  }

  lemma ShlExtend(vn: int, vo: int, x: int, y: int, h: int, P: int, high: int, low: int, a: int)
    requires x * a == high * B + low
    requires vn + h * P == vo * a + high
    ensures (vn * B + low + y) + h * (P * B) == (vo * B + x) * a + y
  {
    assert (vo * B + x) * a == (vo * a) * B + x * a;
    assert h * (P * B) == (h * P) * B;
  }

  lemma ShlAppend(vn: int, vn1: int, vo: nat, vo1: nat, x: nat, y: int, h: nat, P: nat, P1: nat, high: int, low: int,
      sh: nat)
    requires Shl(x, sh) == high * B + low && P1 == P * B
    requires vn + Mul(h, P) == Shl(vo, sh) + high
    requires vn1 == vn * B + low + y && vo1 == vo * B + x
    ensures vn1 + Mul(h, P1) == Shl(vo1, sh) + y
  {
    hide *;
    ShlIsProduct(x, sh);
    ShlIsProduct(vo, sh);
    ShlIsProduct(vo1, sh);
    MulIsProduct(h, P);
    MulIsProduct(h, P1);
    ShlExtend(vn, vo, x, y, h, P, high, low, Pow2(sh));
  }

  lemma MulIsProduct(a: nat, b: nat)
    ensures Mul(a, b) == a * b
  {
  }

  /** Shifting one more digit x, whose right neighbour carries y bits into it. */
  lemma ShlStep(n: seq<nat>, o: seq<nat>, x: nat, y: nat, h: nat, sh: nat)
    requires |n| == |o| && x < B && sh <= 16
    requires Val(n) + Mul(h, PowB(|n|)) == Shl(Val(o), sh) + High(x, sh)
    ensures Val(n + [Low(x, sh) + y]) + Mul(h, PowB(|n| + 1)) == Shl(Val(o + [x]), sh) + y
  {
    hide *;
    ShiftSplit(x, sh);
    ValAppend(n, Low(x, sh) + y);
    ValAppend(o, x);
    PowBNext(|n|);
    var n1, o1 := n + [Low(x, sh) + y], o + [x];
    ShlAppend(Val(n), Val(n1), Val(o), Val(o1), x, y, h, PowB(|n|), PowB(|n| + 1), High(x, sh), Low(x, sh), sh);
  }

  /** The first |w| digits of o have been shifted, giving w; the bits h fell out of the first. */
  ghost predicate Shifting(o: seq<nat>, w: seq<nat>, h: nat, sh: nat) {
    sh <= 16 && |w| < |o| && Digits(o) && Digits(w) &&
    Val(w) + Mul(h, PowB(|w|)) == Shl(Val(o[..|w|]), sh) + High(o[|w|], sh)
  }

  lemma ShiftingStart(o: seq<nat>, sh: nat)
    requires |o| > 0 && Digits(o) && sh <= 16
    ensures Shifting(o, [], High(o[0], sh), sh)
  {
    hide Pow2;
    assert o[..0] == [];
    ShlIsProduct(0, sh);
  }

  lemma ShiftingNext(o: seq<nat>, w: seq<nat>, h: nat, sh: nat)
    requires Shifting(o, w, h, sh) && |w| + 1 < |o|
    ensures Shifting(o, w + [Or(LHalf(U32(Shl(o[|w|], sh))), High(o[|w| + 1], sh))], h, sh)
  {
    hide Val, PowB, Pow2, Or, Shl, High, Low, Mul;
    var i := |w|;
    ShlDigit(o[i], o[i + 1], sh);
    ShlStep(w, o[..i], o[i], High(o[i + 1], sh), h, sh);
    assert o[..i + 1] == o[..i] + [o[i]];
  }

  lemma ShiftingEnd(o: seq<nat>, w: seq<nat>, h: nat, sh: nat)
    requires Shifting(o, w, h, sh) && |w| + 1 == |o|
    ensures Digits(w + [LHalf(U32(Shl(o[|w|], sh)))])
    ensures Val(w + [LHalf(U32(Shl(o[|w|], sh)))]) + Mul(h, PowB(|o|)) == Shl(Val(o), sh)
  {
    hide Val, PowB, Pow2, Or, Shl, High, Low, Mul;
    var i := |w|;
    ShiftSplit(o[i], sh);
    ShlStep(w, o[..i], o[i], 0, h, sh);
    assert o == o[..i] + [o[i]];
    assert Low(o[i], sh) + 0 == Low(o[i], sh);
  }

  /** Shifts the len + 1 digits at p[k] left by sh bits. Bits that leave the top digit are lost:
      they are the old top digit's high part. */
  method ShiftDigits(p: array<nat>, k: nat, len: nat, sh: nat)
    requires k + len < p.Length && 0 < sh < 16 && Digits(p[k..k + len + 1])
    modifies p
    ensures Digits(p[k..k + len + 1])
    ensures Val(p[k..k + len + 1]) + Mul(High(old(p[k]), sh), PowB(len + 1))
         == Shl(Val(old(p[k..k + len + 1])), sh)
    ensures forall z :: 0 <= z < k || k + len < z < p.Length ==> p[z] == old(p[z])
  {
    hide *;
    ghost var o := p[k..k + len + 1];
    ghost var h := High(p[k], sh);
    ShiftingStart(o, sh);
    assert p[k..k] == [];
    var i := 0;
    while i < len
      invariant i <= len
      invariant forall z :: 0 <= z < k || k + len < z < p.Length ==> p[z] == old(p[z])
      invariant p[k + i..k + len + 1] == o[i..]
      invariant Shifting(o, p[k..k + i], h, sh)
    {
      ghost var w := p[k..k + i];
      ShiftingNext(o, w, h, sh);
      TwoHeads(p[k + i..k + len + 1], o[i..]);
      ghost var rest := p[k + i + 1..k + len + 1];
      p[k + i] := Or(LHalf(U32(Shl(p[k + i], sh))), High(p[k + i + 1], sh));
      assert |w| == i && p[k + i] == Or(LHalf(U32(Shl(o[i], sh))), High(o[i + 1], sh));
      assert p[k..k + i + 1] == w + [p[k + i]];
      assert p[k + i + 1..k + len + 1] == rest;
      i := i + 1;
    }
    ghost var w := p[k..k + i];
    ShiftingEnd(o, w, h, sh);
    assert p[k + i] == p[k + i..k + len + 1][0] == o[i];
    p[k + i] := LHalf(U32(Shl(p[k + i], sh)));
    assert p[k..k + i + 1] == w + [p[k + i]];
  }

  lemma TwoHeads(s: seq<nat>, t: seq<nat>)
    requires s == t && |s| >= 2
    ensures s[0] == t[0] && s[1] == t[1] && s[1..] == t[1..]
  {
  }

  // ---------------------------------------------------------------- one quotient digit

  function Two(a: nat, b: nat): nat { a * B + b }

  function Three(a: nat, b: nat, c: nat): nat { Two(a, b) * B + c }

  /** What step D3 knows about its current estimate: rhat is the remainder that goes with it,
      and the estimate is not smaller than the capped quotient of leading digits. */
  ghost predicate Estimating(u0: nat, u1: nat, u2: nat, v1: nat, v2: nat, qhat: nat, rhat: nat) {
    rhat == Two(u0, u1) - qhat * v1 && qhat < B &&
    (qhat == B - 1 || (qhat + 1) * Two(v1, v2) > Three(u0, u1, u2))
  }

  /** Step D3. The estimate is the quotient of the three leading dividend digits by the two
      leading divisor digits, capped at the largest digit. */
  method EstimateDigit(u0: nat, u1: nat, u2: nat, v1: nat, v2: nat) returns (qhat: nat)
    requires u0 < B && u1 < B && u2 < B && v1 < B && v2 < B
    requires v1 >= B / 2 && u0 <= v1
    ensures qhat == Min(B - 1, Div(Three(u0, u1, u2), Two(v1, v2)))
  {
    hide Two, Three, Combine, Estimating, Min, Div, Mod, U32;
    var rhat: nat;
    var tooBig := false;
    if u0 == v1 {
      qhat, rhat, tooBig := B, u1, true;
    } else {
      CombineIsSum(u0, u1);
      var nn := Combine(u0, u1);
      qhat, rhat := Div(nn, v1), Mod(nn, v1);
      FirstEstimate(u0, u1, u2, v1, v2, nn);
    }
    while tooBig || U32(v2 * qhat) > Combine(rhat, u2)
      invariant rhat < B
      invariant if tooBig then u0 == v1 && qhat == B && rhat == u1
                else qhat < B && Estimating(u0, u1, u2, v1, v2, qhat, rhat)
      decreases qhat
    {
      if tooBig {
        CappedEstimate(u0, u1, u2, v1, v2);
      } else {
        EstimateTooBig(u0, u1, u2, v1, v2, qhat, rhat);
      }
      tooBig := false;
      qhat := qhat - 1;
      rhat := U32(rhat + v1);
      if rhat >= B {
        break;
      }
    }
    EstimateDone(u0, u1, u2, v1, v2, qhat, rhat);
  }

  lemma FirstEstimate(u0: nat, u1: nat, u2: nat, v1: nat, v2: nat, nn: nat)
    requires u0 < v1 < B && u1 < B && u2 < B && nn == u0 * B + u1
    ensures Div(nn, v1) < B && Mod(nn, v1) < B
    ensures Estimating(u0, u1, u2, v1, v2, Div(nn, v1), Mod(nn, v1))
  {
    QuotientOfTwo(nn, u0, v1);
    NextTooBig(Div(nn, v1) + 1, v1, v2, nn, u2);
  }

  lemma QuotientOfTwo(nn: nat, u0: nat, v1: nat)
    requires u0 < v1 < B && nn < (u0 + 1) * B
    ensures Div(nn, v1) < B && Mod(nn, v1) < v1
    ensures Mod(nn, v1) == nn - Div(nn, v1) * v1
    ensures (Div(nn, v1) + 1) * v1 > nn
  {
    DivBelow(nn, v1, B);
    DivBounds(nn, v1);
  }

  lemma NextTooBig(q: nat, v1: nat, v2: nat, nn: nat, u2: nat)
    requires q * v1 > nn && u2 < B
    ensures q * (v1 * B + v2) > nn * B + u2
  {
    assert q * (v1 * B + v2) == (q * v1) * B + q * v2;
  }

  lemma CappedEstimate(u0: nat, u1: nat, u2: nat, v1: nat, v2: nat)
    requires u0 == v1 < B && u1 < B
    ensures U32(u1 + v1) == u1 + v1
    ensures Estimating(u0, u1, u2, v1, v2, B - 1, u1 + v1)
  {
  }

  /** The product v2 * qhat does not wrap. */
  lemma ProductFits(v2: nat, qhat: nat)
    requires v2 < B && qhat < B
    ensures U32(v2 * qhat) == v2 * qhat < (B - 1) * B
  {
    MulMonotone(v2, B - 1, qhat);
    MulMonotone(qhat, B - 1, B - 1);
  }

  lemma EstimateTooBig(u0: nat, u1: nat, u2: nat, v1: nat, v2: nat, qhat: nat, rhat: nat)
    requires u0 < B && u1 < B && u2 < B && v1 < B && v2 < B && rhat < B
    requires Estimating(u0, u1, u2, v1, v2, qhat, rhat) && U32(v2 * qhat) > Combine(rhat, u2)
    ensures qhat > 0 && U32(rhat + v1) == rhat + v1
    ensures Estimating(u0, u1, u2, v1, v2, qhat - 1, rhat + v1)
  {
    CombineIsSum(rhat, u2);
    ProductFits(v2, qhat);
    assert qhat > 0;
    SplitProduct(qhat, v1, v2);
    assert (qhat - 1) * v1 == qhat * v1 - v1;
  }

  lemma SplitProduct(q: nat, v1: nat, v2: nat)
    ensures q * Two(v1, v2) == (q * v1) * B + v2 * q
  {
  }

  lemma EstimateDone(u0: nat, u1: nat, u2: nat, v1: nat, v2: nat, qhat: nat, rhat: nat)
    requires u0 < B && u1 < B && u2 < B && v1 < B && v2 < B && v1 >= B / 2
    requires Estimating(u0, u1, u2, v1, v2, qhat, rhat)
    requires rhat >= B || U32(v2 * qhat) <= Combine(rhat, u2)
    ensures Two(v1, v2) > 0
    ensures qhat == Min(B - 1, Div(Three(u0, u1, u2), Two(v1, v2)))
  {
    ProductFits(v2, qhat);
    if rhat < B {
      CombineIsSum(rhat, u2);
    }
    SplitProduct(qhat, v1, v2);
    CappedQuotient(Three(u0, u1, u2), Two(v1, v2), qhat);
  }

  lemma CappedQuotient(u: nat, v: nat, qhat: nat)
    requires v > 0 && qhat < B && qhat * v <= u
    requires qhat == B - 1 || (qhat + 1) * v > u
    ensures qhat == Min(B - 1, Div(u, v))
  {
    QuotientAtLeast(u, v, qhat);
    if (qhat + 1) * v > u {
      DivBelow(u, v, qhat + 1);
    }
  }

  lemma QuotientAtLeast(x: nat, d: nat, k: nat)
    requires d > 0 && k * d <= x
    ensures k <= x / d
  {
    DivBounds(x, d);
    if k > x / d {
      MulMonotone(x / d + 1, k, d);
    }
  }

  lemma ValTwo(a: nat, b: nat)
    ensures Val([a, b]) == Two(a, b)
  {
    ValAppend([], a);
    assert [] + [a] == [a];
    ValAppend([a], b);
    assert [a] + [b] == [a, b];
  }

  lemma ValThree(a: nat, b: nat, c: nat)
    ensures Val([a, b, c]) == Three(a, b, c)
  {
    ValTwo(a, b);
    ValAppend([a, b], c);
    assert [a, b] + [c] == [a, b, c];
  }

  /** The next dividend digit d keeps the partial dividend below B times the divisor. */
  lemma PartialDividendBound(r: nat, d: nat, v: nat)
    requires r < v && d < B
    ensures r * B + d < v * B
  {
  }

  /** Step D3's estimate, seen on the digits of the whole partial dividend u and divisor v. */
  lemma EstimateWithinOne(u: seq<nat>, v: seq<nat>, qhat: nat)
    requires |v| >= 2 && |u| == |v| + 1 && Digits(u) && Digits(v) && v[0] >= B / 2
    requires Val(u[..|v|]) < Val(v)
    requires Two(v[0], v[1]) > 0
    requires qhat == Min(B - 1, Div(Three(u[0], u[1], u[2]), Two(v[0], v[1])))
    ensures Div(Val(u), Val(v)) <= qhat <= Div(Val(u), Val(v)) + 1
    ensures qhat < B
  {
    hide Val, PowB, Two, Three;
    var ul, vl, P := u[3..], v[2..], PowB(|v| - 2);
    assert u == [u[0], u[1], u[2]] + ul && v == [v[0], v[1]] + vl;
    ValSplit([u[0], u[1], u[2]], ul);
    ValSplit([v[0], v[1]], vl);
    ValTwo(v[0], v[1]);
    ValThree(u[0], u[1], u[2]);
    ValBound(ul);
    ValBound(vl);
    assert u == u[..|v|] + [u[|v|]];
    ValAppend(u[..|v|], u[|v|]);
    PartialDividendBound(Val(u[..|v|]), u[|v|], Val(v));
    var u3, v2 := Three(u[0], u[1], u[2]), Two(v[0], v[1]);
    assert v2 >= B by { TwoIsLarge(v[0], v[1]); }
    WithinOne(u3, Val(ul), v2, Val(vl), P, qhat, Val(u), Val(v));
  }

  lemma TwoIsLarge(a: nat, b: nat)
    requires a >= 1
    ensures Two(a, b) >= B
  {
  }

  lemma WithinOne(u3: nat, ul: nat, v2: nat, vl: nat, P: nat, qhat: nat, u: nat, v: nat)
    requires P >= 1 && ul < P && vl < P && v2 >= B
    requires u == u3 * P + ul && v == v2 * P + vl && 0 < v && u < v * B
    requires qhat == Min(B - 1, Div(u3, v2))
    ensures Div(u, v) <= qhat <= Div(u, v) + 1
    ensures qhat < B
  {
    QhatWithinOne(u3, ul, v2, vl, P, qhat);
  }

  /** Step D4 from the last digit up: w are the new low digits of the partial dividend o, t the borrow. */
  ghost predicate Subtracting(o: seq<nat>, v: seq<nat>, qhat: nat, w: seq<nat>, t: nat) {
    |o| == |v| + 1 && |w| <= |v| && Digits(o) && Digits(v) && Digits(w) && qhat < B && t < B &&
    Val(w) + qhat * Val(v[|v| - |w|..]) == Val(o[|o| - |w|..]) + t * PowB(|w|)
  }

  lemma EmptyVal()
    ensures Val([]) == 0 && PowB(0) == 1
  {
  }

  lemma SubtractingStart(o: seq<nat>, v: seq<nat>, qhat: nat)
    requires |o| == |v| + 1 && Digits(o) && Digits(v) && qhat < B
    ensures Subtracting(o, v, qhat, [], 0)
  {
    EmptyVal();
    assert v[|v|..] == [] && o[|o|..] == [];
  }

  lemma SubtractingNext(o: seq<nat>, v: seq<nat>, qhat: nat, w: seq<nat>, t: nat, i: nat, x: nat)
    requires Subtracting(o, v, qhat, w, t) && 0 < i == |v| - |w|
    requires x == U32(o[i] - Mul(v[i - 1], qhat) - t)
    ensures Subtracting(o, v, qhat, [LHalf(x)] + w, (B - HHalf(x)) % B)
  {
    hide Val, PowB, Mul, U32, DigitArith.LHalf, DigitArith.HHalf;
    assert o[i..] == [o[i]] + o[i + 1..] && v[i - 1..] == [v[i - 1]] + v[i..];
    MulSubStep(w, o[i + 1..], v[i..], o[i], v[i - 1], qhat, t, x, LHalf(x), (B - HHalf(x)) % B);
  }

  lemma SubtractingEnd(o: seq<nat>, v: seq<nat>, qhat: nat, w: seq<nat>, t: nat, x: nat)
    requires Subtracting(o, v, qhat, w, t) && |w| == |v| && x == U32(o[0] - t)
    ensures Digits([LHalf(x)] + w)
    ensures Val([LHalf(x)] + w) + qhat * Val(v) == Val(o) + if HHalf(x) != 0 then PowB(|v| + 1) else 0
  {
    hide Val, PowB, U32, DigitArith.LHalf, DigitArith.HHalf;
    assert o == [o[0]] + o[1..] && v[0..] == v;
    MulSubTop(w, o[1..], qhat * Val(v), o[0], t, x, LHalf(x));
  }

  /** Step D4. Subtracts qhat times the divisor from the partial dividend at us[p], in wrapping
      arithmetic. The high half of the result tells whether the subtraction borrowed. */
  method MulSub(us: array<nat>, p: nat, v: seq<nat>, qhat: nat) returns (t: nat)
    requires |v| >= 1 && p + |v| < us.Length && qhat < B
    requires Digits(us[p..p + |v| + 1]) && Digits(v)
    modifies us
    ensures Digits(us[p..p + |v| + 1])
    ensures forall z :: 0 <= z < p || p + |v| < z < us.Length ==> us[z] == old(us[z])
    ensures Val(us[p..p + |v| + 1]) + qhat * Val(v)
         == Val(old(us[p..p + |v| + 1])) + if HHalf(t) != 0 then PowB(|v| + 1) else 0
  {
    hide *;
    ghost var o := us[p..p + |v| + 1];
    SubtractingStart(o, v, qhat);
    var n := |v|;
    t := 0;
    var i := n;
    assert us[p + n + 1..p + n + 1] == [];
    while i > 0
      invariant 0 <= i <= n
      invariant forall z :: 0 <= z < p || p + n < z < us.Length ==> us[z] == old(us[z])
      invariant us[p..p + i + 1] == o[..i + 1]
      invariant Subtracting(o, v, qhat, us[p + i + 1..p + n + 1], t)
    {
      ghost var w, before := us[p + i + 1..p + n + 1], us[p..p + i];
      assert us[p + i] == us[p..p + i + 1][i] == o[i] && before == o[..i];
      ghost var t0 := t;
      t := U32(us[p + i] - Mul(v[i - 1], qhat) - t);
      SubtractingNext(o, v, qhat, w, t0, i, t);
      us[p + i] := LHalf(t);
      t := (B - HHalf(t)) % B;
      SliceHead(us[..], p + i, p + n + 1);
      assert us[p + i..p + n + 1] == [us[p + i]] + w;
      assert us[p..p + i] == before;
      i := i - 1;
    }
    ghost var w := us[p + 1..p + n + 1];
    assert us[p] == us[p..p + 1][0] == o[0];
    SubtractingEnd(o, v, qhat, w, t, U32(us[p] - t));
    t := U32(us[p] - t);
    us[p] := LHalf(t);
    SliceHead(us[..], p, p + n + 1);
    assert us[p..p + n + 1] == [us[p]] + w;
  }

  /** Step D6 from the last digit up: w are the new low digits of the partial dividend o, t the carry. */
  ghost predicate Adding(o: seq<nat>, v: seq<nat>, w: seq<nat>, t: nat) {
    |o| == |v| + 1 && |w| <= |v| && Digits(o) && Digits(v) && Digits(w) && t <= 1 &&
    Val(w) + t * PowB(|w|) == Val(o[|o| - |w|..]) + Val(v[|v| - |w|..])
  }

  lemma AddingStart(o: seq<nat>, v: seq<nat>)
    requires |o| == |v| + 1 && Digits(o) && Digits(v)
    ensures Adding(o, v, [], 0)
  {
    EmptyVal();
    assert v[|v|..] == [] && o[|o|..] == [];
  }

  lemma AddingNext(o: seq<nat>, v: seq<nat>, w: seq<nat>, t: nat, i: nat, x: nat)
    requires Adding(o, v, w, t) && 0 < i == |v| - |w|
    requires x == U32(t + o[i] + v[i - 1])
    ensures Adding(o, v, [LHalf(x)] + w, HHalf(x))
  {
    hide Val, PowB, U32, DigitArith.LHalf, DigitArith.HHalf;
    assert o[i..] == [o[i]] + o[i + 1..] && v[i - 1..] == [v[i - 1]] + v[i..];
    AddStep(w, o[i + 1..], v[i..], o[i], v[i - 1], t, x, LHalf(x), HHalf(x));
  }

  lemma AddingEnd(o: seq<nat>, v: seq<nat>, w: seq<nat>, t: nat)
    requires Adding(o, v, w, t) && |w| == |v|
    ensures Digits([LHalf(U32(o[0] + t))] + w)
    ensures Val([LHalf(U32(o[0] + t))] + w) + (if o[0] + t == B then PowB(|v| + 1) else 0) == Val(o) + Val(v)
  {
    hide *;
    AllAdded(o, v, w, t);
    assert o == [o[0]] + o[1..];
    AddTop(w, o[1..], Val(v), o[0], t, LHalf(U32(o[0] + t)));
    DigitsPrepend(LHalf(U32(o[0] + t)), w);
  }

  lemma AllAdded(o: seq<nat>, v: seq<nat>, w: seq<nat>, t: nat)
    requires Adding(o, v, w, t) && |w| == |v|
    ensures |o| == |v| + 1 && Digits(w) && t <= 1 && o[0] < B
    ensures Val(w) + t * PowB(|w|) == Val(o[1..]) + Val(v)
  {
    hide Val, PowB;
    assert v[0..] == v;
  }

  lemma DigitsPrepend(d: nat, s: seq<nat>)
    requires Digits(s) && d < B
    ensures Digits([d] + s)
  {
  }

  /** Step D6. Adds the divisor back to the partial dividend at us[p], dropping the carry that
      leaves the leading digit. */
  method AddBack(us: array<nat>, p: nat, v: seq<nat>) returns (ghost carry: bool)
    requires |v| >= 1 && p + |v| < us.Length
    requires Digits(us[p..p + |v| + 1]) && Digits(v)
    modifies us
    ensures Digits(us[p..p + |v| + 1])
    ensures forall z :: 0 <= z < p || p + |v| < z < us.Length ==> us[z] == old(us[z])
    ensures Val(us[p..p + |v| + 1]) + (if carry then PowB(|v| + 1) else 0)
         == Val(old(us[p..p + |v| + 1])) + Val(v)
  {
    hide *;
    ghost var o := us[p..p + |v| + 1];
    AddingStart(o, v);
    var n := |v|;
    var t: nat := 0;
    var i := n;
    assert us[p + n + 1..p + n + 1] == [];
    while i > 0
      invariant 0 <= i <= n
      invariant forall z :: 0 <= z < p || p + n < z < us.Length ==> us[z] == old(us[z])
      invariant us[p..p + i + 1] == o[..i + 1]
      invariant Adding(o, v, us[p + i + 1..p + n + 1], t)
    {
      ghost var w, before := us[p + i + 1..p + n + 1], us[p..p + i];
      assert us[p + i] == us[p..p + i + 1][i] == o[i] && before == o[..i];
      ghost var t0 := t;
      t := U32(t + us[p + i] + v[i - 1]);
      AddingNext(o, v, w, t0, i, t);
      us[p + i] := LHalf(t);
      t := HHalf(t);
      SliceHead(us[..], p + i, p + n + 1);
      assert us[p + i..p + n + 1] == [us[p + i]] + w;
      assert us[p..p + i] == before;
      i := i - 1;
    }
    ghost var w := us[p + 1..p + n + 1];
    assert us[p] == us[p..p + 1][0] == o[0];
    AddingEnd(o, v, w, t);
    carry := us[p] + t == B;
    us[p] := LHalf(U32(us[p] + t));
    SliceHead(us[..], p, p + n + 1);
    assert us[p..p + n + 1] == [us[p]] + w;
  }

  /** Steps D3 to D6: one digit of the quotient. The partial dividend at us[p] is replaced by its
      remainder modulo the divisor. */
  method DivideStep(us: array<nat>, p: nat, v: seq<nat>) returns (q: nat)
    requires |v| >= 2 && p + |v| < us.Length
    requires Digits(us[p..p + |v| + 1]) && Digits(v) && v[0] >= B / 2
    requires Val(us[p..p + |v|]) < Val(v)
    modifies us
    ensures Digits(us[p..p + |v| + 1])
    ensures forall z :: 0 <= z < p || p + |v| < z < us.Length ==> us[z] == old(us[z])
    ensures Val(us[p..p + |v| + 1]) == Mod(Val(old(us[p..p + |v| + 1])), Val(v))
    ensures q == Div(Val(old(us[p..p + |v| + 1])), Val(v)) && q < B
  {
    hide Val, PowB, Mod, Div, Min, Two, Three, Mul, DigitArith.HHalf;
    ghost var u := us[p..p + |v| + 1];
    ghost var n := |v|;
    assert us[p] == u[0] && us[p + 1] == u[1] && us[p + 2] == u[2];
    assert u[..n] == us[p..p + n];
    LeadingDigits(u[..n], v);
    TwoIsLarge(v[0], v[1]);
    var qhat := EstimateDigit(us[p], us[p + 1], us[p + 2], v[0], v[1]);
    EstimateWithinOne(u, v, qhat);
    var t := MulSub(us, p, v, qhat);
    ghost var borrowed := HHalf(t) != 0;
    ghost var w := us[p..p + n + 1];
    AfterSubtraction(u, v, w, qhat, borrowed);
    if HHalf(t) != 0 {
      qhat := qhat - 1;
      ghost var carry := AddBack(us, p, v);
      AfterAddBack(u, v, w, us[p..p + n + 1], carry);
    }
    q := qhat;
  }

  lemma AfterSubtraction(u: seq<nat>, v: seq<nat>, w: seq<nat>, qhat: nat, borrowed: bool)
    requires |u| == |w| == |v| + 1 && Digits(v) && Digits(w) && 0 < Val(v)
    requires Div(Val(u), Val(v)) <= qhat <= Div(Val(u), Val(v)) + 1
    requires Val(w) + qhat * Val(v) == Val(u) + if borrowed then PowB(|v| + 1) else 0
    ensures borrowed <==> qhat == Div(Val(u), Val(v)) + 1
    ensures !borrowed ==> Val(w) == Mod(Val(u), Val(v))
    ensures borrowed ==> Val(w) + Val(v) == Mod(Val(u), Val(v)) + PowB(|v| + 1)
  {
    hide Val, PowB;
    ValBound(w);
    ValBound(v);
    PowBNext(|v|);
    BorrowMeansTooBig(Val(u), Val(v), qhat, Val(w), PowB(|v| + 1), borrowed);
  }

  lemma AfterAddBack(u: seq<nat>, v: seq<nat>, w: seq<nat>, x: seq<nat>, carry: bool)
    requires |u| == |w| == |x| == |v| + 1 && Digits(v) && Digits(x) && 0 < Val(v)
    requires Val(w) + Val(v) == Mod(Val(u), Val(v)) + PowB(|v| + 1)
    requires Val(x) + (if carry then PowB(|v| + 1) else 0) == Val(w) + Val(v)
    ensures Val(x) == Mod(Val(u), Val(v))
  {
    hide Val, PowB;
    ValBound(x);
    ValBound(v);
    PowBNext(|v|);
    assert Mod(Val(u), Val(v)) < Val(v);
  }

  // ---------------------------------------------------------------- the main loop

  /** Extending a long division by one digit d: w is the partial dividend it completes. */
  lemma LongDivisionStep(prefix: nat, d: nat, v: nat, q: nat, r: nat, w: nat, prefix': nat, q': nat)
    requires v > 0 && prefix == Mul(q, v) + r && w == r * B + d
    requires prefix' == prefix * B + d && q' == q * B + Div(w, v)
    ensures prefix' == Mul(q', v) + Mod(w, v)
  {
    DivBounds(w, v);
    assert w == (w / v) * v + w % v;
    assert (q * B + w / v) * v == (q * v) * B + (w / v) * v;
  }

  /** The digits r and quot are the remainder and quotient of the digits before them by v. */
  ghost predicate Divided(prefix: seq<nat>, quot: seq<nat>, r: seq<nat>, v: seq<nat>) {
    Digits(r) && Digits(quot) && Val(r) < Val(v) && Val(prefix) == Mul(Val(quot), Val(v)) + Val(r)
  }

  lemma DividedStart(r: seq<nat>, v: seq<nat>)
    requires Digits(r) && Val(r) < Val(v)
    ensures Divided(r, [], r, v)
  {
  }

  /** Taking in the next digit d: its quotient digit is q and w is what remains. */
  lemma DividedStep(prefix: seq<nat>, quot: seq<nat>, r: seq<nat>, v: seq<nat>, d: nat, q: nat, w: seq<nat>)
    requires Divided(prefix, quot, r, v) && |r| == |v| && |w| == |v| + 1 && Digits(v) && Digits(w)
    requires q < B && q == Div(Val(r + [d]), Val(v)) && Val(w) == Mod(Val(r + [d]), Val(v))
    ensures w[0] == 0 && Divided(prefix + [d], quot + [q], w[1..], v)
  {
    hide *;
    DividedFacts(prefix, quot, r, v);
    NextPartialDividend(w, Val(r + [d]), v);
    ValAppend(r, d);
    ValAppend(quot, q);
    ValAppend(prefix, d);
    LongDivisionStep(Val(prefix), d, Val(v), Val(quot), Val(r), Val(r + [d]), Val(prefix + [d]), Val(quot + [q]));
    DigitsAppend(quot, q);
    MakeDivided(prefix + [d], quot + [q], w[1..], v);
  }

  lemma DividedFacts(prefix: seq<nat>, quot: seq<nat>, r: seq<nat>, v: seq<nat>)
    requires Divided(prefix, quot, r, v)
    ensures Digits(r) && Digits(quot) && Val(r) < Val(v) && Val(prefix) == Mul(Val(quot), Val(v)) + Val(r)
  {
  }

  lemma MakeDivided(prefix: seq<nat>, quot: seq<nat>, r: seq<nat>, v: seq<nat>)
    requires Digits(r) && Digits(quot) && Val(r) < Val(v) && Val(prefix) == Mul(Val(quot), Val(v)) + Val(r)
    ensures Divided(prefix, quot, r, v)
  {
  }

  /** The main loop after j quotient digits quot: u is the dividend now, o what it was at first. */
  ghost predicate LoopState(o: seq<nat>, u: seq<nat>, v: seq<nat>, quot: seq<nat>, j: nat) {
    |u| == |o| && j + |v| <= |o| && Digits(o) && u[j + |v|..] == o[j + |v|..] &&
    (forall z :: 0 <= z < j ==> u[z] == 0) &&
    Divided(o[..j + |v|], quot, u[j..j + |v|], v)
  }

  lemma LoopStart(u: seq<nat>, v: seq<nat>)
    requires |v| < |u| && Digits(u) && Val(u[..|v|]) < Val(v)
    ensures LoopState(u, u, v, [], 0)
  {
    hide Val, Divided;
    DividedStart(u[..|v|], v);
    assert u[0..0 + |v|] == u[..|v|] == u[..0 + |v|];
  }

  lemma LoopNextDigit(o: seq<nat>, u: seq<nat>, v: seq<nat>, quot: seq<nat>, j: nat)
    requires LoopState(o, u, v, quot, j) && j + |v| < |o|
    ensures |u| == |o|
    ensures u[j..j + |v| + 1] == u[j..j + |v|] + [o[j + |v|]]
    ensures o[j + |v|] < B
  {
    hide Divided;
    assert u[j + |v|] == o[j + |v|] by { assert u[j + |v|..][0] == o[j + |v|..][0]; }
    SliceExtend(u, j, j + |v|);
  }

  lemma LoopPartialDividend(o: seq<nat>, u: seq<nat>, v: seq<nat>, quot: seq<nat>, j: nat)
    requires LoopState(o, u, v, quot, j) && j + |v| < |o|
    ensures Digits(u[j..j + |v| + 1])
    ensures Val(u[j..j + |v|]) < Val(v)
  {
    hide Val, Mul;
    LoopNextDigit(o, u, v, quot, j);
    DigitsAppend(u[j..j + |v|], o[j + |v|]);
  }

  lemma DigitsAppend(s: seq<nat>, d: nat)
    requires Digits(s) && d < B
    ensures Digits(s + [d])
  {
  }

  lemma LoopAdvance(o: seq<nat>, u: seq<nat>, v: seq<nat>, quot: seq<nat>, j: nat, w: seq<nat>, q: nat)
    requires LoopState(o, u, v, quot, j) && j + |v| < |o| && |w| == |v| + 1 && Digits(v) && Digits(w)
    requires Val(v) > 0 && Val(w) == Mod(Val(u[j..j + |v| + 1]), Val(v))
    requires q < B && q == Div(Val(u[j..j + |v| + 1]), Val(v))
    ensures LoopState(o, Splice(u, j, w), v, quot + [q], j + 1)
  {
    hide *;
    LoopNextDigit(o, u, v, quot, j);
    LoopFacts(o, u, v, quot, j);
    DividedStep(o[..j + |v|], quot, u[j..j + |v|], v, o[j + |v|], q, w);
    SliceExtend(o, 0, j + |v|);
    assert o[..j + |v| + 1] == o[..j + |v|] + [o[j + |v|]];
    SpliceAdvance(o, u, |v|, j, w);
    MakeLoopState(o, Splice(u, j, w), v, quot + [q], j + 1);
  }

  lemma LoopFacts(o: seq<nat>, u: seq<nat>, v: seq<nat>, quot: seq<nat>, j: nat)
    requires LoopState(o, u, v, quot, j)
    ensures |u| == |o| && j + |v| <= |o| && Digits(o) && u[j + |v|..] == o[j + |v|..]
    ensures forall z :: 0 <= z < j ==> u[z] == 0
    ensures Divided(o[..j + |v|], quot, u[j..j + |v|], v)
  {
  }

  /** The window of the partial dividend moves one place right over the overwritten digits. */
  lemma SpliceAdvance(o: seq<nat>, u: seq<nat>, n: nat, j: nat, w: seq<nat>)
    requires |u| == |o| && j + n < |o| && |w| == n + 1 && u[j + n..] == o[j + n..] && w[0] == 0
    requires forall z :: 0 <= z < j ==> u[z] == 0
    ensures var u' := Splice(u, j, w);
      |u'| == |o| && u'[j + 1 + n..] == o[j + 1 + n..] && u'[j + 1..j + 1 + n] == w[1..] &&
      forall z :: 0 <= z < j + 1 ==> u'[z] == 0
  {
    hide Splice;
    SpliceParts(u, j, w);
    assert j + |w| == j + 1 + n;
    assert u[j + n..][1..] == o[j + n..][1..];
    assert u[j + n..][1..] == u[j + 1 + n..] && o[j + n..][1..] == o[j + 1 + n..];
    var u' := Splice(u, j, w);
    forall z | 0 <= z < j + 1 ensures u'[z] == 0 {
      if z < j {
        assert u'[..j][z] == u[..j][z];
      }
    }
  }

  lemma MakeLoopState(o: seq<nat>, u: seq<nat>, v: seq<nat>, quot: seq<nat>, j: nat)
    requires |u| == |o| && j + |v| <= |o| && Digits(o) && u[j + |v|..] == o[j + |v|..]
    requires forall z :: 0 <= z < j ==> u[z] == 0
    requires Divided(o[..j + |v|], quot, u[j..j + |v|], v)
    ensures LoopState(o, u, v, quot, j)
  {
  }

  lemma LoopEnd(o: seq<nat>, u: seq<nat>, v: seq<nat>, quot: seq<nat>, m: nat)
    requires LoopState(o, u, v, quot, m + 1) && |o| == m + |v| + 1
    ensures |u| == |o|
    ensures Divided(o, quot, u[m + 1..], v)
    ensures forall z :: 0 <= z <= m ==> u[z] == 0
  {
    hide Divided;
    assert o[..m + 1 + |v|] == o;
    assert u[m + 1..m + 1 + |v|] == u[m + 1..];
  }

  /** One pass of the main loop on the dividend buffer. */
  method DividePass(us: array<nat>, k: nat, v: seq<nat>, ghost o: seq<nat>, ghost quot: seq<nat>, j: nat)
    returns (q: nat)
    requires |v| >= 2 && j + |v| < |o| && k + |o| <= us.Length && Digits(v) && v[0] >= B / 2
    requires LoopState(o, us[k..k + |o|], v, quot, j)
    modifies us
    ensures LoopState(o, us[k..k + |o|], v, quot + [q], j + 1)
    ensures forall z :: 0 <= z < k || k + |o| <= z < us.Length ==> us[z] == old(us[z])
  {
    hide Val, PowB, Mul, Div, Mod, Divided, LoopState, Splice, DigitArith.Digits;
    ghost var us0, u := us[..], us[k..k + |o|];
    LoopNextDigit(o, u, v, quot, j);
    LoopPartialDividend(o, u, v, quot, j);
    SliceOfSlice(us0, k, k + |o|, j, j + |v|);
    SliceOfSlice(us0, k, k + |o|, j, j + |v| + 1);
    assert us[k + j..k + j + |v|] == u[j..j + |v|];
    assert us[k + j..k + j + |v| + 1] == u[j..j + |v| + 1];
    q := DivideStep(us, k + j, v);
    ghost var w := us[k + j..k + j + |v| + 1];
    SpliceInWindow(us0, us[..], k, |o|, j, w);
    LoopAdvance(o, u, v, quot, j, w, q);
  }

  /** Steps D2 to D7: schoolbook division of the digits at us[k] by the normalised divisor v.
      The quotient digits go to qs[kq]; the remainder is left in the low digits of the dividend. */
  method AlgorithmD(us: array<nat>, k: nat, v: seq<nat>, m: nat, qs: array<nat>, kq: nat)
    requires us != qs
    requires |v| >= 2 && k + m + |v| < us.Length && kq + m < qs.Length
    requires Digits(us[k..k + m + |v| + 1]) && Digits(v) && v[0] >= B / 2
    requires Val(us[k..k + |v|]) < Val(v)
    modifies us, qs
    ensures var u := us[k..k + m + |v| + 1];
      Divided(old(us[k..k + m + |v| + 1]), qs[kq..kq + m + 1], u[m + 1..], v) &&
      forall z :: 0 <= z <= m ==> u[z] == 0
    ensures forall z :: 0 <= z < k || k + m + |v| < z < us.Length ==> us[z] == old(us[z])
    ensures forall z :: 0 <= z < kq || kq + m < z < qs.Length ==> qs[z] == old(qs[z])
  {
    hide Val, PowB, Mul, Div, Mod, Divided, LoopState, Splice, DigitArith.Digits;
    ghost var o := us[k..k + m + |v| + 1];
    SliceOfSlice(us[..], k, k + |o|, 0, |v|);
    assert o[..|v|] == us[k..k + |v|];
    LoopStart(o, v);
    assert qs[kq..kq] == [];
    var j := 0;
    while j <= m
      invariant j <= m + 1
      invariant forall z :: 0 <= z < k || k + m + |v| < z < us.Length ==> us[z] == old(us[z])
      invariant forall z :: 0 <= z < kq || kq + m < z < qs.Length ==> qs[z] == old(qs[z])
      invariant LoopState(o, us[k..k + |o|], v, qs[kq..kq + j], j)
    {
      ghost var quot := qs[kq..kq + j];
      var q := DividePass(us, k, v, o, quot, j);
      qs[kq + j] := q;
      assert qs[kq..kq + j + 1] == quot + [q];
      j := j + 1;
    }
    LoopEnd(o, us[k..k + |o|], v, qs[kq..kq + m + 1], m);
  }

  /** A remainder fits in as many digits as the divisor, so its extra leading digit is zero. */
  lemma NextPartialDividend(u: seq<nat>, w: nat, v: seq<nat>)
    requires |u| == |v| + 1 && Digits(u) && Digits(v) && 0 < Val(v) && Val(u) == Mod(w, Val(v))
    ensures u[0] == 0 && Digits(u[1..]) && Val(u[1..]) == Val(u) < Val(v)
  {
    hide Val, PowB;
    assert Mod(w, Val(v)) < Val(v);
    ValBound(v);
    LeadingZero(u);
  }

  lemma StartOfLongDivision(v: nat, r: nat)
    ensures r == Mul(Val([]), v) + r
  {
  }

  // ---------------------------------------------------------------- quads and digits

  const QUAD: nat := W * W

  /** The four digits of a 64-bit value. */
  function QuadDigits(x: nat): (s: seq<nat>)
    requires x < QUAD
    ensures |s| == 4
  {
    [HHalf(x / W), LHalf(x / W), HHalf(x % W), LHalf(x % W)]
  }

  lemma QuadDigitsValue(x: nat)
    requires x < QUAD
    ensures Digits(QuadDigits(x)) && Val(QuadDigits(x)) == x
  {
    FourDigits(HHalf(x / W), LHalf(x / W), HHalf(x % W), LHalf(x % W));
    assert x / W < W;
  }

  lemma FourDigits(a: nat, b: nat, c: nat, d: nat)
    ensures Val([a, b, c, d]) == ((a * B + b) * B + c) * B + d
  {
    ValThree(a, b, c);
    ValAppend([a, b, c], d);
    assert [a, b, c] + [d] == [a, b, c, d];
  }

  /** The 64-bit value of digits 1 to 4 of a buffer, combined half by half. */
  function JoinQuad(s: seq<nat>): nat
    requires |s| == 5
  {
    Combine(s[1], s[2]) * W + Combine(s[3], s[4])
  }

  lemma JoinQuadValue(s: seq<nat>)
    requires |s| == 5 && Digits(s[1..])
    ensures JoinQuad(s) == Val(s[1..])
  {
    hide Val, Combine;
    assert s[1..] == [s[1], s[2], s[3], s[4]];
    FourDigits(s[1], s[2], s[3], s[4]);
    forall i | 1 <= i < 5 ensures s[i] < B { assert s[i] == s[1..][i - 1]; }
    CombineIsSum(s[1], s[2]);
    CombineIsSum(s[3], s[4]);
  }

  method StoreQuad(x: nat, a: array<nat>)
    requires x < QUAD && a.Length == 5
    modifies a
    ensures a[1..] == QuadDigits(x) && a[0] == old(a[0])
  {
    var high, low := x / W, x % W;
    a[1] := HHalf(high);
    a[2] := LHalf(high);
    a[3] := HHalf(low);
    a[4] := LHalf(low);
  }

  // ---------------------------------------------------------------- a one-digit divisor

  lemma DigitDivStep(prefix: nat, q: nat, r: nat, t: nat, d: nat)
    requires 0 < t < B && r < t && d < B && prefix == Mul(q, t) + r
    ensures Combine(r, d) == r * B + d
    ensures Div(Combine(r, d), t) < B && Mod(Combine(r, d), t) < t
    ensures prefix * B + d == Mul(q * B + Div(Combine(r, d), t), t) + Mod(Combine(r, d), t)
  {
    CombineIsSum(r, d);
    QuotientOfTwo(r * B + d, r, t);
    LongDivisionStep(prefix, d, t, q, r, r * B + d, prefix * B + d, q * B + Div(r * B + d, t));
  }

  /** Exercise 16: schoolbook division of four digits by one. */
  method DivideByDigit(u: seq<nat>, t: nat) returns (q: seq<nat>, r: nat)
    requires |u| == 4 && Digits(u) && 0 < t < B
    ensures |q| == 4 && Digits(q) && r < t && Val(u) == Mul(Val(q), t) + r
  {
    hide Val, Mul, Div, Mod, Combine;
    StartOfLongDivision(t, 0);
    EmptyVal();
    DigitDivStep(0, 0, 0, t, u[0]);
    var q1 := Div(u[0], t);
    var rbj := Combine(Mod(u[0], t), u[1]);
    DigitDivStep(u[0], q1, Mod(u[0], t), t, u[1]);
    var q2 := Div(rbj, t);
    ghost var p2, s2 := u[0] * B + u[1], q1 * B + q2;
    DigitDivStep(p2, s2, Mod(rbj, t), t, u[2]);
    rbj := Combine(Mod(rbj, t), u[2]);
    var q3 := Div(rbj, t);
    ghost var p3, s3 := p2 * B + u[2], s2 * B + q3;
    DigitDivStep(p3, s3, Mod(rbj, t), t, u[3]);
    rbj := Combine(Mod(rbj, t), u[3]);
    var q4 := Div(rbj, t);
    q, r := [q1, q2, q3, q4], Mod(rbj, t);
    FourDigits(q1, q2, q3, q4);
    FourDigits(u[0], u[1], u[2], u[3]);
    assert u == [u[0], u[1], u[2], u[3]];
  }

  // ---------------------------------------------------------------- normalisation

  /** Step D1: the number of places that brings the leading digit to at least half the base. */
  method LeadingShift(v1: nat) returns (d: nat)
    requires 0 < v1 < B
    ensures d < 16 && B / 2 <= Bits.Shl(v1, d) < B
  {
    hide Pow2;
    var t := v1;
    d := 0;
    ShlIsProduct(v1, 0);
    PowZero();
    while t < B / 2
      invariant t < B && t == Bits.Shl(v1, d)
      decreases B - t
    {
      ShlNext(v1, d);
      t := U32(t * 2);
      d := d + 1;
    }
    ShiftIsSmall(v1, d);
  }

  lemma ShlNext(x: nat, d: nat)
    ensures Bits.Shl(x, d + 1) == Bits.Shl(x, d) * 2
  {
    assert x * (2 * Pow2(d)) == (x * Pow2(d)) * 2;
  }

  lemma ShiftIsSmall(x: nat, d: nat)
    requires x > 0 && Bits.Shl(x, d) < B
    ensures d < 16
  {
    hide Pow2;
    ShlIsProduct(x, d);
    if d >= 16 {
      Pow2Add(16, d - 16);
      ByteAndHalfWord();
      ProductsGrow(x, Pow2(d), B, Pow2(d - 16));
    }
  }

  lemma ProductsGrow(x: nat, p: nat, b: nat, c: nat)
    requires x >= 1 && c >= 1 && p == b * c
    ensures x * p >= b
  {
    MulMonotone(1, c, b);
    MulMonotone(1, x, p);
  }

  /** A digit that stays below the base when shifted has no high part. */
  lemma NoHighPart(x: nat, sh: nat)
    requires x < B && sh <= 16 && Bits.Shl(x, sh) < B
    ensures High(x, sh) == 0
  {
    hide High, Low;
    ShiftSplit(x, sh);
    assert High(x, sh) * B + Low(x, sh) < B;
  }

  /** The shifted divisor is normalised. */
  lemma NormalisedTop(o: seq<nat>, v: seq<nat>, sh: nat)
    requires |o| == |v| > 0 && Digits(o) && Digits(v)
    requires Val(v) == Bits.Shl(Val(o), sh) && Bits.Shl(o[0], sh) >= B / 2
    ensures v[0] >= B / 2
  {
    hide Val, PowB, Pow2;
    ValLeading(o);
    ValLeading(v);
    ShlIsProduct(Val(o), sh);
    ShlIsProduct(o[0], sh);
    TopAtLeast(v[0], Val(v), Val(v[1..]), o[0], Val(o), Val(o[1..]), PowB(|v| - 1), Pow2(sh), o[0] * Pow2(sh), B / 2);
  }

  lemma TopAtLeast(t: nat, w: nat, wl: nat, o: nat, x: nat, xl: nat, P: nat, a: nat, oa: nat, h: nat)
    requires wl < P && w == t * P + wl && x == o * P + xl && w == x * a && oa == o * a && oa >= h
    ensures t >= h
  {
    assert w == (o * P) * a + xl * a;
    assert (o * P) * a == oa * P;
    assert w >= oa * P by { assert xl * a >= 0; }
    MulMonotone(h, oa, P);
    assert (t + 1) * P == t * P + P;
    if t + 1 <= h {
      MulMonotone(t + 1, h, P);
    }
  }

  /** The first digits of the shifted dividend are below the shifted divisor. */
  lemma FirstPartialDividend(u: seq<nat>, v: seq<nat>, x: nat, y: nat, sh: nat, m: nat)
    requires |v| >= 1 && |u| == m + |v| + 1 && Digits(u)
    requires Val(u) == Bits.Shl(x, sh) && Val(v) == Bits.Shl(y, sh)
    requires x < PowB(m + |v|) && y >= PowB(|v| - 1)
    ensures Val(u[..|v|]) < Val(v)
  {
    hide Val, PowB, Pow2;
    var n := |v|;
    assert u == u[..n] + u[n..];
    ValSplit(u[..n], u[n..]);
    ShlIsProduct(x, sh);
    ShlIsProduct(y, sh);
    PowBAdd(n - 1, m + 1);
    PrefixBelow(Val(u[..n]), Val(u[n..]), Val(u), Val(v), x, y, PowB(m + 1), PowB(n - 1), PowB(m + n), Pow2(sh));
  }

  lemma PowBAdd(a: nat, b: nat)
    ensures PowB(a + b) == PowB(a) * PowB(b)
  {
    if b > 0 {
      PowBAdd(a, b - 1);
      assert (PowB(a) * PowB(b - 1)) * B == PowB(a) * (PowB(b - 1) * B);
    }
  }

  lemma PrefixBelow(f: nat, rest: nat, u: nat, v: nat, x: nat, y: nat, P: nat, Q: nat, PQ: nat, a: nat)
    requires u == f * P + rest && u == x * a && v == y * a && a >= 1 && P >= 1
    requires PQ == Q * P && x < PQ && y >= Q
    ensures f < v
  {
    MulMonotone(x + 1, Q * P, a);
    assert (x + 1) * a == x * a + a;
    assert (Q * P) * a == (Q * a) * P;
    MulMonotone(Q, y, a);
    MulMonotone(Q * a, v, P);
    if f >= v {
      MulMonotone(v, f, P);
    }
  }

  /** Undoing the shift of dividend and divisor leaves the quotient and scales the remainder back. */
  lemma Unscale(x: nat, y: nat, q: nat, r: nat, sh: nat)
    requires y > 0 && r < Bits.Shl(y, sh) && Bits.Shl(x, sh) == Mul(q, Bits.Shl(y, sh)) + r
    ensures q == x / y && r == Bits.Shl(x % y, sh)
  {
    hide Pow2;
    ShlIsProduct(x, sh);
    ShlIsProduct(y, sh);
    UnscaleProduct(x, y, q, r, Pow2(sh));
    ShlIsProduct(x % y, sh);
  }

  lemma UnscaleProduct(x: nat, y: nat, q: nat, r: nat, a: nat)
    requires y > 0 && a >= 1 && r < y * a && x * a == q * (y * a) + r
    ensures q == x / y && r == (x % y) * a
  {
    var s := x - q * y;
    assert s * a == x * a - (q * y) * a;
    assert (q * y) * a == q * (y * a);
    assert s * a == r;
    if s < 0 {
      MulMonotone(s, -1, a);
    }
    if s >= y {
      MulMonotone(y, s, a);
    }
    DivModUnique(x, y, q, s);
  }

  // ---------------------------------------------------------------- scaling the remainder back

  /** Digit x after a right shift by d, taking in the low bits of its left neighbour y. */
  function ShiftedBack(y: nat, x: nat, d: nat): nat
    requires d <= 16
  {
    High(x, 16 - d) + Low(y, 16 - d)
  }

  lemma ShiftBackDigit(y: nat, x: nat, d: nat)
    requires x < B && y < B && d <= 16
    ensures Or(Shr(x, d), LHalf(U32(Bits.Shl(y, 16 - d)))) == ShiftedBack(y, x, d) < B
  {
    hide *;
    ShlDigit(y, x, 16 - d);
    OrCommutes(Shr(x, d), LHalf(U32(Bits.Shl(y, 16 - d))));
    HighIsShr(x, d);
    ShiftedBackIsSum(y, x, d);
  }

  lemma HighIsShr(x: nat, d: nat)
    requires d <= 16
    ensures High(x, 16 - d) == Shr(x, d)
  {
  }

  lemma ShiftedBackIsSum(y: nat, x: nat, d: nat)
    requires d <= 16
    ensures ShiftedBack(y, x, d) == Low(y, 16 - d) + High(x, 16 - d)
  {
  }

  /** Shifting right, digit by digit: w is o divided by 2^d, up to the bits the last digit loses. */
  lemma {:induction false} ShiftBackValue(o: seq<nat>, w: seq<nat>, d: nat)
    requires |o| == |w| > 0 && Digits(o) && d <= 16 && o[0] == w[0] == 0
    requires forall i :: 1 <= i < |o| ==> w[i] == ShiftedBack(o[i - 1], o[i], d)
    ensures Val(o) == Bits.Shl(Val(w), d) + LowBits(o[|o| - 1], d)
  {
    hide Val, PowB, Pow2, ShiftedBack, Mod;
    var k := |o| - 1;
    if k == 0 {
      assert o == [0] && w == [0];
      ValZeros(o);
      ValZeros(w);
      ShlIsProduct(0, d);
      LowOfZero(d);
    } else {
      ShiftBackValue(o[..k], w[..k], d);
      assert o == o[..k] + [o[k]] && w == w[..k] + [w[k]];
      ValAppend(o[..k], o[k]);
      ValAppend(w[..k], w[k]);
      assert w[k] == ShiftedBack(o[k - 1], o[k], d);
      ShiftBackStep(Val(o[..k]), Val(w[..k]), o[k - 1], o[k], d);
    }
  }

  lemma LowOfZero(d: nat)
    ensures LowBits(0, d) == 0
  {
  }

  lemma ShiftBackStep(vo: nat, vw: nat, y: nat, x: nat, d: nat)
    requires x < B && y < B && d <= 16
    requires vo == Bits.Shl(vw, d) + LowBits(y, d)
    ensures vo * B + x == Bits.Shl(vw * B + ShiftedBack(y, x, d), d) + LowBits(x, d)
  {
    hide Pow2;
    ShlIsProduct(vw, d);
    ShlIsProduct(vw * B + ShiftedBack(y, x, d), d);
    ShiftFactors(d);
    DivBounds(x, Pow2(d));
    ShiftBackProduct(vw, LowBits(y, d), Shr(x, d), LowBits(x, d), Pow2(d), Pow2(16 - d), Low(y, 16 - d), x, ShiftedBack(y, x, d));
  }

  lemma ShiftBackProduct(vw: nat, l: nat, h: nat, low: nat, a: nat, c: nat, lc: nat, x: nat, s: nat)
    requires a * c == B && lc == l * c && x == h * a + low && s == h + lc
    ensures (vw * a + l) * B + x == (vw * B + s) * a + low
  {
    assert (vw * B + h + lc) * a == (vw * a) * B + h * a + lc * a;
    assert (l * c) * a == l * (a * c);
  }

  /** Scales the remainder digits at us[p + 1] back by d bits. The digit us[p] is zero. */
  method ShiftBack(us: array<nat>, p: nat, n: nat, d: nat)
    requires n >= 1 && p + n < us.Length && 0 < d < 16
    requires Digits(us[p..p + n + 1]) && us[p] == 0
    modifies us
    ensures us[p] == 0
    ensures Digits(us[p..p + n + 1])
    ensures Val(old(us[p..p + n + 1])) == Bits.Shl(Val(us[p..p + n + 1]), d) + LowBits(old(us[p + n]), d)
    ensures forall z :: 0 <= z < p || p + n < z < us.Length ==> us[z] == old(us[z])
  {
    hide Val, Or, Shr, Bits.Shl, LowBits, ShiftedBack;
    ghost var o := us[p..p + n + 1];
    assert forall z :: p <= z <= p + n ==> us[z] == o[z - p];
    var i := n;
    while i > 0
      invariant 0 <= i <= n
      invariant forall z :: 0 <= z < p || p + n < z < us.Length ==> us[z] == old(us[z])
      invariant forall z :: p <= z <= p + i ==> us[z] == o[z - p]
      invariant forall z :: p + i < z <= p + n ==> us[z] == ShiftedBack(o[z - p - 1], o[z - p], d)
      invariant forall z :: p <= z <= p + n ==> us[z] < B
    {
      ShiftBackDigit(us[p + i - 1], us[p + i], d);
      us[p + i] := Or(Shr(us[p + i], d), LHalf(U32(Bits.Shl(us[p + i - 1], 16 - d))));
      i := i - 1;
    }
    us[p] := 0;
    ghost var w := us[p..p + n + 1];
    forall z | 1 <= z < |o| ensures w[z] == ShiftedBack(o[z - 1], o[z], d) {
      assert w[z] == us[p + z];
    }
    ShiftBackValue(o, w, d);
  }

  // ---------------------------------------------------------------- the whole division

  lemma {:induction false} DropZeros(s: seq<nat>, k: nat)
    requires k <= |s| && forall z :: 0 <= z < k ==> s[z] == 0
    ensures Val(s[k..]) == Val(s)
  {
    hide Val, PowB;
    assert s == s[..k] + s[k..];
    ValSplit(s[..k], s[k..]);
    ValZeros(s[..k]);
  }

  lemma ShiftByNone(x: nat)
    ensures Bits.Shl(x, 0) == x && LowBits(x, 0) == 0
  {
  }

  /** The operands, written in the low digits of their buffers: x has m + n digits after us[ku],
      y has n digits after vs[kv], the first of them not zero. */
  ghost predicate Operands(us: seq<nat>, vs: seq<nat>, ku: nat, kv: nat, m: nat, n: nat, x: nat, y: nat) {
    |us| == |vs| == 5 && 2 <= n && ku + m + n == 4 && kv + n == 4 &&
    Digits(us) && Digits(vs[1..]) && (forall z :: 0 <= z <= ku ==> us[z] == 0) && vs[kv + 1] > 0 &&
    Val(us[ku..]) == x && Val(vs[kv + 1..]) == y
  }

  /** The operands after normalisation by d bits. */
  ghost predicate Normalised(us: seq<nat>, vs: seq<nat>, ku: nat, kv: nat, m: nat, n: nat, x: nat, y: nat, d: nat) {
    |us| == |vs| == 5 && 2 <= n && ku + m + n == 4 && kv + n == 4 &&
    Digits(us) && Digits(vs[kv + 1..]) && (forall z :: 0 <= z < ku ==> us[z] == 0) && vs[kv + 1] >= B / 2 &&
    Val(us[ku..]) == Bits.Shl(x, d) && Val(vs[kv + 1..]) == Bits.Shl(y, d) &&
    Val(us[ku..ku + n]) < Val(vs[kv + 1..])
  }

  lemma OperandBounds(us: seq<nat>, vs: seq<nat>, ku: nat, kv: nat, m: nat, n: nat, x: nat, y: nat)
    requires Operands(us, vs, ku, kv, m, n, x, y)
    ensures x < PowB(m + n) && y >= PowB(n - 1) && y > 0
  {
    hide Val, PowB;
    var u := us[ku..];
    assert u[0] == 0 && u[1..] == us[ku + 1..];
    DropZeros(u, 1);
    ValBound(u[1..]);
    var v := vs[kv + 1..];
    assert v == vs[1..][kv..];
    ValLeading(v);
    MulMonotone(1, v[0], PowB(n - 1));
  }

  /** Step D1. */
  method Normalise(us: array<nat>, vs: array<nat>, ku: nat, kv: nat, m: nat, n: nat, ghost x: nat, ghost y: nat)
    returns (d: nat)
    requires us != vs && us.Length == vs.Length == 5
    requires Operands(us[..], vs[..], ku, kv, m, n, x, y)
    modifies us, vs
    ensures d < 16 && Normalised(us[..], vs[..], ku, kv, m, n, x, y, d)
  {
    hide Val, PowB, Pow2, Bits.Shl, High, Low, Mul, Normalised;
    ghost var u0, v0 := us[..][ku..], vs[..][kv + 1..];
    OperandBounds(us[..], vs[..], ku, kv, m, n, x, y);
    OperandDigits(us[..], vs[..], ku, kv, m, n, x, y);
    hide Operands;
    d := LeadingShift(vs[kv + 1]);
    if d > 0 {
      SliceTail(us[..], ku, ku + (m + n) + 1);
      SliceTail(vs[..], kv + 1, kv + 1 + (n - 1) + 1);
      assert us[ku..ku + (m + n) + 1] == u0 && vs[kv + 1..kv + 1 + (n - 1) + 1] == v0;
      ShiftDigits(us, ku, m + n, d);
      ShiftDigits(vs, kv + 1, n - 1, d);
      HighOfZero(d);
      NothingLost(PowB(m + n + 1));
      NothingLost(PowB(n));
      NoHighPart(v0[0], d);
      SliceTail(us[..], ku, ku + (m + n) + 1);
      SliceTail(vs[..], kv + 1, kv + 1 + (n - 1) + 1);
    } else {
      ShiftByNone(x);
      ShiftByNone(y);
    }
    NormalisedTop(v0, vs[..][kv + 1..], d);
    FirstPartialDividend(us[..][ku..], vs[..][kv + 1..], x, y, d, m);
    MakeNormalised(us[..], vs[..], ku, kv, m, n, x, y, d);
  }

  lemma OperandDigits(us: seq<nat>, vs: seq<nat>, ku: nat, kv: nat, m: nat, n: nat, x: nat, y: nat)
    requires Operands(us, vs, ku, kv, m, n, x, y)
    ensures 2 <= n && ku + m + n == 4 && kv + n == 4 && (forall z :: 0 <= z <= ku ==> us[z] == 0)
    ensures Digits(us[ku..]) && Digits(vs[kv + 1..]) && 0 < vs[kv + 1] == vs[kv + 1..][0] < B
    ensures Val(us[ku..]) == x && Val(vs[kv + 1..]) == y
  {
    hide Val;
    assert vs[kv + 1..] == vs[1..][kv..];
  }

  lemma NothingLost(p: nat)
    ensures Mul(0, p) == 0
  {
  }

  lemma MakeNormalised(us: seq<nat>, vs: seq<nat>, ku: nat, kv: nat, m: nat, n: nat, x: nat, y: nat, d: nat)
    requires |us| == |vs| == 5 && n >= 2 && ku + m + n == 4 && kv + n == 4
    requires (forall z :: 0 <= z < ku ==> us[z] == 0) && Digits(us[ku..]) && Digits(vs[kv + 1..])
    requires Val(us[ku..]) == Bits.Shl(x, d) && Val(vs[kv + 1..]) == Bits.Shl(y, d) && vs[kv + 1] >= B / 2
    requires Val(us[ku..][..n]) < Val(vs[kv + 1..])
    ensures Normalised(us, vs, ku, kv, m, n, x, y, d)
  {
    hide Val, Pow2, Bits.Shl;
    SliceOfTail(us, ku, n);
    forall z | 0 <= z < 5 ensures us[z] < B {
      if z >= ku {
        assert us[z] == us[ku..][z - ku];
      }
    }
  }

  lemma HighOfZero(d: nat)
    requires d <= 16
    ensures High(0, d) == 0
  {
  }

  lemma PrependZero(s: seq<nat>)
    requires Digits(s)
    ensures Val([0] + s) == Val(s) && Digits([0] + s)
  {
    hide Val, PowB;
    ValPrepend(0, s);
  }

  /** A buffer with zeros before place p holds the number written from p on. */
  lemma BufferValue(s: seq<nat>, p: nat)
    requires |s| == 5 && p <= 5 && s[0] == 0 && Digits(s[p..]) && forall z :: 0 <= z < p ==> s[z] == 0
    ensures JoinQuad(s) == Val(s[p..])
  {
    hide Val, JoinQuad;
    DropZeros(s, p);
    DropZeros(s, 1);
    forall z | 0 <= z < |s[1..]| ensures s[1..][z] < B {
      if z + 1 >= p {
        assert s[1..][z] == s[p..][z + 1 - p];
      }
    }
    JoinQuadValue(s);
  }

  lemma ScaledBack(r: nat, w: nat, low: nat, d: nat)
    requires Bits.Shl(r, d) == Bits.Shl(w, d) + low && low < Pow2(d)
    ensures r == w
  {
    hide Pow2;
    ShlIsProduct(r, d);
    ShlIsProduct(w, d);
    DivModUnique(r * Pow2(d), Pow2(d), r, 0);
    DivModUnique(r * Pow2(d), Pow2(d), w, low);
  }

  lemma LowBitsBound(x: nat, d: nat)
    ensures LowBits(x, d) < Pow2(d)
  {
    hide Pow2;
  }

  /** The remainder the caller asked for: the low digits of the dividend buffer, scaled back. */
  method TakeRemainder(us: array<nat>, p: nat, n: nat, d: nat, ghost r: nat) returns (rem: nat)
    requires us.Length == 5 && p + n == 4 && n >= 1 && d < 16
    requires (forall z :: 0 <= z <= p ==> us[z] == 0) && Digits(us[p + 1..])
    requires Val(us[p + 1..]) == Bits.Shl(r, d)
    modifies us
    ensures rem == r
  {
    hide Val, Pow2, Bits.Shl, LowBits, JoinQuad;
    ghost var rest := us[p + 1..];
    SliceHead(us[..], p, p + n + 1);
    SliceTail(us[..], p, p + n + 1);
    SliceTail(us[..], p + 1, p + n + 1);
    assert us[p..p + n + 1] == [0] + rest;
    PrependZero(rest);
    if d > 0 {
      LowBitsBound(us[p + n], d);
      ShiftBack(us, p, n, d);
      SliceTail(us[..], p, p + n + 1);
      ScaledBack(r, Val(us[p..]), LowBits(old(us[p + n]), d), d);
    } else {
      ShiftByNone(r);
    }
    assert us[..][p..] == us[p..];
    BufferValue(us[..], p);
    rem := JoinQuad(us[..]);
  }

  lemma OperandShape(us: seq<nat>, vs: seq<nat>, ku: nat, kv: nat, m: nat, n: nat, x: nat, y: nat)
    requires Operands(us, vs, ku, kv, m, n, x, y)
    ensures 2 <= n && ku + m + n == 4 && kv + n == 4
  {
  }

  lemma NormalisedShape(us: seq<nat>, vs: seq<nat>, ku: nat, kv: nat, m: nat, n: nat, x: nat, y: nat, d: nat)
    requires Normalised(us, vs, ku, kv, m, n, x, y, d)
    ensures Digits(us) && Digits(vs[kv + 1..]) && (forall z :: 0 <= z < ku ==> us[z] == 0) && vs[kv + 1] >= B / 2
    ensures Val(us[ku..]) == Bits.Shl(x, d) && Val(vs[kv + 1..]) == Bits.Shl(y, d)
    ensures Val(us[ku..ku + n]) < Val(vs[kv + 1..])
  {
  }

  lemma QuotientAndRemainder(u: seq<nat>, quot: seq<nat>, rest: seq<nat>, v: seq<nat>, x: nat, y: nat, d: nat)
    requires Divided(u, quot, rest, v) && y > 0
    requires Val(u) == Bits.Shl(x, d) && Val(v) == Bits.Shl(y, d)
    ensures Digits(quot) && Digits(rest) && Val(quot) == x / y && Val(rest) == Bits.Shl(x % y, d)
  {
    hide Val, Pow2, Bits.Shl, Mul;
    Unscale(x, y, Val(quot), Val(rest), d);
  }

  /** Long division of operands of at least two divisor digits. */
  method DivideLong(us: array<nat>, vs: array<nat>, qs: array<nat>, ku: nat, kv: nat, m: nat, n: nat,
      wantRem: bool, ghost x: nat, ghost y: nat) returns (q: nat, r: Option<nat>)
    requires us != vs && us != qs && vs != qs && us.Length == vs.Length == qs.Length == 5
    requires Operands(us[..], vs[..], ku, kv, m, n, x, y)
    modifies us, vs, qs
    ensures y > 0 && q == x / y && r == if wantRem then Some(x % y) else None
  {
    hide Val, PowB, Pow2, Bits.Shl, LowBits, Mul, Normalised, Operands, Divided, JoinQuad, DigitArith.Digits;
    OperandBounds(us[..], vs[..], ku, kv, m, n, x, y);
    OperandShape(us[..], vs[..], ku, kv, m, n, x, y);
    var i := 4 - m;
    while i > 0
      invariant 0 <= i <= 4 - m
      invariant us[..] == old(us[..]) && vs[..] == old(vs[..])
      invariant forall z :: i <= z < 4 - m ==> qs[z] == 0
    {
      i := i - 1;
      qs[i] := 0;
    }
    var kq := 4 - m;
    var d := Normalise(us, vs, ku, kv, m, n, x, y);
    NormalisedShape(us[..], vs[..], ku, kv, m, n, x, y, d);
    var v := vs[kv + 1..];
    ghost var u := us[ku..];
    assert us[ku..ku + m + n + 1] == u == us[..][ku..] && v == vs[..][kv + 1..];
    assert us[ku..ku + n] == us[..][ku..ku + n];
    assert Digits(u) by { DigitsTail(us[..], ku); }
    AlgorithmD(us, ku, v, m, qs, kq);
    ghost var quot, rest := qs[kq..], us[ku + m + 1..];
    assert qs[kq..kq + m + 1] == quot && us[ku..ku + m + n + 1][m + 1..] == rest;
    assert forall z :: ku <= z <= ku + m ==> us[z] == us[ku..ku + m + n + 1][z - ku];
    QuotientAndRemainder(u, quot, rest, v, x, y, d);
    r := None;
    if wantRem {
      var rem := TakeRemainder(us, ku + m, n, d, x % y);
      r := Some(rem);
    }
    assert qs[..][kq..] == quot;
    BufferValue(qs[..], kq);
    q := JoinQuad(qs[..]);
  }

  lemma DigitsTail(s: seq<nat>, k: nat)
    requires Digits(s) && k <= |s|
    ensures Digits(s[k..])
  {
  }

  lemma DividendLongEnough(x: nat, y: nat, us: seq<nat>, ku: nat, m: int, n: nat, vs: seq<nat>, kv: nat)
    requires |us| == |vs| == 5 && kv + n == 4 && 2 <= n && m == 4 - n - ku && ku <= 4
    requires Digits(us) && Digits(vs[1..]) && Val(us) == x && Val(vs[kv + 1..]) == y && vs[kv + 1] > 0
    requires (forall z :: 0 <= z <= ku ==> us[z] == 0) && x >= y
    ensures m >= 0
  {
    hide Val, PowB;
    var v := vs[kv + 1..];
    assert v == vs[1..][kv..];
    ValLeading(v);
    MulMonotone(1, v[0], PowB(n - 1));
    DropZeros(us, ku + 1);
    ValBound(us[ku + 1..]);
    if m < 0 {
      PowBMonotone(4 - ku, n - 1);
    }
  }

  lemma PowBMonotone(a: nat, b: nat)
    requires a <= b
    ensures PowB(a) <= PowB(b)
  {
    if a < b {
      PowBMonotone(a, b - 1);
    }
  }

  /** Drops the dividend's leading zero digits, then divides. */
  method DivideStored(us: array<nat>, vs: array<nat>, qs: array<nat>, kv: nat, n: nat,
      wantRem: bool, ghost x: nat, ghost y: nat) returns (q: nat, r: Option<nat>)
    requires us != vs && us != qs && vs != qs && us.Length == vs.Length == qs.Length == 5
    requires 2 <= n && kv + n == 4 && us[0] == 0 && vs[kv + 1] > 0
    requires Digits(us[..]) && Digits(vs[..][1..]) && Val(us[..]) == x && Val(vs[..][kv + 1..]) == y && x >= y
    modifies us, vs, qs
    ensures y > 0 && q == x / y && r == if wantRem then Some(x % y) else None
  {
    hide Val, Operands, DigitArith.Digits;
    ghost var u, v := us[..], vs[..];
    var m, ku := 4 - n, 0;
    while us[ku + 1] == 0
      invariant ku <= 2 && m == 4 - n - ku && m >= 0
      invariant us[..] == u && vs[..] == v
      invariant forall z :: 0 <= z <= ku ==> us[z] == 0
      decreases m
    {
      DividendLongEnough(x, y, u, ku + 1, m - 1, n, v, kv);
      m := m - 1;
      ku := ku + 1;
    }
    DropZeros(u, ku);
    OperandsReady(us[..], vs[..], ku, kv, m, n, x, y);
    q, r := DivideLong(us, vs, qs, ku, kv, m, n, wantRem, x, y);
  }

  /** Quotient and remainder of unsigned 64-bit values. */
  method Qdivrem(uq: nat, vq: nat, wantRem: bool) returns (res: Outcome)
    requires uq < QUAD && vq < QUAD
    ensures vq == 0 ==> res == DivideFault
    ensures vq > 0 ==> res == Quotient(uq / vq, if wantRem then Some(uq % vq) else None)
  {
    hide Val, QuadDigits, DigitArith.Digits;
    if vq == 0 {
      return DivideFault;
    }
    if uq < vq {
      DivModUnique(uq, vq, 0, uq);
      return Quotient(0, if wantRem then Some(uq) else None);
    }
    var us, vs, qs := new nat[5](_ => 0), new nat[5](_ => 0), new nat[5](_ => 0);
    StoreQuad(uq, us);
    StoreQuad(vq, vs);
    us[0] := 0;
    QuadDigitsValue(uq);
    QuadDigitsValue(vq);
    assert us[..] == [0] + QuadDigits(uq);
    PrependZero(QuadDigits(uq));
    var n, kv := 4, 0;
    while vs[kv + 1] == 0
      invariant 2 <= n && kv + n == 4
      invariant vs[1..] == QuadDigits(vq) && us[..] == [0] + QuadDigits(uq)
      invariant forall z :: 1 <= z <= kv ==> vs[z] == 0
      decreases n
    {
      n := n - 1;
      if n == 1 {
        res := DivideByLastDigit(us[1..], vs[1..], uq, vq, wantRem);
        return;
      }
      kv := kv + 1;
    }
    assert vs[1..][kv..] == vs[..][kv + 1..] && vs[1..] == vs[..][1..];
    DropZeros(vs[1..], kv);
    var q, r := DivideStored(us, vs, qs, kv, n, wantRem, uq, vq);
    return Quotient(q, r);
  }

  lemma OperandsReady(us: seq<nat>, vs: seq<nat>, ku: nat, kv: nat, m: nat, n: nat, x: nat, y: nat)
    requires |us| == |vs| == 5 && 2 <= n && ku + m + n == 4 && kv + n == 4
    requires Digits(us) && Digits(vs[1..]) && (forall z :: 0 <= z <= ku ==> us[z] == 0) && vs[kv + 1] > 0
    requires Val(us[ku..]) == x && Val(vs[kv + 1..]) == y
    ensures Operands(us, vs, ku, kv, m, n, x, y)
  {
  }

  /** The divisor has one digit, its last. */
  method DivideByLastDigit(u: seq<nat>, v: seq<nat>, uq: nat, vq: nat, wantRem: bool) returns (res: Outcome)
    requires |u| == |v| == 4 && Digits(u) && Digits(v) && Val(u) == uq && Val(v) == vq && vq > 0
    requires v[0] == v[1] == v[2] == 0
    ensures res == Quotient(uq / vq, if wantRem then Some(uq % vq) else None)
  {
    hide Val, Mul, Combine;
    var t := v[3];
    FourDigits(v[0], v[1], v[2], v[3]);
    assert v == [v[0], v[1], v[2], v[3]];
    var qd, r := DivideByDigit(u, t);
    FourDigits(qd[0], qd[1], qd[2], qd[3]);
    assert qd == [qd[0], qd[1], qd[2], qd[3]];
    CombineIsSum(qd[0], qd[1]);
    CombineIsSum(qd[2], qd[3]);
    ProductOrder(Val(qd), t);
    DivModUnique(uq, t, Val(qd), r);
    res := Quotient(Combine(qd[0], qd[1]) * W + Combine(qd[2], qd[3]), if wantRem then Some(r) else None);
  }

  lemma ProductOrder(a: nat, b: nat)
    ensures Mul(a, b) == b * a
  {
  }

  /** Unsigned 64-bit division, as the compiler calls it. */
  method Udivdi3(a: nat, b: nat) returns (q: Option<nat>)
    requires a < QUAD && b < QUAD
    ensures q == if b == 0 then None else Some(a / b)
  {
    var res := Qdivrem(a, b, false);
    q := if res.DivideFault? then None else Some(res.q);
  }

  /** Unsigned 64-bit remainder, as the compiler calls it. */
  method Umoddi3(a: nat, b: nat) returns (r: Option<nat>)
    requires a < QUAD && b < QUAD
    ensures r == if b == 0 then None else Some(a % b)
  {
    var res := Qdivrem(a, b, true);
    r := if res.DivideFault? then None else res.r;
  }
}
