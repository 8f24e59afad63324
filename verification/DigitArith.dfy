/** Numbers as big-endian digit sequences in base 2^16, and the arithmetic that
    Algorithm D (Knuth, The Art of Computer Programming, volume 2, section 4.3.1) rests on. */
module DigitArith {
  import opened Bits

  const B: nat := 0x1_0000
  const W: nat := 0x1_0000_0000

  function HHalf(x: nat): nat { x / B }

  function LHalf(x: nat): nat { x % B }

  function Combine(a: nat, b: nat): nat { Or(U32(a * B), b) }

  function PowB(k: nat): (p: nat)
    ensures p >= 1
  {
    if k == 0 then 1 else PowB(k - 1) * B
  }

  ghost predicate Digits(s: seq<nat>) {
    forall i :: 0 <= i < |s| ==> s[i] < B
  }

  /** The number written by the digits s, most significant first. */
  function Val(s: seq<nat>): nat {
    if s == [] then 0 else Val(s[..|s| - 1]) * B + s[|s| - 1]
  }

  lemma CombineIsSum(a: nat, b: nat)
    requires a < B && b < B
    ensures Combine(a, b) == a * B + b
  {
    assert Pow2(16) == B by { ByteAndHalfWord(); }
    assert U32(a * B) == a * B;
    OrDisjoint(a * B, b, 16);
  }

  lemma ValAppend(s: seq<nat>, d: nat)
    ensures Val(s + [d]) == Val(s) * B + d
  {
  }

  lemma {:induction false} ValPrepend(d: nat, s: seq<nat>)
    ensures Val([d] + s) == d * PowB(|s|) + Val(s)
  {
    if s == [] {
      assert [d] + s == [] + [d];
      ValAppend([], d);
    } else {
      var t, e := s[..|s| - 1], s[|s| - 1];
      ValPrepend(d, t);
      assert [d] + s == ([d] + t) + [e];
      ValAppend([d] + t, e);
      assert (d * PowB(|t|)) * B == d * (PowB(|t|) * B);
    }
  }

  lemma {:induction false} ValBound(s: seq<nat>)
    requires Digits(s)
    ensures Val(s) < PowB(|s|)
  {
    if s != [] {
      ValBound(s[..|s| - 1]);
    }
  }

  lemma SliceExtend<T>(s: seq<T>, a: nat, b: nat)
    requires a <= b < |s|
    ensures s[a..b + 1] == s[a..b] + [s[b]]
  {
  }

  lemma SliceOfSlice<T>(s: seq<T>, a: nat, b: nat, i: nat, j: nat)
    requires a <= b <= |s| && i <= j <= b - a
    ensures s[a..b][i..j] == s[a + i..a + j]
  {
    var x, y := s[a..b][i..j], s[a + i..a + j];
    assert forall k :: 0 <= k < j - i ==> x[k] == s[a..b][i + k] == s[a + i + k] == y[k];
    assert x == y;
  }

  lemma SliceHead<T>(s: seq<T>, a: nat, b: nat)
    requires a < b <= |s|
    ensures s[a..b] == [s[a]] + s[a + 1..b]
  {
  }

  lemma SliceTail<T>(s: seq<T>, a: nat, b: nat)
    requires a <= b == |s|
    ensures s[a..b] == s[a..]
  {
  }

  lemma SliceOfTail<T>(s: seq<T>, a: nat, n: nat)
    requires a + n <= |s|
    ensures s[a..][..n] == s[a..a + n]
  {
    assert |s[a..][..n]| == n && forall i :: 0 <= i < n ==> s[a..][..n][i] == s[a + i] == s[a..a + n][i];
  }

  /** Overwriting the part of a sequence that starts at j. */
  function Splice<T>(s: seq<T>, j: nat, w: seq<T>): seq<T>
    requires j + |w| <= |s|
  {
    s[..j] + w + s[j + |w|..]
  }

  lemma SpliceParts<T>(s: seq<T>, j: nat, w: seq<T>)
    requires j + |w| <= |s| && |w| > 0
    ensures |Splice(s, j, w)| == |s| && Splice(s, j, w)[..j] == s[..j]
    ensures Splice(s, j, w)[j] == w[0] && Splice(s, j, w)[j + 1..j + |w|] == w[1..]
    ensures Splice(s, j, w)[j + |w|..] == s[j + |w|..]
  {
  }

  /** A buffer changed only at k + j and the |w| - 1 places after it, seen in the window at k. */
  lemma SpliceInWindow<T>(a: seq<T>, b: seq<T>, k: nat, len: nat, j: nat, w: seq<T>)
    requires |a| == |b| && k + len <= |a| && j + |w| <= len
    requires forall z :: 0 <= z < k + j || k + j + |w| <= z < |a| ==> b[z] == a[z]
    requires w == b[k + j..k + j + |w|]
    ensures b[k..k + len] == Splice(a[k..k + len], j, w)
  {
  }

  lemma ValZeros(s: seq<nat>)
    requires forall i :: 0 <= i < |s| ==> s[i] == 0
    ensures Val(s) == 0
  {
  }

  /** One digit of multiply-and-subtract in wrapping arithmetic: the new digit and the
      new borrow carry exactly the difference. */
  lemma MulSubDigit(u: nat, v: nat, qhat: nat, t: nat, x: nat)
    requires u < B && v < B && qhat < B && t < B
    requires x == U32(u - Mul(v, qhat) - t)
    ensures LHalf(x) < B && (B - HHalf(x)) % B < B
    ensures LHalf(x) == u - v * qhat - t + ((B - HHalf(x)) % B) * B
  {
    MulMonotone(v, B - 1, qhat);
    MulMonotone(qhat, B - 1, B - 1);
    BorrowDigit(u - v * qhat - t, x);
  }

  lemma BorrowDigit(y: int, x: nat)
    requires -(B * B - B) <= y < B && x == U32(y)
    ensures LHalf(x) == y + ((B - HHalf(x)) % B) * B
  {
  }

  /** Extending a multiply-subtract from the low digits by one more significant digit. */
  lemma MulSubExtend(d: int, u: int, v: int, q: int, t: int, t': int, P: int, P1: int, lo: int, ln: int, vl: int,
      vv: int)
    requires d == u - v * q - t + t' * B && P1 == P * B && vv == v * P + vl
    requires ln + q * vl == lo + t * P
    ensures (d * P + ln) + q * vv == (u * P + lo) + t' * P1
  {
  }

  /** Extending an addition with carry from the low digits by one more significant digit. */
  lemma AddExtend(d: int, u: int, v: int, t: int, t': int, P: int, P1: int, lo: int, ln: int, vl: int)
    requires d + t' * B == u + v + t && P1 == P * B
    requires ln + t * P == lo + vl
    ensures (d * P + ln) + t' * P1 == (u * P + lo) + (v * P + vl)
  {
  }

  /** Knuth's Theorems A and B. The quotient of the three leading digits of the dividend by the
      two leading digits of the divisor, capped at B - 1, is the true quotient digit or one more. */
  lemma QhatWithinOne(u3: nat, ul: nat, v2: nat, vl: nat, P: nat, qhat: nat)
    requires P >= 1 && ul < P && vl < P && v2 >= B
    requires u3 * P + ul < (v2 * P + vl) * B
    requires qhat == if u3 / v2 < B then u3 / v2 else B - 1
    ensures var q := (u3 * P + ul) / (v2 * P + vl); q <= qhat <= q + 1
  {
    var U, V := u3 * P + ul, v2 * P + vl;
    TopPositive(v2, vl, P, V);
    var q := U / V;
    DivBounds(U, V);
    QhatNotTooSmall(u3, ul, v2, vl, P, qhat, q, U, V);
    QhatNotTooBig(u3, ul, v2, vl, P, qhat, q, U, V);
  }

  lemma TopPositive(v2: nat, vl: nat, P: nat, V: nat)
    requires P >= 1 && v2 >= 1 && V == v2 * P + vl
    ensures V > 0
  {
    MulMonotone(1, P, v2);
  }

  lemma DivBounds(x: nat, d: nat)
    requires d > 0
    ensures (x / d) * d <= x < (x / d + 1) * d
  {
  }

  lemma DivBelow(x: nat, d: nat, k: nat)
    requires d > 0 && x < k * d
    ensures x / d < k
  {
  }

  lemma QhatNotTooSmall(u3: nat, ul: nat, v2: nat, vl: nat, P: nat, qhat: nat, q: nat, U: nat, V: nat)
    requires P >= 1 && ul < P && v2 >= B && U == u3 * P + ul && V == v2 * P + vl && U < V * B
    requires qhat == if u3 / v2 < B then u3 / v2 else B - 1
    requires q * V <= U
    ensures q <= qhat
  {
    assert (qhat + 1) * V == (qhat + 1) * (v2 * P) + (qhat + 1) * vl;
    assert (qhat + 1) * (v2 * P) == ((qhat + 1) * v2) * P;
    assert (u3 + 1) * P == u3 * P + P;
    DivBounds(u3, v2);
    if u3 / v2 < B {
      // (qhat + 1) * v2 >= u3 + 1, so (qhat + 1) * V >= (u3 + 1) * P > U
      MulMonotone(u3 + 1, (qhat + 1) * v2, P);
      assert (qhat + 1) * V > U;
    }
    if q > qhat {
      MulMonotone(qhat + 1, q, V);
      assert false;
    }
  }

  lemma QhatNotTooBig(u3: nat, ul: nat, v2: nat, vl: nat, P: nat, qhat: nat, q: nat, U: nat, V: nat)
    requires P >= 1 && vl < P && v2 >= B && U == u3 * P + ul && V == v2 * P + vl
    requires qhat == if u3 / v2 < B then u3 / v2 else B - 1
    requires U < (q + 1) * V
    ensures qhat <= q + 1
  {
    DivBounds(u3, v2);
    if qhat >= q + 2 {
      MulMonotone(qhat, u3 / v2, v2);
      assert qhat * v2 <= u3;
      // U < (qhat - 1) * V, yet qhat * V <= U + qhat * P and V >= B * P > qhat * P
      MulMonotone(q + 1, qhat - 1, V);
      assert (qhat - 1) * V == qhat * V - V;
      assert qhat * V == qhat * (v2 * P) + qhat * vl;
      assert qhat * (v2 * P) == (qhat * v2) * P;
      MulMonotone(qhat * v2, u3, P);
      MulMonotone(vl, P, qhat);
      MulMonotone(qhat, B, P);
      MulMonotone(B, v2, P);
      assert false;
    }
  }

  lemma PowBNext(k: nat)
    ensures PowB(k + 1) == PowB(k) * B
  {
  }

  /** One step of step D4 on whole numbers: digits u of the dividend and v of the divisor are
      prepended to the part (lo, vl) already processed, whose new digits are ln. */
  lemma MulSubStep(ln: seq<nat>, lo: seq<nat>, vl: seq<nat>, u: nat, v: nat, q: nat, t: nat, x: nat, d: nat, t': nat)
    requires |ln| == |lo| == |vl| && u < B && v < B && q < B && t < B
    requires Val(ln) + q * Val(vl) == Val(lo) + t * PowB(|ln|)
    requires x == U32(u - Mul(v, q) - t) && d == LHalf(x) && t' == (B - HHalf(x)) % B
    ensures d < B && t' < B
    ensures Val([d] + ln) + q * Val([v] + vl) == Val([u] + lo) + t' * PowB(|ln| + 1)
  {
    hide *;
    MulSubDigit(u, v, q, t, x);
    ValPrepend(d, ln);
    ValPrepend(u, lo);
    ValPrepend(v, vl);
    PowBNext(|ln|);
    MulSubExtend(d, u, v, q, t, t', PowB(|ln|), PowB(|ln| + 1), Val(lo), Val(ln), Val(vl), Val([v] + vl));
  }

  /** The final step of D4 takes only the borrow from the leading digit u. */
  lemma MulSubTop(ln: seq<nat>, lo: seq<nat>, qv: nat, u: nat, t: nat, x: nat, d: nat)
    requires |ln| == |lo| && u < B && t < B
    requires Val(ln) + qv == Val(lo) + t * PowB(|ln|)
    requires x == U32(u - t) && d == LHalf(x)
    ensures d < B
    ensures Val([d] + ln) + qv == Val([u] + lo) + if HHalf(x) != 0 then PowB(|ln| + 1) else 0
  {
    hide *;
    var c := if HHalf(x) != 0 then 1 else 0;
    BorrowTop(u, t, x);
    ValPrepend(d, ln);
    ValPrepend(u, lo);
    PowBNext(|ln|);
    TopDigit(d, u, t, c, PowB(|ln|), PowB(|ln| + 1));
  }

  lemma BorrowTop(u: nat, t: nat, x: nat)
    requires u < B && t < B && x == U32(u - t)
    ensures LHalf(x) < B
    ensures LHalf(x) == u - t + if HHalf(x) != 0 then B else 0
  {
  }

  lemma TopDigit(d: int, u: int, t: int, c: int, P: int, P1: int)
    requires d == u - t + c * B && 0 <= c <= 1 && P1 == P * B
    ensures d * P + t * P == u * P + if c == 1 then P1 else 0
  {
  }

  /** One step of step D6, adding the divisor back. */
  lemma AddStep(ln: seq<nat>, lo: seq<nat>, vl: seq<nat>, u: nat, v: nat, t: nat, x: nat, d: nat, t': nat)
    requires |ln| == |lo| == |vl| && u < B && v < B && t <= 1
    requires Val(ln) + t * PowB(|ln|) == Val(lo) + Val(vl)
    requires x == U32(t + u + v) && d == LHalf(x) && t' == HHalf(x)
    ensures d < B && t' <= 1
    ensures Val([d] + ln) + t' * PowB(|ln| + 1) == Val([u] + lo) + Val([v] + vl)
  {
    hide *;
    CarryDigit(u, v, t, x);
    ValPrepend(d, ln);
    ValPrepend(u, lo);
    ValPrepend(v, vl);
    PowBNext(|ln|);
    AddExtend(d, u, v, t, t', PowB(|ln|), PowB(|ln| + 1), Val(lo), Val(ln), Val(vl));
  }

  lemma CarryDigit(u: nat, v: nat, t: nat, x: nat)
    requires u < B && v < B && t <= 1 && x == U32(t + u + v)
    ensures LHalf(x) < B && HHalf(x) <= 1 && LHalf(x) + HHalf(x) * B == u + v + t
  {
  }

  /** The final step of D6: the carry enters the leading digit, whose own carry is dropped. */
  lemma AddTop(ln: seq<nat>, lo: seq<nat>, v: nat, u: nat, t: nat, d: nat)
    requires |ln| == |lo| && u < B && t <= 1
    requires Val(ln) + t * PowB(|ln|) == Val(lo) + v
    requires d == LHalf(U32(u + t))
    ensures d < B
    ensures Val([d] + ln) + (if u + t == B then PowB(|ln| + 1) else 0) == Val([u] + lo) + v
  {
    hide *;
    var c := if u + t == B then 1 else 0;
    assert d == u + t - c * B by { CarryTop(u, t); }
    ValPrepend(d, ln);
    ValPrepend(u, lo);
    PowBNext(|ln|);
    TopDigit(u, d, t, c, PowB(|ln|), PowB(|ln| + 1));
  }

  lemma CarryTop(u: nat, t: nat)
    requires u < B && t <= 1
    ensures LHalf(U32(u + t)) == if u + t == B then 0 else u + t
  {
  }

  /** What the borrow out of step D4 means: the estimate was one too big. */
  lemma BorrowMeansTooBig(w: nat, v: nat, qhat: nat, n: nat, P: nat, borrow: bool)
    requires v > 0 && v < P && n < P
    requires w / v <= qhat <= w / v + 1
    requires n + qhat * v == w + if borrow then P else 0
    ensures borrow <==> qhat == w / v + 1
    ensures !borrow ==> n == w % v
    ensures borrow ==> n + v == w % v + P
  {
  }

  lemma {:induction false} ValSplit(s: seq<nat>, t: seq<nat>)
    ensures Val(s + t) == Val(s) * PowB(|t|) + Val(t)
  {
    if t == [] {
      assert s + t == s;
    } else {
      var t', d := t[..|t| - 1], t[|t| - 1];
      assert s + t == (s + t') + [d];
      assert t == t' + [d];
      ValSplit(s, t');
      ValAppend(s + t', d);
      ValAppend(t', d);
      assert (Val(s) * PowB(|t'|)) * B == Val(s) * (PowB(|t'|) * B);
    }
  }

  /** Digit sequences of equal length compare on their leading digits. */
  lemma LeadingDigits(s: seq<nat>, t: seq<nat>)
    requires |s| == |t| > 0 && Digits(s) && Digits(t) && Val(s) < Val(t)
    ensures s[0] <= t[0]
  {
    hide Val, PowB;
    ValLeading(s);
    ValLeading(t);
    CompareLeading(s[0], t[0], Val(s[1..]), Val(t[1..]), PowB(|s| - 1));
  }

  lemma ValLeading(s: seq<nat>)
    requires |s| > 0 && Digits(s)
    ensures Val(s) == s[0] * PowB(|s| - 1) + Val(s[1..])
    ensures Val(s[1..]) < PowB(|s| - 1)
  {
    hide Val, PowB;
    assert s == [s[0]] + s[1..];
    ValPrepend(s[0], s[1..]);
    ValBound(s[1..]);
  }

  lemma CompareLeading(a: nat, b: nat, x: nat, y: nat, P: nat)
    requires x < P && y < P && a * P + x < b * P + y
    ensures a <= b
  {
    if a > b {
      MulMonotone(b + 1, a, P);
    }
  }

  /** A number of fewer digits than its length says has leading zeros. */
  lemma LeadingZero(s: seq<nat>)
    requires |s| > 0 && Digits(s) && Val(s) < PowB(|s| - 1)
    ensures s[0] == 0 && Val(s[1..]) == Val(s)
  {
    hide Val, PowB;
    ValLeading(s);
    if s[0] > 0 {
      MulMonotone(1, s[0], PowB(|s| - 1));
    }
  }
}
