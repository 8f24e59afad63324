/** Bentley and McIlroy's quicksort (410kern/stdlib/qsort.c). A pointer into the array that is being
    sorted is an index; an element is one value of type T, compared by the caller's function. */
module Qsort {
  import opened Basics

  /** The comparison functions qsort is meant for: cmp(x, y) has the sign of x - y in some order
      in which any two elements are comparable, and distinct elements may be equivalent. */
  ghost predicate TotalPreorder<T(!new)>(cmp: (T, T) -> int) {
    (forall x, y :: cmp(x, y) < 0 <==> cmp(y, x) > 0) &&
    (forall x, y, z :: cmp(x, y) <= 0 && cmp(y, z) <= 0 ==> cmp(x, z) <= 0)
  }

  lemma Flip<T(!new)>(cmp: (T, T) -> int, x: T, y: T)
    requires TotalPreorder(cmp)
    ensures cmp(x, y) < 0 <==> cmp(y, x) > 0
    ensures cmp(x, y) > 0 <==> cmp(y, x) < 0
    ensures cmp(x, x) == 0
  {
  }

  ghost predicate Sorted<T(!new)>(s: seq<T>, cmp: (T, T) -> int, lo: nat, hi: nat)
    requires lo <= hi <= |s|
  {
    forall i, j :: lo <= i < j < hi ==> cmp(s[i], s[j]) <= 0
  }

  // ---------------------------------------------------------------- rearranging a range

  /** t is s with the elements from lo up to hi permuted. */
  ghost predicate Rearranged<T>(s: seq<T>, t: seq<T>, lo: nat, hi: nat) {
    lo <= hi <= |s| == |t| && s[..lo] == t[..lo] && s[hi..] == t[hi..] &&
    multiset(s[lo..hi]) == multiset(t[lo..hi])
  }

  lemma RearrangedSame<T>(s: seq<T>, lo: nat, hi: nat)
    requires lo <= hi <= |s|
    ensures Rearranged(s, s, lo, hi)
  {
  }

  lemma RearrangedChain<T>(s: seq<T>, t: seq<T>, u: seq<T>, lo: nat, hi: nat)
    requires Rearranged(s, t, lo, hi) && Rearranged(t, u, lo, hi)
    ensures Rearranged(s, u, lo, hi)
  {
  }

  lemma RearrangedWider<T>(s: seq<T>, t: seq<T>, lo: nat, hi: nat, lo': nat, hi': nat)
    requires Rearranged(s, t, lo, hi) && lo' <= lo && hi <= hi' <= |s|
    ensures Rearranged(s, t, lo', hi')
  {
    var x, y, z := s[lo'..lo], s[lo..hi], s[hi..hi'];
    var y' := t[lo..hi];
    assert t[..lo][lo'..] == t[lo'..lo] && s[..lo][lo'..] == x;
    assert t[hi..][..hi' - hi] == t[hi..hi'] && s[hi..][..hi' - hi] == z;
    assert s[lo'..hi'] == x + y + z && t[lo'..hi'] == x + y' + z;
    assert s[..lo'] == s[..lo][..lo'] && t[..lo'] == t[..lo][..lo'];
    assert s[hi'..] == s[hi..][hi' - hi..] && t[hi'..] == t[hi..][hi' - hi..];
  }

  lemma RearrangedOutside<T>(s: seq<T>, t: seq<T>, lo: nat, hi: nat)
    requires Rearranged(s, t, lo, hi)
    ensures |s| == |t| && forall z :: 0 <= z < lo || hi <= z < |s| ==> t[z] == s[z]
  {
  }

  /** Every element of a rearranged range was in the range before. */
  lemma RearrangedFrom<T>(s: seq<T>, t: seq<T>, lo: nat, hi: nat, k: nat) returns (j: nat)
    requires Rearranged(s, t, lo, hi) && lo <= k < hi
    ensures lo <= j < hi && s[j] == t[k]
  {
    assert t[lo..hi][k - lo] in multiset(t[lo..hi]);
    assert t[k] in multiset(s[lo..hi]);
    assert t[k] in s[lo..hi];
    var i :| 0 <= i < hi - lo && s[lo..hi][i] == t[k];
    j := lo + i;
  }

  function Swapped<T>(s: seq<T>, i: nat, j: nat): seq<T>
    requires i < |s| && j < |s|
  {
    s[i := s[j]][j := s[i]]
  }

  lemma SwapRearranges<T>(s: seq<T>, i: nat, j: nat, lo: nat, hi: nat)
    requires lo <= i < hi <= |s| && lo <= j < hi
    ensures Rearranged(s, Swapped(s, i, j), lo, hi)
  {
    var w := s[lo..hi];
    assert Swapped(s, i, j)[lo..hi] == Swapped(w, i - lo, j - lo);
    SwapMultiset(w, i - lo, j - lo);
  }

  lemma SwapMultiset<T>(s: seq<T>, i: nat, j: nat)
    requires i < |s| && j < |s|
    ensures multiset(Swapped(s, i, j)) == multiset(s)
  {
  }

  method Swap<T>(a: array<T>, i: nat, j: nat)
    requires i < a.Length && j < a.Length
    modifies a
    ensures a[..] == Swapped(old(a[..]), i, j)
  {
    var t := a[i];
    a[i] := a[j];
    a[j] := t;
  }

  // ---------------------------------------------------------------- insertion sort

  /** The range is sorted except that the element at hole has only been compared to those after it. */
  ghost predicate SortedBut<T(!new)>(s: seq<T>, cmp: (T, T) -> int, lo: nat, hi: nat, hole: nat)
    requires lo <= hi <= |s|
  {
    forall i, j :: lo <= i < j < hi && j != hole ==> cmp(s[i], s[j]) <= 0
  }

  lemma HoleDown<T(!new)>(s: seq<T>, cmp: (T, T) -> int, lo: nat, hi: nat, hole: nat)
    requires lo < hole < hi <= |s| && TotalPreorder(cmp)
    requires SortedBut(s, cmp, lo, hi, hole) && cmp(s[hole - 1], s[hole]) > 0
    ensures SortedBut(Swapped(s, hole, hole - 1), cmp, lo, hi, hole - 1)
  {
  }

  /** The inner loop of the insertion sort: the element that was at pm has sunk to pl. */
  ghost predicate Sinking<T(!new)>(s0: seq<T>, s: seq<T>, cmp: (T, T) -> int, lo: nat, pm: nat, pl: nat) {
    lo <= pl <= pm < |s| && Rearranged(s0, s, lo, pm + 1) &&
    (TotalPreorder(cmp) ==> SortedBut(s, cmp, lo, pm + 1, pl))
  }

  lemma SinkStart<T(!new)>(s: seq<T>, cmp: (T, T) -> int, lo: nat, pm: nat)
    requires lo <= pm < |s| && (TotalPreorder(cmp) ==> Sorted(s, cmp, lo, pm))
    ensures Sinking(s, s, cmp, lo, pm, pm)
  {
  }

  lemma SinkStep<T(!new)>(s0: seq<T>, s: seq<T>, cmp: (T, T) -> int, lo: nat, pm: nat, pl: nat)
    requires Sinking(s0, s, cmp, lo, pm, pl) && pl > lo && cmp(s[pl - 1], s[pl]) > 0
    ensures Sinking(s0, Swapped(s, pl, pl - 1), cmp, lo, pm, pl - 1)
  {
    hide TotalPreorder, Rearranged, SortedBut, Swapped;
    SwapRearranges(s, pl, pl - 1, lo, pm + 1);
    RearrangedChain(s0, s, Swapped(s, pl, pl - 1), lo, pm + 1);
    if TotalPreorder(cmp) {
      HoleDown(s, cmp, lo, pm + 1, pl);
    }
    SwapElsewhere(s, pl, pl - 1);
  }

  lemma SinkEnd<T(!new)>(s0: seq<T>, s: seq<T>, cmp: (T, T) -> int, lo: nat, pm: nat, pl: nat)
    requires Sinking(s0, s, cmp, lo, pm, pl) && (pl == lo || cmp(s[pl - 1], s[pl]) <= 0)
    ensures Rearranged(s0, s, lo, pm + 1) && (TotalPreorder(cmp) ==> Sorted(s, cmp, lo, pm + 1))
  {
  }

  /** The inner loop of the insertion sort: sinks the element at pm into the sorted range before it. */
  method Insert<T(!new)>(a: array<T>, lo: nat, pm: nat, cmp: (T, T) -> int)
    requires lo <= pm < a.Length
    requires TotalPreorder(cmp) ==> Sorted(a[..], cmp, lo, pm)
    modifies a
    ensures Rearranged(old(a[..]), a[..], lo, pm + 1)
    ensures TotalPreorder(cmp) ==> Sorted(a[..], cmp, lo, pm + 1)
  {
    hide *;
    ghost var s0 := a[..];
    SinkStart(s0, cmp, lo, pm);
    var pl := pm;
    while pl > lo && cmp(a[pl - 1], a[pl]) > 0
      invariant lo <= pl <= pm
      invariant Sinking(s0, a[..], cmp, lo, pm, pl)
    {
      ghost var s := a[..];
      assert s[pl - 1] == a[pl - 1] && s[pl] == a[pl];
      SinkStep(s0, s, cmp, lo, pm, pl);
      Swap(a, pl, pl - 1);
      pl := pl - 1;
    }
    ghost var s := a[..];
    assert s[pl] == a[pl] && (pl > lo ==> s[pl - 1] == a[pl - 1]);
    SinkEnd(s0, s, cmp, lo, pm, pl);
  }

  /** Sorts n elements from lo on by insertion; qsort falls back on this for short ranges and for
      ranges whose partition moved nothing. */
  method InsertionSort<T(!new)>(a: array<T>, lo: nat, n: nat, cmp: (T, T) -> int)
    requires lo + n <= a.Length
    modifies a
    ensures Rearranged(old(a[..]), a[..], lo, lo + n)
    ensures TotalPreorder(cmp) ==> Sorted(a[..], cmp, lo, lo + n)
  {
    hide TotalPreorder, Rearranged, Sorted, SortedBut, Swapped;
    ghost var hi := lo + n;
    ghost var s0 := a[..];
    RearrangedSame(s0, lo, hi);
    SortedShort(a[..], cmp, lo, if n == 0 then lo else lo + 1);
    var pm := lo + 1;
    while pm < lo + n
      invariant lo < pm && (n > 0 ==> pm <= hi)
      invariant Rearranged(s0, a[..], lo, hi)
      invariant TotalPreorder(cmp) ==> Sorted(a[..], cmp, lo, if n == 0 then lo else pm)
    {
      ghost var s := a[..];
      Insert(a, lo, pm, cmp);
      RearrangedWider(s, a[..], lo, pm + 1, lo, hi);
      RearrangedChain(s0, s, a[..], lo, hi);
      pm := pm + 1;
    }
  }

  lemma SortedShort<T(!new)>(s: seq<T>, cmp: (T, T) -> int, lo: nat, hi: nat)
    requires lo <= hi <= lo + 1 && hi <= |s|
    ensures Sorted(s, cmp, lo, hi)
  {
  }

  // ---------------------------------------------------------------- choosing the pivot

  /** At least two of the three are not above r, and at least two are not below it. */
  ghost predicate IsMedian<T(!new)>(cmp: (T, T) -> int, x: T, y: T, z: T, r: T) {
    ((cmp(x, r) <= 0 && cmp(y, r) <= 0) || (cmp(x, r) <= 0 && cmp(z, r) <= 0) || (cmp(y, r) <= 0 && cmp(z, r) <= 0)) &&
    ((cmp(x, r) >= 0 && cmp(y, r) >= 0) || (cmp(x, r) >= 0 && cmp(z, r) >= 0) || (cmp(y, r) >= 0 && cmp(z, r) >= 0))
  }

  /** The index of the median of three elements. */
  function Med3<T>(s: seq<T>, a: nat, b: nat, c: nat, cmp: (T, T) -> int): (r: nat)
    requires a < |s| && b < |s| && c < |s|
    ensures r == a || r == b || r == c
  {
    if cmp(s[a], s[b]) < 0
    then if cmp(s[b], s[c]) < 0 then b else if cmp(s[a], s[c]) < 0 then c else a
    else if cmp(s[b], s[c]) > 0 then b else if cmp(s[a], s[c]) < 0 then a else c
  }

  lemma Med3IsMedian<T(!new)>(s: seq<T>, a: nat, b: nat, c: nat, cmp: (T, T) -> int)
    requires a < |s| && b < |s| && c < |s| && TotalPreorder(cmp)
    ensures IsMedian(cmp, s[a], s[b], s[c], s[Med3(s, a, b, c, cmp)])
  {
    Flip(cmp, s[a], s[b]);
    Flip(cmp, s[b], s[c]);
    Flip(cmp, s[a], s[c]);
  }

  /** The index of the pivot of a range of at least seven elements: the middle one, the median of
      three, or the median of three medians of three. */
  function PivotIndex<T>(s: seq<T>, lo: nat, n: nat, cmp: (T, T) -> int): (pm: nat)
    requires 7 <= n && lo + n <= |s|
    ensures lo <= pm < lo + n
  {
    var mid, last := lo + n / 2, lo + n - 1;
    if n <= 7 then mid
    else if n <= 40 then Med3(s, lo, mid, last, cmp)
    else
      var d := n / 8;
      Med3(s, Med3(s, lo, lo + d, lo + 2 * d, cmp), Med3(s, mid - d, mid, mid + d, cmp),
           Med3(s, last - 2 * d, last - d, last, cmp), cmp)
  }

  // ---------------------------------------------------------------- partitioning

  /** The partition loop: the pivot is s[lo]; elements equivalent to it are gathered before pa and
      after pd, smaller ones lie from pa up to pb, larger ones after pc up to pd. */
  ghost predicate Split<T(!new)>(s: seq<T>, cmp: (T, T) -> int, lo: nat, hi: nat, pa: nat, pb: nat, pc: nat, pd: nat) {
    lo < pa <= pb <= pc + 1 && pc <= pd < hi <= |s| &&
    (forall k :: lo < k < pa ==> cmp(s[k], s[lo]) == 0) &&
    (forall k :: pa <= k < pb ==> cmp(s[k], s[lo]) < 0) &&
    (forall k :: pc < k <= pd ==> cmp(s[k], s[lo]) > 0) &&
    (forall k :: pd < k < hi ==> cmp(s[k], s[lo]) == 0)
  }

  lemma SplitStart<T(!new)>(s: seq<T>, cmp: (T, T) -> int, lo: nat, hi: nat)
    requires lo + 1 < hi <= |s|
    ensures Split(s, cmp, lo, hi, lo + 1, lo + 1, hi - 1, hi - 1)
  {
  }

  lemma SplitLess<T(!new)>(s: seq<T>, cmp: (T, T) -> int, lo: nat, hi: nat, pa: nat, pb: nat, pc: nat, pd: nat)
    requires Split(s, cmp, lo, hi, pa, pb, pc, pd) && pb <= pc && cmp(s[pb], s[lo]) < 0
    ensures Split(s, cmp, lo, hi, pa, pb + 1, pc, pd)
  {
  }

  lemma SplitEqualLeft<T(!new)>(s: seq<T>, cmp: (T, T) -> int, lo: nat, hi: nat, pa: nat, pb: nat, pc: nat, pd: nat)
    requires Split(s, cmp, lo, hi, pa, pb, pc, pd) && pb <= pc && cmp(s[pb], s[lo]) == 0
    ensures Split(Swapped(s, pa, pb), cmp, lo, hi, pa + 1, pb + 1, pc, pd)
  {
  }

  lemma SplitGreater<T(!new)>(s: seq<T>, cmp: (T, T) -> int, lo: nat, hi: nat, pa: nat, pb: nat, pc: nat, pd: nat)
    requires Split(s, cmp, lo, hi, pa, pb, pc, pd) && pb <= pc && cmp(s[pc], s[lo]) > 0
    ensures Split(s, cmp, lo, hi, pa, pb, pc - 1, pd)
  {
  }

  lemma SplitEqualRight<T(!new)>(s: seq<T>, cmp: (T, T) -> int, lo: nat, hi: nat, pa: nat, pb: nat, pc: nat, pd: nat)
    requires Split(s, cmp, lo, hi, pa, pb, pc, pd) && pb <= pc && cmp(s[pc], s[lo]) == 0
    ensures Split(Swapped(s, pc, pd), cmp, lo, hi, pa, pb, pc - 1, pd - 1)
  {
  }

  lemma SplitCross<T(!new)>(s: seq<T>, cmp: (T, T) -> int, lo: nat, hi: nat, pa: nat, pb: nat, pc: nat, pd: nat)
    requires Split(s, cmp, lo, hi, pa, pb, pc, pd) && pb <= pc
    requires cmp(s[pb], s[lo]) > 0 && cmp(s[pc], s[lo]) < 0
    ensures pb < pc
    ensures Split(Swapped(s, pb, pc), cmp, lo, hi, pa, pb + 1, pc - 1, pd)
  {
  }

  /** The partition loop on a range of at least two elements whose pivot is its first. */
  method Partition<T(!new)>(a: array<T>, lo: nat, hi: nat, cmp: (T, T) -> int)
    returns (pa: nat, pb: nat, pc: nat, pd: nat, swapped: bool)
    requires lo + 1 < hi <= a.Length
    modifies a
    ensures Rearranged(old(a[..]), a[..], lo, hi)
    ensures Split(a[..], cmp, lo, hi, pa, pb, pc, pd) && pb == pc + 1
  {
    hide *;
    ghost var s0 := a[..];
    swapped := false;
    pa, pb := lo + 1, lo + 1;
    pc, pd := hi - 1, hi - 1;
    SplitStart(s0, cmp, lo, hi);
    RearrangedSame(s0, lo, hi);
    while true
      invariant Rearranged(s0, a[..], lo, hi)
      invariant Split(a[..], cmp, lo, hi, pa, pb, pc, pd)
      decreases pc - pb
    {
      ghost var gap := pc - pb;
      pa, pb, swapped := ScanLeft(a, lo, hi, cmp, s0, pa, pb, pc, pd, swapped);
      pc, pd, swapped := ScanRight(a, lo, hi, cmp, s0, pa, pb, pc, pd, swapped);
      SplitRange(a[..], cmp, lo, hi, pa, pb, pc, pd);
      if pb > pc {
        break;
      }
      ghost var s := a[..];
      assert s[pb] == a[pb] && s[pc] == a[pc] && s[lo] == a[lo];
      SplitCross(s, cmp, lo, hi, pa, pb, pc, pd);
      SwapMore(s0, s, pb, pc, lo, hi);
      Swap(a, pb, pc);
      swapped := true;
      pb := pb + 1;
      pc := pc - 1;
    }
  }

  lemma SplitRange<T(!new)>(s: seq<T>, cmp: (T, T) -> int, lo: nat, hi: nat, pa: nat, pb: nat, pc: nat, pd: nat)
    requires Split(s, cmp, lo, hi, pa, pb, pc, pd)
    ensures lo < pa <= pb <= pc + 1 && pc <= pd < hi <= |s|
  {
  }

  lemma SwapMore<T>(s0: seq<T>, s: seq<T>, i: nat, j: nat, lo: nat, hi: nat)
    requires Rearranged(s0, s, lo, hi) && lo <= i < hi <= |s| && lo <= j < hi
    ensures Rearranged(s0, Swapped(s, i, j), lo, hi)
  {
  }

  /** Moves pb up over elements not above the pivot, gathering its equals at the left end. */
  method ScanLeft<T(!new)>(a: array<T>, lo: nat, hi: nat, cmp: (T, T) -> int, ghost s0: seq<T>,
      pa0: nat, pb0: nat, pc: nat, pd: nat, swapped0: bool) returns (pa: nat, pb: nat, swapped: bool)
    requires hi <= a.Length && Rearranged(s0, a[..], lo, hi) && Split(a[..], cmp, lo, hi, pa0, pb0, pc, pd)
    modifies a
    ensures Rearranged(s0, a[..], lo, hi) && Split(a[..], cmp, lo, hi, pa, pb, pc, pd)
    ensures pb0 <= pb && (pb <= pc ==> lo < hi && cmp(a[pb], a[lo]) > 0)
  {
    hide *;
    pa, pb, swapped := pa0, pb0, swapped0;
    SplitRange(a[..], cmp, lo, hi, pa, pb, pc, pd);
    while pb <= pc && cmp(a[pb], a[lo]) <= 0
      invariant lo < pa <= pb <= pc + 1 && pc <= pd < hi && pb0 <= pb
      invariant Rearranged(s0, a[..], lo, hi) && Split(a[..], cmp, lo, hi, pa, pb, pc, pd)
      decreases pc + 1 - pb
    {
      ghost var s := a[..];
      assert s[pb] == a[pb] && s[lo] == a[lo];
      var r := cmp(a[pb], a[lo]);
      if r == 0 {
        swapped := true;
        SplitEqualLeft(s, cmp, lo, hi, pa, pb, pc, pd);
        SwapMore(s0, s, pa, pb, lo, hi);
        Swap(a, pa, pb);
        pa := pa + 1;
      } else {
        SplitLess(s, cmp, lo, hi, pa, pb, pc, pd);
      }
      pb := pb + 1;
    }
  }

  /** Moves pc down over elements not below the pivot, gathering its equals at the right end. */
  method ScanRight<T(!new)>(a: array<T>, lo: nat, hi: nat, cmp: (T, T) -> int, ghost s0: seq<T>,
      pa: nat, pb: nat, pc0: nat, pd0: nat, swapped0: bool) returns (pc: nat, pd: nat, swapped: bool)
    requires hi <= a.Length && Rearranged(s0, a[..], lo, hi) && Split(a[..], cmp, lo, hi, pa, pb, pc0, pd0)
    modifies a
    ensures Rearranged(s0, a[..], lo, hi) && Split(a[..], cmp, lo, hi, pa, pb, pc, pd)
    ensures pc <= pc0 && (pb <= pc ==> lo < hi && a[pb] == old(a[pb]) && a[lo] == old(a[lo]) && cmp(a[pc], a[lo]) < 0)
  {
    hide *;
    pc, pd, swapped := pc0, pd0, swapped0;
    SplitRange(a[..], cmp, lo, hi, pa, pb, pc, pd);
    while pb <= pc && cmp(a[pc], a[lo]) >= 0
      invariant lo < pa <= pb <= pc + 1 && pc <= pd < hi && pc <= pc0
      invariant pb <= pc ==> a[pb] == old(a[pb])
      invariant a[lo] == old(a[lo])
      invariant Rearranged(s0, a[..], lo, hi) && Split(a[..], cmp, lo, hi, pa, pb, pc, pd)
      decreases pc + 1 - pb
    {
      ghost var s := a[..];
      assert s[pc] == a[pc] && s[lo] == a[lo];
      var r := cmp(a[pc], a[lo]);
      if r == 0 {
        swapped := true;
        SplitEqualRight(s, cmp, lo, hi, pa, pb, pc, pd);
        SwapMore(s0, s, pc, pd, lo, hi);
        SwapElsewhere(s, pc, pd);
        Swap(a, pc, pd);
        pd := pd - 1;
      } else {
        SplitGreater(s, cmp, lo, hi, pa, pb, pc, pd);
      }
      pc := pc - 1;
    }
  }

  lemma SwapElsewhere<T>(s: seq<T>, i: nat, j: nat)
    requires i < |s| && j < |s|
    ensures |Swapped(s, i, j)| == |s|
    ensures forall k :: 0 <= k < |s| && k != i && k != j ==> Swapped(s, i, j)[k] == s[k]
  {
  }

  // ---------------------------------------------------------------- bringing the equals together

  /** The ranges of r elements at i and at j exchange their contents. */
  ghost predicate Exchanged<T>(s: seq<T>, t: seq<T>, i: nat, j: nat, r: nat) {
    i + r <= j && j + r <= |s| == |t| &&
    (forall k :: i <= k < i + r ==> t[k] == s[k + (j - i)]) &&
    (forall k :: j <= k < j + r ==> t[k] == s[k - (j - i)]) &&
    (forall k :: 0 <= k < |s| && !(i <= k < i + r) && !(j <= k < j + r) ==> t[k] == s[k])
  }

  lemma ExchangeNone<T>(s: seq<T>, i: nat, j: nat)
    requires i <= j <= |s|
    ensures Exchanged(s, s, i, j, 0)
  {
  }

  lemma ExchangeMore<T>(s: seq<T>, t: seq<T>, i: nat, j: nat, r: nat)
    requires Exchanged(s, t, i, j, r) && i + r < j && j + r < |s|
    ensures Exchanged(s, Swapped(t, i + r, j + r), i, j, r + 1)
  {
  }

  method VecSwap<T>(a: array<T>, i: nat, j: nat, r: nat, ghost lo: nat, ghost hi: nat)
    requires lo <= i && i + r <= j && j + r <= hi <= a.Length
    modifies a
    ensures Exchanged(old(a[..]), a[..], i, j, r)
    ensures Rearranged(old(a[..]), a[..], lo, hi)
  {
    hide *;
    ghost var s0 := a[..];
    ExchangeNone(s0, i, j);
    RearrangedSame(s0, lo, hi);
    var k := 0;
    while k < r
      invariant k <= r
      invariant Exchanged(s0, a[..], i, j, k)
      invariant Rearranged(s0, a[..], lo, hi)
    {
      ghost var s := a[..];
      ExchangeMore(s0, s, i, j, k);
      SwapMore(s0, s, i + k, j + k, lo, hi);
      Swap(a, i + k, j + k);
      k := k + 1;
    }
  }

  /** Elements below the pivot p come first, nl of them, elements above it last, ng of them, and
      between them the pivot and its equals. */
  ghost predicate Grouped<T(!new)>(s: seq<T>, cmp: (T, T) -> int, p: T, lo: nat, hi: nat, nl: nat, ng: nat) {
    lo + nl + ng < hi <= |s| &&
    (forall k :: lo <= k < lo + nl ==> cmp(s[k], p) < 0) &&
    (forall k :: lo + nl <= k < hi - ng ==> s[k] == p || cmp(s[k], p) == 0) &&
    (forall k :: hi - ng <= k < hi ==> cmp(s[k], p) > 0)
  }

  lemma GroupLeft<T(!new)>(s: seq<T>, t: seq<T>, cmp: (T, T) -> int, lo: nat, pa: nat, pb: nat, r: nat)
    requires lo < pa <= pb <= |s| && r == Min(pa - lo, pb - pa) && Exchanged(s, t, lo, pb - r, r)
    requires forall k :: lo < k < pa ==> cmp(s[k], s[lo]) == 0
    requires forall k :: pa <= k < pb ==> cmp(s[k], s[lo]) < 0
    ensures forall k :: lo <= k < lo + (pb - pa) ==> cmp(t[k], s[lo]) < 0
    ensures forall k :: lo + (pb - pa) <= k < pb ==> t[k] == s[lo] || cmp(t[k], s[lo]) == 0
  {
  }

  lemma GroupRight<T(!new)>(s: seq<T>, t: seq<T>, cmp: (T, T) -> int, p: T, pb: nat, pd: nat, hi: nat, r: nat)
    requires 0 < pb <= pd + 1 <= hi <= |s| && r == Min(pd + 1 - pb, hi - pd - 1) && Exchanged(s, t, pb, hi - r, r)
    requires forall k :: pb <= k <= pd ==> cmp(s[k], p) > 0
    requires forall k :: pd < k < hi ==> cmp(s[k], p) == 0
    ensures forall k :: hi - (pd + 1 - pb) <= k < hi ==> cmp(t[k], p) > 0
    ensures forall k :: pb <= k < hi - (pd + 1 - pb) ==> cmp(t[k], p) == 0
  {
  }

  lemma ExchangedElsewhere<T>(s: seq<T>, t: seq<T>, i: nat, j: nat, r: nat)
    requires Exchanged(s, t, i, j, r)
    ensures |s| == |t| && forall k :: 0 <= k < i || j + r <= k < |s| ==> t[k] == s[k]
  {
  }

  lemma GroupBoth<T(!new)>(s: seq<T>, t: seq<T>, u: seq<T>, cmp: (T, T) -> int, lo: nat, hi: nat,
      pa: nat, pb: nat, pc: nat, pd: nat)
    requires Split(s, cmp, lo, hi, pa, pb, pc, pd) && pb == pc + 1
    requires Exchanged(s, t, lo, pb - Min(pa - lo, pb - pa), Min(pa - lo, pb - pa))
    requires Exchanged(t, u, pb, hi - Min(pd - pc, hi - pd - 1), Min(pd - pc, hi - pd - 1))
    ensures Grouped(u, cmp, s[lo], lo, hi, pb - pa, pd - pc)
  {
    hide Min, Exchanged;
    MinBounds(pa - lo, pb - pa);
    MinBounds(pd - pc, hi - pd - 1);
    ExchangedElsewhere(s, t, lo, pb - Min(pa - lo, pb - pa), Min(pa - lo, pb - pa));
    ExchangedElsewhere(t, u, pb, hi - Min(pd - pc, hi - pd - 1), Min(pd - pc, hi - pd - 1));
    GroupLeft(s, t, cmp, lo, pa, pb, Min(pa - lo, pb - pa));
    GroupRight(t, u, cmp, s[lo], pb, pd, hi, Min(pd - pc, hi - pd - 1));
  }

  /** One round on a range of at least seven elements: choose a pivot and group the range around it,
      or, when the partition moved nothing, sort the range by insertion. */
  method Round<T(!new)>(a: array<T>, lo: nat, n: nat, cmp: (T, T) -> int)
    returns (nl: nat, ng: nat, sorted: bool, ghost p: T)
    requires 7 <= n && lo + n <= a.Length
    modifies a
    ensures Rearranged(old(a[..]), a[..], lo, lo + n)
    ensures sorted && TotalPreorder(cmp) ==> Sorted(a[..], cmp, lo, lo + n)
    ensures !sorted ==> Grouped(a[..], cmp, p, lo, lo + n, nl, ng)
  {
    hide *;
    ghost var s0 := a[..];
    var hi := lo + n;
    RearrangedSame(s0, lo, hi);
    var pm := PivotIndex(a[..], lo, n, cmp);
    SwapMore(s0, s0, lo, pm, lo, hi);
    Swap(a, lo, pm);
    ghost var s1 := a[..];
    var pa, pb, pc, pd, swapped := Partition(a, lo, hi, cmp);
    ghost var s2 := a[..];
    RearrangedChain(s0, s1, s2, lo, hi);
    SplitRange(s2, cmp, lo, hi, pa, pb, pc, pd);
    p := a[lo];
    if !swapped {
      InsertionSort(a, lo, n, cmp);
      RearrangedChain(s0, s2, a[..], lo, hi);
      return 0, 0, true, p;
    }
    var r := Min(pa - lo, pb - pa);
    MinBounds(pa - lo, pb - pa);
    VecSwap(a, lo, pb - r, r, lo, hi);
    ghost var s3 := a[..];
    RearrangedChain(s0, s2, s3, lo, hi);
    r := Min(pd - pc, hi - pd - 1);
    MinBounds(pd - pc, hi - pd - 1);
    VecSwap(a, pb, hi - r, r, lo, hi);
    RearrangedChain(s0, s3, a[..], lo, hi);
    GroupBoth(s2, s3, a[..], cmp, lo, hi, pa, pb, pc, pd);
    return pb - pa, pd - pc, false, p;
  }

  lemma MinBounds(a: nat, b: nat)
    ensures Min(a, b) <= a && Min(a, b) <= b
  {
  }

  // ---------------------------------------------------------------- the sort

  /** The tail loop: everything before cur is sorted and not above anything from cur on. */
  ghost predicate Settled<T(!new)>(s0: seq<T>, s: seq<T>, cmp: (T, T) -> int, lo: nat, cur: nat, hi: nat) {
    lo <= cur <= hi <= |s| && Rearranged(s0, s, lo, hi) &&
    (TotalPreorder(cmp) ==>
      forall i, j :: lo <= i < cur && i < j < hi ==> cmp(s[i], s[j]) <= 0)
  }

  lemma SettledStart<T(!new)>(s: seq<T>, cmp: (T, T) -> int, lo: nat, hi: nat)
    requires lo <= hi <= |s|
    ensures Settled(s, s, cmp, lo, lo, hi)
  {
  }

  /** Permuting the rest keeps what is settled. */
  lemma SettledRearranged<T(!new)>(s0: seq<T>, s: seq<T>, t: seq<T>, cmp: (T, T) -> int, lo: nat, cur: nat, hi: nat)
    requires Settled(s0, s, cmp, lo, cur, hi) && Rearranged(s, t, cur, hi)
    ensures Settled(s0, t, cmp, lo, cur, hi)
  {
    hide TotalPreorder, Rearranged;
    RearrangedWider(s, t, cur, hi, lo, hi);
    RearrangedChain(s0, s, t, lo, hi);
    RearrangedOutside(s, t, cur, hi);
    if TotalPreorder(cmp) {
      forall i, j | lo <= i < cur && i < j < hi ensures cmp(t[i], t[j]) <= 0 {
        if j >= cur {
          var j' := RearrangedFrom(s, t, cur, hi, j);
        }
      }
    }
  }

  lemma SettledAll<T(!new)>(s0: seq<T>, s: seq<T>, cmp: (T, T) -> int, lo: nat, cur: nat, hi: nat)
    requires Settled(s0, s, cmp, lo, cur, hi) && (TotalPreorder(cmp) ==> Sorted(s, cmp, cur, hi))
    ensures Rearranged(s0, s, lo, hi) && (TotalPreorder(cmp) ==> Sorted(s, cmp, lo, hi))
  {
  }

  /** Sorting the elements below the pivot keeps the grouping. */
  lemma GroupedRearranged<T(!new)>(s: seq<T>, t: seq<T>, cmp: (T, T) -> int, p: T, lo: nat, hi: nat, nl: nat, ng: nat)
    requires Grouped(s, cmp, p, lo, hi, nl, ng) && Rearranged(s, t, lo, lo + nl)
    ensures Grouped(t, cmp, p, lo, hi, nl, ng)
  {
    hide Rearranged;
    RearrangedOutside(s, t, lo, lo + nl);
    forall k | lo <= k < lo + nl ensures cmp(t[k], p) < 0 {
      var j := RearrangedFrom(s, t, lo, lo + nl, k);
    }
  }

  /** Once the elements below the pivot are sorted, they and the pivot's equals are settled. */
  lemma SettleGroup<T(!new)>(s0: seq<T>, s: seq<T>, cmp: (T, T) -> int, p: T, lo: nat, cur: nat, hi: nat, nl: nat,
      ng: nat)
    requires Settled(s0, s, cmp, lo, cur, hi) && Grouped(s, cmp, p, cur, hi, nl, ng)
    requires TotalPreorder(cmp) ==> Sorted(s, cmp, cur, cur + nl)
    ensures Settled(s0, s, cmp, lo, hi - ng, hi)
  {
  }

  /** Sorts n elements from lo on. For any comparison function the result is a permutation of the
      input; for a total preorder it is sorted. */
  method QuickSort<T(!new)>(a: array<T>, lo: nat, n: nat, cmp: (T, T) -> int)
    requires lo + n <= a.Length
    modifies a
    ensures Rearranged(old(a[..]), a[..], lo, lo + n)
    ensures TotalPreorder(cmp) ==> Sorted(a[..], cmp, lo, lo + n)
    decreases n
  {
    hide *;
    ghost var s0 := a[..];
    var hi := lo + n;
    SettledStart(s0, cmp, lo, hi);
    var cur: nat, m: nat := lo, n;
    while true
      invariant lo <= cur && cur + m == hi && m <= n
      invariant Settled(s0, a[..], cmp, lo, cur, hi)
      decreases m
    {
      ghost var s := a[..];
      if m < 7 {
        InsertionSort(a, cur, m, cmp);
        SettledRearranged(s0, s, a[..], cmp, lo, cur, hi);
        SettledAll(s0, a[..], cmp, lo, cur, hi);
        return;
      }
      ghost var p;
      var nl, ng, sorted;
      nl, ng, sorted, p := Round(a, cur, m, cmp);
      SettledRearranged(s0, s, a[..], cmp, lo, cur, hi);
      if sorted {
        SettledAll(s0, a[..], cmp, lo, cur, hi);
        return;
      }
      ghost var t := a[..];
      GroupedSizes(t, cmp, p, cur, hi, nl, ng);
      if nl > 1 {
        QuickSort(a, cur, nl, cmp);
        RearrangedWider(t, a[..], cur, cur + nl, cur, hi);
        SettledRearranged(s0, t, a[..], cmp, lo, cur, hi);
        GroupedRearranged(t, a[..], cmp, p, cur, hi, nl, ng);
      } else {
        SortedShort(t, cmp, cur, cur + nl);
      }
      SettleGroup(s0, a[..], cmp, p, lo, cur, hi, nl, ng);
      if ng <= 1 {
        SortedShort(a[..], cmp, hi - ng, hi);
        SettledAll(s0, a[..], cmp, lo, hi - ng, hi);
        return;
      }
      cur := hi - ng;
      m := ng;
    }
  }

  lemma GroupedSizes<T(!new)>(s: seq<T>, cmp: (T, T) -> int, p: T, lo: nat, hi: nat, nl: nat, ng: nat)
    requires Grouped(s, cmp, p, lo, hi, nl, ng)
    ensures lo + nl + ng < hi <= |s|
  {
  }

  /** What a caller sees: the whole array sorted and a permutation of what it was. */
  method Sort<T(!new)>(a: array<T>, cmp: (T, T) -> int)
    modifies a
    ensures multiset(a[..]) == multiset(old(a[..]))
    ensures TotalPreorder(cmp) ==> forall i, j :: 0 <= i < j < a.Length ==> cmp(a[i], a[j]) <= 0
  {
    hide TotalPreorder;
    ghost var s := a[..];
    QuickSort(a, 0, a.Length, cmp);
    assert s[0..a.Length] == s && a[..][0..a.Length] == a[..];
    if TotalPreorder(cmp) {
      forall i, j | 0 <= i < j < a.Length ensures cmp(a[i], a[j]) <= 0 {
        assert cmp(a[..][i], a[..][j]) <= 0;
      }
    }
  }
}
