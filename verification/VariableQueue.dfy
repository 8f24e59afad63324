/** Doubly linked queues threaded through the elements themselves (kern/inc/variable_queue.h). Elements
    are numbered from 1, and 0 is the null pointer. */
module VariableQueue {

  const NULL: nat := 0

  /** The element at place i, or null outside the sequence. */
  function At(s: seq<nat>, i: int): nat { if 0 <= i < |s| then s[i] else NULL }

  ghost predicate LinksOk(next: seq<nat>, prev: seq<nat>, s: seq<nat>, i: nat)
    requires i < |s|
  {
    0 < s[i] < |next| && s[i] < |prev| && next[s[i]] == At(s, i + 1) && prev[s[i]] == At(s, i - 1)
  }

  ghost predicate Distinct(s: seq<nat>) { forall i, j :: 0 <= i < j < |s| ==> s[i] != s[j] }

  /** The head and the links spell out the sequence, forwards and backwards. */
  ghost predicate IsQueue(next: seq<nat>, prev: seq<nat>, first: nat, last: nat, s: seq<nat>) {
    Distinct(s) && first == At(s, 0) && last == At(s, |s| - 1) && forall i: nat :: i < |s| ==> LinksOk(next, prev, s, i)
  }

  function Inserted(s: seq<nat>, i: nat, e: nat): seq<nat>
    requires i <= |s|
  {
    s[..i] + [e] + s[i..]
  }

  function Removed(s: seq<nat>, i: nat): seq<nat>
    requires i < |s|
  {
    s[..i] + s[i + 1..]
  }

  lemma InsertedDistinct(s: seq<nat>, i: nat, e: nat)
    requires Distinct(s) && i <= |s| && e !in s
    ensures Distinct(Inserted(s, i, e))
  {
  }

  lemma RemovedDistinct(s: seq<nat>, i: nat)
    requires Distinct(s) && i < |s|
    ensures Distinct(Removed(s, i))
  {
  }

  /** The links after e is put at place i: only e and its two neighbours change. */
  lemma InsertLinks(next: seq<nat>, prev: seq<nat>, next': seq<nat>, prev': seq<nat>, first: nat, last: nat,
      s: seq<nat>,
      i: nat, e: nat)
    requires IsQueue(next, prev, first, last, s) && i <= |s| && e !in s && 0 < e < |next| == |prev| == |next'| == |prev'|
    requires next'[e] == At(s, i) && prev'[e] == At(s, i - 1)
    requires i > 0 ==> s[i - 1] < |next| && next'[s[i - 1]] == e
    requires i < |s| ==> s[i] < |prev| && prev'[s[i]] == e
    requires forall x :: 0 <= x < |next| && x != e && x != At(s, i - 1) ==> next'[x] == next[x]
    requires forall x :: 0 <= x < |prev| && x != e && x != At(s, i) ==> prev'[x] == prev[x]
    ensures IsQueue(next', prev', if i == 0 then e else first, if i == |s| then e else last, Inserted(s, i, e))
  {
    var t := Inserted(s, i, e);
    InsertedDistinct(s, i, e);
    forall j: nat | j < |t| ensures LinksOk(next', prev', t, j) {
      if j < i {
        assert LinksOk(next, prev, s, j);
      } else if j > i {
        assert LinksOk(next, prev, s, j - 1);
      }
    }
  }

  lemma RemoveLinks(next: seq<nat>, prev: seq<nat>, next': seq<nat>, prev': seq<nat>, first: nat, last: nat,
      s: seq<nat>,
      i: nat)
    requires IsQueue(next, prev, first, last, s) && i < |s| && |next'| == |next| && |prev'| == |prev|
    requires i > 0 ==> s[i - 1] < |next| && next'[s[i - 1]] == At(s, i + 1)
    requires i + 1 < |s| ==> s[i + 1] < |prev| && prev'[s[i + 1]] == At(s, i - 1)
    requires forall x :: 0 <= x < |next| && x != s[i] && x != At(s, i - 1) ==> next'[x] == next[x]
    requires forall x :: 0 <= x < |prev| && x != s[i] && x != At(s, i + 1) ==> prev'[x] == prev[x]
    ensures IsQueue(next', prev', if i == 0 then At(s, 1) else first, if i == |s| - 1 then At(s, i - 1) else last, Removed(s, i))
  {
    var t := Removed(s, i);
    RemovedDistinct(s, i);
    forall j: nat | j < |t| ensures LinksOk(next', prev', t, j) {
      if j < i {
        assert LinksOk(next, prev, s, j);
      } else {
        assert LinksOk(next, prev, s, j + 1);
      }
    }
  }

  /** A queue none of whose elements' links changed is still the same queue. */
  lemma Untouched(next: seq<nat>, prev: seq<nat>, next': seq<nat>, prev': seq<nat>, first: nat, last: nat, s: seq<nat>)
    requires IsQueue(next, prev, first, last, s) && |next'| == |next| && |prev'| == |prev|
    requires forall x :: 0 <= x < |next| && x in s ==> next'[x] == next[x]
    requires forall x :: 0 <= x < |prev| && x in s ==> prev'[x] == prev[x]
    ensures IsQueue(next', prev', first, last, s)
  {
    forall j: nat | j < |s| ensures LinksOk(next', prev', s, j) {
      assert LinksOk(next, prev, s, j);
      assert s[j] in s;
    }
  }

  /** Two sequences that the same head and links spell out are equal: the links determine the queue. */
  lemma {:induction false} SamePrefix(next: seq<nat>, prev: seq<nat>, first: nat, last: nat, last': nat, s: seq<nat>,
      t: seq<nat>, n: nat)
    requires IsQueue(next, prev, first, last, s) && IsQueue(next, prev, first, last', t) && n <= |s|
    ensures n <= |t| && s[..n] == t[..n]
  {
    if n > 0 {
      SamePrefix(next, prev, first, last, last', s, t, n - 1);
      if n == 1 {
        assert LinksOk(next, prev, s, 0);
      } else {
        assert LinksOk(next, prev, s, n - 2) && LinksOk(next, prev, t, n - 2) && LinksOk(next, prev, s, n - 1);
        assert s[n - 2] == s[..n - 1][n - 2] == t[..n - 1][n - 2] == t[n - 2];
      }
      assert s[..n] == s[..n - 1] + [s[n - 1]] && t[..n] == t[..n - 1] + [t[n - 1]];
    }
  }

  lemma LinksDetermine(next: seq<nat>, prev: seq<nat>, first: nat, last: nat, last': nat, s: seq<nat>, t: seq<nat>)
    requires IsQueue(next, prev, first, last, s) && IsQueue(next, prev, first, last', t)
    ensures s == t && last == last'
  {
    SamePrefix(next, prev, first, last, last', s, t, |s|);
    SamePrefix(next, prev, first, last', last, t, s, |t|);
    assert s == s[..|s|] && t == t[..|t|];
  }

  // ---------------------------------------------------------------- all queues on one link

  /** Every head's queue is spelled out, and no element is in two queues. */
  ghost predicate AllQueues(next: seq<nat>, prev: seq<nat>, first: seq<nat>, last: seq<nat>, items: seq<seq<nat>>) {
    |next| == |prev| && |next| > 0 && |first| == |last| == |items| &&
    (forall h :: 0 <= h < |items| ==> IsQueue(next, prev, first[h], last[h], items[h])) &&
    (forall h, g, e :: 0 <= h < |items| && 0 <= g < |items| && h != g && e in items[h] ==> e !in items[g])
  }

  /** Links differ at most at the given elements. */
  ghost predicate SameBut(m: seq<nat>, m': seq<nat>, s: seq<nat>, e: nat) {
    |m| == |m'| && forall x :: 0 <= x < |m| && x !in s && x != e ==> m'[x] == m[x]
  }

  /** A change to queue h that touches only its own elements and one loose element keeps the other queues. */
  lemma OneQueueChanged(next: seq<nat>, prev: seq<nat>, first: seq<nat>, last: seq<nat>, items: seq<seq<nat>>,
      next': seq<nat>, prev': seq<nat>, h: nat, f: nat, l: nat, s: seq<nat>, e: nat)
    requires AllQueues(next, prev, first, last, items) && h < |items| && IsQueue(next', prev', f, l, s)
    requires SameBut(next, next', items[h], e) && SameBut(prev, prev', items[h], e)
    requires forall x :: x in s ==> x in items[h] || x == e
    requires forall g :: 0 <= g < |items| && g != h ==> e !in items[g]
    ensures AllQueues(next', prev', first[h := f], last[h := l], items[h := s])
  {
    forall g | 0 <= g < |items| && g != h ensures IsQueue(next', prev', first[g], last[g], items[g]) {
      Untouched(next, prev, next', prev', first[g], last[g], items[g]);
    }
    hide IsQueue;
  }

  lemma HeadParts(next: seq<nat>, prev: seq<nat>, first: seq<nat>, last: seq<nat>, items: seq<seq<nat>>, h: nat)
    requires AllQueues(next, prev, first, last, items) && h < |items|
    ensures |next| == |prev| && |next| > 0 && |first| == |last| == |items|
    ensures var s := items[h];
      first[h] == At(s, 0) && last[h] == At(s, |s| - 1) && (s == [] <==> first[h] == NULL) && (s == [] <==> last[h] == NULL) &&
      first[h] < |next| && last[h] < |next|
  {
    var s := items[h];
    if s != [] {
      assert LinksOk(next, prev, s, 0) && LinksOk(next, prev, s, |s| - 1);
    }
  }

  lemma LinkParts(next: seq<nat>, prev: seq<nat>, first: seq<nat>, last: seq<nat>, items: seq<seq<nat>>, h: nat, i: nat)
    requires AllQueues(next, prev, first, last, items) && h < |items| && i < |items[h]|
    ensures var s := items[h];
      0 < s[i] < |next| && s[i] < |prev| && next[s[i]] == At(s, i + 1) && prev[s[i]] == At(s, i - 1)
  {
    assert LinksOk(next, prev, items[h], i);
  }

  lemma PlaceUnique(next: seq<nat>, prev: seq<nat>, first: seq<nat>, last: seq<nat>, items: seq<seq<nat>>, h: nat,
      i: nat, j: nat)
    requires AllQueues(next, prev, first, last, items) && h < |items| && i < |items[h]| && j < |items[h]|
    ensures items[h][i] == items[h][j] <==> i == j
  {
  }

  lemma AtMember(s: seq<nat>, i: int)
    ensures At(s, i) == NULL || At(s, i) in s
  {
  }

  lemma AfterInsert(next: seq<nat>, prev: seq<nat>, first: seq<nat>, last: seq<nat>, items: seq<seq<nat>>,
      next': seq<nat>, prev': seq<nat>, h: nat, i: nat, e: nat)
    requires AllQueues(next, prev, first, last, items) && h < |items| && i <= |items[h]| && |next'| == |prev'| == |next|
    requires 0 < e < |next| && forall g :: 0 <= g < |items| ==> e !in items[g]
    requires var s := items[h]; next'[e] == At(s, i) && prev'[e] == At(s, i - 1)
    requires var s := items[h];
      (i > 0 ==> s[i - 1] < |next| && next'[s[i - 1]] == e) && (i < |s| ==> s[i] < |prev| && prev'[s[i]] == e)
    requires forall x :: 0 < x < |next| && x != e && x != At(items[h], i - 1) ==> next'[x] == next[x]
    requires forall x :: 0 < x < |prev| && x != e && x != At(items[h], i) ==> prev'[x] == prev[x]
    requires next'[0] == next[0] && prev'[0] == prev[0]
    ensures var s := items[h];
      var f, l := if i == 0 then e else first[h], if i == |s| then e else last[h];
      AllQueues(next', prev', first[h := f], last[h := l], items[h := Inserted(s, i, e)])
  {
    var s := items[h];
    AtMember(s, i);
    AtMember(s, i - 1);
    InsertLinks(next, prev, next', prev', first[h], last[h], s, i, e);
    hide IsQueue, AllQueues;
    OneQueueChanged(next, prev, first, last, items, next', prev', h, if i == 0 then e else first[h],
      if i == |s| then e else last[h], Inserted(s, i, e), e);
  }

  lemma AfterRemove(next: seq<nat>, prev: seq<nat>, first: seq<nat>, last: seq<nat>, items: seq<seq<nat>>,
      next': seq<nat>, prev': seq<nat>, h: nat, i: nat)
    requires AllQueues(next, prev, first, last, items) && h < |items| && i < |items[h]| && |next'| == |prev'| == |next|
    requires var s := items[h];
      (i > 0 ==> s[i - 1] < |next| && next'[s[i - 1]] == At(s, i + 1)) &&
      (i + 1 < |s| ==> s[i + 1] < |prev| && prev'[s[i + 1]] == At(s, i - 1))
    requires var s := items[h];
      (forall x :: 0 < x < |next| && x != s[i] && x != At(s, i - 1) ==> next'[x] == next[x]) &&
      (forall x :: 0 < x < |prev| && x != s[i] && x != At(s, i + 1) ==> prev'[x] == prev[x])
    requires next'[0] == next[0] && prev'[0] == prev[0]
    ensures var s := items[h];
      var f, l := if i == 0 then At(s, 1) else first[h], if i == |s| - 1 then At(s, i - 1) else last[h];
      AllQueues(next', prev', first[h := f], last[h := l], items[h := Removed(s, i)])
  {
    var s := items[h];
    AtMember(s, i + 1);
    AtMember(s, i - 1);
    RemoveLinks(next, prev, next', prev', first[h], last[h], s, i);
    hide IsQueue, AllQueues;
    OneQueueChanged(next, prev, first, last, items, next', prev', h, if i == 0 then At(s, 1) else first[h],
      if i == |s| - 1 then At(s, i - 1) else last[h], Removed(s, i), s[i]);
  }

  // ---------------------------------------------------------------- what each macro writes

  lemma FrontLinks(n: seq<nat>, p: seq<nat>, f: seq<nat>, l: seq<nat>, items: seq<seq<nat>>, h: nat, e: nat)
    requires AllQueues(n, p, f, l, items) && h < |items| && 0 < e < |n| && forall g :: 0 <= g < |items| ==> e !in items[g]
    ensures |n| == |p| && |f| == |l| == |items| && f[h] < |p|
    ensures var p' := (if f[h] != NULL then p[f[h] := e] else p)[e := NULL];
      var l' := if l[h] == NULL then l[h := e] else l;
      AllQueues(n[e := NULL][e := f[h]], p', f[h := e], l', items[h := [e] + items[h]])
  {
    hide AllQueues;
    var s := items[h];
    HeadParts(n, p, f, l, items, h);
    AtMember(s, 0);
    AtMember(s, |s| - 1);
    var p' := (if f[h] != NULL then p[f[h] := e] else p)[e := NULL];
    AfterInsert(n, p, f, l, items, n[e := NULL][e := f[h]], p', h, 0, e);
    assert Inserted(s, 0, e) == [e] + s;
    assert (if l[h] == NULL then l[h := e] else l) == l[h := if |s| == 0 then e else l[h]];
  }

  lemma TailLinks(n: seq<nat>, p: seq<nat>, f: seq<nat>, l: seq<nat>, items: seq<seq<nat>>, h: nat, e: nat)
    requires AllQueues(n, p, f, l, items) && h < |items| && 0 < e < |n| && forall g :: 0 <= g < |items| ==> e !in items[g]
    ensures |n| == |p| && |f| == |l| == |items| && l[h] < |n|
    ensures var n' := (if l[h] != NULL then n[l[h] := e] else n)[e := NULL];
      var f' := if f[h] == NULL then f[h := e] else f;
      AllQueues(n', p[e := NULL][e := l[h]], f', l[h := e], items[h := items[h] + [e]])
  {
    hide AllQueues;
    var s := items[h];
    HeadParts(n, p, f, l, items, h);
    AtMember(s, 0);
    AtMember(s, |s| - 1);
    var n' := (if l[h] != NULL then n[l[h] := e] else n)[e := NULL];
    AfterInsert(n, p, f, l, items, n', p[e := NULL][e := l[h]], h, |s|, e);
    assert Inserted(s, |s|, e) == s + [e];
    assert (if f[h] == NULL then f[h := e] else f) == f[h := if |s| == 0 then e else f[h]];
  }

  lemma AfterLinks(n: seq<nat>, p: seq<nat>, f: seq<nat>, l: seq<nat>, items: seq<seq<nat>>, h: nat, i: nat, e: nat)
    requires AllQueues(n, p, f, l, items) && h < |items| && 0 < e < |n| && forall g :: 0 <= g < |items| ==> e !in items[g]
    requires i < |items[h]|
    ensures |n| == |p| && |f| == |l| == |items| && items[h][i] < |n| && (l[h] == items[h][i] <==> i == |items[h]| - 1)
    ensures i + 1 < |items[h]| ==>
      var q := items[h][i];
      n[q] < |p| && AllQueues(n[e := n[q]][q := e], p[e := q][n[q] := e], f, l, items[h := Inserted(items[h], i + 1, e)])
  {
    hide AllQueues;
    var s := items[h];
    HeadParts(n, p, f, l, items, h);
    LinkParts(n, p, f, l, items, h, i);
    PlaceUnique(n, p, f, l, items, h, i, |s| - 1);
    if i + 1 < |s| {
      var q := s[i];
      LinkParts(n, p, f, l, items, h, i + 1);
      PlaceUnique(n, p, f, l, items, h, i, i + 1);
      assert s[i] in s && s[i + 1] in s;
      AfterInsert(n, p, f, l, items, n[e := n[q]][q := e], p[e := q][n[q] := e], h, i + 1, e);
      assert f[h := f[h]] == f && l[h := l[h]] == l;
    }
  }

  lemma BeforeLinks(n: seq<nat>, p: seq<nat>, f: seq<nat>, l: seq<nat>, items: seq<seq<nat>>, h: nat, i: nat, e: nat)
    requires AllQueues(n, p, f, l, items) && h < |items| && 0 < e < |n| && forall g :: 0 <= g < |items| ==> e !in items[g]
    requires i < |items[h]|
    ensures |n| == |p| && |f| == |l| == |items| && items[h][i] < |n| && (f[h] == items[h][i] <==> i == 0)
    ensures i > 0 ==>
      var q := items[h][i];
      p[q] < |n| && AllQueues(n[e := q][p[q] := e], p[e := p[q]][q := e], f, l, items[h := Inserted(items[h], i, e)])
  {
    hide AllQueues;
    var s := items[h];
    HeadParts(n, p, f, l, items, h);
    LinkParts(n, p, f, l, items, h, i);
    PlaceUnique(n, p, f, l, items, h, i, 0);
    if i > 0 {
      var q := s[i];
      LinkParts(n, p, f, l, items, h, i - 1);
      PlaceUnique(n, p, f, l, items, h, i, i - 1);
      assert s[i] in s && s[i - 1] in s;
      AfterInsert(n, p, f, l, items, n[e := q][p[q] := e], p[e := p[q]][q := e], h, i, e);
      assert f[h := f[h]] == f && l[h := l[h]] == l;
    }
  }

  /** Q_REMOVE's writes. The element's own links end up null. */
  lemma RemovedLinks(n: seq<nat>, p: seq<nat>, f: seq<nat>, l: seq<nat>, items: seq<seq<nat>>, h: nat, i: nat)
    requires AllQueues(n, p, f, l, items) && h < |items| && i < |items[h]|
    ensures |n| == |p| && |f| == |l| == |items| && items[h][i] < |n| && n[items[h][i]] < |p| && p[items[h][i]] < |n|
    ensures var e := items[h][i];
      var f', l' := if f[h] == e then f[h := n[e]] else f, if l[h] == e then l[h := p[e]] else l;
      var n', p' := if p[e] != NULL then n[p[e] := n[e]] else n, if n[e] != NULL then p[n[e] := p[e]] else p;
      AllQueues(n'[e := NULL], p'[e := NULL], f', l', items[h := Removed(items[h], i)])
  {
    hide AllQueues;
    var s := items[h];
    var e := s[i];
    HeadParts(n, p, f, l, items, h);
    LinkParts(n, p, f, l, items, h, i);
    PlaceUnique(n, p, f, l, items, h, i, 0);
    PlaceUnique(n, p, f, l, items, h, i, |s| - 1);
    if i > 0 {
      LinkParts(n, p, f, l, items, h, i - 1);
      PlaceUnique(n, p, f, l, items, h, i, i - 1);
    }
    if i + 1 < |s| {
      LinkParts(n, p, f, l, items, h, i + 1);
      PlaceUnique(n, p, f, l, items, h, i, i + 1);
    }
    var n', p' := if p[e] != NULL then n[p[e] := n[e]] else n, if n[e] != NULL then p[n[e] := p[e]] else p;
    AfterRemove(n, p, f, l, items, n'[e := NULL], p'[e := NULL], h, i);
    assert (if f[h] == e then f[h := n[e]] else f) == f[h := if i == 0 then At(s, 1) else f[h]];
    assert (if l[h] == e then l[h := p[e]] else l) == l[h := if i == |s| - 1 then At(s, i - 1) else l[h]];
  }

  // ---------------------------------------------------------------- the macros

  /** Memory: the link fields of every element, and any number of queue heads that use that link. */
  class Queues {
    const next: array<nat>
    const prev: array<nat>
    const first: array<nat>
    const last: array<nat>
    ghost var items: seq<seq<nat>>

    /** Heads cleared by Q_INIT_HEAD. */
    constructor (elems: nat, heads: nat)
      ensures Valid() && fresh(next) && fresh(prev) && fresh(first) && fresh(last)
      ensures next.Length == elems + 1 && items == seq(heads, _ => [])
    {
      next := new nat[elems + 1](_ => NULL);
      prev := new nat[elems + 1](_ => NULL);
      first := new nat[heads](_ => NULL);
      last := new nat[heads](_ => NULL);
      items := seq(heads, _ => []);
    }

    ghost predicate Valid()
      reads this, next, prev, first, last
    {
      next != prev && next != first && next != last && prev != first && prev != last && first != last &&
      AllQueues(next[..], prev[..], first[..], last[..], items)
    }

    /** e is in no queue. */
    ghost predicate Loose(e: nat)
      reads this
    {
      forall h :: 0 <= h < |items| ==> e !in items[h]
    }

    /** Removing the element at place i removes it from its queue, and it is in no other. */
    lemma Members(h: nat, i: nat)
      requires Valid() && h < |items| && i < |items[h]|
      ensures Distinct(items[h]) && items[h][i] !in Removed(items[h], i)
      ensures forall x :: x in Removed(items[h], i) <==> x in items[h] && x != items[h][i]
      ensures forall g :: 0 <= g < |items| && g != h ==> items[h][i] !in items[g]
      ensures 0 < items[h][i] < next.Length == prev.Length
      ensures next[items[h][i]] == At(items[h], i + 1)
    {
      var s := items[h];
      LinkParts(next[..], prev[..], first[..], last[..], items, h, i);
      assert IsQueue(next[..], prev[..], first[..][h], last[..][h], s);
      forall x | x in s && x != s[i] ensures x in Removed(s, i) {
        var j :| 0 <= j < |s| && s[j] == x;
        assert Removed(s, i)[if j < i then j else j - 1] == x;
      }
    }

    lemma DistinctItems(h: nat)
      requires Valid() && h < |items|
      ensures Distinct(items[h])
    {
    }

    lemma Ends(h: nat)
      requires Valid() && h < |items|
      ensures first.Length == last.Length == |items| && first[h] == At(items[h], 0) && (items[h] == [] <==> first[h] == NULL)
      ensures NULL !in items[h]
    {
      HeadParts(next[..], prev[..], first[..], last[..], items, h);
      forall i | 0 <= i < |items[h]| ensures items[h][i] != NULL {
        LinkParts(next[..], prev[..], first[..], last[..], items, h, i);
      }
    }

    method Write(field: array<nat>, at: nat, w: nat)
      requires at < field.Length
      modifies field
      ensures field[..] == old(field[..])[at := w]
    {
      field[at] := w;
    }

    /** Q_INIT_ELEM. */
    method InitElem(e: nat)
      requires e < next.Length && e < prev.Length && next != prev
      modifies next, prev
      ensures next[..] == old(next[..])[e := NULL] && prev[..] == old(prev[..])[e := NULL]
    {
      Write(next, e, NULL);
      Write(prev, e, NULL);
    }

    /** Q_INSERT_FRONT. */
    method InsertFront(h: nat, e: nat)
      requires Valid() && h < |items| && 0 < e < next.Length && Loose(e)
      modifies this`items, next, prev, first, last
      ensures Valid() && items == old(items)[h := [e] + old(items)[h]]
    {
      hide AllQueues;
      FrontLinks(next[..], prev[..], first[..], last[..], items, h, e);
      if first[h] != NULL {
        Write(prev, first[h], e);
      }
      InitElem(e);
      Write(next, e, first[h]);
      Write(first, h, e);
      if last[h] == NULL {
        Write(last, h, e);
      }
      items := items[h := [e] + items[h]];
    }

    /** Q_INSERT_TAIL. */
    method InsertTail(h: nat, e: nat)
      requires Valid() && h < |items| && 0 < e < next.Length && Loose(e)
      modifies this`items, next, prev, first, last
      ensures Valid() && items == old(items)[h := old(items)[h] + [e]]
    {
      hide AllQueues;
      TailLinks(next[..], prev[..], first[..], last[..], items, h, e);
      if last[h] != NULL {
        Write(next, last[h], e);
      }
      InitElem(e);
      Write(prev, e, last[h]);
      Write(last, h, e);
      if first[h] == NULL {
        Write(first, h, e);
      }
      items := items[h := items[h] + [e]];
    }

    /** Q_INSERT_AFTER: q is the element at place i. */
    method InsertAfter(h: nat, q: nat, e: nat, ghost i: nat)
      requires Valid() && h < |items| && 0 < e < next.Length && Loose(e) && i < |items[h]| && q == items[h][i]
      modifies this`items, next, prev, first, last
      ensures Valid() && items == old(items)[h := Inserted(old(items)[h], i + 1, e)]
    {
      hide AllQueues;
      AfterLinks(next[..], prev[..], first[..], last[..], items, h, i, e);
      if last[h] == q {
        assert Inserted(items[h], i + 1, e) == items[h] + [e];
        InsertTail(h, e);
      } else {
        Write(next, e, next[q]);
        Write(prev, e, q);
        Write(prev, next[q], e);
        Write(next, q, e);
        items := items[h := Inserted(items[h], i + 1, e)];
      }
    }

    /** Q_INSERT_BEFORE: q is the element at place i. */
    method InsertBefore(h: nat, q: nat, e: nat, ghost i: nat)
      requires Valid() && h < |items| && 0 < e < next.Length && Loose(e) && i < |items[h]| && q == items[h][i]
      modifies this`items, next, prev, first, last
      ensures Valid() && items == old(items)[h := Inserted(old(items)[h], i, e)]
    {
      hide AllQueues;
      BeforeLinks(next[..], prev[..], first[..], last[..], items, h, i, e);
      if first[h] == q {
        assert Inserted(items[h], i, e) == [e] + items[h];
        InsertFront(h, e);
      } else {
        Write(prev, e, prev[q]);
        Write(next, e, q);
        Write(next, prev[q], e);
        Write(prev, q, e);
        items := items[h := Inserted(items[h], i, e)];
      }
    }

    /** Q_REMOVE: e is the element at place i. */
    method Remove(h: nat, e: nat, ghost i: nat)
      requires Valid() && h < |items| && i < |items[h]| && e == items[h][i]
      modifies this`items, next, prev, first, last
      ensures Valid() && items == old(items)[h := Removed(old(items)[h], i)]
      ensures e < next.Length == prev.Length && next[e] == prev[e] == NULL
    {
      hide AllQueues;
      RemovedLinks(next[..], prev[..], first[..], last[..], items, h, i);
      if first[h] == e {
        Write(first, h, next[e]);
      }
      if last[h] == e {
        Write(last, h, prev[e]);
      }
      if prev[e] != NULL {
        Write(next, prev[e], next[e]);
      }
      if next[e] != NULL {
        Write(prev, next[e], prev[e]);
      }
      Write(prev, e, NULL);
      Write(next, e, NULL);
      items := items[h := Removed(items[h], i)];
    }
  }
}
