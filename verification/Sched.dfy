/** The scheduler's run queue, done queue and wait lists (kern/sched.c). Threads are numbered from 1. The run
    and done queues share runnable_link, the wait lists share wait_link. Time is a parameter of each call. */
module Sched {
  import opened VariableQueue

  const INT_MAX: int := 0x7FFF_FFFF
  const RUNQ: nat := 0
  const DONEQ: nat := 1
  const SLEEPQ: nat := 0

  datatype State = Runnable | Waiting | Done

  datatype Thread = Thread(state: State, deadline: int)

  // ---------------------------------------------------------------- what the operations do to the queues

  function IndexOf(s: seq<nat>, t: nat): (i: nat)
    requires t in s
    ensures i < |s| && s[i] == t
  {
    if s[0] == t then 0 else 1 + IndexOf(s[1..], t)
  }

  /** Step 1: a current thread that can run goes to the tail; one that is done leaves the queue. */
  function Requeued(q: seq<nat>, th: seq<Thread>, cur: nat): seq<nat> {
    if cur !in q || cur >= |th| then q
    else if th[cur].state == Runnable then Removed(q, IndexOf(q, cur)) + [cur]
    else Removed(q, IndexOf(q, cur))
  }

  function Retired(q: seq<nat>, th: seq<Thread>, cur: nat): seq<nat> {
    if cur in q && cur < |th| && th[cur].state != Runnable then [cur] else []
  }

  function CanRun(th: seq<Thread>, t: nat): bool { t < |th| && th[t].state == Runnable }

  /** Step 2: done threads at the front are passed over. */
  function SkipDone(q: seq<nat>, th: seq<Thread>): seq<nat> {
    if q == [] || CanRun(th, q[0]) then q else SkipDone(q[1..], th)
  }

  function DonePrefix(q: seq<nat>, th: seq<Thread>): seq<nat> {
    if q == [] || CanRun(th, q[0]) then [] else [q[0]] + DonePrefix(q[1..], th)
  }

  /** The run queue after a yield. */
  function AfterYield(q: seq<nat>, th: seq<Thread>, cur: nat): seq<nat> { SkipDone(Requeued(q, th, cur), th) }

  /** The sleepers whose deadline is still to come, in their old order. */
  function Later(s: seq<nat>, th: seq<Thread>, now: int): seq<nat> {
    if s == [] then []
    else Later(s[..|s| - 1], th, now) + If(!Due(th, s[|s| - 1], now), s[|s| - 1])
  }

  function If(c: bool, t: nat): seq<nat> { if c then [t] else [] }

  function Due(th: seq<Thread>, t: nat, now: int): bool { t < |th| && th[t].deadline <= now }

  /** The waiting threads that are due, last one first: how they end up in front of the run queue. */
  function WokenReversed(s: seq<nat>, th: seq<Thread>, now: int): seq<nat> {
    if s == [] then []
    else If(Due(th, s[|s| - 1], now) && th[s[|s| - 1]].state == Waiting, s[|s| - 1]) + WokenReversed(s[..|s| - 1], th, now)
  }

  /** The threads that are due but no longer waiting. */
  function Finished(s: seq<nat>, th: seq<Thread>, now: int): seq<nat> {
    if s == [] then []
    else Finished(s[..|s| - 1], th, now) + If(Due(th, s[|s| - 1], now) && th[s[|s| - 1]].state != Waiting, s[|s| - 1])
  }

  /** Threads after the scan: those woken can run, nothing else changed. */
  ghost predicate Awake(s: seq<nat>, th: seq<Thread>, th': seq<Thread>, now: int) {
    |th'| == |th| && forall t :: 0 <= t < |th| ==>
      th'[t] == if t in s && th[t].deadline <= now && th[t].state == Waiting then th[t].(state := Runnable) else th[t]
  }

  // ---------------------------------------------------------------- the invariant

  ghost predicate InSome(w: seq<seq<nat>>, t: nat) { exists h :: 0 <= h < |w| && t in w[h] }

  /** Thread t has exactly one place, and its state fits it: a thread in the run queue is not waiting, one on
      a wait list cannot run. */
  ghost predicate OnePlace(r: seq<seq<nat>>, w: seq<seq<nat>>, th: seq<Thread>, t: nat)
    requires |r| == 2
  {
    t < |th| &&
    ((t in r[RUNQ] && t !in r[DONEQ] && !InSome(w, t) && th[t].state != Waiting) ||
     (t !in r[RUNQ] && t in r[DONEQ] && !InSome(w, t) && th[t].state == Done) ||
     (t !in r[RUNQ] && t !in r[DONEQ] && InSome(w, t) && th[t].state != Runnable))
  }

  ghost predicate NoPlace(r: seq<seq<nat>>, w: seq<seq<nat>>, t: nat)
    requires |r| == 2
  {
    t !in r[RUNQ] && t !in r[DONEQ] && !InSome(w, t)
  }

  ghost predicate Fits(r: seq<seq<nat>>, w: seq<seq<nat>>, th: seq<Thread>, admitted: set<nat>, gone: set<nat>, t: nat)
    requires |r| == 2
  {
    if t in admitted && t !in gone then OnePlace(r, w, th, t) else NoPlace(r, w, t)
  }

  /** Every admitted thread that is not gone has one place, and nothing else is in any queue. */
  ghost predicate Placed(r: seq<seq<nat>>, w: seq<seq<nat>>, th: seq<Thread>, admitted: set<nat>, gone: set<nat>, idle: nat) {
    |r| == 2 && |w| > SLEEPQ && idle != NULL && idle !in admitted && NULL !in admitted && gone <= admitted &&
    forall t: nat :: Fits(r, w, th, admitted, gone, t)
  }

  /** A place in one of the queues. */
  datatype Place = InRun(i: nat) | InDone(i: nat) | InWait(h: nat, i: nat)

  ghost predicate Stands(r: seq<seq<nat>>, w: seq<seq<nat>>, t: nat, p: Place)
    requires |r| == 2
  {
    match p
    case InRun(i) => i < |r[RUNQ]| && r[RUNQ][i] == t
    case InDone(i) => i < |r[DONEQ]| && r[DONEQ][i] == t
    case InWait(h, i) => h < |w| && i < |w[h]| && w[h][i] == t
  }

  /** A thread in the run queue is not waiting, one in the done queue is done, one on a wait list cannot run. */
  ghost predicate Suits(state: State, p: Place) {
    match p
    case InRun(_) => state != Waiting
    case InDone(_) => state == Done
    case InWait(_, _) => state != Runnable
  }

  /** No thread is twice in one queue, or in two queues over one link. */
  ghost predicate Once(items: seq<seq<nat>>) {
    (forall h :: 0 <= h < |items| ==> Distinct(items[h])) &&
    forall h, g, t :: 0 <= h < |items| && 0 <= g < |items| && h != g && t in items[h] ==> t !in items[g]
  }

  lemma PlaceIn(r: seq<seq<nat>>, w: seq<seq<nat>>, t: nat, p: Place)
    requires |r| == 2 && Stands(r, w, t, p)
    ensures (p.InRun? ==> t in r[RUNQ]) && (p.InDone? ==> t in r[DONEQ]) && (p.InWait? ==> t in w[p.h] && InSome(w, t))
  {
  }

  lemma SomePlace(r: seq<seq<nat>>, w: seq<seq<nat>>, th: seq<Thread>, t: nat) returns (p: Place)
    requires |r| == 2 && OnePlace(r, w, th, t)
    ensures Stands(r, w, t, p)
  {
    if t in r[RUNQ] {
      p := InRun(IndexOf(r[RUNQ], t));
    } else if t in r[DONEQ] {
      p := InDone(IndexOf(r[DONEQ], t));
    } else {
      var h :| 0 <= h < |w| && t in w[h];
      p := InWait(h, IndexOf(w[h], t));
    }
  }

  lemma SamePlace(r: seq<seq<nat>>, w: seq<seq<nat>>, th: seq<Thread>, t: nat, p: Place, q: Place)
    requires |r| == 2 && OnePlace(r, w, th, t) && Once(r) && Once(w) && Stands(r, w, t, p) && Stands(r, w, t, q)
    ensures p == q && Suits(th[t].state, p)
  {
    PlaceIn(r, w, t, p);
    PlaceIn(r, w, t, q);
  }

  // ---------------------------------------------------------------- lemmas on the queue functions

  lemma {:induction false} SkipParts(q: seq<nat>, th: seq<Thread>)
    ensures q == DonePrefix(q, th) + SkipDone(q, th)
    ensures forall t :: t in DonePrefix(q, th) ==> !CanRun(th, t)
    ensures SkipDone(q, th) != [] ==> CanRun(th, SkipDone(q, th)[0])
  {
    if q != [] && !CanRun(th, q[0]) {
      SkipParts(q[1..], th);
      assert q == [q[0]] + q[1..];
    }
  }

  /** The scan splits the list: each sleeper is kept if and only if its deadline is later. */
  lemma {:induction false} ScanMembers(s: seq<nat>, th: seq<Thread>, now: int, t: nat)
    ensures t in Later(s, th, now) <==> t in s && !Due(th, t, now)
    ensures t in WokenReversed(s, th, now) <==> t in s && Due(th, t, now) && th[t].state == Waiting
    ensures t in Finished(s, th, now) <==> t in s && Due(th, t, now) && th[t].state != Waiting
  {
    if s != [] {
      ScanMembers(s[..|s| - 1], th, now, t);
      assert s == s[..|s| - 1] + [s[|s| - 1]];
    }
  }

  /** The scan keeps the order of those that stay and of those set aside, and turns round that of those woken. */
  lemma {:induction false} ScanConcat(s: seq<nat>, t: seq<nat>, th: seq<Thread>, now: int)
    ensures Later(s + t, th, now) == Later(s, th, now) + Later(t, th, now)
    ensures WokenReversed(s + t, th, now) == WokenReversed(t, th, now) + WokenReversed(s, th, now)
    ensures Finished(s + t, th, now) == Finished(s, th, now) + Finished(t, th, now)
  {
    ScanNone(th, now);
    hide *;
    if t == [] {
      assert s + t == s;
    } else {
      var u, m, n := s + t, |s + t| - 1, |t| - 1;
      ScanConcat(s, t[..n], th, now);
      LaterStep(u, th, now, m);
      LaterStep(t, th, now, n);
      assert u[..m] == s + t[..n] && u[..m + 1] == u && t[..n + 1] == t && u[m] == t[n];
    }
  }

  lemma ScanNone(th: seq<Thread>, now: int)
    ensures Later([], th, now) == WokenReversed([], th, now) == Finished([], th, now) == []
  {
  }

  /** A thread that goes to sleep for some ticks is woken by a scan if and only if they have passed. */
  lemma SleepsExactly(th: seq<Thread>, t: nat, ticks: int, now: int, later: int)
    requires t < |th|
    ensures var th' := th[t := Thread(Waiting, now + ticks)];
      WokenReversed([t], th', later) == (if now + ticks <= later then [t] else []) &&
      Later([t], th', later) == (if now + ticks <= later then [] else [t])
  {
    assert [t][..0] == [];
  }

  lemma LaterStep(s: seq<nat>, th: seq<Thread>, now: int, k: nat)
    requires k < |s|
    ensures var t := s[k];
      Later(s[..k + 1], th, now) == Later(s[..k], th, now) + If(!Due(th, t, now), t) &&
      WokenReversed(s[..k + 1], th, now) ==
        If(Due(th, t, now) && th[t].state == Waiting, t) + WokenReversed(s[..k], th, now) &&
      Finished(s[..k + 1], th, now) == Finished(s[..k], th, now) + If(Due(th, t, now) && th[t].state != Waiting, t)
  {
    assert s[..k + 1][..k] == s[..k];
  }

  // ---------------------------------------------------------------- where the current thread goes

  lemma {:induction false} PlaceOfMiddle(a: seq<nat>, t: nat, b: seq<nat>)
    requires t !in a
    ensures IndexOf(a + [t] + b, t) == |a| && Removed(a + [t] + b, |a|) == a + b
  {
    var q := a + [t] + b;
    if a != [] {
      PlaceOfMiddle(a[1..], t, b);
      assert q[1..] == a[1..] + [t] + b && q[0] == a[0];
    }
  }

  /** Wherever the current thread stands in the run queue: if it can run it becomes the last, if it is done it
      leaves, and the others keep their order. */
  lemma RequeuedAnywhere(a: seq<nat>, cur: nat, b: seq<nat>, th: seq<Thread>)
    requires Distinct(a + [cur] + b) && cur < |th|
    ensures var q := a + [cur] + b;
      if th[cur].state == Runnable then Requeued(q, th, cur) == a + b + [cur] && Retired(q, th, cur) == []
      else Requeued(q, th, cur) == a + b && Retired(q, th, cur) == [cur]
  {
    var q := a + [cur] + b;
    assert q[|a|] == cur;
    forall i | 0 <= i < |a| ensures a[i] != cur {
      assert q[i] == a[i];
    }
    PlaceOfMiddle(a, cur, b);
  }

  lemma {:induction false} SkipBefore(q: seq<nat>, th: seq<Thread>, t: nat)
    requires CanRun(th, t)
    ensures SkipDone(q + [t], th) == SkipDone(q, th) + [t]
  {
    if q != [] && !CanRun(th, q[0]) {
      SkipBefore(q[1..], th, t);
      assert (q + [t])[1..] == q[1..] + [t];
    }
  }

  /** After a yield an old current thread that can run is the last of the run queue. */
  lemma YieldedLast(a: seq<nat>, cur: nat, b: seq<nat>, th: seq<Thread>)
    requires Distinct(a + [cur] + b) && CanRun(th, cur)
    ensures AfterYield(a + [cur] + b, th, cur) == SkipDone(a + b, th) + [cur]
  {
    RequeuedAnywhere(a, cur, b, th);
    SkipBefore(a + b, th, cur);
  }

  // ---------------------------------------------------------------- yields only

  ghost predicate AllRunnable(q: seq<nat>, th: seq<Thread>) { forall t :: t in q ==> CanRun(th, t) }

  /** The queue after k yields, each by the thread at the front. */
  function Yields(q: seq<nat>, th: seq<Thread>, k: nat): seq<nat> {
    if k == 0 || q == [] then q else AfterYield(Yields(q, th, k - 1), th, Front(Yields(q, th, k - 1)))
  }

  function Front(q: seq<nat>): nat { if q == [] then NULL else q[0] }

  lemma OneYield(q: seq<nat>, th: seq<Thread>)
    requires q != [] && AllRunnable(q, th)
    ensures AfterYield(q, th, q[0]) == q[1..] + [q[0]]
  {
  }

  /** With yields only, the run queue rotates. */
  lemma {:induction false} Rotation(q: seq<nat>, th: seq<Thread>, k: nat)
    requires q != [] && AllRunnable(q, th) && k <= |q|
    ensures Yields(q, th, k) == q[k..] + q[..k]
  {
    hide AfterYield, AllRunnable;
    if k > 0 {
      Rotation(q, th, k - 1);
      var p := q[k - 1..] + q[..k - 1];
      TurnsRunnable(q, th, k - 1);
      OneYield(p, th);
      TurnOnce(q, k - 1);
    } else {
      assert q[0..] + q[..0] == q;
    }
  }

  lemma TurnsRunnable(q: seq<nat>, th: seq<Thread>, k: nat)
    requires AllRunnable(q, th) && k <= |q|
    ensures AllRunnable(q[k..] + q[..k], th)
  {
  }

  lemma TurnOnce(q: seq<nat>, k: nat)
    requires k < |q|
    ensures var p := q[k..] + q[..k]; p[1..] + [p[0]] == q[k + 1..] + q[..k + 1]
  {
  }

  /** The thread at place p of the run queue runs after exactly p yields, and not before. */
  lemma RunsAfterExactly(q: seq<nat>, th: seq<Thread>, p: nat)
    requires Distinct(q) && AllRunnable(q, th) && p < |q|
    ensures Front(Yields(q, th, p)) == q[p]
    ensures forall k: nat :: k < p ==> Front(Yields(q, th, k)) != q[p]
  {
    Rotation(q, th, p);
    forall k: nat | k < p ensures Front(Yields(q, th, k)) != q[p] {
      Rotation(q, th, k);
    }
  }

  /** The queue after k yields, the first by cur, which need not be in front, and the others by the thread in front. */
  function YieldsFrom(q: seq<nat>, th: seq<Thread>, cur: nat, k: nat): seq<nat> {
    if k == 0 then q else Yields(AfterYield(q, th, cur), th, k - 1)
  }

  /** When threads were woken in front of the current one, it still waits for all the others: they run in the order
      in which they stand, and it runs last. */
  lemma RunsAfterFrom(a: seq<nat>, cur: nat, b: seq<nat>, th: seq<Thread>, p: nat)
    requires Distinct(a + [cur] + b) && AllRunnable(a + [cur] + b, th) && p < |a| + 1 + |b|
    ensures var q, turn := a + [cur] + b, a + b + [cur];
      Front(YieldsFrom(q, th, cur, p + 1)) == turn[p] &&
      forall k: nat :: 1 <= k <= p ==> Front(YieldsFrom(q, th, cur, k)) != turn[p]
  {
    hide AfterYield, SkipDone, Yields;
    var q, turn := a + [cur] + b, a + b + [cur];
    Turned(a, cur, b, th);
    RunsAfterExactly(turn, th, p);
  }

  lemma Turned(a: seq<nat>, cur: nat, b: seq<nat>, th: seq<Thread>)
    requires Distinct(a + [cur] + b) && AllRunnable(a + [cur] + b, th)
    ensures var turn := a + b + [cur];
      AfterYield(a + [cur] + b, th, cur) == turn && Distinct(turn) && AllRunnable(turn, th)
  {
    var q, turn := a + [cur] + b, a + b + [cur];
    assert q[|a|] == cur;
    forall i | 0 <= i < |turn| ensures turn[i] == q[Unturned(|a|, |q|, i)] {
    }
    YieldedLast(a, cur, b, th);
  }

  /** The place in the old queue of the thread at place i of the new one. */
  function Unturned(m: nat, n: nat, i: nat): nat
    requires m < n && i < n
  {
    if i < m then i else if i == n - 1 then m else i + 1
  }

  // ---------------------------------------------------------------- one thread changes place

  /** Membership of every queue is as before, except that thread t may have moved. */
  ghost predicate OthersStay(r: seq<seq<nat>>, w: seq<seq<nat>>, th: seq<Thread>, r': seq<seq<nat>>, w': seq<seq<nat>>,
      th': seq<Thread>, t: nat)
  {
    |r| == |r'| == 2 && |w'| == |w| && |th'| == |th| &&
    forall x: nat :: x != t ==> Stays(r, w, th, r', w', th', x)
  }

  ghost predicate Stays(r: seq<seq<nat>>, w: seq<seq<nat>>, th: seq<Thread>, r': seq<seq<nat>>, w': seq<seq<nat>>,
      th': seq<Thread>, x: nat)
    requires |r| == |r'| == 2 && |th'| == |th|
  {
    (x in r'[RUNQ] <==> x in r[RUNQ]) && (x in r'[DONEQ] <==> x in r[DONEQ]) && (InSome(w', x) <==> InSome(w, x)) &&
    (x < |th| ==> th'[x] == th[x])
  }

  lemma Moved(r: seq<seq<nat>>, w: seq<seq<nat>>, th: seq<Thread>, r': seq<seq<nat>>, w': seq<seq<nat>>,
      th': seq<Thread>,
      admitted: set<nat>, gone: set<nat>, idle: nat, t: nat)
    requires Placed(r, w, th, admitted, gone, idle) && OthersStay(r, w, th, r', w', th', t)
    requires t in admitted && t !in gone && OnePlace(r', w', th', t)
    ensures Placed(r', w', th', admitted, gone, idle)
  {
    hide InSome;
    forall x: nat ensures Fits(r', w', th', admitted, gone, x) {
      assert Fits(r, w, th, admitted, gone, x);
      assert x != t ==> Stays(r, w, th, r', w', th', x);
    }
  }

  lemma SameElsewhere(w: seq<seq<nat>>, h: nat, s: seq<nat>, x: nat)
    requires h < |w| && (x in s <==> x in w[h])
    ensures InSome(w[h := s], x) <==> InSome(w, x)
  {
    var w' := w[h := s];
    if InSome(w, x) {
      var g :| 0 <= g < |w| && x in w[g];
      assert x in w'[g];
    }
    if InSome(w', x) {
      var g :| 0 <= g < |w'| && x in w'[g];
      assert x in w[g];
    }
  }

  /** A thread that can run goes from place i of the run queue to its tail. */
  lemma ToTail(r: seq<seq<nat>>, w: seq<seq<nat>>, th: seq<Thread>, admitted: set<nat>, gone: set<nat>, idle: nat,
      i: nat)
    requires Placed(r, w, th, admitted, gone, idle) && i < |r[RUNQ]|
    requires forall x :: x in Removed(r[RUNQ], i) <==> x in r[RUNQ] && x != r[RUNQ][i]
    ensures Placed(r[RUNQ := Removed(r[RUNQ], i) + [r[RUNQ][i]]], w, th, admitted, gone, idle)
  {
    var t := r[RUNQ][i];
    assert Fits(r, w, th, admitted, gone, t);
    var r' := r[RUNQ := Removed(r[RUNQ], i) + [t]];
    hide Removed;
    Moved(r, w, th, r', w, th, admitted, gone, idle, t);
  }

  /** A thread that is done goes from place i of the run queue to the done queue. */
  lemma ToDone(r: seq<seq<nat>>, w: seq<seq<nat>>, th: seq<Thread>, admitted: set<nat>, gone: set<nat>, idle: nat,
      i: nat)
    requires Placed(r, w, th, admitted, gone, idle) && i < |r[RUNQ]|
    requires forall x :: x in Removed(r[RUNQ], i) <==> x in r[RUNQ] && x != r[RUNQ][i]
    requires !CanRun(th, r[RUNQ][i])
    ensures Placed([Removed(r[RUNQ], i), r[DONEQ] + [r[RUNQ][i]]], w, th, admitted, gone, idle)
    ensures r[RUNQ][i] < |th| && th[r[RUNQ][i]].state == Done && r[RUNQ][i] in admitted && r[RUNQ][i] !in gone
  {
    var t := r[RUNQ][i];
    assert Fits(r, w, th, admitted, gone, t);
    var r' := [Removed(r[RUNQ], i), r[DONEQ] + [t]];
    hide Removed;
    Moved(r, w, th, r', w, th, admitted, gone, idle, t);
  }

  /** A thread that can run goes from place i of the run queue to the tail of wait list h. */
  lemma ToWait(r: seq<seq<nat>>, w: seq<seq<nat>>, th: seq<Thread>, admitted: set<nat>, gone: set<nat>, idle: nat,
      i: nat,
      h: nat, deadline: int)
    requires Placed(r, w, th, admitted, gone, idle) && i < |r[RUNQ]| && h < |w|
    requires forall x :: x in Removed(r[RUNQ], i) <==> x in r[RUNQ] && x != r[RUNQ][i]
    ensures r[RUNQ][i] < |th|
    ensures var t := r[RUNQ][i];
      Placed(r[RUNQ := Removed(r[RUNQ], i)], w[h := w[h] + [t]], th[t := Thread(Waiting, deadline)], admitted, gone, idle)
    ensures InSome(w[h := w[h] + [r[RUNQ][i]]], r[RUNQ][i])
  {
    var t := r[RUNQ][i];
    assert Fits(r, w, th, admitted, gone, t);
    var r', w', th' := r[RUNQ := Removed(r[RUNQ], i)], w[h := w[h] + [t]], th[t := Thread(Waiting, deadline)];
    hide Removed;
    assert t in w'[h];
    forall x: nat | x != t ensures Stays(r, w, th, r', w', th', x) {
      SameElsewhere(w, h, w[h] + [t], x);
    }
    Moved(r, w, th, r', w', th', admitted, gone, idle, t);
  }

  /** The thread at place i of wait list h, its state made st, goes to the run queue or the done queue. */
  lemma FromWait(r: seq<seq<nat>>, w: seq<seq<nat>>, th: seq<Thread>, admitted: set<nat>, gone: set<nat>, idle: nat,
      i: nat,
      h: nat, r': seq<seq<nat>>, st: State)
    requires Placed(r, w, th, admitted, gone, idle) && h < |w| && i < |w[h]|
    requires forall x :: x in Removed(w[h], i) <==> x in w[h] && x != w[h][i]
    requires forall g :: 0 <= g < |w| && g != h ==> w[h][i] !in w[g]
    requires (st == Runnable && r' == r[RUNQ := [w[h][i]] + r[RUNQ]]) || (st == Done && r' == r[DONEQ := r[DONEQ] + [w[h][i]]])
    ensures w[h][i] < |th| && w[h][i] !in r[RUNQ] && w[h][i] !in r[DONEQ] && th[w[h][i]].state != Runnable
    ensures var t := w[h][i];
      Placed(r', w[h := Removed(w[h], i)], th[t := th[t].(state := st)], admitted, gone, idle)
  {
    var t := w[h][i];
    assert t in w[h] && InSome(w, t);
    assert Fits(r, w, th, admitted, gone, t);
    var w', th' := w[h := Removed(w[h], i)], th[t := th[t].(state := st)];
    hide Removed;
    forall x: nat | x != t ensures Stays(r, w, th, r', w', th', x) {
      SameElsewhere(w, h, Removed(w[h], i), x);
    }
    assert !InSome(w', t);
    Moved(r, w, th, r', w', th', admitted, gone, idle, t);
  }

  /** A new thread at the tail of the run queue. */
  lemma Enters(r: seq<seq<nat>>, w: seq<seq<nat>>, th: seq<Thread>, admitted: set<nat>, gone: set<nat>, idle: nat,
      t: nat)
    requires Placed(r, w, th, admitted, gone, idle) && t !in admitted && t != idle && 0 < t < |th|
    ensures Placed(r[RUNQ := r[RUNQ] + [t]], w, th[t := th[t].(state := Runnable)], admitted + {t}, gone, idle)
    ensures t !in r[RUNQ] && t !in r[DONEQ]
  {
    var r', th' := r[RUNQ := r[RUNQ] + [t]], th[t := th[t].(state := Runnable)];
    assert Fits(r, w, th, admitted, gone, t);
    forall x: nat ensures Fits(r', w, th', admitted + {t}, gone, x) {
      assert Fits(r, w, th, admitted, gone, x);
    }
  }

  /** The thread at place i of the done queue is gone. */
  lemma Leaves(r: seq<seq<nat>>, w: seq<seq<nat>>, th: seq<Thread>, admitted: set<nat>, gone: set<nat>, idle: nat,
      i: nat)
    requires Placed(r, w, th, admitted, gone, idle) && i < |r[DONEQ]|
    requires forall x :: x in Removed(r[DONEQ], i) <==> x in r[DONEQ] && x != r[DONEQ][i]
    ensures Placed(r[DONEQ := Removed(r[DONEQ], i)], w, th, admitted, gone + {r[DONEQ][i]}, idle)
    ensures r[DONEQ][i] < |th| && th[r[DONEQ][i]].state == Done
  {
    var t := r[DONEQ][i];
    assert Fits(r, w, th, admitted, gone, t);
    var r' := r[DONEQ := Removed(r[DONEQ], i)];
    hide Removed, InSome;
    forall x: nat ensures Fits(r', w, th, admitted, gone + {t}, x) {
      assert Fits(r, w, th, admitted, gone, x);
    }
  }

  /** A thread in a queue is marked done where it is. */
  lemma Ends(r: seq<seq<nat>>, w: seq<seq<nat>>, th: seq<Thread>, admitted: set<nat>, gone: set<nat>, idle: nat, t: nat)
    requires Placed(r, w, th, admitted, gone, idle) && t in admitted && t !in gone
    ensures t < |th| && Placed(r, w, th[t := th[t].(state := Done)], admitted, gone, idle)
  {
    assert Fits(r, w, th, admitted, gone, t);
    hide InSome;
    Moved(r, w, th, r, w, th[t := th[t].(state := Done)], admitted, gone, idle, t);
  }

  // ---------------------------------------------------------------- the scheduler

  class Scheduler {
    const run: Queues
    const wait: Queues
    const threads: array<Thread>
    const idle: nat
    var current: nat
    ghost var admitted: set<nat>
    ghost var gone: set<nat>

    /** sched_init: empty queues, no current thread; the idle thread is in no queue. */
    constructor (size: nat, lists: nat, idle: nat)
      requires 0 < idle <= size && lists > SLEEPQ
      ensures Valid() && admitted == {} && gone == {} && current == NULL && this.idle == idle
      ensures run.items == [[], []] && wait.items == seq(lists, _ => []) && threads.Length == size + 1
      ensures fresh(Objects())
    {
      run := new Queues(size, 2);
      wait := new Queues(size, lists);
      threads := new Thread[size + 1](_ => Thread(Runnable, 0));
      this.idle, current, admitted, gone := idle, NULL, {}, {};
    }

    ghost function Objects(): set<object>
      reads this
    {
      {run, run.next, run.prev, run.first, run.last, wait, wait.next, wait.prev, wait.first, wait.last, threads}
    }

    /** The structures are separate. */
    ghost predicate Separate()
      reads this
    {
      run != wait && {run.next, run.prev, run.first, run.last} !! {wait.next, wait.prev, wait.first, wait.last}
    }

    ghost predicate Sound()
      reads this, run, run.next, run.prev, run.first, run.last, wait, wait.next, wait.prev, wait.first, wait.last, threads
    {
      Separate() && run.Valid() && wait.Valid() && run.next.Length == wait.next.Length == threads.Length &&
      0 < idle < threads.Length && Placed(run.items, wait.items, threads[..], admitted, gone, idle)
    }

    /** The current thread is none, the idle thread, or one in the run queue. */
    ghost predicate Valid()
      reads this, run, run.next, run.prev, run.first, run.last, wait, wait.next, wait.prev, wait.first, wait.last, threads
    {
      Sound() && (current == NULL || current == idle || current in run.items[RUNQ])
    }

    lemma PlaceOf(t: nat)
      requires Sound()
      ensures Fits(run.items, wait.items, threads[..], admitted, gone, t)
      ensures t == idle || t == NULL ==> NoPlace(run.items, wait.items, t)
    {
    }

    /** Every thread that was admitted and has not been let go stands in exactly one place of all the queues and
        lists together, its state suits that place, and no other thread stands anywhere. */
    lemma ExactlyOnePlace(t: nat)
      requires Sound()
      ensures t in admitted && t !in gone <==> exists p :: Stands(run.items, wait.items, t, p)
      ensures forall p :: Stands(run.items, wait.items, t, p) ==> t < threads.Length && Suits(threads[t].state, p)
      ensures forall p, q :: Stands(run.items, wait.items, t, p) && Stands(run.items, wait.items, t, q) ==> p == q
    {
      PlaceOf(t);
      hide Placed, Stands, Suits, InSome;
      forall p | Stands(run.items, wait.items, t, p)
        ensures t in admitted && t !in gone
      {
        PlaceIn(run.items, wait.items, t, p);
      }
      if t in admitted && t !in gone {
        var p := SomePlace(run.items, wait.items, threads[..], t);
      }
      forall p, q | Stands(run.items, wait.items, t, p) && Stands(run.items, wait.items, t, q)
        ensures p == q && Suits(threads[t].state, p)
      {
        SamePlace(run.items, wait.items, threads[..], t, p, q);
      }
    }

    /** Step 1 of sched_yield: puts the current thread at the tail, or on the done queue. */
    method Requeue()
      requires Sound()
      requires current == NULL || current == idle || current in run.items[RUNQ] ||
        (current < threads.Length && threads[current].state == Waiting && current !in run.items[RUNQ])
      modifies run`items, run.next, run.prev, run.first, run.last
      ensures Sound()
      ensures run.items == [Requeued(old(run.items)[RUNQ], threads[..], current),
        old(run.items)[DONEQ] + Retired(old(run.items)[RUNQ], threads[..], current)]
    {
      hide Placed, Fits, Queues.Valid, Removed;
      ghost var r, w, th := run.items, wait.items, threads[..];
      PlaceOf(current);
      PlacedParts(r, w, th, admitted, gone, idle);
      if current != NULL && current != idle {
        if threads[current].state == Runnable {
          ghost var i := IndexOf(r[RUNQ], current);
          run.Members(RUNQ, i);
          ToTail(r, w, th, admitted, gone, idle, i);
          run.Remove(RUNQ, current, i);
          run.InsertTail(RUNQ, current);
          assert run.items == r[RUNQ := Removed(r[RUNQ], i) + [current]];
        } else if threads[current].state == Done {
          ghost var i := IndexOf(r[RUNQ], current);
          run.Members(RUNQ, i);
          ToDone(r, w, th, admitted, gone, idle, i);
          run.Remove(RUNQ, current, i);
          run.InsertTail(DONEQ, current);
          assert run.items == [Removed(r[RUNQ], i), r[DONEQ] + [current]];
        }
      }
      assert run.items[DONEQ] + [] == run.items[DONEQ];
      assert run.items == [run.items[RUNQ], run.items[DONEQ]];
    }

    /** Step 2 of sched_yield: the first thread of the run queue that can run, or the idle thread when there is
        none; done threads found on the way go to the done queue. */
    method NextRunnable() returns (t: nat)
      requires Sound()
      modifies run`items, run.next, run.prev, run.first, run.last
      ensures Sound()
      ensures run.items == [SkipDone(old(run.items)[RUNQ], threads[..]),
        old(run.items)[DONEQ] + DonePrefix(old(run.items)[RUNQ], threads[..])]
      ensures if run.items[RUNQ] == [] then t == idle else t == run.items[RUNQ][0] && CanRun(threads[..], t)
    {
      hide Placed, Fits, Queues.Valid, Removed, SkipDone, DonePrefix;
      ghost var w, th := wait.items, threads[..];
      PlacedParts(run.items, w, th, admitted, gone, idle);
      ghost var q, d := run.items[RUNQ], run.items[DONEQ];
      ghost var k := 0;
      assert q[k..] == q && d + q[..k] == d && run.items == [q, d];
      while true
        invariant Sound() && threads[..] == th && k <= |q| && run.items == [q[k..], d + q[..k]]
        invariant SkipDone(q, th) == SkipDone(q[k..], th) && DonePrefix(q, th) == q[..k] + DonePrefix(q[k..], th)
        decreases |q| - k
      {
        ghost var r := run.items;
        PlacedParts(r, w, th, admitted, gone, idle);
        run.Ends(RUNQ);
        SkipStep(q, d, th, k);
        t := run.first[RUNQ];
        if t == NULL {
          t := idle;
          break;
        }
        assert t == r[RUNQ][0] && t in r[RUNQ];
        if threads[t].state == Runnable {
          break;
        }
        run.Members(RUNQ, 0);
        ToDone(r, w, th, admitted, gone, idle, 0);
        run.Remove(RUNQ, t, 0);
        run.InsertTail(DONEQ, t);
        assert run.items == [Removed(r[RUNQ], 0), r[DONEQ] + [t]];
        k := k + 1;
      }
    }

    /** Steps 1 to 3 of sched_yield: the current thread goes to the back, the front of the run queue runs. */
    method Yield()
      requires Sound()
      requires current == NULL || current == idle || current in run.items[RUNQ] ||
        (current < threads.Length && threads[current].state == Waiting && current !in run.items[RUNQ])
      modifies this`current, run`items, run.next, run.prev, run.first, run.last
      ensures Valid() && run.items[RUNQ] == AfterYield(old(run.items)[RUNQ], threads[..], old(current))
      ensures run.items[DONEQ] == old(run.items)[DONEQ] + Retired(old(run.items)[RUNQ], threads[..], old(current)) +
        DonePrefix(Requeued(old(run.items)[RUNQ], threads[..], old(current)), threads[..])
      ensures current == idle <==> run.items[RUNQ] == []
      ensures current != idle ==> current == run.items[RUNQ][0] && CanRun(threads[..], current)
    {
      hide Placed, Queues.Valid, Requeued, Retired, SkipDone, DonePrefix;
      Requeue();
      current := NextRunnable();
      PlacedParts(run.items, wait.items, threads[..], admitted, gone, idle);
    }

    /** sched_add_runnable_thread, for a thread that is new to the scheduler. */
    method AddRunnable(t: nat)
      requires Valid() && t !in admitted && t != idle && 0 < t < threads.Length
      modifies this`admitted, threads, run`items, run.next, run.prev, run.first, run.last
      ensures Valid() && admitted == old(admitted) + {t}
      ensures run.items == old(run.items)[RUNQ := old(run.items)[RUNQ] + [t]]
      ensures threads[..] == old(threads[..])[t := old(threads[t]).(state := Runnable)]
    {
      hide Placed, Fits, Queues.Valid;
      PlacedParts(run.items, wait.items, threads[..], admitted, gone, idle);
      Enters(run.items, wait.items, threads[..], admitted, gone, idle, t);
      threads[t] := threads[t].(state := Runnable);
      run.InsertTail(RUNQ, t);
      admitted := admitted + {t};
    }

    /** sched_wait_on, up to the switch: a thread that can run goes to the tail of wait list h until its deadline,
        and another thread runs. A thread that cannot run is left alone. */
    method WaitOn(h: nat, t: nat, ticks: int, now: int)
      requires Valid() && h < |wait.items| && t in admitted && t !in gone && now + ticks <= INT_MAX
      modifies this`current, threads, run`items, run.next, run.prev, run.first, run.last
      modifies wait`items, wait.next, wait.prev, wait.first, wait.last
      ensures Valid() && t < threads.Length
      ensures old(threads[t]).state != Runnable ==> run.items == old(run.items) && wait.items == old(wait.items)
      ensures old(threads[t]).state != Runnable ==> threads[..] == old(threads[..]) && current == old(current)
      ensures old(threads[t]).state == Runnable ==> wait.items == old(wait.items)[h := old(wait.items)[h] + [t]]
      ensures old(threads[t]).state == Runnable ==> threads[..] == old(threads[..])[t := Thread(Waiting, now + ticks)]
      ensures old(threads[t]).state == Runnable ==> t in old(run.items)[RUNQ] && current != t
      ensures old(threads[t]).state == Runnable ==> var q := old(run.items)[RUNQ];
        run.items[RUNQ] == AfterYield(Removed(q, IndexOf(q, t)), threads[..], old(current))
    {
      hide Placed, Fits, Queues.Valid, Removed, Requeued, Retired, SkipDone, DonePrefix, AfterYield;
      ghost var r, w, th := run.items, wait.items, threads[..];
      InAPlace(r, w, th, admitted, gone, idle, t);
      PlacedParts(r, w, th, admitted, gone, idle);
      if threads[t].state != Runnable {
        return;
      }
      ghost var i := IndexOf(r[RUNQ], t);
      run.Members(RUNQ, i);
      ToWait(r, w, th, admitted, gone, idle, i, h, now + ticks);
      threads[t] := Thread(Waiting, now + ticks);
      run.Remove(RUNQ, t, i);
      wait.InsertTail(h, t);
      assert Sound();
      Yield();
      PlacedParts(run.items, wait.items, threads[..], admitted, gone, idle);
    }

    /** A due thread that is waiting leaves place i of wait list h for the front of the run queue. */
    method Wake(h: nat, t: nat, ghost i: nat)
      requires Sound() && h < |wait.items| && i < |wait.items[h]| && t == wait.items[h][i] && t < threads.Length
      modifies threads, run`items, run.next, run.prev, run.first, run.last
      modifies wait`items, wait.next, wait.prev, wait.first, wait.last
      ensures Sound() && run.items == old(run.items)[RUNQ := [t] + old(run.items)[RUNQ]]
      ensures wait.items == old(wait.items)[h := Removed(old(wait.items)[h], i)]
      ensures threads[..] == old(threads[..])[t := old(threads[t]).(state := Runnable)]
    {
      hide Placed, Queues.Valid, Removed;
      ghost var r := run.items;
      PlacedParts(r, wait.items, threads[..], admitted, gone, idle);
      wait.Members(h, i);
      FromWait(r, wait.items, threads[..], admitted, gone, idle, i, h, r[RUNQ := [t] + r[RUNQ]], Runnable);
      wait.Remove(h, t, i);
      threads[t] := threads[t].(state := Runnable);
      run.InsertFront(RUNQ, t);
    }

    /** A due thread that is not waiting any more leaves place i of wait list h for the done queue. */
    method Retire(h: nat, t: nat, ghost i: nat)
      requires Sound() && h < |wait.items| && i < |wait.items[h]| && t == wait.items[h][i] && t < threads.Length
      requires threads[t].state == Done
      modifies run`items, run.next, run.prev, run.first, run.last
      modifies wait`items, wait.next, wait.prev, wait.first, wait.last
      ensures Sound() && run.items == old(run.items)[DONEQ := old(run.items)[DONEQ] + [t]]
      ensures wait.items == old(wait.items)[h := Removed(old(wait.items)[h], i)]
    {
      hide Placed, Queues.Valid, Removed;
      ghost var r, th := run.items, threads[..];
      PlacedParts(r, wait.items, th, admitted, gone, idle);
      wait.Members(h, i);
      FromWait(r, wait.items, th, admitted, gone, idle, i, h, r[DONEQ := r[DONEQ] + [t]], Done);
      wait.Remove(h, t, i);
      run.InsertTail(DONEQ, t);
      assert th[t := th[t].(state := Done)] == th;
    }

    /** sched_wakeup_threads: every thread of wait list h whose deadline has come leaves it. */
    method WakeupThreads(h: nat, now: int)
      requires Valid() && h < |wait.items|
      modifies threads, run`items, run.next, run.prev, run.first, run.last
      modifies wait`items, wait.next, wait.prev, wait.first, wait.last
      ensures Valid() && wait.items == old(wait.items)[h := Later(old(wait.items)[h], old(threads[..]), now)]
      ensures run.items == [WokenReversed(old(wait.items)[h], old(threads[..]), now) + old(run.items)[RUNQ],
        old(run.items)[DONEQ] + Finished(old(wait.items)[h], old(threads[..]), now)]
      ensures Awake(old(wait.items)[h], old(threads[..]), threads[..], now)
    {
      hide Placed, Fits, Queues.Valid, Removed, Scan.Holds, Scan.S, Scan.Place, At;
      PlacedParts(run.items, wait.items, threads[..], admitted, gone, idle);
      ghost var c := Scan(h, run.items, wait.items, threads[..], now);
      wait.Ends(h);
      wait.DistinctItems(h);
      c.Is();
      c.Starts();
      var cur := wait.first[h];
      ghost var k := 0;
      while cur != NULL
        invariant Sound() && k <= |c.S()| && cur == At(c.S(), k) && c.Holds(k, run.items, wait.items, threads[..])
        decreases |c.S()| - k
      {
        ghost var r, w, th, i := run.items, wait.items, threads[..], c.Place(k);
        c.Reach(k);
        c.Facts(k, r, w, th);
        wait.Members(h, i);
        var next := wait.next[cur];
        PlaceInWait(r, w, th, admitted, gone, idle, i, h);
        if threads[cur].deadline <= now {
          if threads[cur].state == Waiting {
            c.Wakes(k, r, w, th);
            Wake(h, cur, i);
          } else {
            c.Finishes(k, r, w, th);
            Retire(h, cur, i);
          }
        } else {
          c.Keeps(k, r, w, th);
        }
        cur := next;
        k := k + 1;
      }
      c.Ended(k);
      c.Stops(run.items, wait.items, threads[..]);
    }

    /** Step 4 of sched_yield, first half: every thread of the done queue is let go. */
    method CleanUp()
      requires Valid()
      modifies this`gone, run`items, run.next, run.prev, run.first, run.last
      ensures Valid() && run.items == [old(run.items)[RUNQ], []]
      ensures gone == old(gone) + Elements(old(run.items)[DONEQ])
    {
      hide Placed, Fits, Queues.Valid, Removed, At;
      ghost var r0, th := run.items, threads[..];
      PlacedParts(r0, wait.items, th, admitted, gone, idle);
      ghost var d := r0[DONEQ];
      run.Ends(DONEQ);
      FirstOf(d);
      var cur := run.first[DONEQ];
      ghost var k := 0;
      assert d[k..] == d && r0 == r0[DONEQ := d];
      while cur != NULL
        invariant Sound() && k <= |d| && cur == At(d[k..], 0) && run.items == r0[DONEQ := d[k..]]
        invariant gone == old(gone) + Elements(d[..k])
        decreases |d| - k
      {
        ghost var r := run.items;
        FirstOf(d[k..]);
        run.Members(DONEQ, 0);
        Leaves(r, wait.items, th, admitted, gone, idle, 0);
        var next := run.next[cur];
        DropFirst(d, k);
        run.Remove(DONEQ, cur, 0);
        gone := gone + {cur};
        cur := next;
        k := k + 1;
      }
      run.Ends(DONEQ);
      FirstOf(d[k..]);
      assert d[..k] == d && run.items == [r0[RUNQ], []];
    }

    /** Step 4 of sched_yield, by the thread that has been switched to: the done queue is emptied, then the
        sleepers that are due are woken. */
    method AfterSwitch(now: int)
      requires Valid()
      modifies this`gone, threads, run`items, run.next, run.prev, run.first, run.last
      modifies wait`items, wait.next, wait.prev, wait.first, wait.last
      ensures Valid() && gone == old(gone) + Elements(old(run.items)[DONEQ])
      ensures wait.items == old(wait.items)[SLEEPQ := Later(old(wait.items)[SLEEPQ], old(threads[..]), now)]
      ensures run.items == [WokenReversed(old(wait.items)[SLEEPQ], old(threads[..]), now) + old(run.items)[RUNQ],
        Finished(old(wait.items)[SLEEPQ], old(threads[..]), now)]
      ensures Awake(old(wait.items)[SLEEPQ], old(threads[..]), threads[..], now)
    {
      hide Placed, Queues.Valid, Later, WokenReversed, Finished, Awake;
      PlacedParts(run.items, wait.items, threads[..], admitted, gone, idle);
      CleanUp();
      PlacedParts(run.items, wait.items, threads[..], admitted, gone, idle);
      WakeupThreads(SLEEPQ, now);
      assert [] + Finished(old(wait.items)[SLEEPQ], old(threads[..]), now) ==
        Finished(old(wait.items)[SLEEPQ], old(threads[..]), now);
    }

    /** Marks an admitted thread done where it stands. The code that does so is not part of this model. */
    method MarkDone(t: nat)
      requires Valid() && t in admitted && t !in gone && t < threads.Length
      modifies threads
      ensures Valid() && threads[..] == old(threads[..])[t := old(threads[t]).(state := Done)]
    {
      hide Placed, Queues.Valid;
      Ends(run.items, wait.items, threads[..], admitted, gone, idle, t);
      threads[t] := threads[t].(state := Done);
    }
  }

  /** One look at the front of what is left of the run queue. */
  lemma SkipStep(q: seq<nat>, d: seq<nat>, th: seq<Thread>, k: nat)
    requires k <= |q| && SkipDone(q, th) == SkipDone(q[k..], th) && DonePrefix(q, th) == q[..k] + DonePrefix(q[k..], th)
    ensures q[k..] == [] || CanRun(th, q[k..][0]) ==> SkipDone(q, th) == q[k..] && d + DonePrefix(q, th) == d + q[..k]
    ensures q[k..] != [] && !CanRun(th, q[k..][0]) ==>
      SkipDone(q, th) == SkipDone(q[k + 1..], th) && DonePrefix(q, th) == q[..k + 1] + DonePrefix(q[k + 1..], th) &&
      Removed(q[k..], 0) == q[k + 1..] && d + q[..k] + [q[k]] == d + q[..k + 1] && q[k..][0] == q[k]
  {
    hide SkipDone, DonePrefix, CanRun;
    var s := q[k..];
    SkipUnfold(s, th);
    if k < |q| {
      var rest := DonePrefix(q[k + 1..], th);
      assert s[1..] == q[k + 1..] && Removed(s, 0) == q[k + 1..];
      assert d + q[..k] + [q[k]] == d + q[..k + 1];
      assert q[..k] + ([q[k]] + rest) == q[..k + 1] + rest;
    }
    assert q[..k] + [] == q[..k];
  }

  lemma SkipUnfold(s: seq<nat>, th: seq<Thread>)
    ensures s == [] || CanRun(th, s[0]) ==> SkipDone(s, th) == s && DonePrefix(s, th) == []
    ensures s != [] && !CanRun(th, s[0]) ==>
      SkipDone(s, th) == SkipDone(s[1..], th) && DonePrefix(s, th) == [s[0]] + DonePrefix(s[1..], th)
  {
  }

  lemma PlacedParts(r: seq<seq<nat>>, w: seq<seq<nat>>, th: seq<Thread>, admitted: set<nat>, gone: set<nat>, idle: nat)
    requires Placed(r, w, th, admitted, gone, idle)
    ensures |r| == 2 && |w| > SLEEPQ && idle != NULL
    ensures forall t :: t in r[RUNQ] ==> t < |th| && t != NULL && t != idle && th[t].state != Waiting
  {
    forall t | t in r[RUNQ] ensures t < |th| && t != NULL && t != idle && th[t].state != Waiting {
      assert Fits(r, w, th, admitted, gone, t);
    }
  }

  /** An admitted thread that is not gone and can run is in the run queue, and on no wait list. */
  lemma InAPlace(r: seq<seq<nat>>, w: seq<seq<nat>>, th: seq<Thread>, admitted: set<nat>, gone: set<nat>, idle: nat,
      t: nat)
    requires Placed(r, w, th, admitted, gone, idle) && t in admitted && t !in gone
    ensures 0 < t < |th| && (th[t].state == Runnable ==> t in r[RUNQ] && forall h :: 0 <= h < |w| ==> t !in w[h])
  {
    assert Fits(r, w, th, admitted, gone, t);
    assert forall h :: 0 <= h < |w| && t in w[h] ==> InSome(w, t);
  }

  /** A thread on a wait list is in no other queue and cannot run. */
  lemma PlaceInWait(r: seq<seq<nat>>, w: seq<seq<nat>>, th: seq<Thread>, admitted: set<nat>, gone: set<nat>, idle: nat,
      i: nat, h: nat)
    requires Placed(r, w, th, admitted, gone, idle) && h < |w| && i < |w[h]|
    ensures |r| == 2 && w[h][i] < |th| && th[w[h][i]].state != Runnable && w[h][i] !in r[RUNQ] && w[h][i] !in r[DONEQ]
  {
    assert w[h][i] in w[h] && InSome(w, w[h][i]);
    assert Fits(r, w, th, admitted, gone, w[h][i]);
  }

  lemma OneOut(a: seq<nat>, s: seq<nat>, k: nat)
    requires k < |s|
    ensures Removed(a + s[k..], |a|) == a + s[k + 1..] && a + [s[k]] + s[k + 1..] == a + s[k..] && a + [] == a
  {
  }

  /** A scan of wait list h at time now: the queues and threads it began with. */
  datatype Scan = Scan(h: nat, r0: seq<seq<nat>>, w0: seq<seq<nat>>, th0: seq<Thread>, now: int) {
    ghost predicate Sane() { h < |w0| && |r0| == 2 }

    ghost function S(): seq<nat>
    {
      if h < |w0| then w0[h] else []
    }

    /** Where the next sleeper stands in the list now. */
    ghost function Place(k: nat): nat
    {
      if k <= |S()| then |Later(S()[..k], th0, now)| else 0
    }

    /** The first k sleepers have been dealt with. */
    ghost predicate Holds(k: nat, r: seq<seq<nat>>, w: seq<seq<nat>>, th: seq<Thread>) {
      Sane() && k <= |S()| && Distinct(S()) && w == w0[h := Later(S()[..k], th0, now) + S()[k..]] &&
      r == [WokenReversed(S()[..k], th0, now) + r0[RUNQ], r0[DONEQ] + Finished(S()[..k], th0, now)] &&
      Awake(S()[..k], th0, th, now)
    }

    lemma Reach(k: nat)
      requires k <= |S()| && At(S(), k) != NULL
      ensures k < |S()| && At(S(), k) == S()[k]
    {
    }

    lemma Ended(k: nat)
      requires k <= |S()| && At(S(), k) == NULL && NULL !in S()
      ensures k == |S()|
    {
    }

    lemma Is()
      requires h < |w0|
      ensures S() == w0[h] && At(S(), 0) == At(w0[h], 0)
    {
    }

    lemma Starts()
      requires Sane() && Distinct(S())
      ensures Holds(0, r0, w0, th0)
    {
      var s := S();
      assert s[..0] == [] && s[0..] == s && [] + s == s && w0[h := w0[h]] == w0;
      assert [] + r0[RUNQ] == r0[RUNQ] && r0[DONEQ] + [] == r0[DONEQ] && [r0[RUNQ], r0[DONEQ]] == r0;
    }

    lemma Facts(k: nat, r: seq<seq<nat>>, w: seq<seq<nat>>, th: seq<Thread>)
      requires Holds(k, r, w, th) && k < |S()|
      ensures |w| == |w0| && |r| == 2 && |th| == |th0| && h < |w| && Place(k) < |w[h]| && w[h][Place(k)] == S()[k]
      ensures At(w[h], Place(k) + 1) == At(S(), k + 1)
      ensures S()[k] < |th| ==> th[S()[k]] == th0[S()[k]]
    {
    }

    lemma Next(k: nat)
      requires Sane() && k < |S()|
      ensures var t, s := S()[k], S();
        (!Due(th0, t, now) ==> Later(s[..k], th0, now) + s[k..] == Later(s[..k + 1], th0, now) + s[k + 1..]) &&
        (Due(th0, t, now) ==>
          Removed(Later(s[..k], th0, now) + s[k..], Place(k)) == Later(s[..k + 1], th0, now) + s[k + 1..])
    {
      LaterStep(S(), th0, now, k);
      OneOut(Later(S()[..k], th0, now), S(), k);
      hide Later, Due, Removed;
    }

    lemma NextQueues(k: nat)
      requires Sane() && k < |S()|
      ensures var t, s := S()[k], S();
        (!(Due(th0, t, now) && th0[t].state == Waiting) ==> WokenReversed(s[..k + 1], th0, now) == WokenReversed(s[..k], th0, now)) &&
        (Due(th0, t, now) && th0[t].state == Waiting ==>
          WokenReversed(s[..k + 1], th0, now) + r0[RUNQ] == [t] + (WokenReversed(s[..k], th0, now) + r0[RUNQ]))
      ensures var t, s := S()[k], S();
        (!(Due(th0, t, now) && th0[t].state != Waiting) ==> Finished(s[..k + 1], th0, now) == Finished(s[..k], th0, now)) &&
        (Due(th0, t, now) && th0[t].state != Waiting ==>
          r0[DONEQ] + Finished(s[..k + 1], th0, now) == r0[DONEQ] + Finished(s[..k], th0, now) + [t])
    {
      LaterStep(S(), th0, now, k);
      hide WokenReversed, Finished, Due;
      var s := S();
      var f, g := Finished(s[..k], th0, now), WokenReversed(s[..k], th0, now);
      assert r0[DONEQ] + (f + [s[k]]) == r0[DONEQ] + f + [s[k]] && f + [] == f;
      assert [s[k]] + g + r0[RUNQ] == [s[k]] + (g + r0[RUNQ]) && [] + g == g;
    }

    lemma AwakeNext(k: nat, th: seq<Thread>)
      requires Sane() && Distinct(S()) && k < |S()| && Awake(S()[..k], th0, th, now) && S()[k] < |th0|
      ensures var t := S()[k];
        |th| == |th0| && th[t] == th0[t] &&
        Awake(S()[..k + 1], th0, if Due(th0, t, now) && th0[t].state == Waiting then th[t := th[t].(state := Runnable)] else th, now)
    {
    }

    lemma Keeps(k: nat, r: seq<seq<nat>>, w: seq<seq<nat>>, th: seq<Thread>)
      requires Holds(k, r, w, th) && k < |S()| && S()[k] < |th| && th[S()[k]].deadline > now
      ensures Holds(k + 1, r, w, th)
    {
      AwakeNext(k, th);
      Next(k);
      NextQueues(k);
      hide Later, WokenReversed, Finished, Awake, Removed;
    }

    lemma Wakes(k: nat, r: seq<seq<nat>>, w: seq<seq<nat>>, th: seq<Thread>)
      requires Holds(k, r, w, th) && k < |S()| && S()[k] < |th| && th[S()[k]].deadline <= now && th[S()[k]].state == Waiting
      ensures |r| == 2 && h < |w| && Place(k) < |w[h]|
      ensures var t := S()[k];
        Holds(k + 1, r[RUNQ := [t] + r[RUNQ]], w[h := Removed(w[h], Place(k))], th[t := th[t].(state := Runnable)])
    {
      AwakeNext(k, th);
      Next(k);
      NextQueues(k);
      hide Later, WokenReversed, Finished, Awake, Removed;
    }

    lemma Finishes(k: nat, r: seq<seq<nat>>, w: seq<seq<nat>>, th: seq<Thread>)
      requires Holds(k, r, w, th) && k < |S()| && S()[k] < |th| && th[S()[k]].deadline <= now && th[S()[k]].state != Waiting
      ensures |r| == 2 && h < |w| && Place(k) < |w[h]|
      ensures Holds(k + 1, r[DONEQ := r[DONEQ] + [S()[k]]], w[h := Removed(w[h], Place(k))], th)
    {
      AwakeNext(k, th);
      Next(k);
      NextQueues(k);
      hide Later, WokenReversed, Finished, Awake, Removed;
    }

    lemma Stops(r: seq<seq<nat>>, w: seq<seq<nat>>, th: seq<Thread>)
      requires Holds(|S()|, r, w, th)
      ensures w == w0[h := Later(S(), th0, now)] && Awake(S(), th0, th, now)
      ensures r == [WokenReversed(S(), th0, now) + r0[RUNQ], r0[DONEQ] + Finished(S(), th0, now)]
    {
      var s := S();
      assert s[..|s|] == s && s[|s|..] == [];
      hide Later, WokenReversed, Finished, Awake;
      assert Later(s, th0, now) + [] == Later(s, th0, now);
    }
  }

  ghost function Elements(s: seq<nat>): set<nat> { set t | t in s }

  lemma FirstOf(s: seq<nat>)
    ensures At(s, 0) == if s == [] then NULL else s[0]
  {
  }

  lemma DropFirst(d: seq<nat>, k: nat)
    requires k < |d|
    ensures Removed(d[k..], 0) == d[k + 1..] && At(d[k..], 1) == At(d[k + 1..], 0) && d[k..][0] == d[k]
    ensures Elements(d[..k + 1]) == Elements(d[..k]) + {d[k]}
  {
  }
}
