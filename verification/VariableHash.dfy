/** A hash index of intrusive queues (kern/inc/variable_hash.h), as the scheduler uses it for tasks and
    threads: integer keys that belong to the elements, compared by sched_hashcmp (kern/sched.c). */
module VariableHash {
  import opened VariableQueue

  /** sched_hashcmp. */
  function Compare(k1: int, k2: int): int { if k1 == k2 then 0 else if k1 > k2 then 1 else -1 }

  /** The elements with key k, in order. */
  function Select(s: seq<nat>, key: nat -> int, k: int): seq<nat> {
    if s == [] then []
    else if key(s[0]) == k then [s[0]] + Select(s[1..], key, k)
    else Select(s[1..], key, k)
  }

  /** The elements that are not among those gone, in order. */
  function Without(s: seq<nat>, gone: set<nat>): seq<nat> {
    if s == [] then [] else if s[0] in gone then Without(s[1..], gone) else [s[0]] + Without(s[1..], gone)
  }

  lemma {:induction false} SelectAppend(s: seq<nat>, key: nat -> int, k: int, e: nat)
    ensures Select(s + [e], key, k) == if key(e) == k then Select(s, key, k) + [e] else Select(s, key, k)
  {
    if s == [] {
      assert [e][1..] == [] && s + [e] == [e];
    } else {
      SelectAppend(s[1..], key, k, e);
      assert (s + [e])[1..] == s[1..] + [e];
    }
  }

  lemma {:induction false} SelectWithout(s: seq<nat>, key: nat -> int, k: int, gone: set<nat>)
    ensures Select(Without(s, gone), key, k) == Without(Select(s, key, k), gone)
  {
    if s != [] {
      SelectWithout(s[1..], key, k, gone);
      if s[0] !in gone {
        assert ([s[0]] + Without(s[1..], gone))[1..] == Without(s[1..], gone);
        if key(s[0]) == k {
          assert ([s[0]] + Select(s[1..], key, k))[1..] == Select(s[1..], key, k);
        }
      } else if key(s[0]) == k {
        assert ([s[0]] + Select(s[1..], key, k))[1..] == Select(s[1..], key, k);
      }
    }
  }

  lemma {:induction false} WithoutAbsent(s: seq<nat>, e: nat)
    requires e !in s
    ensures Without(s, {e}) == s
  {
    if s != [] {
      WithoutAbsent(s[1..], e);
      assert s == [s[0]] + s[1..];
    }
  }

  /** In a queue, removing the place of an element removes the element. */
  lemma {:induction false} RemovedIsWithout(s: seq<nat>, i: nat)
    requires Distinct(s) && i < |s|
    ensures Removed(s, i) == Without(s, {s[i]})
  {
    if i == 0 {
      WithoutAbsent(s[1..], s[0]);
      assert Removed(s, 0) == s[1..];
    } else {
      RemovedIsWithout(s[1..], i - 1);
      assert s[1..][i - 1] == s[i];
      assert Removed(s, i) == [s[0]] + Removed(s[1..], i - 1);
    }
  }

  /** The first of the selected elements, or null. */
  function Front(s: seq<nat>): nat { if s == [] then NULL else s[0] }

  /** A prefix without key k selects nothing. */
  lemma {:induction false} SelectSkips(s: seq<nat>, key: nat -> int, k: int, i: nat)
    requires i <= |s| && forall j :: 0 <= j < i ==> key(s[j]) != k
    ensures Select(s, key, k) == Select(s[i..], key, k)
  {
    if i > 0 {
      SelectSkips(s[1..], key, k, i - 1);
      assert s[1..][i - 1..] == s[i..];
    }
  }

  // ---------------------------------------------------------------- runs

  datatype Op = Put(e: nat) | Delete(e: nat)

  /** What is entered under key k after a run of inserts and removes. */
  function After(ops: seq<Op>, key: nat -> int, k: int): seq<nat> {
    if ops == [] then [] else
      var before := After(ops[..|ops| - 1], key, k);
      match ops[|ops| - 1]
      case Put(e) => if key(e) == k then before + [e] else before
      case Delete(e) => Without(before, {e})
  }

  /** The element last inserted for key k among those not removed since; null when there is none. The run is
      read from its end: gone holds the elements whose removal has been met. */
  function LatestLeft(ops: seq<Op>, key: nat -> int, k: int, gone: set<nat>): nat {
    if ops == [] then NULL else
      var init := ops[..|ops| - 1];
      match ops[|ops| - 1]
      case Put(e) => if key(e) == k && e !in gone then e else LatestLeft(init, key, k, gone)
      case Delete(e) => LatestLeft(init, key, k, gone + {e})
  }

  function LastPut(ops: seq<Op>, key: nat -> int, k: int): nat { LatestLeft(ops, key, k, {}) }

  function Last(s: seq<nat>): nat { if s == [] then NULL else s[|s| - 1] }

  /** No element is inserted while it is in the table. */
  ghost predicate NoReentry(ops: seq<Op>, key: nat -> int) {
    forall i :: 0 <= i < |ops| && ops[i].Put? ==> ops[i].e !in After(ops[..i], key, key(ops[i].e))
  }

  /** No element is inserted while any element with its key is in the table. */
  ghost predicate UniqueKeys(ops: seq<Op>, key: nat -> int) {
    forall i :: 0 <= i < |ops| && ops[i].Put? ==> After(ops[..i], key, key(ops[i].e)) == []
  }

  lemma {:induction false} WithoutAppend(s: seq<nat>, e: nat, gone: set<nat>)
    ensures Without(s + [e], gone) == if e in gone then Without(s, gone) else Without(s, gone) + [e]
  {
    if s == [] {
      assert [e][1..] == [] && s + [e] == [e];
    } else {
      WithoutAppend(s[1..], e, gone);
      assert (s + [e])[1..] == s[1..] + [e];
    }
  }

  lemma {:induction false} WithoutBoth(s: seq<nat>, a: set<nat>, b: set<nat>)
    ensures Without(Without(s, a), b) == Without(s, b + a)
  {
    if s != [] {
      WithoutBoth(s[1..], a, b);
      assert s[0] !in a ==> Without(s, a)[1..] == Without(s[1..], a);
    }
  }

  lemma {:induction false} WithoutNone(s: seq<nat>)
    ensures Without(s, {}) == s
  {
    if s != [] {
      WithoutNone(s[1..]);
    }
  }

  lemma {:induction false} WithoutDistinct(s: seq<nat>, gone: set<nat>)
    requires Distinct(s)
    ensures Distinct(Without(s, gone)) && forall x :: x in Without(s, gone) ==> x in s
  {
    if s != [] {
      WithoutDistinct(s[1..], gone);
      var rest := Without(s[1..], gone);
      assert forall j :: 0 <= j < |rest| ==> rest[j] in s[1..] && rest[j] != s[0];
    }
  }

  /** Reading the run backwards finds the last of the entries that it leaves. */
  lemma {:induction false} LatestIsLast(ops: seq<Op>, key: nat -> int, k: int, gone: set<nat>)
    ensures LatestLeft(ops, key, k, gone) == Last(Without(After(ops, key, k), gone))
  {
    hide Without;
    if ops != [] {
      var init, op := ops[..|ops| - 1], ops[|ops| - 1];
      var before := After(init, key, k);
      if op.Put? {
        LatestIsLast(init, key, k, gone);
        WithoutAppend(before, op.e, gone);
      } else {
        LatestIsLast(init, key, k, gone + {op.e});
        WithoutBoth(before, {op.e}, gone);
      }
    } else {
      WithoutBoth([], {}, gone);
      NothingLeft(gone);
    }
  }

  lemma NothingLeft(gone: set<nat>)
    ensures Without([], gone) == []
  {
  }

  /** A run that enters no element twice leaves no element twice under a key. */
  lemma {:induction false} EntriesDistinct(ops: seq<Op>, key: nat -> int, k: int)
    requires NoReentry(ops, key)
    ensures Distinct(After(ops, key, k))
  {
    hide Without;
    if ops != [] {
      var n := |ops| - 1;
      assert forall i :: 0 <= i < n ==> ops[..n][..i] == ops[..i];
      EntriesDistinct(ops[..n], key, k);
      if ops[n].Delete? {
        WithoutDistinct(After(ops[..n], key, k), {ops[n].e});
      }
    }
  }

  /** Lookup gives the oldest entry of a key. It is the element last inserted and not removed if and only if the
      key has at most one entry. */
  lemma {:induction false} LookupIsLastPut(ops: seq<Op>, key: nat -> int, k: int)
    requires NoReentry(ops, key)
    ensures Front(After(ops, key, k)) == LastPut(ops, key, k) <==> |After(ops, key, k)| <= 1
  {
    hide After, LatestLeft, NoReentry;
    LatestIsLast(ops, key, k, {});
    WithoutNone(After(ops, key, k));
    EntriesDistinct(ops, key, k);
  }

  /** With unique keys the table is a finite map: each key has at most the element last inserted for it. */
  lemma {:induction false} IsMap(ops: seq<Op>, key: nat -> int, k: int)
    requires UniqueKeys(ops, key)
    ensures After(ops, key, k) == [] || After(ops, key, k) == [LastPut(ops, key, k)]
  {
    AtMostOne(ops, key, k);
    hide *;
    LatestIsLast(ops, key, k, {});
    WithoutNone(After(ops, key, k));
    LastOfOne(After(ops, key, k), LatestLeft(ops, key, k, {}));
    IsLatest(ops, key, k);
  }

  lemma IsLatest(ops: seq<Op>, key: nat -> int, k: int)
    ensures LastPut(ops, key, k) == LatestLeft(ops, key, k, {})
  {
  }

  lemma LastOfOne(s: seq<nat>, x: nat)
    requires |s| <= 1 && x == Last(s)
    ensures s == [] || s == [x]
  {
  }

  lemma {:induction false} AtMostOne(ops: seq<Op>, key: nat -> int, k: int)
    requires UniqueKeys(ops, key)
    ensures |After(ops, key, k)| <= 1
  {
    hide Without;
    if ops != [] {
      var n := |ops| - 1;
      assert forall i :: 0 <= i < n ==> ops[..n][..i] == ops[..i];
      AtMostOne(ops[..n], key, k);
      if ops[n].Delete? {
        WithoutShorter(After(ops[..n], key, k), {ops[n].e});
      }
    }
  }

  lemma {:induction false} WithoutShorter(s: seq<nat>, gone: set<nat>)
    ensures |Without(s, gone)| <= |s|
  {
    if s != [] {
      WithoutShorter(s[1..], gone);
    }
  }

  /** Lookup answers with the last element throughout a run, for every key, if and only if no element is ever
      inserted under a key that is taken. */
  lemma AlwaysLastPut(ops: seq<Op>, key: nat -> int)
    requires NoReentry(ops, key)
    ensures UniqueKeys(ops, key) <==>
      forall i: nat, k :: i <= |ops| ==> Front(After(ops[..i], key, k)) == LastPut(ops[..i], key, k)
  {
    hide After, LastPut, Front;
    forall i: nat, k | i <= |ops|
      ensures NoReentry(ops[..i], key) && (UniqueKeys(ops, key) ==> UniqueKeys(ops[..i], key))
      ensures Front(After(ops[..i], key, k)) == LastPut(ops[..i], key, k) <==> |After(ops[..i], key, k)| <= 1
    {
      assert forall j :: 0 <= j < i ==> ops[..i][..j] == ops[..j];
      LookupIsLastPut(ops[..i], key, k);
    }
    if UniqueKeys(ops, key) {
      forall i: nat, k | i <= |ops| ensures Front(After(ops[..i], key, k)) == LastPut(ops[..i], key, k) {
        AtMostOne(ops[..i], key, k);
      }
    } else {
      var i :| 0 <= i < |ops| && ops[i].Put? && After(ops[..i], key, key(ops[i].e)) != [];
      assert ops[..i + 1] == ops[..i] + [ops[i]];
      AfterPut(ops[..i], ops[i].e, key, key(ops[i].e));
      assert |After(ops[..i + 1], key, key(ops[i].e))| > 1;
    }
  }

  /** With two elements under one key lookup gives the older one. */
  lemma OldestWins(key: nat -> int)
    requires key(1) == key(2)
    ensures Front(After([Put(1), Put(2)], key, key(1))) == 1 && LastPut([Put(1), Put(2)], key, key(1)) == 2
  {
    var ops := [Put(1), Put(2)];
    assert ops[..1] == [Put(1)] && ops[..1][..0] == [];
    assert After(ops[..1], key, key(1)) == [1];
  }

  /** One bucket grew by e. */
  lemma BucketsAfterInsert(items: seq<seq<nat>>, hashfn: int -> nat, key: nat -> int, e: nat, k: int)
    requires hashfn(key(e)) < |items| && hashfn(k) < |items|
    ensures var items' := items[hashfn(key(e)) := items[hashfn(key(e))] + [e]];
      Select(items'[hashfn(k)], key, k) ==
        if k == key(e) then Select(items[hashfn(k)], key, k) + [e] else Select(items[hashfn(k)], key, k)
  {
    SelectAppend(items[hashfn(key(e))], key, k, e);
  }

  /** One bucket lost its element at place i. */
  lemma BucketsAfterDelete(items: seq<seq<nat>>, hashfn: int -> nat, key: nat -> int, i: nat, e: nat, k: int)
    requires hashfn(key(e)) < |items| && hashfn(k) < |items|
    requires forall h :: 0 <= h < |items| && h != hashfn(key(e)) ==> e !in items[h]
    requires var s := items[hashfn(key(e))]; Distinct(s) && i < |s| && s[i] == e
    ensures var h := hashfn(key(e));
      var items' := items[h := Removed(items[h], i)];
      Select(items'[hashfn(k)], key, k) == Without(Select(items[hashfn(k)], key, k), {e})
  {
    var s := items[hashfn(k)];
    SelectWithout(s, key, k, {e});
    if hashfn(k) == hashfn(key(e)) {
      RemovedIsWithout(s, i);
    } else {
      WithoutAbsent(s, e);
    }
  }

  lemma AfterPut(ops: seq<Op>, e: nat, key: nat -> int, k: int)
    ensures After(ops + [Put(e)], key, k) == if key(e) == k then After(ops, key, k) + [e] else After(ops, key, k)
  {
  }

  lemma {:induction false} SelectFrom(s: seq<nat>, key: nat -> int, k: int, e: nat)
    ensures e in Select(s, key, k) ==> e in s
  {
    if s != [] {
      SelectFrom(s[1..], key, k, e);
      assert s == [s[0]] + s[1..];
    }
  }

  lemma NoReentryNext(ops: seq<Op>, op: Op, key: nat -> int)
    requires NoReentry(ops, key) && (op.Put? ==> op.e !in After(ops, key, key(op.e)))
    ensures NoReentry(ops + [op], key)
  {
    hide After;
    var ops' := ops + [op];
    assert forall i :: 0 <= i < |ops| ==> ops'[..i] == ops[..i] && ops'[i] == ops[i];
    assert ops'[..|ops|] == ops;
  }

  lemma AfterDelete(ops: seq<Op>, e: nat, key: nat -> int, k: int)
    ensures After(ops + [Delete(e)], key, k) == Without(After(ops, key, k), {e})
  {
  }

  // ---------------------------------------------------------------- the table

  class Table {
    const queues: Queues
    const hashfn: int -> nat
    const hashkey: nat -> int
    ghost var ops: seq<Op>

    /** HASH_INIT: a table with the given number of empty buckets. */
    constructor (elems: nat, size: nat, hashfn: int -> nat, hashkey: nat -> int)
      requires forall k :: hashfn(k) < size
      ensures Valid() && fresh(queues) && fresh(queues.next) && fresh(queues.prev) && fresh(queues.first) && fresh(queues.last)
      ensures this.hashfn == hashfn && this.hashkey == hashkey && queues.next.Length == elems + 1 && ops == []
      ensures forall e :: !Entered(e)
    {
      this.hashfn, this.hashkey, ops := hashfn, hashkey, [];
      queues := new Queues(elems, size);
    }

    /** Every bucket holds only keys that hash to it, every key's entries are those the run so far leaves, and
        no element was entered twice. */
    ghost predicate Valid()
      reads this, queues, queues.next, queues.prev, queues.first, queues.last
    {
      queues.Valid() && (forall k :: hashfn(k) < |queues.items|) &&
      (forall h, e :: 0 <= h < |queues.items| && e in queues.items[h] ==> hashfn(hashkey(e)) == h) &&
      (forall k :: Select(queues.items[hashfn(k)], hashkey, k) == After(ops, hashkey, k)) && NoReentry(ops, hashkey)
    }

    ghost predicate Entered(e: nat)
      reads queues
    {
      hashfn(hashkey(e)) < |queues.items| && e in queues.items[hashfn(hashkey(e))]
    }

    /** HASH_INSERT. */
    method Insert(key: int, e: nat)
      requires Valid() && key == hashkey(e) && 0 < e < queues.next.Length && !Entered(e)
      modifies this`ops, queues`items, queues.next, queues.prev, queues.first, queues.last
      ensures Valid() && ops == old(ops) + [Put(e)]
      ensures Entered(e) && forall x :: x != e ==> (Entered(x) <==> old(Entered(x)))
    {
      hide Select, Without, After, Queues.Valid, NoReentry;
      var index := hashfn(key);
      ghost var items, ops0 := queues.items, ops;
      SelectFrom(items[index], hashkey, key, e);
      NoReentryNext(ops, Put(e), hashkey);
      queues.InsertTail(index, e);
      ops := ops0 + [Put(e)];
      forall k ensures Select(queues.items[hashfn(k)], hashkey, k) == After(ops, hashkey, k) {
        BucketsAfterInsert(items, hashfn, hashkey, e, k);
        AfterPut(ops0, e, hashkey, k);
      }
    }

    /** HASH_REMOVE. */
    method Remove(key: int, e: nat)
      requires Valid() && key == hashkey(e) && Entered(e)
      modifies this`ops, queues`items, queues.next, queues.prev, queues.first, queues.last
      ensures Valid() && ops == old(ops) + [Delete(e)]
      ensures !Entered(e) && forall x :: x != e ==> (Entered(x) <==> old(Entered(x)))
    {
      hide Select, Without, After, Queues.Valid, NoReentry;
      var index := hashfn(key);
      ghost var items, ops0 := queues.items, ops;
      ghost var i :| 0 <= i < |items[index]| && items[index][i] == e;
      queues.Members(index, i);
      NoReentryNext(ops, Delete(e), hashkey);
      queues.Remove(index, e, i);
      ops := ops0 + [Delete(e)];
      forall k ensures Select(queues.items[hashfn(k)], hashkey, k) == After(ops, hashkey, k) {
        BucketsAfterDelete(items, hashfn, hashkey, i, e, k);
        AfterDelete(ops0, e, hashkey, k);
      }
    }

    /** HASH_LOOKUP: the oldest entry with the key, or null. That is the element last inserted for the key and not
        removed since if and only if the key has at most one entry. */
    method Lookup(key: int) returns (val: nat)
      requires Valid()
      ensures val == Front(After(ops, hashkey, key))
      ensures val == LastPut(ops, hashkey, key) <==> |After(ops, hashkey, key)| <= 1
    {
      hide After, LastPut, NoReentry;
      var index := hashfn(key);
      ghost var s := queues.items[index];
      forall j: nat | j < |s| ensures s[j] != NULL {
        assert LinksOk(queues.next[..], queues.prev[..], s, j);
      }
      val := queues.first[index];
      ghost var i := 0;
      while val != NULL
        invariant i <= |s| && val == At(s, i) && forall j :: 0 <= j < i ==> hashkey(s[j]) != key
        decreases |s| - i
      {
        assert LinksOk(queues.next[..], queues.prev[..], s, i);
        if Compare(key, hashkey(val)) == 0 {
          break;
        }
        val := queues.next[val];
        i := i + 1;
      }
      SelectSkips(s, hashkey, key, i);
      assert i < |s| ==> s[i..][0] == s[i];
      LookupIsLastPut(ops, hashkey, key);
    }
  }
}
