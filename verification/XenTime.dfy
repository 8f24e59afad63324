/** The versioned read of the time fields that the hypervisor keeps in shared memory (kern/xen_time.c).
    The writer is not part of the repository; its protocol, as kern/inc/xen/xen.h describes it, is the
    explicit assumption WriterRun. */
module XenTime {

  const VERSIONS: nat := 0x1_0000_0000

  /** Shared memory: how often the version has been increased, and the field words. */
  datatype Shared = Shared(count: nat, words: seq<int>) {
    /** The version word that a load sees. */
    function Version(): nat { count % VERSIONS }
  }

  /** One step of the world: the writer makes the version odd, stores a word while it is odd, or makes it
      even again; or someone else runs. */
  ghost predicate WriterStep(s: Shared, t: Shared) {
    t == s || (t == Shared(s.count + 1, s.words)) ||
    (s.count % 2 == 1 && t.count == s.count && |t.words| == |s.words|)
  }

  ghost predicate WriterRun(run: seq<Shared>, n: nat) {
    |run| > 0 && |run[0].words| == n && forall i: nat :: i + 1 < |run| ==> WriterStepAt(run, i)
  }

  ghost predicate WriterStepAt(run: seq<Shared>, i: nat)
    requires i + 1 < |run|
  {
    WriterStep(run[i], run[i + 1])
  }

  /** The moments of the run at which the reader's loads take place, in program order. */
  ghost predicate Schedule(run: seq<Shared>, times: seq<nat>) {
    (forall i, j :: 0 <= i <= j < |times| ==> times[i] <= times[j]) && forall i :: 0 <= i < |times| ==> times[i] < |run|
  }

  /** No version word comes back while one pass of n + 3 loads goes on. */
  ghost predicate NoRepeat(run: seq<Shared>, times: seq<nat>, n: nat)
    requires Schedule(run, times)
  {
    forall k: nat, l: nat :: k <= l < |times| && l <= k + n + 2 ==> Near(run, times, k, l)
  }

  ghost predicate Near(run: seq<Shared>, times: seq<nat>, k: nat, l: nat)
    requires Schedule(run, times) && k <= l < |times|
  {
    run[times[l]].count < run[times[k]].count + VERSIONS
  }

  lemma {:induction false} CountGrows(run: seq<Shared>, n: nat, i: nat, j: nat)
    requires WriterRun(run, n) && i <= j < |run|
    ensures run[i].count <= run[j].count && |run[j].words| == n
    decreases j
  {
    if j > 0 {
      assert WriterStepAt(run, j - 1);
      CountGrows(run, n, if i < j then i else j - 1, j - 1);
    }
  }

  /** While the count stays at one even value, no word changes. */
  lemma {:induction false} EvenIsStable(run: seq<Shared>, n: nat, i: nat, j: nat)
    requires WriterRun(run, n) && i <= j < |run| && run[i].count == run[j].count && run[i].count % 2 == 0
    ensures run[i] == run[j]
  {
    if i < j {
      CountGrows(run, n, i, j - 1);
      CountGrows(run, n, j - 1, j);
      EvenIsStable(run, n, i, j - 1);
      assert WriterStepAt(run, j - 1);
    }
  }

  /** Equal version words less than 2^32 increments apart mean equal counts. */
  lemma SameVersion(a: nat, b: nat)
    requires a <= b < a + VERSIONS && a % VERSIONS == b % VERSIONS
    ensures a == b
  {
  }

  lemma Parity(a: nat)
    ensures (a % VERSIONS) % 2 == a % 2
  {
  }

  /** The two loads of the version in the loop's test: the operands of | may be loaded in either order. */
  datatype Order = ParityFirst | CompareFirst

  /** The words were in shared memory together, under one even version, while the reader's pass from load k on
      was under way. */
  ghost predicate Published(run: seq<Shared>, times: seq<nat>, n: nat, k: nat, version: nat, words: seq<int>)
    requires Schedule(run, times)
  {
    k + n + 2 < |times| && exists j: nat :: times[k] <= j <= times[k + n + 2] && j < |run| && Shows(run[j], version, words)
  }

  ghost predicate Shows(s: Shared, version: nat, words: seq<int>) {
    s.count % 2 == 0 && s.Version() == version && s.words == words
  }

  function ParityLoad(order: Order, k: nat, n: nat): nat { if order == ParityFirst then k + n + 1 else k + n + 2 }

  function CompareLoad(order: Order, k: nat, n: nat): nat { if order == ParityFirst then k + n + 2 else k + n + 1 }

  /** Word i is what its load in the pass from load k on saw. */
  ghost predicate Loaded(run: seq<Shared>, times: seq<nat>, k: nat, i: nat, words: seq<int>)
    requires Schedule(run, times)
  {
    k + 1 + i < |times| && i < |words| && i < |run[times[k + 1 + i]].words| && words[i] == run[times[k + 1 + i]].words[i]
  }

  /** A pass from load k on that ended the loop: the version, each word in turn, and a test that let it end. */
  ghost predicate Finished(run: seq<Shared>, times: seq<nat>, n: nat, k: nat, order: Order, version: nat,
      words: seq<int>)
    requires Schedule(run, times)
  {
    k + n + 2 < |times| && |words| == n && version == run[times[k]].Version() &&
    (forall i: nat :: i < n ==> Loaded(run, times, k, i, words)) &&
    run[times[ParityLoad(order, k, n)]].Version() % 2 == 0 && run[times[CompareLoad(order, k, n)]].Version() == version
  }

  /** With the parity loaded first, a pass that ends has read an even version. */
  lemma ParityFirstIsEven(run: seq<Shared>, times: seq<nat>, n: nat, k: nat, version: nat, words: seq<int>)
    requires WriterRun(run, n) && Schedule(run, times) && NoRepeat(run, times, n)
    requires Finished(run, times, n, k, ParityFirst, version, words)
    ensures version % 2 == 0
  {
    var t0, ta, tb := times[k], times[k + n + 1], times[k + n + 2];
    CountGrows(run, n, t0, ta);
    CountGrows(run, n, ta, tb);
    Parity(run[t0].count);
    Parity(run[ta].count);
    assert Near(run, times, k, k + n + 2);
    SameVersion(run[t0].count, run[tb].count);
  }

  /** A finished pass has words that were published together under the version it read if and only if that
      version is even, for every interleaving. */
  lemma FinishedIff(run: seq<Shared>, times: seq<nat>, n: nat, k: nat, order: Order, version: nat, words: seq<int>)
    requires WriterRun(run, n) && Schedule(run, times) && NoRepeat(run, times, n)
    requires Finished(run, times, n, k, order, version, words)
    ensures Published(run, times, n, k, version, words) <==> version % 2 == 0
  {
    var t0, tc := times[k], times[CompareLoad(order, k, n)];
    Parity(run[t0].count);
    CountGrows(run, n, t0, tc);
    assert Near(run, times, k, CompareLoad(order, k, n));
    SameVersion(run[t0].count, run[tc].count);
    if version % 2 == 0 {
      CountGrows(run, n, t0, t0);
      forall i: nat | i < n ensures words[i] == run[t0].words[i] {
        assert Loaded(run, times, k, i, words);
        LoadInWindow(run, times, n, k, i, order, words);
      }
      assert words == run[t0].words;
      assert Shows(run[t0], version, words);
    } else {
      forall j: nat | j < |run| ensures !Shows(run[j], version, words) {
        Parity(run[j].count);
      }
    }
  }

  lemma LoadInWindow(run: seq<Shared>, times: seq<nat>, n: nat, k: nat, i: nat, order: Order, words: seq<int>)
    requires WriterRun(run, n) && Schedule(run, times) && i < n && k + n + 2 < |times|
    requires Loaded(run, times, k, i, words) && run[times[k]].count % 2 == 0
    requires run[times[CompareLoad(order, k, n)]].count == run[times[k]].count
    ensures |run[times[k]].words| == n && words[i] == run[times[k]].words[i]
  {
    var t0, ti, tc := times[k], times[k + 1 + i], times[CompareLoad(order, k, n)];
    CountGrows(run, n, t0, ti);
    CountGrows(run, n, ti, tc);
    EvenIsStable(run, n, t0, ti);
  }

  lemma StillLoaded(run: seq<Shared>, times: seq<nat>, k: nat, i: nat, before: seq<int>, words: seq<int>)
    requires Schedule(run, times) && forall j: nat :: j < i ==> Loaded(run, times, k, j, before)
    requires k + 1 + i < |times| && i < |before| && i < |run[times[k + 1 + i]].words|
    requires words == before[i := run[times[k + 1 + i]].words[i]]
    ensures forall j: nat :: j <= i ==> Loaded(run, times, k, j, words)
  {
    forall j: nat | j <= i ensures Loaded(run, times, k, j, words) {
      if j < i {
        assert Loaded(run, times, k, j, before);
      }
    }
  }

  /** The first load of pass number m; each pass has n + 3. */
  function PassStart(m: nat, n: nat): nat { m * (n + 3) }

  lemma PassesInOrder(m: nat, j: nat, n: nat)
    ensures PassStart(m + 1, n) == PassStart(m, n) + n + 3
    ensures j >= m ==> PassStart(j, n) >= PassStart(m, n)
    ensures PassStart(0, n) == 0
  {
    if j >= m {
      assert (j - m) * (n + 3) >= 0;
    }
  }

  /** The pass from load k on lies within the schedule, and the writer was at rest at its load for the parity and,
      as far as the version word tells, where it was at the first load when the comparison was loaded. */
  ghost predicate Ends(run: seq<Shared>, times: seq<nat>, n: nat, order: Order, k: nat)
    requires Schedule(run, times)
  {
    k + n + 2 < |times| && run[times[ParityLoad(order, k, n)]].count % 2 == 0 &&
    run[times[CompareLoad(order, k, n)]].count % VERSIONS == run[times[k]].count % VERSIONS
  }

  /** A pass during which the writer stays at rest ends the loop, in either load order. */
  lemma SteadyEnds(run: seq<Shared>, times: seq<nat>, n: nat, order: Order, k: nat, c: nat)
    requires Schedule(run, times) && k + n + 2 < |times| && c % 2 == 0
    requires forall i :: k <= i <= k + n + 2 ==> run[times[i]].count == c
    ensures Ends(run, times, n, order, k)
  {
  }

  lemma NoLaterPass(run: seq<Shared>, times: seq<nat>, n: nat, order: Order, m: nat)
    requires Schedule(run, times) && PassStart(m, n) + n + 2 >= |times|
    ensures forall j: nat :: j >= m ==> !Ends(run, times, n, order, PassStart(j, n))
  {
    forall j: nat | j >= m ensures !Ends(run, times, n, order, PassStart(j, n)) {
      PassesInOrder(m, j, n);
    }
  }

  /** The shadow copies that the reader keeps: four time values for the clock, two for the wall clock. */
  class Shadow {
    var version: nat
    const copy: array<int>
    var usecMul: int

    constructor (n: nat)
      ensures copy.Length == n && fresh(copy)
    {
      copy := new int[n];
      version, usecMul := 0, 0;
    }

    /** The retry loop of get_time_values_from_xen and update_wallclock, against any run of the writer and
        any schedule of the reader's loads: it ends with the first pass, number m, whose test lets it end. When the
        schedule has no such pass, it ends with the schedule and ok false. */
    method Refresh(run: seq<Shared>, times: seq<nat>, order: Order) returns (ok: bool, k: nat, ghost m: nat)
      requires WriterRun(run, copy.Length) && Schedule(run, times) && NoRepeat(run, times, copy.Length)
      modifies this`version, copy
      ensures ok ==> k == PassStart(m, copy.Length) && Ends(run, times, copy.Length, order, k)
      ensures forall j: nat :: !ok || j < m ==> !Ends(run, times, copy.Length, order, PassStart(j, copy.Length))
      ensures ok ==> Finished(run, times, copy.Length, k, order, version, copy[..])
      ensures ok ==> (Published(run, times, copy.Length, k, version, copy[..]) <==> version % 2 == 0)
      ensures ok && order == ParityFirst ==> Published(run, times, copy.Length, k, version, copy[..])
    {
      hide NoRepeat, WriterRun, Loaded, Published, PassStart;
      var n := copy.Length;
      var pos := 0;
      m := 0;
      PassesInOrder(0, 0, n);
      while pos + n + 2 < |times|
        invariant 0 <= pos == PassStart(m, n)
        invariant forall j: nat :: j < m ==> !Ends(run, times, n, order, PassStart(j, n))
        decreases |times| - pos
      {
        k := pos;
        version := run[times[k]].Version();
        var i := 0;
        while i < n
          invariant i <= n && version == run[times[k]].Version()
          invariant forall j: nat :: j < i ==> Loaded(run, times, k, j, copy[..])
        {
          CountGrows(run, n, 0, times[k + 1 + i]);
          ghost var before := copy[..];
          copy[i] := run[times[k + 1 + i]].words[i];
          StillLoaded(run, times, k, i, before, copy[..]);
          i := i + 1;
        }
        var parity := run[times[ParityLoad(order, k, n)]].Version();
        var compare := run[times[CompareLoad(order, k, n)]].Version();
        Parity(run[times[ParityLoad(order, k, n)]].count);
        if parity % 2 == 0 && version == compare {
          FinishedIff(run, times, n, k, order, version, copy[..]);
          if order == ParityFirst {
            ParityFirstIsEven(run, times, n, k, version, copy[..]);
          }
          return true, k, m;
        }
        PassesInOrder(m, m, n);
        m := m + 1;
        pos := pos + n + 3;
      }
      NoLaterPass(run, times, n, order, m);
      return false, 0, m;
    }

    /** get_time_values_from_xen. The six words are both halves of the time stamp and of the system time, the
        multiplier and the shift; the multiplier for microseconds is derived from the copy. */
    method GetTimeValues(run: seq<Shared>, times: seq<nat>, order: Order) returns (ok: bool, k: nat, ghost m: nat)
      requires copy.Length == 6 && WriterRun(run, 6) && Schedule(run, times) && NoRepeat(run, times, 6)
      modifies this, copy
      ensures ok ==> k == PassStart(m, 6) && Ends(run, times, 6, order, k)
      ensures forall j: nat :: !ok || j < m ==> !Ends(run, times, 6, order, PassStart(j, 6))
      ensures ok ==> Finished(run, times, 6, k, order, version, copy[..]) && usecMul == copy[4] / 1000
      ensures ok ==> (Published(run, times, 6, k, version, copy[..]) <==> version % 2 == 0)
      ensures ok && order == ParityFirst ==> Published(run, times, 6, k, version, copy[..])
    {
      hide NoRepeat, WriterRun, Finished, Published, Ends, PassStart;
      ok, k, m := Refresh(run, times, order);
      if ok {
        usecMul := copy[4] / 1000;
      }
    }
  }

  // ---------------------------------------------------------------- the load order decides

  /** A finished pass of some run and some schedule. */
  ghost predicate PassOf(run: seq<Shared>, times: seq<nat>, n: nat, k: nat, order: Order, version: nat,
      words: seq<int>)
  {
    WriterRun(run, n) && Schedule(run, times) && NoRepeat(run, times, n) &&
    Finished(run, times, n, k, order, version, words)
  }

  /** Whatever the interleaving, a pass that ends has words that were published together. */
  ghost predicate AlwaysPublished(n: nat, order: Order) {
    forall run, times, k, version, words ::
      PassOf(run, times, n, k, order, version, words) ==> Published(run, times, n, k, version, words)
  }

  /** The reader can rely on its copy if and only if the version is loaded for the parity before it is loaded for
      the comparison; the source leaves that order to the compiler. */
  lemma OrderDecides(n: nat, order: Order)
    ensures AlwaysPublished(n, order) <==> order == ParityFirst
  {
    hide WriterRun, Schedule, NoRepeat, Finished, Published;
    if order == ParityFirst {
      forall run, times, k, version, words | PassOf(run, times, n, k, order, version, words)
        ensures Published(run, times, n, k, version, words)
      {
        ParityFirstIsEven(run, times, n, k, version, words);
        FinishedIff(run, times, n, k, order, version, words);
      }
    } else {
      TornPass(n);
      FinishedIff(TornRun(n), TornTimes(n), n, 0, order, 1, Torn(n));
    }
  }

  /** The first of n words has been updated. */
  function Torn(n: nat): seq<int> { seq(n, i => if i == 0 then 1 else 0) }

  function All(n: nat, x: int): seq<int> { seq(n, _ => x) }

  /** One update of all n words from 0 to 1. */
  function TornRun(n: nat): seq<Shared> {
    [Shared(0, All(n, 0)), Shared(1, All(n, 0)), Shared(1, Torn(n)), Shared(1, All(n, 1)), Shared(2, All(n, 1))]
  }

  /** All loads fall in the middle of the update, except the last. */
  function TornTimes(n: nat): seq<nat> { seq(n + 3, i => if i == n + 2 then 4 else 2) }

  lemma TornPass(n: nat)
    ensures PassOf(TornRun(n), TornTimes(n), n, 0, CompareFirst, 1, Torn(n))
  {
    var run, times := TornRun(n), TornTimes(n);
    forall i: nat | i + 1 < |run| ensures WriterStepAt(run, i) {
    }
    forall i: nat | i < n ensures Loaded(run, times, 0, i, Torn(n)) {
    }
  }

  /** With the version loaded for the comparison first, a pass over two or more words can end with an odd version and
      with words that never were in memory under an even one. */
  lemma TornRead(n: nat)
    requires n >= 2
    ensures PassOf(TornRun(n), TornTimes(n), n, 0, CompareFirst, 1, Torn(n))
    ensures forall s :: s in TornRun(n) && s.count % 2 == 0 ==> s.words != Torn(n)
  {
    TornPass(n);
    assert Torn(n)[0] == 1 && Torn(n)[1] == 0 && All(n, 0)[0] == 0 && All(n, 1)[1] == 1;
  }

  /** A writer that updates two equal words over and over: four steps to an update. */
  function Update(q: nat, r: nat): Shared
    requires r < 4
  {
    if r == 0 then Shared(2 * q, [q, q])
    else Shared(2 * q + 1, [if r == 1 then q else q + 1, if r == 3 then q + 1 else q])
  }

  function Updates(i: nat): Shared { Update(i / 4, i % 4) }

  lemma UpdatesStep(i: nat)
    ensures WriterStep(Updates(i), Updates(i + 1)) && |Updates(i).words| == 2
    ensures Updates(i).count % 2 == 0 ==> Updates(i).words[0] == Updates(i).words[1]
  {
  }

  /** The bound in NoRepeat is exact: after 2^32 increments within one pass the version word is back, and
      the pass ends with words from two different updates. */
  lemma WrapsAround()
    ensures var last := 4 * (VERSIONS / 2);
      var run, times := seq(last + 1, i requires 0 <= i => Updates(i)), [0, 0, last, last, last];
      WriterRun(run, 2) && Schedule(run, times) && run[last].count == run[0].count + VERSIONS &&
      Finished(run, times, 2, 0, ParityFirst, 0, [0, VERSIONS / 2]) &&
      forall j :: 0 <= j < |run| ==> run[j].count % 2 == 0 ==> run[j].words != [0, VERSIONS / 2]
  {
    var last := 4 * (VERSIONS / 2);
    var run, times := seq(last + 1, i requires 0 <= i => Updates(i)), [0, 0, last, last, last];
    forall i: nat | i + 1 < |run| ensures WriterStepAt(run, i) {
      UpdatesStep(i);
    }
    assert last / 4 == VERSIONS / 2 && last % 4 == 0;
    assert run[0] == Updates(0) && run[last] == Updates(last);
    assert Loaded(run, times, 0, 0, [0, VERSIONS / 2]) && Loaded(run, times, 0, 1, [0, VERSIONS / 2]);
    forall j | 0 <= j < |run| && run[j].count % 2 == 0 ensures run[j].words != [0, VERSIONS / 2] {
      UpdatesStep(j);
    }
  }
}
