/** Whole runs of allocating and freeing on the List Memory Manager. */
module LmmRuns {
  import opened FreeList
  import opened LmmRegion
  import opened Lmm

  /** A block in use: size bytes at addr, in region k. It holds the granules that enclose it. */
  datatype Chunk = Chunk(k: nat, addr: nat, size: nat) {
    function Lo(): nat { Down(addr) }
    function Hi(): nat { Up(addr + size) }
  }

  ghost predicate Holds(c: Chunk, k: nat, x: int) {
    c.k == k && c.Lo() <= x < c.Hi()
  }

  ghost predicate HeldBySome(live: set<Chunk>, k: nat, x: int) {
    exists c :: c in live && Holds(c, k, x)
  }

  ghost predicate SameShape(v: seq<RegionView>, w: seq<RegionView>) {
    |v| == |w| && forall k :: 0 <= k < |v| ==> v[k] == w[k].(blocks := v[k].blocks)
  }

  /** The bytes that were free at first are, each exactly once, free now or held by a live chunk. */
  ghost predicate Accounts(v0: seq<RegionView>, v: seq<RegionView>, live: set<Chunk>) {
    SameShape(v, v0) &&
    (forall c :: c in live ==> c.k < |v| && c.size > 0 && 0 < c.Lo()) &&
    (forall c, d :: c in live && d in live && c != d && c.k == d.k ==> c.Hi() <= d.Lo() || d.Hi() <= c.Lo()) &&
    (forall c :: c in live ==> Disjoint(v[c.k].blocks, c.Lo(), c.Hi())) &&
    (forall k, x: int :: 0 <= k < |v| ==>
      (Covers(v0[k].blocks, x) <==> Covers(v[k].blocks, x) || HeldBySome(live, k, x)))
  }

  lemma AccountsStart(v: seq<RegionView>)
    ensures Accounts(v, v, {})
  {
  }

  lemma ChunkNotEmpty(c: Chunk)
    requires c.size > 0
    ensures c.Lo() <= c.addr < c.addr + c.size <= c.Hi() && c.Lo() % GRAIN == 0 && c.Hi() % GRAIN == 0
  {
  }

  /** A free range and a range in use do not overlap. */
  lemma FreeAndUsedApart(s: seq<Block>, a: nat, b: nat, c: nat, d: nat)
    requires a < b && c < d && (forall x: int :: a <= x < b ==> Covers(s, x)) && Disjoint(s, c, d)
    ensures b <= c || d <= a
  {
    if a < d && c < b {
      var x := if a < c then c else a;
      var free := Covers(s, x);
    }
  }

  /** An allocation moves its granules from the free ones to a new live chunk. */
  lemma AccountsTaken(v0: seq<RegionView>, v: seq<RegionView>, v': seq<RegionView>, live: set<Chunk>, c: Chunk)
    requires Accounts(v0, v, live) && Taken(v, v', c.k, c.Lo(), c.Hi()) && c.size > 0 && 0 < c.Lo()
    ensures c !in live && Accounts(v0, v', live + {c})
  {
    ChunkNotEmpty(c);
    if c in live {
      FreeAndUsedApart(v[c.k].blocks, c.Lo(), c.Hi(), c.Lo(), c.Hi());
    }
    forall d | d in live && d.k == c.k ensures c.Hi() <= d.Lo() || d.Hi() <= c.Lo() {
      ChunkNotEmpty(d);
      FreeAndUsedApart(v[c.k].blocks, c.Lo(), c.Hi(), d.Lo(), d.Hi());
    }
    hide Down, Up;
    var live' := live + {c};
    forall k, x: int | 0 <= k < |v|
      ensures Covers(v0[k].blocks, x) <==> Covers(v'[k].blocks, x) || HeldBySome(live', k, x)
    {
      HeldByMore(live, c, k, x);
    }
  }

  lemma HeldByMore(live: set<Chunk>, c: Chunk, k: nat, x: int)
    ensures HeldBySome(live + {c}, k, x) <==> HeldBySome(live, k, x) || Holds(c, k, x)
  {
  }

  /** Freeing a live chunk moves its granules back. */
  lemma AccountsGiven(v0: seq<RegionView>, v: seq<RegionView>, v': seq<RegionView>, live: set<Chunk>, c: Chunk)
    requires Accounts(v0, v, live) && c in live && Given(v, v', c.k, c.Lo(), c.Hi())
    ensures Accounts(v0, v', live - {c})
  {
    var rest := live - {c};
    assert rest + {c} == live;
    ChunkNotEmpty(c);
    hide Down, Up;
    forall d | d in rest ensures Disjoint(v'[d.k].blocks, d.Lo(), d.Hi()) {
      assert d != c;
    }
    forall k, x: int | 0 <= k < |v|
      ensures Covers(v0[k].blocks, x) <==> Covers(v'[k].blocks, x) || HeldBySome(rest, k, x)
    {
      HeldByMore(rest, c, k, x);
    }
  }

  /** A live chunk may be freed: its granules lie in its region and none of them is free. */
  lemma LiveCanBeFreed(v0: seq<RegionView>, v: seq<RegionView>, limit: nat, live: set<Chunk>, c: Chunk)
    requires SystemSound(v0, limit) && Accounts(v0, v, live) && c in live
    ensures c.k < |v| && v[c.k].min <= c.Lo() && c.Hi() <= v[c.k].max && Disjoint(v[c.k].blocks, c.Lo(), c.Hi())
  {
    ChunkNotEmpty(c);
    assert Holds(c, c.k, c.Lo()) && Holds(c, c.k, c.Hi() - 1);
    assert Covers(v0[c.k].blocks, c.Lo()) && Covers(v0[c.k].blocks, c.Hi() - 1);
    CoveredInBounds(v0[c.k], c.Lo());
    CoveredInBounds(v0[c.k], c.Hi() - 1);
  }

  /** The free lists are determined by what is in use, whatever was allocated and freed to get there. */
  lemma LiveDetermines(v0: seq<RegionView>, v: seq<RegionView>, w: seq<RegionView>, limit: nat, live: set<Chunk>)
    requires SystemSound(v, limit) && SystemSound(w, limit)
    requires Accounts(v0, v, live) && Accounts(v0, w, live)
    ensures v == w
  {
    forall k | 0 <= k < |v| ensures v[k] == w[k] {
      RegionInSystem(v, limit, k);
      RegionInSystem(w, limit, k);
      forall x: int ensures Covers(v[k].blocks, x) <==> Covers(w[k].blocks, x) {
        FreeIsNotHeld(v0, v, live, k, x);
        FreeIsNotHeld(v0, w, live, k, x);
      }
      Canonical(v[k].blocks, w[k].blocks);
    }
  }

  lemma FreeIsNotHeld(v0: seq<RegionView>, v: seq<RegionView>, live: set<Chunk>, k: nat, x: int)
    requires Accounts(v0, v, live) && k < |v|
    ensures Covers(v[k].blocks, x) <==> Covers(v0[k].blocks, x) && !HeldBySome(live, k, x)
  {
  }

  /** No byte of a live chunk's granules is free anywhere. */
  lemma LiveNotFree(v0: seq<RegionView>, v: seq<RegionView>, limit: nat, live: set<Chunk>, c: Chunk)
    requires SystemSound(v0, limit) && SystemSound(v, limit) && Accounts(v0, v, live) && c in live
    ensures forall x: int :: c.Lo() <= x < c.Hi() ==> !Free(v, x)
  {
    LiveCanBeFreed(v0, v, limit, live, c);
    hide Accounts, Down, Up;
    forall x: int | c.Lo() <= x < c.Hi() ensures !Free(v, x) {
      forall k | 0 <= k < |v| ensures !Covers(v[k].blocks, x) {
        if k != c.k && Covers(v[k].blocks, x) {
          SoundPair(v, limit, k, c.k);
          CoveredInBounds(v[k], x);
        }
      }
    }
  }

  /** The granules of two live chunks do not overlap. */
  lemma ChunksApart(v0: seq<RegionView>, v: seq<RegionView>, limit: nat, live: set<Chunk>, c: Chunk, d: Chunk)
    requires SystemSound(v0, limit) && SystemSound(v, limit) && Accounts(v0, v, live) && c in live && d in live && c != d
    ensures c.Hi() <= d.Lo() || d.Hi() <= c.Lo()
  {
    LiveCanBeFreed(v0, v, limit, live, c);
    LiveCanBeFreed(v0, v, limit, live, d);
    if c.k != d.k {
      SoundPair(v, limit, c.k, d.k);
    }
  }

  // ---------------------------------------------------------------- runs

  datatype State = State(view: seq<RegionView>, live: set<Chunk>)

  /** One call: an allocation that gives a new chunk, or the freeing of a live one. */
  ghost predicate Step(s: State, t: State, limit: nat) {
    SystemSound(t.view, limit) &&
    exists c: Chunk ::
      (c.size > 0 && 0 < c.Lo() && Taken(s.view, t.view, c.k, c.Lo(), c.Hi()) && t.live == s.live + {c}) ||
      (c in s.live && Given(s.view, t.view, c.k, c.Lo(), c.Hi()) && t.live == s.live - {c})
  }

  ghost predicate Run(r: seq<State>, limit: nat) {
    r != [] && SystemSound(r[0].view, limit) && r[0].live == {} &&
    forall i :: 0 <= i < |r| - 1 ==> Step(r[i], r[i + 1], limit)
  }

  lemma {:induction false} RunAccounts(r: seq<State>, limit: nat, i: nat)
    requires Run(r, limit) && i < |r|
    ensures SystemSound(r[i].view, limit) && Accounts(r[0].view, r[i].view, r[i].live)
  {
    if i == 0 {
      AccountsStart(r[0].view);
    } else {
      RunAccounts(r, limit, i - 1);
      StepAccounts(r[0].view, r[i - 1], r[i], limit);
    }
  }

  lemma StepAccounts(v0: seq<RegionView>, s: State, t: State, limit: nat)
    requires Accounts(v0, s.view, s.live) && Step(s, t, limit)
    ensures SystemSound(t.view, limit) && Accounts(v0, t.view, t.live)
  {
    hide Accounts, Taken, Given, SystemSound, Chunk.Lo, Chunk.Hi;
    var c: Chunk :|
      (c.size > 0 && 0 < c.Lo() && Taken(s.view, t.view, c.k, c.Lo(), c.Hi()) && t.live == s.live + {c}) ||
      (c in s.live && Given(s.view, t.view, c.k, c.Lo(), c.Hi()) && t.live == s.live - {c});
    if c in s.live && Given(s.view, t.view, c.k, c.Lo(), c.Hi()) && t.live == s.live - {c} {
      AccountsGiven(v0, s.view, t.view, s.live, c);
    } else {
      AccountsTaken(v0, s.view, t.view, s.live, c);
    }
  }

  /** Two moments of a run at which the same chunks are live have exactly the same free lists. In
      particular freeing everything, in any order, restores the lists the run began with. */
  lemma SameLiveSameLists(r: seq<State>, limit: nat, i: nat, j: nat)
    requires Run(r, limit) && i < |r| && j < |r| && r[i].live == r[j].live
    ensures r[i].view == r[j].view
  {
    RunAccounts(r, limit, i);
    RunAccounts(r, limit, j);
    LiveDetermines(r[0].view, r[i].view, r[j].view, limit, r[i].live);
  }

  lemma FreeingAllRestores(r: seq<State>, limit: nat)
    requires Run(r, limit) && r[|r| - 1].live == {}
    ensures r[|r| - 1].view == r[0].view
  {
    SameLiveSameLists(r, limit, 0, |r| - 1);
  }

  /** Live chunks of a run never overlap one another, nor free memory. */
  lemma LiveApart(r: seq<State>, limit: nat, i: nat, c: Chunk, d: Chunk)
    requires Run(r, limit) && i < |r| && c in r[i].live && d in r[i].live && c != d
    ensures c.addr + c.size <= d.addr || d.addr + d.size <= c.addr
    ensures forall x: int :: c.addr <= x < c.addr + c.size ==> !Free(r[i].view, x)
  {
    RunAccounts(r, limit, i);
    LiveNotFree(r[0].view, r[i].view, limit, r[i].live, c);
    ChunksApart(r[0].view, r[i].view, limit, r[i].live, c, d);
    LiveSize(r[0].view, r[i].view, r[i].live, c);
    LiveSize(r[0].view, r[i].view, r[i].live, d);
  }

  lemma LiveSize(v0: seq<RegionView>, v: seq<RegionView>, live: set<Chunk>, c: Chunk)
    requires Accounts(v0, v, live) && c in live
    ensures c.k < |v| && c.size > 0 && 0 < c.Lo() <= c.addr && c.addr + c.size <= c.Hi()
  {
  }
}
