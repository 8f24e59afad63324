/** One memory region of the List Memory Manager: its free list threaded through the free memory
    itself (410kern/lmm). Memory is an array with a cell for every byte address; a word is kept in
    the cell of its first byte. A list node at address a keeps its link at a and its size at a + 4. */
module LmmRegion {
  import opened FreeList

  const NEXT: nat := 0
  const SIZE: nat := 4

  lemma Layout()
    ensures NEXT == 0 && SIZE == 4 && GRAIN == 8
  {
  }

  function AddrAt(s: seq<Block>, i: nat): nat {
    if i < |s| then s[i].addr else 0
  }

  ghost predicate NodeAt(m: seq<nat>, a: nat, next: nat, size: nat) {
    a + GRAIN <= |m| && m[a + NEXT] == next && m[a + SIZE] == size
  }

  /** Block j of s has its own node, linked to the next block's. */
  ghost predicate Node(m: seq<nat>, s: seq<Block>, j: nat) {
    j < |s| && NodeAt(m, s[j].addr, AddrAt(s, j + 1), s[j].size)
  }

  /** The words of memory m hold the list s, whose first node is at head. */
  ghost predicate Linked(m: seq<nat>, head: nat, s: seq<Block>) {
    head == AddrAt(s, 0) && forall j :: 0 <= j < |s| ==> Node(m, s, j)
  }

  lemma NodeRoom(s: seq<Block>, i: nat)
    requires Ordered(s) && i < |s|
    ensures s[i].addr > 0 && s[i].size >= GRAIN
  {
  }

  lemma NodesApart(s: seq<Block>, i: nat, j: nat)
    requires Ordered(s) && i < |s| && j < |s| && i != j
    ensures s[j].addr + GRAIN <= s[i].addr || s[i].End() <= s[j].addr
  {
  }

  /** The list depends only on the memory it covers. */
  lemma LinkedFrame(m: seq<nat>, m': seq<nat>, head: nat, s: seq<Block>)
    requires Linked(m, head, s) && Ordered(s) && |m| == |m'|
    requires forall x :: 0 <= x < |m| && Covers(s, x) ==> m'[x] == m[x]
    ensures Linked(m', head, s)
  {
    forall j | 0 <= j < |s| ensures Node(m', s, j) {
      assert Node(m, s, j);
      NodeRoom(s, j);
      InsideCovers(s, j, s[j].addr + NEXT);
      InsideCovers(s, j, s[j].addr + SIZE);
    }
  }

  // ---------------------------------------------------------------- carving a node

  /** Halfway through carving block i at lo: the part from lo on is a node of its own, and the part
      before lo, if any, has its new size but no link yet. */
  ghost predicate Cut(m: seq<nat>, s: seq<Block>, i: nat, lo: nat) {
    i < |s| && s[i].addr <= lo < s[i].End() &&
    (forall j :: 0 <= j < |s| && j != i ==> Node(m, s, j)) &&
    NodeAt(m, lo, AddrAt(s, i + 1), s[i].End() - lo) &&
    (lo > s[i].addr ==> s[i].addr + GRAIN <= |m| && m[s[i].addr + SIZE] == lo - s[i].addr)
  }

  lemma CutNothing(m: seq<nat>, head: nat, s: seq<Block>, i: nat)
    requires Linked(m, head, s) && Ordered(s) && i < |s|
    ensures Cut(m, s, i, s[i].addr)
  {
    NodeRoom(s, i);
    assert Node(m, s, i);
  }

  lemma GranuleStep(a: nat, b: nat)
    requires a < b && a % GRAIN == 0 && b % GRAIN == 0
    ensures a + GRAIN <= b
  {
  }

  lemma EndOnGranule(s: seq<Block>, i: nat)
    requires Ordered(s) && i < |s|
    ensures s[i].addr > 0 && s[i].addr % GRAIN == 0 && s[i].End() % GRAIN == 0
    ensures s[i].addr + GRAIN <= s[i].End()
  {
  }

  lemma CutFront(m: seq<nat>, m': seq<nat>, head: nat, s: seq<Block>, i: nat, lo: nat, next: nat, rest: nat)
    requires Linked(m, head, s) && Ordered(s) && i < |s|
    requires s[i].addr < lo < s[i].End() <= |m| && lo % GRAIN == 0
    requires lo + GRAIN <= |m| && s[i].addr + GRAIN <= |m|
    requires next == m[s[i].addr + NEXT] && rest == m[s[i].addr + SIZE] - (lo - s[i].addr)
    requires m' == m[lo + NEXT := next][lo + SIZE := rest][s[i].addr + SIZE := lo - s[i].addr]
    ensures Cut(m', s, i, lo)
  {
    var a := s[i].addr;
    assert Node(m, s, i);
    EndOnGranule(s, i);
    GranuleStep(lo, s[i].End());
    GranuleStep(a, lo);
    OthersUntouched(m, m', s, i);
  }

  /** Writing only inside block i leaves the other nodes alone. */
  lemma OthersUntouched(m: seq<nat>, m': seq<nat>, s: seq<Block>, i: nat)
    requires Ordered(s) && i < |s| && |m| == |m'|
    requires forall x :: 0 <= x < |m| && !Within(s[i], x) ==> m'[x] == m[x]
    ensures forall j :: 0 <= j < |s| && j != i && Node(m, s, j) ==> Node(m', s, j)
  {
  }

  /** What follows the part of block i from hi on. */
  function Follower(s: seq<Block>, i: nat, hi: nat): nat
    requires i < |s|
  {
    if hi < s[i].End() then hi else AddrAt(s, i + 1)
  }

  /** Linking what is left of block i in its place completes the carving. */
  lemma LinkedCarved(m: seq<nat>, head: nat, s: seq<Block>, i: nat, lo: nat, hi: nat)
    requires InBlock(s, i, lo, hi)
    requires forall j :: 0 <= j < |s| && j != i && j != i - 1 ==> Node(m, s, j)
    requires lo > s[i].addr ==> NodeAt(m, s[i].addr, Follower(s, i, hi), lo - s[i].addr)
    requires hi < s[i].End() ==> NodeAt(m, hi, AddrAt(s, i + 1), s[i].End() - hi)
    requires var first := if lo > s[i].addr then s[i].addr else Follower(s, i, hi);
      if i == 0 then head == first else head == s[0].addr && NodeAt(m, s[i - 1].addr, first, s[i - 1].size)
    ensures Linked(m, head, Carved(s, i, lo, hi))
  {
    var t := Carved(s, i, lo, hi);
    var mid := Piece(s[i].addr, lo) + Piece(hi, s[i].End());
    assert t == s[..i] + mid + s[i + 1..];
    forall k | 0 <= k < |t| ensures Node(m, t, k) {
      if k + 1 < i {
        assert Node(m, s, k);
      } else if k >= i + |mid| {
        assert Node(m, s, k - |mid| + 1);
      }
    }
  }

  /** Writing only inside block i and the link of the node before it leaves the other nodes alone. */
  lemma FarUntouched(m: seq<nat>, m': seq<nat>, s: seq<Block>, i: nat)
    requires Ordered(s) && 0 < i < |s| && |m| == |m'| && s[i - 1].addr < |m|
    requires forall x :: 0 <= x < |m| && !Within(s[i], x) && x != s[i - 1].addr + NEXT ==> m'[x] == m[x]
    ensures forall j :: 0 <= j < |s| && j != i && j != i - 1 && Node(m, s, j) ==> Node(m', s, j)
    ensures Node(m, s, i - 1) ==> NodeAt(m', s[i - 1].addr, m'[s[i - 1].addr + NEXT], s[i - 1].size)
  {
  }

  /** Taking the first part of the cut-off node leaves a list once the link to it is rewritten. */
  lemma CutTaken(m: seq<nat>, m': seq<nat>, head: nat, head': nat, s: seq<Block>, i: nat, lo: nat, hi: nat, link: nat)
    requires Ordered(s) && InBlock(s, i, lo, hi) && Cut(m, s, i, lo) && |m| == |m'| && head == AddrAt(s, 0)
    requires link == if lo > s[i].addr then s[i].addr else if i == 0 then 0 else s[i - 1].addr
    requires link == 0 ==> head' == Follower(s, i, hi)
    requires link != 0 ==> head' == head && link < |m| && m'[link + NEXT] == Follower(s, i, hi)
    requires hi < s[i].End() ==> NodeAt(m', hi, AddrAt(s, i + 1), s[i].End() - hi)
    requires forall x :: 0 <= x < |m| && !(lo <= x < s[i].End()) && (link == 0 || x != link + NEXT) ==> m'[x] == m[x]
    ensures Linked(m', head', Carved(s, i, lo, hi))
  {
    CutOthers(m, m', s, i, lo, hi, link);
    hide Ordered, Carved;
    LinkedCarved(m', head', s, i, lo, hi);
  }

  lemma CutOthers(m: seq<nat>, m': seq<nat>, s: seq<Block>, i: nat, lo: nat, hi: nat, link: nat)
    requires Ordered(s) && InBlock(s, i, lo, hi) && Cut(m, s, i, lo) && |m| == |m'|
    requires link == if lo > s[i].addr then s[i].addr else if i == 0 then 0 else s[i - 1].addr
    requires link != 0 ==> link < |m| && m'[link + NEXT] == Follower(s, i, hi)
    requires forall x :: 0 <= x < |m| && !(lo <= x < s[i].End()) && (link == 0 || x != link + NEXT) ==> m'[x] == m[x]
    ensures forall j :: 0 <= j < |s| && j != i && j != i - 1 ==> Node(m', s, j)
    ensures lo > s[i].addr ==> NodeAt(m', s[i].addr, Follower(s, i, hi), lo - s[i].addr)
    ensures i > 0 ==> NodeAt(m', s[i - 1].addr, if lo > s[i].addr then s[i].addr else Follower(s, i, hi), s[i - 1].size)
  {
    hide Follower;
    EndOnGranule(s, i);
    if lo > s[i].addr || i == 0 {
      if lo > s[i].addr {
        GranuleStep(s[i].addr, lo);
      }
      OthersUntouched(m, m', s, i);
      if i > 0 {
        assert Node(m, s, i - 1);
      }
    } else {
      NodeRoom(s, i - 1);
      FarUntouched(m, m', s, i);
      assert Node(m, s, i - 1);
    }
  }

  // ---------------------------------------------------------------- putting a node in

  /** The index of the first block after the merged range. */
  function AfterIndex(s: seq<Block>, lo: nat, hi: nat): nat {
    if MergesRight(s, lo, hi) then Below(s, lo) + 1 else Below(s, lo)
  }

  lemma KeptIndices(s: seq<Block>, lo: nat, hi: nat)
    ensures |KeptBefore(s, lo)| <= AfterIndex(s, lo, hi) <= |s|
    ensures KeptBefore(s, lo) == s[..|KeptBefore(s, lo)|] && KeptAfter(s, lo, hi) == s[AfterIndex(s, lo, hi)..]
  {
  }

  /** Linking node b between the first n blocks and those from after on. */
  lemma LinkedJoin(m: seq<nat>, head: nat, s: seq<Block>, n: nat, after: nat, b: Block)
    requires n <= after <= |s|
    requires NodeAt(m, b.addr, AddrAt(s, after), b.size)
    requires forall j :: 0 <= j < |s| && (j + 1 < n || j >= after) ==> Node(m, s, j)
    requires if n == 0 then head == b.addr else head == s[0].addr && NodeAt(m, s[n - 1].addr, b.addr, s[n - 1].size)
    ensures Linked(m, head, s[..n] + ([b] + s[after..]))
  {
    var t := s[..n] + ([b] + s[after..]);
    forall k | 0 <= k < |t| ensures Node(m, t, k) {
      if k + 1 < n {
        assert Node(m, s, k);
      } else if k > n {
        assert Node(m, s, k - n - 1 + after);
      }
    }
  }

  /** Linking the merged node between the blocks that are kept completes the insertion. */
  lemma LinkedMerged(m: seq<nat>, head: nat, s: seq<Block>, lo: nat, hi: nat, n: nat, after: nat, from: nat, to: nat)
    requires n == |KeptBefore(s, lo)| && after == AfterIndex(s, lo, hi)
    requires from == MergedFrom(s, lo) && to == MergedTo(s, lo, hi) && from < to
    requires NodeAt(m, from, AddrAt(s, after), to - from)
    requires forall j :: 0 <= j < |s| && (j + 1 < n || j >= after) ==> Node(m, s, j)
    requires n == 0 ==> head == from
    requires 0 < n <= |s| ==> head == s[0].addr && NodeAt(m, s[n - 1].addr, from, s[n - 1].size)
    ensures Linked(m, head, Merged(s, lo, hi))
  {
    hide *;
    KeptIndices(s, lo, hi);
    MergedIs(s, lo, hi);
    PieceIs(from, to);
    LinkedJoin(m, head, s, n, after, Block(from, to - from));
  }

  lemma PieceIs(a: nat, b: nat)
    requires a < b
    ensures Piece(a, b) == [Block(a, b - a)]
  {
  }

  /** Writing only inside the merged range, and the link of the last block kept before it, leaves
      the other nodes alone. */
  lemma KeptUntouched(m: seq<nat>, m': seq<nat>, s: seq<Block>, n: nat, after: nat, from: nat, to: nat, link: int)
    requires Ordered(s) && n <= after <= |s| && |m| == |m'|
    requires forall j :: 0 <= j < n ==> s[j].End() <= from
    requires forall j :: after <= j < |s| ==> to <= s[j].addr
    requires link == -1 || (n > 0 && link == s[n - 1].addr + NEXT)
    requires forall x :: 0 <= x < |m| && !(from <= x < to) && x != link ==> m'[x] == m[x]
    requires forall j :: 0 <= j < |s| ==> Node(m, s, j)
    ensures forall j :: 0 <= j < |s| && (j + 1 < n || j >= after) ==> Node(m', s, j)
    ensures n > 0 ==> s[n - 1].addr + GRAIN <= |m| && NodeAt(m', s[n - 1].addr, m'[s[n - 1].addr + NEXT], s[n - 1].size)
  {
    forall j | 0 <= j < |s| && (j + 1 < n || j >= after) ensures Node(m', s, j) {
      assert Node(m, s, j);
      NodeRoom(s, j);
      if n > 0 && j != n - 1 {
        NodesApart(s, n - 1, j);
        NodesApart(s, j, n - 1);
      }
    }
    if n > 0 {
      assert Node(m, s, n - 1);
      NodeRoom(s, n - 1);
    }
  }

  /** The cell of the link that must lead to a node put in at lo, or -1 when that node is not new
      or comes first. */
  function LinkCell(s: seq<Block>, lo: nat): int {
    if !MergesLeft(s, lo) && Below(s, lo) > 0 then s[Below(s, lo) - 1].addr + NEXT else -1
  }

  lemma LinkedGiven(m: seq<nat>, m': seq<nat>, head: nat, head': nat, s: seq<Block>, lo: nat, hi: nat)
    requires Linked(m, head, s) && Sound(s) && lo < hi && Disjoint(s, lo, hi) && |m| == |m'|
    requires MergedFrom(s, lo) < MergedTo(s, lo, hi)
    requires NodeAt(m', MergedFrom(s, lo), AddrAt(s, AfterIndex(s, lo, hi)), MergedTo(s, lo, hi) - MergedFrom(s, lo))
    requires forall x :: 0 <= x < |m| && !(MergedFrom(s, lo) <= x < MergedTo(s, lo, hi)) && x != LinkCell(s, lo) ==>
      m'[x] == m[x]
    requires 0 <= LinkCell(s, lo) < |m| ==> m'[LinkCell(s, lo)] == lo
    requires head' == if Below(s, lo) == 0 then lo else head
    ensures Linked(m', head', Merged(s, lo, hi))
  {
    var n, after, from, to := |KeptBefore(s, lo)|, AfterIndex(s, lo, hi), MergedFrom(s, lo), MergedTo(s, lo, hi);
    KeptIndices(s, lo, hi);
    GivenNeighbours(s, lo, hi);
    KeptUntouched(m, m', s, n, after, from, to, LinkCell(s, lo));
    if n > 0 {
      assert Node(m, s, n - 1);
    }
    GivenFirst(s, lo);
    hide Linked, Ordered, Coalesced, Sound, Disjoint, Merged;
    LinkedMerged(m', head', s, lo, hi, n, after, from, to);
  }

  /** The neighbours of the merged range do not overlap it. */
  lemma GivenNeighbours(s: seq<Block>, lo: nat, hi: nat)
    requires Sound(s) && lo < hi && Disjoint(s, lo, hi)
    ensures forall j :: 0 <= j < |KeptBefore(s, lo)| ==> s[j].End() <= MergedFrom(s, lo)
    ensures forall j :: AfterIndex(s, lo, hi) <= j < |s| ==> MergedTo(s, lo, hi) <= s[j].addr
  {
    KeptIndices(s, lo, hi);
    KeptBeforeEnds(s, lo, hi);
    KeptAfterBegins(s, lo, hi);
    hide *;
    var n, after := |KeptBefore(s, lo)|, AfterIndex(s, lo, hi);
    forall j | 0 <= j < n ensures s[j].End() <= MergedFrom(s, lo) {
      assert KeptBefore(s, lo)[j] == s[j];
    }
    forall j | after <= j < |s| ensures MergedTo(s, lo, hi) <= s[j].addr {
      assert KeptAfter(s, lo, hi)[j - after] == s[j];
    }
  }

  lemma GivenFirst(s: seq<Block>, lo: nat)
    ensures |KeptBefore(s, lo)| == if MergesLeft(s, lo) then Below(s, lo) - 1 else Below(s, lo)
    ensures MergesLeft(s, lo) ==> Below(s, lo) > 0 && MergedFrom(s, lo) == s[Below(s, lo) - 1].addr
    ensures !MergesLeft(s, lo) ==> MergedFrom(s, lo) == lo
  {
  }

  class Region {
    const min: nat
    const max: nat
    const flags: bv32
    var nodes: nat
    var free: nat

    constructor (min: nat, max: nat, flags: bv32)
      ensures this.min == min && this.max == max && this.flags == flags
      ensures nodes == 0 && free == 0
    {
      this.min, this.max, this.flags := min, max, flags;
      nodes, free := 0, 0;
    }

    /** Rewrites the link that leads to a node: the one in the node before it, or the list head. */
    method SetLink(mem: array<nat>, prev: nat, target: nat)
      requires prev < mem.Length
      modifies mem, this`nodes
      ensures prev == 0 ==> nodes == target && mem[..] == old(mem[..])
      ensures prev != 0 ==> nodes == old(nodes) && mem[..] == old(mem[..])[prev + NEXT := target]
    {
      if prev == 0 {
        nodes := target;
      } else {
        mem[prev + NEXT] := target;
      }
    }

    /** Makes the part of a node from lo on a node of its own. */
    method SplitFront(mem: array<nat>, node: nat, lo: nat, ghost s: seq<Block>, ghost i: nat)
      requires Linked(mem[..], nodes, s) && Ordered(s) && i < |s| && s[i].End() <= mem.Length
      requires s[i].addr <= lo < s[i].End() && lo % GRAIN == 0
      requires node == s[i].addr
      modifies mem
      ensures Cut(mem[..], s, i, lo)
      ensures forall x :: 0 <= x < mem.Length && !Within(s[i], x) ==> mem[x] == old(mem[x])
    {
      hide Linked, Ordered, Cut;
      EndOnGranule(s, i);
      GranuleStep(lo, s[i].End());
      ghost var m := mem[..];
      NodeOf(m, nodes, s, i);
      if lo > node {
        var split := lo - node;
        mem[lo + NEXT] := mem[node + NEXT];
        mem[lo + SIZE] := mem[node + SIZE] - split;
        mem[node + SIZE] := split;
        assert mem[..] == m[lo + NEXT := m[node + NEXT]][lo + SIZE := m[node + SIZE] - split][node + SIZE := split];
        CutFront(m, mem[..], nodes, s, i, lo, m[node + NEXT], m[node + SIZE] - split);
      } else {
        CutNothing(m, nodes, s, i);
      }
    }

    /** Takes the first size bytes of the cut-off node and links what is left of the block. */
    method TakeHead(mem: array<nat>, link: nat, lo: nat, size: nat, ghost s: seq<Block>, ghost i: nat)
      requires Cut(mem[..], s, i, lo) && Ordered(s) && InBlock(s, i, lo, lo + size) && s[i].End() <= mem.Length
      requires nodes == AddrAt(s, 0) && link < mem.Length
      requires link == if lo > s[i].addr then s[i].addr else if i == 0 then 0 else s[i - 1].addr
      modifies mem, this`nodes
      ensures Linked(mem[..], nodes, Carved(s, i, lo, lo + size))
      ensures forall x :: 0 <= x < mem.Length && !(lo <= x < s[i].End()) && (link == 0 || x != link + NEXT) ==>
        mem[x] == old(mem[x])
    {
      hide Linked, Ordered, Cut, Carved, Covers, Follower;
      ghost var m := mem[..];
      CutNode(m, s, i, lo);
      EndOnGranule(s, i);
      GranuleStep(lo, s[i].End());
      LinkBelow(s, i, lo, link);
      FollowerIs(s, i, lo + size);
      var next := mem[lo + NEXT];
      if mem[lo + SIZE] > size {
        var newnode := lo + size;
        GranuleStep(newnode, s[i].End());
        mem[newnode + NEXT] := mem[lo + NEXT];
        mem[newnode + SIZE] := mem[lo + SIZE] - size;
        next := newnode;
      }
      SetLink(mem, link, next);
      CutTaken(m, mem[..], old(nodes), nodes, s, i, lo, lo + size, link);
    }

    /** Takes size bytes from lo on out of the node, splitting off what is left before and behind. */
    method CarveNode(mem: array<nat>, prev: nat, node: nat, lo: nat, size: nat, ghost s: seq<Block>, ghost i: nat)
      requires Linked(mem[..], nodes, s) && Ordered(s) && InBlock(s, i, lo, lo + size) && s[i].End() <= mem.Length
      requires node == s[i].addr && prev == (if i == 0 then 0 else s[i - 1].addr)
      requires prev < mem.Length && free >= size
      modifies mem, this
      ensures Linked(mem[..], nodes, Carved(s, i, lo, lo + size))
      ensures free == old(free) - size
      ensures forall x :: 0 <= x < mem.Length && !Covers(s, x) ==> mem[x] == old(mem[x])
    {
      hide Linked, Ordered, Cut, Carved, Covers;
      HeadOf(mem[..], nodes, s);
      OnlyFreeWritten(s, i, prev);
      SplitFront(mem, node, lo, s, i);
      TakeHead(mem, if lo > node then node else prev, lo, size, s, i);
      free := free - size;
    }

    /** Walks the list to the last node below address a and the first one from a on. */
    method FindPlace(mem: array<nat>, a: nat, ghost s: seq<Block>) returns (prev: nat, next: nat)
      requires Linked(mem[..], nodes, s) && Ordered(s)
      ensures next == AddrAt(s, Below(s, a))
      ensures prev == if Below(s, a) == 0 then 0 else s[Below(s, a) - 1].addr
    {
      hide Linked, Ordered, Below;
      HeadOf(mem[..], nodes, s);
      prev, next := 0, nodes;
      ghost var i := 0;
      while next != 0 && next < a
        invariant i <= |s| && next == AddrAt(s, i)
        invariant prev == if i == 0 then 0 else s[i - 1].addr
        invariant forall j :: 0 <= j < i ==> s[j].addr < a
        decreases |s| - i
      {
        NodeOf(mem[..], nodes, s, i);
        prev, next := next, mem[next + NEXT];
        i := i + 1;
      }
      if i < |s| {
        EndOnGranule(s, i);
      }
      BelowIs(s, a, i);
    }

    /** Merges size bytes at node, which prev reaches up to, into prev, and the node after into both. */
    method GrowPrev(mem: array<nat>, prev: nat, next: nat, node: nat, size: nat, ghost s: seq<Block>)
      requires Linked(mem[..], nodes, s) && Sound(s) && size > 0 && Disjoint(s, node, node + size)
      requires node > 0 && node % GRAIN == 0 && size % GRAIN == 0 && node + size <= mem.Length
      requires next == AddrAt(s, Below(s, node))
      requires prev == if Below(s, node) == 0 then 0 else s[Below(s, node) - 1].addr
      requires prev != 0 && prev + SIZE < mem.Length && prev + mem[prev + SIZE] >= node
      modifies mem
      ensures Linked(mem[..], nodes, Merged(s, node, node + size))
      ensures forall x :: 0 <= x < mem.Length && !Covers(s, x) && !(node <= x < node + size) ==> mem[x] == old(mem[x])
    {
      hide *;
      Layout();
      ghost var m, hi := mem[..], node + size;
      MergeLimits(m, nodes, s, node, hi, prev, next);
      MergeInFree(s, node, hi);
      if next != 0 && node + size >= next {
        mem[prev + SIZE] := mem[prev + SIZE] + size + mem[next + SIZE];
        mem[prev + NEXT] := mem[next + NEXT];
      } else {
        mem[prev + SIZE] := mem[prev + SIZE] + size;
      }
      MakeNode(mem[..], prev, AddrAt(s, AfterIndex(s, node, hi)), MergedTo(s, node, hi) - prev);
      LinkedGiven(m, mem[..], nodes, nodes, s, node, hi);
    }

    /** Puts size bytes at node in as a node of their own, merged with the node after if they reach it. */
    method PlaceNew(mem: array<nat>, prev: nat, next: nat, node: nat, size: nat, ghost s: seq<Block>)
      requires Linked(mem[..], nodes, s) && Sound(s) && size > 0 && Disjoint(s, node, node + size)
      requires node > 0 && node % GRAIN == 0 && size % GRAIN == 0 && node + size <= mem.Length
      requires next == AddrAt(s, Below(s, node))
      requires prev == if Below(s, node) == 0 then 0 else s[Below(s, node) - 1].addr
      requires prev != 0 ==> prev + SIZE < mem.Length && prev + mem[prev + SIZE] < node
      modifies mem, this`nodes
      ensures Linked(mem[..], nodes, Merged(s, node, node + size))
      ensures forall x :: 0 <= x < mem.Length && !Covers(s, x) && !(node <= x < node + size) ==> mem[x] == old(mem[x])
    {
      hide *;
      Layout();
      ghost var m, head, hi := mem[..], nodes, node + size;
      MergeLimits(m, nodes, s, node, hi, prev, next);
      MergeInFree(s, node, hi);
      GranuleStep(node, hi);
      SetLink(mem, prev, node);
      if next != 0 && node + size >= next {
        mem[node + SIZE] := size + mem[next + SIZE];
        mem[node + NEXT] := mem[next + NEXT];
      } else {
        mem[node + SIZE] := size;
        mem[node + NEXT] := next;
      }
      MakeNode(mem[..], node, AddrAt(s, AfterIndex(s, node, hi)), MergedTo(s, node, hi) - node);
      LinkedGiven(m, mem[..], head, nodes, s, node, hi);
    }

    /** Puts size bytes at node into the list, merged with the nodes they touch. */
    method GiveNode(mem: array<nat>, node: nat, size: nat, ghost s: seq<Block>)
      requires Linked(mem[..], nodes, s) && Sound(s) && size > 0 && Disjoint(s, node, node + size)
      requires node > 0 && node % GRAIN == 0 && size % GRAIN == 0 && node + size <= mem.Length
      modifies mem, this
      ensures Linked(mem[..], nodes, Merged(s, node, node + size))
      ensures free == old(free) + size
      ensures forall x :: 0 <= x < mem.Length && !Covers(s, x) && !(node <= x < node + size) ==> mem[x] == old(mem[x])
    {
      hide *;
      Layout();
      free := free + size;
      SoundParts(s);
      var prev, next := FindPlace(mem, node, s);
      MergeLimits(mem[..], nodes, s, node, node + size, prev, next);
      if prev != 0 && prev + mem[prev + SIZE] >= node {
        GrowPrev(mem, prev, next, node, size, s);
      } else {
        PlaceNew(mem, prev, next, node, size, s);
      }
    }
  }

  lemma MakeNode(m: seq<nat>, a: nat, next: nat, size: nat)
    requires a + GRAIN <= |m| && m[a + NEXT] == next && m[a + SIZE] == size
    ensures NodeAt(m, a, next, size)
  {
  }

  lemma BelowIs(s: seq<Block>, a: nat, i: nat)
    requires Ordered(s) && i <= |s| && forall j :: 0 <= j < i ==> s[j].addr < a
    requires i < |s| ==> s[i].addr >= a
    ensures i == Below(s, a)
  {
  }

  lemma SoundParts(s: seq<Block>)
    requires Sound(s)
    ensures Ordered(s)
  {
  }

  /** The nodes around the gap that takes the range from lo up to hi. */
  lemma PlaceOf(m: seq<nat>, head: nat, s: seq<Block>, lo: nat, hi: nat, prev: nat, next: nat)
    requires Linked(m, head, s) && Sound(s) && 0 < lo < hi && Disjoint(s, lo, hi)
    requires next == AddrAt(s, Below(s, lo)) && prev == if Below(s, lo) == 0 then 0 else s[Below(s, lo) - 1].addr
    ensures Below(s, lo) > 0 ==> 0 < prev && prev + GRAIN <= |m| && prev + GRAIN <= lo
    ensures Below(s, lo) > 0 ==> NodeAt(m, prev, next, s[Below(s, lo) - 1].size) && s[Below(s, lo) - 1].End() <= lo
    ensures Below(s, lo) < |s| ==> 0 < next && hi <= next
    ensures Below(s, lo) < |s| ==> NodeAt(m, next, AddrAt(s, Below(s, lo) + 1), s[Below(s, lo)].size)
  {
    Gap(s, lo, hi);
    var k := Below(s, lo);
    if k > 0 {
      assert Node(m, s, k - 1);
      EndOnGranule(s, k - 1);
    }
    if k < |s| {
      assert Node(m, s, k);
      EndOnGranule(s, k);
    }
  }

  /** How the merged range and the link to it look from the nodes around the gap. */
  lemma MergeLimits(m: seq<nat>, head: nat, s: seq<Block>, lo: nat, hi: nat, prev: nat, next: nat)
    requires Linked(m, head, s) && Sound(s) && 0 < lo < hi && Disjoint(s, lo, hi)
    requires next == AddrAt(s, Below(s, lo)) && prev == if Below(s, lo) == 0 then 0 else s[Below(s, lo) - 1].addr
    ensures prev == 0 <==> Below(s, lo) == 0
    ensures prev == 0 ==> MergedFrom(s, lo) == lo && LinkCell(s, lo) == -1
    ensures prev != 0 ==> prev + GRAIN <= lo && prev + GRAIN <= |m| && head == AddrAt(s, 0) && m[prev + NEXT] == next
    ensures prev != 0 && prev + m[prev + SIZE] >= lo ==>
      MergedFrom(s, lo) == prev && LinkCell(s, lo) == -1 && prev + m[prev + SIZE] == lo
    ensures prev != 0 && prev + m[prev + SIZE] < lo ==> MergedFrom(s, lo) == lo && LinkCell(s, lo) == prev + NEXT
    ensures next != 0 ==> hi <= next && next + GRAIN <= |m|
    ensures next != 0 && hi >= next ==> hi == next && MergedTo(s, lo, hi) == next + m[next + SIZE]
    ensures next != 0 && hi >= next ==> AddrAt(s, AfterIndex(s, lo, hi)) == m[next + NEXT]
    ensures next == 0 || hi < next ==> MergedTo(s, lo, hi) == hi && AddrAt(s, AfterIndex(s, lo, hi)) == next
  {
    PlaceOf(m, head, s, lo, hi, prev, next);
    hide Sound, Ordered, Coalesced, Below, Disjoint;
  }

  /** Everything an insertion writes is free before or becomes free. */
  lemma MergeInFree(s: seq<Block>, lo: nat, hi: nat)
    requires Sound(s) && lo < hi && Disjoint(s, lo, hi)
    ensures MergedFrom(s, lo) <= lo && hi <= MergedTo(s, lo, hi)
    ensures forall x: int :: MergedFrom(s, lo) <= x < MergedTo(s, lo, hi) ==> Covers(s, x) || lo <= x < hi
    ensures LinkCell(s, lo) >= 0 ==> Covers(s, LinkCell(s, lo))
  {
    MergedEnds(s, lo, hi);
    forall x: int | MergedFrom(s, lo) <= x < MergedTo(s, lo, hi) ensures Covers(s, x) || lo <= x < hi {
      if x < lo {
        InsideCovers(s, Below(s, lo) - 1, x);
      } else if x >= hi {
        InsideCovers(s, Below(s, lo), x);
      }
    }
    if LinkCell(s, lo) >= 0 {
      EndOnGranule(s, Below(s, lo) - 1);
      InsideCovers(s, Below(s, lo) - 1, LinkCell(s, lo));
    }
  }

  lemma NodeOf(m: seq<nat>, head: nat, s: seq<Block>, i: nat)
    requires Linked(m, head, s) && i < |s|
    ensures NodeAt(m, s[i].addr, AddrAt(s, i + 1), s[i].size)
  {
    assert Node(m, s, i);
  }

  lemma HeadOf(m: seq<nat>, head: nat, s: seq<Block>)
    requires Linked(m, head, s)
    ensures head == AddrAt(s, 0)
  {
  }

  lemma CutNode(m: seq<nat>, s: seq<Block>, i: nat, lo: nat)
    requires Cut(m, s, i, lo)
    ensures NodeAt(m, lo, AddrAt(s, i + 1), s[i].End() - lo)
  {
  }

  lemma FollowerIs(s: seq<Block>, i: nat, hi: nat)
    requires i < |s|
    ensures Follower(s, i, hi) == if hi < s[i].End() then hi else AddrAt(s, i + 1)
  {
  }

  lemma LinkBelow(s: seq<Block>, i: nat, lo: nat, link: nat)
    requires Ordered(s) && i < |s| && s[i].addr <= lo && lo % GRAIN == 0
    requires link == if lo > s[i].addr then s[i].addr else if i == 0 then 0 else s[i - 1].addr
    ensures link == 0 || link + GRAIN <= lo
  {
  }

  /** The cells a carving writes are in free memory. */
  lemma OnlyFreeWritten(s: seq<Block>, i: nat, prev: nat)
    requires Ordered(s) && i < |s| && prev == if i == 0 then 0 else s[i - 1].addr
    ensures forall x :: Within(s[i], x) ==> Covers(s, x)
    ensures i > 0 ==> Covers(s, prev + NEXT)
  {
  }
}
