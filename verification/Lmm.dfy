/** The List Memory Manager (410kern/lmm): allocation, freeing and searching over all regions. */
module Lmm {
  import opened Basics
  import opened Bits
  import opened FreeList
  import opened LmmRegion
  import opened LmmSearch

  // ---------------------------------------------------------------- what a caller sees

  /** A region as its users know it: its bounds, its attributes, and its free blocks. */
  datatype RegionView = RegionView(min: nat, max: nat, flags: bv32, blocks: seq<Block>)

  ghost predicate RegionSound(v: RegionView) {
    v.min < v.max && v.min % GRAIN == 0 && v.max % GRAIN == 0 && Sound(v.blocks) &&
    forall i :: 0 <= i < |v.blocks| ==> v.min <= v.blocks[i].addr && v.blocks[i].End() <= v.max
  }

  ghost predicate Apart(v: RegionView, w: RegionView) {
    v.max <= w.min || w.max <= v.min
  }

  /** Sound regions that do not overlap, below the given limit. */
  ghost predicate SystemSound(v: seq<RegionView>, limit: nat) {
    (forall k :: 0 <= k < |v| ==> RegionSound(v[k]) && v[k].max <= limit) &&
    (forall j, k :: 0 <= j < k < |v| ==> Apart(v[j], v[k]))
  }

  /** Byte x is free in some region. */
  ghost predicate Free(v: seq<RegionView>, x: int) {
    exists k :: 0 <= k < |v| && Covers(v[k].blocks, x)
  }

  /** Some attribute asked for is missing. */
  predicate Lacks(have: bv32, flags: bv32) {
    Missing(have, flags) != 0
  }

  function Missing(have: bv32, flags: bv32): bv32 { flags & !have }

  /** The region has every attribute asked for. */
  predicate HasFlags(v: RegionView, flags: bv32) {
    !Lacks(v.flags, flags)
  }

  /** Only region k changed, and only in losing the bytes from lo up to hi, all free before. */
  ghost predicate Taken(v: seq<RegionView>, v': seq<RegionView>, k: nat, lo: int, hi: int) {
    k < |v| == |v'| && v' == v[k := v[k].(blocks := v'[k].blocks)] &&
    (forall x: int :: lo <= x < hi ==> Covers(v[k].blocks, x)) &&
    (forall x: int :: Covers(v'[k].blocks, x) <==> Covers(v[k].blocks, x) && !(lo <= x < hi))
  }

  /** Only region k changed, and only in gaining the bytes from lo up to hi, none free before. */
  ghost predicate Given(v: seq<RegionView>, v': seq<RegionView>, k: nat, lo: int, hi: int) {
    k < |v| == |v'| && v' == v[k := v[k].(blocks := v'[k].blocks)] &&
    (forall x: int :: lo <= x < hi ==> !Covers(v[k].blocks, x)) &&
    (forall x: int :: Covers(v'[k].blocks, x) <==> Covers(v[k].blocks, x) || lo <= x < hi)
  }

  function Down(x: nat): nat { x - x % GRAIN }

  function Up(x: nat): nat { Down(x + (GRAIN - 1)) }

  /** Down gives the last granule boundary not above x, and Up the first one not below it. */
  lemma Rounding(x: nat, y: nat)
    requires y % GRAIN == 0
    ensures Down(x) % GRAIN == 0 && (y <= x <==> y <= Down(x))
    ensures Up(x) % GRAIN == 0 && (x <= y <==> Up(x) <= y)
  {
    DownBelow(x, y);
    DownBelow(x + (GRAIN - 1), y);
    hide Down;
    GranulesApart(Up(x), y);
  }

  lemma GranulesApart(a: nat, b: nat)
    requires a % GRAIN == 0 && b % GRAIN == 0
    ensures a < b + GRAIN ==> a <= b
  {
  }

  lemma DownBelow(x: nat, y: nat)
    requires y % GRAIN == 0
    ensures Down(x) % GRAIN == 0 && Down(x) <= x < Down(x) + GRAIN && (y <= x <==> y <= Down(x))
  {
  }

  lemma UpdateSound(v: seq<RegionView>, limit: nat, k: nat, blocks: seq<Block>)
    requires SystemSound(v, limit) && k < |v| && RegionSound(v[k].(blocks := blocks))
    ensures SystemSound(v[k := v[k].(blocks := blocks)], limit)
  {
    hide RegionSound;
  }

  lemma CarvedRegion(v: RegionView, i: nat, lo: nat, hi: nat)
    requires RegionSound(v) && InBlock(v.blocks, i, lo, hi)
    ensures RegionSound(v.(blocks := Carved(v.blocks, i, lo, hi)))
  {
    CarvedSound(v.blocks, i, lo, hi);
    var t := Carved(v.blocks, i, lo, hi);
    forall j | 0 <= j < |t| ensures v.min <= t[j].addr && t[j].End() <= v.max {
      assert WithinOneOf(t[j], v.blocks) by { CarvedInside(v.blocks, i, lo, hi, j); }
    }
  }

  ghost predicate WithinOneOf(b: Block, s: seq<Block>) {
    exists i :: 0 <= i < |s| && s[i].addr <= b.addr && b.End() <= s[i].End()
  }

  lemma CarvedInside(s: seq<Block>, i: nat, lo: nat, hi: nat, j: nat)
    requires InBlock(s, i, lo, hi) && j < |Carved(s, i, lo, hi)|
    ensures WithinOneOf(Carved(s, i, lo, hi)[j], s)
  {
    var t := Carved(s, i, lo, hi);
    var n := |Piece(s[i].addr, lo) + Piece(hi, s[i].End())|;
    if j < i {
      assert t[j] == s[j];
    } else if j < i + n {
      assert s[i].addr <= t[j].addr && t[j].End() <= s[i].End();
    } else {
      assert t[j] == s[j - n + 1];
    }
  }

  lemma MergedRegion(v: RegionView, lo: nat, hi: nat)
    requires RegionSound(v) && v.min <= lo < hi <= v.max && Disjoint(v.blocks, lo, hi)
    requires 0 < lo && lo % GRAIN == 0 && hi % GRAIN == 0
    ensures RegionSound(v.(blocks := Merged(v.blocks, lo, hi)))
  {
    MergedSound(v.blocks, lo, hi);
    var t := Merged(v.blocks, lo, hi);
    forall j | 0 <= j < |t| ensures v.min <= t[j].addr && t[j].End() <= v.max {
      MergedInside(v, lo, hi, j);
    }
  }

  lemma MergedInside(v: RegionView, lo: nat, hi: nat, j: nat)
    requires RegionSound(v) && v.min <= lo < hi <= v.max && Disjoint(v.blocks, lo, hi)
    requires j < |Merged(v.blocks, lo, hi)|
    ensures v.min <= Merged(v.blocks, lo, hi)[j].addr && Merged(v.blocks, lo, hi)[j].End() <= v.max
  {
    hide *;
    var s := v.blocks;
    RegionParts(v);
    SoundParts(s);
    MergedEnds(s, lo, hi);
    KeptIndices(s, lo, hi);
    MergedBounds(v, lo, hi);
    MergedIs(s, lo, hi);
    PieceIs(MergedFrom(s, lo), MergedTo(s, lo, hi));
    var b := Block(MergedFrom(s, lo), MergedTo(s, lo, hi) - MergedFrom(s, lo));
    JoinInside(s, |KeptBefore(s, lo)|, AfterIndex(s, lo, hi), b, v.min, v.max, j);
  }

  lemma RegionParts(v: RegionView)
    requires RegionSound(v)
    ensures Sound(v.blocks) && v.min < v.max
    ensures forall i :: 0 <= i < |v.blocks| ==> v.min <= v.blocks[i].addr && v.blocks[i].End() <= v.max
  {
  }

  lemma JoinInside(s: seq<Block>, n: nat, after: nat, b: Block, min: nat, max: nat, j: nat)
    requires n <= after <= |s| && j < |s[..n] + ([b] + s[after..])|
    requires forall i :: 0 <= i < |s| ==> min <= s[i].addr && s[i].End() <= max
    requires min <= b.addr && b.addr + b.size <= max
    ensures min <= (s[..n] + ([b] + s[after..]))[j].addr && (s[..n] + ([b] + s[after..]))[j].End() <= max
  {
    var t := s[..n] + ([b] + s[after..]);
    if j < n {
      assert t[j] == s[j];
    } else if j > n {
      assert t[j] == s[j - n - 1 + after];
    }
  }

  lemma MergedBounds(v: RegionView, lo: nat, hi: nat)
    requires RegionSound(v) && v.min <= lo < hi <= v.max
    ensures v.min <= MergedFrom(v.blocks, lo) && MergedTo(v.blocks, lo, hi) <= v.max
  {
  }

  /** Memory changed only in the bounds of region k shows the other regions as before. */
  lemma OtherRegion(m: seq<nat>, m': seq<nat>, head: nat, v: RegionView, w: RegionView)
    requires RegionSound(v) && RegionSound(w) && Apart(v, w) && |m| == |m'|
    requires Linked(m, head, v.blocks)
    requires forall x :: 0 <= x < |m| && !(w.min <= x < w.max) ==> m'[x] == m[x]
    ensures Linked(m', head, v.blocks)
  {
    forall x | 0 <= x < |m| && Covers(v.blocks, x) ensures m'[x] == m[x] {
      CoveredInBounds(v, x);
    }
    LinkedFrame(m, m', head, v.blocks);
  }

  lemma CoveredInBounds(v: RegionView, x: int)
    requires RegionSound(v) && Covers(v.blocks, x)
    ensures v.min <= x < v.max
  {
  }

  /** Blocks in order within bounds are together no larger than the range between the bounds. */
  lemma {:induction false} TotalWithin(s: seq<Block>, lo: nat, hi: nat)
    requires Sound(s) && lo <= hi && forall i :: 0 <= i < |s| ==> lo <= s[i].addr && s[i].End() <= hi
    ensures Total(s) <= hi - lo
  {
    if s != [] {
      SoundTail(s);
      var b := s[0].End();
      assert forall i :: 0 <= i < |s| - 1 ==> s[1..][i] == s[i + 1] && b <= s[i + 1].addr;
      hide Sound;
      TotalWithin(s[1..], b, hi);
    }
  }

  /** A region's free count, the total of its list, is at most its size. */
  lemma FreeWithinRegion(v: RegionView)
    requires RegionSound(v)
    ensures Total(v.blocks) <= v.max - v.min
  {
    TotalWithin(v.blocks, v.min, v.max);
  }

  // ---------------------------------------------------------------- the manager

  /** Region r and the memory show the region v. */
  ghost predicate Shows(m: seq<nat>, r: Region, v: RegionView)
    reads r
  {
    r.min == v.min && r.max == v.max && r.flags == v.flags &&
    Linked(m, r.nodes, v.blocks) && r.free == Total(v.blocks)
  }

  class Manager {
    const mem: array<nat>
    const regions: seq<Region>
    ghost var view: seq<RegionView>

    ghost predicate Valid()
      reads this, mem, regions
    {
      |view| == |regions| && mem.Length < ADDRESS_SPACE &&
      (forall j, k :: 0 <= j < k < |regions| ==> regions[j] != regions[k]) &&
      SystemSound(view, mem.Length) &&
      forall k :: 0 <= k < |regions| ==> Shows(mem[..], regions[k], view[k])
    }

    /** A manager over regions that have no free memory yet. */
    constructor (mem: array<nat>, regions: seq<Region>, ghost view: seq<RegionView>)
      requires mem.Length < ADDRESS_SPACE && |view| == |regions| && SystemSound(view, mem.Length)
      requires forall j, k :: 0 <= j < k < |regions| ==> regions[j] != regions[k]
      requires forall k :: 0 <= k < |regions| ==> regions[k].nodes == 0 && regions[k].free == 0
      requires forall k :: 0 <= k < |regions| ==>
        view[k] == RegionView(regions[k].min, regions[k].max, regions[k].flags, [])
      ensures Valid() && this.mem == mem && this.regions == regions && this.view == view
    {
      this.mem, this.regions, this.view := mem, regions, view;
    }

    /** After region k was changed inside its free memory, the manager is valid with its new view. */
    ghost method Refresh(k: nat, m: seq<nat>, blocks: seq<Block>)
      requires |view| == |regions| && mem.Length < ADDRESS_SPACE && k < |regions| && |m| == mem.Length
      requires forall i, j :: 0 <= i < j < |regions| ==> regions[i] != regions[j]
      requires SystemSound(view, mem.Length)
      requires forall j :: 0 <= j < |regions| && j != k ==> Shows(m, regions[j], view[j])
      requires Shows(mem[..], regions[k], view[k].(blocks := blocks)) && RegionSound(view[k].(blocks := blocks))
      requires forall x :: 0 <= x < |m| && !(view[k].min <= x < view[k].max) ==> mem[x] == m[x]
      modifies this`view
      ensures Valid() && view == old(view)[k := old(view)[k].(blocks := blocks)]
    {
      UpdateSound(view, mem.Length, k, blocks);
      forall j | 0 <= j < |regions| && j != k ensures Shows(mem[..], regions[j], view[j]) {
        SoundPair(view, mem.Length, j, k);
        OtherRegion(m, mem[..], regions[j].nodes, view[j], view[k]);
      }
      hide *;
      view := view[k := view[k].(blocks := blocks)];
    }

    /** Takes size bytes from lo on out of block i of region k. */
    method Take(k: nat, prev: nat, node: nat, lo: nat, size: nat, ghost i: nat)
      requires Valid() && k < |regions| && InBlock(view[k].blocks, i, lo, lo + size)
      requires node == view[k].blocks[i].addr && prev == if i == 0 then 0 else view[k].blocks[i - 1].addr
      modifies this`view, mem, regions
      ensures Valid() && Taken(old(view), view, k, lo, lo + size)
      ensures forall x :: 0 <= x < mem.Length && !Free(old(view), x) ==> mem[x] == old(mem[x])
    {
      hide Linked, RegionSound, SystemSound, Carved, Covers, Total, Sound, Ordered, Coalesced, InBlock, Taken, Free;
      ghost var v, s, m := view[k], view[k].blocks, mem[..];
      TakeChecks(view, mem.Length, k, i, lo, lo + size);
      regions[k].CarveNode(mem, prev, node, lo, size, s, i);
      FreeMemory(view, mem.Length, k);
      CarvedRegion(v, i, lo, lo + size);
      Refresh(k, m, Carved(s, i, lo, lo + size));
      CarvedTaken(old(view), mem.Length, k, i, lo, lo + size);
    }

    /** Searches region k for the lowest fit of request q, and takes the granules that enclose it. */
    method AllocFromRegion(k: nat, q: Request) returns (r: nat)
      requires Valid() && k < |regions| && q.size > 0
      requires NoWrapIn(view[k].blocks, q)
      modifies this`view, mem, regions
      ensures Valid()
      ensures r == 0 ==> view == old(view) && mem[..] == old(mem[..])
      ensures r == 0 ==> forall x: nat :: !Fits(old(view[k].blocks), q, x)
      ensures r != 0 ==> Fits(old(view[k].blocks), q, r) && forall x: nat :: Fits(old(view[k].blocks), q, x) ==> r <= x
      ensures r != 0 ==> Taken(old(view), view, k, Down(r), Up(r + q.size))
      ensures forall x :: 0 <= x < mem.Length && !Free(old(view), x) ==> mem[x] == old(mem[x])
    {
      hide Linked, RegionSound, Covers, Total, Sound, Ordered, Coalesced, Taken, Free, Fits, NoneBefore, SystemSound;
      hide LeastCongruent, Down, Up, InBlock, Pow2, RoomAbove;
      ghost var s := view[k].blocks;
      RegionInSystem(view, mem.Length, k);
      HeadOf(mem[..], regions[k].nodes, s);
      NoneBeforeFirst(s, q);
      var prev, node := 0, regions[k].nodes;
      ghost var i := 0;
      while node != 0
        invariant Valid() && view == old(view) && mem[..] == old(mem[..])
        invariant i <= |s| && node == AddrAt(s, i) && prev == if i == 0 then 0 else s[i - 1].addr
        invariant NoneBefore(s, q, i)
        decreases |s| - i
      {
        NodeOf(mem[..], regions[k].nodes, s, i);
        EndOnGranule(s, i);
        var next := mem[node + NEXT];
        if mem[node + SIZE] >= q.size {
          RoomForAll(Max(node, q.lo), q.ofs, q.bits, q.size);
          var addr := AlignUp(Max(node, q.lo), q.ofs, q.bits);
          LeastIsAfter(addr, Max(node, q.lo), q.ofs, q.bits);
          assert addr + q.size < ADDRESS_SPACE;  // no 32-bit wrap
          if addr - node + q.size <= mem[node + SIZE] {
            if addr + q.size > q.hi {
              AlignedPastRange(s, q, i, addr);
              return 0;
            }
            AlignedFits(s, q, i, addr);
            var lo, size := Down(addr), Up(addr % GRAIN + q.size);
            EnclosingGranules(s, i, addr, q.size);
            Take(k, prev, node, lo, size, i);
            return addr;
          }
          AlignedPastEnd(s, q, i, addr);
        } else {
          TooSmall(s, q, i);
        }
        prev, node := node, next;
        i := i + 1;
      }
      NoneAtAll(s, q, i);
      return 0;
    }

    /** Allocation under constraints: first fit over the regions that have the flags asked for. */
    method AllocGen(size: nat, flags: bv32, alignBits: nat, alignOfs: nat, inMin: nat, inSize: nat)
      returns (r: nat, ghost k: nat)
      requires Valid() && size > 0 && inMin + inSize < ADDRESS_SPACE
      requires NoWrap(view, flags, Request(size, alignBits, alignOfs, inMin, inMin + inSize))
      modifies this`view, mem, regions
      ensures Valid()
      ensures var q := Request(size, alignBits, alignOfs, inMin, inMin + inSize);
        if r == 0 then NoFit(old(view), flags, q) && view == old(view)
        else FirstFit(old(view), flags, q, k, r) && Taken(old(view), view, k, Down(r), Up(r + size))
      ensures forall x :: 0 <= x < mem.Length && !Free(old(view), x) ==> mem[x] == old(mem[x])
    {
      hide Linked, RegionSound, Covers, Total, Sound, Ordered, Coalesced, Taken, Free, Fits, SystemSound, Lacks;
      hide Down, Up, Pow2;
      ghost var q := Request(size, alignBits, alignOfs, inMin, inMin + inSize);
      var inMax := inMin + inSize;
      var n := 0;
      while n < |regions|
        invariant n <= |regions| && Valid() && view == old(view) && mem[..] == old(mem[..])
        invariant forall j :: 0 <= j < n && HasFlags(view[j], flags) ==> NoFitIn(view[j], q)
      {
        var reg := regions[n];
        assert Shows(mem[..], reg, view[n]);
        if Lacks(reg.flags, flags) || reg.min >= inMax || reg.max <= inMin {
          OutOfRange(view, mem.Length, n, flags, q);
        } else {
          r := AllocFromRegion(n, Request(size, alignBits, alignOfs, inMin, inMax));
          if r != 0 {
            k := n;
            return;
          }
        }
        n := n + 1;
      }
      return 0, 0;
    }

    /** Allocation with an alignment but no range. */
    method AllocAligned(size: nat, flags: bv32, alignBits: nat, alignOfs: nat) returns (r: nat, ghost k: nat)
      requires Valid() && size > 0 && NoWrap(view, flags, Request(size, alignBits, alignOfs, 0, ADDRESS_SPACE - 1))
      modifies this`view, mem, regions
      ensures Valid()
      ensures var q := Request(size, alignBits, alignOfs, 0, ADDRESS_SPACE - 1);
        if r == 0 then NoFit(old(view), flags, q) && view == old(view)
        else FirstFit(old(view), flags, q, k, r) && Taken(old(view), view, k, Down(r), Up(r + size))
      ensures forall x :: 0 <= x < mem.Length && !Free(old(view), x) ==> mem[x] == old(mem[x])
    {
      r, k := AllocGen(size, flags, alignBits, alignOfs, 0, ADDRESS_SPACE - 1);
    }

    /** First fit in region k for whole granules, with no constraint. */
    method AllocHead(k: nat, size: nat) returns (r: nat)
      requires Valid() && k < |regions| && size > 0 && size % GRAIN == 0
      modifies this`view, mem, regions
      ensures Valid()
      ensures r == 0 ==> NoFitIn(old(view[k]), Request(size, 0, 0, 0, ADDRESS_SPACE))
      ensures r == 0 ==> view == old(view) && mem[..] == old(mem[..])
      ensures r != 0 ==> r % GRAIN == 0 && Fits(old(view[k].blocks), Request(size, 0, 0, 0, ADDRESS_SPACE), r)
      ensures r != 0 ==> forall x: nat :: Fits(old(view[k].blocks), Request(size, 0, 0, 0, ADDRESS_SPACE), x) ==> r <= x
      ensures r != 0 ==> Taken(old(view), view, k, r, r + size)
      ensures forall x :: 0 <= x < mem.Length && !Free(old(view), x) ==> mem[x] == old(mem[x])
    {
      hide Linked, RegionSound, Covers, Total, Sound, Ordered, Coalesced, Taken, Free, Fits, NoneBefore, SystemSound;
      hide LeastCongruent, InBlock, Pow2;
      ghost var s, q := view[k].blocks, Request(size, 0, 0, 0, ADDRESS_SPACE);
      RegionInSystem(view, mem.Length, k);
      HeadOf(mem[..], regions[k].nodes, s);
      NoneBeforeFirst(s, q);
      var prev, node := 0, regions[k].nodes;
      ghost var i := 0;
      while node != 0
        invariant Valid() && view == old(view) && mem[..] == old(mem[..])
        invariant i <= |s| && node == AddrAt(s, i) && prev == if i == 0 then 0 else s[i - 1].addr
        invariant NoneBefore(s, q, i)
        decreases |s| - i
      {
        NodeOf(mem[..], regions[k].nodes, s, i);
        EndOnGranule(s, i);
        if mem[node + SIZE] >= size {
          AlignStart(node, 0);
          AlignedFits(s, q, i, node);
          HeadInBlock(s, i, size);
          Take(k, prev, node, node, size, i);
          return node;
        }
        TooSmall(s, q, i);
        prev, node := node, mem[node + NEXT];
        i := i + 1;
      }
      NoneAtAll(s, q, i);
      return 0;
    }

    /** Unconstrained allocation: first fit of whole granules. */
    method Alloc(size: nat, flags: bv32) returns (r: nat, ghost k: nat)
      requires Valid() && size > 0 && size + GRAIN <= ADDRESS_SPACE
      modifies this`view, mem, regions
      ensures Valid()
      ensures var q := Request(Up(size), 0, 0, 0, ADDRESS_SPACE);
        if r == 0 then NoFit(old(view), flags, q) && view == old(view)
        else FirstFit(old(view), flags, q, k, r) && r % GRAIN == 0 && Taken(old(view), view, k, r, r + Up(size))
      ensures forall x :: 0 <= x < mem.Length && !Free(old(view), x) ==> mem[x] == old(mem[x])
    {
      hide Linked, RegionSound, Covers, Total, Sound, Ordered, Coalesced, Taken, Free, Fits, SystemSound, Lacks, Pow2;
      var rounded := Up(size);
      var n := 0;
      while n < |regions|
        invariant n <= |regions| && Valid() && view == old(view) && mem[..] == old(mem[..])
        invariant forall j :: 0 <= j < n && HasFlags(view[j], flags) ==>
          NoFitIn(view[j], Request(rounded, 0, 0, 0, ADDRESS_SPACE))
      {
        assert Shows(mem[..], regions[n], view[n]);
        if !Lacks(regions[n].flags, flags) {
          r := AllocHead(n, rounded);
          if r != 0 {
            k := n;
            return;
          }
        }
        n := n + 1;
      }
      return 0, 0;
    }

    /** Puts the granules that enclose a block back into the free list of the region they lie in. */
    method FreeBlock(block: nat, size: nat, ghost k: nat)
      requires Valid() && block != 0 && size > 0 && k < |view|
      requires 0 < Down(block) && view[k].min <= Down(block) && Up(block + size) <= view[k].max
      requires Disjoint(view[k].blocks, Down(block), Up(block + size))
      modifies this`view, mem, regions
      ensures Valid() && Given(old(view), view, k, Down(block), Up(block + size))
      ensures forall x :: 0 <= x < mem.Length && !Free(old(view), x) && !(Down(block) <= x < Up(block + size)) ==>
        mem[x] == old(mem[x])
    {
      hide Linked, RegionSound, Covers, Total, Sound, Ordered, Coalesced, Free, SystemSound, Merged, Disjoint, Given;
      var node, bytes := Down(block), Up(block % GRAIN + size);
      GranulesOf(block, size);
      var n := 0;
      while n < |regions| && !(regions[n].min <= node < regions[n].max)
        invariant n <= k && Valid() && view == old(view) && mem[..] == old(mem[..])
        decreases |regions| - n
      {
        n := n + 1;
        assert n <= k by { assert Shows(mem[..], regions[k], view[k]); }
      }
      assert Shows(mem[..], regions[n], view[n]);
      if n != k {
        SoundPair(view, mem.Length, n, k);
      }
      ghost var v, s, m := view[k], view[k].blocks, mem[..];
      GiveChecks(view, mem.Length, k, node, node + bytes);
      FreeMemory(view, mem.Length, k);
      regions[n].GiveNode(mem, node, bytes, s);
      MergedRegion(v, node, node + bytes);
      Refresh(k, m, Merged(s, node, node + bytes));
      MergedGiven(old(view), mem.Length, k, node, node + bytes);
    }

    /** The walk over one region's nodes: stops at the first that ends beyond start or does not begin below found. */
    method WalkTo(reg: Region, start: nat, found: nat, ghost s: seq<Block>) returns (node: nat, ghost i: nat)
      requires Linked(mem[..], reg.nodes, s) && forall j :: 0 <= j < |s| ==> s[j].addr > 0
      ensures i <= |s| && node == AddrAt(s, i) && forall j :: 0 <= j < i ==> s[j].End() <= start
      ensures i < |s| ==> NodeAt(mem[..], node, AddrAt(s, i + 1), s[i].size) && (node < found ==> s[i].End() > start)
      ensures i < |s| <==> node != 0
    {
      hide Linked;
      node := reg.nodes;
      i := 0;
      HeadOf(mem[..], reg.nodes, s);
      if i < |s| {
        NodeOf(mem[..], reg.nodes, s, i);
      }
      while node != 0 && node < found && node + mem[node + SIZE] <= start
        invariant i <= |s| && node == AddrAt(s, i)
        invariant i < |s| ==> NodeAt(mem[..], node, AddrAt(s, i + 1), s[i].size)
        invariant forall j :: 0 <= j < i ==> s[j].End() <= start
        decreases |s| - i
      {
        node := mem[node + NEXT];
        i := i + 1;
        if i < |s| {
          NodeOf(mem[..], reg.nodes, s, i);
        }
      }
    }

    /** Finds the lowest free address from addr on, over all regions in whatever order they are kept,
        with the size of the free range that begins there and the flags of its region. */
    method FindFree(addr: nat) returns (found: nat, size: nat, flags: bv32, ghost k: nat)
      requires Valid() && addr + GRAIN <= ADDRESS_SPACE
      ensures if size == 0 then NothingFrom(view, Up(addr)) && found == ADDRESS_SPACE - 1
              else LowestFrom(view, Up(addr), found, size, flags, k)
    {
      hide Linked, RegionSound, Covers, Total, Sound, Ordered, Coalesced, SystemSound, Up, Lowest;
      hide NothingFrom, LowestFrom;
      var start := Up(addr);
      found, size, flags, k := ADDRESS_SPACE - 1, 0, 0, 0;
      LowestStart(view, addr);
      var n := 0;
      while n < |regions|
        invariant n <= |regions|
        invariant Lowest(view, n, start, found, size, flags, k)
      {
        var reg := regions[n];
        assert Shows(mem[..], reg, view[n]);
        RegionInSystem(view, mem.Length, n);
        ghost var s := view[n].blocks;
        HeadOf(mem[..], reg.nodes, s);
        if reg.nodes == 0 || reg.max <= start || reg.min > found {
          LowestSkip(view, mem.Length, n, start, found, size, flags, k);
        } else {
          var node;
          ghost var i;
          node, i := WalkTo(reg, start, found, s);
          if node != 0 && node < found {
            LowestFound(view, n, i, start, found, size, flags, k);
            if node > start {
              found, size := node, mem[node + SIZE];
            } else {
              found, size := start, mem[node + SIZE] - (start - node);
            }
            flags, k := reg.flags, n;
          } else {
            LowestKeep(view, n, i, start, found, size, flags, k);
          }
        }
        n := n + 1;
      }
      LowestEnd(view, mem.Length, start, found, size, flags, k);
    }

    /** A client writes a word of memory that is not free. */
    method Poke(a: nat, w: nat)
      requires Valid() && a < mem.Length && !Free(view, a)
      modifies mem
      ensures Valid() && mem[..] == old(mem[..])[a := w]
    {
      hide Linked, RegionSound, Covers, Total, SystemSound, Free;
      ghost var m := mem[..];
      mem[a] := w;
      forall j | 0 <= j < |regions| ensures Shows(mem[..], regions[j], view[j]) {
        assert Shows(m, regions[j], view[j]);
        NotFreeHere(view, j, a);
        RegionInSystem(view, mem.Length, j);
        LinkedFrame(m, mem[..], regions[j].nodes, view[j].blocks);
      }
    }

    lemma ViewSound()
      requires Valid()
      ensures SystemSound(view, mem.Length) && mem.Length < ADDRESS_SPACE
    {
    }

    /** Takes everything free out of a range of memory, one free range at a time. */
    method RemoveFree(block: nat, blockSize: nat)
      requires Valid() && blockSize > 0 && block + blockSize + GRAIN <= ADDRESS_SPACE
      modifies this`view, mem, regions
      ensures Valid() && Removed(old(view), view, Up(block), Up(block + blockSize))
      ensures forall x :: 0 <= x < mem.Length && !Free(old(view), x) ==> mem[x] == old(mem[x])
    {
      hide Linked, RegionSound, Covers, Total, Sound, Ordered, Coalesced, SystemSound, Up, Removed, Free, Fits, FirstFit;
      hide NothingFrom, LowestFrom, NoFit, Taken, Lacks;
      var rstart: nat, rend: nat := block, block + blockSize;
      ghost var lo, p := Up(block), Up(block);
      ghost var v0 := view;
      RemovedNothing(v0, lo);
      UpFacts(block, rend);
      while rstart < rend
        invariant Valid() && rstart < rend && lo <= Up(rstart) <= p <= Up(rend) && Removed(v0, view, lo, p)
        invariant forall x :: 0 <= x < mem.Length && !Free(v0, x) ==> mem[x] == old(mem[x])
        decreases Up(rend) - p
      {
        var size, flags;
        ghost var k;
        ghost var from := Up(rstart);
        UpFacts(rstart, rend);
        rstart, size, flags, k := FindFree(rstart);
        if size == 0 || rstart >= rend {
          RemovedAll(v0, view, mem.Length, lo, p, from, rend, rstart, size, flags, k);
          break;
        }
        LowestParts(view, from, rstart, size, flags, k);
        if rstart + size > rend {
          size := rend - rstart;
        }
        RemoveNext(v0, view, mem.Length, lo, p, from, rstart, size, flags, k);
        ghost var v := view;
        RemovedStillFree(v0, v, lo, p);
        ViewSound();
        UnalignedNoWrap(v, mem.Length, flags, Request(size, 0, 0, rstart, rstart + size));
        var ptr;
        ghost var k';
        ptr, k' := AllocGen(size, flags, 0, 0, rstart, size);
        RemoveTook(v0, v, view, mem.Length, lo, p, rstart, size, flags, k, ptr, k');
        assert ptr == rstart;
        UpFacts(rstart, rstart + size);
        UpFacts(rstart + size, rend);
        p := Up(rstart + size);
      }
    }

    /** Makes a block of memory free in every region it overlaps; whatever lies in no region is dropped. */
    method AddFree(block: nat, size: nat)
      requires Valid() && block > 0 && block + size + GRAIN <= ADDRESS_SPACE
      requires Up(block) <= Down(block + size)
      requires forall x: int :: Up(block) <= x < Down(block + size) ==> !Free(view, x)
      modifies this`view, mem, regions
      ensures Valid() && Added(old(view), view, |view|, Up(block), Down(block + size))
      ensures forall x :: 0 <= x < mem.Length && !Free(old(view), x) && !(Up(block) <= x < Down(block + size)) ==>
        mem[x] == old(mem[x])
    {
      hide Linked, RegionSound, Covers, Total, Sound, Ordered, Coalesced, SystemSound, Up, Down, Added, Free, Given, Disjoint;
      var min, max := Up(block), Down(block + size);
      ghost var v0 := view;
      AddedNothing(v0, min, max);
      Aligned(block, block + size);
      if max == min {
        AddedEmpty(v0, min);
        return;
      }
      var n := 0;
      while n < |regions|
        invariant n <= |regions| && |view| == |v0| && Valid() && Added(v0, view, n, min, max)
        invariant forall x :: 0 <= x < mem.Length && !Free(v0, x) && !(min <= x < max) ==> mem[x] == old(mem[x])
      {
        var reg := regions[n];
        assert Shows(mem[..], reg, view[n]);
        AddedRegion(v0, view, mem.Length, n, min, max);
        ghost var v := view;
        if max > reg.min && min < reg.max {
          var newMin, newMax := if min < reg.min then reg.min else min, if max > reg.max then reg.max else max;
          AlignedRange(newMin, newMax);
          AddedStillFree(v0, view, n, min, max);
          FreeBlock(newMin, newMax - newMin, n);
          AddedOne(v0, v, view, mem.Length, n, min, max, newMin, newMax);
        } else {
          AddedOutside(v0, view, mem.Length, n, min, max);
        }
        n := n + 1;
      }
    }
  }

  /** Each of the first n regions gained the bytes from lo up to hi that lie in its bounds; the
      others did not change. */
  ghost predicate Added(v: seq<RegionView>, v': seq<RegionView>, n: nat, lo: nat, hi: nat) {
    |v| == |v'| && forall k :: 0 <= k < |v| ==> if k < n then AddedIn(v[k], v'[k], lo, hi) else v'[k] == v[k]
  }

  ghost predicate AddedIn(v: RegionView, v': RegionView, lo: nat, hi: nat) {
    v' == v.(blocks := v'.blocks) &&
    forall x: int :: Covers(v'.blocks, x) <==> Covers(v.blocks, x) || (lo <= x < hi && v.min <= x < v.max)
  }

  lemma AddedNothing(v: seq<RegionView>, lo: nat, hi: nat)
    ensures Added(v, v, 0, lo, hi)
  {
  }

  lemma AddedEmpty(v: seq<RegionView>, lo: nat)
    ensures Added(v, v, |v|, lo, lo)
  {
  }

  lemma Aligned(a: nat, b: nat)
    requires 0 < a
    ensures 0 < Up(a) && Up(a) % GRAIN == 0 && Down(b) % GRAIN == 0
  {
  }

  lemma AlignedRange(lo: nat, hi: nat)
    requires lo % GRAIN == 0 && hi % GRAIN == 0 && lo <= hi
    ensures Down(lo) == lo && Up(lo + (hi - lo)) == hi
  {
  }

  /** The next region is still as it was, and has nothing of the new range free. */
  lemma AddedRegion(v0: seq<RegionView>, v: seq<RegionView>, limit: nat, n: nat, lo: nat, hi: nat)
    requires Added(v0, v, n, lo, hi) && n < |v| && SystemSound(v, limit)
    requires forall x: int :: lo <= x < hi ==> !Free(v0, x)
    ensures v[n] == v0[n] && Disjoint(v[n].blocks, lo, hi)
    ensures v[n].min % GRAIN == 0 && v[n].max % GRAIN == 0 && v[n].min < v[n].max <= limit
    ensures forall a: nat, b: nat {:trigger Disjoint(v[n].blocks, a, b)} ::
      lo <= a && b <= hi ==> Disjoint(v[n].blocks, a, b)
  {
    forall x: int | lo <= x < hi ensures !Covers(v[n].blocks, x) {
      assert !Free(v0, x);
    }
    assert RegionSound(v[n]);
  }

  lemma AddedStillFree(v0: seq<RegionView>, v: seq<RegionView>, n: nat, lo: nat, hi: nat)
    requires Added(v0, v, n, lo, hi)
    ensures forall x: int :: Free(v, x) ==> Free(v0, x) || lo <= x < hi
  {
    forall x: int | Free(v, x) ensures Free(v0, x) || lo <= x < hi {
      var k :| 0 <= k < |v| && Covers(v[k].blocks, x);
      if k < n {
        assert AddedIn(v0[k], v[k], lo, hi);
      }
      assert Covers(v0[k].blocks, x) || lo <= x < hi;
    }
  }

  lemma AddedOne(v0: seq<RegionView>, v: seq<RegionView>, v': seq<RegionView>, limit: nat, n: nat, lo: nat, hi: nat,
      a: nat, b: nat)
    requires Added(v0, v, n, lo, hi) && n < |v| && Given(v, v', n, a, b) && v[n] == v0[n]
    requires a == (if lo < v[n].min then v[n].min else lo) && b == (if hi > v[n].max then v[n].max else hi)
    ensures Added(v0, v', n + 1, lo, hi)
  {
    assert AddedIn(v0[n], v'[n], lo, hi);
    forall k | 0 <= k < |v0|
      ensures if k < n + 1 then AddedIn(v0[k], v'[k], lo, hi) else v'[k] == v0[k]
    {
      assert k != n ==> v'[k] == v[k];
      assert k < n ==> AddedIn(v0[k], v[k], lo, hi);
    }
  }

  lemma AddedOutside(v0: seq<RegionView>, v: seq<RegionView>, limit: nat, n: nat, lo: nat, hi: nat)
    requires Added(v0, v, n, lo, hi) && n < |v| && v[n] == v0[n] && (hi <= v[n].min || lo >= v[n].max)
    ensures Added(v0, v, n + 1, lo, hi)
  {
    assert AddedIn(v0[n], v[n], lo, hi);
  }

  /** Every region lost exactly its free bytes from lo up to hi. */
  ghost predicate Removed(v: seq<RegionView>, v': seq<RegionView>, lo: nat, hi: nat) {
    |v| == |v'| && forall k :: 0 <= k < |v| ==> RemovedIn(v[k], v'[k], lo, hi)
  }

  ghost predicate RemovedIn(v: RegionView, v': RegionView, lo: nat, hi: nat) {
    v' == v.(blocks := v'.blocks) &&
    forall x: int :: Covers(v'.blocks, x) <==> Covers(v.blocks, x) && !(lo <= x < hi)
  }

  lemma UpFacts(a: nat, b: nat)
    requires a <= b
    ensures Up(a) <= Up(b) && a <= Up(a) < a + GRAIN && Up(a) % GRAIN == 0
    ensures b < Up(a) ==> Up(b) <= Up(a)
  {
  }

  lemma RemovedNothing(v: seq<RegionView>, lo: nat)
    ensures Removed(v, v, lo, lo)
  {
  }

  lemma RemovedStillFree(v0: seq<RegionView>, v: seq<RegionView>, lo: nat, p: nat)
    requires Removed(v0, v, lo, p)
    ensures forall x: int :: Free(v, x) ==> Free(v0, x)
  {
    forall x: int | Free(v, x) ensures Free(v0, x) {
      var k :| 0 <= k < |v| && Covers(v[k].blocks, x);
      assert RemovedIn(v0[k], v[k], lo, p);
    }
  }

  /** Nothing more to remove: the free bytes that are left lie at or after the end of the range. */
  lemma RemovedAll(v0: seq<RegionView>, v: seq<RegionView>, limit: nat, lo: nat, p: nat, from: nat, rend: nat,
      found: nat, size: nat, flags: bv32, k: nat)
    requires SystemSound(v, limit) && Removed(v0, v, lo, p) && lo % GRAIN == 0 && from <= p <= Up(rend)
    requires if size == 0 then NothingFrom(v, from) else LowestFrom(v, from, found, size, flags, k)
    requires size == 0 || found >= rend
    ensures Removed(v0, v, lo, Up(rend))
  {
    forall j | 0 <= j < |v0| ensures RemovedIn(v0[j], v[j], lo, Up(rend)) {
      assert RemovedIn(v0[j], v[j], lo, p);
      forall x: int | Covers(v[j].blocks, x) && lo <= x ensures Up(rend) <= x {
        RegionInSystem(v, limit, j);
        LeftAfterEnd(v, j, lo, p, from, rend, found, size, flags, k, x);
      }
    }
  }

  lemma LeftAfterEnd(v: seq<RegionView>, j: nat, lo: nat, p: nat, from: nat, rend: nat,
      found: nat, size: nat, flags: bv32, k: nat, x: int)
    requires j < |v| && Ordered(v[j].blocks) && Covers(v[j].blocks, x) && lo <= x && lo % GRAIN == 0
    requires forall y: int :: lo <= y < p ==> !Covers(v[j].blocks, y)
    requires from <= p
    requires if size == 0 then NothingFrom(v, from) else LowestFrom(v, from, found, size, flags, k)
    requires size == 0 || found >= rend
    ensures Up(rend) <= x
  {
    GranuleFree(v[j].blocks, x);
    GranuleAfter(lo, x);
    assert Free(v, Granule(x));
    hide Granule, Up, Ordered;
    assert Granule(x) >= rend;
    UpLeast(rend, Granule(x));
  }

  lemma GranuleAfter(lo: nat, x: int)
    requires lo % GRAIN == 0 && lo <= x
    ensures lo <= Granule(x) <= x && Granule(x) % GRAIN == 0
  {
  }

  lemma UpLeast(a: nat, b: int)
    requires a <= b && b % GRAIN == 0
    ensures Up(a) <= b
  {
  }

  /** The granule that byte x lies in. */
  function Granule(x: int): int { x - x % GRAIN }

  /** Free memory is a set of whole granules. */
  lemma GranuleFree(s: seq<Block>, x: int)
    requires Ordered(s) && Covers(s, x)
    ensures Covers(s, Granule(x))
  {
    var i :| 0 <= i < |s| && Within(s[i], x);
    EndOnGranule(s, i);
    InsideCovers(s, i, Granule(x));
  }

  /** What is known when the next free range, cut at the end of the range to remove, is allocated. */
  lemma RemoveNext(v0: seq<RegionView>, v: seq<RegionView>, limit: nat, lo: nat, p: nat, from: nat,
      found: nat, size: nat, flags: bv32, k: nat)
    requires SystemSound(v, limit) && Removed(v0, v, lo, p) && lo <= from <= p && lo % GRAIN == 0 && from % GRAIN == 0
    requires k < |v| && flags == v[k].flags && from <= found && size > 0
    requires forall x: int :: from <= x < found ==> !Free(v, x)
    requires forall x: int :: found <= x < found + size ==> Covers(v[k].blocks, x)
    ensures p <= found && found % GRAIN == 0 && forall x: int :: lo <= x < found ==> !Free(v, x)
    ensures forall x: int :: found <= x < found + size ==> Covers(v[k].blocks, x)
  {
    assert RemovedIn(v0[k], v[k], lo, p);
    assert Covers(v[k].blocks, found);
    RegionInSystem(v, limit, k);
    GranuleFree(v[k].blocks, found);
    GranuleAfter(from, found);
    assert Free(v, Granule(found));
    hide Granule, SystemSound;
    forall x: int | lo <= x < found ensures !Free(v, x) {
      if x < p {
        forall j | 0 <= j < |v| ensures !Covers(v[j].blocks, x) {
          assert RemovedIn(v0[j], v[j], lo, p);
        }
      }
    }
  }

  lemma LowestParts(v: seq<RegionView>, start: nat, found: nat, size: nat, flags: bv32, k: nat)
    requires LowestFrom(v, start, found, size, flags, k)
    ensures k < |v| && flags == v[k].flags && start <= found
    ensures forall x: int :: start <= x < found ==> !Free(v, x)
    ensures forall x: int :: found <= x < found + size ==> Covers(v[k].blocks, x)
  {
  }

  /** A request without attributes is met by every region; a union of attributes asks for both. */
  lemma FlagsJoin(v: RegionView, a: bv32, b: bv32)
    ensures HasFlags(v, 0)
    ensures HasFlags(v, a | b) <==> HasFlags(v, a) && HasFlags(v, b)
  {
    MissingJoin(v.flags, a, b);
    hide Missing;
    NeitherMissing(Missing(v.flags, a), Missing(v.flags, b));
  }

  lemma MissingJoin(have: bv32, a: bv32, b: bv32)
    ensures Missing(have, 0) == 0 && Missing(have, a | b) == Missing(have, a) | Missing(have, b)
  {
  }

  lemma NeitherMissing(x: bv32, y: bv32)
    ensures x | y == 0 <==> x == 0 && y == 0
  {
  }

  /** A single attribute is there exactly when the region has its bit. */
  lemma FlagsSingle(v: RegionView, bit: bv32)
    requires bit != 0 && bit & (bit - 1) == 0
    ensures HasFlags(v, bit) <==> v.flags & bit != 0
  {
  }

  lemma OwnFlags(v: RegionView)
    ensures HasFlags(v, v.flags)
  {
  }

  /** The allocation that removes a free range returns the range's own address, and takes no byte
      of another region. */
  lemma RemoveTook(v0: seq<RegionView>, v: seq<RegionView>, v': seq<RegionView>, limit: nat, lo: nat, p: nat,
      found: nat, size: nat, flags: bv32, k: nat, ptr: nat, k': nat)
    requires SystemSound(v, limit) && Removed(v0, v, lo, p) && lo <= p <= found && found % GRAIN == 0 && size > 0
    requires k < |v| && flags == v[k].flags && forall x: int :: found <= x < found + size ==> Covers(v[k].blocks, x)
    requires forall x: int :: lo <= x < found ==> !Free(v, x)
    requires ptr == 0 ==> NoFit(v, flags, Request(size, 0, 0, found, found + size))
    requires ptr != 0 ==> FirstFit(v, flags, Request(size, 0, 0, found, found + size), k', ptr)
    requires ptr != 0 ==> Taken(v, v', k', Down(ptr), Up(ptr + size))
    ensures ptr == found && Removed(v0, v', lo, Up(found + size))
  {
    var q := Request(size, 0, 0, found, found + size);
    OwnFlags(v[k]);
    assert Fits(v[k].blocks, q, found);
    assert ptr == found;
    hide Pow2, Fits, NoFit, FirstFit, RegionSound;
    UpFacts(found, found + size);
    forall j | 0 <= j < |v0| ensures RemovedIn(v0[j], v'[j], lo, Up(found + size)) {
      assert RemovedIn(v0[j], v[j], lo, p);
      TookIn(v0[j], v, v', limit, lo, p, found, Up(found + size), k', j);
    }
  }

  lemma TookIn(w: RegionView, v: seq<RegionView>, v': seq<RegionView>, limit: nat, lo: nat, p: nat,
      from: nat, to: nat, k: nat, j: nat)
    requires SystemSound(v, limit) && Taken(v, v', k, from, to) && j < |v| && lo <= p <= from <= to
    requires RemovedIn(w, v[j], lo, p) && forall x: int :: lo <= x < from ==> !Free(v, x)
    ensures RemovedIn(w, v'[j], lo, to)
  {
    forall x: int ensures Covers(v'[j].blocks, x) <==> Covers(w.blocks, x) && !(lo <= x < to) {
      if Covers(v[j].blocks, x) && lo <= x < to {
        assert Free(v, x);
        if j != k {
          SoundPair(v, limit, j, k);
          CoveredInBounds(v[j], x);
          CoveredInBounds(v[k], x);
        }
      }
    }
  }

  /** The granule of byte x has a byte in common with the range of the given size at block. */
  ghost predicate Meets(x: int, block: nat, size: nat) {
    Granule(x) < block + size && block < Granule(x) + GRAIN
  }

  /** RemoveFree clears every granule that meets its range exactly when the range begins on a granule,
      or its first byte was not free to begin with. */
  lemma RemovesAllThatMeet(v: seq<RegionView>, v': seq<RegionView>, limit: nat, block: nat, size: nat)
    requires SystemSound(v, limit) && size > 0 && Removed(v, v', Up(block), Up(block + size))
    ensures (forall x: int :: Free(v', x) ==> !Meets(x, block, size)) <==> block % GRAIN == 0 || !Free(v, block)
  {
    hide SystemSound, Removed, RegionSound, Covers;
    if block % GRAIN != 0 && Free(v, block) {
      PartialGranuleStays(v, v', block, size);
      assert Meets(block, block, size);
    } else {
      forall x: int | Free(v', x) ensures !Meets(x, block, size) {
        var k :| 0 <= k < |v'| && Covers(v'[k].blocks, x);
        StillFree(v, v', k, x, Up(block), Up(block + size));
        SameGranule(v, limit, k, x, block);
        OutsideRange(x, block, size);
      }
    }
  }

  lemma PartialGranuleStays(v: seq<RegionView>, v': seq<RegionView>, block: nat, size: nat)
    requires Removed(v, v', Up(block), Up(block + size)) && block % GRAIN != 0 && Free(v, block)
    ensures Free(v', block)
  {
    var k :| 0 <= k < |v| && Covers(v[k].blocks, block);
    assert RemovedIn(v[k], v'[k], Up(block), Up(block + size));
    UpFacts(block, block);
    assert Covers(v'[k].blocks, block);
  }

  /** Such a range exists: removing bytes 12 to 19 of a free region leaves bytes 8 to 15 free, four of which lie
      in the range. */
  lemma PartialGranuleExample()
    ensures var v := [RegionView(8, 64, 0, [Block(8, 56)])];
      var v' := [RegionView(8, 64, 0, [Block(8, 8), Block(24, 40)])];
      SystemSound(v, 64) && SystemSound(v', 64) && Removed(v, v', Up(12), Up(12 + 8)) && Free(v, 12) &&
      forall x: int :: 12 <= x < 16 ==> Free(v', x)
  {
    var v := [RegionView(8, 64, 0, [Block(8, 56)])];
    var v' := [RegionView(8, 64, 0, [Block(8, 8), Block(24, 40)])];
    var s, t := v[0].blocks, v'[0].blocks;
    assert Up(12) == 16 && Up(20) == 24;
    forall x: int ensures Covers(t, x) <==> Covers(s, x) && !(16 <= x < 24) {
      assert Covers(s, x) <==> Within(s[0], x);
      assert Covers(t, x) <==> Within(t[0], x) || Within(t[1], x);
    }
    assert Covers(s, 12);
    forall x: int | 12 <= x < 16 ensures Free(v', x) {
      assert Covers(v'[0].blocks, x);
    }
  }

  lemma StillFree(v: seq<RegionView>, v': seq<RegionView>, k: nat, x: int, lo: nat, hi: nat)
    requires Removed(v, v', lo, hi) && k < |v'| && Covers(v'[k].blocks, x)
    ensures k < |v| && Covers(v[k].blocks, x) && !(lo <= x < hi)
  {
    assert RemovedIn(v[k], v'[k], lo, hi);
  }

  /** A byte outside the removed granules meets the range only in the granule of its first byte. */
  lemma OutsideRange(x: int, block: nat, size: nat)
    requires size > 0 && !(Up(block) <= x < Up(block + size))
    ensures Meets(x, block, size) ==> Granule(x) < block < Granule(x) + GRAIN && block % GRAIN != 0
  {
  }

  lemma GranuleWithin(a: nat, e: nat, x: int)
    requires a % GRAIN == 0 && e % GRAIN == 0 && a <= x < e
    ensures a <= Granule(x) && Granule(x) + GRAIN <= e
  {
  }

  /** The bytes of a granule are free together. */
  lemma SameGranule(v: seq<RegionView>, limit: nat, k: nat, x: int, y: int)
    requires SystemSound(v, limit) && k < |v| && Covers(v[k].blocks, x)
    ensures Granule(x) <= y < Granule(x) + GRAIN ==> Free(v, y)
  {
    var s := v[k].blocks;
    RegionInSystem(v, limit, k);
    hide SystemSound, RegionSound, Sound, Coalesced, Granule;
    var i :| 0 <= i < |s| && Within(s[i], x);
    EndOnGranule(s, i);
    GranuleWithin(s[i].addr, s[i].End(), x);
    if Granule(x) <= y < Granule(x) + GRAIN {
      InsideCovers(s, i, y);
    }
  }

  /** No byte from start on is free. */
  ghost predicate NothingFrom(v: seq<RegionView>, start: nat) {
    forall x: int :: start <= x ==> !Free(v, x)
  }

  /** found is the lowest free byte from start on; it lies in region k, which has the given flags,
      and size bytes from there on are free up to the end of their block. */
  ghost predicate LowestFrom(v: seq<RegionView>, start: nat, found: nat, size: nat, flags: bv32, k: nat) {
    k < |v| && flags == v[k].flags && start <= found && size > 0 &&
    (forall x: int :: start <= x < found ==> !Free(v, x)) &&
    (forall x: int :: found <= x < found + size ==> Covers(v[k].blocks, x)) &&
    !Covers(v[k].blocks, found + size)
  }

  /** The free range that begins at found inside some block ends, with the block, size bytes on. */
  ghost predicate RestOfBlock(s: seq<Block>, found: nat, size: nat) {
    exists i :: 0 <= i < |s| && Within(s[i], found) && s[i].End() == found + size
  }

  ghost predicate NoneIn(s: seq<Block>, lo: int, hi: int) {
    forall x: int :: lo <= x < hi ==> !Covers(s, x)
  }

  /** The search over the first n regions. */
  ghost predicate Lowest(v: seq<RegionView>, n: nat, start: nat, found: nat, size: nat, flags: bv32, k: nat) {
    n <= |v| && start % GRAIN == 0 && start <= found < ADDRESS_SPACE &&
    (forall j :: 0 <= j < n ==> NoneIn(v[j].blocks, start, found)) &&
    (size == 0 ==> found == ADDRESS_SPACE - 1) &&
    (size > 0 ==> k < n && flags == v[k].flags && RestOfBlock(v[k].blocks, found, size))
  }

  lemma LowestStart(v: seq<RegionView>, addr: nat)
    requires addr + GRAIN <= ADDRESS_SPACE
    ensures Lowest(v, 0, Up(addr), ADDRESS_SPACE - 1, 0, 0, 0)
  {
  }

  lemma LowestSkip(v: seq<RegionView>, limit: nat, n: nat, start: nat, found: nat, size: nat, flags: bv32, k: nat)
    requires SystemSound(v, limit) && Lowest(v, n, start, found, size, flags, k) && n < |v|
    requires v[n].blocks == [] || v[n].max <= start || v[n].min > found
    ensures Lowest(v, n + 1, start, found, size, flags, k)
  {
    forall x: int | start <= x < found ensures !Covers(v[n].blocks, x) {
      if Covers(v[n].blocks, x) {
        CoveredInBounds(v[n], x);
      }
    }
  }

  /** Nothing of the region lies between start and the first block that is not wholly before it. */
  lemma NoneBeforeBlock(s: seq<Block>, i: nat, start: nat, found: nat)
    requires Ordered(s) && i <= |s| && forall j :: 0 <= j < i ==> s[j].End() <= start
    requires i < |s| ==> found <= Max(s[i].addr, start)
    ensures NoneIn(s, start, found)
  {
    forall x: int | start <= x < found ensures !Covers(s, x) {
      forall j | 0 <= j < |s| ensures !Within(s[j], x) {
        if j > i {
          assert s[i].End() <= s[j].addr;
        }
      }
    }
  }

  lemma LowestKeep(v: seq<RegionView>, n: nat, i: nat, start: nat, found: nat, size: nat, flags: bv32, k: nat)
    requires Lowest(v, n, start, found, size, flags, k) && n < |v| && Ordered(v[n].blocks) && i <= |v[n].blocks|
    requires forall j :: 0 <= j < i ==> v[n].blocks[j].End() <= start
    requires i < |v[n].blocks| ==> found <= v[n].blocks[i].addr
    ensures Lowest(v, n + 1, start, found, size, flags, k)
  {
    hide Ordered;
    NoneBeforeBlock(v[n].blocks, i, start, found);
  }

  lemma LowestFound(v: seq<RegionView>, n: nat, i: nat, start: nat, found: nat, size: nat, flags: bv32, k: nat)
    requires Lowest(v, n, start, found, size, flags, k) && n < |v| && Ordered(v[n].blocks) && i < |v[n].blocks|
    requires forall j :: 0 <= j < i ==> v[n].blocks[j].End() <= start
    requires v[n].blocks[i].addr < found && v[n].blocks[i].End() > start
    ensures Lowest(v, n + 1, start, Max(v[n].blocks[i].addr, start),
                   v[n].blocks[i].End() - Max(v[n].blocks[i].addr, start), v[n].flags, n)
  {
    var s, f := v[n].blocks, Max(v[n].blocks[i].addr, start);
    EndOnGranule(s, i);
    NoneBeforeBlock(s, i, start, f);
    assert Within(s[i], f);
    hide Ordered;
  }

  lemma LowestEnd(v: seq<RegionView>, limit: nat, start: nat, found: nat, size: nat, flags: bv32, k: nat)
    requires SystemSound(v, limit) && limit <= ADDRESS_SPACE && Lowest(v, |v|, start, found, size, flags, k)
    ensures if size == 0 then NothingFrom(v, start) && found == ADDRESS_SPACE - 1
            else LowestFrom(v, start, found, size, flags, k)
  {
    if size == 0 {
      forall x: int | start <= x ensures !Free(v, x) {
        forall j | 0 <= j < |v| ensures !Covers(v[j].blocks, x) {
          NothingHigher(v[j], limit, start, x);
        }
      }
    } else {
      forall x: int | start <= x < found ensures !Free(v, x) {
        assert forall j :: 0 <= j < |v| ==> NoneIn(v[j].blocks, start, found);
      }
      RegionInSystem(v, limit, k);
      RestIsFree(v[k].blocks, found, size);
    }
  }

  lemma NothingHigher(v: RegionView, limit: nat, start: nat, x: int)
    requires RegionSound(v) && v.max <= limit <= ADDRESS_SPACE && start % GRAIN == 0 && start <= x
    requires NoneIn(v.blocks, start, ADDRESS_SPACE - 1)
    ensures !Covers(v.blocks, x)
  {
    if Covers(v.blocks, x) {
      var i :| 0 <= i < |v.blocks| && Within(v.blocks[i], x);
      EndOnGranule(v.blocks, i);
      var f := Max(v.blocks[i].addr, start);
      InsideCovers(v.blocks, i, f);
    }
  }

  lemma RestIsFree(s: seq<Block>, found: nat, size: nat)
    requires Sound(s) && RestOfBlock(s, found, size)
    ensures forall x: int :: found <= x < found + size ==> Covers(s, x)
    ensures !Covers(s, found + size)
  {
    var i :| 0 <= i < |s| && Within(s[i], found) && s[i].End() == found + size;
    forall x: int | found <= x < found + size ensures Covers(s, x) {
      InsideCovers(s, i, x);
    }
    NotCoveredAtEnd(s, i);
  }

  lemma HeadInBlock(s: seq<Block>, i: nat, size: nat)
    requires Ordered(s) && i < |s| && 0 < size <= s[i].size && size % GRAIN == 0
    ensures InBlock(s, i, s[i].addr, s[i].addr + size)
  {
    EndOnGranule(s, i);
  }

  lemma GranulesOf(addr: nat, size: nat)
    requires size > 0
    ensures Down(addr) + Up(addr % GRAIN + size) == Up(addr + size)
    ensures Down(addr) % GRAIN == 0 && Up(addr + size) % GRAIN == 0 && Up(addr % GRAIN + size) % GRAIN == 0
    ensures Down(addr) <= addr && addr + size <= Up(addr + size) && Up(addr % GRAIN + size) > 0
  {
  }

  lemma GiveChecks(v: seq<RegionView>, limit: nat, k: nat, lo: nat, hi: nat)
    requires SystemSound(v, limit) && k < |v| && v[k].min <= lo < hi <= v[k].max && Disjoint(v[k].blocks, lo, hi)
    ensures RegionSound(v[k]) && Sound(v[k].blocks) && hi <= limit
    ensures Total(Merged(v[k].blocks, lo, hi)) == Total(v[k].blocks) + (hi - lo)
  {
    MergedTotal(v[k].blocks, lo, hi);
  }

  lemma MergedGiven(v: seq<RegionView>, limit: nat, k: nat, lo: nat, hi: nat)
    requires SystemSound(v, limit) && k < |v| && lo < hi && Disjoint(v[k].blocks, lo, hi)
    ensures Given(v, v[k := v[k].(blocks := Merged(v[k].blocks, lo, hi))], k, lo, hi)
  {
    var s, t := v[k].blocks, Merged(v[k].blocks, lo, hi);
    hide Merged, RegionSound;
    assert Ordered(s) by { RegionParts(v[k]); }
    forall x: int ensures Covers(t, x) <==> Covers(s, x) || lo <= x < hi {
      MergedCovers(s, lo, hi, x);
    }
  }

  ghost predicate NoFitIn(v: RegionView, q: Request) {
    forall x: nat :: !Fits(v.blocks, q, x)
  }

  /** No region that has the flags can meet the request. */
  ghost predicate NoFit(v: seq<RegionView>, flags: bv32, q: Request) {
    forall j :: 0 <= j < |v| && HasFlags(v[j], flags) ==> NoFitIn(v[j], q)
  }

  /** r is the lowest address that meets the request in region k, the first region to have one. */
  ghost predicate FirstFit(v: seq<RegionView>, flags: bv32, q: Request, k: nat, r: nat) {
    k < |v| && HasFlags(v[k], flags) && Fits(v[k].blocks, q, r) &&
    (forall x: nat :: Fits(v[k].blocks, q, x) ==> r <= x) &&
    (forall j :: 0 <= j < k && HasFlags(v[j], flags) ==> NoFitIn(v[j], q))
  }

  /** For every block large enough for the request, some address in it or above it has the wanted low bits and
      room for the request below the top of the address space. */
  ghost predicate NoWrapIn(s: seq<Block>, q: Request) {
    forall i :: 0 <= i < |s| && s[i].size >= q.size ==> RoomAbove(Max(s[i].addr, q.lo), q.ofs, q.bits, q.size)
  }

  /** The same in every region that the search does not reject at once. */
  ghost predicate NoWrap(v: seq<RegionView>, flags: bv32, q: Request) {
    forall j :: 0 <= j < |v| && HasFlags(v[j], flags) && v[j].min < q.hi && q.lo < v[j].max ==> NoWrapIn(v[j].blocks, q)
  }

  /** Where there is room for size bytes at some wanted address, there is room at the least one. */
  lemma RoomForAll(start: nat, ofs: nat, bits: nat, size: nat)
    requires RoomAbove(start, ofs, bits, size)
    ensures RoomAbove(start, ofs, bits, 0)
    ensures forall a: nat :: LeastCongruent(a, start, ofs, bits) ==> a + size < ADDRESS_SPACE
  {
    hide Congruent;
    var x: nat :| start <= x && x + size < ADDRESS_SPACE && Congruent(x, ofs, bits);
  }

  /** Without an alignment nothing wraps. */
  lemma UnalignedNoWrap(v: seq<RegionView>, limit: nat, flags: bv32, q: Request)
    requires SystemSound(v, limit) && limit < ADDRESS_SPACE && q.bits == 0 && q.lo + q.size < ADDRESS_SPACE
    ensures NoWrap(v, flags, q)
  {
    PowZero();
    forall j | 0 <= j < |v| ensures NoWrapIn(v[j].blocks, q) {
      RegionInSystem(v, limit, j);
      var s := v[j].blocks;
      forall i | 0 <= i < |s| && s[i].size >= q.size ensures RoomAbove(Max(s[i].addr, q.lo), q.ofs, q.bits, q.size) {
        assert Congruent(Max(s[i].addr, q.lo), q.ofs, q.bits);
      }
    }
  }

  /** Nothing wraps when everything free lies low enough, however far up the regions reach. */
  lemma LowMemoryNoWrap(v: seq<RegionView>, flags: bv32, q: Request, top: nat)
    requires forall j, i :: 0 <= j < |v| && 0 <= i < |v[j].blocks| ==> v[j].blocks[i].End() <= top
    requires top + Pow2(q.bits) <= ADDRESS_SPACE && q.lo + q.size + Pow2(q.bits) <= ADDRESS_SPACE
    ensures NoWrap(v, flags, q)
  {
    hide Pow2, Congruent;
    forall j, i | 0 <= j < |v| && 0 <= i < |v[j].blocks| && v[j].blocks[i].size >= q.size
      ensures RoomAbove(Max(v[j].blocks[i].addr, q.lo), q.ofs, q.bits, q.size)
    {
      var start := Max(v[j].blocks[i].addr, q.lo);
      var a := SomeCongruent(start, q.ofs, q.bits);
      assert Congruent(a, q.ofs, q.bits);
    }
  }

  /** Room for n bytes at x, among free blocks. */
  ghost predicate Room(s: seq<Block>, x: int, n: nat) { forall y: int :: x <= y < x + n ==> Covers(s, y) }

  /** No region, whatever its attributes, has n free bytes in a row from an address on that, with the length of the
      head added, is a multiple of 2^bits. */
  ghost predicate NoRoom(v: seq<RegionView>, n: nat, head: nat, bits: nat) {
    forall k, x: nat :: 0 <= k < |v| && Mod(x + head, Pow2(bits)) == 0 ==> !Room(v[k].blocks, x, n)
  }

  lemma OutOfRange(v: seq<RegionView>, limit: nat, k: nat, flags: bv32, q: Request)
    requires SystemSound(v, limit) && k < |v| && q.size > 0
    requires Lacks(v[k].flags, flags) || v[k].min >= q.hi || v[k].max <= q.lo
    ensures HasFlags(v[k], flags) ==> NoFitIn(v[k], q)
  {
    if HasFlags(v[k], flags) {
      forall x: nat ensures !Fits(v[k].blocks, q, x) {
        if Fits(v[k].blocks, q, x) {
          FitInBounds(v[k], q, x);
        }
      }
    }
  }

  lemma FitInBounds(v: RegionView, q: Request, x: nat)
    requires RegionSound(v) && q.size > 0 && Fits(v.blocks, q, x)
    ensures v.min <= x < v.max && q.lo <= x < q.hi
  {
    assert Covers(v.blocks, x);
    CoveredInBounds(v, x);
  }

  lemma NotFreeHere(v: seq<RegionView>, k: nat, x: int)
    requires k < |v| && !Free(v, x)
    ensures !Covers(v[k].blocks, x)
  {
  }

  lemma RegionInSystem(v: seq<RegionView>, limit: nat, k: nat)
    requires SystemSound(v, limit) && k < |v|
    ensures RegionSound(v[k]) && Sound(v[k].blocks) && Ordered(v[k].blocks) && v[k].max <= limit
    ensures forall i :: 0 <= i < |v[k].blocks| ==> v[k].blocks[i].addr > 0 && v[k].blocks[i].End() <= v[k].max
  {
    forall i | 0 <= i < |v[k].blocks| ensures v[k].blocks[i].addr > 0 {
      EndOnGranule(v[k].blocks, i);
    }
  }

  lemma LeastIsAfter(a: nat, start: nat, ofs: nat, bits: nat)
    requires LeastCongruent(a, start, ofs, bits)
    ensures start <= a
  {
  }

  /** The granules that enclose size bytes at addr lie in the block the bytes lie in. */
  lemma EnclosingGranules(s: seq<Block>, i: nat, addr: nat, size: nat)
    requires Ordered(s) && i < |s| && size > 0 && s[i].addr <= addr && addr + size <= s[i].End()
    ensures Down(addr) + Up(addr % GRAIN + size) == Up(addr + size)
    ensures InBlock(s, i, Down(addr), Up(addr + size))
  {
    EndOnGranule(s, i);
    hide Ordered, Down, Up;
    GranulesOf(addr, size);
    GranulesInside(s[i].addr, addr, size, s[i].End());
  }

  lemma GranulesInside(a: nat, addr: nat, size: nat, b: nat)
    requires a % GRAIN == 0 && b % GRAIN == 0 && a <= addr && size > 0 && addr + size <= b
    ensures a <= Down(addr) && Up(addr + size) <= b
  {
  }

  lemma NoneAtAll(s: seq<Block>, q: Request, i: nat)
    requires NoneBefore(s, q, i) && i >= |s|
    ensures forall x: nat :: !Fits(s, q, x)
  {
  }

  /** What carving block i needs of the region and its memory. */
  lemma TakeChecks(v: seq<RegionView>, limit: nat, k: nat, i: nat, lo: nat, hi: nat)
    requires SystemSound(v, limit) && k < |v| && InBlock(v[k].blocks, i, lo, hi)
    ensures i < |v[k].blocks| && RegionSound(v[k]) && Ordered(v[k].blocks) && v[k].blocks[i].End() <= limit
    ensures i > 0 ==> v[k].blocks[i - 1].addr < limit
    ensures hi - lo <= Total(v[k].blocks)
    ensures Total(Carved(v[k].blocks, i, lo, hi)) == Total(v[k].blocks) - (hi - lo)
    ensures 0 < limit
  {
    CarvedTotal(v[k].blocks, i, lo, hi);
    if i > 0 {
      EndOnGranule(v[k].blocks, i - 1);
    }
  }

  /** Free bytes of a region are inside its bounds and free in the system. */
  lemma FreeMemory(v: seq<RegionView>, limit: nat, k: nat)
    requires SystemSound(v, limit) && k < |v|
    ensures forall x: int :: Covers(v[k].blocks, x) ==> v[k].min <= x < v[k].max && Free(v, x)
  {
    forall x: int | Covers(v[k].blocks, x) ensures v[k].min <= x < v[k].max && Free(v, x) {
      CoveredInBounds(v[k], x);
    }
  }

  lemma CarvedTaken(v: seq<RegionView>, limit: nat, k: nat, i: nat, lo: nat, hi: nat)
    requires SystemSound(v, limit) && k < |v| && InBlock(v[k].blocks, i, lo, hi)
    ensures Taken(v, v[k := v[k].(blocks := Carved(v[k].blocks, i, lo, hi))], k, lo, hi)
  {
    var s, t := v[k].blocks, Carved(v[k].blocks, i, lo, hi);
    hide Carved, RegionSound;
    assert Ordered(s) by { RegionParts(v[k]); }
    forall x: int | lo <= x < hi ensures Covers(s, x) {
      InsideCovers(s, i, x);
    }
    forall x: int ensures Covers(t, x) <==> Covers(s, x) && !(lo <= x < hi) {
      CarvedCovers(s, i, lo, hi, x);
    }
  }

  lemma SoundPair(v: seq<RegionView>, limit: nat, j: nat, k: nat)
    requires SystemSound(v, limit) && j < |v| && k < |v| && j != k
    ensures RegionSound(v[j]) && RegionSound(v[k]) && Apart(v[j], v[k])
  {
    if j < k {
      assert Apart(v[j], v[k]);
    } else {
      assert Apart(v[k], v[j]);
    }
  }
}
