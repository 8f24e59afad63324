/** The kernel's malloc layer on the List Memory Manager (410kern/malloc). A block is preceded by a
    word that holds its size, the word included. */
module Malloc {
  import opened Basics
  import opened Bits
  import opened FreeList
  import opened LmmRegion
  import opened LmmSearch
  import opened Lmm
  import opened LmmRuns

  const WORD: nat := 4

  /** The live chunk's size word is in place. */
  ghost predicate Headed(m: seq<nat>, c: Chunk) {
    c.addr % WORD == 0 && c.addr + c.size <= |m| && c.size >= WORD && m[c.addr] == c.size
  }

  ghost predicate AllHeaded(m: seq<nat>, live: set<Chunk>) {
    forall c :: c in live ==> Headed(m, c)
  }

  /** The memory of every chunk in the set is the same in m and m'. */
  ghost predicate Kept(m: seq<nat>, m': seq<nat>, chunks: set<Chunk>) {
    |m| == |m'| && forall c, x: nat :: c in chunks && c.addr <= x < c.addr + c.size && x < |m| ==> m'[x] == m[x]
  }

  lemma KeptHeaded(m: seq<nat>, m': seq<nat>, live: set<Chunk>)
    requires AllHeaded(m, live) && Kept(m, m', live)
    ensures AllHeaded(m', live)
  {
  }

  /** Memory changed only where it was free keeps every live chunk. */
  lemma FreeWritesKeep(v0: seq<RegionView>, v: seq<RegionView>, limit: nat, live: set<Chunk>, m: seq<nat>, m': seq<nat>)
    requires SystemSound(v0, limit) && SystemSound(v, limit) && Accounts(v0, v, live) && |m| == |m'|
    requires forall x :: 0 <= x < |m| && !Free(v, x) ==> m'[x] == m[x]
    ensures Kept(m, m', live)
  {
    forall c, x: nat | c in live && c.addr <= x < c.addr + c.size && x < |m| ensures m'[x] == m[x] {
      LiveNotFree(v0, v, limit, live, c);
      LiveSize(v0, v, live, c);
    }
  }

  /** Writing inside one live chunk keeps the others. */
  lemma OwnWritesKeep(v0: seq<RegionView>, v: seq<RegionView>, limit: nat, live: set<Chunk>, m: seq<nat>, m': seq<nat>,
      c: Chunk)
    requires SystemSound(v0, limit) && SystemSound(v, limit) && Accounts(v0, v, live) && c in live && |m| == |m'|
    requires forall x :: 0 <= x < |m| && !(c.addr <= x < c.addr + c.size) ==> m'[x] == m[x]
    ensures Kept(m, m', live - {c})
  {
    LiveSize(v0, v, live, c);
    forall d, x: nat | d in live - {c} && d.addr <= x < d.addr + d.size && x < |m| ensures m'[x] == m[x] {
      ChunksApart(v0, v, limit, live, c, d);
      LiveSize(v0, v, live, d);
    }
  }

  lemma OwnCellUsed(v0: seq<RegionView>, v: seq<RegionView>, limit: nat, live: set<Chunk>, c: Chunk)
    requires SystemSound(v0, limit) && SystemSound(v, limit) && Accounts(v0, v, live) && c in live
    ensures forall x: int :: c.addr <= x < c.addr + c.size ==> !Free(v, x)
  {
    LiveNotFree(v0, v, limit, live, c);
    LiveSize(v0, v, live, c);
  }

  /** The first n cells of chunk c hold in m' what those of chunk b held in m, except the size word. */
  ghost predicate PayloadMoved(m: seq<nat>, m': seq<nat>, b: Chunk, c: Chunk) {
    forall y: nat :: c.addr + WORD <= y < c.addr + Min(b.size, c.size) && y < |m'| && b.addr + (y - c.addr) < |m| ==>
      m'[y] == m[b.addr + (y - c.addr)]
  }

  class Heap {
    const lmm: Manager
    ghost const base: seq<RegionView>
    ghost var live: set<Chunk>

    constructor (lmm: Manager)
      requires lmm.Valid()
      ensures Valid() && this.lmm == lmm && base == lmm.view && live == {}
    {
      this.lmm, base, live := lmm, lmm.view, {};
      AccountsStart(lmm.view);
    }

    ghost predicate Valid()
      reads this, lmm, lmm.mem, lmm.regions
    {
      lmm.Valid() && SystemSound(base, lmm.mem.Length) && Accounts(base, lmm.view, live) &&
      AllHeaded(lmm.mem[..], live)
    }

    /** Writes the size word of a chunk. */
    method WriteSize(chunk: nat, total: nat, ghost v: seq<RegionView>, ghost chunks: set<Chunk>, ghost c: Chunk)
      requires lmm.Valid() && SystemSound(base, lmm.mem.Length) && v == lmm.view && Accounts(base, v, chunks)
      requires c in chunks && c.addr == chunk
      modifies lmm.mem
      ensures lmm.Valid() && chunk < lmm.mem.Length && lmm.mem[..] == old(lmm.mem[..])[chunk := total]
      ensures Kept(old(lmm.mem[..]), lmm.mem[..], chunks - {c}) && c.addr + c.size <= lmm.mem.Length
    {
      hide Accounts, Kept, SystemSound, Free, Lmm.Manager.Valid;
      ghost var m := lmm.mem[..];
      lmm.ViewSound();
      ChunkInMemory(base, v, lmm.mem.Length, chunks, c);
      OwnCellUsed(base, v, lmm.mem.Length, chunks, c);
      lmm.Poke(chunk, total);
      OwnWritesKeep(base, v, lmm.mem.Length, chunks, m, lmm.mem[..], c);
    }

    /** Gives a chunk back to the manager. */
    method GiveBack(chunk: nat, size: nat, ghost chunks: set<Chunk>, ghost c: Chunk)
      requires lmm.Valid() && SystemSound(base, lmm.mem.Length) && Accounts(base, lmm.view, chunks)
      requires c in chunks && c.addr == chunk && c.size == size
      modifies lmm`view, lmm.mem, lmm.regions
      ensures lmm.Valid() && Accounts(base, lmm.view, chunks - {c})
      ensures Given(old(lmm.view), lmm.view, c.k, c.Lo(), c.Hi())
      ensures Kept(old(lmm.mem[..]), lmm.mem[..], chunks - {c})
    {
      hide Accounts, Kept, Given, SystemSound, Down, Up, Free, Lmm.Manager.Valid;
      ghost var v, m := lmm.view, lmm.mem[..];
      lmm.ViewSound();
      LiveCanBeFreed(base, v, lmm.mem.Length, chunks, c);
      LiveSize(base, v, chunks, c);
      ChunkEnds(c);
      lmm.FreeBlock(chunk, size, c.k);
      AccountsGiven(base, v, lmm.view, chunks, c);
      FreeingKeeps(base, v, lmm.mem.Length, chunks, m, lmm.mem[..], c);
    }

    /** Enters a chunk just taken from the manager among the live ones and writes its size word. */
    method Enter(ghost v: seq<RegionView>, ghost m: seq<nat>, chunk: nat, total: nat, ghost k: nat)
      requires lmm.Valid() && SystemSound(base, lmm.mem.Length) && Accounts(base, v, live) && AllHeaded(m, live)
      requires Kept(m, lmm.mem[..], live)
      requires chunk % WORD == 0 && total >= WORD && 0 < Down(chunk)
      requires Taken(v, lmm.view, k, Down(chunk), Up(chunk + total))
      modifies this`live, lmm.mem
      ensures Valid() && Chunk(k, chunk, total) !in old(live) && live == old(live) + {Chunk(k, chunk, total)}
      ensures Kept(m, lmm.mem[..], old(live))
      ensures chunk < lmm.mem.Length && lmm.mem[..] == old(lmm.mem[..])[chunk := total]
    {
      hide Accounts, AllHeaded, Kept, Taken, SystemSound, Down, Up, Free, Lmm.Manager.Valid;
      ghost var c := Chunk(k, chunk, total);
      ghost var m1, live0 := lmm.mem[..], live;
      ChunkEnds(c);
      AccountsTaken(base, v, lmm.view, live, c);
      live := live + {c};
      assert live - {c} == live0;
      WriteSize(chunk, total, lmm.view, live, c);
      KeptChain(m, m1, lmm.mem[..], live0);
      KeptHeaded(m, lmm.mem[..], live0);
      HeadedMore(lmm.mem[..], live0, c);
    }

    /** Allocates size bytes, or returns null (0) when no region has a large enough free range. */
    method Alloc(size: nat) returns (buf: nat, ghost c: Chunk)
      requires Valid() && size + WORD + GRAIN <= ADDRESS_SPACE
      modifies this`live, lmm`view, lmm.mem, lmm.regions
      ensures Valid() && Kept(old(lmm.mem[..]), lmm.mem[..], old(live))
      ensures buf == 0 ==> live == old(live) && lmm.view == old(lmm.view)
      ensures buf == 0 ==> NoFit(old(lmm.view), 0, Request(Up(size + WORD), 0, 0, 0, ADDRESS_SPACE))
      ensures buf == 0 ==> NoRoom(old(lmm.view), size + WORD, 0, 0)
      ensures buf != 0 ==> c !in old(live) && live == old(live) + {c} && c.size == size + WORD
      ensures buf != 0 ==> buf == c.addr + WORD && c.addr % GRAIN == 0
    {
      hide Accounts, AllHeaded, Kept, Taken, SystemSound, Down, Up, Free, Lmm.Manager.Valid, FirstFit, NoFit;
      c := Chunk(0, 0, 0);
      ghost var v, m := lmm.view, lmm.mem[..];
      lmm.ViewSound();
      var total := size + WORD;
      var chunk;
      ghost var k;
      chunk, k := lmm.Alloc(total, 0);
      FreeWritesKeep(base, v, lmm.mem.Length, live, m, lmm.mem[..]);
      if chunk == 0 {
        NoRoomAnywhere(v, lmm.mem.Length, total);
        KeptHeaded(m, lmm.mem[..], live);
        return 0, c;
      }
      c := Chunk(k, chunk, total);
      GrainedChunk(chunk, total);
      Enter(v, m, chunk, total, k);
      return chunk + WORD, c;
    }

    /** Frees a block by the size its header word holds. */
    method Release(buf: nat, ghost c: Chunk)
      requires Valid() && c in live && buf == c.addr + WORD
      modifies this`live, lmm`view, lmm.mem, lmm.regions
      ensures Valid() && live == old(live) - {c} && Given(old(lmm.view), lmm.view, c.k, c.Lo(), c.Hi())
      ensures Kept(old(lmm.mem[..]), lmm.mem[..], live)
    {
      hide Accounts, AllHeaded, Kept, Given, SystemSound, Down, Up, Free, Lmm.Manager.Valid;
      ghost var m := lmm.mem[..];
      var chunk := buf - WORD;
      HeaderOf(m, live, c);
      GiveBack(chunk, lmm.mem[chunk], live, c);
      live := live - {c};
      HeadedLess(m, old(live), c);
      KeptHeaded(m, lmm.mem[..], live);
    }

    /** Allocates size bytes at a multiple of the least power of two that is at least the alignment. */
    method MemAlign(alignment: nat, size: nat) returns (buf: nat, ghost c: Chunk, ghost shift: nat)
      requires Valid() && size + WORD < ADDRESS_SPACE && alignment <= ADDRESS_SPACE / 2
      requires forall s: nat :: LeastShift(alignment, s) ==> NoWrap(lmm.view, 0, HeaderRequest(size + WORD, s))
      modifies this`live, lmm`view, lmm.mem, lmm.regions
      ensures Valid() && Kept(old(lmm.mem[..]), lmm.mem[..], old(live))
      ensures LeastShift(alignment, shift)
      ensures buf == 0 ==> live == old(live) && lmm.view == old(lmm.view)
      ensures buf == 0 ==> NoFit(old(lmm.view), 0, HeaderRequest(size + WORD, shift))
      ensures buf == 0 ==> NoRoom(old(lmm.view), size + WORD, WORD, shift)
      ensures buf != 0 ==> c !in old(live) && live == old(live) + {c} && c.size == size + WORD
      ensures buf != 0 ==> buf == c.addr + WORD && Mod(buf, Pow2(shift)) == 0
    {
      hide Accounts, AllHeaded, Kept, Taken, SystemSound, Down, Up, Free, Lmm.Manager.Valid, FirstFit, NoFit, Pow2, Mod;
      hide LeastShift, NoWrap;
      c := Chunk(0, 0, 0);
      ghost var v, m := lmm.view, lmm.mem[..];
      lmm.ViewSound();
      var bits := ShiftFor(alignment);
      shift := bits;
      RequestIs(size + WORD, bits);
      var total := size + WORD;
      var chunk;
      ghost var k;
      chunk, k := lmm.AllocAligned(total, 0, bits, U32(Pow2(bits) - WORD));
      FreeWritesKeep(base, v, lmm.mem.Length, live, m, lmm.mem[..]);
      if chunk == 0 {
        NoAlignedRoom(v, lmm.mem.Length, total, bits);
        KeptHeaded(m, lmm.mem[..], live);
        return 0, c, shift;
      }
      c := Chunk(k, chunk, total);
      AlignedChunk(v, lmm.mem.Length, k, chunk, total, bits);
      Enter(v, m, chunk, total, k);
      return chunk + WORD, c, shift;
    }

    /** memcpy from one live chunk to another, cell by cell. */
    method Copy(to: nat, from: nat, n: nat)
      requires lmm.Valid() && to + n <= lmm.mem.Length && from + n <= lmm.mem.Length
      requires to + n <= from || from + n <= to
      requires forall x: int :: to <= x < to + n ==> !Free(lmm.view, x)
      modifies lmm.mem
      ensures lmm.Valid()
      ensures forall x :: to <= x < to + n ==> lmm.mem[x] == old(lmm.mem[from + (x - to)])
      ensures forall x :: 0 <= x < lmm.mem.Length && !(to <= x < to + n) ==> lmm.mem[x] == old(lmm.mem[x])
    {
      hide Free, Lmm.Manager.Valid;
      var i := 0;
      while i < n
        invariant i <= n && lmm.Valid()
        invariant forall x :: to <= x < to + i ==> lmm.mem[x] == old(lmm.mem[from + (x - to)])
        invariant forall x :: 0 <= x < lmm.mem.Length && !(to <= x < to + i) ==> lmm.mem[x] == old(lmm.mem[x])
      {
        lmm.Poke(to + i, lmm.mem[from + i]);
        i := i + 1;
      }
    }

    /** Copies as much of chunk b as fits into a chunk just taken, size word included. */
    method CopyOver(ghost v: seq<RegionView>, ghost m: seq<nat>, op: nat, np: nat, total: nat, ghost b: Chunk,
        ghost c: Chunk)
      returns (oldSize: nat)
      requires lmm.Valid() && SystemSound(base, lmm.mem.Length) && v == lmm.view && Accounts(base, v, live + {c})
      requires AllHeaded(m, live) && Kept(m, lmm.mem[..], live)
      requires b in live && c !in live && op == b.addr && np == c.addr && total == c.size
      modifies lmm.mem
      ensures lmm.Valid() && oldSize == b.size && Kept(m, lmm.mem[..], live)
      ensures c.addr + c.size <= lmm.mem.Length && b.addr + b.size <= |m|
      ensures forall x: nat :: np <= x < np + Min(b.size, total) ==> lmm.mem[x] == m[op + (x - np)]
    {
      hide Accounts, AllHeaded, Kept, SystemSound, Free, Lmm.Manager.Valid;
      ghost var m1, limit, both := lmm.mem[..], lmm.mem.Length, live + {c};
      lmm.ViewSound();
      ChunkInMemory(base, v, limit, both, c);
      ChunkInMemory(base, v, limit, both, b);
      OwnCellUsed(base, v, limit, both, c);
      ChunkBytesApart(base, v, limit, both, b, c);
      KeptHeaded(m, m1, live);
      HeaderOf(m1, live, b);
      KeptCells(m, m1, live, b);
      oldSize := lmm.mem[op];
      Copy(np, op, Min(oldSize, total));
      OwnWritesKeep(base, v, limit, both, m1, lmm.mem[..], c);
      assert both - {c} == live;
      KeptChain(m, m1, lmm.mem[..], live);
    }

    /** Second half of realloc: moves the block of chunk b to a chunk just taken, frees b and writes the
        new size word. */
    method Move(ghost v: seq<RegionView>, ghost m: seq<nat>, op: nat, np: nat, total: nat, ghost k: nat, ghost b: Chunk)
      requires lmm.Valid() && SystemSound(base, lmm.mem.Length)
      requires Accounts(base, v, live) && AllHeaded(m, live) && Kept(m, lmm.mem[..], live)
      requires np % WORD == 0 && total >= WORD && 0 < Down(np) && b in live && op == b.addr
      requires Taken(v, lmm.view, k, Down(np), Up(np + total))
      modifies this`live, lmm`view, lmm.mem, lmm.regions
      ensures Valid() && Chunk(k, np, total) !in old(live) && live == old(live) - {b} + {Chunk(k, np, total)}
      ensures Kept(m, lmm.mem[..], old(live) - {b}) && PayloadMoved(m, lmm.mem[..], b, Chunk(k, np, total))
    {
      hide Accounts, AllHeaded, Kept, Taken, Given, SystemSound, Down, Up, Free, Lmm.Manager.Valid, PayloadMoved;
      ghost var c, live0 := Chunk(k, np, total), live;
      ChunkEnds(c);
      AccountsTaken(base, v, lmm.view, live, c);
      var oldSize := CopyOver(lmm.view, m, op, np, total, b, c);
      ghost var m2 := lmm.mem[..];
      MovedCells(m, m2, b, c);
      GiveBack(op, oldSize, live + {c}, b);
      ghost var m3 := lmm.mem[..];
      live := live + {c} - {b};
      WriteSize(np, total, lmm.view, live, c);
      MoveKeeps(m, m2, m3, lmm.mem[..], live0, b, c);
      MoveHeads(m, lmm.mem[..], live0, b, c);
      MovePayload(m, m2, m3, total, live, b, c);
    }

    /** Changes the size of a block by moving it, or allocates when there is no old block. */
    method Realloc(buf: nat, newSize: nat, ghost b: Chunk) returns (r: nat, ghost c: Chunk)
      requires Valid() && newSize + WORD + GRAIN <= ADDRESS_SPACE
      requires buf != 0 ==> b in live && buf == b.addr + WORD
      modifies this`live, lmm`view, lmm.mem, lmm.regions
      ensures Valid()
      ensures r == 0 ==> live == old(live) && lmm.view == old(lmm.view) && Kept(old(lmm.mem[..]), lmm.mem[..], live)
      ensures r == 0 ==> NoFit(old(lmm.view), 0, Request(Up(newSize + WORD), 0, 0, 0, ADDRESS_SPACE))
      ensures r == 0 ==> NoRoom(old(lmm.view), newSize + WORD, 0, 0)
      ensures r != 0 ==> r == c.addr + WORD && c.size == newSize + WORD && c !in old(live)
      ensures r != 0 ==> live == (if buf == 0 then old(live) else old(live) - {b}) + {c}
      ensures r != 0 ==> Kept(old(lmm.mem[..]), lmm.mem[..], live - {c})
      ensures r != 0 && buf != 0 ==> PayloadMoved(old(lmm.mem[..]), lmm.mem[..], b, c)
    {
      hide Accounts, AllHeaded, Kept, Taken, SystemSound, Down, Up, Free, Lmm.Manager.Valid, FirstFit, NoFit;
      hide PayloadMoved;
      ghost var live0 := live;
      if buf == 0 {
        r, c := Alloc(newSize);
        if r != 0 {
          assert live - {c} == live0;
        }
        return;
      }
      c := Chunk(0, 0, 0);
      ghost var v, m := lmm.view, lmm.mem[..];
      lmm.ViewSound();
      var op, total := buf - WORD, newSize + WORD;
      var np;
      ghost var k;
      np, k := lmm.Alloc(total, 0);
      FreeWritesKeep(base, v, lmm.mem.Length, live, m, lmm.mem[..]);
      if np == 0 {
        NoRoomAnywhere(v, lmm.mem.Length, total);
        KeptHeaded(m, lmm.mem[..], live);
        return 0, c;
      }
      c := Chunk(k, np, total);
      GrainedChunk(np, total);
      Move(v, m, op, np, total, k, b);
      assert live - {c} == live0 - {b};
      return np + WORD, c;
    }
  }

  /** The request that MemAlign makes: a header word whose end has the low bits clear. */
  function HeaderRequest(total: nat, bits: nat): Request {
    Request(total, bits, U32(Pow2(bits) - WORD), 0, ADDRESS_SPACE - 1)
  }

  /** 2^s is the least power of two not below n. */
  ghost predicate LeastShift(n: nat, s: nat) {
    Pow2(s) >= n && (s == 0 || Pow2(s - 1) < n)
  }

  /** The shift is not above any that would do, so a power of two is its own alignment. */
  lemma LeastOfShifts(n: nat, s: nat, j: nat)
    requires LeastShift(n, s)
    ensures n <= Pow2(j) <==> s <= j
    ensures n == Pow2(j) ==> s == j
  {
    if s <= j {
      PowMonotone(s, j);
    } else {
      PowMonotone(j, s - 1);
    }
    if s < j {
      PowMonotone(s + 1, j);
    }
  }

  method ShiftFor(alignment: nat) returns (shift: nat)
    requires alignment <= ADDRESS_SPACE / 2
    ensures LeastShift(alignment, shift) && shift <= 31
  {
    hide Pow2;
    shift := 0;
    WordPowers();
    while Pow2(shift) < alignment
      invariant shift == 0 || Pow2(shift - 1) < alignment
      invariant shift <= 31
      decreases 31 - shift
    {
      shift := shift + 1;
    }
  }

  /** When no granules can be had, no region has the bytes asked for free in a row anywhere. */
  lemma NoRoomAnywhere(v: seq<RegionView>, limit: nat, total: nat)
    requires SystemSound(v, limit) && limit < ADDRESS_SPACE && total > 0
    requires NoFit(v, 0, Request(Up(total), 0, 0, 0, ADDRESS_SPACE))
    ensures NoRoom(v, total, 0, 0)
  {
    hide SystemSound, RegionSound, Covers, Pow2, Mod, Up, Fits, HasFlags;
    var q := Request(Up(total), 0, 0, 0, ADDRESS_SPACE);
    forall k, x: nat | 0 <= k < |v| ensures !Room(v[k].blocks, x, total) {
      FlagsJoin(v[k], 0, 0);
      RegionInSystem(v, limit, k);
      assert NoFitIn(v[k], q);
      if Room(v[k].blocks, x, total) {
        var a := GranulesFit(v[k].blocks, x, total, limit);
      }
    }
  }

  /** Where there is room for the bytes, there is room for the granules from the beginning of the block on. */
  lemma GranulesFit(s: seq<Block>, x: nat, total: nat, limit: nat) returns (a: nat)
    requires Sound(s) && total > 0 && Room(s, x, total) && limit < ADDRESS_SPACE
    requires forall i :: 0 <= i < |s| ==> s[i].End() <= limit
    ensures Fits(s, Request(Up(total), 0, 0, 0, ADDRESS_SPACE), a)
  {
    hide Covers, Pow2;
    var i := RangeInOneBlock(s, x, x + total);
    a := s[i].addr;
    PowZero();
    WholeGranules(s[i].size, total);
    forall y: int | a <= y < a + Up(total) ensures Covers(s, y) {
      InsideCovers(s, i, y);
    }
  }

  lemma WholeGranules(size: nat, total: nat)
    requires size % GRAIN == 0 && total <= size
    ensures Up(total) <= size
  {
  }

  /** When MemAlign finds nothing, no region has the bytes asked for free in a row with an aligned end of the
      header word. */
  lemma NoAlignedRoom(v: seq<RegionView>, limit: nat, total: nat, bits: nat)
    requires SystemSound(v, limit) && limit < ADDRESS_SPACE && total > 0 && bits <= 31
    requires NoFit(v, 0, HeaderRequest(total, bits))
    ensures NoRoom(v, total, WORD, bits)
  {
    hide SystemSound, RegionSound, Covers, Pow2, Mod, Congruent, HasFlags;
    var q := HeaderRequest(total, bits);
    RequestParts(total, bits);
    forall k, x: nat | 0 <= k < |v| && Mod(x + WORD, Pow2(bits)) == 0 ensures !Room(v[k].blocks, x, total) {
      FlagsJoin(v[k], 0, 0);
      RegionInSystem(v, limit, k);
      StartAligned(x, q.ofs, bits);
      assert NoFitIn(v[k], q);
      if Room(v[k].blocks, x, total) {
        RoomFits(v[k].blocks, x, q, limit);
      }
    }
  }

  lemma RoomFits(s: seq<Block>, x: nat, q: Request, limit: nat)
    requires Sound(s) && q.size > 0 && Room(s, x, q.size) && limit < ADDRESS_SPACE && Congruent(x, q.ofs, q.bits)
    requires q.lo == 0 && q.hi == ADDRESS_SPACE - 1 && forall i :: 0 <= i < |s| ==> s[i].End() <= limit
    ensures Fits(s, q, x)
  {
    var i := RangeInOneBlock(s, x, x + q.size);
  }

  lemma StartAligned(x: nat, y: nat, bits: nat)
    requires Mod(x + WORD, Pow2(bits)) == 0 && Mod(y + WORD, Pow2(bits)) == 0
    ensures Congruent(x, y, bits)
  {
    hide Pow2;
    var p := Pow2(bits);
    StartAlignedParts(x, y, p, (x + WORD) / p, (y + WORD) / p, y / p, y % p);
  }

  lemma StartAlignedParts(x: nat, y: nat, p: nat, a: nat, b: nat, c: nat, r: nat)
    requires p > 0 && x + WORD == p * a && y + WORD == p * b && y == p * c + r && r < p
    ensures Mod(x, p) == r && Mod(y, p) == r
  {
    assert x == p * (a - b + c) + r;
    DivModUnique(x, p, a - b + c, r);
    DivModUnique(y, p, c, r);
  }

  lemma RequestIs(total: nat, bits: nat)
    ensures HeaderRequest(total, bits) == Request(total, bits, U32(Pow2(bits) - WORD), 0, ADDRESS_SPACE - 1)
  {
  }

  /** The chunk that MemAlign gets holds a whole header word, and the block after it is aligned. */
  lemma AlignedChunk(v: seq<RegionView>, limit: nat, k: nat, chunk: nat, total: nat, bits: nat)
    requires SystemSound(v, limit) && FirstFit(v, 0, HeaderRequest(total, bits), k, chunk)
    requires total > 0 && bits <= 31
    ensures Mod(chunk + WORD, Pow2(bits)) == 0 && chunk % WORD == 0 && 0 < Down(chunk)
  {
    hide *;
    var q := HeaderRequest(total, bits);
    FirstFitParts(v, limit, q, k, chunk);
    RequestParts(total, bits);
    var i := FitInBlock(v[k].blocks, q, chunk);
    EndAligned(chunk, q.ofs, bits);
    if bits < 2 {
      StartFits(v[k].blocks, q, i, chunk);
      BlockStart(v[k].blocks, i);
    } else {
      WordAligned(chunk, bits);
      PastBlockStart(v[k].blocks, i, chunk);
    }
  }

  lemma FirstFitParts(v: seq<RegionView>, limit: nat, q: Request, k: nat, x: nat)
    requires SystemSound(v, limit) && FirstFit(v, 0, q, k, x)
    ensures k < |v| && Sound(v[k].blocks) && Fits(v[k].blocks, q, x) && Congruent(x, q.ofs, q.bits)
    ensures forall y: nat :: Fits(v[k].blocks, q, y) ==> x <= y
  {
  }

  lemma RequestParts(total: nat, bits: nat)
    requires bits <= 31
    ensures var q := HeaderRequest(total, bits); q.size == total && q.bits == bits && q.lo == 0
    ensures Mod(HeaderRequest(total, bits).ofs + WORD, Pow2(bits)) == 0
  {
    WordPowers();
    PowMonotone(bits, 31);
    hide Pow2;
    if bits >= 2 {
      PowMonotone(2, bits);
    }
    SmallPowers();
    OffsetOfPower(Pow2(bits));
  }

  lemma OffsetOfPower(p: nat)
    requires p == 1 || p == 2 || 4 <= p < ADDRESS_SPACE
    ensures Mod(U32(p - WORD) + WORD, p) == 0
  {
    if p >= 4 {
      DivModUnique(p, p, 1, 0);
    } else {
      assert U32(p - WORD) + WORD == ADDRESS_SPACE + p;
      DivModUnique(ADDRESS_SPACE + p, p, ADDRESS_SPACE / p + 1, 0);
    }
  }

  lemma EndAligned(x: nat, y: nat, bits: nat)
    requires Congruent(x, y, bits) && Mod(y + WORD, Pow2(bits)) == 0
    ensures Mod(x + WORD, Pow2(bits)) == 0
  {
    hide Pow2;
    var p := Pow2(bits);
    EndAlignedParts(x, y, p, x / p, y / p, (y + WORD) / p, x % p);
  }

  lemma EndAlignedParts(x: nat, y: nat, p: nat, a: nat, b: nat, c: nat, r: nat)
    requires p > 0 && x == p * a + r && y == p * b + r && y + WORD == p * c
    ensures Mod(x + WORD, p) == 0
  {
    assert x + WORD == p * (a + c - b);
    DivModUnique(x + WORD, p, a + c - b, 0);
  }

  lemma BlockStart(s: seq<Block>, i: nat)
    requires Sound(s) && i < |s|
    ensures s[i].addr % WORD == 0 && 0 < Down(s[i].addr)
  {
    EightIsWords(s[i].addr);
  }

  lemma EightIsWords(a: nat)
    requires a % 8 == 0
    ensures a % 4 == 0 && (a > 0 ==> a - a % 8 > 0)
  {
    DivModUnique(a, 4, 2 * (a / 8), 0);
  }

  lemma PastBlockStart(s: seq<Block>, i: nat, x: nat)
    requires Sound(s) && i < |s| && s[i].addr <= x
    ensures 0 < Down(x)
  {
  }

  /** With fewer than two low bits asked for, the start of a free block meets the request. */
  lemma StartFits(s: seq<Block>, q: Request, i: nat, x: nat)
    requires Sound(s) && i < |s| && s[i].addr <= x && x + q.size <= s[i].End() && q.lo == 0
    requires q.bits < 2 && Mod(q.ofs + WORD, Pow2(q.bits)) == 0
    requires Fits(s, q, x) && forall y: nat :: Fits(s, q, y) ==> x <= y
    ensures x == s[i].addr
  {
    hide Covers, Congruent, Pow2, Mod, Sound, Ordered, Coalesced;
    var a := s[i].addr;
    BlockStart(s, i);
    EvenStart(a, q.ofs, q.bits);
    forall y: int | a <= y < a + q.size ensures Covers(s, y) {
      InsideCovers(s, i, y);
    }
    var fits := Fits(s, q, a);
  }

  lemma EvenStart(a: nat, ofs: nat, bits: nat)
    requires a % WORD == 0 && bits < 2 && Mod(ofs + WORD, Pow2(bits)) == 0
    ensures Congruent(a, ofs, bits)
  {
    SmallPowers();
    hide Pow2;
    EvenRests(a, ofs);
  }

  lemma EvenRests(a: nat, ofs: nat)
    requires a % 4 == 0
    ensures a % 1 == ofs % 1 && a % 2 == 0 && (ofs + 4) % 2 == ofs % 2
  {
    DivModUnique(a, 2, 2 * (a / 4), 0);
    DivModUnique(ofs + 4, 2, ofs / 2 + 2, ofs % 2);
  }

  lemma WordAligned(x: nat, bits: nat)
    requires bits >= 2 && Mod(x + WORD, Pow2(bits)) == 0
    ensures x % WORD == 0
  {
    Pow2Add(2, bits - 2);
    SmallPowers();
    hide Pow2;
    FourDivides(x + WORD, Pow2(bits - 2), Pow2(bits), (x + WORD) / Pow2(bits));
  }

  lemma FourDivides(y: nat, r: nat, p: nat, c: nat)
    requires p == 4 * r && y == p * c
    ensures y % 4 == 0
  {
    assert p * c == 4 * (r * c);
  }

  lemma GrainedChunk(chunk: nat, total: nat)
    requires chunk % GRAIN == 0 && chunk > 0
    ensures Down(chunk) == chunk && Up(chunk + total) == chunk + Up(total) && chunk % WORD == 0
  {
    EightIsWords(chunk);
    UpShift(chunk / 8, chunk, total + 7);
  }

  lemma UpShift(q: nat, a: nat, x: nat)
    requires a == 8 * q
    ensures (a + x) % 8 == x % 8
  {
  }

  lemma HeaderOf(m: seq<nat>, live: set<Chunk>, c: Chunk)
    requires AllHeaded(m, live) && c in live
    ensures c.addr < |m| && m[c.addr] == c.size
  {
  }

  lemma HeadedLess(m: seq<nat>, live: set<Chunk>, c: Chunk)
    requires AllHeaded(m, live)
    ensures AllHeaded(m, live - {c})
  {
  }

  /** Freeing one chunk writes only its granules and free memory. */
  lemma FreeingKeeps(v0: seq<RegionView>, v: seq<RegionView>, limit: nat, live: set<Chunk>, m: seq<nat>, m': seq<nat>,
      c: Chunk)
    requires SystemSound(v0, limit) && SystemSound(v, limit) && Accounts(v0, v, live) && c in live && |m| == |m'|
    requires forall x :: 0 <= x < |m| && !Free(v, x) && !(c.Lo() <= x < c.Hi()) ==> m'[x] == m[x]
    ensures Kept(m, m', live - {c})
  {
    forall d, x: nat | d in live - {c} && d.addr <= x < d.addr + d.size && x < |m| ensures m'[x] == m[x] {
      LiveNotFree(v0, v, limit, live, d);
      ChunksApart(v0, v, limit, live, c, d);
      LiveSize(v0, v, live, d);
    }
  }

  lemma ChunkEnds(c: Chunk)
    ensures c.Lo() == Down(c.addr) && c.Hi() == Up(c.addr + c.size)
  {
  }

  lemma ChunkInMemory(v0: seq<RegionView>, v: seq<RegionView>, limit: nat, live: set<Chunk>, c: Chunk)
    requires SystemSound(v0, limit) && SystemSound(v, limit) && Accounts(v0, v, live) && c in live
    ensures c.addr + c.size <= limit && c.size > 0
  {
    LiveCanBeFreed(v0, v, limit, live, c);
    LiveSize(v0, v, live, c);
  }

  lemma KeptChain(m: seq<nat>, m': seq<nat>, m'': seq<nat>, chunks: set<Chunk>)
    requires Kept(m, m', chunks) && Kept(m', m'', chunks)
    ensures Kept(m, m'', chunks)
  {
  }

  lemma HeadedMore(m: seq<nat>, live: set<Chunk>, c: Chunk)
    requires AllHeaded(m, live) && Headed(m, c)
    ensures AllHeaded(m, live + {c})
  {
  }

  lemma ChunkBytesApart(v0: seq<RegionView>, v: seq<RegionView>, limit: nat, live: set<Chunk>, c: Chunk, d: Chunk)
    requires SystemSound(v0, limit) && SystemSound(v, limit) && Accounts(v0, v, live) && c in live && d in live && c != d
    ensures c.addr + c.size <= d.addr || d.addr + d.size <= c.addr
  {
    ChunksApart(v0, v, limit, live, c, d);
    LiveSize(v0, v, live, c);
    LiveSize(v0, v, live, d);
  }

  lemma MoveKeeps(m: seq<nat>, m2: seq<nat>, m3: seq<nat>, m4: seq<nat>, live: set<Chunk>, b: Chunk, c: Chunk)
    requires c !in live && Kept(m, m2, live) && Kept(m2, m3, live + {c} - {b}) && Kept(m3, m4, live + {c} - {b} - {c})
    ensures Kept(m, m4, live - {b})
  {
  }

  lemma MoveHeads(m: seq<nat>, m4: seq<nat>, live: set<Chunk>, b: Chunk, c: Chunk)
    requires AllHeaded(m, live) && Kept(m, m4, live - {b}) && Headed(m4, c) && b != c
    ensures AllHeaded(m4, live + {c} - {b})
  {
  }

  lemma MovedCells(m: seq<nat>, m': seq<nat>, b: Chunk, c: Chunk)
    requires c.addr + c.size <= |m'| && b.addr + b.size <= |m|
    requires forall x: nat :: c.addr <= x < c.addr + Min(b.size, c.size) ==> m'[x] == m[b.addr + (x - c.addr)]
    ensures PayloadMoved(m, m', b, c)
  {
  }

  lemma MovePayload(m: seq<nat>, m2: seq<nat>, m3: seq<nat>, w: nat, chunks: set<Chunk>, b: Chunk, c: Chunk)
    requires PayloadMoved(m, m2, b, c) && c in chunks && Kept(m2, m3, chunks) && c.addr < |m3|
    ensures PayloadMoved(m, m3[c.addr := w], b, c)
  {
  }

  lemma KeptCells(m: seq<nat>, m': seq<nat>, chunks: set<Chunk>, c: Chunk)
    requires Kept(m, m', chunks) && c in chunks
    ensures |m| == |m'| && forall x: nat :: c.addr <= x < c.addr + c.size && x < |m| ==> m'[x] == m[x]
  {
  }

  /** With nothing in use, the manager's free lists are exactly those the heap began with. */
  lemma AllFreedRestores(h: Heap)
    requires h.Valid() && h.live == {}
    ensures h.lmm.view == h.base
  {
    h.lmm.ViewSound();
    AccountsStart(h.base);
    LiveDetermines(h.base, h.lmm.view, h.base, h.lmm.mem.Length, {});
  }
}
