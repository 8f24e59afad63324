/** The user-level malloc: an implicit list of blocks with boundary tags (410user/libmalloc/mm_malloc.c).
    Memory has one cell per byte address; a word sits in the cell of its first byte. */
module BoundaryHeap {
  import opened Basics
  import opened Bits

  const WSIZE: nat := 4
  const DSIZE: nat := 8
  const OVERHEAD: nat := 8
  const CHUNKSIZE: nat := 4096
  const INT_MAX: nat := 0x7FFF_FFFF

  /** A block: the address of its payload, its size with both tags, and whether it is allocated. Its
      cells run from bp - 4, where the header is; the footer is at End() - 8. */
  datatype Block = Block(bp: nat, size: nat, alloc: bool) {
    function End(): nat { bp + size }
  }

  // ---------------------------------------------------------------- tag words

  function Pack(size: nat, alloc: bool): nat { Or(size, if alloc then 1 else 0) }

  /** The size field: the word with its low three bits clear. */
  function SizeOf(w: int): int { w - w % 8 }

  function AllocOf(w: int): bool { w % 2 == 1 }

  lemma PackParts(size: nat, alloc: bool)
    requires size % 8 == 0
    ensures SizeOf(Pack(size, alloc)) == size && AllocOf(Pack(size, alloc)) == alloc
  {
    var low := if alloc then 1 else 0;
    assert Pow2(3) == 8 && low < 8;
    OrDisjoint(size, low, 3);
    hide Or;
    LowBit(size, low);
  }

  lemma LowBit(size: nat, low: nat)
    requires size % 8 == 0 && low < 2
    ensures (size + low) % 8 == low && (size + low) % 2 == low
  {
    var q := size / 8;
    DivModUnique(size + low, 8, q, low);
    DivModUnique(size + low, 2, 4 * q, low);
  }

  // ---------------------------------------------------------------- tilings

  ghost predicate Adjacent(s: seq<Block>, i: nat)
    requires i + 1 < |s|
  {
    s[i].End() == s[i + 1].bp
  }

  ghost predicate Chain(s: seq<Block>) {
    forall i: nat :: i + 1 < |s| ==> Adjacent(s, i)
  }

  ghost predicate UserSize(b: Block) {
    b.size >= DSIZE + OVERHEAD && b.size % DSIZE == 0
  }

  /** The blocks tile the heap from the prologue, whose payload address is lo, up to the epilogue at end. */
  ghost predicate Shape(s: seq<Block>, lo: nat, end: nat) {
    |s| >= 1 && s[0] == Block(lo, OVERHEAD, true) && s[|s| - 1].End() == end && Chain(s) &&
    (forall i :: 1 <= i < |s| ==> UserSize(s[i])) && lo % DSIZE == 0 && lo >= DSIZE
  }

  /** Header and footer hold the size and the allocated bit. */
  ghost predicate Tags(m: seq<int>, b: Block) {
    WSIZE <= b.bp && DSIZE <= b.size && b.End() <= |m| && m[b.bp - WSIZE] == Pack(b.size, b.alloc) &&
    m[b.End() - DSIZE] == Pack(b.size, b.alloc)
  }

  ghost predicate Tagged(m: seq<int>, s: seq<Block>) {
    forall i :: 0 <= i < |s| ==> Tags(m, s[i])
  }

  ghost predicate Tiled(m: seq<int>, s: seq<Block>, lo: nat, end: nat) {
    Shape(s, lo, end) && Tagged(m, s) && WSIZE <= end <= |m| && m[end - WSIZE] == Pack(0, true)
  }

  ghost predicate BothFree(s: seq<Block>, i: nat)
    requires i + 1 < |s|
  {
    !s[i].alloc && !s[i + 1].alloc
  }

  /** No two neighbours are both free, except perhaps a pair that block k belongs to. */
  ghost predicate ApartFrom(s: seq<Block>, k: int) {
    forall i: nat :: i + 1 < |s| && i != k && i + 1 != k ==> !BothFree(s, i)
  }

  ghost predicate NoFreePair(s: seq<Block>) { ApartFrom(s, -1) }

  lemma {:induction false} InOrder(s: seq<Block>, i: nat, j: nat)
    requires Chain(s) && i < j < |s|
    ensures s[i].End() <= s[j].bp
  {
    if j == i + 1 {
      assert Adjacent(s, i);
    } else {
      InOrder(s, i, j - 1);
      assert Adjacent(s, j - 1);
    }
  }

  lemma {:induction false} OnGranule(s: seq<Block>, lo: nat, end: nat, i: nat)
    requires Shape(s, lo, end) && i < |s|
    ensures s[i].bp % DSIZE == 0 && lo <= s[i].bp && s[i].size % DSIZE == 0 && s[i].size >= DSIZE
    ensures s[i].End() <= end && end % DSIZE == 0
  {
    SizesOk(s, lo, end, i);
    FromStart(s, lo, end, i);
    FromStart(s, lo, end, |s| - 1);
    SizesOk(s, lo, end, |s| - 1);
    if i < |s| - 1 {
      InOrder(s, i, |s| - 1);
    }
    SumOfEights(s[|s| - 1].bp, s[|s| - 1].size);
  }

  lemma SizesOk(s: seq<Block>, lo: nat, end: nat, i: nat)
    requires Shape(s, lo, end) && i < |s|
    ensures s[i].size % DSIZE == 0 && s[i].size >= DSIZE && (i > 0 ==> UserSize(s[i]))
  {
  }

  lemma {:induction false} FromStart(s: seq<Block>, lo: nat, end: nat, i: nat)
    requires Shape(s, lo, end) && i < |s|
    ensures s[i].bp % DSIZE == 0 && lo <= s[i].bp
  {
    if i > 0 {
      FromStart(s, lo, end, i - 1);
      assert Adjacent(s, i - 1);
      SizesOk(s, lo, end, i - 1);
      SumOfEights(s[i - 1].bp, s[i - 1].size);
    }
  }

  lemma SumOfEights(a: nat, b: nat)
    requires a % 8 == 0 && b % 8 == 0
    ensures (a + b) % 8 == 0
  {
  }

  // ---------------------------------------------------------------- replacing blocks

  function Replaced(s: seq<Block>, a: nat, b: nat, mid: seq<Block>): seq<Block>
    requires a <= b <= |s|
  {
    s[..a] + mid + s[b..]
  }

  /** The new blocks cover what blocks a to b - 1 cover. */
  ghost predicate SameSpan(s: seq<Block>, a: nat, b: nat, mid: seq<Block>) {
    1 <= a < b <= |s| && |mid| >= 1 && Chain(mid) && mid[0].bp == s[a].bp &&
    mid[|mid| - 1].End() == s[b - 1].End() && forall i :: 0 <= i < |mid| ==> UserSize(mid[i])
  }

  /** Memory changed only in the cells of blocks a to b - 1. */
  ghost predicate OnlyWithin(m: seq<int>, m': seq<int>, s: seq<Block>, a: nat, b: nat)
    requires a < b <= |s|
  {
    |m| == |m'| && forall x :: 0 <= x < |m| && !(s[a].bp - WSIZE <= x < s[b - 1].End() - WSIZE) ==> m'[x] == m[x]
  }

  lemma ReplacedChain(s: seq<Block>, a: nat, b: nat, mid: seq<Block>)
    requires Chain(s) && SameSpan(s, a, b, mid)
    ensures Chain(Replaced(s, a, b, mid))
  {
    var r := Replaced(s, a, b, mid);
    forall i: nat | i + 1 < |r| ensures Adjacent(r, i) {
      if i + 1 < a {
        assert Adjacent(s, i);
      } else if i + 1 == a {
        assert Adjacent(s, i);
      } else if i + 1 < a + |mid| {
        assert Adjacent(mid, i - a);
      } else {
        assert Adjacent(s, i - a - |mid| + b);
      }
    }
  }

  lemma ReplacedShape(s: seq<Block>, lo: nat, end: nat, a: nat, b: nat, mid: seq<Block>)
    requires Shape(s, lo, end) && SameSpan(s, a, b, mid)
    ensures Shape(Replaced(s, a, b, mid), lo, end)
  {
    ReplacedChain(s, a, b, mid);
    hide Chain;
  }

  lemma ReplacedTagged(m: seq<int>, m': seq<int>, s: seq<Block>, a: nat, b: nat, mid: seq<Block>)
    requires Chain(s) && a < b <= |s| && Tagged(m, s) && OnlyWithin(m, m', s, a, b) && Tagged(m', mid)
    ensures Tagged(m', Replaced(s, a, b, mid))
  {
    var r := Replaced(s, a, b, mid);
    forall i | 0 <= i < |r| ensures Tags(m', r[i]) {
      if i < a {
        InOrder(s, i, a);
        assert Tags(m, s[i]);
        if a < b - 1 {
          InOrder(s, a, b - 1);
        }
      } else if i < a + |mid| {
        assert Tags(m', mid[i - a]);
      } else {
        var j := i - a - |mid| + b;
        InOrder(s, b - 1, j);
        if a < b - 1 {
          InOrder(s, a, b - 1);
        }
        assert Tags(m, s[j]) && r[i] == s[j];
      }
    }
  }

  /** Replacing blocks by others with the same span, and writing only there, keeps the heap tiled. */
  lemma ReplacedTiled(m: seq<int>, m': seq<int>, s: seq<Block>, lo: nat, end: nat, a: nat, b: nat, mid: seq<Block>)
    requires Tiled(m, s, lo, end) && SameSpan(s, a, b, mid) && OnlyWithin(m, m', s, a, b) && Tagged(m', mid)
    ensures Tiled(m', Replaced(s, a, b, mid), lo, end)
  {
    ReplacedShape(s, lo, end, a, b, mid);
    ReplacedTagged(m, m', s, a, b, mid);
    OnGranule(s, lo, end, b - 1);
    hide Shape, Tagged;
  }

  // ---------------------------------------------------------------- what the operations do to the blocks

  /** place: the first asize bytes of block i are allocated; the rest is split off when it can be a block. */
  function PlacedBlocks(b: Block, asize: nat): (r: seq<Block>)
    requires asize <= b.size
    ensures |r| >= 1
  {
    if b.size - asize >= DSIZE + OVERHEAD then
      [Block(b.bp, asize, true), Block(b.bp + asize, b.size - asize, false)]
    else [Block(b.bp, b.size, true)]
  }

  function Placed(s: seq<Block>, i: nat, asize: nat): seq<Block>
    requires i < |s| && asize <= s[i].size
  {
    Replaced(s, i, i + 1, PlacedBlocks(s[i], asize))
  }

  /** First and last-plus-one block that coalescing block i takes in. */
  function From(s: seq<Block>, i: nat): nat
    requires 1 <= i < |s|
  {
    if s[i - 1].alloc then i else i - 1
  }

  function To(s: seq<Block>, i: nat): nat
    requires i < |s|
  {
    if i + 1 < |s| && !s[i + 1].alloc then i + 2 else i + 1
  }

  /** Block i together with its free neighbours, as one free block. */
  function Whole(s: seq<Block>, i: nat): Block
    requires 1 <= i < |s|
  {
    var before := if s[i - 1].alloc then 0 else s[i - 1].size;
    var after := if i + 1 < |s| && !s[i + 1].alloc then s[i + 1].size else 0;
    Block(if s[i - 1].alloc then s[i].bp else s[i - 1].bp, before + s[i].size + after, false)
  }

  function Coalesced(s: seq<Block>, i: nat): seq<Block>
    requires 1 <= i < |s|
  {
    Replaced(s, From(s, i), To(s, i), [Whole(s, i)])
  }

  lemma PlacedSpan(s: seq<Block>, lo: nat, end: nat, i: nat, asize: nat)
    requires Shape(s, lo, end) && 1 <= i < |s| && UserSize(Block(0, asize, true)) && asize <= s[i].size
    ensures SameSpan(s, i, i + 1, PlacedBlocks(s[i], asize))
  {
  }

  lemma DifferenceOfEights(a: nat, b: nat)
    requires a % 8 == 0 && b % 8 == 0 && b <= a
    ensures (a - b) % 8 == 0
  {
  }

  lemma PlacedApart(s: seq<Block>, i: nat, asize: nat)
    requires NoFreePair(s) && 1 <= i < |s| && !s[i].alloc && asize <= s[i].size
    ensures NoFreePair(Placed(s, i, asize))
  {
    var r := Placed(s, i, asize);
    var n := |PlacedBlocks(s[i], asize)|;
    forall j: nat | j + 1 < |r| ensures !BothFree(r, j) {
      if j + 1 < i {
        assert !BothFree(s, j);
      } else if j >= i + n {
        assert !BothFree(s, j - n + 1);
      } else if j == i + n - 1 {
        assert !BothFree(s, i);
      }
    }
  }

  lemma CoalescedSpan(s: seq<Block>, lo: nat, end: nat, i: nat)
    requires Shape(s, lo, end) && 1 <= i < |s|
    ensures 1 <= From(s, i) <= i < To(s, i) <= |s| && SameSpan(s, From(s, i), To(s, i), [Whole(s, i)])
  {
    WholeBounds(s, lo, end, i);
    OneBlock(Whole(s, i));
    hide Shape, Chain, UserSize, From, To, Whole;
  }

  /** The combined block begins and ends with the blocks it takes in. */
  lemma WholeBounds(s: seq<Block>, lo: nat, end: nat, i: nat)
    requires Shape(s, lo, end) && 1 <= i < |s|
    ensures 1 <= From(s, i) <= i < To(s, i) <= |s| && UserSize(Whole(s, i))
    ensures Whole(s, i).bp == s[From(s, i)].bp && Whole(s, i).End() == s[To(s, i) - 1].End()
  {
    SizesOk(s, lo, end, i);
    SizesOk(s, lo, end, i - 1);
    assert Adjacent(s, i - 1);
    if i + 1 < |s| {
      assert Adjacent(s, i);
      SizesOk(s, lo, end, i + 1);
    }
    assert s[0].alloc;
    hide Shape, Chain, UserSize;
    ThreeSizes(if s[i - 1].alloc then 0 else s[i - 1].size, s[i], if To(s, i) == i + 2 then s[i + 1].size else 0, Whole(s, i));
  }

  lemma ThreeSizes(before: nat, b: Block, after: nat, w: Block)
    requires before % DSIZE == 0 && UserSize(b) && after % DSIZE == 0 && w.size == before + b.size + after
    ensures UserSize(w)
  {
    SumOfEights(before, b.size);
    SumOfEights(before + b.size, after);
  }

  lemma OneBlock(b: Block)
    ensures Chain([b])
  {
  }

  lemma CoalescedApart(s: seq<Block>, i: nat)
    requires 1 <= i < |s| && !s[i].alloc && ApartFrom(s, i)
    ensures NoFreePair(Coalesced(s, i))
  {
    var r, a, b := Coalesced(s, i), From(s, i), To(s, i);
    forall j: nat | j + 1 < |r| ensures !BothFree(r, j) {
      if j + 1 < a {
        assert !BothFree(s, j);
      } else if j + 1 == a {
        if a < i {
          assert !BothFree(s, j);
        }
      } else if j == a {
        if b == i + 2 {
          assert !BothFree(s, i + 1);
        }
      } else {
        assert !BothFree(s, j - 1 + b - a);
      }
    }
  }

  // ---------------------------------------------------------------- free memory

  /** The size of all free blocks together. */
  function FreeTotal(s: seq<Block>): nat {
    if s == [] then 0 else (if s[0].alloc then 0 else s[0].size) + FreeTotal(s[1..])
  }

  lemma {:induction false} FreeTotalConcat(s: seq<Block>, t: seq<Block>)
    ensures FreeTotal(s + t) == FreeTotal(s) + FreeTotal(t)
  {
    if s == [] {
      assert s + t == t;
    } else {
      FreeTotalConcat(s[1..], t);
      assert (s + t)[1..] == s[1..] + t;
    }
  }

  lemma FreeTotalReplaced(s: seq<Block>, a: nat, b: nat, mid: seq<Block>)
    requires a <= b <= |s|
    ensures FreeTotal(Replaced(s, a, b, mid)) + FreeTotal(s[a..b]) == FreeTotal(s) + FreeTotal(mid)
  {
    assert s == s[..a] + s[a..b] + s[b..];
    FreeTotalConcat(s[..a] + s[a..b], s[b..]);
    FreeTotalConcat(s[..a], s[a..b]);
    FreeTotalConcat(s[..a] + mid, s[b..]);
    FreeTotalConcat(s[..a], mid);
  }

  /** What placing a block takes from the free memory is the block that comes into use and nothing more. */
  lemma PlacedTotal(s: seq<Block>, i: nat, asize: nat)
    requires i < |s| && !s[i].alloc && asize <= s[i].size
    ensures FreeTotal(Placed(s, i, asize)) + PlacedBlocks(s[i], asize)[0].size == FreeTotal(s)
  {
    hide FreeTotal, Replaced;
    var mid := PlacedBlocks(s[i], asize);
    FreeTotalReplaced(s, i, i + 1, mid);
    assert s[i..i + 1] == [s[i]];
    OneOrTwo(s[i], s[i]);
    assert mid == if |mid| == 1 then [mid[0]] else [mid[0], mid[1]];
    OneOrTwo(mid[0], mid[|mid| - 1]);
  }

  lemma OneOrTwo(b: Block, c: Block)
    ensures FreeTotal([b]) == (if b.alloc then 0 else b.size)
    ensures FreeTotal([b, c]) == FreeTotal([b]) + (if c.alloc then 0 else c.size)
  {
    assert [b, c][1..] == [c] && [c][1..] == [];
  }

  lemma CoalescedTotal(s: seq<Block>, i: nat)
    requires 1 <= i < |s| && !s[i].alloc
    ensures FreeTotal(Coalesced(s, i)) == FreeTotal(s)
  {
    hide FreeTotal, Replaced;
    var a, b := From(s, i), To(s, i);
    FreeTotalReplaced(s, a, b, [Whole(s, i)]);
    OneOrTwo(Whole(s, i), s[i]);
    FreeTotalConcat(s[a..i], s[i..b]);
    assert s[a..b] == s[a..i] + s[i..b];
    assert s[a..i] == if a < i then [s[a]] else [];
    assert s[i..b] == if b == i + 2 then [s[i], s[i + 1]] else [s[i]];
    OneOrTwo(s[a], s[i]);
    if b == i + 2 {
      OneOrTwo(s[i], s[i + 1]);
      OneOrTwo(s[i + 1], s[i]);
    } else {
      OneOrTwo(s[i], s[i]);
    }
  }

  // ---------------------------------------------------------------- live blocks

  /** The blocks in use, the prologue among them. */
  ghost function Live(s: seq<Block>): set<Block> { set b | b in s && b.alloc }

  lemma LiveCoalesced(s: seq<Block>, i: nat)
    requires 1 <= i < |s| && !s[i].alloc
    ensures Live(Coalesced(s, i)) == Live(s)
  {
  }

  lemma LivePlaced(s: seq<Block>, i: nat, asize: nat)
    requires i < |s| && !s[i].alloc && asize <= s[i].size
    ensures Live(Placed(s, i, asize)) == Live(s) + {PlacedBlocks(s[i], asize)[0]}
  {
  }

  /** Two different blocks of a tiling have no cell in common. */
  lemma BlocksApart(s: seq<Block>, b: Block, c: Block)
    requires Chain(s) && b in s && c in s && b != c
    ensures b.End() <= c.bp || c.End() <= b.bp
  {
    var i :| 0 <= i < |s| && s[i] == b;
    var j :| 0 <= j < |s| && s[j] == c;
    if i < j {
      InOrder(s, i, j);
    } else {
      InOrder(s, j, i);
    }
  }

  /** The n cells from to on hold what those from from on held. */
  ghost predicate Copied(m: seq<int>, m': seq<int>, from: nat, to: nat, n: int) {
    forall y: nat :: to <= y < to + n && y < |m'| && from + (y - to) < |m| ==> m'[y] == m[from + (y - to)]
  }

  /** The payload cells of these blocks hold what they held. */
  ghost predicate PayloadsKept(m: seq<int>, m': seq<int>, live: set<Block>) {
    |m| <= |m'| && forall b, x: nat :: b in live && b.bp <= x < b.End() - DSIZE && x < |m| ==> m'[x] == m[x]
  }

  /** Writing only in the cells of blocks that are not in use keeps every payload in use. */
  lemma WithinFreeKeeps(m: seq<int>, m': seq<int>, s: seq<Block>, a: nat, b: nat)
    requires Chain(s) && a < b <= |s| && OnlyWithin(m, m', s, a, b)
    requires forall i :: a <= i < b ==> !s[i].alloc
    ensures PayloadsKept(m, m', Live(s))
  {
    forall c, x: nat | c in Live(s) && c.bp <= x < c.End() - DSIZE && x < |m| ensures m'[x] == m[x] {
      var i :| 0 <= i < |s| && s[i] == c;
      if i < a {
        InOrder(s, i, a);
      } else {
        assert i >= b;
        InOrder(s, b - 1, i);
      }
    }
  }

  // ---------------------------------------------------------------- the canonical tiling

  /** Two tilings of the same range, neither with two free neighbours, that have the same blocks in use
      are the same tiling. */
  lemma {:induction false} SamePrefix(s: seq<Block>, t: seq<Block>, lo: nat, end: nat, n: nat)
    requires Shape(s, lo, end) && Shape(t, lo, end) && NoFreePair(s) && NoFreePair(t) && Live(s) == Live(t)
    requires n <= |s| && n <= |t|
    ensures s[..n] == t[..n]
  {
    if n == 0 {
    } else if n == 1 {
      assert s[..1] == [s[0]] && t[..1] == [t[0]];
    } else {
      SamePrefix(s, t, lo, end, n - 1);
      var i := n - 1;
      SameStart(s, t, i);
      if s[i].alloc {
        LiveHere(s, t, i);
      } else if t[i].alloc {
        LiveHere(t, s, i);
      } else {
        FreeNotShorter(s, t, lo, end, i);
        FreeNotShorter(t, s, lo, end, i);
      }
      assert s[..n] == s[..i] + [s[i]] && t[..n] == t[..i] + [t[i]];
    }
  }

  lemma SameStart(s: seq<Block>, t: seq<Block>, i: nat)
    requires Chain(s) && Chain(t) && 1 <= i < |s| && i < |t| && s[..i] == t[..i]
    ensures s[i].bp == t[i].bp
  {
    assert Adjacent(s, i - 1) && Adjacent(t, i - 1);
    assert s[i - 1] == s[..i][i - 1] && t[i - 1] == t[..i][i - 1];
  }

  lemma LiveHere(s: seq<Block>, t: seq<Block>, i: nat)
    requires Chain(t) && i < |s| && i < |t| && s[i].bp == t[i].bp && s[i].alloc && Live(s) == Live(t)
    requires s[i].size > 0 && t[i].size > 0
    ensures s[i] == t[i]
  {
    assert s[i] in Live(s);
    if s[i] != t[i] {
      BlocksApart(t, s[i], t[i]);
    }
  }

  lemma FreeNotShorter(s: seq<Block>, t: seq<Block>, lo: nat, end: nat, i: nat)
    requires Shape(s, lo, end) && Shape(t, lo, end) && NoFreePair(s) && Live(s) == Live(t)
    requires i < |s| && i < |t| && s[i].bp == t[i].bp && !s[i].alloc && !t[i].alloc
    ensures s[i].size >= t[i].size
  {
    if s[i].size < t[i].size {
      OnGranule(t, lo, end, i);
      if i + 1 < |s| {
        assert Adjacent(s, i) && !BothFree(s, i);
        assert s[i + 1] in Live(s);
        SizesOk(s, lo, end, i + 1);
        BlocksApart(t, s[i + 1], t[i]);
        SizesOk(s, lo, end, i);
      }
    }
  }

  /** What is in use determines the whole tiling, whatever calls led to it. */
  lemma LiveDetermines(s: seq<Block>, t: seq<Block>, lo: nat, end: nat)
    requires Shape(s, lo, end) && Shape(t, lo, end) && NoFreePair(s) && NoFreePair(t) && Live(s) == Live(t)
    ensures s == t
  {
    var n := if |s| <= |t| then |s| else |t|;
    SamePrefix(s, t, lo, end, n);
    assert s[n - 1] == s[..n][n - 1] && t[n - 1] == t[..n][n - 1];
    SizesOk(t, lo, end, |t| - 1);
    SizesOk(s, lo, end, |s| - 1);
    if n < |t| {
      InOrder(t, n - 1, |t| - 1);
    }
    if n < |s| {
      InOrder(s, n - 1, |s| - 1);
    }
    assert s == s[..n] && t == t[..n];
  }

  /** What the cells around block i hold. */
  lemma Neighbours(m: seq<int>, s: seq<Block>, lo: nat, end: nat, i: nat)
    requires Tiled(m, s, lo, end) && 1 <= i < |s|
    ensures var b := s[i];
      b.bp >= lo + DSIZE && b.size >= DSIZE + OVERHEAD && b.End() <= end <= |m| &&
      SizeOf(m[b.bp - WSIZE]) == b.size && AllocOf(m[b.bp - WSIZE]) == b.alloc && m[b.End() - DSIZE] == m[b.bp - WSIZE]
    ensures var b, p := s[i], s[i - 1];
      p.bp >= DSIZE && p.size >= DSIZE && p.End() == b.bp && SizeOf(m[p.bp - WSIZE]) == p.size &&
      SizeOf(m[b.bp - DSIZE]) == p.size && AllocOf(m[b.bp - DSIZE]) == p.alloc && (!p.alloc ==> p.size >= DSIZE + OVERHEAD)
    ensures i + 1 == |s| ==> s[i].End() == end && SizeOf(m[end - WSIZE]) == 0 && AllocOf(m[end - WSIZE])
    ensures i + 1 < |s| ==> var n := s[i + 1];
      n.bp == s[i].End() && n.size >= DSIZE + OVERHEAD && n.End() <= end && SizeOf(m[n.bp - WSIZE]) == n.size &&
      AllocOf(m[n.bp - WSIZE]) == n.alloc && SizeOf(m[n.End() - DSIZE]) == n.size
  {
    hide Pack, SizeOf, AllocOf;
    OnGranule(s, lo, end, i);
    OnGranule(s, lo, end, i - 1);
    SizesOk(s, lo, end, i);
    SizesOk(s, lo, end, i - 1);
    assert Adjacent(s, i - 1);
    assert Tags(m, s[i]) && Tags(m, s[i - 1]);
    PackParts(s[i].size, s[i].alloc);
    PackParts(s[i - 1].size, s[i - 1].alloc);
    if i + 1 < |s| {
      OnGranule(s, lo, end, i + 1);
      SizesOk(s, lo, end, i + 1);
      assert Adjacent(s, i);
      assert Tags(m, s[i + 1]);
      PackParts(s[i + 1].size, s[i + 1].alloc);
    } else {
      PackParts(0, true);
    }
  }

  // ---------------------------------------------------------------- the heap

  /** The block size a request for size payload bytes is rounded up to. */
  function Adjusted(size: nat): nat {
    if size <= DSIZE then DSIZE + OVERHEAD else DSIZE * ((size + OVERHEAD + (DSIZE - 1)) / DSIZE)
  }

  lemma AdjustedFits(size: nat)
    requires size > 0
    ensures UserSize(Block(0, Adjusted(size), true)) && size + OVERHEAD <= Adjusted(size) < size + OVERHEAD + DSIZE
  {
    var q := (size + OVERHEAD + (DSIZE - 1)) / DSIZE;
    MulMod(DSIZE, q);
  }

  /** It is the least size of a block that has room for the payload and both tags. */
  lemma AdjustedLeast(size: nat, b: Block)
    requires size > 0 && UserSize(b)
    ensures size + OVERHEAD <= b.size <==> Adjusted(size) <= b.size
  {
    AdjustedFits(size);
    EightApart(Adjusted(size), b.size);
  }

  lemma EightApart(a: nat, b: nat)
    requires a % 8 == 0 && b % 8 == 0
    ensures b < a ==> b + 8 <= a
  {
  }

  /** A free block large enough for asize bytes. */
  ghost predicate Fits(b: Block, asize: int) { !b.alloc && asize <= b.size }

  ghost predicate NoFit(s: seq<Block>, asize: int) { forall j :: 0 <= j < |s| ==> !Fits(s[j], asize) }

  ghost predicate FirstFit(s: seq<Block>, asize: int, i: nat) {
    1 <= i < |s| && Fits(s[i], asize) && forall j :: 0 <= j < i ==> !Fits(s[j], asize)
  }

  class Heap {
    const mem: array<int>
    const start: nat
    var brk: nat
    var listp: nat
    ghost var blocks: seq<Block>

    /** The memory that the break may grow into begins at start. */
    constructor (mem: array<int>, start: nat)
      requires 0 < start <= mem.Length <= INT_MAX && start % DSIZE == 0
      ensures this.mem == mem && this.start == start && brk == start && listp == 0
    {
      this.mem, this.start, brk, listp, blocks := mem, start, start, 0, [];
    }

    ghost predicate Valid()
      reads this, mem
    {
      mem.Length <= INT_MAX && start > 0 && listp == start + DSIZE && brk <= mem.Length &&
      Tiled(mem[..], blocks, listp, brk) && NoFreePair(blocks)
    }

    /** The size field of the word at p. */
    function SizeAt(p: nat): int
      requires p < mem.Length
      reads mem
    {
      SizeOf(mem[p])
    }

    /** Moves the break up by incr bytes. It fails when memory ends, or when the kernel grants no pages. */
    method Sbrk(incr: int, granted: bool) returns (r: nat)
      requires 0 < brk <= mem.Length
      modifies this`brk
      ensures r != 0 <==> 0 <= incr && granted && old(brk) + incr <= mem.Length
      ensures r == 0 ==> brk == old(brk)
      ensures r != 0 ==> r == old(brk) && brk == r + incr && brk <= mem.Length
    {
      if incr < 0 || brk + incr > mem.Length || !granted {
        return 0;
      }
      r := brk;
      brk := brk + incr;
    }

    /** First fit along the implicit list. */
    method FindFit(asize: nat) returns (bp: nat, ghost i: nat)
      requires Valid() && asize > OVERHEAD
      ensures bp == 0 ==> NoFit(blocks, asize)
      ensures bp != 0 ==> FirstFit(blocks, asize, i) && bp == blocks[i].bp
    {
      hide Pack, SizeOf, AllocOf;
      bp := listp;
      i := 0;
      PackParts(0, true);
      while true
        invariant i <= |blocks| && bp == (if i < |blocks| then blocks[i].bp else brk) && bp >= WSIZE && bp <= mem.Length
        invariant forall j :: 0 <= j < i ==> !Fits(blocks[j], asize)
        decreases |blocks| - i
      {
        if i < |blocks| {
          OnGranule(blocks, listp, brk, i);
          assert Tags(mem[..], blocks[i]);
          PackParts(blocks[i].size, blocks[i].alloc);
          if i + 1 < |blocks| {
            assert Adjacent(blocks, i);
          }
        }
        if SizeOf(mem[bp - WSIZE]) <= 0 {
          break;
        }
        if !AllocOf(mem[bp - WSIZE]) && asize <= SizeOf(mem[bp - WSIZE]) {
          return;
        }
        bp := bp + SizeOf(mem[bp - WSIZE]);
        i := i + 1;
      }
      bp := 0;
    }

    /** Writes the word at p. */
    method Put(p: nat, w: int)
      requires p < mem.Length
      modifies mem
      ensures mem[..] == old(mem[..])[p := w]
    {
      mem[p] := w;
    }

    /** Writes header and footer; the footer is found through the header, as FTRP does. */
    method Tag(bp: nat, size: nat, alloc: bool)
      requires WSIZE <= bp && DSIZE <= size && bp + size <= mem.Length && size % DSIZE == 0
      modifies mem
      ensures Tags(mem[..], Block(bp, size, alloc))
      ensures forall x :: 0 <= x < mem.Length && x != bp - WSIZE && x != bp + size - DSIZE ==> mem[x] == old(mem[x])
    {
      hide Pack, SizeOf, AllocOf;
      PackParts(size, alloc);
      mem[bp - WSIZE] := Pack(size, alloc);
      mem[bp + SizeOf(mem[bp - WSIZE]) - DSIZE] := Pack(size, alloc);
    }

    /** Allocates the front of a free block and splits off the rest when it can be a block of its own. */
    method Place(bp: nat, asize: nat, ghost i: nat)
      requires Valid() && UserSize(Block(bp, asize, true)) && 1 <= i < |blocks| && Fits(blocks[i], asize) && bp == blocks[i].bp
      modifies this`blocks, mem
      ensures Valid() && blocks == Placed(old(blocks), i, asize)
      ensures OnlyWithin(old(mem[..]), mem[..], old(blocks), i, i + 1)
    {
      hide Pack, SizeOf, AllocOf, Shape, Chain, ApartFrom, Replaced;
      ghost var m, s, b := mem[..], blocks, blocks[i];
      OnGranule(s, listp, brk, i);
      assert Tags(m, b);
      PackParts(b.size, b.alloc);
      PlacedSpan(s, listp, brk, i, asize);
      PlacedApart(s, i, asize);
      var csize := SizeOf(mem[bp - WSIZE]);
      if csize - asize >= DSIZE + OVERHEAD {
        DifferenceOfEights(csize, asize);
        Tag(bp, asize, true);
        PackParts(asize, true);
        var next := bp + SizeOf(mem[bp - WSIZE]);
        Tag(next, csize - asize, false);
        assert Tags(mem[..], Block(bp, asize, true));
      } else {
        Tag(bp, csize, true);
      }
      blocks := Placed(blocks, i, asize);
      ReplacedTiled(m, mem[..], s, listp, brk, i, i + 1, PlacedBlocks(b, asize));
    }

    /** The case in which only the neighbour before is free. */
    method MergePrev(bp: nat, size: nat) returns (r: nat)
      requires DSIZE <= bp <= mem.Length && DSIZE <= SizeAt(bp - DSIZE) <= bp - WSIZE
      requires DSIZE <= SizeAt(bp - WSIZE) && bp + SizeAt(bp - WSIZE) <= mem.Length
      modifies mem
      ensures r == bp - old(SizeAt(bp - DSIZE)) && mem[..] ==
        old(mem[..])[bp + old(SizeAt(bp - WSIZE)) - DSIZE := Pack(size, false)][r - WSIZE := Pack(size, false)]
    {
      hide Pack, SizeOf;
      Put(bp + SizeAt(bp - WSIZE) - DSIZE, Pack(size, false));
      Put(bp - SizeAt(bp - DSIZE) - WSIZE, Pack(size, false));
      r := bp - SizeAt(bp - DSIZE);
    }

    /** The last of the four cases: tags the block that takes in both neighbours. */
    method MergeBoth(bp: nat, prev: nat, next: nat, size: nat) returns (r: nat)
      requires WSIZE <= prev && prev + DSIZE + OVERHEAD <= bp && bp + DSIZE <= next <= mem.Length
      requires SizeAt(bp - DSIZE) == bp - prev && SizeAt(next - WSIZE) >= DSIZE + OVERHEAD
      requires next + SizeAt(next - WSIZE) <= mem.Length
      modifies mem
      ensures r == prev
      ensures mem[..] ==
        old(mem[..])[prev - WSIZE := Pack(size, false)][next + old(SizeAt(next - WSIZE)) - DSIZE := Pack(size, false)]
    {
      hide Pack, SizeOf;
      Put(prev - WSIZE, Pack(size, false));
      Put(next + SizeAt(next - WSIZE) - DSIZE, Pack(size, false));
      r := bp - SizeAt(bp - DSIZE);
    }

    /** The four cases of boundary tag coalescing: tags the block that takes in the free neighbours. */
    method Merge(bp: nat, ghost s: seq<Block>, ghost i: nat) returns (r: nat)
      requires Tiled(mem[..], s, listp, brk) && 1 <= i < |s| && !s[i].alloc && bp == s[i].bp && listp >= DSIZE
      modifies mem
      ensures r == Whole(s, i).bp && Tags(mem[..], Whole(s, i))
      ensures forall x :: 0 <= x < mem.Length && !(r - WSIZE <= x < Whole(s, i).End() - WSIZE) ==> mem[x] == old(mem[x])
    {
      hide Pack, SizeOf, AllocOf, Tiled, Whole, Tags, Block.End;
      ghost var before, here, after, prevFree, nextFree := Around(mem[..], s, listp, brk, i);
      ghost var m, whole := mem[..], Whole(s, i);
      var prev := bp - SizeAt(bp - DSIZE);
      var next := bp + SizeAt(bp - WSIZE);
      var prevAlloc := AllocOf(mem[prev + SizeAt(prev - WSIZE) - DSIZE]);
      var nextAlloc := AllocOf(mem[next - WSIZE]);
      var size := SizeAt(bp - WSIZE);
      assert size == here && prevAlloc == !prevFree && nextAlloc == !nextFree;
      if prevAlloc && nextAlloc {
        r := bp;
        TwoPuts(m, mem[..], whole);
      } else if prevAlloc && !nextAlloc {
        size := size + SizeAt(next - WSIZE);
        assert size == whole.size;
        Put(bp - WSIZE, Pack(size, false));
        Put(bp + SizeAt(bp - WSIZE) - DSIZE, Pack(size, false));
        r := bp;
        TwoPuts(m, mem[..], whole);
      } else if !prevAlloc && nextAlloc {
        size := size + SizeAt(prev - WSIZE);
        assert size == whole.size;
        r := MergePrev(bp, size);
        assert r == whole.bp;
        TwoPuts(m, mem[..], whole);
      } else {
        size := size + SizeAt(prev - WSIZE) + SizeAt(next + SizeAt(next - WSIZE) - DSIZE);
        assert size == whole.size;
        r := MergeBoth(bp, prev, next, size);
        assert r == whole.bp;
        TwoPuts(m, mem[..], whole);
      }
    }

    /** Merges a free block with its free neighbours. */
    method Coalesce(bp: nat, ghost i: nat) returns (r: nat)
      requires mem.Length <= INT_MAX && start > 0 && listp == start + DSIZE && brk <= mem.Length
      requires Tiled(mem[..], blocks, listp, brk) && ApartFrom(blocks, i)
      requires 1 <= i < |blocks| && !blocks[i].alloc && bp == blocks[i].bp
      modifies this`blocks, mem
      ensures Valid() && blocks == Coalesced(old(blocks), i) && r == Whole(old(blocks), i).bp && r >= listp
      ensures Live(blocks) == Live(old(blocks)) && PayloadsKept(old(mem[..]), mem[..], Live(old(blocks)))
    {
      hide Tags, Tiled, ApartFrom, Whole, Replaced, Live, PayloadsKept;
      ghost var m, s := mem[..], blocks;
      r := Merge(bp, s, i);
      blocks := Coalesced(s, i);
      CoalescedTiled(m, mem[..], s, listp, brk, i);
      LiveCoalesced(s, i);
    }

    /** Extends the heap by a free block of an even number of words. */
    method ExtendHeap(words: nat, granted: bool) returns (r: nat)
      requires Valid() && words >= 4
      modifies this`brk, this`blocks, mem
      ensures Valid() && (r != 0 <==> granted && old(brk) + EvenBytes(words) <= mem.Length)
      ensures r == 0 ==> blocks == old(blocks) && brk == old(brk) && mem[..] == old(mem[..])
      ensures r != 0 ==> brk == old(brk) + EvenBytes(words)
      ensures r != 0 ==> blocks == Extended(old(blocks), old(brk), EvenBytes(words)) && r == blocks[|blocks| - 1].bp
      ensures PayloadsKept(old(mem[..]), mem[..], Live(old(blocks)))
    {
      hide Pack, SizeOf, AllocOf, Tiled, ApartFrom, Live, PayloadsKept, Coalesced, Whole;
      ghost var m, s, end, lo := mem[..], blocks, brk, listp;
      EvenBytesOk(words);
      TiledEnds(m, s, lo, end);
      KeptSame(m, Live(s));
      var size := if words % 2 != 0 then (words + 1) * WSIZE else words * WSIZE;
      var bp := Sbrk(size, granted);
      if bp == 0 {
        return 0;
      }
      PackParts(size, false);
      Put(bp - WSIZE, Pack(size, false));
      Put(bp + SizeAt(bp - WSIZE) - DSIZE, Pack(size, false));
      Put(bp + SizeAt(bp - WSIZE) - WSIZE, Pack(0, true));
      ghost var m1 := mem[..];
      blocks := s + [Block(end, size, false)];
      ExtendedTiled(m, m1, s, lo, end, size);
      ExtendedKeeps(m, m1, s, lo, end, size);
      r := Coalesce(bp, |s|);
      LiveExtended(s, end, size);
      KeptChain(m, m1, mem[..], Live(s));
    }

    /** mm_init: the prologue, the epilogue and a first free block of CHUNKSIZE bytes. The two flags say
        whether the kernel grants memory to the two requests. */
    method Init(granted: bool, grantedMore: bool) returns (ok: bool)
      requires 0 < start <= mem.Length <= INT_MAX && start % DSIZE == 0 && brk == start
      modifies this, mem
      ensures ok <==> granted && grantedMore && start + 4 * WSIZE + CHUNKSIZE <= mem.Length
      ensures ok ==> Valid() && brk == start + 4 * WSIZE + CHUNKSIZE
      ensures ok ==> blocks == [Block(listp, OVERHEAD, true), Block(listp + DSIZE, CHUNKSIZE, false)]
    {
      hide Pack, Coalesced, Extended, Tiled, ApartFrom, EvenBytes, PayloadsKept, Live;
      ghost var m := mem[..];
      listp := Sbrk(4 * WSIZE, granted);
      if listp == 0 {
        return false;
      }
      Put(listp, 0);
      Put(listp + WSIZE, Pack(OVERHEAD, true));
      Put(listp + DSIZE, Pack(OVERHEAD, true));
      Put(listp + WSIZE + DSIZE, Pack(0, true));
      listp := listp + DSIZE;
      blocks := [Block(listp, OVERHEAD, true)];
      FirstTiled(m, mem[..], start);
      var bp := ExtendHeap(CHUNKSIZE / WSIZE, grantedMore);
      FirstExtension(listp);
      ok := bp != 0;
    }

    /** A block with at least size bytes of payload, or null. */
    method Malloc(size: int, granted: bool) returns (bp: nat, ghost b: Block)
      requires Valid() && size + OVERHEAD + (DSIZE - 1) <= INT_MAX
      modifies this`brk, this`blocks, mem
      ensures Valid() && (size <= 0 ==> bp == 0)
      ensures bp == 0 ==> blocks == old(blocks) && brk == old(brk) && mem[..] == old(mem[..])
      ensures bp != 0 ==> b == Block(bp, b.size, true) && bp % DSIZE == 0 && size + OVERHEAD <= b.size
      ensures bp != 0 ==> b !in Live(old(blocks)) && Live(blocks) == Live(old(blocks)) + {b}
      ensures PayloadsKept(old(mem[..]), mem[..], Live(old(blocks)))
      ensures size > 0 && !NoFit(old(blocks), Adjusted(size)) ==>
        exists i: nat :: FirstFit(old(blocks), Adjusted(size), i) && blocks == Placed(old(blocks), i, Adjusted(size)) &&
          bp == old(blocks)[i].bp && brk == old(brk)
      ensures size > 0 && NoFit(old(blocks), Adjusted(size)) ==>
        (bp != 0 <==> granted && old(brk) + Max(Adjusted(size), CHUNKSIZE) <= mem.Length)
      ensures bp != 0 && NoFit(old(blocks), Adjusted(size)) ==> brk == old(brk) + Max(Adjusted(size), CHUNKSIZE)
      ensures size > 0 && bp == 0 ==> forall c :: c in old(blocks) && !c.alloc ==> c.size < size + OVERHEAD
      ensures bp != 0 ==> b.size < size + OVERHEAD + 2 * DSIZE
      ensures bp != 0 ==> FreeTotal(blocks) + b.size == FreeTotal(old(blocks)) + (brk - old(brk))
    {
      hide Pack, SizeOf, AllocOf, Tiled, ApartFrom, Live, PayloadsKept, Placed, Extended, NoFit, FirstFit, OnlyWithin;
      hide PlacedBlocks, Adjusted, EvenBytes, FreeTotal;
      ghost var m, s, end := mem[..], blocks, brk;
      b := Block(0, 0, false);
      KeptSame(m, Live(s));
      if size <= 0 {
        return 0, b;
      }
      AdjustedFits(size);
      var asize := Adjusted(size);
      ghost var i;
      bp, i := FindFit(asize);
      if bp != 0 {
        FitParts(s, asize, i);
        b := PlacedBlocks(s[i], asize)[0];
        PlacedLive(m, s, listp, end, i, asize);
        PlacedSize(m, s, listp, end, i, asize, size);
        Place(bp, asize, i);
        PlacedKeeps(m, mem[..], s, listp, end, i);
        return;
      }
      var extendSize := Max(asize, CHUNKSIZE);
      WordsOf(extendSize);
      bp := ExtendHeap(extendSize / WSIZE, granted);
      if bp == 0 {
        NoneLarge(m, s, listp, end, size);
        return 0, b;
      }
      ghost var m1, s1 := mem[..], blocks;
      LiveFirst(m, s, listp, end);
      ExtendedTotal(s, end, extendSize);
      i := |s1| - 1;
      ExtendedLast(m, s, listp, end, extendSize);
      b := PlacedBlocks(s1[i], asize)[0];
      PlacedLive(m1, s1, listp, brk, i, asize);
      PlacedSize(m1, s1, listp, brk, i, asize, size);
      Place(bp, asize, i);
      PlacedKeeps(m1, mem[..], s1, listp, brk, i);
      KeptChain(m, m1, mem[..], Live(s));
    }

    /** Frees a block in use; freeing null does nothing. */
    method Free(bp: nat, ghost b: Block)
      requires Valid() && (bp != 0 ==> b in Live(blocks) && b != blocks[0] && bp == b.bp)
      modifies this`blocks, mem
      ensures Valid() && (bp == 0 ==> blocks == old(blocks) && mem[..] == old(mem[..]))
      ensures bp != 0 ==> Live(blocks) == Live(old(blocks)) - {b} && blocks[0] == old(blocks)[0]
      ensures bp != 0 ==> FreeTotal(blocks) == FreeTotal(old(blocks)) + b.size
      ensures PayloadsKept(old(mem[..]), mem[..], Live(blocks))
    {
      hide Pack, SizeOf, AllocOf, Tiled, ApartFrom, Live, PayloadsKept, Coalesced, Whole;
      ghost var m, s, end, lo := mem[..], blocks, brk, listp;
      KeptSame(m, Live(s));
      if bp != 0 {
        ghost var i := LiveIndex(m, s, lo, end, b);
        var size := SizeAt(bp - WSIZE);
        PackParts(size, false);
        Put(bp - WSIZE, Pack(size, false));
        Put(bp + SizeAt(bp - WSIZE) - DSIZE, Pack(size, false));
        ghost var m1 := mem[..];
        blocks := s[i := Block(bp, size, false)];
        FreedTiled(m, m1, s, lo, end, i);
        FreedKeeps(m, m1, s, lo, end, i);
        ghost var s1 := blocks;
        FreedTotal(s, i, s1[i]);
        var r := Coalesce(bp, i);
        KeptChain(m, m1, mem[..], Live(s1));
      }
    }

    /** memcpy between ranges that do not overlap. */
    method Copy(to: nat, from: nat, n: nat)
      requires to + n <= mem.Length && from + n <= mem.Length && (to + n <= from || from + n <= to)
      modifies mem
      ensures forall x: nat :: to <= x < to + n ==> mem[x] == old(mem[from + (x - to)])
      ensures forall x: nat :: x < mem.Length && !(to <= x < to + n) ==> mem[x] == old(mem[x])
    {
      var i := 0;
      while i < n
        invariant i <= n
        invariant forall x: nat :: to <= x < to + i ==> mem[x] == old(mem[from + (x - to)])
        invariant forall x: nat :: x < mem.Length && !(to <= x < to + i) ==> mem[x] == old(mem[x])
      {
        mem[to + i] := mem[from + i];
        i := i + 1;
      }
    }

    /** A new block of at least size bytes that begins with what the old block held; the old one is freed.
        When no new block is to be had, the old one stays as it is. */
    method Realloc(ptr: nat, size: int, granted: bool, ghost b: Block) returns (r: nat, ghost c: Block)
      requires Valid() && size + OVERHEAD + (DSIZE - 1) <= INT_MAX
      requires ptr != 0 ==> b in Live(blocks) && b != blocks[0] && ptr == b.bp
      modifies this`brk, this`blocks, mem
      ensures Valid() && (size <= 0 ==> r == 0)
      ensures r == 0 ==> blocks == old(blocks) && brk == old(brk) && mem[..] == old(mem[..])
      ensures r != 0 ==> c == Block(r, c.size, true) && r % DSIZE == 0 && size + OVERHEAD <= c.size && c !in Live(old(blocks))
      ensures r != 0 ==> Live(blocks) == Live(old(blocks)) - (if ptr == 0 then {} else {b}) + {c}
      ensures r != 0 ==> PayloadsKept(old(mem[..]), mem[..], Live(old(blocks)) - (if ptr == 0 then {} else {b}))
      ensures size > 0 && r == 0 ==> forall d :: d in old(blocks) && !d.alloc ==> d.size < size + OVERHEAD
      ensures r != 0 ==> c.size < size + OVERHEAD + 2 * DSIZE
      ensures r != 0 ==> var freed := if ptr == 0 then 0 else b.size;
        FreeTotal(blocks) + c.size == FreeTotal(old(blocks)) + (brk - old(brk)) + freed
      ensures r != 0 && ptr != 0 ==> Copied(old(mem[..]), mem[..], ptr, r, Min(b.size - DSIZE, size))
    {
      hide Tiled, ApartFrom, Live, PayloadsKept, NoFit, FirstFit, Placed, Adjusted, FreeTotal, Copied;
      ghost var m, live0 := mem[..], Live(blocks);
      LiveFirst(m, blocks, listp, brk);
      r, c := Malloc(size, granted);
      if r == 0 || ptr == 0 {
        return;
      }
      ghost var m1, s, lo, end := mem[..], blocks, listp, brk;
      LiveFirst(m1, s, lo, end);
      ghost var i := LiveIndex(m1, s, lo, end, b);
      ghost var j := LiveIndex(m1, s, lo, end, c);
      LiveApart(m1, s, lo, end, i, j);
      var oldSize := SizeAt(ptr - WSIZE);
      Copy(r, ptr, Min(oldSize, size));
      ghost var m2 := mem[..];
      CopiedTiled(m1, m2, s, lo, end, j);
      Free(ptr, b);
      ReallocKeeps(m, m1, m2, mem[..], live0, Live(s), Live(blocks), b, c, size);
    }
  }

  /** The sizes around a free block, as its tags and those of its neighbours give them, and what it
      makes together with its free neighbours. */
  lemma Around(m: seq<int>, s: seq<Block>, lo: nat, end: nat, i: nat)
    returns (before: nat, here: nat, after: nat, prevFree: bool, nextFree: bool)
    requires Tiled(m, s, lo, end) && 1 <= i < |s| && !s[i].alloc && lo >= DSIZE
    ensures var bp := s[i].bp;
      before >= 8 && here >= 16 && bp >= before + 8 && bp + here <= |m| && (prevFree ==> before >= 16) &&
      SizeOf(m[bp - 4]) == here && m[bp + here - 8] == m[bp - 4] == Pack(here, false) &&
      SizeOf(m[bp - before - 4]) == before == SizeOf(m[bp - 8]) && AllocOf(m[bp - 8]) == !prevFree
    ensures var next := s[i].bp + here;
      AllocOf(m[next - 4]) == !nextFree && (nextFree ==> after >= 16 && next + after <= |m|) &&
      (nextFree ==> SizeOf(m[next - 4]) == after == SizeOf(m[next + after - 8]))
    ensures var size := (if prevFree then before else 0) + here + (if nextFree then after else 0);
      Whole(s, i) == Block(if prevFree then s[i].bp - before else s[i].bp, size, false) && SizeOf(Pack(size, false)) == size
  {
    Neighbours(m, s, lo, end, i);
    WholeTags(m, s, lo, end, i);
    hide Pack, SizeOf, AllocOf, Tiled;
    before, here, prevFree := s[i - 1].size, s[i].size, !s[i - 1].alloc;
    after, nextFree := 0, i + 1 < |s| && !s[i + 1].alloc;
    if i + 1 < |s| {
      after := s[i + 1].size;
    }
  }

  /** Writing both tag words of a block, in either order. */
  lemma TwoPuts(m: seq<int>, m': seq<int>, b: Block)
    requires 4 <= b.bp && 8 <= b.size && b.bp + b.size <= |m|
    requires var w, head, foot := Pack(b.size, b.alloc), b.bp - 4, b.bp + b.size - 8;
      m' == m[head := w][foot := w] || m' == m[foot := w][head := w] || (m' == m && m[head] == m[foot] == w)
    ensures Tags(m', b)
    ensures forall x :: 0 <= x < |m| && !(b.bp - WSIZE <= x < b.End() - WSIZE) ==> m'[x] == m[x]
  {
  }

  lemma WholeTags(m: seq<int>, s: seq<Block>, lo: nat, end: nat, i: nat)
    requires Tiled(m, s, lo, end) && 1 <= i < |s|
    ensures SizeOf(Pack(Whole(s, i).size, false)) == Whole(s, i).size
    ensures !s[i].alloc ==> m[s[i].bp - WSIZE] == Pack(s[i].size, false)
  {
    hide Pack, SizeOf, AllocOf;
    assert Tags(m, s[i]);
    CoalescedSpan(s, lo, end, i);
    WholeSize(s, i);
    PackParts(Whole(s, i).size, false);
  }

  lemma WholeSize(s: seq<Block>, i: nat)
    requires 1 <= i < |s| && SameSpan(s, From(s, i), To(s, i), [Whole(s, i)])
    ensures UserSize(Whole(s, i))
  {
  }

  lemma CoalescedTiled(m: seq<int>, m': seq<int>, s: seq<Block>, lo: nat, end: nat, i: nat)
    requires Tiled(m, s, lo, end) && 1 <= i < |s| && !s[i].alloc && ApartFrom(s, i) && Tags(m', Whole(s, i)) && |m| == |m'|
    requires forall x :: 0 <= x < |m| && !(Whole(s, i).bp - WSIZE <= x < Whole(s, i).End() - WSIZE) ==> m'[x] == m[x]
    ensures Tiled(m', Coalesced(s, i), lo, end) && NoFreePair(Coalesced(s, i))
    ensures PayloadsKept(m, m', Live(s)) && Whole(s, i).bp >= lo
  {
    CoalescedSpan(s, lo, end, i);
    CoalescedApart(s, i);
    WholeStart(s, lo, end, i);
    hide *;
    TiledChain(m, s, lo, end);
    FreeSpan(s, i);
    WholeOnly(m, m', s, i);
    WithinFreeKeeps(m, m', s, From(s, i), To(s, i));
    OneTagged(m', Whole(s, i));
    CoalescedIs(s, i);
    ReplacedTiled(m, m', s, lo, end, From(s, i), To(s, i), [Whole(s, i)]);
  }

  lemma WholeStart(s: seq<Block>, lo: nat, end: nat, i: nat)
    requires Shape(s, lo, end) && 1 <= i < |s|
    ensures Whole(s, i).bp >= lo
  {
    OnGranule(s, lo, end, i);
    OnGranule(s, lo, end, i - 1);
  }

  lemma TiledChain(m: seq<int>, s: seq<Block>, lo: nat, end: nat)
    requires Tiled(m, s, lo, end)
    ensures Chain(s)
  {
  }

  lemma FreeSpan(s: seq<Block>, i: nat)
    requires 1 <= i < |s| && !s[i].alloc
    ensures forall j :: From(s, i) <= j < To(s, i) ==> !s[j].alloc
  {
  }

  lemma WholeOnly(m: seq<int>, m': seq<int>, s: seq<Block>, i: nat)
    requires 1 <= i < |s| && From(s, i) < To(s, i) <= |s| && SameSpan(s, From(s, i), To(s, i), [Whole(s, i)]) && |m| == |m'|
    requires forall x :: 0 <= x < |m| && !(Whole(s, i).bp - WSIZE <= x < Whole(s, i).End() - WSIZE) ==> m'[x] == m[x]
    ensures OnlyWithin(m, m', s, From(s, i), To(s, i))
  {
  }

  lemma OneTagged(m: seq<int>, b: Block)
    requires Tags(m, b)
    ensures Tagged(m, [b])
  {
  }

  lemma CoalescedIs(s: seq<Block>, i: nat)
    requires 1 <= i < |s| && From(s, i) <= To(s, i) <= |s|
    ensures Coalesced(s, i) == Replaced(s, From(s, i), To(s, i), [Whole(s, i)])
  {
  }

  /** The bytes of an even number of words, one word more if need be. */
  function EvenBytes(words: nat): nat { if words % 2 != 0 then (words + 1) * WSIZE else words * WSIZE }

  /** The blocks after the heap grew by size bytes at end. */
  function Extended(s: seq<Block>, end: nat, size: nat): seq<Block>
    requires |s| >= 1
  {
    Coalesced(s + [Block(end, size, false)], |s|)
  }

  lemma EvenBytesOk(words: nat)
    requires words >= 4
    ensures EvenBytes(words) % DSIZE == 0 && EvenBytes(words) >= DSIZE + OVERHEAD
  {
  }

  lemma WordsOf(size: nat)
    requires size % 8 == 0 && size >= CHUNKSIZE
    ensures EvenBytes(size / WSIZE) == size && size / WSIZE >= 4
  {
  }

  lemma TiledEnds(m: seq<int>, s: seq<Block>, lo: nat, end: nat)
    requires Tiled(m, s, lo, end)
    ensures |s| >= 1 && end >= lo + 8 && lo >= 8
  {
    OnGranule(s, lo, end, 0);
  }

  lemma KeptSame(m: seq<int>, live: set<Block>)
    ensures PayloadsKept(m, m, live)
  {
  }

  lemma KeptChain(m: seq<int>, m': seq<int>, m'': seq<int>, live: set<Block>)
    requires PayloadsKept(m, m', live) && PayloadsKept(m', m'', live)
    ensures PayloadsKept(m, m'', live)
  {
  }

  lemma ExtendedShape(s: seq<Block>, lo: nat, end: nat, size: nat)
    requires Shape(s, lo, end) && size % DSIZE == 0 && size >= DSIZE + OVERHEAD
    ensures Shape(s + [Block(end, size, false)], lo, end + size)
  {
    var r := s + [Block(end, size, false)];
    forall i: nat | i + 1 < |r| ensures Adjacent(r, i) {
      if i + 1 < |s| {
        assert Adjacent(s, i);
      }
    }
    hide Chain;
  }

  lemma ExtendedTiled(m: seq<int>, m': seq<int>, s: seq<Block>, lo: nat, end: nat, size: nat)
    requires Tiled(m, s, lo, end) && NoFreePair(s) && size % DSIZE == 0 && size >= DSIZE + OVERHEAD && end + size <= |m|
    requires m' == m[end - WSIZE := Pack(size, false)][end + size - DSIZE := Pack(size, false)][end + size - WSIZE := Pack(0, true)]
    ensures Tiled(m', s + [Block(end, size, false)], lo, end + size) && ApartFrom(s + [Block(end, size, false)], |s|)
  {
    hide Pack;
    ExtendedShape(s, lo, end, size);
    var r := s + [Block(end, size, false)];
    forall i | 0 <= i < |r| ensures Tags(m', r[i]) {
      if i < |s| {
        OnGranule(s, lo, end, i);
        assert Tags(m, s[i]);
      }
    }
    forall i: nat | i + 1 < |r| && i != |s| && i + 1 != |s| ensures !BothFree(r, i) {
      assert !BothFree(s, i);
    }
    hide Shape;
  }

  lemma LiveExtended(s: seq<Block>, end: nat, size: nat)
    requires |s| >= 1
    ensures Live(s + [Block(end, size, false)]) == Live(s) == Live(Extended(s, end, size))
  {
  }

  /** The extension's writes touch no payload in use. */
  lemma ExtendedKeeps(m: seq<int>, m1: seq<int>, s: seq<Block>, lo: nat, end: nat, size: nat)
    requires Tiled(m, s, lo, end) && size >= DSIZE + OVERHEAD && size % DSIZE == 0 && end + size <= |m|
    requires m1 == m[end - WSIZE := Pack(size, false)][end + size - DSIZE := Pack(size, false)][end + size - WSIZE := Pack(0, true)]
    ensures PayloadsKept(m, m1, Live(s))
    ensures var e := Extended(s, end, size); |e| >= 2 && Whole(s + [Block(end, size, false)], |s|) == e[|e| - 1]
  {
    hide Pack;
    var r := s + [Block(end, size, false)];
    ExtendedShape(s, lo, end, size);
    CoalescedSpan(r, lo, end + size, |s|);
    assert To(r, |s|) == |r|;
    hide Whole, Chain;
    forall c, x: nat | c in Live(s) && c.bp <= x < c.End() - DSIZE && x < |m| ensures m1[x] == m[x] {
      var i :| 0 <= i < |s| && s[i] == c;
      OnGranule(s, lo, end, i);
    }
  }

  lemma FirstTiled(m: seq<int>, m': seq<int>, start: nat)
    requires 0 < start && start % DSIZE == 0 && start + 16 <= |m|
    requires m' == m[start := 0][start + 4 := Pack(OVERHEAD, true)][start + 8 := Pack(OVERHEAD, true)][start + 12 := Pack(0, true)]
    ensures var p := [Block(start + 8, OVERHEAD, true)]; Tiled(m', p, start + 8, start + 16) && NoFreePair(p)
  {
  }

  lemma FirstExtension(lo: nat)
    requires lo % DSIZE == 0 && lo >= DSIZE
    ensures var p := Block(lo, OVERHEAD, true); Extended([p], lo + DSIZE, CHUNKSIZE) == [p, Block(lo + DSIZE, CHUNKSIZE, false)]
    ensures EvenBytes(CHUNKSIZE / WSIZE) == CHUNKSIZE
  {
  }

  lemma FitParts(s: seq<Block>, asize: nat, i: nat)
    requires FirstFit(s, asize, i)
    ensures 1 <= i < |s| && Fits(s[i], asize) && !NoFit(s, asize)
  {
  }

  /** The block that place allocates was not in use, and is the only one that comes into use. */
  lemma PlacedLive(m: seq<int>, s: seq<Block>, lo: nat, end: nat, i: nat, asize: nat)
    requires Tiled(m, s, lo, end) && 1 <= i < |s| && Fits(s[i], asize) && asize > 0
    ensures var b := PlacedBlocks(s[i], asize)[0];
      b == Block(s[i].bp, b.size, true) && b.size >= asize && b.bp % DSIZE == 0 && b.bp > 0 && b !in Live(s) &&
      Live(Placed(s, i, asize)) == Live(s) + {b}
  {
    var b := PlacedBlocks(s[i], asize)[0];
    OnGranule(s, lo, end, i);
    LivePlaced(s, i, asize);
    if b in Live(s) {
      BlocksApart(s, b, s[i]);
    }
  }

  /** The block that comes into use is no larger than it has to be, and no other free memory is lost. */
  lemma PlacedSize(m: seq<int>, s: seq<Block>, lo: nat, end: nat, i: nat, asize: nat, size: nat)
    requires Tiled(m, s, lo, end) && 1 <= i < |s| && Fits(s[i], asize) && size > 0 && asize == Adjusted(size)
    ensures var b := PlacedBlocks(s[i], asize)[0];
      b.size < size + OVERHEAD + 2 * DSIZE && FreeTotal(Placed(s, i, asize)) + b.size == FreeTotal(s)
  {
    hide FreeTotal, Adjusted, Placed;
    PlacedTotal(s, i, asize);
    AdjustedFits(size);
    SizesOk(s, lo, end, i);
    EightApart(asize + DSIZE + OVERHEAD, s[i].size);
  }

  lemma NoneLarge(m: seq<int>, s: seq<Block>, lo: nat, end: nat, size: nat)
    requires Tiled(m, s, lo, end) && size > 0 && NoFit(s, Adjusted(size))
    ensures forall c :: c in s && !c.alloc ==> c.size < size + OVERHEAD
  {
    hide Adjusted;
    forall i | 0 <= i < |s| && !s[i].alloc ensures s[i].size < size + OVERHEAD {
      assert !Fits(s[i], Adjusted(size));
      SizesOk(s, lo, end, i);
      AdjustedLeast(size, s[i]);
    }
  }

  lemma ExtendedTotal(s: seq<Block>, end: nat, size: nat)
    requires |s| >= 1
    ensures FreeTotal(Extended(s, end, size)) == FreeTotal(s) + size
  {
    hide FreeTotal, Coalesced;
    var f := Block(end, size, false);
    CoalescedTotal(s + [f], |s|);
    FreeTotalConcat(s, [f]);
    OneOrTwo(f, f);
  }

  lemma FreedTotal(s: seq<Block>, i: nat, f: Block)
    requires 1 <= i < |s| && s[i].alloc && f == Block(s[i].bp, s[i].size, false)
    ensures FreeTotal(Coalesced(s[i := f], i)) == FreeTotal(s) + s[i].size
  {
    hide FreeTotal, Coalesced;
    CoalescedTotal(s[i := f], i);
    FreeTotalReplaced(s, i, i + 1, [f]);
    assert Replaced(s, i, i + 1, [f]) == s[i := f] && s[i..i + 1] == [s[i]];
    OneOrTwo(f, f);
    OneOrTwo(s[i], f);
  }

  lemma PlacedKeeps(m: seq<int>, m': seq<int>, s: seq<Block>, lo: nat, end: nat, i: nat)
    requires Tiled(m, s, lo, end) && i < |s| && !s[i].alloc && OnlyWithin(m, m', s, i, i + 1)
    ensures PayloadsKept(m, m', Live(s))
  {
    WithinFreeKeeps(m, m', s, i, i + 1);
  }

  /** After an extension the last block is free and at least as large as the extension. */
  lemma ExtendedLast(m: seq<int>, s: seq<Block>, lo: nat, end: nat, size: nat)
    requires Tiled(m, s, lo, end) && size % DSIZE == 0 && size >= DSIZE + OVERHEAD
    ensures var e := Extended(s, end, size); |e| >= 2 && !e[|e| - 1].alloc && e[|e| - 1].size >= size
    ensures Live(Extended(s, end, size)) == Live(s)
  {
    var r := s + [Block(end, size, false)];
    ExtendedShape(s, lo, end, size);
    CoalescedSpan(r, lo, end + size, |s|);
    LiveExtended(s, end, size);
    assert To(r, |s|) == |r|;
  }

  /** A block in use is at some place in the list, and its header gives its size. */
  lemma LiveIndex(m: seq<int>, s: seq<Block>, lo: nat, end: nat, b: Block) returns (i: nat)
    requires Tiled(m, s, lo, end) && b in Live(s) && b != s[0]
    ensures 1 <= i < |s| && s[i] == b && b.alloc && UserSize(b) && lo + DSIZE <= b.bp && b.End() <= end <= |m|
    ensures SizeOf(m[b.bp - WSIZE]) == b.size
  {
    i :| 0 <= i < |s| && s[i] == b;
    hide Pack;
    Neighbours(m, s, lo, end, i);
    SizesOk(s, lo, end, i);
  }

  lemma FreedTiled(m: seq<int>, m': seq<int>, s: seq<Block>, lo: nat, end: nat, i: nat)
    requires Tiled(m, s, lo, end) && NoFreePair(s) && 1 <= i < |s| && s[i].bp >= WSIZE && UserSize(s[i]) && s[i].End() <= |m|
    requires var w := Pack(s[i].size, false);
      m' == m[s[i].bp - WSIZE := w][s[i].End() - DSIZE := w]
    ensures var f := Block(s[i].bp, s[i].size, false);
      Tiled(m', s[i := f], lo, end) && ApartFrom(s[i := f], i)
  {
    hide Pack, Tiled;
    var f := Block(s[i].bp, s[i].size, false);
    TwoPuts(m, m', f);
    FreedSpan(s, lo, end, i, f);
    OneTagged(m', f);
    assert Replaced(s, i, i + 1, [f]) == s[i := f];
    ReplacedTiled(m, m', s, lo, end, i, i + 1, [f]);
    var t := s[i := f];
    forall j: nat | j + 1 < |t| && j != i && j + 1 != i ensures !BothFree(t, j) {
      assert !BothFree(s, j);
    }
  }

  lemma FreedSpan(s: seq<Block>, lo: nat, end: nat, i: nat, f: Block)
    requires 1 <= i < |s| && UserSize(f) && f.bp == s[i].bp && f.size == s[i].size
    ensures SameSpan(s, i, i + 1, [f])
  {
  }

  lemma FreedLive(s: seq<Block>, lo: nat, end: nat, i: nat)
    requires Shape(s, lo, end) && i < |s|
    ensures Live(s[i := Block(s[i].bp, s[i].size, false)]) == Live(s) - {s[i]}
  {
    var f := Block(s[i].bp, s[i].size, false);
    var t := s[i := f];
    forall x ensures x in Live(t) <==> x in Live(s) && x != s[i] {
      if x in Live(s) && x != s[i] {
        var j :| 0 <= j < |s| && s[j] == x;
        assert t[j] == x;
      }
      if x in Live(t) {
        var j :| 0 <= j < |t| && t[j] == x;
        assert s[j] == x;
        if x == s[i] {
          SizesOk(s, lo, end, i);
          if i < j {
            InOrder(s, i, j);
          } else {
            InOrder(s, j, i);
          }
        }
      }
    }
  }

  lemma FreedKeeps(m: seq<int>, m1: seq<int>, s: seq<Block>, lo: nat, end: nat, i: nat)
    requires Tiled(m, s, lo, end) && 1 <= i < |s| && s[i].bp >= WSIZE && UserSize(s[i]) && s[i].End() <= |m|
    requires var w := Pack(s[i].size, false);
      m1 == m[s[i].bp - WSIZE := w][s[i].End() - DSIZE := w]
    ensures var t := s[i := Block(s[i].bp, s[i].size, false)];
      Live(t) == Live(s) - {s[i]} && PayloadsKept(m, m1, Live(t)) && Coalesced(t, i) != [] && Coalesced(t, i)[0] == s[0]
  {
    hide Pack;
    var f := Block(s[i].bp, s[i].size, false);
    var t := s[i := f];
    TwoPuts(m, m1, f);
    FreedLive(s, lo, end, i);
    FreedChain(s, i);
    FreedFirst(s, lo, end, i);
    hide Live, Whole, PayloadsKept, Shape, Tagged, Chain;
    WithinFreeKeeps(m, m1, t, i, i + 1);
  }

  lemma FreedChain(s: seq<Block>, i: nat)
    requires Chain(s) && i < |s|
    ensures Chain(s[i := Block(s[i].bp, s[i].size, false)])
  {
    var t := s[i := Block(s[i].bp, s[i].size, false)];
    forall j: nat | j + 1 < |t| ensures Adjacent(t, j) {
      assert Adjacent(s, j);
    }
  }

  lemma FreedFirst(s: seq<Block>, lo: nat, end: nat, i: nat)
    requires Shape(s, lo, end) && 1 <= i < |s|
    ensures var t := s[i := Block(s[i].bp, s[i].size, false)]; Coalesced(t, i) != [] && Coalesced(t, i)[0] == s[0]
  {
  }

  /** The prologue is not a block that malloc gave out. */
  lemma LiveFirst(m: seq<int>, s: seq<Block>, lo: nat, end: nat)
    requires Tiled(m, s, lo, end)
    ensures |s| >= 1 && s[0] == Block(lo, OVERHEAD, true) && s[0] in Live(s)
  {
  }

  lemma LiveApart(m: seq<int>, s: seq<Block>, lo: nat, end: nat, i: nat, j: nat)
    requires Tiled(m, s, lo, end) && i < |s| && j < |s| && s[i] != s[j]
    ensures s[i].End() <= s[j].bp || s[j].End() <= s[i].bp
  {
    BlocksApart(s, s[i], s[j]);
  }

  /** Whatever is written into the payload of a block in use, the heap stays tiled and every other
      payload is kept. */
  lemma CopiedTiled(m: seq<int>, m': seq<int>, s: seq<Block>, lo: nat, end: nat, j: nat)
    requires Tiled(m, s, lo, end) && 1 <= j < |s| && UserSize(s[j]) && |m| == |m'|
    requires forall x: nat :: x < |m| && !(s[j].bp <= x < s[j].End() - DSIZE) ==> m'[x] == m[x]
    ensures Tiled(m', s, lo, end) && PayloadsKept(m, m', Live(s) - {s[j]})
  {
    forall i | 0 <= i < |s| ensures Tags(m', s[i]) {
      assert Tags(m, s[i]);
      if i < j {
        InOrder(s, i, j);
      } else if j < i {
        InOrder(s, j, i);
      }
    }
    OnGranule(s, lo, end, j);
    hide Shape;
    forall b, x: nat | b in Live(s) - {s[j]} && b.bp <= x < b.End() - DSIZE && x < |m| ensures m'[x] == m[x] {
      var i :| 0 <= i < |s| && s[i] == b;
      LiveApart(m, s, lo, end, i, j);
    }
  }

  lemma KeptFewer(m: seq<int>, m': seq<int>, live: set<Block>, fewer: set<Block>)
    requires PayloadsKept(m, m', live) && fewer <= live
    ensures PayloadsKept(m, m', fewer)
  {
  }

  lemma ReallocKeeps(m: seq<int>, m1: seq<int>, m2: seq<int>, m3: seq<int>, live0: set<Block>, live1: set<Block>,
      live2: set<Block>, b: Block, c: Block, size: int)
    requires PayloadsKept(m, m1, live0) && PayloadsKept(m1, m2, live1 - {c}) && PayloadsKept(m2, m3, live2)
    requires live1 == live0 + {c} && live2 == live1 - {b} && b in live0 && c !in live0
    requires |m1| == |m2| == |m3| == |m| && c.End() <= |m1| && b.End() <= |m| && size + OVERHEAD <= c.size
    requires forall x: nat :: c.bp <= x < c.bp + Min(b.size, size) ==> m2[x] == m1[b.bp + (x - c.bp)]
    ensures PayloadsKept(m, m3, live0 - {b}) && live2 == live0 - {b} + {c}
    ensures Copied(m, m3, b.bp, c.bp, Min(b.size - DSIZE, size))
  {
    KeptFewer(m, m1, live0, live0 - {b});
    KeptFewer(m1, m2, live1 - {c}, live0 - {b});
    KeptFewer(m2, m3, live2, live0 - {b});
    KeptChain(m, m1, m2, live0 - {b});
    KeptChain(m, m2, m3, live0 - {b});
    var n := Min(b.size - DSIZE, size);
    forall y: nat | c.bp <= y < c.bp + n ensures m3[y] == m[b.bp + (y - c.bp)] {
      assert c in live2 && m3[y] == m2[y];
      var x := b.bp + (y - c.bp);
      assert m2[y] == m1[x] && m1[x] == m[x];
    }
  }

  // ---------------------------------------------------------------- whole runs

  /** When everything is freed, all memory after the prologue is one free block, whatever was allocated
      and freed before, and in whatever order. */
  lemma AllFreed(m: seq<int>, s: seq<Block>, lo: nat, end: nat)
    requires Tiled(m, s, lo, end) && NoFreePair(s) && Live(s) == {s[0]} && end > lo + DSIZE
    ensures s == [Block(lo, OVERHEAD, true), Block(lo + DSIZE, end - lo - DSIZE, false)]
  {
    assert |s| > 1;
    SizesOk(s, lo, end, 1);
    assert Adjacent(s, 0);
    NotFirst(s, 1);
    if |s| > 2 {
      assert !BothFree(s, 1);
      SizesOk(s, lo, end, 2);
      InOrder(s, 0, 2);
      NotFirst(s, 2);
    }
  }

  lemma NotFirst(s: seq<Block>, i: nat)
    requires Chain(s) && 1 <= i < |s| && s[0].size > 0 && Live(s) == {s[0]} && s[0].End() <= s[i].bp
    ensures !s[i].alloc
  {
    var inUse := s[i] in Live(s);
  }
}
