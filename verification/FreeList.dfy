/** Address-ordered lists of free blocks, as the List Memory Manager keeps them per region
    (410kern/lmm), and the linked form they take in the free memory itself. */
module FreeList {

  /** The size of a list node, and the granule in which memory is managed. */
  const GRAIN: nat := 8

  datatype Block = Block(addr: nat, size: nat) {
    function End(): nat { addr + size }
  }

  ghost predicate WholeGranules(b: Block) {
    0 < b.addr && b.addr % GRAIN == 0 && 0 < b.size && b.size % GRAIN == 0
  }

  /** Blocks of whole granules in address order, not overlapping. */
  ghost predicate Ordered(s: seq<Block>) {
    (forall i :: 0 <= i < |s| ==> WholeGranules(s[i])) &&
    (forall i, j :: 0 <= i < j < |s| ==> s[i].End() <= s[j].addr)
  }

  /** No two blocks touch: every maximal free range is one block. */
  ghost predicate Coalesced(s: seq<Block>) {
    forall i, j :: 0 <= i < j < |s| ==> s[i].End() < s[j].addr
  }

  ghost predicate Sound(s: seq<Block>) {
    Ordered(s) && Coalesced(s)
  }

  ghost predicate Within(b: Block, x: int) {
    b.addr <= x < b.End()
  }

  /** Byte x lies in one of the blocks. */
  ghost predicate Covers(s: seq<Block>, x: int) {
    exists i :: 0 <= i < |s| && Within(s[i], x)
  }

  ghost predicate SameBytes(s: seq<Block>, t: seq<Block>) {
    forall x: int :: Covers(s, x) <==> Covers(t, x)
  }

  function Total(s: seq<Block>): nat {
    if s == [] then 0 else s[0].size + Total(s[1..])
  }

  lemma {:induction false} TotalConcat(s: seq<Block>, t: seq<Block>)
    ensures Total(s + t) == Total(s) + Total(t)
  {
    if s == [] {
      assert s + t == t;
    } else {
      assert (s + t)[1..] == s[1..] + t;
      TotalConcat(s[1..], t);
    }
  }

  lemma TotalOne(b: Block)
    ensures Total([b]) == b.size
  {
  }

  // ---------------------------------------------------------------- a canonical form

  lemma CoversTail(s: seq<Block>, x: int)
    requires Sound(s) && s != []
    ensures Covers(s[1..], x) <==> Covers(s, x) && x >= s[0].End()
  {
  }

  lemma SoundTail(s: seq<Block>)
    requires Sound(s) && s != []
    ensures Sound(s[1..])
  {
  }

  /** The first block starts at the lowest covered byte, and ends at the first byte after it that
      is not covered. */
  lemma FirstBlock(s: seq<Block>)
    requires Sound(s) && s != []
    ensures forall x: int :: Covers(s, x) ==> s[0].addr <= x
    ensures forall x: int :: s[0].addr <= x < s[0].End() ==> Covers(s, x)
    ensures Covers(s, s[0].addr) && !Covers(s, s[0].End())
  {
  }

  /** A coalesced list is determined by the bytes it covers. */
  lemma {:induction false} Canonical(s: seq<Block>, t: seq<Block>)
    requires Sound(s) && Sound(t) && SameBytes(s, t)
    ensures s == t
  {
    if s == [] {
      if t != [] {
        FirstBlock(t);
      }
    } else if t == [] {
      FirstBlock(s);
    } else {
      CanonicalHead(s, t);
      forall x: int ensures Covers(s[1..], x) <==> Covers(t[1..], x) {
        CoversTail(s, x);
        CoversTail(t, x);
      }
      SoundTail(s);
      SoundTail(t);
      Canonical(s[1..], t[1..]);
      assert s == [s[0]] + s[1..] && t == [t[0]] + t[1..];
    }
  }

  lemma CanonicalHead(s: seq<Block>, t: seq<Block>)
    requires Sound(s) && Sound(t) && SameBytes(s, t) && s != [] && t != []
    ensures s[0] == t[0]
  {
    FirstBlock(s);
    FirstBlock(t);
    hide Sound;
    assert Covers(t, s[0].addr) && Covers(s, t[0].addr);
    assert s[0].addr == t[0].addr;
    assert !Covers(t, s[0].End()) && !Covers(s, t[0].End());
  }

  /** A free range lies in a single block. */
  lemma RangeInOneBlock(s: seq<Block>, lo: int, hi: int) returns (i: nat)
    requires Sound(s) && lo < hi && forall x: int :: lo <= x < hi ==> Covers(s, x)
    ensures i < |s| && s[i].addr <= lo && hi <= s[i].End()
  {
    assert Covers(s, lo);
    i :| 0 <= i < |s| && Within(s[i], lo);
    if s[i].End() < hi {
      NotCoveredAtEnd(s, i);
    }
  }

  lemma NotCoveredAtEnd(s: seq<Block>, i: nat)
    requires Sound(s) && i < |s|
    ensures !Covers(s, s[i].End())
  {
  }

  // ---------------------------------------------------------------- taking bytes out

  lemma CoversConcat(s: seq<Block>, t: seq<Block>, x: int)
    ensures Covers(s + t, x) <==> Covers(s, x) || Covers(t, x)
  {
    if Covers(s, x) {
      var i :| 0 <= i < |s| && Within(s[i], x);
      assert (s + t)[i] == s[i];
    }
    if Covers(t, x) {
      var i :| 0 <= i < |t| && Within(t[i], x);
      assert (s + t)[|s| + i] == t[i];
    }
    if Covers(s + t, x) {
      var i :| 0 <= i < |s + t| && Within((s + t)[i], x);
      if i < |s| {
        assert Within(s[i], x);
      } else {
        assert Within(t[i - |s|], x);
      }
    }
  }

  lemma CoversOne(b: Block, x: int)
    ensures Covers([b], x) <==> Within(b, x)
  {
    assert [b][0] == b;
  }

  lemma InsideCovers(s: seq<Block>, i: nat, x: int)
    requires i < |s| && Within(s[i], x)
    ensures Covers(s, x)
  {
  }

  /** The bytes from a up to b as at most one block. */
  function Piece(a: nat, b: nat): seq<Block> {
    if a < b then [Block(a, b - a)] else []
  }

  lemma PieceCovers(a: nat, b: nat, x: int)
    ensures Covers(Piece(a, b), x) <==> a <= x < b
  {
    if a < b {
      CoversOne(Block(a, b - a), x);
    }
  }

  lemma PieceTotal(a: nat, b: nat)
    ensures Total(Piece(a, b)) == if a < b then b - a else 0
  {
  }

  /** A whole-granule range inside block i. */
  ghost predicate InBlock(s: seq<Block>, i: nat, lo: nat, hi: nat) {
    i < |s| && s[i].addr <= lo < hi <= s[i].End() && lo % GRAIN == 0 && hi % GRAIN == 0
  }

  /** The list after the range from lo up to hi is taken out of block i. */
  function Carved(s: seq<Block>, i: nat, lo: nat, hi: nat): seq<Block>
    requires i < |s|
  {
    s[..i] + (Piece(s[i].addr, lo) + Piece(hi, s[i].End())) + s[i + 1..]
  }

  lemma SplitAround(s: seq<Block>, i: nat)
    requires i < |s|
    ensures s == s[..i] + [s[i]] + s[i + 1..]
  {
  }

  lemma OthersOutside(s: seq<Block>, i: nat, x: int)
    requires Ordered(s) && i < |s| && Within(s[i], x)
    ensures !Covers(s[..i], x) && !Covers(s[i + 1..], x)
  {
  }

  lemma CarvedCovers(s: seq<Block>, i: nat, lo: nat, hi: nat, x: int)
    requires Ordered(s) && InBlock(s, i, lo, hi)
    ensures Covers(Carved(s, i, lo, hi), x) <==> Covers(s, x) && !(lo <= x < hi)
  {
    var mid := Piece(s[i].addr, lo) + Piece(hi, s[i].End());
    SplitAround(s, i);
    CoversConcat(s[..i] + mid, s[i + 1..], x);
    CoversConcat(s[..i], mid, x);
    CoversConcat(Piece(s[i].addr, lo), Piece(hi, s[i].End()), x);
    PieceCovers(s[i].addr, lo, x);
    PieceCovers(hi, s[i].End(), x);
    CoversConcat(s[..i] + [s[i]], s[i + 1..], x);
    CoversConcat(s[..i], [s[i]], x);
    CoversOne(s[i], x);
    if Within(s[i], x) {
      OthersOutside(s, i, x);
    }
  }

  lemma CarvedTotal(s: seq<Block>, i: nat, lo: nat, hi: nat)
    requires InBlock(s, i, lo, hi)
    ensures Total(Carved(s, i, lo, hi)) == Total(s) - (hi - lo)
    ensures hi - lo <= Total(s)
  {
    var mid := Piece(s[i].addr, lo) + Piece(hi, s[i].End());
    SplitAround(s, i);
    TotalConcat(s[..i] + mid, s[i + 1..]);
    TotalConcat(s[..i], mid);
    TotalConcat(Piece(s[i].addr, lo), Piece(hi, s[i].End()));
    PieceTotal(s[i].addr, lo);
    PieceTotal(hi, s[i].End());
    TotalConcat(s[..i] + [s[i]], s[i + 1..]);
    TotalConcat(s[..i], [s[i]]);
    TotalOne(s[i]);
  }

  /** Every block of s ends before every block of t begins. */
  ghost predicate Before(s: seq<Block>, t: seq<Block>) {
    forall i, j :: 0 <= i < |s| && 0 <= j < |t| ==> s[i].End() < t[j].addr
  }

  lemma SoundConcat(s: seq<Block>, t: seq<Block>)
    requires Sound(s) && Sound(t) && Before(s, t)
    ensures Sound(s + t)
  {
  }

  lemma SoundPart(s: seq<Block>, i: nat)
    requires Sound(s) && i <= |s|
    ensures Sound(s[..i]) && Sound(s[i..]) && Before(s[..i], s[i..])
  {
  }

  lemma PieceSound(a: nat, b: nat)
    requires 0 < a && a % GRAIN == 0 && b % GRAIN == 0
    ensures Sound(Piece(a, b))
  {
  }

  lemma CarvedSound(s: seq<Block>, i: nat, lo: nat, hi: nat)
    requires Sound(s) && InBlock(s, i, lo, hi)
    ensures Sound(Carved(s, i, lo, hi))
  {
    var p, q := Piece(s[i].addr, lo), Piece(hi, s[i].End());
    SoundPart(s, i);
    SoundPart(s, i + 1);
    PieceSound(s[i].addr, lo);
    PieceSound(hi, s[i].End());
    SoundConcat(p, q);
    MiddleFits(s, i, p + q);
    SoundConcat(s[..i], p + q);
    SoundConcat(s[..i] + (p + q), s[i + 1..]);
  }

  /** Blocks inside block i can take its place. */
  lemma MiddleFits(s: seq<Block>, i: nat, mid: seq<Block>)
    requires Sound(s) && i < |s|
    requires forall k :: 0 <= k < |mid| ==> s[i].addr <= mid[k].addr && mid[k].End() <= s[i].End()
    ensures Before(s[..i], mid) && Before(s[..i] + mid, s[i + 1..])
  {
  }

  // ---------------------------------------------------------------- putting bytes in

  /** The number of blocks that begin below address a. */
  function Below(s: seq<Block>, a: nat): (k: nat)
    ensures k <= |s|
    ensures forall i :: 0 <= i < k ==> s[i].addr < a
    ensures k < |s| ==> s[k].addr >= a
  {
    if s == [] || s[0].addr >= a then 0 else 1 + Below(s[1..], a)
  }

  /** No byte from lo up to hi is free. */
  ghost predicate Disjoint(s: seq<Block>, lo: nat, hi: nat) {
    forall x: int :: lo <= x < hi ==> !Covers(s, x)
  }

  /** The new range touches the block before it. */
  predicate MergesLeft(s: seq<Block>, lo: nat) {
    var k := Below(s, lo);
    k > 0 && s[k - 1].End() >= lo
  }

  /** The new range touches the block after it. */
  predicate MergesRight(s: seq<Block>, lo: nat, hi: nat) {
    var k := Below(s, lo);
    k < |s| && hi >= s[k].addr
  }

  function MergedFrom(s: seq<Block>, lo: nat): (from: nat)
  {
    if MergesLeft(s, lo) then s[Below(s, lo) - 1].addr else lo
  }

  function MergedTo(s: seq<Block>, lo: nat, hi: nat): (to: nat)
  {
    if MergesRight(s, lo, hi) then s[Below(s, lo)].End() else hi
  }

  function KeptBefore(s: seq<Block>, lo: nat): seq<Block> {
    s[..if MergesLeft(s, lo) then Below(s, lo) - 1 else Below(s, lo)]
  }

  function KeptAfter(s: seq<Block>, lo: nat, hi: nat): seq<Block> {
    s[if MergesRight(s, lo, hi) then Below(s, lo) + 1 else Below(s, lo)..]
  }

  /** The list after the range from lo up to hi is put in, merged with the blocks it touches. */
  function Merged(s: seq<Block>, lo: nat, hi: nat): seq<Block> {
    KeptBefore(s, lo) + (Piece(MergedFrom(s, lo), MergedTo(s, lo, hi)) + KeptAfter(s, lo, hi))
  }

  /** A range disjoint from the list lies in the gap between two neighbours. */
  lemma Gap(s: seq<Block>, lo: nat, hi: nat)
    requires Ordered(s) && lo < hi && Disjoint(s, lo, hi)
    ensures forall i :: 0 <= i < Below(s, lo) ==> s[i].End() <= lo
    ensures forall i :: Below(s, lo) <= i < |s| ==> hi <= s[i].addr
  {
    var k := Below(s, lo);
    forall i | 0 <= i < k ensures s[i].End() <= lo {
      if s[i].End() > lo {
        InsideCovers(s, i, lo);
      }
    }
    forall i | k <= i < |s| ensures hi <= s[i].addr {
      if i > k {
        assert s[k].End() <= s[i].addr;
      }
      if s[i].addr < hi {
        InsideCovers(s, i, s[i].addr);
      }
    }
  }

  lemma MergedEnds(s: seq<Block>, lo: nat, hi: nat)
    requires Ordered(s) && lo < hi && Disjoint(s, lo, hi)
    ensures MergedFrom(s, lo) <= lo && hi <= MergedTo(s, lo, hi)
    ensures MergesLeft(s, lo) ==> s[Below(s, lo) - 1].End() == lo
    ensures MergesRight(s, lo, hi) ==> s[Below(s, lo)].addr == hi
  {
    hide Ordered;
    Gap(s, lo, hi);
  }

  function MergedBlocks(s: seq<Block>, lo: nat, hi: nat): seq<Block> {
    (if MergesLeft(s, lo) then [s[Below(s, lo) - 1]] else []) +
    (if MergesRight(s, lo, hi) then [s[Below(s, lo)]] else [])
  }

  lemma MergedParts(s: seq<Block>, lo: nat, hi: nat)
    ensures s == KeptBefore(s, lo) + (MergedBlocks(s, lo, hi) + KeptAfter(s, lo, hi))
  {
  }

  lemma MergedBlocksCover(s: seq<Block>, lo: nat, hi: nat, x: int)
    requires Ordered(s) && lo < hi && Disjoint(s, lo, hi)
    ensures Covers(MergedBlocks(s, lo, hi), x) || lo <= x < hi
       <==> MergedFrom(s, lo) <= x < MergedTo(s, lo, hi)
    ensures Total(MergedBlocks(s, lo, hi)) + (hi - lo) == MergedTo(s, lo, hi) - MergedFrom(s, lo)
  {
    MergedEnds(s, lo, hi);
    hide Ordered, Below, Disjoint;
    var l := if MergesLeft(s, lo) then [s[Below(s, lo) - 1]] else [];
    var r := if MergesRight(s, lo, hi) then [s[Below(s, lo)]] else [];
    CoversConcat(l, r, x);
    TotalConcat(l, r);
    if MergesLeft(s, lo) {
      CoversOne(s[Below(s, lo) - 1], x);
      TotalOne(s[Below(s, lo) - 1]);
    }
    if MergesRight(s, lo, hi) {
      CoversOne(s[Below(s, lo)], x);
      TotalOne(s[Below(s, lo)]);
    }
  }

  lemma MergedCovers(s: seq<Block>, lo: nat, hi: nat, x: int)
    requires Ordered(s) && lo < hi && Disjoint(s, lo, hi)
    ensures Covers(Merged(s, lo, hi), x) <==> Covers(s, x) || lo <= x < hi
  {
    hide Ordered, Covers, Disjoint, KeptBefore, KeptAfter, MergedBlocks, MergedFrom, MergedTo;
    var a, c, m := KeptBefore(s, lo), KeptAfter(s, lo, hi), MergedBlocks(s, lo, hi);
    var p := Piece(MergedFrom(s, lo), MergedTo(s, lo, hi));
    MergedParts(s, lo, hi);
    CoversConcat(a, m + c, x);
    CoversConcat(m, c, x);
    CoversConcat(a, p + c, x);
    CoversConcat(p, c, x);
    PieceCovers(MergedFrom(s, lo), MergedTo(s, lo, hi), x);
    MergedBlocksCover(s, lo, hi, x);
  }

  lemma MergedTotal(s: seq<Block>, lo: nat, hi: nat)
    requires Ordered(s) && lo < hi && Disjoint(s, lo, hi)
    ensures Total(Merged(s, lo, hi)) == Total(s) + (hi - lo)
  {
    hide Ordered, Disjoint, KeptBefore, KeptAfter, MergedBlocks, MergedFrom, MergedTo;
    var a, c, m := KeptBefore(s, lo), KeptAfter(s, lo, hi), MergedBlocks(s, lo, hi);
    var p := Piece(MergedFrom(s, lo), MergedTo(s, lo, hi));
    MergedParts(s, lo, hi);
    TotalConcat(a, m + c);
    TotalConcat(m, c);
    TotalConcat(a, p + c);
    TotalConcat(p, c);
    MergedEnds(s, lo, hi);
    PieceTotal(MergedFrom(s, lo), MergedTo(s, lo, hi));
    MergedBlocksCover(s, lo, hi, lo);
  }

  lemma MergedSound(s: seq<Block>, lo: nat, hi: nat)
    requires Sound(s) && lo < hi && Disjoint(s, lo, hi)
    requires 0 < lo && lo % GRAIN == 0 && hi % GRAIN == 0
    ensures Sound(Merged(s, lo, hi))
  {
    hide *;
    var from, to := MergedFrom(s, lo), MergedTo(s, lo, hi);
    KeptSound(s, lo, hi);
    MergedGranules(s, lo, hi);
    PieceSound(from, to);
    MergedOrder(s, lo, hi);
    SoundConcat(Piece(from, to), KeptAfter(s, lo, hi));
    SoundConcat(KeptBefore(s, lo), Piece(from, to) + KeptAfter(s, lo, hi));
    MergedIs(s, lo, hi);
  }

  lemma MergedIs(s: seq<Block>, lo: nat, hi: nat)
    ensures Merged(s, lo, hi)
         == KeptBefore(s, lo) + (Piece(MergedFrom(s, lo), MergedTo(s, lo, hi)) + KeptAfter(s, lo, hi))
  {
  }

  lemma KeptSound(s: seq<Block>, lo: nat, hi: nat)
    requires Sound(s)
    ensures Sound(KeptBefore(s, lo)) && Sound(KeptAfter(s, lo, hi))
  {
    hide Sound;
    SoundPart(s, |KeptBefore(s, lo)|);
    SoundPart(s, |s| - |KeptAfter(s, lo, hi)|);
  }

  lemma MergedGranules(s: seq<Block>, lo: nat, hi: nat)
    requires Sound(s) && lo < hi && Disjoint(s, lo, hi)
    requires 0 < lo && lo % GRAIN == 0 && hi % GRAIN == 0
    ensures 0 < MergedFrom(s, lo) && MergedFrom(s, lo) % GRAIN == 0 && MergedTo(s, lo, hi) % GRAIN == 0
    ensures MergedFrom(s, lo) < MergedTo(s, lo, hi)
  {
  }

  lemma MergedOrder(s: seq<Block>, lo: nat, hi: nat)
    requires Sound(s) && lo < hi && Disjoint(s, lo, hi)
    ensures Before(Piece(MergedFrom(s, lo), MergedTo(s, lo, hi)), KeptAfter(s, lo, hi))
    ensures Before(KeptBefore(s, lo), Piece(MergedFrom(s, lo), MergedTo(s, lo, hi)) + KeptAfter(s, lo, hi))
  {
    var from, to := MergedFrom(s, lo), MergedTo(s, lo, hi);
    var a, c := KeptBefore(s, lo), KeptAfter(s, lo, hi);
    KeptBeforeEnds(s, lo, hi);
    KeptAfterBegins(s, lo, hi);
    MergedEnds(s, lo, hi);
    hide Ordered, Coalesced, Sound, Disjoint, KeptBefore, KeptAfter, MergedFrom, MergedTo;
    BeforeJoin(a, Piece(from, to), c);
  }

  lemma BeforeJoin(a: seq<Block>, p: seq<Block>, c: seq<Block>)
    requires Before(a, p) && Before(a, c)
    ensures Before(a, p + c)
  {
  }

  lemma KeptBeforeEnds(s: seq<Block>, lo: nat, hi: nat)
    requires Sound(s) && lo < hi && Disjoint(s, lo, hi)
    ensures forall i :: 0 <= i < |KeptBefore(s, lo)| ==> KeptBefore(s, lo)[i].End() < MergedFrom(s, lo)
    ensures Before(KeptBefore(s, lo), KeptAfter(s, lo, hi))
  {
    Gap(s, lo, hi);
    var a, c := KeptBefore(s, lo), KeptAfter(s, lo, hi);
    forall i | 0 <= i < |a| ensures a[i].End() < MergedFrom(s, lo) {
      assert a[i] == s[i];
    }
    forall i, j | 0 <= i < |a| && 0 <= j < |c| ensures a[i].End() < c[j].addr {
      assert a[i] == s[i] && c[j] == s[|s| - |c| + j];
    }
  }

  lemma KeptAfterBegins(s: seq<Block>, lo: nat, hi: nat)
    requires Sound(s) && lo < hi && Disjoint(s, lo, hi)
    ensures forall j :: 0 <= j < |KeptAfter(s, lo, hi)| ==> MergedTo(s, lo, hi) < KeptAfter(s, lo, hi)[j].addr
  {
  }
}
