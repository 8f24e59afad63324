/** The page allocator (kern/vmm_zone.c): one free list per order, merging of adjacent blocks of equal
    order. Addresses are page numbers; the order field at the start of a free block is a map entry. */
module Zone {
  import opened Basics
  import opened Bits
  import opened VariableQueue

  /** 2^order pages from page on. */
  datatype Block = Block(page: nat, order: nat) {
    function End(): nat { page + Pow2(order) }
  }

  /** One entry of the free area table. */
  datatype Area = Area(numFree: int, list: seq<nat>)

  ghost predicate Contains(b: Block, x: nat) { b.page <= x < b.End() }

  ghost predicate Apart(b: Block, c: Block) { b.End() <= c.page || c.End() <= b.page }

  ghost predicate IsFree(areas: seq<Area>, b: Block) {
    b.order < |areas| && b.page in areas[b.order].list
  }

  /** b is on a free list or among the others. */
  ghost predicate Has(areas: seq<Area>, others: set<Block>, b: Block) {
    IsFree(areas, b) || b in others
  }

  /** The zone has 2^max pages from first on. */
  ghost predicate InZone(b: Block, first: nat, max: nat) {
    first <= b.page && b.End() <= first + Pow2(max)
  }

  ghost predicate Covered(areas: seq<Area>, others: set<Block>, x: nat) {
    exists b :: Has(areas, others, b) && Contains(b, x)
  }

  /** The blocks on the lists and the others are different, do not overlap, and cover exactly the zone. */
  ghost predicate Tiling(areas: seq<Area>, others: set<Block>, first: nat, max: nat) {
    (forall b :: b in others ==> !IsFree(areas, b)) &&
    (forall b :: Has(areas, others, b) ==> InZone(b, first, max)) &&
    (forall b, c :: Has(areas, others, b) && Has(areas, others, c) && b != c ==> Apart(b, c)) &&
    (forall x: nat :: first <= x < first + Pow2(max) ==> Covered(areas, others, x))
  }

  /** Every count is its list's length, and no block is listed twice. */
  ghost predicate Counted(areas: seq<Area>) {
    forall i :: 0 <= i < |areas| ==> areas[i].numFree == |areas[i].list| && Distinct(areas[i].list)
  }

  /** Every block on a list has that list's order in its first page. */
  ghost predicate Marked(areas: seq<Area>, orders: map<nat, int>) {
    forall i, p :: 0 <= i < |areas| && p in areas[i].list ==> p in orders && orders[p] == i
  }

  /** No two free blocks of one order are adjacent. */
  ghost predicate Sparse(areas: seq<Area>) {
    forall i, p, q :: 0 <= i < |areas| && p in areas[i].list && q in areas[i].list ==> q != p + Pow2(i)
  }

  function Push(areas: seq<Area>, i: nat, p: nat): seq<Area>
    requires i < |areas|
  {
    areas[i := Area(areas[i].numFree + 1, [p] + areas[i].list)]
  }

  function Drop(areas: seq<Area>, i: nat, k: nat): seq<Area>
    requires i < |areas| && k < |areas[i].list|
  {
    areas[i := Area(areas[i].numFree - 1, Removed(areas[i].list, k))]
  }

  // ---------------------------------------------------------------- one list entry added or removed

  lemma PushHas(areas: seq<Area>, i: nat, p: nat)
    requires i < |areas|
    ensures forall b :: IsFree(Push(areas, i, p), b) <==> IsFree(areas, b) || b == Block(p, i)
  {
  }

  lemma RemovedHas(s: seq<nat>, k: nat)
    requires Distinct(s) && k < |s|
    ensures forall p :: p in Removed(s, k) <==> p in s && p != s[k]
    ensures Distinct(Removed(s, k))
  {
  }

  lemma DropHas(areas: seq<Area>, i: nat, k: nat)
    requires Counted(areas) && i < |areas| && k < |areas[i].list|
    ensures forall b :: IsFree(Drop(areas, i, k), b) <==> IsFree(areas, b) && b != Block(areas[i].list[k], i)
    ensures Counted(Drop(areas, i, k))
  {
  }

  /** Taking a block off its list and counting it among the others keeps the tiling. */
  lemma DropTiling(areas: seq<Area>, others: set<Block>, first: nat, max: nat, i: nat, k: nat)
    requires Tiling(areas, others, first, max) && Counted(areas) && i < |areas| && k < |areas[i].list|
    ensures Tiling(Drop(areas, i, k), others + {Block(areas[i].list[k], i)}, first, max)
    ensures Block(areas[i].list[k], i) !in others
  {
    var b0 := Block(areas[i].list[k], i);
    assert IsFree(areas, b0);
    DropHas(areas, i, k);
    SameTiling(areas, others, Drop(areas, i, k), others + {b0}, first, max);
  }

  lemma PushTiling(areas: seq<Area>, others: set<Block>, first: nat, max: nat, i: nat, p: nat)
    requires Tiling(areas, others + {Block(p, i)}, first, max) && i < |areas| && Block(p, i) !in others
    ensures Tiling(Push(areas, i, p), others, first, max)
  {
    PushHas(areas, i, p);
    SameTiling(areas, others + {Block(p, i)}, Push(areas, i, p), others, first, max);
  }

  lemma SameTiling(areas: seq<Area>, others: set<Block>, areas': seq<Area>, others': set<Block>, first: nat, max: nat)
    requires Tiling(areas, others, first, max)
    requires forall b :: Has(areas', others', b) <==> Has(areas, others, b)
    requires forall b :: b in others' ==> !IsFree(areas', b)
    ensures Tiling(areas', others', first, max)
  {
    forall x: nat | first <= x < first + Pow2(max) ensures Covered(areas', others', x) {
      assert Covered(areas, others, x);
      var b :| Has(areas, others, b) && Contains(b, x);
      assert Has(areas', others', b);
    }
  }

  lemma PushCounted(areas: seq<Area>, i: nat, p: nat)
    requires Counted(areas) && i < |areas| && p !in areas[i].list
    ensures Counted(Push(areas, i, p))
  {
  }

  // ---------------------------------------------------------------- splitting and merging

  lemma Halves(p: nat, k: nat, x: nat)
    ensures Contains(Block(p, k + 1), x) <==> Contains(Block(p, k), x) || Contains(Block(p + Pow2(k), k), x)
    ensures Block(p, k + 1).End() == Block(p + Pow2(k), k).End()
  {
  }

  lemma SplitTiling(areas: seq<Area>, rest: set<Block>, first: nat, max: nat, p: nat, k: nat)
    requires var whole := Block(p, k + 1);
      Tiling(areas, rest + {whole}, first, max) && whole !in rest
    ensures var low, high := Block(p, k), Block(p + Pow2(k), k);
      Tiling(areas, rest + {low} + {high}, first, max) && low !in rest && high !in rest && low != high
  {
    hide Pow2;
    var whole, low, high := Block(p, k + 1), Block(p, k), Block(p + Pow2(k), k);
    var before, after := rest + {whole}, rest + {low} + {high};
    assert Has(areas, before, whole);
    Halves(p, k, p);
    forall b | Has(areas, before, b) && b != whole
      ensures Apart(b, low) && Apart(b, high) && Apart(low, b) && Apart(high, b) && b != low && b != high
    {
      assert Apart(b, whole);
      OutsideWhole(b, p, k);
    }
    InWhole(p, k, first, max);
    assert !Has(areas, before, low) && !Has(areas, before, high);
    hide Apart, InZone;
    assert forall b :: Has(areas, after, b) ==> b == low || b == high || (Has(areas, before, b) && b != whole);
    forall x: nat | first <= x < first + Pow2(max) ensures Covered(areas, after, x) {
      assert Covered(areas, before, x);
      var b :| Has(areas, before, b) && Contains(b, x);
      Halves(p, k, x);
      var c := if b == whole then (if Contains(low, x) then low else high) else b;
      assert Has(areas, after, c);
    }
  }

  lemma MergeTiling(areas: seq<Area>, rest: set<Block>, first: nat, max: nat, p: nat, k: nat)
    requires var low, high := Block(p, k), Block(p + Pow2(k), k);
      Tiling(areas, rest + {low} + {high}, first, max) && low !in rest && high !in rest
    ensures var whole := Block(p, k + 1);
      Tiling(areas, rest + {whole}, first, max) && whole !in rest
  {
    hide Pow2;
    var whole, low, high := Block(p, k + 1), Block(p, k), Block(p + Pow2(k), k);
    var before, after := rest + {low} + {high}, rest + {whole};
    assert Has(areas, before, low) && Has(areas, before, high);
    Halves(p, k, p);
    forall b | Has(areas, before, b) && b != low && b != high
      ensures Apart(b, whole) && Apart(whole, b) && b != whole
    {
      assert Apart(b, low) && Apart(b, high);
      BetweenHalves(b, p, k);
    }
    WholeOf(p, k, first, max);
    assert !Has(areas, before, whole);
    hide Apart, InZone;
    assert forall b :: Has(areas, after, b) ==> b == whole || (Has(areas, before, b) && b != low && b != high);
    forall x: nat | first <= x < first + Pow2(max) ensures Covered(areas, after, x) {
      assert Covered(areas, before, x);
      var b :| Has(areas, before, b) && Contains(b, x);
      Halves(p, k, x);
      var c := if b == low || b == high then whole else b;
      assert Has(areas, after, c);
    }
  }

  lemma InWhole(p: nat, k: nat, first: nat, max: nat)
    ensures InZone(Block(p, k + 1), first, max) ==> InZone(Block(p, k), first, max) && InZone(Block(p + Pow2(k), k), first, max)
    ensures Apart(Block(p, k), Block(p + Pow2(k), k)) && Apart(Block(p + Pow2(k), k), Block(p, k))
    ensures Block(p, k) != Block(p + Pow2(k), k)
  {
  }

  lemma WholeOf(p: nat, k: nat, first: nat, max: nat)
    ensures InZone(Block(p, k), first, max) && InZone(Block(p + Pow2(k), k), first, max) ==> InZone(Block(p, k + 1), first, max)
    ensures Block(p, k + 1) != Block(p, k) && Block(p, k + 1) != Block(p + Pow2(k), k)
  {
  }

  lemma OutsideWhole(b: Block, p: nat, k: nat)
    requires Apart(b, Block(p, k + 1))
    ensures Apart(b, Block(p, k)) && Apart(b, Block(p + Pow2(k), k)) && b != Block(p, k) && b != Block(p + Pow2(k), k)
    ensures Apart(Block(p, k), b) && Apart(Block(p + Pow2(k), k), b)
  {
  }

  /** A block that overlaps neither half does not overlap the whole. */
  lemma BetweenHalves(b: Block, p: nat, k: nat)
    requires Apart(b, Block(p, k)) && Apart(b, Block(p + Pow2(k), k))
    ensures Apart(b, Block(p, k + 1)) && Apart(Block(p, k + 1), b) && b != Block(p, k + 1)
  {
  }

  /** Two different blocks cannot both be as large as the zone: merging stops below max + 1. */
  lemma OnlyOneWhole(areas: seq<Area>, others: set<Block>, first: nat, max: nat, b: Block, c: Block)
    requires Tiling(areas, others, first, max) && Has(areas, others, b) && Has(areas, others, c) && b != c
    requires b.order == c.order
    ensures b.order < max
  {
    if b.order >= max {
      PowMonotone(max, b.order);
    }
    assert Apart(b, c);
    PowPositive(max);
    hide Pow2;
    assert InZone(b, first, max) && InZone(c, first, max);
  }

  // ---------------------------------------------------------------- aligned blocks

  /** The place of a page in its range of the given size, ranges being counted from the first page. */
  function Offset(page: nat, first: nat, size: nat): int
    requires size > 0
  {
    (page - first) % size
  }

  /** The block begins at a multiple of its size, counted from the first page. */
  ghost predicate Aligned(b: Block, first: nat) { Offset(b.page, first, Pow2(b.order)) == 0 }

  ghost predicate AllAligned(areas: seq<Area>, others: set<Block>, first: nat) {
    forall b :: Has(areas, others, b) ==> Aligned(b, first)
  }

  ghost predicate FreeAre(areas: seq<Area>, s: set<Block>) { forall b :: IsFree(areas, b) <==> b in s }

  /** The place of the first entry at node or next to it; the length of the list when there is none. */
  ghost function FirstTouching(list: seq<nat>, node: nat, i: nat): (k: nat)
    ensures k <= |list| && (k < |list| ==> Touches(list[k], node, i))
    ensures forall j :: 0 <= j < k ==> !Touches(list[j], node, i)
  {
    if list == [] || Touches(list[0], node, i) then 0
    else assert forall j :: 0 < j < |list| ==> list[j] == list[1..][j - 1]; 1 + FirstTouching(list[1..], node, i)
  }

  /** The block that the one of order i at node grows to, told from the lists before it is freed: each list
      is searched from its front, and the first neighbour found is taken in. */
  ghost function MergeOf(areas: seq<Area>, node: nat, i: nat): Block
    decreases |areas| - i
  {
    if i >= |areas| then Block(node, i) else
      var list := areas[i].list;
      var k := FirstTouching(list, node, i);
      if k == |list| then Block(node, i) else MergeOf(areas, if list[k] < node then list[k] else node, i + 1)
  }

  /** A list without its first entry at node or next to it. */
  ghost function LessFirst(list: seq<nat>, node: nat, i: nat): seq<nat> {
    var k := FirstTouching(list, node, i); if k == |list| then list else Removed(list, k)
  }

  /** The first page of what the block of order i at node has grown to once the lists below j have been searched. */
  ghost function GrownPage(areas: seq<Area>, node: nat, i: nat, j: nat): nat
    requires j <= |areas|
  {
    if j <= i then node else
      var p, list := GrownPage(areas, node, i, j - 1), areas[j - 1].list;
      var k := FirstTouching(list, p, j - 1);
      if k < |list| && list[k] < p then list[k] else p
  }

  /** The lists while a block is being freed: those below i have lost a neighbour each, the others are as before. */
  ghost predicate Grown(areas0: seq<Area>, areas: seq<Area>, page: nat, order: nat, node: nat, i: nat) {
    order <= i <= |areas0| == |areas| && node == GrownPage(areas0, page, order, i) &&
    (forall j :: 0 <= j < |areas| && (j < order || i <= j) ==> areas[j] == areas0[j]) &&
    forall j :: order <= j < i ==> areas[j].list == LessFirst(areas0[j].list, GrownPage(areas0, page, order, j), j)
  }

  /** The lists after a block was freed that grew to m: m is in front of its list, each list below it, from the
      block's own on, has lost the first neighbour it had, and every other list is as it was. */
  ghost predicate FreedLists(areas0: seq<Area>, areas: seq<Area>, page: nat, order: nat, m: Block) {
    order <= m.order < |areas0| == |areas| && areas[m.order].list == [m.page] + areas0[m.order].list &&
    (forall j :: 0 <= j < |areas| && (j < order || m.order < j) ==> areas[j] == areas0[j]) &&
    forall j :: order <= j < m.order ==> areas[j].list == LessFirst(areas0[j].list, GrownPage(areas0, page, order, j), j)
  }

  lemma GrownStart(areas: seq<Area>, page: nat, order: nat)
    requires order <= |areas|
    ensures Grown(areas, areas, page, order, page, order)
  {
  }

  lemma GrownOnce(areas0: seq<Area>, areas: seq<Area>, page: nat, order: nat, node: nat, i: nat, k: nat)
    requires Grown(areas0, areas, page, order, node, i) && i < |areas| && k <= |areas[i].list|
    requires k < |areas[i].list| ==> Touches(areas[i].list[k], node, i)
    requires forall j :: 0 <= j < k ==> !Touches(areas[i].list[j], node, i)
    ensures areas[i] == areas0[i]
    ensures k < |areas[i].list| ==> var low := if areas[i].list[k] < node then areas[i].list[k] else node;
      Grown(areas0, Drop(areas, i, k), page, order, low, i + 1)
  {
    hide Touches, Removed;
    assert FirstTouching(areas[i].list, node, i) == k;
  }

  lemma GrownEnd(areas0: seq<Area>, areas: seq<Area>, page: nat, order: nat, node: nat, i: nat)
    requires Grown(areas0, areas, page, order, node, i) && i < |areas|
    ensures FreedLists(areas0, Push(areas, i, node), page, order, Block(node, i))
  {
  }

  /** The page allocator hands out again what was freed last: a block that has met no neighbour comes back with the
      next request of its order, and the lists are then what they were before it was freed. */
  lemma FreedComesBack(areas0: seq<Area>, areas1: seq<Area>, areas2: seq<Area>, page: nat, order: nat, p: nat, k: nat)
    requires FreedLists(areas0, areas1, page, order, Block(page, order))
    requires SmallestTaken(areas1, areas2, order, p, k) && ListsTaken(areas1, areas2, order, p, k)
    ensures p == page && k == order && forall j :: 0 <= j < |areas0| ==> areas2[j].list == areas0[j].list
  {
    assert areas1[order].list[0] == page && NoneFrom(areas1, order, k);
  }

  /** Each neighbour that is taken in makes up an aligned block of the next order with what there is so far. */
  ghost predicate OnlyHalves(areas: seq<Area>, node: nat, i: nat, first: nat)
    decreases |areas| - i
  {
    if i >= |areas| then true else
      var list := areas[i].list;
      var k := FirstTouching(list, node, i);
      if k == |list| then true else
        var low := if list[k] < node then list[k] else node;
        Aligned(Block(low, i + 1), first) && OnlyHalves(areas, low, i + 1, first)
  }

  lemma MergeStep(areas: seq<Area>, node: nat, i: nat, k: nat)
    requires i < |areas| && k <= |areas[i].list| && (k < |areas[i].list| ==> Touches(areas[i].list[k], node, i))
    requires forall j :: 0 <= j < k ==> !Touches(areas[i].list[j], node, i)
    ensures k == |areas[i].list| ==> MergeOf(areas, node, i) == Block(node, i)
    ensures k < |areas[i].list| ==>
      MergeOf(areas, node, i) == MergeOf(areas, if areas[i].list[k] < node then areas[i].list[k] else node, i + 1)
  {
    hide Touches;
    assert FirstTouching(areas[i].list, node, i) == k;
  }

  /** Freeing leads to an aligned block if and only if it starts from one and takes in only its other halves. */
  lemma {:induction false} MergedAligned(areas: seq<Area>, node: nat, i: nat, first: nat)
    ensures Aligned(MergeOf(areas, node, i), first) <==> Aligned(Block(node, i), first) && OnlyHalves(areas, node, i, first)
    decreases |areas| - i
  {
    hide Touches, Aligned;
    if i < |areas| {
      var list := areas[i].list;
      var k := FirstTouching(list, node, i);
      if k < |list| {
        var low := if list[k] < node then list[k] else node;
        MergedAligned(areas, low, i + 1, first);
        if Aligned(Block(low, i + 1), first) {
          HalfAligned(list[k], node, i, first);
        }
      }
    }
  }

  lemma HalfAligned(cur: nat, node: nat, i: nat, first: nat)
    requires Touches(cur, node, i) && Aligned(Block(if cur < node then cur else node, i + 1), first)
    ensures Aligned(Block(node, i), first)
  {
    var low := if cur < node then cur else node;
    MultipleOfPart(low - first, Pow2(i));
    assert node == low || node == low + Pow2(i);
  }

  lemma MultipleOfPart(x: int, p: nat)
    requires p > 0 && x % (2 * p) == 0
    ensures x % p == 0 && (x + p) % p == 0
  {
    var q := x / (2 * p);
    assert x == (2 * p) * q == p * (2 * q);
    DivModUnique(x, p, 2 * q, 0);
    assert x + p == p * (2 * q + 1);
    DivModUnique(x + p, p, 2 * q + 1, 0);
  }

  lemma {:induction false} MultipleOfSmaller(x: int, i: nat, k: nat)
    requires i <= k && x % Pow2(k) == 0
    ensures x % Pow2(i) == 0 && (x + Pow2(i)) % Pow2(i) == 0
  {
    if i < k {
      MultipleOfPart(x, Pow2(k - 1));
      MultipleOfSmaller(x, i, k - 1);
    } else {
      DivModUnique(x + Pow2(i), Pow2(i), x / Pow2(i) + 1, 0);
    }
  }

  /** Splitting keeps every block aligned. */
  lemma TakingKeepsAligned(areas: seq<Area>, areas': seq<Area>, others: set<Block>, first: nat, order: nat, page: nat,
      k: nat)
    requires SmallestTaken(areas, areas', order, page, k)
    ensures AllAligned(areas, others, first) ==> AllAligned(areas', others + {Block(page, order)}, first)
  {
    if AllAligned(areas, others, first) {
      assert IsFree(areas, Block(page, k));
      assert Has(areas, others, Block(page, k));
      forall b | Has(areas', others + {Block(page, order)}, b) ensures Aligned(b, first) {
        if IsFree(areas, b) || b in others {
          assert Has(areas, others, b);
        } else {
          MultipleOfSmaller(page - first, b.order, k);
        }
      }
    }
  }

  /** Merging keeps every block aligned exactly when it takes in nothing but other halves. */
  lemma FreeingKeepsAligned(areas: seq<Area>, areas': seq<Area>, others: set<Block>, first: nat, b: Block)
    requires b in others && MergedInto(areas, areas', b, MergeOf(areas, b.page, b.order))
    ensures AllAligned(areas, others, first) ==>
      (AllAligned(areas', others - {b}, first) <==> OnlyHalves(areas, b.page, b.order, first))
  {
    hide Aligned, MergeOf, OnlyHalves, Apart;
    var m := MergeOf(areas, b.page, b.order);
    MergedAligned(areas, b.page, b.order, first);
    assert Has(areas, others, b) && Has(areas', others - {b}, m);
    assert forall c :: Has(areas', others - {b}, c) ==> c == m || Has(areas, others, c);
  }

  // ---------------------------------------------------------------- when an emptied zone is one block

  ghost predicate Spans(b: Block, lo: int, size: int) { b.page <= lo && lo + size <= b.End() }

  /** Range number c of 2^k pages. */
  function RangeStart(first: nat, c: nat, k: nat): nat { first + Mul(c, Pow2(k)) }

  lemma RangeHalves(first: nat, c: nat, k: nat)
    ensures RangeStart(first, 2 * c, k) == RangeStart(first, c, k + 1)
    ensures RangeStart(first, 2 * c + 1, k) == RangeStart(first, c, k + 1) + Pow2(k)
    ensures RangeStart(first, c, 0) == first + c && RangeStart(first, 0, k) == first
  {
    DoublePow(k);
    PowZero();
    DoubledGrid(c, Pow2(k));
    hide Pow2;
  }

  lemma DoubledGrid(c: nat, p: nat)
    ensures Mul(2 * c, p) == Mul(c, p + p) && Mul(2 * c + 1, p) == Mul(c, p + p) + p && Mul(0, p) == 0 && Mul(c, 1) == c
  {
  }

  /** An aligned block of at least 2^k pages that has one page of a range has all of it. */
  lemma AlignedSpans(b: Block, first: nat, c: nat, k: nat, x: nat)
    requires first <= b.page && Aligned(b, first) && k <= b.order && Contains(b, x)
    requires RangeStart(first, c, k) <= x < RangeStart(first, c, k) + Pow2(k)
    ensures Spans(b, RangeStart(first, c, k), Pow2(k))
  {
    hide Pow2;
    var d := b.page - first;
    MultipleOfSmaller(d, k, b.order);
    Pow2Add(k, b.order - k);
    GridSpans(Pow2(k), d, Pow2(b.order - k), c, x - first);
  }

  lemma GridSpans(p: nat, d: int, r: nat, c: nat, y: int)
    requires p > 0 && d % p == 0 && d <= y < d + p * r && Mul(c, p) <= y < Mul(c, p) + p
    ensures d <= Mul(c, p) && Mul(c, p) + p <= d + p * r
  {
    var m := d / p;
    assert d == p * m && p * (m + r) == p * m + p * r;
    if m >= c + 1 {
      MulMonotone(c + 1, m, p);
    }
    MulMonotone(m, c, p);
    if c >= m + r {
      MulMonotone(m + r, c, p);
    }
    MulMonotone(c + 1, m + r, p);
  }

  /** A block of at most 2^k pages that has all of a range is that range. */
  lemma SpansExactly(b: Block, lo: nat, k: nat)
    requires Spans(b, lo, Pow2(k)) && b.order <= k
    ensures b == Block(lo, k)
  {
    if b.order < k {
      PowMonotone(b.order + 1, k);
    }
  }

  /** With every free block aligned and nothing in use, every range lies in one free block: its halves do, and
      two different free blocks of that size would be neighbours. */
  lemma {:induction false} RangeInOne(areas: seq<Area>, first: nat, max: nat, c: nat, k: nat) returns (b: Block)
    requires Tiling(areas, {}, first, max) && Sparse(areas) && AllAligned(areas, {}, first)
    requires RangeStart(first, c, k) + Pow2(k) <= first + Pow2(max)
    ensures IsFree(areas, b) && Spans(b, RangeStart(first, c, k), Pow2(k))
    decreases k
  {
    RangeHalves(first, c, if k == 0 then 0 else k - 1);
    if k == 0 {
      hide RangeStart, Sparse;
      PowZero();
      assert Covered(areas, {}, first + c);
      b :| Has(areas, {}, b) && Contains(b, first + c);
    } else {
      hide Sparse, AllAligned, RangeStart, Tiling, IsFree, Spans, Pow2;
      DoublePow(k - 1);
      b := RangeInOne(areas, first, max, 2 * c, k - 1);
      var b2 := RangeInOne(areas, first, max, 2 * c + 1, k - 1);
      var x, y := RangeStart(first, 2 * c, k - 1), RangeStart(first, 2 * c + 1, k - 1);
      HalvesJoin(areas, first, max, b, b2, x, y, c, k);
      b := if b.order >= k then b else b2;
    }
  }

  lemma HalvesJoin(areas: seq<Area>, first: nat, max: nat, b1: Block, b2: Block, x: nat, y: nat, c: nat, k: nat)
    requires Tiling(areas, {}, first, max) && Sparse(areas) && AllAligned(areas, {}, first)
    requires k > 0 && IsFree(areas, b1) && IsFree(areas, b2) && x == RangeStart(first, c, k) && y == x + Pow2(k - 1)
    requires Spans(b1, x, Pow2(k - 1)) && Spans(b2, y, Pow2(k - 1))
    ensures Spans(if b1.order >= k then b1 else b2, x, Pow2(k))
  {
    hide Aligned, RangeStart;
    assert Has(areas, {}, b1) && Has(areas, {}, b2);
    PowPositive(k - 1);
    if b1.order >= k {
      AlignedSpans(b1, first, c, k, x);
    } else if b2.order >= k {
      AlignedSpans(b2, first, c, k, y);
    } else {
      SpansExactly(b1, x, k - 1);
      SpansExactly(b2, y, k - 1);
      assert false;
    }
  }

  /** When nothing is in use, the whole zone is one free block again if and only if every free block begins at a
      multiple of its size. */
  lemma RebuiltIff(areas: seq<Area>, orders: map<nat, int>, first: nat, max: nat)
    requires Listed(areas, orders, {}, first, max) && Sparse(areas)
    ensures FreeAre(areas, {Block(first, max)}) <==> AllAligned(areas, {}, first)
  {
    var whole := Block(first, max);
    hide Pow2, Sparse, Aligned;
    if AllAligned(areas, {}, first) {
      RangeHalves(first, 0, max);
      var b := RangeInOne(areas, first, max, 0, max);
      assert Has(areas, {}, b);
      BiggestIsWhole(b, first, max);
      forall x | IsFree(areas, x) ensures x == whole {
        assert Has(areas, {}, x);
        PowPositive(x.order);
      }
    }
    if FreeAre(areas, {whole}) {
      WholeAligned(first, max);
    }
  }

  lemma WholeAligned(first: nat, max: nat)
    ensures Aligned(Block(first, max), first)
  {
    hide Pow2;
    DivModUnique(0, Pow2(max), 0, 0);
  }

  lemma BiggestIsWhole(b: Block, first: nat, max: nat)
    requires Spans(b, first, Pow2(max)) && InZone(b, first, max)
    ensures b == Block(first, max)
  {
    if b.order > max {
      PowMonotone(max + 1, b.order);
    }
    SpansExactly(b, first, max);
  }

  // ---------------------------------------------------------------- the size of the zone

  const PAGE_SIZE: nat := 4096
  const AREA_SIZE: nat := 12  // a packed count and two pointers

  /** The shifting so far: n is what is left of num above its low pos bits. */
  ghost predicate Shifted(num: nat, n: nat, pos: nat, limit: nat) {
    n == Shr(num, pos) && n < limit && (num > 0 ==> n > 0)
  }

  /** Position of the highest bit of a 32-bit word; 0 for 0. */
  method FloorLog2(num: nat) returns (pos: nat)
    requires num < 0x1_0000_0000
    ensures num > 0 ==> Pow2(pos) <= num < Pow2(pos + 1)
    ensures num == 0 ==> pos == 0
    ensures pos <= 31
  {
    hide Pow2, Shr, Shifted;
    var n := num;
    pos := 0;
    ShiftStart(num);
    if n >= 0x1_0000 {
      ShiftStep(num, n, pos, 16, 0x1_0000, 0x1_0000);
      n := Shr(n, 16);
      pos := pos + 16;
    }
    ShiftLess(num, n, pos, 0x1_0000);
    if n >= 0x100 {
      ShiftStep(num, n, pos, 8, 0x100, 0x100);
      n := Shr(n, 8);
      pos := pos + 8;
    }
    ShiftLess(num, n, pos, 0x100);
    if n >= 0x10 {
      ShiftStep(num, n, pos, 4, 0x10, 0x10);
      n := Shr(n, 4);
      pos := pos + 4;
    }
    ShiftLess(num, n, pos, 0x10);
    if n >= 4 {
      ShiftStep(num, n, pos, 2, 4, 4);
      n := Shr(n, 2);
      pos := pos + 2;
    }
    ShiftLess(num, n, pos, 4);
    ShiftEnd(num, n, pos);
    if n >= 2 {
      pos := pos + 1;
    }
    pos := if n == 0 then 0 else pos;
  }

  lemma ShiftStart(num: nat)
    requires num < 0x1_0000_0000
    ensures Shifted(num, num, 0, 0x1_0000_0000)
  {
  }

  lemma ShiftLess(num: nat, n: nat, pos: nat, limit: nat)
    requires (n < limit && exists l: nat :: Shifted(num, n, pos, l)) || Shifted(num, n, pos, limit)
    ensures Shifted(num, n, pos, limit)
  {
  }

  lemma ShiftStep(num: nat, n: nat, pos: nat, k: nat, p: nat, limit: nat)
    requires Shifted(num, n, pos, p * limit) && n >= p && k <= 16
    requires (k == 16 && p == 0x1_0000) || (k == 8 && p == 0x100) || (k == 4 && p == 0x10) || (k == 2 && p == 4)
    ensures Shifted(num, Shr(n, k), pos + k, limit)
  {
    SmallPowers();
    ByteAndHalfWord();
    assert Pow2(k) == p;
    Pow2Add(pos, k);
    hide Pow2;
    DivDiv(num, Pow2(pos), p, Pow2(pos + k));
    QuotientBounds(n, p, limit);
  }

  lemma DivDiv(x: nat, a: nat, b: nat, c: nat)
    requires a > 0 && b > 0 && c == a * b
    ensures (x / a) / b == x / c
  {
    var q := x / a;
    DivDivParts(x, a, b, c, q, x % a, q / b, q % b);
  }

  lemma DivDivParts(x: nat, a: nat, b: nat, c: nat, q: nat, r: nat, s: nat, u: nat)
    requires x == a * q + r && r < a && q == b * s + u && u < b && c == a * b && a > 0 && b > 0
    ensures x / c == s
  {
    assert a * q == a * (b * s) + a * u;
    assert a * (b * s) == c * s;
    MulMonotone(u, b - 1, a);
    assert a * (b - 1) == a * b - a;
    DivModUnique(x, c, s, a * u + r);
  }

  lemma QuotientBounds(n: nat, p: nat, limit: nat)
    requires p <= n < p * limit && p > 0
    ensures 0 < n / p < limit
  {
  }

  lemma ShiftEnd(num: nat, n: nat, pos: nat)
    requires Shifted(num, n, pos, 4)
    ensures num > 0 && n < 2 ==> n == 1 && Pow2(pos) <= num < Pow2(pos + 1)
    ensures n >= 2 ==> Pow2(pos + 1) <= num < Pow2(pos + 2)
    ensures n == 0 <==> num == 0
  {
  }

  // ---------------------------------------------------------------- the zone

  /** What holds of the lists between calls, and between steps of one. */
  ghost predicate Listed(areas: seq<Area>, orders: map<nat, int>, others: set<Block>, first: nat, max: nat) {
    |areas| == max + 1 && Counted(areas) && Marked(areas, orders) && Tiling(areas, others, first, max)
  }

  class PageZone {
    var areas: seq<Area>
    var orders: map<nat, int>
    var start: nat
    var numPages: nat
    var maxOrder: nat
    ghost var first: nat
    ghost var live: set<Block>

    ghost predicate Valid()
      reads this
    {
      Listed(areas, orders, live, first, maxOrder) && Sparse(areas)
    }

    /** Every block, free or in use, begins at a multiple of its size. */
    ghost predicate Regular()
      reads this
    {
      AllAligned(areas, live, first)
    }

    /** vmm_zone_init and vmm_buddy_init: the free area table takes the first page, and the largest power
        of two of the remaining pages becomes one free block. */
    constructor (start: nat, numPages: nat)
      requires 2 <= numPages < 0x8000_0000
      ensures Valid() && live == {} && this.start == start && this.numPages == numPages && first == start + 1
      ensures first + Pow2(maxOrder) <= start + numPages < first + Pow2(maxOrder + 1)
      ensures AREA_SIZE * |areas| <= PAGE_SIZE
      ensures FreeAre(areas, {Block(first, maxOrder)}) && Regular()
    {
      hide Pow2;
      var upper := FloorLog2(numPages);
      TableOnePage(numPages, upper);
      var tablePages := (AREA_SIZE * upper - 1) / PAGE_SIZE + 1;
      var firstPage := start + tablePages;
      var remaining := numPages - tablePages;
      upper := FloorLog2(remaining);
      var table := seq(upper + 1, _ => Area(0, []));
      orders := map[firstPage := upper];
      areas := table[upper := Area(1, [firstPage])];
      maxOrder := upper;
      this.start, this.numPages := start, numPages;
      first, live := firstPage, {};
      new;
      OneBlock(areas, firstPage, upper);
    }

    /** Splits the block at node down to the wanted order, giving the upper halves to the lists. */
    method Split(node: nat, order: nat, ghost k: nat) returns (r: Option<nat>)
      requires node in orders && orders[node] == k && order <= k <= maxOrder && Block(node, k) !in live
      requires Listed(areas, orders, live + {Block(node, k)}, first, maxOrder) && Sparse(areas)
      requires forall j :: order <= j < k ==> areas[j].list == []
      modifies this`areas, this`orders, this`live
      ensures r == Some(node) && Valid() && live == old(live) + {Block(node, order)} && Block(node, order) !in old(live)
      ensures HalvesListed(old(areas), areas, node, order, k)
    {
      hide Pow2, Counted, Marked, Tiling, Sparse, HalvesListed;
      ghost var live0, areas0 := live, areas;
      var i: nat := orders[node];
      NoHalves(areas, node, k);
      while i > order
        invariant order <= i <= k && node in orders && orders[node] == i && Block(node, i) !in live0
        invariant Listed(areas, orders, live0 + {Block(node, i)}, first, maxOrder) && Sparse(areas)
        invariant forall j :: order <= j < i ==> areas[j].list == []
        invariant live == live0
        invariant HalvesListed(areas0, areas, node, i, k)
      {
        i := i - 1;
        SplitOnce(areas, orders, live0, first, maxOrder, node, i);
        MoreHalves(areas0, areas, node, i, k);
        orders := orders[node := orders[node] - 1];
        var half := node + Pow2(i);
        orders := orders[half := i];
        areas := Push(areas, i, half);
      }
      live := live + {Block(node, order)};
      r := if orders[node] == order then Some(node) else None;
    }

    /** Takes 2^order pages from the smallest free block that has them. */
    method GetFreePages(order: nat) returns (r: Option<nat>)
      requires Valid()
      modifies this`areas, this`orders, this`live
      ensures Valid()
      ensures r.None? ==> areas == old(areas) && live == old(live) && NoneFrom(old(areas), order, maxOrder + 1)
      ensures r.Some? ==> live == old(live) + {Block(r.value, order)} && Block(r.value, order) !in old(live)
      ensures r.Some? ==> exists k: nat ::
        SmallestTaken(old(areas), areas, order, r.value, k) && ListsTaken(old(areas), areas, order, r.value, k)
      ensures old(Regular()) ==> Regular()
    {
      hide Pow2, Tiling, Sparse, IsFree, UpperHalf, HalvesListed, SmallestTaken, ListsTaken;
      ghost var areas0 := areas;
      var i := order;
      while i <= maxOrder
        invariant i >= order && NoneFrom(areas, order, i)
        invariant Valid() && areas == areas0 && live == old(live) && orders == old(orders)
      {
        if areas[i].numFree != 0 {
          var node := areas[i].list[0];
          TakeOne(areas, orders, live, first, maxOrder, i, 0);
          areas := areas[i := Area(areas[i].numFree - 1, Removed(areas[i].list, 0))];
          ghost var dropped := areas;
          r := Split(node, order, i);
          SmallestIs(areas0, dropped, areas, order, node, i);
          TakingKeepsAligned(areas0, areas, old(live), first, order, node, i);
          return;
        }
        i := i + 1;
      }
      r := None;
    }

    /** The scan of one list: the first entry that is adjacent to the block at node, or is that block. */
    method FindNeighbour(node: nat, i: nat) returns (k: nat)
      requires i < |areas|
      ensures k <= |areas[i].list| && (k < |areas[i].list| ==> Touches(areas[i].list[k], node, i))
      ensures forall j :: 0 <= j < k ==> !Touches(areas[i].list[j], node, i)
    {
      hide Pow2;
      var list := areas[i].list;
      var buddy := node + Pow2(i);
      k := 0;
      while k < |list|
        invariant k <= |list| && forall j :: 0 <= j < k ==> !Touches(list[j], node, i)
      {
        var cur := list[k];
        if cur > node {
          if buddy == cur {
            return;
          }
        } else if cur < node {
          if cur + Pow2(i) == node {
            return;
          }
        } else {
          return;
        }
        k := k + 1;
      }
    }

    /** Gives a block back under the order it was taken with, and merges it upwards as long as an adjacent
        block of equal order is free. Freeing a block that is still on the list of that order changes nothing;
        freeing anything else that is not in use, such as a block that has been merged since, spoils the zone.
        A zone of aligned blocks stays one if and only if every neighbour met is the other half of a block. */
    method FreePages(page: nat, order: nat)
      requires Valid() && order <= maxOrder && InZone(Block(page, order), first, maxOrder)
      modifies this`areas, this`orders, this`live
      ensures Valid() <==> Block(page, order) in old(live) || page in old(areas)[order].list
      ensures page in old(areas)[order].list ==> areas == old(areas)
      ensures live == old(live) - {Block(page, order)}
      ensures Block(page, order) in old(live) ==>
        MergedInto(old(areas), areas, Block(page, order), MergeOf(old(areas), page, order))
      ensures Block(page, order) in old(live) ==>
        FreedLists(old(areas), areas, page, order, MergeOf(old(areas), page, order))
      ensures old(Regular()) && Block(page, order) in old(live) ==>
        (Regular() <==> OnlyHalves(old(areas), page, order, first))
    {
      hide Pow2, Tiling, Sparse, IsFree, Touches, Marked, Counted, Absorbed, MergedInto, MergeOf, OnlyHalves, AllAligned,
        InZone, Astray, Removed, Distinct, Offset, Aligned, Grown, FreedLists;
      ghost var b := Block(page, order);
      ghost var areas0, rest, again, c := areas, live - {b}, page in areas[order].list, b;
      ghost var known := again || b in live;
      if known {
        StartFree(areas, orders, live, first, maxOrder, page, order);
        NothingAbsorbed(areas, b);
      } else {
        c := StrayStart(areas, orders, live, first, maxOrder, b);
      }
      var node := page;
      orders := orders[node := order];
      var i := order;
      GrownStart(areas0, page, order);
      while i <= maxOrder
        invariant order <= i <= maxOrder && node in orders && orders[node] == i && |areas| == maxOrder + 1
        invariant live == old(live) && |areas0| == |areas|
        invariant again ==> i == order && node == page && areas == areas0 && Valid()
        invariant known ==> Sparse(areas)
        invariant known && !again ==>
          Listed(areas, orders, rest + {Block(node, i)}, first, maxOrder) && Block(node, i) !in rest &&
          Absorbed(areas0, areas, b, Block(node, i))
        invariant !known ==> Astray(areas, orders, live, first, maxOrder, b, c, Block(node, i))
        invariant MergeOf(areas0, page, order) == MergeOf(areas0, node, i)
        invariant Grown(areas0, areas, page, order, node, i)
        decreases maxOrder + 1 - i
      {
        var k := FindNeighbour(node, i);
        GrownOnce(areas0, areas, page, order, node, i, k);
        MergeStep(areas0, node, i, k);
        if k == |areas[i].list| {
          break;
        }
        var cur := areas[i].list[k];
        if cur == node {
          if known {
            NotAgain(areas, orders, rest, first, maxOrder, node, i, again);
            NotInUse(areas, live, first, maxOrder, b);
          } else {
            StrayAlone(areas, orders, live, first, maxOrder, b, c, node, i);
          }
          return;
        }
        if known {
          MergeOnce(areas, orders, rest, first, maxOrder, node, i, k, again);
          AbsorbsOne(areas0, areas, b, node, i, k);
        } else {
          StrayOnce(areas, orders, live, first, maxOrder, b, c, node, i, k);
        }
        if cur < node {
          node := cur;
        }
        orders := orders[node := orders[node] + 1];
        areas := areas[i := Area(areas[i].numFree - 1, Removed(areas[i].list, k))];
        i := i + 1;
      }
      if known {
        LastInsert(areas, orders, rest, first, maxOrder, node, i, again);
        AbsorbedAll(areas0, areas, rest, first, maxOrder, b, node, i);
      } else {
        StrayEnd(areas, orders, live, first, maxOrder, b, c, node, i);
        assert rest == live;
      }
      GrownEnd(areas0, areas, page, order, node, i);
      live := rest;
      areas := Push(areas, orders[node], node);
      if known {
        FreeingKeepsAligned(areas0, areas, old(live), first, b);
      }
    }
  }

  /** Lists order up to k - 1 are empty. */
  ghost predicate NoneFrom(areas: seq<Area>, order: nat, k: nat) {
    forall j :: order <= j < k && j < |areas| ==> areas[j].list == []
  }

  /** One of the upper halves that splitting a block of order k at node down to the given order leaves. */
  ghost predicate UpperHalf(b: Block, node: nat, order: nat, k: nat) {
    order <= b.order < k && b.page == node + Pow2(b.order)
  }

  /** The block of order i at c is the one at node, or next to it. */
  ghost predicate Touches(c: nat, node: nat, i: nat) {
    c == node || c == node + Pow2(i) || node == c + Pow2(i)
  }

  /** The block is the front of the smallest nonempty list of at least the wanted order, and its upper
      halves have been listed. */
  ghost predicate SmallestTaken(areas: seq<Area>, areas': seq<Area>, order: nat, page: nat, k: nat) {
    order <= k < |areas| && NoneFrom(areas, order, k) && areas[k].list != [] && page == areas[k].list[0] &&
    forall b :: IsFree(areas', b) <==> (IsFree(areas, b) && b != Block(page, k)) || UpperHalf(b, page, order, k)
  }

  /** Besides the blocks free before, exactly the upper halves are free now, each alone on its list. */
  ghost predicate HalvesListed(areas: seq<Area>, areas': seq<Area>, node: nat, order: nat, k: nat) {
    (forall b :: IsFree(areas', b) <==> IsFree(areas, b) || UpperHalf(b, node, order, k)) && |areas'| == |areas| &&
    forall j :: 0 <= j < |areas| ==> areas'[j].list == if order <= j < k then [node + Pow2(j)] else areas[j].list
  }

  /** List k lost its front, the lists below it hold the upper halves, and every other list is as it was. */
  ghost predicate ListsTaken(areas: seq<Area>, areas': seq<Area>, order: nat, page: nat, k: nat) {
    k < |areas| == |areas'| && areas[k].list != [] && areas'[k].list == areas[k].list[1..] &&
    forall j :: 0 <= j < |areas| && j != k ==>
      areas'[j].list == if order <= j < k then [page + Pow2(j)] else areas[j].list
  }

  lemma NoHalves(areas: seq<Area>, node: nat, k: nat)
    ensures HalvesListed(areas, areas, node, k, k)
  {
  }

  lemma {:induction false} MoreHalves(areas: seq<Area>, areas': seq<Area>, node: nat, i: nat, k: nat)
    requires i < k && i < |areas'| && HalvesListed(areas, areas', node, i + 1, k) && areas'[i].list == []
    ensures HalvesListed(areas, Push(areas', i, node + Pow2(i)), node, i, k)
  {
    hide Pow2;
    PushHas(areas', i, node + Pow2(i));
    hide IsFree;
  }

  lemma SmallestIs(areas: seq<Area>, dropped: seq<Area>, areas': seq<Area>, order: nat, page: nat, k: nat)
    requires order <= k < |areas| && NoneFrom(areas, order, k) && areas[k].list != [] && page == areas[k].list[0]
    requires forall b :: IsFree(dropped, b) <==> IsFree(areas, b) && b != Block(page, k)
    requires HalvesListed(dropped, areas', page, order, k) && dropped == Drop(areas, k, 0)
    ensures SmallestTaken(areas, areas', order, page, k) && ListsTaken(areas, areas', order, page, k)
  {
  }

  lemma TableOnePage(numPages: nat, upper: nat)
    requires 2 <= numPages < 0x8000_0000 && Pow2(upper) <= numPages < Pow2(upper + 1) && upper <= 31
    ensures 1 <= upper && (AREA_SIZE * upper - 1) / PAGE_SIZE == 0
  {
  }

  lemma OneBlock(areas: seq<Area>, p: nat, max: nat)
    requires |areas| == max + 1 && areas[max] == Area(1, [p])
    requires forall j :: 0 <= j < max ==> areas[j] == Area(0, [])
    ensures Listed(areas, map[p := max], {}, p, max) && Sparse(areas)
    ensures FreeAre(areas, {Block(p, max)}) && AllAligned(areas, {}, p)
  {
    hide Pow2;
    PowPositive(max);
    var whole := Block(p, max);
    assert forall b :: Has(areas, {}, b) <==> b == whole;
    forall x: nat | p <= x < p + Pow2(max) ensures Covered(areas, {}, x) {
      assert Has(areas, {}, whole) && Contains(whole, x);
    }
  }

  /** No listed block begins inside a block that is not free. */
  lemma BeginsOutside(areas: seq<Area>, others: set<Block>, first: nat, max: nat, b: Block, j: nat, p: nat)
    requires Tiling(areas, others, first, max) && b in others && j < |areas| && p in areas[j].list
    ensures !Contains(b, p)
  {
    var c := Block(p, j);
    assert Has(areas, others, b) && Has(areas, others, c) && c != b;
    assert Apart(b, c);
    PowPositive(j);
  }

  lemma MarkedSame(areas: seq<Area>, orders: map<nat, int>, others: set<Block>, first: nat, max: nat, b: Block,
      p: nat, w: int)
    requires Marked(areas, orders) && Tiling(areas, others, first, max) && b in others && Contains(b, p)
    ensures Marked(areas, orders[p := w])
  {
    var orders' := orders[p := w];
    forall j, q | 0 <= j < |areas| && q in areas[j].list ensures q in orders' && orders'[q] == j {
      BeginsOutside(areas, others, first, max, b, j, q);
    }
  }

  lemma FirstPage(b: Block)
    ensures Contains(b, b.page)
  {
  }

  lemma PushMarked(areas: seq<Area>, orders: map<nat, int>, i: nat, p: nat)
    requires Marked(areas, orders) && i < |areas| && p in orders && orders[p] == i
    ensures Marked(Push(areas, i, p), orders)
  {
  }

  /** One step of splitting: the block of order i + 1 at node becomes two, the upper half is listed. */
  lemma SplitOnce(areas: seq<Area>, orders: map<nat, int>, rest: set<Block>, first: nat, max: nat, node: nat, i: nat)
    requires Listed(areas, orders, rest + {Block(node, i + 1)}, first, max) && Sparse(areas) && i < max
    requires Block(node, i + 1) !in rest && areas[i].list == []
    ensures var half := node + Pow2(i);
      var orders', areas' := orders[node := i][half := i], Push(areas, i, half);
      Listed(areas', orders', rest + {Block(node, i)}, first, max) && Sparse(areas') && Block(node, i) !in rest
    ensures forall b :: IsFree(Push(areas, i, node + Pow2(i)), b) <==> IsFree(areas, b) || b == Block(node + Pow2(i), i)
  {
    var half, whole := node + Pow2(i), Block(node, i + 1);
    var low, high := Block(node, i), Block(half, i);
    Halves(node, i, node);
    Halves(node, i, half);
    FirstPage(low);
    FirstPage(high);
    MarkedSame(areas, orders, rest + {whole}, first, max, whole, node, i);
    MarkedSame(areas, orders[node := i], rest + {whole}, first, max, whole, half, i);
    SplitTiling(areas, rest, first, max, node, i);
    PushTiling(areas, rest + {low}, first, max, i, half);
    PushHas(areas, i, half);
    PushCounted(areas, i, half);
    PushMarked(areas, orders[node := i][half := i], i, half);
    SparseAlone(areas, i, half);
    hide *;
  }

  lemma SparseAlone(areas: seq<Area>, i: nat, p: nat)
    requires Sparse(areas) && i < |areas| && areas[i].list == []
    ensures Sparse(Push(areas, i, p))
  {
  }

  /** Taking entry k off list i. */
  lemma TakeOne(areas: seq<Area>, orders: map<nat, int>, others: set<Block>, first: nat, max: nat, i: nat, k: nat)
    requires Listed(areas, orders, others, first, max) && Sparse(areas) && i <= max && k < |areas[i].list|
    ensures var p := areas[i].list[k];
      p in orders && orders[p] == i && Block(p, i) !in others &&
      Listed(Drop(areas, i, k), orders, others + {Block(p, i)}, first, max) && Sparse(Drop(areas, i, k))
    ensures forall b :: IsFree(Drop(areas, i, k), b) <==> IsFree(areas, b) && b != Block(areas[i].list[k], i)
  {
    DropTiling(areas, others, first, max, i, k);
    DropHas(areas, i, k);
    DropFewer(areas, orders, i, k);
  }

  lemma DropFewer(areas: seq<Area>, orders: map<nat, int>, i: nat, k: nat)
    requires Counted(areas) && Marked(areas, orders) && Sparse(areas) && i < |areas| && k < |areas[i].list|
    ensures Marked(Drop(areas, i, k), orders) && Sparse(Drop(areas, i, k))
  {
    RemovedHas(areas[i].list, k);
    hide Pow2, Distinct, Removed;
    var areas' := Drop(areas, i, k);
    assert forall j, p :: 0 <= j < |areas| && p in areas'[j].list ==> p in areas[j].list;
  }

  /** A block handed back counts as one not listed, until it is put on a list. */
  lemma StartFree(areas: seq<Area>, orders: map<nat, int>, live: set<Block>, first: nat, max: nat, page: nat,
      order: nat)
    requires Listed(areas, orders, live, first, max) && order <= max
    requires Block(page, order) in live || page in areas[order].list
    ensures var orders', b := orders[page := order], Block(page, order);
      (page in areas[order].list ==> Listed(areas, orders', live, first, max)) &&
      (page !in areas[order].list ==> Listed(areas, orders', live - {b} + {b}, first, max))
  {
    var b := Block(page, order);
    if page in areas[order].list {
      assert orders[page := order] == orders;
    } else {
      assert live - {b} + {b} == live;
      FirstPage(b);
      MarkedSame(areas, orders, live, first, max, b, page, order);
    }
  }

  lemma NotAgain(areas: seq<Area>, orders: map<nat, int>, rest: set<Block>, first: nat, max: nat, node: nat, i: nat,
      again: bool)
    requires !again ==> Listed(areas, orders, rest + {Block(node, i)}, first, max)
    requires i < |areas| && node in areas[i].list
    ensures again
  {
  }

  lemma NotSparse(areas: seq<Area>, i: nat, p: nat, q: nat)
    requires Sparse(areas) && i < |areas| && p in areas[i].list && q in areas[i].list && p != q
    ensures !Touches(p, q, i)
  {
  }

  /** One step of merging with the free neighbour at entry k of list i. */
  lemma MergeOnce(areas: seq<Area>, orders: map<nat, int>, rest: set<Block>, first: nat, max: nat, node: nat, i: nat,
      k: nat,
      again: bool)
    requires !again ==> Listed(areas, orders, rest + {Block(node, i)}, first, max) && Block(node, i) !in rest
    requires Sparse(areas) && i <= max && |areas| == max + 1 && (again ==> node in areas[i].list) && k < |areas[i].list|
    requires areas[i].list[k] != node && Touches(areas[i].list[k], node, i)
    ensures !again && i < max
    ensures areas[i].list[k] in orders && orders[areas[i].list[k]] == i
    ensures var cur := areas[i].list[k];
      var low, areas' := if cur < node then cur else node, Drop(areas, i, k);
      Listed(areas', orders[low := i + 1], rest + {Block(low, i + 1)}, first, max) && Sparse(areas') &&
      Block(low, i + 1) !in rest
  {
    var cur := areas[i].list[k];
    if again {
      NotSparse(areas, i, cur, node);
    } else {
      MergePair(areas, orders, rest, first, max, node, i, k);
    }
  }

  lemma MergePair(areas: seq<Area>, orders: map<nat, int>, rest: set<Block>, first: nat, max: nat, node: nat, i: nat,
      k: nat)
    requires Listed(areas, orders, rest + {Block(node, i)}, first, max) && Block(node, i) !in rest
    requires Sparse(areas) && i <= max && k < |areas[i].list|
    requires areas[i].list[k] != node && Touches(areas[i].list[k], node, i)
    ensures i < max
    ensures var cur := areas[i].list[k];
      var low, areas' := if cur < node then cur else node, Drop(areas, i, k);
      cur in orders && orders[cur] == i &&
      Listed(areas', orders[low := i + 1], rest + {Block(low, i + 1)}, first, max) && Sparse(areas') &&
      Block(low, i + 1) !in rest
  {
    var cur := areas[i].list[k];
    var low := if cur < node then cur else node;
    var areas', mine, its, whole := Drop(areas, i, k), Block(node, i), Block(cur, i), Block(low, i + 1);
    var others := rest + {mine};
    TakeOne(areas, orders, others, first, max, i, k);
    TwoWholes(areas', others + {its}, first, max, mine, its);
    PairIsHalves(cur, node, i);
    assert others + {its} == rest + {Block(low, i)} + {Block(low + Pow2(i), i)};
    MergeTiling(areas', rest, first, max, low, i);
    FirstPage(whole);
    hide Tiling, Marked, Counted, Sparse, Pow2, Drop;
    MarkedSame(areas', orders, rest + {whole}, first, max, whole, low, i + 1);
  }

  ghost predicate Inside(b: Block, m: Block) { m.page <= b.page && b.End() <= m.End() }

  /** The free blocks missing from the lists now, and b, lie in m. */
  ghost predicate Absorbed(areas: seq<Area>, areas': seq<Area>, b: Block, m: Block) {
    Inside(b, m) && (forall x :: IsFree(areas', x) ==> IsFree(areas, x)) &&
    forall x :: IsFree(areas, x) && !IsFree(areas', x) ==> Inside(x, m)
  }

  /** Block b and the free blocks inside m have become the one free block m; every other free block is
      still free, and apart from m. */
  ghost predicate MergedInto(areas: seq<Area>, areas': seq<Area>, b: Block, m: Block) {
    Inside(b, m) && forall x :: IsFree(areas', x) <==> x == m || (IsFree(areas, x) && Apart(x, m))
  }

  lemma NothingAbsorbed(areas: seq<Area>, b: Block)
    ensures Absorbed(areas, areas, b, b)
  {
  }

  lemma AbsorbsOne(areas0: seq<Area>, areas: seq<Area>, b: Block, node: nat, i: nat, k: nat)
    requires Absorbed(areas0, areas, b, Block(node, i)) && Counted(areas) && i < |areas| && k < |areas[i].list|
    requires areas[i].list[k] != node && Touches(areas[i].list[k], node, i)
    ensures var cur := areas[i].list[k];
      Absorbed(areas0, Drop(areas, i, k), b, Block(if cur < node then cur else node, i + 1))
  {
    var cur := areas[i].list[k];
    DropHas(areas, i, k);
    PairInside(cur, node, i);
    hide Pow2, IsFree, Drop;
  }

  lemma PairInside(cur: nat, node: nat, i: nat)
    requires cur != node && Touches(cur, node, i)
    ensures var m := Block(if cur < node then cur else node, i + 1); Inside(Block(cur, i), m) && Inside(Block(node, i), m)
  {
    DoublePow(i);
    PowPositive(i);
    hide Pow2;
  }

  lemma AbsorbedAll(areas0: seq<Area>, areas: seq<Area>, rest: set<Block>, first: nat, max: nat, b: Block, node: nat,
      i: nat)
    requires Absorbed(areas0, areas, b, Block(node, i)) && i < |areas|
    requires Tiling(areas, rest + {Block(node, i)}, first, max)
    ensures MergedInto(areas0, Push(areas, i, node), b, Block(node, i))
  {
    var m := Block(node, i);
    PushHas(areas, i, node);
    forall x ensures IsFree(Push(areas, i, node), x) <==> x == m || (IsFree(areas0, x) && Apart(x, m)) {
      PowPositive(x.order);
      if IsFree(areas, x) {
        var others := rest + {m};
        assert Has(areas, others, x) && Has(areas, others, m) && x != m;
      }
    }
  }

  // ---------------------------------------------------------------- freeing what is neither in use nor listed

  /** The block b being freed overlaps c, which is free or in use and is not taken in; m is what b has grown to.
      The marks outside m are as they were. */
  ghost predicate Astray(areas: seq<Area>, orders: map<nat, int>, live: set<Block>, first: nat, max: nat, b: Block,
      c: Block, m: Block)
  {
    Inside(b, m) && InZone(m, first, max) && Has(areas, live, c) && c != m && !Apart(c, b) && Counted(areas) &&
    |areas| == max + 1 && (forall x :: Has(areas, live, x) ==> InZone(x, first, max)) &&
    (forall x, y :: Has(areas, live, x) && Has(areas, live, y) && x != y ==> Apart(x, y)) &&
    forall i, p :: 0 <= i < |areas| && p in areas[i].list && !Contains(m, p) ==> p in orders && orders[p] == i
  }

  lemma StrayStart(areas: seq<Area>, orders: map<nat, int>, live: set<Block>, first: nat, max: nat, b: Block)
      returns (c: Block)
    requires Listed(areas, orders, live, first, max) && InZone(b, first, max) && b.order <= max
    requires b !in live && b.page !in areas[b.order].list
    ensures Astray(areas, orders[b.page := b.order], live, first, max, b, c, b)
  {
    PowPositive(b.order);
    assert Covered(areas, live, b.page);
    c :| Has(areas, live, c) && Contains(c, b.page);
    FirstPage(b);
  }

  /** Nothing on a list is what b has grown to. */
  lemma StrayAlone(areas: seq<Area>, orders: map<nat, int>, live: set<Block>, first: nat, max: nat, b: Block, c: Block,
      node: nat, i: nat)
    requires Astray(areas, orders, live, first, max, b, c, Block(node, i)) && i <= max
    ensures node !in areas[i].list
  {
    var m := Block(node, i);
    assert Has(areas, live, m) <==> node in areas[i].list || m in live;
    assert Has(areas, live, m) ==> Apart(c, m);
  }

  lemma StrayOnce(areas: seq<Area>, orders: map<nat, int>, live: set<Block>, first: nat, max: nat, b: Block, c: Block,
      node: nat, i: nat, k: nat)
    requires Astray(areas, orders, live, first, max, b, c, Block(node, i)) && i <= max && k < |areas[i].list|
    requires areas[i].list[k] != node && Touches(areas[i].list[k], node, i)
    ensures i < max && areas[i].list[k] in orders && orders[areas[i].list[k]] == i
    ensures var cur := areas[i].list[k];
      var low := if cur < node then cur else node;
      Astray(Drop(areas, i, k), orders[low := i + 1], live, first, max, b, c, Block(low, i + 1))
  {
    var cur := areas[i].list[k];
    var d, m, low := Block(cur, i), Block(node, i), if cur < node then cur else node;
    var whole := Block(low, i + 1);
    hide Pow2;
    assert IsFree(areas, d) && Has(areas, live, d);
    DropHas(areas, i, k);
    PairInside(cur, node, i);
    PairApart(cur, node, i, first, max);
    OneSizeFits(d, m, first, max);
    hide Touches, Drop, IsFree, InZone;
    assert c != d;
    assert Apart(c, d) && c != whole;
  }

  lemma PairApart(cur: nat, node: nat, i: nat, first: nat, max: nat)
    requires cur != node && Touches(cur, node, i)
    ensures var d, m, whole := Block(cur, i), Block(node, i), Block(if cur < node then cur else node, i + 1);
      Apart(d, m) && !Apart(whole, d) && !Contains(m, cur) && (forall p :: Contains(m, p) ==> Contains(whole, p)) &&
      (InZone(d, first, max) && InZone(m, first, max) ==> InZone(whole, first, max))
  {
    DoublePow(i);
    PowPositive(i);
    hide Pow2;
  }

  lemma OneSizeFits(d: Block, m: Block, first: nat, max: nat)
    requires d.order == m.order <= max && d.page != m.page && InZone(d, first, max) && InZone(m, first, max)
    ensures d.order < max
  {
  }

  lemma StrayEnd(areas: seq<Area>, orders: map<nat, int>, live: set<Block>, first: nat, max: nat, b: Block, c: Block,
      node: nat, i: nat)
    requires Astray(areas, orders, live, first, max, b, c, Block(node, i)) && i <= max
    ensures !Tiling(Push(areas, i, node), live, first, max)
  {
    var m := Block(node, i);
    PushHas(areas, i, node);
    assert Has(Push(areas, i, node), live, m) && Has(Push(areas, i, node), live, c);
  }

  lemma NotInUse(areas: seq<Area>, live: set<Block>, first: nat, max: nat, b: Block)
    requires Tiling(areas, live, first, max) && IsFree(areas, b)
    ensures live - {b} == live
  {
  }

  lemma TwoWholes(areas: seq<Area>, others: set<Block>, first: nat, max: nat, b: Block, c: Block)
    requires Tiling(areas, others, first, max) && b in others && c in others && b != c && b.order == c.order
    ensures b.order < max
  {
    OnlyOneWhole(areas, others, first, max, b, c);
  }

  lemma PairIsHalves(cur: nat, node: nat, i: nat)
    requires cur != node && Touches(cur, node, i)
    ensures var low := if cur < node then cur else node;
      {Block(cur, i), Block(node, i)} == {Block(low, i), Block(low + Pow2(i), i)}
  {
  }

  /** With no free neighbour on list i, the block goes on it. */
  lemma LastInsert(areas: seq<Area>, orders: map<nat, int>, rest: set<Block>, first: nat, max: nat, node: nat,
      i: nat, again: bool)
    requires !again ==> Listed(areas, orders, rest + {Block(node, i)}, first, max) && Block(node, i) !in rest
    requires Sparse(areas) && i < |areas| && (again ==> node in areas[i].list) && node in orders && orders[node] == i
    requires forall j :: 0 <= j < |areas[i].list| ==> !Touches(areas[i].list[j], node, i)
    ensures !again && Listed(Push(areas, i, node), orders, rest, first, max) && Sparse(Push(areas, i, node))
  {
    forall j | 0 <= j < |areas[i].list| ensures areas[i].list[j] != node {
      assert !Touches(areas[i].list[j], node, i);
    }
    PushTiling(areas, rest, first, max, i, node);
    PushCounted(areas, i, node);
    PushMarked(areas, orders, i, node);
    SparseMore(areas, i, node);
  }

  lemma SparseMore(areas: seq<Area>, i: nat, p: nat)
    requires Sparse(areas) && i < |areas|
    requires forall j :: 0 <= j < |areas[i].list| ==> !Touches(areas[i].list[j], p, i)
    ensures Sparse(Push(areas, i, p))
  {
  }

  // ---------------------------------------------------------------- what merging does not do

  /** The upper halves that are free once one page is taken from the block. */
  ghost function UpperHalves(b: Block): set<Block> { set i: nat | i < b.order :: Block(b.page + Pow2(i), i) }

  lemma TakenFrom(areas: seq<Area>, areas': seq<Area>, s: set<Block>, page: nat, k: nat)
    requires FreeAre(areas, s) && SmallestTaken(areas, areas', 0, page, k)
    ensures Block(page, k) in s && forall b :: b in s ==> k <= b.order
    ensures FreeAre(areas', s - {Block(page, k)} + UpperHalves(Block(page, k)))
  {
    assert IsFree(areas, Block(page, k));
    forall b | b in s ensures k <= b.order {
      assert IsFree(areas, b);
    }
  }

  lemma SomeTaken(areas: seq<Area>, s: set<Block>, b: Block)
    requires FreeAre(areas, s) && b in s
    ensures !NoneFrom(areas, 0, |areas|)
  {
    assert IsFree(areas, b);
  }

  /** Takes one page when b is the only smallest free block. */
  method TakePage(z: PageZone, ghost s: set<Block>, ghost b: Block) returns (page: nat)
    requires z.Valid() && FreeAre(z.areas, s) && b in s && forall c :: c in s && c != b ==> b.order < c.order
    modifies z`areas, z`orders, z`live
    ensures z.Valid() && page == b.page && z.live == old(z.live) + {Block(page, 0)}
    ensures FreeAre(z.areas, s - {b} + UpperHalves(b))
  {
    hide SmallestTaken, FreeAre, AllAligned, NoneFrom, UpperHalves;
    SomeTaken(z.areas, s, b);
    ghost var areas := z.areas;
    var r := z.GetFreePages(0);
    page := r.value;
    ghost var k: nat :| SmallestTaken(areas, z.areas, 0, page, k);
    TakenFrom(areas, z.areas, s, page, k);
  }

  /** Gives one page back, and what is free then. */
  method GivePage(z: PageZone, page: nat)
    requires z.Valid() && Block(page, 0) in z.live
    modifies z`areas, z`orders, z`live
    ensures z.Valid() && z.live == old(z.live) - {Block(page, 0)} && |old(z.areas)| == z.maxOrder + 1
    ensures MergedInto(old(z.areas), z.areas, Block(page, 0), MergeOf(old(z.areas), page, 0))
  {
    hide MergedInto, MergeOf, Counted, Marked, Sparse, AllAligned, OnlyHalves;
    assert Has(z.areas, z.live, Block(page, 0));
    z.FreePages(page, 0);
  }

  /** A block with no free neighbour of its order stays as it is. */
  lemma FreedAlone(areas: seq<Area>, areas': seq<Area>, s: set<Block>, b: Block)
    requires FreeAre(areas, s) && MergedInto(areas, areas', b, MergeOf(areas, b.page, b.order))
    requires forall c :: c in s ==> Apart(c, b) && (c.order == b.order ==> !Touches(c.page, b.page, b.order))
    ensures FreeAre(areas', s + {b})
  {
    if b.order < |areas| {
      var list := areas[b.order].list;
      forall j | 0 <= j < |list| ensures !Touches(list[j], b.page, b.order) {
        assert IsFree(areas, Block(list[j], b.order));
      }
      MergeStep(areas, b.page, b.order, |list|);
    }
  }

  /** A block whose only free neighbour is the one before it. */
  lemma {:induction false} FreedBehind(areas: seq<Area>, areas': seq<Area>, c: Block, b: Block)
    requires FreeAre(areas, {c}) && MergedInto(areas, areas', b, MergeOf(areas, b.page, b.order))
    requires c.order == b.order && b.page == c.End() && b.order + 1 < |areas|
    ensures FreeAre(areas', {Block(c.page, c.order + 1)})
  {
    var list, m := areas[b.order].list, Block(c.page, b.order + 1);
    hide *;
    TouchesNext(c, b);
    ListHas(areas, {c}, b.order);
    ListHas(areas, {c}, m.order);
    MergeStep(areas, b.page, b.order, 0);
    MergeStep(areas, m.page, m.order, 0);
    FreeAfter(areas, areas', {c}, b, m, {m});
  }

  lemma ListHas(areas: seq<Area>, s: set<Block>, i: nat)
    requires FreeAre(areas, s) && i < |areas|
    ensures forall j :: 0 <= j < |areas[i].list| ==> Block(areas[i].list[j], i) in s
    ensures forall b :: b in s && b.order == i ==> b.page in areas[i].list
  {
    forall j | 0 <= j < |areas[i].list| ensures Block(areas[i].list[j], i) in s {
      assert IsFree(areas, Block(areas[i].list[j], i));
    }
    forall b | b in s && b.order == i ensures b.page in areas[i].list {
      assert IsFree(areas, b);
    }
  }

  lemma FreeAfter(areas: seq<Area>, areas': seq<Area>, s: set<Block>, b: Block, m: Block, s': set<Block>)
    requires FreeAre(areas, s) && MergedInto(areas, areas', b, m)
    requires forall x :: x in s' <==> x == m || (x in s && Apart(x, m))
    ensures FreeAre(areas', s')
  {
    hide IsFree, Apart;
  }

  lemma TouchesNext(c: Block, b: Block)
    requires c.order == b.order && b.page == c.End()
    ensures Touches(c.page, b.page, b.order) && c.page < b.page && !Apart(c, Block(c.page, c.order + 1))
  {
  }

  lemma FourPages(max: nat)
    requires 1 + Pow2(max) <= 5 < 1 + Pow2(max + 1)
    ensures max == 2
  {
    SmallPowers();
    if max > 2 {
      PowMonotone(3, max);
    } else if max < 2 {
      PowMonotone(max + 1, 2);
    }
  }

  /** A zone of four pages, all taken one by one. */
  method TakeAllFour() returns (z: PageZone)
    ensures fresh(z) && z.Valid() && z.first == 1 && z.maxOrder == 2 && FreeAre(z.areas, {})
    ensures z.live == {Block(1, 0), Block(2, 0), Block(3, 0), Block(4, 0)}
  {
    hide *;
    z := new PageZone(0, 5);
    FourPages(z.maxOrder);
    FourPagesTaken();
    var p1 := TakePage(z, {Block(1, 2)}, Block(1, 2));
    var p2 := TakePage(z, {Block(2, 0), Block(3, 1)}, Block(2, 0));
    var p3 := TakePage(z, {Block(3, 1)}, Block(3, 1));
    var p4 := TakePage(z, {Block(4, 0)}, Block(4, 0));
  }

  /** Merging takes whichever neighbour it finds, other half or not, so a zone that gets everything back need not
      be one block again: four pages are taken one by one, and the second, the third, the first and the fourth
      are freed. */
  method NotRebuilt() returns (z: PageZone)
    ensures fresh(z) && z.Valid() && z.live == {} && z.first == 1 && z.maxOrder == 2
    ensures FreeAre(z.areas, {Block(2, 1), Block(1, 0), Block(4, 0)}) && !AllAligned(z.areas, z.live, z.first)
  {
    hide *;
    z := TakeAllFour();
    FourPagesApart();
    ghost var a0 := z.areas;
    GivePage(z, 2);
    ghost var a1 := z.areas;
    FreedAlone(a0, a1, {}, Block(2, 0));
    GivePage(z, 3);
    ghost var a2 := z.areas;
    FreedBehind(a1, a2, Block(2, 0), Block(3, 0));
    GivePage(z, 1);
    ghost var a3 := z.areas;
    FreedAlone(a2, a3, {Block(2, 1)}, Block(1, 0));
    GivePage(z, 4);
    FreedAlone(a3, z.areas, {Block(2, 1), Block(1, 0)}, Block(4, 0));
    Crooked(z.areas, {Block(2, 1), Block(1, 0), Block(4, 0)}, Block(2, 1), z.live, 1);
  }

  lemma FourPagesApart()
    ensures Block(3, 0).page == Block(2, 0).End() && Apart(Block(2, 1), Block(1, 0)) && Apart(Block(2, 1), Block(4, 0))
    ensures Apart(Block(1, 0), Block(4, 0)) && !Touches(1, 4, 0) && !Aligned(Block(2, 1), 1)
    ensures {} + {Block(2, 0)} == {Block(2, 0)} && {Block(2, 1)} + {Block(1, 0)} + {Block(4, 0)} == {Block(2, 1), Block(1, 0), Block(4, 0)}
    ensures {Block(2, 1)} + {Block(1, 0)} == {Block(2, 1), Block(1, 0)}
  {
    SmallPowers();
  }

  lemma Crooked(areas: seq<Area>, s: set<Block>, b: Block, others: set<Block>, first: nat)
    requires FreeAre(areas, s) && b in s && !Aligned(b, first)
    ensures !AllAligned(areas, others, first)
  {
    assert IsFree(areas, b) && Has(areas, others, b);
  }

  lemma FourPagesTaken()
    ensures {Block(1, 2)} - {Block(1, 2)} + UpperHalves(Block(1, 2)) == {Block(2, 0), Block(3, 1)}
    ensures {Block(2, 0), Block(3, 1)} - {Block(2, 0)} + UpperHalves(Block(2, 0)) == {Block(3, 1)}
    ensures {Block(3, 1)} - {Block(3, 1)} + UpperHalves(Block(3, 1)) == {Block(4, 0)}
    ensures {Block(4, 0)} - {Block(4, 0)} + UpperHalves(Block(4, 0)) == {}
  {
    SmallPowers();
    hide Pow2;
  }
}
