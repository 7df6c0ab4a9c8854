/** The buddy allocator as the pool of page frames that mmu.c takes tables from: requests of one page each. */
module BuddyPages {
  import opened Common
  import opened BuddyBlocks
  import opened BuddyLists
  import opened BuddyPairs
  import opened BuddyInit
  import opened Buddy
  import opened BuddyRuns

  const PAGE: nat := 0x1000

  /** The free pages. */
  ghost function Pool(b: Buddy): set<nat>
    reads b, b.heads
    requires b.Valid()
  {
    set p | b.base <= p < b.base + b.pages && Covered(b.Free(), p)
  }

  // ----- One call

  /** `phys_kmalloc(4096, BUDDY_ALLOC)`: a free page leaves the pool, and only that page; 0 iff none is free.  The
      bitmap stays right iff the request was served directly. */
  method AllocPage(b: Buddy) returns (page: nat)
    requires b.Valid()
    modifies b`mem, b`lists, b`live, b.heads, b.bits
    ensures b.Valid() && (page == 0 <==> old(Pool(b)) == {})
    ensures page == 0 ==> b.live == old(b.live) && b.Free() == old(b.Free()) && b.bits[..] == old(b.bits[..])
    ensures page != 0 ==> page in old(Pool(b)) && Pool(b) == old(Pool(b)) - {page}
    ensures page != 0 ==> Block(page, 0) !in old(b.live) && b.live == old(b.live) + {Block(page, 0)}
    ensures WholeRegion(b.base, b.pages) && old(b.BitsAgree()) ==>
      (b.BitsAgree() <==> ServedDirectly(old(b.Free()), 0))
  {
    hide Tiled, IsOrderOf, Chains, Coalesced, Carved, FreeSet, Agrees, ServedDirectly, WholeRegion, Pos, Pow2,
      Covered;
    ghost var free0, live0, pool0 := b.Free(), b.live, Pool(b);
    assert forall p :: p in pool0 <==> b.base <= p < b.base + b.pages && Covered(free0, p);
    ghost var k, idx;
    PageOrder();
    page, k, idx := b.Kalloc(PAGE);
    OrderUnique(k, 0, PAGE);
    AnyBlock(free0, live0, b.base, b.pages);
    if page == 0 {
      NothingLeft(free0);
    } else {
      OnePageLess(free0, live0, b.Free(), b.live, b.base, b.pages, page);
    }
  }

  /** `phys_kfree(page, 4096, BUDDY_ALLOC)` puts exactly that page back, provided that each bit it meets set belongs to
      a buddy that is free. */
  method FreePage(b: Buddy, page: nat)
    requires b.Valid() && Block(page, 0) in b.live
    requires Mergeable(b.bits[..], b.Free(), b.base, b.pages, page, 0)
    modifies b`mem, b`lists, b`live, b.heads, b.bits
    ensures b.Valid() && b.live == old(b.live) - {Block(page, 0)}
    ensures page !in old(Pool(b)) && Pool(b) == old(Pool(b)) + {page}
    ensures old(b.BitsAgree()) ==> b.BitsAgree()
  {
    hide Tiled, IsOrderOf, Chains, Coalesced, FreeSet, Agrees, WholeRegion, Mergeable, MergedBlock, Toggles, Flipped,
      Keeps, AncestorsAgree, Covered, Inside, Apart, BuddyIsFree, Pow2;
    PageOrder();
    InRegion(b.Free(), b.live, b.base, b.pages, Block(page, 0));
    LiveIsNotFree(b.Free(), b.live, b.base, b.pages, page);
    assert Clamped(0) == 0;
    ghost var freed, _ := b.Kfree(page, PAGE);
    ghost var k :| IsOrderOf(k, PAGE) && freed.order == Clamped(k);
    OrderUnique(k, 0, PAGE);
    assert Pow2(0) == 1;
  }

  lemma {:induction false} PageOrder()
    ensures IsOrderOf(0, PAGE) && Pow2(0) == 1
  {
  }

  /** A free page is a page of a free block. */
  lemma {:induction false} AnyBlock(free: set<Block>, live: set<Block>, base: nat, n: nat)
    requires Tiled(free + live, base, n)
    ensures (exists b :: b in free && PAGE <= Pow2(b.order) * 0x1000) <==>
      exists p :: base <= p < base + n && Covered(free, p)
  {
    if b :| b in free {
      assert b in free + live;
      assert Covers(b, b.addr) && Covered(free, b.addr);
    }
  }

  lemma {:induction false} NothingLeft(free: set<Block>)
    requires !(exists b :: b in free && PAGE <= Pow2(b.order) * 0x1000)
    ensures ServedDirectly(free, 0)
  {
    forall b ensures b !in free { assert PAGE <= Pow2(b.order) * 0x1000; }
  }

  /** A page that turned live is the only one that stopped being free. */
  lemma {:induction false} OnePageLess(free0: set<Block>, live0: set<Block>, free: set<Block>, live: set<Block>,
                                       base: nat, n: nat, page: nat)
    requires Tiled(free0 + live0, base, n) && Tiled(free + live, base, n) && free0 !! live0 && free !! live
    requires Block(page, 0) !in live0 && live == live0 + {Block(page, 0)}
    ensures base <= page < base + n && Covered(free0, page)
    ensures forall p :: base <= p < base + n ==> (Covered(free, p) <==> Covered(free0, p) && p != page)
  {
    hide Pow2;
    PageOrder();
    var x := Block(page, 0);
    assert x in free + live;
    assert !Covered(live0, page) by {
      forall y | y in live0 ensures !Covers(y, page) { assert y in free + live && Apart(x, y); }
    }
    EitherFreeOrLive(free0, live0, base, n, page);
    forall p | base <= p < base + n ensures Covered(free, p) <==> Covered(free0, p) && p != page {
      EitherFreeOrLive(free0, live0, base, n, p);
      EitherFreeOrLive(free, live, base, n, p);
      if p == page { assert x in live && Covers(x, p); }
      if Covered(live0, p) { var y :| y in live0 && Covers(y, p); assert y in live; }
    }
  }

  lemma {:induction false} EitherFreeOrLive(free: set<Block>, live: set<Block>, base: nat, n: nat, p: nat)
    requires Tiled(free + live, base, n) && free !! live && base <= p < base + n
    ensures Covered(free, p) <==> !Covered(live, p)
  {
    assert Covered(free + live, p);
    if Covered(free, p) {
      var x :| x in free && Covers(x, p);
      forall y | y in live ensures !Covers(y, p) { assert x in free + live && y in free + live && Apart(x, y); }
    } else {
      var x :| x in free + live && Covers(x, p);
      assert x in live;
    }
  }

  lemma {:induction false} LiveIsNotFree(free: set<Block>, live: set<Block>, base: nat, n: nat, page: nat)
    requires Tiled(free + live, base, n) && free !! live && Block(page, 0) in live
    ensures base <= page < base + n && !Covered(free, page)
  {
    PageOrder();
    assert Block(page, 0) in free + live;
    assert Covers(Block(page, 0), page);
    EitherFreeOrLive(free, live, base, n, page);
  }

  // ----- Runs

  datatype PageOp = Take | Give(page: nat)

  /** A pool of free pages: a request gets some free page or, iff there is none, 0; a page given back is free again. */
  ghost predicate PoolStep(op: PageOp, held: set<nat>, r: nat, pool: set<nat>, pool': set<nat>)
  {
    match op
    case Take =>
      (r == 0 <==> pool == {}) && (r == 0 ==> pool' == pool) && (r != 0 ==> r in pool && pool' == pool - {r})
    case Give(page) =>
      pool' == (if page in held then pool + {page} else pool) && (page in held ==> page !in pool)
  }

  /** A step of the pool, except that a request that would not be served directly is not made. */
  ghost predicate DirectStep(op: PageOp, held: set<nat>, r: nat, free: set<Block>, pool: set<nat>, pool': set<nat>)
  {
    if op == Take && !ServedDirectly(free, 0) then r == 0 && pool' == pool else PoolStep(op, held, r, pool, pool')
  }

  ghost function PagesHeld(ops: seq<PageOp>, results: seq<nat>): set<nat>
    requires |results| == |ops|
    decreases |ops|
  {
    if ops == [] then {} else
    var n := |ops| - 1;
    HeldAfter(PagesHeld(ops[..n], results[..n]), ops[n], results[n])
  }

  ghost function HeldAfter(held: set<nat>, op: PageOp, r: nat): set<nat>
  {
    match op
    case Take => if r == 0 then held else held + {r}
    case Give(page) => held - {page}
  }

  /** The buddy allocator implements the pool over every run of one-page requests that are served directly: every
      operation is a step of the pool, except a request that would not be served directly, which is not made. */
  method RunPages(b: Buddy, ops: seq<PageOp>)
    returns (held: set<nat>, results: seq<nat>, ghost pools: seq<set<nat>>, ghost frees: seq<set<Block>>)
    requires b.Valid() && WholeRegion(b.base, b.pages) && b.BitsAgree()
    modifies b`mem, b`lists, b`live, b.heads, b.bits
    ensures b.Valid() && b.BitsAgree() && |results| == |ops| && |pools| == |frees| == |ops| + 1
    ensures pools[0] == old(Pool(b)) && pools[|ops|] == Pool(b)
    ensures frees[0] == old(b.Free()) && frees[|ops|] == b.Free()
    ensures held == PagesHeld(ops, results) && b.live == old(b.live) + AsBlocks(held) && held !! Pool(b)
    ensures forall i :: 0 <= i < |ops| ==>
      DirectStep(ops[i], PagesHeld(ops[..i], results[..i]), results[i], frees[i], pools[i], pools[i + 1])
  {
    hide Tiled, Chains, ServedDirectly, Agrees, WholeRegion, FreeSet, Covered, DirectStep, PagesHeld, HeldAfter,
      AsBlocks;
    held, results, pools, frees := {}, [], [Pool(b)], [b.Free()];
    ghost var live0 := b.live;
    NothingTaken();
    var n := 0;
    while n < |ops|
      invariant 0 <= n <= |ops| && b.Valid() && b.BitsAgree() && |results| == n && |pools| == |frees| == n + 1
      invariant pools[0] == old(Pool(b)) && pools[n] == Pool(b) && frees[0] == old(b.Free()) && frees[n] == b.Free()
      invariant held == PagesHeld(ops[..n], results) && b.live == live0 + AsBlocks(held) && live0 !! AsBlocks(held)
      invariant 0 !in held
      invariant forall i :: 0 <= i < n ==>
        DirectStep(ops[i], PagesHeld(ops[..i], results[..i]), results[i], frees[i], pools[i], pools[i + 1])
    {
      ghost var before := results;
      var r;
      held, r := StepPage(b, ops[n], held, live0);
      results, pools, frees := results + [r], pools + [Pool(b)], frees + [b.Free()];
      HeldNext(ops, before, n, r);
      forall i | 0 <= i <= n
        ensures DirectStep(ops[i], PagesHeld(ops[..i], results[..i]), results[i], frees[i], pools[i], pools[i + 1])
      {
        assert results[..i] == before[..i];
        if i == n { assert before[..n] == before; }
      }
      n := n + 1;
    }
    assert ops[..n] == ops;
    HeldNotFree(b, held, live0);
  }

  ghost function AsBlocks(held: set<nat>): set<Block> { set p | p in held :: Block(p, 0) }

  lemma {:induction false} NothingTaken()
    ensures PagesHeld([], []) == {} && AsBlocks({}) == {}
  {
  }

  lemma {:induction false} HeldNext(ops: seq<PageOp>, results: seq<nat>, n: nat, r: nat)
    requires n < |ops| && |results| == n
    ensures PagesHeld(ops[..n + 1], results + [r]) == HeldAfter(PagesHeld(ops[..n], results), ops[n], r)
  {
    assert ops[..n + 1][..n] == ops[..n] && (results + [r])[..n] == results;
  }

  lemma {:induction false} HeldNotFree(b: Buddy, held: set<nat>, live0: set<Block>)
    requires b.Valid() && b.live == live0 + AsBlocks(held)
    ensures held !! Pool(b)
  {
    hide Tiled, Chains, Covered;
    forall p | p in held ensures p !in Pool(b) {
      assert Block(p, 0) in AsBlocks(held);
      LiveIsNotFree(b.Free(), b.live, b.base, b.pages, p);
    }
  }

  method StepPage(b: Buddy, op: PageOp, held: set<nat>, ghost live0: set<Block>) returns (held': set<nat>, r: nat)
    requires b.Valid() && WholeRegion(b.base, b.pages) && b.BitsAgree() && 0 !in held
    requires b.live == live0 + AsBlocks(held) && live0 !! AsBlocks(held)
    modifies b`mem, b`lists, b`live, b.heads, b.bits
    ensures b.Valid() && b.BitsAgree() && 0 !in held' && held' == HeldAfter(held, op, r)
    ensures b.live == live0 + AsBlocks(held') && live0 !! AsBlocks(held')
    ensures DirectStep(op, held, r, old(b.Free()), old(Pool(b)), Pool(b))
  {
    hide Tiled, Chains, ServedDirectly, Agrees, WholeRegion, FreeSet, Covered, IsOrderOf, Mergeable;
    held', r := held, 0;
    PageOrder();
    match op {
      case Take =>
        var direct := IsDirect(b, PAGE);
        OnlyOrder(b.Free());
        if direct {
          r := AllocPage(b);
          if r != 0 {
            held' := held + {r};
            assert AsBlocks(held') == AsBlocks(held) + {Block(r, 0)};
          }
        }
      case Give(page) =>
        held' := held - {page};
        if page in held {
          assert Block(page, 0) in AsBlocks(held);
          RightBitsSuffice(b.bits[..], b.Free(), b.live, b.base, b.pages, Block(page, 0));
          FreePage(b, page);
          assert AsBlocks(held') == AsBlocks(held) - {Block(page, 0)};
        }
    }
  }

  lemma {:induction false} OnlyOrder(free: set<Block>)
    ensures DirectSize(free, PAGE) <==> ServedDirectly(free, 0)
  {
    hide IsOrderOf, ServedDirectly;
    PageOrder();
    forall k | IsOrderOf(k, PAGE) ensures k == 0 { OrderUnique(k, 0, PAGE); }
  }

  // ----- One-page requests alone leave stale bits

  /** The free blocks of orders 0 and 1. */
  ghost predicate Low(free: set<Block>, low: set<Block>)
  {
    forall x: Block :: x.order <= 1 ==> (x in free <==> x in low)
  }

  /** A region of 4 MiB at 1024, with the small blocks `low` free; `bit0` and `bit1` are the bits of the first pair of
      pages and of the first pair of two-page blocks. */
  ghost predicate Small(b: Buddy, low: set<Block>, bit0: bool, bit1: bool)
    reads b, b.heads, b.bits
  {
    b.Valid() && b.base == b.pages == 1024 && Low(b.Free(), low) && b.bits[0] == bit0 && b.bits[512] == bit1
  }

  /** Six calls for single pages on a fresh region of 4 MiB.  Then freeing the second page would meet two set bits, and
      the second of these claims two pages to be free one of which is live. */
  method StalePages() returns (b: Buddy, first: nat, second: nat, third: nat)
    ensures b.Valid() && WholeRegion(b.base, b.pages)
    ensures Block(second, 0) in b.live && Block(third, 0) in b.live && Block(first, 0) in b.Free()
    ensures b.base <= first && b.base <= second && Aligned(second, 0) && Aligned(first, 1)
    ensures first == BuddyOf(second, 0)
    ensures Pos(b.base, b.pages, second, 0) < b.pages && b.bits[Pos(b.base, b.pages, second, 0)]
    ensures Pos(b.base, b.pages, first, 1) < b.pages && b.bits[Pos(b.base, b.pages, first, 1)]
    ensures Block(BuddyOf(first, 1), 1) !in b.Free() && Covers(Block(BuddyOf(first, 1), 1), third)
    ensures !Mergeable(b.bits[..], b.Free(), b.base, b.pages, second, 0)
  {
    hide Tiled, Chains, Agrees, Greedy, Pick, Coalesced, Pow2, Aligned, Pos, Carved, FreeSet, IsOrderOf, BuddyOf,
      Placed, Covers, Mergeable;
    SmallPages(1024);
    b := TakeAndFree();
    first := TakeSmall(b, {Block(1024, 1), Block(1026, 1)}, false, true, 1024, 1);
    OnlyOne(b, {Block(1025, 0), Block(1026, 1)}, true, true, 1025, 0);
    second := TakeSmall(b, {Block(1025, 0), Block(1026, 1)}, true, true, 1025, 0);
    OnlyOne(b, {Block(1026, 1)}, false, true, 1026, 1);
    third := TakeSmall(b, {Block(1026, 1)}, false, true, 1026, 1);
    FreeFirst(b, {Block(1027, 0)}, false, true);
    Climbs(b.bits[..], b.Free(), 1024, 1024, 1024, 1);
    Climbs(b.bits[..], b.Free(), 1024, 1024, 1025, 0);
  }

  /** After the first two calls two buddies are free that were not merged. */
  method TakeAndFree() returns (b: Buddy)
    ensures Small(b, {Block(1024, 1), Block(1026, 1)}, false, true) && fresh(b) && fresh(b.heads) && fresh(b.bits)
    ensures |b.lists| > 1 && |b.lists[1]| > 0 && b.lists[1][0] == 1024
  {
    hide Tiled, Chains, Agrees, Greedy, Pick, Coalesced, Pow2, Aligned, Pos, Carved, FreeSet, IsOrderOf, BuddyOf,
      Placed, Covers, Mergeable;
    SmallPages(1024);
    b := new Buddy(1024, 1024);
    OneTopBlock(1024);
    var _ := TakeTop(b);
    FreeFirst(b, {Block(1025, 0), Block(1026, 1)}, true, false);
  }

  /** The numbers of the first four pages of a region of 4 MiB that starts at page 1024. */
  lemma {:induction false} SmallPages(c: nat)
    requires c == 1024
    ensures Pow2(0) == 1 && Pow2(1) == 2 && Pow2(10) == 1024 && IsOrderOf(0, PAGE) && Aligned(c, 10) && Aligned(c, 1)
    ensures (forall a :: Aligned(a, 0)) && Covers(Block(c + 2, 1), c + 2)
    ensures Pos(c, c, c, 0) == 0 && Pos(c, c, c + 1, 0) == 0 && Pos(c, c, c + 2, 0) == 1 && Pos(c, c, c, 1) == 512
    ensures BuddyOf(c + 1, 0) == c && BuddyOf(c, 0) == c + 1 && BuddyOf(c, 1) == c + 2
    ensures PairOf(c + 1, 0) == c && PairOf(c, 0) == c && PairOf(c, 1) == c
    ensures WholePair(c, c, c, 0) && WholePair(c, c, c, 1)
  {
    hide Pow2, Aligned, Pos, BuddyOf, PairOf, WholePair, IsOrderOf, Covers;
    SmallSizes();
    SmallPairs(c);
    SmallPositions(c);
    SmallBuddies(c);
  }

  lemma {:induction false} SmallPositions(c: nat)
    requires c == 1024
    ensures Pos(c, c, c, 0) == 0 && Pos(c, c, c + 1, 0) == 0 && Pos(c, c, c + 2, 0) == 1 && Pos(c, c, c, 1) == 512
  {
    assert Pow2(0) == 1 && Pow2(1) == 2;
    assert Offset(c, 0) == 0 && Offset(c, 1) == 512;
  }

  lemma {:induction false} SmallBuddies(c: nat)
    requires c == 1024
    ensures Aligned(c, 1) && forall a :: Aligned(a, 0)
    ensures BuddyOf(c + 1, 0) == c && BuddyOf(c, 0) == c + 1 && BuddyOf(c, 1) == c + 2
    ensures PairOf(c + 1, 0) == c && PairOf(c, 0) == c && PairOf(c, 1) == c
  {
    hide Aligned, Pow2;
    SmallPairs(c);
  }

  lemma {:induction false} SmallPairs(c: nat)
    requires c == 1024
    ensures Pow2(0) == 1 && Pow2(1) == 2 && Aligned(c, 1) && Aligned(c, 2) && !Aligned(c + 1, 1)
    ensures (forall a :: Aligned(a, 0)) && Covers(Block(c + 2, 1), c + 2)
    ensures WholePair(c, c, c, 0) && WholePair(c, c, c, 1)
  {
    assert Pow2(0) == 1 && Pow2(1) == 2 && Pow2(2) == 4;
  }

  /** The first request splits the block of 4 MiB. */
  method TakeTop(b: Buddy) returns (page: nat)
    requires Small(b, {}, false, false) && b.Free() == {Block(1024, 10)}
    modifies b`mem, b`lists, b`live, b.heads, b.bits
    ensures page == 1024 && Small(b, {Block(1025, 0), Block(1026, 1)}, true, false)
    ensures b.live == old(b.live) + {Block(1024, 0)}
  {
    hide Tiled, Chains, Agrees, Coalesced, Pow2, Aligned, Pos, FreeSet, IsOrderOf, Carved, Low;
    SmallPages(1024);
    assert Block(1024, 10) in b.Free();
    ghost var k, idx;
    page, k, idx := b.Kalloc(PAGE);
    OrderUnique(k, 0, PAGE);
    LowOfTop();
  }

  lemma {:induction false} LowOfTop()
    ensures Low(Carved({Block(1024, 10)}, 1024, 0, 10), {Block(1025, 0), Block(1026, 1)})
  {
    assert Pow2(0) == 1 && Pow2(1) == 2;
    assert Block(1024 + Pow2(0), 0) in UpperHalves(1024, 0, 10) && Block(1024 + Pow2(1), 1) in UpperHalves(1024, 0, 10);
  }

  /** A request that takes the page at the head of list 0, or splits the block at the head of list 1. */
  method TakeSmall(b: Buddy, ghost low: set<Block>, ghost bit0: bool, ghost bit1: bool, ghost a: nat, ghost idx: nat)
    returns (page: nat)
    requires Small(b, low, bit0, bit1) && a in {1024, 1025, 1026} && idx <= 1 && Block(a, idx) in low
    requires idx == 1 ==> forall x :: x in low ==> x.order == 1
    requires idx < |b.lists| && |b.lists[idx]| > 0 && b.lists[idx][0] == a
    modifies b`mem, b`lists, b`live, b.heads, b.bits
    ensures page == a && b.live == old(b.live) + {Block(a, 0)}
    ensures Small(b, low - {Block(a, idx)} + (if idx == 0 then {} else {Block(a + 1, 0)}),
              if a == 1026 then bit0 else !bit0, bit1)
  {
    hide Tiled, Chains, Agrees, Coalesced, Pow2, Aligned, Pos, FreeSet, IsOrderOf, Carved;
    SmallPages(1024);
    ghost var free0 := b.Free();
    assert Block(a, idx) in free0;
    ghost var k, i;
    page, k, i := b.Kalloc(PAGE);
    OrderUnique(k, 0, PAGE);
    assert i == idx;
    LowCarved(free0, low, a, idx);
  }

  lemma {:induction false} LowCarved(free: set<Block>, low: set<Block>, a: nat, idx: nat)
    requires Low(free, low) && idx <= 1
    ensures Low(Carved(free, a, 0, idx), low - {Block(a, idx)} + (if idx == 0 then {} else {Block(a + 1, 0)}))
  {
    assert Pow2(0) == 1;
    if idx == 1 { assert Block(a + Pow2(0), 0) in UpperHalves(a, 0, 1); }
  }

  lemma {:induction false} OnlyOne(b: Buddy, low: set<Block>, bit0: bool, bit1: bool, a: nat, idx: nat)
    requires Small(b, low, bit0, bit1) && idx <= 1 && Block(a, idx) in low
    requires forall x :: x in low && x.order == idx ==> x.addr == a
    ensures idx < |b.lists| && |b.lists[idx]| > 0 && b.lists[idx][0] == a
  {
    hide Tiled, Chains;
    FreeMember(b.lists, Block(a, idx));
    FreeMember(b.lists, Block(b.lists[idx][0], idx));
  }

  /** Freeing page 1024, which merges it with page 1025 if the bit of the two is set, and then stops. */
  method FreeFirst(b: Buddy, ghost low: set<Block>, ghost bit0: bool, ghost bit1: bool)
    requires Small(b, low, bit0, bit1) && Block(1024, 0) in b.live && (bit0 ==> !bit1)
    requires bit0 <==> Block(1025, 0) in low
    requires forall x :: x in low && x != Block(1025, 0) ==> x.addr >= 1026
    modifies b`mem, b`lists, b`live, b.heads, b.bits
    ensures b.live == old(b.live) - {Block(1024, 0)}
    ensures Small(b, if bit0 then low - {Block(1025, 0)} + {Block(1024, 1)} else low + {Block(1024, 0)}, !bit0,
              bit0 || bit1)
    ensures bit0 ==> |b.lists| > 1 && |b.lists[1]| > 0 && b.lists[1][0] == 1024
  {
    hide Tiled, Chains, Agrees, Coalesced, Pow2, Aligned, Pos, FreeSet, IsOrderOf, Mergeable, MergedBlock, Toggles,
      Keeps, AncestorsAgree, Covered, Covers, Inside, Apart, BuddyIsFree, WholeRegion;
    SmallPages(1024);
    ghost var free0 := b.Free();
    if bit0 {
      Stops(b.bits[..], free0, 1024, 1024, 1024, 1);
      Climbs(b.bits[..], free0, 1024, 1024, 1024, 0);
    } else {
      Stops(b.bits[..], free0, 1024, 1024, 1024, 0);
    }
    assert Clamped(0) == 0;
    ghost var freed, merged := b.Kfree(1024, PAGE);
    ghost var k :| IsOrderOf(k, PAGE) && freed.order == Clamped(k);
    OrderUnique(k, 0, PAGE);
    assert b.bits[0] == b.bits[..][0] && b.bits[512] == b.bits[..][512];
    LowFreed(free0, b.Free(), low, bit0);
  }

  /** A clear bit ends the way up. */
  lemma {:induction false} Stops(bits: seq<bool>, free: set<Block>, base: nat, n: nat, a: nat, k: nat)
    requires |bits| == n && k < MAX_ORDER && Aligned(a, k) && base <= a && WholePair(base, n, PairOf(a, k), k)
    requires !PairBit(bits, base, n, a, k)
    ensures Mergeable(bits, free, base, n, a, k) && MergedBlock(bits, free, base, n, a, k) == Block(a, k)
    ensures Toggles(bits, free, base, n, a, k) == {Pos(base, n, PairOf(a, k), k)}
  {
    hide Pow2, Aligned, Pos, BuddyOf, PairOf, WholePair, PairBit;
  }

  /** A set bit continues it, and needs a free buddy. */
  lemma {:induction false} Climbs(bits: seq<bool>, free: set<Block>, base: nat, n: nat, a: nat, k: nat)
    requires |bits| == n && k < MAX_ORDER && Aligned(a, k) && base <= a && WholePair(base, n, PairOf(a, k), k)
    requires PairBit(bits, base, n, a, k)
    ensures Mergeable(bits, free, base, n, a, k) <==>
      Block(BuddyOf(a, k), k) in free && Mergeable(bits, free, base, n, PairOf(a, k), k + 1)
    ensures Mergeable(bits, free, base, n, a, k) ==>
      && MergedBlock(bits, free, base, n, a, k) == MergedBlock(bits, free, base, n, PairOf(a, k), k + 1)
      && Toggles(bits, free, base, n, a, k) ==
         {Pos(base, n, PairOf(a, k), k)} + Toggles(bits, free, base, n, PairOf(a, k), k + 1)
  {
    hide Pow2, Aligned, Pos, BuddyOf, PairOf, WholePair, PairBit;
  }

  lemma {:induction false} LowFreed(free0: set<Block>, free: set<Block>, low: set<Block>, merged: bool)
    requires Low(free0, low) && (merged <==> Block(1025, 0) in low)
    requires forall x :: x in low && x != Block(1025, 0) ==> x.addr >= 1026
    requires var m := if merged then Block(1024, 1) else Block(1024, 0);
             forall c :: c in free <==> c == m || (c in free0 && Apart(c, m))
    ensures Low(free, if merged then low - {Block(1025, 0)} + {Block(1024, 1)} else low + {Block(1024, 0)})
  {
    assert Pow2(0) == 1 && Pow2(1) == 2;
  }
}
