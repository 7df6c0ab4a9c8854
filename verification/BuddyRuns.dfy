/** Runs of the buddy allocator. */
module BuddyRuns {
  import opened Common
  import opened BuddyBlocks
  import opened BuddyLists
  import opened BuddyPairs
  import opened BuddyInit
  import opened Buddy

  // ----- Runs of buddy_kalloc

  /** The answer `chunk` to a request of `size` bytes on the free set `free`: 0 iff no free block is large enough, and
      otherwise cut from the smallest order that has one. */
  ghost predicate Answered(free: set<Block>, size: nat, chunk: nat, order: nat, idx: nat, after: set<Block>)
  {
    && IsOrderOf(order, size)
    && (chunk == 0 <==> !(exists b :: b in free && size <= Pow2(b.order) * 0x1000))
    && (chunk == 0 ==> after == free)
    && (chunk != 0 ==> order <= idx && Block(chunk, idx) in free && after == Carved(free, chunk, order, idx))
    && (chunk != 0 ==> forall b :: b in free ==> b.order < order || idx <= b.order)
  }

  /** Any run of buddy_kalloc calls.  Each request is answered from the free set at that moment, `frees[i]`; the blocks
      handed out are size-aligned, inside the region, disjoint from each other and from every block that was live
      before, and together with what is still free they tile the region. */
  method AllocateAll(b: Buddy, sizes: seq<nat>)
    returns (chunks: seq<nat>, ghost orders: seq<nat>, ghost idxs: seq<nat>, ghost frees: seq<set<Block>>)
    requires b.Valid()
    modifies b`mem, b`lists, b`live, b.heads, b.bits
    ensures b.Valid() && |chunks| == |orders| == |idxs| == |sizes| && |frees| == |sizes| + 1
    ensures frees[0] == old(b.Free()) && frees[|sizes|] == b.Free()
    ensures forall i :: 0 <= i < |sizes| ==> Answered(frees[i], sizes[i], chunks[i], orders[i], idxs[i], frees[i + 1])
    ensures forall x :: x in b.live <==>
      x in old(b.live) || exists i :: 0 <= i < |chunks| && chunks[i] != 0 && x == Block(chunks[i], orders[i])
    ensures forall i, x :: 0 <= i < |chunks| && chunks[i] != 0 && x in old(b.live) ==>
      Apart(Block(chunks[i], orders[i]), x)
    ensures forall i, j :: 0 <= i < j < |chunks| && chunks[i] != 0 && chunks[j] != 0 ==>
      Apart(Block(chunks[i], orders[i]), Block(chunks[j], orders[j]))
    ensures forall i :: 0 <= i < |chunks| && chunks[i] != 0 ==> Fits(Block(chunks[i], orders[i]), b.base, b.pages)
    ensures old(Coalesced(b.Free())) ==> Coalesced(b.Free())
  {
    hide Tiled, IsOrderOf, Chains, Apart, Fits, Coalesced, Answered, Carved, FreeSet;
    chunks, orders, idxs, frees := [], [], [], [b.Free()];
    ghost var live0 := b.live;
    var n := 0;
    while n < |sizes|
      invariant 0 <= n <= |sizes| && |chunks| == |orders| == |idxs| == n && |frees| == n + 1 && b.Valid()
      invariant frees[0] == old(b.Free()) && frees[n] == b.Free()
      invariant forall i :: 0 <= i < n ==> Answered(frees[i], sizes[i], chunks[i], orders[i], idxs[i], frees[i + 1])
      invariant forall x :: x in b.live <==>
        x in live0 || exists i :: 0 <= i < n && chunks[i] != 0 && x == Block(chunks[i], orders[i])
      invariant forall i :: 0 <= i < n && chunks[i] != 0 ==> Block(chunks[i], orders[i]) !in live0
      invariant forall i, j :: 0 <= i < j < n && chunks[i] != 0 && chunks[j] != 0 ==>
        Block(chunks[i], orders[i]) != Block(chunks[j], orders[j])
      invariant old(Coalesced(b.Free())) ==> Coalesced(b.Free())
    {
      var c, k, idx := Request(b, sizes[n]);
      ghost var cs, os := chunks, orders;
      chunks, orders, idxs, frees := chunks + [c], orders + [k], idxs + [idx], frees + [b.Free()];
      assert forall i :: 0 <= i < n ==> chunks[i] == cs[i] && orders[i] == os[i];
      assert chunks[n] == c && orders[n] == k;
      n := n + 1;
    }
    LiveApart(b.Free(), b.live, b.base, b.pages);
  }

  /** One request. */
  method Request(b: Buddy, size: nat) returns (chunk: nat, ghost order: nat, ghost idx: nat)
    requires b.Valid()
    modifies b`mem, b`lists, b`live, b.heads, b.bits
    ensures b.Valid() && Answered(old(b.Free()), size, chunk, order, idx, b.Free())
    ensures chunk == 0 ==> b.live == old(b.live) && b.bits[..] == old(b.bits[..])
    ensures chunk != 0 ==> Block(chunk, order) !in old(b.live) && b.live == old(b.live) + {Block(chunk, order)}
    ensures chunk != 0 && WholeRegion(b.base, b.pages) && old(b.BitsAgree()) ==>
      (b.BitsAgree() <==> ServedDirectly(old(b.Free()), order))
    ensures old(Coalesced(b.Free())) ==> Coalesced(b.Free())
  {
    hide Tiled, IsOrderOf, Chains, Coalesced, Carved, FreeSet, Agrees, ServedDirectly, WholeRegion, Pos, Pow2;
    chunk, order, idx := b.Kalloc(size);
  }

  lemma {:induction false} LiveApart(free: set<Block>, live: set<Block>, base: nat, n: nat)
    requires Tiled(free + live, base, n)
    ensures forall x, y :: x in live && y in live && x != y ==> Apart(x, y)
    ensures forall x :: x in live ==> Fits(x, base, n)
  {
    forall x, y | x in live && y in live && x != y ensures Apart(x, y) { assert x in free + live && y in free + live; }
    forall x | x in live ensures Fits(x, base, n) { assert x in free + live; }
  }

  /** Freeing the block that was live on top of `live0` restores the coalesced free set of `live0`. */
  method FreeAgain(b: Buddy, chunk: nat, size: nat, ghost order: nat, ghost free0: set<Block>, ghost live0: set<Block>)
    requires b.Valid() && WholeRegion(b.base, b.pages) && b.BitsAgree() && Coalesced(b.Free()) && size != 0
    requires chunk != 0
    requires Tiled(free0 + live0, b.base, b.pages) && free0 !! live0 && Coalesced(free0)
    requires IsOrderOf(order, size) && Block(chunk, order) !in live0 && b.live == live0 + {Block(chunk, order)}
    modifies b`mem, b`lists, b`live, b.heads, b.bits
    ensures b.Valid() && b.BitsAgree() && b.Free() == free0 && b.live == live0
  {
    hide Tiled, IsOrderOf, Chains, Apart, Fits, Coalesced, Agrees, Carved, Covered, Inside, Mergeable, MergedBlock,
      Toggles, Flipped, Keeps, AncestorsAgree, WholeRegion, FreeSet;
    InRegion(b.Free(), b.live, b.base, b.pages, Block(chunk, order));
    RightBitsSuffice(b.bits[..], b.Free(), b.live, b.base, b.pages, Block(chunk, order));
    assert Clamped(order) == order;
    ghost var freed, _ := b.Kfree(chunk, size);
    ghost var k :| IsOrderOf(k, size) && freed.order == Clamped(k);
    OrderUnique(k, order, size);
    assert b.live == live0;
    CoalescedUnique(b.Free(), free0, live0, b.base, b.pages);
  }

  /** buddy_kfree undoes buddy_kalloc for every request that is served directly. */
  method AllocThenFree(b: Buddy, size: nat) returns (chunk: nat)
    requires b.Valid() && WholeRegion(b.base, b.pages) && b.BitsAgree() && Coalesced(b.Free()) && size != 0
    requires DirectSize(b.Free(), size)
    modifies b`mem, b`lists, b`live, b.heads, b.bits
    ensures b.Valid() && b.BitsAgree() && b.Free() == old(b.Free()) && b.live == old(b.live)
  {
    hide Tiled, IsOrderOf, Chains, Apart, Fits, Coalesced, Agrees, Carved, Covered, Inside;
    ghost var free0, live0 := b.Free(), b.live;
    ghost var order, idx;
    chunk, order, idx := b.Kalloc(size);
    if chunk == 0 { return; }
    FreeAgain(b, chunk, size, order, free0, live0);
  }

  // ----- Mixed runs

  /** Whether the next request for `size` bytes is served directly, read off the list heads. */
  method IsDirect(b: Buddy, size: nat) returns (direct: bool)
    requires b.Valid()
    ensures direct <==> DirectSize(b.Free(), size)
  {
    hide Tiled, Chain, IsOrderOf, ServedDirectly;
    var k := OrderOf(size);
    forall j | IsOrderOf(j, size) ensures j == k { OrderUnique(j, k, size); }
    if k > MAX_ORDER {
      AllSmaller(b.Free(), b.live, b.base, b.pages, k);
      return true;
    }
    var i := b.FirstList(k);
    direct := i > MAX_ORDER || i == k || (i == MAX_ORDER && k == MAX_ORDER - 1);
    DirectByList(b.lists, k, i);
  }

  lemma {:induction false} AllSmaller(free: set<Block>, live: set<Block>, base: nat, n: nat, k: nat)
    requires Tiled(free + live, base, n) && k > MAX_ORDER
    ensures ServedDirectly(free, k)
  {
    forall x | x in free ensures x.order < k { assert x in free + live; }
  }

  lemma {:induction false} DirectByList(lists: seq<seq<nat>>, k: nat, i: nat)
    requires |lists| == MAX_ORDER + 1 && k <= i <= MAX_ORDER + 1 && forall j :: k <= j < i ==> lists[j] == []
    requires i <= MAX_ORDER ==> lists[i] != []
    ensures (i > MAX_ORDER || i == k || (i == MAX_ORDER && k == MAX_ORDER - 1)) <==> ServedDirectly(FreeSet(lists), k)
  {
    forall x | x in FreeSet(lists) ensures x.order < k || i <= x.order <= MAX_ORDER { FreeMember(lists, x); }
    if i <= MAX_ORDER { FreeMember(lists, Block(lists[i][0], i)); }
  }

  datatype Op = Alloc(size: nat) | Release(chunk: nat)

  /** The blocks behind the chunks in hand. */
  ghost function BlocksOf(orders: map<nat, nat>): set<Block> { set c | c in orders :: Block(c, orders[c]) }

  lemma {:induction false} BlocksWithout(orders: map<nat, nat>, c: nat)
    requires c in orders
    ensures BlocksOf(orders - {c}) == BlocksOf(orders) - {Block(c, orders[c])}
  {
    forall x ensures x in BlocksOf(orders - {c}) <==> x in BlocksOf(orders) - {Block(c, orders[c])} {
      if x in BlocksOf(orders) && x.addr != c { assert x.addr in orders - {c}; }
    }
  }

  lemma {:induction false} BlocksWith(orders: map<nat, nat>, c: nat, k: nat)
    requires c !in orders
    ensures BlocksOf(orders[c := k]) == BlocksOf(orders) + {Block(c, k)}
  {
    var r := orders[c := k];
    forall x ensures x in BlocksOf(r) <==> x in BlocksOf(orders) + {Block(c, k)} {
      if x in BlocksOf(orders) { assert x.addr in r && r[x.addr] == x.order; }
      assert r[c] == k;
    }
  }

  ghost predicate Accounted(b: Buddy, held: map<nat, nat>, orders: map<nat, nat>, live0: set<Block>)
    reads b
  {
    && orders.Keys == held.Keys && b.live == live0 + BlocksOf(orders) && live0 !! BlocksOf(orders)
    && (forall c :: c in held ==> c != 0 && held[c] != 0 && IsOrderOf(orders[c], held[c]) && orders[c] <= MAX_ORDER)
  }

  ghost predicate DirectSize(free: set<Block>, size: nat) { forall k :: IsOrderOf(k, size) ==> ServedDirectly(free, k) }

  /** What the client holds after these operations with these answers: chunks with their sizes. */
  ghost function Replay(ops: seq<Op>, results: seq<nat>): map<nat, nat>
    requires |results| == |ops|
    decreases |ops|
  {
    if ops == [] then map[] else
    var n := |ops| - 1;
    Replayed(Replay(ops[..n], results[..n]), ops[n], results[n])
  }

  ghost function Replayed(held: map<nat, nat>, op: Op, r: nat): map<nat, nat>
  {
    match op
    case Alloc(size) => if r == 0 then held else held[r := size]
    case Release(chunk) => held - {chunk}
  }

  /** One operation of a client that only makes requests that are served directly.  A request is refused iff it is
      empty, not served directly, or no free block is large enough; releasing a held chunk frees exactly its pages. */
  ghost predicate Handled(op: Op, held: map<nat, nat>, r: nat, free: set<Block>, after: set<Block>)
  {
    match op
    case Alloc(size) =>
      && (r == 0 <==>
            size == 0 || !DirectSize(free, size) || !(exists b :: b in free && size <= Pow2(b.order) * 0x1000))
      && (r == 0 ==> after == free)
      && (r != 0 ==> r !in held && exists k, idx :: Answered(free, size, r, k, idx, after))
    case Release(chunk) =>
      && (chunk !in held ==> after == free)
      && (chunk in held ==> exists k :: IsOrderOf(k, held[chunk]) && FreedExactly(free, after, Block(chunk, k)))
  }

  ghost predicate FreedExactly(free: set<Block>, after: set<Block>, b: Block)
  {
    Coalesced(after) && forall p: nat :: Covered(after, p) <==> Covered(free, p) || Covers(b, p)
  }

  /** Any run of requests that are served directly, mixed with releases of what is in hand.  Every operation is handled
      on the free set at that moment, what is held at the end is the replay of the run, tiling, bitmap and full
      coalescing hold throughout, and once everything is released the free set is as before. */
  method RunDirect(b: Buddy, ops: seq<Op>)
    returns (held: map<nat, nat>, results: seq<nat>, ghost frees: seq<set<Block>>)
    requires b.Valid() && WholeRegion(b.base, b.pages) && b.BitsAgree() && Coalesced(b.Free())
    modifies b`mem, b`lists, b`live, b.heads, b.bits
    ensures b.Valid() && b.BitsAgree() && Coalesced(b.Free())
    ensures |results| == |ops| && |frees| == |ops| + 1 && held == Replay(ops, results)
    ensures frees[0] == old(b.Free()) && frees[|ops|] == b.Free()
    ensures forall i :: 0 <= i < |ops| ==>
      Handled(ops[i], Replay(ops[..i], results[..i]), results[i], frees[i], frees[i + 1])
    ensures exists orders :: Accounted(b, held, orders, old(b.live))
    ensures held == map[] ==> b.live == old(b.live) && b.Free() == old(b.Free())
  {
    hide Tiled, Chains, IsOrderOf, ServedDirectly, Coalesced, Agrees, Carved, Covered, Inside, WholeRegion, Accounted,
      Handled, Replay, FreeSet;
    held, results, frees := map[], [], [b.Free()];
    ghost var live0, free0, orders: map<nat, nat> := b.live, b.Free(), map[];
    NothingHeld(b, live0);
    ReplayNothing();
    var n := 0;
    while n < |ops|
      invariant 0 <= n <= |ops| && b.Valid() && b.BitsAgree() && Coalesced(b.Free())
      invariant Accounted(b, held, orders, live0) && |results| == n && |frees| == n + 1
      invariant held == Replay(ops[..n], results) && frees[0] == free0 && frees[n] == b.Free()
      invariant forall i :: 0 <= i < n ==>
        Handled(ops[i], Replay(ops[..i], results[..i]), results[i], frees[i], frees[i + 1])
    {
      ghost var before := results;
      ghost var held0, free1 := held, b.Free();
      var r;
      held, r, orders := HandleDirect(b, ops[n], held, orders, live0);
      results, frees := results + [r], frees + [b.Free()];
      ReplayNext(ops, before, n, r);
      forall i | 0 <= i <= n
        ensures Handled(ops[i], Replay(ops[..i], results[..i]), results[i], frees[i], frees[i + 1])
      {
        assert results[..i] == before[..i];
        if i == n { assert before[..n] == before; }
      }
      n := n + 1;
    }
    assert ops[..n] == ops;
    if held == map[] {
      AllReleased(b, orders, live0);
      CoalescedUnique(b.Free(), free0, live0, b.base, b.pages);
    }
  }

  lemma {:induction false} ReplayNothing()
    ensures Replay([], []) == map[]
  {
  }

  lemma {:induction false} ReplayNext(ops: seq<Op>, results: seq<nat>, n: nat, r: nat)
    requires n < |ops| && |results| == n
    ensures Replay(ops[..n + 1], results + [r]) == Replayed(Replay(ops[..n], results), ops[n], r)
  {
    assert ops[..n + 1][..n] == ops[..n] && (results + [r])[..n] == results;
  }

  method HandleDirect(b: Buddy, op: Op, held: map<nat, nat>, ghost orders: map<nat, nat>, ghost live0: set<Block>)
    returns (held': map<nat, nat>, r: nat, ghost orders': map<nat, nat>)
    requires b.Valid() && WholeRegion(b.base, b.pages) && b.BitsAgree() && Coalesced(b.Free())
    requires Accounted(b, held, orders, live0)
    modifies b`mem, b`lists, b`live, b.heads, b.bits
    ensures b.Valid() && b.BitsAgree() && Coalesced(b.Free()) && Accounted(b, held', orders', live0)
    ensures held' == Replayed(held, op, r) && Handled(op, held, r, old(b.Free()), b.Free())
  {
    hide Tiled, Chains, IsOrderOf, DirectSize, Coalesced, Agrees, WholeRegion, Accounted, FreeSet, Answered,
      FreedExactly;
    match op {
      case Alloc(size) =>
        held', r, orders' := AllocDirect(b, size, held, orders, live0);
      case Release(chunk) =>
        held', r, orders' := held, 0, orders;
        if chunk in held {
          held', orders' := ReleaseHeld(b, chunk, held, orders, live0);
          assert FreedExactly(old(b.Free()), b.Free(), Block(chunk, orders[chunk]));
        } else {
          assert held - {chunk} == held;
        }
    }
  }

  lemma {:induction false} NothingHeld(b: Buddy, live0: set<Block>)
    requires b.live == live0
    ensures Accounted(b, map[], map[], live0)
  {
    assert BlocksOf(map[]) == {};
  }

  lemma {:induction false} AllReleased(b: Buddy, orders: map<nat, nat>, live0: set<Block>)
    requires Accounted(b, map[], orders, live0)
    ensures b.live == live0
  {
    assert BlocksOf(orders) == {};
  }

  /** One request, made only if it is served directly. */
  method AllocDirect(b: Buddy, size: nat, held: map<nat, nat>, ghost orders: map<nat, nat>, ghost live0: set<Block>)
    returns (held': map<nat, nat>, chunk: nat, ghost orders': map<nat, nat>)
    requires b.Valid() && WholeRegion(b.base, b.pages) && b.BitsAgree() && Coalesced(b.Free())
    requires Accounted(b, held, orders, live0)
    modifies b`mem, b`lists, b`live, b.heads, b.bits
    ensures b.Valid() && b.BitsAgree() && Coalesced(b.Free()) && Accounted(b, held', orders', live0)
    ensures held' == Replayed(held, Alloc(size), chunk)
    ensures Handled(Alloc(size), held, chunk, old(b.Free()), b.Free())
  {
    hide Tiled, Chains, IsOrderOf, ServedDirectly, Coalesced, Agrees, Carved, WholeRegion, BlocksOf, Toggled, Pos,
      FreeSet;
    held', chunk, orders' := held, 0, orders;
    if size == 0 { return; }
    var direct := IsDirect(b, size);
    if !direct { return; }
    ghost var live1 := b.live;
    ghost var order, idx;
    chunk, order, idx := Request(b, size);
    if chunk == 0 { return; }
    InRegion(b.Free(), b.live, b.base, b.pages, Block(chunk, order));
    NewStart(b.Free(), b.live, b.base, b.pages, chunk, order, orders, live1);
    held', orders' := held[chunk := size], orders[chunk := order];
    BlocksWith(orders, chunk, order);
  }

  lemma {:induction false} NewStart(free: set<Block>, live: set<Block>, base: nat, n: nat, chunk: nat, order: nat,
                                    orders: map<nat, nat>, live1: set<Block>)
    requires Tiled(free + live, base, n) && live == live1 + {Block(chunk, order)} && Block(chunk, order) !in live1
    requires BlocksOf(orders) <= live1
    ensures chunk !in orders
  {
    if chunk in orders {
      assert Block(chunk, orders[chunk]) in BlocksOf(orders);
      StartsDiffer(free + live, base, n, Block(chunk, order), Block(chunk, orders[chunk]));
    }
  }

  method ReleaseHeld(b: Buddy, chunk: nat, held: map<nat, nat>, ghost orders: map<nat, nat>, ghost live0: set<Block>)
    returns (held': map<nat, nat>, ghost orders': map<nat, nat>)
    requires b.Valid() && WholeRegion(b.base, b.pages) && b.BitsAgree() && Coalesced(b.Free())
    requires Accounted(b, held, orders, live0) && chunk in held
    modifies b`mem, b`lists, b`live, b.heads, b.bits
    ensures b.Valid() && b.BitsAgree() && Coalesced(b.Free()) && Accounted(b, held', orders', live0)
    ensures held' == held - {chunk} && chunk in orders && IsOrderOf(orders[chunk], held[chunk])
    ensures FreedExactly(old(b.Free()), b.Free(), Block(chunk, orders[chunk]))
  {
    hide Tiled, Chains, IsOrderOf, Coalesced, Agrees, WholeRegion, Covered, Covers, Inside, Apart, BuddyIsFree,
      Mergeable, MergedBlock, Toggles, Flipped, Keeps, AncestorsAgree, FreeSet;
    assert Block(chunk, orders[chunk]) in BlocksOf(orders);
    RightBitsSuffice(b.bits[..], b.Free(), b.live, b.base, b.pages, Block(chunk, orders[chunk]));
    assert Clamped(orders[chunk]) == orders[chunk];
    ghost var freed, _ := b.Kfree(chunk, held[chunk]);
    ghost var k :| IsOrderOf(k, held[chunk]) && freed.order == Clamped(k);
    OrderUnique(k, orders[chunk], held[chunk]);
    held', orders' := held - {chunk}, orders - {chunk};
    BlocksWithout(orders, chunk);
  }

  // ----- The bitmap over mixed runs

  /** On a fresh region of 4 MiB, after a request of one page and one of two pages, the bit that
      buddy_kfree would consult for the second block says that its buddy is free, but a live block
      covers the buddy: bits of splits over several orders are stale. */
  method StaleBit() returns (b: Buddy, first: nat, second: nat)
    ensures b.Valid() && WholeRegion(b.base, b.pages)
    ensures b.base <= second && Aligned(second, 1) && Pos(b.base, b.pages, second, 1) < b.pages
    ensures Block(first, 0) in b.live && Block(second, 1) in b.live
    ensures b.bits[Pos(b.base, b.pages, second, 1)]
    ensures Block(BuddyOf(second, 1), 1) !in b.Free() && Covers(Block(BuddyOf(second, 1), 1), first)
  {
    hide Tiled, Chains, Agrees, Greedy, Pick, Coalesced, Pow2, Aligned, Pos, Carved, FreeSet, IsOrderOf, BuddyOf,
      Placed, Covers;
    SmallSizes();
    b := new Buddy(1024, 1024);
    ghost var free0, bits0 := b.Free(), b.bits[..];
    OneTopBlock(1024);
    ghost var o1, i1, o2, i2;
    assert Block(1024, 10) in free0;
    first, o1, i1 := b.Kalloc(0x1000);
    OrderUnique(o1, 0, 0x1000);
    ghost var free1, bits1 := b.Free(), b.bits[..];
    SecondServedAt(1024);
    assert Block(1026, 1) in free1;
    second, o2, i2 := b.Kalloc(0x2000);
    OrderUnique(o2, 1, 0x2000);
    assert second == 1026;
    StaleBuddy(1024);
    assert bits1 == Toggled(bits0, 0) && b.bits[..] == Toggled(bits1, 512);
    assert b.bits[512] == b.bits[..][512];
  }

  lemma {:induction false} StaleBuddy(a: nat)
    requires a == 1024
    ensures Aligned(a + 2, 1) && BuddyOf(a + 2, 1) == a && Covers(Block(a, 1), a)
    ensures Block(a, 1) !in Carved(Carved({Block(a, 10)}, a, 0, 10), a + 2, 1, 1)
  {
    SmallSizes();
    SecondServedAt(a);
  }

  lemma {:induction false} SmallSizes()
    ensures Pow2(0) == 1 && Pow2(1) == 2 && Pow2(2) == 4 && Pow2(10) == 1024
    ensures IsOrderOf(0, 0x1000) && IsOrderOf(1, 0x2000)
    ensures Aligned(1024, 10) && Aligned(1026, 1) && !Aligned(1026, 2)
    ensures Pos(1024, 1024, 1024, 0) == 0 && Pos(1024, 1024, 1026, 1) == 512
  {
    assert Pow2(5) == 32;
    assert Pow2(10) == 1024;
  }

  lemma {:induction false} SumPositive(orders: seq<nat>)
    ensures orders != [] ==> Sum(orders) > 0
  {
  }

  lemma {:induction false} OneTopBlock(base: nat)
    requires Aligned(base, MAX_ORDER)
    ensures Placed(base, Greedy(base, 1024)) == {Block(base, MAX_ORDER)}
  {
    SmallSizes();
    GreedyWhole(base, 1024);
    GreedyDescends(base, 1024, MAX_ORDER);
    var g := Greedy(base, 1024);
    assert g != [] && g[0] == MAX_ORDER && Sum(g[1..]) == 0;
    SumPositive(g[1..]);
    assert Placed(base + 1024, []) == {};
  }

  lemma {:induction false} SecondServedAt(a: nat)
    ensures var free := Carved({Block(a, 10)}, a, 0, 10);
            Block(a + 2, 1) in free && (forall x :: x in free && x.order == 1 ==> x.addr == a + 2)
  {
    SmallSizes();
    assert Block(a + Pow2(1), 1) in UpperHalves(a, 0, 10);
  }
}
