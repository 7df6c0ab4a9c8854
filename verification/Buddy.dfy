/** phys_kmalloc.c: the buddy allocator of physical pages. */
module Buddy {
  import opened Common
  import opened BuddyBlocks
  import opened BuddyLists
  import opened BuddyPairs
  import opened BuddyInit

  class Buddy {
    const base: nat
    const pages: nat
    const offsets: seq<nat>      // order_offsets
    const heads: array<nat>      // free_lists_ptr
    const bits: array<bool>      // the pair bitmap, one element a bit
    var mem: Memory              // the links inside the free pages
    ghost var lists: seq<seq<nat>>
    ghost var live: set<Block>   // the blocks that are handed out

    ghost predicate Linked()
      reads this, heads
    {
      heads.Length == MAX_ORDER + 1 && Chains(mem, heads[..], lists)
    }

    ghost function Free(): set<Block>
      reads this
    {
      FreeSet(lists)
    }

    /** Well-linked lists; free and live blocks together tile the region. */
    ghost predicate Valid()
      reads this, heads
    {
      && base > 0 && Aligned(base, MAX_ORDER) && bits.Length == pages
      && |offsets| == MAX_ORDER + 1 && (forall k: nat :: k <= MAX_ORDER ==> offsets[k] == Offset(pages, k))
      && Linked() && Free() !! live && Tiled(Free() + live, base, pages)
    }

    /** The bitmap means what its comment says. */
    ghost predicate BitsAgree()
      requires bits.Length == pages
      reads this, bits
    {
      Agrees(bits[..], Free(), base, pages)
    }

    /** __init_buddy from the aligned region on. */
    constructor (base0: nat, n: nat)
      requires base0 > 0 && Aligned(base0, MAX_ORDER)
      ensures Valid() && base == base0 && pages == n && live == {} && fresh(heads) && fresh(bits)
      ensures Free() == Placed(base, Greedy(base, pages)) && Coalesced(Free()) && Ascending(lists)
      ensures forall i :: 0 <= i < 8 * (n / 8) ==> !bits[i]
      ensures WholeRegion(base, pages) ==> BitsAgree()
    {
      hide Tiled, Chain, Agrees, Coalesced, Greedy;
      var counts := CountOrders(base0, n);
      var m, hs, ls := LayOut(base0, n, counts);
      InitialCoalesced(base0, n, counts, ls);
      var offs := OrderOffsets(n);
      var hd := new nat[MAX_ORDER + 1](i requires 0 <= i < |hs| => hs[i]);
      assert hd[..] == hs;
      var bm := new bool[n];
      var i := 0;
      while i < 8 * (n / 8)
        invariant 0 <= i <= 8 * (n / 8)
        invariant forall j :: 0 <= j < i ==> !bm[j]
        modifies bm
      {
        bm[i] := false;
        i := i + 1;
      }
      if WholeRegion(base0, n) { InitialAgrees(base0, n, bm[..], counts, ls); }
      base, pages, offsets, heads, bits := base0, n, offs, hd, bm;
      mem, lists, live := m, ls, {};
      new;
      assert Free() + live == Free() && heads[..] == hs;
    }

    // ----- List and bitmap primitives

    /** Inserts block `a` at the head of list `k`. */
    method Push(k: nat, a: nat)
      requires Linked() && k <= MAX_ORDER && a != 0 && !Listed(lists, a)
      modifies this`mem, this`lists, heads
      ensures Linked() && lists == old(lists)[k := [a] + old(lists)[k]]
      ensures Free() == old(Free()) + {Block(a, k)}
    {
      PushChains(mem, heads[..], lists, k, a);
      FreeAfterPush(lists, k, a);
      ghost var before, hs := mem, heads[..];
      var next := heads[k];
      mem := mem[a := Chunk(next, 0)];
      if next != 0 { mem := mem[next := mem[next].(prev := a)]; }
      heads[k] := a;
      lists := lists[k := [a] + lists[k]];
      assert mem == PushMem(before, next, a) && heads[..] == hs[k := a];
    }

    /** Takes the first block of list `k`. */
    method Pop(k: nat) returns (a: nat)
      requires Linked() && k <= MAX_ORDER && heads[k] != 0
      modifies this`mem, this`lists, heads
      ensures Linked() && old(lists)[k] != [] && a == old(lists)[k][0] && a != 0
      ensures lists == old(lists)[k := old(lists)[k][1..]]
      ensures Free() == old(Free()) - {Block(a, k)} && Block(a, k) in old(Free())
    {
      HeadIsFirst(mem, heads[..], lists, k);
      UnlinkChains(mem, heads[..], lists, k, 0);
      FreeAfterUnlink(lists, k, 0);
      ghost var before, hs := mem, heads[..];
      a := heads[k];
      FreeMember(lists, Block(a, k));
      var next := mem[a].next;
      heads[k] := next;
      if next != 0 { mem := mem[next := mem[next].(prev := 0)]; }
      mem := mem[a := mem[a].(next := 0)];
      lists := lists[k := Without(lists[k], 0)];
      assert Without(old(lists)[k], 0) == old(lists)[k][1..];
      assert mem == UnlinkMem(before, a) && heads[..] == hs[k := UnlinkHead(before, hs[k], a)];
    }

    /** Takes block `a`, wherever it is in list `k`. */
    method Unlink(k: nat, a: nat)
      requires Linked() && k <= MAX_ORDER && Block(a, k) in Free()
      modifies this`mem, this`lists, heads
      ensures Linked() && Free() == old(Free()) - {Block(a, k)}
      ensures exists i: nat :: i < |old(lists)[k]| && old(lists)[k][i] == a &&
                               lists == old(lists)[k := Without(old(lists)[k], i)]
    {
      FreeMember(lists, Block(a, k));
      ghost var i :| 0 <= i < |lists[k]| && lists[k][i] == a;
      UnlinkChains(mem, heads[..], lists, k, i);
      FreeAfterUnlink(lists, k, i);
      ghost var before, hs := mem, heads[..];
      var c := mem[a];
      if c.prev != 0 {
        mem := mem[c.prev := mem[c.prev].(next := c.next)];
      } else {
        heads[k] := c.next;
      }
      if c.next != 0 { mem := mem[c.next := mem[c.next].(prev := c.prev)]; }
      mem := mem[a := Chunk(0, 0)];
      lists := lists[k := Without(lists[k], i)];
      assert mem == UnlinkMem(before, a);
      assert heads[..] == hs[k := UnlinkHead(before, hs[k], a)];
    }

    /** The same, seen from lists of which at most one block below `k` each is missing. */
    method UnlinkFrom(k: nat, a: nat, ghost before: seq<seq<nat>>)
      requires Linked() && k <= MAX_ORDER && Block(a, k) in Free() && Thinned(before, lists, k)
      modifies this`mem, this`lists, heads
      ensures Linked() && Free() == old(Free()) - {Block(a, k)} && Thinned(before, lists, k + 1)
    {
      hide Thinned, Chain, FreeSet;
      ghost var mid := lists;
      Unlink(k, a);
      ghost var i: nat :| i < |mid[k]| && mid[k][i] == a && lists == mid[k := Without(mid[k], i)];
      ThinnedNext(before, mid, k, i);
    }

    /** toggle_bitmap. */
    method Toggle(a: nat, k: nat) returns (bit: bool)
      requires bits.Length == pages && k <= MAX_ORDER && base <= a && a + Pow2(k) <= base + pages
      requires |offsets| == MAX_ORDER + 1 && offsets[k] == Offset(pages, k)
      modifies bits
      ensures Pos(base, pages, a, k) < pages && bits[..] == Toggled(old(bits[..]), Pos(base, pages, a, k))
      ensures bit == bits[Pos(base, pages, a, k)]
    {
      PosInside(base, pages, a, k);
      var pos := offsets[k] + (a - base) / Pow2(k) / 2;
      bits[pos] := !bits[pos];
      bit := bits[pos];
    }

    // ----- buddy_kalloc

    /** Hands out a block of the smallest order that holds `size` bytes, carved from the first block of
        the first non-empty list `idx` from that order on; 0 iff no free block is large enough. */
    method Kalloc(size: nat) returns (chunk: nat, ghost order: nat, ghost idx: nat)
      requires Valid()
      modifies this`mem, this`lists, this`live, heads, bits
      ensures Valid() && IsOrderOf(order, size)
      ensures chunk == 0 <==> !(exists b :: b in old(Free()) && size <= Pow2(b.order) * 0x1000)
      ensures chunk == 0 ==>
        mem == old(mem) && lists == old(lists) && live == old(live) && heads[..] == old(heads[..]) &&
            bits[..] == old(bits[..])
      ensures chunk != 0 ==> order <= idx && Block(chunk, idx) in old(Free())
      ensures chunk != 0 ==> idx < |old(lists)| && |old(lists)[idx]| > 0 && chunk == old(lists)[idx][0]
      ensures chunk != 0 ==> lists == Cut(old(lists), chunk, order, idx)
      ensures chunk != 0 ==> forall b :: b in old(Free()) ==> b.order < order || idx <= b.order
      ensures chunk != 0 ==> Block(chunk, order) !in old(live) && live == old(live) + {Block(chunk, order)}
      ensures chunk != 0 ==> Free() == Carved(old(Free()), chunk, order, idx)
      ensures chunk != 0 ==>
        base <= chunk && Pos(base, pages, chunk, order) < pages &&
            bits[..] == Toggled(old(bits[..]), Pos(base, pages, chunk, order))
      ensures chunk != 0 && WholeRegion(base, pages) && old(BitsAgree()) ==>
        (BitsAgree() <==> ServedDirectly(old(Free()), order))
      ensures old(Coalesced(Free())) ==> Coalesced(Free())
    {
      var k := OrderOf(size);
      order := k;
      if k > MAX_ORDER {
        TooLarge(Free(), live, base, pages, size, k);
        chunk, idx := 0, 0;
        return;
      }
      var i := FirstList(k);
      idx := i;
      if i > MAX_ORDER {
        NoneLargeEnough(lists, size, k);
        chunk := 0;
        return;
      }
      ghost var free0 := Free();
      FirstIsLeast(lists, k, i);
      chunk := Take(k, i);
      LargeEnough(free0, live, size, k, i, chunk);
      DirectIff(free0, k, i, chunk);
    }

    /** The search for the first non-empty list. */
    method FirstList(k: nat) returns (i: nat)
      requires Linked() && k <= MAX_ORDER
      ensures k <= i <= MAX_ORDER + 1 && (forall j :: k <= j < i ==> lists[j] == [])
      ensures i <= MAX_ORDER ==> lists[i] != [] && heads[i] != 0
    {
      i := k;
      while i <= MAX_ORDER
        invariant k <= i <= MAX_ORDER + 1
        invariant forall j :: k <= j < i ==> lists[j] == []
      {
        HeadIsFirst(mem, heads[..], lists, i);
        if heads[i] != 0 { break; }
        i := i + 1;
      }
    }

    /** Pops from list `i` and splits down to order `k`. */
    method Carve(k: nat, i: nat) returns (chunk: nat)
      requires Valid() && k <= i <= MAX_ORDER && heads[i] != 0
      modifies this`mem, this`lists, this`live, heads
      ensures Valid() && chunk != 0 && Block(chunk, i) in old(Free()) && Block(chunk, k) !in old(live)
      ensures i < |old(lists)| && |old(lists)[i]| > 0 && chunk == old(lists)[i][0]
      ensures lists == Cut(old(lists), chunk, k, i)
      ensures live == old(live) + {Block(chunk, k)} && Free() == Carved(old(Free()), chunk, k, i)
    {
      hide Tiled, Aligned, Chain, Pow2, FreeSet, Cut;
      ghost var free0, live0, lists0 := Free(), live, lists;
      chunk := Pop(i);
      CutNothing(lists0, chunk, i);
      live := live + {Block(chunk, i)};
      assert Free() + live == free0 + live0;
      CarvedStart(free0, chunk, i);
      var level := i;
      while level > k
        invariant k <= level <= i && Valid()
        invariant Block(chunk, level) !in live0 && live == live0 + {Block(chunk, level)}
        invariant Free() == Carved(free0, chunk, level, i) && lists == Cut(lists0, chunk, level, i)
        modifies this`mem, this`lists, this`live, heads
      {
        SplitOnce(chunk, level);
        CarvedStep(free0, chunk, level, i);
        CutNext(lists0, chunk, level, i);
        assert live == live0 + {Block(chunk, level - 1)};
        level := level - 1;
      }
    }

    /** One round of the split loop. */
    method SplitOnce(chunk: nat, level: nat)
      requires Valid() && level > 0 && Block(chunk, level) in live
      modifies this`mem, this`lists, this`live, heads
      ensures Valid() && Free() == old(Free()) + {Block(chunk + Pow2(level - 1), level - 1)}
      ensures Block(chunk, level - 1) !in old(live)
      ensures live == old(live) - {Block(chunk, level)} + {Block(chunk, level - 1)}
      ensures level <= |old(lists)|
      ensures lists == old(lists)[level - 1 := [chunk + Pow2(level - 1)] + old(lists)[level - 1]]
    {
      hide Tiled, Aligned, Chain, Pow2, FreeSet;
      ghost var c := Block(chunk, level);
      InRegion(Free(), live, base, pages, c);
      UpperUnlisted(lists, live, base, pages, c);
      SplitStep(Free(), live, base, pages, c);
      var buddy := chunk + Pow2(level - 1);
      Push(level - 1, buddy);
      live := live - {c} + {Lower(c)};
    }

    /** Carves a block and toggles the bit of the final order. */
    method Take(k: nat, i: nat) returns (chunk: nat)
      requires Valid() && k <= i <= MAX_ORDER && heads[i] != 0
      modifies this`mem, this`lists, this`live, heads, bits
      ensures Valid() && chunk != 0 && Block(chunk, i) in old(Free()) && Block(chunk, k) !in old(live)
      ensures i < |old(lists)| && |old(lists)[i]| > 0 && chunk == old(lists)[i][0]
      ensures lists == Cut(old(lists), chunk, k, i)
      ensures live == old(live) + {Block(chunk, k)} && Free() == Carved(old(Free()), chunk, k, i)
      ensures base <= chunk && Pos(base, pages, chunk, k) < pages
      ensures bits[..] == Toggled(old(bits[..]), Pos(base, pages, chunk, k))
      ensures WholeRegion(base, pages) && old(BitsAgree()) ==> (BitsAgree() <==> OneToggleSuffices(k, i))
      ensures old(Coalesced(Free())) ==> Coalesced(Free())
    {
      hide Tiled, Aligned, Chains, Pow2, Coalesced, Agrees, WholeRegion, FreeSet, Carved, Pos, Cut;
      ghost var free0, live0, bits0 := Free(), live, bits[..];
      chunk := Carve(k, i);
      InRegion(Free(), live, base, pages, Block(chunk, k));
      var _ := Toggle(chunk, k);
      if Coalesced(free0) { CarvedCoalesced(free0, live0, base, pages, chunk, k, i); }
      if WholeRegion(base, pages) && Agrees(bits0, free0, base, pages) {
        CarveAgreesIff(bits0, free0, live0, base, pages, chunk, k, i);
      }
    }

    // ----- buddy_kfree

    /** The coalescing loop: `block` of order `o`, still to be inserted, is the freed block merged with
        the free buddies it met; the bitmap already counts it as free. */
    method CoalesceUp(chunk: nat, order: nat) returns (block: nat, o: nat)
      requires Valid() && Block(chunk, order) in live && Mergeable(bits[..], Free(), base, pages, chunk, order)
      modifies this`mem, this`lists, this`live, heads, bits
      ensures Valid() && Block(block, o) in live && live == old(live) - {Block(chunk, order)} + {Block(block, o)}
      ensures Block(block, o) == old(MergedBlock(bits[..], Free(), base, pages, chunk, order))
      ensures Flipped(old(bits[..]), bits[..], old(Toggles(bits[..], Free(), base, pages, chunk, order)))
      ensures Keeps(old(bits[..]), old(Free()), bits[..], Free() + {Block(block, o)}, base, pages)
      ensures Inside(Block(chunk, order), Block(block, o)) && KeptApart(old(Free()), Free(), Block(block, o))
      ensures Block(block, o) !in old(live) - {Block(chunk, order)}
      ensures old(AncestorsAgree(bits[..], Free(), base, pages, chunk, order)) ==>
        o == MAX_ORDER || !BuddyIsFree(Free(), Block(block, o))
      ensures Thinned(old(lists), lists, o)
    {
      hide Thinned, Tiled, Aligned, Chains, Pow2, AncestorsAgree, Keeps, FreeSet, Pos, Inside, KeptApart, BuddyIsFree,
        Mergeable, MergedBlock, Toggles, Flipped;
      block, o := chunk, order;
      ghost var free0, bits0, rest := Free(), bits[..], live - {Block(chunk, order)};
      ghost var exact := AncestorsAgree(bits0, free0, base, pages, chunk, order);
      ghost var whole, done := Toggles(bits0, free0, base, pages, chunk, order), {};
      StartApart(Free(), live, base, pages, Block(chunk, order));
      KeepsSelf(bits0, free0, base, pages);
      NothingFlipped(bits0);
      ghost var lists0 := lists;
      ThinnedSelf(lists, o);
      ghost var stopped := false;
      assert live == rest + {Block(block, o)};
      while o < MAX_ORDER
        invariant Valid() && Block(block, o) !in rest && live == rest + {Block(block, o)} && o <= MAX_ORDER
        invariant Keeps(bits0, free0, bits[..], Free(), base, pages) && Thinned(lists0, lists, o)
        invariant exact ==> AncestorsAgree(bits[..], Free(), base, pages, block, o)
        invariant Mergeable(bits[..], Free(), base, pages, block, o)
        invariant MergedBlock(bits[..], Free(), base, pages, block, o) ==
                  MergedBlock(bits0, free0, base, pages, chunk, order)
        invariant whole == done + Toggles(bits[..], Free(), base, pages, block, o)
        invariant done !! Toggles(bits[..], Free(), base, pages, block, o) && Flipped(bits0, bits[..], done)
        invariant Inside(Block(chunk, order), Block(block, o)) && KeptApart(free0, Free(), Block(block, o))
        decreases MAX_ORDER - o
      {
        ghost var bits1, free1 := bits[..], Free();
        WayUp(free1, live, bits1, base, pages, block, o);
        ghost var p := Pos(base, pages, block, o);
        if exact { BitTells(free1, live, bits1, base, pages, block, o); }
        var bit := Toggle(block, o);
        FlippedNext(bits0, bits1, done, p);
        if bit {
          if exact { NotFree(free1, block, o); }
          EnterKeeps(free1, live, bits1, base, pages, block, o);
          KeepsTrans(bits0, free0, bits1, free1, bits[..], free1 + {Block(block, o)}, base, pages);
          done, stopped := done + {p}, true;
          break;
        }
        LeaveKeeps(free1, live, bits1, base, pages, block, o);
        MergeStep(free1, live, base, pages, block, o);
        MergeKeepsApart(free0, free1, live, base, pages, block, o);
        InsideTrans(Block(chunk, order), Block(block, o), Block(PairOf(block, o), o + 1));
        ghost var up := Block(PairOf(block, o), o + 1);
        var buddy := Sibling(block, o);
        UnlinkFrom(o, buddy, lists0);
        KeepsTrans(bits0, free0, bits1, free1, bits[..], Free(), base, pages);
        if exact {
          KeepsAncestors(bits1, free1, bits[..], Free(), base, pages, block, o);
          AncestorsUp(bits[..], Free(), base, pages, block, o);
          AroundIsPair(block, o);
        }
        NextUp(bits1, free1, base, pages, block, o);
        done := done + {p};
        live := live - {Block(block, o)} + {up};
        assert live == rest + {up};
        if buddy < block { block := buddy; }
        o := o + 1;
        assert up == Block(block, o);
      }
      if !stopped {
        AtTop(bits[..], Free(), base, pages, block);
        TopInserted(Free(), live, bits[..], base, pages, block);
        KeepsTrans(bits0, free0, bits[..], Free(), bits[..], Free() + {Block(block, o)}, base, pages);
      }
    }

    /** Inserts the merged block, which is live no longer. */
    method Insert(block: nat, o: nat)
      requires Valid() && Block(block, o) in live
      modifies this`mem, this`lists, this`live, heads
      ensures Valid() && Free() == old(Free()) + {Block(block, o)} && live == old(live) - {Block(block, o)}
      ensures o < |lists| && |lists[o]| > 0 && lists[o][0] == block
      ensures lists == old(lists)[o := [block] + old(lists)[o]]
    {
      hide Tiled, Aligned, Chain, Pow2, FreeSet;
      InRegion(Free(), live, base, pages, Block(block, o));
      LiveUnlisted(lists, live, base, pages, Block(block, o));
      ghost var blocks := Free() + live;
      Push(o, block);
      live := live - {Block(block, o)};
      assert Free() + live == blocks;
    }

    /** Returns a live block with its own size.  All it needs of the bitmap is that the bits that it meets set belong
        to free buddies.  Then exactly the block's pages become free, every bit that was right stays right, and
        `merged`, at the head of its list, is what the bits say.  If the bits around the block are right, the block
        is merged with its buddy for as long as the buddy is free. */
    method Kfree(chunk: nat, size: nat) returns (ghost freed: Block, ghost merged: Block)
      requires Valid()
      requires chunk != 0 && size != 0 ==>
        exists k :: IsOrderOf(k, size) && Block(chunk, Clamped(k)) in live &&
                    Mergeable(bits[..], Free(), base, pages, chunk, Clamped(k))
      modifies this`mem, this`lists, this`live, heads, bits
      ensures Valid() && Keeps(old(bits[..]), old(Free()), bits[..], Free(), base, pages)
      ensures old(BitsAgree()) ==> BitsAgree()
      ensures chunk == 0 || size == 0 ==> mem == old(mem) && lists == old(lists) && live == old(live)
      ensures chunk == 0 || size == 0 ==> heads[..] == old(heads[..]) && bits[..] == old(bits[..])
      ensures chunk != 0 && size != 0 ==>
        freed.addr == chunk && (exists k :: IsOrderOf(k, size) && freed.order == Clamped(k))
      ensures chunk != 0 && size != 0 ==> freed in old(live) && live == old(live) - {freed}
      ensures chunk != 0 && size != 0 ==> forall p: nat :: Covered(Free(), p) <==>
        Covered(old(Free()), p) || Covers(freed, p)
      ensures chunk != 0 && size != 0 ==> old(Mergeable(bits[..], Free(), base, pages, freed.addr, freed.order))
      ensures chunk != 0 && size != 0 ==>
        merged == old(MergedBlock(bits[..], Free(), base, pages, freed.addr, freed.order))
      ensures chunk != 0 && size != 0 && freed.order < MAX_ORDER ==>
        Flipped(old(bits[..]), bits[..], old(Toggles(bits[..], Free(), base, pages, freed.addr, freed.order)))
      ensures chunk != 0 && size != 0 && freed.order == MAX_ORDER ==>
        base <= chunk && Flipped(old(bits[..]), bits[..], {Pos(base, pages, chunk, MAX_ORDER)})
      ensures chunk != 0 && size != 0 ==> merged in Free() && Inside(freed, merged)
      ensures chunk != 0 && size != 0 ==> forall c :: c in Free() <==>
        c == merged || (c in old(Free()) && Apart(c, merged))
      ensures chunk != 0 && size != 0 ==> merged.order < |lists| && |lists[merged.order]| > 0
      ensures chunk != 0 && size != 0 ==> lists[merged.order][0] == merged.addr
      ensures chunk != 0 && size != 0 ==>
        Thinned(old(lists), lists[merged.order := lists[merged.order][1..]], merged.order)
      ensures chunk != 0 && size != 0 && old(AncestorsAgree(bits[..], Free(), base, pages, chunk, freed.order)) ==>
        merged.order == MAX_ORDER || !BuddyIsFree(Free(), merged)
      ensures old(BitsAgree() && Coalesced(Free())) && WholeRegion(base, pages) ==> Coalesced(Free())
    {
      hide Thinned, Tiled, Aligned, Chains, Pow2, Coalesced, Agrees, AncestorsAgree, Keeps, FreeSet, Pos, IsOrderOf,
        Apart, Inside, Mergeable, MergedBlock, Toggles, Flipped, WholeRegion, BuddyIsFree, Covered, Covers;
      freed, merged := Block(0, 0), Block(0, 0);
      ghost var free0, live0, bits0 := Free(), live, bits[..];
      KeepsSelf(bits0, free0, base, pages);
      if chunk == 0 || size == 0 { return; }
      var order := OrderOf(size);
      ghost var asked :| IsOrderOf(asked, size) && Block(chunk, Clamped(asked)) in live &&
                         Mergeable(bits[..], Free(), base, pages, chunk, Clamped(asked));
      OrderUnique(order, asked, size);
      if order > MAX_ORDER { order := MAX_ORDER; }
      freed := Block(chunk, order);
      merged := PutBack(chunk, order);
      if Agrees(bits0, free0, base, pages) { KeepsAgreement(bits0, free0, bits[..], Free(), base, pages); }
    }

    /** The rest of the call: coalescing and insertion. */
    method PutBack(chunk: nat, order: nat) returns (ghost merged: Block)
      requires Valid() && Block(chunk, order) in live && order <= MAX_ORDER
      requires Mergeable(bits[..], Free(), base, pages, chunk, order)
      modifies this`mem, this`lists, this`live, heads, bits
      ensures Valid() && Keeps(old(bits[..]), old(Free()), bits[..], Free(), base, pages)
      ensures live == old(live) - {Block(chunk, order)}
      ensures forall p: nat :: Covered(Free(), p) <==> Covered(old(Free()), p) || Covers(Block(chunk, order), p)
      ensures merged == old(MergedBlock(bits[..], Free(), base, pages, chunk, order))
      ensures order < MAX_ORDER ==>
        Flipped(old(bits[..]), bits[..], old(Toggles(bits[..], Free(), base, pages, chunk, order)))
      ensures order == MAX_ORDER ==>
        base <= chunk && Flipped(old(bits[..]), bits[..], {Pos(base, pages, chunk, MAX_ORDER)})
      ensures merged in Free() && Inside(Block(chunk, order), merged)
      ensures forall c :: c in Free() <==> c == merged || (c in old(Free()) && Apart(c, merged))
      ensures merged.order < |lists| && |lists[merged.order]| > 0 && lists[merged.order][0] == merged.addr
      ensures Thinned(old(lists), lists[merged.order := lists[merged.order][1..]], merged.order)
      ensures old(AncestorsAgree(bits[..], Free(), base, pages, chunk, order)) ==>
        merged.order == MAX_ORDER || !BuddyIsFree(Free(), merged)
      ensures old(BitsAgree() && Coalesced(Free())) && WholeRegion(base, pages) ==> Coalesced(Free())
    {
      hide Thinned, Tiled, Aligned, Chains, Pow2, Coalesced, Agrees, AncestorsAgree, Keeps, FreeSet, Pos, Apart, Inside,
        Mergeable, MergedBlock, Toggles, Flipped, WholeRegion, BuddyIsFree, Covered, Covers;
      ghost var free0, live0, bits0 := Free(), live, bits[..];
      KeepsSelf(bits0, free0, base, pages);
      InRegion(Free(), live, base, pages, Block(chunk, order));
      if order == MAX_ORDER { ToggleTop(chunk); }
      if Agrees(bits0, free0, base, pages) && WholeRegion(base, pages) {
        AllAncestors(bits0, free0, base, pages, chunk, order);
      }
      ghost var bits1 := bits[..];
      var block, o := CoalesceUp(chunk, order);
      merged := Block(block, o);
      if order == MAX_ORDER { SameBits(bits1, bits[..]); }
      KeepsTrans(bits0, free0, bits1, free0, bits[..], Free() + {merged}, base, pages);
      StartApart(Free(), live, base, pages, merged);
      if !BuddyIsFree(Free(), merged) { NotItsOwnBuddy(Free(), merged); }
      ghost var lists1 := lists;
      ElevenLists(mem, heads[..], lists);
      Insert(block, o);
      PushedOnce(lists1, o, block);
      assert live == live0 - {Block(chunk, order)};
      FreedPages(free0, live0, Free(), Block(chunk, order), base, pages);
      if Agrees(bits0, free0, base, pages) && WholeRegion(base, pages) && Coalesced(free0) {
        StillCoalesced(free0, Free(), live, base, pages, merged);
      }
    }

    /** A block of the top order has no buddy; its bit is toggled all the same. */
    method ToggleTop(chunk: nat)
      requires Valid() && Block(chunk, MAX_ORDER) in live
      requires Mergeable(bits[..], Free(), base, pages, chunk, MAX_ORDER)
      modifies bits
      ensures Valid() && Keeps(old(bits[..]), Free(), bits[..], Free(), base, pages)
      ensures Mergeable(bits[..], Free(), base, pages, chunk, MAX_ORDER)
      ensures MergedBlock(bits[..], Free(), base, pages, chunk, MAX_ORDER) == Block(chunk, MAX_ORDER)
      ensures old(MergedBlock(bits[..], Free(), base, pages, chunk, MAX_ORDER)) == Block(chunk, MAX_ORDER)
      ensures base <= chunk && Flipped(old(bits[..]), bits[..], {Pos(base, pages, chunk, MAX_ORDER)})
      ensures Toggles(bits[..], Free(), base, pages, chunk, MAX_ORDER) == {}
    {
      hide Tiled, Aligned, Chains, Pow2, Keeps, FreeSet, Pos, Mergeable, MergedBlock, Toggles, AncestorsAgree;
      ghost var bits0 := bits[..];
      InRegion(Free(), live, base, pages, Block(chunk, MAX_ORDER));
      TopToggle(Free(), live, bits[..], base, pages, chunk);
      var _ := Toggle(chunk, MAX_ORDER);
      TopWay(bits0, bits[..], Free(), base, pages, chunk);
      AtTop(bits[..], Free(), base, pages, chunk);
    }
  }

  function Clamped(k: nat): nat { if k > MAX_ORDER then MAX_ORDER else k }

  /** The buddy's address: flipping bit `k` of the page number adds or subtracts 2^k. */
  function Sibling(a: nat, k: nat): (b: nat)
    requires k < MAX_ORDER && Aligned(a, k)
    ensures b == BuddyOf(a, k)
  {
    if a % Pow2(k + 1) == 0 then a + Pow2(k) else (OddHalf(a, k); a - Pow2(k))
  }

  /** On machine words: `^` with a bit adds that bit where it is clear ... */
  lemma {:induction false} XorSetsClearBit(x: bv64, bit: bv64)
    requires x & bit == 0
    ensures x ^ bit == x + bit
  {
  }

  /** ... and subtracts it where it is set. */
  lemma {:induction false} XorClearsSetBit(x: bv64, bit: bv64)
    requires x & bit == bit
    ensures x ^ bit == x - bit
  {
  }

  ghost predicate BuddyIsFree(free: set<Block>, b: Block)
  {
    b.order < MAX_ORDER && Aligned(b.addr, b.order) && Block(BuddyOf(b.addr, b.order), b.order) in free
  }

  // ----- Lemmas about buddy_kfree

  /** The toggle for a block of the top order. */
  lemma {:induction false} TopToggle(free: set<Block>, live: set<Block>, bits: seq<bool>, base: nat, n: nat, a: nat)
    requires Tiled(free + live, base, n) && Block(a, MAX_ORDER) in live && |bits| == n
    ensures base <= a && Pos(base, n, a, MAX_ORDER) < n
    ensures Keeps(bits, free, Toggled(bits, Pos(base, n, a, MAX_ORDER)), free, base, n)
  {
    hide Keeps, Pos, Aligned, Pow2;
    assert Block(a, MAX_ORDER) in free + live;
    TopKeeps(bits, free, free, base, n, a);
  }

  /** Exactly the bits at `at` changed. */
  ghost predicate Flipped(bits: seq<bool>, bits': seq<bool>, at: set<nat>)
  {
    |bits'| == |bits| && forall i :: 0 <= i < |bits| ==> bits'[i] == (bits[i] != (i in at))
  }

  lemma {:induction false} ElevenLists(mem: Memory, heads: seq<nat>, lists: seq<seq<nat>>)
    requires Chains(mem, heads, lists)
    ensures |lists| == MAX_ORDER + 1
  {
  }

  lemma {:induction false} PushedOnce(lists: seq<seq<nat>>, o: nat, a: nat)
    requires o < |lists|
    ensures var l := lists[o := [a] + lists[o]]; l[o := l[o][1..]] == lists
  {
  }

  lemma {:induction false} SameBits(bits: seq<bool>, bits': seq<bool>)
    requires Flipped(bits, bits', {})
    ensures bits' == bits
  {
  }

  lemma {:induction false} NothingFlipped(bits: seq<bool>)
    ensures Flipped(bits, bits, {})
  {
  }

  lemma {:induction false} FlippedNext(bits: seq<bool>, bits1: seq<bool>, done: set<nat>, p: nat)
    requires Flipped(bits, bits1, done) && p < |bits1| && p !in done
    ensures Flipped(bits, Toggled(bits1, p), done + {p})
  {
  }

  /** What the next step up reads. */
  lemma {:induction false} WayUp(free: set<Block>, live: set<Block>, bits: seq<bool>, base: nat, n: nat, a: nat, k: nat)
    requires Tiled(free + live, base, n) && Block(a, k) in live && k < MAX_ORDER
    requires |bits| == n && Mergeable(bits, free, base, n, a, k)
    ensures base <= a && a + Pow2(k) <= base + n && Aligned(a, k) && Pos(base, n, a, k) < n
    ensures WholePair(base, n, PairOf(a, k), k) && Pos(base, n, a, k) in Toggles(bits, free, base, n, a, k)
    ensures bits[Pos(base, n, a, k)] ==> Block(BuddyOf(a, k), k) in free
    ensures !bits[Pos(base, n, a, k)] ==> MergedBlock(bits, free, base, n, a, k) == Block(a, k)
    ensures !bits[Pos(base, n, a, k)] ==> Toggles(bits, free, base, n, a, k) == {Pos(base, n, a, k)}
  {
    hide Pos;
    assert Block(a, k) in free + live;
    PosInside(base, n, a, k);
    PosOfPair(base, n, a, k);
  }

  /** After a merge the way up is the rest of the way. */
  lemma {:induction false} NextUp(bits: seq<bool>, free: set<Block>, base: nat, n: nat, a: nat, k: nat)
    requires |bits| == n && k < MAX_ORDER && Mergeable(bits, free, base, n, a, k) && Aligned(a, k)
    requires base <= a && Pos(base, n, a, k) < n && bits[Pos(base, n, a, k)]
    ensures var bits', free' := Toggled(bits, Pos(base, n, a, k)), free - {Block(BuddyOf(a, k), k)};
            && Mergeable(bits', free', base, n, PairOf(a, k), k + 1)
            && MergedBlock(bits', free', base, n, PairOf(a, k), k + 1) == MergedBlock(bits, free, base, n, a, k)
            && Pos(base, n, a, k) !in Toggles(bits', free', base, n, PairOf(a, k), k + 1)
            && Toggles(bits, free, base, n, a, k) ==
               {Pos(base, n, a, k)} + Toggles(bits', free', base, n, PairOf(a, k), k + 1)
  {
    hide Pos, SameAbove;
    PosOfPair(base, n, a, k);
    ToggleBelow(bits, free, base, n, PairOf(a, k), k, Block(BuddyOf(a, k), k));
    SameWayUp(bits, free, Toggled(bits, Pos(base, n, a, k)), free - {Block(BuddyOf(a, k), k)}, base, n, PairOf(a, k),
      k + 1);
    ToggledOnce(bits, free, base, n, PairOf(a, k), k, PairOf(a, k));
  }

  lemma {:induction false} AtTop(bits: seq<bool>, free: set<Block>, base: nat, n: nat, a: nat)
    requires |bits| == n && Mergeable(bits, free, base, n, a, MAX_ORDER)
    ensures MergedBlock(bits, free, base, n, a, MAX_ORDER) == Block(a, MAX_ORDER)
    ensures Toggles(bits, free, base, n, a, MAX_ORDER) == {}
  {
  }

  lemma {:induction false} TopWay(bits: seq<bool>, bits': seq<bool>, free: set<Block>, base: nat, n: nat, a: nat)
    requires |bits| == |bits'| == n && Mergeable(bits, free, base, n, a, MAX_ORDER)
    ensures Mergeable(bits', free, base, n, a, MAX_ORDER)
    ensures MergedBlock(bits', free, base, n, a, MAX_ORDER) == MergedBlock(bits, free, base, n, a, MAX_ORDER)
  {
  }

  /** The toggled bit tells whether the buddy of a live block is free. */
  lemma {:induction false} BitTells(free: set<Block>, live: set<Block>, bits: seq<bool>, base: nat, n: nat, a: nat,
                                    k: nat)
    requires Tiled(free + live, base, n) && free !! live && Block(a, k) in live && k < MAX_ORDER
    requires |bits| == n && AncestorsAgree(bits, free, base, n, a, k)
    ensures base <= a && a + Pow2(k) <= base + n && Aligned(a, k) && Pos(base, n, a, k) < n
    ensures WholePair(base, n, PairOf(a, k), k)
    ensures bits[Pos(base, n, a, k)] <==> Block(BuddyOf(a, k), k) in free
  {
    hide Pos, Around;
    assert Block(a, k) in free + live;
    PosInside(base, n, a, k);
    AroundIsPair(a, k);
    assert PairAgrees(bits, free, base, n, Around(a, k), k);
    PosOfPair(base, n, a, k);
  }

  lemma {:induction false} StartApart(free: set<Block>, live: set<Block>, base: nat, n: nat, b: Block)
    requires Tiled(free + live, base, n) && free !! live && b in live
    ensures b.order <= MAX_ORDER && Inside(b, b) && KeptApart(free, free, b)
  {
    assert b in free + live;
    forall c | c in free ensures Apart(c, b) { assert c in free + live; }
  }

  lemma {:induction false} NotFree(free: set<Block>, a: nat, k: nat)
    requires k < MAX_ORDER && Aligned(a, k) && Block(BuddyOf(a, k), k) !in free
    ensures !BuddyIsFree(free, Block(a, k))
  {
  }

  lemma {:induction false} NotItsOwnBuddy(free: set<Block>, b: Block)
    requires !BuddyIsFree(free, b)
    ensures !BuddyIsFree(free + {b}, b)
  {
  }

  /** The toggle already counts the block as free. */
  lemma {:induction false} EnterKeeps(free: set<Block>, live: set<Block>, bits: seq<bool>, base: nat, n: nat, a: nat,
                                      k: nat)
    requires Aligned(base, MAX_ORDER) && Tiled(free + live, base, n) && free !! live && Block(a, k) in live
    requires |bits| == n && k < MAX_ORDER && Aligned(a, k) && WholePair(base, n, PairOf(a, k), k)
    ensures base <= a && Pos(base, n, a, k) < n
    ensures Keeps(bits, free, Toggled(bits, Pos(base, n, a, k)), free + {Block(a, k)}, base, n)
  {
    hide Keeps, Pos, WholePair, Aligned, Pow2;
    assert Block(a, k) in free + live;
    FlipKeeps(bits, free, free + {Block(a, k)}, base, n, a, k);
  }

  /** The toggle already counts the buddy as taken off its list. */
  lemma {:induction false} LeaveKeeps(free: set<Block>, live: set<Block>, bits: seq<bool>, base: nat, n: nat, a: nat,
                                      k: nat)
    requires Aligned(base, MAX_ORDER) && Tiled(free + live, base, n) && Block(a, k) in live && |bits| == n
    requires k < MAX_ORDER && Aligned(a, k) && WholePair(base, n, PairOf(a, k), k) && Block(BuddyOf(a, k), k) in free
    ensures base <= a && Pos(base, n, a, k) < n
    ensures Keeps(bits, free, Toggled(bits, Pos(base, n, a, k)), free - {Block(BuddyOf(a, k), k)}, base, n)
  {
    hide Keeps, Pos, WholePair;
    var b := BuddyOf(a, k);
    assert Block(b, k) in free + live && Block(a, k) in free + live;
    AlignedHalves(PairOf(a, k), k);
    PairUnique(b, k, PairOf(a, k));
    FlipKeeps(bits, free, free - {Block(b, k)}, base, n, b, k);
    PosOfPair(base, n, a, k);
    PosOfPair(base, n, b, k);
  }

  lemma {:induction false} TopInserted(free: set<Block>, live: set<Block>, bits: seq<bool>, base: nat, n: nat, a: nat)
    requires Tiled(free + live, base, n) && Block(a, MAX_ORDER) in live && |bits| == n
    ensures Keeps(bits, free, bits, free + {Block(a, MAX_ORDER)}, base, n)
  {
    hide Keeps, Pos, Aligned, Pow2;
    assert Block(a, MAX_ORDER) in free + live;
    TopKeeps(bits, free, free + {Block(a, MAX_ORDER)}, base, n, a);
  }

  /** Merging a live block with its free buddy. */
  lemma {:induction false} MergeStep(free: set<Block>, live: set<Block>, base: nat, n: nat, a: nat, k: nat)
    requires Tiled(free + live, base, n) && free !! live && Block(a, k) in live && k < MAX_ORDER
    requires Aligned(a, k) && Block(BuddyOf(a, k), k) in free
    ensures var m := Block(PairOf(a, k), k + 1);
            var f, l := free - {Block(BuddyOf(a, k), k)}, live - {Block(a, k)} + {m};
            m !in free && m !in live && f !! l && Tiled(f + l, base, n)
  {
    var m := Block(PairOf(a, k), k + 1);
    assert {Block(a, k), Block(BuddyOf(a, k), k)} == {Lower(m), Upper(m)};
    assert Lower(m) in free + live && Upper(m) in free + live;
    MergeTiling(free + live, base, n, m);
    var f, l := free - {Block(BuddyOf(a, k), k)}, live - {Block(a, k)} + {m};
    assert f + l == free + live - {Lower(m), Upper(m)} + {m};
  }

  ghost predicate KeptApart(free0: set<Block>, free: set<Block>, cur: Block)
  {
    forall c :: c in free <==> c in free0 && Apart(c, cur)
  }

  lemma {:induction false} MergeKeepsApart(free0: set<Block>, free: set<Block>, live: set<Block>, base: nat, n: nat,
                                           a: nat, k: nat)
    requires Tiled(free + live, base, n) && free !! live && Block(a, k) in live && k < MAX_ORDER
    requires Aligned(a, k) && Block(BuddyOf(a, k), k) in free && KeptApart(free0, free, Block(a, k))
    ensures KeptApart(free0, free - {Block(BuddyOf(a, k), k)}, Block(PairOf(a, k), k + 1))
    ensures Inside(Block(a, k), Block(PairOf(a, k), k + 1))
  {
    var b, m := Block(BuddyOf(a, k), k), Block(PairOf(a, k), k + 1);
    assert {a, BuddyOf(a, k)} == {PairOf(a, k), PairOf(a, k) + Pow2(k)};
    assert Pow2(k + 1) == 2 * Pow2(k);
    assert b in free + live;
    forall c ensures c in free - {b} <==> c in free0 && Apart(c, m) {
      if c in free - {b} { assert c in free + live && Apart(c, b) && Apart(c, Block(a, k)); }
    }
  }

  lemma {:induction false} InsideTrans(a: Block, b: Block, c: Block)
    requires Inside(a, b) && Inside(b, c)
    ensures Inside(a, c)
  {
  }

  lemma {:induction false} LiveUnlisted(lists: seq<seq<nat>>, live: set<Block>, base: nat, n: nat, b: Block)
    requires FreeSet(lists) !! live && Tiled(FreeSet(lists) + live, base, n) && b in live
    ensures !Listed(lists, b.addr)
  {
    forall k: nat | k < |lists| ensures b.addr !in lists[k] {
      FreeMember(lists, Block(b.addr, k));
      if b.addr in lists[k] {
        StartsDiffer(FreeSet(lists) + live, base, n, b, Block(b.addr, k));
      }
    }
  }

  lemma {:induction false} StillCoalesced(free0: set<Block>, free: set<Block>, live: set<Block>, base: nat, n: nat,
                                          m: Block)
    requires Coalesced(free0) && Tiled(free + live, base, n) && m in free
    requires forall c :: c in free ==> c == m || c in free0
    requires m.order == MAX_ORDER || !BuddyIsFree(free, m)
    ensures Coalesced(free)
  {
    assert m in free + live;
    forall a: nat, k: nat | k < MAX_ORDER && Aligned(a, k + 1) && Block(a, k) in free
      ensures Block(a + Pow2(k), k) !in free
    {
      AlignedHalves(a, k);
      if m == Block(a, k) || m == Block(a + Pow2(k), k) {
        assert BuddyOf(m.addr, k) == if m.addr == a then a + Pow2(k) else a;
      }
    }
  }

  lemma {:induction false} FreedPages(free0: set<Block>, live0: set<Block>, free: set<Block>, b: Block, base: nat,
                                      n: nat)
    requires free0 !! live0 && Tiled(free0 + live0, base, n) && b in live0
    requires free !! (live0 - {b}) && Tiled(free + (live0 - {b}), base, n)
    ensures forall p: nat :: Covered(free, p) <==> Covered(free0, p) || Covers(b, p)
  {
    FreeIsNotLive(free0, live0, base, n);
    FreeIsNotLive(free, live0 - {b}, base, n);
    assert b in free0 + live0;
    forall p: nat ensures Covered(live0, p) <==> Covered(live0 - {b}, p) || Covers(b, p) {
      if Covered(live0, p) && !Covers(b, p) {
        var c :| c in live0 && Covers(c, p);
        assert c in live0 - {b};
      }
    }
    forall p: nat | Covers(b, p) ensures !Covered(live0 - {b}, p) {
      forall c | c in live0 - {b} ensures !Covers(c, p) { assert c in free0 + live0; }
    }
  }

  // ----- Lemmas about buddy_kalloc

  lemma {:induction false} InRegion(free: set<Block>, live: set<Block>, base: nat, n: nat, b: Block)
    requires Tiled(free + live, base, n) && b in live
    ensures b.order <= MAX_ORDER && base <= b.addr && b.addr + Pow2(b.order) <= base + n
  {
    assert b in free + live;
  }

  lemma {:induction false} TooLarge(free: set<Block>, live: set<Block>, base: nat, n: nat, size: nat, k: nat)
    requires Tiled(free + live, base, n) && IsOrderOf(k, size) && k > MAX_ORDER
    ensures !(exists b :: b in free && size <= Pow2(b.order) * 0x1000)
  {
    forall b | b in free ensures Pow2(b.order) * 0x1000 < size {
      assert b in free + live;
      Pow2Monotone(b.order, k - 1);
    }
  }

  lemma {:induction false} NoneLargeEnough(lists: seq<seq<nat>>, size: nat, k: nat)
    requires IsOrderOf(k, size) && forall j :: k <= j < |lists| ==> lists[j] == []
    ensures !(exists b :: b in FreeSet(lists) && size <= Pow2(b.order) * 0x1000)
  {
    forall b | b in FreeSet(lists) ensures Pow2(b.order) * 0x1000 < size {
      FreeMember(lists, b);
      Pow2Monotone(b.order, k - 1);
    }
  }

  lemma {:induction false} FirstIsLeast(lists: seq<seq<nat>>, k: nat, i: nat)
    requires |lists| == MAX_ORDER + 1 && k <= i <= MAX_ORDER && forall j :: k <= j < i ==> lists[j] == []
    ensures forall b :: b in FreeSet(lists) ==> b.order < k || i <= b.order <= MAX_ORDER
  {
    forall b | b in FreeSet(lists) ensures b.order < k || i <= b.order <= MAX_ORDER { FreeMember(lists, b); }
  }

  lemma {:induction false} LargeEnough(free: set<Block>, live: set<Block>, size: nat, k: nat, i: nat, chunk: nat)
    requires IsOrderOf(k, size) && k <= i && Block(chunk, i) in free
    ensures exists b :: b in free && size <= Pow2(b.order) * 0x1000
  {
    Pow2Monotone(k, i);
    assert size <= Pow2(Block(chunk, i).order) * 0x1000;
  }

  /** No block starts where the upper half of a live block does. */
  lemma {:induction false} UpperUnlisted(lists: seq<seq<nat>>, live: set<Block>, base: nat, n: nat, b: Block)
    requires FreeSet(lists) !! live && Tiled(FreeSet(lists) + live, base, n) && b in live && b.order > 0
    ensures !Listed(lists, Upper(b).addr)
  {
    var blocks := FreeSet(lists) + live;
    SplitTiling(blocks, base, n, b);
    forall k: nat | k < |lists| ensures Upper(b).addr !in lists[k] {
      FreeMember(lists, Block(Upper(b).addr, k));
      if Upper(b).addr in lists[k] {
        StartsDiffer(blocks - {b} + {Lower(b), Upper(b)}, base, n, Upper(b), Block(Upper(b).addr, k));
      }
    }
  }

  lemma {:induction false} SplitStep(free: set<Block>, live: set<Block>, base: nat, n: nat, b: Block)
    requires free !! live && Tiled(free + live, base, n) && b in live && b.order > 0
    ensures Upper(b) !in free && Lower(b) !in live
    ensures var f, l := free + {Upper(b)}, live - {b} + {Lower(b)};
            f !! l && Tiled(f + l, base, n)
  {
    SplitTiling(free + live, base, n, b);
    var f, l := free + {Upper(b)}, live - {b} + {Lower(b)};
    assert f + l == free + live - {b} + {Lower(b), Upper(b)};
  }

  lemma {:induction false} CarvedStep(free: set<Block>, a: nat, level: nat, idx: nat)
    requires 0 < level <= idx
    ensures Carved(free, a, level - 1, idx) == Carved(free, a, level, idx) + {Block(a + Pow2(level - 1), level - 1)}
  {
  }

  lemma {:induction false} CarvedStart(free: set<Block>, a: nat, idx: nat)
    ensures Carved(free, a, idx, idx) == free - {Block(a, idx)}
  {
  }

  /** At an order that was split, the lower half of the split pair is not on the list. */
  lemma {:induction false} LowerNotFree(free: set<Block>, live: set<Block>, base: nat, n: nat, a: nat, order: nat,
                                        idx: nat, c: nat, k: nat)
    requires Tiled(free + live, base, n) && Block(a, idx) in free && order <= k < idx && k < MAX_ORDER
    requires Aligned(c, k + 1) && Block(c, k) in Carved(free, a, order, idx)
    ensures Block(c, k) in free && c != a
  {
    assert Block(a, idx) in free + live && Block(c, k) in free + live + {Block(a + Pow2(k), k)};
    Pow2Monotone(k, idx);
    AlignedDown(a, k + 1, idx);
    AlignedHalves(a, k);
    assert Block(c, k) in free + live;
  }

  /** Splitting leaves no pair free as a whole. */
  lemma {:induction false} CarvedCoalesced(free: set<Block>, live: set<Block>, base: nat, n: nat, a: nat,
                                           order: nat, idx: nat)
    requires Tiled(free + live, base, n) && Coalesced(free) && Block(a, idx) in free && order <= idx
    ensures Coalesced(Carved(free, a, order, idx))
  {
    hide Aligned;
    var after := Carved(free, a, order, idx);
    assert Block(a, idx) in free + live;
    forall c: nat, k: nat | k < MAX_ORDER && Aligned(c, k + 1) && Block(c, k) in after
      ensures Block(c + Pow2(k), k) !in after
    {
      if order <= k < idx { LowerNotFree(free, live, base, n, a, order, idx, c, k); }
    }
  }

  lemma {:induction false} HeadIsFirst(mem: Memory, heads: seq<nat>, lists: seq<seq<nat>>, k: nat)
    requires Chains(mem, heads, lists) && k <= MAX_ORDER
    ensures heads[k] == 0 <==> lists[k] == []
    ensures lists[k] != [] ==> heads[k] == lists[k][0] && heads[k] in mem
  {
    if lists[k] != [] { assert Joined(mem, lists[k], 0); }
  }

  method OrderOffsets(n: nat) returns (offsets: seq<nat>)
    ensures |offsets| == MAX_ORDER + 1 && forall k: nat :: k <= MAX_ORDER ==> offsets[k] == Offset(n, k)
  {
    offsets := [0];
    var k := 1;
    while k <= MAX_ORDER
      invariant 1 <= k <= MAX_ORDER + 1 && |offsets| == k
      invariant forall j: nat :: j < k ==> offsets[j] == Offset(n, j)
    {
      offsets := offsets + [offsets[k - 1] + n / Pow2(k)];
      k := k + 1;
    }
  }

  /** At most one block of each order below the top: no pair is free as a whole. */
  lemma {:induction false} InitialCoalesced(base: nat, n: nat, counts: seq<nat>, lists: seq<seq<nat>>)
    requires Aligned(base, MAX_ORDER) && |counts| == |lists| == MAX_ORDER + 1
    requires forall k: nat :: k <= MAX_ORDER ==> counts[k] == Count(Greedy(base, n), k) == |lists[k]|
    ensures Coalesced(FreeSet(lists))
  {
    hide Aligned, Pow2;
    GreedyDescends(base, n, MAX_ORDER);
    forall a: nat, k: nat | k < MAX_ORDER && Aligned(a, k + 1) && Block(a, k) in FreeSet(lists)
      ensures Block(a + Pow2(k), k) !in FreeSet(lists)
    {
      FewBelowTop(Greedy(base, n), k);
      FreeMember(lists, Block(a, k));
      FreeMember(lists, Block(a + Pow2(k), k));
      OneElement(lists[k], a, a + Pow2(k));
    }
  }

  lemma {:induction false} OneElement(l: seq<nat>, a: nat, b: nat)
    requires |l| <= 1 && a != b && a in l
    ensures b !in l
  {
  }

  /** In a whole region no block below the top order exists, as the zeroed bits say. */
  lemma {:induction false} InitialAgrees(base: nat, n: nat, bits: seq<bool>, counts: seq<nat>, lists: seq<seq<nat>>)
    requires WholeRegion(base, n) && |counts| == |lists| == MAX_ORDER + 1 && |bits| == n
    requires forall k: nat :: k <= MAX_ORDER ==> counts[k] == Count(Greedy(base, n), k) == |lists[k]|
    requires forall i :: 0 <= i < 8 * (n / 8) ==> !bits[i]
    ensures Agrees(bits, FreeSet(lists), base, n)
  {
    GreedyWhole(base, n);
    AlignedDown(n, 3, MAX_ORDER);
    assert Pow2(3) == 8;
    forall a: nat, k: nat | WholePair(base, n, a, k) ensures PairAgrees(bits, FreeSet(lists), base, n, a, k) {
      PairInside(base, n, a, k);
      NoneOf(Greedy(base, n), k);
      FreeMember(lists, Block(a, k));
      FreeMember(lists, Block(a + Pow2(k), k));
    }
  }
}
