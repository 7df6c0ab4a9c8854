/** phys_kmalloc.c, __init_buddy: the greedy pass that counts the blocks of each order, and the pass
    that lays the counted blocks out from the largest order to the smallest. */
module BuddyInit {
  import opened Common
  import opened BuddyBlocks
  import opened BuddyLists
  import opened BuddyPairs

  // ----- The greedy sequence of orders

  /** The largest order up to `k` whose block fits into `rem` pages and may start at `addr`. */
  ghost function Pick(addr: nat, rem: nat, k: nat): (o: nat)
    requires rem > 0
    ensures o <= k && Pow2(o) <= rem && Aligned(addr, o)
    ensures forall j :: o < j <= k ==> Pow2(j) > rem || !Aligned(addr, j)
  {
    if k == 0 || (Pow2(k) <= rem && Aligned(addr, k)) then k else Pick(addr, rem, k - 1)
  }

  ghost function Greedy(addr: nat, rem: nat): seq<nat>
    decreases rem
  {
    if rem == 0 then []
    else
      var k := Pick(addr, rem, MAX_ORDER);
      [k] + Greedy(addr + Pow2(k), rem - Pow2(k))
  }

  ghost function Sum(orders: seq<nat>): nat
  {
    if orders == [] then 0 else Pow2(orders[0]) + Sum(orders[1..])
  }

  ghost function Count(orders: seq<nat>, k: nat): nat
  {
    if orders == [] then 0 else (if orders[0] == k then 1 else 0) + Count(orders[1..], k)
  }

  /** The blocks that a sequence of orders cuts out of memory from `addr` on. */
  ghost function Placed(addr: nat, orders: seq<nat>): set<Block>
    decreases |orders|
  {
    if orders == [] then {} else {Block(addr, orders[0])} + Placed(addr + Pow2(orders[0]), orders[1..])
  }

  /** Never increasing, and strictly decreasing below the top order. */
  ghost predicate Descends(orders: seq<nat>)
  {
    forall i, j :: 0 <= i < j < |orders| ==> orders[j] < orders[i] || orders[i] == orders[j] == MAX_ORDER
  }

  ghost predicate AtMost(orders: seq<nat>, k: int) { forall i :: 0 <= i < |orders| ==> orders[i] <= k }

  lemma {:induction false} DescendsCons(k: nat, rest: seq<nat>)
    requires k <= MAX_ORDER && Descends(rest) && AtMost(rest, if k == MAX_ORDER then k else k - 1)
    ensures Descends([k] + rest) && AtMost([k] + rest, k) && Sum([k] + rest) == Pow2(k) + Sum(rest)
  {
    var g := [k] + rest;
    assert g[1..] == rest;
    assert forall i :: 0 < i < |g| ==> g[i] == rest[i - 1];
  }

  lemma {:induction false} EmptyDescends()
    ensures Descends([])
  {
  }

  lemma {:induction false} SizeZero()
    ensures Pow2(0) == 1
  {
  }

  lemma {:induction false} CountEmpty()
    ensures forall k: nat :: Count([], k) == 0
  {
  }

  lemma {:induction false} SizeDouble(k: nat)
    ensures Pow2(k + 1) == 2 * Pow2(k)
  {
  }

  /** The pick from a start aligned to `top` is bounded by `top` and leaves less than itself. */
  lemma {:induction false} PickBound(addr: nat, rem: nat, top: nat)
    requires rem > 0 && top <= MAX_ORDER && Aligned(addr, top) && (top < MAX_ORDER ==> rem < Pow2(top + 1))
    ensures var k := Pick(addr, rem, MAX_ORDER);
            k <= top && 0 < Pow2(k) <= rem && Aligned(addr + Pow2(k), k) && (k < MAX_ORDER ==> rem - Pow2(k) < Pow2(k))
  {
    hide Pow2, Aligned;
    var k := Pick(addr, rem, MAX_ORDER);
    SizeDouble(k);
    if k > top { Pow2Monotone(top + 1, k); }
    if k < top { AlignedDown(addr, k + 1, top); }
    AlignedNext(addr, k);
  }

  /** From an aligned start the greedy orders descend and use up exactly the remaining pages. */
  lemma {:induction false} GreedyDescends(addr: nat, rem: nat, top: nat)
    requires top <= MAX_ORDER && Aligned(addr, top) && (top < MAX_ORDER ==> rem < Pow2(top + 1))
    ensures Descends(Greedy(addr, rem)) && AtMost(Greedy(addr, rem), top) && Sum(Greedy(addr, rem)) == rem
    decreases rem
  {
    hide Pow2, Aligned, Descends, Pick;
    if rem == 0 {
      EmptyDescends();
    } else {
      var k := Pick(addr, rem, MAX_ORDER);
      PickBound(addr, rem, top);
      var next, left := addr + Pow2(k), rem - Pow2(k);
      if k == MAX_ORDER {
        GreedyDescends(next, left, k);
      } else if k == 0 {
        SizeZero();
        GreedyDescends(next, left, 0);
        assert Greedy(next, left) == [];
      } else {
        AlignedDown(next, k - 1, k);
        GreedyDescends(next, left, k - 1);
      }
      assert Greedy(addr, rem) == [k] + Greedy(next, left);
      DescendsCons(k, Greedy(next, left));
    }
  }

  lemma {:induction false} WholeStep(rem: nat)
    requires rem > 0 && Aligned(rem, MAX_ORDER)
    ensures Pow2(MAX_ORDER) <= rem && Aligned(rem - Pow2(MAX_ORDER), MAX_ORDER)
  {
    var s := Pow2(MAX_ORDER);
    MultiplesApart(0, rem, s);
    Quotient(s, s, 1, 0);
    DifferenceAligned(rem, s, s);
  }

  /** A region of whole 4 MiB starts out as blocks of 1024 pages. */
  lemma {:induction false} WholeInit(base: nat, m: nat)
    requires base % 1024 == 0
    ensures Placed(base, Greedy(base, 1024 * m)) == TopRow(base, m)
    decreases m
  {
    hide Greedy, Pick, Pow2, TopRow;
    TopSize();
    if m == 0 {
      NoTopRow(base);
      assert Greedy(base, 0) == [] by { NothingGreedy(base); }
    } else {
      GreedyTop(base, 1024 * m);
      WholeInit(base + 1024, m - 1);
      var g := Greedy(base + 1024, 1024 * m - 1024);
      assert ([10] + g)[1..] == g;
      TopRowNext(base, m);
    }
  }

  lemma {:induction false} NoTopRow(base: nat)
    ensures TopRow(base, 0) == {}
  {
  }

  ghost function TopRow(base: nat, m: nat): set<Block> { set i: nat | i < m :: Block(base + 1024 * i, 10) }

  lemma {:induction false} TopRowNext(base: nat, m: nat)
    requires m > 0
    ensures TopRow(base, m) == {Block(base, 10)} + TopRow(base + 1024, m - 1)
  {
    forall b | b in TopRow(base, m) ensures b in {Block(base, 10)} + TopRow(base + 1024, m - 1) {
      var i: nat :| i < m && b == Block(base + 1024 * i, 10);
      if i > 0 { assert b == Block(base + 1024 + 1024 * (i - 1), 10); }
    }
    forall b | b in {Block(base, 10)} + TopRow(base + 1024, m - 1) ensures b in TopRow(base, m) {
      if b == Block(base, 10) {
        assert b == Block(base + 1024 * 0, 10);
      } else {
        var i: nat :| i < m - 1 && b == Block(base + 1024 + 1024 * i, 10);
        assert b == Block(base + 1024 * (i + 1), 10);
      }
    }
  }

  lemma {:induction false} TopSize()
    ensures MAX_ORDER == 10 && Pow2(10) == 1024
  {
    assert Pow2(5) == 32;
  }

  lemma {:induction false} NothingGreedy(addr: nat)
    ensures Greedy(addr, 0) == []
  {
  }

  lemma {:induction false} GreedyTop(addr: nat, rem: nat)
    requires addr % 1024 == 0 && rem >= 1024
    ensures Greedy(addr, rem) == [10] + Greedy(addr + 1024, rem - 1024)
  {
    hide Pow2;
    TopSize();
    assert Pick(addr, rem, MAX_ORDER) == 10;
  }

  /** In a region of whole top-order blocks every pick is of the top order. */
  lemma {:induction false} GreedyWhole(addr: nat, rem: nat)
    requires Aligned(addr, MAX_ORDER) && Aligned(rem, MAX_ORDER)
    ensures forall i :: 0 <= i < |Greedy(addr, rem)| ==> Greedy(addr, rem)[i] == MAX_ORDER
    decreases rem
  {
    hide Pow2, Aligned;
    if rem > 0 {
      var s := Pow2(MAX_ORDER);
      WholeStep(rem);
      AlignedNext(addr, MAX_ORDER);
      GreedyWhole(addr + s, rem - s);
      assert Greedy(addr, rem) == [MAX_ORDER] + Greedy(addr + s, rem - s);
    }
  }

  // ----- First pass

  lemma {:induction false} CountAppend(orders: seq<nat>, o: nat, k: nat)
    ensures Count(orders + [o], k) == Count(orders, k) + (if o == k then 1 else 0)
    decreases |orders|
  {
    if orders == [] {
      assert orders + [o] == [o];
      assert Count([o], k) == (if o == k then 1 else 0) + Count([], k);
    } else {
      assert (orders + [o])[1..] == orders[1..] + [o];
      CountAppend(orders[1..], o, k);
    }
  }

  /** The inner loop: the largest order whose block fits and whose size divides `addr`. */
  method FindOrder(addr: nat, rem: nat) returns (order: nat)
    requires rem > 0
    ensures order == Pick(addr, rem, MAX_ORDER)
  {
    order := MAX_ORDER;
    while !(Pow2(order) <= rem && addr % Pow2(order) == 0)
      invariant order <= MAX_ORDER && Pow2(order) > 0
      invariant Pick(addr, rem, MAX_ORDER) == Pick(addr, rem, order)
      decreases order
    {
      assert order > 0;
      order := order - 1;
    }
  }

  method CountOrders(base: nat, n: nat) returns (counts: seq<nat>)
    ensures |counts| == MAX_ORDER + 1
    ensures forall k: nat :: k < |counts| ==> counts[k] == Count(Greedy(base, n), k)
  {
    hide Pow2, Pick, Count, Aligned;
    counts := seq(MAX_ORDER + 1, _ => 0);
    var addr: nat, rem: nat := base, n;
    ghost var done: seq<nat> := [];
    CountEmpty();
    while rem >= 1
      invariant |counts| == MAX_ORDER + 1
      invariant done + Greedy(addr, rem) == Greedy(base, n)
      invariant forall k: nat :: k < |counts| ==> counts[k] == Count(done, k)
      decreases rem
    {
      var order := FindOrder(addr, rem);
      forall k: nat | k < |counts| ensures Count(done + [order], k) == Count(done, k) + (if order == k then 1 else 0) {
        CountAppend(done, order, k);
      }
      ghost var rest := Greedy(addr + Pow2(order), rem - Pow2(order));
      assert Greedy(addr, rem) == [order] + rest;
      assert done + ([order] + rest) == done + [order] + rest;
      done := done + [order];
      counts := counts[order := counts[order] + 1];
      addr := addr + Pow2(order);
      rem := rem - Pow2(order);
    }
    assert Greedy(addr, rem) == [] && done == Greedy(base, n);
  }

  // ----- Second pass

  /** `count` blocks of order `k` in a row. */
  ghost function Row(start: nat, k: nat, count: nat): seq<nat> { seq(count, i => start + i * Pow2(k)) }

  lemma {:induction false} RowApart(start: nat, k: nat, count: nat)
    ensures NoRepeats(Row(start, k, count))
    ensures forall i :: 0 <= i < count ==> start <= Row(start, k, count)[i]
  {
    hide Pow2;
    var l := Row(start, k, count);
    forall i: nat, j: nat | i < j < count ensures l[i] != l[j] { TimesOrder(i, j, Pow2(k)); }
    forall i: nat | i < count ensures start <= l[i] { if i > 0 { TimesOrder(0, i, Pow2(k)); } }
  }

  lemma {:induction false} RowAscends(start: nat, k: nat, count: nat)
    ensures forall i, j :: 0 <= i < j < |Row(start, k, count)| ==> Row(start, k, count)[i] < Row(start, k, count)[j]
  {
    hide Pow2;
    var l := Row(start, k, count);
    forall i: nat, j: nat | i < j < |l| ensures l[i] < l[j] { TimesOrder(i, j, Pow2(k)); }
  }

  /** Threads one row: `next` and `prev` of each block are written before its successor is. */
  method LayRow(mem0: Memory, start: nat, k: nat, count: nat) returns (mem: Memory, current: nat)
    requires start > 0
    ensures current == start + count * Pow2(k)
    ensures Chain(mem, if count == 0 then 0 else start, Row(start, k, count))
    ensures forall a :: a in mem0 && a < start ==> a in mem && mem[a] == mem0[a]
  {
    mem, current := mem0, start;
    ghost var l := Row(start, k, count);
    RowApart(start, k, count);
    var i := 0;
    while i < count
      invariant 0 <= i <= count && current == start + i * Pow2(k)
      invariant forall j :: 0 <= j < i ==> Joined(mem, l, j)
      invariant forall a :: a in mem0 && a < start ==> a in mem && mem[a] == mem0[a]
    {
      var next := current + Pow2(k);
      ghost var before := mem;
      assert l[i] == current && current >= start;
      RowNeighbours(start, k, count, i);
      var prev := if i == 0 then 0 else current - Pow2(k);
      mem := mem[current := Chunk(if i == count - 1 then 0 else next, prev)];
      forall j | 0 <= j < i ensures Joined(mem, l, j) { assert Joined(before, l, j) && l[j] != l[i]; }
      assert Joined(mem, l, i);
      current := next;
      i := i + 1;
      assert i * Pow2(k) == (i - 1) * Pow2(k) + Pow2(k);
    }
  }

  lemma {:induction false} RowNeighbours(start: nat, k: nat, count: nat, i: nat)
    requires i < count
    ensures var l := Row(start, k, count);
            && (i > 0 ==> l[i] >= Pow2(k) && At(l, i - 1) == l[i] - Pow2(k)) && (i == 0 ==> At(l, i - 1) == 0)
            && At(l, i + 1) == if i == count - 1 then 0 else l[i] + Pow2(k)
  {
    assert (i + 1) * Pow2(k) == i * Pow2(k) + Pow2(k);
    assert (i - 1) * Pow2(k) == i * Pow2(k) - Pow2(k);
    if i > 1 { Multiple(Pow2(k), i - 1); }
  }

  ghost function RowBlocks(start: nat, k: nat, count: nat): set<Block>
  {
    if count == 0 then {} else RowBlocks(start, k, count - 1) + {Block(start + (count - 1) * Pow2(k), k)}
  }

  lemma {:induction false} RowMembers(start: nat, k: nat, count: nat, b: Block)
    ensures b in RowBlocks(start, k, count) <==> b.order == k && b.addr in Row(start, k, count)
    decreases count
  {
    if count > 0 {
      RowMembers(start, k, count - 1, b);
      var l := Row(start, k, count);
      assert l == Row(start, k, count - 1) + [start + (count - 1) * Pow2(k)];
    }
  }

  lemma {:induction false} RowTiles(blocks: set<Block>, base: nat, m: nat, k: nat, count: nat)
    requires Tiled(blocks, base, m) && k <= MAX_ORDER && Aligned(base + m, k)
    ensures Tiled(blocks + RowBlocks(base + m, k, count), base, m + count * Pow2(k))
    ensures Aligned(base + m + count * Pow2(k), k)
    decreases count
  {
    hide Tiled, Aligned, Pow2;
    if count == 0 {
      assert blocks + RowBlocks(base + m, k, count) == blocks;
    } else {
      RowTiles(blocks, base, m, k, count - 1);
      var done := m + (count - 1) * Pow2(k);
      assert count * Pow2(k) == (count - 1) * Pow2(k) + Pow2(k);
      ExtendTiling(blocks + RowBlocks(base + m, k, count - 1), base, done, k);
      AlignedNext(base + done, k);
      assert blocks + RowBlocks(base + m, k, count)
          == blocks + RowBlocks(base + m, k, count - 1) + {Block(base + done, k)};
    }
  }

  /** The orders of one row come next in a descending sequence. */
  lemma {:induction false} RowIsNext(rest: seq<nat>, k: nat)
    requires Descends(rest) && AtMost(rest, k)
    ensures var c := Count(rest, k);
            c <= |rest| && (forall i :: 0 <= i < c ==> rest[i] == k) && AtMost(rest[c..], k - 1)
    decreases |rest|
  {
    var c := Count(rest, k);
    if rest != [] {
      var tail := rest[1..];
      if rest[0] == k {
        RowIsNext(tail, k);
        assert c == 1 + Count(tail, k) && rest[c..] == tail[c - 1..];
      } else {
        NoneOf(rest, k);
        assert rest[c..] == rest;
      }
    }
  }

  lemma {:induction false} CountAfterRow(rest: seq<nat>, k: nat, c: nat, j: nat)
    requires c <= |rest| && (forall i :: 0 <= i < c ==> rest[i] == k) && j != k
    ensures Count(rest[c..], j) == Count(rest, j)
    decreases c
  {
    if c == 0 {
      assert rest[c..] == rest;
    } else {
      CountAfterRow(rest[1..], k, c - 1, j);
      assert rest[1..][c - 1..] == rest[c..];
    }
  }

  lemma {:induction false} SumAfterRow(rest: seq<nat>, k: nat, c: nat)
    requires c <= |rest| && forall i :: 0 <= i < c ==> rest[i] == k
    ensures Sum(rest) == c * Pow2(k) + Sum(rest[c..])
    decreases c
  {
    hide Pow2;
    if c == 0 {
      assert rest[c..] == rest;
    } else {
      SumAfterRow(rest[1..], k, c - 1);
      assert rest[1..][c - 1..] == rest[c..];
      assert c * Pow2(k) == Pow2(k) + (c - 1) * Pow2(k);
    }
  }

  lemma {:induction false} PlacedAfterRow(rest: seq<nat>, k: nat, c: nat, addr: nat)
    requires c <= |rest| && forall i :: 0 <= i < c ==> rest[i] == k
    ensures Placed(addr, rest) == RowFront(addr, k, c) + Placed(addr + c * Pow2(k), rest[c..])
    decreases c
  {
    hide Pow2;
    if c == 0 {
      assert rest[c..] == rest;
    } else {
      PlacedAfterRow(rest[1..], k, c - 1, addr + Pow2(k));
      assert rest[1..][c - 1..] == rest[c..];
      assert addr + c * Pow2(k) == addr + Pow2(k) + (c - 1) * Pow2(k);
      assert Placed(addr, rest) == {Block(addr, k)} + Placed(addr + Pow2(k), rest[1..]);
      assert RowFront(addr, k, c) == {Block(addr, k)} + RowFront(addr + Pow2(k), k, c - 1);
    }
  }

  lemma {:induction false} NoneOf(rest: seq<nat>, k: nat)
    requires forall i :: 0 <= i < |rest| ==> rest[i] != k
    ensures Count(rest, k) == 0
    decreases |rest|
  {
    if rest != [] { NoneOf(rest[1..], k); }
  }

  /** `RowBlocks`, cut from the front. */
  ghost function RowFront(start: nat, k: nat, count: nat): set<Block>
    decreases count
  {
    if count == 0 then {} else {Block(start, k)} + RowFront(start + Pow2(k), k, count - 1)
  }

  lemma {:induction false} RowShift(start: nat, k: nat, count: nat, p: nat)
    requires count > 0 && p == Pow2(k)
    ensures RowBlocks(start, k, count) == {Block(start, k)} + RowBlocks(start + p, k, count - 1)
    decreases count
  {
    hide Pow2;
    if count > 1 {
      RowShift(start, k, count - 1, p);
      assert p + (count - 2) * p == (count - 1) * p;
    }
  }

  lemma {:induction false} FrontIsRow(start: nat, k: nat, count: nat)
    ensures RowFront(start, k, count) == RowBlocks(start, k, count)
    decreases count
  {
    hide Pow2;
    if count > 0 {
      FrontIsRow(start + Pow2(k), k, count - 1);
      RowShift(start, k, count, Pow2(k));
    }
  }

  lemma {:induction false} FewBelowTop(orders: seq<nat>, k: nat)
    requires Descends(orders) && k < MAX_ORDER
    ensures Count(orders, k) <= 1
    decreases |orders|
  {
    if orders != [] {
      if orders[0] == k { NoneOf(orders[1..], k); } else { FewBelowTop(orders[1..], k); }
    }
  }

  lemma {:induction false} RowChains(mem: Memory, mem': Memory, heads: seq<nat>, lists: seq<seq<nat>>, k: nat,
                                     head: nat, row: seq<nat>, start: nat)
    requires Chains(mem, heads, lists) && k <= MAX_ORDER && lists[k] == [] && Chain(mem', head, row)
    requires forall a :: a in mem && a < start ==> a in mem' && mem'[a] == mem[a]
    requires forall j, a :: 0 <= j <= MAX_ORDER && a in lists[j] ==> a < start
    requires forall a :: a in row ==> start <= a
    ensures Chains(mem', heads[k := head], lists[k := row])
    ensures FreeSet(lists[k := row]) == FreeSet(lists) + set a | a in row :: Block(a, k)
  {
    var r := lists[k := row];
    forall j | 0 <= j <= MAX_ORDER && j != k ensures Chain(mem', heads[j], lists[j]) {
      ChainMembers(mem, heads[j], lists[j]);
      ChainFrame(mem, mem', heads[j], lists[j]);
    }
    forall b ensures b in FreeSet(r) <==> b in FreeSet(lists) + set a | a in row :: Block(a, k) {
      FreeMember(lists, b);
      FreeMember(r, b);
    }
  }

  ghost predicate LaidOut(mem: Memory, heads: seq<nat>, lists: seq<seq<nat>>, base: nat, current: nat)
  {
    base <= current && Chains(mem, heads, lists) && Tiled(FreeSet(lists), base, current - base)
  }

  lemma {:induction false} AddRow(mem: Memory, mem': Memory, heads: seq<nat>, lists: seq<seq<nat>>, k: nat,
                                  base: nat, start: nat, count: nat)
    requires LaidOut(mem, heads, lists, base, start) && k <= MAX_ORDER && lists[k] == [] && Aligned(start, k)
    requires Chain(mem', if count == 0 then 0 else start, Row(start, k, count))
    requires forall a :: a in mem && a < start ==> a in mem' && mem'[a] == mem[a]
    ensures var heads', lists' := heads[k := if count == 0 then 0 else start], lists[k := Row(start, k, count)];
            && LaidOut(mem', heads', lists', base, start + count * Pow2(k))
            && FreeSet(lists') == FreeSet(lists) + RowBlocks(start, k, count)
            && Aligned(start + count * Pow2(k), k)
  {
    hide Pow2, Aligned;
    var row := Row(start, k, count);
    RowApart(start, k, count);
    forall j, a | 0 <= j <= MAX_ORDER && a in lists[j] ensures a < start {
      FreeMember(lists, Block(a, j));
    }
    RowChains(mem, mem', heads, lists, k, if count == 0 then 0 else start, row, start);
    forall b ensures b in RowBlocks(start, k, count) <==> b in set a | a in row :: Block(a, k) {
      RowMembers(start, k, count, b);
    }
    assert RowBlocks(start, k, count) == set a | a in row :: Block(a, k);
    RowTiles(FreeSet(lists), base, start - base, k, count);
  }

  /** Half-way through the layout: the orders above `order` are laid out up to `current`, the picks
      in `rest` are still to come. */
  ghost predicate Halfway(mem: Memory, heads: seq<nat>, lists: seq<seq<nat>>, base: nat, n: nat, counts: seq<nat>,
                          current: nat, rest: seq<nat>, order: int)
    requires |counts| == MAX_ORDER + 1 && -1 <= order <= MAX_ORDER
  {
    && LaidOut(mem, heads, lists, base, current) && current + Sum(rest) == base + n
    && FreeSet(lists) + Placed(current, rest) == Placed(base, Greedy(base, n))
    && (forall k: nat :: k <= order ==> lists[k] == [] && counts[k] == Count(rest, k))
    && (forall k: nat :: order < k <= MAX_ORDER ==> |lists[k]| == counts[k])
    && Descends(rest) && AtMost(rest, order) && (order >= 0 ==> Aligned(current, order))
  }

  lemma {:induction false} NextRow(mem: Memory, mem': Memory, heads: seq<nat>, lists: seq<seq<nat>>, base: nat,
                                   n: nat, counts: seq<nat>, current: nat, rest: seq<nat>, order: nat, next: nat)
    requires |counts| == |heads| == |lists| == MAX_ORDER + 1 && order <= MAX_ORDER
    requires Halfway(mem, heads, lists, base, n, counts, current, rest, order)
    requires next == current + counts[order] * Pow2(order)
    requires Chain(mem', if counts[order] == 0 then 0 else current, Row(current, order, counts[order]))
    requires forall a :: a in mem && a < current ==> a in mem' && mem'[a] == mem[a]
    ensures counts[order] <= |rest|
    ensures var c := counts[order];
            Halfway(mem', heads[order := if c == 0 then 0 else current], lists[order := Row(current, order, c)],
                    base, n, counts, next, rest[c..], order - 1)
  {
    hide Pow2, Aligned, Chain, Tiled, Greedy, Count, Sum, Placed, RowBlocks, RowFront, FreeSet, LaidOut;
    var c := counts[order];
    RowIsNext(rest, order);
    forall j: nat | j < order ensures Count(rest[c..], j) == Count(rest, j) { CountAfterRow(rest, order, c, j); }
    SumAfterRow(rest, order, c);
    PlacedAfterRow(rest, order, c, current);
    FrontIsRow(current, order, c);
    AddRow(mem, mem', heads, lists, order, base, current, c);
    if order > 0 { AlignedDown(next, order - 1, order); }
    assert forall i :: 0 <= i < |rest[c..]| ==> rest[c..][i] == rest[i + c];
  }

  /** The layout pass: it places exactly the blocks that the greedy pass picked, and they tile the region. */
  method LayOut(base: nat, n: nat, counts: seq<nat>) returns (mem: Memory, heads: seq<nat>, ghost lists: seq<seq<nat>>)
    requires base > 0 && Aligned(base, MAX_ORDER) && |counts| == MAX_ORDER + 1
    requires forall k: nat :: k < |counts| ==> counts[k] == Count(Greedy(base, n), k)
    ensures Chains(mem, heads, lists)
    ensures FreeSet(lists) == Placed(base, Greedy(base, n)) && Tiled(FreeSet(lists), base, n) && Ascending(lists)
    ensures forall k: nat :: k <= MAX_ORDER ==> |lists[k]| == counts[k]
  {
    hide Pow2, Aligned, Chain, Tiled, Greedy, Count, Descends, AtMost, Halfway, Row;
    mem, heads, lists := map[], seq(MAX_ORDER + 1, _ => 0), seq(MAX_ORDER + 1, _ => []);
    StartHalfway(base, n, heads, lists, counts);
    var current: nat := base;
    ghost var rest := Greedy(base, n);
    var order: int := MAX_ORDER;
    while order >= 0
      invariant -1 <= order <= MAX_ORDER && |heads| == |lists| == MAX_ORDER + 1
      invariant Halfway(mem, heads, lists, base, n, counts, current, rest, order) && current >= base
      invariant Ascending(lists)
    {
      var count := counts[order];
      var mem', current' := LayRow(mem, current, order, count);
      NextRow(mem, mem', heads, lists, base, n, counts, current, rest, order, current');
      RowAscends(current, order, count);
      lists := lists[order := Row(current, order, count)];
      heads := heads[order := if count == 0 then 0 else current];
      mem, current, rest, order := mem', current', rest[count..], order - 1;
    }
    LayoutDone(mem, heads, lists, base, n, counts, current, rest);
  }

  lemma {:induction false} LayoutDone(mem: Memory, heads: seq<nat>, lists: seq<seq<nat>>, base: nat, n: nat,
                                      counts: seq<nat>, current: nat, rest: seq<nat>)
    requires |counts| == MAX_ORDER + 1 && Halfway(mem, heads, lists, base, n, counts, current, rest, -1)
    ensures Chains(mem, heads, lists)
    ensures FreeSet(lists) == Placed(base, Greedy(base, n)) && Tiled(FreeSet(lists), base, n)
    ensures forall k: nat :: k <= MAX_ORDER ==> |lists[k]| == counts[k]
  {
    hide Chain, Tiled, Greedy, FreeSet;
    NothingAbove(rest);
    assert FreeSet(lists) + {} == FreeSet(lists);
  }

  lemma {:induction false} StartHalfway(base: nat, n: nat, heads: seq<nat>, lists: seq<seq<nat>>, counts: seq<nat>)
    requires |heads| == |lists| == |counts| == MAX_ORDER + 1 && Aligned(base, MAX_ORDER)
    requires forall k: nat :: k < |counts| ==> counts[k] == Count(Greedy(base, n), k)
    requires forall k :: 0 <= k <= MAX_ORDER ==> heads[k] == 0 && lists[k] == []
    ensures Halfway(map[], heads, lists, base, n, counts, base, Greedy(base, n), MAX_ORDER)
  {
    hide Aligned, Chain, Tiled, Greedy, Count, FreeSet;
    StartEmpty(base, heads, lists);
    GreedyDescends(base, n, MAX_ORDER);
    assert {} + Placed(base, Greedy(base, n)) == Placed(base, Greedy(base, n));
  }

  lemma {:induction false} NothingAbove(rest: seq<nat>)
    requires AtMost(rest, -1)
    ensures rest == [] && Sum(rest) == 0
  {
    var least: int := if rest == [] then 0 else rest[0];
    assert least >= 0;
  }

  lemma {:induction false} StartEmpty(base: nat, heads: seq<nat>, lists: seq<seq<nat>>)
    requires |heads| == |lists| == MAX_ORDER + 1
    requires forall k :: 0 <= k <= MAX_ORDER ==> heads[k] == 0 && lists[k] == []
    ensures LaidOut(map[], heads, lists, base, base) && FreeSet(lists) == {}
  {
    forall b ensures b !in FreeSet(lists) { FreeMember(lists, b); }
    assert FreeSet(lists) == {};
  }
}
