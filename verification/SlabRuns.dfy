/** Runs of one cache, and of several caches on one buddy allocator. */
module SlabRuns {
  import opened Common
  import opened BuddyBlocks
  import opened BuddyLists
  import opened Buddy
  import opened SlabGeometry
  import opened SlabRings
  import opened SlabState
  import opened Slab

  /** A client asks for an object or gives back one of those it holds. */
  datatype Op = Alloc | Release(obj: nat)

  // ----- What a run answers

  /** What the client holds after these operations with these answers. */
  ghost function Replay(start: set<nat>, ops: seq<Op>, results: seq<nat>): set<nat>
    requires |results| == |ops|
    decreases |ops|
  {
    if ops == [] then start else
    var n := |ops| - 1;
    Replayed(Replay(start, ops[..n], results[..n]), ops[n], results[n])
  }

  ghost function Replayed(held: set<nat>, op: Op, r: nat): set<nat>
  {
    match op
    case Alloc => if r == 0 then held else held + {r}
    case Release(obj) => held - {obj}
  }

  /** As many objects are in hand as the slabs have. */
  ghost predicate Full(g: Geometry, held: set<nat>, slabs: set<nat>) { |held| == g.perSlab * |slabs| }

  /** One operation.  A request is refused iff every object is in hand and no free buddy block is large enough; a slab
      is cut from the buddy allocator exactly when every object is in hand and there is such a block; the object handed
      out was not in hand.  A release changes neither the slabs nor the buddy allocator. */
  ghost predicate Served(g: Geometry, op: Op, held: set<nat>, r: nat, slabs: set<nat>, free: set<Block>,
                         slabs': set<nat>, free': set<Block>)
  {
    match op
    case Alloc =>
      && (r == 0 <==> Full(g, held, slabs) && !(exists b :: b in free && g.order <= b.order))
      && (r == 0 || !Full(g, held, slabs) ==> slabs' == slabs && free' == free)
      && (r != 0 ==> r !in held && SlabBase(g, r) in slabs' && IsObject(g, SlabBase(g, r), r))
      && (r != 0 && Full(g, held, slabs) ==>
            var s := SlabBase(g, r);
            s !in slabs && slabs' == slabs + {s} && CutFrom(free, Block(s / 0x1000, g.order), free'))
    case Release(_) => slabs' == slabs && free' == free
  }

  // ----- One cache

  /** Every run of kmem_cache_kalloc and kmem_cache_kfree on held objects, from any state: each operation is served
      from the slabs and buddy blocks at that moment, and what is in hand is the replay of the run.  The objects in
      hand never overlap each other or a slab descriptor, every slab is on the ring that its use count dictates, and
      that count is the number of its objects in hand. */
  method Run(c: Cache, start: set<nat>, ops: seq<Op>)
    returns (held: set<nat>, results: seq<nat>, ghost slabs: seq<set<nat>>, ghost frees: seq<set<Block>>)
    requires c.Valid() && start == c.live
    modifies c`links, c`desc, c`link, c`lists, c`avail, c`live
    modifies c.buddy`mem, c.buddy`lists, c.buddy`live, c.buddy.heads, c.buddy.bits
    ensures c.Valid() && held == c.live && |results| == |ops| && held == Replay(start, ops, results)
    ensures |slabs| == |frees| == |ops| + 1 && slabs[0] == old(c.desc).Keys && slabs[|ops|] == c.desc.Keys
    ensures frees[0] == old(c.buddy.Free()) && frees[|ops|] == c.buddy.Free()
    ensures forall i :: 0 <= i < |ops| ==>
      Served(c.geo, ops[i], Replay(start, ops[..i], results[..i]), results[i], slabs[i], frees[i], slabs[i + 1],
        frees[i + 1])
    ensures forall a, b :: a in held && b in held && a < b ==> a + c.geo.size <= b
    ensures forall a, s :: a in held && s in c.desc ==> s + DESCRIPTOR <= a || a + c.geo.size <= s
    ensures forall a :: a in held ==> a % c.geo.align == 0 && Owned(c.geo, c.desc, a)
    ensures forall s :: s in c.desc ==> c.desc[s].inuse == |HeldIn(c.geo, s, held)|
    ensures forall s :: s in c.lists[FREE] <==> s in c.desc && c.desc[s].inuse == 0
    ensures forall s :: s in c.lists[PARTIAL] <==> s in c.desc && 0 < c.desc[s].inuse < c.geo.perSlab
    ensures forall s :: s in c.lists[FULL] <==> s in c.desc && c.desc[s].inuse == c.geo.perSlab
    ensures old(c.buddy.live) <= c.buddy.live
  {
    hide Rings, Stored, Sound, Pow2, Tiled, Chains, SlabBase, RingOf, Bytes, Served, Replay, Replayed, FreeSet;
    held, results, slabs, frees := start, [], [c.desc.Keys], [c.buddy.Free()];
    ReplayNothing(start);
    var n := 0;
    while n < |ops|
      invariant 0 <= n <= |ops| && c.Valid() && held == c.live && old(c.buddy.live) <= c.buddy.live
      invariant |results| == n && |slabs| == |frees| == n + 1 && held == Replay(start, ops[..n], results)
      invariant slabs[0] == old(c.desc).Keys && slabs[n] == c.desc.Keys
      invariant frees[0] == old(c.buddy.Free()) && frees[n] == c.buddy.Free()
      invariant forall i :: 0 <= i < n ==>
        Served(c.geo, ops[i], Replay(start, ops[..i], results[..i]), results[i], slabs[i], frees[i], slabs[i + 1],
          frees[i + 1])
    {
      ghost var before := results;
      var r;
      held, r := Serve(c, ops[n], held);
      results, slabs, frees := results + [r], slabs + [c.desc.Keys], frees + [c.buddy.Free()];
      ReplayNext(start, ops, before, n, r);
      forall i | 0 <= i <= n
        ensures Served(c.geo, ops[i], Replay(start, ops[..i], results[..i]), results[i], slabs[i], frees[i],
                  slabs[i + 1], frees[i + 1])
      {
        assert results[..i] == before[..i];
        if i == n { assert before[..n] == before; }
      }
      n := n + 1;
    }
    assert ops[..n] == ops;
    LiveApart(c.geo, c.desc, c.link, c.avail, c.live);
    Counts(c.geo, c.desc, c.link, c.avail, c.live);
    RingLength(c.links, c.lists);
    RingsByCount(c.geo, c.desc, c.link, c.avail, c.live, c.lists);
  }

  lemma {:induction false} ReplayNothing(start: set<nat>)
    ensures Replay(start, [], []) == start
  {
  }

  lemma {:induction false} ReplayNext(start: set<nat>, ops: seq<Op>, results: seq<nat>, n: nat, r: nat)
    requires n < |ops| && |results| == n
    ensures Replay(start, ops[..n + 1], results + [r]) == Replayed(Replay(start, ops[..n], results), ops[n], r)
  {
    assert ops[..n + 1][..n] == ops[..n] && (results + [r])[..n] == results;
  }

  method Serve(c: Cache, op: Op, held: set<nat>) returns (held': set<nat>, r: nat)
    requires c.Valid() && held == c.live
    modifies c`links, c`desc, c`link, c`lists, c`avail, c`live
    modifies c.buddy`mem, c.buddy`lists, c.buddy`live, c.buddy.heads, c.buddy.bits
    ensures c.Valid() && held' == c.live == Replayed(held, op, r)
    ensures Served(c.geo, op, held, r, old(c.desc).Keys, old(c.buddy.Free()), c.desc.Keys, c.buddy.Free())
    ensures old(c.buddy.live) <= c.buddy.live && old(c.desc).Keys <= c.desc.Keys
    ensures forall s :: s in c.desc && s !in old(c.desc) ==> c.BlockAt(s) !in old(c.buddy.live)
  {
    hide Rings, Stored, Sound, Sorted, Pow2, Tiled, Chains, SlabBase, RingOf, Bytes, Full, FreeSet, CutFrom;
    held', r := held, 0;
    match op {
      case Alloc =>
        FullIff(c.geo, c.desc, c.link, c.avail, c.live, c.links, c.lists);
        r := c.Kalloc();
        if r != 0 { held' := held + {r}; }
      case Release(obj) =>
        if obj in held { c.Kfree(obj); }
        held' := held - {obj};
    }
  }

  // ----- Counting over all slabs

  ghost function HeldAmong(g: Geometry, slabs: set<nat>, held: set<nat>): set<nat>
  {
    set a | a in held && SlabBase(g, a) in slabs
  }

  /** The slabs hold no more objects than they have, and as many iff each of them is full. */
  lemma {:induction false} HeldAmongCount(g: Geometry, desc: map<nat, Desc>, link: map<nat, nat>,
                                          avail: map<nat, seq<nat>>, live: set<nat>, slabs: set<nat>)
    requires Sound(g) && Stored(g, desc, link, avail, live) && slabs <= desc.Keys
    ensures |HeldAmong(g, slabs, live)| <= g.perSlab * |slabs|
    ensures |HeldAmong(g, slabs, live)| == g.perSlab * |slabs| <==>
      forall s :: s in slabs ==> desc[s].inuse == g.perSlab
    decreases |slabs|
  {
    hide Sound, SlabBase, Stored, HeldIn;
    if slabs == {} {
      assert HeldAmong(g, slabs, live) == {};
    } else {
      hide HeldAmong;
      var s :| s in slabs;
      var rest := slabs - {s};
      HeldAmongCount(g, desc, link, avail, live, rest);
      Counts(g, desc, link, avail, live);
      InUseAtMost(g, desc, link, avail, live, s);
      OneMoreSlab(g, desc, link, avail, live, slabs, s);
      assert |slabs| == |rest| + 1;
      Times(g.perSlab, |rest|);
      assert forall t :: t in slabs <==> t in rest || t == s;
    }
  }

  lemma {:induction false} Times(p: nat, n: nat)
    ensures p * (n + 1) == p * n + p
  {
  }

  lemma {:induction false} OneMoreSlab(g: Geometry, desc: map<nat, Desc>, link: map<nat, nat>,
                                       avail: map<nat, seq<nat>>, live: set<nat>, slabs: set<nat>, s: nat)
    requires Sound(g) && Stored(g, desc, link, avail, live) && s in slabs && slabs <= desc.Keys
    ensures |HeldAmong(g, slabs, live)| == |HeldAmong(g, slabs - {s}, live)| + |HeldIn(g, s, live)|
  {
    hide Sound, SlabBase;
    assert SlabOk(g, s, desc[s], avail[s], link, live);
    forall a | a in live ensures IsObject(g, s, a) <==> SlabBase(g, a) == s {
      assert Owned(g, desc, a);
      if IsObject(g, s, a) { ObjectsSlab(g, s, a); }
    }
    var rest, one := HeldAmong(g, slabs - {s}, live), HeldIn(g, s, live);
    assert HeldAmong(g, slabs, live) == rest + one && rest !! one;
  }

  /** The partial and the free ring are both empty iff as many objects are live as the slabs have. */
  lemma {:induction false} FullIff(g: Geometry, desc: map<nat, Desc>, link: map<nat, nat>, avail: map<nat, seq<nat>>,
                                   live: set<nat>, links: Links, lists: seq<seq<nat>>)
    requires Sound(g) && Stored(g, desc, link, avail, live) && Rings(links, lists) && Sorted(g, desc, lists)
    ensures Full(g, live, desc.Keys) <==> lists[PARTIAL] == [] && lists[FREE] == []
  {
    hide Sound, SlabBase, Ring;
    HeldAmongCount(g, desc, link, avail, live, desc.Keys);
    forall a | a in live ensures SlabBase(g, a) in desc { assert Owned(g, desc, a); }
    assert HeldAmong(g, desc.Keys, live) == live;
    AllOnFullRing(g, desc, lists);
  }

  lemma {:induction false} AllOnFullRing(g: Geometry, desc: map<nat, Desc>, lists: seq<seq<nat>>)
    requires Sound(g) && |lists| == 3 && Sorted(g, desc, lists)
    ensures lists[PARTIAL] == [] && lists[FREE] == [] <==> forall s :: s in desc ==> desc[s].inuse == g.perSlab
  {
    if lists[PARTIAL] != [] { NotFull(g, desc, lists, PARTIAL, lists[PARTIAL][0]); }
    if lists[FREE] != [] { NotFull(g, desc, lists, FREE, lists[FREE][0]); }
    forall s | s in desc && desc[s].inuse != g.perSlab ensures s in lists[PARTIAL] || s in lists[FREE] { }
  }

  lemma {:induction false} RingsByCount(g: Geometry, desc: map<nat, Desc>, link: map<nat, nat>,
                                        avail: map<nat, seq<nat>>, live: set<nat>, lists: seq<seq<nat>>)
    requires Sound(g) && Stored(g, desc, link, avail, live) && |lists| == 3 && Sorted(g, desc, lists)
    ensures forall s :: s in lists[FREE] <==> s in desc && desc[s].inuse == 0
    ensures forall s :: s in lists[PARTIAL] <==> s in desc && 0 < desc[s].inuse < g.perSlab
    ensures forall s :: s in lists[FULL] <==> s in desc && desc[s].inuse == g.perSlab
  {
    hide Stored;
    forall s | s in desc ensures desc[s].inuse <= g.perSlab { InUseAtMost(g, desc, link, avail, live, s); }
  }

  lemma {:induction false} RingLength(links: Links, lists: seq<seq<nat>>)
    requires Rings(links, lists)
    ensures |lists| == 3
  {
  }

  ghost function HeldIn(g: Geometry, slab: nat, held: set<nat>): set<nat> { set a | a in held && IsObject(g, slab, a) }

  lemma {:induction false} Counts(g: Geometry, desc: map<nat, Desc>, link: map<nat, nat>, avail: map<nat, seq<nat>>,
                                  live: set<nat>)
    requires Sound(g) && Stored(g, desc, link, avail, live)
    ensures forall s :: s in desc ==> desc[s].inuse == |HeldIn(g, s, live)|
    ensures forall a :: a in live ==> Owned(g, desc, a)
  {
    forall s | s in desc ensures desc[s].inuse == |HeldIn(g, s, live)| {
      assert SlabOk(g, s, desc[s], avail[s], link, live);
      CountOne(g, s, desc[s], avail[s], link, live);
    }
  }

  lemma {:induction false} CountOne(g: Geometry, s: nat, d: Desc, av: seq<nat>, link: map<nat, nat>, live: set<nat>)
    requires Sound(g) && SlabOk(g, s, d, av, link, live)
    ensures d.inuse == |HeldIn(g, s, live)|
  {
    hide Sound, IsSlab, ObjectAt;
    ObjectsCount(g, s, g.perSlab);
    Elements(av);
    var all, idle, used := Objects(g, s, g.perSlab), ElementsOf(av), HeldIn(g, s, live);
    forall a ensures a in all <==> a in idle + used { assert a in all <==> IsObject(g, s, a); }
    assert all == idle + used && idle !! used;
    assert |all| == |idle| + |used|;
  }

  ghost function ElementsOf(l: seq<nat>): set<nat> { set a | a in l }

  lemma {:induction false} Elements(l: seq<nat>)
    requires NoRepeats(l)
    ensures |ElementsOf(l)| == |l|
    decreases |l|
  {
    if l == [] {
      assert ElementsOf(l) == {};
    } else {
      var n := |l| - 1;
      var front := l[..n];
      Elements(front);
      assert l == front + [l[n]];
      assert l[n] !in front;
      assert ElementsOf(l) == ElementsOf(front) + {l[n]};
    }
  }

  // ----- Several caches on one buddy allocator

  /** No buddy block belongs to both caches. */
  ghost predicate Separate(c: Cache, d: Cache)
    reads c, d
  {
    forall s, t :: s in c.desc && t in d.desc ==> c.BlockAt(s) != d.BlockAt(t)
  }

  /** Live objects of different caches overlap neither each other nor each other's descriptors. */
  lemma {:induction false} CachesApart(c: Cache, d: Cache, a: nat)
    requires c.Valid() && d.Valid() && c.buddy == d.buddy && Separate(c, d) && a in c.live
    ensures forall t :: t in d.desc ==> a + c.geo.size <= t || t + DESCRIPTOR <= a
    ensures forall b :: b in d.live ==> a + c.geo.size <= b || b + d.geo.size <= a
  {
    hide Rings, Sorted, Chains, Tiled, SlabBase, Bytes, Pow2;
    var s := SlabBase(c.geo, a);
    InItsSlab(c.geo, c.desc, c.link, c.avail, c.live, a);
    forall t | t in d.desc
      ensures s + Bytes(c.geo.order) <= t || t + Bytes(d.geo.order) <= s
    {
      BlocksApart(c.buddy.Free(), c.buddy.live, c.buddy.base, c.buddy.pages, s, c.geo.order, t, d.geo.order);
    }
    forall b | b in d.live ensures a + c.geo.size <= b || b + d.geo.size <= a {
      InItsSlab(d.geo, d.desc, d.link, d.avail, d.live, b);
    }
    forall t | t in d.desc ensures a + c.geo.size <= t || t + DESCRIPTOR <= a {
      DescriptorFits(d.geo, t);
    }
  }

  lemma {:induction false} InItsSlab(g: Geometry, desc: map<nat, Desc>, link: map<nat, nat>, avail: map<nat, seq<nat>>,
                                     live: set<nat>, a: nat)
    requires Sound(g) && Stored(g, desc, link, avail, live) && a in live
    ensures var s := SlabBase(g, a); s in desc && s + DESCRIPTOR <= a && a + g.size <= s + Bytes(g.order)
  {
    assert Owned(g, desc, a);
    var s := SlabBase(g, a);
    assert SlabOk(g, s, desc[s], avail[s], link, live);
    ObjectsSlab(g, s, a);
  }

  lemma {:induction false} DescriptorFits(g: Geometry, s: nat)
    requires Sound(g)
    ensures s + DESCRIPTOR <= s + Bytes(g.order)
  {
    ObjectInside(g, s, 0);
  }

  /** Different live blocks are apart, in bytes. */
  lemma {:induction false} BlocksApart(free: set<Block>, live: set<Block>, base: nat, n: nat, s: nat, j: nat,
                                       t: nat, k: nat)
    requires Tiled(free + live, base, n) && s % 0x1000 == 0 && t % 0x1000 == 0
    requires Block(s / 0x1000, j) in live && Block(t / 0x1000, k) in live
    requires Block(s / 0x1000, j) != Block(t / 0x1000, k)
    ensures s + Bytes(j) <= t || t + Bytes(k) <= s
  {
    hide Pow2;
    assert Block(s / 0x1000, j) in free + live && Block(t / 0x1000, k) in free + live;
    assert Apart(Block(s / 0x1000, j), Block(t / 0x1000, k));
  }

  /** All caches consistent, on the same buddy allocator, and without a common block. */
  ghost predicate AllGood(b: Buddy, caches: seq<Cache>)
    reads b, b.heads, caches
  {
    && (forall i :: 0 <= i < |caches| ==> caches[i].buddy == b && caches[i].Valid())
    && (forall i, j :: 0 <= i < j < |caches| ==> caches[i] != caches[j] && Separate(caches[i], caches[j]))
  }

  /** One operation on cache `i`. */
  method ServeIn(b: Buddy, caches: seq<Cache>, i: nat, op: Op, held: set<nat>) returns (held': set<nat>, r: nat)
    requires AllGood(b, caches) && i < |caches| && held == caches[i].live
    modifies caches[i], b`mem, b`lists, b`live, b.heads, b.bits
    ensures AllGood(b, caches) && held' == caches[i].live == Replayed(held, op, r)
    ensures Served(caches[i].geo, op, held, r, old(caches[i].desc).Keys, old(b.Free()), caches[i].desc.Keys, b.Free())
  {
    hide Rings, Stored, Sorted, Chains, Tiled, Sound, Served, Replayed, FreeSet;
    ghost var c := caches[i];
    held', r := Serve(caches[i], op, held);
    forall j | 0 <= j < |caches| ensures caches[j].Valid() { }
    forall j | 0 <= j < |caches| && j != i ensures Separate(c, caches[j]) && Separate(caches[j], c) { }
  }

  /** What the client holds of each cache; an operation on a cache that does not exist is skipped. */
  ghost function ReplayMany(start: seq<set<nat>>, ops: seq<(nat, Op)>, results: seq<nat>): (held: seq<set<nat>>)
    requires |results| == |ops|
    ensures |held| == |start|
    decreases |ops|
  {
    if ops == [] then start else
    var n := |ops| - 1;
    ReplayedIn(ReplayMany(start, ops[..n], results[..n]), ops[n], results[n])
  }

  ghost function ReplayedIn(held: seq<set<nat>>, op: (nat, Op), r: nat): (held': seq<set<nat>>)
    ensures |held'| == |held|
  {
    if op.0 < |held| then held[op.0 := Replayed(held[op.0], op.1, r)] else held
  }

  /** One operation, served by its cache and leaving the slabs of the others. */
  ghost predicate ServedMany(caches: seq<Cache>, op: (nat, Op), held: seq<set<nat>>, r: nat, slabs: seq<set<nat>>,
                             free: set<Block>, slabs': seq<set<nat>>, free': set<Block>)
  {
    && |held| == |slabs| == |slabs'| == |caches|
    && if op.0 < |caches| then
      && Served(caches[op.0].geo, op.1, held[op.0], r, slabs[op.0], free, slabs'[op.0], free')
      && slabs' == slabs[op.0 := slabs'[op.0]]
    else r == 0 && slabs' == slabs && free' == free
  }

  ghost function SlabsOf(caches: seq<Cache>): (slabs: seq<set<nat>>)
    reads caches
    ensures |slabs| == |caches| && forall i :: 0 <= i < |caches| ==> slabs[i] == caches[i].desc.Keys
  {
    seq(|caches|, i requires 0 <= i < |caches| reads caches => caches[i].desc.Keys)
  }

  /** Every run of requests to several caches, such as the eight size classes and the VMA cache, on one buddy
      allocator: each operation is served from its cache's slabs and the common buddy blocks at that moment, what is in
      hand is the replay of the run, and the objects in hand, of whatever cache, never overlap each other or a
      descriptor. */
  method RunMany(b: Buddy, caches: seq<Cache>, start: seq<set<nat>>, ops: seq<(nat, Op)>)
    returns (held: seq<set<nat>>, results: seq<nat>, ghost slabs: seq<seq<set<nat>>>, ghost frees: seq<set<Block>>)
    requires AllGood(b, caches)
    requires |start| == |caches| && forall i :: 0 <= i < |caches| ==> start[i] == caches[i].live
    modifies caches, b`mem, b`lists, b`live, b.heads, b.bits
    ensures AllGood(b, caches) && |held| == |caches| && forall i :: 0 <= i < |caches| ==> held[i] == caches[i].live
    ensures |results| == |ops| && held == ReplayMany(start, ops, results) && |slabs| == |frees| == |ops| + 1
    ensures slabs[0] == old(SlabsOf(caches)) && slabs[|ops|] == SlabsOf(caches)
    ensures frees[0] == old(b.Free()) && frees[|ops|] == b.Free()
    ensures forall i :: 0 <= i < |ops| ==>
      ServedMany(caches, ops[i], ReplayMany(start, ops[..i], results[..i]), results[i], slabs[i], frees[i],
        slabs[i + 1], frees[i + 1])
    ensures forall i, j, x, y ::
      0 <= i < |caches| && 0 <= j < |caches| && x in held[i] && y in held[j] && (i != j || x != y) ==>
      x + caches[i].geo.size <= y || y + caches[j].geo.size <= x
    ensures forall i, j, x, s :: 0 <= i < |caches| && 0 <= j < |caches| && x in held[i] && s in caches[j].desc ==>
      x + caches[i].geo.size <= s || s + DESCRIPTOR <= x
  {
    hide AllGood, ReplayMany, ReplayedIn, ServedMany, Served, Replayed, FreeSet;
    held, results, slabs, frees := start, [], [SlabsOf(caches)], [b.Free()];
    ReplayManyNothing(start);
    var n := 0;
    while n < |ops|
      invariant 0 <= n <= |ops| && AllGood(b, caches) && |held| == |caches|
      invariant forall i :: 0 <= i < |caches| ==> held[i] == caches[i].live
      invariant |results| == n && |slabs| == |frees| == n + 1 && held == ReplayMany(start, ops[..n], results)
      invariant slabs[0] == old(SlabsOf(caches)) && slabs[n] == SlabsOf(caches)
      invariant frees[0] == old(b.Free()) && frees[n] == b.Free()
      invariant forall i :: 0 <= i < n ==>
        ServedMany(caches, ops[i], ReplayMany(start, ops[..i], results[..i]), results[i], slabs[i], frees[i],
          slabs[i + 1], frees[i + 1])
    {
      ghost var before := results;
      var r;
      held, r := ServeMany(b, caches, ops[n], held);
      results, slabs, frees := results + [r], slabs + [SlabsOf(caches)], frees + [b.Free()];
      ReplayManyNext(start, ops, before, n, r);
      forall i | 0 <= i <= n
        ensures ServedMany(caches, ops[i], ReplayMany(start, ops[..i], results[..i]), results[i], slabs[i], frees[i],
                  slabs[i + 1], frees[i + 1])
      {
        assert results[..i] == before[..i];
        if i == n { assert before[..n] == before; }
      }
      n := n + 1;
    }
    assert ops[..n] == ops;
    AllApart(b, caches);
  }

  lemma {:induction false} ReplayManyNothing(start: seq<set<nat>>)
    ensures ReplayMany(start, [], []) == start
  {
  }

  lemma {:induction false} ReplayManyNext(start: seq<set<nat>>, ops: seq<(nat, Op)>, results: seq<nat>, n: nat, r: nat)
    requires n < |ops| && |results| == n
    ensures ReplayMany(start, ops[..n + 1], results + [r]) ==
      ReplayedIn(ReplayMany(start, ops[..n], results), ops[n], r)
  {
    assert ops[..n + 1][..n] == ops[..n] && (results + [r])[..n] == results;
  }

  lemma {:induction false} Different(b: Buddy, caches: seq<Cache>)
    requires AllGood(b, caches)
    ensures forall i, j :: 0 <= i < |caches| && 0 <= j < |caches| && i != j ==> caches[i] != caches[j]
  {
    forall i, j | 0 <= i < |caches| && 0 <= j < |caches| && i != j ensures caches[i] != caches[j] {
      if i < j { assert caches[i] != caches[j]; } else { assert caches[j] != caches[i]; }
    }
  }

  method ServeMany(b: Buddy, caches: seq<Cache>, op: (nat, Op), held: seq<set<nat>>)
    returns (held': seq<set<nat>>, r: nat)
    requires AllGood(b, caches) && |held| == |caches|
    requires forall i :: 0 <= i < |caches| ==> held[i] == caches[i].live
    modifies caches, b`mem, b`lists, b`live, b.heads, b.bits
    ensures AllGood(b, caches) && held' == ReplayedIn(held, op, r)
    ensures forall i :: 0 <= i < |caches| ==> held'[i] == caches[i].live
    ensures ServedMany(caches, op, held, r, old(SlabsOf(caches)), old(b.Free()), SlabsOf(caches), b.Free())
  {
    hide AllGood, Served, Replayed, FreeSet;
    held', r := held, 0;
    Different(b, caches);
    if op.0 < |caches| {
      var h;
      h, r := ServeIn(b, caches, op.0, op.1, held[op.0]);
      held' := held[op.0 := h];
      forall j | 0 <= j < |caches| && j != op.0 ensures caches[j].live == old(caches[j].live) { }
    }
  }

  lemma {:induction false} AllApart(b: Buddy, caches: seq<Cache>)
    requires AllGood(b, caches)
    ensures forall i, j, x, y ::
      0 <= i < |caches| && 0 <= j < |caches| && x in caches[i].live && y in caches[j].live && (i != j || x != y) ==>
      x + caches[i].geo.size <= y || y + caches[j].geo.size <= x
    ensures forall i, j, x, s ::
      0 <= i < |caches| && 0 <= j < |caches| && x in caches[i].live && s in caches[j].desc ==>
      x + caches[i].geo.size <= s || s + DESCRIPTOR <= x
  {
    hide Rings, Stored, Sorted, Chains, Tiled, Sound, Separate;
    forall i, j, x | 0 <= i < |caches| && 0 <= j < |caches| && x in caches[i].live
      ensures forall y :: y in caches[j].live && (i != j || x != y) ==>
        x + caches[i].geo.size <= y || y + caches[j].geo.size <= x
      ensures forall s :: s in caches[j].desc ==> x + caches[i].geo.size <= s || s + DESCRIPTOR <= x
    {
      var c := caches[i];
      if i == j {
        LiveApart(c.geo, c.desc, c.link, c.avail, c.live);
      } else {
        SeparateEither(caches[i], caches[j]);
        CachesApart(c, caches[j], x);
      }
    }
  }

  lemma {:induction false} SeparateEither(c: Cache, d: Cache)
    ensures Separate(c, d) <==> Separate(d, c)
  {
  }
}
