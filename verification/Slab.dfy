/** phys_kmalloc.c: a kmem_cache on top of the buddy allocator. */
module Slab {
  import opened Common
  import opened BuddyBlocks
  import opened BuddyLists
  import BuddyPairs
  import opened Buddy
  import opened SlabGeometry
  import opened SlabRings
  import opened SlabState

  /** `after` is `free` with `block` cut from a smallest sufficient free block. */
  ghost predicate CutFrom(free: set<Block>, block: Block, after: set<Block>)
  {
    exists idx :: block.order <= idx && Block(block.addr, idx) in free &&
      after == BuddyPairs.Carved(free, block.addr, block.order, idx) &&
      forall b :: b in free ==> b.order < block.order || idx <= b.order
  }

  class Cache {
    const geo: Geometry
    const buddy: Buddy
    var links: Links             // the ring nodes: three sentinels and one node per slab
    var desc: map<nat, Desc>     // the descriptors, by slab address
    var link: map<nat, nat>      // the word at the start of each free object
    ghost var lists: seq<seq<nat>>
    ghost var avail: map<nat, seq<nat>>
    ghost var live: set<nat>     // the objects that are handed out

    /** Every slab is a live buddy block of the cache's order. */
    ghost predicate OnBuddy()
      reads this, buddy
    {
      forall s :: s in desc ==> s % 0x1000 == 0 && Block(s / 0x1000, geo.order) in buddy.live
    }

    ghost function BlockAt(s: nat): Block { Block(s / 0x1000, geo.order) }

    ghost predicate Valid()
      reads this, buddy, buddy.heads
    {
      && Sound(geo) && geo.size >= 8 && buddy.Valid() && OnBuddy()
      && Rings(links, lists) && Stored(geo, desc, link, avail, live) && Sorted(geo, desc, lists)
    }

    /** kmem_cache_create_sl, for objects that can hold a free-list link. */
    constructor (b: Buddy, g: Geometry)
      requires b.Valid() && Sound(g) && g.size >= 8
      ensures Valid() && buddy == b && geo == g && live == {} && desc == map[]
    {
      geo, buddy := g, b;
      links := map w: nat | w < 3 :: Head(w) := Link(Head(w), Head(w));
      desc, link := map[], map[];
      lists, avail, live := [[], [], []], map[], {};
    }

    // ----- kmem_cache_grow

    /** Adds a slab with all its objects free, cut from the buddy allocator, or fails and changes nothing. */
    method Grow() returns (ok: bool)
      requires Valid()
      modifies this`links, this`desc, this`link, this`lists, this`avail
      modifies buddy`mem, buddy`lists, buddy`live, buddy.heads, buddy.bits
      ensures Valid() && old(buddy.live) <= buddy.live
      ensures ok <==> exists b :: b in old(buddy.Free()) && geo.order <= b.order
      ensures !ok ==>
        links == old(links) && desc == old(desc) && link == old(link) && lists == old(lists) &&
        avail == old(avail) && buddy.live == old(buddy.live) && buddy.Free() == old(buddy.Free())
      ensures ok ==> exists s :: s !in old(desc) && lists == old(lists)[FREE := [s] + old(lists)[FREE]] &&
                                desc.Keys == old(desc).Keys + {s} && BlockAt(s) !in old(buddy.live) &&
                                desc[s] == Desc(0, ObjectAt(geo, s, 0)) &&
                                CutFrom(old(buddy.Free()), BlockAt(s), buddy.Free())
    {
      hide Rings, Stored, Sorted, Sound, IsSlab, Pow2, Tiled, Chains, BuddyPairs.Carved, FreeSet, ObjectAt;
      ghost var freeBlocks := buddy.Free();
      ghost var k, idx;
      var page;
      page, k, idx := buddy.Kalloc(Bytes(geo.order));
      WholeRequest(geo.order, k);
      EnoughIff(freeBlocks, geo.order);
      if page == 0 { return false; }
      NewSlab(buddy, geo, page);
      AddSlab(page);
      assert page * 0x1000 / 0x1000 == page;
      assert CutFrom(freeBlocks, BlockAt(page * 0x1000), buddy.Free());
      return true;
    }

    /** Writes the descriptor, threads the objects and inserts the slab at the front of the free ring. */
    method AddSlab(page: nat)
      requires Valid() && page > 0 && IsSlab(geo, page * 0x1000) && page * 0x1000 !in desc
      requires Block(page, geo.order) in buddy.live
      modifies this`links, this`desc, this`link, this`lists, this`avail
      ensures Valid() && desc.Keys == old(desc).Keys + {page * 0x1000}
      ensures desc[page * 0x1000] == Desc(0, ObjectAt(geo, page * 0x1000, 0))
      ensures lists == old(lists)[FREE := [page * 0x1000] + old(lists)[FREE]]
    {
      hide Ring, Stored, Sorted, Sound, IsSlab, Pow2, Tiled, Chains, ObjectAt;
      var s := page * 0x1000;
      var link' := Thread(s);
      GrowStep(geo, desc, link, link', avail, live, s);
      NewUnlisted(geo, desc, lists, s);
      FrontRings(links, lists, FREE, s);
      SortedAfterGrow(geo, desc, lists, s, ObjectAt(geo, s, 0));
      desc := desc[s := Desc(0, ObjectAt(geo, s, 0))];
      link := link';
      PushFront(FREE, s);
      avail := avail[s := Row(geo, s)];
    }

    /** Inserts the node of slab `s` behind sentinel `w`. */
    method PushFront(w: nat, s: nat)
      requires Rings(links, lists) && w < 3 && forall v :: 0 <= v < 3 ==> s !in lists[v]
      modifies this`links, this`lists
      ensures Rings(links, lists) && lists == old(lists)[w := [s] + old(lists)[w]]
    {
      hide Ring;
      FrontRings(links, lists, w, s);
      ghost var before := links;
      var first := links[Head(w)].next;
      links := links[Slab(s) := Link(first, Head(w))];
      links := links[first := links[first].(prev := Slab(s))];
      links := links[Head(w) := links[Head(w)].(next := Slab(s))];
      lists := lists[w := [s] + lists[w]];
      assert links == FrontLinks(before, w, Slab(s));
    }

    /** Takes the node of slab `s` out of its ring and inserts it behind sentinel `w`. */
    method Move(s: nat, w: nat)
      requires Rings(links, lists) && w < 3 && exists v :: 0 <= v < 3 && s in lists[v]
      modifies this`links, this`lists
      ensures Rings(links, lists) && Moved(old(lists), lists, s, w) && MovedFront(old(lists), lists, s, w)
    {
      hide Ring;
      ghost var v :| 0 <= v < 3 && s in lists[v];
      ghost var i :| 0 <= i < |lists[v]| && lists[v][i] == s;
      MoveRings(links, lists, v, i, w);
      ghost var before := links;
      var c := links[Slab(s)];
      links := links[c.prev := links[c.prev].(next := c.next)];
      links := links[c.next := links[c.next].(prev := c.prev)];
      ghost var mid := links;
      assert mid == RemoveLinks(before, Slab(s));
      var first := links[Head(w)].next;
      links := links[Slab(s) := Link(first, Head(w))];
      links := links[first := links[first].(prev := Slab(s))];
      links := links[Head(w) := links[Head(w)].(next := Slab(s))];
      assert links == FrontLinks(mid, w, Slab(s));
      MovedLists(before, lists, v, i, w, s);
      ghost var r := lists[v := Without(lists[v], i)];
      lists := PutFront(r, s, w);
    }

    // ----- kmem_cache_kalloc

    /** Hands out an object that was not live, from a partial slab if there is one, else from a free slab,
        else from a new slab; 0 iff there is none of these and the buddy allocator has no block left. */
    method Kalloc() returns (obj: nat)
      requires Valid()
      modifies this`links, this`desc, this`link, this`lists, this`avail, this`live
      modifies buddy`mem, buddy`lists, buddy`live, buddy.heads, buddy.bits
      ensures Valid() && old(buddy.live) <= buddy.live
      ensures obj == 0 <==> old(lists)[PARTIAL] == [] && old(lists)[FREE] == [] &&
                            !(exists b :: b in old(buddy.Free()) && geo.order <= b.order)
      ensures obj == 0 ==> links == old(links) && desc == old(desc) && link == old(link) && live == old(live)
      ensures obj == 0 || old(lists)[PARTIAL] != [] || old(lists)[FREE] != [] ==>
        desc.Keys == old(desc).Keys && buddy.Free() == old(buddy.Free()) && buddy.live == old(buddy.live)
      ensures obj != 0 && old(lists)[PARTIAL] == [] && old(lists)[FREE] == [] ==>
        var s := SlabBase(geo, obj);
        s !in old(desc) && desc.Keys == old(desc).Keys + {s} && CutFrom(old(buddy.Free()), BlockAt(s), buddy.Free())
      ensures obj != 0 ==> obj !in old(live) && live == old(live) + {obj} && Owned(geo, desc, obj)
      ensures old(lists)[PARTIAL] != [] ==>
        var s := old(lists)[PARTIAL][0];
        obj != 0 && TakenFrom(old(desc), s, obj) && AfterTaking(old(desc), old(lists), old(avail), s)
      ensures old(lists)[PARTIAL] == [] && old(lists)[FREE] != [] ==>
        var s := old(lists)[FREE][0];
        obj != 0 && TakenFrom(old(desc), s, obj) && AfterTaking(old(desc), old(lists), old(avail), s)
      ensures obj != 0 && old(lists)[PARTIAL] == [] && old(lists)[FREE] == [] ==>
        obj == ObjectAt(geo, SlabBase(geo, obj), 0)
      ensures old(desc).Keys <= desc.Keys
      ensures forall s :: s in desc && s !in old(desc) ==> BlockAt(s) !in old(buddy.live)
    {
      hide Ring, Stored, Sorted, Sound, IsSlab, Pow2, Tiled, Chains, SlabBase, Owned, CutFrom, FreeSet, ObjectAt,
        Recounted;
      var s: nat;
      FirstOfRing(links, lists, PARTIAL);
      FirstOfRing(links, lists, FREE);
      if links[Head(PARTIAL)].next != Head(PARTIAL) {
        s := links[Head(PARTIAL)].next.base;
        NotFull(geo, desc, lists, PARTIAL, s);
      } else if links[Head(FREE)].next != Head(FREE) {
        s := links[Head(FREE)].next.base;
        NotFull(geo, desc, lists, FREE, s);
      } else {
        var ok := Grow();
        if !ok { return 0; }
        FirstOfRing(links, lists, FREE);
        s := links[Head(FREE)].next.base;
        NotFull(geo, desc, lists, FREE, s);
      }
      InUseAtMost(geo, desc, link, avail, live, s);
      obj := TakeFrom(s);
    }

    /** `obj` was the head of the free list of slab `s`. */
    ghost predicate TakenFrom(before: map<nat, Desc>, s: nat, obj: nat)
    {
      s in before && obj == before[s].freeList && SlabBase(geo, obj) == s
    }

    /** The rings and the free lists after the first free object of slab `s` was handed out. */
    ghost predicate AfterTaking(before: map<nat, Desc>, rings: seq<seq<nat>>, av: map<nat, seq<nat>>, s: nat)
      reads this
    {
      && s in before && Recounted(geo, rings, lists, s, before[s].inuse, before[s].inuse + 1)
      && s in av && av[s] != [] && avail == av[s := av[s][1..]]
    }

    /** Pops the first free object of slab `s` and moves the slab to the ring of its new count. */
    method TakeFrom(s: nat) returns (obj: nat)
      requires Valid() && s in desc && desc[s].inuse < geo.perSlab
      modifies this`links, this`desc, this`lists, this`avail, this`live
      ensures Valid() && obj != 0 && obj !in old(live) && live == old(live) + {obj}
      ensures Owned(geo, desc, obj) && SlabBase(geo, obj) == s && desc.Keys == old(desc).Keys
      ensures obj == old(desc)[s].freeList
      ensures AfterTaking(old(desc), old(lists), old(avail), s)
    {
      hide Ring, Stored, Sorted, IsSlab, Pow2, Tiled, Chains, SlabBase, Owned, Moved, MovedFront, ObjectAt, ObjectAlign;
      OnSomeRing(geo, desc, lists, s);
      AllocStep(geo, desc, link, avail, live, s);
      ghost var before, ls := desc, lists;
      obj := desc[s].freeList;
      var d := Desc(desc[s].inuse + 1, link[obj]);
      TakenOwned(geo, desc, link, avail, live, s, obj, d);
      if d.inuse == geo.perSlab {
        Move(s, FULL);
        SortedAfterMove(geo, before, ls, lists, s, d);
      } else if d.inuse == 1 {
        Move(s, PARTIAL);
        SortedAfterMove(geo, before, ls, lists, s, d);
      } else {
        SortedInPlace(geo, before, ls, s, d);
      }
      desc := desc[s := d];
      avail, live := avail[s := avail[s][1..]], live + {obj};
    }

    // ----- kmem_cache_kfree

    /** Returns a live object to the slab that the address mask finds. */
    method Kfree(obj: nat)
      requires Valid() && obj in live
      modifies this`links, this`desc, this`link, this`lists, this`avail, this`live
      ensures Valid() && live == old(live) - {obj}
      ensures avail == old(avail)[SlabBase(geo, obj) := [obj] + old(avail)[SlabBase(geo, obj)]]
      ensures desc.Keys == old(desc).Keys
      ensures SlabBase(geo, obj) in old(desc) && old(desc)[SlabBase(geo, obj)].inuse > 0
      ensures var s := SlabBase(geo, obj);
              Recounted(geo, old(lists), lists, s, old(desc)[s].inuse, old(desc)[s].inuse - 1)
    {
      hide Ring, Stored, Sorted, IsSlab, Pow2, Tiled, Chains, SlabBase, Moved, MovedFront, ObjectAt, ObjectAlign;
      var s := SlabBase(geo, obj);
      FreeStep(geo, desc, link, avail, live, obj);
      OnSomeRing(geo, desc, lists, s);
      ghost var before, ls := desc, lists;
      var d := Desc(desc[s].inuse - 1, obj);
      InUseAtMost(geo, desc, link, avail, live, s);
      if d.inuse == 0 {
        Move(s, FREE);
        SortedAfterMove(geo, before, ls, lists, s, d);
      } else if d.inuse == geo.perSlab - 1 {
        Move(s, PARTIAL);
        SortedAfterMove(geo, before, ls, lists, s, d);
      } else {
        SortedInPlace(geo, before, ls, s, d);
      }
      link := link[obj := desc[s].freeList];
      desc := desc[s := d];
      avail, live := avail[s := [obj] + avail[s]], live - {obj};
    }

    /** Threads the free list through the new slab's objects. */
    method Thread(s: nat) returns (m: map<nat, nat>)
      requires Sound(geo) && s > 0
      ensures forall i :: 0 <= i < geo.perSlab ==> LinkCell(m, Row(geo, s), i)
      ensures forall b :: b in link && !IsObject(geo, s, b) ==> b in m && m[b] == link[b]
    {
      hide ObjectAt, Sound;
      m := link;
      ghost var l := Row(geo, s);
      var idx := 0;
      while idx < geo.perSlab
        invariant 0 <= idx <= geo.perSlab
        invariant forall i :: 0 <= i < idx ==> LinkCell(m, l, i)
        invariant forall b :: b in link && !IsObject(geo, s, b) ==> b in m && m[b] == link[b]
      {
        var a := ObjectAt(geo, s, idx);
        ghost var before := m;
        assert l[idx] == a && IsObject(geo, s, a);
        NextObject(geo, s, idx);
        m := m[a := if idx < geo.perSlab - 1 then a + geo.size else 0];
        forall i | 0 <= i < idx ensures LinkCell(m, l, i) {
          assert LinkCell(before, l, i);
          ObjectsApart(geo, s, i, idx);
        }
        assert LinkCell(m, l, idx);
        idx := idx + 1;
      }
    }
  }

  lemma {:induction false} NextObject(g: Geometry, s: nat, j: nat)
    requires s > 0
    ensures ObjectAt(g, s, j) > 0 && ObjectAt(g, s, j + 1) == ObjectAt(g, s, j) + g.size
  {
    assert (j + 1) * g.size == j * g.size + g.size;
  }

  lemma {:induction false} WholeRequest(order: nat, k: nat)
    requires IsOrderOf(k, Bytes(order))
    ensures k == order
  {
    if order > 0 { Pow2Monotone(order - 1, order); }
    OrderUnique(k, order, Bytes(order));
  }

  lemma {:induction false} EnoughIff(free: set<Block>, order: nat)
    ensures (exists b :: b in free && Bytes(order) <= Pow2(b.order) * 0x1000) <==>
      exists b :: b in free && order <= b.order
  {
    forall b | b in free ensures Bytes(order) <= Pow2(b.order) * 0x1000 <==> order <= b.order {
      if order <= b.order { Pow2Monotone(order, b.order); } else { Pow2Monotone(b.order, order); }
    }
  }

  /** A buddy block is aligned to its own size, so it can serve as a slab. */
  lemma {:induction false} NewSlab(buddy: Buddy, g: Geometry, page: nat)
    requires buddy.Valid() && Block(page, g.order) in buddy.live && page > 0
    ensures IsSlab(g, page * 0x1000)
  {
    hide Chains;
    assert Block(page, g.order) in buddy.Free() + buddy.live;
    ScaledMultiple(page, Pow2(g.order), 0x1000);
  }

  lemma {:induction false} ScaledMultiple(x: nat, s: nat, c: nat)
    requires s > 0 && c > 0 && x % s == 0
    ensures (x * c) % (s * c) == 0
  {
    var q := x / s;
    assert x == s * q;
    assert (s * q) * c == (s * c) * q;
    Quotient(x * c, s * c, q, 0);
  }

  lemma {:induction false} NewUnlisted(g: Geometry, desc: map<nat, Desc>, lists: seq<seq<nat>>, s: nat)
    requires |lists| == 3 && Sorted(g, desc, lists) && s !in desc
    ensures forall v :: 0 <= v < 3 ==> s !in lists[v]
  {
  }

  lemma {:induction false} SortedAfterGrow(g: Geometry, desc: map<nat, Desc>, lists: seq<seq<nat>>, s: nat, first: nat)
    requires |lists| == 3 && Sorted(g, desc, lists) && s !in desc && Sound(g)
    ensures Sorted(g, desc[s := Desc(0, first)], lists[FREE := [s] + lists[FREE]])
  {
  }

  lemma {:induction false} FirstOfRing(links: Links, lists: seq<seq<nat>>, w: nat)
    requires Rings(links, lists) && w < 3
    ensures Head(w) in links
    ensures links[Head(w)].next == if lists[w] == [] then Head(w) else Slab(lists[w][0])
  {
    assert Ring(links, w, lists[w]);
  }

  lemma {:induction false} OnSomeRing(g: Geometry, desc: map<nat, Desc>, lists: seq<seq<nat>>, s: nat)
    requires |lists| == 3 && Sorted(g, desc, lists) && s in desc
    ensures exists v :: 0 <= v < 3 && s in lists[v]
  {
    assert s in lists[RingOf(g, desc[s].inuse)];
  }

  lemma {:induction false} NotFull(g: Geometry, desc: map<nat, Desc>, lists: seq<seq<nat>>, w: nat, s: nat)
    requires Sound(g) && |lists| == 3 && Sorted(g, desc, lists) && w < 2 && s in lists[w]
    ensures s in desc && desc[s].inuse != g.perSlab
  {
  }

  lemma {:induction false} MovedLists(links: Links, lists: seq<seq<nat>>, v: nat, i: nat, w: nat, s: nat)
    requires Rings(links, lists) && v < 3 && w < 3 && i < |lists[v]| && lists[v][i] == s
    ensures var r := lists[v := Without(lists[v], i)]; Moved(lists, r[w := [s] + r[w]], s, w)
  {
    assert Ring(links, v, lists[v]);
    WithoutElements(lists[v], i);
    assert s in lists[v];
  }

  lemma {:induction false} TakenOwned(g: Geometry, desc: map<nat, Desc>, link: map<nat, nat>,
                                      avail: map<nat, seq<nat>>, live: set<nat>, s: nat, a: nat, d: Desc)
    requires Sound(g) && Stored(g, desc, link, avail, live) && s in desc && IsObject(g, s, a)
    ensures Owned(g, desc[s := d], a) && SlabBase(g, a) == s
  {
    assert SlabOk(g, s, desc[s], avail[s], link, live);
    ObjectsSlab(g, s, a);
  }

  lemma {:induction false} InUseAtMost(g: Geometry, desc: map<nat, Desc>, link: map<nat, nat>,
                                       avail: map<nat, seq<nat>>, live: set<nat>, s: nat)
    requires Stored(g, desc, link, avail, live) && s in desc
    ensures desc[s].inuse <= g.perSlab
  {
    assert SlabOk(g, s, desc[s], avail[s], link, live);
  }
}
