/** phys_kmalloc.c: what a cache's slabs contain, and which steps keep it. */
module SlabState {
  import opened Common
  import opened BuddyBlocks
  import opened BuddyPairs
  import opened BuddyLists
  import opened SlabGeometry
  import opened SlabRings

  datatype Desc = Desc(inuse: nat, freeList: nat)

  ghost predicate IsObject(g: Geometry, slab: nat, a: nat)
  {
    exists j: nat :: j < g.perSlab && a == ObjectAt(g, slab, j)
  }

  ghost predicate LinkCell(link: map<nat, nat>, l: seq<nat>, i: nat)
    requires i < |l|
  {
    l[i] != 0 && l[i] in link && link[l[i]] == At(l, i + 1)
  }

  /** The free objects, each holding the address of the next. */
  ghost predicate FreeChain(link: map<nat, nat>, head: nat, l: seq<nat>)
  {
    head == At(l, 0) && NoRepeats(l) && forall i :: 0 <= i < |l| ==> LinkCell(link, l, i)
  }

  /** One slab: its free list holds exactly its objects that are not live, as many as `inuse` leaves. */
  ghost predicate SlabOk(g: Geometry, slab: nat, d: Desc, av: seq<nat>, link: map<nat, nat>, live: set<nat>)
  {
    && slab > 0 && IsSlab(g, slab)
    && |av| + d.inuse == g.perSlab && FreeChain(link, d.freeList, av)
    && (forall a :: a in av <==> IsObject(g, slab, a) && a !in live)
  }

  ghost predicate Owned(g: Geometry, desc: map<nat, Desc>, a: nat)
  {
    SlabBase(g, a) in desc && IsObject(g, SlabBase(g, a), a)
  }

  /** All slabs of the cache. */
  ghost predicate Stored(g: Geometry, desc: map<nat, Desc>, link: map<nat, nat>, avail: map<nat, seq<nat>>,
                         live: set<nat>)
  {
    && desc.Keys == avail.Keys
    && (forall s :: s in desc ==> SlabOk(g, s, desc[s], avail[s], link, live))
    && (forall a :: a in live ==> Owned(g, desc, a))
  }

  /** The ring that a use count dictates. */
  function RingOf(g: Geometry, inuse: nat): nat
  {
    if inuse == g.perSlab then FULL else if inuse == 0 then FREE else PARTIAL
  }

  /** Every slab is on exactly the ring that its use count dictates. */
  ghost predicate Sorted(g: Geometry, desc: map<nat, Desc>, lists: seq<seq<nat>>)
    requires |lists| == 3
  {
    && (forall s :: s in desc ==> s in lists[RingOf(g, desc[s].inuse)])
    && (forall w, s :: 0 <= w < 3 && s in lists[w] ==> s in desc && RingOf(g, desc[s].inuse) == w)
  }

  // ----- Objects

  lemma {:induction false} ObjectsSlab(g: Geometry, slab: nat, a: nat)
    requires Sound(g) && IsSlab(g, slab) && IsObject(g, slab, a)
    ensures SlabBase(g, a) == slab && slab + DESCRIPTOR <= a && a + g.size <= slab + Bytes(g.order)
  {
    var j: nat :| j < g.perSlab && a == ObjectAt(g, slab, j);
    ObjectInside(g, slab, j);
    MaskRecovers(g, slab, a);
  }

  /** Live objects overlap neither each other nor any descriptor, and are aligned. */
  lemma {:induction false} LiveApart(g: Geometry, desc: map<nat, Desc>, link: map<nat, nat>,
                                     avail: map<nat, seq<nat>>, live: set<nat>)
    requires Sound(g) && Stored(g, desc, link, avail, live)
    ensures forall a, b :: a in live && b in live && a < b ==> a + g.size <= b
    ensures forall a, s :: a in live && s in desc ==> s + DESCRIPTOR <= a || a + g.size <= s
    ensures forall a :: a in live ==> a % g.align == 0
  {
    hide SlabBase, Bytes;
    forall a, s | a in live && s in desc ensures s + DESCRIPTOR <= a || a + g.size <= s {
      SlabsApart(g, desc, link, avail, live, a, s);
    }
    forall a, b | a in live && b in live && a < b ensures a + g.size <= b {
      TwoApart(g, desc, link, avail, live, a, b);
    }
    forall a | a in live ensures a % g.align == 0 {
      assert Owned(g, desc, a);
      var s := SlabBase(g, a);
      var j: nat :| j < g.perSlab && a == ObjectAt(g, s, j);
      assert SlabOk(g, s, desc[s], avail[s], link, live);
      ObjectAligned(g, s, j);
    }
  }

  lemma {:induction false} SlabsApart(g: Geometry, desc: map<nat, Desc>, link: map<nat, nat>,
                                      avail: map<nat, seq<nat>>, live: set<nat>, a: nat, s: nat)
    requires Sound(g) && Stored(g, desc, link, avail, live) && a in live && s in desc
    ensures s + DESCRIPTOR <= a || a + g.size <= s
    ensures SlabBase(g, a) != s ==> s + Bytes(g.order) <= a || a + g.size <= s
  {
    hide SlabBase;
    var t := SlabBase(g, a);
    assert Owned(g, desc, a);
    assert SlabOk(g, s, desc[s], avail[s], link, live) && SlabOk(g, t, desc[t], avail[t], link, live);
    ObjectsSlab(g, t, a);
    if s < t { MultiplesApart(s, t, Bytes(g.order)); }
    if t < s { MultiplesApart(t, s, Bytes(g.order)); }
  }

  lemma {:induction false} TwoApart(g: Geometry, desc: map<nat, Desc>, link: map<nat, nat>,
                                    avail: map<nat, seq<nat>>, live: set<nat>, a: nat, b: nat)
    requires Sound(g) && Stored(g, desc, link, avail, live) && a in live && b in live && a < b
    ensures a + g.size <= b
  {
    hide SlabBase, Bytes;
    var s, t := SlabBase(g, a), SlabBase(g, b);
    assert Owned(g, desc, a) && Owned(g, desc, b);
    assert SlabOk(g, s, desc[s], avail[s], link, live) && SlabOk(g, t, desc[t], avail[t], link, live);
    ObjectsSlab(g, s, a);
    ObjectsSlab(g, t, b);
    if s == t {
      var i: nat :| i < g.perSlab && a == ObjectAt(g, s, i);
      var j: nat :| j < g.perSlab && b == ObjectAt(g, s, j);
      if j < i { ObjectsApart(g, s, j, i); }
      if i < j { ObjectsApart(g, s, i, j); }
    } else {
      SlabsApart(g, desc, link, avail, live, a, t);
    }
  }

  // ----- Counting

  ghost function Objects(g: Geometry, slab: nat, n: nat): set<nat>
  {
    if n == 0 then {} else Objects(g, slab, n - 1) + {ObjectAt(g, slab, n - 1)}
  }

  lemma {:induction false} ObjectsCount(g: Geometry, slab: nat, n: nat)
    requires Sound(g)
    ensures |Objects(g, slab, n)| == n
    ensures forall a :: a in Objects(g, slab, n) <==> exists j: nat :: j < n && a == ObjectAt(g, slab, j)
    decreases n
  {
    if n > 0 {
      ObjectsCount(g, slab, n - 1);
      forall j: nat | j < n - 1
        ensures ObjectAt(g, slab, j) < ObjectAt(g, slab, n - 1) { ObjectsApart(g, slab, j, n - 1); }
      assert ObjectAt(g, slab, n - 1) !in Objects(g, slab, n - 1);
    }
  }

  /** A slab with a live object is in use; so the count never drops below 0. */
  lemma {:induction false} LiveCounts(g: Geometry, slab: nat, d: Desc, av: seq<nat>, link: map<nat, nat>,
                                      live: set<nat>, a: nat)
    requires Sound(g) && SlabOk(g, slab, d, av, link, live) && IsObject(g, slab, a) && a in live
    ensures d.inuse > 0 && a !in av
  {
    ObjectsCount(g, slab, g.perSlab);
    var all := Objects(g, slab, g.perSlab);
    assert a in all;
    NoMoreThan(av, all - {a});
  }

  // ----- Allocation

  /** Taking the first free object of slab `s`. */
  lemma {:induction false} AllocStep(g: Geometry, desc: map<nat, Desc>, link: map<nat, nat>,
                                     avail: map<nat, seq<nat>>, live: set<nat>, s: nat)
    requires Sound(g) && Stored(g, desc, link, avail, live) && s in desc && desc[s].inuse < g.perSlab
    ensures s in avail && avail[s] != [] && desc[s].freeList == avail[s][0] && desc[s].freeList != 0
    ensures desc[s].freeList in link
    ensures var a := desc[s].freeList;
            && a !in live && IsObject(g, s, a)
            && Stored(g, desc[s := Desc(desc[s].inuse + 1, link[a])], link, avail[s := avail[s][1..]], live + {a})
  {
    hide SlabBase, Bytes, IsObject;
    assert SlabOk(g, s, desc[s], avail[s], link, live);
    var av := avail[s];
    assert LinkCell(link, av, 0);
    var a := av[0];
    assert a in av;
    ObjectsSlab(g, s, a);
    TakeFirst(g, s, desc[s], av, link, live);
    var desc', avail' := desc[s := Desc(desc[s].inuse + 1, link[a])], avail[s := av[1..]];
    forall t | t in desc' ensures SlabOk(g, t, desc'[t], avail'[t], link, live + {a}) {
      assert SlabOk(g, t, desc[t], avail[t], link, live);
      if t != s { OtherSlab(g, t, desc[t], avail[t], link, link, live, live + {a}, a); }
    }
    forall b | b in live + {a} ensures Owned(g, desc', b) { assert b in live ==> Owned(g, desc, b); }
  }

  lemma {:induction false} TakeFirst(g: Geometry, s: nat, d: Desc, av: seq<nat>, link: map<nat, nat>, live: set<nat>)
    requires SlabOk(g, s, d, av, link, live) && av != [] && av[0] in link
    ensures SlabOk(g, s, Desc(d.inuse + 1, link[av[0]]), av[1..], link, live + {av[0]})
  {
    hide IsSlab;
    var r := av[1..];
    assert LinkCell(link, av, 0);
    forall i | 0 <= i < |r| ensures LinkCell(link, r, i) { assert LinkCell(link, av, i + 1); }
    assert av == [av[0]] + r;
  }

  /** A slab that does not contain `a` is not affected by a change at `a`. */
  lemma {:induction false} OtherSlab(g: Geometry, t: nat, d: Desc, av: seq<nat>, link: map<nat, nat>,
                                     link': map<nat, nat>, live: set<nat>, live': set<nat>, a: nat)
    requires Sound(g) && SlabOk(g, t, d, av, link, live) && SlabBase(g, a) != t
    requires forall b :: b != a ==> (b in live' <==> b in live) && (b in link ==> b in link' && link'[b] == link[b])
    ensures SlabOk(g, t, d, av, link', live')
  {
    if IsObject(g, t, a) { ObjectsSlab(g, t, a); }
    assert a !in av;
    forall i | 0 <= i < |av| ensures LinkCell(link', av, i) { assert LinkCell(link, av, i) && av[i] in av; }
  }

  // ----- Freeing

  /** Putting a live object back at the front of its slab's free list. */
  lemma {:induction false} FreeStep(g: Geometry, desc: map<nat, Desc>, link: map<nat, nat>,
                                    avail: map<nat, seq<nat>>, live: set<nat>, a: nat)
    requires Sound(g) && Stored(g, desc, link, avail, live) && a in live
    ensures SlabBase(g, a) in desc && SlabBase(g, a) in avail && desc[SlabBase(g, a)].inuse > 0
    ensures var s := SlabBase(g, a);
            Stored(g, desc[s := Desc(desc[s].inuse - 1, a)], link[a := desc[s].freeList],
                avail[s := [a] + avail[s]], live - {a})
  {
    hide SlabBase, Bytes, IsObject;
    var s := SlabBase(g, a);
    assert Owned(g, desc, a);
    assert SlabOk(g, s, desc[s], avail[s], link, live);
    LiveCounts(g, s, desc[s], avail[s], link, live, a);
    ObjectsSlab(g, s, a);
    PutFirst(g, s, desc[s], avail[s], link, live, a);
    var desc', avail' := desc[s := Desc(desc[s].inuse - 1, a)], avail[s := [a] + avail[s]];
    var link' := link[a := desc[s].freeList];
    forall t | t in desc' ensures SlabOk(g, t, desc'[t], avail'[t], link', live - {a}) {
      assert SlabOk(g, t, desc[t], avail[t], link, live);
      if t != s { OtherSlab(g, t, desc[t], avail[t], link, link', live, live - {a}, a); }
    }
    forall b | b in live - {a} ensures Owned(g, desc', b) { assert Owned(g, desc, b); }
  }

  lemma {:induction false} PutFirst(g: Geometry, s: nat, d: Desc, av: seq<nat>, link: map<nat, nat>, live: set<nat>,
                                    a: nat)
    requires SlabOk(g, s, d, av, link, live) && a !in av && a > 0 && IsObject(g, s, a) && d.inuse > 0
    ensures SlabOk(g, s, Desc(d.inuse - 1, a), [a] + av, link[a := d.freeList], live - {a})
  {
    hide IsSlab, IsObject;
    var r, m := [a] + av, link[a := d.freeList];
    forall i | 0 <= i < |r| ensures LinkCell(m, r, i) {
      if i > 0 { assert LinkCell(link, av, i - 1) && av[i - 1] in av; }
    }
  }

  // ----- Growing

  ghost function Row(g: Geometry, slab: nat): seq<nat> { seq(g.perSlab, (j: nat) => ObjectAt(g, slab, j)) }

  /** A new slab with every object on its free list. */
  lemma {:induction false} GrowStep(g: Geometry, desc: map<nat, Desc>, link: map<nat, nat>, link': map<nat, nat>,
                                    avail: map<nat, seq<nat>>, live: set<nat>, s: nat)
    requires Sound(g) && Stored(g, desc, link, avail, live) && s !in desc && s > 0 && IsSlab(g, s)
    requires forall i :: 0 <= i < g.perSlab ==> LinkCell(link', Row(g, s), i)
    requires forall b :: b in link && !IsObject(g, s, b) ==> b in link' && link'[b] == link[b]
    ensures Stored(g, desc[s := Desc(0, ObjectAt(g, s, 0))], link', avail[s := Row(g, s)], live)
  {
    hide SlabBase, Bytes, ObjectAt;
    var desc', avail' := desc[s := Desc(0, ObjectAt(g, s, 0))], avail[s := Row(g, s)];
    forall t | t in desc' ensures SlabOk(g, t, desc'[t], avail'[t], link', live) {
      if t != s {
        assert SlabOk(g, t, desc[t], avail[t], link, live);
        UntouchedSlab(g, s, t, desc[t], avail[t], link, link', live);
      } else {
        forall a | IsObject(g, s, a) ensures a !in live {
          ObjectsSlab(g, s, a);
          assert a in live ==> Owned(g, desc, a);
        }
        FreshSlab(g, s, link', live);
      }
    }
    forall b | b in live ensures Owned(g, desc', b) { assert Owned(g, desc, b); }
  }

  lemma {:induction false} UntouchedSlab(g: Geometry, s: nat, t: nat, d: Desc, av: seq<nat>, link: map<nat, nat>,
                                         link': map<nat, nat>, live: set<nat>)
    requires Sound(g) && IsSlab(g, s) && t != s && SlabOk(g, t, d, av, link, live)
    requires forall b :: b in link && !IsObject(g, s, b) ==> b in link' && link'[b] == link[b]
    ensures SlabOk(g, t, d, av, link', live)
  {
    hide SlabBase, Bytes, ObjectAt;
    forall i | 0 <= i < |av| ensures LinkCell(link', av, i) {
      assert LinkCell(link, av, i) && av[i] in av;
      ObjectsSlab(g, t, av[i]);
      if IsObject(g, s, av[i]) { ObjectsSlab(g, s, av[i]); }
    }
  }

  lemma {:induction false} FreshSlab(g: Geometry, s: nat, link: map<nat, nat>, live: set<nat>)
    requires Sound(g) && s > 0 && IsSlab(g, s) && forall i :: 0 <= i < g.perSlab ==> LinkCell(link, Row(g, s), i)
    requires forall a :: IsObject(g, s, a) ==> a !in live
    ensures SlabOk(g, s, Desc(0, ObjectAt(g, s, 0)), Row(g, s), link, live)
  {
    hide IsSlab, ObjectAt;
    var l := Row(g, s);
    forall i: nat, j: nat | i < j < |l| ensures l[i] != l[j] { ObjectsApart(g, s, i, j); }
    forall a ensures a in l <==> IsObject(g, s, a) {
      if IsObject(g, s, a) {
        var j: nat :| j < g.perSlab && a == ObjectAt(g, s, j);
        assert l[j] == a;
      }
    }
  }

  // ----- Moving between rings

  /** `s` is taken out of its ring and put at the front of ring `w`. */
  ghost predicate Moved(before: seq<seq<nat>>, after: seq<seq<nat>>, s: nat, w: nat)
  {
    && |before| == |after| == 3
    && forall v, x :: 0 <= v < 3 ==> (x in after[v] <==> if x == s then v == w else x in before[v])
  }

  /** The same in order: the other slabs keep their places. */
  ghost predicate MovedFront(before: seq<seq<nat>>, after: seq<seq<nat>>, s: nat, w: nat)
  {
    && |before| == |after| == 3 && w < 3
    && exists v: nat, i: nat :: v < 3 && i < |before[v]| && before[v][i] == s &&
         after == PutFront(before[v := Without(before[v], i)], s, w)
  }

  ghost function PutFront(lists: seq<seq<nat>>, s: nat, w: nat): seq<seq<nat>>
    requires w < |lists|
  {
    lists[w := [s] + lists[w]]
  }

  /** The rings after the use count of `s` went from `from` to `to`. */
  ghost predicate Recounted(g: Geometry, before: seq<seq<nat>>, after: seq<seq<nat>>, s: nat, from: nat, to: nat)
  {
    if RingOf(g, from) == RingOf(g, to) then after == before else MovedFront(before, after, s, RingOf(g, to))
  }

  lemma {:induction false} SortedAfterMove(g: Geometry, desc: map<nat, Desc>, lists: seq<seq<nat>>,
                                           lists': seq<seq<nat>>, s: nat, d: Desc)
    requires |lists| == 3 && Sorted(g, desc, lists) && s in desc && Moved(lists, lists', s, RingOf(g, d.inuse))
    ensures Sorted(g, desc[s := d], lists')
  {
  }

  lemma {:induction false} SortedInPlace(g: Geometry, desc: map<nat, Desc>, lists: seq<seq<nat>>, s: nat, d: Desc)
    requires |lists| == 3 && Sorted(g, desc, lists) && s in desc && RingOf(g, d.inuse) == RingOf(g, desc[s].inuse)
    ensures Sorted(g, desc[s := d], lists)
  {
  }
}
