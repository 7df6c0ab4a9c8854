/** phys_kmalloc.c: the three circular lists of a kmem_cache.  Each ring runs through a sentinel node in
    the cache and the list nodes embedded in the slab descriptors. */
module SlabRings {
  import opened Common
  import opened BuddyLists

  const FREE: nat := 0
  const PARTIAL: nat := 1
  const FULL: nat := 2

  datatype Node = Head(which: nat) | Slab(base: nat)
  datatype Link = Link(next: Node, prev: Node)
  type Links = map<Node, Link>

  /** The node at position `i` of the ring: the sentinel is next to both ends. */
  function NodeAt(w: nat, l: seq<nat>, i: int): Node { if 0 <= i < |l| then Slab(l[i]) else Head(w) }

  ghost predicate RingCell(links: Links, w: nat, l: seq<nat>, i: nat)
    requires i < |l|
  {
    Slab(l[i]) in links && links[Slab(l[i])] == Link(NodeAt(w, l, i + 1), NodeAt(w, l, i - 1))
  }

  /** The ring of sentinel `w` visits exactly the slabs `l`, forwards and backwards. */
  ghost predicate Ring(links: Links, w: nat, l: seq<nat>)
  {
    && NoRepeats(l)
    && Head(w) in links && links[Head(w)] == Link(NodeAt(w, l, 0), NodeAt(w, l, |l| - 1))
    && (forall i :: 0 <= i < |l| ==> RingCell(links, w, l, i))
  }

  /** All three rings, no slab on two of them. */
  ghost predicate Rings(links: Links, lists: seq<seq<nat>>)
  {
    && |lists| == 3
    && (forall w :: 0 <= w < 3 ==> Ring(links, w, lists[w]))
    && (forall v, w, s :: 0 <= v < 3 && 0 <= w < 3 && s in lists[v] && s in lists[w] ==> v == w)
  }

  // ----- The stores of a removal and of an insertion at the front

  function RemoveLinks(links: Links, x: Node): Links
    requires x in links && links[x].prev in links && links[x].next in links
  {
    var c := links[x];
    var m := links[c.prev := links[c.prev].(next := c.next)];
    m[c.next := m[c.next].(prev := c.prev)]
  }

  function FrontLinks(links: Links, w: nat, x: Node): Links
    requires Head(w) in links && links[Head(w)].next in links
  {
    var first := links[Head(w)].next;
    var m := links[x := Link(first, Head(w))];
    var m' := m[first := m[first].(prev := x)];
    m'[Head(w) := m'[Head(w)].(next := x)]
  }

  lemma {:induction false} RingFrame(links: Links, links': Links, w: nat, l: seq<nat>)
    requires Ring(links, w, l) && Head(w) in links' && links'[Head(w)] == links[Head(w)]
    requires forall s :: s in l ==> Slab(s) in links && Slab(s) in links' && links'[Slab(s)] == links[Slab(s)]
    ensures Ring(links', w, l)
  {
    forall i | 0 <= i < |l| ensures RingCell(links', w, l, i) { assert RingCell(links, w, l, i); }
  }

  lemma {:induction false} RingMembers(links: Links, w: nat, l: seq<nat>)
    requires Ring(links, w, l)
    ensures forall s :: s in l ==> Slab(s) in links
  {
    forall s | s in l ensures Slab(s) in links {
      var i :| 0 <= i < |l| && l[i] == s;
      assert RingCell(links, w, l, i);
    }
  }

  // ----- Insertion

  lemma {:induction false} FrontRing(links: Links, w: nat, l: seq<nat>, s: nat)
    requires Ring(links, w, l) && s !in l
    ensures links[Head(w)].next in links
    ensures Ring(FrontLinks(links, w, Slab(s)), w, [s] + l)
  {
    assert l != [] ==> RingCell(links, w, l, 0);
    var m, r := FrontLinks(links, w, Slab(s)), [s] + l;
    forall i | 0 <= i < |r| ensures RingCell(m, w, r, i) {
      if i > 0 {
        assert RingCell(links, w, l, i - 1);
        assert r[i] == l[i - 1] && l[i - 1] in l;
        if i > 1 { assert l[0] != l[i - 1]; }
      }
    }
    assert NodeAt(w, r, |r| - 1) == if l == [] then Slab(s) else Slab(l[|l| - 1]);
  }

  lemma {:induction false} FrontRings(links: Links, lists: seq<seq<nat>>, w: nat, s: nat)
    requires Rings(links, lists) && w < 3 && forall v :: 0 <= v < 3 ==> s !in lists[v]
    ensures Head(w) in links && links[Head(w)].next in links
    ensures Rings(FrontLinks(links, w, Slab(s)), lists[w := [s] + lists[w]])
  {
    FrontRing(links, w, lists[w], s);
    var m, r := FrontLinks(links, w, Slab(s)), lists[w := [s] + lists[w]];
    assert lists[w] != [] ==> lists[w][0] in lists[w];
    forall v | 0 <= v < 3 && v != w ensures Ring(m, v, r[v]) {
      RingMembers(links, v, lists[v]);
      RingFrame(links, m, v, lists[v]);
    }
  }

  // ----- Removal

  lemma {:induction false} Neighbours(links: Links, w: nat, l: seq<nat>, i: nat)
    requires Ring(links, w, l) && i < |l|
    ensures RingCell(links, w, l, i) && (i > 0 ==> RingCell(links, w, l, i - 1))
    ensures (i + 1 < |l| ==> RingCell(links, w, l, i + 1))
    ensures links[Slab(l[i])].prev in links && links[Slab(l[i])].next in links
  {
    assert i > 0 ==> RingCell(links, w, l, i - 1);
    assert i + 1 < |l| ==> RingCell(links, w, l, i + 1);
  }

  lemma {:induction false} RemoveCell(links: Links, w: nat, l: seq<nat>, i: nat, o: nat)
    requires Ring(links, w, l) && i < |l| && o < |l| && o != i
    ensures Slab(l[i]) in links && links[Slab(l[i])].prev in links && links[Slab(l[i])].next in links
    ensures var m := RemoveLinks(links, Slab(l[i]));
            Slab(l[o]) in m &&
            m[Slab(l[o])] == Link(if o == i - 1 then NodeAt(w, l, i + 1) else NodeAt(w, l, o + 1),
                if o == i + 1 then NodeAt(w, l, i - 1) else NodeAt(w, l, o - 1))
  {
    Neighbours(links, w, l, i);
    assert RingCell(links, w, l, o);
    assert l[o] != l[i];
    assert o != i - 1 && i > 0 ==> l[o] != l[i - 1];
    assert o != i + 1 && i + 1 < |l| ==> l[o] != l[i + 1];
  }

  lemma {:induction false} RemoveHead(links: Links, w: nat, l: seq<nat>, i: nat)
    requires Ring(links, w, l) && i < |l|
    ensures Slab(l[i]) in links && links[Slab(l[i])].prev in links && links[Slab(l[i])].next in links
    ensures var m := RemoveLinks(links, Slab(l[i]));
            Head(w) in m &&
            m[Head(w)] == Link(if i == 0 then NodeAt(w, l, 1) else NodeAt(w, l, 0),
                if i == |l| - 1 then NodeAt(w, l, i - 1) else NodeAt(w, l, |l| - 1))
  {
    Neighbours(links, w, l, i);
  }

  lemma {:induction false} WithoutNodes(w: nat, l: seq<nat>, i: nat, j: nat)
    requires i < |l| && j < |l| - 1
    ensures var r, o := Without(l, i), if j < i then j else j + 1;
            && r[j] == l[o]
            && NodeAt(w, r, j + 1) == (if o == i - 1 then NodeAt(w, l, i + 1) else NodeAt(w, l, o + 1))
            && NodeAt(w, r, j - 1) == (if o == i + 1 then NodeAt(w, l, i - 1) else NodeAt(w, l, o - 1))
  {
  }

  lemma {:induction false} WithoutEnds(w: nat, l: seq<nat>, i: nat)
    requires i < |l|
    ensures var r := Without(l, i);
            && |r| == |l| - 1
            && NodeAt(w, r, 0) == (if i == 0 then NodeAt(w, l, 1) else NodeAt(w, l, 0))
            && NodeAt(w, r, |r| - 1) == (if i == |l| - 1 then NodeAt(w, l, i - 1) else NodeAt(w, l, |l| - 1))
  {
  }

  lemma {:induction false} RemoveRing(links: Links, w: nat, l: seq<nat>, i: nat)
    requires Ring(links, w, l) && i < |l|
    ensures Slab(l[i]) in links && links[Slab(l[i])].prev in links && links[Slab(l[i])].next in links
    ensures Ring(RemoveLinks(links, Slab(l[i])), w, Without(l, i))
  {
    hide RemoveLinks, Without, NodeAt;
    Neighbours(links, w, l, i);
    WithoutNoRepeats(l, i);
    WithoutEnds(w, l, i);
    RemoveHead(links, w, l, i);
    var m, r := RemoveLinks(links, Slab(l[i])), Without(l, i);
    forall j | 0 <= j < |r| ensures RingCell(m, w, r, j) {
      RemoveCell(links, w, l, i, if j < i then j else j + 1);
      WithoutNodes(w, l, i, j);
    }
  }

  lemma {:induction false} RemoveRings(links: Links, lists: seq<seq<nat>>, w: nat, i: nat)
    requires Rings(links, lists) && w < 3 && i < |lists[w]|
    ensures var x := Slab(lists[w][i]); x in links && links[x].prev in links && links[x].next in links
    ensures Rings(RemoveLinks(links, Slab(lists[w][i])), lists[w := Without(lists[w], i)])
    ensures forall v, s :: 0 <= v < 3 && s in lists[w := Without(lists[w], i)][v] ==> s in lists[v] && s != lists[w][i]
  {
    var l := lists[w];
    RemoveRing(links, w, l, i);
    WithoutElements(l, i);
    Neighbours(links, w, l, i);
    assert i > 0 ==> l[i - 1] in l;
    assert i + 1 < |l| ==> l[i + 1] in l;
    assert l[i] in l;
    var m, r := RemoveLinks(links, Slab(l[i])), lists[w := Without(l, i)];
    forall v | 0 <= v < 3 && v != w ensures Ring(m, v, r[v]) {
      RingMembers(links, v, lists[v]);
      RingFrame(links, m, v, lists[v]);
    }
  }

  /** Moving a slab from one ring to the front of another. */
  lemma {:induction false} MoveRings(links: Links, lists: seq<seq<nat>>, v: nat, i: nat, w: nat)
    requires Rings(links, lists) && v < 3 && w < 3 && i < |lists[v]|
    ensures var x := Slab(lists[v][i]); x in links && links[x].prev in links && links[x].next in links
    ensures var m := RemoveLinks(links, Slab(lists[v][i])); Head(w) in m && m[Head(w)].next in m
    ensures var r := lists[v := Without(lists[v], i)];
            Rings(FrontLinks(RemoveLinks(links, Slab(lists[v][i])), w, Slab(lists[v][i])), r[w := [lists[v][i]] + r[w]])
  {
    hide Ring, RemoveLinks, FrontLinks;
    RemoveRings(links, lists, v, i);
    FrontRings(RemoveLinks(links, Slab(lists[v][i])), lists[v := Without(lists[v], i)], w, lists[v][i]);
  }
}
