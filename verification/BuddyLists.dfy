/** phys_kmalloc.c: the intrusive free lists.  The two links of a free block live in its first page. */
module BuddyLists {
  import opened Common
  import opened BuddyBlocks

  datatype Chunk = Chunk(next: nat, prev: nat)

  /** The links stored in each page; page 0 stands for NULL. */
  type Memory = map<nat, Chunk>

  function At(l: seq<nat>, i: int): nat { if 0 <= i < |l| then l[i] else 0 }

  /** The links of the `i`-th page of `l` are its neighbours in `l`. */
  ghost predicate Joined(mem: Memory, l: seq<nat>, i: nat)
    requires i < |l|
  {
    l[i] != 0 && l[i] in mem && mem[l[i]] == Chunk(At(l, i + 1), At(l, i - 1))
  }

  /** `head` leads a well-formed doubly linked list of the pages `l`. */
  ghost predicate Chain(mem: Memory, head: nat, l: seq<nat>)
  {
    && head == At(l, 0) && NoRepeats(l)
    && (forall i :: 0 <= i < |l| ==> Joined(mem, l, i))
  }

  /** One chain per order, no page on two of them. */
  ghost predicate Chains(mem: Memory, heads: seq<nat>, lists: seq<seq<nat>>)
  {
    && |heads| == |lists| == MAX_ORDER + 1
    && (forall k :: 0 <= k < |lists| ==> Chain(mem, heads[k], lists[k]))
    && (forall j, k, a :: 0 <= j < |lists| && 0 <= k < |lists| && a in lists[j] && a in lists[k] ==> j == k)
  }

  /** The stores that put `a` at the front of the list led by `head`. */
  function PushMem(mem: Memory, head: nat, a: nat): Memory
    requires head == 0 || head in mem
  {
    var m := mem[a := Chunk(head, 0)];
    if head == 0 then m else m[head := m[head].(prev := a)]
  }

  /** The stores that take `a` out of its list. */
  function UnlinkMem(mem: Memory, a: nat): Memory
    requires a in mem
    requires mem[a].prev == 0 || mem[a].prev in mem
    requires mem[a].next == 0 || mem[a].next in mem
  {
    var c := mem[a];
    var m := if c.prev == 0 then mem else mem[c.prev := mem[c.prev].(next := c.next)];
    var m' := if c.next == 0 then m else m[c.next := m[c.next].(prev := c.prev)];
    m'[a := Chunk(0, 0)]
  }

  function UnlinkHead(mem: Memory, head: nat, a: nat): nat
    requires a in mem
  {
    if mem[a].prev == 0 then mem[a].next else head
  }

  lemma {:induction false} ChainMembers(mem: Memory, head: nat, l: seq<nat>)
    requires Chain(mem, head, l)
    ensures forall a :: a in l ==> a in mem && a != 0
  {
    forall a | a in l ensures a in mem && a != 0 {
      var j :| 0 <= j < |l| && l[j] == a;
      assert Joined(mem, l, j);
    }
  }

  lemma {:induction false} ChainFrame(mem: Memory, mem': Memory, head: nat, l: seq<nat>)
    requires Chain(mem, head, l) && forall a :: a in l ==> a in mem' && a in mem && mem'[a] == mem[a]
    ensures Chain(mem', head, l)
  {
    forall i | 0 <= i < |l| ensures Joined(mem', l, i) { assert Joined(mem, l, i); }
  }

  lemma {:induction false} PushChain(mem: Memory, head: nat, l: seq<nat>, a: nat)
    requires Chain(mem, head, l) && a != 0 && a !in l
    ensures head == 0 || head in mem
    ensures Chain(PushMem(mem, head, a), a, [a] + l)
  {
    assert l != [] ==> Joined(mem, l, 0);
    var m, r := PushMem(mem, head, a), [a] + l;
    forall i | 0 <= i < |r| ensures Joined(m, r, i) {
      if i > 0 {
        assert Joined(mem, l, i - 1);
        assert r[i] == l[i - 1] && l[i - 1] in l;
        if i > 1 { assert l[0] != l[i - 1]; }
      }
    }
  }

  function Without(l: seq<nat>, i: nat): seq<nat> requires i < |l| { l[..i] + l[i + 1..] }

  lemma {:induction false} WithoutElements(l: seq<nat>, i: nat)
    requires i < |l| && NoRepeats(l)
    ensures forall a :: a in Without(l, i) <==> a in l && a != l[i]
  {
    var r := Without(l, i);
    forall a | a in l && a != l[i] ensures a in r {
      var j :| 0 <= j < |l| && l[j] == a;
      assert r[if j < i then j else j - 1] == a;
    }
    forall a | a in r ensures a in l && a != l[i] {
      var j :| 0 <= j < |r| && r[j] == a;
      assert a == l[if j < i then j else j + 1];
    }
  }

  lemma {:induction false} WithoutNoRepeats(l: seq<nat>, i: nat)
    requires i < |l| && NoRepeats(l)
    ensures NoRepeats(Without(l, i))
  {
    var r := Without(l, i);
    forall j, k | 0 <= j < k < |r| ensures r[j] != r[k] {
      assert r[j] == l[if j < i then j else j + 1] && r[k] == l[if k < i then k else k + 1];
    }
  }

  lemma {:induction false} UnlinkNeighbours(mem: Memory, head: nat, l: seq<nat>, i: nat)
    requires Chain(mem, head, l) && i < |l|
    ensures Joined(mem, l, i)
    ensures i > 0 ==> Joined(mem, l, i - 1)
    ensures i + 1 < |l| ==> Joined(mem, l, i + 1)
  {
  }

  lemma {:induction false} UnlinkCell(mem: Memory, head: nat, l: seq<nat>, i: nat, o: nat)
    requires Chain(mem, head, l) && i < |l| && o < |l| && o != i
    ensures l[i] in mem && mem[l[i]] == Chunk(At(l, i + 1), At(l, i - 1))
    ensures i > 0 ==> l[i - 1] in mem && l[i - 1] != 0
    ensures i + 1 < |l| ==> l[i + 1] in mem && l[i + 1] != 0
    ensures var m := UnlinkMem(mem, l[i]);
            l[o] != 0 && l[o] in m &&
            m[l[o]] == Chunk(if o == i - 1 then At(l, i + 1) else At(l, o + 1),
                if o == i + 1 then At(l, i - 1) else At(l, o - 1))
  {
    UnlinkNeighbours(mem, head, l, i);
    assert l[o] != l[i];
    assert Joined(mem, l, o);
    assert o != i - 1 && i > 0 ==> l[o] != l[i - 1];
    assert o != i + 1 && i + 1 < |l| ==> l[o] != l[i + 1];
  }

  lemma {:induction false} WithoutLinks(l: seq<nat>, i: nat, j: nat)
    requires i < |l| && j < |l| - 1
    ensures var r, o := Without(l, i), if j < i then j else j + 1;
            && r[j] == l[o]
            && At(r, j + 1) == (if o == i - 1 then At(l, i + 1) else At(l, o + 1))
            && At(r, j - 1) == (if o == i + 1 then At(l, i - 1) else At(l, o - 1))
  {
  }

  lemma {:induction false} UnlinkChain(mem: Memory, head: nat, l: seq<nat>, i: nat)
    requires Chain(mem, head, l) && i < |l|
    ensures l[i] in mem && (mem[l[i]].prev == 0 || mem[l[i]].prev in l) && (mem[l[i]].next == 0 || mem[l[i]].next in l)
    ensures forall a :: a in l ==> a in mem
    ensures Chain(UnlinkMem(mem, l[i]), UnlinkHead(mem, head, l[i]), Without(l, i))
  {
    hide UnlinkMem, Without;
    UnlinkNeighbours(mem, head, l, i);
    WithoutNoRepeats(l, i);
    var m, r := UnlinkMem(mem, l[i]), Without(l, i);
    WithoutHead(l, i);
    forall j | 0 <= j < |r| ensures Joined(m, r, j) {
      UnlinkCell(mem, head, l, i, if j < i then j else j + 1);
      WithoutLinks(l, i, j);
    }
    ChainMembers(mem, head, l);
  }

  lemma {:induction false} WithoutHead(l: seq<nat>, i: nat)
    requires i < |l|
    ensures |Without(l, i)| == |l| - 1 && At(Without(l, i), 0) == if i == 0 then At(l, 1) else l[0]
  {
  }

  ghost predicate Listed(lists: seq<seq<nat>>, a: nat) { exists k :: 0 <= k < |lists| && a in lists[k] }

  lemma {:induction false} PushChains(mem: Memory, heads: seq<nat>, lists: seq<seq<nat>>, k: nat, a: nat)
    requires Chains(mem, heads, lists) && k <= MAX_ORDER && a != 0 && !Listed(lists, a)
    ensures heads[k] == 0 || heads[k] in mem
    ensures Chains(PushMem(mem, heads[k], a), heads[k := a], lists[k := [a] + lists[k]])
  {
    PushChain(mem, heads[k], lists[k], a);
    var m, r := PushMem(mem, heads[k], a), lists[k := [a] + lists[k]];
    assert lists[k] != [] ==> lists[k][0] in lists[k];
    forall j | 0 <= j < |r| && j != k ensures Chain(m, heads[j], r[j]) {
      ChainMembers(mem, heads[j], lists[j]);
      forall b | b in lists[j] ensures b in m && b in mem && m[b] == mem[b] {
        assert b != a;
      }
      ChainFrame(mem, m, heads[j], lists[j]);
    }
  }

  lemma {:induction false} UnlinkChains(mem: Memory, heads: seq<nat>, lists: seq<seq<nat>>, k: nat, i: nat)
    requires Chains(mem, heads, lists) && k <= MAX_ORDER && i < |lists[k]|
    ensures var a := lists[k][i];
            a in mem && (mem[a].prev == 0 || mem[a].prev in mem) && (mem[a].next == 0 || mem[a].next in mem)
    ensures var a := lists[k][i];
            Chains(UnlinkMem(mem, a), heads[k := UnlinkHead(mem, heads[k], a)], lists[k := Without(lists[k], i)])
  {
    var l := lists[k];
    var a := l[i];
    UnlinkChain(mem, heads[k], l, i);
    WithoutElements(l, i);
    var m, r := UnlinkMem(mem, a), lists[k := Without(l, i)];
    assert a in l;
    forall j | 0 <= j < |r| && j != k ensures Chain(m, heads[j], r[j]) {
      ChainMembers(mem, heads[j], lists[j]);
      forall b | b in lists[j] ensures b in m && b in mem && m[b] == mem[b] {
        assert b !in l && b != 0;
      }
      ChainFrame(mem, m, heads[j], lists[j]);
    }
  }

  // ----- How the lists change

  /** At most one element was taken out; the others are in their old order. */
  ghost predicate OneLess(l: seq<nat>, r: seq<nat>)
  {
    r == l || exists i :: 0 <= i < |l| && r == Without(l, i)
  }

  /** At most one block was taken off each list below `k`, and none off the others. */
  ghost predicate Thinned(lists: seq<seq<nat>>, after: seq<seq<nat>>, k: nat)
  {
    && |after| == |lists|
    && forall j :: 0 <= j < |lists| ==> OneLess(lists[j], after[j]) && (k <= j ==> after[j] == lists[j])
  }

  lemma {:induction false} ThinnedSelf(lists: seq<seq<nat>>, k: nat)
    ensures Thinned(lists, lists, k)
  {
  }

  lemma {:induction false} ThinnedNext(lists: seq<seq<nat>>, mid: seq<seq<nat>>, k: nat, i: nat)
    requires Thinned(lists, mid, k) && k < |mid| && i < |mid[k]|
    ensures Thinned(lists, mid[k := Without(mid[k], i)], k + 1)
  {
  }

  /** Block `a` is popped off list `hi` and its upper halves are pushed on the lists from `lo` up to there. */
  ghost function Cut(lists: seq<seq<nat>>, a: nat, lo: nat, hi: nat): seq<seq<nat>>
    requires hi < |lists| && lists[hi] != []
  {
    seq(|lists|, j requires 0 <= j < |lists| =>
      if j == hi then lists[j][1..] else if lo <= j < hi then [a + Pow2(j)] + lists[j] else lists[j])
  }

  lemma {:induction false} CutNothing(lists: seq<seq<nat>>, a: nat, hi: nat)
    requires hi < |lists| && lists[hi] != []
    ensures Cut(lists, a, hi, hi) == lists[hi := lists[hi][1..]]
  {
  }

  lemma {:induction false} CutNext(lists: seq<seq<nat>>, a: nat, lo: nat, hi: nat)
    requires 0 < lo <= hi < |lists| && lists[hi] != []
    ensures var c := Cut(lists, a, lo, hi);
            Cut(lists, a, lo - 1, hi) == c[lo - 1 := [a + Pow2(lo - 1)] + c[lo - 1]]
  {
  }

  /** Every list is in order of address. */
  ghost predicate Ascending(lists: seq<seq<nat>>)
  {
    forall k, i, j :: 0 <= k < |lists| && 0 <= i < j < |lists[k]| ==> lists[k][i] < lists[k][j]
  }

  // ----- The free blocks as a set

  ghost function FreeSet(lists: seq<seq<nat>>): set<Block>
  {
    set k, a | 0 <= k < |lists| && a in lists[k] :: Block(a, k)
  }

  lemma {:induction false} FreeMember(lists: seq<seq<nat>>, b: Block)
    ensures b in FreeSet(lists) <==> b.order < |lists| && b.addr in lists[b.order]
  {
    if b.order < |lists| && b.addr in lists[b.order] { assert Block(b.addr, b.order) in FreeSet(lists); }
  }

  lemma {:induction false} FreeAfterPush(lists: seq<seq<nat>>, k: nat, a: nat)
    requires k < |lists|
    ensures FreeSet(lists[k := [a] + lists[k]]) == FreeSet(lists) + {Block(a, k)}
  {
    var r := lists[k := [a] + lists[k]];
    forall b ensures b in FreeSet(r) <==> b in FreeSet(lists) + {Block(a, k)} {
      FreeMember(lists, b);
      FreeMember(r, b);
    }
  }

  lemma {:induction false} FreeAfterUnlink(lists: seq<seq<nat>>, k: nat, i: nat)
    requires k < |lists| && i < |lists[k]| && NoRepeats(lists[k])
    ensures FreeSet(lists[k := Without(lists[k], i)]) == FreeSet(lists) - {Block(lists[k][i], k)}
  {
    var r := lists[k := Without(lists[k], i)];
    WithoutElements(lists[k], i);
    forall b ensures b in FreeSet(r) <==> b in FreeSet(lists) - {Block(lists[k][i], k)} {
      FreeMember(lists, b);
      FreeMember(r, b);
    }
  }
}
