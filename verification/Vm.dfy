/** vm.c: finding VMAs in the tree by address. */
module Vm {
  import opened RbShape
  import opened RbLinks
  import opened RbTree

  ghost predicate Contains(x: Node, addr: int) { x.vmaStart <= addr < x.vmaEnd }

  /** No VMA reaches into a later one. */
  ghost predicate Ordered(s: seq<Node>) { forall i, j :: 0 <= i < j < |s| ==> s[i].vmaEnd <= s[j].vmaStart }

  /** VMAs do not overlap, and none is inverted. */
  ghost predicate Disjoint(s: seq<Node>)
  {
    Ordered(s) && forall i :: 0 <= i < |s| ==> s[i].vmaStart <= s[i].vmaEnd
  }

  /** Nothing to the left of the hole starts above `lo`, nothing to its right at or below `hi`. */
  ghost predicate Around(k: Path, lo: int, hi: int)
  {
    (forall n :: n in Before(k) ==> n.vmaStart <= lo) && (forall n :: n in After(k) ==> n.vmaStart > hi)
  }

  lemma {:induction false} AroundNext(k: Path, t: Tree, lo: int, hi: int)
    requires t.Bin? && Sorted(Inorder(Plug(k, t))) && Around(k, lo, hi)
    ensures hi < t.node.vmaStart ==> Around(InLeft(k, t.node, t.color, t.right), lo, hi)
    ensures t.node.vmaStart <= lo ==> Around(InRight(k, t.left, t.node, t.color), lo, hi)
  {
    InorderPlug(k, t);
    var l, r, n := Inorder(t.left), Inorder(t.right), t.node;
    Regroup(Before(k), l, n, r, After(k));
    SortedSplit(Before(k) + l, n, r + After(k));
    Bounds(Before(k), l, n.vmaStart);
    Bounds(r, After(k), n.vmaStart);
    var right, left := InRight(k, t.left, n, t.color), InLeft(k, n, t.color, t.right);
    assert Before(right) == Before(k) + l + [n] && After(right) == After(k);
    assert After(left) == [n] + r + After(k) && Before(left) == Before(k);
  }

  ghost predicate FirstAfter(k: Path, n: Node?)
  {
    if After(k) == [] then n == null else n == After(k)[0]
  }

  ghost predicate LastBefore(k: Path, n: Node?)
  {
    if Before(k) == [] then n == null else n == Before(k)[|Before(k)| - 1]
  }

  /** `n` is the first node of `s` that starts above `addr`, or null if there is none. */
  ghost predicate IsSuccessor(s: seq<Node>, addr: int, n: Node?)
  {
    if n == null then forall x :: x in s ==> x.vmaStart <= addr
    else exists i :: 0 <= i < |s| && s[i] == n && n.vmaStart > addr &&
                     forall j :: 0 <= j < i ==> s[j].vmaStart <= addr
  }

  /** `n` is the last node of `s` that starts below `addr`, or null if there is none. */
  ghost predicate IsPredecessor(s: seq<Node>, addr: int, n: Node?)
  {
    if n == null then forall x :: x in s ==> x.vmaStart >= addr
    else exists i :: 0 <= i < |s| && s[i] == n && n.vmaStart < addr &&
                     forall j :: i < j < |s| ==> s[j].vmaStart >= addr
  }

  lemma {:induction false} SuccessorFound(k: Path, addr: int, n: Node?)
    requires Around(k, addr, addr) && FirstAfter(k, n)
    ensures IsSuccessor(Inorder(Plug(k, Leaf)), addr, n)
  {
    InorderPlug(k, Leaf);
    var s, b := Inorder(Plug(k, Leaf)), |Before(k)|;
    assert s == Before(k) + After(k);
    assert forall i :: 0 <= i < b ==> s[i] == Before(k)[i] && s[i] in Before(k);
    if n != null { assert s[b] == n && n in After(k); }
  }

  lemma {:induction false} PredecessorFound(k: Path, addr: int, n: Node?)
    requires Around(k, addr - 1, addr - 1) && LastBefore(k, n)
    ensures IsPredecessor(Inorder(Plug(k, Leaf)), addr, n)
  {
    InorderPlug(k, Leaf);
    var s, b := Inorder(Plug(k, Leaf)), |Before(k)|;
    assert s == Before(k) + After(k);
    assert forall i :: b <= i < |s| ==> s[i] == After(k)[i - b] && s[i] in After(k);
    if n != null { assert s[b - 1] == n && n in Before(k); }
  }

  method Successor(tree: RbTree, addr: int) returns (successor: Node?)
    requires tree.Valid() && Sorted(Inorder(tree.shape))
    ensures IsSuccessor(Inorder(tree.shape), addr, successor)
  {
    ghost var k, t := Top, tree.shape;
    var current := tree.root;
    successor := null;
    while current != null
      invariant tree.shape == Plug(k, t) && current == Root(t)
      invariant Around(k, addr, addr) && FirstAfter(k, successor)
      decreases t
    {
      tree.Look(k, t);
      AroundNext(k, t, addr, addr);
      if addr < current.vmaStart {
        successor := current;
        current := current.left;
        k, t := InLeft(k, t.node, t.color, t.right), t.left;
      } else {
        current := current.right;
        k, t := InRight(k, t.left, t.node, t.color), t.right;
      }
    }
    SuccessorFound(k, addr, successor);
  }

  method Predecessor(tree: RbTree, addr: int) returns (predecessor: Node?)
    requires tree.Valid() && Sorted(Inorder(tree.shape))
    ensures IsPredecessor(Inorder(tree.shape), addr, predecessor)
  {
    ghost var k, t := Top, tree.shape;
    var current := tree.root;
    predecessor := null;
    while current != null
      invariant tree.shape == Plug(k, t) && current == Root(t)
      invariant Around(k, addr - 1, addr - 1) && LastBefore(k, predecessor)
      decreases t
    {
      tree.Look(k, t);
      AroundNext(k, t, addr - 1, addr - 1);
      if addr > current.vmaStart {
        predecessor := current;
        current := current.right;
        k, t := InRight(k, t.left, t.node, t.color), t.right;
      } else {
        current := current.left;
        k, t := InLeft(k, t.node, t.color, t.right), t.left;
      }
    }
    PredecessorFound(k, addr, predecessor);
  }

  /** No VMA outside the hole of `k` contains `addr`. */
  ghost predicate Excluded(k: Path, addr: int)
  {
    (forall n :: n in Before(k) ==> n.vmaEnd <= addr) && (forall n :: n in After(k) ==> n.vmaStart > addr)
  }

  lemma {:induction false} ExcludedNext(k: Path, t: Tree, addr: int)
    requires t.Bin? && Ordered(Inorder(Plug(k, t))) && Sorted(Inorder(Plug(k, t))) && Excluded(k, addr)
    ensures addr < t.node.vmaStart ==> Excluded(InLeft(k, t.node, t.color, t.right), addr)
    ensures addr >= t.node.vmaStart && addr >= t.node.vmaEnd ==> Excluded(InRight(k, t.left, t.node, t.color), addr)
  {
    hide Sorted, Plug;
    InorderPlug(k, t);
    var l, r, n := Inorder(t.left), Inorder(t.right), t.node;
    Regroup(Before(k), l, n, r, After(k));
    var s, b := Inorder(Plug(k, t)), |Before(k) + l|;
    assert s == (Before(k) + l) + [n] + (r + After(k)) && s[b] == n;
    forall i | 0 <= i < |l| ensures l[i].vmaEnd <= n.vmaStart { assert s[|Before(k)| + i] == l[i]; }
    SortedSplit(Before(k) + l, n, r + After(k));
    Bounds(r, After(k), n.vmaStart);
    var right, left := InRight(k, t.left, n, t.color), InLeft(k, n, t.color, t.right);
    assert Before(right) == Before(k) + l + [n] && After(right) == After(k);
    assert After(left) == [n] + r + After(k) && Before(left) == Before(k);
  }

  method FindVma(tree: RbTree, addr: int) returns (v: Node?)
    requires tree.Valid() && Sorted(Inorder(tree.shape)) && Ordered(Inorder(tree.shape))
    ensures v != null ==> v in Inorder(tree.shape) && Contains(v, addr)
    ensures forall x :: x in Inorder(tree.shape) && Contains(x, addr) ==> x == v
  {
    ghost var k, t := Top, tree.shape;
    var current := tree.root;
    while current != null
      invariant tree.shape == Plug(k, t) && current == Root(t) && Excluded(k, addr)
      decreases t
    {
      tree.Look(k, t);
      ExcludedNext(k, t, addr);
      if addr < current.vmaStart {
        current := current.left;
        k, t := InLeft(k, t.node, t.color, t.right), t.left;
      } else if addr >= current.vmaEnd {
        current := current.right;
        k, t := InRight(k, t.left, t.node, t.color), t.right;
      } else {
        InorderPlug(k, t);
        assert current in Inorder(t);
        OnlyOne(Inorder(tree.shape), current, addr);
        return current;
      }
    }
    InorderPlug(k, Leaf);
    return null;
  }

  lemma {:induction false} OnlyOne(s: seq<Node>, v: Node, addr: int)
    requires Sorted(s) && Ordered(s) && v in s && Contains(v, addr)
    ensures forall x :: x in s && Contains(x, addr) ==> x == v
  {
  }
}
