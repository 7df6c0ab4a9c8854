/** The red-black tree as a value: which node sits where, with which colour, and the path
    from any position back up to the root.  The pointer code of `RbTree` is specified by it. */
module RbShape {
  import opened Common

  datatype Color = Red | Black

  /** `vma_t` with its embedded `rb_node`.  The payload is written before the node is linked and
      never changes while it is in a tree, so it is immutable here. */
  class Node {
    const vmaStart: int
    const vmaEnd: int
    const vmaPte: int
    var left: Node?
    var right: Node?
    var parent: Node?
    var color: Color

    constructor (start: int, end: int, pte: int)
      ensures vmaStart == start && vmaEnd == end && vmaPte == pte
    {
      vmaStart, vmaEnd, vmaPte := start, end, pte;
      left, right, parent, color := null, null, null, Red;
    }
  }

  datatype Tree = Leaf | Bin(left: Tree, node: Node, color: Color, right: Tree)

  /** A tree with one subtree missing, read from the hole up to the root. */
  datatype Path =
    | Top
    | InLeft(up: Path, node: Node, color: Color, right: Tree)
    | InRight(up: Path, left: Tree, node: Node, color: Color)

  ghost function Plug(k: Path, t: Tree): Tree
    decreases k
  {
    match k
    case Top => t
    case InLeft(up, n, c, r) => Plug(up, Bin(t, n, c, r))
    case InRight(up, l, n, c) => Plug(up, Bin(l, n, c, t))
  }

  /** The tree one level above the hole of `k`. */
  ghost function Fill(k: Path, t: Tree): Tree
    requires !k.Top?
  {
    if k.InLeft? then Bin(t, k.node, k.color, k.right) else Bin(k.left, k.node, k.color, t)
  }

  ghost function Depth(k: Path): nat { if k.Top? then 0 else Depth(k.up) + 1 }

  /** Puts the inner path `k` below the outer path `outer`. */
  ghost function Below(k: Path, outer: Path): Path
  {
    match k
    case Top => outer
    case InLeft(up, n, c, r) => InLeft(Below(up, outer), n, c, r)
    case InRight(up, l, n, c) => InRight(Below(up, outer), l, n, c)
  }

  lemma {:induction false} PlugBelow(k: Path, outer: Path, t: Tree)
    ensures Plug(Below(k, outer), t) == Plug(outer, Plug(k, t))
    decreases k
  {
    match k
    case Top =>
    case InLeft(up, n, c, r) => PlugBelow(up, outer, Bin(t, n, c, r));
    case InRight(up, l, n, c) => PlugBelow(up, outer, Bin(l, n, c, t));
  }

  ghost function RotatedLeft(t: Tree): Tree
    requires t.Bin? && t.right.Bin?
  {
    var s := t.right;
    Bin(Bin(t.left, t.node, t.color, s.left), s.node, s.color, s.right)
  }

  ghost function RotatedRight(t: Tree): Tree
    requires t.Bin? && t.left.Bin?
  {
    var s := t.left;
    Bin(s.left, s.node, s.color, Bin(s.right, t.node, t.color, t.right))
  }

  // ----- What a tree contains

  /** The sequence `rb_traverse_inorder` visits. */
  ghost function Inorder(t: Tree): seq<Node>
  {
    match t
    case Leaf => []
    case Bin(l, n, _, r) => Inorder(l) + [n] + Inorder(r)
  }

  ghost function Before(k: Path): seq<Node>
  {
    match k
    case Top => []
    case InLeft(up, _, _, _) => Before(up)
    case InRight(up, l, n, _) => Before(up) + Inorder(l) + [n]
  }

  ghost function After(k: Path): seq<Node>
  {
    match k
    case Top => []
    case InLeft(up, n, _, r) => [n] + Inorder(r) + After(up)
    case InRight(up, _, _, _) => After(up)
  }

  lemma {:induction false} InorderPlug(k: Path, t: Tree)
    ensures Inorder(Plug(k, t)) == Before(k) + Inorder(t) + After(k)
    decreases k
  {
    match k
    case Top =>
    case InLeft(up, n, c, r) =>
      InorderPlug(up, Bin(t, n, c, r));
    case InRight(up, l, n, c) =>
      InorderPlug(up, Bin(l, n, c, t));
  }

  ghost function Nodes(t: Tree): set<Node>
  {
    match t
    case Leaf => {}
    case Bin(l, n, _, r) => Nodes(l) + {n} + Nodes(r)
  }

  ghost function PathNodes(k: Path): set<Node>
  {
    match k
    case Top => {}
    case InLeft(up, n, _, r) => PathNodes(up) + {n} + Nodes(r)
    case InRight(up, l, n, _) => PathNodes(up) + {n} + Nodes(l)
  }

  lemma {:induction false} NodesPlug(k: Path, t: Tree)
    ensures Nodes(Plug(k, t)) == PathNodes(k) + Nodes(t)
    decreases k
  {
    match k
    case Top =>
    case InLeft(up, n, c, r) => NodesPlug(up, Bin(t, n, c, r));
    case InRight(up, l, n, c) => NodesPlug(up, Bin(l, n, c, t));
  }

  /** No node occurs twice. */
  ghost predicate Distinct(t: Tree)
  {
    match t
    case Leaf => true
    case Bin(l, n, _, r) =>
      Distinct(l) && Distinct(r) && n !in Nodes(l) && n !in Nodes(r) && Nodes(l) !! Nodes(r)
  }

  ghost predicate PathDistinct(k: Path)
  {
    match k
    case Top => true
    case InLeft(up, n, _, r) =>
      PathDistinct(up) && Distinct(r) && n !in Nodes(r) && PathNodes(up) !! Nodes(r) + {n}
    case InRight(up, l, n, _) =>
      PathDistinct(up) && Distinct(l) && n !in Nodes(l) && PathNodes(up) !! Nodes(l) + {n}
  }

  lemma {:induction false} DistinctPlug(k: Path, t: Tree)
    ensures Distinct(Plug(k, t)) <==> PathDistinct(k) && Distinct(t) && PathNodes(k) !! Nodes(t)
    decreases k
  {
    match k
    case Top =>
    case InLeft(up, n, c, r) => DistinctPlug(up, Bin(t, n, c, r));
    case InRight(up, l, n, c) => DistinctPlug(up, Bin(l, n, c, t));
  }

  // ----- Search order

  ghost predicate Sorted(s: seq<Node>)
  {
    forall i, j :: 0 <= i < j < |s| ==> s[i].vmaStart < s[j].vmaStart
  }

  ghost predicate AllBelow(s: seq<Node>, key: int)
  {
    forall n :: n in s ==> n.vmaStart < key
  }

  ghost predicate AllAbove(s: seq<Node>, key: int)
  {
    forall n :: n in s ==> key < n.vmaStart
  }

  ghost predicate InsertedAt(s: seq<Node>, n: Node, r: seq<Node>, i: nat)
  {
    i <= |s| && r == s[..i] + [n] + s[i..]
  }

  /** `r` is `s` with `n` put in somewhere. */
  ghost predicate InsertedInto(s: seq<Node>, n: Node, r: seq<Node>)
  {
    exists i: nat :: InsertedAt(s, n, r, i)
  }

  /** The search for `key` can only end inside the hole of `k`. */
  ghost predicate Brackets(k: Path, key: int)
  {
    AllBelow(Before(k), key) && AllAbove(After(k), key)
  }

  lemma {:induction false} SortedSplit(a: seq<Node>, n: Node, b: seq<Node>)
    requires Sorted(a + [n] + b)
    ensures AllBelow(a, n.vmaStart) && AllAbove(b, n.vmaStart)
    ensures Sorted(a) && Sorted(b) && Sorted(a + b)
  {
    var s := a + [n] + b;
    assert s[|a|] == n;
    forall i | 0 <= i < |a| ensures a[i].vmaStart < n.vmaStart { assert s[i] == a[i]; }
    forall i | 0 <= i < |b| ensures n.vmaStart < b[i].vmaStart { assert s[|a| + 1 + i] == b[i]; }
    forall i, j | 0 <= i < j < |a + b| ensures (a + b)[i].vmaStart < (a + b)[j].vmaStart {
      var i' := if i < |a| then i else i + 1;
      var j' := if j < |a| then j else j + 1;
      assert s[i'] == (a + b)[i] && s[j'] == (a + b)[j];
    }
    assert forall i | 0 <= i < |a| :: (a + b)[i] == a[i];
    assert forall i | 0 <= i < |b| :: (a + b)[|a| + i] == b[i];
  }

  lemma {:induction false} SortedJoin(a: seq<Node>, n: Node, b: seq<Node>)
    requires Sorted(a + b)
    requires AllBelow(a, n.vmaStart) && AllAbove(b, n.vmaStart)
    ensures Sorted(a + [n] + b)
  {
    var s, t := a + [n] + b, a + b;
    forall i, j | 0 <= i < j < |s| ensures s[i].vmaStart < s[j].vmaStart {
      if i == |a| {
        assert s[j] == b[j - |a| - 1] && s[j] in b;
      } else if j == |a| {
        assert s[i] == a[i] && s[i] in a;
      } else {
        var k, l := if i < |a| then i else i - 1, if j < |a| then j else j - 1;
        assert s[i] == t[k] && s[j] == t[l];
      }
    }
  }

  lemma {:induction false} Bounds(a: seq<Node>, b: seq<Node>, key: int)
    ensures AllBelow(a + b, key) <==> AllBelow(a, key) && AllBelow(b, key)
    ensures AllAbove(a + b, key) <==> AllAbove(a, key) && AllAbove(b, key)
  {
    assert forall n :: n in a || n in b <==> n in a + b;
  }

  lemma {:induction false} Regroup(a: seq<Node>, l: seq<Node>, n: Node, r: seq<Node>, b: seq<Node>)
    ensures a + (l + [n] + r) + b == (a + l) + [n] + (r + b)
  {
  }

  /** One comparison of the search loop narrows the hole. */
  lemma {:induction false} Narrow(k: Path, t: Tree, key: int)
    requires t.Bin? && Sorted(Inorder(Plug(k, t))) && Brackets(k, key)
    ensures key < t.node.vmaStart ==> Brackets(InLeft(k, t.node, t.color, t.right), key)
    ensures key > t.node.vmaStart ==> Brackets(InRight(k, t.left, t.node, t.color), key)
  {
    InorderPlug(k, t);
    var l, r, n := Inorder(t.left), Inorder(t.right), t.node;
    Regroup(Before(k), l, n, r, After(k));
    SortedSplit(Before(k) + l, n, r + After(k));
    if key < n.vmaStart {
      NarrowLeft(k, r, n, key);
    } else if key > n.vmaStart {
      NarrowRight(k, l, n, key);
    }
  }

  lemma {:induction false} NarrowLeft(k: Path, r: seq<Node>, n: Node, key: int)
    requires key < n.vmaStart && Brackets(k, key) && AllAbove(r + After(k), n.vmaStart)
    ensures AllAbove([n] + r + After(k), key)
  {
    Bounds(r, After(k), n.vmaStart);
    Bounds([n], r, key);
    Bounds([n] + r, After(k), key);
  }

  lemma {:induction false} NarrowRight(k: Path, l: seq<Node>, n: Node, key: int)
    requires key > n.vmaStart && Brackets(k, key) && AllBelow(Before(k) + l, n.vmaStart)
    ensures AllBelow(Before(k) + l + [n], key)
  {
    Bounds(Before(k), l, n.vmaStart);
    Bounds(Before(k), l, key);
    Bounds(Before(k) + l, [n], key);
  }

  /** A search that reached an empty hole has seen that the key is absent. */
  lemma {:induction false} Absent(k: Path, key: int)
    requires Brackets(k, key)
    ensures forall n :: n in Inorder(Plug(k, Leaf)) ==> n.vmaStart != key
  {
    InorderPlug(k, Leaf);
  }

  lemma {:induction false} BracketsAbove(k: Path, key: int)
    requires !k.Top? && Brackets(k, key)
    ensures if k.InLeft? then key < k.node.vmaStart else key > k.node.vmaStart
  {
    assert k.InLeft? ==> k.node in After(k);
    assert k.InRight? ==> k.node in Before(k);
  }

  /** Filling the empty hole a search ended in keeps the order. */
  lemma {:induction false} Inserted(k: Path, n: Node, c: Color)
    requires Sorted(Inorder(Plug(k, Leaf))) && Brackets(k, n.vmaStart)
    ensures var r := Inorder(Plug(k, Bin(Leaf, n, c, Leaf)));
            Sorted(r) && InsertedInto(Inorder(Plug(k, Leaf)), n, r)
  {
    var t := Bin(Leaf, n, c, Leaf);
    InorderPlug(k, Leaf);
    InorderPlug(k, t);
    assert Before(k) + Inorder(Leaf) + After(k) == Before(k) + After(k) && Inorder(t) == [n];
    SortedJoin(Before(k), n, After(k));
    assert InsertedAt(Before(k) + After(k), n, Before(k) + [n] + After(k), |Before(k)|);
  }

  // ----- Balance

  ghost predicate IsRed(t: Tree) { t.Bin? && t.color.Red? }

  ghost function BlackHeight(t: Tree): nat
  {
    match t
    case Leaf => 0
    case Bin(l, _, c, _) => BlackHeight(l) + (if c.Black? then 1 else 0)
  }

  /** Equal black heights and no red node with a red child; the root may be red. */
  ghost predicate Balanced(t: Tree)
  {
    match t
    case Leaf => true
    case Bin(l, _, c, r) =>
      Balanced(l) && Balanced(r) && BlackHeight(l) == BlackHeight(r) &&
      (c.Red? ==> !IsRed(l) && !IsRed(r))
  }

  ghost predicate RedBlack(t: Tree) { Balanced(t) && !IsRed(t) }

  ghost function Blacken(t: Tree): Tree
  {
    match t
    case Leaf => Leaf
    case Bin(l, n, _, r) => Bin(l, n, Black, r)
  }

  /** The colour of the node above the hole; the place above the root counts as red, because a
      root must be black just as a red node's child must. */
  ghost predicate NeedsBlack(k: Path)
  {
    match k
    case Top => true
    case InLeft(_, _, c, _) => c.Red?
    case InRight(_, _, _, c) => c.Red?
  }

  /** `k` is completed to a red-black tree by any balanced tree of black height `h`, provided a
      red root is not put where black is needed. */
  ghost predicate Fits(k: Path, h: nat)
  {
    match k
    case Top => true
    case InLeft(up, _, c, r) =>
      Balanced(r) && BlackHeight(r) == h && (c.Red? ==> !IsRed(r) && !NeedsBlack(up)) &&
      Fits(up, h + if c.Black? then 1 else 0)
    case InRight(up, l, _, c) =>
      Balanced(l) && BlackHeight(l) == h && (c.Red? ==> !IsRed(l) && !NeedsBlack(up)) &&
      Fits(up, h + if c.Black? then 1 else 0)
  }

  lemma {:induction false} RedBlackPlug(k: Path, t: Tree)
    ensures RedBlack(Plug(k, t)) <==>
            Balanced(t) && Fits(k, BlackHeight(t)) && (IsRed(t) ==> !NeedsBlack(k))
    decreases k
  {
    match k
    case Top =>
    case InLeft(up, n, c, r) => RedBlackPlug(up, Bin(t, n, c, r));
    case InRight(up, l, n, c) => RedBlackPlug(up, Bin(l, n, c, t));
  }

  // ----- Height

  ghost function Max(a: nat, b: nat): nat { if a < b then b else a }

  ghost function Height(t: Tree): nat
  {
    match t
    case Leaf => 0
    case Bin(l, _, _, r) => 1 + Max(Height(l), Height(r))
  }

  lemma {:induction false} SizeFromBlackHeight(t: Tree)
    requires Balanced(t)
    ensures |Inorder(t)| + 1 >= Pow2(BlackHeight(t))
    ensures Height(t) <= 2 * BlackHeight(t) + if IsRed(t) then 1 else 0
  {
    match t
    case Leaf =>
    case Bin(l, _, _, r) =>
      SizeFromBlackHeight(l);
      SizeFromBlackHeight(r);
  }

  lemma {:induction false} SquareMono(a: nat, b: nat)
    requires a <= b
    ensures a * a <= b * b
  {
    assert a * a <= a * b;
  }

  /** height <= 2 log2(n + 1), stated without logarithms. */
  lemma {:induction false} HeightBound(t: Tree)
    requires RedBlack(t)
    ensures Pow2(Height(t)) <= (|Inorder(t)| + 1) * (|Inorder(t)| + 1)
  {
    SizeFromBlackHeight(t);
    var h := BlackHeight(t);
    Pow2Monotone(Height(t), 2 * h);
    Pow2Sum(h, h);
    SquareMono(Pow2(h), |Inorder(t)| + 1);
  }

  /** No position lies deeper than the height. */
  lemma {:induction false} DepthWithinHeight(k: Path, t: Tree)
    ensures Depth(k) + Height(t) <= Height(Plug(k, t))
    decreases k
  {
    match k
    case Top =>
    case InLeft(up, n, c, r) => DepthWithinHeight(up, Bin(t, n, c, r));
    case InRight(up, l, n, c) => DepthWithinHeight(up, Bin(l, n, c, t));
  }

  /** A search goes down one level per round, so it takes at most 2 log2(n + 1) rounds. */
  lemma {:induction false} SearchBound(k: Path, t: Tree)
    requires RedBlack(Plug(k, t))
    ensures var n := |Inorder(Plug(k, t))|; Pow2(Depth(k)) <= (n + 1) * (n + 1)
  {
    hide RedBlack, Plug, Inorder, Pow2;
    DepthWithinHeight(k, t);
    HeightBound(Plug(k, t));
    Pow2Monotone(Depth(k), Height(Plug(k, t)));
  }

  // ----- The steps of rb_insert_fixup

  /** `t` is red and fits below `k` except that the node above it may be red as well. */
  ghost predicate RedAt(k: Path, t: Tree)
  {
    IsRed(t) && Balanced(t) && Fits(k, BlackHeight(t))
  }

  /** A red parent has a black parent of its own. */
  lemma {:induction false} RedParent(k: Path, t: Tree)
    requires RedAt(k, t) && !k.Top? && k.color.Red?
    ensures !k.up.Top? && k.up.color.Black?
  {
  }

  /** Without a red parent only the root's colour is left to repair. */
  lemma {:induction false} FixupDone(k: Path, t: Tree)
    requires RedAt(k, t) && (k.Top? || k.color.Black?)
    ensures var s := Plug(k, t); s.Bin? && RedBlack(s.(color := Black))
  {
    RedBlackPlug(k, t);
    if !k.Top? { PlugBin(k, t); }
  }

  lemma {:induction false} PlugBin(k: Path, t: Tree)
    requires t.Bin?
    ensures Plug(k, t).Bin?
    decreases k
  {
    match k
    case Top =>
    case InLeft(up, n, c, r) => PlugBin(up, Bin(t, n, c, r));
    case InRight(up, l, n, c) => PlugBin(up, Bin(l, n, c, t));
  }

  /** Case 1, red uncle: the violation moves up two levels. */
  lemma {:induction false} Recolored(k: Path, t: Tree, u: Tree)
    requires RedAt(k, t) && !k.Top? && k.color.Red? && !k.up.Top? && IsRed(u)
    ensures k.up.InLeft? && u == k.up.right ==>
            RedAt(k.up.up, Bin(Blacken(Fill(k, t)), k.up.node, Red, Blacken(u)))
    ensures k.up.InRight? && u == k.up.left ==>
            RedAt(k.up.up, Bin(Blacken(u), k.up.node, Red, Blacken(Fill(k, t))))
  {
    assert Fits(k.up, BlackHeight(t));
  }

  /** Case 3, black uncle: the violation is gone. */
  lemma {:induction false} Raised(k: Path, t: Tree, b: Tree, u: Tree, p: Node, g: Node, c: Color)
    requires !IsRed(u)
    ensures RedAt(InLeft(InLeft(k, g, c, u), p, Red, b), t) ==>
            RedAt(InLeft(k, p, Black, Bin(b, g, Red, u)), t)
    ensures RedAt(InRight(InRight(k, u, g, c), b, p, Red), t) ==>
            RedAt(InRight(k, Bin(u, g, Red, b), p, Black), t)
  {
    if RedAt(InLeft(InLeft(k, g, c, u), p, Red, b), t) { assert Fits(InLeft(k, g, c, u), BlackHeight(t)); }
    if RedAt(InRight(InRight(k, u, g, c), b, p, Red), t) { assert Fits(InRight(k, u, g, c), BlackHeight(t)); }
  }

  /** Case 2, an inner grandchild: one rotation makes it an outer one. */
  lemma {:induction false} Straightened(k: Path, t: Tree)
    requires RedAt(k, t) && !k.Top? && k.color.Red?
    ensures k.InRight? ==> RedAt(InLeft(k.up, t.node, Red, t.right), Bin(k.left, k.node, Red, t.left))
    ensures k.InLeft? ==> RedAt(InRight(k.up, t.left, t.node, Red), Bin(t.right, k.node, Red, k.right))
  {
  }

  // ----- Taking a node out

  ghost predicate RemovedAt(s: seq<Node>, n: Node, r: seq<Node>, i: nat)
  {
    i < |s| && s[i] == n && r == s[..i] + s[i + 1..]
  }

  /** `r` is `s` without one occurrence of `n`. */
  ghost predicate RemovedFrom(s: seq<Node>, n: Node, r: seq<Node>)
  {
    exists i: nat :: RemovedAt(s, n, r, i)
  }

  /** A path that always turned left: its hole is at the minimum. */
  ghost predicate Leftmost(k: Path)
  {
    k.Top? || (k.InLeft? && Leftmost(k.up))
  }

  lemma {:induction false} LeftmostIsFirst(k: Path)
    requires Leftmost(k)
    ensures Before(k) == []
  {
    if k.InLeft? { LeftmostIsFirst(k.up); }
  }

  lemma {:induction false} RemovedMiddle(a: seq<Node>, n: Node, b: seq<Node>)
    requires Sorted(a + [n] + b)
    ensures RemovedFrom(a + [n] + b, n, a + b) && Sorted(a + b)
  {
    SortedSplit(a, n, b);
    assert RemovedAt(a + [n] + b, n, a + b, |a|);
  }

  /** Dropping `n` from between `l` and `r`, where `l + r` is what remains. */
  lemma {:induction false} RemovedWithin(a: seq<Node>, l: seq<Node>, n: Node, r: seq<Node>, b: seq<Node>,
                                         rest: seq<Node>)
    requires Sorted(a + (l + [n] + r) + b) && rest == l + r
    ensures RemovedFrom(a + (l + [n] + r) + b, n, a + rest + b) && Sorted(a + rest + b)
  {
    Regroup(a, l, n, r, b);
    RemovedMiddle(a + l, n, r + b);
    assert (a + l) + (r + b) == a + rest + b;
  }

  /** Replacing a node by its only child takes out exactly that node. */
  lemma {:induction false} SplicedOrder(k: Path, t: Tree, r: Tree)
    requires t.Bin? && Sorted(Inorder(Plug(k, t)))
    requires (t.left.Leaf? && r == t.right) || (t.right.Leaf? && r == t.left)
    ensures RemovedFrom(Inorder(Plug(k, t)), t.node, Inorder(Plug(k, r))) && Sorted(Inorder(Plug(k, r)))
  {
    InorderPlug(k, t);
    InorderPlug(k, r);
    RemovedWithin(Before(k), Inorder(t.left), t.node, Inorder(t.right), After(k), Inorder(r));
  }

  lemma {:induction false} SucceededNodes(l: Tree, z: Node, c: Color, m: Path, u: Tree)
    requires u.Bin? && u.left.Leaf?
    ensures Nodes(Bin(l, z, c, Plug(m, u))) == Nodes(Bin(l, u.node, c, Plug(m, u.right))) + {z}
  {
    NodesPlug(m, u);
    NodesPlug(m, u.right);
  }

  /** Moving the successor `y` into the place of the node `z` takes out exactly `z`. */
  lemma {:induction false} SucceededOrder(k: Path, l: Tree, z: Node, c: Color, m: Path, y: Node, cy: Color, s: Tree)
    requires Leftmost(m) && Sorted(Inorder(Plug(k, Bin(l, z, c, Plug(m, Bin(Leaf, y, cy, s))))))
    ensures var before := Inorder(Plug(k, Bin(l, z, c, Plug(m, Bin(Leaf, y, cy, s)))));
            var after := Inorder(Plug(k, Bin(l, y, c, Plug(m, s))));
            RemovedFrom(before, z, after) && Sorted(after)
  {
    var r, u := Plug(m, Bin(Leaf, y, cy, s)), Bin(l, y, c, Plug(m, s));
    FirstOut(m, y, cy, s);
    InorderPlug(k, Bin(l, z, c, r));
    InorderPlug(k, u);
    assert Inorder(u) == Inorder(l) + Inorder(r);
    RemovedWithin(Before(k), Inorder(l), z, Inorder(r), After(k), Inorder(u));
  }

  lemma {:induction false} FirstOut(m: Path, y: Node, cy: Color, s: Tree)
    requires Leftmost(m)
    ensures Inorder(Plug(m, Bin(Leaf, y, cy, s))) == [y] + Inorder(Plug(m, s))
  {
    InorderPlug(m, Bin(Leaf, y, cy, s));
    InorderPlug(m, s);
    LeftmostIsFirst(m);
    assert Inorder(Bin(Leaf, y, cy, s)) == [y] + Inorder(s);
  }

  /** `Fits` does not look at which node is where. */
  lemma {:induction false} FitsRename(m: Path, k: Path, l: Tree, z: Node, y: Node, c: Color, h: nat)
    requires Fits(Below(m, InRight(k, l, z, c)), h)
    ensures Fits(Below(m, InRight(k, l, y, c)), h)
    ensures NeedsBlack(Below(m, InRight(k, l, y, c))) == NeedsBlack(Below(m, InRight(k, l, z, c)))
  {
    if !m.Top? { FitsRename(m.up, k, l, z, y, c, h + if m.color.Black? then 1 else 0); }
  }

  // ----- The steps of rb_delete_fixup

  /** `t`, once its root is black, is balanced, but one black node short of what `k` needs. */
  ghost predicate Short(k: Path, t: Tree)
  {
    Balanced(Blacken(t)) && Fits(k, BlackHeight(t) + 1)
  }

  /** Removing a node with at most one child leaves the tree short exactly if it was black. */
  lemma {:induction false} SplicedBalance(k: Path, t: Tree, r: Tree)
    requires RedBlack(Plug(k, t)) && t.Bin?
    requires (t.left.Leaf? && r == t.right) || (t.right.Leaf? && r == t.left)
    ensures if t.color.Black? then Short(k, r) else RedBlack(Plug(k, r))
  {
    RedBlackPlug(k, t);
    OnlyChild(t, r);
    BlackenBalanced(r);
    if t.color.Red? { RedBlackPlug(k, r); }
  }

  lemma {:induction false} OnlyChild(t: Tree, r: Tree)
    requires Balanced(t) && t.Bin?
    requires (t.left.Leaf? && r == t.right) || (t.right.Leaf? && r == t.left)
    ensures Balanced(r) && BlackHeight(r) == 0 && BlackHeight(t) == if t.color.Black? then 1 else 0
    ensures t.color.Red? ==> !IsRed(r)
  {
  }

  lemma {:induction false} BlackenBalanced(t: Tree)
    requires Balanced(t)
    ensures Balanced(Blacken(t))
  {
  }

  lemma {:induction false} SucceededBalance(k: Path, l: Tree, z: Node, c: Color, m: Path, y: Node, cy: Color, s: Tree)
    requires RedBlack(Plug(k, Bin(l, z, c, Plug(m, Bin(Leaf, y, cy, s)))))
    ensures var k' := Below(m, InRight(k, l, y, c));
            if cy.Black? then Short(k', s) else RedBlack(Plug(k', s))
  {
    var t := Bin(Leaf, y, cy, s);
    var k0, k' := Below(m, InRight(k, l, z, c)), Below(m, InRight(k, l, y, c));
    PlugBelow(m, InRight(k, l, z, c), t);
    RedBlackPlug(k0, t);
    FitsRename(m, k, l, z, y, c, BlackHeight(t));
    RedBlackPlug(k', s);
    assert BlackHeight(s) == 0;
  }

  ghost function Sibling(k: Path): Tree
    requires !k.Top?
  {
    if k.InLeft? then k.right else k.left
  }

  /** The sibling of a short subtree is never empty. */
  lemma {:induction false} SiblingExists(k: Path, t: Tree)
    requires Short(k, t) && !k.Top?
    ensures Sibling(k).Bin?
  {
  }

  /** Case 1, red sibling: a rotation gives the short subtree a black sibling and a red parent. */
  lemma {:induction false} RedSibling(k: Path, t: Tree)
    requires Short(k, t) && !k.Top? && IsRed(Sibling(k))
    ensures k.color.Black?
    ensures k.InLeft? ==> var s := k.right;
              s.left.Bin? && s.left.color.Black? &&
              Short(InLeft(InLeft(k.up, s.node, Black, s.right), k.node, Red, s.left), t)
    ensures k.InRight? ==> var s := k.left;
              s.right.Bin? && s.right.color.Black? &&
              Short(InRight(InRight(k.up, s.left, s.node, Black), s.right, k.node, Red), t)
  {
  }

  /** Case 2, black sibling with black children: the shortage moves up one level. */
  lemma {:induction false} BlackSibling(k: Path, t: Tree)
    requires Short(k, t) && !k.Top? && !IsRed(t) && Sibling(k).Bin? && Sibling(k).color.Black?
    requires !IsRed(Sibling(k).left) && !IsRed(Sibling(k).right)
    ensures k.InLeft? ==> Short(k.up, Bin(t, k.node, k.color, k.right.(color := Red)))
    ensures k.InRight? ==> Short(k.up, Bin(k.left.(color := Red), k.node, k.color, t))
  {
    assert Blacken(t) == t;
  }

  /** Case 3, the sibling's red child is the inner one: a rotation makes it the outer one. */
  lemma {:induction false} InnerRed(k: Path, t: Tree)
    requires Short(k, t) && !k.Top? && Sibling(k).Bin? && Sibling(k).color.Black?
    ensures k.InLeft? && IsRed(k.right.left) && !IsRed(k.right.right) ==>
            var s := k.right;
            Short(k.(right := Bin(s.left.left, s.left.node, Black, Bin(s.left.right, s.node, Red, s.right))), t)
    ensures k.InRight? && IsRed(k.left.right) && !IsRed(k.left.left) ==>
            var s := k.left;
            Short(k.(left := Bin(Bin(s.left, s.node, Red, s.right.left), s.right.node, Black, s.right.right)), t)
  {
    var s := Sibling(k);
    assert Balanced(s.left) && Balanced(s.right);
    if k.InLeft? && IsRed(s.left) {
      assert Balanced(Bin(s.left.right, s.node, Red, s.right)) || IsRed(s.right);
    } else if k.InRight? && IsRed(s.right) {
      assert Balanced(Bin(s.left, s.node, Red, s.right.left)) || IsRed(s.left);
    }
  }

  /** Case 4, the sibling's red child is the outer one: recolouring and a rotation end the shortage. */
  lemma {:induction false} OuterRed(k: Path, t: Tree)
    requires Short(k, t) && !k.Top? && !IsRed(t) && Sibling(k).Bin? && Sibling(k).color.Black?
    ensures k.InLeft? && IsRed(k.right.right) ==>
            var s := k.right;
            RedBlack(Plug(k.up, Bin(Bin(t, k.node, Black, s.left), s.node, k.color, Blacken(s.right))))
    ensures k.InRight? && IsRed(k.left.left) ==>
            var s := k.left;
            RedBlack(Plug(k.up, Bin(Blacken(s.left), s.node, k.color, Bin(s.right, k.node, Black, t))))
  {
    assert Blacken(t) == t;
    var s := Sibling(k);
    assert Balanced(s.left) && Balanced(s.right);
    if k.InLeft? && IsRed(s.right) {
      assert Balanced(Bin(t, k.node, Black, s.left)) && Balanced(Blacken(s.right));
      RedBlackPlug(k.up, Bin(Bin(t, k.node, Black, s.left), s.node, k.color, Blacken(s.right)));
    } else if k.InRight? && IsRed(s.left) {
      assert Balanced(Bin(s.right, k.node, Black, t)) && Balanced(Blacken(s.left));
      RedBlackPlug(k.up, Bin(Blacken(s.left), s.node, k.color, Bin(s.right, k.node, Black, t)));
    }
  }

  /** A short subtree with a red root, or at the top, only has to be blackened. */
  lemma {:induction false} ShortEnds(k: Path, t: Tree)
    requires Short(k, t) && (k.Top? || IsRed(t))
    ensures RedBlack(Plug(k, Blacken(t)))
  {
    RedBlackPlug(k, Blacken(t));
  }
}
