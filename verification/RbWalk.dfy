/** The two recursive walks over the tree: rb_traverse_inorder of rb_tree.c, and rb_validate of rb_tree.h. */
module RbWalk {
  import opened RbShape
  import opened RbLinks
  import opened RbTree

  /** rb_traverse_inorder; `visited` is the sequence of nodes given to the callback. */
  method Traverse(tree: RbTree, root: Node?, ghost k: Path, ghost t: Tree) returns (visited: seq<Node>)
    requires tree.Valid() && tree.shape == Plug(k, t) && root == Root(t)
    ensures visited == Inorder(t)
    decreases t
  {
    if root == null { return []; }
    tree.Look(k, t);
    var l := Traverse(tree, root.left, InLeft(k, t.node, t.color, t.right), t.left);
    var r := Traverse(tree, root.right, InRight(k, t.left, t.node, t.color), t.right);
    return l + [root] + r;
  }

  // ----- rb_validate

  /** Every node is ordered against its own children only. */
  ghost predicate LocallyOrdered(t: Tree)
  {
    match t
    case Leaf => true
    case Bin(l, n, _, r) =>
      LocallyOrdered(l) && LocallyOrdered(r) &&
      (l.Bin? ==> l.node.vmaStart < n.vmaStart) && (r.Bin? ==> n.vmaStart < r.node.vmaStart)
  }

  /** The child links and colours below `n` spell out `t`, whose nodes are among `all`; parent links may be
      anything. */
  ghost predicate Spans(all: set<Node>, t: Tree, n: Node?)
    requires Nodes(t) <= all
    reads all
  {
    match t
    case Leaf => n == null
    case Bin(l, x, c, r) => n == x && x.color == c && Spans(all, l, x.left) && Spans(all, r, x.right)
  }

  /** Every child points back to its parent. */
  ghost predicate ParentsOk(all: set<Node>, t: Tree)
    requires Nodes(t) <= all
    reads all
  {
    match t
    case Leaf => true
    case Bin(l, x, _, r) =>
      ParentsOk(all, l) && ParentsOk(all, r) && (l.Bin? ==> l.node.parent == x) && (r.Bin? ==> r.node.parent == x)
  }

  /** What is checked at one node. */
  method CheckNode(node: Node, ghost all: set<Node>, ghost t: Tree) returns (ok: bool)
    requires t.Bin? && Nodes(t) <= all && Spans(all, t, node)
    ensures ok <==> (t.color.Red? ==> !IsRed(t.left) && !IsRed(t.right)) &&
                    (t.left.Bin? ==> t.left.node.parent == node && t.left.node.vmaStart < node.vmaStart) &&
                    (t.right.Bin? ==> t.right.node.parent == node && node.vmaStart < t.right.node.vmaStart)
  {
    if node.color == Red {
      if node.left != null && node.left.color == Red { return false; }
      if node.right != null && node.right.color == Red { return false; }
    }
    if node.left != null && node.left.parent != node { return false; }
    if node.right != null && node.right.parent != node { return false; }
    if node.left != null && node.left.vmaStart >= node.vmaStart { return false; }
    if node.right != null && node.right.vmaStart <= node.vmaStart { return false; }
    return true;
  }

  /** The recursion below one node: with `blacks` black nodes above it, and the black count of the paths
      seen so far in `path` (-1 if none). */
  method ValidateHelper(node: Node?, blacks: nat, path: int, ghost all: set<Node>, ghost t: Tree)
    returns (ok: bool, path': int)
    requires Nodes(t) <= all && Spans(all, t, node) && path >= -1
    ensures ok <==>
      Balanced(t) && LocallyOrdered(t) && ParentsOk(all, t) && (path == -1 || path == blacks + BlackHeight(t))
    ensures ok ==> path' == blacks + BlackHeight(t)
    ensures path' >= -1
    decreases t
  {
    path' := path;
    if node == null {
      if path == -1 {
        path' := blacks;
      } else if blacks != path {
        return false, path';
      }
      return true, path';
    }
    var here := CheckNode(node, all, t);
    if !here { return false, path'; }
    var b := if node.color == Black then blacks + 1 else blacks;
    ok, path' := ValidateHelper(node.left, b, path', all, t.left);
    if ok {
      ok, path' := ValidateHelper(node.right, b, path', all, t.right);
    }
  }

  /** rb_validate accepts exactly the red-black trees with correct parent links that are ordered locally. */
  method Validate(root: Node?, ghost all: set<Node>, ghost t: Tree) returns (ok: bool)
    requires Nodes(t) <= all && Spans(all, t, root)
    ensures ok <==> RedBlack(t) && LocallyOrdered(t) && ParentsOk(all, t) && (root != null ==> root.parent == null)
  {
    if root == null { return true; }
    if root.color != Black { return false; }
    if root.parent != null { return false; }
    var path;
    ok, path := ValidateHelper(root, 0, -1, all, t);
  }

  /** A well-linked tree passes the tests of the parent links. */
  lemma {:induction false} LinkedSpans(tree: RbTree, k: Path, t: Tree)
    requires tree.Valid() && tree.shape == Plug(k, t)
    ensures Nodes(t) <= tree.links.Keys
    ensures Spans(tree.links.Keys, t, Root(t)) && ParentsOk(tree.links.Keys, t)
    decreases t
  {
    NodesPlug(k, t);
    if t.Bin? {
      var kl, kr := InLeft(k, t.node, t.color, t.right), InRight(k, t.left, t.node, t.color);
      tree.Look(k, t);
      tree.Look(kl, t.left);
      tree.Look(kr, t.right);
      LinkedSpans(tree, kl, t.left);
      LinkedSpans(tree, kr, t.right);
    }
  }

  /** On the trees of `RbTree`: the test in the debug build of rb_insert and rb_delete. */
  method ValidateTree(tree: RbTree) returns (ok: bool)
    requires tree.Valid()
    ensures ok <==> RedBlack(tree.shape) && LocallyOrdered(tree.shape)
    ensures RedBlack(tree.shape) && Sorted(Inorder(tree.shape)) ==> ok
  {
    LinkedSpans(tree, Top, tree.shape);
    tree.Look(Top, tree.shape);
    if Sorted(Inorder(tree.shape)) { SortedIsLocal(tree.shape); }
    ok := Validate(tree.root, tree.links.Keys, tree.shape);
  }

  /** So it accepts every tree that rb_insert and rb_delete leave behind. */
  lemma {:induction false} SortedIsLocal(t: Tree)
    requires Sorted(Inorder(t))
    ensures LocallyOrdered(t)
  {
    match t
    case Leaf =>
    case Bin(l, n, _, r) =>
      SortedSplit(Inorder(l), n, Inorder(r));
      SortedIsLocal(l);
      SortedIsLocal(r);
      assert l.Bin? ==> l.node in Inorder(l);
      assert r.Bin? ==> r.node in Inorder(r);
  }

  /** But it accepts trees that are not search trees: here the left grandchild exceeds the root. */
  lemma {:induction false} LocalIsNotSorted(a: Node, b: Node, c: Node, d: Node)
    requires a.vmaStart < c.vmaStart < b.vmaStart && c.vmaStart < d.vmaStart
    ensures var t := Bin(Bin(Leaf, a, Black, Bin(Leaf, b, Red, Leaf)), c, Black, Bin(Leaf, d, Black, Leaf));
            RedBlack(t) && LocallyOrdered(t) && !Sorted(Inorder(t))
  {
    var t := Bin(Bin(Leaf, a, Black, Bin(Leaf, b, Red, Leaf)), c, Black, Bin(Leaf, d, Black, Leaf));
    var inner := Bin(Leaf, b, Red, Leaf);
    assert Balanced(inner) && BlackHeight(inner) == 0 && LocallyOrdered(inner) && Inorder(inner) == [b];
    assert Balanced(t.left) && BlackHeight(t.left) == 1 && BlackHeight(t.right) == 1;
    assert Inorder(t.left) == [a, b];
    assert Inorder(t.right) == [d];
    assert Inorder(t) == [a, b, c, d];
    assert Inorder(t)[1].vmaStart > Inorder(t)[2].vmaStart;
  }
}
