/** rb_tree.c: the pointer code, proved against the shapes of `RbShape`. */
module RbTree {
  import opened RbShape
  import opened RbLinks

  /** `vma_cmp`: the only comparator the tree is used with. */
  function VmaCmp(a: Node, b: Node): int
  {
    if a.vmaStart < b.vmaStart then -1 else if a.vmaStart > b.vmaStart then 1 else 0
  }

  /** One `struct rb_node *root`.  `shape` is the tree it represents and `links` a copy of the link
      fields of its nodes, both kept up to date by every method. */
  class RbTree {
    var root: Node?
    ghost var shape: Tree
    ghost var links: Links
    ghost var rotations: nat    // how often the tree was rotated so far

    /** The fields of the nodes are what `links` says. */
    ghost predicate Mirrors()
      reads this, links.Keys
    {
      forall n :: n in links ==>
        n.left == links[n].left && n.right == links[n].right &&
        n.parent == links[n].parent && n.color == links[n].color
    }

    ghost predicate Valid()
      reads this, links.Keys
    {
      && Mirrors()
      && links.Keys == Nodes(shape)
      && root == Root(shape)
      && Linked(links, shape, null)
      && Distinct(shape)
    }

    /** What `Valid` says of the shape, seen from the hole of `k`. */
    ghost predicate Focus(k: Path, t: Tree)
      reads this
    {
      root == PathRoot(k, Root(t)) && Placed(links, k, t) && links.Keys == PathNodes(k) + Nodes(t)
    }

    lemma {:induction false} Unplug(k: Path, t: Tree)
      requires shape == Plug(k, t) && Valid()
      ensures Focus(k, t)
    {
      LinkedPlug(links, k, t);
      DistinctPlug(k, t);
      NodesPlug(k, t);
    }

    lemma {:induction false} Replug(k: Path, t: Tree)
      requires shape == Plug(k, t) && Mirrors() && Focus(k, t)
      ensures Valid()
    {
      LinkedPlug(links, k, t);
      DistinctPlug(k, t);
      NodesPlug(k, t);
    }

    constructor ()
      ensures Valid() && shape == Leaf
    {
      root := null;
      shape := Leaf;
      links := map[];
    }

    // ----- Assignments to nodes

    method SetLeft(n: Node, v: Node?)
      requires Mirrors() && n in links
      modifies n`left, this`links
      ensures Mirrors() && links == old(links)[n := old(links)[n].(left := v)]
    {
      n.left := v;
      links := links[n := links[n].(left := v)];
    }

    method SetRight(n: Node, v: Node?)
      requires Mirrors() && n in links
      modifies n`right, this`links
      ensures Mirrors() && links == old(links)[n := old(links)[n].(right := v)]
    {
      n.right := v;
      links := links[n := links[n].(right := v)];
    }

    method SetParent(n: Node, v: Node?)
      requires Mirrors() && n in links
      modifies n`parent, this`links
      ensures Mirrors() && links == old(links)[n := old(links)[n].(parent := v)]
    {
      n.parent := v;
      links := links[n := links[n].(parent := v)];
    }

    method SetColor(n: Node, v: Color)
      requires Mirrors() && n in links
      modifies n`color, this`links
      ensures Mirrors() && links == old(links)[n := old(links)[n].(color := v)]
    {
      n.color := v;
      links := links[n := links[n].(color := v)];
    }

    /** The parent's link to `node`, redirected; `*root` when there is no parent. */
    method Relink(node: Node, repl: Node?)
      requires Mirrors() && node in links
      requires links[node].parent != null ==> links[node].parent in links
      modifies this`root, this`links, links.Keys
      ensures Mirrors() && links == RelinkLinks(old(links), node, repl)
      ensures root == if old(links)[node].parent == null then repl else old(root)
    {
      if node.parent == null {
        root := repl;
      } else if node == node.parent.left {
        SetLeft(node.parent, repl);
      } else {
        SetRight(node.parent, repl);
      }
    }

    /** The same with the right link tested first, as `rb_rotate_right` does. */
    method RelinkRight(node: Node, repl: Node?)
      requires Mirrors() && node in links
      requires var p := links[node].parent;
               p != null ==> p in links && (links[p].left == node <==> links[p].right != node)
      modifies this`root, this`links, links.Keys
      ensures Mirrors() && links == RelinkLinks(old(links), node, repl)
      ensures root == if old(links)[node].parent == null then repl else old(root)
    {
      if node.parent == null {
        root := repl;
      } else if node == node.parent.right {
        SetRight(node.parent, repl);
      } else {
        SetLeft(node.parent, repl);
      }
    }

    // ----- Search

    method FindExact(key: Node) returns (found: Node?, ghost k: Path, ghost t: Tree)
      requires Valid() && Sorted(Inorder(shape))
      ensures shape == Plug(k, t) && found == Root(t) && Brackets(k, key.vmaStart)
      ensures found != null ==> found.vmaStart == key.vmaStart
      ensures found == null ==> forall n :: n in Inorder(shape) ==> n.vmaStart != key.vmaStart
    {
      k, t := Top, shape;
      var current := root;
      while current != null
        invariant shape == Plug(k, t) && current == Root(t) && Brackets(k, key.vmaStart)
        decreases t
      {
        Look(k, t);
        Narrow(k, t, key.vmaStart);
        var result := VmaCmp(key, current);
        if result < 0 {
          current := current.left;
          k, t := InLeft(k, t.node, t.color, t.right), t.left;
        } else if result > 0 {
          current := current.right;
          k, t := InRight(k, t.left, t.node, t.color), t.right;
        } else {
          return current, k, t;
        }
      }
      Absent(k, key.vmaStart);
      return null, k, t;
    }

    // ----- Rotations

    method SwingLeft(node: Node)
      requires Mirrors() && CanRotateLeft(links, node)
      modifies this`root, this`links, links.Keys
      ensures Mirrors() && links == RotateLeftLinks(old(links), node)
      ensures root == if old(links)[node].parent == null then old(links)[node].right else old(root)
    {
      var tmp := node.right;
      SetRight(node, tmp.left);
      if tmp.left != null {
        SetParent(node.right, node);
      }
      SetParent(tmp, node.parent);
      Relink(node, tmp);
      SetLeft(tmp, node);
      SetParent(node, tmp);
    }

    method SwingRight(node: Node)
      requires Mirrors() && CanRotateRight(links, node)
      modifies this`root, this`links, links.Keys
      ensures Mirrors() && links == RotateRightLinks(old(links), node)
      ensures root == if old(links)[node].parent == null then old(links)[node].left else old(root)
    {
      var tmp := node.left;
      SetLeft(node, tmp.right);
      if tmp.right != null {
        SetParent(node.left, node);
      }
      SetParent(tmp, node.parent);
      RelinkRight(node, tmp);
      SetRight(tmp, node);
      SetParent(node, tmp);
    }

    method RotateLeft(node: Node, ghost k: Path, ghost t: Tree)
      requires Valid() && shape == Plug(k, t)
      requires t.Bin? && t.node == node && t.right.Bin?
      modifies this, links.Keys
      ensures Valid() && links.Keys == old(links.Keys) && rotations == old(rotations) + 1
      ensures shape == Plug(k, RotatedLeft(t)) && Inorder(shape) == old(Inorder(shape))
    {
      Unplug(k, t);
      RotateLeftShape(links, k, t);
      SwingLeft(node);
      RotationContents(k, t);
      assert root == PathRoot(k, t.right.node) by {
        if !k.Top? { PathRootInPath(k, node, t.right.node); }
      }
      shape := Plug(k, RotatedLeft(t));
      Replug(k, RotatedLeft(t));
      rotations := rotations + 1;
    }

    method RotateRight(node: Node, ghost k: Path, ghost t: Tree)
      requires Valid() && shape == Plug(k, t)
      requires t.Bin? && t.node == node && t.left.Bin?
      modifies this, links.Keys
      ensures Valid() && links.Keys == old(links.Keys) && rotations == old(rotations) + 1
      ensures shape == Plug(k, RotatedRight(t)) && Inorder(shape) == old(Inorder(shape))
    {
      Unplug(k, t);
      RotateRightShape(links, k, t);
      SwingRight(node);
      RotationContents(k, RotatedRight(t));
      assert root == PathRoot(k, t.left.node) by {
        if !k.Top? { PathRootInPath(k, node, t.left.node); }
      }
      shape := Plug(k, RotatedRight(t));
      Replug(k, RotatedRight(t));
      rotations := rotations + 1;
    }

    method Paint(node: Node, c: Color, ghost k: Path, ghost t: Tree)
      requires Valid() && shape == Plug(k, t) && t.Bin? && t.node == node
      modifies this, links.Keys
      ensures Valid() && links.Keys == old(links.Keys) && rotations == old(rotations)
      ensures shape == Plug(k, t.(color := c)) && Inorder(shape) == old(Inorder(shape))
    {
      Unplug(k, t);
      PaintShape(links, k, t, c);
      SetColor(node, c);
      InorderPlug(k, t);
      InorderPlug(k, t.(color := c));
      shape := Plug(k, t.(color := c));
      Replug(k, t.(color := c));
    }

    // ----- Insertion

    /** Below the red left child `p` of `g`, with a black uncle `u`: recolour and rotate. */
    method RaiseLeft(p: Node, g: Node, ghost k: Path, ghost a: Tree, ghost b: Tree, ghost u: Tree)
      requires Valid() && shape == Plug(k, Bin(Bin(a, p, Red, b), g, Black, u))
      modifies this, links.Keys
      ensures Valid() && links.Keys == old(links.Keys) && Inorder(shape) == old(Inorder(shape))
      ensures shape == Plug(k, Bin(a, p, Black, Bin(b, g, Red, u)))
    {
      Paint(p, Black, InLeft(k, g, Black, u), Bin(a, p, Red, b));
      Paint(g, Red, k, Bin(Bin(a, p, Black, b), g, Black, u));
      RotateRight(g, k, Bin(Bin(a, p, Black, b), g, Red, u));
    }

    method RaiseRight(p: Node, g: Node, ghost k: Path, ghost u: Tree, ghost a: Tree, ghost b: Tree)
      requires Valid() && shape == Plug(k, Bin(u, g, Black, Bin(a, p, Red, b)))
      modifies this, links.Keys
      ensures Valid() && links.Keys == old(links.Keys) && Inorder(shape) == old(Inorder(shape))
      ensures shape == Plug(k, Bin(Bin(u, g, Red, a), p, Black, b))
    {
      Paint(p, Black, InRight(k, u, g, Black), Bin(a, p, Red, b));
      Paint(g, Red, k, Bin(u, g, Black, Bin(a, p, Black, b)));
      RotateLeft(g, k, Bin(u, g, Red, Bin(a, p, Black, b)));
    }

    /** What the code can read around the hole of `k`. */
    lemma {:induction false} Look(k: Path, t: Tree)
      requires Valid() && shape == Plug(k, t)
      ensures k.Top? <==> Root(t) == root
      ensures t.Bin? ==> t.node in links && t.node.parent == Above(k) && t.node.color == t.color &&
                         t.node.left == Root(t.left) && t.node.right == Root(t.right)
      ensures !k.Top? ==> k.node in links && k.node.parent == Above(k.up) && k.node.color == k.color
      ensures k.InLeft? ==> k.node.left == Root(t) && k.node.right == Root(k.right)
      ensures k.InRight? ==> k.node.right == Root(t) && k.node.left == Root(k.left)
      ensures k.InRight? && t.Bin? ==> k.node.left != t.node
      ensures k.InLeft? && t.Bin? ==> k.node.right != t.node
    {
      Unplug(k, t);
      if !k.Top? {
        PathKeys(links, k, Root(t));
        PathRootInPath(k, Root(t), null);
        assert k.node in PathNodes(k);
      }
    }

    method InsertFixLeft(x: Node, ghost k: Path, ghost t: Tree) returns (x': Node, ghost k': Path, ghost t': Tree)
      requires Valid() && shape == Plug(k, t) && RedAt(k, t) && t.node == x
      requires !k.Top? && k.color.Red? && k.up.InLeft?
      modifies this, links.Keys
      ensures Valid() && shape == Plug(k', t') && RedAt(k', t') && t'.node == x'
      ensures links.Keys == old(links.Keys) && Inorder(shape) == old(Inorder(shape))
      ensures Depth(k') < Depth(k)
    {
      Look(k, t);
      RedParent(k, t);
      ghost var kg, u := k.up.up, k.up.right;
      ghost var q := Fill(k, t);
      Look(k.up, q);
      var p, g := x.parent, x.parent.parent;
      var uncle := g.right;
      Look(InRight(kg, q, g, Black), u);
      if uncle != null && uncle.color.Red? {
        Recolored(k, t, u);
        Paint(p, Black, k.up, q);
        Paint(uncle, Black, InRight(kg, Blacken(q), g, Black), u);
        Paint(g, Red, kg, Bin(Blacken(q), g, Black, Blacken(u)));
        x', k', t' := g, kg, Bin(Blacken(q), g, Red, Blacken(u));
      } else {
        x', k', t' := x, k, t;
        if x == p.right {
          Straightened(k, t);
          x', k', t' := p, InLeft(k.up, x, Red, t.right), Bin(k.left, p, Red, t.left);
          RotateLeft(p, k.up, q);
          Look(k', t');
        }
        Raised(kg, t', k'.right, u, k'.node, g, Black);
        RaiseLeft(x'.parent, g, kg, t', k'.right, u);
        k' := InLeft(kg, k'.node, Black, Bin(k'.right, g, Red, u));
      }
    }

    method InsertFixRight(x: Node, ghost k: Path, ghost t: Tree) returns (x': Node, ghost k': Path, ghost t': Tree)
      requires Valid() && shape == Plug(k, t) && RedAt(k, t) && t.node == x
      requires !k.Top? && k.color.Red? && k.up.InRight?
      modifies this, links.Keys
      ensures Valid() && shape == Plug(k', t') && RedAt(k', t') && t'.node == x'
      ensures links.Keys == old(links.Keys) && Inorder(shape) == old(Inorder(shape))
      ensures Depth(k') < Depth(k)
    {
      Look(k, t);
      RedParent(k, t);
      ghost var kg, u := k.up.up, k.up.left;
      ghost var q := Fill(k, t);
      Look(k.up, q);
      var p, g := x.parent, x.parent.parent;
      var uncle := g.left;
      Look(InLeft(kg, g, Black, q), u);
      if uncle != null && uncle.color.Red? {
        Recolored(k, t, u);
        Paint(p, Black, k.up, q);
        Paint(uncle, Black, InLeft(kg, g, Black, Blacken(q)), u);
        Paint(g, Red, kg, Bin(Blacken(u), g, Black, Blacken(q)));
        x', k', t' := g, kg, Bin(Blacken(u), g, Red, Blacken(q));
      } else {
        x', k', t' := x, k, t;
        if x == p.left {
          Straightened(k, t);
          x', k', t' := p, InRight(k.up, t.left, x, Red), Bin(t.right, p, Red, k.right);
          RotateRight(p, k.up, q);
          Look(k', t');
        }
        Raised(kg, t', k'.left, u, k'.node, g, Black);
        RaiseRight(x'.parent, g, kg, u, k'.left, t');
        k' := InRight(kg, Bin(u, g, Red, k'.left), k'.node, Black);
      }
    }

    method InsertFixup(start: Node, ghost k0: Path, ghost t0: Tree)
      requires Valid() && shape == Plug(k0, t0) && RedAt(k0, t0) && t0.node == start
      modifies this, links.Keys
      ensures Valid() && RedBlack(shape)
      ensures links.Keys == old(links.Keys) && Inorder(shape) == old(Inorder(shape))
    {
      hide Linked, Distinct, RedBlack, Balanced, Fits;
      var x := start;
      ghost var k, t := k0, t0;
      Look(k, t);
      while x.parent != null && x.parent.color.Red?
        invariant Valid() && shape == Plug(k, t) && RedAt(k, t) && t.node == x
        invariant links.Keys == old(links.Keys) && Inorder(shape) == old(Inorder(shape))
        invariant x.parent == Above(k) && (!k.Top? ==> k.node.color == k.color)
        decreases Depth(k)
      {
        RedParent(k, t);
        Look(k, t);
        Look(k.up, Fill(k, t));
        if x.parent.parent == null {
          break;
        }
        if x.parent == x.parent.parent.left {
          x, k, t := InsertFixLeft(x, k, t);
        } else {
          x, k, t := InsertFixRight(x, k, t);
        }
        Look(k, t);
      }
      FixupDone(k, t);
      Look(Top, shape);
      Paint(root, Black, Top, shape);
    }

    /** The assignments of `rb_insert` that hang the node below the parent it found. */
    method AttachLinks(node: Node, parent: Node, ghost left: bool)
      requires Mirrors() && parent in links && node !in links && node.left == null && node.right == null
      requires if left then node.vmaStart < parent.vmaStart else node.vmaStart > parent.vmaStart
      modifies this`links, parent, node
      ensures Mirrors() && links == HangBelow(old(links), parent, left, node)
    {
      var result := VmaCmp(node, parent);
      if result < 0 {
        SetLeft(parent, node);
      } else if result > 0 {
        SetRight(parent, node);
      }
      node.parent := parent;
      node.color := Red;
      links := links[node := Cell(null, null, parent, Red)];
    }

    method Attach(node: Node, parent: Node, ghost k: Path)
      requires Valid() && shape == Plug(k, Leaf) && node !in links && parent == Above(k)
      requires Brackets(k, node.vmaStart) && node.left == null && node.right == null
      modifies this, links.Keys, node
      ensures Valid() && shape == Plug(k, Bin(Leaf, node, Red, Leaf))
      ensures links.Keys == old(links.Keys) + {node}
    {
      Unplug(k, Leaf);
      HangShape(links, k, node);
      BracketsAbove(k, node.vmaStart);
      AttachLinks(node, parent, k.InLeft?);
      assert root == PathRoot(k, node) by { PathRootInPath(k, null, node); }
      shape := Plug(k, Bin(Leaf, node, Red, Leaf));
      Replug(k, Bin(Leaf, node, Red, Leaf));
    }

    /** The descent of `rb_insert`: the node below which the new one belongs, or a duplicate. */
    method FindSlot(node: Node) returns (parent: Node?, duplicate: bool, ghost k: Path)
      requires Valid() && Sorted(Inorder(shape))
      ensures duplicate ==> exists n :: n in Inorder(shape) && n.vmaStart == node.vmaStart
      ensures !duplicate ==> shape == Plug(k, Leaf) && parent == Above(k) && Brackets(k, node.vmaStart)
    {
      k, parent, duplicate := Top, null, false;
      ghost var t := shape;
      var current := root;
      while current != null
        invariant shape == Plug(k, t) && current == Root(t) && parent == Above(k)
        invariant Brackets(k, node.vmaStart)
        decreases t
      {
        parent := current;
        Look(k, t);
        Narrow(k, t, node.vmaStart);
        var result := VmaCmp(node, current);
        if result < 0 {
          current := current.left;
          k, t := InLeft(k, t.node, t.color, t.right), t.left;
        } else if result > 0 {
          current := current.right;
          k, t := InRight(k, t.left, t.node, t.color), t.right;
        } else {
          InorderPlug(k, t);
          assert current in Inorder(t);
          return parent, true, k;
        }
      }
    }

    /** `rb_insert` into an empty tree. */
    method Plant(node: Node)
      requires node.left == null && node.right == null
      modifies this, node
      ensures Valid() && shape == Bin(Leaf, node, Black, Leaf) && links.Keys == {node}
    {
      root := node;
      node.parent := null;
      node.color := Black;
      shape := Bin(Leaf, node, Black, Leaf);
      links := map[node := Cell(null, null, null, Black)];
    }

    method Insert(node: Node) returns (r: Node?)
      requires Valid() && RedBlack(shape) && Sorted(Inorder(shape)) && node !in links
      modifies this, links.Keys, node
      ensures Valid() && RedBlack(shape) && Sorted(Inorder(shape))
      ensures r == null <==> exists n :: n in old(Inorder(shape)) && n.vmaStart == node.vmaStart
      ensures r == null ==> shape == old(shape) && links == old(links)
      ensures r != null ==> r == node && links.Keys == old(links.Keys) + {node}
      ensures r != null ==> InsertedInto(old(Inorder(shape)), node, Inorder(shape))
    {
      hide Linked, Distinct, Sorted, InsertedInto;
      node.left := null;
      node.right := null;
      ghost var k;
      var parent, duplicate;
      parent, duplicate, k := FindSlot(node);
      if duplicate {
        return null;
      }
      Absent(k, node.vmaStart);
      Inserted(k, node, Red);
      if parent == null {
        Plant(node);
        return node;
      }
      RedBlackPlug(k, Leaf);
      Attach(node, parent, k);
      InsertFixup(node, k, Bin(Leaf, node, Red, Leaf));
      return node;
    }

    // ----- Deletion

    method Minimum(start: Node, ghost k: Path, ghost t: Tree) returns (node: Node, ghost m: Path, ghost s: Tree)
      requires Valid() && shape == Plug(k, t) && t.Bin? && t.node == start
      ensures Leftmost(m) && t == Plug(m, s) && s.Bin? && s.node == node && s.left.Leaf?
    {
      node, m, s := start, Top, t;
      LookBelow(k, m, s);
      while node.left != null
        invariant Leftmost(m) && t == Plug(m, s) && s.Bin? && s.node == node && node.left == Root(s.left)
        decreases s
      {
        node := node.left;
        m, s := InLeft(m, s.node, s.color, s.right), s.left;
        LookBelow(k, m, s);
      }
    }

    lemma {:induction false} LookBelow(k: Path, m: Path, s: Tree)
      requires Valid() && shape == Plug(k, Plug(m, s)) && s.Bin?
      ensures s.node in links && s.node.left == Root(s.left) && s.node.right == Root(s.right)
      ensures s.node.color == s.color && s.node.parent == if m.Top? then Above(k) else m.node
    {
      PlugBelow(m, k, s);
      Look(Below(m, k), s);
    }

    method Transplant(node: Node, repl: Node?)
      requires Mirrors() && node in links && (repl != null ==> repl in links)
      requires links[node].parent != null ==> links[node].parent in links
      modifies this`root, this`links, links.Keys
      ensures Mirrors() && links == TransplantLinks(old(links), node, repl)
      ensures root == if old(links)[node].parent == null then repl else old(root)
    {
      Relink(node, repl);
      if repl != null {
        SetParent(repl, node.parent);
      }
    }

    /** A node with at most one child is replaced by that child. */
    method Splice(node: Node, repl: Node?, ghost k: Path, ghost t: Tree, ghost r: Tree)
      requires Valid() && shape == Plug(k, t) && t.Bin? && t.node == node && repl == Root(r)
      requires (t.left.Leaf? && r == t.right) || (t.right.Leaf? && r == t.left)
      modifies this, links.Keys
      ensures Valid() && shape == Plug(k, r) && links.Keys == old(links.Keys) - {node}
      ensures rotations == old(rotations)
    {
      hide Linked, PathLinked, PathDistinct, Plug;
      Unplug(k, t);
      TransplantShape(links, k, t, r);
      Transplant(node, repl);
      PlaceRoot(k, node, repl);
      Settle(node, k, r);
    }

    method Detach(node: Node, y: Node) returns (xParent: Node?)
      requires Mirrors() && CanDetach(links, node, y)
      modifies this`root, this`links, links.Keys
      ensures Mirrors() && links == DetachLinks(old(links), node, y) && root == old(root)
      ensures xParent == links[y].parent
    {
      Transplant(y, y.right);
      SetRight(y, node.right);
      SetParent(y.right, y);
      xParent := y.parent;
    }

    method TakePlace(node: Node, y: Node)
      requires Mirrors() && CanTakePlace(links, node, y)
      modifies this`root, this`links, links.Keys
      ensures Mirrors() && links == TakePlaceLinks(old(links), node, y)
      ensures root == if old(links)[node].parent == null then y else old(root)
    {
      Transplant(node, y);
      SetLeft(y, node.left);
      SetParent(y.left, y);
      SetColor(y, node.color);
    }

    /** Frees the successor `y`, the minimum of the right subtree, from its old place. */
    method Release(node: Node, y: Node, ghost k: Path, ghost t: Tree, ghost m: Path, ghost u: Tree)
      returns (x: Node?, xParent: Node?)
      requires Mirrors() && Placed(links, k, t) && t.Bin? && t.node == node && t.left.Bin?
      requires t.right == Plug(m, u) && u.Bin? && u.left.Leaf? && u.node == y
      requires y in links && links[y].right == Root(u.right)
      modifies this`root, this`links, links.Keys
      ensures Mirrors() && links.Keys == old(links.Keys) && root == old(root)
      ensures Detached(links, k, t.left, node, t.color, y, Plug(m, u.right))
      ensures x == Root(u.right) && xParent == if m.Top? then y else m.node
    {
      x := y.right;
      if m.Top? {
        DetachedChild(links, k, t.left, node, t.color, y, u.color, u.right);
      } else {
        DetachedDeep(links, k, t.left, node, t.color, m, y, u.color, u.right);
      }
      if y.parent == node {
        xParent := ReleaseChild(x, y, u.right);
      } else {
        xParent := Detach(node, y);
      }
    }

    /** The successor is the right child itself: `x` already hangs below it. */
    method ReleaseChild(x: Node?, y: Node, ghost s: Tree) returns (xParent: Node?)
      requires Mirrors() && x == Root(s) && Linked(links, s, y)
      modifies this`links, links.Keys
      ensures Mirrors() && links == old(links) && xParent == y
    {
      xParent := y;
      if x != null {
        SetParent(x, y);
        assert links == old(links);
      }
    }

    /** A node with two children is replaced by its successor, whose right subtree moves up. */
    method Succeed(node: Node, y: Node, ghost k: Path, ghost t: Tree, ghost m: Path, ghost u: Tree)
      returns (x: Node?, xParent: Node?)
      requires Valid() && shape == Plug(k, t) && t.Bin? && t.node == node && t.left.Bin?
      requires t.right == Plug(m, u) && u.Bin? && u.left.Leaf? && u.node == y
      modifies this, links.Keys
      ensures Valid() && links.Keys == old(links.Keys) - {node}
      ensures shape == Plug(k, Bin(t.left, y, t.color, Plug(m, u.right)))
      ensures x == Root(u.right) && xParent == if m.Top? then y else m.node
      ensures rotations == old(rotations)
    {
      Unplug(k, t);
      LookBelow(InRight(k, t.left, node, t.color), m, u);
      x, xParent := Release(node, y, k, t, m, u);
      SucceededNodes(t.left, node, t.color, m, u);
      Occupy(node, y, k, t.left, t.color, Plug(m, u.right));
    }

    method Occupy(node: Node, y: Node, ghost k: Path, ghost l: Tree, ghost c: Color, ghost r: Tree)
      requires Mirrors() && Detached(links, k, l, node, c, y, r) && root == PathRoot(k, node)
      requires links.Keys == PathNodes(k) + Nodes(Bin(l, y, c, r)) + {node}
      modifies this, links.Keys
      ensures Valid() && links.Keys == old(links.Keys) - {node} && shape == Plug(k, Bin(l, y, c, r))
      ensures rotations == old(rotations)
    {
      TakePlaceShape(links, k, l, node, c, y, r);
      TakePlace(node, y);
      PlaceRoot(k, node, y);
      Settle(node, k, Bin(l, y, c, r));
    }

    lemma {:induction false} PlaceRoot(k: Path, node: Node, y: Node?)
      requires root == if k.Top? then y else PathRoot(k, node)
      ensures root == PathRoot(k, y)
    {
      if !k.Top? { PathRootInPath(k, node, y); }
    }

    /** The removed node is forgotten. */
    ghost method Settle(node: Node, k: Path, t: Tree)
      requires Mirrors() && Placed(links, k, t) && root == PathRoot(k, Root(t))
      requires node !in PathNodes(k) && node !in Nodes(t) && links.Keys == PathNodes(k) + Nodes(t) + {node}
      modifies this`links, this`shape
      ensures Valid() && shape == Plug(k, t) && links.Keys == old(links.Keys) - {node}
    {
      PlacedDrop(links, k, t, node);
      links := links - {node};
      shape := Plug(k, t);
      Replug(k, t);
    }

    // ----- Deletion fix-up

    /** `sibling == NULL || sibling->color == RB_BLACK` for a child of the sibling. */
    method IsBlack(n: Node?, ghost k: Path, ghost t: Tree) returns (b: bool)
      requires Valid() && shape == Plug(k, t) && n == Root(t)
      ensures b <==> !IsRed(t)
    {
      Look(k, t);
      b := n == null || n.color.Black?;
    }

    method CaseOneLeft(xParent: Node, sibling: Node, ghost k: Path, ghost t: Tree) returns (ghost k': Path)
      requires Valid() && shape == Plug(k, t) && k.InLeft? && k.node == xParent
      requires IsRed(k.right) && k.right.node == sibling
      modifies this, links.Keys
      ensures Valid() && links.Keys == old(links.Keys) && Inorder(shape) == old(Inorder(shape))
      ensures rotations == old(rotations) + 1
      ensures k' == InLeft(InLeft(k.up, sibling, Black, k.right.right), xParent, Red, k.right.left)
      ensures shape == Plug(k', t)
    {
      ghost var s := k.right;
      Paint(sibling, Black, InRight(k.up, t, xParent, k.color), s);
      Paint(xParent, Red, k.up, Bin(t, xParent, k.color, Blacken(s)));
      RotateLeft(xParent, k.up, Bin(t, xParent, Red, Blacken(s)));
      k' := InLeft(InLeft(k.up, sibling, Black, s.right), xParent, Red, s.left);
    }

    method CaseThreeLeft(xParent: Node, sibling: Node, ghost k: Path, ghost t: Tree) returns (ghost s': Tree)
      requires Valid() && shape == Plug(k, t) && k.InLeft? && k.node == xParent
      requires k.right.Bin? && k.right.node == sibling && IsRed(k.right.left)
      modifies this, links.Keys
      ensures Valid() && links.Keys == old(links.Keys) && Inorder(shape) == old(Inorder(shape))
      ensures rotations == old(rotations) + 1
      ensures var s := k.right;
              s' == Bin(s.left.left, s.left.node, Black, Bin(s.left.right, s.node, Red, s.right))
      ensures shape == Plug(k.(right := s'), t)
    {
      ghost var s := k.right;
      ghost var o := InRight(k.up, t, xParent, k.color);
      Look(o, s);
      if sibling.left != null {
        Paint(sibling.left, Black, InLeft(o, sibling, s.color, s.right), s.left);
      }
      ghost var a := Blacken(s.left);
      Paint(sibling, Red, o, Bin(a, sibling, s.color, s.right));
      RotateRight(sibling, o, Bin(a, sibling, Red, s.right));
      s' := RotatedRight(Bin(a, sibling, Red, s.right));
    }

    method CaseFourLeft(xParent: Node, sibling: Node, ghost k: Path, ghost t: Tree)
      requires Valid() && shape == Plug(k, t) && k.InLeft? && k.node == xParent
      requires k.right.Bin? && k.right.node == sibling
      modifies this, links.Keys
      ensures Valid() && links.Keys == old(links.Keys) && Inorder(shape) == old(Inorder(shape))
      ensures rotations == old(rotations) + 1
      ensures var s := k.right;
              shape == Plug(k.up, Bin(Bin(t, xParent, Black, s.left), sibling, k.color, Blacken(s.right)))
    {
      ghost var s := k.right;
      ghost var o := InRight(k.up, t, xParent, k.color);
      Look(k, t);
      Paint(sibling, xParent.color, o, s);
      s := s.(color := k.color);
      Paint(xParent, Black, k.up, Bin(t, xParent, k.color, s));
      o := InRight(k.up, t, xParent, Black);
      Look(o, s);
      if sibling.right != null {
        Paint(sibling.right, Black, InRight(o, s.left, sibling, k.color), s.right);
      }
      s := s.(right := Blacken(s.right));
      RotateLeft(xParent, k.up, Bin(t, xParent, Black, s));
    }

    /** The sibling, made black first if it is red. */
    method SiblingLeft(xParent: Node, ghost k: Path, ghost t: Tree)
      returns (sibling: Node?, ghost k': Path)
      requires Valid() && shape == Plug(k, t) && Short(k, t) && k.InLeft? && k.node == xParent
      modifies this, links.Keys
      ensures Valid() && links.Keys == old(links.Keys) && Inorder(shape) == old(Inorder(shape))
      ensures shape == Plug(k', t) && Short(k', t) && k'.InLeft? && k'.node == xParent
      ensures k'.right.Bin? && k'.right.color.Black? && k'.right.node == sibling
      ensures (rotations == old(rotations) && k' == k) || (rotations == old(rotations) + 1 && k'.color.Red?)
    {
      k' := k;
      SiblingExists(k, t);
      Look(k, t);
      sibling := xParent.right;
      Look(InRight(k.up, t, xParent, k.color), k.right);
      if sibling != null && sibling.color.Red? {
        RedSibling(k, t);
        k' := CaseOneLeft(xParent, sibling, k, t);
        Look(k', t);
        sibling := xParent.right;
      }
    }

    /** Cases 3 and 4: a black sibling with a red child ends the loop. */
    method FinishLeft(xParent: Node, sibling: Node, rightBlack: bool, ghost k: Path, ghost t: Tree)
      requires Valid() && shape == Plug(k, t) && Short(k, t) && !IsRed(t) && k.InLeft? && k.node == xParent
      requires k.right.Bin? && k.right.color.Black? && k.right.node == sibling
      requires rightBlack == !IsRed(k.right.right) && (rightBlack ==> IsRed(k.right.left))
      modifies this, links.Keys
      ensures Valid() && links.Keys == old(links.Keys) && Inorder(shape) == old(Inorder(shape))
      ensures RedBlack(shape) && old(rotations) < rotations <= old(rotations) + 2
    {
      var s := sibling;
      ghost var k' := k;
      if rightBlack {
        InnerRed(k, t);
        ghost var u := CaseThreeLeft(xParent, s, k, t);
        k' := k.(right := u);
        Look(k', t);
        s := xParent.right;
      }
      OuterRed(k', t);
      CaseFourLeft(xParent, s, k', t);
    }

    /** One round of `rb_delete_fixup` when the short subtree is a left child. */
    method DeleteFixLeft(x: Node?, xParent: Node, ghost k: Path, ghost t: Tree)
      returns (x': Node?, xParent': Node?, ghost k': Path, ghost t': Tree)
      requires Valid() && shape == Plug(k, t) && Short(k, t) && !IsRed(t)
      requires k.InLeft? && k.node == xParent && x == Root(t)
      modifies this, links.Keys
      ensures Valid() && links.Keys == old(links.Keys) && Inorder(shape) == old(Inorder(shape))
      ensures shape == Plug(k', t') && Short(k', t') && x' == Root(t') && (!k'.Top? ==> xParent' == Above(k'))
      ensures old(rotations) <= rotations <= old(rotations) + 3
      ensures rotations > old(rotations) ==> k'.Top? || IsRed(t')
      ensures k'.Top? || IsRed(t') || Depth(k') < Depth(k)
    {
      xParent' := xParent;
      var sibling;
      sibling, k' := SiblingLeft(xParent, k, t);
      ghost var o, s := InRight(k'.up, t, xParent, k'.color), k'.right;
      Look(o, s);
      var leftBlack := IsBlack(sibling.left, InLeft(o, sibling, s.color, s.right), s.left);
      var rightBlack := IsBlack(sibling.right, InRight(o, s.left, sibling, s.color), s.right);
      if leftBlack && rightBlack {
        BlackSibling(k', t);
        Paint(sibling, Red, o, s);
        k', t' := k'.up, Bin(t, xParent, k'.color, s.(color := Red));
        x' := xParent;
        Look(k', t');
        xParent' := x'.parent;
      } else {
        FinishLeft(xParent, sibling, rightBlack, k', t);
        x', k', t' := root, Top, shape;
      }
    }

    method CaseOneRight(xParent: Node, sibling: Node, ghost k: Path, ghost t: Tree) returns (ghost k': Path)
      requires Valid() && shape == Plug(k, t) && k.InRight? && k.node == xParent
      requires IsRed(k.left) && k.left.node == sibling
      modifies this, links.Keys
      ensures Valid() && links.Keys == old(links.Keys) && Inorder(shape) == old(Inorder(shape))
      ensures rotations == old(rotations) + 1
      ensures k' == InRight(InRight(k.up, k.left.left, sibling, Black), k.left.right, xParent, Red)
      ensures shape == Plug(k', t)
    {
      ghost var s := k.left;
      Paint(sibling, Black, InLeft(k.up, xParent, k.color, t), s);
      Paint(xParent, Red, k.up, Bin(Blacken(s), xParent, k.color, t));
      RotateRight(xParent, k.up, Bin(Blacken(s), xParent, Red, t));
      k' := InRight(InRight(k.up, s.left, sibling, Black), s.right, xParent, Red);
    }

    method CaseThreeRight(xParent: Node, sibling: Node, ghost k: Path, ghost t: Tree) returns (ghost s': Tree)
      requires Valid() && shape == Plug(k, t) && k.InRight? && k.node == xParent
      requires k.left.Bin? && k.left.node == sibling && IsRed(k.left.right)
      modifies this, links.Keys
      ensures Valid() && links.Keys == old(links.Keys) && Inorder(shape) == old(Inorder(shape))
      ensures rotations == old(rotations) + 1
      ensures var s := k.left;
              s' == Bin(Bin(s.left, s.node, Red, s.right.left), s.right.node, Black, s.right.right)
      ensures shape == Plug(k.(left := s'), t)
    {
      ghost var s := k.left;
      ghost var o := InLeft(k.up, xParent, k.color, t);
      Look(o, s);
      if sibling.right != null {
        Paint(sibling.right, Black, InRight(o, s.left, sibling, s.color), s.right);
      }
      ghost var a := Blacken(s.right);
      Paint(sibling, Red, o, Bin(s.left, sibling, s.color, a));
      RotateLeft(sibling, o, Bin(s.left, sibling, Red, a));
      s' := RotatedLeft(Bin(s.left, sibling, Red, a));
    }

    method CaseFourRight(xParent: Node, sibling: Node, ghost k: Path, ghost t: Tree)
      requires Valid() && shape == Plug(k, t) && k.InRight? && k.node == xParent
      requires k.left.Bin? && k.left.node == sibling
      modifies this, links.Keys
      ensures Valid() && links.Keys == old(links.Keys) && Inorder(shape) == old(Inorder(shape))
      ensures rotations == old(rotations) + 1
      ensures var s := k.left;
              shape == Plug(k.up, Bin(Blacken(s.left), sibling, k.color, Bin(s.right, xParent, Black, t)))
    {
      ghost var s := k.left;
      ghost var o := InLeft(k.up, xParent, k.color, t);
      Look(k, t);
      Paint(sibling, xParent.color, o, s);
      s := s.(color := k.color);
      Paint(xParent, Black, k.up, Bin(s, xParent, k.color, t));
      o := InLeft(k.up, xParent, Black, t);
      Look(o, s);
      if sibling.left != null {
        Paint(sibling.left, Black, InLeft(o, sibling, k.color, s.right), s.left);
      }
      s := s.(left := Blacken(s.left));
      RotateRight(xParent, k.up, Bin(s, xParent, Black, t));
    }

    method SiblingRight(xParent: Node, ghost k: Path, ghost t: Tree)
      returns (sibling: Node?, ghost k': Path)
      requires Valid() && shape == Plug(k, t) && Short(k, t) && k.InRight? && k.node == xParent
      modifies this, links.Keys
      ensures Valid() && links.Keys == old(links.Keys) && Inorder(shape) == old(Inorder(shape))
      ensures shape == Plug(k', t) && Short(k', t) && k'.InRight? && k'.node == xParent
      ensures k'.left.Bin? && k'.left.color.Black? && k'.left.node == sibling
      ensures (rotations == old(rotations) && k' == k) || (rotations == old(rotations) + 1 && k'.color.Red?)
    {
      k' := k;
      SiblingExists(k, t);
      Look(k, t);
      sibling := xParent.left;
      Look(InLeft(k.up, xParent, k.color, t), k.left);
      if sibling != null && sibling.color.Red? {
        RedSibling(k, t);
        k' := CaseOneRight(xParent, sibling, k, t);
        Look(k', t);
        sibling := xParent.left;
      }
    }

    method FinishRight(xParent: Node, sibling: Node, leftBlack: bool, ghost k: Path, ghost t: Tree)
      requires Valid() && shape == Plug(k, t) && Short(k, t) && !IsRed(t) && k.InRight? && k.node == xParent
      requires k.left.Bin? && k.left.color.Black? && k.left.node == sibling
      requires leftBlack == !IsRed(k.left.left) && (leftBlack ==> IsRed(k.left.right))
      modifies this, links.Keys
      ensures Valid() && links.Keys == old(links.Keys) && Inorder(shape) == old(Inorder(shape))
      ensures RedBlack(shape) && old(rotations) < rotations <= old(rotations) + 2
    {
      var s := sibling;
      ghost var k' := k;
      if leftBlack {
        InnerRed(k, t);
        ghost var u := CaseThreeRight(xParent, s, k, t);
        k' := k.(left := u);
        Look(k', t);
        s := xParent.left;
      }
      OuterRed(k', t);
      CaseFourRight(xParent, s, k', t);
    }

    /** One round of `rb_delete_fixup` when the short subtree is a right child. */
    method DeleteFixRight(x: Node?, xParent: Node, ghost k: Path, ghost t: Tree)
      returns (x': Node?, xParent': Node?, ghost k': Path, ghost t': Tree)
      requires Valid() && shape == Plug(k, t) && Short(k, t) && !IsRed(t)
      requires k.InRight? && k.node == xParent && x == Root(t)
      modifies this, links.Keys
      ensures Valid() && links.Keys == old(links.Keys) && Inorder(shape) == old(Inorder(shape))
      ensures shape == Plug(k', t') && Short(k', t') && x' == Root(t') && (!k'.Top? ==> xParent' == Above(k'))
      ensures old(rotations) <= rotations <= old(rotations) + 3
      ensures rotations > old(rotations) ==> k'.Top? || IsRed(t')
      ensures k'.Top? || IsRed(t') || Depth(k') < Depth(k)
    {
      xParent' := xParent;
      var sibling;
      sibling, k' := SiblingRight(xParent, k, t);
      ghost var o, s := InLeft(k'.up, xParent, k'.color, t), k'.left;
      Look(o, s);
      var rightBlack := IsBlack(sibling.right, InRight(o, s.left, sibling, s.color), s.right);
      var leftBlack := IsBlack(sibling.left, InLeft(o, sibling, s.color, s.right), s.left);
      if rightBlack && leftBlack {
        BlackSibling(k', t);
        Paint(sibling, Red, o, s);
        k', t' := k'.up, Bin(s.(color := Red), xParent, k'.color, t);
        x' := xParent;
        Look(k', t');
        xParent' := x'.parent;
      } else {
        FinishRight(xParent, sibling, leftBlack, k', t);
        x', k', t' := root, Top, shape;
      }
    }

    /** `x` is the root of a subtree one black node short; at most three rotations repair that. */
    method DeleteFixup(start: Node?, startParent: Node?, ghost k0: Path, ghost t0: Tree)
      requires Valid() && shape == Plug(k0, t0) && Short(k0, t0)
      requires start == Root(t0) && (!k0.Top? ==> startParent == Above(k0))
      modifies this, links.Keys
      ensures Valid() && RedBlack(shape) && rotations <= old(rotations) + 3
      ensures links.Keys == old(links.Keys) && Inorder(shape) == old(Inorder(shape))
    {
      var x, xParent := start, startParent;
      ghost var k, t := k0, t0;
      Look(k, t);
      while x != root && (x == null || x.color.Black?)
        invariant Valid() && shape == Plug(k, t) && Short(k, t)
        invariant x == Root(t) && (!k.Top? ==> xParent == Above(k))
        invariant links.Keys == old(links.Keys) && Inorder(shape) == old(Inorder(shape))
        invariant (k.Top? <==> x == root) && (t.Bin? ==> x.color == t.color)
        invariant old(rotations) <= rotations <= old(rotations) + 3
        invariant rotations > old(rotations) ==> k.Top? || IsRed(t)
        decreases if k.Top? || IsRed(t) then 0 else Depth(k) + 1
      {
        SiblingExists(k, t);
        Look(k, t);
        if x == xParent.left {
          x, xParent, k, t := DeleteFixLeft(x, xParent, k, t);
        } else {
          x, xParent, k, t := DeleteFixRight(x, xParent, k, t);
        }
        Look(k, t);
      }
      ShortEnds(k, t);
      if x != null {
        Paint(x, Black, k, t);
      }
    }

    /** The unlinking half of `rb_delete`: how the shape and the caller's variables change. */
    method Unlink(node: Node, ghost k: Path, ghost t: Tree)
      returns (x: Node?, xParent: Node?, color: Color, ghost k': Path, ghost t': Tree)
      requires Valid() && RedBlack(shape) && Sorted(Inorder(shape))
      requires shape == Plug(k, t) && t.Bin? && t.node == node
      modifies this, links.Keys
      ensures Valid() && links.Keys == old(links.Keys) - {node}
      ensures shape == Plug(k', t') && x == Root(t') && (!k'.Top? ==> xParent == Above(k'))
      ensures RemovedFrom(old(Inorder(shape)), node, Inorder(shape)) && Sorted(Inorder(shape))
      ensures if color.Black? then Short(k', t') else RedBlack(shape)
      ensures rotations == old(rotations)
    {
      Look(k, t);
      color := node.color;
      k' := k;
      if node.left == null {
        t' := t.right;
        SplicedOrder(k, t, t');
        SplicedBalance(k, t, t');
        x, xParent := node.right, node.parent;
        Splice(node, node.right, k, t, t');
      } else if node.right == null {
        t' := t.left;
        SplicedOrder(k, t, t');
        SplicedBalance(k, t, t');
        x, xParent := node.left, node.parent;
        Splice(node, node.left, k, t, t');
      } else {
        ghost var m, u;
        var y;
        y, m, u := Minimum(node.right, InRight(k, t.left, node, t.color), t.right);
        LookBelow(InRight(k, t.left, node, t.color), m, u);
        color := y.color;
        SucceededOrder(k, t.left, node, t.color, m, y, u.color, u.right);
        SucceededBalance(k, t.left, node, t.color, m, y, u.color, u.right);
        x, xParent := Succeed(node, y, k, t, m, u);
        k', t' := Below(m, InRight(k, t.left, y, t.color)), u.right;
        PlugBelow(m, InRight(k, t.left, y, t.color), t');
      }
    }

    method Delete(key: Node) returns (removed: bool, ghost node: Node)
      requires Valid() && RedBlack(shape) && Sorted(Inorder(shape))
      modifies this, links.Keys
      ensures Valid() && RedBlack(shape) && Sorted(Inorder(shape))
      ensures removed <==> exists n :: n in old(Inorder(shape)) && n.vmaStart == key.vmaStart
      ensures !removed ==> shape == old(shape) && links == old(links)
      ensures removed ==> node.vmaStart == key.vmaStart && links.Keys == old(links.Keys) - {node}
      ensures removed ==> RemovedFrom(old(Inorder(shape)), node, Inorder(shape))
      ensures rotations <= old(rotations) + 3
    {
      ghost var k, t;
      var found;
      found, k, t := FindExact(key);
      if found == null {
        return false, key;
      }
      node := found;
      InorderPlug(k, t);
      assert found in Inorder(t);
      var x, xParent, color;
      x, xParent, color, k, t := Unlink(found, k, t);
      if color.Black? {
        DeleteFixup(x, xParent, k, t);
      }
      removed := true;
    }
  }
}
