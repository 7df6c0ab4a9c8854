/** The link fields of all nodes of a tree as one finite map, and what it means for such a map to
    realise a shape.  Every lemma here is about one field update at a time. */
module RbLinks {
  import opened RbShape

  datatype Cell = Cell(left: Node?, right: Node?, parent: Node?, color: Color)

  type Links = map<Node, Cell>

  ghost function Root(t: Tree): Node? { if t.Leaf? then null else t.node }

  ghost function Above(k: Path): Node? { if k.Top? then null else k.node }

  /** `h` realises `t` below `parent`: child links, parent link and colour of every node. */
  ghost predicate Linked(h: Links, t: Tree, parent: Node?)
  {
    match t
    case Leaf => true
    case Bin(l, n, c, r) =>
      n in h && h[n] == Cell(Root(l), Root(r), parent, c) && Linked(h, l, n) && Linked(h, r, n)
  }

  ghost predicate PathLinked(h: Links, k: Path, hole: Node?)
  {
    match k
    case Top => true
    case InLeft(up, n, c, r) =>
      n in h && h[n] == Cell(hole, Root(r), Above(up), c) && Linked(h, r, n) && PathLinked(h, up, n)
    case InRight(up, l, n, c) =>
      n in h && h[n] == Cell(Root(l), hole, Above(up), c) && Linked(h, l, n) && PathLinked(h, up, n)
  }

  ghost function PathRoot(k: Path, hole: Node?): Node?
  {
    if k.Top? then hole else PathRoot(k.up, k.node)
  }

  lemma {:induction false} LinkedPlug(h: Links, k: Path, t: Tree)
    ensures Linked(h, Plug(k, t), null) <==> PathLinked(h, k, Root(t)) && Linked(h, t, Above(k))
    ensures Root(Plug(k, t)) == PathRoot(k, Root(t))
    decreases k
  {
    match k
    case Top =>
    case InLeft(up, n, c, r) => LinkedPlug(h, up, Bin(t, n, c, r));
    case InRight(up, l, n, c) => LinkedPlug(h, up, Bin(l, n, c, t));
  }

  lemma {:induction false} PathRootInPath(k: Path, hole: Node?, other: Node?)
    requires !k.Top?
    ensures PathRoot(k, hole) != null && PathRoot(k, hole) in PathNodes(k)
    ensures PathRoot(k, hole) == PathRoot(k, other)
  {
    if !k.up.Top? { PathRootInPath(k.up, k.node, k.node); }
  }

  lemma {:induction false} LinkedFrame(h: Links, t: Tree, p: Node?, n: Node, c: Cell)
    requires n !in Nodes(t)
    ensures Linked(h[n := c], t, p) <==> Linked(h, t, p)
    decreases t
  {
    if t.Bin? {
      LinkedFrame(h, t.left, t.node, n, c);
      LinkedFrame(h, t.right, t.node, n, c);
    }
  }

  lemma {:induction false} PathFrame(h: Links, k: Path, hole: Node?, n: Node, c: Cell)
    requires n !in PathNodes(k)
    ensures PathLinked(h[n := c], k, hole) <==> PathLinked(h, k, hole)
    decreases k
  {
    if !k.Top? {
      PathFrame(h, k.up, k.node, n, c);
      LinkedFrame(h, if k.InLeft? then k.right else k.left, k.node, n, c);
    }
  }

  lemma {:induction false} LinkedDrop(h: Links, t: Tree, p: Node?, n: Node)
    requires n !in Nodes(t)
    ensures Linked(h - {n}, t, p) <==> Linked(h, t, p)
    decreases t
  {
    if t.Bin? {
      LinkedDrop(h, t.left, t.node, n);
      LinkedDrop(h, t.right, t.node, n);
    }
  }

  lemma {:induction false} PathDrop(h: Links, k: Path, hole: Node?, n: Node)
    requires n !in PathNodes(k)
    ensures PathLinked(h - {n}, k, hole) <==> PathLinked(h, k, hole)
    decreases k
  {
    if !k.Top? {
      PathDrop(h, k.up, k.node, n);
      LinkedDrop(h, if k.InLeft? then k.right else k.left, k.node, n);
    }
  }

  lemma {:induction false} LinkedKeys(h: Links, t: Tree, p: Node?)
    requires Linked(h, t, p)
    ensures Nodes(t) <= h.Keys
  {
    if t.Bin? {
      LinkedKeys(h, t.left, t.node);
      LinkedKeys(h, t.right, t.node);
    }
  }

  lemma {:induction false} PathKeys(h: Links, k: Path, hole: Node?)
    requires PathLinked(h, k, hole)
    ensures PathNodes(k) <= h.Keys
  {
    if !k.Top? {
      PathKeys(h, k.up, k.node);
      LinkedKeys(h, if k.InLeft? then k.right else k.left, k.node);
    }
  }

  /** Moving a subtree below another parent. */
  lemma {:induction false} LinkedReparent(h: Links, t: Tree, p: Node?, q: Node?)
    requires t.Bin? && Distinct(t) && Linked(h, t, p)
    ensures Linked(h[t.node := h[t.node].(parent := q)], t, q)
  {
    var c := h[t.node].(parent := q);
    LinkedFrame(h, t.left, t.node, t.node, c);
    LinkedFrame(h, t.right, t.node, t.node, c);
  }

  /** The parent's link to `node`, redirected to `repl`. */
  ghost function RelinkLinks(h: Links, node: Node, repl: Node?): Links
    requires node in h && (h[node].parent != null ==> h[node].parent in h)
  {
    var p := h[node].parent;
    if p == null then h
    else if h[p].left == node then h[p := h[p].(left := repl)]
    else h[p := h[p].(right := repl)]
  }

  /** Hanging something else into the hole of a path. */
  lemma {:induction false} PathRelink(h: Links, k: Path, node: Node, repl: Node?)
    requires PathDistinct(k) && PathLinked(h, k, node)
    requires node !in PathNodes(k) && node in h && h[node].parent == Above(k)
    ensures PathLinked(RelinkLinks(h, node, repl), k, repl)
  {
    if !k.Top? {
      var side := if k.InLeft? then k.right else k.left;
      assert Root(side) != node;
      var c := RelinkLinks(h, node, repl)[k.node];
      PathFrame(h, k.up, k.node, k.node, c);
      LinkedFrame(h, side, k.node, k.node, c);
    }
  }

  // ----- Rotations on links

  /** Everything around two adjacent nodes `x` and `y` is pairwise disjoint. */
  ghost predicate Apart(k: Path, a: Tree, x: Node, b: Tree, y: Node, c: Tree)
  {
    && PathDistinct(k) && Distinct(a) && Distinct(b) && Distinct(c)
    && x != y && x !in PathNodes(k) && y !in PathNodes(k)
    && x !in Nodes(a) && x !in Nodes(b) && x !in Nodes(c)
    && y !in Nodes(a) && y !in Nodes(b) && y !in Nodes(c)
    && PathNodes(k) !! Nodes(a) && PathNodes(k) !! Nodes(b) && PathNodes(k) !! Nodes(c)
    && Nodes(a) !! Nodes(b) && Nodes(a) !! Nodes(c) && Nodes(b) !! Nodes(c)
  }

  lemma {:induction false} ApartRight(k: Path, a: Tree, x: Node, cx: Color, b: Tree, y: Node, cy: Color, c: Tree)
    ensures var t := Bin(a, x, cx, Bin(b, y, cy, c));
            PathDistinct(k) && Distinct(t) && PathNodes(k) !! Nodes(t) <==> Apart(k, a, x, b, y, c)
  {
    var r := Bin(b, y, cy, c);
    assert Nodes(r) == Nodes(b) + {y} + Nodes(c);
    assert Distinct(r) <==>
           Distinct(b) && Distinct(c) && y !in Nodes(b) && y !in Nodes(c) && Nodes(b) !! Nodes(c);
  }

  lemma {:induction false} ApartLeft(k: Path, a: Tree, x: Node, cx: Color, b: Tree, y: Node, cy: Color, c: Tree)
    ensures var t := Bin(Bin(a, x, cx, b), y, cy, c);
            PathDistinct(k) && Distinct(t) && PathNodes(k) !! Nodes(t) <==> Apart(k, a, x, b, y, c)
  {
    var l := Bin(a, x, cx, b);
    assert Nodes(l) == Nodes(a) + {x} + Nodes(b);
    assert Distinct(l) <==>
           Distinct(a) && Distinct(b) && x !in Nodes(a) && x !in Nodes(b) && Nodes(a) !! Nodes(b);
  }

  lemma {:induction false} RotationNodes(t: Tree)
    requires t.Bin? && t.right.Bin?
    ensures Nodes(RotatedLeft(t)) == Nodes(t)
  {
    var s := t.right;
    assert Nodes(s) == Nodes(s.left) + {s.node} + Nodes(s.right);
    assert Nodes(RotatedLeft(t).left) == Nodes(t.left) + {t.node} + Nodes(s.left);
  }

  lemma {:induction false} RotationOrder(t: Tree)
    requires t.Bin? && t.right.Bin?
    ensures Inorder(RotatedLeft(t)) == Inorder(t)
  {
    var s := t.right;
    assert Inorder(s) == Inorder(s.left) + [s.node] + Inorder(s.right);
    assert Inorder(RotatedLeft(t).left) == Inorder(t.left) + [t.node] + Inorder(s.left);
  }

  lemma {:induction false} RotationContents(k: Path, t: Tree)
    requires t.Bin? && t.right.Bin?
    ensures Nodes(RotatedLeft(t)) == Nodes(t)
    ensures Inorder(Plug(k, RotatedLeft(t))) == Inorder(Plug(k, t))
  {
    hide Nodes, Inorder, RotatedLeft;
    RotationNodes(t);
    RotationOrder(t);
    InorderPlug(k, t);
    InorderPlug(k, RotatedLeft(t));
  }

  /** The path and the three subtrees a rotation moves about, each below its current parent. */
  datatype Parts = Parts(k: Path, hole: Node?, a: Tree, p: Node?, b: Tree, q: Node?, c: Tree, r: Node?)
  {
    ghost predicate In(h: Links)
    {
      PathLinked(h, k, hole) && Linked(h, a, p) && Linked(h, b, q) && Linked(h, c, r)
    }

    lemma {:induction false} Frame(h: Links, n: Node, cell: Cell)
      requires n !in PathNodes(k) && n !in Nodes(a) && n !in Nodes(b) && n !in Nodes(c) && In(h)
      ensures In(h[n := cell])
    {
      PathFrame(h, k, hole, n, cell);
      LinkedFrame(h, a, p, n, cell);
      LinkedFrame(h, b, q, n, cell);
      LinkedFrame(h, c, r, n, cell);
    }

    lemma {:induction false} MoveMiddle(h: Links, q': Node?)
      requires b.Bin? && Distinct(b) && In(h)
      requires PathNodes(k) !! Nodes(b) && Nodes(a) !! Nodes(b) && Nodes(b) !! Nodes(c)
      ensures this.(q := q').In(h[b.node := h[b.node].(parent := q')])
    {
      LinkedReparent(h, b, q, q');
      this.(b := Leaf).Frame(h, b.node, h[b.node].(parent := q'));
    }

    lemma {:induction false} MovePath(h: Links, node: Node, repl: Node?)
      requires PathDistinct(k) && hole == node && node in h && h[node].parent == Above(k) && In(h)
      requires node !in PathNodes(k)
      requires PathNodes(k) !! Nodes(a) && PathNodes(k) !! Nodes(b) && PathNodes(k) !! Nodes(c)
      ensures this.(hole := repl).In(RelinkLinks(h, node, repl))
    {
      PathRelink(h, k, node, repl);
      if !k.Top? {
        this.(k := Top).Frame(h, k.node, RelinkLinks(h, node, repl)[k.node]);
      }
    }
  }

  /** Every node that rotating `x` down to the left touches exists, and they are different. */
  ghost predicate CanRotateLeft(h: Links, x: Node)
  {
    && x in h && h[x].right != null && h[x].right in h
    && var y := h[x].right;
    && x != y
    && (h[y].left != null ==> h[y].left in h && h[y].left != x && h[y].left != y)
    && (h[x].parent != null ==>
          h[x].parent in h && h[x].parent != x && h[x].parent != y && h[x].parent != h[y].left)
  }

  ghost function RotateLeftLinks(h: Links, x: Node): Links
    requires CanRotateLeft(h, x)
  {
    var y := h[x].right;
    var b := h[y].left;
    var h1 := h[x := h[x].(right := b)];
    var h2 := if b == null then h1 else h1[b := h1[b].(parent := x)];
    var h3 := h2[y := h2[y].(parent := h2[x].parent)];
    var h4 := RelinkLinks(h3, x, y);
    var h5 := h4[y := h4[y].(left := x)];
    h5[x := h5[x].(parent := y)]
  }

  lemma {:induction false} RotateLeftParts(h: Links, k: Path, a: Tree, x: Node, b: Tree, y: Node, c: Tree)
    requires Apart(k, a, x, b, y, c) && CanRotateLeft(h, x)
    requires h[x].right == y && h[x].parent == Above(k) && h[y].left == Root(b)
    requires Parts(k, x, a, x, b, y, c, y).In(h)
    ensures Parts(k, y, a, x, b, x, c, y).In(RotateLeftLinks(h, x))
  {
    var s := Parts(k, x, a, x, b, y, c, y);
    var h1 := h[x := h[x].(right := Root(b))];
    s.Frame(h, x, h1[x]);
    var h2 := if b.Leaf? then h1 else h1[b.node := h1[b.node].(parent := x)];
    if b.Bin? { s.MoveMiddle(h1, x); }
    s := s.(q := x);
    var h3 := h2[y := h2[y].(parent := h2[x].parent)];
    s.Frame(h2, y, h3[y]);
    var h4 := RelinkLinks(h3, x, y);
    s.MovePath(h3, x, y);
    s := s.(hole := y);
    var h5 := h4[y := h4[y].(left := x)];
    s.Frame(h4, y, h5[y]);
    s.Frame(h5, x, h5[x].(parent := y));
  }

  /** The mirror image: rotating `y` down to the right. */
  ghost predicate CanRotateRight(h: Links, y: Node)
  {
    && y in h && h[y].left != null && h[y].left in h
    && var x := h[y].left;
    && x != y
    && (h[x].right != null ==> h[x].right in h && h[x].right != x && h[x].right != y)
    && (h[y].parent != null ==>
          h[y].parent in h && h[y].parent != x && h[y].parent != y && h[y].parent != h[x].right &&
          (h[h[y].parent].left == y <==> h[h[y].parent].right != y))
  }

  ghost function RotateRightLinks(h: Links, y: Node): Links
    requires CanRotateRight(h, y)
  {
    var x := h[y].left;
    var b := h[x].right;
    var h1 := h[y := h[y].(left := b)];
    var h2 := if b == null then h1 else h1[b := h1[b].(parent := y)];
    var h3 := h2[x := h2[x].(parent := h2[y].parent)];
    var h4 := RelinkLinks(h3, y, x);
    var h5 := h4[x := h4[x].(right := y)];
    h5[y := h5[y].(parent := x)]
  }

  lemma {:induction false} RotateRightParts(h: Links, k: Path, a: Tree, x: Node, b: Tree, y: Node, c: Tree)
    requires Apart(k, a, x, b, y, c) && CanRotateRight(h, y)
    requires h[y].left == x && h[y].parent == Above(k) && h[x].right == Root(b)
    requires Parts(k, y, a, x, b, x, c, y).In(h)
    ensures Parts(k, x, a, x, b, y, c, y).In(RotateRightLinks(h, y))
  {
    var s := Parts(k, y, a, x, b, x, c, y);
    var h1 := h[y := h[y].(left := Root(b))];
    s.Frame(h, y, h1[y]);
    var h2 := if b.Leaf? then h1 else h1[b.node := h1[b.node].(parent := y)];
    if b.Bin? { s.MoveMiddle(h1, y); }
    s := s.(q := y);
    var h3 := h2[x := h2[x].(parent := h2[y].parent)];
    s.Frame(h2, x, h3[x]);
    var h4 := RelinkLinks(h3, y, x);
    s.MovePath(h3, y, x);
    s := s.(hole := x);
    var h5 := h4[x := h4[x].(right := y)];
    s.Frame(h4, x, h5[x]);
    s.Frame(h5, y, h5[y].(parent := x));
  }

  /** A tree in its place: linked, and free of repetitions. */
  ghost predicate Placed(h: Links, k: Path, t: Tree)
  {
    && PathLinked(h, k, Root(t)) && Linked(h, t, Above(k))
    && PathDistinct(k) && Distinct(t) && PathNodes(k) !! Nodes(t)
  }

  lemma {:induction false} RotateLeftShape(h: Links, k: Path, t: Tree)
    requires t.Bin? && t.right.Bin? && Placed(h, k, t)
    ensures CanRotateLeft(h, t.node)
    ensures Placed(RotateLeftLinks(h, t.node), k, RotatedLeft(t))
    ensures RotateLeftLinks(h, t.node).Keys == h.Keys
  {
    var x, s := t.node, t.right;
    var a, b, y, c := t.left, s.left, s.node, s.right;
    ApartRight(k, a, x, t.color, b, y, s.color, c);
    ApartLeft(k, a, x, t.color, b, y, s.color, c);
    assert Linked(h, s, x);
    LinkedKeys(h, t, Above(k));
    PathKeys(h, k, Root(t));
    assert b.Bin? ==> b.node in Nodes(b);
    assert !k.Top? ==> k.node in PathNodes(k);
    RotateLeftParts(h, k, a, x, b, y, c);
    var g := RotateLeftLinks(h, x);
    assert Linked(g, RotatedLeft(t).left, y);
  }

  lemma {:induction false} RotateRightShape(h: Links, k: Path, t: Tree)
    requires t.Bin? && t.left.Bin? && Placed(h, k, t)
    ensures CanRotateRight(h, t.node)
    ensures Placed(RotateRightLinks(h, t.node), k, RotatedRight(t))
    ensures RotateRightLinks(h, t.node).Keys == h.Keys
  {
    var y, s := t.node, t.left;
    var a, x, b, c := s.left, s.node, s.right, t.right;
    ApartLeft(k, a, x, s.color, b, y, t.color, c);
    ApartRight(k, a, x, s.color, b, y, t.color, c);
    assert Linked(h, s, y);
    LinkedKeys(h, t, Above(k));
    PathKeys(h, k, Root(t));
    assert b.Bin? ==> b.node in Nodes(b);
    assert !k.Top? ==> k.node in PathNodes(k);
    assert k.InLeft? ==> Root(k.right) != y;
    assert k.InRight? ==> Root(k.left) != y;
    RotateRightParts(h, k, a, x, b, y, c);
    var g := RotateRightLinks(h, y);
    assert Linked(g, RotatedRight(t).right, x);
  }

  // ----- Other single steps

  lemma {:induction false} PaintShape(h: Links, k: Path, t: Tree, c: Color)
    requires t.Bin? && Placed(h, k, t)
    ensures t.node in h && Placed(h[t.node := h[t.node].(color := c)], k, t.(color := c))
  {
    var cell := h[t.node].(color := c);
    LinkedFrame(h, t.left, t.node, t.node, cell);
    LinkedFrame(h, t.right, t.node, t.node, cell);
    PathFrame(h, k, t.node, t.node, cell);
  }

  ghost function HangBelow(h: Links, p: Node, left: bool, n: Node): Links
    requires p in h
  {
    h[p := if left then h[p].(left := n) else h[p].(right := n)][n := Cell(null, null, p, Red)]
  }

  /** A new node goes into an empty hole. */
  lemma {:induction false} HangShape(h: Links, k: Path, n: Node)
    requires !k.Top? && Placed(h, k, Leaf) && n !in PathNodes(k)
    ensures k.node in h
    ensures Placed(HangBelow(h, k.node, k.InLeft?, n), k, Bin(Leaf, n, Red, Leaf))
    ensures HangBelow(h, k.node, k.InLeft?, n).Keys == h.Keys + {n}
  {
    PathKeys(h, k, null);
    assert k.node in PathNodes(k);
    var c := if k.InLeft? then h[k.node].(left := n) else h[k.node].(right := n);
    PathFrame(h, k.up, k.node, k.node, c);
    LinkedFrame(h, if k.InLeft? then k.right else k.left, k.node, k.node, c);
    PathFrame(h[k.node := c], k, n, n, Cell(null, null, k.node, Red));
  }

  // ----- Deletion on links

  lemma {:induction false} PlacedPlug(h: Links, k: Path, t: Tree)
    ensures Placed(h, k, t) <==> Linked(h, Plug(k, t), null) && Distinct(Plug(k, t))
  {
    LinkedPlug(h, k, t);
    DistinctPlug(k, t);
  }

  /** `rb_transplant`. */
  ghost function TransplantLinks(h: Links, node: Node, repl: Node?): Links
    requires node in h && (h[node].parent != null ==> h[node].parent in h) && (repl != null ==> repl in h)
  {
    var g := RelinkLinks(h, node, repl);
    if repl == null then g else g[repl := g[repl].(parent := g[node].parent)]
  }

  /** A subtree of `t` takes the place of `t`. */
  lemma {:induction false} TransplantShape(h: Links, k: Path, t: Tree, r: Tree)
    requires t.Bin? && Placed(h, k, t) && (r == t.left || r == t.right)
    ensures t.node in h && h[t.node].parent == Above(k)
    ensures !k.Top? ==> k.node in h
    ensures r.Bin? ==> r.node in h && r.node in Nodes(t)
    ensures Placed(TransplantLinks(h, t.node, Root(r)), k, r)
    ensures TransplantLinks(h, t.node, Root(r)).Keys == h.Keys
    ensures TransplantLinks(h, t.node, Root(r))[t.node] == h[t.node]
  {
    var n := t.node;
    LinkedKeys(h, t, Above(k));
    PathKeys(h, k, n);
    assert !k.Top? ==> k.node in PathNodes(k);
    assert r.Bin? ==> r.node in Nodes(r);
    var s := Parts(k, n, Leaf, null, r, n, Leaf, null);
    s.MovePath(h, n, Root(r));
    if r.Bin? {
      var g := RelinkLinks(h, n, Root(r));
      s.(hole := Root(r)).MoveMiddle(g, Above(k));
    }
  }

  lemma {:induction false} PlacedDrop(h: Links, k: Path, t: Tree, n: Node)
    requires Placed(h, k, t) && n !in PathNodes(k) && n !in Nodes(t)
    ensures Placed(h - {n}, k, t)
  {
    PathDrop(h, k, Root(t), n);
    LinkedDrop(h, t, Above(k), n);
  }

  /** The tail of `rb_delete`: `y` takes over the left subtree, the colour and the place of `z`. */
  ghost predicate CanTakePlace(h: Links, z: Node, y: Node)
  {
    && z in h && y in h && z != y && h[z].left != null && h[z].left in h && h[z].left != z && h[z].left != y
    && (h[z].parent != null ==>
          h[z].parent in h && h[z].parent != z && h[z].parent != y && h[z].parent != h[z].left)
  }

  ghost function TakePlaceLinks(h: Links, z: Node, y: Node): Links
    requires CanTakePlace(h, z, y)
  {
    var h1 := TransplantLinks(h, z, y);
    var h2 := h1[y := h1[y].(left := h1[z].left)];
    var h3 := h2[h2[y].left := h2[h2[y].left].(parent := y)];
    h3[y := h3[y].(color := h3[z].color)]
  }

  lemma {:induction false} TakePlaceShape(h: Links, k: Path, l: Tree, z: Node, c: Color, y: Node, r: Tree)
    requires Apart(k, l, z, r, y, Leaf) && l.Bin? && CanTakePlace(h, z, y)
    requires Parts(k, z, r, y, l, z, Leaf, null).In(h)
    requires h[z].left == Root(l) && h[z].parent == Above(k) && h[z].color == c && h[y].right == Root(r)
    ensures Placed(TakePlaceLinks(h, z, y), k, Bin(l, y, c, r))
    ensures TakePlaceLinks(h, z, y).Keys == h.Keys
  {
    var s := Parts(k, z, r, y, l, z, Leaf, null);
    s.MovePath(h, z, y);
    s := s.(hole := y);
    var g := RelinkLinks(h, z, y);
    var h1 := TransplantLinks(h, z, y);
    s.Frame(g, y, h1[y]);
    var h2 := h1[y := h1[y].(left := h1[z].left)];
    s.Frame(h1, y, h2[y]);
    s.MoveMiddle(h2, y);
    s := s.(q := y);
    var h3 := h2[l.node := h2[l.node].(parent := y)];
    s.Frame(h3, y, h3[y].(color := c));
  }

  /** `y` leaves its place deep in the right subtree of `z` and takes that subtree over. */
  ghost predicate CanDetach(h: Links, z: Node, y: Node)
  {
    && z in h && y in h && z != y && h[y].parent != null && h[y].parent in h && h[y].parent != y && h[y].parent != z
    && (h[y].right != null ==> h[y].right in h && h[y].right != y && h[y].right != z)
    && h[z].right != null && h[z].right in h && h[z].right != y && h[z].right != z
  }

  ghost function DetachLinks(h: Links, z: Node, y: Node): Links
    requires CanDetach(h, z, y)
  {
    var g := TransplantLinks(h, y, h[y].right);
    var g1 := g[y := g[y].(right := g[z].right)];
    g1[g1[y].right := g1[g1[y].right].(parent := y)]
  }

  /** What the second half of the replacement starts from. */
  ghost predicate Detached(h: Links, k: Path, l: Tree, z: Node, c: Color, y: Node, r: Tree)
  {
    && Apart(k, l, z, r, y, Leaf) && l.Bin? && CanTakePlace(h, z, y)
    && Parts(k, z, r, y, l, z, Leaf, null).In(h)
    && h[z].left == Root(l) && h[z].parent == Above(k) && h[z].color == c && h[y].right == Root(r)
  }

  /** When `y` is the right child of `z` nothing has to be detached. */
  lemma {:induction false} DetachedChild(h: Links, k: Path, l: Tree, z: Node, c: Color, y: Node, cy: Color, s: Tree)
    requires l.Bin? && Placed(h, k, Bin(l, z, c, Bin(Leaf, y, cy, s)))
    ensures Detached(h, k, l, z, c, y, s) && h[y].parent == z
  {
    var t, u := Bin(l, z, c, Bin(Leaf, y, cy, s)), Bin(Leaf, y, cy, s);
    assert Linked(h, u, z) && Distinct(u) && Nodes(u) == {y} + Nodes(s);
    LinkedKeys(h, t, Above(k));
    PathKeys(h, k, z);
    assert !k.Top? ==> k.node in PathNodes(k);
    assert l.node in Nodes(l);
  }

  lemma {:induction false} DetachedDeep(h: Links, k: Path, l: Tree, z: Node, c: Color, m: Path, y: Node, cy: Color,
                                        s: Tree)
    requires !m.Top? && l.Bin? && Placed(h, k, Bin(l, z, c, Plug(m, Bin(Leaf, y, cy, s))))
    ensures CanDetach(h, z, y) && h[y].parent == m.node
    ensures var g := DetachLinks(h, z, y);
            Detached(g, k, l, z, c, y, Plug(m, s)) && g.Keys == h.Keys && g[y].parent == m.node
  {
    var t, r := Bin(Leaf, y, cy, s), Plug(m, s);
    DetachedTransplant(h, k, l, z, c, m, y, cy, s);
    PlacedPlug(h, k, Bin(l, z, c, Plug(m, t)));
    DetachedNodes(k, l, z, c, m, y, cy, s);
    LinkedPlug(h, m, t);
    LinkedPlug(h, m, s);
    PathRootInPath(m, y, Root(s));
    LinkedKeys(h, Bin(l, z, c, Plug(m, t)), Above(k));
    PathRootAway(m, y, cy, s);
    var g := TransplantLinks(h, y, Root(s));
    DetachedReparent(g, k, l, z, c, y, r);
  }

  /** The root of the right subtree survives the departure of its minimum. */
  lemma {:induction false} PathRootAway(m: Path, y: Node, cy: Color, s: Tree)
    requires !m.Top?
    ensures Root(Plug(m, Bin(Leaf, y, cy, s))) == Root(Plug(m, s)) && Plug(m, s).Bin?
    ensures m.node in Nodes(Plug(m, s)) && Root(Plug(m, s)) in Nodes(Plug(m, s))
    ensures s.Bin? ==> s.node in Nodes(Plug(m, s))
  {
    LinkedPlug(map[], m, Bin(Leaf, y, cy, s));
    LinkedPlug(map[], m, s);
    PathRootInPath(m, y, Root(s));
    NodesPlug(m, s);
  }

  lemma {:induction false} DetachedTransplant(h: Links, k: Path, l: Tree, z: Node, c: Color, m: Path, y: Node,
                                              cy: Color, s: Tree)
    requires !m.Top? && l.Bin? && Placed(h, k, Bin(l, z, c, Plug(m, Bin(Leaf, y, cy, s))))
    ensures y in h && h[y] == Cell(null, Root(s), m.node, cy) && m.node in h && (s.Bin? ==> s.node in h)
    ensures var g := TransplantLinks(h, y, Root(s));
            Placed(g, k, Bin(l, z, c, Plug(m, s))) && g.Keys == h.Keys && g[y] == h[y]
  {
    var o := InRight(k, l, z, c);
    var kk, t := Below(m, o), Bin(Leaf, y, cy, s);
    PlugBelow(m, o, t);
    PlugBelow(m, o, s);
    PlacedPlug(h, k, Bin(l, z, c, Plug(m, t)));
    PlacedPlug(h, kk, t);
    TransplantShape(h, kk, t, s);
    var g := TransplantLinks(h, y, Root(s));
    PlacedPlug(g, kk, s);
    PlacedPlug(g, k, Bin(l, z, c, Plug(m, s)));
  }

  lemma {:induction false} DetachedReparent(g: Links, k: Path, l: Tree, z: Node, c: Color, y: Node, r: Tree)
    requires Placed(g, k, Bin(l, z, c, r)) && Apart(k, l, z, r, y, Leaf) && y in g && l.Bin? && r.Bin?
    ensures z in g && g[z].right == r.node && r.node in g
    ensures var g1 := g[y := g[y].(right := r.node)];
            var g2 := g1[r.node := g1[r.node].(parent := y)];
            Detached(g2, k, l, z, c, y, r) && g2[y].parent == g[y].parent
  {
    LinkedKeys(g, Bin(l, z, c, r), Above(k));
    PathKeys(g, k, z);
    assert !k.Top? ==> k.node in PathNodes(k);
    assert l.node in Nodes(l) && r.node in Nodes(r);
    var s := Parts(k, z, l, z, r, z, Leaf, null);
    var g1 := g[y := g[y].(right := r.node)];
    s.Frame(g, y, g1[y]);
    s.MoveMiddle(g1, y);
  }

  lemma {:induction false} DetachedNodes(k: Path, l: Tree, z: Node, c: Color, m: Path, y: Node, cy: Color, s: Tree)
    requires !m.Top? && l.Bin?
    requires Distinct(Plug(k, Bin(l, z, c, Plug(m, Bin(Leaf, y, cy, s)))))
    ensures Apart(k, l, z, Plug(m, s), y, Leaf)
    ensures m.node in Nodes(Plug(m, s))
  {
    var t := Bin(Leaf, y, cy, s);
    DistinctPlug(k, Bin(l, z, c, Plug(m, t)));
    DistinctPlug(m, t);
    DistinctPlug(m, s);
    NodesPlug(m, t);
    NodesPlug(m, s);
  }
}
