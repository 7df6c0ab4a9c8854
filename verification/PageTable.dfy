/** Four-level page tables in physical memory: the hardware walk, when tables form a tree, and the
    three elementary changes everything in mmu.c is made of. */
module PageTable {
  import opened Pte

  /** The frames that hold tables. */
  type Mem = map<nat, seq<nat>>

  /** What a walk for one virtual page ends in; the entry is the raw leaf entry. */
  datatype Leaf = Unmapped | Small(entry: nat) | Huge(entry: nat) | Giant(entry: nat)

  function Entry(mem: Mem, f: nat, i: nat): nat
  {
    if f in mem && i < |mem[f]| then mem[f][i] else 0
  }

  /** The walk of section 4.5 of the Intel SDM, volume 3A, for virtual page number `v`. */
  function Lookup(mem: Mem, root: nat, v: nat): Leaf
    requires v < PAGES
  {
    var e4 := Entry(mem, root, I4(v));
    if !Present(e4) then Unmapped else
    var e3 := Entry(mem, Addr(e4), I3(v));
    if !Present(e3) then Unmapped else
    if IsHuge(e3) then Giant(e3) else
    var e2 := Entry(mem, Addr(e3), I2(v));
    if !Present(e2) then Unmapped else
    if IsHuge(e2) then Huge(e2) else
    SmallOf(Entry(mem, Addr(e2), I1(v)))
  }

  function SmallOf(e: nat): Leaf { if Present(e) then Small(e) else Unmapped }

  function HugeOf(e: nat): Leaf { if Present(e) then Huge(e) else Unmapped }

  // ----- Tables as a tree

  /** The position of a table: the indices that lead to it from the root. */
  datatype Where = Root | Child(up: Where, i: nat)

  type Tab = map<Where, nat>

  function Level(w: Where): nat { if w.Root? then 0 else Level(w.up) + 1 }

  function P1(v: nat): Where requires v < PAGES { Child(Root, I4(v)) }
  function P2(v: nat): Where requires v < PAGES { Child(P1(v), I3(v)) }
  function P3(v: nat): Where requires v < PAGES { Child(P2(v), I2(v)) }

  /** An entry that does not point to a table of the tree. */
  predicate LeafOk(level: nat, e: nat)
  {
    if level < 2 then e == 0 else level == 2 ==> Present(e) ==> IsHuge(e)
  }

  /** What the tables hold, by position. */
  type Contents = map<Where, seq<nat>>

  ghost predicate HasTable(tab: Tab, w: Where, i: nat) { Child(w, i) in tab }

  /** No frame is used twice, and no frame but those of `tab` holds a table. */
  ghost predicate Owned(mem: Mem, tab: Tab)
  {
    mem.Keys == tab.Values && (forall w, u :: w in tab && u in tab && tab[w] == tab[u] ==> w == u)
  }

  ghost function Read(mem: Mem, tab: Tab): Contents
    requires Owned(mem, tab)
  {
    map w | w in tab :: mem[tab[w]]
  }

  ghost predicate Sized(c: Contents, tab: Tab)
  {
    c.Keys == tab.Keys && forall w :: w in tab ==> Level(w) <= 3 && IsFrame(tab[w]) && |c[w]| == 512
  }

  /** Every table but the root is linked from the entry its position names. */
  ghost predicate Joined(c: Contents, tab: Tab)
    requires Sized(c, tab)
  {
    forall w {:trigger JoinedAt(c, tab, w)} :: w in tab ==> JoinedAt(c, tab, w)
  }

  ghost predicate JoinedAt(c: Contents, tab: Tab, w: Where)
    requires Sized(c, tab) && w in tab
  {
    w.Child? ==> w.up in tab && w.i < 512 && c[w.up][w.i] == tab[w] + 3
  }

  ghost predicate LeavesOk(c: Contents, tab: Tab)
    requires Sized(c, tab)
  {
    forall w, i :: w in tab && 0 <= i < 512 && !HasTable(tab, w, i) ==> LeafOk(Level(w), c[w][i])
  }

  ghost predicate Tree(c: Contents, tab: Tab)
  {
    Sized(c, tab) && Joined(c, tab) && LeavesOk(c, tab)
  }

  /** `tab` says which frame holds the table at which position: every table is linked from exactly
      one entry, no frame is used twice, and no other frame is a table. */
  ghost predicate Tables(mem: Mem, tab: Tab, root: nat)
  {
    Root in tab && tab[Root] == root && Owned(mem, tab) && Tree(Read(mem, tab), tab)
  }

  lemma {:induction false} TableEntry(f: nat)
    requires IsFrame(f)
    ensures Present(f + 3) && !IsHuge(f + 3) && Addr(f + 3) == f
  {
    JoinParts(f, 3);
  }

  ghost function ViaTab(c: Contents, tab: Tab, v: nat): Leaf
    requires Tree(c, tab) && v < PAGES
  {
    if P3(v) in tab then SmallOf(c[P3(v)][I1(v)])
    else if P2(v) in tab then HugeOf(c[P2(v)][I2(v)])
    else Unmapped
  }

  /** One step of the walk: the entry either leads to the table at the next position or is a leaf. */
  lemma {:induction false} Step(mem: Mem, tab: Tab, w: Where, i: nat)
    requires Owned(mem, tab) && Tree(Read(mem, tab), tab) && w in tab && i < 512
    ensures Entry(mem, tab[w], i) == Read(mem, tab)[w][i]
    ensures var e := Entry(mem, tab[w], i);
            if Child(w, i) in tab then Present(e) && !IsHuge(e) && Addr(e) == tab[Child(w, i)]
            else LeafOk(Level(w), e)
  {
    var u := Child(w, i);
    assert HasTable(tab, w, i) <==> u in tab;
    if u in tab {
      assert JoinedAt(Read(mem, tab), tab, u);
      TableEntry(tab[u]);
    }
  }

  lemma {:induction false} WalkFollowsTab(mem: Mem, tab: Tab, root: nat, v: nat)
    requires Tables(mem, tab, root) && v < PAGES
    ensures Lookup(mem, root, v) == ViaTab(Read(mem, tab), tab, v)
  {
    var c := Read(mem, tab);
    Step(mem, tab, Root, I4(v));
    Prefix(c, tab, v);
    if P1(v) in tab {
      Step(mem, tab, P1(v), I3(v));
      if P2(v) in tab {
        Step(mem, tab, P2(v), I2(v));
        if P3(v) in tab {
          Step(mem, tab, P3(v), I1(v));
          assert Child(P3(v), I1(v)) !in tab;
        }
      }
    }
  }

  // ----- The three elementary changes

  function Zeros(): seq<nat> { seq(512, _ => 0) }

  function Put(mem: Mem, f: nat, i: nat, e: nat): Mem
    requires f in mem && i < |mem[f]|
  {
    var t: seq<nat> := mem[f][i := e];
    mem[f := t]
  }

  ghost function PutAt(c: Contents, w: Where, i: nat, e: nat): Contents
    requires w in c && i < |c[w]|
  {
    var t: seq<nat> := c[w][i := e];
    c[w := t]
  }

  lemma {:induction false} ReadPut(mem: Mem, tab: Tab, w: Where, i: nat, e: nat)
    requires Owned(mem, tab) && w in tab && i < |mem[tab[w]]|
    ensures var m := Put(mem, tab[w], i, e);
            Owned(m, tab) && Read(m, tab) == PutAt(Read(mem, tab), w, i, e)
  {
    assert Put(mem, tab[w], i, e).Keys == mem.Keys;
  }

  lemma {:induction false} ReadAdd(mem: Mem, tab: Tab, c: Where, g: nat)
    requires Owned(mem, tab) && c !in tab && g !in mem
    ensures var m, t := mem[g := Zeros()], tab[c := g];
            Owned(m, t) && Read(m, t) == Read(mem, tab)[c := Zeros()]
  {
    var t := tab[c := g];
    assert forall w :: w in tab ==> tab[w] in tab.Values;
    forall f | f in mem.Keys + {g} ensures f in t.Values {
      if f == g { assert t[c] == f; } else { var u :| u in tab && tab[u] == f; assert t[u] == f; }
    }
  }

  lemma {:induction false} ReadDrop(mem: Mem, tab: Tab, c: Where)
    requires Owned(mem, tab) && c in tab
    ensures var m, t := mem - {tab[c]}, tab - {c};
            Owned(m, t) && Read(m, t) == Read(mem, tab) - {c}
  {
    var t := tab - {c};
    forall f | f in mem.Keys - {tab[c]} ensures f in t.Values {
      var u :| u in tab && tab[u] == f;
      assert t[u] == f;
    }
  }

  /** A zeroed frame becomes the table below entry `i` of `w`. */
  lemma {:induction false} AddTable(mem: Mem, tab: Tab, root: nat, w: Where, i: nat, g: nat)
    requires Tables(mem, tab, root) && w in tab && Level(w) < 3 && i < 512
    requires Child(w, i) !in tab && IsFrame(g) && g !in mem
    ensures var m, t := Put(mem, tab[w], i, g + 3)[g := Zeros()], tab[Child(w, i) := g];
            Tables(m, t, root) && Read(m, t) == PutAt(Read(mem, tab), w, i, g + 3)[Child(w, i) := Zeros()]
  {
    ReadPut(mem, tab, w, i, g + 3);
    ReadAdd(Put(mem, tab[w], i, g + 3), tab, Child(w, i), g);
    TreeAdd(Read(mem, tab), tab, w, i, g);
  }

  lemma {:induction false} TreeAdd(c: Contents, tab: Tab, w: Where, i: nat, g: nat)
    requires Tree(c, tab) && w in tab && Level(w) < 3 && i < 512 && Child(w, i) !in tab && IsFrame(g)
    ensures Tree(PutAt(c, w, i, g + 3)[Child(w, i) := Zeros()], tab[Child(w, i) := g])
  {
    var d, t := PutAt(c, w, i, g + 3)[Child(w, i) := Zeros()], tab[Child(w, i) := g];
    forall u | u in t ensures JoinedAt(d, t, u) {
      if u != Child(w, i) { assert JoinedAt(c, tab, u); }
    }
    forall u, j | u in t && 0 <= j < 512 && !HasTable(t, u, j) ensures LeafOk(Level(u), d[u][j]) {
      if u != Child(w, i) { assert !HasTable(tab, u, j) && (u != w || j != i); }
    }
  }

  /** A leaf entry is written. */
  lemma {:induction false} SetLeaf(mem: Mem, tab: Tab, root: nat, w: Where, i: nat, e: nat)
    requires Tables(mem, tab, root) && w in tab && i < 512 && Child(w, i) !in tab && LeafOk(Level(w), e)
    ensures var m := Put(mem, tab[w], i, e);
            Tables(m, tab, root) && Read(m, tab) == PutAt(Read(mem, tab), w, i, e)
  {
    ReadPut(mem, tab, w, i, e);
    TreePut(Read(mem, tab), tab, w, i, e);
  }

  lemma {:induction false} TreePut(c: Contents, tab: Tab, w: Where, i: nat, e: nat)
    requires Tree(c, tab) && w in tab && i < 512 && Child(w, i) !in tab && LeafOk(Level(w), e)
    ensures Tree(PutAt(c, w, i, e), tab)
  {
    var d := PutAt(c, w, i, e);
    forall u | u in tab ensures JoinedAt(d, tab, u) { assert JoinedAt(c, tab, u); }
    forall u, j | u in tab && 0 <= j < 512 && !HasTable(tab, u, j) ensures LeafOk(Level(u), d[u][j]) {
    }
  }

  ghost predicate Empty(t: seq<nat>) { forall i :: 0 <= i < |t| ==> t[i] == 0 }

  /** An empty table below entry `i` of `w` is unlinked and its frame given up. */
  lemma {:induction false} DropTable(mem: Mem, tab: Tab, root: nat, w: Where, i: nat)
    requires Tables(mem, tab, root) && w in tab && Child(w, i) in tab && Empty(Read(mem, tab)[Child(w, i)])
    ensures i < 512
    ensures var m, t := Put(mem, tab[w], i, 0) - {tab[Child(w, i)]}, tab - {Child(w, i)};
            Tables(m, t, root) && Read(m, t) == PutAt(Read(mem, tab), w, i, 0) - {Child(w, i)}
  {
    var c := Child(w, i);
    assert JoinedAt(Read(mem, tab), tab, c);
    ReadPut(mem, tab, w, i, 0);
    ReadDrop(Put(mem, tab[w], i, 0), tab, c);
    TreeDrop(Read(mem, tab), tab, w, i);
  }

  lemma {:induction false} TreeDrop(c: Contents, tab: Tab, w: Where, i: nat)
    requires Tree(c, tab) && w in tab && i < 512 && Child(w, i) in tab && Empty(c[Child(w, i)])
    ensures Tree(PutAt(c, w, i, 0) - {Child(w, i)}, tab - {Child(w, i)})
  {
    var k := Child(w, i);
    var d, t := PutAt(c, w, i, 0) - {k}, tab - {k};
    forall u | u in t ensures JoinedAt(d, t, u) { assert JoinedAt(c, tab, u); }
    forall u, j | u in t && 0 <= j < 512 && !HasTable(t, u, j) ensures LeafOk(Level(u), d[u][j]) {
      if u != w || j != i { assert !HasTable(tab, u, j); }
    }
  }

  // ----- What the changes do to the walk

  lemma {:induction false} Prefix(c: Contents, tab: Tab, v: nat)
    requires Tree(c, tab) && v < PAGES
    ensures P3(v) in tab ==> P2(v) in tab
    ensures P2(v) in tab ==> P1(v) in tab
  {
    assert P3(v) in tab ==> JoinedAt(c, tab, P3(v));
    assert P2(v) in tab ==> JoinedAt(c, tab, P2(v));
  }

  lemma {:induction false} AddKeepsWalk(c: Contents, tab: Tab, w: Where, i: nat, g: nat, v: nat)
    requires Tree(c, tab) && w in tab && Level(w) < 3 && i < 512 && Child(w, i) !in tab && IsFrame(g)
    requires !Present(c[w][i]) && v < PAGES
    ensures var d, t := PutAt(c, w, i, g + 3)[Child(w, i) := Zeros()], tab[Child(w, i) := g];
            Tree(d, t) && ViaTab(d, t, v) == ViaTab(c, tab, v)
  {
    TreeAdd(c, tab, w, i, g);
    Prefix(c, tab, v);
    Levels(v);
  }

  lemma {:induction false} Levels(v: nat)
    requires v < PAGES
    ensures Level(P1(v)) == 1 && Level(P2(v)) == 2 && Level(P3(v)) == 3
  {
    assert Level(Root) == 0 && Level(P1(v)) == 1;
  }

  ghost predicate Covers(w: Where, i: nat, v: nat)
    requires v < PAGES
  {
    (P3(v) == w && I1(v) == i) || (P2(v) == w && I2(v) == i)
  }

  lemma {:induction false} PutWalk(c: Contents, tab: Tab, w: Where, i: nat, e: nat, v: nat)
    requires Tree(c, tab) && w in tab && i < 512 && Child(w, i) !in tab && LeafOk(Level(w), e)
    requires Level(w) >= 2 && v < PAGES
    ensures Tree(PutAt(c, w, i, e), tab)
    ensures ViaTab(PutAt(c, w, i, e), tab, v) ==
            if !Covers(w, i, v) then ViaTab(c, tab, v) else if Level(w) == 3 then SmallOf(e) else HugeOf(e)
  {
    TreePut(c, tab, w, i, e);
    Levels(v);
  }

  lemma {:induction false} DropKeepsWalk(c: Contents, tab: Tab, w: Where, i: nat, v: nat)
    requires Tree(c, tab) && w in tab && i < 512 && Child(w, i) in tab && Empty(c[Child(w, i)]) && v < PAGES
    ensures Tree(PutAt(c, w, i, 0) - {Child(w, i)}, tab - {Child(w, i)})
    ensures ViaTab(PutAt(c, w, i, 0) - {Child(w, i)}, tab - {Child(w, i)}, v) == ViaTab(c, tab, v)
  {
    TreeDrop(c, tab, w, i);
    Prefix(c, tab, v);
    Prefix(PutAt(c, w, i, 0) - {Child(w, i)}, tab - {Child(w, i)}, v);
    Levels(v);
  }

  // ----- Tidiness: no empty tables, no stray bits

  /** Every leaf entry is zero or present, and every table but the root and perhaps `k` holds
      something. */
  ghost predicate TidyBut(c: Contents, tab: Tab, k: Where)
    requires Sized(c, tab)
  {
    && (forall w :: w in tab && w != Root && w != k ==> !Empty(c[w]))
    && (forall w, i :: w in tab && 0 <= i < 512 && !HasTable(tab, w, i) ==> c[w][i] == 0 || Present(c[w][i]))
  }

  ghost predicate Tidy(c: Contents, tab: Tab)
    requires Sized(c, tab)
  {
    TidyBut(c, tab, Root)
  }

  lemma {:induction false} AddTidy(c: Contents, tab: Tab, w: Where, i: nat, g: nat)
    requires Tree(c, tab) && w in tab && Level(w) < 3 && i < 512 && Child(w, i) !in tab && IsFrame(g)
    requires TidyBut(c, tab, w)
    ensures var d, t := PutAt(c, w, i, g + 3)[Child(w, i) := Zeros()], tab[Child(w, i) := g];
            Tree(d, t) && TidyBut(d, t, Child(w, i))
  {
    TreeAdd(c, tab, w, i, g);
    var d, t := PutAt(c, w, i, g + 3)[Child(w, i) := Zeros()], tab[Child(w, i) := g];
    assert d[w][i] != 0;
    forall u | u in tab && u != w && !Empty(c[u]) ensures !Empty(d[u]) { }
    forall u, j | u in t && 0 <= j < 512 && !HasTable(t, u, j) ensures d[u][j] == 0 || Present(d[u][j]) {
      if u != Child(w, i) { assert !HasTable(tab, u, j) && (u != w || j != i); }
    }
  }

  lemma {:induction false} PutTidy(c: Contents, tab: Tab, w: Where, i: nat, e: nat)
    requires Tree(c, tab) && w in tab && i < 512 && Child(w, i) !in tab && LeafOk(Level(w), e)
    requires TidyBut(c, tab, w) && (e == 0 || Present(e))
    ensures var d := PutAt(c, w, i, e); Tree(d, tab) && TidyBut(d, tab, w) && (e != 0 ==> Tidy(d, tab))
  {
    TreePut(c, tab, w, i, e);
    var d := PutAt(c, w, i, e);
    assert e != 0 ==> d[w][i] != 0;
    forall u, j | u in tab && 0 <= j < 512 && !HasTable(tab, u, j) ensures d[u][j] == 0 || Present(d[u][j]) { }
  }

  lemma {:induction false} DropTidy(c: Contents, tab: Tab, w: Where, i: nat)
    requires Tree(c, tab) && w in tab && i < 512 && Child(w, i) in tab && Empty(c[Child(w, i)])
    requires TidyBut(c, tab, Child(w, i))
    ensures var d, t := PutAt(c, w, i, 0) - {Child(w, i)}, tab - {Child(w, i)};
            Tree(d, t) && TidyBut(d, t, w)
  {
    TreeDrop(c, tab, w, i);
    var d, t := PutAt(c, w, i, 0) - {Child(w, i)}, tab - {Child(w, i)};
    forall u, j | u in t && 0 <= j < 512 && !HasTable(t, u, j) ensures d[u][j] == 0 || Present(d[u][j]) {
      if u != w || j != i { assert !HasTable(tab, u, j); }
    }
  }

  // ----- The three changes, with everything they preserve

  /** Both memories translate every page alike. */
  ghost predicate SameWalk(m: Mem, n: Mem, root: nat)
  {
    forall v :: 0 <= v < PAGES ==> Lookup(m, root, v) == Lookup(n, root, v)
  }

  lemma {:induction false} AddTableEffect(mem: Mem, tab: Tab, root: nat, w: Where, i: nat, g: nat)
    requires Tables(mem, tab, root) && w in tab && Level(w) < 3 && i < 512
    requires Child(w, i) !in tab && !Present(mem[tab[w]][i]) && IsFrame(g) && g !in mem
    ensures |mem[tab[w]]| == 512
    ensures var m, t := Put(mem, tab[w], i, g + 3)[g := Zeros()], tab[Child(w, i) := g];
            && Tables(m, t, root) && SameWalk(m, mem, root)
            && (TidyBut(Read(mem, tab), tab, w) ==> TidyBut(Read(m, t), t, Child(w, i)))
  {
    var m, t := Put(mem, tab[w], i, g + 3)[g := Zeros()], tab[Child(w, i) := g];
    var c := Read(mem, tab);
    AddTable(mem, tab, root, w, i, g);
    forall v | 0 <= v < PAGES ensures Lookup(m, root, v) == Lookup(mem, root, v) {
      AddKeepsWalk(c, tab, w, i, g, v);
      WalkFollowsTab(mem, tab, root, v);
      WalkFollowsTab(m, t, root, v);
    }
    if TidyBut(c, tab, w) { AddTidy(c, tab, w, i, g); }
  }

  lemma {:induction false} SetLeafEffect(mem: Mem, tab: Tab, root: nat, w: Where, i: nat, e: nat)
    requires Tables(mem, tab, root) && w in tab && 2 <= Level(w) && i < 512 && Child(w, i) !in tab
    requires LeafOk(Level(w), e)
    ensures |mem[tab[w]]| == 512
    ensures forall v :: 0 <= v < PAGES ==>
              Lookup(Put(mem, tab[w], i, e), root, v) ==
              (if Covers(w, i, v) then LeafOf(Level(w), e) else Lookup(mem, root, v))
  {
    forall v | 0 <= v < PAGES
      ensures Lookup(Put(mem, tab[w], i, e), root, v) ==
              (if Covers(w, i, v) then LeafOf(Level(w), e) else Lookup(mem, root, v))
    {
      SetLeafWalk(mem, tab, root, w, i, e, v);
    }
  }

  lemma {:induction false} SetLeafTidy(mem: Mem, tab: Tab, root: nat, w: Where, i: nat, e: nat)
    requires Tables(mem, tab, root) && w in tab && i < 512 && Child(w, i) !in tab && LeafOk(Level(w), e)
    ensures |mem[tab[w]]| == 512
    ensures var m := Put(mem, tab[w], i, e);
            && Tables(m, tab, root)
            && (TidyBut(Read(mem, tab), tab, w) && (e == 0 || Present(e)) ==> TidyBut(Read(m, tab), tab, w))
            && (TidyBut(Read(mem, tab), tab, w) && Present(e) ==> Tidy(Read(m, tab), tab))
  {
    var c := Read(mem, tab);
    SetLeaf(mem, tab, root, w, i, e);
    if TidyBut(c, tab, w) && (e == 0 || Present(e)) { PutTidy(c, tab, w, i, e); }
  }

  lemma {:induction false} SetLeafWalk(mem: Mem, tab: Tab, root: nat, w: Where, i: nat, e: nat, v: nat)
    requires Tables(mem, tab, root) && w in tab && 2 <= Level(w) && i < 512 && Child(w, i) !in tab
    requires LeafOk(Level(w), e) && v < PAGES && |mem[tab[w]]| == 512
    ensures Lookup(Put(mem, tab[w], i, e), root, v) ==
            if Covers(w, i, v) then LeafOf(Level(w), e) else Lookup(mem, root, v)
  {
    SetLeaf(mem, tab, root, w, i, e);
    PutWalk(Read(mem, tab), tab, w, i, e, v);
    WalkFollowsTab(mem, tab, root, v);
    WalkFollowsTab(Put(mem, tab[w], i, e), tab, root, v);
  }

  function LeafOf(level: nat, e: nat): Leaf { if level == 3 then SmallOf(e) else HugeOf(e) }

  lemma {:induction false} DropTableEffect(mem: Mem, tab: Tab, root: nat, w: Where, i: nat)
    requires Tables(mem, tab, root) && w in tab && i < 512
    requires Child(w, i) in tab && Empty(mem[tab[Child(w, i)]])
    ensures |mem[tab[w]]| == 512
    ensures var m, t := Put(mem, tab[w], i, 0) - {tab[Child(w, i)]}, tab - {Child(w, i)};
            && Tables(m, t, root) && SameWalk(m, mem, root)
            && (TidyBut(Read(mem, tab), tab, Child(w, i)) ==> TidyBut(Read(m, t), t, w))
  {
    var m, t := Put(mem, tab[w], i, 0) - {tab[Child(w, i)]}, tab - {Child(w, i)};
    var c := Read(mem, tab);
    DropTable(mem, tab, root, w, i);
    forall v | 0 <= v < PAGES ensures Lookup(m, root, v) == Lookup(mem, root, v) {
      DropKeepsWalk(c, tab, w, i, v);
      WalkFollowsTab(mem, tab, root, v);
      WalkFollowsTab(m, t, root, v);
    }
    if TidyBut(c, tab, Child(w, i)) { DropTidy(c, tab, w, i); }
  }

  lemma {:induction false} NoFifthLevel(c: Contents, tab: Tab, w: Where, i: nat)
    requires Tree(c, tab) && Level(w) == 3
    ensures Child(w, i) !in tab
  {
    assert Level(Child(w, i)) == 4;
  }

  lemma {:induction false} CoversOne(v: nat, u: nat)
    requires v < PAGES && u < PAGES
    ensures Covers(P3(v), I1(v), u) <==> u == v
  {
    Levels(v);
    Levels(u);
    if Covers(P3(v), I1(v), u) { IndicesAreInjective(v, u); }
  }

  /** Writing the entry of one 4 KiB page changes that page and no other. */
  lemma {:induction false} StoreSmallEffect(mem: Mem, tab: Tab, root: nat, v: nat, e: nat)
    requires Tables(mem, tab, root) && v < PAGES && P3(v) in tab
    ensures |mem[tab[P3(v)]]| == 512
    ensures var m := Put(mem, tab[P3(v)], I1(v), e);
            && Tables(m, tab, root)
            && (forall u :: 0 <= u < PAGES ==>
                  Lookup(m, root, u) == if u == v then SmallOf(e) else Lookup(mem, root, u))
            && (TidyBut(Read(mem, tab), tab, P3(v)) && (e == 0 || Present(e)) ==> TidyBut(Read(m, tab), tab, P3(v)))
            && (TidyBut(Read(mem, tab), tab, P3(v)) && Present(e) ==> Tidy(Read(m, tab), tab))
  {
    Levels(v);
    NoFifthLevel(Read(mem, tab), tab, P3(v), I1(v));
    SetLeafTidy(mem, tab, root, P3(v), I1(v), e);
    SetLeafEffect(mem, tab, root, P3(v), I1(v), e);
    forall u | 0 <= u < PAGES ensures Covers(P3(v), I1(v), u) <==> u == v { CoversOne(v, u); }
  }

  /** A table with an entry in it is not empty. */
  lemma {:induction false} EntryTidy(c: Contents, tab: Tab, w: Where, i: nat, k: Where)
    requires Tree(c, tab) && w in tab && i < 512 && c[w][i] != 0 && TidyBut(c, tab, w)
    ensures TidyBut(c, tab, k)
  {
  }

  lemma {:induction false} CoversHuge(v: nat, u: nat)
    requires v < PAGES && u < PAGES
    ensures Covers(P2(v), I2(v), u) <==> u / 512 == v / 512
  {
    Levels(v);
    Levels(u);
    if Covers(P2(v), I2(v), u) { IndicesAreInjective(v, u); }
    if u / 512 == v / 512 { SameIndices(v, u); }
  }

  lemma {:induction false} SameIndices(v: nat, u: nat)
    requires v < PAGES && u < PAGES && u / 512 == v / 512
    ensures P1(u) == P1(v) && P2(u) == P2(v) && P3(u) == P3(v)
  {
    assert v / 0x4_0000 == v / 512 / 512 && v / 0x800_0000 == v / 512 / 512 / 512;
    assert u / 0x4_0000 == u / 512 / 512 && u / 0x800_0000 == u / 512 / 512 / 512;
  }

  /** Writing a huge-page entry changes its 512 pages and no other. */
  lemma {:induction false} StoreHugeEffect(mem: Mem, tab: Tab, root: nat, v: nat, e: nat)
    requires Tables(mem, tab, root) && v < PAGES && P2(v) in tab && P3(v) !in tab && (Present(e) ==> IsHuge(e))
    ensures |mem[tab[P2(v)]]| == 512
    ensures var m := Put(mem, tab[P2(v)], I2(v), e);
            && Tables(m, tab, root)
            && (forall u :: 0 <= u < PAGES ==>
                  Lookup(m, root, u) == if u / 512 == v / 512 then HugeOf(e) else Lookup(mem, root, u))
            && (TidyBut(Read(mem, tab), tab, P2(v)) && (e == 0 || Present(e)) ==> TidyBut(Read(m, tab), tab, P2(v)))
            && (TidyBut(Read(mem, tab), tab, P2(v)) && Present(e) ==> Tidy(Read(m, tab), tab))
  {
    Levels(v);
    SetLeafTidy(mem, tab, root, P2(v), I2(v), e);
    SetLeafEffect(mem, tab, root, P2(v), I2(v), e);
    forall u | 0 <= u < PAGES ensures Covers(P2(v), I2(v), u) <==> u / 512 == v / 512 { CoversHuge(v, u); }
  }
}
