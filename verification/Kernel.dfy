/** paging.c: the kernel's mapping layer, which keeps the VMA tree and the page tables in step. */
module Kernel {
  import opened Pte
  import opened VmaMap
  import P = PageTable
  import M = Mmu
  import S = RbShape
  import R = RbTree
  import V = Vm

  lemma {:induction false} HugeNoTable(m: P.Mem, t: P.Tab, root: nat, v: nat)
    requires P.Tables(m, t, root) && v < PAGES && P.Lookup(m, root, v).Huge?
    ensures P.P3(v) !in t
  {
    P.WalkFollowsTab(m, t, root, v);
  }

  lemma {:induction false} AllHugePresent(s: seq<Node>, x: Node, m: P.Mem, t: P.Tab, root: nat, paddr: nat,
                                          vaddr: nat, flags: nat, n: nat)
    requires P.Tables(m, t, root) && AllOk(s) && Agree(s, m, root) && x in s
    requires HugeRequest(paddr, vaddr, flags, n) && Describes(x, paddr, vaddr, flags, n * 0x20_0000)
    ensures M.AllHugeAt(m, root, paddr, vaddr, n) && M.NoTableBelow(t, vaddr, n)
  {
    hide P.Lookup, P.Tables, P.P3, Agree, AllOk, HugeRequest, Describes, M.HugeVpnAt, M.HugeWord;
    forall i: nat | i < n
      ensures M.HugeAt(P.Lookup(m, root, M.HugeVpnAt(vaddr, i)), M.HugeWord(paddr, i))
      ensures P.P3(M.HugeVpnAt(vaddr, i)) !in t
    {
      HugePresent(s, x, m, root, paddr, vaddr, flags, n, i);
      HugeNoTable(m, t, root, M.HugeVpnAt(vaddr, i));
    }
  }

  lemma {:induction false} NothingAgrees(m: P.Mem, root: nat)
    requires forall v :: 0 <= v < PAGES ==> P.Lookup(m, root, v) == P.Unmapped
    ensures AllOk([]) && Agree([], m, root)
  {
    forall va: nat | Canonical(va) ensures AgreeAt([], m, root, va) { }
  }

  class KernelVm {
    const tree: R.RbTree
    const mmu: M.Mmu

    /** No VMA, nothing mapped. */
    constructor (tree: R.RbTree, mmu: M.Mmu)
      requires tree.Valid() && tree.shape == S.Leaf && mmu.Valid() && mmu.TidyExcept(P.Root)
      requires forall v :: 0 <= v < PAGES ==> P.Lookup(mmu.mem, mmu.pml4t, v) == P.Unmapped
      ensures this.tree == tree && this.mmu == mmu && Valid() && Vmas() == []
    {
      this.tree, this.mmu := tree, mmu;
      new;
      NothingAgrees(mmu.mem, mmu.pml4t);
    }

    /** The VMAs in address order. */
    ghost function Vmas(): seq<Node>
      reads tree
    {
      S.Inorder(tree.shape)
    }

    /** A well-linked red-black search tree. */
    ghost predicate Balanced()
      reads tree, tree.links.Keys
    {
      tree.Valid() && S.RedBlack(tree.shape) && S.Sorted(Vmas())
    }

    /** In addition, no VMA reaches into a later one. */
    ghost predicate Linked()
      reads tree, tree.links.Keys
    {
      Balanced() && V.Ordered(Vmas())
    }

    ghost predicate TreeOk()
      reads tree, tree.links.Keys
    {
      Balanced() && AllOk(Vmas())
    }

    ghost predicate TablesOk()
      reads mmu
    {
      mmu.Valid() && mmu.TidyExcept(P.Root)
    }

    ghost predicate Valid()
      reads tree, tree.links.Keys, mmu
    {
      TreeOk() && TablesOk() && Agree(Vmas(), mmu.mem, mmu.pml4t)
    }

    /** Builds the VMA and puts it into the tree (`rb_insert_vma`), which does not take it if another one starts at the
        same address.  `stop` is the end of its range, which `end` is in 64-bit arithmetic. */
    method InsertVma(start: nat, end: nat, pte: nat, ghost stop: nat) returns (vma: Node)
      requires TreeOk() && start < stop && end <= stop
      modifies tree, tree.links.Keys
      ensures vma.vmaStart == start && vma.vmaEnd == end && vma.vmaPte == pte
      ensures Balanced() && fresh(tree.links.Keys - old(tree.links.Keys))
      ensures Taken(old(Vmas()), start) ==> Vmas() == old(Vmas()) && TreeOk()
      ensures !Taken(old(Vmas()), start) ==> S.InsertedInto(old(Vmas()), vma, Vmas())
      ensures !Taken(old(Vmas()), start) ==> (TreeOk() <==> VmaOk(vma) && Apart(old(Vmas()), start, end))
      ensures Apart(old(Vmas()), start, stop) ==> Linked() && !Taken(old(Vmas()), start)
    {
      hide S.RedBlack, S.Sorted, S.InsertedInto, V.Ordered, V.Disjoint, VmaOk;
      vma := new S.Node(start, end, pte);
      var r := tree.Insert(vma);
      if r != null { OkInsertedIff(old(Vmas()), vma, Vmas()); }
      if Apart(old(Vmas()), start, stop) {
        ApartNotTaken(old(Vmas()), start, stop);
        OrderedInserted(old(Vmas()), vma, Vmas(), stop);
      }
    }

    /** `kmap_pages` for 4 KiB pages; `ok` is false when the kernel panicked, which it does exactly for lack of
        frames.  If a VMA starts at `vaddr` the tree stays as it is, and agreement is kept iff the VMAs promise already
        what is mapped; otherwise it is kept iff the range overlaps no VMA and ends below 2^64. */
    method KmapSmall(paddr: nat, vaddr: nat, flags: nat, n: nat) returns (ok: bool)
      requires Valid() && SmallRangeFits(paddr, vaddr, flags, n)
      requires forall v :: 0 <= v < PAGES && M.Off(v, Vpn(vaddr)) < n ==> !P.Lookup(mmu.mem, mmu.pml4t, v).Huge?
      modifies tree, tree.links.Keys, mmu
      ensures ok <==> M.Suffices(old(mmu.free), old(mmu.tab), M.SmallTables(Vpn(vaddr), n))
      ensures Balanced() && mmu.Valid() && mmu.free + mmu.mem.Keys == old(mmu.free + mmu.mem.Keys)
      ensures ok ==> TablesOk() && M.MappedSmall(old(mmu.mem), mmu.mem, mmu.pml4t, paddr, Vpn(vaddr), flags, n)
      ensures ok && Taken(old(Vmas()), vaddr) ==>
        Vmas() == old(Vmas()) && (Valid() <==> Restates(Vmas(), paddr, vaddr, flags, n * 0x1000))
      ensures ok && !Taken(old(Vmas()), vaddr) ==>
        (Valid() <==> Apart(old(Vmas()), vaddr, vaddr + n * 0x1000) && vaddr + n * 0x1000 < WORD)
      ensures !Taken(old(Vmas()), vaddr) ==> Added(old(Vmas()), Vmas(), paddr, vaddr, flags, n * 0x1000)
      ensures Apart(old(Vmas()), vaddr, vaddr + n * 0x1000) ==> Linked() && !Taken(old(Vmas()), vaddr)
      ensures ok && Apart(old(Vmas()), vaddr, vaddr + n * 0x1000) ==>
        if vaddr + n * 0x1000 < WORD then
          Follows(Vmas(), mmu.mem, mmu.pml4t) && Mapped(old(Vmas()), Vmas(), paddr, vaddr, flags, n * 0x1000)
        else !Follows(Vmas(), mmu.mem, mmu.pml4t) && Lost(Vmas(), mmu.mem, mmu.pml4t, vaddr)
      ensures fresh(tree.links.Keys - old(tree.links.Keys))
    {
      hide M.FromPool, P.Lookup, P.TidyBut, P.Tables, Agree, VmaOk, M.MappedSmall, S.RedBlack, S.Sorted,
        S.InsertedInto, V.Disjoint, V.Ordered, M.Suffices, M.SmallTables, M.PartlySmall, Follows, Lost, Restates,
        Rewritten, LeafAt, Taken, Apart, Added, Mapped;
      ghost var s, m := Vmas(), mmu.mem;
      ghost var stop := vaddr + n * 0x1000;
      Wrapped(stop);
      var vma := InsertVma(vaddr, (vaddr + n * 0x1000) % WORD, Join(paddr, flags), stop);
      if !Taken(s, vaddr) { AddedBy(s, vma, Vmas(), paddr, vaddr, flags, n * 0x1000); }
      SmallBounds(paddr, vaddr, flags, n);
      if stop < WORD { SmallIsOk(vma, paddr, vaddr, flags, n); } else { NotOk(vma); }
      ok := mmu.MapSmallPages(paddr, vaddr, flags, n);
      if ok {
        if Taken(s, vaddr) {
          SmallRewritten(paddr, vaddr, flags, n, m, mmu.mem, mmu.pml4t);
          AgreeRestated(s, m, mmu.mem, mmu.pml4t, paddr, vaddr, flags, n * 0x1000);
        } else if Apart(s, vaddr, stop) {
          if stop < WORD {
            SmallChanged(vma, paddr, vaddr, flags, n, m, mmu.mem, mmu.pml4t);
            AgreeInserted(s, vma, Vmas(), m, mmu.mem, mmu.pml4t);
            AgreeFollows(Vmas(), mmu.mem, mmu.pml4t);
          } else {
            SmallLost(s, vma, Vmas(), paddr, vaddr, flags, n, m, mmu.mem, mmu.pml4t);
          }
        }
      }
    }

    /** `kmap_pages` for 2 MiB pages, and with `n == 1` `kmap_huge_page`. */
    method KmapHuge(paddr: nat, vaddr: nat, flags: nat, n: nat) returns (ok: bool)
      requires Valid() && HugeRangeFits(paddr, vaddr, flags, n)
      requires forall v :: 0 <= v < PAGES && M.HugeOff(v, Vpn(vaddr) / 512) < n ==> P.P3(v) !in mmu.tab
      modifies tree, tree.links.Keys, mmu
      ensures ok <==> M.Suffices(old(mmu.free), old(mmu.tab), M.HugeTables(Vpn(vaddr) / 512, n))
      ensures Balanced() && mmu.Valid() && mmu.free + mmu.mem.Keys == old(mmu.free + mmu.mem.Keys)
      ensures ok ==> TablesOk() && M.MappedHuge(old(mmu.mem), mmu.mem, mmu.pml4t, paddr, Vpn(vaddr) / 512, flags, n)
      ensures ok && Taken(old(Vmas()), vaddr) ==>
        Vmas() == old(Vmas()) && (Valid() <==> Restates(Vmas(), paddr, vaddr, flags, n * 0x20_0000))
      ensures ok && !Taken(old(Vmas()), vaddr) ==>
        (Valid() <==> Apart(old(Vmas()), vaddr, vaddr + n * 0x20_0000) && vaddr + n * 0x20_0000 < WORD)
      ensures !Taken(old(Vmas()), vaddr) ==> Added(old(Vmas()), Vmas(), paddr, vaddr, flags, n * 0x20_0000)
      ensures Apart(old(Vmas()), vaddr, vaddr + n * 0x20_0000) ==> Linked() && !Taken(old(Vmas()), vaddr)
      ensures ok && Apart(old(Vmas()), vaddr, vaddr + n * 0x20_0000) ==>
        if vaddr + n * 0x20_0000 < WORD then
          Follows(Vmas(), mmu.mem, mmu.pml4t) && Mapped(old(Vmas()), Vmas(), paddr, vaddr, flags, n * 0x20_0000)
        else !Follows(Vmas(), mmu.mem, mmu.pml4t) && Lost(Vmas(), mmu.mem, mmu.pml4t, vaddr)
      ensures fresh(tree.links.Keys - old(tree.links.Keys))
    {
      hide M.FromPool, M.MapHugeSequence, P.Lookup, P.TidyBut, P.Tables, Agree, VmaOk, M.MappedHuge, S.RedBlack,
        S.Sorted, S.InsertedInto, V.Disjoint, V.Ordered, M.Suffices, M.HugeTables, M.PartlyHuge, Follows, Lost,
        Restates, Rewritten, LeafAt, Taken, Apart, Added, Mapped;
      ghost var s, m := Vmas(), mmu.mem;
      ghost var stop := vaddr + n * 0x20_0000;
      Wrapped(stop);
      var vma := InsertVma(vaddr, (vaddr + n * 0x20_0000) % WORD, Join(paddr, flags), stop);
      if !Taken(s, vaddr) { AddedBy(s, vma, Vmas(), paddr, vaddr, flags, n * 0x20_0000); }
      HugeBounds(paddr, vaddr, flags, n);
      if stop < WORD { HugeIsOk(vma, paddr, vaddr, flags, n); } else { NotOk(vma); }
      ok := mmu.MapHugePages(paddr, vaddr, flags, n);
      if ok {
        if Taken(s, vaddr) {
          HugeRewritten(paddr, vaddr, flags, n, m, mmu.mem, mmu.pml4t);
          AgreeRestated(s, m, mmu.mem, mmu.pml4t, paddr, vaddr, flags, n * 0x20_0000);
        } else if Apart(s, vaddr, stop) {
          if stop < WORD {
            HugeChanged(vma, paddr, vaddr, flags, n, m, mmu.mem, mmu.pml4t);
            AgreeInserted(s, vma, Vmas(), m, mmu.mem, mmu.pml4t);
            AgreeFollows(Vmas(), mmu.mem, mmu.pml4t);
          } else {
            HugeLost(s, vma, Vmas(), paddr, vaddr, flags, n, m, mmu.mem, mmu.pml4t);
          }
        }
      }
    }

    /** Takes a VMA out of the tree (`rb_remove_vma`). */
    method RemoveVma(vma: Node)
      requires TreeOk() && vma in Vmas()
      modifies tree, tree.links.Keys
      ensures TreeOk() && S.RemovedFrom(old(Vmas()), vma, Vmas())
      ensures tree.links.Keys <= old(tree.links.Keys)
    {
      ghost var node;
      var removed;
      removed, node := tree.Delete(vma);
      assert removed;
      SameStart(old(Vmas()), vma, node, Vmas());
      OkRemoved(old(Vmas()), vma, Vmas());
    }

    /** `kunmap_pages` for 4 KiB pages, for any request.  Outside every VMA nothing happens.  Otherwise the VMA at
        `vaddr` goes, and unless `unmap_pages` panics the pages of the request are erased; agreement is kept iff the
        request covers that VMA and touches no other. */
    method KunmapSmall(paddr: nat, vaddr: nat, n: nat) returns (ok: bool)
      requires Valid() && forall x :: x in Vmas() && V.Contains(x, vaddr) ==> n <= PAGES
      modifies tree, tree.links.Keys, mmu
      ensures TreeOk() && Unmapped(old(Vmas()), Vmas(), vaddr) && tree.links.Keys <= old(tree.links.Keys)
      ensures ok <==> forall x :: x in old(Vmas()) && V.Contains(x, vaddr) ==>
        M.AllSmallAt(old(mmu.mem), mmu.pml4t, paddr, Vpn(vaddr), n)
      ensures ok ==> TablesOk() && mmu.free + mmu.mem.Keys == old(mmu.free + mmu.mem.Keys)
      ensures ok ==> forall x :: x in old(Vmas()) && V.Contains(x, vaddr) ==>
        M.UnmappedSmall(old(mmu.mem), mmu.mem, mmu.pml4t, Vpn(vaddr), n) &&
        (Valid() <==> Matches(old(Vmas()), x, Span(vaddr, n, false)))
      ensures (forall x :: x in old(Vmas()) ==> !V.Contains(x, vaddr)) ==> Valid() && mmu.State() == old(mmu.State())
    {
      hide M.FromPool, M.UnmapSequence, P.Lookup, P.TidyBut, P.Tables, VmaOk, Agree, Matches, Erased, M.UnmappedSmall,
        M.AllSmallAt, V.Ordered, S.RedBlack, S.Sorted, S.RemovedFrom, Vpn;
      var vma := V.FindVma(tree, vaddr);
      if vma == null {
        return true;
      }
      ghost var s, m := Vmas(), mmu.mem;
      HoldsAddress(vma, vaddr);
      RemoveVma(vma);
      ok := mmu.UnmapSmallPages(paddr, vaddr, n);
      if ok {
        SmallErased(m, mmu.mem, mmu.pml4t, vaddr, n);
        AgreeRemoved(s, vma, Vmas(), m, mmu.mem, mmu.pml4t, Span(vaddr, n, false));
      }
    }

    /** `kunmap_pages` for 2 MiB pages, and with `n == 1` `kunmap_huge_page`, for any request. */
    method KunmapHuge(paddr: nat, vaddr: nat, n: nat) returns (ok: bool)
      requires Valid() && forall x :: x in Vmas() && V.Contains(x, vaddr) ==> n <= HUGE_PAGES
      modifies tree, tree.links.Keys, mmu
      ensures TreeOk() && Unmapped(old(Vmas()), Vmas(), vaddr) && tree.links.Keys <= old(tree.links.Keys)
      ensures ok <==> forall x :: x in old(Vmas()) && V.Contains(x, vaddr) ==>
        M.AllHugeAt(old(mmu.mem), mmu.pml4t, paddr, vaddr, n) && M.NoTableBelow(old(mmu.tab), vaddr, n)
      ensures ok ==> TablesOk() && mmu.free + mmu.mem.Keys == old(mmu.free + mmu.mem.Keys)
      ensures ok ==> forall x :: x in old(Vmas()) && V.Contains(x, vaddr) ==>
        M.UnmappedHuge(old(mmu.mem), mmu.mem, mmu.pml4t, Vpn(vaddr) / 512, n) &&
        (Valid() <==> Matches(old(Vmas()), x, Span(vaddr, n, true)))
      ensures (forall x :: x in old(Vmas()) ==> !V.Contains(x, vaddr)) ==> Valid() && mmu.State() == old(mmu.State())
    {
      hide M.FromPool, M.UnmapHugeSequence, P.Lookup, P.TidyBut, P.Tables, VmaOk, Agree, Matches, Erased,
        M.UnmappedHuge, M.AllHugeAt, M.NoTableBelow, V.Ordered, S.RedBlack, S.Sorted, S.RemovedFrom, Vpn;
      var vma := V.FindVma(tree, vaddr);
      if vma == null {
        return true;
      }
      ghost var s, m := Vmas(), mmu.mem;
      HoldsAddress(vma, vaddr);
      RemoveVma(vma);
      ok := mmu.UnmapHugePages(paddr, vaddr, n);
      if ok {
        HugeErased(m, mmu.mem, mmu.pml4t, vaddr, n);
        AgreeRemoved(s, vma, Vmas(), m, mmu.mem, mmu.pml4t, Span(vaddr, n, true));
      }
    }
  }

  /** A range apart from every VMA has room for pages of 4 KiB. */
  lemma {:induction false} SmallRoom(k: KernelVm, vaddr: nat, n: nat)
    requires k.Valid() && n > 0 && vaddr % 0x1000 == 0 && InSpace(vaddr, vaddr + n * 0x1000)
    requires Apart(k.Vmas(), vaddr, vaddr + n * 0x1000)
    ensures forall v :: 0 <= v < PAGES && M.Off(v, Vpn(vaddr)) < n ==> !P.Lookup(k.mmu.mem, k.mmu.pml4t, v).Huge?
  {
    hide P.Lookup, P.Tables, P.TidyBut, Agree, AllOk, Vpn, M.Off, S.RedBlack, S.Sorted, M.FromPool;
    forall v | 0 <= v < PAGES && M.Off(v, Vpn(vaddr)) < n ensures !P.Lookup(k.mmu.mem, k.mmu.pml4t, v).Huge? {
      SmallFree(k.Vmas(), k.mmu.mem, k.mmu.pml4t, vaddr, n, v);
    }
  }

  /** And for pages of 2 MiB. */
  lemma {:induction false} HugeRoom(k: KernelVm, vaddr: nat, n: nat)
    requires k.Valid() && n > 0 && vaddr % 0x20_0000 == 0 && InSpace(vaddr, vaddr + n * 0x20_0000)
    requires Apart(k.Vmas(), vaddr, vaddr + n * 0x20_0000)
    ensures forall v :: 0 <= v < PAGES && M.HugeOff(v, Vpn(vaddr) / 512) < n ==> P.P3(v) !in k.mmu.tab
  {
    hide P.Lookup, P.Tables, P.TidyBut, Agree, AllOk, Vpn, M.HugeOff, S.RedBlack, S.Sorted, M.FromPool;
    forall v | 0 <= v < PAGES && M.HugeOff(v, Vpn(vaddr) / 512) < n ensures P.P3(v) !in k.mmu.tab {
      HugeFree(k.Vmas(), k.mmu.mem, k.mmu.tab, k.mmu.pml4t, vaddr, n, v);
    }
  }

  lemma {:induction false} NotOk(x: Node)
    requires x.vmaEnd == 0
    ensures !VmaOk(x)
  {
  }

  lemma {:induction false} HoldsAddress(x: Node, va: nat)
    requires VmaOk(x) && V.Contains(x, va)
    ensures va < WORD
  {
  }

  lemma {:induction false} HugeNamed(s: seq<Node>, x: Node, m: P.Mem, t: P.Tab, root: nat, paddr: nat, vaddr: nat,
                                     flags: nat, n: nat)
    requires P.Tables(m, t, root) && AllOk(s) && Agree(s, m, root) && S.Sorted(s) && x in s
    requires Names(x, paddr, vaddr, flags, n * 0x20_0000) && IsHuge(flags)
    ensures n <= HUGE_PAGES && M.AllHugeAt(m, root, paddr, vaddr, n) && M.NoTableBelow(t, vaddr, n)
    ensures Matches(s, x, Span(vaddr, n, true))
  {
    hide P.Lookup, P.Tables, VmaOk, Agree, M.AllHugeAt, M.NoTableBelow, Flags, Describes, HugeRequest, Matches;
    NamedHuge(x, paddr, vaddr, flags, n);
    HugeIsOk(x, paddr, vaddr, Flags(x.vmaPte), n);
    AllHugePresent(s, x, m, t, root, paddr, vaddr, Flags(x.vmaPte), n);
    HugeMatches(s, x, paddr, vaddr, Flags(x.vmaPte), n);
  }

  /** The last page of the address space: kmap_pages maps it, but the lookup that kunmap_pages starts with
      does not find it, so it is never unmapped. */
  method LastPageIsLost(k: KernelVm, paddr: nat, flags: nat) returns (ok: bool, vma: S.Node?)
    requires k.Valid() && SmallRangeFits(paddr, 0xFFFF_FFFF_FFFF_F000, flags, 1)
    requires Apart(k.Vmas(), 0xFFFF_FFFF_FFFF_F000, WORD)
    modifies k.tree, k.tree.links.Keys, k.mmu
    ensures ok <==> M.Suffices(old(k.mmu.free), old(k.mmu.tab), M.SmallTables(Vpn(0xFFFF_FFFF_FFFF_F000), 1))
    ensures ok ==> vma == null && P.Lookup(k.mmu.mem, k.mmu.pml4t, Vpn(0xFFFF_FFFF_FFFF_F000)) != P.Unmapped
  {
    hide P.Lookup, P.Tables, P.TidyBut, Agree, M.Suffices, M.SmallTables;
    var va := 0xFFFF_FFFF_FFFF_F000;
    SmallRoom(k, va, 1);
    ok := k.KmapSmall(paddr, va, flags, 1);
    vma := V.FindVma(k.tree, va);
  }

  /** One VMA was added, with the request's address, its end in 64-bit arithmetic, and its entry. */
  ghost predicate Added(s: seq<Node>, r: seq<Node>, paddr: nat, vaddr: nat, flags: nat, bytes: nat)
  {
    exists x :: x in r && S.InsertedInto(s, x, r) && x.vmaStart == vaddr && x.vmaEnd == (vaddr + bytes) % WORD &&
      x.vmaPte == Join(paddr, flags)
  }

  lemma {:induction false} AddedBy(s: seq<Node>, x: Node, r: seq<Node>, paddr: nat, vaddr: nat, flags: nat, bytes: nat)
    requires S.InsertedInto(s, x, r) && x.vmaStart == vaddr && x.vmaEnd == (vaddr + bytes) % WORD
    requires x.vmaPte == Join(paddr, flags)
    ensures Added(s, r, paddr, vaddr, flags, bytes)
    ensures vaddr + bytes < WORD ==> Mapped(s, r, paddr, vaddr, flags, bytes)
  {
    MemberInserted(s, x, r);
  }

  /** One VMA was added, describing the request. */
  ghost predicate Mapped(s: seq<Node>, r: seq<Node>, paddr: nat, vaddr: nat, flags: nat, bytes: nat)
  {
    exists x :: x in r && S.InsertedInto(s, x, r) && Describes(x, paddr, vaddr, flags, bytes)
  }

  /** The VMA containing `vaddr`, if there was one, was taken out. */
  ghost predicate Unmapped(s: seq<Node>, r: seq<Node>, vaddr: nat)
  {
    if exists x :: x in s && V.Contains(x, vaddr)
    then exists x :: x in s && V.Contains(x, vaddr) && S.RemovedFrom(s, x, r)
    else r == s
  }

  lemma {:induction false} SameStart(s: seq<Node>, x: Node, y: Node, r: seq<Node>)
    requires S.Sorted(s) && x in s && y.vmaStart == x.vmaStart && S.RemovedFrom(s, y, r)
    ensures x == y
  {
    var i: nat :| S.RemovedAt(s, y, r, i);
    var j :| 0 <= j < |s| && s[j] == x;
  }
}
