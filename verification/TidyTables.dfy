/** Tidy tables are determined by what they translate: the frames in use and every byte in them. */
module TidyTables {
  import opened Pte
  import opened PageTable
  import opened Mmu

  /** The first page below the table at `w`'s entry `i`, for `w` at level 3. */
  function PageOf(a: nat, b: nat, c: nat, i: nat): nat { ((a * 512 + b) * 512 + c) * 512 + i }

  lemma {:induction false} PageOfIndices(a: nat, b: nat, c: nat, i: nat)
    requires a < 512 && b < 512 && c < 512 && i < 512
    ensures var v := PageOf(a, b, c, i);
            v < PAGES && I4(v) == a && I3(v) == b && I2(v) == c && I1(v) == i
  {
    var v := PageOf(a, b, c, i);
    assert v / 512 == (a * 512 + b) * 512 + c;
    assert v / 0x4_0000 == v / 512 / 512 == a * 512 + b;
    assert v / 0x800_0000 == v / 512 / 512 / 512 == a;
  }

  lemma {:induction false} Shape(c: Contents, tab: Tab, w: Where)
    requires Tree(c, tab) && w in tab
    ensures Level(w) >= 1 ==> w.Child? && w.i < 512 && w.up in tab && Level(w.up) == Level(w) - 1
    ensures Level(w) == 0 ==> w == Root
  {
    assert JoinedAt(c, tab, w);
  }

  /** Some mapped page lies below `w`. */
  ghost predicate Below(w: Where, v: nat)
    requires v < PAGES
  {
    w == P1(v) || w == P2(v) || w == P3(v)
  }

  lemma {:induction false} EntryBelow3(c: Contents, tab: Tab, w: Where, i: nat) returns (v: nat)
    requires Tree(c, tab) && w in tab && Level(w) == 3 && i < 512
    ensures v < PAGES && P3(v) == w && I1(v) == i
  {
    Shape(c, tab, w);
    Shape(c, tab, w.up);
    Shape(c, tab, w.up.up);
    Shape(c, tab, w.up.up.up);
    v := PageOf(w.up.up.i, w.up.i, w.i, i);
    PageOfIndices(w.up.up.i, w.up.i, w.i, i);
  }

  lemma {:induction false} EntryBelow2(c: Contents, tab: Tab, w: Where, i: nat) returns (v: nat)
    requires Tree(c, tab) && w in tab && Level(w) == 2 && i < 512
    ensures v < PAGES && P2(v) == w && I2(v) == i
  {
    Shape(c, tab, w);
    Shape(c, tab, w.up);
    Shape(c, tab, w.up.up);
    v := PageOf(w.up.i, w.i, i, 0);
    PageOfIndices(w.up.i, w.i, i, 0);
  }

  /** In tidy tables every table but the root leads to a mapped page. */
  lemma {:induction false} Inhabited(c: Contents, tab: Tab, w: Where) returns (v: nat)
    requires Tree(c, tab) && Tidy(c, tab) && w in tab && w != Root
    ensures v < PAGES && Below(w, v) && !ViaTab(c, tab, v).Unmapped?
    ensures w == P3(v) ==> P3(v) in tab
    decreases 3 - Level(w)
  {
    assert !Empty(c[w]);
    var i :| 0 <= i < 512 && c[w][i] != 0;
    Shape(c, tab, w);
    if HasTable(tab, w, i) {
      assert Level(Child(w, i)) == Level(w) + 1;
      v := Inhabited(c, tab, Child(w, i));
      Levels(v);
    } else {
      assert LeafOk(Level(w), c[w][i]) && Present(c[w][i]);
      if Level(w) == 3 {
        v := EntryBelow3(c, tab, w, i);
      } else {
        v := EntryBelow2(c, tab, w, i);
        assert P3(v) == Child(w, i);
      }
    }
  }

  /** If two tidy trees translate alike, every table of one is a table of the other. */
  lemma {:induction false} SamePositions(c: Contents, t: Tab, d: Contents, u: Tab, w: Where)
    requires Tree(c, t) && Tidy(c, t) && Tree(d, u) && Root in u && w in t
    requires forall v :: 0 <= v < PAGES ==> ViaTab(c, t, v) == ViaTab(d, u, v)
    ensures w in u
  {
    if w != Root {
      var v := Inhabited(c, t, w);
      Prefix(c, t, v);
      Prefix(d, u, v);
      Levels(v);
    }
  }

  lemma {:induction false} SameEntries(c: Contents, t: Tab, d: Contents, w: Where, i: nat)
    requires Tree(c, t) && Tidy(c, t) && Tree(d, t) && Tidy(d, t) && w in t && i < 512
    requires forall v :: 0 <= v < PAGES ==> ViaTab(c, t, v) == ViaTab(d, t, v)
    ensures c[w][i] == d[w][i]
  {
    if HasTable(t, w, i) {
      assert JoinedAt(c, t, Child(w, i)) && JoinedAt(d, t, Child(w, i));
    } else {
      assert LeafOk(Level(w), c[w][i]) && LeafOk(Level(w), d[w][i]);
      if Level(w) == 3 {
        var v := EntryBelow3(c, t, w, i);
        assert ViaTab(c, t, v) == ViaTab(d, t, v);
      } else if Level(w) == 2 {
        var v := EntryBelow2(c, t, w, i);
        assert P3(v) == Child(w, i);
        assert ViaTab(c, t, v) == ViaTab(d, t, v);
      }
    }
  }

  /** Two tidy states that translate alike, and whose tables are where those of a common third state
      are, are the same state. */
  lemma {:induction false} TidyUnique(m: Mem, t: Tab, n: Mem, u: Tab, all: Tab, root: nat)
    requires Tables(m, t, root) && Tidy(Read(m, t), t)
    requires Tables(n, u, root) && Tidy(Read(n, u), u)
    requires SameWalk(m, n, root) && Grown(t, all) && Grown(u, all)
    ensures t == u && m == n
  {
    var c, d := Read(m, t), Read(n, u);
    forall v | 0 <= v < PAGES ensures ViaTab(c, t, v) == ViaTab(d, u, v) {
      WalkFollowsTab(m, t, root, v);
      WalkFollowsTab(n, u, root, v);
    }
    forall w ensures w in t <==> w in u {
      if w in t { SamePositions(c, t, d, u, w); }
      if w in u { SamePositions(d, u, c, t, w); }
    }
    assert t == u;
    forall w | w in t ensures c[w] == d[w] {
      forall i | 0 <= i < 512 ensures c[w][i] == d[w][i] { SameEntries(c, t, d, w, i); }
    }
    forall f | f in m ensures m[f] == n[f] {
      var w :| w in t && t[w] == f;
      assert c[w] == m[f] && d[w] == n[f];
    }
  }

  /** Tidy tables that map nothing consist of the root alone. */
  lemma {:induction false} OnlyTheRoot(m: Mem, t: Tab, root: nat)
    requires Tables(m, t, root) && Tidy(Read(m, t), t)
    requires forall v :: 0 <= v < PAGES ==> Lookup(m, root, v) == Unmapped
    ensures m.Keys == {root}
  {
    forall w | w in t ensures w == Root {
      if w != Root {
        var v := Inhabited(Read(m, t), t, w);
        WalkFollowsTab(m, t, root, v);
      }
    }
    assert t.Values == {root};
  }

  // ----- Mapping and then unmapping

  /** What a page of the range translates to. */
  lemma {:induction false} MappedAt(m: Mem, m1: Mem, root: nat, paddr: nat, v0: nat, flags: nat, n: nat, v: nat)
    requires MappedSmall(m, m1, root, paddr, v0, flags, n) && v < PAGES && Off(v, v0) < n
    ensures Lookup(m1, root, v) == SmallOf(Join(FrameAt(paddr, Off(v, v0)), flags))
  {
    hide Lookup, Off, FrameAt, Join;
  }

  lemma {:induction false} UndoneSmall(m: Mem, m1: Mem, m2: Mem, root: nat, paddr: nat, v0: nat, flags: nat, n: nat)
    requires MappedSmall(m, m1, root, paddr, v0, flags, n) && UnmappedSmall(m1, m2, root, v0, n)
    requires forall v :: 0 <= v < PAGES && Off(v, v0) < n ==> Lookup(m, root, v) == Unmapped
    ensures SameWalk(m, m2, root)
  {
  }

  /** The frames handed out are exactly those taken back. */
  lemma {:induction false} SameFree(m: Mem, f: set<nat>, g: set<nat>)
    requires f !! m.Keys && g !! m.Keys && f + m.Keys == g + m.Keys
    ensures f == g
  {
    assert f == (f + m.Keys) - m.Keys && g == (g + m.Keys) - m.Keys;
  }

  /** `map_pages` of an empty range followed by `unmap_pages` of it restores every table entry and
      the exact set of free frames.  It fails exactly if there are fewer free frames than missing
      tables. */
  method MapThenUnmap(a: Mmu, paddr: nat, vaddr: nat, flags: nat, n: nat) returns (ok: bool)
    requires a.Valid() && a.TidyExcept(Root) && vaddr < WORD && n <= PAGES
    requires IsFlags(flags) && Present(flags) && FrameAt(paddr, n) <= PHYS_LIMIT
    requires forall v :: 0 <= v < PAGES && Off(v, Vpn(vaddr)) < n ==> Lookup(a.mem, a.pml4t, v) == Unmapped
    modifies a
    ensures ok <==> Suffices(old(a.free), old(a.tab), SmallTables(Vpn(vaddr), n))
    ensures a.Valid() && a.free + a.mem.Keys == old(a.free + a.mem.Keys)
    ensures ok ==> a.mem == old(a.mem) && a.free == old(a.free) && a.tab == old(a.tab)
  {
    hide FromPool, UnmapSequence, Suffices, SmallTables, TidyBut, Lookup, MappedSmall, UnmappedSmall, SameWalk, Grown,
      Off, Nth, Vpn, FrameAt, FrameWord, Join, Addr, Present, IsFrame, IsFlags, Tables;
    ghost var m, t, v0 := a.mem, a.tab, Vpn(vaddr);
    ok := a.MapSmallPages(paddr, vaddr, flags, n);
    if !ok { return; }
    ghost var m1, t1 := a.mem, a.tab;
    forall i | 0 <= i < n ensures SmallAt(Lookup(m1, a.pml4t, Nth(v0, i)), FrameWord(paddr, i)) {
      FrameFits(paddr, i, n);
      OffNext(Nth(v0, i), v0, i);
      FrameAtIsFrame(paddr, i, n);
      JoinParts(FrameAt(paddr, i), flags);
      MappedAt(m, m1, a.pml4t, paddr, v0, flags, n, Nth(v0, i));
    }
    ok := a.UnmapSmallPages(paddr, vaddr, n);
    UndoneSmall(m, m1, a.mem, a.pml4t, paddr, v0, flags, n);
    TidyUnique(m, t, a.mem, a.tab, t1, a.pml4t);
    SameFree(m, old(a.free), a.free);
  }

  // ----- Ranges and single pages

  /** `unmap_pages` of a 4 KiB range does what a sequence of `unmap_page` calls does: it panics in the same
      cases, and leaves the same tables, entry by entry, and the same free frames. */
  method UnmapOneByOne(a: Mmu, b: Mmu, paddr: nat, vaddr: nat, n: nat) returns (okRange: bool, okPages: bool)
    requires a != b && a.Valid() && b.Valid() && vaddr < WORD && n <= PAGES
    requires a.pml4t == b.pml4t && a.State() == b.State()
    modifies a, b
    ensures okRange == okPages && a.State() == b.State()
    ensures okRange ==> a.Valid() && b.Valid()
  {
    hide Sound, FromPool, UnmapOnce, AddrAt, Vpn, FrameWord, Lookup, SmallAt, AllSmallAt, UnmappedSmall, StoredSmall,
      TidyBut, Shrunk;
    ghost var goal := UnmapSequence(b.State(), b.pml4t, paddr, vaddr, 0, n);
    okRange := a.UnmapSmallPages(paddr, vaddr, n);
    okPages := true;
    var i: nat := 0;
    while i < n
      invariant i <= n && b.Valid() && UnmapSequence(b.State(), b.pml4t, paddr, vaddr, i, n) == goal
      modifies b
    {
      okPages := b.UnmapPage(Vpn(AddrAt(vaddr, i)), FrameWord(paddr, i));
      if !okPages { return; }
      i := i + 1;
    }
  }

  lemma {:induction false} HugeAddresses(va: nat, i: nat)
    requires va < WORD
    ensures HugeVpnAt(va, i) / 512 == HugeNth(Vpn(va) / 512, i)
    decreases i
  {
    hide HugeNth, HugeAddrAt, Vpn;
    if i == 0 {
      UnmappedNone(map[], 0, va);
    } else {
      HugeAddresses(va, i - 1);
      HugeAddrAtNext(va, i - 1);
    }
  }

  lemma {:induction false} MappedHugeAt(m: Mem, m1: Mem, root: nat, paddr: nat, h0: nat, flags: nat, n: nat, v: nat)
    requires MappedHuge(m, m1, root, paddr, h0, flags, n) && v < PAGES && HugeOff(v, h0) < n
    ensures Lookup(m1, root, v) == HugeOf(Join(HugeFrameAt(paddr, HugeOff(v, h0)), flags))
  {
    hide Lookup, HugeOff, HugeFrameAt, Join;
  }

  /** A huge leaf leaves no room for a page table. */
  lemma {:induction false} HugeLeaf(m: Mem, t: Tab, root: nat, v: nat, e: nat)
    requires Tables(m, t, root) && v < PAGES && Lookup(m, root, v) == HugeOf(e) && Present(e)
    ensures HugeAt(Lookup(m, root, v), Addr(e)) && P3(v) !in t
  {
    hide Lookup, Tables, Addr, Present;
    WalkFollowsTab(m, t, root, v);
  }

  lemma {:induction false} UndoneHuge(m: Mem, m1: Mem, m2: Mem, root: nat, paddr: nat, h0: nat, flags: nat, n: nat)
    requires MappedHuge(m, m1, root, paddr, h0, flags, n) && UnmappedHuge(m1, m2, root, h0, n)
    requires forall v :: 0 <= v < PAGES && HugeOff(v, h0) < n ==> Lookup(m, root, v) == Unmapped
    ensures SameWalk(m, m2, root)
  {
  }

  /** In tidy tables no page table hangs below a 2 MiB slot that maps nothing. */
  lemma {:induction false} NoTableThere(m: Mem, t: Tab, root: nat, h0: nat, n: nat, v: nat)
    requires Tables(m, t, root) && Tidy(Read(m, t), t) && v < PAGES && HugeOff(v, h0) < n
    requires forall u :: 0 <= u < PAGES && HugeOff(u, h0) < n ==> Lookup(m, root, u) == Unmapped
    ensures P3(v) !in t
  {
    hide Lookup, ViaTab;
    if P3(v) in t {
      var u := Inhabited(Read(m, t), t, P3(v));
      Levels(u);
      Levels(v);
      WalkFollowsTab(m, t, root, u);
      IndicesAreInjective(v, u);
    }
  }

  /** The same round trip for 2 MiB pages. */
  method MapThenUnmapHuge(a: Mmu, paddr: nat, vaddr: nat, flags: nat, n: nat) returns (ok: bool)
    requires a.Valid() && a.TidyExcept(Root) && vaddr < WORD && n <= HUGE_PAGES
    requires IsFlags(flags) && IsHuge(flags) && Present(flags) && paddr % 0x20_0000 == 0
    requires HugeFrameAt(paddr, n) <= PHYS_LIMIT
    requires forall v :: 0 <= v < PAGES && HugeOff(v, Vpn(vaddr) / 512) < n ==> Lookup(a.mem, a.pml4t, v) == Unmapped
    modifies a
    ensures ok <==> Suffices(old(a.free), old(a.tab), HugeTables(Vpn(vaddr) / 512, n))
    ensures a.Valid() && a.free + a.mem.Keys == old(a.free + a.mem.Keys)
    ensures ok ==> a.mem == old(a.mem) && a.free == old(a.free) && a.tab == old(a.tab)
  {
    hide FromPool, MapHugeSequence, UnmapHugeSequence, Suffices, HugeTables, TidyBut, Lookup, MappedHuge,
      UnmappedHuge, SameWalk, Grown, HugeOff, HugeNth, Vpn, HugeFrameAt, HugeWord, HugeVpnAt, HugeAt, HugeOf, Join,
      Addr, Present, IsHuge, IsFrame, IsFlags, P3, Tables;
    ghost var m, t, h0 := a.mem, a.tab, Vpn(vaddr) / 512;
    HugeAligned(paddr);
    forall v | 0 <= v < PAGES && HugeOff(v, h0) < n ensures P3(v) !in t { NoTableThere(m, t, a.pml4t, h0, n, v); }
    ok := a.MapHugePages(paddr, vaddr, flags, n);
    if !ok { return; }
    ghost var m1, t1 := a.mem, a.tab;
    forall i: nat | i < n
      ensures HugeAt(Lookup(m1, a.pml4t, HugeVpnAt(vaddr, i)), HugeWord(paddr, i)) && P3(HugeVpnAt(vaddr, i)) !in t1
    {
      var v := HugeVpnAt(vaddr, i);
      HugeFits(paddr, i, n);
      HugeAddresses(vaddr, i);
      HugeOffNext(v, h0, i);
      HugeFrameIsFrame(paddr, i, n);
      JoinParts(HugeFrameAt(paddr, i), flags);
      MappedHugeAt(m, m1, a.pml4t, paddr, h0, flags, n, v);
      HugeLeaf(m1, t1, a.pml4t, v, Join(HugeFrameAt(paddr, i), flags));
    }
    ok := a.UnmapHugePages(paddr, vaddr, n);
    UndoneHuge(m, m1, a.mem, a.pml4t, paddr, h0, flags, n);
    TidyUnique(m, t, a.mem, a.tab, t1, a.pml4t);
    SameFree(m, old(a.free), a.free);
  }

  lemma {:induction false} HugeAligned(p: nat)
    requires p % 0x20_0000 == 0
    ensures p % 0x1000 == 0
  {
    var q := p / 0x20_0000;
    assert p == q * 0x20_0000 == (q * 512) * 0x1000;
    Quotient12(p, q * 512, 0);
  }

  /** `unmap_pages` of a huge range and a sequence of `unmap_huge_page` calls. */
  method UnmapHugeOneByOne(a: Mmu, b: Mmu, paddr: nat, vaddr: nat, n: nat) returns (okRange: bool, okPages: bool)
    requires a != b && a.Valid() && b.Valid() && vaddr < WORD && n <= HUGE_PAGES
    requires a.pml4t == b.pml4t && a.State() == b.State()
    modifies a, b
    ensures okRange == okPages && a.State() == b.State()
    ensures okRange ==> a.Valid() && b.Valid()
  {
    hide Sound, FromPool, UnmapHugeOnce, HugeVpnAt, HugeWord, Lookup, HugeAt, AllHugeAt, UnmappedHuge, StoredHuge,
      TidyBut, Shrunk, KeepsLowest, NoTableBelow, P3, Vpn;
    ghost var goal := UnmapHugeSequence(b.State(), b.pml4t, paddr, vaddr, 0, n);
    okRange := a.UnmapHugePages(paddr, vaddr, n);
    okPages := true;
    var i: nat := 0;
    while i < n
      invariant i <= n && b.Valid() && UnmapHugeSequence(b.State(), b.pml4t, paddr, vaddr, i, n) == goal
      modifies b
    {
      okPages := b.UnmapHugePage(HugeVpnAt(vaddr, i), HugeWord(paddr, i));
      if !okPages { return; }
      i := i + 1;
    }
  }

  /** The cached walk of the huge branch of `map_pages` against a sequence of `map_huge_page` calls, each of which walks
      from the root: both panic in the same cases, and leave the same tables, entry by entry, and the same free frames,
      whatever the rule by which the pool hands out frames. */
  method MapHugeOneByOne(a: Mmu, b: Mmu, paddr: nat, vaddr: nat, flags: nat, n: nat)
    returns (okRange: bool, okPages: bool)
    requires a != b && a.Valid() && b.Valid()
    requires a.pml4t == b.pml4t && a.pick == b.pick && a.State() == b.State()
    requires IsFlags(flags) && IsHuge(flags) && vaddr < WORD && n <= HUGE_PAGES
    requires paddr % 0x1000 == 0 && HugeFrameAt(paddr, n) <= PHYS_LIMIT
    requires forall v :: 0 <= v < PAGES && HugeOff(v, Vpn(vaddr) / 512) < n ==> P3(v) !in a.tab
    modifies a, b
    ensures okRange == okPages && a.State() == b.State() && a.Valid() && b.Valid()
  {
    hide Suffices, HugeTables, Entered, TidyBut, Lookup, MappedHuge, SameWalk, Vpn, HugeFrameAt, Sound, HugeOff,
      MapHugeSequence, FromPool;
    okRange := a.MapHugePages(paddr, vaddr, flags, n);
    okPages := MapHugeEach(b, paddr, vaddr, flags, n);
  }

  /** A sequence of `map_huge_page` calls. */
  method MapHugeEach(b: Mmu, paddr: nat, vaddr: nat, flags: nat, n: nat) returns (ok: bool)
    requires b.Valid() && vaddr < WORD && n <= HUGE_PAGES && IsFlags(flags) && IsHuge(flags)
    requires paddr % 0x1000 == 0 && HugeFrameAt(paddr, n) <= PHYS_LIMIT
    requires forall v :: 0 <= v < PAGES && HugeOff(v, Vpn(vaddr) / 512) < n ==> P3(v) !in b.tab
    modifies b
    ensures b.Valid() && Outcome(b.State(), ok) == MapHugeSequence(old(b.State()), b.pick, paddr, vaddr, flags, n)
  {
    hide Suffices, Path2, Entered, Stuck, Lookup, Sound, StoredHuge, HugeNth, HugeAdvance, Vpn, HugeFrameAt, HugeOff,
      Join, IsFrame, Cached, OnlyDirectories, FromPool, MapHugeOnce, MapHugeSequence;
    ghost var t0, h0 := b.tab, Vpn(vaddr) / 512;
    ghost var goal := MapHugeSequence(b.State(), b.pick, paddr, vaddr, flags, n);
    MappedHugeNone(b.mem, t0, b.pml4t, paddr, h0, flags);
    OnlyDirectoriesSelf(t0);
    var va: nat, pa: nat, i: nat := vaddr, paddr, 0;
    while i < n
      invariant i <= n && b.Valid() && va < WORD && Vpn(va) / 512 == HugeNth(h0, i) && pa == HugeFrameAt(paddr, i)
      invariant OnlyDirectories(t0, b.tab) && MapHugeSequence(b.State(), b.pick, pa, va, flags, n - i) == goal
    {
      var v := Vpn(va);
      ghost var t := b.tab;
      HugeOffNext(v, h0, i);
      NoNewThird(t0, t, v);
      HugeFrameIsFrame(paddr, i, n);
      MapHugeNext(b.State(), b.pick, pa, va, flags, n - i);
      var done := b.MapOneHugePage(pa, va, flags);
      if !done { return false; }
      OnlyDirectoriesNext(t0, t, b.tab, v);
      NextHugePage(va, h0, i);
      va, pa, i := HugeAdvance(va), pa + HUGE_PAGE_SIZE, i + 1;
    }
    MapHugeDone(b.State(), b.pick, pa, va, flags, n - i);
    return true;
  }
}
