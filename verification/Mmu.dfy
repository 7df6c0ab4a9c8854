/** mmu.c: mapping and unmapping pages in the tables of one address space. */
module Mmu {
  import opened Common
  import opened Words
  import opened Pte
  import opened PageTable

  const NO_INDEX: nat := WORD - 1

  /** How many pages after `v0` the page `v` comes, in the circular space of page numbers. */
  function Off(v: nat, v0: nat): nat { (v - v0) % PAGES }

  /** The page `i` pages after `v0`. */
  function Nth(v0: nat, i: nat): (v: nat) ensures v < PAGES { (v0 + i) % PAGES }

  lemma {:induction false} OffNext(v: nat, v0: nat, count: nat)
    requires v < PAGES && v0 < PAGES && count < PAGES
    ensures Off(v, v0) == count <==> v == Nth(v0, count)
  {
  }

  /** The frame of the page `i` pages after the one holding `paddr`. */
  function FrameAt(paddr: nat, i: nat): nat { paddr / 0x1000 * 0x1000 + i * 0x1000 }

  /** The same in 64-bit arithmetic, as `unmap_pages` compares it. */
  function FrameWord(paddr: nat, i: nat): nat { Word(FrameAt(paddr, i)) }

  /** A sum cut to 64 bits. */
  function Word(x: nat): nat { if x < 0x1_0000_0000_0000_0000 then x else x % 0x1_0000_0000_0000_0000 }

  /** The first of them is `paddr & ~(PAGE_SIZE - 1)`, and each is aligned and holds its address. */
  lemma {:induction false} FramesExact(paddr: nat, i: nat)
    ensures FrameAt(paddr, 0) == BitAndNot(paddr, 0xFFF)
    ensures FrameAt(paddr, i) % 0x1000 == 0 && FrameAt(paddr, i) <= paddr + i * 0x1000 < FrameAt(paddr, i) + 0x1000
    ensures FrameWord(paddr, i) == FrameAt(paddr, i) % 0x1_0000_0000_0000_0000
  {
    hide BitAnd, BitAndNot, Pow2, Word;
    Powers();
    RoundedDown(paddr, 12, 0x1000, i);
    WordIs(FrameAt(paddr, i));
  }

  lemma {:induction false} RoundedDown(x: nat, k: nat, s: nat, i: nat)
    requires s == Pow2(k)
    ensures BitAndNot(x, s - 1) == x / s * s
    ensures (x / s * s + i * s) % s == 0 && x / s * s + i * s <= x + i * s < x / s * s + i * s + s
  {
    hide BitAnd, BitAndNot, Pow2;
    MaskLow(x, k, s);
    AndNotIs(x, s - 1);
    var q := x / s;
    assert x == s * q + x % s;
    assert x / s * s + i * s == s * (q + i);
    Quotient(s * (q + i), s, q + i, 0);
  }

  lemma {:induction false} WordIs(x: nat)
    ensures Word(x) == x % 0x1_0000_0000_0000_0000
  {
  }

  lemma {:induction false} FrameFits(paddr: nat, i: nat, n: nat)
    requires i < n && FrameAt(paddr, n) <= PHYS_LIMIT
    ensures FrameWord(paddr, i) == FrameAt(paddr, i)
  {
    hide FrameAt;
    FrameAtIsFrame(paddr, i, n);
  }

  lemma {:induction false} FrameAtIsFrame(paddr: nat, i: nat, n: nat)
    requires i < n && FrameAt(paddr, n) <= PHYS_LIMIT
    ensures IsFrame(FrameAt(paddr, i)) && FrameAt(paddr, i) + PAGE_SIZE == FrameAt(paddr, i + 1)
  {
    var q := paddr / 0x1000 + i;
    Quotient12(FrameAt(paddr, i), q, 0);
  }

  /** Exactly the `n` pages from `v0` on are mapped anew, to consecutive frames. */
  ghost predicate MappedSmall(m: Mem, m': Mem, root: nat, paddr: nat, v0: nat, flags: nat, n: nat)
  {
    forall v :: 0 <= v < PAGES ==>
      Lookup(m', root, v) ==
      (if Off(v, v0) < n then SmallOf(Join(FrameAt(paddr, Off(v, v0)), flags)) else Lookup(m, root, v))
  }

  /** Exactly the page `v` is given a new leaf entry. */
  ghost predicate StoredSmall(m: Mem, m': Mem, root: nat, v: nat, e: nat)
  {
    forall u :: 0 <= u < PAGES ==>
      Lookup(m', root, u) == (if u == v then SmallOf(e) else Lookup(m, root, u))
  }

  lemma {:induction false} MappedNone(m: Mem, tab: Tab, root: nat, paddr: nat, v0: nat, flags: nat)
    requires v0 < PAGES
    ensures MappedSmall(m, m, root, paddr, v0, flags, 0) && Nth(v0, 0) == v0
    ensures Cached(tab, NO_INDEX, NO_INDEX, NO_INDEX, 0, 0, 0)
  {
  }

  lemma {:induction false} MappedSmallNext(m: Mem, m1: Mem, m2: Mem, root: nat, paddr: nat, v0: nat, flags: nat,
                                           n: nat, v: nat)
    requires MappedSmall(m, m1, root, paddr, v0, flags, n) && v0 < PAGES && n < PAGES
    requires v == Nth(v0, n) && StoredSmall(m1, m2, root, v, Join(FrameAt(paddr, n), flags))
    ensures MappedSmall(m, m2, root, paddr, v0, flags, n + 1)
  {
    forall u | 0 <= u < PAGES
      ensures Lookup(m2, root, u) ==
              (if Off(u, v0) < n + 1 then SmallOf(Join(FrameAt(paddr, Off(u, v0)), flags)) else Lookup(m, root, u))
    {
      OffNext(u, v0, n);
    }
  }

  lemma {:induction false} StillUnmapped(m: Mem, m1: Mem, root: nat, paddr: nat, v0: nat, flags: nat, n: nat, v: nat)
    requires MappedSmall(m, m1, root, paddr, v0, flags, n) && v0 < PAGES && n < PAGES
    requires v == Nth(v0, n)
    ensures Off(v, v0) == n && Lookup(m1, root, v) == Lookup(m, root, v)
  {
    OffNext(v, v0, n);
  }

  /** `va += PAGE_SIZE` on 64-bit words. */
  function Advance(va: nat): (r: nat) ensures r < WORD { (va + PAGE_SIZE) % WORD }

  lemma {:induction false} NextPage(va: nat, v0: nat, count: nat)
    requires va < WORD && v0 < PAGES && Vpn(va) == Nth(v0, count)
    ensures Vpn(Advance(va)) == Nth(v0, count + 1)
  {
    hide Vpn;
    NextVpn(va);
    ModNext(v0 + count);
  }

  lemma {:induction false} ModNext(x: nat)
    ensures (x % PAGES + 1) % PAGES == (x + 1) % PAGES
  {
    var q, r := x / PAGES, x % PAGES;
    assert x == q * PAGES + r;
    if r + 1 < PAGES {
      assert x + 1 == q * PAGES + (r + 1);
    } else {
      assert x + 1 == (q + 1) * PAGES;
    }
  }

  lemma {:induction false} NotHuge(m: Mem, free: set<nat>, t: Tab, root: nat, v: nat)
    requires Sound(m, free, t, root) && v < PAGES && P2(v) in t && !Lookup(m, root, v).Huge?
    ensures P3(v) in t || !Present(Entry(m, t[P2(v)], I2(v)))
  {
    WalkFollowsTab(m, t, root, v);
    Step(m, t, P2(v), I2(v));
  }

  lemma {:induction false} RootIn(m: Mem, free: set<nat>, t: Tab, root: nat)
    requires Sound(m, free, t, root)
    ensures Root in t && t[Root] == root
  {
  }

  /** Tables are removed from the tree but none is moved or added. */
  ghost predicate Shrunk(t: Tab, t': Tab) { Grown(t', t) }

  lemma {:induction false} FreeTableEffect(m: Mem, free: set<nat>, t: Tab, root: nat, w: Where, i: nat)
    requires Sound(m, free, t, root) && w in t && i < 512 && Child(w, i) in t && Empty(m[t[Child(w, i)]])
    ensures |m[t[w]]| == 512
    ensures var g := t[Child(w, i)];
            var m', t' := Put(m, t[w], i, 0) - {g}, t - {Child(w, i)};
            && Sound(m', free + {g}, t', root) && SameWalk(m', m, root) && Shrunk(t, t')
            && free + {g} + m'.Keys == free + m.Keys
            && (TidyBut(Read(m, t), t, Child(w, i)) ==> TidyBut(Read(m', t'), t', w))
  {
    DropTableEffect(m, t, root, w, i);
  }

  /** No page table of the lowest level is added. */
  ghost predicate OnlyDirectories(t: Tab, t': Tab)
  {
    forall u :: u in t' && u !in t ==> Level(u) < 3
  }

  lemma {:induction false} NoNewThird(t: Tab, t': Tab, v: nat)
    requires OnlyDirectories(t, t') && v < PAGES && P3(v) !in t
    ensures P3(v) !in t'
  {
    Levels(v);
  }

  lemma {:induction false} OnlyDirectoriesSelf(t: Tab)
    ensures OnlyDirectories(t, t)
  {
  }

  lemma {:induction false} OnlyDirectoriesNext(t: Tab, t1: Tab, t2: Tab, v: nat)
    requires OnlyDirectories(t, t1) && v < PAGES && Entered(t1, t2, Path2(v))
    ensures OnlyDirectories(t, t2)
  {
    Levels(v);
  }

  /** A page that `unmap_pages` accepts: not mapped at all, or mapped to the expected frame. */
  predicate SmallAt(l: Leaf, frame: nat) { l.Unmapped? || (l.Small? && Addr(l.entry) == frame) }

  predicate HugeAt(l: Leaf, frame: nat) { l.Unmapped? || (l.Huge? && Addr(l.entry) == frame) }

  /** Exactly the `n` pages from `v0` on are unmapped. */
  ghost predicate UnmappedSmall(m: Mem, m': Mem, root: nat, v0: nat, n: nat)
  {
    forall v :: 0 <= v < PAGES ==>
      Lookup(m', root, v) == (if Off(v, v0) < n then Unmapped else Lookup(m, root, v))
  }

  ghost predicate UnmappedHuge(m: Mem, m': Mem, root: nat, h0: nat, n: nat)
  {
    forall v :: 0 <= v < PAGES ==>
      Lookup(m', root, v) == (if HugeOff(v, h0) < n then Unmapped else Lookup(m, root, v))
  }

  /** What the walk reads on the way to the entry of page `v`. */
  lemma {:induction false} WalkSteps(m: Mem, free: set<nat>, t: Tab, root: nat, v: nat)
    requires Sound(m, free, t, root) && v < PAGES
    ensures var e4 := Entry(m, root, I4(v));
            if !Present(e4) then Lookup(m, root, v).Unmapped? && P3(v) !in t else
            var e3 := Entry(m, Addr(e4), I3(v));
            P1(v) in t && t[P1(v)] == Addr(e4) &&
            if !Present(e3) then Lookup(m, root, v).Unmapped? && P3(v) !in t else
            var e2 := Entry(m, Addr(e3), I2(v));
            P2(v) in t && t[P2(v)] == Addr(e3) &&
            if !Present(e2) then Lookup(m, root, v).Unmapped? && P3(v) !in t else
            if IsHuge(e2) then Lookup(m, root, v) == Huge(e2) && P3(v) !in t else
            P3(v) in t && t[P3(v)] == Addr(e2) && Lookup(m, root, v) == SmallOf(Entry(m, Addr(e2), I1(v)))
  {
    Prefix(Read(m, t), t, v);
    Step(m, t, Root, I4(v));
    if P1(v) in t {
      Step(m, t, P1(v), I3(v));
      if P2(v) in t {
        Step(m, t, P2(v), I2(v));
      }
    }
  }

  /** `vaddr + i * PAGE_SIZE` on 64-bit words. */
  function AddrAt(va: nat, i: nat): (r: nat) ensures r < WORD { (va + i * 0x1000) % 0x1_0000_0000_0000_0000 }

  lemma {:induction false} AddrAtNext(va: nat, i: nat)
    requires Vpn(AddrAt(va, i)) == Nth(Vpn(va), i)
    ensures Vpn(AddrAt(va, i + 1)) == Nth(Vpn(va), i + 1)
  {
    WordStep(va + i * 0x1000, 0x1000);
    assert AddrAt(va, i + 1) == Advance(AddrAt(va, i));
    NextPage(AddrAt(va, i), Vpn(va), i);
  }

  lemma {:induction false} WordStep(x: nat, d: nat)
    ensures (x + d) % 0x1_0000_0000_0000_0000 == (x % 0x1_0000_0000_0000_0000 + d) % 0x1_0000_0000_0000_0000
  {
  }

  lemma {:induction false} UnmappedNone(m: Mem, root: nat, va: nat)
    requires va < WORD
    ensures UnmappedSmall(m, m, root, Vpn(va), 0) && Vpn(AddrAt(va, 0)) == Nth(Vpn(va), 0)
    ensures UnmappedHuge(m, m, root, Vpn(va) / 512, 0)
    ensures HugeAddrAt(va, 0) == va && Vpn(va) / 512 == HugeNth(Vpn(va) / 512, 0)
  {
    HugeVpn(va);
  }

  lemma {:induction false} UnmappedNext(m: Mem, m1: Mem, m2: Mem, root: nat, v0: nat, n: nat)
    requires UnmappedSmall(m, m1, root, v0, n) && v0 < PAGES && n < PAGES
    ensures Lookup(m1, root, Nth(v0, n)) == Lookup(m, root, Nth(v0, n))
    ensures StoredSmall(m1, m2, root, Nth(v0, n), 0) ==> UnmappedSmall(m, m2, root, v0, n + 1)
  {
    OffNext(Nth(v0, n), v0, n);
    if StoredSmall(m1, m2, root, Nth(v0, n), 0) {
      forall u | 0 <= u < PAGES
        ensures Lookup(m2, root, u) == (if Off(u, v0) < n + 1 then Unmapped else Lookup(m, root, u))
      {
        OffNext(u, v0, n);
      }
    }
  }

  /** Every one of the `n` pages is unmapped already or mapped where the caller says. */
  ghost predicate AllSmallAt(m: Mem, root: nat, paddr: nat, v0: nat, n: nat)
  {
    forall i :: 0 <= i < n ==> SmallAt(Lookup(m, root, Nth(v0, i)), FrameWord(paddr, i))
  }

  lemma {:induction false} AllSmallAtNext(m: Mem, root: nat, paddr: nat, v0: nat, i: nat, n: nat)
    requires i < n
    ensures AllSmallAt(m, root, paddr, v0, 0)
    ensures AllSmallAt(m, root, paddr, v0, i) && SmallAt(Lookup(m, root, Nth(v0, i)), FrameWord(paddr, i)) ==>
              AllSmallAt(m, root, paddr, v0, i + 1)
    ensures !SmallAt(Lookup(m, root, Nth(v0, i)), FrameWord(paddr, i)) ==> !AllSmallAt(m, root, paddr, v0, n)
  {
  }

  // ----- The same for 2 MiB pages

  function HugeAddrAt(va: nat, i: nat): (r: nat) ensures r < WORD
  {
    (va + i * 0x20_0000) % 0x1_0000_0000_0000_0000
  }

  lemma {:induction false} HugeAddrAtNext(va: nat, i: nat)
    requires va < WORD && Vpn(HugeAddrAt(va, i)) / 512 == HugeNth(Vpn(va) / 512, i)
    ensures Vpn(HugeAddrAt(va, i + 1)) / 512 == HugeNth(Vpn(va) / 512, i + 1)
  {
    WordStep(va + i * 0x20_0000, 0x20_0000);
    assert HugeAddrAt(va, i + 1) == HugeAdvance(HugeAddrAt(va, i));
    HugeVpn(va);
    NextHugePage(HugeAddrAt(va, i), Vpn(va) / 512, i);
  }

  lemma {:induction false} UnmappedHugeNext(m: Mem, m1: Mem, m2: Mem, root: nat, h0: nat, n: nat, v: nat)
    requires UnmappedHuge(m, m1, root, h0, n) && h0 < HUGE_PAGES && n < HUGE_PAGES
    requires v < PAGES && v / 512 == HugeNth(h0, n)
    ensures Lookup(m1, root, v) == Lookup(m, root, v)
    ensures StoredHuge(m1, m2, root, v / 512, 0) ==> UnmappedHuge(m, m2, root, h0, n + 1)
  {
    HugeOffNext(v, h0, n);
    if StoredHuge(m1, m2, root, v / 512, 0) {
      forall u | 0 <= u < PAGES
        ensures Lookup(m2, root, u) == (if HugeOff(u, h0) < n + 1 then Unmapped else Lookup(m, root, u))
      {
        HugeOffNext(u, h0, n);
      }
    }
  }

  /** Base of the 2 MiB frame holding `paddr`, and those after it. */
  function HugeBaseAt(paddr: nat, i: nat): nat { paddr / 0x20_0000 * 0x20_0000 + i * 0x20_0000 }

  /** Page number of the `i`-th huge page's part that `vaddr` points into. */
  function HugeVpnAt(va: nat, i: nat): (v: nat) ensures v < PAGES { Vpn(HugeAddrAt(va, i)) }

  function HugeWord(paddr: nat, i: nat): nat { Word(HugeBaseAt(paddr, i)) }

  /** The first of them is `paddr & ~(HUGE_PAGE_SIZE - 1)`, and each is aligned and holds its address. */
  lemma {:induction false} HugeFramesExact(paddr: nat, i: nat)
    ensures HugeBaseAt(paddr, 0) == BitAndNot(paddr, 0x1F_FFFF)
    ensures HugeBaseAt(paddr, i) % 0x20_0000 == 0
    ensures HugeBaseAt(paddr, i) <= paddr + i * 0x20_0000 < HugeBaseAt(paddr, i) + 0x20_0000
    ensures HugeWord(paddr, i) == HugeBaseAt(paddr, i) % 0x1_0000_0000_0000_0000
    ensures HugeFrameAt(paddr, i) == paddr + i * 0x20_0000
  {
    hide BitAnd, BitAndNot, Pow2, Word;
    Powers();
    RoundedDown(paddr, 21, 0x20_0000, i);
    WordIs(HugeBaseAt(paddr, i));
  }

  ghost predicate AllHugeAt(m: Mem, root: nat, paddr: nat, va: nat, n: nat)
  {
    forall i :: 0 <= i < n ==> HugeAt(Lookup(m, root, HugeVpnAt(va, i)), HugeWord(paddr, i))
  }

  lemma {:induction false} AllHugeAtNext(m: Mem, root: nat, paddr: nat, va: nat, i: nat, n: nat)
    requires i < n
    ensures AllHugeAt(m, root, paddr, va, 0)
    ensures AllHugeAt(m, root, paddr, va, i) && HugeAt(Lookup(m, root, HugeVpnAt(va, i)), HugeWord(paddr, i)) ==>
              AllHugeAt(m, root, paddr, va, i + 1)
    ensures !HugeAt(Lookup(m, root, HugeVpnAt(va, i)), HugeWord(paddr, i)) ==> !AllHugeAt(m, root, paddr, va, n)
  {
  }

  /** No page table hangs below the first `n` page directory entries from `va` on. */
  ghost predicate NoTableBelow(t: Tab, va: nat, n: nat)
  {
    forall i: nat :: i < n ==> P3(HugeVpnAt(va, i)) !in t
  }

  lemma {:induction false} NoTableNext(t: Tab, va: nat, i: nat, n: nat)
    requires i < n
    ensures NoTableBelow(t, va, i) && P3(HugeVpnAt(va, i)) !in t ==> NoTableBelow(t, va, i + 1)
    ensures P3(HugeVpnAt(va, i)) in t ==> !NoTableBelow(t, va, n)
  {
    hide HugeVpnAt, P3;
  }

  /** Page tables at the lowest level are not dropped. */
  ghost predicate KeepsLowest(t: Tab, t': Tab) { forall w :: w in t && Level(w) == 3 ==> w in t' }

  lemma {:induction false} LowestStays(t: Tab, t': Tab, v: nat)
    requires v < PAGES && KeepsLowest(t, t') && Shrunk(t, t')
    ensures P3(v) in t <==> P3(v) in t'
  {
    Levels(v);
  }

  function HugeOff(v: nat, h0: nat): nat { (v / 512 - h0) % HUGE_PAGES }

  function HugeNth(h0: nat, i: nat): (h: nat) ensures h < HUGE_PAGES { (h0 + i) % HUGE_PAGES }

  function HugeFrameAt(paddr: nat, i: nat): nat { paddr + i * 0x20_0000 }

  ghost predicate MappedHuge(m: Mem, m': Mem, root: nat, paddr: nat, h0: nat, flags: nat, n: nat)
  {
    forall v :: 0 <= v < PAGES ==>
      Lookup(m', root, v) ==
      (if HugeOff(v, h0) < n then HugeOf(Join(HugeFrameAt(paddr, HugeOff(v, h0)), flags)) else Lookup(m, root, v))
  }

  ghost predicate StoredHuge(m: Mem, m': Mem, root: nat, h: nat, e: nat)
  {
    forall u :: 0 <= u < PAGES ==>
      Lookup(m', root, u) == (if u / 512 == h then HugeOf(e) else Lookup(m, root, u))
  }

  lemma {:induction false} HugeOffNext(v: nat, h0: nat, count: nat)
    requires v < PAGES && h0 < HUGE_PAGES && count < HUGE_PAGES
    ensures HugeOff(v, h0) == count <==> v / 512 == HugeNth(h0, count)
  {
  }

  lemma {:induction false} MappedHugeNone(m: Mem, tab: Tab, root: nat, paddr: nat, h0: nat, flags: nat)
    requires h0 < HUGE_PAGES
    ensures MappedHuge(m, m, root, paddr, h0, flags, 0) && HugeNth(h0, 0) == h0 && HugeFrameAt(paddr, 0) == paddr
    ensures Cached(tab, NO_INDEX, NO_INDEX, NO_INDEX, 0, 0, 0)
  {
  }

  lemma {:induction false} MappedHugeNext(m: Mem, m1: Mem, m2: Mem, root: nat, paddr: nat, h0: nat, flags: nat, n: nat)
    requires MappedHuge(m, m1, root, paddr, h0, flags, n) && h0 < HUGE_PAGES && n < HUGE_PAGES
    requires StoredHuge(m1, m2, root, HugeNth(h0, n), Join(HugeFrameAt(paddr, n), flags))
    ensures MappedHuge(m, m2, root, paddr, h0, flags, n + 1)
  {
    forall u | 0 <= u < PAGES
      ensures Lookup(m2, root, u) ==
              (if HugeOff(u, h0) < n + 1 then HugeOf(Join(HugeFrameAt(paddr, HugeOff(u, h0)), flags))
               else Lookup(m, root, u))
    {
      HugeOffNext(u, h0, n);
    }
  }

  lemma {:induction false} WholeHuge(p: nat)
    requires p % 0x20_0000 == 0
    ensures p / 0x20_0000 * 0x20_0000 == p
  {
  }

  lemma {:induction false} HugeFits(paddr: nat, i: nat, n: nat)
    requires i < n && paddr % 0x20_0000 == 0 && HugeFrameAt(paddr, n) <= PHYS_LIMIT
    ensures HugeWord(paddr, i) == HugeFrameAt(paddr, i)
  {
    WholeHuge(paddr);
  }

  lemma {:induction false} HugeFrameIsFrame(paddr: nat, i: nat, n: nat)
    requires i < n && HugeFrameAt(paddr, n) <= PHYS_LIMIT && paddr % 0x1000 == 0
    ensures IsFrame(HugeFrameAt(paddr, i)) && HugeFrameAt(paddr, i) + HUGE_PAGE_SIZE == HugeFrameAt(paddr, i + 1)
  {
    Quotient12(HugeFrameAt(paddr, i), paddr / 0x1000 + i * 0x200, 0);
  }

  /** `va += HUGE_PAGE_SIZE` on 64-bit words. */
  function HugeAdvance(va: nat): (r: nat) ensures r < WORD { (va + 0x20_0000) % 0x1_0000_0000_0000_0000 }

  lemma {:induction false} NextHugePage(va: nat, h0: nat, count: nat)
    requires va < WORD && h0 < HUGE_PAGES && Vpn(va) / 512 == HugeNth(h0, count)
    ensures Vpn(HugeAdvance(va)) / 512 == HugeNth(h0, count + 1)
  {
    HugeVpn(va);
    HugeVpn(HugeAdvance(va));
    HugeStep(va);
    HugeModNext(va / 0x20_0000, h0 + count);
  }

  lemma {:induction false} HugeStep(va: nat)
    requires va < WORD
    ensures HugeAdvance(va) / 0x20_0000 % 0x800_0000 == (va / 0x20_0000 + 1) % 0x800_0000
  {
    var q := va / 0x20_0000;
    if va + 0x20_0000 < WORD {
      assert HugeAdvance(va) / 0x20_0000 == q + 1;
    } else {
      assert HugeAdvance(va) == va + 0x20_0000 - 0x1_0000_0000_0000_0000;
      assert HugeAdvance(va) / 0x20_0000 == q + 1 - 0x800_0000_0000;
    }
  }

  lemma {:induction false} HugeModNext(q: nat, x: nat)
    requires q % 0x800_0000 == x % 0x800_0000
    ensures (q + 1) % 0x800_0000 == (x + 1) % 0x800_0000
  {
  }

  lemma {:induction false} HugeVpn(va: nat)
    ensures Vpn(va) / 512 == va / 0x20_0000 % HUGE_PAGES
  {
    var q := va / 0x1000;
    assert va / 0x20_0000 == q / 512;
    assert q == q / 512 * 512 + q % 512;
    assert q % PAGES / 512 == q / 512 % HUGE_PAGES;
  }

  lemma {:induction false} CommutePut(m: Mem, f: nat, i: nat, e: nat, g: nat)
    requires f in m && i < |m[f]| && g !in m
    ensures Put(m[g := Zeros()], f, i, e) == Put(m, f, i, e)[g := Zeros()]
    ensures Put(m[g := Zeros()], f, i, e).Keys == m.Keys + {g}
  {
  }

  /** The tables form a tree, and the frames not in use as tables can be handed out. */
  ghost predicate Sound(mem: Mem, free: set<nat>, tab: Tab, root: nat)
  {
    Tables(mem, tab, root) && free !! mem.Keys && forall f :: f in free ==> IsFrame(f)
  }

  lemma {:induction false} EmptyTables(root: nat)
    requires IsFrame(root)
    ensures var m, t := map[root := Zeros()], map[Root := root];
            Tables(m, t, root) && Tidy(Read(m, t), t) && forall v :: 0 <= v < PAGES ==> Lookup(m, root, v) == Unmapped
  {
    var m, t := map[root := Zeros()], map[Root := root];
    assert root in t.Values by { assert t[Root] == root; }
    assert t.Values == {root};
    var c := Read(m, t);
    assert JoinedAt(c, t, Root);
    assert Level(Root) == 0;
  }

  lemma {:induction false} NewTableEffect(m: Mem, free: set<nat>, t: Tab, root: nat, w: Where, i: nat, g: nat)
    requires Sound(m, free, t, root) && w in t && Level(w) < 3 && i < 512
    requires Child(w, i) !in t && !Present(m[t[w]][i]) && g in free
    ensures |m[t[w]]| == 512 && t[w] != g
    ensures var m', t' := Put(m[g := Zeros()], t[w], i, g + 3), t[Child(w, i) := g];
            && Sound(m', free - {g}, t', root) && SameWalk(m', m, root) && Grown(t, t')
            && free - {g} + m'.Keys == free + m.Keys
            && (TidyBut(Read(m, t), t, w) ==> TidyBut(Read(m', t'), t', Child(w, i)))
  {
    AddTableEffect(m, t, root, w, i, g);
    CommutePut(m, t[w], i, g + 3, g);
  }

  /** Tables are added to the tree but none is moved or removed. */
  ghost predicate Grown(t: Tab, t': Tab)
  {
    forall u :: u in t ==> u in t' && t'[u] == t[u]
  }

  /** The cached table pointers belong to the cached indices. */
  ghost predicate Cached(tab: Tab, i4: nat, i3: nat, i2: nat, pdpt: nat, pd: nat, pt: nat)
  {
    var w1 := Child(Root, i4);
    var w2 := Child(w1, i3);
    var w3 := Child(w2, i2);
    && (i4 != NO_INDEX ==> w1 in tab && tab[w1] == pdpt)
    && (i3 != NO_INDEX ==> i4 != NO_INDEX && w2 in tab && tab[w2] == pd)
    && (i2 != NO_INDEX ==> i3 != NO_INDEX && w3 in tab && tab[w3] == pt)
  }

  lemma {:induction false} NothingCached(t: Tab)
    ensures Cached(t, NO_INDEX, NO_INDEX, NO_INDEX, 0, 0, 0)
  {
  }

  // ----- Counting frames

  /** The tables between the root and a 4 KiB page, and between the root and a 2 MiB page. */
  ghost function Path3(v: nat): set<Where> requires v < PAGES { {P1(v), P2(v), P3(v)} }

  ghost function Path2(v: nat): set<Where> requires v < PAGES { {P1(v), P2(v)} }

  /** The tables that `n` 4 KiB pages from page `v0` on need. */
  ghost function SmallTables(v0: nat, n: nat): set<Where> { set i: nat, w | i < n && w in Path3(Nth(v0, i)) :: w }

  /** The tables that `n` 2 MiB pages from the `h0`-th on need. */
  ghost function HugeTables(h0: nat, n: nat): set<Where>
  {
    set i: nat, w | i < n && w in Path2(HugeNth(h0, i) * 512) :: w
  }

  lemma {:induction false} SmallTablesNext(v0: nat, n: nat)
    ensures SmallTables(v0, n + 1) == SmallTables(v0, n) + Path3(Nth(v0, n))
  {
    hide Path3, Nth;
  }

  lemma {:induction false} HugeTablesNext(h0: nat, n: nat, v: nat)
    requires v < PAGES && v / 512 == HugeNth(h0, n)
    ensures HugeTables(h0, n + 1) == HugeTables(h0, n) + Path2(v)
  {
    hide HugeNth;
    SameDirectory(v, HugeNth(h0, n) * 512);
    assert HugeTables(h0, n + 1) == HugeTables(h0, n) + Path2(HugeNth(h0, n) * 512) by { HugeTablesUnion(h0, n); }
  }

  lemma {:induction false} HugeTablesUnion(h0: nat, n: nat)
    ensures HugeTables(h0, n + 1) == HugeTables(h0, n) + Path2(HugeNth(h0, n) * 512)
  {
    hide Path2, HugeNth;
  }

  lemma {:induction false} NothingEntered(t: Tab, v0: nat)
    ensures Entered(t, t, SmallTables(v0, 0)) && Entered(t, t, HugeTables(v0, 0))
  {
    assert SmallTables(v0, 0) == {} && HugeTables(v0, 0) == {};
  }

  lemma {:induction false} SmallTablesGrow(v0: nat, n: nat, k: nat)
    requires n <= k
    ensures SmallTables(v0, n) <= SmallTables(v0, k)
  {
    hide Path3, Nth;
  }

  lemma {:induction false} HugeTablesGrow(h0: nat, n: nat, k: nat)
    requires n <= k
    ensures HugeTables(h0, n) <= HugeTables(h0, k)
  {
    hide Path2, HugeNth;
  }

  /** The mapping stopped after some of the `n` pages. */
  ghost predicate PartlySmall(m: Mem, m': Mem, root: nat, paddr: nat, v0: nat, flags: nat, n: nat)
  {
    exists i: nat :: i < n && MappedSmall(m, m', root, paddr, v0, flags, i)
  }

  ghost predicate PartlyHuge(m: Mem, m': Mem, root: nat, paddr: nat, h0: nat, flags: nat, n: nat)
  {
    exists i: nat :: i < n && MappedHuge(m, m', root, paddr, h0, flags, i)
  }

  lemma {:induction false} MappedSame(m: Mem, m1: Mem, m2: Mem, root: nat, paddr: nat, v0: nat, flags: nat, n: nat)
    requires MappedSmall(m, m1, root, paddr, v0, flags, n) && SameWalk(m2, m1, root)
    ensures MappedSmall(m, m2, root, paddr, v0, flags, n)
    ensures forall k :: n < k ==> PartlySmall(m, m2, root, paddr, v0, flags, k)
  {
  }

  lemma {:induction false} MappedHugeSame(m: Mem, m1: Mem, m2: Mem, root: nat, paddr: nat, h0: nat, flags: nat, n: nat)
    requires MappedHuge(m, m1, root, paddr, h0, flags, n) && SameWalk(m2, m1, root)
    ensures MappedHuge(m, m2, root, paddr, h0, flags, n)
    ensures forall k :: n < k ==> PartlyHuge(m, m2, root, paddr, h0, flags, k)
  {
  }

  lemma {:induction false} SameDirectory(v: nat, u: nat)
    requires v < PAGES && u < PAGES && v / 512 == u / 512
    ensures Path2(v) == Path2(u)
  {
    assert v / 0x4_0000 == v / 512 / 512 == u / 512 / 512 == u / 0x4_0000;
    assert v / 0x800_0000 == v / 512 / 512 / 512 == u / 512 / 512 / 512 == u / 0x800_0000;
  }

  /** An injective map has as many values as keys. */
  lemma {:induction false} TableCount(t: Tab)
    requires forall w, u :: w in t && u in t && t[w] == t[u] ==> w == u
    ensures |t.Values| == |t.Keys|
    decreases |t|
  {
    if t.Keys == {} {
      assert t.Values == {};
    } else {
      var w :| w in t;
      var r := t - {w};
      assert r.Keys == t.Keys - {w};
      assert |r| == |r.Keys| && |t| == |t.Keys|;
      TableCount(r);
      forall f | f in t.Values ensures f in r.Values + {t[w]} {
        var u :| u in t && t[u] == f;
        if u != w { assert r[u] == f; }
      }
      forall f | f in r.Values ensures f in t.Values && f != t[w] {
        var u :| u in r && r[u] == f;
        assert t[u] == f;
      }
      assert t[w] in t.Values;
      assert t.Values == r.Values + {t[w]};
    }
  }

  lemma {:induction false} FrameCount(m: Mem, f: set<nat>, t: Tab, root: nat)
    requires Sound(m, f, t, root)
    ensures |f + m.Keys| == |f| + |t.Keys|
  {
    TableCount(t);
  }

  lemma {:induction false} Difference<T>(a: set<T>, b: set<T>)
    requires a <= b
    ensures |b| == |a| + |b - a|
  {
    assert b == a + (b - a);
  }

  /** The pool has a frame for every table of `need` that is missing. */
  ghost predicate Suffices(free: set<nat>, t: Tab, need: set<Where>) { |need - t.Keys| <= |free| }

  /** Exactly the tables on `path` were added where they were missing. */
  ghost predicate Entered(t: Tab, t': Tab, path: set<Where>) { t'.Keys == t.Keys + path }

  /** Only tables on `path` were added, and some table on it is still missing. */
  ghost predicate Stuck(t: Tab, t': Tab, path: set<Where>)
  {
    t.Keys <= t'.Keys <= t.Keys + path && exists w :: w in path && w !in t'
  }

  lemma {:induction false} EnoughFrames(m: Mem, f: set<nat>, t: Tab, m': Mem, f': set<nat>, t': Tab, root: nat,
                                        need: set<Where>)
    requires Sound(m, f, t, root) && Sound(m', f', t', root) && f + m.Keys == f' + m'.Keys && Entered(t, t', need)
    ensures |f| == |f'| + |need - t.Keys| && Suffices(f, t, need)
  {
    hide Sound;
    FrameCount(m, f, t, root);
    FrameCount(m', f', t', root);
    Difference(t.Keys, t'.Keys);
    assert t'.Keys - t.Keys == need - t.Keys;
  }

  lemma {:induction false} TooFewFrames(m: Mem, f: set<nat>, t: Tab, m': Mem, f': set<nat>, t': Tab, root: nat,
                                        need: set<Where>)
    requires Sound(m, f, t, root) && Sound(m', f', t', root) && f + m.Keys == f' + m'.Keys && Stuck(t, t', need)
    requires f' == {}
    ensures !Suffices(f, t, need)
  {
    hide Sound;
    FrameCount(m, f, t, root);
    FrameCount(m', f', t', root);
    Difference(t.Keys, t'.Keys);
    var w :| w in need && w !in t';
    More(t'.Keys - t.Keys, w, need - t.Keys);
  }

  lemma {:induction false} More<T>(a: set<T>, w: T, b: set<T>)
    requires a <= b && w in b && w !in a
    ensures |a| < |b|
  {
    Difference(a + {w}, b);
  }

  lemma {:induction false} ThirdLevel(t0: Tab, t1: Tab, t2: Tab, v: nat)
    requires v < PAGES
    ensures Stuck(t0, t1, Path2(v)) ==> Stuck(t0, t1, Path3(v))
    ensures Entered(t0, t1, Path2(v)) && t2.Keys == t1.Keys + {P3(v)} ==> Entered(t0, t2, Path3(v))
    ensures Entered(t0, t1, Path2(v)) && P3(v) !in t1 ==> Stuck(t0, t1, Path3(v))
  {
    hide P1, P2, P3;
  }

  /** One more page of a range: the tables so far, or too few frames for the whole range. */
  lemma {:induction false} EnteredNext(t0: Tab, t: Tab, t': Tab, done: set<Where>, path: set<Where>, need: set<Where>)
    requires Entered(t0, t, done) && done + path <= need
    ensures Entered(t, t', path) ==> Entered(t0, t', done + path)
    ensures Stuck(t, t', path) ==> Stuck(t0, t', need)
  {
  }

  /** An entry of a table that the walk has reached. */
  lemma {:induction false} EntryThere(m: Mem, free: set<nat>, t: Tab, root: nat, w: Where, i: nat)
    requires Sound(m, free, t, root) && w in t && i < 512
    ensures t[w] in m && |m[t[w]]| == 512 && Entry(m, t[w], i) == m[t[w]][i]
    ensures Level(w) < 2 ==> Child(w, i) in t || !Present(m[t[w]][i])
    ensures Child(w, i) in t && TidyBut(Read(m, t), t, w) ==> TidyBut(Read(m, t), t, Child(w, i))
  {
    hide TidyBut;
    Step(m, t, w, i);
    TableSized(m, free, t, root, w);
    if Child(w, i) in t && TidyBut(Read(m, t), t, w) { EntryTidy(Read(m, t), t, w, i, Child(w, i)); }
  }

  // ----- The loop over 2 MiB pages

  /** The first `count` pages are mapped, with exactly the directories they need. */
  ghost predicate HugeProgress(m0: Mem, f0: set<nat>, t0: Tab, m: Mem, f: set<nat>, t: Tab, root: nat, paddr: nat,
                               h0: nat, flags: nat, count: nat)
  {
    && Grown(t0, t) && f + m.Keys == f0 + m0.Keys && MappedHuge(m0, m, root, paddr, h0, flags, count)
    && OnlyDirectories(t0, t) && Entered(t0, t, HugeTables(h0, count))
  }

  lemma {:induction false} HugeBegins(m: Mem, f: set<nat>, t: Tab, root: nat, paddr: nat, h0: nat, flags: nat)
    requires h0 < HUGE_PAGES
    ensures HugeProgress(m, f, t, m, f, t, root, paddr, h0, flags, 0) && HugeNth(h0, 0) == h0
    ensures HugeFrameAt(paddr, 0) == paddr && Cached(t, NO_INDEX, NO_INDEX, NO_INDEX, 0, 0, 0)
  {
    hide Lookup, MappedHuge, HugeTables, Cached, HugeNth, HugeFrameAt, Entered;
    MappedHugeNone(m, t, root, paddr, h0, flags);
    OnlyDirectoriesSelf(t);
    NothingEntered(t, h0);
  }

  lemma {:induction false} HugeRoom(m0: Mem, f0: set<nat>, t0: Tab, m: Mem, f: set<nat>, t: Tab, root: nat, paddr: nat,
                                    h0: nat, flags: nat, count: nat, v: nat)
    requires HugeProgress(m0, f0, t0, m, f, t, root, paddr, h0, flags, count) && v < PAGES && P3(v) !in t0
    ensures P3(v) !in t
  {
    NoNewThird(t0, t, v);
  }

  lemma {:induction false} HugeAdvances(m0: Mem, f0: set<nat>, t0: Tab, m: Mem, f: set<nat>, t: Tab, m': Mem,
                                        f': set<nat>, t': Tab, root: nat, paddr: nat, h0: nat, flags: nat, count: nat,
                                        v: nat)
    requires HugeProgress(m0, f0, t0, m, f, t, root, paddr, h0, flags, count) && h0 < HUGE_PAGES && count < HUGE_PAGES
    requires v < PAGES && v / 512 == HugeNth(h0, count) && f' + m'.Keys == f + m.Keys && Grown(t, t')
    requires Entered(t, t', Path2(v)) && StoredHuge(m, m', root, v / 512, Join(HugeFrameAt(paddr, count), flags))
    ensures HugeProgress(m0, f0, t0, m', f', t', root, paddr, h0, flags, count + 1)
  {
    hide MappedHuge, StoredHuge, HugeTables, Path2, HugeNth, HugeFrameAt, Join, OnlyDirectories;
    HugeTablesNext(h0, count, v);
    OnlyDirectoriesNext(t0, t, t', v);
    MappedHugeNext(m0, m, m', root, paddr, h0, flags, count);
  }

  lemma {:induction false} HugeFails(m0: Mem, f0: set<nat>, t0: Tab, m: Mem, f: set<nat>, t: Tab, m': Mem, f': set<nat>,
                                     t': Tab, root: nat, paddr: nat, h0: nat, flags: nat, count: nat, n: nat, v: nat)
    requires HugeProgress(m0, f0, t0, m, f, t, root, paddr, h0, flags, count) && count < n
    requires Sound(m0, f0, t0, root) && Sound(m', f', t', root) && f' + m'.Keys == f + m.Keys && Grown(t, t')
    requires v < PAGES && v / 512 == HugeNth(h0, count) && Stuck(t, t', Path2(v)) && SameWalk(m', m, root) && f' == {}
    ensures !Suffices(f0, t0, HugeTables(h0, n)) && PartlyHuge(m0, m', root, paddr, h0, flags, n) && Grown(t0, t')
    ensures f' + m'.Keys == f0 + m0.Keys
  {
    hide MappedHuge, PartlyHuge, Suffices, HugeTables, Path2, HugeNth, HugeFrameAt, Sound, SameWalk, Entered, Stuck;
    HugeTablesNext(h0, count, v);
    HugeTablesGrow(h0, count + 1, n);
    EnteredNext(t0, t, t', HugeTables(h0, count), Path2(v), HugeTables(h0, n));
    MappedHugeSame(m0, m, m', root, paddr, h0, flags, count);
    TooFewFrames(m0, f0, t0, m', f', t', root, HugeTables(h0, n));
  }

  lemma {:induction false} HugeEnds(m0: Mem, f0: set<nat>, t0: Tab, m: Mem, f: set<nat>, t: Tab, root: nat, paddr: nat,
                                    h0: nat, flags: nat, n: nat)
    requires HugeProgress(m0, f0, t0, m, f, t, root, paddr, h0, flags, n)
    requires Sound(m0, f0, t0, root) && Sound(m, f, t, root)
    ensures Suffices(f0, t0, HugeTables(h0, n)) && MappedHuge(m0, m, root, paddr, h0, flags, n)
    ensures Entered(t0, t, HugeTables(h0, n)) && Grown(t0, t) && f + m.Keys == f0 + m0.Keys
  {
    hide MappedHuge, Suffices, HugeTables, Sound, Entered;
    EnoughFrames(m0, f0, t0, m, f, t, root, HugeTables(h0, n));
  }

  // ----- The tables as one value

  /** The tables, the frames that can still be handed out, and how many were handed out. */
  datatype Store = Store(mem: Mem, free: set<nat>, tab: Tab, turn: nat)

  /** The state that a call leaves, and whether it went through without a panic. */
  datatype Outcome = Outcome(store: Store, ok: bool)

  /** Which of the free frames the pool hands out for its `turn`-th request. */
  type Rule = (set<nat>, nat) -> nat

  ghost predicate FromPool(pick: Rule) { forall s: set<nat>, turn: nat :: s != {} ==> pick(s, turn) in s }

  ghost function Write(m: Mem, f: nat, i: nat, e: nat): Mem
  {
    if f in m && i < |m[f]| then Put(m, f, i, e) else m
  }

  /** With the table below entry `i` of `w`, which is taken from the pool if it is missing and the pool is not empty. */
  ghost function WithTable(s: Store, pick: Rule, w: Where, i: nat): Store
  {
    if w !in s.tab || Child(w, i) in s.tab || s.free == {} then s else
    var g := pick(s.free, s.turn);
    Store(Write(s.mem[g := Zeros()], s.tab[w], i, g + 3), s.free - {g}, s.tab[Child(w, i) := g], s.turn + 1)
  }

  ghost function WithDirectories(s: Store, pick: Rule, v: nat): Store
    requires v < PAGES
  {
    WithTable(WithTable(s, pick, Root, I4(v)), pick, P1(v), I3(v))
  }

  /** With entry `i` of the table at `w`, if there is one, set to `e`. */
  ghost function WithEntry(s: Store, w: Where, i: nat, e: nat): Store
  {
    if w in s.tab then s.(mem := Write(s.mem, s.tab[w], i, e)) else s
  }

  /** `map_huge_page`: the missing directories, as far as the pool has frames, and then the entry. */
  ghost function MapHugeOnce(s: Store, pick: Rule, v: nat, e: nat): Outcome
    requires v < PAGES
  {
    var t := WithDirectories(s, pick, v);
    Outcome(WithEntry(t, P2(v), I2(v), e), P2(v) in t.tab)
  }

  /** A sequence of such calls, up to the first that panics. */
  ghost function MapHugeSequence(s: Store, pick: Rule, paddr: nat, vaddr: nat, flags: nat, n: nat): Outcome
    requires vaddr < WORD
    decreases n
  {
    if n == 0 then Outcome(s, true) else
    var r := MapHugeOnce(s, pick, Vpn(vaddr), Join(paddr, flags));
    if r.ok then MapHugeSequence(r.store, pick, paddr + HUGE_PAGE_SIZE, HugeAdvance(vaddr), flags, n - 1) else r
  }

  lemma {:induction false} MapHugeNext(s: Store, pick: Rule, paddr: nat, vaddr: nat, flags: nat, n: nat)
    requires vaddr < WORD && n > 0
    ensures var r := MapHugeOnce(s, pick, Vpn(vaddr), Join(paddr, flags));
            MapHugeSequence(s, pick, paddr, vaddr, flags, n) ==
            if r.ok then MapHugeSequence(r.store, pick, paddr + HUGE_PAGE_SIZE, HugeAdvance(vaddr), flags, n - 1) else r
  {
  }

  lemma {:induction false} MapHugeDone(s: Store, pick: Rule, paddr: nat, vaddr: nat, flags: nat, n: nat)
    requires vaddr < WORD && n == 0
    ensures MapHugeSequence(s, pick, paddr, vaddr, flags, n) == Outcome(s, true)
  {
  }

  /** The table below entry `i` of `w` exists and is empty. */
  ghost predicate Idle(s: Store, w: Where, i: nat)
  {
    Child(w, i) in s.tab && s.tab[Child(w, i)] in s.mem && Empty(s.mem[s.tab[Child(w, i)]])
  }

  /** Without that table. */
  ghost function WithoutTable(s: Store, w: Where, i: nat): Store
    requires Child(w, i) in s.tab
  {
    var t := WithEntry(s, w, i, 0);
    var f := s.tab[Child(w, i)];
    Store(t.mem - {f}, s.free + {f}, s.tab - {Child(w, i)}, s.turn)
  }

  /** The emptiness checks above a page directory, each made only if the table below it went away. */
  ghost function DirectoriesPruned(s: Store, v: nat): Store
    requires v < PAGES
  {
    if !Idle(s, P1(v), I3(v)) then s else
    var t := WithoutTable(s, P1(v), I3(v));
    if Idle(t, Root, I4(v)) then WithoutTable(t, Root, I4(v)) else t
  }

  /** The same from a page table up. */
  ghost function TablesPruned(s: Store, v: nat): Store
    requires v < PAGES
  {
    if Idle(s, P2(v), I2(v)) then DirectoriesPruned(WithoutTable(s, P2(v), I2(v)), v) else s
  }

  lemma {:induction false} NoParent(s: Store, pick: Rule, w: Where, i: nat)
    requires w !in s.tab
    ensures WithTable(s, pick, w, i) == s
  {
  }

  lemma {:induction false} NothingBelow(m: Mem, free: set<nat>, t: Tab, root: nat, v: nat)
    requires Sound(m, free, t, root) && v < PAGES && P1(v) !in t
    ensures P2(v) !in t
  {
    Prefix(Read(m, t), t, v);
  }

  /** `unmap_page`: a panic if the page is huge or mapped to another frame, nothing if it is not mapped. */
  ghost function UnmapOnce(s: Store, root: nat, v: nat, frame: nat): Outcome
    requires v < PAGES
  {
    var l := Lookup(s.mem, root, v);
    if !SmallAt(l, frame) then Outcome(s, false) else
    Outcome(if l.Unmapped? then s else TablesPruned(WithEntry(s, P3(v), I1(v), 0), v), true)
  }

  /** A sequence of such calls for consecutive pages, up to the first that panics. */
  ghost function UnmapSequence(s: Store, root: nat, paddr: nat, vaddr: nat, i: nat, n: nat): Outcome
    decreases n - i
  {
    if i >= n then Outcome(s, true) else
    var r := UnmapOnce(s, root, Vpn(AddrAt(vaddr, i)), FrameWord(paddr, i));
    if r.ok then UnmapSequence(r.store, root, paddr, vaddr, i + 1, n) else r
  }

  /** `unmap_huge_page`. */
  ghost function UnmapHugeOnce(s: Store, root: nat, v: nat, frame: nat): Outcome
    requires v < PAGES
  {
    var l := Lookup(s.mem, root, v);
    if P3(v) in s.tab || !HugeAt(l, frame) then Outcome(s, false) else
    Outcome(if l.Unmapped? then s else DirectoriesPruned(WithEntry(s, P2(v), I2(v), 0), v), true)
  }

  ghost function UnmapHugeSequence(s: Store, root: nat, paddr: nat, vaddr: nat, i: nat, n: nat): Outcome
    decreases n - i
  {
    if i >= n then Outcome(s, true) else
    var r := UnmapHugeOnce(s, root, HugeVpnAt(vaddr, i), HugeWord(paddr, i));
    if r.ok then UnmapHugeSequence(r.store, root, paddr, vaddr, i + 1, n) else r
  }

  class Mmu {
    const pml4t: nat
    const pick: Rule
    /** The frames in use as tables, and those `phys_kmalloc` can still hand out. */
    var mem: Mem
    var free: set<nat>
    var turn: nat
    ghost var tab: Tab

    ghost predicate Valid()
      reads this
    {
      Sound(mem, free, tab, pml4t) && FromPool(pick)
    }

    ghost function State(): Store
      reads this
    {
      Store(mem, free, tab, turn)
    }

    /** Tidy except that the table at `k` may be empty. */
    ghost predicate TidyExcept(k: Where)
      requires Valid()
      reads this
    {
      TidyBut(Read(mem, tab), tab, k)
    }

    lemma {:induction false} TidyAt(k: Where)
      requires Valid()
      ensures TidyExcept(Root) ==> TidyExcept(k)
    {
    }

    /** A zeroed PML4 table, and a pool of frames that can be handed out, in whatever order. */
    constructor (root: nat, frames: set<nat>, rule: Rule)
      requires IsFrame(root) && root !in frames && (forall f :: f in frames ==> IsFrame(f)) && FromPool(rule)
      ensures Valid() && TidyExcept(Root) && pml4t == root && free == frames && pick == rule
      ensures forall v :: 0 <= v < PAGES ==> Lookup(mem, pml4t, v) == Unmapped
    {
      pml4t, free, pick, turn := root, frames, rule, 0;
      mem := map[root := Zeros()];
      tab := map[Root := root];
      new;
      EmptyTables(root);
    }

    /** `phys_kmalloc(4096)` followed by `memset_pg`; `ok` is false when it returned NULL. */
    method AllocTable() returns (f: nat, ok: bool)
      requires FromPool(pick)
      modifies this`mem, this`free, this`turn
      ensures ok <==> old(free) != {}
      ensures !ok ==> mem == old(mem) && free == old(free) && turn == old(turn)
      ensures ok ==> f in old(free) && free == old(free) - {f} && mem == old(mem)[f := Zeros()]
      ensures ok ==> f == pick(old(free), old(turn)) && turn == old(turn) + 1
    {
      ok, f := free != {}, 0;
      if ok {
        f := pick(free, turn);
        free, turn := free - {f}, turn + 1;
        mem := mem[f := Zeros()];
      }
    }

    /** Links a zeroed frame below the empty entry `i` of `table`. */
    method NewTable(table: nat, i: nat, ghost w: Where) returns (ok: bool)
      requires Valid() && w in tab && tab[w] == table && Level(w) < 3 && i < 512
      requires Child(w, i) !in tab && !Present(mem[table][i])
      modifies this`mem, this`free, this`tab, this`turn
      ensures !ok ==> free == {} && free == old(free) && mem == old(mem) && tab == old(tab)
      ensures ok ==> Valid() && Grown(old(tab), tab) && tab.Keys == old(tab.Keys) + {Child(w, i)}
      ensures ok ==> SameWalk(mem, old(mem), pml4t) && free + mem.Keys == old(free + mem.Keys)
      ensures ok && old(TidyExcept(w)) ==> TidyExcept(Child(w, i))
      ensures State() == WithTable(old(State()), pick, w, i)
    {
      hide Sound, TidyBut, SameWalk, Grown, FromPool, Put, Zeros;
      ghost var t, m := tab, mem;
      TableSized(m, free, t, pml4t, w);
      var g;
      g, ok := AllocTable();
      if ok {
        NewTableEffect(m, old(free), t, pml4t, w, i, g);
        mem := Put(mem, table, i, g + 3);
        tab := tab[Child(w, i) := g];
      }
    }

    /** Steps from table `table` into the table below its entry `i`, creating it if there is none.
        `ok` is false when the kernel panicked because no frame was left. */
    method EnterTable(table: nat, i: nat, ghost w: Where) returns (next: nat, ok: bool)
      requires Valid() && w in tab && tab[w] == table && Level(w) < 3 && i < 512
      requires Child(w, i) in tab || !Present(mem[table][i])
      modifies this`mem, this`free, this`tab, this`turn
      ensures !ok ==> free == {} && free == old(free) && mem == old(mem) && tab == old(tab) && Child(w, i) !in tab
      ensures ok ==> Valid() && Grown(old(tab), tab) && tab.Keys == old(tab.Keys) + {Child(w, i)}
      ensures ok ==> next == tab[Child(w, i)]
      ensures ok ==> SameWalk(mem, old(mem), pml4t) && free + mem.Keys == old(free + mem.Keys)
      ensures ok && old(TidyExcept(w)) ==> TidyExcept(Child(w, i))
      ensures State() == WithTable(old(State()), pick, w, i)
    {
      hide FromPool;
      Step(mem, tab, w, i);
      ok := true;
      if !Present(mem[table][i]) {
        ok := NewTable(table, i, w);
        if !ok { return 0, false; }
      } else if TidyExcept(w) {
        EntryTidy(Read(mem, tab), tab, w, i, Child(w, i));
      }
      Step(mem, tab, w, i);
      next := Addr(mem[table][i]);
    }

    /** One level of the cached walk: the table below entry `i` is entered only if the previous page
        did not use it already. */
    method Descend(i: nat, cur: nat, table: nat, cached: nat, ghost w: Where) returns (next: nat, ok: bool)
      requires Valid() && w in tab && tab[w] == table && Level(w) < 3 && i < 512
      requires Level(w) == 2 ==> Child(w, i) in tab || !Present(Entry(mem, table, i))
      requires i == cur ==> Child(w, i) in tab && tab[Child(w, i)] == cached
      modifies this`mem, this`free, this`tab, this`turn
      ensures !ok ==> free == {} && free == old(free) && mem == old(mem) && tab == old(tab) && Child(w, i) !in tab
      ensures ok ==> Valid() && Grown(old(tab), tab) && tab.Keys == old(tab.Keys) + {Child(w, i)}
      ensures ok ==> next == tab[Child(w, i)]
      ensures ok ==> SameWalk(mem, old(mem), pml4t) && free + mem.Keys == old(free + mem.Keys)
      ensures ok && old(TidyExcept(w)) ==> TidyExcept(Child(w, i))
      ensures State() == WithTable(old(State()), pick, w, i)
    {
      hide FromPool, Sound, TidyBut, Present;
      EntryThere(mem, free, tab, pml4t, w, i);
      if i != cur {
        next, ok := EnterTable(table, i, w);
      } else {
        next, ok := cached, true;
      }
    }

    /** The two levels above a page directory, cached. */
    method EnterDirectories(v: nat, i4: nat, i3: nat, pdpt0: nat, pd0: nat) returns (pdpt: nat, pd: nat, ok: bool)
      requires Valid() && v < PAGES && Cached(tab, i4, i3, NO_INDEX, pdpt0, pd0, 0)
      modifies this`mem, this`free, this`tab, this`turn
      ensures Valid() && Grown(old(tab), tab) && SameWalk(mem, old(mem), pml4t)
      ensures free + mem.Keys == old(free + mem.Keys)
      ensures !ok ==> free == {} && Stuck(old(tab), tab, Path2(v))
      ensures ok ==> Entered(old(tab), tab, Path2(v)) && Cached(tab, I4(v), I3(v), NO_INDEX, pdpt, pd, 0)
      ensures ok && old(TidyExcept(Root)) ==> TidyExcept(P2(v))
      ensures State() == WithDirectories(old(State()), pick, v) && (ok <==> P2(v) in tab)
    {
      hide Sound, TidyBut, FromPool, WithTable;
      RootIn(mem, free, tab, pml4t);
      var cur3 := i3;
      pd := pd0;
      Levels(v);
      pdpt, ok := Descend(I4(v), i4, pml4t, pdpt0, Root);
      if !ok {
        NothingBelow(mem, free, tab, pml4t, v);
        NoParent(State(), pick, P1(v), I3(v));
        return;
      }
      if I4(v) != i4 { cur3 := NO_INDEX; }
      pd, ok := Descend(I3(v), cur3, pdpt, pd0, P1(v));
    }

    /** The cached walk of `map_pages` for page `v`. */
    method EnterTables(v: nat, i4: nat, i3: nat, i2: nat, pdpt0: nat, pd0: nat, pt0: nat)
      returns (pdpt: nat, pd: nat, pt: nat, ok: bool)
      requires Valid() && v < PAGES && !Lookup(mem, pml4t, v).Huge?
      requires Cached(tab, i4, i3, i2, pdpt0, pd0, pt0)
      modifies this`mem, this`free, this`tab, this`turn
      ensures Valid() && Grown(old(tab), tab) && SameWalk(mem, old(mem), pml4t)
      ensures free + mem.Keys == old(free + mem.Keys)
      ensures !ok ==> free == {} && Stuck(old(tab), tab, Path3(v))
      ensures ok ==> Entered(old(tab), tab, Path3(v)) && Cached(tab, I4(v), I3(v), I2(v), pdpt, pd, pt)
      ensures ok && old(TidyExcept(Root)) ==> TidyExcept(P3(v))
    {
      hide Sound, TidyBut, Lookup, I4, I3, I2, FromPool, WithTable, WithDirectories, Entered, Stuck, Path2, Path3;
      var cur2 := i2;
      ghost var t0 := tab;
      pt := pt0;
      Levels(v);
      pdpt, pd, ok := EnterDirectories(v, i4, i3, pdpt0, pd0);
      ghost var t1 := tab;
      if ok {
        if I4(v) != i4 || I3(v) != i3 { cur2 := NO_INDEX; }
        NotHuge(mem, free, tab, pml4t, v);
        pt, ok := Descend(I2(v), cur2, pd, pt0, P2(v));
      }
      ThirdLevel(t0, t1, tab, v);
    }

    /** Writes the entry for one 4 KiB page. */
    method StoreSmall(pt: nat, i: nat, e: nat, ghost v: nat)
      requires Valid() && v < PAGES && P3(v) in tab && tab[P3(v)] == pt && i == I1(v)
      modifies this`mem
      ensures Valid() && mem.Keys == old(mem.Keys)
      ensures StoredSmall(old(mem), mem, pml4t, v, e)
      ensures old(TidyExcept(P3(v))) && (e == 0 || Present(e)) ==> TidyExcept(P3(v))
      ensures old(TidyExcept(P3(v))) && Present(e) ==> TidyExcept(Root)
      ensures State() == WithEntry(old(State()), P3(v), i, e)
    {
      StoreSmallEffect(mem, tab, pml4t, v, e);
      mem := Put(mem, pt, i, e);
    }

    /** One round of the loop of `map_pages`. */
    method MapSmallPage(v: nat, e: nat, i4: nat, i3: nat, i2: nat, pdpt0: nat, pd0: nat, pt0: nat)
      returns (pdpt: nat, pd: nat, pt: nat, ok: bool)
      requires Valid() && v < PAGES && !Lookup(mem, pml4t, v).Huge?
      requires Cached(tab, i4, i3, i2, pdpt0, pd0, pt0)
      modifies this`mem, this`free, this`tab, this`turn
      ensures Valid() && Grown(old(tab), tab) && free + mem.Keys == old(free + mem.Keys)
      ensures !ok ==> free == {} && Stuck(old(tab), tab, Path3(v))
      ensures !ok ==> SameWalk(mem, old(mem), pml4t)
      ensures ok ==> Entered(old(tab), tab, Path3(v)) && Cached(tab, I4(v), I3(v), I2(v), pdpt, pd, pt)
      ensures ok ==> StoredSmall(old(mem), mem, pml4t, v, e)
      ensures ok && Present(e) && old(TidyExcept(Root)) ==> TidyExcept(Root)
    {
      hide Sound, TidyBut, Lookup, I4, I3, I2;
      pdpt, pd, pt, ok := EnterTables(v, i4, i3, i2, pdpt0, pd0, pt0);
      if ok {
        StoreSmall(pt, I1(v), e, v);
      }
    }

    /** The 4 KiB branch of `map_pages`: the walk keeps the tables of the previous page. */
    method MapSmallPages(paddr: nat, vaddr: nat, flags: nat, n: nat) returns (ok: bool)
      requires Valid() && vaddr < WORD && n <= PAGES
      requires IsFlags(flags) && FrameAt(paddr, n) <= PHYS_LIMIT
      requires forall v :: 0 <= v < PAGES && Off(v, Vpn(vaddr)) < n ==> !Lookup(mem, pml4t, v).Huge?
      modifies this`mem, this`free, this`tab, this`turn
      ensures ok <==> Suffices(old(free), old(tab), SmallTables(Vpn(vaddr), n))
      ensures Valid() && Grown(old(tab), tab) && free + mem.Keys == old(free + mem.Keys)
      ensures ok ==> Entered(old(tab), tab, SmallTables(Vpn(vaddr), n))
      ensures ok ==> MappedSmall(old(mem), mem, pml4t, paddr, Vpn(vaddr), flags, n)
      ensures !ok ==> free == {} && PartlySmall(old(mem), mem, pml4t, paddr, Vpn(vaddr), flags, n)
      ensures ok && Present(flags) && old(TidyExcept(Root)) ==> TidyExcept(Root)
    {
      hide Advance, Suffices, PartlySmall, Entered, Stuck, SameWalk, Sound, MappedSmall, SmallTables, Path3,
        StoredSmall, TidyBut, Cached, Off, Nth, I4, I3, I2, Vpn, FrameAt, Join, IsFrame;
      var curVaddr: nat, curPaddr: nat := vaddr, FrameAt(paddr, 0);
      var cur4: nat, cur3: nat, cur2: nat := NO_INDEX, NO_INDEX, NO_INDEX;
      var pdpt: nat, pd: nat, pt: nat := 0, 0, 0;
      var count: nat := 0;
      ghost var m0, f0, t0 := mem, free, tab;
      ghost var v0 := Vpn(vaddr);
      MappedNone(mem, tab, pml4t, paddr, v0, flags);
      NothingEntered(tab, v0);
      while count < n
        invariant count <= n
        invariant Valid() && Grown(t0, tab) && free + mem.Keys == f0 + m0.Keys
        invariant curVaddr < WORD && Vpn(curVaddr) == Nth(v0, count)
        invariant curPaddr == FrameAt(paddr, count)
        invariant MappedSmall(m0, mem, pml4t, paddr, v0, flags, count)
        invariant Present(flags) && old(TidyExcept(Root)) ==> TidyExcept(Root)
        invariant Cached(tab, cur4, cur3, cur2, pdpt, pd, pt)
        invariant Entered(t0, tab, SmallTables(v0, count))
      {
        var v := Vpn(curVaddr);
        ghost var m, t := mem, tab;
        SmallTablesNext(v0, count);
        SmallTablesGrow(v0, count + 1, n);
        StillUnmapped(m0, mem, pml4t, paddr, v0, flags, count, v);
        FrameAtIsFrame(paddr, count, n);
        JoinParts(curPaddr, flags);
        pdpt, pd, pt, ok := MapSmallPage(v, Join(curPaddr, flags), cur4, cur3, cur2, pdpt, pd, pt);
        EnteredNext(t0, t, tab, SmallTables(v0, count), Path3(v), SmallTables(v0, n));
        if !ok {
          MappedSame(m0, m, mem, pml4t, paddr, v0, flags, count);
          TooFewFrames(m0, f0, t0, mem, free, tab, pml4t, SmallTables(v0, n));
          return;
        }
        cur4, cur3, cur2 := I4(v), I3(v), I2(v);
        MappedSmallNext(m0, m, mem, pml4t, paddr, v0, flags, count, v);
        NextPage(curVaddr, v0, count);
        curVaddr := Advance(curVaddr);
        curPaddr := curPaddr + PAGE_SIZE;
        count := count + 1;
      }
      EnoughFrames(m0, f0, t0, mem, free, tab, pml4t, SmallTables(v0, n));
      ok := true;
    }

    // ----- 2 MiB pages

    method StoreHuge(pd: nat, i: nat, e: nat, ghost v: nat)
      requires Valid() && v < PAGES && P2(v) in tab && tab[P2(v)] == pd && i == I2(v)
      requires P3(v) !in tab && (Present(e) ==> IsHuge(e))
      modifies this`mem
      ensures Valid() && mem.Keys == old(mem.Keys)
      ensures StoredHuge(old(mem), mem, pml4t, v / 512, e)
      ensures old(TidyExcept(P2(v))) && (e == 0 || Present(e)) ==> TidyExcept(P2(v))
      ensures old(TidyExcept(P2(v))) && Present(e) ==> TidyExcept(Root)
      ensures State() == WithEntry(old(State()), P2(v), i, e)
    {
      StoreHugeEffect(mem, tab, pml4t, v, e);
      mem := Put(mem, pd, i, e);
    }

    /** One round of the huge branch; with nothing cached it is `map_huge_page`. */
    method MapHugePage(v: nat, e: nat, i4: nat, i3: nat, pdpt0: nat, pd0: nat)
      returns (pdpt: nat, pd: nat, ok: bool)
      requires Valid() && v < PAGES && P3(v) !in tab && (Present(e) ==> IsHuge(e))
      requires Cached(tab, i4, i3, NO_INDEX, pdpt0, pd0, 0)
      modifies this`mem, this`free, this`tab, this`turn
      ensures ok <==> Suffices(old(free), old(tab), Path2(v))
      ensures Valid() && Grown(old(tab), tab) && free + mem.Keys == old(free + mem.Keys)
      ensures !ok ==> free == {} && Stuck(old(tab), tab, Path2(v))
      ensures !ok ==> SameWalk(mem, old(mem), pml4t)
      ensures ok ==> Entered(old(tab), tab, Path2(v)) && Cached(tab, I4(v), I3(v), NO_INDEX, pdpt, pd, 0)
      ensures ok ==> StoredHuge(old(mem), mem, pml4t, v / 512, e)
      ensures ok && Present(e) && old(TidyExcept(Root)) ==> TidyExcept(Root)
      ensures Outcome(State(), ok) == MapHugeOnce(old(State()), pick, v, e)
    {
      hide Sound, TidyBut, Lookup, I4, I3, I2, FromPool, WithDirectories, WithTable;
      pdpt, pd, ok := EnterDirectories(v, i4, i3, pdpt0, pd0);
      if ok {
        Levels(v);
        EnoughFrames(old(mem), old(free), old(tab), mem, free, tab, pml4t, Path2(v));
        StoreHuge(pd, I2(v), e, v);
      } else {
        TooFewFrames(old(mem), old(free), old(tab), mem, free, tab, pml4t, Path2(v));
      }
    }

    /** `map_huge_page`, which panics if the flags do not say that the page is huge, and walks from the root. */
    method MapOneHugePage(paddr: nat, vaddr: nat, flags: nat) returns (ok: bool)
      requires Valid() && IsFrame(paddr) && IsFlags(flags) && P3(Vpn(vaddr)) !in tab
      modifies this`mem, this`free, this`tab, this`turn
      ensures ok <==> IsHuge(flags) && Suffices(old(free), old(tab), Path2(Vpn(vaddr)))
      ensures !IsHuge(flags) ==> State() == old(State())
      ensures IsHuge(flags) ==> Outcome(State(), ok) == MapHugeOnce(old(State()), pick, Vpn(vaddr), Join(paddr, flags))
      ensures Valid() && Grown(old(tab), tab) && free + mem.Keys == old(free + mem.Keys)
      ensures ok ==> Entered(old(tab), tab, Path2(Vpn(vaddr)))
      ensures ok ==> StoredHuge(old(mem), mem, pml4t, Vpn(vaddr) / 512, Join(paddr, flags))
      ensures !ok ==> SameWalk(mem, old(mem), pml4t)
      ensures ok && Present(flags) && old(TidyExcept(Root)) ==> TidyExcept(Root)
    {
      hide Sound, TidyBut, Lookup, FromPool, MapHugeOnce, Suffices, Path2, Entered, Stuck, StoredHuge, Vpn, Join,
        IsHuge, IsFlags, IsFrame, Present;
      if !IsHuge(flags) { return false; }
      JoinParts(paddr, flags);
      NothingCached(tab);
      var _, _, done := MapHugePage(Vpn(vaddr), Join(paddr, flags), NO_INDEX, NO_INDEX, 0, 0);
      ok := done;
    }

    /** The huge branch of `map_pages`. */
    method MapHugePages(paddr: nat, vaddr: nat, flags: nat, n: nat) returns (ok: bool)
      requires Valid() && vaddr < WORD && n <= HUGE_PAGES
      requires IsFlags(flags) && IsHuge(flags) && paddr % 0x1000 == 0 && HugeFrameAt(paddr, n) <= PHYS_LIMIT
      requires forall v :: 0 <= v < PAGES && HugeOff(v, Vpn(vaddr) / 512) < n ==> P3(v) !in tab
      modifies this`mem, this`free, this`tab, this`turn
      ensures ok <==> Suffices(old(free), old(tab), HugeTables(Vpn(vaddr) / 512, n))
      ensures Valid() && Grown(old(tab), tab) && free + mem.Keys == old(free + mem.Keys)
      ensures ok ==> Entered(old(tab), tab, HugeTables(Vpn(vaddr) / 512, n))
      ensures ok ==> MappedHuge(old(mem), mem, pml4t, paddr, Vpn(vaddr) / 512, flags, n)
      ensures !ok ==> free == {} && PartlyHuge(old(mem), mem, pml4t, paddr, Vpn(vaddr) / 512, flags, n)
      ensures ok && Present(flags) && old(TidyExcept(Root)) ==> TidyExcept(Root)
      ensures Outcome(State(), ok) == MapHugeSequence(old(State()), pick, paddr, vaddr, flags, n)
    {
      hide State, FromPool, MapHugeOnce, MapHugeSequence, HugeAdvance, Suffices, PartlyHuge, Entered, Stuck, SameWalk,
        HugeTables, Path2, HugeProgress, Sound, MappedHuge, StoredHuge, TidyBut, Cached, HugeOff, HugeNth, Grown, I4,
        I3, I2, Vpn, HugeFrameAt, Join, IsFrame;
      var curVaddr: nat, curPaddr: nat := vaddr, paddr;
      var cur4: nat, cur3: nat := NO_INDEX, NO_INDEX;
      var pdpt: nat, pd: nat := 0, 0;
      var count: nat := 0;
      ghost var m0, f0, t0, h0 := mem, free, tab, Vpn(vaddr) / 512;
      ghost var goal := MapHugeSequence(State(), pick, paddr, vaddr, flags, n);
      HugeBegins(mem, free, tab, pml4t, paddr, h0, flags);
      while count < n
        invariant count <= n && Valid() && curVaddr < WORD && Vpn(curVaddr) / 512 == HugeNth(h0, count)
        invariant curPaddr == HugeFrameAt(paddr, count)
        invariant HugeProgress(m0, f0, t0, mem, free, tab, pml4t, paddr, h0, flags, count)
        invariant Present(flags) && old(TidyExcept(Root)) ==> TidyExcept(Root)
        invariant Cached(tab, cur4, cur3, NO_INDEX, pdpt, pd, 0)
        invariant MapHugeSequence(State(), pick, curPaddr, curVaddr, flags, n - count) == goal
      {
        var v := Vpn(curVaddr);
        ghost var m, f, t := mem, free, tab;
        HugeOffNext(v, h0, count);
        HugeRoom(m0, f0, t0, m, f, t, pml4t, paddr, h0, flags, count, v);
        HugeFrameIsFrame(paddr, count, n);
        JoinParts(curPaddr, flags);
        MapHugeNext(State(), pick, curPaddr, curVaddr, flags, n - count);
        pdpt, pd, ok := MapHugePage(v, Join(curPaddr, flags), cur4, cur3, pdpt, pd);
        if !ok {
          HugeFails(m0, f0, t0, m, f, t, mem, free, tab, pml4t, paddr, h0, flags, count, n, v);
          return;
        }
        HugeAdvances(m0, f0, t0, m, f, t, mem, free, tab, pml4t, paddr, h0, flags, count, v);
        cur4, cur3 := I4(v), I3(v);
        NextHugePage(curVaddr, h0, count);
        curVaddr := HugeAdvance(curVaddr);
        curPaddr := curPaddr + HUGE_PAGE_SIZE;
        count := count + 1;
      }
      HugeEnds(m0, f0, t0, mem, free, tab, pml4t, paddr, h0, flags, n);
      MapHugeDone(State(), pick, curPaddr, curVaddr, flags, n - count);
      ok := true;
    }

    // ----- Unmapping

    /** `is_empty` */
    method IsEmpty(table: nat) returns (empty: bool)
      requires table in mem && |mem[table]| == 512
      ensures empty <==> Empty(mem[table])
    {
      var i := 0;
      while i < 512
        invariant 0 <= i <= 512
        invariant forall j :: 0 <= j < i ==> mem[table][j] == 0
      {
        if mem[table][i] != 0 {
          return false;
        }
        i := i + 1;
      }
      return true;
    }

    /** Unlinks and frees the table below entry `i` of `parent` if it is empty. */
    method PruneTable(parent: nat, i: nat, table: nat, ghost w: Where) returns (dropped: bool)
      requires Valid() && w in tab && tab[w] == parent && i < 512
      requires Child(w, i) in tab && tab[Child(w, i)] == table
      modifies this`mem, this`free, this`tab
      ensures Valid() && Shrunk(old(tab), tab) && SameWalk(mem, old(mem), pml4t)
      ensures free + mem.Keys == old(free + mem.Keys)
      ensures tab == if dropped then old(tab) - {Child(w, i)} else old(tab)
      ensures old(TidyExcept(Child(w, i))) ==> TidyExcept(if dropped then w else Root)
      ensures dropped == Idle(old(State()), w, i)
      ensures State() == if dropped then WithoutTable(old(State()), w, i) else old(State())
    {
      hide Sound, FromPool, Put;
      TableSized(mem, free, tab, pml4t, Child(w, i));
      TableSized(mem, free, tab, pml4t, w);
      dropped := IsEmpty(table);
      if dropped {
        FreeTableEffect(mem, free, tab, pml4t, w, i);
        mem := Put(mem, parent, i, 0);
        mem, free := mem - {table}, free + {table};
        tab := tab - {Child(w, i)};
      }
    }

    /** The three checks after an entry of a page table was cleared. */
    method PruneUp(v: nat, pdpt: nat, pd: nat, pt: nat)
      requires Valid() && v < PAGES && P3(v) in tab && P2(v) in tab && P1(v) in tab
      requires tab[P1(v)] == pdpt && tab[P2(v)] == pd && tab[P3(v)] == pt
      modifies this`mem, this`free, this`tab
      ensures Valid() && Shrunk(old(tab), tab) && SameWalk(mem, old(mem), pml4t)
      ensures free + mem.Keys == old(free + mem.Keys)
      ensures old(TidyExcept(P3(v))) ==> TidyExcept(Root)
      ensures State() == TablesPruned(old(State()), v)
    {
      hide Sound, TidyBut, Lookup, I4, I3, I2, FromPool, Idle, WithoutTable, DirectoriesPruned;
      var dropped := PruneTable(pd, I2(v), pt, P2(v));
      if dropped {
        PruneDirectories(v, pdpt, pd);
      }
    }

    /** The two checks after an entry of a page directory was cleared. */
    method PruneDirectories(v: nat, pdpt: nat, pd: nat)
      requires Valid() && v < PAGES && P2(v) in tab && P1(v) in tab && tab[P1(v)] == pdpt && tab[P2(v)] == pd
      modifies this`mem, this`free, this`tab
      ensures Valid() && Shrunk(old(tab), tab) && SameWalk(mem, old(mem), pml4t)
      ensures free + mem.Keys == old(free + mem.Keys) && KeepsLowest(old(tab), tab)
      ensures old(TidyExcept(P2(v))) ==> TidyExcept(Root)
      ensures State() == DirectoriesPruned(old(State()), v)
    {
      hide Sound, TidyBut, Lookup, I4, I3, I2, FromPool, Idle, WithoutTable;
      Levels(v);
      var dropped := PruneTable(pdpt, I3(v), pd, P1(v));
      if dropped {
        RootIn(mem, free, tab, pml4t);
        dropped := PruneTable(pml4t, I4(v), pdpt, Root);
      }
    }

    /** `unmap_page`.  `ok` is false when the
        kernel panicked: the page is huge, or mapped to another frame. */
    method UnmapPage(v: nat, frame: nat) returns (ok: bool)
      requires Valid() && v < PAGES
      modifies this`mem, this`free, this`tab
      ensures ok <==> SmallAt(old(Lookup(mem, pml4t, v)), frame)
      ensures ok ==> Valid() && Shrunk(old(tab), tab) && free + mem.Keys == old(free + mem.Keys)
      ensures ok ==> StoredSmall(old(mem), mem, pml4t, v, 0)
      ensures ok && old(TidyExcept(Root)) ==> TidyExcept(Root)
      ensures Outcome(State(), ok) == UnmapOnce(old(State()), pml4t, v, frame)
    {
      hide Sound, TidyBut, Lookup, I4, I3, I2, I1, FromPool, TablesPruned, WithEntry;
      WalkSteps(mem, free, tab, pml4t, v);
      NothingSmall(mem, pml4t, v);
      var e4 := Entry(mem, pml4t, I4(v));
      if !Present(e4) { return true; }
      var pdpt := Addr(e4);
      var e3 := Entry(mem, pdpt, I3(v));
      if !Present(e3) { return true; }
      var pd := Addr(e3);
      var e2 := Entry(mem, pd, I2(v));
      if !Present(e2) { return true; }
      if IsHuge(e2) { return false; }
      var pt := Addr(e2);
      var e1 := Entry(mem, pt, I1(v));
      if !Present(e1) { return true; }
      if Addr(e1) != frame { return false; }
      ghost var m := mem;
      TidyAt(P3(v));
      StoreSmall(pt, I1(v), 0, v);
      ghost var m1 := mem;
      PruneUp(v, pdpt, pd, pt);
      StoredSmallSame(m, m1, mem, pml4t, v, 0);
      return true;
    }

    /** One round of the 4 KiB loop of `unmap_pages`, which has its own copy of the walk and of the checks. */
    method UnmapSmallRound(paddr: nat, vaddr: nat, i: nat) returns (ok: bool)
      requires Valid()
      modifies this`mem, this`free, this`tab
      ensures ok <==> SmallAt(old(Lookup(mem, pml4t, Vpn(AddrAt(vaddr, i)))), FrameWord(paddr, i))
      ensures ok ==> Valid() && Shrunk(old(tab), tab) && free + mem.Keys == old(free + mem.Keys)
      ensures ok ==> StoredSmall(old(mem), mem, pml4t, Vpn(AddrAt(vaddr, i)), 0)
      ensures ok && old(TidyExcept(Root)) ==> TidyExcept(Root)
      ensures Outcome(State(), ok) == UnmapOnce(old(State()), pml4t, Vpn(AddrAt(vaddr, i)), FrameWord(paddr, i))
    {
      hide Sound, TidyBut, Lookup, I4, I3, I2, I1, AddrAt, Vpn, FrameWord, FromPool, TablesPruned, WithEntry;
      var v, currPaddr := Vpn(AddrAt(vaddr, i)), FrameWord(paddr, i);
      var i4, i3, i2, i1 := I4(v), I3(v), I2(v), I1(v);
      WalkSteps(mem, free, tab, pml4t, v);
      NothingSmall(mem, pml4t, v);
      if !Present(Entry(mem, pml4t, i4)) { return true; }
      var pdpt := Addr(Entry(mem, pml4t, i4));
      if !Present(Entry(mem, pdpt, i3)) { return true; }
      var pd := Addr(Entry(mem, pdpt, i3));
      if !Present(Entry(mem, pd, i2)) { return true; }
      if IsHuge(Entry(mem, pd, i2)) { return false; }
      var pt := Addr(Entry(mem, pd, i2));
      if !Present(Entry(mem, pt, i1)) { return true; }
      if Addr(Entry(mem, pt, i1)) != currPaddr { return false; }
      ClearSmall(v, pdpt, pd, pt);
      return true;
    }

    /** The rest of the round, for a page that is mapped to the expected frame. */
    method ClearSmall(v: nat, pdpt: nat, pd: nat, pt: nat)
      requires Valid() && v < PAGES && P3(v) in tab && P2(v) in tab && P1(v) in tab
      requires tab[P1(v)] == pdpt && tab[P2(v)] == pd && tab[P3(v)] == pt
      modifies this`mem, this`free, this`tab
      ensures Valid() && Shrunk(old(tab), tab) && free + mem.Keys == old(free + mem.Keys)
      ensures StoredSmall(old(mem), mem, pml4t, v, 0)
      ensures old(TidyExcept(Root)) ==> TidyExcept(Root)
      ensures State() == TablesPruned(WithEntry(old(State()), P3(v), I1(v), 0), v)
    {
      hide Sound, TidyBut, Lookup, I4, I3, I2, I1, FromPool, Idle, WithoutTable, WithEntry;
      ghost var m := mem;
      TidyAt(P3(v));
      StoreSmall(pt, I1(v), 0, v);
      ghost var m1 := mem;
      var emptied := PruneTable(pd, I2(v), pt, P2(v));
      if emptied {
        emptied := PruneTable(pdpt, I3(v), pd, P1(v));
        if emptied {
          RootIn(mem, free, tab, pml4t);
          emptied := PruneTable(pml4t, I4(v), pdpt, Root);
        }
      }
      StoredSmallSame(m, m1, mem, pml4t, v, 0);
    }

    /** The 4 KiB branch of `unmap_pages`. */
    method UnmapSmallPages(paddr: nat, vaddr: nat, n: nat) returns (ok: bool)
      requires Valid() && vaddr < WORD && n <= PAGES
      modifies this`mem, this`free, this`tab
      ensures ok <==> AllSmallAt(old(mem), pml4t, paddr, Vpn(vaddr), n)
      ensures ok ==> Valid() && Shrunk(old(tab), tab) && free + mem.Keys == old(free + mem.Keys)
      ensures ok ==> UnmappedSmall(old(mem), mem, pml4t, Vpn(vaddr), n)
      ensures ok && old(TidyExcept(Root)) ==> TidyExcept(Root)
      ensures Outcome(State(), ok) == UnmapSequence(old(State()), pml4t, paddr, vaddr, 0, n)
    {
      hide FromPool, UnmapOnce, Sound, TidyBut, Lookup, AllSmallAt, SmallAt, UnmappedSmall, StoredSmall, Nth, AddrAt,
        Vpn, FrameWord;
      ghost var v0, m0 := Vpn(vaddr), mem;
      UnmappedNone(mem, pml4t, vaddr);
      var i: nat := 0;
      while i < n
        invariant i <= n && Valid() && Shrunk(old(tab), tab) && free + mem.Keys == old(free + mem.Keys)
        invariant Vpn(AddrAt(vaddr, i)) == Nth(v0, i)
        invariant UnmappedSmall(m0, mem, pml4t, v0, i)
        invariant i > 0 ==> AllSmallAt(m0, pml4t, paddr, v0, i)
        invariant old(TidyExcept(Root)) ==> TidyExcept(Root)
        invariant UnmapSequence(State(), pml4t, paddr, vaddr, i, n) ==
                  UnmapSequence(old(State()), pml4t, paddr, vaddr, 0, n)
      {
        ghost var m := mem;
        AllSmallAtNext(m0, pml4t, paddr, v0, i, n);
        UnmappedNext(m0, m, m, pml4t, v0, i);
        ok := UnmapSmallRound(paddr, vaddr, i);
        if !ok { return; }
        UnmappedNext(m0, m, mem, pml4t, v0, i);
        AddrAtNext(vaddr, i);
        i := i + 1;
      }
      if n == 0 { AllSmallAtNext(m0, pml4t, paddr, v0, 0, 1); }
      ok := true;
    }

    /** `unmap_huge_page`. */
    method UnmapHugePage(v: nat, frame: nat) returns (ok: bool)
      requires Valid() && v < PAGES
      modifies this`mem, this`free, this`tab
      ensures ok <==> P3(v) !in old(tab) && HugeAt(old(Lookup(mem, pml4t, v)), frame)
      ensures ok ==> KeepsLowest(old(tab), tab)
      ensures ok ==> Valid() && Shrunk(old(tab), tab) && free + mem.Keys == old(free + mem.Keys)
      ensures ok ==> StoredHuge(old(mem), mem, pml4t, v / 512, 0)
      ensures ok && old(TidyExcept(Root)) ==> TidyExcept(Root)
      ensures Outcome(State(), ok) == UnmapHugeOnce(old(State()), pml4t, v, frame)
    {
      hide Sound, Lookup, I4, I3, I2, StoredHuge, FromPool, DirectoriesPruned, WithEntry;
      WalkSteps(mem, free, tab, pml4t, v);
      NothingHuge(mem, free, tab, pml4t, v);
      var e4 := Entry(mem, pml4t, I4(v));
      if !Present(e4) { return true; }
      var pdpt := Addr(e4);
      var e3 := Entry(mem, pdpt, I3(v));
      if !Present(e3) { return true; }
      var pd := Addr(e3);
      var e2 := Entry(mem, pd, I2(v));
      if !Present(e2) { return true; }
      if !IsHuge(e2) { return false; }
      if Addr(e2) != frame { return false; }
      ghost var m := mem;
      StoreHuge(pd, I2(v), 0, v);
      ghost var m1 := mem;
      PruneDirectories(v, pdpt, pd);
      StoredHugeSame(m, m1, mem, pml4t, v / 512, 0);
      return true;
    }

    /** One round of the huge loop of `unmap_pages`, again with its own walk and checks. */
    method UnmapHugeRound(paddr: nat, vaddr: nat, i: nat) returns (ok: bool)
      requires Valid()
      modifies this`mem, this`free, this`tab
      ensures ok <==> P3(HugeVpnAt(vaddr, i)) !in old(tab) &&
                      HugeAt(old(Lookup(mem, pml4t, HugeVpnAt(vaddr, i))), HugeWord(paddr, i))
      ensures ok ==> KeepsLowest(old(tab), tab)
      ensures ok ==> Valid() && Shrunk(old(tab), tab) && free + mem.Keys == old(free + mem.Keys)
      ensures ok ==> StoredHuge(old(mem), mem, pml4t, HugeVpnAt(vaddr, i) / 512, 0)
      ensures ok && old(TidyExcept(Root)) ==> TidyExcept(Root)
      ensures Outcome(State(), ok) == UnmapHugeOnce(old(State()), pml4t, HugeVpnAt(vaddr, i), HugeWord(paddr, i))
    {
      hide Sound, TidyBut, Lookup, I4, I3, I2, StoredHuge, HugeVpnAt, HugeWord, FromPool, Idle, WithoutTable,
        WithEntry;
      var v, currPaddr := HugeVpnAt(vaddr, i), HugeWord(paddr, i);
      var i4, i3, i2 := I4(v), I3(v), I2(v);
      WalkSteps(mem, free, tab, pml4t, v);
      NothingHuge(mem, free, tab, pml4t, v);
      Levels(v);
      if !Present(Entry(mem, pml4t, i4)) { return true; }
      var pdpt := Addr(Entry(mem, pml4t, i4));
      if !Present(Entry(mem, pdpt, i3)) { return true; }
      var pd := Addr(Entry(mem, pdpt, i3));
      if !Present(Entry(mem, pd, i2)) { return true; }
      if !IsHuge(Entry(mem, pd, i2)) { return false; }
      if Addr(Entry(mem, pd, i2)) != currPaddr { return false; }
      ghost var m := mem;
      TidyAt(P2(v));
      StoreHuge(pd, i2, 0, v);
      ghost var m1 := mem;
      var emptied := PruneTable(pdpt, i3, pd, P1(v));
      if emptied {
        RootIn(mem, free, tab, pml4t);
        emptied := PruneTable(pml4t, i4, pdpt, Root);
      }
      StoredHugeSame(m, m1, mem, pml4t, v / 512, 0);
      return true;
    }

    /** The huge branch of `unmap_pages`. */
    method UnmapHugePages(paddr: nat, vaddr: nat, n: nat) returns (ok: bool)
      requires Valid() && vaddr < WORD && n <= HUGE_PAGES
      modifies this`mem, this`free, this`tab
      ensures ok <==> AllHugeAt(old(mem), pml4t, paddr, vaddr, n) && NoTableBelow(old(tab), vaddr, n)
      ensures ok ==> Valid() && Shrunk(old(tab), tab) && free + mem.Keys == old(free + mem.Keys)
      ensures ok ==> UnmappedHuge(old(mem), mem, pml4t, Vpn(vaddr) / 512, n)
      ensures ok && old(TidyExcept(Root)) ==> TidyExcept(Root)
      ensures Outcome(State(), ok) == UnmapHugeSequence(old(State()), pml4t, paddr, vaddr, 0, n)
    {
      hide FromPool, UnmapHugeOnce, Sound, TidyBut, Lookup, AllHugeAt, HugeAt, UnmappedHuge, StoredHuge, HugeNth,
        HugeAddrAt, Vpn, HugeWord;
      ghost var h0, m0, t0 := Vpn(vaddr) / 512, mem, tab;
      UnmappedNone(mem, pml4t, vaddr);
      var i: nat := 0;
      while i < n
        invariant i <= n && Valid() && Shrunk(old(tab), tab) && free + mem.Keys == old(free + mem.Keys)
        invariant Vpn(HugeAddrAt(vaddr, i)) / 512 == HugeNth(h0, i)
        invariant UnmappedHuge(m0, mem, pml4t, h0, i)
        invariant i > 0 ==> AllHugeAt(m0, pml4t, paddr, vaddr, i)
        invariant KeepsLowest(t0, tab) && NoTableBelow(t0, vaddr, i)
        invariant old(TidyExcept(Root)) ==> TidyExcept(Root)
        invariant UnmapHugeSequence(State(), pml4t, paddr, vaddr, i, n) ==
                  UnmapHugeSequence(old(State()), pml4t, paddr, vaddr, 0, n)
      {
        ghost var m := mem;
        ghost var v, t := HugeVpnAt(vaddr, i), tab;
        LowestStays(t0, t, v);
        NoTableNext(t0, vaddr, i, n);
        AllHugeAtNext(m0, pml4t, paddr, vaddr, i, n);
        UnmappedHugeNext(m0, m, m, pml4t, h0, i, v);
        ok := UnmapHugeRound(paddr, vaddr, i);
        if !ok { return; }
        UnmappedHugeNext(m0, m, mem, pml4t, h0, i, v);
        HugeAddrAtNext(vaddr, i);
        i := i + 1;
      }
      if n == 0 { AllHugeAtNext(m0, pml4t, paddr, vaddr, 0, 1); }
      ok := true;
    }
  }

  lemma {:induction false} StoredSmallSame(m: Mem, m1: Mem, m2: Mem, root: nat, v: nat, e: nat)
    requires StoredSmall(m, m1, root, v, e) && SameWalk(m2, m1, root)
    ensures StoredSmall(m, m2, root, v, e)
  {
  }

  lemma {:induction false} NothingSmall(m: Mem, root: nat, v: nat)
    requires v < PAGES
    ensures Lookup(m, root, v).Unmapped? ==> StoredSmall(m, m, root, v, 0)
  {
  }

  lemma {:induction false} StoredHugeSame(m: Mem, m1: Mem, m2: Mem, root: nat, h: nat, e: nat)
    requires StoredHuge(m, m1, root, h, e) && SameWalk(m2, m1, root)
    ensures StoredHuge(m, m2, root, h, e)
  {
  }

  /** Without a page table at its place, a page is unmapped only together with its 511 neighbours. */
  lemma {:induction false} NothingHuge(m: Mem, free: set<nat>, t: Tab, root: nat, v: nat)
    requires Sound(m, free, t, root) && v < PAGES
    ensures P3(v) !in t && Lookup(m, root, v).Unmapped? ==> StoredHuge(m, m, root, v / 512, 0)
  {
    if P3(v) !in t && Lookup(m, root, v).Unmapped? {
      forall u | 0 <= u < PAGES && u / 512 == v / 512 ensures Lookup(m, root, u) == Unmapped {
        SameIndices(v, u);
        WalkFollowsTab(m, t, root, v);
        WalkFollowsTab(m, t, root, u);
      }
    }
  }

  lemma {:induction false} TableSized(m: Mem, free: set<nat>, t: Tab, root: nat, w: Where)
    requires Sound(m, free, t, root) && w in t
    ensures t[w] in m && |m[t[w]]| == 512
  {
    assert Read(m, t)[w] == m[t[w]];
  }
}
