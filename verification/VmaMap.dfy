/** When a set of VMAs and the page tables say the same thing, and how mapping and unmapping a
    range keeps that so. */
module VmaMap {
  import opened Pte
  import opened PageTable
  import opened Mmu
  import TidyTables
  import S = RbShape
  import V = Vm

  type Node = S.Node

  /** Half of the canonical address space. */
  const HALF: nat := 0x8000_0000_0000

  predicate Canonical(va: int) { 0 <= va < HALF || WORD - HALF <= va < WORD }

  /** Bits 47 to 63 are all clear or all set. */
  lemma {:induction false} CanonicalExact(va: nat)
    requires va < 0x1_0000_0000_0000_0000
    ensures Canonical(va) <==> va / 0x8000_0000_0000 == 0 || va / 0x8000_0000_0000 == 0x1_FFFF
  {
  }

  /** A non-empty range inside one canonical half whose end does not wrap around. */
  predicate InHalf(s: int, e: int) { 0 <= s < e && (e <= HALF || (WORD - HALF <= s && e < WORD)) }

  /** The same, but the range may reach up to the end of the address space. */
  predicate InSpace(s: int, e: int) { 0 <= s < e && (e <= HALF || (WORD - HALF <= s && e <= WORD)) }

  // ----- Addresses and page numbers

  lemma {:induction false} VpnCanonical(va: nat)
    requires Canonical(va)
    ensures Vpn(va) == if va < HALF then va / 0x1000 else va / 0x1000 - 0xF_FFF0_0000_0000
    ensures if va < HALF then Vpn(va) < 0x8_0000_0000 else 0x8_0000_0000 <= Vpn(va)
  {
    var a := va / 0x1000;
    if va < HALF {
      assert a < 0x8_0000_0000;
    } else {
      assert 0xF_FFF8_0000_0000 <= a < 0x10_0000_0000_0000;
      assert a == 0xFFFF * 0x10_0000_0000 + (a - 0xF_FFF0_0000_0000);
    }
  }

  /** The canonical address of a page. */
  function AddressOf(v: nat): (va: nat)
    requires v < PAGES
  {
    if v < 0x8_0000_0000 then v * 0x1000 else (v + 0xF_FFF0_0000_0000) * 0x1000
  }

  lemma {:induction false} AddressOfVpn(v: nat)
    requires v < PAGES
    ensures Canonical(AddressOf(v)) && Vpn(AddressOf(v)) == v
  {
    VpnCanonical(AddressOf(v));
  }

  /** The pages a 4 KiB range covers are those of the addresses in it. */
  lemma {:induction false} SmallRange(s: nat, n: nat, va: nat)
    requires s % 0x1000 == 0 && n > 0 && InSpace(s, s + n * 0x1000) && Canonical(va)
    ensures Off(Vpn(va), Vpn(s)) < n <==> s <= va < s + n * 0x1000
    ensures s <= va < s + n * 0x1000 ==> Off(Vpn(va), Vpn(s)) == (va - s) / 0x1000
  {
    VpnCanonical(s);
    VpnCanonical(va);
    var a, b := va / 0x1000, s / 0x1000;
    assert s == b * 0x1000;
    assert va >= s ==> (va - s) / 0x1000 == a - b;
    assert s <= va < s + n * 0x1000 <==> b <= a < b + n;
    var x, y := Vpn(va), Vpn(s);
    assert Off(x, y) == if x >= y then x - y else x - y + PAGES;
  }

  lemma {:induction false} HugeRange(s: nat, n: nat, va: nat)
    requires s % 0x20_0000 == 0 && n > 0 && InSpace(s, s + n * 0x20_0000) && Canonical(va)
    ensures HugeOff(Vpn(va), Vpn(s) / 512) < n <==> s <= va < s + n * 0x20_0000
    ensures s <= va < s + n * 0x20_0000 ==> HugeOff(Vpn(va), Vpn(s) / 512) == (va - s) / 0x20_0000
  {
    VpnCanonical(s);
    VpnCanonical(va);
    var a, b := va / 0x20_0000, s / 0x20_0000;
    assert s == b * 0x20_0000;
    assert va / 0x1000 / 512 == a && s / 0x1000 / 512 == b;
    assert va >= s ==> (va - s) / 0x20_0000 == a - b;
    assert s <= va < s + n * 0x20_0000 <==> b <= a < b + n;
    var x, y := Vpn(va) / 512, Vpn(s) / 512;
    assert x == if va < HALF then a else a - 0x7FF_F800_0000;
    assert y == if s < HALF then b else b - 0x7FF_F800_0000;
    assert HugeOff(Vpn(va), y) == if x >= y then x - y else x - y + HUGE_PAGES;
  }

  // ----- VMAs and what they promise

  function PageBytes(pte: nat): nat { if IsHuge(pte) then 0x20_0000 else 0x1000 }

  /** A VMA as `kmap_pages` builds it: whole pages, present, its frame aligned like its pages. */
  ghost predicate VmaOk(x: Node)
  {
    && x.vmaPte >= 0 && Present(x.vmaPte) && InHalf(x.vmaStart, x.vmaEnd)
    && x.vmaStart % PageBytes(x.vmaPte) == 0 && (x.vmaEnd - x.vmaStart) % PageBytes(x.vmaPte) == 0
    && Addr(x.vmaPte) % PageBytes(x.vmaPte) == 0 && Addr(x.vmaPte) + (x.vmaEnd - x.vmaStart) <= PHYS_LIMIT
  }

  /** What the hardware must find for an address inside `x`. */
  ghost function Promised(x: Node, va: int): Leaf
    requires VmaOk(x) && V.Contains(x, va)
  {
    if IsHuge(x.vmaPte) then Huge(x.vmaPte + (va - x.vmaStart) / 0x20_0000 * 0x20_0000)
    else Small(x.vmaPte + (va - x.vmaStart) / 0x1000 * 0x1000)
  }

  ghost predicate AllOk(s: seq<Node>)
  {
    V.Disjoint(s) && forall x :: x in s ==> VmaOk(x)
  }

  ghost predicate AgreeAt(s: seq<Node>, m: Mem, root: nat, va: nat)
    requires AllOk(s)
  {
    && (forall x :: x in s && V.Contains(x, va) ==> Lookup(m, root, Vpn(va)) == Promised(x, va))
    && ((forall x :: x in s ==> !V.Contains(x, va)) ==> Lookup(m, root, Vpn(va)) == Unmapped)
  }

  /** An address translates exactly if some VMA contains it, and as that VMA says. */
  ghost predicate Agree(s: seq<Node>, m: Mem, root: nat)
    requires AllOk(s)
  {
    forall va: nat {:trigger AgreeAt(s, m, root, va)} :: Canonical(va) ==> AgreeAt(s, m, root, va)
  }

  ghost predicate Apart(s: seq<Node>, start: int, end: int)
  {
    forall x :: x in s ==> x.vmaEnd <= start || end <= x.vmaStart
  }

  // ----- Adding a VMA

  lemma {:induction false} MemberInserted(s: seq<Node>, n: Node, r: seq<Node>)
    requires S.InsertedInto(s, n, r)
    ensures forall x :: x in r <==> x in s || x == n
  {
    var i: nat :| S.InsertedAt(s, n, r, i);
    assert s == s[..i] + s[i..];
  }

  lemma {:induction false} MemberRemoved(s: seq<Node>, n: Node, r: seq<Node>)
    requires S.RemovedFrom(s, n, r) && S.Sorted(s)
    ensures n in s && forall x :: x in r <==> x in s && x != n
  {
    var i: nat :| S.RemovedAt(s, n, r, i);
    assert s == s[..i] + [n] + s[i + 1..];
    assert forall j :: 0 <= j < |s| && j != i ==> s[j] != n;
  }

  /** A sorted sequence of pairwise apart VMAs is disjoint in order. */
  lemma {:induction false} DisjointFromSorted(s: seq<Node>)
    requires S.Sorted(s)
    requires forall x :: x in s ==> x.vmaStart < x.vmaEnd
    requires forall x, y :: x in s && y in s && x != y ==> x.vmaEnd <= y.vmaStart || y.vmaEnd <= x.vmaStart
    ensures V.Disjoint(s)
  {
    forall i, j | 0 <= i < j < |s| ensures s[i].vmaEnd <= s[j].vmaStart {
      assert s[i] in s && s[j] in s && s[i].vmaStart < s[j].vmaStart;
    }
  }

  lemma {:induction false} PairsApart(s: seq<Node>)
    requires V.Disjoint(s)
    ensures forall x, y :: x in s && y in s && x != y ==> x.vmaEnd <= y.vmaStart || y.vmaEnd <= x.vmaStart
  {
    forall x, y | x in s && y in s && x != y ensures x.vmaEnd <= y.vmaStart || y.vmaEnd <= x.vmaStart {
      var i :| 0 <= i < |s| && s[i] == x;
      var j :| 0 <= j < |s| && s[j] == y;
    }
  }

  lemma {:induction false} OkInserted(s: seq<Node>, n: Node, r: seq<Node>)
    requires AllOk(s) && VmaOk(n) && S.InsertedInto(s, n, r) && S.Sorted(r) && Apart(s, n.vmaStart, n.vmaEnd)
    ensures AllOk(r)
  {
    MemberInserted(s, n, r);
    PairsApart(s);
    DisjointFromSorted(r);
  }

  lemma {:induction false} OkRemoved(s: seq<Node>, n: Node, r: seq<Node>)
    requires AllOk(s) && S.RemovedFrom(s, n, r) && S.Sorted(s) && S.Sorted(r)
    ensures AllOk(r)
  {
    MemberRemoved(s, n, r);
    PairsApart(s);
    DisjointFromSorted(r);
  }

  /** A range no VMA touches is unmapped. */
  lemma {:induction false} ApartIsUnmapped(s: seq<Node>, m: Mem, root: nat, start: int, end: int, va: nat)
    requires AllOk(s) && Agree(s, m, root) && Apart(s, start, end) && Canonical(va) && start <= va < end
    ensures Lookup(m, root, Vpn(va)) == Unmapped
  {
    assert AgreeAt(s, m, root, va);
  }

  /** One address of the new range, or of the old ones. */
  ghost predicate Changed(m: Mem, m': Mem, root: nat, n: Node)
    requires VmaOk(n)
  {
    forall va: nat :: Canonical(va) ==>
      Lookup(m', root, Vpn(va)) == if V.Contains(n, va) then Promised(n, va) else Lookup(m, root, Vpn(va))
  }

  lemma {:induction false} AgreeInserted(s: seq<Node>, n: Node, r: seq<Node>, m: Mem, m': Mem, root: nat)
    requires AllOk(s) && Agree(s, m, root) && AllOk(r) && VmaOk(n)
    requires S.InsertedInto(s, n, r) && Apart(s, n.vmaStart, n.vmaEnd) && Changed(m, m', root, n)
    ensures Agree(r, m', root)
  {
    MemberInserted(s, n, r);
    forall va: nat | Canonical(va) ensures AgreeAt(r, m', root, va) {
      assert AgreeAt(s, m, root, va);
      assert V.Contains(n, va) ==> forall x :: x in s ==> !V.Contains(x, va);
    }
  }

  // ----- Mapping over what is mapped

  /** Some VMA starts at `vaddr`, so that the tree will not take another one. */
  ghost predicate Taken(s: seq<Node>, vaddr: int) { exists x :: x in s && x.vmaStart == vaddr }

  lemma {:induction false} ApartNotTaken(s: seq<Node>, start: int, stop: int)
    requires AllOk(s) && Apart(s, start, stop) && start < stop
    ensures !Taken(s, start)
  {
  }

  /** A VMA that enters a tree keeps it in order iff it is a proper one apart from the others. */
  lemma {:induction false} OkInsertedIff(s: seq<Node>, n: Node, r: seq<Node>)
    requires AllOk(s) && S.InsertedInto(s, n, r) && S.Sorted(r) && n !in s
    ensures AllOk(r) <==> VmaOk(n) && Apart(s, n.vmaStart, n.vmaEnd)
  {
    hide VmaOk;
    MemberInserted(s, n, r);
    if AllOk(r) {
      PairsApart(r);
    } else if VmaOk(n) && Apart(s, n.vmaStart, n.vmaEnd) {
      OkInserted(s, n, r);
    }
  }

  /** The leaf that a request writes `d` bytes into its range. */
  ghost function LeafAt(paddr: nat, flags: nat, d: nat): Leaf
  {
    if IsHuge(flags) then HugeOf(Join(HugeFrameAt(paddr, d / 0x20_0000), flags))
    else SmallOf(Join(FrameAt(paddr, d / 0x1000), flags))
  }

  /** Every address of the request is promised already, as the request maps it. */
  ghost predicate Restates(s: seq<Node>, paddr: nat, vaddr: nat, flags: nat, bytes: nat)
    requires AllOk(s)
  {
    forall va: nat :: Canonical(va) && vaddr <= va < vaddr + bytes ==>
      exists x :: x in s && V.Contains(x, va) && Promised(x, va) == LeafAt(paddr, flags, va - vaddr)
  }

  /** Exactly the addresses of the request are mapped anew. */
  ghost predicate Rewritten(m: Mem, m': Mem, root: nat, paddr: nat, vaddr: nat, flags: nat, bytes: nat)
  {
    forall va: nat :: Canonical(va) ==>
      Lookup(m', root, Vpn(va)) ==
      if vaddr <= va < vaddr + bytes then LeafAt(paddr, flags, va - vaddr) else Lookup(m, root, Vpn(va))
  }

  /** Mapping a range without a new VMA keeps agreement iff the VMAs say the same already. */
  lemma {:induction false} AgreeRestated(s: seq<Node>, m: Mem, m': Mem, root: nat, paddr: nat, vaddr: nat, flags: nat,
                                         bytes: nat)
    requires AllOk(s) && Agree(s, m, root) && Rewritten(m, m', root, paddr, vaddr, flags, bytes)
    requires forall d: nat :: d < bytes ==> LeafAt(paddr, flags, d) != Unmapped
    ensures Agree(s, m', root) <==> Restates(s, paddr, vaddr, flags, bytes)
  {
    hide Lookup, Vpn, LeafAt, VmaOk, Canonical, Promised;
    PairsApart(s);
    if Agree(s, m', root) {
      forall va: nat | Canonical(va) && vaddr <= va < vaddr + bytes
        ensures exists x :: x in s && V.Contains(x, va) && Promised(x, va) == LeafAt(paddr, flags, va - vaddr)
      {
        assert AgreeAt(s, m', root, va);
      }
    }
    if Restates(s, paddr, vaddr, flags, bytes) {
      forall va: nat | Canonical(va) ensures AgreeAt(s, m', root, va) { assert AgreeAt(s, m, root, va); }
    }
  }

  // ----- Removing a VMA

  /** The pages that an unmap request names: `n` of 4 KiB or 2 MiB from `vaddr` on, in the circular space of page
      numbers. */
  datatype Span = Span(vaddr: nat, n: nat, huge: bool)

  ghost predicate InSpan(va: nat, p: Span)
  {
    if p.huge then HugeOff(Vpn(va), Vpn(p.vaddr) / 512) < p.n else Off(Vpn(va), Vpn(p.vaddr)) < p.n
  }

  ghost predicate Erased(m: Mem, m': Mem, root: nat, p: Span)
  {
    forall va: nat :: Canonical(va) ==>
      Lookup(m', root, Vpn(va)) == if InSpan(va, p) then Unmapped else Lookup(m, root, Vpn(va))
  }

  /** The request covers the whole of `x` and touches no other VMA. */
  ghost predicate Matches(s: seq<Node>, x: Node, p: Span)
  {
    forall y, va: nat :: y in s && Canonical(va) && V.Contains(y, va) ==> (InSpan(va, p) <==> y == x)
  }

  /** Taking `x` out of the tree and erasing the pages of a request keeps agreement iff the request covers `x` and
      touches no other VMA. */
  lemma {:induction false} AgreeRemoved(s: seq<Node>, x: Node, r: seq<Node>, m: Mem, m': Mem, root: nat, p: Span)
    requires AllOk(s) && Agree(s, m, root) && AllOk(r) && S.Sorted(s)
    requires S.RemovedFrom(s, x, r) && Erased(m, m', root, p)
    ensures Agree(r, m', root) <==> Matches(s, x, p)
  {
    hide Lookup, Vpn, InSpan, VmaOk, Canonical, Promised;
    MemberRemoved(s, x, r);
    PairsApart(s);
    if Matches(s, x, p) {
      forall va: nat | Canonical(va) ensures AgreeAt(r, m', root, va) { assert AgreeAt(s, m, root, va); }
    }
    if Agree(r, m', root) {
      forall y, va: nat | y in s && Canonical(va) && V.Contains(y, va) ensures InSpan(va, p) <==> y == x {
        assert AgreeAt(s, m, root, va) && AgreeAt(r, m', root, va);
        IsMapped(y, va);
      }
    }
  }

  lemma {:induction false} IsMapped(x: Node, va: nat)
    requires VmaOk(x) && V.Contains(x, va)
    ensures Promised(x, va) != Unmapped
  {
  }

  /** The mapping law without the frames: an address translates iff some VMA contains it. */
  ghost predicate Follows(s: seq<Node>, m: Mem, root: nat)
  {
    forall va: nat :: Canonical(va) ==> (Lookup(m, root, Vpn(va)) != Unmapped <==>
      exists x :: x in s && V.Contains(x, va))
  }

  /** An address that translates although no VMA contains it. */
  ghost predicate Lost(s: seq<Node>, m: Mem, root: nat, va: nat)
  {
    Canonical(va) && Lookup(m, root, Vpn(va)) != Unmapped && forall x :: x in s ==> !V.Contains(x, va)
  }

  lemma {:induction false} AgreeFollows(s: seq<Node>, m: Mem, root: nat)
    requires AllOk(s) && Agree(s, m, root)
    ensures Follows(s, m, root)
  {
    forall va: nat | Canonical(va)
      ensures Lookup(m, root, Vpn(va)) != Unmapped <==> exists x :: x in s && V.Contains(x, va)
    {
      assert AgreeAt(s, m, root, va);
    }
  }

  /** The new VMA does not reach into later ones, nor earlier ones into it, even if its end wrapped. */
  lemma {:induction false} OrderedInserted(s: seq<Node>, n: Node, r: seq<Node>, stop: int)
    requires AllOk(s) && S.InsertedInto(s, n, r) && S.Sorted(r) && Apart(s, n.vmaStart, stop)
    requires n.vmaStart < stop && n.vmaEnd <= stop
    ensures V.Ordered(r)
  {
    MemberInserted(s, n, r);
    PairsApart(s);
    forall i, j | 0 <= i < j < |r| ensures r[i].vmaEnd <= r[j].vmaStart {
      assert r[i].vmaStart < r[j].vmaStart && r[i] in r && r[j] in r;
      if r[i] != n && r[j] != n { assert r[i] in s && r[j] in s && VmaOk(r[j]); }
      if r[j] == n { assert r[i] in s; }
      if r[i] == n { assert r[j] in s && VmaOk(r[j]); }
    }
  }

  lemma {:induction false} Wrapped(e: nat)
    requires e <= WORD
    ensures e % WORD <= e && (e < WORD ==> e % WORD == e) && (e == WORD ==> e % WORD == 0)
  {
  }

  // ----- Ranges of 4 KiB pages

  /** `n` pages of `vaddr` backed by consecutive frames from `paddr`, as a caller may request it. */
  predicate SmallRangeFits(paddr: nat, vaddr: nat, flags: nat, n: nat)
  {
    && n > 0 && IsFlags(flags) && Present(flags) && !IsHuge(flags)
    && paddr % 0x1000 == 0 && vaddr % 0x1000 == 0
    && InSpace(vaddr, vaddr + n * 0x1000) && paddr + n * 0x1000 <= PHYS_LIMIT
  }

  predicate HugeRangeFits(paddr: nat, vaddr: nat, flags: nat, n: nat)
  {
    && n > 0 && IsFlags(flags) && Present(flags) && IsHuge(flags)
    && paddr % 0x20_0000 == 0 && vaddr % 0x20_0000 == 0
    && InSpace(vaddr, vaddr + n * 0x20_0000) && paddr + n * 0x20_0000 <= PHYS_LIMIT
  }

  /** A request whose end is an address, so that `vma_end` does not wrap around to 0. */
  predicate SmallRequest(paddr: nat, vaddr: nat, flags: nat, n: nat)
  {
    SmallRangeFits(paddr, vaddr, flags, n) && vaddr + n * 0x1000 < WORD
  }

  predicate HugeRequest(paddr: nat, vaddr: nat, flags: nat, n: nat)
  {
    HugeRangeFits(paddr, vaddr, flags, n) && vaddr + n * 0x20_0000 < WORD
  }

  /** `x` is the VMA that an unmap request names: its own address, size, frame and page size. */
  ghost predicate Names(x: Node, paddr: nat, vaddr: nat, flags: nat, bytes: nat)
  {
    && x.vmaStart == vaddr && x.vmaEnd == vaddr + bytes && x.vmaPte >= 0
    && Addr(x.vmaPte) == paddr && IsHuge(x.vmaPte) == IsHuge(flags)
  }

  /** Such a request is the one that the VMA was mapped with, up to the other flags. */
  lemma {:induction false} NamedSmall(x: Node, paddr: nat, vaddr: nat, flags: nat, n: nat)
    requires VmaOk(x) && Names(x, paddr, vaddr, flags, n * 0x1000) && !IsHuge(flags)
    ensures SmallRequest(paddr, vaddr, Flags(x.vmaPte), n)
    ensures Describes(x, paddr, vaddr, Flags(x.vmaPte), n * 0x1000)
  {
    hide Addr, Flags, IsFlags, IsFrame, Present, IsHuge;
    SplitEntry(x.vmaPte);
  }

  lemma {:induction false} NamedHuge(x: Node, paddr: nat, vaddr: nat, flags: nat, n: nat)
    requires VmaOk(x) && Names(x, paddr, vaddr, flags, n * 0x20_0000) && IsHuge(flags)
    ensures HugeRequest(paddr, vaddr, Flags(x.vmaPte), n)
    ensures Describes(x, paddr, vaddr, Flags(x.vmaPte), n * 0x20_0000)
  {
    hide Addr, Flags, IsFlags, IsFrame, Present, IsHuge;
    SplitEntry(x.vmaPte);
  }

  ghost predicate Describes(x: Node, paddr: nat, vaddr: nat, flags: nat, bytes: nat)
  {
    x.vmaStart == vaddr && x.vmaEnd == vaddr + bytes && x.vmaPte == Join(paddr, flags)
  }

  lemma {:induction false} SmallBounds(paddr: nat, vaddr: nat, flags: nat, n: nat)
    requires SmallRangeFits(paddr, vaddr, flags, n)
    ensures n <= PAGES && FrameAt(paddr, n) <= PHYS_LIMIT && vaddr < WORD && vaddr + n * 0x1000 <= WORD
  {
    Quotient12(paddr, paddr / 0x1000, 0);
  }

  lemma {:induction false} HugeBounds(paddr: nat, vaddr: nat, flags: nat, n: nat)
    requires HugeRangeFits(paddr, vaddr, flags, n)
    ensures n <= HUGE_PAGES && paddr % 0x1000 == 0 && vaddr < WORD && vaddr + n * 0x20_0000 <= WORD
    ensures HugeFrameAt(paddr, n) <= PHYS_LIMIT
  {
    assert paddr == paddr / 0x20_0000 * 0x200 * 0x1000;
    Quotient12(paddr, paddr / 0x20_0000 * 0x200, 0);
  }

  /** A range that ends at 2^64 is mapped, but its VMA has the end 0 and contains nothing. */
  lemma {:induction false} SmallLost(s: seq<Node>, x: Node, r: seq<Node>, paddr: nat, vaddr: nat, flags: nat, n: nat,
                                     m: Mem, m': Mem, root: nat)
    requires SmallRangeFits(paddr, vaddr, flags, n) && vaddr + n * 0x1000 == WORD && Apart(s, vaddr, WORD) && AllOk(s)
    requires S.InsertedInto(s, x, r) && x.vmaEnd == 0 && x.vmaStart == vaddr
    requires MappedSmall(m, m', root, paddr, Vpn(vaddr), flags, n)
    ensures Lost(r, m', root, vaddr) && !Follows(r, m', root)
  {
    MemberInserted(s, x, r);
    SmallBounds(paddr, vaddr, flags, n);
    FrameAtIsFrame(paddr, 0, n);
    JoinParts(FrameAt(paddr, 0), flags);
    assert Canonical(vaddr) && Off(Vpn(vaddr), Vpn(vaddr)) == 0;
  }

  lemma {:induction false} HugeLost(s: seq<Node>, x: Node, r: seq<Node>, paddr: nat, vaddr: nat, flags: nat, n: nat,
                                    m: Mem, m': Mem, root: nat)
    requires HugeRangeFits(paddr, vaddr, flags, n) && vaddr + n * 0x20_0000 == WORD && Apart(s, vaddr, WORD) && AllOk(s)
    requires S.InsertedInto(s, x, r) && x.vmaEnd == 0 && x.vmaStart == vaddr
    requires MappedHuge(m, m', root, paddr, Vpn(vaddr) / 512, flags, n)
    ensures Lost(r, m', root, vaddr) && !Follows(r, m', root)
  {
    MemberInserted(s, x, r);
    HugeBounds(paddr, vaddr, flags, n);
    HugeFrameIsFrame(paddr, 0, n);
    JoinParts(HugeFrameAt(paddr, 0), flags);
    assert Canonical(vaddr) && HugeOff(Vpn(vaddr), Vpn(vaddr) / 512) == 0;
  }

  lemma {:induction false} SmallIsOk(x: Node, paddr: nat, vaddr: nat, flags: nat, n: nat)
    requires SmallRequest(paddr, vaddr, flags, n) && Describes(x, paddr, vaddr, flags, n * 0x1000)
    ensures VmaOk(x) && !IsHuge(x.vmaPte) && Addr(x.vmaPte) == paddr && FrameAt(paddr, 0) == paddr
    ensures n <= PAGES && FrameAt(paddr, n) <= PHYS_LIMIT && vaddr < WORD
  {
    JoinParts(paddr, flags);
    Quotient12(n * 0x1000, n, 0);
    Quotient12(paddr, paddr / 0x1000, 0);
  }

  lemma {:induction false} SmallPromise(x: Node, paddr: nat, vaddr: nat, flags: nat, n: nat, va: nat)
    requires SmallRequest(paddr, vaddr, flags, n) && Describes(x, paddr, vaddr, flags, n * 0x1000)
    requires V.Contains(x, va)
    ensures VmaOk(x) && Promised(x, va) == SmallOf(Join(FrameAt(paddr, (va - vaddr) / 0x1000), flags))
    ensures Addr(Promised(x, va).entry) == FrameAt(paddr, (va - vaddr) / 0x1000)
  {
    hide Addr, Present, IsHuge, IsFlags, IsFrame, VmaOk, Vpn, SmallRequest, FrameAt;
    SmallIsOk(x, paddr, vaddr, flags, n);
    IndexBelow(va - vaddr, n);
    SmallPieces(paddr, vaddr, flags, n, (va - vaddr) / 0x1000);
  }

  lemma {:induction false} SmallPieces(paddr: nat, vaddr: nat, flags: nat, n: nat, i: nat)
    requires SmallRequest(paddr, vaddr, flags, n) && i < n
    ensures var f := FrameAt(paddr, i);
            f == paddr + i * 0x1000 && Present(Join(f, flags)) && Addr(Join(f, flags)) == f
  {
    FrameAtAligned(paddr, n);
    FrameAtAligned(paddr, i);
    FrameAtIsFrame(paddr, i, n);
    JoinParts(FrameAt(paddr, i), flags);
  }

  lemma {:induction false} HugePieces(paddr: nat, vaddr: nat, flags: nat, n: nat, i: nat)
    requires HugeRequest(paddr, vaddr, flags, n) && i < n && paddr % 0x1000 == 0
    ensures var f := HugeFrameAt(paddr, i); Present(Join(f, flags)) && Addr(Join(f, flags)) == f
  {
    hide Addr, IsFlags, IsFrame, Present;
    HugeFrameIsFrame(paddr, i, n);
    JoinParts(HugeFrameAt(paddr, i), flags);
  }

  lemma {:induction false} IndexBelow(d: nat, n: nat)
    ensures d < n * 0x1000 ==> d / 0x1000 < n
    ensures d < n * 0x20_0000 ==> d / 0x20_0000 < n
  {
  }

  lemma {:induction false} FrameAtAligned(paddr: nat, i: nat)
    ensures paddr % 0x1000 == 0 ==> FrameAt(paddr, i) == paddr + i * 0x1000
    ensures paddr % 0x20_0000 == 0 ==> HugeBaseAt(paddr, i) == HugeFrameAt(paddr, i) == paddr + i * 0x20_0000
  {
  }

  lemma {:induction false} SmallChanged(x: Node, paddr: nat, vaddr: nat, flags: nat, n: nat, m: Mem, m': Mem, root: nat)
    requires SmallRequest(paddr, vaddr, flags, n) && Describes(x, paddr, vaddr, flags, n * 0x1000)
    requires MappedSmall(m, m', root, paddr, Vpn(vaddr), flags, n)
    ensures VmaOk(x) && Changed(m, m', root, x)
  {
    hide Lookup, Vpn, Off, VmaOk, Promised, Canonical, FrameAt, Join;
    SmallIsOk(x, paddr, vaddr, flags, n);
    forall va: nat | Canonical(va)
      ensures Lookup(m', root, Vpn(va)) == if V.Contains(x, va) then Promised(x, va) else Lookup(m, root, Vpn(va))
    {
      SmallRange(vaddr, n, va);
      if V.Contains(x, va) { SmallPromise(x, paddr, vaddr, flags, n, va); }
    }
  }

  lemma {:induction false} SmallRewritten(paddr: nat, vaddr: nat, flags: nat, n: nat, m: Mem, m': Mem, root: nat)
    requires SmallRangeFits(paddr, vaddr, flags, n) && MappedSmall(m, m', root, paddr, Vpn(vaddr), flags, n)
    ensures Rewritten(m, m', root, paddr, vaddr, flags, n * 0x1000)
    ensures forall d: nat :: d < n * 0x1000 ==> LeafAt(paddr, flags, d) != Unmapped
  {
    hide Lookup, Vpn, Off, Canonical, FrameAt, Join, Present, IsFlags, IsFrame, IsHuge, Addr;
    SmallBounds(paddr, vaddr, flags, n);
    forall va: nat | Canonical(va)
      ensures Lookup(m', root, Vpn(va)) ==
              if vaddr <= va < vaddr + n * 0x1000 then LeafAt(paddr, flags, va - vaddr) else Lookup(m, root, Vpn(va))
    {
      SmallRange(vaddr, n, va);
    }
    forall d: nat | d < n * 0x1000 ensures LeafAt(paddr, flags, d) != Unmapped {
      IndexBelow(d, n);
      FrameAtIsFrame(paddr, d / 0x1000, n);
      JoinParts(FrameAt(paddr, d / 0x1000), flags);
    }
  }

  /** No page of a range that no VMA touches is mapped. */
  lemma {:induction false} SmallFree(s: seq<Node>, m: Mem, root: nat, vaddr: nat, n: nat, v: nat)
    requires AllOk(s) && Agree(s, m, root) && n > 0 && vaddr % 0x1000 == 0 && InSpace(vaddr, vaddr + n * 0x1000)
    requires Apart(s, vaddr, vaddr + n * 0x1000) && v < PAGES && Off(v, Vpn(vaddr)) < n
    ensures Lookup(m, root, v) == Unmapped
  {
    AddressOfVpn(v);
    SmallRange(vaddr, n, AddressOf(v));
    ApartIsUnmapped(s, m, root, vaddr, vaddr + n * 0x1000, AddressOf(v));
  }

  /** The pages of a VMA in the tree are mapped where `unmap_pages` expects them. */
  lemma {:induction false} SmallPresent(s: seq<Node>, x: Node, m: Mem, root: nat, paddr: nat, vaddr: nat,
                                        flags: nat, n: nat)
    requires AllOk(s) && Agree(s, m, root) && x in s
    requires SmallRequest(paddr, vaddr, flags, n) && Describes(x, paddr, vaddr, flags, n * 0x1000)
    ensures AllSmallAt(m, root, paddr, Vpn(vaddr), n)
  {
    SmallIsOk(x, paddr, vaddr, flags, n);
    forall i | 0 <= i < n ensures SmallAt(Lookup(m, root, Nth(Vpn(vaddr), i)), FrameWord(paddr, i)) {
      FrameFits(paddr, i, n);
      var va := vaddr + i * 0x1000;
      SmallRange(vaddr, n, va);
      Quotient12(va - vaddr, i, 0);
      OffNext(Vpn(va), Vpn(vaddr), i);
      assert AgreeAt(s, m, root, va);
      SmallPromise(x, paddr, vaddr, flags, n, va);
    }
  }

  lemma {:induction false} SmallErased(m: Mem, m': Mem, root: nat, vaddr: nat, n: nat)
    requires UnmappedSmall(m, m', root, Vpn(vaddr), n)
    ensures Erased(m, m', root, Span(vaddr, n, false))
  {
    hide Lookup, Vpn, Off;
  }

  /** A request that names the VMA is accepted by `unmap_pages` and matches the VMA. */
  lemma {:induction false} SmallNamed(s: seq<Node>, x: Node, m: Mem, root: nat, paddr: nat, vaddr: nat, flags: nat,
                                      n: nat)
    requires AllOk(s) && Agree(s, m, root) && S.Sorted(s) && x in s
    requires Names(x, paddr, vaddr, flags, n * 0x1000) && !IsHuge(flags)
    ensures n <= PAGES && AllSmallAt(m, root, paddr, Vpn(vaddr), n) && Matches(s, x, Span(vaddr, n, false))
  {
    hide Lookup, Vpn, Off, VmaOk, Agree, AllSmallAt, Flags, Describes, SmallRequest, Canonical;
    NamedSmall(x, paddr, vaddr, flags, n);
    SmallIsOk(x, paddr, vaddr, Flags(x.vmaPte), n);
    SmallPresent(s, x, m, root, paddr, vaddr, Flags(x.vmaPte), n);
    PairsApart(s);
    forall y, va: nat | y in s && Canonical(va) && V.Contains(y, va)
      ensures InSpan(va, Span(vaddr, n, false)) <==> y == x
    {
      SmallInside(x, paddr, vaddr, Flags(x.vmaPte), n, va);
    }
  }

  lemma {:induction false} SmallInside(x: Node, paddr: nat, vaddr: nat, flags: nat, n: nat, va: nat)
    requires SmallRequest(paddr, vaddr, flags, n) && Describes(x, paddr, vaddr, flags, n * 0x1000) && Canonical(va)
    ensures Off(Vpn(va), Vpn(vaddr)) < n <==> V.Contains(x, va)
  {
    SmallRange(vaddr, n, va);
  }

  // ----- Ranges of 2 MiB pages

  lemma {:induction false} HugeIsOk(x: Node, paddr: nat, vaddr: nat, flags: nat, n: nat)
    requires HugeRequest(paddr, vaddr, flags, n) && Describes(x, paddr, vaddr, flags, n * 0x20_0000)
    ensures VmaOk(x) && IsHuge(x.vmaPte) && Addr(x.vmaPte) == paddr && HugeBaseAt(paddr, 0) == paddr
    ensures n <= HUGE_PAGES && paddr % 0x20_0000 == 0 && paddr % 0x1000 == 0 && vaddr < WORD
  {
    assert paddr == paddr / 0x20_0000 * 0x200 * 0x1000;
    Quotient12(paddr, paddr / 0x20_0000 * 0x200, 0);
    JoinParts(paddr, flags);
    assert n * 0x20_0000 % 0x20_0000 == 0;
  }

  lemma {:induction false} HugePromise(x: Node, paddr: nat, vaddr: nat, flags: nat, n: nat, va: nat)
    requires HugeRequest(paddr, vaddr, flags, n) && Describes(x, paddr, vaddr, flags, n * 0x20_0000)
    requires V.Contains(x, va)
    ensures VmaOk(x) && Promised(x, va) == HugeOf(Join(HugeFrameAt(paddr, (va - vaddr) / 0x20_0000), flags))
    ensures Addr(Promised(x, va).entry) == HugeFrameAt(paddr, (va - vaddr) / 0x20_0000)
    ensures HugeFrameAt(paddr, (va - vaddr) / 0x20_0000) == HugeBaseAt(paddr, (va - vaddr) / 0x20_0000)
  {
    hide Addr, Present, IsHuge, IsFlags, IsFrame, VmaOk, Vpn, HugeRequest, HugeFrameAt, HugeBaseAt;
    HugeIsOk(x, paddr, vaddr, flags, n);
    IndexBelow(va - vaddr, n);
    FrameAtAligned(paddr, (va - vaddr) / 0x20_0000);
    HugePieces(paddr, vaddr, flags, n, (va - vaddr) / 0x20_0000);
  }

  lemma {:induction false} HugeChanged(x: Node, paddr: nat, vaddr: nat, flags: nat, n: nat, m: Mem, m': Mem, root: nat)
    requires HugeRequest(paddr, vaddr, flags, n) && Describes(x, paddr, vaddr, flags, n * 0x20_0000)
    requires MappedHuge(m, m', root, paddr, Vpn(vaddr) / 512, flags, n)
    ensures VmaOk(x) && Changed(m, m', root, x)
  {
    hide Lookup, Vpn, HugeOff, VmaOk, Promised, Canonical, HugeFrameAt, Join;
    HugeIsOk(x, paddr, vaddr, flags, n);
    forall va: nat | Canonical(va)
      ensures Lookup(m', root, Vpn(va)) == if V.Contains(x, va) then Promised(x, va) else Lookup(m, root, Vpn(va))
    {
      HugeRange(vaddr, n, va);
      if V.Contains(x, va) { HugePromise(x, paddr, vaddr, flags, n, va); }
    }
  }

  lemma {:induction false} HugeRewritten(paddr: nat, vaddr: nat, flags: nat, n: nat, m: Mem, m': Mem, root: nat)
    requires HugeRangeFits(paddr, vaddr, flags, n) && MappedHuge(m, m', root, paddr, Vpn(vaddr) / 512, flags, n)
    ensures Rewritten(m, m', root, paddr, vaddr, flags, n * 0x20_0000)
    ensures forall d: nat :: d < n * 0x20_0000 ==> LeafAt(paddr, flags, d) != Unmapped
  {
    hide Lookup, Vpn, HugeOff, Canonical, HugeFrameAt, Join, Present, IsFlags, IsFrame, IsHuge, Addr;
    HugeBounds(paddr, vaddr, flags, n);
    forall va: nat | Canonical(va)
      ensures Lookup(m', root, Vpn(va)) ==
              if vaddr <= va < vaddr + n * 0x20_0000 then LeafAt(paddr, flags, va - vaddr) else Lookup(m, root, Vpn(va))
    {
      HugeRange(vaddr, n, va);
    }
    forall d: nat | d < n * 0x20_0000 ensures LeafAt(paddr, flags, d) != Unmapped {
      IndexBelow(d, n);
      HugeFrameIsFrame(paddr, d / 0x20_0000, n);
      JoinParts(HugeFrameAt(paddr, d / 0x20_0000), flags);
    }
  }

  /** In tidy tables, a range no VMA touches has no page table below it either. */
  lemma {:induction false} HugeFree(s: seq<Node>, m: Mem, t: Tab, root: nat, vaddr: nat, n: nat, v: nat)
    requires AllOk(s) && Agree(s, m, root) && Tables(m, t, root) && Tidy(Read(m, t), t)
    requires n > 0 && vaddr % 0x20_0000 == 0 && InSpace(vaddr, vaddr + n * 0x20_0000)
    requires Apart(s, vaddr, vaddr + n * 0x20_0000) && v < PAGES && HugeOff(v, Vpn(vaddr) / 512) < n
    ensures P3(v) !in t
  {
    hide Lookup, ViaTab, Vpn;
    if P3(v) in t {
      var u := TidyTables.Inhabited(Read(m, t), t, P3(v));
      Levels(u);
      Levels(v);
      WalkFollowsTab(m, t, root, u);
      IndicesAreInjective(v, u);
      AddressOfVpn(u);
      HugeRange(vaddr, n, AddressOf(u));
      ApartIsUnmapped(s, m, root, vaddr, vaddr + n * 0x20_0000, AddressOf(u));
    }
  }

  lemma {:induction false} HugePresent(s: seq<Node>, x: Node, m: Mem, root: nat, paddr: nat, vaddr: nat, flags: nat,
                                       n: nat, i: nat)
    requires AllOk(s) && Agree(s, m, root) && x in s && i < n
    requires HugeRequest(paddr, vaddr, flags, n) && Describes(x, paddr, vaddr, flags, n * 0x20_0000)
    ensures var l := Lookup(m, root, HugeVpnAt(vaddr, i)); l.Huge? && Addr(l.entry) == HugeWord(paddr, i)
  {
    hide Lookup, Vpn, VmaOk, Join, IsFlags, Addr;
    HugeIsOk(x, paddr, vaddr, flags, n);
    var va := vaddr + i * 0x20_0000;
    assert HugeAddrAt(vaddr, i) == va && (va - vaddr) / 0x20_0000 == i;
    assert AgreeAt(s, m, root, va);
    HugePromise(x, paddr, vaddr, flags, n, va);
    HugeFits(paddr, i, n);
  }

  lemma {:induction false} HugeErased(m: Mem, m': Mem, root: nat, vaddr: nat, n: nat)
    requires UnmappedHuge(m, m', root, Vpn(vaddr) / 512, n)
    ensures Erased(m, m', root, Span(vaddr, n, true))
  {
    hide Lookup, Vpn, HugeOff;
  }

  lemma {:induction false} HugeMatches(s: seq<Node>, x: Node, paddr: nat, vaddr: nat, flags: nat, n: nat)
    requires AllOk(s) && S.Sorted(s) && x in s
    requires HugeRequest(paddr, vaddr, flags, n) && Describes(x, paddr, vaddr, flags, n * 0x20_0000)
    ensures Matches(s, x, Span(vaddr, n, true))
  {
    hide Vpn, HugeOff, VmaOk, Describes, HugeRequest, Canonical;
    PairsApart(s);
    forall y, va: nat | y in s && Canonical(va) && V.Contains(y, va)
      ensures InSpan(va, Span(vaddr, n, true)) <==> y == x
    {
      HugeInside(x, paddr, vaddr, flags, n, va);
    }
  }

  lemma {:induction false} HugeInside(x: Node, paddr: nat, vaddr: nat, flags: nat, n: nat, va: nat)
    requires HugeRequest(paddr, vaddr, flags, n) && Describes(x, paddr, vaddr, flags, n * 0x20_0000) && Canonical(va)
    ensures HugeOff(Vpn(va), Vpn(vaddr) / 512) < n <==> V.Contains(x, va)
  {
    HugeRange(vaddr, n, va);
  }

  // ----- Addresses

  datatype Physical = Fault | At(pa: nat)

  /** The physical address the hardware forms. */
  function Translate(m: Mem, root: nat, va: nat): Physical
  {
    match Lookup(m, root, Vpn(va))
    case Unmapped => Fault
    case Small(e) => At(Addr(e) + va % 0x1000)
    case Huge(e) => At(Addr(e) / 0x20_0000 * 0x20_0000 + va % 0x20_0000)
    case Giant(e) => At(Addr(e) / 0x4000_0000 * 0x4000_0000 + va % 0x4000_0000)
  }

  /** `Addr` of an entry a number of pages further on. */
  lemma {:induction false} AddrPlus(e: nat, d: nat)
    requires d % 0x1000 == 0 && Addr(e) + d < PHYS_LIMIT
    ensures Addr(e + d) == Addr(e) + d
  {
    var q, k := e / 0x1000, d / 0x1000;
    Quotient12(e + d, q + k, e % 0x1000);
    var hi, lo := q / 0x100_0000_0000, q % 0x100_0000_0000;
    assert d == k * 0x1000 && Addr(e) == lo * 0x1000;
    Quotient40(q + k, hi, lo + k);
  }

  lemma {:induction false} PromisedPhysical(x: Node, m: Mem, root: nat, va: nat)
    requires VmaOk(x) && V.Contains(x, va) && Lookup(m, root, Vpn(va)) == Promised(x, va)
    ensures Translate(m, root, va) == At(Addr(x.vmaPte) + (va - x.vmaStart))
  {
    hide Lookup, Vpn;
    var d := va - x.vmaStart;
    if IsHuge(x.vmaPte) {
      HugeParts(d, x.vmaStart, va, Addr(x.vmaPte));
      AddrPlus(x.vmaPte, d / 0x20_0000 * 0x20_0000);
    } else {
      SmallParts(d, x.vmaStart, va);
      AddrPlus(x.vmaPte, d / 0x1000 * 0x1000);
    }
  }

  lemma {:induction false} SmallParts(d: nat, s: nat, va: nat)
    requires va == s + d && s % 0x1000 == 0
    ensures va % 0x1000 == d % 0x1000 && d / 0x1000 * 0x1000 + d % 0x1000 == d
    ensures d / 0x1000 * 0x1000 % 0x1000 == 0
  {
  }

  lemma {:induction false} HugeParts(d: nat, s: nat, va: nat, a: nat)
    requires va == s + d && s % 0x20_0000 == 0 && a % 0x20_0000 == 0
    ensures va % 0x20_0000 == d % 0x20_0000 && d / 0x20_0000 * 0x20_0000 + d % 0x20_0000 == d
    ensures d / 0x20_0000 * 0x20_0000 % 0x1000 == 0
    ensures (a + d / 0x20_0000 * 0x20_0000) / 0x20_0000 * 0x20_0000 == a + d / 0x20_0000 * 0x20_0000
  {
    var q := d / 0x20_0000;
    Quotient12(q * 0x20_0000, q * 0x200, 0);
  }

  /** The law of the mapping layer: an address translates exactly if some VMA contains it, and then
      to that VMA's frame plus the offset. */
  lemma {:induction false} TranslatesByVma(s: seq<Node>, m: Mem, root: nat, va: nat)
    requires AllOk(s) && Agree(s, m, root) && Canonical(va)
    ensures Translate(m, root, va).At? <==> exists x :: x in s && V.Contains(x, va)
    ensures forall x :: x in s && V.Contains(x, va) ==>
              Translate(m, root, va) == At(Addr(x.vmaPte) + (va - x.vmaStart))
  {
    assert AgreeAt(s, m, root, va);
    forall x | x in s && V.Contains(x, va)
      ensures Translate(m, root, va) == At(Addr(x.vmaPte) + (va - x.vmaStart))
    {
      PromisedPhysical(x, m, root, va);
    }
  }
}
