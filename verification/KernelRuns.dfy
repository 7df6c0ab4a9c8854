/** Whole runs of the mapping layer, against a model in which the address space is just a set of
    mapped ranges. */
module KernelRuns {
  import opened Pte
  import opened VmaMap
  import opened Kernel
  import S = RbShape
  import V = Vm
  import P = PageTable
  import M = Mmu
  import R = RbTree
  import T = TidyTables

  /** A mapped range: [start, end) backed from the frame and with the flags in `pte`. */
  datatype Range = Range(start: int, end: int, pte: int)

  datatype Op =
    | Kmap(paddr: nat, vaddr: nat, flags: nat, n: nat)
    | Kunmap(paddr: nat, vaddr: nat, flags: nat, n: nat)

  function Bytes(op: Op): nat { op.n * if IsHuge(op.flags) then 0x20_0000 else 0x1000 }

  function RangeOf(op: Op): Range { Range(op.vaddr, op.vaddr + Bytes(op), Join(op.paddr, op.flags)) }

  predicate Request(op: Op)
  {
    if IsHuge(op.flags) then HugeRequest(op.paddr, op.vaddr, op.flags, op.n)
    else SmallRequest(op.paddr, op.vaddr, op.flags, op.n)
  }

  predicate Holds(x: Range, va: int) { x.start <= va < x.end }

  predicate NamesRange(op: Op, x: Range)
  {
    && x.start == op.vaddr && x.end == op.vaddr + Bytes(op) && x.pte >= 0
    && Addr(x.pte) == op.paddr && IsHuge(x.pte) == IsHuge(op.flags)
  }

  /** What the kernel's callers must respect: new ranges are aligned, present and overlap nothing;
      an unmap inside a range names that range: its address, size, frame and page size. */
  ghost predicate Allowed(a: set<Range>, op: Op)
  {
    match op
    case Kmap(_, vaddr, _, _) =>
      Request(op) && forall x :: x in a ==> x.end <= vaddr || vaddr + Bytes(op) <= x.start
    case Kunmap(_, vaddr, _, _) =>
      forall x :: x in a && Holds(x, vaddr) ==> NamesRange(op, x)
  }

  ghost function Apply(a: set<Range>, op: Op): set<Range>
  {
    match op
    case Kmap(_, _, _, _) => a + {RangeOf(op)}
    case Kunmap(_, vaddr, _, _) => set x | x in a && !Holds(x, vaddr)
  }

  ghost predicate AllAllowed(a: set<Range>, ops: seq<Op>)
    decreases |ops|
  {
    ops == [] || (Allowed(a, ops[0]) && AllAllowed(Apply(a, ops[0]), ops[1..]))
  }

  ghost function ApplyAll(a: set<Range>, ops: seq<Op>): set<Range>
    decreases |ops|
  {
    if ops == [] then a else ApplyAll(Apply(a, ops[0]), ops[1..])
  }

  ghost function RangeOfNode(x: Node): Range { Range(x.vmaStart, x.vmaEnd, x.vmaPte) }

  ghost function View(s: seq<Node>): set<Range> { set x | x in s :: RangeOfNode(x) }

  lemma {:induction false} ViewMapped(s: seq<Node>, r: seq<Node>, op: Op)
    requires Mapped(s, r, op.paddr, op.vaddr, op.flags, Bytes(op))
    ensures View(r) == View(s) + {RangeOf(op)}
  {
    var x :| x in r && S.InsertedInto(s, x, r) && Describes(x, op.paddr, op.vaddr, op.flags, Bytes(op));
    MemberInserted(s, x, r);
    assert RangeOfNode(x) == RangeOf(op);
    forall y | y in s ensures RangeOfNode(y) in View(r) { assert y in r; }
    assert RangeOf(op) in View(r);
  }

  lemma {:induction false} ViewUnmapped(s: seq<Node>, r: seq<Node>, vaddr: nat)
    requires S.Sorted(s) && AllOk(s) && Unmapped(s, r, vaddr)
    ensures View(r) == set y | y in View(s) && !Holds(y, vaddr)
  {
    if x :| x in s && V.Contains(x, vaddr) {
      var z :| z in s && V.Contains(z, vaddr) && S.RemovedFrom(s, z, r);
      MemberRemoved(s, z, r);
      V.OnlyOne(s, z, vaddr);
    }
    assert forall y :: y in r <==> y in s && !V.Contains(y, vaddr);
  }

  lemma {:induction false} ViewApart(s: seq<Node>, start: int, end: int)
    requires forall x :: x in View(s) ==> x.end <= start || end <= x.start
    ensures Apart(s, start, end)
  {
    forall x | x in s ensures x.vmaEnd <= start || end <= x.vmaStart { assert RangeOfNode(x) in View(s); }
  }

  // ----- The tables that a set of ranges needs

  ghost function PathOf(pte: int, v: nat): set<P.Where>
    requires v < PAGES
  {
    if pte >= 0 && IsHuge(pte) then M.Path2(v) else M.Path3(v)
  }

  ghost predicate HoldsPage(x: Range, v: nat) { v < PAGES && Holds(x, AddressOf(v)) }

  /** The positions of all tables but the root that mapping these ranges takes. */
  ghost function Footprint(a: set<Range>): set<P.Where>
  {
    set x, v: nat, w | x in a && v < PAGES && HoldsPage(x, v) && w in PathOf(x.pte, v) :: w
  }

  lemma {:induction false} FootprintMember(a: set<Range>, x: Range, v: nat, w: P.Where)
    requires x in a && HoldsPage(x, v) && w in PathOf(x.pte, v)
    ensures w in Footprint(a)
  {
    hide PathOf;
  }

  lemma {:induction false} FootprintUnion(a: set<Range>, b: set<Range>)
    ensures Footprint(a + b) == Footprint(a) + Footprint(b)
  {
    hide PathOf, HoldsPage;
    forall w | w in Footprint(a + b) ensures w in Footprint(a) + Footprint(b) {
      var x, v: nat :| x in a + b && v < PAGES && HoldsPage(x, v) && w in PathOf(x.pte, v);
      if x in a { FootprintMember(a, x, v, w); } else { FootprintMember(b, x, v, w); }
    }
    forall w | w in Footprint(a) + Footprint(b) ensures w in Footprint(a + b) {
      var x, v: nat :| x in a + b && v < PAGES && HoldsPage(x, v) && w in PathOf(x.pte, v);
      FootprintMember(a + b, x, v, w);
    }
  }

  lemma {:induction false} FootprintSubset(a: set<Range>, b: set<Range>)
    requires a <= b
    ensures |Footprint(a)| <= |Footprint(b)|
  {
    hide Footprint;
    FootprintUnion(a, b);
    assert a + b == b;
    M.Difference(Footprint(a), Footprint(b));
  }

  /** When tree and tables agree, the tables are exactly those that the ranges need. */
  lemma {:induction false} TablesAreFootprint(s: seq<Node>, m: P.Mem, t: P.Tab, root: nat)
    requires AllOk(s) && Agree(s, m, root) && P.Tables(m, t, root) && P.Tidy(P.Read(m, t), t)
    ensures t.Keys == {P.Root} + Footprint(View(s))
  {
    hide Agree, AllOk, P.Tables, P.TidyBut, View, Footprint;
    forall w | w in t && w != P.Root ensures w in Footprint(View(s)) { TableIsNeeded(s, m, t, root, w); }
    forall w | w in Footprint(View(s)) ensures w in t { NeededIsTable(s, m, t, root, w); }
    assert P.Root in t by { RootThere(m, t, root); }
  }

  lemma {:induction false} RootThere(m: P.Mem, t: P.Tab, root: nat)
    requires P.Tables(m, t, root)
    ensures P.Root in t
  {
  }

  lemma {:induction false} TableIsNeeded(s: seq<Node>, m: P.Mem, t: P.Tab, root: nat, w: P.Where)
    requires AllOk(s) && Agree(s, m, root) && P.Tables(m, t, root) && P.Tidy(P.Read(m, t), t) && w in t && w != P.Root
    ensures w in Footprint(View(s))
  {
    hide Footprint, P.Lookup;
    var v := T.Inhabited(P.Read(m, t), t, w);
    P.WalkFollowsTab(m, t, root, v);
    AddressOfVpn(v);
    var va := AddressOf(v);
    assert AgreeAt(s, m, root, va);
    var x :| x in s && V.Contains(x, va);
    assert RangeOfNode(x) in View(s);
    FootprintMember(View(s), RangeOfNode(x), v, w);
  }

  lemma {:induction false} NeededIsTable(s: seq<Node>, m: P.Mem, t: P.Tab, root: nat, w: P.Where)
    requires AllOk(s) && Agree(s, m, root) && P.Tables(m, t, root) && w in Footprint(View(s))
    ensures w in t
  {
    hide P.Lookup;
    var r, v: nat :| r in View(s) && v < PAGES && HoldsPage(r, v) && w in PathOf(r.pte, v);
    var x :| x in s && RangeOfNode(x) == r;
    AddressOfVpn(v);
    assert AgreeAt(s, m, root, AddressOf(v));
    P.WalkFollowsTab(m, t, root, v);
    P.Prefix(P.Read(m, t), t, v);
  }

  /** The footprint of one request is what the mapping methods count. */
  lemma {:induction false} RequestFootprint(op: Op)
    requires Request(op)
    ensures Footprint({RangeOf(op)}) ==
              if IsHuge(op.flags) then M.HugeTables(Vpn(op.vaddr) / 512, op.n) else M.SmallTables(Vpn(op.vaddr), op.n)
  {
    if IsHuge(op.flags) { HugeFootprint(op); } else { SmallFootprint(op); }
  }

  lemma {:induction false} SmallFootprint(op: Op)
    requires Request(op) && !IsHuge(op.flags)
    ensures Footprint({RangeOf(op)}) == M.SmallTables(Vpn(op.vaddr), op.n)
  {
    hide M.Path3, M.Off, M.Nth, Vpn, IsHuge;
    var r, v0 := RangeOf(op), Vpn(op.vaddr);
    OpParts(op);
    SmallBounds(op.paddr, op.vaddr, op.flags, op.n);
    forall w | w in Footprint({r}) ensures w in M.SmallTables(v0, op.n) {
      var v: nat :| v < PAGES && HoldsPage(r, v) && w in PathOf(r.pte, v);
      SmallPage(op, v);
      M.OffNext(v, v0, M.Off(v, v0));
    }
    forall w | w in M.SmallTables(v0, op.n) ensures w in Footprint({r}) {
      var i: nat :| i < op.n && w in M.Path3(M.Nth(v0, i));
      M.OffNext(M.Nth(v0, i), v0, i);
      SmallPage(op, M.Nth(v0, i));
      FootprintMember({r}, r, M.Nth(v0, i), w);
    }
  }

  lemma {:induction false} OpParts(op: Op)
    requires Request(op)
    ensures RangeOf(op).pte >= 0 && IsHuge(RangeOf(op).pte) == IsHuge(op.flags) && Vpn(op.vaddr) < PAGES
    ensures if IsHuge(op.flags) then HugeRangeFits(op.paddr, op.vaddr, op.flags, op.n)
            else SmallRangeFits(op.paddr, op.vaddr, op.flags, op.n)
  {
    if IsHuge(op.flags) { HugeBounds(op.paddr, op.vaddr, op.flags, op.n); }
    JoinParts(op.paddr, op.flags);
  }

  lemma {:induction false} SmallPage(op: Op, v: nat)
    requires Request(op) && !IsHuge(op.flags) && v < PAGES
    ensures HoldsPage(RangeOf(op), v) <==> M.Off(v, Vpn(op.vaddr)) < op.n
  {
    AddressOfVpn(v);
    SmallRange(op.vaddr, op.n, AddressOf(v));
  }

  lemma {:induction false} HugePage(op: Op, v: nat)
    requires Request(op) && IsHuge(op.flags) && v < PAGES
    ensures HoldsPage(RangeOf(op), v) <==> M.HugeOff(v, Vpn(op.vaddr) / 512) < op.n
  {
    AddressOfVpn(v);
    HugeRange(op.vaddr, op.n, AddressOf(v));
  }

  lemma {:induction false} HugeFootprint(op: Op)
    requires Request(op) && IsHuge(op.flags)
    ensures Footprint({RangeOf(op)}) == M.HugeTables(Vpn(op.vaddr) / 512, op.n)
  {
    hide M.Path2, M.HugeOff, M.HugeNth, Vpn, IsHuge;
    var r, h0 := RangeOf(op), Vpn(op.vaddr) / 512;
    OpParts(op);
    HugeBounds(op.paddr, op.vaddr, op.flags, op.n);
    forall w | w in Footprint({r}) ensures w in M.HugeTables(h0, op.n) {
      var v: nat :| v < PAGES && HoldsPage(r, v) && w in PathOf(r.pte, v);
      HugePage(op, v);
      var i := M.HugeOff(v, h0);
      M.HugeOffNext(v, h0, i);
      M.SameDirectory(v, M.HugeNth(h0, i) * 512);
    }
    forall w | w in M.HugeTables(h0, op.n) ensures w in Footprint({r}) {
      var i: nat :| i < op.n && w in M.Path2(M.HugeNth(h0, i) * 512);
      var v := M.HugeNth(h0, i) * 512;
      M.HugeOffNext(v, h0, i);
      HugePage(op, v);
      FootprintMember({r}, r, v, w);
    }
  }

  /** Free frames and footprint trade places: their sum never changes, and a request fits iff the new
      footprint does. */
  lemma {:induction false} Trade(f: set<nat>, t: P.Tab, a: set<Range>, need: set<P.Where>, b: set<Range>)
    requires t.Keys == {P.Root} + Footprint(a) && Footprint(b) == Footprint(a) + need && P.Root !in need
    ensures M.Suffices(f, t, need) <==> |Footprint(b)| <= |f| + |Footprint(a)|
  {
    hide Footprint;
    assert need - t.Keys == Footprint(b) - Footprint(a);
    M.Difference(Footprint(a), Footprint(b));
  }

  lemma {:induction false} NoRoot(a: set<Range>)
    ensures P.Root !in Footprint(a)
  {
    forall x, v: nat, w | x in a && v < PAGES && HoldsPage(x, v) && w in PathOf(x.pte, v) ensures w != P.Root { }
  }

  ghost function Budget(k: KernelVm): nat
    reads k.tree, k.mmu
  {
    |k.mmu.free| + |Footprint(View(k.Vmas()))|
  }

  lemma {:induction false} BudgetIsFrames(k: KernelVm)
    requires k.Valid()
    ensures |k.mmu.free + k.mmu.mem.Keys| == Budget(k) + 1
    ensures k.mmu.tab.Keys == {P.Root} + Footprint(View(k.Vmas()))
  {
    hide Footprint, View, P.Tables, Agree, AllOk, P.TidyBut;
    TablesAreFootprint(k.Vmas(), k.mmu.mem, k.mmu.tab, k.mmu.pml4t);
    NoRoot(View(k.Vmas()));
    M.FrameCount(k.mmu.mem, k.mmu.free, k.mmu.tab, k.mmu.pml4t);
  }

  /** One request.  `ok` is false when the kernel panicked, which it does exactly if the frames do not suffice
      for the tables of the new set of ranges. */
  method Execute(k: KernelVm, op: Op) returns (ok: bool)
    requires k.Valid() && Allowed(View(k.Vmas()), op)
    modifies k.tree, k.tree.links.Keys, k.mmu
    ensures ok <==> Affords(old(Budget(k)), Apply(old(View(k.Vmas())), op))
    ensures ok ==> k.Valid() && View(k.Vmas()) == Apply(old(View(k.Vmas())), op) && Budget(k) == old(Budget(k))
    ensures k.mmu.Valid() && k.mmu.free + k.mmu.mem.Keys == old(k.mmu.free + k.mmu.mem.Keys)
    ensures fresh(k.tree.links.Keys - old(k.tree.links.Keys))
  {
    hide Footprint, P.Tables, P.TidyBut, Agree, AllOk, M.Sound, M.Suffices, M.SmallTables, M.HugeTables, Follows,
      Lost, M.MappedSmall, M.MappedHuge, S.RedBlack, V.Ordered;
    ghost var s := k.Vmas();
    BudgetIsFrames(k);
    match op
    case Kmap(paddr, vaddr, flags, n) =>
      ViewApart(s, vaddr, vaddr + Bytes(op));
      MapCost(k.mmu.free, k.mmu.tab, View(s), op);
      if IsHuge(flags) {
        HugeRoom(k, vaddr, n);
        ok := k.KmapHuge(paddr, vaddr, flags, n);
      } else {
        SmallRoom(k, vaddr, n);
        ok := k.KmapSmall(paddr, vaddr, flags, n);
      }
      if ok {
        ViewMapped(s, k.Vmas(), op);
        BudgetIsFrames(k);
      }
    case Kunmap(paddr, vaddr, flags, n) =>
      Release(k, op);
      ok := true;
      ViewUnmapped(s, k.Vmas(), vaddr);
      FootprintSubset(View(k.Vmas()), View(s));
      BudgetIsFrames(k);
  }

  /** An unmap request outside every range, or for exactly the range at its address. */
  method Release(k: KernelVm, op: Op)
    requires k.Valid() && op.Kunmap? && Allowed(View(k.Vmas()), op)
    modifies k.tree, k.tree.links.Keys, k.mmu
    ensures k.Valid() && Unmapped(old(k.Vmas()), k.Vmas(), op.vaddr)
    ensures k.mmu.free + k.mmu.mem.Keys == old(k.mmu.free + k.mmu.mem.Keys)
    ensures k.tree.links.Keys <= old(k.tree.links.Keys)
  {
    hide P.Tables, P.TidyBut, Agree, AllOk, S.RedBlack, S.Sorted, V.Ordered, M.AllSmallAt, M.AllHugeAt, M.NoTableBelow,
      M.UnmappedSmall, M.UnmappedHuge, Matches, Vpn, M.FromPool;
    ghost var s := k.Vmas();
    var ok;
    forall x | x in s && V.Contains(x, op.vaddr) ensures Names(x, op.paddr, op.vaddr, op.flags, Bytes(op)) {
      assert RangeOfNode(x) in View(s) && Holds(RangeOfNode(x), op.vaddr);
    }
    if IsHuge(op.flags) {
      forall x | x in s && V.Contains(x, op.vaddr)
        ensures op.n <= HUGE_PAGES && Matches(s, x, Span(op.vaddr, op.n, true))
        ensures M.AllHugeAt(k.mmu.mem, k.mmu.pml4t, op.paddr, op.vaddr, op.n)
        ensures M.NoTableBelow(k.mmu.tab, op.vaddr, op.n)
      {
        HugeNamed(s, x, k.mmu.mem, k.mmu.tab, k.mmu.pml4t, op.paddr, op.vaddr, op.flags, op.n);
      }
      ok := k.KunmapHuge(op.paddr, op.vaddr, op.n);
    } else {
      forall x | x in s && V.Contains(x, op.vaddr)
        ensures op.n <= PAGES && Matches(s, x, Span(op.vaddr, op.n, false))
        ensures M.AllSmallAt(k.mmu.mem, k.mmu.pml4t, op.paddr, Vpn(op.vaddr), op.n)
      {
        SmallNamed(s, x, k.mmu.mem, k.mmu.pml4t, op.paddr, op.vaddr, op.flags, op.n);
      }
      ok := k.KunmapSmall(op.paddr, op.vaddr, op.n);
    }
    assert ok;
  }

  lemma {:induction false} MapCost(f: set<nat>, t: P.Tab, a: set<Range>, op: Op)
    requires t.Keys == {P.Root} + Footprint(a) && op.Kmap? && Request(op)
    ensures (if IsHuge(op.flags) then M.Suffices(f, t, M.HugeTables(Vpn(op.vaddr) / 512, op.n))
             else M.Suffices(f, t, M.SmallTables(Vpn(op.vaddr), op.n)))
            <==> |Footprint(Apply(a, op))| <= |f| + |Footprint(a)|
  {
    hide Footprint, M.Suffices, M.SmallTables, M.HugeTables;
    RequestFootprint(op);
    FootprintUnion(a, {RangeOf(op)});
    NoRoot({RangeOf(op)});
    Trade(f, t, a, Footprint({RangeOf(op)}), a + {RangeOf(op)});
  }

  /** The tables of these ranges fit into `budget` frames. */
  ghost predicate Affords(budget: nat, a: set<Range>) { |Footprint(a)| <= budget }

  lemma {:induction false} AffordsLess(budget: nat, a: set<Range>, b: set<Range>)
    requires a <= b && Affords(budget, b)
    ensures Affords(budget, a)
  {
    hide Footprint;
    FootprintSubset(a, b);
  }

  /** At no point of the run do the mapped ranges need more tables than there are frames. */
  ghost predicate Affordable(budget: nat, a: set<Range>, ops: seq<Op>)
    decreases |ops|
  {
    Affords(budget, a) && (ops == [] || Affordable(budget, Apply(a, ops[0]), ops[1..]))
  }

  lemma {:induction false} RunHead(a: set<Range>, ops: seq<Op>, i: nat, budget: nat)
    requires i <= |ops| && AllAllowed(a, ops[i..])
    ensures i == |ops| ==> ApplyAll(a, ops[i..]) == a && (Affordable(budget, a, ops[i..]) <==> Affords(budget, a))
    ensures i < |ops| ==> Allowed(a, ops[i]) && AllAllowed(Apply(a, ops[i]), ops[i + 1..])
    ensures i < |ops| ==> ApplyAll(a, ops[i..]) == ApplyAll(Apply(a, ops[i]), ops[i + 1..])
    ensures i < |ops| && Affords(budget, a) ==>
              (Affordable(budget, a, ops[i..]) <==> Affordable(budget, Apply(a, ops[i]), ops[i + 1..]))
    ensures i < |ops| && !Affords(budget, Apply(a, ops[i])) ==> !Affordable(budget, a, ops[i..])
  {
    hide Footprint;
    if i < |ops| {
      assert ops[i..][0] == ops[i] && ops[i..][1..] == ops[i + 1..];
      assert Affordable(budget, Apply(a, ops[i]), ops[i + 1..]) ==> Affords(budget, Apply(a, ops[i]));
    }
  }

  /** Any run of allowed requests; it panics exactly if the frames do not suffice at some point. */
  method Run(k: KernelVm, ops: seq<Op>) returns (ok: bool)
    requires k.Valid() && AllAllowed(View(k.Vmas()), ops)
    modifies k.tree, k.tree.links.Keys, k.mmu
    ensures ok <==> Affordable(old(Budget(k)), old(View(k.Vmas())), ops)
    ensures ok ==> k.Valid() && View(k.Vmas()) == ApplyAll(old(View(k.Vmas())), ops)
    ensures k.mmu.Valid() && k.mmu.free + k.mmu.mem.Keys == old(k.mmu.free + k.mmu.mem.Keys)
  {
    hide *;
    ok := true;
    var i: nat := 0;
    ghost var a, budget := View(k.Vmas()), Budget(k);
    assert ops[0..] == ops;
    WithinBudget(k);
    while i < |ops|
      invariant 0 <= i <= |ops| && k.Valid() && ok
      invariant AllAllowed(View(k.Vmas()), ops[i..])
      invariant ApplyAll(View(k.Vmas()), ops[i..]) == ApplyAll(a, ops)
      invariant Affordable(budget, View(k.Vmas()), ops[i..]) <==> Affordable(budget, a, ops)
      invariant Budget(k) == budget && Affords(budget, View(k.Vmas()))
      invariant k.mmu.Valid() && k.mmu.free + k.mmu.mem.Keys == old(k.mmu.free + k.mmu.mem.Keys)
      invariant fresh(k.tree.links.Keys - old(k.tree.links.Keys))
    {
      RunHead(View(k.Vmas()), ops, i, budget);
      ok := Execute(k, ops[i]);
      if !ok { return; }
      i := i + 1;
    }
    RunHead(View(k.Vmas()), ops, i, budget);
  }

  lemma {:induction false} WithinBudget(k: KernelVm)
    requires k.Valid()
    ensures Affords(Budget(k), View(k.Vmas())) && k.mmu.Valid()
  {
  }

  /** Any run of allowed requests from the empty address space, whatever the rule by which frames are handed out. */
  method RunFromBoot(root: nat, frames: set<nat>, rule: M.Rule, ops: seq<Op>) returns (k: KernelVm, ok: bool)
    requires IsFrame(root) && root !in frames && (forall f :: f in frames ==> IsFrame(f)) && M.FromPool(rule)
    requires AllAllowed({}, ops)
    ensures ok <==> Affordable(|frames|, {}, ops)
    ensures ok ==> k.Valid() && View(k.Vmas()) == ApplyAll({}, ops)
    ensures k.mmu.free + k.mmu.mem.Keys == frames + {root}
    ensures ok && ApplyAll({}, ops) == {} ==> k.mmu.free == frames && k.tree.root == null
  {
    hide *;
    k := Boot(root, frames, rule);
    ok := Run(k, ops);
    if ok && View(k.Vmas()) == {} { AllReturned(k, root, frames); }
  }

  /** The address space before the first request. */
  method Boot(root: nat, frames: set<nat>, rule: M.Rule) returns (k: KernelVm)
    requires IsFrame(root) && root !in frames && (forall f :: f in frames ==> IsFrame(f)) && M.FromPool(rule)
    ensures k.Valid() && View(k.Vmas()) == {} && fresh(k.tree) && fresh(k.tree.links.Keys) && fresh(k.mmu)
    ensures k.mmu.pml4t == root && k.mmu.free == frames && k.mmu.mem.Keys == {root} && Budget(k) == |frames|
  {
    hide Footprint, Agree, P.Lookup, P.Tables, P.TidyBut, S.RedBlack, S.Sorted, M.FromPool;
    var tree := new R.RbTree();
    var mmu := new M.Mmu(root, frames, rule);
    k := new KernelVm(tree, mmu);
    NothingViewed(k.Vmas());
    T.OnlyTheRoot(mmu.mem, mmu.tab, root);
    NoFootprint();
  }

  lemma {:induction false} NoFootprint()
    ensures Footprint({}) == {}
  {
  }

  lemma {:induction false} NothingViewed(s: seq<Node>)
    ensures s == [] <==> View(s) == {}
  {
    if s != [] { assert RangeOfNode(s[0]) in View(s); }
  }

  /** When the last range is gone, every frame but the root table's is free again. */
  lemma {:induction false} AllReturned(k: KernelVm, root: nat, frames: set<nat>)
    requires k.Valid() && View(k.Vmas()) == {} && k.mmu.pml4t == root
    requires k.mmu.free + k.mmu.mem.Keys == frames + {root} && root !in frames
    ensures k.mmu.free == frames && k.tree.root == null
  {
    var s := k.Vmas();
    NothingViewed(s);
    forall v | 0 <= v < PAGES ensures P.Lookup(k.mmu.mem, root, v) == P.Unmapped {
      AddressOfVpn(v);
      assert AgreeAt(s, k.mmu.mem, root, AddressOf(v));
    }
    T.OnlyTheRoot(k.mmu.mem, k.mmu.tab, root);
    assert k.mmu.free == (k.mmu.free + k.mmu.mem.Keys) - {root};
  }

  /** After any run, an address translates exactly if some range of the model holds it, and then to
      that range's frame plus the offset. */
  lemma {:induction false} TranslationIsTheModel(k: KernelVm, va: nat)
    requires k.Valid() && Canonical(va)
    ensures var p := Translate(k.mmu.mem, k.mmu.pml4t, va);
            && (p.At? <==> exists x :: x in View(k.Vmas()) && Holds(x, va))
            && forall x :: x in View(k.Vmas()) && Holds(x, va) ==>
                 x.pte >= 0 && p == At(Addr(x.pte) + (va - x.start))
  {
    var s := k.Vmas();
    TranslatesByVma(s, k.mmu.mem, k.mmu.pml4t, va);
    if x :| x in s && V.Contains(x, va) {
      assert RangeOfNode(x) in View(s) && Holds(RangeOfNode(x), va);
    }
  }

  /** What a walk finds for an address of a range: its entry, moved on by whole pages. */
  ghost function LeafOf(x: Range, va: int): P.Leaf
    requires x.pte >= 0 && Holds(x, va)
  {
    if IsHuge(x.pte) then P.Huge(x.pte + (va - x.start) / 0x20_0000 * 0x20_0000)
    else P.Small(x.pte + (va - x.start) / 0x1000 * 0x1000)
  }

  /** After any run the walk finds, for every address of a range, the range's frame and flags. */
  lemma {:induction false} LeafIsTheModel(k: KernelVm, va: nat, x: Range)
    requires k.Valid() && Canonical(va) && x in View(k.Vmas()) && Holds(x, va)
    ensures x.pte >= 0 && P.Lookup(k.mmu.mem, k.mmu.pml4t, Vpn(va)) == LeafOf(x, va)
  {
    hide P.Lookup, P.Tables, P.TidyBut, S.RedBlack, S.Sorted, M.FromPool, Vpn, IsHuge, Canonical;
    var n :| n in k.Vmas() && RangeOfNode(n) == x;
    assert AgreeAt(k.Vmas(), k.mmu.mem, k.mmu.pml4t, va);
  }
}
