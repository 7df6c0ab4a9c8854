/** paging.c: the identity map of the low 16 MiB under which the kernel switches to its own tables. */
module BootMap {
  import opened Common
  import opened Words
  import opened Rights
  import opened Pte
  import opened VmaMap
  import opened Kernel
  import opened KernelRuns
  import M = Mmu
  import P = PageTable
  import V = Vm

  /** PRESENT, WRITABLE and HUGE_PAGE, as map_boot_memory and unmap_boot_memory pass them. */
  const BOOT_FLAGS: nat := 0x3 + PTE_HUGE_PAGE

  lemma {:induction false} BootRequest()
    ensures var op := Kmap(0, 0, BOOT_FLAGS, 8);
            Request(op) && IsHuge(BOOT_FLAGS) && Bytes(op) == 0x100_0000 && RangeOf(op) == Range(0, 0x100_0000, 0x83)
    ensures Addr(0x83) == 0 && IsHuge(0x83)
  {
  }

  /** Eight 2 MiB pages from address 0 on share one PDPT and one page directory. */
  lemma {:induction false} BootTables()
    ensures M.HugeTables(Vpn(0) / 512, 8) == {P.P1(0), P.P2(0)}
  {
    assert Vpn(0) == 0;
    forall i: nat | i < 8 ensures M.HugeNth(0, i) == i && M.Path2(i * 512) == {P.P1(0), P.P2(0)} {
      assert I4(i * 512) == 0 && I3(i * 512) == 0;
    }
    assert M.HugeNth(0, 0) == 0;
  }

  /** An address that a 2 MiB page maps to itself, for reading, writing and executing by the kernel. */
  ghost predicate MappedToItself(m: P.Mem, root: nat, va: nat)
  {
    && Translate(m, root, va) == At(va) && P.Lookup(m, root, Vpn(va)) == P.Huge(va / 0x20_0000 * 0x20_0000 + 0x83)
    && var t := Trace(m, root, Vpn(va)); Writable(t) && Executable(t) && !UserMode(t)
  }

  /** `map_boot_memory`, with nothing mapped in the low 16 MiB: it panics iff there is no frame for its PDPT or its page
      directory, as far as these are missing; else exactly the low 16 MiB are mapped anew, to themselves, by writable
      2 MiB pages. */
  method MapBootMemory(k: KernelVm) returns (ok: bool)
    requires k.Valid() && forall x :: x in View(k.Vmas()) ==> x.end <= 0 || 0x100_0000 <= x.start
    modifies k.tree, k.tree.links.Keys, k.mmu
    ensures ok <==> M.Suffices(old(k.mmu.free), old(k.mmu.tab), {P.P1(0), P.P2(0)})
    ensures k.mmu.Valid() && k.mmu.free + k.mmu.mem.Keys == old(k.mmu.free + k.mmu.mem.Keys)
    ensures ok ==> k.Valid() && View(k.Vmas()) == old(View(k.Vmas())) + {Range(0, 0x100_0000, 0x83)}
    ensures ok ==> forall va: nat :: va < 0x100_0000 ==> MappedToItself(k.mmu.mem, k.mmu.pml4t, va)
  {
    hide k.Valid, View, Affords, Budget, Footprint, M.Suffices, M.HugeTables, P.P1, P.P2, MappedToItself, Request, Vpn;
    BootRequest();
    BootCost(k);
    ok := Execute(k, Kmap(0, 0, BOOT_FLAGS, 8));
    if ok {
      forall va: nat | va < 0x100_0000 ensures MappedToItself(k.mmu.mem, k.mmu.pml4t, va) {
        BootAddress(k, va);
      }
    }
  }

  lemma {:induction false} BootAddress(k: KernelVm, va: nat)
    requires k.Valid() && Range(0, 0x100_0000, 0x83) in View(k.Vmas()) && va < 0x100_0000
    ensures MappedToItself(k.mmu.mem, k.mmu.pml4t, va)
  {
    hide k.Valid, View, Translate, P.Lookup, Vpn, Addr, IsHuge;
    BootRequest();
    TranslationIsTheModel(k, va);
    LeafIsTheModel(k, va, Range(0, 0x100_0000, 0x83));
    BootRights(k, va);
  }

  lemma {:induction false} BootRights(k: KernelVm, va: nat)
    requires k.Valid() && va < 0x100_0000
    requires P.Lookup(k.mmu.mem, k.mmu.pml4t, Vpn(va)) == P.Huge(va / 0x20_0000 * 0x20_0000 + 0x83)
    ensures var t := Trace(k.mmu.mem, k.mmu.pml4t, Vpn(va)); Writable(t) && Executable(t) && !UserMode(t)
  {
    hide P.Lookup, Vpn, Trace, P.Tables, P.TidyBut, Agree, AllOk, BitAnd, Writable, Executable, UserMode;
    BootBits(va / 0x20_0000);
    RightsOfLeaf(k.mmu.mem, k.mmu.tab, k.mmu.pml4t, Vpn(va));
  }

  lemma {:induction false} BootBits(q: nat)
    requires q < 8
    ensures var e := q * 0x20_0000 + 0x83; BitAnd(e, 0x2) != 0 && BitAnd(e, 0x8000_0000_0000_0000) == 0
  {
    hide BitAnd, Pow2;
    var e := q * 0x20_0000 + 0x83;
    Powers();
    MaskField(e, 1, 2, 1, 2);
    MaskField(e, 1, 2, 63, 0x8000_0000_0000_0000);
    assert e / 2 == q * 0x10_0000 + 0x41;
  }

  lemma {:induction false} BootCost(k: KernelVm)
    requires k.Valid()
    ensures Affords(Budget(k), View(k.Vmas()) + {Range(0, 0x100_0000, 0x83)}) <==>
      M.Suffices(k.mmu.free, k.mmu.tab, {P.P1(0), P.P2(0)})
  {
    hide P.Tables, P.TidyBut, Agree, AllOk, View, Footprint, M.HugeTables, M.Suffices, Request, P.P1, P.P2, Vpn;
    BootRequest();
    BootTables();
    TablesAreFootprint(k.Vmas(), k.mmu.mem, k.mmu.tab, k.mmu.pml4t);
    MapCost(k.mmu.free, k.mmu.tab, View(k.Vmas()), Kmap(0, 0, BOOT_FLAGS, 8));
  }

  /** From the empty address space it takes two frames, and maps nothing but the low 16 MiB. */
  method BootFromNothing(root: nat, frames: set<nat>, rule: M.Rule) returns (k: KernelVm, ok: bool)
    requires IsFrame(root) && root !in frames && (forall f :: f in frames ==> IsFrame(f)) && M.FromPool(rule)
    ensures ok <==> |frames| >= 2
    ensures ok ==> k.Valid() && forall va: nat :: Canonical(va) ==>
      Translate(k.mmu.mem, k.mmu.pml4t, va) == if va < 0x100_0000 then At(va) else Fault
  {
    hide *;
    k := Boot(root, frames, rule);
    TwoFrames(k);
    ok := MapBootMemory(k);
    if ok { NothingElse(k); }
  }

  lemma {:induction false} NothingElse(k: KernelVm)
    requires k.Valid() && View(k.Vmas()) == {} + {Range(0, 0x100_0000, 0x83)}
    ensures forall va: nat :: Canonical(va) ==>
      Translate(k.mmu.mem, k.mmu.pml4t, va) == if va < 0x100_0000 then At(va) else Fault
  {
    hide k.Valid, View, Translate, Canonical, Addr;
    BootRequest();
    forall va: nat | Canonical(va)
      ensures Translate(k.mmu.mem, k.mmu.pml4t, va) == if va < 0x100_0000 then At(va) else Fault
    {
      TranslationIsTheModel(k, va);
    }
  }

  lemma {:induction false} TwoFrames(k: KernelVm)
    requires k.Valid() && View(k.Vmas()) == {}
    ensures M.Suffices(k.mmu.free, k.mmu.tab, {P.P1(0), P.P2(0)}) <==> |k.mmu.free| >= 2
  {
    hide P.Tables, P.TidyBut, Agree, AllOk, View, Footprint;
    TablesAreFootprint(k.Vmas(), k.mmu.mem, k.mmu.tab, k.mmu.pml4t);
    NoFootprint();
    P.Levels(0);
    assert {P.P1(0), P.P2(0)} - k.mmu.tab.Keys == {P.P1(0), P.P2(0)};
    assert |{P.P1(0), P.P2(0)}| == 2;
  }

  /** `unmap_boot_memory` takes exactly that map away again. */
  method UnmapBootMemory(k: KernelVm)
    requires k.Valid() && Range(0, 0x100_0000, 0x83) in View(k.Vmas())
    modifies k.tree, k.tree.links.Keys, k.mmu
    ensures k.Valid() && View(k.Vmas()) == old(View(k.Vmas())) - {Range(0, 0x100_0000, 0x83)}
    ensures forall va: nat :: va < 0x100_0000 ==> Translate(k.mmu.mem, k.mmu.pml4t, va) == Fault
  {
    hide k.Valid, View, Affords, Budget, Footprint, P.Lookup, Translate, Request;
    BootRequest();
    ghost var op, a := Kunmap(0, 0, BOOT_FLAGS, 8), View(k.Vmas());
    OnlyBoot(k);
    WithinBudget(k);
    AffordsLess(Budget(k), Apply(a, op), a);
    var _ := Execute(k, Kunmap(0, 0, BOOT_FLAGS, 8));
    assert Apply(a, op) == a - {Range(0, 0x100_0000, 0x83)};
    forall va: nat | va < 0x100_0000 ensures Translate(k.mmu.mem, k.mmu.pml4t, va) == Fault {
      TranslationIsTheModel(k, va);
    }
  }

  lemma {:induction false} OnlyBoot(k: KernelVm)
    requires k.Valid() && Range(0, 0x100_0000, 0x83) in View(k.Vmas())
    ensures forall x, va: nat :: x in View(k.Vmas()) && va < 0x100_0000 && Holds(x, va) ==>
      x == Range(0, 0x100_0000, 0x83)
  {
    hide P.Tables, P.TidyBut, Agree;
    PairsApart(k.Vmas());
    var n :| n in k.Vmas() && RangeOfNode(n) == Range(0, 0x100_0000, 0x83);
    forall x, va: nat | x in View(k.Vmas()) && va < 0x100_0000 && Holds(x, va)
      ensures x == Range(0, 0x100_0000, 0x83)
    {
      var m :| m in k.Vmas() && RangeOfNode(m) == x;
    }
  }
}
