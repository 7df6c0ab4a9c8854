/** The direct map: every whole page of usable physical memory, carved out of the e820 list
    (section 15.1 of the ACPI specification, INT 15H E820H) and mapped at a fixed offset. */
module DirectMap {
  import opened Common
  import opened Words
  import opened Pte
  import opened VmaMap
  import opened Kernel
  import opened KernelRuns
  import M = Mmu
  import P = PageTable
  import opened Rights

  const DIRECT_MAP_START: nat := 0xFFFF_8000_0020_0000
  const DIRECT_MAP_SIZE: nat := 0x4000_0000_0000
  const PML4_KERNEL_HALF_BASE: nat := 0xFFFF_8000_0000_0000
  /** PRESENT, WRITABLE, GLOBAL and NX. */
  const PTE_FLAGS_DIRECT_MAP: nat := 0x8000_0000_0000_0103

  datatype E820 = E820(base: nat, size: nat, kind: nat)

  function First(e: E820): nat { (e.base + 0xFFF) / 0x1000 * 0x1000 }

  function Last(e: E820): nat { (e.base + e.size) / 0x1000 * 0x1000 }

  function HugeFirst(e: E820): nat { (First(e) + 0x1F_FFFF) / 0x20_0000 * 0x20_0000 }

  function HugeLast(e: E820): nat { Last(e) / 0x20_0000 * 0x20_0000 }

  /** Maps [from, to) of physical memory into the direct map, with 2 MiB pages if `huge` and else with 4 KiB pages. */
  function Piece(from: nat, to: nat, huge: bool): Op
    requires from <= to
  {
    Kmap(from, DIRECT_MAP_START + from,
         if huge then PTE_FLAGS_DIRECT_MAP + PTE_HUGE_PAGE else PTE_FLAGS_DIRECT_MAP,
         (to - from) / if huge then 0x20_0000 else 0x1000)
  }

  /** The requests for one entry: a 4 KiB head, a 2 MiB middle and a 4 KiB tail. */
  function Carve(e: E820): seq<Op>
  {
    if e.kind != 1 || First(e) >= Last(e) then []
    else if HugeFirst(e) >= HugeLast(e) then [Piece(First(e), Last(e), false)]
    else
      (if First(e) < HugeFirst(e) then [Piece(First(e), HugeFirst(e), false)] else []) +
      [Piece(HugeFirst(e), HugeLast(e), true)] +
      (if HugeLast(e) < Last(e) then [Piece(HugeLast(e), Last(e), false)] else [])
  }

  lemma {:induction false} CarvePoints(e: E820)
    requires First(e) < Last(e)
    ensures First(e) % 0x1000 == 0 && Last(e) % 0x1000 == 0
    ensures HugeFirst(e) % 0x20_0000 == 0 && HugeLast(e) % 0x20_0000 == 0
    ensures HugeFirst(e) % 0x1000 == 0 && HugeLast(e) % 0x1000 == 0
    ensures First(e) <= HugeFirst(e) && HugeLast(e) <= Last(e) <= e.base + e.size
  {
    var a, b := (First(e) + 0x1F_FFFF) / 0x20_0000, Last(e) / 0x20_0000;
    Quotient12(a * 0x20_0000, a * 0x200, 0);
    Quotient12(b * 0x20_0000, b * 0x200, 0);
  }

  lemma {:induction false} FlagsOk()
    ensures IsFlags(PTE_FLAGS_DIRECT_MAP) && IsFlags(PTE_FLAGS_DIRECT_MAP + PTE_HUGE_PAGE)
    ensures Present(PTE_FLAGS_DIRECT_MAP) && Present(PTE_FLAGS_DIRECT_MAP + PTE_HUGE_PAGE)
    ensures !IsHuge(PTE_FLAGS_DIRECT_MAP) && IsHuge(PTE_FLAGS_DIRECT_MAP + PTE_HUGE_PAGE)
    ensures PTE_FLAGS_DIRECT_MAP == 0x8000_0000_0000_0103
  {
  }

  /** A piece is a proper request, and its range is the piece, moved up by DIRECT_MAP_START. */
  lemma {:induction false} PieceOk(from: nat, to: nat, huge: bool)
    requires from < to <= DIRECT_MAP_SIZE
    requires from % 0x1000 == 0 && to % 0x1000 == 0
    requires huge ==> from % 0x20_0000 == 0 && to % 0x20_0000 == 0
    ensures var op := Piece(from, to, huge);
            && Request(op) && op.vaddr == DIRECT_MAP_START + from && Bytes(op) == to - from
            && var r := RangeOf(op);
               r.start == DIRECT_MAP_START + from && r.end == DIRECT_MAP_START + to &&
               r.pte >= 0 && Addr(r.pte) == from
  {
    hide IsFlags, Present, IsHuge, Addr;
    FlagsOk();
    PieceSizes(from, to);
    JoinParts(from, Piece(from, to, huge).flags);
  }

  lemma {:induction false} PieceSizes(from: nat, to: nat)
    requires from < to
    ensures from % 0x1000 == 0 && to % 0x1000 == 0 ==>
              (to - from) / 0x1000 > 0 && (to - from) / 0x1000 * 0x1000 == to - from &&
              (DIRECT_MAP_START + from) % 0x1000 == 0
    ensures from % 0x20_0000 == 0 && to % 0x20_0000 == 0 ==>
              (to - from) / 0x20_0000 > 0 && (to - from) / 0x20_0000 * 0x20_0000 == to - from &&
              (DIRECT_MAP_START + from) % 0x20_0000 == 0
  {
  }

  /** The page holding physical address `a` lies wholly inside the usable entry `e`. */
  predicate PageInside(e: E820, a: nat)
  {
    e.kind == 1 && e.base <= a / 0x1000 * 0x1000 && a / 0x1000 * 0x1000 + 0x1000 <= e.base + e.size
  }

  lemma {:induction false} InsideIsBetween(e: E820, a: nat)
    requires e.kind == 1
    ensures PageInside(e, a) <==> First(e) <= a < Last(e)
  {
    var p := a / 0x1000;
    var f, l := (e.base + 0xFFF) / 0x1000, (e.base + e.size) / 0x1000;
    assert First(e) <= a <==> f <= p;
    assert a < Last(e) <==> p < l;
    assert f <= p <==> e.base <= p * 0x1000;
    assert p < l <==> p * 0x1000 + 0x1000 <= e.base + e.size;
  }

  ghost function RangesOf(ops: seq<Op>): set<Range> { set op | op in ops :: RangeOf(op) }

  /** The pieces of an entry map exactly the pages wholly inside it, each to its own frame. */
  lemma {:induction false} CarveExact(e: E820, a: nat)
    requires e.kind == 1 ==> e.base + e.size <= DIRECT_MAP_SIZE
    ensures PageInside(e, a) <==> HeldBy(RangesOf(Carve(e)), DIRECT_MAP_START + a)
    ensures forall r :: r in RangesOf(Carve(e)) && Holds(r, DIRECT_MAP_START + a) ==>
              r.pte >= 0 && Addr(r.pte) + (DIRECT_MAP_START + a - r.start) == a
  {
    hide First, Last, HugeFirst, HugeLast, Addr, Piece, RangeOf;
    CarveRanges(e);
    if e.kind == 1 {
      InsideIsBetween(e, a);
      if First(e) < Last(e) {
        CarvePoints(e);
        CarvePieces(e);
      }
    }
  }

  /** The 2 MiB page holding physical address `a` lies wholly inside the usable entry `e`. */
  predicate HugeInside(e: E820, a: nat)
  {
    e.kind == 1 && e.base <= a / 0x20_0000 * 0x20_0000 && a / 0x20_0000 * 0x20_0000 + 0x20_0000 <= e.base + e.size
  }

  lemma {:induction false} HugeIsBetween(e: E820, a: nat)
    requires e.kind == 1
    ensures HugeInside(e, a) <==> HugeFirst(e) <= a < HugeLast(e)
  {
    var h := a / 0x20_0000;
    InsideIsBetween(e, h * 0x20_0000);
    InsideIsBetween(e, h * 0x20_0000 + 0x1F_F000);
    assert h * 0x20_0000 / 0x1000 * 0x1000 == h * 0x20_0000;
    assert (h * 0x20_0000 + 0x1F_F000) / 0x1000 * 0x1000 == h * 0x20_0000 + 0x1F_F000;
    assert HugeFirst(e) <= a <==> First(e) <= h * 0x20_0000;
    assert a < HugeLast(e) <==> h * 0x20_0000 + 0x20_0000 <= Last(e);
  }

  /** What the walk finds `a` bytes into the direct map: a 2 MiB page if one around `a` lies wholly inside the entry and
      else a 4 KiB page, of the memory at `a`, PRESENT, WRITABLE, GLOBAL and NX (bits 0, 1, 8 and 63). */
  function DirectLeaf(e: E820, a: nat): P.Leaf
  {
    if HugeInside(e, a) then P.Huge(a / 0x20_0000 * 0x20_0000 + 0x8000_0000_0000_0183)
    else P.Small(a / 0x1000 * 0x1000 + 0x8000_0000_0000_0103)
  }

  lemma {:induction false} PieceLeaf(from: nat, to: nat, huge: bool, a: nat)
    requires from <= a < to && PieceIs(from, to, huge) && IsFrame(from) && (huge ==> from % 0x20_0000 == 0)
    ensures var r := RangeOf(Piece(from, to, huge));
            && Holds(r, DIRECT_MAP_START + a) && r.pte >= 0
            && LeafOf(r, DIRECT_MAP_START + a) ==
               if huge then P.Huge(a / 0x20_0000 * 0x20_0000 + 0x8000_0000_0000_0183)
               else P.Small(a / 0x1000 * 0x1000 + 0x8000_0000_0000_0103)
  {
    hide IsFlags, Present, IsHuge, Addr, Request;
    FlagsOk();
    JoinParts(from, Piece(from, to, huge).flags);
    WholePages(from, a, 0x1000);
    if huge { WholePages(from, a, 0x20_0000); }
  }

  lemma {:induction false} WholePages(from: nat, a: nat, s: nat)
    requires from <= a && s > 0 && from % s == 0
    ensures a / s * s == from + (a - from) / s * s
  {
    var q, k, r := from / s, (a - from) / s, (a - from) % s;
    assert from == s * q && a - from == s * k + r;
    assert s * (q + k) == s * q + s * k;
    Quotient(a, s, q + k, r);
  }

  /** Every range of an entry maps its addresses with the leaf that the entry's base and size dictate. */
  lemma {:induction false} CarveLeaf(e: E820, a: nat, r: Range)
    requires e.kind == 1 ==> e.base + e.size <= DIRECT_MAP_SIZE
    requires r in RangesOf(Carve(e)) && Holds(r, DIRECT_MAP_START + a)
    ensures r.pte >= 0 && LeafOf(r, DIRECT_MAP_START + a) == DirectLeaf(e, a)
  {
    hide First, Last, HugeFirst, HugeLast, Addr, Piece, RangeOf, Carve, RangesOf, LeafOf, HugeInside, Request;
    CarveRanges(e);
    HugeIsBetween(e, a);
    CarvePoints(e);
    CarvePieces(e);
    FirstInside(e);
    var f, hf, hl, l := First(e), HugeFirst(e), HugeLast(e), Last(e);
    if hf >= hl {
      PieceLeaf(f, l, false, a);
    } else if a < hf {
      PieceLeaf(f, hf, false, a);
    } else if a < hl {
      PieceLeaf(hf, hl, true, a);
    } else {
      PieceLeaf(hl, l, false, a);
    }
  }

  /** The ranges of an entry, written out. */
  lemma {:induction false} CarveRanges(e: E820)
    ensures RangesOf(Carve(e)) ==
            if e.kind != 1 || First(e) >= Last(e) then {}
            else if HugeFirst(e) >= HugeLast(e) then {RangeOf(Piece(First(e), Last(e), false))}
            else (if First(e) < HugeFirst(e) then {RangeOf(Piece(First(e), HugeFirst(e), false))} else {}) +
                 {RangeOf(Piece(HugeFirst(e), HugeLast(e), true))} +
                 (if HugeLast(e) < Last(e) then {RangeOf(Piece(HugeLast(e), Last(e), false))} else {})
  {
    hide First, Last, HugeFirst, HugeLast, Piece, RangeOf;
    forall op | op in Carve(e) ensures RangeOf(op) in RangesOf(Carve(e)) { }
  }

  /** Every piece of an entry is a proper request inside the entry. */
  lemma {:induction false} CarvePieces(e: E820)
    requires e.kind == 1 && First(e) < Last(e) && e.base + e.size <= DIRECT_MAP_SIZE
    ensures var f, hf, hl, l := First(e), HugeFirst(e), HugeLast(e), Last(e);
            if hf >= hl then PieceIs(f, l, false)
            else (f < hf ==> PieceIs(f, hf, false)) && PieceIs(hf, hl, true) && (hl < l ==> PieceIs(hl, l, false))
  {
    CarvePoints(e);
    var f, hf, hl, l := First(e), HugeFirst(e), HugeLast(e), Last(e);
    if hf >= hl {
      PieceOk(f, l, false);
    } else {
      if f < hf { PieceOk(f, hf, false); }
      PieceOk(hf, hl, true);
      if hl < l { PieceOk(hl, l, false); }
    }
  }

  ghost predicate PieceIs(from: nat, to: nat, huge: bool)
  {
    && from < to && var op := Piece(from, to, huge);
    && op.Kmap? && Request(op) && op.vaddr == DIRECT_MAP_START + from && Bytes(op) == to - from
    && var r := RangeOf(op);
       r.start == DIRECT_MAP_START + from && r.end == DIRECT_MAP_START + to && r.pte >= 0 && Addr(r.pte) == from
  }

  // ----- map_direct_mapping

  /** No range of `a` meets [lo, hi) of the direct map. */
  ghost predicate Clear(a: set<Range>, lo: nat, hi: nat)
  {
    forall x :: x in a ==> x.end <= DIRECT_MAP_START + lo || DIRECT_MAP_START + hi <= x.start
  }

  method MapPiece(k: KernelVm, from: nat, to: nat, huge: bool) returns (ok: bool)
    requires k.Valid() && PieceIs(from, to, huge) && Clear(View(k.Vmas()), from, to)
    modifies k.tree, k.tree.links.Keys, k.mmu
    ensures ok <==> Affords(old(Budget(k)), old(View(k.Vmas())) + {RangeOf(Piece(from, to, huge))})
    ensures k.mmu.Valid() && k.mmu.free + k.mmu.mem.Keys == old(k.mmu.free + k.mmu.mem.Keys)
    ensures ok ==> k.Valid() && View(k.Vmas()) == old(View(k.Vmas())) + {RangeOf(Piece(from, to, huge))}
    ensures ok ==> Budget(k) == old(Budget(k))
    ensures fresh(k.tree.links.Keys - old(k.tree.links.Keys))
  {
    hide k.Valid, View, IsHuge, Addr, Join, Affords, Budget;
    ok := Execute(k, Piece(from, to, huge));
  }

  lemma {:induction false} ClearNext(a: set<Range>, from: nat, to: nat, huge: bool, lo: nat, hi: nat)
    requires PieceIs(from, to, huge) && Clear(a, lo, hi) && (to <= lo || hi <= from)
    ensures Clear(a + {RangeOf(Piece(from, to, huge))}, lo, hi)
  {
  }

  method MapEntry(k: KernelVm, e: E820) returns (ok: bool)
    requires k.Valid()
    requires e.kind == 1 ==> e.base + e.size <= DIRECT_MAP_SIZE && Clear(View(k.Vmas()), e.base, e.base + e.size)
    modifies k.tree, k.tree.links.Keys, k.mmu
    ensures ok <==> M.Suffices(old(k.mmu.free), old(k.mmu.tab), DirectTables([e]))
    ensures ok <==> Affords(old(Budget(k)), old(View(k.Vmas())) + RangesOf(Carve(e)))
    ensures k.mmu.Valid() && k.mmu.free + k.mmu.mem.Keys == old(k.mmu.free + k.mmu.mem.Keys)
    ensures ok ==>
      k.Valid() && View(k.Vmas()) == old(View(k.Vmas())) + RangesOf(Carve(e)) && Budget(k) == old(Budget(k))
    ensures fresh(k.tree.links.Keys - old(k.tree.links.Keys))
  {
    hide k.Valid, M.Sound, View, PieceIs, First, Last, HugeFirst, HugeLast, Carve, RangesOf, RangeOf, Piece, Affords,
      Budget, M.Suffices, DirectTables;
    CarveRanges(e);
    EntryCost(k, e);
    WithinBudget(k);
    ghost var a, all, budget := View(k.Vmas()), View(k.Vmas()) + RangesOf(Carve(e)), Budget(k);
    if e.kind != 1 {
      assert all == a;
      return true;
    }
    var first, last := First(e), Last(e);
    if first >= last {
      assert all == a;
      return true;
    }
    CarvePoints(e);
    CarvePieces(e);
    FirstInside(e);
    var hugeFirst, hugeLast := HugeFirst(e), HugeLast(e);
    if hugeFirst >= hugeLast {
      assert a + {RangeOf(Piece(first, last, false))} == all;
      ok := MapPiece(k, first, last, false);
      return;
    }
    ok := MapThree(k, first, hugeFirst, hugeLast, last);
  }

  ghost function PieceIf(from: nat, to: nat): set<Range>
    requires from <= to
  {
    if from < to then {RangeOf(Piece(from, to, false))} else {}
  }

  /** A head, a 2 MiB aligned middle and a tail. */
  method MapThree(k: KernelVm, first: nat, hugeFirst: nat, hugeLast: nat, last: nat) returns (ok: bool)
    requires k.Valid() && first <= hugeFirst < hugeLast <= last && Clear(View(k.Vmas()), first, last)
    requires (first < hugeFirst ==> PieceIs(first, hugeFirst, false)) && PieceIs(hugeFirst, hugeLast, true)
    requires hugeLast < last ==> PieceIs(hugeLast, last, false)
    modifies k.tree, k.tree.links.Keys, k.mmu
    ensures var all := old(View(k.Vmas())) + (PieceIf(first, hugeFirst) + {RangeOf(Piece(hugeFirst, hugeLast, true))} +
                                              PieceIf(hugeLast, last));
            && (ok <==> Affords(old(Budget(k)), all))
            && (ok ==> k.Valid() && View(k.Vmas()) == all && Budget(k) == old(Budget(k)))
    ensures k.mmu.Valid() && k.mmu.free + k.mmu.mem.Keys == old(k.mmu.free + k.mmu.mem.Keys)
    ensures fresh(k.tree.links.Keys - old(k.tree.links.Keys))
  {
    hide k.Valid, M.Sound, View, PieceIs, RangeOf, Piece, Affords, Budget, Clear;
    ghost var a, budget := View(k.Vmas()), Budget(k);
    ghost var all := a + (PieceIf(first, hugeFirst) + {RangeOf(Piece(hugeFirst, hugeLast, true))} +
        PieceIf(hugeLast, last));
    ClearParts(a, first, hugeFirst, hugeLast, last);
    if first < hugeFirst {
      ghost var head := a + {RangeOf(Piece(first, hugeFirst, false))};
      if Affords(budget, all) { AffordsLess(budget, head, all); }
      ok := MapPiece(k, first, hugeFirst, false);
      if !ok { return; }
      ClearNext(a, first, hugeFirst, false, hugeFirst, hugeLast);
      ClearNext(a, first, hugeFirst, false, hugeLast, last);
    }
    ghost var b := View(k.Vmas());
    assert b == a + PieceIf(first, hugeFirst);
    ghost var middle := b + {RangeOf(Piece(hugeFirst, hugeLast, true))};
    if Affords(budget, all) { AffordsLess(budget, middle, all); }
    ok := MapPiece(k, hugeFirst, hugeLast, true);
    if !ok { return; }
    assert middle + PieceIf(hugeLast, last) == all;
    if hugeLast < last {
      ClearNext(b, hugeFirst, hugeLast, true, hugeLast, last);
      ok := MapPiece(k, hugeLast, last, false);
    } else {
      assert middle == all;
    }
  }

  lemma {:induction false} ClearParts(a: set<Range>, first: nat, hugeFirst: nat, hugeLast: nat, last: nat)
    requires first <= hugeFirst < hugeLast <= last && Clear(a, first, last)
    ensures Clear(a, first, hugeFirst) && Clear(a, hugeFirst, hugeLast) && Clear(a, hugeLast, last)
  {
  }

  lemma {:induction false} FirstInside(e: E820)
    ensures e.base <= First(e) && Last(e) <= e.base + e.size
  {
  }

  lemma {:induction false} CarveInside(e: E820, r: Range)
    requires r in RangesOf(Carve(e)) && (e.kind == 1 ==> e.base + e.size <= DIRECT_MAP_SIZE)
    ensures e.kind == 1 && DIRECT_MAP_START + e.base <= r.start && r.end <= DIRECT_MAP_START + e.base + e.size
  {
    hide First, Last, HugeFirst, HugeLast, Addr, Piece, RangeOf, Carve, RangesOf;
    CarveRanges(e);
    FirstInside(e);
    CarvePoints(e);
    CarvePieces(e);
  }

  /** Usable entries fit the direct map and do not overlap. */
  ghost predicate Usable(es: seq<E820>)
  {
    && (forall i :: 0 <= i < |es| && es[i].kind == 1 ==> es[i].base + es[i].size <= DIRECT_MAP_SIZE)
    && (forall i, j :: 0 <= i < j < |es| && es[i].kind == 1 && es[j].kind == 1 ==> Beside(es[i], es[j]))
  }

  predicate Beside(d: E820, e: E820) { d.base + d.size <= e.base || e.base + e.size <= d.base }

  ghost function DirectRanges(es: seq<E820>, n: nat): set<Range>
    requires n <= |es|
  {
    if n == 0 then {} else DirectRanges(es, n - 1) + RangesOf(Carve(es[n - 1]))
  }

  /** The entries from `i` on still have room. */
  ghost predicate ClearFrom(a: set<Range>, es: seq<E820>, i: nat)
  {
    forall j :: i <= j < |es| && es[j].kind == 1 ==> Clear(a, es[j].base, es[j].base + es[j].size)
  }

  lemma {:induction false} ClearFromNext(a: set<Range>, es: seq<E820>, i: nat)
    requires Usable(es) && i < |es| && ClearFrom(a, es, i)
    ensures ClearFrom(a + RangesOf(Carve(es[i])), es, i + 1)
  {
    var b := a + RangesOf(Carve(es[i]));
    forall j | i + 1 <= j < |es| && es[j].kind == 1 ensures Clear(b, es[j].base, es[j].base + es[j].size) {
      forall x | x in RangesOf(Carve(es[i]))
        ensures x.end <= DIRECT_MAP_START + es[j].base || DIRECT_MAP_START + es[j].base + es[j].size <= x.start
      {
        CarveInside(es[i], x);
        assert Beside(es[i], es[j]);
      }
    }
  }

  lemma {:induction false} ClearAll(a: set<Range>, es: seq<E820>)
    requires Usable(es) && Clear(a, 0, DIRECT_MAP_SIZE)
    ensures ClearFrom(a, es, 0)
  {
  }

  lemma {:induction false} ClearFromHead(a: set<Range>, es: seq<E820>, i: nat)
    requires Usable(es) && i < |es| && ClearFrom(a, es, i)
    ensures es[i].kind == 1 ==>
              es[i].base + es[i].size <= DIRECT_MAP_SIZE && Clear(a, es[i].base, es[i].base + es[i].size)
  {
  }

  lemma {:induction false} DirectRangesGrow(es: seq<E820>, n: nat, k: nat)
    requires n <= k <= |es|
    ensures DirectRanges(es, n) <= DirectRanges(es, k)
    decreases k
  {
    hide RangesOf, Carve;
    if n < k { DirectRangesGrow(es, n, k - 1); }
  }

  /** The tables that the direct map needs, by the base and size of the usable entries: directories for every page
      wholly inside one, and a page table unless a 2 MiB page around it lies inside, too. */
  ghost function DirectTables(es: seq<E820>): set<P.Where>
  {
    set v: nat, i: nat, w | v < PAGES && i < |es| && DirectPage(es[i], v) && w in DirectPath(es[i], v) :: w
  }

  ghost predicate DirectPage(e: E820, v: nat)
  {
    v < PAGES && AddressOf(v) >= 0xFFFF_8000_0020_0000 && PageInside(e, AddressOf(v) - 0xFFFF_8000_0020_0000)
  }

  ghost function DirectPath(e: E820, v: nat): set<P.Where>
    requires DirectPage(e, v)
  {
    if HugeInside(e, AddressOf(v) - 0xFFFF_8000_0020_0000) then M.Path2(v) else M.Path3(v)
  }

  lemma {:induction false} DirectRangesMember(es: seq<E820>, n: nat, r: Range)
    requires n <= |es|
    ensures r in DirectRanges(es, n) <==> exists i :: 0 <= i < n && r in RangesOf(Carve(es[i]))
  {
    hide RangesOf, Carve;
    if n > 0 { DirectRangesMember(es, n - 1, r); }
  }

  /** A page of a range of entry `e`. */
  lemma {:induction false} CarvePage(e: E820, r: Range, v: nat)
    requires (e.kind == 1 ==> e.base + e.size <= DIRECT_MAP_SIZE) && r in RangesOf(Carve(e)) && HoldsPage(r, v)
    ensures DirectPage(e, v) && DirectPath(e, v) == PathOf(r.pte, v)
  {
    hide Addr, Carve, RangesOf, HugeInside, PageInside, AddressOf, IsHuge, M.Path2, M.Path3;
    CarveInside(e, r);
    var a := AddressOf(v) - DIRECT_MAP_START;
    CarveExact(e, a);
    CarveLeaf(e, a, r);
  }

  /** The footprint of the direct map's ranges, without reference to how they are carved. */
  lemma {:induction false} DirectFootprint(es: seq<E820>)
    requires Usable(es)
    ensures Footprint(DirectRanges(es, |es|)) == DirectTables(es)
  {
    hide Carve, RangesOf, HugeInside, PageInside, AddressOf, PathOf, DirectPath, HoldsPage, DirectRanges, DirectPage;
    var rs := DirectRanges(es, |es|);
    forall w | w in Footprint(rs) ensures w in DirectTables(es) {
      var r, v: nat :| r in rs && v < PAGES && HoldsPage(r, v) && w in PathOf(r.pte, v);
      DirectRangesMember(es, |es|, r);
      var i: nat :| i < |es| && r in RangesOf(Carve(es[i]));
      CarvePage(es[i], r, v);
    }
    forall w | w in DirectTables(es) ensures w in Footprint(rs) {
      var v: nat, i: nat :| v < PAGES && i < |es| && DirectPage(es[i], v) && w in DirectPath(es[i], v);
      var r := DirectRangeOf(es[i], v);
      DirectRangesMember(es, |es|, r);
      CarvePage(es[i], r, v);
      FootprintMember(rs, r, v, w);
    }
  }

  lemma {:induction false} DirectRangeOf(e: E820, v: nat) returns (r: Range)
    requires (e.kind == 1 ==> e.base + e.size <= DIRECT_MAP_SIZE) && DirectPage(e, v)
    ensures r in RangesOf(Carve(e)) && HoldsPage(r, v)
  {
    hide Addr, Carve, RangesOf, HugeInside, PageInside, AddressOf;
    CarveExact(e, AddressOf(v) - DIRECT_MAP_START);
    r :| r in RangesOf(Carve(e)) && Holds(r, AddressOf(v));
  }

  /** `map_direct_mapping`: it panics exactly if the frames do not suffice for the tables of the direct map. */
  method MapDirectMapping(k: KernelVm, es: seq<E820>) returns (ok: bool)
    requires k.Valid() && Usable(es) && Clear(View(k.Vmas()), 0, DIRECT_MAP_SIZE)
    modifies k.tree, k.tree.links.Keys, k.mmu
    ensures ok <==> M.Suffices(old(k.mmu.free), old(k.mmu.tab), DirectTables(es))
    ensures ok <==> Affords(old(Budget(k)), old(View(k.Vmas())) + DirectRanges(es, |es|))
    ensures k.mmu.Valid() && k.mmu.free + k.mmu.mem.Keys == old(k.mmu.free + k.mmu.mem.Keys)
    ensures ok ==> k.Valid() && View(k.Vmas()) == old(View(k.Vmas())) + DirectRanges(es, |es|)
    ensures ok ==> forall i, a: nat :: 0 <= i < |es| && PageInside(es[i], a) ==>
      P.Lookup(k.mmu.mem, k.mmu.pml4t, Vpn(0xFFFF_8000_0020_0000 + a)) == DirectLeaf(es[i], a)
  {
    hide k.Valid, M.Sound, View, Clear, Carve, RangesOf, Affords, Budget, Usable, ClearFrom, M.Suffices, DirectTables,
      PageInside, P.Lookup, DirectLeaf;
    ghost var a, budget := View(k.Vmas()), Budget(k);
    WithinBudget(k);
    DirectCost(k, es);
    ClearAll(a, es);
    var i: nat := 0;
    while i < |es|
      invariant i <= |es| && k.Valid() && View(k.Vmas()) == a + DirectRanges(es, i)
      invariant ClearFrom(View(k.Vmas()), es, i)
      invariant Budget(k) == budget && Affords(budget, View(k.Vmas()))
      invariant k.mmu.Valid() && k.mmu.free + k.mmu.mem.Keys == old(k.mmu.free + k.mmu.mem.Keys)
      invariant fresh(k.tree.links.Keys - old(k.tree.links.Keys))
    {
      ClearFromNext(View(k.Vmas()), es, i);
      ClearFromHead(View(k.Vmas()), es, i);
      DirectRangesGrow(es, i + 1, |es|);
      if Affords(budget, a + DirectRanges(es, |es|)) {
        AffordsLess(budget, a + DirectRanges(es, i + 1), a + DirectRanges(es, |es|));
      }
      assert View(k.Vmas()) + RangesOf(Carve(es[i])) == a + DirectRanges(es, i + 1);
      ok := MapEntry(k, es[i]);
      if !ok { return; }
      i := i + 1;
    }
    ok := true;
    forall i, p: nat | 0 <= i < |es| && PageInside(es[i], p)
      ensures P.Lookup(k.mmu.mem, k.mmu.pml4t, Vpn(0xFFFF_8000_0020_0000 + p)) == DirectLeaf(es[i], p)
    {
      DirectMapLeaf(k, es, p, i);
    }
  }

  lemma {:induction false} DirectCost(k: KernelVm, es: seq<E820>)
    requires k.Valid() && Usable(es)
    ensures Affords(Budget(k), View(k.Vmas()) + DirectRanges(es, |es|)) <==>
      M.Suffices(k.mmu.free, k.mmu.tab, DirectTables(es))
  {
    hide P.Tables, P.TidyBut, Agree, AllOk, View, Footprint, DirectRanges, DirectTables, Usable;
    var a, rs := View(k.Vmas()), DirectRanges(es, |es|);
    TablesAreFootprint(k.Vmas(), k.mmu.mem, k.mmu.tab, k.mmu.pml4t);
    DirectFootprint(es);
    FootprintUnion(a, rs);
    NoRoot(rs);
    Trade(k.mmu.free, k.mmu.tab, a, DirectTables(es), a + rs);
  }

  lemma {:induction false} EntryCost(k: KernelVm, e: E820)
    requires k.Valid() && (e.kind == 1 ==> e.base + e.size <= DIRECT_MAP_SIZE)
    ensures Affords(Budget(k), View(k.Vmas()) + RangesOf(Carve(e))) <==>
      M.Suffices(k.mmu.free, k.mmu.tab, DirectTables([e]))
  {
    hide k.Valid, View, Affords, Budget, RangesOf, Carve, M.Suffices, DirectTables;
    DirectCost(k, [e]);
    assert DirectRanges([e], 0) == {};
    assert DirectRanges([e], 1) == RangesOf(Carve(e));
  }

  /** With the direct map in place, whatever else is mapped, the walk finds for every page wholly inside a usable entry
      the leaf that the entry dictates. */
  lemma {:induction false} DirectMapLeaf(k: KernelVm, es: seq<E820>, a: nat, i: nat)
    requires k.Valid() && Usable(es) && i < |es| && PageInside(es[i], a) && DirectRanges(es, |es|) <= View(k.Vmas())
    ensures P.Lookup(k.mmu.mem, k.mmu.pml4t, Vpn(0xFFFF_8000_0020_0000 + a)) == DirectLeaf(es[i], a)
  {
    hide k.Valid, Carve, RangesOf, View, DirectRanges, P.Lookup, DirectLeaf, LeafOf, Vpn, Addr;
    CarveExact(es[i], a);
    var r :| r in RangesOf(Carve(es[i])) && Holds(r, DIRECT_MAP_START + a);
    DirectRangesMember(es, |es|, r);
    CarveLeaf(es[i], a, r);
    LeafIsTheModel(k, DIRECT_MAP_START + a, r);
  }

  /** The flags of such a leaf, bit by bit: bits 0, 1, 8 and 63 are set, bit 7 iff it is huge, and no other. */
  lemma {:induction false} DirectLeafBits(e: E820, a: nat)
    requires a < 0x10_0000_0000_0000
    ensures var l := DirectLeaf(e, a);
            && (l.Huge? <==> HugeInside(e, a)) && (l.Small? <==> !HugeInside(e, a))
            && BitAnd(l.entry, 0x1) != 0 && BitAnd(l.entry, 0x2) != 0 && BitAnd(l.entry, 0x100) != 0
            && BitAnd(l.entry, 0x8000_0000_0000_0000) != 0 && (BitAnd(l.entry, 0x80) != 0 <==> l.Huge?)
            && BitAndNot(l.entry, 0x000F_FFFF_FFFF_F000) ==
               (if l.Huge? then 0x8000_0000_0000_0183 else 0x8000_0000_0000_0103)
            && BitAnd(l.entry, 0x000F_FFFF_FFFF_F000) ==
               (if l.Huge? then a / 0x20_0000 * 0x20_0000 else a / 0x1000 * 0x1000)
  {
    hide BitAnd, BitAndNot, HugeInside, Pow2, Addr, Flags, Present, IsHuge, IsFlags;
    var l := DirectLeaf(e, a);
    var f := if l.Huge? then 0x8000_0000_0000_0183 else 0x8000_0000_0000_0103;
    var p := l.entry - f;
    var q := if l.Huge? then a / 0x20_0000 * 0x200 else a / 0x1000;
    Quotient(p, 0x1000, q, 0);
    FlagsOk();
    JoinParts(p, f);
    EntryMasks(l.entry);
    SetBits(l.entry, q, f);
  }

  /** Through the direct map the kernel can read and write memory, but not execute it, and user mode cannot reach it. */
  lemma {:induction false} DirectMapRights(k: KernelVm, es: seq<E820>, a: nat, i: nat)
    requires k.Valid() && Usable(es) && i < |es| && PageInside(es[i], a) && DirectRanges(es, |es|) <= View(k.Vmas())
    ensures var t := Trace(k.mmu.mem, k.mmu.pml4t, Vpn(0xFFFF_8000_0020_0000 + a));
            Writable(t) && !Executable(t) && !UserMode(t)
  {
    hide Carve, RangesOf, View, DirectRanges, P.Lookup, DirectLeaf, Vpn, Trace, P.Tables, P.TidyBut, Agree, AllOk,
      BitAnd, BitAndNot, Writable, Executable, UserMode, HugeInside;
    DirectMapLeaf(k, es, a, i);
    DirectLeafBits(es[i], a);
    RightsOfLeaf(k.mmu.mem, k.mmu.tab, k.mmu.pml4t, Vpn(0xFFFF_8000_0020_0000 + a));
  }

  lemma {:induction false} SetBits(e: nat, q: nat, f: nat)
    requires q < 0x100_0000_0000 && e == 0x1000 * q + f
    requires f == 0x8000_0000_0000_0183 || f == 0x8000_0000_0000_0103
    ensures BitAnd(e, 0x1) != 0 && BitAnd(e, 0x2) != 0 && BitAnd(e, 0x100) != 0 && BitAnd(e, 0x8000_0000_0000_0000) != 0
    ensures BitAnd(e, 0x80) != 0 <==> f == 0x8000_0000_0000_0183
  {
    hide BitAnd, Pow2;
    Powers();
    MaskField(e, 1, 2, 0, 1);
    MaskField(e, 1, 2, 1, 2);
    MaskField(e, 1, 2, 7, 0x80);
    MaskField(e, 1, 2, 8, 0x100);
    MaskField(e, 1, 2, 63, 0x8000_0000_0000_0000);
    assert e % 2 == 1;
    assert e / 2 == 0x800 * q + f / 2;
    assert e / 0x80 == 0x20 * q + f / 0x80;
    assert e / 0x100 == 0x10 * q + f / 0x100;
    assert e / 0x8000_0000_0000_0000 == 1;
  }

  ghost predicate HeldBy(rs: set<Range>, va: int) { exists r :: r in rs && Holds(r, va) }

  lemma {:induction false} HeldByUnion(rs: set<Range>, qs: set<Range>, va: int)
    ensures HeldBy(rs + qs, va) <==> HeldBy(rs, va) || HeldBy(qs, va)
  {
    if r :| r in rs && Holds(r, va) { assert r in rs + qs; }
    if r :| r in qs && Holds(r, va) { assert r in rs + qs; }
  }

  lemma {:induction false} DirectRangesExact(es: seq<E820>, n: nat, a: nat)
    requires Usable(es) && n <= |es|
    ensures (exists i :: 0 <= i < n && PageInside(es[i], a)) <==> HeldBy(DirectRanges(es, n), DIRECT_MAP_START + a)
    ensures forall r :: r in DirectRanges(es, n) && Holds(r, DIRECT_MAP_START + a) ==>
              r.pte >= 0 && Addr(r.pte) + (DIRECT_MAP_START + a - r.start) == a
  {
    hide PageInside, Carve, RangesOf, Addr;
    if n > 0 {
      DirectRangesExact(es, n - 1, a);
      CarveExact(es[n - 1], a);
      HeldByUnion(DirectRanges(es, n - 1), RangesOf(Carve(es[n - 1])), DIRECT_MAP_START + a);
    }
  }

  /** Once the direct map is built on a free region, DIRECT_MAP_START + a translates to a for exactly
      the addresses whose page lies wholly inside a usable entry. */
  lemma {:induction false} DirectMapExact(k: KernelVm, before: set<Range>, es: seq<E820>, a: nat)
    requires k.Valid() && Usable(es) && a < DIRECT_MAP_SIZE
    requires Clear(before, 0, DIRECT_MAP_SIZE) && View(k.Vmas()) == before + DirectRanges(es, |es|)
    ensures Translate(k.mmu.mem, k.mmu.pml4t, 0xFFFF_8000_0020_0000 + a) ==
            if exists i :: 0 <= i < |es| && PageInside(es[i], a) then At(a) else Fault
  {
    hide PageInside, Addr, Translate, k.Valid, View, DirectRanges, Usable;
    TranslationIsTheModel(k, DIRECT_MAP_START + a);
    DirectRangesExact(es, |es|, a);
    HeldByUnion(before, DirectRanges(es, |es|), DIRECT_MAP_START + a);
  }

  // ----- directmap_p2v

  /** `directmap_p2v` for the current value of `phys_map_offset`. */
  function P2v(ptr: nat, physMapOffset: nat): nat
  {
    if ptr < PML4_KERNEL_HALF_BASE then (ptr + physMapOffset) % WORD else ptr
  }

  /** Pointers into the kernel half, such as the list sentinels in the kernel image, pass through whatever the offset.
      Before the switch every other pointer does, too; after it, one below 0x7FFF_FFE0_0000 goes through the direct
      map, and above the sum leaves the 64-bit word.  Translating twice is translating once except for the last. */
  lemma {:induction false} P2vExact(ptr: nat, off: nat)
    requires ptr < 0x1_0000_0000_0000_0000
    ensures ptr >= 0xFFFF_8000_0000_0000 ==> P2v(ptr, off) == ptr
    ensures P2v(ptr, 0) == ptr
    ensures ptr < 0xFFFF_8000_0000_0000 ==>
      (P2v(ptr, 0xFFFF_8000_0020_0000) == 0xFFFF_8000_0020_0000 + ptr <==> ptr < 0x7FFF_FFE0_0000)
    ensures ptr < 0xFFFF_8000_0000_0000 && ptr >= 0x7FFF_FFE0_0000 ==>
      P2v(ptr, 0xFFFF_8000_0020_0000) == ptr - 0x7FFF_FFE0_0000
    ensures P2v(P2v(ptr, 0xFFFF_8000_0020_0000), 0xFFFF_8000_0020_0000) == P2v(ptr, 0xFFFF_8000_0020_0000) <==>
      ptr < 0x7FFF_FFE0_0000 || ptr >= 0xFFFF_8000_0000_0000
  {
  }

  /** The largest address that the comment above directmap_p2v calls physical is not translated but wrapped around. */
  lemma {:induction false} P2vWraps()
    ensures P2v(0xFFFF_FFFF_FFFF, 0xFFFF_8000_0020_0000) == 0x8000_001F_FFFF
  {
  }

  /** A pointer stored before the switch reads the same memory after it: with offset zero `P2v` is the
      identity the boot page tables map to itself, with DIRECT_MAP_START it goes through the direct
      map and ends at the same physical address; and translating twice changes nothing.  Whatever else is
      mapped by then, such as the framebuffer, does not matter. */
  lemma {:induction false} SwitchKeepsMemory(k: KernelVm, es: seq<E820>, p: nat, i: nat)
    requires k.Valid() && Usable(es) && p < DIRECT_MAP_SIZE && i < |es| && PageInside(es[i], p)
    requires DirectRanges(es, |es|) <= View(k.Vmas())
    ensures P2v(p, 0) == p
    ensures Translate(k.mmu.mem, k.mmu.pml4t, P2v(p, 0xFFFF_8000_0020_0000)) == At(p)
    ensures P2v(P2v(p, 0xFFFF_8000_0020_0000), 0xFFFF_8000_0020_0000) == P2v(p, 0xFFFF_8000_0020_0000)
  {
    hide PageInside, Addr, Translate, k.Valid, View, DirectRanges, Usable;
    DirectRangesExact(es, |es|, p);
    TranslationIsTheModel(k, DIRECT_MAP_START + p);
  }
}
