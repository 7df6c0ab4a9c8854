/** Page-table entries and addresses (include/mmu.h), as natural numbers. */
module Pte {
  import opened Common
  import opened Words

  const PAGE_SIZE: nat := 0x1000
  const HUGE_PAGE_SIZE: nat := 0x20_0000
  const PTE_HUGE_PAGE: nat := 0x80
  /** One more than the largest address PTE_ADDR_MASK can hold. */
  const PHYS_LIMIT: nat := 0x10_0000_0000_0000
  const WORD: nat := 0x1_0000_0000_0000_0000
  /** Number of 4 KiB pages (and of 2 MiB pages) the four indices can tell apart. */
  const PAGES: nat := 0x10_0000_0000
  const HUGE_PAGES: nat := 0x800_0000

  predicate Present(e: nat) { e % 2 == 1 }

  predicate IsHuge(e: nat) { (e / PTE_HUGE_PAGE) % 2 == 1 }

  /** `e & PTE_ADDR_MASK` */
  function Addr(e: nat): nat { (e / PAGE_SIZE) % 0x100_0000_0000 * PAGE_SIZE }

  /** `e & ~PTE_ADDR_MASK` */
  function Flags(e: nat): nat
  {
    e % PAGE_SIZE + e / PHYS_LIMIT * PHYS_LIMIT
  }

  predicate IsFrame(a: nat) { a % PAGE_SIZE == 0 && a < PHYS_LIMIT }

  predicate IsFlags(f: nat) { Addr(f) == 0 }

  /** `a | f` for a frame address and flags, which have no bit in common. */
  function Join(a: nat, f: nat): nat { a + f }

  lemma {:induction false} JoinParts(a: nat, f: nat)
    requires IsFrame(a) && IsFlags(f)
    ensures Addr(Join(a, f)) == a && Flags(Join(a, f)) == f
    ensures Present(Join(a, f)) == Present(f) && IsHuge(Join(a, f)) == IsHuge(f)
  {
    var q, lo, hi := a / 0x1000, f % 0x1000, f / 0x1000 / 0x100_0000_0000;
    assert a == q * 0x1000;
    assert f / 0x1000 == hi * 0x100_0000_0000;
    assert f == lo + hi * 0x10_0000_0000_0000;
    Pieces(q, lo, hi);
    Pieces(0, lo, hi);
  }

  lemma {:induction false} Pieces(q: nat, lo: nat, hi: nat)
    requires q < 0x100_0000_0000 && lo < 0x1000
    ensures var e := q * 0x1000 + lo + hi * 0x10_0000_0000_0000;
            e / 0x1000 % 0x100_0000_0000 == q && e % 0x1000 == lo && e / 0x10_0000_0000_0000 == hi &&
            e % 2 == lo % 2 && e / 0x80 % 2 == lo / 0x80 % 2
  {
    var e := q * 0x1000 + lo + hi * 0x10_0000_0000_0000;
    Quotient12(e, q + hi * 0x100_0000_0000, lo);
    Quotient40(q + hi * 0x100_0000_0000, hi, q);
    Quotient52(e, hi, q * 0x1000 + lo);
    Quotient7(e, q * 32 + lo / 0x80 + hi * 0x2000_0000_0000, lo % 0x80);
  }

  lemma {:induction false} Quotient7(e: nat, q: nat, r: nat)
    requires r < 0x80 && e == q * 0x80 + r
    ensures e / 0x80 == q && e % 0x80 == r
  {
  }

  lemma {:induction false} Quotient12(e: nat, q: nat, r: nat)
    requires r < 0x1000 && e == q * 0x1000 + r
    ensures e / 0x1000 == q && e % 0x1000 == r
  {
  }

  lemma {:induction false} Quotient40(e: nat, q: nat, r: nat)
    requires r < 0x100_0000_0000 && e == q * 0x100_0000_0000 + r
    ensures e / 0x100_0000_0000 == q && e % 0x100_0000_0000 == r
  {
  }

  lemma {:induction false} Quotient52(e: nat, q: nat, r: nat)
    requires r < 0x10_0000_0000_0000 && e == q * 0x10_0000_0000_0000 + r
    ensures e / 0x10_0000_0000_0000 == q && e % 0x10_0000_0000_0000 == r
  {
  }

  /** Every entry is the sum of its frame and its flags. */
  lemma {:induction false} SplitEntry(e: nat)
    ensures IsFrame(Addr(e)) && IsFlags(Flags(e)) && Join(Addr(e), Flags(e)) == e
    ensures Present(Flags(e)) == Present(e) && IsHuge(Flags(e)) == IsHuge(e)
  {
    var q, lo, hi := e / 0x1000 % 0x100_0000_0000, e % 0x1000, e / 0x10_0000_0000_0000;
    assert e / 0x1000 == q + e / 0x1000 / 0x100_0000_0000 * 0x100_0000_0000;
    assert e / 0x1000 / 0x100_0000_0000 == hi;
    assert e == q * 0x1000 + lo + hi * 0x10_0000_0000_0000;
    Pieces(q, lo, hi);
    Pieces(0, lo, hi);
    Quotient12(q * 0x1000, q, 0);
  }

  // ----- The masks of mmu.h

  /** Present, IsHuge, Addr and Flags read an entry by the masks 1, 0x80 and PTE_ADDR_MASK. */
  lemma {:induction false} EntryMasks(e: nat)
    ensures Present(e) <==> BitAnd(e, 0x1) != 0
    ensures IsHuge(e) <==> BitAnd(e, 0x80) != 0
    ensures Addr(e) == BitAnd(e, 0x000F_FFFF_FFFF_F000)
    ensures Flags(e) == BitAndNot(e, 0x000F_FFFF_FFFF_F000)
    ensures IsFrame(e) <==> BitAndNot(e, 0x000F_FFFF_FFFF_F000) == 0
    ensures IsFlags(e) <==> BitAnd(e, 0x000F_FFFF_FFFF_F000) == 0
  {
    hide BitAnd, BitAndNot, Pow2;
    Powers();
    MaskLow(e, 1, 2);
    MaskField(e, 1, 2, 7, 0x80);
    MaskField(e, 40, 0x100_0000_0000, 12, 0x1000);
    AndNotIs(e, 0x000F_FFFF_FFFF_F000);
    SplitEntry(e);
  }

  lemma {:induction false} Powers()
    ensures Pow2(0) == 1 && Pow2(1) == 2 && Pow2(2) == 4 && Pow2(7) == 0x80 && Pow2(8) == 0x100 && Pow2(9) == 0x200
    ensures Pow2(12) == 0x1000 && Pow2(63) == 0x8000_0000_0000_0000
    ensures Pow2(21) == 0x20_0000 && Pow2(30) == 0x4000_0000 && Pow2(39) == 0x80_0000_0000
    ensures Pow2(40) == 0x100_0000_0000
  {
    hide Pow2;
    LowPowers();
    Pow2Sum(9, 3);
    Pow2Sum(12, 9);
    Pow2Sum(21, 9);
    Pow2Sum(30, 9);
    Pow2Sum(39, 1);
    Pow2Sum(21, 2);
    Pow2Sum(40, 23);
  }

  lemma {:induction false} LowPowers()
    ensures Pow2(0) == 1 && Pow2(1) == 2 && Pow2(2) == 4 && Pow2(3) == 8
    ensures Pow2(7) == 0x80 && Pow2(8) == 0x100 && Pow2(9) == 0x200
  {
    assert Pow2(4) == 0x10 && Pow2(5) == 0x20 && Pow2(6) == 0x40;
  }

  /** An entry is the bitwise or of its frame and its flags. */
  lemma {:induction false} JoinIsOr(a: nat, f: nat)
    requires IsFrame(a) && IsFlags(f)
    ensures Join(a, f) == BitOr(a, f)
  {
    hide BitAnd, BitOr, BitAndNot;
    JoinParts(a, 0);
    EntryMasks(a);
    EntryMasks(f);
    InsideOutside(a, f, 0x000F_FFFF_FFFF_F000);
    DisjointOr(a, f);
  }

  /** On machine words the disjoint `|` is `+`, and the mask takes the two apart again. */
  lemma {:induction false} JoinIsBitwiseOr(a: bv64, f: bv64)
    requires a & 0x000F_FFFF_FFFF_F000 == a && f & 0x000F_FFFF_FFFF_F000 == 0
    ensures a | f == a + f
    ensures (a | f) & 0x000F_FFFF_FFFF_F000 == a
  {
  }

  // ----- Virtual addresses

  /** Bits 12 to 47 of a virtual address: everything the four indices see. */
  function Vpn(va: nat): (v: nat)
    ensures v < PAGES
  {
    va / PAGE_SIZE % PAGES
  }

  function I4(v: nat): (i: nat) requires v < PAGES ensures i < 512 { v / 0x800_0000 }
  function I3(v: nat): (i: nat) ensures i < 512 { v / 0x4_0000 % 512 }
  function I2(v: nat): (i: nat) ensures i < 512 { v / 0x200 % 512 }
  function I1(v: nat): (i: nat) ensures i < 512 { v % 512 }

  /** The indices are those of VIRT_TO_PML4_IDX to VIRT_TO_PT_IDX. */
  lemma {:induction false} IndexMasks(va: nat)
    ensures I4(Vpn(va)) == BitAnd(ShiftRight(va, 39), 0x1FF)
    ensures I3(Vpn(va)) == BitAnd(ShiftRight(va, 30), 0x1FF)
    ensures I2(Vpn(va)) == BitAnd(ShiftRight(va, 21), 0x1FF)
    ensures I1(Vpn(va)) == BitAnd(ShiftRight(va, 12), 0x1FF)
  {
    hide BitAnd, ShiftRight, Pow2;
    Powers();
    ShiftRightIs(va, 39, 0x80_0000_0000);
    ShiftRightIs(va, 30, 0x4000_0000);
    ShiftRightIs(va, 21, 0x20_0000);
    ShiftRightIs(va, 12, 0x1000);
    MaskLow(va / 0x80_0000_0000, 9, 0x200);
    MaskLow(va / 0x4000_0000, 9, 0x200);
    MaskLow(va / 0x20_0000, 9, 0x200);
    MaskLow(va / 0x1000, 9, 0x200);
    IndexQuotients(va);
  }

  lemma {:induction false} IndexQuotients(va: nat)
    ensures I4(Vpn(va)) == va / 0x80_0000_0000 % 0x200 && I3(Vpn(va)) == va / 0x4000_0000 % 0x200
    ensures I2(Vpn(va)) == va / 0x20_0000 % 0x200 && I1(Vpn(va)) == va / 0x1000 % 0x200
  {
    var a := va / 0x1000;
    assert va / 0x20_0000 == a / 0x200 && va / 0x4000_0000 == a / 0x4_0000 && va / 0x80_0000_0000 == a / 0x800_0000;
    QuotientOfRemainder(a, 0x800_0000, 0x200, PAGES);
    QuotientOfRemainder(a, 0x4_0000, 0x4_0000, PAGES);
    QuotientOfRemainder(a, 0x200, 0x800_0000, PAGES);
    RemainderTwice(a / 0x4_0000, 0x200);
    RemainderTwice(a / 0x200, 0x4_0000);
    RemainderTwice(a, 0x800_0000);
  }

  lemma {:induction false} QuotientOfRemainder(a: nat, d: nat, m: nat, dm: nat)
    requires d > 0 && m > 0 && dm > 0 && dm == d * m
    ensures a % dm / d == a / d % m
  {
    var h, low := a / d, a % d;
    var k, r := h / m, h % m;
    Composed(d, m, dm, h, k, r);
    assert a == dm * k + (d * r + low);
    Quotient(a, dm, k, d * r + low);
    Quotient(d * r + low, d, r, low);
  }

  lemma {:induction false} Composed(d: nat, m: nat, dm: nat, h: nat, k: nat, r: nat)
    requires r < m && dm == d * m && h == m * k + r
    ensures d * h == dm * k + d * r && d * r + d <= dm
  {
    assert d * (m * k + r) == d * (m * k) + d * r;
    assert d * (m * k) == (d * m) * k;
    Multiple(d, m - r);
  }

  lemma {:induction false} RemainderTwice(x: nat, m: nat)
    requires m > 0
    ensures x % (0x200 * m) % 0x200 == x % 0x200
  {
    var q, r := x / (0x200 * m), x % (0x200 * m);
    assert x == (0x200 * m) * q + r;
    assert (0x200 * m) * q == 0x200 * (m * q);
    assert x == 0x200 * (m * q + r / 0x200) + r % 0x200;
    Quotient(x, 0x200, m * q + r / 0x200, r % 0x200);
  }

  lemma {:induction false} IndicesAreInjective(v: nat, u: nat)
    requires v < PAGES && u < PAGES
    requires I4(v) == I4(u) && I3(v) == I3(u) && I2(v) == I2(u)
    ensures v / 512 == u / 512
    ensures I1(v) == I1(u) ==> v == u
  {
    Digits(v);
    Digits(u);
  }

  lemma {:induction false} Digits(v: nat)
    requires v < PAGES
    ensures v / 512 == I4(v) * 0x4_0000 + I3(v) * 0x200 + I2(v)
    ensures v == v / 512 * 512 + I1(v)
  {
    var a := v / 512;
    var b := a / 512;
    assert v / 0x4_0000 == b && v / 0x800_0000 == b / 512;
  }

  lemma {:induction false} NextVpn(va: nat)
    requires va < WORD
    ensures Vpn((va + PAGE_SIZE) % WORD) == (Vpn(va) + 1) % PAGES
  {
    var q := va / PAGE_SIZE;
    if va + PAGE_SIZE < WORD {
      assert (va + PAGE_SIZE) / PAGE_SIZE == q + 1;
    } else {
      assert (va + PAGE_SIZE) % WORD == va + PAGE_SIZE - WORD;
      assert (va + PAGE_SIZE - WORD) / PAGE_SIZE == q + 1 - 0x10_0000_0000_0000;
    }
  }
}
