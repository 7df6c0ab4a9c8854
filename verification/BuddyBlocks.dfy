/** phys_kmalloc.c: the arithmetic of buddy blocks.  Addresses are page numbers (physical address
    / 4096); a block of order k is 2^k pages long and starts at a multiple of 2^k. */
module BuddyBlocks {
  import opened Common

  const MAX_ORDER: nat := 10

  // ----- Division

  lemma {:induction false} QuotientNat(x: nat, s: nat)
    requires s > 0
    ensures x / s >= 0
  {
  }

  lemma {:induction false} TimesOrder(i: nat, j: nat, s: nat)
    requires i < j
    ensures i * s + s <= j * s
  {
    var d := j - i;
    assert j * s == i * s + d * s;
    Multiple(s, d);
    assert d * s == s * d;
  }

  lemma {:induction false} SplitMultiple(a: nat, s: nat)
    requires s > 0 && a % (2 * s) == 0
    ensures a % s == 0 && (a + s) % s == 0 && (a + s) % (2 * s) == s
  {
    var q := a / (2 * s);
    assert a == (2 * s) * q;
    assert (2 * s) * q == s * (2 * q);
    assert s * (2 * q + 1) == s * (2 * q) + s;
    Quotient(a, s, 2 * q, 0);
    Quotient(a + s, s, 2 * q + 1, 0);
    Quotient(a + s, 2 * s, q, s);
  }

  lemma {:induction false} NextMultiple(a: nat, s: nat)
    requires s > 0 && a % s == 0
    ensures (a + s) % s == 0
  {
    var q := a / s;
    assert a == s * q && s * (q + 1) == s * q + s;
    Quotient(a + s, s, q + 1, 0);
  }

  lemma {:induction false} OddMultiple(a: nat, s: nat)
    requires s > 0 && a % s == 0 && a % (2 * s) != 0
    ensures a >= s && (a - s) % (2 * s) == 0
  {
    var q := a / s;
    var h := q / 2;
    assert a == s * q && (2 * s) * h == s * (2 * h);
    if q == 2 * h {
      Quotient(a, 2 * s, h, 0);
      assert false;
    }
    assert q == 2 * h + 1 && s * q == s * (2 * h) + s;
    Quotient(a - s, 2 * s, h, 0);
  }

  lemma {:induction false} HalveTwice(d: nat, s: nat)
    requires s > 0
    ensures d / s / 2 == d / (2 * s)
  {
    var q, r := d / (2 * s), d % (2 * s);
    assert d == (2 * s) * q + r && (2 * s) * q == s * (2 * q);
    if r < s {
      Quotient(d, s, 2 * q, r);
    } else {
      assert s * (2 * q + 1) == s * (2 * q) + s;
      Quotient(d, s, 2 * q + 1, r - s);
    }
  }

  lemma {:induction false} QuotientBelow(d: nat, n: nat, s: nat)
    requires s > 0 && d + s <= n
    ensures d / s < n / s
  {
    var q, r := d / s, d % s;
    var p, t := n / s, n % s;
    assert d == s * q + r && n == s * p + t;
    assert s * (p - q) == s * p - s * q;
    if p <= q && p != q { Multiple(s, p - q); }
  }

  ghost predicate Aligned(a: nat, k: nat) { a % Pow2(k) == 0 }

  lemma {:induction false} AlignedHalves(a: nat, k: nat)
    requires k < MAX_ORDER && Aligned(a, k + 1)
    ensures Aligned(a, k) && Aligned(a + Pow2(k), k) && !Aligned(a + Pow2(k), k + 1)
  {
    SplitMultiple(a, Pow2(k));
  }

  lemma {:induction false} AlignedDown(a: nat, j: nat, k: nat)
    requires j <= k <= MAX_ORDER && Aligned(a, k)
    ensures Aligned(a, j)
    decreases k - j
  {
    if j < k {
      AlignedHalves(a, k - 1);
      AlignedDown(a, j, k - 1);
    }
  }

  lemma {:induction false} AlignedNext(a: nat, k: nat)
    requires k <= MAX_ORDER && Aligned(a, k)
    ensures Aligned(a + Pow2(k), k)
  {
    NextMultiple(a, Pow2(k));
  }

  /** The other half of the pair that `a` belongs to at order `k`. */
  ghost function BuddyOf(a: nat, k: nat): nat
    requires k < MAX_ORDER && Aligned(a, k)
  {
    if Aligned(a, k + 1) then a + Pow2(k) else (OddHalf(a, k); a - Pow2(k))
  }

  lemma {:induction false} OddHalf(a: nat, k: nat)
    requires k < MAX_ORDER && Aligned(a, k) && !Aligned(a, k + 1)
    ensures a >= Pow2(k) && Aligned(a - Pow2(k), k + 1)
  {
    OddMultiple(a, Pow2(k));
  }

  /** The lower half of that pair: the address of the coalesced block. */
  ghost function PairOf(a: nat, k: nat): nat
    requires k < MAX_ORDER && Aligned(a, k)
    ensures PairOf(a, k) <= a && Aligned(PairOf(a, k), k + 1)
    ensures {a, BuddyOf(a, k)} == {PairOf(a, k), PairOf(a, k) + Pow2(k)}
  {
    if Aligned(a, k + 1) then a else (OddHalf(a, k); a - Pow2(k))
  }

  // ----- Tilings

  datatype Block = Block(addr: nat, order: nat)

  predicate Covers(b: Block, p: nat) { b.addr <= p < b.addr + Pow2(b.order) }

  predicate Apart(b: Block, c: Block) { b.addr + Pow2(b.order) <= c.addr || c.addr + Pow2(c.order) <= b.addr }

  ghost predicate Fits(b: Block, base: nat, n: nat)
  {
    b.order <= MAX_ORDER && Aligned(b.addr, b.order) && base <= b.addr && b.addr + Pow2(b.order) <= base + n
  }

  ghost predicate Covered(blocks: set<Block>, p: nat) { exists b :: b in blocks && Covers(b, p) }

  /** `blocks` are size-aligned, pairwise disjoint, and cover exactly the pages `base .. base + n`. */
  ghost predicate Tiled(blocks: set<Block>, base: nat, n: nat)
  {
    && (forall b :: b in blocks ==> Fits(b, base, n))
    && (forall b, c :: b in blocks && c in blocks && b != c ==> Apart(b, c))
    && (forall p :: base <= p < base + n ==> Covered(blocks, p))
  }

  lemma {:induction false} ExtendTiling(blocks: set<Block>, base: nat, n: nat, k: nat)
    requires Tiled(blocks, base, n) && k <= MAX_ORDER && Aligned(base + n, k)
    ensures Block(base + n, k) !in blocks
    ensures Tiled(blocks + {Block(base + n, k)}, base, n + Pow2(k))
  {
    var c := Block(base + n, k);
    forall b | b in blocks ensures Apart(b, c) && b != c { }
    forall p | base <= p < base + n + Pow2(k) ensures Covered(blocks + {c}, p) {
      if p < base + n {
        assert Covered(blocks, p);
        var b :| b in blocks && Covers(b, p);
        assert b in blocks + {c};
      } else {
        assert Covers(c, p);
      }
    }
  }

  function Lower(b: Block): Block requires b.order > 0 { Block(b.addr, b.order - 1) }

  function Upper(b: Block): Block requires b.order > 0 { Block(b.addr + Pow2(b.order - 1), b.order - 1) }

  lemma {:induction false} HalvesCover(b: Block, p: nat)
    requires b.order > 0
    ensures Covers(b, p) <==> Covers(Lower(b), p) || Covers(Upper(b), p)
    ensures !(Covers(Lower(b), p) && Covers(Upper(b), p))
  {
  }

  lemma {:induction false} HalvesFit(b: Block, base: nat, n: nat)
    requires Fits(b, base, n) && b.order > 0
    ensures Fits(Lower(b), base, n) && Fits(Upper(b), base, n) && Apart(Lower(b), Upper(b)) && Lower(b) != Upper(b)
  {
    hide Aligned;
    AlignedHalves(b.addr, b.order - 1);
    assert Pow2(b.order) == 2 * Pow2(b.order - 1);
  }

  lemma {:induction false} HalvesApart(b: Block, c: Block)
    requires b.order > 0 && Apart(b, c)
    ensures Apart(Lower(b), c) && Apart(Upper(b), c) && c != Lower(b) && c != Upper(b)
  {
    assert Pow2(b.order) == 2 * Pow2(b.order - 1);
  }

  /** Splitting a block keeps the tiling. */
  lemma {:induction false} SplitTiling(blocks: set<Block>, base: nat, n: nat, b: Block)
    requires Tiled(blocks, base, n) && b in blocks && b.order > 0
    ensures Lower(b) !in blocks && Upper(b) !in blocks && Lower(b) != Upper(b)
    ensures Tiled(blocks - {b} + {Lower(b), Upper(b)}, base, n)
  {
    hide Fits, Apart, Covers, Pow2;
    HalvesFit(b, base, n);
    var after := blocks - {b} + {Lower(b), Upper(b)};
    forall c | c in blocks && c != b
      ensures Apart(Lower(b), c) && Apart(Upper(b), c) && c != Lower(b) && c != Upper(b)
    {
      HalvesApart(b, c);
    }
    forall c, d | c in after && d in after && c != d ensures Apart(c, d) {
      ApartBoth(c, d);
      ApartBoth(d, c);
    }
    forall p | base <= p < base + n ensures Covered(after, p) {
      assert Covered(blocks, p);
      var c :| c in blocks && Covers(c, p);
      if c == b {
        HalvesCover(b, p);
        assert Lower(b) in after && Upper(b) in after;
      } else {
        assert c in after;
      }
    }
    NotItsHalf(b);
  }

  lemma {:induction false} ApartBoth(b: Block, c: Block)
    ensures Apart(b, c) ==> Apart(c, b)
  {
  }

  lemma {:induction false} NotItsHalf(b: Block)
    requires b.order > 0
    ensures Lower(b) != b && Upper(b) != b
  {
  }

  /** Putting two halves together keeps the tiling. */
  lemma {:induction false} MergeTiling(blocks: set<Block>, base: nat, n: nat, b: Block)
    requires Tiled(blocks, base, n) && 0 < b.order <= MAX_ORDER && Aligned(b.addr, b.order)
    requires Lower(b) in blocks && Upper(b) in blocks
    ensures b !in blocks && Tiled(blocks - {Lower(b), Upper(b)} + {b}, base, n)
  {
    var after := blocks - {Lower(b), Upper(b)} + {b};
    forall c | c in blocks && c != Lower(b) && c != Upper(b) ensures Apart(b, c) {
    }
    forall p | base <= p < base + n ensures Covered(after, p) {
      assert Covered(blocks, p);
      var c :| c in blocks && Covers(c, p);
      if c == Lower(b) || c == Upper(b) {
        HalvesCover(b, p);
        assert b in after;
      } else {
        assert c in after;
      }
    }
  }

  /** Two blocks of a tiling never start at the same page. */
  lemma {:induction false} StartsDiffer(blocks: set<Block>, base: nat, n: nat, b: Block, c: Block)
    requires Tiled(blocks, base, n) && b in blocks && c in blocks && b.addr == c.addr
    ensures b == c
  {
  }

  // ----- The request order

  /** The smallest order whose block holds `size` bytes. */
  ghost predicate IsOrderOf(k: nat, size: nat)
  {
    size <= Pow2(k) * 0x1000 && (k > 0 ==> Pow2(k - 1) * 0x1000 < size)
  }

  lemma {:induction false} OrderUnique(j: nat, k: nat, size: nat)
    requires IsOrderOf(j, size) && IsOrderOf(k, size)
    ensures j == k
  {
    if j < k {
      Pow2Monotone(j, k - 1);
    } else if k < j {
      Pow2Monotone(k, j - 1);
    }
  }

  /** The loop at the head of buddy_kalloc and buddy_kfree. */
  method OrderOf(size: nat) returns (k: nat)
    ensures IsOrderOf(k, size)
  {
    k := 0;
    var bytes := 0x1000;
    while size > bytes
      invariant bytes == Pow2(k) * 0x1000
      invariant k > 0 ==> Pow2(k - 1) * 0x1000 < size
      decreases size - bytes
    {
      k := k + 1;
      bytes := 2 * bytes;
    }
  }

  lemma {:induction false} Pow2Eight()
    ensures Pow2(3) == 8 && Pow2(4) == 16 && Pow2(8) == 256
  {
    assert Pow2(8) == 2 * Pow2(7) == 4 * Pow2(6) == 8 * Pow2(5) == 16 * Pow2(4);
  }

  lemma {:induction false} WordBlocks()
    ensures Pow2(51) * 0x1000 == 0x8000_0000_0000_0000 && Pow2(52) * 0x1000 == 0x1_0000_0000_0000_0000
  {
    hide Pow2;
    Pow2Eight();
    Pow2Sum(8, 8);
    Pow2Sum(16, 16);
    Pow2Sum(32, 16);
    Pow2Sum(48, 3);
    Pow2Sum(48, 4);
  }

  /** In 64-bit arithmetic the order loop finds an order before the shift leaves the word exactly for sizes up
      to 2^63; beyond that the products are 0 from order 52 on. */
  lemma {:induction false} OrderLoopEnds(size: nat)
    requires size < 0x1_0000_0000_0000_0000
    ensures (exists k: nat :: k < 64 && size <= Pow2(k) * 0x1000 % 0x1_0000_0000_0000_0000) <==>
      size <= 0x8000_0000_0000_0000
  {
    hide Pow2;
    WordBlocks();
    if size <= 0x8000_0000_0000_0000 { assert size <= Pow2(51) * 0x1000 % 0x1_0000_0000_0000_0000; }
    forall k: nat | k < 64 ensures Pow2(k) * 0x1000 % 0x1_0000_0000_0000_0000 <= 0x8000_0000_0000_0000 {
      if k <= 51 {
        Pow2Monotone(k, 51);
      } else {
        Pow2Sum(52, k - 52);
        var q := Pow2(k - 52);
        assert Pow2(k) * 0x1000 == 0x1_0000_0000_0000_0000 * q;
        Quotient(Pow2(k) * 0x1000, 0x1_0000_0000_0000_0000, q, 0);
      }
    }
  }

  // ----- The pair bitmap

  /** order_offsets[k] for a region of `n` pages. */
  function Offset(n: nat, k: nat): nat
  {
    if k == 0 then 0 else ( QuotientNat(n, Pow2(k)); Offset(n, k - 1) + n / Pow2(k))
  }

  /** bit_pos of the pair of block `a` at order `k`. */
  function Pos(base: nat, n: nat, a: nat, k: nat): nat
    requires base <= a
  {
    Offset(n, k) + (a - base) / Pow2(k) / 2
  }

  /** `a` is the lower half of a pair of order-`k` blocks that lies wholly inside the region. */
  ghost predicate WholePair(base: nat, n: nat, a: nat, k: nat)
  {
    k < MAX_ORDER && base <= a && Aligned(a - base, k + 1) && a + Pow2(k + 1) <= base + n
  }

  lemma {:induction false} PairIndex(d: nat, k: nat)
    requires k < MAX_ORDER
    ensures Pow2(k) > 0 && Pow2(k + 1) > 0 && d / Pow2(k) / 2 == d / Pow2(k + 1)
  {
    HalveTwice(d, Pow2(k));
  }

  lemma {:induction false} IndexBelow(d: nat, n: nat, k: nat)
    requires k <= MAX_ORDER && d + Pow2(k) <= n
    ensures Pow2(k) > 0 && d / Pow2(k) < n / Pow2(k)
  {
    QuotientBelow(d, n, Pow2(k));
  }

  lemma {:induction false} IndexInjective(d: nat, e: nat, k: nat)
    requires k <= MAX_ORDER && Aligned(d, k) && Aligned(e, k) && Pow2(k) > 0 && d / Pow2(k) == e / Pow2(k)
    ensures d == e
  {
    assert d == Pow2(k) * (d / Pow2(k)) && e == Pow2(k) * (e / Pow2(k));
  }

  lemma {:induction false} OffsetMonotone(n: nat, j: nat, k: nat)
    requires j <= k
    ensures Offset(n, j) <= Offset(n, k)
  {
    hide Pow2;
    if j < k {
      OffsetMonotone(n, j, k - 1);
      var step: nat := n / Pow2(k);
      assert Offset(n, k) == Offset(n, k - 1) + step;
    }
  }

  lemma {:induction false} PosAtLeast(base: nat, n: nat, a: nat, k: nat)
    requires base <= a
    ensures Offset(n, k) <= Pos(base, n, a, k)
  {
    QuotientNat(a - base, Pow2(k));
  }

  /** The bits of one order's whole pairs end where the next order's begin. */
  lemma {:induction false} PosRange(base: nat, n: nat, a: nat, k: nat)
    requires WholePair(base, n, a, k)
    ensures Offset(n, k) <= Pos(base, n, a, k) < Offset(n, k + 1)
  {
    PairIndex(a - base, k);
    IndexBelow(a - base, n, k + 1);
  }

  /** No two whole pairs, of any orders, share a bit. */
  lemma {:induction false} PosInjective(base: nat, n: nat, a: nat, j: nat, b: nat, k: nat)
    requires WholePair(base, n, a, j) && WholePair(base, n, b, k) && Pos(base, n, a, j) == Pos(base, n, b, k)
    ensures a == b && j == k
  {
    PosRange(base, n, a, j);
    PosRange(base, n, b, k);
    if j < k { OffsetMonotone(n, j + 1, k); } else if k < j { OffsetMonotone(n, k + 1, j); }
    PairIndex(a - base, j);
    PairIndex(b - base, k);
    IndexInjective(a - base, b - base, k + 1);
  }

  lemma {:induction false} HalfBelow(n: nat, k: nat)
    requires k < MAX_ORDER
    ensures Pow2(k) > 0 && Pow2(k + 1) > 0 && 2 * (n / Pow2(k + 1)) <= n / Pow2(k)
  {
    HalveTwice(n, Pow2(k));
  }

  lemma {:induction false} OffsetBound(n: nat, k: nat)
    requires k <= MAX_ORDER
    ensures Pow2(k) > 0 && Offset(n, k) + n / Pow2(k) <= n
  {
    if k > 0 {
      OffsetBound(n, k - 1);
      HalfBelow(n, k - 1);
    }
  }

  /** Every bit that the allocator touches, whole pair or not, is one of the first `n`. */
  lemma {:induction false} PosInside(base: nat, n: nat, a: nat, k: nat)
    requires k <= MAX_ORDER && base <= a && a + Pow2(k) <= base + n
    ensures Pos(base, n, a, k) < n
  {
    OffsetBound(n, k);
    IndexBelow(a - base, n, k);
  }
}
