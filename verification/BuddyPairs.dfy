/** phys_kmalloc.c: what the pair bitmap means, which steps keep that meaning, and the normal form
    of a fully coalesced free set. */
module BuddyPairs {
  import opened Common
  import opened BuddyBlocks

  // ----- The bitmap

  ghost function HalvesDiffer(free: set<Block>, a: nat, k: nat): bool
  {
    (Block(a, k) in free) != (Block(a + Pow2(k), k) in free)
  }

  /** Every pair bit below the top order tells whether exactly one half is on the free list. */
  ghost predicate Agrees(bits: seq<bool>, free: set<Block>, base: nat, n: nat)
    requires |bits| == n
  {
    forall a, k :: WholePair(base, n, a, k) ==> PairAgrees(bits, free, base, n, a, k)
  }

  ghost predicate PairAgrees(bits: seq<bool>, free: set<Block>, base: nat, n: nat, a: nat, k: nat)
    requires |bits| == n && WholePair(base, n, a, k)
  {
    PairInside(base, n, a, k);
    bits[Pos(base, n, a, k)] == HalvesDiffer(free, a, k)
  }

  lemma {:induction false} PairInside(base: nat, n: nat, a: nat, k: nat)
    requires WholePair(base, n, a, k)
    ensures Pos(base, n, a, k) < n
  {
    PosInside(base, n, a, k);
  }

  function Toggled(bits: seq<bool>, p: nat): seq<bool> requires p < |bits| { bits[p := !bits[p]] }

  /** A 4 MiB aligned region of whole 4 MiB blocks: every block has its buddy inside. */
  ghost predicate WholeRegion(base: nat, n: nat) { Aligned(base, MAX_ORDER) && Aligned(n, MAX_ORDER) }

  lemma {:induction false} DifferenceOfMultiples(a: nat, b: nat, s: nat)
    requires s > 0 && b <= a && b % s == 0 && a % s == 0
    ensures (a - b) % s == 0
  {
    var p, q := a / s, b / s;
    assert a == s * p && b == s * q;
    assert s * (p - q) == s * p - s * q;
    if p < q { Multiple(s, p - q); }
    Quotient(a - b, s, p - q, 0);
  }

  lemma {:induction false} SumOfMultiples(a: nat, b: nat, s: nat)
    requires s > 0 && a % s == 0 && b % s == 0
    ensures (a + b) % s == 0
  {
    var p, q := a / s, b / s;
    assert a == s * p && b == s * q;
    assert s * (p + q) == s * p + s * q;
    Quotient(a + b, s, p + q, 0);
  }

  lemma {:induction false} DifferenceAligned(a: nat, b: nat, s: nat)
    requires s > 0 && b <= a && b % s == 0
    ensures a % s == 0 <==> (a - b) % s == 0
  {
    if a % s == 0 { DifferenceOfMultiples(a, b, s); }
    if (a - b) % s == 0 { SumOfMultiples(a - b, b, s); }
  }

  /** Multiples of `s` are `s` apart. */
  lemma {:induction false} MultiplesApart(a: nat, b: nat, s: nat)
    requires s > 0 && a % s == 0 && b % s == 0 && a < b
    ensures a + s <= b
  {
    var p, q := a / s, b / s;
    assert a == s * p && b == s * q && s * (q - p) == s * q - s * p;
    if q != p { Multiple(s, q - p); }
  }

  /** In a whole region the pair of any block that fits lies wholly inside. */
  lemma {:induction false} PairIsWhole(base: nat, n: nat, a: nat, k: nat)
    requires WholeRegion(base, n) && k < MAX_ORDER && Fits(Block(a, k), base, n)
    ensures WholePair(base, n, PairOf(a, k), k)
  {
    var p, s := PairOf(a, k), Pow2(k + 1);
    AlignedDown(base, k + 1, MAX_ORDER);
    AlignedDown(n, k + 1, MAX_ORDER);
    if p < base { MultiplesApart(p, base, s); }
    DifferenceAligned(p, base, s);
    DifferenceAligned(base + n, base, s);
    MultiplesApart(p, base + n, s);
  }

  lemma {:induction false} SameQuotient(x: nat, y: nat, s: nat)
    requires s > 0 && x % s == 0 && x <= y < x + s
    ensures x / s == y / s
  {
    var q := x / s;
    assert x == s * q;
    Quotient(y, s, q, y - x);
  }

  lemma {:induction false} PosOfPair(base: nat, n: nat, a: nat, k: nat)
    requires k < MAX_ORDER && base <= a && Aligned(a, k) && WholePair(base, n, PairOf(a, k), k)
    ensures Pos(base, n, a, k) == Pos(base, n, PairOf(a, k), k)
  {
    var p := PairOf(a, k);
    PairIndex(a - base, k);
    PairIndex(p - base, k);
    SameQuotient(p - base, a - base, Pow2(k + 1));
  }

  /** Aligned pairs determine their halves. */
  lemma {:induction false} PairUnique(a: nat, k: nat, c: nat)
    requires k < MAX_ORDER && Aligned(a, k) && Aligned(c, k + 1) && (a == c || a == c + Pow2(k))
    ensures c == PairOf(a, k)
  {
    AlignedHalves(c, k);
  }

  /** Every pair bit that was right stays right. */
  ghost predicate Keeps(bits: seq<bool>, free: set<Block>, bits': seq<bool>, free': set<Block>, base: nat, n: nat)
    requires |bits| == |bits'| == n
  {
    forall a, k :: WholePair(base, n, a, k) && PairAgrees(bits, free, base, n, a, k) ==>
      PairAgrees(bits', free', base, n, a, k)
  }

  lemma {:induction false} KeepsAgreement(bits: seq<bool>, free: set<Block>, bits': seq<bool>, free': set<Block>,
                                          base: nat, n: nat)
    requires |bits| == |bits'| == n && Keeps(bits, free, bits', free', base, n) && Agrees(bits, free, base, n)
    ensures Agrees(bits', free', base, n)
  {
    hide PairAgrees, WholePair;
  }

  lemma {:induction false} KeepsTrans(b0: seq<bool>, f0: set<Block>, b1: seq<bool>, f1: set<Block>, b2: seq<bool>,
                                      f2: set<Block>, base: nat, n: nat)
    requires |b0| == |b1| == |b2| == n
    requires Keeps(b0, f0, b1, f1, base, n) && Keeps(b1, f1, b2, f2, base, n)
    ensures Keeps(b0, f0, b2, f2, base, n)
  {
    hide PairAgrees, WholePair;
  }

  lemma {:induction false} KeepsSelf(bits: seq<bool>, free: set<Block>, base: nat, n: nat)
    requires |bits| == n
    ensures Keeps(bits, free, bits, free, base, n)
  {
  }

  /** One block of order `k` enters or leaves the free set and the bit of its pair is toggled. */
  lemma {:induction false} FlipKeeps(bits: seq<bool>, free: set<Block>, after: set<Block>, base: nat, n: nat, a: nat,
                                     k: nat)
    requires |bits| == n && k < MAX_ORDER && Aligned(base, MAX_ORDER) && base <= a && Aligned(a, k)
    requires WholePair(base, n, PairOf(a, k), k)
    requires forall b :: b != Block(a, k) ==> (b in after <==> b in free)
    requires Block(a, k) in after <==> Block(a, k) !in free
    ensures Pos(base, n, a, k) < n && Keeps(bits, free, Toggled(bits, Pos(base, n, a, k)), after, base, n)
  {
    hide Pos, Offset;
    PosOfPair(base, n, a, k);
    var p := PairOf(a, k);
    PairInside(base, n, p, k);
    var bits' := Toggled(bits, Pos(base, n, a, k));
    forall c: nat, j: nat | WholePair(base, n, c, j) && PairAgrees(bits, free, base, n, c, j)
      ensures PairAgrees(bits', after, base, n, c, j)
    {
      PairInside(base, n, c, j);
      if c != p || j != k {
        if Pos(base, n, c, j) == Pos(base, n, p, k) { PosInjective(base, n, c, j, p, k); }
        if j == k && (c == a || c + Pow2(k) == a) {
          AlignedDown(base, k + 1, MAX_ORDER);
          DifferenceAligned(c, base, Pow2(k + 1));
          PairUnique(a, k, c);
        }
      }
    }
  }

  lemma {:induction false} FlipAgrees(bits: seq<bool>, free: set<Block>, after: set<Block>, base: nat, n: nat,
                                      a: nat, k: nat)
    requires WholeRegion(base, n) && |bits| == n && Agrees(bits, free, base, n)
    requires k < MAX_ORDER && Fits(Block(a, k), base, n)
    requires forall b :: b != Block(a, k) ==> (b in after <==> b in free)
    requires Block(a, k) in after <==> Block(a, k) !in free
    ensures Pos(base, n, a, k) < n && Agrees(Toggled(bits, Pos(base, n, a, k)), after, base, n)
  {
    hide Agrees, Keeps, Pos, Aligned, WholePair;
    PairIsWhole(base, n, a, k);
    FlipKeeps(bits, free, after, base, n, a, k);
    KeepsAgreement(bits, free, Toggled(bits, Pos(base, n, a, k)), after, base, n);
  }

  /** Blocks of the top order have no pair bit; a toggle at the top order reaches no pair bit. */
  lemma {:induction false} TopKeeps(bits: seq<bool>, free: set<Block>, after: set<Block>, base: nat, n: nat, a: nat)
    requires |bits| == n && Fits(Block(a, MAX_ORDER), base, n)
    requires forall b: Block :: b.order < MAX_ORDER ==> (b in after <==> b in free)
    ensures Keeps(bits, free, bits, after, base, n)
    ensures Pos(base, n, a, MAX_ORDER) < n
    ensures Keeps(bits, free, Toggled(bits, Pos(base, n, a, MAX_ORDER)), after, base, n)
  {
    hide Pow2, Aligned, Offset, Pos;
    PosInside(base, n, a, MAX_ORDER);
    PosAtLeast(base, n, a, MAX_ORDER);
    var bits' := Toggled(bits, Pos(base, n, a, MAX_ORDER));
    forall c: nat, j: nat | WholePair(base, n, c, j) && PairAgrees(bits, free, base, n, c, j)
      ensures PairAgrees(bits, after, base, n, c, j) && PairAgrees(bits', after, base, n, c, j)
    {
      PairInside(base, n, c, j);
      PosRange(base, n, c, j);
      OffsetMonotone(n, j + 1, MAX_ORDER);
    }
  }

  lemma {:induction false} TopAgrees(bits: seq<bool>, free: set<Block>, after: set<Block>, base: nat, n: nat, a: nat)
    requires |bits| == n && Agrees(bits, free, base, n) && Fits(Block(a, MAX_ORDER), base, n)
    requires forall b: Block :: b.order < MAX_ORDER ==> (b in after <==> b in free)
    ensures Agrees(bits, after, base, n)
    ensures Pos(base, n, a, MAX_ORDER) < n && Agrees(Toggled(bits, Pos(base, n, a, MAX_ORDER)), after, base, n)
  {
    hide Agrees, Keeps, Pos;
    TopKeeps(bits, free, after, base, n, a);
    KeepsAgreement(bits, free, bits, after, base, n);
    KeepsAgreement(bits, free, Toggled(bits, Pos(base, n, a, MAX_ORDER)), after, base, n);
  }

  // ----- The pairs that buddy_kfree consults

  /** The lower half of the pair of order-`k` blocks around page `a`. */
  ghost function Around(a: nat, k: nat): nat { FloorMultiple(a, Pow2(k + 1)); a - a % Pow2(k + 1) }

  /** The pairs around block `a` from its own order up to the top are inside the region, and their bits are right. */
  ghost predicate AncestorsAgree(bits: seq<bool>, free: set<Block>, base: nat, n: nat, a: nat, order: nat)
    requires |bits| == n
  {
    forall k: nat :: order <= k < MAX_ORDER ==>
      WholePair(base, n, Around(a, k), k) && PairAgrees(bits, free, base, n, Around(a, k), k)
  }

  lemma {:induction false} KeepsAncestors(bits: seq<bool>, free: set<Block>, bits': seq<bool>, free': set<Block>,
                                          base: nat, n: nat, a: nat, order: nat)
    requires |bits| == |bits'| == n && Keeps(bits, free, bits', free', base, n)
    requires AncestorsAgree(bits, free, base, n, a, order)
    ensures AncestorsAgree(bits', free', base, n, a, order)
  {
    hide PairAgrees, WholePair, Around;
  }

  lemma {:induction false} FloorMultiple(a: nat, s: nat)
    requires s > 0
    ensures a % s <= a && (a - a % s) % s == 0
  {
    var q: nat := a / s;
    assert a == s * q + a % s;
    Quotient(s * q, s, q, 0);
  }

  /** The greatest multiple of `s` up to `a`. */
  lemma {:induction false} FloorIs(a: nat, s: nat, f: nat)
    requires s > 0 && f % s == 0 && f <= a < f + s
    ensures a - a % s == f
  {
    var q := f / s;
    assert f == s * q;
    Quotient(a, s, q, a - f);
  }

  lemma {:induction false} AroundIsPair(a: nat, k: nat)
    requires k < MAX_ORDER && Aligned(a, k)
    ensures Around(a, k) == PairOf(a, k)
  {
    FloorIs(a, Pow2(k + 1), PairOf(a, k));
  }

  /** The pairs around a block are those around the block that it is merged into. */
  lemma {:induction false} AroundMerged(a: nat, k: nat, j: nat)
    requires k <= j < MAX_ORDER
    ensures Around(Around(a, k), j) == Around(a, j)
  {
    var f, s := Around(a, j), Pow2(k + 1);
    FloorMultiple(a, s);
    FloorMultiple(a, Pow2(j + 1));
    AlignedDown(f, k + 1, j + 1);
    if Around(a, k) < f { MultiplesApart(Around(a, k), f, s); }
    FloorIs(Around(a, k), Pow2(j + 1), f);
  }

  lemma {:induction false} AncestorsUp(bits: seq<bool>, free: set<Block>, base: nat, n: nat, a: nat, k: nat)
    requires |bits| == n && k < MAX_ORDER && AncestorsAgree(bits, free, base, n, a, k)
    ensures AncestorsAgree(bits, free, base, n, Around(a, k), k + 1)
  {
    hide PairAgrees, WholePair, Around;
    forall j: nat | k + 1 <= j < MAX_ORDER ensures Around(Around(a, k), j) == Around(a, j) { AroundMerged(a, k, j); }
  }

  /** What buddy_kfree needs in order not to take a block off a list that it is not on: each bit that it meets set on
      its way up belongs to a buddy that is free.  A clear bit stops it, right or wrong. */
  ghost predicate Mergeable(bits: seq<bool>, free: set<Block>, base: nat, n: nat, a: nat, k: nat)
    requires |bits| == n
    decreases MAX_ORDER - k
  {
    && k <= MAX_ORDER && Aligned(a, k) && base <= a
    && (k < MAX_ORDER ==>
          && WholePair(base, n, PairOf(a, k), k)
          && (PairBit(bits, base, n, a, k) ==>
                Block(BuddyOf(a, k), k) in free && Mergeable(bits, free, base, n, PairOf(a, k), k + 1)))
  }

  /** The bit of the pair of block `a`. */
  ghost predicate PairBit(bits: seq<bool>, base: nat, n: nat, a: nat, k: nat)
    requires |bits| == n && k < MAX_ORDER && Aligned(a, k) && WholePair(base, n, PairOf(a, k), k)
  {
    PairInside(base, n, PairOf(a, k), k);
    bits[Pos(base, n, PairOf(a, k), k)]
  }

  /** The block that buddy_kfree inserts in the end. */
  ghost function MergedBlock(bits: seq<bool>, free: set<Block>, base: nat, n: nat, a: nat, k: nat): Block
    requires |bits| == n && Mergeable(bits, free, base, n, a, k)
    decreases MAX_ORDER - k
  {
    if k == MAX_ORDER || !PairBit(bits, base, n, a, k) then Block(a, k)
    else MergedBlock(bits, free, base, n, PairOf(a, k), k + 1)
  }

  /** The bits that it toggles on the way, below the top order. */
  ghost function Toggles(bits: seq<bool>, free: set<Block>, base: nat, n: nat, a: nat, k: nat): set<nat>
    requires |bits| == n && Mergeable(bits, free, base, n, a, k)
    decreases MAX_ORDER - k
  {
    if k == MAX_ORDER then {}
    else {Pos(base, n, PairOf(a, k), k)} +
         if PairBit(bits, base, n, a, k) then Toggles(bits, free, base, n, PairOf(a, k), k + 1) else {}
  }

  /** Bits of pairs, and blocks, of order `k` and above are the same. */
  ghost predicate SameAbove(bits: seq<bool>, free: set<Block>, bits': seq<bool>, free': set<Block>, base: nat, n: nat,
                            k: nat)
    requires |bits| == |bits'| == n
  {
    && (forall c, j :: k <= j && WholePair(base, n, c, j) ==> SameBit(bits, bits', base, n, c, j))
    && (forall b: Block :: k <= b.order ==> (b in free' <==> b in free))
  }

  ghost predicate SameBit(bits: seq<bool>, bits': seq<bool>, base: nat, n: nat, c: nat, j: nat)
    requires |bits| == |bits'| == n && WholePair(base, n, c, j)
  {
    PairInside(base, n, c, j);
    bits'[Pos(base, n, c, j)] == bits[Pos(base, n, c, j)]
  }

  lemma {:induction false} SameWayUp(bits: seq<bool>, free: set<Block>, bits': seq<bool>, free': set<Block>, base: nat,
                                     n: nat, a: nat, k: nat)
    requires |bits| == |bits'| == n && SameAbove(bits, free, bits', free', base, n, k)
    requires Mergeable(bits, free, base, n, a, k)
    ensures Mergeable(bits', free', base, n, a, k)
    ensures MergedBlock(bits', free', base, n, a, k) == MergedBlock(bits, free, base, n, a, k)
    ensures Toggles(bits', free', base, n, a, k) == Toggles(bits, free, base, n, a, k)
    decreases MAX_ORDER - k
  {
    hide Pos, Aligned, WholePair;
    if k < MAX_ORDER {
      assert SameBit(bits, bits', base, n, PairOf(a, k), k);
      if PairBit(bits, base, n, a, k) { SameWayUp(bits, free, bits', free', base, n, PairOf(a, k), k + 1); }
    }
  }

  /** A toggle at order `k` and the buddy leaving its list do not concern the orders above. */
  lemma {:induction false} ToggleBelow(bits: seq<bool>, free: set<Block>, base: nat, n: nat, p: nat, k: nat, b: Block)
    requires |bits| == n && WholePair(base, n, p, k) && b.order == k
    ensures Pos(base, n, p, k) < n
    ensures SameAbove(bits, free, Toggled(bits, Pos(base, n, p, k)), free - {b}, base, n, k + 1)
  {
    hide Pos;
    PairInside(base, n, p, k);
    var bits' := Toggled(bits, Pos(base, n, p, k));
    forall c: nat, j: nat | k + 1 <= j && WholePair(base, n, c, j) ensures SameBit(bits, bits', base, n, c, j) {
      PairInside(base, n, c, j);
      if Pos(base, n, c, j) == Pos(base, n, p, k) { PosInjective(base, n, c, j, p, k); }
    }
  }

  /** All toggled bits belong to pairs of order `k` and above. */
  lemma {:induction false} TogglesAbove(bits: seq<bool>, free: set<Block>, base: nat, n: nat, a: nat, k: nat, i: nat)
    requires |bits| == n && Mergeable(bits, free, base, n, a, k) && i in Toggles(bits, free, base, n, a, k)
    ensures exists c, j :: k <= j && WholePair(base, n, c, j) && i == Pos(base, n, c, j)
    decreases MAX_ORDER - k
  {
    hide Pos, Aligned;
    if i != Pos(base, n, PairOf(a, k), k) { TogglesAbove(bits, free, base, n, PairOf(a, k), k + 1, i); }
  }

  lemma {:induction false} ToggledOnce(bits: seq<bool>, free: set<Block>, base: nat, n: nat, a: nat, k: nat, p: nat)
    requires |bits| == n && Mergeable(bits, free, base, n, a, k + 1) && WholePair(base, n, p, k)
    ensures Pos(base, n, p, k) !in Toggles(bits, free, base, n, a, k + 1)
  {
    hide Pos, Toggles;
    var i := Pos(base, n, p, k);
    if i in Toggles(bits, free, base, n, a, k + 1) {
      TogglesAbove(bits, free, base, n, a, k + 1, i);
      var c, j :| k + 1 <= j && WholePair(base, n, c, j) && i == Pos(base, n, c, j);
      PosInjective(base, n, c, j, p, k);
    }
  }

  /** Right bits around a live block are enough. */
  lemma {:induction false} AncestorsMergeable(bits: seq<bool>, free: set<Block>, live: set<Block>, base: nat, n: nat,
                                              a: nat, k: nat, b: Block)
    requires |bits| == n && AncestorsAgree(bits, free, base, n, a, k) && Tiled(free + live, base, n) && free !! live
    requires b in live && Inside(b, Block(a, k)) && k <= MAX_ORDER && Aligned(a, k) && base <= a
    ensures Mergeable(bits, free, base, n, a, k)
    decreases MAX_ORDER - k
  {
    hide Pos, Tiled;
    if k < MAX_ORDER {
      AroundIsPair(a, k);
      assert PairAgrees(bits, free, base, n, Around(a, k), k);
      NotFreeAround(free, live, base, n, b, Block(a, k));
      if PairBit(bits, base, n, a, k) {
        AncestorsUp(bits, free, base, n, a, k);
        AncestorsMergeable(bits, free, live, base, n, PairOf(a, k), k + 1, b);
      }
    }
  }

  /** A block around a live one is not free. */
  lemma {:induction false} NotFreeAround(free: set<Block>, live: set<Block>, base: nat, n: nat, b: Block, c: Block)
    requires Tiled(free + live, base, n) && free !! live && b in live && Inside(b, c)
    ensures c !in free
  {
    assert b in free + live;
  }

  /** In a whole region with a right bitmap every block has right ancestors. */
  lemma {:induction false} AllAncestors(bits: seq<bool>, free: set<Block>, base: nat, n: nat, a: nat, order: nat)
    requires WholeRegion(base, n) && |bits| == n && Agrees(bits, free, base, n) && base <= a < base + n
    ensures AncestorsAgree(bits, free, base, n, a, order)
  {
    hide PairAgrees;
    forall k: nat | order <= k < MAX_ORDER ensures WholePair(base, n, Around(a, k), k) { AroundWhole(base, n, a, k); }
  }

  lemma {:induction false} RightBitsSuffice(bits: seq<bool>, free: set<Block>, live: set<Block>, base: nat, n: nat,
                                            b: Block)
    requires WholeRegion(base, n) && |bits| == n && Agrees(bits, free, base, n)
    requires Tiled(free + live, base, n) && free !! live && b in live
    ensures Mergeable(bits, free, base, n, b.addr, b.order)
  {
    hide Mergeable, Agrees, AncestorsAgree, WholeRegion;
    assert b in free + live;
    AllAncestors(bits, free, base, n, b.addr, b.order);
    AncestorsMergeable(bits, free, live, base, n, b.addr, b.order, b);
  }

  lemma {:induction false} AroundWhole(base: nat, n: nat, a: nat, k: nat)
    requires WholeRegion(base, n) && base <= a < base + n && k < MAX_ORDER
    ensures WholePair(base, n, Around(a, k), k)
  {
    var p, s := Around(a, k), Pow2(k + 1);
    FloorMultiple(a, s);
    AlignedDown(base, k + 1, MAX_ORDER);
    AlignedDown(n, k + 1, MAX_ORDER);
    if p < base { MultiplesApart(p, base, s); }
    DifferenceAligned(p, base, s);
    SumOfMultiples(base, n, s);
    MultiplesApart(p, base + n, s);
  }

  // ----- What buddy_kalloc does to the free set and the bitmap

  /** The upper halves that splitting block `a` from order `hi` down to `lo` puts on the lists. */
  ghost function UpperHalves(a: nat, lo: nat, hi: nat): set<Block>
  {
    set k | lo <= k < hi :: Block(a + Pow2(k), k)
  }

  /** The free set after block `a` of order `idx` was popped and split down to `order`. */
  ghost function Carved(free: set<Block>, a: nat, order: nat, idx: nat): set<Block>
  {
    free - {Block(a, idx)} + UpperHalves(a, order, idx)
  }

  /** A request of order `k` finds a block of that order, or splits a block of the top order once, or fails. */
  ghost predicate ServedDirectly(free: set<Block>, k: nat)
  {
    || (exists x :: x in free && x.order == k)
    || (k == MAX_ORDER - 1 && exists x :: x in free && x.order == MAX_ORDER)
    || (forall x :: x in free ==> x.order < k)
  }

  ghost predicate OneToggleSuffices(order: nat, idx: nat)
  {
    idx == order || (idx == MAX_ORDER && order == MAX_ORDER - 1)
  }

  /** For the first list `idx` from `order` on that has a block, the two say the same. */
  lemma {:induction false} DirectIff(free: set<Block>, order: nat, idx: nat, a: nat)
    requires order <= idx <= MAX_ORDER && Block(a, idx) in free
    requires forall b :: b in free ==> b.order < order || idx <= b.order <= MAX_ORDER
    ensures OneToggleSuffices(order, idx) <==> ServedDirectly(free, order)
  {
  }

  /** Its single toggle keeps the bitmap right in exactly two cases: nothing was split, or one block of
      the top order was split once. */
  lemma {:induction false} CarveAgreesIff(bits: seq<bool>, free: set<Block>, live: set<Block>, base: nat, n: nat,
                                          a: nat, order: nat, idx: nat)
    requires WholeRegion(base, n) && |bits| == n && Agrees(bits, free, base, n)
    requires Tiled(free + live, base, n) && order <= idx && Block(a, idx) in free
    ensures base <= a && Pos(base, n, a, order) < n
    ensures Agrees(Toggled(bits, Pos(base, n, a, order)), Carved(free, a, order, idx), base, n) <==>
      OneToggleSuffices(order, idx)
  {
    var b := Block(a, idx);
    assert b in free + live;
    Pow2Monotone(order, idx);
    AlignedDown(a, order, idx);
    PosInside(base, n, a, order);
    if OneToggleSuffices(order, idx) {
      CarveAgrees(bits, free, live, base, n, a, order, idx);
    } else {
      CarveDisagrees(bits, free, live, base, n, a, order, idx);
    }
  }

  lemma {:induction false} CarveAgrees(bits: seq<bool>, free: set<Block>, live: set<Block>, base: nat, n: nat,
                                       a: nat, order: nat, idx: nat)
    requires WholeRegion(base, n) && |bits| == n && Agrees(bits, free, base, n)
    requires Tiled(free + live, base, n) && order <= idx && Block(a, idx) in free && OneToggleSuffices(order, idx)
    requires base <= a && Pos(base, n, a, order) < n
    ensures Agrees(Toggled(bits, Pos(base, n, a, order)), Carved(free, a, order, idx), base, n)
  {
    hide Aligned, Agrees, Pos;
    var b, after := Block(a, idx), Carved(free, a, order, idx);
    assert b in free + live;
    if idx == order {
      assert after == free - {b};
      if idx < MAX_ORDER {
        FlipAgrees(bits, free, after, base, n, a, order);
      } else {
        TopAgrees(bits, free, after, base, n, a);
      }
    } else {
      var mid, up := free - {b}, Block(a + Pow2(order), order);
      TopAgrees(bits, free, mid, base, n, a);
      SplitTiling(free + live, base, n, b);
      assert up == Upper(b) && up !in free && after == mid + {up};
      AlignedHalves(a, order);
      FlipAgrees(bits, mid, after, base, n, a + Pow2(order), order);
      PairUnique(a + Pow2(order), order, a);
      PairIsWhole(base, n, a + Pow2(order), order);
      PosOfPair(base, n, a + Pow2(order), order);
    }
  }

  lemma {:induction false} CarveDisagrees(bits: seq<bool>, free: set<Block>, live: set<Block>, base: nat, n: nat,
                                          a: nat, order: nat, idx: nat)
    requires WholeRegion(base, n) && |bits| == n && Agrees(bits, free, base, n)
    requires Tiled(free + live, base, n) && order <= idx && Block(a, idx) in free && !OneToggleSuffices(order, idx)
    requires base <= a && Pos(base, n, a, order) < n
    ensures !Agrees(Toggled(bits, Pos(base, n, a, order)), Carved(free, a, order, idx), base, n)
  {
    var b, after := Block(a, idx), Carved(free, a, order, idx);
    var bits' := Toggled(bits, Pos(base, n, a, order));
    assert b in free + live;
    AlignedDown(a, order, idx);
    Pow2Monotone(order, idx);
    PairIsWhole(base, n, a, order);
    PosOfPair(base, n, a, order);
    // The order whose bit goes stale, and the block of it that changed sides.
    var k := if idx < MAX_ORDER then idx else idx - 1;
    var p: nat;
    if idx < MAX_ORDER {
      p := PairOf(a, k);
      PairIsWhole(base, n, a, k);
      StaleAtTop(free, a, order, idx);
    } else {
      p := a;
      SplitTiling(free + live, base, n, b);
      AlignedHalves(a, k);
      PairUnique(a, k, a);
      PairIsWhole(base, n, a, k);
      StaleBelow(free, live, base, n, a, order, idx);
    }
    PairInside(base, n, p, k);
    if Pos(base, n, p, k) == Pos(base, n, PairOf(a, order), order) {
      PosInjective(base, n, p, k, PairOf(a, order), order);
      assert false;
    }
    assert PairAgrees(bits, free, base, n, p, k);
    assert !PairAgrees(bits', after, base, n, p, k);
  }

  lemma {:induction false} StaleAtTop(free: set<Block>, a: nat, order: nat, idx: nat)
    requires order < idx < MAX_ORDER && Aligned(a, idx) && Block(a, idx) in free
    ensures HalvesDiffer(Carved(free, a, order, idx), PairOf(a, idx), idx) != HalvesDiffer(free, PairOf(a, idx), idx)
  {
    var after := Carved(free, a, order, idx);
    assert forall c: Block :: c.order == idx && c != Block(a, idx) ==> (c in after <==> c in free);
    assert Block(a, idx) !in after;
  }

  lemma {:induction false} StaleBelow(free: set<Block>, live: set<Block>, base: nat, n: nat, a: nat, order: nat,
                                      idx: nat)
    requires Tiled(free + live, base, n) && order < idx - 1 && Block(a, idx) in free
    ensures HalvesDiffer(Carved(free, a, order, idx), a, idx - 1) != HalvesDiffer(free, a, idx - 1)
  {
    hide Tiled, Aligned;
    var b, after := Block(a, idx), Carved(free, a, order, idx);
    assert b in free + live;
    SplitTiling(free + live, base, n, b);
    assert Upper(b) !in free && Lower(b) !in free;
    assert Upper(b) in UpperHalves(a, order, idx) && Upper(b) in after;
    assert Lower(b) !in after;
  }

  // ----- Fully coalesced free sets

  /** No pair has both halves free. */
  ghost predicate Coalesced(free: set<Block>)
  {
    forall a: nat, k: nat :: k < MAX_ORDER && Aligned(a, k + 1) && Block(a, k) in free ==>
      Block(a + Pow2(k), k) !in free
  }

  ghost predicate Inside(b: Block, c: Block) { c.addr <= b.addr && b.addr + Pow2(b.order) <= c.addr + Pow2(c.order) }

  /** Aligned blocks are nested or disjoint. */
  lemma {:induction false} Nested(b: Block, c: Block)
    requires b.order <= c.order <= MAX_ORDER && Aligned(b.addr, b.order) && Aligned(c.addr, c.order)
    ensures Inside(b, c) || Apart(b, c)
  {
    var s := Pow2(b.order);
    AlignedDown(c.addr, b.order, c.order);
    AlignedNext(c.addr, c.order);
    AlignedDown(c.addr + Pow2(c.order), b.order, c.order);
    if b.addr < c.addr { MultiplesApart(b.addr, c.addr, s); }
    if b.addr < c.addr + Pow2(c.order) { MultiplesApart(b.addr, c.addr + Pow2(c.order), s); }
  }

  /** An aligned block whose pages are all free lies inside one free block. */
  lemma {:induction false} FreeRunIsOneBlock(free: set<Block>, live: set<Block>, base: nat, n: nat,
                                             b: Block) returns (c: Block)
    requires Tiled(free + live, base, n) && Coalesced(free) && Fits(b, base, n)
    requires forall p :: Covers(b, p) ==> Covered(free, p)
    ensures c in free && Inside(b, c)
    decreases b.order
  {
    if b.order == 0 {
      assert Covers(b, b.addr);
      c :| c in free && Covers(c, b.addr);
    } else {
      AlignedHalves(b.addr, b.order - 1);
      var lo, hi := Lower(b), Upper(b);
      forall p | Covers(lo, p) || Covers(hi, p) ensures Covered(free, p) { HalvesCover(b, p); }
      var c0 := FreeRunIsOneBlock(free, live, base, n, lo);
      var c1 := FreeRunIsOneBlock(free, live, base, n, hi);
      assert c0 in free + live && c1 in free + live;
      if c0.order >= b.order {
        c := c0;
        Nested(b, c);
      } else if c1.order >= b.order {
        c := c1;
        Nested(b, c);
      } else {
        OnlyItself(lo, c0);
        OnlyItself(hi, c1);
        assert false;
      }
    }
  }

  lemma {:induction false} OnlyItself(b: Block, c: Block)
    requires Inside(b, c) && c.order <= b.order
    ensures b == c
  {
    Pow2Monotone(c.order, b.order);
  }

  /** A coalesced free set is determined by the live blocks alone. */
  lemma {:induction false} CoalescedUnique(f: set<Block>, g: set<Block>, live: set<Block>, base: nat, n: nat)
    requires Tiled(f + live, base, n) && f !! live && Coalesced(f)
    requires Tiled(g + live, base, n) && g !! live && Coalesced(g)
    ensures f == g
  {
    forall b | b in f ensures b in g { OneInOther(f, g, live, base, n, b); }
    forall b | b in g ensures b in f { OneInOther(g, f, live, base, n, b); }
  }

  lemma {:induction false} OneInOther(f: set<Block>, g: set<Block>, live: set<Block>, base: nat, n: nat, b: Block)
    requires Tiled(f + live, base, n) && f !! live && Coalesced(f) && b in f
    requires Tiled(g + live, base, n) && g !! live && Coalesced(g)
    ensures b in g
  {
    FreeIsNotLive(f, live, base, n);
    FreeIsNotLive(g, live, base, n);
    assert b in f + live;
    forall p | Covers(b, p) ensures Covered(g, p) { assert Covered(f, p); }
    var c := FreeRunIsOneBlock(g, live, base, n, b);
    assert c in g + live;
    forall p | Covers(c, p) ensures Covered(f, p) { assert Covered(g, p); }
    var d := FreeRunIsOneBlock(f, live, base, n, c);
    assert d in f + live && !Apart(b, d);
    OnlyEqual(b, c);
  }

  lemma {:induction false} OnlyEqual(b: Block, c: Block)
    requires Inside(b, c) && Inside(c, b)
    ensures b == c
  {
    if b.order < c.order { Pow2Monotone(b.order, c.order); }
    if c.order < b.order { Pow2Monotone(c.order, b.order); }
  }

  /** In a tiled region the free pages are the pages that no live block covers. */
  lemma {:induction false} FreeIsNotLive(free: set<Block>, live: set<Block>, base: nat, n: nat)
    requires Tiled(free + live, base, n) && free !! live
    ensures forall p: nat :: Covered(free, p) <==> base <= p < base + n && !Covered(live, p)
  {
    forall p: nat ensures Covered(free, p) <==> base <= p < base + n && !Covered(live, p) {
      if Covered(free, p) {
        var b :| b in free && Covers(b, p);
        assert b in free + live;
        forall c | c in live ensures !Covers(c, p) { assert c in free + live; }
      }
      if base <= p < base + n {
        assert Covered(free + live, p);
      }
    }
  }
}
