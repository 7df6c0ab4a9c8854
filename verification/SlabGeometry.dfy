/** phys_kmalloc.c and kmath.c: the layout of a slab.  A slab is one buddy block; it starts with its
    descriptor, and the objects follow in a row.  Addresses are in bytes. */
module SlabGeometry {
  import opened Common
  import opened BuddyBlocks
  import opened BuddyPairs

  const DESCRIPTOR: nat := 40       // sizeof(slab_descriptor)
  const MAX_PADDING: nat := 16

  // ----- kmath.c

  function AlignUp(x: nat, y: nat): (r: nat)
    requires y > 0
  {
    (x + y - 1) / y * y
  }

  /** The least multiple of `y` that is at least `x`. */
  lemma {:induction false} AlignUpLeast(x: nat, y: nat, m: nat)
    requires y > 0
    ensures AlignUp(x, y) % y == 0 && x <= AlignUp(x, y) < x + y
    ensures m % y == 0 && x <= m ==> AlignUp(x, y) <= m
  {
    var q, r := (x + y - 1) / y, (x + y - 1) % y;
    assert x + y - 1 == y * q + r && q * y == y * q;
    Quotient(y * q, y, q, 0);
    if m % y == 0 && m < y * q {
      var p := m / y;
      assert m == y * p;
      assert y * (q - p) == y * q - y * p;
      if q != p { Multiple(y, q - p); }
    }
  }

  /** align_up itself, in 32-bit arithmetic. */
  function AlignUp32(x: nat, y: nat): nat
    requires y > 0
  {
    var w: nat := (x + y - 1) % 0x1_0000_0000;
    QuotientNat(w, y);
    w / y * y
  }

  /** It rounds up exactly as long as the sum does not overflow. */
  lemma {:induction false} AlignUp32Exact(x: nat, y: nat)
    requires x < 0x1_0000_0000 && 0 < y < 0x1_0000_0000
    ensures x <= AlignUp32(x, y) <==> x + y - 1 < 0x1_0000_0000
    ensures x + y - 1 < 0x1_0000_0000 ==> AlignUp32(x, y) == AlignUp(x, y)
  {
    AlignUpLeast(x, y, 0);
    var w := (x + y - 1) % 0x1_0000_0000;
    assert w / y * y <= w by { assert w == y * (w / y) + w % y; }
  }

  /** buddy_order: the least order whose block has the pages of `size`. */
  method BuddyOrder(size: nat) returns (order: nat)
    ensures size / 0x1000 <= Pow2(order) && (order > 0 ==> Pow2(order - 1) < size / 0x1000)
  {
    var pages := size / 0x1000;
    order := 0;
    while Pow2(order) < pages
      invariant order > 0 ==> Pow2(order - 1) < pages
      decreases pages - Pow2(order)
    {
      order := order + 1;
    }
  }

  /** klog2: the position of the highest set bit. */
  method Klog2(x: nat) returns (r: nat)
    ensures IsLog2(x, r)
  {
    r := 0;
    var y := x;
    while y / 2 > 0
      invariant (y == 0 ==> r == 0) && Pow2(r) * y <= x < Pow2(r) * (y + 1)
    {
      HalveBounds(x, y, Pow2(r));
      y := y / 2;
      r := r + 1;
    }
    assert y <= 1;
  }

  lemma {:induction false} HalveBounds(x: nat, y: nat, s: nat)
    requires s > 0 && s * y <= x < s * (y + 1)
    ensures (2 * s) * (y / 2) <= x < (2 * s) * (y / 2 + 1)
  {
    var h := y / 2;
    assert (2 * s) * h == s * (2 * h) && (2 * s) * (h + 1) == s * (2 * h + 2);
    if y == 2 * h {
      assert s * (2 * h + 2) == s * (y + 1) + s;
    } else {
      assert s * y == s * (2 * h) + s;
    }
  }

  /** round_up_pow2 on 32-bit words: each round of shifts doubles the run of ones below the top bit. */
  function RoundUpPow2(x: bv32): bv32
  {
    if x == 0 then 1
    else
      var x1 := x - 1;
      var x2 := x1 | (x1 >> 1);
      var x3 := x2 | (x2 >> 2);
      var x4 := x3 | (x3 >> 4);
      var x5 := x4 | (x4 >> 8);
      var x6 := x5 | (x5 >> 16);
      x6 + 1
  }

  /** For 0 < x <= 2^31 the result is the least power of two that is at least x. */
  lemma {:induction false} RoundUpLeast(x: bv32)
    requires 0 < x <= 0x8000_0000
    ensures var r := RoundUpPow2(x); x <= r && r & (r - 1) == 0 && (r >> 1) < x
  {
  }

  /** A power of two between 16 and 2048 is one of the eight slab classes. */
  lemma {:induction false} SmallPowers(r: bv32)
    requires 16 <= r <= 2048 && r & (r - 1) == 0
    ensures r == 16 || r == 32 || r == 64 || r == 128 || r == 256 || r == 512 || r == 1024 || r == 2048
  {
  }

  lemma {:induction false} RoundUpSmall(x: bv32)
    requires 16 <= x <= 2048
    ensures 16 <= RoundUpPow2(x) <= 2048
  {
  }

  /** The class chosen for a size: the least power of two from 16 on that holds it. */
  lemma {:induction false} RoundedClass(x: bv32, r: bv32)
    requires 16 <= x <= 2048 && r == RoundUpPow2(x)
    ensures r as nat == 16 || r as nat == 32 || r as nat == 64 || r as nat == 128 ||
      r as nat == 256 || r as nat == 512 || r as nat == 1024 || r as nat == 2048
    ensures (r as nat) / 2 < x as nat <= r as nat
  {
    hide RoundUpPow2;
    RoundUpSmall(x);
    RoundUpLeast(x);
    SmallPowers(r);
  }

  /** Beyond the classes: the next power of two, or 0 when it does not fit into the word. */
  lemma {:induction false} RoundedLarge(x: bv32)
    requires x > 2048
    ensures RoundUpPow2(x) == 0 || RoundUpPow2(x) >= 4096
  {
  }

  /** size_to_index.  The size is cut to 32 bits on the way; `x` is what is left of it, at least 16.  For every size
      that the slab layer serves the result is the least of the eight classes 16, 32, ... 2048 that holds it;
      the index of a cache comes out exactly if 9 <= x <= 2048, so also for some sizes above 2^32. */
  method SizeToIndex(size: bv64) returns (index: nat, ghost x: bv32)
    ensures size != 0 ==> x == ((if size < 16 then 16 else size) & 0xFFFF_FFFF) as bv32
    ensures 0 < size <= 2048 ==> LeastClass(size as nat, index)
    ensures size == 0 ==> index >= 8
    ensures size != 0 ==> (index < 8 <==> 9 <= x <= 2048)
  {
    hide RoundUpPow2, Pow2, IsLog2, LeastClass;
    if size == 0 { return 0xFFFF_FFFF, 0; }
    var clamped: bv64 := if size < 16 then 16 else size;
    var w := (clamped & 0xFFFF_FFFF) as bv32;
    x := w;
    ghost var k;
    index, k := WordIndex(w);
    IndexRight(size, clamped, w, k, index);
  }

  /** The least of the eight classes 16, 32, ... 2048 that holds `size` bytes. */
  ghost predicate LeastClass(size: nat, index: nat)
  {
    index < 8 && size <= 16 * Pow2(index) && (index > 0 ==> 16 * Pow2(index - 1) < size)
  }

  method WordIndex(w: bv32) returns (index: nat, ghost log: nat)
    ensures IsLog2(RoundUpPow2(w) as nat, log) && index == (log + 0xFFFF_FFFC) % 0x1_0000_0000
  {
    hide RoundUpPow2, Pow2;
    var k := Klog2(RoundUpPow2(w) as nat);
    var k4 := Klog2(16);
    SmallTable();
    Log2Is(k4, 4);
    index, log := (k + 0x1_0000_0000 - k4) % 0x1_0000_0000, k;
  }

  lemma {:induction false} IndexRight(size: bv64, clamped: bv64, w: bv32, k: nat, index: nat)
    requires size != 0 && clamped == (if size < 16 then 16 else size) && w == (clamped & 0xFFFF_FFFF) as bv32
    requires IsLog2(RoundUpPow2(w) as nat, k) && index == (k + 0xFFFF_FFFC) % 0x1_0000_0000
    ensures index < 8 <==> 9 <= w <= 2048
    ensures size <= 2048 ==> LeastClass(size as nat, index)
  {
    hide RoundUpPow2, Pow2, IsLog2;
    AnyWord(w, k);
    IndexOfLog(k);
    if size <= 2048 {
      SmallWord(size, clamped, w);
      ClassRight(w, k);
    }
  }

  lemma {:induction false} IndexOfLog(k: nat)
    requires k <= 32
    ensures var i := (k + 0xFFFF_FFFC) % 0x1_0000_0000; (4 <= k ==> i == k - 4) && (k < 4 ==> i >= 0xFFFF_FFFC)
  {
  }

  lemma {:induction false} SmallWord(size: bv64, clamped: bv64, w: bv32)
    requires 0 < size <= 2048 && clamped == (if size < 16 then 16 else size) && w == (clamped & 0xFFFF_FFFF) as bv32
    ensures 16 <= w <= 2048 && w as nat == clamped as nat && size as nat <= w as nat
    ensures (w > 16 ==> w as nat == size as nat)
  {
  }

  /** The logarithm for an arbitrary 32-bit word. */
  lemma {:induction false} AnyWord(w: bv32, k: nat)
    requires IsLog2(RoundUpPow2(w) as nat, k)
    ensures k <= 32 && (4 <= k <= 11 <==> 9 <= w <= 2048)
  {
    hide RoundUpPow2, Pow2;
    if w > 2048 {
      RoundedLarge(w);
      LargeLog(RoundUpPow2(w) as nat, k);
    } else if w >= 9 {
      RoundedMiddle(w);
      SmallPowers(RoundUpPow2(w));
      ClassLog(RoundUpPow2(w) as nat, k);
    } else {
      RoundedTiny(w);
      TinyLog(RoundUpPow2(w) as nat, k);
    }
  }

  lemma {:induction false} RoundedMiddle(w: bv32)
    requires 9 <= w <= 2048
    ensures var r := RoundUpPow2(w); 16 <= r <= 2048 && r & (r - 1) == 0
  {
  }

  lemma {:induction false} RoundedTiny(w: bv32)
    requires w <= 8
    ensures 1 <= RoundUpPow2(w) <= 8
  {
  }

  lemma {:induction false} TinyLog(p: nat, k: nat)
    requires IsLog2(p, k) && 1 <= p <= 8
    ensures k <= 3
  {
    SmallTable();
    if k > 3 { Pow2Monotone(4, k); }
  }

  lemma {:induction false} ClassRight(w: bv32, k: nat)
    requires 16 <= w <= 2048 && IsLog2(RoundUpPow2(w) as nat, k)
    ensures 4 <= k <= 11 && w as nat <= 16 * Pow2(k - 4) && (k > 4 ==> 16 * Pow2(k - 5) < w as nat)
  {
    hide RoundUpPow2, Pow2;
    RoundedClass(w, RoundUpPow2(w));
    ClassLog(RoundUpPow2(w) as nat, k);
  }

  ghost predicate IsLog2(x: nat, r: nat) { if x == 0 then r == 0 else Pow2(r) <= x < Pow2(r + 1) }

  lemma {:induction false} Log2Is(r: nat, k: nat)
    requires IsLog2(Pow2(k), r)
    ensures r == k
  {
    if r < k { Pow2Monotone(r + 1, k); }
    if k < r { Pow2Monotone(k + 1, r); }
  }

  lemma {:induction false} ClassLog(p: nat, k: nat)
    requires IsLog2(p, k)
    requires (p == 16 || p == 32 || p == 64 || p == 128 || p == 256 || p == 512 || p == 1024 || p == 2048)
    ensures 4 <= k <= 11 && p == 16 * Pow2(k - 4) && (k > 4 ==> p / 2 == 16 * Pow2(k - 5))
  {
    SmallTable();
    if p == 16 { Log2Is(k, 4); } else if p == 32 { Log2Is(k, 5); } else if p == 64 { Log2Is(k, 6); }
    else if p == 128 { Log2Is(k, 7); } else if p == 256 { Log2Is(k, 8); } else if p == 512 { Log2Is(k, 9); }
    else if p == 1024 { Log2Is(k, 10); } else { Log2Is(k, 11); }
  }

  lemma {:induction false} SmallTable()
    ensures Pow2(0) == 1 && Pow2(1) == 2 && Pow2(2) == 4 && Pow2(3) == 8 && Pow2(4) == 16 && Pow2(5) == 32
    ensures Pow2(6) == 64
    ensures Pow2(7) == 128 && Pow2(8) == 256 && Pow2(9) == 512 && Pow2(10) == 1024 && Pow2(11) == 2048
    ensures Pow2(12) == 4096
  {
    assert Pow2(4) == 16;
    assert Pow2(8) == 2 * Pow2(7) == 256;
    assert Pow2(12) == 2 * Pow2(11) == 4096;
  }

  lemma {:induction false} LargeLog(p: nat, k: nat)
    requires IsLog2(p, k) && (p == 0 || p >= 4096) && p < 0x1_0000_0000
    ensures k == 0 || 12 <= k <= 32
  {
    hide Pow2;
    SmallTable();
    if p != 0 && k < 12 { Pow2Monotone(k + 1, 12); }
    if p != 0 && k > 32 { Pow2Monotone(32, k); WordSize(); }
  }

  lemma {:induction false} WordSize()
    ensures Pow2(32) == 0x1_0000_0000
  {
    SmallTable();
    assert Pow2(16) == 2 * Pow2(15) == 4 * Pow2(14) == 8 * Pow2(13) == 0x1_0000;
    assert Pow2(20) == 2 * Pow2(19) == 4 * Pow2(18) == 8 * Pow2(17) == 0x10_0000;
    assert Pow2(24) == 2 * Pow2(23) == 4 * Pow2(22) == 8 * Pow2(21) == 0x100_0000;
    assert Pow2(28) == 2 * Pow2(27) == 4 * Pow2(26) == 8 * Pow2(25) == 0x1000_0000;
    assert Pow2(32) == 2 * Pow2(31) == 4 * Pow2(30) == 8 * Pow2(29) == 0x1_0000_0000;
  }

  // ----- The cache's geometry

  /** calc_object_align: the lowest set bit of `s`, at most 16. */
  function ObjectAlign(s: nat): (r: nat)
    requires s > 0
    ensures (r == 1 || r == 2 || r == 4 || r == 8 || r == 16) && s % r == 0 && (r < 16 ==> s % (2 * r) == r)
  {
    if s % 2 == 1 then 1 else if s % 4 == 2 then 2 else if s % 8 == 4 then 4 else if s % 16 == 8 then 8 else 16
  }

  /** On machine words that is what `size & -size` gives. */
  lemma {:induction false} LowestBit(x: bv64)
    requires x != 0
    ensures x & 1 == 1 ==> x & (0 - x) == 1
    ensures x & 3 == 2 ==> x & (0 - x) == 2
    ensures x & 7 == 4 ==> x & (0 - x) == 4
    ensures x & 15 == 8 ==> x & (0 - x) == 8
    ensures x & 15 == 0 ==> x & (0 - x) >= 16
  {
  }

  /** The fields of kmem_cache that describe its slabs. */
  datatype Geometry = Geometry(size: nat, align: nat, order: nat, perSlab: nat)

  function Bytes(order: nat): nat { Pow2(order) * 0x1000 }

  /** first_object_offset. */
  function First(g: Geometry): nat { if g.align == 16 then 48 else 40 }

  /** That is the descriptor size rounded up to the alignment. */
  lemma {:induction false} FirstRounded(g: Geometry)
    requires g.size > 0 && g.align == ObjectAlign(g.size)
    ensures First(g) == AlignUp(40, g.align) && DESCRIPTOR == 40
  {
    if g.align == 1 {} else if g.align == 2 {} else if g.align == 4 {} else if g.align == 8 {} else {}
  }

  function ObjectAt(g: Geometry, slab: nat, j: nat): nat { slab + First(g) + j * g.size }

  /** The objects of a slab: the first where the descriptor of 40 bytes, rounded up to the alignment, ends, and each
      next one right behind the one before. */
  lemma {:induction false} ObjectRow(g: Geometry, slab: nat, j: nat)
    requires g.size > 0 && g.align == ObjectAlign(g.size)
    ensures ObjectAt(g, slab, 0) == slab + AlignUp(40, g.align)
    ensures ObjectAt(g, slab, j + 1) == ObjectAt(g, slab, j) + g.size
  {
    hide AlignUp;
    FirstRounded(g);
    assert (j + 1) * g.size == j * g.size + g.size;
  }

  ghost predicate Sound(g: Geometry)
  {
    && g.size >= 1 && g.perSlab >= 8
    && g.align == ObjectAlign(g.size)
    && First(g) + g.perSlab * g.size <= Bytes(g.order) < First(g) + (g.perSlab + 1) * g.size
  }

  datatype Option<T> = None | Some(value: T)

  /** The geometry part of kmem_cache_create, for the sizes whose slab stays below 2 GiB: it fails for size 0
      only, and at least 8 objects fit into the smallest sufficient slab.  That slab is a block that the buddy
      allocator has exactly if 8 objects, descriptor and padding fit into 4 MiB. */
  method CacheGeometry(size: nat) returns (r: Option<Geometry>)
    requires 8 * size + DESCRIPTOR + MAX_PADDING <= 0x4000_0000
    ensures r == None <==> size == 0
    ensures r.Some? ==> r.value.size == size && Sound(r.value)
    ensures r.Some? ==>
      8 * size + 56 <= Bytes(r.value.order) && (r.value.order > 0 ==> Bytes(r.value.order - 1) < 8 * size + 56)
    ensures r.Some? ==> (r.value.order <= MAX_ORDER <==> 8 * size + 56 <= 0x40_0000)
  {
    hide Pow2, Bytes, AlignUp, AlignUp32;
    if size == 0 { return None; }
    var align := ObjectAlign(size);
    var minSize := size * 8 + DESCRIPTOR + MAX_PADDING;
    var paged := AlignUp32(minSize, 0x1000);
    AlignUpLeast(minSize, 0x1000, 0);
    AlignUp32Exact(minSize, 0x1000);
    var order := BuddyOrder(paged);
    OrderBound(minSize, paged, order);
    var g := Geometry(size, align, order, 0);
    RoomForEight(size, order, First(g));
    var rem: nat := Bytes(order) - First(g);
    var per := rem / size;
    PerSlab(rem, size, per);
    if per < 8 { return None; }
    return Some(g.(perSlab := per));
  }

  lemma {:induction false} OrderBound(minSize: nat, paged: nat, order: nat)
    requires minSize <= paged < minSize + 0x1000 && paged % 0x1000 == 0
    requires paged / 0x1000 <= Pow2(order) && (order > 0 ==> Pow2(order - 1) < paged / 0x1000)
    ensures minSize <= Bytes(order) && (order > 0 ==> Bytes(order - 1) < minSize)
    ensures order <= MAX_ORDER <==> minSize <= 0x40_0000
  {
    SmallTable();
    if order > MAX_ORDER { Pow2Monotone(MAX_ORDER, order - 1); } else { Pow2Monotone(order, MAX_ORDER); }
  }

  lemma {:induction false} RoomForEight(size: nat, order: nat, first: nat)
    requires 8 * size + 56 <= Bytes(order) && first <= 48
    ensures first <= Bytes(order) && Bytes(order) - first >= 8 * size
  {
  }

  lemma {:induction false} PerSlab(rem: nat, size: nat, per: nat)
    requires size > 0 && per == rem / size && rem >= 8 * size
    ensures per >= 8 && per * size <= rem < (per + 1) * size
  {
    assert rem == size * per + rem % size && (per + 1) * size == per * size + size;
    assert size * (8 - per) == 8 * size - size * per;
    if per < 8 { Multiple(size, 8 - per); }
  }

  // ----- What the geometry guarantees

  ghost predicate IsSlab(g: Geometry, slab: nat) { slab % Bytes(g.order) == 0 }

  /** Every object lies inside its slab, behind the descriptor. */
  lemma {:induction false} ObjectInside(g: Geometry, slab: nat, j: nat)
    requires Sound(g) && j < g.perSlab
    ensures slab + DESCRIPTOR <= ObjectAt(g, slab, j) && ObjectAt(g, slab, j) + g.size <= slab + Bytes(g.order)
  {
    hide Pow2;
    TimesOrder(j, g.perSlab, g.size);
  }

  /** Different objects do not overlap. */
  lemma {:induction false} ObjectsApart(g: Geometry, slab: nat, i: nat, j: nat)
    requires Sound(g) && i < j
    ensures ObjectAt(g, slab, i) < ObjectAt(g, slab, i) + g.size <= ObjectAt(g, slab, j)
  {
    TimesOrder(i, j, g.size);
  }

  /** The 8-byte links that free objects hold overlap no other object exactly if objects have at least 8 bytes. */
  lemma {:induction false} LinksApartIff(g: Geometry, slab: nat)
    requires Sound(g)
    ensures g.size >= 8 <==>
            forall i: nat, j: nat :: i < j < g.perSlab ==> ObjectAt(g, slab, i) + 8 <= ObjectAt(g, slab, j)
  {
    if g.size >= 8 {
      forall i: nat, j: nat | i < j
        ensures ObjectAt(g, slab, i) + 8 <= ObjectAt(g, slab, j) { ObjectsApart(g, slab, i, j); }
    } else {
      assert ObjectAt(g, slab, 1) == ObjectAt(g, slab, 0) + g.size;
    }
  }

  lemma {:induction false} MultipleOfMultiple(x: nat, t: nat, s: nat)
    requires s > 0 && t > 0 && x % t == 0 && t % s == 0
    ensures x % s == 0
  {
    var p, q := x / t, t / s;
    assert x == t * p && t == s * q;
    assert t * p == (s * q) * p == s * (q * p);
    Quotient(x, s, q * p, 0);
  }

  lemma {:induction false} TimesMultiple(j: nat, t: nat, s: nat)
    requires s > 0 && t % s == 0
    ensures (j * t) % s == 0
  {
    var q := t / s;
    assert t == s * q;
    assert j * t == j * (s * q) == s * (j * q);
    Quotient(j * t, s, j * q, 0);
  }

  /** Every object is aligned. */
  lemma {:induction false} ObjectAligned(g: Geometry, slab: nat, j: nat)
    requires Sound(g) && IsSlab(g, slab)
    ensures ObjectAt(g, slab, j) % g.align == 0
  {
    hide Pow2;
    TimesMultiple(Pow2(g.order), 0x1000, g.align);
    MultipleOfMultiple(slab, Bytes(g.order), g.align);
    TimesMultiple(j, g.size, g.align);
    SumOfMultiples(slab, First(g), g.align);
    SumOfMultiples(slab + First(g), j * g.size, g.align);
  }

  /** The address mask of kmem_cache_kfree. */
  function SlabBase(g: Geometry, a: nat): nat { ModAtMost(a, Bytes(g.order)); a - a % Bytes(g.order) }

  lemma {:induction false} ModAtMost(a: nat, s: nat)
    requires s > 0
    ensures 0 <= a % s <= a
  {
    var q: nat := a / s;
    assert a == s * q + a % s;
  }

  /** Masking any address inside a slab recovers the slab, because slabs are aligned to their own size. */
  lemma {:induction false} MaskRecovers(g: Geometry, slab: nat, a: nat)
    requires IsSlab(g, slab) && slab <= a < slab + Bytes(g.order)
    ensures SlabBase(g, a) == slab
  {
    var s := Bytes(g.order);
    var q := slab / s;
    assert slab == s * q;
    Quotient(a, s, q, a - slab);
  }
}
