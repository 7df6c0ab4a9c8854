/** The bitwise operators of C on unsigned words, as operations on the numbers that the words stand for. */
module Words {
  import opened Common

  /** `x & y` */
  function BitAnd(x: nat, y: nat): nat
  {
    if x == 0 || y == 0 then 0 else 2 * BitAnd(x / 2, y / 2) + (if x % 2 == 1 && y % 2 == 1 then 1 else 0)
  }

  /** `x & ~y` */
  function BitAndNot(x: nat, y: nat): nat
  {
    if x == 0 then 0 else 2 * BitAndNot(x / 2, y / 2) + (if x % 2 == 1 && y % 2 == 0 then 1 else 0)
  }

  /** `x | y` */
  function BitOr(x: nat, y: nat): nat
    decreases x + y
  {
    if x == 0 then y else if y == 0 then x else 2 * BitOr(x / 2, y / 2) + (if x % 2 == 1 || y % 2 == 1 then 1 else 0)
  }

  lemma {:induction false} BitAndZero(x: nat, y: nat)
    ensures BitAnd(x, 0) == 0 && BitAnd(0, y) == 0
  {
  }

  lemma {:induction false} BitAndNext(x: nat, y: nat)
    ensures BitAnd(x, y) == 2 * BitAnd(x / 2, y / 2) + (if x % 2 == 1 && y % 2 == 1 then 1 else 0)
  {
  }

  lemma {:induction false} BitAndEven(x: nat, y: nat)
    requires y % 2 == 0
    ensures BitAnd(x, y) == 2 * BitAnd(x / 2, y / 2)
  {
  }

  /** A mask of `k` low ones takes the remainder. */
  lemma {:induction false} MaskLow(x: nat, k: nat, p: nat)
    requires p == Pow2(k)
    ensures BitAnd(x, p - 1) == x % p
    decreases k
  {
    hide BitAnd;
    if k == 0 {
      BitAndZero(x, 0);
    } else {
      var h := Pow2(k - 1);
      MaskLow(x / 2, k - 1, h);
      BitAndNext(x, p - 1);
      assert (p - 1) / 2 == h - 1 && (p - 1) % 2 == 1;
      Halved(x, h);
    }
  }

  /** Dividing by `2 * h` is halving and then dividing by `h`. */
  lemma {:induction false} Halved(x: nat, h: nat)
    requires h > 0
    ensures x / 2 / h == x / (2 * h) && 2 * (x / 2 % h) + x % 2 == x % (2 * h)
  {
    var q, r := x / 2 / h, x / 2 % h;
    assert x / 2 == h * q + r;
    assert 2 * (h * q) == (2 * h) * q;
    Quotient(x, 2 * h, q, 2 * r + x % 2);
  }

  /** `x << k` and `x >> k` */
  function ShiftLeft(x: nat, k: nat): nat { if k == 0 then x else 2 * ShiftLeft(x, k - 1) }

  function ShiftRight(x: nat, k: nat): nat { if k == 0 then x else ShiftRight(x / 2, k - 1) }

  lemma {:induction false} ShiftLeftIs(x: nat, k: nat, p: nat)
    requires p == Pow2(k)
    ensures ShiftLeft(x, k) == p * x
  {
    if k > 0 {
      var h := Pow2(k - 1);
      ShiftLeftIs(x, k - 1, h);
      assert (2 * h) * x == 2 * (h * x);
    }
  }

  lemma {:induction false} ShiftRightIs(x: nat, k: nat, p: nat)
    requires p == Pow2(k)
    ensures ShiftRight(x, k) == x / p
    decreases k
  {
    if k > 0 {
      ShiftRightIs(x / 2, k - 1, Pow2(k - 1));
      Halved(x, Pow2(k - 1));
    }
  }

  /** A mask shifted up by `k` places applies to what lies `k` places up. */
  lemma {:induction false} MaskShifted(x: nat, y: nat, k: nat)
    ensures BitAnd(x, ShiftLeft(y, k)) == ShiftLeft(BitAnd(ShiftRight(x, k), y), k)
    decreases k
  {
    hide BitAnd;
    if k > 0 {
      MaskShifted(x / 2, y, k - 1);
      BitAndEven(x, ShiftLeft(y, k));
    }
  }

  /** `n` ones shifted up by `k` places take out the bits `k` to `k + n - 1`. */
  lemma {:induction false} MaskField(x: nat, n: nat, m: nat, k: nat, p: nat)
    requires m == Pow2(n) && p == Pow2(k)
    ensures BitAnd(x, p * (m - 1)) == p * (x / p % m)
  {
    hide BitAnd, Pow2, ShiftLeft, ShiftRight;
    MaskShifted(x, m - 1, k);
    MaskLow(x / p, n, m);
    ShiftLeftIs(m - 1, k, p);
    ShiftRightIs(x, k, p);
    ShiftLeftIs(x / p % m, k, p);
  }

  /** Without a common bit the or is the sum. */
  lemma {:induction false} DisjointOr(x: nat, y: nat)
    requires BitAnd(x, y) == 0
    ensures BitOr(x, y) == x + y
    decreases x + y
  {
    if x != 0 && y != 0 {
      BitAndNext(x, y);
      DisjointOr(x / 2, y / 2);
    }
  }

  /** A number inside a mask has no bit in common with one outside it. */
  lemma {:induction false} InsideOutside(x: nat, y: nat, mask: nat)
    requires BitAnd(x, mask) == x && BitAnd(y, mask) == 0
    ensures BitAnd(x, y) == 0
    decreases x
  {
    if x != 0 && y != 0 {
      BitAndNext(x, mask);
      BitAndNext(y, mask);
      InsideOutside(x / 2, y / 2, mask / 2);
    }
  }

  /** What a mask takes out and what its complement takes out make up the whole. */
  lemma {:induction false} AndNotIs(x: nat, y: nat)
    ensures BitAndNot(x, y) == x - BitAnd(x, y)
    decreases x
  {
    if x != 0 {
      BitAndNext(x, y);
      AndNotIs(x / 2, y / 2);
    }
  }
}
