/** Small notions that several parts share. */
module Common {

  /** `1 << k`. */
  function Pow2(k: nat): (r: nat)
    ensures r >= 1
  {
    if k == 0 then 1 else 2 * Pow2(k - 1)
  }

  lemma {:induction false} Pow2Monotone(j: nat, k: nat)
    requires j <= k
    ensures Pow2(j) <= Pow2(k) && (j < k ==> 2 * Pow2(j) <= Pow2(k))
  {
    if j < k { Pow2Monotone(j, k - 1); }
  }

  lemma {:induction false} Pow2Sum(j: nat, k: nat)
    ensures Pow2(j + k) == Pow2(j) * Pow2(k)
    decreases k
  {
    if k > 0 { Pow2Sum(j, k - 1); }
  }

  lemma {:induction false} Multiple(s: int, d: int)
    requires s >= 0 && d != 0
    ensures d > 0 ==> s * d >= s
    ensures d < 0 ==> s * d <= -s
  {
  }

  /** Quotient and remainder are unique. */
  lemma {:induction false} Quotient(x: nat, s: nat, q: nat, r: nat)
    requires r < s && x == s * q + r
    ensures x / s == q && x % s == r
  {
    var d, m := x / s, x % s;
    assert x == s * d + m;
    assert s * (q - d) == m - r;
    if q != d { Multiple(s, q - d); }
  }

  ghost predicate NoRepeats(s: seq<nat>) { forall i, j :: 0 <= i < j < |s| ==> s[i] != s[j] }

  /** A sequence without repeats is no longer than the set it draws from. */
  lemma {:induction false} NoMoreThan(s: seq<nat>, keys: set<nat>)
    requires NoRepeats(s) && forall a :: a in s ==> a in keys
    ensures |s| <= |keys|
    decreases |s|
  {
    if s != [] {
      var n := |s| - 1;
      assert s[n] in s;
      assert forall a :: a in s[..n] ==> a in s && a != s[n];
      NoMoreThan(s[..n], keys - {s[n]});
    }
  }
}
