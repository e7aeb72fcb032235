/** Facts about products and quotients that several components use. */
module Arithmetic {
  lemma DivMod(x: nat, p: nat)
    requires 0 < p
    ensures x == p * (x / p) + x % p
  {
  }

  lemma Monotone(p: nat, a: int, b: int)
    requires a <= b
    ensures p * a <= p * b
  {
  }

  lemma LessFactor(p: nat, a: int, b: int)
    requires p * a < p * b
    ensures a < b
  {
    if b <= a {
      Monotone(p, b, a);
    }
  }

  /** A list of different elements of a set is no longer than the set is large. */
  lemma DistinctIn(f: seq<nat>, s: set<nat>)
    requires forall a :: 0 <= a < |f| ==> f[a] in s
    requires forall a, b :: 0 <= a < b < |f| ==> f[a] != f[b]
    ensures |f| <= |s|
  {
    if f != [] {
      var last := f[|f| - 1];
      DistinctIn(f[..|f| - 1], s - {last});
    }
  }

  ghost function Below(n: nat): (s: set<nat>)
    ensures |s| == n && forall x :: x in s <==> 0 <= x < n
  {
    if n == 0 then {} else Below(n - 1) + {n - 1}
  }

  /** A list of n different numbers below n contains every number below n. */
  lemma Onto(f: seq<nat>, x: nat) returns (i: nat)
    requires forall a :: 0 <= a < |f| ==> f[a] < |f|
    requires forall a, b :: 0 <= a < b < |f| ==> f[a] != f[b]
    requires x < |f|
    ensures i < |f| && f[i] == x
  {
    if x !in f {
      DistinctIn(f, Below(|f|) - {x});
      assert false;
    }
    i :| 0 <= i < |f| && f[i] == x;
  }

  lemma SubsetSize(a: set<nat>, b: set<nat>)
    requires a <= b
    ensures |a| <= |b|
  {
    if a != {} {
      var x :| x in a;
      SubsetSize(a - {x}, b - {x});
    }
  }

  function Pow2(m: nat): (r: nat)
    ensures 1 <= r
  {
    if m == 0 then 1 else 2 * Pow2(m - 1)
  }
}
