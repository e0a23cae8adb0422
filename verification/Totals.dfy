/** Sums of a function over 0..n-1. */
module Totals {
  function Total(f: nat -> int, n: nat): int {
    if n == 0 then 0 else Total(f, n - 1) + f(n - 1)
  }

  /** Changing one term changes the sum by the difference. */
  lemma {:induction false} TotalUpdate(f: nat -> int, g: nat -> int, i: nat, n: nat)
    requires forall k: nat :: k < n && k != i ==> g(k) == f(k)
    ensures Total(g, n) == Total(f, n) + if i < n then g(i) - f(i) else 0
  {
    if n > 0 {
      TotalUpdate(f, g, i, n - 1);
    }
  }

  lemma TotalSame(f: nat -> int, g: nat -> int, n: nat)
    requires forall k: nat :: k < n ==> g(k) == f(k)
    ensures Total(g, n) == Total(f, n)
  {
    if n > 0 {
      TotalSame(f, g, n - 1);
    }
  }

  /** With no negative term the sum is at least any one term, and at least any two. */
  lemma TotalAtLeast(f: nat -> int, i: nat, n: nat)
    requires i < n && forall k: nat :: k < n ==> f(k) >= 0
    ensures Total(f, n) >= f(i) >= 0
  {
    if n - 1 == i {
      TotalNonNegative(f, i);
    } else {
      TotalAtLeast(f, i, n - 1);
    }
  }

  lemma TotalNonNegative(f: nat -> int, n: nat)
    requires forall k: nat :: k < n ==> f(k) >= 0
    ensures Total(f, n) >= 0
  {
    if n > 0 {
      TotalNonNegative(f, n - 1);
    }
  }

  lemma TotalTwo(f: nat -> int, i: nat, j: nat, n: nat)
    requires i < j < n && forall k: nat :: k < n ==> f(k) >= 0
    ensures Total(f, n) >= f(i) + f(j)
  {
    if n - 1 == j {
      TotalAtLeast(f, i, j);
    } else {
      TotalTwo(f, i, j, n - 1);
    }
  }

  /** A positive sum has a positive term. */
  lemma TotalPositive(f: nat -> int, n: nat) returns (i: nat)
    requires Total(f, n) > 0
    ensures i < n && f(i) > 0
  {
    if f(n - 1) > 0 {
      i := n - 1;
    } else {
      i := TotalPositive(f, n - 1);
    }
  }

  lemma TotalZero(f: nat -> int, n: nat)
    requires forall k: nat :: k < n ==> f(k) == 0
    ensures Total(f, n) == 0
  {
    if n > 0 {
      TotalZero(f, n - 1);
    }
  }

  lemma TotalAtMost(f: nat -> int, g: nat -> int, n: nat)
    requires forall k: nat :: k < n ==> f(k) <= g(k)
    ensures Total(f, n) <= Total(g, n)
  {
  }
}
