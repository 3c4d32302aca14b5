/** Work shared out by stride: worker t of n takes t, t + n, t + 2n, ... */
module Strides {
  /** The worker whose walk meets i. */
  function Owner(i: nat, n: nat): (t: nat)
    ensures n > 0 ==> t < n
  {
    if n == 0 || i < n then i else Owner(i - n, n)
  }

  /** Moving on keeps the owner, and nothing of the same owner is skipped. */
  lemma {:induction false} Stride(i: nat, j: nat, n: nat)
    requires n > 0
    ensures Owner(i + n, n) == Owner(i, n)
    ensures Owner(j, n) == Owner(i, n) && j != i ==> (i > j <==> i + n > j)
    decreases j
  {
    if i >= n && j >= n {
      Stride(i - n, j - n, n);
    } else if j >= n {
      FirstAtOrBefore(j - n, n);
    }
  }

  lemma {:induction false} FirstAtOrBefore(i: nat, n: nat)
    requires n > 0
    ensures Owner(i, n) <= i
  {
    if i >= n {
      FirstAtOrBefore(i - n, n);
    }
  }
}
