/** Powers of two and remainders. */
module Numbers {
  function Pow2(n: nat): nat {
    if n == 0 then 1 else 2 * Pow2(n - 1)
  }

  /** A number below m left over by a multiple of m is the remainder, and the multiple the quotient. */
  lemma Residue(z: nat, q: int, m: nat, r: nat)
    requires z == q * m + r && r < m
    ensures z % m == r && z / m == q
  {
    var q', r' := Divided(z, m);
    SameQuotient(q, r, q', r', m);
  }

  lemma Divided(z: nat, m: nat) returns (q: nat, r: nat)
    requires m > 0
    ensures z == q * m + r && r == z % m < m && q == z / m
  {
    q, r := z / m, z % m;
  }

  lemma SameQuotient(q: int, r: nat, q': int, r': nat, m: nat)
    requires q * m + r == q' * m + r' && r < m && r' < m
    ensures r == r' && q == q'
  {
    if q != q' {
      Apart(if q < q' then q else q', if q < q' then q' else q, m);
    }
  }

  lemma {:induction false} Apart(a: int, b: int, m: nat)
    requires a < b
    ensures b * m >= a * m + m
    decreases b - a
  {
    assert b * m == (b - 1) * m + m;
    if a < b - 1 {
      Apart(a, b - 1, m);
    }
  }

  lemma Halved(x: nat, m: nat, n: nat)
    requires m > 0 && n == 2 * m
    ensures x / 2 / m == x / n
  {
    var q, r := Divided(x, n);
    Twice(q, m, n);
    Residue(x / 2, q, m, r / 2);
  }

  lemma Twice(q: nat, m: nat, n: nat)
    requires n == 2 * m
    ensures q * n == 2 * (q * m)
  {
  }

  /** What is left after the remainder is a multiple. */
  lemma Whole(z: nat, m: nat)
    requires m > 0
    ensures (z - z % m) % m == 0
  {
    var q, r := Divided(z, m);
    Residue(q * m, q, m, 0);
  }
}
