/** Division of natural numbers by a size that is not known beforehand. */
module Division {

  function Quotient(n: nat, m: nat): nat
    requires m > 0
  {
    if n < m then 0 else Quotient(n - m, m) + 1
  }

  function Remainder(n: nat, m: nat): (r: nat)
    requires m > 0
    ensures r < m
  {
    if n < m then n else Remainder(n - m, m)
  }

  lemma {:induction false} DivMod(n: nat, m: nat)
    requires m > 0
    ensures n == Quotient(n, m) * m + Remainder(n, m) && Remainder(n, m) < m
    decreases n
  {
    if n >= m {
      DivMod(n - m, m);
      assert (Quotient(n - m, m) + 1) * m == Quotient(n - m, m) * m + m;
    }
  }

  lemma {:induction false} QuotientOrder(a: nat, b: nat, m: nat)
    requires m > 0 && a <= b
    ensures Quotient(a, m) <= Quotient(b, m) <= b
    decreases b
  {
    if b >= m { QuotientOrder(if a >= m then a - m else 0, b - m, m); }
  }

  lemma {:induction false} UniqueDivision(m: nat, q: nat, r: nat, q': nat, r': nat)
    requires r < m && r' < m && q * m + r == q' * m + r'
    ensures q == q' && r == r'
  {
    if q < q' { Times(q + 1, q', m); }
    if q' < q { Times(q' + 1, q, m); }
  }

  lemma {:induction false} Times(a: nat, b: nat, m: nat)
    requires a <= b
    ensures a * m <= b * m
  {
  }

  lemma {:induction false} EuclideanDivision(n: nat, m: nat)
    requires m > 0
    ensures n == (n / m) * m + n % m && 0 <= n / m && 0 <= n % m < m
  {
  }

  lemma {:induction false} IsDivision(n: nat, m: nat)
    requires m > 0
    ensures Quotient(n, m) == n / m && Remainder(n, m) == n % m
  {
    DivMod(n, m);
    EuclideanDivision(n, m);
    UniqueDivision(m, Quotient(n, m), Remainder(n, m), n / m, n % m);
  }
}
