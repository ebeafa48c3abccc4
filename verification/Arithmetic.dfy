// Division with remainder, with divisors that are variables.
module Arithmetic {
  lemma DivMod(n: nat, m: nat)
    requires m > 0
    ensures n / m * m + n % m == n && n % m < m
  {
  }

  lemma DivShrinks(n: nat, base: nat)
    requires 2 <= base && n > 0
    ensures n / base < n && (n / base == 0 <==> n < base) && (n < base ==> n % base == n)
  {
    DivMod(n, base);
  }

  lemma Shrinks(n: nat, m: nat)
    requires 2 <= m <= n
    ensures n / m < n && n % m < m
  {
    DivShrinks(n, m);
  }

  lemma {:induction false} MulMonotone(s: nat, a: nat, b: nat)
    requires a <= b
    ensures s * a <= s * b
    decreases b - a
  {
    if a < b {
      MulMonotone(s, a, b - 1);
      assert s * b == s * (b - 1) + s;
    }
  }

  lemma {:induction false} DivUnique(n: nat, m: nat, q: nat, r: nat)
    requires n == q * m + r && r < m
    ensures n / m == q && n % m == r
  {
    var q', r' := n / m, n % m;
    assert n == q' * m + r';
    assert m * (q' + 1) == q' * m + m && m * (q + 1) == q * m + m;
    if q' < q {
      MulMonotone(m, q' + 1, q);
    } else if q' > q {
      MulMonotone(m, q + 1, q');
    }
  }

  lemma Successor(k: nat, m: nat)
    requires m > 0
    ensures (k + 1) % m == if k % m + 1 == m then 0 else k % m + 1
    ensures (k + 1) / m == if k % m + 1 == m then k / m + 1 else k / m
  {
    DivMod(k, m);
    SuccessorOf(k, m, k / m, k % m);
  }

  lemma SuccessorOf(k: nat, m: nat, q: nat, r: nat)
    requires k == q * m + r && r < m
    ensures (k + 1) % m == if r + 1 == m then 0 else r + 1
    ensures (k + 1) / m == if r + 1 == m then q + 1 else q
  {
    if r + 1 == m {
      assert (q + 1) * m == q * m + m;
      DivUnique(k + 1, m, q + 1, 0);
    } else {
      DivUnique(k + 1, m, q, r + 1);
    }
  }

  lemma RemainderNotLarger(n: nat, r: nat)
    requires r > 0
    ensures n % r <= n
  {
    DivMod(n, r);
    assert n / r * r >= 0;
  }
}
