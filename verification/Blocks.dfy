/** Multiplication and floor division by counting, and the facts about equal
    blocks of a list that the tables of scalability/ldmsdutils.py rest on. */
module Blocks {
  function Times(a: nat, w: nat): nat {
    if a == 0 then 0 else Times(a - 1, w) + w
  }

  /** `n // m` */
  function Quot(n: nat, m: nat): nat
    requires m > 0
  {
    if n < m then 0 else 1 + Quot(n - m, m)
  }

  predicate Divides(m: nat, n: nat) {
    m != 0 && n % m == 0
  }

  lemma {:induction false} TimesIsProduct(a: nat, w: nat)
    ensures Times(a, w) == a * w
    decreases a
  {
    if a > 0 {
      TimesIsProduct(a - 1, w);
      assert (a - 1) * w + w == a * w;
    }
  }

  lemma {:induction false} QuotBounds(n: nat, m: nat)
    requires m > 0
    ensures Times(Quot(n, m), m) <= n < Times(Quot(n, m), m) + m
    decreases n
  {
    if n >= m {
      QuotBounds(n - m, m);
    }
  }

  lemma QuotIsQuotient(n: nat, m: nat)
    requires m > 0
    ensures Quot(n, m) == n / m
  {
    QuotBounds(n, m);
    TimesIsProduct(Quot(n, m), m);
    TimesIsProduct(n / m, m);
    assert n == n / m * m + n % m;
    if Quot(n, m) < n / m {
      TimesGrows(Quot(n, m), n / m, m);
    } else {
      TimesGrows(n / m, Quot(n, m), m);
    }
  }

  /** Blocks of `n // m` cover `n` exactly when `m` divides `n`. */
  lemma QuotExact(n: nat, m: nat)
    requires m > 0
    ensures Times(m, Quot(n, m)) <= n
    ensures Times(m, Quot(n, m)) == n <==> Divides(m, n)
  {
    QuotIsQuotient(n, m);
    TimesIsProduct(m, n / m);
    assert n == m * (n / m) + n % m;
  }

  lemma {:induction false} TimesGrows(a: nat, b: nat, w: nat)
    requires a <= b
    ensures Times(a, w) <= Times(b, w)
    ensures a < b ==> Times(a, w) + w <= Times(b, w)
    decreases b
  {
    if a < b {
      TimesGrows(a, b - 1, w);
    }
  }

  lemma {:induction false} TimesJoin(a: nat, b: nat, w: nat)
    ensures Times(a + b, w) == Times(a, w) + Times(b, w)
    decreases b
  {
    if b > 0 {
      TimesJoin(a, b - 1, w);
    }
  }

  lemma {:induction false} TimesNested(a: nat, d: nat, w: nat)
    ensures Times(a, Times(d, w)) == Times(Times(a, d), w)
    decreases a
  {
    if a > 0 {
      TimesNested(a - 1, d, w);
      TimesJoin(Times(a - 1, d), d, w);
    }
  }
}
