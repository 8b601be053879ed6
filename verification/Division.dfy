/** Facts about division by a number that is not a constant. */
module Division {

  predicate IsMultiple(n: nat, d: nat) {
    0 < d && n % d == 0
  }

  lemma DivideBetween(n: nat, d: nat, q: nat)
    requires 0 < d && q * d <= n < q * d + d
    ensures n / d == q
  {
    var p := n / d;
    assert n == p * d + n % d;
    MultipleOrder(p, q, d);
    MultipleOrder(q, p, d);
  }

  lemma {:induction false} MultipleOrder(p: nat, q: nat, d: nat)
    ensures p < q ==> p * d + d <= q * d
  {
    if p < q {
      assert q * d == (q - 1) * d + d;
      MultipleOrder(p, q - 1, d);
    }
  }

  lemma ModStep(n: nat, d: nat)
    requires 0 < d <= n
    ensures (n - d) % d == n % d
  {
    var q := n / d;
    assert n == q * d + n % d;
    assert q != 0;
    assert q * d == (q - 1) * d + d;
    DivideBetween(n - d, d, q - 1);
    var p := (n - d) / d;
    assert n - d == p * d + (n - d) % d;
  }

  lemma ModSmall(n: nat, d: nat)
    requires n < d
    ensures n % d == n
  {
    DivideBetween(n, d, 0);
    assert n == n / d * d + n % d;
  }

  lemma {:induction false} MultipleOfMultiple(n: nat, a: nat, b: nat)
    requires IsMultiple(n, a) && IsMultiple(a, b) && 0 < a
    ensures IsMultiple(n, b)
  {
    if n < a {
      ModSmall(n, a);
      ModSmall(0, b);
    } else {
      ModStep(n, a);
      MultipleOfMultiple(n - a, a, b);
      SumOfMultiples(n - a, a, b);
    }
  }

  lemma {:induction false} SumOfMultiples(m: nat, n: nat, d: nat)
    requires IsMultiple(m, d) && IsMultiple(n, d)
    ensures IsMultiple(m + n, d)
  {
    if m < d {
      ModSmall(m, d);
    } else {
      ModStep(m, d);
      SumOfMultiples(m - d, n, d);
      ModStep(m + n, d);
    }
  }

  /** The largest multiple that is no more than n. */
  function CutDown(n: nat, d: nat): nat
    requires 0 < d
  {
    n / d * d
  }

  /** What is left over. */
  function Remainder(n: nat, d: nat): nat
    requires 0 < d
  {
    n % d
  }

  lemma MultipleHasNoRemainder(n: nat, d: nat)
    requires 0 < d
    ensures IsMultiple(n, d) <==> Remainder(n, d) == 0
  {
  }

  lemma {:induction false} CutToMultiple(n: nat, d: nat)
    requires 0 < d
    ensures Remainder(n, d) < d && Remainder(n, d) <= n
    ensures IsMultiple(n - Remainder(n, d), d) && CutDown(n, d) == n - Remainder(n, d)
    ensures d <= n ==> 0 < n - Remainder(n, d)
    ensures n < d ==> Remainder(n, d) == n
  {
    assert n == n / d * d + n % d;
    if n < d {
      ModSmall(n, d);
      ModSmall(0, d);
    } else {
      ModStep(n, d);
      CutToMultiple(n - d, d);
      assert n - n % d == (n - d - (n - d) % d) + d;
      ModStep(n - n % d, d);
    }
  }

  /** From one multiple to a larger one there is room for one step. */
  lemma {:induction false} NextMultiple(m: nat, n: nat, d: nat)
    requires IsMultiple(m, d) && IsMultiple(n, d) && m < n
    ensures m + d <= n
  {
    if m < d {
      ModSmall(m, d);
      if n < d {
        ModSmall(n, d);
      }
    } else {
      ModStep(m, d);
      ModStep(n, d);
      NextMultiple(m - d, n - d, d);
    }
  }

  lemma MultipleOfItself(d: nat)
    requires 0 < d
    ensures IsMultiple(d, d) && IsMultiple(0, d)
  {
    ModStep(d, d);
    ModSmall(0, d);
  }

  lemma {:induction false} MultipleLess(m: nat, n: nat, d: nat)
    requires IsMultiple(m, d) && IsMultiple(n, d) && n <= m
    ensures IsMultiple(m - n, d)
  {
    if d <= n {
      ModStep(m, d);
      ModStep(n, d);
      MultipleLess(m - d, n - d, d);
    } else {
      ModSmall(n, d);
    }
  }
}
