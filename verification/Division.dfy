/** Products, quotients and remainders by repeated addition and subtraction. In front of `*`, `/` and `%`
    the solver splits cases over whole numbers wherever a byte or a header is mentioned; these it unfolds
    only as far as a proof asks. `MultipleIs` and `DivisionIs` say that they are the same numbers. */
module Division {
  function Multiple(k: nat, n: nat): (m: nat)
    ensures k == 0 ==> m == 0
  {
    if k == 0 then 0 else n + Multiple(k - 1, n)
  }

  function Quotient(x: nat, n: nat): (q: nat)
    requires 0 < n
    ensures x < n ==> q == 0
  {
    if x < n then 0 else 1 + Quotient(x - n, n)
  }

  function Modulo(x: nat, n: nat): (r: nat)
    requires 0 < n
    ensures r < n && r <= x && (x < n ==> r == x)
  {
    if x < n then x else Modulo(x - n, n)
  }

  lemma {:induction false} MultipleIs(k: nat, n: nat)
    ensures Multiple(k, n) == k * n
  {
    if k > 0 {
      MultipleIs(k - 1, n);
      assert k * n == n + (k - 1) * n;
    }
  }

  lemma {:induction false} DivisionIs(x: nat, n: nat)
    requires 0 < n
    ensures Quotient(x, n) == x / n && Modulo(x, n) == x % n
    ensures x == n * (x / n) + x % n
    decreases x
  {
    if n <= x {
      DivisionIs(x - n, n);
      hide Quotient, Modulo;
      OneLess(x, n);
    }
  }

  lemma OneLess(x: nat, n: nat)
    requires 0 < n <= x
    ensures x / n == 1 + (x - n) / n && x % n == (x - n) % n
  {
    var q, r := (x - n) / n, (x - n) % n;
    assert x - n == q * n + r;
    assert (q + 1) * n == q * n + n;
    Unique(x, n, q + 1, r);
  }

  /** Quotient and remainder are unique. */
  lemma Unique(x: nat, n: nat, q: nat, r: nat)
    requires r < n && x == q * n + r
    ensures x % n == r && x / n == q
  {
    var q', r' := x / n, x % n;
    assert x == q' * n + r';
    if q' < q {
      MulStep(q', q, n);
    } else if q < q' {
      MulStep(q, q', n);
    }
  }

  lemma MulStep(a: nat, b: nat, n: nat)
    requires a < b
    ensures a * n + n <= b * n
  {
    assert b * n == a * n + (b - a) * n;
    assert (b - a) * n == (b - a - 1) * n + n;
  }
}
