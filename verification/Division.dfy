/** Quotients and remainders with a divisor that is not a literal. */
module Division {
  lemma {:induction false} MulAtLeast(d: nat, k: int)
    requires k >= 1
    ensures d * k >= d
  {
    assert d * k == d * (k - 1) + d;
    NonNegative(d, k - 1);
  }

  lemma {:induction false} NonNegative(a: nat, b: nat)
    ensures a * b >= 0
  {
  }

  lemma {:induction false} DivisionUnique(a: int, d: nat, q: int, r: int)
    requires d >= 1 && a == d * q + r && 0 <= r < d
    ensures a / d == q && a % d == r
  {
    var q', r' := a / d, a % d;
    assert a == d * q' + r';
    assert d * (q - q') == r' - r;
    if q' < q {
      MulAtLeast(d, q - q');
    } else if q < q' {
      assert d * (q' - q) == r - r';
      MulAtLeast(d, q' - q);
    }
  }
}
