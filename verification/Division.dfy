/** Integer division facts that every part of the generator needs. */
module Division {

  predicate Divides(d: nat, n: int)
    requires d > 0
  {
    n % d == 0
  }

  lemma MulMonotone(a: nat, x: int, y: int)
    requires x <= y
    ensures a * x <= a * y
  {
  }

  lemma ProductAssociates(a: int, x: int, y: int)
    ensures a * x * y == a * (x * y)
  {
  }

  lemma QuotientIs(x: int, m: nat, q: int)
    requires m > 0 && m * q <= x < m * q + m
    ensures x / m == q
  {
    var k := x / m;
    if k < q { MulMonotone(m, k + 1, q); }
    if k > q { MulMonotone(m, q + 1, k); }
  }

  lemma DividesByQuotient(d: nat, n: int, q: int)
    requires d > 0 && n == d * q
    ensures Divides(d, n) && n / d == q
  {
    QuotientIs(n, d, q);
  }

  lemma AddMultiple(x: int, m: nat, t: int)
    requires m > 0
    ensures (m * t + x) / m == t + x / m
  {
    assert m * (t + x / m) == m * t + m * (x / m);
    QuotientIs(m * t + x, m, t + x / m);
  }

  /** Dividing by m and then by c is dividing by their product. */
  lemma DivideTwice(x: int, m: nat, c: nat)
    requires m > 0 && c > 0
    ensures m * c > 0 && x / (m * c) == x / m / c
  {
    var q := x / m;
    var h := q / c;
    assert (m * c) * h == m * (c * h);
    MulMonotone(m, c * h, q);
    MulMonotone(m, q + 1, c * h + c);
    assert m * (c * h + c) == m * (c * h) + m * c;
    QuotientIs(x, m * c, h);
  }
}
