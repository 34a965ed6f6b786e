/**
 The multiplicative order of the multiplier 16807, proved without assuming that 2^31 - 1 is prime:
 computed powers certify that the order is exactly 2^31 - 2, and counting then shows that the powers
 of 16807 are all the non-zero residues.
 */
module Period {
  import opened Division
  import opened Modular
  import opened PowerCertificates

  // ----- prime factors -----

  predicate IsPrime(p: nat)
  {
    2 <= p && forall d :: 2 <= d < p ==> p % d != 0
  }

  /** Trial division up to the square root is enough. */
  lemma {:induction false} TrialDivision(p: nat, k: nat)
    requires 2 <= p < (k + 1) * (k + 1)
    requires forall d :: 2 <= d <= k && d < p ==> p % d != 0
    ensures IsPrime(p)
  {
    forall d | 2 <= d < p
      ensures p % d != 0
    {
      if p % d == 0 {
        var q := p / d;
        assert p == d * q;
        Cofactor(p, d, q);
        assert d > k && q > k;
        ProductIsLarge(d, q, k + 1);
        assert false;
      }
    }
  }

  lemma ProductIsLarge(d: nat, q: int, bound: nat)
    requires d >= bound && q >= bound
    ensures d * q >= bound * bound
  {
    MulMonotone(d, bound, q);
    MulMonotone(bound, bound, d);
  }

  lemma Cofactor(p: nat, d: nat, q: int)
    requires 2 <= d < p && p == d * q
    ensures 2 <= q < p && p % q == 0
  {
    if q <= 1 { MulMonotone(d, q, 1); }
    DividesByQuotient(q, p, d);
    MulMonotone(q, 2, d);
  }

  /** Euclid's lemma for a prime modulus, by the division algorithm on the factor below p. */
  lemma {:induction false} Euclid(p: nat, r: nat, f: int)
    requires IsPrime(p) && 0 < r < p
    requires Divides(p, r * f)
    ensures Divides(p, f)
    decreases r
  {
    if r > 1 {
      assert p % r != 0;
      var q, s := p / r, p % r;
      var k := (r * f) / p;
      assert p == r * q + s && r * f == p * k;
      assert s * f == p * (f - k * q) by {
        assert (r * q + s) * f == q * (r * f) + s * f;
        assert q * (p * k) == p * (k * q);
      }
      DividesByQuotient(p, s * f, f - k * q);
      Euclid(p, s, f);
    }
  }

  function Product(ps: seq<nat>): nat
  {
    if ps == [] then 1 else ps[0] * Product(ps[1..])
  }

  /** If p does not divide e but does divide e * f, it can be taken out of f. */
  lemma TakeOut(p: nat, e: nat, f: nat, rest: nat) returns (f': nat)
    requires IsPrime(p) && !Divides(p, e) && e * f == p * rest
    ensures f == p * f' && e * f' == rest
  {
    var r, q := e % p, e / p;
    assert r * f == p * (rest - q * f) by {
      assert e == p * q + r;
      assert (p * q + r) * f == p * (q * f) + r * f;
    }
    DividesByQuotient(p, r * f, rest - q * f);
    Euclid(p, r, f);
    f' := f / p;
    assert f == p * f';
    assert p * (e * f') == e * (p * f');
    DividesByQuotient(p, p * (e * f'), e * f');
    DividesByQuotient(p, p * rest, rest);
  }

  /** A divisor above 1 of a product of primes is divisible by one of them. */
  lemma {:induction false} PrimeFactor(ps: seq<nat>, e: nat, f: nat) returns (p: nat)
    requires forall q <- ps :: IsPrime(q)
    requires e > 1 && e * f == Product(ps)
    ensures p in ps && p > 0 && Divides(p, e)
  {
    if ps == [] {
      if f >= 1 { MulMonotone(e, 1, f); }
      assert false;
    } else if !IsPrime(ps[0]) {
      assert false;
    } else if Divides(ps[0], e) {
      p := ps[0];
    } else {
      var f' := TakeOut(ps[0], e, f, Product(ps[1..]));
      p := PrimeFactor(ps[1..], e, f');
    }
  }

  const PRIMES: seq<nat> := [2, 3, 3, 7, 11, 31, 151, 331]

  lemma LargestPrimesOfN()
    ensures IsPrime(151) && IsPrime(331)
  {
    TrialDivision(151, 12);
    TrialDivision(331, 18);
  }

  lemma PrimesOfN()
    ensures forall p <- PRIMES :: IsPrime(p)
  {
    TrialDivision(2, 1);
    TrialDivision(3, 1);
    TrialDivision(7, 2);
    TrialDivision(11, 3);
    TrialDivision(31, 5);
    LargestPrimesOfN();
  }

  lemma Factorisation()
    ensures Product(PRIMES) == N
  {
    var p8 := [331];
    var p7 := [151] + p8;
    var p6 := [31] + p7;
    var p5 := [11] + p6;
    var p4 := [7] + p5;
    var p3 := [3] + p4;
    var p2 := [3] + p3;
    assert PRIMES == [2] + p2;
    assert Product(p8) == 331 * Product([]);
    assert Product(p6) == 31 * 151 * 331;
    assert Product(p4) == 7 * 11 * 31 * 151 * 331;
    assert Product(p2) == 3 * 3 * 7 * 11 * 31 * 151 * 331;
  }

  // ----- the order of the multiplier -----

  ghost predicate IsOrder(d: nat)
  {
    d > 0 && Pow(A, d) == 1 && forall k :: 0 < k < d ==> Pow(A, k) != 1
  }

  lemma {:induction false} OrderBelow(n: nat) returns (d: nat)
    requires n > 0 && Pow(A, n) == 1
    ensures IsOrder(d) && d <= n
    decreases n
  {
    if k :| 0 < k < n && Pow(A, k) == 1 {
      d := OrderBelow(k);
    } else {
      d := n;
    }
  }

  lemma OrderDivides(d: nat, k: nat)
    requires IsOrder(d)
    ensures Pow(A, k) == 1 <==> Divides(d, k)
  {
    hide Pow, Mul;
    var q, r := k / d, k % d;
    assert k == d * q + r;
    assert q >= 0 by { if q <= -1 { MulMonotone(d, q, -1); } }
    PowZero(A);
    PowMultiplies(A, d, q);
    PowOfOne(q);
    PowAdds(A, d * q, r);
    MulOne(Pow(A, r));
  }

  lemma NotPowerOne(p: nat)
    requires p in PRIMES
    ensures p > 0 && Divides(p, N) && Pow(A, N / p) != 1
  {
    hide Pow;
    var n: nat;
    if p == 2 { n := Certificate2(); }
    else if p == 3 { n := Certificate3(); }
    else if p == 7 { n := Certificate7(); }
    else if p == 11 { n := Certificate11(); }
    else if p == 31 { n := Certificate31(); }
    else if p == 151 { n := Certificate151(); }
    else { n := Certificate331(); }
    DividesByQuotient(p, N, n);
  }

  /** If N == d * e and the prime p divides e, the power that p certifies rules d out. */
  lemma OrderIsNotProper(d: nat, e: nat, p: nat)
    requires N == d * e && p in PRIMES && p > 0 && Divides(p, e)
    ensures !IsOrder(d)
  {
    hide Pow, Product;
    NotPowerOne(p);
    var e' := e / p;
    assert N == p * (d * e') by {
      assert e == p * e';
      assert d * (p * e') == p * (d * e');
    }
    DividesByQuotient(p, N, d * e');
    if IsOrder(d) {
      DividesByQuotient(d, d * e', e');
      OrderDivides(d, N / p);
      assert false;
    }
  }

  /** 16807 has order 2^31 - 2: no smaller positive power of it is 1. */
  lemma OrderIsN()
    ensures IsOrder(N)
  {
    hide Pow, Product;
    var n := Certificate();
    var d := OrderBelow(n);
    OrderDivides(d, n);
    var e := n / d;
    assert N == d * e;
    if e > 1 {
      PrimesOfN();
      Factorisation();
      var p := PrimeFactor(PRIMES, e, d);
      OrderIsNotProper(d, e, p);
      assert false;
    }
    assert e >= 1 by { if e <= 0 { MulMonotone(d, e, 0); } }
  }

  lemma PowerIsOne(k: nat)
    ensures Pow(A, k) == 1 <==> k % N == 0
  {
    OrderIsN();
    OrderDivides(N, k);
  }

  /** Two powers agree exactly when their exponents differ by a multiple of 2^31 - 2. */
  lemma PowersAgree(i: nat, j: nat)
    requires i <= j
    ensures Pow(A, i) == Pow(A, j) <==> (j - i) % N == 0
  {
    hide Pow, Mul;
    var u, v := Pow(A, i), Pow(A, j - i);
    assert Pow(A, j) == Mul(v, u) by {
      PowAdds(A, j - i, i);
    }
    assert Mul(v, u) == u <==> v == 1 by {
      MulOne(u);
      PowersInvert(i);
      if Mul(v, u) == u {
        Cancel(v, 1, u, Pow(A_INVERSE, i));
      }
    }
    PowerIsOne(j - i);
  }

  // ----- every non-zero residue is a power -----

  ghost function Powers(k: nat): set<int>
  {
    set i | 0 <= i < k :: Pow(A, i)
  }

  lemma {:induction false} PowersAreMany(k: nat)
    requires k <= N
    ensures |Powers(k)| == k
  {
    hide Pow;
    if k > 0 {
      PowersAreMany(k - 1);
      forall i | 0 <= i < k - 1
        ensures Pow(A, i) != Pow(A, k - 1)
      {
        PowersAgree(i, k - 1);
      }
      assert Pow(A, k - 1) !in Powers(k - 1);
      assert Powers(k) == Powers(k - 1) + {Pow(A, k - 1)};
    }
  }

  ghost function UpTo(n: nat): (s: set<int>)
    ensures forall x :: x in s <==> 1 <= x <= n
    ensures |s| == n
  {
    if n == 0 then {} else UpTo(n - 1) + {n}
  }

  lemma SubsetOfSameSize(s: set<int>, t: set<int>)
    requires s <= t && |s| == |t|
    ensures s == t
  {
    assert |t - s| == |t| - |s|;
  }

  /** The multiplier generates every residue in 1..2^31-2. */
  lemma EveryResidueIsAPower(x: int) returns (k: nat)
    requires 1 <= x <= N
    ensures k < N && Pow(A, k) == x
  {
    hide Pow;
    PowersAreMany(N);
    forall y | y in Powers(N)
      ensures y in UpTo(N)
    {
      var i :| 0 <= i < N && y == Pow(A, i);
      PowersInvert(i);
    }
    SubsetOfSameSize(Powers(N), UpTo(N));
    assert x in Powers(N);
    k :| k < N && Pow(A, k) == x;
  }

  /** Hence every non-zero residue has an inverse, and 2^31 - 1 behaves like a prime. */
  lemma EveryResidueInverts(x: int) returns (y: int)
    requires 1 <= x <= N
    ensures 1 <= y <= N && Mul(x, y) == 1
  {
    hide Pow;
    var k := EveryResidueIsAPower(x);
    y := Pow(A_INVERSE, k);
    PowersInvert(k);
  }

  lemma ProductIsNotZero(x: int, y: int)
    requires 1 <= x <= N && 1 <= y <= N
    ensures 1 <= Mul(x, y) <= N
  {
    var z := EveryResidueInverts(y);
    if Mul(x, y) == 0 {
      assert Mul(0, y) == 0;
      Cancel(x, 0, y, z);
    }
  }
}
