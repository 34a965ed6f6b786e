/** Arithmetic modulo the Mersenne number 2^31 - 1 that the generator of rnd.h uses. */
module Modular {

  const M: int := 2147483647
  const A: int := 16807
  // 16807 * 1407677000 == 11017 * M + 1
  const A_INVERSE: int := 1407677000

  type Residue = x: int | 0 <= x < M

  function Mul(x: int, y: int): (r: Residue)
  {
    (x * y) % M
  }

  function Pow(x: int, n: nat): (r: Residue)
  {
    if n == 0 then 1 else Mul(x, Pow(x, n - 1))
  }

  lemma ModOfSum(x: int, k: int)
    ensures (x + M * k) % M == x % M
  {
  }

  lemma MulReduceLeft(x: int, y: int)
    ensures Mul(x % M, y) == Mul(x, y)
  {
    var q := x / M;
    assert x == M * q + x % M;
    assert x * y == (x % M) * y + M * (q * y) by {
      assert (M * q + x % M) * y == (M * q) * y + (x % M) * y;
      assert (M * q) * y == M * (q * y);
    }
    ModOfSum((x % M) * y, q * y);
  }

  lemma MulCommutes(x: int, y: int)
    ensures Mul(x, y) == Mul(y, x)
  {
    assert x * y == y * x;
  }

  lemma MulAssociates(x: int, y: int, z: int)
    ensures Mul(Mul(x, y), z) == Mul(x, Mul(y, z))
  {
    MulReduceLeft(x * y, z);
    MulReduceLeft(y * z, x);
    MulCommutes(x, Mul(y, z));
    assert (x * y) * z == (y * z) * x;
  }

  lemma MulOne(x: int)
    ensures Mul(1, x) == x % M == Mul(x, 1)
  {
  }

  lemma PowZero(x: int)
    ensures Pow(x, 0) == 1
  {
  }

  lemma PowNext(x: int, n: nat)
    ensures Pow(x, n + 1) == Mul(x, Pow(x, n))
  {
  }

  lemma PowTwo(x: Residue)
    ensures Pow(x, 2) == Mul(x, x)
  {
    hide Pow, Mul;
    PowNext(x, 1);
    PowNext(x, 0);
    PowZero(x);
    MulOne(x);
  }

  lemma {:induction false} PowAdds(x: int, i: nat, j: nat)
    ensures Pow(x, i + j) == Mul(Pow(x, i), Pow(x, j))
  {
    if i == 0 {
      MulOne(Pow(x, j));
    } else {
      PowAdds(x, i - 1, j);
      MulAssociates(x, Pow(x, i - 1), Pow(x, j));
    }
  }

  lemma {:induction false} PowOfOne(n: nat)
    ensures Pow(1, n) == 1
  {
    if n != 0 {
      PowOfOne(n - 1);
    }
  }

  lemma {:induction false} PowMultiplies(x: int, i: nat, j: nat)
    ensures i * j >= 0 && Pow(x, i * j) == Pow(Pow(x, i), j)
    decreases j
  {
    if j != 0 {
      PowMultiplies(x, i, j - 1);
      assert i * j == i + i * (j - 1);
      PowAdds(x, i, i * (j - 1));
    } else {
      assert i * j == 0;
    }
  }

  lemma {:induction false} PowOfProduct(x: int, y: int, n: nat)
    ensures Pow(Mul(x, y), n) == Mul(Pow(x, n), Pow(y, n))
  {
    if n != 0 {
      PowOfProduct(x, y, n - 1);
      var p, q := Pow(x, n - 1), Pow(y, n - 1);
      calc {
        Mul(Mul(x, y), Mul(p, q));
        { MulAssociates(x, y, Mul(p, q)); MulAssociates(y, p, q); MulCommutes(y, p); MulAssociates(p, y, q); }
        Mul(x, Mul(p, Mul(y, q)));
        { MulAssociates(x, p, Mul(y, q)); }
        Mul(Mul(x, p), Mul(y, q));
      }
    }
  }

  lemma MultiplierInverts()
    ensures Mul(A, A_INVERSE) == 1 && Mul(A_INVERSE, A) == 1
  {
  }

  /** The multiplier is invertible, so no power of it is congruent to 0. */
  lemma PowersInvert(n: nat)
    ensures Mul(Pow(A, n), Pow(A_INVERSE, n)) == 1
    ensures Pow(A, n) != 0 && Pow(A_INVERSE, n) != 0
  {
    MultiplierInverts();
    PowOfProduct(A, A_INVERSE, n);
    PowOfOne(n);
  }

  /** Multiplying by an invertible number can be undone. */
  lemma Cancel(x: int, y: int, u: int, v: int)
    requires Mul(u, v) == 1
    requires Mul(x, u) == Mul(y, u)
    ensures x % M == y % M
  {
    MulAssociates(x, u, v);
    MulAssociates(y, u, v);
    MulOne(x);
    MulOne(y);
  }
}
