/** The random number generator of rnd.c: one step, many steps, and its full period. */
module Rnd {
  import opened Modular
  import opened PowerCertificates
  import opened Period

  // the quotient M / A and the remainder M % A
  const Q: int := 127773
  const R: int := 2836

  /** The values a stream can hold; the generator never reaches 0 or the modulus. */
  type Seed = x: int | 1 <= x <= N witness 1

  /** Schrage's method: no intermediate result leaves the range of a 32-bit long. */
  function NextRand(seed: Seed): (r: Seed)
    ensures r == Mul(A, seed)
  {
    var u := seed / Q;
    var v := seed - Q * u;
    var t := A * v - u * R;
    SchrageIsExact(seed);
    if t < 0 then t + M else t
  }

  /** Every product and difference that NextRand forms has absolute value below 2^31. */
  lemma SchrageHasNoOverflow(seed: Seed)
    ensures var u := seed / Q; var v := seed - Q * u;
      && 0 <= Q * u < M && 0 <= v < Q
      && 0 <= A * v < M && 0 <= u * R < M
      && -M < A * v - u * R < M
      && (A * v - u * R < 0 ==> A * v - u * R + M < M)
  {
  }

  lemma SchrageIsExact(seed: Seed)
    ensures var u := seed / Q; var v := seed - Q * u; var t := A * v - u * R;
      var r := if t < 0 then t + M else t;
      1 <= r <= N && r == Mul(A, seed)
  {
    var u := seed / Q;
    var v := seed - Q * u;
    var t := A * v - u * R;
    assert A * seed == t + M * u;
    SchrageHasNoOverflow(seed);
    ModOfSum(t, u);
    ModOfSum(t, 1);
    ProductIsNotZero(A, seed);
  }

  /** n calls of NextRand, one after the other. */
  function Iterate(seed: Seed, n: nat): (r: Seed)
  {
    if n == 0 then seed else NextRand(Iterate(seed, n - 1))
  }

  lemma {:induction false} IterateIsPower(seed: Seed, n: nat)
    ensures Iterate(seed, n) == Mul(Pow(A, n), seed)
  {
    if n > 0 {
      IterateIsPower(seed, n - 1);
      MulAssociates(A, Pow(A, n - 1), seed);
    }
  }

  /** The inverse of NextRand. */
  function PreviousRand(seed: Seed): (r: Seed)
  {
    ProductIsNotZero(A_INVERSE, seed);
    Mul(A_INVERSE, seed)
  }

  lemma NextRandIsBijective(seed: Seed)
    ensures PreviousRand(NextRand(seed)) == seed
    ensures NextRand(PreviousRand(seed)) == seed
  {
    hide Mul;
    MultiplierInverts();
    MulAssociates(A_INVERSE, A, seed);
    MulAssociates(A, A_INVERSE, seed);
    MulOne(seed);
  }

  /**
   The claim of the comment in rnd.c: started anywhere, the generator first repeats after exactly
   2^31 - 2 steps.
   */
  lemma FullPeriod(seed: Seed, i: nat, j: nat)
    requires i <= j
    ensures Iterate(seed, i) == Iterate(seed, j) <==> (j - i) % N == 0
  {
    hide Pow, Iterate, Mul;
    IterateIsPower(seed, i);
    IterateIsPower(seed, j);
    PowersAgree(i, j);
    if Iterate(seed, i) == Iterate(seed, j) {
      var inverse := EveryResidueInverts(seed);
      Cancel(Pow(A, i), Pow(A, j), seed, inverse);
    }
  }

  /** ... and on the way it runs through every value of 1..2^31-2. */
  lemma VisitsEveryValue(seed: Seed, target: Seed) returns (k: nat)
    ensures k < N && Iterate(seed, k) == target
  {
    hide Pow, Iterate, Mul;
    var inverse := EveryResidueInverts(seed);
    ProductIsNotZero(target, inverse);
    k := EveryResidueIsAPower(Mul(target, inverse));
    IterateIsPower(seed, k);
    MulAssociates(target, inverse, seed);
    MulCommutes(inverse, seed);
    MulOne(target);
  }

  // ----- moving a stream by any number of steps, forwards or backwards -----

  /** The factor that moves a stream k steps; negative k moves it back. */
  function Jump(k: int): (r: Seed)
  {
    PowersInvert(k % N);
    Pow(A, k % N)
  }

  function Shift(seed: Seed, k: int): (r: Seed)
  {
    ProductIsNotZero(Jump(k), seed);
    Mul(Jump(k), seed)
  }

  lemma {:induction false} JumpIsPower(k: nat)
    ensures Jump(k) == Pow(A, k)
  {
    hide Pow, Mul;
    PowersAgree(k % N, k);
  }

  lemma {:induction false} ShiftIsPower(seed: Seed, k: nat)
    ensures Shift(seed, k) == Mul(Pow(A, k), seed)
  {
    JumpIsPower(k);
  }

  lemma JumpsAdd(j: int, k: int)
    ensures Jump(j + k) == Mul(Jump(j), Jump(k))
  {
    hide Pow, Mul;
    var i := j % N + k % N;
    PowAdds(A, j % N, k % N);
    JumpIsPower(i);
    assert i % N == (j + k) % N;
  }

  lemma ShiftsAdd(seed: Seed, j: int, k: int)
    ensures Shift(Shift(seed, j), k) == Shift(seed, j + k)
  {
    hide Jump;
    JumpsAdd(k, j);
    MulAssociates(Jump(k), Jump(j), seed);
  }

  /** Shifting forwards is calling NextRand that often; shifting backwards is what undoes it. */
  lemma ShiftIsIteration(seed: Seed, k: int)
    requires k >= 0
    ensures Shift(seed, k) == Iterate(seed, k)
    ensures Iterate(Shift(seed, -k), k) == seed
  {
    hide Pow, Iterate, Mul;
    JumpIsPower(k);
    IterateIsPower(seed, k);
    IterateIsPower(Shift(seed, -k), k);
    ShiftsAdd(seed, -k, k);
    ShiftZero(seed);
  }

  lemma ShiftZero(seed: Seed)
    ensures Shift(seed, 0) == seed
  {
    assert Pow(A, 0) == 1;
    MulOne(seed);
  }

  lemma ShiftsDiffer(seed: Seed, a: nat, b: nat)
    requires a < b < N
    ensures Shift(seed, a) != Shift(seed, b)
  {
    hide Pow, Mul, Jump, Shift, Iterate, NextRand;
    ShiftIsIteration(seed, a);
    ShiftIsIteration(seed, b);
    FullPeriod(seed, a, b);
  }

  lemma ShiftReduces(seed: Seed, k: int)
    ensures Shift(seed, k) == Shift(seed, k % N)
  {
  }

  lemma ShiftsAgree(seed: Seed, j: int, k: int)
    ensures Shift(seed, j) == Shift(seed, k) <==> (k - j) % N == 0
  {
    hide Pow, Mul, Shift, Jump;
    var a, b := j % N, k % N;
    ShiftReduces(seed, j);
    ShiftReduces(seed, k);
    assert a == b <==> (k - j) % N == 0;
    if a < b {
      ShiftsDiffer(seed, a, b);
    } else if b < a {
      ShiftsDiffer(seed, b, a);
    }
  }
}
