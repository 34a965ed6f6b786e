/** speed_seed.c: jumping a stream ahead, in the 64-bit form and in the 32-bit form. */
module SpeedSeed {
  import opened Division
  import opened Modular
  import opened PowerCertificates
  import opened Period
  import opened Rnd

  /** One random number stream: seed_t of dss.h. */
  datatype Stream = Stream(table: int, value: int, usage: int, boundary: int)

  predicate HoldsSeed(s: Stream)
  {
    1 <= s.value <= N
  }

  // ----- the 64-bit form -----

  /** What the 64-bit NthElement leaves in the stream: a shift that is not positive changes nothing. */
  function Advance64(value: Seed, n: int): (r: Seed)
  {
    if n <= 0 then value else Shift(value, n)
  }

  /** Products of two residues fit in a signed 64-bit integer. */
  lemma ProductFits(x: Residue, y: Residue)
    ensures 0 <= x * y < 0x4000_0000_0000_0000
  {
    MulMonotone(x, y, M);
    assert x * M <= M * M;
  }

  /** Squaring the multiplier halves the number of steps still to do. */
  lemma {:induction false} HalveSteps(mult: Residue, n: nat, z: Residue)
    requires n > 0
    ensures Mul(Pow(mult, n), z) == Mul(Pow(Mul(mult, mult), n / 2), if n % 2 == 0 then z else Mul(mult, z))
  {
    hide Pow, Mul;
    var h := n / 2;
    var p := Pow(mult, 2 * h);
    PowMultiplies(mult, 2, h);
    PowTwo(mult);
    if n % 2 == 1 {
      PowNext(mult, 2 * h);
      MulCommutes(mult, p);
      MulAssociates(p, mult, z);
    }
  }

  method NthElement64(n: int, seeds: array<Stream>, i: nat)
    requires i < seeds.Length && HoldsSeed(seeds[i])
    modifies seeds
    ensures seeds[..] == old(seeds[..])[i := old(seeds[i]).(value := Advance64(old(seeds[i].value), n))]
  {
    hide Pow, Mul, Shift;
    var start := seeds[i].value;
    var left := n;
    var mult := A;
    var z := start;
    if n > 0 {
      ShiftIsPower(start, n);
    }
    while left > 0
      invariant 0 <= mult < M && 0 <= z < M
      invariant n <= 0 ==> left == n && z == start
      invariant n > 0 ==> left >= 0 && Mul(Pow(mult, left), z) == Shift(start, n)
      decreases left
      modifies {}
    {
      HalveSteps(mult, left, z);
      ProductFits(mult, z);
      ProductFits(mult, mult);
      if left % 2 != 0 {
        z := Mul(mult, z);
      }
      left := left / 2;
      mult := Mul(mult, mult);
    }
    PowZero(mult);
    MulOne(z);
    assert z == Advance64(start, n);
    seeds[i] := seeds[i].(value := z);
  }

  // ----- the 32-bit form: multiplication in double precision -----

  const TWO_POW_53: int := 0x20_0000_0000_0000

  /** The product of two integral doubles, exact because it stays below 2^53. */
  function DoubleProduct(x: nat, y: nat): (d: real)
    requires x * y < TWO_POW_53
  {
    (x * y) as real
  }

  /** Conversion to a 32-bit unsigned long. */
  function Unsigned(x: int): (u: int)
  {
    x % 0x1_0000_0000
  }

  /** Subtracts bit 31 if it is set and reports the carry. */
  function DropBit31(q: nat): (r: (nat, nat))
  {
    if q / 0x8000_0000 % 2 == 1 then (q - 0x8000_0000, 1) else (q, 0)
  }

  /** RND_ModMult: the statements of the source one by one, on doubles and on unsigned longs. */
  function RndModMult(a: Seed, b: Seed): (r: int)
  {
    var nL := b % 0x1_0000;
    var nH := (b - nL) / 0x1_0000;
    HalfProductsFit(a, b);
    var dAH := DoubleProduct(a, nH);
    var dAL := DoubleProduct(a, nL);
    var dX := (dAH * (1.0 / 32768.0)).Floor;
    var dY := dAH - dX as real * 32768.0;
    var dZ := (dAL * (1.0 / 2147483648.0)).Floor;
    var dW := dAL - dZ as real * 2147483648.0;
    Combine(dX, dY.Floor, dZ, dW.Floor)
  }

  /** The unsigned tail of RND_ModMult, every operation reduced to 32 bits. */
  function Combine(x: int, y: int, z: int, w: int): (r: int)
  {
    var q0 := Unsigned(Unsigned(w) + Unsigned(Unsigned(y) * 0x1_0000));
    var p0 := Unsigned(Unsigned(x) + Unsigned(z));
    var (q, carry) := DropBit31(q0);
    var p := Unsigned(p0 + carry);
    var (r, fold) := DropBit31(Unsigned(p + q));
    Unsigned(r + fold)
  }

  lemma HalfProductsFit(a: Seed, b: Seed)
    ensures a * (b % 0x1_0000) < TWO_POW_53
    ensures a * ((b - b % 0x1_0000) / 0x1_0000) < TWO_POW_53
  {
    MulMonotone(a, b % 0x1_0000, 0x1_0000);
    MulMonotone(a, (b - b % 0x1_0000) / 0x1_0000, 0x8000);
  }

  /** Scaling a double by 2^-15 or 2^-31 and taking the floor is integer division. */
  lemma FloorOfScaled(x: nat)
    ensures (x as real * (1.0 / 32768.0)).Floor == x / 32768
    ensures (x as real * (1.0 / 2147483648.0)).Floor == x / 2147483648
    ensures (x as real - (x / 32768) as real * 32768.0).Floor == x % 32768
    ensures (x as real - (x / 2147483648) as real * 2147483648.0).Floor == x % 2147483648
  {
    assert x as real - (x / 32768) as real * 32768.0 == (x % 32768) as real;
    assert x as real - (x / 2147483648) as real * 2147483648.0 == (x % 2147483648) as real;
  }

  /** The value 2^31 * p + q, with both parts below 2^31, folds to its residue. */
  lemma FoldIsResidue(p: nat, q: nat, product: nat)
    requires product == 0x8000_0000 * p + q && q < 0x8000_0000
    requires product <= N * N && product % M != 0
    ensures p + q < 0x1_0000_0000
    ensures (if p + q >= 0x8000_0000 then p + q - M else p + q) == product % M
  {
    assert p < M;
    ModOfSum(p + q, p);
    ModOfSum(p + q - M, 1);
  }

  lemma UnsignedFits(x: int)
    requires 0 <= x < 0x1_0000_0000
    ensures Unsigned(x) == x
    ensures DropBit31(x) == if x >= 0x8000_0000 then (x - 0x8000_0000, 1) else (x, 0)
  {
  }

  lemma CombineIsResidue(x: nat, y: nat, z: nat, w: nat, product: nat)
    requires y < 0x8000 && w < 0x8000_0000
    requires product == 0x8000_0000 * (x + z) + 0x1_0000 * y + w
    requires product <= N * N && product % M != 0
    ensures Combine(x, y, z, w) == product % M
  {
    hide Unsigned, DropBit31;
    var q0 := w + 0x1_0000 * y;
    var carry := if q0 >= 0x8000_0000 then 1 else 0;
    var p, q := x + z + carry, q0 - carry * 0x8000_0000;
    assert product == 0x8000_0000 * p + q;
    FoldIsResidue(p, q, product);
    UnsignedFits(w);
    UnsignedFits(y);
    UnsignedFits(y * 0x1_0000);
    UnsignedFits(q0);
    UnsignedFits(x);
    UnsignedFits(z);
    UnsignedFits(x + z);
    UnsignedFits(p);
    UnsignedFits(p + q);
    UnsignedFits(product % M);
  }

  lemma HalvesAreExact(a: Seed, b: Seed)
    ensures var h := a * (b / 0x1_0000); var l := a * (b % 0x1_0000);
      RndModMult(a, b) == Combine(h / 0x8000, h % 0x8000, l / 0x8000_0000, l % 0x8000_0000)
  {
    hide Combine;
    var nL, nH := b % 0x1_0000, b / 0x1_0000;
    assert (b - nL) / 0x1_0000 == nH;
    HalfProductsFit(a, b);
    FloorOfScaled(a * nH);
    FloorOfScaled(a * nL);
  }

  /** Neither rounding nor wrap-around happens: the result is the product modulo 2^31 - 1. */
  lemma RndModMultIsExact(a: Seed, b: Seed)
    ensures RndModMult(a, b) == Mul(a, b)
    ensures 1 <= RndModMult(a, b) <= N
  {
    hide Combine, Mul, RndModMult;
    HalvesAreExact(a, b);
    ProductIsNotZero(a, b);
    MulIsModulo(a, b);
    SplitProduct(a, b);
    CombineHalves(a * (b / 0x1_0000), a * (b % 0x1_0000), a * b);
  }

  lemma CombineHalves(h: nat, l: nat, product: nat)
    requires product == 0x1_0000 * h + l && product <= N * N && product % M != 0
    ensures Combine(h / 0x8000, h % 0x8000, l / 0x8000_0000, l % 0x8000_0000) == product % M
  {
    hide Combine;
    CombineIsResidue(h / 0x8000, h % 0x8000, l / 0x8000_0000, l % 0x8000_0000, product);
  }

  lemma MulIsModulo(a: int, b: int)
    ensures Mul(a, b) == (a * b) % M
  {
  }

  lemma SplitProduct(a: Seed, b: Seed)
    ensures a * b == 0x1_0000 * (a * (b / 0x1_0000)) + a * (b % 0x1_0000)
    ensures 0 <= a * b <= N * N
  {
    var nH, nL := b / 0x1_0000, b % 0x1_0000;
    assert a * (nH * 0x1_0000 + nL) == (a * nH) * 0x1_0000 + a * nL;
    MulMonotone(a, b, N);
    MulMonotone(N, a, N);
  }

  // ----- the 32-bit form: powers from the high bit down -----

  function Two(e: nat): (r: nat)
    ensures r > 0
  {
    if e == 0 then 1 else 2 * Two(e - 1)
  }

  lemma {:induction false} TwosMultiply(d: nat, e: nat)
    ensures Two(d) * Two(e) == Two(d + e)
  {
    if d > 0 {
      TwosMultiply(d - 1, e);
      ProductAssociates(2, Two(d - 1), Two(e));
    }
  }

  lemma TopMask()
    ensures Two(30) == 0x4000_0000 && Two(31) == 0x8000_0000
  {
    assert Two(10) == 1024;
    TwosMultiply(10, 10);
    TwosMultiply(20, 10);
  }

  /** The bits of the exponent that the masks 2^30, 2^29, ..., 1 can see. */
  function Visible(order: int): (k: int)
  {
    if order < 0 then N + order else order % 0x8000_0000
  }

  /** Bit e of a number and of its low 31 bits agree. */
  lemma {:induction false} MaskSeesLowBits(order: nat, e: nat)
    requires e <= 30
    ensures order / Two(e) % 2 == order % 0x8000_0000 / Two(e) % 2
  {
    var m, d := Two(e), Two(31 - e);
    assert m * d == 0x8000_0000 by {
      TopMask();
      TwosMultiply(e, 31 - e);
    }
    assert d == 2 * Two(30 - e);
    HighPartIsEven(m, Two(30 - e), order / 0x8000_0000, order % 0x8000_0000);
  }

  lemma {:induction false} HighPartIsEven(m: nat, c: nat, k: nat, low: nat)
    requires m > 0 && m * (2 * c) == 0x8000_0000
    ensures (0x8000_0000 * k + low) / m % 2 == low / m % 2
  {
    MoveFactor(m, c, k);
    AddMultiple(low, m, 2 * (c * k));
    EvenPart(c * k, low / m);
  }

  lemma MoveFactor(m: int, c: int, k: int)
    ensures (m * (2 * c)) * k == m * (2 * (c * k))
  {
  }

  lemma EvenPart(t: int, x: int)
    ensures (2 * t + x) % 2 == x % 2
  {
  }

  /** Dropping one bit less of x doubles the prefix and appends that bit. */
  lemma {:induction false} NextBit(x: nat, e: nat)
    ensures x / Two(e) == 2 * (x / Two(e + 1)) + x / Two(e) % 2
  {
    assert Two(e + 1) == 2 * Two(e);
    hide Two;
    HalfQuotient(x, Two(e));
  }

  lemma HalfQuotient(x: nat, m: nat)
    requires m > 0
    ensures x / m == 2 * (x / (2 * m)) + x / m % 2
  {
    var k := x / m;
    var h, r := k / 2, k % 2;
    HalfOf(m, h, r);
    assert m * k <= x < m * k + m;
    QuotientIs(x, 2 * m, h);
  }

  lemma HalfOf(m: nat, h: int, r: int)
    requires r == 0 || r == 1
    ensures m * (2 * h + r) == 2 * m * h + if r == 1 then m else 0
  {
    assert m * (2 * h) == 2 * m * h;
  }

  /** The bits of x above position e. */
  function Prefix(x: nat, e: int): (p: nat)
    requires e >= -1
  {
    Quotient(x, Two(e + 1))
  }

  function Quotient(x: nat, d: nat): (q: nat)
    requires d > 0
  {
    x / d
  }

  lemma PrefixBelowMask(x: nat, e: nat)
    requires x < Two(e)
    ensures Prefix(x, e - 1) == 0
  {
    QuotientIs(x, Two(e), 0);
  }

  lemma {:induction false} NextPrefix(order: nat, e: nat)
    requires e <= 30
    ensures var x := order % 0x8000_0000;
      Prefix(x, e - 1) == 2 * Prefix(x, e) + order / Two(e) % 2
  {
    MaskSeesLowBits(order, e);
    NextBit(order % 0x8000_0000, e);
  }

  lemma MaskHalves(e: nat)
    ensures Two(e) / 2 == if e > 0 then Two(e - 1) else 0
  {
  }

  /** Squares the power reached so far and appends one more bit to its exponent. */
  lemma {:induction false} AppendBit(prefix: nat, bit: nat)
    requires bit <= 1
    ensures var square := Mul(Pow(A, prefix), Pow(A, prefix));
      Pow(A, 2 * prefix + bit) == if bit == 1 then Mul(square, A) else square
  {
    hide Pow, Mul;
    PowAdds(A, prefix, prefix);
    if bit == 1 {
      PowNext(A, 2 * prefix);
      MulCommutes(A, Pow(A, 2 * prefix));
    }
  }

  /** One turn of the main loop of RND_seed. */
  method SquareAndMultiply(result: Seed, bit: int, ghost prefix: nat) returns (next: Seed)
    requires 0 <= bit <= 1 && result == Pow(A, prefix)
    ensures next == Pow(A, 2 * prefix + bit)
  {
    hide Pow, Mul, RndModMult;
    AppendBit(prefix, bit);
    RndModMultIsExact(result, result);
    next := RndModMult(result, result);
    if bit == 1 {
      RndModMultIsExact(next, A);
      next := RndModMult(next, A);
    }
  }

  /**
   RND_seed. For an order at or below -M the source reports a fatal error, carries on and then never
   leaves its first loop, so callers must avoid those; at or above M it reports and goes on.
   */
  method RndSeed(order: int) returns (result: Seed, complained: bool)
    requires -M < order
    ensures complained <==> order >= M
    ensures result == Pow(A, Visible(order))
  {
    hide Pow, Mul, RndModMult, Two, Prefix;
    complained := order <= -M || order >= M;
    var k := if order < 0 then M - 1 + order else order;
    ghost var x := k % 0x8000_0000;
    var mask := 0x4000_0000;
    ghost var e := 30;
    TopMask();
    PrefixBelowMask(x, 31);
    while mask > k
      invariant -1 <= e <= 30 && mask == (if e >= 0 then Two(e) else 0)
      invariant Prefix(x, e) == 0
      decreases mask
    {
      PrefixBelowMask(x, e);
      MaskHalves(e);
      mask := mask / 2;
      e := e - 1;
    }
    result := 1;
    PowZero(A);
    while mask > 0
      invariant -1 <= e <= 30 && mask == (if e >= 0 then Two(e) else 0)
      invariant result == Pow(A, Prefix(x, e))
      decreases mask
    {
      NextPrefix(k, e);
      result := SquareAndMultiply(result, k / mask % 2, Prefix(x, e));
      MaskHalves(e);
      mask := mask / 2;
      e := e - 1;
    }
    PrefixIsAll(x);
  }

  /** For a negative order RND_seed returns the modular inverse of the positive power. */
  lemma NegativeOrderInverts(order: int)
    requires -M < order < 0
    ensures Visible(order) >= 0 && Mul(Pow(A, Visible(order)), Pow(A, -order)) == 1
  {
    hide Pow, Mul;
    PowAdds(A, Visible(order), -order);
    PowerIsOne(N);
  }

  lemma PrefixIsAll(x: nat)
    ensures Prefix(x, -1) == x
  {
  }

  /** The mask of the first loop after some turns. */
  function Halved(mask: nat, turns: nat): (m: nat)
  {
    if turns == 0 then mask else Halved(mask, turns - 1) / 2
  }

  /** The order that the masks are compared with. */
  function Folded(order: int): int
  {
    if order < 0 then M - 1 + order else order
  }

  /** The first loop of RND_seed ends if and only if the order is above -M. */
  lemma FirstLoopEnds(order: int)
    ensures (exists turns: nat :: Halved(0x4000_0000, turns) <= Folded(order)) <==> -M < order
  {
    TopMask();
    HalvedToNothing(0x4000_0000, 31, 31);
    if -M < order {
      assert Halved(0x4000_0000, 31) <= Folded(order);
    }
  }

  lemma {:induction false} HalvedToNothing(mask: nat, bits: nat, turns: nat)
    requires mask < Two(bits) && turns >= bits
    ensures Halved(mask, turns) == 0
    decreases turns
  {
    if turns > bits {
      HalvedToNothing(mask, bits, turns - 1);
    } else if bits > 0 {
      HalvedFirst(mask, turns - 1);
      HalvedToNothing(mask / 2, bits - 1, turns - 1);
    }
  }

  lemma {:induction false} HalvedFirst(mask: nat, turns: nat)
    ensures Halved(mask, turns + 1) == Halved(mask / 2, turns)
  {
    if turns > 0 {
      HalvedFirst(mask, turns - 1);
    }
  }

  /** The 32-bit NthElement: it accepts negative shifts and rewinds the stream. */
  method NthElement32(shift: int, seeds: array<Stream>, i: nat) returns (complained: bool)
    requires -M < shift
    requires i < seeds.Length && HoldsSeed(seeds[i])
    modifies seeds
    ensures complained <==> shift >= M
    ensures seeds[..] == old(seeds[..])[i := old(seeds[i]).(value := Advance32(old(seeds[i].value), shift))]
  {
    hide Pow, Mul, RndModMult;
    var power, bad := RndSeed(shift);
    complained := bad;
    var start := seeds[i].value;
    RndModMultIsExact(start, power);
    MulCommutes(start, power);
    seeds[i] := seeds[i].(value := RndModMult(start, power));
    VisibleShift(start, shift);
  }

  /** What the 32-bit NthElement leaves in the stream. */
  function Advance32(value: Seed, shift: int): (r: Seed)
    requires -M < shift
  {
    Shift(value, if shift < 0 then shift else shift % 0x8000_0000)
  }

  lemma VisibleShift(value: Seed, shift: int)
    requires -M < shift
    ensures Mul(Pow(A, Visible(shift)), value) == Advance32(value, shift)
  {
    hide Pow, Mul;
    if shift < 0 {
      assert Jump(shift) == Pow(A, shift % N);
      assert shift % N == Visible(shift);
    } else {
      JumpIsPower(Visible(shift));
    }
  }

  // ----- what the two forms compute -----

  /** Both forms are n calls of NextRand, although one works from the low bit and one from the high bit. */
  lemma BothFormsIterate(value: Seed, n: int)
    requires 0 <= n < M
    ensures Advance64(value, n) == Advance32(value, n) == Iterate(value, n)
  {
    hide Shift, Iterate;
    ShiftIsIteration(value, n);
    ShiftZero(value);
  }

  /** The 64-bit form stays right for every positive count. */
  lemma Form64Iterates(value: Seed, n: int)
    requires n >= 0
    ensures Advance64(value, n) == Iterate(value, n)
  {
    hide Shift, Iterate;
    ShiftIsIteration(value, n);
    ShiftZero(value);
  }

  /** A negative shift within the guard undoes the positive one, in the 32-bit form. */
  lemma Form32Rewinds(value: Seed, k: int)
    requires -M < k < M
    ensures Advance32(Advance32(value, k), -k) == value
  {
    hide Shift;
    ShiftsAdd(value, k, -k);
    ShiftZero(value);
  }

  /**
   Where longs have 64 bits, the form can be asked for more than its guard allows. It then uses only 31
   bits of the count, so it still equals the iteration exactly when twice the lost part is a multiple of
   the period.
   */
  lemma Form32Overflow(value: Seed, n: int)
    requires n >= 0
    ensures Advance32(value, n) == Iterate(value, n) <==> 2 * (n / 0x8000_0000) % N == 0
  {
    hide Shift, Iterate;
    var low := n % 0x8000_0000;
    ShiftIsIteration(value, n);
    ShiftsAgree(value, low, n);
    var q := n / 0x8000_0000;
    ModOfPeriod(2 * q, q);
  }

  // ----- where longs have 32 bits -----

  /** A 32-bit signed long. */
  function Wrapped(x: int): (r: int)
    ensures -0x8000_0000 <= r < 0x8000_0000
  {
    (x + 0x8000_0000) % 0x1_0000_0000 - 0x8000_0000
  }

  /**
   There a count of 2^31 or more has wrapped before NthElement sees it. Where it can serve the wrapped
   count at all, it still equals the iteration exactly when four times the lost part is a multiple of
   the period; mostly it moves the stream backwards instead.
   */
  lemma WrappedCount(value: Seed, n: int)
    requires n >= 0 && -M < Wrapped(n)
    ensures Advance32(value, Wrapped(n)) == Iterate(value, n) <==> 4 * ((n + 0x8000_0000) / 0x1_0000_0000) % N == 0
  {
    hide Shift, Iterate;
    var q := (n + 0x8000_0000) / 0x1_0000_0000;
    assert n == Wrapped(n) + 0x1_0000_0000 * q;
    ShiftIsIteration(value, n);
    ShiftsAgree(value, Wrapped(n), n);
    ModOfPeriod(4 * q, 2 * q);
  }

  /** The comments of a million PARTSUPP rows: the second child is rewound by 2134967296 steps. */
  lemma MillionCommentsWrap(value: Seed)
    ensures Wrapped(2160 * 1_000_000) == -2134967296
    ensures Advance32(value, Wrapped(2160 * 1_000_000)) != Iterate(value, 2160 * 1_000_000)
  {
    hide Shift, Iterate;
    WrappedCount(value, 2160 * 1_000_000);
  }

  lemma ModOfPeriod(x: int, k: int)
    ensures (x + N * k) % N == x % N
  {
  }

  /** The forms part on negative counts: there they agree only when the rewind is a full period. */
  lemma FormsAgree(value: Seed, n: int)
    requires -M < n <= 0
    ensures Advance64(value, n) == Advance32(value, n) <==> n == 0 || n + N == 0
  {
    hide Shift;
    ShiftZero(value);
    ShiftsAgree(value, n, 0);
  }
}
