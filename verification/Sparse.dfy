/** dss.h and build.c: spreading order keys so that update sets find room between them. */
module Sparse {
  import opened Division
  import opened Bcd

  /** MK_SPARSE, written with the shifts and masks of the macro. */
  function MkSparseBits(key: bv32, s: bv32): bv32
  {
    ((((key >> 3) << 2) | (s & 0x3)) << 3) | (key & 0x7)
  }

  /** The same in arithmetic: groups of eight keys, four slots apart. */
  function MkSparse(key: nat, s: nat): (k: nat)
  {
    key / 8 * 32 + s % 4 * 8 + key % 8
  }

  /** The shifts and masks compute the arithmetic form, also where a 32-bit long wraps around. */
  lemma SparseBitsAreArithmetic(key: bv32, s: bv32)
    ensures MkSparseBits(key, s) == key / 8 * 32 + s % 4 * 8 + key % 8
  {
  }

  function Bit(w: bv32): (n: nat)
    ensures n <= 1
  {
    if w & 1 == 1 then 1 else 0
  }

  function Half(w: bv32): bv32
  {
    w >> 1
  }

  function And(w: bv32, mask: bv32): bv32
  {
    w & mask
  }

  function Quarter(w: bv32): bv32
  {
    w >> 2
  }

  function Eighth(w: bv32): bv32
  {
    w >> 3
  }

  /** The number that a word stands for. */
  function WordValue(w: bv32): (n: nat)
    decreases w
  {
    if w == 0 then 0 else
      HalfIsSmaller(w);
      Bit(w) + 2 * WordValue(Half(w))
  }

  lemma HalfIsSmaller(w: bv32)
    requires w != 0
    ensures Half(w) < w
  {
  }

  lemma ZeroWord()
    ensures WordValue(0) == 0 && Bit(0) == 0 && Half(0) == 0
  {
  }

  lemma ValueStep(w: bv32)
    ensures WordValue(w) == Bit(w) + 2 * WordValue(Half(w))
  {
    hide Bit, Half;
    ZeroWord();
  }

  function Next(w: bv32): bv32
  {
    w + 1
  }

  /** It counts: 0 stands for 0, and one more for one more. */
  lemma {:induction false} WordValueCounts(w: bv32)
    requires w != 0xFFFF_FFFF
    ensures WordValue(0) == 0 && WordValue(Next(w)) == WordValue(w) + 1
    decreases w
  {
    hide WordValue, Bit, Half, Next;
    ZeroWord();
    NextWord(w);
    ValueStep(w);
    ValueStep(Next(w));
    if Bit(w) == 1 {
      HalfIsSmaller(w);
      WordValueCounts(Half(w));
    }
  }

  lemma NextWord(w: bv32)
    requires w != 0xFFFF_FFFF
    ensures Next(w) != 0 && Bit(Next(w)) == 1 - Bit(w)
    ensures Bit(w) == 1 ==> Half(Next(w)) == Next(Half(w)) && Half(w) != 0xFFFF_FFFF && w != 0
    ensures Bit(w) == 0 ==> Half(Next(w)) == Half(w)
  {
  }

  lemma TwoSteps(w: bv32)
    ensures WordValue(w) == Bit(w) + 2 * Bit(Half(w)) + 4 * WordValue(Half(Half(w)))
  {
    hide WordValue, Bit, Half;
    ValueStep(w);
    ValueStep(Half(w));
  }

  /** The last two bits are the value modulo 4, the rest the quotient. */
  lemma LowTwoBits(w: bv32)
    ensures WordValue(And(w, 3)) == WordValue(w) % 4 && WordValue(Quarter(w)) == WordValue(w) / 4
  {
    hide WordValue, Bit, Half, And, Quarter;
    ZeroWord();
    LowBitsOfMask(w);
    HalvesAreShifts(w);
    TwoSteps(w);
    TwoSteps(And(w, 3));
  }

  /** The last three bits are the value modulo 8. */
  lemma LowThreeBits(w: bv32)
    ensures WordValue(And(w, 7)) == WordValue(w) % 8 && WordValue(Eighth(w)) == WordValue(w) / 8
  {
    hide WordValue, Bit, Half, And, Quarter, Eighth;
    ZeroWord();
    LowBitsOfMask(w);
    HalvesAreShifts(w);
    TwoSteps(w);
    ValueStep(Half(Half(w)));
    TwoSteps(And(w, 7));
    ValueStep(Half(Half(And(w, 7))));
  }

  lemma LowBitsOfMask(w: bv32)
    ensures Bit(And(w, 3)) == Bit(w) == Bit(And(w, 7))
    ensures Bit(Half(And(w, 3))) == Bit(Half(w)) == Bit(Half(And(w, 7)))
    ensures Half(Half(And(w, 3))) == 0 && Half(Half(Half(And(w, 7)))) == 0
    ensures Bit(Half(Half(And(w, 7)))) == Bit(Half(Half(w)))
  {
  }

  lemma HalvesAreShifts(w: bv32)
    ensures Half(Half(w)) == Quarter(w) && Half(Half(Half(w))) == Eighth(w)
  {
  }

  /** The fields of a sparse key that fits its word. */
  lemma SparseFields(key: bv32, s: bv32)
    requires key < 0x800_0000
    ensures var x := MkSparseBits(key, s);
      And(x, 7) == And(key, 7) && And(Eighth(x), 3) == And(s, 3) && Quarter(Eighth(x)) == Eighth(key)
  {
  }

  /** As long as the sparse key fits a word, MK_SPARSE computes the arithmetic form of the numbers. */
  lemma SparseBitsAreMkSparse(key: bv32, s: bv32)
    requires key < 0x800_0000
    ensures WordValue(MkSparseBits(key, s)) == MkSparse(WordValue(key), WordValue(s))
  {
    hide WordValue, MkSparseBits, And, Quarter, Eighth;
    var x := MkSparseBits(key, s);
    SparseFields(key, s);
    LowThreeBits(x);
    LowTwoBits(Eighth(x));
    LowThreeBits(key);
    LowTwoBits(s);
  }

  /** Within one slot, a larger key has a larger sparse key. */
  lemma SparseIncreases(key: nat, key': nat, s: nat)
    requires key < key'
    ensures MkSparse(key, s) < MkSparse(key', s)
  {
    var a, a' := key / 8, key' / 8;
    assert key == 8 * a + key % 8 && key' == 8 * a' + key' % 8;
    assert a < a' || (a == a' && key % 8 < key' % 8);
    assert a < a' ==> a * 32 + 32 <= a' * 32;
  }

  /** A sparse key determines the key and the slot. */
  lemma SparseIsInjective(key: nat, key': nat, s: nat, s': nat)
    ensures MkSparse(key, s) == MkSparse(key', s') <==> key == key' && s % 4 == s' % 4
  {
    FieldsOf(key / 8, s % 4, key % 8, MkSparse(key, s));
    FieldsOf(key' / 8, s' % 4, key' % 8, MkSparse(key', s'));
  }

  /** The three fields can be read off a sparse key. */
  lemma FieldsOf(group: nat, slot: nat, low: nat, k: nat)
    requires slot < 4 && low < 8 && k == group * 32 + slot * 8 + low
    ensures k / 32 == group && k / 8 % 4 == slot && k % 8 == low
  {
  }

  /** ez_sparse adds the slot instead of masking it. */
  function EzSparse(i: nat, s: nat): (k: nat)
  {
    (i / 8 * 4 + s) * 8 + i % 8
  }

  /** The macro and the routine agree on the keys they make exactly for the four slots there are. */
  lemma EzSparseAgrees(i: nat, s: nat)
    ensures EzSparse(i, s) == MkSparse(i, s) <==> s < 4
  {
  }

  /**
   With K == 10000 / refresh update sets per slot, set number num inserts into slot 1 + num / K and
   deletes from slot (num - 1) / K: no set ever deletes what it inserts.
   */
  lemma InsertsAreNotDeleted(i: nat, j: nat, num: nat, perSlot: nat)
    requires num > 0 && perSlot > 0
    ensures EzSparse(i, 1 + num / perSlot) != MkSparse(j, (num - 1) / perSlot)
  {
    var a, b := num / perSlot, (num - 1) / perSlot;
    NeighbourSlots(num, perSlot);
    SlotOfKey(i, 1 + a);
    SlotOfSparse(j, b);
    hide EzSparse, MkSparse;
    DifferentSlots(a, b);
  }

  lemma NeighbourSlots(num: nat, perSlot: nat)
    requires num > 0 && perSlot > 0
    ensures 0 <= (num - 1) / perSlot <= num / perSlot <= (num - 1) / perSlot + 1
  {
    var a, b := num / perSlot, (num - 1) / perSlot;
    assert num == perSlot * a + num % perSlot && num - 1 == perSlot * b + (num - 1) % perSlot;
    if a < b { MulMonotone(perSlot, a + 1, b); }
    if a > b + 1 { MulMonotone(perSlot, b + 2, a); }
    if b < 0 { MulMonotone(perSlot, b, -1); }
  }

  lemma SlotOfSparse(key: nat, s: nat)
    ensures MkSparse(key, s) / 8 % 4 == s % 4
  {
    FieldsOf(key / 8, s % 4, key % 8, MkSparse(key, s));
  }

  lemma DifferentSlots(a: nat, b: nat)
    requires b <= a <= b + 1
    ensures (1 + a) % 4 != b % 4
  {
  }

  /** The slot can be read off a key of ez_sparse, modulo 4. */
  lemma SlotOfKey(i: nat, s: nat)
    ensures EzSparse(i, s) / 8 % 4 == s % 4
  {
    var g := i / 8;
    assert EzSparse(i, s) / 8 == g * 4 + s;
  }

  /** What ends with slot 4: its keys are those of the next group in the slot they carry over to. */
  lemma SlotsRunOver(i: nat, s: nat)
    ensures EzSparse(i, s + 4) == EzSparse(i + 8, s)
    ensures EzSparse(i, 4) == MkSparse(i + 8, 0)
  {
    assert (i + 8) / 8 == i / 8 + 1 && (i + 8) % 8 == i % 8;
  }

  // ----- the BCD version for large scale factors -----

  /** The sum that hd_sparse forms: the low bits come from the last decimal digit, not from the index. */
  function HdSparseValue(i: nat, s: nat): (k: nat)
  {
    (i / 8 * 4 + s) * 8 + i % 10 % 8
  }

  lemma LowBitsOfDigit(w: bv32)
    requires 0 <= FromBits(GetNibble(w, 0)) <= 9
    ensures FromBits(w & 0x7) == FromBits(GetNibble(w, 0)) % 8
  {
    assert w & 0x7 == GetNibble(w, 0) & 0x7;
    var v := GetNibble(w, 0);
    assert v < 16;
    if v < 8 { assert v & 0x7 == v; } else { assert v & 0x7 == v - 8; }
  }

  /** hd_sparse: the key is built in packed decimal and handed over as two seven-digit longs. */
  method HdSparse(i: nat, s: nat) returns (low: int, high: int)
    requires i < Ten(14) && s < Ten(14)
    ensures low + Ten(7) * high == HdSparseValue(i, s) % Ten(14)
    ensures low + 1_0000000 * high == ((i / 8 * 4 + s) * 8 + i % 10 % 8) % 1_0000000_0000000
  {
    hide Ten, High, DigitsOf, FromBits, GetNibble, Decimal, HdSparseValue;
    ghost var t := Ten(14);
    HundredBound();
    var base := new Number.FromBinary(i);
    var res := new Number.FromBinary(i);
    var remainder := res.Div(8);
    DivideByEight(i, Value(res.Digits()), remainder);
    var _ := res.Mul(4);
    var carry1 := res.Add(s);
    ghost var a := Value(res.Digits());
    BoundedDigits(res.low, res.high);
    var _ := res.Mul(8);
    ghost var b := Value(res.Digits());
    LastDigit(base.low, base.high, i);
    var carry2 := res.Add(FromBits(base.low & 0x7));
    ghost var c := Value(res.Digits());
    BoundedDigits(res.low, res.high);
    HdSum(i, s, a, b, c, carry1, carry2, t);
    WordsSpellNumber(res.low, res.high);
    low := ToBinary(res.low);
    high := ToBinary(res.high);
    HdSumIs(i, s, low, high);
  }

  lemma HdSumIs(i: nat, s: nat, low: int, high: int)
    requires low + Ten(7) * high == HdSparseValue(i, s) % Ten(14)
    ensures low + 1_0000000 * high == ((i / 8 * 4 + s) * 8 + i % 10 % 8) % 1_0000000_0000000
  {
    TensAre();
    hide Ten;
  }

  /** The four steps of the sum, each modulo 10^14. */
  lemma HdSum(i: nat, s: nat, a: nat, b: nat, c: nat, carry1: nat, carry2: nat, t: nat)
    requires t > 8 && s < t && a < t && c < t && carry1 <= 1 && carry2 <= 1
    requires a + carry1 * t == i / 8 * 4 % t + s && b == a * 8 % t && c + carry2 * t == b + i % 10 % 8
    ensures c == HdSparseValue(i, s) % t
  {
    SumWithCarry(i / 8 * 4, s, a, t);
    ReduceFactor(i / 8 * 4 + s, 8, t);
    SumWithCarry((i / 8 * 4 + s) * 8, i % 10 % 8, c, t);
  }

  lemma HundredBound()
    ensures Ten(14) > 8
  {
    assert Ten(2) == 100;
    TensMultiply(2, 12);
    MulMonotone(100, 1, Ten(12));
  }

  lemma DivideByEight(i: nat, quotient: int, remainder: int)
    requires i == quotient * 8 + remainder && 0 <= remainder < 8
    ensures quotient == i / 8
  {
  }

  lemma BoundedDigits(low: bv32, high: bv32)
    requires Decimal(DigitsOf(low, high))
    ensures 0 <= Value(DigitsOf(low, high)) < Ten(14)
  {
    ValueIsBounded(DigitsOf(low, high));
  }

  /** The low three bits of the packed number are those of its last decimal digit. */
  lemma LastDigit(low: bv32, high: bv32, i: nat)
    requires DigitsOf(low, high) == DecimalDigits(i)
    ensures FromBits(low & 0x7) == i % 10 % 8
  {
    assert DigitsOf(low, high)[0] == FromBits(GetNibble(low, 0)) == DecimalDigit(i, 0) == i % 10;
    LowBitsOfDigit(low);
  }

  /** Adding in place drops the carry, so sums stay right modulo 10^14. */
  lemma SumWithCarry(x: nat, y: nat, sum: int, t: nat)
    requires t > 0 && 0 <= sum < t && y < t
    requires sum == x % t + y || sum == x % t + y - t
    ensures sum == (x + y) % t
  {
    ReduceSummand(x, y, t);
    RemainderIs(x % t + y, t, if sum == x % t + y then 0 else 1, sum);
  }

  lemma ReduceFactor(x: nat, y: nat, t: nat)
    requires t > 0
    ensures x % t * y % t == x * y % t
  {
    var q, r := x / t, x % t;
    assert x * y == t * (q * y) + r * y by {
      assert x == t * q + r;
      assert (t * q + r) * y == t * (q * y) + r * y;
    }
    AddMultiple(r * y, t, q * y);
    assert r * y == t * (r * y / t) + r * y % t;
    RemainderIs(x * y, t, q * y + r * y / t, r * y % t);
  }

  /**
   The two routines agree only where the index and its last digit have the same low bits, and where the
   key has no more than fourteen digits.
   */
  lemma HdSparseAgrees(i: nat, s: nat)
    ensures HdSparseValue(i, s) % Ten(14) == EzSparse(i, s) <==> i % 10 % 8 == i % 8 && EzSparse(i, s) < Ten(14)
  {
    hide Ten;
    var t := Ten(14);
    FourteenDigits();
    var x, y := HdSparseValue(i, s), EzSparse(i, s);
    assert 0 <= x % t < t;
    assert -8 < x - y < 8;
    if x % t == y {
      NearMultiples(x, y, t);
    } else if x == y && y < t {
      RemainderIs(x, t, 0, x);
    }
  }

  /** A number less than t, close to x and equal to it modulo t, is x. */
  lemma NearMultiples(x: nat, y: nat, t: nat)
    requires t > 16 && x % t == y && -8 < x - y < 8
    ensures x == y && y < t
  {
    var q := x / t;
    assert x == t * q + y;
    if q >= 1 { MulMonotone(t, 1, q); }
    if q <= -1 { MulMonotone(t, q, -1); }
  }

  lemma FourteenDigits()
    ensures Ten(14) > 1000
  {
    assert Ten(4) == 10000;
    TensMultiply(4, 10);
    MulMonotone(10000, 1, Ten(10));
  }

  /** In one slot, two indexes get the same sum exactly if their groups and the low bits of their last digits agree. */
  lemma HdSparseCollides(i: nat, j: nat, s: nat)
    ensures HdSparseValue(i, s) == HdSparseValue(j, s) <==> i / 8 == j / 8 && i % 10 % 8 == j % 10 % 8
  {
    var a, b := i / 8, j / 8;
    assert a < b ==> (a * 4 + s) * 8 + 32 <= (b * 4 + s) * 8;
    assert b < a ==> (b * 4 + s) * 8 + 32 <= (a * 4 + s) * 8;
  }

  /** For instance the indexes 8 and 10; they get the same key. */
  lemma HdSparseCollision(s: nat)
    ensures HdSparseValue(8, s) == HdSparseValue(10, s) && EzSparse(8, s) != EzSparse(10, s)
  {
  }
}
