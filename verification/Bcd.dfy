/** bcd2.c: fourteen decimal digits packed as nibbles into two longs. */
module Bcd {
  import opened Division

  // ----- nibbles of one word -----

  const DIGITS_PER_LONG: int := 7

  function Up(v: bv32, k: nat): bv32
    requires k < 7
  {
    if k == 0 then v else if k == 1 then v << 4 else if k == 2 then v << 8 else if k == 3 then v << 12
    else if k == 4 then v << 16 else if k == 5 then v << 20 else v << 24
  }

  function Down(v: bv32, k: nat): bv32
    requires k < 7
  {
    if k == 0 then v else if k == 1 then v >> 4 else if k == 2 then v >> 8 else if k == 3 then v >> 12
    else if k == 4 then v >> 16 else if k == 5 then v >> 20 else v >> 24
  }

  /** The bits of w under a mask. */
  function Masked(w: bv32, mask: bv32): bv32
  {
    w & mask
  }

  /** w with the bits under the mask replaced by x. */
  function Replaced(w: bv32, mask: bv32, x: bv32): bv32
  {
    (w & (0xFFF_FFFF ^ mask)) | x
  }

  /** One branch of GET_DIGIT. */
  function GetNibble(w: bv32, k: nat): bv32
    requires k < 7
  {
    Down(Masked(w, Up(0xF, k)), k)
  }

  /** One branch of SET_DIGIT. */
  function SetNibble(v: bv32, w: bv32, k: nat): bv32
    requires k < 7
  {
    Replaced(w, Up(0xF, k), Up(v, k))
  }

  // ----- the bit-level facts, position by position -----

  lemma ReplacedField(w: bv32, x: bv32, mask: bv32, other: bv32)
    requires Masked(x, mask) == x && Masked(mask, 0xFFF_FFFF) == mask
    ensures Masked(Replaced(w, mask, x), mask) == x
    ensures Masked(mask, other) == 0 && Masked(other, 0xFFF_FFFF) == other ==>
      Masked(Replaced(w, mask, x), other) == Masked(w, other)
  {
  }

  lemma {:induction false} FieldOf(v: bv32, k: nat)
    requires k < 7 && v < 16
    ensures Masked(Up(v, k), Up(0xF, k)) == Up(v, k) && Down(Up(v, k), k) == v
  {
  }

  lemma {:induction false} FieldsDisjoint(j: nat, k: nat)
    requires j < 7 && k < 7
    ensures Masked(Up(0xF, j), 0xFFF_FFFF) == Up(0xF, j)
    ensures j != k ==> Masked(Up(0xF, k), Up(0xF, j)) == 0
  {
  }

  /** Writing one nibble leaves the others alone. */
  lemma {:induction false} NibblesIndependent(v: bv32, w: bv32, k: nat, j: nat)
    requires k < 7 && j < 7 && v < 16
    ensures GetNibble(SetNibble(v, w, k), j) == if k == j then v else GetNibble(w, j)
  {
    hide Up, Down, Masked, Replaced;
    FieldOf(v, k);
    FieldsDisjoint(j, k);
    FieldsDisjoint(k, j);
    ReplacedField(w, Up(v, k), Up(0xF, k), Up(0xF, j));
  }

  /** The digits of a word are its nibbles from the lowest bits upwards. */
  lemma NibblesAre(w: bv32)
    ensures GetNibble(w, 0) == w & 0xF && GetNibble(w, 1) == (w >> 4) & 0xF && GetNibble(w, 2) == (w >> 8) & 0xF
    ensures GetNibble(w, 3) == (w >> 12) & 0xF && GetNibble(w, 4) == (w >> 16) & 0xF
    ensures GetNibble(w, 5) == (w >> 20) & 0xF && GetNibble(w, 6) == (w >> 24) & 0xF
  {
  }

  lemma Slide0(v: bv32, w: bv32)
    requires v < 16
    ensures GetNibble((w << 4) | v, 0) == v
  {
  }

  lemma Slide1(v: bv32, w: bv32)
    requires v < 16
    ensures GetNibble((w << 4) | v, 1) == GetNibble(w, 0)
  {
  }

  lemma Slide2(v: bv32, w: bv32)
    requires v < 16
    ensures GetNibble((w << 4) | v, 2) == GetNibble(w, 1)
  {
  }

  lemma Slide3(v: bv32, w: bv32)
    requires v < 16
    ensures GetNibble((w << 4) | v, 3) == GetNibble(w, 2)
  {
  }

  lemma Slide4(v: bv32, w: bv32)
    requires v < 16
    ensures GetNibble((w << 4) | v, 4) == GetNibble(w, 3)
  {
  }

  lemma Slide5(v: bv32, w: bv32)
    requires v < 16
    ensures GetNibble((w << 4) | v, 5) == GetNibble(w, 4)
  {
  }

  lemma Slide6(v: bv32, w: bv32)
    requires v < 16
    ensures GetNibble((w << 4) | v, 6) == GetNibble(w, 5)
  {
  }

  /** Shifting a word left by four moves every nibble up and makes room for one. */
  lemma {:induction false} NibblesSlide(v: bv32, w: bv32, j: nat)
    requires j < 7 && v < 16
    ensures GetNibble((w << 4) | v, j) == if j == 0 then v else GetNibble(w, j - 1)
  {
    hide GetNibble;
    if j == 0 { Slide0(v, w); }
    else if j == 1 { Slide1(v, w); }
    else if j == 2 { Slide2(v, w); }
    else if j == 3 { Slide3(v, w); }
    else if j == 4 { Slide4(v, w); }
    else if j == 5 { Slide5(v, w); }
    else { Slide6(v, w); }
  }

  /** A long small enough for one nibble, as the bits of the word. */
  function ToBits(n: int): (v: bv32)
    requires 0 <= n < 16
    ensures v < 16 && v as int == n
  {
    n as bv32
  }

  // ----- the fourteen digits -----

  /** GET_DIGIT. */
  function GetDigit(num: nat, low: bv32, high: bv32): (d: int)
    requires num < 14
  {
    if num >= DIGITS_PER_LONG then FromBits(GetNibble(high, num - DIGITS_PER_LONG)) else FromBits(GetNibble(low, num))
  }

  /** The value of a nibble taken out of a word. */
  function FromBits(v: bv32): (n: int)
  {
    v as int
  }

  /** The seven digits of one word. */
  function WordDigits(w: bv32): (ds: seq<int>)
    ensures |ds| == 7
  {
    seq(7, i requires 0 <= i < 7 => FromBits(GetNibble(w, i)))
  }

  /** Shifting a digit into a word from the right. */
  function ShiftDigit(w: bv32, d: int): bv32
    requires 0 <= d <= 9
  {
    (w << 4) | ToBits(d)
  }

  lemma DigitsMoveUp(w: bv32, d: int)
    requires 0 <= d <= 9
    ensures WordDigits(ShiftDigit(w, d)) == [d] + WordDigits(w)[..6]
  {
    hide GetNibble, ToBits;
    var v := ToBits(d);
    ToBitsAndBack(d);
    forall i: nat | i < 7
      ensures WordDigits(ShiftDigit(w, d))[i] == ([d] + WordDigits(w)[..6])[i]
    {
      NibblesSlide(v, w, i);
    }
  }

  lemma ToBitsAndBack(n: int)
    requires 0 <= n < 16
    ensures ToBits(n) < 16 && FromBits(ToBits(n)) == n
  {
  }

  function DigitsOf(low: bv32, high: bv32): (ds: seq<int>)
    ensures |ds| == 14
  {
    seq(14, i requires 0 <= i < 14 => GetDigit(i, low, high))
  }

  predicate Decimal(ds: seq<int>)
  {
    forall i :: 0 <= i < |ds| ==> 0 <= ds[i] <= 9
  }

  // ----- positional notation -----

  function Ten(k: nat): (p: nat)
    ensures p > 0
  {
    if k == 0 then 1 else 10 * Ten(k - 1)
  }

  /** The number written by the digits from position k upwards, in units of 10^k. */
  function High(ds: seq<int>, k: nat): int
    requires k <= |ds|
    decreases |ds| - k
  {
    if k == |ds| then 0 else ds[k] + 10 * High(ds, k + 1)
  }

  /** The number written by the digits below position k. */
  function Low(ds: seq<int>, k: nat): int
    requires k <= |ds|
  {
    if k == 0 then 0 else Low(ds, k - 1) + ds[k - 1] * Ten(k - 1)
  }

  function Value(ds: seq<int>): int
  {
    High(ds, 0)
  }

  lemma TensAre()
    ensures Ten(7) == 1_0000000 && Ten(14) == 1_0000000_0000000
  {
    TensMultiply(7, 7);
  }

  lemma TenNext(k: nat)
    ensures Ten(k + 1) == 10 * Ten(k)
    ensures Ten(0) == 1
  {
  }

  lemma {:induction false} TensMultiply(j: nat, k: nat)
    ensures Ten(j) * Ten(k) == Ten(j + k)
  {
    if j > 0 {
      TensMultiply(j - 1, k);
      ProductAssociates(10, Ten(j - 1), Ten(k));
    }
  }

  lemma {:induction false} LowAndHigh(ds: seq<int>, k: nat)
    requires k <= |ds|
    ensures Value(ds) == Low(ds, k) + Ten(k) * High(ds, k)
  {
    if k > 0 {
      LowAndHigh(ds, k - 1);
      DigitMovesDown(Ten(k - 1), ds[k - 1], High(ds, k));
    }
  }

  lemma DigitMovesDown(t: int, d: int, h: int)
    ensures t * (d + 10 * h) == d * t + 10 * t * h
  {
    assert t * (10 * h) == 10 * t * h;
  }

  lemma DigitIsSmall(t: nat, d: int)
    requires 0 <= d <= 9
    ensures 0 <= d * t <= 9 * t
  {
  }

  lemma {:induction false} LowIsBounded(ds: seq<int>, k: nat)
    requires k <= |ds| && Decimal(ds)
    ensures 0 <= Low(ds, k) < Ten(k)
  {
    if k > 0 {
      LowIsBounded(ds, k - 1);
      DigitIsSmall(Ten(k - 1), ds[k - 1]);
    }
  }

  lemma ValueIsBounded(ds: seq<int>)
    requires Decimal(ds)
    ensures 0 <= Value(ds) < Ten(|ds|)
  {
    LowAndHigh(ds, |ds|);
    LowIsBounded(ds, |ds|);
  }

  /** Writing digit p changes the value by the difference at that position. */
  lemma {:induction false} SetChangesHigh(ds: seq<int>, p: nat, v: int, k: nat)
    requires k <= |ds| && p < |ds|
    ensures High(ds[p := v], k) == High(ds, k) + if k <= p then (v - ds[p]) * Ten(p - k) else 0
    decreases |ds| - k
  {
    if k < |ds| {
      SetChangesHigh(ds, p, v, k + 1);
      if k < p {
        assert 10 * ((v - ds[p]) * Ten(p - k - 1)) == (v - ds[p]) * (10 * Ten(p - k - 1));
      }
    }
  }

  lemma {:induction false} ZerosAreZero(ds: seq<int>, k: nat)
    requires k <= |ds| && forall i :: 0 <= i < |ds| ==> ds[i] == 0
    ensures High(ds, k) == 0
    decreases |ds| - k
  {
    if k < |ds| {
      ZerosAreZero(ds, k + 1);
    }
  }

  // ----- the number itself -----

  lemma WriteDigit(value: int, num: nat, low: bv32, high: bv32)
    requires 0 <= value <= 9 && num < 14
    ensures var v := ToBits(value);
      DigitsOf(low, high)[num := value] ==
      if num >= DIGITS_PER_LONG then DigitsOf(low, SetNibble(v, high, num - DIGITS_PER_LONG))
      else DigitsOf(SetNibble(v, low, num), high)
  {
    hide GetNibble, SetNibble, ToBits, FromBits;
    var v := ToBits(value);
    ToBitsAndBack(value);
    var low' := if num < DIGITS_PER_LONG then SetNibble(v, low, num) else low;
    var high' := if num < DIGITS_PER_LONG then high else SetNibble(v, high, num - DIGITS_PER_LONG);
    forall i: nat | i < 14
      ensures DigitsOf(low', high')[i] == if i == num then value else DigitsOf(low, high)[i]
    {
      if num < DIGITS_PER_LONG && i < DIGITS_PER_LONG {
        NibblesIndependent(v, low, num, i);
      } else if num >= DIGITS_PER_LONG && i >= DIGITS_PER_LONG {
        NibblesIndependent(v, high, num - DIGITS_PER_LONG, i - DIGITS_PER_LONG);
      }
    }
    assert DigitsOf(low, high)[num := value] == DigitsOf(low', high');
  }

  class Number {
    var low: bv32
    var high: bv32

    ghost function Digits(): (ds: seq<int>)
      reads this
      ensures |ds| == 14
    {
      DigitsOf(low, high)
    }

    ghost predicate Valid()
      reads this
    {
      Decimal(Digits())
    }

    constructor ()
      ensures low == 0 && high == 0
    {
      low, high := 0, 0;
    }

    /** SET_DIGIT. */
    method SetDigit(value: int, num: nat)
      requires 0 <= value <= 9 && num < 14
      modifies this
      ensures Digits() == old(Digits())[num := value]
    {
      WriteDigit(value, num, low, high);
      var v := ToBits(value);
      if num >= DIGITS_PER_LONG {
        high := SetNibble(v, high, num - DIGITS_PER_LONG);
      } else {
        low := SetNibble(v, low, num);
      }
    }

    /** bin_bcd2: the decimal characters are shifted in from the left, high word first. */
    constructor FromBinary(binary: nat)
      requires binary < Ten(14)
      ensures Digits() == DecimalDigits(binary)
      ensures Valid() && Value(Digits()) == binary
    {
      low, high := 0, 0;
      new;
      hide Shifted, ShiftDigit, Ten, DecimalDigit, Decimal, WordDigits;
      var number := Padded(binary);
      NothingShifted(binary, 7);
      NothingShifted(binary, 14);
      var current, count := 0, 13;
      while current < |number|
        invariant 0 <= current <= 14 && count == 13 - current
        invariant WordDigits(high) == Shifted(binary, 14, if current < 7 then current else 7)
        invariant WordDigits(low) == Shifted(binary, 7, if current < 7 then 0 else current - 7)
        modifies this
      {
        var d := number[current] as int - '0' as int;
        if count < DIGITS_PER_LONG {
          ShiftsOneMore(binary, 7, current - 7);
          DigitsMoveUp(low, d);
          low := ShiftDigit(low, d);
        } else {
          ShiftsOneMore(binary, 14, current);
          DigitsMoveUp(high, d);
          high := ShiftDigit(high, d);
        }
        current, count := current + 1, count - 1;
      }
      AllShifted(low, high, binary);
      DecimalDigitsSpell(binary);
    }

    method Clear()
      modifies this
      ensures Valid() && forall i :: 0 <= i < 14 ==> Digits()[i] == 0
    {
      low, high := 0, 0;
      ZeroDigits();
    }

    /** bcd2_add: fourteen digits of the sum stay, the carry comes back. */
    method Add(addend: nat) returns (carry: int)
      requires Valid() && addend < Ten(14)
      modifies this
      ensures Valid() && 0 <= carry <= 1
      ensures Value(Digits()) + carry * Ten(14) == old(Value(Digits())) + addend
    {
      hide Ten, High, Low;
      ghost var xs, ys := Digits(), DecimalDigits(addend);
      var tmp := new Number.FromBinary(addend);
      carry := 0;
      var digit := 0;
      LowEnds(ys);
      while digit < 14
        invariant 0 <= digit <= 14 && 0 <= carry <= 1
        invariant tmp.Digits() == ys && Valid()
        invariant forall i :: digit <= i < 14 ==> Digits()[i] == xs[i]
        invariant Value(Digits()) + carry * Ten(digit) == Value(xs) + Low(ys, digit)
      {
        ghost var ds, c := Digits(), carry;
        assert ds[digit] == GetDigit(digit, low, high) && ys[digit] == GetDigit(digit, tmp.low, tmp.high);
        var res := GetDigit(digit, low, high);
        res := res + GetDigit(digit, tmp.low, tmp.high);
        res := res + carry;
        carry := res / 10;
        res := res % 10;
        SetDigit(res, digit);
        AddStep(ds, ys, digit, c, res, carry);
        digit := digit + 1;
      }
    }

    /** The inner loop of bcd2_mul: adds m1 times the saved digits, ldigit places up. */
    method AddRow(m1: int, tmpLow: bv32, tmpHigh: bv32, ldigit: int) returns (carry: int)
      requires Valid() && Decimal(DigitsOf(tmpLow, tmpHigh)) && 0 <= m1 <= 9 && 0 <= ldigit < 14
      modifies this
      ensures Valid() && 0 <= carry <= 9
      ensures RowReached(Value(Digits()), carry, old(Value(Digits())), m1, DigitsOf(tmpLow, tmpHigh), ldigit, 14)
    {
      hide Ten, High, Low, RowReached;
      ghost var xs, start := DigitsOf(tmpLow, tmpHigh), Value(Digits());
      carry := 0;
      RowStart(start, m1, xs, ldigit);
      var udigit := 0;
      while udigit < 14
        invariant 0 <= udigit <= 14 && 0 <= carry <= 9 && Valid()
        invariant RowReached(Value(Digits()), carry, start, m1, xs, ldigit, udigit)
      {
        ghost var ds, c := Digits(), carry;
        assert xs[udigit] == GetDigit(udigit, tmpLow, tmpHigh);
        var m2 := GetDigit(udigit, tmpLow, tmpHigh);
        ProductIsSmall(m1, m2);
        var res := m1 * m2;
        res := res + carry;
        if udigit + ldigit < 14 {
          assert ds[udigit + ldigit] == GetDigit(udigit + ldigit, low, high);
          carry := GetDigit(udigit + ldigit, low, high);
          res := res + carry;
        }
        carry := res / 10;
        res := res % 10;
        if udigit + ldigit < 14 {
          SetDigit(res, udigit + ldigit);
        }
        RowStep(ds, Digits(), c, carry, res, start, m1, xs, ldigit, udigit);
        udigit := udigit + 1;
      }
    }

    /**
     bcd2_mul: the product modulo 10^14 stays, in valid digits. The carry that comes back is what the
     last row of the multiplication left, not the lost part of the product.
     */
    method Mul(multiplier: nat) returns (carry: int)
      requires Valid() && multiplier < Ten(14)
      modifies this
      ensures Valid() && 0 <= carry <= 9
      ensures Value(Digits()) == old(Value(Digits())) * multiplier % Ten(14)
    {
      hide Ten, High, Low, RowReached, DecimalDigit;
      ghost var x, ms := Value(Digits()), DecimalDigits(multiplier);
      var tmpLow, tmpHigh := low, high;
      var m := new Number.FromBinary(multiplier);
      Clear();
      ZerosAreZero(Digits(), 0);
      LowEnds(ms);
      carry := 0;
      ModStart(x, ms);
      var ldigit := 0;
      while ldigit < 14
        invariant 0 <= ldigit <= 14 && 0 <= carry <= 9
        invariant m.Digits() == ms && Valid()
        invariant Value(Digits()) == x * Low(ms, ldigit) % Ten(14)
      {
        assert ms[ldigit] == GetDigit(ldigit, m.low, m.high);
        var m1 := GetDigit(ldigit, m.low, m.high);
        ghost var start := Value(Digits());
        carry := AddRow(m1, tmpLow, tmpHigh, ldigit);
        ValueIsBounded(Digits());
        RowEnds(Value(Digits()), carry, start, m1, DigitsOf(tmpLow, tmpHigh), ms, ldigit);
        ldigit := ldigit + 1;
      }
    }

    /** bcd2_div: long division, the quotient stays and the remainder comes back. */
    method Div(divisor: nat) returns (carry: int)
      requires Valid() && divisor > 0
      modifies this
      ensures Valid() && 0 <= carry < divisor
      ensures old(Value(Digits())) == Value(Digits()) * divisor + carry
    {
      hide Ten, High, DivReached;
      ghost var xs := Digits();
      carry := 0;
      var tmpLow, tmpHigh := low, high;
      Clear();
      DivStart(xs, Digits(), divisor);
      var digit := 13;
      while digit >= 0
        invariant -1 <= digit <= 13 && 0 <= carry < divisor && Valid()
        invariant forall i :: 0 <= i <= digit ==> Digits()[i] == 0
        invariant DivReached(xs, Digits(), digit + 1, carry, divisor)
      {
        ghost var ds, c := Digits(), carry;
        assert xs[digit] == GetDigit(digit, tmpLow, tmpHigh);
        var d1 := GetDigit(digit, tmpLow, tmpHigh);
        d1 := Dividend(d1, carry);
        QuotientDigit(d1, carry, divisor);
        var res := d1 / divisor;
        carry := d1 % divisor;
        SetDigit(res, digit);
        DivStep(xs, ds, digit, c, res, carry, divisor);
        digit := digit - 1;
      }
      DivEnds(xs, Digits(), carry, divisor);
    }
  }

  /** What bcd2_div divides at each digit. */
  function Dividend(digit: int, carry: int): int
  {
    digit + 10 * carry
  }

  /** It fits a 32-bit long for every digit and remainder if and only if the divisor is not too large. */
  lemma DividendFits(divisor: nat)
    requires divisor > 0
    ensures (forall d: nat, carry: nat :: d <= 9 && carry < divisor ==> Dividend(d, carry) < 0x8000_0000)
      <==> divisor <= 214748364
  {
    if divisor > 214748364 {
      assert Dividend(9, divisor - 1) >= 0x8000_0000;
    }
  }

  lemma ZeroDigits()
    ensures forall i :: 0 <= i < 14 ==> DigitsOf(0, 0)[i] == 0
  {
    forall k: nat | k < 7
      ensures GetNibble(0, k) == 0
    {
    }
  }

  // ----- back to binary -----

  /** bcd2_bin: the seven digits under a moving mask, most significant first. */
  method ToBinary(bcd: bv32) returns (dest: int)
    ensures dest == Value(WordDigits(bcd))
  {
    hide Down, GetNibble, MaskFor, FromBits, High;
    var count := DIGITS_PER_LONG - 1;
    var mask: bv32 := 0xF00_0000;
    dest := 0;
    ghost var ds := WordDigits(bcd);
    DigitsEnd(ds);
    MaskAt(6);
    while mask != 0
      invariant -1 <= count <= 6 && mask == MaskFor(count)
      invariant dest == High(ds, count + 1)
      decreases count
    {
      MaskAt(count);
      NibbleUnderMask(bcd, count);
      NextHigh(ds, count);
      dest := dest * 10;
      dest := dest + FromBits(Down(bcd & mask, count));
      mask := mask >> 4;
      count := count - 1;
    }
    MaskAt(count);
  }

  function MaskFor(count: int): bv32
    requires -1 <= count <= 6
  {
    if count == -1 then 0 else Up(0xF, count)
  }

  lemma MaskAt(count: int)
    requires -1 <= count <= 6
    ensures MaskFor(count) != 0 <==> count >= 0
    ensures count >= 0 ==> MaskFor(count) >> 4 == MaskFor(count - 1)
    ensures MaskFor(6) == 0xF00_0000
  {
  }

  lemma NibbleUnderMask(w: bv32, k: nat)
    requires k < 7
    ensures Down(w & MaskFor(k), k) == GetNibble(w, k)
  {
  }

  lemma NextHigh(ds: seq<int>, k: nat)
    requires k < |ds|
    ensures High(ds, k) == ds[k] + 10 * High(ds, k + 1)
  {
  }

  lemma DigitsEnd(ds: seq<int>)
    ensures High(ds, |ds|) == 0
  {
  }

  /** The value of a number is that of its two words, converted one by one. */
  lemma WordsSpellNumber(low: bv32, high: bv32)
    ensures Value(DigitsOf(low, high)) == Value(WordDigits(low)) + Ten(7) * Value(WordDigits(high))
  {
    hide Low, High, Ten, GetNibble;
    var ds, ls, hs := DigitsOf(low, high), WordDigits(low), WordDigits(high);
    LowAndHigh(ds, 7);
    SameLow(ds, ls, 7);
    LowEnds(ls);
    SameHigh(ds, hs, 0);
  }

  lemma {:induction false} SameLow(ds: seq<int>, ls: seq<int>, k: nat)
    requires k <= |ls| <= |ds| && forall i :: 0 <= i < |ls| ==> ds[i] == ls[i]
    ensures Low(ds, k) == Low(ls, k)
  {
    if k > 0 {
      SameLow(ds, ls, k - 1);
    }
  }

  lemma {:induction false} SameHigh(ds: seq<int>, hs: seq<int>, k: nat)
    requires |ds| == 14 && |hs| == 7 && k <= 7 && forall i :: 0 <= i < 7 ==> ds[7 + i] == hs[i]
    ensures High(ds, 7 + k) == High(hs, k)
    decreases 7 - k
  {
    if k < 7 {
      SameHigh(ds, hs, k + 1);
    }
  }

  /** Valid digits are determined by the value, so equal values are equal numbers. */
  lemma {:induction false} DigitsAreUnique(xs: seq<int>, ys: seq<int>, k: nat)
    requires |xs| == |ys| && k <= |xs| && Decimal(xs) && Decimal(ys) && High(xs, k) == High(ys, k)
    ensures forall i :: k <= i < |xs| ==> xs[i] == ys[i]
    decreases |xs| - k
  {
    if k < |xs| {
      assert 0 <= xs[k] <= 9 && 0 <= ys[k] <= 9;
      DigitsAreUnique(xs, ys, k + 1);
    }
  }

  /** bin_bcd2 and then bcd2_bin on both words give the number back. */
  method RoundTrip(binary: nat) returns (n: int)
    requires binary < Ten(14)
    ensures n == binary
  {
    hide Ten, High;
    var number := new Number.FromBinary(binary);
    WordsSpellNumber(number.low, number.high);
    var low := ToBinary(number.low);
    var high := ToBinary(number.high);
    n := low + Ten(7) * high;
  }

  /** Dividing the result of bcd2_mul gives the factor back exactly when the product has 14 digits. */
  lemma DivUndoesMul(x: nat, m: nat, product: nat, quotient: int, remainder: int)
    requires m > 0 && product == x * m % Ten(14)
    requires product == quotient * m + remainder && 0 <= remainder < m
    ensures quotient == x && remainder == 0 <==> x * m < Ten(14)
  {
    hide Ten;
    var t := Ten(14);
    if x * m < t {
      RemainderIs(x * m, t, 0, x * m);
      RemainderIs(x * m, m, x, 0);
      RemainderIs(x * m, m, quotient, remainder);
    } else {
      assert x * m == t * (x * m / t) + product;
    }
  }

  // ----- addition -----

  lemma LowEnds(ds: seq<int>)
    ensures Value(ds) == Low(ds, |ds|) && Low(ds, 0) == 0
    ensures |ds| == 14 ==> Ten(0) == 1
  {
    LowAndHigh(ds, |ds|);
  }

  lemma AddStep(ds: seq<int>, ys: seq<int>, p: nat, carry: int, res: int, carry': int)
    requires |ds| == 14 == |ys| && p < 14
    requires ds[p] + ys[p] + carry == 10 * carry' + res
    ensures Value(ds[p := res]) + carry' * Ten(p + 1) - Low(ys, p + 1) == Value(ds) + carry * Ten(p) - Low(ys, p)
  {
    SetChangesHigh(ds, p, res, 0);
    var t := Ten(p);
    CarryBalance(ys[p], carry, ds[p], carry', res, t);
  }

  /** Replacing digit d by res and carry by carry', one place up, adds p at this place. */
  lemma CarryBalance(p: int, carry: int, d: int, carry': int, res: int, t: int)
    requires p + carry + d == 10 * carry' + res
    ensures (res - d) * t + carry' * (10 * t) == p * t + carry * t
  {
    assert carry' * (10 * t) == (10 * carry') * t;
    assert (res - d) * t + (10 * carry') * t == (res - d + 10 * carry') * t;
    assert p * t + carry * t == (p + carry) * t;
  }

  // ----- multiplication -----

  lemma ProductIsSmall(x: int, y: int)
    requires 0 <= x <= 9 && 0 <= y <= 9
    ensures 0 <= x * y <= 81
  {
    MulMonotone(x, y, 9);
  }

  /**
   What the inner loop has done after u digits of row l: while it writes, the digits and the carry
   together hold start + m * 10^l * (the low u digits of x); past position 13 the digits stay put.
   */
  ghost predicate RowReached(value: int, carry: int, start: int, m: int, xs: seq<int>, l: nat, u: nat)
    requires |xs| == 14 && u <= 14
  {
    if l + u <= 14 then value + carry * Ten(l + u) == start + m * (Ten(l) * Low(xs, u))
    else value == (start + m * (Ten(l) * Value(xs))) % Ten(14)
  }

  lemma RowStart(start: int, m: int, xs: seq<int>, l: nat)
    requires |xs| == 14 && l < 14
    ensures RowReached(start, 0, start, m, xs, l, 0)
  {
    hide Ten;
    LowEnds(xs);
  }

  lemma ModStart(x: int, ms: seq<int>)
    requires |ms| == 14
    ensures x * Low(ms, 0) % Ten(14) == 0
  {
    assert x * 0 == 0;
  }

  lemma NextPartialProduct(m: int, tl: int, low: int, d: int, tu: int)
    ensures m * (tl * (low + d * tu)) == m * (tl * low) + m * d * (tl * tu)
  {
    assert tl * (low + d * tu) == tl * low + d * (tl * tu);
    assert m * (d * (tl * tu)) == m * d * (tl * tu);
  }

  /** A step that writes: the product digit goes into position l + u. */
  lemma WritingStep(ds: seq<int>, carry: int, res: int, carry': int, start: int, m: int, xs: seq<int>, l: nat, u: nat)
    requires |ds| == 14 == |xs| && u < 14 && l + u < 14
    requires m * xs[u] + carry + ds[l + u] == 10 * carry' + res
    requires Value(ds) + carry * Ten(l + u) == start + m * (Ten(l) * Low(xs, u))
    ensures Value(ds[l + u := res]) + carry' * Ten(l + u + 1) == start + m * (Ten(l) * Low(xs, u + 1))
  {
    hide Ten, High;
    var t := Ten(l + u);
    SetChangesHigh(ds, l + u, res, 0);
    TensMultiply(l, u);
    TenNext(l + u);
    NextPartialProduct(m, Ten(l), Low(xs, u), xs[u], Ten(u));
    CarryBalance(m * xs[u], carry, ds[l + u], carry', res, t);
  }

  /** When position 14 is reached the digits hold the row modulo 10^14. */
  lemma FullRow(value: int, carry: int, start: int, m: int, xs: seq<int>, l: nat, u: nat)
    requires |xs| == 14 && u <= 14 && l + u == 14 && 0 <= value < Ten(14)
    requires value + carry * Ten(14) == start + m * (Ten(l) * Low(xs, u))
    ensures value == (start + m * (Ten(l) * Value(xs))) % Ten(14)
  {
    hide Ten, Low, High;
    LowAndHigh(xs, u);
    TensMultiply(l, u);
    var t, h := Ten(14), High(xs, u);
    assert Ten(l) * (Low(xs, u) + Ten(u) * h) == Ten(l) * Low(xs, u) + t * h by {
      assert Ten(l) * (Ten(u) * h) == (Ten(l) * Ten(u)) * h;
    }
    assert m * (Ten(l) * Low(xs, u) + t * h) == m * (Ten(l) * Low(xs, u)) + t * (m * h);
    var k := carry + m * h;
    assert start + m * (Ten(l) * Value(xs)) == t * k + value by {
      assert carry * t + t * (m * h) == t * k;
    }
    RemainderIs(t * k + value, t, k, value);
  }

  lemma RemainderIs(x: int, m: nat, q: int, r: int)
    requires m > 0 && 0 <= r < m && x == m * q + r
    ensures x % m == r && x / m == q
  {
    QuotientIs(x, m, q);
  }

  lemma RowStep(ds: seq<int>, ds': seq<int>, carry: int, carry': int, res: int,
                start: int, m: int, xs: seq<int>, l: nat, u: nat)
    requires |ds| == 14 == |xs| && u < 14 && l < 14 && Decimal(ds)
    requires if l + u < 14
             then m * xs[u] + carry + ds[l + u] == 10 * carry' + res && ds' == ds[l + u := res]
             else ds' == ds
    requires RowReached(Value(ds), carry, start, m, xs, l, u)
    ensures RowReached(Value(ds'), carry', start, m, xs, l, u + 1)
  {
    hide Ten, Low, High;
    if l + u < 14 {
      WritingStep(ds, carry, res, carry', start, m, xs, l, u);
    } else if l + u == 14 {
      ValueIsBounded(ds);
      FullRow(Value(ds), carry, start, m, xs, l, u);
    }
  }

  /** A finished row adds its partial product, modulo 10^14. */
  lemma RowEnds(value: int, carry: int, start: int, m: int, xs: seq<int>, ms: seq<int>, l: nat)
    requires |xs| == 14 == |ms| && l < 14 && m == ms[l] && 0 <= value < Ten(14)
    requires RowReached(value, carry, start, m, xs, l, 14)
    requires start == Value(xs) * Low(ms, l) % Ten(14)
    ensures value == Value(xs) * Low(ms, l + 1) % Ten(14)
  {
    hide Ten, High;
    var x, t := Value(xs), Ten(14);
    if l == 0 {
      FullRow(value, carry, start, m, xs, l, 14);
    }
    assert value == (start + m * (Ten(l) * x)) % t;
    var a := x * Low(ms, l);
    assert x * Low(ms, l + 1) == a + m * (Ten(l) * x) by {
      assert x * (Low(ms, l) + m * Ten(l)) == x * Low(ms, l) + x * (m * Ten(l));
      assert x * (m * Ten(l)) == m * (Ten(l) * x);
    }
    ReduceSummand(a, m * (Ten(l) * x), t);
  }

  lemma ReduceSummand(a: int, b: int, t: nat)
    requires t > 0
    ensures (a % t + b) % t == (a + b) % t
  {
    var q, s := a / t, (a % t + b) / t;
    var r := (a % t + b) % t;
    assert a + b == t * (q + s) + r by {
      assert t * (q + s) == t * q + t * s;
    }
    RemainderIs(a + b, t, q + s, r);
  }

  // ----- division -----

  lemma QuotientDigit(d1: int, carry: int, divisor: nat)
    requires 0 <= carry < divisor && 10 * carry <= d1 <= 10 * carry + 9
    ensures 0 <= d1 / divisor <= 9 && d1 == d1 / divisor * divisor + d1 % divisor
  {
    if d1 / divisor >= 10 {
      MulMonotone(divisor, 10, d1 / divisor);
    }
  }

  /** The digits of x from position p upwards are divided. */
  ghost predicate DivReached(xs: seq<int>, ds: seq<int>, p: nat, carry: int, divisor: int)
    requires |xs| == 14 == |ds| && p <= 14
  {
    High(xs, p) == High(ds, p) * divisor + carry
  }

  lemma DivStart(xs: seq<int>, ds: seq<int>, divisor: int)
    requires |xs| == 14 == |ds|
    ensures DivReached(xs, ds, 14, 0, divisor)
  {
  }

  lemma DivStep(xs: seq<int>, ds: seq<int>, p: nat, carry: int, res: int, carry': int, divisor: int)
    requires |xs| == 14 == |ds| && p < 14
    requires xs[p] + 10 * carry == res * divisor + carry'
    requires DivReached(xs, ds, p + 1, carry, divisor)
    ensures DivReached(xs, ds[p := res], p, carry', divisor)
  {
    SetChangesHigh(ds, p, res, p + 1);
    var h := High(ds, p + 1);
    assert (res + 10 * h) * divisor == res * divisor + 10 * (h * divisor);
  }

  lemma DivEnds(xs: seq<int>, ds: seq<int>, carry: int, divisor: int)
    requires |xs| == 14 == |ds| && DivReached(xs, ds, 0, carry, divisor)
    ensures Value(xs) == Value(ds) * divisor + carry
  {
  }

  // ----- decimal digits of a long -----

  function DecimalDigit(n: nat, i: nat): (d: nat)
    ensures d <= 9
  {
    n / Ten(i) % 10
  }

  function DecimalDigits(n: nat): (ds: seq<int>)
    ensures |ds| == 14 && Decimal(ds)
  {
    seq(14, i requires 0 <= i => DecimalDigit(n, i))
  }

  /** What printing with the format %014ld gives. */
  function Padded(n: nat): (number: string)
    ensures |number| == 14
  {
    seq(14, j requires 0 <= j < 14 => ('0' as int + DecimalDigit(n, 13 - j)) as char)
  }

  /** `done` shifted-in digits of n, the first of them at position top - 1, and zeros above. */
  ghost function Shifted(n: nat, top: nat, done: nat): (ds: seq<int>)
    requires done <= top
    ensures |ds| == 7
  {
    seq(7, k requires 0 <= k => if k < done then DecimalDigit(n, top - done + k) else 0)
  }

  lemma NothingShifted(n: nat, top: nat)
    ensures WordDigits(0) == Shifted(n, top, 0)
  {
    forall k: nat | k < 7
      ensures GetNibble(0, k) == 0
    {
    }
  }

  lemma {:induction false} ShiftsOneMore(n: nat, top: nat, done: nat)
    requires done < top && done < 7
    ensures Shifted(n, top, done + 1) == [DecimalDigit(n, top - 1 - done)] + Shifted(n, top, done)[..6]
  {
    hide DecimalDigit;
  }

  lemma {:induction false} AllShifted(low: bv32, high: bv32, n: nat)
    requires WordDigits(low) == Shifted(n, 7, 7) && WordDigits(high) == Shifted(n, 14, 7)
    ensures DigitsOf(low, high) == DecimalDigits(n)
  {
    hide GetNibble, DecimalDigit, FromBits;
    forall i | 0 <= i < 14
      ensures GetDigit(i, low, high) == DecimalDigit(n, i)
    {
      var k := if i < 7 then i else i - 7;
      assert WordDigits(low)[k] == FromBits(GetNibble(low, k)) && WordDigits(high)[k] == FromBits(GetNibble(high, k));
    }
  }

  lemma DecimalDigitsSpell(n: nat)
    requires n < Ten(14)
    ensures Value(DecimalDigits(n)) == n
  {
    hide Ten, High;
    TenNext(0);
    HighOfDecimal(n, 0);
  }

  lemma {:induction false} HighOfDecimal(n: nat, k: nat)
    requires n < Ten(14) && k <= 14
    ensures High(DecimalDigits(n), k) == n / Ten(k)
    decreases 14 - k
  {
    hide Ten;
    if k < 14 {
      HighOfDecimal(n, k + 1);
      TenNext(k);
      DivideTwice(n, Ten(k), 10);
    } else {
      QuotientIs(n, Ten(14), 0);
    }
  }
}
