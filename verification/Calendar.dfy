/** bm_utils.c: dates written as YYDDD, and day offsets from 1992. */
module Calendar {

  const STARTDATE: int := 92001
  const ENDDATE: int := 98365
  const TOTDATE: int := 2557

  /** LEAP of dss.h; 100 stands for the year 2000 and counts as a common year. */
  function Leap(y: int): (l: int)
    ensures 0 <= l <= 1 && (l == 1 <==> y % 4 == 0 && y % 100 != 0)
  {
    if y % 4 == 0 && y % 100 != 0 then 1 else 0
  }

  function YearLength(y: int): (n: int)
    ensures 365 <= n <= 366
  {
    365 + Leap(y)
  }

  /** The dates that name a day. */
  predicate ValidDate(date: int)
  {
    date / 1000 >= STARTDATE / 1000 && 1 <= date % 1000 <= YearLength(date / 1000)
  }

  /** The date of day n of year y, running over into later years. */
  function DateOf(y: int, n: nat): (date: int)
    decreases n
  {
    if n < YearLength(y) then y * 1000 + 1 + n else DateOf(y + 1, n - YearLength(y))
  }

  /** The days in the years from y up to z - 1. */
  function DaysIn(y: int, z: int): (n: int)
    decreases z - y
  {
    if y >= z then 0 else DaysIn(y, z - 1) + YearLength(z - 1)
  }

  function OffsetOf(date: int): (n: int)
  {
    DaysIn(STARTDATE / 1000, date / 1000) + date % 1000 - 1
  }

  /** unjulian, for the dates it is called with: they are not negative. */
  method Unjulian(date: nat) returns (res: int)
    ensures res == OffsetOf(date)
  {
    res := 0;
    var i := STARTDATE / 1000;
    while i < date / 1000
      invariant STARTDATE / 1000 <= i
      invariant i <= date / 1000 || i == STARTDATE / 1000
      invariant res == DaysIn(STARTDATE / 1000, i)
    {
      res := res + 365 + Leap(i);
      i := i + 1;
    }
    res := res + date % 1000 - 1;
  }

  /** julian: a day count added to STARTDATE becomes a date. Earlier inputs come back as they are. */
  method Julian(date: int) returns (r: int)
    ensures r == if date < STARTDATE then date else DateOf(STARTDATE / 1000, date - STARTDATE)
  {
    var offset := date - STARTDATE;
    var result := STARTDATE;
    while true
      invariant result % 1000 == 1 && result > 0
      invariant date < STARTDATE ==> result == STARTDATE && offset == date - STARTDATE
      invariant date >= STARTDATE ==> offset >= 0
      invariant date >= STARTDATE ==>
        DateOf(result / 1000, offset) == DateOf(STARTDATE / 1000, date - STARTDATE)
      decreases offset
    {
      var yr := result / 1000;
      var yend := yr * 1000 + 365 + Leap(yr);
      if result + offset > yend {
        offset := offset - (yend - result + 1);
        result := result + 1000;
      } else {
        break;
      }
    }
    r := result + offset;
  }

  lemma {:induction false} DaysSplit(y: int, z: int)
    requires y < z
    ensures DaysIn(y, z) == YearLength(y) + DaysIn(y + 1, z)
    decreases z - y
  {
    if y + 1 < z {
      DaysSplit(y, z - 1);
    }
  }

  /** Every offset becomes a date that exists, and unjulian gives the offset back. */
  lemma {:induction false} DateOfOffset(y: int, n: nat)
    requires y >= 0
    ensures var date := DateOf(y, n);
      date / 1000 >= y && 1 <= date % 1000 <= YearLength(date / 1000)
      && DaysIn(y, date / 1000) + date % 1000 - 1 == n
    decreases n
  {
    if n >= YearLength(y) {
      DateOfOffset(y + 1, n - YearLength(y));
      DaysSplit(y, DateOf(y, n) / 1000);
    }
  }

  lemma UnjulianUndoesJulian(n: nat)
    ensures ValidDate(DateOf(STARTDATE / 1000, n))
    ensures OffsetOf(DateOf(STARTDATE / 1000, n)) == n
  {
    DateOfOffset(STARTDATE / 1000, n);
  }

  /** Two valid dates with the same offset are the same date. */
  lemma OffsetsAreDistinct(d: int, e: int)
    requires ValidDate(d) && ValidDate(e) && d < e
    ensures OffsetOf(d) < OffsetOf(e)
  {
    if d / 1000 < e / 1000 {
      DaysGrow(STARTDATE / 1000, d / 1000, e / 1000);
    }
  }

  lemma {:induction false} DaysGrow(y: int, a: int, b: int)
    requires y <= a < b
    ensures DaysIn(y, b) >= DaysIn(y, a) + YearLength(a)
    decreases b - a
  {
    if a + 1 < b {
      DaysGrow(y, a, b - 1);
    }
  }

  lemma {:induction false} DaysNotNegative(y: int, z: int)
    ensures DaysIn(y, z) >= 0
    decreases z - y
  {
    if y < z {
      DaysNotNegative(y, z - 1);
    }
  }

  /** julian undoes unjulian for the valid dates, and only for them. */
  lemma JulianUndoesUnjulian(date: nat)
    requires OffsetOf(date) >= 0
    ensures DateOf(STARTDATE / 1000, OffsetOf(date)) == date <==> ValidDate(date)
  {
    var back := DateOf(STARTDATE / 1000, OffsetOf(date));
    UnjulianUndoesJulian(OffsetOf(date));
    if ValidDate(date) {
      if back < date { OffsetsAreDistinct(back, date); }
      if date < back { OffsetsAreDistinct(date, back); }
    }
  }

  /** A valid date never has a negative offset. */
  lemma ValidDatesHaveOffsets(date: int)
    requires ValidDate(date)
    ensures OffsetOf(date) >= 0
  {
    DaysNotNegative(STARTDATE / 1000, date / 1000);
  }

  /** Later days get later dates. */
  lemma JulianIncreases(m: nat, n: nat)
    requires m < n
    ensures DateOf(STARTDATE / 1000, m) < DateOf(STARTDATE / 1000, n)
  {
    UnjulianUndoesJulian(m);
    UnjulianUndoesJulian(n);
    var d, e := DateOf(STARTDATE / 1000, m), DateOf(STARTDATE / 1000, n);
    if e < d { OffsetsAreDistinct(e, d); }
  }

  /** The TOTDATE days of dss.h run exactly from STARTDATE to ENDDATE. */
  lemma LastDayIsEndDate()
    ensures OffsetOf(ENDDATE) == TOTDATE - 1 && DateOf(STARTDATE / 1000, TOTDATE - 1) == ENDDATE
  {
    assert DaysIn(92, 95) == 1096;
    assert DaysIn(92, 98) == 2192;
    JulianUndoesUnjulian(ENDDATE);
  }

  /** The year 2000 is taken as a common one: its day 366 becomes the first of 2001. */
  lemma YearTwoThousandIsCommon()
    ensures DateOf(100, 364) == 100365 && DateOf(100, 365) == 101001
    ensures !ValidDate(100366)
  {
    assert DateOf(101, 0) == 101001;
  }
}
