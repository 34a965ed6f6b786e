/** driver.c: numbering the insert files of an update set while its rows are generated. */
module Segments {
  import opened Division

  /** The first row of segment g when count rows are spread evenly over segs files. */
  function SegmentStart(count: nat, segs: nat, g: nat): (k: nat)
    requires segs > 0
  {
    g * (count / segs) + if g < count % segs then g else count % segs
  }

  predicate InSegment(count: nat, segs: nat, k: nat, g: nat)
    requires segs > 0
  {
    SegmentStart(count, segs, g) <= k < SegmentStart(count, segs, g + 1)
  }

  /** The segments are balanced: the first count mod segs of them have one row more. */
  lemma SegmentSize(count: nat, segs: nat, g: nat)
    requires segs > 0
    ensures SegmentStart(count, segs, g + 1) - SegmentStart(count, segs, g)
      == count / segs + if g < count % segs then 1 else 0
    ensures SegmentStart(count, segs, 0) == 0
  {
    var q := count / segs;
    assert (g + 1) * q == g * q + q;
  }

  /** All rows belong to the first segs segments. */
  lemma SegmentsCover(count: nat, segs: nat)
    requires segs > 0
    ensures SegmentStart(count, segs, segs) == count
  {
    assert count == segs * (count / segs) + count % segs;
  }

  lemma {:induction false} SegmentsIncrease(count: nat, segs: nat, g: nat, h: nat)
    requires segs > 0 && g <= h
    ensures SegmentStart(count, segs, g) <= SegmentStart(count, segs, h)
    decreases h - g
  {
    if g < h {
      SegmentSize(count, segs, g);
      SegmentsIncrease(count, segs, g + 1, h);
    }
  }

  /** Each row has a segment, one of the first segs ... */
  lemma SegmentExists(count: nat, segs: nat, k: nat) returns (g: nat)
    requires segs > 0 && k < count
    ensures g < segs && InSegment(count, segs, k, g)
  {
    hide SegmentStart;
    SegmentSize(count, segs, 0);
    SegmentsCover(count, segs);
    g := 0;
    while SegmentStart(count, segs, g + 1) <= k
      invariant g < segs && SegmentStart(count, segs, g) <= k
      decreases segs - g
    {
      g := g + 1;
    }
  }

  /** ... and only one. */
  lemma SegmentIsUnique(count: nat, segs: nat, k: nat, g: nat, h: nat)
    requires segs > 0 && k < count && InSegment(count, segs, k, g) && InSegment(count, segs, k, h)
    ensures g == h && g < segs
  {
    if g < h { SegmentsIncrease(count, segs, g + 1, h); }
    if h < g { SegmentsIncrease(count, segs, h + 1, g); }
    if g >= segs {
      SegmentsIncrease(count, segs, segs, g);
      SegmentsCover(count, segs);
    }
  }

  /** A row just past a segment opens the next one, which is not empty. */
  lemma NextSegmentOpens(count: nat, segs: nat, k: nat, g: nat)
    requires segs > 0 && k < count && k == SegmentStart(count, segs, g)
    ensures InSegment(count, segs, k, g)
  {
    SegmentSize(count, segs, g);
    if count < segs {
      FewRows(count, segs, g);
    } else {
      ManyRows(count, segs);
    }
    hide SegmentStart;
  }

  lemma FewRows(count: nat, segs: nat, g: nat)
    requires count < segs
    ensures count / segs == 0 && SegmentStart(count, segs, g) == if g < count then g else count
  {
    QuotientIs(count, segs, 0);
    assert g * 0 == 0;
  }

  lemma ManyRows(count: nat, segs: nat)
    requires 0 < segs <= count
    ensures count / segs >= 1
  {
    if count / segs <= 0 {
      MulMonotone(segs, count / segs, 0);
    }
  }

  /**
   Row k has number g in a run whose numbers start at g0. With fewer rows than segments each row opens
   one of its own; a run that starts beyond the filled segments skips the first.
   */
  predicate InSegmentFrom(count: nat, segs: nat, g0: nat, k: nat, g: nat)
    requires segs > 0
  {
    if count / segs == 0 then g == g0 + k + if g0 >= count % segs then 1 else 0
    else g0 <= g && SegmentStart(count, segs, g) <= SegmentStart(count, segs, g0) + k < SegmentStart(count, segs, g + 1)
  }

  /** In plain arithmetic: of the quotient and the remainder of count by segs. */
  lemma SegmentsAre(count: nat, segs: nat, g0: nat, k: nat, g: nat)
    requires segs > 0
    ensures var q, r := count / segs, count % segs;
      InSegment(count, segs, k, g) <==>
        g * q + (if g < r then g else r) <= k < (g + 1) * q + (if g + 1 < r then g + 1 else r)
    ensures var q, r := count / segs, count % segs;
      InSegmentFrom(count, segs, g0, k, g) <==>
        if count < segs then g == g0 + k + (if g0 >= count then 1 else 0)
        else g0 <= g && g * q + (if g < r then g else r) <= g0 * q + (if g0 < r then g0 else r) + k
             < (g + 1) * q + (if g + 1 < r then g + 1 else r)
  {
    if count < segs {
      FewRows(count, segs, g);
      assert count == segs * 0 + count % segs;
    } else {
      ManyRows(count, segs);
    }
  }

  /** A run that starts at 0 fills the segments as they are. */
  lemma StartsAtZero(count: nat, segs: nat, k: nat, g: nat)
    requires segs > 0 && k < count && InSegmentFrom(count, segs, 0, k, g)
    ensures InSegment(count, segs, k, g)
  {
    SegmentSize(count, segs, 0);
    if count < segs {
      FewRows(count, segs, g);
      FewRows(count, segs, g + 1);
      QuotientIs(count, segs, 0);
    } else {
      ManyRows(count, segs);
    }
    hide SegmentStart;
  }

  /** The counters after n rows. */
  predicate Counted(count: nat, segs: nat, g0: nat, n: nat, rowsThisSegment: int, g: nat)
    requires segs > 0
  {
    if n == 0 then g == g0 && rowsThisSegment == -1
    else
      && 0 <= rowsThisSegment
      && InSegmentFrom(count, segs, g0, n - 1, g)
      && if count / segs == 0 then rowsThisSegment == 0
         else SegmentStart(count, segs, g) + rowsThisSegment + 1 == SegmentStart(count, segs, g0) + n
  }

  /** Counting one more row; next tells whether the source opens a new file for it. */
  lemma CountedNext(count: nat, segs: nat, g0: nat, n: nat, rowsThisSegment: int, g: nat, next: bool)
    requires segs > 0 && Counted(count, segs, g0, n, rowsThisSegment, g)
    requires next == (rowsThisSegment + 1 >= count / segs + if g < count % segs then 1 else 0)
    ensures Counted(count, segs, g0, n + 1, if next then 0 else rowsThisSegment + 1, if next then g + 1 else g)
  {
    SegmentSize(count, segs, g);
    SegmentSize(count, segs, g + 1);
    SegmentSize(count, segs, g0);
    hide SegmentStart;
  }

  /**
   The loop of gen_tbl for ORDER_LINE: returns the update number that each row is written with. Its
   part above the low four decimal digits is the number of the insert file. A run that is no update,
   with number 0, is not split.
   */
  method InsertNumbers(insertSegments: nat, count: nat, updNum: nat) returns (numbers: seq<nat>)
    ensures |numbers| == count
    ensures insertSegments == 0 || updNum == 0 ==> forall k :: 0 <= k < count ==> numbers[k] == updNum
    ensures insertSegments > 0 && updNum > 0 ==> forall k :: 0 <= k < count ==>
      numbers[k] % 10000 == updNum % 10000
      && InSegmentFrom(count, insertSegments, updNum / 10000, k, numbers[k] / 10000)
    ensures insertSegments > 0 && 0 < updNum < 10000 ==> forall k :: 0 <= k < count ==>
      numbers[k] % 10000 == updNum && InSegment(count, insertSegments, k, numbers[k] / 10000)
  {
    hide SegmentStart, Counted, InSegmentFrom, InSegment;
    var rowsPerSegment, rowsThisSegment, residualRows := 0, -1, 0;
    if insertSegments != 0 {
      rowsPerSegment := count / insertSegments;
      residualRows := count - rowsPerSegment * insertSegments;
      assert count == insertSegments * (count / insertSegments) + count % insertSegments;
      assert residualRows == count % insertSegments;
      NothingCounted(count, insertSegments, updNum / 10000);
    }
    numbers := [];
    var upd, left := updNum, count;
    while left > 0
      invariant 0 <= left <= count && |numbers| == count - left && (upd > 0 <==> updNum > 0)
      invariant insertSegments == 0 || updNum == 0 ==> upd == updNum
      invariant insertSegments == 0 || updNum == 0 ==> forall k :: 0 <= k < |numbers| ==> numbers[k] == updNum
      invariant upd % 10000 == updNum % 10000
      invariant insertSegments > 0 && updNum > 0 ==> forall k :: 0 <= k < |numbers| ==>
        numbers[k] % 10000 == updNum % 10000
        && InSegmentFrom(count, insertSegments, updNum / 10000, k, numbers[k] / 10000)
      invariant insertSegments > 0 && updNum > 0 ==>
        Counted(count, insertSegments, updNum / 10000, |numbers|, rowsThisSegment, upd / 10000)
    {
      ghost var rows, g := rowsThisSegment, upd / 10000;
      if insertSegments != 0 && upd > 0 {
        rowsThisSegment := rowsThisSegment + 1;
        if upd / 10000 < residualRows {
          if rowsThisSegment > rowsPerSegment {
            rowsThisSegment := 0;
            upd := upd + 10000;
          }
        } else {
          if rowsThisSegment >= rowsPerSegment {
            rowsThisSegment := 0;
            upd := upd + 10000;
          }
        }
        CountedNext(count, insertSegments, updNum / 10000, |numbers|, rows, g, upd / 10000 != g);
        LastCounted(count, insertSegments, updNum / 10000, |numbers|, rowsThisSegment, upd / 10000);
      }
      numbers := numbers + [upd];
      left := left - 1;
    }
    if insertSegments > 0 && 0 < updNum < 10000 {
      forall k | 0 <= k < count
        ensures InSegment(count, insertSegments, k, numbers[k] / 10000)
      {
        StartsAtZero(count, insertSegments, k, numbers[k] / 10000);
      }
    }
  }

  lemma NothingCounted(count: nat, segs: nat, g0: nat)
    requires segs > 0
    ensures Counted(count, segs, g0, 0, -1, g0)
  {
  }

  lemma LastCounted(count: nat, segs: nat, g0: nat, k: nat, rowsThisSegment: int, g: nat)
    requires segs > 0 && Counted(count, segs, g0, k + 1, rowsThisSegment, g)
    ensures InSegmentFrom(count, segs, g0, k, g)
  {
  }
}
