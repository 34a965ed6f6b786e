/** driver.c: whole runs of a table, with one process and with several, and when they write the same. */
module ParallelRuns {
  import opened Division
  import opened Modular
  import opened PowerCertificates
  import opened Rnd
  import opened SpeedSeed
  import opened Streams
  import A = Alignment
  import opened Skipping
  import opened Parallel
  import opened ParallelState
  import opened ParallelOutput
  import opened SsbmRows
  import T = TpchRows

  // ----- row counts -----

  /** The number of digits of the binary numeral of scale: floor(1 + log2(scale)). */
  function BitLength(scale: nat): (k: nat)
  {
    if scale == 0 then 0 else 1 + BitLength(scale / 2)
  }

  lemma {:induction false} BitLengthIsFloorOfLog(scale: nat)
    requires scale > 0
    ensures BitLength(scale) > 0 && Two(BitLength(scale) - 1) <= scale < Two(BitLength(scale))
  {
    if scale > 1 {
      BitLengthIsFloorOfLog(scale / 2);
    }
  }

  lemma {:induction false} TwosGrow(d: nat, e: nat)
    requires d <= e
    ensures Two(d) <= Two(e)
  {
    if d < e {
      TwosGrow(d, e - 1);
    }
  }

  /** The powers of two around a scale fix its bit length. */
  lemma BitLengthBetween(scale: nat, k: nat)
    requires Two(k) <= scale < Two(k + 1)
    ensures BitLength(scale) == k + 1
  {
    hide BitLength, Two;
    assert scale > 0;
    BitLengthIsFloorOfLog(scale);
    if BitLength(scale) <= k {
      TwosGrow(BitLength(scale), k);
    } else if BitLength(scale) > k + 1 {
      TwosGrow(k + 1, BitLength(scale) - 1);
    }
  }

  lemma {:induction false} BitLengthIsSmall(scale: nat)
    requires scale > 2
    ensures BitLength(scale) < scale
  {
    if scale > 5 {
      BitLengthIsSmall(scale / 2);
    } else {
      assert BitLength(2) == 2 && BitLength(1) == 1;
      assert BitLength(scale) == 1 + BitLength(scale / 2);
    }
  }

  /** The row count of a serial run in main: SSBM parts grow with the logarithm of the scale, dates do not grow. */
  function SerialRows(b: Build, t: int, base: nat, scale: nat): (n: nat)
  {
    if b.Ssbm? && t == PART then base * BitLength(scale) else if b.Ssbm? && t == DATE then base else base * scale
  }

  /** Serial and parallel runs write equally many rows, but for SSBM parts from scale 3 on and dates from 2 on. */
  lemma RowCountsAgree(b: Build, t: int, base: nat, scale: nat)
    requires scale > 0
    ensures SerialRows(b, t, base, scale) == base * scale <==>
      b.Tpch? || base == 0 || (t != PART && t != DATE) || scale == 1 || (t == PART && scale == 2)
  {
    if scale > 2 {
      BitLengthIsSmall(scale);
    }
    assert BitLength(1) == 1 && BitLength(2) == 2;
    if base > 0 {
      SameProduct(base, BitLength(scale), scale);
      SameProduct(base, 1, scale);
    }
  }

  lemma SameProduct(base: nat, x: nat, y: nat)
    requires base > 0
    ensures base * x == base * y <==> x == y
  {
    if x < y { MulMonotone(base, x + 1, y); }
    if y < x { MulMonotone(base, y + 1, x); }
  }

  /** The children together write what a serial run writes exactly if it has as many rows and none drifts. */
  lemma ChildrenEqualSerial(form: Form, b: Build, t: int, s0: seq<Stream>, build: Builder,
                            base: nat, scale: nat, procs: nat)
    requires HasLayout(s0) && procs > 0 && Steady(form, b, t, build)
    ensures ValidTable(s0) && ShortRows(build)
    ensures ChildrenWrite(form, b, t, s0, build, base * scale, procs, procs)
            == Written(form, b, t, s0, build, 1, SerialRows(b, t, base, scale)) <==>
      SerialRows(b, t, base, scale) == base * scale
      && (procs == 1 || NoDrift(form, b, t, base * scale / procs, 1))
  {
    hide HasLayout, Written, ValidTable, ShortRows, Steady, ChildrenWrite, NoDrift, NoneDrifts, SerialRows;
    SteadyIsShort(form, b, t, build);
    LayoutIsValid(s0);
    WritesSources(form, b, t, s0, build, 1, SerialRows(b, t, base, scale));
    ChildrenTile(form, b, t, s0, build, base * scale, procs, procs);
    SecondChildDecides(form, b, t, base * scale, procs);
  }

  // ----- runs of the program -----

  /** What main writes with one process. */
  ghost function SerialRun(form: Form, b: Build, t: int, s0: seq<Stream>, build: Builder,
                           base: nat, scale: nat): seq<Source>
    requires ValidTable(s0) && ShortRows(build)
  {
    Written(form, b, t, s0, build, 1, SerialRows(b, t, base, scale))
  }

  /** What it writes with several: nothing when set_state aborts them all. One process is a serial run. */
  ghost function ParallelRun(form: Form, b: Build, t: int, s0: seq<Stream>, build: Builder,
                             base: nat, scale: nat, procs: nat): Option<seq<Source>>
    requires HasLayout(s0) && ShortRows(build) && procs > 0
  {
    LayoutIsValid(s0);
    if procs == 1 then Some(SerialRun(form, b, t, s0, build, base, scale))
    else if scale / procs > 1000 then None
    else Some(ChildrenWrite(form, b, t, s0, build, base * scale, procs, procs))
  }

  /** pload: each child works on its own copy of the seeds, as it is at the fork. */
  method PLoad<T>(form: Form, b: Build, base: nat, t: int, scale: nat, children: nat, build: Builder,
                  record: Source -> T, seeds: array<Stream>) returns (out: Option<seq<T>>)
    requires Splittable(b, t) && 1 < children && 0 < scale
    requires HasLayout(seeds[..]) && ShortRows(build)
    ensures out.None? <==> scale / children > 1000
    ensures out.Some? ==>
      out.value == Printed(ChildrenWrite(form, b, t, seeds[..], build, base * scale, children, children), record)
  {
    hide HasLayout, ChildWrites, ShortRows, Printed;
    var all: seq<T> := [];
    PrintedTogether([], [], record);
    var c := 0;
    while c < children
      invariant 0 <= c <= children && (c > 0 ==> scale / children <= 1000)
      invariant all == Printed(ChildrenWrite(form, b, t, seeds[..], build, base * scale, children, c), record)
    {
      var mine := new Stream[seeds.Length](i requires 0 <= i < seeds.Length reads seeds => seeds[i]);
      assert mine[..] == seeds[..];
      var rows := Partial(form, b, base, t, scale, children, c + 1, build, record, mine);
      if rows.None? {
        return None;
      }
      PrintedTogether(ChildrenWrite(form, b, t, seeds[..], build, base * scale, children, c),
                      ChildWrites(form, b, t, seeds[..], build, base * scale, children, c + 1), record);
      all := all + rows.value;
      c := c + 1;
    }
    out := Some(all);
  }

  lemma PrintedTogether<T>(x: seq<Source>, y: seq<Source>, record: Source -> T)
    ensures Printed(x + y, record) == Printed(x, record) + Printed(y, record)
    ensures Printed([], record) == []
  {
  }

  /** The body of the loop over the tables in main. */
  method GenerateTable<T>(form: Form, b: Build, base: nat, t: int, scale: nat, children: nat, build: Builder,
                          record: Source -> T, seeds: array<Stream>) returns (out: Option<seq<T>>)
    requires Splittable(b, t) && 1 <= children && 0 < scale
    requires HasLayout(seeds[..]) && ShortRows(build)
    modifies seeds
    ensures var run := ParallelRun(form, b, t, old(seeds[..]), build, base, scale, children);
      out == if run.None? then None else Some(Printed(run.value, record))
    ensures out.None? <==> children > 1 && scale / children > 1000
    ensures out.Some? && (children > 1 || b.Tpch? || (t != PART && t != DATE)) ==> |out.value| == base * scale
    ensures children == 1 && b.Ssbm? && t == DATE ==> |out.value| == base
    ensures children == 1 && b.Ssbm? && t == PART ==>
      forall k: nat :: Two(k) <= scale < Two(k + 1) ==> |out.value| == base * (k + 1)
  {
    hide HasLayout, ChildrenWrite, ShortRows, Printed, Written, ValidTable, BitLength, Two;
    LayoutIsValid(seeds[..]);
    if children > 1 {
      ChildrenRowCount(form, b, t, seeds[..], build, base * scale, children, children);
      out := PLoad(form, b, base, t, scale, children, build, record, seeds);
    } else {
      forall k: nat | Two(k) <= scale < Two(k + 1)
        ensures BitLength(scale) == k + 1
      {
        BitLengthBetween(scale, k);
      }
      var rows, _ := GenTbl(form, b, t, 1, SerialRows(b, t, base, scale), build, record, seeds);
      out := Some(rows);
    }
  }

  /**
   A parallel run writes what a serial one writes, row for row and seed for seed, if and only if there is
   one process, or the scale per process does not overflow, the row counts agree, and the streams of the
   second child have drifted by full periods only.
   */
  lemma ParallelEqualsSerial(form: Form, b: Build, t: int, s0: seq<Stream>, build: Builder,
                             base: nat, scale: nat, procs: nat)
    requires HasLayout(s0) && procs > 0 && Steady(form, b, t, build) && Splittable(b, t)
    ensures ValidTable(s0) && ShortRows(build)
    ensures ParallelRun(form, b, t, s0, build, base, scale, procs)
            == Some(SerialRun(form, b, t, s0, build, base, scale)) <==>
      procs == 1 || (scale / procs <= 1000 && SerialRows(b, t, base, scale) == base * scale
                     && NoLag(form, b, t, base * scale / procs))
  {
    hide HasLayout, Written, ValidTable, ShortRows, Steady, ChildrenWrite, NoDrift, SerialRows, NoLag;
    ChildrenEqualSerial(form, b, t, s0, build, base, scale, procs);
    NoDriftIsNoLag(form, b, t, base * scale / procs);
  }

  lemma NoDriftIsNoLag(form: Form, b: Build, t: int, n: nat)
    requires Splittable(b, t)
    ensures NoDrift(form, b, t, n, 1) <==> NoLag(form, b, t, n)
  {
    hide Drift, Lag, Feeds;
    forall i: nat | Feeds(b, t, i)
      ensures 1 * Drift(form, b, t, n, i) % N == 0 <==> Lag(form, b, t, n, i) % N == 0
    {
      DriftIsLag(form, b, t, n, i);
    }
  }

  /** Then the printed rows are the same too, whatever is printed of a row. */
  lemma PrintedAlike<T>(form: Form, b: Build, t: int, s0: seq<Stream>, build: Builder,
                        base: nat, scale: nat, procs: nat, record: Source -> T)
    requires HasLayout(s0) && procs > 0 && Steady(form, b, t, build) && Splittable(b, t)
    requires procs == 1 || (scale / procs <= 1000 && SerialRows(b, t, base, scale) == base * scale
                            && NoLag(form, b, t, base * scale / procs))
    ensures ValidTable(s0) && ShortRows(build)
    ensures var run := ParallelRun(form, b, t, s0, build, base, scale, procs);
      run.Some? && Printed(run.value, record) == Printed(SerialRun(form, b, t, s0, build, base, scale), record)
  {
    hide HasLayout, ValidTable, ShortRows, Steady, ParallelRun, SerialRun, NoLag, SerialRows, Printed;
    ParallelEqualsSerial(form, b, t, s0, build, base, scale, procs);
  }

  /** TPC-H: only an overflow of the scale or, in the 32-bit form, jumps that are too long spoil the split. */
  lemma TpchEqualsSerial(form: Form, t: int, s0: seq<Stream>, build: Builder, base: nat, scale: nat, procs: nat)
    requires HasLayout(s0) && procs > 0 && Splittable(Tpch, t) && Steady(form, Tpch, t, build)
    ensures ValidTable(s0) && ShortRows(build)
    ensures var n := base * scale / procs;
      ParallelRun(form, Tpch, t, s0, build, base, scale, procs)
      == Some(SerialRun(form, Tpch, t, s0, build, base, scale)) <==>
        procs == 1 || (scale / procs <= 1000
                       && (form.Form64? || if n < 0x8000_0000 then n * LongestJump(t) < 0x8000_0000
                                           else NoLag(form, Tpch, t, n)))
  {
    hide HasLayout, ValidTable, ShortRows, Steady, ParallelRun, SerialRun, NoLag, LongestJump;
    ParallelEqualsSerial(form, Tpch, t, s0, build, base, scale, procs);
    RowCountsAgreeInTpch(t, base, scale);
    TpchLag(form, t, base * scale / procs);
  }

  lemma RowCountsAgreeInTpch(t: int, base: nat, scale: nat)
    ensures SerialRows(Tpch, t, base, scale) == base * scale
  {
  }

  /** The rows of the TPC-H routines are of that kind. */
  lemma TpchRowsAreSteady(form: Form, t: int, build: Builder)
    requires Splittable(Tpch, t) && forall k: int, v: seq<int> :: T.IsRow(t, build(k, v))
    ensures Steady(form, Tpch, t, build)
  {
    hide T.IsRow, SteadyRow;
    forall k: int, v: seq<int>
      ensures |build(k, v)| < M && SteadyRow(form, Tpch, t, build(k, v))
    {
      T.RowsAreShort(t, build(k, v));
      TpchRowIsSteady(form, t, build(k, v));
    }
  }

  lemma TpchRowIsSteady(form: Form, t: int, row: A.Row)
    requires Splittable(Tpch, t) && T.IsRow(t, row)
    ensures SteadyRow(form, Tpch, t, row)
  {
    hide T.IsRow, A.RowMoves, Feeds, Pace, Covers, BoundaryOf;
    forall i: nat | Feeds(Tpch, t, i)
      ensures A.RowMoves(form, Covers(Tpch, t, i), BoundaryOf(i), row, i) == Pace(Tpch, t, i)
    {
      T.RowsAreSteady(form, t, row, i);
    }
  }

  /** SSBM: several children never see the seeds of a serial run, but for empty shares or whole periods. */
  lemma SsbmEqualsSerial(form: Form, t: int, s0: seq<Stream>, build: Builder, base: nat, scale: nat, procs: nat)
    requires HasLayout(s0) && procs > 0 && Splittable(Ssbm, t) && t != DATE
    requires forall k: int, v: seq<int> :: IsRow(t, build(k, v))
    ensures ValidTable(s0) && ShortRows(build)
    ensures var n := base * scale / procs;
      ParallelRun(form, Ssbm, t, s0, build, base, scale, procs)
      == Some(SerialRun(form, Ssbm, t, s0, build, base, scale)) <==>
        procs == 1 || (scale / procs <= 1000 && SerialRows(Ssbm, t, base, scale) == base * scale
                       && if n < N then n == 0 else if form.Form64? then n % N == 0 else NoLag(form, Ssbm, t, n))
  {
    hide HasLayout, ValidTable, ShortRows, ParallelRun, SerialRun, SerialRows, IsRow, Steady, NoLag;
    SsbmRowsAreSteady(form, t, build);
    SteadyIsShort(form, Ssbm, t, build);
    ParallelEqualsSerial(form, Ssbm, t, s0, build, base, scale, procs);
    SsbmLag(form, t, base * scale / procs);
  }

  lemma SsbmRowsAreSteady(form: Form, t: int, build: Builder)
    requires forall k: int, v: seq<int> :: IsRow(t, build(k, v))
    ensures Steady(form, Ssbm, t, build)
  {
    hide IsRow, SteadyRow;
    forall k: int, v: seq<int>
      ensures |build(k, v)| < M && SteadyRow(form, Ssbm, t, build(k, v))
    {
      RowsAreShort(t, build(k, v));
      SsbmRowIsSteady(form, t, build(k, v));
    }
  }

  lemma SsbmRowIsSteady(form: Form, t: int, row: A.Row)
    requires IsRow(t, row)
    ensures SteadyRow(form, Ssbm, t, row)
  {
    hide IsRow, A.RowMoves, Feeds, Pace, Covers, BoundaryOf;
    forall i: nat | Feeds(Ssbm, t, i)
      ensures A.RowMoves(form, Covers(Ssbm, t, i), BoundaryOf(i), row, i) == Pace(Ssbm, t, i)
    {
      RowsAreSteady(form, t, row, i);
    }
  }

  /** The dates draw nothing, so only their number or an overflow can be wrong. */
  lemma DatesEqualSerial(form: Form, s0: seq<Stream>, build: Builder, base: nat, scale: nat, procs: nat)
    requires HasLayout(s0) && procs > 0 && scale > 0 && ShortRows(build)
    ensures ValidTable(s0)
    ensures ParallelRun(form, Ssbm, DATE, s0, build, base, scale, procs)
            == Some(SerialRun(form, Ssbm, DATE, s0, build, base, scale)) <==>
      procs == 1 || (scale / procs <= 1000 && (scale == 1 || base == 0))
  {
    hide HasLayout, ValidTable, ShortRows, ParallelRun, SerialRun, SerialRows;
    assert Steady(form, Ssbm, DATE, build) by {
      assert forall row :: SteadyRow(form, Ssbm, DATE, row);
    }
    ParallelEqualsSerial(form, Ssbm, DATE, s0, build, base, scale, procs);
    RowCountsAgree(Ssbm, DATE, base, scale);
  }

  // ----- instances -----

  /** Stream 0 of an SSBM part, supplier or customer run: each row moves it once more than set_state knows. */
  lemma SsbmStreamZero(form: Form, t: int, s: seq<Stream>, n: nat, rounds: nat, rows: seq<A.Row>)
    requires t == PART || t == SUPP || t == CUST
    requires HasLayout(s) && |rows| == rounds * n && forall k :: 0 <= k < |rows| ==> IsRow(t, rows[k])
    requires form.Form64? || n <= 994205
    ensures A.Short(rows) && ValidTable(s)
    ensures A.AfterRows(RowOptions(form, Ssbm, t), s, rows)[0].value
            == AfterRounds(form, Ssbm, t, s, n, rounds)[0].value <==>
      rounds * n % N == 0
  {
    hide IsRow, A.RowMoves, A.AfterRows, AfterRounds, HasLayout, RoundSkip;
    forall k | 0 <= k < |rows|
      ensures |rows[k]| < M
      ensures A.RowMoves(form, Covers(Ssbm, t, 0), BoundaryOf(0), rows[k], 0) == Pace(Ssbm, t, 0)
    {
      RowsAreShort(t, rows[k]);
      RowsAreSteady(form, t, rows[k], 0);
    }
    SteadyStreamDrifts(form, Ssbm, t, s, n, rounds, rows, 0);
    SmallSharesFit(form, n, 0);
    DriftIs(form, Ssbm, t, n, 0);
  }

  /**
   TPC-H with the 32-bit form: a million PARTSUPP rows per child are too many. After the rows of the
   first child a serial run has another comment seed than the one the second child starts with.
   */
  lemma MillionRowsAreTooMany(s: seq<Stream>, rows: seq<A.Row>)
    requires HasLayout(s) && A.Short(rows) && |rows| == 1_000_000
    requires forall k :: 0 <= k < |rows| ==> SteadyRow(Form32, Tpch, PART_PSUPP, rows[k])
    ensures ValidTable(s)
    ensures A.AfterRows(RowOptions(Form32, Tpch, PART_PSUPP), s, rows)[9].value
         != AfterRounds(Form32, Tpch, PART_PSUPP, s, 1_000_000, 1)[9].value
  {
    hide A.RowMoves, A.AfterRows, AfterRounds, HasLayout;
    assert Feeds(Tpch, PART_PSUPP, 9);
    SteadyStreamDrifts(Form32, Tpch, PART_PSUPP, s, 1_000_000, 1, rows, 9);
    MillionRowsDrift();
  }

  lemma MillionRowsDrift()
    ensures Drift(Form32, Tpch, PART_PSUPP, 1_000_000, 9) == 0x8000_0000
  {
    RoundSkipIs(Form32, Tpch, PART_PSUPP, 1_000_000, 9);
  }

  /** So with five times as many scale units as processes, parts are not those of a serial run. */
  lemma MillionRowsPerChild(s0: seq<Stream>, build: Builder, procs: nat)
    requires HasLayout(s0) && procs > 1 && Steady(Form32, Tpch, PART_PSUPP, build)
    ensures ValidTable(s0) && ShortRows(build)
    ensures ParallelRun(Form32, Tpch, PART_PSUPP, s0, build, 200_000, 5 * procs, procs)
         != Some(SerialRun(Form32, Tpch, PART_PSUPP, s0, build, 200_000, 5 * procs))
  {
    hide HasLayout, ValidTable, ShortRows, Steady, ParallelRun, SerialRun;
    assert 200_000 * (5 * procs) == procs * 1_000_000;
    DividesByQuotient(procs, 200_000 * (5 * procs), 1_000_000);
    TpchEqualsSerial(Form32, PART_PSUPP, s0, build, 200_000, 5 * procs, procs);
    LongestJumpIs(PART_PSUPP);
  }

  /** A scale above 1000 per process: a serial run works, and every child aborts. */
  lemma OverflowAborts(form: Form, t: int, s0: seq<Stream>, build: Builder)
    requires HasLayout(s0) && Splittable(Tpch, t) && ShortRows(build)
    ensures ParallelRun(form, Tpch, t, s0, build, 10_000, 2002, 2) == None
  {
  }

  /** The digit that gen_city appends to the name of a city, from stream 0 as the row finds it. */
  function CityDigit(seed: int): int
    requires 1 <= seed <= N
  {
    Scaled(NextRand(seed), 0, 9)
  }

  /**
   SSBM customers at scale 1 with two children, from the seed of rnd.h: the first city that the second
   child prints ends in 0, where a serial run prints 9.
   */
  lemma CityDigitDiffers(form: Form, s0: seq<Stream>)
    requires HasLayout(s0) && s0[0].value == 1
    ensures Feeds(Ssbm, CUST, 0)
    ensures var child := ViewAfter(Ssbm, CUST, AfterRounds(form, Ssbm, CUST, s0, 15_000, 1), 0);
      var serial := ViewAfter(Ssbm, CUST, s0, 15_000);
      && |child| == |serial| == MAX_STREAM + 1 && 1 <= child[0] <= N && 1 <= serial[0] <= N
      && CityDigit(child[0]) == 0 && CityDigit(serial[0]) == 9
  {
    hide Shift, NextRand, Scaled;
    AfterRoundsKeepsLayout(form, Ssbm, CUST, s0, 15_000, 1);
    StreamAfterRounds(form, Ssbm, CUST, s0, 15_000, 1, 0);
    assert RoundSkip(form, Ssbm, CUST, 15_000, 0) == 0;
    var s := AfterRounds(form, Ssbm, CUST, s0, 15_000, 1);
    LayoutTells(form, Ssbm, CUST, s, 0);
    ShiftZero(1);
    ShiftZero(s[0].value);
    DigitOfOne();
    DigitAfterRows();
  }

  lemma DigitOfOne()
    ensures CityDigit(1) == 0
  {
    assert NextRand(1) == 16807;
  }

  lemma DigitAfterRows()
    ensures CityDigit(Shift(1, 15_000)) == 9
  {
    hide Shift, Pow, Scaled, Iterate, Mul;
    var n := CertificateCity();
    ShiftIsIteration(1, 15_000);
    ShiftIsIteration(1, 15_001);
    ShiftIsPower(1, 15_001);
    IterateNext(1, 15_000);
    MulOne(Pow(Modular.A, 15_001));
    DigitOf(2007685235);
  }

  lemma IterateNext(seed: Seed, n: nat)
    ensures Iterate(seed, n + 1) == NextRand(Iterate(seed, n))
  {
  }

  lemma DigitOf(value: Seed)
    requires value == 2007685235
    ensures Scaled(value, 0, 9) == 9
  {
  }
}
