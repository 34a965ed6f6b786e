/** Where set_state leaves the streams of a step, and where a serial run has them. */
module ParallelState {
  import opened Division
  import opened PowerCertificates
  import opened Rnd
  import opened SpeedSeed
  import opened Streams
  import A = Alignment
  import opened Skipping
  import opened Parallel

  /** The streams that row_stop pads after a row of table t. */
  predicate Covers(b: Build, t: int, i: nat)
  {
    var o := RowOptions(Form64, b, t);
    TableOf(i) == o.table || TableOf(i) == o.child
  }

  /** Streams of other tables that a printed row of table t also depends on. */
  predicate Borrows(b: Build, t: int, i: nat)
  {
    (t == LINE && (i == O_ODATE_SD || i == O_LCNT_SD))
    || (b.Ssbm? && t == LINE && (i == 38 || i == 40))   // order priority and customer
    || (b.Ssbm? && (t == SUPP || t == CUST) && i == 0)  // the city digit asks for stream 98
    || (b.Ssbm? && t == SUPP && i == 28)                // the telephone number of a customer
  }

  /**
   The streams a row of table t is made from, for a master together with its details; 5 is unused, 39 is
   drawn by no row, dates draw nothing.
   */
  predicate Feeds(b: Build, t: int, i: nat)
  {
    i <= MAX_STREAM && i != UNUSED_SD && i != HVAR_SD && !(b.Ssbm? && t == DATE)
    && (Covers(b, t, i) || Borrows(b, t, i))
  }

  /** Table by table: the streams that a row is made from. */
  lemma FeedsAre(b: Build, t: int, i: nat)
    requires Splittable(b, t)
    ensures Feeds(b, t, i) <==>
      if t == PART || t == PART_PSUPP then i <= 4 || i == 6 || i == 37 || (b.Tpch? && 7 <= i <= 9)
      else if t == PSUPP then 7 <= i <= 9
      else if t == SUPP then 32 <= i <= 36 || 44 <= i <= 47 || (b.Ssbm? && (i == 0 || i == 28))
      else if t == CUST then 26 <= i <= 31 || (b.Ssbm? && i == 0)
      else if t == LINE then 14 <= i <= 25 || i == 13 || i == 43 || (b.Ssbm? && (i == 38 || i == 40))
      else b.Tpch? && (10 <= i <= 25 || i == 38 || i == 40 || i == 43)
  {
  }

  /** And those that row_stop pads; the tables without a child also pad the unused stream 5. */
  lemma CoversAre(form: Form, b: Build, t: int, s: seq<Stream>, i: nat)
    requires Splittable(b, t) && HasLayout(s) && i <= MAX_STREAM
    ensures |s| == MAX_STREAM + 1
    ensures Covered(RowOptions(form, b, t), s[i]) <==>
      (if t == PART || t == PART_PSUPP then i <= 4 || i == 6 || i == 37 || (b.Tpch? && 7 <= i <= 9)
       else if t == PSUPP then 7 <= i <= 9
       else if t == SUPP then 32 <= i <= 36 || 44 <= i <= 47
       else if t == CUST then 26 <= i <= 31
       else if t == LINE then 14 <= i <= 25 || i == 39
       else 10 <= i <= 13 || i == 38 || i == 40 || i == 43 || (b.Tpch? && (14 <= i <= 25 || i == 39)))
      || (i == 5 && (b.Ssbm? || t == PSUPP || t == SUPP || t == CUST || t == LINE))
  {
  }

  /** How far a row moves such a stream: by its boundary, and in an SSBM part row once more, for stream 97. */
  function Pace(b: Build, t: int, i: nat): (m: nat)
  {
    BoundaryOf(i) + if b.Ssbm? && t == PART && i == 0 then 1 else 0
  }

  /** What a serial run of n rows moves a stream beyond what a round of set_state skips. */
  function Drift(form: Form, b: Build, t: int, n: nat, i: nat): (d: int)
  {
    n * Pace(b, t, i) - RoundSkip(form, b, t, n, i)
  }

  /** Whether set_state moves the stream at all. */
  predicate Skipped(b: Build, t: int, i: nat)
  {
    Covers(b, t, i) || (t == LINE && (i == O_ODATE_SD || i == O_LCNT_SD))
  }

  lemma RoundSkipIs(form: Form, b: Build, t: int, n: nat, i: nat)
    requires Splittable(b, t) && Feeds(b, t, i)
    ensures RoundSkip(form, b, t, n, i) == if Skipped(b, t, i) then Jumps(i) * Seen(form, n * PerJump(i)) else 0
  {
    hide Seen;
  }

  /** Table by table: how far one round of set_state moves each stream. */
  lemma RoundMoves(form: Form, b: Build, t: int, n: nat, i: nat)
    requires Splittable(b, t) && i <= MAX_STREAM
    ensures var long := if form.Form64? then n * BoundaryOf(i) else n * BoundaryOf(i) % 0x8000_0000;
      var short := if form.Form64? then n else n % 0x8000_0000;
      RoundSkip(form, b, t, n, i) ==
        if t == PART || t == PART_PSUPP then
          if i <= 4 || i == 6 || i == 37 || (b.Tpch? && i == 9) then long
          else if b.Tpch? && (i == 7 || i == 8) then 4 * short else 0
        else if t == PSUPP then
          if i == 7 || i == 8 then 4 * short else if i == 9 then long else 0
        else if t == SUPP then
          if 32 <= i <= 36 || 44 <= i <= 47 then long else 0
        else if t == CUST then
          if 26 <= i <= 31 then long else 0
        else if t == LINE then
          if 14 <= i <= 24 then 7 * short else if i == 25 then long else if i == 13 || i == 43 then short else 0
        else if b.Tpch? then
          if 10 <= i <= 13 || i == 38 || i == 40 || i == 43 || i == 25 then long
          else if 14 <= i <= 24 then 7 * short else 0
        else 0
  {
    if GenOf(b, t).Some? {
      SkipIs(form, GenOf(b, t).value, t == LINE, n, i);
    }
    if ChildOf(b, t) != NONE {
      SkipIs(form, GenOf(b, ChildOf(b, t)).value, false, n, i);
    }
    hide Skip, BoundaryOf;
  }

  /** The 32-bit form sees a jump of fewer than 2^31 steps as it is. */
  predicate Fits(form: Form, n: nat, i: nat)
  {
    form.Form64? || n * PerJump(i) < 0x8000_0000
  }

  /** Jumps that fit skip one boundary per row. */
  lemma FittingSkip(form: Form, b: Build, t: int, n: nat, i: nat)
    requires Splittable(b, t) && Feeds(b, t, i) && Fits(form, n, i)
    ensures RoundSkip(form, b, t, n, i) == if Skipped(b, t, i) then n * BoundaryOf(i) else 0
  {
    hide RoundSkip, Skipped, Feeds;
    RoundSkipIs(form, b, t, n, i);
    Regroup(Jumps(i), n, PerJump(i));
  }

  lemma Regroup(j: int, n: int, p: int)
    ensures j * (n * p) == n * (j * p)
  {
  }

  /** 2160, the comment of PARTSUPP, is the largest boundary; 994205 rows of it still fit in 31 bits. */
  lemma SmallSharesFit(form: Form, n: nat, i: nat)
    requires form.Form64? || n <= 994205
    ensures Fits(form, n, i)
  {
    assert PerJump(i) <= 2160;
    MulMonotone(n, PerJump(i), 2160);
  }

  /** Steps of an SSBM row that no routine skips. */
  function UnseenMoves(t: int, i: nat): (m: nat)
  {
    if i == 0 || (t == LINE && (i == 38 || i == 40)) then 1 else if t == SUPP && i == 28 then 3 else 0
  }

  /**
   With jumps that fit, a TPC-H stream never drifts; of the SSBM streams those drift that a row moves
   without set_state knowing: stream 0, and what suppliers borrow from CUST and lineorders from ORDER.
   */
  lemma DriftIs(form: Form, b: Build, t: int, n: nat, i: nat)
    requires Splittable(b, t) && Feeds(b, t, i) && Fits(form, n, i)
    ensures b.Tpch? ==> Drift(form, b, t, n, i) == 0
    ensures b.Ssbm? ==> Drift(form, b, t, n, i) == n * UnseenMoves(t, i)
  {
    hide RoundSkip;
    FittingSkip(form, b, t, n, i);
    var p := BoundaryOf(i);
    assert n * (p + 1) == n * p + n;
  }

  /**
   Drift up to full periods, for shares of any size: the moves nobody skips, and what the 32-bit form drops
   of each jump, 2^31 steps or 2 modulo the period at a time.
   */
  function Lag(form: Form, b: Build, t: int, n: nat, i: nat): (k: nat)
  {
    n * (if b.Ssbm? then UnseenMoves(t, i) else 0)
    + if form.Form32? && Skipped(b, t, i) then 2 * Jumps(i) * (n * PerJump(i) / 0x8000_0000) else 0
  }

  lemma DriftIsLag(form: Form, b: Build, t: int, n: nat, i: nat)
    requires Splittable(b, t) && Feeds(b, t, i)
    ensures Drift(form, b, t, n, i) % N == 0 <==> Lag(form, b, t, n, i) % N == 0
  {
    if Skipped(b, t, i) {
      DriftBeyondLag(form, b, t, n, i);
      var j, q := Jumps(i), if form.Form32? then n * PerJump(i) / 0x8000_0000 else 0;
      hide Drift, Lag;
      ModOfPeriod(Lag(form, b, t, n, i), j * q);
    } else {
      PaceIs(b, t, i);
      RoundSkipIs(form, b, t, n, i);
    }
  }

  lemma DriftBeyondLag(form: Form, b: Build, t: int, n: nat, i: nat)
    requires Splittable(b, t) && Feeds(b, t, i) && Skipped(b, t, i)
    ensures var q := if form.Form32? then n * PerJump(i) / 0x8000_0000 else 0;
      Drift(form, b, t, n, i) == Lag(form, b, t, n, i) + N * (Jumps(i) * q)
  {
    PaceIs(b, t, i);
    RoundSkipIs(form, b, t, n, i);
    hide RoundSkip, Skipped, Feeds, Pace, UnseenMoves, Jumps, PerJump, BoundaryOf, Seen;
    var u := if b.Ssbm? then UnseenMoves(t, i) else 0;
    var j, p := Jumps(i), PerJump(i);
    SeenIs(form, n * p);
    var q := if form.Form32? then n * p / 0x8000_0000 else 0;
    LostJumps(n, j, p, u, q, Seen(form, n * p));
    assert 2 * j * 0 == 0;
  }

  lemma PaceIs(b: Build, t: int, i: nat)
    requires Splittable(b, t) && Feeds(b, t, i)
    ensures var u := if b.Ssbm? then UnseenMoves(t, i) else 0;
      Pace(b, t, i) == u + if Skipped(b, t, i) then Jumps(i) * PerJump(i) else 0
  {
  }

  lemma SeenIs(form: Form, n: nat)
    ensures n == Seen(form, n) + if form.Form32? then 0x8000_0000 * (n / 0x8000_0000) else 0
  {
  }

  lemma LostJumps(n: int, j: int, p: int, u: int, q: int, seen: int)
    requires n * p == seen + 0x8000_0000 * q
    ensures n * (u + j * p) - j * seen == n * u + 2 * j * q + N * (j * q)
  {
    assert n * (u + j * p) == n * u + j * (n * p);
    assert j * (seen + 0x8000_0000 * q) == j * seen + 0x8000_0000 * (j * q);
  }

  ghost predicate NoLag(form: Form, b: Build, t: int, n: nat)
  {
    forall i: nat :: Feeds(b, t, i) ==> Lag(form, b, t, n, i) % N == 0
  }

  /** The longest jump per row over the streams of a TPC-H table, and the stream that makes it. */
  function LongestJump(t: int): (p: nat)
  {
    PerJump(LongestStream(t))
  }

  function LongestStream(t: int): (i: nat)
  {
    if t == PART || t == PSUPP || t == PART_PSUPP then 9 else if t == SUPP then 36
    else if t == CUST then 31 else 25
  }

  lemma LongestJumpIs(t: int)
    requires Splittable(Tpch, t)
    ensures LongestJump(t) == if t == PART || t == PSUPP || t == PART_PSUPP then 2160
                              else if t == SUPP then 297 else if t == CUST then 324 else 945
    ensures Feeds(Tpch, t, LongestStream(t)) && Jumps(LongestStream(t)) == 1
    ensures forall i: nat :: Feeds(Tpch, t, i) ==> PerJump(i) <= LongestJump(t)
  {
  }

  /** Of the TPC-H streams none lags in the 64-bit form; in the 32-bit form none does while the longest jump fits. */
  lemma TpchLag(form: Form, t: int, n: nat)
    requires Splittable(Tpch, t)
    ensures form.Form64? || n * LongestJump(t) < 0x8000_0000 ==> NoLag(form, Tpch, t, n)
    ensures n < 0x8000_0000 ==> (NoLag(form, Tpch, t, n) <==> form.Form64? || n * LongestJump(t) < 0x8000_0000)
  {
    hide Feeds, PerJump, Jumps, Skipped, LongestJump;
    LongestJumpIs(t);
    if form.Form64? || n * LongestJump(t) < 0x8000_0000 {
      forall i: nat | Feeds(Tpch, t, i)
        ensures Lag(form, Tpch, t, n, i) == 0
      {
        MulMonotone(n, PerJump(i), LongestJump(t));
        assert 2 * Jumps(i) * 0 == 0;
      }
    } else if n < 0x8000_0000 {
      LongJumpLags(form, t, n);
    }
  }

  lemma LongJumpLags(form: Form, t: int, n: nat)
    requires Splittable(Tpch, t) && form.Form32? && n < 0x8000_0000 <= n * LongestJump(t)
    ensures !NoLag(form, Tpch, t, n)
  {
    var i, p := LongestStream(t), LongestJump(t);
    assert Feeds(Tpch, t, i) && Jumps(i) == 1 && PerJump(i) == p && p <= 2160 && Skipped(Tpch, t, i);
    hide Feeds, PerJump, Jumps, Skipped, LongestJump, LongestStream;
    var q := n * p / 0x8000_0000;
    MulMonotone(n, p, 2160);
    assert 1 <= q <= 2160;
    assert Lag(form, Tpch, t, n, i) == 2 * q;
  }

  /** Some SSBM stream lags unless the shares are whole periods; below one period, unless they are empty. */
  lemma SsbmLag(form: Form, t: int, n: nat)
    requires Splittable(Ssbm, t) && t != DATE
    ensures form.Form64? ==> (NoLag(form, Ssbm, t, n) <==> n % N == 0)
    ensures n < N ==> (NoLag(form, Ssbm, t, n) <==> n == 0)
  {
    var i := if t == LINE then 40 else 0;
    assert Feeds(Ssbm, t, i) && UnseenMoves(t, i) == 1 && PerJump(i) == 1;
    hide Feeds, PerJump, Jumps, Skipped, UnseenMoves;
    if form.Form64? || n < N {
      assert n < N ==> n * 1 / 0x8000_0000 == 0;
      assert Lag(form, Ssbm, t, n, i) == n + if form.Form32? && Skipped(Ssbm, t, i) then 2 * Jumps(i) * 0 else 0;
      assert 2 * Jumps(i) * 0 == 0;
    }
    if n % N == 0 && (form.Form64? || n < N) {
      forall j: nat | Feeds(Ssbm, t, j)
        ensures Lag(form, Ssbm, t, n, j) % N == 0
      {
        WholePeriodsDoNotLag(form, t, n, j);
      }
    }
  }

  lemma WholePeriodsDoNotLag(form: Form, t: int, n: nat, j: nat)
    requires n % N == 0 && (form.Form64? || n < N)
    ensures Lag(form, Ssbm, t, n, j) % N == 0
  {
    hide PerJump, Jumps, Skipped, UnseenMoves, Lag;
    if form.Form64? {
      MultipleOfPeriod(n, UnseenMoves(t, j));
      LagOfForm64(t, n, j);
    } else {
      NoRowsNoLag(form, t, j);
    }
  }

  lemma LagOfForm64(t: int, n: nat, j: nat)
    ensures Lag(Form64, Ssbm, t, n, j) == UnseenMoves(t, j) * n
  {
    hide UnseenMoves;
  }

  lemma NoRowsNoLag(form: Form, t: int, j: nat)
    ensures Lag(form, Ssbm, t, 0, j) == 0
  {
    hide PerJump, Jumps, Skipped, UnseenMoves;
    assert 0 * PerJump(j) == 0 && 0 * UnseenMoves(t, j) == 0 && 2 * Jumps(j) * 0 == 0;
  }

  lemma MultipleOfPeriod(x: int, k: int)
    requires x % N == 0
    ensures k * x % N == 0
  {
    var q := x / N;
    assert x == N * q;
    assert k * (N * q) == N * (k * q);
    ModOfPeriod(0, k * q);
  }

  // ----- after set_state -----

  /** The table as set_state leaves it after a number of rounds. */
  ghost function AfterRounds(form: Form, b: Build, t: int, s: seq<Stream>, n: nat, rounds: nat): (r: seq<Stream>)
    requires HasLayout(s)
  {
    seq(|s|, i requires 0 <= i < |s| => assert HoldsSeed(s[i]); MovedStream(s[i], rounds * RoundSkip(form, b, t, n, i)))
  }

  lemma AfterRoundsIsMoved(form: Form, b: Build, t: int, s: seq<Stream>, n: nat, rounds: nat, after: seq<Stream>)
    requires MovedBy(s, RoundSkips(form, b, t, n, rounds), after)
    ensures after == AfterRounds(form, b, t, s, n, rounds)
  {
    hide MovedStream, RoundSkip;
  }

  lemma AfterRoundsKeepsLayout(form: Form, b: Build, t: int, s: seq<Stream>, n: nat, rounds: nat)
    requires HasLayout(s)
    ensures HasLayout(AfterRounds(form, b, t, s, n, rounds))
  {
    hide Shift, RoundSkip;
    var r := AfterRounds(form, b, t, s, n, rounds);
    forall i | 0 <= i < |r|
      ensures HoldsSeed(r[i]) && r[i].table == TableOf(i) && r[i].boundary == BoundaryOf(i)
    {
      assert HoldsSeed(s[i]);
    }
  }

  lemma LayoutTells(form: Form, b: Build, t: int, s: seq<Stream>, i: nat)
    requires HasLayout(s) && i <= MAX_STREAM
    ensures |s| == MAX_STREAM + 1 && HoldsSeed(s[i]) && s[i].boundary == BoundaryOf(i)
    ensures Covered(RowOptions(form, b, t), s[i]) == Covers(b, t, i)
  {
  }

  /** The stream i that a step starts with. */
  lemma StreamAfterRounds(form: Form, b: Build, t: int, s: seq<Stream>, n: nat, rounds: nat, i: nat)
    requires HasLayout(s) && i <= MAX_STREAM
    ensures |AfterRounds(form, b, t, s, n, rounds)| == MAX_STREAM + 1 && HoldsSeed(s[i])
    ensures AfterRounds(form, b, t, s, n, rounds)[i].value == Shift(s[i].value, rounds * RoundSkip(form, b, t, n, i))
  {
    hide Shift, RoundSkip;
    assert HoldsSeed(s[i]);
  }

  /**
   For every table, every stream and whatever rows a serial run has made: set_state gives a step the
   serial value if and only if the moves of the rows and the skips differ by full periods.
   */
  lemma StateEqualsSerial(form: Form, b: Build, t: int, s: seq<Stream>, n: nat, rounds: nat, rows: seq<A.Row>, i: nat)
    requires HasLayout(s) && i <= MAX_STREAM && A.Short(rows)
    ensures ValidTable(s)
    ensures A.AfterRows(RowOptions(form, b, t), s, rows)[i].value == AfterRounds(form, b, t, s, n, rounds)[i].value <==>
      (rounds * RoundSkip(form, b, t, n, i) - A.RunMoves(form, Covers(b, t, i), BoundaryOf(i), rows, i)) % N == 0
  {
    hide Shift, A.AfterRows, A.RunMoves, RoundSkip, BoundaryOf, TableOf, AfterRounds, HasLayout, ValidTable;
    hide Covers, Covered, RowOptions;
    LayoutIsValid(s);
    LayoutTells(form, b, t, s, i);
    StreamAfterRounds(form, b, t, s, n, rounds, i);
    A.RunMovesStream(RowOptions(form, b, t), s, rows, i);
    ShiftsAgree(s[i].value, A.RunMoves(form, Covers(b, t, i), BoundaryOf(i), rows, i),
                rounds * RoundSkip(form, b, t, n, i));
  }

  /** The same for rows that move the stream at its pace, as many as the earlier steps wrote. */
  lemma SteadyStreamDrifts(form: Form, b: Build, t: int, s: seq<Stream>, n: nat, rounds: nat, rows: seq<A.Row>, i: nat)
    requires HasLayout(s) && i <= MAX_STREAM && A.Short(rows) && |rows| == rounds * n
    requires forall k :: 0 <= k < |rows| ==>
      A.RowMoves(form, Covers(b, t, i), BoundaryOf(i), rows[k], i) == Pace(b, t, i)
    ensures ValidTable(s)
    ensures A.AfterRows(RowOptions(form, b, t), s, rows)[i].value == AfterRounds(form, b, t, s, n, rounds)[i].value <==>
      rounds * Drift(form, b, t, n, i) % N == 0
  {
    hide A.AfterRows, A.RunMoves, A.RowMoves, RoundSkip, BoundaryOf, TableOf, AfterRounds, HasLayout, Covers, Pace;
    StateEqualsSerial(form, b, t, s, n, rounds, rows, i);
    A.EqualMoves(form, Covers(b, t, i), BoundaryOf(i), rows, i, Pace(b, t, i));
    Distribute(rounds, n, Pace(b, t, i), RoundSkip(form, b, t, n, i));
    NegativeMultiple(rounds * Drift(form, b, t, n, i));
  }

  lemma Distribute(rounds: int, n: int, pace: int, skip: int)
    ensures rounds * n * pace - rounds * skip == rounds * (n * pace - skip)
  {
    assert rounds * n * pace == rounds * (n * pace);
  }

  lemma NegativeMultiple(x: int)
    ensures -x % N == 0 <==> x % N == 0
  {
  }

  /** A stream that is neither padded nor skipped agrees if and only if the rows drew full periods from it. */
  lemma ForeignStreamsDrift(form: Form, b: Build, t: int, s: seq<Stream>, n: nat, rounds: nat, rows: seq<A.Row>, i: nat)
    requires HasLayout(s) && i <= MAX_STREAM && A.Short(rows)
    requires !Covers(b, t, i) && RoundSkip(form, b, t, n, i) == 0
    ensures ValidTable(s)
    ensures A.AfterRows(RowOptions(form, b, t), s, rows)[i].value == AfterRounds(form, b, t, s, n, rounds)[i].value <==>
      TotalMoved(rows, i) % N == 0
  {
    hide A.AfterRows, A.Moved, RoundSkip, BoundaryOf, TableOf, AfterRounds, HasLayout, Covers;
    StateEqualsSerial(form, b, t, s, n, rounds, rows, i);
    TotalIsRunMoves(form, BoundaryOf(i), rows, i);
    NegativeMultiple(TotalMoved(rows, i));
  }

  function TotalMoved(rows: seq<A.Row>, i: nat): (n: nat)
  {
    if rows == [] then 0 else TotalMoved(rows[..|rows| - 1], i) + A.Moved(rows[|rows| - 1], i)
  }

  lemma {:induction false} TotalIsRunMoves(form: Form, boundary: int, rows: seq<A.Row>, i: nat)
    ensures A.RunMoves(form, false, boundary, rows, i) == TotalMoved(rows, i)
  {
    hide A.Moved, A.Counted;
    if rows != [] {
      TotalIsRunMoves(form, boundary, rows[..|rows| - 1], i);
    }
  }
}
