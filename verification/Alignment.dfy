/**
 Whole rows, and runs of rows: whatever a row draws, row_stop leaves the streams of its table a fixed
 number of draws further on.
 */
module Alignment {
  import opened Modular
  import opened PowerCertificates
  import opened Rnd
  import opened SpeedSeed
  import opened Streams

  type Row = seq<Draw>

  // ----- counting draws -----

  function Moved(row: Row, i: nat): (n: nat)
  {
    if row == [] then 0
    else Moved(row[..|row| - 1], i) + if Target(row[|row| - 1].stream) == i then 1 else 0
  }

  function Counted(row: Row, i: nat): (n: nat)
    ensures n <= |row|
  {
    if row == [] then 0
    else Counted(row[..|row| - 1], i) + if row[|row| - 1].stream == i then 1 else 0
  }

  /** Draws on streams outside the table: they move stream 0 but nobody counts them. */
  function Stray(row: Row, i: nat): (n: int)
  {
    Moved(row, i) - Counted(row, i)
  }

  ghost predicate InTableOnly(row: Row)
  {
    forall k :: 0 <= k < |row| ==> InTable(row[k].stream)
  }

  lemma {:induction false} StrayOnlyOutside(row: Row, i: nat)
    requires i <= MAX_STREAM
    ensures Stray(row, i) >= 0
    ensures i != 0 || InTableOnly(row) ==> Stray(row, i) == 0
  {
    if row != [] {
      StrayOnlyOutside(row[..|row| - 1], i);
    }
  }

  /** The same draw, n times over. */
  function Repeated(d: Draw, n: nat): (row: Row)
    ensures |row| == n
  {
    seq(n, i => d)
  }

  lemma OneDrawMore(row: Row, d: Draw, i: nat)
    ensures Moved(row + [d], i) == Moved(row, i) + if Target(d.stream) == i then 1 else 0
    ensures Counted(row + [d], i) == Counted(row, i) + if d.stream == i then 1 else 0
  {
    assert (row + [d])[..|row|] == row;
  }

  lemma RepeatedNext(d: Draw, n: nat)
    ensures Repeated(d, n + 1) == Repeated(d, n) + [d]
  {
  }

  lemma NothingCounted(i: nat)
    ensures Moved([], i) == 0 && Counted([], i) == 0
  {
  }

  lemma {:induction false} RepeatedCounts(d: Draw, n: nat, i: nat)
    ensures Moved(Repeated(d, n), i) == if Target(d.stream) == i then n else 0
    ensures Counted(Repeated(d, n), i) == if d.stream == i then n else 0
  {
    hide Moved, Counted, Repeated;
    if n == 0 {
      assert Repeated(d, 0) == [];
      NothingCounted(i);
    } else {
      RepeatedCounts(d, n - 1, i);
      RepeatedNext(d, n - 1);
      OneDrawMore(Repeated(d, n - 1), d, i);
    }
  }

  /** The number of steps a row moves a stream that is covered by its row_stop or is not. */
  function RowMoves(form: Form, covered: bool, boundary: int, row: Row, i: nat): (m: int)
  {
    if !covered || (form.Form64? && Counted(row, i) > boundary) then Moved(row, i) else boundary + Stray(row, i)
  }

  /** The number of steps a run of rows moves it. */
  function RunMoves(form: Form, covered: bool, boundary: int, rows: seq<Row>, i: nat): (m: int)
  {
    if rows == [] then 0
    else RunMoves(form, covered, boundary, rows[..|rows| - 1], i)
         + RowMoves(form, covered, boundary, rows[|rows| - 1], i)
  }

  // ----- one row -----

  function Started(s: seq<Stream>): (r: seq<Stream>)
    requires ValidTable(s)
    ensures ValidTable(r)
  {
    seq(|s|, i requires 0 <= i < |s| => Fresh(s[i]))
  }

  function AfterDraws(s: seq<Stream>, row: Row): (r: seq<Stream>)
    requires ValidTable(s)
    ensures ValidTable(r)
  {
    if row == [] then s else AfterDraw(AfterDraws(s, row[..|row| - 1]), row[|row| - 1])
  }

  lemma {:induction false} DrawsMoveAndCount(s: seq<Stream>, row: Row, i: nat)
    requires ValidTable(s) && i <= MAX_STREAM
    ensures AfterDraws(s, row)[i]
      == s[i].(value := Shift(s[i].value, Moved(row, i)), usage := s[i].usage + Counted(row, i))
  {
    if row == [] {
      ShiftZero(s[i].value);
    } else {
      var rest, d := row[..|row| - 1], row[|row| - 1];
      DrawsMoveAndCount(s, rest, i);
      ShiftOne(Shift(s[i].value, Moved(rest, i)));
      ShiftsAdd(s[i].value, Moved(rest, i), 1);
    }
  }

  lemma ShiftOne(value: Seed)
    ensures Shift(value, 1) == NextRand(value)
  {
    ShiftIsIteration(value, 1);
    assert Iterate(value, 1) == NextRand(Iterate(value, 0));
  }

  /** The condition under which row_stop can serve every stream. */
  ghost predicate Stoppable(s: seq<Stream>)
  {
    |s| == MAX_STREAM + 1
    && forall i :: 0 <= i < |s| ==> HoldsSeed(s[i]) && 0 <= s[i].boundary < M && 0 <= s[i].usage < M
  }

  lemma {:induction false} DrawsAreStoppable(s: seq<Stream>, row: Row)
    requires ValidTable(s) && |row| < M
    ensures Stoppable(AfterDraws(Started(s), row))
  {
    var r := AfterDraws(Started(s), row);
    forall i | 0 <= i <= MAX_STREAM
      ensures HoldsSeed(r[i]) && 0 <= r[i].boundary < M && 0 <= r[i].usage < M
    {
      DrawsMoveAndCount(Started(s), row, i);
      assert HoldsSeed(r[i]);
    }
  }

  function StopAll(o: Options, s: seq<Stream>): (r: seq<Stream>)
    requires Stoppable(s)
    ensures ValidTable(r)
  {
    seq(|s|, i requires 0 <= i < |s| => Stopped(o, s[i]))
  }

  function AfterRow(o: Options, s: seq<Stream>, row: Row): (r: seq<Stream>)
    requires ValidTable(s) && |row| < M
    ensures ValidTable(r)
  {
    DrawsAreStoppable(s, row);
    StopAll(o, AfterDraws(Started(s), row))
  }

  method GenerateRow(o: Options, row: Row, seeds: array<Stream>)
    requires ValidTable(seeds[..]) && |row| < M
    modifies seeds
    ensures seeds[..] == AfterRow(o, old(seeds[..]), row)
  {
    ghost var s := seeds[..];
    RowStart(seeds);
    assert seeds[..] == Started(s);
    var k := 0;
    while k < |row|
      invariant 0 <= k <= |row|
      invariant seeds[..] == AfterDraws(Started(s), row[..k])
    {
      assert row[..k + 1][..k] == row[..k];
      var _ := DssRandom(row[k], seeds);
      k := k + 1;
    }
    assert row[..k] == row;
    ghost var drawn := seeds[..];
    DrawsAreStoppable(s, row);
    RowStop(o, seeds);
    assert forall i :: 0 <= i < seeds.Length ==> seeds[i] == Stopped(o, drawn[i]);
  }

  /** row_stop pads the stream, or rewinds it where the form can. */
  lemma StopShifts(o: Options, t: Stream)
    requires HoldsSeed(t) && 0 <= t.boundary < M && t.usage < M && t.usage >= 0 && Covered(o, t)
    requires !(o.setSeeds && t.usage > t.boundary)
    ensures Stopped(o, t) == t.(value :=
      if o.form.Form64? && t.usage > t.boundary then t.value else Shift(t.value, t.boundary - t.usage))
  {
    hide Shift;
    ShiftZero(t.value);
  }

  /** The same, for a stream that m moves and c counts have brought to t. */
  lemma StopShiftsFrom(o: Options, v: Seed, m: int, t: Stream)
    requires HoldsSeed(t) && 0 <= t.boundary < M && t.usage < M && t.usage >= 0 && Covered(o, t)
    requires !(o.setSeeds && t.usage > t.boundary) && t.value == Shift(v, m)
    ensures Stopped(o, t) == t.(value :=
      Shift(v, if o.form.Form64? && t.usage > t.boundary then m else t.boundary + m - t.usage))
  {
    hide Shift, Stopped, Advance;
    StopShifts(o, t);
    ShiftsAdd(v, m, t.boundary - t.usage);
  }

  /** The exact effect of a row on one stream of its table, with the boundaries fixed. */
  lemma RowMovesStream(o: Options, s: seq<Stream>, row: Row, i: nat)
    requires ValidTable(s) && |row| < M && i <= MAX_STREAM && Covered(o, s[i]) && !o.setSeeds
    ensures var moves := if o.form.Form64? && Counted(row, i) > s[i].boundary
                         then Moved(row, i) else s[i].boundary + Stray(row, i);
      var t := AfterRow(o, s, row)[i];
      t.table == s[i].table && t.boundary == s[i].boundary && t.value == Shift(s[i].value, moves)
  {
    hide Shift, Stopped, AfterRow, AfterDraws;
    var t := AfterDraws(Started(s), row)[i];
    DrawsMoveAndCount(Started(s), row, i);
    RowStopsStream(o, s, row, i);
    StopShiftsFrom(o, s[i].value, Moved(row, i), t);
  }

  lemma RowStopsStream(o: Options, s: seq<Stream>, row: Row, i: nat)
    requires ValidTable(s) && |row| < M && i <= MAX_STREAM
    ensures var t := AfterDraws(Started(s), row)[i];
      0 <= t.usage < M && 0 <= t.boundary < M && AfterRow(o, s, row)[i] == Stopped(o, t)
  {
    DrawsAreStoppable(s, row);
  }

  /** Streams of other tables keep whatever the row drew from them. */
  lemma RowLeavesOthers(o: Options, s: seq<Stream>, row: Row, i: nat)
    requires ValidTable(s) && |row| < M && i <= MAX_STREAM && !Covered(o, s[i])
    ensures var t := AfterRow(o, s, row)[i];
      t.table == s[i].table && t.boundary == s[i].boundary && t.value == Shift(s[i].value, Moved(row, i))
  {
    DrawsMoveAndCount(Started(s), row, i);
  }

  /** Both cases at once: the exact effect of a row on any stream. */
  lemma RowMovesAny(o: Options, s: seq<Stream>, row: Row, i: nat)
    requires ValidTable(s) && |row| < M && i <= MAX_STREAM && !o.setSeeds
    ensures var t := AfterRow(o, s, row)[i];
      t.table == s[i].table && t.boundary == s[i].boundary
      && t.value == Shift(s[i].value, RowMoves(o.form, Covered(o, s[i]), s[i].boundary, row, i))
  {
    hide Shift, AfterRow;
    if Covered(o, s[i]) {
      RowMovesStream(o, s, row, i);
    } else {
      RowLeavesOthers(o, s, row, i);
    }
  }

  /**
   A row leaves a covered stream exactly boundary draws on if and only if no uncounted draws moved it
   and, in the 64-bit form, it did not overdraw (up to full periods of the generator).
   */
  lemma RowIsAligned(o: Options, s: seq<Stream>, row: Row, i: nat)
    requires ValidTable(s) && |row| < M && i <= MAX_STREAM && Covered(o, s[i]) && !o.setSeeds
    ensures AfterRow(o, s, row)[i].value == Shift(s[i].value, s[i].boundary) <==>
      (if o.form.Form64? && Counted(row, i) > s[i].boundary
       then (Moved(row, i) - s[i].boundary) % N == 0 else Stray(row, i) % N == 0)
  {
    hide Shift, AfterRow;
    RowMovesStream(o, s, row, i);
    var moves := if o.form.Form64? && Counted(row, i) > s[i].boundary
                 then Moved(row, i) else s[i].boundary + Stray(row, i);
    ShiftsAgree(s[i].value, s[i].boundary, moves);
  }

  // ----- runs of rows -----

  ghost predicate Short(rows: seq<Row>)
  {
    forall k :: 0 <= k < |rows| ==> |rows[k]| < M
  }

  function AfterRows(o: Options, s: seq<Stream>, rows: seq<Row>): (r: seq<Stream>)
    requires ValidTable(s) && Short(rows)
    ensures ValidTable(r)
  {
    if rows == [] then s else AfterRow(o, AfterRows(o, s, rows[..|rows| - 1]), rows[|rows| - 1])
  }

  /** The exact effect of any run of rows on any stream, whatever the rows draw. */
  lemma {:induction false} RunMovesStream(o: Options, s: seq<Stream>, rows: seq<Row>, i: nat)
    requires ValidTable(s) && Short(rows) && i <= MAX_STREAM && !o.setSeeds
    ensures var t := AfterRows(o, s, rows)[i];
      t.table == s[i].table && t.boundary == s[i].boundary
      && t.value == Shift(s[i].value, RunMoves(o.form, Covered(o, s[i]), s[i].boundary, rows, i))
  {
    hide Shift, AfterRow, RowMoves;
    if rows == [] {
      ShiftZero(s[i].value);
    } else {
      var n, c, b := |rows| - 1, Covered(o, s[i]), s[i].boundary;
      RunMovesStream(o, s, rows[..n], i);
      RowMovesAny(o, AfterRows(o, s, rows[..n]), rows[n], i);
      ShiftsAdd(s[i].value, RunMoves(o.form, c, b, rows[..n], i), RowMoves(o.form, c, b, rows[n], i));
    }
  }

  /** A run is aligned on a covered stream if and only if its moves add up to the boundaries, up to full periods. */
  lemma RunIsAligned(o: Options, s: seq<Stream>, rows: seq<Row>, i: nat)
    requires ValidTable(s) && Short(rows) && i <= MAX_STREAM && Covered(o, s[i]) && !o.setSeeds
    ensures AfterRows(o, s, rows)[i].value == Shift(s[i].value, |rows| * s[i].boundary) <==>
      (RunMoves(o.form, true, s[i].boundary, rows, i) - |rows| * s[i].boundary) % N == 0
  {
    hide Shift, AfterRows, RunMoves;
    RunMovesStream(o, s, rows, i);
    ShiftsAgree(s[i].value, |rows| * s[i].boundary, RunMoves(o.form, true, s[i].boundary, rows, i));
  }

  /** Rows that each move a stream equally far. */
  lemma {:induction false} EqualMoves(form: Form, covered: bool, boundary: int, rows: seq<Row>, i: nat, m: int)
    requires forall k :: 0 <= k < |rows| ==> RowMoves(form, covered, boundary, rows[k], i) == m
    ensures RunMoves(form, covered, boundary, rows, i) == |rows| * m
  {
    hide RowMoves;
    if rows != [] {
      EqualMoves(form, covered, boundary, rows[..|rows| - 1], i, m);
      assert (|rows| - 1) * m + m == |rows| * m;
    }
  }

  /** No row draws stream i from outside the table or, in the 64-bit form, more often than allowed. */
  ghost predicate WithinBoundary(form: Form, rows: seq<Row>, i: nat, boundary: int)
  {
    forall k :: 0 <= k < |rows| ==>
      Stray(rows[k], i) == 0 && (form.Form64? ==> Counted(rows[k], i) <= boundary)
  }

  /** k rows leave every stream of their table k * boundary draws on, whatever they drew. */
  lemma RowsAreAligned(o: Options, s: seq<Stream>, rows: seq<Row>, i: nat)
    requires ValidTable(s) && Short(rows) && i <= MAX_STREAM && Covered(o, s[i]) && !o.setSeeds
    requires WithinBoundary(o.form, rows, i, s[i].boundary)
    ensures AfterRows(o, s, rows)[i].table == s[i].table && AfterRows(o, s, rows)[i].boundary == s[i].boundary
    ensures AfterRows(o, s, rows)[i].value == Shift(s[i].value, |rows| * s[i].boundary)
  {
    hide Shift, AfterRows, RunMoves;
    RunMovesStream(o, s, rows, i);
    EqualMoves(o.form, true, s[i].boundary, rows, i, s[i].boundary);
  }

  // ----- calibrating the boundaries -----

  function Max(x: int, y: int): int { if x < y then y else x }

  function MostCounted(rows: seq<Row>, i: nat, start: int): (n: int)
    ensures n >= start
    ensures forall k :: 0 <= k < |rows| ==> Counted(rows[k], i) <= n
  {
    if rows == [] then start
    else Max(MostCounted(rows[..|rows| - 1], i, start), Counted(rows[|rows| - 1], i))
  }

  /** That is the largest count, or the start if no row counts more. */
  lemma {:induction false} MostCountedIsReached(rows: seq<Row>, i: nat, start: int)
    ensures MostCounted(rows, i, start) == start
      || exists k :: 0 <= k < |rows| && MostCounted(rows, i, start) == Counted(rows[k], i)
  {
    hide Counted;
    if rows != [] {
      var n := |rows| - 1;
      MostCountedIsReached(rows[..n], i, start);
      if k :| 0 <= k < n && MostCounted(rows[..n], i, start) == Counted(rows[..n][k], i) {
        assert rows[..n][k] == rows[k];
      }
    }
  }

  /**
   With set_seeds on, a run raises each boundary to the largest count it saw, so that the same rows
   replayed with the boundaries fixed stay aligned, in either form.
   */
  lemma {:induction false} CalibrationFindsBoundary(o: Options, s: seq<Stream>, rows: seq<Row>, i: nat)
    requires ValidTable(s) && Short(rows) && i <= MAX_STREAM && Covered(o, s[i]) && o.setSeeds
    ensures AfterRows(o, s, rows)[i].table == s[i].table
    ensures AfterRows(o, s, rows)[i].boundary == MostCounted(rows, i, s[i].boundary)
  {
    if rows != [] {
      var n := |rows| - 1;
      CalibrationFindsBoundary(o, s, rows[..n], i);
      DrawsMoveAndCount(Started(AfterRows(o, s, rows[..n])), rows[n], i);
    }
  }

  /** During calibration a row leaves the stream at the new boundary, also when it overdrew. */
  lemma CalibratedRowIsAligned(o: Options, s: seq<Stream>, row: Row, i: nat)
    requires ValidTable(s) && |row| < M && i <= MAX_STREAM && Covered(o, s[i]) && o.setSeeds
    ensures var t := AfterRow(o, s, row)[i];
      t.boundary == Max(s[i].boundary, Counted(row, i))
      && t.value == Shift(s[i].value, t.boundary + Stray(row, i))
  {
    hide Shift, AfterRow, AfterDraws, Advance;
    var t := AfterDraws(Started(s), row)[i];
    DrawsMoveAndCount(Started(s), row, i);
    RowStopsStream(o, s, row, i);
    if Counted(row, i) <= s[i].boundary {
      StopShiftsFrom(o, s[i].value, Moved(row, i), t);
    }
  }

  /**
   The SSBM part row asks for stream 97, which is not in the table: UnifInt then draws from stream 0
   without counting, so the row leaves stream 0 one draw too far on.
   */
  lemma StrayDrawMisaligns(o: Options, s: seq<Stream>)
    requires ValidTable(s) && Covered(o, s[0]) && !o.setSeeds && s[0].boundary == 1
    ensures var row := [Draw(0, 1, 5), Draw(97, 1, 5)];
      AfterRow(o, s, row)[0].value != Shift(s[0].value, s[0].boundary)
  {
    var row := [Draw(0, 1, 5), Draw(97, 1, 5)];
    var first := [Draw(0, 1, 5)];
    assert row[..1] == first && first[..0] == [];
    assert Moved(row, 0) == 2 && Counted(row, 0) == 1;
    hide Moved, Counted, AfterRow, Shift;
    RowIsAligned(o, s, row, 0);
  }
}
