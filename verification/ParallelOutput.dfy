/** bm_utils.c and driver.c: what the children of a table write together, and what one run writes. */
module ParallelOutput {
  import opened Modular
  import opened PowerCertificates
  import opened Rnd
  import opened SpeedSeed
  import opened Streams
  import A = Alignment
  import opened Skipping
  import opened Parallel
  import opened ParallelState

  // ----- rows and what they are made from -----

  /** All seed values. */
  function Values(s: seq<Stream>): (v: seq<int>)
    ensures |v| == |s|
  {
    seq(|s|, i requires 0 <= i < |s| => s[i].value)
  }

  /** Those that a row of table t is printed from. */
  function View(b: Build, t: int, s: seq<Stream>): (v: seq<int>)
    ensures |v| == |s|
  {
    seq(|s|, i requires 0 <= i < |s| => if Feeds(b, t, i) then s[i].value else 0)
  }

  /** The draws may depend on every seed, the row on those that feed its table. */
  lemma ViewsAre(b: Build, t: int, s: seq<Stream>)
    ensures forall i :: 0 <= i < |s| ==> Values(s)[i] == s[i].value
    ensures forall i: nat :: i < |s| ==> View(b, t, s)[i] == if Feeds(b, t, i) then s[i].value else 0
  {
    hide Feeds;
  }

  /** The draws of row number k, which may depend on every seed; any deterministic mk_* routine is of this kind. */
  type Builder = (int, seq<int>) -> A.Row

  ghost predicate ShortRows(build: Builder)
  {
    forall k: int, v: seq<int> :: |build(k, v)| < M
  }

  /** A row moves every stream it is printed from at that stream's pace. */
  ghost predicate SteadyRow(form: Form, b: Build, t: int, row: A.Row)
  {
    forall i: nat :: Feeds(b, t, i) ==> A.RowMoves(form, Covers(b, t, i), BoundaryOf(i), row, i) == Pace(b, t, i)
  }

  ghost predicate Steady(form: Form, b: Build, t: int, build: Builder)
  {
    ShortRows(build) && forall k: int, v: seq<int> :: SteadyRow(form, b, t, build(k, v))
  }

  /** What a row is printed from: its number and the seeds it sees. */
  type Source = (int, seq<int>)

  /** The sources of the rows that gen_tbl writes, starting from the table s. */
  ghost function Written(form: Form, b: Build, t: int, s: seq<Stream>, build: Builder,
                         first: int, count: nat): (out: seq<Source>)
    requires ValidTable(s) && ShortRows(build)
    ensures |out| == count
    decreases count
  {
    if count == 0 then [] else
      [(first, View(b, t, s))]
      + Written(form, b, t, A.AfterRow(RowOptions(form, b, t), s, build(first, Values(s))), build, first + 1, count - 1)
  }

  /** The printed rows. */
  function Printed<T>(sources: seq<Source>, record: Source -> T): (out: seq<T>)
    ensures |out| == |sources| && forall j :: 0 <= j < |out| ==> out[j] == record(sources[j])
  {
    seq(|sources|, j requires 0 <= j < |sources| => record(sources[j]))
  }

  /** Row number k of table t takes one seed table to the next. */
  ghost predicate NextTable(form: Form, b: Build, t: int, build: Builder, k: int, s: seq<Stream>, next: seq<Stream>)
    requires ShortRows(build)
  {
    ValidTable(s) && next == A.AfterRow(RowOptions(form, b, t), s, build(k, Values(s)))
  }

  /** gen_tbl: the rows are numbered from start, and each is printed from the seed table that the last one left. */
  method GenTbl<T>(form: Form, b: Build, t: int, start: int, count: nat, build: Builder,
                   record: Source -> T, seeds: array<Stream>) returns (out: seq<T>, ghost tables: seq<seq<Stream>>)
    requires ValidTable(seeds[..]) && ShortRows(build)
    modifies seeds
    ensures out == Printed(Written(form, b, t, old(seeds[..]), build, start, count), record)
    ensures |tables| == count + 1 && tables[0] == old(seeds[..]) && tables[count] == seeds[..]
    ensures |out| == count && forall j :: 0 <= j < count ==>
      out[j] == record((start + j, View(b, t, tables[j])))
      && NextTable(form, b, t, build, start + j, tables[j], tables[j + 1])
  {
    hide A.AfterRow, View, Values, ShortRows, ValidTable, Written, Printed, NextTable;
    ghost var written: seq<Source> := [];
    out, tables := [], [seeds[..]];
    var i, left := start, count;
    while left > 0
      invariant left >= 0 && i == start + count - left && ValidTable(seeds[..])
      invariant out == Printed(written, record)
      invariant |tables| == count - left + 1 && tables[0] == old(seeds[..]) && tables[count - left] == seeds[..]
      invariant |out| == count - left && forall j :: 0 <= j < |out| ==>
        out[j] == record((start + j, View(b, t, tables[j])))
        && NextTable(form, b, t, build, start + j, tables[j], tables[j + 1])
      invariant written + Written(form, b, t, seeds[..], build, i, left)
        == Written(form, b, t, old(seeds[..]), build, start, count)
    {
      ghost var s, before := seeds[..], written;
      var v, all := View(b, t, seeds[..]), Values(seeds[..]);
      RowIsShort(build, i, all);
      WrittenNext(form, b, t, s, build, i, left);
      A.GenerateRow(RowOptions(form, b, t), build(i, all), seeds);
      assert NextTable(form, b, t, build, i, s, seeds[..]) by { TableFollows(form, b, t, build, i, s); }
      tables := tables + [seeds[..]];
      out := out + [record((i, v))];
      written := written + [(i, v)];
      PrintedNext(before, (i, v), record);
      i, left := i + 1, left - 1;
      Regroup(before, (i - 1, v), Written(form, b, t, seeds[..], build, i, left));
    }
    assert written == written + Written(form, b, t, seeds[..], build, i, left);
  }

  lemma TableFollows(form: Form, b: Build, t: int, build: Builder, k: int, s: seq<Stream>)
    requires ShortRows(build) && ValidTable(s)
    ensures |build(k, Values(s))| < M
    ensures NextTable(form, b, t, build, k, s, A.AfterRow(RowOptions(form, b, t), s, build(k, Values(s))))
  {
    hide A.AfterRow, ValidTable;
  }

  lemma Regroup<T>(x: seq<T>, y: T, z: seq<T>)
    ensures x + ([y] + z) == (x + [y]) + z
  {
  }

  lemma PrintedNext<T>(sources: seq<Source>, source: Source, record: Source -> T)
    ensures Printed(sources + [source], record) == Printed(sources, record) + [record(source)]
  {
  }

  lemma RowIsShort(build: Builder, k: int, v: seq<int>)
    requires ShortRows(build)
    ensures |build(k, v)| < M
  {
  }

  lemma {:induction false} WrittenNext(form: Form, b: Build, t: int, s: seq<Stream>, build: Builder,
                                       first: int, count: nat)
    requires ValidTable(s) && ShortRows(build) && count > 0
    ensures Written(form, b, t, s, build, first, count)
      == [(first, View(b, t, s))]
         + Written(form, b, t, A.AfterRow(RowOptions(form, b, t), s, build(first, Values(s))), build,
                   first + 1, count - 1)
  {
  }

  // ----- steady rows -----

  /** The view after k steady rows. */
  ghost function ViewAfter(b: Build, t: int, s: seq<Stream>, k: int): (v: seq<int>)
    requires HasLayout(s)
  {
    seq(|s|, i requires 0 <= i < |s| =>
      assert HoldsSeed(s[i]); if Feeds(b, t, i) then Shift(s[i].value, k * Pace(b, t, i)) else 0)
  }

  /** One steady row keeps the layout and moves every stream that is seen by its pace. */
  lemma {:induction false} RowMovesStreams(form: Form, b: Build, t: int, s: seq<Stream>, row: A.Row, i: nat)
    requires HasLayout(s) && |row| < M && SteadyRow(form, b, t, row) && i <= MAX_STREAM
    ensures ValidTable(s)
    ensures var r := A.AfterRow(RowOptions(form, b, t), s, row)[i];
      && HoldsSeed(s[i]) && HoldsSeed(r) && r.table == TableOf(i) && r.boundary == BoundaryOf(i)
      && (Feeds(b, t, i) ==> r.value == Shift(s[i].value, Pace(b, t, i)))
  {
    hide A.AfterRow, A.RowMoves, Shift, BoundaryOf, TableOf, Covers, Covered, RowOptions, Pace, Feeds;
    LayoutIsValid(s);
    LayoutTells(form, b, t, s, i);
    A.RowMovesAny(RowOptions(form, b, t), s, row, i);
    assert HoldsSeed(A.AfterRow(RowOptions(form, b, t), s, row)[i]);
  }

  /** One steady row moves the view one row on. */
  lemma {:induction false} RowMovesView(form: Form, b: Build, t: int, s: seq<Stream>, row: A.Row, k: nat)
    requires HasLayout(s) && |row| < M && SteadyRow(form, b, t, row)
    ensures ValidTable(s)
    ensures var r := A.AfterRow(RowOptions(form, b, t), s, row);
      HasLayout(r) && ViewAfter(b, t, r, k) == ViewAfter(b, t, s, k + 1)
  {
    hide A.AfterRow, Shift, BoundaryOf, TableOf, Feeds, SteadyRow, Pace, RowOptions;
    LayoutIsValid(s);
    var r := A.AfterRow(RowOptions(form, b, t), s, row);
    forall i: nat | i <= MAX_STREAM
      ensures HoldsSeed(s[i]) && HoldsSeed(r[i]) && r[i].table == TableOf(i) && r[i].boundary == BoundaryOf(i)
      ensures Feeds(b, t, i) ==>
        Shift(r[i].value, k * Pace(b, t, i)) == Shift(s[i].value, (k + 1) * Pace(b, t, i))
    {
      RowMovesStreams(form, b, t, s, row, i);
      if Feeds(b, t, i) {
        OneMoreStep(s[i].value, r[i].value, k, Pace(b, t, i));
      }
    }
  }

  lemma OneMoreStep(start: Seed, next: Seed, k: nat, pace: nat)
    requires next == Shift(start, pace)
    ensures Shift(next, k * pace) == Shift(start, (k + 1) * pace)
  {
    hide Shift;
    ShiftsAdd(start, pace, k * pace);
    assert pace + k * pace == (k + 1) * pace;
  }

  lemma ViewAtStart(b: Build, t: int, s: seq<Stream>)
    requires HasLayout(s)
    ensures View(b, t, s) == ViewAfter(b, t, s, 0)
  {
    hide Shift, BoundaryOf, Feeds, Pace;
    forall i: nat | i <= MAX_STREAM
      ensures HoldsSeed(s[i]) && Shift(s[i].value, 0 * Pace(b, t, i)) == s[i].value
    {
      assert HoldsSeed(s[i]);
      ShiftZero(s[i].value);
    }
  }

  /** The sources of count rows, in terms of the first table alone. */
  ghost function Sources(b: Build, t: int, s: seq<Stream>, first: int, count: nat): (out: seq<Source>)
    requires HasLayout(s)
    ensures |out| == count
  {
    seq(count, j requires 0 <= j && HasLayout(s) => (first + j, ViewAfter(b, t, s, j)))
  }

  lemma {:induction false} WritesSources(form: Form, b: Build, t: int, s: seq<Stream>, build: Builder,
                                         first: int, count: nat)
    requires HasLayout(s) && Steady(form, b, t, build)
    ensures ValidTable(s)
    ensures Written(form, b, t, s, build, first, count) == Sources(b, t, s, first, count)
    decreases count
  {
    hide A.AfterRow, View, Values, ViewAfter, RowOptions, SteadyRow, HasLayout;
    LayoutIsValid(s);
    if count > 0 {
      var row := build(first, Values(s));
      var r := A.AfterRow(RowOptions(form, b, t), s, row);
      ViewAtStart(b, t, s);
      RowMovesView(form, b, t, s, row, 0);
      WritesSources(form, b, t, r, build, first + 1, count - 1);
      forall k: nat
        ensures ViewAfter(b, t, r, k) == ViewAfter(b, t, s, k + 1)
      {
        RowMovesView(form, b, t, s, row, k);
      }
      assert Sources(b, t, s, first, count)
        == [(first, ViewAfter(b, t, s, 0))] + Sources(b, t, r, first + 1, count - 1);
    }
  }

  // ----- one child -----

  /** The rows one child writes: the last one also takes the remainder. */
  function ChildRows(total: nat, procs: nat, step: nat): (count: nat)
    requires procs > 0
  {
    total / procs + if step == procs then total % procs else 0
  }

  /** What child number step writes: gen_tbl from the state that set_state has left. */
  ghost function ChildWrites(form: Form, b: Build, t: int, s0: seq<Stream>, build: Builder,
                             total: nat, procs: nat, step: nat): (out: seq<Source>)
    requires HasLayout(s0) && ShortRows(build) && 1 <= step <= procs
    ensures |out| == ChildRows(total, procs, step)
  {
    var n := total / procs;
    AfterRoundsKeepsLayout(form, b, t, s0, n, step - 1);
    LayoutIsValid(AfterRounds(form, b, t, s0, n, step - 1));
    Written(form, b, t, AfterRounds(form, b, t, s0, n, step - 1), build,
            n * (step - 1) + 1, ChildRows(total, procs, step))
  }

  /** partial: position the streams, then generate this step's rows. Step 0 writes nothing. */
  method Partial<T>(form: Form, b: Build, base: nat, t: int, scale: nat, children: nat, s: nat, build: Builder,
                    record: Source -> T, seeds: array<Stream>) returns (out: Option<seq<T>>)
    requires Splittable(b, t) && 1 <= children && s <= children && 0 < scale
    requires HasLayout(seeds[..]) && ShortRows(build)
    modifies seeds
    ensures out.None? <==> s > 0 && scale / children > 1000
    ensures s == 0 ==> out == Some([])
    ensures s > 0 && out.Some? ==>
      out.value == Printed(ChildWrites(form, b, t, old(seeds[..]), build, base * scale, children, s), record)
    ensures s > 0 && out.Some? ==>
      |out.value| == base * scale / children + if s == children then base * scale % children else 0
  {
    hide MovedBy, HasLayout, RoundSkips, AfterRounds, Written, ShortRows, Printed;
    ghost var s0 := seeds[..];
    if s > 0 {
      LayoutIsValid(s0);
    }
    var r := SetState(form, b, base, t, scale, children, s, seeds);
    if r.ScaleOverflow? {
      return None;
    }
    if r.NothingToDo? {
      return Some([]);
    }
    AfterRoundsIsMoved(form, b, t, s0, r.rowcount, s - 1, seeds[..]);
    AfterRoundsKeepsLayout(form, b, t, s0, r.rowcount, s - 1);
    LayoutIsValid(seeds[..]);
    var count := if s == children then r.rowcount + r.extra else r.rowcount;
    var rows, _ := GenTbl(form, b, t, r.rowcount * (s - 1) + 1, count, build, record, seeds);
    out := Some(rows);
  }

  /** The condition under which a step sees the seeds of the serial run. */
  ghost predicate NoDrift(form: Form, b: Build, t: int, n: nat, rounds: nat)
  {
    forall i: nat :: Feeds(b, t, i) ==> rounds * Drift(form, b, t, n, i) % N == 0
  }

  /** View number j of a step is that of its row in the serial run if and only if nothing has drifted. */
  lemma ViewsAgree(form: Form, b: Build, t: int, s0: seq<Stream>, n: nat, rounds: nat, j: nat)
    requires HasLayout(s0)
    ensures HasLayout(AfterRounds(form, b, t, s0, n, rounds))
    ensures ViewAfter(b, t, AfterRounds(form, b, t, s0, n, rounds), j) == ViewAfter(b, t, s0, rounds * n + j) <==>
      NoDrift(form, b, t, n, rounds)
  {
    hide Shift, BoundaryOf, TableOf, Feeds, Pace, Drift, HasLayout, AfterRounds;
    AfterRoundsKeepsLayout(form, b, t, s0, n, rounds);
    var s := AfterRounds(form, b, t, s0, n, rounds);
    var v, w := ViewAfter(b, t, s, j), ViewAfter(b, t, s0, rounds * n + j);
    LayoutHasSize(s);
    LayoutHasSize(s0);
    forall i: nat | i <= MAX_STREAM
      ensures v[i] == w[i] <==> (Feeds(b, t, i) ==> rounds * Drift(form, b, t, n, i) % N == 0)
    {
      SeenStreamAgrees(form, b, t, s0, n, rounds, j, i);
    }
    if NoDrift(form, b, t, n, rounds) {
      assert v == w;
    }
    if v == w {
      forall i: nat | Feeds(b, t, i)
        ensures rounds * Drift(form, b, t, n, i) % N == 0
      {
        FeedsInTable(b, t, i);
      }
    }
  }

  lemma FeedsInTable(b: Build, t: int, i: nat)
    requires Feeds(b, t, i)
    ensures i <= MAX_STREAM
  {
  }

  lemma LayoutHasSize(s: seq<Stream>)
    requires HasLayout(s)
    ensures |s| == MAX_STREAM + 1
  {
  }

  lemma SeenStreamAgrees(form: Form, b: Build, t: int, s0: seq<Stream>, n: nat, rounds: nat, j: nat, i: nat)
    requires HasLayout(s0) && i <= MAX_STREAM
    requires HasLayout(AfterRounds(form, b, t, s0, n, rounds))
    ensures |s0| == MAX_STREAM + 1 == |AfterRounds(form, b, t, s0, n, rounds)|
    ensures ViewAfter(b, t, AfterRounds(form, b, t, s0, n, rounds), j)[i] == ViewAfter(b, t, s0, rounds * n + j)[i] <==>
      (Feeds(b, t, i) ==> rounds * Drift(form, b, t, n, i) % N == 0)
  {
    hide Shift, BoundaryOf, TableOf, Feeds, Pace, RoundSkip, AfterRounds;
    StreamAfterRounds(form, b, t, s0, n, rounds, i);
    var skip, pace := RoundSkip(form, b, t, n, i), Pace(b, t, i);
    ShiftsAdd(s0[i].value, rounds * skip, j * pace);
    ShiftsAgree(s0[i].value, rounds * skip + j * pace, (rounds * n + j) * pace);
    TotalDrift(rounds, n, j, pace, skip);
  }

  lemma TotalDrift(rounds: int, n: int, j: int, pace: int, skip: int)
    ensures (rounds * n + j) * pace - (rounds * skip + j * pace) == rounds * (n * pace - skip)
  {
    assert (rounds * n + j) * pace == rounds * n * pace + j * pace;
    Distribute(rounds, n, pace, skip);
  }

  /** A child that has rows writes its part of the serial output if and only if nothing has drifted. */
  lemma ChildMatches(form: Form, b: Build, t: int, s0: seq<Stream>, build: Builder, total: nat, procs: nat, step: nat)
    requires HasLayout(s0) && Steady(form, b, t, build) && 1 <= step <= procs
    ensures var n := total / procs; var r := step - 1; var count := ChildRows(total, procs, step);
      0 <= r * n && ValidTable(s0)
      && (ChildWrites(form, b, t, s0, build, total, procs, step) == Sources(b, t, s0, 1, r * n + count)[r * n..] <==>
          count == 0 || NoDrift(form, b, t, n, r))
  {
    hide AfterRounds, Written, ShortRows, Steady, ViewAfter, NoDrift, HasLayout, SteadyRow;
    var n, r, count := total / procs, step - 1, ChildRows(total, procs, step);
    var s := AfterRounds(form, b, t, s0, n, r);
    SteadyIsShort(form, b, t, build);
    AfterRoundsKeepsLayout(form, b, t, s0, n, r);
    LayoutIsValid(s0);
    WritesSources(form, b, t, s, build, n * r + 1, count);
    assert n * r == r * n;
    var mine, serial := Sources(b, t, s, n * r + 1, count), Sources(b, t, s0, 1, r * n + count)[r * n..];
    forall j | 0 <= j < count
      ensures mine[j] == serial[j] <==> NoDrift(form, b, t, n, r)
    {
      ViewsAgree(form, b, t, s0, n, r, j);
    }
    if count > 0 && mine == serial {
      assert mine[0] == serial[0];
    }
  }

  lemma SteadyIsShort(form: Form, b: Build, t: int, build: Builder)
    requires Steady(form, b, t, build)
    ensures ShortRows(build)
  {
  }

  // ----- all children -----

  /** The outputs of children 1..upto, one after the other. */
  ghost function ChildrenWrite(form: Form, b: Build, t: int, s0: seq<Stream>, build: Builder,
                               total: nat, procs: nat, upto: nat): (out: seq<Source>)
    requires HasLayout(s0) && ShortRows(build) && 0 < procs && upto <= procs
  {
    if upto == 0 then []
    else ChildrenWrite(form, b, t, s0, build, total, procs, upto - 1)
         + ChildWrites(form, b, t, s0, build, total, procs, upto)
  }

  /** The number of rows that the first children write. */
  function RowsUpTo(total: nat, procs: nat, upto: nat): (k: nat)
    requires procs > 0
    ensures upto == procs ==> k == total
  {
    upto * (total / procs) + if upto == procs then total % procs else 0
  }

  lemma RowsNext(total: nat, procs: nat, upto: nat)
    requires 0 < upto <= procs
    ensures RowsUpTo(total, procs, upto - 1) == (upto - 1) * (total / procs)
    ensures RowsUpTo(total, procs, upto) == RowsUpTo(total, procs, upto - 1) + ChildRows(total, procs, upto)
  {
    assert (upto - 1) * (total / procs) + total / procs == upto * (total / procs);
  }

  /** All children together write every row. */
  lemma {:induction false} ChildrenRowCount(form: Form, b: Build, t: int, s0: seq<Stream>, build: Builder,
                                            total: nat, procs: nat, upto: nat)
    requires HasLayout(s0) && ShortRows(build) && 0 < procs && upto <= procs
    ensures |ChildrenWrite(form, b, t, s0, build, total, procs, upto)| == RowsUpTo(total, procs, upto)
    ensures upto == procs ==> |ChildrenWrite(form, b, t, s0, build, total, procs, upto)| == total
  {
    hide HasLayout, ChildWrites, ShortRows, RowsUpTo, ChildRows;
    if upto == 0 {
      NoRowsYet(total, procs);
    } else {
      ChildrenRowCount(form, b, t, s0, build, total, procs, upto - 1);
      RowsNext(total, procs, upto);
    }
  }

  /** Every child up to upto that has rows sees the serial seeds. */
  ghost predicate NoneDrifts(form: Form, b: Build, t: int, total: nat, procs: nat, upto: nat)
    requires procs > 0
  {
    forall step :: 1 <= step <= upto ==>
      ChildRows(total, procs, step) == 0 || NoDrift(form, b, t, total / procs, step - 1)
  }

  /** The row ranges of the children tile the serial output, so that each child can be compared with its part. */
  lemma {:induction false} ChildrenTile(form: Form, b: Build, t: int, s0: seq<Stream>, build: Builder,
                                        total: nat, procs: nat, upto: nat)
    requires HasLayout(s0) && Steady(form, b, t, build) && 0 < procs && upto <= procs
    ensures ShortRows(build)
    ensures var out := ChildrenWrite(form, b, t, s0, build, total, procs, upto);
      |out| == RowsUpTo(total, procs, upto)
      && (out == Sources(b, t, s0, 1, |out|) <==> NoneDrifts(form, b, t, total, procs, upto))
  {
    hide Steady, HasLayout, ChildWrites, ShortRows, RowsUpTo, ViewAfter, NoDrift, ChildRows, Sources;
    SteadyIsShort(form, b, t, build);
    if upto == 0 {
      NoRowsYet(total, procs);
    } else {
      ChildrenTile(form, b, t, s0, build, total, procs, upto - 1);
      ChildMatches(form, b, t, s0, build, total, procs, upto);
      RowsNext(total, procs, upto);
      var before := ChildrenWrite(form, b, t, s0, build, total, procs, upto - 1);
      var mine := ChildWrites(form, b, t, s0, build, total, procs, upto);
      SourcesSplit(b, t, s0, |before|, |mine|);
      PartsAgree(before, mine, Sources(b, t, s0, 1, |before|), Sources(b, t, s0, 1, |before| + |mine|)[|before|..]);
    }
  }

  lemma NoRowsYet(total: nat, procs: nat)
    requires procs > 0
    ensures RowsUpTo(total, procs, 0) == 0
  {
    assert 0 * (total / procs) == 0;
  }

  lemma SourcesSplit(b: Build, t: int, s0: seq<Stream>, x: nat, y: nat)
    requires HasLayout(s0)
    ensures Sources(b, t, s0, 1, x + y) == Sources(b, t, s0, 1, x) + Sources(b, t, s0, 1, x + y)[x..]
  {
    hide HasLayout, ViewAfter;
  }

  lemma PartsAgree<T>(a: seq<T>, b: seq<T>, c: seq<T>, d: seq<T>)
    requires |a| == |c| && |b| == |d|
    ensures a + b == c + d <==> a == c && b == d
  {
    if a + b == c + d {
      assert a == (a + b)[..|a|] == (c + d)[..|a|] == c;
      assert b == (a + b)[|a|..] == (c + d)[|a|..] == d;
    }
  }

  /** Two children are enough to tell: what the second one sees decides for all. */
  lemma SecondChildDecides(form: Form, b: Build, t: int, total: nat, procs: nat)
    requires procs > 0
    ensures NoneDrifts(form, b, t, total, procs, procs) <==> procs == 1 || NoDrift(form, b, t, total / procs, 1)
  {
    hide Feeds, Drift;
    var n := total / procs;
    if n == 0 {
      forall rounds: nat
        ensures NoDrift(form, b, t, 0, rounds)
      {
        NoRowsNoDrift(form, b, t, rounds);
      }
    } else if NoDrift(form, b, t, n, 1) {
      forall rounds: nat
        ensures NoDrift(form, b, t, n, rounds)
      {
        DriftRepeats(form, b, t, n, rounds);
      }
    } else if procs > 1 {
      assert ChildRows(total, procs, 2) > 0;
      assert !NoneDrifts(form, b, t, total, procs, procs);
    } else {
      DriftRepeats0(form, b, t, n);
    }
  }

  lemma NoRowsNoDrift(form: Form, b: Build, t: int, rounds: nat)
    ensures NoDrift(form, b, t, 0, rounds)
  {
    hide Feeds, RoundSkip, Pace;
    forall i: nat | Feeds(b, t, i)
      ensures rounds * Drift(form, b, t, 0, i) % N == 0
    {
      NoRowsNoSkip(form, b, t, i);
      assert 0 * Pace(b, t, i) == 0 && rounds * 0 == 0;
    }
  }

  lemma NoRowsNoSkip(form: Form, b: Build, t: int, i: nat)
    ensures RoundSkip(form, b, t, 0, i) == 0
  {
    assert 0 * PerJump(i) == 0 && Jumps(i) * 0 == 0;
  }

  lemma DriftRepeats0(form: Form, b: Build, t: int, n: nat)
    ensures NoDrift(form, b, t, n, 0)
  {
    hide Drift, Feeds;
    forall i: nat | Feeds(b, t, i)
      ensures 0 * Drift(form, b, t, n, i) % N == 0
    {
    }
  }

  lemma DriftRepeats(form: Form, b: Build, t: int, n: nat, rounds: nat)
    requires NoDrift(form, b, t, n, 1)
    ensures NoDrift(form, b, t, n, rounds)
  {
    hide Drift, Feeds;
    forall i: nat | Feeds(b, t, i)
      ensures rounds * Drift(form, b, t, n, i) % N == 0
    {
      assert 1 * Drift(form, b, t, n, i) % N == 0;
      MultipleOfPeriod(Drift(form, b, t, n, i), rounds);
    }
  }
}
