/** bm_utils.c and driver.c: splitting a table among children that together write what one run writes. */
module Parallel {
  import opened Division
  import opened SpeedSeed
  import opened Streams
  import opened Skipping

  datatype Build = Ssbm | Tpch

  datatype Option<T> = None | Some(value: T)

  // ----- the tdefs table -----

  /** The gen_seed column of tdefs. */
  function GenOf(b: Build, t: int): Option<Gen>
  {
    if t == PART then Some(SdPart)
    else if t == SUPP then Some(SdSupp)
    else if t == CUST then Some(SdCust)
    else if t == LINE then Some(SdLine)
    else if b.Ssbm? then None
    else if t == PSUPP then Some(SdPsupp)
    else if t == ORDER || t == ORDER_LINE then Some(SdOrder)
    else if t == PART_PSUPP then Some(SdPart)
    else None
  }

  /** The child column of tdefs. */
  function ChildOf(b: Build, t: int): (c: int)
    ensures c != NONE ==> GenOf(b, c).Some?
  {
    if b.Ssbm? then NONE
    else if t == PART || t == PART_PSUPP then PSUPP
    else if t == ORDER || t == ORDER_LINE then LINE
    else NONE
  }

  const DATE: int := 4   // of the SSBM build, in the place of ORDER

  /** The tables that are split among children: those below NATION that the build has. */
  predicate Splittable(b: Build, t: int)
  {
    if b.Tpch? then PART <= t <= PART_PSUPP else t == PART || t == SUPP || t == CUST || t == DATE || t == LINE
  }

  /** The tables row_stop covers for t: the pairs are handled as their masters. */
  function RowOptions(form: Form, b: Build, t: int): (o: Options)
    ensures !o.setSeeds && o.form == form
  {
    var master := if t == ORDER_LINE then ORDER else if t == PART_PSUPP then PART else t;
    Options(form, false, master, ChildOf(b, master))
  }

  // ----- set_state -----

  /** How far one round of set_state moves stream i; the dates have no gen_seed routine. */
  function RoundSkip(form: Form, b: Build, t: int, n: nat, i: nat): (k: nat)
  {
    (if GenOf(b, t).None? then 0 else Skip(form, GenOf(b, t).value, t == LINE, n, i))
    + if ChildOf(b, t) == NONE then 0 else Skip(form, GenOf(b, ChildOf(b, t)).value, false, n, i)
  }

  ghost function RoundSkips(form: Form, b: Build, t: int, n: nat, rounds: nat): seq<nat>
  {
    seq(MAX_STREAM + 1, i requires i >= 0 => rounds * RoundSkip(form, b, t, n, i))
  }

  lemma MovesCompose(s: seq<Stream>, m: seq<nat>, t: seq<Stream>, m': seq<nat>, u: seq<Stream>)
    requires MovedBy(s, m, t) && MovedBy(t, m', u)
    ensures MovedBy(s, seq(|m|, i requires 0 <= i < |m| && |m| == |m'| => m[i] + m'[i]), u)
  {
    hide MovedStream;
    forall i | 0 <= i < |s|
      ensures u[i] == MovedStream(s[i], m[i] + m'[i])
    {
      assert HoldsSeed(s[i]) && t[i] == MovedStream(s[i], m[i]) && u[i] == MovedStream(t[i], m'[i]);
      MovedTwice(s[i], m[i], m'[i]);
    }
  }

  lemma MovesKeepLayout(s: seq<Stream>, m: seq<nat>, t: seq<Stream>)
    requires MovedBy(s, m, t)
    ensures HasLayout(t)
  {
    forall i | 0 <= i < |s|
      ensures HoldsSeed(t[i]) && t[i].table == TableOf(i) && t[i].boundary == BoundaryOf(i)
    {
      assert HoldsSeed(s[i]) && t[i] == MovedStream(s[i], m[i]);
    }
  }

  /** One turn of the loop in set_state: the table, then its child. */
  method GenSeedRound(form: Form, b: Build, t: int, n: nat, seeds: array<Stream>)
    requires Splittable(b, t) && HasLayout(seeds[..])
    modifies seeds
    ensures MovedBy(old(seeds[..]), RoundSkips(form, b, t, n, 1), seeds[..])
  {
    hide Skip, MovedBy, HasLayout;
    ghost var before := seeds[..];
    ghost var m1 := NoMoves();
    NothingMoved(before);
    if GenOf(b, t).Some? {
      GenSeed(form, GenOf(b, t).value, t == LINE, n, seeds);
      m1 := Skips(form, GenOf(b, t).value, t == LINE, n);
    }
    ghost var middle := seeds[..];
    MovesKeepLayout(before, m1, middle);
    if ChildOf(b, t) != NONE {
      GenSeed(form, GenOf(b, ChildOf(b, t)).value, false, n, seeds);
      ghost var m2 := Skips(form, GenOf(b, ChildOf(b, t)).value, false, n);
      MovesCompose(before, m1, middle, m2, seeds[..]);
      assert RoundSkips(form, b, t, n, 1) == seq(|m1|, i requires 0 <= i < |m1| && |m1| == |m2| => m1[i] + m2[i]);
    } else {
      assert RoundSkips(form, b, t, n, 1) == m1;
    }
  }

  datatype StateResult =
    | NothingToDo                             // returns 0 and leaves extra_rows unset
    | ScaleOverflow                           // INTERNAL_ERROR
    | Rows(rowcount: nat, extra: nat)

  /** The row counts computed in two parts are those of one division of base * sf. */
  lemma TwoPartDivision(base: nat, sf: nat, procs: nat)
    requires procs > 0
    ensures var remainder := base % procs * sf;
      base / procs * sf + remainder / procs == base * sf / procs && remainder % procs == base * sf % procs
  {
    var q, r := base / procs, base % procs;
    assert base * sf == procs * (q * sf) + r * sf by {
      assert base == procs * q + r;
      assert (procs * q + r) * sf == procs * (q * sf) + r * sf;
    }
    AddMultiple(r * sf, procs, q * sf);
    assert r * sf % procs == r * sf - procs * (r * sf / procs);
    assert base * sf % procs == base * sf - procs * (base * sf / procs);
    assert procs * (q * sf + r * sf / procs) == procs * (q * sf) + procs * (r * sf / procs);
  }

  lemma NoRounds(form: Form, b: Build, t: int, n: nat)
    ensures RoundSkips(form, b, t, n, 0) == NoMoves()
  {
    hide RoundSkip;
  }

  /** The loop of set_state. */
  method Rounds(form: Form, b: Build, t: int, rowcount: nat, rounds: nat, seeds: array<Stream>)
    requires Splittable(b, t) && HasLayout(seeds[..])
    modifies seeds
    ensures MovedBy(old(seeds[..]), RoundSkips(form, b, t, rowcount, rounds), seeds[..])
  {
    hide MovedBy, HasLayout, RoundSkip, RoundSkips;
    ghost var before := seeds[..];
    NothingMoved(before);
    NoRounds(form, b, t, rowcount);
    var i := 0;
    while i < rounds
      invariant 0 <= i <= rounds
      invariant MovedBy(before, RoundSkips(form, b, t, rowcount, i), seeds[..])
    {
      ghost var middle := seeds[..];
      MovesKeepLayout(before, RoundSkips(form, b, t, rowcount, i), middle);
      GenSeedRound(form, b, t, rowcount, seeds);
      MovesCompose(before, RoundSkips(form, b, t, rowcount, i), middle, RoundSkips(form, b, t, rowcount, 1), seeds[..]);
      RoundsAdd(form, b, t, rowcount, i);
      i := i + 1;
    }
  }

  /** set_state for a step within the number of processes. */
  method SetState(form: Form, b: Build, base: nat, t: int, sf: nat, procs: nat, step: nat, seeds: array<Stream>)
    returns (r: StateResult)
    requires Splittable(b, t) && 1 <= procs && step <= procs && HasLayout(seeds[..])
    modifies seeds
    ensures r == if sf == 0 || step == 0 then NothingToDo
                 else if sf / procs > 1000 then ScaleOverflow
                 else Rows(base * sf / procs, base * sf % procs)
    ensures r.Rows? ==> MovedBy(old(seeds[..]), RoundSkips(form, b, t, r.rowcount, step - 1), seeds[..])
    ensures !r.Rows? ==> seeds[..] == old(seeds[..])
  {
    hide MovedBy, HasLayout, RoundSkips;
    if sf == 0 || step == 0 {
      return NothingToDo;
    }
    var rowcount := base / procs;
    if sf / procs > 1000 {
      return ScaleOverflow;
    }
    rowcount := rowcount * sf;
    var remainder := base % procs * sf;
    rowcount := rowcount + remainder / procs;
    TwoPartDivision(base, sf, procs);
    Rounds(form, b, t, rowcount, step - 1, seeds);
    r := Rows(rowcount, remainder % procs);
  }

  lemma RoundsAdd(form: Form, b: Build, t: int, n: nat, i: nat)
    ensures var m, m' := RoundSkips(form, b, t, n, i), RoundSkips(form, b, t, n, 1);
      seq(|m|, j requires 0 <= j < |m| && |m| == |m'| => m[j] + m'[j]) == RoundSkips(form, b, t, n, i + 1)
  {
    hide RoundSkip;
    forall j: nat | j <= MAX_STREAM
      ensures i * RoundSkip(form, b, t, n, j) + 1 * RoundSkip(form, b, t, n, j) == (i + 1) * RoundSkip(form, b, t, n, j)
    {
    }
  }
}
