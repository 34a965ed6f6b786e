/** The sd_* routines of speed_seed.c: moving all streams of a table past a number of rows. */
module Skipping {
  import opened Rnd
  import opened SpeedSeed
  import opened Streams

  // table numbers of dss.h
  const NONE: int := -1
  const PART: int := 0
  const PSUPP: int := 1
  const SUPP: int := 2
  const CUST: int := 3
  const ORDER: int := 4
  const LINE: int := 5
  const ORDER_LINE: int := 6
  const PART_PSUPP: int := 7
  const NATION: int := 8
  const REGION: int := 9

  const SUPP_PER_PART: int := 4
  const O_LCNT_MAX: int := 7
  const RNG_PER_SENT: int := 27

  // seed indexes the routines name
  const UNUSED_SD: int := 5
  const O_ODATE_SD: int := 13
  const HVAR_SD: int := 39
  const O_LCNT_SD: int := 43

  /** The table column of the seed table in rnd.h. */
  function TableOf(i: nat): int
  {
    if i == 5 then NONE
    else if i <= 6 || i == 37 then PART
    else if i <= 9 then PSUPP
    else if i <= 13 || i == 38 || i == 40 || i == 43 then ORDER
    else if i <= 25 || i == 39 then LINE
    else if i <= 31 then CUST
    else if i <= 36 || i >= 44 then SUPP
    else if i == 41 then NATION
    else REGION
  }

  /** Its boundary column: the number of draws a row is padded to. */
  function BoundaryOf(i: nat): (b: nat)
  {
    if i == 6 then RNG_PER_SENT * 3
    else if i == 7 || i == 8 then SUPP_PER_PART
    else if i == 9 then SUPP_PER_PART * RNG_PER_SENT * 20
    else if i == 12 then RNG_PER_SENT * 8
    else if 14 <= i <= 24 then O_LCNT_MAX
    else if i == 25 then O_LCNT_MAX * RNG_PER_SENT * 5
    else if i == 26 || i == 32 then 9
    else if i == 28 || i == 34 then 3
    else if i == 31 then RNG_PER_SENT * 12
    else if i == 36 then RNG_PER_SENT * 11
    else if i == 37 then 92
    else if i == 41 || i == 42 then RNG_PER_SENT * 16
    else 1
  }

  /** A seed table with those two columns; the theorems hold whatever the seeds are. */
  ghost predicate HasLayout(s: seq<Stream>)
  {
    |s| == MAX_STREAM + 1
    && forall i :: 0 <= i < |s| ==> HoldsSeed(s[i]) && s[i].table == TableOf(i) && s[i].boundary == BoundaryOf(i)
  }

  lemma LayoutIsValid(s: seq<Stream>)
    requires HasLayout(s)
    ensures ValidTable(s)
  {
  }

  datatype Gen = SdPart | SdPsupp | SdOrder | SdLine | SdCust | SdSupp

  function Serves(g: Gen): int
  {
    match g
    case SdPart => PART
    case SdPsupp => PSUPP
    case SdOrder => ORDER
    case SdLine => LINE
    case SdCust => CUST
    case SdSupp => SUPP
  }

  /** How many jumps a routine makes for one stream; the other streams are moved by one long jump. */
  function Jumps(i: nat): (n: nat)
  {
    if i == 7 || i == 8 then SUPP_PER_PART else if 14 <= i <= 24 then O_LCNT_MAX else 1
  }

  /** The length of each of those jumps, per row. */
  function PerJump(i: nat): (n: nat)
    ensures Jumps(i) * n == BoundaryOf(i)
  {
    if i == 7 || i == 8 || 14 <= i <= 24 then 1 else BoundaryOf(i)
  }

  /** The part of a jump length that NthElement sees. */
  function Seen(form: Form, n: nat): (k: nat)
  {
    if form.Form64? then n else n % 0x8000_0000
  }

  /** How far a routine moves stream i for n rows. HVAR_SD is the one LINE stream that sd_line forgets. */
  function Skip(form: Form, g: Gen, linked: bool, n: nat, i: nat): (k: nat)
  {
    if TableOf(i) == Serves(g) && i != HVAR_SD then Jumps(i) * Seen(form, n * PerJump(i))
    else if g.SdLine? && linked && (i == O_ODATE_SD || i == O_LCNT_SD) then Seen(form, n)
    else 0
  }

  function MovedStream(s: Stream, k: int): (r: Stream)
    requires HoldsSeed(s)
    ensures HoldsSeed(r)
  {
    s.(value := Shift(s.value, k))
  }

  lemma AdvanceIsShift(form: Form, value: Seed, n: nat)
    ensures Advance(form, value, n) == Shift(value, Seen(form, n))
  {
    hide Shift;
    ShiftZero(value);
  }

  lemma MovedTwice(s: Stream, j: int, k: int)
    requires HoldsSeed(s)
    ensures MovedStream(MovedStream(s, j), k) == MovedStream(s, j + k)
    ensures MovedStream(s, 0) == s
  {
    hide Shift;
    ShiftsAdd(s.value, j, k);
    ShiftZero(s.value);
  }

  /** The table as it was, with each stream i moved by moves[i]. */
  ghost predicate MovedBy(before: seq<Stream>, moves: seq<nat>, after: seq<Stream>)
  {
    HasLayout(before) && |moves| == |after| == |before|
    && forall i :: 0 <= i < |before| ==> after[i] == MovedStream(before[i], moves[i])
  }

  ghost function NoMoves(): (moves: seq<nat>)
    ensures |moves| == MAX_STREAM + 1 && forall i :: 0 <= i < |moves| ==> moves[i] == 0
  {
    seq(MAX_STREAM + 1, i => 0)
  }

  lemma NothingMoved(s: seq<Stream>)
    requires HasLayout(s)
    ensures MovedBy(s, NoMoves(), s)
  {
    hide MovedStream;
    forall i | 0 <= i < |s|
      ensures MovedStream(s[i], 0) == s[i]
    {
      assert HoldsSeed(s[i]);
      MovedTwice(s[i], 0, 0);
    }
  }

  /** ADVANCE_STREAM, keeping book of the moves made so far. */
  method AdvanceStream(form: Form, seeds: array<Stream>, i: nat, calls: nat,
                       ghost before: seq<Stream>, ghost moves: seq<nat>)
    returns (ghost moves': seq<nat>)
    requires i <= MAX_STREAM && MovedBy(before, moves, seeds[..])
    modifies seeds
    ensures |moves| == MAX_STREAM + 1 && moves' == moves[i := moves[i] + Seen(form, calls)]
    ensures MovedBy(before, moves', seeds[..])
  {
    hide Shift, Advance, Seen;
    ghost var here := seeds[..];
    assert HoldsSeed(before[i]) && here[i] == MovedStream(before[i], moves[i]);
    AdvanceIsShift(form, seeds[i].value, calls);
    MovedTwice(before[i], moves[i], Seen(form, calls));
    NthElement(form, calls, seeds, i);
    moves' := moves[i := moves[i] + Seen(form, calls)];
  }

  /** FAKE_V_STR: the jump length comes from the boundary in the table. */
  method FakeVStr(form: Form, seeds: array<Stream>, i: nat, count: nat,
                  ghost before: seq<Stream>, ghost moves: seq<nat>)
    returns (ghost moves': seq<nat>)
    requires i <= MAX_STREAM && MovedBy(before, moves, seeds[..])
    modifies seeds
    ensures |moves| == MAX_STREAM + 1 && moves' == moves[i := moves[i] + Seen(form, count * BoundaryOf(i))]
    ensures MovedBy(before, moves', seeds[..])
  {
    assert seeds[..][i] == MovedStream(before[i], moves[i]);
    assert BoundaryOf(i) * count == count * BoundaryOf(i);
    moves' := AdvanceStream(form, seeds, i, seeds[i].boundary * count, before, moves);
  }

  /** What a routine does to the whole table. */
  ghost predicate SkippedBy(form: Form, g: Gen, linked: bool, n: nat, before: seq<Stream>, after: seq<Stream>)
  {
    MovedBy(before, Skips(form, g, linked, n), after)
  }

  ghost function Skips(form: Form, g: Gen, linked: bool, n: nat): seq<nat>
  {
    seq(MAX_STREAM + 1, i requires i >= 0 => Skip(form, g, linked, n, i))
  }

  method SkipPart(form: Form, linked: bool, n: nat, seeds: array<Stream>)
    requires HasLayout(seeds[..])
    modifies seeds
    ensures SkippedBy(form, SdPart, linked, n, old(seeds[..]), seeds[..])
  {
    hide MovedBy, Seen, HasLayout;
    ghost var before, moves := seeds[..], NoMoves();
    NothingMoved(before);
    ghost var k := Seen(form, n);
    var i := 0;
    while i <= 4
      invariant 0 <= i <= 5 && |moves| == MAX_STREAM + 1
      invariant forall j :: 0 <= j < |moves| ==> moves[j] == if j < i then k else 0
      invariant MovedBy(before, moves, seeds[..])
    {
      moves := AdvanceStream(form, seeds, i, n, before, moves);
      i := i + 1;
    }
    moves := FakeVStr(form, seeds, 6, n, before, moves);
    moves := AdvanceStream(form, seeds, 37, n * 92, before, moves);
    assert moves == Skips(form, SdPart, linked, n);
  }

  method SkipPsupp(form: Form, linked: bool, n: nat, seeds: array<Stream>)
    requires HasLayout(seeds[..])
    modifies seeds
    ensures SkippedBy(form, SdPsupp, linked, n, old(seeds[..]), seeds[..])
  {
    hide MovedBy, Seen, HasLayout;
    ghost var before, moves := seeds[..], NoMoves();
    NothingMoved(before);
    ghost var k := Seen(form, n);
    var j := 0;
    while j < SUPP_PER_PART
      invariant 0 <= j <= SUPP_PER_PART && |moves| == MAX_STREAM + 1
      invariant forall i :: 0 <= i < |moves| ==> moves[i] == if i == 7 || i == 8 then j * k else 0
      invariant MovedBy(before, moves, seeds[..])
    {
      moves := AdvanceStream(form, seeds, 7, n, before, moves);
      moves := AdvanceStream(form, seeds, 8, n, before, moves);
      j := j + 1;
    }
    moves := FakeVStr(form, seeds, 9, n, before, moves);
    assert moves == Skips(form, SdPsupp, linked, n);
  }

  method SkipOrder(form: Form, linked: bool, n: nat, seeds: array<Stream>)
    requires HasLayout(seeds[..])
    modifies seeds
    ensures SkippedBy(form, SdOrder, linked, n, old(seeds[..]), seeds[..])
  {
    hide MovedBy, Seen, HasLayout;
    ghost var before, moves := seeds[..], NoMoves();
    NothingMoved(before);
    moves := AdvanceStream(form, seeds, O_LCNT_SD, n, before, moves);
    moves := AdvanceStream(form, seeds, 40, n, before, moves);
    moves := FakeVStr(form, seeds, 12, n, before, moves);
    moves := AdvanceStream(form, seeds, 10, n, before, moves);
    moves := AdvanceStream(form, seeds, 11, n, before, moves);
    moves := AdvanceStream(form, seeds, 38, n, before, moves);
    moves := AdvanceStream(form, seeds, O_ODATE_SD, n, before, moves);
    assert moves == Skips(form, SdOrder, linked, n);
  }

  method SkipLine(form: Form, linked: bool, n: nat, seeds: array<Stream>)
    requires HasLayout(seeds[..])
    modifies seeds
    ensures SkippedBy(form, SdLine, linked, n, old(seeds[..]), seeds[..])
  {
    hide MovedBy, Seen, HasLayout;
    ghost var before, moves := seeds[..], NoMoves();
    NothingMoved(before);
    ghost var k := Seen(form, n);
    var j := 0;
    while j < O_LCNT_MAX
      invariant 0 <= j <= O_LCNT_MAX && |moves| == MAX_STREAM + 1
      invariant forall l :: 0 <= l < |moves| ==> moves[l] == if 14 <= l <= 24 then j * k else 0
      invariant MovedBy(before, moves, seeds[..])
    {
      var i := 14;
      while i <= 24
        invariant 14 <= i <= 25 && |moves| == MAX_STREAM + 1
        invariant forall l :: 0 <= l < |moves| ==>
          moves[l] == if 14 <= l < i then j * k + k else if i <= l <= 24 then j * k else 0
        invariant MovedBy(before, moves, seeds[..])
      {
        moves := AdvanceStream(form, seeds, i, n, before, moves);
        i := i + 1;
      }
      j := j + 1;
    }
    moves := FakeVStr(form, seeds, 25, n, before, moves);
    if linked {
      moves := AdvanceStream(form, seeds, O_ODATE_SD, n, before, moves);
      moves := AdvanceStream(form, seeds, O_LCNT_SD, n, before, moves);
    }
    assert moves == Skips(form, SdLine, linked, n);
  }

  method SkipCust(form: Form, linked: bool, n: nat, seeds: array<Stream>)
    requires HasLayout(seeds[..])
    modifies seeds
    ensures SkippedBy(form, SdCust, linked, n, old(seeds[..]), seeds[..])
  {
    hide MovedBy, Seen, HasLayout;
    ghost var before, moves := seeds[..], NoMoves();
    NothingMoved(before);
    moves := FakeVStr(form, seeds, 26, n, before, moves);
    moves := FakeVStr(form, seeds, 31, n, before, moves);
    moves := AdvanceStream(form, seeds, 27, n, before, moves);
    moves := AdvanceStream(form, seeds, 28, 3 * n, before, moves);
    moves := AdvanceStream(form, seeds, 29, n, before, moves);
    moves := AdvanceStream(form, seeds, 30, n, before, moves);
    assert moves == Skips(form, SdCust, linked, n);
  }

  lemma SuppSkip(form: Form, linked: bool, n: nat, i: nat)
    requires i <= MAX_STREAM
    ensures Skip(form, SdSupp, linked, n, i) ==
      if i == 32 || i == 36 then Seen(form, n * BoundaryOf(i))
      else if i == 34 then Seen(form, 3 * n)
      else if i == 33 || i == 35 || i >= 44 then Seen(form, n)
      else 0
  {
    hide Seen;
  }

  method SkipSupp(form: Form, linked: bool, n: nat, seeds: array<Stream>)
    requires HasLayout(seeds[..])
    modifies seeds
    ensures SkippedBy(form, SdSupp, linked, n, old(seeds[..]), seeds[..])
  {
    hide MovedBy, Seen, HasLayout, Skip, TableOf, BoundaryOf;
    ghost var before, moves := seeds[..], NoMoves();
    NothingMoved(before);
    moves := AdvanceStream(form, seeds, 33, n, before, moves);
    moves := AdvanceStream(form, seeds, 34, 3 * n, before, moves);
    moves := AdvanceStream(form, seeds, 35, n, before, moves);
    moves := FakeVStr(form, seeds, 32, n, before, moves);
    moves := FakeVStr(form, seeds, 36, n, before, moves);
    moves := AdvanceStream(form, seeds, 46, n, before, moves);
    moves := AdvanceStream(form, seeds, 44, n, before, moves);
    moves := AdvanceStream(form, seeds, 47, n, before, moves);
    moves := AdvanceStream(form, seeds, 45, n, before, moves);
    forall i: nat | i <= MAX_STREAM
      ensures moves[i] == Skip(form, SdSupp, linked, n, i)
    {
      SuppSkip(form, linked, n, i);
    }
    assert moves == Skips(form, SdSupp, linked, n);
  }

  /** The call through the gen_seed pointer of a table. */
  method GenSeed(form: Form, g: Gen, linked: bool, n: nat, seeds: array<Stream>)
    requires HasLayout(seeds[..])
    modifies seeds
    ensures SkippedBy(form, g, linked, n, old(seeds[..]), seeds[..])
  {
    match g
    case SdPart => SkipPart(form, linked, n, seeds);
    case SdPsupp => SkipPsupp(form, linked, n, seeds);
    case SdOrder => SkipOrder(form, linked, n, seeds);
    case SdLine => SkipLine(form, linked, n, seeds);
    case SdCust => SkipCust(form, linked, n, seeds);
    case SdSupp => SkipSupp(form, linked, n, seeds);
  }

  /** Routine by routine: the streams that are moved, and how far. */
  lemma SkipIs(form: Form, g: Gen, linked: bool, n: nat, i: nat)
    requires i <= MAX_STREAM
    ensures var long := if form.Form64? then n * BoundaryOf(i) else n * BoundaryOf(i) % 0x8000_0000;
      var short := if form.Form64? then n else n % 0x8000_0000;
      Skip(form, g, linked, n, i) ==
        match g
        case SdPart => if i <= 4 || i == 6 || i == 37 then long else 0
        case SdPsupp => if i == 7 || i == 8 then 4 * short else if i == 9 then long else 0
        case SdOrder => if 10 <= i <= 13 || i == 38 || i == 40 || i == 43 then long else 0
        case SdLine => if 14 <= i <= 24 then 7 * short else if i == 25 then long
                       else if linked && (i == 13 || i == 43) then short else 0
        case SdCust => if 26 <= i <= 31 then long else 0
        case SdSupp => if 32 <= i <= 36 || 44 <= i <= 47 then long else 0
  {
  }

  /** So each stream of the seed table is moved as far as that, and the rest of the table is as before. */
  lemma RoutinesMove(form: Form, g: Gen, linked: bool, n: nat, before: seq<Stream>, after: seq<Stream>, i: nat)
    requires SkippedBy(form, g, linked, n, before, after) && i <= MAX_STREAM
    ensures |before| == |after| == MAX_STREAM + 1 && HoldsSeed(before[i]) && before[i].boundary == BoundaryOf(i)
    ensures after[i] == before[i].(value := Shift(before[i].value, Skip(form, g, linked, n, i)))
  {
    hide Shift, Skip, TableOf, BoundaryOf;
    assert HoldsSeed(before[i]);
  }
}
