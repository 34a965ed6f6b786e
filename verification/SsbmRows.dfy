/** build.c, SSBM build: the draws that mk_part, mk_supp, mk_cust and mk_order make for one row. */
module SsbmRows {
  import opened Streams
  import opened Alignment
  import opened Skipping
  import opened Parallel
  import opened ParallelState

  const P_NAME_SD: int := 37
  const P_CAT_SD: int := 97       // not in the seed table
  const CITY_SD: int := 98        // neither is the stream of gen_city

  /** A text of a_rnd: its length, then one draw for every five characters. */
  function AddressDraws(stream: int, len: nat): (row: Row)
  {
    [Draw(stream, 6, 24)] + Repeated(Draw(stream, 0, MAX_LONG), (len + 4) / 5)
  }

  function PhoneDraws(row: Row): Row
  {
    row + [Draw(28, 100, 999)] + [Draw(28, 100, 999)] + [Draw(28, 1000, 9999)]
  }

  /** mk_part: a shuffle of the colours, then manufacturer, category, brand, type, size and container. */
  function PartDraws(colours: nat, types: int, containers: int): (row: Row)
  {
    Repeated(Draw(P_NAME_SD, 0, colours - 1), colours)
    + [Draw(0, 1, 5)] + [Draw(P_CAT_SD, 1, 5)] + [Draw(1, 1, 40)]
    + [Draw(2, 1, types)] + [Draw(3, 1, 50)] + [Draw(4, 1, containers)]
  }

  /** mk_supp: the telephone number comes from the stream of the customers. */
  function SuppDraws(len: nat, nations: int): (row: Row)
  {
    PhoneDraws(AddressDraws(32, len) + [Draw(33, 0, nations - 1)] + [Draw(CITY_SD, 0, 9)])
  }

  /** mk_cust. */
  function CustDraws(len: nat, nations: int, segments: int): (row: Row)
  {
    PhoneDraws(AddressDraws(26, len) + [Draw(27, 0, nations - 1)] + [Draw(CITY_SD, 0, 9)]) + [Draw(30, 1, segments)]
  }

  /** The upper bounds that mk_order takes from the scale factor and the distributions. */
  datatype Bounds = Bounds(dates: int, customers: int, priorities: int, clerks: int,
                           parts: int, suppliers: int, modes: int)

  /** mk_order: the order itself, then each of its lines. */
  function LineDraws(lines: nat, u: Bounds): (row: Row)
  {
    if lines == 0 then
      [Draw(13, 92001, u.dates)] + [Draw(40, 1, u.customers)] + [Draw(38, 1, u.priorities)]
      + [Draw(11, 1, u.clerks)] + [Draw(43, 1, O_LCNT_MAX)]
    else
      LineDraws(lines - 1, u)
      + [Draw(19, 1, u.parts)] + [Draw(20, 1, u.suppliers)] + [Draw(14, 1, 50)] + [Draw(15, 0, 10)]
      + [Draw(16, 0, 8)] + [Draw(22, 30, 90)] + [Draw(18, 1, u.modes)]
  }

  /** A row as one of the four routines draws it; texts and shuffles are as long as the build makes them. */
  ghost predicate IsRow(t: int, row: Row)
  {
    (t == PART && exists types, containers :: row == PartDraws(92, types, containers))
    || (t == SUPP && exists len: nat, nations :: len <= 24 && row == SuppDraws(len, nations))
    || (t == CUST && exists len: nat, nations, segments :: len <= 24 && row == CustDraws(len, nations, segments))
    || (t == LINE && exists lines: nat, u :: lines <= O_LCNT_MAX && row == LineDraws(lines, u))
  }

  lemma AddressCounts(stream: nat, len: nat, i: nat)
    requires stream <= MAX_STREAM && len <= 24
    ensures var row := AddressDraws(stream, len);
      Moved(row, i) == Counted(row, i) && Counted(row, i) <= 6 && (i != stream ==> Counted(row, i) == 0)
  {
    var d, c := Draw(stream, 6, 24), Draw(stream, 0, MAX_LONG);
    hide Moved, Counted;
    AddressPrefix(d, c, (len + 4) / 5, i);
  }

  lemma {:induction false} AddressPrefix(d: Draw, c: Draw, n: nat, i: nat)
    requires InTable(d.stream) && c.stream == d.stream
    ensures var row := [d] + Repeated(c, n);
      Moved(row, i) == Counted(row, i) == if d.stream == i then 1 + n else 0
  {
    hide Moved, Counted, Repeated;
    if n == 0 {
      assert [d] + Repeated(c, 0) == [] + [d];
      NothingCounted(i);
      OneDrawMore([], d, i);
    } else {
      AddressPrefix(d, c, n - 1, i);
      RepeatedNext(c, n - 1);
      assert [d] + Repeated(c, n) == [d] + Repeated(c, n - 1) + [c];
      OneDrawMore([d] + Repeated(c, n - 1), c, i);
    }
  }

  lemma PhoneCounts(row: Row, i: nat)
    ensures var n := if i == 28 then 3 else 0;
      Moved(PhoneDraws(row), i) == Moved(row, i) + n && Counted(PhoneDraws(row), i) == Counted(row, i) + n
  {
    hide Moved, Counted;
    var r1 := row + [Draw(28, 100, 999)];
    var r2 := r1 + [Draw(28, 100, 999)];
    OneDrawMore(row, Draw(28, 100, 999), i);
    OneDrawMore(r1, Draw(28, 100, 999), i);
    OneDrawMore(r2, Draw(28, 1000, 9999), i);
  }

  lemma PartCounts(types: int, containers: int, i: nat)
    ensures var row := PartDraws(92, types, containers);
      Counted(row, i) == (if i == P_NAME_SD then 92 else if i <= 4 || i == P_CAT_SD then 1 else 0)
      && (i <= MAX_STREAM ==> Moved(row, i) == Counted(row, i) + if i == 0 then 1 else 0)
  {
    hide Moved, Counted, Repeated;
    var r0 := Repeated(Draw(P_NAME_SD, 0, 91), 92);
    var r1 := r0 + [Draw(0, 1, 5)];
    var r2 := r1 + [Draw(P_CAT_SD, 1, 5)];
    var r3 := r2 + [Draw(1, 1, 40)];
    var r4 := r3 + [Draw(2, 1, types)];
    var r5 := r4 + [Draw(3, 1, 50)];
    RepeatedCounts(Draw(P_NAME_SD, 0, 91), 92, i);
    OneDrawMore(r0, Draw(0, 1, 5), i);
    OneDrawMore(r1, Draw(P_CAT_SD, 1, 5), i);
    OneDrawMore(r2, Draw(1, 1, 40), i);
    OneDrawMore(r3, Draw(2, 1, types), i);
    OneDrawMore(r4, Draw(3, 1, 50), i);
    OneDrawMore(r5, Draw(4, 1, containers), i);
  }

  /** The part that customers and suppliers share. */
  lemma CityCounts(stream: nat, len: nat, nation: nat, nations: int, i: nat)
    requires stream <= MAX_STREAM && nation <= MAX_STREAM && len <= 24 && i <= MAX_STREAM
    ensures var row := PhoneDraws(AddressDraws(stream, len) + [Draw(nation, 0, nations - 1)] + [Draw(CITY_SD, 0, 9)]);
      var others := (if i == nation then 1 else 0) + if i == 28 then 3 else 0;
      && Moved(row, i) == Counted(row, i) + (if i == 0 then 1 else 0)
      && others <= Counted(row, i) <= others + (if i == stream then 6 else 0)
  {
    hide Moved, Counted, AddressDraws, PhoneDraws;
    var r0 := AddressDraws(stream, len);
    var r1 := r0 + [Draw(nation, 0, nations - 1)];
    var r2 := r1 + [Draw(CITY_SD, 0, 9)];
    AddressCounts(stream, len, i);
    OneDrawMore(r0, Draw(nation, 0, nations - 1), i);
    OneDrawMore(r1, Draw(CITY_SD, 0, 9), i);
    PhoneCounts(r2, i);
  }

  lemma {:induction false} LineCounts(lines: nat, u: Bounds, i: nat)
    requires i <= MAX_STREAM
    ensures var row := LineDraws(lines, u);
      Moved(row, i) == Counted(row, i) ==
        if i == 13 || i == 40 || i == 38 || i == 11 || i == 43 then 1
        else if 14 <= i <= 16 || 18 <= i <= 20 || i == 22 then lines
        else 0
  {
    hide Moved, Counted;
    if lines == 0 {
      HeaderCounts(u, i);
    } else {
      LineCounts(lines - 1, u, i);
      ItemCounts(LineDraws(lines - 1, u), u, i);
    }
  }

  lemma HeaderCounts(u: Bounds, i: nat)
    requires i <= MAX_STREAM
    ensures var row := LineDraws(0, u);
      Moved(row, i) == Counted(row, i) == if i == 13 || i == 40 || i == 38 || i == 11 || i == 43 then 1 else 0
  {
    hide Moved, Counted;
    var r1 := [Draw(13, 92001, u.dates)];
    var r2 := r1 + [Draw(40, 1, u.customers)];
    var r3 := r2 + [Draw(38, 1, u.priorities)];
    var r4 := r3 + [Draw(11, 1, u.clerks)];
    assert r1 == [] + [Draw(13, 92001, u.dates)];
    NothingCounted(i);
    OneDrawMore([], Draw(13, 92001, u.dates), i);
    OneDrawMore(r1, Draw(40, 1, u.customers), i);
    OneDrawMore(r2, Draw(38, 1, u.priorities), i);
    OneDrawMore(r3, Draw(11, 1, u.clerks), i);
    OneDrawMore(r4, Draw(43, 1, O_LCNT_MAX), i);
  }

  lemma ItemCounts(row: Row, u: Bounds, i: nat)
    requires i <= MAX_STREAM
    ensures var longer := row
        + [Draw(19, 1, u.parts)] + [Draw(20, 1, u.suppliers)] + [Draw(14, 1, 50)] + [Draw(15, 0, 10)]
        + [Draw(16, 0, 8)] + [Draw(22, 30, 90)] + [Draw(18, 1, u.modes)];
      var n := if 14 <= i <= 16 || 18 <= i <= 20 || i == 22 then 1 else 0;
      Moved(longer, i) == Moved(row, i) + n && Counted(longer, i) == Counted(row, i) + n
  {
    hide Moved, Counted;
    var r1 := row + [Draw(19, 1, u.parts)];
    var r2 := r1 + [Draw(20, 1, u.suppliers)];
    var r3 := r2 + [Draw(14, 1, 50)];
    var r4 := r3 + [Draw(15, 0, 10)];
    var r5 := r4 + [Draw(16, 0, 8)];
    var r6 := r5 + [Draw(22, 30, 90)];
    OneDrawMore(row, Draw(19, 1, u.parts), i);
    OneDrawMore(r1, Draw(20, 1, u.suppliers), i);
    OneDrawMore(r2, Draw(14, 1, 50), i);
    OneDrawMore(r3, Draw(15, 0, 10), i);
    OneDrawMore(r4, Draw(16, 0, 8), i);
    OneDrawMore(r5, Draw(22, 30, 90), i);
    OneDrawMore(r6, Draw(18, 1, u.modes), i);
  }

  /** Every such row moves the streams it is printed from at their pace, in either form. */
  lemma RowsAreSteady(form: Form, t: int, row: Row, i: nat)
    requires IsRow(t, row) && Feeds(Ssbm, t, i)
    ensures RowMoves(form, Covers(Ssbm, t, i), BoundaryOf(i), row, i) == Pace(Ssbm, t, i)
  {
    hide Moved, Counted, PartDraws, SuppDraws, CustDraws, LineDraws;
    if t == PART {
      var types, containers :| row == PartDraws(92, types, containers);
      PartCounts(types, containers, i);
    } else if t == SUPP {
      var len: nat, nations :| len <= 24 && row == SuppDraws(len, nations);
      SuppCounts(len, nations, i);
    } else if t == CUST {
      var len: nat, nations, segments :| len <= 24 && row == CustDraws(len, nations, segments);
      CustCounts(len, nations, segments, i);
    } else {
      var lines: nat, u :| lines <= O_LCNT_MAX && row == LineDraws(lines, u);
      LineCounts(lines, u, i);
    }
  }

  lemma SuppCounts(len: nat, nations: int, i: nat)
    requires len <= 24 && i <= MAX_STREAM
    ensures var row := SuppDraws(len, nations);
      Moved(row, i) == Counted(row, i) + (if i == 0 then 1 else 0)
      && if i == 32 then Counted(row, i) <= 6
         else Counted(row, i) == if i == 33 then 1 else if i == 28 then 3 else 0
  {
    hide Moved, Counted, AddressDraws, PhoneDraws;
    CityCounts(32, len, 33, nations, i);
  }

  lemma CustCounts(len: nat, nations: int, segments: int, i: nat)
    requires len <= 24 && i <= MAX_STREAM
    ensures var row := CustDraws(len, nations, segments);
      Moved(row, i) == Counted(row, i) + (if i == 0 then 1 else 0)
      && if i == 26 then Counted(row, i) <= 6
         else Counted(row, i) == if i == 27 || i == 30 then 1 else if i == 28 then 3 else 0
  {
    hide Moved, Counted, AddressDraws, PhoneDraws;
    CityCounts(26, len, 27, nations, i);
    OneDrawMore(PhoneDraws(AddressDraws(26, len) + [Draw(27, 0, nations - 1)] + [Draw(CITY_SD, 0, 9)]),
                Draw(30, 1, segments), i);
  }

  /** A row of at most 99 draws. */
  lemma RowsAreShort(t: int, row: Row)
    requires IsRow(t, row)
    ensures |row| < 100
  {
    if t == LINE {
      var lines: nat, u :| lines <= O_LCNT_MAX && row == LineDraws(lines, u);
      LineLength(lines, u);
    }
  }

  lemma {:induction false} LineLength(lines: nat, u: Bounds)
    ensures |LineDraws(lines, u)| == 5 + 7 * lines
  {
    if lines > 0 {
      LineLength(lines - 1, u);
    }
  }
}
