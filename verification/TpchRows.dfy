/** build.c, TPC-H build: the draws that mk_part, mk_supp, mk_cust and mk_order make for one row. */
module TpchRows {
  import opened Streams
  import opened Alignment
  import opened Skipping
  import opened Parallel
  import opened ParallelState
  import opened Comments
  import S = SsbmRows

  /** A comment of at most the given length. */
  ghost predicate IsComment(row: Row, stream: int, longest: nat)
  {
    AllOn(row, stream) && |row| <= CommentDraws(longest)
  }

  /** An address of at most forty characters. */
  function AddressDraws(stream: int, len: nat): (row: Row)
  {
    [Draw(stream, 10, 40)] + Repeated(Draw(stream, 0, MAX_LONG), (len + 4) / 5)
  }

  /** The part suppliers of one part. */
  function SuppliesDraws(row: Row, comments: seq<Row>): (r: Row)
  {
    if comments == [] then row
    else SuppliesDraws(row, comments[..|comments| - 1])
         + [Draw(7, 1, 9999)] + [Draw(8, 100, 100000)] + comments[|comments| - 1]
  }

  /** mk_part: the part, then its four part suppliers. */
  function PartDraws(types: int, containers: int, comment: Row, supplies: seq<Row>): (row: Row)
  {
    SuppliesDraws(
      Repeated(Draw(37, 0, 91), 92) + [Draw(0, 1, 5)] + [Draw(1, 1, 40)] + [Draw(2, 1, types)]
      + [Draw(3, 1, 50)] + [Draw(4, 1, containers)] + comment,
      supplies)
  }

  function PhoneDraws(row: Row, stream: int): Row
  {
    row + [Draw(stream, 100, 999)] + [Draw(stream, 100, 999)] + [Draw(stream, 1000, 9999)]
  }

  /** mk_cust. */
  function CustDraws(len: nat, nations: int, segments: int, comment: Row): (row: Row)
  {
    PhoneDraws(AddressDraws(26, len) + [Draw(27, 0, nations - 1)], 28)
    + [Draw(29, -99999, 999999)] + [Draw(30, 1, segments)] + comment
  }

  /** mk_supp: the last two draws depend on the length of the comment. */
  function SuppDraws(len: nat, nations: int, comment: Row, room: int, rest: int): (row: Row)
  {
    PhoneDraws(AddressDraws(32, len) + [Draw(33, 0, nations - 1)], 34)
    + [Draw(35, -99999, 999999)] + comment
    + [Draw(46, 1, 10000)] + [Draw(45, 0, 100)] + [Draw(44, 0, room)] + [Draw(47, 0, rest)]
  }

  /** One line of an order; only a line received in time draws its return flag. */
  datatype Item = Item(comment: Row, received: bool)

  /** The upper bounds taken from the scale factor and the distributions. */
  datatype Bounds = Bounds(customers: int, dates: int, priorities: int, clerks: int, parts: int,
                           instructions: int, modes: int, flags: int)

  function ItemDraws(row: Row, item: Item, u: Bounds): (r: Row)
  {
    var most := row + [Draw(14, 1, 50)] + [Draw(15, 0, 10)] + [Draw(16, 0, 8)] + [Draw(17, 1, u.instructions)]
                + [Draw(18, 1, u.modes)] + item.comment + [Draw(19, 1, u.parts)] + [Draw(20, 0, 3)]
                + [Draw(21, 1, 121)] + [Draw(22, 30, 90)] + [Draw(23, 1, 30)];
    if item.received then most + [Draw(24, 1, u.flags)] else most
  }

  function ItemsDraws(row: Row, items: seq<Item>, u: Bounds): (r: Row)
  {
    if items == [] then row else ItemDraws(ItemsDraws(row, items[..|items| - 1], u), items[|items| - 1], u)
  }

  /** mk_order: the order, then its lines. */
  function OrderDraws(u: Bounds, comment: Row, items: seq<Item>): (row: Row)
  {
    ItemsDraws(
      [Draw(40, 1, u.customers)] + [Draw(13, 92001, u.dates)] + [Draw(38, 1, u.priorities)]
      + [Draw(11, 1, u.clerks)] + comment + [Draw(43, 1, O_LCNT_MAX)],
      items, u)
  }

  /** The draws of a supply, a line, or another table, with comments as long as the build makes them. */
  ghost predicate IsPart(row: Row)
  {
    exists types, containers, comment, supplies: seq<Row> ::
      row == PartDraws(types, containers, comment, supplies) && IsComment(comment, 6, 22) && AreSupplies(supplies)
  }

  ghost predicate AreSupplies(supplies: seq<Row>)
  {
    |supplies| == SUPP_PER_PART && forall k :: 0 <= k < |supplies| ==> IsComment(supplies[k], 9, 198)
  }

  ghost predicate IsSupp(row: Row)
  {
    exists len: nat, nations, comment, room, rest ::
      row == SuppDraws(len, nations, comment, room, rest) && len <= 40 && IsComment(comment, 36, 100)
  }

  ghost predicate IsCust(row: Row)
  {
    exists len: nat, nations, segments, comment ::
      row == CustDraws(len, nations, segments, comment) && len <= 40 && IsComment(comment, 31, 116)
  }

  ghost predicate AreItems(items: seq<Item>)
  {
    |items| <= O_LCNT_MAX && forall k :: 0 <= k < |items| ==> IsComment(items[k].comment, 25, 43)
  }

  ghost predicate IsOrder(row: Row)
  {
    exists u, comment, items :: row == OrderDraws(u, comment, items) && IsComment(comment, 12, 78) && AreItems(items)
  }

  /** A row as the routine behind a table draws it. */
  ghost predicate IsRow(t: int, row: Row)
  {
    if t == PART || t == PSUPP || t == PART_PSUPP then IsPart(row)
    else if t == SUPP then IsSupp(row)
    else if t == CUST then IsCust(row)
    else IsOrder(row)
  }

  // ----- counting -----

  /** Nothing is drawn uncounted, and no stream more often than stated. */
  ghost predicate AtMost(row: Row, i: nat, most: nat)
  {
    Moved(row, i) == Counted(row, i) <= most
  }

  lemma {:induction false} Append(row: Row, piece: Row, stream: nat, i: nat)
    requires AllOn(piece, stream) && stream <= MAX_STREAM && i <= MAX_STREAM
    ensures var n := if i == stream then |piece| else 0;
      Moved(row + piece, i) == Moved(row, i) + n && Counted(row + piece, i) == Counted(row, i) + n
  {
    hide Moved, Counted;
    if piece == [] {
      assert row + piece == row;
    } else {
      var n := |piece| - 1;
      Append(row, piece[..n], stream, i);
      assert row + piece == row + piece[..n] + [piece[n]];
      OneDrawMore(row + piece[..n], piece[n], i);
    }
  }

  /** Whether i is the stream. */
  function Is(i: nat, stream: nat): nat
  {
    if i == stream then 1 else 0
  }

  lemma One(row: Row, d: Draw, i: nat, most: nat)
    requires 0 <= d.stream <= MAX_STREAM && i <= MAX_STREAM && AtMost(row, i, most)
    ensures AtMost(row + [d], i, most + Is(i, d.stream))
    ensures Counted(row + [d], i) == Counted(row, i) + Is(i, d.stream)
  {
    hide Moved, Counted;
    OneDrawMore(row, d, i);
  }

  lemma Text(row: Row, piece: Row, stream: nat, longest: nat, i: nat, most: nat)
    requires IsComment(piece, stream, longest) && stream <= MAX_STREAM && i <= MAX_STREAM && AtMost(row, i, most)
    ensures AtMost(row + piece, i, most + Is(i, stream) * CommentDraws(longest))
    ensures i != stream ==> Counted(row + piece, i) == Counted(row, i)
    ensures i == stream ==> Counted(row + piece, i) == Counted(row, i) + |piece|
  {
    hide Moved, Counted, CommentDraws;
    Append(row, piece, stream, i);
  }

  lemma Address(stream: nat, len: nat, i: nat)
    requires stream <= MAX_STREAM && len <= 40
    ensures AtMost(AddressDraws(stream, len), i, 9 * Is(i, stream))
    ensures Counted(AddressDraws(stream, len), i) == if i == stream then 1 + (len + 4) / 5 else 0
  {
    hide Moved, Counted;
    S.AddressPrefix(Draw(stream, 10, 40), Draw(stream, 0, MAX_LONG), (len + 4) / 5, i);
  }

  lemma Phone(row: Row, stream: nat, i: nat, most: nat)
    requires stream <= MAX_STREAM && i <= MAX_STREAM && AtMost(row, i, most)
    ensures AtMost(PhoneDraws(row, stream), i, most + 3 * Is(i, stream))
    ensures Counted(PhoneDraws(row, stream), i) == Counted(row, i) + 3 * Is(i, stream)
  {
    hide AtMost, Counted;
    var r1 := row + [Draw(stream, 100, 999)];
    var r2 := r1 + [Draw(stream, 100, 999)];
    One(row, Draw(stream, 100, 999), i, most);
    One(r1, Draw(stream, 100, 999), i, most + Is(i, stream));
    One(r2, Draw(stream, 1000, 9999), i, most + Is(i, stream) + Is(i, stream));
  }

  lemma CustCounts(len: nat, nations: int, segments: int, comment: Row, i: nat)
    requires len <= 40 && IsComment(comment, 31, 116) && i <= MAX_STREAM
    ensures AtMost(CustDraws(len, nations, segments, comment), i,
                   9 * Is(i, 26) + Is(i, 27) + 3 * Is(i, 28) + Is(i, 29) + Is(i, 30) + Is(i, 31) * CommentDraws(116))
    ensures Counted(CustDraws(len, nations, segments, comment), i) ==
      (if i == 26 then 1 + (len + 4) / 5 else if i == 31 then |comment| else 0)
      + Is(i, 27) + 3 * Is(i, 28) + Is(i, 29) + Is(i, 30)
  {
    hide AtMost, Counted, AddressDraws, PhoneDraws, IsComment, CommentDraws, Is;
    var r0 := AddressDraws(26, len);
    var r1 := r0 + [Draw(27, 0, nations - 1)];
    var r2 := PhoneDraws(r1, 28);
    var r3 := r2 + [Draw(29, -99999, 999999)];
    var r4 := r3 + [Draw(30, 1, segments)];
    var n0 := 9 * Is(i, 26);
    Address(26, len, i);
    One(r0, Draw(27, 0, nations - 1), i, n0);
    Phone(r1, 28, i, n0 + Is(i, 27));
    One(r2, Draw(29, -99999, 999999), i, n0 + Is(i, 27) + 3 * Is(i, 28));
    One(r3, Draw(30, 1, segments), i, n0 + Is(i, 27) + 3 * Is(i, 28) + Is(i, 29));
    Text(r4, comment, 31, 116, i, n0 + Is(i, 27) + 3 * Is(i, 28) + Is(i, 29) + Is(i, 30));
  }

  lemma SuppCounts(len: nat, nations: int, comment: Row, room: int, rest: int, i: nat)
    requires len <= 40 && IsComment(comment, 36, 100) && i <= MAX_STREAM
    ensures AtMost(SuppDraws(len, nations, comment, room, rest), i,
                   9 * Is(i, 32) + Is(i, 33) + 3 * Is(i, 34) + Is(i, 35) + Is(i, 36) * CommentDraws(100)
                   + Is(i, 46) + Is(i, 45) + Is(i, 44) + Is(i, 47))
    ensures Counted(SuppDraws(len, nations, comment, room, rest), i) ==
      (if i == 32 then 1 + (len + 4) / 5 else if i == 36 then |comment| else 0)
      + Is(i, 33) + 3 * Is(i, 34) + Is(i, 35) + Is(i, 46) + Is(i, 45) + Is(i, 44) + Is(i, 47)
  {
    hide AtMost, Counted, AddressDraws, PhoneDraws, IsComment, CommentDraws, Is;
    var r0 := AddressDraws(32, len);
    var r1 := r0 + [Draw(33, 0, nations - 1)];
    var r2 := PhoneDraws(r1, 34);
    var r3 := r2 + [Draw(35, -99999, 999999)];
    var r4 := r3 + comment;
    var r5 := r4 + [Draw(46, 1, 10000)];
    var r6 := r5 + [Draw(45, 0, 100)];
    var r7 := r6 + [Draw(44, 0, room)];
    Address(32, len, i);
    var n1 := 9 * Is(i, 32) + Is(i, 33);
    One(r0, Draw(33, 0, nations - 1), i, 9 * Is(i, 32));
    Phone(r1, 34, i, n1);
    var n3 := n1 + 3 * Is(i, 34) + Is(i, 35);
    One(r2, Draw(35, -99999, 999999), i, n1 + 3 * Is(i, 34));
    Text(r3, comment, 36, 100, i, n3);
    var n4 := n3 + Is(i, 36) * CommentDraws(100);
    One(r4, Draw(46, 1, 10000), i, n4);
    One(r5, Draw(45, 0, 100), i, n4 + Is(i, 46));
    One(r6, Draw(44, 0, room), i, n4 + Is(i, 46) + Is(i, 45));
    One(r7, Draw(47, 0, rest), i, n4 + Is(i, 46) + Is(i, 45) + Is(i, 44));
  }

  lemma PartCounts(types: int, containers: int, comment: Row, i: nat)
    requires IsComment(comment, 6, 22) && i <= MAX_STREAM
    ensures AtMost(PartDraws(types, containers, comment, []), i,
                   92 * Is(i, 37) + Is(i, 0) + Is(i, 1) + Is(i, 2) + Is(i, 3) + Is(i, 4) + Is(i, 6) * CommentDraws(22))
    ensures Counted(PartDraws(types, containers, comment, []), i) ==
      92 * Is(i, 37) + Is(i, 0) + Is(i, 1) + Is(i, 2) + Is(i, 3) + Is(i, 4) + (if i == 6 then |comment| else 0)
  {
    hide AtMost, Counted, Repeated, IsComment, CommentDraws, Is;
    var r0 := Repeated(Draw(37, 0, 91), 92);
    var r1 := r0 + [Draw(0, 1, 5)];
    var r2 := r1 + [Draw(1, 1, 40)];
    var r3 := r2 + [Draw(2, 1, types)];
    var r4 := r3 + [Draw(3, 1, 50)];
    var r5 := r4 + [Draw(4, 1, containers)];
    Names(i);
    var n := 92 * Is(i, 37);
    One(r0, Draw(0, 1, 5), i, n);
    One(r1, Draw(1, 1, 40), i, n + Is(i, 0));
    One(r2, Draw(2, 1, types), i, n + Is(i, 0) + Is(i, 1));
    One(r3, Draw(3, 1, 50), i, n + Is(i, 0) + Is(i, 1) + Is(i, 2));
    One(r4, Draw(4, 1, containers), i, n + Is(i, 0) + Is(i, 1) + Is(i, 2) + Is(i, 3));
    Text(r5, comment, 6, 22, i, n + Is(i, 0) + Is(i, 1) + Is(i, 2) + Is(i, 3) + Is(i, 4));
  }

  lemma Names(i: nat)
    ensures AtMost(Repeated(Draw(37, 0, 91), 92), i, 92 * Is(i, 37))
    ensures Counted(Repeated(Draw(37, 0, 91), 92), i) == 92 * Is(i, 37)
  {
    hide Moved, Counted, Repeated;
    RepeatedCounts(Draw(37, 0, 91), 92, i);
  }

  /** A part supplier: one draw each for quantity and cost, and a comment. */
  function SupplyMost(i: nat): (n: nat)
  {
    Is(i, 7) + Is(i, 8) + Is(i, 9) * CommentDraws(198)
  }

  lemma SupplyCounts(row: Row, comment: Row, i: nat, most: nat)
    requires i <= MAX_STREAM && AtMost(row, i, most) && IsComment(comment, 9, 198)
    ensures AtMost(row + [Draw(7, 1, 9999)] + [Draw(8, 100, 100000)] + comment, i, most + SupplyMost(i))
    ensures i != 9 ==>
      Counted(row + [Draw(7, 1, 9999)] + [Draw(8, 100, 100000)] + comment, i) == Counted(row, i) + Is(i, 7) + Is(i, 8)
  {
    hide AtMost, Counted, IsComment, CommentDraws, Is;
    var r1 := row + [Draw(7, 1, 9999)];
    var r2 := r1 + [Draw(8, 100, 100000)];
    One(row, Draw(7, 1, 9999), i, most);
    One(r1, Draw(8, 100, 100000), i, most + Is(i, 7));
    Text(r2, comment, 9, 198, i, most + Is(i, 7) + Is(i, 8));
  }

  lemma {:induction false} SuppliesCount(row: Row, comments: seq<Row>, i: nat, most: nat)
    requires i <= MAX_STREAM && AtMost(row, i, most)
    requires forall k :: 0 <= k < |comments| ==> IsComment(comments[k], 9, 198)
    ensures AtMost(SuppliesDraws(row, comments), i, most + |comments| * SupplyMost(i))
    ensures i != 9 ==>
      Counted(SuppliesDraws(row, comments), i) == Counted(row, i) + (if i == 7 || i == 8 then |comments| else 0)
  {
    hide AtMost, Counted, IsComment, SupplyMost;
    if comments != [] {
      var n := |comments| - 1;
      SuppliesCount(row, comments[..n], i, most);
      SupplyCounts(SuppliesDraws(row, comments[..n]), comments[n], i, most + n * SupplyMost(i));
      assert (n + 1) * SupplyMost(i) == n * SupplyMost(i) + SupplyMost(i);
    }
  }

  /** A line: one draw from each stream but the comment's. */
  function ItemMost(i: nat): (n: nat)
  {
    (if 14 <= i <= 24 then 1 else 0) + Is(i, 25) * CommentDraws(43)
  }

  /** The first five draws of a line, and the last six. */
  lemma ItemFront(row: Row, u: Bounds, i: nat)
    requires i <= MAX_STREAM
    ensures var front := row + [Draw(14, 1, 50)] + [Draw(15, 0, 10)] + [Draw(16, 0, 8)] + [Draw(17, 1, u.instructions)]
                             + [Draw(18, 1, u.modes)];
      var n := if 14 <= i <= 18 then 1 else 0;
      Moved(front, i) == Moved(row, i) + n && Counted(front, i) == Counted(row, i) + n
  {
    hide Moved, Counted;
    var r1 := row + [Draw(14, 1, 50)];
    var r2 := r1 + [Draw(15, 0, 10)];
    var r3 := r2 + [Draw(16, 0, 8)];
    var r4 := r3 + [Draw(17, 1, u.instructions)];
    OneDrawMore(row, Draw(14, 1, 50), i);
    OneDrawMore(r1, Draw(15, 0, 10), i);
    OneDrawMore(r2, Draw(16, 0, 8), i);
    OneDrawMore(r3, Draw(17, 1, u.instructions), i);
    OneDrawMore(r4, Draw(18, 1, u.modes), i);
  }

  lemma ItemBack(row: Row, u: Bounds, i: nat)
    requires i <= MAX_STREAM
    ensures var back := row + [Draw(19, 1, u.parts)] + [Draw(20, 0, 3)] + [Draw(21, 1, 121)] + [Draw(22, 30, 90)]
                            + [Draw(23, 1, 30)];
      var n := if 19 <= i <= 23 then 1 else 0;
      Moved(back, i) == Moved(row, i) + n && Counted(back, i) == Counted(row, i) + n
  {
    hide Moved, Counted;
    var r1 := row + [Draw(19, 1, u.parts)];
    var r2 := r1 + [Draw(20, 0, 3)];
    var r3 := r2 + [Draw(21, 1, 121)];
    var r4 := r3 + [Draw(22, 30, 90)];
    OneDrawMore(row, Draw(19, 1, u.parts), i);
    OneDrawMore(r1, Draw(20, 0, 3), i);
    OneDrawMore(r2, Draw(21, 1, 121), i);
    OneDrawMore(r3, Draw(22, 30, 90), i);
    OneDrawMore(r4, Draw(23, 1, 30), i);
  }

  lemma ItemCounts(row: Row, item: Item, u: Bounds, i: nat, most: nat)
    requires i <= MAX_STREAM && AtMost(row, i, most) && IsComment(item.comment, 25, 43)
    ensures AtMost(ItemDraws(row, item, u), i, most + ItemMost(i))
    ensures i < 14 || i > 25 ==> Counted(ItemDraws(row, item, u), i) == Counted(row, i)
    ensures 14 <= i <= 23 ==> Counted(ItemDraws(row, item, u), i) == Counted(row, i) + 1
  {
    hide Moved, Counted, IsComment, CommentDraws;
    var front := row + [Draw(14, 1, 50)] + [Draw(15, 0, 10)] + [Draw(16, 0, 8)] + [Draw(17, 1, u.instructions)]
                 + [Draw(18, 1, u.modes)];
    var middle := front + item.comment;
    var back := middle + [Draw(19, 1, u.parts)] + [Draw(20, 0, 3)] + [Draw(21, 1, 121)] + [Draw(22, 30, 90)]
                + [Draw(23, 1, 30)];
    ItemFront(row, u, i);
    CommentIsOn(item.comment, 25, 43);
    Append(front, item.comment, 25, i);
    ItemBack(middle, u, i);
    OneDrawMore(back, Draw(24, 1, u.flags), i);
  }

  lemma CommentIsOn(row: Row, stream: int, longest: nat)
    requires IsComment(row, stream, longest)
    ensures AllOn(row, stream) && |row| <= CommentDraws(longest)
  {
  }

  lemma {:induction false} ItemsCount(row: Row, items: seq<Item>, u: Bounds, i: nat, most: nat)
    requires i <= MAX_STREAM && AtMost(row, i, most)
    requires forall k :: 0 <= k < |items| ==> IsComment(items[k].comment, 25, 43)
    ensures AtMost(ItemsDraws(row, items, u), i, most + |items| * ItemMost(i))
    ensures i < 14 || i > 25 ==> Counted(ItemsDraws(row, items, u), i) == Counted(row, i)
    ensures 14 <= i <= 23 ==> Counted(ItemsDraws(row, items, u), i) == Counted(row, i) + |items|
  {
    hide AtMost, IsComment, ItemMost, ItemDraws, Counted;
    if items != [] {
      var n := |items| - 1;
      ItemsCount(row, items[..n], u, i, most);
      ItemCounts(ItemsDraws(row, items[..n], u), items[n], u, i, most + n * ItemMost(i));
      assert (n + 1) * ItemMost(i) == n * ItemMost(i) + ItemMost(i);
    }
  }

  lemma HeaderCounts(u: Bounds, comment: Row, i: nat)
    requires IsComment(comment, 12, 78) && i <= MAX_STREAM
    ensures var row := OrderDraws(u, comment, []);
      && AtMost(row, i, Is(i, 40) + Is(i, 13) + Is(i, 38) + Is(i, 11) + Is(i, 12) * CommentDraws(78) + Is(i, 43))
      && Counted(row, i) == Is(i, 40) + Is(i, 13) + Is(i, 38) + Is(i, 11) + Is(i, 43)
                            + if i == 12 then |comment| else 0
  {
    hide Moved, Counted, IsComment, CommentDraws;
    var r1 := [Draw(40, 1, u.customers)];
    var r2 := r1 + [Draw(13, 92001, u.dates)];
    var r3 := r2 + [Draw(38, 1, u.priorities)];
    var r4 := r3 + [Draw(11, 1, u.clerks)];
    var r5 := r4 + comment;
    assert r1 == [] + [Draw(40, 1, u.customers)];
    NothingCounted(i);
    OneDrawMore([], Draw(40, 1, u.customers), i);
    OneDrawMore(r1, Draw(13, 92001, u.dates), i);
    OneDrawMore(r2, Draw(38, 1, u.priorities), i);
    OneDrawMore(r3, Draw(11, 1, u.clerks), i);
    CommentIsOn(comment, 12, 78);
    Append(r4, comment, 12, i);
    OneDrawMore(r5, Draw(43, 1, O_LCNT_MAX), i);
  }

  // ----- boundaries -----

  /** Every comment keeps to its share of the boundary in the seed table. */
  lemma CommentsFitBoundaries()
    ensures CommentDraws(22) <= BoundaryOf(6) && SUPP_PER_PART * CommentDraws(198) <= BoundaryOf(9)
    ensures CommentDraws(78) <= BoundaryOf(12) && O_LCNT_MAX * CommentDraws(43) <= BoundaryOf(25)
    ensures CommentDraws(116) <= BoundaryOf(31) && CommentDraws(100) <= BoundaryOf(36)
  {
  }

  /** No row of the table draws from stream i uncounted, or beyond its boundary. */
  lemma RowsKeepBoundaries(t: int, row: Row, i: nat)
    requires Splittable(Tpch, t) && IsRow(t, row) && i <= MAX_STREAM
    ensures AtMost(row, i, BoundaryOf(i))
    ensures t == LINE && (i == 13 || i == 43) ==> Counted(row, i) == 1
  {
    hide AtMost, PartDraws, SuppDraws, CustDraws, OrderDraws, IsComment, CommentDraws, Counted;
    CommentsFitBoundaries();
    if t == PART || t == PSUPP || t == PART_PSUPP {
      var types, containers, comment, supplies: seq<Row> :|
        row == PartDraws(types, containers, comment, supplies) && IsComment(comment, 6, 22) && AreSupplies(supplies);
      PartKeepsBoundaries(types, containers, comment, supplies, i);
    } else if t == SUPP {
      var len: nat, nations, comment, room, rest :|
        row == SuppDraws(len, nations, comment, room, rest) && len <= 40 && IsComment(comment, 36, 100);
      SuppCounts(len, nations, comment, room, rest, i);
      hide SuppDraws;
      Weaken(row, i, 9 * Is(i, 32) + Is(i, 33) + 3 * Is(i, 34) + Is(i, 35) + Is(i, 36) * CommentDraws(100)
                     + Is(i, 46) + Is(i, 45) + Is(i, 44) + Is(i, 47), BoundaryOf(i));
    } else if t == CUST {
      var len: nat, nations, segments, comment :|
        row == CustDraws(len, nations, segments, comment) && len <= 40 && IsComment(comment, 31, 116);
      CustCounts(len, nations, segments, comment, i);
      Weaken(row, i, 9 * Is(i, 26) + Is(i, 27) + 3 * Is(i, 28) + Is(i, 29) + Is(i, 30) + Is(i, 31) * CommentDraws(116),
             BoundaryOf(i));
    } else {
      var u, comment, items :|
        row == OrderDraws(u, comment, items) && IsComment(comment, 12, 78) && AreItems(items);
      OrderKeepsBoundaries(u, comment, items, i);
    }
  }

  lemma Weaken(row: Row, i: nat, most: nat, more: nat)
    requires AtMost(row, i, most) && most <= more
    ensures AtMost(row, i, more)
  {
    hide Moved, Counted;
  }

  lemma PartKeepsBoundaries(types: int, containers: int, comment: Row, supplies: seq<Row>, i: nat)
    requires IsComment(comment, 6, 22) && AreSupplies(supplies) && i <= MAX_STREAM
    ensures AtMost(PartDraws(types, containers, comment, supplies), i, BoundaryOf(i))
  {
    hide AtMost, IsComment, CommentDraws, Repeated, SupplyMost, BoundaryOf, Is;
    PartCounts(types, containers, comment, i);
    var most := 92 * Is(i, 37) + Is(i, 0) + Is(i, 1) + Is(i, 2) + Is(i, 3) + Is(i, 4) + Is(i, 6) * CommentDraws(22);
    var header := PartDraws(types, containers, comment, []);
    SuppliesCount(header, supplies, i, most);
    SuppliesFit(i, most);
    Weaken(SuppliesDraws(header, supplies), i, most + |supplies| * SupplyMost(i), BoundaryOf(i));
  }

  lemma SuppliesFit(i: nat, most: nat)
    requires i <= MAX_STREAM
    requires most == 92 * Is(i, 37) + Is(i, 0) + Is(i, 1) + Is(i, 2) + Is(i, 3) + Is(i, 4) + Is(i, 6) * CommentDraws(22)
    ensures most + SUPP_PER_PART * SupplyMost(i) <= BoundaryOf(i)
  {
    hide CommentDraws;
    CommentsFitBoundaries();
  }

  lemma OrderKeepsBoundaries(u: Bounds, comment: Row, items: seq<Item>, i: nat)
    requires IsComment(comment, 12, 78) && AreItems(items) && i <= MAX_STREAM
    ensures AtMost(OrderDraws(u, comment, items), i, BoundaryOf(i))
    ensures i == 13 || i == 43 ==> Counted(OrderDraws(u, comment, items), i) == 1
  {
    hide AtMost, IsComment, CommentDraws, Counted, ItemMost, BoundaryOf;
    HeaderCounts(u, comment, i);
    var most := Is(i, 40) + Is(i, 13) + Is(i, 38) + Is(i, 11) + Is(i, 12) * CommentDraws(78) + Is(i, 43);
    var header := OrderDraws(u, comment, []);
    ItemsCount(header, items, u, i, most);
    ItemsFit(|items|, i, most);
    Weaken(ItemsDraws(header, items, u), i, most + |items| * ItemMost(i), BoundaryOf(i));
  }

  lemma ItemsFit(items: nat, i: nat, most: nat)
    requires items <= O_LCNT_MAX && i <= MAX_STREAM
    requires most == Is(i, 40) + Is(i, 13) + Is(i, 38) + Is(i, 11) + Is(i, 12) * CommentDraws(78) + Is(i, 43)
    ensures most + items * ItemMost(i) <= BoundaryOf(i)
  {
    hide CommentDraws;
    CommentsFitBoundaries();
    if i == 25 {
      assert items * CommentDraws(43) <= O_LCNT_MAX * CommentDraws(43);
    }
  }

  /** What the rows draw from every stream but those of their texts; only the flags of a line may be fewer. */
  lemma RowsDraw(t: int, row: Row, i: nat)
    requires Splittable(Tpch, t) && IsRow(t, row) && i <= MAX_STREAM
    ensures (t == PART || t == PSUPP || t == PART_PSUPP) && i != 6 && i != 9 ==>
      Counted(row, i) == (if i <= 4 then 1 else if i == 37 then 92 else if i == 7 || i == 8 then 4 else 0)
    ensures t == SUPP && i != 32 && i != 36 ==>
      Counted(row, i) == (if i == 34 then 3 else if i == 33 || i == 35 || i >= 44 then 1 else 0)
    ensures t == CUST && i != 26 && i != 31 ==>
      Counted(row, i) == (if i == 28 then 3 else if i == 27 || i == 29 || i == 30 then 1 else 0)
    ensures (t == ORDER || t == LINE || t == ORDER_LINE) && i != 12 && i != 24 && i != 25 ==>
      Counted(row, i) == (if i == 11 || i == 13 || i == 38 || i == 40 || i == 43 then 1
                          else if 14 <= i <= 23 then Counted(row, 14) else 0)
  {
    hide AtMost, PartDraws, SuppDraws, CustDraws, OrderDraws, IsComment, CommentDraws, Counted;
    if t == PART || t == PSUPP || t == PART_PSUPP {
      var types, containers, comment, supplies: seq<Row> :|
        row == PartDraws(types, containers, comment, supplies) && IsComment(comment, 6, 22) && AreSupplies(supplies);
      if i != 6 && i != 9 { PartDrawn(types, containers, comment, supplies, i); }
    } else if t == SUPP {
      var len: nat, nations, comment, room, rest :|
        row == SuppDraws(len, nations, comment, room, rest) && len <= 40 && IsComment(comment, 36, 100);
      SuppCounts(len, nations, comment, room, rest, i);
    } else if t == CUST {
      var len: nat, nations, segments, comment :|
        row == CustDraws(len, nations, segments, comment) && len <= 40 && IsComment(comment, 31, 116);
      CustCounts(len, nations, segments, comment, i);
    } else {
      var u, comment, items :|
        row == OrderDraws(u, comment, items) && IsComment(comment, 12, 78) && AreItems(items);
      if i != 12 && i != 24 && i != 25 { OrderDrawn(u, comment, items, i); }
      OrderDrawn(u, comment, items, 14);
    }
  }

  lemma PartDrawn(types: int, containers: int, comment: Row, supplies: seq<Row>, i: nat)
    requires IsComment(comment, 6, 22) && AreSupplies(supplies) && i <= MAX_STREAM
    requires i != 6 && i != 9
    ensures Counted(PartDraws(types, containers, comment, supplies), i) ==
      if i <= 4 then 1 else if i == 37 then 92 else if i == 7 || i == 8 then 4 else 0
  {
    hide AtMost, Counted, IsComment, CommentDraws, Repeated, SupplyMost;
    PartCounts(types, containers, comment, i);
    var most := 92 * Is(i, 37) + Is(i, 0) + Is(i, 1) + Is(i, 2) + Is(i, 3) + Is(i, 4) + Is(i, 6) * CommentDraws(22);
    SuppliesCount(PartDraws(types, containers, comment, []), supplies, i, most);
  }

  lemma OrderDrawn(u: Bounds, comment: Row, items: seq<Item>, i: nat)
    requires IsComment(comment, 12, 78) && AreItems(items) && i <= MAX_STREAM
    requires i != 12 && i != 24 && i != 25
    ensures Counted(OrderDraws(u, comment, items), i) ==
      if i == 11 || i == 13 || i == 38 || i == 40 || i == 43 then 1 else if 14 <= i <= 23 then |items| else 0
  {
    hide AtMost, Counted, IsComment, CommentDraws, ItemMost;
    HeaderCounts(u, comment, i);
    var most := Is(i, 40) + Is(i, 13) + Is(i, 38) + Is(i, 11) + Is(i, 12) * CommentDraws(78) + Is(i, 43);
    ItemsCount(OrderDraws(u, comment, []), items, u, i, most);
  }

  /** Every TPC-H row moves each stream it is made from by its boundary, in either form. */
  lemma RowsAreSteady(form: Form, t: int, row: Row, i: nat)
    requires Splittable(Tpch, t) && IsRow(t, row) && Feeds(Tpch, t, i)
    ensures RowMoves(form, Covers(Tpch, t, i), BoundaryOf(i), row, i) == Pace(Tpch, t, i)
  {
    RowsKeepBoundaries(t, row, i);
    hide IsRow, Moved, Counted;
  }

  // ----- the length of a row -----

  lemma RowsAreShort(t: int, row: Row)
    requires IsRow(t, row)
    ensures |row| < 10_000
  {
    hide IsComment, CommentDraws, Repeated;
    if t == PART || t == PSUPP || t == PART_PSUPP {
      var types, containers, comment, supplies: seq<Row> :|
        row == PartDraws(types, containers, comment, supplies) && IsComment(comment, 6, 22) && AreSupplies(supplies);
      CommentIsShort(comment, 6, 22);
      SuppliesLength(Repeated(Draw(37, 0, 91), 92) + [Draw(0, 1, 5)] + [Draw(1, 1, 40)] + [Draw(2, 1, types)]
                     + [Draw(3, 1, 50)] + [Draw(4, 1, containers)] + comment, supplies);
    } else if t == SUPP {
      var len: nat, nations, comment, room, rest :|
        row == SuppDraws(len, nations, comment, room, rest) && len <= 40 && IsComment(comment, 36, 100);
      CommentIsShort(comment, 36, 100);
    } else if t == CUST {
      var len: nat, nations, segments, comment :|
        row == CustDraws(len, nations, segments, comment) && len <= 40 && IsComment(comment, 31, 116);
      CommentIsShort(comment, 31, 116);
    } else {
      var u, comment, items :|
        row == OrderDraws(u, comment, items) && IsComment(comment, 12, 78) && AreItems(items);
      CommentIsShort(comment, 12, 78);
      ItemsLength([Draw(40, 1, u.customers)] + [Draw(13, 92001, u.dates)] + [Draw(38, 1, u.priorities)]
                  + [Draw(11, 1, u.clerks)] + comment + [Draw(43, 1, O_LCNT_MAX)], items, u);
    }
  }

  lemma CommentIsShort(row: Row, stream: int, longest: nat)
    requires IsComment(row, stream, longest) && longest <= 198
    ensures |row| <= 361
  {
  }

  lemma {:induction false} SuppliesLength(row: Row, comments: seq<Row>)
    requires forall k :: 0 <= k < |comments| ==> IsComment(comments[k], 9, 198)
    ensures |SuppliesDraws(row, comments)| <= |row| + 363 * |comments|
  {
    hide IsComment;
    if comments != [] {
      SuppliesLength(row, comments[..|comments| - 1]);
      CommentIsShort(comments[|comments| - 1], 9, 198);
    }
  }

  lemma {:induction false} ItemsLength(row: Row, items: seq<Item>, u: Bounds)
    requires forall k :: 0 <= k < |items| ==> IsComment(items[k].comment, 25, 43)
    ensures |ItemsDraws(row, items, u)| <= |row| + 372 * |items|
  {
    hide IsComment;
    if items != [] {
      ItemsLength(row, items[..|items| - 1], u);
      CommentIsShort(items[|items| - 1].comment, 25, 43);
    }
  }
}
