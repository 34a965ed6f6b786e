/** print.c: the delete side of an update set, as key ranges, as keys in files, or as SQL. */
module DeleteRanges {
  import opened Sparse
  import opened Segments

  datatype Line =
    | SqlBetween(first: int, last: int)         // delete from ... where key between first and last
    | RangeLine(first: int, last: int)          // first|last
    | KeyLine(key: int, segment: nat)           // one key, in a numbered delete file

  /** The sparse keys of min .. upto-1. */
  ghost function Keys(min: nat, upto: int, s: nat): set<int>
  {
    set c | min <= c < upto :: MkSparse(c, s)
  }

  /** What one line deletes: in SQL mode only a statement does, otherwise every printed bound is one. */
  ghost function DeletedBy(genSql: bool, line: Line): set<int>
  {
    match line
    case SqlBetween(first, last) => Span(first, last)
    case RangeLine(first, last) => if genSql then {} else Span(first, last)
    case KeyLine(key, _) => if genSql then {} else {key}
  }

  ghost function Deleted(genSql: bool, lines: seq<Line>): set<int>
  {
    if lines == [] then {} else Deleted(genSql, lines[..|lines| - 1]) + DeletedBy(genSql, lines[|lines| - 1])
  }

  ghost function Span(first: int, last: int): (xs: set<int>)
    ensures forall x :: x in xs <==> first <= x <= last
    decreases last - first
  {
    if first > last then {} else Span(first, last - 1) + {last}
  }

  /** A key is deleted if some line takes it in. */
  lemma {:induction false} DeletedIs(genSql: bool, lines: seq<Line>, x: int)
    ensures x in Deleted(genSql, lines) <==>
      exists k ::
        0 <= k < |lines|
        && (match lines[k]
            case SqlBetween(first, last) => first <= x <= last
            case RangeLine(first, last) => !genSql && first <= x <= last
            case KeyLine(key, _) => !genSql && x == key)
  {
    if lines != [] {
      var n := |lines| - 1;
      DeletedIs(genSql, lines[..n], x);
      assert forall k :: 0 <= k < n ==> lines[..n][k] == lines[k];
    }
  }

  /** The keys of a stretch of indexes, in the terms of the macro. */
  lemma KeysAre(min: nat, upto: int, s: nat, x: int)
    ensures x in Keys(min, upto, s) <==> exists c: nat :: min <= c < upto && x == MkSparse(c, s)
  {
    hide MkSparse;
    if c: nat :| min <= c < upto && x == MkSparse(c, s) {
      assert MkSparse(c, s) in Keys(min, upto, s);
    }
  }

  lemma DeletedAppends(genSql: bool, lines: seq<Line>, line: Line)
    ensures Deleted(genSql, lines + [line]) == Deleted(genSql, lines) + DeletedBy(genSql, line)
  {
    assert (lines + [line])[..|lines|] == lines;
  }

  /** The first key index of the last maximal range among min .. upto-1: sparse keys run on within groups of eight. */
  function RunStart(min: nat, upto: nat): (c: nat)
    requires min <= upto
    ensures min <= c <= upto
  {
    if upto == min || (upto - 1) / 8 * 8 < min then min else (upto - 1) / 8 * 8
  }

  /** The next key runs on exactly within its group. */
  lemma RunGoesOn(min: nat, upto: nat, s: nat)
    requires min < upto
    ensures MkSparse(upto, s) == MkSparse(upto - 1, s) + 1 <==> upto / 8 == (upto - 1) / 8
    ensures RunStart(min, upto + 1) == if upto / 8 == (upto - 1) / 8 then RunStart(min, upto) else upto
  {
    NextGroup(upto);
  }

  lemma NextGroup(upto: nat)
    requires upto > 0
    ensures upto / 8 == (upto - 1) / 8 ==> upto % 8 == (upto - 1) % 8 + 1
    ensures upto / 8 != (upto - 1) / 8 ==> upto / 8 == (upto - 1) / 8 + 1 && upto % 8 == 0 && (upto - 1) % 8 == 7
  {
  }

  lemma KeysJoin(a: nat, b: nat, c: nat, s: nat)
    requires a <= b <= c
    ensures Keys(a, b, s) + Keys(b, c, s) == Keys(a, c, s)
    ensures Keys(a, a, s) == {}
  {
    hide MkSparse;
  }

  lemma KeysExtend(min: nat, c: nat, s: nat)
    requires min <= c
    ensures Keys(min, c + 1, s) == Keys(min, c, s) + {MkSparse(c, s)}
  {
  }

  /** The mode and the statics of pr_drange, with the global delete_segment. */
  class DeletePrinter {
    const genSql: bool
    const genRng: bool
    const deleteSegments: nat
    const refresh: nat
    var lastNum: int
    var rowsPerSegment: nat
    var rowsThisSegment: nat
    var residualRows: nat
    var deleteSegment: nat

    constructor (genSql: bool, genRng: bool, deleteSegments: nat, refresh: nat)
      ensures this.genSql == genSql && this.genRng == genRng
      ensures this.deleteSegments == deleteSegments && this.refresh == refresh
      ensures lastNum == 0 && rowsPerSegment == 0 && deleteSegment == 0
    {
      this.genSql, this.genRng, this.deleteSegments, this.refresh := genSql, genRng, deleteSegments, refresh;
      lastNum, rowsPerSegment, rowsThisSegment, residualRows, deleteSegment := 0, 0, 0, 0, 0;
    }

    /** main resets the file number before every update set. */
    method StartUpdate()
      modifies this`deleteSegment
      ensures deleteSegment == 0
    {
      deleteSegment := 0;
    }

    /** print_prep opens the next delete file. */
    method PrintPrep()
      modifies this`deleteSegment
      ensures deleteSegment == old(deleteSegment) + if deleteSegments > 0 then 1 else 0
    {
      if deleteSegments != 0 {
        deleteSegment := deleteSegment + 1;
      }
    }

    /** The sizes in the statics are those of cnt rows, or not set yet. */
    ghost predicate SizesFor(cnt: nat)
      reads this`rowsPerSegment, this`residualRows
      requires deleteSegments > 0
    {
      rowsPerSegment == cnt / deleteSegments + 1 && residualRows == cnt % deleteSegments
    }

    /** After k of cnt rows, the counters say which file is open and how full it is. */
    ghost predicate Counting(cnt: nat, k: nat)
      reads this
      requires deleteSegments > 0
    {
      deleteSegment >= 1
      && SegmentStart(cnt, deleteSegments, deleteSegment - 1) + rowsThisSegment == k
      && (if k == 0 then deleteSegment == 1 && (rowsPerSegment == 0 || SizesFor(cnt))
          else SizesFor(cnt) && InSegment(cnt, deleteSegments, k - 1, deleteSegment - 1))
    }

    /** The sizes are worked out when the first key of a run is printed. */
    method SetSizes(left: nat, ghost cnt: nat, ghost k: nat)
      requires deleteSegments > 0 && k < cnt && left == cnt - k && Counting(cnt, k)
      modifies this`rowsPerSegment, this`residualRows
      ensures SizesFor(cnt) && Counting(cnt, k)
    {
      hide SegmentStart;
      if rowsPerSegment == 0 {
        rowsPerSegment := left / deleteSegments;
        residualRows := left % deleteSegments;
        rowsPerSegment := rowsPerSegment + 1;
      }
    }

    /** The counters of the delete segmenter, for row k of cnt. */
    method CountRow(left: nat, ghost cnt: nat, ghost k: nat)
      requires deleteSegments > 0 && k < cnt && left == cnt - k && Counting(cnt, k)
      modifies this`rowsPerSegment, this`rowsThisSegment, this`residualRows, this`deleteSegment
      ensures Counting(cnt, k + 1)
      ensures InSegment(cnt, deleteSegments, k, deleteSegment - 1)
    {
      hide SegmentStart, SizesFor;
      SetSizes(left, cnt, k);
      SegmentSize(cnt, deleteSegments, deleteSegment - 1);
      SizesAre(cnt);
      if deleteSegment <= residualRows {
        rowsThisSegment := rowsThisSegment + 1;
        if rowsThisSegment > rowsPerSegment {
          PrintPrep();
          rowsThisSegment := 1;
        }
      } else {
        rowsThisSegment := rowsThisSegment + 1;
        if rowsThisSegment >= rowsPerSegment {
          PrintPrep();
          rowsThisSegment := 1;
        }
      }
      if rowsThisSegment == 1 {
        NextSegmentOpens(cnt, deleteSegments, k, deleteSegment - 1);
      }
    }

    lemma SizesAre(cnt: nat)
      requires deleteSegments > 0 && SizesFor(cnt)
      ensures cnt / deleteSegments == rowsPerSegment - 1 && cnt % deleteSegments == residualRows
    {
    }

    /** pr_drange for a new update set; opening a file cannot fail here. */
    method PrDrange(min: nat, cnt: nat, num: nat) returns (lines: seq<Line>)
      requires 1 <= refresh <= 10000 && num >= 1 && num != lastNum && deleteSegment == 0
      requires deleteSegments > 0 ==> rowsPerSegment == 0 || SizesFor(cnt)
      modifies this`lastNum, this`rowsPerSegment, this`rowsThisSegment, this`residualRows, this`deleteSegment
      ensures lastNum == num
      ensures deleteSegments > 0 ==> rowsPerSegment == 0 || SizesFor(cnt)
      ensures Printed(genSql, genRng, deleteSegments, min, cnt, (num - 1) / (10000 / refresh), lines)
      ensures var s := (num - 1) / (10000 / refresh);
        !genRng ==> |lines| == cnt && forall k :: 0 <= k < cnt ==>
          if !genSql then
            lines[k].KeyLine? && lines[k].key == MkSparse(min + k, s)
            && if deleteSegments == 0 then lines[k].segment == 0
               else lines[k].segment > 0 && InSegment(cnt, deleteSegments, k, lines[k].segment - 1)
          else if k == 0 then lines[k] == SqlBetween(MkSparse(min, s), MkSparse(min, s) - 1)
          else lines[k] == SqlBetween(MkSparse(min + k - 1, s), MkSparse(min + k - 1, s))
      ensures var s := (num - 1) / (10000 / refresh);
        genRng && cnt == 0 ==> lines == [RangeLine(MkSparse(min, s), MkSparse(min, s) - 1)]
      ensures genRng && cnt > 0 ==> lines != [] && lines[|lines| - 1].RangeLine? && forall k :: 0 <= k < |lines| ==>
        && !lines[k].KeyLine? && (k < |lines| - 1 ==> lines[k].SqlBetween? == genSql)
        && lines[k].first <= lines[k].last && (k > 0 ==> lines[k - 1].last + 1 < lines[k].first)
    {
      hide MkSparse, Deleted, Keys, Span, SizesFor, SegmentStart, RunStart;
      if lastNum != num {
        PrintPrep();
        lastNum := num;
        rowsThisSegment := 0;
      }
      var s := (num - 1) / (10000 / refresh);
      var start: int := MkSparse(min, s);
      var last: int := start - 1;
      lines := [];
      if deleteSegments > 0 { SegmentSize(cnt, deleteSegments, 0); }
      Begins(genSql, genRng, deleteSegments, min, cnt, s, start, last);
      var child, left := min, cnt;
      while left > 0
        invariant left >= 0 && child == min + cnt - left && lastNum == num
        invariant Reached(genSql, genRng, deleteSegments, min, cnt, child, s, start, last, lines)
        invariant deleteSegments > 0 ==>
          if genSql || genRng then rowsPerSegment == 0 || SizesFor(cnt) else Counting(cnt, child - min)
      {
        var new_ := MkSparse(child, s);
        NextKey(genSql, genRng, deleteSegments, min, cnt, child, s, start, last, lines);
        if genRng && new_ - last == 1 {
          ExtendRange(genSql, deleteSegments, min, cnt, child, s, start, last, lines);
          last := new_;
        } else {
          ghost var before, first, end := lines, start, last;
          if genSql {
            lines := lines + [SqlBetween(start, last)];
          } else if genRng {
            lines := lines + [RangeLine(start, last)];
          } else {
            if deleteSegments != 0 {
              CountRow(left, cnt, child - min);
            }
            lines := lines + [KeyLine(new_, if deleteSegments != 0 then deleteSegment else 0)];
          }
          start := new_;
          last := new_;
          if genRng {
            PrintRange(genSql, deleteSegments, min, cnt, child, s, first, end, before, lines[|before|]);
          } else {
            PrintLine(genSql, deleteSegments, min, cnt, child, s, first, end, before, lines[|before|]);
          }
        }
        child, left := child + 1, left - 1;
      }
      if genRng {
        CloseRange(genSql, deleteSegments, min, cnt, s, start, last, lines);
        lines := lines + [RangeLine(start, last)];
      }
    }
  }

  // ----- what is printed -----

  /** Increasing lines with a gap after each, and after the last one a gap before next. */
  ghost predicate Separated(lines: seq<Line>, next: int)
  {
    (forall k :: 0 <= k < |lines| ==> !lines[k].KeyLine? && lines[k].first <= lines[k].last && lines[k].last + 1 < next)
    && forall k :: 0 < k < |lines| ==> lines[k - 1].last + 1 < lines[k].first
  }

  /** Line k names the k-th key, in the delete file its row belongs to. */
  ghost predicate NamesKeys(lines: seq<Line>, deleteSegments: nat, min: nat, cnt: nat, s: nat)
  {
    forall k :: 0 <= k < |lines| ==>
      && lines[k].KeyLine? && lines[k].key == MkSparse(min + k, s)
      && if deleteSegments == 0 then lines[k].segment == 0
         else lines[k].segment >= 1 && InSegment(cnt, deleteSegments, k, lines[k].segment - 1)
  }

  /** Statement k takes in the key before, and the first one takes in nothing. */
  ghost predicate OneKeyLate(lines: seq<Line>, min: nat, s: nat)
  {
    forall k :: 0 <= k < |lines| ==>
      lines[k] == if k == 0 then SqlBetween(MkSparse(min, s), MkSparse(min, s) - 1)
                  else SqlBetween(MkSparse(min + k - 1, s), MkSparse(min + k - 1, s))
  }

  /**
   The finished output. The SQL form prints each range one row late and the last one, if at all, not as
   SQL: without -O r it misses the last key, with it the last range.
   */
  ghost predicate Printed(genSql: bool, genRng: bool, deleteSegments: nat, min: nat, cnt: nat, s: nat, lines: seq<Line>)
  {
    if genRng then
      && lines != [] && lines[|lines| - 1].RangeLine?
      && Deleted(genSql, lines) == Keys(min, if genSql then RunStart(min, min + cnt) else min + cnt, s)
      && Span(lines[|lines| - 1].first, lines[|lines| - 1].last) == Keys(RunStart(min, min + cnt), min + cnt, s)
      && (cnt > 0 ==> Separated(lines, lines[|lines| - 1].last + 2))
      && (cnt == 0 ==> lines == [RangeLine(MkSparse(min, s), MkSparse(min, s) - 1)])
      && forall k :: 0 <= k < |lines| - 1 ==> lines[k].SqlBetween? == genSql
    else if genSql then
      && |lines| == cnt && OneKeyLate(lines, min, s)
      && Deleted(true, lines) == Keys(min, min + cnt - 1, s)
    else
      && |lines| == cnt && NamesKeys(lines, deleteSegments, min, cnt, s)
      && Deleted(false, lines) == Keys(min, min + cnt, s)
  }

  /** The loop invariant: what has been printed for min .. child-1, with start..last still open. */
  ghost predicate Reached(genSql: bool, genRng: bool, deleteSegments: nat, min: nat, cnt: nat, child: nat, s: nat,
                          start: int, last: int, lines: seq<Line>)
  {
    && min <= child <= min + cnt
    && (if child == min then lines == [] && start == MkSparse(min, s) == last + 1
        else start <= last == MkSparse(child - 1, s))
    && if genRng then
         && Deleted(genSql, lines) == Keys(min, RunStart(min, child), s)
         && Span(start, last) == Keys(RunStart(min, child), child, s)
         && Separated(lines, start)
         && forall k :: 0 <= k < |lines| ==> lines[k].SqlBetween? == genSql && !lines[k].KeyLine?
       else if genSql then
         && |lines| == child - min && (child > min ==> start == last)
         && OneKeyLate(lines, min, s)
         && Deleted(true, lines) == Keys(min, child - 1, s)
       else
         && |lines| == child - min && NamesKeys(lines, deleteSegments, min, cnt, s)
         && Deleted(false, lines) == Keys(min, child, s)
  }

  lemma Begins(genSql: bool, genRng: bool, deleteSegments: nat, min: nat, cnt: nat, s: nat, start: int, last: int)
    requires start == MkSparse(min, s) == last + 1
    ensures Reached(genSql, genRng, deleteSegments, min, cnt, min, s, start, last, [])
  {
    assert Keys(min, min, s) == {} && Keys(min, min - 1, s) == {} && Span(start, last) == {};
  }

  /** The next key lies beyond the open range. */
  lemma NextKey(genSql: bool, genRng: bool, deleteSegments: nat, min: nat, cnt: nat, child: nat, s: nat,
                start: int, last: int, lines: seq<Line>)
    requires Reached(genSql, genRng, deleteSegments, min, cnt, child, s, start, last, lines)
    ensures last < MkSparse(child, s)
    ensures child == min ==> MkSparse(child, s) - last == 1
  {
    if child > min {
      SparseIncreases(child - 1, child, s);
    }
  }

  lemma ExtendRange(genSql: bool, deleteSegments: nat, min: nat, cnt: nat, child: nat, s: nat,
                    start: int, last: int, lines: seq<Line>)
    requires child < min + cnt && MkSparse(child, s) == last + 1
    requires Reached(genSql, true, deleteSegments, min, cnt, child, s, start, last, lines)
    ensures Reached(genSql, true, deleteSegments, min, cnt, child + 1, s, start, last + 1, lines)
  {
    hide MkSparse, Deleted;
    var first := RunStart(min, child);
    KeysExtend(first, child, s);
    assert Span(start, last + 1) == Span(start, last) + {last + 1};
    if child > min {
      RunGoesOn(min, child, s);
      hide RunStart;
    }
  }

  /** A range is printed when a key does not run on. */
  lemma {:induction false} PrintRange(genSql: bool, deleteSegments: nat, min: nat, cnt: nat, child: nat, s: nat,
                                      start: int, last: int, lines: seq<Line>, line: Line)
    requires min < child < min + cnt && last + 1 < MkSparse(child, s)
    requires Reached(genSql, true, deleteSegments, min, cnt, child, s, start, last, lines)
    requires line == if genSql then SqlBetween(start, last) else RangeLine(start, last)
    ensures var key := MkSparse(child, s);
      Reached(genSql, true, deleteSegments, min, cnt, child + 1, s, key, key, lines + [line])
  {
    hide MkSparse, Deleted;
    var key, first := MkSparse(child, s), RunStart(min, child);
    DeletedAppends(genSql, lines, line);
    RunGoesOn(min, child, s);
    KeysJoin(min, first, child, s);
    KeysJoin(child, child, child, s);
    KeysExtend(child, child, s);
    assert Span(key, key) == {key};
    hide RunStart, Keys, Span;
  }

  /** Without ranges a line is printed for every key. */
  lemma {:induction false} PrintLine(genSql: bool, deleteSegments: nat, min: nat, cnt: nat, child: nat, s: nat,
                                     start: int, last: int, lines: seq<Line>, line: Line)
    requires child < min + cnt && last < MkSparse(child, s)
    requires Reached(genSql, false, deleteSegments, min, cnt, child, s, start, last, lines)
    requires if genSql then line == SqlBetween(start, last)
      else (line.KeyLine? && line.key == MkSparse(child, s)
            && if deleteSegments == 0 then line.segment == 0
               else line.segment >= 1 && InSegment(cnt, deleteSegments, child - min, line.segment - 1))
    ensures var key := MkSparse(child, s);
      Reached(genSql, false, deleteSegments, min, cnt, child + 1, s, key, key, lines + [line])
  {
    hide MkSparse, Deleted, SegmentStart, RunStart;
    DeletedAppends(genSql, lines, line);
    KeysExtend(min, child, s);
    if genSql {
      if child > min {
        KeysExtend(min, child - 1, s);
        assert Span(start, last) == {last};
      } else {
        assert Span(start, last) == {} && Keys(min, child, s) == {} == Keys(min, child - 1, s);
      }
    }
  }

  lemma {:induction false} CloseRange(genSql: bool, deleteSegments: nat, min: nat, cnt: nat, s: nat,
                                      start: int, last: int, lines: seq<Line>)
    requires Reached(genSql, true, deleteSegments, min, cnt, min + cnt, s, start, last, lines)
    ensures Printed(genSql, true, deleteSegments, min, cnt, s, lines + [RangeLine(start, last)])
  {
    hide MkSparse, Deleted, Keys, Span, RunStart;
    DeletedAppends(genSql, lines, RangeLine(start, last));
    KeysJoin(min, RunStart(min, min + cnt), min + cnt, s);
  }

  // ----- the keys that SQL misses -----

  lemma KeysApart(a: nat, b: nat, c: nat, s: nat)
    requires a <= b <= c
    ensures Keys(a, c, s) - Keys(a, b, s) == Keys(b, c, s)
  {
    KeysJoin(a, b, c, s);
    forall x | x in Keys(a, b, s)
      ensures x !in Keys(b, c, s)
    {
      var i :| a <= i < b && x == MkSparse(i, s);
      forall j | b <= j < c
        ensures MkSparse(j, s) != x
      {
        SparseIncreases(i, j, s);
      }
    }
  }

  /** Without -O r, the SQL deletes miss the last order of every update set, and only that one. */
  lemma SqlMissesLastKey(deleteSegments: nat, min: nat, cnt: nat, s: nat, lines: seq<Line>)
    requires cnt > 0 && Printed(true, false, deleteSegments, min, cnt, s, lines)
    ensures Keys(min, min + cnt, s) - Deleted(true, lines) == {MkSparse(min + cnt - 1, s)}
  {
    hide MkSparse, Deleted;
    KeysApart(min, min + cnt - 1, min + cnt, s);
    assert Keys(min + cnt - 1, min + cnt, s) == {MkSparse(min + cnt - 1, s)};
  }

  /** With -O r they miss the orders in the last one's group of eight: their range is printed, but not as SQL. */
  lemma SqlMissesLastRange(deleteSegments: nat, min: nat, cnt: nat, s: nat, lines: seq<Line>)
    requires cnt > 0 && Printed(true, true, deleteSegments, min, cnt, s, lines)
    ensures Keys(min, min + cnt, s) - Deleted(true, lines)
      == set c | min <= c < min + cnt && c / 8 == (min + cnt - 1) / 8 :: MkSparse(c, s)
    ensures MkSparse(min + cnt - 1, s) !in Deleted(true, lines)
  {
    hide MkSparse, Deleted, Span;
    var first := RunStart(min, min + cnt);
    KeysApart(min, first, min + cnt, s);
    forall c | min <= c < min + cnt
      ensures c / 8 == (min + cnt - 1) / 8 <==> first <= c
    {
      SameGroup(min, min + cnt - 1, c);
    }
    assert first <= min + cnt - 1;
    assert MkSparse(min + cnt - 1, s) in Keys(first, min + cnt, s);
  }

  lemma SameGroup(min: nat, last: nat, c: nat)
    requires min <= c <= last
    ensures c / 8 == last / 8 <==> RunStart(min, last + 1) <= c
  {
    assert last / 8 * 8 <= last < last / 8 * 8 + 8;
  }
}
