/** bm_utils.c and permute.c: weighted lists, shuffles and random text, all drawn from the seed table. */
module Distributions {
  import opened Division
  import opened Rnd
  import opened SpeedSeed
  import opened Streams
  import A = Alignment
  import opened Skipping

  // ----- weighted lists -----

  /** set_member of dss.h; weight is the running total. */
  datatype Member = Member(weight: int, text: string)

  /** The members written to the list, the length that was announced and allocated, and the total weight. */
  datatype ReadResult = ReadError | Loaded(list: seq<Member>, count: int, max: int)

  /** The sum of the first n weights. */
  function Total(entries: seq<(string, int)>, n: nat): int
    requires n <= |entries|
  {
    if n == 0 then 0 else Total(entries, n - 1) + entries[n - 1].1
  }

  /**
   What read_dist makes of the entries between its "count" line and the END line or the end of the file.
   Only a list that no END line closes is checked against the announced length.
   */
  function DistOf(entries: seq<(string, int)>, count: int, ended: bool): (r: ReadResult)
  {
    if !ended && |entries| != count then ReadError
    else Loaded(seq(|entries|, i requires 0 <= i < |entries| => Member(Total(entries, i + 1), entries[i].0)),
                count, Total(entries, |entries|))
  }

  /** read_dist from its "count" line on, for the entries that parsed. */
  method ReadDist(entries: seq<(string, int)>, count: int, ended: bool) returns (r: ReadResult)
    ensures r == DistOf(entries, count, ended)
    ensures r.ReadError? <==> !ended && |entries| != count
    ensures r.Loaded? ==> |r.list| == |entries| && r.count == count && r.max == Total(entries, |entries|)
    ensures r.Loaded? ==> forall i :: 0 <= i < |r.list| ==> r.list[i] == Member(Total(entries, i + 1), entries[i].0)
  {
    hide Total;
    NoWeights(entries);
    var list: seq<Member>, max := [], 0;
    var read := 0;
    while read < |entries|
      invariant 0 <= read <= |entries| && |list| == read && max == Total(entries, read)
      invariant forall i :: 0 <= i < read ==> list[i] == Member(Total(entries, i + 1), entries[i].0)
    {
      OneWeight(entries, read);
      max := max + entries[read].1;
      list := list + [Member(max, entries[read].0)];
      read := read + 1;
    }
    if ended {
      return Loaded(list, count, max);
    }
    r := if read != count then ReadError else Loaded(list, count, max);
  }

  /** The list fills its allocation exactly, and pick_str can search it. */
  ghost predicate Usable(r: ReadResult)
  {
    r.Loaded? && |r.list| == r.count && Cumulative(r.list)
  }

  /**
   A loaded list is usable if and only if the file announced its length truly, no weight is negative and
   some weight is positive.
   */
  lemma LoadedListIsUsable(entries: seq<(string, int)>, count: int, ended: bool)
    ensures Usable(DistOf(entries, count, ended)) <==>
      |entries| == count && (forall i :: 0 <= i < |entries| ==> entries[i].1 >= 0) && Total(entries, |entries|) > 0
  {
    hide Total, Cumulative;
    var r := DistOf(entries, count, ended);
    if |entries| == count {
      if (forall i :: 0 <= i < |entries| ==> entries[i].1 >= 0) && Total(entries, |entries|) > 0 {
        ListIsCumulative(entries, r.list);
      }
      if Cumulative(r.list) {
        CumulativeNeedsWeights(entries, r.list);
      }
    }
  }

  lemma {:induction false} CumulativeNeedsWeights(entries: seq<(string, int)>, list: seq<Member>)
    requires |list| == |entries| && Cumulative(list)
    requires forall i :: 0 <= i < |list| ==> list[i] == Member(Total(entries, i + 1), entries[i].0)
    ensures Total(entries, |entries|) > 0
    ensures forall i :: 0 <= i < |entries| ==> entries[i].1 >= 0
  {
    assert list[|list| - 1].weight == Total(entries, |entries|);
    forall i | 0 <= i < |entries|
      ensures entries[i].1 >= 0
    {
      OneWeight(entries, i);
      assert i > 0 ==> list[i - 1].weight == Total(entries, i) <= list[i].weight;
    }
    hide Total;
  }

  lemma NoWeights(entries: seq<(string, int)>)
    ensures Total(entries, 0) == 0
  {
  }

  lemma OneWeight(entries: seq<(string, int)>, i: nat)
    requires i < |entries|
    ensures Total(entries, i + 1) == Total(entries, i) + entries[i].1 && Total(entries, 0) == 0
  {
  }

  /** An END line hides a wrong length: two members are loaded for three, and the last slot stays unwritten. */
  lemma EndHidesWrongLength()
    ensures var entries := [("a", 1), ("b", 1)];
      && DistOf(entries, 3, false) == ReadError
      && DistOf(entries, 3, true) == Loaded([Member(1, "a"), Member(2, "b")], 3, 2)
      && !Usable(DistOf(entries, 3, true))
  {
    var entries := [("a", 1), ("b", 1)];
    assert Total(entries, 1) == 1 && Total(entries, 2) == 2;
    LoadedListIsUsable(entries, 3, true);
  }

  /** A list as read_dist builds it from non-negative weights with a positive total. */
  ghost predicate Cumulative(list: seq<Member>)
  {
    |list| > 0 && list[|list| - 1].weight > 0 && list[0].weight >= 0
    && forall i :: 0 < i < |list| ==> list[i - 1].weight <= list[i].weight
  }

  lemma {:induction false} TotalsIncrease(entries: seq<(string, int)>, n: nat)
    requires n <= |entries| && forall i :: 0 <= i < |entries| ==> entries[i].1 >= 0
    ensures 0 <= Total(entries, n)
    ensures n > 0 ==> Total(entries, n - 1) <= Total(entries, n)
  {
    if n > 0 {
      TotalsIncrease(entries, n - 1);
    }
  }

  lemma {:induction false} ListIsCumulative(entries: seq<(string, int)>, list: seq<Member>)
    requires |list| == |entries| && forall i :: 0 <= i < |entries| ==> entries[i].1 >= 0
    requires Total(entries, |entries|) > 0
    requires forall i :: 0 <= i < |list| ==> list[i] == Member(Total(entries, i + 1), entries[i].0)
    ensures Cumulative(list)
    ensures forall i :: 0 <= i < |list| ==> list[i].weight - Below(list, i) == entries[i].1
  {
    assert Total(entries, 0) == 0;
    forall i | 0 <= i < |list|
      ensures Total(entries, i + 1) == Total(entries, i) + entries[i].1 && Total(entries, i) >= 0
    {
      TotalsIncrease(entries, i);
    }
  }

  /** The running total before entry i. */
  function Below(list: seq<Member>, i: nat): int
    requires i < |list|
  {
    if i == 0 then 0 else list[i - 1].weight
  }

  /** Draw j selects entry i. */
  predicate Selects(list: seq<Member>, j: int, i: nat)
  {
    i < |list| && Below(list, i) < j <= list[i].weight
  }

  /** The search of pick_str finds an end for draw j. */
  ghost predicate Stops(list: seq<Member>, j: int)
  {
    exists i :: 0 <= i < |list| && j <= list[i].weight
  }

  /** Some running total is at least 1. */
  ghost predicate Searchable(list: seq<Member>)
  {
    exists i :: 0 <= i < |list| && 1 <= list[i].weight
  }

  /** The draw of pick_str: RANDOM swaps the bounds if the last total is below 1. */
  function PickDraw(list: seq<Member>, c: int): Draw
    requires list != []
  {
    Draw(c, 1, list[|list| - 1].weight)
  }

  /** The search stops inside the list for every draw if and only if some running total is at least 1. */
  lemma SearchStops(list: seq<Member>, c: int)
    requires list != []
    ensures (forall j :: Low(PickDraw(list, c)) <= j <= High(PickDraw(list, c)) ==> Stops(list, j))
            <==> Searchable(list)
  {
    var last := list[|list| - 1].weight;
    if Searchable(list) {
      var i :| 0 <= i < |list| && 1 <= list[i].weight;
      forall j | Low(PickDraw(list, c)) <= j <= High(PickDraw(list, c))
        ensures Stops(list, j)
      {
        assert j <= if last >= 1 then list[|list| - 1].weight else list[i].weight;
      }
    } else {
      assert Low(PickDraw(list, c)) <= 1 <= High(PickDraw(list, c));
      assert !Stops(list, 1);
    }
  }

  lemma CumulativeIsSearchable(list: seq<Member>)
    requires Cumulative(list)
    ensures list != [] && Searchable(list)
  {
    assert 1 <= list[|list| - 1].weight;
  }

  /**
   pick_str: returns the position and the text of the first entry that reaches the draw; in a list with
   weights that are not negative, that is the entry whose share the draw falls in.
   */
  method PickStr(list: seq<Member>, c: int, seeds: array<Stream>) returns (i: int, target: string, ghost drawn: int)
    requires list != [] && Searchable(list) && ValidTable(seeds[..])
    modifies seeds
    ensures seeds[..] == AfterDraw(old(seeds[..]), Draw(c, 1, list[|list| - 1].weight))
    ensures IsDrawn(old(seeds[..]), Draw(c, 1, list[|list| - 1].weight), drawn)
    ensures 0 <= i < |list| && target == list[i].text
    ensures drawn <= list[i].weight && forall k :: 0 <= k < i ==> list[k].weight < drawn
    ensures Cumulative(list) ==> 1 <= drawn <= list[|list| - 1].weight && Selects(list, drawn, i)
  {
    SearchStops(list, c);
    var j := DssRandom(PickDraw(list, c), seeds);
    drawn := j;
    assert Stops(list, j);
    i := 0;
    while list[i].weight < j
      invariant 0 <= i < |list| && forall k :: 0 <= k < i ==> list[k].weight < j
      decreases |list| - i
    {
      i := i + 1;
    }
    target := list[i].text;
  }

  lemma {:induction false} WeightsOrdered(list: seq<Member>, i: nat, k: nat)
    requires Cumulative(list) && i <= k < |list|
    ensures list[i].weight <= list[k].weight
    decreases k - i
  {
    if i < k {
      WeightsOrdered(list, i, k - 1);
    }
  }

  /** The draws in low+1 .. high. */
  ghost function Interval(low: int, high: int): (s: set<int>)
    requires low <= high
    ensures forall j :: j in s <==> low < j <= high
    ensures |s| == high - low
    decreases high - low
  {
    if low == high then {} else Interval(low, high - 1) + {high}
  }

  /** Of the draws 1 .. total, exactly weight_i select entry i. */
  lemma DrawsPerEntry(list: seq<Member>, i: nat)
    requires Cumulative(list) && i < |list|
    ensures |set j | 1 <= j <= list[|list| - 1].weight && Selects(list, j, i)| == list[i].weight - Below(list, i)
  {
    WeightsOrdered(list, i, |list| - 1);
    WeightsOrdered(list, 0, i);
    if i > 0 { WeightsOrdered(list, 0, i - 1); }
    var draws := set j | 1 <= j <= list[|list| - 1].weight && Selects(list, j, i);
    assert draws == Interval(Below(list, i), list[i].weight);
  }

  /** And no draw selects two entries. */
  lemma SelectionIsUnique(list: seq<Member>, j: int, i: nat, k: nat)
    requires Cumulative(list) && Selects(list, j, i) && Selects(list, j, k)
    ensures i == k
  {
    if i < k { WeightsOrdered(list, i, k - 1); }
    if k < i { WeightsOrdered(list, k, i - 1); }
  }

  // ----- shuffles -----

  /** A rearrangement of 0 .. |p|-1. */
  ghost predicate IsPermutation(p: seq<int>)
  {
    (forall i :: 0 <= i < |p| ==> 0 <= p[i] < |p|)
    && forall i, j :: 0 <= i < j < |p| ==> p[i] != p[j]
  }

  /** Every number below |p| occurs in it. */
  lemma PermutationHitsAll(p: seq<int>, v: int)
    requires IsPermutation(p) && 0 <= v < |p|
    ensures v in p
  {
    PrefixSize(p, |p|);
    assert p[..|p|] == p;
    var all := Interval(-1, |p| - 1);
    assert Elements(p) <= all;
    if v !in p {
      assert Elements(p) <= all - {v};
      SubsetIsSmaller(Elements(p), all - {v});
      assert false;
    }
  }

  ghost function Elements(p: seq<int>): set<int>
  {
    set x | x in p
  }

  lemma {:induction false} PrefixSize(p: seq<int>, n: nat)
    requires n <= |p| && forall i, j :: 0 <= i < j < |p| ==> p[i] != p[j]
    ensures |Elements(p[..n])| == n
  {
    if n > 0 {
      PrefixSize(p, n - 1);
      assert p[..n] == p[..n - 1] + [p[n - 1]];
      assert Elements(p[..n]) == Elements(p[..n - 1]) + {p[n - 1]};
    }
  }

  lemma {:induction false} SubsetIsSmaller(s: set<int>, t: set<int>)
    requires s <= t
    ensures |s| <= |t|
  {
    assert t == s + (t - s);
  }

  /** p with the contents of two places exchanged. */
  function Exchanged(p: seq<int>, x: int, y: int): (q: seq<int>)
    requires 0 <= x < |p| && 0 <= y < |p|
    ensures |q| == |p| && q[x] == p[y] && q[y] == p[x]
    ensures forall k :: 0 <= k < |p| && k != x && k != y ==> q[k] == p[k]
  {
    p[x := p[y]][y := p[x]]
  }

  /** From 0 .. c-1 on, turn i has exchanged places i and draws[i]. */
  ghost predicate Exchanging(c: nat, draws: seq<int>, steps: seq<seq<int>>)
  {
    |draws| <= c && |steps| == |draws| + 1 && steps[0] == seq(c, k => k)
    && forall i :: 0 <= i < |draws| ==>
      0 <= draws[i] < c == |steps[i]| && steps[i + 1] == Exchanged(steps[i], i, draws[i])
  }

  ghost predicate Exchanges(draws: seq<int>, steps: seq<seq<int>>)
  {
    Exchanging(|draws|, draws, steps)
  }

  lemma StartExchanging(c: nat)
    ensures Exchanging(c, [], [seq(c, k => k)])
  {
  }

  lemma ExchangeMore(c: nat, draws: seq<int>, steps: seq<seq<int>>, d: int)
    requires Exchanging(c, draws, steps) && |draws| < c && 0 <= d < c
    ensures |steps| == |draws| + 1 && |steps[|draws|]| == c
    ensures Exchanging(c, draws + [d], steps + [Exchanged(steps[|draws|], |draws|, d)])
  {
    StepsPermute(c, draws, steps);
  }

  /** So it ends with a permutation, which the drawn numbers determine exchange by exchange. */
  lemma ExchangesPermute(draws: seq<int>, steps: seq<seq<int>>)
    requires Exchanges(draws, steps)
    ensures |steps| == |draws| + 1 && forall i :: 0 <= i <= |draws| ==> |steps[i]| == |draws| && IsPermutation(steps[i])
    ensures forall k :: 0 <= k < |draws| ==> steps[0][k] == k
    ensures forall i :: 0 <= i < |draws| ==> 0 <= draws[i] < |draws|
    ensures forall i :: 0 <= i < |draws| ==>
      && steps[i + 1][i] == steps[i][draws[i]] && steps[i + 1][draws[i]] == steps[i][i]
      && forall k :: 0 <= k < |draws| && k != i && k != draws[i] ==> steps[i + 1][k] == steps[i][k]
  {
    StepsPermute(|draws|, draws, steps);
  }

  lemma {:induction false} StepsPermute(c: nat, draws: seq<int>, steps: seq<seq<int>>)
    requires Exchanging(c, draws, steps)
    ensures forall i :: 0 <= i < |steps| ==> |steps[i]| == c && IsPermutation(steps[i])
  {
    if draws != [] {
      var n := |draws| - 1;
      StepsPermute(c, draws[..n], steps[..n + 1]);
      assert steps[..n + 1][n] == steps[n];
      ExchangeKeepsPermutation(steps[n], n, draws[n]);
      forall i | 0 <= i < |steps|
        ensures |steps[i]| == c && IsPermutation(steps[i])
      {
        if i <= n { assert steps[..n + 1][i] == steps[i]; }
      }
    }
  }

  lemma ExchangeKeepsPermutation(p: seq<int>, x: nat, y: nat)
    requires IsPermutation(p) && x < |p| && y < |p|
    ensures IsPermutation(Exchanged(p, x, y))
  {
  }

  /** Every permutation is reached by some draws: turn i draws the place where its i-th number lies. */
  lemma EveryPermutationIsReached(p: seq<int>) returns (draws: seq<int>, steps: seq<seq<int>>)
    requires IsPermutation(p)
    ensures |draws| == |p| && Exchanges(draws, steps) && steps[|p|] == p
  {
    hide IsPermutation;
    draws, steps := [], [seq(|p|, k => k)];
    while |draws| < |p|
      invariant |draws| <= |p| && Exchanging(|p|, draws, steps)
      invariant |steps[|draws|]| == |p| && steps[|draws|][..|draws|] == p[..|draws|]
    {
      var i := |draws|;
      StepsPermute(|p|, draws, steps);
      var d := PlaceOf(p, steps[i], i);
      draws, steps := draws + [d], steps + [Exchanged(steps[i], i, d)];
    }
  }

  /** Where number p[i] lies in a permutation that agrees with p before place i. */
  lemma PlaceOf(p: seq<int>, q: seq<int>, i: nat) returns (d: nat)
    requires IsPermutation(p) && IsPermutation(q) && |p| == |q| && i < |p| && q[..i] == p[..i]
    ensures i <= d < |q| && q[d] == p[i]
  {
    PermutationHitsAll(q, p[i]);
    forall k | 0 <= k < i
      ensures q[k] != p[i]
    {
      assert q[..i][k] == p[..i][k];
    }
    d :| 0 <= d < |q| && q[d] == p[i];
  }

  /** A distribution of dss.h: the members are elsewhere, permute holds the shuffle. */
  class Distribution {
    const count: nat
    var permute: array?<int>

    constructor (count: nat)
      ensures this.count == count && permute == null
    {
      this.count := count;
      permute := null;
    }
  }

  /** permute.c: the cursor and the array it walks are static. */
  class Permuter {
    var source: int
    var set_: array?<int>
    var dist: Distribution?

    constructor ()
      ensures set_ == null && dist == null
    {
      source, set_, dist := 0, null, null;
    }

    /** A shuffle of c numbers has been made, and the cursor is inside it. */
    ghost predicate Shuffled(c: nat)
      reads this, if set_ == null then {} else {set_}
    {
      set_ != null && set_.Length == c && 0 <= source < c && IsPermutation(set_[..])
    }

    /** permute called with an array: fill it with 0 .. c-1 and swap every place with a random one. */
    method Permute(a: array<int>, c: nat, s: int, seeds: array<Stream>)
      returns (element: int, ghost draws: seq<int>, ghost steps: seq<seq<int>>)
      requires a.Length == c > 0 && ValidTable(seeds[..])
      modifies this`source, this`set_, a, seeds
      ensures set_ == a && source == 0 && Shuffled(c) && element == a[0]
      ensures ValidTable(seeds[..])
      ensures seeds[..] == A.AfterDraws(old(seeds[..]), A.Repeated(Draw(s, 0, c - 1), c))
      ensures |draws| == c && |steps| == c + 1 && Exchanges(draws, steps) && a[..] == steps[c]
      ensures forall i :: 0 <= i < c ==>
        IsDrawn(A.AfterDraws(old(seeds[..]), A.Repeated(Draw(s, 0, c - 1), i)), Draw(s, 0, c - 1), draws[i])
    {
      hide A.AfterDraws, Scaled, AfterDraw, IsDrawn, IsPermutation, ValidTable, Exchanging;
      set_ := a;
      var i := 0;
      while i < c
        invariant 0 <= i <= c && forall k :: 0 <= k < i ==> a[k] == k
        invariant ValidTable(seeds[..]) && seeds[..] == old(seeds[..])
        modifies a
      {
        a[i] := i;
        i := i + 1;
      }
      NoDraws(seeds[..]);
      assert A.Repeated(Draw(s, 0, c - 1), 0) == [];
      draws, steps := [], [a[..]];
      StartExchanging(c);
      assert a[..] == seq(c, k => k);
      i := 0;
      while i < c
        invariant 0 <= i <= c && ValidTable(seeds[..])
        invariant set_ == a && (i > 0 ==> source == 0)
        invariant seeds[..] == A.AfterDraws(old(seeds[..]), A.Repeated(Draw(s, 0, c - 1), i))
        invariant |draws| == i == |steps| - 1 && Exchanging(c, draws, steps) && a[..] == steps[i]
        invariant forall k :: 0 <= k < i ==>
          IsDrawn(A.AfterDraws(old(seeds[..]), A.Repeated(Draw(s, 0, c - 1), k)), Draw(s, 0, c - 1), draws[k])
      {
        ghost var before := a[..];
        OneMoreDraw(old(seeds[..]), A.Repeated(Draw(s, 0, c - 1), i), Draw(s, 0, c - 1));
        source := DssRandom(Draw(s, 0, c - 1), seeds);
        assert A.Repeated(Draw(s, 0, c - 1), i + 1) == A.Repeated(Draw(s, 0, c - 1), i) + [Draw(s, 0, c - 1)];
        assert a[..] == before;
        var temp := a[source];
        a[source] := a[i];
        a[i] := temp;
        assert a[..] == Exchanged(before, i, source);
        ExchangeMore(c, draws, steps, source);
        draws, steps := draws + [source], steps + [a[..]];
        source := 0;
        i := i + 1;
      }
      ExchangesPermute(draws, steps);
      // the cursor is at 0, so the wrap-around that ends permute in the source leaves it there
      element := a[source];
    }

    /** permute called with NULL: step the cursor and wrap around. */
    method Next(c: nat) returns (element: int)
      requires Shuffled(c)
      modifies this`source
      ensures Shuffled(c) && source == (if old(source) + 1 == c then 0 else old(source) + 1)
      ensures element == set_[source]
    {
      source := source + 1;
      if source >= c {
        source := source - c;
      }
      element := set_[source];
    }

    /** permute_dist with a distribution: allocate its array once, then shuffle it. */
    method PermuteDist(d: Distribution, stream: int, seeds: array<Stream>)
      returns (element: int, ghost draws: seq<int>, ghost steps: seq<seq<int>>)
      requires d.count > 0 && ValidTable(seeds[..])
      requires d.permute != null ==> d.permute.Length == d.count
      modifies this, d, seeds, if d.permute == null then {} else {d.permute}
      ensures d.permute != null && set_ == d.permute && dist == d
      ensures source == 0 && Shuffled(d.count) && element == set_[0]
      ensures old(d.permute) != null ==> d.permute == old(d.permute)
      ensures old(d.permute) == null ==> fresh(d.permute)
      ensures ValidTable(seeds[..])
      ensures seeds[..] == A.AfterDraws(old(seeds[..]), A.Repeated(Draw(stream, 0, d.count - 1), d.count))
      ensures |draws| == d.count && |steps| == d.count + 1 && Exchanges(draws, steps)
      ensures d.permute[..] == steps[d.count]
      ensures forall i :: 0 <= i < d.count ==>
        IsDrawn(A.AfterDraws(old(seeds[..]), A.Repeated(Draw(stream, 0, d.count - 1), i)),
                Draw(stream, 0, d.count - 1), draws[i])
    {
      hide A.AfterDraws, A.Repeated, ValidTable, IsDrawn, Exchanges;
      if d.permute == null {
        d.permute := new int[d.count];
        var i := 0;
        while i < d.count
          invariant 0 <= i <= d.count && d.permute != null && d.permute.Length == d.count && fresh(d.permute)
          invariant seeds[..] == old(seeds[..])
          modifies d.permute
        {
          d.permute[i] := i;
          i := i + 1;
        }
      }
      dist := d;
      element, draws, steps := Permute(d.permute, d.count, stream, seeds);
    }
  }

  lemma NoDraws(s: seq<Stream>)
    requires ValidTable(s)
    ensures A.AfterDraws(s, []) == s
  {
  }

  lemma OneMoreDraw(s: seq<Stream>, row: A.Row, d: Draw)
    requires ValidTable(s)
    ensures A.AfterDraws(s, row + [d]) == AfterDraw(A.AfterDraws(s, row), d)
  {
    assert (row + [d])[..|row|] == row;
  }

  /** The texts at the given places, with a space between. */
  function Joined(list: seq<Member>, picks: seq<int>): string
    requires forall k :: 0 <= k < |picks| ==> 0 <= picks[k] < |list|
  {
    if picks == [] then ""
    else if |picks| == 1 then list[picks[0]].text
    else Joined(list, picks[..|picks| - 1]) + " " + list[picks[|picks| - 1]].text
  }

  /** It joins any two stretches of them the same way. */
  lemma {:induction false} JoinedTogether(list: seq<Member>, picks: seq<int>, more: seq<int>)
    requires forall k :: 0 <= k < |picks| ==> 0 <= picks[k] < |list|
    requires forall k :: 0 <= k < |more| ==> 0 <= more[k] < |list|
    ensures |picks| == 1 ==> Joined(list, picks) == list[picks[0]].text
    ensures Joined(list, picks + more) ==
      if picks == [] then Joined(list, more) else if more == [] then Joined(list, picks)
      else Joined(list, picks) + " " + Joined(list, more)
  {
    if more == [] {
      assert picks + more == picks;
    } else if picks == [] {
      assert picks + more == more;
    } else {
      var n := |more| - 1;
      assert (picks + more)[..|picks + more| - 1] == picks + more[..n];
      JoinedTogether(list, picks, more[..n]);
    }
  }

  /** The text while it is being built: a space follows each member. */
  function Building(list: seq<Member>, picks: seq<int>): string
    requires forall k :: 0 <= k < |picks| ==> 0 <= picks[k] < |list|
  {
    if picks == [] then "" else Joined(list, picks) + " "
  }

  lemma BuildsOn(list: seq<Member>, picks: seq<int>, element: int)
    requires forall k :: 0 <= k < |picks| ==> 0 <= picks[k] < |list|
    requires 0 <= element < |list|
    ensures Building(list, picks + [element]) == Building(list, picks) + list[element].text + " "
  {
    assert (picks + [element])[..|picks|] == picks;
  }

  /**
   agg_str: the texts of count members, taken one after the other from one fresh shuffle. With no member
   to take, the source also writes in front of its buffer.
   */
  method AggStr(p: Permuter, d: Distribution, list: seq<Member>, count: nat, col: int, seeds: array<Stream>)
    returns (dest: string, ghost picks: seq<int>, ghost shuffle: seq<int>,
             ghost draws: seq<int>, ghost steps: seq<seq<int>>)
    requires |list| == d.count > 0 && ValidTable(seeds[..])
    requires d.permute != null ==> d.permute.Length == d.count
    modifies p, d, seeds, if d.permute == null then {} else {d.permute}
    ensures |picks| == count && |shuffle| == d.count && IsPermutation(shuffle)
    ensures forall k :: 0 <= k < count ==> picks[k] == shuffle[k % d.count]
    ensures (forall k :: 0 <= k < count ==> 0 <= picks[k] < |list|) && dest == Joined(list, picks)
    ensures ValidTable(seeds[..])
    ensures seeds[..] == if count == 0 then old(seeds[..])
                         else A.AfterDraws(old(seeds[..]), A.Repeated(Draw(col, 0, d.count - 1), d.count))
    ensures count > 0 ==>
      |draws| == d.count && Exchanges(draws, steps) && |steps| == d.count + 1 && shuffle == steps[d.count]
    ensures count > 0 ==> forall i :: 0 <= i < d.count ==>
      IsDrawn(A.AfterDraws(old(seeds[..]), A.Repeated(Draw(col, 0, d.count - 1), i)),
              Draw(col, 0, d.count - 1), draws[i])
  {
    hide A.AfterDraws, A.Repeated, ValidTable, Joined, Building, IsDrawn, Exchanges;
    dest, picks, shuffle, draws, steps := "", [], seq(d.count, i => i), [], [];
    assert Building(list, picks) == "" by { NothingBuilt(list); }
    var i := 0;
    while i < count
      invariant 0 <= i <= count && |picks| == i && ValidTable(seeds[..])
      invariant |shuffle| == d.count && IsPermutation(shuffle)
      invariant i == 0 ==> d.permute == old(d.permute) && seeds[..] == old(seeds[..])
      invariant i > 0 ==> p.Shuffled(d.count) && p.set_[..] == shuffle && p.source == (i - 1) % d.count
      invariant i > 0 ==>
        seeds[..] == A.AfterDraws(old(seeds[..]), A.Repeated(Draw(col, 0, d.count - 1), d.count))
      invariant i > 0 ==>
        |draws| == d.count && Exchanges(draws, steps) && |steps| == d.count + 1 && shuffle == steps[d.count]
      invariant i > 0 ==> forall k :: 0 <= k < d.count ==>
        IsDrawn(A.AfterDraws(old(seeds[..]), A.Repeated(Draw(col, 0, d.count - 1), k)),
                Draw(col, 0, d.count - 1), draws[k])
      invariant forall k :: 0 <= k < i ==> picks[k] == shuffle[k % d.count] && 0 <= picks[k] < |list|
      invariant dest == Building(list, picks)
    {
      var element: int;
      if i == 0 {
        element, draws, steps := p.PermuteDist(d, col, seeds);
        shuffle := p.set_[..];
        assert 0 % d.count == 0;
      } else {
        element := p.Next(d.count);
        NextPlace(i, d.count);
      }
      assert element == shuffle[i % d.count];
      BuildsOn(list, picks, element);
      dest := dest + list[element].text;
      dest := dest + " ";
      picks := picks + [element];
      i := i + 1;
    }
    LastSpace(list, picks);
    if dest != "" {
      dest := dest[..|dest| - 1];
    }
  }

  lemma NothingBuilt(list: seq<Member>)
    ensures Building(list, []) == ""
  {
  }

  /** Dropping the last space leaves the joined text. */
  lemma LastSpace(list: seq<Member>, picks: seq<int>)
    requires forall k :: 0 <= k < |picks| ==> 0 <= picks[k] < |list|
    ensures Joined(list, picks) ==
      if Building(list, picks) == "" then "" else Building(list, picks)[..|Building(list, picks)| - 1]
  {
  }

  lemma NextPlace(i: nat, c: nat)
    requires i > 0 && c > 0
    ensures i % c == if (i - 1) % c + 1 == c then 0 else (i - 1) % c + 1
  {
    var q, r := (i - 1) / c, (i - 1) % c;
    assert i - 1 == c * q + r;
    if r + 1 < c {
      RemainderOf(i, c, q, r + 1);
    } else {
      RemainderOf(i, c, q + 1, 0);
    }
  }

  lemma RemainderOf(x: int, m: nat, q: int, r: int)
    requires m > 0 && 0 <= r < m && x == m * q + r
    ensures x % m == r
  {
    QuotientIs(x, m, q);
  }

  /** The picks of agg_str are distinct exactly when no more are taken than there are members. */
  lemma PicksAreDistinct(picks: seq<int>, shuffle: seq<int>)
    requires |shuffle| > 0 && IsPermutation(shuffle)
    requires forall k :: 0 <= k < |picks| ==> picks[k] == shuffle[k % |shuffle|]
    ensures (forall i, j :: 0 <= i < j < |picks| ==> picks[i] != picks[j]) <==> |picks| <= |shuffle|
  {
    var c := |shuffle|;
    forall k | 0 <= k < c
      ensures k % c == k
    {
      RemainderOf(k, c, 0, k);
    }
    if |picks| > c {
      RemainderOf(c, c, 1, 0);
      assert picks[c] == picks[0];
    }
  }

  // ----- random text -----

  /** Character j of the five that one draw holds, six bits each. */
  function Character(num: int, j: nat): (c: int)
    requires j < 5
    ensures 0 <= c < 64
  {
    SixBitsUp(num, j) % 64
  }

  /** The number shifted down by j characters. */
  function SixBitsUp(num: int, j: nat): (n: int)
    ensures num >= 0 ==> n >= 0
  {
    if j == 0 then num else SixBitsUp(num, j - 1) / 64
  }

  /** The characters are the low digits of the number to the base 64, the lowest first. */
  lemma CharactersAreDigits(num: nat)
    ensures Character(num, 0) + 64 * Character(num, 1) + 4096 * Character(num, 2) + 262144 * Character(num, 3)
      + 16777216 * Character(num, 4) == num % 0x4000_0000
  {
    var a, b, c, d := num / 64, num / 64 / 64, num / 64 / 64 / 64, num / 64 / 64 / 64 / 64;
    assert SixBitsUp(num, 0) == num && SixBitsUp(num, 1) == a && SixBitsUp(num, 2) == b;
    assert SixBitsUp(num, 3) == c && SixBitsUp(num, 4) == d;
    hide SixBitsUp;
    QuotientIs(num, 0x4000_0000, d / 64);
  }

  /** The numbers that a row of draws gives, from the table s on. */
  ghost predicate AllDrawn(s: seq<Stream>, row: A.Row, nums: seq<int>)
    requires ValidTable(s)
  {
    |row| == |nums| && forall k :: 0 <= k < |row| ==> IsDrawn(A.AfterDraws(s, row[..k]), row[k], nums[k])
  }

  lemma OneMoreDrawn(s: seq<Stream>, row: A.Row, nums: seq<int>, d: Draw, num: int)
    requires ValidTable(s) && AllDrawn(s, row, nums) && IsDrawn(A.AfterDraws(s, row), d, num)
    ensures AllDrawn(s, row + [d], nums + [num])
  {
    hide ValidTable, IsDrawn, A.AfterDraws;
    assert (row + [d])[..|row|] == row && forall k :: 0 <= k < |row| ==> (row + [d])[..k] == row[..k];
  }

  /** dss_random, keeping book of the draws since the table s. */
  method DrawNext(d: Draw, seeds: array<Stream>, ghost s: seq<Stream>, ghost row: A.Row, ghost nums: seq<int>)
    returns (num: int)
    requires ValidTable(s) && AllDrawn(s, row, nums) && seeds[..] == A.AfterDraws(s, row)
    modifies seeds
    ensures AllDrawn(s, row + [d], nums + [num]) && seeds[..] == A.AfterDraws(s, row + [d])
    ensures Low(d) <= num <= High(d)
  {
    hide A.AfterDraws, Scaled, AfterDraw, ValidTable, IsDrawn, AllDrawn;
    OneMoreDraw(s, row, d);
    num := DssRandom(d, seeds);
    OneMoreDrawn(s, row, nums, d, num);
  }

  /** The characters that numbers spell, after the one that gives the length; bits are left of the last number. */
  ghost predicate Spells(nums: seq<int>, dest: seq<int>, bits: int)
  {
    |nums| == 1 + (|dest| + 4) / 5
    && (forall i :: 0 <= i < |dest| ==> 1 + i / 5 < |nums| && dest[i] == Character(nums[1 + i / 5], i % 5))
    && (|dest| % 5 != 0 ==> 1 + |dest| / 5 < |nums| && bits == SixBitsUp(nums[1 + |dest| / 5], |dest| % 5))
  }

  /** One more character, for which every fifth time a new number is drawn. */
  lemma SpellsMore(nums: seq<int>, dest: seq<int>, bits: int, num: int)
    requires Spells(nums, dest, bits)
    ensures var more, b := if |dest| % 5 == 0 then nums + [num] else nums, if |dest| % 5 == 0 then num else bits;
      Spells(more, dest + [b % 64], b / 64)
  {
    hide Character, SixBitsUp;
    CountDraws(|dest|);
    var more := if |dest| % 5 == 0 then nums + [num] else nums;
    NextCharacter(more[1 + |dest| / 5], |dest| % 5);
  }

  /**
   a_rnd: one draw for the length, and one for every five characters, which it hands out from the low bits
   upwards; returns positions in alpha_num.
   */
  method ARnd(min: nat, max: nat, column: int, seeds: array<Stream>)
    returns (dest: seq<int>, ghost row: A.Row, ghost nums: seq<int>)
    requires min <= max && ValidTable(seeds[..])
    modifies seeds
    ensures min <= |dest| <= max && |row| == |nums| == 1 + (|dest| + 4) / 5
    ensures row[0] == Draw(column, min, max) && |dest| == nums[0]
    ensures forall k :: 1 <= k < |row| ==> row[k] == Draw(column, 0, MAX_LONG)
    ensures forall i :: 0 <= i < |dest| ==> 1 + i / 5 < |nums| && dest[i] == Character(nums[1 + i / 5], i % 5)
    ensures forall k :: 0 <= k < |row| ==> IsDrawn(A.AfterDraws(old(seeds[..]), row[..k]), row[k], nums[k])
    ensures ValidTable(seeds[..]) && seeds[..] == A.AfterDraws(old(seeds[..]), row)
  {
    hide A.AfterDraws, ValidTable, IsDrawn, Character, SixBitsUp, AllDrawn, Spells, A.Repeated;
    ghost var s := seeds[..];
    NothingDrawn(s);
    var len := DrawNext(Draw(column, min, max), seeds, s, [], []);
    row, nums, dest := [Draw(column, min, max)], [len], [];
    assert [] + row == row && [] + nums == nums;
    NothingSpelled(len);
    RepeatedMore(Draw(column, min, max), Draw(column, 0, MAX_LONG), 0);
    var i, bits := 0, 0;
    while i < len
      invariant 0 <= i <= len && |dest| == i && Spells(nums, dest, bits)
      invariant |row| == |nums| > 0 && nums[0] == len
      invariant row == [Draw(column, min, max)] + A.Repeated(Draw(column, 0, MAX_LONG), |row| - 1)
      invariant AllDrawn(s, row, nums) && seeds[..] == A.AfterDraws(s, row)
    {
      ghost var before, left := nums, bits;
      if i % 5 == 0 {
        bits := DrawNext(Draw(column, 0, MAX_LONG), seeds, s, row, nums);
        RepeatedMore(Draw(column, min, max), Draw(column, 0, MAX_LONG), |row| - 1);
        row, nums := row + [Draw(column, 0, MAX_LONG)], nums + [bits];
      }
      SpellsMore(before, dest, left, bits);
      dest := dest + [bits % 64];
      bits := bits / 64;
      i := i + 1;
    }
    SpelledAll(nums, dest, bits);
    DrawnAll(s, row, nums);
    AllRepeated(Draw(column, min, max), Draw(column, 0, MAX_LONG), |row| - 1);
  }

  lemma RepeatedMore(first: Draw, d: Draw, n: nat)
    ensures [first] + A.Repeated(d, n) + [d] == [first] + A.Repeated(d, n + 1)
    ensures [first] + A.Repeated(d, 0) == [first]
  {
  }

  lemma AllRepeated(first: Draw, d: Draw, n: nat)
    ensures var row := [first] + A.Repeated(d, n);
      row[0] == first && forall k :: 1 <= k < |row| ==> row[k] == d
  {
  }

  lemma NothingDrawn(s: seq<Stream>)
    requires ValidTable(s)
    ensures AllDrawn(s, [], []) && A.AfterDraws(s, []) == s
  {
  }

  lemma NothingSpelled(num: int)
    ensures Spells([num], [], 0)
  {
  }

  lemma SpelledAll(nums: seq<int>, dest: seq<int>, bits: int)
    requires Spells(nums, dest, bits)
    ensures |nums| == 1 + (|dest| + 4) / 5
    ensures forall i :: 0 <= i < |dest| ==> 1 + i / 5 < |nums| && dest[i] == Character(nums[1 + i / 5], i % 5)
  {
  }

  lemma DrawnAll(s: seq<Stream>, row: A.Row, nums: seq<int>)
    requires ValidTable(s) && AllDrawn(s, row, nums)
    ensures |row| == |nums|
    ensures forall k :: 0 <= k < |row| ==> IsDrawn(A.AfterDraws(s, row[..k]), row[k], nums[k])
  {
  }

  lemma NextCharacter(num: int, j: nat)
    requires j < 5
    ensures Character(num, j) == SixBitsUp(num, j) % 64
    ensures SixBitsUp(num, j + 1) == SixBitsUp(num, j) / 64 && SixBitsUp(num, 0) == num
  {
  }

  lemma CountDraws(i: nat)
    ensures (i + 1 + 4) / 5 == (i + 4) / 5 + if i % 5 == 0 then 1 else 0
    ensures i / 5 < (i + 1 + 4) / 5
    ensures i % 5 == 0 ==> i / 5 == (i + 4) / 5
    ensures i % 5 < 4 ==> (i + 1) / 5 == i / 5 && (i + 1) % 5 == i % 5 + 1
    ensures i % 5 == 4 ==> (i + 1) % 5 == 0
  {
  }

  /** An address of at most forty characters stays within its boundary of nine draws. */
  lemma {:induction false} AddressFitsBoundary(row: A.Row, len: nat, i: nat)
    requires len <= 40 && |row| == 1 + (len + 4) / 5 && (i == 26 || i == 32)
    ensures A.Counted(row, i) <= BoundaryOf(i)
  {
  }
}
