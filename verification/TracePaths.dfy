/** visualizeYarnLocalTop.py, on values: which traces count, and how often each prefix occurs. */
module TracePaths {

  /** A frame of a trace, as (package, class, method). */
  datatype Frame = Frame(package: string, clazz: string, method_: string)

  /** A way down the tree from its root. */
  datatype Path = Root | Down(up: Path, step: string)

  const HEAD: string := "HEAD"

  function StepOf(f: Frame): string
  {
    f.clazz + ":" + f.method_
  }

  /** The name a node gets: its last step, or HEAD for the root. */
  function NameOf(p: Path): string
  {
    if p.Root? then HEAD else p.step
  }

  /** The way down through the given steps. */
  function Along(steps: seq<string>): (p: Path)
  {
    if steps == [] then Root else Down(Along(steps[..|steps| - 1]), steps[|steps| - 1])
  }

  function Reversed(steps: seq<string>): (r: seq<string>)
    ensures |r| == |steps| && forall i :: 0 <= i < |r| ==> r[i] == steps[|steps| - 1 - i]
  {
    if steps == [] then [] else Reversed(steps[1..]) + [steps[0]]
  }

  /** The steps of a trace from the outermost frame, which is the last one listed, inwards. */
  function StepsOf(trace: seq<Frame>): (steps: seq<string>)
  {
    Reversed(seq(|trace|, i requires 0 <= i < |trace| => StepOf(trace[i])))
  }

  /** A trace counts if it is not empty and none of its steps is on the kill list. */
  predicate Accepted(trace: seq<Frame>, killList: set<string>)
  {
    trace != [] && forall f :: f in trace ==> StepOf(f) !in killList
  }

  lemma AcceptedIs(trace: seq<Frame>, killList: set<string>)
    ensures Accepted(trace, killList) <==>
      trace != [] && forall f :: f in trace ==> f.clazz + ":" + f.method_ !in killList
  {
  }

  /** The steps are those of the frames, backwards. */
  lemma StepsAre(trace: seq<Frame>)
    ensures |StepsOf(trace)| == |trace|
    ensures forall j :: 0 <= j < |trace| ==>
      StepsOf(trace)[|trace| - 1 - j] == trace[j].clazz + ":" + trace[j].method_
  {
  }

  lemma NameOfStep(p: Path, step: string)
    ensures NameOf(Down(p, step)) == step && NameOf(Root) == HEAD
  {
  }

  /** A non-empty trace counts exactly if no step of the reversed trace is killed. */
  lemma {:induction false} KilledSteps(trace: seq<Frame>, killList: set<string>)
    requires trace != []
    ensures Accepted(trace, killList) <==>
      forall j :: 0 <= j < |StepsOf(trace)| ==> StepsOf(trace)[j] !in killList
  {
    var steps, n := StepsOf(trace), |trace|;
    assert |steps| == n;
    assert forall i :: 0 <= i < n ==> steps[i] == StepOf(trace[n - 1 - i]);
    forall i | 0 <= i < n && StepOf(trace[i]) in killList
      ensures !forall j :: 0 <= j < n ==> steps[j] !in killList
    {
      assert steps[n - 1 - i] in killList;
    }
  }

  /** The paths of the traces that count. */
  function AcceptedPaths(traces: seq<seq<Frame>>, killList: set<string>): (ps: seq<Path>)
  {
    if traces == [] then []
    else
      var last := traces[|traces| - 1];
      AcceptedPaths(traces[..|traces| - 1], killList)
      + if Accepted(last, killList) then [Along(StepsOf(last))] else []
  }

  /** p lies on the way to t. */
  predicate Prefix(p: Path, t: Path)
  {
    p == t || (t.Down? && Prefix(p, t.up))
  }

  function Depth(p: Path): nat
  {
    if p.Root? then 0 else 1 + Depth(p.up)
  }

  /** A way down takes its steps in order: each prefix of it ends with the step at its depth. */
  lemma {:induction false} AlongTakesSteps(steps: seq<string>, q: Path)
    ensures Depth(Along(steps)) == |steps|
    ensures Prefix(q, Along(steps)) && q.Down? ==> 1 <= Depth(q) <= |steps| && q.step == steps[Depth(q) - 1]
  {
    if steps != [] {
      AlongTakesSteps(steps[..|steps| - 1], q);
    }
  }

  /**
   The paths are those of the accepted traces, in their order. A trace of n frames leads to depth n, and
   every prefix of its path at depth k ends with the step of its k-th frame from the end.
   */
  lemma {:induction false} AcceptedPathsAre(traces: seq<seq<Frame>>, killList: set<string>) returns (at: seq<nat>)
    ensures |at| == |AcceptedPaths(traces, killList)|
    ensures forall i, j :: 0 <= i < j < |at| ==> at[i] < at[j]
    ensures forall m :: 0 <= m < |traces| ==>
      (m in at <==> traces[m] != [] && forall f :: f in traces[m] ==> f.clazz + ":" + f.method_ !in killList)
    ensures forall i :: 0 <= i < |at| ==>
      at[i] < |traces| && LeadsDown(traces[at[i]], AcceptedPaths(traces, killList)[i])
  {
    at := AcceptedPlaces(traces, killList);
    hide AcceptedPaths, LeadsDown, Accepted;
    forall m | 0 <= m < |traces|
      ensures m in at <==> traces[m] != [] && forall f :: f in traces[m] ==> f.clazz + ":" + f.method_ !in killList
    {
      AcceptedIs(traces[m], killList);
    }
  }

  lemma {:induction false} AcceptedPlaces(traces: seq<seq<Frame>>, killList: set<string>) returns (at: seq<nat>)
    ensures |at| == |AcceptedPaths(traces, killList)|
    ensures forall i, j :: 0 <= i < j < |at| ==> at[i] < at[j]
    ensures forall m :: 0 <= m < |traces| ==> (m in at <==> Accepted(traces[m], killList))
    ensures forall i :: 0 <= i < |at| ==>
      at[i] < |traces| && LeadsDown(traces[at[i]], AcceptedPaths(traces, killList)[i])
  {
    hide Accepted, LeadsDown, AcceptedPaths, StepsOf, Along;
    NextAcceptedPath(traces, killList);
    at := [];
    if traces != [] {
      var n := |traces| - 1;
      var before := AcceptedPlaces(traces[..n], killList);
      at := before;
      forall m | 0 <= m < n
        ensures m in before <==> Accepted(traces[m], killList)
      {
        assert traces[..n][m] == traces[m];
      }
      assert n !in before;
      if Accepted(traces[n], killList) {
        TraceLeadsDown(traces[n]);
        at := before + [n];
      }
    }
  }

  lemma NextAcceptedPath(traces: seq<seq<Frame>>, killList: set<string>)
    ensures traces == [] ==> AcceptedPaths(traces, killList) == []
    ensures traces != [] ==>
      var n := |traces| - 1;
      AcceptedPaths(traces, killList) == AcceptedPaths(traces[..n], killList)
        + if Accepted(traces[n], killList) then [Along(StepsOf(traces[n]))] else []
  {
  }

  /** The path takes the frames of the trace from the last one to the first. */
  ghost predicate LeadsDown(trace: seq<Frame>, p: Path)
  {
    Depth(p) == |trace| && forall q :: Prefix(q, p) && q.Down? ==>
      var k := Depth(q);
      1 <= k <= |trace| && q.step == trace[|trace| - k].clazz + ":" + trace[|trace| - k].method_
  }

  lemma TraceLeadsDown(trace: seq<Frame>)
    ensures LeadsDown(trace, Along(StepsOf(trace)))
  {
    hide StepsOf, Along, Prefix, Depth;
    var steps := StepsOf(trace);
    StepsAre(trace);
    AlongTakesSteps(steps, Root);
    forall q | Prefix(q, Along(steps)) && q.Down?
      ensures 1 <= Depth(q) <= |trace|
      ensures q.step == trace[|trace| - Depth(q)].clazz + ":" + trace[|trace| - Depth(q)].method_
    {
      AlongTakesSteps(steps, q);
      assert steps[|trace| - 1 - (|trace| - Depth(q))] == q.step;
    }
  }

  /** The number of traces with the given prefix. */
  function CountOf(traces: seq<Path>, p: Path): (n: nat)
  {
    if traces == [] then 0
    else CountOf(traces[..|traces| - 1], p) + if Prefix(p, traces[|traces| - 1]) then 1 else 0
  }

  /** How often a name is met on the way down one trace, the root included. */
  function MetOn(t: Path, name: string): (n: nat)
  {
    (if t.Down? then MetOn(t.up, name) else 0) + if NameOf(t) == name then 1 else 0
  }

  function Met(traces: seq<Path>, name: string): (n: nat)
  {
    if traces == [] then 0 else Met(traces[..|traces| - 1], name) + MetOn(traces[|traces| - 1], name)
  }

  lemma {:induction false} NotAboveItself(t: Path, step: string, p: Path)
    requires Prefix(Down(t, step), p)
    ensures Prefix(t, p) && p != t
    decreases p
  {
    if p != Down(t, step) {
      NotAboveItself(t, step, p.up);
      PrefixesAreNotLonger(Down(t, step), p.up);
    }
    PrefixesAreNotLonger(Down(t, step), p);
  }

  lemma {:induction false} PrefixesAreNotLonger(p: Path, t: Path)
    requires Prefix(p, t)
    ensures Depth(p) <= Depth(t)
    decreases t
  {
    if p != t {
      PrefixesAreNotLonger(p, t.up);
    }
  }

  /** Going one step further down the last trace adds one to exactly one prefix and one name. */
  lemma {:induction false} OneStepFurther(traces: seq<Path>, t: Path, step: string)
    ensures forall p ::
      CountOf(traces + [Down(t, step)], p) == CountOf(traces + [t], p) + if p == Down(t, step) then 1 else 0
    ensures forall name ::
      Met(traces + [Down(t, step)], name) == Met(traces + [t], name) + if name == step then 1 else 0
  {
    assert (traces + [t])[..|traces|] == traces == (traces + [Down(t, step)])[..|traces|];
    if Prefix(Down(t, step), t) {
      PrefixesAreNotLonger(Down(t, step), t);
    }
  }

  /** A new trace, still at the root. */
  lemma {:induction false} NewTrace(traces: seq<Path>)
    ensures forall p :: CountOf(traces + [Root], p) == CountOf(traces, p) + if p == Root then 1 else 0
    ensures forall name :: Met(traces + [Root], name) == Met(traces, name) + if name == HEAD then 1 else 0
  {
    assert (traces + [Root])[..|traces|] == traces;
  }

  lemma {:induction false} PrefixIsTransitive(p: Path, q: Path, t: Path)
    requires Prefix(p, q) && Prefix(q, t)
    ensures Prefix(p, t)
    decreases t
  {
    if q != t {
      PrefixIsTransitive(p, q, t.up);
    }
  }

  lemma {:induction false} RootIsAboveAll(t: Path)
    ensures Prefix(Root, t)
  {
    if t.Down? {
      RootIsAboveAll(t.up);
    }
  }

  /** A prefix of a prefix occurs at least as often. */
  lemma {:induction false} ShorterOccursMore(traces: seq<Path>, p: Path, q: Path)
    requires Prefix(p, q)
    ensures CountOf(traces, q) <= CountOf(traces, p)
  {
    if traces != [] {
      ShorterOccursMore(traces[..|traces| - 1], p, q);
      if Prefix(q, traces[|traces| - 1]) {
        PrefixIsTransitive(p, q, traces[|traces| - 1]);
      }
    }
  }

  lemma {:induction false} CountIsPositive(traces: seq<Path>, p: Path)
    ensures CountOf(traces, p) > 0 <==> exists i :: 0 <= i < |traces| && Prefix(p, traces[i])
    ensures CountOf(traces, p) <= |traces| == CountOf(traces, Root)
  {
    if traces != [] {
      var n := |traces| - 1;
      CountIsPositive(traces[..n], p);
      RootIsAboveAll(traces[n]);
      if i :| 0 <= i < |traces| && Prefix(p, traces[i]) {
        if i < n { assert Prefix(p, traces[..n][i]); }
      }
    }
  }

  /** A node's count is never more than the times its name is met. */
  lemma {:induction false} MetAtLeastOnce(traces: seq<Path>, p: Path)
    ensures CountOf(traces, p) <= Met(traces, NameOf(p))
  {
    if traces != [] {
      MetAtLeastOnce(traces[..|traces| - 1], p);
      if Prefix(p, traces[|traces| - 1]) {
        MetWhenPrefix(p, traces[|traces| - 1]);
      }
    }
  }

  lemma {:induction false} MetWhenPrefix(p: Path, t: Path)
    requires Prefix(p, t)
    ensures MetOn(t, NameOf(p)) > 0
    decreases t
  {
    if p != t {
      MetWhenPrefix(p, t.up);
    }
  }

  /** The first step from p down to q. */
  function StepBelow(p: Path, q: Path): (step: string)
    requires Prefix(p, q) && p != q
    ensures Prefix(Down(p, step), q)
    decreases q
  {
    if q.up == p then q.step else StepBelow(p, q.up)
  }

  // ----- double counting -----

  ghost function Pick(ps: set<Path>): (p: Path)
    requires ps != {}
    ensures p in ps
  {
    var p :| p in ps;
    p
  }

  ghost function SumOfCounts(ps: set<Path>, traces: seq<Path>): nat
  {
    if ps == {} then 0 else CountOf(traces, Pick(ps)) + SumOfCounts(ps - {Pick(ps)}, traces)
  }

  ghost function PrefixesIn(ps: set<Path>, t: Path): set<Path>
  {
    set p | p in ps && Prefix(p, t)
  }

  lemma {:induction false} SumNextTrace(ps: set<Path>, traces: seq<Path>, t: Path)
    ensures SumOfCounts(ps, traces + [t]) == SumOfCounts(ps, traces) + |PrefixesIn(ps, t)|
    decreases ps
  {
    if ps == {} {
      assert PrefixesIn(ps, t) == {};
    } else {
      var p := Pick(ps);
      SumNextTrace(ps - {p}, traces, t);
      assert (traces + [t])[..|traces|] == traces;
      if Prefix(p, t) {
        assert PrefixesIn(ps, t) == PrefixesIn(ps - {p}, t) + {p};
      } else {
        assert PrefixesIn(ps, t) == PrefixesIn(ps - {p}, t);
      }
    }
  }

  lemma {:induction false} PrefixesOneUp(ps: set<Path>, t: Path)
    requires t.Down?
    ensures PrefixesIn(ps, t) == PrefixesIn(ps, t.up) + if t in ps then {t} else {}
    ensures t !in PrefixesIn(ps, t.up)
  {
    if Prefix(t, t.up) {
      PrefixesAreNotLonger(t, t.up);
    }
  }

  /** The prefixes of a trace that carry a name are as many as the times the name is met. */
  lemma {:induction false} PrefixesAreMet(ps: set<Path>, t: Path, name: string)
    requires forall p :: Prefix(p, t) && NameOf(p) == name ==> p in ps
    requires forall p :: p in ps ==> NameOf(p) == name
    ensures |PrefixesIn(ps, t)| == MetOn(t, name)
    decreases t
  {
    assert t in ps <==> NameOf(t) == name;
    if t.Down? {
      PrefixesAreMet(ps, t.up, name);
      PrefixesOneUp(ps, t);
    } else {
      assert PrefixesIn(ps, t) == if t in ps then {t} else {};
    }
  }

  /** The times a name is met are the sum of the counts of all prefixes that carry it. */
  lemma {:induction false} MetIsSumOfCounts(ps: set<Path>, traces: seq<Path>, name: string)
    requires forall p :: p in ps ==> NameOf(p) == name
    requires forall i, p ::
      (0 <= i < |traces| && Prefix(p, traces[i]) && NameOf(p) == name ==> p in ps)
    ensures Met(traces, name) == SumOfCounts(ps, traces)
  {
    if traces == [] {
      NoCounts(ps);
    } else {
      var n := |traces| - 1;
      MetIsSumOfCounts(ps, traces[..n], name);
      SumNextTrace(ps, traces[..n], traces[n]);
      assert traces[..n] + [traces[n]] == traces;
      PrefixesAreMet(ps, traces[n], name);
    }
  }

  lemma {:induction false} NoCounts(ps: set<Path>)
    ensures SumOfCounts(ps, []) == 0
    decreases ps
  {
    if ps != {} {
      NoCounts(ps - {Pick(ps)});
    }
  }
}
