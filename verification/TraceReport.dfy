/** visualizeYarnLocalTop.py: percentages on the trie, and the graph that is drawn of its heavy part. */
module TraceReport {
  import opened TracePaths
  import opened TraceTree

  /** A count as a fraction of the total; Python's floats are modelled as reals. */
  function Share(count: int, total: int): (share: real)
    requires total > 0
    ensures share * total as real == count as real
  {
    count as real / total as real
  }

  /** The paths of the nodes at and below p. */
  ghost function Below(nodes: map<Path, Node>, p: Path): set<Path>
  {
    set q | q in nodes && Prefix(p, q)
  }

  ghost predicate PercentRight(node: Node, total: int)
    requires total > 0
    reads node`attributes
  {
    PERCENT in node.attributes && node.attributes[PERCENT] == Percent(Share(node.CountHere(), total))
  }

  ghost predicate PercentsRight(nodes: map<Path, Node>, ps: set<Path>, total: int)
    requires total > 0
    reads nodes.Values`attributes
  {
    forall q :: q in ps && q in nodes ==> PercentRight(nodes[q], total)
  }

  // ----- going down the tree -----

  lemma {:induction false} SmallerBelow(nodes: map<Path, Node>, p: Path, n: string)
    requires p in nodes
    ensures Below(nodes, Down(p, n)) < Below(nodes, p)
  {
    forall q | q in nodes && Prefix(Down(p, n), q)
      ensures Prefix(p, q) && p != q
    {
      NotAboveItself(p, n, q);
    }
    SelfBelow(nodes, p);
  }

  lemma {:induction false} SelfBelow(nodes: map<Path, Node>, p: Path)
    requires p in nodes
    ensures p in Below(nodes, p)
  {
  }

  /** Every node has been counted once there are traces. */
  lemma {:induction false} EveryNodeCounts(tree: TraceTree, p: Path)
    requires tree.Valid() && tree.traces != [] && p in tree.nodes
    ensures 0 < tree.nodes[p].CountHere() == CountOf(tree.traces, p) <= |tree.traces|
    ensures COUNT in tree.nodes[p].attributes && tree.nodes[p].attributes[COUNT].Count?
    ensures tree.nodes[p].attributes[COUNT].n == CountOf(tree.traces, p)
    ensures CountOf(tree.traces, Root) == |tree.traces|
  {
    hide Prefix, IsTree, CountOf;
    CountIsPositive(tree.traces, p);
  }

  lemma {:induction false} RootIsCounted(tree: TraceTree)
    requires tree.Valid()
    ensures COUNT in tree.root.attributes <==> tree.traces != []
  {
    hide Prefix, IsTree;
    tree.RootFacts();
    assert tree.nodes[Root].CountIsInt() && tree.nodes[Root].CountHere() == CountOf(tree.traces, Root);
    if tree.traces != [] {
      EveryNodeCounts(tree, Root);
    }
  }

  /** Whatever lies below p lies at or below one of its children. */
  lemma {:induction false} BelowAChild(tree: TraceTree, p: Path, q: Path) returns (n: string)
    requires tree.Valid() && tree.traces != [] && p in tree.nodes && q in Below(tree.nodes, p) && q != p
    ensures n in tree.nodes[p].children && Down(p, n) in tree.nodes && q in Below(tree.nodes, Down(p, n))
  {
    n := StepBelow(p, q);
    hide IsTree, CountOf, Prefix, StepBelow;
    EveryNodeCounts(tree, q);
    ShorterOccursMore(tree.traces, Down(p, n), q);
    tree.LinkFacts(p, n);
  }

  // ----- percentages -----

  /** set_attribute("percent", ...) on one node. */
  method SetPercent(tree: TraceTree, ghost p: Path, node: Node, totalCount: int)
    requires tree.Valid() && tree.traces != [] && p in tree.nodes && node == tree.nodes[p] && totalCount > 0
    modifies node`attributes
    ensures tree.Valid() && PercentRight(node, totalCount)
    ensures node.attributes == old(node.attributes)[
      PERCENT := Percent(CountOf(tree.traces, p) as real / totalCount as real)]
    ensures forall q :: q in tree.nodes && q != p ==> tree.nodes[q].attributes == old(tree.nodes[q].attributes)
  {
    hide CountOf, IsTree, Prefix, Met, TraceTree.Shape, TraceTree.GlobalCountsRight;
    EveryNodeCounts(tree, p);
    tree.NodesDiffer(p);
    var myCount := node.attributes[COUNT].n;
    node.attributes := node.attributes[PERCENT := Percent(Share(myCount, totalCount))];
  }

  /** addPercentToTree. */
  method AddPercentToTree(tree: TraceTree, ghost p: Path, node: Node, totalCount: int)
    requires tree.Valid() && tree.traces != [] && p in tree.nodes && node == tree.nodes[p] && totalCount > 0
    modifies tree.nodes.Values`attributes
    ensures tree.Valid() && PercentsRight(tree.nodes, Below(tree.nodes, p), totalCount)
    ensures forall q :: q in tree.nodes && q !in Below(tree.nodes, p) ==>
      tree.nodes[q].attributes == old(tree.nodes[q].attributes)
    decreases Below(tree.nodes, p)
  {
    hide CountOf, IsTree, Met, Prefix, Share, PercentRight;
    hide TraceTree.Shape, TraceTree.CountsRight, TraceTree.GlobalCountsRight;
    SelfBelow(tree.nodes, p);
    SetPercent(tree, p, node, totalCount);
    ghost var covered := {p};
    var rest := node.children.Keys;
    while rest != {}
      invariant tree.Valid() && rest <= node.children.Keys
      invariant p in covered && covered <= Below(tree.nodes, p) && PercentsRight(tree.nodes, covered, totalCount)
      invariant forall n :: n in node.children && n !in rest ==> Below(tree.nodes, Down(p, n)) <= covered
      invariant forall q :: q in tree.nodes && q !in Below(tree.nodes, p) ==>
        tree.nodes[q].attributes == old(tree.nodes[q].attributes)
      decreases |rest|
    {
      var n :| n in rest;
      tree.ChildFacts(p, n);
      SmallerBelow(tree.nodes, p, n);
      AddPercentToTree(tree, Down(p, n), node.children[n], totalCount);
      covered := covered + Below(tree.nodes, Down(p, n));
      rest := rest - {n};
    }
    forall q | q in Below(tree.nodes, p)
      ensures q in covered
    {
      if q != p {
        var n := BelowAChild(tree, p, q);
      }
    }
  }

  /** addPercentages: without a single accepted trace the root has no count, which is an error. */
  method AddPercentages(tree: TraceTree) returns (ok: bool)
    requires tree.Valid()
    modifies tree.nodes.Values`attributes
    ensures tree.Valid() && ok == (tree.traces != [])
    ensures ok ==> PercentsRight(tree.nodes, tree.nodes.Keys, |tree.traces|)
    ensures ok ==> forall q :: q in tree.nodes ==>
      PERCENT in tree.nodes[q].attributes
      && tree.nodes[q].attributes[PERCENT] == Percent(CountOf(tree.traces, q) as real / |tree.traces| as real)
    ensures !ok ==> forall q :: q in tree.nodes ==> tree.nodes[q].attributes == old(tree.nodes[q].attributes)
  {
    hide IsTree, Met, Prefix, CountOf, Share, PercentRight;
    hide TraceTree.Shape, TraceTree.CountsRight, TraceTree.GlobalCountsRight;
    tree.RootFacts();
    RootIsCounted(tree);
    ok := COUNT in tree.root.attributes;
    if ok {
      EveryNodeCounts(tree, Root);
      var totalCount := tree.root.attributes[COUNT].n;
      AddPercentToTree(tree, Root, tree.root, totalCount);
      AllBelowRoot(tree.nodes);
      forall q | q in tree.nodes
        ensures PERCENT in tree.nodes[q].attributes
        ensures tree.nodes[q].attributes[PERCENT] == Percent(CountOf(tree.traces, q) as real / |tree.traces| as real)
      {
        EveryNodeCounts(tree, q);
        PercentIs(tree.nodes[q], |tree.traces|);
      }
    }
  }

  lemma PercentIs(node: Node, total: int)
    requires total > 0 && PercentRight(node, total)
    ensures PERCENT in node.attributes
    ensures node.attributes[PERCENT] == Percent(node.CountHere() as real / total as real)
  {
  }

  lemma {:induction false} AllBelowRoot(nodes: map<Path, Node>)
    ensures Below(nodes, Root) == nodes.Keys
  {
    forall q | q in nodes
      ensures Prefix(Root, q)
    {
      RootIsAboveAll(q);
    }
  }

  // ----- colours -----

  /** Red is always ff; green and blue are the levels, which the program prints in two hexadecimal digits. */
  datatype Colour = Colour(green: int, blue: int)

  /** getLevel. */
  function GetLevel(percent: real): (level: int)
    requires 0.0 <= percent <= 1.0
    ensures 0 <= level <= 255
    ensures (255 - level) as real <= 255.0 * percent < (256 - level) as real
    ensures percent == 0.0 ==> level == 255
    ensures percent == 1.0 ==> level == 0
  {
    255 - (255.0 * percent).Floor
  }

  /** setColor. */
  function SetColor(percent: real, offsetPercent: real): (c: Colour)
    requires 0.0 <= percent <= 1.0 && 0.0 <= offsetPercent
    ensures 0 <= c.green <= 255 && 0 <= c.blue <= 255
    ensures (255 - c.green) as real <= 255.0 * percent < (256 - c.green) as real
    ensures offsetPercent == 0.0 ==> c.blue == c.green
    ensures 0.0 < offsetPercent <= 1.0 ==> (255 - c.blue) as real <= 255.0 * offsetPercent < (256 - c.blue) as real
    ensures offsetPercent > 1.0 ==> c.blue == 0
  {
    var offset := if offsetPercent > 1.0 then 1.0 else offsetPercent;
    var green := GetLevel(percent);
    Colour(green, if offset > 0.0 then GetLevel(offset) else green)
  }

  /**
   The colour of a node whose name is met `met` times, `count` of them at this very node: blue goes by the
   node too if these are at least three quarters, and otherwise by all nodes of the name.
   */
  function ColourOf(count: int, met: int, total: int): (c: Colour)
    requires 0 < count <= met && count <= total
    ensures 0 <= c.green <= 255 && 0 <= c.blue <= 255
    ensures (255 - c.green) * total <= 255 * count < (256 - c.green) * total
    ensures 4 * count >= 3 * met ==> c.blue == c.green
    ensures 4 * count < 3 * met && met <= total ==> (255 - c.blue) * total <= 255 * met < (256 - c.blue) * total
    ensures 4 * count < 3 * met && met > total ==> c.blue == 0
  {
    ShareIsAFraction(count, met);
    ShareIsAFraction(count, total);
    ShareIsAFraction(met, total);
    ThreeQuarters(count, met);
    var c := SetColor(Share(count, total), if Share(count, met) < 0.75 then Share(met, total) else 0.0);
    LevelOfShare(c.green, count, total);
    LevelOfShare(c.blue, met, total);
    c
  }

  lemma ThreeQuarters(count: int, met: int)
    requires 0 < count <= met
    ensures Share(count, met) < 0.75 <==> 4 * count < 3 * met
  {
    var x := Share(count, met);
    assert x * met as real == count as real;
    hide Share;
    ScaleCompares(x, 0.75, met as real);
    QuarterCompares(count, met);
  }

  lemma QuarterCompares(count: int, met: int)
    ensures count as real < 0.75 * met as real <==> 4 * count < 3 * met
  {
    assert (4 * count) as real == 4.0 * count as real && (3 * met) as real == 3.0 * met as real;
  }

  lemma ScaleCompares(x: real, y: real, z: real)
    requires z > 0.0
    ensures x < y <==> x * z < y * z
  {
    if x < y { assert (y - x) * z > 0.0; } else { assert (x - y) * z >= 0.0; }
  }

  /** The level of a fraction, in terms of the two counts. */
  lemma LevelOfShare(level: int, count: int, total: int)
    requires total > 0
    ensures (255 - level) as real <= 255.0 * Share(count, total) < (256 - level) as real <==>
      (255 - level) * total <= 255 * count < (256 - level) * total
  {
    var x, t := Share(count, total), total as real;
    var y := 255.0 * x;
    assert y * t == (255 * count) as real by {
      assert x * t == count as real;
      assert y * t == 255.0 * (x * t);
    }
    hide Share;
    LevelBound(y, t, 255 - level, total, 255 * count);
    LevelBound(y, t, 256 - level, total, 255 * count);
  }

  lemma LevelBound(y: real, t: real, bound: int, total: int, product: int)
    requires total > 0 && t == total as real && y * t == product as real
    ensures y < bound as real <==> product < bound * total
  {
    ScaleCompares(y, bound as real, t);
    assert bound as real * t == (bound * total) as real;
  }

  lemma ShareIsAFraction(count: int, total: int)
    requires 0 < count && 0 < total
    ensures 0.0 < Share(count, total)
    ensures count <= total <==> Share(count, total) <= 1.0
  {
    assert count as real == Share(count, total) * total as real;
    if Share(count, total) <= 1.0 {
      assert Share(count, total) * total as real <= total as real;
    }
  }

  lemma ShareIsMonotone(a: int, b: int, total: int)
    requires a <= b && 0 < total
    ensures Share(a, total) <= Share(b, total)
  {
    assert Share(b, total) - Share(a, total) == (b - a) as real / total as real;
  }

  lemma WholeShareIsRed(total: int)
    requires total > 0
    ensures Share(total, total) == 1.0 && SetColor(1.0, 0.0) == Colour(0, 0)
  {
  }

  // ----- the graph -----

  /** What is drawn for a node: its edge from the node above, and its colour. */
  datatype Edge = Edge(parent: Node, child: Node, colour: Colour)

  /** Every node below the root can be drawn: it is counted, and its name is met at least as often. */
  ghost predicate Drawable(nodes: map<Path, Node>, ts: seq<Path>)
  {
    forall q :: q in nodes && q.Down? ==>
      q.up in nodes && 0 < CountOf(ts, q) <= Met(ts, NameOf(q)) && CountOf(ts, q) <= |ts|
  }

  ghost function EdgeOf(nodes: map<Path, Node>, ts: seq<Path>, q: Path): (e: Edge)
    requires Drawable(nodes, ts) && q.Down? && q in nodes
    ensures e.parent == nodes[q.up] && e.child == nodes[q]
  {
    Edge(nodes[q.up], nodes[q], ColourOf(CountOf(ts, q), Met(ts, NameOf(q)), |ts|))
  }

  ghost function EdgesOf(nodes: map<Path, Node>, ts: seq<Path>, ps: set<Path>): set<Edge>
    requires Drawable(nodes, ts) && Root !in ps && ps <= nodes.Keys
  {
    set q | q in ps :: EdgeOf(nodes, ts, q)
  }

  /** The nodes at and below p that carry at least the threshold. */
  ghost function Heavy(nodes: map<Path, Node>, ts: seq<Path>, p: Path, threshold: real): set<Path>
    requires ts != []
  {
    set q | q in Below(nodes, p) && Share(CountOf(ts, q), |ts|) >= threshold
  }

  /** Pruning loses nothing: below a node under the threshold, every node is under it. */
  lemma {:induction false} NothingHeavyBelow(nodes: map<Path, Node>, ts: seq<Path>, p: Path, threshold: real)
    requires ts != [] && Share(CountOf(ts, p), |ts|) < threshold
    ensures Heavy(nodes, ts, p, threshold) == {}
  {
    forall q | q in Below(nodes, p)
      ensures Share(CountOf(ts, q), |ts|) < threshold
    {
      ShorterOccursMore(ts, p, q);
      ShareIsMonotone(CountOf(ts, q), CountOf(ts, p), |ts|);
    }
  }

  lemma {:induction false} TreeIsDrawable(tree: TraceTree)
    requires tree.Valid() && tree.traces != []
    ensures Drawable(tree.nodes, tree.traces)
  {
    hide Prefix, IsTree, CountOf, Met;
    forall q | q in tree.nodes && q.Down?
      ensures q.up in tree.nodes
      ensures 0 < CountOf(tree.traces, q) <= Met(tree.traces, NameOf(q)) && CountOf(tree.traces, q) <= |tree.traces|
    {
      tree.LinkFacts(q.up, q.step);
      EveryNodeCounts(tree, q);
      MetAtLeastOnce(tree.traces, q);
    }
  }

  /** The tree when the graph is drawn: percentages are there, of the number of traces. */
  ghost predicate Ready(tree: TraceTree)
    reads tree, tree.nodes.Values
  {
    tree.Valid() && tree.traces != [] && PercentsRight(tree.nodes, tree.nodes.Keys, |tree.traces|)
  }

  /** What buildGraph draws for one node, and the ratio that it divides out on the way. */
  method DrawNode(tree: TraceTree, ghost p: Path, parent: Node, child: Node, totalCount: int)
    returns (edge: Edge, ratio: real)
    requires Ready(tree) && totalCount == |tree.traces| && Drawable(tree.nodes, tree.traces)
    requires p in tree.nodes && child == tree.nodes[p]
    requires p.Down? && p.up in tree.nodes && parent == tree.nodes[p.up]
    ensures edge == EdgeOf(tree.nodes, tree.traces, p) && edge.parent == parent && edge.child == child
    ensures child.name in tree.globalCounts && COUNT in child.attributes && child.attributes[COUNT].Count?
    ensures var count, met, c := child.attributes[COUNT].n, tree.globalCounts[child.name], edge.colour;
      && 0 < count <= met && 0 <= c.green <= 255 && 0 <= c.blue <= 255
      && (255 - c.green) * totalCount <= 255 * count < (256 - c.green) * totalCount
      && (4 * count >= 3 * met ==> c.blue == c.green)
      && (4 * count < 3 * met ==> if met > totalCount then c.blue == 0
           else (255 - c.blue) * totalCount <= 255 * met < (256 - c.blue) * totalCount)
    ensures ratio == Share(CountOf(tree.traces, p), tree.globalCounts[child.name]) && 0.0 < ratio <= 1.0
  {
    hide Prefix, IsTree, CountOf, Met, Share, SetColor, TraceTree.Shape;
    EveryNodeCounts(tree, p);
    tree.NodeFacts(p);
    ghost var ts := tree.traces;
    ShareIsAFraction(CountOf(ts, p), Met(ts, NameOf(p)));
    ShareIsAFraction(CountOf(ts, p), |ts|);
    ShareIsAFraction(Met(ts, NameOf(p)), |ts|);
    var myPercent := child.attributes[PERCENT].p;
    var count := child.attributes[COUNT].n;
    ratio := Share(count, tree.globalCounts[child.name]);
    var offsetPercent := 0.0;
    if ratio < 0.75 {
      offsetPercent := Share(tree.globalCounts[child.name], totalCount);
    }
    edge := Edge(parent, child, SetColor(myPercent, offsetPercent));
  }

  lemma {:induction false} EdgesTogether(nodes: map<Path, Node>, ts: seq<Path>, a: set<Path>, b: set<Path>)
    requires Drawable(nodes, ts) && Root !in a && Root !in b && a <= nodes.Keys && b <= nodes.Keys
    ensures EdgesOf(nodes, ts, a + b) == EdgesOf(nodes, ts, a) + EdgesOf(nodes, ts, b)
  {
    hide EdgeOf, Drawable;
  }

  /** The heavy nodes strictly below p. */
  ghost function HeavyUnder(nodes: map<Path, Node>, ts: seq<Path>, p: Path, threshold: real): (qs: set<Path>)
    requires ts != []
  {
    Heavy(nodes, ts, p, threshold) - {p}
  }

  lemma {:induction false} HeavyBelowChild(nodes: map<Path, Node>, ts: seq<Path>, p: Path, n: string, threshold: real)
    requires ts != [] && p in nodes
    ensures Heavy(nodes, ts, Down(p, n), threshold) <= HeavyUnder(nodes, ts, p, threshold)
  {
    hide Prefix, Share;
    forall q | q in Below(nodes, Down(p, n))
      ensures q in Below(nodes, p) && q != p
    {
      NotAboveItself(p, n, q);
    }
  }

  lemma {:induction false} HeavyInTree(nodes: map<Path, Node>, ts: seq<Path>, p: Path, threshold: real)
    requires ts != []
    ensures Heavy(nodes, ts, p, threshold) <= nodes.Keys
    ensures p.Down? ==> Root !in Heavy(nodes, ts, p, threshold)
    ensures Root !in HeavyUnder(nodes, ts, p, threshold)
  {
    hide Share;
    if p.Down? {
      RootHasNoPrefix(p);
    }
  }

  lemma {:induction false} RootHasNoPrefix(p: Path)
    requires p.Down?
    ensures !Prefix(p, Root)
  {
  }

  /** The heavy nodes under p are all at or below its children. */
  lemma {:induction false} HeavyIsComplete(tree: TraceTree, p: Path, seen: set<Path>, threshold: real)
    requires tree.Valid() && tree.traces != [] && p in tree.nodes
    requires forall n :: n in tree.nodes[p].children ==>
      Heavy(tree.nodes, tree.traces, Down(p, n), threshold) <= seen
    ensures HeavyUnder(tree.nodes, tree.traces, p, threshold) <= seen
  {
    hide Prefix, IsTree, CountOf, Share;
    forall q | q in HeavyUnder(tree.nodes, tree.traces, p, threshold)
      ensures q in seen
    {
      var n := BelowAChild(tree, p, q);
      assert q in Heavy(tree.nodes, tree.traces, Down(p, n), threshold);
    }
  }

  /** The loop over the children, which buildGraph and dumpTree share. */
  method DrawChildren(tree: TraceTree, ghost p: Path, node: Node, totalCount: int, threshold: real)
    returns (edges: set<Edge>)
    requires Ready(tree) && totalCount == |tree.traces| && Drawable(tree.nodes, tree.traces)
    requires p in tree.nodes && node == tree.nodes[p]
    ensures Root !in HeavyUnder(tree.nodes, tree.traces, p, threshold)
    ensures edges == EdgesOf(tree.nodes, tree.traces, HeavyUnder(tree.nodes, tree.traces, p, threshold))
    decreases Below(tree.nodes, p), 0
  {
    hide Prefix, IsTree, CountOf, Met, Share, EdgeOf, Drawable, Heavy, HeavyUnder, PercentsRight, Below;
    hide TraceTree.Shape, TraceTree.CountsRight, TraceTree.GlobalCountsRight;
    ghost var nodes, ts := tree.nodes, tree.traces;
    HeavyInTree(nodes, ts, p, threshold);
    edges := {};
    ghost var seen := {};
    var rest := node.children.Keys;
    while rest != {}
      invariant rest <= node.children.Keys
      invariant seen <= HeavyUnder(nodes, ts, p, threshold) && seen <= nodes.Keys && Root !in seen
      invariant edges == EdgesOf(nodes, ts, seen)
      invariant forall n :: n in node.children && n !in rest ==> Heavy(nodes, ts, Down(p, n), threshold) <= seen
      decreases |rest|
    {
      var n :| n in rest;
      tree.ChildFacts(p, n);
      SmallerBelow(nodes, p, n);
      HeavyBelowChild(nodes, ts, p, n, threshold);
      HeavyInTree(nodes, ts, Down(p, n), threshold);
      var more := BuildGraph(tree, Down(p, n), node, node.children[n], totalCount, threshold);
      EdgesTogether(nodes, ts, seen, Heavy(nodes, ts, Down(p, n), threshold));
      edges := edges + more;
      seen := seen + Heavy(nodes, ts, Down(p, n), threshold);
      rest := rest - {n};
    }
    HeavyIsComplete(tree, p, seen, threshold);
    assert seen == HeavyUnder(nodes, ts, p, threshold);
  }

  /** buildGraph: it stops at the first light node on the way down, and yet draws every heavy one. */
  method BuildGraph(tree: TraceTree, ghost p: Path, parent: Node, child: Node, totalCount: int, threshold: real)
    returns (edges: set<Edge>)
    requires Ready(tree) && totalCount == |tree.traces| && Drawable(tree.nodes, tree.traces)
    requires p in tree.nodes && child == tree.nodes[p]
    requires p.Down? && p.up in tree.nodes && parent == tree.nodes[p.up]
    ensures Root !in Heavy(tree.nodes, tree.traces, p, threshold)
    ensures edges == EdgesOf(tree.nodes, tree.traces, Heavy(tree.nodes, tree.traces, p, threshold))
    decreases Below(tree.nodes, p), 1
  {
    hide Prefix, IsTree, CountOf, Met, Share, EdgeOf, Drawable;
    hide TraceTree.Shape, TraceTree.CountsRight, TraceTree.GlobalCountsRight;
    ghost var nodes, ts := tree.nodes, tree.traces;
    HeavyInTree(nodes, ts, p, threshold);
    EveryNodeCounts(tree, p);
    if child.attributes[PERCENT].p < threshold {
      NothingHeavyBelow(nodes, ts, p, threshold);
      return {};
    }
    SelfBelow(nodes, p);
    var edge, _ := DrawNode(tree, p, parent, child, totalCount);
    var more := DrawChildren(tree, p, child, totalCount, threshold);
    EdgesTogether(nodes, ts, {p}, HeavyUnder(nodes, ts, p, threshold));
    assert {p} + HeavyUnder(nodes, ts, p, threshold) == Heavy(nodes, ts, p, threshold);
    edges := {edge} + more;
  }

  /** dumpTree: the root is always drawn, and below it exactly the heavy nodes. */
  method DumpTree(tree: TraceTree, threshold: real) returns (head: Colour, edges: set<Edge>)
    requires Ready(tree)
    ensures head == Colour(0, 0)
    ensures Drawable(tree.nodes, tree.traces)
    ensures forall e :: e in edges <==> exists q ::
      q in tree.nodes && q.Down? && Share(CountOf(tree.traces, q), |tree.traces|) >= threshold
      && e == EdgeOf(tree.nodes, tree.traces, q)
  {
    hide Prefix, IsTree, CountOf, Met, EdgeOf, Drawable, Share, SetColor;
    hide TraceTree.Shape, TraceTree.CountsRight, TraceTree.GlobalCountsRight;
    tree.RootFacts();
    EveryNodeCounts(tree, Root);
    WholeShareIsRed(|tree.traces|);
    TreeIsDrawable(tree);
    AllBelowRoot(tree.nodes);
    head := SetColor(tree.root.attributes[PERCENT].p, 0.0);
    var totalCount := tree.root.attributes[COUNT].n;
    edges := DrawChildren(tree, Root, tree.root, totalCount, threshold);
  }

  /** The program from the list of traces to the graph; without an accepted trace it fails. */
  method Report(samples: seq<seq<Frame>>, killList: set<string>, threshold: real)
    returns (tree: TraceTree, ok: bool, edges: set<Edge>)
    ensures tree.Valid() && tree.traces == AcceptedPaths(samples, killList)
    ensures ok == (AcceptedPaths(samples, killList) != [])
    ensures ok ==> Drawable(tree.nodes, tree.traces) && forall e :: e in edges <==> exists q ::
      q in tree.nodes && q.Down? && Share(CountOf(tree.traces, q), |tree.traces|) >= threshold
      && e == EdgeOf(tree.nodes, tree.traces, q)
  {
    hide Prefix, IsTree, CountOf, Met, EdgeOf, Drawable, Share, AcceptedPaths;
    hide TraceTree.Shape, TraceTree.CountsRight, TraceTree.GlobalCountsRight;
    tree := TraceTree.Build(samples, killList);
    edges := {};
    ok := AddPercentages(tree);
    if ok {
      var head;
      head, edges := DumpTree(tree, threshold);
    }
  }
}
