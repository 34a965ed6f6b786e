/** visualizeYarnLocalTop.py and Node.py: the trie of stack traces, built and pruned on the heap. */
module TraceTree {
  import opened TracePaths

  /** The keys of the attribute dictionary that the program uses. */
  datatype Key = COUNT | PERCENT

  datatype Attribute = Count(n: int) | Percent(p: real)

  /** Node.py. */
  class Node {
    var name: string
    var children: map<string, Node>
    var attributes: map<Key, Attribute>

    constructor ()
      ensures name == HEAD && children == map[] && attributes == map[]
    {
      name, children, attributes := HEAD, map[], map[];
    }

    method SetName(name: string)
      modifies this`name
      ensures this.name == name
    {
      this.name := name;
    }

    method AddChild(name: string) returns (child: Node)
      modifies this`children
      ensures fresh(child) && child.name == name && child.children == map[] && child.attributes == map[]
      ensures children == old(children)[name := child]
    {
      child := new Node();
      child.SetName(name);
      children := children[name := child];
    }

    /** The count attribute, 0 where increment finds none. */
    ghost function CountHere(): int
      reads this`attributes
    {
      if COUNT in attributes && attributes[COUNT].Count? then attributes[COUNT].n else 0
    }

    /** The count attribute is an integer and, once there, positive. */
    ghost predicate CountIsInt()
      reads this`attributes
    {
      COUNT in attributes ==> attributes[COUNT].Count? && attributes[COUNT].n > 0
    }

    /** increment. */
    method Increment()
      requires CountIsInt()
      modifies this`attributes
      ensures CountIsInt() && CountHere() == old(CountHere()) + 1 && COUNT in attributes
    {
      var count := 0;
      if COUNT in attributes {
        count := attributes[COUNT].n;
      }
      attributes := attributes[COUNT := Count(count + 1)];
    }
  }

  class TraceTree {
    const root: Node
    var globalCounts: map<string, int>
    ghost var nodes: map<Path, Node>   // the node at every path of the tree
    ghost var traces: seq<Path>        // the accepted traces so far

    ghost function Names(): (names: map<Path, string>)
      reads this`nodes, nodes.Values`name
      ensures names.Keys == nodes.Keys
    {
      map p | p in nodes :: nodes[p].name
    }

    ghost function Kids(): (kids: map<Path, map<string, Node>>)
      reads this`nodes, nodes.Values`children
      ensures kids.Keys == nodes.Keys
    {
      map p | p in nodes :: nodes[p].children
    }

    /** nodes describes the tree below root. */
    ghost predicate Shape()
      reads this`nodes, nodes.Values`name, nodes.Values`children
    {
      IsTree(root, nodes, Names(), Kids())
    }

    /** The counts are those of the given traces; only at path p may a node not have been counted yet. */
    ghost predicate CountsRight(ts: seq<Path>, p: Path)
      reads this`nodes, nodes.Values`attributes
    {
      && (forall q :: q in nodes ==> nodes[q].CountIsInt() && nodes[q].CountHere() == CountOf(ts, q))
      && (forall q :: CountOf(ts, q) > 0 ==> q in nodes)
      && (forall q :: q in nodes && q != p ==> q == Root || CountOf(ts, q) > 0)
    }

    ghost predicate GlobalCountsRight(ts: seq<Path>)
      reads this`globalCounts
    {
      && (forall n :: n in globalCounts <==> Met(ts, n) > 0)
      && (forall n :: n in globalCounts ==> globalCounts[n] == Met(ts, n))
    }

    ghost predicate Valid()
      reads this, nodes.Values
    {
      Shape() && CountsRight(traces, Root) && GlobalCountsRight(traces)
    }

    constructor ()
      ensures Valid() && traces == [] && fresh(nodes.Values)
    {
      root := new Node();
      globalCounts := map[];
      new;
      hide IsTree, NameOf, Prefix, MetOn;
      nodes := map[Root := root];
      traces := [];
      RootAlone(root);
      assert Names() == map[Root := HEAD] && Kids() == map[Root := map[]];
    }

    /** addGlobalCount. */
    method AddGlobalCount(name: string, ghost ts: seq<Path>, ghost ts': seq<Path>)
      requires GlobalCountsRight(ts)
      requires forall n :: Met(ts', n) == Met(ts, n) + if n == name then 1 else 0
      modifies this`globalCounts
      ensures GlobalCountsRight(ts')
    {
      hide Met;
      if name in globalCounts {
        globalCounts := globalCounts[name := globalCounts[name] + 1];
      } else {
        globalCounts := globalCounts[name := 1];
      }
    }

    /** increment, for the node at path p. */
    method IncrementAt(ghost p: Path, node: Node, ghost ts: seq<Path>, ghost ts': seq<Path>)
      requires Shape() && CountsRight(ts, p) && p in nodes && node == nodes[p]
      requires forall q :: CountOf(ts', q) == CountOf(ts, q) + if q == p then 1 else 0
      modifies node`attributes
      ensures CountsRight(ts', Root)
    {
      hide CountOf, Shape;
      NodesDiffer(p);
      node.Increment();
      forall q | q in nodes
        ensures nodes[q].CountIsInt() && nodes[q].CountHere() == CountOf(ts', q)
      {
        if q != p { assert nodes[q] != node; }
      }
    }

    /** add_child, for a step that has no node yet. */
    method Attach(ghost cur: Path, thisNode: Node, step: string) returns (next: Node)
      requires Shape() && cur in nodes && thisNode == nodes[cur]
      requires step !in thisNode.children
      modifies this`nodes, thisNode`children
      ensures Shape() && Down(cur, step) !in old(nodes)
      ensures nodes == old(nodes)[Down(cur, step) := next] && fresh(next) && next.attributes == map[]
    {
      hide IsTree, NameOf, Depth, CountOf;
      ghost var p, before, names, kids := Down(cur, step), nodes, Names(), Kids();
      NodesAreSeparate(root, nodes, names, kids);
      NewChild(root, nodes, names, kids, cur, step);
      next := thisNode.AddChild(step);
      nodes := nodes[p := next];
      assert Names() == names[p := step];
      assert Kids() == kids[cur := kids[cur][step := next]][p := map[]];
      assert next !in before.Values;
      AttachedTree(root, before, names, kids, cur, step, next);
    }

    /** The child for a step, created where there is none. */
    method FindChild(ghost cur: Path, thisNode: Node, step: string) returns (next: Node)
      requires Shape() && CountsRight(traces, Root) && cur in nodes && thisNode == nodes[cur]
      modifies this`nodes, thisNode`children
      ensures Shape() && CountsRight(traces, Down(cur, step))
      ensures Down(cur, step) in nodes && next == nodes[Down(cur, step)]
      ensures forall p :: p in old(nodes) ==> p in nodes && nodes[p] == old(nodes)[p]
      ensures fresh(nodes.Values - old(nodes.Values))
    {
      hide CountOf, IsTree, Shape;
      if step in thisNode.children {
        ChildFacts(cur, step);
        next := thisNode.children[step];
      } else {
        next := Attach(cur, thisNode, step);
        assert CountOf(traces, Down(cur, step)) == 0;
        assert next.CountIsInt() && next.CountHere() == 0;
      }
    }

    lemma RootFacts()
      requires Shape()
      ensures Root in nodes && nodes[Root] == root && root.name == HEAD
    {
      hide IsTree;
      RootIsHead(root, nodes, Names(), Kids());
    }

    lemma NodeFacts(p: Path)
      requires Shape() && p in nodes
      ensures nodes[p].name == NameOf(p)
    {
      hide IsTree, NameOf;
      NodeIsNamed(root, nodes, Names(), Kids(), p);
    }

    lemma ChildFacts(p: Path, n: string)
      requires Shape() && p in nodes && n in nodes[p].children
      ensures Down(p, n) in nodes && nodes[p].children[n] == nodes[Down(p, n)]
    {
      hide IsTree;
      ChildIsLinked(root, nodes, Names(), Kids(), p, n);
    }

    lemma LinkFacts(p: Path, n: string)
      requires Shape() && Down(p, n) in nodes
      ensures p in nodes && n in nodes[p].children
    {
      hide IsTree;
      ParentLinks(root, nodes, Names(), Kids(), p, n);
    }

    lemma NodesDiffer(p: Path)
      requires Shape() && p in nodes
      ensures forall q :: q in nodes && q != p ==> nodes[q] != nodes[p]
    {
      hide IsTree;
      NodesAreSeparate(root, nodes, Names(), Kids());
    }

    /** The head of a trace: its count goes up before the first step down. */
    method CountRoot()
      requires Valid()
      modifies this`globalCounts, this`traces, root`attributes
      ensures Valid() && traces == old(traces) + [Root] && nodes == old(nodes)
    {
      hide CountOf, Met, IsTree, Shape, CountsRight, GlobalCountsRight;
      ghost var ts := traces + [Root];
      NewTrace(traces);
      RootFacts();
      IncrementAt(Root, root, traces, ts);
      AddGlobalCount(root.name, traces, ts);
      traces := ts;
    }

    /** One turn of the loop: the last trace goes one step further down. */
    method Descend(ghost cur: Path, thisNode: Node, step: string) returns (next: Node)
      requires Valid() && cur in nodes && thisNode == nodes[cur]
      requires traces != [] && traces[|traces| - 1] == cur
      modifies this`nodes, this`traces, this`globalCounts, nodes.Values
      ensures Valid() && traces == old(traces[..|traces| - 1]) + [Down(cur, step)]
      ensures Down(cur, step) in nodes && next == nodes[Down(cur, step)]
      ensures forall p :: p in old(nodes) ==> p in nodes && nodes[p] == old(nodes)[p]
      ensures fresh(nodes.Values - old(nodes.Values))
    {
      hide CountOf, Met, IsTree, Shape, CountsRight, GlobalCountsRight;
      ghost var was := traces[..|traces| - 1];
      assert traces == was + [cur];
      ghost var ts := was + [Down(cur, step)];
      OneStepFurther(was, cur, step);
      next := FindChild(cur, thisNode, step);
      NodeFacts(Down(cur, step));
      IncrementAt(Down(cur, step), next, traces, ts);
      AddGlobalCount(next.name, traces, ts);
      traces := ts;
    }

    /**
     addTrace. A trace counts if no frame of it is on the kill list; then it leads from the root down
     through one node for each frame, from the last one listed to the first.
     */
    method AddTrace(trace: seq<Frame>, killList: set<string>) returns (ghost walk: seq<Node>)
      requires Valid()
      modifies this`nodes, this`traces, this`globalCounts, nodes.Values
      ensures Valid() && fresh(nodes.Values - old(nodes.Values))
      ensures traces == old(traces) + if Accepted(trace, killList) then [Along(StepsOf(trace))] else []
      ensures Accepted(trace, killList) <==>
        trace != [] && forall f :: f in trace ==> f.clazz + ":" + f.method_ !in killList
      ensures !Accepted(trace, killList) ==> nodes == old(nodes) && globalCounts == old(globalCounts)
      ensures Accepted(trace, killList) ==>
        |walk| == |trace| + 1 && walk[0] == root && forall j :: 0 <= j < |trace| ==>
          var k, name := |trace| - j, trace[j].clazz + ":" + trace[j].method_;
          walk[k].name == name && name in walk[k - 1].children && walk[k - 1].children[name] == walk[k]
    {
      hide CountOf, Met, IsTree, Shape, CountsRight, GlobalCountsRight, StepsOf, StepOf, Accepted;
      AcceptedIs(trace, killList);
      walk := [];
      if |trace| > 0 {
        var steps := StepsOf(trace);
        KilledSteps(trace, killList);
        for i := 0 to |steps|
          invariant forall j :: 0 <= j < i ==> steps[j] !in killList
        {
          if steps[i] in killList {
            return;
          }
        }
        RootFacts();
        CountRoot();
        RootFacts();
        var thisNode := root;
        ghost var cur := Root;
        for i := 0 to |steps|
          invariant Valid() && fresh(nodes.Values - old(nodes.Values))
          invariant cur == Along(steps[..i]) && traces == old(traces) + [cur]
          invariant cur in nodes && thisNode == nodes[cur]
          invariant forall k :: 0 <= k <= i ==> Along(steps[..k]) in nodes
        {
          assert steps[..i + 1][..i] == steps[..i];
          thisNode := Descend(cur, thisNode, steps[i]);
          cur := Down(cur, steps[i]);
        }
        assert steps[..|steps|] == steps;
        walk := WalkOf(trace, steps);
      }
    }

    /** The nodes along the steps of a trace. */
    lemma WalkOf(trace: seq<Frame>, steps: seq<string>) returns (walk: seq<Node>)
      requires Shape() && steps == StepsOf(trace)
      requires forall k :: 0 <= k <= |steps| ==> Along(steps[..k]) in nodes
      ensures |walk| == |trace| + 1 && walk[0] == root && forall j :: 0 <= j < |trace| ==>
        var k, name := |trace| - j, trace[j].clazz + ":" + trace[j].method_;
        walk[k].name == name && name in walk[k - 1].children && walk[k - 1].children[name] == walk[k]
    {
      hide IsTree, Shape, StepsOf, NameOf;
      StepsAre(trace);
      RootFacts();
      walk := seq(|steps| + 1, k requires 0 <= k <= |steps| && Along(steps[..k]) in nodes reads this =>
        nodes[Along(steps[..k])]);
      assert Along(steps[..0]) == Root;
      forall j | 0 <= j < |trace|
        ensures var k, name := |trace| - j, trace[j].clazz + ":" + trace[j].method_;
          walk[k].name == name && name in walk[k - 1].children && walk[k - 1].children[name] == walk[k]
      {
        NodeAlong(steps, |trace| - j);
      }
    }

    /** The node k steps down carries the last of them and is a child of the node above. */
    lemma NodeAlong(steps: seq<string>, k: nat)
      requires Shape() && 1 <= k <= |steps| && Along(steps[..k]) in nodes
      ensures nodes[Along(steps[..k])].name == steps[k - 1]
      ensures Along(steps[..k - 1]) in nodes && steps[k - 1] in nodes[Along(steps[..k - 1])].children
      ensures nodes[Along(steps[..k - 1])].children[steps[k - 1]] == nodes[Along(steps[..k])]
    {
      hide IsTree, Shape, NameOf;
      assert steps[..k][..k - 1] == steps[..k - 1];
      var p, step := Along(steps[..k - 1]), steps[k - 1];
      assert Along(steps[..k]) == Down(p, step);
      LinkFacts(p, step);
      ChildFacts(p, step);
      NodeFacts(Down(p, step));
      NameOfStep(p, step);
    }

    /** There is a node exactly at the prefixes of the accepted traces, and it counts them. */
    lemma NodesArePrefixes(p: Path)
      requires Valid()
      ensures p in nodes <==> p == Root || exists i :: 0 <= i < |traces| && Prefix(p, traces[i])
      ensures p in nodes ==> nodes[p].CountHere() == CountOf(traces, p)
    {
      hide Prefix, CountOf, IsTree;
      CountIsPositive(traces, p);
      RootFacts();
    }

    ghost function NodesNamed(name: string): set<Path>
      reads this`nodes
    {
      set p | p in nodes && NameOf(p) == name
    }

    /** A global count is the sum of the counts of all nodes with that name. */
    lemma GlobalCountsAreSums(name: string)
      requires Valid()
      ensures name in globalCounts <==> Met(traces, name) > 0
      ensures name in globalCounts ==>
        globalCounts[name] == SumOfCounts(NodesNamed(name), traces)
    {
      hide Prefix, CountOf, IsTree, NameOf, SumOfCounts, Met;
      forall i, p | 0 <= i < |traces| && Prefix(p, traces[i])
        ensures p in nodes
      {
        NodesArePrefixes(p);
      }
      MetIsSumOfCounts(NodesNamed(name), traces, name);
    }

    /** The loop of the program that adds one trace after the other to a new tree. */
    static method Build(samples: seq<seq<Frame>>, killList: set<string>) returns (tree: TraceTree)
      ensures fresh(tree) && fresh(tree.nodes.Values)
      ensures tree.Valid() && tree.traces == AcceptedPaths(samples, killList)
    {
      hide CountOf, Met, IsTree, Accepted, StepsOf, Along;
      tree := new TraceTree();
      for i := 0 to |samples|
        invariant fresh(tree) && fresh(tree.nodes.Values)
        invariant tree.Valid() && tree.traces == AcceptedPaths(samples[..i], killList)
      {
        assert samples[..i + 1][..i] == samples[..i];
        var _ := tree.AddTrace(samples[i], killList);
      }
      assert samples[..|samples|] == samples;
    }
  }

  // ----- the tree, as a value -----

  ghost predicate NoneShared(nodes: map<Path, Node>)
  {
    forall p, q :: p in nodes && q in nodes && nodes[p] == nodes[q] ==> p == q
  }

  ghost predicate Named(names: map<Path, string>)
  {
    forall p :: p in names ==> names[p] == NameOf(p)
  }

  /** Every child in a dictionary is the node one step further down ... */
  ghost predicate LinkedDown(nodes: map<Path, Node>, kids: map<Path, map<string, Node>>)
  {
    forall p, n :: p in kids && n in kids[p] ==> Down(p, n) in nodes && kids[p][n] == nodes[Down(p, n)]
  }

  /** ... and every node below the root is in the dictionary of the node above it. */
  ghost predicate LinkedUp(nodes: map<Path, Node>, kids: map<Path, map<string, Node>>)
  {
    forall p, n :: Down(p, n) in nodes ==> p in kids && n in kids[p]
  }

  /** Children link each path to its extensions, each node has the name of its path, and none is shared. */
  ghost predicate IsTree(root: Node, nodes: map<Path, Node>, names: map<Path, string>,
                         kids: map<Path, map<string, Node>>)
  {
    && names.Keys == nodes.Keys == kids.Keys
    && Root in nodes && nodes[Root] == root
    && Named(names) && NoneShared(nodes) && LinkedDown(nodes, kids) && LinkedUp(nodes, kids)
  }

  lemma {:induction false} RootAlone(root: Node)
    ensures IsTree(root, map[Root := root], map[Root := HEAD], map[Root := map[]])
  {
  }

  lemma {:induction false} NodesAreSeparate(root: Node, nodes: map<Path, Node>, names: map<Path, string>,
                                            kids: map<Path, map<string, Node>>)
    requires IsTree(root, nodes, names, kids)
    ensures forall p, q :: p in nodes && q in nodes && nodes[p] == nodes[q] ==> p == q
    ensures Root in nodes && nodes[Root] == root
  {
  }

  lemma {:induction false} RootIsHead(root: Node, nodes: map<Path, Node>, names: map<Path, string>,
                                      kids: map<Path, map<string, Node>>)
    requires IsTree(root, nodes, names, kids)
    ensures Root in nodes && nodes[Root] == root && names[Root] == HEAD
  {
  }

  lemma {:induction false} NodeIsNamed(root: Node, nodes: map<Path, Node>, names: map<Path, string>,
                                       kids: map<Path, map<string, Node>>, p: Path)
    requires IsTree(root, nodes, names, kids) && p in nodes
    ensures names[p] == NameOf(p)
  {
  }

  lemma {:induction false} ChildIsLinked(root: Node, nodes: map<Path, Node>, names: map<Path, string>,
                                         kids: map<Path, map<string, Node>>, p: Path, n: string)
    requires IsTree(root, nodes, names, kids) && p in nodes && n in kids[p]
    ensures Down(p, n) in nodes && kids[p][n] == nodes[Down(p, n)] && names[Down(p, n)] == n
  {
  }

  lemma {:induction false} ParentLinks(root: Node, nodes: map<Path, Node>, names: map<Path, string>,
                                       kids: map<Path, map<string, Node>>, p: Path, n: string)
    requires IsTree(root, nodes, names, kids) && Down(p, n) in nodes
    ensures p in nodes && n in kids[p]
  {
  }

  lemma {:induction false} NewChild(root: Node, nodes: map<Path, Node>, names: map<Path, string>,
                                    kids: map<Path, map<string, Node>>, p: Path, n: string)
    requires IsTree(root, nodes, names, kids) && p in nodes && n !in kids[p]
    ensures Down(p, n) !in nodes
  {
  }

  /** A new leaf below p keeps the tree. */
  lemma {:induction false} AttachedTree(root: Node, nodes: map<Path, Node>, names: map<Path, string>,
                                        kids: map<Path, map<string, Node>>, p: Path, n: string, leaf: Node)
    requires IsTree(root, nodes, names, kids) && p in nodes && n !in kids[p] && leaf !in nodes.Values
    ensures IsTree(root, nodes[Down(p, n) := leaf], names[Down(p, n) := n],
                   kids[p := kids[p][n := leaf]][Down(p, n) := map[]])
  {
    NewChild(root, nodes, names, kids, p, n);
    hide LinkedDown, LinkedUp, NoneShared;
    AttachedNodes(nodes, p, n, leaf);
    AttachedDown(nodes, kids, p, n, leaf);
    AttachedUp(nodes, kids, p, n, leaf);
  }

  lemma {:induction false} AttachedNodes(nodes: map<Path, Node>, p: Path, n: string, leaf: Node)
    requires NoneShared(nodes) && leaf !in nodes.Values
    ensures NoneShared(nodes[Down(p, n) := leaf])
  {
    forall q | q in nodes
      ensures nodes[q] != leaf
    {
      assert nodes[q] in nodes.Values;
    }
  }

  lemma {:induction false} AttachedDown(nodes: map<Path, Node>, kids: map<Path, map<string, Node>>,
                                        p: Path, n: string, leaf: Node)
    requires LinkedDown(nodes, kids) && p in kids && Down(p, n) !in nodes && Down(p, n) !in kids
    ensures LinkedDown(nodes[Down(p, n) := leaf], kids[p := kids[p][n := leaf]][Down(p, n) := map[]])
  {
    var kids' := kids[p := kids[p][n := leaf]][Down(p, n) := map[]];
    forall q, m | q in kids' && m in kids'[q]
      ensures Down(q, m) in nodes[Down(p, n) := leaf] && kids'[q][m] == nodes[Down(p, n) := leaf][Down(q, m)]
    {
      if q == p && m == n {
      } else {
        assert q in kids && m in kids[q];
      }
    }
  }

  lemma {:induction false} AttachedUp(nodes: map<Path, Node>, kids: map<Path, map<string, Node>>,
                                      p: Path, n: string, leaf: Node)
    requires LinkedUp(nodes, kids) && p in kids && Down(p, n) !in nodes && nodes.Keys == kids.Keys
    ensures LinkedUp(nodes[Down(p, n) := leaf], kids[p := kids[p][n := leaf]][Down(p, n) := map[]])
  {
    var kids' := kids[p := kids[p][n := leaf]][Down(p, n) := map[]];
    NewPath(p, n);
    forall q, m | Down(q, m) in nodes[Down(p, n) := leaf]
      ensures q in kids' && m in kids'[q]
    {
      if Down(q, m) in nodes {
        assert q in kids && m in kids[q];
      }
    }
  }

  lemma {:induction false} NewPath(p: Path, step: string)
    ensures Down(p, step) != p
  {
    assert Depth(Down(p, step)) != Depth(p);
  }
}
