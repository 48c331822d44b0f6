/**
  Consequences of the traversal's contract: which nodes it reaches, what a
  zero ceiling yields, which adjacency lists each direction consults, and the
  three-node cycle the utilities are meant to survive.
 */
module TraversalProperties {
  import opened NodeGraph
  import opened Traversal

  /** `p` follows connections in direction `dir`: each node is a neighbour of the one before it. */
  ghost predicate IsPath(g: Graph, dir: Direction, p: seq<NodeId>) {
    forall i :: 0 <= i < |p| - 1 ==> p[i + 1] in Next(g, p[i], dir)
  }

  /** Every node of `p` exists and passes the filter. */
  ghost predicate Admitted(g: Graph, filter: set<NodeType>, p: seq<NodeId>) {
    forall i :: 0 <= i < |p| ==> p[i] in g && !Excluded(filter, g[p[i]].kind)
  }

  /** `p` leads from `start` to `m` through nodes the filter lets through. */
  ghost predicate AdmittedPath(g: Graph, dir: Direction, filter: set<NodeType>, start: NodeId, m: NodeId, p: seq<NodeId>) {
    |p| > 0 && p[0] == start && p[|p| - 1] == m && IsPath(g, dir, p) && Admitted(g, filter, p)
  }

  /** Some chain of connections from `start` to `m` avoids every node the filter prunes. */
  ghost predicate ReachableThrough(g: Graph, dir: Direction, filter: set<NodeType>, start: NodeId, m: NodeId) {
    exists p :: AdmittedPath(g, dir, filter, start, m, p)
  }

  /** The yielded pairs as the traversal's contract describes them: first the start, then children of earlier pairs. */
  ghost predicate Discovered(g: Graph, dir: Direction, filter: set<NodeType>, start: NodeId, r: seq<Visit>) {
    && (r != [] ==> r[0] == Visit(start, 0))
    && (forall i :: 0 <= i < |r| ==> r[i].node in g && !Excluded(filter, g[r[i].node].kind))
    && (forall k :: 0 < k < |r| ==> Parented(g, dir, r, k, r[k]))
  }

  /** Every neighbour of a yielded node is yielded or pruned, as it is when there is no ceiling. */
  ghost predicate Closes(g: Graph, dir: Direction, filter: set<NodeType>, r: seq<Visit>) {
    forall k, m :: 0 <= k < |r| && m in Next(g, r[k].node, dir) ==> m in Nodes(r) || Excluded(filter, g[m].kind)
  }

  /** An admitted chain extends by one admitted neighbour of its last node. */
  lemma ExtendPath(g: Graph, dir: Direction, filter: set<NodeType>, start: NodeId, p: seq<NodeId>, m: NodeId)
    requires |p| > 0 && AdmittedPath(g, dir, filter, start, p[|p| - 1], p)
    requires m in Next(g, p[|p| - 1], dir) && !Excluded(filter, g[m].kind)
    ensures AdmittedPath(g, dir, filter, start, m, p + [m])
  {
    var p' := p + [m];
    assert forall i :: 0 <= i < |p| ==> p'[i] == p[i];
  }

  lemma {:induction false} DiscoveredHasPath(g: Graph, dir: Direction, filter: set<NodeType>, start: NodeId, r: seq<Visit>, k: nat)
    requires Discovered(g, dir, filter, start, r) && k < |r|
    ensures exists p :: AdmittedPath(g, dir, filter, start, r[k].node, p) && |p| == r[k].depth + 1
    decreases k
  {
    if k == 0 {
      assert AdmittedPath(g, dir, filter, start, r[0].node, [start]);
    } else {
      assert Parented(g, dir, r, k, r[k]);
      var j :| 0 <= j < k && j < |r| && IsChild(g, dir, r[j], r[k]);
      DiscoveredHasPath(g, dir, filter, start, r, j);
      var p :| AdmittedPath(g, dir, filter, start, r[j].node, p) && |p| == r[j].depth + 1;
      ExtendPath(g, dir, filter, start, p, r[k].node);
    }
  }

  lemma {:induction false} ClosedReachesPath(g: Graph, dir: Direction, filter: set<NodeType>, start: NodeId, r: seq<Visit>, p: seq<NodeId>)
    requires r != [] && r[0].node == start && Closes(g, dir, filter, r)
    requires |p| > 0 && p[0] == start && IsPath(g, dir, p) && Admitted(g, filter, p)
    ensures p[|p| - 1] in Nodes(r)
    decreases |p|
  {
    if |p| > 1 {
      var p' := p[..|p| - 1];
      assert IsPath(g, dir, p') && Admitted(g, filter, p');
      ClosedReachesPath(g, dir, filter, start, r, p');
      var k :| 0 <= k < |r| && r[k].node == p[|p| - 2];
      assert p[|p| - 1] in Next(g, r[k].node, dir);
    }
  }

  /**
    Every yielded node lies at the end of an admitted chain of connections from
    the start with as many connections as its depth.
   */
  lemma DiscoveryPath(g: Graph, start: NodeId, dir: Direction, maxDepth: int, filter: set<NodeType>, k: nat)
    requires k < |TraverseGraph(g, start, dir, maxDepth, filter)|
    ensures var r := TraverseGraph(g, start, dir, maxDepth, filter);
      exists p :: AdmittedPath(g, dir, filter, start, r[k].node, p) && |p| == r[k].depth + 1
  {
    DiscoveredHasPath(g, dir, filter, start, TraverseGraph(g, start, dir, maxDepth, filter), k);
  }

  /**
    Without a depth ceiling, a node is yielded exactly when an admitted chain of
    connections leads to it from the start. A node whose every chain passes
    through a pruned node is never yielded, even when its own type passes the
    filter.
   */
  lemma YieldedIffReachable(g: Graph, start: NodeId, dir: Direction, maxDepth: int, filter: set<NodeType>, m: NodeId)
    requires maxDepth < 0
    ensures m in Nodes(TraverseGraph(g, start, dir, maxDepth, filter)) <==> ReachableThrough(g, dir, filter, start, m)
  {
    var r := TraverseGraph(g, start, dir, maxDepth, filter);
    if m in Nodes(r) {
      var k :| 0 <= k < |r| && r[k].node == m;
      DiscoveredHasPath(g, dir, filter, start, r, k);
    }
    if ReachableThrough(g, dir, filter, start, m) {
      var p :| AdmittedPath(g, dir, filter, start, m, p);
      ClosedReachesPath(g, dir, filter, start, r, p);
    }
  }

  /** The pair after the root has a parent, so it sits at least one level down. */
  lemma SecondPairIsDeeper(g: Graph, dir: Direction, r: seq<Visit>)
    requires forall k :: 0 < k < |r| ==> Parented(g, dir, r, k, r[k])
    ensures |r| > 1 ==> r[1].depth >= 1
  {
    if |r| > 1 {
      assert Parented(g, dir, r, 1, r[1]);
    }
  }

  /** With `max_depth = 0` only the start node can be yielded. */
  lemma ZeroCeilingYieldsOnlyStart(g: Graph, start: NodeId, dir: Direction, filter: set<NodeType>)
    ensures TraverseGraph(g, start, dir, 0, filter) ==
      if start in g && !Excluded(filter, g[start].kind) then [Visit(start, 0)] else []
  {
    var r := TraverseGraph(g, start, dir, 0, filter);
    SecondPairIsDeeper(g, dir, r);
    if r != [] {
      assert r == [r[0]];
    }
  }

  /** Two graphs that agree on the nodes, their types, and the neighbours in `dir`. */
  ghost predicate AgreeOn(g1: Graph, g2: Graph, dir: Direction) {
    && g1.Keys == g2.Keys
    && forall n :: n in g1 ==> g1[n].kind == g2[n].kind && Next(g1, n, dir) == Next(g2, n, dir)
  }

  /** One dequeue reads the graph only through node types and neighbours in the walk's direction. */
  lemma StepAgrees(g1: Graph, g2: Graph, q: Query, st: WalkState)
    requires AgreeOn(g1, g2, q.direction) && st.queue != [] && InGraph(g1, st.queue) && InGraph(g2, st.queue)
    ensures Step(g1, q, st) == Step(g2, q, st)
  {
    var head := st.queue[0];
    assert head.node in g1;
    assert g1[head.node].kind == g2[head.node].kind;
    assert Next(g1, head.node, q.direction) == Next(g2, head.node, q.direction);
  }

  lemma {:induction false} RunAgrees(g1: Graph, g2: Graph, q: Query, st: WalkState)
    requires AgreeOn(g1, g2, q.direction) && Inv(g1, q, st) && Inv(g2, q, st)
    ensures Run(g1, q, st) == Run(g2, q, st)
    decreases |g1.Keys - st.visited|, |st.queue|
  {
    if st.queue != [] {
      var next := Step(g1, q, st);
      StepAgrees(g1, g2, q, st);
      StepPreservesInv(g1, q, st);
      StepPreservesInv(g2, q, st);
      RunAgrees(g1, g2, q, next);
      assert Run(g1, q, st) == Run(g1, q, next);
      assert Run(g2, q, st) == Run(g2, q, next);
    }
  }

  /** The walk reads nothing of the graph but node existence, node types and the neighbours in its direction. */
  lemma TraversalReadsOnlyItsDirection(g1: Graph, g2: Graph, start: NodeId, dir: Direction, maxDepth: int, filter: set<NodeType>)
    requires AgreeOn(g1, g2, dir)
    ensures TraverseGraph(g1, start, dir, maxDepth, filter) == TraverseGraph(g2, start, dir, maxDepth, filter)
  {
    if start in g1 {
      var q := Query(start, dir, maxDepth, filter);
      InitialInv(g1, q);
      InitialInv(g2, q);
      RunAgrees(g1, g2, q, Initial(start));
    }
  }

  /** `UPSTREAM` expands only source connections: the destination lists never matter. */
  lemma UpstreamIgnoresDestinations(g1: Graph, g2: Graph, start: NodeId, maxDepth: int, filter: set<NodeType>)
    requires g1.Keys == g2.Keys
    requires forall n :: n in g1 ==> g1[n].kind == g2[n].kind && g1[n].sources == g2[n].sources
    ensures TraverseGraph(g1, start, Upstream, maxDepth, filter) == TraverseGraph(g2, start, Upstream, maxDepth, filter)
  {
    TraversalReadsOnlyItsDirection(g1, g2, start, Upstream, maxDepth, filter);
  }

  /** `DOWNSTREAM` expands only destination connections: the source lists never matter. */
  lemma DownstreamIgnoresSources(g1: Graph, g2: Graph, start: NodeId, maxDepth: int, filter: set<NodeType>)
    requires g1.Keys == g2.Keys
    requires forall n :: n in g1 ==> g1[n].kind == g2[n].kind && g1[n].destinations == g2[n].destinations
    ensures TraverseGraph(g1, start, Downstream, maxDepth, filter) == TraverseGraph(g2, start, Downstream, maxDepth, filter)
  {
    TraversalReadsOnlyItsDirection(g1, g2, start, Downstream, maxDepth, filter);
  }

  // ---------------------------------------------------------------------------
  // The cycle A -> B -> C -> A, walked downstream from A.

  function CycleNode(kind: NodeType, before: NodeId, after: NodeId): Node {
    Node(kind, false, [before], [after], [])
  }

  /** A feeds B, B feeds C, C feeds A; B is a `"blend"` node and the others `"transform"`. */
  function Cycle(): Graph {
    map["A" := CycleNode("transform", "C", "B"),
        "B" := CycleNode("blend", "A", "C"),
        "C" := CycleNode("transform", "B", "A")]
  }

  lemma CycleShape()
    ensures "A" in Cycle() && "B" in Cycle() && "C" in Cycle()
    ensures Cycle()["A"].kind == "transform" && Cycle()["B"].kind == "blend" && Cycle()["C"].kind == "transform"
    ensures Next(Cycle(), "A", Downstream) == ["B"]
    ensures Next(Cycle(), "B", Downstream) == ["C"]
    ensures Next(Cycle(), "C", Downstream) == ["A"]
  {
  }

  /** The state after `Step` has yielded A and queued B; every scenario below passes through it. */
  function AfterA(): WalkState {
    WalkState([Visit("B", 1)], {"A"}, [Visit("A", 0)])
  }

  /** The state after B is yielded and C queued. */
  function AfterB(): WalkState {
    WalkState([Visit("C", 2)], {"A", "B"}, [Visit("A", 0), Visit("B", 1)])
  }

  /** From A, a walk whose filter admits transforms and whose ceiling admits depth 0 yields A and queues B. */
  lemma StepFromA(q: Query)
    requires q.start == "A" && q.direction == Downstream && !Beyond(q, 0) && !Excluded(q.filter, "transform")
    ensures Step(Cycle(), q, Initial("A")) == AfterA()
  {
    CycleShape();
    var st := Initial("A");
    assert InGraph(Cycle(), st.queue);
    assert st.queue[0] == Visit("A", 0) && st.queue[1..] == [];
    assert Enqueue(["B"], {"A"}, 1) == [Visit("B", 1)];
  }

  lemma StepYieldsB(q: Query)
    requires q.direction == Downstream && !Beyond(q, 1) && !Excluded(q.filter, "blend")
    ensures Step(Cycle(), q, AfterA()) == AfterB()
  {
    CycleShape();
    var st := AfterA();
    assert InGraph(Cycle(), st.queue);
    assert st.queue[0] == Visit("B", 1) && st.queue[1..] == [];
    assert "B" !in st.visited;
    assert st.visited + {"B"} == {"A", "B"};
    assert Enqueue(["C"], {"A", "B"}, 2) == [Visit("C", 2)];
    assert st.out + [Visit("B", 1)] == [Visit("A", 0), Visit("B", 1)];
  }

  lemma StepYieldsC(q: Query)
    requires q.direction == Downstream && !Beyond(q, 2) && !Excluded(q.filter, "transform")
    ensures Step(Cycle(), q, AfterB()) == WalkState([], {"A", "B", "C"}, [Visit("A", 0), Visit("B", 1), Visit("C", 2)])
  {
    CycleShape();
    var st := AfterB();
    assert InGraph(Cycle(), st.queue);
    assert st.queue[0] == Visit("C", 2) && st.queue[1..] == [];
    assert "C" !in st.visited;
    assert st.visited + {"C"} == {"A", "B", "C"};
    assert Enqueue(["A"], {"A", "B", "C"}, 3) == [];
    assert st.out + [Visit("C", 2)] == [Visit("A", 0), Visit("B", 1), Visit("C", 2)];
  }

  lemma StepDropsC(q: Query)
    requires Beyond(q, 2)
    ensures Step(Cycle(), q, AfterB()) == WalkState([], {"A", "B"}, [Visit("A", 0), Visit("B", 1)])
  {
    CycleShape();
    var st := AfterB();
    assert InGraph(Cycle(), st.queue);
    assert st.queue[0] == Visit("C", 2) && st.queue[1..] == [];
  }

  lemma StepPrunesB(q: Query)
    requires !Beyond(q, 1) && Excluded(q.filter, "blend")
    ensures Step(Cycle(), q, AfterA()) == WalkState([], {"A", "B"}, [Visit("A", 0)])
  {
    CycleShape();
    var st := AfterA();
    assert InGraph(Cycle(), st.queue);
    assert st.queue[0] == Visit("B", 1) && st.queue[1..] == [];
  }

  /** Walking the cycle yields A, B and C once each, at depths 0, 1 and 2, and stops. */
  lemma CycleVisitsEachNodeOnce()
    ensures TraverseGraph(Cycle(), "A", Downstream, -1, {}) == [Visit("A", 0), Visit("B", 1), Visit("C", 2)]
  {
    var g := Cycle();
    var q := Query("A", Downstream, -1, {});
    CycleShape();
    InitialInv(g, q);
    StepFromA(q);
    StepPreservesInv(g, q, Initial("A"));
    StepYieldsB(q);
    StepPreservesInv(g, q, AfterA());
    StepYieldsC(q);
    StepPreservesInv(g, q, AfterB());
    assert Run(g, q, Initial("A")) == Run(g, q, AfterA()) == Run(g, q, AfterB());
  }

  /** With `max_depth = 1` the walk stops after B: C is dequeued at depth 2 and dropped. */
  lemma CycleWithCeilingOne()
    ensures TraverseGraph(Cycle(), "A", Downstream, 1, {}) == [Visit("A", 0), Visit("B", 1)]
  {
    var g := Cycle();
    var q := Query("A", Downstream, 1, {});
    CycleShape();
    InitialInv(g, q);
    StepFromA(q);
    StepPreservesInv(g, q, Initial("A"));
    StepYieldsB(q);
    StepPreservesInv(g, q, AfterA());
    StepDropsC(q);
    StepPreservesInv(g, q, AfterB());
    assert Run(g, q, Initial("A")) == Run(g, q, AfterA()) == Run(g, q, AfterB());
  }

  /** A filter that lets only transforms through prunes B, and C, reachable only through B, is never found. */
  lemma CyclePrunedAtB()
    ensures TraverseGraph(Cycle(), "A", Downstream, -1, {"transform"}) == [Visit("A", 0)]
  {
    var g := Cycle();
    var q := Query("A", Downstream, -1, {"transform"});
    assert "blend" != "transform";
    assert !Excluded(q.filter, "transform") && Excluded(q.filter, "blend");
    CycleShape();
    InitialInv(g, q);
    StepFromA(q);
    StepPreservesInv(g, q, Initial("A"));
    StepPrunesB(q);
    StepPreservesInv(g, q, AfterA());
    var last := WalkState([], {"A", "B"}, [Visit("A", 0)]);
    assert Run(g, q, Initial("A")) == Run(g, q, AfterA()) == Run(g, q, last) == last;
  }
}
