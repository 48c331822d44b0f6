/**
  `traverse_graph`: a breadth-first walk from a start node over the host's
  connections, in one direction, with an optional depth ceiling and an
  optional node-type filter.

  The Python generator keeps a FIFO queue of `(node, depth)` pairs seeded with
  `(start, 0)` and a visited set. Each dequeued pair is dropped when its node
  was visited already or its depth exceeds a non-negative `max_depth`;
  otherwise the node is marked visited and, when a filter is set and the
  node's type is not in it, dropped again: neither yielded nor expanded.
  A node that survives is yielded and its neighbours not yet visited are
  appended at `depth + 1`.

  Here one dequeue is `Step`, the loop is the tail recursion `Run`, and the
  generator's output is the whole finite sequence of yielded pairs; a caller
  that stops consuming early sees a prefix of it.
 */
module Traversal {
  import opened NodeGraph
  import Seqs

  /** One yielded pair `(node, depth)`. */
  datatype Visit = Visit(node: NodeId, depth: nat)

  /**
    The arguments of one call. A negative `maxDepth` means no ceiling (the
    default is -1); an empty `filter` means no filter, as both `None` and an
    empty set are false in `if node_filter:`.
   */
  datatype Query = Query(start: NodeId, direction: Direction, maxDepth: int, filter: set<NodeType>)

  /** The per-call state: the FIFO queue, the visited set, and the pairs yielded so far. */
  datatype WalkState = WalkState(queue: seq<Visit>, visited: set<NodeId>, out: seq<Visit>)

  /** A node of this type is pruned by the filter. */
  predicate Excluded(filter: set<NodeType>, kind: NodeType) {
    filter != {} && kind !in filter
  }

  /** A pair at this depth is dropped by the depth ceiling. */
  predicate Beyond(q: Query, depth: int) {
    q.maxDepth >= 0 && depth > q.maxDepth
  }

  /** The node names of a sequence of pairs, in order. */
  function Nodes(vs: seq<Visit>): (ns: seq<NodeId>)
    ensures |ns| == |vs|
    ensures forall i :: 0 <= i < |vs| ==> ns[i] == vs[i].node
  {
    seq(|vs|, i requires 0 <= i < |vs| => vs[i].node)
  }

  /** Every pair names a node of the graph. */
  ghost predicate InGraph(g: Graph, vs: seq<Visit>) {
    forall i :: 0 <= i < |vs| ==> vs[i].node in g
  }

  /** Depths never decrease along the sequence. */
  ghost predicate NonDecreasing(vs: seq<Visit>) {
    forall i, j :: 0 <= i < j < |vs| ==> vs[i].depth <= vs[j].depth
  }

  /** `v` is a neighbour of `p` in direction `dir`, one level deeper. */
  ghost predicate IsChild(g: Graph, dir: Direction, p: Visit, v: Visit) {
    v.node in Next(g, p.node, dir) && v.depth == p.depth + 1
  }

  /** One of the first `bound` pairs of `ps` is the parent of `v`. */
  ghost predicate Parented(g: Graph, dir: Direction, ps: seq<Visit>, bound: int, v: Visit) {
    exists j :: 0 <= j < bound && j < |ps| && IsChild(g, dir, ps[j], v)
  }

  /**
    The pairs appended for the neighbours `ns` of a yielded node: one pair at
    `depth` for each neighbour, in order and with repeats, that is not in
    `visited`.
   */
  function Enqueue(ns: seq<NodeId>, visited: set<NodeId>, depth: nat): (r: seq<Visit>)
    ensures forall i :: 0 <= i < |r| ==> r[i].node in ns && r[i].node !in visited && r[i].depth == depth
    ensures forall m :: m in ns && m !in visited ==> Visit(m, depth) in r
  {
    if ns == [] then []
    else
      var rest := Enqueue(ns[1..], visited, depth);
      assert forall m :: m in ns && m != ns[0] ==> m in ns[1..];
      if ns[0] in visited then rest else [Visit(ns[0], depth)] + rest
  }

  /** The test the enqueue loop applies to each neighbour: not visited yet. */
  function Unvisited(visited: set<NodeId>): NodeId -> bool {
    m => m !in visited
  }

  /** Each of `nodes`, in order, paired with `depth`. */
  function AtDepth(nodes: seq<NodeId>, depth: nat): (r: seq<Visit>)
    ensures |r| == |nodes|
  {
    if nodes == [] then [] else [Visit(nodes[0], depth)] + AtDepth(nodes[1..], depth)
  }

  /**
    The `for neighbor in neighbors: if neighbor not in visited:
    queue.append(...)` loop keeps the neighbours' order and their repeats: the
    pairs queued are the unvisited neighbours, as a comprehension keeps them,
    each one level deeper.
   */
  lemma {:induction false} EnqueueKeepsOrder(ns: seq<NodeId>, visited: set<NodeId>, depth: nat)
    ensures Enqueue(ns, visited, depth) == AtDepth(Seqs.Keep(ns, Unvisited(visited)), depth)
  {
    if ns != [] {
      EnqueueKeepsOrder(ns[1..], visited, depth);
      var rest := Seqs.Keep(ns[1..], Unvisited(visited));
      if ns[0] !in visited {
        assert Seqs.Keep(ns, Unvisited(visited)) == [ns[0]] + rest;
        assert ([ns[0]] + rest)[1..] == rest;
      }
    }
  }

  /** The state of a fresh call: the queue holds `(start, 0)` and nothing is visited. */
  function Initial(start: NodeId): WalkState {
    WalkState([Visit(start, 0)], {}, [])
  }

  /** One iteration of the `while queue:` loop. */
  function Step(g: Graph, q: Query, st: WalkState): (r: WalkState)
    requires st.queue != [] && InGraph(g, st.queue)
    ensures InGraph(g, r.queue)
    ensures (r.visited == st.visited && |r.queue| < |st.queue|) || |g.Keys - r.visited| < |g.Keys - st.visited|
  {
    var head := st.queue[0];
    var rest := st.queue[1..];
    if head.node in st.visited || Beyond(q, head.depth) then
      st.(queue := rest)
    else
      var visited := st.visited + {head.node};
      assert g.Keys - visited == (g.Keys - st.visited) - {head.node};
      if Excluded(q.filter, g[head.node].kind) then
        WalkState(rest, visited, st.out)
      else
        WalkState(rest + Enqueue(Next(g, head.node, q.direction), visited, head.depth + 1), visited, st.out + [head])
  }

  // ---------------------------------------------------------------------------
  // The loop invariant, in five parts.

  /** Where nodes live, what was yielded, and why each visited node was visited. */
  ghost predicate Basics(g: Graph, q: Query, st: WalkState) {
    && q.start in g
    && InGraph(g, st.queue)
    && InGraph(g, st.out)
    && (forall v :: v in st.visited ==> v in g && (v in Nodes(st.out) || Excluded(q.filter, g[v].kind)))
    && (forall i :: 0 <= i < |st.out| ==>
          && st.out[i].node in st.visited
          && !Beyond(q, st.out[i].depth)
          && !Excluded(q.filter, g[st.out[i].node].kind))
    && (forall i, j :: 0 <= i < j < |st.out| ==> st.out[i].node != st.out[j].node)
  }

  /** FIFO layering: the queue spans at most two consecutive depths, none below what was yielded. */
  ghost predicate Layered(st: WalkState) {
    && NonDecreasing(st.out)
    && NonDecreasing(st.queue)
    && (st.queue != [] ==>
          && (forall i :: 0 <= i < |st.queue| ==> st.queue[i].depth <= st.queue[0].depth + 1)
          && (st.out != [] ==> st.out[|st.out| - 1].depth <= st.queue[0].depth))
  }

  /** The start node comes first; with nothing yielded, either nothing has happened or the start was pruned. */
  ghost predicate Started(g: Graph, q: Query, st: WalkState) {
    && (st.out != [] ==> st.out[0] == Visit(q.start, 0))
    && (st.out == [] ==>
          || (st.queue == [Visit(q.start, 0)] && st.visited == {})
          || (st.queue == [] && q.start in g && Excluded(q.filter, g[q.start].kind)))
  }

  /** Every yielded pair after the first, and every queued pair but the seed, has a yielded parent. */
  ghost predicate Rooted(g: Graph, q: Query, st: WalkState) {
    && (forall k :: 0 < k < |st.out| ==> Parented(g, q.direction, st.out, k, st.out[k]))
    && (forall i :: 0 <= i < |st.queue| ==>
          st.queue[i] == Visit(q.start, 0) || Parented(g, q.direction, st.out, |st.out|, st.queue[i]))
  }

  /** Every neighbour of a yielded node is visited, waiting in the queue one level deeper, or past the ceiling. */
  ghost predicate Expanded(g: Graph, q: Query, st: WalkState) {
    forall k, m :: 0 <= k < |st.out| && m in Next(g, st.out[k].node, q.direction) ==>
      || m in st.visited
      || Visit(m, st.out[k].depth + 1) in st.queue
      || Beyond(q, st.out[k].depth + 1)
  }

  ghost predicate Inv(g: Graph, q: Query, st: WalkState) {
    Basics(g, q, st) && Layered(st) && Started(g, q, st) && Rooted(g, q, st) && Expanded(g, q, st)
  }

  lemma InitialInv(g: Graph, q: Query)
    requires q.start in g
    ensures Inv(g, q, Initial(q.start))
  {
  }

  /** Dropping the head of the queue, perhaps after marking a pruned node visited, keeps the basics. */
  lemma BasicsAfterDrop(g: Graph, q: Query, st: WalkState, visited: set<NodeId>)
    requires Basics(g, q, st) && st.queue != []
    requires visited == st.visited || (visited == st.visited + {st.queue[0].node} && Excluded(q.filter, g[st.queue[0].node].kind))
    ensures Basics(g, q, WalkState(st.queue[1..], visited, st.out))
  {
  }

  /** Yielding an unvisited head within the ceiling that passes the filter keeps the basics. */
  lemma BasicsAfterYield(g: Graph, q: Query, st: WalkState, e: seq<Visit>)
    requires Basics(g, q, st) && st.queue != []
    requires st.queue[0].node !in st.visited && !Beyond(q, st.queue[0].depth)
    requires !Excluded(q.filter, g[st.queue[0].node].kind)
    requires InGraph(g, e)
    ensures Basics(g, q, WalkState(st.queue[1..] + e, st.visited + {st.queue[0].node}, st.out + [st.queue[0]]))
  {
    var head, rest := st.queue[0], st.queue[1..];
    var out, visited := st.out + [head], st.visited + {head.node};
    assert forall i :: 0 <= i < |rest| ==> rest[i] == st.queue[i + 1];
    assert InGraph(g, rest + e) by {
      assert forall i :: 0 <= i < |rest + e| ==> (rest + e)[i] == if i < |rest| then rest[i] else e[i - |rest|];
    }
    assert forall i :: 0 <= i < |st.out| ==> out[i] == st.out[i];
    assert Nodes(out) == Nodes(st.out) + [head.node];
    forall v | v in visited
      ensures v in g && (v in Nodes(out) || Excluded(q.filter, g[v].kind))
    {
      if v != head.node {
        assert v in Nodes(st.out) ==> v in Nodes(out);
      }
    }
  }

  lemma StepKeepsBasics(g: Graph, q: Query, st: WalkState)
    requires Basics(g, q, st) && st.queue != []
    ensures Basics(g, q, Step(g, q, st))
  {
    var head := st.queue[0];
    if head.node in st.visited || Beyond(q, head.depth) {
      BasicsAfterDrop(g, q, st, st.visited);
    } else if Excluded(q.filter, g[head.node].kind) {
      BasicsAfterDrop(g, q, st, st.visited + {head.node});
    } else {
      var e := Enqueue(Next(g, head.node, q.direction), st.visited + {head.node}, head.depth + 1);
      BasicsAfterYield(g, q, st, e);
    }
  }

  lemma NonDecreasingSnoc(s: seq<Visit>, x: Visit)
    requires NonDecreasing(s)
    requires s != [] ==> s[|s| - 1].depth <= x.depth
    ensures NonDecreasing(s + [x])
  {
  }

  lemma NonDecreasingThenLevel(rest: seq<Visit>, e: seq<Visit>, d: nat)
    requires NonDecreasing(rest)
    requires forall i :: 0 <= i < |rest| ==> rest[i].depth <= d
    requires forall i :: 0 <= i < |e| ==> e[i].depth == d
    ensures NonDecreasing(rest + e)
  {
  }

  /** The layering facts survive dequeuing `head`, yielding it or not, and appending `e` one level deeper. */
  lemma LayeredAfterDequeue(out: seq<Visit>, head: Visit, rest: seq<Visit>, out': seq<Visit>, e: seq<Visit>, visited: set<NodeId>)
    requires NonDecreasing(out) && NonDecreasing(rest)
    requires forall i :: 0 <= i < |rest| ==> head.depth <= rest[i].depth <= head.depth + 1
    requires out != [] ==> out[|out| - 1].depth <= head.depth
    requires out' == out || out' == out + [head]
    requires forall i :: 0 <= i < |e| ==> e[i].depth == head.depth + 1
    ensures Layered(WalkState(rest + e, visited, out'))
  {
    var queue := rest + e;
    if out' != out {
      NonDecreasingSnoc(out, head);
    }
    NonDecreasingThenLevel(rest, e, head.depth + 1);
    forall i | 0 <= i < |queue| ensures head.depth <= queue[i].depth <= head.depth + 1 {
      if i < |rest| {
        assert queue[i] == rest[i];
      } else {
        assert queue[i] == e[i - |rest|];
      }
    }
  }

  /** What remains after the head of a layered queue is still ordered and spans the head's level and the next. */
  lemma DequeueLevels(queue: seq<Visit>)
    requires queue != [] && NonDecreasing(queue)
    requires forall i :: 0 <= i < |queue| ==> queue[i].depth <= queue[0].depth + 1
    ensures NonDecreasing(queue[1..])
    ensures forall i :: 0 <= i < |queue| - 1 ==> queue[0].depth <= queue[1..][i].depth <= queue[0].depth + 1
  {
  }

  /** Dropping the head of a layered queue keeps the walk layered. */
  lemma LayeredAfterDrop(st: WalkState, visited: set<NodeId>)
    requires Layered(st) && st.queue != []
    ensures Layered(WalkState(st.queue[1..], visited, st.out))
  {
    DequeueLevels(st.queue);
    assert st.queue[1..] + [] == st.queue[1..];
    LayeredAfterDequeue(st.out, st.queue[0], st.queue[1..], st.out, [], visited);
  }

  /** Yielding the head and queueing pairs one level deeper keeps the walk layered. */
  lemma LayeredAfterYield(st: WalkState, e: seq<Visit>, visited: set<NodeId>)
    requires Layered(st) && st.queue != []
    requires forall i :: 0 <= i < |e| ==> e[i].depth == st.queue[0].depth + 1
    ensures Layered(WalkState(st.queue[1..] + e, visited, st.out + [st.queue[0]]))
  {
    DequeueLevels(st.queue);
    LayeredAfterDequeue(st.out, st.queue[0], st.queue[1..], st.out + [st.queue[0]], e, visited);
  }

  lemma StepKeepsLayered(g: Graph, q: Query, st: WalkState)
    requires Layered(st) && InGraph(g, st.queue) && st.queue != []
    ensures Layered(Step(g, q, st))
  {
    var head := st.queue[0];
    if head.node in st.visited || Beyond(q, head.depth) {
      LayeredAfterDrop(st, st.visited);
      assert Step(g, q, st) == WalkState(st.queue[1..], st.visited, st.out);
    } else if Excluded(q.filter, g[head.node].kind) {
      LayeredAfterDrop(st, st.visited + {head.node});
      assert Step(g, q, st) == WalkState(st.queue[1..], st.visited + {head.node}, st.out);
    } else {
      var visited := st.visited + {head.node};
      var e := Enqueue(Next(g, head.node, q.direction), visited, head.depth + 1);
      LayeredAfterYield(st, e, visited);
      assert Step(g, q, st) == WalkState(st.queue[1..] + e, visited, st.out + [head]);
    }
  }

  lemma StepKeepsStarted(g: Graph, q: Query, st: WalkState)
    requires Started(g, q, st) && InGraph(g, st.queue) && st.queue != []
    ensures Started(g, q, Step(g, q, st))
  {
    var head := st.queue[0];
    if head.node in st.visited || Beyond(q, head.depth) {
      assert Step(g, q, st) == WalkState(st.queue[1..], st.visited, st.out);
    } else if Excluded(q.filter, g[head.node].kind) {
      assert Step(g, q, st) == WalkState(st.queue[1..], st.visited + {head.node}, st.out);
    } else {
      assert Step(g, q, st).out == st.out + [head];
    }
  }

  /** Having a parent among the first `bound` pairs of `ps` survives appending to `ps`. */
  lemma ParentedGrows(g: Graph, dir: Direction, ps: seq<Visit>, bound: int, more: seq<Visit>, v: Visit)
    requires Parented(g, dir, ps, bound, v)
    ensures Parented(g, dir, ps + more, bound, v)
  {
    var j :| 0 <= j < bound && j < |ps| && IsChild(g, dir, ps[j], v);
    assert (ps + more)[j] == ps[j];
  }

  /** Yielding `head`, which has a yielded parent, and queueing its children keeps every pair rooted. */
  lemma RootedAfterYield(g: Graph, q: Query, out: seq<Visit>, head: Visit, rest: seq<Visit>, e: seq<Visit>, visited: set<NodeId>)
    requires forall k :: 0 < k < |out| ==> Parented(g, q.direction, out, k, out[k])
    requires forall i :: 0 <= i < |rest| ==> rest[i] == Visit(q.start, 0) || Parented(g, q.direction, out, |out|, rest[i])
    requires out != [] ==> Parented(g, q.direction, out, |out|, head)
    requires forall i :: 0 <= i < |e| ==> IsChild(g, q.direction, head, e[i])
    ensures Rooted(g, q, WalkState(rest + e, visited, out + [head]))
  {
    var out' := out + [head];
    var queue := rest + e;
    forall k | 0 < k < |out'| ensures Parented(g, q.direction, out', k, out'[k]) {
      if k < |out| {
        ParentedGrows(g, q.direction, out, k, [head], out[k]);
      } else {
        ParentedGrows(g, q.direction, out, k, [head], head);
      }
    }
    forall i | 0 <= i < |queue|
      ensures queue[i] == Visit(q.start, 0) || Parented(g, q.direction, out', |out'|, queue[i])
    {
      if i < |rest| {
        assert queue[i] == rest[i];
        if rest[i] != Visit(q.start, 0) {
          ParentedGrows(g, q.direction, out, |out|, [head], rest[i]);
        }
      } else {
        assert queue[i] == e[i - |rest|];
        assert out'[|out|] == head;
      }
    }
  }

  /** Dropping the head of the queue without yielding keeps every pair rooted. */
  lemma RootedAfterDrop(g: Graph, q: Query, st: WalkState, visited: set<NodeId>)
    requires Rooted(g, q, st) && st.queue != []
    ensures Rooted(g, q, WalkState(st.queue[1..], visited, st.out))
  {
  }

  lemma StepKeepsRooted(g: Graph, q: Query, st: WalkState)
    requires Rooted(g, q, st) && InGraph(g, st.queue) && st.queue != []
    requires st.out != [] ==> st.out[0] == Visit(q.start, 0) && st.out[0].node in st.visited
    ensures Rooted(g, q, Step(g, q, st))
  {
    var head := st.queue[0];
    var rest := st.queue[1..];
    if head.node in st.visited || Beyond(q, head.depth) {
      RootedAfterDrop(g, q, st, st.visited);
    } else {
      var visited := st.visited + {head.node};
      if Excluded(q.filter, g[head.node].kind) {
        RootedAfterDrop(g, q, st, visited);
      } else {
        var e := Enqueue(Next(g, head.node, q.direction), visited, head.depth + 1);
        assert Step(g, q, st) == WalkState(rest + e, visited, st.out + [head]);
        assert forall i :: 0 <= i < |rest| ==> rest[i] == st.queue[i + 1];
        RootedAfterYield(g, q, st.out, head, rest, e, visited);
      }
    }
  }

  /** Dropping a head that is visited or past the ceiling keeps every yielded node expanded. */
  lemma ExpandedAfterDrop(g: Graph, q: Query, st: WalkState, visited: set<NodeId>)
    requires Expanded(g, q, st) && st.queue != [] && st.visited <= visited
    requires st.queue[0].node in visited || Beyond(q, st.queue[0].depth)
    ensures Expanded(g, q, WalkState(st.queue[1..], visited, st.out))
  {
  }

  /** Yielding the head and queueing its unvisited neighbours keeps every yielded node expanded. */
  lemma ExpandedAfterYield(g: Graph, q: Query, st: WalkState, e: seq<Visit>)
    requires Expanded(g, q, st) && st.queue != []
    requires forall m :: m in Next(g, st.queue[0].node, q.direction) && m !in st.visited + {st.queue[0].node} ==>
      Visit(m, st.queue[0].depth + 1) in e
    ensures Expanded(g, q, WalkState(st.queue[1..] + e, st.visited + {st.queue[0].node}, st.out + [st.queue[0]]))
  {
  }

  lemma StepKeepsExpanded(g: Graph, q: Query, st: WalkState)
    requires Expanded(g, q, st) && InGraph(g, st.queue) && st.queue != []
    ensures Expanded(g, q, Step(g, q, st))
  {
    var head := st.queue[0];
    if head.node in st.visited || Beyond(q, head.depth) {
      ExpandedAfterDrop(g, q, st, st.visited);
    } else if Excluded(q.filter, g[head.node].kind) {
      ExpandedAfterDrop(g, q, st, st.visited + {head.node});
    } else {
      var e := Enqueue(Next(g, head.node, q.direction), st.visited + {head.node}, head.depth + 1);
      ExpandedAfterYield(g, q, st, e);
    }
  }

  lemma StepPreservesInv(g: Graph, q: Query, st: WalkState)
    requires Inv(g, q, st) && st.queue != []
    ensures Inv(g, q, Step(g, q, st))
  {
    StepKeepsBasics(g, q, st);
    StepKeepsLayered(g, q, st);
    StepKeepsStarted(g, q, st);
    StepKeepsRooted(g, q, st);
    StepKeepsExpanded(g, q, st);
  }

  /** The `while queue:` loop run to exhaustion; the invariant holds on exit. */
  function Run(g: Graph, q: Query, st: WalkState): (r: WalkState)
    requires Inv(g, q, st)
    ensures Inv(g, q, r) && r.queue == []
    decreases |g.Keys - st.visited|, |st.queue|
  {
    if st.queue == [] then st
    else
      StepPreservesInv(g, q, st);
      Run(g, q, Step(g, q, st))
  }

  /** What a finished walk has yielded: the start first, each node once and admitted, in depth order, each with a parent. */
  lemma FinishedWalkYields(g: Graph, q: Query, st: WalkState)
    requires Inv(g, q, st) && st.queue == []
    ensures st.out == [] <==> Excluded(q.filter, g[q.start].kind)
    ensures st.out != [] ==> st.out[0] == Visit(q.start, 0)
    ensures forall i, j :: 0 <= i < j < |st.out| ==> st.out[i].node != st.out[j].node
    ensures forall i :: 0 <= i < |st.out| ==> st.out[i].node in g && !Excluded(q.filter, g[st.out[i].node].kind)
    ensures q.maxDepth >= 0 ==> forall i :: 0 <= i < |st.out| ==> st.out[i].depth <= q.maxDepth
    ensures NonDecreasing(st.out)
    ensures forall k :: 0 < k < |st.out| ==> Parented(g, q.direction, st.out, k, st.out[k])
  {
    assert InGraph(g, st.out);
    if st.out != [] {
      assert !Excluded(q.filter, g[st.out[0].node].kind);
    }
  }

  /** A finished walk is closed: every neighbour of a yielded node was yielded, pruned, or lies past the ceiling. */
  lemma FinishedWalkIsClosed(g: Graph, q: Query, st: WalkState)
    requires Inv(g, q, st) && st.queue == []
    ensures forall k, m :: 0 <= k < |st.out| && m in Next(g, st.out[k].node, q.direction) ==>
      || m in Nodes(st.out)
      || Excluded(q.filter, g[m].kind)
      || (q.maxDepth >= 0 && st.out[k].depth + 1 > q.maxDepth)
  {
  }

  /**
    `traverse_graph(start_node, direction, max_depth, node_filter)`: the pairs
    the generator yields, in order.
   */
  function TraverseGraph(g: Graph, start: NodeId, direction: Direction := Upstream, maxDepth: int := -1, filter: set<NodeType> := {}): (r: seq<Visit>)
    // A missing start node yields nothing; otherwise nothing is yielded exactly when the filter prunes the start.
    ensures start !in g ==> r == []
    ensures start in g ==> (r == [] <==> Excluded(filter, g[start].kind))
    // The start node, when yielded, is first and at depth 0.
    ensures r != [] ==> r[0] == Visit(start, 0)
    // Every node is yielded at most once, even on a cyclic graph.
    ensures forall i, j :: 0 <= i < j < |r| ==> r[i].node != r[j].node
    // Yielded nodes exist, pass the filter and respect a non-negative ceiling.
    ensures forall i :: 0 <= i < |r| ==> r[i].node in g && !Excluded(filter, g[r[i].node].kind)
    ensures maxDepth >= 0 ==> forall i :: 0 <= i < |r| ==> r[i].depth <= maxDepth
    // FIFO order: depths never decrease.
    ensures NonDecreasing(r)
    // Every later pair is a neighbour, in `direction`, of an earlier yielded pair, one level deeper.
    ensures forall k :: 0 < k < |r| ==> Parented(g, direction, r, k, r[k])
    // Every neighbour of a yielded node is yielded, pruned by the filter, or past the ceiling.
    ensures forall k, m :: 0 <= k < |r| && m in Next(g, r[k].node, direction) ==>
      || m in Nodes(r)
      || Excluded(filter, g[m].kind)
      || (maxDepth >= 0 && r[k].depth + 1 > maxDepth)
  {
    if start !in g then []
    else
      var q := Query(start, direction, maxDepth, filter);
      InitialInv(g, q);
      var last := Run(g, q, Initial(start));
      FinishedWalkYields(g, q, last);
      FinishedWalkIsClosed(g, q, last);
      last.out
  }
}
