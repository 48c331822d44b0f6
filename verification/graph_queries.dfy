/**
  The queries built on the traversal (`find_connected_nodes_by_type`,
  `get_shading_network`, the indentation of `print_node_tree`) and the two
  per-node lookups (`get_all_connections`, `get_node_info`).
 */
module GraphQueries {
  import opened Wrappers
  import opened Text
  import opened Seqs
  import opened NodeGraph
  import opened Traversal
  import opened TraversalProperties

  /** The node names of a traversal's output never repeat. */
  lemma NodesNoDup(r: seq<Visit>)
    requires forall i, j :: 0 <= i < j < |r| ==> r[i].node != r[j].node
    ensures NoDup(Nodes(r))
  {
  }

  /** The condition "exists and has type `t`", one closure per type so that two uses are equal. */
  function OfKind(g: Graph, t: NodeType): NodeId -> bool {
    n => n in g && g[n].kind == t
  }

  // ---------------------------------------------------------------------------
  // find_connected_nodes_by_type

  /**
    `find_connected_nodes_by_type(start, target_type, direction)`: the nodes of
    an unbounded, unfiltered walk whose type is `target`, in walk order.
   */
  function FindConnectedNodesByType(g: Graph, start: NodeId, target: NodeType, direction: Direction := Upstream): (r: seq<NodeId>)
    ensures IsSubsequence(r, Nodes(TraverseGraph(g, start, direction, -1, {})))
    ensures forall m :: m in r <==> m in Nodes(TraverseGraph(g, start, direction, -1, {})) && m in g && g[m].kind == target
    ensures NoDup(r)
  {
    var walk := TraverseGraph(g, start, direction, -1, {});
    NodesNoDup(walk);
    Keep(Nodes(walk), OfKind(g, target))
  }

  /**
    The nodes found are exactly the nodes of type `target` that some chain of
    connections in `direction` leads to from the start, the start included.
   */
  lemma FoundIffConnected(g: Graph, start: NodeId, target: NodeType, direction: Direction, m: NodeId)
    ensures m in FindConnectedNodesByType(g, start, target, direction) <==>
      m in g && g[m].kind == target && ReachableThrough(g, direction, {}, start, m)
  {
    YieldedIffReachable(g, start, direction, -1, {}, m);
  }

  // ---------------------------------------------------------------------------
  // get_shading_network

  /**
    The loop of `get_shading_network`: each node is appended to the list of its
    type, the list created on the type's first node.
   */
  function Bucket(g: Graph, ns: seq<NodeId>): (m: map<NodeType, seq<NodeId>>)
    requires forall i :: 0 <= i < |ns| ==> ns[i] in g
  {
    if ns == [] then map[]
    else
      var n := ns[|ns| - 1];
      var m := Bucket(g, ns[..|ns| - 1]);
      var t := g[n].kind;
      m[t := (if t in m then m[t] else []) + [n]]
  }

  /**
    The buckets partition the nodes by type, in order: a type has a bucket
    exactly when some node has that type, and the bucket lists those nodes in
    the order they came.
   */
  lemma {:induction false} BucketByKind(g: Graph, ns: seq<NodeId>)
    requires forall i :: 0 <= i < |ns| ==> ns[i] in g
    ensures forall t :: t in Bucket(g, ns) <==> Keep(ns, OfKind(g, t)) != []
    ensures forall t :: t in Bucket(g, ns) ==> Bucket(g, ns)[t] == Keep(ns, OfKind(g, t))
    decreases |ns|
  {
    if ns != [] {
      var front := ns[..|ns| - 1];
      var n := ns[|ns| - 1];
      assert ns == front + [n];
      BucketByKind(g, front);
      forall t ensures Keep(ns, OfKind(g, t)) == Keep(front, OfKind(g, t)) + (if OfKind(g, t)(n) then [n] else []) {
        KeepSnoc(front, n, OfKind(g, t));
      }
    }
  }

  /**
    `get_shading_network(shader)`: the nodes of the upstream walk with ceiling
    20, bucketed by type. Every walked node is in the bucket of its own type, a
    bucket holds only nodes of its type, and it keeps the walk's order.
   */
  function GetShadingNetwork(g: Graph, shader: NodeId): (r: map<NodeType, seq<NodeId>>)
    ensures var ns := Nodes(TraverseGraph(g, shader, Upstream, 20, {}));
      && (forall t :: t in r <==> Keep(ns, OfKind(g, t)) != [])
      && (forall t :: t in r ==> r[t] == Keep(ns, OfKind(g, t)))
  {
    var ns := Nodes(TraverseGraph(g, shader, Upstream, 20, {}));
    BucketByKind(g, ns);
    Bucket(g, ns)
  }

  /** Each walked node lands in exactly the bucket of its own type, and no bucket holds a foreign node. */
  lemma ShadingNetworkBuckets(g: Graph, shader: NodeId, n: NodeId, t: NodeType)
    ensures var r := GetShadingNetwork(g, shader);
      var walk := TraverseGraph(g, shader, Upstream, 20, {});
      t in r && n in r[t] <==> n in Nodes(walk) && g[n].kind == t
    ensures forall v :: v in TraverseGraph(g, shader, Upstream, 20, {}) ==> v.depth <= 20
  {
  }

  // ---------------------------------------------------------------------------
  // print_node_tree

  /** The part of a tree line after the indentation: a branch glyph, the node and its type. */
  function Branch(node: NodeId, kind: NodeType): string {
    "├── " + node + " (" + kind + ")"
  }

  /** One line of `print_node_tree`: two spaces per level, then the branch. */
  function TreeLine(node: NodeId, kind: NodeType, depth: nat): string {
    Repeat("  ", depth) + Branch(node, kind)
  }

  /** The number of leading characters equal to `c`. */
  function CountLeading(s: string, c: char): (n: nat)
    ensures n <= |s|
    ensures forall k :: 0 <= k < n ==> s[k] == c
    ensures n == |s| || s[n] != c
  {
    if s != [] && s[0] == c then 1 + CountLeading(s[1..], c) else 0
  }

  /** `n` levels of indentation before a text that does not start with a space are `2 * n` leading spaces. */
  lemma {:induction false} IndentCount(n: nat, t: string)
    requires t == [] || t[0] != ' '
    ensures CountLeading(Repeat("  ", n) + t, ' ') == 2 * n
    decreases n
  {
    if n == 0 {
      assert Repeat("  ", 0) + t == t;
    } else {
      IndentCount(n - 1, t);
      var s := Repeat("  ", n) + t;
      var inner := Repeat("  ", n - 1) + t;
      assert s == "  " + inner;
      assert s[0] == ' ' && s[1..] == " " + inner;
      assert s[1..][0] == ' ' && s[1..][1..] == inner;
      assert CountLeading(s[1..], ' ') == 1 + CountLeading(inner, ' ');
    }
  }

  /** A tree line's indentation gives back its depth: it is exactly `2 * depth` spaces, then the branch. */
  lemma IndentIsDepth(node: NodeId, kind: NodeType, depth: nat)
    ensures CountLeading(TreeLine(node, kind, depth), ' ') == 2 * depth
    ensures TreeLine(node, kind, depth)[2 * depth..] == Branch(node, kind)
  {
    var b := Branch(node, kind);
    assert b[0] == '├';
    IndentCount(depth, b);
    assert |Repeat("  ", depth)| == 2 * depth;
  }

  /** One tree line per pair of `walk`, in order, each indented by its depth. */
  function TreeLines(g: Graph, walk: seq<Visit>): (lines: seq<string>)
    requires forall i :: 0 <= i < |walk| ==> walk[i].node in g
    ensures |lines| == |walk|
    ensures forall i :: 0 <= i < |lines| ==> CountLeading(lines[i], ' ') == 2 * walk[i].depth
    ensures forall i :: 0 <= i < |lines| ==> lines[i] == TreeLine(walk[i].node, g[walk[i].node].kind, walk[i].depth)
  {
    if walk == [] then []
    else
      var v := walk[0];
      IndentIsDepth(v.node, g[v.node].kind, v.depth);
      [TreeLine(v.node, g[v.node].kind, v.depth)] + TreeLines(g, walk[1..])
  }

  /**
    The lines `print_node_tree(start, direction, max_depth)` prints, one per
    yielded pair, in walk order, each indented by twice its depth. The defaults
    are upstream and a ceiling of 5.
   */
  function NodeTreeLines(g: Graph, start: NodeId, direction: Direction := Upstream, maxDepth: int := 5): (lines: seq<string>)
    ensures var walk := TraverseGraph(g, start, direction, maxDepth, {});
      && |lines| == |walk|
      && forall i :: 0 <= i < |lines| ==> CountLeading(lines[i], ' ') == 2 * walk[i].depth
  {
    TreeLines(g, TraverseGraph(g, start, direction, maxDepth, {}))
  }

  // ---------------------------------------------------------------------------
  // get_all_connections

  /** `ConnectionInfo`: one connection as source plug and destination plug, each split into node and attribute. */
  datatype ConnectionInfo = ConnectionInfo(sourceNode: NodeId, sourceAttr: string, destNode: NodeId, destAttr: string)

  /** The plug text `"node.attr"`. */
  function Plug(node: NodeId, attr: string): string {
    node + "." + attr
  }

  /**
    What the record made from the plug pair `(a, b)` says: both plugs are kept
    with the node part cut at the first `.`; when the first plug belongs to the
    queried node it is the destination and the second the source, otherwise
    the first is the source and the second the destination.
   */
  ghost predicate RecordOf(node: NodeId, a: string, b: string, c: ConnectionInfo) {
    && '.' !in c.sourceNode && '.' !in c.destNode
    && (|| (c.destNode == node && Plug(c.destNode, c.destAttr) == a && Plug(c.sourceNode, c.sourceAttr) == b)
        || (c.sourceNode != node && Plug(c.sourceNode, c.sourceAttr) == a && Plug(c.destNode, c.destAttr) == b))
  }

  /** One loop iteration; `None` when either plug has no `.`, where the tuple unpacking raises. */
  function ReadPair(node: NodeId, a: string, b: string): (r: Option<ConnectionInfo>)
    ensures r.None? <==> '.' !in a || '.' !in b
    ensures r.Some? ==> RecordOf(node, a, b, r.value)
  {
    match (SplitOnce(a, '.'), SplitOnce(b, '.'))
    case (Some((nodeA, attrA)), Some((nodeB, attrB))) =>
      if nodeA == node then Some(ConnectionInfo(nodeB, attrB, nodeA, attrA))
      else Some(ConnectionInfo(nodeA, attrA, nodeB, attrB))
    case _ => None
  }

  /** `cs` holds one record per consecutive pair of `plugs`, in order. */
  ghost predicate RecordsOf(node: NodeId, plugs: seq<string>, cs: seq<ConnectionInfo>)
    decreases |cs|
  {
    if cs == [] then plugs == []
    else |plugs| >= 2 && RecordOf(node, plugs[0], plugs[1], cs[0]) && RecordsOf(node, plugs[2..], cs[1..])
  }

  /** Every plug names a node and an attribute. */
  predicate AllDotted(plugs: seq<string>) {
    forall i :: 0 <= i < |plugs| ==> '.' in plugs[i]
  }

  lemma AllDottedPairs(plugs: seq<string>)
    requires |plugs| >= 2
    ensures AllDotted(plugs) <==> '.' in plugs[0] && '.' in plugs[1] && AllDotted(plugs[2..])
  {
    assert forall i :: 2 <= i < |plugs| ==> plugs[i] == plugs[2..][i - 2];
  }

  /** The loop over consecutive pairs; `None` when a trailing plug has no partner (the index raises) or a pair is malformed. */
  function ReadPairs(node: NodeId, plugs: seq<string>): (r: Option<seq<ConnectionInfo>>)
    ensures r.Some? <==> |plugs| % 2 == 0 && AllDotted(plugs)
    ensures r.Some? ==> RecordsOf(node, plugs, r.value)
    decreases |plugs|
  {
    if plugs == [] then Some([])
    else if |plugs| == 1 then None
    else
      var rest := ReadPairs(node, plugs[2..]);
      AllDottedPairs(plugs);
      assert |plugs| % 2 == |plugs[2..]| % 2;
      var c := ReadPair(node, plugs[0], plugs[1]);
      if c.None? || rest.None? then None
      else
        var cs := [c.value] + rest.value;
        assert cs[0] == c.value && cs[1..] == rest.value;
        assert RecordsOf(node, plugs, cs);
        Some(cs)
  }

  /** The records, pair by pair: record `k` is read from plugs `2k` and `2k + 1`. */
  lemma {:induction false} RecordsOfPairs(node: NodeId, plugs: seq<string>, cs: seq<ConnectionInfo>)
    requires RecordsOf(node, plugs, cs)
    ensures 2 * |cs| == |plugs|
    ensures forall k :: 0 <= k < |cs| ==> RecordOf(node, plugs[2 * k], plugs[2 * k + 1], cs[k])
    decreases |cs|
  {
    if cs != [] {
      RecordsOfPairs(node, plugs[2..], cs[1..]);
      forall k | 1 <= k < |cs|
        ensures RecordOf(node, plugs[2 * k], plugs[2 * k + 1], cs[k])
      {
        assert RecordOf(node, plugs[2..][2 * (k - 1)], plugs[2..][2 * (k - 1) + 1], cs[1..][k - 1]);
      }
    }
  }

  /**
    `get_all_connections(node)`: no records for a node that does not exist;
    otherwise one record per consecutive pair of the host's plug list, in order,
    or `None` where the loop raises.
   */
  function GetAllConnections(g: Graph, node: NodeId): (r: Option<seq<ConnectionInfo>>)
    ensures node !in g ==> r == Some([])
    ensures node in g ==> (r.Some? <==> |g[node].plugs| % 2 == 0 && AllDotted(g[node].plugs))
    ensures node in g && r.Some? ==> 2 * |r.value| == |g[node].plugs|
    ensures node in g && r.Some? ==>
      forall k :: 0 <= k < |r.value| ==> RecordOf(node, g[node].plugs[2 * k], g[node].plugs[2 * k + 1], r.value[k])
  {
    if node !in g then Some([])
    else
      var r := ReadPairs(node, g[node].plugs);
      if r.None? then r
      else
        RecordsOfPairs(node, g[node].plugs, r.value);
        r
  }

  /** The plug pair a record is read from: the queried node's plug first when it is the destination. */
  function PairOf(node: NodeId, c: ConnectionInfo): seq<string> {
    if c.destNode == node then [Plug(c.destNode, c.destAttr), Plug(c.sourceNode, c.sourceAttr)]
    else [Plug(c.sourceNode, c.sourceAttr), Plug(c.destNode, c.destAttr)]
  }

  /** The plug list a sequence of records is read from. */
  function Flatten(node: NodeId, cs: seq<ConnectionInfo>): (plugs: seq<string>)
    ensures |plugs| == 2 * |cs|
  {
    if cs == [] then [] else PairOf(node, cs[0]) + Flatten(node, cs[1..])
  }

  /** A record the reader can produce: node parts without `.`, and not a source-side record of the queried node. */
  predicate Readable(node: NodeId, c: ConnectionInfo) {
    '.' !in c.sourceNode && '.' !in c.destNode && (c.destNode == node || c.sourceNode != node)
  }

  lemma ReadPairOf(node: NodeId, c: ConnectionInfo)
    requires Readable(node, c)
    ensures ReadPair(node, PairOf(node, c)[0], PairOf(node, c)[1]) == Some(c)
  {
    SplitOnceJoin(c.sourceNode, c.sourceAttr, '.');
    SplitOnceJoin(c.destNode, c.destAttr, '.');
  }

  /** Reading a plug list of at least two plugs: the first pair, then the rest. */
  lemma ReadPairsUnfold(node: NodeId, plugs: seq<string>)
    requires |plugs| >= 2
    ensures var c, rest := ReadPair(node, plugs[0], plugs[1]), ReadPairs(node, plugs[2..]);
      ReadPairs(node, plugs) == if c.None? || rest.None? then None else Some([c.value] + rest.value)
  {
  }

  /** Flattening readable records and reading them back gives the same records. */
  lemma {:induction false} ReadPairsFlatten(node: NodeId, cs: seq<ConnectionInfo>)
    requires forall k :: 0 <= k < |cs| ==> Readable(node, cs[k])
    ensures ReadPairs(node, Flatten(node, cs)) == Some(cs)
  {
    if cs != [] {
      var c, tail := cs[0], cs[1..];
      assert forall k :: 0 <= k < |tail| ==> tail[k] == cs[k + 1];
      ReadPairsFlatten(node, tail);
      ReadPairOf(node, c);
      var pair, plugs := PairOf(node, c), Flatten(node, cs);
      assert plugs == pair + Flatten(node, tail);
      assert plugs[0] == pair[0] && plugs[1] == pair[1] && plugs[2..] == Flatten(node, tail);
      ReadPairsUnfold(node, plugs);
      assert [c] + tail == cs;
    }
  }

  /**
    A pair joining a plug of the queried node to a plug of another node is
    recorded with the queried node as the destination, whichever of the two
    plugs comes first: the record does not tell an incoming connection from an
    outgoing one.
   */
  lemma QueriedNodeIsDestination(node: NodeId, attr: string, other: NodeId, otherAttr: string)
    requires '.' !in node && '.' !in other && other != node
    ensures ReadPair(node, Plug(node, attr), Plug(other, otherAttr)) == Some(ConnectionInfo(other, otherAttr, node, attr))
    ensures ReadPair(node, Plug(other, otherAttr), Plug(node, attr)) == Some(ConnectionInfo(other, otherAttr, node, attr))
  {
    SplitOnceJoin(node, attr, '.');
    SplitOnceJoin(other, otherAttr, '.');
  }

  // ---------------------------------------------------------------------------
  // get_node_info

  /** `NodeInfo`: what `get_node_info` reports about one node. */
  datatype NodeInfo = NodeInfo(
    name: NodeId,
    nodeType: NodeType,
    isReferenced: bool,
    namespace: string,
    connectionsIn: seq<NodeId>,
    connectionsOut: seq<NodeId>)

  /** The namespace of a node name: the text before the last `:`, or `""` when there is none. */
  function Namespace(name: NodeId): (ns: string)
    ensures ':' in name ==> ns + [':'] + AfterLast(name, ':') == name
    ensures ':' !in name ==> ns == ""
  {
    if ':' in name then BeforeLast(name, ':') else ""
  }

  /** A name built from a namespace and a short name without `:` gives back that namespace. */
  lemma NamespaceOfQualified(ns: string, short: string)
    requires ':' !in short
    ensures Namespace(ns + ":" + short) == ns
  {
    SplitLastJoin(ns, short, ':');
  }

  /**
    `get_node_info(node)`: `None` for a node that does not exist; otherwise its
    type, reference flag and namespace, and its source and destination
    neighbours without repeats (the order of `list(set(...))` is fixed here to
    first occurrence).
   */
  function GetNodeInfo(g: Graph, node: NodeId): (r: Option<NodeInfo>)
    ensures r.None? <==> node !in g
    ensures r.Some? ==> && r.value.name == node
                        && r.value.nodeType == g[node].kind
                        && r.value.isReferenced == g[node].referenced
                        && r.value.namespace == Namespace(node)
    ensures r.Some? ==> NoDup(r.value.connectionsIn) && NoDup(r.value.connectionsOut)
    ensures r.Some? ==> forall m :: m in r.value.connectionsIn <==> m in g[node].sources
    ensures r.Some? ==> forall m :: m in r.value.connectionsOut <==> m in g[node].destinations
  {
    if node !in g then None
    else
      Some(NodeInfo(node, g[node].kind, g[node].referenced, Namespace(node), Dedup(g[node].sources), Dedup(g[node].destinations)))
  }
}
