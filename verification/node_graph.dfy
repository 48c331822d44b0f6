/**
  The host's dependency graph as the traversal utilities see it through
  `cmds`: which nodes exist, each node's type, the nodes connected to it on
  either side, and its raw plug list.
 */
module NodeGraph {

  /** A node name as the host prints it, e.g. `"char:pCube1"` or `"|grp|pCube1"`. */
  type NodeId = string

  /** A node type tag as `cmds.nodeType` returns it, e.g. `"file"` or `"lambert"`. */
  type NodeType = string

  /**
    What the host answers about one node:
    - `kind`: `cmds.nodeType(node)`;
    - `referenced`: `cmds.referenceQuery(node, isNodeReferenced=True)`;
    - `sources`: `cmds.listConnections(node, source=True, destination=False)`, the nodes feeding it
      (unordered, possibly with repeats);
    - `destinations`: `cmds.listConnections(node, source=False, destination=True)`, the nodes it feeds;
    - `plugs`: `cmds.listConnections(node, connections=True, plugs=True)`, a flat list of
      `"node.attr"` strings read in consecutive pairs.
   */
  datatype Node = Node(
    kind: NodeType,
    referenced: bool,
    sources: seq<NodeId>,
    destinations: seq<NodeId>,
    plugs: seq<string>)

  /** Every node named as a neighbour exists: the host never lists a connection to a missing node. */
  ghost predicate Closed(nodes: map<NodeId, Node>) {
    forall n, m :: n in nodes && (m in nodes[n].sources || m in nodes[n].destinations) ==> m in nodes
  }

  /** A snapshot of the scene: `n in g` is `cmds.objExists(n)`. */
  type Graph = nodes: map<NodeId, Node> | Closed(nodes) witness map[]

  /** `TraversalDirection`: which side of a node the walk expands. */
  datatype Direction = Upstream | Downstream | Both

  /**
    The neighbours a walk expands from `n`: the source connections for
    `Upstream`, the destination connections for `Downstream`, and the source
    list followed by the destination list for `Both`. A name the graph does not
    hold has none.
   */
  function Next(g: Graph, n: NodeId, dir: Direction): (r: seq<NodeId>)
    ensures forall m :: m in r ==> m in g
    ensures n in g && dir.Upstream? ==> r == g[n].sources
    ensures n in g && dir.Downstream? ==> r == g[n].destinations
    ensures n in g && dir.Both? ==> r == g[n].sources + g[n].destinations
    ensures forall m :: m in r <==>
      n in g && ((dir != Downstream && m in g[n].sources) || (dir != Upstream && m in g[n].destinations))
  {
    if n !in g then []
    else
      match dir
      case Upstream => g[n].sources
      case Downstream => g[n].destinations
      case Both => g[n].sources + g[n].destinations
  }
}
