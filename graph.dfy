/**
 * The heap graph built from a snapshot: the `Node` and `Edge` records of
 * src/leak_finder.py. Nodes live in an arena (a sequence); a node's identity
 * is its position there, so two nodes with the same `id` stay distinct.
 */
module HeapGraph {

  /**
   * An edge of the heap. `fromId`/`toId` are the snapshot ids of its end
   * points; `from`/`to` are the arena positions of the end point nodes once
   * they are linked, and `Unlinked` before.
   */
  datatype Edge = Edge(fromId: int, toId: int, kind: string, name: string, from: int, to: int)

  /** A heap object: its id, type, constructor name, string value and edges. */
  datatype Node = Node(id: int, kind: string, className: string, str: string,
                       edgesFrom: seq<Edge>, edgesTo: seq<Edge>)

  /** The end point placeholder of a freshly constructed edge. */
  const Unlinked: int := -1

  type Graph = seq<Node>

  /** `Node(node_id, type_string, class_name)`: no edges yet and an empty string value. */
  function NewNode(id: int, kind: string, className: string): Node {
    Node(id, kind, className, [], [], [])
  }

  /** `Edge(from_node_id, to_node_id, type_string, name_string)`: end point nodes not yet set. */
  function NewEdge(fromId: int, toId: int, kind: string, name: string): Edge {
    Edge(fromId, toId, kind, name, Unlinked, Unlinked)
  }

  /**
   * Every edge of the graph is linked to nodes of the graph: an outgoing edge
   * of node `i` starts at `i`, an incoming edge of node `i` ends at `i`, and
   * the other end point is a node of the graph.
   */
  ghost predicate WellLinked(g: Graph) {
    (forall i, k :: 0 <= i < |g| && 0 <= k < |g[i].edgesFrom| ==>
       g[i].edgesFrom[k].from == i && 0 <= g[i].edgesFrom[k].to < |g|) &&
    (forall i, k :: 0 <= i < |g| && 0 <= k < |g[i].edgesTo| ==>
       g[i].edgesTo[k].to == i && 0 <= g[i].edgesTo[k].from < |g|)
  }
}
