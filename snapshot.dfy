/**
 * The heap snapshot decoder (`Snapshotter` in src/leak_finder.py). It reads
 * the flat integer node and edge arrays of a decoded V8 heap snapshot, drops
 * uninteresting node and edge types, and links both end points of every kept
 * edge.
 */
module HeapSnapshot {
  import opened Wrappers
  import opened PyText
  import opened HeapGraph

  /** The decoded snapshot JSON: node and edge arrays, string table and meta information. */
  datatype Snapshot = Snapshot(
    nodeList: seq<int>, edgeList: seq<int>, strings: seq<string>,
    nodeTypes: seq<string>, edgeTypes: seq<string>,
    nodeFields: seq<string>, edgeFields: seq<string>)

  /** The exceptions the decoder raises. */
  datatype SnapshotError =
    | MissingField(field: string)   // Error: a required meta field is absent
    | NodeListTooShort              // Error: a node record runs past the node array
    | EdgeListTooShort              // Error: an edge record runs past the edge array
    | IndexError                    // an unchecked list read out of range
    | KeyError(id: int)             // linking an edge to a node id that was never stored

  /** Python's `xs[i]` on a list, with the exception it may raise. */
  function At<T>(xs: seq<T>, i: int): Result<T, SnapshotError> {
    match PyIndex(xs, i)
    case Some(x) => Ok(x)
    case None => Err(IndexError)
  }

  // ---------------------------------------------------------------------
  // Field offsets (_FindField and the meta part of _ReadSnapshot)

  /** `xs.index(x)`: the first position of `x`. */
  function IndexOf(xs: seq<string>, x: string): (i: nat)
    requires x in xs
    ensures i < |xs| && xs[i] == x && x !in xs[..i]
  {
    if xs[0] == x then 0
    else
      var j := IndexOf(xs[1..], x);
      assert xs[..j + 1] == [xs[0]] + xs[1..][..j];
      j + 1
  }

  /** `_FindField`: the first index of a field name, or an error naming the missing field. */
  function FindField(name: string, fields: seq<string>): (r: Result<nat, SnapshotError>)
    ensures r.Ok? <==> name in fields
    ensures r.Ok? ==> r.value < |fields| && fields[r.value] == name && name !in fields[..r.value]
    ensures r.Err? ==> r.error == MissingField(name)
  {
    if name in fields then Ok(IndexOf(fields, name)) else Err(MissingField(name))
  }

  /** The two node layouts: where a node's edges start, or how many it has. */
  datatype EdgeLayout = EdgesIndex(startIx: nat) | EdgeCount(countIx: nat)
  {
    function Offset(): nat {
      match this
      case EdgesIndex(ix) => ix
      case EdgeCount(ix) => ix
    }
  }

  /** The field offsets and record sizes resolved from the meta information. */
  datatype Layout = Layout(
    nodeTypeIx: nat, nodeNameIx: nat, nodeIdIx: nat, edges: EdgeLayout, nodeFieldCount: nat,
    edgeTypeIx: nat, edgeNameOrIxIx: nat, edgeToNodeIx: nat, edgeFieldCount: nat)
  {
    /** Every offset lies inside its record (so both record sizes are positive). */
    predicate Fits() {
      nodeTypeIx < nodeFieldCount && nodeNameIx < nodeFieldCount && nodeIdIx < nodeFieldCount &&
      edges.Offset() < nodeFieldCount &&
      edgeTypeIx < edgeFieldCount && edgeNameOrIxIx < edgeFieldCount && edgeToNodeIx < edgeFieldCount
    }
  }

  predicate HasRequiredFields(nodeFields: seq<string>, edgeFields: seq<string>) {
    "type" in nodeFields && "name" in nodeFields && "id" in nodeFields &&
    ("edges_index" in nodeFields || "edge_count" in nodeFields) &&
    "type" in edgeFields && "name_or_index" in edgeFields && "to_node" in edgeFields
  }

  /** Each offset of the layout points at the field it is named after. */
  predicate NamesFields(l: Layout, nodeFields: seq<string>, edgeFields: seq<string>) {
    l.nodeFieldCount == |nodeFields| && l.edgeFieldCount == |edgeFields| && l.Fits() &&
    nodeFields[l.nodeTypeIx] == "type" && nodeFields[l.nodeNameIx] == "name" &&
    nodeFields[l.nodeIdIx] == "id" &&
    nodeFields[l.edges.Offset()] == (if l.edges.EdgesIndex? then "edges_index" else "edge_count") &&
    edgeFields[l.edgeTypeIx] == "type" && edgeFields[l.edgeNameOrIxIx] == "name_or_index" &&
    edgeFields[l.edgeToNodeIx] == "to_node"
  }

  /** The field-offset part of `_ReadSnapshot`; `edges_index` wins over `edge_count`. */
  function ResolveLayout(nodeFields: seq<string>, edgeFields: seq<string>): (r: Result<Layout, SnapshotError>)
    ensures r.Ok? <==> HasRequiredFields(nodeFields, edgeFields)
    ensures r.Ok? ==> NamesFields(r.value, nodeFields, edgeFields)
    ensures r.Ok? ==> (r.value.edges.EdgesIndex? <==> "edges_index" in nodeFields)
    ensures r.Err? ==> r.error.MissingField? && (r.error.field !in nodeFields || r.error.field !in edgeFields)
  {
    var typeIx :- FindField("type", nodeFields);
    var nameIx :- FindField("name", nodeFields);
    var idIx :- FindField("id", nodeFields);
    var edges :- EdgeLayoutOf(nodeFields);
    var edgeTypeIx :- FindField("type", edgeFields);
    var edgeNameIx :- FindField("name_or_index", edgeFields);
    var toNodeIx :- FindField("to_node", edgeFields);
    Ok(Layout(typeIx, nameIx, idIx, edges, |nodeFields|, edgeTypeIx, edgeNameIx, toNodeIx, |edgeFields|))
  }

  function EdgeLayoutOf(nodeFields: seq<string>): (r: Result<EdgeLayout, SnapshotError>)
    ensures r.Ok? ==> r.value.Offset() < |nodeFields|
  {
    if "edges_index" in nodeFields then Ok(EdgesIndex(IndexOf(nodeFields, "edges_index")))
    else
      var countIx :- FindField("edge_count", nodeFields);
      Ok(EdgeCount(countIx))
  }

  // ---------------------------------------------------------------------
  // Names, labels and filters

  /** `_IsNodeTypeUninteresting`. */
  predicate NodeKindUninteresting(kind: string) {
    kind == "hidden" || kind == "code" || kind == "number" || kind == "native" || kind == "synthetic"
  }

  /** `_IsEdgeTypeUninteresting`. */
  predicate EdgeKindUninteresting(kind: string) {
    kind == "weak" || kind == "hidden" || kind == "internal"
  }

  /** `_ConstructorName`: the named constructor of an object, the parenthesised type otherwise. */
  function ConstructorName(strings: seq<string>, kind: string, nameIx: int): (r: Result<string, SnapshotError>)
    ensures kind != "object" ==> r == Ok("(" + kind + ")")
    ensures kind == "object" ==> (r.Ok? <==> -|strings| <= nameIx < |strings|)
    ensures kind == "object" && 0 <= nameIx < |strings| ==> r == Ok(strings[nameIx])
  {
    if kind == "object" then At(strings, nameIx) else Ok("(" + kind + ")")
  }

  /**
   * The name of an edge: the decimal text of the raw value for `element`
   * edges and for values past the string table, the string it indexes otherwise.
   */
  function EdgeLabel(strings: seq<string>, kind: string, raw: int): (r: Result<string, SnapshotError>)
    ensures kind == "element" || raw >= |strings| ==> r == Ok(IntToString(raw))
    ensures kind != "element" && 0 <= raw < |strings| ==> r == Ok(strings[raw])
    ensures r.Err? <==> kind != "element" && raw < -|strings|
  {
    if kind == "element" || raw >= |strings| then Ok(IntToString(raw)) else At(strings, raw)
  }

  // ---------------------------------------------------------------------
  // Edge records (_ReadEdgeFromIndex)

  /** A kept edge as `_ReadEdgeFromIndex` builds it: from the node being read, of an interesting type, unlinked. */
  predicate KeptEdge(e: Edge, nodeId: int) {
    e.fromId == nodeId && !EdgeKindUninteresting(e.kind) && e.from == Unlinked && e.to == Unlinked
  }

  /**
   * `_ReadEdgeFromIndex`: the edge record at `edgeIx`, `None` when the edge or
   * the node it points at is of an uninteresting type.
   */
  function ReadEdge(s: Snapshot, l: Layout, nodeId: int, edgeIx: int): (r: Result<Option<Edge>, SnapshotError>)
    requires l.Fits()
    ensures r.Err? ==> r.error == EdgeListTooShort || r.error == IndexError
    ensures r.Ok? && r.value.Some? ==> KeptEdge(r.value.value, nodeId)
  {
    if edgeIx + l.edgeFieldCount > |s.edgeList| then Err(EdgeListTooShort)
    else
      var typeIx :- At(s.edgeList, edgeIx + l.edgeTypeIx);
      var kind :- At(s.edgeTypes, typeIx);
      if EdgeKindUninteresting(kind) then Ok(None)
      else
        var nameOrIx :- At(s.edgeList, edgeIx + l.edgeNameOrIxIx);
        var childIx :- At(s.edgeList, edgeIx + l.edgeToNodeIx);
        var childTypeIx :- At(s.nodeList, childIx + l.nodeTypeIx);
        var childKind :- At(s.nodeTypes, childTypeIx);
        var childId :- At(s.nodeList, childIx + l.nodeIdIx);
        if NodeKindUninteresting(childKind) then Ok(None)
        else
          var name :- EdgeLabel(s.strings, kind, nameOrIx);
          Ok(Some(NewEdge(nodeId, childId, kind, name)))
  }

  /**
   * The other outcomes of `_ReadEdgeFromIndex`: the short-record error, the
   * list-index errors, the filters on the edge type and on the type of the
   * node record it points at, and the label and target id of a kept edge.
   */
  lemma ReadEdgeOutcome(s: Snapshot, l: Layout, nodeId: int, edgeIx: int)
    requires l.Fits()
    ensures var r := ReadEdge(s, l, nodeId, edgeIx);
      r == Err(EdgeListTooShort) <==> edgeIx + l.edgeFieldCount > |s.edgeList|
    ensures var r := ReadEdge(s, l, nodeId, edgeIx);
      0 <= edgeIx && edgeIx + l.edgeFieldCount <= |s.edgeList| ==>
      match At(s.edgeTypes, s.edgeList[edgeIx + l.edgeTypeIx])
      case Err(_) => r == Err(IndexError)
      case Ok(kind) => EdgeKindUninteresting(kind) ==> r == Ok(None)
    ensures var r := ReadEdge(s, l, nodeId, edgeIx);
      0 <= edgeIx && r.Ok? && r.value.Some? ==>
      EdgeLabel(s.strings, r.value.value.kind, s.edgeList[edgeIx + l.edgeNameOrIxIx]) == Ok(r.value.value.name)
    ensures var r := ReadEdge(s, l, nodeId, edgeIx);
      r.Ok? && r.value.Some? ==>
      At(s.edgeList, edgeIx + l.edgeToNodeIx).Ok? &&
      var c := At(s.edgeList, edgeIx + l.edgeToNodeIx).value;
      At(s.nodeList, c + l.nodeTypeIx).Ok? && At(s.nodeTypes, At(s.nodeList, c + l.nodeTypeIx).value).Ok? &&
      !NodeKindUninteresting(At(s.nodeTypes, At(s.nodeList, c + l.nodeTypeIx).value).value) &&
      At(s.nodeList, c + l.nodeIdIx) == Ok(r.value.value.toId)
    ensures var r := ReadEdge(s, l, nodeId, edgeIx);
      0 <= edgeIx && r == Ok(None) ==>
      EdgeKindUninteresting(At(s.edgeTypes, s.edgeList[edgeIx + l.edgeTypeIx]).value) ||
      NodeKindUninteresting(At(s.nodeTypes, At(s.nodeList, s.edgeList[edgeIx + l.edgeToNodeIx] + l.nodeTypeIx).value).value)
  {
  }

  /** Every edge of `es` is a kept edge of node `nodeId`. */
  predicate AllKept(es: seq<Edge>, nodeId: int) {
    forall k :: 0 <= k < |es| ==> KeptEdge(es[k], nodeId)
  }

  /** The loop `for edge_ix in xrange(start, end, edge_field_count)`, keeping the edges that are not `None`. */
  function ReadEdges(s: Snapshot, l: Layout, nodeId: int, start: int, end: int): (r: Result<seq<Edge>, SnapshotError>)
    requires l.Fits()
    ensures r.Err? ==> r.error == EdgeListTooShort || r.error == IndexError
    ensures r.Ok? ==> AllKept(r.value, nodeId)
    decreases end - start
  {
    if start >= end then Ok([])
    else
      var e :- ReadEdge(s, l, nodeId, start);
      var rest :- ReadEdges(s, l, nodeId, start + l.edgeFieldCount, end);
      Ok(if e.Some? then [e.value] + rest else rest)
  }

  /** A result with `prefix` in front of its value. */
  function Prefixed(prefix: seq<Edge>, r: Result<seq<Edge>, SnapshotError>): Result<seq<Edge>, SnapshotError> {
    match r
    case Ok(rest) => Ok(prefix + rest)
    case Err(e) => Err(e)
  }

  lemma PrefixedAppend(a: seq<Edge>, b: seq<Edge>, r: Result<seq<Edge>, SnapshotError>)
    ensures Prefixed(a, Prefixed(b, r)) == Prefixed(a + b, r)
    ensures Prefixed([], r) == r
  {
    if r.Ok? {
      assert a + (b + r.value) == a + b + r.value;
      assert [] + r.value == r.value;
    }
  }

  /** One round of the edge loop: the edge at `start`, if kept, precedes the rest. */
  lemma ReadEdgesStep(s: Snapshot, l: Layout, nodeId: int, start: int, end: int)
    requires l.Fits() && start < end && ReadEdge(s, l, nodeId, start).Ok?
    ensures var e := ReadEdge(s, l, nodeId, start).value;
      ReadEdges(s, l, nodeId, start, end) ==
      Prefixed(if e.Some? then [e.value] else [], ReadEdges(s, l, nodeId, start + l.edgeFieldCount, end))
  {
    var e := ReadEdge(s, l, nodeId, start).value;
    var rest := ReadEdges(s, l, nodeId, start + l.edgeFieldCount, end);
    if rest.Ok? {
      assert ReadEdges(s, l, nodeId, start, end) == Ok(if e.Some? then [e.value] + rest.value else rest.value);
      assert [] + rest.value == rest.value;
    } else {
      assert ReadEdges(s, l, nodeId, start, end) == Err(rest.error);
    }
  }

  /** The edges a record contributes: the edge itself when it is kept. */
  function KeptList(e: Option<Edge>): seq<Edge> {
    if e.Some? then [e.value] else []
  }

  /**
   * The edge loop part-way: the edges kept before `edgeIx` precede what the
   * rest of the slice from `start` to `end` gives.
   */
  ghost predicate EdgesReadUpTo(s: Snapshot, l: Layout, nodeId: int, start: int, edgeIx: int, end: int, edges: seq<Edge>)
    requires l.Fits()
  {
    ReadEdges(s, l, nodeId, start, end) == Prefixed(edges, ReadEdges(s, l, nodeId, edgeIx, end))
  }

  /** One round of the edge loop: an error ends the slice, a record adds what it keeps. */
  lemma ReadEdgesAdvance(s: Snapshot, l: Layout, nodeId: int, start: int, edgeIx: int, end: int, edges: seq<Edge>)
    requires l.Fits() && edgeIx < end && EdgesReadUpTo(s, l, nodeId, start, edgeIx, end, edges)
    ensures ReadEdge(s, l, nodeId, edgeIx).Err? ==> ReadEdges(s, l, nodeId, start, end) == Err(ReadEdge(s, l, nodeId, edgeIx).error)
    ensures ReadEdge(s, l, nodeId, edgeIx).Ok? ==>
      EdgesReadUpTo(s, l, nodeId, start, edgeIx + l.edgeFieldCount, end, edges + KeptList(ReadEdge(s, l, nodeId, edgeIx).value))
  {
    var next := edgeIx + l.edgeFieldCount;
    if ReadEdge(s, l, nodeId, edgeIx).Ok? {
      var e := ReadEdge(s, l, nodeId, edgeIx).value;
      ReadEdgesStep(s, l, nodeId, edgeIx, end);
      PrefixedAppend(edges, KeptList(e), ReadEdges(s, l, nodeId, next, end));
    } else {
      assert ReadEdges(s, l, nodeId, edgeIx, end) == Err(ReadEdge(s, l, nodeId, edgeIx).error);
    }
  }

  // ---------------------------------------------------------------------
  // Node records (_ReadNodeFromIndex)

  /** Where the edges of the node record at `ix` start in the edge array. */
  function EdgesStart(s: Snapshot, l: Layout, ix: nat, cursor: int): int
    requires l.Fits() && ix + l.nodeFieldCount <= |s.nodeList|
  {
    match l.edges
    case EdgeCount(_) => cursor
    case EdgesIndex(startIx) => s.nodeList[ix + startIx]
  }

  /** Where they end (exclusive): the cursor plus the record's edges, or the next record's start. */
  function EdgesEnd(s: Snapshot, l: Layout, ix: nat, cursor: int): int
    requires l.Fits() && ix + l.nodeFieldCount <= |s.nodeList|
  {
    match l.edges
    case EdgeCount(countIx) => cursor + s.nodeList[ix + countIx] * l.edgeFieldCount
    case EdgesIndex(startIx) =>
      var next := ix + startIx + l.nodeFieldCount;
      if next < |s.nodeList| then s.nodeList[next] else |s.edgeList|
  }

  /** What a node that enters the node dictionary looks like straight after reading. */
  predicate DecodedNode(n: Node) {
    !NodeKindUninteresting(n.kind) && AllKept(n.edgesFrom, n.id) && n.edgesTo == [] &&
    (n.str != [] ==> n.kind == "string")
  }

  /**
   * `_ReadNodeFromIndex`: the end of the record's edge slice (the next
   * cursor) and the node, `None` when its type is uninteresting.
   */
  function ReadNode(s: Snapshot, l: Layout, ix: nat, cursor: int): (r: Result<(int, Option<Node>), SnapshotError>)
    requires l.Fits()
    ensures r.Ok? && r.value.1.Some? ==> DecodedNode(r.value.1.value)
  {
    if ix + l.nodeFieldCount > |s.nodeList| then Err(NodeListTooShort)
    else
      var kind :- At(s.nodeTypes, s.nodeList[ix + l.nodeTypeIx]);
      var end := EdgesEnd(s, l, ix, cursor);
      if NodeKindUninteresting(kind) then Ok((end, None))
      else
        var nameIx := s.nodeList[ix + l.nodeNameIx];
        var id := s.nodeList[ix + l.nodeIdIx];
        var className :- ConstructorName(s.strings, kind, nameIx);
        var str :- if kind == "string" then At(s.strings, nameIx) else Ok([]);
        var edges :- ReadEdges(s, l, id, EdgesStart(s, l, ix, cursor), end);
        Ok((end, Some(Node(id, kind, className, str, edges, []))))
  }

  /**
   * The other outcomes of `_ReadNodeFromIndex`: the short-record error, the
   * cursor it returns in both layouts, the filter on the node type, and the
   * id and constructor name of a stored node.
   */
  lemma ReadNodeOutcome(s: Snapshot, l: Layout, ix: nat, cursor: int)
    requires l.Fits()
    ensures var r := ReadNode(s, l, ix, cursor);
      r == Err(NodeListTooShort) <==> ix + l.nodeFieldCount > |s.nodeList|
    ensures var r := ReadNode(s, l, ix, cursor);
      r.Ok? && l.edges.EdgeCount? ==>
      r.value.0 == cursor + s.nodeList[ix + l.edges.countIx] * l.edgeFieldCount
    ensures var r := ReadNode(s, l, ix, cursor);
      r.Ok? && l.edges.EdgesIndex? ==>
      r.value.0 == (if ix + l.edges.startIx + l.nodeFieldCount < |s.nodeList|
                    then s.nodeList[ix + l.edges.startIx + l.nodeFieldCount] else |s.edgeList|)
    ensures var r := ReadNode(s, l, ix, cursor);
      ix + l.nodeFieldCount <= |s.nodeList| ==>
      match At(s.nodeTypes, s.nodeList[ix + l.nodeTypeIx])
      case Err(_) => r == Err(IndexError)
      case Ok(kind) => NodeKindUninteresting(kind) ==> r.Ok? && r.value.1 == None
    ensures var r := ReadNode(s, l, ix, cursor);
      r.Ok? && r.value.1.Some? ==>
      var n := r.value.1.value;
      n.id == s.nodeList[ix + l.nodeIdIx] &&
      ConstructorName(s.strings, n.kind, s.nodeList[ix + l.nodeNameIx]) == Ok(n.className)
  {
  }

  /** The value of `ReadNode` for a record whose node is stored. */
  lemma ReadNodeStored(s: Snapshot, l: Layout, ix: nat, cursor: int, kind: string, className: string,
                       str: string, edges: seq<Edge>)
    requires l.Fits() && ix + l.nodeFieldCount <= |s.nodeList|
    requires At(s.nodeTypes, s.nodeList[ix + l.nodeTypeIx]) == Ok(kind) && !NodeKindUninteresting(kind)
    requires ConstructorName(s.strings, kind, s.nodeList[ix + l.nodeNameIx]) == Ok(className)
    requires (if kind == "string" then At(s.strings, s.nodeList[ix + l.nodeNameIx]) else Ok([])) == Ok(str)
    requires ReadEdges(s, l, s.nodeList[ix + l.nodeIdIx], EdgesStart(s, l, ix, cursor), EdgesEnd(s, l, ix, cursor)) == Ok(edges)
    ensures ReadNode(s, l, ix, cursor) ==
      Ok((EdgesEnd(s, l, ix, cursor), Some(Node(s.nodeList[ix + l.nodeIdIx], kind, className, str, edges, []))))
  {
  }

  // ---------------------------------------------------------------------
  // The node dictionary `_node_dict`, kept as the sequence of its values in
  // first-insertion order; a node's key is its `id`.

  function Ids(g: Graph): set<int> {
    set j | 0 <= j < |g| :: g[j].id
  }

  /** Dictionary keys are unique. */
  predicate DistinctIds(g: Graph) {
    forall a, b :: 0 <= a < b < |g| ==> g[a].id != g[b].id
  }

  /** The position of the entry with key `id`, or `|g|` when there is none. */
  function Position(g: Graph, id: int): (p: nat)
    ensures p <= |g| && (p < |g| <==> id in Ids(g))
    ensures p < |g| ==> g[p].id == id
    ensures forall j :: 0 <= j < p ==> g[j].id != id
  {
    if g == [] then 0
    else if g[0].id == id then 0
    else
      var p := 1 + Position(g[1..], id);
      assert p < |g| <==> id in Ids(g) by {
        if id in Ids(g) {
          var j :| 0 <= j < |g| && g[j].id == id;
          assert g[1..][j - 1].id == id;
        }
        if p < |g| {
          assert g[p].id == id;
        }
      }
      p
  }

  /**
   * `_node_dict[n.id] = n`: a new key goes to the end, an existing key keeps
   * its position and gets the new value.
   */
  function Put(g: Graph, n: Node): (r: Graph)
    ensures DistinctIds(g) ==> DistinctIds(r)
  {
    if n.id in Ids(g) then
      var p := Position(g, n.id);
      var r := g[p := n];
      assert forall j :: 0 <= j < |r| ==> r[j].id == g[j].id;
      r
    else
      g + [n]
  }

  /** The keys after storing a node, and where the node goes. */
  lemma PutKeys(g: Graph, n: Node)
    ensures Ids(Put(g, n)) == Ids(g) + {n.id}
    ensures n.id !in Ids(g) ==> Put(g, n) == g + [n]
    ensures n.id in Ids(g) ==> |Put(g, n)| == |g| && Put(g, n)[Position(g, n.id)] == n
  {
    var r := Put(g, n);
    if n.id in Ids(g) {
      assert forall j :: 0 <= j < |r| ==> r[j].id == g[j].id;
      forall x | x in Ids(g) ensures x in Ids(r) {
        var j :| 0 <= j < |g| && g[j].id == x;
        assert r[j].id == x;
      }
    } else {
      forall x | x in Ids(g) ensures x in Ids(r) {
        var j :| 0 <= j < |g| && g[j].id == x;
        assert r[j].id == x;
      }
      assert r[|g|].id == n.id;
    }
  }

  /** Storing a node leaves the entries under other keys where they were. */
  lemma PutOthers(g: Graph, n: Node)
    ensures forall j :: 0 <= j < |g| && g[j].id != n.id ==> Put(g, n)[j] == g[j]
    ensures forall j :: 0 <= j < |Put(g, n)| ==> Put(g, n)[j] == n || (j < |g| && Put(g, n)[j] == g[j])
  {
  }

  /** The dictionary after a record: the node is stored when there is one. */
  function Store(g: Graph, n: Option<Node>): Graph {
    if n.Some? then Put(g, n.value) else g
  }

  /**
   * The first loop of `_ParseSnapshot`, from node record `ix` with edge
   * cursor `cursor`.
   */
  function ReadNodes(s: Snapshot, l: Layout, ix: nat, cursor: int, g: Graph): Result<Graph, SnapshotError>
    requires l.Fits()
    decreases |s.nodeList| - ix, 1
  {
    if ix >= |s.nodeList| then Ok(g) else ReadNodesAt(s, l, ix, cursor, g)
  }

  /** The node loop at a record that is there: read it, store what it keeps, go on. */
  function ReadNodesAt(s: Snapshot, l: Layout, ix: nat, cursor: int, g: Graph): Result<Graph, SnapshotError>
    requires l.Fits() && ix < |s.nodeList|
    decreases |s.nodeList| - ix, 0
  {
    var p :- ReadNode(s, l, ix, cursor);
    ReadNodes(s, l, ix + l.nodeFieldCount, p.0, Store(g, p.1))
  }

  /**
   * Filtering: reading the node records into a dictionary of decoded nodes
   * stores no node of an uninteresting type and no edge of an uninteresting
   * type, and keys stay unique.
   */
  lemma {:induction false} ReadNodesDecoded(s: Snapshot, l: Layout, ix: nat, cursor: int, g: Graph)
    requires l.Fits() && DecodedDict(g)
    ensures ReadNodes(s, l, ix, cursor, g).Ok? ==> DecodedDict(ReadNodes(s, l, ix, cursor, g).value)
    decreases |s.nodeList| - ix
  {
    if ix < |s.nodeList| && ReadNode(s, l, ix, cursor).Ok? {
      var p := ReadNode(s, l, ix, cursor).value;
      StoreKeepsDecoded(g, p.1);
      ReadNodesDecoded(s, l, ix + l.nodeFieldCount, p.0, Store(g, p.1));
    }
  }

  /** One round of the node loop. */
  lemma ReadNodesStep(s: Snapshot, l: Layout, ix: nat, cursor: int, g: Graph)
    requires l.Fits() && ix < |s.nodeList|
    ensures ReadNode(s, l, ix, cursor).Err? ==> ReadNodes(s, l, ix, cursor, g) == Err(ReadNode(s, l, ix, cursor).error)
    ensures ReadNode(s, l, ix, cursor).Ok? ==>
      ReadNodes(s, l, ix, cursor, g) ==
      ReadNodes(s, l, ix + l.nodeFieldCount, ReadNode(s, l, ix, cursor).value.0, Store(g, ReadNode(s, l, ix, cursor).value.1))
  {
  }

  /** The node loop part-way: what is left to read from `ix` gives what reading from the start gives. */
  ghost predicate NodesReadUpTo(s: Snapshot, l: Layout, g0: Graph, ix: nat, cursor: int, g: Graph)
    requires l.Fits()
  {
    ReadNodes(s, l, 0, 0, g0) == ReadNodes(s, l, ix, cursor, g)
  }

  /** One round of the node loop: an error ends the loop, a record stores what it keeps. */
  lemma ReadNodesAdvance(s: Snapshot, l: Layout, g0: Graph, ix: nat, cursor: int, g: Graph)
    requires l.Fits() && ix < |s.nodeList| && NodesReadUpTo(s, l, g0, ix, cursor, g)
    ensures ReadNode(s, l, ix, cursor).Err? ==> ReadNodes(s, l, 0, 0, g0) == Err(ReadNode(s, l, ix, cursor).error)
    ensures ReadNode(s, l, ix, cursor).Ok? ==>
      NodesReadUpTo(s, l, g0, ix + l.nodeFieldCount, ReadNode(s, l, ix, cursor).value.0,
                    Store(g, ReadNode(s, l, ix, cursor).value.1))
  {
    ReadNodesStep(s, l, ix, cursor, g);
  }

  /** Every node is as `_ReadNodeFromIndex` stores it. */
  predicate AllDecoded(g: Graph) {
    forall j :: 0 <= j < |g| ==> DecodedNode(g[j])
  }

  /** A node dictionary as the node loop builds it: decoded nodes under distinct keys. */
  predicate DecodedDict(g: Graph) {
    AllDecoded(g) && DistinctIds(g)
  }

  lemma StoreKeepsDecoded(g: Graph, n: Option<Node>)
    ensures DecodedDict(g) && (n.Some? ==> DecodedNode(n.value)) ==> DecodedDict(Store(g, n))
  {
    if DecodedDict(g) && n.Some? && DecodedNode(n.value) {
      PutKeepsDecoded(g, n.value);
    }
  }

  lemma PutKeepsDecoded(g: Graph, n: Node)
    requires AllDecoded(g) && DecodedNode(n)
    ensures AllDecoded(Put(g, n))
  {
    var r := Put(g, n);
    PutOthers(g, n);
    forall j | 0 <= j < |r| ensures DecodedNode(r[j]) {
      assert r[j] == n || (j < |g| && r[j] == g[j]);
    }
  }

  // ---------------------------------------------------------------------
  // Linking (the second loop of _ParseSnapshot)

  /** The outgoing edges of nodes `lo` up to `hi` all point at stored ids. */
  predicate KnownTargets(g: Graph, lo: nat, hi: nat)
    requires lo <= hi <= |g|
  {
    forall j, k :: lo <= j < hi && 0 <= k < |g[j].edgesFrom| ==> g[j].edgesFrom[k].toId in Ids(g)
  }

  predicate EdgesKnown(g: Graph, es: seq<Edge>) {
    forall k :: 0 <= k < |es| ==> es[k].toId in Ids(g)
  }

  /** `SetFromNode(n)` and `SetToNode(_node_dict[e.to_node_id])` for an outgoing edge of node `i`. */
  function LinkEdge(g: Graph, i: nat, e: Edge): Edge {
    e.(from := i, to := Position(g, e.toId))
  }

  function LinkEdges(g: Graph, i: nat, es: seq<Edge>): (r: seq<Edge>)
    ensures |r| == |es|
  {
    if es == [] then []
    else LinkEdges(g, i, es[..|es| - 1]) + [LinkEdge(g, i, es[|es| - 1])]
  }

  /** The edges of `es` that end at node `t`, in order. */
  function Into(es: seq<Edge>, t: int): seq<Edge> {
    if es == [] then []
    else Into(es[..|es| - 1], t) + (if es[|es| - 1].to == t then [es[|es| - 1]] else [])
  }

  /** What the first `n` nodes append to the `edges_to` of node `t`, in linking order. */
  function Incoming(g: Graph, t: int, n: nat): seq<Edge>
    requires n <= |g|
  {
    if n == 0 then []
    else Incoming(g, t, n - 1) + Into(LinkEdges(g, n - 1, g[n - 1].edgesFrom), t)
  }

  /** The dictionary after linking every edge in dictionary order. */
  function Linked(g: Graph): Graph {
    seq(|g|, t requires 0 <= t < |g| =>
      g[t].(edgesFrom := LinkEdges(g, t, g[t].edgesFrom), edgesTo := g[t].edgesTo + Incoming(g, t, |g|)))
  }

  /** The first target id of `es` that has no node. */
  function FirstUnknownIn(g: Graph, es: seq<Edge>): (r: Option<int>)
    ensures r.None? <==> EdgesKnown(g, es)
    ensures r.Some? ==> r.value !in Ids(g)
  {
    if es == [] then None
    else if es[0].toId !in Ids(g) then Some(es[0].toId)
    else
      var r := FirstUnknownIn(g, es[1..]);
      assert r.None? ==> EdgesKnown(g, es) by {
        if r.None? {
          forall k | 0 <= k < |es| ensures es[k].toId in Ids(g) {
            if k > 0 {
              assert es[k] == es[1..][k - 1];
            }
          }
        }
      }
      r
  }

  /** The first target id, in linking order from node `lo`, that has no node. */
  function FirstUnknown(g: Graph, lo: nat): (r: Option<int>)
    requires lo <= |g|
    ensures r.None? <==> KnownTargets(g, lo, |g|)
    ensures r.Some? ==> r.value !in Ids(g)
    decreases |g| - lo
  {
    if lo == |g| then None
    else
      match FirstUnknownIn(g, g[lo].edgesFrom)
      case Some(id) => Some(id)
      case None => FirstUnknown(g, lo + 1)
  }

  lemma {:induction false} FirstUnknownInAt(g: Graph, es: seq<Edge>, k: nat)
    requires k < |es| && EdgesKnown(g, es[..k]) && es[k].toId !in Ids(g)
    ensures FirstUnknownIn(g, es) == Some(es[k].toId)
    decreases k
  {
    if k > 0 {
      assert es[..k][0] == es[0];
      assert es[1..][..k - 1] == es[..k][1..];
      FirstUnknownInAt(g, es[1..], k - 1);
    }
  }

  /** The `KeyError` of linking names the first unknown target in linking order. */
  lemma {:induction false} FirstUnknownAt(g: Graph, lo: nat, i: nat, k: nat)
    requires lo <= i < |g| && KnownTargets(g, lo, i)
    requires k < |g[i].edgesFrom| && EdgesKnown(g, g[i].edgesFrom[..k]) && g[i].edgesFrom[k].toId !in Ids(g)
    ensures FirstUnknown(g, lo) == Some(g[i].edgesFrom[k].toId)
    decreases i - lo
  {
    if lo == i {
      FirstUnknownInAt(g, g[i].edgesFrom, k);
    } else {
      assert EdgesKnown(g, g[lo].edgesFrom);
      FirstUnknownAt(g, lo + 1, i, k);
    }
  }

  /** The linking loop: a `KeyError` for the first edge whose target id has no node. */
  function Link(g: Graph): (r: Result<Graph, SnapshotError>)
    ensures r.Ok? <==> KnownTargets(g, 0, |g|)
    ensures r.Err? ==> r.error.KeyError? && r.error.id !in Ids(g)
  {
    match FirstUnknown(g, 0)
    case Some(id) => Err(KeyError(id))
    case None => Ok(Linked(g))
  }

  /** `_ParseSnapshot` on a node dictionary `g`: read every node record, then link. */
  function Parse(s: Snapshot, l: Layout, g: Graph): Result<Graph, SnapshotError>
    requires l.Fits()
  {
    var read :- ReadNodes(s, l, 0, 0, g);
    Link(read)
  }

  /** `GetSnapshot` on an already decoded heap: resolve the layout, then parse. */
  function Decode(heap: Snapshot, g: Graph): Result<Graph, SnapshotError> {
    var l :- ResolveLayout(heap.nodeFields, heap.edgeFields);
    Parse(heap, l, g)
  }

  // ---------------------------------------------------------------------
  // The linking loop, one edge at a time

  /**
   * Where linking is: nodes before `i` have all their outgoing edges linked,
   * and node `i` has linked its first `k` edges into `linked`.
   */
  ghost predicate LinkProgress(g: Graph, i: nat, k: nat, linked: seq<Edge>) {
    i <= |g| && KnownTargets(g, 0, i) &&
    (i < |g| ==> k <= |g[i].edgesFrom| && EdgesKnown(g, g[i].edgesFrom[..k]) &&
                 linked == LinkEdges(g, i, g[i].edgesFrom[..k])) &&
    (i == |g| ==> k == 0 && linked == [])
  }

  /**
   * The dictionary part-way through linking: nodes before `i` have their
   * outgoing edges linked, and every node has the edges linked so far
   * appended to its incoming edges. Nothing else changes.
   */
  function LinkedUpTo(g: Graph, i: nat, k: nat): (h: Graph)
    requires i <= |g| && (i < |g| ==> k <= |g[i].edgesFrom|)
    ensures |h| == |g|
  {
    seq(|g|, j requires 0 <= j < |g| =>
      g[j].(edgesFrom := if j < i then LinkEdges(g, j, g[j].edgesFrom) else g[j].edgesFrom,
            edgesTo := g[j].edgesTo + Incoming(g, j, i) +
                       Into(if i < |g| then LinkEdges(g, i, g[i].edgesFrom[..k]) else [], j)))
  }

  lemma LinkEdgesSnoc(g: Graph, i: nat, es: seq<Edge>, k: nat)
    requires k < |es| && EdgesKnown(g, es[..k]) && es[k].toId in Ids(g)
    ensures EdgesKnown(g, es[..k + 1])
    ensures LinkEdges(g, i, es[..k + 1]) == LinkEdges(g, i, es[..k]) + [LinkEdge(g, i, es[k])]
  {
    assert es[..k + 1][..k] == es[..k];
  }

  lemma IntoSnoc(es: seq<Edge>, x: Edge, t: int)
    ensures Into(es + [x], t) == Into(es, t) + (if x.to == t then [x] else [])
  {
    assert (es + [x])[..|es|] == es;
  }

  lemma IncomingStep(g: Graph, j: int, i: nat)
    requires i < |g| && 0 <= j < |g|
    ensures g[j].edgesTo + Incoming(g, j, i) + Into(LinkEdges(g, i, g[i].edgesFrom), j) ==
            g[j].edgesTo + Incoming(g, j, i + 1) + Into([], j)
  {
    var before := Incoming(g, j, i);
    var added := Into(LinkEdges(g, i, g[i].edgesFrom), j);
    assert Incoming(g, j, i + 1) == before + added;
    assert g[j].edgesTo + before + added == g[j].edgesTo + (before + added) + [];
  }

  /** Linking starts from the dictionary as read. */
  lemma LinkStart(g: Graph)
    ensures KnownTargets(g, 0, 0) && LinkedUpTo(g, 0, 0) == g
  {
    var h := LinkedUpTo(g, 0, 0);
    forall j | 0 <= j < |g| ensures h[j] == g[j] {
      assert g[0].edgesFrom[..0] == [];
      assert g[j].edgesTo + [] + [] == g[j].edgesTo;
    }
  }

  /** Node `i` starts linking with none of its edges done. */
  lemma LinkStartNode(g: Graph, i: nat)
    requires i < |g| && KnownTargets(g, 0, i)
    ensures LinkProgress(g, i, 0, [])
  {
    assert g[i].edgesFrom[..0] == [];
  }

  /** One edge linked: `AddEdgeTo` on its target, `SetFromNode`/`SetToNode` on the edge. */
  lemma LinkStepEdge(g: Graph, i: nat, k: nat, linked: seq<Edge>)
    requires LinkProgress(g, i, k, linked) && i < |g| && k < |g[i].edgesFrom|
    requires g[i].edgesFrom[k].toId in Ids(g)
    ensures var e := LinkEdge(g, i, g[i].edgesFrom[k]); var h := LinkedUpTo(g, i, k);
      e.to < |g| && LinkProgress(g, i, k + 1, linked + [e]) &&
      LinkedUpTo(g, i, k + 1) == h[e.to := h[e.to].(edgesTo := h[e.to].edgesTo + [e])]
  {
    var e := LinkEdge(g, i, g[i].edgesFrom[k]);
    LinkEdgesSnoc(g, i, g[i].edgesFrom, k);
    var h := LinkedUpTo(g, i, k);
    var h1 := LinkedUpTo(g, i, k + 1);
    forall j | 0 <= j < |g| ensures h1[j] == h[e.to := h[e.to].(edgesTo := h[e.to].edgesTo + [e])][j] {
      LinkedEdgeAt(g, i, k, j);
    }
  }

  /** Linking edge `k` of node `i` changes only the incoming edges of its target. */
  lemma LinkedEdgeAt(g: Graph, i: nat, k: nat, j: nat)
    requires i < |g| && k < |g[i].edgesFrom| && j < |g|
    requires EdgesKnown(g, g[i].edgesFrom[..k]) && g[i].edgesFrom[k].toId in Ids(g)
    ensures var e := LinkEdge(g, i, g[i].edgesFrom[k]); var h := LinkedUpTo(g, i, k);
      LinkedUpTo(g, i, k + 1)[j] == if j == e.to then h[j].(edgesTo := h[j].edgesTo + [e]) else h[j]
  {
    var es := g[i].edgesFrom;
    var e := LinkEdge(g, i, es[k]);
    var linked := LinkEdges(g, i, es[..k]);
    LinkEdgesSnoc(g, i, es, k);
    IntoSnoc(linked, e, j);
    var before := g[j].edgesTo + Incoming(g, j, i);
    assert before + (Into(linked, j) + [e]) == before + Into(linked, j) + [e];
  }

  /** All edges of node `i` linked: its outgoing list is replaced by the linked edges. */
  lemma LinkStepNode(g: Graph, i: nat, linked: seq<Edge>)
    requires i < |g| && LinkProgress(g, i, |g[i].edgesFrom|, linked)
    ensures var h := LinkedUpTo(g, i, |g[i].edgesFrom|);
      KnownTargets(g, 0, i + 1) && LinkedUpTo(g, i + 1, 0) == h[i := h[i].(edgesFrom := linked)]
  {
    var es := g[i].edgesFrom;
    assert es[..|es|] == es;
    assert KnownTargets(g, 0, i + 1) by {
      assert EdgesKnown(g, es);
    }
    var h := LinkedUpTo(g, i, |es|);
    var h1 := LinkedUpTo(g, i + 1, 0);
    forall j | 0 <= j < |g| ensures h1[j] == h[i := h[i].(edgesFrom := linked)][j] {
      LinkedNodeAt(g, i, j);
    }
  }

  /** Finishing node `i` replaces its outgoing edges by their linked versions and changes nothing else. */
  lemma LinkedNodeAt(g: Graph, i: nat, j: nat)
    requires i < |g| && j < |g|
    ensures var es := g[i].edgesFrom; var h := LinkedUpTo(g, i, |es|);
      LinkedUpTo(g, i + 1, 0)[j] == if j == i then h[j].(edgesFrom := LinkEdges(g, i, es)) else h[j]
  {
    var es := g[i].edgesFrom;
    assert es[..|es|] == es;
    if i + 1 < |g| {
      assert g[i + 1].edgesFrom[..0] == [];
    }
    IncomingStep(g, j, i);
  }

  /** Linking leaves every key where it was, so a lookup part-way through finds the same position. */
  lemma LinkedUpToPosition(g: Graph, i: nat, k: nat, id: int)
    requires i <= |g| && (i < |g| ==> k <= |g[i].edgesFrom|)
    ensures Position(LinkedUpTo(g, i, k), id) == Position(g, id)
  {
    SameKeysPosition(g, LinkedUpTo(g, i, k), id);
  }

  lemma {:induction false} SameKeysPosition(g: Graph, h: Graph, id: int)
    requires |h| == |g| && forall j :: 0 <= j < |g| ==> h[j].id == g[j].id
    ensures Position(h, id) == Position(g, id)
  {
    if g != [] && g[0].id != id {
      SameKeysPosition(g[1..], h[1..], id);
    }
  }

  lemma SameKeysIds(g: Graph, h: Graph)
    requires |h| == |g| && forall j :: 0 <= j < |g| ==> h[j].id == g[j].id
    ensures Ids(h) == Ids(g) && (DistinctIds(g) ==> DistinctIds(h))
  {
    forall x | x in Ids(g) ensures x in Ids(h) {
      var j :| 0 <= j < |g| && g[j].id == x;
      assert h[j].id == x;
    }
  }

  /** Every node linked: the dictionary is `Linked(g)`, keys unchanged. */
  lemma LinkFinish(g: Graph)
    requires KnownTargets(g, 0, |g|) && DistinctIds(g)
    ensures DistinctIds(LinkedUpTo(g, |g|, 0)) && LinkedUpTo(g, |g|, 0) == Linked(g)
    ensures Link(g) == Ok(LinkedUpTo(g, |g|, 0))
  {
    LinkStop(g, |g|, 0, []);
  }

  /** Linking done: every target was known and the dictionary is `Linked(g)`, keys unchanged. */
  lemma LinkStop(g: Graph, i: nat, k: nat, linked: seq<Edge>)
    requires LinkProgress(g, i, k, linked) && DistinctIds(g)
    ensures DistinctIds(LinkedUpTo(g, i, k)) && Ids(LinkedUpTo(g, i, k)) == Ids(g)
    ensures i == |g| ==> KnownTargets(g, 0, |g|) && LinkedUpTo(g, i, k) == Linked(g)
  {
    LinkedUpToKeys(g, i, k);
    if i == |g| {
      LinkedAll(g);
    }
  }

  lemma LinkedUpToKeys(g: Graph, i: nat, k: nat)
    requires i <= |g| && (i < |g| ==> k <= |g[i].edgesFrom|)
    ensures Ids(LinkedUpTo(g, i, k)) == Ids(g) && (DistinctIds(g) ==> DistinctIds(LinkedUpTo(g, i, k)))
  {
    SameKeysIds(g, LinkedUpTo(g, i, k));
  }

  lemma LinkedAll(g: Graph)
    ensures LinkedUpTo(g, |g|, 0) == Linked(g)
  {
    var h := LinkedUpTo(g, |g|, 0);
    forall j | 0 <= j < |g| ensures h[j] == Linked(g)[j] {
      assert h[j].edgesTo == g[j].edgesTo + Incoming(g, j, |g|) + [];
    }
  }

  // ---------------------------------------------------------------------
  // What linking establishes

  lemma {:induction false} LinkEdgesAt(g: Graph, i: nat, es: seq<Edge>, k: nat)
    requires k < |es|
    ensures LinkEdges(g, i, es)[k] == LinkEdge(g, i, es[k])
    decreases |es|
  {
    var init := es[..|es| - 1];
    if k < |es| - 1 {
      assert init[k] == es[k];
      LinkEdgesAt(g, i, init, k);
    }
  }

  lemma {:induction false} IntoHas(es: seq<Edge>, t: int, k: nat)
    requires k < |es| && es[k].to == t
    ensures es[k] in Into(es, t)
    decreases |es|
  {
    if k < |es| - 1 {
      var init := es[..|es| - 1];
      assert init[k] == es[k];
      IntoHas(init, t, k);
    }
  }

  lemma {:induction false} IntoOnly(es: seq<Edge>, t: int, x: Edge)
    requires x in Into(es, t)
    ensures x in es && x.to == t
    decreases |es|
  {
    var init := es[..|es| - 1];
    if x in Into(init, t) {
      IntoOnly(init, t, x);
      assert init == es[..|es| - 1];
    }
  }

  lemma {:induction false} IncomingHas(g: Graph, t: int, n: nat, i: nat, x: Edge)
    requires n <= |g| && i < n
    requires x in Into(LinkEdges(g, i, g[i].edgesFrom), t)
    ensures x in Incoming(g, t, n)
    decreases n
  {
    if i < n - 1 {
      IncomingHas(g, t, n - 1, i, x);
    }
  }

  lemma {:induction false} IncomingOnly(g: Graph, t: int, n: nat, x: Edge)
    requires n <= |g| && x in Incoming(g, t, n)
    ensures exists i, k :: 0 <= i < n && 0 <= k < |g[i].edgesFrom| && x == LinkEdges(g, i, g[i].edgesFrom)[k]
    ensures x.to == t
    decreases n
  {
    var es := LinkEdges(g, n - 1, g[n - 1].edgesFrom);
    if x in Incoming(g, t, n - 1) {
      IncomingOnly(g, t, n - 1, x);
    } else {
      IntoOnly(es, t, x);
      var k :| 0 <= k < |es| && es[k] == x;
    }
  }

  /**
   * Linking: outgoing edge `k` of node `i` starts at `i`, ends at the node
   * stored under its target id, keeps its data, and is among that node's
   * incoming edges.
   */
  lemma LinkedOutgoing(g: Graph, i: nat, k: nat)
    requires KnownTargets(g, 0, |g|) && i < |g| && k < |g[i].edgesFrom|
    ensures var h := Linked(g); var e := h[i].edgesFrom[k]; var old_e := g[i].edgesFrom[k];
      e == old_e.(from := i, to := e.to) && 0 <= e.to < |h| && h[e.to].id == e.toId &&
      e in h[e.to].edgesTo
  {
    var h := Linked(g);
    var es := g[i].edgesFrom;
    LinkEdgesAt(g, i, es, k);
    var e := h[i].edgesFrom[k];
    IntoHas(LinkEdges(g, i, es), e.to, k);
    IncomingHas(g, e.to, |g|, i, e);
  }

  /**
   * Conversely, an edge that linking appends to node `t` ends at `t` and is
   * an outgoing edge of some node.
   */
  lemma LinkedIncoming(g: Graph, t: nat, x: Edge)
    requires t < |g| && x in Linked(g)[t].edgesTo && x !in g[t].edgesTo
    ensures x.to == t
    ensures exists i, k :: 0 <= i < |g| && 0 <= k < |Linked(g)[i].edgesFrom| && x == Linked(g)[i].edgesFrom[k]
  {
    IncomingOnly(g, t, |g|, x);
    var i, k :| 0 <= i < |g| && 0 <= k < |g[i].edgesFrom| && x == LinkEdges(g, i, g[i].edgesFrom)[k];
    assert x == Linked(g)[i].edgesFrom[k];
  }

  /** Fresh nodes (no incoming edges yet) come out of linking well linked. */
  lemma LinkedIsWellLinked(g: Graph)
    requires KnownTargets(g, 0, |g|)
    requires forall j :: 0 <= j < |g| ==> g[j].edgesTo == []
    ensures WellLinked(Linked(g))
  {
    var h := Linked(g);
    forall i, k | 0 <= i < |h| && 0 <= k < |h[i].edgesFrom|
      ensures h[i].edgesFrom[k].from == i && 0 <= h[i].edgesFrom[k].to < |h|
    {
      LinkedOutgoing(g, i, k);
    }
    forall i, k | 0 <= i < |h| && 0 <= k < |h[i].edgesTo|
      ensures h[i].edgesTo[k].to == i && 0 <= h[i].edgesTo[k].from < |h|
    {
      var x := h[i].edgesTo[k];
      LinkedIncoming(g, i, x);
      var i', k' :| 0 <= i' < |g| && 0 <= k' < |h[i'].edgesFrom| && x == h[i'].edgesFrom[k'];
      LinkedOutgoing(g, i', k');
    }
  }

  /** Linking a dictionary of decoded nodes keeps what decoding promised and links every edge. */
  lemma LinkedDecoded(read: Graph)
    requires KnownTargets(read, 0, |read|) && DecodedDict(read)
    ensures DistinctIds(Linked(read)) && WellLinked(Linked(read))
    ensures forall i :: 0 <= i < |Linked(read)| ==> !NodeKindUninteresting(Linked(read)[i].kind)
    ensures forall i, k :: 0 <= i < |Linked(read)| && 0 <= k < |Linked(read)[i].edgesFrom| ==>
      var e := Linked(read)[i].edgesFrom[k];
      e.fromId == Linked(read)[i].id && !EdgeKindUninteresting(e.kind) && Linked(read)[e.to].id == e.toId &&
      e in Linked(read)[e.to].edgesTo
  {
    var g := Linked(read);
    LinkFinish(read);
    assert forall j :: 0 <= j < |read| ==> read[j].edgesTo == [] by {
      forall j | 0 <= j < |read| ensures read[j].edgesTo == [] {
        assert DecodedNode(read[j]);
      }
    }
    LinkedIsWellLinked(read);
    forall i | 0 <= i < |g| ensures !NodeKindUninteresting(g[i].kind) {
      assert DecodedNode(read[i]);
    }
    forall i, k | 0 <= i < |g| && 0 <= k < |g[i].edgesFrom|
      ensures var e := g[i].edgesFrom[k];
        e.fromId == g[i].id && !EdgeKindUninteresting(e.kind) && g[e.to].id == e.toId && e in g[e.to].edgesTo
    {
      LinkedOutgoing(read, i, k);
      assert DecodedNode(read[i]);
      assert KeptEdge(read[i].edgesFrom[k], read[i].id);
    }
  }

  /**
   * `GetSnapshot` on a fresh `Snapshotter`: keys are unique, no node and no
   * outgoing edge is of an uninteresting type, and every outgoing edge is
   * linked to the nodes carrying its end point ids and is among the incoming
   * edges of its target.
   */
  lemma DecodedGraph(heap: Snapshot, g: Graph)
    requires Decode(heap, []) == Ok(g)
    ensures DistinctIds(g) && WellLinked(g)
    ensures forall i :: 0 <= i < |g| ==> !NodeKindUninteresting(g[i].kind)
    ensures forall i, k :: 0 <= i < |g| && 0 <= k < |g[i].edgesFrom| ==>
      var e := g[i].edgesFrom[k];
      e.fromId == g[i].id && !EdgeKindUninteresting(e.kind) && g[e.to].id == e.toId && e in g[e.to].edgesTo
  {
    var l := ResolveLayout(heap.nodeFields, heap.edgeFields).value;
    var read := ReadNodes(heap, l, 0, 0, []).value;
    assert DecodedDict([]);
    ReadNodesDecoded(heap, l, 0, 0, []);
    assert Link(read) == Ok(g);
    assert g == Linked(read);
    LinkedDecoded(read);
  }
}
