/**
 * The `Snapshotter` class of src/leak_finder.py: it keeps the decoded heap,
 * the field offsets resolved from it and the node dictionary, and fills the
 * dictionary record by record before linking the edges. Each method is
 * proved to compute what the HeapSnapshot functions specify.
 */
module SnapshotReader {
  import opened Wrappers
  import opened HeapGraph
  import opened HeapSnapshot

  /** `Result` of an operation whose normal outcome carries no value. */
  datatype Unit = Unit

  class Snapshotter {
    /** The decoded snapshot (`_node_list`, `_edge_list`, `_strings`, the type lists, the field lists). */
    var heap: Snapshot
    /** The field offsets and record sizes; `None` until they are resolved. */
    var layout: Option<Layout>
    /** `_node_dict`: its values in first-insertion order, keyed by their `id`. */
    var nodeDict: Graph

    ghost predicate Valid()
      reads this
    {
      DistinctIds(nodeDict) && (layout.Some? ==> layout.value.Fits())
    }

    /** `__init__`: an empty node dictionary. */
    constructor ()
      ensures Valid() && nodeDict == [] && layout == None
    {
      heap := Snapshot([], [], [], [], [], [], []);
      layout := None;
      nodeDict := [];
    }

    /** The field-offset part of `_ReadSnapshot`, on an already decoded snapshot. */
    method ReadSnapshot(decoded: Snapshot) returns (r: Result<Unit, SnapshotError>)
      requires Valid()
      modifies this
      ensures Valid() && heap == decoded && nodeDict == old(nodeDict)
      ensures match ResolveLayout(decoded.nodeFields, decoded.edgeFields)
        case Ok(l) => r.Ok? && layout == Some(l)
        case Err(e) => r == Err(e) && layout == None
    {
      heap := decoded;
      layout := None;
      var nodeFields, edgeFields := decoded.nodeFields, decoded.edgeFields;
      var typeIx := FindField("type", nodeFields);
      if typeIx.Err? { return Err(typeIx.error); }
      var nameIx := FindField("name", nodeFields);
      if nameIx.Err? { return Err(nameIx.error); }
      var idIx := FindField("id", nodeFields);
      if idIx.Err? { return Err(idIx.error); }
      var edges: EdgeLayout;
      if "edges_index" in nodeFields {
        edges := EdgesIndex(IndexOf(nodeFields, "edges_index"));
      } else {
        var countIx := FindField("edge_count", nodeFields);
        if countIx.Err? { return Err(countIx.error); }
        edges := EdgeCount(countIx.value);
      }
      var edgeTypeIx := FindField("type", edgeFields);
      if edgeTypeIx.Err? { return Err(edgeTypeIx.error); }
      var edgeNameIx := FindField("name_or_index", edgeFields);
      if edgeNameIx.Err? { return Err(edgeNameIx.error); }
      var toNodeIx := FindField("to_node", edgeFields);
      if toNodeIx.Err? { return Err(toNodeIx.error); }
      layout := Some(Layout(typeIx.value, nameIx.value, idIx.value, edges, |nodeFields|,
                            edgeTypeIx.value, edgeNameIx.value, toNodeIx.value, |edgeFields|));
      return Ok(Unit);
    }

    /**
     * The edge loop of `_ReadNodeFromIndex`: the kept edges of the records
     * from `start` up to `end`, in order, or the first error.
     */
    method ReadEdgesInRange(l: Layout, id: int, start: int, end: int) returns (r: Result<seq<Edge>, SnapshotError>)
      requires l.Fits()
      ensures r == ReadEdges(heap, l, id, start, end)
    {
      var s := heap;
      var edges: seq<Edge> := [];
      var edgeIx := start;
      PrefixedAppend([], [], ReadEdges(s, l, id, edgeIx, end));
      while edgeIx < end
        invariant EdgesReadUpTo(s, l, id, start, edgeIx, end, edges)
        decreases end - edgeIx
      {
        var edge := ReadEdge(s, l, id, edgeIx);
        ReadEdgesAdvance(s, l, id, start, edgeIx, end, edges);
        if edge.Err? {
          return Err(edge.error);
        }
        edges := edges + KeptList(edge.value);
        edgeIx := edgeIx + l.edgeFieldCount;
      }
      assert ReadEdges(s, l, id, edgeIx, end) == Ok([]);
      assert edges + [] == edges;
      return Ok(edges);
    }

    /**
     * `_ReadNodeFromIndex`: reads the node record at `ix`, stores the node
     * when its type is interesting, and returns the end of its edge slice.
     */
    method ReadNodeFromIndex(ix: nat, cursor: int) returns (r: Result<int, SnapshotError>)
      requires Valid() && layout.Some?
      modifies this
      ensures Valid() && heap == old(heap) && layout == old(layout)
      ensures ReadNode(heap, layout.value, ix, cursor).Err? ==>
        r == Err(ReadNode(heap, layout.value, ix, cursor).error) && nodeDict == old(nodeDict)
      ensures ReadNode(heap, layout.value, ix, cursor).Ok? ==>
        r == Ok(ReadNode(heap, layout.value, ix, cursor).value.0) &&
        nodeDict == Store(old(nodeDict), ReadNode(heap, layout.value, ix, cursor).value.1)
    {
      var l := layout.value;
      if ix + l.nodeFieldCount > |heap.nodeList| {
        return Err(NodeListTooShort);
      }
      var kind := At(heap.nodeTypes, heap.nodeList[ix + l.nodeTypeIx]);
      if kind.Err? {
        return Err(kind.error);
      }
      var start := cursor;
      var end: int;
      match l.edges {
        case EdgeCount(countIx) =>
          end := cursor + heap.nodeList[ix + countIx] * l.edgeFieldCount;
        case EdgesIndex(startIx) =>
          start := heap.nodeList[ix + startIx];
          var next := ix + startIx + l.nodeFieldCount;
          end := if next < |heap.nodeList| then heap.nodeList[next] else |heap.edgeList|;
      }
      assert start == EdgesStart(heap, l, ix, cursor) && end == EdgesEnd(heap, l, ix, cursor);
      if NodeKindUninteresting(kind.value) {
        return Ok(end);
      }
      var nameIx := heap.nodeList[ix + l.nodeNameIx];
      var id := heap.nodeList[ix + l.nodeIdIx];
      var className := ConstructorName(heap.strings, kind.value, nameIx);
      if className.Err? {
        return Err(className.error);
      }
      var n := NewNode(id, kind.value, className.value);
      if kind.value == "string" {
        var str := At(heap.strings, nameIx);
        if str.Err? {
          return Err(str.error);
        }
        n := n.(str := str.value);
      }
      ghost var str := n.str;
      assert str == [] || (kind.value == "string" && At(heap.strings, nameIx) == Ok(str));
      var edges := ReadEdgesInRange(l, id, start, end);
      if edges.Err? {
        return Err(edges.error);
      }
      n := n.(edgesFrom := edges.value);
      ReadNodeStored(heap, l, ix, cursor, kind.value, className.value, str, n.edgesFrom);
      nodeDict := Put(nodeDict, n);
      return Ok(end);
    }
  
    /** The first loop of `_ParseSnapshot`: every node record, with a running edge cursor. */
    method ReadNodeRecords() returns (r: Result<Unit, SnapshotError>)
      requires Valid() && layout.Some?
      modifies this
      ensures Valid() && heap == old(heap) && layout == old(layout)
      ensures match ReadNodes(heap, layout.value, 0, 0, old(nodeDict))
        case Ok(g) => r.Ok? && nodeDict == g
        case Err(e) => r == Err(e)
    {
      var l := layout.value;
      ghost var s := heap;
      var cursor := 0;
      var ix := 0;
      while ix < |heap.nodeList|
        invariant Valid() && heap == s && layout == old(layout)
        invariant NodesReadUpTo(s, l, old(nodeDict), ix, cursor, nodeDict)
        decreases |s.nodeList| - ix
      {
        ReadNodesAdvance(s, l, old(nodeDict), ix, cursor, nodeDict);
        var next := ReadNodeFromIndex(ix, cursor);
        if next.Err? {
          return Err(next.error);
        }
        cursor := next.value;
        ix := ix + l.nodeFieldCount;
      }
      assert ReadNodes(s, l, ix, cursor, nodeDict) == Ok(nodeDict);
      return Ok(Unit);
    }

    /**
     * `_ParseSnapshot`: reads every node record with a running edge cursor,
     * then appends every kept edge to its target's incoming edges and sets
     * both of its end points.
     */
    method ParseSnapshot() returns (r: Result<Unit, SnapshotError>)
      requires Valid() && layout.Some?
      modifies this
      ensures Valid() && heap == old(heap) && layout == old(layout)
      ensures match Parse(heap, layout.value, old(nodeDict))
        case Ok(g) => r.Ok? && nodeDict == g
        case Err(e) => r == Err(e)
    {
      r := ReadNodeRecords();
      if r.Err? {
        return;
      }
      r := LinkNodes();
    }

    /** `GetSnapshot` on an already decoded heap: read the field offsets, parse, return the nodes. */
    method GetSnapshot(decoded: Snapshot) returns (r: Result<Graph, SnapshotError>)
      requires Valid()
      modifies this
      ensures Valid() && heap == decoded
      ensures r == Decode(decoded, old(nodeDict))
      ensures r.Ok? ==> nodeDict == r.value
    {
      var read := ReadSnapshot(decoded);
      if read.Err? {
        return Err(read.error);
      }
      var parsed := ParseSnapshot();
      if parsed.Err? {
        return Err(parsed.error);
      }
      return Ok(nodeDict);
    }

    /** The second loop of `_ParseSnapshot`. */
    method LinkNodes() returns (r: Result<Unit, SnapshotError>)
      requires Valid()
      modifies this
      ensures Valid() && heap == old(heap) && layout == old(layout)
      ensures match Link(old(nodeDict))
        case Ok(g) => r.Ok? && nodeDict == g
        case Err(e) => r == Err(e)
    {
      ghost var g := nodeDict;
      LinkStart(g);
      var i := 0;
      while i < |nodeDict|
        invariant |nodeDict| == |g| && i <= |g| && DistinctIds(g)
        invariant KnownTargets(g, 0, i) && nodeDict == LinkedUpTo(g, i, 0)
        invariant heap == old(heap) && layout == old(layout) && g == old(nodeDict)
      {
        r := LinkNode(g, i);
        if r.Err? {
          return;
        }
        i := i + 1;
      }
      assert i == |g|;
      LinkFinish(g);
      assert nodeDict == LinkedUpTo(g, |g|, 0);
      return Ok(Unit);
    }

    /**
     * One pass of that loop, for node `i`: each outgoing edge gets its two
     * ends and is added to the incoming edges of its target; a `KeyError`
     * names the first target that has no node.
     */
    method LinkNode(ghost g: Graph, i: nat) returns (r: Result<Unit, SnapshotError>)
      requires i < |g| && DistinctIds(g) && KnownTargets(g, 0, i) && nodeDict == LinkedUpTo(g, i, 0)
      modifies this
      ensures heap == old(heap) && layout == old(layout)
      ensures r.Ok? ==> KnownTargets(g, 0, i + 1) && nodeDict == LinkedUpTo(g, i + 1, 0)
      ensures r.Err? ==> Link(g) == Err(r.error) && DistinctIds(nodeDict)
    {
      LinkStartNode(g, i);
      var edges := nodeDict[i].edgesFrom;
      var linked := [];
      var k := 0;
      while k < |edges|
        invariant edges == g[i].edgesFrom && k <= |edges|
        invariant LinkProgress(g, i, k, linked) && nodeDict == LinkedUpTo(g, i, k)
        invariant heap == old(heap) && layout == old(layout)
      {
        var e := LinkEdgeAt(g, i, k, linked);
        if e.Err? {
          return Err(e.error);
        }
        linked := linked + [e.value];
        k := k + 1;
      }
      LinkStepNode(g, i, linked);
      nodeDict := nodeDict[i := nodeDict[i].(edgesFrom := linked)];
      return Ok(Unit);
    }

    /**
     * Edge `k` of node `i`: `SetFromNode`, then `SetToNode` with the node
     * stored under its target id and `AddEdgeTo` on that node; a `KeyError`
     * when no node has that id.
     */
    method LinkEdgeAt(ghost g: Graph, i: nat, k: nat, ghost linked: seq<Edge>) returns (r: Result<Edge, SnapshotError>)
      requires i < |g| && k < |g[i].edgesFrom| && DistinctIds(g)
      requires LinkProgress(g, i, k, linked) && nodeDict == LinkedUpTo(g, i, k)
      modifies this
      ensures heap == old(heap) && layout == old(layout)
      ensures r.Ok? ==> LinkProgress(g, i, k + 1, linked + [r.value]) && nodeDict == LinkedUpTo(g, i, k + 1)
      ensures r.Err? ==> Link(g) == Err(r.error) && DistinctIds(nodeDict)
    {
      var e := nodeDict[i].edgesFrom[k];
      assert e == g[i].edgesFrom[k];
      LinkedUpToPosition(g, i, k, e.toId);
      var t := Position(nodeDict, e.toId);
      if t == |nodeDict| {
        FirstUnknownAt(g, 0, i, k);
        LinkStop(g, i, k, linked);
        return Err(KeyError(e.toId));
      }
      LinkStepEdge(g, i, k, linked);
      var linkedEdge := e.(from := i, to := t);
      nodeDict := nodeDict[t := nodeDict[t].(edgesTo := nodeDict[t].edgesTo + [linkedEdge])];
      return Ok(linkedEdge);
    }
  }
}
