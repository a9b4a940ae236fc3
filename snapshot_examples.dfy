/**
 * The two small snapshots of src/leak_finder_unittest.py: two object nodes
 * and one property edge between them, once with `edges_index` records and
 * once with `edge_count` records. Both decode to the same linked graph.
 */
module SnapshotExamples {
  import opened Wrappers
  import opened HeapGraph
  import opened HeapSnapshot

  const Strings: seq<string> := ["node1", "node2", "edge1"]
  const EdgeFields: seq<string> := ["type", "name_or_index", "to_node"]

  /** The snapshot in the older format, with an `edges_index` node field. */
  const EdgesIndexHeap: Snapshot :=
    Snapshot([0, 0, 0, 0, 0, 1, 1, 3], [0, 2, 4], Strings, ["object"], ["property"],
             ["type", "name", "id", "edges_index"], EdgeFields)

  /** The same snapshot with an `edge_count` node field. */
  const EdgeCountHeap: Snapshot :=
    Snapshot([0, 0, 0, 1, 0, 1, 1, 0], [0, 2, 4], Strings, ["object"], ["property"],
             ["type", "name", "id", "edge_count"], EdgeFields)

  /** Node `node1` (id 0) retains node `node2` (id 1) through property `edge1`. */
  const TwoNodes: Graph :=
    var e := Edge(0, 1, "property", "edge1", 0, 1);
    [Node(0, "object", "node1", "", [e], []), Node(1, "object", "node2", "", [], [e])]

  const IndexLayout: Layout := Layout(0, 1, 2, EdgesIndex(3), 4, 0, 1, 2, 3)
  const CountLayout: Layout := Layout(0, 1, 2, EdgeCount(3), 4, 0, 1, 2, 3)

  /** A field found at `i` and not before it is the field `_FindField` returns. */
  lemma FindFieldAt(name: string, fields: seq<string>, i: nat)
    requires i < |fields| && fields[i] == name
    requires forall k :: 0 <= k < i ==> fields[k] != name
    ensures FindField(name, fields) == Ok(i)
  {
  }

  lemma EdgeFieldsLayout()
    ensures FindField("type", EdgeFields) == Ok(0)
    ensures FindField("name_or_index", EdgeFields) == Ok(1)
    ensures FindField("to_node", EdgeFields) == Ok(2)
    ensures |EdgeFields| == 3
  {
    FindFieldAt("type", EdgeFields, 0);
    FindFieldAt("name_or_index", EdgeFields, 1);
    FindFieldAt("to_node", EdgeFields, 2);
  }

  lemma EdgesIndexLayout()
    ensures ResolveLayout(EdgesIndexHeap.nodeFields, EdgeFields) == Ok(IndexLayout)
  {
    var nf := EdgesIndexHeap.nodeFields;
    EdgeFieldsLayout();
    FindFieldAt("type", nf, 0);
    FindFieldAt("name", nf, 1);
    FindFieldAt("id", nf, 2);
    assert "edges_index" in nf && nf[3] == "edges_index";
    assert EdgeLayoutOf(nf) == Ok(EdgesIndex(3));
  }

  lemma EdgeCountLayout()
    ensures ResolveLayout(EdgeCountHeap.nodeFields, EdgeFields) == Ok(CountLayout)
  {
    var nf := EdgeCountHeap.nodeFields;
    EdgeFieldsLayout();
    FindFieldAt("type", nf, 0);
    FindFieldAt("name", nf, 1);
    FindFieldAt("id", nf, 2);
    FindFieldAt("edge_count", nf, 3);
    assert "edges_index" !in nf;
    assert EdgeLayoutOf(nf) == Ok(EdgeCount(3));
  }

  /** The unlinked edge record `edge1` from id 0 to id 1. */
  const Edge1: Edge := NewEdge(0, 1, "property", "edge1")

  lemma EdgeRecord(s: Snapshot, l: Layout)
    requires s == EdgesIndexHeap || s == EdgeCountHeap
    requires l == IndexLayout || l == CountLayout
    ensures ReadEdges(s, l, 0, 0, 3) == Ok([Edge1])
  {
    assert s.edgeList[0] == 0 && s.edgeList[1] == 2 && s.edgeList[2] == 4;
    assert s.nodeList[4] == 0 && s.nodeList[6] == 1;
    assert At(s.edgeTypes, 0) == Ok("property");
    assert At(s.nodeTypes, 0) == Ok("object");
    assert !EdgeKindUninteresting("property") && !NodeKindUninteresting("object");
    assert EdgeLabel(s.strings, "property", 2) == Ok("edge1");
    assert ReadEdge(s, l, 0, 0) == Ok(Some(Edge1));
    assert ReadEdges(s, l, 0, 3, 3) == Ok([]);
    assert l.edgeFieldCount == 3;
    assert [Edge1] + [] == [Edge1];
  }

  /** The two nodes as read, before linking. */
  const Read: Graph := [Node(0, "object", "node1", "", [Edge1], []), Node(1, "object", "node2", "", [], [])]

  lemma FirstRecord(s: Snapshot, l: Layout)
    requires s == EdgesIndexHeap || s == EdgeCountHeap
    requires l == (if s == EdgesIndexHeap then IndexLayout else CountLayout)
    ensures ReadNode(s, l, 0, 0) == Ok((3, Some(Read[0])))
  {
    assert At(s.nodeTypes, 0) == Ok("object") && !NodeKindUninteresting("object");
    assert ConstructorName(s.strings, "object", 0) == Ok("node1");
    assert EdgesStart(s, l, 0, 0) == 0 && EdgesEnd(s, l, 0, 0) == 3;
    EdgeRecord(s, l);
    ReadNodeStored(s, l, 0, 0, "object", "node1", "", [Edge1]);
  }

  lemma SecondRecord(s: Snapshot, l: Layout)
    requires s == EdgesIndexHeap || s == EdgeCountHeap
    requires l == (if s == EdgesIndexHeap then IndexLayout else CountLayout)
    ensures ReadNode(s, l, 4, 3) == Ok((3, Some(Read[1])))
  {
    assert At(s.nodeTypes, 0) == Ok("object") && !NodeKindUninteresting("object");
    assert ConstructorName(s.strings, "object", 1) == Ok("node2");
    assert EdgesStart(s, l, 4, 3) == 3 && EdgesEnd(s, l, 4, 3) == 3;
    assert ReadEdges(s, l, 1, 3, 3) == Ok([]);
    ReadNodeStored(s, l, 4, 3, "object", "node2", "", []);
  }

  /** Two nodes under different ids are stored one after the other. */
  lemma StoreTwo(a: Node, b: Node)
    requires a.id != b.id
    ensures Store([], Some(a)) == [a]
    ensures Store([a], Some(b)) == [a, b]
  {
    PutKeys([], a);
    PutKeys([a], b);
    assert Ids([]) == {};
    assert Ids([a]) == {a.id} by {
      var g := [a];
      assert g[0].id == a.id;
    }
  }

  lemma NodeRecords(s: Snapshot, l: Layout)
    requires s == EdgesIndexHeap || s == EdgeCountHeap
    requires l == (if s == EdgesIndexHeap then IndexLayout else CountLayout)
    ensures ReadNodes(s, l, 0, 0, []) == Ok(Read)
  {
    assert l.nodeFieldCount == 4 && |s.nodeList| == 8;
    StoreTwo(Read[0], Read[1]);
    FirstRecord(s, l);
    ReadNodesStep(s, l, 0, 0, []);
    SecondRecord(s, l);
    ReadNodesStep(s, l, 4, 3, [Read[0]]);
    assert [Read[0], Read[1]] == Read;
  }

  lemma LinkRead()
    ensures Link(Read) == Ok(TwoNodes)
  {
    assert Position(Read, 1) == 1;
    assert KnownTargets(Read, 0, |Read|);
    var e := Edge1.(from := 0, to := 1);
    assert LinkEdges(Read, 0, [Edge1]) == [e];
    assert LinkEdges(Read, 1, []) == [];
    assert Into([e], 0) == [] && Into([e], 1) == [e];
    assert Read[0].edgesFrom == [Edge1] && Read[1].edgesFrom == [];
    assert Incoming(Read, 1, 0) + [e] == [e];
    assert Incoming(Read, 1, 1) == Incoming(Read, 1, 0) + Into(LinkEdges(Read, 0, Read[0].edgesFrom), 1);
    assert Incoming(Read, 0, 1) == [] && Incoming(Read, 1, 1) == [e];
    assert Incoming(Read, 0, 2) == [];
    assert Incoming(Read, 1, 2) == [e];
    assert Linked(Read) == TwoNodes;
  }

  /** Both formats of the snapshot decode to node `node1` retaining node `node2` through `edge1`. */
  lemma EdgesIndexFormat()
    ensures Decode(EdgesIndexHeap, []) == Ok(TwoNodes)
  {
    EdgesIndexLayout();
    NodeRecords(EdgesIndexHeap, IndexLayout);
    LinkRead();
  }

  lemma EdgeCountFormat()
    ensures Decode(EdgeCountHeap, []) == Ok(TwoNodes)
  {
    EdgeCountLayout();
    NodeRecords(EdgeCountHeap, CountLayout);
    LinkRead();
  }
}
