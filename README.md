# Leak Finder for JavaScript — a verified model of its core

Leak Finder for JavaScript takes a V8 heap snapshot of a web page and
reports JavaScript objects that are probably leaked. It does this in three
stages:

- **Decoding.** The snapshot arrives as flat integer arrays: node records,
  edge records and a string table. The `Snapshotter` turns them into a graph
  of nodes and edges. It drops uninteresting node and edge types and links
  both end points of every kept edge.
- **Finding leaks.** Given descriptions of *container* objects (property
  chains such as `foo.bar`) and of *bad stop* objects, the `LeakFinder`
  reports each element of a container none of whose retaining paths ends
  outside the bad stop nodes. The search for retaining paths runs backwards
  along incoming edges, at most 30 nodes deep.
- **Matching suppressions.** Leaks are matched against Valgrind-style
  suppressions, read from a file. A suppression is a class-name glob and a
  list of frame globs, where `...` skips any number of frames.
  `JSLeakCheck._MatchSuppressions` counts each leak against the first
  suppression that matches it. A leak that matches none joins or starts a
  group of new leaks.

The model is written in Dafny. The heap graph is an arena (`Graph =
seq<Node>`): a node's identity is its position, and an edge records the
positions of its two end points. The node dictionary of the decoder is the
sequence of its values in first-insertion order. The parts of the source that
update state step by step are methods proved against specification functions:

- the `Snapshotter` class;
- the loops of `FindLeaks`;
- the backtracking path search;
- the suppression file reader;
- `_MatchSuppressions`.

Lemmas then state what the source promises about those functions.

Files:

| file | module | contents |
|---|---|---|
| `wrappers.dfy` | `Wrappers` | `Option` and `Result` |
| `pytext.dfy` | `PyText` | the Python built-ins used: `strip`, `split`, `join`, `str(int)`, list indexing |
| `graph.dfy` | `HeapGraph` | `Node`, `Edge`, the arena graph and `WellLinked` |
| `snapshot.dfy` | `HeapSnapshot` | the decoder as functions: field offsets, records, filtering, linking |
| `snapshotter.dfy` | `SnapshotReader` | the `Snapshotter` class, its methods proved against `HeapSnapshot` |
| `snapshot_examples.dfy` | `SnapshotExamples` | the two snapshot formats of the unit tests |
| `retention.dfy` | `Retention` | `_IsRetainedByEdges`, `_FindRetainingPaths` and the first-good-path search |
| `retention_examples.dfy` | `RetentionExamples` | the chain, loop and branch graphs of the unit tests |
| `leak_finder.dfy` | `LeakFinding` | `LeakFinder.__init__` and `FindLeaks` |
| `leak_examples.dfy` | `LeakExamples` | the `_DataLeaks` graph and the leaks found on it |
| `suppressions.dfy` | `Suppressions` | `Suppression` and the line-level semantics of its regular expression |
| `suppression_file.dfy` | `SuppressionFile` | `ReadSuppressionsFromFile` over the lines of a file |
| `jsleakcheck.dfy` | `LeakCheck` | `JSLeakCheck._MatchSuppressions` |

## Model

| member | source | states |
|---|---|---|
| PyText.StripRemovesOnlyEnds | src/suppressions.py:131 | `line.strip()` removes exactly a run of white space at each end |
| PyText.StripPadded | src/suppressions.py:131 | padding a trimmed text with white space on either side does not change what `strip` returns |
| PyText.JoinSplit | src/leak_finder.py:518 | `'.'.join(d.split('.'))` gives back `d` |
| PyText.SplitWithout | src/leak_finder.py:518 | a description without `.` splits into itself alone |
| PyText.PyIndex | src/leak_finder.py:345 | Python list indexing: defined exactly for `-len <= i < len`, negative indices count from the end |
| PyText.IntToStringRoundTrip | src/leak_finder.py:469 | `int(str(i)) == i`: the decimal label of an element edge loses nothing |
| HeapSnapshot.FindField | src/leak_finder.py:262-275 | `Ok` exactly when the field is present; then it is the first index holding the name; otherwise the error names the missing field |
| HeapSnapshot.ResolveLayout | src/leak_finder.py:308-330 | succeeds exactly when all required node and edge fields are present; every offset names its field; the `edges_index` layout is chosen exactly when that field exists; an error names a missing field |
| HeapSnapshot.EdgeLayoutOf | src/leak_finder.py:317-322 | the edge-slice field offset found lies inside the node record |
| HeapSnapshot.ConstructorName | src/leak_finder.py:332-346 | `strings[name]` for `object` nodes (an error when the index is out of range), `'(' + type + ')'` otherwise |
| HeapSnapshot.EdgeLabel | src/leak_finder.py:465-471 | the decimal text of the raw value for `element` edges or values past the string table, `strings[raw]` otherwise, an error only for a too negative index |
| HeapSnapshot.ReadEdge | src/leak_finder.py:433-472 | the only errors are "edge list too short" and a list index out of range; a kept edge is from the node being read, of an interesting type, and not yet linked |
| HeapSnapshot.ReadEdgeOutcome | src/leak_finder.py:433-472 | "edge list too short" exactly when the record runs past the edge list; an edge of type weak/hidden/internal is dropped; an edge is dropped only when its own type or the type of the node record it points at is uninteresting; a kept edge points at a record of an interesting node type, carries that record's id as its target id and the label of `EdgeLabel` |
| HeapSnapshot.ReadEdges | src/leak_finder.py:423-428 | every edge read from the slice is a kept edge of the node; errors are only the two indexing errors |
| HeapSnapshot.ReadEdgesStep | src/leak_finder.py:423-428 | one round of the edge loop: a kept edge precedes the edges read after it |
| HeapSnapshot.ReadEdgesAdvance | src/leak_finder.py:423-428 | one round of the edge loop part-way through a slice: an error reading the record is the error of the whole slice; otherwise the record's kept edge, if any, is appended to the edges read so far |
| HeapSnapshot.ReadNode | src/leak_finder.py:374-431 | a stored node has an interesting type, only kept edges of its own, no incoming edges yet and, only when it is a `string` node, a string |
| HeapSnapshot.ReadNodeOutcome | src/leak_finder.py:374-431 | "node list too short" exactly when the record runs past the node list; the returned cursor is `start + edge_count * edge_field_count` in `edge_count` layout and the next record's `edges_index` (or the edge list's length) in `edges_index` layout, also for a filtered node; a stored node carries the record's id and constructor name |
| HeapSnapshot.Position | src/leak_finder.py:489-491 | the dictionary lookup `_node_dict[id]`: the position of the entry with that key, the length of the dictionary when there is none |
| HeapSnapshot.Put | src/leak_finder.py:430 | `_node_dict[n.id] = n`: a new key is appended, an existing key keeps its position and gets the new value, the keys become the old keys plus the new one and stay unique |
| HeapSnapshot.PutOthers | src/leak_finder.py:430 | storing a node leaves every entry under another key where it was, and every entry afterwards is either the new node or the old entry at that position |
| HeapSnapshot.PutKeys | src/leak_finder.py:430 | `_node_dict[n.id] = n` adds `n.id` to the keys; a new key appends the node at the end, an existing key is overwritten in place and the length stays the same |
| HeapSnapshot.ReadNodesStep | src/leak_finder.py:480-482 | one round of the node loop threads the cursor returned by the record into the next record |
| HeapSnapshot.ReadNodesAdvance | src/leak_finder.py:480-482 | one round of the node loop part-way through: an error reading the record is the error of the whole loop; otherwise the record's node, if kept, is stored and its returned cursor is the next record's |
| HeapSnapshot.ReadNodesDecoded | src/leak_finder.py:480-482 | starting from a dictionary of decoded nodes under distinct keys, the node loop stores no node of type hidden/code/number/native/synthetic and no edge of type weak/hidden/internal, and keys stay unique |
| HeapSnapshot.FirstUnknown | src/leak_finder.py:486-489 | no target id is missing from the dictionary exactly when `None`; otherwise the id found has no node |
| HeapSnapshot.FirstUnknownAt | src/leak_finder.py:486-489 | the `KeyError` of linking names the first edge target, in linking order, that has no node |
| HeapSnapshot.Link | src/leak_finder.py:484-491 | linking succeeds exactly when every target id has a node; a `KeyError` names an id without a node |
| HeapSnapshot.LinkedOutgoing | src/leak_finder.py:486-491 | after linking, each outgoing edge starts at its node, ends at the node stored under its target id, keeps its data and is among the target's incoming edges |
| HeapSnapshot.LinkedIncoming | src/leak_finder.py:489 | an incoming edge added by linking ends at that node and is an outgoing edge of some node |
| HeapSnapshot.LinkedIsWellLinked | src/leak_finder.py:484-491 | freshly read nodes come out of linking as a well linked graph |
| HeapSnapshot.LinkedDecoded | src/leak_finder.py:484-491 | linking a dictionary of decoded nodes under unique keys keeps the keys unique and the node and edge types interesting, and links every outgoing edge to the nodes with its end-point ids and into its target's incoming edges |
| HeapSnapshot.LinkStepEdge | src/leak_finder.py:489-491 | linking one outgoing edge whose target id has a node appends the linked edge, from its node and to the target's position, to the target's incoming edges and changes nothing else |
| HeapSnapshot.LinkStepNode | src/leak_finder.py:487-491 | once all of a node's outgoing edges are linked, its outgoing list is replaced by the linked edges and nothing else changes |
| HeapSnapshot.LinkStop | src/leak_finder.py:484-491 | linking part-way keeps the keys and their uniqueness, and once every node is done the dictionary is `Linked` of the nodes read |
| HeapSnapshot.LinkFinish | src/leak_finder.py:484-491 | when every target id has a node, linking succeeds with `Linked` of the nodes read and the keys stay unique |
| HeapSnapshot.DecodedGraph | src/leak_finder.py:244-260 | a successful decode has unique keys, is well linked, holds no node or edge of an uninteresting type, and links every edge to the nodes with its end-point ids |
| SnapshotReader.Snapshotter.constructor | src/leak_finder.py:241-242 | an empty node dictionary, no layout yet |
| SnapshotReader.Snapshotter.ReadSnapshot | src/leak_finder.py:303-330 | stores the heap, and stores the layout `ResolveLayout` gives or returns its error |
| SnapshotReader.Snapshotter.ReadNodeFromIndex | src/leak_finder.py:374-431 | returns what `ReadNode` gives; the dictionary gains the node exactly as `Put` says, and nothing else changes |
| SnapshotReader.Snapshotter.ReadEdgesInRange | src/leak_finder.py:423-428 | the edge loop returns `ReadEdges` of the slice: the kept edges in record order, or the first error |
| SnapshotReader.Snapshotter.ReadNodeRecords | src/leak_finder.py:478-482 | the node loop leaves the dictionary as `ReadNodes` gives it, threading the edge cursor, or returns the first error; the heap and layout do not change |
| SnapshotReader.Snapshotter.ParseSnapshot | src/leak_finder.py:474-491 | the dictionary becomes what `Parse` gives, or the method returns its error |
| SnapshotReader.Snapshotter.GetSnapshot | src/leak_finder.py:244-260 | returns `Decode(heap)`, and the dictionary holds the nodes returned |
| SnapshotReader.Snapshotter.LinkNodes | src/leak_finder.py:484-491 | the dictionary becomes `Link(old dictionary)`, or the method returns its `KeyError` |
| SnapshotReader.Snapshotter.LinkNode | src/leak_finder.py:487-491 | one node's edges are linked and added to their targets' incoming edges, or the first missing target is reported |
| SnapshotReader.Snapshotter.LinkEdgeAt | src/leak_finder.py:489-491 | one edge: the target's incoming edges gain it with both end points set, as `LinkStepEdge` says, or a target id without a node is the `KeyError` of the whole linking |
| SnapshotExamples.EdgesIndexLayout | src/leak_finder_unittest.py:243-252 | the offsets of the `edges_index` test snapshot |
| SnapshotExamples.EdgeCountLayout | src/leak_finder_unittest.py:277-286 | the offsets of the `edge_count` test snapshot |
| SnapshotExamples.EdgeRecord | src/leak_finder_unittest.py:248-251 | the edge record reads as the unlinked `edge1` from id 0 to id 1 |
| SnapshotExamples.FirstRecord | src/leak_finder_unittest.py:249-250 | the first node record reads as `node1` with its edge, cursor 3 |
| SnapshotExamples.SecondRecord | src/leak_finder_unittest.py:249-250 | the second node record reads as `node2`, cursor still 3 |
| SnapshotExamples.NodeRecords | src/leak_finder_unittest.py:243-256 | both records in both formats read as the same two nodes |
| SnapshotExamples.LinkRead | src/leak_finder_unittest.py:257-275 | linking gives `node1` retaining `node2` through `edge1`, each edge on both ends |
| SnapshotExamples.EdgesIndexFormat | src/leak_finder_unittest.py:243-275 | the `edges_index` snapshot decodes to the two-node, one-edge graph |
| SnapshotExamples.EdgeCountFormat | src/leak_finder_unittest.py:277-309 | the `edge_count` snapshot decodes to the same graph |
| Retention.RetainedThroughSome | src/leak_finder.py:621-625 | the loop over `edges_to` from edge `k` on succeeds exactly when some edge from `k` on qualifies |
| Retention.RetainedByStep | src/leak_finder.py:618-625 | a non-empty chain retains a node exactly when some incoming edge is named after its last link and its source is retained by the rest |
| Retention.RetainedByWalk | src/leak_finder.py:605-625 | `_IsRetainedByEdges(node, chain)` holds exactly when `node` is `obj.chain[0]. ... .chain[-1]` for some object `obj` |
| Retention.PathsAreRetaining | src/leak_finder.py:642-654 | every yielded path starts at the node, has no repeated node, is at most 30 long, each node is retained by the next, and it ends at a node with no incoming edges or at a stop node |
| Retention.ExtendsPathFound | src/leak_finder.py:642-654 | every such path that extends the visited path is yielded |
| Retention.PathsExactly | src/leak_finder.py:628-654 | the yielded paths are exactly the retaining paths of the node |
| Retention.FirstGoodIsFirst | src/leak_finder.py:583-595 | a good path (not ending in a bad stop node) is found exactly when one exists, and no earlier path is good |
| Retention.FirstGoodAppend | src/leak_finder.py:648-654 | the first good path of the concatenated edge-by-edge results comes from the first part that has one |
| Retention.FindGoodPath | src/leak_finder.py:628-654 | the recursive search, which extends the visited path by value on each call, returns the first good path of the yielded sequence |
| RetentionExamples.ChainRetention | src/leak_finder_unittest.py:156-165 | `n3` is retained by `first.second` and `second`, not by `first`, `first.foo` or `foo.second` |
| RetentionExamples.BranchHasTwoPaths | src/leak_finder_unittest.py:167-181 | the branch graph yields exactly the two paths through `n1` and `n4` |
| RetentionExamples.LoopHasNoPaths | src/leak_finder_unittest.py:183-188 | a pure cycle yields no path |
| RetentionExamples.LoopAndBranchHasOnePath | src/leak_finder_unittest.py:190-199 | the loop with a branch yields only the path through `n4` |
| RetentionExamples.LoopAndBranchFromSecond | src/leak_finder_unittest.py:190-199 | in the loop with a branch, the search at `n2`, reached from `n3`, yields only the path on to `n4` |
| LeakFinding.DescriptionsRoundTrip | src/leak_finder.py:518-519 | each split description joins back to the description it came from |
| LeakFinding.FirstRetainingIsFirst | src/leak_finder.py:553-565 | the description loops stop at the first description that retains the node, and none before it does |
| LeakFinding.MatchDescription | src/leak_finder.py:553-565 | the loop over descriptions returns that first description |
| LeakFinding.SortNodeAdds | src/leak_finder.py:546-565 | what the first loop adds for one node: Window nodes are stop only; bad-stop matches are stop and bad; containers are stop, bad and named after their first matching description |
| LeakFinding.SortedStops | src/leak_finder.py:546-565 | after the first loop the stop nodes are the Window and bad stop nodes, and the bad stop nodes are exactly the containers and the nodes a bad stop chain retains, so a Window node is never bad |
| LeakFinding.SortedContainersAre | src/leak_finder.py:558-564 | each listed container is a container node with its `container_name` |
| LeakFinding.SortedContainersAll | src/leak_finder.py:558-564 | every container node is listed |
| LeakFinding.SortedContainersOrdered | src/leak_finder.py:558-564 | containers are listed once each, in node order |
| LeakFinding.SortedContainersStep | src/leak_finder.py:558-564 | a node appends itself with its `container_name` to the containers exactly when it is a container node, and otherwise leaves them unchanged |
| LeakFinding.SortedFound | src/leak_finder.py:563-564 | `found_container_edges` is exactly the set of the containers' names |
| LeakFinding.SortedFoundStep | src/leak_finder.py:563-564 | a container node adds its name to `found_container_edges`; any other node leaves the set unchanged |
| LeakFinding.SortedFoundContainers | src/leak_finder.py:558-564 | a name is in `found_container_edges` exactly when some container node was given it |
| LeakFinding.SortNodes | src/leak_finder.py:546-565 | the first loop computes `Sorted` over all nodes |
| LeakFinding.MissingContainerIsMissing | src/leak_finder.py:568-571 | the check finds no missing container exactly when every description's name was found; otherwise it names the first one not found |
| LeakFinding.CheckContainers | src/leak_finder.py:568-571 | the check loop returns that first missing name |
| LeakFinding.ScanEdgeLeaks | src/leak_finder.py:581-602 | an `element` edge yields a leak, located by `prefix + container_name + '[' + label + ']'`, exactly when every retaining path of its target ends in a bad stop node; otherwise the stop nodes grow by the nodes of a good retaining path |
| LeakFinding.ScanEdgeStep | src/leak_finder.py:577-602 | one edge of a container: the stop nodes only grow, earlier leaks stay, and a new leak comes from that edge |
| LeakFinding.ScanEdgesLeaks | src/leak_finder.py:577-602 | scanning a container keeps earlier leaks and adds only leaks of its `element` edges |
| LeakFinding.ScanContainersLeaks | src/leak_finder.py:576-602 | scanning the containers yields only leaks of their `element` edges |
| LeakFinding.LeaksFails | src/leak_finder.py:567-571 | `FindLeaks` raises its error exactly when some container description names no container node, and the error names the first such description in list order |
| LeakFinding.LeaksAreElements | src/leak_finder.py:576-602 | every leak is the target of an `element` edge of a container node, located by the container's name and the edge's label |
| LeakFinding.AddPath | src/leak_finder.py:593-594 | the stop nodes gain exactly the nodes of the good path |
| LeakFinding.ScanContainer | src/leak_finder.py:577-602 | the loop over one container's edges computes `ScanEdges` |
| LeakFinding.LeakFinder.FindLeaks | src/leak_finder.py:523-602 | the method returns `Leaks(finder, graph)`, which the lemmas above characterise |
| LeakExamples.FinderDescriptions | src/leak_finder_unittest.py:206 | `LeakFinder(['container'], ['bad'], '', '')` splits into the one-link chains |
| LeakExamples.DataLeaksRetained | src/leak_finder_unittest.py:146-153 | `n2` is the only node held by a `container` edge and `n6` the only one held by a `bad` edge |
| LeakExamples.DataLeaksNode | src/leak_finder_unittest.py:137-153 | no node is a Window; `n2` is the only container, named `container`; `n2` and `n6` are the bad stop nodes |
| LeakExamples.DataLeaksStops | src/leak_finder.py:546-565 | on the test graph the stop and bad stop nodes are `n2` and `n6` |
| LeakExamples.DataLeaksContainers | src/leak_finder.py:558-564 | on the test graph the only container is `n2`, named `container` |
| LeakExamples.FirstElement | src/leak_finder_unittest.py:147 | `n3` has the one retaining path through the container |
| LeakExamples.SecondElement | src/leak_finder_unittest.py:148-152 | `n4` has paths through the container and through the bad node `n6` |
| LeakExamples.ThirdElement | src/leak_finder_unittest.py:149-153 | `n5` has a path through the container and a good one along `n7` and `n9` |
| LeakExamples.DataLeaksScanFirst | src/leak_finder.py:576-602 | scanning `n2`: element `[0]`, retained only through the container, leaks as `container[0]` |
| LeakExamples.DataLeaksScanSecond | src/leak_finder.py:576-602 | scanning `n2`: element `[1]`, retained through the container and the bad stop node `n6`, leaks as `container[1]` |
| LeakExamples.DataLeaksScan | src/leak_finder.py:576-602 | scanning `n2`: `[0]` and `[1]` leak, `[2]` adds `n5`, `n7`, `n9` to the stop nodes |
| LeakExamples.DataLeaksFound | src/leak_finder_unittest.py:201-211 | `FindLeaks` yields exactly `n3` as `container[0]` and `n4` as `container[1]` |
| Suppressions.FrameTokens | src/suppressions.py:77-86 | one token per frame pattern, in order |
| Suppressions.Suppression.Match | src/suppressions.py:90-102 | a match needs a non-empty stack and a class pattern matching the class name |
| Suppressions.GlobStar | src/suppressions.py:85 | a leading `*` matches any prefix of the line |
| Suppressions.GlobIsSplitRegex | src/suppressions.py:85 | the glob matcher accepts a line exactly when the pieces between `*`s appear in it literally and in order, the first at the start and the last at the end |
| Suppressions.GlobLiteral | src/suppressions.py:85 | a pattern without `*` matches only the line equal to it |
| Suppressions.GlobSelf | src/suppressions.py:85 | every pattern matches its own text |
| Suppressions.AnyLinesSkips | src/suppressions.py:82-83 | `...` after the first token skips any number of whole lines, none included |
| Suppressions.MatchPrefixAnchored | src/suppressions.py:99-100 | the match is anchored at the start only: appending lines never undoes it |
| Suppressions.TrailingFramesIgnored | src/suppressions.py:99-100 | frames beyond those the pattern consumes are ignored |
| Suppressions.FrameTokensOnNoLines | src/suppressions.py:82-86 | the frame tokens match no line at all exactly when every frame pattern is `...` |
| Suppressions.MatchWithoutFrames | src/suppressions.py:90-102 | a leak without frames is matched exactly by a non-empty suppression whose class pattern matches and whose frames are all `...` |
| Suppressions.FrameTokensSelf | src/suppressions.py:77-86 | the tokens of a list of frames match those frames |
| Suppressions.SyntheticMatchesItsLeak | src/jsleakcheck.py:245-247 | the suppression a new group is built with matches its own leak exactly when the leak has frames |
| Suppressions.EmptySuppressionMatchesNothing | src/suppressions_unittest.py:28-32 | a suppression with no frames matches nothing |
| Suppressions.GlobStep | src/suppressions.py:85-86 | a glob token consumes exactly one line that it matches |
| Suppressions.GlobAnything | src/suppressions.py:85 | `*` alone matches any line |
| Suppressions.StarSuffix | src/suppressions.py:85 | `*` followed by literal text matches exactly the lines ending in that text |
| Suppressions.ClassThenAnyFrames | src/suppressions.py:82-83 | `c, ...` matches exactly the leaks whose class matches `c`, whatever their frames |
| Suppressions.FramesAroundEllipsis | src/suppressions.py:82-86 | `c, a, ..., b` matches exactly when `a` matches the first frame and `b` some later one |
| Suppressions.LaterFrame | src/suppressions.py:82-86 | `..., b` matches the frames after the first exactly when `b` matches one of them |
| Suppressions.ClassNameWildcard | src/suppressions_unittest.py:34-38 | `*Event` accepts `someEvent` and `Event`, not `someEvents` |
| Suppressions.ClassNameEllipsisIsLiteral | src/suppressions_unittest.py:40-42 | as the class pattern, `...` is literal |
| Suppressions.EllipsisBetweenFrames | src/suppressions_unittest.py:50-53 | `foo, ..., bar` accepts `bar` after zero, one or two frames |
| Suppressions.EllipsisNeedsBothEnds | src/suppressions_unittest.py:54-55 | `foo, ..., bar` rejects frames lacking `bar` at the end or `foo` at the start |
| Suppressions.EllipsisMatchesAnyFrames | src/suppressions_unittest.py:45-48 | `*, ...` matches any leak, with or without frames |
| SuppressionFile.FramePattern | src/suppressions.py:151-154 | lines starting with `...` become `...`, others are kept |
| SuppressionFile.Classify | src/suppressions.py:131-134 | a text line is the stripped line, never empty |
| SuppressionFile.ReadSuppressionsFromFile | src/suppressions.py:105-159 | the reading loop returns `ReadSuppressions(filename, lines)` |
| SuppressionFile.RunAppend | src/suppressions.py:129-154 | reading `a + b` is reading `a`, then `b` from where `a` stopped |
| SuppressionFile.RunCountsLines | src/suppressions.py:128-130 | every line advances the line counter by one |
| SuppressionFile.RunKeepsHeaderInOrder | src/suppressions.py:147-150 | a class name is only read after a description |
| SuppressionFile.StrayLineIsParseError | src/suppressions.py:142-145 | a plain line outside a block is a `ParseError` carrying the filename and its 1-based line number |
| SuppressionFile.OpenBlockAtEndIsEof | src/suppressions.py:156-158 | input that ends inside a block is an `UnexpectedEofError` at the last line |
| SuppressionFile.FramePatternsKeep | src/suppressions.py:151-154 | frame lines that are their own pattern are kept as they are, in order |
| SuppressionFile.RunSkips | src/suppressions.py:132-133 | blank and comment lines only advance the line counter |
| SuppressionFile.RunFrames | src/suppressions.py:151-154 | inside a block, after the header, each text line appends its frame pattern |
| SuppressionFile.RunHeader | src/suppressions.py:134-150 | `{`, a description and a class name set up a block |
| SuppressionFile.RunBlock | src/suppressions.py:134-154 | a well-formed block appends its suppression and leaves the block |
| SuppressionFile.RunBlocks | src/suppressions.py:129-154 | whole blocks are read one after the other |
| SuppressionFile.BlocksReadInFileOrder | src/suppressions.py:105-159 | a file of well-formed blocks yields one suppression per block, in file order |
| SuppressionFile.ClassifyLine | src/suppressions.py:131-134 | an indented line ending in a newline classifies by its stripped text |
| SuppressionFile.SampleFileReadsTwoSuppressions | src/suppressions_unittest.py:59-91 | the test file yields `myClass` with `frame, ..., another frame` and `class*` with `frame1, frame2, frame3` |
| SuppressionFile.EarlyEofFile | src/suppressions_unittest.py:94-104 | the truncated test file is an unexpected end of file at line 6 |
| SuppressionFile.StrayTextFile | src/suppressions_unittest.py:106-120 | the test file with trailing text is a parse error at line 10 |
| SuppressionFile.SampleLinesKinds | src/suppressions_unittest.py:60-78 | the literal lines of the `testReadFile` file, dedented and each ending in a newline, classify as the two blocks with their comment and blank lines |
| SuppressionFile.ReadFileTest | src/suppressions_unittest.py:59-91 | the literal `testReadFile` file yields `myClass` with `frame, ..., another frame` and `class*` with `frame1, frame2, frame3` |
| SuppressionFile.EarlyEofTest | src/suppressions_unittest.py:94-104 | the literal truncated file is an unexpected end of file at line 6 |
| SuppressionFile.StrayTextTest | src/suppressions_unittest.py:106-120 | the literal file with trailing text is a parse error at line 10 |
| LeakCheck.FirstMatchNone | src/jsleakcheck.py:224-239 | a matching loop finds nothing exactly when no suppression from the start index on matches |
| LeakCheck.FirstMatchFirst | src/jsleakcheck.py:224-239 | what a matching loop finds matches, and no earlier suppression does |
| LeakCheck.FirstMatchIsFirst | src/jsleakcheck.py:224-239 | the matching loops find a suppression exactly when one matches, and it is the first that does |
| LeakCheck.FindSuppression | src/jsleakcheck.py:224-229 | the loop over the loaded suppressions returns the first match |
| LeakCheck.FindGroup | src/jsleakcheck.py:234-239 | the loop over `new_leaks` returns the first group whose suppression matches |
| LeakCheck.MatchSuppressions | src/jsleakcheck.py:203-264 | returns the counts and groups that `Tallied` specifies |
| LeakCheck.StepCountsFirstMatch | src/jsleakcheck.py:224-229 | a leak adds one to a loaded suppression's count exactly when that suppression is the first to match it, and then no group changes |
| LeakCheck.StepCountsFirstGroup | src/jsleakcheck.py:231-249 | a leak no loaded suppression matches adds one to a group's count exactly when it is the first group to match, and keeps every group's suppression and first leak; when no group matches, exactly one group is appended: `Suppression('', class_name, frames)` with count 1 and this leak |
| LeakCheck.StepTotal | src/jsleakcheck.py:215-249 | one pass of the loop body keeps every key of `matched_suppressions` a loaded suppression's index and raises the sum of all counts by one for a leak with a stack and by nothing for one without |
| LeakCheck.TalliedTotal | src/jsleakcheck.py:214-249 | every key of `matched_suppressions` is a loaded suppression's index, and the counts of suppressions and groups add up to the number of leaks with a stack |
| LeakCheck.TalliedGroups | src/jsleakcheck.py:244-249 | every group holds the synthetic suppression of its first leak, which no loaded suppression matched; its count is positive, and exactly 1 if that leak had no frames |
| LeakCheck.StepGroupLeaks | src/jsleakcheck.py:231-249 | one round keeps the leak stored with every existing group and adds at most one group, which holds the leak just seen |
| LeakCheck.TalliedLeaksGroups | src/jsleakcheck.py:231-249 | the leak stored with every group is one of the leaks the loop saw |
| LeakCheck.EmptyFramesGroup | src/jsleakcheck.py:231-249 | an unmatched leak without frames starts a new group exactly when no earlier group's suppression has only `...` frames and matches its class |
| LeakCheck.RepeatedLeakJoinsAGroup | src/jsleakcheck.py:231-249 | after a leak with frames has been seen, seeing it again starts no new group |

## Left out

- Fetching the snapshot from the inspector client and decoding its JSON (`src/leak_finder.py:296-306`). `Snapshotter.GetSnapshot` and `ReadSnapshot` take the already decoded heap as a value, with the type lists already taken out of their one-element wrapper lists.
- `LeakNode.RetrieveStackTrace` and `LeakNode.__str__`. They talk to the inspector client. `stacktrace.py` is not part of this model. A leak's creation stack enters `_MatchSuppressions` as `Option<seq<string>>`: `None` for a leak without a stack, otherwise its frames. How `if not leak.stack` (`src/jsleakcheck.py:217`) judges a stack object is not part of this model: a stack with no frames is taken to be present, `Some([])`. `LeakCheck.EmptyFramesGroup` and the count of 1 in `LeakCheck.TalliedGroups` for a leak without frames rest on that reading.
- The rest of `src/jsleakcheck.py`: option parsing, logging, the inspector client, `Run`, `_FindLeaks`, loading the suppressions in `__init__`, the predefined leak definitions and the `print` report of `_MatchSuppressions`. `LeakCheck.MatchSuppressions` returns `matched_suppressions` as an out-parameter instead of printing it.
- Python's `re` engine. The compiled suppression pattern is modelled by its line-level meaning: a glob per line, `...` over whole lines, a match anchored at the start. Class names and frames are taken to contain no newline, since each is matched as one line of the joined text.
- Generator laziness. `_FindRetainingPaths` is the finite sequence `Retention.Paths` of the paths it yields, and `FindLeaks` is the list of the leaks it yields. `FindGoodPath` stops at the first good path, as the consumer's `break` does. Python's generator yields the shared `visited` list, which the consumer reads before the next `pop`; the model yields copies.
- Set and dictionary order. The model fixes an order where Python's is unspecified:
  - the nodes of `FindLeaks` in arena order;
  - the containers in the order they were found;
  - the node dictionary in first-insertion order.
  The lemmas about leaks and errors state membership, and do not depend on that order.
- Python crash paths are modelled as error results rather than excluded:
  - `IndexError` on unchecked indexing into the type and string tables;
  - `KeyError` when linking an edge whose target id has no node;
  - the failure inside `Suppression(None, ...)` for a `}` reached with no class name, which is `NoClassName`.
- `_RetainingPathToString`, which `src/leak_finder_unittest.py:311-323` calls, is not defined in `src/leak_finder.py` and is not modelled.
- Only integer-valued JSON numbers are modelled in the snapshot arrays. `int()` on the stored values is the identity.
