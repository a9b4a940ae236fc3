/**
 * The small heap graphs of src/leak_finder_unittest.py and what the
 * retention queries answer on them. Node `nK` of the tests is arena
 * position `K - 1`.
 */
module RetentionExamples {
  import opened HeapGraph
  import opened Retention

  function Property(a: nat, b: nat, name: string): Edge {
    Edge(a + 1, b + 1, "property", name, a, b)
  }

  function Object(id: int, from: seq<Edge>, to: seq<Edge>): Node {
    Node(id, "object", "Object", "", from, to)
  }

  /** (n1) -first-> (n2) -second-> (n3) */
  const Chain: Graph :=
    var first, second := Property(0, 1, "first"), Property(1, 2, "second");
    [Object(1, [first], []), Object(2, [second], [first]), Object(3, [], [second])]

  lemma ChainRetention()
    ensures WellLinked(Chain)
    ensures RetainedBy(Chain, 2, ["first", "second"]) && RetainedBy(Chain, 2, ["second"])
    ensures !RetainedBy(Chain, 2, ["first"]) && !RetainedBy(Chain, 2, ["first", "foo"])
    ensures !RetainedBy(Chain, 2, ["foo", "second"])
  {
    assert WellLinked(Chain);
    assert ["first", "second"][..1] == ["first"];
    assert ["foo", "second"][..1] == ["foo"];
    assert RetainedBy(Chain, 1, ["first"]);
    assert !RetainedBy(Chain, 1, ["foo"]);
  }

  /** (n1) -first-> (n2) -second-> (n3) -loop-> (n1) */
  const Loop: Graph :=
    var first, second, loop := Property(0, 1, "first"), Property(1, 2, "second"), Property(2, 0, "loop");
    [Object(1, [first], [loop]), Object(2, [second], [first]), Object(3, [loop], [second])]

  /** A pure cycle has no retaining path. */
  lemma LoopHasNoPaths()
    ensures WellLinked(Loop) && Paths(Loop, 2, [2], {}) == []
  {
    assert WellLinked(Loop);
    assert Paths(Loop, 0, [2, 1, 0], {}) == [];
    assert [2, 1] + [0] == [2, 1, 0] && [2] + [1] == [2, 1];
    assert PathsThrough(Loop, 1, 1, [2, 1], {}) == [];
    assert PathsThrough(Loop, 1, 0, [2, 1], {}) == [];
    assert Paths(Loop, 1, [2, 1], {}) == [];
    assert PathsThrough(Loop, 2, 1, [2], {}) == [];
  }

  /** (n1) -first-> (n2) -second-> (n3), and (n4) -second-> (n2) */
  const Branch: Graph :=
    var first, second, other := Property(0, 1, "first"), Property(1, 2, "second"), Property(3, 1, "second");
    [Object(1, [first], []), Object(2, [second], [first, other]), Object(3, [], [second]), Object(4, [other], [])]

  /** The branch gives two paths, through `n1` and through `n4`. */
  lemma BranchHasTwoPaths()
    ensures WellLinked(Branch) && Paths(Branch, 2, [2], {}) == [[2, 1, 0], [2, 1, 3]]
  {
    assert WellLinked(Branch);
    assert Paths(Branch, 0, [2, 1, 0], {}) == [[2, 1, 0]];
    assert Paths(Branch, 3, [2, 1, 3], {}) == [[2, 1, 3]];
    assert [2, 1] + [0] == [2, 1, 0] && [2, 1] + [3] == [2, 1, 3] && [2] + [1] == [2, 1];
    assert PathsThrough(Branch, 1, 2, [2, 1], {}) == [];
    assert PathsThrough(Branch, 1, 1, [2, 1], {}) == [[2, 1, 3]];
    assert PathsThrough(Branch, 1, 0, [2, 1], {}) == [[2, 1, 0], [2, 1, 3]];
    assert PathsThrough(Branch, 2, 1, [2], {}) == [];
    assert Paths(Branch, 1, [2, 1], {}) == [[2, 1, 0], [2, 1, 3]];
  }

  /** The loop and the branch together: only the path through `n4`. */
  const LoopAndBranch: Graph :=
    var first, second, loop, other :=
      Property(0, 1, "first"), Property(1, 2, "second"), Property(2, 0, "loop"), Property(3, 1, "other");
    [Object(1, [first], [loop]), Object(2, [second], [first, other]), Object(3, [loop], [second]),
     Object(4, [other], [])]

  lemma LoopAndBranchHasOnePath()
    ensures WellLinked(LoopAndBranch) && Paths(LoopAndBranch, 2, [2], {}) == [[2, 1, 3]]
  {
    LoopAndBranchFromSecond();
    assert [2] + [1] == [2, 1];
    assert PathsThrough(LoopAndBranch, 2, 1, [2], {}) == [];
  }

  /** From `n2`, reached from `n3`: the edge from `n1` closes the loop, the one from `n4` ends a path. */
  lemma LoopAndBranchFromSecond()
    ensures WellLinked(LoopAndBranch) && Paths(LoopAndBranch, 1, [2, 1], {}) == [[2, 1, 3]]
  {
    assert WellLinked(LoopAndBranch);
    assert Paths(LoopAndBranch, 0, [2, 1, 0], {}) == [];
    assert Paths(LoopAndBranch, 3, [2, 1, 3], {}) == [[2, 1, 3]];
    assert [2, 1] + [0] == [2, 1, 0] && [2, 1] + [3] == [2, 1, 3];
    assert PathsThrough(LoopAndBranch, 1, 2, [2, 1], {}) == [];
    assert PathsThrough(LoopAndBranch, 1, 1, [2, 1], {}) == [[2, 1, 3]];
    assert PathsThrough(LoopAndBranch, 1, 0, [2, 1], {}) == [[2, 1, 3]];
  }
}
