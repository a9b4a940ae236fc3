/**
 * The heap graph of `_DataLeaks` in src/leak_finder_unittest.py and the
 * leaks `FindLeaks` reports on it with the container `container` and the
 * bad stop node `bad`. Node `nK` of the test is arena position `K - 1`;
 * `n8` and `n9` repeat the ids of `n6` and `n7`.
 */
module LeakExamples {
  import opened Wrappers
  import opened PyText
  import opened HeapGraph
  import opened Retention
  import opened LeakFinding

  function Object(id: int, from: seq<Edge>, to: seq<Edge>): Node {
    Node(id, "object", "Object", "", from, to)
  }

  const ContainerEdge: Edge := Edge(1, 2, "property", "container", 0, 1)
  const Element0: Edge := Edge(2, 3, "element", "0", 1, 2)
  const Element1: Edge := Edge(2, 4, "element", "1", 1, 3)
  const Element2: Edge := Edge(2, 5, "element", "2", 1, 4)
  const EdgeA: Edge := Edge(6, 4, "property", "a", 5, 3)
  const EdgeB: Edge := Edge(7, 5, "property", "b", 6, 4)
  const BadEdge: Edge := Edge(6, 6, "property", "bad", 7, 5)
  const GoodEdge: Edge := Edge(7, 7, "property", "good", 8, 6)

  /**
   * (n1) -container-> (n2) -[0]-> (n3)
   *                   (n2) -[1]-> (n4) <-a- (n6) <-bad- (n8)
   *                   (n2) -[2]-> (n5) <-b- (n7) <-good- (n9)
   */
  const DataLeaks: Graph := [
    Object(1, [ContainerEdge], []),
    Node(2, "array", "Array", "", [Element0, Element1, Element2], [ContainerEdge]),
    Object(3, [], [Element0]),
    Object(4, [], [Element1, EdgeA]),
    Object(5, [], [Element2, EdgeB]),
    Object(6, [EdgeA], [BadEdge]),
    Object(7, [EdgeB], [GoodEdge]),
    Object(6, [BadEdge], []),
    Object(7, [GoodEdge], [])]

  /** The finder of `testFindLeaksBranch`, its descriptions already split. */
  const Finder: LeakFinder := LeakFinder([["container"]], [["bad"]], "", "")

  /** A one-description list without a dot splits into one one-link chain. */
  lemma SplitAllSingle(d: string)
    requires '.' !in d
    ensures SplitAll([d]) == [[d]]
  {
    SplitWithout(d, '.');
    assert SplitAll([d])[0] == [d];
  }

  /** `LeakFinder(['container'], ['bad'], '', '')` is `Finder`. */
  lemma FinderDescriptions()
    ensures NewLeakFinder(["container"], ["bad"], "", "") == Finder
  {
    SplitAllSingle("container");
    SplitAllSingle("bad");
  }

  /*
   * The lemmas below take the graph as a parameter equal to `DataLeaks`, so
   * that the verifier unfolds the search step by step as the proofs direct.
   */

  lemma DataLeaksWellLinked(g: Graph)
    requires g == DataLeaks
    ensures WellLinked(g)
  {
  }

  /** `n2` is the only node held by a `container` edge and `n6` the only one held by a `bad` edge. */
  lemma DataLeaksRetained(g: Graph, n: nat)
    requires g == DataLeaks && WellLinked(g) && n < |g|
    ensures RetainedBy(g, n, ["container"]) <==> n == 1
    ensures RetainedBy(g, n, ["bad"]) <==> n == 5
  {
    RetainedByStep(g, n, ["container"]);
    RetainedByStep(g, n, ["bad"]);
    assert ["container"][..0] == [] && ["bad"][..0] == [];
  }

  /** What the first loop of `FindLeaks` makes of node `n`. */
  lemma DataLeaksNode(g: Graph, n: nat)
    requires g == DataLeaks && WellLinked(g) && n < |g|
    ensures !IsWindow(g[n].className)
    ensures IsContainer(Finder, g, n) <==> n == 1
    ensures IsBadStop(Finder, g, n) <==> n == 1 || n == 5
    ensures n == 1 ==> ContainerName(Finder, g, n) == "container"
  {
    DataLeaksRetained(g, n);
    assert !IsWindow("Object") && !IsWindow("Array");
  }

  /** What the first loop of `FindLeaks` sees in the nodes of `DataLeaks`. */
  ghost predicate DataLeaksKinds(g: Graph) {
    WellLinked(g) && |g| == 9 &&
    forall n :: 0 <= n < |g| ==>
      !IsWindow(g[n].className) && (IsContainer(Finder, g, n) <==> n == 1) &&
      (IsBadStop(Finder, g, n) <==> n == 1 || n == 5) && (n == 1 ==> ContainerName(Finder, g, n) == "container")
  }

  lemma DataLeaksHasKinds(g: Graph)
    requires g == DataLeaks
    ensures DataLeaksKinds(g)
  {
    DataLeaksWellLinked(g);
    forall n | 0 <= n < |g|
      ensures !IsWindow(g[n].className) && (IsContainer(Finder, g, n) <==> n == 1) &&
              (IsBadStop(Finder, g, n) <==> n == 1 || n == 5) && (n == 1 ==> ContainerName(Finder, g, n) == "container")
    {
      DataLeaksNode(g, n);
    }
  }

  /** The stop and bad stop nodes after the first loop: `n2` and `n6`. */
  lemma DataLeaksStops(g: Graph)
    requires DataLeaksKinds(g)
    ensures Sorted(Finder, g, |g|).stop == {1, 5} && Sorted(Finder, g, |g|).bad == {1, 5}
  {
    SortedStops(Finder, g, |g|);
    var r := Sorted(Finder, g, |g|);
    forall m: nat ensures m in r.stop <==> m == 1 || m == 5 {
      if m < |g| {
        assert !IsWindow(g[m].className) && (IsBadStop(Finder, g, m) <==> m == 1 || m == 5);
      }
    }
    forall m: nat ensures m in r.bad <==> m == 1 || m == 5 {
      if m < |g| {
        assert IsBadStop(Finder, g, m) <==> m == 1 || m == 5;
      }
    }
  }

  /** The containers after the first loop: `n2` alone, named `container`. */
  lemma DataLeaksContainers(g: Graph)
    requires DataLeaksKinds(g)
    ensures Sorted(Finder, g, |g|).containers == [(1, "container")]
    ensures Sorted(Finder, g, |g|).found == {"container"}
  {
    var cs := Sorted(Finder, g, |g|).containers;
    SortedContainersAre(Finder, g, |g|);
    SortedContainersAll(Finder, g, |g|);
    SortedContainersOrdered(Finder, g, |g|);
    SortedFound(Finder, g, |g|);
    assert cs == Sorted(Finder, g, |g|).containers;
    forall j | 0 <= j < |cs| ensures cs[j] == (1, "container") {
      assert NamedContainer(Finder, g, cs[j]);
    }
    assert |cs| > 1 ==> cs[0].0 < cs[|cs| - 1].0;
    assert 1 < |g| && IsContainer(Finder, g, 1);
    assert exists j :: 0 <= j < |cs| && cs[j].0 == 1;
    assert cs != [];
    assert cs == [(1, "container")];
    assert Names(cs) == {"container"} by {
      assert cs[0].1 == "container";
    }
  }

  const Stop: set<nat> := {1, 5}

  /** `n3` is retained only through the container. */
  lemma FirstElement(g: Graph)
    requires g == DataLeaks && WellLinked(g)
    ensures Paths(g, 2, [2], Stop) == [[2, 1]]
  {
    assert [2] + [1] == [2, 1];
    assert Paths(g, 1, [2, 1], Stop) == [[2, 1]];
    assert PathsThrough(g, 2, 1, [2], Stop) == [];
    assert PathsThrough(g, 2, 0, [2], Stop) == [[2, 1]];
  }

  /** `n4` is retained through the container and through the bad stop node `n6`. */
  lemma SecondElement(g: Graph)
    requires g == DataLeaks && WellLinked(g)
    ensures Paths(g, 3, [3], Stop) == [[3, 1], [3, 5]]
  {
    assert [3] + [1] == [3, 1] && [3] + [5] == [3, 5];
    assert Paths(g, 1, [3, 1], Stop) == [[3, 1]];
    assert Paths(g, 5, [3, 5], Stop) == [[3, 5]];
    assert PathsThrough(g, 3, 2, [3], Stop) == [];
    assert PathsThrough(g, 3, 1, [3], Stop) == [[3, 5]];
    assert PathsThrough(g, 3, 0, [3], Stop) == [[3, 1], [3, 5]];
  }

  /** From `n5`, `n7` is retained only by `n9`, which nothing retains. */
  lemma ThirdElementGood(g: Graph)
    requires g == DataLeaks && WellLinked(g)
    ensures Paths(g, 6, [4, 6], Stop) == [[4, 6, 8]]
  {
    assert [4, 6] + [8] == [4, 6, 8];
    assert Paths(g, 8, [4, 6, 8], Stop) == [[4, 6, 8]];
    assert PathsThrough(g, 6, 1, [4, 6], Stop) == [];
    assert PathsThrough(g, 6, 0, [4, 6], Stop) == [[4, 6, 8]];
  }

  /** `n5` is retained through the container and along `n7`, `n9`. */
  lemma ThirdElement(g: Graph)
    requires g == DataLeaks && WellLinked(g)
    ensures Paths(g, 4, [4], Stop) == [[4, 1], [4, 6, 8]]
  {
    ThirdElementGood(g);
    assert [4] + [1] == [4, 1] && [4] + [6] == [4, 6];
    assert Paths(g, 1, [4, 1], Stop) == [[4, 1]];
    assert PathsThrough(g, 4, 2, [4], Stop) == [];
    assert PathsThrough(g, 4, 1, [4], Stop) == [[4, 6, 8]];
    assert PathsThrough(g, 4, 0, [4], Stop) == [[4, 1], [4, 6, 8]];
  }

  const Leak0: LeakNode := LeakNode(2, "Leak", "container[0]", "")
  const Leak1: LeakNode := LeakNode(3, "Leak", "container[1]", "")

  /** The element `[0]` of `n2` leaks. */
  lemma DataLeaksScanFirst(g: Graph)
    requires g == DataLeaks && WellLinked(g)
    ensures ScanEdges(Finder, g, Stop, 1, "container", 1, Scan(Stop, [])) == Scan(Stop, [Leak0])
  {
    FirstElement(g);
    assert g[1].edgesFrom[0] == Element0;
    assert FirstGood([[2, 1]], Stop) == None;
    assert Locator(Finder, "container", "0") == "container[0]";
    assert ScanEdges(Finder, g, Stop, 1, "container", 0, Scan(Stop, [])) == Scan(Stop, []);
  }

  /** The element `[1]` of `n2` leaks. */
  lemma DataLeaksScanSecond(g: Graph)
    requires g == DataLeaks && WellLinked(g)
    ensures ScanEdges(Finder, g, Stop, 1, "container", 2, Scan(Stop, [])) == Scan(Stop, [Leak0, Leak1])
  {
    DataLeaksScanFirst(g);
    SecondElement(g);
    assert g[1].edgesFrom[1] == Element1;
    assert FirstGood([[3, 1], [3, 5]], Stop) == None;
    assert Locator(Finder, "container", "1") == "container[1]";
    assert [Leak0] + [Leak1] == [Leak0, Leak1];
  }

  /** The last loop over the elements of `n2`: `[0]` and `[1]` leak, `[2]` has a good path. */
  lemma DataLeaksScan(g: Graph)
    requires g == DataLeaks && WellLinked(g)
    ensures ScanContainers(Finder, g, Stop, [(1, "container")], 1, Scan(Stop, [])) ==
      Scan(Stop + {4, 6, 8}, [Leak0, Leak1])
  {
    DataLeaksScanSecond(g);
    ThirdElement(g);
    assert g[1].edgesFrom[2] == Element2 && |g[1].edgesFrom| == 3;
    assert FirstGood([[4, 1], [4, 6, 8]], Stop) == Some([4, 6, 8]);
    var p := [4, 6, 8];
    assert p[0] == 4 && p[1] == 6 && p[2] == 8;
    assert Elems(p) == {4, 6, 8};
    assert ScanEdges(Finder, g, Stop, 1, "container", 3, Scan(Stop, [])) == Scan(Stop + {4, 6, 8}, [Leak0, Leak1]);
  }

  /** `testFindLeaksBranch`: `n3` and `n4` leak, `n5` does not. */
  lemma DataLeaksFound(g: Graph)
    requires g == DataLeaks
    ensures WellLinked(g)
    ensures Leaks(Finder, g) == Ok([Leak0, Leak1])
  {
    DataLeaksHasKinds(g);
    DataLeaksStops(g);
    DataLeaksContainers(g);
    DataLeaksScan(g);
    assert MissingContainer(Finder.containerDescription, {"container"}, 0) == None;
  }
}
