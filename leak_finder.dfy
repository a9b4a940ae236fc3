/**
 * `LeakFinder.FindLeaks` of src/leak_finder.py on a linked heap graph: it
 * sorts the nodes into Window stop nodes, bad stop nodes and containers,
 * checks that every container was found, and reports each element of a
 * container none of whose retaining paths ends outside the bad stop nodes.
 * The sets `stop_nodes`, `bad_stop_nodes` and `containers` grow as the
 * loops run; the functions below say what they hold after each step.
 */
module LeakFinding {
  import opened Wrappers
  import opened PyText
  import opened HeapGraph
  import opened Retention

  /** `LeakNode`: the leaked object, a description, the expression that finds it, the stack member name. */
  datatype LeakNode = LeakNode(node: nat, description: string, howToFindNode: string, stacktraceSuffix: string)

  /** The `Error` raised when a container description matched no node. */
  datatype FindError = ContainerNotFound(description: string)

  /** The descriptions of a `LeakFinder`, split at `.`, and the stack trace affixes. */
  datatype LeakFinder = LeakFinder(
    containerDescription: seq<seq<string>>, badStopNodeDescription: seq<seq<string>>,
    stacktracePrefix: string, stacktraceSuffix: string)
  {
    /**
     * `FindLeaks(nodes)`: the first loop sorts the nodes, the second checks
     * the containers, the last scans the elements of each container,
     * growing the stop nodes by every good path it finds.
     */
    method FindLeaks(g: Graph) returns (r: Result<seq<LeakNode>, FindError>)
      requires WellLinked(g)
      ensures r == Leaks(this, g)
    {
      var roles := SortNodes(this, g);
      var missing := CheckContainers(containerDescription, roles.found);
      if missing.Some? {
        return Err(ContainerNotFound(missing.value));
      }
      var stop, leaks := roles.stop, [];
      var j := 0;
      while j < |roles.containers|
        invariant j <= |roles.containers|
        invariant Scan(stop, leaks) == ScanContainers(this, g, roles.bad, roles.containers, j, Scan(roles.stop, []))
      {
        var (c, name) := roles.containers[j];
        stop, leaks := ScanContainer(this, g, roles.bad, c, name, stop, leaks);
        j := j + 1;
      }
      return Ok(leaks);
    }
  }

  function SplitAll(descriptions: seq<string>): (r: seq<seq<string>>)
    ensures |r| == |descriptions|
  {
    seq(|descriptions|, i requires 0 <= i < |descriptions| => Split(descriptions[i], '.'))
  }

  /** `LeakFinder.__init__`. */
  function NewLeakFinder(containers: seq<string>, badStops: seq<string>, prefix: string, suffix: string): LeakFinder {
    LeakFinder(SplitAll(containers), SplitAll(badStops), prefix, suffix)
  }

  /** The name of a description, `'.'.join(edges)`. */
  function DescriptionName(edges: seq<string>): string {
    Join(edges, '.')
  }

  /** Each split description joins back to the description it was given as. */
  lemma DescriptionsRoundTrip(containers: seq<string>, badStops: seq<string>, prefix: string, suffix: string)
    ensures var lf := NewLeakFinder(containers, badStops, prefix, suffix);
      |lf.containerDescription| == |containers| && |lf.badStopNodeDescription| == |badStops| &&
      (forall i :: 0 <= i < |containers| ==> DescriptionName(lf.containerDescription[i]) == containers[i]) &&
      (forall i :: 0 <= i < |badStops| ==> DescriptionName(lf.badStopNodeDescription[i]) == badStops[i])
  {
    forall i | 0 <= i < |containers| ensures DescriptionName(SplitAll(containers)[i]) == containers[i] {
      JoinSplit(containers[i], '.');
    }
    forall i | 0 <= i < |badStops| ensures DescriptionName(SplitAll(badStops)[i]) == badStops[i] {
      JoinSplit(badStops[i], '.');
    }
  }

  // ---------------------------------------------------------------------
  // Sorting the nodes

  /** Window objects are good stop nodes. */
  predicate IsWindow(className: string) {
    className == "Window" || StartsWith(className, "Window / ")
  }

  /** The first of `descriptions`, from `i` on, that retains node `n` (the `for ...: if ...: break`). */
  function FirstRetaining(g: Graph, n: nat, descriptions: seq<seq<string>>, i: nat): (r: Option<nat>)
    requires WellLinked(g) && n < |g|
    ensures r.Some? ==> i <= r.value < |descriptions|
    decreases |descriptions| - i
  {
    if i >= |descriptions| then None
    else if RetainedBy(g, n, descriptions[i]) then Some(i)
    else FirstRetaining(g, n, descriptions, i + 1)
  }

  lemma {:induction false} FirstRetainingIsFirst(g: Graph, n: nat, descriptions: seq<seq<string>>, i: nat)
    requires WellLinked(g) && n < |g|
    ensures FirstRetaining(g, n, descriptions, i).None? <==>
      forall j :: i <= j < |descriptions| ==> !RetainedBy(g, n, descriptions[j])
    ensures FirstRetaining(g, n, descriptions, i).Some? ==>
      var j := FirstRetaining(g, n, descriptions, i).value;
      i <= j < |descriptions| && RetainedBy(g, n, descriptions[j]) &&
      forall j' :: i <= j' < j ==> !RetainedBy(g, n, descriptions[j'])
    decreases |descriptions| - i
  {
    if i < |descriptions| && !RetainedBy(g, n, descriptions[i]) {
      FirstRetainingIsFirst(g, n, descriptions, i + 1);
    }
  }

  /** The loop over descriptions, stopping at the first that retains `n`. */
  method MatchDescription(g: Graph, n: nat, descriptions: seq<seq<string>>) returns (r: Option<nat>)
    requires WellLinked(g) && n < |g|
    ensures r == FirstRetaining(g, n, descriptions, 0)
  {
    var i := 0;
    while i < |descriptions|
      invariant i <= |descriptions|
      invariant FirstRetaining(g, n, descriptions, 0) == FirstRetaining(g, n, descriptions, i)
    {
      if RetainedBy(g, n, descriptions[i]) {
        return Some(i);
      }
      i := i + 1;
    }
    return None;
  }

  /**
   * The sets the first loop of `FindLeaks` builds: `stop_nodes`,
   * `bad_stop_nodes`, the containers with their `container_name` (in the
   * order they were found) and `found_container_edges`.
   */
  datatype Roles = Roles(stop: set<nat>, bad: set<nat>, containers: seq<(nat, string)>, found: set<string>)

  /** What the first loop does with node `n`. */
  function SortNode(lf: LeakFinder, g: Graph, r: Roles, n: nat): Roles
    requires WellLinked(g) && n < |g|
  {
    if IsWindow(g[n].className) then r.(stop := r.stop + {n})
    else
      var r1 := if FirstRetaining(g, n, lf.badStopNodeDescription, 0).Some?
                then r.(stop := r.stop + {n}, bad := r.bad + {n}) else r;
      match FirstRetaining(g, n, lf.containerDescription, 0)
      case None => r1
      case Some(i) =>
        var name := DescriptionName(lf.containerDescription[i]);
        r1.(containers := r1.containers + [(n, name)], stop := r1.stop + {n}, bad := r1.bad + {n},
            found := r1.found + {name})
  }

  /** The first loop of `FindLeaks` over the nodes before `n`, in arena order. */
  function Sorted(lf: LeakFinder, g: Graph, n: nat): (r: Roles)
    requires WellLinked(g) && n <= |g|
    ensures forall j :: 0 <= j < |r.containers| ==> r.containers[j].0 < n
  {
    if n == 0 then Roles({}, {}, [], {}) else SortNode(lf, g, Sorted(lf, g, n - 1), n - 1)
  }

  /** Node `n` is a container: some container description retains it. */
  predicate IsContainer(lf: LeakFinder, g: Graph, n: nat)
    requires WellLinked(g) && n < |g|
  {
    !IsWindow(g[n].className) && FirstRetaining(g, n, lf.containerDescription, 0).Some?
  }

  /** Some container node was given the `container_name` `name`. */
  ghost predicate FoundContainer(lf: LeakFinder, g: Graph, name: string)
    requires WellLinked(g)
  {
    exists m: nat :: m < |g| && IsContainer(lf, g, m) && ContainerName(lf, g, m) == name
  }

  /** Node `n` is a bad stop node: a container or retained as a bad stop description says. */
  predicate IsBadStop(lf: LeakFinder, g: Graph, n: nat)
    requires WellLinked(g) && n < |g|
  {
    !IsWindow(g[n].className) &&
    (FirstRetaining(g, n, lf.badStopNodeDescription, 0).Some? || IsContainer(lf, g, n))
  }

  /** The `container_name` a container gets: the name of the first container description that retains it. */
  function ContainerName(lf: LeakFinder, g: Graph, n: nat): string
    requires WellLinked(g) && n < |g| && IsContainer(lf, g, n)
  {
    DescriptionName(lf.containerDescription[FirstRetaining(g, n, lf.containerDescription, 0).value])
  }

  /** What the first loop adds for node `n`. */
  lemma SortNodeAdds(lf: LeakFinder, g: Graph, r: Roles, n: nat)
    requires WellLinked(g) && n < |g|
    ensures var r' := SortNode(lf, g, r, n);
      r'.stop == r.stop + (if IsWindow(g[n].className) || IsBadStop(lf, g, n) then {n} else {}) &&
      r'.bad == r.bad + (if IsBadStop(lf, g, n) then {n} else {}) &&
      r'.containers == r.containers + (if IsContainer(lf, g, n) then [(n, ContainerName(lf, g, n))] else []) &&
      r'.found == r.found + (if IsContainer(lf, g, n) then {ContainerName(lf, g, n)} else {})
  {
  }

  /**
   * After the first loop: the stop nodes are the Window nodes and the bad
   * stop nodes, and the bad stop nodes are exactly the containers and the
   * nodes a bad stop description retains (so a Window node is never bad).
   */
  lemma {:induction false} SortedStops(lf: LeakFinder, g: Graph, n: nat)
    requires WellLinked(g) && n <= |g|
    ensures forall m: nat :: m in Sorted(lf, g, n).stop <==> m < n && (IsWindow(g[m].className) || IsBadStop(lf, g, m))
    ensures forall m: nat :: m in Sorted(lf, g, n).bad <==> m < n && IsBadStop(lf, g, m)
  {
    if n > 0 {
      SortedStops(lf, g, n - 1);
      SortNodeAdds(lf, g, Sorted(lf, g, n - 1), n - 1);
    }
  }

  /** `c` is a container node paired with its `container_name`. */
  predicate NamedContainer(lf: LeakFinder, g: Graph, c: (nat, string))
    requires WellLinked(g)
  {
    c.0 < |g| && IsContainer(lf, g, c.0) && c.1 == ContainerName(lf, g, c.0)
  }

  /** The first loop appends node `n - 1` to the containers exactly when it is a container. */
  lemma SortedContainersStep(lf: LeakFinder, g: Graph, n: nat)
    requires WellLinked(g) && 0 < n <= |g|
    ensures IsContainer(lf, g, n - 1) ==>
      Sorted(lf, g, n).containers == Sorted(lf, g, n - 1).containers + [(n - 1, ContainerName(lf, g, n - 1))]
    ensures !IsContainer(lf, g, n - 1) ==> Sorted(lf, g, n).containers == Sorted(lf, g, n - 1).containers
  {
    SortNodeAdds(lf, g, Sorted(lf, g, n - 1), n - 1);
  }

  /** After the first loop each container is a container node with its `container_name`. */
  lemma {:induction false} SortedContainersAre(lf: LeakFinder, g: Graph, n: nat)
    requires WellLinked(g) && n <= |g|
    ensures var cs := Sorted(lf, g, n).containers;
      forall j :: 0 <= j < |cs| ==> NamedContainer(lf, g, cs[j])
  {
    if n > 0 {
      SortedContainersAre(lf, g, n - 1);
      SortedContainersStep(lf, g, n);
      var cs0 := Sorted(lf, g, n - 1).containers;
      var cs := Sorted(lf, g, n).containers;
      forall j | 0 <= j < |cs| ensures NamedContainer(lf, g, cs[j]) {
        if j < |cs0| {
          assert cs[j] == cs0[j];
        }
      }
    }
  }

  /** After the first loop every container node is among the containers. */
  lemma {:induction false} SortedContainersAll(lf: LeakFinder, g: Graph, n: nat)
    requires WellLinked(g) && n <= |g|
    ensures var cs := Sorted(lf, g, n).containers;
      forall m: nat :: m < n && IsContainer(lf, g, m) ==> exists j :: 0 <= j < |cs| && cs[j].0 == m
  {
    if n > 0 {
      SortedContainersAll(lf, g, n - 1);
      SortedContainersStep(lf, g, n);
      var cs0 := Sorted(lf, g, n - 1).containers;
      var cs := Sorted(lf, g, n).containers;
      forall m: nat | m < n && IsContainer(lf, g, m) ensures exists j :: 0 <= j < |cs| && cs[j].0 == m {
        if m == n - 1 {
          assert cs[|cs0|].0 == n - 1;
        } else {
          var j :| 0 <= j < |cs0| && cs0[j].0 == m;
          assert cs[j] == cs0[j];
        }
      }
    }
  }

  /** The containers come in arena order, each once. */
  lemma {:induction false} SortedContainersOrdered(lf: LeakFinder, g: Graph, n: nat)
    requires WellLinked(g) && n <= |g|
    ensures var cs := Sorted(lf, g, n).containers;
      forall j, j' :: 0 <= j < j' < |cs| ==> cs[j].0 < cs[j'].0
  {
    if n > 0 {
      SortedContainersOrdered(lf, g, n - 1);
      SortedContainersStep(lf, g, n);
      var cs0 := Sorted(lf, g, n - 1).containers;
      var cs := Sorted(lf, g, n).containers;
      forall j, j' | 0 <= j < j' < |cs| ensures cs[j].0 < cs[j'].0 {
        assert cs[j] == cs0[j];
        if j' < |cs0| {
          assert cs[j'] == cs0[j'];
        }
      }
    }
  }

  /** The names the containers in `cs` were given. */
  function Names(cs: seq<(nat, string)>): (names: set<string>)
    ensures forall name :: name in names <==> exists j :: 0 <= j < |cs| && cs[j].1 == name
  {
    set j | 0 <= j < |cs| :: cs[j].1
  }

  lemma NamesAppend(cs: seq<(nat, string)>, x: (nat, string))
    ensures Names(cs + [x]) == Names(cs) + {x.1}
  {
    var cs' := cs + [x];
    forall name | name in Names(cs') ensures name in Names(cs) + {x.1} {
      var j :| 0 <= j < |cs'| && cs'[j].1 == name;
      if j < |cs| {
        assert cs[j].1 == name;
      }
    }
    forall name | name in Names(cs) ensures name in Names(cs') {
      var j :| 0 <= j < |cs| && cs[j].1 == name;
      assert cs'[j].1 == name;
    }
    assert cs'[|cs|].1 == x.1;
  }

  /** The first loop adds the `container_name` of node `n - 1` when it is a container. */
  lemma SortedFoundStep(lf: LeakFinder, g: Graph, n: nat)
    requires WellLinked(g) && 0 < n <= |g|
    ensures IsContainer(lf, g, n - 1) ==>
      Sorted(lf, g, n).found == Sorted(lf, g, n - 1).found + {ContainerName(lf, g, n - 1)}
    ensures !IsContainer(lf, g, n - 1) ==> Sorted(lf, g, n).found == Sorted(lf, g, n - 1).found
  {
    SortNodeAdds(lf, g, Sorted(lf, g, n - 1), n - 1);
  }

  /** `found_container_edges` holds exactly the names of the containers. */
  lemma {:induction false} SortedFound(lf: LeakFinder, g: Graph, n: nat)
    requires WellLinked(g) && n <= |g|
    ensures Sorted(lf, g, n).found == Names(Sorted(lf, g, n).containers)
  {
    if n > 0 {
      SortedFound(lf, g, n - 1);
      SortedContainersStep(lf, g, n);
      SortedFoundStep(lf, g, n);
      if IsContainer(lf, g, n - 1) {
        NamesAppend(Sorted(lf, g, n - 1).containers, (n - 1, ContainerName(lf, g, n - 1)));
      }
    }
  }

  /** The first loop of `FindLeaks`. */
  method SortNodes(lf: LeakFinder, g: Graph) returns (r: Roles)
    requires WellLinked(g)
    ensures r == Sorted(lf, g, |g|)
  {
    var stop: set<nat> := {};
    var bad: set<nat> := {};
    var containers: seq<(nat, string)> := [];
    var found: set<string> := {};
    var n := 0;
    while n < |g|
      invariant n <= |g| && Roles(stop, bad, containers, found) == Sorted(lf, g, n)
    {
      if IsWindow(g[n].className) {
        stop := stop + {n};
      } else {
        var b := MatchDescription(g, n, lf.badStopNodeDescription);
        if b.Some? {
          stop := stop + {n};
          bad := bad + {n};
        }
        var c := MatchDescription(g, n, lf.containerDescription);
        if c.Some? {
          var name := DescriptionName(lf.containerDescription[c.value]);
          containers := containers + [(n, name)];
          stop := stop + {n};
          bad := bad + {n};
          found := found + {name};
        }
      }
      n := n + 1;
    }
    return Roles(stop, bad, containers, found);
  }

  // ---------------------------------------------------------------------
  // Checking the containers

  /** The first container description, from `i` on, whose name was not found. */
  function MissingContainer(descriptions: seq<seq<string>>, found: set<string>, i: nat): (r: Option<string>)
    decreases |descriptions| - i
  {
    if i >= |descriptions| then None
    else if DescriptionName(descriptions[i]) !in found then Some(DescriptionName(descriptions[i]))
    else MissingContainer(descriptions, found, i + 1)
  }

  lemma {:induction false} MissingContainerIsMissing(descriptions: seq<seq<string>>, found: set<string>, i: nat)
    ensures MissingContainer(descriptions, found, i).None? <==>
      forall j :: i <= j < |descriptions| ==> DescriptionName(descriptions[j]) in found
    ensures MissingContainer(descriptions, found, i).Some? ==>
      MissingContainer(descriptions, found, i).value !in found &&
      exists j :: i <= j < |descriptions| && DescriptionName(descriptions[j]) == MissingContainer(descriptions, found, i).value &&
        forall k :: i <= k < j ==> DescriptionName(descriptions[k]) in found
    decreases |descriptions| - i
  {
    if i < |descriptions| && DescriptionName(descriptions[i]) in found {
      MissingContainerIsMissing(descriptions, found, i + 1);
    }
  }

  /** The check that every container was found. */
  method CheckContainers(descriptions: seq<seq<string>>, found: set<string>) returns (r: Option<string>)
    ensures r == MissingContainer(descriptions, found, 0)
  {
    var i := 0;
    while i < |descriptions|
      invariant i <= |descriptions|
      invariant MissingContainer(descriptions, found, 0) == MissingContainer(descriptions, found, i)
    {
      var description := DescriptionName(descriptions[i]);
      if description !in found {
        return Some(description);
      }
      i := i + 1;
    }
    return None;
  }

  // ---------------------------------------------------------------------
  // Scanning the container elements

  /** The state of the last loop of `FindLeaks`: `stop_nodes` and the leaks yielded so far. */
  datatype Scan = Scan(stop: set<nat>, leaks: seq<LeakNode>)

  function Elems(p: seq<nat>): set<nat> {
    set i | 0 <= i < |p| :: p[i]
  }

  /** The `'%s%s[%s]'` expression that finds an element of a container. */
  function Locator(lf: LeakFinder, name: string, key: string): string {
    lf.stacktracePrefix + name + "[" + key + "]"
  }

  /**
   * One edge of a container: an `element` edge whose target has a good
   * retaining path puts that path's nodes into the stop nodes; one without
   * is a leak.
   */
  function ScanEdge(lf: LeakFinder, g: Graph, bad: set<nat>, name: string, e: Edge, s: Scan): Scan
    requires WellLinked(g) && 0 <= e.to < |g|
  {
    if e.kind != "element" then s
    else
      match FirstGood(Paths(g, e.to, [e.to], s.stop), bad)
      case Some(p) => s.(stop := s.stop + Elems(p))
      case None => s.(leaks := s.leaks + [LeakNode(e.to, "Leak", Locator(lf, name, e.name), lf.stacktraceSuffix)])
  }

  /** The loop over the first `k` outgoing edges of container `c`. */
  function ScanEdges(lf: LeakFinder, g: Graph, bad: set<nat>, c: nat, name: string, k: nat, s: Scan): Scan
    requires WellLinked(g) && c < |g| && k <= |g[c].edgesFrom|
  {
    if k == 0 then s
    else ScanEdge(lf, g, bad, name, g[c].edgesFrom[k - 1], ScanEdges(lf, g, bad, c, name, k - 1, s))
  }

  /** The loop over the first `j` containers. */
  function ScanContainers(lf: LeakFinder, g: Graph, bad: set<nat>, containers: seq<(nat, string)>, j: nat, s: Scan): Scan
    requires WellLinked(g) && j <= |containers| && forall i :: 0 <= i < |containers| ==> containers[i].0 < |g|
  {
    if j == 0 then s
    else
      var (c, name) := containers[j - 1];
      ScanEdges(lf, g, bad, c, name, |g[c].edgesFrom|, ScanContainers(lf, g, bad, containers, j - 1, s))
  }

  /**
   * An element edge is a leak exactly when every retaining path of its
   * target (with the stop nodes of the moment) ends in a bad stop node; when
   * it is not, the stop nodes grow by the nodes of a good retaining path.
   */
  lemma ScanEdgeLeaks(lf: LeakFinder, g: Graph, bad: set<nat>, name: string, e: Edge, s: Scan)
    requires WellLinked(g) && 0 <= e.to < |g| && e.kind == "element"
    ensures var s' := ScanEdge(lf, g, bad, name, e, s);
      (s'.leaks == s.leaks + [LeakNode(e.to, "Leak", Locator(lf, name, e.name), lf.stacktraceSuffix)] && s'.stop == s.stop) ||
      (s'.leaks == s.leaks && exists p :: RetainingPath(g, p, s.stop) && p[0] == e.to && p[|p| - 1] !in bad &&
                                          s'.stop == s.stop + Elems(p))
    ensures |ScanEdge(lf, g, bad, name, e, s).leaks| == |s.leaks| + 1 <==>
      forall p :: RetainingPath(g, p, s.stop) && p[0] == e.to ==> p[|p| - 1] in bad
  {
    var ps := Paths(g, e.to, [e.to], s.stop);
    FirstGoodIsFirst(ps, bad);
    match FirstGood(ps, bad)
    case Some(p) =>
      PathsExactly(g, e.to, s.stop, p);
    case None =>
      forall p | RetainingPath(g, p, s.stop) && p[0] == e.to ensures p[|p| - 1] in bad {
        PathsExactly(g, e.to, s.stop, p);
        var i :| 0 <= i < |ps| && ps[i] == p;
      }
  }

  /** Leak `l` comes from the element edge `k` of container `c`, named `name`. */
  ghost predicate FromElement(lf: LeakFinder, g: Graph, c: nat, name: string, k: int, l: LeakNode) {
    c < |g| && 0 <= k < |g[c].edgesFrom| &&
    var e := g[c].edgesFrom[k];
    e.kind == "element" && 0 <= e.to && l == LeakNode(e.to, "Leak", Locator(lf, name, e.name), lf.stacktraceSuffix)
  }

  /** One edge of container `c`: the stop nodes only grow, and a leak it adds comes from that edge. */
  lemma ScanEdgeStep(lf: LeakFinder, g: Graph, bad: set<nat>, c: nat, name: string, k: nat, s: Scan)
    requires WellLinked(g) && c < |g| && k < |g[c].edgesFrom|
    ensures var s' := ScanEdge(lf, g, bad, name, g[c].edgesFrom[k], s);
      s.stop <= s'.stop && |s.leaks| <= |s'.leaks| <= |s.leaks| + 1 && s'.leaks[..|s.leaks|] == s.leaks &&
      (|s'.leaks| > |s.leaks| ==> FromElement(lf, g, c, name, k, s'.leaks[|s.leaks|]))
  {
    var e := g[c].edgesFrom[k];
    if e.kind == "element" {
      ScanEdgeLeaks(lf, g, bad, name, e, s);
    }
  }

  /** Leak `l` comes from some element edge of container `c`. */
  ghost predicate ElementLeak(lf: LeakFinder, g: Graph, c: nat, name: string, l: LeakNode) {
    exists k :: FromElement(lf, g, c, name, k, l)
  }

  /** The scan of container `c` keeps the leaks found before and adds only leaks of its element edges. */
  lemma {:induction false} ScanEdgesLeaks(lf: LeakFinder, g: Graph, bad: set<nat>, c: nat, name: string, k: nat, s: Scan)
    requires WellLinked(g) && c < |g| && k <= |g[c].edgesFrom|
    ensures var s' := ScanEdges(lf, g, bad, c, name, k, s);
      s.stop <= s'.stop && |s.leaks| <= |s'.leaks| && s'.leaks[..|s.leaks|] == s.leaks &&
      forall i :: |s.leaks| <= i < |s'.leaks| ==> ElementLeak(lf, g, c, name, s'.leaks[i])
  {
    if k > 0 {
      ScanEdgesLeaks(lf, g, bad, c, name, k - 1, s);
      var s0 := ScanEdges(lf, g, bad, c, name, k - 1, s);
      ScanEdgeStep(lf, g, bad, c, name, k - 1, s0);
      var s' := ScanEdges(lf, g, bad, c, name, k, s);
      assert s' == ScanEdge(lf, g, bad, name, g[c].edgesFrom[k - 1], s0);
      assert s'.leaks[..|s.leaks|] == s'.leaks[..|s0.leaks|][..|s.leaks|];
      forall i | |s.leaks| <= i < |s'.leaks| ensures ElementLeak(lf, g, c, name, s'.leaks[i]) {
        if i < |s0.leaks| {
          assert s'.leaks[i] == s'.leaks[..|s0.leaks|][i] == s0.leaks[i];
        } else {
          assert FromElement(lf, g, c, name, k - 1, s'.leaks[i]);
        }
      }
    } else {
      assert ScanEdges(lf, g, bad, c, name, k, s) == s;
    }
  }

  /** The scan of the first `j` containers yields only leaks of the element edges of those containers. */
  lemma {:induction false} ScanContainersLeaks(lf: LeakFinder, g: Graph, bad: set<nat>, containers: seq<(nat, string)>, j: nat, s: Scan)
    requires WellLinked(g) && j <= |containers| && forall i :: 0 <= i < |containers| ==> containers[i].0 < |g|
    ensures var s' := ScanContainers(lf, g, bad, containers, j, s);
      s.stop <= s'.stop && |s.leaks| <= |s'.leaks| && s'.leaks[..|s.leaks|] == s.leaks &&
      forall i :: |s.leaks| <= i < |s'.leaks| ==>
        exists ci :: 0 <= ci < j && ElementLeak(lf, g, containers[ci].0, containers[ci].1, s'.leaks[i])
  {
    if j > 0 {
      ScanContainersLeaks(lf, g, bad, containers, j - 1, s);
      var s0 := ScanContainers(lf, g, bad, containers, j - 1, s);
      var (c, name) := containers[j - 1];
      ScanEdgesLeaks(lf, g, bad, c, name, |g[c].edgesFrom|, s0);
      var s' := ScanContainers(lf, g, bad, containers, j, s);
      assert s' == ScanEdges(lf, g, bad, c, name, |g[c].edgesFrom|, s0);
      assert s'.leaks[..|s.leaks|] == s'.leaks[..|s0.leaks|][..|s.leaks|];
      forall i | |s.leaks| <= i < |s'.leaks|
        ensures exists ci :: 0 <= ci < j && ElementLeak(lf, g, containers[ci].0, containers[ci].1, s'.leaks[i])
      {
        if i < |s0.leaks| {
          assert s'.leaks[i] == s'.leaks[..|s0.leaks|][i] == s0.leaks[i];
          var ci :| 0 <= ci < j - 1 && ElementLeak(lf, g, containers[ci].0, containers[ci].1, s0.leaks[i]);
          assert ElementLeak(lf, g, containers[ci].0, containers[ci].1, s'.leaks[i]);
        } else {
          assert ElementLeak(lf, g, containers[j - 1].0, containers[j - 1].1, s'.leaks[i]);
        }
      }
    } else {
      assert ScanContainers(lf, g, bad, containers, j, s) == s;
    }
  }

  /** What `FindLeaks(nodes)` yields for the nodes of `g`, or the error it raises. */
  function Leaks(lf: LeakFinder, g: Graph): Result<seq<LeakNode>, FindError>
    requires WellLinked(g)
  {
    var roles := Sorted(lf, g, |g|);
    match MissingContainer(lf.containerDescription, roles.found, 0)
    case Some(name) => Err(ContainerNotFound(name))
    case None =>
      Ok(ScanContainers(lf, g, roles.bad, roles.containers, |roles.containers|, Scan(roles.stop, [])).leaks)
  }

  /**
   * `FindLeaks` raises its error exactly when some container description
   * names no container node; the error names the first such description.
   */
  lemma LeaksFails(lf: LeakFinder, g: Graph)
    requires WellLinked(g)
    ensures Leaks(lf, g).Err? <==>
      exists i :: 0 <= i < |lf.containerDescription| && !FoundContainer(lf, g, DescriptionName(lf.containerDescription[i]))
    ensures Leaks(lf, g).Err? ==>
      exists i :: 0 <= i < |lf.containerDescription| &&
        Leaks(lf, g).error.description == DescriptionName(lf.containerDescription[i]) &&
        !FoundContainer(lf, g, DescriptionName(lf.containerDescription[i])) &&
        forall j :: 0 <= j < i ==> FoundContainer(lf, g, DescriptionName(lf.containerDescription[j]))
  {
    var found := Sorted(lf, g, |g|).found;
    SortedFoundContainers(lf, g);
    MissingContainerIsMissing(lf.containerDescription, found, 0);
  }

  /** After the first loop `found_container_edges` holds exactly the names given to container nodes. */
  lemma SortedFoundContainers(lf: LeakFinder, g: Graph)
    requires WellLinked(g)
    ensures forall name :: name in Sorted(lf, g, |g|).found <==> FoundContainer(lf, g, name)
  {
    var roles := Sorted(lf, g, |g|);
    SortedFound(lf, g, |g|);
    SortedContainersAre(lf, g, |g|);
    SortedContainersAll(lf, g, |g|);
    forall name ensures name in roles.found <==> FoundContainer(lf, g, name) {
      if name in roles.found {
        var j :| 0 <= j < |roles.containers| && roles.containers[j].1 == name;
        assert NamedContainer(lf, g, roles.containers[j]);
      }
      if FoundContainer(lf, g, name) {
        var m: nat :| m < |g| && IsContainer(lf, g, m) && ContainerName(lf, g, m) == name;
        var j :| 0 <= j < |roles.containers| && roles.containers[j].0 == m;
        assert NamedContainer(lf, g, roles.containers[j]);
      }
    }
  }

  /**
   * Every leak `FindLeaks` yields is the target of an `element` edge of a
   * container node, found by the container's name and the edge's name.
   */
  lemma LeaksAreElements(lf: LeakFinder, g: Graph)
    requires WellLinked(g)
    ensures Leaks(lf, g).Ok? ==>
      forall l :: l in Leaks(lf, g).value ==>
        exists m: nat :: m < |g| && IsContainer(lf, g, m) && ElementLeak(lf, g, m, ContainerName(lf, g, m), l)
  {
    var roles := Sorted(lf, g, |g|);
    if Leaks(lf, g).Ok? {
      var s := Scan(roles.stop, []);
      ScanContainersLeaks(lf, g, roles.bad, roles.containers, |roles.containers|, s);
      SortedContainersAre(lf, g, |g|);
      assert roles == Sorted(lf, g, |g|);
      var leaks := Leaks(lf, g).value;
      assert leaks == ScanContainers(lf, g, roles.bad, roles.containers, |roles.containers|, s).leaks;
      forall l | l in leaks
        ensures exists m: nat :: m < |g| && IsContainer(lf, g, m) && ElementLeak(lf, g, m, ContainerName(lf, g, m), l)
      {
        var i :| 0 <= i < |leaks| && leaks[i] == l;
        var ci :| 0 <= ci < |roles.containers| && ElementLeak(lf, g, roles.containers[ci].0, roles.containers[ci].1, l);
        var m := roles.containers[ci].0;
        assert NamedContainer(lf, g, roles.containers[ci]);
        assert IsContainer(lf, g, m) && ElementLeak(lf, g, m, ContainerName(lf, g, m), l);
      }
    }
  }

  /** `for node in path: stop_nodes.add(node)`. */
  method AddPath(stop: set<nat>, p: seq<nat>) returns (stop': set<nat>)
    ensures stop' == stop + Elems(p)
  {
    stop' := stop;
    var i := 0;
    while i < |p|
      invariant i <= |p| && stop' == stop + Elems(p[..i])
    {
      assert Elems(p[..i + 1]) == Elems(p[..i]) + {p[i]} by {
        assert forall x :: x in p[..i + 1] <==> x in p[..i] || x == p[i];
      }
      stop' := stop' + {p[i]};
      i := i + 1;
    }
    assert p[..i] == p;
  }

  /** The loop over the outgoing edges of container `c`. */
  method ScanContainer(lf: LeakFinder, g: Graph, bad: set<nat>, c: nat, name: string, stop0: set<nat>, leaks0: seq<LeakNode>)
    returns (stop: set<nat>, leaks: seq<LeakNode>)
    requires WellLinked(g) && c < |g|
    ensures Scan(stop, leaks) == ScanEdges(lf, g, bad, c, name, |g[c].edgesFrom|, Scan(stop0, leaks0))
  {
    stop, leaks := stop0, leaks0;
    var edges := g[c].edgesFrom;
    var k := 0;
    while k < |edges|
      invariant k <= |edges| && Scan(stop, leaks) == ScanEdges(lf, g, bad, c, name, k, Scan(stop0, leaks0))
    {
      var e := edges[k];
      if e.kind == "element" {
        var p := FindGoodPath(g, e.to, [e.to], stop, bad);
        if p.Some? {
          stop := AddPath(stop, p.value);
        } else {
          leaks := leaks + [LeakNode(e.to, "Leak", Locator(lf, name, e.name), lf.stacktraceSuffix)];
        }
      }
      k := k + 1;
    }
  }
}
