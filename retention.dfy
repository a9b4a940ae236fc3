/**
 * The retention queries of `LeakFinder` in src/leak_finder.py, on a linked
 * heap graph: whether a node is reached by a chain of named properties
 * (`_IsRetainedByEdges`), the retaining paths of a node found by a
 * depth-bounded backwards search (`_FindRetainingPaths`), and the search for
 * the first of those paths that does not end in a bad stop node.
 * Nodes are arena positions; an incoming edge's `from` is the retaining node.
 */
module Retention {
  import opened Wrappers
  import opened HeapGraph

  /** The `max_depth` of `_FindRetainingPaths`. */
  const MaxDepth: nat := 30

  // ---------------------------------------------------------------------
  // _IsRetainedByEdges

  /**
   * `_IsRetainedByEdges(node, chain)`: the empty chain retains every node;
   * otherwise some incoming edge is named after the last link and its source
   * is retained by the rest of the chain.
   */
  predicate RetainedBy(g: Graph, n: nat, chain: seq<string>)
    requires WellLinked(g) && n < |g|
    decreases |chain|, 1
  {
    chain == [] || RetainedThrough(g, n, 0, chain)
  }

  /** The loop over `node.edges_to`, from the `k`th incoming edge on. */
  predicate RetainedThrough(g: Graph, n: nat, k: nat, chain: seq<string>)
    requires WellLinked(g) && n < |g| && chain != []
    decreases |chain|, 0, |g[n].edgesTo| - k
  {
    k < |g[n].edgesTo| &&
    ((g[n].edgesTo[k].name == chain[|chain| - 1] &&
      RetainedBy(g, g[n].edgesTo[k].from, chain[..|chain| - 1])) ||
     RetainedThrough(g, n, k + 1, chain))
  }

  /** Node `n` has an incoming edge named `name` from node `m`. */
  ghost predicate EdgeInto(g: Graph, m: nat, n: nat, name: string)
    requires n < |g|
  {
    exists k :: 0 <= k < |g[n].edgesTo| && g[n].edgesTo[k].from == m && g[n].edgesTo[k].name == name
  }

  lemma {:induction false} RetainedThroughSome(g: Graph, n: nat, k: nat, chain: seq<string>)
    requires WellLinked(g) && n < |g| && chain != []
    ensures RetainedThrough(g, n, k, chain) <==>
      exists j :: k <= j < |g[n].edgesTo| && g[n].edgesTo[j].name == chain[|chain| - 1] &&
                  RetainedBy(g, g[n].edgesTo[j].from, chain[..|chain| - 1])
    decreases |g[n].edgesTo| - k
  {
    if k < |g[n].edgesTo| {
      RetainedThroughSome(g, n, k + 1, chain);
    }
  }

  /** One link at a time: the recursion of `_IsRetainedByEdges` as a statement about some incoming edge. */
  lemma RetainedByStep(g: Graph, n: nat, chain: seq<string>)
    requires WellLinked(g) && n < |g| && chain != []
    ensures RetainedBy(g, n, chain) <==>
      exists j :: 0 <= j < |g[n].edgesTo| && g[n].edgesTo[j].name == chain[|chain| - 1] &&
                  RetainedBy(g, g[n].edgesTo[j].from, chain[..|chain| - 1])
  {
    RetainedThroughSome(g, n, 0, chain);
  }

  /**
   * `walk` goes from an object `walk[0]` through properties named `chain`
   * to `walk[|chain|]`: the object `walk[0].chain[0]. ... .chain[|chain|-1]`.
   */
  ghost predicate ChainWalk(g: Graph, walk: seq<nat>, chain: seq<string>) {
    |walk| == |chain| + 1 && (forall j :: 0 <= j < |walk| ==> walk[j] < |g|) &&
    forall j :: 0 <= j < |chain| ==> WalkLink(g, walk, chain, j)
  }

  /** The `j`th property of the walk: `walk[j+1]` is `walk[j].chain[j]`. */
  ghost predicate WalkLink(g: Graph, walk: seq<nat>, chain: seq<string>, j: nat)
    requires j < |chain| && |walk| == |chain| + 1
  {
    walk[j + 1] < |g| && EdgeInto(g, walk[j], walk[j + 1], chain[j])
  }

  /** A walk for `chain` extended by one more property `last` into node `n`. */
  lemma WalkExtend(g: Graph, w: seq<nat>, init: seq<string>, last: string, n: nat)
    requires ChainWalk(g, w, init) && n < |g| && EdgeInto(g, w[|init|], n, last)
    ensures ChainWalk(g, w + [n], init + [last])
  {
    var walk, chain := w + [n], init + [last];
    forall i | 0 <= i < |chain| ensures WalkLink(g, walk, chain, i) {
      if i < |init| {
        assert WalkLink(g, w, init, i);
        assert walk[i] == w[i] && walk[i + 1] == w[i + 1] && chain[i] == init[i];
      }
    }
  }

  /** A walk for `chain` without its last property is a walk for the rest of the chain. */
  lemma WalkShorten(g: Graph, walk: seq<nat>, chain: seq<string>)
    requires ChainWalk(g, walk, chain) && chain != []
    ensures ChainWalk(g, walk[..|chain|], chain[..|chain| - 1])
    ensures EdgeInto(g, walk[|chain| - 1], walk[|chain|], chain[|chain| - 1])
  {
    var w, init := walk[..|chain|], chain[..|chain| - 1];
    forall i | 0 <= i < |init| ensures WalkLink(g, w, init, i) {
      assert WalkLink(g, walk, chain, i);
    }
    assert WalkLink(g, walk, chain, |chain| - 1);
  }

  /** `_IsRetainedByEdges(node, chain)` holds exactly when `node` is `obj.chain` for some object `obj`. */
  lemma {:induction false} RetainedByWalk(g: Graph, n: nat, chain: seq<string>)
    requires WellLinked(g) && n < |g|
    ensures RetainedBy(g, n, chain) <==> exists walk :: ChainWalk(g, walk, chain) && walk[|chain|] == n
    decreases |chain|
  {
    if chain == [] {
      assert ChainWalk(g, [n], chain);
    } else {
      var init, last := chain[..|chain| - 1], chain[|chain| - 1];
      assert chain == init + [last];
      RetainedByStep(g, n, chain);
      if RetainedBy(g, n, chain) {
        var j :| 0 <= j < |g[n].edgesTo| && g[n].edgesTo[j].name == last &&
                 RetainedBy(g, g[n].edgesTo[j].from, init);
        var m := g[n].edgesTo[j].from;
        RetainedByWalk(g, m, init);
        var w :| ChainWalk(g, w, init) && w[|init|] == m;
        WalkExtend(g, w, init, last, n);
        assert (w + [n])[|chain|] == n;
      }
      if exists walk :: ChainWalk(g, walk, chain) && walk[|chain|] == n {
        var walk :| ChainWalk(g, walk, chain) && walk[|chain|] == n;
        var m := walk[|init|];
        WalkShorten(g, walk, chain);
        RetainedByWalk(g, m, init);
        var j :| 0 <= j < |g[n].edgesTo| && g[n].edgesTo[j].from == m && g[n].edgesTo[j].name == last;
      }
    }
  }

  // ---------------------------------------------------------------------
  // _FindRetainingPaths

  /** What is left of the depth budget for a search that has visited `visited`. */
  function Budget(visited: seq<nat>): nat {
    if |visited| > MaxDepth then 0 else MaxDepth + 1 - |visited|
  }

  /**
   * `_FindRetainingPaths(node, visited, stop_nodes)`: every path it yields,
   * in order. Nothing once the path is longer than `MaxDepth`; the path
   * itself at a node without incoming edges or at a stop node; otherwise the
   * paths through each incoming edge whose source is not yet on the path.
   */
  function Paths(g: Graph, n: nat, visited: seq<nat>, stop: set<nat>): seq<seq<nat>>
    requires WellLinked(g) && n < |g|
    decreases Budget(visited), 1
  {
    if |visited| > MaxDepth then []
    else if g[n].edgesTo == [] || n in stop then [visited]
    else PathsThrough(g, n, 0, visited, stop)
  }

  /** The loop over `node.edges_to`, from the `k`th incoming edge on. */
  function PathsThrough(g: Graph, n: nat, k: nat, visited: seq<nat>, stop: set<nat>): seq<seq<nat>>
    requires WellLinked(g) && n < |g| && |visited| <= MaxDepth
    decreases Budget(visited), 0, |g[n].edgesTo| - k
  {
    if k >= |g[n].edgesTo| then []
    else
      var m := g[n].edgesTo[k].from;
      (if m in visited then [] else Paths(g, m, visited + [m], stop)) + PathsThrough(g, n, k + 1, visited, stop)
  }

  /** Node `m` retains node `n`: some incoming edge of `n` starts at `m`. */
  ghost predicate Retains(g: Graph, m: nat, n: nat)
    requires n < |g|
  {
    exists k :: 0 <= k < |g[n].edgesTo| && g[n].edgesTo[k].from == m
  }

  predicate Distinct(p: seq<nat>) {
    forall i, j :: 0 <= i < j < |p| ==> p[i] != p[j]
  }

  /**
   * A retaining path: it starts at the node asked about, visits nodes of the
   * graph at most once, is at most `MaxDepth` long, each node is retained by
   * the next, the search did not stop before its last node and stopped there.
   */
  ghost predicate RetainingPath(g: Graph, p: seq<nat>, stop: set<nat>) {
    p != [] && |p| <= MaxDepth && Distinct(p) &&
    (forall i :: 0 <= i < |p| ==> p[i] < |g|) &&
    (forall i :: 0 <= i < |p| - 1 ==> p[i] < |g| && Retains(g, p[i + 1], p[i]) && p[i] !in stop) &&
    (g[p[|p| - 1]].edgesTo == [] || p[|p| - 1] in stop)
  }

  /** The generalisation of `RetainingPath` to a search started with path `visited`. */
  ghost predicate ExtendsPath(g: Graph, p: seq<nat>, visited: seq<nat>, stop: set<nat>) {
    p != [] && |visited| <= |p| <= MaxDepth && p[..|visited|] == visited &&
    (Distinct(visited) ==> Distinct(p)) &&
    (forall i :: 0 <= i < |p| ==> p[i] < |g|) &&
    (forall i :: 0 <= i && |visited| - 1 <= i < |p| - 1 ==> p[i] < |g| && Retains(g, p[i + 1], p[i]) && p[i] !in stop) &&
    (g[p[|p| - 1]].edgesTo == [] || p[|p| - 1] in stop)
  }

  lemma PathsExtendPath(g: Graph, n: nat, visited: seq<nat>, stop: set<nat>, p: seq<nat>)
    requires WellLinked(g) && n < |g| && visited != [] && visited[|visited| - 1] == n
    requires forall i :: 0 <= i < |visited| ==> visited[i] < |g|
    requires p in Paths(g, n, visited, stop)
    ensures ExtendsPath(g, p, visited, stop)
    decreases Budget(visited), 1
  {
    if |visited| <= MaxDepth && !(g[n].edgesTo == [] || n in stop) {
      PathsThroughExtendPath(g, n, 0, visited, stop, p);
    }
  }

  lemma PathsThroughExtendPath(g: Graph, n: nat, k: nat, visited: seq<nat>, stop: set<nat>, p: seq<nat>)
    requires WellLinked(g) && n < |g| && |visited| <= MaxDepth && visited != [] && visited[|visited| - 1] == n
    requires forall i :: 0 <= i < |visited| ==> visited[i] < |g|
    requires g[n].edgesTo != [] && n !in stop
    requires p in PathsThrough(g, n, k, visited, stop)
    ensures ExtendsPath(g, p, visited, stop)
    decreases Budget(visited), 0, |g[n].edgesTo| - k
  {
    var m := g[n].edgesTo[k].from;
    var here := if m in visited then [] else Paths(g, m, visited + [m], stop);
    if p in here {
      var v := visited + [m];
      PathsExtendPath(g, m, v, stop, p);
      assert p[..|visited|] == v[..|visited|] == visited;
      assert p[|visited|] == m;
      assert Retains(g, m, n);
      if Distinct(visited) {
        assert Distinct(v);
      }
    } else {
      PathsThroughExtendPath(g, n, k + 1, visited, stop, p);
    }
  }

  /** Every path `_FindRetainingPaths(node, [node], stop_nodes)` yields is a retaining path of `node`. */
  lemma PathsAreRetaining(g: Graph, n: nat, stop: set<nat>, p: seq<nat>)
    requires WellLinked(g) && n < |g| && p in Paths(g, n, [n], stop)
    ensures RetainingPath(g, p, stop) && p[0] == n
  {
    PathsExtendPath(g, n, [n], stop, p);
  }

  lemma {:induction false} PathsThroughHas(g: Graph, n: nat, k: nat, j: nat, visited: seq<nat>, stop: set<nat>, p: seq<nat>)
    requires WellLinked(g) && n < |g| && |visited| <= MaxDepth
    requires k <= j < |g[n].edgesTo| && g[n].edgesTo[j].from !in visited
    requires p in Paths(g, g[n].edgesTo[j].from, visited + [g[n].edgesTo[j].from], stop)
    ensures p in PathsThrough(g, n, k, visited, stop)
    decreases j - k
  {
    if k < j {
      PathsThroughHas(g, n, k + 1, j, visited, stop, p);
    }
  }

  /** Conversely, every retaining path that extends `visited` is found. */
  lemma {:induction false} ExtendsPathFound(g: Graph, visited: seq<nat>, stop: set<nat>, p: seq<nat>)
    requires WellLinked(g) && visited != [] && Distinct(p)
    requires ExtendsPath(g, p, visited, stop)
    ensures p in Paths(g, visited[|visited| - 1], visited, stop)
    decreases |p| - |visited|
  {
    var n := visited[|visited| - 1];
    assert n == p[|visited| - 1];
    if |p| == |visited| {
      assert p == visited;
    } else {
      assert Retains(g, p[|visited|], n) && n !in stop;
      var m := p[|visited|];
      var j :| 0 <= j < |g[n].edgesTo| && g[n].edgesTo[j].from == m;
      var v := visited + [m];
      assert p[..|v|] == v;
      assert m !in visited;
      ExtendsPathFound(g, v, stop, p);
      PathsThroughHas(g, n, 0, j, visited, stop, p);
    }
  }

  /**
   * `_FindRetainingPaths(node, [node], stop_nodes)` yields exactly the
   * retaining paths of `node` (in the order of the incoming edges).
   */
  lemma PathsExactly(g: Graph, n: nat, stop: set<nat>, p: seq<nat>)
    requires WellLinked(g) && n < |g|
    ensures p in Paths(g, n, [n], stop) <==> RetainingPath(g, p, stop) && p[0] == n
  {
    if p in Paths(g, n, [n], stop) {
      PathsAreRetaining(g, n, stop, p);
    }
    if RetainingPath(g, p, stop) && p[0] == n {
      assert p[..1] == [n];
      ExtendsPathFound(g, [n], stop, p);
    }
  }

  // ---------------------------------------------------------------------
  // The first good path

  /** A path is good when it does not end in a bad stop node (`path[-1] not in bad_stop_nodes`). */
  predicate Good(p: seq<nat>, bad: set<nat>) {
    p != [] && p[|p| - 1] !in bad
  }

  /** The first good path of `ps`, as the `for path in ...: if ...: break` of `FindLeaks` finds it. */
  function FirstGood(ps: seq<seq<nat>>, bad: set<nat>): Option<seq<nat>> {
    if ps == [] then None
    else if Good(ps[0], bad) then Some(ps[0])
    else FirstGood(ps[1..], bad)
  }

  /** `FirstGood` finds a good path exactly when there is one, and no earlier path is good. */
  lemma {:induction false} FirstGoodIsFirst(ps: seq<seq<nat>>, bad: set<nat>)
    ensures FirstGood(ps, bad).None? <==> forall i :: 0 <= i < |ps| ==> !Good(ps[i], bad)
    ensures FirstGood(ps, bad).Some? ==>
      exists i :: 0 <= i < |ps| && ps[i] == FirstGood(ps, bad).value && Good(ps[i], bad) &&
                  forall j :: 0 <= j < i ==> !Good(ps[j], bad)
  {
    if ps != [] && !Good(ps[0], bad) {
      FirstGoodIsFirst(ps[1..], bad);
      assert forall i :: 1 <= i < |ps| ==> ps[i] == ps[1..][i - 1];
      if FirstGood(ps[1..], bad).Some? {
        var i :| 0 <= i < |ps[1..]| && ps[1..][i] == FirstGood(ps[1..], bad).value && Good(ps[1..][i], bad) &&
                 forall j :: 0 <= j < i ==> !Good(ps[1..][j], bad);
        assert ps[i + 1] == FirstGood(ps, bad).value && forall j :: 0 <= j < i + 1 ==> !Good(ps[j], bad);
      }
    }
  }

  lemma {:induction false} FirstGoodAppend(a: seq<seq<nat>>, b: seq<seq<nat>>, bad: set<nat>)
    ensures FirstGood(a + b, bad) == if FirstGood(a, bad).Some? then FirstGood(a, bad) else FirstGood(b, bad)
  {
    if a != [] {
      assert (a + b)[1..] == a[1..] + b;
      FirstGoodAppend(a[1..], b, bad);
    } else {
      assert a + b == b;
    }
  }

  /** One round of the loop over `node.edges_to`, as the search sees it. */
  lemma FirstGoodThrough(g: Graph, n: nat, k: nat, visited: seq<nat>, stop: set<nat>, bad: set<nat>)
    requires WellLinked(g) && n < |g| && |visited| <= MaxDepth && k < |g[n].edgesTo|
    ensures var m := g[n].edgesTo[k].from;
      var here := if m in visited then None else FirstGood(Paths(g, m, visited + [m], stop), bad);
      FirstGood(PathsThrough(g, n, k, visited, stop), bad) ==
        if here.Some? then here else FirstGood(PathsThrough(g, n, k + 1, visited, stop), bad)
  {
    var m := g[n].edgesTo[k].from;
    var here := if m in visited then [] else Paths(g, m, visited + [m], stop);
    FirstGoodAppend(here, PathsThrough(g, n, k + 1, visited, stop), bad);
  }

  /**
   * The backtracking search of `_FindRetainingPaths`, run until the first
   * good path: `visited` grows by one node per level and shrinks back on
   * return, and the search stops at the first path that is good.
   */
  method FindGoodPath(g: Graph, n: nat, visited: seq<nat>, stop: set<nat>, bad: set<nat>) returns (r: Option<seq<nat>>)
    requires WellLinked(g) && n < |g|
    ensures r == FirstGood(Paths(g, n, visited, stop), bad)
    decreases Budget(visited)
  {
    if |visited| > MaxDepth {
      assert Paths(g, n, visited, stop) == [];
      return None;
    }
    if g[n].edgesTo == [] || n in stop {
      assert Paths(g, n, visited, stop) == [visited];
      assert [visited][1..] == [];
      return if Good(visited, bad) then Some(visited) else None;
    }
    assert Paths(g, n, visited, stop) == PathsThrough(g, n, 0, visited, stop);
    var edges := g[n].edgesTo;
    var k := 0;
    while k < |edges|
      invariant k <= |edges| == |g[n].edgesTo|
      invariant FirstGood(Paths(g, n, visited, stop), bad) == FirstGood(PathsThrough(g, n, k, visited, stop), bad)
    {
      FirstGoodThrough(g, n, k, visited, stop, bad);
      var m := edges[k].from;
      if m !in visited {
        var found := FindGoodPath(g, m, visited + [m], stop, bad);
        if found.Some? {
          return found;
        }
      }
      k := k + 1;
    }
    assert PathsThrough(g, n, k, visited, stop) == [];
    return None;
  }
}
