/** What the bounded searches, the pruned insertion and the recursive completion marking do, in terms of
    paths through the requirement graph (src/runtime/dag_node.cpp). */
module DagPaths {
  import opened Dag

  /** One requirement step to a node that has not expired. */
  ghost predicate LiveStep(g: Graph, a: NodeId, b: NodeId) {
    HasNode(g, a) && b in g.reqs[a] && b !in g.dead
  }

  /** A path of requirement steps over live nodes that are not known to be complete; the node it starts at may
      be either. */
  ghost predicate OpenPath(g: Graph, path: seq<NodeId>) {
    path != [] && forall i :: 0 < i < |path| ==> LiveStep(g, path[i - 1], path[i]) && path[i] !in g.known
  }

  /** An open path of at most `steps` steps. */
  ghost predicate OpenWithin(g: Graph, a: NodeId, b: NodeId, steps: int) {
    a == b || exists path :: OpenPath(g, path) && path[0] == a && path[|path| - 1] == b && 1 < |path| <= steps + 1
  }

  lemma OpenCons(g: Graph, a: NodeId, path: seq<NodeId>)
    requires OpenPath(g, path) && LiveStep(g, a, path[0]) && path[0] !in g.known
    ensures OpenPath(g, [a] + path)
  {
    var p := [a] + path;
    forall i | 0 < i < |p| ensures LiveStep(g, p[i - 1], p[i]) && p[i] !in g.known {
      if i > 1 { assert p[i] == path[i - 1] && p[i - 1] == path[i - 2]; }
    }
  }

  lemma OpenTail(g: Graph, path: seq<NodeId>)
    requires OpenPath(g, path) && |path| > 1
    ensures OpenPath(g, path[1..]) && LiveStep(g, path[0], path[1]) && path[1] !in g.known
  {
    forall i | 0 < i < |path[1..]| ensures LiveStep(g, path[1..][i - 1], path[1..][i]) && path[1..][i] !in g.known {
      assert path[1..][i] == path[i + 1] && path[1..][i - 1] == path[i];
    }
  }

  lemma {:induction false} FindHasPath(g: Graph, current: NodeId, level: int, x: NodeId)
    requires Find(g, current, level, x)
    ensures OpenWithin(g, current, x, level)
    decreases level
  {
    if current != x {
      var r :| r in g.reqs[current] && r !in g.dead && r !in g.known && Find(g, r, level - 1, x);
      FindHasPath(g, r, level - 1, x);
      var path := [r];
      if r != x {
        path :| OpenPath(g, path) && path[0] == r && path[|path| - 1] == x && 1 < |path| <= level;
      }
      OpenCons(g, current, path);
      var whole := [current] + path;
      assert whole[|whole| - 1] == x;
    }
  }

  lemma {:induction false} PathIsFound(g: Graph, path: seq<NodeId>, level: int)
    requires OpenPath(g, path) && |path| <= level + 1
    ensures Find(g, path[0], level, path[|path| - 1])
    decreases |path|
  {
    if |path| > 1 {
      OpenTail(g, path);
      PathIsFound(g, path[1..], level - 1);
      assert path[1..][|path| - 2] == path[|path| - 1];
    }
  }

  /** recursive_find reports a node exactly when a path of at most `level` steps over live nodes not known to
      be complete leads there. */
  lemma FindIff(g: Graph, current: NodeId, level: int, x: NodeId)
    ensures Find(g, current, level, x) <==> OpenWithin(g, current, x, level)
  {
    if Find(g, current, level, x) { FindHasPath(g, current, level, x); }
    if current != x && OpenWithin(g, current, x, level) {
      var path :| OpenPath(g, path) && path[0] == current && path[|path| - 1] == x && 1 < |path| <= level + 1;
      PathIsFound(g, path, level);
    }
  }

  /** find_dependency with two levels: a direct requirement, or a requirement of one. */
  lemma TwoLevels(g: Graph, n: NodeId, x: NodeId)
    ensures FindDependency(g, n, x, 2) <==> LiveStep(g, n, x) || exists r :: LiveStep(g, n, r) && LiveStep(g, r, x)
  {
    forall r | HasNode(g, n) && r in g.reqs[n] && r !in g.dead
      ensures FindDependency(g, r, x, 1) <==> LiveStep(g, r, x)
    {
      OneLevel(g, r, x);
    }
    if r :| LiveStep(g, n, r) && LiveStep(g, r, x) { assert FindDependency(g, r, x, 1); }
  }

  lemma OneLevel(g: Graph, n: NodeId, x: NodeId)
    ensures FindDependency(g, n, x, 1) <==> LiveStep(g, n, x)
  {
    assert forall r :: !FindDependency(g, r, x, 0);
  }

  // ---------------------------------------------------------------------------------------------
  // The list after adding a requirement

  /** The requirement is in the list already, or within the search depth of a live entry. */
  ghost predicate Provided(g: Graph, list: seq<NodeId>, r: NodeId, depth: int) {
    exists e :: e in list && e !in g.dead && OpenWithin(g, e, r, depth)
  }

  /** add_requirement, entry by entry: nothing changes if the requirement is provided; otherwise the expired
      entries and those within the search depth of the requirement are dropped, the others stay, and
      the requirement comes last. */
  lemma AddReqByPaths(g: Graph, n: NodeId, r: NodeId, depth: int)
    requires HasNode(g, n)
    ensures var list, list' := g.reqs[n], AddReq(g, n, r, depth).reqs[n];
            if Provided(g, list, r, depth) then list' == list
            else
              && list' != [] && list'[|list'| - 1] == r && Subsequence(list'[..|list'| - 1], list)
              && forall e :: e in list'[..|list'| - 1] <==> e in list && e !in g.dead && !OpenWithin(g, r, e, depth)
  {
    var list := g.reqs[n];
    forall e ensures Find(g, e, depth, r) <==> OpenWithin(g, e, r, depth) { FindIff(g, e, depth, r); }
    forall e ensures Find(g, r, depth, e) <==> OpenWithin(g, r, e, depth) { FindIff(g, r, depth, e); }
    PruneKeepsOrder(g, list, r, depth);
    var kept := Prune(g, list, r, depth);
    assert (kept + [r])[..|kept|] == kept;
  }

  // ---------------------------------------------------------------------------------------------
  // Completion marking

  /** Everything that a newly marked node requires is marked. */
  ghost predicate MarkedBelow(g: Graph, g': Graph) {
    forall m, r :: m in g'.known && m !in g.known && LiveStep(g, m, r) ==> r in g'.known
  }

  lemma {:induction false} MarkCompleteCloses(g: Graph, n: NodeId)
    requires EarlierOnly(g)
    ensures MarkedBelow(g, MarkComplete(g, n))
    decreases n, 1, 0
  {
    if n !in g.known && HasNode(g, n) {
      MarkAllCloses(g.(known := g.known + {n}), n, g.reqs[n]);
    }
  }

  lemma {:induction false} MarkAllCloses(g: Graph, n: NodeId, list: seq<NodeId>)
    requires EarlierOnly(g) && forall r :: r in list ==> r < n
    ensures MarkedBelow(g, MarkAll(g, n, list))
    ensures forall r :: r in list && r !in g.dead ==> r in MarkAll(g, n, list).known
    decreases n, 0, |list|
  {
    if list != [] {
      assert list[0] in list && forall r :: r in list[1..] ==> r in list;
      var g1 := if list[0] in g.dead then g else MarkComplete(g, list[0]);
      if list[0] !in g.dead { MarkCompleteCloses(g, list[0]); }
      MarkAllCloses(g1, n, list[1..]);
      assert list == [list[0]] + list[1..];
    }
  }

  /** An open path from a node that is not known to be complete itself. */
  ghost predicate OpenTo(g: Graph, a: NodeId, b: NodeId) {
    a !in g.known && exists path :: OpenPath(g, path) && path[0] == a && path[|path| - 1] == b
  }

  lemma {:induction false} MarkedAlong(g: Graph, g': Graph, path: seq<NodeId>)
    requires MarkedBelow(g, g') && OpenPath(g, path) && path[0] in g'.known && path[0] !in g.known
    ensures path[|path| - 1] in g'.known
    decreases |path|
  {
    if |path| > 1 {
      OpenTail(g, path);
      MarkedAlong(g, g', path[1..]);
      assert path[1..][|path| - 2] == path[|path| - 1];
    }
  }

  /** Steps in a graph with more known nodes are steps in the graph itself. */
  lemma OpenInSmaller(g: Graph, h: Graph, a: NodeId, b: NodeId)
    requires h.reqs == g.reqs && h.dead == g.dead && g.known <= h.known && OpenTo(h, a, b)
    ensures OpenTo(g, a, b)
  {
    var path :| OpenPath(h, path) && path[0] == a && path[|path| - 1] == b;
    assert OpenPath(g, path);
  }

  lemma OpenStep(g: Graph, a: NodeId, r: NodeId, b: NodeId)
    requires a !in g.known && LiveStep(g, a, r) && OpenTo(g, r, b)
    ensures OpenTo(g, a, b)
  {
    var path :| OpenPath(g, path) && path[0] == r && path[|path| - 1] == b;
    OpenCons(g, a, path);
    var whole := [a] + path;
    assert whole[|whole| - 1] == b;
  }

  lemma {:induction false} MarkCompleteHasPath(g: Graph, n: NodeId, x: NodeId)
    requires EarlierOnly(g) && x in MarkComplete(g, n).known && x !in g.known
    ensures OpenTo(g, n, x)
    decreases n, 1, 0
  {
    if x == n {
      assert OpenPath(g, [n]);
    } else {
      var g1 := g.(known := g.known + {n});
      var r := MarkAllHasPath(g1, n, g.reqs[n], x);
      OpenInSmaller(g, g1, r, x);
      OpenStep(g, n, r, x);
    }
  }

  lemma {:induction false} MarkAllHasPath(g: Graph, n: NodeId, list: seq<NodeId>, x: NodeId) returns (r: NodeId)
    requires EarlierOnly(g) && (forall r :: r in list ==> r < n) && x in MarkAll(g, n, list).known && x !in g.known
    ensures r in list && r !in g.dead && OpenTo(g, r, x)
    decreases n, 0, |list|
  {
    assert list[0] in list && forall r :: r in list[1..] ==> r in list;
    var g1 := if list[0] in g.dead then g else MarkComplete(g, list[0]);
    if x in g1.known {
      r := list[0];
      MarkCompleteHasPath(g, r, x);
    } else {
      r := MarkAllHasPath(g1, n, list[1..], x);
      OpenInSmaller(g, g1, r, x);
    }
  }

  /** The marking after a wait, exactly: a node is known afterwards if it was before, or if a path over live nodes
      not known to be complete leads to it from the node waited for. */
  lemma MarkCompleteIff(g: Graph, n: NodeId, x: NodeId)
    requires EarlierOnly(g)
    ensures x in MarkComplete(g, n).known <==> x in g.known || OpenTo(g, n, x)
  {
    if x in MarkComplete(g, n).known && x !in g.known { MarkCompleteHasPath(g, n, x); }
    if OpenTo(g, n, x) {
      var path :| OpenPath(g, path) && path[0] == n && path[|path| - 1] == x;
      MarkCompleteCloses(g, n);
      MarkedAlong(g, MarkComplete(g, n), path);
    }
  }
}
