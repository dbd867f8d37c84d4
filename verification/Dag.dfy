/** Requirement graph of the runtime: reachability searches, pruned edge insertion and
    recursive completion marking (src/runtime/dag_node.cpp). */
module Dag {

  /** Nodes are numbered in the order in which they are built. */
  type NodeId = nat

  /** `reqs[n]` is the requirement list of node `n` (weak pointers), `known` the nodes whose
      completion flag is set and `dead` the nodes whose weak pointers have expired. */
  datatype Graph = Graph(reqs: seq<seq<NodeId>>, known: set<NodeId>, dead: set<NodeId>)

  predicate HasNode(g: Graph, n: int) {
    0 <= n < |g.reqs|
  }

  /** A node only requires earlier-built nodes; the graph then has no cycles (see NoCycle). */
  ghost predicate EarlierOnly(g: Graph) {
    forall n, r :: HasNode(g, n) && r in g.reqs[n] ==> r < n
  }

  /** recursive_find: search for `x` below `current`, at most `level` levels deep, skipping
      expired nodes and nodes known to be complete. */
  predicate Find(g: Graph, current: NodeId, level: int, x: NodeId)
    decreases level
  {
    current == x ||
    (level > 0 && HasNode(g, current) &&
     exists r :: r in g.reqs[current] && r !in g.dead && r !in g.known && Find(g, r, level - 1, x))
  }

  /** find_dependency of the DAG builder: search strictly below `node`. */
  predicate FindDependency(g: Graph, node: NodeId, x: NodeId, levels: int)
    decreases levels
  {
    levels > 0 && HasNode(g, node) &&
    exists r :: r in g.reqs[node] && r !in g.dead && (r == x || FindDependency(g, r, x, levels - 1))
  }

  /** Reachability over live nodes, through at least one requirement. */
  ghost predicate Reaches(g: Graph, a: NodeId, b: NodeId)
    requires EarlierOnly(g)
    decreases a
  {
    HasNode(g, a) &&
    exists r :: r in g.reqs[a] && r !in g.dead && (r == b || Reaches(g, r, b))
  }

  ghost predicate ReachesOrIs(g: Graph, a: NodeId, b: NodeId)
    requires EarlierOnly(g)
  {
    a == b || Reaches(g, a, b)
  }

  lemma {:induction false} ReachesIsEarlier(g: Graph, a: NodeId, b: NodeId)
    requires EarlierOnly(g) && Reaches(g, a, b)
    ensures b < a && b !in g.dead
    decreases a
  {
    var r :| r in g.reqs[a] && r !in g.dead && (r == b || Reaches(g, r, b));
    if r != b {
      ReachesIsEarlier(g, r, b);
    }
  }

  /** Without edges to younger nodes no node requires itself, directly or not. */
  lemma NoCycle(g: Graph, a: NodeId)
    requires EarlierOnly(g)
    ensures !Reaches(g, a, a)
  {
    if Reaches(g, a, a) { ReachesIsEarlier(g, a, a); }
  }

  lemma {:induction false} ReachesTransitive(g: Graph, a: NodeId, b: NodeId, c: NodeId)
    requires EarlierOnly(g) && Reaches(g, a, b) && ReachesOrIs(g, b, c)
    ensures Reaches(g, a, c)
    decreases a
  {
    if b != c {
      var r :| r in g.reqs[a] && r !in g.dead && (r == b || Reaches(g, r, b));
      if r != b {
        ReachesTransitive(g, r, b, c);
      }
    }
  }

  /** The bounded searches only report nodes that really are reachable. */
  lemma {:induction false} FindSound(g: Graph, current: NodeId, level: int, x: NodeId)
    requires EarlierOnly(g) && Find(g, current, level, x)
    ensures ReachesOrIs(g, current, x)
    decreases level
  {
    if current != x {
      var r :| r in g.reqs[current] && r !in g.dead && r !in g.known && Find(g, r, level - 1, x);
      FindSound(g, r, level - 1, x);
    }
  }

  lemma {:induction false} FindDependencySound(g: Graph, node: NodeId, x: NodeId, levels: int)
    requires EarlierOnly(g) && FindDependency(g, node, x, levels)
    ensures Reaches(g, node, x)
    decreases levels
  {
    var r :| r in g.reqs[node] && r !in g.dead && (r == x || FindDependency(g, r, x, levels - 1));
    if r != x {
      FindDependencySound(g, r, x, levels - 1);
    }
  }

  // ---------------------------------------------------------------------------------------------
  // Pruned edge insertion

  /** The requirement is already listed, or reachable from a listed requirement. */
  predicate AlreadyProvided(g: Graph, list: seq<NodeId>, r: NodeId, depth: int) {
    exists e :: e in list && e !in g.dead && (e == r || Find(g, e, depth, r))
  }

  /** What survives of a requirement list when `r` is added: expired entries and entries that
      `r` reaches are erased. */
  function Prune(g: Graph, list: seq<NodeId>, r: NodeId, depth: int): (kept: seq<NodeId>)
    ensures forall e :: e in kept <==> e in list && e !in g.dead && !Find(g, r, depth, e)
  {
    if list == [] then []
    else
      var rest := Prune(g, list[..|list| - 1], r, depth);
      var e := list[|list| - 1];
      assert list == list[..|list| - 1] + [e];
      if e in g.dead || Find(g, r, depth, e) then rest else rest + [e]
  }

  /** `kept` can be obtained from `list` by leaving out entries. */
  ghost predicate Subsequence<T>(kept: seq<T>, list: seq<T>)
    decreases |list|
  {
    kept == [] ||
    (list != [] &&
     (Subsequence(kept, list[..|list| - 1]) ||
      (kept[|kept| - 1] == list[|list| - 1] && Subsequence(kept[..|kept| - 1], list[..|list| - 1]))))
  }

  /** The survivors keep their order. */
  lemma {:induction false} PruneKeepsOrder(g: Graph, list: seq<NodeId>, r: NodeId, depth: int)
    ensures Subsequence(Prune(g, list, r, depth), list)
    decreases |list|
  {
    if list != [] {
      var rest := Prune(g, list[..|list| - 1], r, depth);
      PruneKeepsOrder(g, list[..|list| - 1], r, depth);
      assert (rest + [list[|list| - 1]])[..|rest|] == rest;
    }
  }

  /** add_requirement. */
  function AddReq(g: Graph, n: NodeId, r: NodeId, depth: int): (g': Graph)
    requires HasNode(g, n)
    ensures g'.known == g.known && g'.dead == g.dead && |g'.reqs| == |g.reqs|
    ensures forall m :: HasNode(g, m) && m != n ==> g'.reqs[m] == g.reqs[m]
  {
    if AlreadyProvided(g, g.reqs[n], r, depth) then g
    else g.(reqs := g.reqs[n := Prune(g, g.reqs[n], r, depth) + [r]])
  }

  /** The unoptimised insertion: append the edge. */
  function PlainInsert(g: Graph, n: NodeId, r: NodeId): (g': Graph)
    requires HasNode(g, n)
    ensures g'.known == g.known && g'.dead == g.dead && |g'.reqs| == |g.reqs|
    ensures forall m :: HasNode(g, m) && m != n ==> g'.reqs[m] == g.reqs[m]
    ensures forall e :: e in g'.reqs[n] <==> e in g.reqs[n] || e == r
  {
    g.(reqs := g.reqs[n := g.reqs[n] + [r]])
  }

  lemma AddReqEarlierOnly(g: Graph, n: NodeId, r: NodeId, depth: int)
    requires EarlierOnly(g) && HasNode(g, n) && r < n
    ensures EarlierOnly(AddReq(g, n, r, depth)) && EarlierOnly(PlainInsert(g, n, r))
  {
    var g' := AddReq(g, n, r, depth);
    forall m, e | HasNode(g', m) && e in g'.reqs[m] ensures e < m {
      if m == n && g' != g {
        assert e in Prune(g, g.reqs[n], r, depth) || e == r;
      }
    }
  }

  /** Two graphs that agree below `n` have the same reachability below `n`. */
  lemma {:induction false} ReachesBelow(g: Graph, h: Graph, n: NodeId, a: NodeId, b: NodeId)
    requires EarlierOnly(g) && EarlierOnly(h) && g.dead == h.dead
    requires forall m :: m < n && HasNode(g, m) ==> HasNode(h, m) && g.reqs[m] == h.reqs[m]
    requires a < n && Reaches(g, a, b)
    ensures Reaches(h, a, b)
    decreases a
  {
    var r :| r in g.reqs[a] && r !in g.dead && (r == b || Reaches(g, r, b));
    if r != b {
      ReachesBelow(g, h, n, r, b);
    }
  }

  /** Edge pruning refines plain edge insertion: whatever the search depth, exactly the same nodes
      are reachable from every node afterwards. */
  lemma {:induction false} AddReqRefinesPlainInsert(g: Graph, n: NodeId, r: NodeId, depth: int, a: NodeId, x: NodeId)
    requires EarlierOnly(g) && HasNode(g, n) && r < n && r !in g.dead
    requires EarlierOnly(AddReq(g, n, r, depth)) && EarlierOnly(PlainInsert(g, n, r))
    ensures Reaches(AddReq(g, n, r, depth), a, x) <==> Reaches(PlainInsert(g, n, r), a, x)
    decreases a
  {
    var g1, g2 := AddReq(g, n, r, depth), PlainInsert(g, n, r);
    if HasNode(g, a) {
      forall e | e in g.reqs[a] {
        AddReqRefinesPlainInsert(g, n, r, depth, e, x);
      }
      if a == n {
        AddReqRefinesPlainInsert(g, n, r, depth, r, x);
        if Reaches(g2, n, x) {
          PrunedKeepsReach(g, n, r, depth, x);
        }
        if Reaches(g1, n, x) {
          var e :| e in g1.reqs[n] && e !in g.dead && (e == x || Reaches(g1, e, x));
          assert e in g2.reqs[n];
          assert e == x || Reaches(g2, e, x);
        }
      } else {
        assert g1.reqs[a] == g2.reqs[a] == g.reqs[a];
      }
    }
  }

  lemma PrunedKeepsReach(g: Graph, n: NodeId, r: NodeId, depth: int, x: NodeId)
    requires EarlierOnly(g) && HasNode(g, n) && r < n && r !in g.dead
    requires EarlierOnly(AddReq(g, n, r, depth)) && EarlierOnly(PlainInsert(g, n, r))
    requires Reaches(PlainInsert(g, n, r), n, x)
    ensures Reaches(AddReq(g, n, r, depth), n, x)
  {
    var g1, g2 := AddReq(g, n, r, depth), PlainInsert(g, n, r);
    var e :| e in g2.reqs[n] && e !in g2.dead && (e == x || Reaches(g2, e, x));
    if Reaches(g2, e, x) { ReachesBelow(g2, g, n, e, x); }
    if AlreadyProvided(g, g.reqs[n], r, depth) {
      assert g1 == g;
      if e !in g.reqs[n] {
        var p :| p in g.reqs[n] && p !in g.dead && (p == r || Find(g, p, depth, r));
        if p != r { FindSound(g, p, depth, r); }
        assert ReachesOrIs(g, p, r);
        if p != r && r != x { ReachesTransitive(g, p, r, x); }
        assert p == x || Reaches(g, p, x);
      }
      assert exists q :: q in g.reqs[n] && q !in g.dead && (q == x || Reaches(g, q, x));
    } else {
      assert r in g1.reqs[n];
      if e == r || Find(g, r, depth, e) {
        if e != r { FindSound(g, r, depth, e); }
        if e != r && e != x { ReachesTransitive(g, r, e, x); }
        assert r == x || Reaches(g, r, x);
        if r != x { ReachesBelow(g, g1, n, r, x); }
      } else {
        assert e in Prune(g, g.reqs[n], r, depth);
        assert e in g1.reqs[n];
        if e != x { ReachesBelow(g, g1, n, e, x); }
      }
    }
  }

  /** After the insertion the new requirement is reachable, and nothing was lost anywhere. */
  lemma AddReqGains(g: Graph, n: NodeId, r: NodeId, depth: int)
    requires EarlierOnly(g) && HasNode(g, n) && r < n && r !in g.dead
    ensures EarlierOnly(AddReq(g, n, r, depth))
    ensures Reaches(AddReq(g, n, r, depth), n, r)
    ensures forall a, x :: Reaches(g, a, x) ==> Reaches(AddReq(g, n, r, depth), a, x)
  {
    AddReqEarlierOnly(g, n, r, depth);
    var g1, g2 := AddReq(g, n, r, depth), PlainInsert(g, n, r);
    assert r in g2.reqs[n];
    AddReqRefinesPlainInsert(g, n, r, depth, n, r);
    forall a, x | Reaches(g, a, x) ensures Reaches(g1, a, x) {
      MoreEdgesReachMore(g, g2, a, x);
      AddReqRefinesPlainInsert(g, n, r, depth, a, x);
    }
  }

  lemma {:induction false} MoreEdgesReachMore(g: Graph, h: Graph, a: NodeId, x: NodeId)
    requires EarlierOnly(g) && EarlierOnly(h) && g.dead == h.dead && |g.reqs| <= |h.reqs|
    requires forall m, e :: HasNode(g, m) && e in g.reqs[m] ==> e in h.reqs[m]
    requires Reaches(g, a, x)
    ensures Reaches(h, a, x)
    decreases a
  {
    var r :| r in g.reqs[a] && r !in g.dead && (r == x || Reaches(g, r, x));
    if r != x {
      MoreEdgesReachMore(g, h, r, x);
    }
  }

  // ---------------------------------------------------------------------------------------------
  // Completion

  /** Completed work is closed under requirements: the guarantee of an executor that respects the graph. */
  ghost predicate DoneClosed(g: Graph, done: set<NodeId>) {
    forall n, r :: n in done && HasNode(g, n) && r in g.reqs[n] ==> r in done
  }

  lemma {:induction false} DoneReaches(g: Graph, done: set<NodeId>, a: NodeId, b: NodeId)
    requires EarlierOnly(g) && DoneClosed(g, done) && a in done && Reaches(g, a, b)
    ensures b in done
    decreases a
  {
    var r :| r in g.reqs[a] && r !in g.dead && (r == b || Reaches(g, r, b));
    if r != b {
      DoneReaches(g, done, r, b);
    }
  }

  /** Letting completed nodes expire only removes paths to completed nodes. */
  lemma {:induction false} ExpiryKeepsReach(g: Graph, done: set<NodeId>, expired: set<NodeId>, a: NodeId, b: NodeId)
    requires EarlierOnly(g) && DoneClosed(g, done) && expired <= done && Reaches(g, a, b)
    ensures b in done || Reaches(g.(dead := g.dead + expired), a, b)
    decreases a
  {
    var r :| r in g.reqs[a] && r !in g.dead && (r == b || Reaches(g, r, b));
    if r in expired {
      if r != b { DoneReaches(g, done, r, b); }
    } else if r != b {
      ExpiryKeepsReach(g, done, expired, r, b);
    }
  }

  /** The recursive marking of dag_node::wait: everything below `n` that is not yet known to be
      complete is marked, without descending below nodes already marked. */
  function MarkComplete(g: Graph, n: NodeId): (g': Graph)
    requires EarlierOnly(g)
    ensures g'.reqs == g.reqs && g'.dead == g.dead && g.known <= g'.known && n in g'.known
    decreases n, 1, 0
  {
    if n in g.known then g
    else if !HasNode(g, n) then g.(known := g.known + {n})
    else MarkAll(g.(known := g.known + {n}), n, g.reqs[n])
  }

  function MarkAll(g: Graph, n: NodeId, list: seq<NodeId>): (g': Graph)
    requires EarlierOnly(g) && forall r :: r in list ==> r < n
    ensures g'.reqs == g.reqs && g'.dead == g.dead && g.known <= g'.known
    decreases n, 0, |list|
  {
    if list == [] then g
    else
      assert list[0] in list && forall r :: r in list[1..] ==> r in list;
      var g1 := if list[0] in g.dead then g else MarkComplete(g, list[0]);
      MarkAll(g1, n, list[1..])
  }

  /** Waiting on a completed node only marks nodes that really are complete. */
  lemma {:induction false} MarkCompleteSound(g: Graph, n: NodeId, done: set<NodeId>)
    requires EarlierOnly(g) && DoneClosed(g, done) && g.known <= done && n in done
    ensures MarkComplete(g, n).known <= done
    decreases n, 1, 0
  {
    if n !in g.known && HasNode(g, n) {
      MarkAllSound(g.(known := g.known + {n}), n, g.reqs[n], done);
    }
  }

  lemma {:induction false} MarkAllSound(g: Graph, n: NodeId, list: seq<NodeId>, done: set<NodeId>)
    requires EarlierOnly(g) && DoneClosed(g, done) && g.known <= done
    requires forall r :: r in list ==> r < n && r in done
    ensures MarkAll(g, n, list).known <= done
    decreases n, 0, |list|
  {
    if list != [] {
      assert list[0] in list && forall r :: r in list[1..] ==> r in list;
      var g1 := if list[0] in g.dead then g else MarkComplete(g, list[0]);
      if list[0] !in g.dead { MarkCompleteSound(g, list[0], done); }
      MarkAllSound(g1, n, list[1..], done);
    }
  }
}
