/** Which waits a submission puts into the queue, in terms of lanes and queue positions alone, and which
    requirements it considers (src/runtime/inorder_executor.cpp:107-166, src/runtime/dag_node.cpp:254-269). */
module LaneWaits {
  import opened Dag
  import opened Builder
  import opened Lanes
  import opened LanesProofs

  // ---------------------------------------------------------------------------------------------
  // The requirements considered

  /** A virtual node that is replaced by its own requirements. */
  ghost predicate Replaced(g: Graph, place: map<NodeId, Place>, r: NodeId) {
    r in place && place[r].Virtual? && HasNode(g, r)
  }

  /** A chain of live nodes from an entry of `list` to its end, each a requirement of the one before; all but the
      last are replaced virtual nodes that are not known to be complete, and the last is not virtual. */
  ghost predicate Chain(g: Graph, place: map<NodeId, Place>, list: seq<NodeId>, path: seq<NodeId>) {
    && path != [] && path[0] in list && !Replaced(g, place, path[|path| - 1])
    && (forall i :: 0 <= i < |path| ==> path[i] !in g.dead)
    && (forall i :: 0 <= i < |path| - 1 ==>
          Replaced(g, place, path[i]) && path[i] !in g.known && path[i + 1] in g.reqs[path[i]])
  }

  ghost predicate ChainTo(g: Graph, place: map<NodeId, Place>, list: seq<NodeId>, r: NodeId) {
    exists path :: Chain(g, place, list, path) && path[|path| - 1] == r
  }

  lemma ChainCons(g: Graph, place: map<NodeId, Place>, list: seq<NodeId>, v: NodeId, r: NodeId)
    requires v in list && v !in g.dead && Replaced(g, place, v) && v !in g.known && ChainTo(g, place, g.reqs[v], r)
    ensures ChainTo(g, place, list, r)
  {
    var path :| Chain(g, place, g.reqs[v], path) && path[|path| - 1] == r;
    var whole := [v] + path;
    assert forall i :: 0 < i < |whole| ==> whole[i] == path[i - 1];
    forall i | 0 <= i < |whole| - 1
      ensures Replaced(g, place, whole[i]) && whole[i] !in g.known && whole[i + 1] in g.reqs[whole[i]]
    {
      if i > 0 { assert path[i] in g.reqs[path[i - 1]]; }
    }
    assert Chain(g, place, list, whole) && whole[|whole| - 1] == r;
  }

  lemma ChainTail(g: Graph, place: map<NodeId, Place>, list: seq<NodeId>, path: seq<NodeId>)
    requires Chain(g, place, list, path) && |path| > 1
    ensures Chain(g, place, g.reqs[path[0]], path[1..]) && path[1..][|path| - 2] == path[|path| - 1]
  {
    var tail := path[1..];
    assert forall i :: 0 <= i < |tail| ==> tail[i] == path[i + 1];
    assert path[1] in g.reqs[path[0]];
  }

  lemma ChainPart(g: Graph, place: map<NodeId, Place>, list: seq<NodeId>, part: seq<NodeId>, r: NodeId)
    requires ChainTo(g, place, part, r) && forall e :: e in part ==> e in list
    ensures ChainTo(g, place, list, r)
  {
    var path :| Chain(g, place, part, path) && path[|path| - 1] == r;
    assert Chain(g, place, list, path);
  }

  lemma {:induction false} CollectedHasChain(
    g: Graph, place: map<NodeId, Place>, n: NodeId, list: seq<NodeId>, r: NodeId)
    requires EarlierOnly(g) && AllBelow(list, n) && r in NonVirtual(g, place, n, list)
    ensures ChainTo(g, place, list, r)
    decreases n, |list|
  {
    var init, last := list[..|list| - 1], list[|list| - 1];
    if r in NonVirtual(g, place, n, init) {
      CollectedHasChain(g, place, n, init, r);
      ChainPart(g, place, list, init, r);
    } else if Replaced(g, place, last) {
      RequirementsBelow(g, last);
      CollectedHasChain(g, place, last, g.reqs[last], r);
      ChainCons(g, place, list, last, r);
    } else {
      assert Chain(g, place, list, [r]);
    }
  }

  lemma {:induction false} ChainIsCollected(
    g: Graph, place: map<NodeId, Place>, n: NodeId, list: seq<NodeId>, path: seq<NodeId>)
    requires EarlierOnly(g) && AllBelow(list, n) && Chain(g, place, list, path)
    ensures path[|path| - 1] in NonVirtual(g, place, n, list)
    decreases n, |list|
  {
    var init, last := list[..|list| - 1], list[|list| - 1];
    if path[0] != last {
      assert list == init + [last];
      ChainIsCollected(g, place, n, init, path);
    } else if |path| > 1 {
      ChainTail(g, place, list, path);
      RequirementsBelow(g, last);
      ChainIsCollected(g, place, last, g.reqs[last], path[1..]);
    }
  }

  /** for_each_nonvirtual_requirement and the compression, exactly: the list handed to the executor holds the
      non-virtual nodes at the ends of chains of virtual ones, unless they are known to be complete. */
  lemma RequirementsIff(y: Sys, n: NodeId, r: NodeId)
    requires EarlierOnly(y.dag.g) && HasNode(y.dag.g, n)
    ensures r in Requirements(y, n) <==>
            n !in y.dag.g.known && r !in y.dag.g.known && ChainTo(y.dag.g, y.place, y.dag.g.reqs[n], r)
  {
    var g := y.dag.g;
    RequirementsBelow(g, n);
    if r in NonVirtual(g, y.place, n, g.reqs[n]) { CollectedHasChain(g, y.place, n, g.reqs[n], r); }
    if ChainTo(g, y.place, g.reqs[n], r) {
      var path :| Chain(g, y.place, g.reqs[n], path) && path[|path| - 1] == r;
      ChainIsCollected(g, y.place, n, g.reqs[n], path);
    }
  }

  // ---------------------------------------------------------------------------------------------
  // The waits

  /** No listed requirement on the lane of `w` is behind it in the queue. */
  ghost predicate LastOnItsLane(y: Sys, reqs: seq<NodeId>, w: NodeId)
    requires IsOnLane(y.place, w)
  {
    forall r :: r in reqs && IsOnLane(y.place, r) && y.place[r].lane == y.place[w].lane ==>
      y.place[r].pos <= y.place[w].pos
  }

  /** Submission for a lane waits for `w`: a listed requirement on another lane that has not been seen complete,
      of another backend or the last one listed of its lane. */
  ghost predicate IsAwaited(y: Sys, backend: Backends, reqs: seq<NodeId>, lane: Lane, seen: set<NodeId>, w: NodeId) {
    && w in reqs && w !in seen && IsOnLane(y.place, w) && y.place[w].lane != lane
    && (backend(y.place[w].lane) != backend(lane) || LastOnItsLane(y, reqs, w))
  }

  /** Positions and indices on a lane give the same order. */
  lemma PositionOrder(y: Sys, r: NodeId, w: NodeId)
    requires Places(y) && IsOnLane(y.place, r) && IsOnLane(y.place, w) && y.place[r].lane == y.place[w].lane
    ensures y.place[r].index <= y.place[w].index <==> y.place[r].pos <= y.place[w].pos
    ensures y.place[r].pos == y.place[w].pos ==> r == w
  {
    var l := y.place[r].lane;
    assert y.queue[l][y.place[r].pos].node == r && y.queue[l][y.place[w].pos].node == w;
  }

  lemma LastHasMaxIndex(y: Sys, reqs: seq<NodeId>, w: NodeId)
    requires Places(y) && w in reqs && IsOnLane(y.place, w)
    ensures LastOnItsLane(y, reqs, w) <==> y.place[w].index == MaxIndex(y.place, reqs, y.place[w].lane)
  {
    var l := y.place[w].lane;
    var top := MaxIndex(y.place, reqs, l);
    assert 0 < y.place[w].index <= top;
    var t :| t in reqs && IsOnLane(y.place, t) && y.place[t].lane == l && y.place[t].index == top;
    PositionOrder(y, t, w);
    forall r | r in reqs && IsOnLane(y.place, r) && y.place[r].lane == l
      ensures y.place[r].index <= y.place[w].index <==> y.place[r].pos <= y.place[w].pos
    {
      PositionOrder(y, r, w);
    }
  }

  lemma NeedsWaitIff(y: Sys, backend: Backends, reqs: seq<NodeId>, lane: Lane, seen: set<NodeId>, w: NodeId)
    requires Places(y) && w in reqs
    ensures NeedsWait(y.place, backend, reqs, lane, seen, w) <==> IsAwaited(y, backend, reqs, lane, seen, w)
  {
    if IsOnLane(y.place, w) { LastHasMaxIndex(y, reqs, w); }
  }

  ghost predicate DistinctTargets(w: seq<Item>) {
    && (forall i :: 0 <= i < |w| ==> w[i].WaitFor?)
    && forall i, j :: 0 <= i < j < |w| ==> w[i].target != w[j].target
  }

  lemma {:induction false} WaitsAreDistinct(
    place: map<NodeId, Place>, backend: Backends, reqs: seq<NodeId>, part: seq<NodeId>, lane: Lane, seen: set<NodeId>,
    ticket: nat)
    requires forall i, j :: 0 <= i < j < |part| ==> part[i] != part[j]
    ensures DistinctTargets(Waits(place, backend, reqs, part, lane, seen, ticket))
    decreases |part|
  {
    if part != [] {
      var init, last := part[..|part| - 1], part[|part| - 1];
      WaitsAreDistinct(place, backend, reqs, init, lane, seen, ticket);
      var rest := Waits(place, backend, reqs, init, lane, seen, ticket);
      forall i | 0 <= i < |rest| ensures rest[i].target != last {
        var k :| 0 <= k < |init| && init[k] == rest[i].target;
        assert part[k] != part[|part| - 1];
      }
      DistinctAppend(rest, WaitFor(last, ticket));
    }
  }

  lemma DistinctAppend(w: seq<Item>, next: Item)
    requires next.WaitFor? && DistinctTargets(w) && forall i :: 0 <= i < |w| ==> w[i].target != next.target
    ensures DistinctTargets(w + [next])
  {
  }

  /** `q'` appends to `q` the waits of a submission, each target once, and the operation; a node is waited for
      exactly when it is awaited in the sense of positions. */
  ghost predicate Appends(
    y: Sys, backend: Backends, reqs: seq<NodeId>, n: NodeId, lane: Lane, seen: set<NodeId>, q: seq<Item>,
      q': seq<Item>) {
    && q <= q' && |q'| > |q| && q'[|q'| - 1] == Run(n, y.tickets)
    && (forall i :: |q| <= i < |q'| - 1 ==> q'[i].WaitFor? && q'[i].ticket == y.tickets)
    && (forall i, j :: |q| <= i < j < |q'| - 1 ==> q'[i].target != q'[j].target)
    && (forall w :: IsAwaited(y, backend, reqs, lane, seen, w) <==>
                    exists i :: |q| <= i < |q'| - 1 && q'[i].target == w)
  }

  /** What a submission appends to the queue of its lane. */
  lemma SubmissionWaits(y: Sys, backend: Backends, n: NodeId, lane: Lane, seen: set<NodeId>, regions: Regions)
    requires SysInv(y, regions) && SysEnabled(y, SubmitOp(n, lane, seen), regions)
    ensures Appends(y, backend, Requirements(y, n), n, lane, seen, y.queue[lane],
                    SysApply(y, SubmitOp(n, lane, seen), regions, backend).queue[lane])
  {
    WaitsAppended(y, backend, Requirements(y, n), n, lane, seen);
  }

  lemma WaitsAppended(y: Sys, backend: Backends, reqs: seq<NodeId>, n: NodeId, lane: Lane, seen: set<NodeId>)
    requires Places(y) && lane < |y.queue| && forall i, j :: 0 <= i < j < |reqs| ==> reqs[i] != reqs[j]
    ensures Appends(y, backend, reqs, n, lane, seen, y.queue[lane],
                    SubmitDirectly(y, backend, n, lane, reqs, seen).queue[lane])
  {
    var waits := Waits(y.place, backend, reqs, reqs, lane, seen, y.tickets);
    WaitsAreDistinct(y.place, backend, reqs, reqs, lane, seen, y.tickets);
    assert SubmitDirectly(y, backend, n, lane, reqs, seen).queue[lane] == y.queue[lane] + waits + [Run(n, y.tickets)];
    AppendsWaits(y, backend, reqs, n, lane, seen, y.queue[lane], waits);
  }

  lemma AppendsWaits(
    y: Sys, backend: Backends, reqs: seq<NodeId>, n: NodeId, lane: Lane, seen: set<NodeId>, q: seq<Item>,
      waits: seq<Item>)
    requires Places(y) && waits == Waits(y.place, backend, reqs, reqs, lane, seen, y.tickets)
    requires DistinctTargets(waits)
    ensures Appends(y, backend, reqs, n, lane, seen, q, q + waits + [Run(n, y.tickets)])
  {
    var q' := q + waits + [Run(n, y.tickets)];
    forall i | |q| <= i < |q'| - 1 ensures q'[i] == waits[i - |q|] && q'[i].WaitFor? && q'[i].ticket == y.tickets { }
    forall w
      ensures IsAwaited(y, backend, reqs, lane, seen, w) <==> exists i :: |q| <= i < |q'| - 1 && q'[i].target == w
    {
      AwaitedIffQueued(y, backend, reqs, lane, seen, w, waits);
      if k :| 0 <= k < |waits| && waits[k].target == w { assert q'[|q| + k].target == w; }
    }
  }

  lemma AwaitedIffQueued(
    y: Sys, backend: Backends, reqs: seq<NodeId>, lane: Lane, seen: set<NodeId>, w: NodeId, waits: seq<Item>)
    requires Places(y) && waits == Waits(y.place, backend, reqs, reqs, lane, seen, y.tickets)
    ensures IsAwaited(y, backend, reqs, lane, seen, w) <==> exists k :: 0 <= k < |waits| && waits[k].target == w
  {
    if w in reqs { NeedsWaitIff(y, backend, reqs, lane, seen, w); }
    if IsAwaited(y, backend, reqs, lane, seen, w) {
      var k :| 0 <= k < |waits| && waits[k] == WaitFor(w, y.tickets);
    }
  }

  /** At most one wait per other lane of the same backend. */
  lemma OneWaitPerLane(
    y: Sys, backend: Backends, reqs: seq<NodeId>, lane: Lane, seen: set<NodeId>, w: NodeId, v: NodeId)
    requires Places(y) && IsAwaited(y, backend, reqs, lane, seen, w) && IsAwaited(y, backend, reqs, lane, seen, v)
    requires y.place[w].lane == y.place[v].lane && backend(y.place[w].lane) == backend(lane)
    ensures w == v
  {
    PositionOrder(y, w, v);
  }
}
