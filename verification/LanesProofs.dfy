/** The lane system refines the graph-respecting executor and never deadlocks
    (src/runtime/inorder_executor.cpp:91-186). */
module LanesProofs {
  import opened Dag
  import opened Builder
  import opened Lanes
  import BuilderProofs
  import Serial

  // ---------------------------------------------------------------------------------------------
  // Settling virtual nodes

  lemma {:induction false} SettleRuns(
    s: State, place: map<NodeId, Place>, k: nat, regions: Regions)
    returns (events: seq<Event>)
    ensures IsRun(s, events, regions, Settle(s, place, k))
    decreases k
  {
    if k == 0 {
      events := [];
    } else {
      events := SettleRuns(s, place, k - 1, regions);
      var s1 := Settle(s, place, k - 1);
      if Completes(s1, place, k - 1) {
        BuilderProofs.RunAppend(s, events, Execute(k - 1), regions, s1);
        events := events + [Execute(k - 1)];
      }
    }
  }

  /** Settling only completes virtual nodes, and afterwards none is left that could complete. */
  lemma {:induction false} SettleFacts(s: State, place: map<NodeId, Place>, k: nat)
    requires EarlierOnly(s.g)
    ensures Settle(s, place, k) == s.(order := Settle(s, place, k).order) && s.order <= Settle(s, place, k).order
    ensures forall n :: n in Settle(s, place, k).order ==> n in s.order || (n in place && place[n].Virtual? && n < k)
    ensures forall n: NodeId :: n < k ==> !Completes(Settle(s, place, k), place, n)
    decreases k
  {
    if k > 0 {
      SettleFacts(s, place, k - 1);
      var s1, s2 := Settle(s, place, k - 1), Settle(s, place, k);
      forall n: NodeId | n < k - 1 ensures !Completes(s2, place, n) {
        if Completes(s2, place, n) {
          forall r | r in s.g.reqs[n] ensures r in s1.order { assert r in s2.order && r < n; }
          assert Completes(s1, place, n);
        }
      }
    }
  }

  // ---------------------------------------------------------------------------------------------
  // Growth keeps guards

  ghost predicate Extends(y: Sys, y': Sys) {
    && EarlierOnly(y.dag.g) && EarlierOnly(y'.dag.g) && |y.queue| == |y'.queue|
    && (forall n :: n in y.dag.order ==> n in y'.dag.order)
    && (forall n :: n in y.place ==> n in y'.place && y'.place[n] == y.place[n])
    && (forall n :: n in y.place && HasNode(y.dag.g, n) ==> HasNode(y'.dag.g, n) && y'.dag.g.reqs[n] == y.dag.g.reqs[n])
    && (forall l :: 0 <= l < |y.queue| ==> y.queue[l] <= y'.queue[l])
  }

  lemma {:induction false} GuardKept(y: Sys, y': Sys, l: Lane, pos: nat, r: NodeId)
    requires Extends(y, y') && l < |y.queue| && pos <= |y.queue[l]| && Guarded(y, l, pos, r)
    ensures pos <= |y'.queue[l]| && Guarded(y', l, pos, r)
    decreases r
  {
    if r !in y.dag.order {
      match y.place[r]
      case Virtual =>
        forall x | x in y.dag.g.reqs[r] ensures Guarded(y', l, pos, x) {
          GuardKept(y, y', l, pos, x);
        }
      case OnLane(rl, ri, rp, rt) =>
        if !(rl == l && rp < pos) {
          var q :| 0 <= q < pos && y.queue[l][q].WaitFor? && IsOnLane(y.place, y.queue[l][q].target) &&
            y.place[y.queue[l][q].target].lane == rl && rp <= y.place[y.queue[l][q].target].pos;
          assert y'.queue[l][q] == y.queue[l][q];
        }
    }
  }

  lemma KeepGuards(y: Sys, y': Sys)
    requires Extends(y, y') && Places(y) && Places(y') && RequirementsGuarded(y)
    requires forall m :: IsOnLane(y'.place, m) ==> IsOnLane(y.place, m)
    ensures RequirementsGuarded(y')
  {
    forall m: NodeId, r | IsOnLane(y'.place, m) && r in y'.dag.g.reqs[m]
      ensures Guarded(y', y'.place[m].lane, y'.place[m].pos, r)
    {
      GuardKept(y, y', y.place[m].lane, y.place[m].pos, r);
    }
  }

  lemma KeepEntries(y: Sys, y': Sys)
    requires Extends(y, y') && |y.head| == |y.queue| == |y'.head| && Entries(y)
    requires y'.queue == y.queue && y'.tickets == y.tickets
    requires forall l, p | 0 <= l < |y.queue| && y.head[l] <= p < y'.head[l] && p < |y.queue[l]|
             && y.queue[l][p].WaitFor?
               :: y.queue[l][p].target in y'.dag.order
    ensures Entries(y')
  {
    forall l, p | 0 <= l < |y'.queue| && 0 <= p < |y'.queue[l]| ensures EntryOk(y', l, p) {
      assert EntryOk(y, l, p);
    }
  }

  /** Once a lane has processed everything before `pos`, a guarded node is complete. */
  lemma {:induction false} GuardedAtHead(y: Sys, l: Lane, r: NodeId)
    requires EarlierOnly(y.dag.g) && Places(y) && Entries(y) && Settled(y) && l < |y.queue|
    requires Guarded(y, l, y.head[l], r)
    ensures r in y.dag.order
    decreases r
  {
    if r !in y.dag.order {
      match y.place[r]
      case Virtual =>
        forall x | x in y.dag.g.reqs[r] ensures x in y.dag.order {
          GuardedAtHead(y, l, x);
        }
      case OnLane(rl, ri, rp, rt) =>
        if !(rl == l && rp < y.head[l]) {
          var q :| 0 <= q < y.head[l] && y.queue[l][q].WaitFor? && IsOnLane(y.place, y.queue[l][q].target) &&
            y.place[y.queue[l][q].target].lane == rl && rp <= y.place[y.queue[l][q].target].pos;
          assert EntryOk(y, l, q);
        }
        assert IsOnLane(y.place, r);
    }
  }

  // ---------------------------------------------------------------------------------------------
  // Leaving out waits is safe

  /** A requirement without a wait of its own is complete, or some waited-for node follows it on its lane. */
  lemma WaitTarget(
    y: Sys, backend: Backends, lane: Lane, reqs: seq<NodeId>, seen: set<NodeId>, r: NodeId)
    returns (w: NodeId)
    requires Places(y) && r in reqs && IsOnLane(y.place, r) && y.place[r].lane != lane && r !in y.dag.order
    requires forall m :: m in seen ==> m in y.dag.order
    ensures w in reqs && IsOnLane(y.place, w) && y.place[w].lane == y.place[r].lane && y.place[r].pos <= y.place[w].pos
    ensures NeedsWait(y.place, backend, reqs, lane, seen, w)
  {
    var rl := y.place[r].lane;
    if backend(rl) != backend(lane) {
      w := r;
    } else {
      var top := MaxIndex(y.place, reqs, rl);
      assert y.place[r].index <= top;
      w :| w in reqs && IsOnLane(y.place, w) && y.place[w].lane == rl && y.place[w].index == top;
    }
  }

  /** Where the wait for `w` went. */
  lemma WaitPosition(
    y: Sys, y': Sys, backend: Backends, n: NodeId, lane: Lane, reqs: seq<NodeId>, seen: set<NodeId>, w: NodeId)
    returns (q: nat)
    requires lane < |y.queue| == |y.count| && y' == SubmitDirectly(y, backend, n, lane, reqs, seen)
    requires w in reqs && NeedsWait(y.place, backend, reqs, lane, seen, w)
    ensures q < y'.place[n].pos < |y'.queue[lane]| && y'.queue[lane][q] == WaitFor(w, y.tickets)
  {
    var waits := Waits(y.place, backend, reqs, reqs, lane, seen, y.tickets);
    var i :| 0 <= i < |waits| && waits[i] == WaitFor(w, y.tickets);
    q := |y.queue[lane]| + i;
  }

  /** The skipped waits are implied: after its waits, position `pos` of the lane guards every
      requirement handed to the executor. */
  lemma WaitsGuard(
    y: Sys, y': Sys, backend: Backends, n: NodeId, lane: Lane, reqs: seq<NodeId>, seen: set<NodeId>, r: NodeId)
    requires EarlierOnly(y.dag.g) && Places(y) && lane < |y.queue| && r in reqs && IsOnLane(y.place, r)
    requires forall m :: m in seen ==> m in y.dag.order
    requires n !in y.place && y' == SubmitDirectly(y, backend, n, lane, reqs, seen)
    ensures y'.place[n].pos <= |y'.queue[lane]| && Guarded(y', lane, y'.place[n].pos, r)
  {
    assert y'.place[r] == y.place[r];
    if r !in y.dag.order && y.place[r].lane != lane {
      var w := WaitTarget(y, backend, lane, reqs, seen, r);
      var q := WaitPosition(y, y', backend, n, lane, reqs, seen, w);
      assert y'.place[w] == y.place[w];
    }
  }

  /** Every live requirement, virtual or not, is guarded by what was collected from it. */
  lemma {:induction false} CollectedGuards(
    y: Sys, y': Sys, backend: Backends, n: NodeId, lane: Lane, reqs: seq<NodeId>, seen: set<NodeId>,
    list: seq<NodeId>, m: NodeId, r: NodeId)
    requires EarlierOnly(y.dag.g) && Places(y) && lane < |y.queue| && AllBelow(list, m)
    requires y.dag.g.known <= seen && (forall x :: x in seen ==> x in y.dag.order)
    requires (forall x :: x in y.dag.g.dead ==> x in y.dag.order)
    requires n !in y.place && y' == SubmitDirectly(y, backend, n, lane, reqs, seen)
    requires forall x :: x in NonVirtual(y.dag.g, y.place, m, list) ==> x in reqs || x in y.dag.g.known
    requires r in list && (r in y.dag.g.dead || r in y.place)
    ensures y'.place[n].pos <= |y'.queue[lane]| && Guarded(y', lane, y'.place[n].pos, r)
    decreases m, |list|
  {
    var init, last, g := list[..|list| - 1], list[|list| - 1], y.dag.g;
    var rest := NonVirtual(g, y.place, m, init);
    if r != last {
      assert list == init + [last];
      CollectedGuards(y, y', backend, n, lane, reqs, seen, init, m, r);
    } else if r !in y.dag.order {
      if y.place[r].Virtual? {
        RequirementsBelow(g, r);
        assert NonVirtual(g, y.place, m, list) == rest + NonVirtual(g, y.place, r, g.reqs[r]);
        forall x | x in g.reqs[r] ensures Guarded(y', lane, y'.place[n].pos, x) {
          if x !in y.dag.order {
            CollectedGuards(y, y', backend, n, lane, reqs, seen, g.reqs[r], r, x);
          }
        }
      } else {
        assert NonVirtual(g, y.place, m, list) == rest + [r];
        WaitsGuard(y, y', backend, n, lane, reqs, seen, r);
      }
    }
  }

  // ---------------------------------------------------------------------------------------------
  // Submission keeps the invariant

  lemma SubmitOpKeepsPlaces(
    y: Sys, y': Sys, backend: Backends, n: NodeId, lane: Lane, reqs: seq<NodeId>, seen: set<NodeId>)
    requires Places(y) && ReadyToSubmit(y, n) && lane < |y.queue|
    requires y' == SubmitDirectly(y, backend, n, lane, reqs, seen)
    ensures Places(y')
  {
    forall m | IsOnLane(y'.place, m) && m != n
      ensures y'.place[m] == y.place[m] && IsOnLane(y.place, m)
    {
    }
  }

  /** The queue of the lane after a submission: old entries, waits, the operation. */
  lemma SubmittedQueue(y: Sys, y': Sys, backend: Backends, n: NodeId, lane: Lane, reqs: seq<NodeId>, seen: set<NodeId>,
                       l: Lane, p: nat)
    requires lane < |y.queue| == |y.count| && y' == SubmitDirectly(y, backend, n, lane, reqs, seen)
    requires l < |y'.queue| && p < |y'.queue[l]|
    ensures var waits, base := Waits(y.place, backend, reqs, reqs, lane, seen, y.tickets), |y.queue[lane]|;
            if l != lane || p < base then p < |y.queue[l]| && y'.queue[l][p] == y.queue[l][p]
            else y'.queue[l][p] == if p < base + |waits| then waits[p - base] else Run(n, y.tickets)
  {
  }

  lemma SubmittedEntryOk(
    y: Sys, y': Sys, backend: Backends, n: NodeId, lane: Lane, reqs: seq<NodeId>, seen: set<NodeId>,
                         l: Lane, p: nat)
    requires Places(y) && Entries(y) && ReadyToSubmit(y, n) && lane < |y.queue|
    requires y' == SubmitDirectly(y, backend, n, lane, reqs, seen)
    requires l < |y'.queue| && p < |y'.queue[l]| && |y'.head| == |y'.queue|
    ensures EntryOk(y', l, p)
  {
    var waits, base := Waits(y.place, backend, reqs, reqs, lane, seen, y.tickets), |y.queue[lane]|;
    SubmittedQueue(y, y', backend, n, lane, reqs, seen, l, p);
    if l != lane || p < base {
      assert EntryOk(y, l, p);
    } else if p < base + |waits| {
      TicketBound(y, waits[p - base].target);
    }
  }

  lemma SubmittedTickets(
    y: Sys, y': Sys, backend: Backends, n: NodeId, lane: Lane, reqs: seq<NodeId>, seen: set<NodeId>,
                         l: Lane, p: nat, q: nat)
    requires Places(y) && Entries(y) && lane < |y.queue| && y' == SubmitDirectly(y, backend, n, lane, reqs, seen)
    requires l < |y'.queue| && p <= q < |y'.queue[l]|
    ensures y'.queue[l][p].ticket <= y'.queue[l][q].ticket
  {
    SubmittedQueue(y, y', backend, n, lane, reqs, seen, l, p);
    SubmittedQueue(y, y', backend, n, lane, reqs, seen, l, q);
    if p < |y.queue[l]| { assert EntryOk(y, l, p); }
  }

  lemma SubmitOpKeepsEntries(
    y: Sys, y': Sys, backend: Backends, n: NodeId, lane: Lane, reqs: seq<NodeId>, seen: set<NodeId>)
    requires Places(y) && Entries(y) && ReadyToSubmit(y, n) && lane < |y.queue|
    requires y' == SubmitDirectly(y, backend, n, lane, reqs, seen)
    ensures |y'.head| == |y'.queue| && Entries(y')
  {
    forall l: nat, p: nat | l < |y'.queue| && p < |y'.queue[l]| ensures EntryOk(y', l, p) {
      SubmittedEntryOk(y, y', backend, n, lane, reqs, seen, l, p);
    }
    forall l: nat, p: nat, q: nat | l < |y'.queue| && p <= q < |y'.queue[l]|
      ensures y'.queue[l][p].ticket <= y'.queue[l][q].ticket
    {
      SubmittedTickets(y, y', backend, n, lane, reqs, seen, l, p, q);
    }
  }

  lemma TicketBound(y: Sys, w: NodeId)
    requires Places(y) && Entries(y) && IsOnLane(y.place, w)
    ensures y.place[w].ticket < y.tickets
  {
    assert EntryOk(y, y.place[w].lane, y.place[w].pos);
  }

  lemma NewNodeGuarded(
    y: Sys, y': Sys, backend: Backends, n: NodeId, lane: Lane, seen: set<NodeId>, regions: Regions, r: NodeId)
    requires SysInv(y, regions) && SysEnabled(y, SubmitOp(n, lane, seen), regions) && r in y.dag.g.reqs[n]
    requires y' == SubmitDirectly(y, backend, n, lane, Requirements(y, n), seen)
    ensures y'.place[n].pos <= |y'.queue[lane]| && Guarded(y', lane, y'.place[n].pos, r)
  {
    RequirementsBelow(y.dag.g, n);
    assert n !in Done(y.dag) && y.dag.g.dead <= Done(y.dag);
    CollectedGuards(y, y', backend, n, lane, Requirements(y, n), seen, y.dag.g.reqs[n], n, r);
  }

  lemma SubmitExtends(y: Sys, y': Sys, backend: Backends, n: NodeId, lane: Lane, reqs: seq<NodeId>, seen: set<NodeId>)
    requires EarlierOnly(y.dag.g) && n !in y.place && lane < |y.queue| == |y.count|
    requires y' == SubmitDirectly(y, backend, n, lane, reqs, seen)
    ensures Extends(y, y') && y'.dag == y.dag && forall m :: m != n ==> (m in y'.place <==> m in y.place)
  {
  }

  lemma OldNodesGuarded(y: Sys, y': Sys, m: NodeId, r: NodeId)
    requires Extends(y, y') && Places(y) && RequirementsGuarded(y) && IsOnLane(y.place, m) && r in y.dag.g.reqs[m]
    ensures y.place[m].lane < |y'.queue| && y.place[m].pos <= |y'.queue[y.place[m].lane]|
    ensures Guarded(y', y.place[m].lane, y.place[m].pos, r)
  {
    GuardKept(y, y', y.place[m].lane, y.place[m].pos, r);
  }

  lemma SubmitOpKeepsGuards(
    y: Sys, y': Sys, backend: Backends, n: NodeId, lane: Lane, seen: set<NodeId>, regions: Regions)
    requires SysInv(y, regions) && SysEnabled(y, SubmitOp(n, lane, seen), regions)
    requires y' == SubmitDirectly(y, backend, n, lane, Requirements(y, n), seen) && Places(y')
    ensures RequirementsGuarded(y')
  {
    SubmitExtends(y, y', backend, n, lane, Requirements(y, n), seen);
    forall m: NodeId, r | IsOnLane(y'.place, m) && r in y.dag.g.reqs[m]
      ensures Guarded(y', y'.place[m].lane, y'.place[m].pos, r)
    {
      if m == n {
        NewNodeGuarded(y, y', backend, n, lane, seen, regions, r);
      } else {
        OldNodesGuarded(y, y', m, r);
      }
    }
  }

  lemma SubmitOpKeepsInv(y: Sys, backend: Backends, n: NodeId, lane: Lane, seen: set<NodeId>, regions: Regions)
    requires SysInv(y, regions) && SysEnabled(y, SubmitOp(n, lane, seen), regions)
    ensures SysInv(SysApply(y, SubmitOp(n, lane, seen), regions, backend), regions)
  {
    var y' := SysApply(y, SubmitOp(n, lane, seen), regions, backend);
    SubmitOpKeepsPlaces(y, y', backend, n, lane, Requirements(y, n), seen);
    SubmitOpKeepsEntries(y, y', backend, n, lane, Requirements(y, n), seen);
    SubmitOpKeepsGuards(y, y', backend, n, lane, seen, regions);
    forall m | m in y'.place ensures !Completes(y'.dag, y'.place, m) {
      if m != n { assert y'.place[m] == y.place[m]; }
    }
  }

  // ---------------------------------------------------------------------------------------------
  // Completion and host events keep the invariant

  /** Everything except settledness; what a step re-establishes before settling. */
  ghost predicate Unsettled(y: Sys, regions: Regions) {
    Inv(y.dag, regions) && Places(y) && Entries(y) && RequirementsGuarded(y)
  }

  lemma SettleKeepsInv(y: Sys, regions: Regions)
    requires Unsettled(y, regions)
    ensures SysInv(SettleAll(y), regions)
  {
    var y' := SettleAll(y);
    SettleFacts(y.dag, y.place, |y.dag.g.reqs|);
    var events := SettleRuns(y.dag, y.place, |y.dag.g.reqs|, regions);
    BuilderProofs.RunKeepsInv(y.dag, events, regions, y'.dag);
    assert Extends(y, y');
    assert Places(y');
    KeepEntries(y, y');
    KeepGuards(y, y');
  }

  lemma SubmitVirtualKeepsInv(y: Sys, backend: Backends, n: NodeId, regions: Regions)
    requires SysInv(y, regions) && SysEnabled(y, SubmitVirtual(n), regions)
    ensures SysInv(SysApply(y, SubmitVirtual(n), regions, backend), regions)
  {
    var y1 := y.(place := y.place[n := Virtual]);
    assert Extends(y, y1);
    assert forall m :: IsOnLane(y1.place, m) <==> IsOnLane(y.place, m);
    assert Places(y1) by {
      forall v, x | v in y1.place && y1.place[v].Virtual? && x in y1.dag.g.reqs[v]
        ensures x in y1.dag.order || x in y1.place
      {
        if v == n && x in y.dag.g.dead { assert x in Done(y.dag); }
      }
    }
    KeepEntries(y, y1);
    KeepGuards(y, y1);
    SettleKeepsInv(y1, regions);
  }

  /** A lane only runs a node whose requirements are all complete. */
  lemma RunIsEnabled(y: Sys, lane: Lane, regions: Regions)
    requires SysInv(y, regions) && CanStep(y, lane) && y.queue[lane][y.head[lane]].Run?
    ensures Enabled(y.dag, Execute(y.queue[lane][y.head[lane]].node), regions)
  {
    var n := y.queue[lane][y.head[lane]].node;
    assert EntryOk(y, lane, y.head[lane]);
    forall r | r in y.dag.g.reqs[n] ensures r in y.dag.order {
      GuardedAtHead(y, lane, r);
    }
  }

  lemma PassKeepsDag(y: Sys, lane: Lane, regions: Regions)
    requires SysInv(y, regions) && CanStep(y, lane)
    ensures Inv(Passed(y, lane).dag, regions) && Extends(y, Passed(y, lane))
  {
    var item := y.queue[lane][y.head[lane]];
    if item.Run? {
      RunIsEnabled(y, lane, regions);
      BuilderProofs.ExecuteKeepsInv(y.dag, item.node, regions);
    }
  }

  lemma PassKeepsPlaces(y: Sys, lane: Lane)
    requires Places(y) && Entries(y) && CanStep(y, lane)
    ensures Places(Passed(y, lane))
  {
    var y' := Passed(y, lane);
    assert EntryOk(y, lane, y.head[lane]);
    forall n | IsOnLane(y'.place, n)
      ensures n in y'.dag.order <==> y'.place[n].pos < y'.head[y'.place[n].lane]
    {
      PassCompletes(y, lane, n);
    }
  }

  /** Passing an entry completes exactly the node that the entry runs. */
  lemma PassCompletes(y: Sys, lane: Lane, n: NodeId)
    requires Places(y) && Entries(y) && CanStep(y, lane) && IsOnLane(y.place, n)
    ensures var y' := Passed(y, lane); n in y'.dag.order <==> y.place[n].pos < y'.head[y.place[n].lane]
  {
    assert EntryOk(y, lane, y.head[lane]);
    assert EntryOk(y, y.place[n].lane, y.place[n].pos);
  }

  lemma StepLaneKeepsInv(y: Sys, lane: Lane, regions: Regions)
    requires SysInv(y, regions) && CanStep(y, lane)
    ensures SysInv(StepLane(y, lane), regions)
  {
    var y1 := Passed(y, lane);
    PassKeepsDag(y, lane, regions);
    PassKeepsPlaces(y, lane);
    PassKeepsRest(y, lane);
    if y.queue[lane][y.head[lane]].Run? {
      SettleKeepsInv(y1, regions);
    }
  }

  lemma PassKeepsRest(y: Sys, lane: Lane)
    requires CanStep(y, lane) && Extends(y, Passed(y, lane)) && Places(y) && Entries(y) && RequirementsGuarded(y)
    requires Places(Passed(y, lane))
    ensures Entries(Passed(y, lane)) && RequirementsGuarded(Passed(y, lane))
  {
    KeepEntries(y, Passed(y, lane));
    KeepGuards(y, Passed(y, lane));
  }

  /** Changes to the graph that keep the lists of submitted nodes. */
  lemma DagChangeKeepsInv(y: Sys, y': Sys, regions: Regions)
    requires SysInv(y, regions) && Inv(y'.dag, regions) && y' == y.(dag := y'.dag) && y'.dag.order == y.dag.order
    requires forall n :: HasNode(y.dag.g, n) ==> HasNode(y'.dag.g, n) && y'.dag.g.reqs[n] == y.dag.g.reqs[n]
    ensures SysInv(y', regions)
  {
    assert Extends(y, y');
    KeepEntries(y, y');
    KeepGuards(y, y');
  }

  lemma HostKeepsInv(y: Sys, h: Event, regions: Regions)
    requires SysInv(y, regions) && !h.Execute? && Enabled(y.dag, h, regions)
    ensures SysInv(y.(dag := Apply(y.dag, h, regions)), regions)
  {
    var d := Apply(y.dag, h, regions);
    BuilderProofs.StepKeepsInv(y.dag, h, regions);
    forall n | HasNode(y.dag.g, n) ensures HasNode(d.g, n) && d.g.reqs[n] == y.dag.g.reqs[n] {
      if h.Submit? { BuilderProofs.OldListsKept(y.dag, h.grp, regions, h.depth, n); }
    }
    DagChangeKeepsInv(y, y.(dag := d), regions);
  }

  lemma SysStepKeepsInv(y: Sys, backend: Backends, e: SysEvent, regions: Regions)
    requires SysInv(y, regions) && SysEnabled(y, e, regions)
    ensures SysInv(SysApply(y, e, regions, backend), regions)
  {
    match e
    case Host(h) => HostKeepsInv(y, h, regions);
    case SubmitOp(n, lane, seen) => SubmitOpKeepsInv(y, backend, n, lane, seen, regions);
    case SubmitVirtual(n) => SubmitVirtualKeepsInv(y, backend, n, regions);
    case Step(lane) => StepLaneKeepsInv(y, lane, regions);
  }

  // ---------------------------------------------------------------------------------------------
  // Safety: the lanes refine the graph-respecting executor

  lemma SysStepRefines(y: Sys, backend: Backends, e: SysEvent, regions: Regions) returns (events: seq<Event>)
    requires SysInv(y, regions) && SysEnabled(y, e, regions)
    ensures IsRun(y.dag, events, regions, SysApply(y, e, regions, backend).dag)
  {
    match e
    case Host(h) =>
      events := [h];
      assert events[1..] == [];
    case SubmitOp(n, lane, seen) => events := [];
    case SubmitVirtual(n) => events := SettleRuns(y.dag, y.place[n := Virtual], |y.dag.g.reqs|, regions);
    case Step(lane) => events := StepLaneRefines(y, lane, regions);
  }

  lemma StepLaneRefines(y: Sys, lane: Lane, regions: Regions) returns (events: seq<Event>)
    requires SysInv(y, regions) && CanStep(y, lane)
    ensures IsRun(y.dag, events, regions, StepLane(y, lane).dag)
  {
    events := [];
    if y.queue[lane][y.head[lane]].Run? {
      var n, s := y.queue[lane][y.head[lane]].node, Passed(y, lane).dag;
      RunIsEnabled(y, lane, regions);
      BuilderProofs.RunAppend(y.dag, [], Execute(n), regions, y.dag);
      var settling := SettleRuns(s, y.place, |s.g.reqs|, regions);
      BuilderProofs.RunConcat(y.dag, [] + [Execute(n)], settling, regions, s, StepLane(y, lane).dag);
      events := [] + [Execute(n)] + settling;
    }
  }

  /** Every run of builder and lanes is a run of the graph-respecting executor. */
  lemma {:induction false} SysRunRefines(
    y: Sys, steps: seq<SysEvent>, regions: Regions, backend: Backends, y': Sys)
    returns (events: seq<Event>)
    requires SysInv(y, regions) && IsSysRun(y, steps, regions, backend, y')
    ensures IsRun(y.dag, events, regions, y'.dag) && SysInv(y', regions)
    decreases |steps|
  {
    if steps == [] {
      events := [];
    } else {
      var y1 := SysApply(y, steps[0], regions, backend);
      var first := SysStepRefines(y, backend, steps[0], regions);
      SysStepKeepsInv(y, backend, steps[0], regions);
      var rest := SysRunRefines(y1, steps[1..], regions, backend, y');
      BuilderProofs.RunConcat(y.dag, first, rest, regions, y1.dag, y'.dag);
      events := first + rest;
    }
  }

  lemma StartInv(lanes: nat, regions: Regions)
    ensures SysInv(Start(lanes), regions)
  {
    assert Extends(Start(lanes), Start(lanes));
  }

  /** Multi-lane safety: in every reachable state a node that has run is preceded, in completion
      order, by every node it reaches in the graph. */
  lemma RunAfterRequirements(
    lanes: nat, steps: seq<SysEvent>, regions: Regions, backend: Backends, y: Sys, lane: Lane, m: NodeId)
    requires IsSysRun(Start(lanes), steps, regions, backend, y) && CanStep(y, lane) && y.queue[lane][y.head[lane]].Run?
    requires EarlierOnly(y.dag.g) && Reaches(y.dag.g, y.queue[lane][y.head[lane]].node, m)
    ensures m in y.dag.order
  {
    StartInv(lanes, regions);
    var events := SysRunRefines(Start(lanes), steps, regions, backend, y);
    RunIsEnabled(y, lane, regions);
    BuilderProofs.ExecutedReachIsDone(y.dag, y.queue[lane][y.head[lane]].node, m, regions);
  }

  /** On one shared memory: whatever the lane choices, the skipped waits and the interleaving of host
      and lanes, operations see the inputs of submission order and the final contents are those of
      submission order. DeviceCopies.LaneCopiesAreSerialisable has a copy per device instead. */
  lemma LanesAreSerialisable<V>(
    lanes: nat, steps: seq<SysEvent>, regions: Regions, backend: Backends, y: Sys, k: Serial.Kernel<V>,
    mem: Serial.Memory<V>)
    requires IsSysRun(Start(lanes), steps, regions, backend, y)
    ensures var done, subs := Serial.Performed(y.dag.order, y.dag.commands), y.dag.commands;
            forall l, j :: 0 <= l < |done| && 0 <= j < |subs| && done[l] == subs[j] ==>
              Serial.Inputs(Serial.After(k, mem, done[..l], regions), done[l], regions) ==
              Serial.Inputs(Serial.After(k, mem, subs[..j], regions), subs[j], regions)
    ensures (forall c :: c in y.dag.commands ==> c.node in y.dag.order) ==>
              Serial.After(k, mem, Serial.Performed(y.dag.order, y.dag.commands), regions) ==
              Serial.After(k, mem, y.dag.commands, regions)
  {
    StartInv(lanes, regions);
    var events := SysRunRefines(Start(lanes), steps, regions, backend, y);
    Serial.RunIsSerialisable(events, regions, y.dag, k, mem);
  }

  // ---------------------------------------------------------------------------------------------
  // Deadlock freedom

  /** Starting from any lane with unprocessed entries, some lane can step: a blocked wait leads to a
      lane whose head belongs to an earlier submission. */
  lemma {:induction false} SomeLaneCanStep(y: Sys, l: Lane, regions: Regions) returns (lane: Lane)
    requires SysInv(y, regions) && l < |y.queue| && y.head[l] < |y.queue[l]|
    ensures CanStep(y, lane)
    decreases y.queue[l][y.head[l]].ticket
  {
    if CanStep(y, l) {
      lane := l;
    } else {
      assert EntryOk(y, l, y.head[l]);
      var w := y.queue[l][y.head[l]].target;
      var p := y.place[w];
      assert y.queue[p.lane][y.head[p.lane]].ticket <= y.queue[p.lane][p.pos].ticket;
      lane := SomeLaneCanStep(y, p.lane, regions);
    }
  }

  /** Number of unprocessed entries. */
  ghost function Remaining(queue: seq<seq<Item>>, head: seq<nat>): int
    requires |queue| == |head|
    decreases |queue|
  {
    if queue == [] then 0
    else |queue[|queue| - 1]| - head[|head| - 1] + Remaining(queue[..|queue| - 1], head[..|head| - 1])
  }

  lemma {:induction false} RemainingNonNegative(queue: seq<seq<Item>>, head: seq<nat>)
    requires |queue| == |head| && forall l :: 0 <= l < |queue| ==> head[l] <= |queue[l]|
    ensures Remaining(queue, head) >= 0
    decreases |queue|
  {
    if queue != [] { RemainingNonNegative(queue[..|queue| - 1], head[..|head| - 1]); }
  }

  lemma {:induction false} RemainingDrops(queue: seq<seq<Item>>, head: seq<nat>, l: nat)
    requires l < |queue| == |head|
    ensures Remaining(queue, head[l := head[l] + 1]) == Remaining(queue, head) - 1
    decreases |queue|
  {
    var k := |queue| - 1;
    if l < k {
      RemainingDrops(queue[..k], head[..k], l);
      assert head[l := head[l] + 1][..k] == head[..k][l := head[..k][l] + 1];
    } else {
      assert head[l := head[l] + 1][..k] == head[..k];
    }
  }

  /** The lanes processed in some order, without further submissions. */
  ghost predicate Drains(y: Sys, schedule: seq<Lane>, y': Sys)
    decreases |schedule|
  {
    if schedule == [] then y' == y
    else CanStep(y, schedule[0]) && Drains(StepLane(y, schedule[0]), schedule[1..], y')
  }

  /** When no lane can step, every submitted node is complete, whether it went to a lane or was
      submitted virtually. */
  lemma {:induction false} StuckIsFinished(y: Sys, regions: Regions, n: NodeId)
    requires SysInv(y, regions) && n in y.place && forall l :: !CanStep(y, l)
    ensures n in y.dag.order
    decreases n
  {
    if n !in y.dag.order {
      match y.place[n] {
        case OnLane(l, _, _, _) => var lane := SomeLaneCanStep(y, l, regions);
        case Virtual =>
          forall r | r in y.dag.g.reqs[n] ensures r in y.dag.order {
            if r in y.place { StuckIsFinished(y, regions, r); }
          }
      }
    }
  }

  lemma StepLaneShape(y: Sys, l: Lane)
    requires CanStep(y, l) && |y.queue| == |y.head|
    ensures var y1 := StepLane(y, l); y1.queue == y.queue && y1.place == y.place && |y1.head| == |y.head|
    ensures Remaining(y.queue, StepLane(y, l).head) == Remaining(y.queue, y.head) - 1
  {
    RemainingDrops(y.queue, y.head, l);
  }

  /** Every schedule of the lanes is bounded by the number of unprocessed entries. */
  lemma {:induction false} DrainIsBounded(y: Sys, schedule: seq<Lane>, y': Sys)
    requires Drains(y, schedule, y') && |y.queue| == |y.head|
    ensures y'.queue == y.queue && y'.place == y.place && |y'.head| == |y.head|
    ensures |schedule| + Remaining(y'.queue, y'.head) == Remaining(y.queue, y.head)
    decreases |schedule|
  {
    if schedule != [] {
      StepLaneShape(y, schedule[0]);
      DrainIsBounded(StepLane(y, schedule[0]), schedule[1..], y');
    }
  }

  lemma {:induction false} DrainKeepsInv(y: Sys, schedule: seq<Lane>, regions: Regions, y': Sys)
    requires SysInv(y, regions) && Drains(y, schedule, y')
    ensures SysInv(y', regions)
    decreases |schedule|
  {
    if schedule != [] {
      StepLaneKeepsInv(y, schedule[0], regions);
      DrainKeepsInv(StepLane(y, schedule[0]), schedule[1..], regions, y');
    }
  }

  /** Every schedule has at most as many steps as there are unprocessed entries, and when it cannot
      go on every submitted node is complete. */
  lemma DrainFinishes(y: Sys, schedule: seq<Lane>, regions: Regions, y': Sys, n: NodeId)
    requires SysInv(y, regions) && Drains(y, schedule, y') && n in y.place
    ensures |schedule| <= Remaining(y.queue, y.head)
    ensures (exists l :: CanStep(y', l)) || n in y'.dag.order
  {
    DrainKeepsInv(y, schedule, regions, y');
    DrainIsBounded(y, schedule, y');
    RemainingNonNegative(y'.queue, y'.head);
    if forall l :: !CanStep(y', l) {
      StuckIsFinished(y', regions, n);
    }
  }

  /** Deadlock freedom of every run: in each reachable state with an unfinished submitted node some
      lane can step, and processing the lanes in any order completes all submitted nodes after a
      bounded number of steps. */
  lemma RunsNeverDeadlock(lanes: nat, steps: seq<SysEvent>, regions: Regions, backend: Backends, y: Sys,
                          schedule: seq<Lane>, y': Sys, n: NodeId)
    requires IsSysRun(Start(lanes), steps, regions, backend, y) && Drains(y, schedule, y') && n in y.place
    ensures n !in y.dag.order ==> exists l :: CanStep(y, l)
    ensures |y.queue| == |y.head| && |schedule| <= Remaining(y.queue, y.head)
    ensures (forall l :: !CanStep(y', l)) ==> n in y'.dag.order
  {
    StartInv(lanes, regions);
    var events := SysRunRefines(Start(lanes), steps, regions, backend, y);
    if forall l :: !CanStep(y, l) { StuckIsFinished(y, regions, n); }
    DrainFinishes(y, schedule, regions, y', n);
  }
}
