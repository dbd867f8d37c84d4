/** How much order the lanes add to the graph: none that can be relied on. When every node gets a lane
    of its own, nodes submitted in the order of building complete in any order that the graph allows
    (src/runtime/inorder_executor.cpp:91-186). */
module LaneOrder {
  import opened Dag
  import opened Builder
  import opened Lanes
  import BuilderProofs
  import opened LanesProofs
  import opened TransferOrder

  // ---------------------------------------------------------------------------------------------
  // Runs of the system

  lemma SysRunCons(y: Sys, e: SysEvent, rest: seq<SysEvent>, regions: Regions, backend: Backends, y': Sys)
    requires SysEnabled(y, e, regions) && IsSysRun(SysApply(y, e, regions, backend), rest, regions, backend, y')
    ensures IsSysRun(y, [e] + rest, regions, backend, y')
  {
    assert ([e] + rest)[1..] == rest;
  }

  lemma SysRunHead(y: Sys, a: seq<SysEvent>, regions: Regions, backend: Backends, m: Sys) returns (y1: Sys)
    requires a != [] && IsSysRun(y, a, regions, backend, m)
    ensures SysEnabled(y, a[0], regions) && y1 == SysApply(y, a[0], regions, backend)
    ensures IsSysRun(y1, a[1..], regions, backend, m)
  {
    y1 := SysApply(y, a[0], regions, backend);
  }

  lemma {:induction false} SysRunConcat(
    y: Sys, a: seq<SysEvent>, b: seq<SysEvent>, regions: Regions, backend: Backends, m: Sys, y': Sys)
    requires IsSysRun(y, a, regions, backend, m) && IsSysRun(m, b, regions, backend, y')
    ensures IsSysRun(y, a + b, regions, backend, y')
    decreases |a|
  {
    if a == [] {
      assert a + b == b;
    } else {
      var y1 := SysRunHead(y, a, regions, backend, m);
      SysRunConcat(y1, a[1..], b, regions, backend, m, y');
      SysRunCons(y, a[0], a[1..] + b, regions, backend, y');
      BuilderProofs.HeadFirst(a, b);
    }
  }

  /** No groups are built; nodes are submitted and lanes go on. */
  ghost predicate OnlyLanes(steps: seq<SysEvent>) {
    forall i :: 0 <= i < |steps| ==> !steps[i].Host?
  }

  /** Some course of the lanes leads from `y` to `y'`. */
  ghost predicate Leads(y: Sys, regions: Regions, backend: Backends, y': Sys) {
    exists steps :: OnlyLanes(steps) && IsSysRun(y, steps, regions, backend, y')
  }

  lemma LeadsTransitive(y: Sys, m: Sys, y': Sys, regions: Regions, backend: Backends)
    requires Leads(y, regions, backend, m) && Leads(m, regions, backend, y')
    ensures Leads(y, regions, backend, y')
  {
    var a :| OnlyLanes(a) && IsSysRun(y, a, regions, backend, m);
    var b :| OnlyLanes(b) && IsSysRun(m, b, regions, backend, y');
    SysRunConcat(y, a, b, regions, backend, m, y');
    OnlyLanesConcat(a, b);
  }

  lemma OnlyLanesConcat(a: seq<SysEvent>, b: seq<SysEvent>)
    requires OnlyLanes(a) && OnlyLanes(b)
    ensures OnlyLanes(a + b)
  {
  }

  lemma {:induction false} SysRunSplit(
    y: Sys, a: seq<SysEvent>, b: seq<SysEvent>, regions: Regions, backend: Backends, y': Sys) returns (m: Sys)
    requires IsSysRun(y, a + b, regions, backend, y')
    ensures IsSysRun(y, a, regions, backend, m) && IsSysRun(m, b, regions, backend, y')
    decreases |a|
  {
    if a == [] {
      assert a + b == b;
      m := y;
    } else {
      assert (a + b)[1..] == a[1..] + b;
      m := SysRunSplit(SysApply(y, a[0], regions, backend), a[1..], b, regions, backend, y');
    }
  }

  lemma SysRunOne(y: Sys, e: SysEvent, regions: Regions, backend: Backends)
    requires SysEnabled(y, e, regions)
    ensures IsSysRun(y, [e], regions, backend, SysApply(y, e, regions, backend))
    ensures !e.Host? ==> Leads(y, regions, backend, SysApply(y, e, regions, backend))
  {
    var y' := SysApply(y, e, regions, backend);
    assert IsSysRun(y', [e][1..], regions, backend, y');
    assert IsSysRun(y, [e], regions, backend, y');
    assert !e.Host? ==> OnlyLanes([e]);
  }

  lemma LeadsNowhere(y: Sys, regions: Regions, backend: Backends)
    ensures Leads(y, regions, backend, y)
  {
    assert OnlyLanes([]) && IsSysRun(y, [], regions, backend, y);
  }

  /** Command groups that are built one after the other. */
  ghost predicate OnlySubmits(events: seq<Event>) {
    forall i :: 0 <= i < |events| ==> events[i].Submit?
  }

  ghost function Hosts(events: seq<Event>): (steps: seq<SysEvent>)
    ensures |steps| == |events| && forall i :: 0 <= i < |events| ==> steps[i] == Host(events[i])
  {
    seq(|events|, i requires 0 <= i < |events| => Host(events[i]))
  }

  lemma HostsHead(events: seq<Event>)
    requires events != []
    ensures Hosts(events) == [Host(events[0])] + Hosts(events[1..]) && Hosts(events)[1..] == Hosts(events[1..])
  {
  }

  lemma {:induction false} HostRun(y: Sys, events: seq<Event>, regions: Regions, backend: Backends, s: State)
    requires OnlySubmits(events) && IsRun(y.dag, events, regions, s)
    ensures IsSysRun(y, Hosts(events), regions, backend, y.(dag := s))
    decreases |events|
  {
    if events != [] {
      var y1 := y.(dag := Apply(y.dag, events[0], regions));
      HostRun(y1, events[1..], regions, backend, s);
      SysRunCons(y, Host(events[0]), Hosts(events[1..]), regions, backend, y.(dag := s));
      HostsHead(events);
    }
  }

  lemma {:induction false} HostRunUnique(
    y: Sys, events: seq<Event>, regions: Regions, backend: Backends, s: State, y': Sys)
    requires OnlySubmits(events) && IsRun(y.dag, events, regions, s)
    requires IsSysRun(y, Hosts(events), regions, backend, y')
    ensures y' == y.(dag := s)
    decreases |events|
  {
    if events != [] {
      var y1 := y.(dag := Apply(y.dag, events[0], regions));
      HostsHead(events);
      HostRunUnique(y1, events[1..], regions, backend, s, y');
    }
  }

  /** Nothing has completed. */
  ghost predicate Untouched(s: State) {
    s.order == [] && s.g.known == {} && s.g.dead == {} && EarlierOnly(s.g)
  }

  lemma {:induction false} SubmitsTouchNothing(s: State, events: seq<Event>, regions: Regions, s': State)
    requires Inv(s, regions) && Untouched(s) && OnlySubmits(events) && IsRun(s, events, regions, s')
    ensures Inv(s', regions) && Untouched(s')
    decreases |events|
  {
    if events != [] {
      BuilderProofs.StepKeepsInv(s, events[0], regions);
      SubmitsTouchNothing(Apply(s, events[0], regions), events[1..], regions, s');
    }
  }

  // ---------------------------------------------------------------------------------------------
  // Every node virtual or on a lane of its own

  /** The queue of node `n`: waits for nodes that it reaches, then the node. */
  ghost predicate OwnQueue(g: Graph, q: seq<Item>, n: NodeId)
    requires EarlierOnly(g)
  {
    && q != [] && q[|q| - 1].Run? && q[|q| - 1].node == n
    && forall i :: 0 <= i < |q| - 1 ==> q[i].WaitFor? && Reaches(g, n, q[i].target)
  }

  /** The nodes below `k` are submitted: those of `vs` virtually, the others on lanes of their own. */
  ghost predicate Laid(y: Sys, k: nat, vs: set<NodeId>) {
    && EarlierOnly(y.dag.g) && y.dag.g.known == {} && y.dag.g.dead == {}
    && k <= |y.dag.g.reqs| <= |y.queue| == |y.count| == |y.head|
    && (forall n :: n in y.place <==> 0 <= n < k)
    && (forall n :: 0 <= n < k ==> (y.place[n].Virtual? <==> n in vs))
    && (forall n: nat :: n < k && n !in vs ==> OwnQueue(y.dag.g, y.queue[n], n))
    && (forall l :: k <= l < |y.queue| ==> y.queue[l] == [])
    && (forall r :: r in y.dag.order ==> r in y.place)
  }

  ghost predicate Spread(y: Sys, k: nat, vs: set<NodeId>) {
    Laid(y, k, vs) && Settled(y)
  }

  lemma {:induction false} NonVirtualIsReached(
    g: Graph, place: map<NodeId, Place>, m: NodeId, list: seq<NodeId>, n: NodeId)
    requires EarlierOnly(g) && g.dead == {} && AllBelow(list, m) && forall r :: r in list ==> Reaches(g, n, r)
    ensures forall r :: r in NonVirtual(g, place, m, list) ==> Reaches(g, n, r)
    decreases m, |list|
  {
    if list != [] {
      var r := list[|list| - 1];
      assert r in list && forall e :: e in list[..|list| - 1] ==> e in list;
      NonVirtualIsReached(g, place, m, list[..|list| - 1], n);
      if r in place && place[r].Virtual? && HasNode(g, r) {
        RequirementsBelow(g, r);
        forall e | e in g.reqs[r] ensures Reaches(g, n, e) {
          assert Reaches(g, r, e);
          ReachesTransitive(g, n, r, e);
        }
        NonVirtualIsReached(g, place, r, g.reqs[r], n);
      }
    }
  }

  /** No lane has begun, so only virtual nodes can be complete. */
  ghost predicate NotBegun(y: Sys, vs: set<NodeId>) {
    (forall l :: 0 <= l < |y.head| ==> y.head[l] == 0) && forall r :: r in y.dag.order ==> r in vs
  }

  lemma SubmitToOwnLane(y: Sys, k: nat, vs: set<NodeId>, backend: Backends)
    requires Spread(y, k, vs) && k < |y.dag.g.reqs| && k !in vs
    ensures var y' := SubmitDirectly(y, backend, k, k, Requirements(y, k), {});
            Spread(y', k + 1, vs) && y'.dag == y.dag && y'.head == y.head
  {
    var g := y.dag.g;
    RequirementsBelow(g, k);
    forall r | r in g.reqs[k] ensures Reaches(g, k, r) { }
    NonVirtualIsReached(g, y.place, k, g.reqs[k], k);
    var reqs := Requirements(y, k);
    var waits := Waits(y.place, backend, reqs, reqs, k, {}, y.tickets);
    var y' := SubmitDirectly(y, backend, k, k, reqs, {});
    assert y'.queue[k] == waits + [Run(k, y.tickets)];
    assert OwnQueue(g, y'.queue[k], k);
  }

  lemma SettledIsSpread(y: Sys, k: nat, vs: set<NodeId>)
    requires Laid(y, k, vs)
    ensures Spread(SettleAll(y), k, vs) && SettleAll(y) == y.(dag := y.dag.(order := SettleAll(y).dag.order))
    ensures forall r :: r in y.dag.order ==> r in SettleAll(y).dag.order
    ensures forall r :: r in SettleAll(y).dag.order ==> r in y.dag.order || r in vs
  {
    SettleFacts(y.dag, y.place, |y.dag.g.reqs|);
  }

  lemma SubmitAsVirtual(y: Sys, k: nat, vs: set<NodeId>)
    requires Spread(y, k, vs) && k < |y.dag.g.reqs| && k in vs
    ensures var y' := SettleAll(y.(place := y.place[k := Virtual]));
            && Spread(y', k + 1, vs) && y'.head == y.head && y'.dag == y.dag.(order := y'.dag.order)
            && forall r :: r in y'.dag.order ==> r in y.dag.order || r in vs
  {
    SettledIsSpread(y.(place := y.place[k := Virtual]), k + 1, vs);
  }

  ghost function SubmitOf(n: NodeId, vs: set<NodeId>): SysEvent {
    if n in vs then SubmitVirtual(n) else SubmitOp(n, n, {})
  }

  lemma SpreadNext(y: Sys, k: nat, vs: set<NodeId>, regions: Regions, backend: Backends)
    requires Spread(y, k, vs) && NotBegun(y, vs) && k < |y.dag.g.reqs|
    ensures SysEnabled(y, SubmitOf(k, vs), regions)
    ensures var y' := SysApply(y, SubmitOf(k, vs), regions, backend);
            Spread(y', k + 1, vs) && NotBegun(y', vs) && y'.dag == y.dag.(order := y'.dag.order)
  {
    assert ReadyToSubmit(y, k);
    if k in vs { SubmitAsVirtual(y, k, vs); } else { SubmitToOwnLane(y, k, vs, backend); }
  }

  ghost predicate InOrder(steps: seq<SysEvent>, k: nat, vs: set<NodeId>) {
    |steps| >= k && forall i: nat :: i < k ==> steps[i] == SubmitOf(i, vs)
  }

  /** All nodes are submitted in the order of building. */
  lemma {:induction false} SpreadAll(y: Sys, k: nat, vs: set<NodeId>, regions: Regions, backend: Backends)
    returns (steps: seq<SysEvent>, y': Sys)
    requires Spread(y, 0, vs) && NotBegun(y, vs) && k <= |y.dag.g.reqs|
    ensures IsSysRun(y, steps, regions, backend, y') && Spread(y', k, vs) && NotBegun(y', vs)
    ensures y'.dag == y.dag.(order := y'.dag.order) && |steps| == k && InOrder(steps, k, vs)
    decreases k
  {
    if k == 0 {
      steps, y' := [], y;
    } else {
      var before, m := SpreadAll(y, k - 1, vs, regions, backend);
      SpreadNext(m, k - 1, vs, regions, backend);
      var e := SubmitOf(k - 1, vs);
      SysRunOne(m, e, regions, backend);
      y' := SysApply(m, e, regions, backend);
      SysRunConcat(y, before, [e], regions, backend, m, y');
      steps := before + [e];
    }
  }

  // ---------------------------------------------------------------------------------------------
  // Letting single lanes go on

  /** Only the lane of `n` has gone on, to position `h`, and perhaps completed its node and virtual ones. */
  ghost predicate Moved(y: Sys, n: NodeId, h: nat, vs: set<NodeId>, y': Sys) {
    && n < |y.head| && y' == y.(head := y.head[n := h], dag := y.dag.(order := y'.dag.order))
    && (forall r :: r in y.dag.order ==> r in y'.dag.order)
    && forall r :: r in y'.dag.order ==> r in y.dag.order || r in vs || r == n
  }

  /** Everything that `n` reaches is complete. */
  ghost predicate Free(y: Sys, n: NodeId)
    requires EarlierOnly(y.dag.g)
  {
    forall r: NodeId :: Reaches(y.dag.g, n, r) ==> r in y.dag.order
  }

  lemma PassedIsLaid(y: Sys, n: NodeId, vs: set<NodeId>)
    requires Spread(y, |y.dag.g.reqs|, vs) && n < |y.dag.g.reqs| && CanStep(y, n) && n !in vs
    requires y.queue[n][y.head[n]].Run? && y.queue[n][y.head[n]].node == n
    ensures Laid(Passed(y, n), |y.dag.g.reqs|, vs) && Passed(y, n).dag == y.dag.(order := y.dag.order + [n])
  {
  }

  lemma OneStep(y: Sys, n: NodeId, vs: set<NodeId>, regions: Regions, backend: Backends) returns (y': Sys)
    requires Spread(y, |y.dag.g.reqs|, vs) && n < |y.dag.g.reqs| && n !in vs && y.head[n] < |y.queue[n]| && Free(y, n)
    ensures SysEnabled(y, Step(n), regions) && y' == SysApply(y, Step(n), regions, backend)
    ensures Spread(y', |y.dag.g.reqs|, vs) && Moved(y, n, y.head[n] + 1, vs, y')
    ensures y.head[n] == |y.queue[n]| - 1 ==> n in y'.dag.order
    ensures y.head[n] < |y.queue[n]| - 1 ==> y'.dag.order == y.dag.order
  {
    assert OwnQueue(y.dag.g, y.queue[n], n);
    if y.head[n] < |y.queue[n]| - 1 {
      assert Reaches(y.dag.g, n, y.queue[n][y.head[n]].target);
    }
    y' := SysApply(y, Step(n), regions, backend);
    if y.head[n] == |y.queue[n]| - 1 {
      PassedIsLaid(y, n, vs);
      SettledIsSpread(Passed(y, n), |y.dag.g.reqs|, vs);
    }
  }

  /** A lane runs through when everything its node reaches is complete. */
  lemma {:induction false} LaneFinishes(y: Sys, n: NodeId, vs: set<NodeId>, regions: Regions, backend: Backends)
    returns (y': Sys)
    requires Spread(y, |y.dag.g.reqs|, vs) && n < |y.dag.g.reqs| && n !in vs
    requires y.head[n] < |y.queue[n]| && Free(y, n)
    ensures Leads(y, regions, backend, y') && Spread(y', |y.dag.g.reqs|, vs)
    ensures Moved(y, n, |y.queue[n]|, vs, y') && n in y'.dag.order
    decreases |y.queue[n]| - y.head[n]
  {
    var m := OneStep(y, n, vs, regions, backend);
    SysRunOne(y, Step(n), regions, backend);
    if m.head[n] == |y.queue[n]| {
      y' := m;
    } else {
      y' := LaneFinishes(m, n, vs, regions, backend);
      LeadsTransitive(y, m, y', regions, backend);
    }
  }

  /** Lanes have run through or not begun, according to their nodes; of the nodes on lanes only some that
      `n` reaches are complete, among them all below `k`. */
  ghost predicate Halfway(y: Sys, vs: set<NodeId>, n: NodeId, k: nat) {
    && Spread(y, |y.dag.g.reqs|, vs)
    && (forall m: nat :: m < |y.dag.g.reqs| && m !in vs ==>
          y.head[m] == if m in y.dag.order then |y.queue[m]| else 0)
    && (forall r: NodeId :: r in y.dag.order ==> r in vs || Reaches(y.dag.g, n, r))
    && (forall r: NodeId :: r < k && Reaches(y.dag.g, n, r) ==> r in y.dag.order)
  }

  /** A virtual node whose requirements are complete is complete. */
  lemma VirtualIsDone(y: Sys, vs: set<NodeId>, m: NodeId)
    requires Spread(y, |y.dag.g.reqs|, vs) && m < |y.dag.g.reqs| && m in vs && Free(y, m)
    ensures m in y.dag.order
  {
    forall r | r in y.dag.g.reqs[m] ensures r in y.dag.order { assert Reaches(y.dag.g, m, r); }
    assert !Completes(y.dag, y.place, m);
  }

  lemma FinishNext(y: Sys, vs: set<NodeId>, n: NodeId, k: NodeId, regions: Regions, backend: Backends)
    returns (y': Sys)
    requires Halfway(y, vs, n, k) && k < |y.dag.g.reqs|
    ensures Leads(y, regions, backend, y') && Halfway(y', vs, n, k + 1)
    ensures y'.dag == y.dag.(order := y'.dag.order)
  {
    y' := y;
    LeadsNowhere(y, regions, backend);
    if Reaches(y.dag.g, n, k) && k !in y.dag.order {
      forall r: NodeId | Reaches(y.dag.g, k, r) ensures r in y.dag.order {
        ReachesIsEarlier(y.dag.g, k, r);
        ReachesTransitive(y.dag.g, n, k, r);
      }
      if k in vs {
        VirtualIsDone(y, vs, k);
      } else {
        assert OwnQueue(y.dag.g, y.queue[k], k);
        y' := LaneFinishes(y, k, vs, regions, backend);
      }
    }
  }

  /** Completes the nodes below `k` that `n` reaches. */
  lemma {:induction false} FinishBelow(
    y: Sys, vs: set<NodeId>, n: NodeId, k: nat, regions: Regions, backend: Backends) returns (y': Sys)
    requires Halfway(y, vs, n, 0) && n < |y.dag.g.reqs| && k <= n
    ensures Leads(y, regions, backend, y') && Halfway(y', vs, n, k)
    ensures y'.dag == y.dag.(order := y'.dag.order)
    decreases k
  {
    if k == 0 {
      y' := y;
      LeadsNowhere(y, regions, backend);
    } else {
      var m := FinishBelow(y, vs, n, k - 1, regions, backend);
      y' := FinishNext(m, vs, n, k - 1, regions, backend);
      LeadsTransitive(y, m, y', regions, backend);
    }
  }

  /** Completes `n`, and of the other nodes on lanes only those that it reaches. */
  lemma FinishNode(y: Sys, vs: set<NodeId>, n: NodeId, regions: Regions, backend: Backends) returns (y': Sys)
    requires Halfway(y, vs, n, 0) && n < |y.dag.g.reqs|
    ensures Leads(y, regions, backend, y') && n in y'.dag.order
    ensures forall r: NodeId :: r in y'.dag.order ==> r in vs || r == n || Reaches(y.dag.g, n, r)
  {
    var m := FinishBelow(y, vs, n, n, regions, backend);
    forall r: NodeId | Reaches(y.dag.g, n, r) ensures r in m.dag.order { ReachesIsEarlier(y.dag.g, n, r); }
    if n in vs {
      VirtualIsDone(m, vs, n);
      y' := m;
    } else if n in m.dag.order {
      y' := m;
    } else {
      assert OwnQueue(m.dag.g, m.queue[n], n);
      y' := LaneFinishes(m, n, vs, regions, backend);
      LeadsTransitive(y, m, y', regions, backend);
    }
  }

  // ---------------------------------------------------------------------------------------------
  // Main results

  /** All nodes of an untouched graph are submitted; then the lanes complete `n`, and of the other nodes
      on lanes only those that it reaches. */
  lemma CompletesFrom(y: Sys, vs: set<NodeId>, n: NodeId, regions: Regions, backend: Backends)
    returns (steps: seq<SysEvent>, y': Sys)
    requires Spread(y, 0, vs) && NotBegun(y, vs) && n < |y.dag.g.reqs|
    ensures IsSysRun(y, steps, regions, backend, y') && InOrder(steps, |y.dag.g.reqs|, vs) && n in y'.dag.order
    ensures OnlyLanes(steps)
    ensures forall r: NodeId :: r in y'.dag.order ==> r in vs || r == n || Reaches(y.dag.g, n, r)
  {
    var submits, m := SpreadAll(y, |y.dag.g.reqs|, vs, regions, backend);
    assert Halfway(m, vs, n, 0);
    y' := FinishNode(m, vs, n, regions, backend);
    var rest :| OnlyLanes(rest) && IsSysRun(m, rest, regions, backend, y');
    steps := submits + rest;
    OnlyLanesConcat(submits, rest);
    SysRunConcat(y, submits, rest, regions, backend, m, y');
  }

  lemma StartIsSpread(s: State, vs: set<NodeId>)
    requires Untouched(s)
    ensures var y := Start(|s.g.reqs|).(dag := s);
            Spread(y, 0, vs) && NotBegun(y, vs)
  {
  }

  /** The groups of `events` are built and all nodes submitted in that order, those of `vs` virtually and
      the others each to a lane of its own; then some course of the lanes completes `n`, and of the
      other nodes on lanes only those that it reaches. */
  lemma CompletesAlone(
    events: seq<Event>, vs: set<NodeId>, regions: Regions, backend: Backends, s: State, n: NodeId)
    returns (steps: seq<SysEvent>, y: Sys)
    requires OnlySubmits(events) && IsRun(Init, events, regions, s) && Untouched(s) && n < |s.g.reqs|
    ensures IsSysRun(Start(|s.g.reqs|), Hosts(events) + steps, regions, backend, y)
    ensures InOrder(steps, |s.g.reqs|, vs) && OnlyLanes(steps) && n in y.dag.order
    ensures forall r: NodeId :: r in y.dag.order ==> r in vs || r == n || Reaches(s.g, n, r)
  {
    var z := Start(|s.g.reqs|);
    var built := z.(dag := s);
    StartIsSpread(s, vs);
    HostRun(z, events, regions, backend, s);
    steps, y := CompletesFrom(built, vs, n, regions, backend);
    SysRunConcat(z, Hosts(events), steps, regions, backend, built, y);
  }

  /** When the built nodes are submitted in order, those of `vs` virtually, then `n` completes after `x`
      whatever the lanes and their course. */
  ghost predicate AlwaysAfterOnLanes(
    events: seq<Event>, nodes: nat, vs: set<NodeId>, regions: Regions, backend: Backends, x: NodeId, n: NodeId) {
    forall lanes, steps, y | InTurn(steps, nodes, vs)
      && IsSysRun(Start(lanes), Hosts(events) + steps, regions, backend, y)
      :: Before(y.dag.order, x, n)
  }

  /** The first steps submit the nodes in order, to any lanes, those of `vs` virtually. */
  ghost predicate InTurn(steps: seq<SysEvent>, k: nat, vs: set<NodeId>) {
    && |steps| >= k
    && forall i: nat :: i < k ==>
         if i in vs then steps[i] == SubmitVirtual(i) else steps[i].SubmitOp? && steps[i].n == i
  }

  lemma ReachedIsFirst(
    events: seq<Event>, regions: Regions, backend: Backends, s: State, x: NodeId, n: NodeId,
    lanes: nat, steps: seq<SysEvent>, y: Sys)
    requires OnlySubmits(events) && IsRun(Init, events, regions, s) && HasNode(s.g, n)
    requires EarlierOnly(s.g) && Reaches(s.g, n, x)
    requires IsSysRun(Start(lanes), Hosts(events) + steps, regions, backend, y)
    ensures Before(y.dag.order, x, n)
  {
    InitPlaced(regions);
    SubmitsTouchNothing(Init, events, regions, s);
    var m := SysRunSplit(Start(lanes), Hosts(events), steps, regions, backend, y);
    HostRunUnique(Start(lanes), events, regions, backend, s, m);
    StartInv(lanes, regions);
    var before := SysRunRefines(Start(lanes), Hosts(events), regions, backend, m);
    var after := SysRunRefines(m, steps, regions, backend, y);
    RunKeepsPrecedes(s, after, regions, y.dag, x, n);
  }

  lemma NotBefore(order: seq<NodeId>, x: NodeId, n: NodeId)
    requires n in order && x !in order
    ensures !Before(order, x, n)
  {
    var k :| 0 <= k < |order| && order[k] == n;
    assert x !in order[..k];
  }

  lemma UnreachedIsNot(
    events: seq<Event>, vs: set<NodeId>, regions: Regions, backend: Backends, s: State, x: NodeId, n: NodeId)
    requires OnlySubmits(events) && IsRun(Init, events, regions, s) && Untouched(s) && n < |s.g.reqs|
    requires x != n && x !in vs && !Reaches(s.g, n, x)
    ensures !AlwaysAfterOnLanes(events, |s.g.reqs|, vs, regions, backend, x, n)
  {
    var steps, y := CompletesAlone(events, vs, regions, backend, s, n);
    NotBefore(y.dag.order, x, n);
    assert InTurn(steps, |s.g.reqs|, vs);
  }

  /** The lanes add no order: whichever nodes are virtual, whatever lanes the others get and however the
      lanes interleave, a node completes after one that is on a lane exactly when it reaches it in the
      graph. */
  lemma LanesOrderIffReached(
    events: seq<Event>, vs: set<NodeId>, regions: Regions, backend: Backends, s: State, x: NodeId, n: NodeId)
    requires OnlySubmits(events) && IsRun(Init, events, regions, s) && HasNode(s.g, n) && x != n && x !in vs
    ensures EarlierOnly(s.g)
    ensures AlwaysAfterOnLanes(events, |s.g.reqs|, vs, regions, backend, x, n) <==> Reaches(s.g, n, x)
  {
    InitPlaced(regions);
    SubmitsTouchNothing(Init, events, regions, s);
    if Reaches(s.g, n, x) {
      forall lanes, steps, y | IsSysRun(Start(lanes), Hosts(events) + steps, regions, backend, y)
        ensures Before(y.dag.order, x, n)
      {
        ReachedIsFirst(events, regions, backend, s, x, n, lanes, steps, y);
      }
    } else {
      UnreachedIsNot(events, vs, regions, backend, s, x, n);
    }
  }
}
