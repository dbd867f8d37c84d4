/** When the data transfers run. A memory requirement node carries the transfers of its command; in
    every run it completes after the earlier commands that clash with its access and before the later
    ones. Transfers for two reads are ordered exactly as far as the graph connects them
    (src/runtime/dag_builder.cpp, src/runtime/dag_direct_scheduler.cpp). */
module TransferOrder {
  import opened Geometry
  import opened Dag
  import opened Builder
  import BuilderProofs
  import opened Lanes
  import LanesProofs

  // ---------------------------------------------------------------------------------------------
  // One pair of nodes

  /** `y` does not complete before `x`. */
  ghost predicate Before(order: seq<NodeId>, x: NodeId, y: NodeId) {
    forall k :: 0 <= k < |order| && order[k] == y ==> x in order[..k]
  }

  /** `x` completed before `y`, or the graph makes `y` wait for it. */
  ghost predicate Precedes(s: State, x: NodeId, y: NodeId)
    requires EarlierOnly(s.g)
  {
    HasNode(s.g, y) && (x in s.order || Reaches(s.g, y, x)) && Before(s.order, x, y)
  }

  lemma ReachKept(s: State, e: Event, regions: Regions, x: NodeId, y: NodeId)
    requires Inv(s, regions) && Enabled(s, e, regions) && Reaches(s.g, y, x)
    ensures EarlierOnly(Apply(s, e, regions).g)
    ensures x in s.order || Reaches(Apply(s, e, regions).g, y, x)
  {
    match e
    case Submit(grp, depth) =>
      BuilderProofs.BuiltGraphShape(s, grp, regions, depth);
      BuilderProofs.OldReachKept(s, grp, regions, depth, y, x);
    case Execute(n) =>
    case Poll(n) => MoreEdgesReachMore(s.g, Apply(s, e, regions).g, y, x);
    case Wait(n) => MoreEdgesReachMore(s.g, Apply(s, e, regions).g, y, x);
    case Expire(n) => ExpiryKeepsReach(s.g, Done(s), {n}, y, x);
    case ReleaseDeadUsers(r) =>
  }

  lemma BeforeKept(s: State, e: Event, regions: Regions, x: NodeId, y: NodeId)
    requires Inv(s, regions) && Enabled(s, e, regions) && Precedes(s, x, y)
    ensures Before(Apply(s, e, regions).order, x, y)
  {
    var order' := Apply(s, e, regions).order;
    forall k | 0 <= k < |order'| && order'[k] == y ensures x in order'[..k] {
      assert order'[..k] == s.order[..k];
      if k == |s.order| && x !in s.order { BuilderProofs.ExecutedReachIsDone(s, y, x, regions); }
    }
  }

  lemma StepKeepsPrecedes(s: State, e: Event, regions: Regions, x: NodeId, y: NodeId)
    requires Inv(s, regions) && Enabled(s, e, regions) && Precedes(s, x, y)
    ensures EarlierOnly(Apply(s, e, regions).g) && Precedes(Apply(s, e, regions), x, y)
  {
    BuilderProofs.StepKeepsInv(s, e, regions);
    if Reaches(s.g, y, x) { ReachKept(s, e, regions, x, y); }
    BeforeKept(s, e, regions, x, y);
  }

  lemma {:induction false} RunKeepsPrecedes(
    s: State, events: seq<Event>, regions: Regions, s': State, x: NodeId, y: NodeId)
    requires Inv(s, regions) && IsRun(s, events, regions, s') && Precedes(s, x, y)
    ensures EarlierOnly(s'.g) && Precedes(s', x, y)
    decreases |events|
  {
    if events != [] {
      StepKeepsPrecedes(s, events[0], regions, x, y);
      BuilderProofs.StepKeepsInv(s, events[0], regions);
      RunKeepsPrecedes(Apply(s, events[0], regions), events[1..], regions, s', x, y);
    }
  }

  // ---------------------------------------------------------------------------------------------
  // Requirement nodes and their commands

  /** Node `m` carries a memory requirement of command `j`. */
  ghost predicate Serves(s: State, m: NodeId, j: int) {
    && 0 <= j < |s.commands| && m in s.access && m <= s.commands[j].node
    && (j > 0 ==> s.commands[j - 1].node < m)
  }

  ghost predicate ClashesWith(c: Command, a: Access, regions: Regions) {
    exists b :: b in c.accesses && Clash(b, a, regions)
  }

  /** Nodes are numbered up to the last command. */
  ghost predicate Tight(s: State) {
    |s.g.reqs| == if s.commands == [] then 0 else s.commands[|s.commands| - 1].node + 1
  }

  /** A requirement node comes after the earlier commands that clash with it, and before its own
      command. */
  ghost predicate Placed(s: State, regions: Regions, m: NodeId, j: int)
    requires EarlierOnly(s.g) && Serves(s, m, j)
  {
    && s.access[m] in s.commands[j].accesses
    && (forall i :: 0 <= i < j && ClashesWith(s.commands[i], s.access[m], regions) ==>
      Precedes(s, s.commands[i].node, m))
    && (m != s.commands[j].node ==> Precedes(s, m, s.commands[j].node))
  }

  ghost predicate AllPlaced(s: State, regions: Regions) {
    EarlierOnly(s.g) && Tight(s) && forall m, j :: Serves(s, m, j) ==> Placed(s, regions, m, j)
  }

  /** A fresh requirement node reaches every unfinished command that clashes with its access. */
  lemma FreshReachesClashing(s: State, grp: Group, regions: Regions, depth: int, m: NodeId, i: nat)
    requires Inv(s, regions) && BuildOk(s, grp, regions, depth) && EarlierOnly(BuiltGraph(s, grp, regions, depth))
    requires FreshNode(s, grp, m) && i < |s.commands| && s.commands[i].node !in s.order
    requires ClashesWith(s.commands[i], grp.mems[m - |s.g.reqs|], regions)
    ensures Reaches(BuiltGraph(s, grp, regions, depth), m, s.commands[i].node)
  {
    var g, x, a := BuiltGraph(s, grp, regions, depth), s.commands[i].node, grp.mems[m - |s.g.reqs|];
    var b :| b in s.commands[i].accesses && Clash(b, a, regions);
    var p :| TouchesPage(p, b.elements, regions(b.region)) && TouchesPage(p, a.elements, regions(a.region));
    var u :| u in UsersOf(s.users, b.region) && StandsIn(s.g, u, x, b);
    CoverIsPageCover(u.elements, b.elements, regions(b.region), p);
    SharedPageOverlaps(a.elements, u.elements, regions(b.region), p);
    if u.node in Done(s) && u.node != x { DoneReaches(s.g, Done(s), u.node, x); }
    BuilderProofs.FreshNodeReaches(s, grp, regions, depth, m, u);
    if u.node != x {
      BuilderProofs.OldReachKept(s, grp, regions, depth, u.node, x);
      ReachesTransitive(g, m, u.node, x);
    }
  }

  /** The operation node reaches its fresh requirement nodes. */
  lemma CommandReachesFresh(s: State, grp: Group, regions: Regions, depth: int, m: NodeId)
    requires Shape(s) && BuildOk(s, grp, regions, depth) && FreshNode(s, grp, m)
    ensures EarlierOnly(BuiltGraph(s, grp, regions, depth))
    ensures Reaches(BuiltGraph(s, grp, regions, depth), NewNode(s, grp), m)
  {
    BuilderProofs.OwnConflicts(s, grp, regions, depth);
    BuilderProofs.BuiltGraphShape(s, grp, regions, depth);
    assert m in WithOwnConflicts(s, grp, regions, depth).reqs[NewNode(s, grp)] && m !in s.g.dead;
    assert Reaches(WithOwnConflicts(s, grp, regions, depth), NewNode(s, grp), m);
  }

  lemma NewServes(s: State, grp: Group, regions: Regions, depth: int, m: NodeId)
    requires Shape(s) && Tight(s) && Serves(Build(s, grp, regions, depth), m, |s.commands|)
    ensures |s.g.reqs| <= m <= NewNode(s, grp) && m !in s.order
    ensures var a := NewAccesses(s, grp)[m];
            if m == NewNode(s, grp) then a in grp.explicit else a == grp.mems[m - |s.g.reqs|]
  {
    var s' := Build(s, grp, regions, depth);
    BuilderProofs.FreshAccess(s, grp);
    assert forall i :: 0 <= i < |s.commands| ==> s'.commands[i] == s.commands[i];
  }

  lemma NewPrecedes(s: State, grp: Group, regions: Regions, depth: int, m: NodeId, i: nat)
    requires Inv(s, regions) && Tight(s) && BuildOk(s, grp, regions, depth)
    requires Serves(Build(s, grp, regions, depth), m, |s.commands|)
    requires i < |s.commands| && ClashesWith(s.commands[i], NewAccesses(s, grp)[m], regions)
    ensures EarlierOnly(BuiltGraph(s, grp, regions, depth))
    ensures s.commands[i].node in s.order || Reaches(BuiltGraph(s, grp, regions, depth), m, s.commands[i].node)
  {
    NewServes(s, grp, regions, depth, m);
    BuilderProofs.BuiltGraphShape(s, grp, regions, depth);
    if s.commands[i].node !in s.order {
      if m == NewNode(s, grp) {
        var b :| b in s.commands[i].accesses && Clash(b, NewAccesses(s, grp)[m], regions);
        BuilderProofs.NewNodeReaches(s, grp, regions, depth, i);
      } else {
        FreshReachesClashing(s, grp, regions, depth, m, i);
      }
    }
  }

  /** The requirement nodes of the new command are placed. */
  lemma NewIsPlaced(s: State, grp: Group, regions: Regions, depth: int, m: NodeId)
    requires Inv(s, regions) && Tight(s) && BuildOk(s, grp, regions, depth)
    requires Serves(Build(s, grp, regions, depth), m, |s.commands|)
    ensures EarlierOnly(BuiltGraph(s, grp, regions, depth))
    ensures Placed(Build(s, grp, regions, depth), regions, m, |s.commands|)
  {
    var s', n, j := Build(s, grp, regions, depth), NewNode(s, grp), |s.commands|;
    BuilderProofs.BuiltGraphShape(s, grp, regions, depth);
    NewServes(s, grp, regions, depth, m);
    if m != n { CommandReachesFresh(s, grp, regions, depth, m); }
    forall i: nat | i < j && ClashesWith(s'.commands[i], s'.access[m], regions)
      ensures Precedes(s', s'.commands[i].node, m)
    {
      assert s'.commands[i] == s.commands[i];
      NewPrecedes(s, grp, regions, depth, m, i);
    }
  }

  lemma AccessKept(s: State, e: Event, regions: Regions, m: NodeId)
    requires Enabled(s, e, regions) && m < |s.g.reqs| && m in Apply(s, e, regions).access
    ensures m in s.access && Apply(s, e, regions).access[m] == s.access[m]
  {
    if e.Submit? { BuilderProofs.OldAccessKept(s, e.grp, m); }
  }

  lemma OldServes(s: State, e: Event, regions: Regions, m: NodeId, j: int)
    requires Shape(s) && Enabled(s, e, regions) && j < |s.commands| && Serves(Apply(s, e, regions), m, j)
    ensures Serves(s, m, j) && Apply(s, e, regions).access[m] == s.access[m]
    ensures forall i :: 0 <= i <= j ==> Apply(s, e, regions).commands[i] == s.commands[i]
  {
    assert HasNode(s.g, s.commands[j].node);
    AccessKept(s, e, regions, m);
  }

  /** The requirement nodes of older commands stay placed. */
  lemma OldStaysPlaced(s: State, e: Event, regions: Regions, m: NodeId, j: int)
    requires Inv(s, regions) && Enabled(s, e, regions) && Serves(s, m, j) && Placed(s, regions, m, j)
    requires EarlierOnly(Apply(s, e, regions).g) && Serves(Apply(s, e, regions), m, j)
    ensures Placed(Apply(s, e, regions), regions, m, j)
  {
    var s' := Apply(s, e, regions);
    OldServes(s, e, regions, m, j);
    forall i | 0 <= i < j && ClashesWith(s'.commands[i], s'.access[m], regions)
      ensures Precedes(s', s'.commands[i].node, m)
    {
      StepKeepsPrecedes(s, e, regions, s.commands[i].node, m);
    }
    if m != s.commands[j].node { StepKeepsPrecedes(s, e, regions, m, s.commands[j].node); }
  }

  lemma StepKeepsPlaced(s: State, e: Event, regions: Regions)
    requires Inv(s, regions) && Enabled(s, e, regions) && AllPlaced(s, regions)
    ensures AllPlaced(Apply(s, e, regions), regions)
  {
    var s' := Apply(s, e, regions);
    BuilderProofs.StepKeepsInv(s, e, regions);
    forall m, j | Serves(s', m, j) ensures Placed(s', regions, m, j) {
      if j < |s.commands| {
        OldServes(s, e, regions, m, j);
        OldStaysPlaced(s, e, regions, m, j);
      } else {
        NewIsPlaced(s, e.grp, regions, e.depth, m);
      }
    }
  }

  lemma {:induction false} RunKeepsPlaced(s: State, events: seq<Event>, regions: Regions, s': State)
    requires Inv(s, regions) && AllPlaced(s, regions) && IsRun(s, events, regions, s')
    ensures Inv(s', regions) && AllPlaced(s', regions)
    decreases |events|
  {
    if events != [] {
      BuilderProofs.StepKeepsInv(s, events[0], regions);
      StepKeepsPlaced(s, events[0], regions);
      RunKeepsPlaced(Apply(s, events[0], regions), events[1..], regions, s');
    }
  }

  // ---------------------------------------------------------------------------------------------
  // Main results

  /** What the completion order owes the transfers of requirement node `m` of command `j`. */
  ghost predicate TransferInOrder(s: State, regions: Regions, m: NodeId, j: int)
    requires Serves(s, m, j)
  {
    && (forall i :: 0 <= i < j && ClashesWith(s.commands[i], s.access[m], regions) ==>
      Before(s.order, s.commands[i].node, m))
    && (forall l :: j < l < |s.commands| && ClashesWith(s.commands[l], s.access[m], regions) ==>
      Before(s.order, m, s.commands[l].node))
    && (forall l, r :: j < l && Serves(s, r, l) && Clash(s.access[m], s.access[r], regions) ==> Before(s.order, m, r))
  }

  lemma BeforeTransitive(order: seq<NodeId>, x: NodeId, y: NodeId, z: NodeId)
    requires Before(order, x, y) && Before(order, y, z)
    ensures Before(order, x, z)
  {
    forall k | 0 <= k < |order| && order[k] == z ensures x in order[..k] {
      var i :| 0 <= i < k && order[..k][i] == y;
      assert x in order[..i];
    }
  }

  lemma BeforeItsCommand(s: State, regions: Regions, m: NodeId, j: int, z: NodeId)
    requires AllPlaced(s, regions) && Serves(s, m, j) && Before(s.order, s.commands[j].node, z)
    ensures Before(s.order, m, z)
  {
    assert Placed(s, regions, m, j);
    if m != s.commands[j].node { BeforeTransitive(s.order, m, s.commands[j].node, z); }
  }

  lemma LaterClashingWaits(s: State, regions: Regions, m: NodeId, j: int, l: int)
    requires Inv(s, regions) && AllPlaced(s, regions) && Serves(s, m, j)
    requires j < l < |s.commands| && ClashesWith(s.commands[l], s.access[m], regions)
    ensures Before(s.order, m, s.commands[l].node)
  {
    assert Placed(s, regions, m, j);
    var b :| b in s.commands[l].accesses && Clash(b, s.access[m], regions);
    assert Clash(s.access[m], b, regions);
    assert CommandsClash(s.commands[j], s.commands[l], regions);
    BeforeItsCommand(s, regions, m, j, s.commands[l].node);
  }

  lemma LaterTransferWaits(s: State, regions: Regions, m: NodeId, j: int, r: NodeId, l: int)
    requires Inv(s, regions) && AllPlaced(s, regions) && Serves(s, m, j) && j < l && Serves(s, r, l)
    requires Clash(s.access[m], s.access[r], regions)
    ensures Before(s.order, m, r)
  {
    assert Placed(s, regions, m, j) && Placed(s, regions, r, l);
    assert ClashesWith(s.commands[j], s.access[r], regions);
    BeforeItsCommand(s, regions, m, j, r);
  }

  lemma PlacedIsInOrder(s: State, regions: Regions, m: NodeId, j: int)
    requires Inv(s, regions) && AllPlaced(s, regions) && Serves(s, m, j)
    ensures TransferInOrder(s, regions, m, j)
  {
    assert Placed(s, regions, m, j);
    forall l | j < l < |s.commands| && ClashesWith(s.commands[l], s.access[m], regions)
      ensures Before(s.order, m, s.commands[l].node)
    {
      LaterClashingWaits(s, regions, m, j, l);
    }
    forall l, r | j < l && Serves(s, r, l) && Clash(s.access[m], s.access[r], regions) ensures Before(s.order, m, r) {
      LaterTransferWaits(s, regions, m, j, r, l);
    }
  }

  lemma InitPlaced(regions: Regions)
    ensures Inv(Init, regions) && AllPlaced(Init, regions)
  {
  }

  /** In every run the transfers of a command run after every earlier command that wrote what they
      copy, and before every later command, and its transfers, that overwrite it. */
  lemma TransfersAreOrdered(events: seq<Event>, regions: Regions, s: State, m: NodeId, j: int)
    requires IsRun(Init, events, regions, s) && Serves(s, m, j)
    ensures TransferInOrder(s, regions, m, j)
  {
    InitPlaced(regions);
    RunKeepsPlaced(Init, events, regions, s);
    PlacedIsInOrder(s, regions, m, j);
  }

  /** The same when operations run on lanes. */
  lemma LaneTransfersAreOrdered(
    lanes: nat, steps: seq<SysEvent>, regions: Regions, backend: Backends, y: Sys, m: NodeId, j: int)
    requires IsSysRun(Start(lanes), steps, regions, backend, y) && Serves(y.dag, m, j)
    ensures TransferInOrder(y.dag, regions, m, j)
  {
    LanesProofs.StartInv(lanes, regions);
    var events := LanesProofs.SysRunRefines(Start(lanes), steps, regions, backend, y);
    TransfersAreOrdered(events, regions, y.dag, m, j);
  }

  /** A transfer has run before a later one refills its source: a copy is refilled only after some
      command `w` between the two has written the pages elsewhere. */
  lemma RefillWaits(events: seq<Event>, regions: Regions, s: State, m: NodeId, j: int, w: int, r: NodeId, l: int)
    requires IsRun(Init, events, regions, s) && Serves(s, m, j) && Serves(s, r, l) && j < w < l
    requires ClashesWith(s.commands[w], s.access[m], regions) && ClashesWith(s.commands[w], s.access[r], regions)
    ensures Before(s.order, m, r)
  {
    TransfersAreOrdered(events, regions, s, m, j);
    TransfersAreOrdered(events, regions, s, r, l);
    BeforeTransitive(s.order, m, s.commands[w].node, r);
  }

  // ---------------------------------------------------------------------------------------------
  // Order in all continuations is reachability

  /** Completes the unfinished nodes below `n` that `y` reaches, without any node it does not reach. */
  lemma {:induction false} CompleteBelow(s: State, regions: Regions, y: NodeId, x: NodeId, n: nat)
    returns (events: seq<Event>, s': State)
    requires Inv(s, regions) && HasNode(s.g, y) && n <= |s.g.reqs| && x !in s.order && !Reaches(s.g, y, x)
    ensures IsRun(s, events, regions, s') && s'.g == s.g && Inv(s', regions) && x !in s'.order
    ensures forall r: NodeId :: r < n && Reaches(s.g, y, r) ==> r in s'.order
    ensures y !in s.order ==> y !in s'.order
    decreases n
  {
    if n == 0 {
      events, s' := [], s;
    } else {
      events, s' := CompleteBelow(s, regions, y, x, n - 1);
      if Reaches(s.g, y, n - 1) && n - 1 !in s'.order {
        ReachesIsEarlier(s.g, y, n - 1);
        forall r | r in s.g.reqs[n - 1] ensures r in s'.order {
          if r in s.g.dead { assert r in Done(s'); } else {
            assert Reaches(s.g, n - 1, r);
            ReachesTransitive(s.g, y, n - 1, r);
          }
        }
        events, s' := RunExtended(s, events, regions, s', Execute(n - 1));
      }
    }
  }

  lemma RunExtended(s: State, events: seq<Event>, regions: Regions, m: State, e: Event)
    returns (events': seq<Event>, s': State)
    requires Inv(m, regions) && IsRun(s, events, regions, m) && Enabled(m, e, regions)
    ensures IsRun(s, events', regions, s') && s' == Apply(m, e, regions) && Inv(s', regions)
  {
    s' := Apply(m, e, regions);
    events' := events + [e];
    BuilderProofs.StepKeepsInv(m, e, regions);
    BuilderProofs.RunAppend(s, events, e, regions, m);
  }

  /** An unfinished node that `y` does not reach need not run before `y`. */
  lemma RunsWithout(s: State, regions: Regions, x: NodeId, y: NodeId) returns (events: seq<Event>, s': State)
    requires Inv(s, regions) && HasNode(s.g, y) && y !in s.order
    requires x !in s.order && x != y && !Reaches(s.g, y, x)
    ensures IsRun(s, events, regions, s') && y in s'.order && x !in s'.order
  {
    events, s' := CompleteBelow(s, regions, y, x, y);
    forall r | r in s.g.reqs[y] ensures r in s'.order {
      if r in s.g.dead { assert r in Done(s'); } else { assert Reaches(s.g, y, r); }
    }
    events, s' := RunExtended(s, events, regions, s', Execute(y));
  }

  /** In no continuation does `y` complete before `x`. */
  ghost predicate AlwaysAfter(s: State, regions: Regions, x: NodeId, y: NodeId) {
    forall events, s' :: IsRun(s, events, regions, s') ==> Before(s'.order, x, y)
  }

  lemma RunsWithoutIsEarly(s: State, regions: Regions, x: NodeId, y: NodeId)
    requires Inv(s, regions) && HasNode(s.g, y) && y !in s.order
    requires x !in s.order && x != y && !Reaches(s.g, y, x)
    ensures !AlwaysAfter(s, regions, x, y)
  {
    var events, s' := RunsWithout(s, regions, x, y);
    var k :| 0 <= k < |s'.order| && s'.order[k] == y;
    assert x !in s'.order[..k];
    assert !Before(s'.order, x, y);
  }

  /** In every continuation `y` completes after `x` exactly when `x` is complete or `y` reaches it. */
  lemma OrderedIffReached(s: State, regions: Regions, x: NodeId, y: NodeId)
    requires Inv(s, regions) && HasNode(s.g, y) && y !in s.order && x != y
    ensures AlwaysAfter(s, regions, x, y) <==> x in s.order || Reaches(s.g, y, x)
  {
    if x in s.order || Reaches(s.g, y, x) {
      assert Precedes(s, x, y);
      forall events, s' | IsRun(s, events, regions, s') ensures Before(s'.order, x, y) {
        RunKeepsPrecedes(s, events, regions, s', x, y);
      }
    } else {
      RunsWithoutIsEarly(s, regions, x, y);
    }
  }
}
