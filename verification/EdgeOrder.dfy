/** Exactly when build_node keeps every edge leading to an earlier-built node. The walk over the new
    node's requirements also visits memory requirement nodes of earlier command groups that ended up
    in that list, and gives them edges to younger users (src/runtime/dag_builder.cpp:188-199). */
module EdgeOrder {
  import opened Geometry
  import opened Dag
  import opened Builder
  import BuilderProofs

  /** Some live requirement is not older than the node requiring it. */
  ghost predicate LiveUpward(g: Graph) {
    exists n, r :: HasNode(g, n) && r in g.reqs[n] && r !in g.dead && r >= n
  }

  /** A search that climbs from below `m` to `x >= m` passes an upward edge of a node below `m`. */
  lemma {:induction false} SearchCrosses(
    g: Graph, current: NodeId, level: int, x: NodeId, m: NodeId)
    returns (a: NodeId, b: NodeId)
    requires Find(g, current, level, x) && current < m <= x
    ensures a < m <= b && HasNode(g, a) && b in g.reqs[a] && b !in g.dead
    decreases level
  {
    var r :| r in g.reqs[current] && r !in g.dead && r !in g.known && Find(g, r, level - 1, x);
    if r >= m {
      a, b := current, r;
    } else {
      a, b := SearchCrosses(g, r, level - 1, x, m);
    }
  }

  lemma AddReqKeepsUpward(g: Graph, n: NodeId, r: NodeId, depth: int)
    requires HasNode(g, n) && r !in g.dead && LiveUpward(g)
    ensures LiveUpward(AddReq(g, n, r, depth))
  {
    var g' := AddReq(g, n, r, depth);
    var a, b :| HasNode(g, a) && b in g.reqs[a] && b !in g.dead && b >= a;
    if a == n && b !in g'.reqs[n] {
      assert b !in Prune(g, g.reqs[n], r, depth);
      assert r in g'.reqs[n];
      if r < n {
        var a', b' := SearchCrosses(g, r, depth, b, n);
        assert b' in g'.reqs[a'];
      }
    } else {
      assert b in g'.reqs[a];
    }
  }

  lemma AddReqCreatesUpward(g: Graph, n: NodeId, r: NodeId, depth: int)
    requires HasNode(g, n) && r !in g.dead && r >= n
    ensures LiveUpward(AddReq(g, n, r, depth))
  {
    if AlreadyProvided(g, g.reqs[n], r, depth) {
      var e :| e in g.reqs[n] && e !in g.dead && (e == r || Find(g, e, depth, r));
      if e < n {
        var a, b := SearchCrosses(g, e, depth, r, n);
      }
    } else {
      assert r in AddReq(g, n, r, depth).reqs[n];
    }
  }

  lemma {:induction false} AddConflictsUpward(
    g: Graph, n: NodeId, ps: PageSize, a: Access, users: seq<User>, depth: int)
    requires HasNode(g, n)
    requires LiveUpward(g) || exists u :: u in users && NeedsEdge(g, ps, a, u) && u.node >= n
    ensures LiveUpward(AddConflicts(g, n, ps, a, users, depth))
    decreases |users|
  {
    if users != [] {
      var u := users[|users| - 1];
      assert users == users[..|users| - 1] + [u];
      var g1 := if NeedsEdge(g, ps, a, u) then AddReq(g, n, u.node, depth) else g;
      if NeedsEdge(g, ps, a, u) {
        if LiveUpward(g) { AddReqKeepsUpward(g, n, u.node, depth); }
        if u.node >= n { AddReqCreatesUpward(g, n, u.node, depth); }
      }
      assert forall v :: NeedsEdge(g, ps, a, v) <==> NeedsEdge(g1, ps, a, v);
      AddConflictsUpward(g1, n, ps, a, users[..|users| - 1], depth);
    }
  }

  /** A visited requirement node has a user that needs an edge but is not older than the node. */
  ghost predicate BackConflict(
    g: Graph, access: map<NodeId, Access>, users: map<nat, seq<User>>, regions: Regions, m: NodeId, u: User) {
    && m in access && HasNode(g, m) && m !in g.dead
    && u in UsersOf(users, access[m].region) && NeedsEdge(g, regions(access[m].region), access[m], u)
    && u.node >= m
  }

  lemma {:induction false} WalkUpward(
    g: Graph, list: seq<NodeId>, access: map<NodeId, Access>, users: map<nat, seq<User>>, regions: Regions,
    depth: int)
    requires LiveUpward(g) || exists m, u :: m in list && BackConflict(g, access, users, regions, m, u)
    ensures LiveUpward(Walk(g, list, access, users, regions, depth))
    decreases |list|
  {
    if list != [] {
      var m := list[0];
      var visit := m !in g.dead && m in access && HasNode(g, m);
      var g1 := if visit
                then AddConflicts(g, m, regions(access[m].region), access[m], UsersOf(users, access[m].region), depth)
                else g;
      var bad := exists u :: BackConflict(g, access, users, regions, m, u);
      if visit && (LiveUpward(g) || bad) {
        AddConflictsUpward(g, m, regions(access[m].region), access[m], UsersOf(users, access[m].region), depth);
      }
      if !LiveUpward(g1) {
        var k, u :| k in list && BackConflict(g, access, users, regions, k, u);
        assert list == [m] + list[1..] && k in list[1..];
        assert NeedsEdge(g1, regions(access[k].region), access[k], u);
        assert BackConflict(g1, access, users, regions, k, u);
      }
      WalkUpward(g1, list[1..], access, users, regions, depth);
    }
  }

  /** A memory requirement node of an earlier command group is visited and conflicts with a
      tracked, live user that is not older than itself. */
  ghost predicate VisitsOldRequirement(s: State, grp: Group, regions: Regions, depth: int) {
    exists m, u :: m in WalkedList(s, grp, regions, depth) && m < |s.g.reqs|
      && BackConflict(s.g, s.access, s.users, regions, m, u)
  }

  ghost predicate DepsLive(s: State, grp: Group) {
    |grp.explicit| <= 1 && forall d :: d in grp.deps ==> HasNode(s.g, d) && d !in s.g.dead
  }

  lemma VisitMakesUpwardEdge(s: State, grp: Group, regions: Regions, depth: int)
    requires Shape(s) && DepsLive(s, grp) && VisitsOldRequirement(s, grp, regions, depth)
    ensures LiveUpward(BuiltGraph(s, grp, regions, depth))
  {
    var g1, list, acc := WithOwnConflicts(s, grp, regions, depth), WalkedList(s, grp, regions, depth),
      NewAccesses(s, grp);
    var m, u :| m in list && m < |s.g.reqs| && BackConflict(s.g, s.access, s.users, regions, m, u);
    assert m in acc && acc[m] == s.access[m] by { BuilderProofs.OldAccessKept(s, grp, m); }
    assert NeedsEdge(g1, regions(acc[m].region), acc[m], u);
    assert BackConflict(g1, acc, s.users, regions, m, u);
    WalkUpward(g1, list, acc, s.users, regions, depth);
  }

  lemma NoVisitKeepsOrder(s: State, grp: Group, regions: Regions, depth: int)
    requires Shape(s) && DepsLive(s, grp) && !VisitsOldRequirement(s, grp, regions, depth)
    ensures EarlierOnly(BuiltGraph(s, grp, regions, depth))
  {
    var g1, list, acc := WithOwnConflicts(s, grp, regions, depth), WalkedList(s, grp, regions, depth),
      NewAccesses(s, grp);
    OwnConflictsEarlierOnly(s, grp, regions, depth);
    forall m, u | && m in list && m in acc && HasNode(g1, m) && m !in g1.dead
                  && u in UsersOf(s.users, acc[m].region) && NeedsEdge(g1, regions(acc[m].region), acc[m], u)
      ensures u.node < m
    {
      if m < |s.g.reqs| {
        BuilderProofs.OldAccessKept(s, grp, m);
        var visited := BackConflict(s.g, s.access, s.users, regions, m, u);
      }
    }
    BuilderProofs.WalkReach(g1, list, acc, s.users, regions, depth);
  }

  /** After build_node every edge leads to an earlier-built node exactly when no such node is visited. */
  lemma EarlierOnlyIff(s: State, grp: Group, regions: Regions, depth: int)
    requires Shape(s) && DepsLive(s, grp)
    ensures EarlierOnly(BuiltGraph(s, grp, regions, depth)) <==> !VisitsOldRequirement(s, grp, regions, depth)
  {
    if VisitsOldRequirement(s, grp, regions, depth) {
      VisitMakesUpwardEdge(s, grp, regions, depth);
    } else {
      NoVisitKeepsOrder(s, grp, regions, depth);
    }
  }

  /** A dependency of the group, or a tracked user that conflicts with its explicit access. */
  ghost predicate MayBeWalked(s: State, grp: Group, regions: Regions, m: NodeId) {
    || m in grp.deps
    || exists a ::
         a in grp.explicit && BuilderProofs.IsConflict(s.g, regions(a.region), a, UsersOf(s.users, a.region), m)
  }

  /** What a caller can check before: no old requirement among the dependencies and the conflicting users
      of the explicit access conflicts with a user that is not older. */
  ghost predicate NothingOldBehind(s: State, grp: Group, regions: Regions) {
    forall m, u :: MayBeWalked(s, grp, regions, m) ==> !BackConflict(s.g, s.access, s.users, regions, m, u)
  }

  lemma WalkedOrigin(s: State, grp: Group, regions: Regions, depth: int, m: NodeId)
    requires m in WalkedList(s, grp, regions, depth) && m < |s.g.reqs|
    ensures MayBeWalked(s, grp, regions, m)
  {
    var g, n := Created(s, grp), NewNode(s, grp);
    if grp.explicit != [] {
      var a := grp.explicit[0];
      BuilderProofs.AddConflictsOnly(g, n, regions(a.region), a, UsersOf(s.users, a.region), depth, m);
      assert forall u :: NeedsEdge(g, regions(a.region), a, u) <==> NeedsEdge(s.g, regions(a.region), a, u);
    }
    if m in g.reqs[n] {
      var i :| 0 <= i < |g.reqs[n]| && g.reqs[n][i] == m;
      assert m == grp.deps[i - |grp.mems|];
    }
  }

  /** The condition without running build_node: sufficient for every group, and exact for groups whose
      operation is not itself a memory requirement. */
  lemma EarlierOnlyFromUsers(s: State, grp: Group, regions: Regions, depth: int)
    requires Shape(s) && DepsLive(s, grp)
    ensures NothingOldBehind(s, grp, regions) ==> EarlierOnly(BuiltGraph(s, grp, regions, depth))
    ensures grp.explicit == [] ==>
              (EarlierOnly(BuiltGraph(s, grp, regions, depth)) <==> NothingOldBehind(s, grp, regions))
  {
    EarlierOnlyIff(s, grp, regions, depth);
    if VisitsOldRequirement(s, grp, regions, depth) { VisitedIsBehind(s, grp, regions, depth); }
    if grp.explicit == [] && !NothingOldBehind(s, grp, regions) { BehindIsVisited(s, grp, regions, depth); }
  }

  lemma VisitedIsBehind(s: State, grp: Group, regions: Regions, depth: int)
    requires VisitsOldRequirement(s, grp, regions, depth)
    ensures !NothingOldBehind(s, grp, regions)
  {
    var m, u :| m in WalkedList(s, grp, regions, depth) && m < |s.g.reqs|
      && BackConflict(s.g, s.access, s.users, regions, m, u);
    WalkedOrigin(s, grp, regions, depth, m);
  }

  lemma BehindIsVisited(s: State, grp: Group, regions: Regions, depth: int)
    requires grp.explicit == [] && !NothingOldBehind(s, grp, regions)
    ensures VisitsOldRequirement(s, grp, regions, depth)
  {
    var m, u :| MayBeWalked(s, grp, regions, m) && BackConflict(s.g, s.access, s.users, regions, m, u);
    var i :| 0 <= i < |grp.deps| && grp.deps[i] == m;
    assert InitialRequirements(s, grp)[|grp.mems| + i] == m;
    assert m in WalkedList(s, grp, regions, depth);
  }

  lemma OwnConflictsEarlierOnly(s: State, grp: Group, regions: Regions, depth: int)
    requires Shape(s) && DepsLive(s, grp)
    ensures EarlierOnly(WithOwnConflicts(s, grp, regions, depth))
  {
    var g, n := Created(s, grp), NewNode(s, grp);
    forall m, r | HasNode(g, m) && r in g.reqs[m] ensures r < m {
      if m == n {
        var i :| 0 <= i < |g.reqs[n]| && g.reqs[n][i] == r;
        if i >= |grp.mems| { assert r == grp.deps[i - |grp.mems|]; }
      }
    }
    if grp.explicit != [] {
      var a := grp.explicit[0];
      BuilderProofs.AddConflictsReach(g, n, regions(a.region), a, UsersOf(s.users, a.region), depth);
    }
  }

  /** A group whose operation is itself a memory requirement, as for a host accessor. */
  function Explicit(a: Access): Group {
    Group([a], [], [])
  }

  lemma FirstExplicit(a: Access, regions: Regions, depth: int)
    ensures Build(Init, Explicit(a), regions, depth) ==
            State(Graph([[]], {}, {}), map[0 := a], map[a.region := [User(0, a.mode, a.elements)]],
              [Command(0, [a])], [])
  {
    var s, grp := Build(Init, Explicit(a), regions, depth), Explicit(a);
    assert [a][..0] == [] && grp.explicit + grp.mems == [a];
    assert Created(Init, grp).reqs == [[]];
    assert WithOwnConflicts(Init, grp, regions, depth) == Created(Init, grp);
    assert s.users == AddUser(s.g, AddUsers(s.g, map[], 0, []), 0, a);
    assert KeptUsers(s.g, 0, a, []) == [] && AddUsers(s.g, map[], 0, []) == map[];
    var u := User(0, a.mode, a.elements);
    assert s.users == map[a.region := [] + [u]] && [] + [u] == [u];
    assert s.g == Graph([[]], {}, {});
    assert s.access == map[0 := a];
    assert s.commands == [Command(0, [a])];
  }

  /** After an unfinished explicit read any explicit access can be built: the walk visits the read, but readers
      do not conflict with it. */
  lemma ExplicitAfterRead(r: Access, a: Access, regions: Regions, depth: int)
    requires r.mode.Read?
    ensures BuildOk(Build(Init, Explicit(r), regions, depth), Explicit(a), regions, depth)
  {
    FirstExplicit(r, regions, depth);
    var s := Build(Init, Explicit(r), regions, depth);
    assert AddsNothing(s, regions, depth, 0);
  }

  const OnePage: Access := Access(0, Write, Rect(Vec3(0, 0, 0), Vec3(1, 1, 1)))
  const HostWrite: Group := Explicit(OnePage)

  lemma OnePageOverlaps(ps: PageSize)
    ensures var e := OnePage.elements; RectsOverlap(PageRange(e.first, e.extent, ps), PageRange(e.first, e.extent, ps))
  {
    var e := OnePage.elements;
    ElementOnPage(e.first, e, ps);
    SharedPageOverlaps(e, e, ps, PageOf(e.first, ps));
  }

  /** The conflict loop over a single user that needs an edge from a node without requirements. */
  lemma OneConflict(g: Graph, n: NodeId, ps: PageSize, a: Access, u: User, depth: int)
    requires HasNode(g, n) && g.reqs[n] == [] && NeedsEdge(g, ps, a, u)
    ensures AddConflicts(g, n, ps, a, [u], depth).reqs[n] == [u.node]
  {
    assert [u][..0] == [];
    assert AddReq(g, n, u.node, depth).reqs[n] == [] + [u.node];
  }

  /** The second of two unfinished explicit write requirements on one page walks over the first. */
  lemma SecondWalksFirst(s: State, regions: Regions, depth: int)
    requires s.g == Graph([[]], {}, {}) && s.users == map[0 := [User(0, Write, OnePage.elements)]]
    ensures WalkedList(s, HostWrite, regions, depth) == [0]
  {
    OnePageOverlaps(regions(0));
    assert Created(s, HostWrite).reqs[1] == [];
    OneConflict(Created(s, HostWrite), 1, regions(0), OnePage, User(0, Write, OnePage.elements), depth);
  }

  /** Two unfinished explicit write requirements on one page: building the second one makes the
      first one require itself. */
  lemma SecondHostWriteRequiresItself(regions: Regions, depth: int)
    ensures BuiltGraph(Build(Init, HostWrite, regions, depth), HostWrite, regions, depth).reqs[0] == [0]
  {
    FirstExplicit(OnePage, regions, depth);
    SecondWalksFirst(Build(Init, HostWrite, regions, depth), regions, depth);
    OnePageOverlaps(regions(0));
    var s, u := Build(Init, HostWrite, regions, depth), User(0, Write, OnePage.elements);
    var g1 := WithOwnConflicts(s, HostWrite, regions, depth);
    var acc := NewAccesses(s, HostWrite);
    BuilderProofs.OldAccessKept(s, HostWrite, 0);
    OneConflict(g1, 0, regions(0), OnePage, u, depth);
    assert [0][1..] == [];
    assert Walk(g1, [0], acc, s.users, regions, depth) ==
           Walk(AddConflicts(g1, 0, regions(0), OnePage, [u], depth), [0][1..], acc, s.users, regions, depth);
  }

  /** An explicit write that is known to be complete but still alive, and a later write of its page. */
  const TwoWrites: State :=
    State(Graph([[], []], {0}, {}), map[0 := OnePage, 1 := OnePage], map[0 := [User(1, Write, OnePage.elements)]],
          [Command(0, [OnePage]), Command(1, [OnePage])], [0])

  const AfterFirst: Group := Group([], [], [0])

  /** The first write is complete, and known to be. */
  ghost function FirstIsKnown(): State {
    State(Graph([[]], {0}, {}), map[0 := OnePage], map[0 := [User(0, Write, OnePage.elements)]],
          [Command(0, [OnePage])], [0])
  }

  /** A second host write neither conflicts with a known first one nor keeps tracking it. */
  lemma SecondAfterKnown(regions: Regions, depth: int)
    ensures BuildOk(FirstIsKnown(), HostWrite, regions, depth)
    ensures Build(FirstIsKnown(), HostWrite, regions, depth) == TwoWrites
  {
    var s, u := FirstIsKnown(), User(0, Write, OnePage.elements);
    var g := Created(s, HostWrite);
    assert InitialRequirements(s, HostWrite) == [];
    assert g.reqs == [[], []];
    assert [u][..0] == [] && !NeedsEdge(g, regions(0), OnePage, u);
    assert WithOwnConflicts(s, HostWrite, regions, depth) == AddConflicts(g, 1, regions(0), OnePage, [u][..0],
           depth) == g;
    assert BuiltGraph(s, HostWrite, regions, depth) == g;
    assert HostWrite.explicit + HostWrite.mems == [OnePage] && [OnePage][..0] == [];
    assert AddUsers(g, s.users, 1, [OnePage]) == AddUser(g, AddUsers(g, s.users, 1, []), 1, OnePage);
    assert ReplacesUser(g, 1, OnePage, u);
    assert KeptUsers(g, 1, OnePage, [u]) == KeptUsers(g, 1, OnePage, [u][..0]) == [];
    assert [] + [User(1, Write, OnePage.elements)] == [User(1, Write, OnePage.elements)];
    assert RegisterMems(s.access, 1, []) == s.access;
    assert NewAccesses(s, HostWrite) == TwoWrites.access;
  }

  /** The two writes come about from nothing: the first is built, runs and is polled, and then the second
      is built. */
  lemma TwoWritesReached(regions: Regions, depth: int)
    ensures IsRun(Init, [Submit(HostWrite, depth), Execute(0), Poll(0), Submit(HostWrite, depth)], regions, TwoWrites)
    ensures DepsLive(TwoWrites, AfterFirst)
  {
    FirstKnownReached(regions, depth);
    SecondAfterKnown(regions, depth);
    var events := [Submit(HostWrite, depth), Execute(0), Poll(0)];
    BuilderProofs.RunAppend(Init, events, Submit(HostWrite, depth), regions, FirstIsKnown());
    assert events + [Submit(HostWrite, depth)] == [Submit(HostWrite, depth), Execute(0), Poll(0),
           Submit(HostWrite, depth)];
  }

  lemma FirstKnownReached(regions: Regions, depth: int)
    ensures IsRun(Init, [Submit(HostWrite, depth), Execute(0), Poll(0)], regions, FirstIsKnown())
  {
    FirstExplicit(OnePage, regions, depth);
    var e, s1 := Submit(HostWrite, depth), Build(Init, HostWrite, regions, depth);
    assert BuildOk(Init, HostWrite, regions, depth) && Apply(Init, e, regions) == s1;
    BuilderProofs.RunAppend(Init, [], e, regions, Init);
    BuilderProofs.RunAppend(Init, [] + [e], Execute(0), regions, s1);
    var s2 := s1.(order := [0]);
    assert [] + [e] + [Execute(0)] == [e, Execute(0)] && s1.order + [0] == [0];
    BuilderProofs.RunAppend(Init, [e, Execute(0)], Poll(0), regions, s2);
    assert [e, Execute(0)] + [Poll(0)] == [e, Execute(0), Poll(0)] && {} + {0} == {0};
  }

  /** The edge of a walked requirement to a younger node need not lie on a cycle: a group that
      depends on the first of the two writes gives it an edge to the second, and nothing leads back. */
  lemma UpwardEdgeWithoutCycle(regions: Regions, depth: int)
    ensures var reqs := BuiltGraph(TwoWrites, AfterFirst, regions, depth).reqs;
            |reqs| == 3 && reqs[0] == [1] && reqs[1] == [] && reqs[2] == [0]
  {
    var s, u, grp := TwoWrites, User(1, Write, OnePage.elements), AfterFirst;
    OnePageOverlaps(regions(0));
    var g := Created(s, grp);
    assert InitialRequirements(s, grp) == [0];
    assert g.reqs == [[], [], [0]];
    assert NeedsEdge(g, regions(0), OnePage, u);
    assert [u][..0] == [] && [0][1..] == [];
    BuilderProofs.OldAccessKept(s, grp, 0);
    var g1 := AddReq(g, 0, 1, depth);
    assert g1.reqs[0] == [] + [1];
    assert AddConflicts(g, 0, regions(0), OnePage, [u], depth) == g1;
    assert Walk(g, [0], NewAccesses(s, grp), s.users, regions, depth) ==
           Walk(g1, [0][1..], NewAccesses(s, grp), s.users, regions, depth);
    assert WithOwnConflicts(s, grp, regions, depth) == g && WalkedList(s, grp, regions, depth) == [0];
    assert HasNode(g, 1) && HasNode(g, 2) && g1.reqs[1] == [] && g1.reqs[2] == [0];
    assert g1.reqs[0] == [1];
  }
}
