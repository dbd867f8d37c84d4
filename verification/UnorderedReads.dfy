/** Exactly which older nodes a new command and its transfers wait for, and the consequence for reads:
    reads do not conflict, so a command may read a copy that the transfer of an earlier read has not
    filled yet (src/runtime/dag_builder.cpp:263-272, src/runtime/dag_direct_scheduler.cpp:129-158). */
module UnorderedReads {
  import opened Geometry
  import opened Dag
  import opened Builder
  import BuilderProofs
  import opened Lanes
  import opened TransferOrder
  import opened LaneOrder

  // ---------------------------------------------------------------------------------------------
  // The edges of a new command

  lemma {:induction false} WalkOnly(
    g: Graph, list: seq<NodeId>, access: map<NodeId, Access>, users: map<nat, seq<User>>, regions: Regions,
      depth: int, m: NodeId, r: NodeId)
    requires HasNode(g, m) && m in access && r in Walk(g, list, access, users, regions, depth).reqs[m]
    ensures r in g.reqs[m]
            || BuilderProofs.IsConflict(g, regions(access[m].region), access[m], UsersOf(users, access[m].region), r)
    decreases |list|
  {
    if list != [] {
      var k := list[0];
      var visit := k !in g.dead && k in access && HasNode(g, k);
      var g1 := if visit
                then AddConflicts(g, k, regions(access[k].region), access[k], UsersOf(users, access[k].region), depth)
                else g;
      WalkOnly(g1, list[1..], access, users, regions, depth, m, r);
      if r in g1.reqs[m] {
        if visit && k == m {
          BuilderProofs.AddConflictsOnly(g, m, regions(access[m].region), access[m],
            UsersOf(users, access[m].region), depth, r);
        }
      } else {
        var u :| u in UsersOf(users, access[m].region) && NeedsEdge(g1, regions(access[m].region), access[m], u)
          && u.node == r;
        assert NeedsEdge(g, regions(access[m].region), access[m], u);
      }
    }
  }

  /** A live tracked user that conflicts with the access is, or reaches, `x`. */
  ghost predicate ConflictPath(s: State, regions: Regions, a: Access, x: NodeId)
    requires EarlierOnly(s.g)
  {
    exists u :: u in UsersOf(s.users, a.region) && NeedsEdge(s.g, regions(a.region), a, u)
      && ReachesOrIs(s.g, u.node, x)
  }

  /** Old nodes reach what they reached before. */
  lemma OldReachIsOld(s: State, grp: Group, regions: Regions, depth: int, r: NodeId, x: NodeId)
    requires Shape(s) && BuildOk(s, grp, regions, depth) && EarlierOnly(BuiltGraph(s, grp, regions, depth))
    requires HasNode(s.g, r)
    ensures Reaches(BuiltGraph(s, grp, regions, depth), r, x) <==> Reaches(s.g, r, x)
  {
    var g := BuiltGraph(s, grp, regions, depth);
    if Reaches(s.g, r, x) { BuilderProofs.OldReachKept(s, grp, regions, depth, r, x); }
    if Reaches(g, r, x) {
      forall m | HasNode(s.g, m) ensures g.reqs[m] == s.g.reqs[m] {
        BuilderProofs.OldListsKept(s, grp, regions, depth, m);
      }
      ReachesBelow(g, s.g, |s.g.reqs|, r, x);
    }
  }

  /** A fresh requirement node waits for exactly the old nodes behind its conflicts. */
  lemma FreshReachesIff(s: State, grp: Group, regions: Regions, depth: int, m: NodeId, x: NodeId)
    requires Shape(s) && BuildOk(s, grp, regions, depth) && FreshNode(s, grp, m) && HasNode(s.g, x)
    ensures EarlierOnly(BuiltGraph(s, grp, regions, depth))
    ensures Reaches(BuiltGraph(s, grp, regions, depth), m, x) <==> ConflictPath(s, regions, grp.mems[m - |s.g.reqs|], x)
  {
    var g, a := BuiltGraph(s, grp, regions, depth), grp.mems[m - |s.g.reqs|];
    BuilderProofs.BuiltGraphShape(s, grp, regions, depth);
    if ConflictPath(s, regions, a, x) {
      var u :| u in UsersOf(s.users, a.region) && NeedsEdge(s.g, regions(a.region), a, u)
        && ReachesOrIs(s.g, u.node, x);
      BuilderProofs.FreshNodeReaches(s, grp, regions, depth, m, u);
      if u.node != x {
        OldReachIsOld(s, grp, regions, depth, u.node, x);
        ReachesTransitive(g, m, u.node, x);
      }
    }
    if Reaches(g, m, x) {
      var r :| r in g.reqs[m] && r !in g.dead && (r == x || Reaches(g, r, x));
      var u := FreshEdge(s, grp, regions, depth, m, r);
      OldReachIsOld(s, grp, regions, depth, r, x);
    }
  }

  lemma FreshEdge(s: State, grp: Group, regions: Regions, depth: int, m: NodeId, r: NodeId) returns (u: User)
    requires Shape(s) && FreshNode(s, grp, m) && r in BuiltGraph(s, grp, regions, depth).reqs[m]
    ensures var a := grp.mems[m - |s.g.reqs|];
            u in UsersOf(s.users, a.region) && NeedsEdge(s.g, regions(a.region), a, u) && u.node == r && HasNode(s.g, r)
  {
    BuilderProofs.FreshAccess(s, grp);
    var g1, acc, a := WithOwnConflicts(s, grp, regions, depth), NewAccesses(s, grp), grp.mems[m - |s.g.reqs|];
    WalkOnly(g1, WalkedList(s, grp, regions, depth), acc, s.users, regions, depth, m, r);
    assert g1.reqs[m] == [] && acc[m] == a;
    u :| u in UsersOf(s.users, a.region) && NeedsEdge(g1, regions(a.region), a, u) && u.node == r;
  }

  /** Some access of the group conflicts with a user behind which `x` lies, or a dependency leads there. */
  ghost predicate MustFollow(s: State, grp: Group, regions: Regions, x: NodeId)
    requires EarlierOnly(s.g)
  {
    || (exists a :: a in grp.explicit + grp.mems && ConflictPath(s, regions, a, x))
    || (exists d :: d in grp.deps && ReachesOrIs(s.g, d, x))
  }

  /** A direct requirement of the new command. */
  lemma CommandEdge(s: State, grp: Group, regions: Regions, depth: int, r: NodeId)
    requires Shape(s) && BuildOk(s, grp, regions, depth)
    requires r in BuiltGraph(s, grp, regions, depth).reqs[NewNode(s, grp)]
    ensures || FreshNode(s, grp, r) || r in grp.deps
            || (grp.explicit != []
              && BuilderProofs.IsConflict(s.g, regions(grp.explicit[0].region), grp.explicit[0],
                UsersOf(s.users, grp.explicit[0].region), r))
  {
    var n, g, g1 := NewNode(s, grp), Created(s, grp), WithOwnConflicts(s, grp, regions, depth);
    BuilderProofs.OwnConflicts(s, grp, regions, depth);
    assert n !in WalkedList(s, grp, regions, depth);
    assert r in g1.reqs[n];
    if grp.explicit != [] {
      var a := grp.explicit[0];
      BuilderProofs.AddConflictsOnly(g, n, regions(a.region), a, UsersOf(s.users, a.region), depth, r);
      if r !in g.reqs[n] {
        var u :| u in UsersOf(s.users, a.region) && NeedsEdge(g, regions(a.region), a, u) && u.node == r;
        assert NeedsEdge(s.g, regions(a.region), a, u);
      }
    }
    if r in g.reqs[n] {
      var i :| 0 <= i < |g.reqs[n]| && g.reqs[n][i] == r;
      if i >= |grp.mems| { assert r == grp.deps[i - |grp.mems|]; }
    }
  }

  lemma ConflictFollows(s: State, regions: Regions, a: Access, r: NodeId, x: NodeId)
    requires EarlierOnly(s.g) && BuilderProofs.IsConflict(s.g, regions(a.region), a, UsersOf(s.users, a.region), r)
    requires ReachesOrIs(s.g, r, x)
    ensures ConflictPath(s, regions, a, x)
  {
  }

  lemma EdgeFollows(s: State, grp: Group, regions: Regions, depth: int, r: NodeId, x: NodeId)
    requires Shape(s) && BuildOk(s, grp, regions, depth) && !FreshNode(s, grp, r) && ReachesOrIs(s.g, r, x)
    requires r in BuiltGraph(s, grp, regions, depth).reqs[NewNode(s, grp)]
    ensures MustFollow(s, grp, regions, x)
  {
    CommandEdge(s, grp, regions, depth, r);
    if r !in grp.deps {
      ConflictFollows(s, regions, grp.explicit[0], r, x);
      assert grp.explicit[0] in grp.explicit + grp.mems;
    }
  }

  lemma FreshFollows(s: State, grp: Group, regions: Regions, depth: int, m: NodeId, x: NodeId)
    requires Shape(s) && BuildOk(s, grp, regions, depth) && FreshNode(s, grp, m) && HasNode(s.g, x)
    requires EarlierOnly(BuiltGraph(s, grp, regions, depth)) && Reaches(BuiltGraph(s, grp, regions, depth), m, x)
    ensures MustFollow(s, grp, regions, x)
  {
    FreshReachesIff(s, grp, regions, depth, m, x);
    assert grp.mems[m - |s.g.reqs|] in grp.explicit + grp.mems;
  }

  lemma FollowsOnly(s: State, grp: Group, regions: Regions, depth: int, x: NodeId)
    requires Shape(s) && BuildOk(s, grp, regions, depth) && HasNode(s.g, x)
    requires EarlierOnly(BuiltGraph(s, grp, regions, depth))
    requires Reaches(BuiltGraph(s, grp, regions, depth), NewNode(s, grp), x)
    ensures MustFollow(s, grp, regions, x)
  {
    var g, n := BuiltGraph(s, grp, regions, depth), NewNode(s, grp);
    var r :| r in g.reqs[n] && r !in g.dead && (r == x || Reaches(g, r, x));
    if FreshNode(s, grp, r) {
      FreshFollows(s, grp, regions, depth, r, x);
    } else {
      if r != x { OldReachIsOld(s, grp, regions, depth, r, x); }
      EdgeFollows(s, grp, regions, depth, r, x);
    }
  }

  lemma DependencyReached(s: State, grp: Group, regions: Regions, depth: int, d: NodeId)
    requires Shape(s) && BuildOk(s, grp, regions, depth) && d in grp.deps
    ensures EarlierOnly(BuiltGraph(s, grp, regions, depth))
    ensures Reaches(BuiltGraph(s, grp, regions, depth), NewNode(s, grp), d)
  {
    var g, n := Created(s, grp), NewNode(s, grp);
    BuilderProofs.CreatedEarlierOnly(s, grp, regions, depth);
    BuilderProofs.BuiltGraphShape(s, grp, regions, depth);
    var i :| 0 <= i < |grp.deps| && grp.deps[i] == d;
    assert g.reqs[n][|grp.mems| + i] == d && Reaches(g, n, d);
    if grp.explicit != [] {
      var a := grp.explicit[0];
      BuilderProofs.AddConflictsReach(g, n, regions(a.region), a, UsersOf(s.users, a.region), depth);
    }
    assert Reaches(WithOwnConflicts(s, grp, regions, depth), n, d);
  }

  /** The new command reaches every tracked user that conflicts with one of its accesses. */
  lemma CommandReachesConflict(s: State, grp: Group, regions: Regions, depth: int, a: Access, u: User)
    requires Shape(s) && BuildOk(s, grp, regions, depth) && a in grp.explicit + grp.mems
    requires u in UsersOf(s.users, a.region) && NeedsEdge(s.g, regions(a.region), a, u)
    ensures EarlierOnly(BuiltGraph(s, grp, regions, depth))
    ensures Reaches(BuiltGraph(s, grp, regions, depth), NewNode(s, grp), u.node)
  {
    BuilderProofs.BuiltGraphShape(s, grp, regions, depth);
    if a in grp.explicit {
      BuilderProofs.OwnConflicts(s, grp, regions, depth);
    } else {
      var i :| 0 <= i < |grp.mems| && grp.mems[i] == a;
      var m := |s.g.reqs| + i;
      assert FreshNode(s, grp, m);
      CommandReachesFresh(s, grp, regions, depth, m);
      BuilderProofs.FreshNodeReaches(s, grp, regions, depth, m, u);
      ReachesTransitive(BuiltGraph(s, grp, regions, depth), NewNode(s, grp), m, u.node);
    }
  }

  /** The new command reaches an old node exactly when it must follow it. */
  lemma CommandReachesIff(s: State, grp: Group, regions: Regions, depth: int, x: NodeId)
    requires Shape(s) && BuildOk(s, grp, regions, depth) && HasNode(s.g, x)
    ensures EarlierOnly(BuiltGraph(s, grp, regions, depth))
    ensures Reaches(BuiltGraph(s, grp, regions, depth), NewNode(s, grp), x) <==> MustFollow(s, grp, regions, x)
  {
    var g, n := BuiltGraph(s, grp, regions, depth), NewNode(s, grp);
    BuilderProofs.BuiltGraphShape(s, grp, regions, depth);
    if Reaches(g, n, x) { FollowsOnly(s, grp, regions, depth, x); }
    if a :| a in grp.explicit + grp.mems && ConflictPath(s, regions, a, x) {
      var u :| u in UsersOf(s.users, a.region) && NeedsEdge(s.g, regions(a.region), a, u)
        && ReachesOrIs(s.g, u.node, x);
      CommandReachesConflict(s, grp, regions, depth, a, u);
      if u.node != x {
        OldReachIsOld(s, grp, regions, depth, u.node, x);
        ReachesTransitive(g, n, u.node, x);
      }
    }
    if d :| d in grp.deps && ReachesOrIs(s.g, d, x) {
      DependencyReached(s, grp, regions, depth, d);
      OldReachIsOld(s, grp, regions, depth, d, x);
      ReachesTransitive(g, n, d, x);
    }
  }

  /** Whatever happens afterwards, a new command completes after an unfinished older node exactly when
      one of its accesses conflicts with a tracked user that is, or waits for, that node, or a
      dependency does. */
  lemma FollowsIff(s: State, grp: Group, regions: Regions, depth: int, x: NodeId)
    requires Inv(s, regions) && BuildOk(s, grp, regions, depth) && HasNode(s.g, x) && x !in s.order
    ensures AlwaysAfter(Build(s, grp, regions, depth), regions, x, NewNode(s, grp)) <==> MustFollow(s, grp, regions, x)
  {
    BuilderProofs.BuildKeepsInv(s, grp, regions, depth);
    CommandReachesIff(s, grp, regions, depth, x);
    OrderedIffReached(Build(s, grp, regions, depth), regions, x, NewNode(s, grp));
  }

  /** The same for a requirement node of the new command, that is, for its transfers. */
  lemma TransferFollowsIff(s: State, grp: Group, regions: Regions, depth: int, m: NodeId, x: NodeId)
    requires Inv(s, regions) && BuildOk(s, grp, regions, depth) && HasNode(s.g, x) && x !in s.order
    requires FreshNode(s, grp, m)
    ensures AlwaysAfter(Build(s, grp, regions, depth), regions, x, m) <==>
            ConflictPath(s, regions, grp.mems[m - |s.g.reqs|], x)
  {
    BuilderProofs.BuildKeepsInv(s, grp, regions, depth);
    FreshReachesIff(s, grp, regions, depth, m, x);
    OrderedIffReached(Build(s, grp, regions, depth), regions, x, m);
  }

  // ---------------------------------------------------------------------------------------------
  // Reads

  ghost predicate ReadsOnly(grp: Group) {
    grp.deps == [] && forall a :: a in grp.explicit + grp.mems ==> a.mode.Read?
  }

  /** The tracked writers of the regions that a group accesses are older than `x`. */
  ghost predicate WritersOlder(s: State, grp: Group, x: NodeId) {
    forall a, u :: a in grp.explicit + grp.mems && u in UsersOf(s.users, a.region) && Writes(u.mode) ==> u.node < x
  }

  lemma OlderHaveNoPath(s: State, regions: Regions, a: Access, x: NodeId)
    requires EarlierOnly(s.g) && a.mode.Read?
    requires forall u :: u in UsersOf(s.users, a.region) && Writes(u.mode) ==> u.node < x
    ensures !ConflictPath(s, regions, a, x)
  {
    forall u | u in UsersOf(s.users, a.region) && NeedsEdge(s.g, regions(a.region), a, u)
      ensures !ReachesOrIs(s.g, u.node, x)
    {
      if Reaches(s.g, u.node, x) { ReachesIsEarlier(s.g, u.node, x); }
    }
  }

  /** A reading command and its transfers do not wait for unfinished nodes younger than the tracked
      writers: neither for other readers nor for the transfers of other readers. */
  lemma ReadersDoNotWait(s: State, grp: Group, regions: Regions, depth: int, x: NodeId)
    requires Inv(s, regions) && BuildOk(s, grp, regions, depth) && HasNode(s.g, x) && x !in s.order
    requires ReadsOnly(grp) && WritersOlder(s, grp, x)
    ensures !AlwaysAfter(Build(s, grp, regions, depth), regions, x, NewNode(s, grp))
    ensures forall m :: FreshNode(s, grp, m) ==> !AlwaysAfter(Build(s, grp, regions, depth), regions, x, m)
  {
    forall a | a in grp.explicit + grp.mems ensures !ConflictPath(s, regions, a, x) {
      OlderHaveNoPath(s, regions, a, x);
    }
    FollowsIff(s, grp, regions, depth, x);
    forall m | FreshNode(s, grp, m) ensures !AlwaysAfter(Build(s, grp, regions, depth), regions, x, m) {
      TransferFollowsIff(s, grp, regions, depth, m, x);
      assert grp.mems[m - |s.g.reqs|] in grp.explicit + grp.mems;
    }
  }

  ghost function One(a: Access): Group {
    Group([], [a], [])
  }

  /** A group with one access adds its requirement node and its operation node. */
  lemma OneBuilds(s: State, a: Access, regions: Regions, depth: int)
    requires Inv(s, regions)
    ensures BuildOk(s, One(a), regions, depth)
    ensures var s' := Build(s, One(a), regions, depth);
            && Inv(s', regions) && |s'.g.reqs| == |s.g.reqs| + 2 && s'.order == s.order
            && s'.access == s.access[|s.g.reqs| := a] && s'.commands == s.commands + [Command(|s.g.reqs| + 1, [a])]
  {
    var list := WalkedList(s, One(a), regions, depth);
    forall m | m in list ensures m >= |s.g.reqs| { assert m == |s.g.reqs|; }
    BuilderProofs.BuildKeepsInv(s, One(a), regions, depth);
    assert [] + [a] == [a];
    OneAccess(s, a);
  }

  lemma OneAccess(s: State, a: Access)
    ensures NewAccesses(s, One(a)) == s.access[|s.g.reqs| := a]
  {
    assert [a][..0] == [] && RegisterMems(s.access, |s.g.reqs|, []) == s.access;
  }

  lemma OneAddsUser(s: State, a: Access, regions: Regions, depth: int, u: User)
    requires u in UsersOf(Build(s, One(a), regions, depth).users, a.region)
    ensures u in UsersOf(s.users, a.region) || u == User(|s.g.reqs| + 1, a.mode, a.elements)
  {
    var g := BuiltGraph(s, One(a), regions, depth);
    assert ([] + [a])[..0] == [];
    assert AddUsers(g, s.users, |s.g.reqs| + 1, []) == s.users;
    assert AddUsers(g, s.users, |s.g.reqs| + 1, [] + [a]) == AddUser(g, s.users, |s.g.reqs| + 1, a);
  }

  /** Built from nothing, with no node completed. */
  ghost predicate Reachable(s: State, regions: Regions) {
    exists events :: OnlySubmits(events) && IsRun(Init, events, regions, s)
  }

  lemma ReachableInv(s: State, regions: Regions)
    requires Reachable(s, regions)
    ensures Inv(s, regions)
  {
    var events :| OnlySubmits(events) && IsRun(Init, events, regions, s);
    InitPlaced(regions);
    BuilderProofs.RunKeepsInv(Init, events, regions, s);
  }

  lemma ReachableNext(s: State, grp: Group, depth: int, regions: Regions)
    requires Reachable(s, regions) && BuildOk(s, grp, regions, depth)
    ensures Reachable(Build(s, grp, regions, depth), regions)
  {
    var events :| OnlySubmits(events) && IsRun(Init, events, regions, s);
    BuilderProofs.RunAppend(Init, events, Submit(grp, depth), regions, s);
    OneMoreSubmit(events, grp, depth);
  }

  lemma OneMoreSubmit(events: seq<Event>, grp: Group, depth: int)
    requires OnlySubmits(events)
    ensures OnlySubmits(events + [Submit(grp, depth)])
  {
  }

  ghost predicate OlderWriters(users: seq<User>, x: NodeId) {
    forall u :: u in users && Writes(u.mode) ==> u.node < x
  }

  /** `s'` comes from `s` by submitting one more group, with the access `a`. */
  ghost predicate Grown(s: State, a: Access, s': State) {
    && |s'.g.reqs| == |s.g.reqs| + 2 && s'.order == s.order
    && s'.access == s.access[|s.g.reqs| := a]
    && s'.commands == s.commands + [Command(|s.g.reqs| + 1, [a])]
    && forall u :: u in UsersOf(s'.users, a.region) ==>
         u in UsersOf(s.users, a.region) || u == User(|s.g.reqs| + 1, a.mode, a.elements)
  }

  lemma OneMore(s: State, a: Access, regions: Regions, depth: int)
    requires Reachable(s, regions)
    ensures BuildOk(s, One(a), regions, depth)
    ensures Reachable(Build(s, One(a), regions, depth), regions) && Grown(s, a, Build(s, One(a), regions, depth))
  {
    ReachableInv(s, regions);
    OneBuilds(s, a, regions, depth);
    var s' := Build(s, One(a), regions, depth);
    ReachableNext(s, One(a), depth, regions);
    forall u | u in UsersOf(s'.users, a.region)
      ensures u in UsersOf(s.users, a.region) || u == User(|s.g.reqs| + 1, a.mode, a.elements)
    {
      OneAddsUser(s, a, regions, depth, u);
    }
  }

  lemma OneDoesNotWait(s: State, a: Access, regions: Regions, depth: int, x: NodeId)
    requires Inv(s, regions) && BuildOk(s, One(a), regions, depth) && a.mode.Read?
    requires x < |s.g.reqs| && x !in s.order && OlderWriters(UsersOf(s.users, a.region), x)
    ensures !AlwaysAfter(Build(s, One(a), regions, depth), regions, x, |s.g.reqs|)
    ensures !AlwaysAfter(Build(s, One(a), regions, depth), regions, x, |s.g.reqs| + 1)
  {
    ReadersDoNotWait(s, One(a), regions, depth, x);
    assert FreshNode(s, One(a), |s.g.reqs|);
  }

  /** One more read, which waits for no unfinished node younger than the tracked writers. */
  lemma OneMoreRead(s: State, a: Access, regions: Regions, depth: int, x: NodeId) returns (s': State)
    requires Reachable(s, regions) && a.mode.Read?
    requires x < |s.g.reqs| && x !in s.order && OlderWriters(UsersOf(s.users, a.region), x)
    ensures Reachable(s', regions) && Grown(s, a, s')
    ensures !AlwaysAfter(s', regions, x, |s.g.reqs|) && !AlwaysAfter(s', regions, x, |s.g.reqs| + 1)
  {
    ReachableInv(s, regions);
    OneMore(s, a, regions, depth);
    s' := Build(s, One(a), regions, depth);
    OneDoesNotWait(s, a, regions, depth, x);
  }

  /** A write and a read of one region, built from nothing. */
  lemma WriteThenRead(w: Access, r: Access, regions: Regions, depth: int) returns (s1: State, s: State)
    requires r.region == w.region && r.mode.Read?
    ensures Reachable(s, regions) && Grown(Init, w, s1) && Grown(s1, r, s)
  {
    assert OnlySubmits([]) && IsRun(Init, [], regions, Init);
    OneMore(Init, w, regions, depth);
    s1 := Build(Init, One(w), regions, depth);
    OneMore(s1, r, regions, depth);
    s := Build(s1, One(r), regions, depth);
  }

  lemma TwoGrown(w: Access, r: Access, s1: State, s2: State)
    requires r.region == w.region && r.mode.Read? && Grown(Init, w, s1) && Grown(s1, r, s2)
    ensures |s2.g.reqs| == 4 && s2.order == [] && OlderWriters(UsersOf(s2.users, r.region), 2)
  {
  }

  lemma ThreeGrown(w: Access, r: Access, s1: State, s2: State, s: State)
    requires r.region == w.region && r.mode.Read? && Grown(Init, w, s1) && Grown(s1, r, s2) && Grown(s2, r, s)
    ensures s.commands == [Command(1, [w]), Command(3, [r]), Command(5, [r])] && s.access == map[0 := w, 2 := r, 4 := r]
  {
    assert s2.commands == [Command(1, [w]), Command(3, [r])];
  }

  lemma UnorderedOnLanes(
    events: seq<Event>, vs: set<NodeId>, regions: Regions, backend: Backends, s: State, x: NodeId, n: NodeId)
    requires OnlySubmits(events) && IsRun(Init, events, regions, s) && n < |s.g.reqs| && x != n && x !in vs
    requires n !in s.order && !AlwaysAfter(s, regions, x, n)
    ensures !AlwaysAfterOnLanes(events, |s.g.reqs|, vs, regions, backend, x, n)
  {
    assert Reachable(s, regions);
    ReachableInv(s, regions);
    OrderedIffReached(s, regions, x, n);
    LanesOrderIffReached(events, vs, regions, backend, s, x, n);
  }

  /** Built from nothing: a write, a read and another read of one region, where nothing makes
      the second read wait for node 2, which carries the transfer of the first. */
  lemma WriteReadRead(w: Access, r: Access, regions: Regions, depth: int) returns (s: State)
    requires r.region == w.region && r.mode.Read?
    ensures Reachable(s, regions) && s.commands == [Command(1, [w]), Command(3, [r]), Command(5, [r])]
    ensures |s.g.reqs| == 6 && s.order == [] && s.access == map[0 := w, 2 := r, 4 := r]
    ensures !AlwaysAfter(s, regions, 2, 4) && !AlwaysAfter(s, regions, 2, 5)
  {
    var s1, s2 := WriteThenRead(w, r, regions, depth);
    TwoGrown(w, r, s1, s2);
    s := OneMoreRead(s2, r, regions, depth, 2);
    ThreeGrown(w, r, s1, s2, s);
  }

  /** On lanes, too, the transfer of the first read (node 2) need not run before node 4, which may copy from
      the copy that node 2 fills, nor before command 5, which may read that copy, whichever of the other
      nodes are virtual. */
  lemma SecondReadRunsEarly(w: Access, r: Access, regions: Regions, backend: Backends, depth: int)
    returns (events: seq<Event>, s: State)
    requires r.region == w.region && r.mode.Read?
    ensures OnlySubmits(events) && IsRun(Init, events, regions, s) && |s.g.reqs| == 6
    ensures s.commands == [Command(1, [w]), Command(3, [r]), Command(5, [r])] && s.access == map[0 := w, 2 := r, 4 := r]
    ensures forall vs :: 2 !in vs ==>
              && !AlwaysAfterOnLanes(events, 6, vs, regions, backend, 2, 4)
              && !AlwaysAfterOnLanes(events, 6, vs, regions, backend, 2, 5)
  {
    s := WriteReadRead(w, r, regions, depth);
    events :| OnlySubmits(events) && IsRun(Init, events, regions, s);
    forall vs | 2 !in vs
      ensures && !AlwaysAfterOnLanes(events, 6, vs, regions, backend, 2, 4)
              && !AlwaysAfterOnLanes(events, 6, vs, regions, backend, 2, 5)
    {
      UnorderedOnLanes(events, vs, regions, backend, s, 2, 4);
      UnorderedOnLanes(events, vs, regions, backend, s, 2, 5);
    }
  }
}
