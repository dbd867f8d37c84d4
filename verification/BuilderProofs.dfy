/** Every event of the builder keeps its invariant: edge pruning, skipped conflicts and replaced
    data users never lose an ordering (src/runtime/dag_builder.cpp, src/runtime/dag_node.cpp). */
module BuilderProofs {
  import opened Geometry
  import opened Dag
  import opened Builder

  // ---------------------------------------------------------------------------------------------
  // Conflict edges

  /** All users that need an edge are reachable afterwards, and nothing becomes unreachable. */
  lemma {:induction false} AddConflictsReach(g: Graph, n: NodeId, ps: PageSize, a: Access, users: seq<User>, depth: int)
    requires EarlierOnly(g) && HasNode(g, n)
    requires forall u :: u in users && NeedsEdge(g, ps, a, u) ==> u.node < n
    ensures EarlierOnly(AddConflicts(g, n, ps, a, users, depth))
    ensures forall u :: u in users && NeedsEdge(g, ps, a, u) ==>
            Reaches(AddConflicts(g, n, ps, a, users, depth), n, u.node)
    ensures forall b, x :: Reaches(g, b, x) ==> Reaches(AddConflicts(g, n, ps, a, users, depth), b, x)
    decreases |users|
  {
    if users != [] {
      var u := users[|users| - 1];
      assert users == users[..|users| - 1] + [u];
      var g1 := if NeedsEdge(g, ps, a, u) then AddReq(g, n, u.node, depth) else g;
      if NeedsEdge(g, ps, a, u) { AddReqGains(g, n, u.node, depth); }
      assert forall v :: NeedsEdge(g, ps, a, v) <==> NeedsEdge(g1, ps, a, v);
      AddConflictsReach(g1, n, ps, a, users[..|users| - 1], depth);
    }
  }

  ghost predicate IsConflict(g: Graph, ps: PageSize, a: Access, users: seq<User>, r: NodeId) {
    exists u :: u in users && NeedsEdge(g, ps, a, u) && u.node == r
  }

  /** Conflict edges lead to users that need one. */
  lemma {:induction false} AddConflictsOnly(
    g: Graph, n: NodeId, ps: PageSize, a: Access, users: seq<User>, depth: int, r: NodeId)
    requires HasNode(g, n) && r in AddConflicts(g, n, ps, a, users, depth).reqs[n]
    ensures r in g.reqs[n] || IsConflict(g, ps, a, users, r)
    decreases |users|
  {
    if users != [] {
      var u := users[|users| - 1];
      var g1 := if NeedsEdge(g, ps, a, u) then AddReq(g, n, u.node, depth) else g;
      AddConflictsOnly(g1, n, ps, a, users[..|users| - 1], depth, r);
      if r !in g1.reqs[n] {
        var v :| v in users[..|users| - 1] && NeedsEdge(g1, ps, a, v) && v.node == r;
        assert v in users && NeedsEdge(g, ps, a, v);
      } else if r !in g.reqs[n] {
        assert u in users && u.node == r;
      }
    }
  }

  /** Requirements younger than every user survive the pruning. */
  lemma {:induction false} AddConflictsKeeps(
    g: Graph, n: NodeId, ps: PageSize, a: Access, users: seq<User>, depth: int, e: NodeId)
    requires EarlierOnly(g) && HasNode(g, n) && e in g.reqs[n] && e !in g.dead
    requires forall u :: u in users ==> u.node < e
    ensures e in AddConflicts(g, n, ps, a, users, depth).reqs[n]
    decreases |users|
  {
    if users != [] {
      var u := users[|users| - 1];
      assert users == users[..|users| - 1] + [u];
      var g1 := if NeedsEdge(g, ps, a, u) then AddReq(g, n, u.node, depth) else g;
      if NeedsEdge(g, ps, a, u) {
        AddReqEarlierOnly(g, n, u.node, depth);
        if Find(g, u.node, depth, e) {
          FindSound(g, u.node, depth, e);
          ReachesIsEarlier(g, u.node, e);
          assert false;
        }
        assert e in g1.reqs[n];
      }
      AddConflictsKeeps(g1, n, ps, a, users[..|users| - 1], depth, e);
    }
  }

  /** The walk adds the conflict edges of every requirement node it visits. */
  lemma {:induction false} WalkReach(
    g: Graph, list: seq<NodeId>, access: map<NodeId, Access>, users: map<nat, seq<User>>, regions: Regions,
    depth: int)
    requires EarlierOnly(g)
    requires forall m, u | && m in list && m in access && HasNode(g, m) && m !in g.dead
                           && u in UsersOf(users, access[m].region)
                             && NeedsEdge(g, regions(access[m].region), access[m], u)
               :: u.node < m
    ensures var g' := Walk(g, list, access, users, regions, depth);
            && EarlierOnly(g')
            && (forall b, x :: Reaches(g, b, x) ==> Reaches(g', b, x))
            && forall m, u | && m in list && m in access && HasNode(g, m) && m !in g.dead
                             && u in UsersOf(users, access[m].region)
                               && NeedsEdge(g, regions(access[m].region), access[m], u)
                 :: Reaches(g', m, u.node)
    decreases |list|
  {
    if list != [] {
      var m := list[0];
      assert m in list && forall k :: k in list[1..] ==> k in list;
      var visit := m !in g.dead && m in access && HasNode(g, m);
      var g1 := if visit
                then AddConflicts(g, m, regions(access[m].region), access[m], UsersOf(users, access[m].region), depth)
                else g;
      if visit {
        AddConflictsReach(g, m, regions(access[m].region), access[m], UsersOf(users, access[m].region), depth);
      }
      assert forall k, u :: k in access ==>
        (NeedsEdge(g, regions(access[k].region), access[k], u) <==>
          NeedsEdge(g1, regions(access[k].region), access[k], u));
      WalkReach(g1, list[1..], access, users, regions, depth);
      assert list == [m] + list[1..];
    }
  }

  // ---------------------------------------------------------------------------------------------
  // The built graph

  /** What the new operation node reaches. */
  ghost predicate Synced(g: Graph, done: set<NodeId>, users: map<nat, seq<User>>, n: NodeId, a: Access, ps: PageSize)
    requires EarlierOnly(g)
  {
    forall u :: u in UsersOf(users, a.region) && ConflictingAccess(ps, a, u) ==>
      u.node == n || u.node in done || Reaches(g, n, u.node)
  }

  lemma CreatedEarlierOnly(s: State, grp: Group, regions: Regions, depth: int)
    requires Shape(s) && BuildOk(s, grp, regions, depth)
    ensures EarlierOnly(Created(s, grp))
    ensures forall m :: FreshNode(s, grp, m) ==> m in Created(s, grp).reqs[NewNode(s, grp)]
  {
    var g, n := Created(s, grp), NewNode(s, grp);
    forall m, r | HasNode(g, m) && r in g.reqs[m] ensures r < m {
      if m == n {
        var i :| 0 <= i < |g.reqs[n]| && g.reqs[n][i] == r;
        if i >= |grp.mems| { assert r == grp.deps[i - |grp.mems|]; }
      }
    }
    forall m | FreshNode(s, grp, m) ensures m in g.reqs[n] {
      assert g.reqs[n][m - |s.g.reqs|] == m;
    }
  }

  lemma OwnConflicts(s: State, grp: Group, regions: Regions, depth: int)
    requires Shape(s) && BuildOk(s, grp, regions, depth)
    ensures EarlierOnly(WithOwnConflicts(s, grp, regions, depth))
    ensures forall m :: FreshNode(s, grp, m) ==> m in WalkedList(s, grp, regions, depth)
    ensures forall a, u | a in grp.explicit && u in UsersOf(s.users, a.region)
            && NeedsEdge(s.g, regions(a.region), a, u)
              :: Reaches(WithOwnConflicts(s, grp, regions, depth), NewNode(s, grp), u.node)
  {
    CreatedEarlierOnly(s, grp, regions, depth);
    var g, n := Created(s, grp), NewNode(s, grp);
    if grp.explicit != [] {
      var a := grp.explicit[0];
      AddConflictsReach(g, n, regions(a.region), a, UsersOf(s.users, a.region), depth);
      forall m | FreshNode(s, grp, m) ensures m in WalkedList(s, grp, regions, depth) {
        AddConflictsKeeps(g, n, regions(a.region), a, UsersOf(s.users, a.region), depth, m);
      }
      assert forall u :: NeedsEdge(s.g, regions(a.region), a, u) <==> NeedsEdge(g, regions(a.region), a, u);
    }
  }

  lemma FreshAccess(s: State, grp: Group)
    ensures forall m :: FreshNode(s, grp, m) ==>
            m in NewAccesses(s, grp) && NewAccesses(s, grp)[m] == grp.mems[m - |s.g.reqs|]
    ensures forall m :: m in NewAccesses(s, grp) ==> m in s.access || |s.g.reqs| <= m <= NewNode(s, grp)
  {
  }

  lemma OldAccessKept(s: State, grp: Group, m: NodeId)
    requires m < |s.g.reqs|
    ensures m in NewAccesses(s, grp) <==> m in s.access
    ensures m in s.access ==> NewAccesses(s, grp)[m] == s.access[m]
  {
    if m in s.access { OldEntriesKept(s.access, |s.g.reqs|, grp.mems, m); }
  }

  lemma {:induction false} OldEntriesKept(access: map<NodeId, Access>, first: NodeId, mems: seq<Access>, m: NodeId)
    requires m < first && m in access
    ensures RegisterMems(access, first, mems)[m] == access[m]
    decreases |mems|
  {
    if mems != [] { OldEntriesKept(access, first, mems[..|mems| - 1], m); }
  }

  lemma ProvidedIsOlder(g: Graph, m: NodeId, r: NodeId, depth: int)
    requires EarlierOnly(g) && HasNode(g, m) && AlreadyProvided(g, g.reqs[m], r, depth)
    ensures r < m
  {
    var e :| e in g.reqs[m] && e !in g.dead && (e == r || Find(g, e, depth, r));
    if e != r {
      FindSound(g, e, depth, r);
      ReachesIsEarlier(g, e, r);
    }
  }

  /** A walked requirement node is younger than the users that need an edge from it. */
  lemma WalkedIsYounger(s: State, grp: Group, regions: Regions, depth: int, m: NodeId, u: User)
    requires Shape(s) && BuildOk(s, grp, regions, depth) && m !in s.g.dead
    requires m in WalkedList(s, grp, regions, depth) && m in NewAccesses(s, grp)
    requires var a := NewAccesses(s, grp)[m]; u in UsersOf(s.users, a.region) && NeedsEdge(s.g, regions(a.region), a, u)
    ensures u.node < m
  {
    FreshAccess(s, grp);
    if m < |s.g.reqs| {
      OldAccessKept(s, grp, m);
      assert AddsNothing(s, regions, depth, m);
      ProvidedIsOlder(s.g, m, u.node, depth);
    }
  }

  lemma WalkedAreYounger(s: State, grp: Group, regions: Regions, depth: int)
    requires Shape(s) && BuildOk(s, grp, regions, depth)
    ensures var g, acc := WithOwnConflicts(s, grp, regions, depth), NewAccesses(s, grp);
            forall m, u | && m in WalkedList(s, grp, regions, depth) && m in acc && HasNode(g, m) && m !in g.dead
                          && u in UsersOf(s.users, acc[m].region) && NeedsEdge(g, regions(acc[m].region), acc[m], u)
              :: u.node < m
  {
    var g, acc := WithOwnConflicts(s, grp, regions, depth), NewAccesses(s, grp);
    forall m, u | && m in WalkedList(s, grp, regions, depth) && m in acc && HasNode(g, m) && m !in g.dead
                  && u in UsersOf(s.users, acc[m].region) && NeedsEdge(g, regions(acc[m].region), acc[m], u)
      ensures u.node < m
    {
      WalkedIsYounger(s, grp, regions, depth, m, u);
    }
  }

  /** Searches below old nodes are the same in a graph that keeps the old lists. */
  lemma {:induction false} FindKept(g: Graph, h: Graph, n: NodeId, current: NodeId, level: int, x: NodeId)
    requires EarlierOnly(g) && h.known == g.known && h.dead == g.dead && current < n
    requires forall m :: m < n && HasNode(g, m) ==> HasNode(h, m) && h.reqs[m] == g.reqs[m]
    requires Find(g, current, level, x)
    ensures Find(h, current, level, x)
    decreases level
  {
    if current != x {
      var r :| r in g.reqs[current] && r !in g.dead && r !in g.known && Find(g, r, level - 1, x);
      FindKept(g, h, n, r, level - 1, x);
    }
  }

  /** The lists of the nodes of `s` are kept in `h`. */
  ghost predicate KeepsOld(g: Graph, h: Graph) {
    && h.known == g.known && h.dead == g.dead && |g.reqs| <= |h.reqs|
    && forall m :: HasNode(g, m) ==> h.reqs[m] == g.reqs[m]
  }

  lemma ProvidedKept(g: Graph, h: Graph, m: NodeId, r: NodeId, depth: int)
    requires EarlierOnly(g) && KeepsOld(g, h) && HasNode(g, m) && AlreadyProvided(g, g.reqs[m], r, depth)
    ensures AlreadyProvided(h, h.reqs[m], r, depth)
  {
    var e :| e in g.reqs[m] && e !in g.dead && (e == r || Find(g, e, depth, r));
    if e != r { FindKept(g, h, m, e, depth, r); }
  }

  lemma {:induction false} ConflictsAddNothing(
    g: Graph, n: NodeId, ps: PageSize, a: Access, users: seq<User>, depth: int)
    requires HasNode(g, n)
    requires forall u :: u in users && NeedsEdge(g, ps, a, u) ==> AlreadyProvided(g, g.reqs[n], u.node, depth)
    ensures AddConflicts(g, n, ps, a, users, depth) == g
    decreases |users|
  {
    if users != [] {
      assert users == users[..|users| - 1] + [users[|users| - 1]];
      ConflictsAddNothing(g, n, ps, a, users[..|users| - 1], depth);
    }
  }

  lemma VisitKeepsOld(s: State, grp: Group, regions: Regions, depth: int, h: Graph, m: NodeId)
    requires Shape(s) && BuildOk(s, grp, regions, depth) && KeepsOld(s.g, h)
    requires m in WalkedList(s, grp, regions, depth) && m in NewAccesses(s, grp) && HasNode(h, m) && m !in h.dead
    ensures var a := NewAccesses(s, grp)[m];
            KeepsOld(s.g, AddConflicts(h, m, regions(a.region), a, UsersOf(s.users, a.region), depth))
  {
    if m < |s.g.reqs| {
      OldAccessKept(s, grp, m);
      var a := s.access[m];
      assert AddsNothing(s, regions, depth, m);
      forall u | u in UsersOf(s.users, a.region) && NeedsEdge(h, regions(a.region), a, u)
        ensures AlreadyProvided(h, h.reqs[m], u.node, depth)
      {
        assert NeedsEdge(s.g, regions(a.region), a, u);
        ProvidedKept(s.g, h, m, u.node, depth);
      }
      ConflictsAddNothing(h, m, regions(a.region), a, UsersOf(s.users, a.region), depth);
    }
  }

  lemma {:induction false} WalkKeepsOld(s: State, grp: Group, regions: Regions, depth: int, h: Graph, list: seq<NodeId>)
    requires Shape(s) && BuildOk(s, grp, regions, depth) && KeepsOld(s.g, h)
    requires forall m :: m in list ==> m in WalkedList(s, grp, regions, depth)
    ensures KeepsOld(s.g, Walk(h, list, NewAccesses(s, grp), s.users, regions, depth))
    decreases |list|
  {
    if list != [] {
      var m, acc := list[0], NewAccesses(s, grp);
      assert m in list && forall k :: k in list[1..] ==> k in list;
      var visit := m !in h.dead && m in acc && HasNode(h, m);
      var h1 := if visit then AddConflicts(h, m, regions(acc[m].region), acc[m], UsersOf(s.users, acc[m].region),
        depth) else h;
      if visit { VisitKeepsOld(s, grp, regions, depth, h, m); }
      WalkKeepsOld(s, grp, regions, depth, h1, list[1..]);
    }
  }

  lemma OldListsKept(s: State, grp: Group, regions: Regions, depth: int, m: NodeId)
    requires Shape(s) && BuildOk(s, grp, regions, depth) && HasNode(s.g, m)
    ensures BuiltGraph(s, grp, regions, depth).reqs[m] == s.g.reqs[m]
  {
    var g1 := WithOwnConflicts(s, grp, regions, depth);
    assert KeepsOld(s.g, g1);
    WalkKeepsOld(s, grp, regions, depth, g1, WalkedList(s, grp, regions, depth));
  }

  lemma BuiltGraphShape(s: State, grp: Group, regions: Regions, depth: int)
    requires Shape(s) && BuildOk(s, grp, regions, depth)
    ensures EarlierOnly(BuiltGraph(s, grp, regions, depth)) && EarlierOnly(WithOwnConflicts(s, grp, regions, depth))
    ensures forall b, x :: Reaches(WithOwnConflicts(s, grp, regions, depth), b, x) ==>
            Reaches(BuiltGraph(s, grp, regions, depth), b, x)
  {
    OwnConflicts(s, grp, regions, depth);
    WalkedAreYounger(s, grp, regions, depth);
    WalkReach(WithOwnConflicts(s, grp, regions, depth), WalkedList(s, grp, regions, depth), NewAccesses(s, grp),
      s.users, regions, depth);
  }

  lemma FreshNodeReaches(s: State, grp: Group, regions: Regions, depth: int, m: NodeId, u: User)
    requires Shape(s) && BuildOk(s, grp, regions, depth) && EarlierOnly(BuiltGraph(s, grp, regions, depth))
    requires FreshNode(s, grp, m)
    requires var a := grp.mems[m - |s.g.reqs|];
             u in UsersOf(s.users, a.region) && NeedsEdge(s.g, regions(a.region), a, u)
    ensures Reaches(BuiltGraph(s, grp, regions, depth), m, u.node)
  {
    OwnConflicts(s, grp, regions, depth);
    WalkedAreYounger(s, grp, regions, depth);
    FreshAccess(s, grp);
    var g1, list, acc := WithOwnConflicts(s, grp, regions, depth), WalkedList(s, grp, regions, depth),
      NewAccesses(s, grp);
    WalkReach(g1, list, acc, s.users, regions, depth);
    assert m in list && m in acc && HasNode(g1, m) && m !in g1.dead;
    assert NeedsEdge(g1, regions(acc[m].region), acc[m], u);
  }

  /** After build_node the new node reaches every tracked user its accesses conflict with, unless
      that user is complete. */
  lemma BuiltGraphSynced(s: State, grp: Group, regions: Regions, depth: int, a: Access)
    requires Shape(s) && BuildOk(s, grp, regions, depth) && a in grp.explicit + grp.mems
    requires EarlierOnly(BuiltGraph(s, grp, regions, depth))
    ensures Synced(BuiltGraph(s, grp, regions, depth), Done(s), s.users, NewNode(s, grp), a, regions(a.region))
  {
    var g, n := BuiltGraph(s, grp, regions, depth), NewNode(s, grp);
    OwnConflicts(s, grp, regions, depth);
    BuiltGraphShape(s, grp, regions, depth);
    forall u | u in UsersOf(s.users, a.region) && ConflictingAccess(regions(a.region), a, u) && u.node !in Done(s)
      ensures Reaches(g, n, u.node)
    {
      assert NeedsEdge(s.g, regions(a.region), a, u);
      if a !in grp.explicit {
        var i :| 0 <= i < |grp.mems| && grp.mems[i] == a;
        var m := |s.g.reqs| + i;
        assert FreshNode(s, grp, m) && grp.mems[m - |s.g.reqs|] == a;
        assert m !in s.g.dead;
        assert Reaches(WithOwnConflicts(s, grp, regions, depth), n, m);
        FreshNodeReaches(s, grp, regions, depth, m, u);
        ReachesTransitive(g, n, m, u.node);
      }
    }
  }

  // ---------------------------------------------------------------------------------------------
  // Replacing data users

  /** Registering a user keeps every unfinished access covered. */
  lemma AddUserKeepsCovered(
    g: Graph, done: set<NodeId>, users: map<nat, seq<User>>, n: NodeId, a: Access, regions: Regions, m: NodeId,
    b: Access, p: Vec3)
    requires EarlierOnly(g) && DoneClosed(g, done) && g.dead <= done && m !in done
    requires Synced(g, done, users, n, a, regions(a.region))
    requires TouchesPage(p, b.elements, regions(b.region)) && CoveredAccess(g, users, m, b)
    ensures CoveredAccess(g, AddUser(g, users, n, a), m, b)
  {
    var users' := AddUser(g, users, n, a);
    var u :| u in UsersOf(users, b.region) && StandsIn(g, u, m, b);
    if a.region != b.region || !ReplacesUser(g, n, a, u) {
      assert u in UsersOf(users', b.region);
    } else {
      var w := User(n, a.mode, a.elements);
      assert w in UsersOf(users', b.region);
      if u.node in done && u.node != m { DoneReaches(g, done, u.node, m); }
      if u.node != n {
        if Writes(a.mode) {
          CoverIsPageCover(u.elements, b.elements, regions(b.region), p);
          CoverIsPageCover(a.elements, u.elements, regions(b.region), p);
          SharedPageOverlaps(a.elements, u.elements, regions(b.region), p);
          assert ConflictingAccess(regions(a.region), a, u);
        } else {
          FindDependencySound(g, n, u.node, 2);
        }
        ReachesTransitive(g, n, u.node, m);
      }
      assert StandsIn(g, w, m, b);
    }
  }

  lemma {:induction false} AddUsersOrigin(
    g: Graph, users: map<nat, seq<User>>, n: NodeId, accesses: seq<Access>, r: nat, u: User)
    requires u in UsersOf(AddUsers(g, users, n, accesses), r)
    ensures u in UsersOf(users, r) || u.node == n
    decreases |accesses|
  {
    if accesses != [] {
      var before := AddUsers(g, users, n, accesses[..|accesses| - 1]);
      if u in UsersOf(before, r) {
        AddUsersOrigin(g, users, n, accesses[..|accesses| - 1], r, u);
      }
    }
  }

  lemma {:induction false} AddUsersCovered(
    g: Graph, done: set<NodeId>, users: map<nat, seq<User>>, n: NodeId, accesses: seq<Access>, regions: Regions,
    m: NodeId, b: Access, p: Vec3)
    requires EarlierOnly(g) && DoneClosed(g, done) && g.dead <= done && m !in done
    requires forall a :: a in accesses ==> Synced(g, done, users, n, a, regions(a.region))
    requires TouchesPage(p, b.elements, regions(b.region))
    requires CoveredAccess(g, users, m, b) || (m == n && b in accesses)
    ensures CoveredAccess(g, AddUsers(g, users, n, accesses), m, b)
    decreases |accesses|
  {
    if accesses != [] {
      var init, a := accesses[..|accesses| - 1], accesses[|accesses| - 1];
      assert accesses == init + [a];
      var before := AddUsers(g, users, n, init);
      if CoveredAccess(g, users, m, b) || b in init {
        AddUsersCovered(g, done, users, n, init, regions, m, b, p);
        forall u | u in UsersOf(before, a.region) && ConflictingAccess(regions(a.region), a, u)
          ensures u.node == n || u.node in done || Reaches(g, n, u.node)
        {
          AddUsersOrigin(g, users, n, init, a.region, u);
        }
        AddUserKeepsCovered(g, done, before, n, a, regions, m, b, p);
      } else {
        var w := User(n, a.mode, a.elements);
        assert w in UsersOf(AddUsers(g, users, n, accesses), b.region) && StandsIn(g, w, m, b);
      }
    }
  }

  // ---------------------------------------------------------------------------------------------
  // build_node keeps the invariant

  /** Lists of older nodes that stay as they are keep completed work closed. */
  lemma OldDoneClosed(s: State, g: Graph)
    requires DoneClosed(s.g, Done(s)) && (forall n :: n in s.order ==> HasNode(s.g, n))
    requires |s.g.reqs| <= |g.reqs| && forall m :: HasNode(s.g, m) ==> g.reqs[m] == s.g.reqs[m]
    ensures DoneClosed(g, Done(s))
  {
  }

  lemma BuildKeepsShape(s: State, grp: Group, regions: Regions, depth: int)
    requires Shape(s) && BuildOk(s, grp, regions, depth)
    ensures Shape(Build(s, grp, regions, depth))
  {
    var s' := Build(s, grp, regions, depth);
    BuiltGraphShape(s, grp, regions, depth);
    forall m | HasNode(s.g, m) ensures s'.g.reqs[m] == s.g.reqs[m] { OldListsKept(s, grp, regions, depth, m); }
    assert Done(s') == Done(s);
    assert forall n :: HasNode(s.g, n) ==> HasNode(s'.g, n);
    OldDoneClosed(s, s'.g);
    assert forall n :: n in s'.access ==> HasNode(s'.g, n) by { FreshAccess(s, grp); }
    assert forall i :: 0 <= i < |s'.commands| - 1 ==> s'.commands[i] == s.commands[i];
    UsersAreNodes(s, grp, s'.g);
  }

  lemma UsersAreNodes(s: State, grp: Group, g: Graph)
    requires (forall r, u :: u in UsersOf(s.users, r) ==> HasNode(s.g, u.node)) && |g.reqs| == NewNode(s, grp) + 1
    ensures forall r, u :: u in UsersOf(AddUsers(g, s.users, NewNode(s, grp), grp.explicit + grp.mems), r) ==>
            HasNode(g, u.node)
  {
    var accesses := grp.explicit + grp.mems;
    forall r, u | u in UsersOf(AddUsers(g, s.users, NewNode(s, grp), accesses), r) ensures HasNode(g, u.node) {
      AddUsersOrigin(g, s.users, NewNode(s, grp), accesses, r, u);
    }
  }

  lemma OldReachKept(s: State, grp: Group, regions: Regions, depth: int, a: NodeId, b: NodeId)
    requires Shape(s) && BuildOk(s, grp, regions, depth) && EarlierOnly(BuiltGraph(s, grp, regions, depth))
    requires Reaches(s.g, a, b)
    ensures Reaches(BuiltGraph(s, grp, regions, depth), a, b)
  {
    forall m | HasNode(s.g, m) ensures BuiltGraph(s, grp, regions, depth).reqs[m] == s.g.reqs[m] {
      OldListsKept(s, grp, regions, depth, m);
    }
    ReachesBelow(s.g, BuiltGraph(s, grp, regions, depth), |s.g.reqs|, a, b);
  }

  lemma BuildKeepsCovered(s: State, grp: Group, regions: Regions, depth: int)
    requires Shape(s) && Covered(s, regions) && BuildOk(s, grp, regions, depth)
    ensures Shape(Build(s, grp, regions, depth)) && Covered(Build(s, grp, regions, depth), regions)
  {
    var s', n, accesses := Build(s, grp, regions, depth), NewNode(s, grp), grp.explicit + grp.mems;
    BuildKeepsShape(s, grp, regions, depth);
    forall a | a in accesses ensures Synced(s'.g, Done(s), s.users, n, a, regions(a.region)) {
      BuiltGraphSynced(s, grp, regions, depth, a);
    }
    assert DoneClosed(s'.g, Done(s')) && Done(s') == Done(s);
    forall i, b, p | 0 <= i < |s'.commands| && b in s'.commands[i].accesses && s'.commands[i].node !in s'.order &&
                     TouchesPage(p, b.elements, regions(b.region))
      ensures CoveredAccess(s'.g, s'.users, s'.commands[i].node, b)
    {
      var m := s'.commands[i].node;
      if i < |s.commands| {
        assert s.commands[i] == s'.commands[i];
        var u :| u in UsersOf(s.users, b.region) && StandsIn(s.g, u, m, b);
        if u.node != m { OldReachKept(s, grp, regions, depth, u.node, m); }
        assert StandsIn(s'.g, u, m, b);
      }
      AddUsersCovered(s'.g, Done(s), s.users, n, accesses, regions, m, b, p);
    }
  }

  /** The new node reaches every unfinished earlier command it clashes with. */
  lemma NewNodeReaches(s: State, grp: Group, regions: Regions, depth: int, i: nat)
    requires Inv(s, regions) && BuildOk(s, grp, regions, depth) && EarlierOnly(BuiltGraph(s, grp, regions, depth))
    requires i < |s.commands| && s.commands[i].node !in s.order
    requires CommandsClash(s.commands[i], Command(NewNode(s, grp), grp.explicit + grp.mems), regions)
    ensures Reaches(BuiltGraph(s, grp, regions, depth), NewNode(s, grp), s.commands[i].node)
  {
    var g, n, m := BuiltGraph(s, grp, regions, depth), NewNode(s, grp), s.commands[i].node;
    var b, a :| b in s.commands[i].accesses && a in grp.explicit + grp.mems && Clash(b, a, regions);
    var p :| TouchesPage(p, b.elements, regions(b.region)) && TouchesPage(p, a.elements, regions(a.region));
    var u :| u in UsersOf(s.users, b.region) && StandsIn(s.g, u, m, b);
    CoverIsPageCover(u.elements, b.elements, regions(b.region), p);
    SharedPageOverlaps(a.elements, u.elements, regions(b.region), p);
    BuiltGraphSynced(s, grp, regions, depth, a);
    assert ConflictingAccess(regions(a.region), a, u);
    if u.node in Done(s) {
      if u.node != m { DoneReaches(s.g, Done(s), u.node, m); }
      assert false;
    }
    assert u.node != n;
    if u.node != m { OldReachKept(s, grp, regions, depth, u.node, m); }
    ReachesTransitive(g, n, u.node, m);
  }

  lemma BuildKeepsOrdered(s: State, grp: Group, regions: Regions, depth: int)
    requires Inv(s, regions) && BuildOk(s, grp, regions, depth) && EarlierOnly(BuiltGraph(s, grp, regions, depth))
    ensures Ordered(Build(s, grp, regions, depth), regions)
  {
    var s' := Build(s, grp, regions, depth);
    forall i, j | 0 <= i < j < |s'.commands| && CommandsClash(s'.commands[i], s'.commands[j], regions)
      && s'.commands[i].node !in s'.order
      ensures Reaches(s'.g, s'.commands[j].node, s'.commands[i].node)
    {
      assert s'.commands[i] == s.commands[i];
      if j < |s.commands| {
        assert s'.commands[j] == s.commands[j];
        OldReachKept(s, grp, regions, depth, s.commands[j].node, s.commands[i].node);
      } else {
        NewNodeReaches(s, grp, regions, depth, i);
      }
    }
  }

  lemma BuildKeepsTimeOrdered(s: State, grp: Group, regions: Regions, depth: int)
    requires Shape(s) && TimeOrdered(s, regions)
    ensures TimeOrdered(Build(s, grp, regions, depth), regions)
  {
    var s' := Build(s, grp, regions, depth);
    forall i, j, k | 0 <= i < j < |s'.commands| && CommandsClash(s'.commands[i], s'.commands[j], regions) &&
                     0 <= k < |s'.order| && s'.order[k] == s'.commands[j].node
      ensures s'.commands[i].node in s'.order[..k]
    {
      assert s.order[k] in s.order && s.order[k] != NewNode(s, grp);
      assert s'.commands[i] == s.commands[i] && s'.commands[j] == s.commands[j];
    }
  }

  // ---------------------------------------------------------------------------------------------
  // The other events

  /** A node that executes has every unfinished-before node it reaches behind it. */
  lemma ExecutedReachIsDone(s: State, n: NodeId, m: NodeId, regions: Regions)
    requires Shape(s) && Enabled(s, Execute(n), regions) && Reaches(s.g, n, m)
    ensures m in s.order
  {
    var r :| r in s.g.reqs[n] && r !in s.g.dead && (r == m || Reaches(s.g, r, m));
    if r != m { DoneReaches(s.g, Done(s), r, m); }
  }

  lemma ExecuteKeepsTimeOrdered(s: State, n: NodeId, regions: Regions)
    requires Inv(s, regions) && Enabled(s, Execute(n), regions)
    ensures TimeOrdered(Apply(s, Execute(n), regions), regions)
  {
    var s' := Apply(s, Execute(n), regions);
    forall i, j, k | 0 <= i < j < |s'.commands| && CommandsClash(s'.commands[i], s'.commands[j], regions) &&
                     0 <= k < |s'.order| && s'.order[k] == s'.commands[j].node
      ensures s'.commands[i].node in s'.order[..k]
    {
      if k < |s.order| {
        assert s'.order[..k] == s.order[..k];
      } else {
        assert s'.order[..k] == s.order;
        if s.commands[i].node !in s.order { ExecutedReachIsDone(s, n, s.commands[i].node, regions); }
      }
    }
  }

  lemma ExecuteKeepsInv(s: State, n: NodeId, regions: Regions)
    requires Inv(s, regions) && Enabled(s, Execute(n), regions)
    ensures Inv(Apply(s, Execute(n), regions), regions)
  {
    var s' := Apply(s, Execute(n), regions);
    assert Done(s') == Done(s) + {n};
    ExecuteKeepsTimeOrdered(s, n, regions);
  }

  /** The bookkeeping needs the paths to unfinished nodes only. */
  lemma PathsKeepCovered(s: State, s': State, regions: Regions)
    requires EarlierOnly(s.g) && EarlierOnly(s'.g) && Covered(s, regions)
    requires s'.commands == s.commands && s'.users == s.users && s'.order == s.order
    requires forall a, b :: Reaches(s.g, a, b) && b !in s.order ==> Reaches(s'.g, a, b)
    ensures Covered(s', regions)
  {
    forall i, b, p | 0 <= i < |s'.commands| && b in s'.commands[i].accesses && s'.commands[i].node !in s'.order &&
                     TouchesPage(p, b.elements, regions(b.region))
      ensures CoveredAccess(s'.g, s'.users, s'.commands[i].node, b)
    {
      var u :| u in UsersOf(s.users, b.region) && StandsIn(s.g, u, s.commands[i].node, b);
      assert StandsIn(s'.g, u, s.commands[i].node, b);
    }
  }

  lemma PathsKeepInv(s: State, s': State, regions: Regions)
    requires Inv(s, regions) && Shape(s')
    requires s'.commands == s.commands && s'.users == s.users && s'.order == s.order
    requires forall a, b :: Reaches(s.g, a, b) && b !in s.order ==> Reaches(s'.g, a, b)
    ensures Inv(s', regions)
  {
    PathsKeepCovered(s, s', regions);
  }

  /** Observing completion by polling or waiting. */
  lemma ObserveKeepsInv(s: State, e: Event, regions: Regions)
    requires Inv(s, regions) && Enabled(s, e, regions) && (e.Poll? || e.Wait?)
    ensures Inv(Apply(s, e, regions), regions)
  {
    var s' := Apply(s, e, regions);
    ObserveKeepsShape(s, e, regions);
    forall a, b | Reaches(s.g, a, b) ensures Reaches(s'.g, a, b) {
      MoreEdgesReachMore(s.g, s'.g, a, b);
    }
    PathsKeepInv(s, s', regions);
  }

  lemma ObserveKeepsShape(s: State, e: Event, regions: Regions)
    requires Shape(s) && Enabled(s, e, regions) && (e.Poll? || e.Wait?)
    ensures Shape(Apply(s, e, regions))
  {
    if e.Wait? { MarkCompleteSound(s.g, e.n, Done(s)); }
    assert Done(Apply(s, e, regions)) == Done(s);
  }

  lemma ExpireKeepsInv(s: State, n: NodeId, regions: Regions)
    requires Inv(s, regions) && Enabled(s, Expire(n), regions)
    ensures Inv(Apply(s, Expire(n), regions), regions)
  {
    var s' := Apply(s, Expire(n), regions);
    assert Done(s') == Done(s) && EarlierOnly(s'.g);
    forall a, b | Reaches(s.g, a, b) && b !in s.order ensures Reaches(s'.g, a, b) {
      ExpiryKeepsReach(s.g, Done(s), {n}, a, b);
    }
    PathsKeepInv(s, s', regions);
  }

  lemma ReleaseKeepsInv(s: State, r: nat, regions: Regions)
    requires Inv(s, regions)
    ensures Inv(Apply(s, ReleaseDeadUsers(r), regions), regions)
  {
    var s' := Apply(s, ReleaseDeadUsers(r), regions);
    assert Done(s') == Done(s);
    assert forall q, u :: u in UsersOf(s'.users, q) ==> u in UsersOf(s.users, q);
    forall i, b, p | 0 <= i < |s'.commands| && b in s'.commands[i].accesses && s'.commands[i].node !in s'.order &&
                     TouchesPage(p, b.elements, regions(b.region))
      ensures CoveredAccess(s'.g, s'.users, s'.commands[i].node, b)
    {
      var m := s.commands[i].node;
      var u :| u in UsersOf(s.users, b.region) && StandsIn(s.g, u, m, b);
      if u.node in Done(s) && u.node != m { DoneReaches(s.g, Done(s), u.node, m); }
      assert u in UsersOf(s'.users, b.region);
    }
  }

  lemma BuildKeepsInv(s: State, grp: Group, regions: Regions, depth: int)
    requires Inv(s, regions) && BuildOk(s, grp, regions, depth)
    ensures Inv(Build(s, grp, regions, depth), regions)
  {
    BuildKeepsCovered(s, grp, regions, depth);
    BuildKeepsOrdered(s, grp, regions, depth);
    BuildKeepsTimeOrdered(s, grp, regions, depth);
  }

  /** Every event keeps the invariant. */
  lemma StepKeepsInv(s: State, e: Event, regions: Regions)
    requires Inv(s, regions) && Enabled(s, e, regions)
    ensures Inv(Apply(s, e, regions), regions)
  {
    match e
    case Submit(grp, depth) => BuildKeepsInv(s, grp, regions, depth);
    case Execute(n) => ExecuteKeepsInv(s, n, regions);
    case Poll(n) => ObserveKeepsInv(s, e, regions);
    case Wait(n) => ObserveKeepsInv(s, e, regions);
    case Expire(n) => ExpireKeepsInv(s, n, regions);
    case ReleaseDeadUsers(r) => ReleaseKeepsInv(s, r, regions);
  }

  /** In every state of every run edges lead to earlier-built nodes, clashing commands are ordered, and
      they complete in submission order. */
  lemma {:induction false} RunKeepsInv(s: State, events: seq<Event>, regions: Regions, s': State)
    requires Inv(s, regions) && IsRun(s, events, regions, s')
    ensures Inv(s', regions)
    decreases |events|
  {
    if events != [] {
      StepKeepsInv(s, events[0], regions);
      RunKeepsInv(Apply(s, events[0], regions), events[1..], regions, s');
    }
  }

  // ---------------------------------------------------------------------------------------------
  // Putting runs together

  lemma HeadFirst<T>(a: seq<T>, b: seq<T>)
    requires a != []
    ensures a + b == [a[0]] + (a[1..] + b)
  {
  }

  lemma RunHead(s: State, a: seq<Event>, regions: Regions, m: State) returns (s1: State)
    requires a != [] && IsRun(s, a, regions, m)
    ensures Enabled(s, a[0], regions) && s1 == Apply(s, a[0], regions) && IsRun(s1, a[1..], regions, m)
  {
    s1 := Apply(s, a[0], regions);
  }

  lemma RunCons(s: State, e: Event, rest: seq<Event>, regions: Regions, s': State)
    requires Enabled(s, e, regions) && IsRun(Apply(s, e, regions), rest, regions, s')
    ensures IsRun(s, [e] + rest, regions, s')
  {
    assert ([e] + rest)[1..] == rest;
  }

  lemma {:induction false} RunConcat(s: State, a: seq<Event>, b: seq<Event>, regions: Regions, m: State, s': State)
    requires IsRun(s, a, regions, m) && IsRun(m, b, regions, s')
    ensures IsRun(s, a + b, regions, s')
    decreases |a|
  {
    if a == [] {
      assert a + b == b;
    } else {
      var s1 := RunHead(s, a, regions, m);
      RunConcat(s1, a[1..], b, regions, m, s');
      RunCons(s, a[0], a[1..] + b, regions, s');
      HeadFirst(a, b);
    }
  }

  lemma RunAppend(s: State, events: seq<Event>, e: Event, regions: Regions, m: State)
    requires IsRun(s, events, regions, m) && Enabled(m, e, regions)
    ensures IsRun(s, events + [e], regions, Apply(m, e, regions))
  {
    var s' := Apply(m, e, regions);
    assert IsRun(s', [], regions, s');
    RunCons(m, e, [], regions, s');
    assert [e] + [] == [e];
    RunConcat(s, events, [e], regions, m, s');
  }
}
