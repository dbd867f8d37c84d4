/** What a new command waits for and which users stay tracked, in terms of pages, elements, access modes and
    requirement steps alone (src/runtime/dag_builder.cpp, include/hipSYCL/runtime/operations.hpp). */
module PageConflicts {
  import opened Geometry
  import opened Dag
  import opened Builder
  import BuilderProofs
  import opened TransferOrder
  import opened DagPaths
  import UnorderedReads

  predicate NonEmpty(r: Rect) {
    r.extent.x > 0 && r.extent.y > 0 && r.extent.z > 0
  }

  // ---------------------------------------------------------------------------------------------
  // Conflicts by pages

  /** A live tracked user of the region that is not known to be complete shares a page with the access, not both
      of them read, and the user is or reaches `x`. */
  ghost predicate PagePath(s: State, regions: Regions, a: Access, x: NodeId)
    requires EarlierOnly(s.g)
  {
    exists u :: PagePathBy(s, regions, a, u, x)
  }

  ghost predicate PagePathBy(s: State, regions: Regions, a: Access, u: User, x: NodeId)
    requires EarlierOnly(s.g)
  {
    && u in UsersOf(s.users, a.region) && u.node !in s.g.dead && u.node !in s.g.known
    && (a.mode != Read || u.mode != Read)
    && (exists p :: TouchesPage(p, a.elements, regions(a.region)) && TouchesPage(p, u.elements, regions(a.region)))
    && (u.node == x || Reaches(s.g, u.node, x))
  }

  /** The page range of a non-empty element range is not empty. */
  lemma PagesNonEmpty(r: Rect, ps: PageSize)
    requires NonEmpty(r)
    ensures NonEmpty(PageRange(r.first, r.extent, ps))
  {
    ElementOnPage(r.first, r, ps);
  }

  /** The conflict test on non-empty ranges: a shared page, and not both read. */
  lemma ConflictIffSharedPage(ps: PageSize, a: Access, u: User)
    requires NonEmpty(a.elements) && NonEmpty(u.elements)
    ensures ConflictingAccess(ps, a, u) <==>
            && (a.mode != Read || u.mode != Read)
            && exists p :: TouchesPage(p, a.elements, ps) && TouchesPage(p, u.elements, ps)
  {
    var ar := PageRange(a.elements.first, a.elements.extent, ps);
    var ur := PageRange(u.elements.first, u.elements.extent, ps);
    PagesNonEmpty(a.elements, ps);
    PagesNonEmpty(u.elements, ps);
    if RectsOverlap(ar, ur) {
      var p := OverlapSharesPage(ar, ur);
      assert TouchesPage(p, a.elements, ps) && TouchesPage(p, u.elements, ps);
    }
    if p :| TouchesPage(p, a.elements, ps) && TouchesPage(p, u.elements, ps) {
      SharedPageOverlaps(a.elements, u.elements, ps, p);
    }
  }

  lemma ConflictPathIsPagePath(s: State, regions: Regions, a: Access, x: NodeId)
    requires EarlierOnly(s.g) && NonEmpty(a.elements) && UsersNonEmpty(s, a.region)
    ensures UnorderedReads.ConflictPath(s, regions, a, x) <==> PagePath(s, regions, a, x)
  {
    forall u | u in UsersOf(s.users, a.region)
      ensures NeedsEdge(s.g, regions(a.region), a, u) && ReachesOrIs(s.g, u.node, x) <==>
              PagePathBy(s, regions, a, u, x)
    {
      ConflictIffSharedPage(regions(a.region), a, u);
    }
  }

  ghost predicate UsersNonEmpty(s: State, region: nat) {
    forall u :: u in UsersOf(s.users, region) ==> NonEmpty(u.elements)
  }

  // ---------------------------------------------------------------------------------------------
  // Tracked users are accesses of commands

  ghost predicate IsAccessOf(s: State, region: nat, u: User) {
    exists j :: 0 <= j < |s.commands| && s.commands[j].node == u.node
                && Access(region, u.mode, u.elements) in s.commands[j].accesses
  }

  ghost predicate UsersAreAccesses(s: State) {
    forall region, u :: u in UsersOf(s.users, region) ==> IsAccessOf(s, region, u)
  }

  lemma {:induction false} NewUserOrigin(
    g: Graph, users: map<nat, seq<User>>, n: NodeId, accesses: seq<Access>, region: nat, u: User)
    requires u in UsersOf(AddUsers(g, users, n, accesses), region)
    ensures u in UsersOf(users, region) || (u.node == n && Access(region, u.mode, u.elements) in accesses)
    decreases |accesses|
  {
    if accesses != [] {
      var init, a := accesses[..|accesses| - 1], accesses[|accesses| - 1];
      assert accesses == init + [a];
      if u in UsersOf(AddUsers(g, users, n, init), region) {
        NewUserOrigin(g, users, n, init, region, u);
      } else {
        assert region == a.region && u == User(n, a.mode, a.elements) && a == Access(region, u.mode, u.elements);
      }
    }
  }

  lemma StepKeepsUsers(s: State, e: Event, regions: Regions)
    requires UsersAreAccesses(s) && Enabled(s, e, regions)
    ensures UsersAreAccesses(Apply(s, e, regions))
  {
    var s' := Apply(s, e, regions);
    forall region, u | u in UsersOf(s'.users, region) ensures IsAccessOf(s', region, u) {
      if e.Submit? {
        NewUserOrigin(s'.g, s.users, NewNode(s, e.grp), e.grp.explicit + e.grp.mems, region, u);
        if u !in UsersOf(s.users, region) {
          assert s'.commands[|s.commands|].node == u.node;
        }
      }
      if u in UsersOf(s.users, region) { AccessOfKept(s, e, regions, region, u); }
    }
  }

  lemma AccessOfKept(s: State, e: Event, regions: Regions, region: nat, u: User)
    requires Enabled(s, e, regions) && IsAccessOf(s, region, u)
    ensures IsAccessOf(Apply(s, e, regions), region, u)
  {
    var j :| 0 <= j < |s.commands| && s.commands[j].node == u.node
      && Access(region, u.mode, u.elements) in s.commands[j].accesses;
    assert Apply(s, e, regions).commands[j] == s.commands[j];
  }

  lemma {:induction false} RunKeepsUsers(s: State, events: seq<Event>, regions: Regions, s': State)
    requires UsersAreAccesses(s) && IsRun(s, events, regions, s')
    ensures UsersAreAccesses(s')
    decreases |events|
  {
    if events != [] {
      StepKeepsUsers(s, events[0], regions);
      RunKeepsUsers(Apply(s, events[0], regions), events[1..], regions, s');
    }
  }

  /** All accesses so far are non-empty. */
  ghost predicate AccessesNonEmpty(s: State) {
    forall j, a :: 0 <= j < |s.commands| && a in s.commands[j].accesses ==> NonEmpty(a.elements)
  }

  lemma RunUsersNonEmpty(events: seq<Event>, regions: Regions, s: State, region: nat)
    requires IsRun(Init, events, regions, s) && AccessesNonEmpty(s)
    ensures UsersNonEmpty(s, region)
  {
    RunKeepsUsers(Init, events, regions, s);
    forall u | u in UsersOf(s.users, region) ensures NonEmpty(u.elements) {
      assert IsAccessOf(s, region, u);
    }
  }

  lemma RunInv(events: seq<Event>, regions: Regions, s: State)
    requires IsRun(Init, events, regions, s)
    ensures Inv(s, regions)
  {
    InitPlaced(regions);
    BuilderProofs.RunKeepsInv(Init, events, regions, s);
  }

  // ---------------------------------------------------------------------------------------------
  // What a new command waits for

  /** In every state of every run with non-empty accesses: the requirement node of a new access reaches an older
      node exactly when a live tracked user, not known to be complete, shares a page with the access, not
      both read, and is or reaches that node. */
  lemma RequirementWaitsByPages(
    events: seq<Event>, regions: Regions, s: State, grp: Group, depth: int, m: NodeId, x: NodeId)
    requires IsRun(Init, events, regions, s) && AccessesNonEmpty(s) && BuildOk(s, grp, regions, depth)
    requires FreshNode(s, grp, m) && NonEmpty(grp.mems[m - |s.g.reqs|].elements) && HasNode(s.g, x)
    ensures EarlierOnly(s.g) && EarlierOnly(BuiltGraph(s, grp, regions, depth))
    ensures Reaches(BuiltGraph(s, grp, regions, depth), m, x) <==> PagePath(s, regions, grp.mems[m - |s.g.reqs|], x)
  {
    var a := grp.mems[m - |s.g.reqs|];
    RunInv(events, regions, s);
    RunUsersNonEmpty(events, regions, s, a.region);
    UnorderedReads.FreshReachesIff(s, grp, regions, depth, m, x);
    ConflictPathIsPagePath(s, regions, a, x);
  }

  /** The command itself reaches an older node exactly when one of its accesses does so in this sense, or a
      dependency is or reaches the node. */
  lemma CommandWaitsByPages(events: seq<Event>, regions: Regions, s: State, grp: Group, depth: int, x: NodeId)
    requires IsRun(Init, events, regions, s) && AccessesNonEmpty(s) && BuildOk(s, grp, regions, depth)
    requires (forall a :: a in grp.explicit + grp.mems ==> NonEmpty(a.elements)) && HasNode(s.g, x)
    ensures EarlierOnly(s.g) && EarlierOnly(BuiltGraph(s, grp, regions, depth))
    ensures Reaches(BuiltGraph(s, grp, regions, depth), NewNode(s, grp), x) <==>
            || (exists a :: a in grp.explicit + grp.mems && PagePath(s, regions, a, x))
            || (exists d :: d in grp.deps && (d == x || Reaches(s.g, d, x)))
  {
    RunInv(events, regions, s);
    UnorderedReads.CommandReachesIff(s, grp, regions, depth, x);
    forall a | a in grp.explicit + grp.mems
      ensures UnorderedReads.ConflictPath(s, regions, a, x) <==> PagePath(s, regions, a, x)
    {
      RunUsersNonEmpty(events, regions, s, a.region);
      ConflictPathIsPagePath(s, regions, a, x);
    }
  }

  /** Commands that share a page of a region, not both reading it, complete in submission order in every run. */
  lemma SharedPagesInOrder(
    events: seq<Event>, regions: Regions, s: State, i: nat, j: nat, a: Access, b: Access, p: Vec3)
    requires IsRun(Init, events, regions, s) && i < j < |s.commands|
    requires a in s.commands[i].accesses && b in s.commands[j].accesses && a.region == b.region
    requires TouchesPage(p, a.elements, regions(a.region)) && TouchesPage(p, b.elements, regions(a.region))
    requires a.mode != Read || b.mode != Read
    ensures Before(s.order, s.commands[i].node, s.commands[j].node)
  {
    RunInv(events, regions, s);
    assert Clash(a, b, regions);
    assert CommandsClash(s.commands[i], s.commands[j], regions);
  }

  // ---------------------------------------------------------------------------------------------
  // Which users stay tracked

  /** Enclosing a non-empty range means containing its elements. */
  lemma CoversIsSubset(outer: Rect, inner: Rect)
    requires NonEmpty(inner)
    ensures Covers(outer, inner) <==> forall e :: InRect(e, inner) ==> InRect(e, outer)
  {
    var last := Vec3(inner.first.x + inner.extent.x - 1, inner.first.y + inner.extent.y - 1,
      inner.first.z + inner.extent.z - 1);
    assert InRect(inner.first, inner) && InRect(last, inner);
  }

  /** add_to_data_users, user by user: the new user is tracked last, and an older one stays tracked exactly unless
      the new access contains all its elements and either writes, or both read and the older user has
      expired or is at most two requirement steps below the new node. */
  lemma TrackedAfterwards(g: Graph, users: map<nat, seq<User>>, n: NodeId, a: Access, u: User)
    requires u in UsersOf(users, a.region) && NonEmpty(u.elements) && u.node != n
    ensures var list := UsersOf(AddUser(g, users, n, a), a.region);
            && list != [] && list[|list| - 1] == User(n, a.mode, a.elements)
            && (u !in list <==>
                && (forall e :: InRect(e, u.elements) ==> InRect(e, a.elements))
                && (a.mode != Read ||
                    (u.mode == Read && (|| u.node in g.dead || LiveStep(g, n, u.node)
                                        || exists r :: LiveStep(g, n, r) && LiveStep(g, r, u.node)))))
  {
    CoversIsSubset(a.elements, u.elements);
    TwoLevels(g, n, u.node);
    var kept := KeptUsers(g, n, a, UsersOf(users, a.region));
    assert u in UsersOf(AddUser(g, users, n, a), a.region) <==> u in kept;
  }

  /** The conflict loop takes the newest user first: two unrelated users are listed the younger before the older. */
  lemma NewestConflictFirst(g: Graph, n: NodeId, ps: PageSize, a: Access, older: User, newer: User, depth: int)
    requires HasNode(g, n) && g.reqs[n] == [] && NeedsEdge(g, ps, a, older) && NeedsEdge(g, ps, a, newer)
    requires HasNode(g, older.node) && HasNode(g, newer.node) && g.reqs[older.node] == [] && g.reqs[newer.node] == []
    requires older.node != newer.node && older.node != n && newer.node != n
    ensures AddConflicts(g, n, ps, a, [older, newer], depth).reqs[n] == [newer.node, older.node]
  {
    var g1 := AddReq(g, n, newer.node, depth);
    assert g1.reqs[n] == [] + [newer.node] == [newer.node];
    assert [older, newer][..1] == [older] && [older][..0] == [];
    assert !Find(g1, newer.node, depth, older.node) && !Find(g1, older.node, depth, newer.node);
    assert [newer.node][..0] == [] && Prune(g1, [newer.node], older.node, depth) == [] + [newer.node];
    var g2 := AddReq(g1, n, older.node, depth);
    assert g2.reqs[n] == [newer.node] + [older.node];
    assert AddConflicts(g2, n, ps, a, [older][..0], depth) == g2;
    assert AddConflicts(g1, n, ps, a, [older], depth) == g2;
  }
}
