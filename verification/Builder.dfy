/** Construction of the dependency graph from command groups, the per-region lists of data
    users, and the invariant that no shortcut loses an ordering (src/runtime/dag_builder.cpp,
    src/runtime/data.cpp, include/hipSYCL/runtime/data.hpp). */
module Builder {
  import opened Geometry
  import opened Dag

  datatype Mode = Read | Write | ReadWrite | DiscardWrite | DiscardReadWrite | Atomic

  /** A buffer memory requirement: region, access mode and element range. */
  datatype Access = Access(region: nat, mode: Mode, elements: Rect)

  /** A tracked data user of one region. */
  datatype User = User(node: NodeId, mode: Mode, elements: Rect)

  /** Page size of every region. */
  type Regions = nat -> PageSize

  /** A command group: `explicit` is set when the operation itself is a memory requirement,
      `mems` are its fresh memory requirements and `deps` nodes it depends on explicitly. */
  datatype Group = Group(explicit: seq<Access>, mems: seq<Access>, deps: seq<NodeId>)

  /** History record of a built operation node. */
  datatype Command = Command(node: NodeId, accesses: seq<Access>)

  /** `access` maps every node whose operation is a memory requirement to that requirement;
      `order` is the sequence in which nodes completed and `commands` the submission history. */
  datatype State = State(g: Graph, access: map<NodeId, Access>, users: map<nat, seq<User>>,
                         commands: seq<Command>, order: seq<NodeId>)

  const Init: State := State(Graph([], {}, {}), map[], map[], [], [])

  predicate Writes(m: Mode) {
    m != Read
  }

  ghost function Done(s: State): set<NodeId> {
    set n | n in s.order
  }

  function UsersOf(users: map<nat, seq<User>>, region: nat): seq<User> {
    if region in users then users[region] else []
  }

  // ---------------------------------------------------------------------------------------------
  // Operations

  /** is_conflicting_access. */
  predicate ConflictingAccess(ps: PageSize, a: Access, u: User) {
    !(a.mode == Read && u.mode == Read) &&
    RectsOverlap(PageRange(a.elements.first, a.elements.extent, ps),
                 PageRange(u.elements.first, u.elements.extent, ps))
  }

  /** The users that add_conflicts_as_requirements turns into requirements. */
  predicate NeedsEdge(g: Graph, ps: PageSize, a: Access, u: User) {
    u.node !in g.dead && ConflictingAccess(ps, a, u) && u.node !in g.known
  }

  /** add_conflicts_as_requirements for node `n` and its access, newest users first. */
  function AddConflicts(g: Graph, n: NodeId, ps: PageSize, a: Access, users: seq<User>, depth: int): (g': Graph)
    requires HasNode(g, n)
    ensures g'.known == g.known && g'.dead == g.dead && |g'.reqs| == |g.reqs|
    ensures forall m :: HasNode(g, m) && m != n ==> g'.reqs[m] == g.reqs[m]
    decreases |users|
  {
    if users == [] then g
    else
      var u := users[|users| - 1];
      var g1 := if NeedsEdge(g, ps, a, u) then AddReq(g, n, u.node, depth) else g;
      AddConflicts(g1, n, ps, a, users[..|users| - 1], depth)
  }

  /** The walk over the requirement list of the new node. */
  function Walk(
    g: Graph, list: seq<NodeId>, access: map<NodeId, Access>, users: map<nat, seq<User>>, regions: Regions,
    depth: int): (g': Graph)
    ensures g'.known == g.known && g'.dead == g.dead && |g'.reqs| == |g.reqs|
    ensures forall m :: HasNode(g, m) && (m !in list || m !in access) ==> g'.reqs[m] == g.reqs[m]
    decreases |list|
  {
    if list == [] then g
    else
      var m := list[0];
      var g1 := if m !in g.dead && m in access && HasNode(g, m)
                then AddConflicts(g, m, regions(access[m].region), access[m], UsersOf(users, access[m].region), depth)
                else g;
      Walk(g1, list[1..], access, users, regions, depth)
  }

  /** replaces_user: whether tracking the new user makes tracking `u` unnecessary. */
  predicate ReplacesUser(g: Graph, n: NodeId, a: Access, u: User) {
    Covers(a.elements, u.elements) &&
    (Writes(a.mode) || (!Writes(u.mode) && (u.node in g.dead || FindDependency(g, n, u.node, 2))))
  }

  function KeptUsers(g: Graph, n: NodeId, a: Access, users: seq<User>): (kept: seq<User>)
    ensures forall u :: u in kept <==> u in users && !ReplacesUser(g, n, a, u)
  {
    if users == [] then []
    else
      var rest := KeptUsers(g, n, a, users[..|users| - 1]);
      var u := users[|users| - 1];
      assert users == users[..|users| - 1] + [u];
      if ReplacesUser(g, n, a, u) then rest else rest + [u]
  }

  /** The users that stay keep their order. */
  lemma {:induction false} KeptUsersInOrder(g: Graph, n: NodeId, a: Access, users: seq<User>)
    ensures Subsequence(KeptUsers(g, n, a, users), users)
    decreases |users|
  {
    if users != [] {
      var rest := KeptUsers(g, n, a, users[..|users| - 1]);
      KeptUsersInOrder(g, n, a, users[..|users| - 1]);
      assert (rest + [users[|users| - 1]])[..|rest|] == rest;
    }
  }

  /** add_to_data_users for one access. */
  function AddUser(g: Graph, users: map<nat, seq<User>>, n: NodeId, a: Access): map<nat, seq<User>> {
    users[a.region := KeptUsers(g, n, a, UsersOf(users, a.region)) + [User(n, a.mode, a.elements)]]
  }

  function AddUsers(g: Graph, users: map<nat, seq<User>>, n: NodeId, accesses: seq<Access>): map<nat, seq<User>>
    decreases |accesses|
  {
    if accesses == [] then users
    else AddUser(g, AddUsers(g, users, n, accesses[..|accesses| - 1]), n, accesses[|accesses| - 1])
  }

  /** Node id of the operation node built for `grp`. */
  function NewNode(s: State, grp: Group): NodeId {
    |s.g.reqs| + |grp.mems|
  }

  /** The memory requirement nodes created together with the operation node. */
  predicate FreshNode(s: State, grp: Group, m: int) {
    |s.g.reqs| <= m < NewNode(s, grp)
  }

  function InitialRequirements(s: State, grp: Group): (list: seq<NodeId>)
    ensures |list| == |grp.mems| + |grp.deps|
    ensures forall i :: 0 <= i < |grp.mems| ==> list[i] == |s.g.reqs| + i
    ensures forall i :: 0 <= i < |grp.deps| ==> list[|grp.mems| + i] == grp.deps[i]
  {
    seq(|grp.mems|, i => |s.g.reqs| + i) + grp.deps
  }

  /** The fresh requirement nodes and the operation node, before any conflict is considered. */
  function Created(s: State, grp: Group): (g: Graph)
    ensures g.known == s.g.known && g.dead == s.g.dead && |g.reqs| == NewNode(s, grp) + 1
    ensures forall n :: HasNode(s.g, n) ==> g.reqs[n] == s.g.reqs[n]
    ensures forall n :: FreshNode(s, grp, n) ==> g.reqs[n] == []
    ensures g.reqs[NewNode(s, grp)] == InitialRequirements(s, grp)
  {
    s.g.(reqs := s.g.reqs + seq(|grp.mems|, i => []) + [InitialRequirements(s, grp)])
  }

  /** An explicit requirement first collects the conflicts of its own access. */
  function WithOwnConflicts(s: State, grp: Group, regions: Regions, depth: int): (g: Graph)
    ensures g.known == s.g.known && g.dead == s.g.dead && |g.reqs| == NewNode(s, grp) + 1
    ensures forall n :: 0 <= n < NewNode(s, grp) ==> g.reqs[n] == Created(s, grp).reqs[n]
  {
    if grp.explicit == [] then Created(s, grp)
    else AddConflicts(Created(s, grp), NewNode(s, grp), regions(grp.explicit[0].region), grp.explicit[0],
                      UsersOf(s.users, grp.explicit[0].region), depth)
  }

  function RegisterMems(access: map<NodeId, Access>, first: NodeId, mems: seq<Access>): (r: map<NodeId, Access>)
    ensures forall m :: m in r <==> m in access || first <= m < first + |mems|
    ensures forall m :: first <= m < first + |mems| ==> r[m] == mems[m - first]
    decreases |mems|
  {
    if mems == [] then access
    else RegisterMems(access, first, mems[..|mems| - 1])[first + |mems| - 1 := mems[|mems| - 1]]
  }

  function NewAccesses(s: State, grp: Group): map<NodeId, Access> {
    var registered := RegisterMems(s.access, |s.g.reqs|, grp.mems);
    if grp.explicit == [] then registered else registered[NewNode(s, grp) := grp.explicit[0]]
  }

  /** The requirement list walked for conflicts. */
  function WalkedList(s: State, grp: Group, regions: Regions, depth: int): seq<NodeId> {
    WithOwnConflicts(s, grp, regions, depth).reqs[NewNode(s, grp)]
  }

  function BuiltGraph(s: State, grp: Group, regions: Regions, depth: int): Graph {
    Walk(WithOwnConflicts(s, grp, regions, depth), WalkedList(s, grp, regions, depth),
         NewAccesses(s, grp), s.users, regions, depth)
  }

  /** build_node. */
  function Build(s: State, grp: Group, regions: Regions, depth: int): State {
    var g := BuiltGraph(s, grp, regions, depth);
    var n := NewNode(s, grp);
    var accesses := grp.explicit + grp.mems;
    State(g, NewAccesses(s, grp), AddUsers(g, s.users, n, accesses), s.commands + [Command(n, accesses)], s.order)
  }

  /** Visiting the memory requirement node `m` of an earlier group adds no edge: every user that needs one
      is provided already. */
  predicate AddsNothing(s: State, regions: Regions, depth: int, m: NodeId)
    requires m in s.access && HasNode(s.g, m)
  {
    var a := s.access[m];
    forall u :: u in UsersOf(s.users, a.region) && NeedsEdge(s.g, regions(a.region), a, u) ==>
      AlreadyProvided(s.g, s.g.reqs[m], u.node, depth)
  }

  /** What build_node relies on: dependencies are live nodes built earlier, and the walk gives no new edge to
      a memory requirement node of an earlier command group. */
  predicate BuildOk(s: State, grp: Group, regions: Regions, depth: int) {
    && |grp.explicit| <= 1
    && (forall d :: d in grp.deps ==> HasNode(s.g, d) && d !in s.g.dead)
    && (forall m :: m in WalkedList(s, grp, regions, depth) && m in s.access && HasNode(s.g, m) && m !in s.g.dead ==>
          AddsNothing(s, regions, depth, m))
  }

  // ---------------------------------------------------------------------------------------------
  // Runs

  datatype Event =
    | Submit(grp: Group, depth: int)
    | Execute(n: NodeId)
    | Poll(n: NodeId)
    | Wait(n: NodeId)
    | Expire(n: NodeId)
    | ReleaseDeadUsers(region: nat)

  /** release_dead_users. */
  function LiveUsers(g: Graph, users: seq<User>): (kept: seq<User>)
    ensures forall u :: u in kept <==> u in users && u.node !in g.dead && u.node !in g.known
  {
    if users == [] then []
    else
      var rest := LiveUsers(g, users[..|users| - 1]);
      var u := users[|users| - 1];
      assert users == users[..|users| - 1] + [u];
      if u.node in g.dead || u.node in g.known then rest else rest + [u]
  }

  lemma {:induction false} LiveUsersInOrder(g: Graph, users: seq<User>)
    ensures Subsequence(LiveUsers(g, users), users)
    decreases |users|
  {
    if users != [] {
      var rest := LiveUsers(g, users[..|users| - 1]);
      LiveUsersInOrder(g, users[..|users| - 1]);
      assert (rest + [users[|users| - 1]])[..|rest|] == rest;
    }
  }

  /** Any executor that respects the graph may complete a node once its requirements are complete;
      completion is observed by polling or waiting, and only completed nodes expire. */
  ghost predicate Enabled(s: State, e: Event, regions: Regions) {
    match e
    case Submit(grp, depth) => BuildOk(s, grp, regions, depth)
    case Execute(n) => HasNode(s.g, n) && n !in s.order && forall r :: r in s.g.reqs[n] ==> r in s.order
    case Poll(n) => n in s.order
    case Wait(n) => n in s.order && EarlierOnly(s.g)
    case Expire(n) => n in s.order
    case ReleaseDeadUsers(_) => true
  }

  ghost function Apply(s: State, e: Event, regions: Regions): State
    requires Enabled(s, e, regions)
  {
    match e
    case Submit(grp, depth) => Build(s, grp, regions, depth)
    case Execute(n) => s.(order := s.order + [n])
    case Poll(n) => s.(g := s.g.(known := s.g.known + {n}))
    case Wait(n) => s.(g := MarkComplete(s.g, n))
    case Expire(n) => s.(g := s.g.(dead := s.g.dead + {n}))
    case ReleaseDeadUsers(r) => s.(users := s.users[r := LiveUsers(s.g, UsersOf(s.users, r))])
  }

  ghost predicate IsRun(s: State, events: seq<Event>, regions: Regions, s': State)
    decreases |events|
  {
    if events == [] then s' == s
    else Enabled(s, events[0], regions) && IsRun(Apply(s, events[0], regions), events[1..], regions, s')
  }

  // ---------------------------------------------------------------------------------------------
  // Invariant

  /** Two accesses that really conflict: they share a page and one of them writes. */
  ghost predicate Clash(a: Access, b: Access, regions: Regions) {
    a.region == b.region && (Writes(a.mode) || Writes(b.mode)) &&
    exists p :: TouchesPage(p, a.elements, regions(a.region)) && TouchesPage(p, b.elements, regions(b.region))
  }

  ghost predicate CommandsClash(c: Command, d: Command, regions: Regions) {
    exists a, b :: a in c.accesses && b in d.accesses && Clash(a, b, regions)
  }

  /** Well-formedness of the graph and of the bookkeeping around it. */
  ghost predicate Shape(s: State) {
    && EarlierOnly(s.g)
    && s.g.known <= Done(s) && s.g.dead <= Done(s)
    && (forall n :: n in s.order ==> HasNode(s.g, n))
    && (forall i, j :: 0 <= i < j < |s.order| ==> s.order[i] != s.order[j])
    && DoneClosed(s.g, Done(s))
    && (forall n :: n in s.access ==> HasNode(s.g, n))
    && (forall i :: 0 <= i < |s.commands| ==> HasNode(s.g, s.commands[i].node))
    && (forall i, j :: 0 <= i < j < |s.commands| ==> s.commands[i].node < s.commands[j].node)
    && (forall r, u :: u in UsersOf(s.users, r) ==> HasNode(s.g, u.node))
  }

  /** A tracked user stands in for an access of node `n`. */
  ghost predicate StandsIn(g: Graph, u: User, n: NodeId, a: Access)
    requires EarlierOnly(g)
  {
    Covers(u.elements, a.elements) && (Writes(a.mode) ==> Writes(u.mode)) && ReachesOrIs(g, u.node, n)
  }

  ghost predicate CoveredAccess(g: Graph, users: map<nat, seq<User>>, n: NodeId, a: Access)
    requires EarlierOnly(g)
  {
    exists u :: u in UsersOf(users, a.region) && StandsIn(g, u, n, a)
  }

  /** Every access of unfinished work is tracked, directly or through a user that covers it. */
  ghost predicate Covered(s: State, regions: Regions)
    requires EarlierOnly(s.g)
  {
    forall i, a, p |
      && 0 <= i < |s.commands| && a in s.commands[i].accesses && s.commands[i].node !in s.order
      && TouchesPage(p, a.elements, regions(a.region))
      :: CoveredAccess(s.g, s.users, s.commands[i].node, a)
  }

  /** No ordering is lost: of two clashing commands the later reaches the earlier in the graph,
      unless the earlier one is complete. */
  ghost predicate Ordered(s: State, regions: Regions)
    requires EarlierOnly(s.g)
  {
    forall i, j :: 0 <= i < j < |s.commands| && CommandsClash(s.commands[i], s.commands[j], regions) ==>
      s.commands[i].node in s.order || Reaches(s.g, s.commands[j].node, s.commands[i].node)
  }

  /** Clashing commands complete in submission order. */
  ghost predicate TimeOrdered(s: State, regions: Regions) {
    forall i, j, k |
      && 0 <= i < j < |s.commands| && CommandsClash(s.commands[i], s.commands[j], regions)
      && 0 <= k < |s.order| && s.order[k] == s.commands[j].node
      :: s.commands[i].node in s.order[..k]
  }

  ghost predicate Inv(s: State, regions: Regions) {
    Shape(s) && Covered(s, regions) && Ordered(s, regions) && TimeOrdered(s, regions)
  }
}
