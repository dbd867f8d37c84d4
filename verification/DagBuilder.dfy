/** The builder object: requirement lists and user lists updated in place, proved to perform
    exactly the events of module Builder (src/runtime/dag_builder.cpp, src/runtime/dag_node.cpp,
    src/runtime/data.cpp). */
module DagBuilder {
  import opened Geometry
  import opened Dag
  import opened Builder
  import BuilderProofs

  class RequirementDag {
    var reqs: seq<seq<NodeId>>
    var known: set<NodeId>
    var dead: set<NodeId>
    var access: map<NodeId, Access>
    var users: map<nat, seq<User>>
    ghost var commands: seq<Command>
    ghost var order: seq<NodeId>
    const regions: Regions
    const depth: int

    function Nodes(): Graph
      reads this
    {
      Graph(reqs, known, dead)
    }

    ghost function Value(): State
      reads this
    {
      State(Nodes(), access, users, commands, order)
    }

    constructor (regions: Regions, depth: int)
      ensures Value() == Init && this.regions == regions && this.depth == depth
    {
      reqs, known, dead, access, users := [], {}, {}, map[], map[];
      commands, order := [], [];
      this.regions, this.depth := regions, depth;
    }

    /** dag_node::add_requirement. */
    method AddRequirement(n: NodeId, r: NodeId)
      requires HasNode(Nodes(), n)
      modifies this`reqs
      ensures Nodes() == AddReq(old(Nodes()), n, r, depth)
    {
      var g, list := Nodes(), reqs[n];
      for i := 0 to |list|
        invariant Nodes() == g
        invariant forall j :: 0 <= j < i ==> list[j] in dead || list[j] != r
      {
        if list[i] !in dead && list[i] == r { return; }
      }
      for i := 0 to |list|
        invariant Nodes() == g
        invariant forall j :: 0 <= j < i ==> list[j] in dead || (list[j] != r && !Find(g, list[j], depth, r))
      {
        if list[i] !in dead && Find(g, list[i], depth, r) { return; }
      }
      var kept := [];
      for i := 0 to |list|
        invariant kept == Prune(g, list[..i], r, depth)
      {
        assert list[..i + 1][..i] == list[..i];
        if list[i] !in dead && !Find(g, r, depth, list[i]) {
          kept := kept + [list[i]];
        }
      }
      assert list[..|list|] == list;
      reqs := reqs[n := kept + [r]];
    }

    /** add_conflicts_as_requirements: the users of the region, newest first. */
    method AddConflictsAsRequirements(n: NodeId, a: Access)
      requires HasNode(Nodes(), n)
      modifies this`reqs
      ensures Nodes() == AddConflicts(old(Nodes()), n, regions(a.region), a, UsersOf(users, a.region), depth)
    {
      var us := UsersOf(users, a.region);
      assert us[..|us|] == us;
      for i := |us| downto 0
        invariant HasNode(Nodes(), n)
        invariant AddConflicts(Nodes(), n, regions(a.region), a, us[..i], depth) ==
                  old(AddConflicts(Nodes(), n, regions(a.region), a, us, depth))
      {
        assert us[..i + 1][..i] == us[..i];
        if us[i].node !in dead && ConflictingAccess(regions(a.region), a, us[i]) {
          if us[i].node !in known {
            AddRequirement(n, us[i].node);
          }
        }
      }
    }

    /** add_to_data_users for one access, with data_user_tracker::add_user. */
    method AddToDataUsers(n: NodeId, a: Access)
      modifies this`users
      ensures users == AddUser(Nodes(), old(users), n, a)
    {
      var us, kept := UsersOf(users, a.region), [];
      for i := 0 to |us|
        invariant kept == KeptUsers(Nodes(), n, a, us[..i])
      {
        assert us[..i + 1][..i] == us[..i];
        if !ReplacesUser(Nodes(), n, a, us[i]) {
          kept := kept + [us[i]];
        }
      }
      assert us[..|us|] == us;
      users := users[a.region := kept + [User(n, a.mode, a.elements)]];
    }

    /** The walk over the requirements of the new node. */
    method AddConflictsOfRequirements(list: seq<NodeId>)
      modifies this`reqs
      ensures Nodes() == Walk(old(Nodes()), list, access, users, regions, depth)
    {
      assert list[0..] == list;
      for i := 0 to |list|
        invariant Walk(Nodes(), list[i..], access, users, regions, depth) ==
                  old(Walk(Nodes(), list, access, users, regions, depth))
      {
        assert list[i..][0] == list[i] && list[i..][1..] == list[i + 1..];
        if list[i] !in dead && list[i] in access && list[i] < |reqs| {
          AddConflictsAsRequirements(list[i], access[list[i]]);
        }
      }
    }

    /** The fresh requirement nodes of a requirements list. */
    method CreateRequirements(mems: seq<Access>) returns (list: seq<NodeId>)
      modifies this`reqs, this`access
      ensures reqs == old(reqs) + seq(|mems|, i => [])
      ensures access == RegisterMems(old(access), old(|reqs|), mems)
      ensures |list| == |mems| && forall i :: 0 <= i < |list| ==> list[i] == old(|reqs|) + i
    {
      list := [];
      for i := 0 to |mems|
        invariant reqs == old(reqs) + seq(i, j => [])
        invariant access == RegisterMems(old(access), old(|reqs|), mems[..i])
        invariant |list| == i && forall j :: 0 <= j < |list| ==> list[j] == old(|reqs|) + j
      {
        assert mems[..i + 1][..i] == mems[..i];
        list, access := list + [|reqs|], access[|reqs| := mems[i]];
        reqs := reqs + [[]];
      }
      assert mems[..|mems|] == mems;
    }

    /** The operation node with its initial requirements. */
    method CreateNode(grp: Group) returns (n: NodeId)
      requires |grp.explicit| <= 1
      modifies this`reqs, this`access
      ensures Nodes() == Created(old(Value()), grp) && access == NewAccesses(old(Value()), grp)
      ensures n == NewNode(old(Value()), grp)
    {
      var list := CreateRequirements(grp.mems);
      n := |reqs|;
      if grp.explicit != [] { access := access[n := grp.explicit[0]]; }
      assert list + grp.deps == InitialRequirements(old(Value()), grp);
      reqs := reqs + [list + grp.deps];
    }

    method AddAllToDataUsers(n: NodeId, accesses: seq<Access>)
      modifies this`users
      ensures users == AddUsers(Nodes(), old(users), n, accesses)
    {
      for i := 0 to |accesses|
        invariant users == AddUsers(Nodes(), old(users), n, accesses[..i])
      {
        assert accesses[..i + 1][..i] == accesses[..i];
        AddToDataUsers(n, accesses[i]);
      }
      assert accesses[..|accesses|] == accesses;
    }

    /** An explicit requirement considers the conflicts of its own access first. */
    method AddOwnConflicts(grp: Group, n: NodeId, ghost s: State)
      requires Nodes() == Created(s, grp) && users == s.users && n == NewNode(s, grp)
      modifies this`reqs
      ensures Nodes() == WithOwnConflicts(s, grp, regions, depth)
    {
      if grp.explicit != [] { AddConflictsAsRequirements(n, grp.explicit[0]); }
    }

    /** The conflicts of the node itself and of the requirements it then lists. */
    method ConnectNode(grp: Group, n: NodeId, ghost s: State)
      requires Nodes() == Created(s, grp) && users == s.users && access == NewAccesses(s, grp) && n == NewNode(s, grp)
      modifies this`reqs
      ensures Nodes() == BuiltGraph(s, grp, regions, depth)
    {
      AddOwnConflicts(grp, n, s);
      AddConflictsOfRequirements(reqs[n]);
    }

    /** dag_builder::build_node. */
    method BuildNode(grp: Group) returns (n: NodeId)
      requires |grp.explicit| <= 1
      modifies this
      ensures Value() == Build(old(Value()), grp, regions, depth) && n == NewNode(old(Value()), grp)
    {
      ghost var s := Value();
      n := CreateNode(grp);
      ConnectNode(grp, n, s);
      AddAllToDataUsers(n, grp.explicit + grp.mems);
      commands := commands + [Command(n, grp.explicit + grp.mems)];
    }

    /** dag_builder::add_command_group, on a graph that has the run invariant. */
    method AddCommandGroup(grp: Group) returns (n: NodeId)
      requires Inv(Value(), regions) && BuildOk(Value(), grp, regions, depth)
      modifies this
      ensures Value() == Build(old(Value()), grp, regions, depth) && Inv(Value(), regions)
    {
      ghost var s := Value();
      n := BuildNode(grp);
      BuilderProofs.BuildKeepsInv(s, grp, regions, depth);
    }

    /** data_user_tracker::release_dead_users. */
    method ReleaseDead(region: nat)
      modifies this`users
      ensures Value() == Apply(old(Value()), ReleaseDeadUsers(region), regions)
    {
      var us, kept := UsersOf(users, region), [];
      for i := 0 to |us|
        invariant kept == LiveUsers(Nodes(), us[..i])
      {
        assert us[..i + 1][..i] == us[..i];
        if us[i].node !in dead && us[i].node !in known {
          kept := kept + [us[i]];
        }
      }
      assert us[..|us|] == us;
      users := users[region := kept];
    }
  }
}
