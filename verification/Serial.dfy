/** Serialisability on one shared memory: executing commands in any order the built graph allows gives
    every operation the inputs, and every page the contents, of execution in submission order. */
module Serial {
  import opened Geometry
  import opened Dag
  import opened Builder
  import BuilderProofs
  import opened Schedule

  datatype Page = Page(region: nat, cell: Vec3)

  type Memory<V> = map<Page, V>

  type Kernel<!V> = Schedule.Kernel<Page, V>

  ghost predicate AccessTouches(a: Access, p: Page, regions: Regions) {
    a.region == p.region && TouchesPage(p.cell, a.elements, regions(a.region))
  }

  ghost predicate Touches(c: Command, p: Page, regions: Regions) {
    exists a :: a in c.accesses && AccessTouches(a, p, regions)
  }

  ghost predicate WritesPage(c: Command, p: Page, regions: Regions) {
    exists a :: a in c.accesses && Writes(a.mode) && AccessTouches(a, p, regions)
  }

  /** A command as an operation on pages. */
  ghost function OpOf(c: Command, regions: Regions): Op<Page> {
    Op(c.node, iset p | Touches(c, p, regions), iset p | WritesPage(c, p, regions))
  }

  ghost function OpsOf(cs: seq<Command>, regions: Regions): (os: seq<Op<Page>>)
    ensures |os| == |cs| && forall i :: 0 <= i < |cs| ==> os[i] == OpOf(cs[i], regions)
  {
    seq(|cs|, i requires 0 <= i < |cs| => OpOf(cs[i], regions))
  }

  /** What a command sees of a memory. */
  ghost function Inputs<V>(mem: Memory<V>, c: Command, regions: Regions): map<Page, V> {
    Schedule.Inputs(mem, OpOf(c, regions))
  }

  /** Memory after performing `cs` in sequence. */
  ghost function After<V>(k: Kernel<V>, mem: Memory<V>, cs: seq<Command>, regions: Regions): Memory<V> {
    Schedule.After(k, mem, OpsOf(cs, regions))
  }

  lemma OpsOfPrefix(cs: seq<Command>, regions: Regions, l: nat)
    requires l <= |cs|
    ensures OpsOf(cs, regions)[..l] == OpsOf(cs[..l], regions)
  {
  }

  ghost predicate DistinctNodes(cs: seq<Command>) {
    forall i, j :: 0 <= i < j < |cs| ==> cs[i].node != cs[j].node
  }

  /** `done` performs some of the commands `subs`, each after all earlier commands it clashes with. */
  ghost predicate Respects(done: seq<Command>, subs: seq<Command>, regions: Regions) {
    && DistinctNodes(subs) && DistinctNodes(done)
    && (forall l :: 0 <= l < |done| ==> done[l] in subs)
    && (forall i, j, l | && 0 <= i < j < |subs| && CommandsClash(subs[i], subs[j], regions)
                         && 0 <= l < |done| && done[l] == subs[j]
          :: subs[i] in done[..l])
  }

  /** Operations on pages clash only if the commands do. */
  lemma ClashComesFromCommands(c: Command, d: Command, regions: Regions)
    requires OpsClash(OpOf(c, regions), OpOf(d, regions))
    ensures CommandsClash(c, d, regions)
  {
    var p :| (WritesPage(c, p, regions) && Touches(d, p, regions))
      || (Touches(c, p, regions) && WritesPage(d, p, regions));
    if WritesPage(c, p, regions) && Touches(d, p, regions) {
      var a :| a in c.accesses && Writes(a.mode) && AccessTouches(a, p, regions);
      var b :| b in d.accesses && AccessTouches(b, p, regions);
      assert Clash(a, b, regions);
    } else {
      var a :| a in c.accesses && AccessTouches(a, p, regions);
      var b :| b in d.accesses && Writes(b.mode) && AccessTouches(b, p, regions);
      assert Clash(a, b, regions);
    }
  }

  lemma WritesAreTouches(c: Command, regions: Regions)
    ensures OpOf(c, regions).writes <= OpOf(c, regions).touches
  {
  }

  lemma OpsKeepOrder(done: seq<Command>, subs: seq<Command>, regions: Regions, i: nat, j: nat, l: nat)
    requires Respects(done, subs, regions) && i < j < |subs| && OpsClash(OpOf(subs[i], regions), OpOf(subs[j], regions))
    requires l < |done| && done[l].node == subs[j].node
    ensures OpOf(subs[i], regions) in OpsOf(done, regions)[..l]
  {
    ClashComesFromCommands(subs[i], subs[j], regions);
    var j' :| 0 <= j' < |subs| && subs[j'] == done[l];
    assert j' == j;
    assert subs[i] in done[..l];
    var q :| 0 <= q < l && done[q] == subs[i];
    assert OpsOf(done, regions)[..l][q] == OpOf(subs[i], regions);
  }

  lemma OpsRespect(done: seq<Command>, subs: seq<Command>, regions: Regions)
    requires Respects(done, subs, regions)
    ensures Schedule.Respects(OpsOf(done, regions), OpsOf(subs, regions))
  {
    var ds, ss := OpsOf(done, regions), OpsOf(subs, regions);
    forall l | 0 <= l < |ds| ensures ds[l] in ss {
      var j :| 0 <= j < |subs| && subs[j] == done[l];
      assert ss[j] == ds[l];
    }
    forall i | 0 <= i < |ss| ensures ss[i].writes <= ss[i].touches { WritesAreTouches(subs[i], regions); }
    forall i, j, l | 0 <= i < j < |ss| && OpsClash(ss[i], ss[j]) && 0 <= l < |ds| && ds[l] == ss[j]
      ensures ss[i] in ds[..l]
    {
      OpsKeepOrder(done, subs, regions, i, j, l);
    }
  }

  // ---------------------------------------------------------------------------------------------
  // Runs of the builder

  /** The commands whose operation node has completed, in completion order. */
  ghost function Performed(order: seq<NodeId>, commands: seq<Command>): (cs: seq<Command>)
    decreases |order|
  {
    if order == [] then []
    else
      var rest := Performed(order[..|order| - 1], commands);
      if exists i :: 0 <= i < |commands| && commands[i].node == order[|order| - 1] then
        var i :| 0 <= i < |commands| && commands[i].node == order[|order| - 1];
        rest + [commands[i]]
      else rest
  }

  lemma {:induction false} PerformedMembers(order: seq<NodeId>, commands: seq<Command>)
    requires DistinctNodes(commands)
    ensures forall c :: c in Performed(order, commands) <==> c in commands && c.node in order
    decreases |order|
  {
    if order != [] {
      var init, n := order[..|order| - 1], order[|order| - 1];
      assert order == init + [n];
      PerformedMembers(init, commands);
      assert forall c :: c in commands && c.node == n ==>
          exists i :: 0 <= i < |commands| && commands[i].node == n && commands[i] == c;
    }
  }

  /** Positions in the performed sequence correspond to positions in the completion order. */
  lemma {:induction false} PerformedPosition(order: seq<NodeId>, commands: seq<Command>, l: nat) returns (k: nat)
    requires DistinctNodes(commands) && l < |Performed(order, commands)|
    requires forall i, j :: 0 <= i < j < |order| ==> order[i] != order[j]
    ensures k < |order| && order[k] == Performed(order, commands)[l].node
    ensures Performed(order, commands)[..l] == Performed(order[..k], commands)
    decreases |order|
  {
    var init := order[..|order| - 1];
    var rest := Performed(init, commands);
    if l < |rest| {
      k := PerformedPosition(init, commands, l);
      assert init[..k] == order[..k] && Performed(order, commands)[..l] == rest[..l];
    } else {
      k := |order| - 1;
      assert Performed(order, commands)[..l] == rest;
    }
  }

  /** The completion order of any reachable state respects all clashes. */
  lemma PerformedRespects(s: State, regions: Regions)
    requires Shape(s) && TimeOrdered(s, regions)
    ensures Respects(Performed(s.order, s.commands), s.commands, regions)
  {
    var done := Performed(s.order, s.commands);
    PerformedMembers(s.order, s.commands);
    forall i, j | 0 <= i < j < |done| ensures done[i].node != done[j].node {
      var k := PerformedPosition(s.order, s.commands, j);
      PerformedMembers(s.order[..k], s.commands);
      assert done[i] in done[..j];
      assert done[i].node in s.order[..k];
    }
    forall i, j, l | 0 <= i < j < |s.commands| && CommandsClash(s.commands[i], s.commands[j], regions) &&
                     0 <= l < |done| && done[l] == s.commands[j]
      ensures s.commands[i] in done[..l]
    {
      var k := PerformedPosition(s.order, s.commands, l);
      PerformedMembers(s.order[..k], s.commands);
    }
  }

  /** Serialisability of every run: each performed operation had the inputs of the submission order,
      and once all commands are complete every page has the contents of the submission order. */
  lemma RunIsSerialisable<V>(events: seq<Event>, regions: Regions, s: State, k: Kernel<V>, mem: Memory<V>)
    requires IsRun(Init, events, regions, s)
    ensures var done := Performed(s.order, s.commands);
            forall l, j :: 0 <= l < |done| && 0 <= j < |s.commands| && done[l] == s.commands[j] ==>
              Inputs(After(k, mem, done[..l], regions), done[l], regions) ==
              Inputs(After(k, mem, s.commands[..j], regions), s.commands[j], regions)
    ensures (forall c :: c in s.commands ==> c.node in s.order) ==>
              After(k, mem, Performed(s.order, s.commands), regions) == After(k, mem, s.commands, regions)
  {
    assert Inv(Init, regions);
    BuilderProofs.RunKeepsInv(Init, events, regions, s);
    InvIsSerialisable(s, regions, k, mem);
  }

  lemma InvIsSerialisable<V>(s: State, regions: Regions, k: Kernel<V>, mem: Memory<V>)
    requires Shape(s) && TimeOrdered(s, regions)
    ensures var done := Performed(s.order, s.commands);
            forall l, j :: 0 <= l < |done| && 0 <= j < |s.commands| && done[l] == s.commands[j] ==>
              Inputs(After(k, mem, done[..l], regions), done[l], regions) ==
              Inputs(After(k, mem, s.commands[..j], regions), s.commands[j], regions)
    ensures (forall c :: c in s.commands ==> c.node in s.order) ==>
              After(k, mem, Performed(s.order, s.commands), regions) == After(k, mem, s.commands, regions)
  {
    var done := Performed(s.order, s.commands);
    PerformedRespects(s, regions);
    OpsRespect(done, s.commands, regions);
    forall l, j | 0 <= l < |done| && 0 <= j < |s.commands| && done[l] == s.commands[j]
      ensures Inputs(After(k, mem, done[..l], regions), done[l], regions) ==
              Inputs(After(k, mem, s.commands[..j], regions), s.commands[j], regions)
    {
      SameInputs(k, mem, OpsOf(done, regions), OpsOf(s.commands, regions), l, j);
      OpsOfPrefix(done, regions, l);
      OpsOfPrefix(s.commands, regions, j);
    }
    if forall c :: c in s.commands ==> c.node in s.order {
      AllPerformed(s.order, s.commands, regions);
      SameEnd(k, mem, OpsOf(done, regions), OpsOf(s.commands, regions));
    }
  }

  lemma AllPerformed(order: seq<NodeId>, commands: seq<Command>, regions: Regions)
    requires DistinctNodes(commands) && forall c :: c in commands ==> c.node in order
    ensures forall o :: o in OpsOf(commands, regions) ==> o in OpsOf(Performed(order, commands), regions)
  {
    var done := Performed(order, commands);
    PerformedMembers(order, commands);
    forall o | o in OpsOf(commands, regions) ensures o in OpsOf(done, regions) {
      var j :| 0 <= j < |commands| && OpsOf(commands, regions)[j] == o;
      var l :| 0 <= l < |done| && done[l] == commands[j];
      assert OpsOf(done, regions)[l] == o;
    }
  }
}
