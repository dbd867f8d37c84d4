/** Execution on device copies: a transfer acts when its requirement node completes, and a kernel works on
    the copy of its device. Every operation sees the contents it would see if all nodes acted in submission
    order, provided that each transfer completes before the readers of the copy it filled
    (src/runtime/dag_builder.cpp, src/runtime/dag_direct_scheduler.cpp, include/hipSYCL/runtime/data.hpp). */
module DeviceCopies {
  import opened Geometry
  import opened Dag
  import opened Builder
  import BuilderProofs
  import opened TransferOrder
  import opened Schedule
  import opened Serial
  import opened Lanes
  import LanesProofs

  // ---------------------------------------------------------------------------------------------
  // Cells and what nodes do with them

  /** A page of a region in the copy of a device. */
  datatype Cell = Cell(region: nat, dev: nat, page: Vec3)

  /** The transfer of a requirement node: the copy it reads and the pages it brings. */
  datatype Transfer = Transfer(source: nat, pages: iset<Vec3>)

  /** The device of every node, the transfers that were decided on, and the cells valid at the start. */
  datatype Setup = Setup(device: NodeId -> nat, plan: map<NodeId, Transfer>, valid: iset<Cell>)

  function PageIn(c: Cell): Page {
    Page(c.region, c.page)
  }

  /** The access of requirement node `m` touches the page of the cell. */
  ghost predicate Hits(s: State, regions: Regions, m: NodeId, c: Cell) {
    m in s.access && AccessTouches(s.access[m], PageIn(c), regions)
  }

  /** The page tables before requirement node `k` is submitted. */
  ghost predicate ValidAt(s: State, t: Setup, regions: Regions, k: nat, c: Cell)
    decreases k
  {
    if k == 0 then c in t.valid
    else if Hits(s, regions, k - 1, c) then
      c.dev == t.device(k - 1) || (s.access[k - 1].mode.Read? && ValidAt(s, t, regions, k - 1, c))
    else ValidAt(s, t, regions, k - 1, c)
  }

  /** The transfer of `m` brings the cell. */
  ghost predicate Fills(s: State, t: Setup, m: NodeId, c: Cell) {
    && m in t.plan && m in s.access && s.access[m].region == c.region && c.page in t.plan[m].pages
    && c.dev == t.device(m)
  }

  /** The transfer of `m` reads the cell. */
  ghost predicate Sources(s: State, t: Setup, m: NodeId, c: Cell) {
    && m in t.plan && m in s.access && s.access[m].region == c.region && c.page in t.plan[m].pages
    && c.dev == t.plan[m].source
  }

  /** The operation of command `j` accesses the cell. */
  ghost predicate Uses(s: State, t: Setup, regions: Regions, j: int, c: Cell) {
    0 <= j < |s.commands| && c.dev == t.device(s.commands[j].node) && Touches(s.commands[j], PageIn(c), regions)
  }

  ghost predicate Changes(s: State, t: Setup, regions: Regions, j: int, c: Cell) {
    0 <= j < |s.commands| && c.dev == t.device(s.commands[j].node) && WritesPage(s.commands[j], PageIn(c), regions)
  }

  ghost predicate NodeUses(s: State, t: Setup, regions: Regions, n: NodeId, c: Cell) {
    exists j :: 0 <= j < |s.commands| && s.commands[j].node == n && Uses(s, t, regions, j, c)
  }

  ghost predicate NodeChanges(s: State, t: Setup, regions: Regions, n: NodeId, c: Cell) {
    exists j :: 0 <= j < |s.commands| && s.commands[j].node == n && Changes(s, t, regions, j, c)
  }

  /** A node as an operation on cells. */
  ghost function NodeOp(s: State, t: Setup, regions: Regions, n: NodeId): Op<Cell> {
    Op(n, iset c | Fills(s, t, n, c) || Sources(s, t, n, c) || NodeUses(s, t, regions, n, c),
       iset c | Fills(s, t, n, c) || NodeChanges(s, t, regions, n, c))
  }

  /** What the protocol ensures: the requirements of a command have its device, and transfers bring outdated
      pages of the access from a copy on which they are valid. */
  ghost predicate Protocol(s: State, t: Setup, regions: Regions) {
    && (forall m, j :: Serves(s, m, j) ==> t.device(m) == t.device(s.commands[j].node))
    && (forall m, c :: Fills(s, t, m, c) ==> Hits(s, regions, m, c) && !ValidAt(s, t, regions, m, c))
    && (forall m, c :: Sources(s, t, m, c) ==>
          Hits(s, regions, m, c) && ValidAt(s, t, regions, m, c) && c.dev != t.device(m))
  }

  // ---------------------------------------------------------------------------------------------
  // What is known about the order of completion

  /** Every requirement node belongs to a command, and every access of a command has its node. */
  ghost predicate Served(s: State) {
    && (forall m :: m in s.access ==> exists j :: Serves(s, m, j))
    && (forall j, a :: 0 <= j < |s.commands| && a in s.commands[j].accesses ==> HasRequirement(s, j, a))
  }

  ghost predicate HasRequirement(s: State, j: int, a: Access) {
    exists m :: Serves(s, m, j) && s.access[m] == a
  }

  ghost predicate Increasing(commands: seq<Command>) {
    forall i, j :: 0 <= i < j < |commands| ==> commands[i].node < commands[j].node
  }

  /** Clashing commands and requirement nodes complete in submission order, requirements before their
      commands. */
  ghost predicate Ordering(s: State, regions: Regions) {
    && Served(s)
    && Increasing(s.commands)
    && (forall i, j :: 0 <= i < j < |s.commands| && CommandsClash(s.commands[i], s.commands[j], regions) ==>
          Before(s.order, s.commands[i].node, s.commands[j].node))
    && (forall m, j :: Serves(s, m, j) ==>
          && s.access[m] in s.commands[j].accesses && TransferInOrder(s, regions, m, j)
          && (m != s.commands[j].node ==> Before(s.order, m, s.commands[j].node)))
  }

  lemma ServesKept(s: State, e: Event, regions: Regions, m: NodeId, j: int)
    requires Shape(s) && Enabled(s, e, regions) && Serves(s, m, j)
    ensures var s' := Apply(s, e, regions); Serves(s', m, j) && s'.access[m] == s.access[m]
  {
    if e.Submit? { BuilderProofs.OldAccessKept(s, e.grp, m); }
  }

  lemma NewNodeServes(s: State, grp: Group, regions: Regions, depth: int, m: NodeId)
    requires Shape(s) && Tight(s) && |s.g.reqs| <= m && m in NewAccesses(s, grp)
    ensures Serves(Build(s, grp, regions, depth), m, |s.commands|)
  {
    var s', j := Build(s, grp, regions, depth), |s.commands|;
    BuilderProofs.FreshAccess(s, grp);
    if j > 0 { assert s'.commands[j - 1] == s.commands[j - 1]; }
  }

  lemma NewAccessServed(s: State, grp: Group, regions: Regions, depth: int, a: Access)
    requires Shape(s) && Tight(s) && |grp.explicit| <= 1 && a in grp.explicit + grp.mems
    ensures HasRequirement(Build(s, grp, regions, depth), |s.commands|, a)
  {
    BuilderProofs.FreshAccess(s, grp);
    var m := NewNode(s, grp);
    if a !in grp.explicit {
      var i :| 0 <= i < |grp.mems| && grp.mems[i] == a;
      m := |s.g.reqs| + i;
      assert FreshNode(s, grp, m);
    }
    assert m in NewAccesses(s, grp) && NewAccesses(s, grp)[m] == a;
    NewNodeServes(s, grp, regions, depth, m);
  }

  lemma OldAccessServed(s: State, e: Event, regions: Regions, j: int, a: Access)
    requires Shape(s) && Served(s) && Enabled(s, e, regions) && 0 <= j < |s.commands|
    requires a in Apply(s, e, regions).commands[j].accesses
    ensures HasRequirement(Apply(s, e, regions), j, a)
  {
    assert Apply(s, e, regions).commands[j] == s.commands[j];
    assert HasRequirement(s, j, a);
    var m :| Serves(s, m, j) && s.access[m] == a;
    ServesKept(s, e, regions, m, j);
  }

  lemma StepKeepsServed(s: State, e: Event, regions: Regions)
    requires Shape(s) && Tight(s) && Served(s) && Enabled(s, e, regions)
    ensures Served(Apply(s, e, regions))
  {
    var s' := Apply(s, e, regions);
    forall m | m in s'.access ensures exists j :: Serves(s', m, j) {
      if m < |s.g.reqs| {
        AccessKept(s, e, regions, m);
        var j :| Serves(s, m, j);
        ServesKept(s, e, regions, m, j);
      } else {
        NewNodeServes(s, e.grp, regions, e.depth, m);
      }
    }
    forall j, a | 0 <= j < |s'.commands| && a in s'.commands[j].accesses ensures HasRequirement(s', j, a) {
      if j < |s.commands| {
        OldAccessServed(s, e, regions, j, a);
      } else {
        NewAccessServed(s, e.grp, regions, e.depth, a);
      }
    }
  }

  lemma {:induction false} RunKeepsServed(s: State, events: seq<Event>, regions: Regions, s': State)
    requires Inv(s, regions) && AllPlaced(s, regions) && Served(s) && IsRun(s, events, regions, s')
    ensures Served(s')
    decreases |events|
  {
    if events != [] {
      BuilderProofs.StepKeepsInv(s, events[0], regions);
      StepKeepsPlaced(s, events[0], regions);
      StepKeepsServed(s, events[0], regions);
      RunKeepsServed(Apply(s, events[0], regions), events[1..], regions, s');
    }
  }

  lemma OrderingHolds(s: State, regions: Regions)
    requires Inv(s, regions) && AllPlaced(s, regions) && Served(s)
    ensures Ordering(s, regions)
  {
    forall m, j | Serves(s, m, j)
      ensures && s.access[m] in s.commands[j].accesses && TransferInOrder(s, regions, m, j)
              && (m != s.commands[j].node ==> Before(s.order, m, s.commands[j].node))
    {
      assert Placed(s, regions, m, j);
      PlacedIsInOrder(s, regions, m, j);
    }
    ClashingCommandsInOrder(s, regions);
  }

  lemma ClashingCommandsInOrder(s: State, regions: Regions)
    requires TimeOrdered(s, regions)
    ensures forall i, j :: 0 <= i < j < |s.commands| && CommandsClash(s.commands[i], s.commands[j], regions) ==>
              Before(s.order, s.commands[i].node, s.commands[j].node)
  {
  }

  /** A state of some run. */
  ghost predicate FromRun(s: State, regions: Regions) {
    exists events :: IsRun(Init, events, regions, s)
  }

  lemma RunOrdering(s: State, regions: Regions)
    requires FromRun(s, regions)
    ensures Ordering(s, regions)
  {
    var events :| IsRun(Init, events, regions, s);
    InitPlaced(regions);
    RunKeepsPlaced(Init, events, regions, s);
    RunKeepsServed(Init, events, regions, s);
    OrderingHolds(s, regions);
  }

  lemma OwnerOf(s: State, regions: Regions, m: NodeId) returns (j: int)
    requires FromRun(s, regions) && m in s.access
    ensures Serves(s, m, j) && s.access[m] in s.commands[j].accesses
    ensures m != s.commands[j].node ==> Before(s.order, m, s.commands[j].node)
  {
    RunOrdering(s, regions);
    j :| Serves(s, m, j);
  }

  lemma RequirementOf(s: State, regions: Regions, j: int, a: Access) returns (m: NodeId)
    requires FromRun(s, regions) && 0 <= j < |s.commands| && a in s.commands[j].accesses
    ensures Serves(s, m, j) && s.access[m] == a
  {
    RunOrdering(s, regions);
    assert HasRequirement(s, j, a);
    m :| Serves(s, m, j) && s.access[m] == a;
  }

  lemma LaterCommand(s: State, regions: Regions, i: int, j: int)
    requires FromRun(s, regions) && 0 <= i < |s.commands| && 0 <= j < |s.commands|
    requires s.commands[i].node < s.commands[j].node
    ensures i < j
  {
    RunOrdering(s, regions);
  }

  lemma LaterServes(s: State, regions: Regions, m: NodeId, i: int, j: int)
    requires FromRun(s, regions) && Serves(s, m, i) && 0 <= j < |s.commands| && m <= s.commands[j].node
    ensures i <= j
  {
    RunOrdering(s, regions);
    ServesInOrder(s, m, i, j);
  }

  lemma ServesInOrder(s: State, m: NodeId, i: int, j: int)
    requires Increasing(s.commands) && Serves(s, m, i) && 0 <= j < |s.commands| && m <= s.commands[j].node
    ensures i <= j
  {
  }

  lemma CommandThenCommand(s: State, regions: Regions, i: int, j: int)
    requires FromRun(s, regions) && 0 <= i < j < |s.commands| && CommandsClash(s.commands[i], s.commands[j], regions)
    ensures Before(s.order, s.commands[i].node, s.commands[j].node)
  {
    RunOrdering(s, regions);
  }

  lemma CommandThenTransfer(s: State, regions: Regions, i: int, b: NodeId, j: int)
    requires FromRun(s, regions) && 0 <= i < j && Serves(s, b, j) && ClashesWith(s.commands[i], s.access[b], regions)
    ensures Before(s.order, s.commands[i].node, b)
  {
    RunOrdering(s, regions);
    assert TransferInOrder(s, regions, b, j);
  }

  lemma TransferThenOwnCommand(s: State, regions: Regions, a: NodeId, i: int)
    requires FromRun(s, regions) && Serves(s, a, i) && a != s.commands[i].node
    ensures Before(s.order, a, s.commands[i].node)
  {
    RunOrdering(s, regions);
  }

  lemma TransferThenCommand(s: State, regions: Regions, a: NodeId, i: int, j: int)
    requires FromRun(s, regions) && Serves(s, a, i) && i < j < |s.commands|
    requires ClashesWith(s.commands[j], s.access[a], regions)
    ensures Before(s.order, a, s.commands[j].node)
  {
    RunOrdering(s, regions);
    assert TransferInOrder(s, regions, a, i);
  }

  // ---------------------------------------------------------------------------------------------
  // Page tables over time

  /** A valid page becomes outdated only through a requirement that claims it for writing elsewhere. */
  lemma {:induction false} Outdated(s: State, t: Setup, regions: Regions, k: nat, k': nat, c: Cell) returns (w: NodeId)
    requires k <= k' && ValidAt(s, t, regions, k, c) && !ValidAt(s, t, regions, k', c)
    ensures k <= w < k' && Hits(s, regions, w, c) && Writes(s.access[w].mode) && t.device(w) != c.dev
    decreases k'
  {
    if ValidAt(s, t, regions, k' - 1, c) {
      w := k' - 1;
    } else {
      w := Outdated(s, t, regions, k, k' - 1, c);
    }
  }

  lemma HitsClash(s: State, regions: Regions, w: NodeId, c: Cell, a: Access)
    requires Hits(s, regions, w, c) && AccessTouches(a, PageIn(c), regions)
    requires (Writes(s.access[w].mode) || Writes(a.mode))
    ensures Clash(s.access[w], a, regions) && Clash(a, s.access[w], regions)
  {
  }

  /** Before a cell is filled although it was valid at `k`, a command of another device has written its
      page: command `l`, through requirement `w`. */
  lemma Rewritten(s: State, t: Setup, regions: Regions, k: nat, b: NodeId, c: Cell) returns (w: NodeId, l: int)
    requires FromRun(s, regions) && Protocol(s, t, regions)
    requires k <= b && ValidAt(s, t, regions, k, c) && Fills(s, t, b, c)
    ensures k <= w < b && Serves(s, w, l) && Hits(s, regions, w, c) && Writes(s.access[w].mode) && t.device(w) != c.dev
    ensures WritesPage(s.commands[l], PageIn(c), regions) && Touches(s.commands[l], PageIn(c), regions)
    ensures Before(s.order, s.commands[l].node, b)
  {
    w := Outdated(s, t, regions, k, b, c);
    l := OwnerOf(s, regions, w);
    var j := OwnerOf(s, regions, b);
    LaterServes(s, regions, w, l, j);
    HitsClash(s, regions, w, c, s.access[b]);
    assert ClashesWith(s.commands[l], s.access[b], regions);
    CommandThenTransfer(s, regions, l, b, j);
  }

  // ---------------------------------------------------------------------------------------------
  // Nodes that meet at a cell

  lemma UseThenChange(s: State, t: Setup, regions: Regions, i: int, j: int, c: Cell)
    requires FromRun(s, regions) && 0 <= i < j < |s.commands| && Uses(s, t, regions, i, c) && Uses(s, t, regions, j, c)
    requires Changes(s, t, regions, i, c) || Changes(s, t, regions, j, c)
    ensures Before(s.order, s.commands[i].node, s.commands[j].node)
  {
    TouchesClash(s.commands[i], s.commands[j], PageIn(c), regions);
    CommandThenCommand(s, regions, i, j);
  }

  lemma TouchesClash(c: Command, d: Command, p: Page, regions: Regions)
    requires Touches(c, p, regions) && Touches(d, p, regions)
    requires (WritesPage(c, p, regions) || WritesPage(d, p, regions))
    ensures CommandsClash(c, d, regions)
  {
    assert p in OpOf(c, regions).touches && p in OpOf(d, regions).touches;
    assert OpsClash(OpOf(c, regions), OpOf(d, regions));
    ClashComesFromCommands(c, d, regions);
  }

  lemma AccessClash(s: State, regions: Regions, c: Command, w: NodeId, x: Cell)
    requires Hits(s, regions, w, x) && Touches(c, PageIn(x), regions)
    requires WritesPage(c, PageIn(x), regions) || Writes(s.access[w].mode)
    ensures ClashesWith(c, s.access[w], regions)
  {
    if WritesPage(c, PageIn(x), regions) {
      var a :| a in c.accesses && Writes(a.mode) && AccessTouches(a, PageIn(x), regions);
      HitsClash(s, regions, w, x, a);
    } else {
      var a :| a in c.accesses && AccessTouches(a, PageIn(x), regions);
      HitsClash(s, regions, w, x, a);
    }
  }

  /** The requirement of a command makes the cells it uses valid. */
  lemma UsedIsValid(s: State, t: Setup, regions: Regions, i: int, c: Cell) returns (m: NodeId)
    requires FromRun(s, regions) && Protocol(s, t, regions) && Uses(s, t, regions, i, c)
    ensures Serves(s, m, i) && ValidAt(s, t, regions, m + 1, c) && t.device(m) == c.dev
  {
    var a :| a in s.commands[i].accesses && AccessTouches(a, PageIn(c), regions);
    m := RequirementOf(s, regions, i, a);
    assert Hits(s, regions, m, c);
  }

  /** A kernel has used a cell before a transfer fills it again. */
  lemma UseThenFill(s: State, t: Setup, regions: Regions, i: int, b: NodeId, c: Cell)
    requires FromRun(s, regions) && Protocol(s, t, regions)
    requires Uses(s, t, regions, i, c) && Fills(s, t, b, c) && s.commands[i].node < b
    ensures Before(s.order, s.commands[i].node, b)
  {
    var m := UsedIsValid(s, t, regions, i, c);
    var w, l := Rewritten(s, t, regions, m + 1, b, c);
    LaterServes(s, regions, m, i, l);
    TouchesClash(s.commands[i], s.commands[l], PageIn(c), regions);
    CommandThenCommand(s, regions, i, l);
    BeforeTransitive(s.order, s.commands[i].node, s.commands[l].node, b);
  }

  lemma ChangeThenSource(s: State, t: Setup, regions: Regions, i: int, b: NodeId, c: Cell)
    requires FromRun(s, regions) && Protocol(s, t, regions)
    requires Changes(s, t, regions, i, c) && Sources(s, t, b, c) && s.commands[i].node < b
    ensures Before(s.order, s.commands[i].node, b)
  {
    var j := OwnerOf(s, regions, b);
    LaterCommand(s, regions, i, j);
    AccessClash(s, regions, s.commands[i], b, c);
    CommandThenTransfer(s, regions, i, b, j);
  }

  lemma BeforeLaterWriter(s: State, regions: Regions, a: NodeId, i: int, j: int, c: Cell)
    requires FromRun(s, regions) && Serves(s, a, i) && i < j < |s.commands| && Hits(s, regions, a, c)
    requires Touches(s.commands[j], PageIn(c), regions) && WritesPage(s.commands[j], PageIn(c), regions)
    ensures Before(s.order, a, s.commands[j].node)
  {
    AccessClash(s, regions, s.commands[j], a, c);
    TransferThenCommand(s, regions, a, i, j);
  }

  lemma BeforeWriter(s: State, regions: Regions, a: NodeId, i: int, j: int, c: Cell)
    requires FromRun(s, regions) && Serves(s, a, i) && i <= j < |s.commands| && a != s.commands[j].node
    requires Hits(s, regions, a, c) && Touches(s.commands[j], PageIn(c), regions)
    requires WritesPage(s.commands[j], PageIn(c), regions)
    ensures Before(s.order, a, s.commands[j].node)
  {
    if i == j { TransferThenOwnCommand(s, regions, a, i); } else { BeforeLaterWriter(s, regions, a, i, j, c); }
  }

  lemma TransferThenChange(s: State, t: Setup, regions: Regions, a: NodeId, j: int, c: Cell)
    requires FromRun(s, regions) && Protocol(s, t, regions)
    requires (Fills(s, t, a, c) || Sources(s, t, a, c)) && Changes(s, t, regions, j, c) && a < s.commands[j].node
    ensures Before(s.order, a, s.commands[j].node)
  {
    var i := OwnerOf(s, regions, a);
    LaterServes(s, regions, a, i, j);
    BeforeWriter(s, regions, a, i, j, c);
  }

  /** Between two transfers at a cell, of which the second fills it, a command writes its page. */
  lemma TransferThenFill(s: State, t: Setup, regions: Regions, a: NodeId, b: NodeId, c: Cell)
    requires FromRun(s, regions) && Protocol(s, t, regions)
    requires (Fills(s, t, a, c) || Sources(s, t, a, c)) && Fills(s, t, b, c) && a < b
    ensures Before(s.order, a, b)
  {
    var i := OwnerOf(s, regions, a);
    var w, l := Rewritten(s, t, regions, if Fills(s, t, a, c) then a + 1 else a, b, c);
    LaterServes(s, regions, a, i, l);
    if a != s.commands[l].node {
      BeforeWriter(s, regions, a, i, l, c);
      BeforeTransitive(s.order, a, s.commands[l].node, b);
    }
  }

  /** Whatever the graph looks like, a cell is written only after its earlier readers and writers. */
  lemma WriterComesLater(s: State, t: Setup, regions: Regions, a: NodeId, b: NodeId, c: Cell)
    requires FromRun(s, regions) && Protocol(s, t, regions) && a < b
    requires c in NodeOp(s, t, regions, a).touches && c in NodeOp(s, t, regions, b).writes
    ensures Before(s.order, a, b)
  {
    if Fills(s, t, b, c) {
      if NodeUses(s, t, regions, a, c) {
        var i :| 0 <= i < |s.commands| && s.commands[i].node == a && Uses(s, t, regions, i, c);
        UseThenFill(s, t, regions, i, b, c);
      } else {
        TransferThenFill(s, t, regions, a, b, c);
      }
    } else {
      var j :| 0 <= j < |s.commands| && s.commands[j].node == b && Changes(s, t, regions, j, c);
      if NodeUses(s, t, regions, a, c) {
        var i :| 0 <= i < |s.commands| && s.commands[i].node == a && Uses(s, t, regions, i, c);
        LaterCommand(s, regions, i, j);
        ChangeIsUse(s, t, regions, j, c);
        UseThenChange(s, t, regions, i, j, c);
      } else {
        TransferThenChange(s, t, regions, a, j, c);
      }
    }
  }

  lemma ChangeIsUse(s: State, t: Setup, regions: Regions, j: int, c: Cell)
    requires Changes(s, t, regions, j, c)
    ensures Uses(s, t, regions, j, c)
  {
  }

  /** What a kernel wrote is read after the kernel. */
  lemma ReaderFollowsKernel(s: State, t: Setup, regions: Regions, a: NodeId, b: NodeId, c: Cell)
    requires FromRun(s, regions) && Protocol(s, t, regions) && a < b
    requires NodeChanges(s, t, regions, a, c) && c in NodeOp(s, t, regions, b).touches
    ensures Before(s.order, a, b)
  {
    var i :| 0 <= i < |s.commands| && s.commands[i].node == a && Changes(s, t, regions, i, c);
    ChangeIsUse(s, t, regions, i, c);
    if NodeUses(s, t, regions, b, c) {
      var j :| 0 <= j < |s.commands| && s.commands[j].node == b && Uses(s, t, regions, j, c);
      LaterCommand(s, regions, i, j);
      UseThenChange(s, t, regions, i, j, c);
    } else if Fills(s, t, b, c) {
      UseThenFill(s, t, regions, i, b, c);
    } else {
      ChangeThenSource(s, t, regions, i, b, c);
    }
  }

  // ---------------------------------------------------------------------------------------------
  // Readers and the transfers that filled their copies

  /** The transfer of `a` is the last write, before `b`, of a cell that `b` accesses. */
  ghost predicate Feeds(s: State, t: Setup, regions: Regions, a: NodeId, b: NodeId) {
    exists c :: FeedsAt(s, t, regions, a, b, c)
  }

  ghost predicate FeedsAt(s: State, t: Setup, regions: Regions, a: NodeId, b: NodeId, c: Cell) {
    && a < b && Fills(s, t, a, c) && c in NodeOp(s, t, regions, b).touches
    && forall x: NodeId :: a < x < b ==> c !in NodeOp(s, t, regions, x).writes
  }

  /** The last writer of a cell between `a` and `k`, or `a` itself. */
  lemma {:induction false} LastBetween(
    s: State, t: Setup, regions: Regions, a: NodeId, k: nat, c: Cell)
    returns (x: NodeId)
    requires a < k
    ensures a <= x < k && (x == a || c in NodeOp(s, t, regions, x).writes)
    ensures forall y: NodeId :: x < y < k ==> c !in NodeOp(s, t, regions, y).writes
    decreases k
  {
    if k == a + 1 || c in NodeOp(s, t, regions, k - 1).writes {
      x := k - 1;
    } else {
      x := LastBetween(s, t, regions, a, k - 1, c);
    }
  }

  lemma ReaderFollows(s: State, t: Setup, regions: Regions, a: NodeId, b: NodeId, c: Cell)
    requires FromRun(s, regions) && Protocol(s, t, regions) && a < b
    requires Fills(s, t, a, c) && c in NodeOp(s, t, regions, b).touches
    requires forall x, y :: Feeds(s, t, regions, x, y) ==> Before(s.order, x, y)
    ensures Before(s.order, a, b)
  {
    var x := LastBetween(s, t, regions, a, b, c);
    if x > a { WriterComesLater(s, t, regions, a, x, c); }
    if Fills(s, t, x, c) {
      assert FeedsAt(s, t, regions, x, b, c);
      assert Feeds(s, t, regions, x, b);
    } else {
      ReaderFollowsKernel(s, t, regions, x, b, c);
    }
    if x > a { BeforeTransitive(s.order, a, x, b); }
  }

  /** All clashing nodes complete in submission order if all transfers precede the readers they feed. */
  lemma ClashingNodesOrdered(s: State, t: Setup, regions: Regions, a: NodeId, b: NodeId)
    requires FromRun(s, regions) && Protocol(s, t, regions) && a < b
    requires OpsClash(NodeOp(s, t, regions, a), NodeOp(s, t, regions, b))
    requires forall x, y :: Feeds(s, t, regions, x, y) ==> Before(s.order, x, y)
    ensures Before(s.order, a, b)
  {
    var o, p := NodeOp(s, t, regions, a), NodeOp(s, t, regions, b);
    var c :| (c in o.writes && c in p.touches) || (c in o.touches && c in p.writes);
    if c in o.touches && c in p.writes {
      WriterComesLater(s, t, regions, a, b, c);
    } else if Fills(s, t, a, c) {
      ReaderFollows(s, t, regions, a, b, c);
    } else {
      ReaderFollowsKernel(s, t, regions, a, b, c);
    }
  }

  // ---------------------------------------------------------------------------------------------
  // Main results

  /** All nodes in submission order. */
  ghost function Submitted(s: State, t: Setup, regions: Regions): (os: seq<Op<Cell>>)
    ensures |os| == |s.g.reqs| && forall n: nat :: n < |os| ==> os[n] == NodeOp(s, t, regions, n)
  {
    seq(|s.g.reqs|, n requires 0 <= n < |s.g.reqs| => NodeOp(s, t, regions, n))
  }

  /** The completed nodes in the order of completion. */
  ghost function Completed(s: State, t: Setup, regions: Regions): (os: seq<Op<Cell>>)
    ensures |os| == |s.order| && forall l :: 0 <= l < |os| ==> os[l] == NodeOp(s, t, regions, s.order[l])
  {
    seq(|s.order|, l requires 0 <= l < |s.order| => NodeOp(s, t, regions, s.order[l]))
  }

  /** Every transfer precedes the readers of the copies it filled. */
  ghost predicate FedInOrder(s: State, t: Setup, regions: Regions) {
    forall x, y :: Feeds(s, t, regions, x, y) ==> Before(s.order, x, y)
  }

  lemma OrderIsDistinct(s: State, regions: Regions)
    requires FromRun(s, regions)
    ensures forall i, j :: 0 <= i < j < |s.order| ==> s.order[i] != s.order[j]
    ensures forall l :: 0 <= l < |s.order| ==> s.order[l] < |s.g.reqs|
  {
    var events :| IsRun(Init, events, regions, s);
    InitPlaced(regions);
    BuilderProofs.RunKeepsInv(Init, events, regions, s);
    forall l | 0 <= l < |s.order| ensures s.order[l] < |s.g.reqs| { assert s.order[l] in s.order; }
  }

  lemma ClashingInCompleted(s: State, t: Setup, regions: Regions, a: NodeId, l: nat)
    requires FromRun(s, regions) && Protocol(s, t, regions) && FedInOrder(s, t, regions)
    requires l < |s.order| && a < s.order[l] && OpsClash(NodeOp(s, t, regions, a), NodeOp(s, t, regions, s.order[l]))
    ensures NodeOp(s, t, regions, a) in Completed(s, t, regions)[..l]
  {
    ClashingNodesOrdered(s, t, regions, a, s.order[l]);
    assert a in s.order[..l];
    var q :| 0 <= q < l && s.order[q] == a;
    assert Completed(s, t, regions)[..l][q] == NodeOp(s, t, regions, a);
  }

  lemma CompletedRespects(s: State, t: Setup, regions: Regions)
    requires FromRun(s, regions) && Protocol(s, t, regions) && FedInOrder(s, t, regions)
    ensures Schedule.Respects(Completed(s, t, regions), Submitted(s, t, regions))
  {
    var done, subs := Completed(s, t, regions), Submitted(s, t, regions);
    OrderIsDistinct(s, regions);
    forall i: nat | i < |subs| ensures subs[i].writes <= subs[i].touches { NodeWritesTouch(s, t, regions, i); }
    forall l | 0 <= l < |done| ensures done[l] in subs { assert subs[s.order[l]] == done[l]; }
    forall i, j, l | 0 <= i < j < |subs| && OpsClash(subs[i], subs[j]) && 0 <= l < |done| && done[l] == subs[j]
      ensures subs[i] in done[..l]
    {
      assert done[l].id == s.order[l] == j;
      ClashingInCompleted(s, t, regions, i, l);
    }
  }

  lemma NodeWritesTouch(s: State, t: Setup, regions: Regions, n: NodeId)
    ensures NodeOp(s, t, regions, n).writes <= NodeOp(s, t, regions, n).touches
  {
    forall c | c in NodeOp(s, t, regions, n).writes ensures c in NodeOp(s, t, regions, n).touches {
      if NodeChanges(s, t, regions, n, c) {
        var j :| 0 <= j < |s.commands| && s.commands[j].node == n && Changes(s, t, regions, j, c);
        ChangeIsUse(s, t, regions, j, c);
      }
    }
  }

  /** Every completed node saw the contents it sees in submission order. */
  ghost predicate SeesSequential<V>(
    s: State, t: Setup, regions: Regions, k: Schedule.Kernel<Cell, V>, mem: map<Cell, V>) {
    var done, subs := Completed(s, t, regions), Submitted(s, t, regions);
    forall l :: 0 <= l < |done| && s.order[l] < |subs| ==>
      Schedule.Inputs(Schedule.After(k, mem, done[..l]), done[l]) ==
      Schedule.Inputs(Schedule.After(k, mem, subs[..s.order[l]]), done[l])
  }

  /** In every run in which transfers precede the readers they feed, each transfer and each kernel sees, in the
      copies it reads, the contents of submission order, and when everything is complete all copies have
      the contents of submission order. */
  lemma CopiesAreSerialisable<V>(s: State, t: Setup, regions: Regions, k: Schedule.Kernel<Cell, V>, mem: map<Cell, V>)
    requires FromRun(s, regions) && Protocol(s, t, regions) && FedInOrder(s, t, regions)
    ensures SeesSequential(s, t, regions, k, mem)
    ensures (forall n: nat :: n < |s.g.reqs| ==> n in s.order) ==>
              Schedule.After(k, mem, Completed(s, t, regions)) == Schedule.After(k, mem, Submitted(s, t, regions))
  {
    CompletedRespects(s, t, regions);
    RespectingInputs(s, t, regions, k, mem);
    if forall n: nat :: n < |s.g.reqs| ==> n in s.order { RespectingEnd(s, t, regions, k, mem); }
  }

  lemma RespectingInputs<V>(s: State, t: Setup, regions: Regions, k: Schedule.Kernel<Cell, V>, mem: map<Cell, V>)
    requires Schedule.Respects(Completed(s, t, regions), Submitted(s, t, regions))
    ensures SeesSequential(s, t, regions, k, mem)
  {
    var done, subs := Completed(s, t, regions), Submitted(s, t, regions);
    forall l | 0 <= l < |done| && s.order[l] < |subs|
      ensures Schedule.Inputs(Schedule.After(k, mem, done[..l]), done[l]) ==
              Schedule.Inputs(Schedule.After(k, mem, subs[..s.order[l]]), done[l])
    {
      SameInputs(k, mem, done, subs, l, s.order[l]);
    }
  }

  lemma RespectingEnd<V>(s: State, t: Setup, regions: Regions, k: Schedule.Kernel<Cell, V>, mem: map<Cell, V>)
    requires Schedule.Respects(Completed(s, t, regions), Submitted(s, t, regions))
    requires forall n: nat :: n < |s.g.reqs| ==> n in s.order
    ensures Schedule.After(k, mem, Completed(s, t, regions)) == Schedule.After(k, mem, Submitted(s, t, regions))
  {
    var done, subs := Completed(s, t, regions), Submitted(s, t, regions);
    forall o | o in subs ensures o in done {
      var n: nat :| n < |subs| && subs[n] == o;
      assert n in s.order;
      var l :| 0 <= l < |s.order| && s.order[l] == n;
      assert done[l] == o;
    }
    SameEnd(k, mem, done, subs);
  }

  /** The same for every run on lanes. */
  lemma LaneCopiesAreSerialisable<V>(
    lanes: nat, steps: seq<SysEvent>, regions: Regions, backend: Backends, y: Sys, t: Setup,
    k: Schedule.Kernel<Cell, V>, mem: map<Cell, V>)
    requires IsSysRun(Start(lanes), steps, regions, backend, y)
    requires Protocol(y.dag, t, regions) && FedInOrder(y.dag, t, regions)
    ensures SeesSequential(y.dag, t, regions, k, mem)
    ensures (forall n: nat :: n < |y.dag.g.reqs| ==> n in y.dag.order) ==>
              Schedule.After(k, mem, Completed(y.dag, t, regions)) == Schedule.After(k, mem,
                Submitted(y.dag, t, regions))
  {
    LanesProofs.StartInv(lanes, regions);
    var events := LanesProofs.SysRunRefines(Start(lanes), steps, regions, backend, y);
    assert FromRun(y.dag, regions);
    CopiesAreSerialisable(y.dag, t, regions, k, mem);
  }
}
