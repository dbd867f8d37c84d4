/** Submission of graph nodes to several in-order queues. The executor leaves out most waits; this
    module states the step system of queues and what it must guarantee
    (src/runtime/inorder_executor.cpp, src/runtime/dag_direct_scheduler.cpp, src/runtime/dag_node.cpp). */
module Lanes {
  import opened Dag
  import opened Builder

  type Lane = nat

  /** Queue entries; the ticket numbers the submission they belong to. */
  datatype Item = WaitFor(target: NodeId, ticket: nat) | Run(node: NodeId, ticket: nat)

  /** Where a node was submitted: virtually, or to a lane with an execution index, at a queue position. */
  datatype Place = Virtual | OnLane(lane: Lane, index: nat, pos: nat, ticket: nat)

  /** `queue[l]` is everything ever submitted to lane `l`, of which `head[l]` entries have been
      processed; `count[l]` is the number of operations submitted to the lane. */
  datatype Sys = Sys(dag: State, place: map<NodeId, Place>, queue: seq<seq<Item>>, head: seq<nat>,
                     count: seq<nat>, tickets: nat)

  /** Backend that each lane belongs to. */
  type Backends = nat -> nat

  function Start(lanes: nat): Sys {
    Sys(Init, map[], seq(lanes, l => []), seq(lanes, l => 0), seq(lanes, l => 0), 0)
  }

  predicate IsOnLane(place: map<NodeId, Place>, n: NodeId) {
    n in place && place[n].OnLane?
  }

  // ---------------------------------------------------------------------------------------------
  // Submission

  ghost predicate AllBelow(list: seq<NodeId>, n: NodeId) {
    forall i :: 0 <= i < |list| ==> list[i] < n
  }

  lemma RequirementsBelow(g: Graph, n: NodeId)
    requires EarlierOnly(g) && HasNode(g, n)
    ensures AllBelow(g.reqs[n], n)
  {
    assert forall i :: 0 <= i < |g.reqs[n]| ==> g.reqs[n][i] in g.reqs[n];
  }

  /** for_each_nonvirtual_requirement over a requirement list: virtual requirements are replaced by
      their own requirements, unless they are known to be complete. */
  function NonVirtual(g: Graph, place: map<NodeId, Place>, n: NodeId, list: seq<NodeId>): seq<NodeId>
    requires EarlierOnly(g) && AllBelow(list, n)
    decreases n, |list|
  {
    if list == [] then []
    else
      var r := list[|list| - 1];
      var rest := NonVirtual(g, place, n, list[..|list| - 1]);
      if r in g.dead then rest
      else if r in place && place[r].Virtual? && HasNode(g, r) then
        RequirementsBelow(g, r);
        if r in g.known then rest else rest + NonVirtual(g, place, r, g.reqs[r])
      else rest + [r]
  }

  /** The list handed to the executor: no duplicates, no nodes known to be complete. */
  function Compressed(list: seq<NodeId>, known: set<NodeId>): (c: seq<NodeId>)
    ensures forall r :: r in c <==> r in list && r !in known
    ensures forall i, j :: 0 <= i < j < |c| ==> c[i] != c[j]
    decreases |list|
  {
    if list == [] then []
    else
      var rest := Compressed(list[..|list| - 1], known);
      var r := list[|list| - 1];
      assert list == list[..|list| - 1] + [r];
      if r in known || r in rest then rest else rest + [r]
  }

  /** get_maximum_execution_index_for_lane. */
  function MaxIndex(place: map<NodeId, Place>, reqs: seq<NodeId>, lane: Lane): (m: nat)
    ensures forall r :: r in reqs && IsOnLane(place, r) && place[r].lane == lane ==> place[r].index <= m
    ensures m > 0 ==> exists r :: r in reqs && IsOnLane(place, r) && place[r].lane == lane && place[r].index == m
    decreases |reqs|
  {
    if reqs == [] then 0
    else
      var m := MaxIndex(place, reqs[..|reqs| - 1], lane);
      var r := reqs[|reqs| - 1];
      assert reqs == reqs[..|reqs| - 1] + [r];
      if IsOnLane(place, r) && place[r].lane == lane && place[r].index > m then place[r].index else m
  }

  /** Whether a wait is submitted for requirement `r`; `seen` are the nodes observed to be complete. */
  predicate NeedsWait(
    place: map<NodeId, Place>, backend: Backends, reqs: seq<NodeId>, lane: Lane, seen: set<NodeId>, r: NodeId) {
    r !in seen && IsOnLane(place, r) &&
    (backend(place[r].lane) != backend(lane) ||
     (place[r].lane != lane && place[r].index == MaxIndex(place, reqs, place[r].lane)))
  }

  /** The waits submitted for a prefix of the requirement list. */
  function Waits(
    place: map<NodeId, Place>, backend: Backends, reqs: seq<NodeId>, part: seq<NodeId>, lane: Lane, seen: set<NodeId>,
    ticket: nat): (w: seq<Item>)
    ensures forall i | 0 <= i < |w|
              :: w[i].WaitFor? && w[i].ticket == ticket && w[i].target in part &&
                 NeedsWait(place, backend, reqs, lane, seen, w[i].target)
    ensures forall r :: r in part && NeedsWait(place, backend, reqs, lane, seen, r) ==> WaitFor(r, ticket) in w
    decreases |part|
  {
    if part == [] then []
    else
      var rest := Waits(place, backend, reqs, part[..|part| - 1], lane, seen, ticket);
      var r := part[|part| - 1];
      assert part == part[..|part| - 1] + [r];
      if NeedsWait(place, backend, reqs, lane, seen, r) then rest + [WaitFor(r, ticket)] else rest
  }

  /** Requirements passed to the executor for node `n`. */
  function Requirements(y: Sys, n: NodeId): seq<NodeId>
    requires EarlierOnly(y.dag.g) && HasNode(y.dag.g, n)
  {
    RequirementsBelow(y.dag.g, n);
    Compressed(if n in y.dag.g.known then [] else NonVirtual(y.dag.g, y.place, n, y.dag.g.reqs[n]), y.dag.g.known)
  }

  /** submit_directly on lane `lane`. */
  function SubmitDirectly(y: Sys, backend: Backends, n: NodeId, lane: Lane, reqs: seq<NodeId>, seen: set<NodeId>): Sys
    requires lane < |y.queue| == |y.count|
  {
    var waits := Waits(y.place, backend, reqs, reqs, lane, seen, y.tickets);
    var q := y.queue[lane] + waits + [Run(n, y.tickets)];
    y.(place := y.place[n := OnLane(lane, y.count[lane] + 1, |q| - 1, y.tickets)],
       queue := y.queue[lane := q],
       count := y.count[lane := y.count[lane] + 1],
       tickets := y.tickets + 1)
  }

  // ---------------------------------------------------------------------------------------------
  // Completion of virtual nodes

  /** The multi-event of a virtual node completes as soon as all its requirements are complete. */
  predicate Completes(s: State, place: map<NodeId, Place>, n: NodeId) {
    HasNode(s.g, n) && n in place && place[n].Virtual? && n !in s.order && forall r :: r in s.g.reqs[n] ==> r in s.order
  }

  function Settle(s: State, place: map<NodeId, Place>, k: nat): State
    decreases k
  {
    if k == 0 then s
    else
      var s1 := Settle(s, place, k - 1);
      if Completes(s1, place, k - 1) then s1.(order := s1.order + [k - 1]) else s1
  }

  function SettleAll(y: Sys): Sys {
    y.(dag := Settle(y.dag, y.place, |y.dag.g.reqs|))
  }

  // ---------------------------------------------------------------------------------------------
  // Runs

  datatype SysEvent =
    | Host(e: Event)
    | SubmitOp(n: NodeId, lane: Lane, seen: set<NodeId>)
    | SubmitVirtual(n: NodeId)
    | Step(lane: Lane)

  predicate ReadyToSubmit(y: Sys, n: NodeId) {
    HasNode(y.dag.g, n) && n !in y.place && n !in y.dag.order &&
    forall r :: r in y.dag.g.reqs[n] ==> r in y.dag.g.dead || r in y.place
  }

  /** The entry at the head of a lane can be processed. */
  predicate CanStep(y: Sys, lane: Lane) {
    lane < |y.queue| && lane < |y.head| && y.head[lane] < |y.queue[lane]| &&
    (y.queue[lane][y.head[lane]].WaitFor? ==> y.queue[lane][y.head[lane]].target in y.dag.order)
  }

  /** A lane advances over its head entry; running an operation completes its node. */
  function Passed(y: Sys, lane: Lane): Sys
    requires CanStep(y, lane)
  {
    var item := y.queue[lane][y.head[lane]];
    y.(head := y.head[lane := y.head[lane] + 1],
       dag := if item.Run? then y.dag.(order := y.dag.order + [item.node]) else y.dag)
  }

  function StepLane(y: Sys, lane: Lane): Sys
    requires CanStep(y, lane)
  {
    if y.queue[lane][y.head[lane]].Run? then SettleAll(Passed(y, lane)) else Passed(y, lane)
  }

  ghost predicate SysEnabled(y: Sys, e: SysEvent, regions: Regions) {
    match e
    case Host(h) => !h.Execute? && Enabled(y.dag, h, regions)
    case SubmitOp(n, lane, seen) =>
      EarlierOnly(y.dag.g) && ReadyToSubmit(y, n) && lane < |y.queue| == |y.count| &&
      y.dag.g.known <= seen && forall m :: m in seen ==> m in y.dag.order
    case SubmitVirtual(n) => ReadyToSubmit(y, n)
    case Step(lane) => CanStep(y, lane)
  }

  ghost function SysApply(y: Sys, e: SysEvent, regions: Regions, backend: Backends): Sys
    requires SysEnabled(y, e, regions)
  {
    match e
    case Host(h) => y.(dag := Apply(y.dag, h, regions))
    case SubmitOp(n, lane, seen) => SubmitDirectly(y, backend, n, lane, Requirements(y, n), seen)
    case SubmitVirtual(n) => SettleAll(y.(place := y.place[n := Virtual]))
    case Step(lane) => StepLane(y, lane)
  }

  ghost predicate IsSysRun(y: Sys, events: seq<SysEvent>, regions: Regions, backend: Backends, y': Sys)
    decreases |events|
  {
    if events == [] then y' == y
    else
      SysEnabled(y, events[0], regions)
      && IsSysRun(SysApply(y, events[0], regions, backend), events[1..], regions, backend, y')
  }

  // ---------------------------------------------------------------------------------------------
  // Invariant

  /** Table, queue and completion set agree. */
  ghost predicate Places(y: Sys) {
    && |y.head| == |y.queue| == |y.count|
    && (forall l :: 0 <= l < |y.queue| ==> y.head[l] <= |y.queue[l]|)
    && (forall n :: n in y.place ==> HasNode(y.dag.g, n))
    && (forall n :: n in y.dag.order ==> n in y.place)
    && (forall v, x :: v in y.place && y.place[v].Virtual? && x in y.dag.g.reqs[v] ==> x in y.dag.order || x in y.place)
    && (forall n :: IsOnLane(y.place, n) ==>
          var p := y.place[n];
          && p.lane < |y.queue| && p.pos < |y.queue[p.lane]| && y.queue[p.lane][p.pos] == Run(n, p.ticket)
          && 0 < p.index <= y.count[p.lane] && (n in y.dag.order <==> p.pos < y.head[p.lane]))
    && (forall n, m | && IsOnLane(y.place, n) && IsOnLane(y.place, m) && y.place[n].lane == y.place[m].lane
                      && y.place[n].index <= y.place[m].index
          :: y.place[n].pos <= y.place[m].pos)
  }

  /** Every queue entry is accounted for, waits refer to earlier submissions and have held when passed. */
  ghost predicate Entries(y: Sys)
    requires |y.head| == |y.queue|
  {
    && (forall l, p :: 0 <= l < |y.queue| && 0 <= p < |y.queue[l]| ==> EntryOk(y, l, p))
    && (forall l, p, q :: 0 <= l < |y.queue| && 0 <= p <= q < |y.queue[l]| ==>
      y.queue[l][p].ticket <= y.queue[l][q].ticket)
  }

  ghost predicate EntryOk(y: Sys, l: Lane, p: nat)
    requires l < |y.queue| == |y.head| && p < |y.queue[l]|
  {
    y.queue[l][p].ticket < y.tickets &&
    match y.queue[l][p]
    case WaitFor(w, t) => IsOnLane(y.place, w) && y.place[w].ticket < t && (p < y.head[l] ==> w in y.dag.order)
    case Run(n, t) => IsOnLane(y.place, n) && y.place[n].lane == l && y.place[n].pos == p && y.place[n].ticket == t
  }

  /** Reaching position `pos` of lane `l` implies that `r` is complete. */
  ghost predicate Guarded(y: Sys, l: Lane, pos: nat, r: NodeId)
    requires EarlierOnly(y.dag.g) && l < |y.queue| && pos <= |y.queue[l]|
    decreases r
  {
    r in y.dag.order ||
    (r in y.place &&
     match y.place[r]
     case Virtual => HasNode(y.dag.g, r) && forall x :: x in y.dag.g.reqs[r] ==> Guarded(y, l, pos, x)
     case OnLane(rl, _, rp, _) =>
       (rl == l && rp < pos) ||
       exists q :: 0 <= q < pos && y.queue[l][q].WaitFor? && IsOnLane(y.place, y.queue[l][q].target) &&
         y.place[y.queue[l][q].target].lane == rl && rp <= y.place[y.queue[l][q].target].pos)
  }

  ghost predicate RequirementsGuarded(y: Sys)
    requires EarlierOnly(y.dag.g) && Places(y)
  {
    forall n: NodeId, r :: IsOnLane(y.place, n) && r in y.dag.g.reqs[n] ==>
      Guarded(y, y.place[n].lane, y.place[n].pos, r)
  }

  /** Virtual nodes complete together with the last of their requirements. */
  ghost predicate Settled(y: Sys) {
    forall n :: n in y.place ==> !Completes(y.dag, y.place, n)
  }

  ghost predicate SysInv(y: Sys, regions: Regions) {
    Inv(y.dag, regions) && Places(y) && Entries(y) && RequirementsGuarded(y) && Settled(y)
  }
}
