/** The executor object that appends waits and operations to its queues, proved to perform exactly
    the submission of module Lanes (src/runtime/inorder_executor.cpp,
    src/runtime/dag_direct_scheduler.cpp). */
module LaneExecutor {
  import opened Dag
  import opened Builder
  import opened Lanes

  class Executor {
    var dag: State
    var place: map<NodeId, Place>
    var queue: seq<seq<Item>>
    var head: seq<nat>
    var count: seq<nat>
    var tickets: nat
    const backend: Backends

    function Value(): Sys
      reads this
    {
      Sys(dag, place, queue, head, count, tickets)
    }

    constructor (lanes: nat, backend: Backends)
      ensures Value() == Start(lanes) && this.backend == backend
    {
      dag, place, tickets := Init, map[], 0;
      queue, head, count := seq(lanes, l => []), seq(lanes, l => 0), seq(lanes, l => 0);
      this.backend := backend;
    }

    /** get_maximum_execution_index_for_lane. */
    method MaximumExecutionIndexForLane(reqs: seq<NodeId>, lane: Lane) returns (index: nat)
      ensures index == MaxIndex(place, reqs, lane)
    {
      index := 0;
      for i := 0 to |reqs|
        invariant index == MaxIndex(place, reqs[..i], lane)
      {
        assert reqs[..i + 1][..i] == reqs[..i];
        if reqs[i] in place && place[reqs[i]].OnLane? && place[reqs[i]].lane == lane {
          if place[reqs[i]].index > index { index := place[reqs[i]].index; }
        }
      }
      assert reqs[..|reqs|] == reqs;
    }

    /** The synchronization with one requirement. */
    method Synchronize(lane: Lane, reqs: seq<NodeId>, seen: set<NodeId>, r: NodeId) returns (items: seq<Item>)
      ensures items == if NeedsWait(place, backend, reqs, lane, seen, r) then [WaitFor(r, tickets)] else []
    {
      items := [];
      if r !in seen && r in place && place[r].OnLane? {
        if backend(place[r].lane) != backend(lane) {
          items := [WaitFor(r, tickets)];
        } else if place[r].lane != lane {
          var index := MaximumExecutionIndexForLane(reqs, place[r].lane);
          if place[r].index == index {
            items := [WaitFor(r, tickets)];
          }
        }
      }
    }

    /** The waits submitted before an operation with requirements `reqs`. */
    method SynchronizeAll(lane: Lane, reqs: seq<NodeId>, seen: set<NodeId>) returns (items: seq<Item>)
      ensures items == Waits(place, backend, reqs, reqs, lane, seen, tickets)
    {
      items := [];
      for i := 0 to |reqs|
        invariant items == Waits(place, backend, reqs, reqs[..i], lane, seen, tickets)
      {
        assert reqs[..i + 1][..i] == reqs[..i];
        var more := Synchronize(lane, reqs, seen, reqs[i]);
        items := items + more;
      }
      assert reqs[..|reqs|] == reqs;
    }

    /** inorder_executor::submit_directly: the waits that are needed, then the operation. */
    method SubmitToLane(n: NodeId, lane: Lane, reqs: seq<NodeId>, seen: set<NodeId>)
      requires lane < |queue| == |count|
      modifies this
      ensures Value() == SubmitDirectly(old(Value()), backend, n, lane, reqs, seen)
    {
      count := count[lane := count[lane] + 1];
      var items := SynchronizeAll(lane, reqs, seen);
      queue := queue[lane := queue[lane] + items + [Run(n, tickets)]];
      place := place[n := OnLane(lane, count[lane], |queue[lane]| - 1, tickets)];
      tickets := tickets + 1;
    }

    /** for_each_nonvirtual_requirement with a handler that appends to a list: a virtual requirement
        that is not known to be complete hands over its own requirements. */
    method CollectNonVirtual(n: NodeId, list: seq<NodeId>) returns (all: seq<NodeId>)
      requires EarlierOnly(dag.g) && AllBelow(list, n)
      ensures all == NonVirtual(dag.g, place, n, list)
      decreases n
    {
      all := [];
      for i := 0 to |list|
        invariant AllBelow(list[..i], n) && all == NonVirtual(dag.g, place, n, list[..i])
      {
        assert list[..i + 1][..i] == list[..i];
        var r := list[i];
        if r !in dag.g.dead {
          if r in place && place[r].Virtual? && HasNode(dag.g, r) {
            RequirementsBelow(dag.g, r);
            if r !in dag.g.known {
              var more := CollectNonVirtual(r, dag.g.reqs[r]);
              all := all + more;
            }
          } else {
            all := all + [r];
          }
        }
      }
      assert list[..|list|] == list;
    }

    /** submit of the direct scheduler: collect the non-virtual requirements without duplicates,
        drop those known to be complete, and hand the rest to the executor. */
    method Submit(n: NodeId, lane: Lane, seen: set<NodeId>)
      requires lane < |queue| == |count| && EarlierOnly(dag.g) && HasNode(dag.g, n)
      modifies this
      ensures Value() == SubmitDirectly(old(Value()), backend, n, lane, Requirements(old(Value()), n), seen)
    {
      RequirementsBelow(dag.g, n);
      var all := [];
      if n !in dag.g.known {
        all := CollectNonVirtual(n, dag.g.reqs[n]);
      }
      var reqs := [];
      for i := 0 to |all|
        invariant Value() == old(Value()) && reqs == Compressed(all[..i], dag.g.known)
      {
        assert all[..i + 1][..i] == all[..i];
        if all[i] !in reqs && all[i] !in dag.g.known { reqs := reqs + [all[i]]; }
      }
      assert all[..|all|] == all;
      SubmitToLane(n, lane, reqs, seen);
    }
  }
}
