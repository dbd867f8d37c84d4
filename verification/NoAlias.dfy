/** Inference of restrict semantics for pointer arguments of a kernel
    (src/runtime/adaptivity_engine.cpp, src/runtime/allocation_tracker.cpp). */
module NoAlias {
  import opened Words
  import opened AllocTree
  import opened AllocLookup
  import opened AllocMap

  const MAX_ALLOCATIONS: nat := 32
  const POINTER_SIZE: nat := 8

  /** A kernel parameter; pointer parameters carry their size and the 64-bit argument value. */
  datatype Param = Pointer(size: nat, value: nat) | Other

  ghost predicate Legal(params: seq<Param>) {
    forall i | 0 <= i < |params| && params[i].Pointer? :: params[i].value < WORD
  }

  /** `b` is the base of the tracked allocation that contains the address `v`. */
  ghost predicate Owner<P>(root: Node<P>, b: nat, v: nat)
    requires Shape(root, ROOT_LEVEL)
  {
    Contains(root, ROOT_LEVEL, 0, b, v)
  }

  /** The base address found for a pointer parameter; 0 stands for "not tracked". */
  ghost function BaseOf<P>(root: Node<P>, p: Param): nat
    requires Shape(root, ROOT_LEVEL)
  {
    if p.Pointer? && p.size == POINTER_SIZE && p.value != 0 && exists b: nat :: Owner(root, b, p.value) then
      var b: nat :| Owner(root, b, p.value);
      b
    else 0
  }

  /** The bases of the pointer parameters, in order. */
  ghost function Bases<P>(root: Node<P>, params: seq<Param>): (bs: seq<nat>)
    requires Shape(root, ROOT_LEVEL)
  {
    if params == [] then []
    else
      var before, last := Bases(root, params[..|params| - 1]), params[|params| - 1];
      if last.Pointer? then before + [BaseOf(root, last)] else before
  }

  lemma BasesStep<P>(root: Node<P>, params: seq<Param>, i: nat)
    requires Shape(root, ROOT_LEVEL) && i < |params|
    ensures Bases(root, params[..i + 1]) ==
            if params[i].Pointer? then Bases(root, params[..i]) + [BaseOf(root, params[i])]
              else Bases(root, params[..i])
  {
    assert params[..i + 1][..i] == params[..i];
  }

  /** Slots of earlier parameters do not change when more parameters follow. */
  lemma {:induction false} BasesPrefix<P>(root: Node<P>, params: seq<Param>, i: nat, j: nat)
    requires Shape(root, ROOT_LEVEL) && i <= j <= |params|
    ensures Bases(root, params[..i]) <= Bases(root, params[..j])
    decreases j
  {
    if i < j {
      BasesPrefix(root, params, i, j - 1);
      BasesStep(root, params, j - 1);
    }
  }

  /** The slot of pointer parameter `i` holds its base. */
  lemma SlotOf<P>(root: Node<P>, params: seq<Param>, i: nat)
    requires Shape(root, ROOT_LEVEL) && i < |params| && params[i].Pointer?
    ensures var k, bs := |Bases(root, params[..i])|, Bases(root, params); k < |bs| && bs[k] == BaseOf(root, params[i])
  {
    BasesStep(root, params, i);
    BasesPrefix(root, params, i + 1, |params|);
    assert params[..|params|] == params;
  }

  /** Every slot belongs to one pointer parameter. */
  lemma {:induction false} ParamOf<P>(root: Node<P>, params: seq<Param>, k: nat) returns (i: nat)
    requires Shape(root, ROOT_LEVEL) && k < |Bases(root, params)|
    ensures i < |params| && params[i].Pointer? && |Bases(root, params[..i])| == k
  {
    var n := |params| - 1;
    assert params[..n + 1] == params;
    BasesStep(root, params, n);
    if k < |Bases(root, params[..n])| {
      i := ParamOf(root, params[..n], k);
      assert params[..n][..i] == params[..i];
    } else {
      i := n;
    }
  }

  lemma SlotsDiffer<P>(root: Node<P>, params: seq<Param>, i: nat, j: nat)
    requires Shape(root, ROOT_LEVEL) && i < |params| && j < |params| && i != j && params[i].Pointer?
    requires params[j].Pointer?
    ensures |Bases(root, params[..i])| != |Bases(root, params[..j])|
  {
    var lo, hi := if i < j then i else j, if i < j then j else i;
    BasesStep(root, params, lo);
    BasesPrefix(root, params, lo + 1, hi);
  }

  /** Parameter `i` is the only pointer into its tracked allocation. */
  ghost predicate SoleUser<P>(root: Node<P>, params: seq<Param>, i: nat)
    requires Shape(root, ROOT_LEVEL) && i < |params|
  {
    && params[i].Pointer? && BaseOf(root, params[i]) != 0
    && forall j: nat | j < |params| && j != i && params[j].Pointer? ::
      BaseOf(root, params[j]) != BaseOf(root, params[i])
  }

  /** The slot of a sole user differs from all other slots, and conversely. */
  lemma SoleUserIff<P>(root: Node<P>, params: seq<Param>, i: nat)
    requires Shape(root, ROOT_LEVEL) && i < |params| && params[i].Pointer? && BaseOf(root, params[i]) != 0
    ensures var k, bs := |Bases(root, params[..i])|, Bases(root, params);
            k < |bs| && bs[k] == BaseOf(root, params[i]) &&
            (SoleUser(root, params, i) <==> forall l | 0 <= l < |bs| && l != k :: bs[l] != bs[k])
  {
    var k, bs := |Bases(root, params[..i])|, Bases(root, params);
    SlotOf(root, params, i);
    if SoleUser(root, params, i) {
      forall l: nat | l < |bs| && l != k ensures bs[l] != bs[k] {
        var j := ParamOf(root, params, l);
        SlotOf(root, params, j);
      }
    } else {
      var j: nat :| j < |params| && j != i && params[j].Pointer? && BaseOf(root, params[j]) == BaseOf(root, params[i]);
      SlotOf(root, params, j);
      SlotsDiffer(root, params, i, j);
    }
  }

  /** The first loop: one slot per pointer parameter, given up once all slots are taken. */
  method CollectBases<P>(tracker: AllocationMap<P>, params: seq<Param>) returns (slots: array<nat>, exceeded: bool)
    requires tracker.Valid() && Legal(params)
    ensures fresh(slots) && slots.Length == MAX_ALLOCATIONS && tracker.Valid()
    ensures var bs := Bases(tracker.root, params);
            && (exceeded <==> |bs| >= MAX_ALLOCATIONS)
            && (!exceeded ==> SlotsHold(slots[..], bs))
  {
    slots := new nat[MAX_ALLOCATIONS](_ => 0);
    ghost var root := tracker.root;
    exceeded := false;
    var index: nat := 0;
    assert params[..0] == [];
    for i := 0 to |params|
      invariant index < MAX_ALLOCATIONS && index == |Bases(root, params[..i])|
      invariant forall k :: 0 <= k < MAX_ALLOCATIONS ==>
                  slots[k] == if k < index then Bases(root, params[..i])[k] else 0
    {
      BasesStep(root, params, i);
      if params[i].Pointer? {
        var base := Lookup(tracker, params[i]);
        slots[index] := base;
        index := index + 1;
        if index >= MAX_ALLOCATIONS {
          BasesPrefix(root, params, i + 1, |params|);
          assert params[..|params|] == params;
          exceeded := true;
          return;
        }
      }
    }
    assert params[..|params|] == params;
  }

  /** query_allocation for a pointer argument. */
  method Lookup<P>(tracker: AllocationMap<P>, p: Param) returns (base: nat)
    requires tracker.Valid() && p.Pointer? && p.value < WORD
    ensures base == BaseOf(tracker.root, p)
  {
    base := 0;
    if p.size == POINTER_SIZE && p.value != 0 {
      var r, found := tracker.GetEntry(p.value);
      assert forall b: nat :: tracker.Owns(b, p.value) <==> Owner(tracker.root, b, p.value);
      if r.Hit? {
        base := found;
      }
    }
  }

  /** The comparison loop: no other slot holds the same base. */
  method IsUnique(slots: array<nat>, index: nat) returns (unique: bool)
    requires index < slots.Length
    ensures unique <==> forall k :: 0 <= k < slots.Length && k != index ==> slots[k] != slots[index]
  {
    for k := 0 to slots.Length
      invariant forall l :: 0 <= l < k && l != index ==> slots[l] != slots[index]
    {
      if k != index && slots[index] == slots[k] {
        return false;
      }
    }
    unique := true;
  }

  /** The slots hold the bases of the pointer parameters, and 0 behind them. */
  ghost predicate SlotsHold(slots: seq<nat>, bs: seq<nat>) {
    |bs| <= |slots| && forall k :: 0 <= k < |slots| ==> slots[k] == if k < |bs| then bs[k] else 0
  }

  /** Uniqueness among all slots is uniqueness among the pointer parameters. */
  lemma UniqueSlotIff<P>(root: Node<P>, params: seq<Param>, i: nat, slots: seq<nat>)
    requires Shape(root, ROOT_LEVEL) && i < |params| && params[i].Pointer? && SlotsHold(slots, Bases(root, params))
    ensures var k := |Bases(root, params[..i])|;
            k < |slots| && (slots[k] != 0 && (forall l :: 0 <= l < |slots| && l != k ==> slots[l] != slots[k]) <==>
              SoleUser(root, params, i))
  {
    SlotOf(root, params, i);
    if BaseOf(root, params[i]) != 0 { SoleUserIff(root, params, i); }
  }

  method Decide(slots: array<nat>, index: nat) returns (flag: bool)
    requires index < slots.Length
    ensures flag <==> slots[index] != 0 && forall l :: 0 <= l < slots.Length && l != index ==> slots[l] != slots[index]
  {
    flag := false;
    if slots[index] != 0 {
      flag := IsUnique(slots, index);
    }
  }

  /** The flags set: exactly the sole users, when there are fewer pointer parameters than slots. */
  method InferNoAlias<P>(tracker: AllocationMap<P>, params: seq<Param>) returns (flags: seq<bool>)
    requires tracker.Valid() && Legal(params)
    ensures |flags| == |params|
    ensures forall i :: 0 <= i < |params| ==>
              (flags[i] <==> |Bases(tracker.root, params)| < MAX_ALLOCATIONS && SoleUser(tracker.root, params, i))
    ensures forall i :: 0 <= i < |params| ==>
              (flags[i] <==> Pointers(params) < 32 && OwnedAlone(tracker.root, params, i))
  {
    flags := DecideAll(tracker, params);
    BasesCount(tracker.root, params);
    forall i: nat | i < |params| ensures SoleUser(tracker.root, params, i) <==> OwnedAlone(tracker.root, params, i) {
      SoleIffOwnedAlone(tracker.root, params, i);
    }
  }

  /** The number of pointer parameters. */
  function Pointers(params: seq<Param>): nat {
    if params == [] then 0 else Pointers(params[..|params| - 1]) + if params[|params| - 1].Pointer? then 1 else 0
  }

  lemma {:induction false} BasesCount<P>(root: Node<P>, params: seq<Param>)
    requires Shape(root, ROOT_LEVEL)
    ensures |Bases(root, params)| == Pointers(params)
    decreases |params|
  {
    if params != [] { BasesCount(root, params[..|params| - 1]); }
  }

  /** Parameter `i` is a pointer of full size into a tracked allocation with a base other than 0, and no
      other pointer of full size points into that allocation. */
  ghost predicate OwnedAlone<P>(root: Node<P>, params: seq<Param>, i: nat)
    requires Shape(root, ROOT_LEVEL) && i < |params|
  {
    && params[i].Pointer? && params[i].size == POINTER_SIZE
    && exists b: nat :: b != 0 && Owner(root, b, params[i].value) && OnlyOne(root, params, i, b)
  }

  ghost predicate OnlyOne<P>(root: Node<P>, params: seq<Param>, i: nat, b: nat)
    requires Shape(root, ROOT_LEVEL)
  {
    forall j: nat | j < |params| && j != i && params[j].Pointer? && params[j].size == POINTER_SIZE ::
      !Owner(root, b, params[j].value)
  }

  /** The base is that of the allocation the pointer lies in. */
  lemma BaseIsOwner<P>(root: Node<P>, p: Param, b: nat)
    requires Shape(root, ROOT_LEVEL) && Ranges(root, ROOT_LEVEL, 0) && p.Pointer? && p.size == POINTER_SIZE && b != 0
    ensures BaseOf(root, p) == b <==> Owner(root, b, p.value)
  {
    if Owner(root, b, p.value) { OwnerUnique(root, p.value, b, BaseOf(root, p)); }
  }

  lemma SoleIffOwnedAlone<P>(root: Node<P>, params: seq<Param>, i: nat)
    requires Shape(root, ROOT_LEVEL) && Ranges(root, ROOT_LEVEL, 0) && i < |params|
    ensures SoleUser(root, params, i) <==> OwnedAlone(root, params, i)
  {
    forall j: nat, b: nat | j < |params| && params[j].Pointer? && params[j].size == POINTER_SIZE && b != 0
      ensures BaseOf(root, params[j]) == b <==> Owner(root, b, params[j].value)
    {
      BaseIsOwner(root, params[j], b);
    }
    if SoleUser(root, params, i) {
      var b := BaseOf(root, params[i]);
      assert Owner(root, b, params[i].value) && OnlyOne(root, params, i, b);
    }
    if OwnedAlone(root, params, i) {
      var b: nat :| b != 0 && Owner(root, b, params[i].value) && OnlyOne(root, params, i, b);
      assert BaseOf(root, params[i]) == b;
    }
  }

  /** The second loop: a decision for every parameter. */
  method DecideAll<P>(tracker: AllocationMap<P>, params: seq<Param>) returns (flags: seq<bool>)
    requires tracker.Valid() && Legal(params)
    ensures |flags| == |params|
    ensures forall i :: 0 <= i < |params| ==>
              (flags[i] <==> |Bases(tracker.root, params)| < MAX_ALLOCATIONS && SoleUser(tracker.root, params, i))
  {
    var slots, exceeded := CollectBases(tracker, params);
    ghost var root, held := tracker.root, slots[..];
    flags := [];
    if exceeded {
      flags := seq(|params|, _ => false);
      return;
    }
    var index: nat := 0;
    assert params[..0] == [];
    for i := 0 to |params|
      invariant index == |Bases(root, params[..i])| && slots[..] == held
      invariant |flags| == i && forall j :: 0 <= j < i ==> (flags[j] <==> SoleUser(root, params, j))
      modifies {}
    {
      var flag := false;
      BasesStep(root, params, i);
      if params[i].Pointer? {
        UniqueSlotIff(root, params, i, held);
        flag := Decide(slots, index);
        index := index + 1;
      }
      flags := flags + [flag];
    }
  }

  /** Soundness: no other pointer-sized pointer argument lies in the allocation of a flagged one. */
  lemma FlaggedDoesNotAlias<P>(root: Node<P>, params: seq<Param>, i: nat, j: nat, b: nat)
    requires Shape(root, ROOT_LEVEL) && Ranges(root, ROOT_LEVEL, 0) && i < |params| && j < |params| && i != j
    requires SoleUser(root, params, i) && params[j].Pointer? && params[j].size == POINTER_SIZE
    ensures !(Owner(root, b, params[i].value) && Owner(root, b, params[j].value))
  {
    if Owner(root, b, params[i].value) && Owner(root, b, params[j].value) {
      OwnerUnique(root, params[i].value, b, BaseOf(root, params[i]));
      if params[j].value != 0 {
        OwnerUnique(root, params[j].value, b, BaseOf(root, params[j]));
      }
    }
  }

  lemma OwnerUnique<P>(root: Node<P>, v: nat, b: nat, b': nat)
    requires Shape(root, ROOT_LEVEL) && Ranges(root, ROOT_LEVEL, 0) && Owner(root, b, v) && Owner(root, b', v)
    ensures b == b'
  {
  }
}
