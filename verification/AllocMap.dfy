/** The allocation map object: one operation at a time, and whole histories of operations
    (include/hipSYCL/common/allocation_map.hpp). */
module AllocMap {
  import opened Words
  import opened AllocTree
  import opened AllocLookup

  lemma RootSpan()
    ensures Pow16(ROOT_LEVEL + 1) == WORD
  {
    assert Pow16(4) == 0x1_0000;
    assert Pow16(8) == 0x1_0000 * Pow16(4);
    assert Pow16(12) == 0x1_0000 * Pow16(8);
    assert Pow16(16) == 0x1_0000 * Pow16(12);
  }

  /** Inserting changes one address of the whole tree. */
  lemma InsertAt<P>(n: Node<P>, address: nat, v: Value<P>, b: nat)
    requires Shape(n, ROOT_LEVEL) && v.size > 0 && address < WORD && b < WORD
    ensures var (n', ok) := Insert(n, ROOT_LEVEL, address, v);
            && Shape(n', ROOT_LEVEL) && (ok <==> SlotAt(n, ROOT_LEVEL, address).Free?)
            && SlotAt(n', ROOT_LEVEL, b) == if ok && b == address then Used(v) else SlotAt(n, ROOT_LEVEL, b)
  {
    InsertShape(n, ROOT_LEVEL, address, v);
    if Insert(n, ROOT_LEVEL, address, v).1 {
      InsertSlots(n, ROOT_LEVEL, address, v, b);
      RootSpan();
      AgreeIsEqual(b, address, ROOT_LEVEL);
    }
  }

  lemma EraseAt<P>(n: Node<P>, address: nat, b: nat)
    requires Shape(n, ROOT_LEVEL) && address < WORD && b < WORD
    ensures var (n', ok) := Erase(n, ROOT_LEVEL, address);
            && Shape(n', ROOT_LEVEL) && (ok <==> SlotAt(n, ROOT_LEVEL, address).Used?)
            && SlotAt(n', ROOT_LEVEL, b) == if b == address then Free else SlotAt(n, ROOT_LEVEL, b)
  {
    EraseShape(n, ROOT_LEVEL, address);
    EraseSlots(n, ROOT_LEVEL, address, b);
    RootSpan();
    AgreeIsEqual(b, address, ROOT_LEVEL);
  }

  /** The new range does not overlap an allocation at another address. */
  ghost predicate Apart<P>(n: Node<P>, address: nat, size: nat)
    requires Shape(n, ROOT_LEVEL)
  {
    forall a: nat | a < WORD && a != address && SlotAt(n, ROOT_LEVEL, a).Used? ::
      a + SlotAt(n, ROOT_LEVEL, a).value.size <= address || address + size <= a
  }

  lemma InsertEverywhere<P>(n: Node<P>, address: nat, v: Value<P>)
    requires Shape(n, ROOT_LEVEL) && v.size > 0 && address + v.size < WORD && Ranges(n, ROOT_LEVEL, 0)
    requires Apart(n, address, v.size)
    ensures var (n', ok) := Insert(n, ROOT_LEVEL, address, v);
            && Shape(n', ROOT_LEVEL) && (ok <==> SlotAt(n, ROOT_LEVEL, address).Free?) && Ranges(n', ROOT_LEVEL, 0)
            && forall a: nat | a < WORD ::
                 SlotAt(n', ROOT_LEVEL, a) == if ok && a == address then Used(v) else SlotAt(n, ROOT_LEVEL, a)
  {
    InsertShape(n, ROOT_LEVEL, address, v);
    RootSpan();
    var n' := Insert(n, ROOT_LEVEL, address, v).0;
    forall a: nat | a < WORD
      ensures SlotAt(n', ROOT_LEVEL, a) ==
              if Insert(n, ROOT_LEVEL, address, v).1 && a == address then Used(v) else SlotAt(n, ROOT_LEVEL, a)
    {
      InsertAt(n, address, v, a);
    }
    forall a: nat, b: nat | Holds(n', ROOT_LEVEL, 0, a) && Holds(n', ROOT_LEVEL, 0, b) && a < b
      ensures a + SlotAt(n', ROOT_LEVEL, a).value.size <= b
    {
      assert a != address ==> Holds(n, ROOT_LEVEL, 0, a);
      assert b != address ==> Holds(n, ROOT_LEVEL, 0, b);
    }
    forall a: nat | Holds(n', ROOT_LEVEL, 0, a) ensures a + SlotAt(n', ROOT_LEVEL, a).value.size < WORD {
      assert a != address ==> Holds(n, ROOT_LEVEL, 0, a);
    }
  }

  lemma EraseEverywhere<P>(n: Node<P>, address: nat)
    requires Shape(n, ROOT_LEVEL) && address < WORD && Ranges(n, ROOT_LEVEL, 0)
    ensures var (n', ok) := Erase(n, ROOT_LEVEL, address);
            && Shape(n', ROOT_LEVEL) && (ok <==> SlotAt(n, ROOT_LEVEL, address).Used?) && Ranges(n', ROOT_LEVEL, 0)
            && forall a: nat | a < WORD :: SlotAt(n', ROOT_LEVEL, a) == if a == address then Free
              else SlotAt(n, ROOT_LEVEL, a)
  {
    EraseShape(n, ROOT_LEVEL, address);
    RootSpan();
    var n' := Erase(n, ROOT_LEVEL, address).0;
    forall a: nat | a < WORD
      ensures SlotAt(n', ROOT_LEVEL, a) == if a == address then Free else SlotAt(n, ROOT_LEVEL, a)
    {
      EraseAt(n, address, a);
    }
    forall a: nat | Holds(n', ROOT_LEVEL, 0, a)
      ensures Holds(n, ROOT_LEVEL, 0, a) && SlotAt(n', ROOT_LEVEL, a) == SlotAt(n, ROOT_LEVEL, a)
    {
    }
  }

  class AllocationMap<P> {
    var root: Node<P>

    ghost predicate Valid()
      reads this
    {
      Shape(root, ROOT_LEVEL) && Ranges(root, ROOT_LEVEL, 0)
    }

    /** The entry registered at base address `a`. */
    ghost function At(a: nat): Slot<P>
      requires Valid()
      reads this
    {
      SlotAt(root, ROOT_LEVEL, a)
    }

    /** `a` is the base of a registered allocation that contains `address`. */
    ghost predicate Owns(a: nat, address: nat)
      requires Valid()
      reads this
    {
      Contains(root, ROOT_LEVEL, 0, a, address)
    }

    constructor ()
      ensures Valid() && forall a: nat :: At(a) == Free
    {
      root := EmptyNode(ROOT_LEVEL);
      EmptyNodeShape<P>(ROOT_LEVEL);
    }

    /** get_entry is the interval query: the unique registered allocation containing the address
        with its base, or a miss with base 0. */
    method GetEntry(address: nat) returns (r: Lookup<P>, base: nat)
      requires Valid() && address < WORD
      ensures r.Hit? <==> exists a: nat :: Owns(a, address)
      ensures r.Hit? ==> base == r.base && At(base) == Used(r.value) && forall a: nat :: Owns(a, address) <==> a == base
      ensures r.Miss? ==> base == 0
    {
      RootSpan();
      var attempts;
      r, attempts := Search(root, ROOT_LEVEL, address, 0, 0);
      match r {
        case Hit(a, value) =>
          base := a;
          assert Owns(a, address);
        case Miss => base := 0;
      }
    }

    /** get_entry_of_root_address: unlike get_entry, finds an allocation by its base address only. */
    method GetEntryOfRootAddress(address: nat) returns (s: Slot<P>)
      requires Valid() && address < WORD
      ensures s.Used? <==> exists x: nat :: Owns(address, x)
      ensures s.Used? ==> forall x: nat :: Owns(address, x) <==> address <= x < address + s.value.size
      ensures s == At(address)
    {
      var n := root;
      var level: nat := ROOT_LEVEL;
      while level > 0
        invariant level <= ROOT_LEVEL && Shape(n, level) && SlotAt(n, level, address) == At(address)
      {
        match n.children[IndexIn(address, level)] {
          case Null => return Free;
          case Ptr(child) => n, level := child, level - 1;
        }
      }
      s := n.entries[IndexIn(address, 0)];
      RootSpan();
      assert s.Used? ==> Owns(address, address);
    }

    /** insert: the range must not overlap other allocations and must not wrap around. */
    method InsertEntry(address: nat, v: Value<P>) returns (ok: bool)
      requires Valid() && v.size > 0 && address + v.size < WORD
      requires Apart(root, address, v.size)
      modifies this
      ensures Valid() && ok == old(At(address)).Free?
      ensures forall a: nat | a < WORD :: At(a) == if ok && a == address then Used(v) else old(At(a))
    {
      InsertEverywhere(root, address, v);
      var (n', done) := Insert(root, ROOT_LEVEL, address, v);
      root, ok := n', done;
    }

    method EraseEntry(address: nat) returns (ok: bool)
      requires Valid() && address < WORD
      modifies this
      ensures Valid() && ok == old(At(address)).Used?
      ensures forall a: nat | a < WORD :: At(a) == if a == address then Free else old(At(a))
    {
      EraseEverywhere(root, address);
      var (n', done) := Erase(root, ROOT_LEVEL, address);
      root, ok := n', done;
    }
  }

  // ---------------------------------------------------------------------------------------------
  // Histories

  datatype Op<P> = InsertOp(address: nat, value: Value<P>) | EraseOp(address: nat)

  predicate Legal<P>(op: Op<P>) {
    op.address < WORD && (op.InsertOp? ==> op.value.size > 0)
  }

  /** What an operation means for a plain map. */
  function OnMap<P>(m: map<nat, Value<P>>, op: Op<P>): map<nat, Value<P>> {
    match op
    case InsertOp(address, v) => if address in m then m else m[address := v]
    case EraseOp(address) => m - {address}
  }

  function Replay<P>(ops: seq<Op<P>>): map<nat, Value<P>> {
    if ops == [] then map[] else OnMap(Replay(ops[..|ops| - 1]), ops[|ops| - 1])
  }

  function OnTree<P>(n: Node<P>, op: Op<P>): Node<P>
    requires Shape(n, ROOT_LEVEL)
  {
    match op
    case InsertOp(address, v) => Insert(n, ROOT_LEVEL, address, v).0
    case EraseOp(address) => Erase(n, ROOT_LEVEL, address).0
  }

  lemma OnTreeShape<P>(n: Node<P>, op: Op<P>)
    requires Shape(n, ROOT_LEVEL) && Legal(op)
    ensures Shape(OnTree(n, op), ROOT_LEVEL)
  {
    match op
    case InsertOp(address, v) => InsertShape(n, ROOT_LEVEL, address, v);
    case EraseOp(address) => EraseShape(n, ROOT_LEVEL, address);
  }

  /** The tree that a history leaves. */
  function Built<P>(ops: seq<Op<P>>): (n: Node<P>)
    requires forall op :: op in ops ==> Legal(op)
    ensures Shape(n, ROOT_LEVEL)
  {
    if ops == [] then
      EmptyNodeShape<P>(ROOT_LEVEL);
      EmptyNode(ROOT_LEVEL)
    else
      var m := Built(ops[..|ops| - 1]);
      OnTreeShape(m, ops[|ops| - 1]);
      OnTree(m, ops[|ops| - 1])
  }

  ghost predicate Matches<P>(n: Node<P>, m: map<nat, Value<P>>)
    requires Shape(n, ROOT_LEVEL)
  {
    forall a: nat | a < WORD :: SlotAt(n, ROOT_LEVEL, a) == if a in m then Used(m[a]) else Free
  }

  /** One operation on the tree is the same operation on the map. */
  lemma OnTreeMatches<P>(n: Node<P>, m: map<nat, Value<P>>, op: Op<P>)
    requires Shape(n, ROOT_LEVEL) && Matches(n, m) && Legal(op)
    ensures Shape(OnTree(n, op), ROOT_LEVEL) && Matches(OnTree(n, op), OnMap(m, op))
  {
    OnTreeShape(n, op);
    var n', m' := OnTree(n, op), OnMap(m, op);
    forall a: nat | a < WORD ensures SlotAt(n', ROOT_LEVEL, a) == if a in m' then Used(m'[a]) else Free {
      match op {
        case InsertOp(address, v) => InsertAt(n, address, v, a);
        case EraseOp(address) => EraseAt(n, address, a);
      }
    }
  }

  /** After any history the tree holds exactly the entries of the plain map. */
  lemma {:induction false} HistoryMatches<P>(ops: seq<Op<P>>)
    requires forall op :: op in ops ==> Legal(op)
    ensures Matches(Built(ops), Replay(ops))
  {
    if ops == [] {
      EmptyNodeShape<P>(ROOT_LEVEL);
    } else {
      var before := ops[..|ops| - 1];
      HistoryMatches(before);
      OnTreeMatches(Built(before), Replay(before), ops[|ops| - 1]);
    }
  }

  /** Two histories with the same outcome leave the identical tree: same nodes, same counts. */
  lemma SameMapSameTree<P>(ops: seq<Op<P>>, ops': seq<Op<P>>)
    requires (forall op :: op in ops ==> Legal(op)) && (forall op :: op in ops' ==> Legal(op))
    requires Replay(ops) == Replay(ops')
    ensures Built(ops) == Built(ops')
  {
    HistoryMatches(ops);
    HistoryMatches(ops');
    MatchesUnique(Built(ops), Built(ops'), Replay(ops));
  }

  /** Only one well-shaped tree holds the entries of a given map. */
  lemma MatchesUnique<P>(n: Node<P>, n': Node<P>, m: map<nat, Value<P>>)
    requires Shape(n, ROOT_LEVEL) && Shape(n', ROOT_LEVEL) && Matches(n, m) && Matches(n', m)
    ensures n == n'
  {
    RootSpan();
    forall a: nat ensures SlotAt(n, ROOT_LEVEL, a) == SlotAt(n', ROOT_LEVEL, a) {
      var b := Reduce(ROOT_LEVEL, a);
      SlotLowBits(n, ROOT_LEVEL, a, b);
      SlotLowBits(n', ROOT_LEVEL, a, b);
    }
    Canonical(n, n', ROOT_LEVEL);
  }

  /** The address of the tree that is meant by a number beyond its range. */
  lemma Reduce(level: nat, a: nat) returns (b: nat)
    ensures b < Pow16(level + 1) && Agree(a, b, level)
  {
    b := Compose(level, IndexIn(a, level), a);
  }
}
