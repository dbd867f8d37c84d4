/** The 16-way radix tree of allocations: index arithmetic, insertion, erasure with pruning
    (include/hipSYCL/common/allocation_map.hpp). */
module AllocTree {
  import opened Geometry

  const FANOUT: nat := 16
  const ROOT_LEVEL: nat := 15

  /** The number of addresses below a node of the level under `n`. */
  function Pow16(n: nat): (p: nat)
    ensures p > 0
  {
    if n == 0 then 1 else FANOUT * Pow16(n - 1)
  }

  /** get_index_in_level: the four address bits of a level, after shifting out the bits below. */
  function IndexIn(address: nat, level: nat): (i: nat)
    ensures i < FANOUT
  {
    if level == 0 then address % FANOUT else IndexIn(address / FANOUT, level - 1)
  }

  /** Two addresses take the same way through a subtree of the level. */
  ghost predicate Agree(a: nat, b: nat, level: nat) {
    forall l :: 0 <= l <= level ==> IndexIn(a, l) == IndexIn(b, l)
  }

  datatype Value<P> = Value(payload: P, size: nat)

  /** A leaf entry; size 0 marks a free one. */
  datatype Slot<P> = Free | Used(value: Value<P>)

  datatype Child<P> = Null | Ptr(node: Node<P>)

  datatype Node<P> =
    | Leaf(entries: seq<Slot<P>>, count: int)
    | Inner(children: seq<Child<P>>, count: int)

  function UsedCount<P>(entries: seq<Slot<P>>): nat {
    if entries == [] then 0 else UsedCount(entries[1..]) + if entries[0].Used? then 1 else 0
  }

  function PtrCount<P>(children: seq<Child<P>>): nat {
    if children == [] then 0 else PtrCount(children[1..]) + if children[0].Ptr? then 1 else 0
  }

  /** A node of the given level: all counts are exact, and no child is empty. */
  ghost predicate Shape<P>(n: Node<P>, level: nat)
    decreases level
  {
    match n
    case Leaf(entries, count) =>
      && level == 0 && |entries| == FANOUT && count == UsedCount(entries)
      && forall i :: 0 <= i < FANOUT && entries[i].Used? ==> entries[i].value.size > 0
    case Inner(children, count) =>
      && level > 0 && |children| == FANOUT && count == PtrCount(children)
      && forall i :: 0 <= i < FANOUT && children[i].Ptr? ==>
        Shape(children[i].node, level - 1) && children[i].node.count > 0
  }

  /** The entry stored for an address (get_entry_of_root_address). */
  function SlotAt<P>(n: Node<P>, level: nat, address: nat): (s: Slot<P>)
    requires Shape(n, level)
    ensures s.Used? ==> s.value.size > 0
    decreases level
  {
    match n
    case Leaf(entries, _) => entries[IndexIn(address, 0)]
    case Inner(children, _) =>
      match children[IndexIn(address, level)]
      case Null => Free
      case Ptr(child) => SlotAt(child, level - 1, address)
  }

  // ---------------------------------------------------------------------------------------------
  // Index arithmetic

  /** The index is the shifted address modulo the fan-out. */
  lemma {:induction false} IndexIsShift(address: nat, level: nat)
    ensures IndexIn(address, level) == address / Pow16(level) % FANOUT
  {
    if level > 0 {
      IndexIsShift(address / FANOUT, level - 1);
      DivDiv(address, FANOUT, Pow16(level - 1));
    }
  }

  lemma DivDiv(n: nat, c: nat, d: nat)
    requires c > 0 && d > 0
    ensures c * d > 0 && n / c / d == n / (c * d)
  {
    MulLe(1, c, d);
    var m := n / c;
    var q := m / d;
    var a, b := m % d, n % c;
    assert n == m * c + b;
    assert m == q * d + a;
    FlatQuotient(q, a, b, c, d);
  }

  lemma FlatQuotient(q: nat, a: nat, b: nat, c: nat, d: nat)
    requires a < d && b < c && c * d > 0
    ensures ((q * d + a) * c + b) / (c * d) == q
  {
    var n, r := (q * d + a) * c + b, a * c + b;
    Distribute(q * d, a, c);
    assert q * d * c == q * (c * d);
    MulLe(a + 1, d, c);
    Distribute(a, 1, c);
    DivUnique(n, c * d, q, r);
  }

  lemma Distribute(a: nat, b: nat, p: nat)
    ensures (a + b) * p == a * p + b * p
  {
  }

  lemma AgreeSplit(a: nat, b: nat, level: nat)
    requires level > 0
    ensures Agree(a, b, level) <==> IndexIn(a, level) == IndexIn(b, level) && Agree(a, b, level - 1)
  {
  }

  /** Addresses that differ take different ways. */
  lemma {:induction false} AgreeIsEqual(a: nat, b: nat, level: nat)
    requires a < Pow16(level + 1) && b < Pow16(level + 1)
    ensures Agree(a, b, level) <==> a == b
  {
    if Agree(a, b, level) {
      assert IndexIn(a, 0) == IndexIn(b, 0);
      if level > 0 {
        forall l | 0 <= l <= level - 1 ensures IndexIn(a / FANOUT, l) == IndexIn(b / FANOUT, l) {
          var up := l + 1;
          assert IndexIn(a, up) == IndexIn(b, up);
        }
        assert Agree(a / FANOUT, b / FANOUT, level - 1);
        AgreeIsEqual(a / FANOUT, b / FANOUT, level - 1);
      }
    }
  }

  /** There is an address with a given index at a level that agrees with `r` below it. */
  lemma {:induction false} Compose(level: nat, i: nat, r: nat) returns (a: nat)
    requires i < FANOUT
    ensures a < Pow16(level + 1) && IndexIn(a, level) == i
    ensures forall l :: 0 <= l < level ==> IndexIn(a, l) == IndexIn(r, l)
  {
    if level == 0 {
      a := i;
    } else {
      var up := Compose(level - 1, i, r / FANOUT);
      a := FANOUT * up + r % FANOUT;
      assert a / FANOUT == up && a % FANOUT == r % FANOUT;
      forall l | 0 <= l < level ensures IndexIn(a, l) == IndexIn(r, l) {
        if l > 0 {
          var below := l - 1;
          assert IndexIn(up, below) == IndexIn(r / FANOUT, below);
        }
      }
    }
  }

  /** An entry depends on the low bits of the address only. */
  lemma {:induction false} SlotLowBits<P>(n: Node<P>, level: nat, a: nat, b: nat)
    requires Shape(n, level) && Agree(a, b, level)
    ensures SlotAt(n, level, a) == SlotAt(n, level, b)
    decreases level
  {
    if n.Inner? && n.children[IndexIn(a, level)].Ptr? {
      SlotLowBits(n.children[IndexIn(a, level)].node, level - 1, a, b);
    }
  }

  /** The entries of child `i` seen from its parent. */
  ghost function ChildSlot<P>(n: Node<P>, level: nat, i: nat, r: nat): Slot<P>
    requires Shape(n, level) && level > 0 && i < FANOUT
  {
    if n.children[i].Null? then Free else SlotAt(n.children[i].node, level - 1, r)
  }

  lemma ChildSlotAt<P>(n: Node<P>, level: nat, i: nat, r: nat, a: nat)
    requires Shape(n, level) && level > 0 && i < FANOUT && IndexIn(a, level) == i
    requires forall l :: 0 <= l < level ==> IndexIn(a, l) == IndexIn(r, l)
    ensures SlotAt(n, level, a) == ChildSlot(n, level, i, r)
  {
    if n.children[i].Ptr? {
      SlotLowBits(n.children[i].node, level - 1, a, r);
    }
  }

  // ---------------------------------------------------------------------------------------------
  // Counts

  lemma {:induction false} UsedCountUpdate<P>(entries: seq<Slot<P>>, i: nat, s: Slot<P>)
    requires i < |entries|
    ensures UsedCount(entries[i := s]) == UsedCount(entries) + (if s.Used? then 1 else 0)
              - (if entries[i].Used? then 1 else 0)
  {
    if i == 0 {
      assert entries[i := s][1..] == entries[1..];
    } else {
      assert entries[i := s][1..] == entries[1..][i - 1 := s];
      UsedCountUpdate(entries[1..], i - 1, s);
    }
  }

  lemma {:induction false} PtrCountUpdate<P>(children: seq<Child<P>>, i: nat, c: Child<P>)
    requires i < |children|
    ensures PtrCount(children[i := c]) == PtrCount(children) + (if c.Ptr? then 1 else 0)
              - (if children[i].Ptr? then 1 else 0)
  {
    if i == 0 {
      assert children[i := c][1..] == children[1..];
    } else {
      assert children[i := c][1..] == children[1..][i - 1 := c];
      PtrCountUpdate(children[1..], i - 1, c);
    }
  }

  lemma {:induction false} UsedCountZero<P>(entries: seq<Slot<P>>)
    ensures UsedCount(entries) == 0 <==> forall i :: 0 <= i < |entries| ==> entries[i].Free?
  {
    if entries != [] {
      UsedCountZero(entries[1..]);
      assert entries == [entries[0]] + entries[1..];
    }
  }

  lemma {:induction false} PtrCountZero<P>(children: seq<Child<P>>)
    ensures PtrCount(children) == 0 <==> forall i :: 0 <= i < |children| ==> children[i].Null?
  {
    if children != [] {
      PtrCountZero(children[1..]);
      assert children == [children[0]] + children[1..];
    }
  }

  /** A node with a positive count holds an entry. */
  lemma {:induction false} NonEmptyHasEntry<P>(n: Node<P>, level: nat) returns (a: nat)
    requires Shape(n, level) && n.count > 0
    ensures a < Pow16(level + 1) && SlotAt(n, level, a).Used?
    decreases level
  {
    if n.Inner? {
      PtrCountZero(n.children);
      var i: nat :| i < FANOUT && n.children[i].Ptr?;
      var r := NonEmptyHasEntry(n.children[i].node, level - 1);
      a := Compose(level, i, r);
      ChildSlotAt(n, level, i, r, a);
    } else {
      UsedCountZero(n.entries);
      a :| 0 <= a < FANOUT && n.entries[a].Used?;
      assert Pow16(1) == FANOUT && IndexIn(a, 0) == a;
    }
  }

  // ---------------------------------------------------------------------------------------------
  // insert and erase

  function FreeEntries<P>(k: nat): (s: seq<Slot<P>>)
    ensures |s| == k && forall i :: 0 <= i < k ==> s[i].Free?
  {
    if k == 0 then [] else [Free] + FreeEntries(k - 1)
  }

  function NullChildren<P>(k: nat): (s: seq<Child<P>>)
    ensures |s| == k && forall i :: 0 <= i < k ==> s[i].Null?
  {
    if k == 0 then [] else [Null] + NullChildren(k - 1)
  }

  function EmptyNode<P>(level: nat): (n: Node<P>) {
    if level == 0 then Leaf(FreeEntries(FANOUT), 0) else Inner(NullChildren(FANOUT), 0)
  }

  lemma EmptyNodeShape<P>(level: nat)
    ensures Shape(EmptyNode<P>(level), level)
    ensures forall a :: SlotAt(EmptyNode<P>(level), level, a) == Free
  {
    var n := EmptyNode<P>(level);
    if level == 0 { UsedCountZero(n.entries); } else { PtrCountZero(n.children); }
  }

  /** insert: descends, creating missing nodes; false if the entry is occupied. */
  function Insert<P>(n: Node<P>, level: nat, address: nat, v: Value<P>): (r: (Node<P>, bool))
    requires Shape(n, level)
    decreases level
  {
    var i := IndexIn(address, level);
    match n
    case Leaf(entries, count) =>
      if entries[i].Used? then (n, false) else (Leaf(entries[i := Used(v)], count + 1), true)
    case Inner(children, count) =>
      EmptyNodeShape<P>(level - 1);
      var fresh' := children[i].Null?;
      var child := if fresh' then EmptyNode(level - 1) else children[i].node;
      var (child', ok) := Insert(child, level - 1, address, v);
      (Inner(children[i := Ptr(child')], if fresh' then count + 1 else count), ok)
  }

  /** erase: descends, and unlinks a child that became empty; false if there is no such entry. */
  function Erase<P>(n: Node<P>, level: nat, address: nat): (r: (Node<P>, bool))
    requires Shape(n, level)
    decreases level
  {
    var i := IndexIn(address, level);
    match n
    case Leaf(entries, count) =>
      if entries[i].Free? then (n, false) else (Leaf(entries[i := Free], count - 1), true)
    case Inner(children, count) =>
      match children[i]
      case Null => (n, false)
      case Ptr(child) =>
        var (child', ok) := Erase(child, level - 1, address);
        if ok && child'.count == 0 then (Inner(children[i := Null], count - 1), true)
        else (Inner(children[i := Ptr(child')], count), ok)
  }

  /** A node with one child replaced and its count adjusted. */
  ghost function WithChild<P>(n: Node<P>, i: nat, c: Child<P>): (n': Node<P>)
    requires n.Inner? && i < |n.children|
  {
    Inner(n.children[i := c], n.count + (if c.Ptr? then 1 else 0) - (if n.children[i].Ptr? then 1 else 0))
  }

  lemma WithChildShape<P>(n: Node<P>, level: nat, i: nat, c: Child<P>)
    requires Shape(n, level) && level > 0 && i < FANOUT
    requires c.Ptr? ==> Shape(c.node, level - 1) && c.node.count > 0
    ensures Shape(WithChild(n, i, c), level) && (c.Ptr? ==> WithChild(n, i, c).count > 0)
  {
    PtrCountUpdate(n.children, i, c);
    PtrCountZero(n.children[i := c]);
    assert n.children[i := c][i] == c;
  }

  lemma WithChildSlot<P>(n: Node<P>, level: nat, i: nat, c: Child<P>, b: nat)
    requires Shape(n, level) && level > 0 && i < FANOUT
    requires c.Ptr? ==> Shape(c.node, level - 1) && c.node.count > 0
    ensures Shape(WithChild(n, i, c), level)
    ensures SlotAt(WithChild(n, i, c), level, b) ==
            if IndexIn(b, level) != i then SlotAt(n, level, b)
            else if c.Null? then Free else SlotAt(c.node, level - 1, b)
  {
    WithChildShape(n, level, i, c);
  }

  /** The child that insertion descends into. */
  ghost function Entered<P>(n: Node<P>, level: nat, i: nat): (child: Node<P>)
    requires Shape(n, level) && level > 0 && i < FANOUT
    ensures Shape(child, level - 1)
  {
    EmptyNodeShape<P>(level - 1);
    if n.children[i].Null? then EmptyNode(level - 1) else n.children[i].node
  }

  lemma EnteredSlot<P>(n: Node<P>, level: nat, i: nat, b: nat)
    requires Shape(n, level) && level > 0 && i < FANOUT && IndexIn(b, level) == i
    ensures SlotAt(Entered(n, level, i), level - 1, b) == SlotAt(n, level, b)
  {
    EmptyNodeShape<P>(level - 1);
  }

  /** Insertion below a node, seen as the replacement of one child. */
  lemma InsertDescends<P>(n: Node<P>, level: nat, address: nat, v: Value<P>)
    requires Shape(n, level) && level > 0
    ensures var i := IndexIn(address, level);
            var (child', ok) := Insert(Entered(n, level, i), level - 1, address, v);
            Insert(n, level, address, v) == (WithChild(n, i, Ptr(child')), ok)
  {
  }

  /** Insertion keeps every count exact and no node empty, and succeeds exactly on a free entry. */
  lemma {:induction false} InsertShape<P>(n: Node<P>, level: nat, address: nat, v: Value<P>)
    requires Shape(n, level) && v.size > 0
    ensures var (n', ok) := Insert(n, level, address, v);
            && Shape(n', level) && n'.count > 0
            && (ok <==> SlotAt(n, level, address).Free?) && (!ok ==> n' == n)
    decreases level
  {
    var (n', ok) := Insert(n, level, address, v);
    var i := IndexIn(address, level);
    if n.Inner? {
      var child := Entered(n, level, i);
      InsertShape(child, level - 1, address, v);
      InsertDescends(n, level, address, v);
      EnteredSlot(n, level, i, address);
      WithChildShape(n, level, i, Ptr(Insert(child, level - 1, address, v).0));
    } else {
      UsedCountUpdate(n.entries, i, Used(v));
      UsedCountZero(n'.entries);
    }
  }

  /** Insertion changes the entry of the address and no other. */
  lemma {:induction false} InsertSlots<P>(n: Node<P>, level: nat, address: nat, v: Value<P>, b: nat)
    requires Shape(n, level) && v.size > 0 && Insert(n, level, address, v).1
    ensures Shape(Insert(n, level, address, v).0, level)
    ensures SlotAt(Insert(n, level, address, v).0, level, b) ==
            if Agree(b, address, level) then Used(v) else SlotAt(n, level, b)
    decreases level
  {
    InsertShape(n, level, address, v);
    if n.Inner? {
      var i := IndexIn(address, level);
      var child := Entered(n, level, i);
      InsertDescends(n, level, address, v);
      InsertSlots(child, level - 1, address, v, b);
      InsertShape(child, level - 1, address, v);
      if IndexIn(b, level) == i { EnteredSlot(n, level, i, b); }
      SlotsStep(n, level, address, child, Ptr(Insert(child, level - 1, address, v).0), Used(v), b);
    }
  }

  /** One level of the argument that an operation changes one entry only. */
  lemma SlotsStep<P>(n: Node<P>, level: nat, address: nat, child: Node<P>, c: Child<P>, s: Slot<P>, b: nat)
    requires Shape(n, level) && level > 0 && Shape(child, level - 1)
    requires c.Ptr? ==> Shape(c.node, level - 1) && c.node.count > 0
    requires IndexIn(b, level) == IndexIn(address, level) ==> SlotAt(child, level - 1, b) == SlotAt(n, level, b)
    requires (if c.Null? then Free else SlotAt(c.node, level - 1, b)) ==
             if Agree(b, address, level - 1) then s else SlotAt(child, level - 1, b)
    ensures Shape(WithChild(n, IndexIn(address, level), c), level)
    ensures SlotAt(WithChild(n, IndexIn(address, level), c), level, b) == if Agree(b, address, level) then s
            else SlotAt(n, level, b)
  {
    WithChildSlot(n, level, IndexIn(address, level), c, b);
    AgreeSplit(b, address, level);
  }

  /** What erasure leaves of the child it descends into. */
  ghost function Pruned<P>(child: Node<P>): Child<P> {
    if child.count == 0 then Null else Ptr(child)
  }

  /** Erasure keeps every count exact and no node empty, and succeeds exactly on a used entry. */
  lemma {:induction false} EraseShape<P>(n: Node<P>, level: nat, address: nat)
    requires Shape(n, level)
    ensures var (n', ok) := Erase(n, level, address);
            && Shape(n', level) && (ok <==> SlotAt(n, level, address).Used?) && (!ok ==> n' == n)
    ensures n.Inner? && n.children[IndexIn(address, level)].Ptr? ==>
              var child' := Erase(n.children[IndexIn(address, level)].node, level - 1, address).0;
              Shape(child', level - 1)
                && Erase(n, level, address).0 == WithChild(n, IndexIn(address, level), Pruned(child'))
    decreases level
  {
    var (n', ok) := Erase(n, level, address);
    var i := IndexIn(address, level);
    if n.Leaf? {
      UsedCountUpdate(n.entries, i, Free);
    } else if n.children[i].Ptr? {
      var child := n.children[i].node;
      EraseShape(child, level - 1, address);
      CountIsNat(child, level - 1, Erase(child, level - 1, address).0);
      WithChildShape(n, level, i, Pruned(Erase(child, level - 1, address).0));
    }
  }

  lemma CountIsNat<P>(child: Node<P>, level: nat, child': Node<P>)
    requires Shape(child, level) && child.count > 0 && Shape(child', level)
    ensures child'.count >= 0
  {
  }

  /** Erasure frees the entry of the address and no other. */
  lemma {:induction false} EraseSlots<P>(n: Node<P>, level: nat, address: nat, b: nat)
    requires Shape(n, level)
    ensures Shape(Erase(n, level, address).0, level)
    ensures SlotAt(Erase(n, level, address).0, level, b) ==
            if Agree(b, address, level) then Free else SlotAt(n, level, b)
    decreases level
  {
    EraseShape(n, level, address);
    var i := IndexIn(address, level);
    if n.Inner? {
      AgreeSplit(b, address, level);
      if n.children[i].Ptr? {
        var child := n.children[i].node;
        EraseSlots(child, level - 1, address, b);
        var child' := Erase(child, level - 1, address).0;
        if child'.count == 0 { NoEntryWhenEmpty(child', level - 1, b); }
        SlotsStep(n, level, address, child, Pruned(child'), Free, b);
      }
    }
  }

  lemma NoEntryWhenEmpty<P>(n: Node<P>, level: nat, a: nat)
    requires Shape(n, level) && n.count == 0
    ensures SlotAt(n, level, a).Free?
  {
    if n.Leaf? { UsedCountZero(n.entries); } else { PtrCountZero(n.children); }
  }

  // ---------------------------------------------------------------------------------------------
  // The tree is determined by its entries

  /** Pruning makes the tree canonical: equal entries mean equal trees. */
  lemma {:induction false} Canonical<P>(n: Node<P>, n': Node<P>, level: nat)
    requires Shape(n, level) && Shape(n', level)
    requires forall a :: SlotAt(n, level, a) == SlotAt(n', level, a)
    ensures n == n'
    decreases level
  {
    forall i: nat | i < FANOUT
      ensures if n.Leaf? then n.entries[i] == n'.entries[i] else n.children[i] == n'.children[i]
    {
      if n.Leaf? {
        assert IndexIn(i, 0) == i;
        assert SlotAt(n, level, i) == SlotAt(n', level, i);
      } else {
        CanonicalChild(n, n', level, i);
      }
    }
    if n.Leaf? {
      assert n.entries == n'.entries;
    } else {
      assert n.children == n'.children;
    }
  }

  lemma {:induction false} CanonicalChild<P>(n: Node<P>, n': Node<P>, level: nat, i: nat)
    requires Shape(n, level) && Shape(n', level) && level > 0 && i < FANOUT
    requires forall a :: SlotAt(n, level, a) == SlotAt(n', level, a)
    ensures n.children[i] == n'.children[i]
    decreases level, 0
  {
    var c, c', l := n.children[i], n'.children[i], level - 1;
    forall r: nat ensures ChildSlot(n, level, i, r) == ChildSlot(n', level, i, r) {
      var a := Compose(level, i, r);
      ChildSlotAt(n, level, i, r, a);
      ChildSlotAt(n', level, i, r, a);
    }
    if c.Ptr? && c'.Ptr? {
      forall r: nat ensures SlotAt(c.node, l, r) == SlotAt(c'.node, l, r) {
        assert ChildSlot(n, level, i, r) == ChildSlot(n', level, i, r);
      }
      Canonical(c.node, c'.node, l);
    } else if c.Ptr? {
      var r := NonEmptyHasEntry(c.node, l);
      var s := ChildSlot(n, level, i, r);
    } else if c'.Ptr? {
      var r := NonEmptyHasEntry(c'.node, l);
      var s := ChildSlot(n, level, i, r);
    }
  }

  /** Erasing what was inserted gives back the identical tree, nodes and counts included. */
  lemma EraseUndoesInsert<P>(n: Node<P>, level: nat, address: nat, v: Value<P>)
    requires Shape(n, level) && v.size > 0 && Insert(n, level, address, v).1
    ensures Shape(Insert(n, level, address, v).0, level)
    ensures Erase(Insert(n, level, address, v).0, level, address) == (n, true)
  {
    InsertShape(n, level, address, v);
    var n1 := Insert(n, level, address, v).0;
    EraseShape(n1, level, address);
    InsertSlots(n, level, address, v, address);
    var n2 := Erase(n1, level, address).0;
    forall a: nat ensures SlotAt(n2, level, a) == SlotAt(n, level, a) {
      InsertSlots(n, level, address, v, a);
      EraseSlots(n1, level, address, a);
      if Agree(a, address, level) { SlotLowBits(n, level, a, address); }
    }
    Canonical(n2, n, level);
  }
}
