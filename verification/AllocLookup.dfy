/** Predecessor search in the allocation tree, and the map object around it
    (include/hipSYCL/common/allocation_map.hpp). */
module AllocLookup {
  import opened Words
  import opened Geometry
  import opened AllocTree

  /** Result of a lookup: nothing, or the allocation with its base address. */
  datatype Lookup<P> = Miss | Hit(base: nat, value: Value<P>)

  // ---------------------------------------------------------------------------------------------
  // Address ranges of nodes

  predicate Aligned(root: nat, level: nat) {
    root % Pow16(level + 1) == 0
  }

  predicate InNode(a: nat, root: nat, level: nat) {
    root <= a < root + Pow16(level + 1)
  }

  /** First address below child `i` (the low bits of `root` are zero). */
  function Base(root: nat, level: nat, i: nat): nat {
    root + i * Pow16(level)
  }

  lemma BaseStep(root: nat, level: nat, i: nat)
    ensures Base(root, level, i + 1) == Base(root, level, i) + Pow16(level)
  {
    Distribute(i, 1, Pow16(level));
  }

  lemma BaseMonotone(root: nat, level: nat, i: nat, j: nat)
    requires i <= j
    ensures Base(root, level, i) <= Base(root, level, j)
  {
    MulLe(i, j, Pow16(level));
  }

  lemma BaseEnds(root: nat, level: nat)
    ensures Base(root, level, 0) == root && Base(root, level, FANOUT) == root + Pow16(level + 1)
  {
  }

  lemma QuotientRange(d: nat, p: nat, i: nat)
    requires p > 0
    ensures d / p == i <==> i * p <= d < i * p + p
  {
    if i * p <= d < i * p + p { DivUnique(d, p, i, d - i * p); } else { assert d == d / p * p + d % p; }
  }

  lemma DigitAt(k: nat, q: nat, r: nat, p: nat)
    requires q < FANOUT && r < p
    ensures ((k * FANOUT + q) * p + r) / p % FANOUT == q
  {
    DivUnique((k * FANOUT + q) * p + r, p, k * FANOUT + q, r);
  }

  lemma SmallQuotient(d: nat, p: nat)
    requires p > 0 && d < FANOUT * p
    ensures d / p < FANOUT && d == d / p * p + d % p
  {
    var q := d / p;
    if q >= FANOUT { MulLe(FANOUT, q, p); }
  }

  lemma AlignedIndex(root: nat, d: nat, p: nat)
    requires p > 0 && root % (FANOUT * p) == 0 && d < FANOUT * p
    ensures (root + d) / p % FANOUT == d / p
  {
    var k, q, r := root / (FANOUT * p), d / p, d % p;
    SmallQuotient(d, p);
    assert root == k * FANOUT * p by {
      assert root == k * (FANOUT * p);
    }
    Distribute(k * FANOUT, q, p);
    DigitAt(k, q, r, p);
  }

  /** Child `i` covers exactly the addresses with index `i`. */
  lemma ChildRange(root: nat, level: nat, i: nat, a: nat)
    requires Aligned(root, level) && InNode(a, root, level) && i < FANOUT
    ensures IndexIn(a, level) == i <==> Base(root, level, i) <= a < Base(root, level, i + 1)
  {
    var d := a - root;
    IndexIsShift(a, level);
    AlignedIndex(root, d, Pow16(level));
    QuotientRange(d, Pow16(level), i);
    BaseStep(root, level, i);
  }

  lemma ChildAligned(root: nat, level: nat, i: nat)
    requires Aligned(root, level)
    ensures Base(root, level, i) % Pow16(level) == 0
  {
    var p := Pow16(level);
    var k := root / (FANOUT * p);
    assert root == k * (FANOUT * p);
    assert k * (FANOUT * p) == (k * FANOUT) * p;
    Distribute(k * FANOUT, i, p);
    DivUnique(Base(root, level, i), p, k * FANOUT + i, 0);
  }

  lemma ChildInNode(root: nat, level: nat, i: nat, a: nat)
    requires i < FANOUT && Base(root, level, i) <= a < Base(root, level, i + 1)
    ensures InNode(a, root, level)
  {
    BaseEnds(root, level);
    BaseMonotone(root, level, 0, i);
    BaseMonotone(root, level, i + 1, FANOUT);
  }

  // ---------------------------------------------------------------------------------------------
  // The interval query

  ghost predicate Holds<P>(n: Node<P>, level: nat, root: nat, a: nat)
    requires Shape(n, level)
  {
    InNode(a, root, level) && SlotAt(n, level, a).Used?
  }

  ghost predicate Contains<P>(n: Node<P>, level: nat, root: nat, a: nat, address: nat)
    requires Shape(n, level)
  {
    Holds(n, level, root, a) && a <= address < a + SlotAt(n, level, a).value.size
  }

  /** Ranges of different entries do not overlap, and none reaches the end of the address space. */
  ghost predicate Ranges<P>(n: Node<P>, level: nat, root: nat)
    requires Shape(n, level)
  {
    && (forall a: nat, b: nat | Holds(n, level, root, a) && Holds(n, level, root, b) && a < b ::
      a + SlotAt(n, level, a).value.size <= b)
    && (forall a: nat | Holds(n, level, root, a) :: a + SlotAt(n, level, a).value.size < WORD)
  }

  lemma ChildHolds<P>(n: Node<P>, level: nat, root: nat, i: nat, a: nat)
    requires Shape(n, level) && level > 0 && Aligned(root, level) && i < FANOUT && n.children[i].Ptr?
    requires InNode(a, Base(root, level, i), level - 1)
    ensures InNode(a, root, level) && SlotAt(n, level, a) == SlotAt(n.children[i].node, level - 1, a)
  {
    BaseStep(root, level, i);
    ChildInNode(root, level, i, a);
    ChildRange(root, level, i, a);
  }

  lemma ChildRanges<P>(n: Node<P>, level: nat, root: nat, i: nat)
    requires Shape(n, level) && level > 0 && Aligned(root, level) && i < FANOUT && n.children[i].Ptr?
    requires Ranges(n, level, root)
    ensures Ranges(n.children[i].node, level - 1, Base(root, level, i))
  {
    var child, base, l := n.children[i].node, Base(root, level, i), level - 1;
    forall a | Holds(child, l, base, a) ensures Holds(n, level, root, a) && SlotAt(n, level, a) == SlotAt(child, l, a) {
      ChildHolds(n, level, root, i, a);
    }
  }

  /** An entry at or below the address that does not contain it rules out all entries below. */
  lemma RulesOut<P>(n: Node<P>, level: nat, root: nat, a: nat, b: nat, address: nat)
    requires Shape(n, level) && Ranges(n, level, root) && Holds(n, level, root, a) && a <= address && b < a
    ensures !Contains(n, level, root, b, address)
  {
  }

  // ---------------------------------------------------------------------------------------------
  // get_entry

  /** The index at which the search in a node starts. */
  function Start(root: nat, level: nat, address: nat): (i: nat)
    ensures i < FANOUT
  {
    if root + Pow16(level + 1) - 1 <= address then FANOUT - 1 else IndexIn(address, level)
  }

  /** Entries beyond the start lie above the address, and the start does not. */
  lemma StartCovers(root: nat, level: nat, address: nat)
    requires Aligned(root, level) && root <= address
    ensures Base(root, level, Start(root, level, address)) <= address
    ensures InNode(address, root, level) ==> address < Base(root, level, Start(root, level, address) + 1)
    ensures !InNode(address, root, level) ==> Start(root, level, address) == FANOUT - 1
  {
    var start := Start(root, level, address);
    BaseEnds(root, level);
    BaseStep(root, level, FANOUT - 1);
    if InNode(address, root, level) {
      ChildRange(root, level, start, address);
      ChildRange(root, level, IndexIn(address, level), address);
    }
  }

  /** What a search must have found out when it ends at a node. */
  ghost predicate Answers<P>(n: Node<P>, level: nat, root: nat, address: nat, r: Lookup<P>)
    requires Shape(n, level)
  {
    match r
    case Hit(base, value) => Contains(n, level, root, base, address) && SlotAt(n, level, base) == Used(value)
    case Miss => forall a: nat :: !Contains(n, level, root, a, address)
  }

  /** No entry at or above `from` contains the address. */
  ghost predicate NoneFrom<P>(n: Node<P>, level: nat, root: nat, address: nat, from: nat)
    requires Shape(n, level)
  {
    forall a: nat | a >= from :: !Contains(n, level, root, a, address)
  }

  lemma NoneFromStart<P>(n: Node<P>, level: nat, root: nat, address: nat)
    requires Shape(n, level) && Aligned(root, level) && root <= address
    ensures NoneFrom(n, level, root, address, Base(root, level, Start(root, level, address) + 1))
  {
    StartCovers(root, level, address);
    BaseEnds(root, level);
  }

  method SearchLeaf<P>(n: Node<P>, address: nat, root: nat) returns (r: Lookup<P>)
    requires Shape(n, 0) && Aligned(root, 0) && Ranges(n, 0, root) && root <= address < WORD
    ensures Answers(n, 0, root, address, r)
  {
    var i: int := Start(root, 0, address);
    LeafStart(n, root, address);
    while i >= 0
      invariant -1 <= i < FANOUT && root + i <= address
      invariant NoneFrom(n, 0, root, address, root + i + 1)
    {
      if n.entries[i].Used? {
        r := CheckEntry(root + i, n.entries[i].value, address);
        FirstUsed(n, root, i, address);
        return;
      }
      FreeEntry(n, root, i, address);
      i := i - 1;
    }
    r := Miss;
  }

  /** The containment test on 64-bit addresses: the end of the range may wrap around. */
  function CheckEntry<P>(base: nat, value: Value<P>, address: nat): Lookup<P> {
    if base <= address < (base + value.size) % WORD then Hit(base, value) else Miss
  }

  lemma LeafStart<P>(n: Node<P>, root: nat, address: nat)
    requires Shape(n, 0) && Aligned(root, 0) && root <= address
    ensures root + Start(root, 0, address) <= address
    ensures NoneFrom(n, 0, root, address, root + Start(root, 0, address) + 1)
  {
    NoneFromStart(n, 0, root, address);
    StartCovers(root, 0, address);
  }

  lemma LowDigit(root: nat, i: nat)
    requires Aligned(root, 0) && i < FANOUT
    ensures IndexIn(root + i, 0) == i && InNode(root + i, root, 0)
  {
    assert Pow16(1) == FANOUT;
  }

  lemma EntryOfLeaf<P>(n: Node<P>, root: nat, i: nat)
    requires Shape(n, 0) && Aligned(root, 0) && i < FANOUT
    ensures InNode(root + i, root, 0) && SlotAt(n, 0, root + i) == n.entries[i]
  {
    LowDigit(root, i);
  }

  /** On a range that does not wrap around, the test is containment. */
  lemma CheckIsContainment<P>(n: Node<P>, root: nat, i: nat, address: nat)
    requires Shape(n, 0) && Aligned(root, 0) && Ranges(n, 0, root) && i < FANOUT && n.entries[i].Used?
    ensures var base, value := root + i, n.entries[i].value;
            && Holds(n, 0, root, base) && SlotAt(n, 0, base) == Used(value)
            && (Contains(n, 0, root, base, address) <==> base <= address < (base + value.size) % WORD)
  {
    EntryOfLeaf(n, root, i);
    assert Holds(n, 0, root, root + i);
  }

  /** An entry that does not contain the address ends the search. */
  lemma MissBelow<P>(n: Node<P>, root: nat, base: nat, address: nat)
    requires Shape(n, 0) && Ranges(n, 0, root) && Holds(n, 0, root, base) && base <= address
    requires !Contains(n, 0, root, base, address) && NoneFrom(n, 0, root, address, base + 1)
    ensures Answers(n, 0, root, address, Miss)
  {
    forall a: nat | a < base ensures !Contains(n, 0, root, a, address) {
      RulesOut(n, 0, root, base, a, address);
    }
  }

  /** Only the first used entry at or below the address can contain it. */
  lemma FirstUsed<P>(n: Node<P>, root: nat, i: nat, address: nat)
    requires Shape(n, 0) && Aligned(root, 0) && Ranges(n, 0, root) && i < FANOUT && n.entries[i].Used?
    requires root + i <= address && NoneFrom(n, 0, root, address, root + i + 1)
    ensures Answers(n, 0, root, address, CheckEntry(root + i, n.entries[i].value, address))
  {
    CheckIsContainment(n, root, i, address);
    if !Contains(n, 0, root, root + i, address) { MissBelow(n, root, root + i, address); }
  }

  lemma FreeEntry<P>(n: Node<P>, root: nat, i: nat, address: nat)
    requires Shape(n, 0) && Aligned(root, 0) && i < FANOUT && n.entries[i].Free?
    requires NoneFrom(n, 0, root, address, root + i + 1)
    ensures NoneFrom(n, 0, root, address, root + i)
  {
    EntryOfLeaf(n, root, i);
  }

  /** The whole range of a node lies below the address. */
  predicate Below(root: nat, level: nat, address: nat) {
    root + Pow16(level + 1) <= address
  }

  /** A hit below child `i` is a hit in the node; a miss there leaves the lower children. */
  lemma FromChild<P>(n: Node<P>, level: nat, root: nat, i: nat, address: nat, r: Lookup<P>)
    requires Shape(n, level) && level > 0 && Aligned(root, level) && i < FANOUT && n.children[i].Ptr?
    requires Answers(n.children[i].node, level - 1, Base(root, level, i), address, r)
    requires NoneFrom(n, level, root, address, Base(root, level, i + 1))
    ensures r.Hit? ==> Answers(n, level, root, address, r)
    ensures r.Miss? ==> NoneFrom(n, level, root, address, Base(root, level, i))
  {
    var child, base, l := n.children[i].node, Base(root, level, i), level - 1;
    BaseStep(root, level, i);
    match r {
      case Hit(a, value) => ChildHolds(n, level, root, i, a);
      case Miss =>
        forall a: nat | a >= base ensures !Contains(n, level, root, a, address) {
          if a < Base(root, level, i + 1) {
            ChildHolds(n, level, root, i, a);
            assert !Contains(child, l, base, a, address);
          }
        }
    }
  }

  lemma NoChild<P>(n: Node<P>, level: nat, root: nat, i: nat, address: nat)
    requires Shape(n, level) && level > 0 && Aligned(root, level) && i < FANOUT && n.children[i].Null?
    requires NoneFrom(n, level, root, address, Base(root, level, i + 1))
    ensures NoneFrom(n, level, root, address, Base(root, level, i))
  {
    forall a: nat | a >= Base(root, level, i) ensures !Contains(n, level, root, a, address) {
      if InNode(a, root, level) && a < Base(root, level, i + 1) { ChildRange(root, level, i, a); }
    }
  }

  /** Some entry of the node lies at or below the address. */
  ghost predicate SomeBelow<P>(n: Node<P>, level: nat, root: nat, address: nat)
    requires Shape(n, level)
  {
    exists a: nat :: Holds(n, level, root, a) && a <= address
  }

  /** The search may stop at child `i` once it has seen an entry there at or below the address. */
  lemma Cutoff<P>(n: Node<P>, level: nat, root: nat, i: nat, address: nat)
    requires Shape(n, level) && level > 0 && Aligned(root, level) && i < FANOUT && n.children[i].Ptr?
    requires Ranges(n, level, root) && SomeBelow(n.children[i].node, level - 1, Base(root, level, i), address)
    requires NoneFrom(n, level, root, address, Base(root, level, i))
    ensures Answers(n, level, root, address, Miss) && SomeBelow(n, level, root, address)
  {
    var child, base, l := n.children[i].node, Base(root, level, i), level - 1;
    var a: nat :| Holds(child, l, base, a) && a <= address;
    ChildHolds(n, level, root, i, a);
    assert Holds(n, level, root, a);
    forall b: nat | b < base ensures !Contains(n, level, root, b, address) {
      RulesOut(n, level, root, a, b, address);
    }
  }

  /** A leaf below the address holds an entry at or below it, because no leaf is empty. */
  lemma LeafBelow<P>(n: Node<P>, root: nat, address: nat)
    requires Shape(n, 0) && n.count > 0 && Aligned(root, 0) && Below(root, 0, address)
    ensures SomeBelow(n, 0, root, address)
  {
    UsedCountZero(n.entries);
    var i: nat :| i < FANOUT && n.entries[i].Used?;
    EntryOfLeaf(n, root, i);
    assert Holds(n, 0, root, root + i);
  }

  // ---------------------------------------------------------------------------------------------
  // Leaves that a search can visit

  /** The number of linked leaves of a node that start at or below the address. */
  ghost function LeavesUpTo<P>(n: Node<P>, level: nat, root: nat, address: nat): nat
    requires Shape(n, level)
    decreases level, FANOUT + 1
  {
    if level == 0 then if root <= address then 1 else 0 else LeavesOfFirst(n, level, root, address, FANOUT)
  }

  /** The same for the first `k` children. */
  ghost function LeavesOfFirst<P>(n: Node<P>, level: nat, root: nat, address: nat, k: nat): nat
    requires Shape(n, level) && level > 0 && k <= FANOUT
    decreases level, k
  {
    if k == 0 then 0
    else
      LeavesOfFirst(n, level, root, address, k - 1) +
      match n.children[k - 1]
      case Null => 0
      case Ptr(child) => LeavesUpTo(child, level - 1, Base(root, level, k - 1), address)
  }

  lemma BaseAbove(root: nat, level: nat, i: nat)
    ensures Base(root, level, i) >= root
  {
    MulLe(0, i, Pow16(level));
  }

  lemma {:induction false} NoLeavesAbove<P>(n: Node<P>, level: nat, root: nat, address: nat)
    requires Shape(n, level) && root > address
    ensures LeavesUpTo(n, level, root, address) == 0
    decreases level, 0
  {
    if level > 0 { NoLeavesOfFirst(n, level, root, address, FANOUT); }
  }

  lemma {:induction false} NoLeavesOfFirst<P>(n: Node<P>, level: nat, root: nat, address: nat, k: nat)
    requires Shape(n, level) && level > 0 && root > address && k <= FANOUT
    ensures LeavesOfFirst(n, level, root, address, k) == 0
    decreases level - 1, 1 + k
  {
    if k > 0 {
      NoLeavesOfFirst(n, level, root, address, k - 1);
      BaseAbove(root, level, k - 1);
      if n.children[k - 1].Ptr? {
        NoLeavesAbove(n.children[k - 1].node, level - 1, Base(root, level, k - 1), address);
      }
    }
  }

  /** Children behind the start hold no leaf that starts at or below the address. */
  lemma {:induction false} NoLeavesBehind<P>(n: Node<P>, level: nat, root: nat, address: nat, k: nat)
    requires Shape(n, level) && level > 0 && Aligned(root, level) && root <= address < WORD
    requires Start(root, level, address) < k <= FANOUT
    ensures LeavesOfFirst(n, level, root, address, k) ==
            LeavesOfFirst(n, level, root, address, Start(root, level, address) + 1)
    decreases k
  {
    if k > Start(root, level, address) + 1 {
      NoLeavesBehind(n, level, root, address, k - 1);
      StartCovers(root, level, address);
      BaseMonotone(root, level, Start(root, level, address) + 1, k - 1);
      if n.children[k - 1].Ptr? {
        NoLeavesAbove(n.children[k - 1].node, level - 1, Base(root, level, k - 1), address);
      }
    }
  }

  function AtMostTwo(k: nat): nat {
    if k < 2 then k else 2
  }

  /** The leaves visited: on a miss all that start at or below the address, but at most two altogether. */
  ghost predicate VisitsAtMostTwo<P>(
    n: Node<P>, level: nat, root: nat, address: nat, attempts: nat, attempts': nat, miss: bool)
    requires Shape(n, level)
  {
    attempts' <= 2 && (miss ==> attempts' == AtMostTwo(attempts + LeavesUpTo(n, level, root, address)))
  }

  /** The leaves of the first `k` children are still to come. */
  ghost predicate Remain<P>(n: Node<P>, level: nat, root: nat, address: nat, attempts: nat, attempts': nat, k: int)
    requires Shape(n, level) && level > 0
  {
    && 0 <= k <= FANOUT
    && attempts' + LeavesOfFirst(n, level, root, address, k) == attempts + LeavesUpTo(n, level, root, address)
  }

  lemma LeafVisited<P>(n: Node<P>, root: nat, address: nat, attempts: nat, attempts': nat, miss: bool)
    requires Shape(n, 0) && root <= address && attempts <= 1 && attempts' == attempts + 1
    ensures VisitsAtMostTwo(n, 0, root, address, attempts, attempts', miss)
  {
  }

  /** After a child without a hit, its leaves are behind, or two have been visited. */
  lemma RemainNext<P>(
    n: Node<P>, level: nat, root: nat, address: nat, attempts: nat, before: nat, attempts': nat, i: nat, miss: bool)
    requires Shape(n, level) && level > 0 && i < FANOUT && n.children[i].Ptr?
    requires Remain(n, level, root, address, attempts, before, i + 1)
    requires VisitsAtMostTwo(n.children[i].node, level - 1, Base(root, level, i), address, before, attempts', miss)
    ensures attempts' <= 2 && (miss && attempts' < 2 ==> Remain(n, level, root, address, attempts, attempts', i))
    ensures miss && attempts' >= 2 ==> VisitsAtMostTwo(n, level, root, address, attempts, attempts', true)
  {
  }

  /** get_entry on an intermediate node: children from the start downwards, until a hit or until
      two leaves have been visited. */
  method Search<P>(
    n: Node<P>, level: nat, address: nat, attempts: nat, root: nat)
    returns (r: Lookup<P>, attempts': nat)
    requires Shape(n, level) && level > 0 && Aligned(root, level) && Ranges(n, level, root)
    requires root <= address < WORD && attempts <= 1 && (attempts == 1 ==> Below(root, level, address))
    ensures Answers(n, level, root, address, r)
    ensures r.Miss? && attempts' >= 2 ==> SomeBelow(n, level, root, address)
    ensures VisitsAtMostTwo(n, level, root, address, attempts, attempts', r.Miss?)
    decreases level
  {
    var start := Start(root, level, address);
    NoneFromStart(n, level, root, address);
    StartCovers(root, level, address);
    NoLeavesBehind(n, level, root, address, FANOUT);
    var i: int := start;
    attempts' := attempts;
    while i >= 0
      invariant -1 <= i <= start && attempts' <= 1
      invariant attempts' == 1 ==> i < start || Below(root, level, address)
      invariant NoneFrom(n, level, root, address, Base(root, level, i + 1))
      invariant Remain(n, level, root, address, attempts, attempts', i + 1)
    {
      match n.children[i] {
        case Null =>
          NoChild(n, level, root, i, address);
          assert Remain(n, level, root, address, attempts, attempts', i);
        case Ptr(child) =>
          var base := Base(root, level, i);
          ChildPosition(root, level, i, start, address);
          ChildAligned(root, level, i);
          ChildRanges(n, level, root, i);
          if level == 1 {
            r := SearchLeaf(child, address, base);
            if attempts' == 1 { LeafBelow(child, base, address); }
            ghost var before := attempts';
            attempts' := attempts' + 1;
            LeafVisited(child, base, address, before, attempts', r.Miss?);
            RemainNext(n, level, root, address, attempts, before, attempts', i, r.Miss?);
          } else {
            ghost var before := attempts';
            r, attempts' := Search(child, level - 1, address, attempts', base);
            RemainNext(n, level, root, address, attempts, before, attempts', i, r.Miss?);
          }
          FromChild(n, level, root, i, address, r);
          if r.Hit? {
            return;
          }
          if attempts' >= 2 {
            Cutoff(n, level, root, i, address);
            return;
          }
      }
      i := i - 1;
    }
    BaseEnds(root, level);
    r := Miss;
  }

  /** The children visited do not start above the address, and only the first can reach it. */
  lemma ChildPosition(root: nat, level: nat, i: nat, start: nat, address: nat)
    requires level > 0 && i <= start < FANOUT && Base(root, level, start) <= address
    ensures Base(root, level, i) <= address
    ensures i < start || Below(root, level, address) ==> Below(Base(root, level, i), level - 1, address)
  {
    BaseMonotone(root, level, i, start);
    BaseStep(root, level, i);
    BaseEnds(root, level);
    if i < start { BaseMonotone(root, level, i + 1, start); } else { BaseMonotone(root, level, i + 1, FANOUT); }
  }
}
