/** The converse: a reader that runs before the transfer that feeds it sees stale contents. Hence a program
    has its sequential results in every course of the lanes exactly when every reader reaches, in the
    graph, the transfers that feed it. */
module CopyRaces {
  import opened Geometry
  import opened Dag
  import opened Builder
  import BuilderProofs
  import opened TransferOrder
  import opened Schedule
  import opened Serial
  import opened Lanes
  import opened LaneOrder
  import LanesProofs
  import Coherence
  import opened DeviceCopies

  // ---------------------------------------------------------------------------------------------
  // Contents that tell who wrote them

  /** Requirements that do not discard bring all outdated pages they access. */
  ghost predicate BringsAll(s: State, t: Setup, regions: Regions) {
    forall m, c | && Hits(s, regions, m, c) && c.dev == t.device(m) && !ValidAt(s, t, regions, m, c)
                  && !Coherence.Discards(s.access[m].mode)
      :: Fills(s, t, m, c)
  }

  /** The cell that the transfer of `n` copies into `c`. */
  ghost function SourceCell(t: Setup, n: NodeId, c: Cell): Cell {
    Cell(c.region, if n in t.plan then t.plan[n].source else 0, c.page)
  }

  /** Transfers copy. */
  ghost predicate Copying<V(!new)>(s: State, t: Setup, regions: Regions, k: Schedule.Kernel<Cell, V>) {
    forall n, inputs: map<Cell, V>, c | Fills(s, t, n, c) && !NodeChanges(s, t, regions, n, c)
      && SourceCell(t, n, c) in inputs
      :: k(n, inputs, c) == inputs[SourceCell(t, n, c)]
  }

  /** Kernels write their own number. */
  ghost function Tagging(s: State, t: Setup, regions: Regions): Schedule.Kernel<Cell, int> {
    (n: nat, inputs: map<Cell, int>, c: Cell) =>
      if NodeChanges(s, t, regions, n, c) then n
      else if SourceCell(t, n, c) in inputs then inputs[SourceCell(t, n, c)] else -2
  }

  lemma TaggingCopies(s: State, t: Setup, regions: Regions)
    ensures Copying(s, t, regions, Tagging(s, t, regions))
  {
  }

  /** The devices that occur. */
  ghost function DevicesOf(s: State, t: Setup): set<nat> {
    (set n | 0 <= n < |s.g.reqs| :: t.device(n)) + (set m | m in t.plan :: t.plan[m].source)
  }

  /** All copies of one page: valid ones hold -1, the others -2. */
  ghost function Fresh(s: State, t: Setup, region: nat, page: Vec3): map<Cell, int> {
    map d | d in DevicesOf(s, t) :: Cell(region, d, page) := if Cell(region, d, page) in t.valid then -1 else -2
  }

  /** Node `n` is a command that writes the page. */
  ghost predicate WritesAt(s: State, regions: Regions, n: NodeId, p: Page) {
    exists j :: 0 <= j < |s.commands| && s.commands[j].node == n && WritesPage(s.commands[j], p, regions)
  }

  /** The last command before node `n` that writes the page, or -1. */
  ghost function Latest(s: State, regions: Regions, n: nat, p: Page): (w: int)
    ensures -1 <= w < n && (w >= 0 ==> WritesAt(s, regions, w, p))
    ensures forall x: nat :: w < x < n ==> !WritesAt(s, regions, x, p)
  {
    if n == 0 then -1 else if WritesAt(s, regions, n - 1, p) then n - 1 else Latest(s, regions, n - 1, p)
  }

  // ---------------------------------------------------------------------------------------------
  // In submission order, valid cells hold the latest contents

  /** A requirement before `n` claims the cell for its command, which is not before `n`, to write it. */
  ghost predicate Pending(s: State, t: Setup, regions: Regions, n: nat, c: Cell) {
    exists w, j :: PendingFor(s, t, regions, n, c, w, j)
  }

  ghost predicate PendingFor(s: State, t: Setup, regions: Regions, n: nat, c: Cell, w: NodeId, j: int) {
    && Serves(s, w, j) && w < n <= s.commands[j].node && Hits(s, regions, w, c) && Writes(s.access[w].mode)
    && t.device(w) == c.dev
  }

  /** The contents before node `n` in submission order. */
  ghost function Sequentially(s: State, t: Setup, regions: Regions, mem: map<Cell, int>, n: nat): (m: map<Cell, int>)
    requires n <= |s.g.reqs|
    ensures m.Keys == mem.Keys
  {
    Schedule.After(Tagging(s, t, regions), mem, Submitted(s, t, regions)[..n])
  }

  /** What a node leaves in a cell. */
  lemma TaggedContents(s: State, t: Setup, regions: Regions, mem: map<Cell, int>, n: NodeId, c: Cell)
    requires c in mem
    ensures Schedule.Perform(Tagging(s, t, regions), mem, NodeOp(s, t, regions, n))[c] ==
            if NodeChanges(s, t, regions, n, c) then n
            else if Fills(s, t, n, c) then if SourceCell(t, n, c) in mem then mem[SourceCell(t, n, c)] else -2
            else mem[c]
  {
    if Fills(s, t, n, c) { assert Sources(s, t, n, SourceCell(t, n, c)); }
  }

  lemma NextContents(s: State, t: Setup, regions: Regions, mem: map<Cell, int>, n: nat, c: Cell)
    requires n < |s.g.reqs| && c in mem
    ensures var before, after := Sequentially(s, t, regions, mem, n), Sequentially(s, t, regions, mem, n + 1);
            after[c] == if NodeChanges(s, t, regions, n, c) then n
                        else if Fills(s, t, n, c) then if SourceCell(t, n, c) in mem then before[SourceCell(t, n, c)]
                          else -2
                        else before[c]
  {
    AfterNext(Tagging(s, t, regions), mem, Submitted(s, t, regions), n);
    TaggedContents(s, t, regions, Sequentially(s, t, regions, mem, n), n, c);
  }

  lemma ClaimIsWrite(s: State, t: Setup, regions: Regions, w: NodeId, j: int, c: Cell)
    requires FromRun(s, regions) && Protocol(s, t, regions)
    requires Serves(s, w, j) && Hits(s, regions, w, c) && Writes(s.access[w].mode) && t.device(w) == c.dev
    ensures NodeChanges(s, t, regions, s.commands[j].node, c)
  {
    RunOrdering(s, regions);
    assert WritesPage(s.commands[j], PageIn(c), regions);
    assert Changes(s, t, regions, j, c);
  }

  /** A pending claim is still pending afterwards, or the node is the command that writes the cell. */
  lemma PendingNext(s: State, t: Setup, regions: Regions, n: nat, c: Cell)
    requires FromRun(s, regions) && Protocol(s, t, regions) && Pending(s, t, regions, n, c)
    ensures Pending(s, t, regions, n + 1, c) || NodeChanges(s, t, regions, n, c)
  {
    var w, j :| PendingFor(s, t, regions, n, c, w, j);
    if n == s.commands[j].node {
      ClaimIsWrite(s, t, regions, w, j, c);
    } else {
      assert PendingFor(s, t, regions, n + 1, c, w, j);
    }
  }

  lemma ClaimIsPending(s: State, t: Setup, regions: Regions, n: nat, c: Cell)
    requires FromRun(s, regions) && Protocol(s, t, regions)
    requires Hits(s, regions, n, c) && Writes(s.access[n].mode) && t.device(n) == c.dev
    ensures Pending(s, t, regions, n + 1, c) || NodeChanges(s, t, regions, n, c)
  {
    var j := OwnerOf(s, regions, n);
    if n == s.commands[j].node {
      ClaimIsWrite(s, t, regions, n, j, c);
    } else {
      assert PendingFor(s, t, regions, n + 1, c, n, j);
    }
  }

  /** No claim is pending on the source of a transfer. */
  lemma SourceNotPending(s: State, t: Setup, regions: Regions, n: nat, c: Cell)
    requires FromRun(s, regions) && Protocol(s, t, regions) && Sources(s, t, n, c)
    ensures !Pending(s, t, regions, n, c)
  {
    if Pending(s, t, regions, n, c) {
      var w, j :| PendingFor(s, t, regions, n, c, w, j);
      PendingHasDevice(s, t, regions, n, c, w, j);
    }
  }

  lemma PendingHasDevice(s: State, t: Setup, regions: Regions, n: nat, c: Cell, w: NodeId, j: int)
    requires Protocol(s, t, regions) && PendingFor(s, t, regions, n, c, w, j) && n in s.access
    ensures t.device(n) == c.dev
  {
    assert Serves(s, n, j);
  }

  lemma {:induction false} StaysOutdated(s: State, t: Setup, regions: Regions, k: nat, k': nat, c: Cell)
    requires k <= k' && !ValidAt(s, t, regions, k, c)
    requires forall m: nat :: k <= m < k' && Hits(s, regions, m, c) ==> t.device(m) != c.dev
    ensures !ValidAt(s, t, regions, k', c)
    decreases k'
  {
    if k < k' { StaysOutdated(s, t, regions, k, k' - 1, c); }
  }

  /** After a command that writes a page, the page is outdated on the other devices. */
  lemma OthersOutdated(s: State, t: Setup, regions: Regions, j: int, c: Cell)
    requires FromRun(s, regions) && Protocol(s, t, regions) && 0 <= j < |s.commands|
    requires WritesPage(s.commands[j], PageIn(c), regions) && t.device(s.commands[j].node) != c.dev
    ensures !ValidAt(s, t, regions, s.commands[j].node + 1, c)
  {
    var a :| a in s.commands[j].accesses && Writes(a.mode) && AccessTouches(a, PageIn(c), regions);
    var w := RequirementOf(s, regions, j, a);
    ClaimOutdates(s, t, regions, w, j, c);
  }

  lemma ClaimOutdates(s: State, t: Setup, regions: Regions, w: NodeId, j: int, c: Cell)
    requires Protocol(s, t, regions) && Serves(s, w, j) && t.device(s.commands[j].node) != c.dev
    requires Hits(s, regions, w, c) && Writes(s.access[w].mode)
    ensures !ValidAt(s, t, regions, s.commands[j].node + 1, c)
  {
    forall m: nat | w <= m < s.commands[j].node + 1 && Hits(s, regions, m, c) ensures t.device(m) != c.dev {
      assert Serves(s, m, j);
    }
    StaysOutdated(s, t, regions, w + 1, s.commands[j].node + 1, c);
  }

  /** What holds before node `n` of a valid cell. */
  ghost predicate Current(s: State, t: Setup, regions: Regions, mem: map<Cell, int>, n: nat, c: Cell)
    requires n <= |s.g.reqs| && c in mem
  {
    ValidAt(s, t, regions, n, c) ==>
      || Sequentially(s, t, regions, mem, n)[c] == Latest(s, regions, n, PageIn(c))
      || Pending(s, t, regions, n, c)
  }

  ghost predicate AllCurrent(s: State, t: Setup, regions: Regions, mem: map<Cell, int>, n: nat)
    requires n <= |s.g.reqs|
  {
    forall c | c in mem :: Current(s, t, regions, mem, n, c)
  }

  /** The memory holds all copies of the pages it holds, and tells valid cells from others. */
  ghost predicate Marks(s: State, t: Setup, mem: map<Cell, int>) {
    && (forall c :: c in mem ==> mem[c] == if c in t.valid then -1 else -2)
    && (forall m, c :: Fills(s, t, m, c) && c in mem ==> SourceCell(t, m, c) in mem)
  }

  lemma FilledIsCurrent(s: State, t: Setup, regions: Regions, mem: map<Cell, int>, n: nat, c: Cell)
    requires FromRun(s, regions) && Protocol(s, t, regions) && Marks(s, t, mem)
    requires n <= |s.g.reqs| && AllCurrent(s, t, regions, mem, n) && c in mem && Fills(s, t, n, c)
    ensures SourceCell(t, n, c) in mem
    ensures Sequentially(s, t, regions, mem, n)[SourceCell(t, n, c)] == Latest(s, regions, n, PageIn(c))
  {
    var src := SourceCell(t, n, c);
    assert Sources(s, t, n, src) && PageIn(src) == PageIn(c);
    SourceNotPending(s, t, regions, n, src);
    assert Current(s, t, regions, mem, n, src);
  }

  lemma NextIsCurrent(s: State, t: Setup, regions: Regions, mem: map<Cell, int>, n: nat, c: Cell)
    requires FromRun(s, regions) && Protocol(s, t, regions) && BringsAll(s, t, regions) && Marks(s, t, mem)
    requires n < |s.g.reqs| && AllCurrent(s, t, regions, mem, n) && c in mem
    ensures Current(s, t, regions, mem, n + 1, c)
  {
    NextContents(s, t, regions, mem, n, c);
    if ValidAt(s, t, regions, n + 1, c) && !Pending(s, t, regions, n + 1, c) {
      if NodeChanges(s, t, regions, n, c) {
        ChangesWrite(s, t, regions, n, c);
      } else if WritesAt(s, regions, n, PageIn(c)) {
        WrittenElsewhere(s, t, regions, n, c);
      } else if Fills(s, t, n, c) {
        FilledIsCurrent(s, t, regions, mem, n, c);
      } else {
        UntouchedIsCurrent(s, t, regions, mem, n, c);
      }
    }
  }

  lemma ChangesWrite(s: State, t: Setup, regions: Regions, n: NodeId, c: Cell)
    requires NodeChanges(s, t, regions, n, c)
    ensures WritesAt(s, regions, n, PageIn(c)) && Latest(s, regions, n + 1, PageIn(c)) == n
  {
  }

  lemma WrittenElsewhere(s: State, t: Setup, regions: Regions, n: NodeId, c: Cell)
    requires FromRun(s, regions) && Protocol(s, t, regions)
    requires WritesAt(s, regions, n, PageIn(c)) && !NodeChanges(s, t, regions, n, c)
    ensures !ValidAt(s, t, regions, n + 1, c)
  {
    var j :| 0 <= j < |s.commands| && s.commands[j].node == n && WritesPage(s.commands[j], PageIn(c), regions);
    var changed := Changes(s, t, regions, j, c);
    OthersOutdated(s, t, regions, j, c);
  }

  lemma UntouchedIsCurrent(s: State, t: Setup, regions: Regions, mem: map<Cell, int>, n: nat, c: Cell)
    requires FromRun(s, regions) && Protocol(s, t, regions) && BringsAll(s, t, regions)
    requires n < |s.g.reqs| && c in mem && Current(s, t, regions, mem, n, c)
    requires !NodeChanges(s, t, regions, n, c) && !Fills(s, t, n, c)
    requires ValidAt(s, t, regions, n + 1, c) && !Pending(s, t, regions, n + 1, c)
    ensures Sequentially(s, t, regions, mem, n)[c] == Latest(s, regions, n, PageIn(c))
  {
    if ValidAt(s, t, regions, n, c) {
      if Pending(s, t, regions, n, c) { PendingNext(s, t, regions, n, c); }
    } else {
      ClaimIsPending(s, t, regions, n, c);
    }
  }

  lemma FirstIsCurrent(s: State, t: Setup, regions: Regions, mem: map<Cell, int>)
    requires Marks(s, t, mem)
    ensures AllCurrent(s, t, regions, mem, 0)
  {
    assert Submitted(s, t, regions)[..0] == [];
  }

  lemma AllNextCurrent(s: State, t: Setup, regions: Regions, mem: map<Cell, int>, n: nat)
    requires FromRun(s, regions) && Protocol(s, t, regions) && BringsAll(s, t, regions) && Marks(s, t, mem)
    requires n < |s.g.reqs| && AllCurrent(s, t, regions, mem, n)
    ensures AllCurrent(s, t, regions, mem, n + 1)
  {
    forall c | c in mem ensures Current(s, t, regions, mem, n + 1, c) { NextIsCurrent(s, t, regions, mem, n, c); }
  }

  lemma SequentiallyCurrent(s: State, t: Setup, regions: Regions, mem: map<Cell, int>, n: nat)
    requires FromRun(s, regions) && Protocol(s, t, regions) && BringsAll(s, t, regions) && Marks(s, t, mem)
    requires n <= |s.g.reqs|
    ensures AllCurrent(s, t, regions, mem, n)
  {
    FirstIsCurrent(s, t, regions, mem);
    for i := 0 to n
      invariant AllCurrent(s, t, regions, mem, i)
    {
      AllNextCurrent(s, t, regions, mem, i);
    }
  }

  // ---------------------------------------------------------------------------------------------
  // In a run

  /** The contents before position `l` of the order of completion. */
  ghost function InRun(s: State, t: Setup, regions: Regions, mem: map<Cell, int>, l: nat): (m: map<Cell, int>)
    requires l <= |s.order|
    ensures m.Keys == mem.Keys
  {
    Schedule.After(Tagging(s, t, regions), mem, Completed(s, t, regions)[..l])
  }

  lemma NextInRun(s: State, t: Setup, regions: Regions, mem: map<Cell, int>, l: nat, c: Cell)
    requires l < |s.order| && c in mem
    ensures var before, after, n := InRun(s, t, regions, mem, l), InRun(s, t, regions, mem, l + 1), s.order[l];
            after[c] == if NodeChanges(s, t, regions, n, c) then n
                        else if Fills(s, t, n, c) then if SourceCell(t, n, c) in mem then before[SourceCell(t, n, c)]
                          else -2
                        else before[c]
  {
    AfterNext(Tagging(s, t, regions), mem, Completed(s, t, regions), l);
    TaggedContents(s, t, regions, InRun(s, t, regions, mem, l), s.order[l], c);
  }

  /** The contents of the cell come from a kernel that has run, or from the start. */
  ghost predicate FromDone(s: State, t: Setup, regions: Regions, mem: map<Cell, int>, l: nat, c: Cell)
    requires l <= |s.order| && c in mem
  {
    var v := InRun(s, t, regions, mem, l)[c];
    v < 0 || exists q :: 0 <= q < l && s.order[q] == v
  }

  lemma NextFromDone(s: State, t: Setup, regions: Regions, mem: map<Cell, int>, l: nat, c: Cell)
    requires l < |s.order| && c in mem && Marks(s, t, mem)
    requires forall x :: x in mem ==> FromDone(s, t, regions, mem, l, x)
    ensures FromDone(s, t, regions, mem, l + 1, c)
  {
    NextInRun(s, t, regions, mem, l, c);
    var n := s.order[l];
    var from := if Fills(s, t, n, c) then SourceCell(t, n, c) else c;
    assert FromDone(s, t, regions, mem, l, from);
  }

  lemma {:induction false} TagsAreDone(s: State, t: Setup, regions: Regions, mem: map<Cell, int>, l: nat)
    requires l <= |s.order| && Marks(s, t, mem)
    ensures forall c :: c in mem ==> FromDone(s, t, regions, mem, l, c)
    decreases l
  {
    if l > 0 {
      TagsAreDone(s, t, regions, mem, l - 1);
      forall c | c in mem ensures FromDone(s, t, regions, mem, l, c) { NextFromDone(s, t, regions, mem, l - 1, c); }
    }
  }

  /** Before a valid page is brought again, a command has written it. */
  lemma WrittenBetween(s: State, t: Setup, regions: Regions, k: nat, a: NodeId, c: Cell) returns (l: int)
    requires FromRun(s, regions) && Protocol(s, t, regions) && k <= a && ValidAt(s, t, regions, k, c)
    requires Fills(s, t, a, c)
    ensures 0 <= l < |s.commands| && k <= s.commands[l].node < a && t.device(s.commands[l].node) != c.dev
    ensures Latest(s, regions, a, PageIn(c)) >= s.commands[l].node
  {
    var w;
    w, l := Rewritten(s, t, regions, k, a, c);
    var i := OwnerOf(s, regions, a);
    LaterServes(s, regions, w, l, i);
    LastOfEarlier(s, regions, l, i, a);
    LatestIsLater(s, regions, l, a, PageIn(c));
  }

  lemma LatestIsLater(s: State, regions: Regions, l: int, a: NodeId, p: Page)
    requires 0 <= l < |s.commands| && s.commands[l].node < a && WritesPage(s.commands[l], p, regions)
    ensures Latest(s, regions, a, p) >= s.commands[l].node
  {
    assert WritesAt(s, regions, s.commands[l].node, p);
  }

  lemma LastOfEarlier(s: State, regions: Regions, l: int, i: int, a: NodeId)
    requires FromRun(s, regions) && Serves(s, a, i) && 0 <= l < i
    ensures s.commands[l].node < a
  {
    RunOrdering(s, regions);
    EndOfEarlier(s, l, i, a);
  }

  lemma EndOfEarlier(s: State, l: int, i: int, a: NodeId)
    requires Increasing(s.commands) && Serves(s, a, i) && 0 <= l < i
    ensures s.commands[l].node < a
  {
    assert s.commands[l].node <= s.commands[i - 1].node;
  }

  /** A kernel that wrote a cell is not the latest writer of its page when the cell is filled. */
  lemma OlderKernel(s: State, t: Setup, regions: Regions, x: NodeId, a: NodeId, c: Cell)
    requires FromRun(s, regions) && Protocol(s, t, regions) && NodeChanges(s, t, regions, x, c) && x < a
    requires Fills(s, t, a, c)
    ensures Latest(s, regions, a, PageIn(c)) > x
  {
    var i :| 0 <= i < |s.commands| && s.commands[i].node == x && Changes(s, t, regions, i, c);
    ChangeIsUse(s, t, regions, i, c);
    var m := UsedIsValid(s, t, regions, i, c);
    var l := WrittenBetween(s, t, regions, m + 1, a, c);
    LaterServes(s, regions, m, i, l);
    if i < l { EarlierNode(s, regions, i, l); }
  }

  lemma EarlierNode(s: State, regions: Regions, i: int, l: int)
    requires FromRun(s, regions) && 0 <= i < l < |s.commands|
    ensures s.commands[i].node < s.commands[l].node
  {
    RunOrdering(s, regions);
  }

  lemma BeforeIsEarlier(s: State, regions: Regions, x: NodeId, y: NodeId, l: nat, q: nat)
    requires FromRun(s, regions) && Before(s.order, x, y)
    requires l < |s.order| && q < |s.order| && s.order[l] == x && s.order[q] == y
    ensures l < q
  {
    OrderIsDistinct(s, regions);
    assert x in s.order[..q];
    var l' :| 0 <= l' < q && s.order[l'] == x;
  }

  /** A transfer of `x` cannot have brought the contents that a later command writes. */
  lemma CopiedIsOlder(s: State, t: Setup, regions: Regions, mem: map<Cell, int>, x: NodeId, a: NodeId, c: Cell, q: nat)
    requires FromRun(s, regions) && Protocol(s, t, regions) && Marks(s, t, mem) && c in mem
    requires Fills(s, t, x, c) && Fills(s, t, a, c) && x < a && q < |s.order| && s.order[q] == x
    ensures SourceCell(t, x, c) in mem
    ensures InRun(s, t, regions, mem, q)[SourceCell(t, x, c)] != Latest(s, regions, a, PageIn(c))
  {
    var src, last := SourceCell(t, x, c), Latest(s, regions, a, PageIn(c));
    var l := WrittenBetween(s, t, regions, x + 1, a, c);
    TransferBeforeLatest(s, t, regions, x, last, c);
    TagsAreDone(s, t, regions, mem, q);
    assert FromDone(s, t, regions, mem, q, src);
    LaterHasNotRun(s, regions, x, last, q);
  }

  lemma LaterHasNotRun(s: State, regions: Regions, x: NodeId, y: NodeId, q: nat)
    requires FromRun(s, regions) && Before(s.order, x, y) && q < |s.order| && s.order[q] == x
    ensures forall i :: 0 <= i < q ==> s.order[i] != y
  {
    forall i | 0 <= i < q ensures s.order[i] != y {
      if s.order[i] == y { BeforeIsEarlier(s, regions, x, y, q, i); }
    }
  }

  lemma TransferBeforeLatest(s: State, t: Setup, regions: Regions, x: NodeId, last: NodeId, c: Cell)
    requires FromRun(s, regions) && Protocol(s, t, regions) && Fills(s, t, x, c)
    requires x < last && WritesAt(s, regions, last, PageIn(c))
    ensures Before(s.order, x, last)
  {
    var j :| 0 <= j < |s.commands| && s.commands[j].node == last && WritesPage(s.commands[j], PageIn(c), regions);
    var i := OwnerOf(s, regions, x);
    LaterServes(s, regions, x, i, j);
    BeforeWriter(s, regions, x, i, j, c);
  }

  /** Only nodes older than the missing transfer have written the cell. */
  lemma WriterIsOlder(s: State, t: Setup, regions: Regions, a: NodeId, b: NodeId, c: Cell, l: nat, q: nat)
    requires FromRun(s, regions) && Protocol(s, t, regions) && FeedsAt(s, t, regions, a, b, c)
    requires q < l < |s.order| && s.order[l] == b && a !in s.order[..l] && c in NodeOp(s, t, regions, s.order[q]).writes
    ensures s.order[q] < a
  {
    var x := s.order[q];
    assert x != a by { assert s.order[..l][q] == x; }
    OrderIsDistinct(s, regions);
    if x > b {
      WriterComesLater(s, t, regions, b, x, c);
      BeforeIsEarlier(s, regions, b, x, l, q);
    }
  }

  /** The cell is not given the latest contents by a node before the reader. */
  lemma StaleNext(
    s: State, t: Setup, regions: Regions, mem: map<Cell, int>, a: NodeId, b: NodeId, c: Cell, l: nat, q: nat)
    requires FromRun(s, regions) && Protocol(s, t, regions) && Marks(s, t, mem) && c in mem
    requires FeedsAt(s, t, regions, a, b, c) && q < l < |s.order| && s.order[l] == b && a !in s.order[..l]
    requires InRun(s, t, regions, mem, q)[c] != Latest(s, regions, a, PageIn(c))
    ensures InRun(s, t, regions, mem, q + 1)[c] != Latest(s, regions, a, PageIn(c))
  {
    var x := s.order[q];
    NextInRun(s, t, regions, mem, q, c);
    if c in NodeOp(s, t, regions, x).writes {
      WriterIsOlder(s, t, regions, a, b, c, l, q);
      if NodeChanges(s, t, regions, x, c) {
        OlderKernel(s, t, regions, x, a, c);
      } else {
        CopiedIsOlder(s, t, regions, mem, x, a, c, q);
      }
    }
  }

  lemma StaleAtFirst(s: State, t: Setup, regions: Regions, mem: map<Cell, int>, a: NodeId, c: Cell)
    requires FromRun(s, regions) && Protocol(s, t, regions) && Marks(s, t, mem) && c in mem && Fills(s, t, a, c)
    ensures InRun(s, t, regions, mem, 0)[c] != Latest(s, regions, a, PageIn(c))
  {
    if c in t.valid {
      var l := WrittenBetween(s, t, regions, 0, a, c);
    }
  }

  /** Up to the reader, the cell does not hold the latest contents. */
  lemma {:induction false} StaleInRun(
    s: State, t: Setup, regions: Regions, mem: map<Cell, int>, a: NodeId, b: NodeId, c: Cell, l: nat, q: nat)
    requires FromRun(s, regions) && Protocol(s, t, regions) && Marks(s, t, mem) && c in mem
    requires FeedsAt(s, t, regions, a, b, c) && q <= l < |s.order| && s.order[l] == b && a !in s.order[..l]
    ensures InRun(s, t, regions, mem, q)[c] != Latest(s, regions, a, PageIn(c))
    decreases q
  {
    if q == 0 {
      StaleAtFirst(s, t, regions, mem, a, c);
    } else {
      StaleInRun(s, t, regions, mem, a, b, c, l, q - 1);
      StaleNext(s, t, regions, mem, a, b, c, l, q - 1);
    }
  }

  // ---------------------------------------------------------------------------------------------
  // A reader before its transfer

  lemma FedContents(s: State, t: Setup, regions: Regions, mem: map<Cell, int>, a: NodeId, b: NodeId, c: Cell)
    requires FeedsAt(s, t, regions, a, b, c) && b <= |s.g.reqs| && c in mem
    ensures Sequentially(s, t, regions, mem, b)[c] == Sequentially(s, t, regions, mem, a + 1)[c]
  {
    Unwritten(Tagging(s, t, regions), mem, Submitted(s, t, regions), a + 1, b, c);
  }

  lemma FedIsLatest(s: State, t: Setup, regions: Regions, mem: map<Cell, int>, a: NodeId, b: NodeId, c: Cell)
    requires FromRun(s, regions) && Protocol(s, t, regions) && BringsAll(s, t, regions) && Marks(s, t, mem) && c in mem
    requires FeedsAt(s, t, regions, a, b, c) && b <= |s.g.reqs| && !NodeChanges(s, t, regions, a, c)
    ensures Sequentially(s, t, regions, mem, b)[c] == Latest(s, regions, a, PageIn(c))
  {
    SequentiallyCurrent(s, t, regions, mem, a);
    FilledIsCurrent(s, t, regions, mem, a, c);
    NextContents(s, t, regions, mem, a, c);
    FedContents(s, t, regions, mem, a, b, c);
  }

  lemma FreshMarks(s: State, t: Setup, region: nat, page: Vec3)
    ensures Marks(s, t, Fresh(s, t, region, page))
    ensures forall n: nat :: n < |s.g.reqs| ==> Cell(region, t.device(n), page) in Fresh(s, t, region, page)
  {
  }

  /** A reader that completes before the transfer that feeds it sees other contents than in submission
      order, when kernels write their own number. */
  lemma EarlyReaderSeesStale(s: State, t: Setup, regions: Regions, a: NodeId, b: NodeId, l: nat)
    requires FromRun(s, regions) && Protocol(s, t, regions) && BringsAll(s, t, regions) && Feeds(s, t, regions, a, b)
    requires l < |s.order| && s.order[l] == b && a !in s.order[..l]
    ensures exists mem :: !SeesSequential(s, t, regions, Tagging(s, t, regions), mem)
  {
    var c :| FeedsAt(s, t, regions, a, b, c);
    var mem := Fresh(s, t, c.region, c.page);
    FreshMarks(s, t, c.region, c.page);
    OrderIsDistinct(s, regions);
    if NodeChanges(s, t, regions, a, c) { ReaderFollowsKernel(s, t, regions, a, b, c); }
    FedIsLatest(s, t, regions, mem, a, b, c);
    StaleInRun(s, t, regions, mem, a, b, c, l, l);
    DifferentInputs(s, t, regions, mem, l, c);
  }

  lemma DifferentInputs(s: State, t: Setup, regions: Regions, mem: map<Cell, int>, l: nat, c: Cell)
    requires l < |s.order| && s.order[l] < |s.g.reqs| && c in mem && c in NodeOp(s, t, regions, s.order[l]).touches
    requires InRun(s, t, regions, mem, l)[c] != Sequentially(s, t, regions, mem, s.order[l])[c]
    ensures !SeesSequential(s, t, regions, Tagging(s, t, regions), mem)
  {
    var k, done, subs := Tagging(s, t, regions), Completed(s, t, regions), Submitted(s, t, regions);
    var seen := Schedule.Inputs(Schedule.After(k, mem, done[..l]), done[l]);
    var due := Schedule.Inputs(Schedule.After(k, mem, subs[..s.order[l]]), done[l]);
    assert seen[c] != due[c];
  }

  // ---------------------------------------------------------------------------------------------
  // Exactly when a program keeps its sequential results on lanes

  lemma {:induction false} LanesKeepGraph(y: Sys, steps: seq<SysEvent>, regions: Regions, backend: Backends, y': Sys)
    requires SysInv(y, regions) && OnlyLanes(steps) && IsSysRun(y, steps, regions, backend, y')
    ensures y'.dag == y.dag.(order := y'.dag.order)
    decreases |steps|
  {
    if steps != [] {
      var y1 := SysRunHead(y, steps, regions, backend, y');
      LaneStepKeepsGraph(y, steps[0], regions, backend);
      LanesProofs.SysStepKeepsInv(y, backend, steps[0], regions);
      LanesKeepGraph(y1, steps[1..], regions, backend, y');
    }
  }

  lemma LaneStepKeepsGraph(y: Sys, e: SysEvent, regions: Regions, backend: Backends)
    requires EarlierOnly(y.dag.g) && SysEnabled(y, e, regions) && !e.Host?
    ensures SysApply(y, e, regions, backend).dag == y.dag.(order := SysApply(y, e, regions, backend).dag.order)
  {
    match e
    case SubmitOp(n, lane, seen) =>
    case SubmitVirtual(n) => LanesProofs.SettleFacts(y.dag, y.place[n := Virtual], |y.dag.g.reqs|);
    case Step(lane) => LanesProofs.SettleFacts(Passed(y, lane).dag, y.place, |y.dag.g.reqs|);
  }

  lemma {:induction false} SameTables(s: State, s': State, t: Setup, regions: Regions, k: nat, c: Cell)
    requires s'.access == s.access
    ensures ValidAt(s', t, regions, k, c) <==> ValidAt(s, t, regions, k, c)
    decreases k
  {
    if k > 0 { SameTables(s, s', t, regions, k - 1, c); }
  }

  lemma SameNodeOp(s: State, s': State, t: Setup, regions: Regions, n: NodeId)
    requires s'.access == s.access && s'.commands == s.commands
    ensures NodeOp(s', t, regions, n) == NodeOp(s, t, regions, n)
  {
    assert forall c :: NodeUses(s', t, regions, n, c) <==> NodeUses(s, t, regions, n, c);
    assert forall c :: NodeChanges(s', t, regions, n, c) <==> NodeChanges(s, t, regions, n, c);
  }

  /** Which transfers feed which readers, and whether the protocol is kept, does not depend on the order of
      completion. */
  lemma SameFeeds(s: State, s': State, t: Setup, regions: Regions, a: NodeId, b: NodeId)
    requires s'.access == s.access && s'.commands == s.commands && Feeds(s, t, regions, a, b)
    ensures Feeds(s', t, regions, a, b)
  {
    var c :| FeedsAt(s, t, regions, a, b, c);
    forall n: NodeId ensures NodeOp(s', t, regions, n) == NodeOp(s, t, regions, n) { SameNodeOp(s, s', t, regions, n); }
    assert FeedsAt(s', t, regions, a, b, c);
  }

  lemma SameProtocol(s: State, s': State, t: Setup, regions: Regions)
    requires s'.access == s.access && s'.commands == s.commands && Protocol(s, t, regions)
    ensures Protocol(s', t, regions)
  {
    forall m, j | Serves(s', m, j) ensures t.device(m) == t.device(s'.commands[j].node) { assert Serves(s, m, j); }
    forall m, c | Fills(s', t, m, c) ensures Hits(s', regions, m, c) && !ValidAt(s', t, regions, m, c) {
      assert Fills(s, t, m, c);
      SameTables(s, s', t, regions, m, c);
    }
    forall m, c | Sources(s', t, m, c)
      ensures Hits(s', regions, m, c) && ValidAt(s', t, regions, m, c) && c.dev != t.device(m)
    {
      assert Sources(s, t, m, c);
      SameTables(s, s', t, regions, m, c);
    }
  }

  lemma SameBringsAll(s: State, s': State, t: Setup, regions: Regions)
    requires s'.access == s.access && s'.commands == s.commands && BringsAll(s, t, regions)
    ensures BringsAll(s', t, regions)
  {
    forall m, c | && Hits(s', regions, m, c) && c.dev == t.device(m) && !ValidAt(s', t, regions, m, c)
                  && !Coherence.Discards(s'.access[m].mode)
      ensures Fills(s', t, m, c)
    {
      SameTables(s, s', t, regions, m, c);
      assert Hits(s, regions, m, c) && Fills(s, t, m, c);
    }
  }

  /** Every reader reaches the transfers that feed it. */
  ghost predicate FedReached(s: State, t: Setup, regions: Regions)
    requires EarlierOnly(s.g)
  {
    forall a, b :: Feeds(s, t, regions, a, b) ==> Reaches(s.g, b, a)
  }

  /** The requirement nodes without a transfer, which are submitted virtually. */
  ghost function Idle(s: State, t: Setup): set<NodeId> {
    set n | 0 <= n < |s.g.reqs| && n in s.access && n !in t.plan
  }

  /** The groups of `events` are built, the nodes are submitted in that order, those of `vs` virtually and
      the others to any lanes, and the lanes go on until `y`. */
  ghost predicate Flushed(
    events: seq<Event>, nodes: nat, vs: set<NodeId>, regions: Regions, backend: Backends, y: Sys) {
    exists lanes, steps ::
      && OnlyLanes(steps) && InTurn(steps, nodes, vs)
      && IsSysRun(Start(lanes), Hosts(events) + steps, regions, backend, y)
  }

  /** Whatever the lanes and their course, whatever kernels compute and the copies hold at first, every
      transfer and kernel sees the contents of submission order. */
  ghost predicate AlwaysSequential(events: seq<Event>, s: State, t: Setup, regions: Regions, backend: Backends) {
    forall y, k: Schedule.Kernel<Cell, int>, mem: map<Cell, int> |
      Flushed(events, |s.g.reqs|, Idle(s, t), regions, backend, y) && Copying(s, t, regions, k)
      :: SeesSequential(y.dag, t, regions, k, mem)
  }

  lemma FlushedKeepsGraph(
    events: seq<Event>, regions: Regions, backend: Backends, s: State, lanes: nat, steps: seq<SysEvent>, y: Sys)
    requires OnlySubmits(events) && IsRun(Init, events, regions, s) && OnlyLanes(steps)
    requires IsSysRun(Start(lanes), Hosts(events) + steps, regions, backend, y)
    ensures y.dag == s.(order := y.dag.order) && FromRun(y.dag, regions)
  {
    var m := SysRunSplit(Start(lanes), Hosts(events), steps, regions, backend, y);
    HostRunUnique(Start(lanes), events, regions, backend, s, m);
    LanesProofs.StartInv(lanes, regions);
    var before := LanesProofs.SysRunRefines(Start(lanes), Hosts(events), regions, backend, m);
    LanesKeepGraph(m, steps, regions, backend, y);
    var whole := LanesProofs.SysRunRefines(Start(lanes), Hosts(events) + steps, regions, backend, y);
  }

  lemma BuiltEarlierOnly(events: seq<Event>, regions: Regions, s: State)
    requires OnlySubmits(events) && IsRun(Init, events, regions, s)
    ensures EarlierOnly(s.g) && Untouched(s) && FromRun(s, regions)
    ensures forall n :: n in s.access ==> n < |s.g.reqs|
    ensures forall j :: 0 <= j < |s.commands| ==> s.commands[j].node < |s.g.reqs|
  {
    InitPlaced(regions);
    SubmitsTouchNothing(Init, events, regions, s);
  }

  lemma ReachedIsFed(
    events: seq<Event>, t: Setup, regions: Regions, backend: Backends, s: State, lanes: nat, steps: seq<SysEvent>,
      y: Sys)
    requires OnlySubmits(events) && IsRun(Init, events, regions, s) && EarlierOnly(s.g) && FedReached(s, t, regions)
    requires IsSysRun(Start(lanes), Hosts(events) + steps, regions, backend, y) && y.dag == s.(order := y.dag.order)
    ensures FedInOrder(y.dag, t, regions)
  {
    forall a, b | Feeds(y.dag, t, regions, a, b) ensures Before(y.dag.order, a, b) {
      SameFeeds(y.dag, s, t, regions, a, b);
      assert Reaches(s.g, b, a);
      ReachedIsFirst(events, regions, backend, s, a, b, lanes, steps, y);
    }
  }

  lemma ReachedIsSequential<V>(
    events: seq<Event>, t: Setup, regions: Regions, backend: Backends, s: State, lanes: nat, steps: seq<SysEvent>,
      y: Sys,
    k: Schedule.Kernel<Cell, V>, mem: map<Cell, V>)
    requires OnlySubmits(events) && IsRun(Init, events, regions, s) && OnlyLanes(steps)
    requires IsSysRun(Start(lanes), Hosts(events) + steps, regions, backend, y)
    requires EarlierOnly(s.g) && Protocol(s, t, regions) && FedReached(s, t, regions)
    ensures SeesSequential(y.dag, t, regions, k, mem)
  {
    FlushedKeepsGraph(events, regions, backend, s, lanes, steps, y);
    ReachedIsFed(events, t, regions, backend, s, lanes, steps, y);
    SameProtocol(s, y.dag, t, regions);
    CopiesAreSerialisable(y.dag, t, regions, k, mem);
  }

  lemma FeederAndReader(events: seq<Event>, t: Setup, regions: Regions, s: State, a: NodeId, b: NodeId)
    requires OnlySubmits(events) && IsRun(Init, events, regions, s) && Feeds(s, t, regions, a, b)
    ensures a < b < |s.g.reqs| && a !in Idle(s, t)
  {
    BuiltEarlierOnly(events, regions, s);
    var c :| FeedsAt(s, t, regions, a, b, c);
  }

  /** A reader that does not reach the transfer feeding it can complete first. */
  lemma UnreachedRunsEarly(
    events: seq<Event>, t: Setup, regions: Regions, backend: Backends, s: State, a: NodeId, b: NodeId)
    returns (y: Sys, l: nat)
    requires OnlySubmits(events) && IsRun(Init, events, regions, s) && EarlierOnly(s.g)
    requires Feeds(s, t, regions, a, b) && !Reaches(s.g, b, a)
    ensures Flushed(events, |s.g.reqs|, Idle(s, t), regions, backend, y) && FromRun(y.dag, regions)
    ensures y.dag == s.(order := y.dag.order) && l < |y.dag.order| && y.dag.order[l] == b && a !in y.dag.order[..l]
  {
    BuiltEarlierOnly(events, regions, s);
    FeederAndReader(events, t, regions, s, a, b);
    var steps;
    steps, y := CompletesAlone(events, Idle(s, t), regions, backend, s, b);
    assert InTurn(steps, |s.g.reqs|, Idle(s, t));
    FlushedKeepsGraph(events, regions, backend, s, |s.g.reqs|, steps, y);
    l :| 0 <= l < |y.dag.order| && y.dag.order[l] == b;
  }

  lemma UnreachedIsNotSequential(
    events: seq<Event>, t: Setup, regions: Regions, backend: Backends, s: State, a: NodeId, b: NodeId)
    requires OnlySubmits(events) && IsRun(Init, events, regions, s) && EarlierOnly(s.g)
    requires Protocol(s, t, regions) && BringsAll(s, t, regions) && Feeds(s, t, regions, a, b) && !Reaches(s.g, b, a)
    ensures !AlwaysSequential(events, s, t, regions, backend)
  {
    var y, l := UnreachedRunsEarly(events, t, regions, backend, s, a, b);
    SameProtocol(s, y.dag, t, regions);
    SameBringsAll(s, y.dag, t, regions);
    SameFeeds(s, y.dag, t, regions, a, b);
    EarlyReaderSeesStale(y.dag, t, regions, a, b, l);
    SameTagging(s, y.dag, t, regions);
  }

  lemma SameTagging(s: State, s': State, t: Setup, regions: Regions)
    requires s'.access == s.access && s'.commands == s.commands
    ensures Copying(s, t, regions, Tagging(s', t, regions))
  {
    forall n: NodeId, c ensures NodeChanges(s', t, regions, n, c) <==> NodeChanges(s, t, regions, n, c) { }
  }

  /** For every list of command groups, page tables at the start and protocol decisions: on all lanes and in all
      their courses every transfer and kernel sees, in the copies, the contents of submission order,
      exactly when every reader reaches in the graph each transfer that feeds it. */
  lemma SequentialIffReached(events: seq<Event>, t: Setup, regions: Regions, backend: Backends, s: State)
    requires OnlySubmits(events) && IsRun(Init, events, regions, s) && Protocol(s, t, regions)
    requires BringsAll(s, t, regions)
    ensures EarlierOnly(s.g)
    ensures AlwaysSequential(events, s, t, regions, backend) <==> FedReached(s, t, regions)
  {
    BuiltEarlierOnly(events, regions, s);
    if FedReached(s, t, regions) {
      forall y, k: Schedule.Kernel<Cell, int>, mem: map<Cell, int> |
        Flushed(events, |s.g.reqs|, Idle(s, t), regions, backend, y) && Copying(s, t, regions, k)
        ensures SeesSequential(y.dag, t, regions, k, mem)
      {
        var lanes, steps :| && OnlyLanes(steps) && InTurn(steps, |s.g.reqs|, Idle(s, t))
                            && IsSysRun(Start(lanes), Hosts(events) + steps, regions, backend, y);
        ReachedIsSequential(events, t, regions, backend, s, lanes, steps, y, k, mem);
      }
    } else {
      var a, b :| Feeds(s, t, regions, a, b) && !Reaches(s.g, b, a);
      UnreachedIsNotSequential(events, t, regions, backend, s, a, b);
    }
  }
}
