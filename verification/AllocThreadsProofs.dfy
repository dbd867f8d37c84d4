/** Every interleaving of inserts, erases and lookups keeps the lock exclusive, the counts exact and
    the nodes in use linked, and takes effect in one sequential order. */
module AllocThreadsProofs {
  import opened Words
  import opened AllocTree
  import opened AllocLookup
  import opened AllocMap
  import opened AllocThreads

  // ---------------------------------------------------------------------------------------------
  // Positions

  lemma ChildIsBelow(p: Pos, i: nat)
    requires p.h > 0 && i < FANOUT
    ensures Parent(ChildPos(p, i)) == p
  {
  }

  lemma IsChildOfParent(q: Pos)
    ensures q.prefix % FANOUT < FANOUT && ChildPos(Parent(q), q.prefix % FANOUT) == q
  {
  }

  lemma {:induction false} ShiftBound(a: nat, h: nat, k: nat)
    requires a < Pow16(h + k)
    ensures Shift(a, h) < Pow16(k)
    decreases h
  {
    if h > 0 { ShiftBound(a, h - 1, k + 1); }
  }

  /** Every way starts at the root. */
  lemma WayFromRoot(a: nat)
    requires a < WORD
    ensures PosAt(a, TOP) == Root
  {
    RootSpan();
    ShiftBound(a, TOP, 0);
  }

  // ---------------------------------------------------------------------------------------------
  // Counting children

  function Children(items: set<Pos>, p: Pos, k: nat): nat
    requires p.h > 0
  {
    if k == 0 then 0 else Children(items, p, k - 1) + if ChildPos(p, k - 1) in items then 1 else 0
  }

  lemma {:induction false} ChildrenAdd(items: set<Pos>, q: Pos, p: Pos, k: nat)
    requires p.h > 0 && k <= FANOUT && q !in items
    ensures Children(items + {q}, p, k) ==
            Children(items, p, k) + if Parent(q) == p && q.prefix % FANOUT < k then 1 else 0
  {
    if k > 0 {
      ChildrenAdd(items, q, p, k - 1);
      ChildIsBelow(p, k - 1);
      IsChildOfParent(q);
    }
  }

  lemma {:induction false} ChildrenZero(items: set<Pos>, p: Pos, k: nat)
    requires p.h > 0
    ensures Children(items, p, k) == 0 <==> forall i: nat | i < k :: ChildPos(p, i) !in items
  {
    if k > 0 { ChildrenZero(items, p, k - 1); }
  }

  ghost predicate HasChild(items: set<Pos>, p: Pos) {
    p.h > 0 && exists i: nat :: i < FANOUT && ChildPos(p, i) in items
  }

  // ---------------------------------------------------------------------------------------------
  // Counting threads

  ghost predicate Inside<P>(th: Thread<P>) {
    !th.pc.Ready? && !th.pc.Wait? && !th.pc.Done?
  }

  ghost predicate InsideAs<P>(th: Thread<P>, erasing: bool) {
    Inside(th) && th.job.EraseJob? == erasing
  }

  ghost function Number<P>(threads: seq<Thread<P>>, erasing: bool): nat {
    if threads == [] then 0 else Number(threads[1..], erasing) + if InsideAs(threads[0], erasing) then 1 else 0
  }

  lemma {:induction false} NumberUpdate<P>(threads: seq<Thread<P>>, t: nat, th: Thread<P>, erasing: bool)
    requires t < |threads|
    ensures Number(threads[t := th], erasing) ==
            Number(threads, erasing) + (if InsideAs(th, erasing) then 1 else 0)
              - (if InsideAs(threads[t], erasing) then 1 else 0)
  {
    if t == 0 {
      assert threads[t := th][1..] == threads[1..];
    } else {
      assert threads[t := th][1..] == threads[1..][t - 1 := th];
      NumberUpdate(threads[1..], t - 1, th, erasing);
    }
  }

  lemma {:induction false} NumberZero<P>(threads: seq<Thread<P>>, erasing: bool)
    ensures Number(threads, erasing) == 0 <==> forall u | 0 <= u < |threads| :: !InsideAs(threads[u], erasing)
  {
    if threads != [] {
      NumberZero(threads[1..], erasing);
      assert threads == [threads[0]] + threads[1..];
    }
  }

  /** How a thread makes the count of a node lag behind its children. */
  ghost function Lag<P>(th: Thread<P>, p: Pos): int {
    if th.pc.Bump? && th.job.InsertJob? && PosAt(th.job.address, th.pc.h) == p then 1
    else if th.pc.Dec? && th.job.EraseJob? && PosAt(th.job.address, th.pc.h) == p then -1
    else 0
  }

  ghost function Lags<P>(threads: seq<Thread<P>>, p: Pos): int {
    if threads == [] then 0 else Lags(threads[1..], p) + Lag(threads[0], p)
  }

  lemma {:induction false} LagsUpdate<P>(threads: seq<Thread<P>>, t: nat, th: Thread<P>, p: Pos)
    requires t < |threads|
    ensures Lags(threads[t := th], p) == Lags(threads, p) + Lag(th, p) - Lag(threads[t], p)
  {
    if t == 0 {
      assert threads[t := th][1..] == threads[1..];
    } else {
      assert threads[t := th][1..] == threads[1..][t - 1 := th];
      LagsUpdate(threads[1..], t - 1, th, p);
    }
  }

  lemma {:induction false} NoLags<P>(threads: seq<Thread<P>>, p: Pos)
    requires forall u | 0 <= u < |threads| :: Lag(threads[u], p) == 0
    ensures Lags(threads, p) == 0
  {
    if threads != [] { NoLags(threads[1..], p); }
  }

  // ---------------------------------------------------------------------------------------------
  // The invariant

  ghost predicate WfThreads<P>(s: State<P>) {
    forall t | 0 <= t < |s.threads| :: Fits(s.threads[t]) && LegalJob(s.threads[t].job)
  }

  /** The counter is the number of inserts and lookups inside, or -1 with exactly one erase inside. */
  ghost predicate Lock<P>(s: State<P>) {
    if s.counter >= 0 then Number(s.threads, false) == s.counter && Number(s.threads, true) == 0
    else s.counter == -1 && Number(s.threads, false) == 0 && Number(s.threads, true) == 1
  }

  /** The linked nodes form one tree from the root. */
  ghost predicate Linked(items: set<Pos>) {
    && Root in items
    && (forall p | p in items :: p.h <= TOP && (p.h == TOP ==> p == Root))
    && (forall p {:trigger Parent(p)} | p in items && p.h < TOP :: Parent(p) in items)
  }

  ghost predicate Tied<P>(s: State<P>) {
    forall a: nat :: Pos(0, a) in s.items <==> a in s.values
  }

  /** What a thread works on is linked. */
  ghost predicate HoldsLinked<P>(items: set<Pos>, th: Thread<P>) {
    match th.pc
    case Load(h) => th.job.InsertJob? ==> PosAt(th.job.address, h) in items
    case Publish(h) => th.job.InsertJob? ==>
      PosAt(th.job.address, h) in items && (h == 1 ==> PosAt(th.job.address, 0) !in items)
    case Bump(h) => th.job.InsertJob? && h > 0 ==> PosAt(th.job.address, h - 1) in items
    case Down(h) => th.job.EraseJob? ==> PosAt(th.job.address, h) in items
    case Clear => th.job.EraseJob? ==> PosAt(th.job.address, 0) in items
    case Dec(h) => th.job.EraseJob? ==> PosAt(th.job.address, h) in items
    case Up(h) => th.job.EraseJob? && h > 0 ==> PosAt(th.job.address, h - 1) in items
    case Read(held) => forall p | p in held :: p in items
    case _ => true
  }

  ghost predicate Held<P>(s: State<P>) {
    forall t | 0 <= t < |s.threads| :: HoldsLinked(s.items, s.threads[t])
  }

  ghost predicate DistinctInserts<P>(s: State<P>) {
    forall t, u | 0 <= t < u < |s.threads| && Active(s.threads[t]) && Active(s.threads[u])
      && s.threads[t].job.InsertJob? && s.threads[u].job.InsertJob? ::
      s.threads[t].job.address != s.threads[u].job.address
  }

  /** Every count is exact up to the updates that threads still owe. */
  ghost predicate Counted<P>(s: State<P>) {
    forall p | p in s.items && p.h > 0 :: CountOf(s, p) + Lags(s.threads, p) == Children(s.items, p, FANOUT)
  }

  /** A thread on its way through `p` that will fill or unlink it. */
  ghost predicate Claims<P>(th: Thread<P>, p: Pos) {
    && !th.job.LookupJob? && PosAt(th.job.address, p.h) == p
    && match th.pc
       case Load(h) => p.h >= h
       case Publish(h) => p.h >= h
       case Bump(h) => p.h + 1 >= h
       case Dec(h) => p.h >= h
       case Up(h) => p.h + 1 >= h
       case _ => false
  }

  ghost predicate Claimed<P>(threads: seq<Thread<P>>, p: Pos) {
    exists t :: 0 <= t < |threads| && Claims(threads[t], p)
  }

  /** Only a node that some thread is about to fill or unlink can be empty. */
  ghost predicate Filled<P>(s: State<P>) {
    forall p | p in s.items && 0 < p.h < TOP :: HasChild(s.items, p) || Claimed(s.threads, p)
  }

  // ---------------------------------------------------------------------------------------------
  // The lock

  /** While an erase is inside, nobody else is. */
  lemma EraseIsAlone<P>(s: State<P>, t: nat, u: nat)
    requires Lock(s) && t < |s.threads| && u < |s.threads| && t != u && InsideAs(s.threads[t], true)
    ensures !Inside(s.threads[u])
  {
    NumberZero(s.threads, true);
    NumberZero(s.threads, false);
    var out := Thread(s.threads[t].job, Ready);
    NumberUpdate(s.threads, t, out, true);
    NumberZero(s.threads[t := out], true);
    assert s.threads[t := out][u] == s.threads[u];
    assert !InsideAs(s.threads[u], true) && !InsideAs(s.threads[u], false);
  }

  /** A step changes one thread, within its program. */
  ghost predicate Moves<P>(s: State<P>, s': State<P>, t: nat) {
    && t < |s.threads| && |s'.threads| == |s.threads| && s'.threads == s.threads[t := s'.threads[t]]
    && s'.threads[t].job == s.threads[t].job && Fits(s'.threads[t])
  }

  /** A step between lock and unlock leaves the counter alone and the thread inside. */
  ghost predicate MovesInside<P>(s: State<P>, s': State<P>, t: nat) {
    Moves(s, s', t) && s'.counter == s.counter && Inside(s'.threads[t])
  }

  lemma InsertMoves<P>(s: State<P>, t: nat)
    requires t < |s.threads| && s.threads[t].job.InsertJob? && InsertPC(s.threads[t].pc)
    ensures MovesInside(s, InsertStep(s, t), t)
  {
  }

  lemma EraseMoves<P>(s: State<P>, t: nat)
    requires t < |s.threads| && s.threads[t].job.EraseJob? && ErasePC(s.threads[t].pc)
    ensures MovesInside(s, EraseStep(s, t), t)
  {
  }

  lemma LookupMoves<P>(s: State<P>, t: nat, choice: nat)
    requires t < |s.threads| && s.threads[t].job.LookupJob? && s.threads[t].pc.Read? && s.threads[t].pc.held != []
    ensures MovesInside(s, LookupStep(s, t, choice), t)
  {
  }

  lemma StepMoves<P>(s: State<P>, e: Event)
    requires Enabled(s, e)
    ensures Moves(s, Next(s, e), e.t)
    ensures Inside(s.threads[e.t]) && !s.threads[e.t].pc.Unlock? ==> MovesInside(s, Next(s, e), e.t)
  {
    var th := s.threads[e.t];
    if Inside(th) && !th.pc.Unlock? {
      match th.job {
        case InsertJob(_, _) => InsertMoves(s, e.t);
        case EraseJob(_) => EraseMoves(s, e.t);
        case LookupJob => LookupMoves(s, e.t, e.choice);
      }
    }
  }

  lemma StepKeepsLock<P>(s: State<P>, e: Event)
    requires Lock(s) && Enabled(s, e)
    ensures Lock(Next(s, e))
  {
    var s', th := Next(s, e), s.threads[e.t];
    NumberZero(s.threads, th.job.EraseJob?);
    StepMoves(s, e);
    NumberUpdate(s.threads, e.t, s'.threads[e.t], true);
    NumberUpdate(s.threads, e.t, s'.threads[e.t], false);
  }

  lemma StepKeepsThreads<P>(s: State<P>, e: Event)
    requires WfThreads(s) && Enabled(s, e)
    ensures WfThreads(Next(s, e)) && |Next(s, e).threads| == |s.threads|
    ensures forall u | 0 <= u < |s.threads| :: Next(s, e).threads[u].job == s.threads[u].job
    ensures forall u | 0 <= u < |s.threads| && u != e.t :: Next(s, e).threads[u] == s.threads[u]
  {
    StepMoves(s, e);
  }

  lemma StepKeepsDistinct<P>(s: State<P>, e: Event)
    requires WfThreads(s) && Enabled(s, e) && DistinctInserts(s)
    ensures DistinctInserts(Next(s, e))
  {
    StepKeepsThreads(s, e);
  }

  // ---------------------------------------------------------------------------------------------
  // Tree invariants, one thread changed

  ghost predicate Core<P>(s: State<P>) {
    Linked(s.items) && Tied(s) && Held(s) && Counted(s) && Filled(s)
  }

  ghost predicate OneMoved<P>(s: State<P>, s': State<P>, t: nat) {
    t < |s.threads| && |s'.threads| == |s.threads| && s'.threads == s.threads[t := s'.threads[t]]
  }

  lemma HeldKept<P>(s: State<P>, s': State<P>, t: nat)
    requires OneMoved(s, s', t) && Held(s) && HoldsLinked(s'.items, s'.threads[t])
    requires forall u | 0 <= u < |s.threads| && u != t :: Inside(s.threads[u]) ==> HoldsLinked(s'.items, s.threads[u])
    ensures Held(s')
  {
  }

  lemma CountedKept<P>(s: State<P>, s': State<P>, t: nat)
    requires OneMoved(s, s', t) && Counted(s)
    requires forall p | p in s'.items && p.h > 0 && p in s.items ::
               CountOf(s', p) - CountOf(s, p) + Lag(s'.threads[t], p) - Lag(s.threads[t], p) ==
               Children(s'.items, p, FANOUT) - Children(s.items, p, FANOUT)
    requires forall p | p in s'.items && p.h > 0 && p !in s.items ::
               CountOf(s', p) + Lags(s'.threads, p) == Children(s'.items, p, FANOUT)
    ensures Counted(s')
  {
    forall p | p in s'.items && p.h > 0 ensures CountOf(s', p) + Lags(s'.threads, p) == Children(s'.items, p, FANOUT) {
      LagsUpdate(s.threads, t, s'.threads[t], p);
    }
  }

  /** `p` is filled, or the thread `th` takes care of it. */
  ghost predicate Safe<P>(items: set<Pos>, th: Thread<P>, p: Pos) {
    HasChild(items, p) || Claims(th, p)
  }

  lemma FilledKept<P>(s: State<P>, s': State<P>, t: nat)
    requires OneMoved(s, s', t) && Filled(s)
    requires forall p | p in s'.items && 0 < p.h < TOP ::
               p !in s.items || Safe(s.items, s.threads[t], p) ==> Safe(s'.items, s'.threads[t], p)
    ensures Filled(s')
  {
    forall p | p in s'.items && 0 < p.h < TOP ensures HasChild(s'.items, p) || Claimed(s'.threads, p) {
      if Safe(s'.items, s'.threads[t], p) {
        assert Claims(s'.threads[t], p) ==> Claimed(s'.threads, p);
      } else {
        var u :| 0 <= u < |s.threads| && Claims(s.threads[u], p);
        assert s'.threads[u] == s.threads[u];
      }
    }
  }

  /** A thread that goes on without touching tree or counts. */
  ghost predicate Quiet<P>(items: set<Pos>, th: Thread<P>, pc: PC) {
    var th' := th.(pc := pc);
    && HoldsLinked(items, th') && (forall p :: Lag(th, p) == Lag(th', p))
    && forall p | p in items && 0 < p.h < TOP && Claims(th, p) :: Safe(items, th', p)
  }

  lemma QuietKeepsCore<P>(s: State<P>, s': State<P>, t: nat, pc: PC)
    requires Core(s) && t < |s.threads| && Quiet(s.items, s.threads[t], pc)
    requires s'.threads == s.threads[t := s.threads[t].(pc := pc)]
    requires s'.items == s.items && s'.values == s.values && s'.counts == s.counts
    ensures Core(s')
  {
    HeldKept(s, s', t);
    CountedKept(s, s', t);
    FilledKept(s, s', t);
  }

  /** A linked node below another gives it a child. */
  lemma FilledBy(items: set<Pos>, q: Pos)
    requires q in items
    ensures HasChild(items, Parent(q))
  {
    IsChildOfParent(q);
  }

  lemma LockQuiet<P>(items: set<Pos>, th: Thread<P>, pc: PC)
    requires (th.pc.Ready? || th.pc.Wait? || th.pc.Unlock?) && LegalJob(th.job) && Root in items
    requires pc.Wait? || pc.Done? || (pc == Load(TOP) && th.job.InsertJob?) || (pc == Down(TOP) && th.job.EraseJob?)
             || pc == Read([Root])
    ensures Quiet(items, th, pc)
  {
    if !th.job.LookupJob? { WayFromRoot(th.job.address); }
  }

  lemma LockKeepsCore<P>(s: State<P>, t: nat)
    requires Core(s) && t < |s.threads| && LegalJob(s.threads[t].job)
    requires s.threads[t].pc.Ready? || s.threads[t].pc.Wait?
    ensures Core(LockStep(s, t))
  {
    var s' := LockStep(s, t);
    LockQuiet(s.items, s.threads[t], s'.threads[t].pc);
    QuietKeepsCore(s, s', t, s'.threads[t].pc);
  }

  lemma UnlockKeepsCore<P>(s: State<P>, t: nat)
    requires Core(s) && t < |s.threads| && LegalJob(s.threads[t].job) && s.threads[t].pc.Unlock?
    ensures Core(UnlockStep(s, t))
  {
    var s' := UnlockStep(s, t);
    LockQuiet(s.items, s.threads[t], s'.threads[t].pc);
    QuietKeepsCore(s, s', t, s'.threads[t].pc);
  }

  lemma LookupQuiet<P>(items: set<Pos>, th: Thread<P>, pc: PC)
    requires th.job.LookupJob? && th.pc.Read? && (pc.Read? ==> forall p | p in pc.held :: p in items)
    requires pc.Read? || pc.Unlock?
    ensures Quiet(items, th, pc)
  {
  }

  lemma LookupKeepsCore<P>(s: State<P>, t: nat, choice: nat)
    requires Core(s) && t < |s.threads| && s.threads[t].job.LookupJob? && s.threads[t].pc.Read?
    requires s.threads[t].pc.held != []
    ensures Core(LookupStep(s, t, choice))
  {
    var s' := LookupStep(s, t, choice);
    assert HoldsLinked(s.items, s.threads[t]);
    LookupQuiet(s.items, s.threads[t], s'.threads[t].pc);
    QuietKeepsCore(s, s', t, s'.threads[t].pc);
  }

  /** All nodes above a linked one on the same way are linked and filled. */
  lemma {:induction false} WayLinked(items: set<Pos>, a: nat, h: nat, k: nat)
    requires Linked(items) && PosAt(a, h) in items && h <= k <= TOP
    ensures PosAt(a, k) in items && (k > h ==> HasChild(items, PosAt(a, k)))
    decreases k
  {
    if k > h {
      WayLinked(items, a, h, k - 1);
      FilledBy(items, PosAt(a, k - 1));
      assert PosAt(a, k) == Parent(PosAt(a, k - 1));
    }
  }

  lemma LoadQuiet<P>(items: set<Pos>, th: Thread<P>, a: nat, h: nat)
    requires th.job.InsertJob? && th.pc == Load(h) && HoldsLinked(items, th) && 1 <= h <= TOP && a == th.job.address
    requires Linked(items)
    ensures PosAt(a, h - 1) !in items ==> Quiet(items, th, Publish(h))
    ensures PosAt(a, h - 1) in items ==> Quiet(items, th, if h == 1 then Unlock(false) else Load(h - 1))
  {
    if PosAt(a, h - 1) in items {
      forall p | p in items && 0 < p.h < TOP && Claims(th, p) ensures HasChild(items, p) {
        WayLinked(items, a, h - 1, p.h);
      }
    }
  }

  lemma LoadKeepsCore<P>(s: State<P>, t: nat, a: nat, h: nat)
    requires Core(s) && At(s, t, Load(h)) && s.threads[t].job.InsertJob? && a == s.threads[t].job.address
    ensures Core(LoadStep(s, t, a, h))
  {
    var s' := LoadStep(s, t, a, h);
    assert HoldsLinked(s.items, s.threads[t]);
    LoadQuiet(s.items, s.threads[t], a, h);
    QuietKeepsCore(s, s', t, s'.threads[t].pc);
  }

  lemma DownKeepsCore<P>(s: State<P>, t: nat, a: nat, h: nat)
    requires Core(s) && At(s, t, Down(h)) && s.threads[t].job.EraseJob? && a == s.threads[t].job.address
    ensures Core(DownStep(s, t, a, h))
  {
    var s' := DownStep(s, t, a, h);
    assert HoldsLinked(s.items, s.threads[t]);
    DownQuiet(s.items, s.threads[t], s'.threads[t].pc);
    QuietKeepsCore(s, s', t, s'.threads[t].pc);
  }

  lemma DownQuiet<P>(items: set<Pos>, th: Thread<P>, pc: PC)
    requires th.job.EraseJob? && th.pc.Down? && (pc.Unlock? || pc.Clear? || pc.Down?)
    requires HoldsLinked(items, th.(pc := pc))
    ensures Quiet(items, th, pc)
  {
  }

  // ---------------------------------------------------------------------------------------------
  // Steps that link, unlink or count

  /** No thread owes an update to a node that is not linked. */
  lemma UnlinkedHasNoLags<P>(s: State<P>, q: Pos)
    requires Held(s) && Linked(s.items) && WfThreads(s) && q !in s.items
    ensures Lags(s.threads, q) == 0
  {
    forall u | 0 <= u < |s.threads| ensures Lag(s.threads[u], q) == 0 {
      var th := s.threads[u];
      assert HoldsLinked(s.items, th) && Fits(th);
      if th.pc.Bump? && th.job.InsertJob? {
        WayLinked(s.items, th.job.address, th.pc.h - 1, th.pc.h);
      }
    }
    NoLags(s.threads, q);
  }

  lemma UnlinkedHasNoChildren(items: set<Pos>, q: Pos)
    requires Linked(items) && 0 < q.h < TOP && q !in items
    ensures Children(items, q, FANOUT) == 0
  {
    forall i: nat | i < FANOUT ensures ChildPos(q, i) !in items { ChildIsBelow(q, i); }
    ChildrenZero(items, q, FANOUT);
  }

  lemma LinkedGrows(items: set<Pos>, q: Pos)
    requires Linked(items) && q.h < TOP && Parent(q) in items
    ensures Linked(items + {q})
  {
  }

  /** What the other threads hold stays linked when a node or entry is added. */
  lemma HeldGrows<P>(s: State<P>, t: nat, q: Pos, u: nat)
    requires Held(s) && WfThreads(s) && DistinctInserts(s) && t < |s.threads| && u < |s.threads| && u != t
    requires s.threads[t].job.InsertJob? && Active(s.threads[t]) && (q.h == 0 ==> q.prefix == s.threads[t].job.address)
    ensures HoldsLinked(s.items + {q}, s.threads[u])
  {
    var th := s.threads[u];
    assert HoldsLinked(s.items, th) && Fits(th);
  }

  /** The state after a thread has linked `q` on its way. */
  ghost predicate Grown<P>(s: State<P>, s': State<P>, t: nat, a: nat, h: nat) {
    && At(s, t, Publish(h)) && s.threads[t].job.InsertJob? && a == s.threads[t].job.address
    && PosAt(a, h - 1) !in s.items && s'.items == s.items + {PosAt(a, h - 1)}
    && s'.threads == s.threads[t := s.threads[t].(pc := Bump(h))]
    && if h == 1 then s'.counts == s.counts && s'.values.Keys == s.values.Keys + {a}
       else s'.counts == s.counts[PosAt(a, h - 1) := 0] && s'.values == s.values
  }

  lemma GrownIsCounted<P>(s: State<P>, s': State<P>, t: nat, a: nat, h: nat)
    requires Linked(s.items) && Held(s) && Counted(s) && WfThreads(s) && Grown(s, s', t, a, h)
    ensures Counted(s')
  {
    var q := PosAt(a, h - 1);
    assert Parent(q) == PosAt(a, h);
    forall p | p in s'.items && p.h > 0 && p in s.items
      ensures CountOf(s', p) - CountOf(s, p) + Lag(s'.threads[t], p) - Lag(s.threads[t], p) ==
              Children(s'.items, p, FANOUT) - Children(s.items, p, FANOUT)
    {
      ChildrenAdd(s.items, q, p, FANOUT);
    }
    if q.h > 0 {
      UnlinkedHasNoLags(s, q);
      LagsUpdate(s.threads, t, s'.threads[t], q);
      UnlinkedHasNoChildren(s.items, q);
      ChildrenAdd(s.items, q, q, FANOUT);
    }
    CountedKept(s, s', t);
  }

  lemma GrownIsFilled<P>(s: State<P>, s': State<P>, t: nat, a: nat, h: nat)
    requires Filled(s) && Grown(s, s', t, a, h)
    ensures Filled(s')
  {
    forall p | p in s'.items && 0 < p.h < TOP && (p !in s.items || Safe(s.items, s.threads[t], p))
      ensures Safe(s'.items, s'.threads[t], p)
    {
      if HasChild(s.items, p) {
        var i: nat :| i < FANOUT && ChildPos(p, i) in s.items;
        assert ChildPos(p, i) in s'.items;
      }
    }
    FilledKept(s, s', t);
  }

  lemma GrownIsHeld<P>(s: State<P>, s': State<P>, t: nat, a: nat, h: nat)
    requires Held(s) && WfThreads(s) && DistinctInserts(s) && Grown(s, s', t, a, h)
    ensures Held(s')
  {
    forall u: nat | u < |s.threads| && u != t ensures HoldsLinked(s'.items, s.threads[u]) {
      HeldGrows(s, t, PosAt(a, h - 1), u);
    }
    HeldKept(s, s', t);
  }

  lemma GrownIsTied<P>(s: State<P>, s': State<P>, t: nat, a: nat, h: nat)
    requires Tied(s) && Grown(s, s', t, a, h)
    ensures Tied(s')
  {
    assert PosAt(a, 0) == Pos(0, a);
  }

  lemma GrownKeepsCore<P>(s: State<P>, s': State<P>, t: nat, a: nat, h: nat)
    requires Core(s) && WfThreads(s) && DistinctInserts(s) && Grown(s, s', t, a, h)
    ensures Core(s')
  {
    assert HoldsLinked(s.items, s.threads[t]);
    assert Parent(PosAt(a, h - 1)) == PosAt(a, h);
    LinkedGrows(s.items, PosAt(a, h - 1));
    GrownIsTied(s, s', t, a, h);
    GrownIsHeld(s, s', t, a, h);
    GrownIsCounted(s, s', t, a, h);
    GrownIsFilled(s, s', t, a, h);
  }

  lemma PublishQuiet<P>(items: set<Pos>, th: Thread<P>, a: nat, h: nat)
    requires th.job.InsertJob? && th.pc == Publish(h) && 2 <= h <= TOP && a == th.job.address
    requires PosAt(a, h - 1) in items
    ensures Quiet(items, th, Load(h - 1))
  {
  }

  lemma PublishKeepsCore<P>(s: State<P>, t: nat, a: nat, h: nat)
    requires Core(s) && WfThreads(s) && DistinctInserts(s)
    requires At(s, t, Publish(h)) && s.threads[t].job.InsertJob? && a == s.threads[t].job.address
    ensures Core(PublishStep(s, t, a, h))
  {
    var s' := PublishStep(s, t, a, h);
    assert HoldsLinked(s.items, s.threads[t]);
    if PosAt(a, h - 1) in s.items {
      PublishQuiet(s.items, s.threads[t], a, h);
      QuietKeepsCore(s, s', t, Load(h - 1));
    } else {
      GrownKeepsCore(s, s', t, a, h);
    }
  }

  /** A thread goes on that has paid the update `d` it owes to the count of `p`. */
  ghost predicate Pays<P>(items: set<Pos>, th: Thread<P>, pc: PC, p: Pos, d: int) {
    var th' := th.(pc := pc);
    && HoldsLinked(items, th') && (forall q :: Lag(th, q) == (if q == p then d else 0) && Lag(th', q) == 0)
    && forall q | q in items && 0 < q.h < TOP && Claims(th, q) :: Safe(items, th', q)
  }

  lemma PayKeepsCore<P>(s: State<P>, s': State<P>, t: nat, pc: PC, p: Pos, d: int)
    requires Core(s) && t < |s.threads| && Pays(s.items, s.threads[t], pc, p, d)
    requires s'.threads == s.threads[t := s.threads[t].(pc := pc)]
    requires s'.items == s.items && s'.values == s.values && s'.counts == s.counts[p := CountOf(s, p) + d]
    ensures Core(s')
  {
    HeldKept(s, s', t);
    CountedKept(s, s', t);
    FilledKept(s, s', t);
  }

  lemma BumpPays<P>(items: set<Pos>, th: Thread<P>, a: nat, h: nat)
    requires Linked(items) && th.job.InsertJob? && a == th.job.address && th.pc == Bump(h) && 1 <= h <= TOP
    requires HoldsLinked(items, th)
    ensures Pays(items, th, if h == 1 then Unlock(true) else Load(h - 1), PosAt(a, h), 1)
  {
    var th' := th.(pc := if h == 1 then Unlock(true) else Load(h - 1));
    forall q | q in items && 0 < q.h < TOP && Claims(th, q) ensures Safe(items, th', q) {
      if h == 1 { WayLinked(items, a, 0, q.h); }
    }
  }

  lemma BumpKeepsCore<P>(s: State<P>, t: nat, a: nat, h: nat)
    requires Core(s) && At(s, t, Bump(h)) && s.threads[t].job.InsertJob? && a == s.threads[t].job.address
    ensures Core(BumpStep(s, t, a, h))
  {
    assert HoldsLinked(s.items, s.threads[t]);
    BumpPays(s.items, s.threads[t], a, h);
    PayKeepsCore(s, BumpStep(s, t, a, h), t, if h == 1 then Unlock(true) else Load(h - 1), PosAt(a, h), 1);
  }

  lemma DecPays<P>(items: set<Pos>, th: Thread<P>, a: nat, h: nat)
    requires th.job.EraseJob? && a == th.job.address && th.pc == Dec(h) && 1 <= h <= TOP && HoldsLinked(items, th)
    ensures Pays(items, th, Above(h), PosAt(a, h), -1)
  {
  }

  lemma DecKeepsCore<P>(s: State<P>, t: nat, a: nat, h: nat)
    requires Core(s) && At(s, t, Dec(h)) && s.threads[t].job.EraseJob? && a == s.threads[t].job.address
    ensures Core(DecStep(s, t, a, h))
  {
    assert HoldsLinked(s.items, s.threads[t]);
    DecPays(s.items, s.threads[t], a, h);
    PayKeepsCore(s, DecStep(s, t, a, h), t, Above(h), PosAt(a, h), -1);
  }

  /** The state after an erase has unlinked an entry or an empty node. */
  ghost predicate Shrunk<P>(s: State<P>, s': State<P>, t: nat, a: nat, h: nat) {
    && t < |s.threads| && s.threads[t].job.EraseJob? && a == s.threads[t].job.address && 1 <= h <= TOP
    && (s.threads[t].pc == if h == 1 then Clear else Up(h))
    && PosAt(a, h - 1) in s.items && s'.items == s.items - {PosAt(a, h - 1)}
    && (h > 1 ==> Children(s.items, PosAt(a, h - 1), FANOUT) == 0)
    && s'.threads == s.threads[t := s.threads[t].(pc := Dec(h))] && s'.counts == s.counts
    && s'.values == if h == 1 then s.values - {a} else s.values
  }

  lemma ShrunkIsLinked<P>(s: State<P>, s': State<P>, t: nat, a: nat, h: nat)
    requires Linked(s.items) && Shrunk(s, s', t, a, h)
    ensures Linked(s'.items) && PosAt(a, h) in s'.items && Parent(PosAt(a, h - 1)) == PosAt(a, h)
  {
    var q := PosAt(a, h - 1);
    assert Parent(q) in s.items;
    forall p | p in s'.items && p.h < TOP ensures Parent(p) in s'.items {
      if Parent(p) == q {
        IsChildOfParent(p);
        ChildrenZero(s.items, q, FANOUT);
      }
    }
  }

  lemma ShrunkIsCounted<P>(s: State<P>, s': State<P>, t: nat, a: nat, h: nat)
    requires Counted(s) && Shrunk(s, s', t, a, h) && Parent(PosAt(a, h - 1)) == PosAt(a, h)
    ensures Counted(s')
  {
    var q := PosAt(a, h - 1);
    assert s'.items + {q} == s.items;
    forall p | p in s'.items && p.h > 0 && p in s.items
      ensures CountOf(s', p) - CountOf(s, p) + Lag(s'.threads[t], p) - Lag(s.threads[t], p) ==
              Children(s'.items, p, FANOUT) - Children(s.items, p, FANOUT)
    {
      ChildrenAdd(s'.items, q, p, FANOUT);
    }
    CountedKept(s, s', t);
  }

  lemma ShrunkIsFilled<P>(s: State<P>, s': State<P>, t: nat, a: nat, h: nat)
    requires Filled(s) && Shrunk(s, s', t, a, h) && Parent(PosAt(a, h - 1)) == PosAt(a, h)
    ensures Filled(s')
  {
    var q := PosAt(a, h - 1);
    forall p | p in s'.items && 0 < p.h < TOP && Safe(s.items, s.threads[t], p)
      ensures Safe(s'.items, s'.threads[t], p)
    {
      if p != PosAt(a, h) && HasChild(s.items, p) {
        var i: nat :| i < FANOUT && ChildPos(p, i) in s.items;
        ChildIsBelow(p, i);
        assert ChildPos(p, i) in s'.items;
      }
    }
    FilledKept(s, s', t);
  }

  lemma ShrunkKeepsCore<P>(s: State<P>, s': State<P>, t: nat, a: nat, h: nat)
    requires Core(s) && Shrunk(s, s', t, a, h) && Lock(s)
    ensures Core(s')
  {
    ShrunkIsLinked(s, s', t, a, h);
    forall u: nat | u < |s.threads| && u != t ensures !Inside(s.threads[u]) { EraseIsAlone(s, t, u); }
    HeldKept(s, s', t);
    ShrunkIsCounted(s, s', t, a, h);
    ShrunkIsFilled(s, s', t, a, h);
  }

  lemma ClearKeepsCore<P>(s: State<P>, t: nat, a: nat)
    requires Core(s) && Lock(s) && At(s, t, Clear) && s.threads[t].job.EraseJob? && a == s.threads[t].job.address
    ensures Core(ClearStep(s, t, a))
  {
    assert HoldsLinked(s.items, s.threads[t]);
    ShrunkKeepsCore(s, ClearStep(s, t, a), t, a, 1);
  }

  /** Alone in the tree, an erase reads exact counts. */
  lemma EraseReadsExactCount<P>(s: State<P>, t: nat, p: Pos)
    requires Counted(s) && Lock(s) && t < |s.threads| && InsideAs(s.threads[t], true) && s.threads[t].pc.Up?
    requires p in s.items && p.h > 0
    ensures CountOf(s, p) == Children(s.items, p, FANOUT)
  {
    forall u: nat | u < |s.threads| ensures Lag(s.threads[u], p) == 0 {
      if u != t { EraseIsAlone(s, t, u); }
    }
    NoLags(s.threads, p);
  }

  lemma UpQuiet<P>(items: set<Pos>, th: Thread<P>, a: nat, h: nat)
    requires th.job.EraseJob? && th.pc == Up(h) && 2 <= h <= TOP && a == th.job.address
    requires HasChild(items, PosAt(a, h - 1)) && PosAt(a, h) in items
    ensures Quiet(items, th, Above(h))
  {
  }

  lemma UpKeepsCore<P>(s: State<P>, t: nat, a: nat, h: nat)
    requires Core(s) && Lock(s) && At(s, t, Up(h)) && s.threads[t].job.EraseJob? && a == s.threads[t].job.address
    ensures Core(UpStep(s, t, a, h))
  {
    var q, s' := PosAt(a, h - 1), UpStep(s, t, a, h);
    assert HoldsLinked(s.items, s.threads[t]);
    EraseReadsExactCount(s, t, q);
    if CountOf(s, q) == 0 {
      ShrunkKeepsCore(s, s', t, a, h);
    } else {
      ChildrenZero(s.items, q, FANOUT);
      assert Parent(q) == PosAt(a, h);
      UpQuiet(s.items, s.threads[t], a, h);
      QuietKeepsCore(s, s', t, Above(h));
    }
  }

  lemma StepKeepsCore<P>(s: State<P>, e: Event)
    requires Core(s) && Lock(s) && WfThreads(s) && DistinctInserts(s) && Enabled(s, e)
    ensures Core(Next(s, e))
  {
    var t, th := e.t, s.threads[e.t];
    match th.pc {
      case Ready => LockKeepsCore(s, t);
      case Wait(_) => LockKeepsCore(s, t);
      case Unlock(_) => UnlockKeepsCore(s, t);
      case Read(_) => LookupKeepsCore(s, t, e.choice);
      case Load(h) => LoadKeepsCore(s, t, th.job.address, h);
      case Publish(h) => PublishKeepsCore(s, t, th.job.address, h);
      case Bump(h) => BumpKeepsCore(s, t, th.job.address, h);
      case Down(h) => DownKeepsCore(s, t, th.job.address, h);
      case Clear => ClearKeepsCore(s, t, th.job.address);
      case Dec(h) => DecKeepsCore(s, t, th.job.address, h);
      case Up(h) => UpKeepsCore(s, t, th.job.address, h);
    }
  }
}
