/** Runs of concurrent inserts and erases have the effect and the results of a sequential history,
    and leave exactly its tree. */
module AllocLinear {
  import opened Words
  import opened AllocTree
  import opened AllocLookup
  import opened AllocMap
  import opened AllocThreads
  import opened AllocThreadsProofs

  // ---------------------------------------------------------------------------------------------
  // The order in which operations take effect

  function OpsOf<P>(log: seq<Commit<P>>): (ops: seq<Op<P>>)
    ensures |ops| == |log| && forall k :: 0 <= k < |log| ==> ops[k] == log[k].op
  {
    if log == [] then [] else OpsOf(log[..|log| - 1]) + [log[|log| - 1].op]
  }

  /** The plain map after the committed operations. */
  function MapAfter<P>(log: seq<Commit<P>>): map<nat, Value<P>> {
    Replay(OpsOf(log))
  }

  lemma MapAfterCommit<P>(log: seq<Commit<P>>, c: Commit<P>)
    ensures MapAfter(log + [c]) == OnMap(MapAfter(log), c.op)
  {
    var log' := log + [c];
    assert log'[..|log'| - 1] == log;
    assert OpsOf(log')[..|log'| - 1] == OpsOf(log);
  }

  /** The result of an operation on a plain map. */
  predicate Succeeds<P>(m: map<nat, Value<P>>, op: Op<P>) {
    if op.InsertOp? then op.address !in m else op.address in m
  }

  /** Every recorded result is the one the plain map gives at that point. */
  predicate Sequential<P>(log: seq<Commit<P>>) {
    log == [] ||
    (var before, c := log[..|log| - 1], log[|log| - 1];
     Sequential(before) && c.ok == Succeeds(MapAfter(before), c.op))
  }

  lemma SequentialCommit<P>(log: seq<Commit<P>>, c: Commit<P>)
    requires Sequential(log) && c.ok == Succeeds(MapAfter(log), c.op)
    ensures Sequential(log + [c])
  {
    var log' := log + [c];
    assert log'[..|log'| - 1] == log;
  }

  ghost predicate Committed<P>(th: Thread<P>) {
    match th.job
    case InsertJob(_, _) => th.pc == Bump(1) || th.pc.Unlock? || th.pc.Done?
    case EraseJob(_) => th.pc.Dec? || th.pc.Up? || th.pc.Unlock? || th.pc.Done?
    case LookupJob => false
  }

  ghost predicate Outcome<P>(th: Thread<P>) {
    (th.pc.Unlock? || th.pc.Done?) ==> th.pc.ok
  }

  /** Every commit belongs to the thread it names and carries the thread's result. */
  ghost predicate Commits<P>(threads: seq<Thread<P>>, c: Commit<P>) {
    && c.t < |threads| && Committed(threads[c.t]) && c.op == OpOf(threads[c.t].job)
    && c.ok == Outcome(threads[c.t])
  }

  ghost predicate InLog<P>(log: seq<Commit<P>>, t: nat) {
    exists k :: 0 <= k < |log| && log[k].t == t
  }

  /** The log is a sequential history: the entries are its outcome, each committed thread occurs
      once, and each result is the one the plain map gives at that point. */
  ghost predicate Linear<P>(s: State<P>) {
    && s.values == MapAfter(s.log) && Sequential(s.log) && Attributed(s.threads, s.log)
  }

  /** The log holds each committed thread exactly once, with its operation and result. */
  ghost predicate Attributed<P>(threads: seq<Thread<P>>, log: seq<Commit<P>>) {
    && (forall k :: 0 <= k < |log| ==> Commits(threads, log[k]))
    && (forall t: nat | t < |threads| && Committed(threads[t]) :: InLog(log, t))
    && (forall j, k :: 0 <= j < k < |log| ==> log[j].t != log[k].t)
  }

  lemma SilentKeepsLinear<P>(s: State<P>, s': State<P>, t: nat)
    requires Linear(s) && OneMoved(s, s', t) && s'.log == s.log && s'.values == s.values
    requires s'.threads[t].job == s.threads[t].job && Committed(s'.threads[t]) == Committed(s.threads[t])
    requires Committed(s.threads[t]) ==> Outcome(s'.threads[t]) == Outcome(s.threads[t])
    ensures Linear(s')
  {
    forall k | 0 <= k < |s.log| ensures Commits(s'.threads, s.log[k]) {
      assert Commits(s.threads, s.log[k]);
    }
  }

  lemma AttributedCommit<P>(threads: seq<Thread<P>>, log: seq<Commit<P>>, t: nat, th: Thread<P>, ok: bool)
    requires Attributed(threads, log) && t < |threads| && th.job == threads[t].job && !th.job.LookupJob?
    requires !Committed(threads[t]) && Committed(th) && Outcome(th) == ok
    ensures Attributed(threads[t := th], log + [Commit(t, OpOf(th.job), ok)])
  {
    var threads', log', n := threads[t := th], log + [Commit(t, OpOf(th.job), ok)], |log|;
    forall k | 0 <= k < n ensures Commits(threads', log[k]) && log[k].t != t {
      assert Commits(threads, log[k]);
    }
    forall u: nat | u < |threads'| && Committed(threads'[u]) ensures InLog(log', u) {
      if u == t {
        assert log'[n].t == u;
      } else {
        var k :| 0 <= k < n && log[k].t == u;
        assert log'[k].t == u;
      }
    }
  }

  /** The operation of a thread takes effect with result `ok`. */
  ghost predicate TakesEffect<P>(s: State<P>, s': State<P>, t: nat, ok: bool) {
    && t < |s.threads| && |s'.threads| == |s.threads| && s'.threads == s.threads[t := s'.threads[t]]
    && s'.threads[t].job == s.threads[t].job && !s.threads[t].job.LookupJob?
    && !Committed(s.threads[t]) && Committed(s'.threads[t]) && Outcome(s'.threads[t]) == ok
    && s'.log == s.log + [Commit(t, OpOf(s.threads[t].job), ok)]
    && ok == Succeeds(s.values, OpOf(s.threads[t].job)) && s'.values == OnMap(s.values, OpOf(s.threads[t].job))
  }

  lemma CommitKeepsLinear<P>(s: State<P>, s': State<P>, t: nat, ok: bool)
    requires Linear(s) && TakesEffect(s, s', t, ok)
    ensures Linear(s')
  {
    var c := Commit(t, OpOf(s.threads[t].job), ok);
    MapAfterCommit(s.log, c);
    SequentialCommit(s.log, c);
    AttributedCommit(s.threads, s.log, t, s'.threads[t], ok);
  }

  /** A thread goes on without taking effect. */
  ghost predicate Silent<P>(s: State<P>, s': State<P>, t: nat, pc: PC) {
    && t < |s.threads| && s'.threads == s.threads[t := s.threads[t].(pc := pc)]
    && s'.log == s.log && s'.values == s.values
    && Committed(s.threads[t].(pc := pc)) == Committed(s.threads[t])
    && (Committed(s.threads[t]) ==> Outcome(s.threads[t].(pc := pc)) == Outcome(s.threads[t]))
  }

  lemma MoveKeepsLinear<P>(s: State<P>, s': State<P>, t: nat, pc: PC)
    requires Linear(s) && Silent(s, s', t, pc)
    ensures Linear(s')
  {
    SilentKeepsLinear(s, s', t);
  }

  lemma LoadKeepsLinear<P>(s: State<P>, t: nat, a: nat, h: nat)
    requires Linear(s) && Tied(s) && At(s, t, Load(h)) && s.threads[t].job.InsertJob? && a == s.threads[t].job.address
    ensures Linear(LoadStep(s, t, a, h))
  {
    var s' := LoadStep(s, t, a, h);
    if h == 1 && PosAt(a, 0) in s.items {
      assert PosAt(a, 0) == Pos(0, a);
      CommitKeepsLinear(s, s', t, false);
    } else {
      LoadIsSilent(s, t, a, h);
      MoveKeepsLinear(s, s', t, s'.threads[t].pc);
    }
  }

  lemma LoadIsSilent<P>(s: State<P>, t: nat, a: nat, h: nat)
    requires At(s, t, Load(h)) && s.threads[t].job.InsertJob? && (h == 1 ==> PosAt(a, 0) !in s.items)
    ensures |LoadStep(s, t, a, h).threads| == |s.threads|
    ensures Silent(s, LoadStep(s, t, a, h), t, LoadStep(s, t, a, h).threads[t].pc)
  {
  }

  lemma PublishTakesEffect<P>(s: State<P>, t: nat, a: nat)
    requires Tied(s) && At(s, t, Publish(1)) && s.threads[t].job.InsertJob? && a == s.threads[t].job.address
    requires HoldsLinked(s.items, s.threads[t])
    ensures TakesEffect(s, PublishStep(s, t, a, 1), t, true)
  {
    assert PosAt(a, 0) == Pos(0, a);
  }

  lemma PublishIsSilent<P>(s: State<P>, t: nat, a: nat, h: nat)
    requires At(s, t, Publish(h)) && s.threads[t].job.InsertJob? && h > 1
    ensures |PublishStep(s, t, a, h).threads| == |s.threads|
    ensures Silent(s, PublishStep(s, t, a, h), t, PublishStep(s, t, a, h).threads[t].pc)
  {
  }

  lemma PublishKeepsLinear<P>(s: State<P>, t: nat, a: nat, h: nat)
    requires Linear(s) && Tied(s) && At(s, t, Publish(h)) && s.threads[t].job.InsertJob?
    requires a == s.threads[t].job.address
    requires HoldsLinked(s.items, s.threads[t])
    ensures Linear(PublishStep(s, t, a, h))
  {
    if h == 1 {
      PublishTakesEffect(s, t, a);
      CommitKeepsLinear(s, PublishStep(s, t, a, h), t, true);
    } else {
      PublishIsSilent(s, t, a, h);
      MoveKeepsLinear(s, PublishStep(s, t, a, h), t, PublishStep(s, t, a, h).threads[t].pc);
    }
  }

  /** An erase that meets a missing node takes effect without changing anything. */
  lemma DownTakesEffect<P>(s: State<P>, t: nat, a: nat, h: nat)
    requires At(s, t, Down(h)) && s.threads[t].job.EraseJob? && a == s.threads[t].job.address
    requires Linked(s.items) && Tied(s) && PosAt(a, h - 1) !in s.items
    ensures TakesEffect(s, DownStep(s, t, a, h), t, false)
  {
    assert PosAt(a, 0) == Pos(0, a);
    if a in s.values { WayLinked(s.items, a, 0, h - 1); }
    assert s.values - {a} == s.values;
  }

  lemma DownIsSilent<P>(s: State<P>, t: nat, a: nat, h: nat)
    requires At(s, t, Down(h)) && s.threads[t].job.EraseJob? && PosAt(a, h - 1) in s.items
    ensures Silent(s, DownStep(s, t, a, h), t, if h == 1 then Clear else Down(h - 1))
  {
  }

  lemma DownKeepsLinear<P>(s: State<P>, t: nat, a: nat, h: nat)
    requires Linear(s) && Tied(s) && Linked(s.items)
    requires At(s, t, Down(h)) && s.threads[t].job.EraseJob? && a == s.threads[t].job.address
    ensures Linear(DownStep(s, t, a, h))
  {
    if PosAt(a, h - 1) !in s.items {
      DownTakesEffect(s, t, a, h);
      CommitKeepsLinear(s, DownStep(s, t, a, h), t, false);
    } else {
      DownIsSilent(s, t, a, h);
      MoveKeepsLinear(s, DownStep(s, t, a, h), t, if h == 1 then Clear else Down(h - 1));
    }
  }

  lemma ClearKeepsLinear<P>(s: State<P>, t: nat, a: nat)
    requires Linear(s) && Tied(s) && At(s, t, Clear) && s.threads[t].job.EraseJob? && a == s.threads[t].job.address
    requires HoldsLinked(s.items, s.threads[t])
    ensures Linear(ClearStep(s, t, a))
  {
    assert PosAt(a, 0) == Pos(0, a);
    CommitKeepsLinear(s, ClearStep(s, t, a), t, true);
  }

  lemma BumpKeepsLinear<P>(s: State<P>, t: nat, a: nat, h: nat)
    requires Linear(s) && At(s, t, Bump(h)) && s.threads[t].job.InsertJob?
    ensures Linear(BumpStep(s, t, a, h))
  {
    MoveKeepsLinear(s, BumpStep(s, t, a, h), t, if h == 1 then Unlock(true) else Load(h - 1));
  }

  lemma DecKeepsLinear<P>(s: State<P>, t: nat, a: nat, h: nat)
    requires Linear(s) && At(s, t, Dec(h)) && s.threads[t].job.EraseJob?
    ensures Linear(DecStep(s, t, a, h))
  {
    MoveKeepsLinear(s, DecStep(s, t, a, h), t, Above(h));
  }

  lemma UpKeepsLinear<P>(s: State<P>, t: nat, a: nat, h: nat)
    requires Linear(s) && At(s, t, Up(h)) && s.threads[t].job.EraseJob?
    ensures Linear(UpStep(s, t, a, h))
  {
    var s' := UpStep(s, t, a, h);
    MoveKeepsLinear(s, s', t, s'.threads[t].pc);
  }

  lemma LockIsSilent<P>(s: State<P>, t: nat)
    requires t < |s.threads| && (s.threads[t].pc.Ready? || s.threads[t].pc.Wait?)
    ensures |LockStep(s, t).threads| == |s.threads| && Silent(s, LockStep(s, t), t, LockStep(s, t).threads[t].pc)
  {
  }

  lemma LockKeepsLinear<P>(s: State<P>, t: nat)
    requires Linear(s) && t < |s.threads| && (s.threads[t].pc.Ready? || s.threads[t].pc.Wait?)
    ensures Linear(LockStep(s, t))
  {
    LockIsSilent(s, t);
    MoveKeepsLinear(s, LockStep(s, t), t, LockStep(s, t).threads[t].pc);
  }

  lemma UnlockKeepsLinear<P>(s: State<P>, t: nat)
    requires Linear(s) && t < |s.threads| && s.threads[t].pc.Unlock?
    ensures Linear(UnlockStep(s, t))
  {
    MoveKeepsLinear(s, UnlockStep(s, t), t, Done(s.threads[t].pc.ok));
  }

  lemma LookupIsSilent<P>(s: State<P>, t: nat, choice: nat)
    requires t < |s.threads| && s.threads[t].job.LookupJob? && s.threads[t].pc.Read? && s.threads[t].pc.held != []
    ensures |LookupStep(s, t, choice).threads| == |s.threads|
    ensures Silent(s, LookupStep(s, t, choice), t, LookupStep(s, t, choice).threads[t].pc)
  {
  }

  lemma LookupKeepsLinear<P>(s: State<P>, t: nat, choice: nat)
    requires Linear(s) && t < |s.threads| && s.threads[t].job.LookupJob? && s.threads[t].pc.Read?
    requires s.threads[t].pc.held != []
    ensures Linear(LookupStep(s, t, choice))
  {
    LookupIsSilent(s, t, choice);
    MoveKeepsLinear(s, LookupStep(s, t, choice), t, LookupStep(s, t, choice).threads[t].pc);
  }

  lemma InsertKeepsLinear<P>(s: State<P>, t: nat)
    requires Linear(s) && Tied(s) && t < |s.threads| && s.threads[t].job.InsertJob? && InsertPC(s.threads[t].pc)
    requires HoldsLinked(s.items, s.threads[t])
    ensures Linear(InsertStep(s, t))
  {
    var a := s.threads[t].job.address;
    match s.threads[t].pc {
      case Load(h) => LoadKeepsLinear(s, t, a, h);
      case Publish(h) => PublishKeepsLinear(s, t, a, h);
      case Bump(h) => BumpKeepsLinear(s, t, a, h);
    }
  }

  lemma EraseKeepsLinear<P>(s: State<P>, t: nat)
    requires Linear(s) && Linked(s.items) && Tied(s) && t < |s.threads| && s.threads[t].job.EraseJob?
    requires ErasePC(s.threads[t].pc)
    requires HoldsLinked(s.items, s.threads[t])
    ensures Linear(EraseStep(s, t))
  {
    var a := s.threads[t].job.address;
    match s.threads[t].pc {
      case Down(h) => DownKeepsLinear(s, t, a, h);
      case Clear => ClearKeepsLinear(s, t, a);
      case Dec(h) => DecKeepsLinear(s, t, a, h);
      case Up(h) => UpKeepsLinear(s, t, a, h);
    }
  }

  lemma StepKeepsLinear<P>(s: State<P>, e: Event)
    requires Linear(s) && Linked(s.items) && Tied(s) && Held(s) && Enabled(s, e)
    ensures Linear(Next(s, e))
  {
    var t, th := e.t, s.threads[e.t];
    assert HoldsLinked(s.items, th);
    if th.pc.Ready? || th.pc.Wait? {
      LockKeepsLinear(s, t);
    } else if th.pc.Unlock? {
      UnlockKeepsLinear(s, t);
    } else {
      match th.job {
        case InsertJob(_, _) => InsertKeepsLinear(s, t);
        case EraseJob(_) => EraseKeepsLinear(s, t);
        case LookupJob => LookupKeepsLinear(s, t, e.choice);
      }
    }
  }

  // ---------------------------------------------------------------------------------------------
  // All runs

  ghost predicate Inv<P>(s: State<P>) {
    WfThreads(s) && DistinctInserts(s) && Lock(s) && Core(s) && Linear(s)
  }

  lemma InitialInv<P>(s: State<P>)
    requires Initial(s)
    ensures Inv(s)
  {
    NumberZero(s.threads, true);
    NumberZero(s.threads, false);
    NoLags(s.threads, Root);
    forall i: nat | i < FANOUT ensures ChildPos(Root, i) !in s.items { }
    ChildrenZero(s.items, Root, FANOUT);
  }

  lemma StepKeepsInv<P>(s: State<P>, e: Event)
    requires Inv(s) && Enabled(s, e)
    ensures Inv(Next(s, e))
  {
    StepKeepsThreads(s, e);
    StepKeepsDistinct(s, e);
    StepKeepsLock(s, e);
    StepKeepsCore(s, e);
    StepKeepsLinear(s, e);
  }

  lemma {:induction false} RunKeepsInv<P>(s: State<P>, events: seq<Event>, s': State<P>)
    requires Inv(s) && IsRun(s, events, s')
    ensures Inv(s')
    decreases |events|
  {
    if events != [] {
      StepKeepsInv(s, events[0]);
      RunKeepsInv(Next(s, events[0]), events[1..], s');
    }
  }

  /** In every reachable state an erase inside the lock excludes all other threads, and every node
      that a thread works on is linked. */
  lemma NothingFreedInUse<P>(s: State<P>, events: seq<Event>, s': State<P>, t: nat, u: nat)
    requires Initial(s) && IsRun(s, events, s') && t < |s'.threads| && u < |s'.threads|
    ensures InsideAs(s'.threads[t], true) && u != t ==> !Inside(s'.threads[u])
    ensures HoldsLinked(s'.items, s'.threads[u])
  {
    InitialInv(s);
    RunKeepsInv(s, events, s');
    if InsideAs(s'.threads[t], true) && u != t { EraseIsAlone(s', t, u); }
  }

  // ---------------------------------------------------------------------------------------------
  // Real time

  lemma InsertGrowsLog<P>(s: State<P>, t: nat)
    requires t < |s.threads| && s.threads[t].job.InsertJob? && InsertPC(s.threads[t].pc)
    ensures s.log <= InsertStep(s, t).log
  {
  }

  lemma EraseGrowsLog<P>(s: State<P>, t: nat)
    requires t < |s.threads| && s.threads[t].job.EraseJob? && ErasePC(s.threads[t].pc)
    ensures s.log <= EraseStep(s, t).log
  {
  }

  lemma StepGrowsLog<P>(s: State<P>, e: Event)
    requires Enabled(s, e)
    ensures s.log <= Next(s, e).log
  {
    var th := s.threads[e.t];
    if Inside(th) && !th.pc.Unlock? {
      if th.job.InsertJob? { InsertGrowsLog(s, e.t); } else if th.job.EraseJob? { EraseGrowsLog(s, e.t); }
    }
  }

  /** What has taken effect stays where it is in the history, and threads keep their jobs. */
  lemma {:induction false} RunGrowsLog<P>(s: State<P>, events: seq<Event>, s': State<P>)
    requires Inv(s) && IsRun(s, events, s')
    ensures s.log <= s'.log && |s'.threads| == |s.threads|
    ensures forall t | 0 <= t < |s.threads| :: s'.threads[t].job == s.threads[t].job
    decreases |events|
  {
    if events != [] {
      StepGrowsLog(s, events[0]);
      StepKeepsThreads(s, events[0]);
      StepKeepsInv(s, events[0]);
      RunGrowsLog(Next(s, events[0]), events[1..], s');
    }
  }

  /** The history respects real time: an operation that had returned before another one began comes
      first. */
  lemma RealTimeOrder<P>(s: State<P>, before: seq<Event>, m: State<P>, after: seq<Event>, s': State<P>, j: nat, k: nat)
    requires Initial(s) && IsRun(s, before, m) && IsRun(m, after, s') && j < |s'.log| && k < |s'.log|
    requires s'.log[j].t < |m.threads| && m.threads[s'.log[j].t].pc.Done?
    requires s'.log[k].t < |m.threads| && m.threads[s'.log[k].t].pc.Ready?
    ensures j < k
  {
    InitialInv(s);
    RunKeepsInv(s, before, m);
    RunKeepsInv(m, after, s');
    RunGrowsLog(m, after, s');
    ReturnedBeforeBegun(m.threads, m.log, s'.threads, s'.log, j, k);
  }

  lemma ReturnedBeforeBegun<P>(
    threads: seq<Thread<P>>, log: seq<Commit<P>>, threads': seq<Thread<P>>, log': seq<Commit<P>>,
                               j: nat, k: nat)
    requires Attributed(threads, log) && Attributed(threads', log') && log <= log' && |threads'| == |threads|
    requires forall t | 0 <= t < |threads| :: threads'[t].job == threads[t].job
    requires j < |log'| && log'[j].t < |threads| && threads[log'[j].t].pc.Done?
    requires k < |log'| && log'[k].t < |threads| && threads[log'[k].t].pc.Ready?
    ensures j < k
  {
    assert Commits(threads', log'[j]);
    LoggedBefore(threads, log, threads', log', log'[j].t, j);
    if k < |log| { LoggedIsCommitted(threads, log, k); }
  }

  lemma LoggedIsCommitted<P>(threads: seq<Thread<P>>, log: seq<Commit<P>>, k: nat)
    requires Attributed(threads, log) && k < |log|
    ensures log[k].t < |threads| && Committed(threads[log[k].t])
  {
    assert Commits(threads, log[k]);
  }

  lemma LoggedBefore<P>(threads: seq<Thread<P>>, log: seq<Commit<P>>, threads': seq<Thread<P>>, log': seq<Commit<P>>,
                        t: nat, j: nat)
    requires Attributed(threads, log) && Attributed(threads', log') && log <= log' && j < |log'| && log'[j].t == t
    requires t < |threads| && Committed(threads[t])
    ensures j < |log|
  {
    assert InLog(log, t);
    var i :| 0 <= i < |log| && log[i].t == t;
    assert log'[i] == log[i];
  }

  // ---------------------------------------------------------------------------------------------
  // The tree at rest

  ghost function EntryAt<P>(s: State<P>, a: nat): Slot<P> {
    if a in s.values then Used(s.values[a]) else Free
  }

  ghost function Entries<P>(s: State<P>, p: Pos, k: nat): (es: seq<Slot<P>>)
    ensures |es| == k
  {
    if k == 0 then [] else Entries(s, p, k - 1) + [EntryAt(s, FANOUT * p.prefix + (k - 1))]
  }

  /** The subtree that the linked nodes form below `p`. */
  ghost function TreeAt<P>(s: State<P>, p: Pos): Node<P>
    requires p.h > 0
    decreases p.h, FANOUT + 1
  {
    if p.h == 1 then Leaf(Entries(s, p, FANOUT), CountOf(s, p)) else Inner(Subtrees(s, p, FANOUT), CountOf(s, p))
  }

  ghost function SubtreeAt<P>(s: State<P>, q: Pos): Child<P>
    requires q.h > 0
    decreases q.h, FANOUT + 2
  {
    if q in s.items then Ptr(TreeAt(s, q)) else Null
  }

  ghost function Subtrees<P>(s: State<P>, p: Pos, k: nat): (cs: seq<Child<P>>)
    requires p.h > 1
    ensures |cs| == k && forall i :: 0 <= i < k ==> cs[i] == SubtreeAt(s, ChildPos(p, i))
    decreases p.h, k
  {
    if k == 0 then [] else Subtrees(s, p, k - 1) + [SubtreeAt(s, ChildPos(p, k - 1))]
  }

  ghost predicate AtRest<P>(s: State<P>) {
    forall t | 0 <= t < |s.threads| :: !Inside(s.threads[t])
  }

  /** Counts are exact and no linked node but the root is empty. */
  ghost predicate Exact<P>(s: State<P>) {
    && Linked(s.items) && Tied(s) && Sized(s.values)
    && forall p | p in s.items && p.h > 0 ::
         CountOf(s, p) == Children(s.items, p, FANOUT) && (p.h < TOP ==> CountOf(s, p) > 0)
  }

  /** All stored sizes are positive. */
  ghost predicate Sized<P>(m: map<nat, Value<P>>) {
    forall a | a in m :: m[a].size > 0
  }

  /** At rest no update is owed. */
  lemma RestIsExact<P>(s: State<P>)
    requires Core(s) && AtRest(s) && Sized(s.values)
    ensures Exact(s)
  {
    forall p | p in s.items && p.h > 0
      ensures CountOf(s, p) == Children(s.items, p, FANOUT) && (p.h < TOP ==> CountOf(s, p) > 0)
    {
      forall t | 0 <= t < |s.threads| ensures Lag(s.threads[t], p) == 0 && !Claims(s.threads[t], p) {
        assert !Inside(s.threads[t]);
      }
      NoLags(s.threads, p);
      ChildrenZero(s.items, p, FANOUT);
    }
  }

  lemma {:induction false} UsedCountAppend<P>(es: seq<Slot<P>>, e: Slot<P>)
    ensures UsedCount(es + [e]) == UsedCount(es) + if e.Used? then 1 else 0
  {
    if es != [] {
      assert (es + [e])[1..] == es[1..] + [e];
      UsedCountAppend(es[1..], e);
    }
  }

  lemma {:induction false} PtrCountAppend<P>(cs: seq<Child<P>>, c: Child<P>)
    ensures PtrCount(cs + [c]) == PtrCount(cs) + if c.Ptr? then 1 else 0
  {
    if cs != [] {
      assert (cs + [c])[1..] == cs[1..] + [c];
      PtrCountAppend(cs[1..], c);
    }
  }

  lemma {:induction false} EntriesCount<P>(s: State<P>, p: Pos, k: nat)
    requires Tied(s) && p.h == 1
    ensures UsedCount(Entries(s, p, k)) == Children(s.items, p, k)
  {
    if k > 0 {
      EntriesCount(s, p, k - 1);
      UsedCountAppend(Entries(s, p, k - 1), EntryAt(s, FANOUT * p.prefix + (k - 1)));
      assert ChildPos(p, k - 1) == Pos(0, FANOUT * p.prefix + (k - 1));
    }
  }

  lemma {:induction false} SubtreesCount<P>(s: State<P>, p: Pos, k: nat)
    requires p.h > 1
    ensures PtrCount(Subtrees(s, p, k)) == Children(s.items, p, k)
  {
    if k > 0 {
      SubtreesCount(s, p, k - 1);
      PtrCountAppend(Subtrees(s, p, k - 1), SubtreeAt(s, ChildPos(p, k - 1)));
    }
  }

  lemma RestLeafShape<P>(s: State<P>, p: Pos)
    requires Exact(s) && p in s.items && p.h == 1
    ensures Shape(TreeAt(s, p), 0)
  {
    EntriesCount(s, p, FANOUT);
    forall i: nat | i < FANOUT && Entries(s, p, FANOUT)[i].Used? ensures Entries(s, p, FANOUT)[i].value.size > 0 {
      EntriesHold(s, p, FANOUT, i, FANOUT * p.prefix + i);
    }
  }

  lemma RestInnerShape<P>(s: State<P>, p: Pos)
    requires Exact(s) && p in s.items && p.h > 1
    requires var cs, l := Subtrees(s, p, FANOUT), p.h - 2;
             forall i | 0 <= i < FANOUT && cs[i].Ptr? :: Shape(cs[i].node, l) && cs[i].node.count > 0
    ensures Shape(TreeAt(s, p), p.h - 1)
  {
    SubtreesCount(s, p, FANOUT);
  }

  /** At rest the linked nodes form a well-shaped tree: every count exact, no empty child. */
  lemma {:induction false} RestShape<P>(s: State<P>, p: Pos)
    requires Exact(s) && p in s.items && p.h > 0
    ensures Shape(TreeAt(s, p), p.h - 1) && (p.h < TOP ==> TreeAt(s, p).count > 0)
    decreases p.h
  {
    if p.h == 1 {
      RestLeafShape(s, p);
    } else {
      var cs, l := Subtrees(s, p, FANOUT), p.h - 2;
      forall i: nat | i < FANOUT && cs[i].Ptr? ensures Shape(cs[i].node, l) && cs[i].node.count > 0 {
        assert cs[i] == SubtreeAt(s, ChildPos(p, i));
        RestShape(s, ChildPos(p, i));
      }
      RestInnerShape(s, p);
    }
  }

  lemma {:induction false} ShiftInside(a: nat, l: nat)
    ensures Shift(a / FANOUT, l) == Shift(a, l + 1)
  {
    if l > 0 { ShiftInside(a, l - 1); }
  }

  lemma {:induction false} IndexIsDigit(a: nat, l: nat)
    ensures IndexIn(a, l) == Shift(a, l) % FANOUT
  {
    if l > 0 {
      IndexIsDigit(a / FANOUT, l - 1);
      ShiftInside(a, l - 1);
    }
  }

  /** The child entered by an address is the next node on its way. */
  lemma NextOnWay(a: nat, h: nat)
    requires h > 0
    ensures ChildPos(PosAt(a, h), IndexIn(a, h - 1)) == PosAt(a, h - 1)
  {
    IndexIsDigit(a, h - 1);
  }

  /** Entering a tree at rest goes to the next node on the way. */
  lemma RestEnters<P>(s: State<P>, h: nat, a: nat)
    requires 1 < h <= TOP && Shape(TreeAt(s, PosAt(a, h)), h - 1)
    requires PosAt(a, h - 1) in s.items ==> Shape(TreeAt(s, PosAt(a, h - 1)), h - 2)
    ensures SlotAt(TreeAt(s, PosAt(a, h)), h - 1, a) ==
            if PosAt(a, h - 1) in s.items then SlotAt(TreeAt(s, PosAt(a, h - 1)), h - 2, a) else Free
  {
    NextOnWay(a, h);
    assert Subtrees(s, PosAt(a, h), FANOUT)[IndexIn(a, h - 1)] == SubtreeAt(s, PosAt(a, h - 1));
  }

  lemma RestEntry<P>(s: State<P>, a: nat)
    requires Shape(TreeAt(s, PosAt(a, 1)), 0)
    ensures SlotAt(TreeAt(s, PosAt(a, 1)), 0, a) == EntryAt(s, a)
  {
    LastDigit(a);
    EntriesHold(s, PosAt(a, 1), FANOUT, IndexIn(a, 0), a);
  }

  lemma {:induction false} EntriesHold<P>(s: State<P>, p: Pos, k: nat, i: nat, a: nat)
    requires i < k && a == FANOUT * p.prefix + i
    ensures Entries(s, p, k)[i] == EntryAt(s, a)
    decreases k
  {
    if i < k - 1 { EntriesHold(s, p, k - 1, i, a); }
  }

  lemma LastDigit(a: nat)
    ensures FANOUT * PosAt(a, 1).prefix + IndexIn(a, 0) == a
  {
    assert Shift(a, 0) == a;
  }

  lemma EntryMissing<P>(s: State<P>, a: nat, h: nat)
    requires Linked(s.items) && Tied(s) && h <= TOP && PosAt(a, h) !in s.items
    ensures EntryAt(s, a) == Free
  {
    assert PosAt(a, 0) == Pos(0, a);
    if a in s.values { WayLinked(s.items, a, 0, h); }
  }

  /** One level of the argument that the tree at rest holds the entries. */
  lemma RestSlotStep<P>(s: State<P>, h: nat, a: nat)
    requires 1 < h <= TOP && Shape(TreeAt(s, PosAt(a, h)), h - 1)
    requires if PosAt(a, h - 1) in s.items
             then Shape(TreeAt(s, PosAt(a, h - 1)), h - 2)
               && SlotAt(TreeAt(s, PosAt(a, h - 1)), h - 2, a) == EntryAt(s, a)
             else EntryAt(s, a) == Free
    ensures SlotAt(TreeAt(s, PosAt(a, h)), h - 1, a) == EntryAt(s, a)
  {
    RestEnters(s, h, a);
  }

  lemma {:induction false} RestSlot<P>(s: State<P>, h: nat, a: nat)
    requires Exact(s) && 0 < h <= TOP && PosAt(a, h) in s.items && Shape(TreeAt(s, PosAt(a, h)), h - 1)
    ensures SlotAt(TreeAt(s, PosAt(a, h)), h - 1, a) == EntryAt(s, a)
    decreases h
  {
    if h == 1 {
      RestEntry(s, a);
    } else {
      if PosAt(a, h - 1) in s.items {
        RestShape(s, PosAt(a, h - 1));
        RestSlot(s, h - 1, a);
      } else {
        EntryMissing(s, a, h - 1);
      }
      RestSlotStep(s, h, a);
    }
  }

  lemma {:induction false} ReplaySized<P>(ops: seq<Op<P>>)
    requires forall op :: op in ops ==> Legal(op)
    ensures Sized(Replay(ops))
  {
    if ops != [] {
      ReplaySized(ops[..|ops| - 1]);
      assert Legal(ops[|ops| - 1]);
    }
  }

  /** Concurrent inserts and erases are linearisable: whenever no thread is inside the lock, the tree
      is node for node the tree of the sequential history in the log. */
  lemma RestIsSequential<P>(s: State<P>, events: seq<Event>, s': State<P>)
    requires Initial(s) && IsRun(s, events, s') && AtRest(s')
    ensures (forall op :: op in OpsOf(s'.log) ==> Legal(op)) && Sequential(s'.log) && Attributed(s'.threads, s'.log)
    ensures TreeAt(s', Root) == Built(OpsOf(s'.log))
  {
    InitialInv(s);
    RunKeepsInv(s, events, s');
    LogIsLegal(s');
    ReplaySized(OpsOf(s'.log));
    RestIsExact(s');
    ExactIsBuilt(s', OpsOf(s'.log));
  }

  lemma LogIsLegal<P>(s: State<P>)
    requires WfThreads(s) && Attributed(s.threads, s.log)
    ensures forall op :: op in OpsOf(s.log) ==> Legal(op)
  {
    var ops := OpsOf(s.log);
    forall op | op in ops ensures Legal(op) {
      var k :| 0 <= k < |ops| && ops[k] == op;
      assert Commits(s.threads, s.log[k]);
    }
  }

  /** A tree at rest is determined by its entries. */
  lemma ExactIsBuilt<P>(s: State<P>, ops: seq<Op<P>>)
    requires Exact(s) && (forall op :: op in ops ==> Legal(op)) && s.values == Replay(ops)
    ensures TreeAt(s, Root) == Built(ops)
  {
    HistoryMatches(ops);
    RestShape(s, Root);
    RootSpan();
    forall a: nat | a < WORD ensures SlotAt(TreeAt(s, Root), ROOT_LEVEL, a) == EntryAt(s, a) {
      WayFromRoot(a);
      RestSlot(s, TOP, a);
    }
    MatchesUnique(TreeAt(s, Root), Built(ops), s.values);
  }

  // ---------------------------------------------------------------------------------------------
  // Inserts only

  ghost predicate DistinctInsertOps<P>(log: seq<Commit<P>>) {
    && (forall k :: 0 <= k < |log| ==> log[k].op.InsertOp?)
    && (forall j, k :: 0 <= j < k < |log| ==> log[j].op.address != log[k].op.address)
  }

  ghost predicate Mentions<P>(log: seq<Commit<P>>, a: nat) {
    exists k :: 0 <= k < |log| && log[k].op.address == a
  }

  /** All operations of the log succeeded, and the map holds exactly what they inserted. */
  ghost predicate Union<P>(log: seq<Commit<P>>, m: map<nat, Value<P>>) {
    && (forall k :: 0 <= k < |log| ==>
      log[k].ok && log[k].op.InsertOp? && log[k].op.address in m && m[log[k].op.address] == log[k].op.value)
    && (forall a :: a in m ==> Mentions(log, a))
  }

  lemma UnionGrows<P>(log: seq<Commit<P>>, m: map<nat, Value<P>>, c: Commit<P>)
    requires Union(log, m) && c.op.InsertOp? && !Mentions(log, c.op.address) && c.ok == Succeeds(m, c.op)
    ensures Union(log + [c], OnMap(m, c.op))
  {
    var log', m' := log + [c], OnMap(m, c.op);
    assert c.op.address !in m;
    forall a | a in m' ensures Mentions(log', a) {
      if a == c.op.address {
        assert log'[|log|].op.address == a;
      } else {
        var k :| 0 <= k < |log| && log[k].op.address == a;
        assert log'[k].op.address == a;
      }
    }
  }

  lemma DistinctBefore<P>(log: seq<Commit<P>>, before: seq<Commit<P>>, c: Commit<P>)
    requires DistinctInsertOps(log) && log == before + [c]
    ensures DistinctInsertOps(before) && c.op.InsertOp? && !Mentions(before, c.op.address)
  {
    assert log[|before|] == c;
    forall k | 0 <= k < |before| ensures before[k] == log[k] { }
  }

  lemma SequentialBefore<P>(log: seq<Commit<P>>, before: seq<Commit<P>>, c: Commit<P>)
    requires Sequential(log) && log == before + [c]
    ensures Sequential(before) && c.ok == Succeeds(MapAfter(before), c.op)
  {
    assert log[..|log| - 1] == before && log[|log| - 1] == c;
  }

  /** Inserts at different addresses all succeed, in every order. */
  lemma {:induction false} InsertsReplay<P>(log: seq<Commit<P>>)
    requires DistinctInsertOps(log) && Sequential(log)
    ensures Union(log, MapAfter(log))
    decreases |log|
  {
    if log != [] {
      var before, c := log[..|log| - 1], log[|log| - 1];
      DistinctBefore(log, before, c);
      SequentialBefore(log, before, c);
      InsertsReplay(before);
      UnionGrows(before, MapAfter(before), c);
      MapAfterCommit(before, c);
    }
  }

  /** All threads insert, at different addresses. */
  ghost predicate AllInserts<P>(threads: seq<Thread<P>>) {
    && (forall t | 0 <= t < |threads| :: threads[t].job.InsertJob?)
    && (forall t, u | 0 <= t < u < |threads| :: threads[t].job.address != threads[u].job.address)
  }

  /** Any interleaving of inserts at different addresses ends with all of them successful and the
      entries exactly their union. */
  lemma InsertsEndInUnion<P>(s: State<P>, events: seq<Event>, s': State<P>)
    requires Initial(s) && IsRun(s, events, s') && AllInserts(s'.threads)
    requires forall t | 0 <= t < |s'.threads| :: s'.threads[t].pc.Done?
    ensures forall t | 0 <= t < |s'.threads| ::
              var th := s'.threads[t];
              th.pc.ok && th.job.address in s'.values && s'.values[th.job.address] == th.job.value
    ensures forall a :: a in s'.values ==> exists t :: 0 <= t < |s'.threads| && s'.threads[t].job.address == a
  {
    InitialInv(s);
    RunKeepsInv(s, events, s');
    InsertsUnion(s'.threads, s'.log);
  }

  lemma InsertsUnion<P>(threads: seq<Thread<P>>, log: seq<Commit<P>>)
    requires Attributed(threads, log) && Sequential(log) && AllInserts(threads)
    requires forall t | 0 <= t < |threads| :: threads[t].pc.Done?
    ensures forall t | 0 <= t < |threads| ::
              var th := threads[t];
              th.pc.ok && th.job.address in MapAfter(log) && MapAfter(log)[th.job.address] == th.job.value
    ensures forall a :: a in MapAfter(log) ==> exists t :: 0 <= t < |threads| && threads[t].job.address == a
  {
    forall k | 0 <= k < |log| ensures Commits(threads, log[k]) { }
    InsertsReplay(log);
    var m := MapAfter(log);
    forall t: nat | t < |threads|
      ensures var th := threads[t]; th.pc.ok && th.job.address in m && m[th.job.address] == th.job.value
    {
      assert Committed(threads[t]);
      assert InLog(log, t);
      var k :| 0 <= k < |log| && log[k].t == t;
    }
    forall a | a in m ensures exists t :: 0 <= t < |threads| && threads[t].job.address == a {
      assert Mentions(log, a);
      var k :| 0 <= k < |log| && log[k].op.address == a;
      assert threads[log[k].t].job.address == a;
    }
  }
}
