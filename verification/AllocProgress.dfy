/** No thread waits for ever: inside the lock every step comes closer to the end, and from every reachable state all
    threads can finish (include/hipSYCL/common/allocation_map.hpp:329-487). */
module AllocProgress {
  import opened Words
  import opened AllocTree
  import opened AllocMap
  import opened AllocThreads
  import opened AllocThreadsProofs
  import opened AllocLinear

  // ---------------------------------------------------------------------------------------------
  // Runs

  ghost predicate LeadsTo<P>(s: State<P>, s': State<P>) {
    exists events :: IsRun(s, events, s')
  }

  lemma {:induction false} RunExtended<P>(s: State<P>, events: seq<Event>, m: State<P>, e: Event)
    requires IsRun(s, events, m) && Enabled(m, e)
    ensures IsRun(s, events + [e], Next(m, e))
    decreases |events|
  {
    if events == [] {
      assert IsRun(Next(m, e), [e][1..], Next(m, e));
    } else {
      RunExtended(Next(s, events[0]), events[1..], m, e);
      assert (events + [e])[1..] == events[1..] + [e];
    }
  }

  lemma LeadsFurther<P>(s: State<P>, m: State<P>, e: Event)
    requires LeadsTo(s, m) && Enabled(m, e)
    ensures LeadsTo(s, Next(m, e))
  {
    var events :| IsRun(s, events, m);
    RunExtended(s, events, m, e);
  }

  // ---------------------------------------------------------------------------------------------
  // Inside the lock

  /** How far a thread inside the lock is from the end. */
  ghost function Rank<P>(th: Thread<P>): nat {
    match th.pc
    case Load(h) => 3 * h + 2
    case Publish(h) => 3 * h + 1
    case Bump(h) => 3 * h
    case Down(h) => 100 + h
    case Clear => 100
    case Dec(h) => if h <= TOP then 2 * (TOP - h) + 3 else 0
    case Up(h) => if h <= TOP then 2 * (TOP - h) + 4 else 0
    case Read(held) => |held| + 1
    case Unlock(_) => 1
    case _ => 0
  }

  /** The step that does not enter another node. */
  function Onward(t: nat): Event {
    Event(t, FANOUT)
  }

  lemma InsertDescends<P>(s: State<P>, t: nat)
    requires t < |s.threads| && s.threads[t].job.InsertJob? && InsertPC(s.threads[t].pc)
    ensures t < |InsertStep(s, t).threads| && Rank(InsertStep(s, t).threads[t]) < Rank(s.threads[t])
  {
  }

  lemma EraseDescends<P>(s: State<P>, t: nat)
    requires t < |s.threads| && s.threads[t].job.EraseJob? && ErasePC(s.threads[t].pc)
    ensures t < |EraseStep(s, t).threads| && Rank(EraseStep(s, t).threads[t]) < Rank(s.threads[t])
  {
  }

  lemma LookupDescends<P>(s: State<P>, t: nat)
    requires t < |s.threads| && s.threads[t].pc.Read? && s.threads[t].pc.held != []
    ensures t < |LookupStep(s, t, FANOUT).threads| && Rank(LookupStep(s, t, FANOUT).threads[t]) < Rank(s.threads[t])
  {
  }

  /** Inside the lock every step of an insert, an erase, or a lookup on its way back, comes closer to the end. */
  lemma StepDescends<P>(s: State<P>, t: nat)
    requires WfThreads(s) && t < |s.threads| && Inside(s.threads[t])
    ensures Enabled(s, Onward(t)) && t < |Next(s, Onward(t)).threads|
    ensures Rank(Next(s, Onward(t)).threads[t]) < Rank(s.threads[t])
    ensures Inside(Next(s, Onward(t)).threads[t]) || Next(s, Onward(t)).threads[t].pc.Done?
  {
    assert Fits(s.threads[t]);
    StepMoves(s, Onward(t));
    if !s.threads[t].pc.Unlock? {
      match s.threads[t].job {
        case InsertJob(_, _) => InsertDescends(s, t);
        case EraseJob(_) => EraseDescends(s, t);
        case LookupJob => LookupDescends(s, t);
      }
    }
  }

  /** `s'` differs from `s` in thread `t`, which has finished, as far as threads are concerned. */
  ghost predicate Finished<P>(s: State<P>, t: nat, s': State<P>) {
    && |s'.threads| == |s.threads| && t < |s.threads| && s'.threads[t].pc.Done?
    && s'.threads[t].job == s.threads[t].job
    && forall u :: 0 <= u < |s.threads| && u != t ==> s'.threads[u] == s.threads[u]
  }

  lemma {:induction false} FinishInside<P>(z: State<P>, s: State<P>, t: nat) returns (s': State<P>)
    requires LeadsTo(z, s) && Inv(s) && t < |s.threads| && Inside(s.threads[t])
    ensures LeadsTo(z, s') && Inv(s') && Finished(s, t, s')
    decreases Rank(s.threads[t])
  {
    StepDescends(s, t);
    var m := Next(s, Onward(t));
    StepKeepsInv(s, Onward(t));
    StepKeepsThreads(s, Onward(t));
    LeadsFurther(z, s, Onward(t));
    if m.threads[t].pc.Done? {
      s' := m;
    } else {
      s' := FinishInside(z, m, t);
    }
  }

  // ---------------------------------------------------------------------------------------------
  // Waiting for the lock

  /** With nobody inside, the counter is 0. */
  lemma RestIsUnlocked<P>(s: State<P>)
    requires Lock(s) && AtRest(s)
    ensures s.counter == 0
  {
    NumberZero(s.threads, true);
    NumberZero(s.threads, false);
  }

  /** With nobody inside, a thread that waits with the right expectation gets the lock. */
  lemma TakesLock<P>(s: State<P>, t: nat)
    requires Inv(s) && AtRest(s) && t < |s.threads| && s.threads[t].pc == Wait(0)
    ensures Enabled(s, Onward(t)) && t < |Next(s, Onward(t)).threads| && Inside(Next(s, Onward(t)).threads[t])
  {
    RestIsUnlocked(s);
  }

  /** A step outside the lock, with nobody inside, leads to the right expectation. */
  lemma Expects<P>(s: State<P>, t: nat)
    requires Inv(s) && AtRest(s) && t < |s.threads|
    requires s.threads[t].pc.Wait? || (s.threads[t].pc.Ready? && MayBegin(s, t))
    requires s.threads[t].pc != Wait(0)
    ensures Enabled(s, Onward(t)) && t < |Next(s, Onward(t)).threads|
    ensures Next(s, Onward(t)).threads[t].pc == Wait(0) || Inside(Next(s, Onward(t)).threads[t])
  {
    RestIsUnlocked(s);
  }

  lemma RestKept<P>(s: State<P>, s': State<P>, t: nat)
    requires AtRest(s) && |s'.threads| == |s.threads| && t < |s.threads| && !Inside(s'.threads[t])
    requires forall u :: 0 <= u < |s.threads| && u != t ==> s'.threads[u] == s.threads[u]
    ensures AtRest(s')
  {
  }

  lemma FinishWaiting<P>(z: State<P>, s: State<P>, t: nat) returns (s': State<P>)
    requires LeadsTo(z, s) && Inv(s) && AtRest(s) && t < |s.threads| && s.threads[t].pc == Wait(0)
    ensures LeadsTo(z, s') && Inv(s') && Finished(s, t, s')
  {
    TakesLock(s, t);
    StepKeepsInv(s, Onward(t));
    StepKeepsThreads(s, Onward(t));
    LeadsFurther(z, s, Onward(t));
    s' := FinishInside(z, Next(s, Onward(t)), t);
  }

  lemma FinishOutside<P>(z: State<P>, s: State<P>, t: nat) returns (s': State<P>)
    requires LeadsTo(z, s) && Inv(s) && AtRest(s) && t < |s.threads|
    requires s.threads[t].pc.Wait? || (s.threads[t].pc.Ready? && MayBegin(s, t))
    ensures LeadsTo(z, s') && Inv(s') && Finished(s, t, s')
  {
    if s.threads[t].pc == Wait(0) {
      s' := FinishWaiting(z, s, t);
    } else {
      Expects(s, t);
      var m := Next(s, Onward(t));
      StepKeepsInv(s, Onward(t));
      StepKeepsThreads(s, Onward(t));
      LeadsFurther(z, s, Onward(t));
      if Inside(m.threads[t]) {
        s' := FinishInside(z, m, t);
      } else {
        RestKept(s, m, t);
        s' := FinishWaiting(z, m, t);
      }
    }
  }

  // ---------------------------------------------------------------------------------------------
  // All threads

  ghost function Unfinished<P>(threads: seq<Thread<P>>): nat {
    if threads == [] then 0 else Unfinished(threads[1..]) + if threads[0].pc.Done? then 0 else 1
  }

  lemma {:induction false} OneFewer<P>(threads: seq<Thread<P>>, threads': seq<Thread<P>>, t: nat)
    requires |threads'| == |threads| && t < |threads| && !threads[t].pc.Done? && threads'[t].pc.Done?
    requires forall u :: 0 <= u < |threads| && u != t ==> threads'[u] == threads[u]
    ensures Unfinished(threads') == Unfinished(threads) - 1
  {
    if t > 0 {
      OneFewer(threads[1..], threads'[1..], t - 1);
    } else {
      assert threads'[1..] == threads[1..];
    }
  }

  /** Some thread that is not done can finish: one inside, or else a waiting one, or else one that has not begun. */
  lemma SomeFinishes<P>(z: State<P>, s: State<P>) returns (t: nat, s': State<P>)
    requires LeadsTo(z, s) && Inv(s) && exists u :: 0 <= u < |s.threads| && !s.threads[u].pc.Done?
    ensures LeadsTo(z, s') && Inv(s') && Finished(s, t, s') && !s.threads[t].pc.Done?
  {
    if i :| 0 <= i < |s.threads| && Inside(s.threads[i]) {
      t := i;
      s' := FinishInside(z, s, t);
    } else if w :| 0 <= w < |s.threads| && s.threads[w].pc.Wait? {
      t := w;
      s' := FinishOutside(z, s, t);
    } else {
      t :| 0 <= t < |s.threads| && !s.threads[t].pc.Done?;
      s' := FinishOutside(z, s, t);
    }
  }

  ghost predicate SameJobs<P>(s: State<P>, s': State<P>) {
    |s'.threads| == |s.threads| && forall u :: 0 <= u < |s.threads| ==> s'.threads[u].job == s.threads[u].job
  }

  ghost predicate AllDone<P>(s: State<P>) {
    forall u :: 0 <= u < |s.threads| ==> s.threads[u].pc.Done?
  }

  /** One thread fewer is unfinished. */
  lemma OneMoreFinishes<P>(z: State<P>, s: State<P>) returns (s': State<P>)
    requires LeadsTo(z, s) && Inv(s) && !AllDone(s)
    ensures LeadsTo(z, s') && Inv(s') && SameJobs(s, s') && Unfinished(s'.threads) < Unfinished(s.threads)
  {
    var t;
    t, s' := SomeFinishes(z, s);
    OneFewer(s.threads, s'.threads, t);
  }

  lemma AllFinish<P>(z: State<P>, s: State<P>) returns (s': State<P>)
    requires LeadsTo(z, s) && Inv(s)
    ensures LeadsTo(z, s') && Inv(s') && SameJobs(s, s') && AllDone(s')
  {
    s' := s;
    while !AllDone(s')
      invariant LeadsTo(z, s') && Inv(s') && SameJobs(s, s')
      decreases Unfinished(s'.threads)
    {
      s' := OneMoreFinishes(z, s');
    }
  }

  /** From every reachable state all threads can finish. At the end the results are those of one sequential history
      with an entry for each insert and erase, and the tree is that of the history. */
  lemma EveryRunCanFinish<P>(z: State<P>, events: seq<Event>, s: State<P>) returns (more: seq<Event>, s': State<P>)
    requires Initial(z) && IsRun(z, events, s)
    ensures IsRun(s, more, s') && SameJobs(s, s') && AllDone(s')
    ensures Sequential(s'.log) && Attributed(s'.threads, s'.log)
  {
    InitialInv(z);
    RunKeepsInv(z, events, s);
    assert IsRun(s, [], s);
    s' := AllFinish(s, s);
    more :| IsRun(s, more, s');
  }

  // ---------------------------------------------------------------------------------------------
  // Lookups

  ghost predicate Visits<P>(s: State<P>, t: nat, q: Pos) {
    && t < |s.threads| && s.threads[t].job.LookupJob? && s.threads[t].pc.Read? && s.threads[t].pc.held != []
    && s.threads[t].pc.held[|s.threads[t].pc.held| - 1] == q
  }

  lemma EntersChild<P>(z: State<P>, s: State<P>, t: nat, q: Pos) returns (s': State<P>)
    requires LeadsTo(z, s) && Visits(s, t, Parent(q)) && q.h >= 1 && q in s.items
    ensures LeadsTo(z, s') && Visits(s', t, q) && s'.items == s.items
  {
    var e := Event(t, q.prefix % FANOUT);
    IsChildOfParent(q);
    LeadsFurther(z, s, e);
    s' := Next(s, e);
  }

  /** A lookup that holds the root can go to every linked node. */
  lemma {:induction false} LookupReaches<P>(z: State<P>, s: State<P>, t: nat, q: Pos) returns (s': State<P>)
    requires LeadsTo(z, s) && Linked(s.items) && Visits(s, t, Root) && q in s.items && q.h >= 1
    ensures LeadsTo(z, s') && Visits(s', t, q) && s'.items == s.items
    decreases TOP - q.h
  {
    if q.h == TOP {
      s' := s;
    } else {
      assert Parent(q) in s.items;
      var m := LookupReaches(z, s, t, Parent(q));
      s' := EntersChild(z, m, t, q);
    }
  }
}
