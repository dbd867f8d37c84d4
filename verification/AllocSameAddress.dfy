/** Inserts that begin freely. Two overlapping inserts at one address can both report success, and the
    leaf then counts one entry twice; without two such inserts every interleaving linearises. */
module AllocSameAddress {
  import opened Words
  import opened AllocTree
  import opened AllocMap
  import opened AllocThreads
  import opened AllocThreadsProofs
  import opened AllocLinear

  // ---------------------------------------------------------------------------------------------
  // Runs in which inserts begin whatever the other threads do

  ghost predicate Reached<P>(s: State<P>, s': State<P>) {
    exists events :: IsFreeRun(s, events, s')
  }

  lemma {:induction false} FreeRunExtended<P>(s: State<P>, events: seq<Event>, m: State<P>, e: Event)
    requires IsFreeRun(s, events, m) && Possible(m, e)
    ensures IsFreeRun(s, events + [e], Next(m, e))
    decreases |events|
  {
    if events == [] {
      assert IsFreeRun(Next(m, e), [e][1..], Next(m, e));
    } else {
      FreeRunExtended(Next(s, events[0]), events[1..], m, e);
      assert (events + [e])[1..] == events[1..] + [e];
    }
  }

  lemma ReachedStep<P>(s: State<P>, m: State<P>, t: nat)
    requires Reached(s, m) && Possible(m, Event(t, 0))
    ensures Reached(s, Next(m, Event(t, 0)))
  {
    var events :| IsFreeRun(s, events, m);
    FreeRunExtended(s, events, m, Event(t, 0));
  }

  ghost predicate Inserts<P>(s: State<P>, t: nat, a: nat, pc: PC) {
    At(s, t, pc) && s.threads[t].job.InsertJob? && s.threads[t].job.address == a
  }

  lemma ReachLock<P>(z: State<P>, m: State<P>, t: nat, a: nat)
    requires Reached(z, m) && Inserts(m, t, a, Ready) && m.counter >= 0
    ensures Reached(z, Move(m, t, Load(TOP)).(counter := m.counter + 1))
  {
    ReachedStep(z, m, t);
    var m' := Move(m, t, Wait(m.counter));
    assert Next(m, Event(t, 0)) == m';
    ReachedStep(z, m', t);
    assert Next(m', Event(t, 0)) == Move(m, t, Load(TOP)).(counter := m.counter + 1);
  }

  lemma ReachLoad<P>(z: State<P>, m: State<P>, t: nat, a: nat, h: nat)
    requires Reached(z, m) && Inserts(m, t, a, Load(h)) && (h > 1 || PosAt(a, h - 1) !in m.items)
    ensures Reached(z, Move(m, t, if PosAt(a, h - 1) in m.items then Load(h - 1) else Publish(h)))
  {
    ReachedStep(z, m, t);
  }

  lemma ReachPublish<P>(z: State<P>, m: State<P>, t: nat, a: nat, h: nat)
    requires Reached(z, m) && Inserts(m, t, a, Publish(h)) && h > 1 && PosAt(a, h - 1) !in m.items
    ensures Reached(z, Move(m, t, Bump(h)).(
                      items := m.items + {PosAt(a, h - 1)}, counts := m.counts[PosAt(a, h - 1) := 0]))
  {
    ReachedStep(z, m, t);
  }

  lemma ReachStore<P>(z: State<P>, m: State<P>, t: nat, a: nat)
    requires Reached(z, m) && Inserts(m, t, a, Publish(1))
    ensures Reached(z, Stored(m, t))
  {
    ReachedStep(z, m, t);
  }

  /** The state after the entry of thread `t` has been stored. */
  ghost function Stored<P>(m: State<P>, t: nat): State<P>
    requires t < |m.threads| && m.threads[t].job.InsertJob?
  {
    var a := m.threads[t].job.address;
    Move(m, t, Bump(1)).(
    items := m.items + {PosAt(a, 0)},
    values := m.values[a := m.threads[t].job.value],
    log := m.log + [Commit(t, OpOf(m.threads[t].job), true)])
  }

  lemma ReachBump<P>(z: State<P>, m: State<P>, t: nat, a: nat, h: nat)
    requires Reached(z, m) && Inserts(m, t, a, Bump(h))
    ensures Reached(z, Move(m, t, if h == 1 then Unlock(true) else Load(h - 1)).(
                      counts := m.counts[PosAt(a, h) := CountOf(m, PosAt(a, h)) + 1]))
  {
    ReachedStep(z, m, t);
  }

  lemma ReachUnlock<P>(z: State<P>, m: State<P>, t: nat, a: nat)
    requires Reached(z, m) && Inserts(m, t, a, Unlock(true))
    ensures Reached(z, Move(m, t, Done(true)).(counter := m.counter - 1))
  {
    ReachedStep(z, m, t);
  }

  // ---------------------------------------------------------------------------------------------
  // Two overlapping inserts

  /** Two threads insert at the same address. */
  ghost predicate SameAddress<P>(threads: seq<Thread<P>>, t: nat, u: nat) {
    && t < |threads| && u < |threads| && t != u && threads[t].job.InsertJob? && threads[u].job.InsertJob?
    && threads[t].job.address == threads[u].job.address
  }

  /** The threads of `z` when `t` and `u` have come to the given steps and the others have not begun. */
  ghost function Pair<P>(z: State<P>, t: nat, u: nat, first: PC, second: PC): seq<Thread<P>>
    requires SameAddress(z.threads, t, u)
  {
    z.threads[t := z.threads[t].(pc := first)][u := z.threads[u].(pc := second)]
  }

  /** Both threads are inside; the tree is linked on the way to `a` down to height `low`, and nothing
      is counted there yet. */
  ghost predicate Together<P>(s: State<P>, a: nat, low: nat, threads: seq<Thread<P>>) {
    && s.counter == 2 && s.log == [] && s.values == map[] && s.threads == threads
    && OnWay(s.items, a, low) && CountOf(s, PosAt(a, low)) == 0
  }

  ghost predicate OnWay(items: set<Pos>, a: nat, low: nat) {
    forall p: Pos :: p in items <==> low <= p.h <= TOP && p == PosAt(a, p.h)
  }

  lemma BothEnter<P>(z: State<P>, t: nat, u: nat, a: nat) returns (s: State<P>)
    requires Initial(z) && SameAddress(z.threads, t, u) && a == z.threads[t].job.address
    ensures Reached(z, s) && Together(s, a, TOP, Pair(z, t, u, Load(TOP), Load(TOP)))
  {
    WayFromRoot(a);
    assert IsFreeRun(z, [], z);
    ReachLock(z, z, t, a);
    s := Move(z, t, Load(TOP)).(counter := 1);
    ReachLock(z, s, u, a);
    s := Move(s, u, Load(TOP)).(counter := 2);
  }

  lemma WayGrows(items: set<Pos>, a: nat, low: nat)
    requires OnWay(items, a, low) && 0 < low <= TOP
    ensures PosAt(a, low - 1) !in items && OnWay(items + {PosAt(a, low - 1)}, a, low - 1)
  {
  }

  lemma PairMoves<P>(z: State<P>, t: nat, u: nat, first: PC, second: PC, pc: PC)
    requires SameAddress(z.threads, t, u)
    ensures var ts := Pair(z, t, u, first, second);
            && ts[t := ts[t].(pc := pc)] == Pair(z, t, u, pc, second)
            && ts[u := ts[u].(pc := pc)] == Pair(z, t, u, first, pc)
  {
  }

  /** The first thread creates the node below height `h`. */
  lemma FirstCreates<P>(z: State<P>, s: State<P>, t: nat, u: nat, a: nat, h: nat) returns (s': State<P>)
    requires SameAddress(z.threads, t, u) && a == z.threads[t].job.address && 2 <= h <= TOP
    requires Reached(z, s) && Together(s, a, h, Pair(z, t, u, Load(h), Load(TOP)))
    ensures Reached(z, s') && Together(s', a, h - 1, Pair(z, t, u, Load(h - 1), Load(TOP)))
  {
    WayGrows(s.items, a, h);
    ReachLoad(z, s, t, a, h);
    s' := Move(s, t, Publish(h));
    PairMoves(z, t, u, Load(h), Load(TOP), Publish(h));
    ReachPublish(z, s', t, a, h);
    s' := Move(s', t, Bump(h)).(items := s.items + {PosAt(a, h - 1)}, counts := s.counts[PosAt(a, h - 1) := 0]);
    PairMoves(z, t, u, Publish(h), Load(TOP), Bump(h));
    ReachBump(z, s', t, a, h);
    s' := Move(s', t, Load(h - 1)).(counts := s'.counts[PosAt(a, h) := CountOf(s', PosAt(a, h)) + 1]);
    PairMoves(z, t, u, Bump(h), Load(TOP), Load(h - 1));
  }

  lemma {:induction false} FirstDescends<P>(z: State<P>, s: State<P>, t: nat, u: nat, a: nat, h: nat)
    returns (s': State<P>)
    requires SameAddress(z.threads, t, u) && a == z.threads[t].job.address && 1 <= h <= TOP
    requires Reached(z, s) && Together(s, a, h, Pair(z, t, u, Load(h), Load(TOP)))
    ensures Reached(z, s') && Together(s', a, 1, Pair(z, t, u, Publish(1), Load(TOP)))
    decreases h
  {
    if h == 1 {
      WayGrows(s.items, a, 1);
      ReachLoad(z, s, t, a, 1);
      s' := Move(s, t, Publish(1));
      PairMoves(z, t, u, Load(1), Load(TOP), Publish(1));
    } else {
      s' := FirstCreates(z, s, t, u, a, h);
      s' := FirstDescends(z, s', t, u, a, h - 1);
    }
  }

  lemma {:induction false} SecondDescends<P>(z: State<P>, s: State<P>, t: nat, u: nat, a: nat, h: nat)
    returns (s': State<P>)
    requires SameAddress(z.threads, t, u) && a == z.threads[t].job.address && 1 <= h <= TOP
    requires Reached(z, s) && Together(s, a, 1, Pair(z, t, u, Publish(1), Load(h)))
    ensures Reached(z, s') && Together(s', a, 1, Pair(z, t, u, Publish(1), Publish(1)))
    decreases h
  {
    WayGrows(s.items, a, 1);
    ReachLoad(z, s, u, a, h);
    if h == 1 {
      s' := Move(s, u, Publish(1));
      PairMoves(z, t, u, Publish(1), Load(1), Publish(1));
    } else {
      assert PosAt(a, h - 1) in s.items;
      PairMoves(z, t, u, Publish(1), Load(h), Load(h - 1));
      s' := SecondDescends(z, Move(s, u, Load(h - 1)), t, u, a, h - 1);
    }
  }

  /** The history in which both inserts succeed. */
  ghost function BothSucceed<P>(z: State<P>, t: nat, u: nat): seq<Commit<P>>
    requires SameAddress(z.threads, t, u)
  {
    [Commit(t, OpOf(z.threads[t].job), true), Commit(u, OpOf(z.threads[u].job), true)]
  }

  lemma BothStore<P>(z: State<P>, s: State<P>, t: nat, u: nat, a: nat) returns (s': State<P>)
    requires SameAddress(z.threads, t, u) && a == z.threads[t].job.address
    requires Reached(z, s) && Together(s, a, 1, Pair(z, t, u, Publish(1), Publish(1)))
    ensures Reached(z, s') && s'.counter == 2 && s'.threads == Pair(z, t, u, Bump(1), Bump(1))
    ensures s'.values == map[a := z.threads[u].job.value] && s'.log == BothSucceed(z, t, u)
    ensures OnWay(s'.items, a, 0) && CountOf(s', PosAt(a, 1)) == 0
  {
    WayGrows(s.items, a, 1);
    ReachStore(z, s, t, a);
    s' := Stored(s, t);
    PairMoves(z, t, u, Publish(1), Publish(1), Bump(1));
    ReachStore(z, s', u, a);
    s' := Stored(s', u);
    PairMoves(z, t, u, Bump(1), Publish(1), Bump(1));
    assert s'.items == s.items + {PosAt(a, 0)};
  }

  lemma BothCount<P>(z: State<P>, s: State<P>, t: nat, u: nat, a: nat) returns (s': State<P>)
    requires SameAddress(z.threads, t, u) && a == z.threads[t].job.address
    requires Reached(z, s) && s.counter == 2 && s.threads == Pair(z, t, u, Bump(1), Bump(1))
    ensures Reached(z, s') && s'.threads == Pair(z, t, u, Unlock(true), Unlock(true))
    ensures CountOf(s', PosAt(a, 1)) == CountOf(s, PosAt(a, 1)) + 2
    ensures s' == s.(threads := s'.threads, counts := s'.counts)
  {
    ReachBump(z, s, t, a, 1);
    s' := Move(s, t, Unlock(true)).(counts := s.counts[PosAt(a, 1) := CountOf(s, PosAt(a, 1)) + 1]);
    PairMoves(z, t, u, Bump(1), Bump(1), Unlock(true));
    ReachBump(z, s', u, a, 1);
    s' := Move(s', u, Unlock(true)).(counts := s'.counts[PosAt(a, 1) := CountOf(s', PosAt(a, 1)) + 1]);
    PairMoves(z, t, u, Unlock(true), Bump(1), Unlock(true));
  }

  lemma BothLeave<P>(z: State<P>, s: State<P>, t: nat, u: nat, a: nat) returns (s': State<P>)
    requires SameAddress(z.threads, t, u) && a == z.threads[t].job.address
    requires Reached(z, s) && s.counter == 2 && s.threads == Pair(z, t, u, Unlock(true), Unlock(true))
    ensures Reached(z, s') && s' == s.(counter := 0, threads := Pair(z, t, u, Done(true), Done(true)))
  {
    ReachUnlock(z, s, t, a);
    s' := Move(s, t, Done(true)).(counter := 1);
    PairMoves(z, t, u, Unlock(true), Unlock(true), Done(true));
    ReachUnlock(z, s', u, a);
    s' := Move(s', u, Done(true)).(counter := 0);
    PairMoves(z, t, u, Done(true), Unlock(true), Done(true));
  }

  lemma OneChild(items: set<Pos>, a: nat)
    requires OnWay(items, a, 0)
    ensures Children(items, PosAt(a, 1), FANOUT) == 1 && PosAt(a, 1) in items
  {
    var q := PosAt(a, 0);
    var rest := items - {q};
    forall i: nat | i < FANOUT ensures ChildPos(PosAt(a, 1), i) !in rest {
      assert ChildPos(PosAt(a, 1), i).h == 0;
    }
    ChildrenZero(rest, PosAt(a, 1), FANOUT);
    ChildrenAdd(rest, q, PosAt(a, 1), FANOUT);
    assert rest + {q} == items;
  }

  /** No sequential history lets both inserts succeed. */
  lemma TwiceIsNotSequential<P>(z: State<P>, t: nat, u: nat)
    requires SameAddress(z.threads, t, u)
    ensures !Sequential(BothSucceed(z, t, u))
  {
    var log := BothSucceed(z, t, u);
    assert log[..1] == [] + [log[0]];
    MapAfterCommit([], log[0]);
  }

  /** Both inserts at `a` have succeeded, the others have not begun: the leaf links one entry and
      counts two. */
  ghost predicate CountedTwice<P>(z: State<P>, t: nat, u: nat, s: State<P>)
    requires SameAddress(z.threads, t, u)
  {
    var a := z.threads[t].job.address;
    && s.counter == 0 && s.threads == Pair(z, t, u, Done(true), Done(true))
    && s.values == map[a := z.threads[u].job.value] && s.log == BothSucceed(z, t, u)
    && PosAt(a, 1) in s.items && CountOf(s, PosAt(a, 1)) == 2 && Children(s.items, PosAt(a, 1), FANOUT) == 1
  }

  /** Whatever the other threads are to do, two inserts at one address can overlap so that both succeed,
      against every sequential history, and leave a leaf that links one entry and counts two. */
  lemma OverlappingInsertsDoubleCount<P>(z: State<P>, t: nat, u: nat) returns (s: State<P>)
    requires Initial(z) && SameAddress(z.threads, t, u)
    ensures Reached(z, s) && CountedTwice(z, t, u, s) && !Sequential(s.log)
  {
    var a := z.threads[t].job.address;
    s := BothEnter(z, t, u, a);
    s := FirstDescends(z, s, t, u, a, TOP);
    s := SecondDescends(z, s, t, u, a, TOP);
    s := BothStore(z, s, t, u, a);
    OneChild(s.items, a);
    s := BothCount(z, s, t, u, a);
    s := BothLeave(z, s, t, u, a);
    TwiceIsNotSequential(z, t, u);
  }

  // ---------------------------------------------------------------------------------------------
  // Exactly when inserts may begin freely

  /** No two threads insert at the same address. */
  ghost predicate DistinctAddresses<P>(threads: seq<Thread<P>>) {
    forall t: nat, u: nat :: !SameAddress(threads, t, u)
  }

  lemma DistinctKept<P>(threads: seq<Thread<P>>, threads': seq<Thread<P>>)
    requires DistinctAddresses(threads) && |threads'| == |threads|
    requires forall u | 0 <= u < |threads| :: threads'[u].job == threads[u].job
    ensures DistinctAddresses(threads')
  {
    forall t: nat, u: nat ensures !SameAddress(threads', t, u) { assert !SameAddress(threads, t, u); }
  }

  lemma MayAlwaysBegin<P>(s: State<P>, e: Event)
    requires DistinctAddresses(s.threads) && Possible(s, e)
    ensures Enabled(s, e)
  {
    forall u | 0 <= u < |s.threads| && u != e.t && Active(s.threads[u]) && s.threads[u].job.InsertJob?
      ensures s.threads[e.t].job.InsertJob? ==> s.threads[u].job.address != s.threads[e.t].job.address
    {
      assert !SameAddress(s.threads, e.t, u);
    }
  }

  /** With distinct addresses the restriction on beginning excludes nothing. */
  lemma {:induction false} FreeRunIsRun<P>(s: State<P>, events: seq<Event>, s': State<P>)
    requires WfThreads(s) && DistinctAddresses(s.threads) && IsFreeRun(s, events, s')
    ensures IsRun(s, events, s')
    decreases |events|
  {
    if events != [] {
      MayAlwaysBegin(s, events[0]);
      StepKeepsThreads(s, events[0]);
      DistinctKept(s.threads, Next(s, events[0]).threads);
      FreeRunIsRun(Next(s, events[0]), events[1..], s');
    }
  }

  lemma DistinctIsExact<P>(z: State<P>, s: State<P>)
    requires Initial(z) && DistinctAddresses(z.threads) && Reached(z, s)
    ensures Sequential(s.log) && (AtRest(s) ==> Exact(s))
  {
    var events :| IsFreeRun(z, events, s);
    InitialInv(z);
    FreeRunIsRun(z, events, s);
    RunKeepsInv(z, events, s);
    if AtRest(s) {
      LogIsLegal(s);
      ReplaySized(OpsOf(s.log));
      RestIsExact(s);
    }
  }

  lemma TwiceIsInexact<P>(z: State<P>, t: nat, u: nat, s: State<P>)
    requires Initial(z) && SameAddress(z.threads, t, u) && CountedTwice(z, t, u, s)
    ensures AtRest(s) && !Exact(s)
  {
    var p := PosAt(z.threads[t].job.address, 1);
    assert p in s.items && p.h == 1 && CountOf(s, p) != Children(s.items, p, FANOUT);
  }

  /** For every list of threads: all interleavings linearise exactly when no two threads insert at the
      same address, and exactly then all counts are right whenever the map is at rest. */
  lemma LinearisesIffDistinct<P>(z: State<P>)
    requires Initial(z)
    ensures (forall s :: Reached(z, s) ==> Sequential(s.log)) <==> DistinctAddresses(z.threads)
    ensures (forall s :: Reached(z, s) && AtRest(s) ==> Exact(s)) <==> DistinctAddresses(z.threads)
  {
    if DistinctAddresses(z.threads) {
      forall s | Reached(z, s) ensures Sequential(s.log) && (AtRest(s) ==> Exact(s)) { DistinctIsExact(z, s); }
    } else {
      var t: nat, u: nat :| SameAddress(z.threads, t, u);
      var s := OverlappingInsertsDoubleCount(z, t, u);
      TwiceIsInexact(z, t, u, s);
    }
  }
}
