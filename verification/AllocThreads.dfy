/** Concurrent use of the allocation map: every atomic access of an insert, erase or lookup is one
    step, and steps of all threads interleave (include/hipSYCL/common/allocation_map.hpp). */
module AllocThreads {
  import opened Words
  import opened AllocTree
  import opened AllocLookup
  import opened AllocMap

  /** Height of the root; leaves have height 1 and entries height 0. */
  const TOP: nat := 16

  /** The place of a node or entry in the tree: its height and the address bits above it. */
  datatype Pos = Pos(h: nat, prefix: nat)

  function Shift(a: nat, h: nat): nat {
    if h == 0 then a else Shift(a, h - 1) / FANOUT
  }

  /** The node of height `h` on the way to an address. */
  function PosAt(a: nat, h: nat): Pos {
    Pos(h, Shift(a, h))
  }

  function Parent(p: Pos): Pos {
    Pos(p.h + 1, p.prefix / FANOUT)
  }

  function ChildPos(p: Pos, i: nat): Pos
    requires p.h > 0
  {
    Pos(p.h - 1, FANOUT * p.prefix + i)
  }

  const Root: Pos := Pos(TOP, 0)

  /** What a thread has been asked to do. */
  datatype Job<P> = InsertJob(address: nat, value: Value<P>) | EraseJob(address: nat) | LookupJob

  /** Where a thread is. `Wait` is the lock loop with its expected counter value; the heights say at
      which node of its way the thread works. */
  datatype PC =
    | Ready
    | Wait(expected: nat)
    | Load(h: nat)
    | Publish(h: nat)
    | Bump(h: nat)
    | Down(h: nat)
    | Clear
    | Dec(h: nat)
    | Up(h: nat)
    | Read(held: seq<Pos>)
    | Unlock(ok: bool)
    | Done(ok: bool)

  datatype Thread<P> = Thread(job: Job<P>, pc: PC)

  /** An insert or erase that has taken effect, with its result. */
  datatype Commit<P> = Commit(t: nat, op: Op<P>, ok: bool)

  /** The lock counter, the linked nodes and used entries, entry contents, node counts, threads, and
      the operations in the order in which they took effect. */
  datatype State<P> = State(
    counter: int, items: set<Pos>, values: map<nat, Value<P>>, counts: map<Pos, int>,
    threads: seq<Thread<P>>, log: seq<Commit<P>>)

  function CountOf<P>(s: State<P>, p: Pos): int {
    if p in s.counts then s.counts[p] else 0
  }

  function Move<P>(s: State<P>, t: nat, pc: PC): State<P>
    requires t < |s.threads|
  {
    s.(threads := s.threads[t := s.threads[t].(pc := pc)])
  }

  function OpOf<P>(job: Job<P>): Op<P>
    requires !job.LookupJob?
  {
    if job.InsertJob? then InsertOp(job.address, job.value) else EraseOp(job.address)
  }

  /** Records that the operation of `t` takes effect now. */
  function Logged<P>(s: State<P>, t: nat, ok: bool): State<P>
    requires t < |s.threads| && !s.threads[t].job.LookupJob?
  {
    s.(log := s.log + [Commit(t, OpOf(s.threads[t].job), ok)])
  }

  function Max0(i: int): nat {
    if i < 0 then 0 else i
  }

  /** Constructor of the lock objects: insert and lookup raise the counter from a value that is not
      negative, erase changes it from 0 to -1. */
  function LockStep<P>(s: State<P>, t: nat): State<P>
    requires t < |s.threads| && (s.threads[t].pc.Ready? || s.threads[t].pc.Wait?)
  {
    var th := s.threads[t];
    if th.job.EraseJob? then
      if th.pc.Ready? then Move(s, t, Wait(0))
      else if s.counter == 0 then Move(s, t, Down(TOP)).(counter := -1)
      else Move(s, t, Wait(0))
    else
      if th.pc.Ready? then Move(s, t, Wait(Max0(s.counter)))
      else if s.counter == th.pc.expected then
        Move(s, t, if th.job.InsertJob? then Load(TOP) else Read([Root])).(counter := s.counter + 1)
      else Move(s, t, Wait(Max0(s.counter)))
  }

  /** Destructor of the lock objects. */
  function UnlockStep<P>(s: State<P>, t: nat): State<P>
    requires t < |s.threads| && s.threads[t].pc.Unlock?
  {
    var th := s.threads[t];
    Move(s, t, Done(th.pc.ok)).(counter := if th.job.EraseJob? then 0 else s.counter - 1)
  }

  ghost predicate InsertPC(pc: PC) {
    (pc.Load? || pc.Publish? || pc.Bump?) && 1 <= pc.h <= TOP
  }

  ghost predicate ErasePC(pc: PC) {
    || ((pc.Down? || pc.Dec?) && 1 <= pc.h <= TOP)
    || pc.Clear?
    || (pc.Up? && 2 <= pc.h <= TOP)
  }

  ghost predicate Fits<P>(th: Thread<P>) {
    || th.pc.Ready? || th.pc.Wait? || th.pc.Unlock? || th.pc.Done?
    || (th.job.InsertJob? && InsertPC(th.pc))
    || (th.job.EraseJob? && ErasePC(th.pc))
    || (th.job.LookupJob? && th.pc.Read? && th.pc.held != [])
  }

  ghost predicate At<P>(s: State<P>, t: nat, pc: PC) {
    t < |s.threads| && s.threads[t].pc == pc && Fits(s.threads[t])
  }

  /** insert at a node of height `h`: look for the child on the way. */
  function LoadStep<P>(s: State<P>, t: nat, a: nat, h: nat): State<P>
    requires At(s, t, Load(h)) && s.threads[t].job.InsertJob?
  {
    if PosAt(a, h - 1) !in s.items then Move(s, t, Publish(h))
    else if h == 1 then Logged(Move(s, t, Unlock(false)), t, false)
    else Move(s, t, Load(h - 1))
  }

  /** Publish the missing child by compare-and-exchange; a child published by another thread in
      between is taken instead. An entry is stored without comparing. */
  function PublishStep<P>(s: State<P>, t: nat, a: nat, h: nat): State<P>
    requires At(s, t, Publish(h)) && s.threads[t].job.InsertJob?
  {
    var child := PosAt(a, h - 1);
    if h == 1 then
      Logged(Move(s, t, Bump(h)).(items := s.items + {child}, values := s.values[a := s.threads[t].job.value]), t, true)
    else if child in s.items then Move(s, t, Load(h - 1))
    else Move(s, t, Bump(h)).(items := s.items + {child}, counts := s.counts[child := 0])
  }

  /** Count the published child, and descend. */
  function BumpStep<P>(s: State<P>, t: nat, a: nat, h: nat): State<P>
    requires At(s, t, Bump(h)) && s.threads[t].job.InsertJob?
  {
    var counts' := s.counts[PosAt(a, h) := CountOf(s, PosAt(a, h)) + 1];
    Move(s, t, if h == 1 then Unlock(true) else Load(h - 1)).(counts := counts')
  }

  function InsertStep<P>(s: State<P>, t: nat): State<P>
    requires t < |s.threads| && s.threads[t].job.InsertJob? && InsertPC(s.threads[t].pc)
  {
    var a := s.threads[t].job.address;
    match s.threads[t].pc
    case Load(h) => LoadStep(s, t, a, h)
    case Publish(h) => PublishStep(s, t, a, h)
    case Bump(h) => BumpStep(s, t, a, h)
  }

  /** erase: look for the child on the way. */
  function DownStep<P>(s: State<P>, t: nat, a: nat, h: nat): State<P>
    requires At(s, t, Down(h)) && s.threads[t].job.EraseJob?
  {
    if PosAt(a, h - 1) !in s.items then Logged(Move(s, t, Unlock(false)), t, false)
    else Move(s, t, if h == 1 then Clear else Down(h - 1))
  }

  function ClearStep<P>(s: State<P>, t: nat, a: nat): State<P>
    requires At(s, t, Clear) && s.threads[t].job.EraseJob?
  {
    Logged(Move(s, t, Dec(1)).(items := s.items - {PosAt(a, 0)}, values := s.values - {a}), t, true)
  }

  function Above(h: nat): PC {
    if h == TOP then Unlock(true) else Up(h + 1)
  }

  function DecStep<P>(s: State<P>, t: nat, a: nat, h: nat): State<P>
    requires At(s, t, Dec(h)) && s.threads[t].job.EraseJob?
  {
    Move(s, t, Above(h)).(counts := s.counts[PosAt(a, h) := CountOf(s, PosAt(a, h)) - 1])
  }

  /** On the way back: unlink and free a child whose count has become 0. */
  function UpStep<P>(s: State<P>, t: nat, a: nat, h: nat): State<P>
    requires At(s, t, Up(h)) && s.threads[t].job.EraseJob?
  {
    if CountOf(s, PosAt(a, h - 1)) == 0 then Move(s, t, Dec(h)).(items := s.items - {PosAt(a, h - 1)})
    else Move(s, t, Above(h))
  }

  function EraseStep<P>(s: State<P>, t: nat): State<P>
    requires t < |s.threads| && s.threads[t].job.EraseJob? && ErasePC(s.threads[t].pc)
  {
    var a := s.threads[t].job.address;
    match s.threads[t].pc
    case Down(h) => DownStep(s, t, a, h)
    case Clear => ClearStep(s, t, a)
    case Dec(h) => DecStep(s, t, a, h)
    case Up(h) => UpStep(s, t, a, h)
  }

  /** get_entry: enter some linked child of the innermost node, or return to the caller. */
  function LookupStep<P>(s: State<P>, t: nat, choice: nat): State<P>
    requires t < |s.threads| && s.threads[t].pc.Read? && s.threads[t].pc.held != []
  {
    var held := s.threads[t].pc.held;
    var node := held[|held| - 1];
    if choice < FANOUT && node.h >= 2 then
      Move(s, t, Read(if ChildPos(node, choice) in s.items then held + [ChildPos(node, choice)] else held))
    else if |held| > 1 then Move(s, t, Read(held[..|held| - 1]))
    else Move(s, t, Unlock(true))
  }

  /** One step of thread `t`; `choice` decides where a lookup goes. */
  datatype Event = Event(t: nat, choice: nat)

  ghost predicate Active<P>(th: Thread<P>) {
    !th.pc.Ready? && !th.pc.Done?
  }

  /** Concurrent inserts are at different addresses. */
  ghost predicate MayBegin<P>(s: State<P>, t: nat)
    requires t < |s.threads|
  {
    s.threads[t].job.InsertJob? ==>
      forall u | 0 <= u < |s.threads| && u != t && Active(s.threads[u]) && s.threads[u].job.InsertJob? ::
        s.threads[u].job.address != s.threads[t].job.address
  }

  /** The code can take the step. */
  ghost predicate Possible<P>(s: State<P>, e: Event) {
    e.t < |s.threads| && Fits(s.threads[e.t]) && !s.threads[e.t].pc.Done?
  }

  ghost predicate Enabled<P>(s: State<P>, e: Event) {
    Possible(s, e) && (s.threads[e.t].pc.Ready? ==> MayBegin(s, e.t))
  }

  ghost function Next<P>(s: State<P>, e: Event): State<P>
    requires Possible(s, e)
  {
    var th := s.threads[e.t];
    if th.pc.Ready? || th.pc.Wait? then LockStep(s, e.t)
    else if th.pc.Unlock? then UnlockStep(s, e.t)
    else match th.job
      case InsertJob(_, _) => InsertStep(s, e.t)
      case EraseJob(_) => EraseStep(s, e.t)
      case LookupJob => LookupStep(s, e.t, e.choice)
  }

  ghost predicate Initial<P>(s: State<P>) {
    && s.counter == 0 && s.items == {Root} && s.values == map[] && s.counts == map[Root := 0] && s.log == []
    && forall t | 0 <= t < |s.threads| :: s.threads[t].pc.Ready? && LegalJob(s.threads[t].job)
  }

  /** Addresses are 64-bit numbers and sizes positive. */
  ghost predicate LegalJob<P>(job: Job<P>) {
    && (job.InsertJob? ==> job.address < WORD && job.value.size > 0)
    && (job.EraseJob? ==> job.address < WORD)
  }

  ghost predicate IsRun<P>(s: State<P>, events: seq<Event>, s': State<P>)
    decreases |events|
  {
    if events == [] then s' == s
    else Enabled(s, events[0]) && IsRun(Next(s, events[0]), events[1..], s')
  }

  /** A run in which inserts begin whatever the other threads do. */
  ghost predicate IsFreeRun<P>(s: State<P>, events: seq<Event>, s': State<P>)
    decreases |events|
  {
    if events == [] then s' == s
    else Possible(s, events[0]) && IsFreeRun(Next(s, events[0]), events[1..], s')
  }
}
