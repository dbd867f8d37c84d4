/** The argument statistics over whole histories of kernel invocations. */
module ArgHistory {
  import opened Words
  import opened ArgStats

  /** An invocation as seen by one argument: not evaluated, or evaluated with a value. */
  datatype Invocation = Skipped | Seen(value: nat, run: nat)

  predicate Shows(e: Invocation, value: nat) {
    e.Seen? && e.value == value
  }

  function Evaluated(h: seq<Invocation>): (k: nat)
    ensures k <= |h|
  {
    if h == [] then 0 else Evaluated(h[..|h| - 1]) + if h[|h| - 1].Seen? then 1 else 0
  }

  function Occurrences(h: seq<Invocation>, value: nat): nat {
    if h == [] then 0 else Occurrences(h[..|h| - 1], value) + if Shows(h[|h| - 1], value) then 1 else 0
  }

  function Total(common: seq<Stat>): nat {
    if common == [] then 0 else Total(common[1..]) + common[0].count
  }

  lemma {:induction false} TotalUpdate(common: seq<Stat>, i: nat, s: Stat)
    requires i < |common|
    ensures Total(common[i := s]) == Total(common) + s.count - common[i].count
  {
    if i == 0 {
      assert common[i := s][1..] == common[1..];
    } else {
      assert common[i := s][1..] == common[1..][i - 1 := s];
      TotalUpdate(common[1..], i - 1, s);
    }
  }

  /** A used slot names the last invocation that showed its value, and does not overcount it. */
  ghost predicate SlotInv(h: seq<Invocation>, s: Stat) {
    && s.lastUsed <= |h|
    && (s.count == 0 ==> s.lastUsed == 0)
    && (s.count > 0 ==>
          && 1 <= s.lastUsed && Shows(h[s.lastUsed - 1], s.value)
          && (forall k :: s.lastUsed <= k < |h| ==> !Shows(h[k], s.value))
          && s.count <= Occurrences(h, s.value))
  }

  ghost predicate Inv(h: seq<Invocation>, st: ArgState) {
    && Shaped(st)
    && (forall i :: 0 <= i < MAX_TRACKED ==> SlotInv(h, st.common[i]))
    && (forall i :: 0 <= i < MAX_TRACKED && st.specialized[i] ==> st.common[i].count > 0)
    && Distinct(st.common)
    && Total(st.common) <= Evaluated(h)
  }

  /** No value is tracked twice. */
  ghost predicate Distinct(common: seq<Stat>) {
    forall i, j :: 0 <= i < j < |common| && common[i].count > 0 && common[j].count > 0 ==>
      common[i].value != common[j].value
  }

  lemma SlotInvExtends(h: seq<Invocation>, e: Invocation, s: Stat)
    requires SlotInv(h, s) && (s.count > 0 ==> !Shows(e, s.value))
    ensures SlotInv(h + [e], s)
  {
    var h' := h + [e];
    assert h'[..|h'| - 1] == h;
  }

  /** A slot that has just been used. */
  lemma SlotInvUsed(h: seq<Invocation>, e: Invocation, s: Stat)
    requires e.Seen? && s.value == e.value && s.lastUsed == |h| + 1 && 0 < s.count <= Occurrences(h, e.value) + 1
    ensures SlotInv(h + [e], s)
  {
    var h' := h + [e];
    assert h'[..|h'| - 1] == h;
  }

  lemma EvaluatedExtends(h: seq<Invocation>, e: Invocation)
    ensures Evaluated(h + [e]) == Evaluated(h) + if e.Seen? then 1 else 0
  {
    var h' := h + [e];
    assert h'[..|h'| - 1] == h;
  }

  lemma HitKeepsInv(
    cfg: Config, call: Call, value: nat, h: seq<Invocation>, st: ArgState, st': ArgState, r: bool, i: nat)
    requires Inv(h, st) && call.n == |h| + 1 && Hit(cfg, call, value, st, st', r, i)
    ensures Inv(h + [Seen(value, call.run)], st')
  {
    var e := Seen(value, call.run);
    TotalUpdate(st.common, i, st'.common[i]);
    EvaluatedExtends(h, e);
    forall j | 0 <= j < MAX_TRACKED ensures SlotInv(h + [e], st'.common[j]) {
      if j == i { SlotInvUsed(h, e, st'.common[j]); } else { SlotInvExtends(h, e, st.common[j]); }
    }
  }

  lemma TakenKeepsInv(cfg: Config, call: Call, value: nat, h: seq<Invocation>, st: ArgState, st': ArgState, i: nat)
    requires Inv(h, st) && call.n == |h| + 1 && Taken(cfg, call, value, st, st', i)
    requires forall j :: 0 <= j < MAX_TRACKED ==> !Tracks(st.common[j], value)
    ensures Inv(h + [Seen(value, call.run)], st')
  {
    var e := Seen(value, call.run);
    TotalUpdate(st.common, i, st'.common[i]);
    EvaluatedExtends(h, e);
    forall j | 0 <= j < MAX_TRACKED ensures SlotInv(h + [e], st'.common[j]) {
      if j == i { SlotInvUsed(h, e, st'.common[j]); } else { SlotInvExtends(h, e, st.common[j]); }
    }
  }

  lemma IdleKeepsInv(h: seq<Invocation>, e: Invocation, st: ArgState)
    requires Inv(h, st) && (e.Seen? ==> forall j :: 0 <= j < MAX_TRACKED ==> !Tracks(st.common[j], e.value))
    ensures Inv(h + [e], st)
  {
    EvaluatedExtends(h, e);
    forall j | 0 <= j < MAX_TRACKED ensures SlotInv(h + [e], st.common[j]) {
      SlotInvExtends(h, e, st.common[j]);
    }
  }

  lemma StepKeepsInv(cfg: Config, call: Call, value: nat, h: seq<Invocation>, st: ArgState, st': ArgState, r: bool)
    requires Inv(h, st) && call.n == |h| + 1 && Step(cfg, call, value, st, st', r)
    ensures Inv(h + [Seen(value, call.run)], st')
  {
    if exists i: nat :: i < MAX_TRACKED && Tracks(st.common[i], value) {
      var i: nat :| Hit(cfg, call, value, st, st', r, i);
      HitKeepsInv(cfg, call, value, h, st, st', r, i);
    } else if exists i: nat :: Taken(cfg, call, value, st, st', i) {
      var i: nat :| Taken(cfg, call, value, st, st', i);
      TakenKeepsInv(cfg, call, value, h, st, st', i);
    } else {
      IdleKeepsInv(h, Seen(value, call.run), st);
    }
  }

  // ---------------------------------------------------------------------------------------------
  // All histories

  ghost predicate Empty(st: ArgState) {
    Shaped(st) && forall i :: 0 <= i < MAX_TRACKED ==> st.common[i] == Stat(0, 0, 0) && !st.specialized[i]
  }

  /** `st'` can follow `st` at the `n`-th invocation. */
  ghost predicate Follows(cfg: Config, firstRun: nat, n: nat, e: Invocation, st: ArgState, st': ArgState) {
    match e
    case Skipped => st' == st
    case Seen(value, run) => Shaped(st) && n > 0 && exists r :: Step(cfg, Call(n, run, firstRun), value, st, st', r)
  }

  ghost predicate IsTrace(cfg: Config, firstRun: nat, h: seq<Invocation>, trace: seq<ArgState>) {
    && |trace| == |h| + 1 && Empty(trace[0])
    && forall k :: 0 <= k < |h| ==> Follows(cfg, firstRun, k + 1, h[k], trace[k], trace[k + 1])
  }

  lemma {:induction false} EmptyTotal(common: seq<Stat>)
    requires forall i :: 0 <= i < |common| ==> common[i].count == 0
    ensures Total(common) == 0
  {
    if common != [] { EmptyTotal(common[1..]); }
  }

  /** After every history: tracked values are distinct, each slot names the last use of its value,
      and the counts add up to at most the number of evaluations. */
  lemma {:induction false} HistoryInv(cfg: Config, firstRun: nat, h: seq<Invocation>, trace: seq<ArgState>, k: nat)
    requires IsTrace(cfg, firstRun, h, trace) && k <= |h|
    ensures Inv(h[..k], trace[k])
  {
    if k == 0 {
      EmptyTotal(trace[0].common);
    } else {
      HistoryInv(cfg, firstRun, h, trace, k - 1);
      var past, e := h[..k - 1], h[k - 1];
      assert h[..k] == past + [e];
      assert Follows(cfg, firstRun, k, e, trace[k - 1], trace[k]);
      match e {
        case Skipped => IdleKeepsInv(past, e, trace[k - 1]);
        case Seen(value, run) =>
          var r :| Step(cfg, Call(k, run, firstRun), value, trace[k - 1], trace[k], r);
          StepKeepsInv(cfg, Call(k, run, firstRun), value, past, trace[k - 1], trace[k], r);
      }
    }
  }

  /** Ages never wrap around: every slot is as old as the number of invocations since its last use. */
  lemma AgesAreExact(h: seq<Invocation>, st: ArgState, i: nat)
    requires Inv(h, st) && i < MAX_TRACKED && |h| + 1 < WORD
    ensures Age(|h| + 1, st.common[i].lastUsed) == |h| + 1 - st.common[i].lastUsed
  {
    assert SlotInv(h, st.common[i]);
  }

  /** Different tracked values were last used at different invocations. */
  lemma LastUsesDiffer(h: seq<Invocation>, st: ArgState, i: nat, j: nat)
    requires Inv(h, st) && i < MAX_TRACKED && j < MAX_TRACKED && i != j && st.common[i].count > 0
    requires st.common[j].count > 0
    ensures st.common[i].lastUsed != st.common[j].lastUsed
  {
    assert SlotInv(h, st.common[i]) && SlotInv(h, st.common[j]);
    assert Distinct(st.common);
  }

  /** A value that loses its slot was the least recently used of all evictable ones, and a
      specialised value loses it only with a share below the eviction threshold and old enough. */
  lemma EvictedIsLeastRecent(
    cfg: Config, call: Call, value: nat, h: seq<Invocation>, st: ArgState, st': ArgState, r: bool, i: nat, j: nat)
    requires Inv(h, st) && call.n == |h| + 1 < WORD && Step(cfg, call, value, st, st', r)
    requires i < MAX_TRACKED && j < MAX_TRACKED && i != j
    requires st.common[i].count > 0 && !Tracks(st'.common[i], st.common[i].value)
    ensures !r && Tracks(st'.common[i], value) && st.common[j].count > 0
    ensures st.specialized[i] ==> Share(st.common[i].count, call.n) < cfg.evictBelow
    ensures call.n - st.common[i].lastUsed > cfg.minData
    ensures Evictable(cfg, call.n, st.common[j], st.specialized[j]) ==> st.common[i].lastUsed < st.common[j].lastUsed
  {
    AgesAreExact(h, st, i);
    HitDropsNothing(cfg, call, value, st, st', r, i);
    var u: nat :| Taken(cfg, call, value, st, st', u);
    LastUsesDiffer(h, st, i, j);
  }

  /** A value that is tracked already takes no slot from another. */
  lemma HitDropsNothing(cfg: Config, call: Call, value: nat, st: ArgState, st': ArgState, r: bool, i: nat)
    requires Shaped(st) && call.n > 0 && Step(cfg, call, value, st, st', r) && i < MAX_TRACKED && st.common[i].count > 0
    ensures (exists u: nat :: u < MAX_TRACKED && Tracks(st.common[u], value)) ==>
            Tracks(st'.common[i], st.common[i].value)
  {
    if exists u: nat :: u < MAX_TRACKED && Tracks(st.common[u], value) {
      var u: nat :| Hit(cfg, call, value, st, st', r, u);
    }
  }

  /** A specialised value keeps its slot and stays specialised, or is evicted as above; whenever it
      is seen again before that, the answer is to specialise. */
  lemma SpecializedStays(
    cfg: Config, call: Call, value: nat, h: seq<Invocation>, st: ArgState, st': ArgState, r: bool, i: nat)
    requires Inv(h, st) && call.n == |h| + 1 && Step(cfg, call, value, st, st', r)
    requires i < MAX_TRACKED && st.specialized[i]
    ensures (Tracks(st'.common[i], st.common[i].value) && st'.specialized[i])
            || Share(st.common[i].count, call.n) < cfg.evictBelow
    ensures value == st.common[i].value ==> r
  {
    assert Distinct(st.common);
    if exists u: nat :: u < MAX_TRACKED && Tracks(st.common[u], value) {
      var u: nat :| Hit(cfg, call, value, st, st', r, u);
    }
  }
}
