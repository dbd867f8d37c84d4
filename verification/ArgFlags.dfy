/** When an argument value is specialised, over whole histories and in terms of the invocations alone
    (src/runtime/adaptivity_engine.cpp:52-156). */
module ArgFlags {
  import opened Words
  import opened ArgStats
  import opened ArgHistory

  /** How often the invocations `t` to `k` show the value. */
  function Shown(h: seq<Invocation>, t: nat, k: nat, value: nat): nat
    requires 1 <= t && k <= |h|
    decreases k
  {
    if k < t then 0 else Shown(h, t, k - 1, value) + if Shows(h[k - 1], value) then 1 else 0
  }

  /** Slot `i` has held the value since invocation `t`, which showed it, and its count is the number of times the
      value has been shown since. */
  ghost predicate HeldSince(h: seq<Invocation>, trace: seq<ArgState>, i: nat, value: nat, t: nat, k: nat) {
    && 1 <= t <= k <= |h| < |trace| && Shows(h[t - 1], value)
    && (forall j :: t - 1 <= j <= k ==> |trace[j].common| == MAX_TRACKED && i < MAX_TRACKED)
    && !Tracks(trace[t - 1].common[i], value)
    && forall j :: t <= j <= k ==>
         trace[j].common[i].value == value && trace[j].common[i].count == Shown(h, t, j, value)
  }

  /** Invocation `m` shows the value again, when it has been shown often enough since invocation `t`: in a later run of
      the application or more than the required number of times, and with a share above the threshold. */
  ghost predicate ShownOften(cfg: Config, firstRun: nat, h: seq<Invocation>, value: nat, t: nat, m: nat) {
    && 1 <= t < m <= |h| && Shows(h[m - 1], value)
    && (h[m - 1].run > firstRun || Shown(h, t, m, value) > cfg.minData)
    && Shown(h, t, m, value) as real / m as real > cfg.specializeAbove
  }

  ghost predicate OnceShownOften(cfg: Config, firstRun: nat, h: seq<Invocation>, value: nat, t: nat, k: nat) {
    exists m: nat :: m <= k && ShownOften(cfg, firstRun, h, value, t, m)
  }

  /** An invocation leaves slot `i` alone and does not show its value. */
  ghost predicate SlotKept(st: ArgState, st': ArgState, e: Invocation, i: nat)
    requires Shaped(st) && Shaped(st') && i < MAX_TRACKED
  {
    && st'.common[i] == st.common[i] && st'.specialized[i] == st.specialized[i]
    && (st.common[i].count > 0 ==> !Shows(e, st.common[i].value))
  }

  /** The `k`-th invocation shows the value of slot `i` and counts it. */
  ghost predicate SlotCounted(cfg: Config, firstRun: nat, k: nat, st: ArgState, st': ArgState, e: Invocation, i: nat)
    requires Shaped(st) && Shaped(st') && i < MAX_TRACKED && k > 0
  {
    var s := st.common[i];
    && s.count > 0 && Shows(e, s.value) && st'.common[i] == Stat(s.value, s.count + 1, k)
    && (st'.specialized[i] <==> st.specialized[i] || Frequent(cfg, Call(k, e.run, firstRun), s.count + 1))
  }

  /** The `k`-th invocation gives slot `i` to its value, without a flag. */
  ghost predicate SlotTaken(k: nat, st: ArgState, st': ArgState, e: Invocation, i: nat)
    requires Shaped(st) && Shaped(st') && i < MAX_TRACKED
  {
    e.Seen? && st'.common[i] == Stat(e.value, 1, k) && !st'.specialized[i] && !Tracks(st.common[i], e.value)
  }

  lemma SlotStepOf(cfg: Config, call: Call, value: nat, st: ArgState, st': ArgState, r: bool, i: nat)
    requires Shaped(st) && Shaped(st') && Distinct(st.common) && call.n > 0 && i < MAX_TRACKED
    requires Step(cfg, call, value, st, st', r)
    ensures var e := Seen(value, call.run);
            || SlotKept(st, st', e, i) || SlotCounted(cfg, call.firstRun, call.n, st, st', e, i)
            || SlotTaken(call.n, st, st', e, i)
  {
    if exists u: nat :: u < MAX_TRACKED && Tracks(st.common[u], value) {
      var u: nat :| Hit(cfg, call, value, st, st', r, u);
    } else if exists u: nat :: Taken(cfg, call, value, st, st', u) {
      var u: nat :| Taken(cfg, call, value, st, st', u);
    }
  }

  /** One invocation of a history leaves a slot alone, counts its value, or gives it to a new one. */
  lemma SlotStep(cfg: Config, firstRun: nat, h: seq<Invocation>, trace: seq<ArgState>, k: nat, i: nat)
    requires IsTrace(cfg, firstRun, h, trace) && 1 <= k <= |h| && i < MAX_TRACKED
    ensures Shaped(trace[k - 1]) && Shaped(trace[k])
    ensures || SlotKept(trace[k - 1], trace[k], h[k - 1], i)
            || SlotCounted(cfg, firstRun, k, trace[k - 1], trace[k], h[k - 1], i)
            || SlotTaken(k, trace[k - 1], trace[k], h[k - 1], i)
  {
    HistoryInv(cfg, firstRun, h, trace, k - 1);
    HistoryInv(cfg, firstRun, h, trace, k);
    var st, st', e := trace[k - 1], trace[k], h[k - 1];
    assert Follows(cfg, firstRun, k, e, st, st');
    if e.Seen? {
      var r :| Step(cfg, Call(k, e.run, firstRun), e.value, st, st', r);
      SlotStepOf(cfg, Call(k, e.run, firstRun), e.value, st, st', r, i);
    }
  }

  lemma FrequentIffShownOften(
    cfg: Config, firstRun: nat, h: seq<Invocation>, value: nat, t: nat, k: nat, count: nat)
    requires 1 <= t < k <= |h| && Shows(h[k - 1], value) && count == Shown(h, t, k, value)
    ensures Frequent(cfg, Call(k, h[k - 1].run, firstRun), count) <==> ShownOften(cfg, firstRun, h, value, t, k)
  {
  }

  /** What a slot holds after `k` invocations, and whether it is flagged. */
  ghost predicate SlotSince(
    cfg: Config, firstRun: nat, h: seq<Invocation>, trace: seq<ArgState>, k: nat, i: nat, t: nat)
    requires k < |trace| && Shaped(trace[k]) && i < MAX_TRACKED
  {
    var value := trace[k].common[i].value;
    && HeldSince(h, trace, i, value, t, k)
    && (trace[k].specialized[i] <==> OnceShownOften(cfg, firstRun, h, value, t, k))
  }

  /** The slot goes on holding the value. */
  lemma HeldLonger(h: seq<Invocation>, trace: seq<ArgState>, i: nat, value: nat, t: nat, k: nat)
    requires 1 <= k <= |h| < |trace| && HeldSince(h, trace, i, value, t, k - 1) && |trace[k].common| == MAX_TRACKED
    requires trace[k].common[i].value == value
    requires trace[k].common[i].count == trace[k - 1].common[i].count + if Shows(h[k - 1], value) then 1 else 0
    ensures HeldSince(h, trace, i, value, t, k)
  {
    assert Shown(h, t, k, value) == Shown(h, t, k - 1, value) + if Shows(h[k - 1], value) then 1 else 0;
  }

  /** Shown often by now means shown often before or at the last invocation. */
  lemma OftenLonger(cfg: Config, firstRun: nat, h: seq<Invocation>, value: nat, t: nat, k: nat)
    requires 1 <= k
    ensures OnceShownOften(cfg, firstRun, h, value, t, k) <==>
            OnceShownOften(cfg, firstRun, h, value, t, k - 1) || ShownOften(cfg, firstRun, h, value, t, k)
  {
  }

  lemma KeptSlot(cfg: Config, firstRun: nat, h: seq<Invocation>, trace: seq<ArgState>, k: nat, i: nat, t: nat)
    requires 1 <= k <= |h| < |trace| && i < MAX_TRACKED && Shaped(trace[k - 1]) && Shaped(trace[k])
    requires SlotSince(cfg, firstRun, h, trace, k - 1, i, t) && trace[k - 1].common[i].count > 0
    requires SlotKept(trace[k - 1], trace[k], h[k - 1], i)
    ensures SlotSince(cfg, firstRun, h, trace, k, i, t)
  {
    var value := trace[k].common[i].value;
    HeldLonger(h, trace, i, value, t, k);
    OftenLonger(cfg, firstRun, h, value, t, k);
  }

  lemma CountedSlot(cfg: Config, firstRun: nat, h: seq<Invocation>, trace: seq<ArgState>, k: nat, i: nat, t: nat)
    requires 1 <= k <= |h| < |trace| && i < MAX_TRACKED && Shaped(trace[k - 1]) && Shaped(trace[k])
    requires SlotSince(cfg, firstRun, h, trace, k - 1, i, t)
    requires SlotCounted(cfg, firstRun, k, trace[k - 1], trace[k], h[k - 1], i)
    ensures SlotSince(cfg, firstRun, h, trace, k, i, t)
  {
    var value := trace[k].common[i].value;
    HeldLonger(h, trace, i, value, t, k);
    OftenLonger(cfg, firstRun, h, value, t, k);
    FrequentIffShownOften(cfg, firstRun, h, value, t, k, trace[k].common[i].count);
  }

  lemma NewSlot(cfg: Config, firstRun: nat, h: seq<Invocation>, trace: seq<ArgState>, k: nat, i: nat)
    requires 1 <= k <= |h| < |trace| && i < MAX_TRACKED && Shaped(trace[k - 1]) && Shaped(trace[k])
    requires SlotTaken(k, trace[k - 1], trace[k], h[k - 1], i)
    ensures SlotSince(cfg, firstRun, h, trace, k, i, k)
  {
    var value := h[k - 1].value;
    assert Shown(h, k, k - 1, value) == 0 && Shown(h, k, k, value) == 1;
  }

  /** After any history: a used slot holds its value since some invocation, counts exactly how often the value has
      been shown since, and is flagged exactly when one of these later showings found the value shown often
      enough. An unused slot is not flagged. */
  lemma {:induction false} FlaggedIff(
    cfg: Config, firstRun: nat, h: seq<Invocation>, trace: seq<ArgState>, k: nat, i: nat)
    returns (t: nat)
    requires IsTrace(cfg, firstRun, h, trace) && k <= |h| && i < MAX_TRACKED
    ensures Shaped(trace[k])
    ensures if trace[k].common[i].count == 0 then !trace[k].specialized[i]
            else SlotSince(cfg, firstRun, h, trace, k, i, t)
    decreases k
  {
    t := 0;
    if k > 0 {
      t := FlaggedIff(cfg, firstRun, h, trace, k - 1, i);
      SlotStep(cfg, firstRun, h, trace, k, i);
      if SlotTaken(k, trace[k - 1], trace[k], h[k - 1], i) {
        NewSlot(cfg, firstRun, h, trace, k, i);
        t := k;
      } else if SlotCounted(cfg, firstRun, k, trace[k - 1], trace[k], h[k - 1], i) {
        CountedSlot(cfg, firstRun, h, trace, k, i, t);
      } else if trace[k].common[i].count > 0 {
        KeptSlot(cfg, firstRun, h, trace, k, i, t);
      }
    }
  }

  /** The answer is to specialise exactly when the slot of the value is flagged afterwards. */
  lemma AnswerIffFlagged(cfg: Config, call: Call, value: nat, h: seq<Invocation>, st: ArgState, st': ArgState, r: bool)
    requires Inv(h, st) && call.n == |h| + 1 && Step(cfg, call, value, st, st', r)
    ensures Shaped(st')
    ensures r <==> exists i: nat :: i < MAX_TRACKED && Tracks(st'.common[i], value) && st'.specialized[i]
  {
    assert Distinct(st.common);
    if exists u: nat :: u < MAX_TRACKED && Tracks(st.common[u], value) {
      var u: nat :| Hit(cfg, call, value, st, st', r, u);
      assert Tracks(st'.common[u], value);
    } else if exists u: nat :: Taken(cfg, call, value, st, st', u) {
      var u: nat :| Taken(cfg, call, value, st, st', u);
    }
  }

  /** A value that is not tracked is tracked afterwards exactly when some slot is empty, or was last used more than the
      required number of invocations ago and is not flagged or has a share below the eviction threshold. */
  lemma NewValueTrackedIff(
    cfg: Config, call: Call, value: nat, h: seq<Invocation>, st: ArgState, st': ArgState, r: bool)
    requires Inv(h, st) && call.n == |h| + 1 < WORD && Step(cfg, call, value, st, st', r)
    requires forall i :: 0 <= i < MAX_TRACKED ==> !Tracks(st.common[i], value)
    ensures Shaped(st')
    ensures (exists i: nat :: i < MAX_TRACKED && Tracks(st'.common[i], value)) <==>
            exists j: nat :: j < MAX_TRACKED && MayBeTaken(cfg, call.n, st, j)
  {
    forall j: nat | j < MAX_TRACKED && st.common[j].count > 0
      ensures Evictable(cfg, call.n, st.common[j], st.specialized[j]) <==> MayBeTaken(cfg, call.n, st, j)
    {
      AgesAreExact(h, st, j);
      assert SlotInv(h, st.common[j]);
    }
    if exists u: nat :: Taken(cfg, call, value, st, st', u) {
      var u: nat :| Taken(cfg, call, value, st, st', u);
      assert Tracks(st'.common[u], value) && MayBeTaken(cfg, call.n, st, u);
    }
  }

  ghost predicate MayBeTaken(cfg: Config, n: nat, st: ArgState, j: nat)
    requires Shaped(st) && j < MAX_TRACKED && n > 0
  {
    || st.common[j].count == 0
    || (&& n - st.common[j].lastUsed > cfg.minData
        && (!st.specialized[j] || st.common[j].count as real / n as real < cfg.evictBelow))
  }

  /** The slot that a new value takes: the last empty one if there is one, and otherwise the one of those that may be
      taken that was used the longest time ago. */
  lemma NewValueSlot(
    cfg: Config, call: Call, value: nat, h: seq<Invocation>, st: ArgState, st': ArgState, r: bool, i: nat)
    requires Inv(h, st) && call.n == |h| + 1 < WORD && Step(cfg, call, value, st, st', r) && i < MAX_TRACKED
    requires (forall j :: 0 <= j < MAX_TRACKED ==> !Tracks(st.common[j], value)) && Shaped(st')
             && Tracks(st'.common[i], value)
    ensures MayBeTaken(cfg, call.n, st, i) && st'.common == st.common[i := Stat(value, 1, call.n)]
    ensures if exists e :: 0 <= e < MAX_TRACKED && st.common[e].count == 0
            then st.common[i].count == 0 && forall j :: i < j < MAX_TRACKED ==> st.common[j].count > 0
            else forall j: nat :: j < MAX_TRACKED && MayBeTaken(cfg, call.n, st, j) ==>
                   st.common[i].lastUsed <= st.common[j].lastUsed
  {
    forall j: nat | j < MAX_TRACKED && st.common[j].count > 0
      ensures Evictable(cfg, call.n, st.common[j], st.specialized[j]) <==> MayBeTaken(cfg, call.n, st, j)
    {
      AgesAreExact(h, st, j);
      assert SlotInv(h, st.common[j]);
    }
    var u: nat :| Taken(cfg, call, value, st, st', u);
    assert u == i;
  }
}
