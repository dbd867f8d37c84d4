/** The statistics about kernel argument values that decide on specialisation
    (src/runtime/adaptivity_engine.cpp, include/hipSYCL/common/appdb.hpp). */
module ArgStats {
  import opened Words

  const MAX_TRACKED: nat := 8
  const NO_TIME: nat := WORD - 1

  /** A tracked value, how often it was seen, and the invocation that used it last. */
  datatype Stat = Stat(value: nat, count: nat, lastUsed: nat)

  /** The state of one kernel argument. */
  datatype ArgState = ArgState(common: seq<Stat>, specialized: seq<bool>)

  /** The thresholds from the settings. */
  datatype Config = Config(specializeAbove: real, evictBelow: real, minData: nat)

  /** One invocation: its number, the run of the application, the run of the first invocation. */
  datatype Call = Call(n: nat, run: nat, firstRun: nat)

  ghost predicate Shaped(st: ArgState) {
    |st.common| == MAX_TRACKED && |st.specialized| == MAX_TRACKED
  }

  /** Slot `i` tracks the value. */
  predicate Tracks(s: Stat, value: nat) {
    s.count > 0 && s.value == value
  }

  function Share(count: nat, n: nat): real
    requires n > 0
  {
    count as real / n as real
  }

  /** The decision for a value that has been seen `count` times and is not yet specialised. */
  predicate Frequent(cfg: Config, call: Call, count: nat)
    requires call.n > 0
  {
    (call.run > call.firstRun || count > cfg.minData) && Share(count, call.n) > cfg.specializeAbove
  }

  /** The number of invocations since a slot was used, as a 64-bit difference. */
  function Age(n: nat, lastUsed: nat): nat {
    (n - lastUsed) % WORD
  }

  /** A slot may be given to another value. */
  predicate Evictable(cfg: Config, n: nat, s: Stat, specialized: bool)
    requires n > 0
  {
    && (!specialized || Share(s.count, n) < cfg.evictBelow)
    && Age(n, s.lastUsed) > cfg.minData && s.lastUsed < NO_TIME
  }

  function Placed(st: ArgState, i: nat, value: nat, n: nat): ArgState
    requires i < |st.common| && i < |st.specialized|
  {
    ArgState(st.common[i := Stat(value, 1, n)], st.specialized[i := false])
  }

  /** The value is tracked in slot `i`: it is counted, and specialised from then on once frequent. */
  ghost predicate Hit(cfg: Config, call: Call, value: nat, st: ArgState, st': ArgState, r: bool, i: nat)
    requires Shaped(st) && call.n > 0
  {
    && i < MAX_TRACKED && Tracks(st.common[i], value)
    && r == (st.specialized[i] || Frequent(cfg, call, st.common[i].count + 1))
    && st'.common == st.common[i := Stat(value, st.common[i].count + 1, call.n)]
    && st'.specialized == st.specialized[i := r]
  }

  /** A new value takes slot `i`: the last empty one, or else the least recently used evictable one. */
  ghost predicate Taken(cfg: Config, call: Call, value: nat, st: ArgState, st': ArgState, i: nat)
    requires Shaped(st) && call.n > 0
  {
    && i < MAX_TRACKED && st' == Placed(st, i, value, call.n)
    && ((st.common[i].count == 0 && forall j | i < j < MAX_TRACKED :: st.common[j].count > 0) ||
        (&& (forall j | 0 <= j < MAX_TRACKED :: st.common[j].count > 0)
         && Evictable(cfg, call.n, st.common[i], st.specialized[i])
         && forall j | 0 <= j < MAX_TRACKED && Evictable(cfg, call.n, st.common[j], st.specialized[j]) ::
              st.common[i].lastUsed <= st.common[j].lastUsed))
  }

  /** No slot is empty or evictable. */
  ghost predicate Full(cfg: Config, n: nat, st: ArgState)
    requires Shaped(st) && n > 0
  {
    forall j | 0 <= j < MAX_TRACKED :: st.common[j].count > 0 && !Evictable(cfg, n, st.common[j], st.specialized[j])
  }

  /** What one evaluation does to the statistics and what it answers. */
  ghost predicate Step(cfg: Config, call: Call, value: nat, st: ArgState, st': ArgState, r: bool)
    requires Shaped(st) && call.n > 0
  {
    if exists i: nat :: i < MAX_TRACKED && Tracks(st.common[i], value) then
      exists i: nat :: Hit(cfg, call, value, st, st', r, i)
    else
      !r && ((exists i: nat :: Taken(cfg, call, value, st, st', i)) || (Full(cfg, call.n, st) && st' == st))
  }

  // ---------------------------------------------------------------------------------------------
  // is_likely_invariant_argument

  class KernelArg {
    const common: array<Stat>
    const specialized: array<bool>

    ghost predicate Valid() {
      common.Length == MAX_TRACKED && specialized.Length == MAX_TRACKED
    }

    ghost function State(): ArgState
      reads common, specialized
    {
      ArgState(common[..], specialized[..])
    }

    constructor ()
      ensures Valid() && fresh(common) && fresh(specialized)
      ensures forall i :: 0 <= i < MAX_TRACKED ==> State().common[i] == Stat(0, 0, 0) && !State().specialized[i]
    {
      common := new Stat[MAX_TRACKED](_ => Stat(0, 0, 0));
      specialized := new bool[MAX_TRACKED](_ => false);
    }

    /** The first loop: the slot that tracks the value, and otherwise the last empty slot. */
    method FindSlot(value: nat) returns (hit: int, empty: int)
      requires Valid()
      ensures -1 <= hit < MAX_TRACKED && -1 <= empty < MAX_TRACKED
      ensures hit >= 0 ==> Tracks(common[hit], value)
      ensures hit < 0 ==> forall i :: 0 <= i < MAX_TRACKED ==> !Tracks(common[i], value)
      ensures empty >= 0 ==> common[empty].count == 0
      ensures hit < 0 ==> forall i :: empty < i < MAX_TRACKED ==> common[i].count > 0
    {
      hit, empty := -1, -1;
      for i := 0 to MAX_TRACKED
        invariant -1 <= empty < i && (empty >= 0 ==> common[empty].count == 0)
        invariant forall j :: 0 <= j < i ==> !Tracks(common[j], value)
        invariant forall j :: empty < j < i ==> common[j].count > 0
      {
        if common[i].count > 0 && common[i].value == value {
          return i, empty;
        } else if common[i].count == 0 {
          empty := i;
        }
      }
    }

    /** The eviction loop: the least recently used evictable slot. */
    method FindVictim(cfg: Config, n: nat) returns (victim: int)
      requires Valid() && n > 0
      ensures -1 <= victim < MAX_TRACKED
      ensures victim < 0 ==> forall j :: 0 <= j < MAX_TRACKED ==> !Evictable(cfg, n, common[j], specialized[j])
      ensures victim >= 0 ==> Evictable(cfg, n, common[victim], specialized[victim])
      ensures victim >= 0 ==> forall j | 0 <= j < MAX_TRACKED && Evictable(cfg, n, common[j], specialized[j]) ::
                common[victim].lastUsed <= common[j].lastUsed
    {
      victim := -1;
      var time := NO_TIME;
      for i := 0 to MAX_TRACKED
        invariant -1 <= victim < i
        invariant if victim < 0 then time == NO_TIME
                  else time == common[victim].lastUsed && Evictable(cfg, n, common[victim], specialized[victim])
        invariant forall j | 0 <= j < i && Evictable(cfg, n, common[j], specialized[j]) ::
                  time <= common[j].lastUsed && victim >= 0
      {
        var s := common[i];
        if s.lastUsed < time {
          if !specialized[i] || Share(s.count, n) < cfg.evictBelow {
            var age := Age(n, s.lastUsed);
            if age > cfg.minData {
              victim, time := i, s.lastUsed;
            }
          }
        }
      }
    }

    method CreateEntry(i: nat, value: nat, n: nat)
      requires Valid() && i < MAX_TRACKED
      modifies common, specialized
      ensures State() == Placed(old(State()), i, value, n)
    {
      common[i] := Stat(value, 1, n);
      specialized[i] := false;
    }

    method CountHit(cfg: Config, call: Call, value: nat, i: nat) returns (r: bool)
      requires Valid() && call.n > 0 && i < MAX_TRACKED && Tracks(common[i], value)
      modifies common, specialized
      ensures Hit(cfg, call, value, old(State()), State(), r, i)
    {
      var count := common[i].count + 1;
      common[i] := Stat(value, count, call.n);
      r := specialized[i];
      if !r && Frequent(cfg, call, count) {
        specialized[i] := true;
        r := true;
      }
    }

    method IsLikelyInvariant(cfg: Config, call: Call, value: nat) returns (r: bool)
      requires Valid() && call.n > 0
      modifies common, specialized
      ensures Step(cfg, call, value, old(State()), State(), r)
    {
      var hit, empty := FindSlot(value);
      ghost var st := State();
      if hit >= 0 {
        r := CountHit(cfg, call, value, hit);
        assert Tracks(st.common[hit], value);
        return;
      }
      r := false;
      if empty >= 0 {
        CreateEntry(empty, value, call.n);
        assert Taken(cfg, call, value, st, State(), empty);
      } else {
        var victim := FindVictim(cfg, call.n);
        if victim >= 0 {
          CreateEntry(victim, value, call.n);
          assert Taken(cfg, call, value, st, State(), victim);
        } else {
          assert Full(cfg, call.n, st);
        }
      }
    }
  }
}
