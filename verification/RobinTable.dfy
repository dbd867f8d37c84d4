/** The hash table object: dense values and a bucket array updated in place, proved to be a
    mathematical map (include/hipSYCL/common/unordered_dense.hpp). */
module RobinTable {
  import opened RobinHood

  /** Bucket counts for which the 24-bit distance field cannot overflow. */
  const MAX_BUCKETS: nat := 0x80_0000

  /** Number of values a bucket array may hold at load factor 4/5. */
  function Capacity(n: nat): (c: nat)
    ensures n > 0 ==> c < n
  {
    n * 4 / 5
  }

  // ---------------------------------------------------------------------------------------------
  // The map held by the dense values

  ghost predicate DistinctKeys<K, V>(vals: seq<(K, V)>) {
    forall i, j :: 0 <= i < j < |vals| ==> vals[i].0 != vals[j].0
  }

  ghost function ToMap<K, V>(vals: seq<(K, V)>): (m: map<K, V>)
    requires DistinctKeys(vals)
    ensures forall i :: 0 <= i < |vals| ==> vals[i].0 in m && m[vals[i].0] == vals[i].1
    ensures forall k :: k in m ==> exists i :: 0 <= i < |vals| && vals[i].0 == k
  {
    map i | 0 <= i < |vals| :: vals[i].0 := vals[i].1
  }

  /** Swapping the last value into the erased slot removes exactly the erased key. */
  function SwapRemove<T>(vals: seq<T>, r: nat): (w: seq<T>)
    requires r < |vals|
    ensures |w| == |vals| - 1 && forall i :: 0 <= i < |w| ==> w[i] == if i == r then vals[|vals| - 1] else vals[i]
  {
    vals[r := vals[|vals| - 1]][..|vals| - 1]
  }

  lemma SwapRemoveDistinct<K, V>(vals: seq<(K, V)>, r: nat)
    requires DistinctKeys(vals) && r < |vals|
    ensures DistinctKeys(SwapRemove(vals, r))
  {
    var w, last := SwapRemove(vals, r), |vals| - 1;
    forall i, j | 0 <= i < j < |w| ensures w[i].0 != w[j].0 {
      var i', j' := if i == r then last else i, if j == r then last else j;
      assert w[i] == vals[i'] && w[j] == vals[j'] && i' != j';
      assert if i' < j' then vals[i'].0 != vals[j'].0 else vals[j'].0 != vals[i'].0;
    }
  }

  lemma SwapRemoveKeeps<K, V>(vals: seq<(K, V)>, r: nat, k: K)
    requires DistinctKeys(vals) && r < |vals| && DistinctKeys(SwapRemove(vals, r)) && k in ToMap(SwapRemove(vals, r))
    ensures k != vals[r].0 && k in ToMap(vals) && ToMap(vals)[k] == ToMap(SwapRemove(vals, r))[k]
  {
    var w := SwapRemove(vals, r);
    var i :| 0 <= i < |w| && w[i].0 == k;
    var i' := if i == r then |vals| - 1 else i;
    assert w[i] == vals[i'];
    assert if i' < r then vals[i'].0 != vals[r].0 else vals[r].0 != vals[i'].0;
  }

  lemma SwapRemoveCovers<K, V>(vals: seq<(K, V)>, r: nat, k: K)
    requires DistinctKeys(vals) && r < |vals| && DistinctKeys(SwapRemove(vals, r)) && k in ToMap(vals) && k != vals[r].0
    ensures k in ToMap(SwapRemove(vals, r))
  {
    var i :| 0 <= i < |vals| && vals[i].0 == k;
    assert SwapRemove(vals, r)[if i == |vals| - 1 then r else i].0 == k;
  }

  /** Erasing by swap removes exactly one key from the map. */
  lemma SwapRemoveMap<K, V>(vals: seq<(K, V)>, r: nat)
    requires DistinctKeys(vals) && r < |vals|
    ensures DistinctKeys(SwapRemove(vals, r))
    ensures ToMap(SwapRemove(vals, r)) == ToMap(vals) - {vals[r].0}
  {
    SwapRemoveDistinct(vals, r);
    var before, after := ToMap(vals) - {vals[r].0}, ToMap(SwapRemove(vals, r));
    forall k | k in after ensures k in before && before[k] == after[k] { SwapRemoveKeeps(vals, r, k); }
    forall k | k in before ensures k in after { SwapRemoveCovers(vals, r, k); }
  }

  lemma HoldsAppend<K, V>(
    bs: seq<Bucket>, vals: seq<(K, V)>, hash: K -> Hash, shifts: nat, size: nat, hole: int, x: (K, V))
    requires Holds(bs, vals, hash, shifts, size, hole)
    ensures Holds(bs, vals + [x], hash, shifts, size, hole)
  {
    forall i | 0 <= i < |bs| ensures Describes(bs, vals + [x], hash, shifts, size, hole, i) {
      assert Describes(bs, vals, hash, shifts, size, hole, i);
    }
  }

  lemma RedirectDescribes<K, V>(
    bs: seq<Bucket>, vals: seq<(K, V)>, hash: K -> Hash, shifts: nat, r: nat, p: nat, i: nat)
    requires r + 1 < |vals| && Holds(bs, vals, hash, shifts, |vals|, r) && HeldBy(bs, |vals| - 1, p) && i < |bs|
    ensures StepOk(bs[p := Bucket(bs[p].daf, r)], i)
    ensures Describes(bs[p := Bucket(bs[p].daf, r)], SwapRemove(vals, r), hash, shifts, |vals| - 1, -1, i)
  {
    assert StepOk(bs, i) && Describes(bs, vals, hash, shifts, |vals|, r, i)
           && Describes(bs, vals, hash, shifts, |vals|, r, p);
    assert HeldBy(bs, |vals| - 1, i) ==> i == p;
  }

  lemma RedirectIndices<K, V>(bs: seq<Bucket>, vals: seq<(K, V)>, hash: K -> Hash, shifts: nat, r: nat, p: nat)
    requires r + 1 < |vals| && Holds(bs, vals, hash, shifts, |vals|, r) && HeldBy(bs, |vals| - 1, p)
    ensures var bs', n := bs[p := Bucket(bs[p].daf, r)], |vals| - 1;
            && (forall v :: Live(v, n, -1) ==> exists i :: HeldBy(bs', v, i))
            && (forall v, i, j :: HeldBy(bs', v, i) && HeldBy(bs', v, j) ==> i == j)
  {
    var bs' := bs[p := Bucket(bs[p].daf, r)];
    var n := |vals| - 1;
    forall v | Live(v, n, -1) ensures exists i :: HeldBy(bs', v, i) {
      if v == r {
        assert HeldBy(bs', r, p);
      } else {
        assert Live(v, |vals|, r);
        var i :| HeldBy(bs, v, i);
        assert HeldBy(bs', v, i);
      }
    }
    forall v, i | HeldBy(bs', v, i) && i != p ensures HeldBy(bs, v, i) && v != r {
      assert Describes(bs, vals, hash, shifts, |vals|, r, i);
    }
  }

  /** Redirecting the last value's bucket to the erased slot after the values were swapped. */
  lemma RedirectHolds<K, V>(bs: seq<Bucket>, vals: seq<(K, V)>, hash: K -> Hash, shifts: nat, r: nat, p: nat)
    requires r + 1 < |vals| && Holds(bs, vals, hash, shifts, |vals|, r) && HeldBy(bs, |vals| - 1, p)
    ensures Holds(bs[p := Bucket(bs[p].daf, r)], SwapRemove(vals, r), hash, shifts, |vals| - 1, -1)
  {
    var bs', w, n := bs[p := Bucket(bs[p].daf, r)], SwapRemove(vals, r), |vals| - 1;
    forall i | 0 <= i < |bs| ensures StepOk(bs', i) && Describes(bs', w, hash, shifts, n, -1, i) {
      RedirectDescribes(bs, vals, hash, shifts, r, p, i);
    }
    RedirectIndices(bs, vals, hash, shifts, r, p);
  }

  lemma DropLastHolds<K, V>(bs: seq<Bucket>, vals: seq<(K, V)>, hash: K -> Hash, shifts: nat)
    requires |vals| > 0 && Holds(bs, vals, hash, shifts, |vals|, |vals| - 1)
    ensures Holds(bs, vals[..|vals| - 1], hash, shifts, |vals| - 1, -1)
  {
    var w, n := vals[..|vals| - 1], |vals| - 1;
    forall i | 0 <= i < |bs| ensures Describes(bs, w, hash, shifts, n, -1, i) {
      assert Describes(bs, vals, hash, shifts, n + 1, n, i);
    }
    var m := n + 1;
    assert forall v :: Live(v, n, -1) ==> Live(v, m, n);
  }

  /** A bucket that refers to `key` carries exactly the key's probe. */
  lemma KeyHasProbe<K, V>(
    bs: seq<Bucket>, vals: seq<(K, V)>, hash: K -> Hash, shifts: nat, size: nat, hole: int, key: K, j: nat)
    requires Holds(bs, vals, hash, shifts, size, hole) && Home(hash(key), shifts) < |bs| && j < |bs|
    ensures var b := bs[At(Home(hash(key), shifts), j, |bs|)];
            b.daf != 0 ==> Live(b.idx, size, hole) && b.idx < |vals| && (vals[b.idx].0 == key ==>
              b.daf == Probe(hash(key), j))
  {
    assert Describes(bs, vals, hash, shifts, size, hole, At(Home(hash(key), shifts), j, |bs|));
  }

  /** Past an empty bucket a probe sequence stops at once. */
  lemma StopsAfterEmpty(bs: seq<Bucket>, home: nat, h: Hash, j: nat, e: nat)
    requires Ladder(bs) && home < |bs| && j < |bs| && e < |bs| && bs[e].daf == 0 && Off(home, e, |bs|) <= j
    ensures bs[At(home, j, |bs|)].daf < Probe(h, j)
  {
    var d := j - Off(home, e, |bs|);
    AfterEmpty(bs, e, d);
    assert At(e, d, |bs|) == At(home, j, |bs|);
  }

  // ---------------------------------------------------------------------------------------------
  // The table

  class Table<K(==), V> {
    var values: seq<(K, V)>
    var buckets: array<Bucket>
    var shifts: nat
    const hash: K -> Hash

    /** The bucket array is usable for lookups of the first `size` values. */
    ghost predicate Indexes(size: nat)
      reads this, buckets
    {
      && shifts <= 62 && 4 <= buckets.Length == Pow2(64 - shifts)
      && size < buckets.Length && Holds(buckets[..], values, hash, shifts, size, -1)
    }

    ghost predicate Valid()
      reads this, buckets
    {
      && Indexes(|values|) && DistinctKeys(values)
      && |values| <= Capacity(buckets.Length) && buckets.Length <= MAX_BUCKETS
    }

    ghost function Model(): map<K, V>
      requires DistinctKeys(values)
      reads this
    {
      ToMap(values)
    }

    constructor (hash: K -> Hash)
      ensures Valid() && values == [] && this.hash == hash && fresh(buckets)
    {
      this.hash := hash;
      values, shifts := [], 62;
      buckets := new Bucket[4](_ => EMPTY);
      new;
      assert Pow2(2) == 4;
      forall i | 0 <= i < 4 ensures StepOk(buckets[..], i) && Describes(buckets[..], values, hash, shifts, 0, -1, i) { }
    }

    /** A probe for `key` is at step `j`: no earlier bucket of its sequence refers to `key`. */
    ghost predicate Probing(key: K, j: nat, daf: nat, b: nat)
      reads this, buckets
    {
      && j < buckets.Length && Home(hash(key), shifts) < buckets.Length
      && b == At(Home(hash(key), shifts), j, buckets.Length) && daf == Probe(hash(key), j)
      && forall i | 0 <= i < buckets.Length && Off(Home(hash(key), shifts), i, buckets.Length) < j
        && buckets[i].daf != 0
           :: buckets[i].idx < |values| && values[buckets[i].idx].0 != key
    }

    /** The bucket just before probe step `j` was not exceeded by the probe. */
    ghost predicate PassedBefore(key: K, j: nat)
      reads this, buckets
    {
      0 < j < buckets.Length && Home(hash(key), shifts) < buckets.Length ==>
        buckets[At(Home(hash(key), shifts), j - 1, buckets.Length)].daf >= Probe(hash(key), j - 1)
    }

    lemma ProbeStart(key: K, size: nat)
      requires Indexes(size)
      ensures Probing(key, 0, DIST_INC + hash(key) % DIST_INC, Home(hash(key), shifts))
    {
      HomeInRange(hash(key), shifts);
    }

    /** A bucket with the probed value refers to an existing value. */
    lemma ProbeHit(key: K, size: nat, j: nat, daf: nat, b: nat)
      requires Indexes(size) && Probing(key, j, daf, b) && buckets[b].daf == daf
      ensures buckets[b].idx < |values|
    {
      KeyHasProbe(buckets[..], values, hash, shifts, size, -1, key, j);
    }

    lemma ProbeNext(key: K, size: nat, j: nat, daf: nat, b: nat)
      requires Indexes(size) && Probing(key, j, daf, b) && j + 1 < buckets.Length
      requires buckets[b].daf == daf ==> buckets[b].idx < |values| && values[buckets[b].idx].0 != key
      ensures Probing(key, j + 1, daf + DIST_INC, Next(b, buckets.Length))
    {
      KeyHasProbe(buckets[..], values, hash, shifts, size, -1, key, j);
      forall i | 0 <= i < buckets.Length && Off(Home(hash(key), shifts), i, buckets.Length) < j + 1
        && buckets[i].daf != 0
        ensures buckets[i].idx < |values| && values[buckets[i].idx].0 != key
      {
        if Off(Home(hash(key), shifts), i, buckets.Length) == j { assert i == b; }
      }
    }

    /** A probe that has not stopped has not come round to the empty bucket `e`. */
    lemma ProbeBound(key: K, size: nat, j: nat, daf: nat, b: nat)
      requires Indexes(size) && Probing(key, j, daf, b) && daf <= buckets[b].daf
      ensures j + 1 < buckets.Length
    {
      var e := HasEmpty(buckets[..], values, hash, shifts, size, -1);
      if Off(Home(hash(key), shifts), e, buckets.Length) <= j {
        StopsAfterEmpty(buckets[..], Home(hash(key), shifts), hash(key), j, e);
      }
    }

    lemma ProbeStop(key: K, j: nat, daf: nat, b: nat)
      requires Indexes(|values|) && Probing(key, j, daf, b) && buckets[b].daf < daf
      ensures forall i :: 0 <= i < |values| ==> values[i].0 != key
    {
      forall i | 0 <= i < |values| ensures values[i].0 != key {
        StopMeansAbsent(buckets[..], values, hash, shifts, |values|, -1, key, j, i);
      }
    }

    /** The probe loop of do_find. */
    method FindFrom(key: K, daf0: nat, b0: nat, ghost j0: nat) returns (r: int)
      requires Indexes(|values|) && Probing(key, j0, daf0, b0)
      ensures -1 <= r < |values|
      ensures if r >= 0 then values[r].0 == key else forall i :: 0 <= i < |values| ==> values[i].0 != key
    {
      var daf: nat, b: nat := daf0, b0;
      ghost var j: nat := j0;
      while true
        invariant Probing(key, j, daf, b)
        decreases buckets.Length - j
      {
        if daf == buckets[b].daf {
          ProbeHit(key, |values|, j, daf, b);
          if key == values[buckets[b].idx].0 { return buckets[b].idx; }
        } else if daf > buckets[b].daf {
          ProbeStop(key, j, daf, b);
          return -1;
        }
        ProbeBound(key, |values|, j, daf, b);
        ProbeNext(key, |values|, j, daf, b);
        daf, b, j := daf + DIST_INC, Next(b, buckets.Length), j + 1;
      }
    }

    /** do_find: two unrolled probes, then the probe loop; -1 is end(). */
    method Find(key: K) returns (r: int)
      requires Valid()
      ensures -1 <= r < |values|
      ensures r >= 0 ==> values[r].0 == key && key in Model() && Model()[key] == values[r].1
      ensures r < 0 ==> key !in Model()
    {
      if |values| == 0 { return -1; }
      var daf: nat, b: nat := DIST_INC + hash(key) % DIST_INC, Home(hash(key), shifts);
      ProbeStart(key, |values|);
      if daf == buckets[b].daf {
        ProbeHit(key, |values|, 0, daf, b);
        if key == values[buckets[b].idx].0 { return buckets[b].idx; }
      }
      ProbeNext(key, |values|, 0, daf, b);
      daf, b := daf + DIST_INC, Next(b, buckets.Length);
      if daf == buckets[b].daf {
        ProbeHit(key, |values|, 1, daf, b);
        if key == values[buckets[b].idx].0 { return buckets[b].idx; }
      }
      ProbeNext(key, |values|, 1, daf, b);
      daf, b := daf + DIST_INC, Next(b, buckets.Length);
      r := FindFrom(key, daf, b, 2);
    }

    /** next_while_less: the first bucket that does not exceed the probe. */
    method NextWhileLess(key: K, ghost size: nat) returns (daf: nat, b: nat, ghost j: nat)
      requires Indexes(size)
      ensures Probing(key, j, daf, b) && buckets[b].daf <= daf
      ensures PassedBefore(key, j)
    {
      ProbeStart(key, size);
      daf, b, j := DIST_INC + hash(key) % DIST_INC, Home(hash(key), shifts), 0;
      while daf < buckets[b].daf
        invariant Probing(key, j, daf, b)
        invariant PassedBefore(key, j)
        decreases buckets.Length - j
      {
        ProbeBound(key, size, j, daf, b);
        ProbeNext(key, size, j, daf, b);
        daf, b, j := daf + DIST_INC, Next(b, buckets.Length), j + 1;
      }
    }

    /** place_and_shift_up. */
    method PlaceAndShiftUp(b: Bucket, p: nat, ghost e: nat) returns (ghost len: nat)
      requires p < buckets.Length && e < buckets.Length && buckets[e].daf == 0
      modifies buckets
      ensures FirstEmpty(old(buckets[..]), p, len)
      ensures buckets[..] == Placed(old(buckets[..]), b, p, len)
    {
      ghost var bs := buckets[..];
      var bucket, place := b, p;
      len := 0;
      while buckets[place].daf != 0
        invariant len <= Off(p, e, buckets.Length) && place == At(p, len, buckets.Length)
        invariant Shifting(bs, buckets[..], b, p, len) && bucket == ShiftedUp(bs, b, p, len)
        decreases buckets.Length - len
      {
        ShiftOne(bs, buckets[..], b, p, len, e);
        buckets[place], bucket := bucket, buckets[place];
        bucket := Bucket(bucket.daf + DIST_INC, bucket.idx);
        place, len := Next(place, buckets.Length), len + 1;
      }
      ShiftDone(bs, buckets[..], b, p, len);
      buckets[place] := bucket;
    }

    /** Inserting value index `v` for a key whose probe stopped at step `j`. */
    method Insert(v: nat, daf: nat, b: nat, ghost j: nat)
      requires Indexes(v) && v < |values| && v + 1 < buckets.Length
      requires Probing(values[v].0, j, daf, b) && buckets[b].daf <= daf
      requires PassedBefore(values[v].0, j)
      modifies buckets
      ensures Indexes(v + 1)
    {
      ghost var bs := buckets[..];
      ghost var e := HasEmpty(bs, values, hash, shifts, v, -1);
      ghost var len := PlaceAndShiftUp(Bucket(daf, v), b, e);
      PlacedHolds(bs, values, hash, shifts, v, j, len);
    }

    /** clear_and_fill_buckets_from_values, on an array that has just been cleared. */
    method FillBuckets()
      requires Indexes(0) && |values| < buckets.Length
      modifies buckets
      ensures Indexes(|values|)
    {
      for v := 0 to |values|
        invariant Indexes(v)
      {
        var daf, b; ghost var j;
        daf, b, j := NextWhileLess(values[v].0, v);
        Insert(v, daf, b, j);
      }
    }

    /** increase_size: one shift less, twice the buckets, refilled from the values. */
    method IncreaseSize()
      requires shifts <= 62 && 4 <= buckets.Length == Pow2(64 - shifts) && |values| < 2 * buckets.Length && shifts > 0
      modifies this`shifts, this`buckets
      ensures fresh(buckets) && buckets.Length == 2 * old(buckets.Length)
      ensures Indexes(|values|)
    {
      ghost var n := buckets.Length;
      var fresh' := new Bucket[2 * buckets.Length](_ => EMPTY);
      shifts, buckets := shifts - 1, fresh';
      assert Pow2(64 - shifts) == 2 * n;
      forall i | 0 <= i < buckets.Length
        ensures StepOk(buckets[..], i) && Describes(buckets[..], values, hash, shifts, 0, -1, i)
      {
      }
      FillBuckets();
    }

    /** Growing when the last appended value exceeds the capacity. */
    method Grow()
      requires shifts <= 62 && 4 <= buckets.Length == Pow2(64 - shifts) && DistinctKeys(values)
      requires |values| == Capacity(buckets.Length) + 1 && |values| <= Capacity(MAX_BUCKETS)
      modifies this`shifts, this`buckets
      ensures Valid() && fresh(buckets) && buckets.Length == 2 * old(buckets.Length)
    {
      GrowthFits(shifts, |values|);
      IncreaseSize();
    }

    /** do_place_element: append the value, then index it or grow. */
    method PlaceElement(key: K, value: V, daf: nat, b: nat, ghost j: nat)
      requires Valid() && |values| + 1 <= Capacity(MAX_BUCKETS)
      requires Probing(key, j, daf, b) && buckets[b].daf <= daf && forall i :: 0 <= i < |values| ==> values[i].0 != key
      requires PassedBefore(key, j)
      modifies this, buckets
      ensures Valid() && values == old(values) + [(key, value)] && (buckets == old(buckets) || fresh(buckets))
      ensures buckets.Length == if 5 * |values| > 4 * old(buckets.Length) then 2 * old(buckets.Length)
              else old(buckets.Length)
    {
      HoldsAppend(buckets[..], values, hash, shifts, |values|, -1, (key, value));
      AppendMap(values, key, value);
      values := values + [(key, value)];
      if |values| > Capacity(buckets.Length) {
        Grow();
      } else {
        Insert(|values| - 1, daf, b, j);
      }
    }

    /** One doubling makes room, and stays within the supported bucket counts. */
    static lemma GrowthFits(shifts: nat, size: nat)
      requires shifts <= 62 && Pow2(64 - shifts) >= 4 && size == Capacity(Pow2(64 - shifts)) + 1
      requires size <= Capacity(MAX_BUCKETS)
      ensures shifts > 0 && 2 * Pow2(64 - shifts) <= MAX_BUCKETS
      ensures size < 2 * Pow2(64 - shifts) && size <= Capacity(2 * Pow2(64 - shifts))
    {
      MaxIsPow2();
      assert Pow2(64 - shifts) < MAX_BUCKETS;
      Pow2Less(64 - shifts, 23);
    }

    static lemma MaxIsPow2()
      ensures Pow2(23) == MAX_BUCKETS
    {
      assert Pow2(3) == 8;
      assert Pow2(5) == 32;
      Pow2Split(5, 5);
      Pow2Split(10, 10);
      Pow2Split(20, 3);
    }

    /** The probe loop of do_try_emplace: the key's bucket, or where its new bucket goes. */
    method ProbeFor(key: K) returns (found: bool, daf: nat, b: nat, ghost j: nat)
      requires Indexes(|values|)
      ensures b < buckets.Length
      ensures found ==> buckets[b].idx < |values| && values[buckets[b].idx].0 == key
      ensures !found ==> Probing(key, j, daf, b) && buckets[b].daf <= daf && forall i :: 0 <= i < |values| ==>
              values[i].0 != key
      ensures !found ==> PassedBefore(key, j)
    {
      ProbeStart(key, |values|);
      daf, b, j := DIST_INC + hash(key) % DIST_INC, Home(hash(key), shifts), 0;
      while daf <= buckets[b].daf
        invariant Probing(key, j, daf, b)
        invariant PassedBefore(key, j)
        decreases buckets.Length - j
      {
        if daf == buckets[b].daf {
          ProbeHit(key, |values|, j, daf, b);
          if key == values[buckets[b].idx].0 { return true, daf, b, j; }
        }
        ProbeBound(key, |values|, j, daf, b);
        ProbeNext(key, |values|, j, daf, b);
        daf, b, j := daf + DIST_INC, Next(b, buckets.Length), j + 1;
      }
      ProbeStop(key, j, daf, b);
      found := false;
    }

    /** do_try_emplace: position of the key's value, and whether it was inserted. */
    method TryEmplace(key: K, value: V) returns (r: nat, inserted: bool)
      requires Valid() && (key !in Model() ==> |values| < Capacity(MAX_BUCKETS))
      modifies this, buckets
      ensures Valid() && (buckets == old(buckets) || fresh(buckets))
      ensures inserted <==> key !in old(Model())
      ensures Model() == if inserted then old(Model())[key := value] else old(Model())
      ensures r < |values| && values[r].0 == key && |values| == old(|values|) + (if inserted then 1 else 0)
      ensures inserted ==> values == old(values) + [(key, value)]
      ensures !inserted ==> values == old(values)
      ensures buckets.Length ==
              if inserted && 5 * |values| > 4 * old(buckets.Length) then 2 * old(buckets.Length)
                else old(buckets.Length)
    {
      var found, daf, b; ghost var j;
      found, daf, b, j := ProbeFor(key);
      if found { return buckets[b].idx, false; }
      AppendMap(values, key, value);
      PlaceElement(key, value, daf, b, j);
      r, inserted := |values| - 1, true;
    }

    static lemma AppendMap(vals: seq<(K, V)>, key: K, value: V)
      requires DistinctKeys(vals) && forall i :: 0 <= i < |vals| ==> vals[i].0 != key
      ensures DistinctKeys(vals + [(key, value)]) && ToMap(vals + [(key, value)]) == ToMap(vals)[key := value]
    {
      var w := vals + [(key, value)];
      assert DistinctKeys(w);
      forall k | k in ToMap(vals)[key := value] ensures k in ToMap(w) && ToMap(w)[k] == ToMap(vals)[key := value][k] {
        if k != key {
          var i :| 0 <= i < |vals| && vals[i].0 == k;
          assert w[i] == vals[i];
        } else {
          assert w[|vals|].0 == key;
        }
      }
    }

    /** The backward shift of do_erase: displaced buckets after `p` move down until one is at home. */
    method SinkBuckets(p: nat, ghost e: nat) returns (ghost len: nat)
      requires p < buckets.Length && e < buckets.Length && buckets[e].daf == 0 && buckets[p].daf != 0
      modifies buckets
      ensures DisplacedRun(old(buckets[..]), p, len) && buckets[..] == Removed(old(buckets[..]), p, len)
    {
      ghost var bs := buckets[..];
      len := 0;
      assert At(p, Off(p, e, buckets.Length), buckets.Length) == e;
      var cur, next := p, Next(p, buckets.Length);
      while buckets[next].daf >= 2 * DIST_INC
        invariant Sinking(bs, buckets[..], p, len)
        invariant cur == At(p, len, buckets.Length) && next == At(p, len + 1, buckets.Length)
        decreases buckets.Length - len
      {
        SinkBound(bs, buckets[..], p, len, e);
        SinkOne(bs, buckets[..], p, len);
        buckets[cur] := Bucket(buckets[next].daf - DIST_INC, buckets[next].idx);
        cur, next, len := next, Next(next, buckets.Length), len + 1;
      }
      SinkDone(bs, buckets[..], p, len);
      buckets[cur] := EMPTY;
    }

    method ShiftDown(p: nat)
      requires Indexes(|values|) && p < buckets.Length && buckets[p].daf != 0
      modifies buckets
      ensures Holds(buckets[..], values, hash, shifts, |values|, old(buckets[p].idx))
    {
      ghost var bs := buckets[..];
      ghost var e := HasEmpty(bs, values, hash, shifts, |values|, -1);
      ghost var len := SinkBuckets(p, e);
      RemovedHolds(bs, values, hash, shifts, |values|, p, len);
    }

    /** The search of do_erase for the bucket of the last value. */
    method FindBucketOfLast(ghost hole: nat) returns (b: nat)
      requires shifts <= 62 && buckets.Length == Pow2(64 - shifts) && |values| > 0
      requires Holds(buckets[..], values, hash, shifts, |values|, hole) && |values| - 1 != hole
      ensures HeldBy(buckets[..], |values| - 1, b)
    {
      var last := |values| - 1;
      ghost var bs, h := buckets[..], hash(values[last].0);
      HomeInRange(h, shifts);
      assert Live(last, |values|, hole);
      ghost var i :| HeldBy(bs, last, i);
      assert Describes(bs, values, hash, shifts, |values|, hole, i);
      ghost var d, j := Off(Home(h, shifts), i, buckets.Length), 0;
      assert At(Home(h, shifts), d, buckets.Length) == i;
      b := Home(hash(values[last].0), shifts);
      ProbesBelow(bs, Home(h, shifts), h, d, 0);
      while last != buckets[b].idx
        invariant j <= d && b == At(Home(h, shifts), j, buckets.Length) && bs[b].daf != 0
        decreases d - j
      {
        b, j := Next(b, buckets.Length), j + 1;
        ProbesBelow(bs, Home(h, shifts), h, d, j);
      }
    }

    /** The last value takes over slot `r`: its bucket is redirected. */
    method MoveLastInto(r: nat)
      requires shifts <= 62 && buckets.Length == Pow2(64 - shifts) && r + 1 < |values|
      requires Holds(buckets[..], values, hash, shifts, |values|, r)
      modifies buckets
      ensures Holds(buckets[..], SwapRemove(values, r), hash, shifts, |values| - 1, -1)
    {
      var b := FindBucketOfLast(r);
      RedirectHolds(buckets[..], values, hash, shifts, r, b);
      buckets[b] := Bucket(buckets[b].daf, r);
    }

    /** do_erase of the value held by bucket `p`. */
    method DoErase(p: nat)
      requires Indexes(|values|) && p < buckets.Length && buckets[p].daf != 0 && buckets[p].idx < |values|
      modifies this`values, buckets
      ensures Indexes(|values|) && values == SwapRemove(old(values), old(buckets[p].idx))
    {
      var r := buckets[p].idx;
      ghost var n, w := |values|, SwapRemove(values, r);
      ShiftDown(p);
      if r != |values| - 1 {
        MoveLastInto(r);
      } else {
        DropLastHolds(buckets[..], values, hash, shifts);
        assert values[..n - 1] == w;
      }
      assert Holds(buckets[..], w, hash, shifts, n - 1, -1);
      values := SwapRemove(values, r);
      assert values == w && |values| == n - 1;
    }

    /** The search of do_erase_key: the key's bucket, if any. */
    method Locate(key: K) returns (found: bool, b: nat)
      requires Indexes(|values|)
      ensures found ==>
              b < buckets.Length && buckets[b].daf != 0 && buckets[b].idx < |values|
              && values[buckets[b].idx].0 == key
      ensures !found ==> forall i :: 0 <= i < |values| ==> values[i].0 != key
    {
      var daf: nat; ghost var j: nat;
      daf, b, j := NextWhileLess(key, |values|);
      if daf == buckets[b].daf { ProbeHit(key, |values|, j, daf, b); }
      while daf == buckets[b].daf && key != values[buckets[b].idx].0
        invariant Probing(key, j, daf, b) && buckets[b].daf <= daf
        invariant buckets[b].daf == daf ==> buckets[b].idx < |values|
        decreases buckets.Length - j
      {
        ProbeBound(key, |values|, j, daf, b);
        ProbeNext(key, |values|, j, daf, b);
        assert StepOk(buckets[..], b);
        daf, b, j := daf + DIST_INC, Next(b, buckets.Length), j + 1;
        if buckets[b].daf == daf { ProbeHit(key, |values|, j, daf, b); }
      }
      found := daf == buckets[b].daf;
      if !found { ProbeStop(key, j, daf, b); }
    }

    /** do_erase_key: number of values erased. */
    method EraseKey(key: K) returns (count: nat)
      requires Valid()
      modifies this`values, buckets
      ensures Valid() && count == (if key in old(Model()) then 1 else 0) && |values| == old(|values|) - count
      ensures Model() == old(Model()) - {key}
    {
      if |values| == 0 { return 0; }
      var found, b := Locate(key);
      if !found {
        assert key !in Model();
        return 0;
      }
      assert key in Model();
      SwapRemoveMap(values, buckets[b].idx);
      DoErase(b);
      count := 1;
    }

    /** Stored distances stay below the bucket count, so incrementing the packed 32-bit field never wraps. */
    lemma DistancesFit(i: nat)
      requires Valid() && i < buckets.Length
      ensures buckets[i].daf < DIST_INC * buckets.Length && buckets[i].daf + DIST_INC < 0x1_0000_0000
    {
      var e := HasEmpty(buckets[..], values, hash, shifts, |values|, -1);
      if buckets[i].daf != 0 { NoFullRound(buckets[..], values, hash, shifts, |values|, -1, i, e); }
    }

    /** What a used bucket stores about the key it refers to: above the low byte the distance from the key's home, which
        the upper bits of the hash determine, plus one; in the low byte the low byte of the hash. */
    lemma BucketFields(i: nat)
      requires Valid() && i < buckets.Length && buckets[i].daf != 0
      ensures buckets[i].idx < |values|
      ensures var h := hash(values[buckets[i].idx].0);
              && h / Pow2(shifts) < buckets.Length
              && buckets[i].daf % 256 == h % 256 && buckets[i].daf / 256 == Off(h / Pow2(shifts), i, buckets.Length) + 1
    {
      assert Describes(buckets[..], values, hash, shifts, |values|, -1, i);
      var h := hash(values[buckets[i].idx].0);
      ProbeFields(h, Off(Home(h, shifts), i, buckets.Length));
    }

    /** One operation of a history. */
    method Perform(op: Operation<K, V>)
      requires Valid() && (op.Emplace? && op.key !in Model() ==> |values| < Capacity(MAX_BUCKETS))
      modifies this, buckets
      ensures Valid() && (buckets == old(buckets) || fresh(buckets))
      ensures Model() == Effect(old(Model()), op)
    {
      match op
      case Emplace(k, v) => var r, inserted := TryEmplace(k, v);
      case Erase(k) => var count := EraseKey(k);
    }
  }

  // ---------------------------------------------------------------------------------------------
  // Histories

  datatype Operation<K, V> = Emplace(key: K, value: V) | Erase(key: K)

  /** The effect of an operation on a mathematical map. */
  ghost function Effect<K, V>(m: map<K, V>, op: Operation<K, V>): map<K, V> {
    match op
    case Emplace(k, v) => if k in m then m else m[k := v]
    case Erase(k) => m - {k}
  }

  ghost function Effects<K, V>(ops: seq<Operation<K, V>>): map<K, V> {
    if ops == [] then map[] else Effect(Effects(ops[..|ops| - 1]), ops[|ops| - 1])
  }

  /** The values and the map they stand for have the same size. */
  lemma {:induction false} ToMapSize<K, V>(vals: seq<(K, V)>)
    requires DistinctKeys(vals)
    ensures |ToMap(vals)| == |vals|
    decreases |vals|
  {
    if vals != [] {
      var rest, last := vals[..|vals| - 1], vals[|vals| - 1];
      ToMapSize(rest);
      Table.AppendMap(rest, last.0, last.1);
      assert rest + [(last.0, last.1)] == vals;
    }
  }

  /** An operation that adds a key makes the map larger. */
  lemma EffectGrows<K, V>(m: map<K, V>, op: Operation<K, V>)
    requires op.Emplace? && op.key !in m
    ensures |Effect(m, op)| == |m| + 1
  {
  }

  /** After any history of insertions and erasures that never holds more values than the largest
      supported bucket array admits, the table is exactly the resulting map. */
  method Replay<K(==), V>(hash: K -> Hash, ops: seq<Operation<K, V>>) returns (t: Table<K, V>)
    requires forall i :: 0 <= i <= |ops| ==> |Effects(ops[..i])| <= Capacity(MAX_BUCKETS)
    ensures t.Valid() && t.Model() == Effects(ops)
  {
    t := new Table(hash);
    for i := 0 to |ops|
      invariant t.Valid() && t.Model() == Effects(ops[..i])
      invariant fresh(t) && fresh(t.buckets)
    {
      assert ops[..i + 1][..i] == ops[..i];
      ghost var next := i + 1;
      assert |Effects(ops[..next])| <= Capacity(MAX_BUCKETS);
      ToMapSize(t.values);
      if ops[i].Emplace? && ops[i].key !in t.Model() { EffectGrows(t.Model(), ops[i]); }
      t.Perform(ops[i]);
    }
    assert ops[..|ops|] == ops;
  }
}
