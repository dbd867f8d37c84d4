/** Bucket arrays of the robin-hood hash table: the ordering invariant of its probe sequences and
    the effect of shifting buckets up and down (include/hipSYCL/common/unordered_dense.hpp). */
module RobinHood {
  import opened Words

  /** `daf` packs the distance (plus one, times 256) and one byte of fingerprint; 0 is empty. */
  datatype Bucket = Bucket(daf: nat, idx: nat)

  const DIST_INC: nat := 256
  const EMPTY: Bucket := Bucket(0, 0)

  type Hash = h: nat | h < WORD

  function Pow2(n: nat): (p: nat)
    ensures p > 0
  {
    if n == 0 then 1 else 2 * Pow2(n - 1)
  }

  function Div(a: nat, b: nat): nat
    requires b > 0
  {
    a / b
  }

  /** bucket_idx_from_hash. */
  function Home(h: Hash, shifts: nat): nat {
    Div(h, Pow2(shifts))
  }

  /** With `2^(64 - shifts)` buckets every hash has a home bucket. */
  lemma HomeInRange(h: Hash, shifts: nat)
    requires shifts <= 64
    ensures Home(h, shifts) < Pow2(64 - shifts)
  {
    Pow2Split(shifts, 64 - shifts);
    Pow2Is64();
    DivBound(h, Pow2(shifts), Pow2(64 - shifts));
  }

  lemma DivBound(h: nat, a: nat, b: nat)
    requires a > 0 && h < a * b
    ensures Div(h, a) < b
  {
    var q := h / a;
    assert a * q <= h;
    if q >= b { MulGe(q, b, a); }
  }

  lemma MulGe(x: nat, y: nat, c: nat)
    requires x >= y
    ensures c * x >= c * y
  {
  }

  lemma {:induction false} Pow2Split(a: nat, b: nat)
    ensures Pow2(a + b) == Pow2(a) * Pow2(b)
    decreases a
  {
    if a > 0 {
      Pow2Split(a - 1, b);
      assert Pow2(a + b) == 2 * Pow2(a - 1 + b);
    }
  }

  lemma {:induction false} Pow2Less(a: nat, b: nat)
    requires Pow2(a) < Pow2(b)
    ensures a < b && 2 * Pow2(a) <= Pow2(b)
    decreases a, b
  {
    if a > 0 && b > 0 { Pow2Less(a - 1, b - 1); }
  }

  lemma Pow2Is64()
    ensures Pow2(64) == WORD
  {
    assert Pow2(4) == 16;
    Pow2Split(4, 4);
    Pow2Split(8, 8);
    Pow2Split(16, 16);
    Pow2Split(32, 32);
  }

  /** Packed value of a probe for hash `h` at distance `d` from home. */
  function Probe(h: Hash, d: nat): nat {
    DIST_INC * (d + 1) + h % DIST_INC
  }

  /** The two parts of a packed value: distance plus one above the low byte, the low byte of the hash in it. */
  lemma ProbeFields(h: Hash, d: nat)
    ensures Probe(h, d) / 256 == d + 1 && Probe(h, d) % 256 == h % 256
  {
  }

  // ---------------------------------------------------------------------------------------------
  // Cyclic positions

  function Next(i: nat, n: nat): nat
    requires i < n
  {
    if i + 1 == n then 0 else i + 1
  }

  /** Steps from `a` forward to `b`. */
  function Off(a: nat, b: nat, n: nat): (d: nat)
    requires a < n && b < n
    ensures d < n
  {
    if b >= a then b - a else b - a + n
  }

  /** Position `d` steps after `a`. */
  function At(a: nat, d: nat, n: nat): (i: nat)
    requires a < n && d < n
    ensures i < n && Off(a, i, n) == d
  {
    if a + d < n then a + d else a + d - n
  }

  // ---------------------------------------------------------------------------------------------
  // Invariant

  /** A bucket away from home never holds more than its predecessor's packed value plus one step. */
  ghost predicate Ladder(bs: seq<Bucket>) {
    forall i :: 0 <= i < |bs| ==> StepOk(bs, i)
  }

  ghost predicate StepOk(bs: seq<Bucket>, i: nat)
    requires i < |bs|
  {
    bs[Next(i, |bs|)].daf >= 2 * DIST_INC ==> bs[i].daf + DIST_INC >= bs[Next(i, |bs|)].daf
  }

  /** Bucket `i` describes the key it refers to. */
  ghost predicate Describes<K, V>(
    bs: seq<Bucket>, vals: seq<(K, V)>, hash: K -> Hash, shifts: nat, size: nat, hole: int, i: nat)
    requires i < |bs|
  {
    bs[i].daf != 0 ==>
      && Live(bs[i].idx, size, hole) && bs[i].idx < |vals|
      && Home(hash(vals[bs[i].idx].0), shifts) < |bs|
      && bs[i].daf == Probe(hash(vals[bs[i].idx].0), Off(Home(hash(vals[bs[i].idx].0), shifts), i, |bs|))
  }

  /** The value indices `0 .. size`, except for `hole`. */
  predicate Live(v: int, size: nat, hole: int) {
    0 <= v < size && v != hole
  }

  ghost predicate HeldBy(bs: seq<Bucket>, v: nat, i: nat) {
    i < |bs| && bs[i].daf != 0 && bs[i].idx == v
  }

  /** The buckets hold exactly the live value indices, each in one bucket, in ladder order. */
  ghost predicate Holds<K, V>(bs: seq<Bucket>, vals: seq<(K, V)>, hash: K -> Hash, shifts: nat, size: nat, hole: int) {
    && Ladder(bs)
    && (forall i :: 0 <= i < |bs| ==> Describes(bs, vals, hash, shifts, size, hole, i))
    && (forall v :: Live(v, size, hole) ==> v < |vals| && exists i :: HeldBy(bs, v, i))
    && (forall v, i, j :: HeldBy(bs, v, i) && HeldBy(bs, v, j) ==> i == j)
  }

  // ---------------------------------------------------------------------------------------------
  // Probe sequences

  /** Going back from a key's bucket to its home, every bucket is at least the key's probe there. */
  lemma {:induction false} ProbesBelow(bs: seq<Bucket>, home: nat, h: Hash, d: nat, j: nat)
    requires Ladder(bs) && home < |bs| && j <= d < |bs| && bs[At(home, d, |bs|)].daf == Probe(h, d)
    ensures bs[At(home, j, |bs|)].daf >= Probe(h, j)
    decreases d - j
  {
    if j < d {
      ProbesBelow(bs, home, h, d, j + 1);
      assert StepOk(bs, At(home, j, |bs|));
    }
  }

  /** After an empty bucket the distances start again. */
  lemma {:induction false} AfterEmpty(bs: seq<Bucket>, start: nat, d: nat)
    requires Ladder(bs) && start < |bs| && d < |bs| && bs[start].daf == 0
    ensures bs[At(start, d, |bs|)].daf < DIST_INC * (d + 1)
    decreases d
  {
    if d > 0 {
      AfterEmpty(bs, start, d - 1);
      assert StepOk(bs, At(start, d - 1, |bs|));
    }
  }

  /** A probe that exceeds the bucket proves that the key is not further along. */
  lemma StopMeansAbsent<K, V>(
    bs: seq<Bucket>, vals: seq<(K, V)>, hash: K -> Hash, shifts: nat, size: nat, hole: int, key: K, j: nat, v: nat)
    requires Holds(bs, vals, hash, shifts, size, hole) && Home(hash(key), shifts) < |bs| && j < |bs|
    requires bs[At(Home(hash(key), shifts), j, |bs|)].daf < Probe(hash(key), j)
    requires forall i | 0 <= i < |bs| && Off(Home(hash(key), shifts), i, |bs|) < j && bs[i].daf != 0
               :: bs[i].idx < |vals| && vals[bs[i].idx].0 != key
    requires Live(v, size, hole)
    ensures v < |vals| && vals[v].0 != key
  {
    if vals[v].0 == key {
      var i :| HeldBy(bs, v, i);
      assert Describes(bs, vals, hash, shifts, size, hole, i);
      var home := Home(hash(key), shifts);
      var d := Off(home, i, |bs|);
      assert At(home, d, |bs|) == i;
      if d >= j { ProbesBelow(bs, home, hash(key), d, j); }
    }
  }

  // ---------------------------------------------------------------------------------------------
  // Some bucket is empty

  lemma {:induction false} DistinctIndices(bs: seq<Bucket>, k: nat)
    requires k <= |bs| && (forall i :: 0 <= i < k ==> bs[i].daf != 0)
    requires forall v, i, j :: HeldBy(bs, v, i) && HeldBy(bs, v, j) ==> i == j
    ensures |set i | 0 <= i < k :: bs[i].idx| == k
    decreases k
  {
    if k > 0 {
      DistinctIndices(bs, k - 1);
      var s := set i | 0 <= i < k - 1 :: bs[i].idx;
      assert bs[k - 1].idx !in s by {
        if bs[k - 1].idx in s {
          var i :| 0 <= i < k - 1 && bs[i].idx == bs[k - 1].idx;
          assert HeldBy(bs, bs[i].idx, i) && HeldBy(bs, bs[i].idx, k - 1);
        }
      }
      assert (set i | 0 <= i < k :: bs[i].idx) == s + {bs[k - 1].idx};
    }
  }

  lemma {:induction false} BoundedSetSize(s: set<nat>, n: nat)
    requires forall v :: v in s ==> v < n
    ensures |s| <= n
    decreases n
  {
    if n == 0 {
      assert s == {};
    } else {
      BoundedSetSize(s - {n - 1}, n - 1);
    }
  }

  /** With fewer values than buckets some bucket is empty, so every probe loop ends. */
  lemma HasEmpty<K, V>(
    bs: seq<Bucket>, vals: seq<(K, V)>, hash: K -> Hash, shifts: nat, size: nat, hole: int)
    returns (e: nat)
    requires Holds(bs, vals, hash, shifts, size, hole) && size < |bs|
    ensures e < |bs| && bs[e].daf == 0
  {
    if forall i :: 0 <= i < |bs| ==> bs[i].daf != 0 {
      DistinctIndices(bs, |bs|);
      var s := set i | 0 <= i < |bs| :: bs[i].idx;
      forall v | v in s ensures v < size {
        var i :| 0 <= i < |bs| && bs[i].idx == v;
        assert Describes(bs, vals, hash, shifts, size, hole, i);
      }
      BoundedSetSize(s, size);
    }
    e :| 0 <= e < |bs| && bs[e].daf == 0;
  }

  // ---------------------------------------------------------------------------------------------
  // place_and_shift_up

  /** The bucket that ends up `t` steps after the insertion point of `b`. */
  function ShiftedUp(bs: seq<Bucket>, b: Bucket, p: nat, t: nat): Bucket
    requires p < |bs| && t < |bs|
  {
    if t == 0 then b else Bucket(bs[At(p, t - 1, |bs|)].daf + DIST_INC, bs[At(p, t - 1, |bs|)].idx)
  }

  function PlacedBucket(bs: seq<Bucket>, b: Bucket, p: nat, len: nat, i: nat): Bucket
    requires p < |bs| && len < |bs| && i < |bs|
  {
    if Off(p, i, |bs|) <= len then ShiftedUp(bs, b, p, Off(p, i, |bs|)) else bs[i]
  }

  /** The array after placing `b` at `p` and shifting the next `len` buckets up by one. */
  function Placed(bs: seq<Bucket>, b: Bucket, p: nat, len: nat): (r: seq<Bucket>)
    requires p < |bs| && len < |bs|
    ensures |r| == |bs| && forall i :: 0 <= i < |bs| ==> r[i] == PlacedBucket(bs, b, p, len, i)
  {
    seq(|bs|, i requires 0 <= i < |bs| => PlacedBucket(bs, b, p, len, i))
  }

  ghost predicate FirstEmpty(bs: seq<Bucket>, p: nat, len: nat) {
    && p < |bs| && len < |bs| && bs[At(p, len, |bs|)].daf == 0
    && forall t :: 0 <= t < len ==> bs[At(p, t, |bs|)].daf != 0
  }

  /** Midway through place_and_shift_up: `cur` is `bs` with the first `len` buckets from `p` replaced. */
  ghost predicate Shifting(bs: seq<Bucket>, cur: seq<Bucket>, b: Bucket, p: nat, len: nat) {
    && |cur| == |bs| && p < |bs| && len < |bs|
    && (forall i {:trigger cur[i]} :: 0 <= i < |bs| ==>
      cur[i] == if Off(p, i, |bs|) < len then ShiftedUp(bs, b, p, Off(p, i, |bs|)) else bs[i])
    && forall t :: 0 <= t < len ==> bs[At(p, t, |bs|)].daf != 0
  }

  lemma ShiftOne(bs: seq<Bucket>, cur: seq<Bucket>, b: Bucket, p: nat, len: nat, e: nat)
    requires Shifting(bs, cur, b, p, len) && cur[At(p, len, |bs|)].daf != 0 && e < |bs| && bs[e].daf == 0
    requires len <= Off(p, e, |bs|)
    ensures cur[At(p, len, |bs|)] == bs[At(p, len, |bs|)] && len + 1 <= Off(p, e, |bs|)
    ensures Next(At(p, len, |bs|), |bs|) == At(p, len + 1, |bs|)
    ensures Shifting(bs, cur[At(p, len, |bs|) := ShiftedUp(bs, b, p, len)], b, p, len + 1)
  {
    assert At(p, Off(p, e, |bs|), |bs|) == e;
  }

  lemma ShiftDone(bs: seq<Bucket>, cur: seq<Bucket>, b: Bucket, p: nat, len: nat)
    requires Shifting(bs, cur, b, p, len) && cur[At(p, len, |bs|)].daf == 0
    ensures FirstEmpty(bs, p, len) && cur[At(p, len, |bs|) := ShiftedUp(bs, b, p, len)] == Placed(bs, b, p, len)
  {
  }

  lemma NextOfAt(p: nat, t: nat, n: nat)
    requires p < n && t < n
    ensures Next(At(p, t, n), n) == if t + 1 == n then p else At(p, t + 1, n)
  {
  }

  lemma PlacedAt(bs: seq<Bucket>, b: Bucket, p: nat, len: nat, t: nat)
    requires p < |bs| && len < |bs| && t < |bs|
    ensures Placed(bs, b, p, len)[At(p, t, |bs|)] ==
            if t == 0 then b
            else if t <= len then Bucket(bs[At(p, t - 1, |bs|)].daf + DIST_INC, bs[At(p, t - 1, |bs|)].idx)
            else bs[At(p, t, |bs|)]
  {
  }

  /** The ladder at offset `t` from the insertion point. */
  lemma PlacedStep(bs: seq<Bucket>, b: Bucket, p: nat, len: nat, t: nat)
    requires Ladder(bs) && FirstEmpty(bs, p, len) && b.daf >= bs[p].daf && t + 1 < |bs|
    requires forall i :: 0 <= i < |bs| ==> bs[i].daf == 0 || bs[i].daf >= DIST_INC
    ensures StepOk(Placed(bs, b, p, len), At(p, t, |bs|))
  {
    var n := |bs|;
    PlacedAt(bs, b, p, len, t);
    PlacedAt(bs, b, p, len, t + 1);
    NextOfAt(p, t, n);
    assert StepOk(bs, At(p, t, n));
    if 0 < t <= len {
      NextOfAt(p, t - 1, n);
      assert StepOk(bs, At(p, t - 1, n));
    }
  }

  lemma PlacedLadder(bs: seq<Bucket>, b: Bucket, p: nat, len: nat)
    requires Ladder(bs) && FirstEmpty(bs, p, len) && b.daf >= bs[p].daf
    requires b.daf >= 2 * DIST_INC ==> bs[At(p, |bs| - 1, |bs|)].daf + DIST_INC >= b.daf
    requires forall i :: 0 <= i < |bs| ==> bs[i].daf == 0 || bs[i].daf >= DIST_INC
    ensures Ladder(Placed(bs, b, p, len))
  {
    var r, n := Placed(bs, b, p, len), |bs|;
    forall i | 0 <= i < n ensures StepOk(r, i) {
      var t := Off(p, i, n);
      assert i == At(p, t, n);
      if t + 1 < n {
        PlacedStep(bs, b, p, len, t);
      } else {
        NextOfAt(p, t, n);
        assert r[p] == b && (t == len || r[i] == bs[i]);
        assert t == len ==> bs[i].daf == 0;
      }
    }
  }

  /** As long as some bucket is empty, no bucket is a whole round away from home. */
  lemma NoFullRound<K, V>(
    bs: seq<Bucket>, vals: seq<(K, V)>, hash: K -> Hash, shifts: nat, size: nat, hole: int, i: nat, e: nat)
    requires Holds(bs, vals, hash, shifts, size, hole) && i < |bs| && bs[i].daf != 0 && e < |bs| && bs[e].daf == 0
    ensures Describes(bs, vals, hash, shifts, size, hole, i)
    ensures Off(Home(hash(vals[bs[i].idx].0), shifts), i, |bs|) + 1 < |bs|
    ensures bs[i].daf < DIST_INC * |bs|
  {
    assert Describes(bs, vals, hash, shifts, size, hole, i);
    var h := hash(vals[bs[i].idx].0);
    var home, n := Home(h, shifts), |bs|;
    var d, j := Off(home, i, n), Off(home, e, n);
    assert At(home, d, n) == i && At(home, j, n) == e;
    if j <= d { ProbesBelow(bs, home, h, d, j); }
  }

  lemma PlacedDescribes<K, V>(
    bs: seq<Bucket>, vals: seq<(K, V)>, hash: K -> Hash, shifts: nat, v: nat, b: Bucket, p: nat, len: nat, t: nat)
    requires Holds(bs, vals, hash, shifts, v, -1) && FirstEmpty(bs, p, len) && t < |bs| && v < |vals|
    requires Home(hash(vals[v].0), shifts) < |bs|
    requires b == Bucket(Probe(hash(vals[v].0), Off(Home(hash(vals[v].0), shifts), p, |bs|)), v)
    ensures Describes(Placed(bs, b, p, len), vals, hash, shifts, v + 1, -1, At(p, t, |bs|))
  {
    var n := |bs|;
    PlacedAt(bs, b, p, len, t);
    if 0 < t <= len {
      var i := At(p, t - 1, n);
      assert bs[i].daf != 0;
      NoFullRound(bs, vals, hash, shifts, v, -1, i, At(p, len, n));
    } else if t > len {
      assert Describes(bs, vals, hash, shifts, v, -1, At(p, t, n));
    }
  }

  /** Where the entry of bucket `i` is after the shift. */
  function Moved(p: nat, len: nat, i: nat, n: nat): nat
    requires p < n && len < n && i < n
  {
    if Off(p, i, n) < len then At(p, Off(p, i, n) + 1, n) else i
  }

  lemma PlacedMoves(bs: seq<Bucket>, b: Bucket, p: nat, len: nat, v: nat, i: nat)
    requires FirstEmpty(bs, p, len) && HeldBy(bs, v, i)
    ensures HeldBy(Placed(bs, b, p, len), v, Moved(p, len, i, |bs|))
  {
    var n := |bs|;
    var t := Off(p, i, n);
    assert At(p, t, n) == i;
    if t < len { PlacedAt(bs, b, p, len, t + 1); } else { PlacedAt(bs, b, p, len, t); }
  }

  lemma PlacedOrigin(bs: seq<Bucket>, b: Bucket, p: nat, len: nat, v: nat, i: nat) returns (j: nat)
    requires FirstEmpty(bs, p, len) && HeldBy(Placed(bs, b, p, len), v, i) && i != p
    ensures HeldBy(bs, v, j) && Moved(p, len, j, |bs|) == i
  {
    var n := |bs|;
    var t := Off(p, i, n);
    assert At(p, t, n) == i;
    PlacedAt(bs, b, p, len, t);
    j := if t <= len then At(p, t - 1, n) else i;
  }

  /** place_and_shift_up keeps the invariant and adds exactly the new value index. */
  lemma PlacedHolds<K, V>(bs: seq<Bucket>, vals: seq<(K, V)>, hash: K -> Hash, shifts: nat, v: nat, d: nat, len: nat)
    requires Holds(bs, vals, hash, shifts, v, -1) && v < |vals|
    requires Home(hash(vals[v].0), shifts) < |bs| && d < |bs|
    requires FirstEmpty(bs, At(Home(hash(vals[v].0), shifts), d, |bs|), len)
    requires bs[At(Home(hash(vals[v].0), shifts), d, |bs|)].daf <= Probe(hash(vals[v].0), d)
    requires d > 0 ==> bs[At(Home(hash(vals[v].0), shifts), d - 1, |bs|)].daf >= Probe(hash(vals[v].0), d - 1)
    ensures Holds(Placed(bs, Bucket(Probe(hash(vals[v].0), d), v), At(Home(hash(vals[v].0), shifts), d, |bs|), len),
                  vals, hash, shifts, v + 1, -1)
  {
    var n, h := |bs|, hash(vals[v].0);
    var home := Home(h, shifts);
    var p, b := At(home, d, n), Bucket(Probe(h, d), v);
    var r := Placed(bs, b, p, len);
    forall i | 0 <= i < n ensures bs[i].daf == 0 || bs[i].daf >= DIST_INC {
      assert Describes(bs, vals, hash, shifts, v, -1, i);
    }
    assert d > 0 ==> At(p, n - 1, n) == At(home, d - 1, n);
    PlacedLadder(bs, b, p, len);
    var m := v + 1;
    forall i | 0 <= i < n ensures Describes(r, vals, hash, shifts, m, -1, i) {
      assert At(p, Off(p, i, n), n) == i;
      PlacedDescribes(bs, vals, hash, shifts, v, b, p, len, Off(p, i, n));
    }
    PlacedIndices(bs, vals, hash, shifts, v, b, p, len);
  }

  lemma PlacedIndices<K, V>(
    bs: seq<Bucket>, vals: seq<(K, V)>, hash: K -> Hash, shifts: nat, v: nat, b: Bucket, p: nat, len: nat)
    requires Holds(bs, vals, hash, shifts, v, -1) && v < |vals| && FirstEmpty(bs, p, len) && b.idx == v && b.daf != 0
    ensures var r, m := Placed(bs, b, p, len), v + 1;
            && (forall w :: Live(w, m, -1) ==> exists i :: HeldBy(r, w, i))
            && (forall w, i, j :: HeldBy(r, w, i) && HeldBy(r, w, j) ==> i == j)
  {
    var r := Placed(bs, b, p, len);
    PlacedAt(bs, b, p, len, 0);
    assert HeldBy(r, v, p);
    forall w | Live(w, v, -1) ensures exists i :: HeldBy(r, w, i) {
      var i :| HeldBy(bs, w, i);
      PlacedMoves(bs, b, p, len, w, i);
    }
    var m := v + 1;
    assert forall w :: Live(w, m, -1) ==> w == v || Live(w, v, -1);
    forall w: nat, i | HeldBy(r, w, i) && i != p ensures w < v {
      var i' := PlacedOrigin(bs, b, p, len, w, i);
      assert Describes(bs, vals, hash, shifts, v, -1, i');
    }
    forall w, i, j | HeldBy(r, w, i) && HeldBy(r, w, j) ensures i == j {
      if i != p && j != p {
        var i' := PlacedOrigin(bs, b, p, len, w, i);
        var j' := PlacedOrigin(bs, b, p, len, w, j);
      }
    }
  }

  // ---------------------------------------------------------------------------------------------
  // Backward-shift deletion

  /** The bucket that replaces the one `t` steps after the removed bucket. */
  function ShiftedDown(bs: seq<Bucket>, p: nat, t: nat): Bucket
    requires p < |bs| && t + 1 < |bs|
  {
    var next := bs[At(p, t + 1, |bs|)];
    Bucket(if next.daf >= DIST_INC then next.daf - DIST_INC else 0, next.idx)
  }

  function RemovedBucket(bs: seq<Bucket>, p: nat, len: nat, i: nat): Bucket
    requires p < |bs| && len + 1 < |bs| && i < |bs|
  {
    var t := Off(p, i, |bs|);
    if t < len then ShiftedDown(bs, p, t) else if t == len then EMPTY else bs[i]
  }

  /** The array after removing bucket `p` and shifting the next `len` buckets down by one. */
  function Removed(bs: seq<Bucket>, p: nat, len: nat): (r: seq<Bucket>)
    requires p < |bs| && len + 1 < |bs|
    ensures |r| == |bs| && forall i :: 0 <= i < |bs| ==> r[i] == RemovedBucket(bs, p, len, i)
  {
    seq(|bs|, i requires 0 <= i < |bs| => RemovedBucket(bs, p, len, i))
  }

  /** The run of displaced buckets after `p` has length `len`. */
  ghost predicate DisplacedRun(bs: seq<Bucket>, p: nat, len: nat) {
    && p < |bs| && len + 1 < |bs| && bs[At(p, len + 1, |bs|)].daf < 2 * DIST_INC
    && forall t :: 1 <= t <= len ==> bs[At(p, t, |bs|)].daf >= 2 * DIST_INC
  }

  lemma RemovedAt(bs: seq<Bucket>, p: nat, len: nat, t: nat)
    requires DisplacedRun(bs, p, len) && t < |bs|
    ensures Removed(bs, p, len)[At(p, t, |bs|)] ==
            if t < len then Bucket(bs[At(p, t + 1, |bs|)].daf - DIST_INC, bs[At(p, t + 1, |bs|)].idx)
            else if t == len then EMPTY else bs[At(p, t, |bs|)]
  {
  }

  /** Midway through the backward shift: `cur` is `bs` with the first `len` buckets from `p` replaced
      by their successors. */
  ghost predicate Sinking(bs: seq<Bucket>, cur: seq<Bucket>, p: nat, len: nat) {
    && |cur| == |bs| && p < |bs| && len + 1 < |bs|
    && (forall i {:trigger cur[i]} :: 0 <= i < |bs| ==>
      cur[i] == if Off(p, i, |bs|) < len then ShiftedDown(bs, p, Off(p, i, |bs|)) else bs[i])
    && forall t :: 1 <= t <= len ==> bs[At(p, t, |bs|)].daf >= 2 * DIST_INC
  }

  /** The displaced run ends before it reaches an empty bucket. */
  lemma SinkBound(bs: seq<Bucket>, cur: seq<Bucket>, p: nat, len: nat, e: nat)
    requires Sinking(bs, cur, p, len) && cur[At(p, len + 1, |bs|)].daf >= 2 * DIST_INC
    requires e < |bs| && bs[e].daf == 0 && bs[p].daf != 0
    ensures cur[At(p, len + 1, |bs|)] == bs[At(p, len + 1, |bs|)] && len + 2 < |bs|
    ensures Next(At(p, len + 1, |bs|), |bs|) == At(p, len + 2, |bs|)
  {
    var n := |bs|;
    var k, t := At(p, len + 1, n), Off(p, e, n);
    assert At(p, t, n) == e && t != 0;
    assert Off(p, k, n) == len + 1 && cur[k] == bs[k];
    assert t > len + 1;
  }

  lemma SinkOne(bs: seq<Bucket>, cur: seq<Bucket>, p: nat, len: nat)
    requires Sinking(bs, cur, p, len) && len + 2 < |bs| && bs[At(p, len + 1, |bs|)].daf >= 2 * DIST_INC
    ensures Sinking(bs, cur[At(p, len, |bs|) := ShiftedDown(bs, p, len)], p, len + 1)
  {
    var n, cur' := |bs|, cur[At(p, len, |bs|) := ShiftedDown(bs, p, len)];
    forall i | 0 <= i < n
      ensures cur'[i] == if Off(p, i, n) < len + 1 then ShiftedDown(bs, p, Off(p, i, n)) else bs[i]
    {
      if Off(p, i, n) == len { assert i == At(p, len, n); }
    }
    forall t | 1 <= t <= len + 1 ensures bs[At(p, t, n)].daf >= 2 * DIST_INC {
    }
  }

  lemma SinkDone(bs: seq<Bucket>, cur: seq<Bucket>, p: nat, len: nat)
    requires Sinking(bs, cur, p, len) && cur[At(p, len + 1, |bs|)].daf < 2 * DIST_INC
    ensures DisplacedRun(bs, p, len) && cur[At(p, len, |bs|) := EMPTY] == Removed(bs, p, len)
  {
    assert cur[At(p, len + 1, |bs|)] == bs[At(p, len + 1, |bs|)];
  }

  lemma RemovedStep(bs: seq<Bucket>, p: nat, len: nat, t: nat)
    requires Ladder(bs) && DisplacedRun(bs, p, len) && t < |bs|
    ensures StepOk(Removed(bs, p, len), At(p, t, |bs|))
  {
    var n := |bs|;
    NextOfAt(p, t, n);
    RemovedAt(bs, p, len, t);
    if t + 1 < n {
      RemovedAt(bs, p, len, t + 1);
      NextOfAt(p, t + 1, n);
      assert StepOk(bs, At(p, t, n)) && StepOk(bs, At(p, t + 1, n));
    } else {
      RemovedAt(bs, p, len, 0);
      NextOfAt(p, 0, n);
      assert StepOk(bs, At(p, t, n)) && StepOk(bs, p);
    }
  }

  lemma RemovedDescribes<K, V>(
    bs: seq<Bucket>, vals: seq<(K, V)>, hash: K -> Hash, shifts: nat, size: nat, p: nat, len: nat, t: nat)
    requires Holds(bs, vals, hash, shifts, size, -1) && DisplacedRun(bs, p, len) && t < |bs| && bs[p].daf != 0
    ensures Describes(Removed(bs, p, len), vals, hash, shifts, size, bs[p].idx, At(p, t, |bs|))
  {
    var n, r := |bs|, Removed(bs, p, len);
    RemovedAt(bs, p, len, t);
    if t != len {
      var i := if t < len then At(p, t + 1, n) else At(p, t, n);
      assert Describes(bs, vals, hash, shifts, size, -1, i);
      assert bs[i].daf != 0 ==> bs[i].idx != bs[p].idx by {
        if bs[i].daf != 0 && bs[i].idx == bs[p].idx {
          assert HeldBy(bs, bs[p].idx, i) && HeldBy(bs, bs[p].idx, p);
        }
      }
    }
  }

  lemma RemovedOrigin(bs: seq<Bucket>, p: nat, len: nat, v: nat, i: nat) returns (j: nat)
    requires DisplacedRun(bs, p, len) && HeldBy(Removed(bs, p, len), v, i)
    ensures HeldBy(bs, v, j) && j != p && i == if 1 <= Off(p, j, |bs|) <= len then At(p, Off(p, j, |bs|) - 1, |bs|)
            else j
  {
    var n := |bs|;
    var t := Off(p, i, n);
    assert At(p, t, n) == i;
    RemovedAt(bs, p, len, t);
    j := if t < len then At(p, t + 1, n) else i;
  }

  /** do_erase's backward shift keeps the invariant and drops exactly the erased value index. */
  lemma RemovedHolds<K, V>(
    bs: seq<Bucket>, vals: seq<(K, V)>, hash: K -> Hash, shifts: nat, size: nat, p: nat, len: nat)
    requires Holds(bs, vals, hash, shifts, size, -1) && DisplacedRun(bs, p, len) && bs[p].daf != 0
    ensures Holds(Removed(bs, p, len), vals, hash, shifts, size, bs[p].idx)
  {
    var n, r, gone := |bs|, Removed(bs, p, len), bs[p].idx;
    forall i | 0 <= i < n ensures StepOk(r, i) && Describes(r, vals, hash, shifts, size, gone, i) {
      assert At(p, Off(p, i, n), n) == i;
      RemovedStep(bs, p, len, Off(p, i, n));
      RemovedDescribes(bs, vals, hash, shifts, size, p, len, Off(p, i, n));
    }
    forall v | Live(v, size, gone) ensures v < |vals| && exists i :: HeldBy(r, v, i) {
      assert Live(v, size, -1);
      var i :| HeldBy(bs, v, i);
      var t := Off(p, i, n);
      assert At(p, t, n) == i && t > 0;
      if t <= len {
        RemovedAt(bs, p, len, t - 1);
        assert HeldBy(r, v, At(p, t - 1, n));
      } else {
        RemovedAt(bs, p, len, t);
        assert HeldBy(r, v, i);
      }
    }
    forall v, i, j | HeldBy(r, v, i) && HeldBy(r, v, j) ensures i == j {
      var i' := RemovedOrigin(bs, p, len, v, i);
      var j' := RemovedOrigin(bs, p, len, v, j);
    }
  }
}
