/** Operations on memory cells, performed in different orders. Orders that keep clashing operations in
    place give every operation the same inputs and every cell the same contents. */
module Schedule {

  /** An operation with the cells it accesses and, among them, the cells it writes. */
  datatype Op<!C(!new)> = Op(id: nat, touches: iset<C>, writes: iset<C>)

  /** What an operation leaves in a cell it writes: an arbitrary function of the operation, the contents
      of the cells it accesses and the cell. */
  type Kernel<!C(!new), !V> = (nat, map<C, V>, C) -> V

  ghost predicate OpsClash<C(!new)>(o: Op<C>, p: Op<C>) {
    exists c :: (c in o.writes && c in p.touches) || (c in o.touches && c in p.writes)
  }

  ghost function Inputs<C(!new), V>(mem: map<C, V>, o: Op<C>): map<C, V> {
    map c | c in mem && c in o.touches :: mem[c]
  }

  ghost function Perform<C(!new), V>(k: Kernel<C, V>, mem: map<C, V>, o: Op<C>): (mem': map<C, V>)
    ensures mem'.Keys == mem.Keys
  {
    map c | c in mem :: if c in o.writes then k(o.id, Inputs(mem, o), c) else mem[c]
  }

  /** Memory after performing `os` in sequence. */
  ghost function After<C(!new), V>(k: Kernel<C, V>, mem: map<C, V>, os: seq<Op<C>>): (mem': map<C, V>)
    ensures mem'.Keys == mem.Keys
    decreases |os|
  {
    if os == [] then mem else Perform(k, After(k, mem, os[..|os| - 1]), os[|os| - 1])
  }

  lemma AfterNext<C(!new), V>(k: Kernel<C, V>, mem: map<C, V>, os: seq<Op<C>>, n: nat)
    requires n < |os|
    ensures After(k, mem, os[..n + 1]) == Perform(k, After(k, mem, os[..n]), os[n])
  {
    assert os[..n + 1][..n] == os[..n];
  }

  /** A cell that nobody writes in between keeps its contents. */
  lemma {:induction false} Unwritten<C(!new), V>(k: Kernel<C, V>, mem: map<C, V>, os: seq<Op<C>>, a: nat, n: nat, c: C)
    requires a <= n <= |os| && c in mem && forall x :: a <= x < n ==> c !in os[x].writes
    ensures After(k, mem, os[..n])[c] == After(k, mem, os[..a])[c]
    decreases n
  {
    if a < n {
      Unwritten(k, mem, os, a, n - 1, c);
      AfterNext(k, mem, os, n - 1);
    }
  }

  // ---------------------------------------------------------------------------------------------
  // The contents are determined by the last writer

  /** Position of the last operation writing `c`, or -1. */
  ghost function LastWriter<C(!new)>(os: seq<Op<C>>, c: C): (w: int)
    ensures -1 <= w < |os|
    ensures w >= 0 ==> c in os[w].writes
    ensures forall i :: w < i < |os| ==> c !in os[i].writes
    decreases |os|
  {
    if os == [] then -1
    else if c in os[|os| - 1].writes then |os| - 1
    else
      var w := LastWriter(os[..|os| - 1], c);
      assert forall i :: 0 <= i < |os| - 1 ==> os[..|os| - 1][i] == os[i];
      w
  }

  lemma {:induction false} ValueIsLastWrite<C(!new), V>(k: Kernel<C, V>, mem: map<C, V>, os: seq<Op<C>>, c: C)
    requires c in mem
    ensures var w := LastWriter(os, c);
            After(k, mem, os)[c] == if w < 0 then mem[c] else k(os[w].id, Inputs(After(k, mem, os[..w]), os[w]), c)
    decreases |os|
  {
    if os != [] && c !in os[|os| - 1].writes {
      ValueIsLastWrite(k, mem, os[..|os| - 1], c);
      var w := LastWriter(os, c);
      if w >= 0 { PrefixOfPrefix(os, |os| - 1, w); }
    }
  }

  lemma PrefixOfPrefix<T>(s: seq<T>, l: nat, k: nat)
    requires k <= l <= |s|
    ensures s[..l][..k] == s[..k]
  {
  }

  // ---------------------------------------------------------------------------------------------
  // Orders that respect clashes

  ghost predicate DistinctIds<C(!new)>(os: seq<Op<C>>) {
    forall i, j :: 0 <= i < j < |os| ==> os[i].id != os[j].id
  }

  /** `done` performs some of the operations `subs`, each after all earlier ones it clashes with; what
      an operation writes it accesses. */
  ghost predicate Respects<C(!new)>(done: seq<Op<C>>, subs: seq<Op<C>>) {
    && DistinctIds(subs) && DistinctIds(done)
    && (forall i :: 0 <= i < |subs| ==> subs[i].writes <= subs[i].touches)
    && (forall l :: 0 <= l < |done| ==> done[l] in subs)
    && (forall i, j, l | 0 <= i < j < |subs| && OpsClash(subs[i], subs[j]) && 0 <= l < |done| && done[l] == subs[j]
          :: subs[i] in done[..l])
  }

  lemma ClashingKeepOrder<C(!new)>(done: seq<Op<C>>, subs: seq<Op<C>>, i: nat, j: nat, q: nat, l: nat)
    requires Respects(done, subs) && i < j < |subs| && OpsClash(subs[i], subs[j])
    requires q < |done| && l < |done| && done[q] == subs[i] && done[l] == subs[j]
    ensures q < l
  {
    assert subs[i] in done[..l];
    var q' :| 0 <= q' < l && done[q'] == subs[i];
  }

  /** The prefixes `done[..l]` and `subs[..j]` contain the same writers of `c`. */
  ghost predicate SameWriters<C(!new)>(done: seq<Op<C>>, l: int, subs: seq<Op<C>>, j: int, c: C)
    requires 0 <= l <= |done| && 0 <= j <= |subs|
  {
    forall o: Op<C> :: c in o.writes ==> (o in done[..l] <==> o in subs[..j])
  }

  lemma SameWritersBefore<C(!new)>(done: seq<Op<C>>, subs: seq<Op<C>>, l: nat, j: nat, c: C)
    requires Respects(done, subs) && l < |done| && j < |subs| && done[l] == subs[j] && c in subs[j].touches
    ensures SameWriters(done, l, subs, j, c)
  {
    forall o: Op<C> | c in o.writes ensures o in done[..l] <==> o in subs[..j] {
      if o in subs[..j] {
        var i :| 0 <= i < j && subs[i] == o;
        assert OpsClash(subs[i], subs[j]);
      }
      if o in done[..l] {
        var q :| 0 <= q < l && done[q] == o;
        var i :| 0 <= i < |subs| && subs[i] == o;
        if i > j {
          assert OpsClash(subs[j], subs[i]);
          ClashingKeepOrder(done, subs, j, i, l, q);
        }
        assert i < j;
        assert subs[..j][i] == o;
      }
    }
  }

  /** A writer inside a prefix is not after the prefix's last writer. */
  lemma WriterBound<C(!new)>(os: seq<Op<C>>, l: nat, o: Op<C>, c: C) returns (q: nat)
    requires l <= |os| && o in os[..l] && c in o.writes
    ensures q < l && os[q] == o && q <= LastWriter(os[..l], c)
  {
    q :| q < l && os[..l][q] == o;
  }

  /** The last writer is the same operation in both prefixes. */
  lemma SameLastWriter<C(!new)>(done: seq<Op<C>>, subs: seq<Op<C>>, l: nat, j: nat, c: C)
    requires Respects(done, subs) && l <= |done| && j <= |subs| && SameWriters(done, l, subs, j, c)
    ensures var wd, ws := LastWriter(done[..l], c), LastWriter(subs[..j], c);
            (wd < 0 <==> ws < 0) && (wd >= 0 ==> done[wd] == subs[ws])
  {
    var wd, ws := LastWriter(done[..l], c), LastWriter(subs[..j], c);
    if wd >= 0 {
      assert done[..l][wd] == done[wd];
      var i := WriterBound(subs, j, done[wd], c);
      assert subs[..j][ws] == subs[ws];
      var q := WriterBound(done, l, subs[ws], c);
      if i < ws {
        assert c in subs[ws].touches;
        assert OpsClash(subs[i], subs[ws]);
        ClashingKeepOrder(done, subs, i, ws, wd, q);
      }
    }
    if ws >= 0 { HasWriter(done, l, subs, j, c); }
  }

  lemma HasWriter<C(!new)>(done: seq<Op<C>>, l: nat, subs: seq<Op<C>>, j: nat, c: C)
    requires l <= |done| && j <= |subs| && SameWriters(done, l, subs, j, c) && LastWriter(subs[..j], c) >= 0
    ensures LastWriter(done[..l], c) >= 0
  {
    var q := WriterBound(done, l, subs[..j][LastWriter(subs[..j], c)], c);
  }

  /** Equal writers give equal contents. */
  lemma {:induction false} SameValue<C(!new), V>(
    k: Kernel<C, V>, mem: map<C, V>, done: seq<Op<C>>, subs: seq<Op<C>>, l: nat, j: nat, c: C)
    requires Respects(done, subs) && l <= |done| && j <= |subs| && c in mem && SameWriters(done, l, subs, j, c)
    ensures After(k, mem, done[..l])[c] == After(k, mem, subs[..j])[c]
    decreases l, 1
  {
    SameLastWriter(done, subs, l, j, c);
    ValueIsLastWrite(k, mem, done[..l], c);
    ValueIsLastWrite(k, mem, subs[..j], c);
    var wd, ws := LastWriter(done[..l], c), LastWriter(subs[..j], c);
    if wd >= 0 {
      SameInputs(k, mem, done, subs, wd, ws);
      PrefixOfPrefix(done, l, wd);
      PrefixOfPrefix(subs, j, ws);
    }
  }

  /** Every performed operation sees the inputs it sees in the given order. */
  lemma {:induction false} SameInputs<C(!new), V>(
    k: Kernel<C, V>, mem: map<C, V>, done: seq<Op<C>>, subs: seq<Op<C>>, l: nat, j: nat)
    requires Respects(done, subs) && l < |done| && j < |subs| && done[l] == subs[j]
    ensures Inputs(After(k, mem, done[..l]), done[l]) == Inputs(After(k, mem, subs[..j]), subs[j])
    decreases l, 2
  {
    forall c | c in mem && c in subs[j].touches ensures After(k, mem, done[..l])[c] == After(k, mem, subs[..j])[c] {
      SameWritersBefore(done, subs, l, j, c);
      SameValue(k, mem, done, subs, l, j, c);
    }
  }

  /** When everything is performed, the contents are the same. */
  lemma SameEnd<C(!new), V>(k: Kernel<C, V>, mem: map<C, V>, done: seq<Op<C>>, subs: seq<Op<C>>)
    requires Respects(done, subs) && forall o :: o in subs ==> o in done
    ensures After(k, mem, done) == After(k, mem, subs)
  {
    assert done[..|done|] == done && subs[..|subs|] == subs;
    forall c | c in mem ensures After(k, mem, done)[c] == After(k, mem, subs)[c] {
      assert SameWriters(done, |done|, subs, |subs|, c);
      SameValue(k, mem, done, subs, |done|, |subs|, c);
    }
  }
}
