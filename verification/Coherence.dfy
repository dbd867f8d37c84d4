/** The invalidation protocol between the copies of a buffer: page tables per device, copies made
    for memory requirements, and the contents they leave behind
    (src/runtime/dag_direct_scheduler.cpp, include/hipSYCL/runtime/data.hpp). */
module Coherence {
  import opened Geometry
  import opened PageElements
  import Builder

  type Mode = Builder.Mode

  /** A device copy: its outdated pages and its contents. */
  datatype Alloc<!V> = Alloc(dev: nat, invalid: iset<Vec3>, mem: Vec3 -> V)

  /** A buffer with its copies; `latest` is the content a program observes. */
  datatype Region<!V> = Region(elements: Vec3, ps: PageSize, allocs: seq<Alloc<V>>, latest: Vec3 -> V)

  /** A memory requirement: target device, access mode and element range. */
  datatype Req = Req(dev: nat, mode: Mode, acc: Rect)

  /** A requirement succeeds, or some transfer has no source; its pages are marked in both cases. */
  datatype Outcome<!V> = Done(region: Region<V>) | NoSource(region: Region<V>)

  predicate Discards(m: Mode) {
    m.DiscardWrite? || m.DiscardReadWrite?
  }

  ghost function Cells(r: Rect): iset<Vec3> {
    iset c | InRect(c, r)
  }

  ghost function Pages<V>(s: Region<V>, q: Req): Rect {
    PageRange(q.acc.first, q.acc.extent, s.ps)
  }

  ghost predicate HasAllocation<V>(allocs: seq<Alloc<V>>, dev: nat) {
    exists i :: 0 <= i < |allocs| && allocs[i].dev == dev
  }

  ghost predicate UniqueDevices<V>(allocs: seq<Alloc<V>>) {
    forall i, j :: 0 <= i < j < |allocs| ==> allocs[i].dev != allocs[j].dev
  }

  // ---------------------------------------------------------------------------------------------
  // submit_requirement

  /** ensure_allocation_exists: a new copy starts with every page outdated and arbitrary contents. */
  ghost function EnsureAllocation<V>(s: Region<V>, dev: nat, garbage: Vec3 -> V): Region<V> {
    if HasAllocation(s.allocs, dev) then s
    else s.(allocs := s.allocs + [Alloc(dev, AllPages(s), garbage)])
  }

  ghost function AllPages<V>(s: Region<V>): iset<Vec3> {
    iset p | InBounds(p, NumPages(s.elements, s.ps))
  }

  /** Position of the copy on `dev`. */
  ghost function CopyOn<V>(allocs: seq<Alloc<V>>, dev: nat): (i: nat)
    requires HasAllocation(allocs, dev)
    ensures i < |allocs| && allocs[i].dev == dev
  {
    var i :| 0 <= i < |allocs| && allocs[i].dev == dev;
    i
  }

  /** has_initialized_content: some copy has a valid page in the range. */
  ghost predicate HasInitializedContent<V>(allocs: seq<Alloc<V>>, pr: Rect) {
    exists i, p :: 0 <= i < |allocs| && InRect(p, pr) && p !in allocs[i].invalid
  }

  /** A page that no copy holds. */
  ghost predicate Uninitialized<V>(allocs: seq<Alloc<V>>, p: Vec3) {
    forall i :: 0 <= i < |allocs| ==> p in allocs[i].invalid
  }

  /** A copy on another device that is valid on the whole range. */
  ghost predicate Candidate<V>(a: Alloc<V>, dev: nat, pr: Rect) {
    a.dev != dev && forall p :: InRect(p, pr) ==> p !in a.invalid
  }

  /** The copy a transfer reads: the first other one on which all pages are valid, or -1. */
  ghost function Source<V>(allocs: seq<Alloc<V>>, dev: nat, pr: Rect, from: nat): (i: int)
    requires from <= |allocs|
    ensures -1 <= i < |allocs|
    ensures i >= 0 ==> Candidate(allocs[i], dev, pr)
    decreases |allocs| - from
  {
    if from == |allocs| then -1
    else if Candidate(allocs[from], dev, pr) then from
    else Source(allocs, dev, pr, from + 1)
  }

  /** The source is on another device and valid on all pages of the range, and no earlier copy is; without a source
      no copy is. */
  lemma {:induction false} SourceIsLeast<V>(allocs: seq<Alloc<V>>, dev: nat, pr: Rect, from: nat)
    requires from <= |allocs|
    ensures var i := Source(allocs, dev, pr, from);
            && (i >= 0 ==> i >= from && allocs[i].dev != dev && forall p :: InRect(p, pr) ==> p !in allocs[i].invalid)
            && forall j | from <= j < |allocs| && (i < 0 || j < i) ::
                 allocs[j].dev == dev || exists p :: InRect(p, pr) && p in allocs[j].invalid
    decreases |allocs| - from
  {
    if from < |allocs| { SourceIsLeast(allocs, dev, pr, from + 1); }
  }

  /** get_update_source_candidates: the devices of all candidates, in the order of the copies. */
  ghost function Candidates<V>(allocs: seq<Alloc<V>>, dev: nat, pr: Rect, from: nat): seq<nat>
    requires from <= |allocs|
    decreases |allocs| - from
  {
    if from == |allocs| then []
    else (if Candidate(allocs[from], dev, pr) then [allocs[from].dev] else []) + Candidates(allocs, dev, pr, from + 1)
  }

  /** The source is the first candidate. */
  lemma {:induction false} SourceIsFirst<V>(allocs: seq<Alloc<V>>, dev: nat, pr: Rect, from: nat)
    requires from <= |allocs|
    ensures var i, all := Source(allocs, dev, pr, from), Candidates(allocs, dev, pr, from);
            if i < 0 then all == [] else all != [] && all[0] == allocs[i].dev
    decreases |allocs| - from
  {
    if from < |allocs| { SourceIsFirst(allocs, dev, pr, from + 1); }
  }

  ghost function SourceOf<V>(s: Region<V>, dev: nat, rect: Rect): int {
    var el := ToElements(rect, s.elements, s.ps);
    Source(s.allocs, dev, PageRange(el.first, el.extent, s.ps), 0)
  }

  /** The transfer of the first outdated rectangle is executed. Later ones are not: a node that has
      been submitted is not submitted again. */
  ghost predicate FirstCopied<V>(s: Region<V>, q: Req, rects: seq<Rect>) {
    NeedsCopies(s, q) && rects != [] && SourceOf(s, q.dev, rects[0]) >= 0
  }

  /** Contents of the target copy after the transfers of a requirement. */
  ghost function AfterCopies<V>(s: Region<V>, q: Req, rects: seq<Rect>): Vec3 -> V
    requires HasAllocation(s.allocs, q.dev)
  {
    var mem := s.allocs[CopyOn(s.allocs, q.dev)].mem;
    if FirstCopied(s, q, rects) then
      var from, el := s.allocs[SourceOf(s, q.dev, rects[0])].mem, ToElements(rects[0], s.elements, s.ps);
      (e: Vec3) => if InRect(e, el) then from(e) else mem(e)
    else mem
  }

  ghost predicate NeedsCopies<V>(s: Region<V>, q: Req) {
    !Discards(q.mode) && HasInitializedContent(s.allocs, Pages(s, q))
  }

  /** mark_range_valid and mark_range_current on one copy. */
  ghost function Marked<V>(a: Alloc<V>, q: Req, pr: Rect, mem: Vec3 -> V): Alloc<V> {
    if a.dev == q.dev then Alloc(a.dev, a.invalid - Cells(pr), mem)
    else if q.mode.Read? then a
    else a.(invalid := a.invalid + Cells(pr))
  }

  /** What a program may observe after the requirement: a discarded range and pages never written
      take the contents of the target copy. */
  ghost function Observed<V>(s: Region<V>, q: Req, mem: Vec3 -> V): Vec3 -> V {
    (e: Vec3) =>
      if Redefined(s, q, e) then mem(e) else s.latest(e)
  }

  ghost predicate Redefined<V>(s: Region<V>, q: Req, e: Vec3) {
    InRect(PageOf(e, s.ps), Pages(s, q)) &&
    (Uninitialized(s.allocs, PageOf(e, s.ps)) || (Discards(q.mode) && InRect(e, q.acc)))
  }

  /** submit_requirement for a region that already has a copy on the target device. A missing source
      cancels the node, but the pages are marked all the same. */
  ghost function Submit<V>(s: Region<V>, q: Req, rects: seq<Rect>): Outcome<V>
    requires HasAllocation(s.allocs, q.dev)
  {
    var mem, pr := AfterCopies(s, q, rects), Pages(s, q);
    var s' := s.(allocs := seq(|s.allocs|, i requires 0 <= i < |s.allocs| => Marked(s.allocs[i], q, pr, mem)),
                 latest := Observed(s, q, mem));
    if NeedsCopies(s, q) && exists i :: 0 <= i < |rects| && SourceOf(s, q.dev, rects[i]) < 0 then NoSource(s')
      else Done(s')
  }

  // ---------------------------------------------------------------------------------------------
  // Coherence

  /** Every valid page of every copy has the latest contents. */
  ghost predicate Coherent<V>(s: Region<V>) {
    forall i, e :: 0 <= i < |s.allocs| && InBounds(e, s.elements) && PageOf(e, s.ps) !in s.allocs[i].invalid ==>
      s.allocs[i].mem(e) == s.latest(e)
  }

  /** The result of get_outdated_regions before conversion: an exact partition of the outdated pages
      of the access (see RangeStore.Store.IntersectionsWith). */
  ghost predicate OutdatedRects<V>(s: Region<V>, q: Req, rects: seq<Rect>)
    requires HasAllocation(s.allocs, q.dev)
  {
    var invalid := s.allocs[CopyOn(s.allocs, q.dev)].invalid;
    && (forall i, p :: 0 <= i < |rects| && InRect(p, rects[i]) ==> InRect(p, Pages(s, q)) && p in invalid)
    && (forall i, j, p :: 0 <= i < j < |rects| && InRect(p, rects[i]) ==> !InRect(p, rects[j]))
    && (forall i :: 0 <= i < |rects| ==> rects[i].extent.x > 0 && rects[i].extent.y > 0 && rects[i].extent.z > 0)
    && (forall p :: InRect(p, Pages(s, q)) && p in invalid ==> exists i :: 0 <= i < |rects| && InRect(p, rects[i]))
  }

  /** An accessed page may be declared valid on the target: it is valid there already, or nobody holds
      it, or the executed transfer brings it, or the access discards all of it. */
  ghost predicate Brought<V>(s: Region<V>, q: Req, rects: seq<Rect>, p: Vec3)
    requires HasAllocation(s.allocs, q.dev)
  {
    || p !in s.allocs[CopyOn(s.allocs, q.dev)].invalid
    || Uninitialized(s.allocs, p)
    || (FirstCopied(s, q, rects) && InRect(p, rects[0]))
    || (Discards(q.mode) && forall e :: InBounds(e, s.elements) && PageOf(e, s.ps) == p ==> InRect(e, q.acc))
  }

  ghost predicate Safe<V>(s: Region<V>, q: Req, rects: seq<Rect>)
    requires HasAllocation(s.allocs, q.dev)
  {
    forall p :: InRect(p, Pages(s, q)) ==> Brought(s, q, rects, p)
  }

  ghost predicate Wf<V>(s: Region<V>, q: Req) {
    HasAllocation(s.allocs, q.dev) && UniqueDevices(s.allocs) && AccessFits(q.acc, s.elements)
  }

  lemma CopyOnUnique<V>(allocs: seq<Alloc<V>>, dev: nat, i: nat)
    requires UniqueDevices(allocs) && i < |allocs| && allocs[i].dev == dev
    ensures CopyOn(allocs, dev) == i
  {
  }

  lemma RectFits<V>(s: Region<V>, q: Req, rects: seq<Rect>, i: nat)
    requires Wf(s, q) && OutdatedRects(s, q, rects) && i < |rects|
    ensures PagesFit(rects[i], s.elements, s.ps)
    ensures var el := ToElements(rects[i], s.elements, s.ps); PageRange(el.first, el.extent, s.ps) == rects[i]
  {
    var r := rects[i];
    var last := Vec3(r.first.x + r.extent.x - 1, r.first.y + r.extent.y - 1, r.first.z + r.extent.z - 1);
    assert InRect(last, rects[i]);
    assert InRect(last, Pages(s, q));
    AccessPagesExist(q.acc, s.elements, s.ps, last);
    PageRoundTrip(r, s.elements, s.ps);
  }

  /** A requirement that succeeds leaves no accessed page uninitialised beside initialised ones. */
  lemma NoMixedPages<V>(s: Region<V>, q: Req, rects: seq<Rect>, p: Vec3)
    requires Wf(s, q) && OutdatedRects(s, q, rects) && Submit(s, q, rects).Done? && NeedsCopies(s, q)
    requires InRect(p, Pages(s, q))
    ensures !Uninitialized(s.allocs, p)
  {
    if Uninitialized(s.allocs, p) {
      var i :| 0 <= i < |rects| && InRect(p, rects[i]);
      RectFits(s, q, rects, i);
    }
  }

  /** The executed transfer brings the latest contents of its pages, and nothing else changes. */
  lemma CopyBringsLatest<V>(s: Region<V>, q: Req, rects: seq<Rect>, e: Vec3)
    requires Wf(s, q) && OutdatedRects(s, q, rects) && Coherent(s) && InBounds(e, s.elements)
    ensures AfterCopies(s, q, rects)(e) ==
            if FirstCopied(s, q, rects) && InRect(PageOf(e, s.ps), rects[0]) then s.latest(e)
            else s.allocs[CopyOn(s.allocs, q.dev)].mem(e)
  {
    if FirstCopied(s, q, rects) {
      RectFits(s, q, rects, 0);
      CopyCoversPages(rects[0], s.elements, s.ps, e);
    }
  }

  /** Marking keeps a copy coherent when its contents are the latest on the pages it declares valid. */
  lemma TargetCoherent<V>(s: Region<V>, q: Req, rects: seq<Rect>, e: Vec3)
    requires Wf(s, q) && OutdatedRects(s, q, rects) && Coherent(s) && Safe(s, q, rects) && InBounds(e, s.elements)
    requires InRect(PageOf(e, s.ps), Pages(s, q)) || PageOf(e, s.ps) !in s.allocs[CopyOn(s.allocs, q.dev)].invalid
    ensures AfterCopies(s, q, rects)(e) == Observed(s, q, AfterCopies(s, q, rects))(e)
  {
    CopyBringsLatest(s, q, rects, e);
    if InRect(PageOf(e, s.ps), Pages(s, q)) {
      assert Brought(s, q, rects, PageOf(e, s.ps));
    }
  }

  /** Other copies stay coherent: pages whose contents are redefined are declared outdated there. */
  lemma OthersCoherent<V>(s: Region<V>, q: Req, rects: seq<Rect>, i: nat, e: Vec3)
    requires Wf(s, q) && Coherent(s) && i < |s.allocs| && s.allocs[i].dev != q.dev && InBounds(e, s.elements)
    requires PageOf(e, s.ps) !in Submit(s, q, rects).region.allocs[i].invalid
    ensures s.allocs[i].mem(e) == Observed(s, q, AfterCopies(s, q, rects))(e)
  {
    var a := Submit(s, q, rects).region.allocs[i];
    assert a == Marked(s.allocs[i], q, Pages(s, q), AfterCopies(s, q, rects));
    assert PageOf(e, s.ps) !in s.allocs[i].invalid;
    assert !Uninitialized(s.allocs, PageOf(e, s.ps));
  }

  lemma MarkedAllocs<V>(s: Region<V>, q: Req, rects: seq<Rect>)
    requires Wf(s, q)
    ensures var s' := Submit(s, q, rects).region;
            && |s'.allocs| == |s.allocs| && s'.elements == s.elements && s'.ps == s.ps
            && s'.latest == Observed(s, q, AfterCopies(s, q, rects)) && Wf(s', q)
            && CopyOn(s'.allocs, q.dev) == CopyOn(s.allocs, q.dev)
            && forall i :: 0 <= i < |s.allocs| ==>
              s'.allocs[i] == Marked(s.allocs[i], q, Pages(s, q), AfterCopies(s, q, rects))
  {
    var s', d := Submit(s, q, rects).region, CopyOn(s.allocs, q.dev);
    assert s'.allocs[d].dev == q.dev;
    CopyOnUnique(s'.allocs, q.dev, d);
  }

  /** Page coherence: a safe requirement keeps all valid copies current, makes the accessed pages valid
      and current on the target, keeps every initialised page valid somewhere, and leaves written
      pages valid on the target only. */
  lemma RequirementKeepsCoherence<V>(s: Region<V>, q: Req, rects: seq<Rect>)
    requires Wf(s, q) && OutdatedRects(s, q, rects) && Coherent(s) && Safe(s, q, rects)
    ensures var s' := Submit(s, q, rects).region;
            && Coherent(s') && Wf(s', q)
            && (forall p :: !Uninitialized(s.allocs, p) || InRect(p, Pages(s, q)) ==> !Uninitialized(s'.allocs, p))
            && (forall i, p | 0 <= i < |s'.allocs| && InRect(p, Pages(s, q))
                  :: if s'.allocs[i].dev == q.dev then p !in s'.allocs[i].invalid else !q.mode.Read? ==>
                    p in s'.allocs[i].invalid)
  {
    var s' := Submit(s, q, rects).region;
    MarkedAllocs(s, q, rects);
    forall i, e | 0 <= i < |s'.allocs| && InBounds(e, s'.elements) && PageOf(e, s'.ps) !in s'.allocs[i].invalid
      ensures s'.allocs[i].mem(e) == s'.latest(e)
    {
      if s.allocs[i].dev == q.dev {
        CopyOnUnique(s.allocs, q.dev, i);
        TargetCoherent(s, q, rects, e);
      } else {
        OthersCoherent(s, q, rects, i, e);
      }
    }
    forall p | !Uninitialized(s.allocs, p) || InRect(p, Pages(s, q)) ensures !Uninitialized(s'.allocs, p) {
      StaysInitialized(s, q, rects, p);
    }
  }

  /** A safe access that does not discard leaves the latest contents of all pages that somebody holds
      where they are, and brings them to the target. */
  lemma RequirementBringsLatest<V>(s: Region<V>, q: Req, rects: seq<Rect>, e: Vec3)
    requires Wf(s, q) && OutdatedRects(s, q, rects) && Coherent(s) && Safe(s, q, rects) && !Discards(q.mode)
    requires InBounds(e, s.elements) && InRect(e, q.acc) && !Uninitialized(s.allocs, PageOf(e, s.ps))
    ensures var s' := Submit(s, q, rects).region;
            Wf(s', q) && s'.allocs[CopyOn(s'.allocs, q.dev)].mem(e) == s'.latest(e) == s.latest(e)
  {
    MarkedAllocs(s, q, rects);
    ElementOnPage(e, q.acc, s.ps);
    TargetCoherent(s, q, rects, e);
  }

  /** By access mode: after a safe read, write, read-write or atomic access, every accessed element that somebody
      held has its latest contents on the target, whether the access was to read them or not. */
  lemma ModesBringLatest<V>(s: Region<V>, q: Req, rects: seq<Rect>, e: Vec3)
    requires Wf(s, q) && OutdatedRects(s, q, rects) && Coherent(s) && Safe(s, q, rects)
    requires q.mode == Builder.Read || q.mode == Builder.Write || q.mode == Builder.ReadWrite
             || q.mode == Builder.Atomic
    requires InBounds(e, s.elements) && InRect(e, q.acc) && !Uninitialized(s.allocs, PageOf(e, s.ps))
    ensures var s' := Submit(s, q, rects).region;
            Wf(s', q) && s'.allocs[CopyOn(s'.allocs, q.dev)].mem(e) == s'.latest(e) == s.latest(e)
  {
    RequirementBringsLatest(s, q, rects, e);
  }

  /** By access mode: a discarding access never copies, and what it accesses counts as written. */
  lemma DiscardsBringNothing<V>(s: Region<V>, q: Req, rects: seq<Rect>, e: Vec3)
    requires Wf(s, q) && (q.mode == Builder.DiscardWrite || q.mode == Builder.DiscardReadWrite)
    ensures Submit(s, q, rects).Done? && AfterCopies(s, q, rects)(e) == s.allocs[CopyOn(s.allocs, q.dev)].mem(e)
    ensures InRect(e, q.acc) ==> Submit(s, q, rects).region.latest(e) == s.allocs[CopyOn(s.allocs, q.dev)].mem(e)
  {
    if InRect(e, q.acc) { ElementOnPage(e, q.acc, s.ps); }
  }

  lemma StaysInitialized<V>(s: Region<V>, q: Req, rects: seq<Rect>, p: Vec3)
    requires Wf(s, q) && (!Uninitialized(s.allocs, p) || InRect(p, Pages(s, q)))
    ensures !Uninitialized(Submit(s, q, rects).region.allocs, p)
  {
    var s', d := Submit(s, q, rects).region, CopyOn(s.allocs, q.dev);
    if InRect(p, Pages(s, q)) {
      assert p !in s'.allocs[d].invalid;
    } else {
      var i :| 0 <= i < |s.allocs| && p !in s.allocs[i].invalid;
      assert p !in s'.allocs[i].invalid;
    }
  }

  // ---------------------------------------------------------------------------------------------
  // What safety means for a requirement that finds its sources

  /** Of a discarding access: every stale page it touches is covered, or held by nobody. */
  ghost predicate DiscardCovers<V>(s: Region<V>, q: Req, p: Vec3)
    requires HasAllocation(s.allocs, q.dev)
  {
    || p !in s.allocs[CopyOn(s.allocs, q.dev)].invalid
    || Uninitialized(s.allocs, p)
    || forall e :: InBounds(e, s.elements) && PageOf(e, s.ps) == p ==> InRect(e, q.acc)
  }

  lemma SecondIsNotBrought<V>(s: Region<V>, q: Req, rects: seq<Rect>)
    requires Wf(s, q) && OutdatedRects(s, q, rects) && Submit(s, q, rects).Done? && NeedsCopies(s, q) && |rects| >= 2
    ensures InRect(rects[1].first, Pages(s, q)) && !Brought(s, q, rects, rects[1].first)
  {
    var p := rects[1].first;
    assert InRect(p, rects[1]);
    NoMixedPages(s, q, rects, p);
  }

  lemma OnePieceIsBrought<V>(s: Region<V>, q: Req, rects: seq<Rect>, p: Vec3)
    requires Wf(s, q) && OutdatedRects(s, q, rects) && Submit(s, q, rects).Done? && !Discards(q.mode)
    requires InRect(p, Pages(s, q))
    requires NeedsCopies(s, q) ==> |rects| <= 1
    ensures Brought(s, q, rects, p)
  {
    if p in s.allocs[CopyOn(s.allocs, q.dev)].invalid && NeedsCopies(s, q) {
      var i :| 0 <= i < |rects| && InRect(p, rects[i]);
    }
  }

  /** A requirement that finds its sources is safe exactly when it needs at most one transfer, or
      discards and covers the stale pages it touches. */
  lemma SafeWhenDone<V>(s: Region<V>, q: Req, rects: seq<Rect>)
    requires Wf(s, q) && OutdatedRects(s, q, rects) && Submit(s, q, rects).Done?
    ensures Safe(s, q, rects) <==>
            if Discards(q.mode) then forall p :: InRect(p, Pages(s, q)) ==> DiscardCovers(s, q, p)
            else NeedsCopies(s, q) ==> |rects| <= 1
  {
    if Discards(q.mode) {
      forall p ensures Brought(s, q, rects, p) <==> DiscardCovers(s, q, p) { }
    } else if NeedsCopies(s, q) && |rects| >= 2 {
      SecondIsNotBrought(s, q, rects);
    } else {
      forall p | InRect(p, Pages(s, q)) ensures Brought(s, q, rects, p) { OnePieceIsBrought(s, q, rects, p); }
    }
  }

  // ---------------------------------------------------------------------------------------------
  // Safety is exactly what coherence needs

  /** Two regions that differ in contents only. */
  ghost predicate SameTables<V>(s: Region<V>, t: Region<V>) {
    && s.elements == t.elements && s.ps == t.ps && |s.allocs| == |t.allocs|
    && forall i :: 0 <= i < |s.allocs| ==>
      s.allocs[i].dev == t.allocs[i].dev && s.allocs[i].invalid == t.allocs[i].invalid
  }

  lemma {:induction false} SourceFromTables<V>(s: Region<V>, t: Region<V>, dev: nat, pr: Rect, from: nat)
    requires SameTables(s, t) && from <= |s.allocs|
    ensures Source(s.allocs, dev, pr, from) == Source(t.allocs, dev, pr, from)
    decreases |s.allocs| - from
  {
    if from < |s.allocs| { SourceFromTables(s, t, dev, pr, from + 1); }
  }

  lemma CopyFromTables<V>(s: Region<V>, t: Region<V>, q: Req)
    requires Wf(s, q) && SameTables(s, t)
    ensures Wf(t, q) && CopyOn(t.allocs, q.dev) == CopyOn(s.allocs, q.dev)
  {
    var d := CopyOn(s.allocs, q.dev);
    assert t.allocs[d].dev == q.dev;
    CopyOnUnique(t.allocs, q.dev, d);
  }

  lemma NeedsFromTables<V>(s: Region<V>, t: Region<V>, q: Req)
    requires SameTables(s, t)
    ensures NeedsCopies(s, q) == NeedsCopies(t, q)
  {
    if HasInitializedContent(s.allocs, Pages(s, q)) {
      var i, p :| 0 <= i < |s.allocs| && InRect(p, Pages(s, q)) && p !in s.allocs[i].invalid;
      assert p !in t.allocs[i].invalid;
    }
    if HasInitializedContent(t.allocs, Pages(t, q)) {
      var i, p :| 0 <= i < |t.allocs| && InRect(p, Pages(t, q)) && p !in t.allocs[i].invalid;
      assert p !in s.allocs[i].invalid;
    }
  }

  lemma FirstFromTables<V>(s: Region<V>, t: Region<V>, q: Req, rects: seq<Rect>)
    requires SameTables(s, t)
    ensures FirstCopied(s, q, rects) == FirstCopied(t, q, rects)
  {
    NeedsFromTables(s, t, q);
    if rects != [] {
      var el := ToElements(rects[0], s.elements, s.ps);
      SourceFromTables(s, t, q.dev, PageRange(el.first, el.extent, s.ps), 0);
    }
  }

  lemma UninitializedFromTables<V>(s: Region<V>, t: Region<V>, p: Vec3)
    requires SameTables(s, t)
    ensures Uninitialized(s.allocs, p) == Uninitialized(t.allocs, p)
  {
  }

  lemma OutdatedFromTables<V>(s: Region<V>, t: Region<V>, q: Req, rects: seq<Rect>)
    requires Wf(s, q) && SameTables(s, t)
    ensures Wf(t, q) && OutdatedRects(s, q, rects) == OutdatedRects(t, q, rects)
  {
    CopyFromTables(s, t, q);
    assert Pages(s, q) == Pages(t, q);
  }

  /** Which copies are made depends on the page tables only. */
  lemma TablesDecide<V>(s: Region<V>, t: Region<V>, q: Req, rects: seq<Rect>)
    requires Wf(s, q) && SameTables(s, t)
    ensures Wf(t, q) && CopyOn(t.allocs, q.dev) == CopyOn(s.allocs, q.dev)
    ensures FirstCopied(s, q, rects) == FirstCopied(t, q, rects)
    ensures forall p :: Uninitialized(s.allocs, p) == Uninitialized(t.allocs, p)
    ensures OutdatedRects(s, q, rects) == OutdatedRects(t, q, rects)
  {
    CopyFromTables(s, t, q);
    FirstFromTables(s, t, q, rects);
    OutdatedFromTables(s, t, q, rects);
    forall p ensures Uninitialized(s.allocs, p) == Uninitialized(t.allocs, p) { UninitializedFromTables(s, t, p); }
  }

  lemma SafeFromTables<V>(s: Region<V>, t: Region<V>, q: Req, rects: seq<Rect>)
    requires Wf(s, q) && SameTables(s, t)
    ensures Wf(t, q) && Safe(s, q, rects) == Safe(t, q, rects)
  {
    TablesDecide(s, t, q, rects);
    forall p ensures Brought(s, q, rects, p) == Brought(t, q, rects, p) { }
  }

  /** Contents in which exactly the outdated pages differ from the latest state. */
  ghost function Stale(s: Region<bool>): Region<bool> {
    s.(allocs := seq(|s.allocs|, i requires 0 <= i < |s.allocs| =>
                   Alloc(s.allocs[i].dev, s.allocs[i].invalid, (e: Vec3) => PageOf(e, s.ps) in s.allocs[i].invalid)),
       latest := (e: Vec3) => false)
  }

  /** An element whose page the target wrongly declares valid. */
  lemma StaleElement<V>(s: Region<V>, q: Req, rects: seq<Rect>) returns (e: Vec3)
    requires Wf(s, q) && OutdatedRects(s, q, rects) && !Safe(s, q, rects)
    ensures InBounds(e, s.elements) && InRect(PageOf(e, s.ps), Pages(s, q)) && !Redefined(s, q, e)
    ensures PageOf(e, s.ps) in s.allocs[CopyOn(s.allocs, q.dev)].invalid
    ensures !(FirstCopied(s, q, rects) && InRect(PageOf(e, s.ps), rects[0]))
  {
    var p :| InRect(p, Pages(s, q)) && !Brought(s, q, rects, p);
    if Discards(q.mode) {
      e :| InBounds(e, s.elements) && PageOf(e, s.ps) == p && !InRect(e, q.acc);
    } else {
      AccessPagesExist(q.acc, s.elements, s.ps, p);
      e := PageHasElement(p, s.elements, s.ps);
    }
  }

  /** A page declared valid on the target although one of its elements is stale there. */
  lemma BrokenAt<V>(s: Region<V>, q: Req, rects: seq<Rect>, e: Vec3)
    requires Wf(s, q) && InBounds(e, s.elements) && InRect(PageOf(e, s.ps), Pages(s, q)) && !Redefined(s, q, e)
    requires AfterCopies(s, q, rects)(e) != s.latest(e)
    ensures !Coherent(Submit(s, q, rects).region)
  {
    var s', d := Submit(s, q, rects).region, CopyOn(s.allocs, q.dev);
    MarkedAllocs(s, q, rects);
    assert s'.allocs[d].mem(e) != s'.latest(e) && PageOf(e, s'.ps) !in s'.allocs[d].invalid;
  }

  lemma StaleIsCoherent(s: Region<bool>)
    ensures SameTables(s, Stale(s)) && Coherent(Stale(s))
  {
  }

  lemma UnsafeBreaksCoherence(s: Region<bool>, q: Req, rects: seq<Rect>)
    requires Wf(s, q) && OutdatedRects(s, q, rects) && !Safe(s, q, rects)
    ensures SameTables(s, Stale(s)) && Coherent(Stale(s))
    ensures Wf(Stale(s), q) && !Coherent(Submit(Stale(s), q, rects).region)
  {
    var t := Stale(s);
    StaleIsCoherent(s);
    TablesDecide(s, t, q, rects);
    SafeFromTables(s, t, q, rects);
    var e := StaleElement(t, q, rects);
    CopyBringsLatest(t, q, rects, e);
    assert t.allocs[CopyOn(t.allocs, q.dev)].mem(e) && !t.latest(e);
    BrokenAt(t, q, rects, e);
  }

  /** A requirement keeps copies coherent whatever their contents exactly when it is safe. */
  lemma SafeIffCoherent(s: Region<bool>, q: Req, rects: seq<Rect>)
    requires Wf(s, q) && OutdatedRects(s, q, rects)
    ensures Safe(s, q, rects) <==>
            forall t :: SameTables(s, t) && Wf(t, q) && Coherent(t) ==> Coherent(Submit(t, q, rects).region)
  {
    if Safe(s, q, rects) {
      forall t | SameTables(s, t) && Wf(t, q) && Coherent(t) ensures Coherent(Submit(t, q, rects).region) {
        TablesDecide(s, t, q, rects);
        SafeFromTables(s, t, q, rects);
        RequirementKeepsCoherence(t, q, rects);
      }
    } else {
      UnsafeBreaksCoherence(s, q, rects);
    }
  }

  // ---------------------------------------------------------------------------------------------
  // Runs

  /** Buffer events in submission order: requirements, and the writes of the kernels they serve. */
  datatype Event<!V> =
    | Require(q: Req, rects: seq<Rect>, garbage: Vec3 -> V)
    | KernelWrite(q: Req, f: Vec3 -> V)

  ghost predicate Enabled<V>(s: Region<V>, e: Event<V>) {
    match e
    case Require(q, rects, garbage) =>
      var s1 := EnsureAllocation(s, q.dev, garbage);
      Wf(s1, q) && OutdatedRects(s1, q, rects) && Safe(s1, q, rects)
    case KernelWrite(q, f) => Wf(s, q) && !q.mode.Read? && Exclusive(s, q)
  }

  /** The target holds the only valid copy of the accessed pages. */
  ghost predicate Exclusive<V>(s: Region<V>, q: Req) {
    forall i, p | 0 <= i < |s.allocs| && InRect(p, Pages(s, q))
      :: if s.allocs[i].dev == q.dev then p !in s.allocs[i].invalid else p in s.allocs[i].invalid
  }

  ghost function Apply<V>(s: Region<V>, e: Event<V>): Region<V>
    requires Enabled(s, e)
  {
    match e
    case Require(q, rects, garbage) => Submit(EnsureAllocation(s, q.dev, garbage), q, rects).region
    case KernelWrite(q, f) => AfterKernel(s, q, f)
  }

  ghost function AfterKernel<V>(s: Region<V>, q: Req, f: Vec3 -> V): Region<V> {
    s.(allocs := seq(|s.allocs|, i requires 0 <= i < |s.allocs| => WrittenCopy(s.allocs[i], q, f)),
       latest := Written(s.latest, q.acc, f))
  }

  ghost function Written<V>(mem: Vec3 -> V, acc: Rect, f: Vec3 -> V): Vec3 -> V {
    (e: Vec3) => if InRect(e, acc) then f(e) else mem(e)
  }

  ghost function WrittenCopy<V>(a: Alloc<V>, q: Req, f: Vec3 -> V): Alloc<V> {
    if a.dev == q.dev then a.(mem := Written(a.mem, q.acc, f)) else a
  }

  ghost predicate IsRun<V>(s: Region<V>, events: seq<Event<V>>, s': Region<V>)
    decreases |events|
  {
    if events == [] then s' == s
    else Enabled(s, events[0]) && IsRun(Apply(s, events[0]), events[1..], s')
  }

  lemma EnsureKeepsCoherence<V>(s: Region<V>, dev: nat, garbage: Vec3 -> V)
    requires Coherent(s) && UniqueDevices(s.allocs)
    ensures Coherent(EnsureAllocation(s, dev, garbage)) && UniqueDevices(EnsureAllocation(s, dev, garbage).allocs)
    ensures s.allocs <= EnsureAllocation(s, dev, garbage).allocs
    ensures HasAllocation(EnsureAllocation(s, dev, garbage).allocs, dev)
    ensures !HasAllocation(s.allocs, dev) ==>
              forall p :: InBounds(p, NumPages(s.elements, s.ps)) ==>
                p in EnsureAllocation(s, dev, garbage).allocs[|s.allocs|].invalid
    ensures forall p :: !Uninitialized(s.allocs, p) ==> !Uninitialized(EnsureAllocation(s, dev, garbage).allocs, p)
  {
    var s1 := EnsureAllocation(s, dev, garbage);
    if !HasAllocation(s.allocs, dev) { assert s1.allocs[|s.allocs|].dev == dev; }
    forall i, e | 0 <= i < |s1.allocs| && InBounds(e, s1.elements) && PageOf(e, s1.ps) !in s1.allocs[i].invalid
      ensures s1.allocs[i].mem(e) == s1.latest(e)
    {
      if i == |s.allocs| {
        PageOfElementExists(e, s.elements, s.ps);
      }
    }
    forall p | !Uninitialized(s.allocs, p) ensures !Uninitialized(s1.allocs, p) {
      var i :| 0 <= i < |s.allocs| && p !in s.allocs[i].invalid;
      assert s1.allocs[i] == s.allocs[i];
    }
  }

  lemma PageOfElementExists(e: Vec3, elements: Vec3, ps: PageSize)
    requires InBounds(e, elements)
    ensures InBounds(PageOf(e, ps), NumPages(elements, ps))
  {
    ElementOnPage(e, Rect(Vec3(0, 0, 0), elements), ps);
  }

  /** A kernel that owns the accessed pages changes its copy and the latest contents alike. */
  lemma WrittenCopyIsLatest<V>(s: Region<V>, q: Req, f: Vec3 -> V, i: nat, e: Vec3)
    requires Exclusive(s, q) && i < |s.allocs| && PageOf(e, s.ps) !in s.allocs[i].invalid
    requires s.allocs[i].mem(e) == s.latest(e)
    ensures WrittenCopy(s.allocs[i], q, f).mem(e) == Written(s.latest, q.acc, f)(e)
  {
    if InRect(e, q.acc) {
      ElementOnPage(e, q.acc, s.ps);
      var p := PageOf(e, s.ps);
      assert InRect(p, Pages(s, q));
    }
  }

  lemma WriteKeepsCoherence<V>(s: Region<V>, q: Req, f: Vec3 -> V)
    requires Coherent(s) && Exclusive(s, q)
    ensures Coherent(AfterKernel(s, q, f))
  {
    var s' := AfterKernel(s, q, f);
    forall i: nat, e | i < |s'.allocs| && InBounds(e, s'.elements) && PageOf(e, s'.ps) !in s'.allocs[i].invalid
      ensures s'.allocs[i].mem(e) == s'.latest(e)
    {
      assert s'.allocs[i] == WrittenCopy(s.allocs[i], q, f);
      WrittenCopyIsLatest(s, q, f, i, e);
    }
  }

  /** In every reachable state all valid copies agree with the latest contents, and a page that was
      ever valid somewhere still is. */
  lemma {:induction false} RunIsCoherent<V>(s: Region<V>, events: seq<Event<V>>, s': Region<V>)
    requires Coherent(s) && UniqueDevices(s.allocs) && IsRun(s, events, s')
    ensures Coherent(s') && UniqueDevices(s'.allocs)
    ensures forall p :: !Uninitialized(s.allocs, p) ==> !Uninitialized(s'.allocs, p)
    decreases |events|
  {
    if events != [] {
      var s1 := Apply(s, events[0]);
      match events[0] {
        case Require(q, rects, garbage) =>
          EnsureKeepsCoherence(s, q.dev, garbage);
          RequirementKeepsCoherence(EnsureAllocation(s, q.dev, garbage), q, rects);
        case KernelWrite(q, f) =>
          WriteKeepsCoherence(s, q, f);
          assert forall i :: 0 <= i < |s.allocs| ==>
                 s1.allocs[i].dev == s.allocs[i].dev && s1.allocs[i].invalid == s.allocs[i].invalid;
          forall p | !Uninitialized(s.allocs, p) ensures !Uninitialized(s1.allocs, p) {
            var i :| 0 <= i < |s.allocs| && p !in s.allocs[i].invalid;
            assert p !in s1.allocs[i].invalid;
          }
      }
      RunIsCoherent(s1, events[1..], s');
    }
  }

  // ---------------------------------------------------------------------------------------------
  // Which copies transfers read and refill

  /** One requirement in terms of the tables only, as DeviceCopies.ValidAt, Protocol and CopyRaces.BringsAll
      have it: how the tables change, that the executed transfer brings outdated pages of the access
      from another copy on which they are valid, and that a safe access that does not discard gets
      every outdated page that somebody holds. */
  lemma RequirementByTables<V>(s: Region<V>, q: Req, rects: seq<Rect>)
    requires Wf(s, q) && OutdatedRects(s, q, rects)
    ensures var s' := Submit(s, q, rects).region;
            forall i, p | 0 <= i < |s.allocs| :: p !in s'.allocs[i].invalid <==>
              if InRect(p, Pages(s, q)) then s.allocs[i].dev == q.dev || (q.mode.Read? && p !in s.allocs[i].invalid)
              else p !in s.allocs[i].invalid
    ensures FirstCopied(s, q, rects) ==>
              var from, to := s.allocs[SourceOf(s, q.dev, rects[0])], s.allocs[CopyOn(s.allocs, q.dev)];
              && from.dev != q.dev
              && forall p | InRect(p, rects[0]) :: InRect(p, Pages(s, q)) && p in to.invalid && p !in from.invalid
    ensures Safe(s, q, rects) && !Discards(q.mode) ==>
              forall p | && InRect(p, Pages(s, q)) && p in s.allocs[CopyOn(s.allocs, q.dev)].invalid
                         && !Uninitialized(s.allocs, p)
                :: FirstCopied(s, q, rects) && InRect(p, rects[0])
  {
    MarkedAllocs(s, q, rects);
    if FirstCopied(s, q, rects) { RectFits(s, q, rects, 0); }
    if Safe(s, q, rects) && !Discards(q.mode) {
      forall p | && InRect(p, Pages(s, q)) && p in s.allocs[CopyOn(s.allocs, q.dev)].invalid
                 && !Uninitialized(s.allocs, p)
        ensures FirstCopied(s, q, rects) && InRect(p, rects[0])
      {
        assert Brought(s, q, rects, p);
      }
    }
  }

  /** Right after a read the first copy, if it was the target, is the source of every transfer of
      pages in that range, although the transfer into it may not have run yet. */
  lemma ReadBecomesSource<V>(s: Region<V>, q: Req, rects: seq<Rect>, dev: nat, pr: Rect)
    requires Wf(s, q) && q.mode.Read? && s.allocs[0].dev == q.dev != dev
    requires forall p :: InRect(p, pr) ==> InRect(p, Pages(s, q))
    ensures Source(Submit(s, q, rects).region.allocs, dev, pr, 0) == 0
  {
    var s' := Submit(s, q, rects).region;
    assert s'.allocs[0] == Marked(s.allocs[0], q, Pages(s, q), AfterCopies(s, q, rects));
  }

  /** The event declares page `p` outdated on the other devices than its own. */
  ghost predicate Outdates<V>(s: Region<V>, e: Event<V>, dev: nat, p: Vec3) {
    e.Require? && !e.q.mode.Read? && e.q.dev != dev && InRect(p, PageRange(e.q.acc.first, e.q.acc.extent, s.ps))
  }

  lemma StepKeepsCopy<V>(s: Region<V>, e: Event<V>, i: nat, p: Vec3)
    requires Enabled(s, e) && i < |s.allocs|
    ensures i < |Apply(s, e).allocs| && Apply(s, e).allocs[i].dev == s.allocs[i].dev && Apply(s, e).ps == s.ps
    ensures p !in s.allocs[i].invalid && !Outdates(s, e, s.allocs[i].dev, p) ==> p !in Apply(s, e).allocs[i].invalid
  {
  }

  /** A copy needs a page again only after a requirement on another device has claimed it for writing
      in between. */
  lemma {:induction false} RefillNeedsWrite<V>(
    s: Region<V>, events: seq<Event<V>>, s': Region<V>, i: nat, p: Vec3)
    returns (k: nat)
    requires IsRun(s, events, s') && i < |s.allocs| && i < |s'.allocs|
    requires p !in s.allocs[i].invalid && p in s'.allocs[i].invalid
    ensures k < |events| && Outdates(s, events[k], s.allocs[i].dev, p)
    decreases |events|
  {
    StepKeepsCopy(s, events[0], i, p);
    if Outdates(s, events[0], s.allocs[i].dev, p) {
      k := 0;
    } else {
      var rest := RefillNeedsWrite(Apply(s, events[0]), events[1..], s', i, p);
      k := rest + 1;
    }
  }
}
