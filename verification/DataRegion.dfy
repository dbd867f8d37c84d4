/** The buffer object whose page tables the scheduler reads and updates, step by step as
    submit_requirement does, proved against the protocol of module Coherence
    (include/hipSYCL/runtime/data.hpp, src/runtime/dag_direct_scheduler.cpp). */
module DataRegion {
  import opened Geometry
  import opened PageElements
  import opened Coherence
  import RangeStore

  /** A copy on a device with the table of its outdated pages. */
  datatype Allocation = Allocation(dev: nat, invalidPages: RangeStore.Store)

  /** A transfer into the target copy: source device and element range. */
  datatype Transfer = Transfer(from: nat, what: Rect)

  lemma AccessFitsTable(acc: Rect, elements: Vec3, ps: PageSize)
    requires AccessFits(acc, elements)
    ensures RangeStore.Fits(PageRange(acc.first, acc.extent, ps), NumPages(elements, ps))
  {
    forall p | InRect(p, PageRange(acc.first, acc.extent, ps)) ensures InBounds(p, NumPages(elements, ps)) {
      AccessPagesExist(acc, elements, ps, p);
    }
  }

  lemma MarkedInvalid<V>(a: Alloc<V>, q: Req, pr: Rect, mem: Vec3 -> V, after: iset<Vec3>)
    requires forall p :: p in after <==> if !InRect(p, pr) then p in a.invalid
                                          else if a.dev == q.dev then false
                                          else !q.mode.Read? || p in a.invalid
    ensures Marked(a, q, pr, mem).invalid == after
  {
  }

  class BufferRegion {
    const elements: Vec3
    const ps: PageSize
    var allocations: seq<Allocation>

    ghost predicate Valid()
      reads this
    {
      && (forall i | 0 <= i < |allocations| ::
        allocations[i].invalidPages.Valid() && allocations[i].invalidPages.size == NumPages(elements, ps))
      && (forall i, j | 0 <= i < j < |allocations| ::
            && allocations[i].dev != allocations[j].dev
            && allocations[i].invalidPages.data != allocations[j].invalidPages.data)
    }

    ghost function Tables(): set<array<bool>>
      reads this
    {
      set i | 0 <= i < |allocations| :: allocations[i].invalidPages.data
    }

    ghost function Invalid(i: nat): iset<Vec3>
      requires i < |allocations|
      reads this, allocations[i].invalidPages.data
    {
      allocations[i].invalidPages.Available()
    }

    /** The object holds the devices and page tables of `s`. */
    ghost predicate Represents<V>(s: Region<V>)
      reads this, Tables()
    {
      && s.elements == elements && s.ps == ps && |s.allocs| == |allocations|
      && forall i :: 0 <= i < |allocations| ==>
        s.allocs[i].dev == allocations[i].dev && s.allocs[i].invalid == Invalid(i)
    }

    constructor (elements: Vec3, ps: PageSize)
      ensures Valid() && this.elements == elements && this.ps == ps && allocations == []
    {
      this.elements, this.ps, allocations := elements, ps, [];
    }

    /** Position of the allocation on `dev`, or the number of allocations. */
    method Select(dev: nat) returns (k: nat)
      requires Valid()
      ensures k <= |allocations| && (k < |allocations| ==> allocations[k].dev == dev)
      ensures k == |allocations| ==> forall i :: 0 <= i < |allocations| ==> allocations[i].dev != dev
    {
      k := 0;
      while k < |allocations| && allocations[k].dev != dev
        invariant k <= |allocations|
        invariant forall i :: 0 <= i < k ==> allocations[i].dev != dev
      {
        k := k + 1;
      }
    }

    /** ensure_allocation_exists with add_empty_allocation: every page of a new copy is outdated. */
    method EnsureAllocationExists<V>(dev: nat, ghost s: Region<V>, ghost garbage: Vec3 -> V)
      requires Valid() && Represents(s)
      modifies this`allocations
      ensures Valid() && Represents(EnsureAllocation(s, dev, garbage))
      ensures HasAllocation(EnsureAllocation(s, dev, garbage).allocs, dev)
      ensures forall a :: a in Tables() ==> a in old(Tables()) || fresh(a)
    {
      var k := Select(dev);
      if k == |allocations| {
        assert !HasAllocation(s.allocs, dev);
        var pages := new RangeStore.Store(NumPages(elements, ps));
        var all := Rect(Vec3(0, 0, 0), NumPages(elements, ps));
        pages.Add(all);
        assert pages.Available() == AllPages(s);
        allocations := allocations + [Allocation(dev, pages)];
        assert EnsureAllocation(s, dev, garbage).allocs[|s.allocs|].dev == dev;
      } else {
        assert s.allocs[k].dev == dev;
      }
    }

    /** mark_range_valid and mark_range_current: the pages of `pr` become valid on `dev` and, unless
        the access is a read, outdated everywhere else. */
    method Mark(dev: nat, acc: Rect, read: bool)
      requires Valid() && AccessFits(acc, elements)
      modifies Tables()
      ensures forall i, p | 0 <= i < |allocations| ::
                p in Invalid(i) <==> if !InRect(p, PageRange(acc.first, acc.extent, ps)) then p in old(Invalid(i))
                                     else if allocations[i].dev == dev then false
                                     else !read || p in old(Invalid(i))
    {
      var pr := PageRange(acc.first, acc.extent, ps);
      AccessFitsTable(acc, elements, ps);
      for k := 0 to |allocations|
        invariant forall i, p | k <= i < |allocations| :: p in Invalid(i) <==> p in old(Invalid(i))
        invariant forall i, p | 0 <= i < k ::
                    p in Invalid(i) <==> if !InRect(p, pr) then p in old(Invalid(i))
                                         else if allocations[i].dev == dev then false
                                         else !read || p in old(Invalid(i))
      {
        if allocations[k].dev == dev {
          allocations[k].invalidPages.Remove(pr);
        } else if !read {
          allocations[k].invalidPages.Add(pr);
        }
      }
    }

    method HasInitialized<V>(acc: Rect, ghost s: Region<V>) returns (b: bool)
      requires Valid() && Represents(s) && AccessFits(acc, elements)
      ensures b == HasInitializedContent(s.allocs, PageRange(acc.first, acc.extent, ps))
    {
      var pr := PageRange(acc.first, acc.extent, ps);
      AccessFitsTable(acc, elements, ps);
      for k := 0 to |allocations|
        invariant forall i, p | 0 <= i < k && InRect(p, pr) :: p in s.allocs[i].invalid
      {
        var filled := allocations[k].invalidPages.EntireRangeEquals(pr, true);
        if !filled {
          assert exists p :: InRect(p, pr) && p !in s.allocs[k].invalid;
          return true;
        }
      }
      b := false;
    }

    /** get_update_source_candidates: all other copies that are valid on the whole range, in order. */
    method UpdateSources<V>(dev: nat, what: Rect, ghost s: Region<V>) returns (sources: seq<nat>)
      requires Valid() && Represents(s) && AccessFits(what, elements)
      ensures sources == Candidates(s.allocs, dev, PageRange(what.first, what.extent, ps), 0)
    {
      var pr := PageRange(what.first, what.extent, ps);
      AccessFitsTable(what, elements, ps);
      sources := [];
      ghost var all := Candidates(s.allocs, dev, pr, 0);
      for k := 0 to |allocations|
        invariant sources + Candidates(s.allocs, dev, pr, k) == all
      {
        var usable := false;
        if allocations[k].dev != dev {
          usable := allocations[k].invalidPages.EntireRangeEquals(pr, false);
        }
        CandidatesStep(s.allocs, dev, pr, k, sources);
        assert usable <==> Candidate(s.allocs[k], dev, pr);
        if usable {
          sources := sources + [allocations[k].dev];
        }
      }
    }

    static lemma CandidatesStep<V>(allocs: seq<Alloc<V>>, dev: nat, pr: Rect, k: nat, before: seq<nat>)
      requires k < |allocs|
      ensures before + Candidates(allocs, dev, pr, k) ==
              (if Candidate(allocs[k], dev, pr) then before + [allocs[k].dev]
                else before) + Candidates(allocs, dev, pr, k + 1)
    {
    }

    /** All accessed pages are outdated on the target. */
    static ghost predicate AllOutdated<V>(s: Region<V>, q: Req)
      requires HasAllocation(s.allocs, q.dev)
    {
      && RangeStore.NonEmpty(Pages(s, q))
      && forall p :: InRect(p, Pages(s, q)) ==> p in s.allocs[CopyOn(s.allocs, q.dev)].invalid
    }

    /** get_outdated_regions before the conversion to elements. */
    method OutdatedPages<V>(q: Req, ghost s: Region<V>) returns (rects: seq<Rect>)
      requires Valid() && Represents(s) && Wf(s, q)
      ensures OutdatedRects(s, q, rects)
      ensures AllOutdated(s, q) ==> rects == [Pages(s, q)]
    {
      var k := Select(q.dev);
      assert k < |allocations|;
      CopyOnUnique(s.allocs, q.dev, k);
      AccessFitsTable(q.acc, elements, ps);
      rects := allocations[k].invalidPages.IntersectionsWith(PageRange(q.acc.first, q.acc.extent, ps), true);
      PartsAreOutdated(s, q, rects);
    }

    static lemma PartsAreOutdated<V>(s: Region<V>, q: Req, rects: seq<Rect>)
      requires HasAllocation(s.allocs, q.dev)
      requires var invalid := s.allocs[CopyOn(s.allocs, q.dev)].invalid;
               && RangeStore.Store.Parts(Pages(s, q), true, invalid, rects)
               && forall c :: InRect(c, Pages(s, q)) && c in invalid ==> RangeStore.Covered(rects, c)
      ensures OutdatedRects(s, q, rects)
    {
      assert forall i :: 0 <= i < |rects| ==> RangeStore.NonEmpty(rects[i]);
    }

    /** The transfer for one outdated rectangle, from its first source. */
    method TransferFor<V>(q: Req, rect: Rect, ghost s: Region<V>) returns (found: bool, t: Transfer)
      requires Valid() && Represents(s)
      ensures found <==> SourceOf(s, q.dev, rect) >= 0
      ensures found ==> IsTransfer(s, q, rect, t)
    {
      var el := ToElements(rect, elements, ps);
      var sources := UpdateSources(q.dev, el, s);
      SourceIsFirst(s.allocs, q.dev, PageRange(el.first, el.extent, ps), 0);
      found := sources != [];
      t := Transfer(if found then sources[0] else q.dev, el);
    }

    /** The transfers of the explicit operations: one per outdated rectangle, each from the first
        source, up to the first rectangle without a source. */
    method PlanTransfers<V>(q: Req, ghost s: Region<V>) returns (ok: bool, transfers: seq<Transfer>, rects: seq<Rect>)
      requires Valid() && Represents(s) && Wf(s, q)
      ensures OutdatedRects(s, q, rects) && (AllOutdated(s, q) ==> rects == [Pages(s, q)])
      ensures ok <==> forall i :: 0 <= i < |rects| ==> SourceOf(s, q.dev, rects[i]) >= 0
      ensures |transfers| <= |rects| && forall i | 0 <= i < |transfers| :: IsTransfer(s, q, rects[i], transfers[i])
      ensures if ok then |transfers| == |rects| else |transfers| < |rects| && SourceOf(s, q.dev, rects[|transfers|]) < 0
    {
      rects := OutdatedPages(q, s);
      ok, transfers := TransfersFor(q, rects, s);
    }

    /** The loop over the outdated rectangles. */
    method TransfersFor<V>(q: Req, rects: seq<Rect>, ghost s: Region<V>) returns (ok: bool, transfers: seq<Transfer>)
      requires Valid() && Represents(s)
      ensures ok <==> forall i :: 0 <= i < |rects| ==> SourceOf(s, q.dev, rects[i]) >= 0
      ensures |transfers| <= |rects| && forall i | 0 <= i < |transfers| :: IsTransfer(s, q, rects[i], transfers[i])
      ensures if ok then |transfers| == |rects| else |transfers| < |rects| && SourceOf(s, q.dev, rects[|transfers|]) < 0
    {
      transfers := [];
      for k := 0 to |rects|
        invariant |transfers| == k
        invariant forall i :: 0 <= i < k ==>
                  SourceOf(s, q.dev, rects[i]) >= 0 && IsTransfer(s, q, rects[i], transfers[i])
      {
        var found, t := TransferFor(q, rects[k], s);
        if !found {
          ok := false;
          return;
        }
        transfers := transfers + [t];
      }
      ok := true;
    }

    static ghost predicate IsTransfer<V>(s: Region<V>, q: Req, rect: Rect, t: Transfer) {
      var from := SourceOf(s, q.dev, rect);
      from >= 0 && t == Transfer(s.allocs[from].dev, ToElements(rect, s.elements, s.ps))
    }

    /** The page tables after marking are those of the protocol. */
    method MarkPages<V>(q: Req, ghost s: Region<V>, ghost rects: seq<Rect>)
      requires Valid() && Represents(s) && Wf(s, q)
      modifies Tables()
      ensures Represents(Submit(s, q, rects).region)
    {
      Mark(q.dev, q.acc, q.mode.Read?);
      ghost var s', mem := Submit(s, q, rects).region, AfterCopies(s, q, rects);
      forall i | 0 <= i < |allocations|
        ensures s'.allocs[i].dev == allocations[i].dev && s'.allocs[i].invalid == Invalid(i)
      {
        assert s'.allocs[i] == Marked(s.allocs[i], q, Pages(s, q), mem);
        MarkedInvalid(s.allocs[i], q, Pages(s, q), mem, Invalid(i));
      }
    }

    /** What a requirement needs: nothing when it discards or nobody holds its pages; otherwise one
        transfer per outdated rectangle, up to the first one without a source. */
    ghost predicate IsPlan<V>(s: Region<V>, q: Req, ok: bool, transfers: seq<Transfer>, rects: seq<Rect>)
      requires Wf(s, q)
    {
      && (NeedsCopies(s, q) ==> OutdatedRects(s, q, rects))
      && ok == Submit(s, q, rects).Done?
      && (!NeedsCopies(s, q) ==> transfers == [])
      && (NeedsCopies(s, q) && ok ==> |transfers| == |rects|)
      && (!ok ==> |transfers| < |rects| && SourceOf(s, q.dev, rects[|transfers|]) < 0)
      && |transfers| <= |rects| && forall i | 0 <= i < |transfers| :: IsTransfer(s, q, rects[i], transfers[i])
    }

    /** The plan by access mode. Discarding modes need no transfer. The others need one transfer per outdated
        rectangle if some accessed page is valid anywhere, a single one if all of them are outdated on
        the target, and none if no accessed page is valid anywhere. */
    static ghost predicate PlanByMode<V>(s: Region<V>, q: Req, ok: bool, transfers: seq<Transfer>, rects: seq<Rect>)
      requires HasAllocation(s.allocs, q.dev)
    {
      match q.mode
      case DiscardWrite => ok && transfers == []
      case DiscardReadWrite => ok && transfers == []
      case Read => Brings(s, q, ok, transfers, rects)
      case Write => Brings(s, q, ok, transfers, rects)
      case ReadWrite => Brings(s, q, ok, transfers, rects)
      case Atomic => Brings(s, q, ok, transfers, rects)
    }

    static ghost predicate Brings<V>(s: Region<V>, q: Req, ok: bool, transfers: seq<Transfer>, rects: seq<Rect>)
      requires HasAllocation(s.allocs, q.dev)
    {
      if exists i, p :: 0 <= i < |s.allocs| && InRect(p, Pages(s, q)) && p !in s.allocs[i].invalid then
        && OutdatedRects(s, q, rects) && |transfers| <= |rects| && (ok <==> |transfers| == |rects|)
        && (AllOutdated(s, q) ==> |rects| == 1)
        && forall i | 0 <= i < |transfers| :: IsTransfer(s, q, rects[i], transfers[i])
      else ok && transfers == []
    }

    method Plan<V>(q: Req, ghost s: Region<V>) returns (ok: bool, transfers: seq<Transfer>, rects: seq<Rect>)
      requires Valid() && Represents(s) && Wf(s, q)
      ensures IsPlan(s, q, ok, transfers, rects) && PlanByMode(s, q, ok, transfers, rects)
    {
      ok, transfers, rects := true, [], [];
      if !Discards(q.mode) {
        var initialized := HasInitialized(q.acc, s);
        if initialized {
          ok, transfers, rects := PlanTransfers(q, s);
        }
      }
    }

    /** submit_requirement: allocate, decide on transfers, and mark the pages. The transfers and the
        new page tables are those of the protocol; the pages are marked even if a source is missing. */
    method SubmitRequirement<V>(q: Req, ghost s: Region<V>, ghost garbage: Vec3 -> V)
      returns (ok: bool, transfers: seq<Transfer>, rects: seq<Rect>)
      requires Valid() && Represents(s) && AccessFits(q.acc, elements)
      modifies this`allocations, Tables()
      ensures Valid()
      ensures var s1 := EnsureAllocation(s, q.dev, garbage);
              && Wf(s1, q) && IsPlan(s1, q, ok, transfers, rects) && PlanByMode(s1, q, ok, transfers, rects)
              && Represents(Submit(s1, q, rects).region)
    {
      EnsureAllocationExists(q.dev, s, garbage);
      ghost var s1 := EnsureAllocation(s, q.dev, garbage);
      assert Wf(s1, q);
      ok, transfers, rects := Plan(q, s1);
      MarkPages(q, s1, rects);
    }
  }
}
