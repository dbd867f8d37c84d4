/** Requirements that break coherence: a discard of part of a page, a second transfer that is not
    executed, and a transfer without a source. The first two succeed. */
module CoherenceCases {
  import opened Geometry
  import opened PageElements
  import opened Coherence
  import Builder

  const Page0: Vec3 := Vec3(0, 0, 0)
  const Page2: Vec3 := Vec3(0, 0, 2)
  const Unit: Vec3 := Vec3(1, 1, 1)

  ghost function Constant(b: bool): Vec3 -> bool {
    (e: Vec3) => b
  }

  // ---------------------------------------------------------------------------------------------
  // A discarding access that covers a page in part

  /** Element `e` is stale on the target, valid in copy `i`, and not covered by the discarding access
      although its page is accessed. */
  ghost predicate PartlyDiscarded<V>(s: Region<V>, q: Req, e: Vec3, i: nat) {
    && Wf(s, q) && Discards(q.mode) && InBounds(e, s.elements) && !InRect(e, q.acc) && i < |s.allocs|
    && InRect(PageOf(e, s.ps), Pages(s, q))
    && PageOf(e, s.ps) in s.allocs[CopyOn(s.allocs, q.dev)].invalid && PageOf(e, s.ps) !in s.allocs[i].invalid
    && s.allocs[CopyOn(s.allocs, q.dev)].mem(e) != s.latest(e)
  }

  lemma PartlyDiscardedBreaks<V>(s: Region<V>, q: Req, rects: seq<Rect>, e: Vec3, i: nat)
    requires PartlyDiscarded(s, q, e, i)
    ensures Submit(s, q, rects).Done? && !Safe(s, q, rects) && !Coherent(Submit(s, q, rects).region)
  {
    assert !Brought(s, q, rects, PageOf(e, s.ps));
    BrokenAt(s, q, rects, e);
  }

  /** One page of two elements: the host copy is valid, the device copy outdated. */
  ghost function HalfPage(): Region<bool> {
    Region(Vec3(1, 1, 2), Vec3(1, 1, 2), [Alloc(0, iset{}, Constant(false)), Alloc(1, iset{Page0}, Constant(true))],
           Constant(false))
  }

  /** A discarding write of the first element on the device. */
  const FirstElement: Req := Req(1, Builder.DiscardWrite, Rect(Page0, Unit))

  lemma HalfPageCopies()
    ensures Wf(HalfPage(), FirstElement) && CopyOn(HalfPage().allocs, 1) == 1
  {
    assert HalfPage().allocs[1].dev == 1;
    CopyOnUnique(HalfPage().allocs, 1, 1);
  }

  lemma HalfPageAccessed()
    ensures InRect(PageOf(Vec3(0, 0, 1), HalfPage().ps), Pages(HalfPage(), FirstElement))
  {
    OnlyPage(Vec3(0, 0, 0));
    OnlyPage(Vec3(0, 0, 1));
    ElementOnPage(Vec3(0, 0, 0), FirstElement.acc, HalfPage().ps);
  }

  lemma HalfPageTables()
    ensures PageOf(Vec3(0, 0, 1), HalfPage().ps) in HalfPage().allocs[1].invalid
    ensures PageOf(Vec3(0, 0, 1), HalfPage().ps) !in HalfPage().allocs[0].invalid
  {
    OnlyPage(Vec3(0, 0, 1));
  }

  lemma HalfPageIsPartlyDiscarded()
    ensures PartlyDiscarded(HalfPage(), FirstElement, Vec3(0, 0, 1), 0)
  {
    HalfPageCopies();
    HalfPageAccessed();
    HalfPageTables();
  }

  lemma OnlyPage(e: Vec3)
    requires InBounds(e, Vec3(1, 1, 2))
    ensures PageOf(e, Vec3(1, 1, 2)) == Page0
  {
  }

  lemma HalfPageCoherent()
    ensures Coherent(HalfPage())
  {
    var s := HalfPage();
    forall i, e | 0 <= i < 2 && InBounds(e, s.elements) && PageOf(e, s.ps) !in s.allocs[i].invalid
      ensures s.allocs[i].mem(e) == s.latest(e)
    {
      if i == 1 { OnlyPage(e); }
    }
  }

  /** If all pages of the access are outdated on the target, they form one rectangle. */
  lemma AllOutdated<V>(s: Region<V>, q: Req, r: Rect)
    requires HasAllocation(s.allocs, q.dev) && Pages(s, q) == r && r.extent.x > 0 && r.extent.y > 0 && r.extent.z > 0
    requires forall p :: InRect(p, r) ==> p in s.allocs[CopyOn(s.allocs, q.dev)].invalid
    ensures OutdatedRects(s, q, [r])
  {
    var rects := [r];
    forall p | InRect(p, Pages(s, q)) ensures exists i :: 0 <= i < |rects| && InRect(p, rects[i]) {
      assert InRect(p, rects[0]);
    }
  }

  lemma HalfPageOutdated()
    ensures HasAllocation(HalfPage().allocs, 1) && OutdatedRects(HalfPage(), FirstElement, [Rect(Page0, Unit)])
  {
    HalfPageCopies();
    AllOutdated(HalfPage(), FirstElement, Rect(Page0, Unit));
  }

  /** The requirement succeeds, and declares the untouched second element valid on the device. */
  lemma HalfPageBreaks()
    ensures Wf(HalfPage(), FirstElement) && OutdatedRects(HalfPage(), FirstElement, [Rect(Page0, Unit)])
    ensures Submit(HalfPage(), FirstElement, [Rect(Page0, Unit)]).Done?
    ensures !Safe(HalfPage(), FirstElement, [Rect(Page0, Unit)])
    ensures Coherent(HalfPage()) && !Coherent(Submit(HalfPage(), FirstElement, [Rect(Page0, Unit)]).region)
  {
    HalfPageIsPartlyDiscarded();
    HalfPageOutdated();
    HalfPageCoherent();
    PartlyDiscardedBreaks(HalfPage(), FirstElement, [Rect(Page0, Unit)], Vec3(0, 0, 1), 0);
  }

  // ---------------------------------------------------------------------------------------------
  // An access that needs two transfers

  /** Element `e` lies on an accessed page of the second rectangle, valid in copy `i`, and is stale on
      the target after the first transfer. */
  ghost predicate NeedsSecond<V>(s: Region<V>, q: Req, rects: seq<Rect>, e: Vec3, i: nat) {
    && Wf(s, q) && NeedsCopies(s, q) && |rects| >= 2 && (forall k | 0 <= k < |rects| ::
      SourceOf(s, q.dev, rects[k]) >= 0)
    && InBounds(e, s.elements) && InRect(PageOf(e, s.ps), Pages(s, q))
      && !InRect(e, ToElements(rects[0], s.elements, s.ps))
    && PageOf(e, s.ps) in s.allocs[CopyOn(s.allocs, q.dev)].invalid && !InRect(PageOf(e, s.ps), rects[0])
    && i < |s.allocs| && PageOf(e, s.ps) !in s.allocs[i].invalid
      && s.allocs[CopyOn(s.allocs, q.dev)].mem(e) != s.latest(e)
  }

  lemma NeedsSecondBreaks<V>(s: Region<V>, q: Req, rects: seq<Rect>, e: Vec3, i: nat)
    requires NeedsSecond(s, q, rects, e, i)
    ensures Submit(s, q, rects).Done? && !Safe(s, q, rects) && !Coherent(Submit(s, q, rects).region)
  {
    assert !Brought(s, q, rects, PageOf(e, s.ps));
    BrokenAt(s, q, rects, e);
  }

  /** Three pages of one element: the host copy is valid, the device copy on the middle page only. */
  ghost function Gap(): Region<bool> {
    Region(Vec3(1, 1, 3), Unit, [Alloc(0, iset{}, Constant(false)), Alloc(1, iset{Page0, Page2}, Ends())],
      Constant(false))
  }

  ghost function Ends(): Vec3 -> bool {
    (e: Vec3) => e == Page0 || e == Page2
  }

  const ReadAll: Req := Req(1, Builder.Read, Rect(Page0, Vec3(1, 1, 3)))
  const GapRects: seq<Rect> := [Rect(Page0, Unit), Rect(Page2, Unit)]

  lemma PageIsElement(e: Vec3)
    ensures PageOf(e, Unit) == e
  {
  }

  lemma GapCopies()
    ensures Wf(Gap(), ReadAll) && CopyOn(Gap().allocs, 1) == 1
  {
    assert Gap().allocs[1].dev == 1;
    CopyOnUnique(Gap().allocs, 1, 1);
  }

  lemma GapAccessed(p: Vec3)
    requires InRect(p, ReadAll.acc)
    ensures InRect(p, Pages(Gap(), ReadAll))
  {
    PageIsElement(p);
    ElementOnPage(p, ReadAll.acc, Unit);
  }

  lemma GapSource(pr: Rect)
    ensures Source(Gap().allocs, 1, pr, 0) == 0
  {
    assert Gap().allocs[0].dev != 1;
  }

  lemma GapNeedsCopies()
    ensures NeedsCopies(Gap(), ReadAll)
  {
    GapAccessed(Page0);
    assert Page0 !in Gap().allocs[0].invalid;
  }

  lemma GapFirstRect()
    ensures !InRect(Page2, ToElements(GapRects[0], Gap().elements, Gap().ps))
  {
    assert Scaled(0, 1, 1, 3) == (0, 1);
  }

  lemma GapNeedsSecond()
    ensures NeedsSecond(Gap(), ReadAll, GapRects, Page2, 0)
  {
    GapCopies();
    GapNeedsCopies();
    GapFirstRect();
    PageIsElement(Page2);
    GapAccessed(Page2);
    UnitRect(GapRects[0]);
    forall k | 0 <= k < |GapRects| ensures SourceOf(Gap(), 1, GapRects[k]) >= 0 {
      var el := ToElements(GapRects[k], Gap().elements, Gap().ps);
      GapSource(PageRange(el.first, el.extent, Gap().ps));
    }
  }

  lemma UnitRect(r: Rect)
    requires r.extent == Unit
    ensures forall p :: InRect(p, r) <==> p == r.first
  {
  }

  lemma GapOutdated()
    ensures HasAllocation(Gap().allocs, 1) && OutdatedRects(Gap(), ReadAll, GapRects)
  {
    GapCopies();
    GapAccessed(Page0);
    GapAccessed(Page2);
    UnitRect(GapRects[0]);
    UnitRect(GapRects[1]);
    assert InRect(Page0, GapRects[0]) && InRect(Page2, GapRects[1]);
  }

  lemma GapCoherent()
    ensures Coherent(Gap())
  {
    forall i, e | 0 <= i < 2 && InBounds(e, Gap().elements) && PageOf(e, Gap().ps) !in Gap().allocs[i].invalid
      ensures Gap().allocs[i].mem(e) == Gap().latest(e)
    {
      PageIsElement(e);
    }
  }

  /** The read succeeds, but only the first transfer is executed and the last page stays stale. */
  lemma GapBreaks()
    ensures Wf(Gap(), ReadAll) && OutdatedRects(Gap(), ReadAll, GapRects)
    ensures Submit(Gap(), ReadAll, GapRects).Done? && !Safe(Gap(), ReadAll, GapRects)
    ensures Coherent(Gap()) && !Coherent(Submit(Gap(), ReadAll, GapRects).region)
  {
    GapNeedsSecond();
    GapOutdated();
    GapCoherent();
    NeedsSecondBreaks(Gap(), ReadAll, GapRects, Page2, 0);
  }

  // ---------------------------------------------------------------------------------------------
  // An access without a source for its transfer

  /** No single copy can serve as source, so that nothing is transferred, while element `e` lies on an
      accessed page that copy `i` holds and is stale on the target. */
  ghost predicate Unsourced<V>(s: Region<V>, q: Req, rects: seq<Rect>, e: Vec3, i: nat) {
    && Wf(s, q) && NeedsCopies(s, q) && rects != [] && SourceOf(s, q.dev, rects[0]) < 0
    && InBounds(e, s.elements) && InRect(PageOf(e, s.ps), Pages(s, q))
    && PageOf(e, s.ps) in s.allocs[CopyOn(s.allocs, q.dev)].invalid
    && i < |s.allocs| && PageOf(e, s.ps) !in s.allocs[i].invalid
      && s.allocs[CopyOn(s.allocs, q.dev)].mem(e) != s.latest(e)
  }

  /** The node is cancelled, but the page is declared valid on the target. */
  lemma UnsourcedBreaks<V>(s: Region<V>, q: Req, rects: seq<Rect>, e: Vec3, i: nat)
    requires Unsourced(s, q, rects, e, i)
    ensures Submit(s, q, rects).NoSource? && !Safe(s, q, rects) && !Coherent(Submit(s, q, rects).region)
  {
    assert !Brought(s, q, rects, PageOf(e, s.ps));
    BrokenAt(s, q, rects, e);
  }

  const Page1: Vec3 := Vec3(0, 0, 1)

  /** Two pages, each valid in another copy, and a third copy to be read. */
  ghost function Split(): Region<bool> {
    Region(Vec3(1, 1, 2), Unit,
           [Alloc(0, iset{Page1}, Constant(false)), Alloc(1, iset{Page0}, Constant(false)),
            Alloc(2, iset{Page0, Page1}, Constant(true))],
           Constant(false))
  }

  const ReadBoth: Req := Req(2, Builder.Read, Rect(Page0, Vec3(1, 1, 2)))

  lemma SplitCopies()
    ensures Wf(Split(), ReadBoth) && CopyOn(Split().allocs, 2) == 2
  {
    assert Split().allocs[2].dev == 2;
    CopyOnUnique(Split().allocs, 2, 2);
  }

  lemma SplitAccessed(p: Vec3)
    requires InRect(p, ReadBoth.acc)
    ensures InRect(p, Pages(Split(), ReadBoth))
  {
    PageIsElement(p);
    ElementOnPage(p, ReadBoth.acc, Unit);
  }

  lemma SplitHasNoSource(pr: Rect)
    requires InRect(Page0, pr) && InRect(Page1, pr)
    ensures Source(Split().allocs, 2, pr, 0) < 0
  {
    var allocs := Split().allocs;
    assert Page1 in allocs[0].invalid && Page0 in allocs[1].invalid && allocs[2].dev == 2;
    assert Source(allocs, 2, pr, 3) == -1;
    assert Source(allocs, 2, pr, 2) == -1;
    assert Source(allocs, 2, pr, 1) == -1;
  }

  lemma SplitTransfer()
    ensures SourceOf(Split(), 2, ReadBoth.acc) < 0
  {
    var el := ToElements(ReadBoth.acc, Split().elements, Split().ps);
    assert el == ReadBoth.acc by {
      assert Scaled(0, 1, 1, 1) == (0, 1) && Scaled(0, 2, 1, 2) == (0, 2);
    }
    SplitAccessed(Page0);
    SplitAccessed(Page1);
    SplitHasNoSource(PageRange(el.first, el.extent, Split().ps));
  }

  lemma SplitNeedsCopies()
    ensures NeedsCopies(Split(), ReadBoth)
  {
    SplitAccessed(Page0);
    assert Page0 !in Split().allocs[0].invalid;
  }

  lemma SplitPageAccessed()
    ensures InRect(PageOf(Page1, Split().ps), Pages(Split(), ReadBoth))
  {
    ElementOnPage(Page1, ReadBoth.acc, Split().ps);
  }

  lemma SplitTables()
    ensures PageOf(Page1, Split().ps) in Split().allocs[2].invalid
    ensures PageOf(Page1, Split().ps) !in Split().allocs[1].invalid
  {
    PageIsElement(Page1);
  }

  lemma SplitIsUnsourced()
    ensures Unsourced(Split(), ReadBoth, [ReadBoth.acc], Page1, 1)
  {
    SplitCopies();
    SplitNeedsCopies();
    SplitTransfer();
    SplitPageAccessed();
    SplitTables();
  }

  lemma SplitOutdated()
    ensures HasAllocation(Split().allocs, 2) && OutdatedRects(Split(), ReadBoth, [ReadBoth.acc])
  {
    SplitCopies();
    SplitAccessed(Page0);
    SplitAccessed(Page1);
    var rects := [ReadBoth.acc];
    assert InRect(Page0, rects[0]) && InRect(Page1, rects[0]);
    forall p | InRect(p, rects[0]) ensures p == Page0 || p == Page1 { }
  }

  lemma SplitCoherent()
    ensures Coherent(Split())
  {
    forall i, e | 0 <= i < 3 && InBounds(e, Split().elements) && PageOf(e, Split().ps) !in Split().allocs[i].invalid
      ensures Split().allocs[i].mem(e) == Split().latest(e)
    {
      PageIsElement(e);
      assert e == Page0 || e == Page1;
    }
  }

  /** A read of two pages that are valid in different copies is cancelled and breaks coherence. */
  lemma SplitBreaks()
    ensures Wf(Split(), ReadBoth) && OutdatedRects(Split(), ReadBoth, [ReadBoth.acc])
    ensures Submit(Split(), ReadBoth, [ReadBoth.acc]).NoSource? && !Safe(Split(), ReadBoth, [ReadBoth.acc])
    ensures Coherent(Split()) && !Coherent(Submit(Split(), ReadBoth, [ReadBoth.acc]).region)
  {
    SplitIsUnsourced();
    SplitOutdated();
    SplitCoherent();
    UnsourcedBreaks(Split(), ReadBoth, [ReadBoth.acc], Page1, 1);
  }
}
