/** A program whose second read sees stale contents: a write on device 1 and two reads on device 0 of the
    same elements. The first read brings the pages, the second finds them declared valid
    (src/runtime/dag_direct_scheduler.cpp:129-158). */
module StaleRead {
  import opened Geometry
  import opened Dag
  import opened Builder
  import opened Serial
  import opened Lanes
  import opened TransferOrder
  import opened LaneOrder
  import opened DeviceCopies
  import opened CopyRaces
  import Coherence
  import UnorderedReads

  /** Nodes 0 and 1 belong to the write on device 1, nodes 2 to 5 to the reads on device 0. */
  ghost function TwoReaders(r: Access, regions: Regions): Setup {
    Setup((n: NodeId) => if n <= 1 then 1 else 0,
          map[2 := Transfer(1, iset p | AccessTouches(r, Page(r.region, p), regions))], iset{})
  }

  ghost predicate IsProgram(s: State, w: Access, r: Access) {
    && w.mode.DiscardWrite? && r.mode.Read? && w.region == r.region && w.elements == r.elements
    && s.commands == [Command(1, [w]), Command(3, [r]), Command(5, [r])] && s.access == map[0 := w, 2 := r, 4 := r]
  }

  /** The page tables of touched pages: valid on device 1 after the write, on device 0 after the first read. */
  lemma TablesOfProgram(s: State, w: Access, r: Access, regions: Regions, c: Cell)
    requires IsProgram(s, w, r) && AccessTouches(r, PageIn(c), regions)
    ensures var t := TwoReaders(r, regions);
            && !ValidAt(s, t, regions, 0, c) && (ValidAt(s, t, regions, 2, c) <==> c.dev == 1)
            && (ValidAt(s, t, regions, 4, c) <==> c.dev == 1 || c.dev == 0)
  {
    var t := TwoReaders(r, regions);
    assert Hits(s, regions, 0, c) && Hits(s, regions, 2, c) && !Hits(s, regions, 1, c) && !Hits(s, regions, 3, c);
    assert ValidAt(s, t, regions, 1, c) <==> c.dev == 1;
    assert ValidAt(s, t, regions, 3, c) <==> c.dev == 1 || c.dev == 0;
  }

  lemma ProgramKeepsProtocol(s: State, w: Access, r: Access, regions: Regions)
    requires IsProgram(s, w, r)
    ensures Protocol(s, TwoReaders(r, regions), regions) && BringsAll(s, TwoReaders(r, regions), regions)
  {
    var t := TwoReaders(r, regions);
    forall m, c | Fills(s, t, m, c) ensures Hits(s, regions, m, c) && !ValidAt(s, t, regions, m, c) {
      TablesOfProgram(s, w, r, regions, c);
    }
    forall m, c | Sources(s, t, m, c)
      ensures Hits(s, regions, m, c) && ValidAt(s, t, regions, m, c) && c.dev != t.device(m)
    {
      TablesOfProgram(s, w, r, regions, c);
    }
    forall m, c | && Hits(s, regions, m, c) && c.dev == t.device(m) && !ValidAt(s, t, regions, m, c)
                  && !Coherence.Discards(s.access[m].mode)
      ensures Fills(s, t, m, c)
    {
      TablesOfProgram(s, w, r, regions, c);
    }
  }

  lemma FirstFeedsSecond(s: State, w: Access, r: Access, regions: Regions, p: Vec3)
    requires IsProgram(s, w, r) && AccessTouches(r, Page(r.region, p), regions)
    ensures Feeds(s, TwoReaders(r, regions), regions, 2, 5)
  {
    var t, c := TwoReaders(r, regions), Cell(r.region, 0, p);
    assert Touches(s.commands[2], PageIn(c), regions) && Uses(s, t, regions, 2, c);
    assert NodeUses(s, t, regions, 5, c);
    forall x: NodeId | 2 < x < 5 ensures c !in NodeOp(s, t, regions, x).writes {
      assert !WritesPage(s.commands[1], PageIn(c), regions);
    }
    assert FeedsAt(s, t, regions, 2, 5, c);
  }

  /** On lanes the second read does not always see the contents of submission order. */
  lemma SecondReadSeesStale(w: Access, r: Access, regions: Regions, backend: Backends, depth: int, p: Vec3)
    returns (events: seq<Event>, s: State)
    requires w.mode.DiscardWrite? && r.mode.Read? && w.region == r.region && w.elements == r.elements
    requires AccessTouches(r, Page(r.region, p), regions)
    ensures OnlySubmits(events) && IsRun(Init, events, regions, s) && IsProgram(s, w, r)
    ensures Protocol(s, TwoReaders(r, regions), regions) && BringsAll(s, TwoReaders(r, regions), regions)
    ensures !AlwaysSequential(events, s, TwoReaders(r, regions), regions, backend)
  {
    events, s := UnorderedReads.SecondReadRunsEarly(w, r, regions, backend, depth);
    var t := TwoReaders(r, regions);
    ProgramKeepsProtocol(s, w, r, regions);
    FirstFeedsSecond(s, w, r, regions, p);
    SequentialIffReached(events, t, regions, backend, s);
    LanesOrderIffReached(events, {}, regions, backend, s, 2, 5);
  }
}
