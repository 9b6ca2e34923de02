/** The end of balance_nonroot(): every sibling is edited in turn, with cells read from pages that have not been
    edited yet. */
module SiblingRewrite {
  import opened Bytes
  import opened Spans
  import opened PageCells
  import opened MemPages
  import opened EditPage
  import opened BalancePlan
  import GatherCells
  import SiblingUpdate

  /** Where a gathered cell is: in the body of a sibling, or aside, as dividers and overflow cells are. */
  datatype Place = OnSibling(page: nat, at: nat) | Aside

  /** The gathered cells as editPage() sees them for page q. */
  function ViewOf(places: seq<Place>, cells: seq<seq<byte>>, q: nat): (a: CellArray)
    requires |places| == |cells|
    ensures |a.at| == |a.sz| == |cells|
    ensures forall j: nat :: j < |cells| ==> a.at[j] == SeenAs(places, cells, q, j) && a.sz[j] == |cells[j]|
  {
    CellArray(seq(|cells|, j requires 0 <= j < |cells| => SeenAs(places, cells, q, j)),
              seq(|cells|, j requires 0 <= j < |cells| => |cells[j]|))
  }

  function SeenAs(places: seq<Place>, cells: seq<seq<byte>>, q: nat, j: nat): ArrayCell
    requires j < |places| == |cells|
  {
    if places[j].OnSibling? && places[j].page == q then OnPage(places[j].at) else Elsewhere(cells[j])
  }

  /** The siblings, old and new, and what is known of each before the update. */
  datatype Siblings = Siblings(pages: seq<MemPage>, olds: seq<Before>, places: seq<Place>, cells: seq<seq<byte>>) {
    /** No two pages share their bytes. */
    ghost predicate Apart() {
      && |pages| == |olds| && |places| == |cells|
      && forall a: nat, b: nat :: a < b < |pages| ==> pages[a] != pages[b] && pages[a].data != pages[b].data
    }

    /** Page q holds its old cells, where the places say. */
    ghost predicate Untouched(q: nat)
      requires q < |pages| == |olds| && |places| == |cells|
      reads pages[q], pages[q].data
    {
      pages[q].g.hdr == 0 && PageIs(pages[q], olds[q], ViewOf(places, cells, q), cells)
    }

    /** Page q holds the cells from b up to e, and keeps the right count of free bytes. */
    ghost predicate Rewritten(q: nat, b: nat, e: nat, nFree: int)
      requires q < |pages|
      reads pages[q], pages[q].data
    {
      && pages[q].Valid() && pages[q].ovfl == [] && b <= e <= |cells| && pages[q].Cells() == cells[b..e]
      && pages[q].nFree == nFree
    }
  }

  /** Pages in the order of the plan: cnt[i] is the end of page i, sz[i] its size. */
  ghost predicate Planned(p: Load, cnt: seq<nat>, sz: seq<int>) {
    |cnt| == |sz| > 0 && SiblingUpdate.Ascending(cnt) && forall i: nat :: i < |cnt| ==> PagePlanned(p, cnt, sz, i)
  }

  ghost predicate PagePlanned(p: Load, cnt: seq<nat>, sz: seq<int>, i: nat) {
    && i < |cnt| == |sz| && First(p, cnt, i) <= cnt[i] <= p.N()
    && 0 <= sz[i] == p.Cost(First(p, cnt, i), cnt[i]) <= p.room
  }

  /** What the planner returns is such a plan. */
  lemma LegalPlanned(p: Load, cnt: seq<nat>, sz: seq<int>)
    requires Legal(p, cnt) && |cnt| == |sz| && forall i: nat :: i < |cnt| ==> Exact(p, cnt, sz, i)
    ensures Planned(p, cnt, sz)
  {
    hide Load.Cost;
    forall i: nat | i < |cnt|
      ensures PagePlanned(p, cnt, sz, i)
    {
      assert PageFits(p, cnt, i) && Exact(p, cnt, sz, i);
      CostSign(p, First(p, cnt, i), cnt[i]);
    }
    forall i, j | 0 <= i <= j < |cnt|
      ensures cnt[i] <= cnt[j]
    {
      CutsRise(p, cnt, i, j);
    }
  }

  lemma {:induction false} CutsRise(p: Load, cnt: seq<nat>, i: nat, j: nat)
    requires i <= j < |cnt| && forall q: nat | q < |cnt| :: PageFits(p, cnt, q)
    ensures cnt[i] <= cnt[j]
    decreases j
  {
    if i < j {
      CutsRise(p, cnt, i, j - 1);
      assert PageFits(p, cnt, j);
    }
  }

  /** What a page costs is its cells' bytes and two for each pointer. */
  lemma {:induction false} WeightIs(s: seq<seq<byte>>)
    ensures GatherCells.Weight(s) == 2 * |s| + Sizes(s)
    decreases |s|
  {
    if s != [] {
      WeightIs(s[..|s| - 1]);
    }
  }

  /** A cell in the body of a page that still holds its old cells has its bytes there. */
  lemma StillThere(pg: MemPage, b: Before, a: CellArray, cells: seq<seq<byte>>, j: nat)
    requires PageIs(pg, b, a, cells) && j < |a.at| && a.at[j].OnPage?
    ensures |a.at| == |cells| && b.iOld <= j < b.End() && a.at[j].at + |cells[j]| <= pg.data.Length
    ensures pg.data[a.at[j].at .. a.at[j].at + |cells[j]|] == cells[j]
  {
    assert At0(a, j).OnPage? && b.InBody(j);
    var k := if j < b.iOld + b.o then j - b.iOld else j - b.iOld - b.m;
    assert b.Slot(k) == j;
    assert BodyCell(pg.data[..], pg.cells, b, a, cells, k);
    assert pg.data[..][a.at[j].at .. a.at[j].at + |cells[j]|] == pg.data[a.at[j].at .. a.at[j].at + |cells[j]|];
  }

  /** The array of cells for editing page i. Cells that come to the page are read from where they are now; others are
      not read. */
  method ReadCells(s: Siblings, i: nat, iNew: nat, iEnd: nat, ghost done: set<nat>) returns (a: CellArray)
    requires s.Apart() && i < |s.pages| && iNew <= iEnd <= |s.cells|
    requires forall q: nat :: q < |s.pages| && q !in done ==> s.Untouched(q)
    requires forall j: nat :: iNew <= j < iEnd ==> Readable(s, i, j, done)
    ensures a == ViewOf(s.places, s.cells, i)
  {
    hide Siblings.Untouched, PageIs;
    ghost var v := ViewOf(s.places, s.cells, i);
    var at: seq<ArrayCell>, sz: seq<nat> := [], [];
    var j := 0;
    while j < |s.cells|
      invariant j <= |s.cells| && at == v.at[..j] && sz == v.sz[..j]
    {
      var c := Elsewhere(s.cells[j]);
      if s.places[j].OnSibling? {
        var q := s.places[j].page;
        if q == i {
          c := OnPage(s.places[j].at);
        } else if iNew <= j < iEnd {
          assert Readable(s, i, j, done);
          UntouchedIs(s, q);
          StillThere(s.pages[q], s.olds[q], ViewOf(s.places, s.cells, q), s.cells, j);
          c := Elsewhere(s.pages[q].data[s.places[j].at .. s.places[j].at + |s.cells[j]|]);
        }
      }
      at, sz := at + [c], sz + [|s.cells[j]|];
      j := j + 1;
    }
    a := CellArray(at, sz);
  }

  lemma UntouchedIs(s: Siblings, q: nat)
    requires q < |s.pages| == |s.olds| && |s.places| == |s.cells| && s.Untouched(q)
    ensures s.pages[q].g.hdr == 0 && PageIs(s.pages[q], s.olds[q], ViewOf(s.places, s.cells, q), s.cells)
  {
  }

  /** Cell j is not in the body of a page that has been edited already. */
  ghost predicate Readable(s: Siblings, i: nat, j: nat, done: set<nat>)
    requires j < |s.places|
  {
    s.places[j].OnSibling? && s.places[j].page != i ==> s.places[j].page < |s.pages| && s.places[j].page !in done
  }

  /** One sibling. */
  method RewriteOne(s: Siblings, i: nat, iNew: nat, iEnd: nat, szNew: nat, ghost done: set<nat>)
    requires s.Apart() && i < |s.pages| && iNew <= iEnd <= |s.cells| && i !in done
    requires forall q: nat :: q < |s.pages| && q !in done ==> s.Untouched(q)
    requires forall j: nat :: iNew <= j < iEnd ==> Readable(s, i, j, done)
    requires szNew == GatherCells.Weight(s.cells[iNew..iEnd]) <= s.pages[i].g.usable - s.pages[i].g.CellOffset()
    modifies s.pages[i], s.pages[i].data
    ensures s.Rewritten(i, iNew, iEnd, s.pages[i].g.usable - s.pages[i].g.CellOffset() - szNew)
  {
    hide PageIs, Sizes, MemPage.Valid;
    var a := ReadCells(s, i, iNew, iEnd, done);
    UntouchedIs(s, i);
    WeightIs(s.cells[iNew..iEnd]);
    UpdatePage(s.pages[i], s.olds[i], iNew, iEnd - iNew, a, szNew, s.cells);
  }

  /** The old cells of the pages are those between the old cuts; a page that is new has none. */
  ghost predicate OldCuts(s: Siblings, p: Load, cntOld: seq<nat>) {
    forall q: nat :: q < |cntOld| ==> OldCut(s, p, cntOld, q)
  }

  ghost predicate OldCut(s: Siblings, p: Load, cntOld: seq<nat>, q: nat) {
    && q < |cntOld| && q < |s.olds| && s.olds[q].End() == cntOld[q]
    && (s.olds[q].iOld == First(p, cntOld, q) || s.olds[q].iOld == cntOld[q])
  }

  /** A cell in the body of a page is one of the page's old cells. */
  ghost predicate InOldRun(s: Siblings, j: nat)
    requires j < |s.places|
  {
    s.places[j].OnSibling? ==>
      var q := s.places[j].page;
      q < |s.olds| && s.olds[q].iOld <= j < s.olds[q].End()
  }

  lemma OldRuns(s: Siblings, j: nat)
    requires s.Apart() && j < |s.places| && (s.places[j].OnSibling? ==> s.places[j].page < |s.pages|)
    requires forall q: nat :: q < |s.pages| ==> s.Untouched(q)
    ensures InOldRun(s, j)
  {
    hide PageIs;
    if s.places[j].OnSibling? {
      var q := s.places[j].page;
      UntouchedIs(s, q);
      StillThere(s.pages[q], s.olds[q], ViewOf(s.places, s.cells, q), s.cells, j);
    }
  }

  /** What comes to a page in its turn is still there. */
  lemma ReadInTime(s: Siblings, p: Load, cntOld: seq<nat>, cntNew: seq<nat>, order: seq<nat>, t: nat, j: nat,
                   done: set<nat>)
    requires |s.pages| == |s.olds| && OldCuts(s, p, cntOld) && |cntOld| == |cntNew| && t < |order|
    requires SiblingUpdate.SafeOrder(p, cntOld, cntNew, order) && forall q: nat :: q in done <==> q in order[..t]
    requires j < |s.places| && InOldRun(s, j) && First(p, cntNew, order[t]) <= j < cntNew[order[t]]
    ensures order[t] !in done && Readable(s, order[t], j, done)
  {
    if s.places[j].OnSibling? {
      forall u: nat | u < t
        ensures order[u] != s.places[j].page
      {
        assert OldCut(s, p, cntOld, order[u]);
      }
    }
  }

  /** Page q has come to hold what the plan gives it. */
  ghost predicate AsPlanned(p: Load, s: Siblings, cnt: seq<nat>, room: nat, q: nat)
    requires q < |s.pages|
    reads s.pages[q], s.pages[q].data
  {
    && q < |cnt| && First(p, cnt, q) <= cnt[q] <= |s.cells|
    && s.Rewritten(q, First(p, cnt, q), cnt[q], room - GatherCells.Weight(s.cells[First(p, cnt, q)..cnt[q]]))
  }

  ghost predicate CostIs(p: Load, cells: seq<seq<byte>>, cnt: seq<nat>, sz: seq<int>, q: nat) {
    && q < |cnt| == |sz| && First(p, cnt, q) <= cnt[q] <= |cells|
    && sz[q] == GatherCells.Weight(cells[First(p, cnt, q)..cnt[q]])
  }

  /** Some pages are done, the others are as they were. */
  ghost predicate PartDone(s: Siblings, p: Load, cntNew: seq<nat>, szNew: seq<int>, room: nat, done: set<nat>)
    reads set q: nat | q < |s.pages| :: s.pages[q]
    reads set q: nat | q < |s.pages| :: s.pages[q].data
  {
    && |s.pages| == |s.olds| && |s.places| == |s.cells| && |cntNew| == |szNew| <= |s.pages|
    && (forall q: nat :: q in done ==>
          q < |cntNew| && s.Rewritten(q, First(p, cntNew, q), cntNew[q], room - szNew[q]))
    && forall q: nat :: q < |s.pages| && q !in done ==> s.Untouched(q)
  }

  lemma NoneDone(s: Siblings, p: Load, cntNew: seq<nat>, szNew: seq<int>, room: nat)
    requires s.Apart() && |cntNew| == |szNew| <= |s.pages| && forall q: nat :: q < |s.pages| ==> s.Untouched(q)
    ensures PartDone(s, p, cntNew, szNew, room, {})
  {
  }

  lemma AllDone(s: Siblings, p: Load, cntNew: seq<nat>, szNew: seq<int>, room: nat, done: set<nat>)
    requires PartDone(s, p, cntNew, szNew, room, done) && forall q: nat :: q < |cntNew| ==> q in done
    requires forall q: nat :: q < |cntNew| ==> CostIs(p, s.cells, cntNew, szNew, q)
    ensures forall q: nat :: q < |cntNew| ==> AsPlanned(p, s, cntNew, room, q)
    ensures forall q: nat :: |cntNew| <= q < |s.pages| ==> s.Untouched(q)
  {
    forall q: nat | q < |cntNew|
      ensures AsPlanned(p, s, cntNew, room, q)
    {
      assert CostIs(p, s.cells, cntNew, szNew, q);
    }
  }

  method RewriteNext(s: Siblings, p: Load, cntNew: seq<nat>, szNew: seq<int>, room: nat, i: nat, ghost done: set<nat>)
    requires s.Apart() && PartDone(s, p, cntNew, szNew, room, done) && i < |cntNew| && i !in done && Room(s, i, room)
    requires First(p, cntNew, i) <= cntNew[i] <= |s.cells|
    requires forall j: nat :: First(p, cntNew, i) <= j < cntNew[i] ==> Readable(s, i, j, done)
    requires 0 <= szNew[i] == GatherCells.Weight(s.cells[First(p, cntNew, i)..cntNew[i]]) <= room
    modifies s.pages[i], s.pages[i].data
    ensures PartDone(s, p, cntNew, szNew, room, done + {i})
  {
    hide Siblings.Untouched, Siblings.Rewritten, Readable;
    RewriteOne(s, i, First(p, cntNew, i), cntNew[i], szNew[i], done);
  }

  /** All siblings, in an order in which no page is edited before its cells have been read: each ends well-formed, with
      its cells of the plan and the right count of free bytes; pages that are given up are as they were. */
  method RewriteSiblings(s: Siblings, leafData: bool, room: nat, cntOld: seq<nat>, cntNew: seq<nat>, szNew: seq<int>)
    requires s.Apart() && forall q: nat :: q < |s.pages| ==> s.Untouched(q) && Room(s, q, room)
    requires forall j: nat :: j < |s.places| ==> InSibling(s, j)
    requires |cntOld| == |cntNew| <= |s.pages| && SiblingUpdate.Ascending(cntOld)
    requires OldCuts(s, GatherCells.LoadOf(s.cells, leafData, room), cntOld)
    requires Planned(GatherCells.LoadOf(s.cells, leafData, room), cntNew, szNew)
    modifies set q: nat | q < |s.pages| :: s.pages[q]
    modifies set q: nat | q < |s.pages| :: s.pages[q].data
    ensures forall q: nat :: q < |cntNew| ==>
      AsPlanned(GatherCells.LoadOf(s.cells, leafData, room), s, cntNew, room, q)
    ensures forall q: nat :: |cntNew| <= q < |s.pages| ==> s.Untouched(q)
  {
    hide Siblings.Untouched, Siblings.Rewritten, Readable, InOldRun, OldCuts, GatherCells.LoadOf,
         SiblingUpdate.SafeOrder, PartDone;
    var p := GatherCells.LoadOf(s.cells, leafData, room);
    forall j: nat | j < |s.places|
      ensures InOldRun(s, j)
    {
      assert InSibling(s, j);
      OldRuns(s, j);
    }
    var order := SiblingUpdate.UpdateSiblings(p, cntOld, cntNew);
    ghost var done: set<nat> := {};
    NoneDone(s, p, cntNew, szNew, room);
    var t := 0;
    while t < |order|
      invariant t <= |order| && forall q: nat :: q in done <==> q in order[..t]
      invariant PartDone(s, p, cntNew, szNew, room, done)
    {
      var i := order[t];
      OrderAt(p, cntOld, cntNew, order, t);
      CostOfPage(s.cells, leafData, room, cntNew, szNew, i);
      forall j: nat | First(p, cntNew, i) <= j < cntNew[i]
        ensures Readable(s, i, j, done)
      {
        ReadInTime(s, p, cntOld, cntNew, order, t, j, done);
      }
      NotDone(p, cntOld, cntNew, order, t, done);
      RewriteNext(s, p, cntNew, szNew, room, i, done);
      done := done + {i};
      assert order[..t + 1] == order[..t] + [i];
      t := t + 1;
    }
    assert order[..t] == order;
    forall q: nat | q < |cntNew|
      ensures CostIs(p, s.cells, cntNew, szNew, q)
    {
      CostOfPage(s.cells, leafData, room, cntNew, szNew, q);
    }
    AllDone(s, p, cntNew, szNew, room, done);
  }

  /** The room for cells and pointers on page q. */
  ghost predicate Room(s: Siblings, q: nat, room: nat)
    requires q < |s.pages|
  {
    s.pages[q].g.usable - s.pages[q].g.CellOffset() == room
  }

  ghost predicate InSibling(s: Siblings, j: nat)
    requires j < |s.places|
  {
    s.places[j].OnSibling? ==> s.places[j].page < |s.pages|
  }

  lemma OrderAt(p: Load, cntOld: seq<nat>, cntNew: seq<nat>, order: seq<nat>, t: nat)
    requires |cntOld| == |cntNew| && SiblingUpdate.SafeOrder(p, cntOld, cntNew, order) && t < |order|
    ensures order[t] < |cntNew|
  {
  }

  lemma NotDone(p: Load, cntOld: seq<nat>, cntNew: seq<nat>, order: seq<nat>, t: nat, done: set<nat>)
    requires |cntOld| == |cntNew| && SiblingUpdate.SafeOrder(p, cntOld, cntNew, order) && t < |order|
    requires forall q: nat :: q in done <==> q in order[..t]
    ensures order[t] !in done
  {
  }

  lemma CostOfPage(cells: seq<seq<byte>>, leafData: bool, room: nat, cnt: seq<nat>, sz: seq<int>, i: nat)
    requires Planned(GatherCells.LoadOf(cells, leafData, room), cnt, sz) && i < |cnt|
    ensures var b := First(GatherCells.LoadOf(cells, leafData, room), cnt, i);
      b <= cnt[i] <= |cells| && 0 <= sz[i] == GatherCells.Weight(cells[b..cnt[i]]) <= room
  {
    hide Load.Cost;
    var p := GatherCells.LoadOf(cells, leafData, room);
    assert PagePlanned(p, cnt, sz, i);
    GatherCells.RangeCost(cells, leafData, room, First(p, cnt, i), cnt[i]);
  }

  // ---- the whole of it -------------------------------------------------------------------------------

  /** The siblings are those whose cells are gathered, and behind them the pages that may be allocated. */
  ghost predicate Gathered(f: GatherCells.Family, s: Siblings)
    requires f.Valid()
  {
    && s.cells == f.All() && |s.pages| == |s.olds| == MX
    && (forall q: nat :: q < |f.pages| ==> s.olds[q].iOld == |f.Before(q)| && s.olds[q].End() == f.Cut(q))
    && forall q: nat :: |f.pages| <= q < MX ==> s.olds[q] == Before(|s.cells|, 0, 0, 0)
  }

  function Ends(s: Siblings, k: nat): (c: seq<nat>)
    requires k <= |s.olds|
    ensures |c| == k && forall q: nat :: q < k ==> c[q] == s.olds[q].End()
  {
    seq(k, q requires 0 <= q < k => s.olds[q].End())
  }

  lemma OldEnds(f: GatherCells.Family, s: Siblings, k: nat)
    requires f.Valid() && Gathered(f, s) && k <= MX
    ensures SiblingUpdate.Ascending(Ends(s, k))
    ensures OldCuts(s, GatherCells.LoadOf(s.cells, f.leafData, f.room), Ends(s, k))
  {
    hide GatherCells.Family.Valid, GatherCells.LoadOf;
    var c, p := Ends(s, k), GatherCells.LoadOf(s.cells, f.leafData, f.room);
    GatherCells.LoadIs(s.cells, f.leafData, f.room);
    forall i, j | 0 <= i <= j < k
      ensures c[i] <= c[j]
    {
      EndsRise(f, s, i, j);
    }
    forall q: nat | q < k
      ensures OldCut(s, p, c, q)
    {
      if 0 < q < |f.pages| {
        NextBefore(f, q);
      } else if q == 0 {
        GatherCells.NoneBefore(f);
      }
    }
  }

  lemma NextBefore(f: GatherCells.Family, q: nat)
    requires f.Valid() && 0 < q < |f.pages|
    ensures |f.Before(q)| == f.Cut(q - 1) + if f.leafData then 0 else 1
  {
  }

  lemma EndsRise(f: GatherCells.Family, s: Siblings, i: nat, j: nat)
    requires f.Valid() && Gathered(f, s) && i <= j < MX
    ensures s.olds[i].End() <= s.olds[j].End()
  {
    if i < |f.pages| {
      GatherCells.PagePlace(f, i);
      if j < |f.pages| && i < j {
        GatherCells.BeforePrefix(f, i + 1, j);
      }
    }
  }

  function LoadFor(f: GatherCells.Family, s: Siblings): Load {
    GatherCells.LoadOf(s.cells, f.leafData, f.room)
  }

  /** The siblings are gathered, planned and rewritten: each page is well-formed, with its cells and the right count of
      free bytes; and the pages' cells and the cells at the cuts, read in order, are what the old pages and dividers
      gave. */
  method BalanceSiblings(f: GatherCells.Family, s: Siblings, bulk: bool, ghost i: nat)
    returns (cnt: seq<nat>, ghost packed: seq<nat>)
    requires f.Valid() && (GatherCells.OneOverflows(f, i) || forall q: nat :: q < |f.pages| ==> f.pages[q].ovfl == [])
    requires GatherCells.LoadOf(f.All(), f.leafData, f.room).Fits() && Gathered(f, s)
    requires s.Apart() && forall q: nat :: q < |s.pages| ==> s.Untouched(q) && Room(s, q, f.room)
    requires forall j: nat :: j < |s.places| ==> InSibling(s, j)
    modifies set q: nat | q < |s.pages| :: s.pages[q]
    modifies set q: nat | q < |s.pages| :: s.pages[q].data
    ensures |cnt| <= |s.pages| && Legal(LoadFor(f, s), cnt)
    ensures forall q: nat :: q < |cnt| ==> AsPlanned(LoadFor(f, s), s, cnt, f.room, q)
    ensures |cnt| > 1 ==> SiblingUpdate.Cut(LoadFor(f, s), cnt)
    ensures |cnt| > 1 ==> SiblingUpdate.ReadFrom(LoadFor(f, s), s.cells, cnt, 0) == GatherCells.OldRead(f, 0)
    ensures AllFull(LoadFor(f, s), packed, |cnt|) && EvenedOut(LoadFor(f, s), packed, cnt, |cnt|, bulk)
    ensures GatherCells.SameEntries(f, s.cells) && (|cnt| > 1 ==> GatherCells.SameKids(f, s.cells, cnt))
  {
    hide GatherCells.Family.Valid, GatherCells.LoadOf, Siblings.Untouched, Legal, SiblingUpdate.Cut, Planned, AsPlanned,
         AllFull, EvenedOut;
    var sz;
    cnt, sz, packed := PlanFor(f, s, bulk, i);
    OldEnds(f, s, |cnt|);
    RewriteSiblings(s, f.leafData, f.room, Ends(s, |cnt|), cnt, sz);
  }

  /** The plan, for the gathered cells. */
  method PlanFor(f: GatherCells.Family, s: Siblings, bulk: bool, ghost i: nat)
    returns (cnt: seq<nat>, sz: seq<int>, ghost packed: seq<nat>)
    requires f.Valid() && (GatherCells.OneOverflows(f, i) || forall q: nat :: q < |f.pages| ==> f.pages[q].ovfl == [])
    requires GatherCells.LoadOf(f.All(), f.leafData, f.room).Fits() && Gathered(f, s)
    ensures |cnt| <= |s.pages| && Legal(LoadFor(f, s), cnt) && Planned(LoadFor(f, s), cnt, sz)
    ensures |cnt| > 1 ==> SiblingUpdate.Cut(LoadFor(f, s), cnt)
    ensures |cnt| > 1 ==> SiblingUpdate.ReadFrom(LoadFor(f, s), s.cells, cnt, 0) == GatherCells.OldRead(f, 0)
    ensures AllFull(LoadFor(f, s), packed, |cnt|) && EvenedOut(LoadFor(f, s), packed, cnt, |cnt|, bulk)
    ensures GatherCells.SameEntries(f, s.cells) && (|cnt| > 1 ==> GatherCells.SameKids(f, s.cells, cnt))
  {
    hide GatherCells.Family.Valid, GatherCells.LoadOf, Legal, SiblingUpdate.Cut, Planned, AllFull, EvenedOut;
    var apCell;
    SameCells(f);
    GatherCells.LoadIs(s.cells, f.leafData, f.room);
    apCell, cnt, sz, packed := GatherCells.Redistribute(f, bulk, i);
    LegalPlanned(LoadFor(f, s), cnt, sz);
  }

  lemma SameCells(f: GatherCells.Family)
    requires f.Valid()
    ensures GatherCells.OldRead(f, 0) == f.All()
  {
    GatherCells.OldReadIs(f, 0);
    GatherCells.NoneBefore(f);
  }
}
