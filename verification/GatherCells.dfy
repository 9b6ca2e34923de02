/** What balance_nonroot() balances: the cells of the old siblings and the dividers between them, gathered in
    order, and the sizes that the planner starts from. */
module GatherCells {
  import opened Bytes
  import opened BalancePlan
  import opened SiblingUpdate
  import CellFormat
  import Dividers
  import Spans
  import PageLayout
  import PageCells

  type CellBytes = seq<byte>

  /** A sibling: the cells in its body, the overflow cells that stand before body cell o, the free bytes it
      keeps count of, and the page number in its header if it is not a leaf. */
  datatype Sibling = Sibling(cells: seq<CellBytes>, o: nat, ovfl: seq<CellBytes>, nFree: int, right: CellBytes) {
    ghost predicate Valid(room: nat) {
      && o <= |cells| && |right| == 4
      && nFree == room - Weight(cells) && 0 <= nFree
    }

    /** The cells in key order. */
    function Logical(): seq<CellBytes>
      requires o <= |cells|
    {
      cells[..o] + ovfl + cells[o..]
    }
  }

  /** Bytes of cells and their pointers. */
  function Weight(s: seq<CellBytes>): nat {
    if s == [] then 0 else Weight(s[..|s| - 1]) + 2 + |s[|s| - 1]|
  }

  lemma {:induction false} WeightAppend(s: seq<CellBytes>, t: seq<CellBytes>)
    ensures Weight(s + t) == Weight(s) + Weight(t)
    decreases |t|
  {
    if t == [] {
      assert s + t == s;
    } else {
      var t' := t[..|t| - 1];
      assert (s + t)[..|s + t| - 1] == s + t';
      WeightAppend(s, t');
    }
  }

  lemma WeightSnoc(s: seq<CellBytes>, c: CellBytes)
    ensures Weight(s + [c]) == Weight(s) + 2 + |c|
  {
    assert (s + [c])[..|s|] == s;
  }

  /** A well-formed page in memory is such a sibling. */
  lemma {:induction false} PageWeight(d: seq<byte>, cells: seq<Spans.Span>, n: nat)
    requires n <= |cells| && forall i: nat | i < |cells| :: Spans.At(cells, i).End() <= |d|
    ensures Weight(PageCells.Contents(d, cells)[..n]) == 2 * n + Spans.Sum(cells[..n])
  {
    var c := PageCells.Contents(d, cells);
    if n > 0 {
      PageWeight(d, cells, n - 1);
      assert Spans.At(cells, n - 1) == cells[n - 1];
      assert c[..n][..n - 1] == c[..n - 1] && c[..n] == c[..n - 1] + [c[n - 1]];
      WeightSnoc(c[..n - 1], c[n - 1]);
      assert cells[..n][..n - 1] == cells[..n - 1];
    }
  }

  lemma PageIsSibling(g: PageLayout.Geometry, f: seq<byte> -> nat, d: seq<byte>, nCell: nat, nFree: int,
                      cells: seq<Spans.Span>, free: seq<Spans.Span>, o: nat, ovfl: seq<CellBytes>, right: CellBytes)
    requires PageCells.PageOk(g, f, d, nCell, nFree, cells, free) && g.hdr == 0 && o <= nCell && |right| == 4
    ensures (forall i: nat | i < |cells| :: Spans.At(cells, i).End() <= |d|) && g.CellOffset() <= g.usable
    ensures Sibling(PageCells.Contents(d, cells), o, ovfl, nFree, right).Valid(g.usable - g.CellOffset())
  {
    PageCells.CellsFit(g, f, d, nCell, nFree, cells, free);
    PageCells.FreeBytes(g, f, d, nCell, nFree, cells, free);
    PageWeight(d, cells, nCell);
    assert PageCells.Contents(d, cells)[..nCell] == PageCells.Contents(d, cells) && cells[..nCell] == cells;
  }

  /** A divider cell as it joins the others: without its child pointer, and at least four bytes long, if the
      siblings are leaves; else with the page before it as its child. */
  function Joined(div: CellBytes, leaf: bool, right: CellBytes): CellBytes
    requires |div| >= 4
  {
    if leaf then Padded(div[4..]) else right + div[4..]
  }

  function Padded(c: CellBytes): (r: CellBytes)
    ensures |r| >= 4 && |r| >= |c| && r[..|c|] == c
  {
    if |c| >= 4 then c else c + seq(4 - |c|, _ => 0)
  }

  /** The old siblings under their parent. */
  datatype Family = Family(pages: seq<Sibling>, divs: seq<CellBytes>, leaf: bool, leafData: bool, room: nat) {
    ghost predicate Valid() {
      && 1 <= |pages| <= 3 && |divs| == |pages| - 1 && (leafData ==> leaf)
      && (forall i: nat :: i < |pages| ==> pages[i].Valid(room))
      && forall i: nat :: i < |divs| ==> |divs[i]| >= 4
    }

    /** The cells of the pages before page i, with the dividers after them unless the leaves keep the data. */
    ghost function Before(i: nat): seq<CellBytes>
      requires Valid() && i <= |pages|
    {
      if i == 0 then [] else Before(i - 1) + pages[i - 1].Logical() + Between(i)
    }

    /** The divider before page i, if it joins the cells. */
    function Between(i: nat): seq<CellBytes>
      requires 0 < i <= |pages| && |divs| == |pages| - 1 && forall k: nat :: k < |divs| ==> |divs[k]| >= 4
    {
      if leafData || i == |pages| then [] else [Joined(divs[i - 1], leaf, pages[i - 1].right)]
    }

    /** All cells in key order. */
    ghost function All(): seq<CellBytes>
      requires Valid()
    {
      Before(|pages|)
    }

    /** Where the cells of page i end. */
    ghost function Cut(i: nat): nat
      requires Valid() && i < |pages|
    {
      |Before(i)| + |pages[i].Logical()|
    }
  }

  function Sizes(cells: seq<CellBytes>): (s: seq<nat>)
    ensures |s| == |cells|
  {
    seq(|cells|, i requires 0 <= i < |cells| => |cells[i]|)
  }

  function LoadOf(cells: seq<CellBytes>, leafData: bool, room: nat): Load {
    Load(Sizes(cells), leafData, room)
  }

  lemma {:induction false} BytesAreWeight(cells: seq<CellBytes>, leafData: bool, room: nat, i: nat)
    requires i <= |cells|
    ensures LoadOf(cells, leafData, room).Bytes(i) == Weight(cells[..i])
  {
    if i > 0 {
      BytesAreWeight(cells, leafData, room, i - 1);
      assert cells[..i] == cells[..i - 1] + [cells[i - 1]];
      WeightSnoc(cells[..i - 1], cells[i - 1]);
    }
  }

  lemma {:induction false} BeforePrefix(f: Family, i: nat, j: nat)
    requires f.Valid() && i <= j <= |f.pages|
    ensures f.Before(i) <= f.Before(j)
    decreases j
  {
    hide Sibling.Logical;
    if i < j {
      BeforePrefix(f, i, j - 1);
      assert f.Before(j) == f.Before(j - 1) + (f.pages[j - 1].Logical() + f.Between(j));
    }
  }

  lemma RunOf<T>(a: seq<T>, l: seq<T>, x: seq<T>, all: seq<T>)
    requires a + l + x <= all
    ensures all[|a| .. |a| + |l|] == l && |a| + |l| + |x| <= |all|
    ensures |x| == 1 ==> all[|a| + |l|] == x[0]
  {
    var b := a + l + x;
    assert b[|a| .. |a| + |l|] == l;
    assert all[|a| .. |a| + |l|] == b[|a| .. |a| + |l|];
  }

  /** Page i's cells stand among all cells from the end of what comes before up to its cut. */
  lemma PagePlace(f: Family, i: nat)
    requires f.Valid() && i < |f.pages|
    ensures |f.Before(i)| <= f.Cut(i) <= |f.All()|
    ensures f.All()[|f.Before(i)| .. f.Cut(i)] == f.pages[i].Logical()
    ensures i + 1 < |f.pages| ==> |f.Before(i + 1)| == f.Cut(i) + if f.leafData then 0 else 1
    ensures i + 1 == |f.pages| ==> f.Cut(i) == |f.All()|
    ensures i + 1 < |f.pages| && !f.leafData ==>
      f.Cut(i) < |f.All()| && f.All()[f.Cut(i)] == Joined(f.divs[i], f.leaf, f.pages[i].right)
  {
    hide Sibling.Logical, Joined;
    BeforePrefix(f, i + 1, |f.pages|);
    RunOf(f.Before(i), f.pages[i].Logical(), f.Between(i + 1), f.All());
  }

  lemma LogicalWeight(s: Sibling, room: nat)
    requires s.Valid(room)
    ensures room - s.nFree == Weight(s.cells)
    ensures Weight(s.Logical()) == Weight(s.cells) + Weight(s.ovfl) && |s.Logical()| == |s.cells| + |s.ovfl|
  {
    var a, z := s.cells[..s.o], s.cells[s.o..];
    WeightAppend(a, z);
    assert a + z == s.cells;
    WeightAppend(a, s.ovfl);
    WeightAppend(a + s.ovfl, z);
  }

  /** The planner's cost of a run of cells is what they weigh. */
  lemma RangeCost(all: seq<CellBytes>, leafData: bool, room: nat, b: nat, c: nat)
    requires b <= c <= |all|
    ensures LoadOf(all, leafData, room).Cost(b, c) == Weight(all[b..c])
  {
    BytesAreWeight(all, leafData, room, b);
    BytesAreWeight(all, leafData, room, c);
    assert all[..c] == all[..b] + all[b..c];
    WeightAppend(all[..b], all[b..c]);
  }

  /** What the sibling i costs, in the planner's terms. */
  lemma PageCost(f: Family, i: nat)
    requires f.Valid() && i < |f.pages|
    ensures f.Cut(i) <= |f.All()|
    ensures LoadOf(f.All(), f.leafData, f.room).Cost(|f.Before(i)|, f.Cut(i)) == Weight(f.pages[i].Logical())
  {
    hide Family.Before, Family.All, LoadOf, Weight, Sibling.Logical;
    PagePlace(f, i);
    RangeCost(f.All(), f.leafData, f.room, |f.Before(i)|, f.Cut(i));
  }

  /** The cells of one sibling, its overflow cells in their place. */
  method AppendCells(p: Sibling, before: seq<CellBytes>) returns (apCell: seq<CellBytes>)
    requires p.o <= |p.cells|
    ensures apCell == before + p.Logical()
  {
    hide Sibling.Logical;
    apCell := before;
    var j := 0;
    if p.ovfl != [] {
      while j < p.o
        invariant j <= p.o && apCell == before + p.cells[..j]
      {
        apCell := apCell + [p.cells[j]];
        j := j + 1;
      }
      var k := 0;
      while k < |p.ovfl|
        invariant k <= |p.ovfl| && apCell == before + p.cells[..p.o] + p.ovfl[..k]
      {
        apCell := apCell + [p.ovfl[k]];
        k := k + 1;
      }
    }
    Interleaved(p, before, apCell, j);
    while j < |p.cells|
      invariant j <= |p.cells| && apCell + p.cells[j..] == before + p.Logical()
    {
      assert [p.cells[j]] + p.cells[j + 1..] == p.cells[j..];
      apCell := apCell + [p.cells[j]];
      j := j + 1;
    }
  }

  /** The first two loops of balance_nonroot() over the old siblings. */
  method Gather(f: Family, cntNew: array<nat>, szNew: array<int>) returns (apCell: seq<CellBytes>)
    requires f.Valid() && cntNew.Length == szNew.Length == MX && cntNew != szNew as object
    modifies cntNew, szNew
    ensures apCell == f.All()
    ensures Plan(LoadOf(apCell, f.leafData, f.room), cntNew[..], szNew[..], |f.pages|)
    ensures forall i: nat :: i < |f.pages| ==> cntNew[i] == f.Cut(i)
  {
    hide Sibling.Logical, Joined, LoadOf, Plan;
    apCell := [];
    var cntOld := new nat[|f.pages|];
    var i := 0;
    while i < |f.pages|
      invariant i <= |f.pages| && apCell == f.Before(i)
      invariant forall q: nat :: q < i ==> cntOld[q] == f.Cut(q)
    {
      apCell := AppendCells(f.pages[i], apCell);
      cntOld[i] := |apCell|;
      if i + 1 < |f.pages| && !f.leafData {
        apCell := apCell + [Joined(f.divs[i], f.leaf, f.pages[i].right)];
      }
      i := i + 1;
    }
    Seed(f, cntOld, cntNew, szNew);
  }

  lemma Interleaved(p: Sibling, before: seq<CellBytes>, cells: seq<CellBytes>, j: nat)
    requires p.o <= |p.cells|
    requires if p.ovfl == [] then j == 0 && cells == before
      else j == p.o && cells == before + p.cells[..p.o] + p.ovfl[..|p.ovfl|]
    ensures cells + p.cells[j..] == before + p.Logical()
  {
    if p.ovfl == [] {
      assert p.Logical() == p.cells;
    } else {
      assert p.ovfl[..|p.ovfl|] == p.ovfl;
    }
  }

  /** The overflow cells of one page count towards its size. */
  method AddOvfl(p: Sibling, szNew: array<int>, i: nat)
    requires i < szNew.Length
    modifies szNew
    ensures szNew[i] == old(szNew[i]) + Weight(p.ovfl)
    ensures forall q: nat :: q < szNew.Length && q != i ==> szNew[q] == old(szNew[q])
  {
    hide Weight;
    WeightNone();
    var j := 0;
    while j < |p.ovfl|
      invariant j <= |p.ovfl| && szNew[i] == old(szNew[i]) + Weight(p.ovfl[..j])
      invariant forall q: nat :: q < szNew.Length && q != i ==> szNew[q] == old(szNew[q])
    {
      assert p.ovfl[..j + 1] == p.ovfl[..j] + [p.ovfl[j]];
      WeightSnoc(p.ovfl[..j], p.ovfl[j]);
      szNew[i] := szNew[i] + 2 + |p.ovfl[j]|;
      j := j + 1;
    }
    assert p.ovfl[..j] == p.ovfl;
  }

  lemma WeightNone()
    ensures Weight([]) == 0
  {
  }

  /** The sizes: bytes used on the page, and what its overflow cells would take. */
  method Seed(f: Family, cntOld: array<nat>, cntNew: array<nat>, szNew: array<int>)
    requires f.Valid() && cntNew.Length == szNew.Length == MX && cntNew != szNew as object && cntOld != cntNew
    requires cntOld.Length == |f.pages| && forall q: nat :: q < |f.pages| ==> cntOld[q] == f.Cut(q)
    modifies cntNew, szNew
    ensures Plan(LoadOf(f.All(), f.leafData, f.room), cntNew[..], szNew[..], |f.pages|)
    ensures forall i: nat :: i < |f.pages| ==> cntNew[i] == f.Cut(i)
  {
    hide Weight, LoadOf, Plan, Sibling.Logical, Family.Before, Family.Cut, Family.All;
    var i := 0;
    while i < |f.pages|
      invariant i <= |f.pages|
      invariant forall q: nat :: q < |f.pages| ==> cntOld[q] == f.Cut(q)
      invariant forall q: nat :: q < i ==> cntNew[q] == f.Cut(q) && szNew[q] == Weight(f.pages[q].Logical())
    {
      var p := f.pages[i];
      szNew[i] := f.room - p.nFree;
      AddOvfl(p, szNew, i);
      LogicalWeight(p, f.room);
      cntNew[i] := cntOld[i];
      i := i + 1;
    }
    SeedsAreExact(f, cntNew[..], szNew[..]);
  }

  lemma SeedsAreExact(f: Family, cnt: seq<nat>, sz: seq<int>)
    requires f.Valid() && |cnt| == |sz| == MX
    requires forall q: nat :: q < |f.pages| ==> cnt[q] == f.Cut(q) && sz[q] == Weight(f.pages[q].Logical())
    ensures Plan(LoadOf(f.All(), f.leafData, f.room), cnt, sz, |f.pages|)
  {
    hide LoadOf, Family.Before, Family.All, Family.Cut, Sibling.Logical, Weight, Sibling.Valid;
    var p := LoadOf(f.All(), f.leafData, f.room);
    LoadIs(f.All(), f.leafData, f.room);
    PagePlace(f, |f.pages| - 1);
    forall i: nat | i < |f.pages|
      ensures Exact(p, cnt, sz, i)
    {
      PageCost(f, i);
      PagePlace(f, i);
      FirstIs(f, p, cnt, i);
    }
  }

  // ---- when the planner succeeds -------------------------------------------------------------------

  /** Cells of one kind are small enough for the planner, whatever they hold: the local limits see to that. */
  lemma ParsedCellsFit(cells: seq<CellBytes>, kind: CellFormat.CellKind, usable: nat, room: nat)
    requires CellFormat.Usable(usable) && room == usable - if kind.ChildSize() == 4 then 12 else 8
    requires forall j: nat :: j < |cells| ==> IsCell(cells, kind, usable, j)
    ensures LoadOf(cells, kind.TableLeaf?, room).Fits()
  {
    hide CellFormat.Parsed;
    forall j: nat | j < |cells|
      ensures 0 < |cells[j]| && (if kind.TableLeaf? then 2 + |cells[j]| else 2 * (2 + |cells[j]|)) <= room
    {
      assert IsCell(cells, kind, usable, j);
      CellFormat.CellSizeBound(kind, usable, cells[j], 0);
    }
  }

  predicate IsCell(cells: seq<CellBytes>, kind: CellFormat.CellKind, usable: nat, j: nat)
    requires CellFormat.Usable(usable)
  {
    j < |cells| && CellFormat.Parsed(kind, usable, cells[j], 0).size == |cells[j]|
  }

  /** No sibling is empty, one has overflow cells, and they would fit a page. */
  ghost predicate OneOverflows(f: Family, i: nat) {
    && f.Valid() && i < |f.pages| && f.pages[i].ovfl != [] && Weight(f.pages[i].ovfl) <= f.room
    && forall q: nat :: q < |f.pages| ==> f.pages[q].Logical() != [] && (q != i ==> f.pages[q].ovfl == [])
  }

  /** Then the planner never gives up. */
  lemma GatheredCanBePlanned(f: Family, cnt: seq<nat>, i: nat)
    requires OneOverflows(f, i) && |cnt| == |f.pages| && forall q: nat :: q < |f.pages| ==> cnt[q] == f.Cut(q)
    ensures exists other :: Legal(LoadOf(f.All(), f.leafData, f.room), other) && |other| <= MX
  {
    hide Family.Before, Sibling.Logical, Family.Cut, Family.All, LoadOf, PageFits, Legal, Weight;
    var p, s := LoadOf(f.All(), f.leafData, f.room), f.pages[i];
    LoadIs(f.All(), f.leafData, f.room);
    PagePlace(f, i);
    PageCost(f, i);
    LogicalWeight(s, f.room);
    OverflowCost(f, i);
    PagePlace(f, |f.pages| - 1);
    FirstIs(f, p, cnt, i);
    NotLast(f, i);
    forall j: nat | j < |cnt| && j != i
      ensures PageFits(p, cnt, j)
    {
      OtherFits(f, cnt, j);
    }
    PlannerNeverGivesUp(p, cnt, i, |f.Before(i)| + s.o, |f.Before(i)| + s.o + |s.ovfl|);
  }

  lemma LoadIs(cells: seq<CellBytes>, leafData: bool, room: nat)
    ensures LoadOf(cells, leafData, room).N() == |cells| && LoadOf(cells, leafData, room).leafData == leafData
    ensures LoadOf(cells, leafData, room).room == room
  {
  }

  lemma NoWeight()
    ensures Weight([]) == 0
  {
  }

  lemma OtherFits(f: Family, cnt: seq<nat>, j: nat)
    requires f.Valid() && |cnt| == |f.pages| && forall q: nat :: q < |f.pages| ==> cnt[q] == f.Cut(q)
    requires j < |f.pages| && f.pages[j].ovfl == [] && forall q: nat :: q < |f.pages| ==> f.pages[q].Logical() != []
    ensures PageFits(LoadOf(f.All(), f.leafData, f.room), cnt, j)
  {
    hide Family.Before, Sibling.Logical, Family.Cut, Family.All, LoadOf, Weight;
    var p := LoadOf(f.All(), f.leafData, f.room);
    LoadIs(f.All(), f.leafData, f.room);
    PagePlace(f, j);
    PageCost(f, j);
    NoWeight();
    LogicalWeight(f.pages[j], f.room);
    FirstIs(f, p, cnt, j);
    NotLast(f, j);
  }

  lemma FirstIs(f: Family, p: Load, cnt: seq<nat>, i: nat)
    requires f.Valid() && i < |f.pages| <= |cnt| && (forall q: nat :: q < |f.pages| ==> cnt[q] == f.Cut(q))
    requires p.leafData == f.leafData
    ensures First(p, cnt, i) == |f.Before(i)|
  {
    if i > 0 {
      PagePlace(f, i - 1);
    }
  }

  /** Each page but the last is followed by cells. */
  lemma NotLast(f: Family, i: nat)
    requires f.Valid() && i < |f.pages| && forall q: nat :: q < |f.pages| ==> f.pages[q].Logical() != []
    ensures i + 1 < |f.pages| ==> f.Cut(i) < |f.All()|
  {
    PagePlace(f, i);
    if i + 1 < |f.pages| {
      PagePlace(f, i + 1);
    }
  }

  lemma OverflowCost(f: Family, i: nat)
    requires f.Valid() && i < |f.pages|
    ensures var lo := |f.Before(i)| + f.pages[i].o;
      lo + |f.pages[i].ovfl| <= |f.All()| &&
      LoadOf(f.All(), f.leafData, f.room).Cost(lo, lo + |f.pages[i].ovfl|) == Weight(f.pages[i].ovfl)
  {
    hide Family.Before, Family.All, LoadOf, Weight;
    PagePlace(f, i);
    var all, s := f.All(), f.pages[i];
    LoadIs(all, f.leafData, f.room);
    var b := |f.Before(i)|;
    var lo := b + s.o;
    OverflowPlace(s);
    InnerSlice(all, b, s.Logical(), s.o, s.ovfl);
    RangeCost(all, f.leafData, f.room, lo, lo + |s.ovfl|);
  }

  lemma OverflowPlace(s: Sibling)
    requires s.o <= |s.cells|
    ensures |s.Logical()| == |s.cells| + |s.ovfl| && s.Logical()[s.o..s.o + |s.ovfl|] == s.ovfl
  {
  }

  lemma InnerSlice(all: seq<CellBytes>, b: nat, l: seq<CellBytes>, o: nat, x: seq<CellBytes>)
    requires b + |l| <= |all| && all[b..b + |l|] == l && o + |x| <= |l| && l[o..o + |x|] == x
    ensures all[b + o..b + o + |x|] == x
  {
    var y := all[b + o..b + o + |x|];
    forall k: nat | k < |x|
      ensures y[k] == x[k]
    {
      assert l[o..o + |x|][k] == l[o + k] && all[b..b + |l|][o + k] == all[b + o + k];
    }
  }

  /** The page fits, though it may be the last that holds cells. */
  ghost predicate FitsLast(p: Load, cnt: seq<nat>, i: nat) {
    i < |cnt| && First(p, cnt, i) <= cnt[i] <= p.N() && p.Cost(First(p, cnt, i), cnt[i]) <= p.room
  }

  lemma {:induction false} DropEmpty(p: Load, cnt: seq<nat>, n: nat) returns (other: seq<nat>)
    requires 0 < n <= |cnt| && cnt[n - 1] == p.N() && forall i: nat :: i < n ==> FitsLast(p, cnt, i)
    ensures Legal(p, other) && |other| <= n
    decreases n
  {
    if n > 1 && cnt[n - 2] == p.N() {
      other := DropEmpty(p, cnt, n - 1);
    } else {
      other := cnt[..n];
      forall i: nat | i < n
        ensures PageFits(p, other, i)
      {
        assert FitsLast(p, cnt, i);
        if i + 1 < n {
          assert FitsLast(p, cnt, n - 2);
          BelowEnd(p, cnt, n, i);
        }
        assert First(p, other, i) == First(p, cnt, i);
      }
    }
  }

  lemma {:induction false} BelowEnd(p: Load, cnt: seq<nat>, n: nat, i: nat)
    requires i + 1 < n <= |cnt| && cnt[n - 2] < p.N() && forall q: nat :: q < n ==> FitsLast(p, cnt, q)
    ensures cnt[i] < p.N()
    decreases n - i
  {
    if i + 2 < n {
      BelowEnd(p, cnt, n, i + 1);
      assert FitsLast(p, cnt, i + 1);
    }
  }

  /** Without overflow cells the old siblings are themselves a partition. */
  lemma UnderfullCanBePlanned(f: Family, cnt: seq<nat>)
    requires f.Valid() && |cnt| == |f.pages| && forall q: nat :: q < |f.pages| ==> cnt[q] == f.Cut(q)
    requires forall q: nat :: q < |f.pages| ==> f.pages[q].ovfl == []
    ensures exists other :: Legal(LoadOf(f.All(), f.leafData, f.room), other) && |other| <= MX
  {
    hide Family.Before, Sibling.Logical, Family.Cut, Family.All, LoadOf, Weight, Legal;
    var p := LoadOf(f.All(), f.leafData, f.room);
    LoadIs(f.All(), f.leafData, f.room);
    NoWeight();
    forall j: nat | j < |cnt|
      ensures FitsLast(p, cnt, j)
    {
      PagePlace(f, j);
      PageCost(f, j);
      LogicalWeight(f.pages[j], f.room);
      FirstIs(f, p, cnt, j);
    }
    PagePlace(f, |f.pages| - 1);
    var other := DropEmpty(p, cnt, |cnt|);
  }

  // ---- the balance as a whole ----------------------------------------------------------------------

  /** The entries below the parent, read from page i of the old siblings on. */
  ghost function OldRead(f: Family, i: nat): seq<CellBytes>
    requires f.Valid() && i <= |f.pages|
    decreases |f.pages| - i
  {
    if i == |f.pages| then [] else f.pages[i].Logical() + f.Between(i + 1) + OldRead(f, i + 1)
  }

  lemma {:induction false} OldReadIs(f: Family, i: nat)
    requires f.Valid() && i <= |f.pages|
    ensures f.Before(i) + OldRead(f, i) == f.All()
    decreases |f.pages| - i
  {
    hide Sibling.Logical, Family.Between;
    if i < |f.pages| {
      OldReadIs(f, i + 1);
      var l, z := f.pages[i].Logical(), f.Between(i + 1);
      assert f.Before(i) + (l + z + OldRead(f, i + 1)) == f.Before(i) + l + z + OldRead(f, i + 1);
    }
  }

  // ---- the entries below the parent ----------------------------------------------------------------

  /** The child pointer of a cell of an interior page, and what is behind it. */
  function Head(c: CellBytes): CellBytes {
    c[..if |c| < 4 then |c| else 4]
  }

  function Tail(c: CellBytes): CellBytes {
    c[if |c| < 4 then |c| else 4..]
  }

  function Heads(s: seq<CellBytes>): (r: seq<CellBytes>)
    ensures |r| == |s| && forall i: nat :: i < |s| ==> r[i] == Head(s[i])
  {
    seq(|s|, i requires 0 <= i < |s| => Head(s[i]))
  }

  function Tails(s: seq<CellBytes>): (r: seq<CellBytes>)
    ensures |r| == |s| && forall i: nat :: i < |s| ==> r[i] == Tail(s[i])
  {
    seq(|s|, i requires 0 <= i < |s| => Tail(s[i]))
  }

  /** The children of the siblings from page i on, if they are interior pages: those of the cells of each page, and
      then that in its header. */
  ghost function OldKids(f: Family, i: nat): seq<CellBytes>
    requires f.Valid() && i <= |f.pages|
    decreases |f.pages| - i
  {
    if i == |f.pages| then [] else Heads(f.pages[i].Logical()) + [f.pages[i].right] + OldKids(f, i + 1)
  }

  /** Their entries, and those of the parent between them, without child pointers. */
  ghost function OldEntries(f: Family, i: nat): seq<CellBytes>
    requires f.Valid() && i <= |f.pages|
    decreases |f.pages| - i
  {
    if i == |f.pages| then []
    else OwnEntries(f, i) + (if f.leafData || i + 1 == |f.pages| then [] else [f.divs[i][4..]]) + OldEntries(f, i + 1)
  }

  ghost function OwnEntries(f: Family, i: nat): seq<CellBytes>
    requires f.Valid() && i < |f.pages|
  {
    if f.leaf then f.pages[i].Logical() else Tails(f.pages[i].Logical())
  }

  /** Entry e as a cell of a leaf: at least four bytes long. */
  predicate AsLeaf(e: CellBytes, c: CellBytes) {
    if |e| < 4 then |c| == 4 && e <= c && forall k: nat :: |e| <= k < 4 ==> c[k] == 0 else c == e
  }

  ghost predicate AllAsLeaf(e: seq<CellBytes>, s: seq<CellBytes>) {
    |e| == |s| && forall j: nat :: j < |s| ==> AsLeafAt(e, s, j)
  }

  ghost predicate AsLeafAt(e: seq<CellBytes>, s: seq<CellBytes>, j: nat)
    requires |e| == |s|
  {
    j < |s| && (AsLeaf(e[j], s[j]) || e[j] == s[j])
  }

  /** The divider after page i is a cell of a leaf. */
  ghost predicate Alone(f: Family, s: seq<CellBytes>, i: nat)
    requires f.Valid()
  {
    i < |f.divs| && f.Cut(i) < |s| && AsLeaf(f.divs[i][4..], s[f.Cut(i)])
  }

  /** The cells are the entries of the siblings and of the parent between them, in order; of interior pages, their
      children and that in the header of the last page are those of the siblings. */
  ghost predicate SameEntries(f: Family, s: seq<CellBytes>)
    requires f.Valid()
  {
    if f.leaf then
      AllAsLeaf(OldEntries(f, 0), s) && forall i: nat :: i < |f.divs| && !f.leafData ==> Alone(f, s, i)
    else Tails(s) == OldEntries(f, 0) && Heads(s) + [f.pages[|f.pages| - 1].right] == OldKids(f, 0)
  }

  lemma HeadsJoin(a: seq<CellBytes>, b: seq<CellBytes>)
    ensures Heads(a + b) == Heads(a) + Heads(b) && Tails(a + b) == Tails(a) + Tails(b)
  {
  }

  lemma AllAsLeafJoin(e: seq<CellBytes>, s: seq<CellBytes>, e': seq<CellBytes>, s': seq<CellBytes>)
    requires AllAsLeaf(e, s) && AllAsLeaf(e', s')
    ensures AllAsLeaf(e + e', s + s')
  {
    hide AsLeaf;
    forall j: nat | j < |s + s'|
      ensures AsLeafAt(e + e', s + s', j)
    {
      assert if j < |s| then AsLeafAt(e, s, j) else AsLeafAt(e', s', j - |s|);
    }
  }

  lemma AllAsLeafSame(s: seq<CellBytes>)
    ensures AllAsLeaf(s, s)
  {
  }

  /** A gathered divider: behind the child that the page before it had in its header, or, between leaves, alone. */
  lemma JoinedIs(div: CellBytes, leaf: bool, right: CellBytes)
    requires |div| >= 4 && |right| == 4
    ensures leaf ==> AsLeaf(div[4..], Joined(div, leaf, right))
    ensures !leaf ==> Head(Joined(div, leaf, right)) == right && Tail(Joined(div, leaf, right)) == div[4..]
  {
  }

  lemma HeadsBefore(f: Family, i: nat)
    requires f.Valid() && !f.leaf && 0 < i < |f.pages|
    ensures Heads(f.Before(i)) == Heads(f.Before(i - 1)) + Heads(f.pages[i - 1].Logical()) + [f.pages[i - 1].right]
    ensures Tails(f.Before(i)) == Tails(f.Before(i - 1)) + Tails(f.pages[i - 1].Logical()) + [f.divs[i - 1][4..]]
  {
    hide Joined, Sibling.Logical, Head, Tail, Heads, Tails;
    var l, a := f.pages[i - 1].Logical(), f.Before(i - 1);
    var z := Joined(f.divs[i - 1], f.leaf, f.pages[i - 1].right);
    JoinedIs(f.divs[i - 1], f.leaf, f.pages[i - 1].right);
    HeadsJoin(a + l, [z]);
    HeadsJoin(a, l);
    OneHead(z);
  }

  lemma Regroup(a: seq<CellBytes>, l: seq<CellBytes>, z: CellBytes, k: seq<CellBytes>)
    ensures a + l + [z] + k == a + (l + [z] + k)
  {
  }

  lemma {:induction false} InteriorBefore(f: Family, i: nat)
    requires f.Valid() && !f.leaf && i < |f.pages|
    ensures Heads(f.Before(i)) + OldKids(f, i) == OldKids(f, 0)
    ensures Tails(f.Before(i)) + OldEntries(f, i) == OldEntries(f, 0)
    decreases i
  {
    hide Joined, Sibling.Logical, Head, Tail, Heads, Tails;
    if i > 0 {
      InteriorBefore(f, i - 1);
      var l, a := f.pages[i - 1].Logical(), f.Before(i - 1);
      HeadsBefore(f, i);
      Regroup(Heads(a), Heads(l), f.pages[i - 1].right, OldKids(f, i));
      Regroup(Tails(a), Tails(l), f.divs[i - 1][4..], OldEntries(f, i));
    } else {
      NoneBefore(f);
      NoHeads();
    }
  }

  lemma OneHead(z: CellBytes)
    ensures Heads([z]) == [Head(z)] && Tails([z]) == [Tail(z)]
  {
  }

  lemma NoHeads()
    ensures Heads([]) == [] && Tails([]) == []
  {
  }

  lemma {:induction false} LeavesBefore(f: Family, i: nat, e: seq<CellBytes>)
    requires f.Valid() && f.leaf && i <= |f.pages| && AllAsLeaf(e, f.Before(i))
    ensures AllAsLeaf(e + OldEntries(f, i), f.All())
    decreases |f.pages| - i
  {
    hide Joined, Sibling.Logical, AsLeaf, AllAsLeaf;
    if i == |f.pages| {
      assert e + OldEntries(f, i) == e;
    } else {
      var l, b := f.pages[i].Logical(), f.Between(i + 1);
      var z := if f.leafData || i + 1 == |f.pages| then [] else [f.divs[i][4..]];
      AllAsLeafSame(l);
      AllAsLeafJoin(e, f.Before(i), l, l);
      BetweenLeaves(f, i);
      AllAsLeafJoin(e + l, f.Before(i) + l, z, b);
      LeavesBefore(f, i + 1, e + l + z);
      assert e + l + z + OldEntries(f, i + 1) == e + OldEntries(f, i);
    }
  }

  lemma BetweenLeaves(f: Family, i: nat)
    requires f.Valid() && f.leaf && i < |f.pages|
    ensures AllAsLeaf(if f.leafData || i + 1 == |f.pages| then [] else [f.divs[i][4..]], f.Between(i + 1))
  {
    hide Joined, AsLeaf;
    if !f.leafData && i + 1 < |f.pages| {
      JoinedIs(f.divs[i], f.leaf, f.pages[i].right);
      assert AsLeafAt([f.divs[i][4..]], f.Between(i + 1), 0);
    }
  }

  /** What is gathered is, byte for byte, what the siblings and the parent between them have. */
  lemma GatheredEntries(f: Family)
    requires f.Valid()
    ensures SameEntries(f, f.All())
  {
    hide Joined, Sibling.Logical, Head, Tail, Heads, Tails, AllAsLeaf;
    if f.leaf {
      NoneBefore(f);
      AllAsLeafSame([]);
      LeavesBefore(f, 0, []);
      assert [] + OldEntries(f, 0) == OldEntries(f, 0);
      forall i: nat | i < |f.divs| && !f.leafData
        ensures Alone(f, f.All(), i)
      {
        PagePlace(f, i);
        JoinedIs(f.divs[i], f.leaf, f.pages[i].right);
      }
    } else {
      var n := |f.pages| - 1;
      var l, a := f.pages[n].Logical(), f.Before(n);
      InteriorBefore(f, n);
      HeadsJoin(a, l);
      assert f.All() == a + l;
      assert OldKids(f, n) == Heads(l) + [f.pages[n].right];
      assert OldEntries(f, n) == Tails(l);
    }
  }

  /** Between index leaves, a gathered divider is the cell of a leaf with the key and payload it had in the parent. */
  lemma DividerReads(f: Family, usable: nat, i: nat)
    requires f.Valid() && f.leaf && !f.leafData && i + 1 < |f.pages| && CellFormat.Usable(usable)
    requires CellFormat.Parsed(CellFormat.IndexInterior, usable, f.divs[i], 0).at <= |f.divs[i]|
    ensures f.Cut(i) < |f.All()|
    ensures var c, d := CellFormat.Parsed(CellFormat.IndexLeaf, usable, f.All()[f.Cut(i)], 0),
                        CellFormat.Parsed(CellFormat.IndexInterior, usable, f.divs[i], 0);
      c.key == d.key && c.payload == d.payload && c.local == d.local && c.at + 4 == d.at
  {
    hide Joined, Family.Before, Family.All, Family.Cut;
    PagePlace(f, i);
    JoinedIs(f.divs[i], f.leaf, f.pages[i].right);
    Dividers.LeafAhead(usable, f.divs[i], f.All()[f.Cut(i)]);
  }

  /** The children of the new pages, where the child of the cell at a cut goes to the header of the page before it and
      the last page has what the last page had. */
  ghost predicate SameKids(f: Family, s: seq<CellBytes>, cnt: seq<nat>)
    requires f.Valid() && SiblingUpdate.Cut(LoadOf(s, f.leafData, f.room), cnt)
  {
    var p := LoadOf(s, f.leafData, f.room);
    f.leaf || ReadFrom(p, Heads(s), cnt, 0) + [f.pages[|f.pages| - 1].right] == OldKids(f, 0)
  }

  lemma KidsBack(f: Family, s: seq<CellBytes>, cnt: seq<nat>)
    requires f.Valid() && SiblingUpdate.Cut(LoadOf(s, f.leafData, f.room), cnt) && SameEntries(f, s)
    ensures SameKids(f, s, cnt)
  {
    LoadIs(s, f.leafData, f.room);
    ReadBack(LoadOf(s, f.leafData, f.room), Heads(s), cnt, 0);
  }

  /** Gathering and planning: the new siblings and dividers read in order give what the old ones gave, each page
      fits, and none is empty unless there is only one. */
  method Redistribute(f: Family, bulk: bool, ghost i: nat)
    returns (apCell: seq<CellBytes>, cnt: seq<nat>, sz: seq<int>, ghost packed: seq<nat>)
    requires f.Valid() && (OneOverflows(f, i) || forall q: nat :: q < |f.pages| ==> f.pages[q].ovfl == [])
    requires LoadOf(f.All(), f.leafData, f.room).Fits()
    ensures apCell == OldRead(f, 0) && Legal(LoadOf(apCell, f.leafData, f.room), cnt)
    ensures AllFull(LoadOf(apCell, f.leafData, f.room), packed, |cnt|)
    ensures EvenedOut(LoadOf(apCell, f.leafData, f.room), packed, cnt, |cnt|, bulk)
    ensures |sz| == |cnt| <= MX && forall q: nat :: q < |cnt| ==> Exact(LoadOf(apCell, f.leafData, f.room), cnt, sz, q)
    ensures |cnt| > 1 ==> SiblingUpdate.Cut(LoadOf(apCell, f.leafData, f.room), cnt)
    ensures |cnt| > 1 ==> ReadFrom(LoadOf(apCell, f.leafData, f.room), apCell, cnt, 0) == OldRead(f, 0)
    ensures SameEntries(f, apCell) && (|cnt| > 1 ==> SameKids(f, apCell, cnt))
  {
    hide Family.Valid, Family.Before, Family.All, Family.Cut, LoadOf, Plan, Balanced, Legal, Load.Fits,
         SiblingUpdate.Cut, SameEntries, SameKids, EvenedOut, AllFull;
    PagesFew(f);
    var cntNew, szNew := new nat[MX], new int[MX];
    apCell := Gather(f, cntNew, szNew);
    ghost var p := LoadOf(apCell, f.leafData, f.room);
    LoadIs(apCell, f.leafData, f.room);
    if OneOverflows(f, i) {
      GatheredCanBePlanned(f, cntNew[..|f.pages|], i);
    } else {
      UnderfullCanBePlanned(f, cntNew[..|f.pages|]);
    }
    OldReadIs(f, 0);
    NoneBefore(f);
    GatheredEntries(f);
    var ok, k;
    ok, k, packed := PlanSiblings(LoadOf(apCell, f.leafData, f.room), cntNew, szNew, |f.pages|, bulk);
    EvenedCuts(p, packed, cntNew[..], k, bulk);
    packed := packed[..k];
    BalancedLegal(p, cntNew[..], szNew[..], k);
    cnt, sz := cntNew[..k], szNew[..k];
    ExactParts(p, cntNew[..], szNew[..], k);
    if k > 1 {
      BalancedCut(p, cntNew[..], szNew[..], k);
      ReadBack(p, apCell, cnt, 0);
      KidsBack(f, apCell, cnt);
    }
  }

  lemma ExactParts(p: Load, cnt: seq<nat>, sz: seq<int>, k: nat)
    requires Balanced(p, cnt, sz, k)
    ensures k <= |cnt| == |sz| == MX && forall q: nat :: q < k ==> Exact(p, cnt[..k], sz[..k], q)
  {
    assert k <= |cnt| == |sz|;
    forall q: nat | q < k
      ensures Exact(p, cnt[..k], sz[..k], q)
    {
      assert Exact(p, cnt, sz, q);
    }
  }

  lemma PagesFew(f: Family)
    requires f.Valid()
    ensures 1 <= |f.pages| <= 3
  {
  }

  lemma NoneBefore(f: Family)
    requires f.Valid()
    ensures f.Before(0) == []
  {
  }
}
