/** Making a page hold its new share of the cells that are being balanced: in place where there is room, or
    from scratch. */
module EditPage {
  import opened Bytes
  import opened Spans
  import opened PageLayout
  import opened PageCells
  import opened PageEdit
  import opened PageDrafts
  import opened MemPages

  /** apCell[]: a cell is in the body of the page under edit, or somewhere else. */
  datatype ArrayCell = OnPage(at: nat) | Elsewhere(bytes: seq<byte>)

  /** All cells that are being balanced, and their sizes. */
  datatype CellArray = CellArray(at: seq<ArrayCell>, sz: seq<nat>)

  /** Entry i has the size, and elsewhere the bytes, of the i-th cell. */
  ghost predicate EntryOk(f: seq<byte> -> nat, a: CellArray, want: seq<seq<byte>>, i: nat) {
    && i < |a.at| == |a.sz| == |want| && SizeIs(f, want, i) && a.sz[i] == |want[i]|
    && (a.at[i].Elsewhere? ==> a.at[i].bytes == want[i])
  }

  ghost predicate ArrayOk(f: seq<byte> -> nat, a: CellArray, want: seq<seq<byte>>) {
    |a.at| == |a.sz| == |want| && forall i: nat | i < |want| :: EntryOk(f, a, want, i)
  }

  // ---- which cells the page holds ----------------------------------------------------------------

  /** The page before the edit: nCell cells in its body and m overflow cells, which stand together
      before the body cell with index o. */
  datatype Before = Before(iOld: nat, nCell: nat, o: nat, m: nat) {
    predicate Valid() {
      o <= nCell
    }
    function End(): nat {
      iOld + nCell + m
    }
    /** The two runs of cells in the page body. */
    predicate InBody(j: int) {
      iOld <= j < iOld + o || iOld + o + m <= j < End()
    }
    function Slot(k: nat): nat {
      if k < o then iOld + k else iOld + m + k
    }
  }

  function Max(a: int, b: int): int {
    if a < b then b else a
  }

  function Min(a: int, b: int): int {
    if a < b then a else b
  }

  /** How many numbers the intervals [a, b) and [lo, hi) share. */
  function Overlap(a: int, b: int, lo: int, hi: int): nat {
    var x, y := if a < lo then lo else a, if b < hi then b else hi;
    if x < y then y - x else 0
  }

  /** The k-th cell from a on when those from lo up to hi are passed over. */
  function Skipping(a: int, lo: int, hi: int, k: int): int {
    if a + k < lo then a + k else Max(a, hi) + k - Max(lo - a, 0)
  }

  function HeldAt(held: seq<int>, k: nat): int
    requires k < |held|
  {
    held[k]
  }

  /** The cells of [a, b) but those of [lo, hi). */
  ghost predicate Holding(held: seq<int>, a: int, b: int, lo: int, hi: int) {
    && lo <= hi && |held| == Max(b - a, 0) - Overlap(a, b, lo, hi)
    && forall k: nat | k < |held| :: HeldAt(held, k) == Skipping(a, lo, hi, k)
  }

  /** How many of them are before c. */
  function Cut(a: int, b: int, lo: int, hi: int, c: int): (n: int)
    requires lo <= hi
    ensures 0 <= n <= Max(b - a, 0) - Overlap(a, b, lo, hi)
  {
    Max(Min(b, c) - a, 0) - Overlap(a, Min(b, c), lo, hi)
  }

  /** The indexes before place m are below i, the others are not. */
  ghost predicate Passed(held: seq<int>, m: nat, i: int) {
    && m <= |held| && (forall k: nat | k < m :: HeldAt(held, k) < i)
    && forall k: nat | m <= k < |held| :: HeldAt(held, k) >= i
  }

  ghost predicate Ascends(held: seq<int>) {
    forall j: nat, k: nat | j < k < |held| :: HeldAt(held, j) < HeldAt(held, k)
  }

  lemma HoldingCut(held: seq<int>, a: int, b: int, lo: int, hi: int, c: int)
    requires Holding(held, a, b, lo, hi)
    ensures var n := Cut(a, b, lo, hi, c);
      && n <= |held| && Ascends(held) && Passed(held, n, c)
      && Holding(held[..n], a, Min(b, c), lo, hi) && Holding(held[n..], Max(a, c), Max(b, c), lo, hi)
  {
    hide Holding, Passed, Ascends, Cut;
    CutPassed(held, a, b, lo, hi, c);
    CutFront(held, a, b, lo, hi, c);
    CutBack(held, a, b, lo, hi, c);
  }

  lemma CutPassed(held: seq<int>, a: int, b: int, lo: int, hi: int, c: int)
    requires Holding(held, a, b, lo, hi)
    ensures Ascends(held) && Passed(held, Cut(a, b, lo, hi, c), c)
  {
  }

  lemma CutFront(held: seq<int>, a: int, b: int, lo: int, hi: int, c: int)
    requires Holding(held, a, b, lo, hi)
    ensures var n := Cut(a, b, lo, hi, c); n <= |held| && Holding(held[..n], a, Min(b, c), lo, hi)
  {
    var n := Cut(a, b, lo, hi, c);
    forall k: nat | k < n
      ensures HeldAt(held[..n], k) == HeldAt(held, k)
    {
    }
  }

  lemma CutBack(held: seq<int>, a: int, b: int, lo: int, hi: int, c: int)
    requires Holding(held, a, b, lo, hi)
    ensures var n := Cut(a, b, lo, hi, c); n <= |held| && Holding(held[n..], Max(a, c), Max(b, c), lo, hi)
  {
    hide Skipping, Max, Min, Overlap, Cut;
    var n := Cut(a, b, lo, hi, c);
    RestLength(a, b, lo, hi, c);
    forall k: nat | k < |held| - n
      ensures HeldAt(held[n..], k) == Skipping(Max(a, c), lo, hi, k)
    {
      assert HeldAt(held[n..], k) == HeldAt(held, k + n);
      SkippingRest(a, b, lo, hi, c, k);
    }
  }

  lemma RestLength(a: int, b: int, lo: int, hi: int, c: int)
    requires lo <= hi
    ensures Max(b - a, 0) - Overlap(a, b, lo, hi) - Cut(a, b, lo, hi, c)
      == Max(Max(b, c) - Max(a, c), 0) - Overlap(Max(a, c), Max(b, c), lo, hi)
  {
  }

  lemma SkippingRest(a: int, b: int, lo: int, hi: int, c: int, k: nat)
    requires lo <= hi && k < Max(b - a, 0) - Overlap(a, b, lo, hi) - Cut(a, b, lo, hi, c)
    ensures Skipping(a, lo, hi, k + Cut(a, b, lo, hi, c)) == Skipping(Max(a, c), lo, hi, k)
  {
  }

  lemma HoldingHas(held: seq<int>, a: int, b: int, lo: int, hi: int, i: int)
    requires Holding(held, a, b, lo, hi) && a <= i < b && !(lo <= i < hi)
    ensures i in held
  {
    var k: nat := if i < lo then i - a else i - a - (if a < lo then hi - lo else Max(hi - a, 0));
    assert k < |held| && HeldAt(held, k) == i;
  }

  function Iota(i: nat, n: nat): (r: seq<int>)
    ensures |r| == n && forall k: nat | k < n :: HeldAt(r, k) == i + k
  {
    seq(n, k => i + k)
  }

  /** Cells that come in front. */
  lemma HoldingFront(held: seq<int>, iNew: nat, n: nat, iOld: nat, b: int, lo: int, hi: int)
    requires Holding(held, iOld, b, lo, hi) && iNew + n <= iOld <= lo
    requires (b >= iOld && n == iOld - iNew) || b == iNew + n
    ensures Holding(Iota(iNew, n) + held, iNew, b, lo, hi)
  {
    var h := Iota(iNew, n) + held;
    forall k: nat | k < |h|
      ensures HeldAt(h, k) == if k < n then HeldAt(Iota(iNew, n), k) else HeldAt(held, k - n)
    {
    }
  }

  /** An overflow cell enters at its place, if it belongs on the page. */
  lemma HoldingStep(held: seq<int>, a: nat, b: int, lo: nat, hi: int)
    requires Holding(held, a, b, lo, hi) && lo < hi
    ensures !(a <= lo < b) ==> Holding(held, a, b, lo + 1, hi)
    ensures a <= lo < b ==> lo - a <= |held| && Holding(held[..lo - a] + Iota(lo, 1) + held[lo - a..], a, b, lo + 1, hi)
  {
    if a <= lo < b {
      var p := lo - a;
      var h := held[..p] + Iota(lo, 1) + held[p..];
      assert HeldAt(Iota(lo, 1), 0) == lo;
      forall k: nat | k < |h|
        ensures HeldAt(h, k) == Skipping(a, lo + 1, hi, k)
      {
        assert HeldAt(h, k) == if k < p then HeldAt(held, k) else if k == p then lo else HeldAt(held, k - 1);
      }
    }
  }

  lemma HoldingAll(held: seq<int>, a: int, b: int, hi: int)
    requires Holding(held, a, b, hi, hi)
    ensures |held| == Max(b - a, 0) && forall k: nat | k < |held| :: HeldAt(held, k) == a + k
  {
  }

  // ---- cells that leave ----------------------------------------------------------------------------

  /** The k-th cell of the page is the one that the array has there. */
  ghost predicate InPlace(a: CellArray, s: seq<Span>, held: seq<int>, k: nat) {
    && k < |s| == |held| && 0 <= HeldAt(held, k) < |a.at| == |a.sz|
    && a.at[HeldAt(held, k)] == OnPage(s[k].start) && a.sz[HeldAt(held, k)] == s[k].size
  }

  ghost predicate AllInPlace(a: CellArray, s: seq<Span>, held: seq<int>) {
    |s| == |held| && forall k: nat | k < |s| :: InPlace(a, s, held, k)
  }

  /** Cells of the array that are in the page's body are among those the page holds. */
  ghost predicate OnlyThere(a: CellArray, held: seq<int>, lo: nat, hi: nat) {
    hi <= |a.at| && forall i: nat | lo <= i < hi :: (At0(a, i).OnPage? ==> i in held)
  }

  function At0(a: CellArray, i: nat): ArrayCell
    requires i < |a.at|
  {
    a.at[i]
  }

  lemma NotAfter(held: seq<int>, m: nat, k: nat, i: int)
    requires Ascends(held) && Passed(held, m, i) && k < |held| && HeldAt(held, k) == i
    ensures k == m
  {
    assert m <= k && HeldAt(held, m) >= i;
  }

  lemma NextHeld(held: seq<int>, m: nat, i: int)
    requires Ascends(held) && Passed(held, m, i)
    ensures i in held ==> m < |held| && HeldAt(held, m) == i && Passed(held, m + 1, i + 1)
    ensures i !in held ==> Passed(held, m, i + 1)
  {
    if i in held {
      var k: nat :| k < |held| && held[k] == i;
      assert HeldAt(held, k) == i;
      NotAfter(held, m, k, i);
      forall j: nat | m < j < |held|
        ensures HeldAt(held, j) >= i + 1
      {
        assert HeldAt(held, m) < HeldAt(held, j);
      }
    } else {
      forall j: nat | m <= j < |held|
        ensures HeldAt(held, j) != i
      {
        assert held[j] in held;
      }
    }
  }

  /** The next cell to be released comes last. */
  lemma NextLast(g: Geometry, d: seq<byte>, keep: seq<Span>, s: seq<Span>, k: nat, y: nat, free: seq<Span>)
    requires k < y <= |s| && Space(g, d, keep + s[k..y], free)
    ensures Space(g, d, keep + s[k + 1..y] + [s[k]], free)
  {
    hide Space;
    assert s[k..y] == [s[k]] + s[k + 1..y];
    SpacePerm(g, d, keep + s[k..y], keep + s[k + 1..y] + [s[k]], free);
  }

  /** It borders on the block that is to be released. */
  lemma NextJoined(g: Geometry, d: seq<byte>, keep: seq<Span>, s: seq<Span>, k: nat, y: nat, z: Span, free: seq<Span>)
    requires k < y <= |s| && Space(g, d, keep + s[k..y] + [z], free) && s[k].End() == z.start
    ensures Space(g, d, keep + s[k + 1..y] + [Span(s[k].start, s[k].size + z.size)], free)
  {
    hide Space;
    assert s[k..y] == [s[k]] + s[k + 1..y];
    SpacePerm(g, d, keep + s[k..y] + [z], keep + s[k + 1..y] + [s[k]] + [z], free);
    SpaceJoin(g, d, keep + s[k + 1..y], s[k], z, free);
  }

  lemma FrameLess(g: Geometry, d: seq<byte>, d1: seq<byte>, d2: seq<byte>, keep: seq<Span>, more: seq<Span>)
    requires Holds(g, d) && Holds(g, d1) && Frame(g, d, d1, keep) && Frame(g, d1, d2, keep + more)
    requires Top(g, d) <= Top(g, d1)
    ensures Frame(g, d, d2, keep)
  {
    forall q: nat | q < |d| && (q <= g.hdr || g.hdr + 3 <= q < g.hdr + 5 || g.hdr + 8 <= q < Top(g, d) || g.usable <= q)
      ensures Kept(d, d2, q)
    {
      assert Kept(d, d1, q) && Kept(d1, d2, q);
    }
    forall i: nat, q: nat | i < |keep| && q < |d| && At(keep, i).Has(q)
      ensures Kept(d, d2, q)
    {
      assert Kept(d, d1, q);
      assert At(keep + more, i) == At(keep, i);
      assert Kept(d1, d2, q);
    }
  }

  /** freeSpace() for the range that was written down last. */
  method Release(pg: MemPage, start: nat, size: nat, ghost rest: seq<Span>)
    requires Space(pg.g, pg.data[..], rest + [Span(start, size)], pg.free)
    modifies pg`free, pg`nFree, pg.data
    ensures Space(pg.g, pg.data[..], rest, pg.free) && Frame(pg.g, old(pg.data[..]), pg.data[..], rest)
    ensures Top(pg.g, old(pg.data[..])) <= Top(pg.g, pg.data[..])
  {
    hide Space, Frame;
    ghost var k := pg.FreeSpace(start, size, rest + [Span(start, size)], |rest|);
    LastGone(rest, Span(start, size));
  }

  lemma LastGone(rest: seq<Span>, z: Span)
    ensures Without(rest + [z], |rest|) == rest
  {
    var u, r := rest + [z], Without(rest + [z], |rest|);
    forall i: nat | i < |r|
      ensures r[i] == rest[i]
    {
      assert At(r, i) == u[i];
    }
  }

  lemma PassedSame(held: seq<int>, m: nat, n: nat, i: int)
    requires Passed(held, m, i) && Passed(held, n, i)
    ensures m == n <= |held|
  {
    PassedBefore(held, m, n, i, i);
    PassedBefore(held, n, m, i, i);
  }

  lemma PassedBefore(held: seq<int>, m: nat, n: nat, i: int, j: int)
    requires Passed(held, m, i) && Passed(held, n, j) && i <= j
    ensures m <= n && (i < j && m < |held| && HeldAt(held, m) == i ==> m < n)
  {
    if m > 0 {
      var k := m - 1;
      assert HeldAt(held, k) < i;
    }
  }

  lemma FreeStart(g: Geometry, d: seq<byte>, s: seq<Span>, x: nat, y: nat, free: seq<Span>)
    requires x <= y <= |s| && Space(g, d, s, free)
    ensures Space(g, d, s[..x] + s[y..] + s[x..y], free)
    ensures Frame(g, d, d, s[..x] + s[y..])
  {
    hide Space;
    assert s == s[..x] + s[x..y] + s[y..];
    SpacePerm(g, d, s, s[..x] + s[y..] + s[x..y], free);
    SpaceParts(g, d, s, free);
  }

  /** A cell in the page body that is to be released, and what else is. */
  lemma HereBounds(g: Geometry, d: seq<byte>, keep: seq<Span>, s: seq<Span>, k: nat, y: nat, more: seq<Span>,
                   free: seq<Span>)
    requires k < y <= |s| && Space(g, d, keep + s[k..y] + more, free)
    ensures g.CellOffset() <= s[k].start < g.usable && s[k].End() <= g.usable && s[k].start > 0
  {
    var u, n := keep + s[k..y] + more, |keep|;
    assert At(u, n) == s[k] && Top(g, d) <= At(u, n).start && At(u, n).End() <= g.usable && 4 <= At(u, n).size;
  }

  /** What is to be released after the first k cells: those from there on, and a block if there is one. */
  function Left(keep: seq<Span>, s: seq<Span>, k: nat, y: nat, pFree: nat, szFree: nat): seq<Span>
    requires k <= y <= |s|
  {
    keep + s[k..y] + if pFree == 0 then [] else [Span(pFree, szFree)]
  }

  /** One cell of pageFreeArray(). */
  method FreeOne(pg: MemPage, pCell: nat, sz: nat, pFree0: nat, szFree0: nat, ghost keep: seq<Span>, ghost s: seq<Span>,
                 ghost k: nat, ghost y: nat)
    returns (pFree: nat, szFree: nat)
    requires k < y <= |s| && s[k] == Span(pCell, sz)
    requires Space(pg.g, pg.data[..], Left(keep, s, k, y, pFree0, szFree0), pg.free)
    modifies pg`free, pg`nFree, pg.data
    ensures Space(pg.g, pg.data[..], Left(keep, s, k + 1, y, pFree, szFree), pg.free)
    ensures Holds(pg.g, old(pg.data[..])) && Holds(pg.g, pg.data[..])
    ensures Frame(pg.g, old(pg.data[..]), pg.data[..], keep) && Top(pg.g, old(pg.data[..])) <= Top(pg.g, pg.data[..])
  {
    hide Space, Frame;
    ghost var d := pg.data[..];
    HereBounds(pg.g, d, keep, s, k, y, if pFree0 == 0 then [] else [Span(pFree0, szFree0)], pg.free);
    SpaceParts(pg.g, d, Left(keep, s, k, y, pFree0, szFree0), pg.free);
    FrameSame(pg.g, d, keep);
    if pFree0 != pCell + sz {
      if pFree0 != 0 {
        Release(pg, pFree0, szFree0, keep + s[k..y]);
        SpaceParts(pg.g, pg.data[..], keep + s[k..y], pg.free);
        FrameLess(pg.g, d, d, pg.data[..], keep, s[k..y]);
      }
      assert keep + s[k..y] + [] == keep + s[k..y];
      NextLast(pg.g, pg.data[..], keep, s, k, y, pg.free);
      pFree := pCell;
      szFree := sz;
      if pFree + sz > pg.g.usable {
        assert false;  // return 0
      }
    } else {
      NextJoined(pg.g, d, keep, s, k, y, Span(pFree0, szFree0), pg.free);
      pFree := pCell;
      szFree := szFree0 + sz;
    }
  }

  /** pageFreeArray(): the cells from iFirst on that are in the page body are released; neighbours are
      released together. They are those from place x up to place y. */
  method PageFreeArray(pg: MemPage, iFirst: nat, n: nat, a: CellArray, ghost s: seq<Span>, ghost held: seq<int>,
                       ghost x: nat, ghost y: nat)
    returns (nRet: nat)
    requires Space(pg.g, pg.data[..], s, pg.free) && AllInPlace(a, s, held) && Ascends(held)
    requires x <= y && Passed(held, x, iFirst) && Passed(held, y, iFirst + n) && OnlyThere(a, held, iFirst, iFirst + n)
    modifies pg`free, pg`nFree, pg.data
    ensures nRet == y - x
    ensures Space(pg.g, pg.data[..], s[..x] + s[y..], pg.free)
    ensures Frame(pg.g, old(pg.data[..]), pg.data[..], s[..x] + s[y..])
    ensures Top(pg.g, old(pg.data[..])) <= Top(pg.g, pg.data[..])
  {
    hide Space, Frame, Ascends, Passed;
    PassedSame(held, x, x, iFirst);
    PassedSame(held, y, y, iFirst + n);
    ghost var keep := s[..x] + s[y..];
    FreeStart(pg.g, pg.data[..], s, x, y, pg.free);
    SpaceParts(pg.g, pg.data[..], s, pg.free);
    nRet := 0;
    var pFree, szFree: nat := 0, 0;
    assert Left(keep, s, x, y, 0, 0) == keep + s[x..y];
    var i := iFirst;
    while i < iFirst + n
      invariant iFirst <= i <= iFirst + n && x + nRet <= y && Passed(held, x + nRet, i)
      invariant Space(pg.g, pg.data[..], Left(keep, s, x + nRet, y, pFree, szFree), pg.free)
      invariant Holds(pg.g, pg.data[..]) && Top(pg.g, old(pg.data[..])) <= Top(pg.g, pg.data[..])
      invariant Frame(pg.g, old(pg.data[..]), pg.data[..], keep)
    {
      ghost var k := x + nRet;
      NextHeld(held, k, i);
      PassedBefore(held, k, y, i, iFirst + n);
      ThereIs(a, s, held, k, i, iFirst, iFirst + n);
      if i in held {
        HereBounds(pg.g, pg.data[..], keep, s, k, y, if pFree == 0 then [] else [Span(pFree, szFree)], pg.free);
      }
      if a.at[i].OnPage? && pg.g.CellOffset() <= a.at[i].at < pg.g.usable {
        ghost var d := pg.data[..];
        pFree, szFree := FreeOne(pg, a.at[i].at, a.sz[i], pFree, szFree, keep, s, k, y);
        assert keep + [] == keep;
        FrameLess(pg.g, old(pg.data[..]), d, pg.data[..], keep, []);
        nRet := nRet + 1;
      }
      i := i + 1;
    }
    PassedSame(held, x + nRet, y, iFirst + n);
    assert Left(keep, s, y, y, pFree, szFree) == keep + if pFree == 0 then [] else [Span(pFree, szFree)];
    if pFree != 0 {
      ghost var d := pg.data[..];
      Release(pg, pFree, szFree, keep);
      assert keep + [] == keep;
      FrameLess(pg.g, old(pg.data[..]), d, pg.data[..], keep, []);
    }
  }

  /** An entry of the array is in the page's body exactly if it is the next cell of the page. */
  lemma ThereIs(a: CellArray, s: seq<Span>, held: seq<int>, k: nat, i: nat, lo: nat, hi: nat)
    requires AllInPlace(a, s, held) && OnlyThere(a, held, lo, hi) && lo <= i < hi
    requires i in held ==> k < |held| && HeldAt(held, k) == i
    ensures i < |a.at| && (a.at[i].OnPage? <==> i in held)
    ensures i in held ==> k < |s| && i < |a.sz| && s[k] == Span(a.at[i].at, a.sz[i])
  {
    assert At0(a, i).OnPage? ==> i in held;
    if i in held {
      assert InPlace(a, s, held, k);
    }
  }

  // ---- cells that enter ----------------------------------------------------------------------------

  /** Whatever becomes of the edit: the cells that stay keep their bytes, and the rest of the page is sound. */
  ghost predicate Salvage(g: Geometry, d: seq<byte>, d': seq<byte>, high: seq<Span>, high': seq<Span>,
                          free': seq<Span>) {
    && high <= high' && Space(g, d', high', free') && SpansKept(d, d', high)
    && Holds(g, d) && Top(g, d') == Top(g, d) && SameButCount(g, d, d')
  }

  lemma SalvageTrans(g: Geometry, d: seq<byte>, d1: seq<byte>, d2: seq<byte>, h: seq<Span>, h1: seq<Span>,
                     h2: seq<Span>, f1: seq<Span>, f2: seq<Span>)
    requires Salvage(g, d, d1, h, h1, f1) && Salvage(g, d1, d2, h1, h2, f2)
    ensures Salvage(g, d, d2, h, h2, f2)
  {
    hide Space;
    SpansKeptTrans(d, d1, d2, h, h1);
    CountTrans(g, d, d1, d2);
  }

  lemma CountTrans(g: Geometry, d: seq<byte>, d1: seq<byte>, d2: seq<byte>)
    requires SameButCount(g, d, d1) && SameButCount(g, d1, d2)
    ensures SameButCount(g, d, d2)
  {
    forall q: nat | q < |d| && ((q < g.CellOffset() && !(g.hdr + 1 <= q < g.hdr + 8)) || g.usable <= q)
      ensures Kept(d, d2, q)
    {
      assert Kept(d, d1, q) && Kept(d1, d2, q);
    }
  }

  lemma SalvageSame(g: Geometry, d: seq<byte>, high: seq<Span>, free: seq<Span>)
    requires Space(g, d, high, free)
    ensures Salvage(g, d, d, high, high, free)
  {
    SpansSame(g, d, high, free);
  }

  lemma EditingParts(g: Geometry, d: seq<byte>, free: seq<Span>, want: seq<seq<byte>>, dr: Draft, p: nat, w: nat,
                     begin: nat, data: nat)
    requires Editing(g, d, free, want, dr, p, w, begin, data)
    ensures Space(g, d, dr.high, free) && p <= |dr.s| == |dr.held|
    ensures Gap(g, |dr.s| + w) <= begin <= data <= g.usable <= |d|
    ensures Get2(d, g.hdr + 1) == Link(free, 0) && g.hdr + 8 < g.usable && g.usable <= 0x1_0000
    ensures (d[g.hdr + 1] == 0 && d[g.hdr + 2] == 0) <==> free == []
  {
    ReadNode(g, d, dr.high, free, 0);
  }

  /** One cell of pageInsertArray(): a slot of the free list, or else room in front of the content area. */
  method InsertOne(pg: MemPage, begin: nat, data0: nat, p: nat, c: seq<byte>, sz: nat, ghost w: nat, ghost i: nat,
                   ghost want: seq<seq<byte>>, ghost dr0: Draft)
    returns (ok: bool, data: nat, ghost dr: Draft)
    requires Editing(pg.g, pg.data[..], pg.free, want, dr0, p, w, begin, data0) && w >= 1
    requires SizeIs(pg.xCellSize, want, i) && c == want[i] && sz == |c| && pg.g.hdr == 0
    modifies pg.data, pg`free
    ensures Salvage(pg.g, old(pg.data[..]), pg.data[..], dr0.high, dr.high, pg.free)
    ensures ok ==> Editing(pg.g, pg.data[..], pg.free, want, dr, p + 1, w - 1, begin, data)
    ensures ok ==> p <= |dr0.held| && dr.held == InsertAt(dr0.held, p, i as int)
  {
    hide Editing, Space, Wrote, Frame, Chain, SizeIs, Added, Salvage;
    ghost var d, free := pg.data[..], pg.free;
    EditingParts(pg.g, d, free, want, dr0, p, w, begin, data0);
    SalvageSame(pg.g, d, dr0.high, free);
    SizeFour(pg.xCellSize, want, i);
    data, dr := data0, dr0;
    var slot := 0;
    if pg.data[1] != 0 || pg.data[2] != 0 {
      slot := pg.PageFindSlot(sz, dr0.high);
    }
    ghost var d1, free1 := pg.data[..], pg.free;
    if slot == 0 {
      if data - begin < sz {
        return false, data, dr;
      }
      data := data - sz;
      slot := data;
      AddedFromGap(pg.g, d, free, want, dr0, p, w, begin, data0, i);
      dr := Added(dr0, p, Span(slot, sz), i, true);
    } else {
      AddedInSlot(pg.g, d, d1, free, free1, want, dr0, p, w, begin, data0, Span(slot, sz), i);
      dr := Added(dr0, p, Span(slot, sz), i, false);
    }
    WriteCell(pg, slot, c, p);
    EditingParts(pg.g, pg.data[..], pg.free, want, dr, p + 1, w - 1, begin, data);
    SalvageStep(pg.g, d, pg.data[..], dr0, p, Span(slot, sz), i, dr, pg.free);
    ok := true;
  }

  lemma SalvageStep(g: Geometry, d: seq<byte>, d': seq<byte>, dr0: Draft, p: nat, z: Span, i: nat, dr: Draft,
                    free: seq<Span>)
    requires p <= |dr0.s| == |dr0.held| && (dr == Added(dr0, p, z, i, true) || dr == Added(dr0, p, z, i, false))
    requires Space(g, d', dr.high, free) && SpansKept(d, d', dr0.high) && Holds(g, d) && Top(g, d') == Top(g, d)
    requires SameButCount(g, d, d')
    ensures Salvage(g, d, d', dr0.high, dr.high, free) && dr.held == InsertAt(dr0.held, p, i as int)
  {
    hide Space, SpansKept, SameButCount;
  }

  lemma SizeFour(f: seq<byte> -> nat, want: seq<seq<byte>>, i: nat)
    requires SizeIs(f, want, i)
    ensures i < |want| && 4 <= |want[i]|
  {
  }

  /** memmove() of the cell, put2byte() of its pointer. */
  method WriteCell(pg: MemPage, slot: nat, c: seq<byte>, p: nat)
    requires slot + |c| <= pg.data.Length && Gap(pg.g, p) + 2 <= slot < 0x1_0000
    modifies pg.data
    ensures pg.data[..] == Wrote(pg.g, old(pg.data[..]), c, Span(slot, |c|), p)
  {
    hide Put2, Copy;
    WriteCopy(pg.data, slot, c, 0, |c|);
    WriteTwo(pg.data, Gap(pg.g, p), slot);
  }

  /** pageInsertArray(): n cells of the array from iFirst on, none of them in the body of this page, enter the
      hole in the pointer array at place p. */
  method PageInsertArray(pg: MemPage, begin: nat, data0: nat, p: nat, iFirst: nat, n: nat, a: CellArray,
                         ghost want: seq<seq<byte>>, ghost dr0: Draft)
    returns (ok: bool, data: nat, ghost dr: Draft)
    requires pg.g.hdr == 0 && Editing(pg.g, pg.data[..], pg.free, want, dr0, p, n, begin, data0)
    requires ArrayOk(pg.xCellSize, a, want) && iFirst + n <= |a.at|
    requires forall i: nat | iFirst <= i < iFirst + n :: At0(a, i).Elsewhere?
    modifies pg.data, pg`free
    ensures Salvage(pg.g, old(pg.data[..]), pg.data[..], dr0.high, dr.high, pg.free)
    ensures ok ==> Editing(pg.g, pg.data[..], pg.free, want, dr, p + n, 0, begin, data)
    ensures ok ==> p <= |dr0.held| && dr.held == dr0.held[..p] + Iota(iFirst, n) + dr0.held[p..]
  {
    hide Editing, Space, SizeIs, Salvage, Iota;
    ghost var d := pg.data[..];
    EditingParts(pg.g, d, pg.free, want, dr0, p, n, begin, data0);
    SalvageSame(pg.g, d, dr0.high, pg.free);
    IotaNone(dr0.held, p, iFirst);
    data, dr := data0, dr0;
    var j := 0;
    while j < n
      invariant 0 <= j <= n && Editing(pg.g, pg.data[..], pg.free, want, dr, p + j, n - j, begin, data)
      invariant Salvage(pg.g, d, pg.data[..], dr0.high, dr.high, pg.free)
      invariant dr.held == dr0.held[..p] + Iota(iFirst, j) + dr0.held[p..]
    {
      ghost var d1, dr1, free1 := pg.data[..], dr, pg.free;
      var i := iFirst + j;
      assert EntryOk(pg.xCellSize, a, want, i) && At0(a, i).Elsewhere?;
      ok, data, dr := InsertOne(pg, begin, data, p + j, a.at[i].bytes, a.sz[i], n - j, i, want, dr);
      SalvageTrans(pg.g, d, d1, pg.data[..], dr0.high, dr1.high, dr.high, free1, pg.free);
      if !ok {
        return;
      }
      IotaNext(dr0.held, p, iFirst, j);
      j := j + 1;
    }
    ok := true;
  }

  lemma IotaNone(held: seq<int>, p: nat, i: nat)
    requires p <= |held|
    ensures held[..p] + Iota(i, 0) + held[p..] == held
  {
  }

  lemma IotaNext(held: seq<int>, p: nat, i: nat, j: nat)
    requires p <= |held|
    ensures InsertAt(held[..p] + Iota(i, j) + held[p..], p + j, i + j) == held[..p] + Iota(i, j + 1) + held[p..]
  {
    var x, y := Iota(i, j), Iota(i, j + 1);
    assert y == x + [i + j] by {
      forall k: nat | k < j
        ensures y[k] == x[k]
      {
        assert HeldAt(y, k) == HeldAt(x, k);
      }
      assert HeldAt(y, j) == i + j;
    }
    var h := held[..p] + x + held[p..];
    assert h[..p + j] == held[..p] + x && h[p + j..] == held[p..];
  }

  // ---- editPage() ----------------------------------------------------------------------------------

  /** The page holds cells iOld to End of the array: those in its body and its overflow cells. */
  ghost predicate PageIs(pg: MemPage, p: Before, a: CellArray, want: seq<seq<byte>>)
    reads pg, pg.data
  {
    && pg.Valid() && p.Valid() && p.nCell == pg.nCell && p.m == |pg.ovfl| && p.End() <= |a.at|
    && ArrayOk(pg.xCellSize, a, want)
    && (forall k: nat | k < pg.nCell :: BodyCell(pg.data[..], pg.cells, p, a, want, k))
    && (forall t: nat | t < p.m :: pg.ovfl[t].0 == p.o + t)
    && forall i: nat | i < |a.at| :: (At0(a, i).OnPage? ==> p.InBody(i))
  }

  ghost predicate BodyCell(d: seq<byte>, cells: seq<Span>, p: Before, a: CellArray, want: seq<seq<byte>>, k: nat) {
    && k < |cells| && p.Slot(k) < |a.at| == |want| && a.at[p.Slot(k)] == OnPage(cells[k].start)
    && cells[k].End() <= |d| && CellBytes(d, cells[k]) == want[p.Slot(k)]
  }

  /** The page while cells leave: what it still holds, and how much of the pointer array is good. */
  ghost predicate Trimmed(g: Geometry, d: seq<byte>, free: seq<Span>, a: CellArray, want: seq<seq<byte>>, s: seq<Span>,
                          held: seq<int>) {
    && Space(g, d, s, free) && Slots(g, d, want, s, held, 0, 0) && AllInPlace(a, s, held) && Gap(g, |s|) <= Top(g, d)
  }

  function HeldBefore(p: Before): (held: seq<int>)
    requires p.Valid()
    ensures |held| == p.nCell && forall k: nat | k < p.nCell :: HeldAt(held, k) == p.Slot(k)
  {
    seq(p.nCell, k requires 0 <= k < p.nCell => p.Slot(k))
  }

  lemma TrimStart(g: Geometry, f: seq<byte> -> nat, d: seq<byte>, nFree: int, cells: seq<Span>, free: seq<Span>,
                  p: Before, a: CellArray, want: seq<seq<byte>>)
    requires PageOk(g, f, d, p.nCell, nFree, cells, free) && p.Valid() && ArrayOk(f, a, want) && p.End() <= |a.at|
    requires forall k: nat | k < p.nCell :: BodyCell(d, cells, p, a, want, k)
    ensures Trimmed(g, d, free, a, want, cells, HeldBefore(p))
    ensures Holding(HeldBefore(p), p.iOld, p.End(), p.iOld + p.o, p.iOld + p.o + p.m)
  {
    hide Space, HeldBefore, Get2;
    var held := HeldBefore(p);
    forall k: nat | k < |cells|
      ensures InPlace(a, cells, held, k) && SlotOk(g, d, want, cells, held, 0, 0, k)
    {
      assert CellAt(g, f, d, cells, k) && BodyCell(d, cells, p, a, want, k) && HeldAt(held, k) == p.Slot(k);
      var i := p.Slot(k);
      assert EntryOk(f, a, want, i);
    }
    assert forall k: nat | k < |held| :: HeldAt(held, k) == Skipping(p.iOld, p.iOld + p.o, p.iOld + p.o + p.m, k);
  }

  /** The first n cells have been released; the pointers of the others are still where they were. */
  lemma FrontReleased(g: Geometry, d: seq<byte>, d': seq<byte>, free: seq<Span>, free': seq<Span>, a: CellArray,
                      want: seq<seq<byte>>, s: seq<Span>, held: seq<int>, n: nat)
    requires Trimmed(g, d, free, a, want, s, held) && n <= |s| && Space(g, d', s[n..], free')
    requires Frame(g, d, d', s[n..]) && Top(g, d) <= Top(g, d')
    ensures |s| == |held| && SameButCount(g, d, d') && Gap(g, |s| + n) <= |d|
    ensures var d2 := Copy(d', Gap(g, 0), d', Gap(g, n), 2 * |s|);
      Trimmed(g, d2, free', a, want, s[n..], held[n..]) && SameButCount(g, d, d2)
  {
    hide Copy, Chain, Sum, Slots, Frame;
    var s' := s[n..];
    PointersFit(g, d, s, free);
    assert s' == s[n..|s|] && held[n..] == held[n..|s|];
    KeptPart(g, d, d', s, n, |s|, free, s');
    FrameBelow(g, d, d', s');
    SlotsFreed(g, d, d', want, s, held, n, |s|);
    var d2 := Copy(d', Gap(g, 0), d', Gap(g, n), 2 * |s|);
    forall q: nat | q < |d'| && !(g.CellOffset() <= q < Gap(g, |s|))
      ensures Kept(d', d2, q)
    {
      assert d2[q] == d'[q];
    }
    TouchesPointers(g, d', d2, s', free');
    FrontDropped(g, d', d2, want, s, held, n);
    InPlacePart(a, s, held, n, |s|);
    CountKeptTwo(g, d, d', d2);
  }

  lemma CountKeptTwo(g: Geometry, d: seq<byte>, d1: seq<byte>, d2: seq<byte>)
    requires Holds(g, d) && SameBelow(g, d, d1) && Holds(g, d1) && Touches(g, d1, d2, Span(0, 0))
    requires Top(g, d1) <= g.usable
    requires g.CellOffset() <= Top(g, d)
    ensures SameButCount(g, d, d1) && SameButCount(g, d, d2)
  {
    forall q: nat | q < |d| && ((q < g.CellOffset() && !(g.hdr + 1 <= q < g.hdr + 8)) || g.usable <= q)
      ensures Kept(d, d2, q) && Kept(d, d1, q)
    {
      assert Kept(d, d1, q) && Kept(d1, d2, q);
    }
  }

  /** Every cell takes six bytes or more. */
  lemma PointersFit(g: Geometry, d: seq<byte>, s: seq<Span>, free: seq<Span>)
    requires Space(g, d, s, free) && Gap(g, |s|) <= Top(g, d)
    ensures Gap(g, |s| + |s|) <= g.usable <= |d|
  {
    Packing(s, Top(g, d), g.usable);
    FourEach(s);
  }

  lemma {:induction false} FourEach(s: seq<Span>)
    requires forall i: nat | i < |s| :: 4 <= At(s, i).size
    ensures Sum(s) >= 4 * |s|
  {
    if s != [] {
      var n := |s| - 1;
      forall i: nat | i < n
        ensures 4 <= At(s[..n], i).size
      {
        assert 4 <= At(s, i).size;
      }
      FourEach(s[..n]);
      assert 4 <= At(s, n).size;
    }
  }

  /** The cells from a up to b have kept their bytes if nothing in use has changed. */
  lemma KeptPart(g: Geometry, d: seq<byte>, d': seq<byte>, s: seq<Span>, a: nat, b: nat, free: seq<Span>,
                 part: seq<Span>)
    requires Space(g, d, s, free) && a <= b <= |s| && part == s[a..b] && Frame(g, d, d', part)
    ensures SpansKept(d, d', part)
  {
    forall i: nat | i < |part|
      ensures SpanKept(d, d', At(part, i))
    {
      var j := a + i;
      assert At(part, i) == At(s, j) && At(s, j).End() <= g.usable;
      forall q: nat | At(part, i).start <= q < At(part, i).End()
        ensures Kept(d, d', q)
      {
        assert At(part, i).Has(q);
      }
      CellKept(d, d', At(part, i));
    }
  }

  lemma InPlacePart(a: CellArray, s: seq<Span>, held: seq<int>, x: nat, y: nat)
    requires AllInPlace(a, s, held) && x <= y <= |s|
    ensures AllInPlace(a, s[x..y], held[x..y])
  {
    forall k: nat | k < y - x
      ensures InPlace(a, s[x..y], held[x..y], k)
    {
      var j := x + k;
      assert InPlace(a, s, held, j);
    }
  }

  lemma NoRest(s: seq<Span>, n: nat)
    requires n <= |s|
    ensures s[..n] + s[|s|..] == s[..n]
  {
  }

  lemma TailReleased(g: Geometry, d: seq<byte>, d': seq<byte>, free: seq<Span>, free': seq<Span>, a: CellArray,
                     want: seq<seq<byte>>, s: seq<Span>, held: seq<int>, n: nat)
    requires Trimmed(g, d, free, a, want, s, held) && n <= |s| && Space(g, d', s[..n], free')
    requires Frame(g, d, d', s[..n]) && Top(g, d) <= Top(g, d')
    ensures |s| == |held| && Trimmed(g, d', free', a, want, s[..n], held[..n]) && SameButCount(g, d, d')
  {
    hide Chain, Sum, Slots, Frame;
    var s' := s[..n];
    PointersFit(g, d, s, free);
    assert s' == s[0..n] && held[..n] == held[0..n];
    KeptPart(g, d, d', s, 0, n, free, s');
    FrameBelow(g, d, d', s');
    SlotsFreed(g, d, d', want, s, held, 0, n);
    TailDropped(g, d', want, s, held, n);
    InPlacePart(a, s, held, 0, n);
    forall q: nat | q < |d'| && !(g.CellOffset() <= q < Top(g, d')) && !Span(0, 0).Has(q)
      ensures Kept(d', d', q)
    {
    }
    CountKeptTwo(g, d, d', d');
  }

  /** The first step of editPage(): cells that the page loses in front. */
  method TrimFront(pg: MemPage, p: Before, iNew: nat, a: CellArray, ghost want: seq<seq<byte>>)
    returns (nCell: nat, ghost s: seq<Span>, ghost held: seq<int>)
    requires PageIs(pg, p, a, want) && iNew <= |a.at|
    modifies pg`free, pg`nFree, pg.data
    ensures Trimmed(pg.g, pg.data[..], pg.free, a, want, s, held) && |s| == nCell
    ensures SameButCount(pg.g, old(pg.data[..]), pg.data[..])
    ensures Holding(held, Max(p.iOld, iNew), Max(p.End(), iNew), p.iOld + p.o, p.iOld + p.o + p.m)
  {
    hide Space, Frame, Slots, Holding, Ascends, Passed, Indexed, Trimmed, Copy, Cut, Max;
    nCell := pg.nCell;
    ghost var d, free := pg.data[..], pg.free;
    s, held := pg.cells, HeldBefore(p);
    TrimStart(pg.g, pg.xCellSize, d, pg.nFree, s, free, p, a, want);
    TrimmedParts(pg.g, d, free, a, want, s, held);
    CountSame(pg.g, d);
    if p.iOld < iNew {
      ghost var lo, hi := p.iOld + p.o, p.iOld + p.o + p.m;
      ghost var y := Cut(p.iOld, p.End(), lo, hi, iNew);
      HoldingCut(held, p.iOld, p.End(), lo, hi, iNew);
      HoldingFirst(held, p.iOld, p.End(), lo, hi);
      OnlyInBody(p, a, held, p.iOld, p.End(), p.iOld, iNew);
      var nShift := PageFreeArray(pg, p.iOld, iNew - p.iOld, a, s, held, 0, y);
      assert s[..0] + s[y..] == s[y..];
      FrontReleased(pg.g, d, pg.data[..], free, pg.free, a, want, s, held, y);
      WriteCopy(pg.data, Gap(pg.g, 0), pg.data[..], Gap(pg.g, nShift), 2 * nCell);
      nCell := nCell - nShift;
      s, held := s[y..], held[y..];
    } else {
      HoldingMax(held, p, iNew);
    }
  }

  lemma HoldingMax(held: seq<int>, p: Before, iNew: nat)
    requires Holding(held, p.iOld, p.End(), p.iOld + p.o, p.iOld + p.o + p.m) && iNew <= p.iOld
    ensures Holding(held, Max(p.iOld, iNew), Max(p.End(), iNew), p.iOld + p.o, p.iOld + p.o + p.m)
  {
  }

  lemma CountSame(g: Geometry, d: seq<byte>)
    requires Holds(g, d)
    ensures SameButCount(g, d, d)
  {
  }

  lemma TrimmedParts(g: Geometry, d: seq<byte>, free: seq<Span>, a: CellArray, want: seq<seq<byte>>, s: seq<Span>,
                     held: seq<int>)
    requires Trimmed(g, d, free, a, want, s, held)
    ensures Space(g, d, s, free) && AllInPlace(a, s, held) && |s| == |held| && Holds(g, d)
    ensures Gap(g, |s| + |s|) <= g.usable <= |d|
    ensures g.hdr + 8 <= g.CellOffset()
  {
    PointersFit(g, d, s, free);
  }

  /** The array has no cell in the page's body but those of the page. */
  lemma OnlyInBody(p: Before, a: CellArray, held: seq<int>, x: int, y: int, lo: nat, hi: nat)
    requires p.Valid() && hi <= |a.at| && forall i: nat | i < |a.at| :: (At0(a, i).OnPage? ==> p.InBody(i))
    requires (x <= lo || x <= p.iOld) && y >= p.End() && Holding(held, x, y, p.iOld + p.o, p.iOld + p.o + p.m)
    ensures OnlyThere(a, held, lo, hi)
  {
    hide Holding;
    forall i: nat | lo <= i < hi
      ensures At0(a, i).OnPage? ==> i in held
    {
      if At0(a, i).OnPage? {
        HoldingHas(held, x, y, p.iOld + p.o, p.iOld + p.o + p.m, i);
      }
    }
  }

  /** The second step: cells that the page loses at the end. */
  method TrimTail(pg: MemPage, p: Before, nCell0: nat, iNew: nat, iNewEnd: nat, a: CellArray,
                  ghost want: seq<seq<byte>>, ghost s0: seq<Span>, ghost held0: seq<int>)
    returns (nCell: nat, ghost s: seq<Span>, ghost held: seq<int>)
    requires Trimmed(pg.g, pg.data[..], pg.free, a, want, s0, held0) && |s0| == nCell0 && iNew <= iNewEnd
    requires Holding(held0, Max(p.iOld, iNew), Max(p.End(), iNew), p.iOld + p.o, p.iOld + p.o + p.m)
    requires p.Valid() && p.End() <= |a.at| && forall i: nat | i < |a.at| :: (At0(a, i).OnPage? ==> p.InBody(i))
    modifies pg`free, pg`nFree, pg.data
    ensures Trimmed(pg.g, pg.data[..], pg.free, a, want, s, held) && |s| == nCell
    ensures SameButCount(pg.g, old(pg.data[..]), pg.data[..])
    ensures Holding(held, Max(p.iOld, iNew), Min(Max(p.End(), iNew), iNewEnd), p.iOld + p.o, p.iOld + p.o + p.m)
  {
    hide Space, Frame, Slots, Holding, Ascends, Passed, Trimmed, Cut, AllInPlace, OnlyThere;
    ghost var d, free, lo, hi := pg.data[..], pg.free, p.iOld + p.o, p.iOld + p.o + p.m;
    ghost var x, y := Max(p.iOld, iNew), Max(p.End(), iNew);
    nCell, s, held := nCell0, s0, held0;
    TrimmedParts(pg.g, d, free, a, want, s, held);
    CountSame(pg.g, d);
    ghost var n := Cut(x, y, lo, hi, iNewEnd);
    HoldingCut(held, x, y, lo, hi, iNewEnd);
    PassedSame(held, n, n, iNewEnd);
    if iNewEnd < p.End() {
      HoldingEnd(held, x, y, lo, hi, p.End());
      OnlyInBody(p, a, held, x, y, iNewEnd, p.End());
      var nTail := PageFreeArray(pg, iNewEnd, p.End() - iNewEnd, a, s, held, n, |s|);
      NoRest(s, n);
      TailReleased(pg.g, d, pg.data[..], free, pg.free, a, want, s, held, n);
      nCell := nCell - nTail;
      s, held := s[..n], held[..n];
    } else {
      HoldingNone(held, x, y, lo, hi, iNewEnd);
    }
  }

  lemma HoldingFirst(held: seq<int>, a: int, b: int, lo: int, hi: int)
    requires Holding(held, a, b, lo, hi)
    ensures Passed(held, 0, a)
  {
  }

  /** No index is past the end. */
  lemma HoldingEnd(held: seq<int>, a: int, b: int, lo: int, hi: int, c: int)
    requires Holding(held, a, b, lo, hi) && (b <= c || a >= b) && lo <= hi <= c
    ensures Passed(held, |held|, c)
  {
  }

  lemma HoldingNone(held: seq<int>, a: int, b: int, lo: int, hi: int, c: int)
    requires Holding(held, a, b, lo, hi) && (b <= c || a >= b) && a <= Max(b, c)
    ensures Holding(held, a, Min(b, c), lo, hi)
  {
  }

  /** What editPage() has so far: the page under edit holds the cells of the array from iNew up to b, but the
      overflow cells from lo up to hi. */
  ghost predicate Underway(pg: MemPage, d0: seq<byte>, s0: seq<Span>, want: seq<seq<byte>>, dr: Draft, begin: nat,
                           data: nat, iNew: int, b: int, lo: int, hi: int)
    reads pg, pg.data
  {
    && Editing(pg.g, pg.data[..], pg.free, want, dr, 0, 0, begin, data)
    && Salvage(pg.g, d0, pg.data[..], s0, dr.high, pg.free) && Holding(dr.held, iNew, b, lo, hi)
  }

  /** The pointer array has room for the rest. */
  lemma HoldingRoom(held: seq<int>, a: int, b: int, lo: int, hi: int)
    requires Holding(held, a, b, lo, hi)
    ensures |held| <= Max(b - a, 0)
  {
  }

  /** A hole at place 0 is none. */
  lemma EditingMoved(g: Geometry, d: seq<byte>, free: seq<Span>, want: seq<seq<byte>>, dr: Draft, p: nat, begin: nat,
                     data: nat)
    requires Editing(g, d, free, want, dr, p, 0, begin, data)
    ensures Editing(g, d, free, want, dr, 0, 0, begin, data)
  {
    hide Space, Tiled, Slots;
    NoHole(g, d, want, dr.s, dr.held, p, 0);
  }

  /** A hole behind the last pointer needs no room to be made. */
  lemma HoleAtEnd(g: Geometry, d: seq<byte>, free: seq<Span>, want: seq<seq<byte>>, dr: Draft, w: nat, begin: nat,
                  data: nat)
    requires Editing(g, d, free, want, dr, 0, 0, begin, data) && Gap(g, |dr.s| + w) <= begin
    ensures Editing(g, d, free, want, dr, |dr.s|, w, begin, data)
  {
    hide Space, Tiled, Get2;
    var n := |dr.s|;
    forall k: nat | k < n
      ensures SlotOk(g, d, want, dr.s, dr.held, n, w, k)
    {
      assert SlotOk(g, d, want, dr.s, dr.held, 0, 0, k);
    }
  }

  /** memmove() on the pointer array. */
  method MakeHole(pg: MemPage, n: nat, p: nat, w: nat, begin: nat, ghost data: nat, ghost want: seq<seq<byte>>,
                  ghost dr: Draft)
    requires Editing(pg.g, pg.data[..], pg.free, want, dr, 0, 0, begin, data)
    requires p <= |dr.s| == n && Gap(pg.g, n + w) <= begin
    modifies pg.data
    ensures Editing(pg.g, pg.data[..], pg.free, want, dr, p, w, begin, data)
    ensures Salvage(pg.g, old(pg.data[..]), pg.data[..], dr.high, dr.high, pg.free)
  {
    hide Editing, Space, Copy;
    ghost var d := pg.data[..];
    EditingParts(pg.g, d, pg.free, want, dr, 0, 0, begin, data);
    HoleMade(pg.g, d, pg.free, want, dr, 0, p, w, begin, data);
    WriteCopy(pg.data, Gap(pg.g, p + w), pg.data[..], Gap(pg.g, p), 2 * (n - p));
    EditingParts(pg.g, pg.data[..], pg.free, want, dr, p, w, begin, data);
  }

  /** memmove() and pageInsertArray(). */
  method Enter(pg: MemPage, nCell: nat, p: nat, iFirst: nat, n: nat, begin: nat, data0: nat, a: CellArray,
               ghost want: seq<seq<byte>>, ghost dr0: Draft)
    returns (ok: bool, data: nat, ghost dr: Draft)
    requires pg.g.hdr == 0 && Editing(pg.g, pg.data[..], pg.free, want, dr0, 0, 0, begin, data0)
    requires p <= |dr0.s| == nCell && Gap(pg.g, nCell + n) <= begin
    requires ArrayOk(pg.xCellSize, a, want) && iFirst + n <= |a.at|
    requires forall i: nat | iFirst <= i < iFirst + n :: At0(a, i).Elsewhere?
    modifies pg.data, pg`free
    ensures Salvage(pg.g, old(pg.data[..]), pg.data[..], dr0.high, dr.high, pg.free)
    ensures ok ==> Editing(pg.g, pg.data[..], pg.free, want, dr, 0, 0, begin, data)
    ensures ok ==> p <= |dr0.held| && dr.held == dr0.held[..p] + Iota(iFirst, n) + dr0.held[p..]
  {
    hide Editing, Salvage, Iota, ArrayOk;
    ghost var d, free := pg.data[..], pg.free;
    MakeHole(pg, nCell, p, n, begin, data0, want, dr0);
    ghost var d1, free1 := pg.data[..], pg.free;
    ok, data, dr := PageInsertArray(pg, begin, data0, p, iFirst, n, a, want, dr0);
    SalvageTrans(pg.g, d, d1, pg.data[..], dr0.high, dr0.high, dr.high, free1, pg.free);
    if ok {
      EditingMoved(pg.g, pg.data[..], pg.free, want, dr, p + n, begin, data);
    }
  }

  /** The third step: cells that the page gains in front. */
  method AddFront(pg: MemPage, p: Before, iNew: nat, nNew: nat, begin: nat, data0: nat, nCell0: nat, a: CellArray,
                  ghost want: seq<seq<byte>>, ghost dr0: Draft, ghost d0: seq<byte>, ghost s0: seq<Span>)
    returns (ok: bool, nCell: nat, data: nat, ghost dr: Draft)
    requires pg.g.hdr == 0 && p.Valid() && ArrayOk(pg.xCellSize, a, want) && iNew + nNew <= |a.at| && p.End() <= |a.at|
    requires forall i: nat | i < |a.at| :: (At0(a, i).OnPage? ==> p.InBody(i))
    requires Underway(pg, d0, s0, want, dr0, begin, data0, Max(p.iOld, iNew), Min(Max(p.End(), iNew), iNew + nNew),
                      p.iOld + p.o, p.iOld + p.o + p.m)
    requires nCell0 == |dr0.s| && begin == Gap(pg.g, nNew)
    modifies pg.data, pg`free
    ensures Salvage(pg.g, d0, pg.data[..], s0, dr.high, pg.free)
    ensures ok ==> nCell == |dr.s|
    ensures ok ==>
      Underway(pg, d0, s0, want, dr, begin, data, iNew, Min(Max(p.End(), iNew), iNew + nNew), p.iOld + p.o,
               p.iOld + p.o + p.m)
  {
    hide Editing, Salvage, Iota, ArrayOk, Holding;
    ok, nCell, data, dr := true, nCell0, data0, dr0;
    ghost var d, free, b := pg.data[..], pg.free, Min(Max(p.End(), iNew), iNew + nNew);
    ghost var lo, hi := p.iOld + p.o, p.iOld + p.o + p.m;
    EditingParts(pg.g, d, free, want, dr, 0, 0, begin, data);
    if iNew < p.iOld {
      var nAdd := Min(nNew, p.iOld - iNew);
      HoldingFits(dr.held, p.iOld, b, lo, hi, iNew, nAdd, nNew);
      ok, data, dr := Enter(pg, nCell, 0, iNew, nAdd, begin, data, a, want, dr);
      SalvageTrans(pg.g, d0, d, pg.data[..], s0, dr0.high, dr.high, free, pg.free);
      if ok {
        EditingParts(pg.g, pg.data[..], pg.free, want, dr, 0, 0, begin, data);
        assert dr.held == Iota(iNew, nAdd) + dr0.held;
        HoldingFront(dr0.held, iNew, nAdd, p.iOld, b, lo, hi);
        nCell := nCell + nAdd;
        IotaLength(iNew, nAdd);
      }
    }
  }

  lemma IotaLength(i: nat, n: nat)
    ensures |Iota(i, n)| == n
  {
  }

  lemma HoldingFits(held: seq<int>, iOld: nat, b: int, lo: int, hi: int, iNew: nat, nAdd: int, nNew: nat)
    requires Holding(held, iOld, b, lo, hi) && iNew < iOld <= lo && nAdd == Min(nNew, iOld - iNew) && b <= iNew + nNew
    ensures |held| + nAdd <= nNew && nAdd >= 0
  {
  }

  /** The fourth step: the overflow cells that belong on the page, each at its place. */
  method AddOverflow(pg: MemPage, p: Before, iNew: nat, nNew: nat, begin: nat, data0: nat, nCell0: nat, a: CellArray,
                     ghost want: seq<seq<byte>>, ghost dr0: Draft, ghost d0: seq<byte>, ghost s0: seq<Span>)
    returns (ok: bool, nCell: nat, data: nat, ghost dr: Draft)
    requires pg.g.hdr == 0 && p.Valid() && ArrayOk(pg.xCellSize, a, want) && iNew + nNew <= |a.at| && p.End() <= |a.at|
    requires forall i: nat | i < |a.at| :: (At0(a, i).OnPage? ==> p.InBody(i))
    requires p.m == |pg.ovfl| && forall t: nat | t < p.m :: pg.ovfl[t].0 == p.o + t
    requires Underway(pg, d0, s0, want, dr0, begin, data0, iNew, Min(Max(p.End(), iNew), iNew + nNew), p.iOld + p.o,
                      p.iOld + p.o + p.m)
    requires nCell0 == |dr0.s| && begin == Gap(pg.g, nNew)
    modifies pg.data, pg`free
    ensures Salvage(pg.g, d0, pg.data[..], s0, dr.high, pg.free)
    ensures ok ==> nCell == |dr.s|
    ensures ok ==>
      Underway(pg, d0, s0, want, dr, begin, data, iNew, Min(Max(p.End(), iNew), iNew + nNew), p.iOld + p.o + p.m,
               p.iOld + p.o + p.m)
  {
    hide Editing, Salvage, Iota, ArrayOk, Holding, Underway;
    ok, nCell, data, dr := true, nCell0, data0, dr0;
    ghost var b, hi := Min(Max(p.End(), iNew), iNew + nNew), p.iOld + p.o + p.m;
    UnderwayParts(pg, d0, s0, want, dr, begin, data, iNew, b, p.iOld + p.o, hi);
    var i := 0;
    while i < |pg.ovfl|
      invariant 0 <= i <= p.m && ok && nCell == |dr.s|
      invariant Underway(pg, d0, s0, want, dr, begin, data, iNew, b, p.iOld + p.o + i, hi)
    {
      ghost var lo := p.iOld + p.o + i;
      UnderwayParts(pg, d0, s0, want, dr, begin, data, iNew, b, lo, hi);
      HoldingStep(dr.held, iNew, b, lo, hi);
      var iCell: int := p.iOld + pg.ovfl[i].0 - iNew;
      if 0 <= iCell < nNew {
        ok, data, dr := AddOne(pg, p, iNew, nNew, begin, data, nCell, iCell, a, want, dr, d0, s0, hi);
        if !ok {
          return;
        }
        nCell := nCell + 1;
      } else {
        UnderwayNext(pg, d0, s0, want, dr, begin, data, iNew, b, lo, hi);
      }
      i := i + 1;
    }
    UnderwayParts(pg, d0, s0, want, dr, begin, data, iNew, b, hi, hi);
  }

  lemma UnderwayParts(pg: MemPage, d0: seq<byte>, s0: seq<Span>, want: seq<seq<byte>>, dr: Draft, begin: nat, data: nat,
                      iNew: int, b: int, lo: int, hi: int)
    requires Underway(pg, d0, s0, want, dr, begin, data, iNew, b, lo, hi)
    ensures Editing(pg.g, pg.data[..], pg.free, want, dr, 0, 0, begin, data)
    ensures Salvage(pg.g, d0, pg.data[..], s0, dr.high, pg.free) && Holding(dr.held, iNew, b, lo, hi)
    ensures |dr.s| == |dr.held| <= Max(b - iNew, 0) && begin <= data
  {
    hide Holding;
    EditingParts(pg.g, pg.data[..], pg.free, want, dr, 0, 0, begin, data);
    HoldingRoom(dr.held, iNew, b, lo, hi);
  }

  lemma UnderwayNext(pg: MemPage, d0: seq<byte>, s0: seq<Span>, want: seq<seq<byte>>, dr: Draft, begin: nat, data: nat,
                     iNew: int, b: int, lo: int, hi: int)
    requires Underway(pg, d0, s0, want, dr, begin, data, iNew, b, lo, hi) && Holding(dr.held, iNew, b, lo + 1, hi)
    ensures Underway(pg, d0, s0, want, dr, begin, data, iNew, b, lo + 1, hi)
  {
  }

  /** One overflow cell. */
  method AddOne(pg: MemPage, p: Before, iNew: nat, nNew: nat, begin: nat, data0: nat, nCell: nat, iCell: nat,
                a: CellArray, ghost want: seq<seq<byte>>, ghost dr0: Draft, ghost d0: seq<byte>, ghost s0: seq<Span>,
                ghost hi: nat)
    returns (ok: bool, data: nat, ghost dr: Draft)
    requires pg.g.hdr == 0 && p.Valid() && ArrayOk(pg.xCellSize, a, want) && iNew + nNew <= |a.at| && p.End() <= |a.at|
    requires forall i: nat | i < |a.at| :: (At0(a, i).OnPage? ==> p.InBody(i))
    requires iCell < nNew && p.iOld + p.o <= iNew + iCell < hi == p.iOld + p.o + p.m
    requires Underway(pg, d0, s0, want, dr0, begin, data0, iNew, Min(Max(p.End(), iNew), iNew + nNew), iNew + iCell, hi)
    requires nCell == |dr0.s| && begin == Gap(pg.g, nNew)
    modifies pg.data, pg`free
    ensures Salvage(pg.g, d0, pg.data[..], s0, dr.high, pg.free)
    ensures ok ==> nCell + 1 == |dr.s|
    ensures ok ==>
      Underway(pg, d0, s0, want, dr, begin, data, iNew, Min(Max(p.End(), iNew), iNew + nNew), iNew + iCell + 1, hi)
  {
    hide Editing, Salvage, Iota, ArrayOk, Holding;
    ghost var d, free, b, lo := pg.data[..], pg.free, Min(Max(p.End(), iNew), iNew + nNew), iNew + iCell;
    UnderwayParts(pg, d0, s0, want, dr0, begin, data0, iNew, b, lo, hi);
    HoldingStep(dr0.held, iNew, b, lo, hi);
    HoldingRoom(dr0.held[..iCell] + Iota(lo, 1) + dr0.held[iCell..], iNew, b, lo + 1, hi);
    IotaLength(lo, 1);
    ok, data, dr := Enter(pg, nCell, iCell, iCell + iNew, 1, begin, data0, a, want, dr0);
    SalvageTrans(pg.g, d0, d, pg.data[..], s0, dr0.high, dr.high, free, pg.free);
    if ok {
      EditingParts(pg.g, pg.data[..], pg.free, want, dr, 0, 0, begin, data);
    }
  }

  /** The last step: cells that the page gains at the end, and the header. */
  method Append(pg: MemPage, p: Before, iNew: nat, nNew: nat, begin: nat, data0: nat, nCell: nat, a: CellArray,
                ghost want: seq<seq<byte>>, ghost dr0: Draft, ghost d0: seq<byte>, ghost s0: seq<Span>)
    returns (ok: bool, ghost high: seq<Span>)
    requires pg.g.hdr == 0 && p.Valid() && ArrayOk(pg.xCellSize, a, want) && iNew + nNew <= |a.at| && p.End() <= |a.at|
    requires Local(pg.xCellSize)
    requires forall i: nat | i < |a.at| :: (At0(a, i).OnPage? ==> p.InBody(i))
    requires Underway(pg, d0, s0, want, dr0, begin, data0, iNew, Min(Max(p.End(), iNew), iNew + nNew),
                      p.iOld + p.o + p.m, p.iOld + p.o + p.m)
    requires nCell == |dr0.s| && begin == Gap(pg.g, nNew)
    modifies pg, pg.data
    ensures !ok ==> Salvage(pg.g, d0, pg.data[..], s0, high, pg.free)
    ensures ok ==> HasCells(pg, want, iNew, nNew) && SameButCount(pg.g, d0, pg.data[..])
  {
    hide Editing, Salvage, Iota, ArrayOk, Holding, Space;
    ghost var d, free, b, hi := pg.data[..], pg.free, Min(Max(p.End(), iNew), iNew + nNew), p.iOld + p.o + p.m;
    UnderwayParts(pg, d0, s0, want, dr0, begin, data0, iNew, b, hi, hi);
    HoldingAll(dr0.held, iNew, b, hi);
    HoleAtEnd(pg.g, d, free, want, dr0, nNew - nCell, begin, data0);
    var data;
    ghost var dr;
    ok, data, dr := PageInsertArray(pg, begin, data0, nCell, iNew + nCell, nNew - nCell, a, want, dr0);
    SalvageTrans(pg.g, d0, d, pg.data[..], s0, dr0.high, dr.high, free, pg.free);
    high := dr.high;
    if ok {
      EditingParts(pg.g, pg.data[..], pg.free, want, dr, nNew, 0, begin, data);
      AllThere(dr0.held, dr.held, iNew, nCell, nNew);
      ghost var d1 := pg.data[..];
      SizesOk(pg.xCellSize, a, want);
      SalvageCount(pg.g, d0, d1, pg.data[..], s0, dr.high, pg.free);
      SetHeader(pg, nNew, data, want, iNew, begin, dr);
      CountTrans(pg.g, d0, d1, pg.data[..]);
    }
  }

  /** The header says how many cells there are, and where the content area begins. */
  method SetHeader(pg: MemPage, nNew: nat, data: nat, ghost want: seq<seq<byte>>, ghost iNew: nat, ghost begin: nat,
                   ghost dr: Draft)
    requires Editing(pg.g, pg.data[..], pg.free, want, dr, nNew, 0, begin, data) && Local(pg.xCellSize)
    requires iNew + nNew <= |want| && |dr.held| == nNew && forall k: nat | k < nNew :: dr.held[k] == iNew + k
    requires forall i: nat | i < |want| :: SizeIs(pg.xCellSize, want, i)
    modifies pg, pg.data
    ensures HasCells(pg, want, iNew, nNew) && SameButCount(pg.g, old(pg.data[..]), pg.data[..])
  {
    hide Editing, Space, SizeIs, PageOk, Put2;
    ghost var d := pg.data[..];
    EditingParts(pg.g, d, pg.free, want, dr, nNew, 0, begin, data);
    EditDone(pg.g, pg.xCellSize, d, pg.free, want, dr, nNew, begin, data, iNew,
             Put2(Put2(d, pg.g.hdr + 3, nNew), pg.g.hdr + 5, data));
    pg.nCell := nNew;
    pg.ovfl := [];
    WriteTwo(pg.data, pg.g.hdr + 3, nNew);
    WriteTwo(pg.data, pg.g.hdr + 5, data);
    pg.cells := dr.s;
  }

  /** The page holds n cells of the array from iNew on, in order; its count of free bytes is yet to be set. */
  ghost predicate HasCells(pg: MemPage, want: seq<seq<byte>>, iNew: nat, n: nat)
    reads pg, pg.data
  {
    && PageOk(pg.g, pg.xCellSize, pg.data[..], pg.nCell, pg.g.usable - Gap(pg.g, n) - Sum(pg.cells), pg.cells, pg.free)
    && pg.nCell == n && pg.ovfl == [] && iNew + n <= |want|
    && (forall i: nat | i < |pg.cells| :: At(pg.cells, i).End() <= pg.data.Length)
    && Contents(pg.data[..], pg.cells) == want[iNew..iNew + n]
  }

  lemma AllThere(held0: seq<int>, held: seq<int>, iNew: nat, n: nat, m: nat)
    requires |held0| == n <= m && held == held0[..n] + Iota(iNew + n, m - n) + held0[n..]
    requires forall k: nat | k < n :: HeldAt(held0, k) == iNew + k
    ensures |held| == m && forall k: nat | k < m :: held[k] == iNew + k
  {
    forall k: nat | k < m
      ensures held[k] == iNew + k
    {
      if k < n {
        assert HeldAt(held0, k) == iNew + k;
      } else {
        assert HeldAt(Iota(iNew + n, m - n), k - n) == iNew + k;
      }
    }
  }

  lemma SizesOk(f: seq<byte> -> nat, a: CellArray, want: seq<seq<byte>>)
    requires ArrayOk(f, a, want)
    ensures |want| == |a.at| && forall i: nat | i < |want| :: SizeIs(f, want, i)
  {
    forall i: nat | i < |want|
      ensures SizeIs(f, want, i)
    {
      assert EntryOk(f, a, want, i);
    }
  }

  lemma SalvageCount(g: Geometry, d: seq<byte>, d1: seq<byte>, d2: seq<byte>, h: seq<Span>, h1: seq<Span>,
                     free: seq<Span>)
    requires Salvage(g, d, d1, h, h1, free)
    ensures SameButCount(g, d, d1)
  {
  }

  // ---- rebuildPage() -------------------------------------------------------------------------------

  function Sizes(c: seq<seq<byte>>): nat {
    if c == [] then 0 else Sizes(c[..|c| - 1]) + |c[|c| - 1]|
  }

  lemma SizesSnoc(c: seq<seq<byte>>, i: nat, n: nat)
    requires i + n < |c|
    ensures Sizes(c[i..i + n + 1]) == Sizes(c[i..i + n]) + |c[i + n]|
  {
    assert c[i..i + n + 1][..n] == c[i..i + n];
  }

  lemma {:induction false} SizesMono(c: seq<seq<byte>>, i: nat, n: nat, m: nat)
    requires n <= m && i + m <= |c|
    ensures Sizes(c[i..i + n]) <= Sizes(c[i..i + m])
    decreases m
  {
    if n < m {
      SizesMono(c, i, n, m - 1);
      SizesSnoc(c, i, m - 1);
    }
  }

  lemma {:induction false} SizesSum(c: seq<seq<byte>>, z: seq<Span>)
    requires |c| == |z| && forall i: nat | i < |z| :: |c[i]| == At(z, i).size
    ensures Sizes(c) == Sum(z)
    decreases |c|
  {
    if c != [] {
      var n := |c| - 1;
      forall i: nat | i < n
        ensures |c[..n][i]| == At(z[..n], i).size
      {
        assert At(z, i).size == |c[i]|;
      }
      SizesSum(c[..n], z[..n]);
      assert At(z, n).size == |c[n]|;
    }
  }

  /** A cell in the page's body is in the content area, as the header has it. */
  ghost predicate SourceAt(g: Geometry, d: seq<byte>, a: CellArray, want: seq<seq<byte>>, i: nat)
    requires Holds(g, d)
  {
    && i < |a.at| == |want|
    && (a.at[i].OnPage? ==>
          && Get2(d, g.hdr + 5) <= a.at[i].at && a.at[i].at + |want[i]| <= g.usable
          && CellBytes(d, Span(a.at[i].at, |want[i]|)) == want[i])
  }

  /** The copy of the page has it. */
  ghost predicate InCopy(g: Geometry, temp: seq<byte>, a: CellArray, want: seq<seq<byte>>, i: nat) {
    && i < |a.at| == |want|
    && (a.at[i].OnPage? ==> a.at[i].at + |want[i]| <= |temp| && CellBytes(temp, Span(a.at[i].at, |want[i]|)) == want[i])
  }

  /** The first j cells have been written, against the end of the page. */
  ghost predicate Rebuilding(g: Geometry, d0: seq<byte>, d: seq<byte>, want: seq<seq<byte>>, z: seq<Span>, iNew: nat,
                             j: nat, data: nat) {
    && Holds(g, d) && SameButCount(g, d0, d) && Tiled(z, data, g.usable) && Slots(g, d, want, z, Iota(iNew, j), 0, 0)
    && |z| == j && Gap(g, j) <= data && iNew + j <= |want| && Sizes(want[iNew..iNew + j]) == g.usable - data
  }

  lemma RebuildStart(g: Geometry, d: seq<byte>, want: seq<seq<byte>>, iNew: nat)
    requires Holds(g, d) && iNew <= |want|
    ensures Rebuilding(g, d, d, want, [], iNew, 0, g.usable)
  {
  }

  lemma RebuildingParts(g: Geometry, d0: seq<byte>, d: seq<byte>, want: seq<seq<byte>>, z: seq<Span>, iNew: nat, j: nat,
                        data: nat)
    requires Rebuilding(g, d0, d, want, z, iNew, j, data)
    ensures Gap(g, j) + 2 <= |d| && Gap(g, j) <= data <= g.usable <= |d| && g.usable <= 0x1_0000 && |z| == j
    ensures Sizes(want[iNew..iNew + j]) == g.usable - data && j < 0x1_0000 && g.hdr + 8 <= g.CellOffset() <= |d|
  {
    hide Slots, Sizes;
    FourEach(z);
  }

  /** The pointer is written before the cell, here without harm. */
  lemma PointerFirst(g: Geometry, d: seq<byte>, c: seq<byte>, z: Span, p: nat)
    requires |c| == z.size && z.End() <= |d| && Gap(g, p) + 2 <= z.start < 0x1_0000
    ensures Copy(Put2(d, Gap(g, p), z.start), z.start, c, 0, |c|) == Wrote(g, d, c, z, p)
  {
    var x, y := Copy(Put2(d, Gap(g, p), z.start), z.start, c, 0, |c|), Wrote(g, d, c, z, p);
    forall q | 0 <= q < |d|
      ensures x[q] == y[q]
    {
    }
  }

  lemma RebuildStep(g: Geometry, d0: seq<byte>, d: seq<byte>, want: seq<seq<byte>>, z: seq<Span>, iNew: nat, j: nat,
                    data: nat)
    requires Rebuilding(g, d0, d, want, z, iNew, j, data) && iNew + j < |want|
    requires var n := |want[iNew + j]|; 4 <= n && Gap(g, j + 1) + n <= data
    ensures var n := |want[iNew + j]|;
      var x := Span(data - n, n);
      && x.End() <= |d| && Gap(g, j) + 2 <= x.start < 0x1_0000
      && Rebuilding(g, d0, Wrote(g, d, want[iNew + j], x, j), want, z + [x], iNew, j + 1, data - n)
  {
    hide Wrote, Slots, Sum, Sizes, Iota, Within, Disjoint, InsertAt;
    var n := |want[iNew + j]|;
    var x := Span(data - n, n);
    var d' := Wrote(g, d, want[iNew + j], x, j);
    var i := iNew + j;
    TiledSnoc(z, data, g.usable, n);
    SizesSnoc(want, iNew, j);
    forall q: nat | data <= q < g.usable
      ensures Kept(d, d', q)
    {
      assert d'[q] == d[q];
    }
    TiledKept(g, d, d', z, data, g.usable);
    forall q: nat | q < |d| && ((q < g.CellOffset() && !(g.hdr + 1 <= q < g.hdr + 8)) || g.usable <= q)
      ensures Kept(d, d', q)
    {
      assert d'[q] == d[q];
    }
    CountTrans(g, d0, d, d');
    IotaLength(iNew, j);
    HoleBehind(g, d, want, z, Iota(iNew, j), 1);
    SlotsInserted(g, d, d', want, z, Iota(iNew, j), j, 1, x, i);
    IotaNext([], 0, iNew, j);
    assert [] + Iota(iNew, j) + [] == Iota(iNew, j) && [] + Iota(iNew, j + 1) + [] == Iota(iNew, j + 1);
    InsertLast(z, x);
    NoHole(g, d', want, z + [x], Iota(iNew, j + 1), j + 1, 0);
  }

  lemma TiledKept(g: Geometry, d: seq<byte>, d': seq<byte>, low: seq<Span>, lo: nat, hi: nat)
    requires Tiled(low, lo, hi) && |d'| == |d| && hi <= |d| && forall q: nat | lo <= q < hi :: Kept(d, d', q)
    ensures SpansKept(d, d', low)
  {
    BelowKept(g, d, d', low, lo, hi);
  }

  lemma InsertLast(z: seq<Span>, x: Span)
    ensures InsertAt(z, |z|, x) == z + [x]
  {
  }

  lemma HoleBehind(g: Geometry, d: seq<byte>, want: seq<seq<byte>>, s: seq<Span>, held: seq<int>, w: nat)
    requires Slots(g, d, want, s, held, 0, 0)
    ensures Slots(g, d, want, s, held, |s|, w)
  {
    var n := |s|;
    forall k: nat | k < n
      ensures SlotOk(g, d, want, s, held, n, w, k)
    {
      assert SlotOk(g, d, want, s, held, 0, 0, k);
    }
  }

  /** The header that rebuildPage() writes. */
  function Rebuilt(g: Geometry, d: seq<byte>, n: nat, data: nat): (r: seq<byte>)
    requires g.hdr + 8 <= |d|
  {
    Put2(Put2(Put2(d, g.hdr + 1, 0), g.hdr + 3, n), g.hdr + 5, data)[g.hdr + 7 := 0]
  }

  lemma RebuiltHeader(g: Geometry, d: seq<byte>, n: nat, data: nat)
    requires g.hdr + 8 <= |d| && n < 0x1_0000 && 0 < data <= 0x1_0000
    ensures var r := Rebuilt(g, d, n, data);
      && |r| == |d| && Get2(r, g.hdr + 1) == 0 && Get2(r, g.hdr + 3) == n && Get2NotZero(r, g.hdr + 5) == data
      && r[g.hdr + 7] == 0
      && forall q: nat | q < |d| && !(g.hdr + 1 <= q < g.hdr + 8) :: Kept(d, r, q)
  {
    var d1 := Put2(d, g.hdr + 1, 0);
    var d2 := Put2(d1, g.hdr + 3, n);
    var d3 := Put2(d2, g.hdr + 5, data);
    assert d3[g.hdr + 1] == d1[g.hdr + 1] && d3[g.hdr + 2] == d1[g.hdr + 2];
    assert d3[g.hdr + 3] == d2[g.hdr + 3] && d3[g.hdr + 4] == d2[g.hdr + 4];
  }

  lemma RebuildDone(g: Geometry, f: seq<byte> -> nat, d0: seq<byte>, d: seq<byte>, want: seq<seq<byte>>, z: seq<Span>,
                    iNew: nat, n: nat, data: nat)
    requires Rebuilding(g, d0, d, want, z, iNew, n, data) && Local(f)
    requires forall i: nat | i < |want| :: SizeIs(f, want, i)
    ensures g.hdr + 8 <= |d|
    ensures var r := Rebuilt(g, d, n, data);
      && PageOk(g, f, r, n, g.usable - Gap(g, n) - Sum(z), z, []) && SameButCount(g, d0, r)
      && (forall i: nat | i < n :: At(z, i).End() <= |r|) && Contents(r, z) == want[iNew..iNew + n]
  {
    hide Rebuilt, Slots, Sum, Sizes, Iota;
    RebuildingParts(g, d0, d, want, z, iNew, n, data);
    RebuiltHeader(g, d, n, data);
    var r := Rebuilt(g, d, n, data);
    SumNone();
    IotaLength(iNew, n);
    IotaIs(iNew, n);
    DoneSlots(g, f, d, want, Draft(z, Iota(iNew, n), z, []), 0, [], iNew, r);
    forall q: nat | q < |d| && ((q < g.CellOffset() && !(g.hdr + 1 <= q < g.hdr + 8)) || g.usable <= q)
      ensures Kept(d, r, q)
    {
    }
    CountTrans(g, d0, d, r);
  }

  lemma SumNone()
    ensures Sum([]) == 0
  {
  }

  lemma IotaIs(i: nat, n: nat)
    ensures |Iota(i, n)| == n && forall k: nat | k < n :: Iota(i, n)[k] == i + k
  {
    var r := Iota(i, n);
    forall k: nat | k < n
      ensures r[k] == i + k
    {
      assert HeldAt(r, k) == i + k;
    }
  }

  /** rebuildPage(): the cells are written against the end of the page; those that are on the page itself are
      read from a copy. It fails exactly if they do not fit. */
  method Rebuild(pg: MemPage, nCell: nat, a: CellArray, iNew: nat, ghost want: seq<seq<byte>>)
    returns (ok: bool)
    requires Holds(pg.g, pg.data[..]) && Get2(pg.data[..], pg.g.hdr + 5) <= pg.g.usable
    requires Local(pg.xCellSize) && ArrayOk(pg.xCellSize, a, want) && iNew + nCell <= |a.at|
    requires forall i: nat | iNew <= i < iNew + nCell :: SourceAt(pg.g, pg.data[..], a, want, i)
    modifies pg, pg.data
    ensures |want| == |a.at| && (ok <==> Gap(pg.g, nCell) + Sizes(want[iNew..iNew + nCell]) <= pg.g.usable)
    ensures ok ==> HasCells(pg, want, iNew, nCell) && SameButCount(pg.g, old(pg.data[..]), pg.data[..])
  {
    hide Rebuilding, Wrote, Put2, Copy, Sizes, ArrayOk, SourceAt, InCopy, PageOk;
    SizesOk(pg.xCellSize, a, want);
    ghost var d0 := pg.data[..];
    var temp := CopyContent(pg, nCell, a, iNew, want);
    var data := pg.g.usable;
    var j: nat := 0;
    ghost var z: seq<Span> := [];
    RebuildStart(pg.g, d0, want, iNew);
    while j < nCell
      invariant j <= nCell && Rebuilding(pg.g, d0, pg.data[..], want, z, iNew, j, data)
      invariant fresh(temp) && temp != pg.data
      invariant forall i: nat | iNew <= i < iNew + nCell :: InCopy(pg.g, temp[..], a, want, i)
    {
      ghost var i := iNew + j;
      ok, data, z := PlaceNext(pg, temp, a, iNew, j, data, want, d0, z);
      if !ok {
        SizesMono(want, iNew, j + 1, nCell);
        return;
      }
      j := j + 1;
    }
    RebuildingParts(pg.g, d0, pg.data[..], want, z, iNew, nCell, data);
    RebuildDone(pg.g, pg.xCellSize, d0, pg.data[..], want, z, iNew, nCell, data);
    FinishRebuild(pg, nCell, data, z);
    ok := true;
  }

  /** The copy of the content area that rebuildPage() takes. */
  method CopyContent(pg: MemPage, nCell: nat, a: CellArray, iNew: nat,
                     ghost want: seq<seq<byte>>) returns (temp: array<byte>)
    requires Holds(pg.g, pg.data[..]) && Get2(pg.data[..], pg.g.hdr + 5) <= pg.g.usable && iNew + nCell <= |a.at|
    requires forall i: nat | iNew <= i < iNew + nCell :: SourceAt(pg.g, pg.data[..], a, want, i)
    ensures fresh(temp) && temp.Length == pg.data.Length
    ensures forall i: nat | iNew <= i < iNew + nCell :: InCopy(pg.g, temp[..], a, want, i)
  {
    hide Copy;
    temp := new byte[pg.data.Length];
    var i := Read2(pg.data, pg.g.hdr + 5);
    ghost var t := temp[..];
    WriteCopy(temp, i, pg.data[..], i, pg.g.usable - i);
    forall k: nat | iNew <= k < iNew + nCell
      ensures InCopy(pg.g, temp[..], a, want, k)
    {
      CopyHas(pg.g, pg.data[..], t, i, a, want, k);
    }
  }

  lemma CopyHas(g: Geometry, d: seq<byte>, t: seq<byte>, i: nat, a: CellArray, want: seq<seq<byte>>, k: nat)
    requires Holds(g, d) && |t| == |d| && i == Get2(d, g.hdr + 5) <= g.usable && SourceAt(g, d, a, want, k)
    ensures InCopy(g, Copy(t, i, d, i, g.usable - i), a, want, k)
  {
    hide Copy;
    var t' := Copy(t, i, d, i, g.usable - i);
    if a.at[k].OnPage? {
      var z := Span(a.at[k].at, |want[k]|);
      forall q: nat | z.start <= q < z.End()
        ensures Kept(d, t', q)
      {
      }
      CellKept(d, t', z);
    }
  }

  /** One cell of rebuildPage(). */
  method PlaceNext(pg: MemPage, temp: array<byte>, a: CellArray, iNew: nat, j: nat, data0: nat,
                   ghost want: seq<seq<byte>>, ghost d0: seq<byte>, ghost z0: seq<Span>)
    returns (ok: bool, data: nat, ghost z: seq<Span>)
    requires Rebuilding(pg.g, d0, pg.data[..], want, z0, iNew, j, data0) && temp != pg.data
    requires ArrayOk(pg.xCellSize, a, want) && iNew + j < |a.at| && InCopy(pg.g, temp[..], a, want, iNew + j)
    modifies pg.data
    ensures |want| == |a.at| && (ok <==> Gap(pg.g, j + 1) + Sizes(want[iNew..iNew + j + 1]) <= pg.g.usable)
    ensures ok ==> Rebuilding(pg.g, d0, pg.data[..], want, z, iNew, j + 1, data)
  {
    hide Rebuilding, Wrote, Put2, Copy, Sizes;
    ghost var d, i := pg.data[..], iNew + j;
    RebuildingParts(pg.g, d0, d, want, z0, iNew, j, data0);
    assert EntryOk(pg.xCellSize, a, want, i);
    SizesSnoc(want, iNew, j);
    var sz := a.sz[iNew + j];
    var pCell := match a.at[iNew + j]
      case Elsewhere(bytes) => bytes
      case OnPage(at) => temp[at..at + sz];
    z := z0 + [Span(if data0 >= sz then data0 - sz else 0, sz)];
    var p: int := data0 - sz;
    WriteTwo(pg.data, Gap(pg.g, j), p % 0x1_0000);
    if p < Gap(pg.g, j + 1) {
      return false, data0, z;
    }
    data := p;
    RebuildStep(pg.g, d0, d, want, z0, iNew, j, data0);
    PointerFirst(pg.g, d, pCell, Span(data, sz), j);
    SmallRest(p);
    WriteCopy(pg.data, data, pCell, 0, sz);
    ok := true;
  }

  lemma SmallRest(v: int)
    ensures 0 <= v < 0x1_0000 ==> v % 0x1_0000 == v
  {
  }

  method FinishRebuild(pg: MemPage, n: nat, data: nat, ghost z: seq<Span>)
    requires pg.g.hdr + 8 <= pg.data.Length
    modifies pg, pg.data
    ensures pg.data[..] == Rebuilt(pg.g, old(pg.data[..]), n, data) && pg.nCell == n && pg.ovfl == [] && pg.cells == z
    ensures pg.free == []
  {
    hide Put2;
    pg.nCell := n;
    pg.ovfl := [];
    WriteTwo(pg.data, pg.g.hdr + 1, 0);
    WriteTwo(pg.data, pg.g.hdr + 3, n);
    WriteTwo(pg.data, pg.g.hdr + 5, data);
    pg.data[pg.g.hdr + 7] := 0;
    pg.cells, pg.free := z, [];
  }

  // ---- editPage(), the whole -----------------------------------------------------------------------

  /** The steps that add cells, as far as there is room: where one of them fails, the cells that stayed on the
      page are still there. */
  method AddCells(pg: MemPage, p: Before, iNew: nat, nNew: nat, nCell0: nat, a: CellArray, ghost want: seq<seq<byte>>,
                  ghost s: seq<Span>, ghost held: seq<int>)
    returns (ok: bool, ghost high: seq<Span>)
    requires pg.g.hdr == 0 && p.Valid() && ArrayOk(pg.xCellSize, a, want) && iNew + nNew <= |a.at| && p.End() <= |a.at|
    requires Local(pg.xCellSize)
    requires forall i: nat | i < |a.at| :: (At0(a, i).OnPage? ==> p.InBody(i))
    requires p.m == |pg.ovfl| && forall t: nat | t < p.m :: pg.ovfl[t].0 == p.o + t
    requires Trimmed(pg.g, pg.data[..], pg.free, a, want, s, held) && |s| == nCell0
    requires Holding(held, Max(p.iOld, iNew), Min(Max(p.End(), iNew), iNew + nNew), p.iOld + p.o, p.iOld + p.o + p.m)
    modifies pg, pg.data
    ensures !ok ==> Salvage(pg.g, old(pg.data[..]), pg.data[..], s, high, pg.free)
    ensures ok ==> HasCells(pg, want, iNew, nNew) && SameButCount(pg.g, old(pg.data[..]), pg.data[..])
  {
    hide Editing, Salvage, Trimmed, Holding, ArrayOk, Underway, HasCells, Get2NotZero;
    ghost var d := pg.data[..];
    TrimmedParts(pg.g, d, pg.free, a, want, s, held);
    SalvageSame(pg.g, d, s, pg.free);
    high := s;
    var begin := Gap(pg.g, nNew);
    var data := Get2NotZero(pg.data[..], pg.g.hdr + 5);
    if data < begin {
      return false, high;
    }
    ghost var dr := Draft(s, held, s, []);
    EditingStart(pg.g, d, pg.free, a, want, s, held, begin, p, iNew, nNew);
    UnderwayStart(pg, d, s, want, dr, begin, data, Max(p.iOld, iNew), Min(Max(p.End(), iNew), iNew + nNew),
                  p.iOld + p.o, p.iOld + p.o + p.m);
    var nCell;
    ok, nCell, data, dr := AddFront(pg, p, iNew, nNew, begin, data, nCell0, a, want, dr, d, s);
    high := dr.high;
    if ok {
      ok, nCell, data, dr := AddOverflow(pg, p, iNew, nNew, begin, data, nCell, a, want, dr, d, s);
      high := dr.high;
      if ok {
        ok, high := Append(pg, p, iNew, nNew, begin, data, nCell, a, want, dr, d, s);
      }
    }
  }

  lemma EditingStart(g: Geometry, d: seq<byte>, free: seq<Span>, a: CellArray, want: seq<seq<byte>>, s: seq<Span>,
                     held: seq<int>, begin: nat, p: Before, iNew: nat, nNew: nat)
    requires Trimmed(g, d, free, a, want, s, held) && begin == Gap(g, nNew) <= Top(g, d)
    requires Holding(held, Max(p.iOld, iNew), Min(Max(p.End(), iNew), iNew + nNew), p.iOld + p.o, p.iOld + p.o + p.m)
    ensures Editing(g, d, free, want, Draft(s, held, s, []), 0, 0, begin, Top(g, d))
  {
    hide Space, Slots, Holding;
    HoldingRoom(held, Max(p.iOld, iNew), Min(Max(p.End(), iNew), iNew + nNew), p.iOld + p.o, p.iOld + p.o + p.m);
    assert s + [] == s;
  }

  lemma UnderwayStart(pg: MemPage, d0: seq<byte>, s0: seq<Span>, want: seq<seq<byte>>, dr: Draft, begin: nat, data: nat,
                      iNew: int, b: int, lo: int, hi: int)
    requires Editing(pg.g, pg.data[..], pg.free, want, dr, 0, 0, begin, data)
    requires Salvage(pg.g, d0, pg.data[..], s0, dr.high, pg.free) && Holding(dr.held, iNew, b, lo, hi)
    ensures Underway(pg, d0, s0, want, dr, begin, data, iNew, b, lo, hi)
  {
  }

  /** Where the edit fails, the page can be rebuilt: the cells that stay are where the array says. */
  lemma CanRebuild(g: Geometry, d: seq<byte>, d1: seq<byte>, free: seq<Span>, free1: seq<Span>, f: seq<byte> -> nat,
                   p: Before, a: CellArray, want: seq<seq<byte>>, s: seq<Span>, held: seq<int>, high: seq<Span>,
                   iNew: nat, nNew: nat)
    requires Trimmed(g, d, free, a, want, s, held) && Salvage(g, d, d1, s, high, free1) && ArrayOk(f, a, want)
    requires p.Valid() && iNew + nNew <= |a.at| && forall i: nat | i < |a.at| :: (At0(a, i).OnPage? ==> p.InBody(i))
    requires Holding(held, Max(p.iOld, iNew), Min(Max(p.End(), iNew), iNew + nNew), p.iOld + p.o, p.iOld + p.o + p.m)
    ensures Holds(g, d1) && Get2(d1, g.hdr + 5) <= g.usable
    ensures forall i: nat | iNew <= i < iNew + nNew :: SourceAt(g, d1, a, want, i)
  {
    hide Holding, Chain, Sum;
    forall i: nat | iNew <= i < iNew + nNew
      ensures SourceAt(g, d1, a, want, i)
    {
      assert EntryOk(f, a, want, i);
      if At0(a, i).OnPage? {
        HoldingHas(held, Max(p.iOld, iNew), Min(Max(p.End(), iNew), iNew + nNew), p.iOld + p.o, p.iOld + p.o + p.m, i);
        var k: nat :| k < |held| && held[k] == i;
        StillAt(g, d, d1, free, free1, a, want, s, held, high, k);
      }
    }
  }

  lemma StillAt(g: Geometry, d: seq<byte>, d1: seq<byte>, free: seq<Span>, free1: seq<Span>, a: CellArray,
                want: seq<seq<byte>>, s: seq<Span>, held: seq<int>, high: seq<Span>, k: nat)
    requires Trimmed(g, d, free, a, want, s, held) && Salvage(g, d, d1, s, high, free1) && k < |held|
    requires |want| == |a.at|
    ensures Holds(g, d1) && 0 <= held[k] < |a.at| && SourceAt(g, d1, a, want, held[k])
  {
    hide Chain, Sum;
    assert InPlace(a, s, held, k) && HeldAt(held, k) == held[k];
    assert SlotOk(g, d, want, s, held, 0, 0, k) && SpanKept(d, d1, At(s, k));
    assert At(high, k) == s[k] && Top(g, d1) <= At(high, k).start && At(high, k).End() <= g.usable;
  }

  /** A page that holds the cells has room for them. */
  lemma HeldFits(pg: MemPage, want: seq<seq<byte>>, iNew: nat, n: nat)
    requires HasCells(pg, want, iNew, n)
    ensures Gap(pg.g, n) + Sizes(want[iNew..iNew + n]) <= pg.g.usable && Sum(pg.cells) == Sizes(want[iNew..iNew + n])
  {
    var c := want[iNew..iNew + n];
    forall i: nat | i < n
      ensures |c[i]| == At(pg.cells, i).size
    {
      assert Contents(pg.data[..], pg.cells)[i] == CellBytes(pg.data[..], At(pg.cells, i));
    }
    SizesSum(c, pg.cells);
    Packing(pg.cells, Top(pg.g, pg.data[..]), pg.g.usable);
  }

  /** editPage(): the page comes to hold the nNew cells of the array from iNew on, in their order and with their
      bytes, by the shorter way if there is room and by rebuilding it if not. It fails exactly if they do not fit. */
  method Edit(pg: MemPage, p: Before, iNew: nat, nNew: nat, a: CellArray, ghost want: seq<seq<byte>>) returns (ok: bool)
    requires pg.g.hdr == 0 && PageIs(pg, p, a, want) && iNew + nNew <= |a.at|
    modifies pg, pg.data
    ensures |want| == |a.at| && (ok <==> Gap(pg.g, nNew) + Sizes(want[iNew..iNew + nNew]) <= pg.g.usable)
    ensures ok ==> HasCells(pg, want, iNew, nNew) && SameButCount(pg.g, old(pg.data[..]), pg.data[..])
  {
    hide Salvage, Trimmed, Holding, ArrayOk, HasCells, PageOk, Sizes;
    ghost var d0 := pg.data[..];
    ArrayParts(pg, p, a, want);
    var nCell;
    ghost var s, held;
    nCell, s, held := TrimFront(pg, p, iNew, a, want);
    ghost var d1 := pg.data[..];
    nCell, s, held := TrimTail(pg, p, nCell, iNew, iNew + nNew, a, want, s, held);
    ghost var d2, free2 := pg.data[..], pg.free;
    CountTrans(pg.g, d0, d1, d2);
    ghost var high;
    ok, high := AddCells(pg, p, iNew, nNew, nCell, a, want, s, held);
    ghost var d3 := pg.data[..];
    if ok {
      CountTrans(pg.g, d0, d2, d3);
      HeldFits(pg, want, iNew, nNew);
      return;
    }
    SalvageCount(pg.g, d2, d3, d3, s, high, pg.free);
    CanRebuild(pg.g, d2, d3, free2, pg.free, pg.xCellSize, p, a, want, s, held, high, iNew, nNew);
    CountTrans(pg.g, d0, d2, d3);
    ok := Rebuild(pg, nNew, a, iNew, want);
    if ok {
      CountTrans(pg.g, d0, d3, pg.data[..]);
    }
  }

  lemma ArrayParts(pg: MemPage, p: Before, a: CellArray, want: seq<seq<byte>>)
    requires PageIs(pg, p, a, want)
    ensures ArrayOk(pg.xCellSize, a, want) && |want| == |a.at| && Local(pg.xCellSize)
  {
  }

  /** What balance_nonroot() does with one sibling: the cells are exchanged, and the count of free bytes is what
      the planner reckoned. The page is well-formed again. */
  method UpdatePage(pg: MemPage, p: Before, iNew: nat, nNew: nat, a: CellArray, szNew: nat, ghost want: seq<seq<byte>>)
    requires pg.g.hdr == 0 && PageIs(pg, p, a, want) && iNew + nNew <= |a.at|
    requires |want| == |a.at| && szNew == 2 * nNew + Sizes(want[iNew..iNew + nNew]) <= pg.g.usable - pg.g.CellOffset()
    modifies pg, pg.data
    ensures pg.Valid() && pg.nCell == nNew && pg.ovfl == [] && pg.Cells() == want[iNew..iNew + nNew]
    ensures pg.nFree == pg.g.usable - pg.g.CellOffset() - szNew && SameButCount(pg.g, old(pg.data[..]), pg.data[..])
  {
    hide PageIs, Sizes, Sum;
    var ok := Edit(pg, p, iNew, nNew, a, want);
    if !ok {
      assert false;  // SQLITE_CORRUPT
    }
    HeldFits(pg, want, iNew, nNew);
    pg.nFree := pg.g.usable - pg.g.CellOffset() - szNew;
  }
}
