/** The cells of a page: the pointer array, the bytes it points at, and how they move when the
    page is defragmented. */
module PageCells {
  import opened Bytes
  import opened Spans
  import opened PageLayout

  function CellBytes(d: seq<byte>, z: Span): (c: seq<byte>)
    requires z.End() <= |d|
    ensures |c| == z.size
  {
    d[z.start .. z.End()]
  }

  /** A cell-size routine that looks at nothing but the cell. */
  ghost predicate Local(f: seq<byte> -> nat) {
    forall c: seq<byte>, rest: seq<byte> | f(c) == |c| :: f(c + rest) == |c|
  }

  /** The i-th entry of the pointer array leads to a cell of the recorded size. */
  ghost predicate CellAt(g: Geometry, f: seq<byte> -> nat, d: seq<byte>, cells: seq<Span>, i: nat) {
    && i < |cells|
    && g.CellOffset() + 2 * i + 2 <= |d| && cells[i].End() <= |d|
    && Get2(d, g.CellOffset() + 2 * i) == cells[i].start
    && f(CellBytes(d, cells[i])) == cells[i].size
  }

  ghost predicate Indexed(g: Geometry, f: seq<byte> -> nat, d: seq<byte>, cells: seq<Span>) {
    forall i: nat | i < |cells| :: CellAt(g, f, d, cells, i)
  }

  lemma CellKept(cur: seq<byte>, cur': seq<byte>, z: Span)
    requires z.End() <= |cur| == |cur'|
    requires forall q: nat | z.start <= q < z.End() :: Kept(cur, cur', q)
    ensures CellBytes(cur', z) == CellBytes(cur, z)
  {
    forall x: nat | x < z.size ensures CellBytes(cur', z)[x] == CellBytes(cur, z)[x] {
      assert Kept(cur, cur', z.start + x);
    }
  }

  /** The cells of a page in index order. */
  ghost function Contents(d: seq<byte>, cells: seq<Span>): (c: seq<seq<byte>>)
    requires forall i: nat | i < |cells| :: At(cells, i).End() <= |d|
    ensures |c| == |cells|
    ensures forall i: nat | i < |cells| :: c[i] == CellBytes(d, At(cells, i))
  {
    seq(|cells|, i requires 0 <= i < |cells| => CellBytes(d, At(cells, i)))
  }

  /** First byte past the pointer array. */
  function Gap(g: Geometry, nCell: nat): nat {
    g.CellOffset() + 2 * nCell
  }

  /** A well-formed page. */
  ghost predicate PageOk(g: Geometry, f: seq<byte> -> nat, d: seq<byte>, nCell: nat, nFree: int, cells: seq<Span>,
                         free: seq<Span>) {
    && Local(f)
    && Space(g, d, cells, free)
    && |cells| == nCell == Get2(d, g.hdr + 3)
    && Gap(g, nCell) <= Top(g, d)
    && Indexed(g, f, d, cells)
    && nFree == g.usable - Gap(g, nCell) - Sum(cells)
  }

  lemma PageParts(g: Geometry, f: seq<byte> -> nat, d: seq<byte>, nCell: nat, nFree: int, cells: seq<Span>,
                  free: seq<Span>)
    requires PageOk(g, f, d, nCell, nFree, cells, free)
    ensures Local(f) && Space(g, d, cells, free) && |cells| == nCell == Get2(d, g.hdr + 3) && Holds(g, d)
    ensures g.CellOffset() <= Gap(g, nCell) <= Top(g, d) <= g.usable && nFree == g.usable - Gap(g, nCell) - Sum(cells)
    ensures Inside(cells, Top(g, d), g.usable) && Disjoint(cells)
  {
  }

  /** nFree counts the gap, the freeblocks and the fragments. */
  lemma FreeBytes(g: Geometry, f: seq<byte> -> nat, d: seq<byte>, nCell: nat, nFree: int, cells: seq<Span>,
                  free: seq<Span>)
    requires PageOk(g, f, d, nCell, nFree, cells, free)
    ensures nFree == Top(g, d) - Gap(g, nCell) + Sum(free) + Frag(g, d)
  {
  }

  lemma CellsFit(g: Geometry, f: seq<byte> -> nat, d: seq<byte>, nCell: nat, nFree: int, cells: seq<Span>,
                 free: seq<Span>)
    requires PageOk(g, f, d, nCell, nFree, cells, free)
    ensures forall i: nat | i < |cells| :: At(cells, i).End() <= |d|
  {
  }

  // ---- defragmentPage, the full repack -------------------------------------------------------

  /** Where the repack puts the cells: packed against the end of the page in index order. */
  function Packed(cells: seq<Span>, hi: nat): (p: seq<Span>)
    requires Ahead(cells, |cells|) <= hi
    ensures |p| == |cells|
    ensures forall i: nat | i < |p| :: At(p, i) == PackedAt(cells, hi, i)
  {
    var p := seq(|cells|, i requires 0 <= i < |cells| => PackedAt(cells, hi, i));
    assert forall i: nat | i < |p| :: At(p, i) == p[i];
    p
  }

  function PackedAt(cells: seq<Span>, hi: nat, i: nat): Span
    requires i < |cells| && Ahead(cells, |cells|) <= hi
  {
    AheadMono(cells, i + 1, |cells|);
    Span(hi - Ahead(cells, i + 1), cells[i].size)
  }

  lemma PackedLayout(cells: seq<Span>, lo: nat, hi: nat)
    requires Within(cells, lo, hi) && Ahead(cells, |cells|) <= hi
    ensures Within(Packed(cells, hi), hi - Ahead(cells, |cells|), hi) && Disjoint(Packed(cells, hi))
    ensures Sum(Packed(cells, hi)) == Sum(cells)
  {
    var p := Packed(cells, hi);
    forall i: nat | i < |p|
      ensures hi - Ahead(cells, |cells|) <= At(p, i).start && 4 <= At(p, i).size && At(p, i).End() <= hi
    {
      AheadMono(cells, i + 1, |cells|);
      assert 4 <= At(cells, i).size;
    }
    forall i: nat, j: nat | i < j < |p| ensures Apart(At(p, i), At(p, j)) {
      AheadMono(cells, i + 1, j);
    }
    forall i: nat | i < |p| ensures At(p, i).size == At(cells, i).size {}
    SumPointwise(p, cells);
  }

  /** Cells not yet reached lie below those that are already where the repack wants them. */
  lemma {:induction false} RestBelow(cells: seq<Span>, lo: nat, hi: nat, i: nat, m: nat)
    requires Within(cells, lo, hi) && Disjoint(cells) && Ahead(cells, |cells|) <= hi
    requires i <= m < |cells|
    requires forall j: nat | j < i :: At(cells, j) == PackedAt(cells, hi, j)
    ensures At(cells, m).End() + Ahead(cells, i) <= hi
    decreases i
  {
    if i == 0 {
      assert At(cells, m).End() <= hi;
    } else {
      RestBelow(cells, lo, hi, i - 1, m);
      assert Apart(At(cells, i - 1), At(cells, m));
      assert 4 <= At(cells, i - 1).size && 4 <= At(cells, m).size;
      assert At(cells, i - 1) == PackedAt(cells, hi, i - 1);
    }
  }

  // ---- defragmentPage, the fast path -----------------------------------------------------------

  /** One or two freeblocks, in order, inside the content area. */
  predicate Few(top: nat, hi: nat, free: seq<Span>) {
    && 1 <= |free| <= 2
    && top < free[0].start && 4 <= free[0].size && free[0].End() <= hi
    && (|free| == 2 ==> free[0].End() + 4 <= free[1].start && 4 <= free[1].size && free[1].End() <= hi)
  }

  lemma FewBounds(g: Geometry, d: seq<byte>, used: seq<Span>, free: seq<Span>)
    requires Space(g, d, used, free) && 1 <= |free| <= 2
    ensures Few(Top(g, d), g.usable, free)
    ensures Get2(d, g.hdr + 1) == free[0].start
    ensures Get2(d, free[0].start) == Link(free, 1) && Get2(d, free[0].start + 2) == free[0].size
    ensures |free| == 2 ==> Get2(d, free[1].start) == 0 && Get2(d, free[1].start + 2) == free[1].size
    ensures g.CellOffset() <= Top(g, d) < g.usable <= |d| && g.hdr + 8 <= g.CellOffset()
    ensures Get2(d, g.hdr + 5) == Top(g, d)
  {
    ReadNode(g, d, used, free, 0);
    ReadNode(g, d, used, free, 1);
  }

  /** How far the fast path moves a cell that starts at p, over one or two freeblocks. */
  function Shift(free: seq<Span>, p: nat): nat
    requires 1 <= |free| <= 2
  {
    if p < free[0].start then Sum(free)
    else if |free| == 2 && p < free[1].start then free[1].size
    else 0
  }

  function Shifted(cells: seq<Span>, free: seq<Span>): (r: seq<Span>)
    requires 1 <= |free| <= 2
    ensures |r| == |cells|
    ensures forall i: nat | i < |r| :: At(r, i) == Span(cells[i].start + Shift(free, cells[i].start), cells[i].size)
  {
    var r := seq(|cells|, i requires 0 <= i < |cells| => Span(cells[i].start + Shift(free, cells[i].start),
                                                              cells[i].size));
    assert forall i: nat | i < |r| :: At(r, i) == r[i];
    r
  }

  lemma FewSum(free: seq<Span>)
    requires 1 <= |free| <= 2
    ensures Sum(free) == free[0].size + if |free| == 2 then free[1].size else 0
  {
    SumFew(free, 0, |free|);
    assert free[0..|free|] == free;
  }

  lemma ShiftedLayout(top: nat, hi: nat, cells: seq<Span>, free: seq<Span>)
    requires Layout(top, hi, cells, free) && 1 <= |free| <= 2
    ensures Within(Shifted(cells, free), top + Sum(free), hi) && Disjoint(Shifted(cells, free))
    ensures Sum(Shifted(cells, free)) == Sum(cells)
  {
    var r := Shifted(cells, free);
    FewSum(free);
    assert 4 <= At(free, 0).size && At(free, 0).End() <= hi;
    if |free| == 2 {
      assert 4 <= At(free, 1).size && At(free, 1).End() <= hi;
      assert At(free, 0).End() + 4 <= At(free, 1).start;
    }
    forall i: nat | i < |r|
      ensures top + Sum(free) <= At(r, i).start && 4 <= At(r, i).size && At(r, i).End() <= hi
    {
      assert Apart(At(cells, i), At(free, 0));
      assert |free| == 2 ==> Apart(At(cells, i), At(free, 1));
    }
    forall i: nat, j: nat | i < j < |r| ensures Apart(At(r, i), At(r, j)) {
      assert Apart(At(cells, i), At(cells, j));
      assert Apart(At(cells, i), At(free, 0)) && Apart(At(cells, j), At(free, 0));
      assert |free| == 2 ==> Apart(At(cells, i), At(free, 1)) && Apart(At(cells, j), At(free, 1));
    }
    SumPointwise(r, cells);
  }

  /** The page after the two moves of the fast path. */
  function FastMoved(d: seq<byte>, top: nat, free: seq<Span>): (r: seq<byte>)
    requires Few(top, |d|, free)
    ensures |r| == |d|
    ensures forall q {:trigger r[q]} | 0 <= q < |d| ::
      (r[q] == if top + Sum(free) <= q < free[0].start + Sum(free) then d[q - Sum(free)]
               else if |free| == 2 && free[0].End() + free[1].size <= q < free[1].start + free[1].size then
                 d[q - free[1].size]
               else d[q])
  {
    FewSum(free);
    var d1 := if |free| == 2
      then Copy(d, free[0].End() + free[1].size, d, free[0].End(), free[1].start - free[0].End())
      else d;
    Copy(d1, top + Sum(free), d1, top, free[0].start - top)
  }

  lemma FastMovedOne(d: seq<byte>, top: nat, free: seq<Span>, sz: nat, n: nat)
    requires Few(top, |d|, free) && |free| == 1 && sz == Sum(free) && n == free[0].start - top
    ensures top + sz + n <= |d| && FastMoved(d, top, free) == Copy(d, top + sz, d, top, n)
  {
    hide Copy;
    FewSum(free);
  }

  lemma FastMovedTwo(d: seq<byte>, top: nat, free: seq<Span>, sz: nat, n: nat, to: nat, from: nat, m: nat)
    requires Few(top, |d|, free) && |free| == 2 && sz == Sum(free) && n == free[0].start - top
    requires to == free[0].End() + free[1].size && from == free[0].End() && m == free[1].start - free[0].End()
    ensures top + sz + n <= |d| && to + m <= |d| && from + m <= |d|
    ensures FastMoved(d, top, free) == Copy(Copy(d, to, d, from, m), top + sz, Copy(d, to, d, from, m), top, n)
  {
    hide Copy;
    FewSum(free);
  }

  /** The i-th entry of the pointer array. */
  ghost predicate PtrAt(g: Geometry, d: seq<byte>, cells: seq<Span>, i: nat) {
    i < |cells| && g.CellOffset() + 2 * i + 2 <= |d| && Get2(d, g.CellOffset() + 2 * i) == cells[i].start
  }

  lemma PtrKept(g: Geometry, d: seq<byte>, d': seq<byte>, cells: seq<Span>, i: nat)
    requires PtrAt(g, d, cells, i) && |d'| == |d|
    requires var p := g.CellOffset() + 2 * i; d'[p] == d[p] && d'[p + 1] == d[p + 1]
    ensures PtrAt(g, d', cells, i)
  {
  }

  /** Every byte but those of the first n entries of the pointer array is as in m. */
  ghost predicate OnlyPointers(g: Geometry, m: seq<byte>, d: seq<byte>, n: nat) {
    |d| == |m| && forall q: nat | q < |m| && !(g.CellOffset() <= q < g.CellOffset() + 2 * n) :: Kept(m, d, q)
  }

  /** What the loop over the pointer array reads, and what it must write. */
  lemma RepointStep(g: Geometry, f: seq<byte> -> nat, d: seq<byte>, nFree: int, cells: seq<Span>, free: seq<Span>,
                    d': seq<byte>, i: nat)
    requires PageOk(g, f, d, |cells|, nFree, cells, free) && Few(Top(g, d), |d|, free) && i < |cells|
    requires OnlyPointers(g, FastMoved(d, Top(g, d), free), d', i)
    ensures g.CellOffset() + 2 * i + 2 <= g.usable <= |d'|
    ensures Get2(d', g.CellOffset() + 2 * i) == cells[i].start
    ensures At(Shifted(cells, free), i).start < 0x1_0000
  {
    hide FastMoved, Sum;
    var p := g.CellOffset() + 2 * i;
    FewSum(free);
    assert 4 <= At(free, 0).size;
    assert |free| == 2 ==> 4 <= At(free, 1).size;
    assert CellAt(g, f, d, cells, i);
    var m := FastMoved(d, Top(g, d), free);
    assert Kept(m, d', p) && Kept(m, d', p + 1);
    ShiftedLayout(Top(g, d), g.usable, cells, free);
    assert 4 <= At(Shifted(cells, free), i).size;
  }

  lemma RepointSound(g: Geometry, f: seq<byte> -> nat, d: seq<byte>, nFree: int, cells: seq<Span>, free: seq<Span>,
                     d': seq<byte>)
    requires PageOk(g, f, d, |cells|, nFree, cells, free) && Few(Top(g, d), |d|, free)
    requires OnlyPointers(g, FastMoved(d, Top(g, d), free), d', |cells|)
    requires forall i: nat | i < |cells| :: PtrAt(g, d', Shifted(cells, free), i)
    ensures Moved(g, d, d', cells, Shifted(cells, free))
    ensures SameHeader(g, d, d') && d'[g.hdr + 7] == d[g.hdr + 7]
  {
    hide FastMoved, Sum;
    var m, r := FastMoved(d, Top(g, d), free), Shifted(cells, free);
    FewSum(free);
    assert 4 <= At(free, 0).size && At(free, 0).End() <= g.usable;
    assert |free| == 2 ==> 4 <= At(free, 1).size && At(free, 1).End() <= g.usable;
    ShiftedLayout(Top(g, d), g.usable, cells, free);
    forall i: nat | i < |cells| ensures MovedAt(g, d, d', cells, r, i) {
      assert PtrAt(g, d', r, i) && CellAt(g, f, d, cells, i);
      FastCell(d, Top(g, d), g.usable, cells, free, i);
      var z := At(r, i);
      forall q: nat | z.start <= q < z.End() ensures Kept(m, d', q) {}
      CellKept(m, d', z);
    }
    assert Kept(m, d', g.hdr + 7);
    forall q: nat | q < |d| && (q < g.CellOffset() || g.usable <= q) ensures Kept(d, d', q) {
      assert Kept(m, d', q);
    }
  }

  lemma FastCell(d: seq<byte>, top: nat, hi: nat, cells: seq<Span>, free: seq<Span>, i: nat)
    requires Layout(top, hi, cells, free) && Few(top, |d|, free) && hi <= |d| && i < |cells|
    ensures At(Shifted(cells, free), i).End() <= |d|
    ensures CellBytes(FastMoved(d, top, free), At(Shifted(cells, free), i)) == CellBytes(d, cells[i])
  {
    hide FastMoved, Shift, Disjoint, Spans.Ascending, Sum;
    ShiftedLayout(top, hi, cells, free);
    var z, z' := cells[i], At(Shifted(cells, free), i);
    AwayFromFew(top, hi, |d|, cells, free, i);
    assert 4 <= z'.size;
    var r := FastMoved(d, top, free);
    var a, b := CellBytes(r, z'), CellBytes(d, z);
    forall x | 0 <= x < z.size ensures a[x] == b[x] {
      FastByte(d, top, free, z, z.start + x);
      assert a[x] == r[z'.start + x];
    }
  }

  lemma AwayFromFew(top: nat, hi: nat, n: nat, cells: seq<Span>, free: seq<Span>, i: nat)
    requires Layout(top, hi, cells, free) && Few(top, n, free) && i < |cells|
    ensures top <= cells[i].start && cells[i].End() <= hi && Apart(cells[i], free[0]) && 4 <= free[0].size
    ensures 4 <= cells[i].size
    ensures |free| == 2 ==> Apart(cells[i], free[1])
  {
    hide Disjoint, Spans.Ascending;
    assert At(cells, i) == cells[i] && 4 <= At(cells, i).size;
    assert Apart(At(cells, i), At(free, 0));
    assert |free| == 2 ==> Apart(At(cells, i), At(free, 1));
  }

  lemma FastByte(d: seq<byte>, top: nat, free: seq<Span>, z: Span, q: nat)
    requires Few(top, |d|, free) && top <= z.start && z.End() <= |d| && z.Has(q)
    requires Apart(z, free[0]) && (|free| == 2 ==> Apart(z, free[1]))
    ensures q + Shift(free, z.start) < |d| && FastMoved(d, top, free)[q + Shift(free, z.start)] == d[q]
  {
    hide FastMoved, Sum;
    FewSum(free);
    var to := q + Shift(free, z.start);
    assert to < |d|;
  }

  lemma SlideFits(g: Geometry, f: seq<byte> -> nat, d: seq<byte>, nFree: int, cells: seq<Span>, free: seq<Span>)
    requires PageOk(g, f, d, |cells|, nFree, cells, free)
    ensures Gap(g, |cells|) <= Top(g, d) + Sum(free) <= g.usable
    ensures Frag(g, d) <= 60 && Frag(g, d) + Sum(cells) == g.usable - (Top(g, d) + Sum(free))
  {
  }

  // ---- what both paths establish ---------------------------------------------------------------

  /** The i-th cell has kept its bytes and its pointer has followed it. */
  ghost predicate MovedAt(g: Geometry, d: seq<byte>, d1: seq<byte>, cells: seq<Span>, cells': seq<Span>, i: nat) {
    && i < |cells| == |cells'|
    && cells[i].End() <= |d| && cells'[i].End() <= |d1| && g.CellOffset() + 2 * i + 2 <= |d1|
    && cells'[i].size == cells[i].size
    && Get2(d1, g.CellOffset() + 2 * i) == cells'[i].start
    && CellBytes(d1, cells'[i]) == CellBytes(d, cells[i])
  }

  ghost predicate Moved(g: Geometry, d: seq<byte>, d1: seq<byte>, cells: seq<Span>, cells': seq<Span>) {
    |cells'| == |cells| && forall i: nat | i < |cells| :: MovedAt(g, d, d1, cells, cells', i)
  }

  /** Header bytes that belong to the page's owner: the file header, flags, cell count and right child. */
  ghost predicate SameHeader(g: Geometry, d: seq<byte>, d': seq<byte>) {
    && |d'| == |d|
    && g.CellOffset() <= |d|
    && (forall q: nat | q < g.CellOffset() && q != g.hdr + 1 && q != g.hdr + 2 && !(g.hdr + 5 <= q < g.hdr + 8) ::
          Kept(d, d', q))
    && (forall q: nat | g.usable <= q < |d| :: Kept(d, d', q))
  }

  /** The tail of defragmentPage(). */
  function Compacted(g: Geometry, d1: seq<byte>, gap: nat, cbrk: nat): (r: seq<byte>)
    requires Holds(g, d1) && gap <= cbrk <= g.usable
    ensures |r| == |d1|
  {
    Zeroed(Put2(d1, g.hdr + 5, cbrk)[g.hdr + 1 := 0][g.hdr + 2 := 0], gap, cbrk - gap)
  }

  lemma CompactedSound(g: Geometry, f: seq<byte> -> nat, d: seq<byte>, nFree: int, cells: seq<Span>, free: seq<Span>,
                       d1: seq<byte>, cells': seq<Span>, cbrk: nat)
    requires PageOk(g, f, d, |cells|, nFree, cells, free)
    requires SameHeader(g, d, d1) && Moved(g, d, d1, cells, cells')
    requires Gap(g, |cells|) <= cbrk <= g.usable
    requires Within(cells', cbrk, g.usable) && Disjoint(cells') && Sum(cells') == Sum(cells)
    requires d1[g.hdr + 7] <= 60 && d1[g.hdr + 7] + Sum(cells) == g.usable - cbrk
    ensures PageOk(g, f, Compacted(g, d1, Gap(g, |cells|), cbrk), |cells|, nFree, cells', [])
    ensures Top(g, Compacted(g, d1, Gap(g, |cells|), cbrk)) == cbrk
    ensures Frag(g, Compacted(g, d1, Gap(g, |cells|), cbrk)) == d1[g.hdr + 7]
    ensures SameHeader(g, d, Compacted(g, d1, Gap(g, |cells|), cbrk))
    ensures Moved(g, d, Compacted(g, d1, Gap(g, |cells|), cbrk), cells, cells')
  {
    hide Compacted, Get2NotZero, Layout, Chain, Sum, Frag;
    var gap := Gap(g, |cells|);
    var d' := Compacted(g, d1, gap, cbrk);
    CompactedHeader(g, d, d1, |cells|, cbrk);
    forall i: nat | i < |cells| ensures MovedAt(g, d, d', cells, cells', i) && CellAt(g, f, d', cells', i) {
      assert MovedAt(g, d, d1, cells, cells', i) && CellAt(g, f, d, cells, i) && cbrk <= At(cells', i).start;
      CompactedCell(g, d1, gap, cbrk, At(cells', i));
      CompactedPointer(g, d1, |cells|, cbrk, i);
    }
    EmptyChain(g, d', cells', cbrk);
  }

  lemma EmptyChain(g: Geometry, d: seq<byte>, cells: seq<Span>, cbrk: nat)
    requires Holds(g, d) && g.CellOffset() <= cbrk == Top(g, d) <= g.usable && Get2(d, g.hdr + 1) == 0
    requires Within(cells, cbrk, g.usable) && Disjoint(cells) && Frag(g, d) + Sum(cells) == g.usable - cbrk
    requires Frag(g, d) <= 60
    ensures Space(g, d, cells, [])
  {
  }

  lemma CompactedHeader(g: Geometry, d: seq<byte>, d1: seq<byte>, n: nat, cbrk: nat)
    requires Holds(g, d) && SameHeader(g, d, d1) && Gap(g, n) <= cbrk <= g.usable
    ensures Holds(g, d1)
    ensures var d' := Compacted(g, d1, Gap(g, n), cbrk);
      && Top(g, d') == cbrk && Frag(g, d') == d1[g.hdr + 7] && Get2(d', g.hdr + 1) == 0
      && Get2(d', g.hdr + 3) == Get2(d, g.hdr + 3) && SameHeader(g, d, d')
  {
    var d' := Compacted(g, d1, Gap(g, n), cbrk);
    assert Kept(d, d1, g.hdr + 3) && Kept(d, d1, g.hdr + 4);
    forall q: nat | q < |d|
      && ((q < g.CellOffset() && q != g.hdr + 1 && q != g.hdr + 2 && !(g.hdr + 5 <= q < g.hdr + 8)) || g.usable <= q)
      ensures Kept(d, d', q)
    {
      assert Kept(d, d1, q);
    }
  }

  lemma CompactedPointer(g: Geometry, d1: seq<byte>, n: nat, cbrk: nat, i: nat)
    requires Holds(g, d1) && Gap(g, n) <= cbrk <= g.usable && i < n
    ensures g.CellOffset() + 2 * i + 2 <= |d1|
    ensures Get2(Compacted(g, d1, Gap(g, n), cbrk), g.CellOffset() + 2 * i) == Get2(d1, g.CellOffset() + 2 * i)
  {
    var p, d' := g.CellOffset() + 2 * i, Compacted(g, d1, Gap(g, n), cbrk);
    assert d'[p] == d1[p] && d'[p + 1] == d1[p + 1];
  }

  lemma CompactedCell(g: Geometry, d1: seq<byte>, gap: nat, cbrk: nat, z: Span)
    requires Holds(g, d1) && g.CellOffset() <= gap <= cbrk <= g.usable
    requires cbrk <= z.start && z.End() <= g.usable
    ensures CellBytes(Compacted(g, d1, gap, cbrk), z) == CellBytes(d1, z)
  {
    var a, b := CellBytes(Compacted(g, d1, gap, cbrk), z), CellBytes(d1, z);
    forall x | 0 <= x < z.size ensures a[x] == b[x] {
      assert a[x] == Compacted(g, d1, gap, cbrk)[z.start + x];
    }
  }

  // ---- the loop of the full repack -------------------------------------------------------------

  /** After i cells: they are where they belong, and the rest of the page is untouched but for
      their pointers. */
  ghost predicate Repacked(g: Geometry, d: seq<byte>, cells: seq<Span>, cur: seq<byte>, i: nat, cbrk: nat) {
    && i <= |cells| && Ahead(cells, |cells|) <= g.usable <= |d| == |cur|
    && cbrk + Ahead(cells, i) == g.usable
    && (forall j: nat | j < i :: PackedCell(g, d, cells, cur, j))
    && (forall q: nat | q < |d| && !(g.CellOffset() <= q < g.CellOffset() + 2 * i) && !(cbrk <= q < g.usable) :: Kept(d,
        cur, q))
  }

  /** The j-th cell has reached its place at the end of the page. */
  ghost predicate PackedCell(g: Geometry, d: seq<byte>, cells: seq<Span>, cur: seq<byte>, j: nat)
    requires Ahead(cells, |cells|) <= g.usable <= |d| == |cur|
  {
    && j < |cells| && cells[j].End() <= |d|
    && g.CellOffset() + 2 * j + 2 <= |cur|
    && Get2(cur, g.CellOffset() + 2 * j) == PackedAt(cells, g.usable, j).start
    && PackedAt(cells, g.usable, j).End() <= |d|
    && CellBytes(cur, PackedAt(cells, g.usable, j)) == CellBytes(d, cells[j])
  }

  /** Nothing has had to move yet. */
  ghost predicate Unmoved(g: Geometry, d: seq<byte>, cells: seq<Span>, cur: seq<byte>, i: nat) {
    && i <= |cells| && Ahead(cells, |cells|) <= g.usable
    && OnlyPointers(g, d, cur, i)
    && forall j: nat | j < i :: At(cells, j) == PackedAt(cells, g.usable, j)
  }

  /** The copy still holds every cell that is to be moved. */
  ghost predicate Saved(d: seq<byte>, cells: seq<Span>, temp: seq<byte>, i: nat) {
    && |temp| == |d|
    && forall m: nat | i <= m < |cells| ::
      At(cells, m).End() <= |d| && CellBytes(temp, At(cells, m)) == CellBytes(d, At(cells, m))
  }

  lemma RepackStart(g: Geometry, f: seq<byte> -> nat, d: seq<byte>, nFree: int, cells: seq<Span>, free: seq<Span>)
    requires PageOk(g, f, d, |cells|, nFree, cells, free)
    ensures Repacked(g, d, cells, d, 0, g.usable) && Unmoved(g, d, cells, d, 0)
  {
    AheadAll(cells);
    Packing(cells, Top(g, d), g.usable);
  }

  lemma RepackedParts(g: Geometry, d: seq<byte>, cells: seq<Span>, cur: seq<byte>, i: nat, cbrk: nat)
    requires Repacked(g, d, cells, cur, i, cbrk)
    ensures cbrk <= g.usable <= |d| == |cur|
  {
  }

  lemma SavedAt(d: seq<byte>, cells: seq<Span>, temp: seq<byte>, i: nat)
    requires Saved(d, cells, temp, i) && i < |cells|
    ensures |temp| == |d| && cells[i].End() <= |d| && CellBytes(temp, cells[i]) == CellBytes(d, cells[i])
    ensures Saved(d, cells, temp, i + 1)
  {
    assert At(cells, i) == cells[i];
  }

  lemma RepackRoom(g: Geometry, f: seq<byte> -> nat, d: seq<byte>, nFree: int, cells: seq<Span>, free: seq<Span>,
                   i: nat)
    requires PageOk(g, f, d, |cells|, nFree, cells, free) && i < |cells|
    ensures g.usable <= 0x1_0000
    ensures g.CellOffset() + 2 * i + 2 <= Gap(g, |cells|) <= Top(g, d) < 0x1_0000
    ensures Top(g, d) <= cells[i].start && cells[i].End() <= g.usable <= |d| && 4 <= cells[i].size
    ensures Ahead(cells, i) + cells[i].size == Ahead(cells, i + 1) <= Ahead(cells, |cells|) <= g.usable - Top(g, d)
  {
    assert 4 <= At(cells, i).size;
    Packing(cells, Top(g, d), g.usable);
    AheadAll(cells);
    AheadMono(cells, i + 1, |cells|);
  }

  lemma RepackReads(g: Geometry, f: seq<byte> -> nat, d: seq<byte>, nFree: int, cells: seq<Span>, free: seq<Span>,
                    cur: seq<byte>, i: nat, cbrk: nat)
    requires PageOk(g, f, d, |cells|, nFree, cells, free) && i < |cells|
    requires Repacked(g, d, cells, cur, i, cbrk)
    ensures g.CellOffset() + 2 * i + 2 <= |cur|
    ensures Get2(cur, g.CellOffset() + 2 * i) == cells[i].start && Get2(cur, g.hdr + 5) == Top(g, d)
    ensures cbrk - cells[i].size == PackedAt(cells, g.usable, i).start >= Top(g, d)
  {
    RepackRoom(g, f, d, nFree, cells, free, i);
    assert CellAt(g, f, d, cells, i);
    var p := g.CellOffset() + 2 * i;
    assert Kept(d, cur, p) && Kept(d, cur, p + 1) && Kept(d, cur, g.hdr + 5) && Kept(d, cur, g.hdr + 6);
  }

  /** The size routine sees the cell, wherever the bytes after it come from. */
  lemma SizeRead(g: Geometry, f: seq<byte> -> nat, d: seq<byte>, nFree: int, cells: seq<Span>, free: seq<Span>, i: nat,
                 src: seq<byte>)
    requires PageOk(g, f, d, |cells|, nFree, cells, free) && i < |cells|
    requires cells[i].End() <= |src| && cells[i].End() <= |d| && CellBytes(src, cells[i]) == CellBytes(d, cells[i])
    ensures f(src[cells[i].start..]) == cells[i].size
  {
    assert CellAt(g, f, d, cells, i);
    var c := CellBytes(src, cells[i]);
    assert src[cells[i].start..] == c + src[cells[i].End()..];
  }

  /** The page after one more cell: its pointer set to to, its bytes copied there from src. */
  function OneMoved(cur: seq<byte>, p: nat, to: nat, src: seq<byte>, z: Span): (r: seq<byte>)
    requires p + 2 <= to && to + z.size <= |cur| && z.End() <= |src|
    ensures |r| == |cur|
    ensures to < 0x1_0000 ==> Get2(r, p) == to
    ensures CellBytes(r, Span(to, z.size)) == CellBytes(src, z)
    ensures forall q {:trigger r[q]} | 0 <= q < |cur| && q != p && q != p + 1 && !(to <= q < to + z.size) ::
      r[q] == cur[q]
  {
    var r := Copy(Put2(cur, p, to), to, src, z.start, z.size);
    assert CellBytes(r, Span(to, z.size)) == CellBytes(src, z);
    r
  }

  lemma PointerKept(d: seq<byte>, d': seq<byte>, p: nat)
    requires p + 1 < |d| == |d'| && Kept(d, d', p) && Kept(d, d', p + 1)
    ensures Get2(d', p) == Get2(d, p)
  {
  }

  lemma PackedEnd(cells: seq<Span>, hi: nat, j: nat)
    requires Ahead(cells, |cells|) <= hi && j < |cells|
    ensures Ahead(cells, j + 1) == Ahead(cells, j) + cells[j].size && PackedAt(cells, hi, j).End() <= hi
    ensures PackedAt(cells, hi, j).start == hi - Ahead(cells, j + 1)
  {
  }

  lemma PackedKept(g: Geometry, d: seq<byte>, cells: seq<Span>, cur: seq<byte>, cur': seq<byte>, i: nat, j: nat)
    requires Ahead(cells, |cells|) <= g.usable <= |d| == |cur| == |cur'|
    requires PackedCell(g, d, cells, cur, j) && j < i < |cells|
    requires forall q: nat | g.usable - Ahead(cells, i) <= q < g.usable :: Kept(cur, cur', q)
    requires forall q: nat | g.CellOffset() <= q < g.CellOffset() + 2 * i && q < |cur| :: Kept(cur, cur', q)
    ensures PackedCell(g, d, cells, cur', j)
  {
    hide Ahead, Get2, PackedAt, CellBytes;
    PackedEnd(cells, g.usable, j);
    AheadMono(cells, j + 1, i);
    RangeKept(cur, cur', g.usable - Ahead(cells, i), g.usable, PackedAt(cells, g.usable, j));
    var p := g.CellOffset() + 2 * j;
    assert Kept(cur, cur', p) && Kept(cur, cur', p + 1);
    PointerKept(cur, cur', p);
  }

  lemma RangeKept(cur: seq<byte>, cur': seq<byte>, lo: int, hi: int, z: Span)
    requires lo <= z.start && z.End() <= hi && z.End() <= |cur| == |cur'|
    requires forall q: nat | lo <= q < hi :: q < |cur| && Kept(cur, cur', q)
    ensures CellBytes(cur', z) == CellBytes(cur, z)
  {
    forall q: nat | z.start <= q < z.End()
      ensures Kept(cur, cur', q)
    {
    }
    CellKept(cur, cur', z);
  }

  /** One cell further. */
  lemma RepackStep(g: Geometry, f: seq<byte> -> nat, d: seq<byte>, nFree: int, cells: seq<Span>, free: seq<Span>,
                   cur: seq<byte>, i: nat, cbrk: nat, src: seq<byte>)
    requires PageOk(g, f, d, |cells|, nFree, cells, free) && i < |cells|
    requires Repacked(g, d, cells, cur, i, cbrk)
    requires cells[i].size <= cbrk <= g.usable && g.CellOffset() + 2 * i + 2 <= cbrk - cells[i].size
    requires cells[i].End() <= |src| == |d| && CellBytes(src, cells[i]) == CellBytes(d, cells[i])
    ensures Repacked(g, d, cells, OneMoved(cur, g.CellOffset() + 2 * i, cbrk - cells[i].size, src, cells[i]), i + 1,
                     cbrk - cells[i].size)
  {
    hide OneMoved, PageOk, Ahead, Get2;
    PackedEnd(cells, g.usable, i);
    RepackRoom(g, f, d, nFree, cells, free, i);
    var p, to := g.CellOffset() + 2 * i, cbrk - cells[i].size;
    var r := OneMoved(cur, p, to, src, cells[i]);
    forall q: nat | q < |cur| && q != p && q != p + 1 && !(to <= q < cbrk) ensures Kept(cur, r, q) {}
    forall j: nat | j < i ensures PackedCell(g, d, cells, r, j) {
      assert PackedCell(g, d, cells, cur, j);
      PackedKept(g, d, cells, cur, r, i, j);
    }
    assert PackedAt(cells, g.usable, i) == Span(to, cells[i].size);
    assert PackedCell(g, d, cells, r, i);
    forall q: nat | q < |d| && !(g.CellOffset() <= q < p + 2) && !(to <= q < g.usable) ensures Kept(d, r, q) {
      assert Kept(d, cur, q) && Kept(cur, r, q);
    }
  }

  lemma UnmovedCell(g: Geometry, f: seq<byte> -> nat, d: seq<byte>, nFree: int, cells: seq<Span>, free: seq<Span>,
                    cur: seq<byte>, i: nat, n: nat, m: nat)
    requires PageOk(g, f, d, |cells|, nFree, cells, free) && m < |cells| && n <= |cells|
    requires OnlyPointers(g, d, cur, n)
    ensures cells[m].End() <= |d| == |cur| && CellBytes(cur, cells[m]) == CellBytes(d, cells[m])
  {
    RepackRoom(g, f, d, nFree, cells, free, m);
    var z := cells[m];
    forall q: nat | z.start <= q < z.End() ensures Kept(d, cur, q) {}
    CellKept(d, cur, z);
  }

  /** A cell that already is where it belongs is left alone. */
  lemma StayStep(g: Geometry, f: seq<byte> -> nat, d: seq<byte>, nFree: int, cells: seq<Span>, free: seq<Span>,
                 cur: seq<byte>, i: nat, cbrk: nat)
    requires PageOk(g, f, d, |cells|, nFree, cells, free) && i < |cells|
    requires Repacked(g, d, cells, cur, i, cbrk) && Unmoved(g, d, cells, cur, i)
    requires cbrk == cells[i].End() && g.CellOffset() + 2 * i + 2 <= |cur|
    ensures Repacked(g, d, cells, Put2(cur, g.CellOffset() + 2 * i, cells[i].start), i + 1, cells[i].start)
    ensures Unmoved(g, d, cells, Put2(cur, g.CellOffset() + 2 * i, cells[i].start), i + 1)
  {
    hide Put2, PageOk, Ahead, Get2;
    PackedEnd(cells, g.usable, i);
    RepackRoom(g, f, d, nFree, cells, free, i);
    RepackReads(g, f, d, nFree, cells, free, cur, i, cbrk);
    var p := g.CellOffset() + 2 * i;
    var r := Put2(cur, p, cells[i].start);
    forall q: nat | q < |cur| && q != p && q != p + 1 ensures Kept(cur, r, q) {}
    forall q: nat | q < |d| && !(g.CellOffset() <= q < p + 2) ensures Kept(d, r, q) {
      assert Kept(d, cur, q) && Kept(cur, r, q);
    }
    forall j: nat | j < i ensures PackedCell(g, d, cells, r, j) {
      assert PackedCell(g, d, cells, cur, j);
      PackedKept(g, d, cells, cur, r, i, j);
    }
    UnmovedCell(g, f, d, nFree, cells, free, r, i, i + 1, i);
    assert PackedCell(g, d, cells, r, i);
    assert At(cells, i) == PackedAt(cells, g.usable, i);
  }

  /** The copy taken when the first cell moves holds every cell from there on. */
  lemma SavedInit(g: Geometry, f: seq<byte> -> nat, d: seq<byte>, nFree: int, cells: seq<Span>, free: seq<Span>,
                  cur: seq<byte>, i: nat, n: nat, lim: nat, temp: seq<byte>)
    requires PageOk(g, f, d, |cells|, nFree, cells, free) && i < |cells| && n <= |cells|
    requires OnlyPointers(g, d, cur, n) && |temp| == |d|
    requires Ahead(cells, |cells|) <= g.usable && lim + Ahead(cells, i) == g.usable
    requires forall j: nat | j < i :: At(cells, j) == PackedAt(cells, g.usable, j)
    requires Top(g, d) <= lim <= |d|
    ensures Saved(d, cells, Copy(temp, Top(g, d), cur, Top(g, d), lim - Top(g, d)), i)
  {
    hide Copy;
    RepackRoom(g, f, d, nFree, cells, free, i);
    var t := Copy(temp, Top(g, d), cur, Top(g, d), lim - Top(g, d));
    forall m: nat | i <= m < |cells|
      ensures At(cells, m).End() <= |d| && CellBytes(t, At(cells, m)) == CellBytes(d, At(cells, m))
    {
      RepackRoom(g, f, d, nFree, cells, free, m);
      RestBelow(cells, Top(g, d), g.usable, i, m);
      UnmovedCell(g, f, d, nFree, cells, free, cur, i, n, m);
      var z := At(cells, m);
      forall q: nat | z.start <= q < z.End() ensures Kept(cur, t, q) {}
      CellKept(cur, t, z);
    }
  }

  /** Every cell is at its place once the loop is done. */
  lemma RepackDone(g: Geometry, f: seq<byte> -> nat, d: seq<byte>, nFree: int, cells: seq<Span>, free: seq<Span>,
                   cur: seq<byte>, cbrk: nat)
    requires PageOk(g, f, d, |cells|, nFree, cells, free)
    requires Repacked(g, d, cells, cur, |cells|, cbrk)
    ensures Moved(g, d, cur[g.hdr + 7 := 0], cells, Packed(cells, g.usable))
    ensures SameHeader(g, d, cur[g.hdr + 7 := 0])
    ensures Within(Packed(cells, g.usable), cbrk, g.usable) && Disjoint(Packed(cells, g.usable))
    ensures Sum(Packed(cells, g.usable)) == Sum(cells) && cbrk + Sum(cells) == g.usable
    ensures Gap(g, |cells|) <= cbrk <= g.usable
  {
    hide Sum, Chain, Packed, Ahead, Get2, Indexed, Spans.Ascending, CrossApart;
    var r := cur[g.hdr + 7 := 0];
    AheadAll(cells);
    Packing(cells, Top(g, d), g.usable);
    PackedLayout(cells, Top(g, d), g.usable);
    forall i: nat | i < |cells| ensures MovedAt(g, d, r, cells, Packed(cells, g.usable), i) {
      assert PackedCell(g, d, cells, cur, i);
      var z := At(Packed(cells, g.usable), i);
      assert 4 <= z.size;
      forall q: nat | z.start <= q < z.End() ensures Kept(cur, r, q) {}
      CellKept(cur, r, z);
      var q := g.CellOffset() + 2 * i;
      assert Kept(cur, r, q) && Kept(cur, r, q + 1);
      PointerKept(cur, r, q);
    }
    forall q: nat | q < |d| && q != g.hdr + 7 && (q < g.CellOffset() || g.usable <= q) ensures Kept(d, r, q) {
      assert Kept(d, cur, q);
    }
  }
}
