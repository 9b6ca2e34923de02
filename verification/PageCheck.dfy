/** Reading a page that may be malformed: what btreeInitPage() accepts, and what the integrity check then
    finds wrong with it. */
module PageCheck {
  import opened Bytes
  import opened Spans
  import opened PageLayout
  import opened PageCells
  import opened SpanHeap
  import opened Coverage
  import opened Varints
  import opened CellFormat

  // ---- btreeInitPage() -----------------------------------------------------------------------------

  /** The freeblock at k: in range, past the one before by more than three bytes, as the chain says. */
  ghost predicate BlockAt(g: Geometry, d: seq<byte>, free: seq<Span>, k: nat)
    requires Holds(g, d)
  {
    && k < |free| && 0 < free[k].start <= g.usable - 4 && free[k].End() <= g.usable
    && Get2(d, free[k].start) == Link(free, k + 1) && Get2(d, free[k].start + 2) == free[k].size
    && (k + 1 < |free| ==> free[k].End() + 4 <= free[k + 1].start)
  }

  /** The chain of freeblocks that starts in the page header. */
  ghost predicate Blocks(g: Geometry, d: seq<byte>, nCell: nat, free: seq<Span>)
    requires Holds(g, d)
  {
    && Get2(d, g.hdr + 1) == Link(free, 0)
    && (free != [] ==> Gap(g, nCell) <= free[0].start)
    && forall k: nat :: k < |free| ==> BlockAt(g, d, free, k)
  }

  /** A page that passes: its chain is in order, and leaves room for the cells' pointers. */
  ghost predicate Accepted(g: Geometry, d: seq<byte>, pageSize: nat, free: seq<Span>)
    requires Holds(g, d)
  {
    var nCell := Get2(d, g.hdr + 3);
    && 6 * nCell + 8 <= pageSize && Blocks(g, d, nCell, free)
    && Frag(g, d) + Top(g, d) + Sum(free) <= g.usable
  }

  /** There is one chain at most. */
  lemma {:induction false} OneChain(g: Geometry, d: seq<byte>, nCell: nat, a: seq<Span>, b: seq<Span>, k: nat)
    requires Holds(g, d) && Blocks(g, d, nCell, a) && Blocks(g, d, nCell, b)
    requires k <= |a| && k <= |b| && a[..k] == b[..k] && Link(a, k) == Link(b, k)
    ensures a == b
    decreases |a| - k
  {
    if k < |a| {
      assert BlockAt(g, d, a, k);
      assert k < |b|;
      assert BlockAt(g, d, b, k);
      assert a[..k + 1] == a[..k] + [a[k]] && b[..k + 1] == b[..k] + [b[k]];
      OneChain(g, d, nCell, a, b, k + 1);
    } else {
      assert k < |b| ==> BlockAt(g, d, b, k);
    }
  }

  /** The freeblocks read so far: block k is at pc, and every chain begins like this. */
  ghost predicate Reading(g: Geometry, d: seq<byte>, nCell: nat, free: seq<Span>, pc: nat)
    requires Holds(g, d)
  {
    && Get2(d, g.hdr + 1) == (if free == [] then pc else free[0].start)
    && (forall k: nat :: k < |free| ==> ReadAt(g, d, free, pc, k))
    && Gap(g, nCell) <= pc && (free != [] ==> Gap(g, nCell) <= free[0].start)
  }

  ghost predicate ReadAt(g: Geometry, d: seq<byte>, free: seq<Span>, pc: nat, k: nat)
    requires Holds(g, d) && k < |free|
  {
    var next := if k + 1 < |free| then free[k + 1].start else pc;
    && 0 < free[k].start <= g.usable - 4 && free[k].End() + 4 <= next
    && Get2(d, free[k].start) == next && Get2(d, free[k].start + 2) == free[k].size
  }

  lemma ReadNext(g: Geometry, d: seq<byte>, nCell: nat, free: seq<Span>, pc: nat)
    requires Holds(g, d) && Reading(g, d, nCell, free, pc) && 0 < pc <= g.usable - 4
    requires Get2(d, pc) > pc + Get2(d, pc + 2) + 3
    ensures Reading(g, d, nCell, free + [Span(pc, Get2(d, pc + 2))], Get2(d, pc))
  {
    var f := free + [Span(pc, Get2(d, pc + 2))];
    forall k: nat | k < |f|
      ensures ReadAt(g, d, f, Get2(d, pc), k)
    {
      assert k < |free| ==> ReadAt(g, d, free, pc, k);
    }
  }

  lemma ReadAll(g: Geometry, d: seq<byte>, nCell: nat, free: seq<Span>, pc: nat)
    requires Holds(g, d) && Reading(g, d, nCell, free, pc) && 0 < pc <= g.usable - 4
    requires Get2(d, pc) == 0 && pc + Get2(d, pc + 2) <= g.usable
    ensures Blocks(g, d, nCell, free + [Span(pc, Get2(d, pc + 2))])
  {
    var f := free + [Span(pc, Get2(d, pc + 2))];
    forall k: nat | k < |f|
      ensures BlockAt(g, d, f, k)
    {
      assert k < |free| ==> ReadAt(g, d, free, pc, k);
      assert k + 1 < |free| ==> ReadAt(g, d, free, pc, k + 1);
    }
  }

  /** Any chain of the page goes through what has been read. */
  lemma {:induction false} OnEveryChain(g: Geometry, d: seq<byte>, nCell: nat, free: seq<Span>, pc: nat, c: seq<Span>,
                                        k: nat)
    requires Holds(g, d) && Reading(g, d, nCell, free, pc) && Blocks(g, d, nCell, c) && k <= |free| && pc > 0
    ensures k <= |c| && c[..k] == free[..k] && Link(c, k) == if k < |free| then free[k].start else pc
    decreases k
  {
    if k > 0 {
      OnEveryChain(g, d, nCell, free, pc, c, k - 1);
      assert ReadAt(g, d, free, pc, k - 1);
      assert BlockAt(g, d, c, k - 1);
      assert c[..k] == c[..k - 1] + [c[k - 1]] && free[..k] == free[..k - 1] + [free[k - 1]];
    }
  }

  /** No chain goes on from a block at pc that is malformed. */
  lemma NoChain(g: Geometry, d: seq<byte>, nCell: nat, free: seq<Span>, pc: nat, c: seq<Span>)
    requires Holds(g, d) && Reading(g, d, nCell, free, pc) && pc > 0 && Blocks(g, d, nCell, c)
    ensures pc <= g.usable - 4 && pc + Get2(d, pc + 2) <= g.usable
    ensures Get2(d, pc) <= pc + Get2(d, pc + 2) + 3 ==> Get2(d, pc) == 0
  {
    OnEveryChain(g, d, nCell, free, pc, c, |free|);
    assert BlockAt(g, d, c, |free|);
  }

  /** btreeInitPage(): the chain of freeblocks is read, and the free space added up. */
  method InitPage(g: Geometry, d: seq<byte>, pageSize: nat) returns (ok: bool, nFree: int, ghost free: seq<Span>)
    requires Holds(g, d) && g.usable <= pageSize <= 0x1_0000
    ensures ok <==> exists c: seq<Span> :: Accepted(g, d, pageSize, c)
    ensures ok ==> Accepted(g, d, pageSize, free)
    ensures ok ==> nFree == Frag(g, d) + Top(g, d) + Sum(free) - Gap(g, Get2(d, g.hdr + 3))
  {
    hide Reading, Blocks, Get2, Get2NotZero;
    nFree, free := 0, [];
    var top := Top(g, d);
    var nCell := Get2(d, g.hdr + 3);
    if nCell > (pageSize - 8) / 6 {
      return false, nFree, free;
    }
    var iCellFirst := g.CellOffset() + 2 * nCell;
    var iCellLast := g.usable - 4;
    var pc := Get2(d, g.hdr + 1);
    nFree := d[g.hdr + 7] + top;
    if pc > 0 {
      if pc < iCellFirst {
        NoChainEarly(g, d, nCell);
        return false, nFree, free;
      }
      ReadNone(g, d, nCell, pc);
      var next, size: nat;
      while true
        invariant 0 < pc < 0x1_0000 && Reading(g, d, nCell, free, pc)
        invariant nFree == Frag(g, d) + top + Sum(free)
        decreases 0x1_0000 - pc
      {
        if pc > iCellLast {
          NoChains(g, d, nCell, free, pc);
          return false, nFree, free;
        }
        next := Get2(d, pc);
        size := Get2(d, pc + 2);
        nFree := nFree + size;
        SumSnoc(free, Span(pc, size));
        if next <= pc + size + 3 {
          break;
        }
        ReadNext(g, d, nCell, free, pc);
        free := free + [Span(pc, size)];
        pc := next;
      }
      if next > 0 || pc + size > g.usable {
        NoChains(g, d, nCell, free, pc);
        return false, nFree, free;
      }
      ReadAll(g, d, nCell, free, pc);
      free := free + [Span(pc, size)];
    } else {
      NoBlocks(g, d, nCell);
    }
    Unique(g, d, nCell, free);
    assert Frag(g, d) + Top(g, d) + Sum(free) <= g.usable ==> Accepted(g, d, pageSize, free);
    ok := nFree <= g.usable;
    nFree := nFree - iCellFirst;
  }

  lemma NoChains(g: Geometry, d: seq<byte>, nCell: nat, free: seq<Span>, pc: nat)
    requires Holds(g, d) && Reading(g, d, nCell, free, pc) && pc > 0
    requires pc > g.usable - 4 || pc + Get2(d, pc + 2) > g.usable
      || 0 < Get2(d, pc) <= pc + Get2(d, pc + 2) + 3
    ensures forall c: seq<Span> :: !Blocks(g, d, nCell, c)
  {
    forall c: seq<Span>
      ensures !Blocks(g, d, nCell, c)
    {
      if Blocks(g, d, nCell, c) {
        NoChain(g, d, nCell, free, pc, c);
      }
    }
  }

  lemma NoChainEarly(g: Geometry, d: seq<byte>, nCell: nat)
    requires Holds(g, d) && 0 < Get2(d, g.hdr + 1) < Gap(g, nCell)
    ensures forall c: seq<Span> :: !Blocks(g, d, nCell, c)
  {
  }

  lemma ReadNone(g: Geometry, d: seq<byte>, nCell: nat, pc: nat)
    requires Holds(g, d) && pc == Get2(d, g.hdr + 1) && Gap(g, nCell) <= pc
    ensures Reading(g, d, nCell, [], pc)
  {
  }

  lemma NoBlocks(g: Geometry, d: seq<byte>, nCell: nat)
    requires Holds(g, d) && Get2(d, g.hdr + 1) == 0
    ensures Blocks(g, d, nCell, [])
  {
  }

  lemma Unique(g: Geometry, d: seq<byte>, nCell: nat, free: seq<Span>)
    requires Holds(g, d) && Blocks(g, d, nCell, free)
    ensures forall c: seq<Span> :: Blocks(g, d, nCell, c) ==> c == free
  {
    forall c: seq<Span> | Blocks(g, d, nCell, c)
      ensures c == free
    {
      OneChain(g, d, nCell, c, free, 0);
    }
  }

  // ---- checkTreePage(), the coverage check ---------------------------------------------------------

  /** The span of the i-th cell, as the page's bytes have it. */
  function CellSpan(g: Geometry, f: seq<byte> -> nat, d: seq<byte>, i: nat): Span
    requires Gap(g, i) + 2 <= |d|
  {
    var pc := Get2(d, Gap(g, i));
    Span(pc, if pc <= |d| then f(d[pc..]) else 0)
  }

  function CellSpans(g: Geometry, f: seq<byte> -> nat, d: seq<byte>, n: nat): (s: seq<Span>)
    requires Gap(g, n) <= |d|
    ensures |s| == n
    ensures forall i: nat :: i < n ==> At(s, i) == CellSpan(g, f, d, i)
  {
    seq(n, i requires 0 <= i < n => CellSpan(g, f, d, i))
  }

  /** A cell lies between the start of the content area and the end of the page. */
  predicate CellInRange(g: Geometry, d: seq<byte>, z: Span)
    requires Holds(g, d)
  {
    Top(g, d) <= z.start <= g.usable - 4 && z.End() <= g.usable
  }

  ghost predicate AllInRange(g: Geometry, d: seq<byte>, s: seq<Span>)
    requires Holds(g, d)
  {
    forall i: nat :: i < |s| ==> CellInRange(g, d, At(s, i))
  }

  /** Each byte of the content area is used once at most, and the others are counted as fragments. */
  ghost predicate Covering(g: Geometry, d: seq<byte>, s: seq<Span>)
    requires Holds(g, d)
  {
    Tidy(Top(g, d), s) && Frag(g, d) == |Uncovered(Top(g, d), g.usable, s)|
  }

  /** The room the pointer array and the freeblocks need. */
  lemma {:induction false} BlocksRoom(g: Geometry, d: seq<byte>, nCell: nat, free: seq<Span>, k: nat)
    requires Holds(g, d) && Blocks(g, d, nCell, free) && k < |free|
    requires forall i: nat :: i < |free| ==> 4 <= At(free, i).size
    ensures free[k].start >= Gap(g, nCell) + 8 * k
  {
    if k > 0 {
      BlocksRoom(g, d, nCell, free, k - 1);
      assert BlockAt(g, d, free, k - 1);
      assert 4 <= At(free, k - 1).size;
    }
  }

  /** The heap has one slot for each four bytes of a page: enough for the cells and freeblocks of any page
      that is accepted, overlapping or not, if freeblocks have room for their headers. */
  lemma HeapHasRoom(g: Geometry, d: seq<byte>, pageSize: nat, free: seq<Span>)
    requires Holds(g, d) && g.usable <= pageSize && Accepted(g, d, pageSize, free)
    requires forall i: nat :: i < |free| ==> 4 <= At(free, i).size
    ensures Get2(d, g.hdr + 3) + |free| < pageSize / 4
  {
    var nCell := Get2(d, g.hdr + 3);
    if free != [] {
      BlocksRoom(g, d, nCell, free, |free| - 1);
      assert BlockAt(g, d, free, |free| - 1);
      assert 4 <= At(free, |free| - 1).size;
    }
  }

  /** The most freeblocks there can be behind n cell pointers, each without a byte of its own. */
  function MostBlocks(g: Geometry, n: nat): nat {
    if Gap(g, n) <= g.usable then (g.usable - Gap(g, n)) / 4 else 0
  }

  lemma {:induction false} BlocksApart(g: Geometry, d: seq<byte>, nCell: nat, free: seq<Span>, k: nat)
    requires Holds(g, d) && Blocks(g, d, nCell, free) && k < |free|
    ensures free[k].start >= Gap(g, nCell) + 4 * k
  {
    if k > 0 {
      BlocksApart(g, d, nCell, free, k - 1);
      assert BlockAt(g, d, free, k - 1);
    }
  }

  lemma BlocksAtMost(g: Geometry, d: seq<byte>, nCell: nat, free: seq<Span>)
    requires Holds(g, d) && Blocks(g, d, nCell, free)
    ensures |free| <= MostBlocks(g, nCell)
  {
    if free != [] {
      BlocksApart(g, d, nCell, free, |free| - 1);
      assert BlockAt(g, d, free, |free| - 1);
    }
  }

  /** The last place at which the page's bytes can hold a cell: one without payload. */
  function LastPlace(g: Geometry): nat
    requires g.Valid()
  {
    g.usable - if g.leaf then 4 else 5
  }

  /** A page of n cells, all at the last place, and m freeblocks without a byte of their own: its byte p. */
  function CrowdedByte(g: Geometry, n: nat, m: nat, p: nat): byte
    requires g.Valid()
  {
    var first := Gap(g, n);
    if p == g.hdr + 1 then (if m == 0 then 0 else first / 256 % 256)
    else if p == g.hdr + 2 then (if m == 0 then 0 else first % 256)
    else if p == g.hdr + 3 then n / 256 % 256
    else if p == g.hdr + 4 then n % 256
    else if p == g.hdr + 5 then 1
    else if g.CellOffset() <= p < first then HalfByte(LastPlace(g), p - g.CellOffset())
    else if first <= p < first + 4 * m then LinkByte(first, m, p - first)
    else 0
  }

  function HalfByte(v: nat, q: nat): byte {
    if q % 2 == 0 then v / 256 % 256 else v % 256
  }

  function LinkByte(first: nat, m: nat, q: nat): byte {
    var next := if q / 4 + 1 < m then first + 4 * (q / 4 + 1) else 0;
    if q % 4 == 0 then next / 256 % 256 else if q % 4 == 1 then next % 256 else 0
  }

  function Crowded(g: Geometry, size: nat, n: nat, m: nat): (d: seq<byte>)
    requires g.Valid()
    ensures |d| == size
    ensures forall p: nat :: p < size ==> d[p] == CrowdedByte(g, n, m, p)
  {
    seq(size, p requires 0 <= p < size => CrowdedByte(g, n, m, p))
  }

  function CrowdedBlocks(g: Geometry, n: nat, m: nat): (free: seq<Span>)
    ensures |free| == m
    ensures forall k: nat :: k < m ==> free[k] == Span(Gap(g, n) + 4 * k, 0)
  {
    seq(m, k requires 0 <= k < m => Span(Gap(g, n) + 4 * k, 0))
  }

  lemma CrowdedTwo(g: Geometry, size: nat, n: nat, m: nat, p: nat)
    requires g.Valid() && p + 1 < size
    ensures Get2(Crowded(g, size, n, m), p) == (CrowdedByte(g, n, m, p) as int) * 256 + CrowdedByte(g, n, m, p + 1)
  {
    hide Crowded, CrowdedByte;
  }

  lemma CrowdedHeader(g: Geometry, size: nat, n: nat, m: nat)
    requires g.Valid() && g.usable <= size <= 0x1_0000 && 6 * n + 8 <= size && m <= MostBlocks(g, n)
    ensures var d := Crowded(g, size, n, m);
      && Get2(d, g.hdr + 1) == (if m == 0 then 0 else Gap(g, n)) && Get2(d, g.hdr + 3) == n
      && Get2(d, g.hdr + 5) == 256 && d[g.hdr + 7] == 0
  {
    hide Crowded, Get2, LinkByte, HalfByte, LastPlace;
    CrowdedTwo(g, size, n, m, g.hdr + 1);
    CrowdedTwo(g, size, n, m, g.hdr + 3);
    CrowdedTwo(g, size, n, m, g.hdr + 5);
    Halves(Gap(g, n));
    Halves(n);
  }

  lemma Halves(v: nat)
    ensures v < 0x1_0000 ==> v / 256 % 256 * 256 + v % 256 == v
  {
  }

  lemma CrowdedAccepted(g: Geometry, size: nat, n: nat, m: nat)
    requires g.Valid() && g.usable <= size <= 0x1_0000 && 6 * n + 8 <= size && m <= MostBlocks(g, n)
    ensures Holds(g, Crowded(g, size, n, m)) && Get2(Crowded(g, size, n, m), g.hdr + 3) == n
    ensures Accepted(g, Crowded(g, size, n, m), size, CrowdedBlocks(g, n, m))
  {
    hide CrowdedByte, Crowded, Get2, CrowdedBlocks, BlockAt, Sum;
    var d, free := Crowded(g, size, n, m), CrowdedBlocks(g, n, m);
    forall k: nat | k < m
      ensures BlockAt(g, d, free, k)
    {
      CrowdedAt(g, size, n, m, k);
    }
    CrowdedHeader(g, size, n, m);
    NoneSum(free);
  }

  lemma CrowdedAt(g: Geometry, size: nat, n: nat, m: nat, k: nat)
    requires g.Valid() && g.usable <= size <= 0x1_0000 && k < m <= MostBlocks(g, n)
    ensures BlockAt(g, Crowded(g, size, n, m), CrowdedBlocks(g, n, m), k)
  {
    hide Crowded, CrowdedByte, LinkByte, Get2, CrowdedBlocks;
    var p, first := Gap(g, n) + 4 * k, Gap(g, n);
    assert p + 4 <= g.usable;
    CrowdedTwo(g, size, n, m, p);
    CrowdedTwo(g, size, n, m, p + 2);
    InLinks(g, n, m, p);
    InLinks(g, n, m, p + 1);
    InLinks(g, n, m, p + 2);
    InLinks(g, n, m, p + 3);
    LinkBytes(first, m, k);
    Halves(if k + 1 < m then first + 4 * (k + 1) else 0);
  }

  lemma InLinks(g: Geometry, n: nat, m: nat, p: nat)
    requires g.Valid() && Gap(g, n) <= p < Gap(g, n) + 4 * m
    ensures CrowdedByte(g, n, m, p) == LinkByte(Gap(g, n), m, p - Gap(g, n))
  {
    hide LinkByte, HalfByte;
  }

  lemma LinkBytes(first: nat, m: nat, k: nat)
    ensures var next := if k + 1 < m then first + 4 * (k + 1) else 0;
      && LinkByte(first, m, 4 * k) == next / 256 % 256 && LinkByte(first, m, 4 * k + 1) == next % 256
      && LinkByte(first, m, 4 * k + 2) == 0 && LinkByte(first, m, 4 * k + 3) == 0
  {
    Quarter(k);
  }

  lemma Quarter(k: nat)
    ensures (4 * k) / 4 == k && (4 * k) % 4 == 0 && (4 * k + 1) / 4 == k && (4 * k + 1) % 4 == 1
    ensures (4 * k + 2) % 4 == 2 && (4 * k + 3) % 4 == 3
  {
  }

  lemma {:induction false} NoneSum(free: seq<Span>)
    requires forall k: nat :: k < |free| ==> At(free, k).size == 0
    ensures Sum(free) == 0
  {
    if free != [] {
      var n := |free| - 1;
      forall k: nat | k < n
        ensures At(free[..n], k).size == 0
      {
        assert At(free, k).size == 0;
      }
      NoneSum(free[..n]);
      assert At(free, n).size == 0;
    }
  }

  lemma LastLink(first: nat, m: nat, q: nat)
    requires m > 0 && 4 * m - 5 <= q
    ensures LinkByte(first, m, q) == 0
  {
    if q == 4 * m - 5 {
      Quarter(m - 2);
    }
  }

  /** From the last place on, the bytes are zero. */
  lemma CrowdedEnd(g: Geometry, size: nat, n: nat, m: nat, p: nat)
    requires g.Valid() && g.usable <= size && m <= MostBlocks(g, n) && Gap(g, n) <= LastPlace(g) <= p < size
    ensures Crowded(g, size, n, m)[p] == 0
  {
    hide Crowded, HalfByte;
    var first := Gap(g, n);
    if p < first + 4 * m {
      InLinks(g, n, m, p);
      LastLink(first, m, p - first);
    }
  }

  /** A cell of zeros has no payload. */
  lemma EmptyCell(kind: CellKind, usable: nat, c: seq<byte>)
    requires Usable(usable) && |c| >= kind.ChildSize() && forall p: nat :: p < |c| ==> c[p] == 0
    ensures Parsed(kind, usable, c, 0).size == if kind.ChildSize() == 0 then 4 else 5
  {
    var h := kind.ChildSize();
    assert Nth(c, h, 0) == 0 && Nth(c, h + 1, 0) == 0;
    assert Length(c, h) == 1 && Length(c, h + 1) == 1;
    assert Value(c, h, 0) == 0 && Value(c, h, 1) == 0;
    LimitsOrdered(kind, usable);
  }

  lemma CrowdedPointer(g: Geometry, size: nat, n: nat, m: nat, i: nat)
    requires g.Valid() && g.usable <= size <= 0x1_0000 && i < n && Gap(g, n) <= LastPlace(g)
    ensures Get2(Crowded(g, size, n, m), Gap(g, i)) == LastPlace(g)
  {
    hide Crowded, LinkByte, Get2, LastPlace;
    PlaceSmall(g);
    CrowdedTwo(g, size, n, m, Gap(g, i));
    assert Gap(g, i) - g.CellOffset() == 2 * i && Gap(g, i) + 1 - g.CellOffset() == 2 * i + 1;
    Halves(LastPlace(g));
  }

  lemma PlaceSmall(g: Geometry)
    requires g.Valid()
    ensures LastPlace(g) < g.usable <= 0x1_0000
  {
  }

  /** The cells of the crowded page are in range. */
  lemma CrowdedInRange(g: Geometry, kind: CellKind, size: nat, n: nat, m: nat)
    requires g.Valid() && g.usable <= size <= 0x1_0000 && 6 * n + 8 <= size && m <= MostBlocks(g, n)
    requires (g.leaf <==> kind.ChildSize() == 0) && Gap(g, n) <= LastPlace(g)
    ensures var d := Crowded(g, size, n, m); AllInRange(g, d, CellSpans(g, SizeOf(kind, g.usable), d, n))
  {
    hide Crowded, Get2, Parsed, MostBlocks;
    var d, pc := Crowded(g, size, n, m), LastPlace(g);
    forall p: nat | p < |d[pc..]|
      ensures d[pc..][p] == 0
    {
      CrowdedEnd(g, size, n, m, pc + p);
    }
    EmptyCell(kind, g.usable, d[pc..]);
    CrowdedHeader(g, size, n, m);
    var s := CellSpans(g, SizeOf(kind, g.usable), d, n);
    forall i: nat | i < |s|
      ensures CellInRange(g, d, At(s, i))
    {
      CrowdedPointer(g, size, n, m, i);
    }
  }

  /** A page that is accepted, whose cells are in range: its cells and its freeblocks all go into the heap. */
  ghost predicate FillsHeap(g: Geometry, kind: CellKind, d: seq<byte>, size: nat, free: seq<Span>)
    requires Usable(g.usable)
  {
    && Holds(g, d) && |d| == size && Accepted(g, d, size, free) && PointersFit(g, d)
    && AllInRange(g, d, CellSpans(g, SizeOf(kind, g.usable), d, Get2(d, g.hdr + 3)))
  }

  /** Whatever page of n cells is accepted and has them in range, the heap has room for it exactly if it has
      room for as many freeblocks as fit behind the pointers. At most 255 bytes of a page are not usable. */
  lemma HeapRoomExactly(g: Geometry, kind: CellKind, size: nat, n: nat)
    requires g.Valid() && g.usable <= size <= 0x1_0000 && size <= g.usable + 255 && 6 * n + 8 <= size
    requires g.leaf <==> kind.ChildSize() == 0
    ensures (forall d: seq<byte>, free: seq<Span> :: FillsHeap(g, kind, d, size, free) && Get2(d, g.hdr + 3) == n ==>
               n + |free| < size / 4)
      <==> n + MostBlocks(g, n) < size / 4
  {
    hide Crowded, Blocks, MostBlocks, Get2, AllInRange, SizeOf;
    forall d: seq<byte>, free: seq<Span> | FillsHeap(g, kind, d, size, free) && Get2(d, g.hdr + 3) == n
      ensures |free| <= MostBlocks(g, n)
    {
      BlocksAtMost(g, d, n, free);
    }
    CrowdedFills(g, kind, size, n, MostBlocks(g, n));
  }

  lemma CrowdedFills(g: Geometry, kind: CellKind, size: nat, n: nat, m: nat)
    requires g.Valid() && g.usable <= size <= 0x1_0000 && size <= g.usable + 255 && 6 * n + 8 <= size
    requires (g.leaf <==> kind.ChildSize() == 0) && m <= MostBlocks(g, n)
    ensures FillsHeap(g, kind, Crowded(g, size, n, m), size, CrowdedBlocks(g, n, m))
    ensures Get2(Crowded(g, size, n, m), g.hdr + 3) == n
  {
    hide Crowded, Blocks, MostBlocks, Get2, AllInRange, SizeOf;
    CrowdedAccepted(g, size, n, m);
    CrowdedInRange(g, kind, size, n, m);
  }

  /** It has not: 84 cells on an index leaf of 512 bytes leave room for 84 freeblocks, and the heap has 128 slots. */
  lemma HeapOverfull()
    ensures var g := Geometry(0, true, 512);
      exists d: seq<byte>, free: seq<Span> ::
        FillsHeap(g, IndexLeaf, d, 512, free) && Get2(d, g.hdr + 3) + |free| == 168
  {
    var g := Geometry(0, true, 512);
    CrowdedFills(g, IndexLeaf, 512, 84, 84);
    assert Get2(Crowded(g, 512, 84, 84), g.hdr + 3) + |CrowdedBlocks(g, 84, 84)| == 168;
  }

  lemma BlocksFit(g: Geometry, d: seq<byte>, nCell: nat, free: seq<Span>)
    requires Holds(g, d) && Blocks(g, d, nCell, free)
    ensures AllFit(free) && Inside(free, 0, g.usable)
  {
    forall i: nat | i < |free|
      ensures Fits(At(free, i)) && At(free, i).End() <= g.usable
    {
      assert BlockAt(g, d, free, i);
    }
  }

  lemma CellsFitKeys(g: Geometry, d: seq<byte>, s: seq<Span>)
    requires Holds(g, d) && AllInRange(g, d, s)
    ensures AllFit(s) && Inside(s, 0, g.usable)
  {
    forall i: nat | i < |s|
      ensures Fits(At(s, i)) && At(s, i).End() <= g.usable
    {
      assert CellInRange(g, d, At(s, i));
    }
  }

  lemma KeysPlus(s: seq<Span>, z: Span, t: seq<Span>)
    ensures multiset(Keys([z] + s)) == multiset(Keys(s)) + multiset{Key(z)}
    ensures multiset(Keys(s + t)) == multiset(Keys(s)) + multiset(Keys(t))
  {
    assert Keys([z] + s) == [Key(z)] + Keys(s);
    assert Keys(s + t) == Keys(s) + Keys(t);
  }

  /** The loop over the cells, last to first. */
  method CheckCells(g: Geometry, xCellSize: seq<byte> -> nat, d: seq<byte>, nCell: nat,
                    heap: array<u32>) returns (inRange: bool)
    requires Holds(g, d) && Gap(g, nCell) <= |d| && nCell < heap.Length <= 0x1_0000
    modifies heap
    ensures inRange <==> AllInRange(g, d, CellSpans(g, xCellSize, d, nCell))
    ensures inRange ==> HeapOk(heap[..]) && Counted(heap[..]) && heap[0] == nCell
    ensures inRange ==> Entries(heap[..]) == multiset(Keys(CellSpans(g, xCellSize, d, nCell)))
  {
    hide HeapOk, Entries, Keys, Key, Get2, Get2NotZero, CellSpan;
    var contentOffset := Top(g, d);
    ghost var s := CellSpans(g, xCellSize, d, nCell);
    ghost var t: seq<Span> := [];
    inRange := true;
    heap[0] := 0;
    EmptyHeap(heap[..]);
    var i: int := nCell - 1;
    while i >= 0
      invariant -1 <= i < nCell && t == s[i + 1..]
      invariant HeapOk(heap[..]) && Counted(heap[..]) && heap[0] <= nCell - 1 - i
      invariant inRange ==> heap[0] == nCell - 1 - i && Entries(heap[..]) == multiset(Keys(t))
      invariant inRange <==> AllInRange(g, d, t)
    {
      var pc, z := CellSpan(g, xCellSize, d, i).start, CellSpan(g, xCellSize, d, i);
      assert z == At(s, i) && s[i..] == [z] + t;
      RangeStep(g, d, z, t);
      KeysPlus(t, z, []);
      if pc < contentOffset || pc > g.usable - 4 {
        inRange := false;
      } else if pc + z.size > g.usable {
        inRange := false;
      } else {
        BtreeHeapInsert(heap, Key(z));
        HeapCounts(heap[..]);
      }
      t := [z] + t;
      i := i - 1;
    }
    assert s[0..] == s;
  }

  lemma RangeStep(g: Geometry, d: seq<byte>, z: Span, t: seq<Span>)
    requires Holds(g, d)
    ensures AllInRange(g, d, [z] + t) <==> CellInRange(g, d, z) && AllInRange(g, d, t)
  {
    var s := [z] + t;
    forall i: nat | i < |s|
      ensures At(s, i) == if i == 0 then z else At(t, i - 1)
    {
    }
    if AllInRange(g, d, s) {
      assert CellInRange(g, d, At(s, 0));
      forall i: nat | i < |t|
        ensures CellInRange(g, d, At(t, i))
      {
        var j := i + 1;
        assert CellInRange(g, d, At(s, j));
      }
    }
  }

  lemma EmptyHeap(h: seq<u32>)
    requires 0 < |h| <= 0x1_0000 && h[0] == 0
    ensures HeapOk(h) && Counted(h) && Entries(h) == multiset(Keys([]))
  {
  }

  /** The loop over the freeblocks, up to the write past the end of the heap if there is one. */
  method AddBlocks(g: Geometry, d: seq<byte>, heap: array<u32>, ghost nCell: nat,
                   ghost free: seq<Span>) returns (room: bool)
    requires Holds(g, d) && Blocks(g, d, nCell, free) && HeapOk(heap[..]) && Counted(heap[..])
    modifies heap
    ensures room <==> old(heap[0]) + |free| < heap.Length
    ensures room ==> HeapOk(heap[..]) && Counted(heap[..])
    ensures room ==> Entries(heap[..]) == Entries(old(heap[..])) + multiset(Keys(free))
  {
    hide HeapOk, Entries, Keys, Key, Blocks, Get2;
    ghost var was := heap[..];
    ghost var k := 0;
    KeysNone(was);
    var i := Get2(d, g.hdr + 1);
    BlockIs(g, d, nCell, free, 0);
    while i > 0
      invariant k <= |free| && i == Link(free, k) && HeapOk(heap[..]) && Counted(heap[..])
      invariant heap[0] == was[0] + k && (k < |free| ==> i > 0)
      invariant Entries(heap[..]) == Entries(was) + multiset(Keys(free[..k]))
      decreases |free| - k
    {
      BlockIs(g, d, nCell, free, k);
      assert i <= g.usable - 4;
      var size := Get2(d, i + 2);
      assert i + size <= g.usable;
      if heap[0] + 1 >= heap.Length {
        return false;
      }
      KeysSnoc(free, k);
      BtreeHeapInsert(heap, Key(Span(i, size)));
      HeapCounts(heap[..]);
      var j := Get2(d, i);
      k := k + 1;
      BlockIs(g, d, nCell, free, k);
      assert j == 0 || j > i + size;
      i := j;
    }
    assert free[..k] == free;
    room := true;
  }

  lemma KeysNone(h: seq<u32>)
    requires Counted(h)
    ensures forall f: seq<Span> :: Entries(h) + multiset(Keys(f[..0])) == Entries(h)
  {
    forall f: seq<Span>
      ensures Keys(f[..0]) == []
    {
    }
  }

  lemma KeysSnoc(free: seq<Span>, k: nat)
    requires k < |free|
    ensures multiset(Keys(free[..k + 1])) == multiset(Keys(free[..k])) + multiset{Key(free[k])}
  {
    assert Keys(free[..k + 1]) == Keys(free[..k]) + [Key(free[k])];
  }

  lemma BlockIs(g: Geometry, d: seq<byte>, nCell: nat, free: seq<Span>, k: nat)
    requires Holds(g, d) && Blocks(g, d, nCell, free) && k <= |free|
    ensures k == 0 ==> Get2(d, g.hdr + 1) == Link(free, 0)
    ensures k < |free| ==> 0 < free[k].start <= g.usable - 4 && free[k].End() <= g.usable
    ensures k < |free| ==> Get2(d, free[k].start) == Link(free, k + 1) && Get2(d, free[k].start + 2) == free[k].size
    ensures 0 < k < |free| ==> free[k - 1].End() + 4 <= free[k].start
  {
    if k < |free| {
      assert BlockAt(g, d, free, k);
      assert k > 0 ==> BlockAt(g, d, free, k - 1);
    }
  }

  /** What the check of a page's space reports. */
  datatype Report = Clean | CellOutOfRange | MultipleUse | WrongFragments | HeapOverrun

  /** All spans of the page are in the heap. */
  ghost predicate Pulled(g: Geometry, d: seq<byte>, cells: seq<Span>, free: seq<Span>, n: nat)
    requires Holds(g, d)
  {
    AllInRange(g, d, cells) && |cells| + |free| < n
  }

  /** The report says what is wrong, and nothing if all is well, unless the heap of n slots is overrun. */
  ghost predicate Reports(g: Geometry, d: seq<byte>, cells: seq<Span>, free: seq<Span>, n: nat, report: Report)
    requires Holds(g, d)
  {
    match report
    case CellOutOfRange => !AllInRange(g, d, cells)
    case HeapOverrun => AllInRange(g, d, cells) && |cells| + |free| >= n
    case MultipleUse => Pulled(g, d, cells, free, n) && !Tidy(Top(g, d), cells + free)
    case WrongFragments =>
      Pulled(g, d, cells, free, n) && Tidy(Top(g, d), cells + free) && !Covering(g, d, cells + free)
    case Clean => Pulled(g, d, cells, free, n) && Covering(g, d, cells + free)
  }

  /** The coverage part of checkTreePage(), for a page that btreeInitPage() accepts. The heap has a word for each
      four bytes of the page. */
  method CheckPage(g: Geometry, xCellSize: seq<byte> -> nat, d: seq<byte>, heap: array<u32>, ghost free: seq<Span>)
    returns (report: Report)
    requires Holds(g, d) && |d| <= 0x1_0000 && Accepted(g, d, |d|, free)
    requires heap.Length == |d| / 4
    modifies heap
    ensures PointersFit(g, d)
    ensures Reports(g, d, CellSpans(g, xCellSize, d, Get2(d, g.hdr + 3)), free, heap.Length, report)
  {
    hide AllInRange, Covering, Tidy, Keys, AllFit, Inside, HeapOk, Entries, CellSpan, Blocks, Get2NotZero, Uncovered;
    var nCell := Get2(d, g.hdr + 3);
    assert PointersFit(g, d);
    var inRange := CheckCells(g, xCellSize, d, nCell, heap);
    ghost var cells := CellSpans(g, xCellSize, d, nCell);
    if !inRange {
      return CellOutOfRange;
    }
    var room := AddBlocks(g, d, heap, nCell, free);
    if !room {
      return HeapOverrun;
    }
    AllSpansFit(g, d, nCell, cells, free);
    KeysPlus(cells, Span(0, 0), free);
    var multiple, fragments := PullSpans(heap, Top(g, d), g.usable, Frag(g, d), cells + free);
    report := if multiple then MultipleUse else if fragments then WrongFragments else Clean;
    CoveringIs(g, d, cells + free);
  }

  predicate PointersFit(g: Geometry, d: seq<byte>)
    requires Holds(g, d)
  {
    Gap(g, Get2(d, g.hdr + 3)) <= |d|
  }

  lemma CoveringIs(g: Geometry, d: seq<byte>, s: seq<Span>)
    requires Holds(g, d)
    ensures Covering(g, d, s) <==> Tidy(Top(g, d), s) && Frag(g, d) == |Uncovered(Top(g, d), g.usable, s)|
  {
  }

  lemma AllSpansFit(g: Geometry, d: seq<byte>, nCell: nat, cells: seq<Span>, free: seq<Span>)
    requires Holds(g, d) && Blocks(g, d, nCell, free) && AllInRange(g, d, cells)
    ensures AllFit(cells + free) && Inside(cells + free, 0, g.usable)
  {
    var s := cells + free;
    BlocksFit(g, d, nCell, free);
    CellsFitKeys(g, d, cells);
    forall i: nat | i < |s|
      ensures Fits(At(s, i)) && At(s, i).End() <= g.usable
    {
      assert At(s, i) == if i < |cells| then At(cells, i) else At(free, i - |cells|);
      if i >= |cells| {
        var j := i - |cells|;
        assert Fits(At(free, j));
      }
    }
  }

  // ---- the allocator and the check agree -----------------------------------------------------------

  /** A page kept by the allocator is accepted, with the free space it keeps count of, and the check finds
      nothing wrong with it. */
  lemma WellFormedIsClean(g: Geometry, f: seq<byte> -> nat, d: seq<byte>, nCell: nat, nFree: int, cells: seq<Span>,
                          free: seq<Span>)
    requires PageOk(g, f, d, nCell, nFree, cells, free) && |d| <= 0x1_0000
    ensures Accepted(g, d, |d|, free) && Gap(g, nCell) <= |d| && CellSpans(g, f, d, nCell) == cells
    ensures AllInRange(g, d, cells) && Covering(g, d, cells + free)
    ensures nFree == Frag(g, d) + Top(g, d) + Sum(free) - Gap(g, nCell)
  {
    BlocksOk(g, d, nCell, cells, free);
    assert 6 * nCell + 8 <= |d| by {
      Packing(cells, Top(g, d), g.usable);
      SumAtLeast(cells);
    }
    CellSpansAre(g, f, d, cells);
    forall i: nat | i < |cells|
      ensures CellInRange(g, d, At(cells, i))
    {
      assert 4 <= At(cells, i).size;
    }
    FragmentsAreUncoveredBytes(g, d, cells, free);
    AllApart(Top(g, d), g.usable, cells, free);
    assert Uncovered(Top(g, d), g.usable, cells + free) ==
      set x: int | Top(g, d) <= x < g.usable && !Covered(x, cells + free);
    var s := cells + free;
    forall i: nat | i < |s|
      ensures Top(g, d) <= At(s, i).start
    {
    }
  }

  lemma {:induction false} SumAtLeast(s: seq<Span>)
    requires forall i: nat :: i < |s| ==> 4 <= At(s, i).size
    ensures Sum(s) >= 4 * |s|
  {
    if s != [] {
      var n := |s| - 1;
      forall i: nat | i < n
        ensures 4 <= At(s[..n], i).size
      {
        assert 4 <= At(s, i).size;
      }
      SumAtLeast(s[..n]);
      assert 4 <= At(s, n).size;
    }
  }

  lemma BlocksOk(g: Geometry, d: seq<byte>, nCell: nat, cells: seq<Span>, free: seq<Span>)
    requires Space(g, d, cells, free) && Gap(g, nCell) <= Top(g, d)
    ensures Blocks(g, d, nCell, free)
  {
    hide Layout;
    ReadNode(g, d, cells, free, 0);
    forall k: nat | k < |free|
      ensures BlockAt(g, d, free, k)
    {
      ReadNode(g, d, cells, free, k);
    }
  }

  lemma CellSpansAre(g: Geometry, f: seq<byte> -> nat, d: seq<byte>, cells: seq<Span>)
    requires Local(f) && Indexed(g, f, d, cells) && Gap(g, |cells|) <= |d|
    ensures CellSpans(g, f, d, |cells|) == cells
  {
    var s := CellSpans(g, f, d, |cells|);
    forall i: nat | i < |cells|
      ensures s[i] == cells[i]
    {
      assert CellAt(g, f, d, cells, i) && At(s, i) == CellSpan(g, f, d, i);
      var z := cells[i];
      assert d[z.start..] == CellBytes(d, z) + d[z.End()..];
    }
  }

  /** The other way round: where the check finds nothing wrong, the space of the page is what the allocator
      needs exactly if no cell and no freeblock is smaller than four bytes, freeblocks lie past the start of
      the content area, and there are at most sixty fragment bytes: none of this is checked. */
  lemma CleanIsWellFormed(g: Geometry, d: seq<byte>, nCell: nat, cells: seq<Span>, free: seq<Span>)
    requires Holds(g, d) && Blocks(g, d, nCell, free) && AllInRange(g, d, cells) && Covering(g, d, cells + free)
    ensures Space(g, d, cells, free) <==>
      (&& g.CellOffset() <= Top(g, d) <= g.usable && Frag(g, d) <= 60
       && (forall i: nat :: i < |free| ==> 4 <= At(free, i).size && Top(g, d) < At(free, i).start)
       && (forall i: nat :: i < |cells| ==> 4 <= At(cells, i).size))
  {
    hide Covering, Blocks, AllInRange, Get2NotZero, Chain, Sum;
    if && g.CellOffset() <= Top(g, d) <= g.usable && Frag(g, d) <= 60
       && (forall i: nat :: i < |free| ==> 4 <= At(free, i).size && Top(g, d) < At(free, i).start)
       && (forall i: nat :: i < |cells| ==> 4 <= At(cells, i).size) {
      CleanSpace(g, d, nCell, cells, free);
    }
  }

  lemma CleanSpace(g: Geometry, d: seq<byte>, nCell: nat, cells: seq<Span>, free: seq<Span>)
    requires Holds(g, d) && Blocks(g, d, nCell, free) && AllInRange(g, d, cells) && Covering(g, d, cells + free)
    requires g.CellOffset() <= Top(g, d) <= g.usable && Frag(g, d) <= 60
    requires (forall i: nat :: i < |free| ==> 4 <= At(free, i).size && Top(g, d) < At(free, i).start)
    requires (forall i: nat :: i < |cells| ==> 4 <= At(cells, i).size)
    ensures Space(g, d, cells, free)
  {
    var s, top := cells + free, Top(g, d);
    AllSpansFit(g, d, nCell, cells, free);
    forall i: nat | i < |s|
      ensures At(s, i) == if i < |cells| then At(cells, i) else At(free, i - |cells|)
    {
    }
    UncoveredSize(s, top, g.usable) by {
      assert Inside(s, top, g.usable);
    }
    assert Uncovered(top, g.usable, s) == set x: int | top <= x < g.usable && !Covered(x, s);
    SumAppend(cells, free);
    CleanLayout(g, d, cells, free, nCell);
    CleanChain(g, d, nCell, free);
  }

  lemma CleanLayout(g: Geometry, d: seq<byte>, cells: seq<Span>, free: seq<Span>, nCell: nat)
    requires Holds(g, d) && Blocks(g, d, nCell, free) && AllInRange(g, d, cells) && Tidy(Top(g, d), cells + free)
    requires (forall i: nat :: i < |free| ==> 4 <= At(free, i).size && Top(g, d) < At(free, i).start)
    requires (forall i: nat :: i < |cells| ==> 4 <= At(cells, i).size)
    ensures Layout(Top(g, d), g.usable, cells, free)
  {
    var s := cells + free;
    forall i: nat | i < |s|
      ensures At(s, i) == if i < |cells| then At(cells, i) else At(free, i - |cells|)
    {
    }
    forall i: nat, j: nat | i < j < |cells|
      ensures Apart(At(cells, i), At(cells, j))
    {
      assert Apart(At(s, i), At(s, j));
    }
    forall i: nat, j: nat | i < |cells| && j < |free|
      ensures Apart(At(cells, i), At(free, j))
    {
      var k := |cells| + j;
      assert Apart(At(s, i), At(s, k));
    }
    forall i: nat | i < |cells|
      ensures Top(g, d) <= At(cells, i).start && At(cells, i).End() <= g.usable
    {
      assert CellInRange(g, d, At(cells, i));
    }
    BlocksFit(g, d, nCell, free);
    BlocksAscend(g, d, nCell, free);
  }

  lemma BlocksAscend(g: Geometry, d: seq<byte>, nCell: nat, free: seq<Span>)
    requires Holds(g, d) && Blocks(g, d, nCell, free)
    ensures Spans.Ascending(free)
  {
    forall i: nat, j: nat | i < j < |free|
      ensures At(free, i).End() + 4 <= At(free, j).start
    {
      BlockBefore(g, d, nCell, free, i, j);
    }
  }

  lemma {:induction false} BlockBefore(g: Geometry, d: seq<byte>, nCell: nat, free: seq<Span>, i: nat, j: nat)
    requires Holds(g, d) && Blocks(g, d, nCell, free) && i < j < |free|
    ensures free[i].End() + 4 <= free[j].start
    decreases j
  {
    assert BlockAt(g, d, free, j - 1);
    if i < j - 1 {
      BlockBefore(g, d, nCell, free, i, j - 1);
    }
  }

  lemma CleanChain(g: Geometry, d: seq<byte>, nCell: nat, free: seq<Span>)
    requires Holds(g, d) && Blocks(g, d, nCell, free) && g.CellOffset() <= Top(g, d)
    requires forall i: nat :: i < |free| ==> Top(g, d) < At(free, i).start
    ensures Chain(g, d, free)
  {
    forall k: nat | k < |free|
      ensures NodeAt(g, d, free, k)
    {
      assert BlockAt(g, d, free, k) && Top(g, d) < At(free, k).start;
    }
  }
}
