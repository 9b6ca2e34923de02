/** The free-space structure of one btree page: what its header, freeblock chain and
    fragment counter must say about the ranges that are in use. */
module PageLayout {
  import opened Bytes
  import opened Spans

  /** The constants of a page: offset of the page header (100 on page 1), leaf or interior,
      and the number of usable bytes. */
  datatype Geometry = Geometry(hdr: nat, leaf: bool, usable: nat) {
    predicate Valid() {
      (hdr == 0 || hdr == 100) && 480 <= usable <= 0x1_0000
    }

    function CellOffset(): nat {
      hdr + if leaf then 8 else 12
    }
  }

  predicate Holds(g: Geometry, d: seq<byte>) {
    g.Valid() && g.usable <= |d|
  }

  /** Start of the cell content area; a stored zero means 65536. */
  function Top(g: Geometry, d: seq<byte>): nat
    requires Holds(g, d)
  {
    Get2NotZero(d, g.hdr + 5)
  }

  function Frag(g: Geometry, d: seq<byte>): nat
    requires Holds(g, d)
  {
    d[g.hdr + 7]
  }

  /** Address of the k-th freeblock, or the zero that ends the chain. */
  function Link(free: seq<Span>, k: nat): nat {
    if k < |free| then free[k].start else 0
  }

  /** Address of the two bytes that point at the k-th freeblock. */
  function LinkAt(g: Geometry, free: seq<Span>, k: nat): nat
    requires k <= |free|
  {
    if k == 0 then g.hdr + 1 else free[k - 1].start
  }

  ghost predicate Layout(top: nat, hi: nat, used: seq<Span>, free: seq<Span>) {
    && Within(used, top, hi)
    && Disjoint(used)
    && Within(free, top + 1, hi)
    && Ascending(free)
    && CrossApart(used, free)
  }

  /** The header of the k-th freeblock: where the next one is, and how many bytes this one has. */
  ghost predicate NodeAt(g: Geometry, d: seq<byte>, free: seq<Span>, k: nat) {
    && k < |free|
    && g.CellOffset() <= free[k].start
    && free[k].start + 4 <= |d|
    && Get2(d, free[k].start) == Link(free, k + 1)
    && Get2(d, free[k].start + 2) == free[k].size
  }

  /** The chain stored in the page is exactly the list of freeblocks. */
  ghost predicate Chain(g: Geometry, d: seq<byte>, free: seq<Span>)
    requires Holds(g, d)
  {
    && Get2(d, g.hdr + 1) == Link(free, 0)
    && forall k: nat | k < |free| :: NodeAt(g, d, free, k)
  }

  /** The page's bookkeeping is right for a given set of ranges in use. */
  ghost predicate Space(g: Geometry, d: seq<byte>, used: seq<Span>, free: seq<Span>) {
    && Holds(g, d)
    && g.CellOffset() <= Top(g, d) <= g.usable
    && Chain(g, d, free)
    && Layout(Top(g, d), g.usable, used, free)
    && Frag(g, d) + Sum(used) + Sum(free) == g.usable - Top(g, d)
    && Frag(g, d) <= 60
  }

  predicate Kept(d: seq<byte>, d': seq<byte>, q: nat)
    requires q < |d| == |d'|
  {
    d'[q] == d[q]
  }

  /** The bytes that allocation must not touch: everything before the content area except the
      three fields of the header it owns, the ranges in use, and what lies past the usable bytes. */
  ghost predicate Frame(g: Geometry, d: seq<byte>, d': seq<byte>, used: seq<Span>)
    requires Holds(g, d)
  {
    && |d'| == |d|
    && (forall q: nat | q < |d|
          && (q <= g.hdr || g.hdr + 3 <= q < g.hdr + 5 || g.hdr + 8 <= q < Top(g, d) || g.usable <= q) ::
          Kept(d, d', q))
    && (forall i: nat, q: nat | i < |used| && q < |d| && At(used, i).Has(q) :: Kept(d, d', q))
  }

  /** The fragment counter is the number of bytes of the content area that belong to nothing. */
  lemma FragmentsAreUncoveredBytes(g: Geometry, d: seq<byte>, used: seq<Span>, free: seq<Span>)
    requires Space(g, d, used, free)
    ensures Frag(g, d) == |set x: int | Top(g, d) <= x < g.usable && !Covered(x, used + free)|
  {
    AllApart(Top(g, d), g.usable, used, free);
    SumAppend(used, free);
    UncoveredSize(used + free, Top(g, d), g.usable);
  }

  lemma SpaceParts(g: Geometry, d: seq<byte>, used: seq<Span>, free: seq<Span>)
    requires Space(g, d, used, free)
    ensures Holds(g, d) && g.CellOffset() <= Top(g, d) <= g.usable <= 0x1_0000
    ensures Layout(Top(g, d), g.usable, used, free) && Frag(g, d) <= 60
  {
  }

  /** What a walk of the chain reads at the k-th freeblock. */
  lemma ReadNode(g: Geometry, d: seq<byte>, used: seq<Span>, free: seq<Span>, k: nat)
    requires Space(g, d, used, free)
    ensures g.hdr + 8 < g.usable <= |d| && g.hdr + 8 <= g.CellOffset() && g.usable <= 0x1_0000
    ensures Get2(d, g.hdr + 1) == Link(free, 0)
    ensures k < |free| ==>
      && g.CellOffset() <= Top(g, d) < free[k].start && 4 <= free[k].size && free[k].End() <= g.usable
      && Get2(d, free[k].start) == Link(free, k + 1)
      && Get2(d, free[k].start + 2) == free[k].size
      && (k + 1 < |free| ==> free[k].End() + 4 <= free[k + 1].start)
      && Link(free, k + 1) < 0x1_0000
  {
    if k < |free| {
      assert NodeAt(g, d, free, k);
      assert At(free, k) == free[k];
      if k + 1 < |free| {
        assert At(free, k + 1) == free[k + 1];
      }
    }
  }

  /** The pointer to a freeblock lies before it, in the page header or in the freeblock before. */
  lemma ReadLink(g: Geometry, d: seq<byte>, used: seq<Span>, free: seq<Span>, k: nat)
    requires Space(g, d, used, free) && k <= |free|
    ensures g.hdr < LinkAt(g, free, k) && LinkAt(g, free, k) + 1 < g.usable
    ensures k > 0 ==> g.CellOffset() <= LinkAt(g, free, k)
    ensures Get2(d, LinkAt(g, free, k)) == Link(free, k)
    ensures k < |free| ==> LinkAt(g, free, k) + 4 <= free[k].start
  {
    ReadNode(g, d, used, free, k);
    if k > 0 {
      ReadNode(g, d, used, free, k - 1);
    }
  }

  lemma FrameSame(g: Geometry, d: seq<byte>, used: seq<Span>)
    requires Holds(g, d)
    ensures Frame(g, d, d, used)
  {
  }

  lemma AllApart(top: nat, hi: nat, used: seq<Span>, free: seq<Span>)
    requires Within(used, top, hi) && Disjoint(used) && Within(free, top, hi) && Ascending(free)
    requires CrossApart(used, free)
    ensures Within(used + free, top, hi) && Disjoint(used + free)
  {
    var all := used + free;
    forall i: nat | i < |all|
      ensures At(all, i) == if i < |used| then At(used, i) else At(free, i - |used|)
    {}
    forall i: nat, j: nat | i < j < |all|
      ensures Apart(At(all, i), At(all, j))
    {
      if j < |used| {
        assert Apart(At(used, i), At(used, j));
      } else if |used| <= i {
        assert At(free, i - |used|).End() + 4 <= At(free, j - |used|).start;
      } else {
        assert Apart(At(used, i), At(free, j - |used|));
      }
    }
  }

  lemma NodeKeptQ(g: Geometry, d: seq<byte>, free: seq<Span>, i: nat, d': seq<byte>, free': seq<Span>, j: nat)
    requires NodeAt(g, d, free, i)
    requires j < |free'| && free'[j] == free[i] && Link(free', j + 1) == Link(free, i + 1)
    requires |d'| == |d|
    requires var p := free[i].start; Kept(d, d', p) && Kept(d, d', p + 1) && Kept(d, d', p + 2) && Kept(d, d', p + 3)
    ensures NodeAt(g, d', free', j)
  {
  }

  /** A freeblock header survives any change that leaves its four bytes and its successor alone. */
  lemma NodeKept(g: Geometry, d: seq<byte>, free: seq<Span>, i: nat, d': seq<byte>, free': seq<Span>, j: nat)
    requires NodeAt(g, d, free, i)
    requires j < |free'| && free'[j] == free[i] && Link(free', j + 1) == Link(free, i + 1)
    requires |d'| == |d| && forall q | free[i].start <= q < free[i].start + 4 :: d'[q] == d[q]
    ensures NodeAt(g, d', free', j)
  {
  }

  /** A write inside the header of a freeblock is invisible to everything in use. */
  lemma FrameOfFreeblock(g: Geometry, d: seq<byte>, d': seq<byte>, used: seq<Span>, free: seq<Span>, k: nat)
    requires Space(g, d, used, free) && k < |free|
    requires |d'| == |d|
    requires forall q | 0 <= q < |d| && q != g.hdr + 7 && !(free[k].start <= q < free[k].start + 4) :: d'[q] == d[q]
    ensures Frame(g, d, d', used)
  {
    assert 4 <= At(free, k).size;
    forall i: nat, q: nat | i < |used| && q < |d| && At(used, i).Has(q)
      ensures Kept(d, d', q)
    {
      assert Apart(At(used, i), At(free, k));
    }
  }

  lemma FrameOfHeader(g: Geometry, d: seq<byte>, d': seq<byte>, used: seq<Span>)
    requires Holds(g, d) && g.CellOffset() <= Top(g, d) && Within(used, Top(g, d), g.usable)
    requires |d'| == |d|
    requires forall q | 0 <= q < |d| && q != g.hdr + 1 && q != g.hdr + 2 && !(g.hdr + 5 <= q < g.hdr + 8) ::
      d'[q] == d[q]
    ensures Frame(g, d, d', used)
  {
  }
}
