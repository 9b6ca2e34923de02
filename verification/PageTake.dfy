/** Taking space from the freeblock list: first fit, and what it does to the page's bookkeeping. */
module PageTake {
  import opened Bytes
  import opened Spans
  import opened PageLayout

  /** Index of the first freeblock of at least n bytes. */
  function FirstFit(free: seq<Span>, n: nat): (k: nat)
    ensures k <= |free|
    ensures forall i: nat | i < k :: At(free, i).size < n
    ensures k < |free| ==> n <= free[k].size
  {
    if free == [] || n <= free[0].size then 0
    else
      var k := FirstFit(free[1..], n) + 1;
      assert forall i: nat | 0 < i < k :: At(free, i) == At(free[1..], i - 1);
      k
  }

  lemma FirstFitIs(free: seq<Span>, n: nat, k: nat)
    requires k <= |free|
    requires forall i: nat | i < k :: At(free, i).size < n
    requires k < |free| ==> n <= free[k].size
    ensures FirstFit(free, n) == k
  {
    var f := FirstFit(free, n);
    assert f < k ==> At(free, f).size < n;
    assert k < f ==> At(free, k).size < n;
  }

  /** The last n bytes of the k-th freeblock. */
  function Slot(free: seq<Span>, k: nat, n: nat): Span
    requires k < |free| && n <= free[k].size
  {
    Span(free[k].start + (free[k].size - n), n)
  }

  /** The freeblocks once n bytes are taken from the end of the k-th. */
  function Taken(free: seq<Span>, k: nat, n: nat): seq<Span>
    requires k < |free| && n <= free[k].size
  {
    if free[k].size - n < 4 then Without(free, k) else free[k := Span(free[k].start, free[k].size - n)]
  }

  lemma TakenLayout(top: nat, hi: nat, used: seq<Span>, free: seq<Span>, k: nat, n: nat)
    requires Layout(top, hi, used, free)
    requires k < |free| && 4 <= n <= free[k].size
    ensures Layout(top, hi, used + [Slot(free, k, n)], Taken(free, k, n))
  {
    var z, u, t := Slot(free, k, n), used + [Slot(free, k, n)], Taken(free, k, n);
    assert At(free, k) == free[k];
    forall i: nat | i < |u|
      ensures At(u, i) == if i < |used| then At(used, i) else z
    {}
    forall j: nat | j < |t|
      ensures var m := if |t| < |free| && k <= j then j + 1 else j;
        At(t, j).start == At(free, m).start && 4 <= At(t, j).size
        && At(t, j).End() <= if m == k then z.start else At(free, m).End()
    {}
    forall i: nat, j: nat | i < j < |u| ensures Apart(At(u, i), At(u, j)) {
      if j == |used| { assert Apart(At(used, i), At(free, k)); }
    }
    forall i: nat, j: nat | i < j < |t| ensures At(t, i).End() + 4 <= At(t, j).start {
      var mi := if |t| < |free| && k <= i then i + 1 else i;
      var mj := if |t| < |free| && k <= j then j + 1 else j;
      assert At(free, mi).End() + 4 <= At(free, mj).start;
    }
    forall i: nat, j: nat | i < |u| && j < |t| ensures Apart(At(u, i), At(t, j)) {
      var m := if |t| < |free| && k <= j then j + 1 else j;
      if i < |used| {
        assert Apart(At(used, i), At(free, m));
      } else if m != k {
        assert At(free, m).End() + 4 <= At(free, k).start || At(free, k).End() + 4 <= At(free, m).start;
      }
    }
  }

  lemma TakenSum(free: seq<Span>, k: nat, n: nat)
    requires k < |free| && n <= free[k].size
    ensures Sum(Taken(free, k, n)) == Sum(free) - n - (if free[k].size - n < 4 then free[k].size - n else 0)
  {
    SumSplit(free, k);
    SumUpdate(free, k, Span(free[k].start, free[k].size - n));
  }

  lemma ChainShrink(g: Geometry, d: seq<byte>, free: seq<Span>, k: nat, x: nat)
    requires Holds(g, d) && Chain(g, d, free) && Ascending(free)
    requires Within(free, g.CellOffset(), g.usable)
    requires k < |free| && x <= free[k].size < 0x1_0000 && free[k].start + 4 <= |d|
    ensures Chain(g, Put2(d, free[k].start + 2, x), free[k := Span(free[k].start, x)])
  {
    var d', t := Put2(d, free[k].start + 2, x), free[k := Span(free[k].start, x)];
    assert NodeAt(g, d, free, k);
    assert 4 <= At(free, k).size;
    forall j: nat | j < |t| ensures NodeAt(g, d', t, j) {
      assert NodeAt(g, d, free, j);
      if j != k {
        assert 4 <= At(free, j).size;
        assert At(free, j).End() + 4 <= At(free, k).start || At(free, k).End() + 4 <= At(free, j).start;
        NodeKept(g, d, free, j, d', t, j);
      }
    }
  }

  lemma ChainUnlink(g: Geometry, d: seq<byte>, free: seq<Span>, k: nat)
    requires Holds(g, d) && Chain(g, d, free) && Ascending(free)
    requires Within(free, g.CellOffset(), g.usable)
    requires k < |free| && LinkAt(g, free, k) + 1 < |d| && Link(free, k + 1) < 0x1_0000
    ensures Chain(g, Put2(d, LinkAt(g, free, k), Link(free, k + 1)), Without(free, k))
  {
    var d', t := Put2(d, LinkAt(g, free, k), Link(free, k + 1)), Without(free, k);
    forall j: nat | j < |t| ensures NodeAt(g, d', t, j) {
      var i := if j < k then j else j + 1;
      assert At(t, j) == free[i] && 4 <= At(free, i).size;
      assert NodeAt(g, d, free, i);
      if k == 0 || i != k - 1 {
        if k > 0 {
          assert 4 <= At(free, k - 1).size;
          assert At(free, i).End() + 4 <= At(free, k - 1).start || At(free, k - 1).End() + 4 <= At(free, i).start;
        }
        NodeKept(g, d, free, i, d', t, j);
      }
    }
  }

  lemma ChainFrag(g: Geometry, d: seq<byte>, free: seq<Span>, v: byte)
    requires Holds(g, d) && Chain(g, d, free)
    ensures Chain(g, d[g.hdr + 7 := v], free)
    ensures Top(g, d[g.hdr + 7 := v]) == Top(g, d)
  {
    var d' := d[g.hdr + 7 := v];
    forall j: nat | j < |free| ensures NodeAt(g, d', free, j) {
      assert NodeAt(g, d, free, j);
      NodeKept(g, d, free, j, d', free, j);
    }
  }

  /** Cutting n bytes off the end of a freeblock that keeps at least four. */
  lemma ShrinkSound(g: Geometry, d: seq<byte>, used: seq<Span>, free: seq<Span>, k: nat, n: nat, d': seq<byte>)
    requires Space(g, d, used, free)
    requires k < |free| && 4 <= n && n + 4 <= free[k].size
    requires free[k].start + 4 <= |d| && d' == Put2(d, free[k].start + 2, free[k].size - n)
    ensures Space(g, d', used + [Slot(free, k, n)], Taken(free, k, n))
    ensures Frame(g, d, d', used)
    ensures Top(g, d') == Top(g, d)
  {
    ReadNode(g, d, used, free, k);
    ChainShrink(g, d, free, k, free[k].size - n);
    TakenLayout(Top(g, d), g.usable, used, free, k, n);
    TakenSum(free, k, n);
    SumSnoc(used, Slot(free, k, n));
    FrameOfFreeblock(g, d, d', used, free, k);
  }

  lemma SpaceChain(g: Geometry, d: seq<byte>, used: seq<Span>, free: seq<Span>)
    requires Space(g, d, used, free)
    ensures Chain(g, d, free) && Ascending(free) && Within(free, g.CellOffset(), g.usable)
  {
  }

  lemma TakenAll(free: seq<Span>, k: nat, n: nat)
    requires k < |free| && n <= free[k].size < n + 4
    ensures Taken(free, k, n) == Without(free, k)
  {
  }

  /** The content area begins where it did. */
  lemma TopUnlinked(g: Geometry, d: seq<byte>, free: seq<Span>, k: nat, v: byte)
    requires Holds(g, d) && k < |free| && LinkAt(g, free, k) + 1 < |d|
    requires (k == 0 || g.CellOffset() <= free[k - 1].start)
    ensures var d1 := Put2(d, LinkAt(g, free, k), Link(free, k + 1));
      && Holds(g, d1) && Top(g, d1) == Top(g, d) && Top(g, d1[g.hdr + 7 := v]) == Top(g, d)
      && forall q: nat | q < |d| && q != LinkAt(g, free, k) && q != LinkAt(g, free, k) + 1 && q != g.hdr + 7 ::
           d1[g.hdr + 7 := v][q] == d[q]
  {
  }

  /** Taking a whole freeblock: what is left over, at most three bytes, becomes fragments. */
  lemma UnlinkSound(g: Geometry, d: seq<byte>, used: seq<Span>, free: seq<Span>, k: nat, n: nat, d': seq<byte>)
    requires Space(g, d, used, free)
    requires k < |free| && 4 <= n <= free[k].size < n + 4
    requires Frag(g, d) <= 57 && LinkAt(g, free, k) + 1 < |d|
    requires d' == Put2(d, LinkAt(g, free, k), Link(free, k + 1))[g.hdr + 7 := Frag(g, d) + free[k].size - n]
    ensures Space(g, d', used + [Slot(free, k, n)], Taken(free, k, n))
    ensures Frame(g, d, d', used)
    ensures Top(g, d') == Top(g, d)
  {
    hide Put2, Taken, Sum, Get2NotZero, Chain, Layout;
    SpaceParts(g, d, used, free);
    SpaceChain(g, d, used, free);
    var d1 := Put2(d, LinkAt(g, free, k), Link(free, k + 1));
    ReadNode(g, d, used, free, k);
    ChainUnlink(g, d, free, k);
    ChainFrag(g, d1, Without(free, k), Frag(g, d) + free[k].size - n);
    if k > 0 {
      ReadNode(g, d, used, free, k - 1);
    }
    TopUnlinked(g, d, free, k, Frag(g, d) + free[k].size - n);
    TakenAll(free, k, n);
    TakenLayout(Top(g, d), g.usable, used, free, k, n);
    TakenSum(free, k, n);
    SumSnoc(used, Slot(free, k, n));
    if k > 0 {
      FrameOfFreeblock(g, d, d', used, free, k - 1);
    } else {
      FrameOfHeader(g, d, d', used);
    }
  }
}
