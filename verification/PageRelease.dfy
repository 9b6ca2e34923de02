/** Giving space back to a page: coalescing with the freeblocks on either side. */
module PageRelease {
  import opened Bytes
  import opened Spans
  import opened PageLayout

  /** How releasing the range [start, end) changes a freeblock list: the blocks from index a up
      to b give way to one block that runs from lo to hi. */
  datatype Merge = Merge(a: nat, b: nat, lo: nat, hi: nat)

  /** Number of freeblocks that start before p. */
  ghost predicate Place(free: seq<Span>, p: nat, k: nat) {
    && k <= |free|
    && (forall i: nat | i < k :: At(free, i).start < p)
    && (forall i: nat | k <= i < |free| :: p < At(free, i).start)
  }

  /** Blocks at most three bytes away are absorbed. */
  ghost function MergeOf(free: seq<Span>, k: nat, z: Span): (m: Merge)
    requires k <= |free|
    ensures m.a <= k <= m.b <= |free|
  {
    var next := k < |free| && z.End() + 3 >= free[k].start;
    var prev := k > 0 && free[k - 1].End() + 3 >= z.start;
    Merge(if prev then k - 1 else k,
          if next then k + 1 else k,
          if prev then free[k - 1].start else z.start,
          if next then free[k].End() else z.End())
  }

  ghost function Merged(free: seq<Span>, m: Merge): (r: seq<Span>)
    requires m.a <= m.b <= |free| && m.lo <= m.hi
    ensures |r| == m.a + 1 + (|free| - m.b)
    ensures forall i: nat | i < |r| ::
      At(r, i) == if i < m.a then free[i] else if i == m.a then Span(m.lo, m.hi - m.lo) else free[i - m.a - 1 + m.b]
  {
    var r := free[..m.a] + [Span(m.lo, m.hi - m.lo)] + free[m.b..];
    assert forall i: nat | i < |r| ::
      r[i] == if i < m.a then free[i] else if i == m.a then Span(m.lo, m.hi - m.lo) else free[i - m.a - 1 + m.b];
    assert forall i: nat | i < |r| :: At(r, i) == r[i];
    r
  }

  lemma PlaceFound(top: nat, hi: nat, used: seq<Span>, free: seq<Span>, j: nat, k: nat)
    requires Layout(top, hi, used, free) && j < |used| && k <= |free|
    requires forall i: nat | i < k :: At(free, i).start < used[j].start
    requires k < |free| ==> used[j].start <= free[k].start
    ensures Place(free, used[j].start, k)
  {
    if k < |free| {
      assert Apart(At(used, j), At(free, k));
      assert 4 <= At(used, j).size && 4 <= At(free, k).size;
    }
    forall i: nat | k <= i < |free| ensures used[j].start < At(free, i).start {
      if k < i { assert At(free, k).End() + 4 <= At(free, i).start; }
    }
  }

  lemma PlaceLe(free: seq<Span>, p: nat, k: nat)
    requires Place(free, p, k)
    ensures k <= |free|
  {
  }

  /** The neighbours of a range in use, seen from the freeblock list. */
  lemma Neighbours(top: nat, hi: nat, used: seq<Span>, free: seq<Span>, j: nat, k: nat)
    requires Layout(top, hi, used, free) && j < |used| && Place(free, used[j].start, k)
    ensures top <= used[j].start && 4 <= used[j].size && used[j].End() <= hi
    ensures k < |free| ==> used[j].End() <= free[k].start && 4 <= free[k].size && free[k].End() <= hi
    ensures k > 0 ==> top < free[k - 1].start && 4 <= free[k - 1].size && free[k - 1].End() <= used[j].start
    ensures k < |free| && k > 0 ==> free[k - 1].End() + 4 <= free[k].start
    ensures used[j].start == top ==> k == 0
  {
    assert At(used, j) == used[j];
    if k < |free| {
      assert Apart(At(used, j), At(free, k));
      assert used[j].start < At(free, k).start;
    }
    if k > 0 {
      assert Apart(At(used, j), At(free, k - 1));
      assert At(free, k - 1).start < used[j].start;
      if k < |free| {
        assert At(free, k - 1).End() + 4 <= At(free, k).start;
      }
    }
  }

  lemma MergedFree(top: nat, hi: nat, used: seq<Span>, free: seq<Span>, j: nat, k: nat)
    requires Layout(top, hi, used, free) && j < |used| && Place(free, used[j].start, k)
    ensures var m := MergeOf(free, k, used[j]);
      && m.lo + 4 <= m.hi
      && Ascending(Merged(free, m))
      && Within(Merged(free, m), if m.lo == top then top else top + 1, hi)
  {
    hide Merged, Place, Within, Ascending, Disjoint, CrossApart;
    Neighbours(top, hi, used, free, j, k);
    MergedWithin(top, hi, used, free, j, k);
    MergedAscends(top, hi, used, free, j, k);
  }

  lemma MergedWithin(top: nat, hi: nat, used: seq<Span>, free: seq<Span>, j: nat, k: nat)
    requires Layout(top, hi, used, free) && j < |used| && Place(free, used[j].start, k)
    ensures var m := MergeOf(free, k, used[j]);
      m.lo + 4 <= m.hi && Within(Merged(free, m), if m.lo == top then top else top + 1, hi)
  {
    hide Place, Ascending, Disjoint, CrossApart;
    PlaceLe(free, used[j].start, k);
    var m := MergeOf(free, k, used[j]);
    Neighbours(top, hi, used, free, j, k);
    var t := Merged(free, m);
    forall i: nat | i < |t|
      ensures (if m.lo == top then top else top + 1) <= At(t, i).start && 4 <= At(t, i).size && At(t, i).End() <= hi
    {
      if i < m.a {
        assert 4 <= At(free, i).size;
      } else if i > m.a {
        assert 4 <= At(free, i - m.a - 1 + m.b).size;
      }
    }
  }

  lemma MergedAscends(top: nat, hi: nat, used: seq<Span>, free: seq<Span>, j: nat, k: nat)
    requires Layout(top, hi, used, free) && j < |used| && Place(free, used[j].start, k)
    ensures var m := MergeOf(free, k, used[j]); m.lo <= m.hi && Ascending(Merged(free, m))
  {
    hide Place, Ascending, Disjoint, CrossApart, Within, Merged;
    PlaceLe(free, used[j].start, k);
    var m := MergeOf(free, k, used[j]);
    Neighbours(top, hi, used, free, j, k);
    var t := Merged(free, m);
    forall x: nat, y: nat | x < y < |t|
      ensures At(t, x).End() + 4 <= At(t, y).start
    {
      MergedPair(top, hi, used, free, j, k, x, y);
    }
    AscendingIs(t);
  }

  lemma AscendingIs(t: seq<Span>)
    requires forall x: nat, y: nat | x < y < |t| :: At(t, x).End() + 4 <= At(t, y).start
    ensures Ascending(t)
  {
  }

  lemma MergedAt(free: seq<Span>, m: Merge, i: nat)
    requires m.a <= m.b <= |free| && m.lo <= m.hi && i < |Merged(free, m)|
    ensures At(Merged(free, m), i) ==
      if i < m.a then free[i] else if i == m.a then Span(m.lo, m.hi - m.lo) else free[i - m.a - 1 + m.b]
  {
  }

  lemma MergedPair(top: nat, hi: nat, used: seq<Span>, free: seq<Span>, j: nat, k: nat, x: nat, y: nat)
    requires Layout(top, hi, used, free) && j < |used| && Place(free, used[j].start, k)
    requires var m := MergeOf(free, k, used[j]); m.lo <= m.hi && x < y < |Merged(free, m)|
    ensures var t := Merged(free, MergeOf(free, k, used[j])); At(t, x).End() + 4 <= At(t, y).start
  {
    hide Place, Layout, Merged;
    PlaceLe(free, used[j].start, k);
    var m := MergeOf(free, k, used[j]);
    MergedAt(free, m, x);
    MergedAt(free, m, y);
    if x != m.a && y != m.a {
      var fx := if x < m.a then x else x - m.a - 1 + m.b;
      var fy := if y < m.a then y else y - m.a - 1 + m.b;
      FreeOrder(top, hi, used, free, fx, fy);
    } else if x == m.a {
      MergedBefore(top, hi, used, free, j, k, y - m.a - 1 + m.b);
    } else {
      MergedAfter(top, hi, used, free, j, k, x);
    }
  }

  lemma MergedBefore(top: nat, hi: nat, used: seq<Span>, free: seq<Span>, j: nat, k: nat, f: nat)
    requires Layout(top, hi, used, free) && j < |used| && Place(free, used[j].start, k)
    requires MergeOf(free, k, used[j]).b <= f < |free|
    ensures MergeOf(free, k, used[j]).hi + 4 <= free[f].start
  {
    hide Place, Layout;
    PlaceLe(free, used[j].start, k);
    Neighbours(top, hi, used, free, j, k);
    if k < f {
      FreeOrder(top, hi, used, free, k, f);
    }
  }

  lemma MergedAfter(top: nat, hi: nat, used: seq<Span>, free: seq<Span>, j: nat, k: nat, f: nat)
    requires Layout(top, hi, used, free) && j < |used| && Place(free, used[j].start, k)
    requires f < MergeOf(free, k, used[j]).a
    ensures free[f].End() + 4 <= MergeOf(free, k, used[j]).lo
  {
    hide Place, Layout;
    PlaceLe(free, used[j].start, k);
    Neighbours(top, hi, used, free, j, k);
    if f < k - 1 {
      FreeOrder(top, hi, used, free, f, k - 1);
    }
  }

  lemma FreeOrder(top: nat, hi: nat, used: seq<Span>, free: seq<Span>, x: nat, y: nat)
    requires Layout(top, hi, used, free) && x < y < |free|
    ensures free[x].End() + 4 <= free[y].start
  {
    assert At(free, x).End() + 4 <= At(free, y).start;
  }

  lemma MergedCross(top: nat, hi: nat, used: seq<Span>, free: seq<Span>, j: nat, k: nat)
    requires Layout(top, hi, used, free) && j < |used| && Place(free, used[j].start, k)
    ensures MergeOf(free, k, used[j]).lo <= MergeOf(free, k, used[j]).hi
    ensures CrossApart(Without(used, j), Merged(free, MergeOf(free, k, used[j])))
  {
    hide Place, Ascending, Merged;
    PlaceLe(free, used[j].start, k);
    var m := MergeOf(free, k, used[j]);
    Neighbours(top, hi, used, free, j, k);
    var u, t := Without(used, j), Merged(free, m);
    forall x: nat, y: nat | x < |u| && y < |t|
      ensures Apart(At(u, x), At(t, y))
    {
      var ux := if x < j then x else x + 1;
      MergedAt(free, m, y);
      assert At(u, x) == At(used, ux) && 4 <= At(used, ux).size;
      if y != m.a {
        assert Apart(At(used, ux), At(free, if y < m.a then y else y - m.a - 1 + m.b));
      } else {
        assert Apart(At(used, ux), At(used, j)) || Apart(At(used, j), At(used, ux)) by {
          if ux < j { assert Apart(At(used, ux), At(used, j)); } else { assert Apart(At(used, j), At(used, ux)); }
        }
        if k < |free| { assert Apart(At(used, ux), At(free, k)); }
        if k > 0 { assert Apart(At(used, ux), At(free, k - 1)); }
      }
    }
  }

  lemma WithoutLayout(used: seq<Span>, j: nat, lo: nat, hi: nat)
    requires Within(used, lo, hi) && Disjoint(used) && j < |used|
    ensures Within(Without(used, j), lo, hi) && Disjoint(Without(used, j))
  {
    var u := Without(used, j);
    forall x: nat | x < |u| ensures At(u, x) == At(used, if x < j then x else x + 1) {}
    forall x: nat, y: nat | x < y < |u| ensures Apart(At(u, x), At(u, y)) {
      assert Apart(At(used, if x < j then x else x + 1), At(used, if y < j then y else y + 1));
    }
  }

  /** The bytes that stop being fragments when a range is released next to freeblocks. */
  ghost function Regained(free: seq<Span>, k: nat, z: Span): int
    requires k <= |free|
  {
    (if k < |free| && z.End() + 3 >= free[k].start then free[k].start - z.End() else 0)
    + if k > 0 && free[k - 1].End() + 3 >= z.start then z.start - free[k - 1].End() else 0
  }

  lemma MergedSum(free: seq<Span>, k: nat, z: Span)
    requires k <= |free| && MergeOf(free, k, z).lo <= MergeOf(free, k, z).hi
    ensures Sum(Merged(free, MergeOf(free, k, z))) == Sum(free) + z.size + Regained(free, k, z)
  {
    hide Sum, Merged, MergeOf, Regained, Absorbed;
    var m := MergeOf(free, k, z);
    var mid := Span(m.lo, m.hi - m.lo);
    MergedSize(free, k, z);
    MergedIs(free, m);
    SumSplice(free, m.a, m.b, mid);
    AbsorbedSum(free, k, z);
  }

  lemma MergedSize(free: seq<Span>, k: nat, z: Span)
    requires k <= |free| && MergeOf(free, k, z).lo <= MergeOf(free, k, z).hi
    ensures var m := MergeOf(free, k, z); m.hi - m.lo == z.size + Regained(free, k, z) + Absorbed(free, m)
  {
  }

  lemma AbsorbedSum(free: seq<Span>, k: nat, z: Span)
    requires k <= |free|
    ensures var m := MergeOf(free, k, z); Sum(free[m.a..m.b]) == Absorbed(free, m)
  {
    hide Sum;
    var m := MergeOf(free, k, z);
    SumFew(free, m.a, m.b);
  }

  /** A released range that becomes, or joins, a freeblock. */
  ghost predicate WroteBlock(g: Geometry, d: seq<byte>, d': seq<byte>, free: seq<Span>, m: Merge, frag: int)
    requires m.a <= m.b <= |free| && Holds(g, d)
  {
    && m.lo + 4 <= m.hi <= |d'| == |d|
    && LinkAt(g, free, m.a) + 1 < |d|
    && Get2(d', LinkAt(g, free, m.a)) == m.lo
    && Get2(d', m.lo) == Link(free, m.b)
    && Get2(d', m.lo + 2) == m.hi - m.lo
    && d'[g.hdr + 7] == frag
    && forall q: nat | q < |d| && q != g.hdr + 7 && q != LinkAt(g, free, m.a) && q != LinkAt(g, free, m.a) + 1
           && !(m.lo <= q < m.lo + 4) :: Kept(d, d', q)
  }

  lemma MergedChain(g: Geometry, d: seq<byte>, used: seq<Span>, free: seq<Span>, j: nat, k: nat, d': seq<byte>,
                    frag: int)
    requires Space(g, d, used, free) && j < |used| && Place(free, used[j].start, k)
    requires WroteBlock(g, d, d', free, MergeOf(free, k, used[j]), frag)
    ensures Top(g, d') == Top(g, d)
    ensures Chain(g, d', Merged(free, MergeOf(free, k, used[j])))
  {
    hide Place, WroteBlock, Space, Layout;
    PlaceLe(free, used[j].start, k);
    SpaceParts(g, d, used, free);
    Neighbours(Top(g, d), g.usable, used, free, j, k);
    var m := MergeOf(free, k, used[j]);
    var t := Merged(free, m);
    FirstLink(g, d, used, free, j, k, d', frag);
    forall i: nat | i < |t| ensures NodeAt(g, d', t, i) {
      MergedNode(g, d, used, free, j, k, d', frag, i);
    }
  }

  /** The header leads to the first block. */
  lemma FirstLink(g: Geometry, d: seq<byte>, used: seq<Span>, free: seq<Span>, j: nat, k: nat, d': seq<byte>, frag: int)
    requires Space(g, d, used, free) && j < |used| && Place(free, used[j].start, k)
    requires WroteBlock(g, d, d', free, MergeOf(free, k, used[j]), frag)
    ensures Holds(g, d') && Top(g, d') == Top(g, d)
    ensures Get2(d', g.hdr + 1) == Link(Merged(free, MergeOf(free, k, used[j])), 0)
  {
    hide Place, Space, Layout, Merged;
    PlaceLe(free, used[j].start, k);
    SpaceParts(g, d, used, free);
    var m := MergeOf(free, k, used[j]);
    var t := Merged(free, m);
    Neighbours(Top(g, d), g.usable, used, free, j, k);
    if m.a > 0 {
      ReadNode(g, d, used, free, m.a - 1);
      if m.a < k {
        ReadNode(g, d, used, free, k - 1);
        FreeOrder(Top(g, d), g.usable, used, free, m.a - 1, k - 1);
      }
      ReadNode(g, d, used, free, 0);
      assert Kept(d, d', g.hdr + 1) && Kept(d, d', g.hdr + 2);
    }
    MergedAt(free, m, 0);
    assert Kept(d, d', g.hdr + 5) && Kept(d, d', g.hdr + 6);
  }

  lemma MergedNode(g: Geometry, d: seq<byte>, used: seq<Span>, free: seq<Span>, j: nat, k: nat, d': seq<byte>,
                   frag: int, i: nat)
    requires Space(g, d, used, free) && j < |used| && Place(free, used[j].start, k)
    requires WroteBlock(g, d, d', free, MergeOf(free, k, used[j]), frag)
    requires i < |Merged(free, MergeOf(free, k, used[j]))|
    ensures NodeAt(g, d', Merged(free, MergeOf(free, k, used[j])), i)
  {
    var m := MergeOf(free, k, used[j]);
    if i == m.a {
      NewNode(g, d, used, free, j, k, d', frag);
    } else if i == m.a - 1 {
      PriorNode(g, d, used, free, j, k, d', frag);
    } else {
      OldNode(g, d, used, free, j, k, d', frag, i);
    }
  }

  lemma NewNode(g: Geometry, d: seq<byte>, used: seq<Span>, free: seq<Span>, j: nat, k: nat, d': seq<byte>, frag: int)
    requires Space(g, d, used, free) && j < |used| && Place(free, used[j].start, k)
    requires WroteBlock(g, d, d', free, MergeOf(free, k, used[j]), frag)
    ensures var m := MergeOf(free, k, used[j]); NodeAt(g, d', Merged(free, m), m.a)
  {
    var m := MergeOf(free, k, used[j]);
    var t := Merged(free, m);
    Neighbours(Top(g, d), g.usable, used, free, j, k);
    assert At(t, m.a) == Span(m.lo, m.hi - m.lo);
    assert Link(t, m.a + 1) == Link(free, m.b) by {
      if m.a + 1 < |t| { assert At(t, m.a + 1) == free[m.b]; }
    }
  }

  lemma PriorNode(g: Geometry, d: seq<byte>, used: seq<Span>, free: seq<Span>, j: nat, k: nat, d': seq<byte>, frag: int)
    requires Space(g, d, used, free) && j < |used| && Place(free, used[j].start, k)
    requires WroteBlock(g, d, d', free, MergeOf(free, k, used[j]), frag)
    requires MergeOf(free, k, used[j]).a > 0
    ensures var m := MergeOf(free, k, used[j]); NodeAt(g, d', Merged(free, m), m.a - 1)
  {
    var m := MergeOf(free, k, used[j]);
    var t := Merged(free, m);
    FarFromMerge(g, d, used, free, j, k, m.a - 1);
    assert NodeAt(g, d, free, m.a - 1);
    assert At(t, m.a - 1) == free[m.a - 1] && At(t, m.a) == Span(m.lo, m.hi - m.lo);
    var p := free[m.a - 1].start;
    assert Kept(d, d', p + 2) && Kept(d, d', p + 3);
  }

  lemma NodeIs(g: Geometry, d: seq<byte>, used: seq<Span>, free: seq<Span>, k: nat)
    requires Space(g, d, used, free) && k < |free|
    ensures NodeAt(g, d, free, k)
  {
  }

  lemma OldNode(g: Geometry, d: seq<byte>, used: seq<Span>, free: seq<Span>, j: nat, k: nat, d': seq<byte>, frag: int,
                i: nat)
    requires Space(g, d, used, free) && j < |used| && Place(free, used[j].start, k)
    requires WroteBlock(g, d, d', free, MergeOf(free, k, used[j]), frag)
    requires var m := MergeOf(free, k, used[j]); i < |Merged(free, m)| && i != m.a && i + 1 != m.a
    ensures NodeAt(g, d', Merged(free, MergeOf(free, k, used[j])), i)
  {
    hide Space, Place, Layout, MergeOf, Get2, Get2NotZero, Merged;
    SpaceParts(g, d, used, free);
    Neighbours(Top(g, d), g.usable, used, free, j, k);
    var m := MergeOf(free, k, used[j]);
    var t := Merged(free, m);
    var f := if i < m.a then i else i - m.a - 1 + m.b;
    FarFromMerge(g, d, used, free, j, k, f);
    NodeIs(g, d, used, free, f);
    MergedAt(free, m, i);
    assert Link(t, i + 1) == Link(free, f + 1) by {
      if i + 1 < |t| { MergedAt(free, m, i + 1); }
    }
    var p := free[f].start;
    assert Kept(d, d', p) && Kept(d, d', p + 1) && Kept(d, d', p + 2) && Kept(d, d', p + 3);
    NodeKeptQ(g, d, free, f, d', t, i);
  }

  /** The headers of the freeblocks that survive a merge lie outside the bytes it writes. */
  lemma FarFromMerge(g: Geometry, d: seq<byte>, used: seq<Span>, free: seq<Span>, j: nat, k: nat, f: nat)
    requires Space(g, d, used, free) && j < |used| && Place(free, used[j].start, k)
    requires var m := MergeOf(free, k, used[j]); f < |free| && (f < m.a || m.b <= f)
    ensures var m := MergeOf(free, k, used[j]);
      && g.CellOffset() <= free[f].start
      && (free[f].start + 4 <= m.lo || m.lo + 4 <= free[f].start)
      && (m.a > 0 && f != m.a - 1 ==>
            free[f].start + 4 <= free[m.a - 1].start || free[m.a - 1].start + 4 <= free[f].start)
  {
    var m := MergeOf(free, k, used[j]);
    Neighbours(Top(g, d), g.usable, used, free, j, k);
    assert NodeAt(g, d, free, f) && 4 <= At(free, f).size;
    if m.a > 0 && f != m.a - 1 {
      assert 4 <= At(free, m.a - 1).size;
      assert At(free, f).End() + 4 <= At(free, m.a - 1).start || At(free, m.a - 1).End() + 4 <= At(free, f).start;
    }
    if k > 0 && f != k - 1 {
      assert At(free, f).End() + 4 <= At(free, k - 1).start || At(free, k - 1).End() + 4 <= At(free, f).start;
    }
    if k < |free| && f != k {
      assert At(free, f).End() + 4 <= At(free, k).start || At(free, k).End() + 4 <= At(free, f).start;
    }
  }

  /** A released range that bordered on the gap: the content area starts where it ends. */
  ghost predicate WroteTop(g: Geometry, d: seq<byte>, d': seq<byte>, free: seq<Span>, m: Merge, frag: int)
    requires m.a <= m.b <= |free| && Holds(g, d)
  {
    && m.lo + 4 <= m.hi <= g.usable && |d'| == |d|
    && Get2(d', g.hdr + 1) == Link(free, m.b)
    && Get2NotZero(d', g.hdr + 5) == m.hi
    && d'[g.hdr + 7] == frag
    && forall q: nat | q < |d| && q != g.hdr + 1 && q != g.hdr + 2 && !(g.hdr + 5 <= q < g.hdr + 8)
           && !(m.lo <= q < m.lo + 4) :: Kept(d, d', q)
  }

  /** A block that begins where the header says is the range itself, at the start of the content area. */
  lemma GapStart(g: Geometry, d: seq<byte>, used: seq<Span>, free: seq<Span>, j: nat, k: nat)
    requires Space(g, d, used, free) && j < |used| && Place(free, used[j].start, k)
    requires MergeOf(free, k, used[j]).lo == Get2(d, g.hdr + 5)
    ensures MergeOf(free, k, used[j]).lo == Top(g, d) == used[j].start
  {
    hide Layout, Place, Chain, Sum;
    PlaceLe(free, used[j].start, k);
    Neighbours(Top(g, d), g.usable, used, free, j, k);
  }

  /** The block is at the start of the content area exactly if it does not begin past what the header says. */
  lemma MergeAtTop(g: Geometry, d: seq<byte>, used: seq<Span>, free: seq<Span>, j: nat, k: nat)
    requires Space(g, d, used, free) && j < |used| && Place(free, used[j].start, k)
    ensures var m := MergeOf(free, k, used[j]);
      && Top(g, d) <= m.lo <= m.hi <= g.usable && (m.lo <= Get2(d, g.hdr + 5) <==> m.lo == Top(g, d))
      && (m.lo == Top(g, d) ==> m.lo == Get2(d, g.hdr + 5))
  {
    hide Layout, Place, Chain, Sum;
    PlaceLe(free, used[j].start, k);
    Neighbours(Top(g, d), g.usable, used, free, j, k);
  }

  /** The writes of freeSpace() for such a range. */
  lemma TopWrites(g: Geometry, d: seq<byte>, free: seq<Span>, m: Merge, frag: byte, d': seq<byte>)
    requires Holds(g, d) && m.a <= m.b <= |free| && m.lo + 4 <= m.hi <= g.usable && g.CellOffset() <= m.lo
    requires Link(free, m.b) < 0x1_0000
    requires var r := Put2(Put2(d[g.hdr + 7 := frag], g.hdr + 1, Link(free, m.b)), g.hdr + 5, m.hi);
      d' == Put2(Put2(r, m.lo, Link(free, m.b)), m.lo + 2, m.hi - m.lo)
    ensures WroteTop(g, d, d', free, m, frag)
  {
    hide Put2;
    var d0 := d[g.hdr + 7 := frag];
    var d1 := Put2(d0, g.hdr + 1, Link(free, m.b));
    var d2 := Put2(d1, g.hdr + 5, m.hi);
    var d3 := Put2(d2, m.lo, Link(free, m.b));
    assert d'[g.hdr + 1] == d3[g.hdr + 1] == d2[g.hdr + 1] == d1[g.hdr + 1];
    assert d'[g.hdr + 2] == d3[g.hdr + 2] == d2[g.hdr + 2] == d1[g.hdr + 2];
    assert d'[g.hdr + 5] == d3[g.hdr + 5] == d2[g.hdr + 5] && d'[g.hdr + 6] == d3[g.hdr + 6] == d2[g.hdr + 6];
    assert d'[g.hdr + 7] == d3[g.hdr + 7] == d2[g.hdr + 7] == d1[g.hdr + 7] == d0[g.hdr + 7];
    forall q: nat | q < |d| && q != g.hdr + 1 && q != g.hdr + 2
      && !(g.hdr + 5 <= q < g.hdr + 8) && !(m.lo <= q < m.lo + 4)
      ensures Kept(d, d', q)
    {
      assert d'[q] == d3[q] == d2[q] == d1[q] == d0[q];
    }
  }

  lemma TopChain(g: Geometry, d: seq<byte>, used: seq<Span>, free: seq<Span>, j: nat, k: nat, d': seq<byte>, frag: int)
    requires Space(g, d, used, free) && j < |used| && Place(free, used[j].start, k)
    requires MergeOf(free, k, used[j]).lo == Top(g, d)
    requires WroteTop(g, d, d', free, MergeOf(free, k, used[j]), frag)
    ensures Chain(g, d', free[MergeOf(free, k, used[j]).b..])
  {
    var m := MergeOf(free, k, used[j]);
    var t := free[m.b..];
    Neighbours(Top(g, d), g.usable, used, free, j, k);
    forall i: nat | i < |t| ensures NodeAt(g, d', t, i) {
      FarFromMerge(g, d, used, free, j, k, i + m.b);
      assert NodeAt(g, d, free, i + m.b);
      var p := free[i + m.b].start;
      assert Kept(d, d', p) && Kept(d, d', p + 1) && Kept(d, d', p + 2) && Kept(d, d', p + 3);
      NodeKeptQ(g, d, free, i + m.b, d', t, i);
    }
  }

  lemma TopLayout(top: nat, hi: nat, used: seq<Span>, free: seq<Span>, j: nat, k: nat)
    requires Layout(top, hi, used, free) && j < |used| && Place(free, used[j].start, k)
    requires used[j].start == top
    ensures var m := MergeOf(free, k, used[j]);
      m.a == 0 && m.lo == top && Layout(m.hi, hi, Without(used, j), free[m.b..])
  {
    var m := MergeOf(free, k, used[j]);
    Neighbours(top, hi, used, free, j, k);
    WithoutLayout(used, j, top, hi);
    MergedCross(top, hi, used, free, j, k);
    MergedFree(top, hi, used, free, j, k);
    var u, t, r := Without(used, j), free[m.b..], Merged(free, m);
    assert At(r, 0) == Span(m.lo, m.hi - m.lo);
    forall i: nat | i < |t| ensures At(t, i) == At(r, i + 1) {}
    forall i: nat | i < |u| ensures m.hi <= At(u, i).start {
      assert Apart(At(u, i), At(r, 0));
    }
    forall i: nat, x: nat | i < |u| && x < |t| ensures Apart(At(u, i), At(t, x)) {
      assert Apart(At(u, i), At(r, x + 1));
    }
    forall i: nat | i < |t| ensures m.hi < At(t, i).start {
      assert At(r, 0).End() + 4 <= At(r, i + 1).start;
    }
    forall i: nat, x: nat | i < x < |t| ensures At(t, i).End() + 4 <= At(t, x).start {
      assert At(r, i + 1).End() + 4 <= At(r, x + 1).start;
    }
  }

  /** The bookkeeping after freeSpace() releases the j-th range in use. */
  lemma ReleaseSound(g: Geometry, d: seq<byte>, used: seq<Span>, free: seq<Span>, j: nat, k: nat, d': seq<byte>)
    requires Space(g, d, used, free) && j < |used| && Place(free, used[j].start, k)
    requires MergeOf(free, k, used[j]).lo != Top(g, d)
    requires WroteBlock(g, d, d', free, MergeOf(free, k, used[j]), Frag(g, d) - Regained(free, k, used[j]))
    ensures Space(g, d', Without(used, j), Merged(free, MergeOf(free, k, used[j])))
    ensures Top(g, d') == Top(g, d)
    ensures Frame(g, d, d', Without(used, j))
  {
    hide Place, Sum, Merged, MergeOf, Regained, Within, Ascending, Disjoint, CrossApart, Frame;
    PlaceLe(free, used[j].start, k);
    SpaceParts(g, d, used, free);
    var m := MergeOf(free, k, used[j]);
    Neighbours(Top(g, d), g.usable, used, free, j, k);
    MergedChain(g, d, used, free, j, k, d', Frag(g, d) - Regained(free, k, used[j]));
    MergedFree(Top(g, d), g.usable, used, free, j, k);
    MergedCross(Top(g, d), g.usable, used, free, j, k);
    WithoutLayout(used, j, Top(g, d), g.usable);
    SumSplit(used, j);
    RegainedPlus(Top(g, d), g.usable, used, free, j, k);
    MergedSum(free, k, used[j]);
    ReleaseFrame(g, d, used, free, j, k, d');
  }

  /** The three pointer writes of freeSpace() leave a block described by the merge, also when the
      block being grown is the one whose pointer is rewritten first. */
  lemma JoinWrites(g: Geometry, d: seq<byte>, used: seq<Span>, free: seq<Span>, j: nat, k: nat, frag: byte,
                   d': seq<byte>)
    requires Space(g, d, used, free) && j < |used| && Place(free, used[j].start, k)
    requires LinkAt(g, free, k) + 1 < |d|
    requires var m := MergeOf(free, k, used[j]);
      && m.lo + 4 <= m.hi <= g.usable
      && d' == Put2(Put2(Put2(d[g.hdr + 7 := frag], LinkAt(g, free, k), m.lo), m.lo, Link(free, m.b)), m.lo + 2,
                    m.hi - m.lo)
    ensures WroteBlock(g, d, d', free, MergeOf(free, k, used[j]), frag)
  {
    hide Put2, Get2, Space, Place, Layout, Get2NotZero, Merged;
    PlaceLe(free, used[j].start, k);
    SpaceParts(g, d, used, free);
    var m := MergeOf(free, k, used[j]);
    Neighbours(Top(g, d), g.usable, used, free, j, k);
    ReadLink(g, d, used, free, k);
    ReadLink(g, d, used, free, m.a);
    ReadNode(g, d, used, free, m.b);
    ThreeWrites(d, g.hdr + 7, frag, LinkAt(g, free, k), LinkAt(g, free, m.a), m.lo, Link(free, m.b), m.hi - m.lo, d');
  }

  /** The block being grown may be the one whose pointer is rewritten first. */
  lemma ThreeWrites(d: seq<byte>, h: nat, frag: byte, p: nat, pa: nat, lo: nat, v: nat, size: nat, d': seq<byte>)
    requires h < |d| && p + 1 < |d| && pa + 1 < |d| && lo + 4 <= |d| && h < lo && pa + 2 <= lo
    requires (p == lo && Get2(d, pa) == lo) || (p == pa && p + 4 <= lo)
    requires h != p && h != p + 1 && h != pa && h != pa + 1 && lo < 0x1_0000 && v < 0x1_0000 && size < 0x1_0000
    requires d' == Put2(Put2(Put2(d[h := frag], p, lo), lo, v), lo + 2, size)
    ensures |d'| == |d| && Get2(d', pa) == lo && Get2(d', lo) == v && Get2(d', lo + 2) == size && d'[h] == frag
    ensures forall q: nat | q < |d| && q != h && q != pa && q != pa + 1 && !(lo <= q < lo + 4) :: Kept(d, d', q)
  {
    hide Put2;
    var d0 := d[h := frag];
    var d1 := Put2(d0, p, lo);
    var d2 := Put2(d1, lo, v);
    assert d'[pa] == d2[pa] == d1[pa] && d'[pa + 1] == d2[pa + 1] == d1[pa + 1];
    assert p == lo ==> d1[pa] == d[pa] && d1[pa + 1] == d[pa + 1];
    assert d'[lo] == d2[lo] && d'[lo + 1] == d2[lo + 1];
    assert d'[h] == d2[h] == d1[h] == d0[h];
    forall q: nat | q < |d| && q != h && q != pa && q != pa + 1 && !(lo <= q < lo + 4)
      ensures Kept(d, d', q)
    {
      assert d'[q] == d2[q] == d1[q] == d0[q];
    }
  }

  lemma ReleaseFrame(g: Geometry, d: seq<byte>, used: seq<Span>, free: seq<Span>, j: nat, k: nat, d': seq<byte>)
    requires Space(g, d, used, free) && j < |used| && Place(free, used[j].start, k)
    requires |d'| == |d|
    requires var m := MergeOf(free, k, used[j]);
      forall q: nat | q < |d| && q != g.hdr + 1 && q != g.hdr + 2 && !(g.hdr + 5 <= q < g.hdr + 8)
           && !(m.a > 0 && free[m.a - 1].start <= q < free[m.a - 1].start + 2)
           && !(m.lo <= q < m.lo + 4) :: Kept(d, d', q)
    ensures Frame(g, d, d', Without(used, j))
  {
    hide Place, Chain, Sum, Ascending, Disjoint, Merged;
    PlaceLe(free, used[j].start, k);
    var m := MergeOf(free, k, used[j]);
    var u := Without(used, j);
    Neighbours(Top(g, d), g.usable, used, free, j, k);
    MergedCross(Top(g, d), g.usable, used, free, j, k);
    MergedAt(free, m, m.a);
    if m.a > 0 {
      ReadNode(g, d, used, free, m.a - 1);
      MergedAt(free, m, m.a - 1);
    }
    forall i: nat, q: nat | i < |u| && q < |d| && At(u, i).Has(q)
      ensures Kept(d, d', q)
    {
      assert At(u, i) == At(used, if i < j then i else i + 1);
      assert Apart(At(u, i), At(Merged(free, m), m.a));
      if m.a > 0 {
        assert Apart(At(u, i), At(Merged(free, m), m.a - 1));
      }
    }
  }

  lemma ReleaseTopSound(g: Geometry, d: seq<byte>, used: seq<Span>, free: seq<Span>, j: nat, k: nat, d': seq<byte>)
    requires Space(g, d, used, free) && j < |used| && Place(free, used[j].start, k)
    requires MergeOf(free, k, used[j]).lo == Top(g, d) == used[j].start
    requires WroteTop(g, d, d', free, MergeOf(free, k, used[j]), Frag(g, d) - Regained(free, k, used[j]))
    ensures Space(g, d', Without(used, j), free[MergeOf(free, k, used[j]).b..])
    ensures Frame(g, d, d', Without(used, j))
  {
    var m := MergeOf(free, k, used[j]);
    Neighbours(Top(g, d), g.usable, used, free, j, k);
    TopLayout(Top(g, d), g.usable, used, free, j, k);
    TopChain(g, d, used, free, j, k, d', Frag(g, d) - Regained(free, k, used[j]));
    SumSplit(used, j);
    MergedSum(free, k, used[j]);
    MergedIs(free, m);
    SumAppend([Span(m.lo, m.hi - m.lo)], free[m.b..]);
    SumSnoc([], Span(m.lo, m.hi - m.lo));
    assert [] + [Span(m.lo, m.hi - m.lo)] == [Span(m.lo, m.hi - m.lo)];
    assert free[..m.a] + [Span(m.lo, m.hi - m.lo)] == [Span(m.lo, m.hi - m.lo)];
    ReleaseFrame(g, d, used, free, j, k, d');
  }

  lemma RegainedPlus(top: nat, hi: nat, used: seq<Span>, free: seq<Span>, j: nat, k: nat)
    requires Layout(top, hi, used, free) && j < |used| && Place(free, used[j].start, k)
    ensures Regained(free, k, used[j]) >= 0
  {
    hide Layout, Place;
    PlaceLe(free, used[j].start, k);
    Neighbours(top, hi, used, free, j, k);
  }

  lemma WithinMore(t: seq<Span>, lo: nat, lo': nat, hi: nat)
    requires Within(t, lo, hi) && lo' <= lo
    ensures Within(t, lo', hi)
  {
  }

  /** The bytes that freeSpace() takes back from the fragment counter are really in it. */
  lemma RegainedBound(g: Geometry, d: seq<byte>, used: seq<Span>, free: seq<Span>, j: nat, k: nat)
    requires Space(g, d, used, free) && j < |used| && Place(free, used[j].start, k)
    ensures 0 <= Regained(free, k, used[j]) <= Frag(g, d)
  {
    hide Place, Sum, Merged, MergeOf, Regained, Chain, Ascending, Disjoint, CrossApart, Get2NotZero;
    PlaceLe(free, used[j].start, k);
    SpaceParts(g, d, used, free);
    Neighbours(Top(g, d), g.usable, used, free, j, k);
    RegainedPlus(Top(g, d), g.usable, used, free, j, k);
    var m := MergeOf(free, k, used[j]);
    MergedFree(Top(g, d), g.usable, used, free, j, k);
    var top, u, t := Top(g, d), Without(used, j), Merged(free, m);
    MergedCross(top, g.usable, used, free, j, k);
    WithoutLayout(used, j, top, g.usable);
    SumSplit(used, j);
    MergedSum(free, k, used[j]);
    SumAppend(u, t);
    WithinMore(t, if m.lo == top then top else top + 1, top, g.usable);
    AllApart(top, g.usable, u, t);
    Packing(u + t, top, g.usable);
  }

  ghost function Absorbed(free: seq<Span>, m: Merge): nat
    requires m.a <= m.b <= |free|
  {
    (if m.a < m.b then free[m.a].size else 0) + if m.a + 1 < m.b then free[m.a + 1].size else 0
  }

  lemma MergedIs(free: seq<Span>, m: Merge)
    requires m.a <= m.b <= |free| && m.lo <= m.hi
    ensures Merged(free, m) == free[..m.a] + [Span(m.lo, m.hi - m.lo)] + free[m.b..]
  {
  }
}
