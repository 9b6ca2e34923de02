/** A page while its cells are exchanged: the pointer array may have a hole, and the content area may
    begin before the place that the header says. */
module PageDrafts {
  import opened Bytes
  import opened Spans
  import opened PageLayout
  import opened PageCells
  import opened PageEdit

  // ---- the order of the ranges in use does not matter --------------------------------------------

  lemma Member(a: seq<Span>, b: seq<Span>, i: nat)
    requires multiset(a) == multiset(b) && i < |b|
    ensures exists x: nat :: x < |a| && At(a, x) == At(b, i)
  {
    assert b[i] in multiset(b);
    assert b[i] in a;
    var x: nat :| x < |a| && a[x] == b[i];
    assert At(a, x) == At(b, i);
  }

  lemma WithoutBag(s: seq<Span>, j: nat)
    requires j < |s|
    ensures multiset(Without(s, j)) == multiset(s) - multiset{s[j]}
  {
    var r := Without(s, j);
    forall i: nat | i < |r|
      ensures r[i] == (s[..j] + s[j + 1..])[i]
    {
      assert At(r, i) == r[i];
    }
    assert r == s[..j] + s[j + 1..];
    assert s == s[..j] + [s[j]] + s[j + 1..];
  }

  lemma {:induction false} SumPerm(a: seq<Span>, b: seq<Span>)
    requires multiset(a) == multiset(b)
    ensures Sum(a) == Sum(b)
    decreases |a|
  {
    if a == [] {
      assert |multiset(b)| == |b|;
    } else {
      var x := |a| - 1;
      Member(b, a, x);
      var y: nat :| y < |b| && At(b, y) == At(a, x);
      WithoutBag(b, y);
      assert a == a[..x] + [a[x]];
      SumPerm(a[..x], Without(b, y));
      SumSplit(b, y);
      SumSnoc(a[..x], a[x]);
    }
  }

  lemma CountTwo(b: seq<Span>, i: nat, j: nat)
    requires i < j < |b| && b[i] == b[j]
    ensures multiset(b)[b[i]] >= 2
  {
    assert b == b[..j] + [b[j]] + b[j + 1..];
    assert b[i] == b[..j][i];
    assert b[i] in multiset(b[..j]);
  }

  lemma {:induction false} CountOnce(a: seq<Span>, lo: nat, hi: nat, v: Span)
    requires Within(a, lo, hi) && Disjoint(a)
    ensures multiset(a)[v] <= 1
    decreases |a|
  {
    if a != [] {
      var n := |a| - 1;
      var a' := a[..n];
      assert a == a' + [a[n]];
      forall i: nat | i < n
        ensures At(a', i) == At(a, i)
      {
      }
      CountOnce(a', lo, hi, v);
      if v == a[n] && v in a' {
        var i: nat :| i < n && a'[i] == v;
        OnlyOnce(a, lo, hi, i, n);
      }
    }
  }

  lemma OnlyOnce(a: seq<Span>, lo: nat, hi: nat, i: nat, j: nat)
    requires Within(a, lo, hi) && Disjoint(a) && i < j < |a|
    ensures a[i] != a[j]
  {
    assert Apart(At(a, i), At(a, j)) && 4 <= At(a, i).size;
  }

  lemma LayoutPerm(top: nat, hi: nat, a: seq<Span>, b: seq<Span>, free: seq<Span>)
    requires Layout(top, hi, a, free) && multiset(a) == multiset(b)
    ensures Layout(top, hi, b, free)
  {
    forall i: nat | i < |b|
      ensures top <= At(b, i).start && 4 <= At(b, i).size && At(b, i).End() <= hi
    {
      Member(a, b, i);
    }
    forall i: nat, j: nat | i < |b| && j < |free|
      ensures Apart(At(b, i), At(free, j))
    {
      Member(a, b, i);
      var x: nat :| x < |a| && At(a, x) == At(b, i);
      assert Apart(At(a, x), At(free, j));
    }
    DisjointPerm(top, hi, a, b);
  }

  lemma DisjointPerm(lo: nat, hi: nat, a: seq<Span>, b: seq<Span>)
    requires Within(a, lo, hi) && Disjoint(a) && multiset(a) == multiset(b)
    ensures Disjoint(b)
  {
    forall i: nat, j: nat | i < j < |b|
      ensures Apart(At(b, i), At(b, j))
    {
      if b[i] == b[j] {
        CountTwo(b, i, j);
        CountOnce(a, lo, hi, b[i]);
      }
      Member(a, b, i);
      Member(a, b, j);
      var x: nat :| x < |a| && At(a, x) == At(b, i);
      var y: nat :| y < |a| && At(a, y) == At(b, j);
      if x < y {
        assert Apart(At(a, x), At(a, y));
      } else {
        assert Apart(At(a, y), At(a, x));
      }
    }
  }

  lemma SpacePerm(g: Geometry, d: seq<byte>, a: seq<Span>, b: seq<Span>, free: seq<Span>)
    requires Space(g, d, a, free) && multiset(a) == multiset(b)
    ensures Space(g, d, b, free)
  {
    hide Layout, Chain, Sum;
    LayoutPerm(Top(g, d), g.usable, a, b, free);
    SumPerm(a, b);
  }

  // ---- ranges that border on each other ----------------------------------------------------------

  /** Two ranges in use become one. */
  lemma SpaceJoin(g: Geometry, d: seq<byte>, rest: seq<Span>, x: Span, y: Span, free: seq<Span>)
    requires Space(g, d, rest + [x] + [y], free) && x.End() == y.start
    ensures Space(g, d, rest + [Span(x.start, x.size + y.size)], free)
  {
    hide Chain, Sum;
    var z := Span(x.start, x.size + y.size);
    var u, v, n := rest + [x] + [y], rest + [z], |rest|;
    SumSnoc(rest + [x], y);
    SumSnoc(rest, x);
    SumSnoc(rest, z);
    assert At(u, n) == x && At(u, n + 1) == y && At(v, n) == z;
    forall i: nat | i < n
      ensures At(v, i) == At(u, i)
    {
    }
    forall i: nat, j: nat | i < |v| && j < |free|
      ensures Apart(At(v, i), At(free, j))
    {
      assert Apart(At(u, i), At(free, j));
      assert i == n ==> Apart(At(u, n + 1), At(free, j)) && 4 <= At(free, j).size && 4 <= At(u, n).size;
    }
    forall i: nat, j: nat | i < j < |v|
      ensures Apart(At(v, i), At(v, j))
    {
      assert Apart(At(u, i), At(u, j));
      if j == n {
        assert Apart(At(u, i), At(u, n + 1)) && 4 <= At(u, i).size && 4 <= At(u, n).size;
      }
    }
  }

  // ---- ranges taken from the gap -------------------------------------------------------------------

  /** The ranges fill [lo, hi). */
  ghost predicate Tiled(z: seq<Span>, lo: nat, hi: nat) {
    lo <= hi && Within(z, lo, hi) && Disjoint(z) && Sum(z) == hi - lo
  }

  lemma TiledSnoc(z: seq<Span>, lo: nat, hi: nat, n: nat)
    requires Tiled(z, lo, hi) && 4 <= n <= lo
    ensures Tiled(z + [Span(lo - n, n)], lo - n, hi)
  {
    hide Sum;
    var x := Span(lo - n, n);
    var u := z + [x];
    SumSnoc(z, x);
    forall i: nat | i < |u|
      ensures At(u, i) == if i < |z| then At(z, i) else x
    {
    }
    forall i: nat, j: nat | i < j < |u|
      ensures Apart(At(u, i), At(u, j))
    {
      if j < |z| {
        assert Apart(At(z, i), At(z, j));
      }
    }
  }

  /** When the header says where the content area begins, the ranges taken from the gap are in use like the others. */
  lemma SpaceLonger(g: Geometry, d: seq<byte>, high: seq<Span>, low: seq<Span>, free: seq<Span>, lo: nat)
    requires Space(g, d, high, free) && Tiled(low, lo, Top(g, d)) && g.CellOffset() <= lo
    ensures Space(g, Put2(d, g.hdr + 5, lo), high + low, free)
    ensures Top(g, Put2(d, g.hdr + 5, lo)) == lo
  {
    hide Put2, Sum;
    var top, d' := Top(g, d), Put2(d, g.hdr + 5, lo);
    var u := high + low;
    SumAppend(high, low);
    forall k: nat | k < |free|
      ensures NodeAt(g, d', free, k)
    {
      assert NodeAt(g, d, free, k);
      NodeKept(g, d, free, k, d', free, k);
    }
    LayoutLonger(top, g.usable, high, low, free, lo);
  }

  lemma LayoutLonger(top: nat, hi: nat, high: seq<Span>, low: seq<Span>, free: seq<Span>, lo: nat)
    requires Layout(top, hi, high, free) && Tiled(low, lo, top) && top <= hi
    ensures Layout(lo, hi, high + low, free)
  {
    hide Sum;
    var u := high + low;
    forall i: nat | i < |u|
      ensures At(u, i) == if i < |high| then At(high, i) else At(low, i - |high|)
    {
    }
    forall i: nat, j: nat | i < |u| && j < |free|
      ensures Apart(At(u, i), At(free, j))
    {
      if i < |high| {
        assert Apart(At(high, i), At(free, j));
      }
    }
    forall i: nat, j: nat | i < j < |u|
      ensures Apart(At(u, i), At(u, j))
    {
      if j < |high| {
        assert Apart(At(high, i), At(high, j));
      } else if i >= |high| {
        assert Apart(At(low, i - |high|), At(low, j - |high|));
      }
    }
    forall i: nat | i < |free|
      ensures lo + 1 <= At(free, i).start
    {
      assert top + 1 <= At(free, i).start;
    }
  }

  // ---- writes that miss the bookkeeping ------------------------------------------------------------

  /** Only bytes between the page header and the content area have changed, and bytes of z. */
  ghost predicate Touches(g: Geometry, d: seq<byte>, d': seq<byte>, z: Span)
    requires Holds(g, d)
  {
    |d'| == |d| && forall q: nat | q < |d| && !(g.CellOffset() <= q < Top(g, d)) && !z.Has(q) :: Kept(d, d', q)
  }

  /** The bytes of a range are as before. */
  ghost predicate SpanKept(d: seq<byte>, d': seq<byte>, z: Span) {
    z.End() <= |d| == |d'| && CellBytes(d', z) == CellBytes(d, z)
  }

  ghost predicate SpansKept(d: seq<byte>, d': seq<byte>, s: seq<Span>) {
    forall i: nat | i < |s| :: SpanKept(d, d', At(s, i))
  }

  lemma SpansKeptTrans(d: seq<byte>, d1: seq<byte>, d2: seq<byte>, s: seq<Span>, s1: seq<Span>)
    requires SpansKept(d, d1, s) && SpansKept(d1, d2, s1) && s <= s1
    ensures SpansKept(d, d2, s)
  {
    forall i: nat | i < |s|
      ensures SpanKept(d, d2, At(s, i))
    {
      assert SpanKept(d, d1, At(s, i)) && SpanKept(d1, d2, At(s1, i));
    }
  }

  lemma SpansSame(g: Geometry, d: seq<byte>, used: seq<Span>, free: seq<Span>)
    requires Space(g, d, used, free)
    ensures SpansKept(d, d, used)
  {
    forall i: nat | i < |used|
      ensures SpanKept(d, d, At(used, i))
    {
      assert At(used, i).End() <= g.usable;
    }
  }

  /** A write confined to the frame of the ranges in use keeps their bytes. */
  lemma FrameSpans(g: Geometry, d: seq<byte>, d': seq<byte>, used: seq<Span>, free: seq<Span>)
    requires Space(g, d, used, free) && Frame(g, d, d', used)
    ensures SpansKept(d, d', used)
  {
    forall i: nat | i < |used|
      ensures SpanKept(d, d', At(used, i))
    {
      var z := At(used, i);
      assert z.End() <= g.usable;
      forall q: nat | z.start <= q < z.End()
        ensures Kept(d, d', q)
      {
        assert At(used, i).Has(q);
      }
      CellKept(d, d', z);
    }
  }

  /** So does a write to the pointer array, the gap, and one range more. */
  lemma TouchesSpace(g: Geometry, d: seq<byte>, d': seq<byte>, used: seq<Span>, z: Span, free: seq<Span>)
    requires Space(g, d, used + [z], free) && Touches(g, d, d', z)
    ensures Space(g, d', used + [z], free) && Top(g, d') == Top(g, d) && SpansKept(d, d', used)
  {
    hide Sum;
    var u, n := used + [z], |used|;
    assert At(u, n) == z && Top(g, d) <= At(u, n).start;
    forall q: nat | g.hdr + 1 <= q < g.hdr + 3 || g.hdr + 5 <= q < g.hdr + 8
      ensures Kept(d, d', q)
    {
    }
    forall k: nat, q: nat | k < |free| && q < |d| && At(free, k).start <= q < At(free, k).start + 4
      ensures Kept(d, d', q)
    {
      assert Apart(At(u, n), At(free, k)) && 4 <= At(free, k).size;
    }
    SpaceKept(g, d, d', u, free);
    forall i: nat | i < n
      ensures SpanKept(d, d', At(used, i))
    {
      ApartKept(g, d, d', u, i, n);
    }
  }

  lemma ApartKept(g: Geometry, d: seq<byte>, d': seq<byte>, u: seq<Span>, i: nat, n: nat)
    requires Holds(g, d) && Within(u, Top(g, d), g.usable) && Disjoint(u) && i < n < |u| && Touches(g, d, d', u[n])
    ensures SpanKept(d, d', At(u, i))
  {
    var x := At(u, i);
    assert Apart(At(u, i), At(u, n)) && Top(g, d) <= x.start && x.End() <= g.usable;
    forall q: nat | x.start <= q < x.End()
      ensures Kept(d, d', q)
    {
    }
    CellKept(d, d', x);
  }

  /** The same without such a range. */
  lemma TouchesPointers(g: Geometry, d: seq<byte>, d': seq<byte>, used: seq<Span>, free: seq<Span>)
    requires Space(g, d, used, free) && Touches(g, d, d', Span(0, 0))
    ensures Space(g, d', used, free) && Top(g, d') == Top(g, d) && SpansKept(d, d', used)
  {
    hide Sum;
    forall q: nat | g.hdr + 1 <= q < g.hdr + 3 || g.hdr + 5 <= q < g.hdr + 8
      ensures Kept(d, d', q)
    {
    }
    forall k: nat, q: nat | k < |free| && q < |d| && At(free, k).start <= q < At(free, k).start + 4
      ensures Kept(d, d', q)
    {
      assert Top(g, d) + 1 <= At(free, k).start;
    }
    SpaceKept(g, d, d', used, free);
    forall i: nat | i < |used|
      ensures SpanKept(d, d', At(used, i))
    {
      var x := At(used, i);
      assert Top(g, d) <= x.start && x.End() <= g.usable;
      forall q: nat | x.start <= q < x.End()
        ensures Kept(d, d', q)
      {
      }
      CellKept(d, d', x);
    }
  }

  // ---- the pointer array ---------------------------------------------------------------------------

  /** Where the k-th pointer is when w places are left open at place p. */
  function PtrPos(g: Geometry, p: nat, w: nat, k: nat): nat {
    Gap(g, if k < p then k else k + w)
  }

  /** The k-th pointer leads to the cell that has index held[k] in the array of all cells. */
  ghost predicate SlotOk(g: Geometry, d: seq<byte>, want: seq<seq<byte>>, s: seq<Span>, held: seq<int>, p: nat, w: nat,
                         k: nat) {
    && k < |s| == |held| && PtrPos(g, p, w, k) + 2 <= |d| && s[k].End() <= |d| && 0 <= held[k] < |want|
    && Get2(d, PtrPos(g, p, w, k)) == s[k].start && CellBytes(d, s[k]) == want[held[k]]
  }

  ghost predicate Slots(g: Geometry, d: seq<byte>, want: seq<seq<byte>>, s: seq<Span>, held: seq<int>, p: nat, w: nat) {
    |s| == |held| && forall k: nat | k < |s| :: SlotOk(g, d, want, s, held, p, w, k)
  }

  lemma SlotKept(g: Geometry, d: seq<byte>, d': seq<byte>, want: seq<seq<byte>>, s: seq<Span>, held: seq<int>, p: nat,
                 w: nat, k: nat, s': seq<Span>, held': seq<int>, p': nat, w': nat, k': nat)
    requires SlotOk(g, d, want, s, held, p, w, k) && SpanKept(d, d', At(s, k))
    requires k' < |s'| == |held'| && s'[k'] == s[k] && held'[k'] == held[k] && PtrPos(g, p', w', k') + 2 <= |d|
    requires Get2(d', PtrPos(g, p', w', k')) == Get2(d, PtrPos(g, p, w, k))
    ensures SlotOk(g, d', want, s', held', p', w', k')
  {
  }

  lemma TwoKept(d: seq<byte>, d': seq<byte>, p: nat)
    requires p + 1 < |d| == |d'| && Kept(d, d', p) && Kept(d, d', p + 1)
    ensures Get2(d', p) == Get2(d, p)
  {
  }

  /** Where the hole has no width it does not matter where it is. */
  lemma NoHole(g: Geometry, d: seq<byte>, want: seq<seq<byte>>, s: seq<Span>, held: seq<int>, p: nat, p': nat)
    requires Slots(g, d, want, s, held, p, 0)
    ensures Slots(g, d, want, s, held, p', 0)
  {
    forall k: nat | k < |s|
      ensures SlotOk(g, d, want, s, held, p', 0, k)
    {
      assert SlotOk(g, d, want, s, held, p, 0, k);
    }
  }

  /** A cell enters the hole from its left end. */
  lemma SlotsInserted(g: Geometry, d: seq<byte>, d': seq<byte>, want: seq<seq<byte>>, s: seq<Span>, held: seq<int>,
                      p: nat, w: nat, z: Span, i: nat)
    requires Slots(g, d, want, s, held, p, w) && p <= |s| && w >= 1 && Gap(g, |s| + w) <= |d| == |d'|
    requires SpansKept(d, d', s)
    requires forall q: nat | g.CellOffset() <= q < Gap(g, |s| + w) && q != Gap(g, p) && q != Gap(g, p) + 1 ::
      Kept(d, d', q)
    requires Get2(d', Gap(g, p)) == z.start && z.End() <= |d'| && i < |want| && CellBytes(d', z) == want[i]
    ensures Slots(g, d', want, InsertAt(s, p, z), InsertAt(held, p, i), p + 1, w - 1)
  {
    hide Get2;
    var s', held' := InsertAt(s, p, z), InsertAt(held, p, i);
    var p1, w1 := p + 1, w - 1;
    forall k: nat | k < |s'|
      ensures SlotOk(g, d', want, s', held', p1, w1, k)
    {
      if k != p {
        var j := if k < p then k else k - 1;
        assert SlotOk(g, d, want, s, held, p, w, j) && SpanKept(d, d', At(s, j));
        assert PtrPos(g, p1, w1, k) == PtrPos(g, p, w, j);
        var q := PtrPos(g, p, w, j);
        assert Kept(d, d', q) && Kept(d, d', q + 1);
        TwoKept(d, d', q);
        SlotKept(g, d, d', want, s, held, p, w, j, s', held', p1, w1, k);
      }
    }
  }

  /** memmove() opens a hole of w places before the p-th pointer. */
  lemma HoleOpened(g: Geometry, d: seq<byte>, d': seq<byte>, want: seq<seq<byte>>, s: seq<Span>, held: seq<int>, p: nat,
                   w: nat)
    requires Slots(g, d, want, s, held, p, 0) && p <= |s| && Gap(g, |s| + w) <= |d| && SpansKept(d, d', s)
    requires d' == Copy(d, Gap(g, p + w), d, Gap(g, p), 2 * (|s| - p))
    ensures Slots(g, d', want, s, held, p, w)
  {
    hide Get2, Copy;
    forall k: nat | k < |s|
      ensures SlotOk(g, d', want, s, held, p, w, k)
    {
      assert SlotOk(g, d, want, s, held, p, 0, k) && SpanKept(d, d', At(s, k));
      var q, q' := PtrPos(g, p, 0, k), PtrPos(g, p, w, k);
      assert d'[q'] == d[q] && d'[q' + 1] == d[q + 1];
      SameTwo(d, q, d', q');
      SlotKept(g, d, d', want, s, held, p, 0, k, s, held, p, w, k);
    }
  }

  lemma SameTwo(d: seq<byte>, q: nat, d': seq<byte>, q': nat)
    requires q + 1 < |d| && q' + 1 < |d'| && d'[q'] == d[q] && d'[q' + 1] == d[q + 1]
    ensures Get2(d', q') == Get2(d, q)
  {
  }

  /** The pointers from place a up to place b are good. */
  ghost predicate SlotsOver(g: Geometry, d: seq<byte>, want: seq<seq<byte>>, s: seq<Span>, held: seq<int>, a: nat,
                            b: nat) {
    |s| == |held| && b <= |s| && forall k: nat | a <= k < b :: SlotOk(g, d, want, s, held, 0, 0, k)
  }

  /** The cells from a up to b have kept their bytes, and nothing before the content area has changed. */
  lemma SlotsFreed(g: Geometry, d: seq<byte>, d': seq<byte>, want: seq<seq<byte>>, s: seq<Span>, held: seq<int>, a: nat,
                   b: nat)
    requires Slots(g, d, want, s, held, 0, 0) && a <= b <= |s| && |d'| == |d| && SpansKept(d, d', s[a..b])
    requires forall q: nat | g.CellOffset() <= q < Gap(g, |s|) && q < |d| :: Kept(d, d', q)
    ensures SlotsOver(g, d', want, s, held, a, b)
  {
    hide Get2;
    forall k: nat | a <= k < b
      ensures SlotOk(g, d', want, s, held, 0, 0, k)
    {
      assert SlotOk(g, d, want, s, held, 0, 0, k);
      var j := k - a;
      assert SpanKept(d, d', At(s[a..b], j)) && At(s[a..b], j) == At(s, k);
      var q := PtrPos(g, 0, 0, k);
      assert Kept(d, d', q) && Kept(d, d', q + 1);
      TwoKept(d, d', q);
      SlotKept(g, d, d', want, s, held, 0, 0, k, s, held, 0, 0, k);
    }
  }

  lemma TailDropped(g: Geometry, d: seq<byte>, want: seq<seq<byte>>, s: seq<Span>, held: seq<int>, n: nat)
    requires SlotsOver(g, d, want, s, held, 0, n)
    ensures Slots(g, d, want, s[..n], held[..n], 0, 0)
  {
    forall k: nat | k < n
      ensures SlotOk(g, d, want, s[..n], held[..n], 0, 0, k)
    {
      assert SlotOk(g, d, want, s, held, 0, 0, k);
    }
  }

  /** memmove() drops the first n pointers. */
  lemma FrontDropped(g: Geometry, d: seq<byte>, d': seq<byte>, want: seq<seq<byte>>, s: seq<Span>, held: seq<int>,
                     n: nat)
    requires SlotsOver(g, d, want, s, held, n, |s|) && n <= |s| && Gap(g, |s| + n) <= |d| && SpansKept(d, d', s[n..])
    requires d' == Copy(d, Gap(g, 0), d, Gap(g, n), 2 * |s|)
    ensures Slots(g, d', want, s[n..], held[n..], 0, 0)
  {
    hide Get2, Copy;
    var s', held' := s[n..], held[n..];
    forall k: nat | k < |s'|
      ensures SlotOk(g, d', want, s', held', 0, 0, k)
    {
      var j := k + n;
      assert SlotOk(g, d, want, s, held, 0, 0, j) && SpanKept(d, d', At(s', k));
      assert At(s, j) == At(s', k);
      var q, q' := PtrPos(g, 0, 0, j), PtrPos(g, 0, 0, k);
      assert d'[q'] == d[q] && d'[q' + 1] == d[q + 1];
      SameTwo(d, q, d', q');
      SlotKept(g, d, d', want, s, held, 0, 0, j, s', held', 0, 0, k);
    }
  }

  // ---- a page under edit -----------------------------------------------------------------------------

  /** The cells in the order of their pointers, their indexes in the array of all cells, and the same cells
      apart: those in the content area as the header has it, and those taken from the gap before it. */
  datatype Draft = Draft(s: seq<Span>, held: seq<int>, high: seq<Span>, low: seq<Span>)

  /** The page while cells are added: the pointer array will end at begin, the content area begins at data. */
  ghost predicate Editing(g: Geometry, d: seq<byte>, free: seq<Span>, want: seq<seq<byte>>, dr: Draft, p: nat, w: nat,
                          begin: nat, data: nat) {
    && Space(g, d, dr.high, free) && Tiled(dr.low, data, Top(g, d)) && multiset(dr.s) == multiset(dr.high + dr.low)
    && Slots(g, d, want, dr.s, dr.held, p, w) && p <= |dr.s| == |dr.held| && Gap(g, |dr.s| + w) <= begin <= data
  }

  /** The cells have kept their bytes if those of either kind have. */
  lemma DraftKept(d: seq<byte>, d': seq<byte>, dr: Draft)
    requires multiset(dr.s) == multiset(dr.high + dr.low) && SpansKept(d, d', dr.high) && SpansKept(d, d', dr.low)
    ensures SpansKept(d, d', dr.s)
  {
    hide SpanKept;
    var u := dr.high + dr.low;
    forall k: nat | k < |dr.s|
      ensures SpanKept(d, d', At(dr.s, k))
    {
      Member(u, dr.s, k);
      var x: nat :| x < |u| && At(u, x) == At(dr.s, k);
      if x < |dr.high| {
        assert SpanKept(d, d', At(dr.high, x));
      } else {
        var y := x - |dr.high|;
        assert SpanKept(d, d', At(dr.low, y));
      }
    }
  }

  /** The draft with the i-th cell of the array, at z, in front of the p-th. */
  function Added(dr: Draft, p: nat, z: Span, i: nat, fromGap: bool): Draft
    requires p <= |dr.s| == |dr.held|
  {
    Draft(InsertAt(dr.s, p, z), InsertAt(dr.held, p, i),
          if fromGap then dr.high else dr.high + [z], if fromGap then dr.low + [z] else dr.low)
  }

  lemma InsertedBag(s: seq<Span>, p: nat, z: Span)
    requires p <= |s|
    ensures multiset(InsertAt(s, p, z)) == multiset(s) + multiset{z}
  {
    assert s == s[..p] + s[p..];
  }

  lemma AddedBag(dr: Draft, p: nat, z: Span, i: nat, fromGap: bool)
    requires p <= |dr.s| == |dr.held| && multiset(dr.s) == multiset(dr.high + dr.low)
    ensures var a := Added(dr, p, z, i, fromGap); multiset(a.s) == multiset(a.high + a.low)
  {
    InsertedBag(dr.s, p, z);
    if fromGap {
      assert dr.high + (dr.low + [z]) == dr.high + dr.low + [z];
    } else {
      assert multiset((dr.high + [z]) + dr.low) == multiset(dr.high + [z]) + multiset(dr.low);
    }
  }

  /** What pageInsertArray() writes for one cell: its bytes, and its pointer. */
  function Wrote(g: Geometry, d: seq<byte>, c: seq<byte>, z: Span, p: nat): (r: seq<byte>)
    requires |c| == z.size && z.End() <= |d| && Gap(g, p) + 2 <= z.start < 0x1_0000
    ensures |r| == |d| && Get2(r, Gap(g, p)) == z.start && CellBytes(r, z) == c
    ensures forall q {:trigger r[q]} | 0 <= q < |d| && q != Gap(g, p) && q != Gap(g, p) + 1 && !z.Has(q) :: r[q] == d[q]
  {
    var r := Put2(Copy(d, z.start, c, 0, z.size), Gap(g, p), z.start);
    assert forall x: nat | x < |c| :: CellBytes(r, z)[x] == c[x];
    r
  }

  lemma BelowKept(g: Geometry, d: seq<byte>, d': seq<byte>, low: seq<Span>, lo: nat, hi: nat)
    requires Within(low, lo, hi) && |d'| == |d| && hi <= |d| && forall q: nat | lo <= q < hi :: Kept(d, d', q)
    ensures SpansKept(d, d', low)
  {
    forall i: nat | i < |low|
      ensures SpanKept(d, d', At(low, i))
    {
      assert lo <= At(low, i).start && At(low, i).End() <= hi;
      CellKept(d, d', At(low, i));
    }
  }

  /** A cell is added in a slot of the free list. */
  lemma AddedInSlot(g: Geometry, d: seq<byte>, d1: seq<byte>, free: seq<Span>, free1: seq<Span>, want: seq<seq<byte>>,
                    dr: Draft, p: nat, w: nat, begin: nat, data: nat, z: Span, i: nat)
    requires Editing(g, d, free, want, dr, p, w, begin, data) && w >= 1
    requires Frame(g, d, d1, dr.high) && Top(g, d1) == Top(g, d) && Space(g, d1, dr.high + [z], free1)
    requires i < |want| && |want[i]| == z.size
    ensures z.End() <= |d1| && Gap(g, p) + 2 <= z.start < 0x1_0000 && |dr.s| == |dr.held|
    ensures var d2 := Wrote(g, d1, want[i], z, p);
      Editing(g, d2, free1, want, Added(dr, p, z, i, false), p + 1, w - 1, begin, data) && SpansKept(d, d2, dr.high)
      && Top(g, d2) == Top(g, d) && SameButCount(g, d, d2)
  {
    hide Wrote, Sum, Slots, Chain, Frame, Space;
    SpaceParts(g, d, dr.high, free);
    SlotBounds(g, d1, dr.high, z, free1);
    var d2 := Wrote(g, d1, want[i], z, p);
    FrameSpans(g, d, d1, dr.high, free);
    FrameBelow(g, d, d1, dr.high);
    forall q: nat | q < |d1| && !(g.CellOffset() <= q < Top(g, d1)) && !z.Has(q)
      ensures Kept(d1, d2, q)
    {
      assert d2[q] == d1[q];
    }
    TouchesSpace(g, d1, d2, dr.high, z, free1);
    SpansKeptTrans(d, d1, d2, dr.high, dr.high);
    forall q: nat | g.CellOffset() <= q < Top(g, d) && q != Gap(g, p) && q != Gap(g, p) + 1
      ensures Kept(d, d2, q)
    {
      assert Kept(d, d1, q) && d2[q] == d1[q];
    }
    BelowKept(g, d, d2, dr.low, data, Top(g, d));
    DraftKept(d, d2, dr);
    SlotsInserted(g, d, d2, want, dr.s, dr.held, p, w, z, i);
    AddedBag(dr, p, z, i, false);
    CountKept(g, d, d1, d2, dr.high, z);
  }

  lemma SlotBounds(g: Geometry, d: seq<byte>, high: seq<Span>, z: Span, free: seq<Span>)
    requires Space(g, d, high + [z], free)
    ensures Top(g, d) <= z.start && z.End() <= g.usable <= |d| && z.start < 0x1_0000 && 4 <= z.size
  {
    var u, n := high + [z], |high|;
    assert At(u, n) == z && Top(g, d) <= At(u, n).start && At(u, n).End() <= g.usable && 4 <= At(u, n).size;
  }

  lemma FrameBelow(g: Geometry, d: seq<byte>, d': seq<byte>, used: seq<Span>)
    requires Holds(g, d) && Frame(g, d, d', used)
    ensures |d'| == |d| && Kept(d, d', g.hdr)
    ensures forall q: nat | g.CellOffset() <= q < Top(g, d) && q < |d| :: Kept(d, d', q)
    ensures SameBelow(g, d, d')
  {
  }

  /** What allocation leaves alone before the pointer array and past the usable bytes. */
  ghost predicate SameBelow(g: Geometry, d: seq<byte>, d': seq<byte>)
    requires Holds(g, d)
  {
    && |d'| == |d|
    && forall q: nat | q < |d| && (q <= g.hdr || g.hdr + 8 <= q < Top(g, d) || g.usable <= q) :: Kept(d, d', q)
  }

  lemma CountKept(g: Geometry, d: seq<byte>, d1: seq<byte>, d2: seq<byte>, used: seq<Span>, z: Span)
    requires Holds(g, d) && SameBelow(g, d, d1) && Touches(g, d1, d2, z) && Top(g, d1) == Top(g, d)
    requires g.CellOffset() <= Top(g, d) <= z.start && z.End() <= g.usable
    ensures SameButCount(g, d, d2)
  {
    forall q: nat | q < |d| && ((q < g.CellOffset() && !(g.hdr + 1 <= q < g.hdr + 8)) || g.usable <= q)
      ensures Kept(d, d2, q)
    {
      assert Kept(d, d1, q) && Kept(d1, d2, q);
    }
  }

  /** A cell is added in front of the content area. */
  lemma AddedFromGap(g: Geometry, d: seq<byte>, free: seq<Span>, want: seq<seq<byte>>, dr: Draft,
                     p: nat, w: nat, begin: nat, data: nat, i: nat)
    requires Editing(g, d, free, want, dr, p, w, begin, data) && w >= 1
    requires i < |want| && 4 <= |want[i]| && begin + |want[i]| <= data
    ensures |dr.s| == |dr.held| && data <= |d| && Gap(g, p) + 2 <= data - |want[i]| < 0x1_0000
    ensures var n := |want[i]|;
      var z := Span(data - n, n);
      var d2 := Wrote(g, d, want[i], z, p);
      Editing(g, d2, free, want, Added(dr, p, z, i, true), p + 1, w - 1, begin, data - n) && SpansKept(d, d2, dr.high)
      && Top(g, d2) == Top(g, d) && SameButCount(g, d, d2)
  {
    hide Wrote, Sum, Slots, Chain, Space;
    SpaceParts(g, d, dr.high, free);
    var n := |want[i]|;
    var z := Span(data - n, n);
    var d2 := Wrote(g, d, want[i], z, p);
    forall q: nat | q < |d| && !(g.CellOffset() <= q < Top(g, d)) && !Span(0, 0).Has(q)
      ensures Kept(d, d2, q)
    {
      assert d2[q] == d[q];
    }
    TouchesPointers(g, d, d2, dr.high, free);
    forall q: nat | g.CellOffset() <= q < Top(g, d) && q != Gap(g, p) && q != Gap(g, p) + 1 && !z.Has(q)
      ensures Kept(d, d2, q)
    {
      assert d2[q] == d[q];
    }
    BelowKept(g, d, d2, dr.low, data, Top(g, d));
    DraftKept(d, d2, dr);
    SlotsInserted(g, d, d2, want, dr.s, dr.held, p, w, z, i);
    AddedBag(dr, p, z, i, true);
    TiledSnoc(dr.low, data, Top(g, d), n);
    forall q: nat | q < |d| && ((q < g.CellOffset() && !(g.hdr + 1 <= q < g.hdr + 8)) || g.usable <= q)
      ensures Kept(d, d2, q)
    {
      assert d2[q] == d[q];
    }
  }

  /** memmove() makes room in the pointer array. */
  lemma HoleMade(g: Geometry, d: seq<byte>, free: seq<Span>, want: seq<seq<byte>>, dr: Draft, p0: nat, p: nat, w: nat,
                 begin: nat, data: nat)
    requires Editing(g, d, free, want, dr, p0, 0, begin, data) && p <= |dr.s| && Gap(g, |dr.s| + w) <= begin
    ensures data <= |d|
    ensures var d' := Copy(d, Gap(g, p + w), d, Gap(g, p), 2 * (|dr.s| - p));
      Editing(g, d', free, want, dr, p, w, begin, data) && SpansKept(d, d', dr.high)
      && Top(g, d') == Top(g, d) && SameButCount(g, d, d')
  {
    hide Copy, Sum, Slots, Chain, Space;
    SpaceParts(g, d, dr.high, free);
    var d' := Copy(d, Gap(g, p + w), d, Gap(g, p), 2 * (|dr.s| - p));
    forall q: nat | q < |d| && !(g.CellOffset() <= q < begin)
      ensures Kept(d, d', q)
    {
      assert d'[q] == d[q];
    }
    TouchesPointers(g, d, d', dr.high, free);
    BelowKept(g, d, d', dr.low, data, Top(g, d));
    DraftKept(d, d', dr);
    NoHole(g, d, want, dr.s, dr.held, p0, p);
    HoleOpened(g, d, d', want, dr.s, dr.held, p, w);
  }

  /** The end of editPage(): the header says how many cells there are and where the content area begins. */
  lemma EditDone(g: Geometry, f: seq<byte> -> nat, d: seq<byte>, free: seq<Span>, want: seq<seq<byte>>, dr: Draft,
                 p: nat, begin: nat, data: nat, iNew: nat, d': seq<byte>)
    requires Editing(g, d, free, want, dr, p, 0, begin, data) && Local(f)
    requires iNew + |dr.s| <= |want| && forall k: nat | k < |dr.s| :: k < |dr.held| && dr.held[k] == iNew + k
    requires forall i: nat | i < |want| :: SizeIs(f, want, i)
    requires data <= 0x1_0000 && d' == Put2(Put2(d, g.hdr + 3, |dr.s|), g.hdr + 5, data)
    ensures PageOk(g, f, d', |dr.s|, g.usable - Gap(g, |dr.s|) - Sum(dr.s), dr.s, free)
    ensures (forall i: nat | i < |dr.s| :: At(dr.s, i).End() <= |d'|) && Contents(d', dr.s) == want[iNew..iNew + |dr.s|]
    ensures SameButCount(g, d, d')
  {
    hide Put2, Sum, Slots, Chain, Space, Tiled, Layout;
    SpaceParts(g, d, dr.high, free);
    var n := |dr.s|;
    SmallCount(g, n, begin, data, Top(g, d), dr.low);
    var d1 := Put2(d, g.hdr + 3, n);
    CountWritten(g, d, d1, dr, free, data);
    SpaceLonger(g, d1, dr.high, dr.low, free, data);
    SpacePerm(g, d', dr.high + dr.low, dr.s, free);
    forall q: nat | q < |d| && !(g.hdr + 3 <= q < g.hdr + 7)
      ensures Kept(d, d', q)
    {
      assert d'[q] == d1[q] == d[q];
    }
    DoneSlots(g, f, d, want, dr, p, free, iNew, d');
    CountRead(d, g.hdr + 3, n, g.hdr + 5, data);
  }

  ghost predicate SizeIs(f: seq<byte> -> nat, want: seq<seq<byte>>, i: nat) {
    i < |want| && f(want[i]) == |want[i]| && 4 <= |want[i]|
  }

  lemma CountRead(d: seq<byte>, p: nat, n: nat, q: nat, v: nat)
    requires p + 1 < |d| && q + 1 < |d| && q == p + 2 && n < 0x1_0000
    ensures Get2(Put2(Put2(d, p, n), q, v), p) == n
  {
  }

  lemma SmallCount(g: Geometry, n: nat, begin: nat, data: nat, top: nat, low: seq<Span>)
    requires g.Valid() && Gap(g, n) <= begin <= data && Tiled(low, data, top) && top <= g.usable
    ensures n < 0x1_0000 && data <= top
  {
  }

  lemma CountWritten(g: Geometry, d: seq<byte>, d1: seq<byte>, dr: Draft, free: seq<Span>, data: nat)
    requires Space(g, d, dr.high, free) && d1 == Put2(d, g.hdr + 3, |dr.s|) && Tiled(dr.low, data, Top(g, d))
    ensures Space(g, d1, dr.high, free) && Top(g, d1) == Top(g, d)
  {
    hide Put2, Sum;
    forall q: nat | g.hdr + 1 <= q < g.hdr + 3 || g.hdr + 5 <= q < g.hdr + 8
      ensures Kept(d, d1, q)
    {
      assert d1[q] == d[q];
    }
    forall k: nat, q: nat | k < |free| && q < |d| && At(free, k).start <= q < At(free, k).start + 4
      ensures Kept(d, d1, q)
    {
      assert Top(g, d) + 1 <= At(free, k).start;
      assert d1[q] == d[q];
    }
    SpaceKept(g, d, d1, dr.high, free);
  }

  lemma DoneSlots(g: Geometry, f: seq<byte> -> nat, d: seq<byte>, want: seq<seq<byte>>, dr: Draft, p: nat,
                  free: seq<Span>, iNew: nat, d': seq<byte>)
    requires Slots(g, d, want, dr.s, dr.held, p, 0) && |d'| == |d| && Space(g, d', dr.s, free)
    requires iNew + |dr.s| <= |want| && forall k: nat | k < |dr.s| :: dr.held[k] == iNew + k
    requires forall i: nat | i < |want| :: SizeIs(f, want, i)
    requires forall q: nat | q < |d| && !(g.hdr + 1 <= q < g.hdr + 8) :: Kept(d, d', q)
    ensures Indexed(g, f, d', dr.s)
    ensures (forall i: nat | i < |dr.s| :: At(dr.s, i).End() <= |d'|) && Contents(d', dr.s) == want[iNew..iNew + |dr.s|]
  {
    hide Get2, Chain, Sum;
    forall k: nat | k < |dr.s|
      ensures CellAt(g, f, d', dr.s, k) && CellBytes(d', At(dr.s, k)) == want[iNew + k]
    {
      assert SlotOk(g, d, want, dr.s, dr.held, p, 0, k);
      assert g.CellOffset() <= Top(g, d') <= At(dr.s, k).start;
      forall q: nat | At(dr.s, k).start <= q < At(dr.s, k).End()
        ensures Kept(d, d', q)
      {
      }
      CellKept(d, d', At(dr.s, k));
      var q := PtrPos(g, p, 0, k);
      assert Kept(d, d', q) && Kept(d, d', q + 1);
      TwoKept(d, d', q);
      var i := iNew + k;
      assert SizeIs(f, want, i);
    }
  }
}
