/** Cells entering and leaving a page: what the bookkeeping says before and after. */
module PageEdit {
  import opened Bytes
  import opened Spans
  import opened PageLayout
  import opened PageCells

  /** A write that misses the bookkeeping leaves it right. */
  lemma SpaceKept(g: Geometry, d: seq<byte>, d': seq<byte>, used: seq<Span>, free: seq<Span>)
    requires Space(g, d, used, free) && |d'| == |d|
    requires forall q: nat | g.hdr + 1 <= q < g.hdr + 3 || g.hdr + 5 <= q < g.hdr + 8 :: Kept(d, d', q)
    requires forall k: nat, q: nat | k < |free| && q < |d| && At(free, k).start <= q < At(free, k).start + 4 ::
      Kept(d, d', q)
    ensures Space(g, d', used, free) && Top(g, d') == Top(g, d)
  {
    assert Kept(d, d', g.hdr + 1) && Kept(d, d', g.hdr + 2);
    assert Kept(d, d', g.hdr + 5) && Kept(d, d', g.hdr + 6) && Kept(d, d', g.hdr + 7);
    forall k: nat | k < |free| ensures NodeAt(g, d', free, k) {
      assert NodeAt(g, d, free, k);
      var p := At(free, k).start;
      assert Kept(d, d', p) && Kept(d, d', p + 1) && Kept(d, d', p + 2) && Kept(d, d', p + 3);
      NodeKeptQ(g, d, free, k, d', free, k);
    }
  }

  /** The order of the ranges in use does not matter. */
  lemma SpaceReorder(g: Geometry, d: seq<byte>, cells: seq<Span>, z: Span, i: nat, free: seq<Span>)
    requires Space(g, d, cells + [z], free) && i <= |cells|
    ensures Space(g, d, cells[..i] + [z] + cells[i..], free)
  {
    var u, v := cells + [z], cells[..i] + [z] + cells[i..];
    SumSplice(cells, i, i, z);
    SumSnoc(cells, z);
    assert cells[i..i] == [];
    forall x: nat | x < |v| ensures At(v, x) == At(u, if x < i then x else if x == i then |cells| else x - 1) {}
    forall x: nat, y: nat | x < y < |v| ensures Apart(At(v, x), At(v, y)) {
      var ux := if x < i then x else if x == i then |cells| else x - 1;
      var uy := if y < i then y else if y == i then |cells| else y - 1;
      if ux < uy { assert Apart(At(u, ux), At(u, uy)); } else { assert Apart(At(u, uy), At(u, ux)); }
    }
    forall x: nat, y: nat | x < |v| && y < |free| ensures Apart(At(v, x), At(free, y)) {
      assert Apart(At(u, if x < i then x else if x == i then |cells| else x - 1), At(free, y));
    }
  }

  /** A write confined to the frame of the cells keeps every cell and its pointer. */
  lemma FrameMoves(g: Geometry, f: seq<byte> -> nat, d: seq<byte>, nCell: nat, nFree: int, cells: seq<Span>,
                   free: seq<Span>, d': seq<byte>)
    requires PageOk(g, f, d, nCell, nFree, cells, free) && Frame(g, d, d', cells)
    ensures Moved(g, d, d', cells, cells) && SameHeader(g, d, d')
  {
    forall i: nat | i < |cells| ensures MovedAt(g, d, d', cells, cells, i) {
      assert CellAt(g, f, d, cells, i) && 4 <= At(cells, i).size;
      var p, z := g.CellOffset() + 2 * i, At(cells, i);
      assert Kept(d, d', p) && Kept(d, d', p + 1);
      forall q: nat | z.start <= q < z.End() ensures Kept(d, d', q) { assert At(cells, i).Has(q); }
      CellKept(d, d', z);
    }
  }

  /** Cells that have not moved are still indexed, whatever became of the free space. */
  lemma MovedOk(g: Geometry, f: seq<byte> -> nat, d: seq<byte>, nCell: nat, nFree: int, cells: seq<Span>,
                free: seq<Span>, d': seq<byte>, free': seq<Span>)
    requires PageOk(g, f, d, nCell, nFree, cells, free)
    requires Moved(g, d, d', cells, cells) && SameHeader(g, d, d')
    requires Space(g, d', cells, free') && Top(g, d) <= Top(g, d')
    ensures PageOk(g, f, d', nCell, nFree, cells, free')
  {
    assert Kept(d, d', g.hdr + 3) && Kept(d, d', g.hdr + 4);
    MovedIndexed(g, f, d, cells, d', cells);
  }

  lemma MovedIndexed(g: Geometry, f: seq<byte> -> nat, d: seq<byte>, cells: seq<Span>, d': seq<byte>, cells': seq<Span>)
    requires Indexed(g, f, d, cells) && Moved(g, d, d', cells, cells')
    ensures Indexed(g, f, d', cells')
  {
    forall i: nat | i < |cells'| ensures CellAt(g, f, d', cells', i) {
      assert CellAt(g, f, d, cells, i) && MovedAt(g, d, d', cells, cells', i);
    }
  }

  lemma MovedTrans(g: Geometry, d: seq<byte>, d1: seq<byte>, d2: seq<byte>, a: seq<Span>, b: seq<Span>, c: seq<Span>)
    requires Moved(g, d, d1, a, b) && Moved(g, d1, d2, b, c)
    requires SameHeader(g, d, d1) && SameHeader(g, d1, d2)
    ensures Moved(g, d, d2, a, c) && SameHeader(g, d, d2)
  {
    forall i: nat | i < |a| ensures MovedAt(g, d, d2, a, c, i) {
      assert MovedAt(g, d, d1, a, b, i) && MovedAt(g, d1, d2, b, c, i);
    }
    forall q: nat | q < |d|
      && ((q < g.CellOffset() && q != g.hdr + 1 && q != g.hdr + 2 && !(g.hdr + 5 <= q < g.hdr + 8)) || g.usable <= q)
      ensures Kept(d, d2, q) { assert Kept(d, d1, q) && Kept(d1, d2, q); }
  }

  /** Cells that kept their bytes kept the contents of the page. */
  lemma MovedContents(g: Geometry, d: seq<byte>, d': seq<byte>, cells: seq<Span>, cells': seq<Span>)
    requires Moved(g, d, d', cells, cells')
    ensures forall i: nat | i < |cells| :: At(cells, i).End() <= |d|
    ensures forall i: nat | i < |cells'| :: At(cells', i).End() <= |d'|
    ensures Contents(d', cells') == Contents(d, cells)
  {
    forall i: nat | i < |cells| ensures At(cells, i).End() <= |d| && At(cells', i).End() <= |d'| {
      assert MovedAt(g, d, d', cells, cells', i);
    }
    forall i: nat | i < |cells| ensures Contents(d', cells')[i] == Contents(d, cells)[i] {
      assert MovedAt(g, d, d', cells, cells', i);
    }
  }

  /** Taking n bytes from the gap. */
  lemma GapSound(g: Geometry, d: seq<byte>, used: seq<Span>, free: seq<Span>, n: nat)
    requires Space(g, d, used, free) && 4 <= n && g.CellOffset() + n <= Top(g, d)
    ensures var d' := Put2(d, g.hdr + 5, Top(g, d) - n);
      && Space(g, d', used + [Span(Top(g, d) - n, n)], free)
      && Top(g, d') == Top(g, d) - n
      && Frame(g, d, d', used)
  {
    hide Put2, Sum, Layout;
    var top, d', z := Top(g, d), Put2(d, g.hdr + 5, Top(g, d) - n), Span(Top(g, d) - n, n);
    SpaceParts(g, d, used, free);
    SumSnoc(used, z);
    LayoutInside(top, g.usable, used, free);
    FrameOfHeader(g, d, d', used);
    forall k: nat | k < |free| ensures NodeAt(g, d', free, k) {
      assert NodeAt(g, d, free, k);
      NodeKept(g, d, free, k, d', free, k);
    }
    LayoutGap(top, g.usable, used, free, n);
  }

  lemma LayoutInside(top: nat, hi: nat, used: seq<Span>, free: seq<Span>)
    requires Layout(top, hi, used, free)
    ensures Within(used, top, hi)
  {
  }

  lemma LayoutGap(top: nat, hi: nat, used: seq<Span>, free: seq<Span>, n: nat)
    requires Layout(top, hi, used, free) && 4 <= n <= top <= hi
    ensures Layout(top - n, hi, used + [Span(top - n, n)], free)
  {
    var z := Span(top - n, n);
    var u := used + [z];
    forall i: nat | i < |u| ensures At(u, i) == if i < |used| then At(used, i) else z {}
    forall i: nat | i < |free| ensures top < At(free, i).start {}
    forall i: nat, j: nat | i < |u| && j < |free| ensures Apart(At(u, i), At(free, j)) {
      if i < |used| { assert Apart(At(used, i), At(free, j)); }
    }
    forall i: nat, j: nat | i < j < |u| ensures Apart(At(u, i), At(u, j)) {
      if j < |used| { assert Apart(At(used, i), At(used, j)); }
    }
  }

  // ---- insertCell ------------------------------------------------------------------------------

  /** What insertCell() writes once it has a slot: the cell, the shifted pointer array, the new
      pointer and the cell count. */
  function Inserted(g: Geometry, d: seq<byte>, nCell: nat, i: nat, z: Span, c: seq<byte>): (r: seq<byte>)
    requires Holds(g, d) && i <= nCell && Gap(g, nCell) + 2 <= z.start && z.End() <= g.usable && |c| == z.size
    requires nCell + 1 < 0x1_0000 && z.start < 0x1_0000
    ensures |r| == |d|
  {
    var ptr := g.CellOffset() + 2 * i;
    Spliced(d, z.start, c, ptr, 2 * (nCell - i), z.start, g.hdr + 3, nCell + 1)
  }

  /** c written at place at, n bytes of pointers moved up from p, v put in front of them and m at place h. */
  function Spliced(d: seq<byte>, at: nat, c: seq<byte>, p: nat, n: nat, v: nat, h: nat, m: nat): (r: seq<byte>)
    requires at + |c| <= |d| && p + 2 + n <= |d| && h + 1 < |d|
    ensures |r| == |d|
  {
    Put2(Put2(Shifted2(Copy(d, at, c, 0, |c|), p, n), p, v), h, m)
  }

  /** memmove() of n bytes by the width of a pointer. */
  function Shifted2(d: seq<byte>, p: nat, n: nat): (r: seq<byte>)
    requires p + 2 + n <= |d|
    ensures |r| == |d|
    ensures forall q {:trigger r[q]} | 0 <= q < |d| :: r[q] == if p + 2 <= q < p + 2 + n then d[q - 2] else d[q]
  {
    Copy(d, p + 2, d, p, n)
  }

  lemma InsertedBytes(g: Geometry, d: seq<byte>, nCell: nat, i: nat, z: Span, c: seq<byte>)
    requires Holds(g, d) && i <= nCell && Gap(g, nCell) + 2 <= z.start && z.End() <= g.usable && |c| == z.size
    requires nCell + 1 < 0x1_0000 && z.start < 0x1_0000
    ensures var ptr := g.CellOffset() + 2 * i;
      var r := Spliced(d, z.start, c, ptr, 2 * (nCell - i), z.start, g.hdr + 3, nCell + 1);
      && |r| == |d| && Get2(r, g.hdr + 3) == nCell + 1 && Get2(r, ptr) == z.start && CellBytes(r, z) == c
      && (forall q: nat {:trigger r[q]} | q < |d| && !(z.start <= q < z.End()) && !(g.hdr + 3 <= q < g.hdr + 5)
            && !(ptr <= q < Gap(g, nCell) + 2) :: r[q] == d[q])
      && forall q: nat {:trigger r[q]} | ptr + 2 <= q < Gap(g, nCell) + 2 :: r[q] == d[q - 2]
  {
    hide Put2, Copy, Shifted2, Get2;
    var ptr := g.CellOffset() + 2 * i;
    var d2 := Copy(d, z.start, c, 0, |c|);
    var d3 := Shifted2(d2, ptr, 2 * (nCell - i));
    var d4 := Put2(d3, ptr, z.start);
    var r := Put2(d4, g.hdr + 3, nCell + 1);
    forall x: nat | x < |c|
      ensures CellBytes(r, z)[x] == c[x]
    {
      var q := z.start + x;
      assert r[q] == d4[q] == d3[q] == d2[q] == c[x];
    }
    assert CellBytes(r, z) == c;
    assert r[ptr] == d4[ptr] && r[ptr + 1] == d4[ptr + 1];
    PointerSame(d4, r, ptr);
    forall q: nat | q < |d| && !(g.hdr + 3 <= q < g.hdr + 5) && q != ptr && q != ptr + 1
      ensures r[q] == d3[q]
    {
      assert r[q] == d4[q];
    }
  }

  lemma PointerSame(d: seq<byte>, r: seq<byte>, p: nat)
    requires p + 1 < |d| == |r| && r[p] == d[p] && r[p + 1] == d[p + 1]
    ensures Get2(r, p) == Get2(d, p)
  {
  }

  lemma InsertedIs(g: Geometry, d: seq<byte>, nCell: nat, i: nat, z: Span, c: seq<byte>)
    requires Holds(g, d) && i <= nCell && Gap(g, nCell) + 2 <= z.start && z.End() <= g.usable && |c| == z.size
    requires nCell + 1 < 0x1_0000 && z.start < 0x1_0000
    ensures var r := Inserted(g, d, nCell, i, z, c);
      && Get2(r, g.hdr + 3) == nCell + 1 && Get2(r, g.CellOffset() + 2 * i) == z.start && CellBytes(r, z) == c
      && (forall q: nat {:trigger r[q]} | q < |d| && !(z.start <= q < z.End()) && !(g.hdr + 3 <= q < g.hdr + 5)
            && !(g.CellOffset() + 2 * i <= q < Gap(g, nCell) + 2) :: r[q] == d[q])
      && forall q: nat {:trigger r[q]} | g.CellOffset() + 2 * i + 2 <= q < Gap(g, nCell) + 2 :: r[q] == d[q - 2]
  {
    hide Spliced, Get2, CellBytes;
    InsertedBytes(g, d, nCell, i, z, c);
  }

  function InsertAt<T>(s: seq<T>, i: nat, x: T): (r: seq<T>)
    requires i <= |s|
    ensures |r| == |s| + 1
    ensures forall j: nat {:trigger r[j]} | j < |r| :: r[j] == if j < i then s[j] else if j == i then x else s[j - 1]
  {
    s[..i] + [x] + s[i..]
  }

  lemma PointerAt(d: seq<byte>, p: nat, r: seq<byte>, q: nat)
    requires p + 1 < |d| && q + 1 < |r| && r[q] == d[p] && r[q + 1] == d[p + 1]
    ensures Get2(r, q) == Get2(d, p)
  {
  }

  lemma InsertedCell(g: Geometry, f: seq<byte> -> nat, d: seq<byte>, cells: seq<Span>, free: seq<Span>, i: nat, z: Span,
                     c: seq<byte>, x: nat)
    requires Space(g, d, cells + [z], free) && Indexed(g, f, d, cells) && x <= |cells|
    requires i <= |cells| && Gap(g, |cells|) + 2 <= Top(g, d) && z.End() <= g.usable && Top(g, d) <= z.start < 0x1_0000
    requires |cells| + 1 < 0x1_0000 && |c| == z.size && f(c) == |c|
    ensures var r := Inserted(g, d, |cells|, i, z, c);
      && InsertAt(cells, i, z)[x].End() <= |d|
      && CellAt(g, f, r, InsertAt(cells, i, z), x)
      && CellBytes(r, InsertAt(cells, i, z)[x]) == if x < i then CellBytes(d, cells[x]) else if x == i then c
        else CellBytes(d, cells[x - 1])
  {
    hide Inserted, Sum, Chain, Spans.Ascending, CrossApart, Get2NotZero, Get2;
    InsertedIs(g, d, |cells|, i, z, c);
    var r, v, u := Inserted(g, d, |cells|, i, z, c), InsertAt(cells, i, z), cells + [z];
    assert At(u, |cells|) == z;
    if x != i {
      var y := if x < i then x else x - 1;
      assert CellAt(g, f, d, cells, y);
      assert At(u, y) == cells[y] && v[x] == cells[y];
      assert Apart(At(u, y), At(u, |cells|)) && 4 <= At(u, y).size && 4 <= At(u, |cells|).size;
      forall q: nat | cells[y].start <= q < cells[y].End() ensures Kept(d, r, q) {}
      CellKept(d, r, cells[y]);
      var p, q := g.CellOffset() + 2 * y, g.CellOffset() + 2 * x;
      assert r[q] == d[p] && r[q + 1] == d[p + 1];
      PointerAt(d, p, r, q);
    }
  }

  lemma InsertedSpace(g: Geometry, d: seq<byte>, cells: seq<Span>, free: seq<Span>, i: nat, z: Span, c: seq<byte>)
    requires Space(g, d, cells + [z], free)
    requires i <= |cells| && Gap(g, |cells|) + 2 <= Top(g, d) && z.End() <= g.usable && Top(g, d) <= z.start < 0x1_0000
    requires |cells| + 1 < 0x1_0000 && |c| == z.size
    ensures Space(g, Inserted(g, d, |cells|, i, z, c), InsertAt(cells, i, z), free)
    ensures Top(g, Inserted(g, d, |cells|, i, z, c)) == Top(g, d)
  {
    hide Inserted;
    InsertedIs(g, d, |cells|, i, z, c);
    var r, u := Inserted(g, d, |cells|, i, z, c), cells + [z];
    assert At(u, |cells|) == z;
    forall q: nat | g.hdr + 1 <= q < g.hdr + 3 || g.hdr + 5 <= q < g.hdr + 8 ensures Kept(d, r, q) {}
    forall k: nat, q: nat | k < |free| && q < |d| && At(free, k).start <= q < At(free, k).start + 4
      ensures Kept(d, r, q)
    {
      assert Apart(At(u, |cells|), At(free, k));
      assert 4 <= At(free, k).size;
    }
    SpaceKept(g, d, r, u, free);
    SpaceReorder(g, r, cells, z, i, free);
  }

  lemma InsertedSum(cells: seq<Span>, i: nat, z: Span)
    requires i <= |cells|
    ensures Sum(InsertAt(cells, i, z)) == Sum(cells) + z.size
  {
    SumSplice(cells, i, i, z);
    assert cells[i..i] == [];
  }

  /** The page after insertCell(). */
  lemma InsertSound(g: Geometry, f: seq<byte> -> nat, d: seq<byte>, nFree: int, cells: seq<Span>, free: seq<Span>,
                    i: nat, z: Span, c: seq<byte>)
    requires Local(f) && Space(g, d, cells + [z], free) && Indexed(g, f, d, cells)
    requires i <= |cells| && Gap(g, |cells|) + 2 <= Top(g, d) && z.End() <= g.usable && Top(g, d) <= z.start < 0x1_0000
    requires |cells| + 1 < 0x1_0000 && |c| == z.size && f(c) == |c|
    requires nFree == g.usable - Gap(g, |cells|) - Sum(cells)
    ensures var r, v := Inserted(g, d, |cells|, i, z, c), InsertAt(cells, i, z);
      && PageOk(g, f, r, |cells| + 1, nFree - 2 - |c|, v, free)
      && (forall x: nat | x < |v| :: At(v, x).End() <= |r|)
      && (forall x: nat | x < |cells| :: At(cells, x).End() <= |d|)
      && Contents(r, v) == InsertAt(Contents(d, cells), i, c)
  {
    hide Inserted, Sum, CellBytes, Layout, Chain, Get2, Get2NotZero;
    var r, v := Inserted(g, d, |cells|, i, z, c), InsertAt(cells, i, z);
    InsertedSpace(g, d, cells, free, i, z, c);
    InsertedSum(cells, i, z);
    InsertedIs(g, d, |cells|, i, z, c);
    forall x: nat | x < |v| ensures CellAt(g, f, r, v, x) && At(v, x).End() <= |r| {
      InsertedCell(g, f, d, cells, free, i, z, c, x);
    }
    forall x: nat | x < |cells| ensures At(cells, x).End() <= |d| { assert CellAt(g, f, d, cells, x); }
    var a, b := Contents(r, v), InsertAt(Contents(d, cells), i, c);
    forall x: nat | x < |a| ensures a[x] == b[x] {
      InsertedCell(g, f, d, cells, free, i, z, c, x);
      assert At(v, x) == v[x];
      assert x < i ==> At(cells, x) == cells[x];
      assert x > i ==> At(cells, x - 1) == cells[x - 1];
    }
  }

  /** The cell as it is stored: a child page number, when there is one, goes over its first bytes. */
  function Filled(c: seq<byte>, iChild: nat): (r: seq<byte>)
    requires 4 <= |c|
    ensures StoredAs(c, iChild, r)
  {
    if iChild != 0 then Put4(c, 0, iChild) else c
  }

  /** Cell r is c, unless there is a child page number, which is then in the first four bytes, and nothing else has
      changed. */
  predicate StoredAs(c: seq<byte>, iChild: nat, r: seq<byte>) {
    && |r| == |c| && (iChild == 0 ==> r == c)
    && (iChild != 0 && 4 <= |c| ==> r[4..] == c[4..] && (iChild < 0x1_0000_0000 ==> Get4(r, 0) == iChild))
  }

  lemma FilledInPlace(d: seq<byte>, idx: nat, c: seq<byte>, iChild: nat)
    requires 4 <= |c| && idx + |c| <= |d| && iChild != 0
    ensures Put4(Copy(d, idx, c, 0, |c|), idx, iChild) == Copy(d, idx, Filled(c, iChild), 0, |c|)
  {
    var a, b := Put4(Copy(d, idx, c, 0, |c|), idx, iChild), Copy(d, idx, Filled(c, iChild), 0, |c|);
    forall q | 0 <= q < |d| ensures a[q] == b[q] {}
  }

  lemma MovedSum(g: Geometry, d: seq<byte>, d': seq<byte>, cells: seq<Span>, cells': seq<Span>)
    requires Moved(g, d, d', cells, cells')
    ensures Sum(cells') == Sum(cells)
  {
    forall i: nat | i < |cells| ensures At(cells', i).size == At(cells, i).size {
      assert MovedAt(g, d, d', cells, cells', i);
    }
    SumPointwise(cells', cells);
  }

  /** The file header, the flags, the right child and what lies past the usable bytes are as before. */
  ghost predicate SameButCount(g: Geometry, d: seq<byte>, d': seq<byte>) {
    && |d'| == |d|
    && g.CellOffset() <= |d|
    && (forall q: nat | q < g.CellOffset() && !(g.hdr + 1 <= q < g.hdr + 8) :: Kept(d, d', q))
    && (forall q: nat | g.usable <= q < |d| :: Kept(d, d', q))
  }

  lemma InsertedCount(g: Geometry, d0: seq<byte>, d: seq<byte>, nCell: nat, i: nat, z: Span, c: seq<byte>)
    requires Holds(g, d) && i <= nCell && Gap(g, nCell) + 2 <= z.start && z.End() <= g.usable && |c| == z.size
    requires nCell + 1 < 0x1_0000 && z.start < 0x1_0000
    requires SameHeader(g, d0, d)
    ensures SameButCount(g, d0, Inserted(g, d, nCell, i, z, c))
  {
    hide Inserted;
    InsertedIs(g, d, nCell, i, z, c);
    var r := Inserted(g, d, nCell, i, z, c);
    forall q: nat | (q < g.CellOffset() && !(g.hdr + 1 <= q < g.hdr + 8)) || g.usable <= q < |d|
      ensures Kept(d0, r, q)
    {
      assert Kept(d0, d, q);
      assert r[q] == d[q];
    }
  }

  /** What insertCell() may rely on after allocateSpace(). */
  lemma AllocatedOk(g: Geometry, f: seq<byte> -> nat, d: seq<byte>, nFree: int, cells: seq<Span>, free: seq<Span>,
                    d': seq<byte>, cells': seq<Span>)
    requires PageOk(g, f, d, |cells|, nFree, cells, free)
    requires Moved(g, d, d', cells, cells') && SameHeader(g, d, d')
    ensures Indexed(g, f, d', cells') && |cells'| == |cells| && Sum(cells') == Sum(cells)
    ensures Get2(d', g.hdr + 3) == |cells|
    ensures |cells| + 1 < 0x1_0000
    ensures forall i: nat | i < |cells| :: At(cells, i).End() <= |d|
    ensures forall i: nat | i < |cells'| :: At(cells', i).End() <= |d'|
    ensures Contents(d', cells') == Contents(d, cells)
  {
    MovedIndexed(g, f, d, cells, d', cells');
    MovedSum(g, d, d', cells, cells');
    MovedContents(g, d, d', cells, cells');
    assert Kept(d, d', g.hdr + 3) && Kept(d, d', g.hdr + 4);
  }

  // ---- dropCell --------------------------------------------------------------------------------

  /** What dropCell() writes after the space is released: the closed pointer array and the count n. */
  function Dropped(g: Geometry, d: seq<byte>, n: nat, i: nat): (r: seq<byte>)
    requires Holds(g, d) && i <= n && Gap(g, n) + 2 <= |d| && n < 0x1_0000
    ensures |r| == |d|
    ensures Get2(r, g.hdr + 3) == n
    ensures forall q {:trigger r[q]} | 0 <= q < |d| && !(g.hdr + 3 <= q < g.hdr + 5)
      && !(g.CellOffset() + 2 * i <= q < Gap(g, n)) :: r[q] == d[q]
    ensures forall q {:trigger r[q]} | g.CellOffset() + 2 * i <= q < Gap(g, n) :: r[q] == d[q + 2]
  {
    var ptr := g.CellOffset() + 2 * i;
    Put2(Copy(d, ptr, d, ptr + 2, 2 * (n - i)), g.hdr + 3, n)
  }

  function RemoveAt<T>(s: seq<T>, i: nat): (r: seq<T>)
    requires i < |s|
    ensures |r| == |s| - 1
    ensures forall j: nat {:trigger r[j]} | j < |r| :: r[j] == if j < i then s[j] else s[j + 1]
  {
    s[..i] + s[i + 1..]
  }

  lemma CellsInside(g: Geometry, f: seq<byte> -> nat, d: seq<byte>, nFree: int, cells: seq<Span>, free: seq<Span>)
    requires PageOk(g, f, d, |cells|, nFree, cells, free)
    ensures g.CellOffset() + 2 * |cells| <= Top(g, d) <= g.usable <= |d| && g.usable <= 0x1_0000
    ensures forall i: nat | i < |cells| ::
      Top(g, d) <= At(cells, i).start && 4 <= At(cells, i).size && At(cells, i).End() <= g.usable
  {
  }

  lemma DroppedCell(g: Geometry, f: seq<byte> -> nat, d0: seq<byte>, nFree: int, cells: seq<Span>, free0: seq<Span>,
                    d: seq<byte>, free: seq<Span>, i: nat, x: nat)
    requires PageOk(g, f, d0, |cells|, nFree, cells, free0) && i < |cells| && x + 1 < |cells|
    requires Space(g, d, Without(cells, i), free) && Frame(g, d0, d, Without(cells, i))
    ensures Gap(g, |cells|) <= g.usable && |cells| < 0x1_0000
    ensures var r, v := Dropped(g, d, |cells| - 1, i), Without(cells, i);
      && CellAt(g, f, r, v, x)
      && At(v, x).End() <= |r| && At(cells, if x < i then x else x + 1).End() <= |d0|
      && CellBytes(r, At(v, x)) == CellBytes(d0, At(cells, if x < i then x else x + 1))
  {
    hide Dropped, Sum, Get2, Chain, Layout, Get2NotZero;
    CellsInside(g, f, d0, nFree, cells, free0);
    var r, v, y := Dropped(g, d, |cells| - 1, i), Without(cells, i), if x < i then x else x + 1;
    assert CellAt(g, f, d0, cells, y);
    var z := At(v, x);
    assert z == At(cells, y) && 4 <= z.size;
    forall q: nat | z.start <= q < z.End() ensures Kept(d0, r, q) {
      assert z.Has(q);
      assert Kept(d0, d, q);
    }
    CellKept(d0, r, z);
    var p := g.CellOffset() + 2 * y;
    assert Kept(d0, d, p) && Kept(d0, d, p + 1);
    var p' := g.CellOffset() + 2 * x;
    assert r[p'] == d0[p] && r[p' + 1] == d0[p + 1];
    PointerAt(d0, p, r, p');
  }

  /** The page after dropCell(), when a cell is left. */
  lemma DropSound(g: Geometry, f: seq<byte> -> nat, d0: seq<byte>, nFree: int, cells: seq<Span>, free0: seq<Span>,
                  d: seq<byte>, free: seq<Span>, i: nat)
    requires PageOk(g, f, d0, |cells|, nFree, cells, free0) && i < |cells|
    requires Space(g, d, Without(cells, i), free) && Frame(g, d0, d, Without(cells, i)) && Top(g, d0) <= Top(g, d)
    ensures Gap(g, |cells|) <= g.usable && |cells| < 0x1_0000
    ensures var r, v := Dropped(g, d, |cells| - 1, i), Without(cells, i);
      && PageOk(g, f, r, |cells| - 1, nFree + cells[i].size + 2, v, free)
      && (forall x: nat | x < |v| :: At(v, x).End() <= |r|)
      && (forall x: nat | x < |cells| :: At(cells, x).End() <= |d0|)
      && Contents(r, v) == RemoveAt(Contents(d0, cells), i)
  {
    hide Dropped, Frame, Chain, Layout, Sum;
    var r, v := Dropped(g, d, |cells| - 1, i), Without(cells, i);
    DroppedSpace(g, d, v, free, |cells| - 1, i);
    SumSplit(cells, i);
    forall x: nat | x < |v| ensures CellAt(g, f, r, v, x) && At(v, x).End() <= |r| {
      DroppedCell(g, f, d0, nFree, cells, free0, d, free, i, x);
    }
    forall x: nat | x < |cells| ensures At(cells, x).End() <= |d0| { assert CellAt(g, f, d0, cells, x); }
    var a, b := Contents(r, v), RemoveAt(Contents(d0, cells), i);
    forall x: nat | x < |a| ensures a[x] == b[x] {
      DroppedCell(g, f, d0, nFree, cells, free0, d, free, i, x);
    }
  }

  lemma DroppedSpace(g: Geometry, d: seq<byte>, used: seq<Span>, free: seq<Span>, n: nat, i: nat)
    requires Space(g, d, used, free) && i <= n < 0x1_0000 && Gap(g, n) <= Top(g, d) && Gap(g, n) + 2 <= |d|
    ensures Space(g, Dropped(g, d, n, i), used, free) && Top(g, Dropped(g, d, n, i)) == Top(g, d)
  {
    hide Dropped;
    var r := Dropped(g, d, n, i);
    forall q: nat | g.hdr + 1 <= q < g.hdr + 3 || g.hdr + 5 <= q < g.hdr + 8 ensures Kept(d, r, q) {}
    forall k: nat, q: nat | k < |free| && q < |d| && At(free, k).start <= q < At(free, k).start + 4
      ensures Kept(d, r, q)
    {}
    SpaceKept(g, d, r, used, free);
  }

  /** What dropCell() reads. */
  lemma CellAtPtr(g: Geometry, f: seq<byte> -> nat, d: seq<byte>, nFree: int, cells: seq<Span>, free: seq<Span>, i: nat)
    requires PageOk(g, f, d, |cells|, nFree, cells, free) && i < |cells|
    ensures g.CellOffset() + 2 * i + 2 <= Gap(g, |cells|) <= g.usable <= |d|
    ensures Get2(d, g.CellOffset() + 2 * i) == cells[i].start
    ensures 4 <= cells[i].size && cells[i].End() <= g.usable
  {
    assert CellAt(g, f, d, cells, i) && At(cells, i) == cells[i] && 4 <= At(cells, i).size;
  }

  lemma OnlyOne(cells: seq<Span>, i: nat)
    requires i < |cells| == 1
    ensures Sum(cells) == cells[i].size
  {
    assert cells[..0] == [];
  }

  lemma DroppedCount(g: Geometry, d0: seq<byte>, d: seq<byte>, cells: seq<Span>, i: nat)
    requires Holds(g, d0) && g.CellOffset() <= Top(g, d0) && i < |cells| < 0x1_0000 && Gap(g, |cells|) <= g.usable
    requires Frame(g, d0, d, Without(cells, i))
    ensures SameButCount(g, d0, d)
    ensures SameButCount(g, d0, Dropped(g, d, |cells| - 1, i))
  {
    hide Dropped;
    var r := Dropped(g, d, |cells| - 1, i);
    forall q: nat | (q < g.CellOffset() && !(g.hdr + 1 <= q < g.hdr + 8)) || g.usable <= q < |d|
      ensures Kept(d0, d, q) && Kept(d0, r, q)
    {
      assert Kept(d0, d, q);
      assert r[q] == d[q];
    }
  }

  lemma ResetCount(g: Geometry, d0: seq<byte>, d: seq<byte>, d': seq<byte>)
    requires g.Valid() && SameButCount(g, d0, d) && |d'| == |d|
    requires forall q: nat | q < |d| && !(g.hdr + 1 <= q < g.hdr + 8) :: Kept(d, d', q)
    ensures SameButCount(g, d0, d')
  {
    forall q: nat | (q < g.CellOffset() && !(g.hdr + 1 <= q < g.hdr + 8)) || g.usable <= q < |d|
      ensures Kept(d0, d', q)
    {
      assert Kept(d0, d, q) && Kept(d, d', q);
    }
  }

  // ---- a page without cells --------------------------------------------------------------------

  /** The header of an empty page. */
  predicate EmptyHeader(g: Geometry, d: seq<byte>) {
    && Holds(g, d)
    && d[g.hdr + 1] == d[g.hdr + 2] == d[g.hdr + 3] == d[g.hdr + 4] == d[g.hdr + 7] == 0
    && Top(g, d) == g.usable
  }

  lemma EmptySound(g: Geometry, f: seq<byte> -> nat, d: seq<byte>)
    requires Local(f) && EmptyHeader(g, d)
    ensures PageOk(g, f, d, 0, g.usable - g.CellOffset(), [], [])
  {
  }
}
