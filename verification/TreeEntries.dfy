/** The entries of a btree in key order, and the rank of a place in it. */
module TreeEntries {
  import Multiples

  /** A page and what hangs below it.  Cell i of an interior page has a left child and a key; the last child
      is in the page header. */
  datatype Tree = Leaf(keys: seq<int>) | Interior(cells: seq<Cell>, right: Tree)

  datatype Cell = Cell(left: Tree, key: int)

  function NCell(t: Tree): nat {
    match t
    case Leaf(keys) => |keys|
    case Interior(cells, _) => |cells|
  }

  function CellKey(t: Tree, i: nat): int
    requires i < NCell(t)
  {
    match t
    case Leaf(keys) => keys[i]
    case Interior(cells, _) => cells[i].key
  }

  function Child(t: Tree, i: nat): (c: Tree)
    requires t.Interior? && i <= NCell(t)
    ensures c < t
  {
    if i < |t.cells| then
      assert t.cells[i] in t.cells;
      t.cells[i].left
    else t.right
  }

  /** All entries below a page: in a table tree those of the leaves, in an index tree also the cells of
      interior pages. */
  ghost function Entries(t: Tree, table: bool): seq<int>
    decreases t, NCell(t) + 1
  {
    match t
    case Leaf(keys) => keys
    case Interior(cells, right) => Front(t, |cells|, table) + Entries(right, table)
  }

  /** The entries before child i. */
  ghost function Front(t: Tree, i: nat, table: bool): seq<int>
    requires t.Interior? && i <= NCell(t)
    decreases t, i
  {
    if i == 0 then []
    else Front(t, i - 1, table) + Entries(Child(t, i - 1), table) + if table then [] else [CellKey(t, i - 1)]
  }

  ghost function Count(t: Tree, table: bool): nat {
    |Entries(t, table)|
  }

  /** The entries of the page before cell i, and before the child in front of it. */
  ghost function Offset(t: Tree, i: nat, table: bool): nat
    requires i <= NCell(t)
  {
    if t.Leaf? then i else |Front(t, i, table)|
  }

  /** The entries of the page before cell i itself. */
  ghost function Own(t: Tree, i: nat, table: bool): nat
    requires i <= NCell(t)
  {
    if t.Leaf? then i else |Front(t, i, table)| + Count(Child(t, i), table)
  }

  lemma {:induction false} FrontPrefix(t: Tree, i: nat, j: nat, table: bool)
    requires t.Interior? && i <= j <= NCell(t)
    ensures Front(t, i, table) <= Front(t, j, table)
    decreases j
  {
    if i < j {
      FrontPrefix(t, i, j - 1, table);
    }
  }

  /** c stands in e from position b. */
  ghost predicate IsRun(e: seq<int>, b: nat, c: seq<int>) {
    b + |c| <= |e| && e[b..b + |c|] == c
  }

  lemma WholeRun(e: seq<int>)
    ensures IsRun(e, 0, e)
  {
  }

  lemma RunOfRun(e: seq<int>, b: nat, c: seq<int>, o: nat, x: seq<int>)
    requires IsRun(e, b, c) && IsRun(c, o, x)
    ensures IsRun(e, b + o, x) && b + o + |x| <= |e|
  {
    var y := e[b + o..b + o + |x|];
    forall k: nat | k < |x|
      ensures y[k] == x[k]
    {
      assert c[o..o + |x|][k] == c[o + k];
      assert e[b..b + |c|][o + k] == c[o + k];
    }
  }

  lemma RunAt(e: seq<int>, b: nat, c: seq<int>, k: nat)
    requires IsRun(e, b, c) && k < |c|
    ensures b + k < |e| && e[b + k] == c[k]
  {
    assert e[b..b + |c|][k] == c[k];
  }

  lemma RunInPrefix(f: seq<int>, e: seq<int>, b: nat, c: seq<int>)
    requires f <= e && IsRun(f, b, c)
    ensures IsRun(e, b, c)
  {
    assert e[b..b + |c|] == f[b..b + |c|];
  }

  lemma MiddleRun(a: seq<int>, c: seq<int>, z: seq<int>)
    ensures IsRun(a + c + z, |a|, c)
  {
  }

  /** Where the entries below child i are, and the cell after them. */
  lemma ChildSlice(t: Tree, i: nat, table: bool)
    requires t.Interior? && i <= NCell(t)
    ensures IsRun(Entries(t, table), Offset(t, i, table), Entries(Child(t, i), table))
    ensures var o, n := Offset(t, i, table), Count(Child(t, i), table);
      && o + n <= Count(t, table)
      && (i < NCell(t) ==> Offset(t, i + 1, table) == o + n + (if table then 0 else 1) <= Count(t, table))
      && (i < NCell(t) && !table ==> Entries(t, table)[o + n] == CellKey(t, i))
      && (i == NCell(t) ==> o + n == Count(t, table))
  {
    hide IsRun;
    var e, a, c := Entries(t, table), Front(t, i, table), Entries(Child(t, i), table);
    if i < NCell(t) {
      FrontPrefix(t, i + 1, NCell(t), table);
      var z := if table then [] else [CellKey(t, i)];
      assert a + c + z == Front(t, i + 1, table) <= e;
      MiddleRun(a, c, z);
      RunInPrefix(a + c + z, e, |a|, c);
    } else {
      MiddleRun(a, c, []);
      assert a + c + [] == e;
    }
  }

  // ---- well-formed trees ---------------------------------------------------------------------------

  /** A page other than the root: all leaves at the same depth, no page empty; in a table tree the key of a
      cell separates what is left and right of it. */
  ghost predicate TreeOk(t: Tree, table: bool, height: nat)
    decreases t
  {
    match t
    case Leaf(keys) => height == 1 && keys != []
    case Interior(cells, right) => cells != [] && KidsOk(t, table, height)
  }

  ghost predicate KidsOk(t: Tree, table: bool, height: nat)
    requires t.Interior?
    decreases t, 0
  {
    && height > 1
    && (forall i: nat :: i <= NCell(t) ==> TreeOk(Child(t, i), table, height - 1))
    && (table ==> forall i: nat :: i < NCell(t) ==> Separates(t, i))
  }

  ghost predicate Separates(t: Tree, i: nat)
    requires t.Interior? && i < NCell(t)
  {
    AllAtMost(Entries(Child(t, i), true), CellKey(t, i)) && AllAbove(Entries(Child(t, i + 1), true), CellKey(t, i))
  }

  ghost predicate AllAtMost(s: seq<int>, k: int) {
    forall r: nat :: r < |s| ==> s[r] <= k
  }

  ghost predicate AllAbove(s: seq<int>, k: int) {
    forall r: nat :: r < |s| ==> k < s[r]
  }

  /** A root may be an empty leaf; that on page 1 may also have no cells but a child. */
  ghost predicate RootShape(t: Tree, table: bool, height: nat, pageOne: bool) {
    match t
    case Leaf(_) => height == 1
    case Interior(cells, _) => (cells != [] || pageOne) && KidsOk(t, table, height)
  }

  /** A tree that a cursor can go through.  For the height see DepthLimit() and DepthBound(). */
  ghost predicate RootOk(t: Tree, table: bool, height: nat, pageOne: bool) {
    1 <= height <= 20 && Ascending(Entries(t, table)) && RootShape(t, table, height, pageOne)
  }

  ghost predicate Ascending(s: seq<int>) {
    forall r: nat, q: nat :: r < q < |s| ==> s[r] < s[q]
  }

  // ---- the depth of a tree -------------------------------------------------------------------------

  /** The number of leaf pages, below the page and below its first i children. */
  ghost function Leaves(t: Tree): nat
    decreases t, NCell(t) + 2
  {
    if t.Leaf? then 1 else LeavesOf(t, NCell(t) + 1)
  }

  ghost function LeavesOf(t: Tree, i: nat): nat
    requires t.Interior? && i <= NCell(t) + 1
    decreases t, i
  {
    if i == 0 then 0 else LeavesOf(t, i - 1) + Leaves(Child(t, i - 1))
  }

  /** Interior pages have b children or more. */
  ghost predicate Wide(t: Tree, b: nat)
    decreases t
  {
    t.Interior? ==> NCell(t) + 1 >= b && forall i: nat :: i <= NCell(t) ==> Wide(Child(t, i), b)
  }

  function Power(b: nat, n: nat): nat {
    if n == 0 then 1 else b * Power(b, n - 1)
  }

  lemma {:induction false} WideLeaves(t: Tree, table: bool, height: nat, b: nat)
    requires TreeOk(t, table, height) && Wide(t, b)
    ensures height >= 1 && Leaves(t) >= Power(b, height - 1)
    decreases t, 0
  {
    if t.Interior? {
      KidLeaves(t, table, height, NCell(t) + 1, b);
      Multiples.MulLe(b, NCell(t) + 1, Power(b, height - 2));
    }
  }

  lemma {:induction false} KidLeaves(t: Tree, table: bool, height: nat, i: nat, b: nat)
    requires t.Interior? && KidsOk(t, table, height) && i <= NCell(t) + 1
    requires forall j: nat :: j <= NCell(t) ==> Wide(Child(t, j), b)
    ensures height >= 2 && LeavesOf(t, i) >= i * Power(b, height - 2)
    decreases t, 0, i
  {
    HeightOver(t, table, height);
    if i > 0 {
      KidLeaves(t, table, height, i - 1, b);
      assert TreeOk(Child(t, i - 1), table, height - 1) && Wide(Child(t, i - 1), b);
      WideLeaves(Child(t, i - 1), table, height - 1, b);
    }
  }

  lemma {:induction false} PowerGrows(b: nat, n: nat, m: nat)
    requires n <= m && b > 0
    ensures Power(b, n) <= Power(b, m)
    decreases m - n
  {
    if n < m {
      PowerGrows(b, n, m - 1);
      Multiples.MulLe(1, b, Power(b, m - 1));
    }
  }

  /** A root has two children or more, other interior pages three; then a tree of more than 20 levels has more
      leaf pages than a file can have.  With a single child below page 1 there may be one level more. */
  lemma DepthLimit(t: Tree, table: bool, height: nat, pageOne: bool)
    requires RootShape(t, table, height, pageOne)
    requires t.Interior? ==> forall i: nat :: i <= NCell(t) ==> Wide(Child(t, i), 3)
    requires Leaves(t) <= 0x7fff_ffff
    ensures height <= 21 && (t.Leaf? || NCell(t) > 0 ==> height <= 20)
  {
    hide KidsOk, Wide, Leaves, LeavesOf, Power;
    if t.Interior? {
      KidLeaves(t, table, height, NCell(t) + 1, 3);
      LeavesIs(t);
      Powers();
      Multiples.MulLe(1, NCell(t) + 1, Power(3, height - 2));
      if height > 21 {
        PowerGrows(3, 20, height - 2);
      } else if height == 21 && NCell(t) > 0 {
        Multiples.MulLe(2, NCell(t) + 1, Power(3, 19));
      }
    }
  }

  /** Without that, interior pages have two children or more, and there are 31 levels at most, or 32 with a single
      child below page 1. */
  lemma DepthBound(t: Tree, table: bool, height: nat, pageOne: bool)
    requires RootShape(t, table, height, pageOne) && Leaves(t) <= 0x7fff_ffff
    ensures height <= 32 && (t.Leaf? || NCell(t) > 0 ==> height <= 31)
  {
    hide Wide, Leaves, LeavesOf, Power;
    if t.Interior? {
      forall i: nat | i <= NCell(t)
        ensures Wide(Child(t, i), 2)
      {
        TwoWide(Child(t, i), table, height - 1);
      }
      KidLeaves(t, table, height, NCell(t) + 1, 2);
      LeavesIs(t);
      Powers();
      if height > 32 {
        PowerGrows(2, 31, height - 2);
      }
      Multiples.MulLe(if NCell(t) > 0 then 2 else 1, NCell(t) + 1, Power(2, height - 2));
    }
  }

  lemma {:induction false} TwoWide(t: Tree, table: bool, height: nat)
    requires TreeOk(t, table, height)
    ensures Wide(t, 2)
    decreases t
  {
    if t.Interior? {
      forall i: nat | i <= NCell(t)
        ensures Wide(Child(t, i), 2)
      {
        TwoWide(Child(t, i), table, height - 1);
      }
    }
  }

  lemma LeavesIs(t: Tree)
    requires t.Interior?
    ensures Leaves(t) == LeavesOf(t, NCell(t) + 1)
  {
  }

  lemma HeightOver(t: Tree, table: bool, height: nat)
    requires t.Interior? && KidsOk(t, table, height)
    ensures height > 1
  {
  }

  lemma Powers()
    ensures Power(3, 19) == 1162261467 && Power(3, 20) == 3486784401
    ensures Power(2, 30) == 0x4000_0000 && Power(2, 31) == 0x8000_0000
  {
    assert Power(3, 5) == 243;
    assert Power(3, 10) == 243 * Power(3, 5);
    assert Power(3, 15) == 243 * Power(3, 10);
    assert Power(3, 19) == 81 * Power(3, 15);
    assert Power(2, 10) == 1024;
    assert Power(2, 20) == 1024 * Power(2, 10);
    assert Power(2, 30) == 1024 * Power(2, 20);
  }

  lemma {:induction false} CountPositive(t: Tree, table: bool, height: nat)
    requires TreeOk(t, table, height)
    ensures Count(t, table) > 0
    decreases t
  {
    if t.Interior? {
      assert TreeOk(Child(t, NCell(t)), table, height - 1);
      CountPositive(t.right, table, height - 1);
    }
  }

  // ---- paths ---------------------------------------------------------------------------------------

  /** The pages from the root down to a page, and the child taken in each. */
  ghost predicate PathOk(root: Tree, pages: seq<Tree>, idx: seq<nat>, page: Tree) {
    |pages| == |idx| &&
    if pages == [] then page == root
    else
      var l := |pages| - 1;
      && pages[l].Interior? && idx[l] <= NCell(pages[l]) && page == Child(pages[l], idx[l])
      && PathOk(root, pages[..l], idx[..l], pages[l])
  }

  /** The entries before those below the last page of a path. */
  ghost function Base(pages: seq<Tree>, idx: seq<nat>, table: bool): nat {
    if pages == [] || |idx| != |pages| then 0
    else
      var l := |pages| - 1;
      Base(pages[..l], idx[..l], table) + if idx[l] <= NCell(pages[l]) then Offset(pages[l], idx[l], table) else 0
  }

  /** Only the root may be empty, or have no cells. */
  ghost predicate PageOk(root: Tree, pages: seq<Tree>, page: Tree, table: bool, height: nat)
  {
    && |pages| < height
    && (pages != [] ==> TreeOk(page, table, height - |pages|))
    && (page.Interior? ==> KidsOk(page, table, height - |pages|))
    && (page.Leaf? ==> |pages| + 1 == height)
  }

  lemma {:induction false} PathPages(root: Tree, pages: seq<Tree>, idx: seq<nat>, page: Tree, table: bool, height: nat,
                                     pageOne: bool)
    requires RootOk(root, table, height, pageOne) && PathOk(root, pages, idx, page)
    ensures PageOk(root, pages, page, table, height)
    decreases |pages|
  {
    if pages != [] {
      var l := |pages| - 1;
      PathPages(root, pages[..l], idx[..l], pages[l], table, height, pageOne);
      assert TreeOk(Child(pages[l], idx[l]), table, height - l - 1);
    }
  }

  /** The entries below a page are a run of those of the tree. */
  lemma {:induction false} PathSlice(root: Tree, pages: seq<Tree>, idx: seq<nat>, page: Tree, table: bool)
    requires PathOk(root, pages, idx, page)
    ensures IsRun(Entries(root, table), Base(pages, idx, table), Entries(page, table))
    ensures Base(pages, idx, table) + Count(page, table) <= Count(root, table)
    decreases |pages|
  {
    hide IsRun, Entries, Front;
    if pages == [] {
      WholeRun(Entries(page, table));
    } else {
      var l := |pages| - 1;
      PathSlice(root, pages[..l], idx[..l], pages[l], table);
      ChildSlice(pages[l], idx[l], table);
      RunOfRun(Entries(root, table), Base(pages[..l], idx[..l], table), Entries(pages[l], table),
               Offset(pages[l], idx[l], table), Entries(page, table));
    }
  }

  lemma PathPush(root: Tree, pages: seq<Tree>, idx: seq<nat>, page: Tree, i: nat, table: bool)
    requires PathOk(root, pages, idx, page) && page.Interior? && i <= NCell(page)
    ensures PathOk(root, pages + [page], idx + [i], Child(page, i))
    ensures Base(pages + [page], idx + [i], table) == Base(pages, idx, table) + Offset(page, i, table)
  {
    assert (pages + [page])[..|pages|] == pages && (idx + [i])[..|idx|] == idx;
  }

  /** The entry a place in the tree stands for. */
  lemma EntryAt(root: Tree, pages: seq<Tree>, idx: seq<nat>, page: Tree, i: nat, table: bool)
    requires PathOk(root, pages, idx, page) && i < NCell(page)
    ensures Base(pages, idx, table) + Own(page, i, table) <= Count(root, table)
    ensures var r := Base(pages, idx, table) + Own(page, i, table);
      page.Leaf? || !table ==> r < Count(root, table) && Entries(root, table)[r] == CellKey(page, i)
  {
    hide IsRun, PathOk, Base, Front;
    PathSlice(root, pages, idx, page, table);
    OwnEntry(page, i, table);
    if page.Leaf? || !table {
      RunAt(Entries(root, table), Base(pages, idx, table), Entries(page, table), Own(page, i, table));
    }
  }

  lemma OwnEntry(t: Tree, i: nat, table: bool)
    requires i < NCell(t)
    ensures Own(t, i, table) <= Count(t, table)
    ensures t.Leaf? || !table ==>
      Own(t, i, table) < Count(t, table) && Entries(t, table)[Own(t, i, table)] == CellKey(t, i)
  {
    if t.Interior? {
      ChildSlice(t, i, table);
    }
  }

  /** Entries up to a key, and entries below it. */
  function UpTo(s: seq<int>, k: int): (n: nat)
    ensures n <= |s|
  {
    if s == [] || s[|s| - 1] <= k then |s| else UpTo(s[..|s| - 1], k)
  }

  function Below(s: seq<int>, k: int): (n: nat)
    ensures n <= |s|
  {
    if s == [] || s[|s| - 1] < k then |s| else Below(s[..|s| - 1], k)
  }

  lemma {:induction false} UpToIs(s: seq<int>, k: int)
    requires Ascending(s)
    ensures forall r: nat :: r < |s| ==> (s[r] <= k <==> r < UpTo(s, k))
    ensures forall r: nat :: r < |s| ==> (s[r] < k <==> r < Below(s, k))
  {
    if s != [] {
      var p := s[..|s| - 1];
      UpToIs(p, k);
      assert forall r: nat :: r < |p| ==> p[r] == s[r];
    }
  }

  /** Where the entries split at a key. */
  lemma SplitAt(s: seq<int>, k: int, n: nat)
    requires Ascending(s) && n <= |s|
    requires (forall r: nat :: r < n ==> s[r] < k) && forall r: nat :: n <= r < |s| ==> s[r] > k
    ensures UpTo(s, k) == n == Below(s, k)
  {
    UpToIs(s, k);
  }

  // ---- the order of the entries on one page --------------------------------------------------------

  lemma OwnGrows(t: Tree, i: nat, j: nat, table: bool)
    requires i < j <= NCell(t)
    ensures Own(t, i, table) + (if t.Interior? && table then 0 else 1) <= Offset(t, j, table) <= Own(t, j, table)
  {
    if t.Interior? {
      FrontPrefix(t, i + 1, j, table);
      ChildSlice(t, i, table);
    }
  }

  /** The keys of the cells of a page ascend. */
  lemma {:induction false} KeysAscend(root: Tree, pages: seq<Tree>, idx: seq<nat>, page: Tree, table: bool, height: nat,
                                      pageOne: bool, i: nat, j: nat)
    requires RootOk(root, table, height, pageOne) && PathOk(root, pages, idx, page) && i < j < NCell(page)
    ensures CellKey(page, i) < CellKey(page, j)
    decreases j
  {
    PathPages(root, pages, idx, page, table, height, pageOne);
    if page.Leaf? || !table {
      EntryAt(root, pages, idx, page, i, table);
      EntryAt(root, pages, idx, page, j, table);
      OwnGrows(page, i, j, table);
    } else {
      if i < j - 1 {
        KeysAscend(root, pages, idx, page, table, height, pageOne, i, j - 1);
      }
      var k := j - 1;
      assert TreeOk(Child(page, j), table, height - |pages| - 1);
      CountPositive(Child(page, j), table, height - |pages| - 1);
      assert Separates(page, k) && Separates(page, j);
      var e := Entries(Child(page, j), true);
      assert e[0] > CellKey(page, k) && e[0] <= CellKey(page, j);
    }
  }

  /** The entry before child i + 1, and the entry after child i, lie on either side of the key of cell i. */
  lemma Neighbours(root: Tree, pages: seq<Tree>, idx: seq<nat>, page: Tree, table: bool, height: nat, pageOne: bool,
                   i: nat)
    requires RootOk(root, table, height, pageOne) && PathOk(root, pages, idx, page) && page.Interior? && i < NCell(page)
    ensures var e, b, j := Entries(root, table), Base(pages, idx, table), i + 1;
      var lo, hi := b + Offset(page, j, table), b + Own(page, i, table);
      && 0 < lo <= |e| && e[lo - 1] <= CellKey(page, i)
      && hi < |e| && if table then e[hi] > CellKey(page, i) else e[hi] == CellKey(page, i)
  {
    hide IsRun, PathOk, Base, Front, RootOk, TreeOk, Entries;
    var j := i + 1;
    PathPages(root, pages, idx, page, table, height, pageOne);
    KidsHave(page, table, height - |pages|, i);
    ChildSlice(page, i, table);
    if table {
      ChildEntry(root, pages, idx, page, i, Count(Child(page, i), table) - 1, table);
      ChildEntry(root, pages, idx, page, j, 0, table);
    } else {
      EntryAt(root, pages, idx, page, i, table);
    }
  }

  /** The children next to a cell have entries, in a table on either side of its key. */
  lemma KidsHave(t: Tree, table: bool, height: nat, i: nat)
    requires t.Interior? && KidsOk(t, table, height) && i < NCell(t)
    ensures Count(Child(t, i), table) > 0 && Count(Child(t, i + 1), table) > 0
    ensures table ==> AllAtMost(Entries(Child(t, i), table), CellKey(t, i))
    ensures table ==> AllAbove(Entries(Child(t, i + 1), table), CellKey(t, i))
  {
    var j := i + 1;
    assert TreeOk(Child(t, i), table, height - 1) && TreeOk(Child(t, j), table, height - 1);
    CountPositive(Child(t, i), table, height - 1);
    CountPositive(Child(t, j), table, height - 1);
    assert table ==> Separates(t, i);
  }

  /** An entry below a child. */
  lemma ChildEntry(root: Tree, pages: seq<Tree>, idx: seq<nat>, page: Tree, i: nat, k: nat, table: bool)
    requires PathOk(root, pages, idx, page) && page.Interior? && i <= NCell(page) && k < Count(Child(page, i), table)
    ensures var e, r := Entries(root, table), Base(pages, idx, table) + Offset(page, i, table) + k;
      r < |e| && e[r] == Entries(Child(page, i), table)[k]
  {
    hide IsRun, PathOk, Base, Front, Entries;
    PathPush(root, pages, idx, page, i, table);
    PathSlice(root, pages + [page], idx + [i], Child(page, i), table);
    RunAt(Entries(root, table), Base(pages + [page], idx + [i], table), Entries(Child(page, i), table), k);
  }
}
