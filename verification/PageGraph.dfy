/** The pages of a database as a graph, its pointer map, and what moving a page does to both. */
module PageGraph {
  import opened Bytes

  datatype Option<T> = None | Some(value: T)

  /** A cell: a left child on interior pages, a key, and a payload whose tail may be spilled. */
  datatype Cell = Cell(child: nat, key: int, size: nat, local: seq<byte>, spill: nat) {
    predicate Spills() {
      |local| < size
    }
  }

  datatype Page =
    | Node(leaf: bool, cells: seq<Cell>, right: nat)
    | Overflow(next: nat, data: seq<byte>)

  /** The pages in use. */
  type Store = map<nat, Page>

  /** Pointer-map types. */
  datatype Kind = RootPage | FreePage | Overflow1 | Overflow2 | BtreePage

  datatype Entry = Entry(kind: Kind, parent: nat)

  type PointerMap = map<nat, Entry>

  /** The places on a page that hold a page number. */
  datatype Slot = Child(i: nat) | Spill(i: nat) | Right | Next {
    function Kind(): Kind {
      match this
      case Child(_) => BtreePage
      case Right => BtreePage
      case Spill(_) => Overflow1
      case Next => Overflow2
    }
  }

  /** The page number in a slot, 0 where there is none. */
  function Target(page: Page, s: Slot): nat {
    match page
    case Node(leaf, cells, right) =>
      (match s
       case Child(i) => if !leaf && i < |cells| then cells[i].child else 0
       case Spill(i) => if i < |cells| && cells[i].Spills() then cells[i].spill else 0
       case Right => if leaf then 0 else right
       case Next => 0)
    case Overflow(next, _) => if s.Next? then next else 0
  }

  // ---- well-formed page graphs -------------------------------------------------------------------

  /** What slot s of page p refers to is in use, and the pointer map knows it. */
  predicate RefOk(m: Store, pm: PointerMap, p: nat, s: Slot)
    requires p in m
  {
    var t := Target(m[p], s);
    t != 0 ==>
      t != p && t in m && t in pm && pm[t] == Entry(s.Kind(), p) && (m[t].Node? <==> s.Kind() == BtreePage)
  }

  ghost predicate PointsTo(page: Page, k: Kind, t: nat) {
    exists s: Slot :: s.Kind() == k && Target(page, s) == t
  }

  /** No page number appears twice on a page. */
  ghost predicate Once(page: Page) {
    forall s: Slot, s': Slot :: Target(page, s) != 0 && Target(page, s) == Target(page, s') ==> s == s'
  }

  /** The pointer map names the type of page t and the page that refers to it. */
  ghost predicate Named(m: Store, pm: PointerMap, roots: set<nat>, t: nat)
    requires t in m
  {
    if t in roots then
      m[t].Node? && (t != 1 ==> t in pm && pm[t] == Entry(RootPage, 0))
    else
      t in pm && pm[t].parent in m && PointsTo(m[pm[t].parent], pm[t].kind, t)
  }

  /** No pointer of the page is missing. */
  predicate Whole(page: Page) {
    page.Node? ==>
      && (page.leaf || page.right != 0)
      && forall i: nat :: i < |page.cells| ==>
           (page.leaf || Target(page, Child(i)) != 0) && (page.cells[i].Spills() ==> Target(page, Spill(i)) != 0)
  }

  ghost predicate GraphOk(m: Store, pm: PointerMap, roots: set<nat>) {
    && 0 !in m && roots <= m.Keys && 1 !in pm
    && (forall p, s: Slot :: p in m ==> RefOk(m, pm, p, s))
    && (forall p :: p in m ==> Once(m[p]) && Whole(m[p]))
    && (forall t :: t in m ==> Named(m, pm, roots, t))
  }

  /** Every page but a root is referred to from exactly one place, and the pointer map says where. */
  lemma UniqueReferrer(m: Store, pm: PointerMap, roots: set<nat>, t: nat, p: nat, s: Slot)
    requires GraphOk(m, pm, roots) && t in m && p in m && Target(m[p], s) == t
    ensures t in pm && pm[t] == Entry(s.Kind(), p)
    ensures t !in roots
    ensures forall q, s': Slot :: q in m && Target(m[q], s') == t ==> q == p && s' == s
  {
    assert RefOk(m, pm, p, s);
    assert Named(m, pm, roots, t);
    forall q, s': Slot | q in m && Target(m[q], s') == t
      ensures q == p && s' == s
    {
      assert RefOk(m, pm, q, s');
      assert Once(m[p]);
    }
  }

  // ---- reading -----------------------------------------------------------------------------------

  /** n bytes of payload from the overflow chain at page p. */
  function ReadChain(m: Store, p: nat, n: nat): Option<seq<byte>>
    decreases n
  {
    if n == 0 then Some([])
    else if p !in m || m[p].Node? || m[p].data == [] then None
    else if n <= |m[p].data| then Some(m[p].data[..n])
    else
      var rest := ReadChain(m, m[p].next, n - |m[p].data|);
      if rest.None? then None else Some(m[p].data + rest.value)
  }

  function Payload(m: Store, c: Cell): Option<seq<byte>> {
    if !c.Spills() then Some(c.local)
    else
      var rest := ReadChain(m, c.spill, c.size - |c.local|);
      if rest.None? then None else Some(c.local + rest.value)
  }

  datatype Row = Row(key: int, payload: Option<seq<byte>>)

  /** The entries of the tree at page p, in order, down to the given depth. */
  function Walk(m: Store, p: nat, depth: nat): Option<seq<Row>>
    decreases depth, 1, 0
  {
    if depth == 0 || p !in m || m[p].Overflow? then None
    else WalkFrom(m, p, 0, depth)
  }

  /** The entries from cell i of page p on. */
  function WalkFrom(m: Store, p: nat, i: nat, depth: nat): Option<seq<Row>>
    requires depth > 0 && p in m && m[p].Node? && i <= |m[p].cells|
    decreases depth, 0, |m[p].cells| - i
  {
    if i == |m[p].cells| then
      if m[p].leaf then Some([]) else Walk(m, m[p].right, depth - 1)
    else
      var c := m[p].cells[i];
      var left := if m[p].leaf then Some([]) else Walk(m, c.child, depth - 1);
      var rest := WalkFrom(m, p, i + 1, depth);
      if left.None? || rest.None? then None
      else Some(left.value + [Row(c.key, Payload(m, c))] + rest.value)
  }

  // ---- renaming ----------------------------------------------------------------------------------

  /** Page a renamed b. */
  function Ren(a: nat, b: nat, p: nat): nat {
    if p == a then b else p
  }

  function RenCell(a: nat, b: nat, leaf: bool, c: Cell): Cell {
    c.(child := if leaf then c.child else Ren(a, b, c.child),
       spill := if c.Spills() then Ren(a, b, c.spill) else c.spill)
  }

  function RenPage(a: nat, b: nat, page: Page): Page {
    match page
    case Node(leaf, cells, right) =>
      Node(leaf, seq(|cells|, i requires 0 <= i < |cells| => RenCell(a, b, leaf, cells[i])),
           if leaf then right else Ren(a, b, right))
    case Overflow(next, data) => Overflow(Ren(a, b, next), data)
  }

  /** Page p of m is, renamed, in m'. */
  predicate RenamedAt(a: nat, b: nat, m: Store, m': Store, p: nat)
    requires p in m
  {
    Ren(a, b, p) in m' && m'[Ren(a, b, p)] == RenPage(a, b, m[p])
  }

  /** m' is m with page a called b. */
  ghost predicate Renamed(a: nat, b: nat, m: Store, m': Store) {
    && a in m && b !in m && 0 !in m && b != 0
    && m'.Keys == m.Keys - {a} + {b}
    && forall p :: p in m ==> RenamedAt(a, b, m, m', p)
  }

  /** References lead to pages in use. */
  ghost predicate Closed(m: Store) {
    forall p, s: Slot :: p in m ==> Target(m[p], s) == 0 || Target(m[p], s) in m
  }

  lemma {:induction false} ChainRenamed(a: nat, b: nat, m: Store, m': Store, p: nat, n: nat)
    requires Renamed(a, b, m, m') && Closed(m) && (p == 0 || p in m)
    ensures ReadChain(m', Ren(a, b, p), n) == ReadChain(m, p, n)
    decreases n
  {
    if n > 0 && p in m {
      assert RenamedAt(a, b, m, m', p);
      if m[p].Overflow? && m[p].data != [] && n > |m[p].data| {
        assert Target(m[p], Next) == m[p].next;
        ChainRenamed(a, b, m, m', m[p].next, n - |m[p].data|);
      }
    }
  }

  /** Every tree and every payload reads the same after a page is renamed. */
  lemma {:induction false} WalkRenamed(a: nat, b: nat, m: Store, m': Store, p: nat, depth: nat)
    requires Renamed(a, b, m, m') && Closed(m) && (p == 0 || p in m)
    ensures Walk(m', Ren(a, b, p), depth) == Walk(m, p, depth)
    decreases depth, 1, 0
  {
    if p in m {
      assert RenamedAt(a, b, m, m', p);
      if depth > 0 && m[p].Node? {
        WalkFromRenamed(a, b, m, m', p, 0, depth);
      }
    }
  }

  lemma {:induction false} WalkFromRenamed(a: nat, b: nat, m: Store, m': Store, p: nat, i: nat, depth: nat)
    requires Renamed(a, b, m, m') && Closed(m)
    requires depth > 0 && p in m && m[p].Node? && i <= |m[p].cells|
    ensures Ren(a, b, p) in m' && m'[Ren(a, b, p)].Node? && |m'[Ren(a, b, p)].cells| == |m[p].cells|
    ensures WalkFrom(m', Ren(a, b, p), i, depth) == WalkFrom(m, p, i, depth)
    decreases depth, 0, |m[p].cells| - i
  {
    assert RenamedAt(a, b, m, m', p);
    if i == |m[p].cells| {
      if !m[p].leaf {
        assert Target(m[p], Right) == m[p].right;
        WalkRenamed(a, b, m, m', m[p].right, depth - 1);
      }
    } else {
      var c := m[p].cells[i];
      if !m[p].leaf {
        assert Target(m[p], Child(i)) == c.child;
        WalkRenamed(a, b, m, m', c.child, depth - 1);
      }
      if c.Spills() {
        assert Target(m[p], Spill(i)) == c.spill;
        ChainRenamed(a, b, m, m', c.spill, c.size - |c.local|);
      }
      WalkFromRenamed(a, b, m, m', p, i + 1, depth);
    }
  }

  // ---- relocating a page -------------------------------------------------------------------------

  ghost predicate Targeted(page: Page, t: nat) {
    exists s: Slot :: Target(page, s) == t
  }

  /** setChildPtrmaps(): everything the page refers to now has page b as its parent. */
  ghost predicate Adopted(page: Page, b: nat, pm: PointerMap, pm': PointerMap) {
    && (forall s: Slot :: Target(page, s) != 0 ==>
          Target(page, s) in pm' && pm'[Target(page, s)] == Entry(s.Kind(), b))
    && (forall t :: t == 0 || !Targeted(page, t) ==> (t in pm' <==> t in pm) && (t in pm ==> pm'[t] == pm[t]))
  }

  /** The page with the number in slot s replaced. */
  function Repointed(page: Page, s: Slot, to: nat): Page {
    match page
    case Node(leaf, cells, right) =>
      (match s
       case Child(i) => if i < |cells| then Node(leaf, cells[i := cells[i].(child := to)], right) else page
       case Spill(i) => if i < |cells| then Node(leaf, cells[i := cells[i].(spill := to)], right) else page
       case Right => Node(leaf, cells, to)
       case Next => page)
    case Overflow(_, data) => if s.Next? then Overflow(to, data) else page
  }

  /** A page that does not refer to a does not notice the renaming. */
  lemma RenNothing(page: Page, a: nat, b: nat)
    requires !Targeted(page, a)
    ensures RenPage(a, b, page) == page
  {
    if page.Node? {
      forall i | 0 <= i < |page.cells|
        ensures RenCell(a, b, page.leaf, page.cells[i]) == page.cells[i]
      {
        assert Target(page, Child(i)) != a && Target(page, Spill(i)) != a;
      }
      assert Target(page, Right) != a;
      assert RenPage(a, b, page).cells == page.cells;
    } else {
      assert Target(page, Next) != a;
    }
  }

  /** A page that refers to a once: replacing that reference is the renaming. */
  lemma RenOnce(page: Page, a: nat, b: nat, s: Slot)
    requires a != 0 && Once(page) && Target(page, s) == a
    ensures RenPage(a, b, page) == Repointed(page, s, b)
  {
    if page.Node? {
      var r := RenPage(a, b, page);
      var w := Repointed(page, s, b);
      forall i | 0 <= i < |page.cells|
        ensures r.cells[i] == w.cells[i]
      {
        var x, y := Target(page, Child(i)), Target(page, Spill(i));
      }
      assert r.cells == w.cells;
      var z := Target(page, Right);
    }
  }

  lemma RenTarget(page: Page, a: nat, b: nat, s: Slot)
    requires a != 0
    ensures Target(RenPage(a, b, page), s) == Ren(a, b, Target(page, s))
  {
  }

  lemma RenSameKind(page: Page, a: nat, b: nat)
    ensures RenPage(a, b, page).Node? == page.Node?
  {
  }

  /** The state before and after relocatePage(): page a moves to b, its references get b as their
      parent, and unless it is a root its referrer q is corrected. */
  ghost predicate Moved(m: Store, pm: PointerMap, roots: set<nat>, a: nat, b: nat, m': Store, pm': PointerMap) {
    && a in m && b !in m && b > 1 && a > 1
    && if a in roots then
         && m' == m[b := m[a]] - {a}
         && b in pm && pm[b] == Entry(RootPage, 0)
         && Adopted(m[a], b, pm, pm')
       else
         && a in pm && pm[a].parent in m && pm[a].parent != a
         && m' == (m[b := m[a]] - {a})[pm[a].parent := RenPage(a, b, m[pm[a].parent])]
         && (exists pm1: PointerMap :: Adopted(m[a], b, pm, pm1) && pm' == pm1[b := pm[a]])
  }

  function RenSet(a: nat, b: nat, roots: set<nat>): set<nat> {
    if a in roots then roots - {a} + {b} else roots
  }

  lemma MovedRenames(m: Store, pm: PointerMap, roots: set<nat>, a: nat, b: nat, m': Store, pm': PointerMap)
    requires GraphOk(m, pm, roots) && Moved(m, pm, roots, a, b, m', pm')
    ensures Renamed(a, b, m, m')
  {
    forall p | p in m
      ensures RenamedAt(a, b, m, m', p)
    {
      if !Targeted(m[p], a) {
        RenNothing(m[p], a, b);
      } else {
        var s :| Target(m[p], s) == a;
        UniqueReferrer(m, pm, roots, a, p, s);
      }
    }
  }

  /** No page refers to page 1 or to a page not in use. */
  lemma NotTargeted(m: Store, pm: PointerMap, roots: set<nat>, p: nat, t: nat)
    requires GraphOk(m, pm, roots) && p in m && t != 0 && (t !in m || t == 1)
    ensures !Targeted(m[p], t)
  {
    forall s: Slot
      ensures Target(m[p], s) != t
    {
      assert RefOk(m, pm, p, s);
    }
  }

  /** Where the pointer map of a page in use leads after the move. */
  lemma EntryMoved(m: Store, pm: PointerMap, roots: set<nat>, a: nat, b: nat, m': Store, pm': PointerMap, t: nat)
    requires GraphOk(m, pm, roots) && Moved(m, pm, roots, a, b, m', pm')
    requires t in m && t != 1
    ensures t in pm && Ren(a, b, t) in pm'
    ensures pm'[Ren(a, b, t)] == Entry(pm[t].kind, Ren(a, b, pm[t].parent))
    ensures t !in roots ==> pm[t].parent in m && pm[t].parent != t
  {
    assert Named(m, pm, roots, t);
    var pm1: PointerMap := if a in roots then pm'
      else var x: PointerMap :| Adopted(m[a], b, pm, x) && pm' == x[b := pm[a]]; x;
    if Targeted(m[a], t) {
      var s :| Target(m[a], s) == t;
      UniqueReferrer(m, pm, roots, t, a, s);
      assert RefOk(m, pm, a, s);
    }
    NotTargeted(m, pm, roots, a, b);
    if t !in roots {
      var s: Slot :| s.Kind() == pm[t].kind && Target(m[pm[t].parent], s) == t;
      assert RefOk(m, pm, pm[t].parent, s);
    }
  }

  lemma RefMoved(m: Store, pm: PointerMap, roots: set<nat>, a: nat, b: nat, m': Store, pm': PointerMap, p: nat, s: Slot)
    requires GraphOk(m, pm, roots) && Moved(m, pm, roots, a, b, m', pm') && Renamed(a, b, m, m') && p in m
    ensures Ren(a, b, p) in m' && RefOk(m', pm', Ren(a, b, p), s)
  {
    assert RenamedAt(a, b, m, m', p);
    assert RefOk(m, pm, p, s);
    RenTarget(m[p], a, b, s);
    var t := Target(m[p], s);
    if t != 0 {
      UniqueReferrer(m, pm, roots, t, p, s);
      EntryMoved(m, pm, roots, a, b, m', pm', t);
      assert RenamedAt(a, b, m, m', t);
      RenSameKind(m[t], a, b);
    }
  }

  lemma WholeMoved(a: nat, b: nat, page: Page)
    requires Whole(page) && a != 0 && b != 0
    ensures Whole(RenPage(a, b, page))
  {
    var r := RenPage(a, b, page);
    if r.Node? {
      forall i: nat | i < |r.cells|
        ensures (r.leaf || Target(r, Child(i)) != 0) && (r.cells[i].Spills() ==> Target(r, Spill(i)) != 0)
      {
        assert i < |page.cells| && r.cells[i] == RenCell(a, b, page.leaf, page.cells[i]);
        RenTarget(page, a, b, Child(i));
        RenTarget(page, a, b, Spill(i));
      }
    }
  }

  lemma OnceMoved(a: nat, b: nat, page: Page)
    requires Once(page) && a != 0 && b != 0 && !Targeted(page, b)
    ensures Once(RenPage(a, b, page))
  {
    var r := RenPage(a, b, page);
    forall s: Slot, s': Slot | Target(r, s) != 0 && Target(r, s) == Target(r, s')
      ensures s == s'
    {
      RenTarget(page, a, b, s);
      RenTarget(page, a, b, s');
    }
  }

  lemma NamedMoved(m: Store, pm: PointerMap, roots: set<nat>, a: nat, b: nat, m': Store, pm': PointerMap, t: nat)
    requires GraphOk(m, pm, roots) && Moved(m, pm, roots, a, b, m', pm') && Renamed(a, b, m, m') && t in m
    ensures Ren(a, b, t) in m' && Named(m', pm', RenSet(a, b, roots), Ren(a, b, t))
  {
    assert Named(m, pm, roots, t);
    assert RenamedAt(a, b, m, m', t);
    RenSameKind(m[t], a, b);
    if t != 1 {
      EntryMoved(m, pm, roots, a, b, m', pm', t);
      if t in roots {
      } else {
        var q, k := pm[t].parent, pm[t].kind;
        assert RenamedAt(a, b, m, m', q);
        var s: Slot :| s.Kind() == k && Target(m[q], s) == t;
        RenTarget(m[q], a, b, s);
        assert PointsTo(m'[Ren(a, b, q)], k, Ren(a, b, t));
      }
    }
  }

  /** Relocating a page renames it: the graph stays well formed and the pointer map stays exact. */
  lemma MovedSound(m: Store, pm: PointerMap, roots: set<nat>, a: nat, b: nat, m': Store, pm': PointerMap)
    requires GraphOk(m, pm, roots) && Moved(m, pm, roots, a, b, m', pm')
    ensures Renamed(a, b, m, m') && GraphOk(m', pm', RenSet(a, b, roots))
  {
    hide Moved, RenamedAt, Named, RefOk, Once, Whole, RenPage;
    MovedRenames(m, pm, roots, a, b, m', pm');
    forall p', s: Slot | p' in m'
      ensures RefOk(m', pm', p', s)
    {
      RefMoved(m, pm, roots, a, b, m', pm', if p' == b then a else p', s);
    }
    forall p' | p' in m'
      ensures Once(m'[p']) && Whole(m'[p'])
    {
      OnceMovedAt(m, pm, roots, a, b, m', if p' == b then a else p');
    }
    forall t' | t' in m'
      ensures Named(m', pm', RenSet(a, b, roots), t')
    {
      NamedMoved(m, pm, roots, a, b, m', pm', if t' == b then a else t');
    }
    NoEntryOne(m, pm, roots, a, b, m', pm');
  }

  lemma OnceMovedAt(m: Store, pm: PointerMap, roots: set<nat>, a: nat, b: nat, m': Store, p: nat)
    requires GraphOk(m, pm, roots) && Renamed(a, b, m, m') && p in m
    ensures Ren(a, b, p) in m' && Once(m'[Ren(a, b, p)]) && Whole(m'[Ren(a, b, p)])
  {
    WholeMoved(a, b, m[p]);
    assert RenamedAt(a, b, m, m', p);
    NotTargeted(m, pm, roots, p, b);
    OnceMoved(a, b, m[p]);
  }

  lemma NoEntryOne(m: Store, pm: PointerMap, roots: set<nat>, a: nat, b: nat, m': Store, pm': PointerMap)
    requires GraphOk(m, pm, roots) && Moved(m, pm, roots, a, b, m', pm')
    ensures 1 !in pm'
  {
    NotTargeted(m, pm, roots, a, 1);
  }

  /** The tree at page p' of m' has the entries and payloads of the tree at page p of m. */
  ghost predicate ReadsAs(m: Store, p: nat, m': Store, p': nat) {
    forall depth: nat :: Walk(m', p', depth) == Walk(m, p, depth)
  }

  lemma GraphClosed(m: Store, pm: PointerMap, roots: set<nat>)
    requires GraphOk(m, pm, roots)
    ensures Closed(m)
  {
    forall p, s: Slot | p in m
      ensures Target(m[p], s) == 0 || Target(m[p], s) in m
    {
      assert RefOk(m, pm, p, s);
    }
  }

  /** Every tree reads the same after a page is relocated. */
  lemma MovedReads(m: Store, pm: PointerMap, roots: set<nat>, a: nat, b: nat, m': Store, pm': PointerMap)
    requires GraphOk(m, pm, roots) && Moved(m, pm, roots, a, b, m', pm')
    ensures forall p :: p in m ==> ReadsAs(m, p, m', Ren(a, b, p))
  {
    MovedSound(m, pm, roots, a, b, m', pm');
    GraphClosed(m, pm, roots);
    hide GraphOk, Moved, Renamed, Closed, Walk, Ren;
    forall p, depth: nat | p in m
      ensures Walk(m', Ren(a, b, p), depth) == Walk(m, p, depth)
    {
      WalkRenamed(a, b, m, m', p, depth);
    }
  }

  /** What the pointer map says of a page that is not a root. */
  lemma EntryOf(m: Store, pm: PointerMap, roots: set<nat>, a: nat)
    requires GraphOk(m, pm, roots) && a in m && a !in roots && a != 0
    ensures a in pm && pm[a].parent in m && pm[a].parent != a && PointsTo(m[pm[a].parent], pm[a].kind, a)
    ensures pm[a].kind in {BtreePage, Overflow1, Overflow2} && (m[a].Node? <==> pm[a].kind.BtreePage?)
  {
    assert Named(m, pm, roots, a);
    var q := pm[a].parent;
    var s: Slot :| s.Kind() == pm[a].kind && Target(m[q], s) == a;
    assert RefOk(m, pm, q, s);
  }

  // ---- writing the pointers -----------------------------------------------------------------------

  lemma AdoptNext(page: Page, b: nat, pm: PointerMap, pm': PointerMap)
    requires page.Overflow? && pm' == Put(pm, page.next, Entry(Overflow2, b))
    ensures Adopted(page, b, pm, pm')
  {
    assert Target(page, Next) == page.next;
  }

  lemma PageFacts(m: Store, pm: PointerMap, roots: set<nat>, p: nat)
    requires GraphOk(m, pm, roots) && p in m
    ensures Once(m[p]) && Whole(m[p]) && (p in roots ==> m[p].Node?)
  {
    assert Named(m, pm, roots, p);
  }

  /** The entries of pages not in use are kept. */
  lemma OthersKept(m: Store, pm: PointerMap, roots: set<nat>, a: nat, b: nat, pm1: PointerMap)
    requires GraphOk(m, pm, roots) && a in m && Adopted(m[a], b, pm, pm1)
    ensures forall t :: t !in m ==> (t in pm1 <==> t in pm) && (t in pm1 ==> pm1[t] == pm[t])
  {
    forall t | t !in m && t != 0
      ensures !Targeted(m[a], t)
    {
      NotTargeted(m, pm, roots, a, t);
    }
  }

  lemma NoSlot(page: Page, kind: Kind, from: nat)
    requires page.Node? && from != 0 && (!kind.BtreePage? || page.right != from)
    requires forall s: Slot :: Early(s, |page.cells|) && s.Kind() == kind ==> Target(page, s) != from
    ensures !PointsTo(page, kind, from)
  {
    forall s: Slot | s.Kind() == kind
      ensures Target(page, s) != from
    {
      assert s == Right || s == Next || Early(s, |page.cells|) || Target(page, s) == 0;
    }
  }

  /** The slots of the first n cells. */
  predicate Early(s: Slot, n: nat) {
    match s
    case Child(i) => i < n
    case Spill(i) => i < n
    case _ => false
  }

  ghost predicate EarlyTarget(page: Page, t: nat, n: nat) {
    exists s: Slot :: Early(s, n) && Target(page, s) == t
  }

  /** Adopted(), for the first n cells only. */
  ghost predicate AdoptedTo(page: Page, b: nat, pm: PointerMap, pm': PointerMap, n: nat) {
    && (forall s: Slot :: Early(s, n) && Target(page, s) != 0 ==>
          Target(page, s) in pm' && pm'[Target(page, s)] == Entry(s.Kind(), b))
    && (forall t :: t == 0 || !EarlyTarget(page, t, n) ==> (t in pm' <==> t in pm) && (t in pm ==> pm'[t] == pm[t]))
  }

  lemma AdoptNone(page: Page, b: nat, pm: PointerMap)
    ensures AdoptedTo(page, b, pm, pm, 0)
  {
  }

  function Put(pm: PointerMap, t: nat, e: Entry): PointerMap {
    if t == 0 then pm else pm[t := e]
  }

  /** No other slot of a page names what slot s does. */
  lemma OnceAt(page: Page, s: Slot)
    requires Once(page) && Target(page, s) != 0
    ensures forall s': Slot :: Target(page, s') == Target(page, s) ==> s' == s
  {
  }

  lemma AdoptCell(page: Page, b: nat, pm: PointerMap, pm1: PointerMap, i: nat, pm2: PointerMap, pm3: PointerMap)
    requires page.Node? && Once(page) && i < |page.cells| && AdoptedTo(page, b, pm, pm1, i)
    requires pm2 == Put(pm1, Target(page, Spill(i)), Entry(Overflow1, b))
    requires pm3 == Put(pm2, Target(page, Child(i)), Entry(BtreePage, b))
    ensures AdoptedTo(page, b, pm, pm3, i + 1)
  {
    hide Once, Target;
    var c, d := Spill(i), Child(i);
    if Target(page, c) != 0 {
      OnceAt(page, c);
    }
    if Target(page, d) != 0 {
      OnceAt(page, d);
    }
    forall s: Slot | Early(s, i + 1) && Target(page, s) != 0
      ensures Target(page, s) in pm3 && pm3[Target(page, s)] == Entry(s.Kind(), b)
    {
      assert Early(s, i) || s == c || s == d;
    }
    forall t | t == 0 || !EarlyTarget(page, t, i + 1)
      ensures (t in pm3 <==> t in pm) && (t in pm ==> pm3[t] == pm[t])
    {
      if t != 0 {
        assert Early(Spill(i), i + 1) && Early(Child(i), i + 1);
        assert forall s: Slot :: Early(s, i) ==> Early(s, i + 1);
        assert !EarlyTarget(page, t, i);
      }
    }
  }

  lemma AdoptLast(page: Page, b: nat, pm: PointerMap, pm1: PointerMap, pm2: PointerMap)
    requires page.Node? && Once(page) && AdoptedTo(page, b, pm, pm1, |page.cells|)
    requires pm2 == Put(pm1, Target(page, Right), Entry(BtreePage, b))
    ensures Adopted(page, b, pm, pm2)
  {
    forall s: Slot | Target(page, s) != 0
      ensures Target(page, s) in pm2 && pm2[Target(page, s)] == Entry(s.Kind(), b)
    {
      var c := Right;
      assert s == Right || Early(s, |page.cells|);
    }
    forall t | t == 0 || !Targeted(page, t)
      ensures (t in pm2 <==> t in pm) && (t in pm ==> pm2[t] == pm[t])
    {
      if t != 0 {
        assert Target(page, Right) != t;
        assert !EarlyTarget(page, t, |page.cells|);
      }
    }
  }

  // ---- new and dropped roots ----------------------------------------------------------------------

  /** zeroPage() of a new root: a leaf without cells. */
  predicate IsEmptyLeaf(page: Page) {
    page.Node? && page.leaf && page.cells == []
  }

  /** The pointer map says the same about page t. */
  predicate EntryKept(pm: PointerMap, pm': PointerMap, t: nat) {
    (t in pm' <==> t in pm) && (t in pm' ==> pm'[t] == pm[t])
  }

  lemma NewLeaf()
    ensures IsEmptyLeaf(Node(true, [], 0))
  {
  }

  lemma EmptyLeafTargets(page: Page, s: Slot)
    requires IsEmptyLeaf(page)
    ensures Target(page, s) == 0
  {
  }

  /** An empty page not yet in use becomes a root. */
  lemma RootAdded(m: Store, pm: PointerMap, roots: set<nat>, r: nat, page: Page)
    requires GraphOk(m, pm, roots) && r !in m && r > 1 && IsEmptyLeaf(page)
    ensures GraphOk(m[r := page], pm[r := Entry(RootPage, 0)], roots + {r})
  {
    var m', pm' := m[r := page], pm[r := Entry(RootPage, 0)];
    forall p, s: Slot | p in m'
      ensures RefOk(m', pm', p, s)
    {
      if p == r {
        EmptyLeafTargets(page, s);
      } else {
        assert RefOk(m, pm, p, s);
      }
    }
    forall p | p in m'
      ensures Once(m'[p]) && Whole(m'[p]) && Named(m', pm', roots + {r}, p)
    {
      if p == r {
        EmptyLeafOnce(page);
      } else {
        assert Once(m[p]) && Named(m, pm, roots, p);
      }
    }
  }

  lemma EmptyLeafOnce(page: Page)
    requires IsEmptyLeaf(page)
    ensures Once(page) && Whole(page)
  {
    forall s: Slot
      ensures Target(page, s) == 0
    {
    }
  }

  /** An empty root is taken out of use. */
  lemma RootRemoved(m: Store, pm: PointerMap, roots: set<nat>, r: nat)
    requires GraphOk(m, pm, roots) && r in roots && IsEmptyLeaf(m[r])
    ensures GraphOk(m - {r}, pm, roots - {r})
  {
    var m' := m - {r};
    forall p, s: Slot | p in m'
      ensures RefOk(m', pm, p, s)
    {
      assert RefOk(m, pm, p, s);
      if Target(m[p], s) != 0 {
        UniqueReferrer(m, pm, roots, Target(m[p], s), p, s);
      }
    }
    forall p | p in m'
      ensures Once(m'[p]) && Whole(m'[p]) && Named(m', pm, roots - {r}, p)
    {
      assert Once(m[p]) && Named(m, pm, roots, p);
      if p !in roots {
        NothingHere(m[r], pm[p].kind, p);
      }
    }
  }

  lemma NothingHere(page: Page, k: Kind, t: nat)
    requires IsEmptyLeaf(page)
    ensures t != 0 ==> !PointsTo(page, k, t)
  {
  }

  /** The pointer map of a page not in use does not matter. */
  lemma EntryFree(m: Store, pm: PointerMap, roots: set<nat>, t: nat, e: Entry)
    requires GraphOk(m, pm, roots) && t !in m && t != 1
    ensures GraphOk(m, pm[t := e], roots)
  {
    var pm' := pm[t := e];
    forall p, s: Slot | p in m
      ensures RefOk(m, pm', p, s)
    {
      assert RefOk(m, pm, p, s);
    }
    forall p | p in m
      ensures Named(m, pm', roots, p)
    {
      assert Named(m, pm, roots, p);
    }
  }

  /** m' has all the pages of m, unchanged. */
  ghost predicate Extends(m: Store, m': Store) {
    0 !in m' && forall p :: p in m ==> p in m' && m'[p] == m[p]
  }

  lemma RootExtends(m: Store, r: nat, page: Page)
    requires 0 !in m && r !in m && r != 0
    ensures Extends(m, m[r := page])
  {
  }

  lemma {:induction false} ChainExtends(m: Store, m': Store, p: nat, n: nat)
    requires Extends(m, m') && Closed(m) && (p == 0 || p in m)
    ensures ReadChain(m', p, n) == ReadChain(m, p, n)
    decreases n
  {
    if n > 0 && p in m && m[p].Overflow? && m[p].data != [] && n > |m[p].data| {
      assert Target(m[p], Next) == m[p].next;
      ChainExtends(m, m', m[p].next, n - |m[p].data|);
    }
  }

  /** Pages that a tree does not reach do not matter to it. */
  lemma {:induction false} WalkExtends(m: Store, m': Store, p: nat, depth: nat)
    requires Extends(m, m') && Closed(m) && (p == 0 || p in m)
    ensures Walk(m', p, depth) == Walk(m, p, depth)
    decreases depth, 1, 0
  {
    if p in m && depth > 0 && m[p].Node? {
      WalkFromExtends(m, m', p, 0, depth);
    }
  }

  lemma {:induction false} WalkFromExtends(m: Store, m': Store, p: nat, i: nat, depth: nat)
    requires Extends(m, m') && Closed(m)
    requires depth > 0 && p in m && m[p].Node? && i <= |m[p].cells|
    ensures p in m' && m'[p] == m[p] && WalkFrom(m', p, i, depth) == WalkFrom(m, p, i, depth)
    decreases depth, 0, |m[p].cells| - i
  {
    if i == |m[p].cells| {
      if !m[p].leaf {
        assert Target(m[p], Right) == m[p].right;
        WalkExtends(m, m', m[p].right, depth - 1);
      }
    } else {
      var c := m[p].cells[i];
      if !m[p].leaf {
        assert Target(m[p], Child(i)) == c.child;
        WalkExtends(m, m', c.child, depth - 1);
      }
      if c.Spills() {
        assert Target(m[p], Spill(i)) == c.spill;
        ChainExtends(m, m', c.spill, c.size - |c.local|);
      }
      WalkFromExtends(m, m', p, i + 1, depth);
    }
  }

  lemma ReadsExtends(m: Store, m': Store, pm: PointerMap, roots: set<nat>)
    requires GraphOk(m, pm, roots) && Extends(m, m')
    ensures forall p :: p in m ==> ReadsAs(m, p, m', p) && ReadsAs(m', p, m, p)
  {
    GraphClosed(m, pm, roots);
    hide GraphOk, Extends, Closed, Walk;
    forall p, depth: nat | p in m
      ensures Walk(m', p, depth) == Walk(m, p, depth)
    {
      WalkExtends(m, m', p, depth);
    }
  }

  lemma ReadsTrans(m: Store, p: nat, m': Store, p': nat, m'': Store, p'': nat)
    requires ReadsAs(m, p, m', p') && ReadsAs(m', p', m'', p'')
    ensures ReadsAs(m, p, m'', p'')
  {
  }

  lemma GraphKeys(m: Store, pm: PointerMap, roots: set<nat>)
    requires GraphOk(m, pm, roots)
    ensures roots <= m.Keys && 0 !in m
  {
  }

  lemma RootEntry(m: Store, pm: PointerMap, roots: set<nat>, r: nat)
    requires GraphOk(m, pm, roots) && r in roots && r != 1
    ensures r in pm && pm[r] == Entry(RootPage, 0)
  {
    assert Named(m, pm, roots, r);
  }

  /** The other trees do not notice that an empty root is gone. */
  lemma RemovedReads(m: Store, pm: PointerMap, roots: set<nat>, r: nat)
    requires GraphOk(m, pm, roots) && r in roots && IsEmptyLeaf(m[r])
    ensures forall p :: p in m && p != r ==> ReadsAs(m, p, m - {r}, p)
  {
    RootRemoved(m, pm, roots, r);
    assert Extends(m - {r}, m);
    hide GraphOk, ReadsAs, IsEmptyLeaf, Extends;
    ReadsExtends(m - {r}, m, pm, roots - {r});
  }

  lemma ChainReads(m: Store, m1: Store, m2: Store, r: nat, a: nat)
    requires m1.Keys == m.Keys - {r}
    requires forall p :: p in m && p != r ==> ReadsAs(m, p, m1, p)
    requires forall p :: p in m1 ==> ReadsAs(m1, p, m2, Ren(a, r, p))
    ensures forall p :: p in m && p != r ==> ReadsAs(m, p, m2, Ren(a, r, p))
  {
    hide ReadsAs, Ren;
    forall p | p in m && p != r
      ensures ReadsAs(m, p, m2, Ren(a, r, p))
    {
      assert p in m1.Keys;
      ReadsTrans(m, p, m1, p, m2, Ren(a, r, p));
    }
  }
}
