/** Freeing the pages of one tree of the page graph, while the rest of the database stays as it is. */
module ClearTrees {
  import opened Counting
  import opened PageGraph
  import opened PtrMap
  import opened FreeLists
  import opened FreeState
  import opened VacuumState

  /** The page that refers to page q, by the pointer map. */
  function Par(pm: PointerMap, q: nat): nat {
    if q in pm then pm[q].parent else 0
  }

  function PageAt(path: seq<nat>, i: nat): nat
    requires i < |path|
  {
    path[i]
  }

  /** A path from a root: each page is referred to by the one before it. */
  ghost predicate PathDown(m: Store, pm: PointerMap, roots: set<nat>, path: seq<nat>) {
    && (forall i: nat :: i < |path| ==> PageAt(path, i) in m)
    && (path != [] ==> path[0] in roots)
    && (forall i: nat :: 0 < i < |path| ==> StepDown(pm, roots, path, i))
    && (forall i: nat, j: nat :: i < j < |path| ==> PageAt(path, i) != PageAt(path, j))
  }

  ghost predicate StepDown(pm: PointerMap, roots: set<nat>, path: seq<nat>, i: nat)
    requires 0 < i < |path|
  {
    Par(pm, PageAt(path, i)) == PageAt(path, i - 1) && PageAt(path, i) !in roots
  }

  /** The pages gone so far are no roots, and each was referred to by one that is gone or on the path. */
  ghost predicate Gone(m: Store, pm: PointerMap, roots: set<nat>, path: seq<nat>, gone: set<nat>) {
    forall q <- gone :: q in m && q !in roots && q in pm && q !in path && (Par(pm, q) in gone || Par(pm, q) in path)
  }

  /** What the pages that are gone refer to is gone too, but for page open. */
  ghost predicate AllGone(m: Store, gone: set<nat>, open: nat) {
    forall q, s: Slot :: q in gone && q in m ==>
      Target(m[q], s) == 0 || Target(m[q], s) in gone || Target(m[q], s) == open
  }

  ghost predicate Progress(m: Store, pm: PointerMap, roots: set<nat>, path: seq<nat>, gone: set<nat>, open: nat) {
    && GraphOk(m, pm, roots) && PathDown(m, pm, roots, path) && Gone(m, pm, roots, path, gone) && AllGone(m, gone, open)
  }

  /** Between gone and gone', page t has gone with the pages below it. */
  ghost predicate WentWith(pm: PointerMap, gone: set<nat>, gone': set<nat>, t: nat) {
    gone <= gone' && t in gone' && forall q :: q in gone' && q !in gone ==> q == t || Par(pm, q) in gone'
  }

  /** Of the pages that page p refers to, those in the slots done are gone, and no others. */
  ghost predicate Handled(m: Store, pm: PointerMap, p: nat, gone: set<nat>, done: set<Slot>)
    requires p in m
  {
    && (forall s <- done :: Target(m[p], s) == 0 || Target(m[p], s) in gone)
    && (forall q <- gone :: Par(pm, q) == p ==> TargetOf(m[p], done, q))
  }

  ghost predicate TargetOf(page: Page, done: set<Slot>, q: nat) {
    exists s <- done :: Target(page, s) == q
  }

  // ---- counting rows -------------------------------------------------------------------------------

  /** The cells on the leaves of the tree at page p, which are the rows of a table, down to the given depth. */
  function LeafRows(m: Store, p: nat, depth: nat): Option<nat>
    decreases depth, 1, 0
  {
    if depth == 0 || p !in m || m[p].Overflow? then None
    else RowsFrom(m, p, 0, depth)
  }

  /** Those below cell i of page p and after it. */
  function RowsFrom(m: Store, p: nat, i: nat, depth: nat): Option<nat>
    requires depth > 0 && p in m && m[p].Node? && i <= |m[p].cells|
    decreases depth, 0, |m[p].cells| - i
  {
    if i == |m[p].cells| then
      if m[p].leaf then Some(|m[p].cells|) else LeafRows(m, m[p].right, depth - 1)
    else
      var left: Option<nat> := if m[p].leaf then Some(0) else LeafRows(m, m[p].cells[i].child, depth - 1);
      var rest: Option<nat> := RowsFrom(m, p, i + 1, depth);
      if left.None? || rest.None? then None else Some(left.value + rest.value)
  }

  /** The tree at page p has n rows. */
  ghost predicate CountsRows(m: Store, p: nat, n: nat) {
    forall depth: nat :: LeafRows(m, p, depth).Some? ==> LeafRows(m, p, depth) == Some(n)
  }

  /** The rows below what slot s refers to, if it refers to a page of the tree. */
  ghost predicate SlotRows(page: Page, m: Store, s: Slot, n: nat) {
    if s.Kind() == BtreePage && Target(page, s) != 0 then CountsRows(m, Target(page, s), n) else n == 0
  }

  /** Before cell i of page p there are n rows. */
  ghost predicate RowsBefore(m: Store, p: nat, i: nat, n: nat) {
    && p in m && m[p].Node? && i <= |m[p].cells|
    && forall depth: nat :: depth > 0 && RowsFrom(m, p, 0, depth).Some? ==>
         RowsFrom(m, p, i, depth).Some? && RowsFrom(m, p, 0, depth).value == n + RowsFrom(m, p, i, depth).value
  }

  lemma RowsStart(m: Store, p: nat)
    requires p in m && m[p].Node?
    ensures RowsBefore(m, p, 0, 0)
  {
  }

  lemma RowsNext(m: Store, p: nat, i: nat, n: nat, x: nat)
    requires RowsBefore(m, p, i, n) && i < |m[p].cells| && Whole(m[p]) && SlotRows(m[p], m, Child(i), x)
    ensures RowsBefore(m, p, i + 1, n + x)
  {
    forall depth: nat | depth > 0 && RowsFrom(m, p, 0, depth).Some?
      ensures RowsFrom(m, p, i + 1, depth).Some?
      ensures RowsFrom(m, p, 0, depth).value == n + x + RowsFrom(m, p, i + 1, depth).value
    {
      assert RowsFrom(m, p, i, depth).Some?;
      if !m[p].leaf {
        assert Target(m[p], Child(i)) == m[p].cells[i].child;
        assert LeafRows(m, m[p].cells[i].child, depth - 1).Some?;
      }
    }
  }

  lemma RowsEnd(m: Store, p: nat, n: nat, x: nat)
    requires p in m && m[p].Node? && RowsBefore(m, p, |m[p].cells|, n) && Whole(m[p]) && SlotRows(m[p], m, Right, x)
    ensures CountsRows(m, p, n + x + if m[p].leaf then |m[p].cells| else 0)
  {
    forall depth: nat | LeafRows(m, p, depth).Some?
      ensures LeafRows(m, p, depth) == Some(n + x + if m[p].leaf then |m[p].cells| else 0)
    {
      assert RowsFrom(m, p, 0, depth).Some?;
      if !m[p].leaf {
        assert LeafRows(m, m[p].right, depth - 1).Some?;
      }
    }
  }

  /** A tree that can be read has its rows counted. */
  lemma {:induction false} RowsKnown(m: Store, p: nat, depth: nat)
    requires Walk(m, p, depth).Some?
    ensures LeafRows(m, p, depth).Some?
    decreases depth, 1, 0
  {
    RowsKnownFrom(m, p, 0, depth);
  }

  lemma {:induction false} RowsKnownFrom(m: Store, p: nat, i: nat, depth: nat)
    requires depth > 0 && p in m && m[p].Node? && i <= |m[p].cells| && WalkFrom(m, p, i, depth).Some?
    ensures RowsFrom(m, p, i, depth).Some?
    decreases depth, 0, |m[p].cells| - i
  {
    if i == |m[p].cells| {
      if !m[p].leaf {
        RowsKnown(m, m[p].right, depth - 1);
      }
    } else {
      if !m[p].leaf {
        RowsKnown(m, m[p].cells[i].child, depth - 1);
      }
      RowsKnownFrom(m, p, i + 1, depth);
    }
  }

  // ---- pages that go -------------------------------------------------------------------------------

  lemma LastOf(path: seq<nat>, p: nat)
    ensures forall i: nat :: i < |path| ==> PageAt(path + [p], i) == PageAt(path, i)
    ensures PageAt(path + [p], |path|) == p
    ensures forall q :: q in path + [p] <==> q in path || q == p
  {
  }

  /** A page on the path is a root or is referred to from the path. */
  lemma OnPath(m: Store, pm: PointerMap, roots: set<nat>, path: seq<nat>, p: nat, t: nat)
    requires PathDown(m, pm, roots, path + [p]) && t in path + [p] && t !in roots
    ensures Par(pm, t) in path
  {
    var all := path + [p];
    var i: nat :| i < |all| && all[i] == t;
    assert PageAt(all, i) == t;
    assert StepDown(pm, roots, all, i);
    assert PageAt(all, i - 1) == path[i - 1];
  }

  /** A page that a page at the end of the path refers to, in a slot not yet dealt with, is still there. */
  lemma StillThere(m: Store, pm: PointerMap, roots: set<nat>, path: seq<nat>, p: nat, gone: set<nat>, done: set<Slot>,
                   s: Slot)
    requires Progress(m, pm, roots, path + [p], gone, 0) && p in m && Handled(m, pm, p, gone, done)
    requires s !in done && Target(m[p], s) != 0
    ensures var t := Target(m[p], s);
      && t in m && t !in gone && t in pm && t !in roots && Par(pm, t) == p
      && PathDown(m, pm, roots, path + [p] + [t]) && (m[t].Node? <==> s.Kind() == BtreePage)
  {
    hide PathDown, AllGone;
    var t, all := Target(m[p], s), path + [p];
    LastOf(path, p);
    assert RefOk(m, pm, p, s);
    UniqueReferrer(m, pm, roots, t, p, s);
    assert Once(m[p]) && Par(pm, t) == p;
    forall s' | s' in done
      ensures Target(m[p], s') != t
    {
    }
    assert !TargetOf(m[p], done, t);
    if t in all {
      OnPath(m, pm, roots, path, p, t);
      NotBefore(m, pm, roots, path, p);
    }
    PathOn(m, pm, roots, all, t);
  }

  lemma NotBefore(m: Store, pm: PointerMap, roots: set<nat>, path: seq<nat>, p: nat)
    requires PathDown(m, pm, roots, path + [p])
    ensures p !in path
  {
    LastOf(path, p);
    forall i: nat | i < |path|
      ensures path[i] != p
    {
      assert PageAt(path + [p], i) != PageAt(path + [p], |path|);
      assert PageAt(path + [p], i) == path[i];
    }
  }

  lemma PathOn(m: Store, pm: PointerMap, roots: set<nat>, path: seq<nat>, t: nat)
    requires PathDown(m, pm, roots, path) && path != [] && t in m && t !in path && t !in roots
    requires Par(pm, t) == path[|path| - 1]
    ensures PathDown(m, pm, roots, path + [t])
  {
    var all := path + [t];
    LastOf(path, t);
    forall i: nat | 0 < i < |all|
      ensures StepDown(pm, roots, all, i)
    {
      if i < |path| {
        assert StepDown(pm, roots, path, i);
      } else {
        assert PageAt(all, i - 1) == path[i - 1];
      }
    }
    forall i: nat, j: nat | i < j < |all|
      ensures PageAt(all, i) != PageAt(all, j)
    {
      if j < |path| {
        assert PageAt(path, i) != PageAt(path, j);
      } else {
        assert path[i] in path;
      }
    }
  }

  /** One more slot has been dealt with. */
  lemma HandledNext(m: Store, pm: PointerMap, roots: set<nat>, path: seq<nat>, p: nat, gone: set<nat>, gone': set<nat>,
                    done: set<Slot>, s: Slot)
    requires p in m && Handled(m, pm, p, gone, done) && Gone(m, pm, roots, path + [p], gone')
    requires WentWith(pm, gone, gone', Target(m[p], s))
    ensures Handled(m, pm, p, gone', done + {s})
  {
    LastOf(path, p);
    forall q | q in gone' && Par(pm, q) == p
      ensures TargetOf(m[p], done + {s}, q)
    {
      if q in gone {
        assert TargetOf(m[p], done, q);
      } else {
        assert p in path + [p];
        assert q == Target(m[p], s);
      }
    }
  }

  lemma HandledNone(m: Store, pm: PointerMap, roots: set<nat>, path: seq<nat>, p: nat, gone: set<nat>, done: set<Slot>,
                    s: Slot)
    requires p in m && Handled(m, pm, p, gone, done) && Target(m[p], s) == 0
    ensures Handled(m, pm, p, gone, done + {s})
  {
    forall q | q in gone && Par(pm, q) == p
      ensures TargetOf(m[p], done + {s}, q)
    {
      assert TargetOf(m[p], done, q);
    }
  }

  /** Nothing below a page has gone before the page is dealt with. */
  lemma HandledStart(m: Store, pm: PointerMap, roots: set<nat>, path: seq<nat>, p: nat, gone: set<nat>)
    requires Progress(m, pm, roots, path, gone, 0) && PathDown(m, pm, roots, path + [p]) && p in m && p !in gone
    ensures Progress(m, pm, roots, path + [p], gone, 0) && Handled(m, pm, p, gone, {})
  {
    hide PathDown, AllGone, GraphOk;
    LastOf(path, p);
    NotBefore(m, pm, roots, path, p);
    forall q | q in gone
      ensures Par(pm, q) != p
    {
    }
  }

  /** All slots are dealt with. */
  ghost predicate AllDone(page: Page, done: set<Slot>) {
    forall s: Slot :: Target(page, s) != 0 ==> s in done
  }

  /** The page itself goes. */
  lemma PageGoes(m: Store, pm: PointerMap, roots: set<nat>, path: seq<nat>, p: nat, gone0: set<nat>, gone: set<nat>,
                 done: set<Slot>)
    requires Progress(m, pm, roots, path + [p], gone, 0) && path != [] && p in m && p in pm && p !in roots
    requires Handled(m, pm, p, gone, done) && AllDone(m[p], done) && PathDown(m, pm, roots, path)
    requires gone0 <= gone && forall q :: q in gone && q !in gone0 ==> Par(pm, q) in gone || Par(pm, q) == p
    ensures Progress(m, pm, roots, path, gone + {p}, 0) && WentWith(pm, gone0, gone + {p}, p)
  {
    LastOf(path, p);
    assert GoneWith(m, pm, roots, path, p, gone) by {
      hide AllGone, GraphOk;
      OnPath(m, pm, roots, path, p, p);
      NotBefore(m, pm, roots, path, p);
    }
    hide PathDown, GraphOk, Gone;
  }

  ghost predicate GoneWith(m: Store, pm: PointerMap, roots: set<nat>, path: seq<nat>, p: nat, gone: set<nat>) {
    Gone(m, pm, roots, path, gone + {p})
  }

  /** A path is no longer than there are pages. */
  lemma PathShort(m: Store, pm: PointerMap, roots: set<nat>, path: seq<nat>)
    requires PathDown(m, pm, roots, path)
    ensures |path| <= |m|
  {
    forall i, j | 0 <= i < j < |path|
      ensures path[i] != path[j]
    {
      assert PageAt(path, i) != PageAt(path, j);
    }
    DistinctSize(path);
    forall x | x in SetOf(path)
      ensures x in m.Keys
    {
      var i: nat :| i < |path| && path[i] == x;
      assert PageAt(path, i) in m;
    }
    SubsetSize(SetOf(path), m.Keys);
  }

  /** The bookkeeping while pages go: the pointer map and the freelist know those that are gone. */
  ghost predicate MapStep(pm: PointerMap, pm': PointerMap, gone: set<nat>) {
    && (forall t :: t in gone ==> t in pm' && pm'[t].kind == FreePage)
    && (forall t :: t !in gone ==> (t in pm' <==> t in pm) && (t in pm ==> pm'[t] == pm[t]))
  }

  lemma MapNext(pm: PointerMap, pm': PointerMap, gone: set<nat>, p: nat)
    requires MapStep(pm, pm', gone)
    ensures MapStep(pm, pm'[p := Entry(FreePage, 0)], gone + {p})
  {
  }

  lemma BagNext(b: multiset<nat>, gone: set<nat>, p: nat)
    requires p !in gone
    ensures b + multiset(gone) + multiset{p} == b + multiset(gone + {p})
  {
  }

  lemma InFile(l: Layout, n: nat, m: Store, b: multiset<nat>, p: nat)
    requires Partition(l, n, m, b) && p in m && p >= 2
    ensures 2 <= p <= n && l.Ordinary(p) && p !in b
  {
  }

  // ---- overflow chains -----------------------------------------------------------------------------

  /** An overflow page goes, and page next is to follow. */
  /** Once an overflow page is gone, only the next page of its chain is still referred to from pages that are gone. */
  lemma ChainGone(m: Store, gone: set<nat>, t: nat)
    requires AllGone(m, gone, t) && t in m && m[t].Overflow?
    ensures AllGone(m, gone + {t}, m[t].next)
  {
    forall q, s: Slot | q in gone + {t} && q in m
      ensures Target(m[q], s) == 0 || Target(m[q], s) in gone + {t} || Target(m[q], s) == m[t].next
    {
    }
  }

  lemma ChainOn(m: Store, pm: PointerMap, roots: set<nat>, path: seq<nat>, gone: set<nat>, t: nat)
    requires GraphOk(m, pm, roots) && PathDown(m, pm, roots, path) && Gone(m, pm, roots, path, gone)
    requires t in m && m[t].Overflow? && m[t].next != 0 && t !in gone && t !in path
    requires Par(pm, t) in gone || Par(pm, t) in path
    ensures var next := m[t].next;
      next in m && m[next].Overflow? && next !in gone + {t} && next !in path && next in pm && next !in roots &&
      Par(pm, next) == t
  {
    hide PathDown, Gone, GraphOk;
    var next := m[t].next;
    NextRef(m, pm, roots, t);
    if next in gone {
      GoneParent(m, pm, roots, path, gone, next);
    }
    if next in path {
      PathParent(m, pm, roots, path, next);
    }
  }

  lemma NextRef(m: Store, pm: PointerMap, roots: set<nat>, t: nat)
    requires GraphOk(m, pm, roots) && t in m && m[t].Overflow? && m[t].next != 0
    ensures var next := m[t].next; next in m && m[next].Overflow? && next in pm && next !in roots && Par(pm, next) == t
  {
    var next := m[t].next;
    assert Target(m[t], Next) == next;
    assert RefOk(m, pm, t, Next);
    UniqueReferrer(m, pm, roots, next, t, Next);
  }

  lemma ChainGoes(m: Store, pm: PointerMap, roots: set<nat>, path: seq<nat>, gone: set<nat>, t: nat)
    requires Progress(m, pm, roots, path, gone, t) && t in m && m[t].Overflow? && t !in gone && t !in path && t in pm
    requires t !in roots
    requires Par(pm, t) in gone || Par(pm, t) in path
    ensures Progress(m, pm, roots, path, gone + {t}, m[t].next)
    ensures var next := m[t].next;
      next != 0 ==>
        next in m && m[next].Overflow? && next !in gone + {t} && next !in path &&
        next in pm && next !in roots && Par(pm, next) == t
  {
    hide PathDown, GraphOk, AllGone;
    ChainGone(m, gone, t);
    if m[t].next != 0 {
      ChainOn(m, pm, roots, path, gone, t);
    }
  }

  lemma GoneParent(m: Store, pm: PointerMap, roots: set<nat>, path: seq<nat>, gone: set<nat>, q: nat)
    requires Gone(m, pm, roots, path, gone) && q in gone
    ensures Par(pm, q) in gone || Par(pm, q) in path
  {
  }

  lemma PathParent(m: Store, pm: PointerMap, roots: set<nat>, path: seq<nat>, t: nat)
    requires PathDown(m, pm, roots, path) && t in path && t !in roots
    ensures Par(pm, t) in path
  {
    var i: nat :| i < |path| && path[i] == t;
    assert PageAt(path, i) == t;
    assert StepDown(pm, roots, path, i);
    assert PageAt(path, i - 1) in path;
  }

  // ---- what is left --------------------------------------------------------------------------------

  /** The graph without the tree below root, which is empty now. */
  lemma ClearedGraph(m: Store, pm: PointerMap, roots: set<nat>, root: nat, gone: set<nat>, m': Store, pm': PointerMap)
    requires Progress(m, pm, roots, [root], gone, 0) && root in roots && root in m
    requires Handled(m, pm, root, gone, AllSlots(m[root]))
    requires m' == (m - gone)[root := Node(true, [], 0)]
    requires forall t :: t !in gone ==> (t in pm' <==> t in pm) && (t in pm ==> pm'[t] == pm[t])
    ensures GraphOk(m', pm', roots)
  {
    NewLeaf();
    SlotsAll(m[root]);
    forall p, s: Slot | p in m'
      ensures RefOk(m', pm', p, s)
    {
      if p == root {
        EmptyLeafTargets(m'[p], s);
      } else {
        assert RefOk(m, pm, p, s);
        if Target(m[p], s) != 0 {
          UniqueReferrer(m, pm, roots, Target(m[p], s), p, s);
        }
      }
    }
    forall p | p in m'
      ensures Once(m'[p]) && Whole(m'[p]) && Named(m', pm', roots, p)
    {
      assert Once(m[p]) && Whole(m[p]) && Named(m, pm, roots, p);
      if p == root {
        EmptyLeafOnce(m'[p]);
      } else if p !in roots {
        var q, k := pm[p].parent, pm[p].kind;
        var s: Slot :| s.Kind() == k && Target(m[q], s) == p;
        assert q !in gone && q != root;
        assert PointsTo(m'[q], k, p);
      }
    }
  }

  /** The slots of a page that may hold a page number. */
  ghost function AllSlots(page: Page): set<Slot> {
    match page
    case Node(_, cells, _) =>
      (set i: nat | i < |cells| :: Child(i)) + (set i: nat | i < |cells| :: Spill(i)) + {Right}
    case Overflow(_, _) => {Next}
  }

  lemma SlotsAll(page: Page)
    ensures AllDone(page, AllSlots(page))
  {
    forall s: Slot | Target(page, s) != 0
      ensures s in AllSlots(page)
    {
      match s
      case Child(i) =>
      case Spill(i) =>
      case Right =>
      case Next =>
    }
  }

  /** The other trees read the same. */
  lemma ClearedReads(m: Store, pm: PointerMap, roots: set<nat>, root: nat, gone: set<nat>, m': Store)
    requires Progress(m, pm, roots, [root], gone, 0) && root in roots && m' == (m - gone)[root := Node(true, [], 0)]
    ensures SameTrees(m, m', roots - {root})
  {
    var rest := m - (gone + {root});
    assert RestClosed(m, pm, roots, root, gone) by {
      RestIsClosed(m, pm, roots, root, gone);
    }
    assert Extends(rest, m) && Extends(rest, m');
    forall r | r in roots - {root}
      ensures ReadsAs(m, r, m', r)
    {
      assert r in rest;
      forall depth: nat
        ensures Walk(m', r, depth) == Walk(m, r, depth)
      {
        WalkExtends(rest, m, r, depth);
        WalkExtends(rest, m', r, depth);
      }
    }
  }

  ghost predicate RestClosed(m: Store, pm: PointerMap, roots: set<nat>, root: nat, gone: set<nat>) {
    PageGraph.Closed(m - (gone + {root}))
  }

  lemma RestIsClosed(m: Store, pm: PointerMap, roots: set<nat>, root: nat, gone: set<nat>)
    requires Progress(m, pm, roots, [root], gone, 0) && root in roots
    ensures RestClosed(m, pm, roots, root, gone)
  {
    var rest := m - (gone + {root});
    forall p, s: Slot | p in rest
      ensures Target(rest[p], s) == 0 || Target(rest[p], s) in rest
    {
      var t := Target(m[p], s);
      if t != 0 {
        assert RefOk(m, pm, p, s);
        UniqueReferrer(m, pm, roots, t, p, s);
        assert p !in [root] && Par(pm, t) == p;
      }
    }
  }

  /** The database is sound again. */
  lemma SoundClear(l: Layout, n: nat, count: nat, b: multiset<nat>, m: Store, pm: PointerMap, top: nat,
                   gone: set<nat>, count': nat, m': Store, pm': PointerMap)
    requires Sound(l, n, count, b, m, pm, top) && BagOk(l, n, count', b + multiset(gone))
    requires GraphOk(m', pm', Pages(l, top))
    requires m'.Keys == m.Keys - gone && gone <= m.Keys && 1 in m'
    requires forall t :: t in gone ==> t in pm' && pm'[t].kind == FreePage
    requires forall t :: t !in gone ==> (t in pm' <==> t in pm) && (t in pm ==> pm'[t] == pm[t])
    ensures Sound(l, n, count', b + multiset(gone), m', pm', top)
  {
    hide GraphOk, NoDup, Pages;
    forall p
      ensures p in Pages(l, n) <==> p in m' || p in b + multiset(gone)
      ensures p in m' ==> p !in b + multiset(gone)
    {
      assert p in m' <==> p in m && p !in gone;
    }
  }

  lemma OpenMore(m: Store, pm: PointerMap, roots: set<nat>, path: seq<nat>, gone: set<nat>, t: nat)
    requires Progress(m, pm, roots, path, gone, 0)
    ensures Progress(m, pm, roots, path, gone, t)
  {
    hide GraphOk, PathDown, Gone;
  }

  /** Page 1 is referred to by no page. */
  lemma NotPageOne(m: Store, pm: PointerMap, roots: set<nat>, path: seq<nat>, gone: set<nat>, open: nat, t: nat)
    requires Progress(m, pm, roots, path, gone, open) && t in m && t in pm
    ensures t >= 2
  {
  }

  lemma Fewer(all: set<nat>, gone: set<nat>, p: nat)
    requires p in all && p !in gone
    ensures |all - (gone + {p})| < |all - gone| && |gone + {p}| == |gone| + 1
  {
    assert all - gone == (all - (gone + {p})) + {p};
  }

  /** What has been dealt with of page p, the last of the path: the slots done. */
  ghost predicate Dealing(m: Store, pm: PointerMap, roots: set<nat>, path: seq<nat>, p: nat, gone0: set<nat>,
                          gone: set<nat>, done: set<Slot>) {
    && p in m && Progress(m, pm, roots, path + [p], gone, 0) && Handled(m, pm, p, gone, done)
    && gone0 <= gone && (forall q :: q in gone && q !in gone0 ==> Par(pm, q) in gone || Par(pm, q) == p)
  }

  lemma DealStart(m: Store, pm: PointerMap, roots: set<nat>, path: seq<nat>, p: nat, gone: set<nat>)
    requires Progress(m, pm, roots, path, gone, 0) && PathDown(m, pm, roots, path + [p]) && p in m && p !in gone
    ensures Dealing(m, pm, roots, path, p, gone, gone, {})
  {
    HandledStart(m, pm, roots, path, p, gone);
  }

  /** The page that slot s refers to can be dealt with. */
  lemma DealTarget(m: Store, pm: PointerMap, roots: set<nat>, path: seq<nat>, p: nat, gone0: set<nat>, gone: set<nat>,
                   done: set<Slot>, s: Slot)
    requires Dealing(m, pm, roots, path, p, gone0, gone, done) && s !in done && Target(m[p], s) != 0
    ensures var t := Target(m[p], s);
      && t in m && t !in gone && t in pm && t !in roots && Par(pm, t) == p && t !in path + [p]
      && PathDown(m, pm, roots, path + [p] + [t]) && (m[t].Node? <==> s.Kind() == BtreePage)
      && Progress(m, pm, roots, path + [p], gone, 0) && p in path + [p]
  {
    hide Progress, Handled, PathDown;
    StillThere(m, pm, roots, path, p, gone, done, s);
    NotBefore(m, pm, roots, path + [p], Target(m[p], s));
  }

  lemma DealNext(m: Store, pm: PointerMap, roots: set<nat>, path: seq<nat>, p: nat, gone0: set<nat>, gone: set<nat>,
                 gone': set<nat>, done: set<Slot>, s: Slot)
    requires Dealing(m, pm, roots, path, p, gone0, gone, done) && Target(m[p], s) != 0 && Par(pm, Target(m[p], s)) == p
    requires Progress(m, pm, roots, path + [p], gone', 0) && WentWith(pm, gone, gone', Target(m[p], s))
    ensures Dealing(m, pm, roots, path, p, gone0, gone', done + {s})
  {
    hide AllGone, GraphOk, PathDown, Handled;
    HandledNext(m, pm, roots, path, p, gone, gone', done, s);
  }

  lemma DealNone(m: Store, pm: PointerMap, roots: set<nat>, path: seq<nat>, p: nat, gone0: set<nat>, gone: set<nat>,
                 done: set<Slot>, s: Slot)
    requires Dealing(m, pm, roots, path, p, gone0, gone, done) && Target(m[p], s) == 0
    ensures Dealing(m, pm, roots, path, p, gone0, gone, done + {s})
  {
    HandledNone(m, pm, roots, path, p, gone, done, s);
  }

  lemma DealEnd(m: Store, pm: PointerMap, roots: set<nat>, path: seq<nat>, p: nat, gone0: set<nat>, gone: set<nat>,
                done: set<Slot>)
    requires Dealing(m, pm, roots, path, p, gone0, gone, done) && AllDone(m[p], done) && PathDown(m, pm, roots, path)
    requires path != [] && p in pm && p !in roots
    ensures Progress(m, pm, roots, path, gone + {p}, 0) && WentWith(pm, gone0, gone + {p}, p) && p >= 2 && p !in gone
  {
    LastOf(path, p);
    PageGoes(m, pm, roots, path, p, gone0, gone, done);
  }

  /** The slots of cells before cell i of a page. */
  ghost function SlotsBefore(i: nat): set<Slot> {
    (set k: nat | k < i :: Child(k)) + (set k: nat | k < i :: Spill(k))
  }

  lemma SlotsNext(i: nat)
    ensures SlotsBefore(i) + {Child(i)} + {Spill(i)} == SlotsBefore(i + 1)
    ensures Child(i) !in SlotsBefore(i) && Spill(i) !in SlotsBefore(i) + {Child(i)} && Right !in SlotsBefore(i)
  {
  }

  lemma SlotsEnd(page: Page)
    requires page.Node?
    ensures SlotsBefore(|page.cells|) + {Right} == AllSlots(page) && SlotsBefore(0) == {}
  {
  }

  lemma WholePage(m: Store, pm: PointerMap, roots: set<nat>, path: seq<nat>, gone: set<nat>, p: nat)
    requires Progress(m, pm, roots, path, gone, 0) && p in m
    ensures Whole(m[p]) && PathDown(m, pm, roots, path) && 0 !in m
  {
  }

  lemma DealStays(m: Store, pm: PointerMap, roots: set<nat>, path: seq<nat>, p: nat, gone0: set<nat>, gone: set<nat>,
                  done: set<Slot>)
    requires Dealing(m, pm, roots, path, p, gone0, gone, done)
    ensures p !in gone
  {
    LastOf(path, p);
  }

  /** The state in which a table is about to be cleared. */
  lemma ClearStart(l: Layout, n: nat, b: multiset<nat>, m: Store, pm: PointerMap, roots: set<nat>, root: nat)
    requires GraphOk(m, pm, roots) && root in roots
    ensures Progress(m, pm, roots, [], {}, 0) && PathDown(m, pm, roots, [] + [root]) && root in m && m[root].Node?
  {
    assert Named(m, pm, roots, root);
  }

  lemma DealtAll(m: Store, pm: PointerMap, roots: set<nat>, root: nat, gone: set<nat>, m': Store, pm': PointerMap)
    requires root in m && Dealing(m, pm, roots, [], root, {}, gone, AllSlots(m[root])) && root in roots
    requires MapStep(pm, pm', gone)
    requires gone <= m.Keys && m' == (m - gone)[root := Node(true, [], 0)]
    ensures Progress(m, pm, roots, [root], gone, 0) && Handled(m, pm, root, gone, AllSlots(m[root])) && root !in gone
    ensures m'.Keys == m.Keys - gone && (1 in m ==> 1 in m')
    ensures forall t :: t in gone ==> t in pm' && pm'[t].kind == FreePage
    ensures forall t :: t !in gone ==> (t in pm' <==> t in pm) && (t in pm ==> pm'[t] == pm[t])
  {
    assert [] + [root] == [root];
    DealStays(m, pm, roots, [], root, {}, gone, AllSlots(m[root]));
    if 1 in gone {
      OneNotGone(m, pm, roots, [root], gone);
    }
  }

  lemma OneNotGone(m: Store, pm: PointerMap, roots: set<nat>, path: seq<nat>, gone: set<nat>)
    requires Progress(m, pm, roots, path, gone, 0)
    ensures 1 !in gone
  {
  }

  /** What is read after clearing and dropping a table is what was read before. */
  lemma DropReads(m: Store, m1: Store, m2: Store, roots': set<nat>, roots: set<nat>, table: nat, top: nat)
    requires SameTrees(m, m1, roots - {table})
    requires forall r :: r in roots && r != table ==>
      ReadsAs(m1, r, m2, Ren(top, table, r)) && Ren(top, table, r) in roots'
    ensures forall r :: r in roots && r != table ==>
      ReadsAs(m, r, m2, Ren(top, table, r)) && Ren(top, table, r) in roots'
  {
    hide ReadsAs, Ren;
    forall r | r in roots && r != table
      ensures ReadsAs(m, r, m2, Ren(top, table, r))
    {
      assert r in roots - {table};
      ReadsTrans(m, r, m1, r, m2, Ren(top, table, r));
    }
  }
}
