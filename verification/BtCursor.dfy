/** A cursor on a btree: seeking, stepping in both directions, and keeping its place while the tree changes. */
module BtCursors {
  import opened TreeEntries
  import opened SeekSides

  /** Where the calls that place a cursor send it. */
  datatype Seek = ToFirst | ToLast | ToKey(probe: Probe, biasRight: bool)

  datatype CursorState = Valid | Invalid | SkipNext | RequireSeek

  datatype Rc = Ok | Done | Empty

  /** The order of the entries. */
  ghost predicate Monotone(p: Probe) {
    forall a: int, b: int :: a < b ==> InStep(Compare(p, a), Compare(p, b))
  }

  predicate InStep(a: int, b: int) {
    (a >= 0 ==> b >= 0) && (a > 0 ==> b > 0)
  }

  /** Entries before rank lo are too small, those from hi on too large. */
  ghost predicate Between(p: Probe, e: seq<int>, lo: nat, hi: nat) {
    && lo <= hi <= |e|
    && (forall r: nat :: r < lo ==> Compare(p, e[r]) < 0)
    && (forall r: nat :: hi <= r < |e| ==> Compare(p, e[r]) > 0)
  }

  class BtCursor {
    const intKey: bool
    const pageOne: bool
    ghost var height: nat
    var root: Tree
    var eState: CursorState
    var loaded: bool
    var apPage: seq<Tree>
    var aiIdx: seq<nat>
    var pPage: Tree
    var ix: nat
    var skipNext: int
    var nKey: int
    var atLast: bool
    var validNKey: bool
    var infoKey: int
    ghost var mark: int

    constructor (intKey: bool, pageOne: bool, root: Tree, ghost height: nat)
      requires RootOk(root, intKey, height, pageOne)
      ensures Inv() && eState == Invalid && this.root == root && this.height == height
      ensures this.intKey == intKey && this.pageOne == pageOne
    {
      this.intKey, this.pageOne, this.root, this.height := intKey, pageOne, root, height;
      eState, loaded, skipNext := Invalid, false, 0;
      apPage, aiIdx, pPage, ix := [], [], root, 0;
      nKey, atLast, validNKey, infoKey, mark := 0, false, false, 0, 0;
    }

    ghost function All(): seq<int>
      reads this
    {
      Entries(root, intKey)
    }

    /** The cursor's page belongs to the tree, and its cell exists. */
    ghost predicate Placed()
      reads this
    {
      loaded && PathOk(root, apPage, aiIdx, pPage) && ix < NCell(pPage)
    }

    ghost predicate AtEntry()
      reads this
    {
      Placed() && (intKey ==> pPage.Leaf?)
    }

    /** The rank of the cursor's entry. */
    ghost function Rank(): nat
      requires ix <= NCell(pPage)
      reads this
    {
      Base(apPage, aiIdx, intKey) + Own(pPage, ix, intKey)
    }

    ghost predicate Rooted()
      reads this
    {
      RootOk(root, intKey, height, pageOne)
    }

    ghost predicate Inv()
      reads this
    {
      && Rooted() && (loaded ==> PathOk(root, apPage, aiIdx, pPage))
      && match eState
         case Invalid => true
         case RequireSeek => !loaded
         case Valid => && AtEntry()
           && (atLast ==> Rank() + 1 == |All()|)
           && (validNKey ==> intKey && Rank() < |All()| && infoKey == All()[Rank()])
         case SkipNext => AtEntry() && skipNext != 0 && !atLast && Splits(if skipNext > 0 then Rank() else Rank() + 1)
    }

    /** The entries before rank n are below the mark, the others are not. */
    ghost predicate Splits(n: nat)
      reads this
    {
      && n <= |All()| && (forall r: nat :: r < n ==> All()[r] < mark)
      && forall r: nat :: n <= r < |All()| ==> All()[r] >= mark
    }

    /** The rank of the entry that a step forward leads to, and that a step back leads to. A saved cursor that has
        a step to skip has it also after its place is found again. */
    ghost function NextRank(): nat
      requires eState == Valid || eState == SkipNext ==> ix <= NCell(pPage)
      reads this
    {
      match eState
      case Invalid => |All()|
      case RequireSeek => if skipNext > 0 then Below(All(), nKey) else UpTo(All(), nKey)
      case Valid => if intKey && pPage.Interior? then Rank() else Rank() + 1
      case SkipNext => if skipNext > 0 then Rank() else Rank() + 1
    }

    ghost function PrevRank(): int
      requires eState == Valid || eState == SkipNext ==> ix <= NCell(pPage)
      reads this
    {
      match eState
      case Invalid => -1
      case RequireSeek => if skipNext < 0 then UpTo(All(), nKey) - 1 else Below(All(), nKey) - 1
      case Valid => Rank() - 1
      case SkipNext => if skipNext > 0 then Rank() - 1 else Rank()
    }

    /** What holds before a step; while a step is under way the cursor may be on an interior page of a table. */
    ghost predicate Ready()
      reads this
    {
      if eState == Valid then Rooted() && Placed() && (atLast ==> NextRank() == |All()|) else Inv()
    }

    /** The depth of calls: a saved place is sought first, a table's interior page is left at once. */
    ghost function Level(): nat
      reads this
    {
      if eState == RequireSeek then 3 else if eState == Valid && pPage.Interior? then 0 else 1
    }

    /** What the saved key is compared with entries as. */
    function SavedProbe(): Probe
      reads this
    {
      if intKey then RowId(nKey) else Record(Against(nKey))
    }

    /** The place is saved with a step back to skip, its entry is gone, and its search ends above it. Steps then
        lead one entry too far: see Restore(). */
    ghost predicate Slips()
      reads this
    {
      eState == RequireSeek && skipNext < 0 && nKey !in All() && SeeksAbove(root, SavedProbe(), false)
    }

    /** How many entries too far steps lead. */
    ghost function Slip(): nat
      reads this
    {
      if Slips() then 1 else 0
    }

    /** The cursor is on the entry of rank t, or past the end if there is none. */
    ghost predicate Stepped(t: int, rc: Rc)
      reads this
    {
      if 0 <= t < |All()| then rc == Ok && eState == Valid && AtEntry() && Rank() == t
      else rc == Done && eState == Invalid
    }

    // ---- moves between pages -----------------------------------------------------------------------

    /** moveToChild() */
    method MoveToChild(i: nat)
      requires Rooted() && loaded && PathOk(root, apPage, aiIdx, pPage) && pPage.Interior? && i <= NCell(pPage)
      requires i == ix
      modifies `apPage, `aiIdx, `pPage, `ix, `validNKey
      ensures PathOk(root, apPage, aiIdx, pPage) && ix == 0 && pPage == Child(old(pPage), i) && !validNKey
      ensures |apPage| < height && TreeOk(pPage, intKey, height - |apPage|) && pPage < old(pPage)
      ensures Base(apPage, aiIdx, intKey) == old(Base(apPage, aiIdx, intKey) + Offset(pPage, i, intKey))
    {
      hide PathOk, RootOk, Base, TreeOk;
      PathPages(root, apPage, aiIdx, pPage, intKey, height, pageOne);
      PathPush(root, apPage, aiIdx, pPage, i, intKey);
      ghost var was := pPage;
      HeightIs(root, intKey, height, pageOne);
      if |apPage| >= 19 {
        assert false;  // SQLITE_CORRUPT
      }
      validNKey := false;
      aiIdx := aiIdx + [ix];
      apPage := apPage + [pPage];
      ix := 0;
      pPage := Child(pPage, i);
      PathPages(root, apPage, aiIdx, pPage, intKey, height, pageOne);
    }

    static lemma HeightIs(t: Tree, table: bool, height: nat, pageOne: bool)
      requires RootOk(t, table, height, pageOne)
      ensures 1 <= height <= 20
    {
    }

    /** moveToParent() */
    method MoveToParent()
      requires loaded && PathOk(root, apPage, aiIdx, pPage) && apPage != []
      modifies `apPage, `aiIdx, `pPage, `ix, `validNKey
      ensures PathOk(root, apPage, aiIdx, pPage) && pPage.Interior? && ix <= NCell(pPage) && !validNKey
      ensures |apPage| == |old(apPage)| - 1 && old(pPage) == Child(pPage, ix)
      ensures Base(apPage, aiIdx, intKey) + Own(pPage, ix, intKey) ==
        old(Base(apPage, aiIdx, intKey)) + Count(old(pPage), intKey)
      ensures Base(apPage, aiIdx, intKey) + Offset(pPage, ix, intKey) == old(Base(apPage, aiIdx, intKey))
    {
      var l := |apPage| - 1;
      validNKey := false;
      ix := aiIdx[l];
      pPage := apPage[l];
      apPage, aiIdx := apPage[..l], aiIdx[..l];
    }

    /** moveToRoot() */
    method MoveToRoot() returns (rc: Rc)
      requires Inv()
      modifies this
      ensures root == old(root) && height == old(height) && Rooted() && loaded && PathOk(root, apPage, aiIdx, pPage)
      ensures skipNext == old(skipNext) && mark == old(mark) && nKey == old(nKey) && !atLast && !validNKey
      ensures if All() == [] then rc == Empty && eState == Invalid else rc == Ok && eState == Valid && ix == 0
      ensures if All() == [] then root.Leaf? && NCell(root) == 0
              else pPage == if root.Interior? && NCell(root) == 0 then Child(root, 0) else root
      ensures All() != [] ==> Base(apPage, aiIdx, intKey) == 0 && Count(pPage, intKey) == |All()| && NCell(pPage) > 0
    {
      hide TreeOk, Entries, Front, KidsOk, RootOk, Splits, UpTo, Below, PathOk, Base;
      ToRootPage();
      PathNone(root, intKey);
      if NCell(pPage) > 0 {
        eState := Valid;
        RootCount(root, intKey, height, pageOne);
        rc := Ok;
      } else if !pPage.Leaf? {
        eState := Valid;
        RootCount(root, intKey, height, pageOne);
        MoveToChild(0);
        CellsSome(pPage, intKey, height - |apPage|);
        FrontNone(root, intKey);
        rc := Ok;
      } else {
        eState := Invalid;
        EntriesNone(root, intKey);
        rc := Empty;
      }
    }

    /** The part of moveToRoot() that gives up the pages below the root. */
    method ToRootPage()
      requires loaded ==> PathOk(root, apPage, aiIdx, pPage)
      modifies `apPage, `aiIdx, `pPage, `ix, `loaded, `atLast, `validNKey
      ensures loaded && apPage == [] && aiIdx == [] && pPage == root && ix == 0 && !atLast && !validNKey
    {
      if loaded {
        if apPage != [] {
          PathRoot(root, apPage, aiIdx, pPage);
          pPage := apPage[0];
        }
      } else {
        pPage := root;
        loaded := true;
      }
      apPage, aiIdx := [], [];
      ix := 0;
      atLast, validNKey := false, false;
    }

    static lemma PathNone(root: Tree, table: bool)
      ensures PathOk(root, [], [], root) && Base([], [], table) == 0
    {
    }

    static lemma {:induction false} PathRoot(root: Tree, pages: seq<Tree>, idx: seq<nat>, page: Tree)
      requires PathOk(root, pages, idx, page) && pages != []
      ensures pages[0] == root
      decreases |pages|
    {
      var l := |pages| - 1;
      if l > 0 {
        PathRoot(root, pages[..l], idx[..l], pages[l]);
      }
    }

    static lemma RootCount(t: Tree, table: bool, height: nat, pageOne: bool)
      requires RootOk(t, table, height, pageOne) && (t.Interior? || NCell(t) > 0)
      ensures Entries(t, table) != []
    {
      if t.Interior? {
        assert TreeOk(Child(t, NCell(t)), table, height - 1);
        CountPositive(t.right, table, height - 1);
      }
    }

    static lemma CellsSome(t: Tree, table: bool, height: nat)
      requires TreeOk(t, table, height)
      ensures NCell(t) > 0
    {
    }

    static lemma FrontNone(t: Tree, table: bool)
      requires t.Interior? && NCell(t) == 0
      ensures Offset(t, 0, table) == 0 && Entries(t, table) == Entries(Child(t, 0), table)
    {
    }

    static lemma EntriesNone(t: Tree, table: bool)
      requires t.Leaf? && NCell(t) == 0
      ensures Entries(t, table) == []
    {
    }

    /** moveToLeftmost(): the first entry below the cursor's cell. */
    method MoveToLeftmost()
      requires Rooted() && loaded && PathOk(root, apPage, aiIdx, pPage) && ix < NCell(pPage)
      modifies `apPage, `aiIdx, `pPage, `ix, `validNKey
      ensures Placed() && pPage.Leaf? && (validNKey ==> old(pPage).Leaf? && old(validNKey))
      ensures Rank() == old(Base(apPage, aiIdx, intKey) + Offset(pPage, ix, intKey))
    {
      hide PathOk, Base, TreeOk, RootOk;
      while !pPage.Leaf?
        invariant PathOk(root, apPage, aiIdx, pPage) && ix < NCell(pPage)
        invariant Base(apPage, aiIdx, intKey) + Offset(pPage, ix, intKey) ==
          old(Base(apPage, aiIdx, intKey) + Offset(pPage, ix, intKey))
        invariant validNKey ==> pPage == old(pPage) && old(validNKey)
        decreases pPage
      {
        MoveToChild(ix);
        CellsSome(pPage, intKey, height - |apPage|);
        NoOffset(pPage, intKey);
      }
    }

    static lemma NoOffset(t: Tree, table: bool)
      ensures Offset(t, 0, table) == 0
    {
    }

    /** moveToRightmost(): the last entry below the cursor's page. */
    method MoveToRightmost()
      requires Rooted() && loaded && PathOk(root, apPage, aiIdx, pPage) && NCell(pPage) > 0
      modifies `apPage, `aiIdx, `pPage, `ix, `validNKey
      ensures Placed() && pPage.Leaf? && (validNKey ==> old(validNKey) && old(pPage).Leaf?)
      ensures Rank() + 1 == old(Base(apPage, aiIdx, intKey) + Count(pPage, intKey))
    {
      hide PathOk, Base, TreeOk, RootOk;
      while !pPage.Leaf?
        invariant PathOk(root, apPage, aiIdx, pPage) && NCell(pPage) > 0
        invariant Base(apPage, aiIdx, intKey) + Count(pPage, intKey) ==
          old(Base(apPage, aiIdx, intKey) + Count(pPage, intKey))
        invariant validNKey ==> pPage == old(pPage) && old(validNKey)
        decreases pPage
      {
        ix := NCell(pPage);
        ChildSlice(pPage, ix, intKey);
        MoveToChild(NCell(pPage));
        CellsSome(pPage, intKey, height - |apPage|);
      }
      ix := NCell(pPage) - 1;
    }

    // ---- seeking -----------------------------------------------------------------------------------

    /** The keys of the page below cell n are too small, the others too large. */
    static ghost predicate Parted(page: Tree, p: Probe, n: nat) {
      && n <= NCell(page)
      && (forall i: nat :: i < n ==> Compare(p, CellKey(page, i)) < 0)
      && (forall i: nat :: n <= i < NCell(page) ==> Compare(p, CellKey(page, i)) > 0)
    }

    /** The binary search on a page has come to compare cell idx: those before lwr are too small, those past upr too
        large. */
    static ghost predicate Searching(page: Tree, p: Probe, biasRight: bool, lwr: nat, upr: int, idx: nat) {
      var k := FirstAtLeast(page, p, 0);
      && lwr <= idx <= upr < NCell(page)
      && (forall i: nat :: i < lwr ==> Compare(p, CellKey(page, i)) < 0)
      && (forall i: nat :: upr < i < NCell(page) ==> Compare(p, CellKey(page, i)) > 0)
      && (EndsAbove(lwr, upr, idx, k) <==> EndsAbove(0, NCell(page) - 1, FirstIndex(NCell(page), biasRight), k))
    }

    /** It has ended between cells lwr - 1 and lwr, the last comparison being c. */
    static ghost predicate Searched(page: Tree, p: Probe, biasRight: bool, lwr: nat, c: int) {
      && NCell(page) > 0 && Parted(page, p, lwr) && lwr == FirstAtLeast(page, p, 0)
      && (c > 0 <==> EndsAbove(0, NCell(page) - 1, FirstIndex(NCell(page), biasRight), lwr))
    }

    static lemma SearchStart(page: Tree, p: Probe, biasRight: bool)
      requires NCell(page) > 0
      ensures Searching(page, p, biasRight, 0, NCell(page) - 1, FirstIndex(NCell(page), biasRight))
    {
    }

    static lemma SearchLow(root: Tree, pages: seq<Tree>, ids: seq<nat>, page: Tree, table: bool, height: nat,
                           pageOne: bool, p: Probe, biasRight: bool, lwr: nat, upr: nat, idx: nat)
      requires RootOk(root, table, height, pageOne) && PathOk(root, pages, ids, page) && Monotone(p)
      requires Searching(page, p, biasRight, lwr, upr, idx) && Compare(p, CellKey(page, idx)) < 0
      ensures if idx == upr then Searched(page, p, biasRight, idx + 1, Compare(p, CellKey(page, idx)))
              else Searching(page, p, biasRight, idx + 1, upr, (idx + 1 + upr) / 2)
    {
      hide PathOk, RootOk, Compare, CellKey, Monotone, NCell, FirstAtLeast, EndsAbove, FirstIndex;
      KeysInStep(root, pages, ids, page, table, height, pageOne, p, idx);
      FirstSide(page, p, 0, idx);
      EndsStep(lwr, upr, idx, FirstAtLeast(page, p, 0));
      if idx == upr {
        FirstIs(page, p, 0, idx + 1);
      }
    }

    static lemma SearchHigh(root: Tree, pages: seq<Tree>, ids: seq<nat>, page: Tree, table: bool, height: nat,
                            pageOne: bool, p: Probe, biasRight: bool, lwr: nat, upr: nat, idx: nat)
      requires RootOk(root, table, height, pageOne) && PathOk(root, pages, ids, page) && Monotone(p)
      requires Searching(page, p, biasRight, lwr, upr, idx) && Compare(p, CellKey(page, idx)) > 0
      ensures if idx == lwr then Searched(page, p, biasRight, idx, Compare(p, CellKey(page, idx)))
              else Searching(page, p, biasRight, lwr, idx - 1, (lwr + idx - 1) / 2)
    {
      hide PathOk, RootOk, Compare, CellKey, Monotone, NCell, FirstAtLeast, EndsAbove, FirstIndex;
      KeysInStep(root, pages, ids, page, table, height, pageOne, p, idx);
      FirstSide(page, p, 0, idx);
      EndsStep(lwr, upr, idx, FirstAtLeast(page, p, 0));
      if idx == lwr {
        FirstIs(page, p, 0, idx);
      }
    }

    static lemma SearchFacts(page: Tree, p: Probe, biasRight: bool, lwr: nat, upr: int, idx: nat)
      requires Searching(page, p, biasRight, lwr, upr, idx)
      ensures lwr <= idx <= upr < NCell(page)
    {
    }

    /** The binary search on one page. */
    method SearchPage(p: Probe, biasRight: bool) returns (found: bool, lwr: nat, idx: nat, c: int)
      requires Rooted() && loaded && PathOk(root, apPage, aiIdx, pPage) && NCell(pPage) > 0 && Monotone(p)
      modifies `ix
      ensures idx < NCell(pPage) && c == Compare(p, CellKey(pPage, idx)) && (found <==> c == 0)
      ensures found ==> ix == idx
      ensures !found ==>
        ix < NCell(pPage) && lwr == (if c < 0 then idx + 1 else idx) && Searched(pPage, p, biasRight, lwr, c)
    {
      hide PathOk, RootOk, Compare, CellKey, Monotone, NCell, Searching, Searched;
      lwr := 0;
      var upr: int := NCell(pPage) - 1;
      idx := if biasRight then upr else upr / 2;
      ix := idx;
      SearchStart(pPage, p, biasRight);
      while true
        invariant Searching(pPage, p, biasRight, lwr, upr, idx) && ix < NCell(pPage)
        decreases upr - lwr
      {
        SearchFacts(pPage, p, biasRight, lwr, upr, idx);
        c := Compare(p, CellKey(pPage, idx));
        if c < 0 {
          SearchLow(root, apPage, aiIdx, pPage, intKey, height, pageOne, p, biasRight, lwr, upr, idx);
          lwr := idx + 1;
        } else if c > 0 {
          SearchHigh(root, apPage, aiIdx, pPage, intKey, height, pageOne, p, biasRight, lwr, upr, idx);
          upr := idx - 1;
        } else {
          ix := idx;
          return true, lwr, idx, c;
        }
        if lwr > upr {
          break;
        }
        idx := (lwr + upr) / 2;
      }
      found := false;
    }

    static lemma KeysInStep(root: Tree, pages: seq<Tree>, idx: seq<nat>, page: Tree, table: bool, height: nat,
                            pageOne: bool, p: Probe, i: nat)
      requires RootOk(root, table, height, pageOne) && PathOk(root, pages, idx, page) && i < NCell(page) && Monotone(p)
      ensures Compare(p, CellKey(page, i)) < 0 ==> forall j: nat :: j < i ==> Compare(p, CellKey(page, j)) < 0
      ensures Compare(p, CellKey(page, i)) > 0 ==> forall j: nat :: i < j < NCell(page) ==>
        Compare(p, CellKey(page, j)) > 0
    {
      forall j: nat | j < NCell(page) && j != i
        ensures if j < i then InStep(Compare(p, CellKey(page, j)), Compare(p, CellKey(page, i)))
                else InStep(Compare(p, CellKey(page, i)), Compare(p, CellKey(page, j)))
      {
        if j < i {
          KeysAscend(root, pages, idx, page, table, height, pageOne, j, i);
        } else {
          KeysAscend(root, pages, idx, page, table, height, pageOne, i, j);
        }
      }
    }

    /** What is too small has everything before it too small, and so for too large. */
    static lemma BetweenFrom(p: Probe, e: seq<int>, lo: nat, hi: nat, lo': nat, hi': nat)
      requires Monotone(p) && Ascending(e) && Between(p, e, lo, hi) && lo' <= hi' <= |e|
      requires lo' <= lo || Compare(p, e[lo' - 1]) < 0
      requires hi' >= hi || Compare(p, e[hi']) > 0
      ensures Between(p, e, lo', hi')
    {
      forall r: nat | r < lo'
        ensures Compare(p, e[r]) < 0
      {
        if lo' > lo && r < lo' - 1 {
          assert InStep(Compare(p, e[r]), Compare(p, e[lo' - 1]));
        }
      }
      forall r: nat | hi' <= r < |e|
        ensures Compare(p, e[r]) > 0
      {
        if hi' < hi && r > hi' {
          assert InStep(Compare(p, e[hi']), Compare(p, e[r]));
        }
      }
    }

    /** The entry before child n is below what is sought if the cell before it is. */
    static lemma SeekBelow(root: Tree, pages: seq<Tree>, idx: seq<nat>, page: Tree, table: bool, height: nat,
                           pageOne: bool, p: Probe, n: nat)
      requires RootOk(root, table, height, pageOne) && PathOk(root, pages, idx, page) && page.Interior?
      requires 0 < n <= NCell(page)
      requires Monotone(p) && Compare(p, CellKey(page, n - 1)) < 0
      ensures var e, lo := Entries(root, table), Base(pages, idx, table) + Offset(page, n, table);
        0 < lo <= |e| && Compare(p, e[lo - 1]) < 0
    {
      hide PathOk, RootOk, TreeOk, Entries, Monotone, Compare, Base, Offset, CellKey;
      Neighbours(root, pages, idx, page, table, height, pageOne, n - 1);
      SmallToo(p, Entries(root, table)[Base(pages, idx, table) + Offset(page, n, table) - 1], CellKey(page, n - 1));
    }

    /** The entry after child n is above what is sought if the cell after it is, or is an equal one of a table. */
    static lemma SeekAbove(root: Tree, pages: seq<Tree>, idx: seq<nat>, page: Tree, table: bool, height: nat,
                           pageOne: bool, p: Probe, n: nat)
      requires RootOk(root, table, height, pageOne) && PathOk(root, pages, idx, page) && page.Interior?
      requires n < NCell(page)
      requires table ==> p.RowId?
      requires var c := Compare(p, CellKey(page, n)); c > 0 || (c == 0 && table)
      ensures var e, hi := Entries(root, table), Base(pages, idx, table) + Own(page, n, table);
        hi < |e| && Compare(p, e[hi]) > 0
    {
      hide PathOk, RootOk, TreeOk, Entries, Base, Own, CellKey;
      Neighbours(root, pages, idx, page, table, height, pageOne, n);
      if table {
        LargeToo(p, CellKey(page, n), Entries(root, table)[Base(pages, idx, table) + Own(page, n, table)]);
      }
    }

    /** Seeking goes on below the child that the keys of the page point out. */
    static lemma SeekChild(root: Tree, pages: seq<Tree>, idx: seq<nat>, page: Tree, table: bool, height: nat,
                           pageOne: bool, p: Probe, n: nat)
      requires RootOk(root, table, height, pageOne) && PathOk(root, pages, idx, page) && page.Interior?
      requires n <= NCell(page)
      requires Monotone(p) && (table ==> p.RowId?)
      requires n > 0 ==> Compare(p, CellKey(page, n - 1)) < 0
      requires n < NCell(page) ==> var c := Compare(p, CellKey(page, n)); c > 0 || (c == 0 && table)
      requires var b := Base(pages, idx, table);
        Between(p, Entries(root, table), b, b + Count(page, table))
      ensures var o := Base(pages, idx, table) + Offset(page, n, table);
        Between(p, Entries(root, table), o, o + Count(Child(page, n), table))
    {
      hide PathOk, KidsOk, TreeOk, Separates, Front, Entries, Between, Monotone, Compare;
      var e, b := Entries(root, table), Base(pages, idx, table);
      var o, k := Offset(page, n, table), Count(Child(page, n), table);
      ChildSlice(page, n, table);
      PathSlice(root, pages, idx, page, table);
      NoFront(page, table);
      if n > 0 {
        SeekBelow(root, pages, idx, page, table, height, pageOne, p, n);
      }
      if n < NCell(page) {
        SeekAbove(root, pages, idx, page, table, height, pageOne, p, n);
      }
      BetweenFrom(p, e, b, b + Count(page, table), b + o, b + o + k);
    }

    static lemma NoFront(t: Tree, table: bool)
      ensures Offset(t, 0, table) == 0
    {
    }

    static lemma SmallToo(p: Probe, a: int, b: int)
      requires Monotone(p) && a <= b && Compare(p, b) < 0
      ensures Compare(p, a) < 0
    {
      if a < b {
        assert InStep(Compare(p, a), Compare(p, b));
      }
    }

    static lemma LargeToo(p: Probe, a: int, b: int)
      requires p.RowId? && a < b && Compare(p, a) >= 0
      ensures Compare(p, b) > 0
    {
    }

    /** On a leaf, the place of the key is found. */
    static lemma SeekLeaf(root: Tree, pages: seq<Tree>, idx: seq<nat>, page: Tree, table: bool, height: nat,
                          pageOne: bool, p: Probe, n: nat)
      requires RootOk(root, table, height, pageOne) && PathOk(root, pages, idx, page) && page.Leaf? && n <= NCell(page)
      requires Monotone(p)
      requires n > 0 ==> Compare(p, CellKey(page, n - 1)) < 0
      requires n < NCell(page) ==> Compare(p, CellKey(page, n)) > 0
      requires var b := Base(pages, idx, table);
        Between(p, Entries(root, table), b, b + Count(page, table))
      ensures var o := Base(pages, idx, table) + n; Between(p, Entries(root, table), o, o)
    {
      hide PathOk, Front, Entries, Between, Monotone;
      var e, b := Entries(root, table), Base(pages, idx, table);
      PathSlice(root, pages, idx, page, table);
      LeafCount(page, table);
      if n > 0 {
        EntryAt(root, pages, idx, page, n - 1, table);
      }
      if n < NCell(page) {
        EntryAt(root, pages, idx, page, n, table);
      }
      BetweenFrom(p, e, b, b + Count(page, table), b + n, b + n);
    }

    static lemma LeafCount(t: Tree, table: bool)
      requires t.Leaf?
      ensures Count(t, table) == NCell(t)
    {
    }

    /** Where a seek leaves the cursor: on an entry equal to the key; or, if there is none, on a leaf entry next
        to the place of the key, the last smaller one or the first larger one. */
    ghost predicate Sought(p: Probe, res: int)
      reads this
    {
      if All() == [] then res < 0 && eState == Invalid
      else
        && eState == Valid && AtEntry() && Rank() < |All()|
        && (res == 0 ==> Compare(p, All()[Rank()]) == 0)
        && (res < 0 ==> Between(p, All(), Rank() + 1, Rank() + 1) && pPage.Leaf?)
        && (res > 0 ==> Between(p, All(), Rank(), Rank()) && pPage.Leaf?)
    }

    /** The descent of sqlite3BtreeMovetoUnpacked(), from a page that holds the place of the key. */
    method Descend(p: Probe, biasRight: bool) returns (res: int)
      requires Rooted() && loaded && PathOk(root, apPage, aiIdx, pPage) && NCell(pPage) > 0 && Monotone(p)
      requires eState == Valid && !atLast && !validNKey && (intKey ==> p.RowId?)
      requires var b := Base(apPage, aiIdx, intKey); Between(p, All(), b, b + Count(pPage, intKey))
      modifies `apPage, `aiIdx, `pPage, `ix, `validNKey, `infoKey
      ensures res != 0 ==> (res > 0 <==> SeeksAbove(old(pPage), p, biasRight))
      ensures All() != [] && Sought(p, res) && (validNKey ==> intKey && infoKey == All()[Rank()])
    {
      hide PathOk, RootOk, Base, TreeOk, Between, Monotone, Compare, Entries, Own, CellKey, FirstAtLeast, EndsAbove,
           FirstIndex, SeeksAbove;
      while true
        invariant PathOk(root, apPage, aiIdx, pPage) && NCell(pPage) > 0 && !validNKey
        invariant SeeksAbove(pPage, p, biasRight) <==> SeeksAbove(old(pPage), p, biasRight)
        invariant var b := Base(apPage, aiIdx, intKey); Between(p, All(), b, b + Count(pPage, intKey))
        decreases pPage
      {
        var found, lwr, idx, c := SearchPage(p, biasRight);
        EntryAt(root, apPage, aiIdx, pPage, idx, intKey);
        if found && (pPage.Leaf? || !intKey) {
          if intKey {
            validNKey, infoKey := true, CellKey(pPage, idx);
          }
          return 0;
        }
        if found {
          FoundAt(root, apPage, aiIdx, pPage, intKey, height, pageOne, p, idx);
          lwr := idx;
        } else if pPage.Leaf? {
          ix := idx;
          SeekEnd(pPage, p, biasRight, lwr);
          SeekLeaf(root, apPage, aiIdx, pPage, intKey, height, pageOne, p, lwr);
          OwnLeaf(pPage, idx, intKey);
          return c;
        }
        SeekDown(pPage, p, biasRight, lwr);
        SeekChild(root, apPage, aiIdx, pPage, intKey, height, pageOne, p, lwr);
        ix := lwr;
        MoveToChild(lwr);
        CellsSome(pPage, intKey, height - |apPage|);
      }
    }

    static lemma OwnLeaf(t: Tree, i: nat, table: bool)
      requires t.Leaf? && i < NCell(t)
      ensures Own(t, i, table) == i
    {
    }

    /** On a table page, the key before an equal one is smaller. */
    static lemma FoundAt(root: Tree, pages: seq<Tree>, idx: seq<nat>, page: Tree, table: bool, height: nat,
                         pageOne: bool, p: Probe, i: nat)
      requires RootOk(root, table, height, pageOne) && PathOk(root, pages, idx, page) && i < NCell(page)
      requires p.RowId? && Compare(p, CellKey(page, i)) == 0
      ensures i > 0 ==> Compare(p, CellKey(page, i - 1)) < 0
      ensures FirstAtLeast(page, p, 0) == i
    {
      hide RootOk, PathOk, CellKey;
      forall j: nat | j < i
        ensures Compare(p, CellKey(page, j)) < 0
      {
        KeysAscend(root, pages, idx, page, table, height, pageOne, j, i);
      }
      FirstIs(page, p, 0, i);
    }

    /** The short cuts of sqlite3BtreeMovetoUnpacked(): the cursor is on the row already, or on the last row before it,
        or one step away. */
    method NearBy(p: Probe) returns (near: bool, res: int)
      requires Inv() && Monotone(p) && intKey && p.RowId? && eState == Valid && validNKey
      modifies this
      ensures root == old(root) && height == old(height) && nKey == old(nKey)
      ensures mark == old(mark) && skipNext == old(skipNext)
      ensures Inv() && (near ==> Sought(p, res))
      decreases 2, 0
    {
      hide PathOk, RootOk, Base, TreeOk, Between, Monotone, Own, Ascending;
      if infoKey == p.key {
        return true, 0;
      }
      if infoKey < p.key {
        if atLast {
          LastIsBelow(root, intKey, height, pageOne, p, Rank());
          return true, -1;
        }
        if infoKey + 1 == p.key && skipNext == 0 {
          var rc := Next();
          if rc == Ok {
            EntryAt(root, apPage, aiIdx, pPage, ix, intKey);
            infoKey, validNKey := CellKey(pPage, ix), true;
            if infoKey == p.key {
              return true, 0;
            }
          }
        }
      }
      return false, 0;
    }

    /** sqlite3BtreeMovetoUnpacked() */
    method MovetoUnpacked(p: Probe, biasRight: bool) returns (res: int)
      requires Inv() && Monotone(p) && (intKey <==> p.RowId?)
      modifies this
      ensures root == old(root) && height == old(height) && nKey == old(nKey)
      ensures mark == old(mark) && skipNext == old(skipNext)
      ensures Inv() && Sought(p, res) && (old(eState) != Valid ==> !atLast)
      ensures old(eState) != Valid && res != 0 ==> (res > 0 <==> SeeksAbove(root, p, biasRight))
      decreases 2, 1
    {
      hide PathOk, RootOk, Base, TreeOk, Between, Monotone, Own, Ascending, SeeksAbove, Compare;
      if intKey && eState == Valid && validNKey {
        var near: bool;
        near, res := NearBy(p);
        if near {
          return;
        }
      }
      RootSide(root, p, biasRight);
      var rc := MoveToRoot();
      if rc != Ok {
        return -1;
      }
      AllBetween(p, All());
      res := Descend(p, biasRight);
    }

    static lemma LastIsBelow(root: Tree, table: bool, height: nat, pageOne: bool, p: Probe, r: nat)
      requires RootOk(root, table, height, pageOne) && Monotone(p) && p.RowId? && r + 1 == Count(root, table)
      requires Entries(root, table)[r] < p.key
      ensures Between(p, Entries(root, table), r + 1, r + 1)
    {
      BetweenFrom(p, Entries(root, table), 0, r + 1, r + 1, r + 1);
    }

    static lemma AllBetween(p: Probe, e: seq<int>)
      ensures Between(p, e, 0, |e|)
    {
    }

    // ---- stepping ----------------------------------------------------------------------------------

    /** The part of btreeNext() and btreePrevious() that finds a place again. If the step is one to skip, it is
        done. */
    method FindAgain(forward: bool) returns (moved: bool)
      requires Inv() && eState != Valid
      modifies this
      ensures root == old(root) && height == old(height) && nKey == old(nKey) && Inv()
      ensures (eState == Valid || eState == Invalid)
      ensures eState == Invalid ==> !moved && (All() == [] || old(eState) == Invalid)
      ensures eState == Valid ==> !atLast && !validNKey && Rank() < |All()|
      ensures eState == Valid ==> var t := if forward then old(NextRank()) else old(PrevRank());
        var t' := if moved then Rank() else if forward then Rank() + 1 else Rank() - 1;
        t' == t + old(Slip())
      decreases Level(), 1
    {
      hide PathOk, RootOk, Base, TreeOk, Own, Offset, Entries, CellKey, Splits, UpTo, Below, Compare3, NCell,
           SeeksAbove;
      moved := false;
      if eState == RequireSeek {
        var res := Restore();
      }
      if eState == Invalid {
        return;
      }
      EntryAt(root, apPage, aiIdx, pPage, ix, intKey);
      validNKey, atLast := false, false;
      if skipNext != 0 {
        eState := Valid;
        moved := if forward then skipNext > 0 else skipNext < 0;
        skipNext := 0;
      }
    }

    /** btreeNext() */
    method BtreeNext() returns (rc: Rc)
      requires Ready() && !validNKey
      modifies this
      ensures root == old(root) && height == old(height) && nKey == old(nKey)
      ensures old(eState) == Valid ==> skipNext == old(skipNext) && mark == old(mark)
      ensures Inv() && Stepped(old(NextRank() + Slip()), rc)
      decreases Level(), 2
    {
      hide PathOk, RootOk, Base, TreeOk, Own, Offset, Entries, CellKey, Splits, UpTo, Below, Compare3, NCell;
      ghost var t := NextRank();
      if eState != Valid {
        var moved := FindAgain(true);
        t := NextRank();
        if eState == Invalid {
          return Done;
        }
        if moved {
          return Ok;
        }
      }
      rc := StepRight(t);
      if rc == Ok && intKey && pPage.Interior? {
        rc := Next();
      }
    }

    /** The part of btreeNext() that moves: to the next cell of the page, below it, or up to the first page that
        is not used up.  On a table page that is not a leaf, the step is not complete. */
    method StepRight(ghost t: nat) returns (rc: Rc)
      requires Rooted() && Placed() && eState == Valid && !validNKey && t == NextRank() && (atLast ==> t == |All()|)
      modifies `apPage, `aiIdx, `pPage, `ix, `eState, `validNKey
      ensures !validNKey && loaded && PathOk(root, apPage, aiIdx, pPage)
      ensures if t < |All()| then rc == Ok && eState == Valid && Placed() else rc == Done && eState == Invalid
      ensures rc == Ok ==>
        if intKey && pPage.Interior? then old(pPage).Leaf? && Rank() == t else Rank() == t && t < |All()|
    {
      hide PathOk, RootOk, Base, TreeOk, Own, Offset, Entries;
      OwnNext(pPage, ix, intKey);
      ix := ix + 1;
      if ix >= NCell(pPage) {
        if !pPage.Leaf? {
          MoveToChild(ix);
          CellsSome(pPage, intKey, height - |apPage|);
          NoOffset(pPage, intKey);
          MoveToLeftmost();
          EntryAt(root, apPage, aiIdx, pPage, ix, intKey);
          return Ok;
        }
        PageEnd(pPage, intKey);
        while ix >= NCell(pPage)
          invariant PathOk(root, apPage, aiIdx, pPage) && ix <= NCell(pPage) && !validNKey && eState == Valid
          invariant ix == NCell(pPage) ==> Base(apPage, aiIdx, intKey) + Count(pPage, intKey) == t
          invariant ix < NCell(pPage) ==> pPage.Interior? && Base(apPage, aiIdx, intKey) + Own(pPage, ix, intKey) == t
          decreases |apPage|
        {
          if apPage == [] {
            RootEnd(root, aiIdx, pPage, intKey);
            eState := Invalid;
            return Done;
          }
          MoveToParent();
          PageEnd(pPage, intKey);
        }
        EntryAt(root, apPage, aiIdx, pPage, ix, intKey);
        SomeLeft(root, apPage, aiIdx, pPage, intKey, height, pageOne, ix);
        return Ok;
      }
      if !pPage.Leaf? {
        MoveToLeftmost();
      }
      EntryAt(root, apPage, aiIdx, pPage, ix, intKey);
      OwnOffset(pPage, ix, intKey);
      return Ok;
    }

    static lemma OwnNext(t: Tree, i: nat, table: bool)
      requires i < NCell(t)
      ensures Offset(t, i + 1, table) == Own(t, i, table) + if table && t.Interior? then 0 else 1
    {
      if t.Interior? {
        ChildSlice(t, i, table);
      }
    }

    static lemma OwnOffset(t: Tree, i: nat, table: bool)
      requires i <= NCell(t)
      ensures t.Leaf? ==> Own(t, i, table) == Offset(t, i, table) == i
    {
    }

    static lemma PageEnd(t: Tree, table: bool)
      ensures Own(t, NCell(t), table) == Count(t, table)
      ensures t.Leaf? ==> Offset(t, NCell(t), table) == Count(t, table)
    {
      if t.Interior? {
        ChildSlice(t, NCell(t), table);
      }
    }

    static lemma RootEnd(root: Tree, idx: seq<nat>, page: Tree, table: bool)
      requires PathOk(root, [], idx, page)
      ensures page == root && Base([], idx, table) == 0
    {
    }

    /** There are entries right of a cell of an interior page. */
    static lemma SomeLeft(root: Tree, pages: seq<Tree>, idx: seq<nat>, page: Tree, table: bool, height: nat,
                          pageOne: bool, i: nat)
      requires RootOk(root, table, height, pageOne) && PathOk(root, pages, idx, page) && page.Interior?
      requires i < NCell(page)
      ensures Base(pages, idx, table) + Own(page, i, table) < Count(root, table)
    {
      Neighbours(root, pages, idx, page, table, height, pageOne, i);
    }

    /** The leftmost entry at or below the cell: the cell itself on a leaf. */
    method LandOn()
      requires Rooted() && loaded && PathOk(root, apPage, aiIdx, pPage) && ix < NCell(pPage) && !validNKey
      modifies `apPage, `aiIdx, `pPage, `ix, `validNKey
      ensures Placed() && pPage.Leaf? && !validNKey
      ensures Rank() == old(Base(apPage, aiIdx, intKey) + Offset(pPage, ix, intKey)) < |All()|
    {
      hide PathOk, RootOk, Base, TreeOk, Own, Offset, Entries, CellKey;
      OwnOffset(pPage, ix, intKey);
      if !pPage.Leaf? {
        MoveToLeftmost();
      }
      EntryAt(root, apPage, aiIdx, pPage, ix, intKey);
    }

    /** sqlite3BtreeNext() */
    method Next() returns (rc: Rc)
      requires Ready()
      modifies this
      ensures root == old(root) && height == old(height) && nKey == old(nKey)
      ensures old(eState) == Valid ==> skipNext == old(skipNext) && mark == old(mark)
      ensures Inv() && Stepped(old(NextRank() + Slip()), rc)
      decreases Level(), 3
    {
      hide PathOk, RootOk, Base, TreeOk, Own, Offset, Entries, CellKey;
      validNKey := false;
      if eState != Valid {
        rc := BtreeNext();
        return;
      }
      OwnNext(pPage, ix, intKey);
      ix := ix + 1;
      if ix >= NCell(pPage) {
        ix := ix - 1;
        rc := BtreeNext();
        return;
      }
      LandOn();
      return Ok;
    }

    static function Against(key: int): int -> int {
      entry => Sign(entry - key)
    }

    /** The bits of a and b together: negative if one of them is, zero only if both are. */
    static function Or(a: int, b: int): int {
      if a < 0 || b < 0 then -1 else if a > 0 || b > 0 then 1 else 0
    }

    /** The part of btreeRestoreCursorPosition() that seeks the saved key. */
    method FindSaved() returns (res: int)
      requires Inv() && eState == RequireSeek
      modifies this
      ensures root == old(root) && height == old(height) && nKey == old(nKey) && skipNext == old(skipNext)
      ensures Inv() && Ascending(All()) && !atLast && UpTo([], nKey) == 0 == Below([], nKey)
      ensures if All() == [] then res < 0 && eState == Invalid
              else eState == Valid && Rank() < |All()| && Restored(All(), nKey, res, Rank())
      ensures res > 0 <==> nKey !in All() && old(SeeksAbove(root, SavedProbe(), false))
      decreases 2, 2
    {
      hide PathOk, RootOk, Base, TreeOk, Own, Entries, UpTo, Below, Compare, Between, Compare3, SeeksAbove;
      eState := Invalid;
      var p := SavedProbe();
      FullKey(p, nKey);
      res := MovetoUnpacked(p, false);
      RootAscends(root, intKey, height, pageOne);
      NoKeys(nKey);
      if eState == Valid {
        RestoredRank(All(), p, nKey, res, Rank());
      }
    }

    static lemma RestoredSides(e: seq<int>, key: int, res: int, r: nat)
      requires r < |e| && Restored(e, key, res, r)
      ensures (res > 0 ==> e[r] > key) && (res <= 0 ==> e[r] <= key)
      ensures UpTo(e, key) == (if res > 0 then r else r + 1) && Below(e, key) == (if res < 0 then r + 1 else r)
      ensures (res == 0 <==> key in e) && Compare3(e[r], key, res)
    {
    }

    /** btreeRestoreCursorPosition(): back to the saved key, or next to where it was, below it or above it as res
        says. The entries that steps lead to are the same as before, unless the cursor had a step back to skip and
        is now above its key: the two codes together are negative, and both steps lead one entry too far. */
    method Restore() returns (res: int)
      requires Inv() && eState == RequireSeek
      modifies this
      ensures root == old(root) && height == old(height) && nKey == old(nKey) && Inv() && eState != RequireSeek
      ensures NextRank() == old(NextRank() + Slip()) && PrevRank() == old(PrevRank() + Slip())
      ensures old(Slips()) ==> exists r: nat :: r < |All()| && All()[r] > nKey
      ensures old(skipNext) < 0 && All() != [] && (forall r: nat :: r < |All()| ==> All()[r] > nKey) ==> old(Slips())
      ensures (res == 0 <==> nKey in All())
      ensures (res > 0 <==> nKey !in All() && old(SeeksAbove(root, SavedProbe(), false)))
      ensures All() != [] ==> ix <= NCell(pPage) && Rank() < |All()| && Compare3(All()[Rank()], nKey, res)
      ensures eState == Valid <==> old(skipNext) == 0 && nKey in All()
      ensures skipNext == Or(old(skipNext), res)
      ensures (eState == Invalid <==> All() == []) && (All() == [] ==> res < 0)
      decreases 3, 0
    {
      hide PathOk, RootOk, Base, TreeOk, Own, Entries, UpTo, Below, Compare, Between, Compare3, SeeksAbove, Ascending;
      res := FindSaved();
      if eState == Valid {
        RestoredSides(All(), nKey, res, Rank());
      }
      Combine(res);
    }

    /** The part of btreeRestoreCursorPosition() that joins the two codes. */
    method Combine(res: int)
      requires Inv() && Ascending(All()) && (eState == Valid || eState == Invalid) && !atLast
      requires if All() == [] then res < 0 && eState == Invalid
               else eState == Valid && Rank() < |All()| && Restored(All(), nKey, res, Rank())
      modifies `skipNext, `eState, `mark
      ensures Inv() && eState != RequireSeek && skipNext == Or(old(skipNext), res)
      ensures eState == Valid <==> skipNext == 0 && All() != []
      ensures All() != [] ==> AtEntry() && NextRank() == (if skipNext > 0 then Rank() else Rank() + 1)
      ensures All() != [] ==> PrevRank() == (if skipNext < 0 then Rank() else Rank() - 1)
      ensures All() == [] ==> eState == Invalid && NextRank() == 0 && PrevRank() == -1
    {
      hide PathOk, RootOk, Base, TreeOk, Own, Entries, UpTo, Below, Ascending;
      mark := if skipNext < 0 then nKey + 1 else nKey;
      if eState == Valid && skipNext < 0 && res > 0 {
        mark := All()[Rank()] + 1;
        Above(All(), Rank());
      }
      skipNext := Or(skipNext, res);
      if skipNext != 0 && eState == Valid {
        eState := SkipNext;
      }
    }

    /** A key compares with the one sought as the code says. */
    static predicate Compare3(entry: int, key: int, res: int) {
      if res == 0 then entry == key else if res < 0 then entry < key else entry > key
    }

    static lemma Above(e: seq<int>, r: nat)
      requires Ascending(e) && r < |e|
      ensures forall q: nat :: q <= r ==> e[q] < e[r] + 1
      ensures forall q: nat :: r < q < |e| ==> e[q] >= e[r] + 1
    {
    }

    static lemma FullKey(p: Probe, key: int)
      requires p == RowId(key) || p == Record(Against(key))
      ensures Monotone(p) && forall a: int :: Compare(p, a) == Sign(a - key)
    {
      forall a: int, b: int | a < b
        ensures InStep(Compare(p, a), Compare(p, b))
      {
        assert Compare(p, a) == Sign(a - key) && Compare(p, b) == Sign(b - key);
      }
    }

    static lemma NoKeys(key: int)
      ensures UpTo([], key) == 0 == Below([], key)
    {
    }

    static lemma RootAscends(t: Tree, table: bool, height: nat, pageOne: bool)
      requires RootOk(t, table, height, pageOne)
      ensures Ascending(Entries(t, table))
    {
    }

    /** The entry of rank r is the one with the key, or the last below it, or the first above it. */
    static ghost predicate Restored(e: seq<int>, key: int, res: int, r: nat)
      requires r < |e|
    {
      && UpTo(e, key) == (if res > 0 then r else r + 1) && Below(e, key) == (if res < 0 then r + 1 else r)
      && (res == 0 <==> key in e) && Compare3(e[r], key, res)
      && (forall q: nat :: q < |e| ==> (q < Below(e, key) <==> e[q] < key))
      && forall q: nat :: q < |e| ==> (q < UpTo(e, key) <==> e[q] < key + 1)
    }

    static lemma RestoredRank(e: seq<int>, p: Probe, key: int, res: int, r: nat)
      requires Ascending(e) && r < |e| && forall a: int :: Compare(p, a) == Sign(a - key)
      requires res == 0 ==> Compare(p, e[r]) == 0
      requires res < 0 ==> Between(p, e, r + 1, r + 1)
      requires res > 0 ==> Between(p, e, r, r)
      ensures Restored(e, key, res, r)
    {
      hide Compare, UpTo, Below;
      UpToIs(e, key);
      if res == 0 {
        assert e[r] == key;
        RankOfKey(e, r);
      } else {
        var n := if res < 0 then r + 1 else r;
        SplitAt(e, key, n);
        NoneBetween(e, key, n);
        assert Compare(p, e[r]) == Sign(e[r] - key);
      }
    }

    static lemma NoneBetween(e: seq<int>, key: int, n: nat)
      requires n <= |e| && (forall q: nat :: q < n ==> e[q] < key) && forall q: nat :: n <= q < |e| ==> e[q] > key
      ensures key !in e
    {
      forall q: nat | q < |e|
        ensures e[q] != key
      {
        if q < n {
        }
      }
    }

    /** btreePrevious() */
    method BtreePrevious() returns (rc: Rc)
      requires (if eState == Valid then Rooted() && Placed() else Inv()) && !validNKey && !atLast
      modifies this
      ensures root == old(root) && height == old(height) && nKey == old(nKey)
      ensures Inv() && Stepped(old(PrevRank() + Slip()), rc)
      decreases Level(), 2
    {
      hide PathOk, RootOk, Base, TreeOk, Own, Offset, Entries, CellKey, Splits, UpTo, Below, Compare3, NCell;
      ghost var t := PrevRank();
      if eState != Valid {
        var moved := FindAgain(false);
        t := PrevRank();
        if eState == Invalid {
          return Done;
        }
        if moved {
          return Ok;
        }
      }
      rc := StepLeft(t);
      if rc == Ok && intKey && pPage.Interior? {
        rc := Previous();
      }
    }

    /** The part of btreePrevious() that moves: below the cell of an interior page, or up to the first page with a
        cell before.  On a table page that is not a leaf, the step is not complete. */
    method StepLeft(ghost t: int) returns (rc: Rc)
      requires Rooted() && Placed() && eState == Valid && !validNKey && t == PrevRank()
      modifies `apPage, `aiIdx, `pPage, `ix, `eState, `validNKey
      ensures !validNKey && loaded && PathOk(root, apPage, aiIdx, pPage)
      ensures if t >= 0 then rc == Ok && eState == Valid && Placed() else rc == Done && eState == Invalid
      ensures rc == Ok ==>
        if intKey && pPage.Interior? then old(pPage).Leaf? && PrevRank() == t else Rank() == t < |All()|
    {
      hide PathOk, RootOk, Base, TreeOk, Own, Offset, Entries;
      if !pPage.Leaf? {
        ChildOwn(pPage, ix, intKey);
        MoveToChild(ix);
        CellsSome(pPage, intKey, height - |apPage|);
        MoveToRightmost();
      } else {
        OwnOffset(pPage, ix, intKey);
        while ix == 0
          invariant PathOk(root, apPage, aiIdx, pPage) && ix <= NCell(pPage) && !validNKey && eState == Valid
          invariant Base(apPage, aiIdx, intKey) + Offset(pPage, ix, intKey) - 1 == t
          decreases |apPage|
        {
          NoOffset(pPage, intKey);
          if apPage == [] {
            RootEnd(root, aiIdx, pPage, intKey);
            eState := Invalid;
            return Done;
          }
          MoveToParent();
        }
        OwnNext(pPage, ix - 1, intKey);
        ix := ix - 1;
        SomeRight(root, apPage, aiIdx, pPage, intKey, height, pageOne, ix);
      }
      EntryAt(root, apPage, aiIdx, pPage, ix, intKey);
      return Ok;
    }

    /** There are entries left of a cell, or the cell itself is one. */
    static lemma SomeRight(root: Tree, pages: seq<Tree>, idx: seq<nat>, page: Tree, table: bool, height: nat,
                           pageOne: bool, i: nat)
      requires RootOk(root, table, height, pageOne) && PathOk(root, pages, idx, page) && i < NCell(page)
      ensures Base(pages, idx, table) + Offset(page, i + 1, table) > 0
    {
      if page.Interior? {
        Neighbours(root, pages, idx, page, table, height, pageOne, i);
      }
    }

    static lemma ChildOwn(t: Tree, i: nat, table: bool)
      requires t.Interior? && i <= NCell(t)
      ensures Own(t, i, table) == Offset(t, i, table) + Count(Child(t, i), table)
    {
    }

    /** sqlite3BtreePrevious() */
    method Previous() returns (rc: Rc)
      requires if eState == Valid then Rooted() && Placed() else Inv()
      modifies this
      ensures root == old(root) && height == old(height) && nKey == old(nKey)
      ensures Inv() && Stepped(old(PrevRank() + Slip()), rc)
      decreases Level(), 3
    {
      hide PathOk, RootOk, Base, TreeOk, Own, Offset, Entries, CellKey;
      atLast, validNKey := false, false;
      if eState != Valid || ix == 0 || !pPage.Leaf? {
        rc := BtreePrevious();
        return;
      }
      OwnOffset(pPage, ix, intKey);
      ix := ix - 1;
      OwnOffset(pPage, ix, intKey);
      EntryAt(root, apPage, aiIdx, pPage, ix, intKey);
      return Ok;
    }

    /** sqlite3BtreeFirst() */
    method First() returns (empty: bool)
      requires Inv()
      modifies this
      ensures root == old(root) && height == old(height) && skipNext == old(skipNext) && Inv()
      ensures empty <==> All() == []
      ensures Stepped(0, if empty then Done else Ok)
    {
      hide PathOk, RootOk, Base, TreeOk, Own, Offset, Entries, CellKey;
      var rc := MoveToRoot();
      if rc == Empty {
        return true;
      }
      NoOffset(pPage, intKey);
      MoveToLeftmost();
      EntryAt(root, apPage, aiIdx, pPage, ix, intKey);
      empty := false;
    }

    /** sqlite3BtreeLast() */
    method Last() returns (empty: bool)
      requires Inv()
      modifies this
      ensures root == old(root) && height == old(height) && skipNext == old(skipNext) && Inv()
      ensures empty <==> All() == []
      ensures Stepped(|All()| - 1, if empty then Done else Ok)
    {
      hide PathOk, RootOk, Base, TreeOk, Own, Offset, Entries, CellKey;
      if eState == Valid && atLast {
        EntryAt(root, apPage, aiIdx, pPage, ix, intKey);
        return false;
      }
      var rc := MoveToRoot();
      if rc == Empty {
        return true;
      }
      MoveToRightmost();
      atLast := true;
      empty := false;
    }

    // ---- keeping the place -------------------------------------------------------------------------

    /** saveCursorPosition(): the key of the entry is kept, and a step to skip; the pages are not. */
    method SavePosition()
      requires Inv() && (eState == Valid || eState == SkipNext)
      modifies this
      ensures root == old(root) && height == old(height) && Inv() && eState == RequireSeek
      ensures old(Rank()) < |All()| && nKey == All()[old(Rank())]
      ensures skipNext == if old(eState) == SkipNext then old(skipNext) else 0
      ensures NextRank() == old(NextRank()) && PrevRank() == old(PrevRank())
    {
      hide PathOk, RootOk, Base, TreeOk, Own, Entries, UpTo, Below, Ascending, CellKey;
      EntryAt(root, apPage, aiIdx, pPage, ix, intKey);
      RootAscends(root, intKey, height, pageOne);
      ghost var r := Rank();
      if eState == SkipNext {
        eState := Valid;
      } else {
        skipNext := 0;
      }
      nKey := CellKey(pPage, ix);
      loaded := false;
      eState := RequireSeek;
      validNKey, atLast := false, false;
      RankOfKey(All(), r);
    }

    static lemma RankOfKey(e: seq<int>, r: nat)
      requires Ascending(e) && r < |e|
      ensures UpTo(e, e[r]) == r + 1 && Below(e, e[r]) == r
    {
      UpToIs(e, e[r]);
    }

    /** Other cursors change the tree, having made this one give up its pages. */
    method TreeChanged(t: Tree, ghost h: nat)
      requires Inv() && (eState == RequireSeek || eState == Invalid) && RootOk(t, intKey, h, pageOne)
      modifies this
      ensures root == t && height == h && Inv() && eState == old(eState) && nKey == old(nKey)
      ensures skipNext == old(skipNext)
    {
      loaded := false;
      root := t;
      height := h;
    }

    /** After any changes to the tree, a step forward from a saved entry leads to the least key above it, and a
        step back to the greatest key below it. */
    method StepAfterChange(t: Tree, ghost h: nat, forward: bool) returns (rc: Rc)
      requires Inv() && eState == Valid && RootOk(t, intKey, h, pageOne)
      modifies this
      ensures root == t && Inv()
      ensures old(Rank()) < |old(All())|
      ensures rc == Ok ==> eState == Valid && AtEntry() && Rank() < |All()|
      ensures rc == Ok ==> Nearest(All(), old(All())[old(Rank())], forward, All()[Rank()])
      ensures rc != Ok ==> rc == Done && eState == Invalid
      ensures rc != Ok ==> forall k: int :: k in All() ==> !Beyond(k, old(All())[old(Rank())], forward)
    {
      hide PathOk, RootOk, Base, TreeOk, Own, Offset, Entries, CellKey, UpTo, Below, Ascending;
      SavePosition();
      ghost var key := nKey;
      TreeChanged(t, h);
      RootAscends(root, intKey, height, pageOne);
      NearestRank(All(), key);
      if forward {
        rc := Next();
      } else {
        rc := Previous();
      }
    }

    static ghost predicate Beyond(k: int, key: int, forward: bool) {
      if forward then k > key else k < key
    }

    /** k is the key next to the given one. */
    static ghost predicate Nearest(e: seq<int>, key: int, forward: bool, k: int) {
      k in e && Beyond(k, key, forward) && forall x: int :: x in e && Beyond(x, key, forward) ==>
        x == k || Beyond(x, k, forward)
    }

    static lemma NearestRank(e: seq<int>, key: int)
      requires Ascending(e)
      ensures UpTo(e, key) < |e| ==> Nearest(e, key, true, e[UpTo(e, key)])
      ensures UpTo(e, key) == |e| ==> forall k: int :: k in e ==> !Beyond(k, key, true)
      ensures Below(e, key) > 0 ==> Nearest(e, key, false, e[Below(e, key) - 1])
      ensures Below(e, key) == 0 ==> forall k: int :: k in e ==> !Beyond(k, key, false)
    {
      UpToIs(e, key);
      forall x: int | x in e
        ensures exists r: nat :: r < |e| && e[r] == x
      {
        var r :| 0 <= r < |e| && e[r] == x;
      }
    }

    /** For example, on a table: a cursor is on the last of rows 10 and 15. Its place is saved, and row 15 deleted;
        it is restored, to row 10, with a step back to skip. Its place is saved again, row 10 deleted and row 20
        inserted. The next step then passes over row 20. */
    static method SavedTwice() returns (c: BtCursor, rc: Rc)
      ensures c.Inv() && c.nKey == 10 && c.All() == [20] && rc == Done
    {
      hide PathOk, RootOk, Base, TreeOk, Own, Offset, UpTo, Below, Ascending, SeeksAbove;
      OneEntry();
      c := new BtCursor(true, false, Leaf([10, 15]), 1);
      var empty := c.Last();
      c.SavePosition();
      c.TreeChanged(Leaf([10]), 1);
      var res := c.Restore();
      c.SavePosition();
      c.TreeChanged(Leaf([20]), 1);
      res := c.Restore();
      rc := c.Next();
    }

    static lemma OneEntry()
      ensures forall keys: seq<int>, table: bool :: Entries(Leaf(keys), table) == keys
      ensures forall k: int, table: bool, pageOne: bool :: RootOk(Leaf([k]), table, 1, pageOne)
      ensures forall table: bool, pageOne: bool :: RootOk(Leaf([10, 15]), table, 1, pageOne)
      ensures UpTo([20], 10) == 0
    {
    }

    /** One of the calls that place a cursor. */
    method Place(to: Seek)
      requires Inv() && (to.ToKey? ==> Monotone(to.probe) && (intKey <==> to.probe.RowId?))
      modifies this
      ensures root == old(root) && height == old(height) && Inv() && skipNext == old(skipNext)
      ensures eState == Valid <==> All() != []
    {
      hide PathOk, RootOk, Base, TreeOk, Own, Offset, Entries, CellKey, Monotone;
      match to {
        case ToFirst =>
          var empty := First();
        case ToLast =>
          var empty := Last();
        case ToKey(p, biasRight) =>
          var res := MovetoUnpacked(p, biasRight);
      }
    }

    /** sqlite3BtreeNext() and sqlite3BtreePrevious() assert that skipNext is zero on a valid cursor. After a saved
        cursor has been restored and placed anew that holds exactly if no step was to be skipped and the saved key
        was found: no placing call clears skipNext. */
    method SkipNextOutlives(to: Seek) returns (res: int)
      requires Inv() && eState == RequireSeek && (to.ToKey? ==> Monotone(to.probe) && (intKey <==> to.probe.RowId?))
      modifies this
      ensures root == old(root) && (eState == Valid <==> All() != [])
      ensures skipNext == 0 <==> old(skipNext) == 0 && old(nKey) in All()
    {
      hide PathOk, RootOk, Base, TreeOk, Own, Offset, Entries, CellKey, Monotone, UpTo, Below;
      res := Restore();
      Place(to);
    }
  }
}
