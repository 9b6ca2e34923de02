/** An auto-vacuum database file: its freelist, its pointer map and the pages in use. */
module Databases {
  import opened PtrMap
  import opened FreeLists
  import opened FreeState
  import opened PageGraph
  import opened VacuumState
  import opened ClearTrees

  lemma OnlyPageOne(l: Layout)
    requires l.Valid()
    ensures Pages(l, 1) == {1} && l.Ordinary(1)
  {
  }

  class BtShared {
    const l: Layout
    var nPage: nat
    var head: nat
    var count: nat
    var trunks: Trunks
    var ptrmap: PointerMap
    var pages: Store
    var largestRoot: nat
    ghost var list: List
    ghost var roots: set<nat>

    /** newDatabase(): page 1 is an empty leaf, and the largest root. */
    constructor (l: Layout)
      requires l.Valid()
      ensures Valid() && nPage == 1 && count == 0 && largestRoot == 1 && pages.Keys == {1}
    {
      this.l := l;
      nPage, head, count, largestRoot := 1, 0, 0, 1;
      trunks, ptrmap := map[], map[];
      pages := map[1 := Node(true, [], 0)];
      list, roots := [], {1};
      new;
      OnlyPageOne(l);
    }

    ghost predicate FreeValid()
      reads this
    {
      FreeOk(l, nPage, head, count, trunks, list)
    }

    ghost function Free(): multiset<nat>
      reads this
    {
      Bag(list)
    }

    /** Trunk i is on page trunk; prev is the trunk before it, or 0 if page 1 points to it. */
    ghost predicate Found(prev: nat, trunk: nat, i: nat)
      reads this
    {
      && i < |list| && list[i].pgno == trunk && LinkedAt(trunks, list, i)
      && if i == 0 then prev == 0 else prev == list[i - 1].pgno && prev != 0 && prev in trunks
    }

    /** The state after the count is decremented and before the page is unlinked. */
    ghost predicate Taking()
      reads this
    {
      FreeOk(l, nPage, head, count + 1, trunks, list)
    }

    /** Points page 1 or the previous trunk at page p. */
    method SetNext(prev: nat, p: nat, ghost i: nat)
      requires i < |list|
      requires if i == 0 then prev == 0 else prev == list[i - 1].pgno && prev != 0 && prev in trunks
      modifies `head, `trunks
      ensures head == NewHead(old(head), i, p) && trunks == Relink(old(trunks), list, i, p)
    {
      if prev == 0 {
        head := p;
      } else {
        trunks := trunks[prev := trunks[prev].(next := p)];
      }
    }

    /** A trunk without leaves is itself allocated. */
    method TakeEmptyTrunk(prev: nat, trunk: nat, ghost i: nat)
      requires Taking() && Found(prev, trunk, i) && list[i].leaves == []
      modifies `head, `trunks, `list
      ensures FreeValid() && Free() == old(Free()) - multiset{trunk} && trunk in old(Free())
    {
      hide Linked, Bag, NoDup;
      TakeTrunkBag(list, i);
      TakeTrunkLinked(head, trunks, list, i);
      BagOkWithout(l, nPage, count + 1, Bag(list), trunk);
      SetNext(prev, trunks[trunk].next, i);
      list := TakeTrunk(list, i);
    }

    /** A trunk with leaves is allocated: its first leaf becomes the trunk. */
    method PromoteLeaf(prev: nat, trunk: nat, ghost i: nat)
      requires Taking() && Found(prev, trunk, i) && list[i].leaves != []
      modifies `head, `trunks, `list
      ensures FreeValid() && Free() == old(Free()) - multiset{trunk} && trunk in old(Free())
    {
      hide Linked, Bag, NoDup;
      PromoteBag(list, i);
      PromoteLinked(head, trunks, list, i);
      BagOkWithout(l, nPage, count + 1, Bag(list), trunk);
      var newTrunk := trunks[trunk].leaves[0];
      InBag(list, i);
      assert newTrunk in list[i].leaves && newTrunk in Bag(list);
      if newTrunk > nPage {
        assert false;  // SQLITE_CORRUPT
      }
      trunks := trunks[newTrunk := TrunkPage(trunks[trunk].next, trunks[trunk].leaves[1..])];
      SetNext(prev, newTrunk, i);
      list := Promote(list, i);
    }

    /** Leaf c of the trunk is allocated, and the last leaf takes its place. */
    method TakeLeafAt(trunk: nat, c: nat, ghost prev: nat, ghost i: nat) returns (page: nat)
      requires Taking() && Found(prev, trunk, i) && c < |list[i].leaves|
      modifies `trunks, `list
      ensures page == old(list[i].leaves[c])
      ensures FreeValid() && Free() == old(Free()) - multiset{page} && page in old(Free())
    {
      hide Linked, Bag, NoDup;
      TakeLeafBag(list, i, c);
      TakeLeafLinked(head, trunks, list, i, c);
      page := trunks[trunk].leaves[c];
      BagOkWithout(l, nPage, count + 1, Bag(list), page);
      var leaves, k := trunks[trunk].leaves, |trunks[trunk].leaves|;
      if c < k - 1 {
        leaves := leaves[c := leaves[k - 1]];
      }
      trunks := trunks[trunk := TrunkPage(trunks[trunk].next, leaves[..k - 1])];
      list := TakeLeaf(list, i, c);
    }

    /** One trunk of the search: take it, take one of its leaves, or pass it by. */
    method TryTrunk(prev: nat, trunk: nat, nearby: nat, mode: Mode, search: bool, ghost i: nat)
      returns (taken: bool, page: nat)
      requires Taking() && Found(prev, trunk, i) && |list[i].leaves| <= Cap(l)
      requires forall p <- list[i].leaves :: 2 <= p <= nPage
      requires search ==> nearby > 0
      modifies `head, `trunks, `list
      ensures taken ==> FreeValid() && Free() == old(Free()) - multiset{page} && page in old(Free())
      ensures taken ==>
        if search then Wanted(nearby, mode, page)
        else mode.AtMost? || NearestOf(old(list[i]), nearby, page)
      ensures !taken ==> search && list == old(list) && trunks == old(trunks) && head == old(head)
      ensures !taken ==> NoneWanted(list[i], nearby, mode)
    {
      hide Linked, Bag, FreeOk;
      var k := |trunks[trunk].leaves|;
      if k == 0 && !search {
        TakeEmptyTrunk(prev, trunk, i);
        return true, trunk;
      } else if k > l.usable / 4 - 2 {
        assert false;  // SQLITE_CORRUPT
      } else if search && Wanted(nearby, mode, trunk) {
        if k == 0 {
          TakeEmptyTrunk(prev, trunk, i);
        } else {
          PromoteLeaf(prev, trunk, i);
        }
        return true, trunk;
      } else if k > 0 {
        var closest := PickLeaf(trunks[trunk].leaves, nearby, mode);
        var leaf := trunks[trunk].leaves[closest];
        assert leaf in list[i].leaves;
        if leaf > nPage {
          assert false;  // SQLITE_CORRUPT
        }
        if !search || Wanted(nearby, mode, leaf) {
          ghost var t := list[i];
          assert forall p :: p in t.leaves ==> exists j: nat :: j < |t.leaves| && t.leaves[j] == p;
          page := TakeLeafAt(trunk, closest, prev, i);
          return true, page;
        }
      }
      return false, 0;
    }

    /** The walk along the trunks: once if the list is not searched, else until a wanted page is
        found. Fails, as page 0 cannot be read, if there is none. */
    method Reuse(nearby: nat, mode: Mode, search: bool) returns (ok: bool, page: nat)
      requires FreeValid() && count > 0
      requires mode.AtMost? ==> search && nearby > 0
      requires mode.Exactly? ==> nearby > 0 && (search <==> nearby in Free())
      requires mode.Anywhere? ==> !search
      modifies `head, `count, `trunks, `list
      ensures count == old(count) - 1
      ensures ok <==> Obtainable(old(list), nearby, mode)
      ensures ok ==> FreeValid() && Free() == old(Free()) - multiset{page} && Chosen(old(list), nearby, mode, page)
      ensures ok && !search ==> old(list) != [] && NearestOf(old(list[0]), nearby, page)
    {
      hide Bag, NoneWanted, NearestOf;
      NotEmpty(list);
      Shorter(list);
      var n := count;
      count := n - 1;
      var prev, trunk, nSearch := 0, 0, 0;
      ghost var i := 0;
      while true
        invariant FreeOk(l, nPage, head, n, trunks, list) && count == n - 1
        invariant list == old(list) && i <= |list| <= n && nSearch == i && (i > 0 ==> search)
        invariant if i == 0 then trunk == 0 else trunk == list[i - 1].pgno
        invariant forall j: nat :: j < i ==> NoneWanted(list[j], nearby, mode)
        decreases |list| - i
      {
        prev := trunk;
        trunk := NextTrunk(prev, i);
        if trunk > nPage || nSearch > n {
          assert false;  // SQLITE_CORRUPT
        }
        nSearch := nSearch + 1;
        if trunk == 0 {
          SearchedAll(list, nearby, mode);
          return false, 0;
        }
        var taken;
        taken, page := TryTrunk(prev, trunk, nearby, mode, search, i);
        if taken {
          return true, page;
        }
        i := i + 1;
      }
    }

    /** The page number stored on page 1 or on the trunk just visited. */
    method NextTrunk(prev: nat, ghost i: nat) returns (trunk: nat)
      requires FreeOk(l, nPage, head, count + 1, trunks, list) && i <= |list|
      requires if i == 0 then prev == 0 else prev == list[i - 1].pgno
      ensures trunk == if i < |list| then list[i].pgno else 0
      ensures i < |list| ==> Found(prev, trunk, i) && 2 <= trunk <= nPage && |list[i].leaves| <= Cap(l)
      ensures i < |list| ==> forall p <- list[i].leaves :: 2 <= p <= nPage
    {
      hide Bag;
      if i > 0 {
        InBag(list, i - 1);
        assert LinkedAt(trunks, list, i - 1);
      }
      if i < |list| {
        InBag(list, i);
        assert LinkedAt(trunks, list, i) && list[i] in list;
      }
      trunk := if prev != 0 then trunks[prev].next else head;
    }

    /** The end of the file moves to the next ordinary page. */
    method Extend() returns (page: nat)
      requires l.Valid() && nPage >= 1 && l.Ordinary(nPage)
      modifies `nPage
      ensures page == nPage && NextOrdinary(l, old(nPage), nPage)
    {
      nPage := nPage + 1;
      if nPage == l.pending {
        nPage := nPage + 1;
      }
      if l.IsMap(nPage) {
        nPage := nPage + 1;
        if nPage == l.pending {
          nPage := nPage + 1;
        }
      }
      page := nPage;
      ExtendSkips(l, old(nPage), nPage);
    }

    /** allocateBtreePage() */
    method Allocate(nearby: nat, mode: Mode) returns (ok: bool, page: nat)
      requires FreeValid() && count < nPage && l.Ordinary(nPage)
      requires !mode.Anywhere? ==> nearby > 0
      requires mode.Exactly? && nearby <= nPage ==>
        nearby in ptrmap && (ptrmap[nearby].kind == FreePage <==> nearby in Free())
      modifies `nPage, `head, `count, `trunks, `list
      ensures ok <==> old(count) == 0 || Obtainable(old(list), nearby, mode)
      ensures ok ==> FreeValid()
      ensures old(count) > 0 ==> nPage == old(nPage) && count == old(count) - 1
      ensures ok && old(count) > 0 ==> Free() == old(Free()) - multiset{page} && Chosen(old(list), nearby, mode, page)
      ensures ok && old(count) > 0 && (mode.Anywhere? || (mode.Exactly? && nearby !in old(Free()))) ==>
        old(list) != [] && NearestOf(old(list[0]), nearby, page)
      ensures old(count) == 0 ==>
        Free() == old(Free()) && count == 0 && page == nPage && NextOrdinary(l, old(nPage), nPage)
    {
      hide Bag, Linked;
      var mxPage := nPage;
      var n := count;
      if n >= mxPage {
        assert false;  // SQLITE_CORRUPT
      }
      if n > 0 {
        var search := false;
        if mode.Exactly? {
          if nearby <= mxPage && ptrmap[nearby].kind == FreePage {
            search := true;
          }
        } else if mode.AtMost? {
          search := true;
        }
        ok, page := Reuse(nearby, mode, search);
      } else {
        page := Extend();
        ok := true;
      }
    }

    /** freePage2() */
    method ReleasePage(page: nat)
      requires FreeValid() && 2 <= page <= nPage && l.Ordinary(page) && page !in Free()
      modifies `head, `count, `trunks, `ptrmap, `list
      ensures FreeValid() && Free() == old(Free()) + multiset{page} && count == old(count) + 1
      ensures ptrmap == old(ptrmap)[page := Entry(FreePage, 0)]
      ensures list == if old(list) == [] || |old(list[0].leaves)| >= Cap(l) then PushTrunk(old(list), page)
                      else PushLeaf(old(list), page)
    {
      hide FreeOk, Bag, PushTrunk, PushLeaf;
      var nFree := count;
      EmptyIs(l, nPage, head, nFree, trunks, list);
      ValidLayout(l, nPage, head, nFree, trunks, list);
      count := nFree + 1;
      ptrmap := ptrmap[page := Entry(FreePage, 0)];
      var trunk := 0;
      if nFree != 0 {
        trunk := FirstTrunk(nFree);
        var nLeaf := |trunks[trunk].leaves|;
        if nLeaf > l.usable / 4 - 2 {
          assert false;  // SQLITE_CORRUPT
        }
        if nLeaf < l.usable / 4 - 8 {
          LeafPushed(l, nPage, head, nFree, trunks, list, page);
          trunks := trunks[trunk := TrunkPage(trunks[trunk].next, trunks[trunk].leaves + [page])];
          list := PushLeaf(list, page);
          return;
        }
      }
      TrunkPushed(l, nPage, head, nFree, trunks, list, page);
      trunks := trunks[page := TrunkPage(trunk, [])];
      head := page;
      list := PushTrunk(list, page);
    }

    /** The first trunk of a nonempty list. */
    method FirstTrunk(ghost n: nat) returns (trunk: nat)
      requires FreeOk(l, nPage, head, n, trunks, list) && list != []
      ensures trunk == head && list[0].pgno == trunk && LinkedAt(trunks, list, 0) && |list[0].leaves| <= Cap(l)
    {
      assert LinkedAt(trunks, list, 0);
      trunk := head;
    }

    /** setChildPtrmaps(): every page that page pgno refers to gets it as its parent. */
    method SetChildPtrmaps(pgno: nat)
      requires pgno in pages && pages[pgno].Node? && Once(pages[pgno]) && Whole(pages[pgno])
      modifies `ptrmap
      ensures Adopted(pages[pgno], pgno, old(ptrmap), ptrmap)
    {
      hide AdoptedTo, Adopted, Once;
      var page := pages[pgno];
      var i := 0;
      AdoptNone(page, pgno, ptrmap);
      while i < |page.cells|
        invariant i <= |page.cells|
        invariant AdoptedTo(page, pgno, old(ptrmap), ptrmap, i)
      {
        ghost var before := ptrmap;
        var c := page.cells[i];
        assert page.leaf || Target(page, Child(i)) != 0;
        if c.Spills() {
          ptrmap := ptrmap[c.spill := Entry(Overflow1, pgno)];
        }
        ghost var between := ptrmap;
        if !page.leaf {
          ptrmap := ptrmap[c.child := Entry(BtreePage, pgno)];
        }
        AdoptCell(page, pgno, old(ptrmap), before, i, between, ptrmap);
        i := i + 1;
      }
      ghost var before := ptrmap;
      if !page.leaf {
        ptrmap := ptrmap[page.right := Entry(BtreePage, pgno)];
      }
      AdoptLast(page, pgno, old(ptrmap), before, ptrmap);
    }

    /** modifyPagePointer(): the pointer to page from on page q becomes a pointer to page to. */
    method ModifyPagePointer(q: nat, from: nat, to: nat, kind: Kind)
      requires q in pages && Once(pages[q]) && from != 0 && PointsTo(pages[q], kind, from)
      modifies `pages
      ensures pages == old(pages)[q := RenPage(from, to, old(pages[q]))]
    {
      var page := pages[q];
      if kind.Overflow2? {
        if page.Node? || page.next != from {
          assert false;  // SQLITE_CORRUPT
        }
        RenOnce(page, from, to, Next);
        pages := pages[q := Overflow(to, page.data)];
      } else {
        var nCell := |page.cells|;
        var i := 0;
        while i < nCell
          invariant i <= nCell && page == old(pages[q]) && pages == old(pages)
          invariant forall s: Slot :: Early(s, i) && s.Kind() == kind ==> Target(page, s) != from
        {
          var c := page.cells[i];
          if kind.Overflow1? {
            if c.Spills() && c.spill == from {
              RenOnce(page, from, to, Spill(i));
              pages := pages[q := page.(cells := page.cells[i := c.(spill := to)])];
              return;
            }
          } else if c.child == from {
            RenOnce(page, from, to, Child(i));
            pages := pages[q := page.(cells := page.cells[i := c.(child := to)])];
            return;
          }
          i := i + 1;
        }
        if !kind.BtreePage? || page.right != from {
          NoSlot(page, kind, from);
          assert false;  // SQLITE_CORRUPT
        }
        RenOnce(page, from, to, Right);
        pages := pages[q := page.(right := to)];
      }
    }

    /** relocatePage(): page a moves to page b. */
    method Relocate(a: nat, eType: Kind, ptrPage: nat, b: nat)
      requires GraphOk(pages, ptrmap, roots) && a in pages && b !in pages && a > 1 && b > 1
      requires if a in roots then eType == RootPage && b in ptrmap && ptrmap[b] == Entry(RootPage, 0)
               else a in ptrmap && ptrmap[a] == Entry(eType, ptrPage)
      modifies `pages, `ptrmap, `roots
      ensures GraphOk(pages, ptrmap, roots) && roots == RenSet(a, b, old(roots))
      ensures pages.Keys == old(pages).Keys - {a} + {b}
      ensures forall p :: p in old(pages) ==> ReadsAs(old(pages), p, pages, Ren(a, b, p))
      ensures forall t :: t !in old(pages) && t != b ==> EntryKept(old(ptrmap), ptrmap, t)
    {
      hide GraphOk, Once, PointsTo, Walk;
      ghost var m, pm := pages, ptrmap;
      PageFacts(m, pm, roots, a);
      if a !in roots {
        EntryOf(m, pm, roots, a);
        PageFacts(m, pm, roots, pm[a].parent);
      }
      pages := pages[b := pages[a]] - {a};
      if eType.BtreePage? || eType.RootPage? {
        SetChildPtrmaps(b);
      } else {
        var nextOvfl := pages[b].next;
        if nextOvfl != 0 {
          ptrmap := ptrmap[nextOvfl := Entry(Overflow2, b)];
        }
        AdoptNext(pages[b], b, pm, ptrmap);
      }
      ghost var pm1 := ptrmap;
      if !eType.RootPage? {
        ModifyPagePointer(ptrPage, a, b, eType);
        ptrmap := ptrmap[b := Entry(eType, ptrPage)];
      }
      assert Moved(m, pm, roots, a, b, pages, ptrmap);
      MovedSound(m, pm, roots, a, b, pages, ptrmap);
      MovedReads(m, pm, roots, a, b, pages, ptrmap);
      OthersKept(m, pm, roots, a, b, pm1);
      roots := RenSet(a, b, roots);
    }

    // ---- vacuum ------------------------------------------------------------------------------------

    /** A database between operations: the freelist and the page graph are sound, every ordinary page
        is in use or free, and the root pages are the first ordinary pages. */
    ghost predicate Valid()
      reads this
    {
      && FreeValid() && l.Ordinary(nPage) && roots == Pages(l, largestRoot)
      && Sound(l, nPage, count, Free(), pages, ptrmap, largestRoot)
    }

    /** The size that vacuuming leads to. */
    ghost function Final(): nat
      requires Valid() && nPage < 0x8000_0000
      reads this
    {
      SoundSizes(l, nPage, count, Free(), pages, ptrmap, largestRoot);
      FinalSize(l, nPage, count)
    }

    /** The final size has room for exactly the pages in use. */
    lemma FinalFacts()
      requires Valid() && nPage < 0x8000_0000
      ensures l.Valid() && 1 <= Final() <= nPage && l.Ordinary(Final()) && l.Count(Final()) == |pages|
      ensures l.Count(nPage) == |pages| + count && count < l.Count(nPage) <= nPage
    {
      SoundSizes(l, nPage, count, Free(), pages, ptrmap, largestRoot);
    }

    /** incrVacuumStep() with bCommit zero: the last page is given up. */
    method IncrVacuumStep(nFin: nat, lastPg: nat) returns (done: bool)
      requires Valid() && nPage < 0x8000_0000 && lastPg == nPage && nFin == Final()
      modifies this
      ensures Valid() && largestRoot == old(largestRoot)
      ensures SameTrees(old(pages), pages, roots)
      ensures done <==> old(count) == 0
      ensures done ==> nPage == old(nPage) && count == old(count)
      ensures !done ==> count == old(count) - 1 && nPage < old(nPage) && Final() == nFin
    {
      hide Sound, SameTrees, BagOk, FreeOk, Layout.Count;
      FinalFacts();
      SameTreesRefl(pages, roots);
      if !l.IsMap(lastPg) && lastPg != l.pending {
        if count == 0 {
          return true;
        }
        StepFacts(l, nPage, count, Free(), pages, ptrmap, largestRoot, nFin);
        var entry := ptrmap[lastPg];
        if entry.kind.RootPage? {
          assert false;  // SQLITE_CORRUPT
        }
        if entry.kind.FreePage? {
          DropLast();
        } else {
          MoveLast(nFin, entry);
        }
      }
      GiveUp(nFin);
      done := false;
    }

    /** The last page, which is free, leaves the freelist. */
    method DropLast()
      requires Valid() && count > 0 && count < nPage && nPage in Free()
      requires nPage in ptrmap && ptrmap[nPage].kind.FreePage? && nPage > 1
      modifies `nPage, `head, `count, `trunks, `list
      ensures FreeValid() && nPage == old(nPage) && count == old(count) - 1
      ensures Sound(l, nPage - 1, count, Free(), pages, ptrmap, largestRoot)
    {
      hide FreeOk, Bag, Sound, GraphOk;
      ghost var b := Free();
      SoundRoots(l, nPage, count, b, pages, ptrmap, largestRoot);
      var ok, page := Allocate(nPage, Exactly);
      SoundStep(l, nPage, count + 1, b, pages, ptrmap, largestRoot, nPage, pages, ptrmap);
    }

    /** The last page, which is in use, is relocated to a free page that stays. */
    method MoveLast(nFin: nat, entry: Entry)
      requires Valid() && count > 0 && count < nPage && nPage !in Free() && nPage in pages && nFin > 0
      requires nPage > 1 && nPage in ptrmap && ptrmap[nPage] == entry && nPage !in roots
      requires exists p <- Free() :: p <= nFin
      modifies this
      ensures FreeValid() && nPage == old(nPage) && count == old(count) - 1 && largestRoot == old(largestRoot)
      ensures roots == old(roots) && SameTrees(old(pages), pages, roots)
      ensures Sound(l, nPage - 1, count, Free(), pages, ptrmap, largestRoot)
    {
      hide FreeOk, Bag, GraphOk, ReadsAs, Sound, SameTrees;
      ghost var b, m, pm := Free(), pages, ptrmap;
      SoundRoots(l, nPage, count, b, m, pm, largestRoot);
      var ok, page := Allocate(nFin, AtMost);
      Relocate(nPage, entry.kind, entry.parent, page);
      SoundStep(l, nPage, count + 1, b, m, pm, largestRoot, page, pages, ptrmap);
      RootsRead(m, pages, roots, nPage, page);
    }

    /** The end of incrVacuumStep(): the size steps back to the previous ordinary page. */
    method GiveUp(ghost nFin: nat)
      requires FreeValid() && l.Ordinary(nPage) && 1 < nPage < 0x8000_0000 && roots == Pages(l, largestRoot)
      requires Sound(l, nPage - 1, count, Free(), pages, ptrmap, largestRoot)
      requires l.Ordinary(nFin) && l.Count(nFin) == l.Count(nPage) - count - 1
      modifies `nPage
      ensures Valid() && nPage < old(nPage) && Final() == nFin
    {
      hide Layout.Count, Pages, Linked, Sound, Layout.Ordinary;
      CountStep(l, nPage);
      var n := nPage;
      nPage := DownToOrdinary(l, nPage - 1);
      SoundDown(l, n - 1, nPage, count, Free(), pages, ptrmap, largestRoot);
      SoundSizes(l, nPage, count, Free(), pages, ptrmap, largestRoot);
      SoundBag(l, nPage, count, Free(), pages, ptrmap, largestRoot);
      FinalSizeIs(l, nPage, count, nFin);
    }

    /** sqlite3BtreeIncrVacuum() */
    method IncrVacuum() returns (done: bool)
      requires Valid() && nPage < 0x8000_0000
      modifies this
      ensures Valid() && largestRoot == old(largestRoot)
      ensures SameTrees(old(pages), pages, roots)
      ensures done <==> old(count) == 0
      ensures done ==> nPage == old(nPage) && count == 0
      ensures !done ==> count == old(count) - 1 && nPage < old(nPage)
      ensures Final() == old(Final())
    {
      hide Sound, SameTrees, FreeOk;
      FinalFacts();
      SameTreesRefl(pages, roots);
      var nOrig, nFree := nPage, count;
      var nFin := FinalDbSize(l, nOrig, nFree);
      if nOrig < nFin {
        assert false;  // SQLITE_CORRUPT
      }
      if nFree > 0 {
        done := IncrVacuumStep(nFin, nOrig);
      } else {
        done := true;
      }
    }

    /** Vacuuming until there is nothing left to do: one step for each free page, to the size that
        was predicted at the start, with every tree as it was. */
    method VacuumFully() returns (steps: nat)
      requires Valid() && nPage < 0x8000_0000
      modifies this
      ensures Valid() && count == 0 && steps == old(count) && nPage == old(Final())
      ensures largestRoot == old(largestRoot) && SameTrees(old(pages), pages, roots)
    {
      hide Sound, SameTrees, FreeOk;
      SameTreesRefl(pages, roots);
      steps := 0;
      var done := false;
      while !done
        invariant Valid() && nPage <= old(nPage) && largestRoot == old(largestRoot) && Final() == old(Final())
        invariant steps + count == old(count) && (done ==> count == 0)
        invariant SameTrees(old(pages), pages, roots)
        decreases !done, count
      {
        ghost var m := pages;
        done := IncrVacuum();
        SameTreesTrans(old(pages), m, pages, roots);
        if !done {
          steps := steps + 1;
        }
      }
      FinalFacts();
      SameCount(l, nPage, Final());
    }

    ghost predicate CommitValid(last: nat, nFin: nat)
      reads this
    {
      && FreeOk(l, nPage, head, count, trunks, list) && roots == Pages(l, largestRoot) && l.Ordinary(nPage)
      && Committing(l, nPage, last, nFin, count, Free(), pages, ptrmap, largestRoot)
    }

    /** incrVacuumStep() with bCommit nonzero: page lastPg is emptied, and the size is left alone. */
    method CommitStep(nFin: nat, lastPg: nat) returns (done: bool)
      requires CommitValid(lastPg, nFin) && 1 <= nFin < lastPg && count < nPage
      modifies this
      ensures CommitValid(if done then lastPg else lastPg - 1, nFin) && count <= old(count)
      ensures done ==> count == 0
      ensures nPage == old(nPage) && largestRoot == old(largestRoot) && SameTrees(old(pages), pages, roots)
    {
      hide Committing, SameTrees, FreeOk;
      SameTreesRefl(pages, roots);
      ghost var b, m := Free(), pages;
      done := false;
      if !l.IsMap(lastPg) && lastPg != l.pending {
        if count == 0 {
          return true;
        }
        CommitFacts(l, nPage, lastPg, nFin, count, b, m, ptrmap, largestRoot);
        var entry := ptrmap[lastPg];
        if entry.kind.RootPage? {
          assert false;  // SQLITE_CORRUPT
        }
        if entry.kind.FreePage? {
          CommitPass(l, nPage, lastPg, nFin, count, b, m, ptrmap, largestRoot);
        } else {
          CommitMoveLast(nFin, lastPg, entry);
        }
      } else {
        NotInUse(l, nPage, lastPg, nFin, count, b, m, ptrmap, largestRoot);
        CommitPass(l, nPage, lastPg, nFin, count, b, m, ptrmap, largestRoot);
      }
    }

    /** Free pages are drawn until one is found that stays, and page lastPg moves there. */
    method CommitMoveLast(nFin: nat, lastPg: nat, entry: Entry)
      requires CommitValid(lastPg, nFin) && 1 <= nFin < lastPg && count < nPage
      requires lastPg in pages && lastPg !in roots && lastPg in ptrmap && ptrmap[lastPg] == entry
      requires exists p <- Free() :: p <= nFin
      modifies this
      ensures CommitValid(lastPg - 1, nFin) && count <= old(count)
      ensures nPage == old(nPage) && largestRoot == old(largestRoot) && SameTrees(old(pages), pages, roots)
    {
      hide Committing, SameTrees, FreeOk, Bag, GraphOk, ReadsAs, BagOk;
      ghost var m, pm := pages, ptrmap;
      var page := 0;
      while true
        invariant CommitValid(lastPg, nFin) && count <= old(count) && exists p <- Free() :: p <= nFin
        invariant pages == m && ptrmap == pm && roots == old(roots)
        invariant nPage == old(nPage) && largestRoot == old(largestRoot)
        decreases count
      {
        ghost var b := Free();
        CommitRoots(l, nPage, lastPg, nFin, count, b, m, pm, largestRoot);
        SomeFree(l, nPage, count, b);
        ghost var low :| low in b && low <= nFin;
        var ok;
        ok, page := Allocate(0, Anywhere);
        if page <= nFin {
          Relocate(lastPg, entry.kind, entry.parent, page);
          CommitMove(l, nPage, lastPg, nFin, count + 1, b, m, pm, largestRoot, page, pages, ptrmap);
          RootsRead(m, pages, roots, lastPg, page);
          return;
        }
        CommitDiscard(l, nPage, lastPg, nFin, count + 1, b, m, pm, largestRoot, page);
        assert low in Free();
      }
    }

    /** The loop of autoVacuumCommit(): every page past nFin is emptied. */
    method CommitLoop(nFin: nat)
      requires CommitValid(nPage, nFin) && 1 <= nFin <= nPage && count < nPage
      modifies this
      ensures FreeOk(l, nPage, head, count, trunks, list) && roots == Pages(l, largestRoot) && count <= old(count)
      ensures Sound(l, nFin, 0, multiset{}, pages, ptrmap, largestRoot)
      ensures nPage == old(nPage) && largestRoot == old(largestRoot) && SameTrees(old(pages), pages, roots)
    {
      hide Sound, SameTrees, FreeOk, Committing;
      SameTreesRefl(pages, roots);
      var iFree := nPage;
      var done := false;
      while iFree > nFin && !done
        invariant nFin <= iFree && CommitValid(iFree, nFin) && count <= old(count)
        invariant done ==> count == 0
        invariant nPage == old(nPage) && largestRoot == old(largestRoot) && SameTrees(old(pages), pages, roots)
        decreases iFree, !done
      {
        ghost var m := pages;
        done := CommitStep(nFin, iFree);
        SameTreesTrans(old(pages), m, pages, roots);
        if !done {
          iFree := iFree - 1;
        }
      }
      CommitEnds(l, nPage, iFree, nFin, count, Free(), pages, ptrmap, largestRoot);
    }

    /** The end of autoVacuumCommit(): nothing is left on the freelist, and the file has its final size. */
    method CommitDone(nFin: nat)
      requires l.Valid() && l.Ordinary(nFin) && roots == Pages(l, largestRoot)
      requires Sound(l, nFin, 0, multiset{}, pages, ptrmap, largestRoot)
      modifies `head, `count, `nPage, `list
      ensures Valid() && count == 0 && nPage == nFin
    {
      hide Sound, FreeOk, Layout.Ordinary, Pages, Bag;
      head := 0;
      count := 0;
      nPage := nFin;
      list := [];
      EmptiedList(l, nPage, trunks);
    }

    /** The part of autoVacuumCommit() that moves pages and gives up the freelist. */
    method CommitFrom(nFree: nat, nOrig: nat, nFin: nat)
      requires CommitValid(nPage, nFin) && 1 <= nFin <= nPage == nOrig && count == nFree < nPage && l.Valid()
      requires l.Ordinary(nOrig)
      requires l.Ordinary(nFin) && (nFree == 0 ==> l.Count(nFin) == l.Count(nOrig))
      modifies this
      ensures Valid() && count == 0 && nPage == nFin
      ensures largestRoot == old(largestRoot) && SameTrees(old(pages), pages, roots)
    {
      hide Sound, SameTrees, FreeOk, Committing, Layout.Ordinary, Layout.Count, Pages, Bag;
      ghost var m := pages;
      CommitLoop(nFin);
      if nFree > 0 {
        CommitDone(nFin);
      } else {
        SameCount(l, nOrig, nFin);
        EmptyList(l, nPage, head, trunks, list);
      }
    }

    /** autoVacuumCommit() */
    method AutoVacuumCommit()
      requires Valid() && nPage < 0x8000_0000
      modifies this
      ensures Valid() && count == 0 && nPage == old(Final())
      ensures largestRoot == old(largestRoot) && SameTrees(old(pages), pages, roots)
    {
      hide Sound, SameTrees, FreeOk, Committing, Layout.Count, Pages, Bag;
      FinalFacts();
      var nOrig := nPage;
      if l.IsMap(nOrig) || nOrig == l.pending {
        assert false;  // SQLITE_CORRUPT
      }
      var nFree := count;
      var nFin := FinalDbSize(l, nOrig, nFree);
      if nFin > nOrig {
        assert false;  // SQLITE_CORRUPT
      }
      CommitStarts(l, nPage, nFin, count, Free(), pages, ptrmap, largestRoot);
      CommitFrom(nFree, nOrig, nFin);
    }

    // ---- root pages --------------------------------------------------------------------------------

    /** The page number after the largest root that can be a root. */
    method NextRoot() returns (root: nat)
      requires l.Valid() && l.Ordinary(largestRoot)
      ensures NextOrdinary(l, largestRoot, root)
    {
      ghost var m := NextExists(l, largestRoot);
      root := largestRoot + 1;
      while root == l.MapPage(root) || root == l.pending
        invariant largestRoot < root <= m && l.Count(root - 1) == l.Count(largestRoot)
        decreases m - root
      {
        SkippedRoot(l, largestRoot, root, m);
        root := root + 1;
      }
    }

    /** A page is drawn: page root if it is free. */
    method DrawNear(root: nat) returns (move: nat)
      requires Valid() && NextOrdinary(l, largestRoot, root)
      modifies `nPage, `head, `count, `trunks, `list
      ensures FreeValid() && l.Ordinary(nPage)
      ensures Drawn(l, old(nPage), old(count), old(Free()), move, nPage, count, Free())
      ensures old(count) > 0 && root in old(Free()) ==> move == root
    {
      hide SameTrees, FreeOk, GraphOk, Pages, Layout.Count, Bag, BagOk, Sound, NearestOf;
      RootPlace(l, nPage, count, Free(), pages, ptrmap, largestRoot, root);
      SoundSizes(l, nPage, count, Free(), pages, ptrmap, largestRoot);
      var ok;
      ok, move := Allocate(root, Exactly);
    }

    /** Page root is made available: a page is drawn, near it if possible, and unless that is page
        root itself what is on page root moves there. */
    method MakeRoom(root: nat) returns (move: nat)
      requires Valid() && NextOrdinary(l, largestRoot, root)
      modifies `nPage, `head, `count, `trunks, `list, `pages, `ptrmap, `roots
      ensures FreeValid() && l.Ordinary(nPage) && roots == old(roots)
      ensures Drawn(l, old(nPage), old(count), old(Free()), move, nPage, count, Free())
      ensures root !in pages && 0 !in pages && pages.Keys + {root} == old(pages).Keys + {move}
      ensures GraphOk(pages, ptrmap, roots) && root > 1
      ensures SameTrees(old(pages), pages, roots)
      ensures forall t :: t !in old(pages) && t != move ==> EntryKept(old(ptrmap), ptrmap, t)
    {
      hide Sound, SameTrees, FreeOk, GraphOk, ReadsAs, Pages, Layout.Count, Bag, BagOk;
      ghost var b, m, pm := Free(), pages, ptrmap;
      RootPlace(l, nPage, count, b, m, pm, largestRoot, root);
      SoundRoots(l, nPage, count, b, m, pm, largestRoot);
      ghost var n, c := nPage, count;
      move := DrawNear(root);
      if move != root {
        DrawnElsewhere(l, n, c, b, m, pm, largestRoot, root, move, nPage, count, Free());
        var entry := ptrmap[root];
        if entry.kind.RootPage? || entry.kind.FreePage? {
          assert false;  // SQLITE_CORRUPT
        }
        Relocate(root, entry.kind, entry.parent, move);
        RootsRead(m, pages, roots, root, move);
      } else {
        DrawnHere(l, n, c, b, m, pm, largestRoot, root, nPage, count, Free());
        SameTreesRefl(m, roots);
      }
    }

    /** The part of btreeCreateTable() that enters the root. */
    method PutRoot(root: nat, ghost m: Store, ghost pm: PointerMap, ghost move: nat)
      requires root !in pages && 0 !in pages && root > 1 && pages.Keys + {root} == m.Keys + {move}
      requires GraphOk(pages, ptrmap, roots) && SameTrees(m, pages, roots)
      requires forall t :: t !in m && t != move ==> EntryKept(pm, ptrmap, t)
      modifies `pages, `ptrmap
      ensures GraphOk(pages, ptrmap, roots + {root}) && pages.Keys == m.Keys + {move} && root in pages
      ensures IsEmptyLeaf(pages[root])
      ensures SameTrees(m, pages, roots)
      ensures forall t :: t !in m && t != move ==> EntryKept(pm, ptrmap, t)
    {
      hide SameTrees, GraphOk, IsEmptyLeaf, Extends;
      NewLeaf();
      ghost var m1, pm1 := pages, ptrmap;
      var leaf := Node(true, [], 0);
      RootAdded(m1, pm1, roots, root, leaf);
      ptrmap := ptrmap[root := Entry(RootPage, 0)];
      pages := pages[root := leaf];
      RootExtends(m1, root, leaf);
      AddedReads(m, m1, pages, pm1, roots);
    }

    /** The root is the last one now. */
    method EnterRoot(root: nat)
      requires FreeValid() && l.Ordinary(nPage) && roots == Pages(l, largestRoot) && NextOrdinary(l, largestRoot, root)
      requires Sound(l, nPage, count, Free(), pages, ptrmap, root)
      modifies `largestRoot, `roots
      ensures Valid() && largestRoot == root && roots == old(roots) + {root} && root !in old(roots)
    {
      hide Sound, FreeOk, Pages, Layout.Ordinary, Bag;
      PagesNext(l, largestRoot, root);
      largestRoot := root;
      roots := roots + {root};
    }

    /** btreeCreateTable(): the new root is the ordinary page after the last root; what is there now
        moves away. */
    method CreateTable() returns (root: nat)
      requires Valid()
      modifies this
      ensures Valid() && NextOrdinary(l, old(largestRoot), root) && largestRoot == root
      ensures roots == old(roots) + {root} && root !in old(roots)
      ensures root in pages && IsEmptyLeaf(pages[root]) && SameTrees(old(pages), pages, old(roots))
    {
      hide Sound, SameTrees, FreeOk, GraphOk, ReadsAs, Pages, Layout.Count, Layout.Ordinary, Bag, BagOk, IsEmptyLeaf,
           Drawn, Extends, EntryKept, NextOrdinary;
      ghost var b, m, pm, n, c := Free(), pages, ptrmap, nPage, count;
      ValidLayout(l, nPage, head, count, trunks, list);
      SoundRoots(l, nPage, count, b, m, pm, largestRoot);
      root := NextRoot();
      var move := MakeRoom(root);
      PutRoot(root, m, pm, move);
      ValidBag(l, nPage, head, count, trunks, list);
      SoundCreate(l, n, c, b, m, pm, largestRoot, root, move, nPage, count, Free(), pages, ptrmap);
      EnterRoot(root);
    }

    method TakeOut(table: nat)
      modifies `pages, `roots
      ensures pages == old(pages) - {table} && roots == old(roots) - {table}
    {
      pages := pages - {table};
      roots := roots - {table};
    }

    /** The emptied root table is given up, or the last root takes its place. */
    method FillGap(table: nat) returns (freed: nat)
      requires Valid() && table in roots && table >= 2 && IsEmptyLeaf(pages[table])
      modifies `pages, `ptrmap, `roots
      ensures freed == largestRoot && roots == old(roots) - {largestRoot}
      ensures GraphOk(pages, ptrmap, roots) && pages.Keys == old(pages).Keys - {largestRoot}
      ensures forall t :: t !in old(pages) ==> EntryKept(old(ptrmap), ptrmap, t)
      ensures forall p :: p in old(pages) && p != table ==> ReadsAs(old(pages), p, pages, Ren(largestRoot, table, p))
    {
      hide FreeOk, GraphOk, ReadsAs, IsEmptyLeaf, BagOk, Partition, FreeKnown, Layout.Ordinary, Pages, Bag;
      ghost var m, pm, all := pages, ptrmap, roots;
      GraphKeys(m, pm, all);
      RootEntry(m, pm, all, table);
      RootRemoved(m, pm, all, table);
      RemovedReads(m, pm, all, table);
      TakeOut(table);
      if table != largestRoot {
        ghost var m1 := pages;
        Relocate(largestRoot, RootPage, 0, table);
        ChainReads(m, m1, pages, table, largestRoot);
      }
      freed := largestRoot;
    }

    // ---- clearing a table --------------------------------------------------------------------------

    /** The pages gone of the store m are free; b are the pages that were free before. */
    ghost predicate Freeing(m: Store, pm: PointerMap, b: multiset<nat>, gone: set<nat>)
      reads this
    {
      && FreeValid() && Partition(l, nPage, m, b) && gone <= m.Keys && pages == m - gone
      && Free() == b + multiset(gone) && MapStep(pm, ptrmap, gone)
    }

    /** Page p is returned to the freelist. */
    method FreeOne(p: nat, ghost m: Store, ghost pm: PointerMap, ghost b: multiset<nat>, ghost gone: set<nat>)
      requires Freeing(m, pm, b, gone) && p in m && p !in gone && p >= 2
      modifies `pages, `head, `count, `trunks, `ptrmap, `list
      ensures Freeing(m, pm, b, gone + {p}) && count == old(count) + 1
    {
      hide FreeOk, Partition, Bag, MapStep;
      InFile(l, nPage, m, b, p);
      MapNext(pm, ptrmap, gone, p);
      BagNext(b, gone, p);
      ReleasePage(p);
      pages := pages - {p};
    }

    /** The loop of clearCell(): the overflow pages from page first on become free. */
    method FreeOverflow(first: nat, ghost m: Store, ghost pm: PointerMap, ghost b: multiset<nat>, ghost path: seq<nat>,
                        ghost gone: set<nat>)
      returns (ghost gone': set<nat>)
      requires Freeing(m, pm, b, gone) && Progress(m, pm, roots, path, gone, 0)
      requires first in m && m[first].Overflow? && first !in gone && first !in path && first in pm && first !in roots
      requires Par(pm, first) in gone || Par(pm, first) in path
      modifies `pages, `head, `count, `trunks, `ptrmap, `list
      ensures Freeing(m, pm, b, gone') && Progress(m, pm, roots, path, gone', 0) && WentWith(pm, gone, gone', first)
      ensures count + |gone| == old(count) + |gone'|
    {
      hide Freeing, Progress;
      gone' := gone;
      var ovflPgno := first;
      OpenMore(m, pm, roots, path, gone, first);
      FreeingKeys(m, pm, b, gone);
      NotPageOne(m, pm, roots, path, gone, 0, first);
      while ovflPgno != 0
        invariant Freeing(m, pm, b, gone') && Progress(m, pm, roots, path, gone', ovflPgno)
        invariant gone <= gone' <= m.Keys && pages == m - gone'
        invariant ovflPgno != 0 ==>
          ovflPgno in m && m[ovflPgno].Overflow? && ovflPgno !in gone' && ovflPgno !in path && ovflPgno in pm
        invariant ovflPgno != 0 ==> ovflPgno !in roots && (Par(pm, ovflPgno) in gone' || Par(pm, ovflPgno) in path)
        invariant if gone' == gone then ovflPgno == first
          else first in gone' && (ovflPgno != 0 ==> Par(pm, ovflPgno) in gone')
        invariant forall q :: q in gone' && q !in gone ==> q == first || Par(pm, q) in gone'
        invariant count + |gone| == old(count) + |gone'|
        decreases |m.Keys - gone'|
      {
        var iNext := pages[ovflPgno].next;
        ChainGoes(m, pm, roots, path, gone', ovflPgno);
        NotPageOne(m, pm, roots, path, gone', ovflPgno, ovflPgno);
        FreeOne(ovflPgno, m, pm, b, gone');
        Fewer(m.Keys, gone', ovflPgno);
        gone' := gone' + {ovflPgno};
        FreeingKeys(m, pm, b, gone');
        ovflPgno := iNext;
      }
    }

    lemma FreeingKeys(m: Store, pm: PointerMap, b: multiset<nat>, gone: set<nat>)
      requires Freeing(m, pm, b, gone)
      ensures gone <= m.Keys && pages == m - gone && FreeValid()
    {
    }

    /** clearDatabasePage(): the page and everything below it become free, or, for the root, the page becomes an
        empty leaf. */
    method ClearDatabasePage(pgno: nat, freePageFlag: bool, ghost m: Store, ghost pm: PointerMap,
                             ghost b: multiset<nat>, ghost path: seq<nat>, ghost gone: set<nat>)
      returns (n: nat, ghost gone': set<nat>)
      requires Freeing(m, pm, b, gone) && Progress(m, pm, roots, path, gone, 0)
      requires PathDown(m, pm, roots, path + [pgno]) && pgno in m && pgno !in gone && m[pgno].Node?
      requires freePageFlag == (path != []) && (freePageFlag ==> pgno in pm && pgno !in roots)
      modifies `pages, `head, `count, `trunks, `ptrmap, `list
      ensures count + |gone| == old(count) + |gone'| && CountsRows(m, pgno, n)
      ensures freePageFlag ==>
        Freeing(m, pm, b, gone') && Progress(m, pm, roots, path, gone', 0) && WentWith(pm, gone, gone', pgno)
      ensures !freePageFlag ==> FreeValid() && Free() == b + multiset(gone') && MapStep(pm, ptrmap, gone')
      ensures !freePageFlag ==> gone' <= m.Keys && pages == (m - gone')[pgno := Node(true, [], 0)]
      ensures !freePageFlag ==> Dealing(m, pm, roots, path, pgno, gone, gone', AllSlots(m[pgno]))
      decreases |m| - |path|, 1
    {
      hide Freeing, Progress, PathDown, Dealing, Target, FreeOk, MapStep, Bag, AllSlots, SlotsBefore, Whole, CountsRows,
           SlotRows, RowsBefore;
      FreeingKeys(m, pm, b, gone);
      WholePage(m, pm, roots, path, gone, pgno);
      PathShort(m, pm, roots, path + [pgno]);
      DealStart(m, pm, roots, path, pgno, gone);
      SlotsEnd(m[pgno]);
      RowsStart(m, pgno);
      n, gone' := 0, gone;
      var x: nat;
      var page := pages[pgno];
      var i := 0;
      while i < |page.cells|
        invariant i <= |page.cells| && Freeing(m, pm, b, gone') && RowsBefore(m, pgno, i, n)
        invariant Dealing(m, pm, roots, path, pgno, gone, gone', SlotsBefore(i))
        invariant count + |gone| == old(count) + |gone'|
      {
        SlotsNext(i);
        x, gone' := ClearSlot(pgno, Child(i), m, pm, b, path, gone, gone', SlotsBefore(i));
        RowsNext(m, pgno, i, n, x);
        n := n + x;
        x, gone' := ClearSlot(pgno, Spill(i), m, pm, b, path, gone, gone', SlotsBefore(i) + {Child(i)});
        i := i + 1;
      }
      SlotsNext(i);
      x, gone' := ClearSlot(pgno, Right, m, pm, b, path, gone, gone', SlotsBefore(i));
      RowsEnd(m, pgno, n, x);
      n := n + x;
      if page.leaf {
        n := n + |page.cells|;
      }
      SlotsAll(m[pgno]);
      FreeingKeys(m, pm, b, gone');
      if freePageFlag {
        DealEnd(m, pm, roots, path, pgno, gone, gone', AllSlots(m[pgno]));
        FreeOne(pgno, m, pm, b, gone');
        Fewer(m.Keys, gone', pgno);
        gone' := gone' + {pgno};
      } else {
        FreeingParts(m, pm, b, gone');
        pages := pages[pgno := Node(true, [], 0)];
      }
    }

    lemma FreeingParts(m: Store, pm: PointerMap, b: multiset<nat>, gone: set<nat>)
      requires Freeing(m, pm, b, gone)
      ensures Free() == b + multiset(gone) && MapStep(pm, ptrmap, gone)
    {
    }

    /** What one slot of page pgno refers to becomes free. */
    method ClearSlot(pgno: nat, s: Slot, ghost m: Store, ghost pm: PointerMap, ghost b: multiset<nat>,
                     ghost path: seq<nat>, ghost gone0: set<nat>, ghost gone: set<nat>, ghost done: set<Slot>)
      returns (n: nat, ghost gone': set<nat>)
      requires Freeing(m, pm, b, gone) && Dealing(m, pm, roots, path, pgno, gone0, gone, done) && s !in done
      requires pgno in m && m[pgno].Node? && |path| < |m|
      modifies `pages, `head, `count, `trunks, `ptrmap, `list
      ensures Freeing(m, pm, b, gone') && Dealing(m, pm, roots, path, pgno, gone0, gone', done + {s})
      ensures count + |gone| == old(count) + |gone'| && SlotRows(m[pgno], m, s, n)
      decreases |m| - |path|, 0
    {
      hide Freeing, Progress, PathDown, Dealing, FreeOk, MapStep, Bag, CountsRows;
      FreeingKeys(m, pm, b, gone);
      DealStays(m, pm, roots, path, pgno, gone0, gone, done);
      var t := Target(pages[pgno], s);
      n, gone' := 0, gone;
      if t == 0 {
        DealNone(m, pm, roots, path, pgno, gone0, gone, done, s);
      } else {
        DealTarget(m, pm, roots, path, pgno, gone0, gone, done, s);
        if s.Kind() == BtreePage {
          n, gone' := ClearDatabasePage(t, true, m, pm, b, path + [pgno], gone);
        } else {
          gone' := FreeOverflow(t, m, pm, b, path + [pgno], gone);
        }
        DealNext(m, pm, roots, path, pgno, gone0, gone, gone', done, s);
      }
    }

    /** sqlite3BtreeClearTable(): every page of the table but its root becomes free. */
    method ClearTable(table: nat) returns (nChange: nat)
      requires Valid() && table in roots
      modifies `pages, `head, `count, `trunks, `ptrmap, `list
      ensures Valid() && table in pages && IsEmptyLeaf(pages[table]) && pages.Keys <= old(pages).Keys
      ensures count >= old(count)
      ensures SameTrees(old(pages), pages, roots - {table}) && CountsRows(old(pages), table, nChange)
    {
      hide FreeOk, GraphOk, Bag, BagOk, Partition, FreeKnown, Progress, Dealing, MapStep, IsEmptyLeaf, SameTrees,
           AllSlots, Pages, CountsRows;
      ghost var m, pm, b, c := pages, ptrmap, Free(), count;
      ClearStart(l, nPage, b, m, pm, roots, table);
      FreeingNone(m, pm, b);
      ghost var gone;
      nChange, gone := ClearDatabasePage(table, false, m, pm, b, [], {});
      DealtAll(m, pm, roots, table, gone, pages, ptrmap);
      ClearedGraph(m, pm, roots, table, gone, pages, ptrmap);
      ClearedReads(m, pm, roots, table, gone, pages);
      NewLeaf();
      ValidBag(l, nPage, head, count, trunks, list);
      SoundClear(l, nPage, c, b, m, pm, largestRoot, gone, count, pages, ptrmap);
    }

    lemma FreeingNone(m: Store, pm: PointerMap, b: multiset<nat>)
      requires FreeValid() && Partition(l, nPage, m, b) && m == pages && pm == ptrmap && b == Free()
      ensures Freeing(m, pm, b, {})
    {
    }

    /** btreeDropTable(): the table is cleared, and its root is given up. */
    method DropTable(table: nat) returns (moved: nat)
      requires Valid() && table in roots && table >= 2
      modifies this
      ensures Valid() && NextOrdinary(l, largestRoot, old(largestRoot))
      ensures roots == old(roots) - {old(largestRoot)} && nPage == old(nPage) && count > old(count)
      ensures moved == if table == old(largestRoot) then 0 else old(largestRoot)
      ensures forall r :: r in old(roots) && r != table ==>
        ReadsAs(old(pages), r, pages, Ren(old(largestRoot), table, r)) && Ren(old(largestRoot), table, r) in roots
    {
      hide Sound, FreeOk, GraphOk, ReadsAs, Ren, IsEmptyLeaf, CountsRows;
      ghost var m, top := pages, largestRoot;
      var nChange := ClearTable(table);
      ghost var m1 := pages;
      moved := DropEmptyTable(table);
      DropReads(m, m1, pages, roots, old(roots), table, top);
    }

    /** The root before the last is the last one now. */
    method LeaveRoot(freed: nat, ghost c: nat, ghost b: multiset<nat>, ghost m: Store, ghost pm: PointerMap)
      requires FreeValid() && l.Ordinary(nPage) && freed == largestRoot && freed > 1 && l.Ordinary(freed)
      requires Sound(l, nPage, c, b, m, pm, freed) && BagOk(l, nPage, c + 1, b + multiset{freed}) && count == c + 1
      requires Free() == b + multiset{freed}
      requires roots == Pages(l, freed) - {freed} && pages.Keys == m.Keys - {freed} && GraphOk(pages, ptrmap, roots)
      requires freed in ptrmap && ptrmap[freed].kind.FreePage? && forall t :: t !in m ==> EntryKept(pm, ptrmap, t)
      modifies `largestRoot
      ensures Valid() && NextOrdinary(l, largestRoot, old(largestRoot))
    {
      hide Sound, FreeOk, GraphOk, Pages, BagOk, Bag, EntryKept, Layout.Count, Layout.Ordinary;
      CountStep(l, freed);
      ValidLayout(l, nPage, head, count, trunks, list);
      largestRoot := DownToOrdinary(l, freed - 1);
      SoundDrop(l, nPage, c, b, m, pm, freed, largestRoot, pages, ptrmap);
      PagesNext(l, largestRoot, freed);
    }

    /** The end of btreeDropTable(), when the table is empty: the last root moves into the gap, so that the roots
        remain the first ordinary pages. */
    method DropEmptyTable(table: nat) returns (moved: nat)
      requires Valid() && table in roots && table >= 2 && IsEmptyLeaf(pages[table])
      modifies this
      ensures Valid() && NextOrdinary(l, largestRoot, old(largestRoot))
      ensures roots == old(roots) - {old(largestRoot)} && nPage == old(nPage) && count == old(count) + 1
      ensures moved == if table == old(largestRoot) then 0 else old(largestRoot)
      ensures forall r :: r in old(roots) && r != table ==>
        ReadsAs(old(pages), r, pages, Ren(old(largestRoot), table, r)) && Ren(old(largestRoot), table, r) in roots
    {
      hide Sound, FreeOk, GraphOk, ReadsAs, Pages, Layout.Count, Layout.Ordinary, IsEmptyLeaf, BagOk, Bag, NextOrdinary;
      ghost var b, m, pm, c, all := Free(), pages, ptrmap, count, roots;
      TopInUse(l, nPage, count, b, m, pm, largestRoot);
      SoundRoots(l, nPage, count, b, m, pm, largestRoot);
      TopIsRoot(l, largestRoot, table);
      var freed := FillGap(table);
      ghost var pm1 := ptrmap;
      ReleasePage(freed);
      EntryFree(pages, pm1, roots, freed, Entry(FreePage, 0));
      moved := if table == freed then 0 else freed;
      ValidBag(l, nPage, head, count, trunks, list);
      LeaveRoot(freed, c, b, m, pm);
    }
  }
}
