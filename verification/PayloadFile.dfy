/** Writing, reading and freeing payloads that spill onto overflow pages. */
module PayloadFiles {
  import opened Bytes
  import opened Varints
  import opened CellFormat
  import opened OverflowChain
  import opened PtrMap
  import PageGraph

  /** The bytes to be stored: src, then nZero zeros. */
  function Content(src: seq<byte>, nZero: nat): seq<byte> {
    src + seq(nZero, _ => 0)
  }

  /** A cell as fillInCell() leaves it: header and local payload, and the number of the first
      overflow page if there is one. */
  predicate CellHolds(kind: CellKind, usable: nat, cell: seq<byte>, key: nat, payload: seq<byte>, chain: seq<nat>)
    requires Usable(usable)
  {
    var n := |payload|;
    var h := kind.ChildSize() + |Header(kind, key, n)|;
    var local := LocalSize(kind, usable, n);
    && StartsAt(cell, kind.ChildSize(), Header(kind, key, n)) && StartsAt(cell, h, payload[..local])
    && if local < n then h + local + 4 <= |cell| && chain != [] && Get4(cell, h + local) == chain[0] else chain == []
  }

  /** A payload stored in a cell and its overflow pages. */
  ghost predicate Stored(kind: CellKind, usable: nat, cell: seq<byte>, key: nat, payload: seq<byte>, pages: Contents,
                         chain: seq<nat>)
    requires Usable(usable)
  {
    var local := LocalSize(kind, usable, |payload|);
    && CellHolds(kind, usable, cell, key, payload, chain)
    && (local < |payload| ==>
          ChainOk(pages, chain, payload, local, usable - 4, |payload|) &&
          RightLength(chain, |payload|, local, usable - 4))
  }

  /** No page is named as the second or a later page of a chain but by the page before it. */
  ghost predicate OverflowKnown(pages: Contents, pm: PageGraph.PointerMap) {
    forall t <- pm :: t > 0 && pm[t].kind.Overflow2? ==>
      pm[t].parent in pages && |pages[pm[t].parent]| >= 4 && Get4(pages[pm[t].parent], 0) == t
  }

  ghost predicate FileOk(l: Layout, nPage: nat, limit: nat, pages: Contents, free: set<nat>, pm: PageGraph.PointerMap) {
    && l.Valid() && l.Ordinary(nPage) && nPage <= limit < 0x1_0000_0000
    && (forall p <- pages :: 1 <= p <= nPage && l.Ordinary(p) && |pages[p]| == l.usable && p !in free)
    && (forall p <- free :: 2 <= p <= nPage && l.Ordinary(p))
    && OverflowKnown(pages, pm)
  }

  class PageFile {
    const l: Layout
    const limit: nat
    var nPage: nat
    var pages: Contents
    var free: set<nat>
    var ptrmap: PageGraph.PointerMap

    constructor (l: Layout, limit: nat)
      requires l.Valid() && 1 <= limit < 0x1_0000_0000
      ensures Valid() && pages == map[] && free == {}
    {
      this.l, this.limit := l, limit;
      nPage, pages, free, ptrmap := 1, map[], {}, map[];
    }

    ghost predicate Valid()
      reads this
    {
      FileOk(l, nPage, limit, pages, free, ptrmap)
    }

    /** allocateBtreePage(), as far as the payload code depends on it: some free page, else the next
        page of the file if the file may grow. */
    method Allocate() returns (ok: bool, page: nat)
      requires Valid()
      modifies `nPage, `pages, `free
      ensures Valid() && old(nPage) <= nPage
      ensures !ok ==> pages == old(pages) && free == old(free) && nPage == old(nPage)
      ensures ok <==> old(free) != {} || exists p: nat :: NextOrdinary(l, old(nPage), p) && p <= limit
      ensures ok ==> page !in old(pages) && 1 < page <= limit && free == old(free) - {page}
      ensures ok ==> page in pages && pages == old(pages)[page := pages[page]] && |pages[page]| == l.usable
    {
      if free != {} {
        page :| page in free;
        free := free - {page};
      } else {
        page := Next();
        OneNext(l, nPage, page);
        if page > limit {
          return false, 0;
        }
        nPage := page;
      }
      pages := pages[page := seq(l.usable, _ => 0)];
      ok := true;
    }

    /** No page is free, and the file has no room for another one. */
    ghost predicate Full()
      reads this
    {
      free == {} && forall p: nat :: NextOrdinary(l, nPage, p) ==> p > limit
    }

    /** The next ordinary page after the end of the file. */
    method Next() returns (page: nat)
      requires l.Valid() && nPage >= 1 && l.Ordinary(nPage)
      ensures NextOrdinary(l, nPage, page)
    {
      page := nPage + 1;
      if page == l.pending {
        page := page + 1;
      }
      if l.IsMap(page) {
        page := page + 1;
        if page == l.pending {
          page := page + 1;
        }
      }
      ExtendSkips(l, nPage, page);
    }

    // ---- writing -----------------------------------------------------------------------------------

    /** fillInCell(): the cell for a payload of src and nZero zeros, with its overflow pages. */
    method FillInCell(kind: CellKind, cell: array<byte>, key: nat, src: seq<byte>, nZero: nat)
      returns (ok: bool, size: nat, ghost chain: seq<nat>)
      requires Valid() && !kind.TableInterior? && key < TWO64 && |src| + nZero < 0x8000_0000
      requires var n := |src| + nZero;
        kind.ChildSize() + |Header(kind, key, n)| + LocalSize(kind, l.usable, n) + 4 <= cell.Length
      modifies this`nPage, this`pages, this`free, this`ptrmap, cell
      ensures Valid()
      ensures ok ==> Stored(kind, l.usable, cell[..], key, Content(src, nZero), pages, chain)
      ensures ok ==> size == Parsed(kind, l.usable, cell[..], 0).size
      ensures Grown(old(pages), pages, old(free), free, chain) && Mapped(old(ptrmap), ptrmap, chain)
      ensures !ok ==> LocalSize(kind, l.usable, |src| + nZero) < |src| + nZero && Full()
    {
      hide Mapped, Full, StartsAt, Parsed, Header, FileOk, Copy, Zeroed, LocalSize, MaxLocal, Content, Grown, ChainOk,
           RightLength;
      FileUsable(l, nPage, limit, pages, free, ptrmap);
      ContentSize(src, nZero);
      var nPayload := |src| + nZero;
      var nHeader := WriteHeader(kind, cell, key, nPayload);
      FitsOrNot(kind, l.usable, nPayload);
      if nPayload <= MaxLocal(kind, l.usable) {
        ghost var d := cell[..];
        FillLocal(cell, nHeader, src, nZero);
        HeaderKept(kind, l.usable, d, cell[..], key, Content(src, nZero), nHeader);
        size := nHeader + nPayload;
        if size < 4 {
          size := 4;
        }
        NoPages(pages, free);
        NothingMapped(ptrmap);
        ok, chain := true, [];
        return;
      }
      var n := SpillPoint(kind, nPayload);
      size := n + nHeader + 4;
      ghost var d := cell[..];
      ok, chain := FillSpill(cell, nHeader, n, src, nZero);
      HeaderKept(kind, l.usable, d, cell[..], key, Content(src, nZero), nHeader);
    }

    /** How much of a payload that does not fit goes into the cell. */
    method SpillPoint(kind: CellKind, nPayload: nat) returns (n: nat)
      requires l.Valid() && nPayload > MaxLocal(kind, l.usable)
      ensures n == LocalSize(kind, l.usable, nPayload)
    {
      LimitsOrdered(kind, l.usable);
      var mn := MinLocal(l.usable);
      n := mn + (nPayload - mn) % (l.usable - 4);
      if n > MaxLocal(kind, l.usable) {
        n := mn;
      }
    }

    /** The header of the cell; the child pointer is left to the caller. */
    method WriteHeader(kind: CellKind, cell: array<byte>, key: nat, n: nat) returns (nHeader: nat)
      requires kind.ChildSize() + |Header(kind, key, n)| <= cell.Length && key < TWO64 && n < TWO64
      modifies cell
      ensures nHeader == kind.ChildSize() + |Header(kind, key, n)|
      ensures StartsAt(cell[..], kind.ChildSize(), Header(kind, key, n))
    {
      hide Varint, StartsAt;
      var h := kind.ChildSize();
      ghost var d := cell[..];
      var k := PutVarint(cell, h, n);
      CopyStarts(d, h, Varint(n), 0, k);
      assert Varint(n)[0 .. k] == Varint(n);
      nHeader := h + k;
      if kind.TableLeaf? {
        ghost var e := cell[..];
        var k2 := PutVarint(cell, nHeader, key);
        CopyStarts(e, nHeader, Varint(key), 0, k2);
        assert Varint(key)[0 .. k2] == Varint(key);
        StartsKept(e, cell[..], h, Varint(n));
        StartsJoin(cell[..], h, Varint(n), Varint(key));
        nHeader := nHeader + k2;
      }
    }

    /** A payload that fits in the cell. */
    method FillLocal(cell: array<byte>, h: nat, src: seq<byte>, nZero: nat)
      requires h + |src| + nZero <= cell.Length
      modifies cell
      ensures StartsAt(cell[..], h, Content(src, nZero)) && cell[..h] == old(cell[..h])
    {
      hide StartsAt;
      WriteCopy(cell, h, src, 0, |src|);
      WriteZero(cell, h + |src|, nZero);
      StartsHere(cell[..], h, Content(src, nZero));
    }

    method FillSpill(cell: array<byte>, h: nat, local: nat, src: seq<byte>, nZero: nat) returns (ok: bool,
        ghost chain: seq<nat>)
      requires Valid() && h + local + 4 <= cell.Length && 0 < local < |src| + nZero
      modifies this`nPage, this`pages, this`free, this`ptrmap, cell
      ensures Valid()
      ensures cell[..h] == old(cell[..h])
      ensures ok ==>
        StartsAt(cell[..], h, Content(src, nZero)[..local]) && chain != [] && Get4(cell[..], h + local) == chain[0]
      ensures ok ==> ChainOk(pages, chain, Content(src, nZero), local, l.usable - 4, |src| + nZero)
      ensures ok ==> RightLength(chain, |src| + nZero, local, l.usable - 4)
      ensures Grown(old(pages), pages, old(free), free, chain) && Mapped(old(ptrmap), ptrmap, chain)
      ensures !ok ==> Full()
    {
      hide Mapped, Full, NextOrdinary, FileOk, Filling, StartsAt, ChainOk, Grown, Edge, RightLength, Content, PlaceOk;
      FileUsable(l, nPage, limit, pages, free, ptrmap);
      ContentSize(src, nZero);
      ghost var payload, o := Content(src, nZero), l.usable - 4;
      ghost var w := 0;
      var nPayload: nat, nSrc: int, spaceLeft: nat := |src| + nZero, |src|, local;
      var cur: nat, at: nat, from: nat := 0, h, 0;
      chain := [];
      FillStart(pages, free, cell[..], h, payload, local, o);
      NothingMapped(ptrmap);
      while true
        invariant Valid() && o == l.usable - 4 && payload == Content(src, nZero) && h + local + 4 <= cell.Length
        invariant nPayload == |payload| - w > 0 && nSrc == |src| - w && from == w
        invariant Filling(old(pages), pages, old(free), free, cell[..], h, payload, local, o, w, chain)
        invariant spaceLeft > 0 && PlaceOk(h, local, o, w, chain, cur, at, spaceLeft)
        invariant cell[..h] == old(cell[..h]) && Mapped(old(ptrmap), ptrmap, chain)
        decreases nPayload
      {
        var n := nPayload;
        if n > spaceLeft {
          n := spaceLeft;
        }
        if nSrc < n && nSrc > 0 {
          n := nSrc;
        }
        PutBytes(cell, cur, at, src, from, n, nZero, h, local, spaceLeft, chain, old(pages), old(free));
        w := w + n;
        nPayload := nPayload - n;
        if nPayload <= 0 {
          ok := true;
          FillDone(old(pages), pages, old(free), free, cell[..], h, payload, local, o, w - n, n, chain, cur, at,
                   spaceLeft);
          return;
        }
        at, from, nSrc, spaceLeft := at + n, from + n, nSrc - n, spaceLeft - n;
        if spaceLeft == 0 {
          var page;
          FillingGrown(old(pages), pages, old(free), free, cell[..], h, payload, local, o, w, chain);
          ghost var pm := ptrmap;
          ok, page := AddOverflow(cell, cur, at, h, local, payload, w, chain, old(pages), old(free));
          if !ok {
            return;
          }
          PlaceIs(h, local, o, w, chain, cur, at, 0);
          MappedMore(old(ptrmap), pm, ptrmap, chain, cur, page);
          chain := chain + [page];
          cur, at, spaceLeft := page, 4, l.usable - 4;
        }
      }
    }

    /** One memcpy() or memset(): n bytes of the payload, which do not straddle the end of src. */
    method PutBytes(cell: array<byte>, cur: nat, at: nat, src: seq<byte>, from: nat, n: nat, nZero: nat,
                    h: nat, local: nat, space: nat, ghost chain: seq<nat>, ghost pages0: Contents,
                    ghost free0: set<nat>)
      requires Valid() && l.usable > 4
      requires Filling(pages0, pages, free0, free, cell[..], h, Content(src, nZero), local, l.usable - 4, from, chain)
      requires PlaceOk(h, local, l.usable - 4, from, chain, cur, at, space) && n <= space && from + n <= |src| + nZero
      requires from + n <= |src| || from >= |src|
      modifies this`pages, cell
      ensures Valid() && cell[..h] == old(cell[..h])
      ensures Filling(pages0, pages, free0, free, cell[..], h, Content(src, nZero), local, l.usable - 4, from + n,
                      chain)
      ensures PlaceOk(h, local, l.usable - 4, from + n, chain, cur, at + n, space - n)
    {
      hide StartsAt, OverflowKnown, ChainOk, Grown;
      ghost var payload, o := Content(src, nZero), l.usable - 4;
      ghost var d, m := cell[..], pages;
      if cur == 0 {
        if from + n <= |src| {
          WriteCopy(cell, at, src, from, n);
        } else {
          WriteZero(cell, at, n);
        }
        FillCell(m, cell[..], d, h, payload, local, o, from, n, chain, pages0, free0, free);
      } else {
        LastPage(m, payload, local, o, from, chain, at, n);
        if from + n <= |src| {
          pages := pages[cur := Copy(pages[cur], at, src, from, n)];
        } else {
          pages := pages[cur := Zeroed(pages[cur], at, n)];
        }
        assert pages[cur] == Copy(m[cur], at, payload, from, n);
        ChainWrite(m, chain, payload, local, o, from, n);
        FillPage(m, pages, cell[..], h, payload, local, o, from, n, chain, pages0, free0, free);
        DataKept(m, ptrmap, cur, at, payload, from, n);
      }
    }

    /** An overflow page is allocated, entered in the pointer map, and linked to the page before it or
        to the cell. */
    method AddOverflow(cell: array<byte>, prev: nat, at: nat, h: nat, local: nat, ghost payload: seq<byte>,
                       ghost w: nat, ghost chain: seq<nat>, ghost pages0: Contents,
                       ghost free0: set<nat>) returns (ok: bool, page: nat)
      requires Valid() && l.usable > 4 && w < |payload|
      requires Filling(pages0, pages, free0, free, cell[..], h, payload, local, l.usable - 4, w, chain)
      requires PlaceOk(h, local, l.usable - 4, w, chain, prev, at, 0)
      modifies this`nPage, this`pages, this`free, this`ptrmap, cell
      ensures Valid() && cell[..h] == old(cell[..h])
      ensures ok ==> Filling(pages0, pages, free0, free, cell[..], h, payload, local, l.usable - 4, w, chain + [page])
      ensures ok ==> PlaceOk(h, local, l.usable - 4, w, chain + [page], page, 4, l.usable - 4)
      ensures ok ==> page !in chain && ptrmap == old(ptrmap)[page := Link(prev)]
      ensures !ok ==> Full() && pages == old(pages) && free == old(free) && ptrmap == old(ptrmap)
    {
      hide NextOrdinary, FileOk, Filling, PlaceOk, Get4, OverflowKnown;
      ghost var o, m, f := l.usable - 4, pages, free;
      PriorPage(m, payload, local, o, w, chain, prev, at, pages0, free0, f, cell[..], h);
      Bounded(l, nPage, limit, pages, free, ptrmap);
      FileUsable(l, nPage, limit, pages, free, ptrmap);
      ok, page := Allocate();
      if !ok {
        return;
      }
      Bounded(l, nPage, limit, pages, free, ptrmap);
      ghost var m1, pm, content, d := pages, ptrmap, pages[page], cell[..];
      if prev == 0 {
        ptrmap := ptrmap[page := PageGraph.Entry(PageGraph.Overflow1, 0)];
        WriteFour(cell, h + local, page);
      } else {
        ptrmap := ptrmap[page := PageGraph.Entry(PageGraph.Overflow2, prev)];
        pages := pages[prev := Put4(pages[prev], 0, page)];
      }
      pages := pages[page := Put4(pages[page], 0, 0)];
      FileLinked(l, nPage, limit, m, m1, pages, free, pm, ptrmap, prev, page);
      FreshPage(m, f, free0, d, h, payload, local, o, w, chain, pages0, page);
      FillGrow(m, pages, f, free, pages0, free0, d, cell[..], h, payload, local, o, w, chain, prev, at, page, content);
    }

    // ---- following and freeing a chain -----------------------------------------------------------

    /** getOverflowPage(): the page after page ovfl. If the pointer map says that the next ordinary
        page is it, page ovfl is not read. */
    method GetOverflowPage(ovfl: nat) returns (next: nat)
      requires l.Valid() && ovfl in pages && |pages[ovfl]| >= 4 && l.Ordinary(ovfl) && LinksKnown(pages, ptrmap)
      ensures next == Get4(pages[ovfl], 0)
    {
      var guess := Following(ovfl);
      if guess <= nPage {
        if guess in ptrmap && ptrmap[guess].kind.Overflow2? && ptrmap[guess].parent == ovfl {
          return guess;
        }
      }
      next := Get4(pages[ovfl], 0);
    }

    /** The next page that is no pointer-map page and not the pending-byte page. */
    method Following(p: nat) returns (q: nat)
      requires l.Valid() && l.Ordinary(p)
      ensures NextOrdinary(l, p, q)
    {
      ghost var m := NextExists(l, p);
      q := p + 1;
      while l.IsMap(q) || q == l.pending
        invariant p < q <= m && l.Count(q - 1) == l.Count(p)
        decreases m - q
      {
        SkippedRoot(l, p, q, m);
        q := q + 1;
      }
      CountStep(l, q);
    }

    /** freePage2(), as far as this model goes. */
    method ReleasePage(p: nat)
      requires p in pages
      modifies `pages, `free, `ptrmap
      ensures pages == old(pages) - {p} && free == old(free) + {p}
      ensures ptrmap == old(ptrmap)[p := PageGraph.Entry(PageGraph.FreePage, 0)]
    {
      pages := pages - {p};
      free := free + {p};
      ptrmap := ptrmap[p := PageGraph.Entry(PageGraph.FreePage, 0)];
    }

    /** clearCell(): the overflow pages of the cell, and no others, become free. */
    method ClearCell(kind: CellKind, cell: seq<byte>, ghost key: nat, ghost payload: seq<byte>, ghost chain: seq<nat>)
      requires Valid() && !kind.TableInterior? && key < TWO64 && |payload| < 0x8000_0000
      requires Stored(kind, l.usable, cell, key, payload, pages, chain)
      modifies `pages, `free, `ptrmap
      ensures Valid() && pages == old(pages) - Members(chain) && free == old(free) + Members(chain)
      ensures Unmapped(old(ptrmap), ptrmap, chain)
    {
      hide FileOk, CellHolds, ChainOk, RightLength, Parsed, LocalSize, LinksKnown, OverflowKnown;
      FileUsable(l, nPage, limit, pages, free, ptrmap);
      ParsesStored(kind, l.usable, cell, key, payload, chain);
      var info := ParseCell(kind, l.usable, cell, 0);
      if info.local == info.payload {
        NoMembers(pages, free);
        return;
      }
      if info.size > |cell| {
        assert false;  // SQLITE_CORRUPT
      }
      var ovflPgno := Get4(cell, info.size - 4);
      var ovflSize := l.usable - 4;
      PagesNeeded(chain, |payload|, info.local, ovflSize);
      var nOvfl := (info.payload - info.local + ovflSize - 1) / ovflSize;
      FreeChain(ovflPgno, nOvfl, payload, info.local, chain);
    }

    /** Clearing a cell frees exactly the pages that filling it took, and leaves the others as they were. */
    method FillThenClear(kind: CellKind, cell: array<byte>, key: nat, src: seq<byte>, nZero: nat) returns (ok: bool,
        ghost chain: seq<nat>)
      requires Valid() && !kind.TableInterior? && key < TWO64 && |src| + nZero < 0x8000_0000
      requires var n := |src| + nZero;
        kind.ChildSize() + |Header(kind, key, n)| + LocalSize(kind, l.usable, n) + 4 <= cell.Length
      modifies this`nPage, this`pages, this`free, this`ptrmap, cell
      ensures Valid() && (ok ==> pages == old(pages) && free == old(free) + Members(chain))
    {
      hide FileOk, Stored, Grown, Header, LocalSize, Parsed, Content;
      ghost var pages0, free0 := pages, free;
      var size;
      ok, size, chain := FillInCell(kind, cell, key, src, nZero);
      if ok {
        GrownBack(pages0, pages, free0, free, chain);
        ContentSize(src, nZero);
        ClearCell(kind, cell[..], key, Content(src, nZero), chain);
      }
    }

    /** The loop of clearCell(). */
    method FreeChain(first: nat, count: nat, ghost payload: seq<byte>, ghost local: nat, ghost chain: seq<nat>)
      requires Valid() && l.usable > 4 && ChainOk(pages, chain, payload, local, l.usable - 4, |payload|)
      requires count == |chain| > 0 && first == chain[0]
      modifies `pages, `free, `ptrmap
      ensures Valid() && pages == old(pages) - Members(chain) && free == old(free) + Members(chain)
      ensures Unmapped(old(ptrmap), ptrmap, chain)
    {
      hide Unmapped, FileOk, ChainOk, LinksKnown, Get4;
      ghost var pages0, free0, pm0 := pages, free, ptrmap;
      FileUsable(l, nPage, limit, pages, free, ptrmap);
      var ovflPgno, nOvfl := first, count;
      ghost var i := 0;
      ClearStart(pages, free, ptrmap, chain);
      NothingUnmapped(ptrmap);
      while nOvfl != 0
        invariant i + nOvfl == |chain| && (i < |chain| ==> ovflPgno == chain[i])
        invariant Clearing(pages0, free0, pm0, pages, free, ptrmap, chain, i) && Unmapped(pm0, ptrmap, chain[..i])
      {
        nOvfl := nOvfl - 1;
        ClearNext(l, nPage, limit, pages0, free0, pm0, pages, free, ptrmap, chain, i, payload, local);
        if ovflPgno < 2 || ovflPgno > nPage {
          assert false;  // SQLITE_CORRUPT
        }
        var next := 0;
        if nOvfl != 0 {
          next := GetOverflowPage(ovflPgno);
        }
        ghost var m, f, pm := pages, free, ptrmap;
        ReleasePage(ovflPgno);
        ClearOne(pages0, free0, pm0, m, f, pm, chain, i, pages, free, ptrmap);
        UnmappedMore(pm0, pm, ptrmap, chain, i);
        ovflPgno := next;
        i := i + 1;
      }
      assert chain[..i] == chain;
      ClearDone(l, nPage, limit, pages0, free0, pm0, pages, free, ptrmap, chain, payload, local);
    }
  }

  /** Entries of overflow pages whose predecessor is in use agree with it. */
  ghost predicate LinksKnown(pages: Contents, pm: PageGraph.PointerMap) {
    forall t <- pm :: t > 0 && pm[t].kind.Overflow2? && pm[t].parent in pages && |pages[pm[t].parent]| >= 4 ==>
      Get4(pages[pm[t].parent], 0) == t
  }

  /** The entry of an overflow page: the first of a chain, or the one after page prev. */
  function Link(prev: nat): PageGraph.Entry {
    PageGraph.Entry(if prev == 0 then PageGraph.Overflow1 else PageGraph.Overflow2, prev)
  }

  ghost predicate MappedAt(pm: PageGraph.PointerMap, chain: seq<nat>, k: nat)
    requires k < |chain|
  {
    chain[k] in pm && pm[chain[k]] == Link(if k == 0 then 0 else chain[k - 1])
  }

  /** The pointer map names for each page of the chain the page before it, and has else not changed. */
  ghost predicate Mapped(pm0: PageGraph.PointerMap, pm: PageGraph.PointerMap, chain: seq<nat>) {
    && (forall k: nat :: k < |chain| ==> MappedAt(pm, chain, k))
    && forall t :: t !in chain ==> SameEntry(pm0, pm, t)
  }

  predicate SameEntry(pm0: PageGraph.PointerMap, pm: PageGraph.PointerMap, t: nat) {
    (t in pm <==> t in pm0) && (t in pm0 ==> pm[t] == pm0[t])
  }

  lemma NothingMapped(pm: PageGraph.PointerMap)
    ensures Mapped(pm, pm, [])
  {
  }

  lemma MappedMore(pm0: PageGraph.PointerMap, pm: PageGraph.PointerMap, pm': PageGraph.PointerMap, chain: seq<nat>,
                   prev: nat, p: nat)
    requires Mapped(pm0, pm, chain) && p !in chain && pm' == pm[p := Link(prev)]
    requires prev == if chain == [] then 0 else chain[|chain| - 1]
    ensures Mapped(pm0, pm', chain + [p])
  {
    var c := chain + [p];
    forall k: nat | k < |c|
      ensures MappedAt(pm', c, k)
    {
      if k < |chain| {
        assert MappedAt(pm, chain, k) && chain[k] in chain;
      }
    }
    forall t | t !in c
      ensures SameEntry(pm0, pm', t)
    {
      assert p in c;
      assert forall x :: x in chain ==> x in c;
      assert SameEntry(pm0, pm, t);
    }
  }

  /** Each page of the chain is marked as free, and the pointer map has else not changed. */
  ghost predicate Unmapped(pm0: PageGraph.PointerMap, pm: PageGraph.PointerMap, chain: seq<nat>) {
    && (forall p <- chain :: p in pm && pm[p] == PageGraph.Entry(PageGraph.FreePage, 0))
    && forall t :: t !in chain ==> SameEntry(pm0, pm, t)
  }

  lemma NothingUnmapped(pm: PageGraph.PointerMap)
    ensures Unmapped(pm, pm, [])
  {
  }

  lemma UnmappedMore(pm0: PageGraph.PointerMap, pm: PageGraph.PointerMap, pm': PageGraph.PointerMap, chain: seq<nat>,
                     i: nat)
    requires i < |chain| && Unmapped(pm0, pm, chain[..i])
    requires pm' == pm[chain[i] := PageGraph.Entry(PageGraph.FreePage, 0)]
    ensures Unmapped(pm0, pm', chain[..i + 1])
  {
    assert chain[..i + 1] == chain[..i] + [chain[i]];
    forall t | t !in chain[..i + 1]
      ensures SameEntry(pm0, pm', t)
    {
      assert t !in chain[..i] && chain[i] in chain[..i + 1];
      assert SameEntry(pm0, pm, t);
    }
  }

  function Members(chain: seq<nat>): set<nat> {
    set p | p in chain
  }

  lemma NoMembers(pages: Contents, free: set<nat>)
    ensures pages - Members([]) == pages && free + Members([]) == free
  {
  }

  /** The first i pages of the chain have been freed. */
  ghost predicate Clearing(pages0: Contents, free0: set<nat>, pm0: PageGraph.PointerMap, pages: Contents,
                           free: set<nat>, pm: PageGraph.PointerMap, chain: seq<nat>, i: nat)
  {
    && i <= |chain| && pages == pages0 - Members(chain[..i]) && free == free0 + Members(chain[..i])
    && forall t <- pm :: if t in chain[..i] then pm[t].kind.FreePage? else t in pm0 && pm[t] == pm0[t]
  }

  lemma ClearStart(pages: Contents, free: set<nat>, pm: PageGraph.PointerMap, chain: seq<nat>)
    ensures Clearing(pages, free, pm, pages, free, pm, chain, 0)
  {
  }

  lemma LinkAt(pages: Contents, chain: seq<nat>, payload: seq<byte>, local: nat, o: nat, w: nat, k: nat)
    requires ChainOk(pages, chain, payload, local, o, w) && k < |chain|
    ensures chain[k] in pages && chain[k] > 1 && |pages[chain[k]]| == o + 4
    ensures Get4(pages[chain[k]], 0) == NextOf(chain, k)
    ensures Distinct(chain)
  {
    assert LinkOk(pages, chain, payload, local, o, w, k) && chain[k] in chain;
  }

  /** The page about to be freed is as it was. */
  lemma ClearNext(l: Layout, nPage: nat, limit: nat, pages0: Contents, free0: set<nat>, pm0: PageGraph.PointerMap,
                  pages: Contents, free: set<nat>, pm: PageGraph.PointerMap, chain: seq<nat>, i: nat,
                  payload: seq<byte>, local: nat)
    requires FileOk(l, nPage, limit, pages0, free0, pm0) && l.usable > 4
    requires ChainOk(pages0, chain, payload, local, l.usable - 4, |payload|) && i < |chain|
    requires Clearing(pages0, free0, pm0, pages, free, pm, chain, i)
    ensures chain[i] in pages && 1 < chain[i] <= nPage && l.Ordinary(chain[i]) && |pages[chain[i]]| >= 4
    ensures Get4(pages[chain[i]], 0) == NextOf(chain, i) && LinksKnown(pages, pm)
  {
    hide ChainOk, Get4;
    LinkAt(pages0, chain, payload, local, l.usable - 4, |payload|, i);
    assert chain[i] !in chain[..i];
    assert forall p <- pages :: p in pages0 && pages[p] == pages0[p];
  }

  lemma ClearOne(pages0: Contents, free0: set<nat>, pm0: PageGraph.PointerMap, m: Contents, f: set<nat>,
                 pm1: PageGraph.PointerMap, chain: seq<nat>, i: nat, pages: Contents, free: set<nat>,
                 pm: PageGraph.PointerMap)
    requires Clearing(pages0, free0, pm0, m, f, pm1, chain, i) && i < |chain|
    requires pages == m - {chain[i]} && free == f + {chain[i]}
    requires pm == pm1[chain[i] := PageGraph.Entry(PageGraph.FreePage, 0)]
    ensures Clearing(pages0, free0, pm0, pages, free, pm, chain, i + 1)
  {
    assert chain[..i + 1] == chain[..i] + [chain[i]];
    assert Members(chain[..i + 1]) == Members(chain[..i]) + {chain[i]};
  }

  lemma ClearDone(l: Layout, nPage: nat, limit: nat, pages0: Contents, free0: set<nat>, pm0: PageGraph.PointerMap,
                  pages: Contents, free: set<nat>, pm: PageGraph.PointerMap, chain: seq<nat>, payload: seq<byte>,
                  local: nat)
    requires FileOk(l, nPage, limit, pages0, free0, pm0) && l.usable > 4
    requires ChainOk(pages0, chain, payload, local, l.usable - 4, |payload|)
    requires Clearing(pages0, free0, pm0, pages, free, pm, chain, |chain|)
    ensures FileOk(l, nPage, limit, pages, free, pm)
    ensures pages == pages0 - Members(chain) && free == free0 + Members(chain)
  {
    hide ChainOk, Get4;
    assert chain[..|chain|] == chain;
    forall p | p in chain
      ensures p in pages0 && 1 < p
    {
      var k: nat :| k < |chain| && chain[k] == p;
      LinkAt(pages0, chain, payload, local, l.usable - 4, |payload|, k);
    }
    forall t | t in pm && t > 0 && pm[t].kind.Overflow2?
      ensures pm[t].parent in pages && |pages[pm[t].parent]| >= 4 && Get4(pages[pm[t].parent], 0) == t
    {
      ParentKept(pages0, chain, payload, local, l.usable - 4, pm[t].parent, t);
    }
  }

  /** The page before one that is not in the chain is not in the chain. */
  lemma ParentKept(pages: Contents, chain: seq<nat>, payload: seq<byte>, local: nat, o: nat, p: nat, t: nat)
    requires ChainOk(pages, chain, payload, local, o, |payload|) && p in pages && |pages[p]| >= 4
    requires Get4(pages[p], 0) == t
    requires t > 0 && t !in chain
    ensures p !in chain
  {
    hide ChainOk, Get4;
    forall k: nat | k < |chain|
      ensures chain[k] != p
    {
      LinkAt(pages, chain, payload, local, o, |payload|, k);
      assert NextOf(chain, k) == 0 || NextOf(chain, k) in chain;
    }
  }

  /** The cell is parsed for what it holds. */
  lemma ParsesStored(kind: CellKind, usable: nat, cell: seq<byte>, key: nat, payload: seq<byte>, chain: seq<nat>)
    requires Usable(usable) && !kind.TableInterior? && key < TWO64 && |payload| < 0x8000_0000
    requires CellHolds(kind, usable, cell, key, payload, chain)
    ensures var i := Parsed(kind, usable, cell, 0);
      (&& i.payload == |payload| && i.local == LocalSize(kind, usable, |payload|) && i.at <= |cell|
       && i.at + i.local <= |cell| && cell[i.at .. i.at + i.local] == payload[..i.local]
       && i.at == kind.ChildSize() + |Header(kind, key, |payload|)|
       && (i.local < i.payload ==> i.size == i.at + i.local + 4 <= |cell|)
       && (i.local < i.payload ==> chain != [] && Get4(cell, i.at + i.local) == chain[0])
       && (i.local == i.payload ==> chain == []))
  {
    hide LocalSize, Header, Parsed;
    ParsesBack(kind, usable, key, |payload|, cell, 0);
    SizeIs(kind, usable, cell);
  }

  /** The page before the one to be added: the last of the chain, which is full, or the cell. */
  lemma PriorPage(pages: Contents, payload: seq<byte>, local: nat, o: nat, w: nat, chain: seq<nat>, prev: nat, at: nat,
                  pages0: Contents, free0: set<nat>, free: set<nat>, cell: seq<byte>, h: nat)
    requires Filling(pages0, pages, free0, free, cell, h, payload, local, o, w, chain)
    requires PlaceOk(h, local, o, w, chain, prev, at, 0)
    ensures h + local + 4 <= |cell| && (prev == 0 <==> chain == [])
    ensures prev != 0 ==> prev in pages && |pages[prev]| == o + 4 && Get4(pages[prev], 0) == 0
  {
    if chain != [] {
      LastPage(pages, payload, local, o, w, chain, at, 0);
    }
  }

  lemma Bounded(l: Layout, nPage: nat, limit: nat, pages: Contents, free: set<nat>, pm: PageGraph.PointerMap)
    requires FileOk(l, nPage, limit, pages, free, pm)
    ensures limit < 0x1_0000_0000 && OverflowKnown(pages, pm) && forall p <- pages :: |pages[p]| == l.usable
  {
  }

  /** The file with page q linked to page prev, or to a cell. */
  lemma FileLinked(l: Layout, nPage: nat, limit: nat, m: Contents, m1: Contents, pages: Contents, free: set<nat>,
                   pm: PageGraph.PointerMap, pm': PageGraph.PointerMap, prev: nat, q: nat)
    requires FileOk(l, nPage, limit, m1, free, pm) && q !in m && q > 1 && q in m1 && m1 == m[q := m1[q]] && prev != q
    requires OverflowKnown(m, pm)
    requires prev != 0 ==> prev in m && Get4(if |m[prev]| >= 4 then m[prev] else [0, 0, 0, 0], 0) == 0
    requires |m1[q]| == l.usable && (prev != 0 ==> |m1[prev]| == l.usable)
    requires pm' == pm[q := if prev == 0 then PageGraph.Entry(PageGraph.Overflow1, 0)
                            else PageGraph.Entry(PageGraph.Overflow2, prev)]
    requires l.Valid() && q < 0x1_0000_0000
    requires pages == (if prev == 0 then m1 else m1[prev := Put4(m1[prev], 0, q)])[q := Put4(m1[q], 0, 0)]
    ensures FileOk(l, nPage, limit, pages, free, pm')
  {
    if prev != 0 {
      Get4Put4(m1[prev], 0, q);
    }
    assert prev != 0 ==> m1[prev] == m[prev];
    forall t | t in pm' && t > 0 && pm'[t].kind.Overflow2?
      ensures pm'[t].parent in pages && |pages[pm'[t].parent]| >= 4 && Get4(pages[pm'[t].parent], 0) == t
    {
    }
  }

  lemma FreshPage(m: Contents, f: set<nat>, free0: set<nat>, d: seq<byte>, h: nat, payload: seq<byte>, local: nat,
                  o: nat, w: nat, chain: seq<nat>, pages0: Contents, q: nat)
    requires Filling(pages0, m, free0, f, d, h, payload, local, o, w, chain) && q !in m
    ensures q !in chain
  {
    NotInChain(m, payload, local, o, w, chain, q);
  }

  lemma FillingGrown(pages0: Contents, pages: Contents, free0: set<nat>, free: set<nat>, cell: seq<byte>, h: nat,
                     payload: seq<byte>, local: nat, o: nat, w: nat, chain: seq<nat>)
    requires Filling(pages0, pages, free0, free, cell, h, payload, local, o, w, chain)
    ensures Grown(pages0, pages, free0, free, chain)
  {
  }

  lemma PlaceIs(h: nat, local: nat, o: nat, w: nat, chain: seq<nat>, cur: nat, at: nat, space: nat)
    requires PlaceOk(h, local, o, w, chain, cur, at, space)
    ensures cur == if chain == [] then 0 else chain[|chain| - 1]
  {
  }

  lemma OneNext(l: Layout, n: nat, p: nat)
    requires l.Valid() && NextOrdinary(l, n, p)
    ensures forall q: nat :: NextOrdinary(l, n, q) ==> q == p
  {
    hide Layout.Count, Layout.Ordinary;
    forall q: nat | NextOrdinary(l, n, q)
      ensures q == p
    {
      PtrMap.SameCount(l, p, q);
    }
  }

  lemma FillGrow(m: Contents, pages: Contents, f: set<nat>, free: set<nat>, pages0: Contents, free0: set<nat>,
                 d: seq<byte>, cell: seq<byte>, h: nat, payload: seq<byte>, local: nat, o: nat, w: nat, chain: seq<nat>,
                 prev: nat, at: nat, q: nat, content: seq<byte>)
    requires Filling(pages0, m, free0, f, d, h, payload, local, o, w, chain) && w < |payload|
    requires PlaceOk(h, local, o, w, chain, prev, at, 0)
    requires q !in m && 1 < q < 0x1_0000_0000 && |content| == o + 4 && free == f - {q}
    requires prev != 0 ==> prev in m && |m[prev]| == o + 4
    requires pages == (if prev == 0 then m else m[prev := Put4(m[prev], 0, q)])[q := Put4(content, 0, 0)]
    requires cell == if prev == 0 then Put4(d, h + local, q) else d
    ensures Filling(pages0, pages, free0, free, cell, h, payload, local, o, w, chain + [q])
    ensures PlaceOk(h, local, o, w, chain + [q], q, 4, o)
  {
    hide StartsAt, Get4;
    EdgeStep(local, o, |chain|);
    NotInChain(m, payload, local, o, w, chain, q);
    ChainGrow(m, chain, payload, local, o, w, q, content);
    GrownMore(pages0, m, pages, free0, f, chain, prev, q);
    if prev == 0 {
      Get4Put4(d, h + local, q);
      StartsKept(d, cell, h, payload[..local]);
    }
  }

  lemma NotInChain(pages: Contents, payload: seq<byte>, local: nat, o: nat, w: nat, chain: seq<nat>, q: nat)
    requires ChainOk(pages, chain, payload, local, o, w) && q !in pages
    ensures q !in chain
    ensures chain != [] ==> chain[|chain| - 1] in pages && |pages[chain[|chain| - 1]]| == o + 4
  {
    forall k: nat | k < |chain|
      ensures chain[k] in pages && |pages[chain[k]]| == o + 4
    {
      assert LinkOk(pages, chain, payload, local, o, w, k);
    }
  }

  lemma GrownMore(pages0: Contents, m: Contents, pages: Contents, free0: set<nat>, f: set<nat>, chain: seq<nat>,
                  prev: nat, q: nat)
    requires Grown(pages0, m, free0, f, chain) && q !in m && (prev == 0 || prev in chain)
    requires pages.Keys == m.Keys + {q} && forall p <- m :: prev == 0 || p != prev ==> pages[p] == m[p]
    ensures Grown(pages0, pages, free0, f - {q}, chain + [q])
  {
    assert forall p <- pages :: p in m || p == q;
    assert forall p <- m :: p in pages;
    assert q in pages && (prev == 0 || prev !in pages0);
    assert forall p <- chain + [q] :: p in chain || p == q;
    assert (set p | p in chain + [q]) == (set p | p in chain) + {q};
  }

  lemma FillStart(pages: Contents, free: set<nat>, cell: seq<byte>, h: nat, payload: seq<byte>, local: nat, o: nat)
    requires o > 0 && 0 < local < |payload| && h + local + 4 <= |cell|
    ensures Filling(pages, pages, free, free, cell, h, payload, local, o, 0, [])
    ensures PlaceOk(h, local, o, 0, [], 0, h, local)
  {
  }

  /** Bytes written to the cell. */
  lemma FillCell(pages: Contents, cell: seq<byte>, d: seq<byte>, h: nat, payload: seq<byte>, local: nat, o: nat, w: nat,
                 n: nat, chain: seq<nat>, pages0: Contents, free0: set<nat>, free: set<nat>)
    requires Filling(pages0, pages, free0, free, d, h, payload, local, o, w, chain) && chain == []
    requires w + n <= local && cell == Copy(d, h + w, payload, w, n)
    ensures Filling(pages0, pages, free0, free, cell, h, payload, local, o, w + n, chain)
  {
    hide StartsAt;
    StartsKept(d, cell, h, payload[..w]);
    CopyStarts(d, h + w, payload, w, n);
    StartsJoin(cell, h, payload[..w], payload[w .. w + n]);
    assert payload[..w] + payload[w .. w + n] == payload[..w + n];
    NoChain(pages, payload, local, o, w + n);
  }

  lemma NoChain(pages: Contents, payload: seq<byte>, local: nat, o: nat, w: nat)
    ensures ChainOk(pages, [], payload, local, o, w)
  {
  }

  /** The last page of the chain has room. */
  lemma LastPage(pages: Contents, payload: seq<byte>, local: nat, o: nat, w: nat, chain: seq<nat>, at: nat, n: nat)
    requires ChainOk(pages, chain, payload, local, o, w) && chain != []
    requires Edge(local, o, |chain| - 1) <= w && w + n <= Edge(local, o, |chain|)
    requires at == 4 + (w - Edge(local, o, |chain| - 1))
    ensures chain[|chain| - 1] in pages && |pages[chain[|chain| - 1]]| == o + 4 && at + n <= o + 4
    ensures Get4(pages[chain[|chain| - 1]], 0) == 0
  {
    assert LinkOk(pages, chain, payload, local, o, w, |chain| - 1);
    EdgeStep(local, o, |chain| - 1);
  }

  /** Bytes written to the last page. */
  lemma FillPage(m: Contents, pages: Contents, cell: seq<byte>, h: nat, payload: seq<byte>, local: nat, o: nat, w: nat,
                 n: nat, chain: seq<nat>, pages0: Contents, free0: set<nat>, free: set<nat>)
    requires Filling(pages0, m, free0, free, cell, h, payload, local, o, w, chain) && chain != [] && w + n <= |payload|
    requires ChainOk(pages, chain, payload, local, o, w + n)
    requires pages.Keys == m.Keys && forall p <- m :: p != chain[|chain| - 1] ==> pages[p] == m[p]
    ensures Filling(pages0, pages, free0, free, cell, h, payload, local, o, w + n, chain)
  {
    hide StartsAt, ChainOk;
    assert chain[|chain| - 1] in chain;
    assert forall p <- pages :: p in m;
    assert forall p <- m :: p in pages;
  }

  /** Data written past the link of a page does not concern the pointer map. */
  lemma DataKept(pages: Contents, pm: PageGraph.PointerMap, p: nat, at: nat, payload: seq<byte>, w: nat, n: nat)
    requires OverflowKnown(pages, pm) && p in pages && 4 <= at && at + n <= |pages[p]| && w + n <= |payload|
    ensures OverflowKnown(pages[p := Copy(pages[p], at, payload, w, n)], pm)
  {
    Get4Same(pages[p], Copy(pages[p], at, payload, w, n), 0);
  }

  lemma FillDone(pages0: Contents, pages: Contents, free0: set<nat>, free: set<nat>, cell: seq<byte>, h: nat,
                 payload: seq<byte>, local: nat, o: nat, w: nat, n: nat, chain: seq<nat>, cur: nat, at: nat, space: nat)
    requires Filling(pages0, pages, free0, free, cell, h, payload, local, o, w + n, chain)
    requires PlaceOk(h, local, o, w, chain, cur, at, space) && 0 < n <= space && w + n == |payload|
    ensures chain != [] && RightLength(chain, |payload|, local, o)
    ensures StartsAt(cell, h, payload[..local]) && Get4(cell, h + local) == chain[0]
    ensures ChainOk(pages, chain, payload, local, o, |payload|) && Grown(pages0, pages, free0, free, chain)
  {
    hide StartsAt, ChainOk, Edge;
  }

  /** The pages of the chain have been taken from the free pages or the end of the file, and nothing
      else has changed. */
  ghost predicate Grown(pages: Contents, pages': Contents, free: set<nat>, free': set<nat>, chain: seq<nat>) {
    && (forall p <- chain :: p !in pages && p in pages')
    && (forall p <- pages :: p in pages' && pages'[p] == pages[p])
    && (forall p <- pages' :: p in pages || p in chain)
    && free' == free - (set p | p in chain)
  }

  lemma GrownBack(pages: Contents, pages': Contents, free: set<nat>, free': set<nat>, chain: seq<nat>)
    requires Grown(pages, pages', free, free', chain)
    ensures pages' - Members(chain) == pages && free' + Members(chain) == free + Members(chain)
  {
  }

  lemma FileUsable(l: Layout, nPage: nat, limit: nat, pages: Contents, free: set<nat>, pm: PageGraph.PointerMap)
    requires FileOk(l, nPage, limit, pages, free, pm)
    ensures l.Valid() && Usable(l.usable)
  {
  }

  lemma ContentSize(src: seq<byte>, nZero: nat)
    ensures |Content(src, nZero)| == |src| + nZero
    ensures Content(src, nZero)[..|src| + nZero] == Content(src, nZero)
  {
  }

  lemma FitsOrNot(kind: CellKind, usable: nat, n: nat)
    requires Usable(usable)
    ensures if n <= MaxLocal(kind, usable) then LocalSize(kind, usable, n) == n else 0 < LocalSize(kind, usable, n) < n
  {
    LimitsOrdered(kind, usable);
  }

  lemma NoPages(pages: Contents, free: set<nat>)
    ensures Grown(pages, pages, free, free, [])
  {
  }

  lemma StartsHere(d: seq<byte>, p: nat, a: seq<byte>)
    requires p + |a| <= |d| && forall q: nat :: q < |a| ==> d[p + q] == a[q]
    ensures StartsAt(d, p, a)
  {
  }

  /** The header survives the writing of the payload, and is parsed. */
  lemma HeaderKept(kind: CellKind, usable: nat, d: seq<byte>, e: seq<byte>, key: nat, payload: seq<byte>, h: nat)
    requires Usable(usable) && !kind.TableInterior? && key < TWO64 && |payload| < 0x8000_0000
    requires StartsAt(d, kind.ChildSize(), Header(kind, key, |payload|)) && |e| == |d|
    requires h == kind.ChildSize() + |Header(kind, key, |payload|)| && h <= |d| && e[..h] == d[..h]
    ensures StartsAt(e, kind.ChildSize(), Header(kind, key, |payload|))
    ensures var local := LocalSize(kind, usable, |payload|);
      Parsed(kind, usable, e, 0).size == if local < |payload| then h + local + 4 else if h + |payload| < 4 then 4
        else h + |payload|
  {
    hide Parsed, LocalSize, Header;
    forall q: nat | q < h
      ensures e[q] == d[q]
    {
      assert e[..h][q] == d[..h][q];
    }
    StartsKept(d, e, kind.ChildSize(), Header(kind, key, |payload|));
    ParsesBack(kind, usable, key, |payload|, e, 0);
    SizeIs(kind, usable, e);
  }

  lemma SizeIs(kind: CellKind, usable: nat, d: seq<byte>)
    requires Usable(usable) && !kind.TableInterior?
    ensures var i := Parsed(kind, usable, d, 0);
      i.size == if i.local < i.payload then i.at + i.local + 4 else if i.at + i.payload < 4 then 4 else i.at + i.payload
  {
  }

  // ---- the state of the writing loop -----------------------------------------------------------------

  /** After w bytes: those of the first local ones are in the cell, the others on the chain. */
  ghost predicate Filling(pages0: Contents, pages: Contents, free0: set<nat>, free: set<nat>, cell: seq<byte>, h: nat,
                          payload: seq<byte>, local: nat, o: nat, w: nat, chain: seq<nat>)
  {
    && o > 0 && w <= |payload| && local < |payload|
    && Grown(pages0, pages, free0, free, chain) && ChainOk(pages, chain, payload, local, o, w)
    && h + local + 4 <= |cell| && StartsAt(cell, h, payload[..Min(w, local)])
    && (chain != [] ==> w >= local && Get4(cell, h + local) == chain[0])
  }

  /** Where the next byte goes: to the cell, or to the last page of the chain. */
  predicate PlaceOk(h: nat, local: nat, o: nat, w: nat, chain: seq<nat>, cur: nat, at: nat, space: nat) {
    if chain == [] then cur == 0 && at == h + w && w + space == local
    else
      var k := |chain|;
      cur == chain[k - 1] && cur > 1 && Edge(local, o, k - 1) <= w && w + space == Edge(local, o, k)
      && at == 4 + (w - Edge(local, o, k - 1))
  }
}
