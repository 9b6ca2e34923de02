/** Reading a payload through the cursor's lazily filled list of overflow pages. */
module PayloadCursors {
  import opened Bytes
  import opened Varints
  import opened CellFormat
  import opened OverflowChain
  import opened PayloadFiles
  import opened PtrMap
  import PageGraph

  /** aOverflow[]: zero where the page number is not known yet. */
  ghost predicate CacheOk(cache: seq<nat>, chain: seq<nat>) {
    |cache| == |chain| && forall k: nat :: k < |chain| ==> Known(cache, chain, k)
  }

  predicate Known(cache: seq<nat>, chain: seq<nat>, k: nat) {
    k < |cache| && k < |chain| && (cache[k] == 0 || cache[k] == chain[k])
  }

  /** A run of bytes within overflow page k. */
  lemma PageOf(pages: Contents, chain: seq<nat>, payload: seq<byte>, local: nat, o: nat, k: nat)
    requires ChainOk(pages, chain, payload, local, o, |payload|) && k < |chain|
    ensures chain[k] in pages && chain[k] > 1
    ensures PageHolds(pages[chain[k]], o + 4, NextOf(chain, k), Piece(payload, local, o, k, |payload|))
  {
    hide Piece, PageHolds;
    assert LinkOk(pages, chain, payload, local, o, |payload|, k) && chain[k] in chain;
  }

  lemma SliceOfSlice(s: seq<byte>, a: nat, b: nat, i: nat, n: nat)
    requires a <= b <= |s| && a + i + n <= b
    ensures s[a..b][i .. i + n] == s[a + i .. a + i + n]
  {
    var t, u, v := s[a..b], s[a..b][i .. i + n], s[a + i .. a + i + n];
    forall k: nat | k < n
      ensures u[k] == v[k]
    {
      assert u[k] == t[i + k];
    }
    assert u == v;
  }

  lemma SliceOfPiece(payload: seq<byte>, local: nat, o: nat, k: nat, offset: nat, n: nat)
    requires offset + n <= o && Edge(local, o, k) + offset + n <= |payload|
    ensures var piece, at := Piece(payload, local, o, k, |payload|), Edge(local, o, k) + offset;
      |piece| >= offset + n && piece[offset .. offset + n] == payload[at .. at + n]
  {
    hide Edge;
    EdgeStep(local, o, k);
    var lo, hi := Edge(local, o, k), Min(Edge(local, o, k + 1), |payload|);
    SliceOfSlice(payload, lo, hi, offset, n);
  }

  lemma PieceSlice(pages: Contents, chain: seq<nat>, payload: seq<byte>, local: nat, o: nat, k: nat, offset: nat,
                   n: nat)
    requires ChainOk(pages, chain, payload, local, o, |payload|) && k < |chain| && offset + n <= o
    requires Edge(local, o, k) + offset + n <= |payload|
    ensures chain[k] in pages && chain[k] > 1 && |pages[chain[k]]| == o + 4
    ensures Get4(pages[chain[k]], 0) == NextOf(chain, k)
    ensures var at := Edge(local, o, k) + offset; pages[chain[k]][4 + offset .. 4 + offset + n] == payload[at .. at + n]
  {
    hide Edge, ChainOk, Piece;
    PageOf(pages, chain, payload, local, o, k);
    SliceOfPiece(payload, local, o, k, offset, n);
    var page, piece := pages[chain[k]], Piece(payload, local, o, k, |payload|);
    SliceOfSlice(page, 4, 4 + |piece|, offset, n);
  }

  /** The page that holds byte number offset of the spilled part. */
  lemma Jump(local: nat, o: nat, offset: nat)
    requires o > 0
    ensures Edge(local, o, offset / o) + offset % o == local + offset
  {
    assert offset == offset / o * o + offset % o;
  }

  /** Before the end of the payload there is another page. */
  lemma MoreChain(chain: seq<nat>, n: nat, local: nat, o: nat, k: nat, offset: nat)
    requires RightLength(chain, n, local, o) && Edge(local, o, k) + offset < n
    ensures k < |chain|
  {
    hide Edge;
    if k >= |chain| {
      EdgeLe(local, o, |chain|, k);
    }
  }

  class PayloadCursor {
    const file: PageFile
    const kind: CellKind
    var cell: seq<byte>
    var info: Info
    var cache: seq<nat>
    var validOvfl: bool
    ghost var key: nat
    ghost var payload: seq<byte>
    ghost var chain: seq<nat>

    /** The cursor is on a cell that holds the payload, and what is cached of the chain is right. */
    ghost predicate Valid()
      reads this, file
    {
      && file.Valid() && !kind.TableInterior? && key < TWO64 && |payload| < 0x8000_0000
      && Usable(file.l.usable) && Stored(kind, file.l.usable, cell, key, payload, file.pages, chain)
      && info == Parsed(kind, file.l.usable, cell, 0)
      && (validOvfl ==> CacheOk(cache, chain))
    }

    /** A cursor that has just been moved to a cell: the cell is parsed, nothing is cached. */
    constructor (file: PageFile, kind: CellKind, cell: seq<byte>, ghost key: nat, ghost payload: seq<byte>,
                 ghost chain: seq<nat>)
      requires file.Valid() && !kind.TableInterior? && key < TWO64 && |payload| < 0x8000_0000
      requires Usable(file.l.usable) && Stored(kind, file.l.usable, cell, key, payload, file.pages, chain)
      ensures Valid() && this.file == file && this.payload == payload
    {
      hide Stored, PageFile.Valid;
      CellReadable(kind, file.l.usable, cell, key, payload, file.pages, chain);
      this.file, this.kind, this.cell := file, kind, cell;
      this.key, this.payload, this.chain := key, payload, chain;
      cache, validOvfl := [], false;
      info := Info(0, 0, 0, 0, 0);
      new;
      info := ParseCell(kind, file.l.usable, cell, 0);
    }

    lemma Facts()
      requires Valid()
      ensures Usable(file.l.usable) && info.payload == |payload| && info.local <= |payload|
      ensures info.at + info.local <= |cell| && cell[info.at .. info.at + info.local] == payload[..info.local]
      ensures info.local < |payload| ==>
        (&& info.at + info.local + 4 <= |cell| && chain != [] && Get4(cell, info.at + info.local) == chain[0]
         && Spilled(file, info, payload, chain))
    {
      hide CellHolds, LocalSize, ChainOk, RightLength, Parsed;
      ParsesStored(kind, file.l.usable, cell, key, payload, chain);
    }

    lemma CacheFacts()
      requires Valid() && validOvfl
      ensures CacheOk(cache, chain)
    {
    }

    /** accessPayload() for reading: exactly the bytes asked for, whatever earlier reads left in the
        cache. */
    method Read(offset0: nat, amt0: nat) returns (buf: seq<byte>)
      requires Valid() && offset0 + amt0 <= |payload|
      modifies `cache, `validOvfl
      ensures Valid() && buf == payload[offset0 .. offset0 + amt0]
    {
      hide Valid, Spilled;
      Facts();
      var offset, amt := offset0, amt0;
      buf := [];
      if info.at + info.local > |cell| {
        assert false;  // SQLITE_CORRUPT
      }
      if offset < info.local {
        var a := amt;
        if a + offset > info.local {
          a := info.local - offset;
        }
        buf := cell[info.at + offset .. info.at + offset + a];
        LocalSlice(cell, info.at, payload, info.local, offset, a);
        offset := 0;
        amt := amt - a;
      } else {
        offset := offset - info.local;
      }
      if amt > 0 {
        buf := ReadSpilled(offset0, amt0, offset, amt, buf);
      }
    }

    /** The bytes wanted from one overflow page. */
    method CopyPiece(iIdx: nat, page: nat, offset: nat, amt: nat, from: nat, buf0: seq<byte>) returns (buf: seq<byte>,
        a: nat, next: nat)
      requires Valid() && iIdx < |chain| && page == chain[iIdx] && info.local < |payload|
      requires offset + 4 < file.l.usable && amt > 0 && from + |buf0| + amt <= |payload|
      requires buf0 == payload[from .. from + |buf0|]
      requires Edge(info.local, file.l.usable - 4, iIdx) + offset == from + |buf0|
      ensures a == if amt + offset > file.l.usable - 4 then file.l.usable - 4 - offset else amt
      ensures |buf| == |buf0| + a && from + |buf| <= |payload| && buf == payload[from .. from + |buf|]
      ensures a < amt ==>
        iIdx + 1 < |chain| && next == chain[iIdx + 1] > 1 &&
        Edge(info.local, file.l.usable - 4, iIdx + 1) == from + |buf|
    {
      hide Valid, Spilled, Edge;
      Facts();
      a := amt;
      if a + offset > file.l.usable - 4 {
        a := file.l.usable - 4 - offset;
      }
      EdgeStep(info.local, file.l.usable - 4, iIdx);
      CopyFacts(file, info, payload, chain, iIdx, offset, a, a < amt);
      var bytes := file.pages[page];
      next := Get4(bytes, 0);
      Append(payload, from, |buf0|, a);
      buf := buf0 + bytes[offset + 4 .. offset + 4 + a];
    }

    /** The part of accessPayload() that walks the overflow chain. */
    method ReadSpilled(offset0: nat, amt0: nat, offset1: nat, amt1: nat, buf1: seq<byte>) returns (buf: seq<byte>)
      requires Valid() && offset0 + amt0 <= |payload| && amt1 > 0 && |buf1| + amt1 == amt0
      requires buf1 == payload[offset0 .. offset0 + |buf1|] && info.local + offset1 == offset0 + |buf1|
      modifies `cache, `validOvfl
      ensures Valid() && buf == payload[offset0 .. offset0 + amt0]
    {
      hide Valid, Spilled, Edge;
      Facts();
      var iIdx: nat, nextPage: nat, offset: nat;
      iIdx, nextPage, offset := StartAt(offset1);
      var ovflSize := file.l.usable - 4;
      var amt := amt1;
      buf := buf1;
      while nextPage != 0
        invariant Valid() && validOvfl && amt > 0 && ovflSize == file.l.usable - 4
        invariant iIdx < |chain| && nextPage == chain[iIdx] > 1
        invariant |buf| + amt == amt0 && buf == payload[offset0 .. offset0 + |buf|]
        invariant Edge(info.local, ovflSize, iIdx) + offset == offset0 + |buf|
        decreases |chain| - iIdx
      {
        Remember(iIdx, nextPage);
        if offset >= ovflSize {
          nextPage := SkipPage(iIdx, nextPage, offset);
          EdgeStep(info.local, ovflSize, iIdx);
          offset := offset - ovflSize;
        } else {
          var a: nat;
          buf, a, nextPage := CopyPiece(iIdx, nextPage, offset, amt, offset0, buf);
          offset := 0;
          amt := amt - a;
          if amt == 0 {
            return;
          }
        }
        iIdx := iIdx + 1;
      }
      if amt > 0 {
        assert false;  // SQLITE_CORRUPT
      }
    }

    /** Where the walk starts: at the page needed if its number is cached, else at the first page. */
    method StartAt(offset1: nat) returns (iIdx: nat, nextPage: nat, offset: nat)
      requires Valid() && info.local + offset1 < |payload|
      modifies `cache, `validOvfl
      ensures Valid() && validOvfl && iIdx < |chain| && nextPage == chain[iIdx] > 1
      ensures Edge(info.local, file.l.usable - 4, iIdx) + offset == info.local + offset1
    {
      hide Stored, Parsed, PageFile.Valid, Edge;
      Facts();
      SpilledFacts(file, info, payload, chain, 0);
      var ovflSize := file.l.usable - 4;
      EdgeStep(info.local, ovflSize, 0);
      iIdx, nextPage, offset := 0, Get4(cell, info.at + info.local), offset1;
      if !validOvfl {
        EmptyCache(ovflSize);
      } else {
        var k: nat, rest: nat;
        k, rest := PageOf(ovflSize, offset1);
        CacheFacts();
        MoreSpilled(file, info, payload, chain, k, rest);
        assert Known(cache, chain, k);
        SpilledFacts(file, info, payload, chain, k);
        if cache[k] != 0 {
          iIdx, nextPage, offset := k, cache[k], rest;
        }
      }
    }

    method PageOf(ovflSize: nat, offset: nat) returns (k: nat, rest: nat)
      requires ovflSize > 0
      ensures Edge(info.local, ovflSize, k) + rest == info.local + offset
    {
      k, rest := offset / ovflSize, offset % ovflSize;
      Jump(info.local, ovflSize, offset);
    }

    /** aOverflow[] with a zero for each page of the chain. */
    method EmptyCache(ovflSize: nat)
      requires Valid() && info.local < |payload| && ovflSize == file.l.usable - 4 > 0 && chain != []
      modifies `cache, `validOvfl
      ensures Valid() && validOvfl
    {
      hide Stored, Parsed, PageFile.Valid, Spilled;
      Facts();
      SpilledFacts(file, info, payload, chain, 0);
      var nOvfl := (info.payload - info.local + ovflSize - 1) / ovflSize;
      cache := seq(nOvfl, _ => 0);
      validOvfl := true;
      AllUnknown(cache, chain);
    }

    /** The page number goes into the cache. */
    method Remember(iIdx: nat, page: nat)
      requires Valid() && validOvfl && iIdx < |chain| && page == chain[iIdx]
      modifies `cache
      ensures Valid() && iIdx < |cache| && cache[iIdx] == page
    {
      hide Stored, Parsed, PageFile.Valid;
      CacheFacts();
      cache := cache[iIdx := page];
      CacheSet(old(cache), chain, iIdx, cache);
    }

    /** The number of the page after one that holds nothing wanted, from the cache if it is there. */
    method SkipPage(iIdx: nat, page: nat, offset: nat) returns (next: nat)
      requires Valid() && validOvfl && iIdx < |chain| && page == chain[iIdx] && offset >= file.l.usable - 4 > 0
      requires Edge(info.local, file.l.usable - 4, iIdx) + offset < |payload| && info.local < |payload|
      ensures iIdx + 1 < |chain| && next == chain[iIdx + 1] > 1
    {
      hide Stored, Parsed, PageFile.Valid, Edge;
      Facts();
      CacheFacts();
      EdgeStep(info.local, file.l.usable - 4, iIdx);
      MoreSpilled(file, info, payload, chain, iIdx + 1, offset - (file.l.usable - 4));
      SpilledFacts(file, info, payload, chain, iIdx);
      SpilledFacts(file, info, payload, chain, iIdx + 1);
      assert Known(cache, chain, iIdx + 1);
      if cache[iIdx + 1] != 0 {
        next := cache[iIdx + 1];
      } else {
        next := file.GetOverflowPage(page);
      }
    }
  }

  lemma CellReadable(kind: CellKind, usable: nat, cell: seq<byte>, key: nat, payload: seq<byte>, pages: Contents,
                     chain: seq<nat>)
    requires Usable(usable) && !kind.TableInterior? && key < TWO64 && |payload| < 0x8000_0000
    requires Stored(kind, usable, cell, key, payload, pages, chain)
    ensures Parsed(kind, usable, cell, 0).at <= |cell|
  {
    hide CellHolds, LocalSize, ChainOk, RightLength, Parsed;
    ParsesStored(kind, usable, cell, key, payload, chain);
  }

  lemma AllUnknown(cache: seq<nat>, chain: seq<nat>)
    requires |cache| == |chain| && forall k: nat :: k < |cache| ==> cache[k] == 0
    ensures CacheOk(cache, chain)
  {
  }

  lemma CacheSet(cache: seq<nat>, chain: seq<nat>, k: nat, cache': seq<nat>)
    requires CacheOk(cache, chain) && k < |chain| && cache' == cache[k := chain[k]]
    ensures CacheOk(cache', chain)
  {
    forall j: nat | j < |chain|
      ensures Known(cache', chain, j)
    {
      assert Known(cache, chain, j);
    }
  }

  /** The overflow pages of the cell hold the rest of the payload. */
  ghost predicate Spilled(file: PageFile, info: Info, payload: seq<byte>, chain: seq<nat>)
    reads file
  {
    && file.Valid() && file.l.usable > 4 && info.local < |payload| && info.payload == |payload|
    && ChainOk(file.pages, chain, payload, info.local, file.l.usable - 4, |payload|)
    && RightLength(chain, |payload|, info.local, file.l.usable - 4)
  }

  lemma SpilledFacts(file: PageFile, info: Info, payload: seq<byte>, chain: seq<nat>, k: nat)
    requires Spilled(file, info, payload, chain) && k < |chain|
    ensures (info.payload - info.local + (file.l.usable - 4) - 1) / (file.l.usable - 4) == |chain|
    ensures chain[k] in file.pages && chain[k] > 1 && |file.pages[chain[k]]| >= 4
    ensures Get4(file.pages[chain[k]], 0) == NextOf(chain, k)
    ensures file.l.Valid() && file.l.Ordinary(chain[k]) && LinksKnown(file.pages, file.ptrmap)
  {
    hide ChainOk, RightLength, Get4;
    PagesNeeded(chain, |payload|, info.local, file.l.usable - 4);
    LinkAt(file.pages, chain, payload, info.local, file.l.usable - 4, |payload|, k);
  }

  lemma MoreSpilled(file: PageFile, info: Info, payload: seq<byte>, chain: seq<nat>, k: nat, offset: nat)
    requires Spilled(file, info, payload, chain) && Edge(info.local, file.l.usable - 4, k) + offset < |payload|
    ensures k < |chain|
  {
    hide ChainOk, RightLength, PageFile.Valid;
    MoreChain(chain, |payload|, info.local, file.l.usable - 4, k, offset);
  }

  /** What is copied from a page is what is wanted; if more is wanted, there is another page. */
  lemma CopyFacts(file: PageFile, info: Info, payload: seq<byte>, chain: seq<nat>, k: nat, offset: nat, a: nat,
                  more: bool)
    requires Spilled(file, info, payload, chain) && k < |chain| && offset + a <= file.l.usable - 4
    requires Edge(info.local, file.l.usable - 4, k) + offset + a <= |payload|
    requires more ==> offset + a == file.l.usable - 4 && Edge(info.local, file.l.usable - 4, k) + offset + a < |payload|
    ensures chain[k] in file.pages && |file.pages[chain[k]]| == file.l.usable
    ensures Get4(file.pages[chain[k]], 0) == NextOf(chain, k) && (more ==> k + 1 < |chain| && NextOf(chain, k) > 1)
    ensures var at := Edge(info.local, file.l.usable - 4, k) + offset;
      file.pages[chain[k]][offset + 4 .. offset + 4 + a] == payload[at .. at + a]
  {
    hide ChainOk, RightLength, PageFile.Valid, Get4, Edge;
    PieceSlice(file.pages, chain, payload, info.local, file.l.usable - 4, k, offset, a);
    EdgeStep(info.local, file.l.usable - 4, k);
    if more {
      MoreSpilled(file, info, payload, chain, k + 1, 0);
      SpilledFacts(file, info, payload, chain, k + 1);
    }
  }

  lemma Append(payload: seq<byte>, from: nat, n: nat, a: nat)
    requires from + n + a <= |payload|
    ensures payload[from .. from + n] + payload[from + n .. from + n + a] == payload[from .. from + (n + a)]
  {
  }

  lemma LocalSlice(cell: seq<byte>, at: nat, payload: seq<byte>, local: nat, offset: nat, a: nat)
    requires at + local <= |cell| && local <= |payload| && cell[at .. at + local] == payload[..local]
    requires offset + a <= local
    ensures cell[at + offset .. at + offset + a] == payload[offset .. offset + a]
  {
    var u, x, y := cell[at .. at + local], cell[at + offset .. at + offset + a], payload[offset .. offset + a];
    forall i: nat | i < a
      ensures x[i] == y[i]
    {
      assert x[i] == u[offset + i] && y[i] == payload[..local][offset + i];
    }
    assert x == y;
  }
}
