/** A btree page in memory: allocation and release of cell space, and the cell operations
    built on them, over the page's byte buffer. */
module MemPages {
  import opened Bytes
  import opened Spans
  import opened PageLayout
  import opened PageTake
  import opened PageRelease
  import opened PageCells
  import opened PageEdit

  class MemPage {
    const g: Geometry
    const data: array<byte>
    const xCellSize: seq<byte> -> nat
    var nFree: int
    var nCell: nat
    var ovfl: seq<(nat, seq<byte>)>
    ghost var cells: seq<Span>
    ghost var free: seq<Span>

    constructor (g: Geometry, data: array<byte>, xCellSize: seq<byte> -> nat)
    {
      this.g, this.data, this.xCellSize, nFree, nCell, ovfl := g, data, xCellSize, 0, 0, [];
    }

    ghost predicate Valid()
      reads this, data
    {
      PageOk(g, xCellSize, data[..], nCell, nFree, cells, free)
    }

    /** The part of pageFindSlot() that takes all but the first x bytes of the k-th freeblock. */
    method TakeSlot(iAddr: nat, pc: nat, x: nat, ghost used: seq<Span>, ghost k: nat) returns (slot: nat)
      requires Space(g, data[..], used, free) && k < |free|
      requires iAddr == LinkAt(g, free, k) && pc == free[k].start && x + 4 <= free[k].size
      modifies data, `free
      ensures if x >= 4 || Frag(g, old(data[..])) <= 57
        then slot == pc + x && free == Taken(old(free), k, old(free)[k].size - x)
          && Space(g, data[..], used + [Slot(old(free), k, old(free)[k].size - x)], free)
        else slot == 0 && free == old(free) && data[..] == old(data[..])
      ensures Top(g, data[..]) == Top(g, old(data[..]))
      ensures Frame(g, old(data[..]), data[..], used)
    {
      hide Put2, Frame, Chain, Layout, Sum;
      ghost var d, f := data[..], free;
      FrameSame(g, d, used);
      ReadNode(g, d, used, f, k);
      if k > 0 {
        ReadNode(g, d, used, f, k - 1);
      }
      if x < 4 {
        if data[g.hdr + 7] > 57 {
          return 0;
        }
        CopyTwo(data, iAddr, pc);
        data[g.hdr + 7] := data[g.hdr + 7] + x;
        UnlinkSound(g, d, used, f, k, f[k].size - x, data[..]);
      } else {
        WriteTwo(data, pc + 2, x);
        ShrinkSound(g, d, used, f, k, f[k].size - x, data[..]);
      }
      free := Taken(f, k, f[k].size - x);
      return pc + x;
    }

    /** First fit over the freeblock list.  Returns 0 when the list has no slot to offer. */
    method PageFindSlot(nByte: nat, ghost used: seq<Span>) returns (slot: nat)
      requires Space(g, data[..], used, free) && free != [] && 4 <= nByte
      modifies data, `free
      ensures var k := FirstFit(old(free), nByte);
        if k < |old(free)| && (old(free)[k].size >= nByte + 4 || Frag(g, old(data[..])) <= 57)
        then Span(slot, nByte) == Slot(old(free), k, nByte) && free == Taken(old(free), k, nByte)
        else slot == 0 && free == old(free)
      ensures slot == 0 ==> data[..] == old(data[..]) && free == old(free)
      ensures Space(g, data[..], if slot != 0 then used + [Span(slot, nByte)] else used, free)
      ensures Top(g, data[..]) == Top(g, old(data[..]))
      ensures Frame(g, old(data[..]), data[..], used)
    {
      hide Frame, Chain, Layout, Taken, Sum;
      ghost var d, f := data[..], free;
      FrameSame(g, d, used);
      ReadNode(g, d, used, f, 0);
      var iAddr := g.hdr + 1;
      var pc := Read2(data, iAddr);
      ghost var k := 0;
      while pc + 4 <= g.usable
        invariant data[..] == d && free == f
        invariant k < |f| && iAddr == LinkAt(g, f, k) && pc == f[k].start
        invariant forall i: nat | i < k :: At(f, i).size < nByte
        decreases |f| - k
      {
        ReadNode(g, d, used, f, k);
        var size := Read2(data, pc + 2);
        if size >= nByte {
          FirstFitIs(f, nByte, k);
          if size + pc > g.usable {
            assert false;  // SQLITE_CORRUPT
          }
          slot := TakeSlot(iAddr, pc, size - nByte, used, k);
          return;
        }
        k := k + 1;
        iAddr := pc;
        pc := Read2(data, pc);
        if pc < iAddr + size {
          break;
        }
      }
      if k < |f| {
        ReadNode(g, d, used, f, k);
      }
      if pc != 0 {
        assert false;  // SQLITE_CORRUPT
      }
      FirstFitIs(f, nByte, |f|);
      return 0;
    }

    /** The search of freeSpace(): the first freeblock past start, and the address of the pointer to it. */
    method FindPlace(start: nat, ghost used: seq<Span>, ghost j: nat) returns (iPtr: nat, iFreeBlk: nat, ghost k: nat)
      requires Space(g, data[..], used, free) && j < |used| && used[j].start == start
      ensures k <= |free| && iPtr == LinkAt(g, free, k) && iFreeBlk == Link(free, k)
      ensures Place(free, start, k)
    {
      hide Space, Layout, Get2NotZero;
      SpaceParts(g, data[..], used, free);
      iPtr := g.hdr + 1;
      iFreeBlk := 0;
      k := 0;
      ReadNode(g, data[..], used, free, 0);
      if data[iPtr + 1] != 0 || data[iPtr] != 0 {
        iFreeBlk := Read2(data, iPtr);
        while iFreeBlk < start
          invariant k <= |free| && iPtr == LinkAt(g, free, k) && iPtr + 1 < g.usable && iFreeBlk == Link(free, k)
          invariant forall i: nat | i < k :: At(free, i).start < start
          decreases |free| - k
        {
          if k > 0 {
            ReadNode(g, data[..], used, free, k - 1);
          }
          ReadNode(g, data[..], used, free, k);
          if iFreeBlk < iPtr + 4 {
            if iFreeBlk == 0 {
              break;
            }
            assert false;  // SQLITE_CORRUPT
          }
          iPtr := iFreeBlk;
          iFreeBlk := Read2(data, iPtr);
          k := k + 1;
        }
      }
      ReadNode(g, data[..], used, free, k);
      PlaceFound(Top(g, data[..]), g.usable, used, free, j, k);
    }

    /** Return a range to the free space, absorbing freeblocks at most three bytes away; the k
        freeblocks before it stay before it. */
    method FreeSpace(start: nat, size: nat, ghost used: seq<Span>, ghost j: nat) returns (ghost k: nat)
      requires Space(g, data[..], used, free) && j < |used| && used[j] == Span(start, size)
      modifies data, `free, `nFree
      ensures Space(g, data[..], Without(used, j), free)
      ensures Frame(g, old(data[..]), data[..], Without(used, j))
      ensures nFree == old(nFree) + size && Top(g, old(data[..])) <= Top(g, data[..])
      ensures Place(old(free), start, k)
      ensures var m := MergeOf(old(free), k, Span(start, size));
        && m.lo <= m.hi
        && if m.lo == Top(g, old(data[..]))
           then Top(g, data[..]) == m.hi && free == old(free)[m.b..]
           else Top(g, data[..]) == Top(g, old(data[..])) && free == Merged(old(free), m)
    {
      hide Frame, Space, Layout, Place, Get2NotZero, Merged;
      SpaceParts(g, data[..], used, free);
      ghost var d, f := data[..], free;
      var iPtr, iFreeBlk;
      iPtr, iFreeBlk, k := FindPlace(start, used, j);
      PlaceLe(f, start, k);
      Neighbours(Top(g, d), g.usable, used, f, j, k);
      RegainedBound(g, d, used, f, j, k);
      var iStart, iSize, iEnd, nFrag;
      iStart, iSize, iEnd, iFreeBlk, nFrag := Absorb(start, size, iPtr, iFreeBlk, used, j, k);
      nFree := nFree + size;
      var x := Read2(data, g.hdr + 5);
      MergeAtTop(g, d, used, f, j, k);
      if iStart <= x {
        ExtendGap(iStart, iSize, iEnd, iFreeBlk, nFrag, used, j, k);
      } else {
        JoinList(iPtr, iStart, iSize, iFreeBlk, nFrag, used, j, k);
      }
    }

    /** The part of freeSpace() that absorbs the neighbours. */
    method Absorb(start: nat, size: nat, iPtr: nat, iFreeBlk0: nat, ghost used: seq<Span>, ghost j: nat, ghost k: nat)
      returns (iStart: nat, iSize: nat, iEnd: nat, iFreeBlk: nat, nFrag: nat)
      requires Space(g, data[..], used, free) && j < |used| && used[j] == Span(start, size) && Place(free, start, k)
      requires k <= |free| && iPtr == LinkAt(g, free, k) && iFreeBlk0 == Link(free, k)
      ensures var m := MergeOf(free, k, Span(start, size));
        && iStart == m.lo <= iEnd == m.hi && iSize == m.hi - m.lo && iFreeBlk == Link(free, m.b)
      ensures nFrag == Regained(free, k, Span(start, size))
    {
      hide Space, Layout, Place, Get2NotZero, Get2;
      ghost var d, f := data[..], free;
      SpaceParts(g, d, used, f);
      Neighbours(Top(g, d), g.usable, used, f, j, k);
      ReadNode(g, d, used, f, k);
      iStart, iSize, iEnd, iFreeBlk, nFrag := start, size, start + size, iFreeBlk0, 0;
      if iFreeBlk != 0 && iEnd + 3 >= iFreeBlk {
        nFrag := iFreeBlk - iEnd;
        iEnd := iFreeBlk + Read2(data, iFreeBlk + 2);
        iSize := iEnd - iStart;
        iFreeBlk := Read2(data, iFreeBlk);
      }
      if k > 0 {
        ReadNode(g, d, used, f, k - 1);
      }
      if iPtr > g.hdr + 1 {
        var iPtrEnd := iPtr + Read2(data, iPtr + 2);
        if iPtrEnd + 3 >= iStart {
          nFrag := nFrag + (iStart - iPtrEnd);
          iSize := iEnd - iPtr;
          iStart := iPtr;
        }
      }
    }

    /** The end of freeSpace() for a block that borders on the gap. */
    method ExtendGap(iStart: nat, iSize: nat, iEnd: nat, iFreeBlk: nat, nFrag: nat, ghost used: seq<Span>, ghost j: nat,
                     ghost k: nat)
      requires Space(g, data[..], used, free) && j < |used| && Place(free, used[j].start, k)
      requires var m := MergeOf(free, k, used[j]);
        && iStart == m.lo && iEnd == m.hi && iSize == m.hi - m.lo && iFreeBlk == Link(free, m.b)
      requires nFrag == Regained(free, k, used[j]) && iStart == Get2(data[..], g.hdr + 5)
      modifies data, `free
      ensures Space(g, data[..], Without(used, j), free)
      ensures Frame(g, old(data[..]), data[..], Without(used, j))
      ensures Top(g, data[..]) == iEnd && free == old(free)[MergeOf(old(free), k, used[j]).b..]
    {
      hide Put2, Space, Layout, Place, Frame, Get2NotZero, Regained, Chain, Sum, Link, Holds;
      PlaceLe(free, used[j].start, k);
      SpaceParts(g, data[..], used, free);
      ghost var d, f, m := data[..], free, MergeOf(free, k, used[j]);
      Neighbours(Top(g, d), g.usable, used, f, j, k);
      RegainedBound(g, d, used, f, j, k);
      ReadLink(g, d, used, f, m.b);
      ReadNode(g, d, used, f, m.b);
      WriteTop(iStart, iSize, iEnd, iFreeBlk, nFrag);
      GapStart(g, d, used, f, j, k);
      TopWrites(g, d, f, m, d[g.hdr + 7] - nFrag, data[..]);
      ReleaseTopSound(g, d, used, f, j, k, data[..]);
      free := f[m.b..];
    }

    /** The header and the block as freeSpace() leaves them there. */
    method WriteTop(iStart: nat, iSize: nat, iEnd: nat, iFreeBlk: nat, nFrag: nat)
      requires g.hdr + 8 <= iStart && iStart + 4 <= data.Length && nFrag <= data[g.hdr + 7]
      modifies data
      ensures var d := old(data[..])[g.hdr + 7 := old(data[g.hdr + 7]) - nFrag];
        data[..] == Put2(Put2(Put2(Put2(d, g.hdr + 1, iFreeBlk), g.hdr + 5, iEnd), iStart, iFreeBlk), iStart + 2, iSize)
    {
      hide Put2;
      data[g.hdr + 7] := data[g.hdr + 7] - nFrag;
      WriteTwo(data, g.hdr + 1, iFreeBlk);
      WriteTwo(data, g.hdr + 5, iEnd);
      WriteTwo(data, iStart, iFreeBlk);
      WriteTwo(data, iStart + 2, iSize);
    }

    /** The end of freeSpace() for a block that enters the list or grows one that is in it. */
    method JoinList(iPtr: nat, iStart: nat, iSize: nat, iFreeBlk: nat, nFrag: nat, ghost used: seq<Span>, ghost j: nat,
                    ghost k: nat)
      requires Space(g, data[..], used, free) && j < |used| && Place(free, used[j].start, k)
      requires var m := MergeOf(free, k, used[j]);
        && iPtr == LinkAt(g, free, k) && iStart == m.lo != Top(g, data[..])
        && iSize == m.hi - m.lo && iFreeBlk == Link(free, m.b)
      requires nFrag == Regained(free, k, used[j])
      modifies data, `free
      ensures Space(g, data[..], Without(used, j), free)
      ensures Frame(g, old(data[..]), data[..], Without(used, j))
      ensures Top(g, data[..]) == Top(g, old(data[..]))
      ensures iStart <= iStart + iSize && free == Merged(old(free), MergeOf(old(free), k, used[j]))
    {
      hide Put2, Get2, Space, Merged, WroteBlock, Frame;
      ghost var d, f, m := data[..], free, MergeOf(free, k, used[j]);
      SpaceParts(g, d, used, f);
      Neighbours(Top(g, d), g.usable, used, f, j, k);
      RegainedBound(g, d, used, f, j, k);
      ReadLink(g, d, used, f, k);
      data[g.hdr + 7] := data[g.hdr + 7] - nFrag;
      WriteTwo(data, iPtr, iStart);
      WriteTwo(data, iStart, iFreeBlk);
      WriteTwo(data, iStart + 2, iSize);
      JoinWrites(g, d, used, f, j, k, d[g.hdr + 7] - nFrag, data[..]);
      ReleaseSound(g, d, used, f, j, k, data[..]);
      free := Merged(f, m);
    }

    /** Squeeze out the free space.  At most nMaxFrag fragment bytes survive, and none where the
        page is repacked from scratch. */
    method DefragmentPage(nMaxFrag: int)
      requires Valid()
      modifies data, `cells, `free
      ensures Valid() && free == []
      ensures Moved(g, old(data[..]), data[..], old(cells), cells)
      ensures SameHeader(g, old(data[..]), data[..])
      ensures Top(g, data[..]) - Gap(g, nCell) == nFree - Frag(g, data[..])
      ensures Frag(g, data[..]) == 0 || Frag(g, data[..]) <= nMaxFrag
    {
      FreeBytes(g, xCellSize, data[..], nCell, nFree, cells, free);
      ReadNode(g, data[..], cells, free, 0);
      if data[g.hdr + 7] as int <= nMaxFrag {
        var iFree := Read2(data, g.hdr + 1);
        if iFree != 0 {
          ReadNode(g, data[..], cells, free, 1);
          var iFree2 := Read2(data, iFree);
          if iFree2 == 0 || (data[iFree2] == 0 && data[iFree2 + 1] == 0) {
            assert 1 <= |free| <= 2;
            SlideCells();
            return;
          }
        }
      }
      Repack();
    }

    /** Pages with one or two freeblocks: the cells move in one or two blocks. */
    method SlideCells()
      requires Valid() && 1 <= |free| <= 2
      modifies data, `cells, `free
      ensures Valid() && free == []
      ensures Moved(g, old(data[..]), data[..], old(cells), cells)
      ensures SameHeader(g, old(data[..]), data[..])
      ensures Frag(g, data[..]) == Frag(g, old(data[..]))
    {
      ghost var d, z, f := data[..], cells, free;
      FewBounds(g, d, z, f);
      FewSum(f);
      var iFree := Read2(data, g.hdr + 1);
      var iFree2 := Read2(data, iFree);
      var sz2 := if iFree2 != 0 then Read2(data, iFree2 + 2) else 0;
      var sz := Read2(data, iFree + 2) + sz2;
      var top := Read2(data, g.hdr + 5);
      if top >= iFree {
        assert false;  // SQLITE_CORRUPT
      }
      SlideBlocks(iFree, iFree2, sz, sz2, top, f);
      SlidePointers(iFree, iFree2, sz, sz2, top + sz, d);
    }

    /** The two moves of the fast path: the cells between the freeblocks, then those before them. */
    method SlideBlocks(iFree: nat, iFree2: nat, sz: nat, sz2: nat, top: nat, ghost f: seq<Span>)
      requires Few(top, data.Length, f) && iFree == Link(f, 0) && iFree2 == Link(f, 1)
      requires sz == Sum(f) && sz2 == if |f| == 2 then f[1].size else 0
      modifies data
      ensures data[..] == FastMoved(old(data[..]), top, f)
    {
      hide Copy, Sum, At, FastMoved;
      FewSum(f);
      ghost var d := data[..];
      var sz1 := sz - sz2;
      var n := iFree - top;
      if iFree2 != 0 {
        var to, from := iFree + sz, iFree + sz1;
        var m := iFree2 - from;
        FastMovedTwo(d, top, f, sz, n, to, from, m);
        WriteCopy(data, to, data[..], from, m);
      } else {
        FastMovedOne(d, top, f, sz, n);
      }
      WriteCopy(data, top + sz, data[..], top, n);
    }

    method SlidePointers(iFree: nat, iFree2: nat, sz: nat, sz2: nat, cbrk: nat, ghost d: seq<byte>)
      requires PageOk(g, xCellSize, d, nCell, nFree, cells, free) && Few(Top(g, d), |d|, free)
      requires iFree == Link(free, 0) && iFree2 == Link(free, 1)
      requires sz == Sum(free) && sz2 == if |free| == 2 then free[1].size else 0
      requires data[..] == FastMoved(d, Top(g, d), free) && cbrk == Top(g, d) + sz
      modifies data, `cells, `free
      ensures Valid() && free == []
      ensures Moved(g, d, data[..], old(cells), cells)
      ensures SameHeader(g, d, data[..])
      ensures Frag(g, data[..]) == Frag(g, d)
    {
      hide Sum, Shifted, FastMoved, Layout, Space, Indexed, Moved, Get2NotZero, Disjoint, Within, Compacted;
      ghost var z, f := cells, free;
      PageParts(g, xCellSize, d, nCell, nFree, z, f);
      SpaceParts(g, d, z, f);
      RepointCells(iFree, iFree2, sz, sz2, d);
      ShiftedLayout(Top(g, d), g.usable, z, f);
      SlideFits(g, xCellSize, d, nFree, z, f);
      CompactedSound(g, xCellSize, d, nFree, z, f, data[..], Shifted(z, f), cbrk);
      DefragmentOut(cbrk);
      cells, free := Shifted(z, f), [];
    }

    /** The pointer-array loop of the fast path. */
    method RepointCells(iFree: nat, iFree2: nat, sz: nat, sz2: nat, ghost d: seq<byte>)
      requires PageOk(g, xCellSize, d, nCell, nFree, cells, free) && Few(Top(g, d), |d|, free)
      requires iFree == Link(free, 0) && iFree2 == Link(free, 1)
      requires sz == Sum(free) && sz2 == if |free| == 2 then free[1].size else 0
      requires data[..] == FastMoved(d, Top(g, d), free)
      modifies data
      ensures Moved(g, d, data[..], cells, Shifted(cells, free))
      ensures SameHeader(g, d, data[..]) && data[g.hdr + 7] == d[g.hdr + 7]
    {
      hide Put2, FastMoved, Shifted, Sum;
      ghost var m, r := data[..], Shifted(cells, free);
      var i := 0;
      while i < nCell
        invariant 0 <= i <= nCell && OnlyPointers(g, m, data[..], i)
        invariant forall j: nat | j < i :: PtrAt(g, data[..], r, j)
      {
        var pAddr := g.CellOffset() + 2 * i;
        ghost var before := data[..];
        RepointStep(g, xCellSize, d, nFree, cells, free, before, i);
        var pc := Read2(data, pAddr);
        if pc < iFree {
          WriteTwo(data, pAddr, pc + sz);
        } else if pc < iFree2 {
          WriteTwo(data, pAddr, pc + sz2);
        }
        assert PtrAt(g, data[..], r, i);
        forall j: nat | j < i ensures PtrAt(g, data[..], r, j) {
          PtrKept(g, before, data[..], r, j);
        }
        forall q: nat | q < |m| && !(g.CellOffset() <= q < pAddr + 2) ensures Kept(m, data[..], q) {
          assert Kept(m, before, q);
        }
        i := i + 1;
      }
      RepointSound(g, xCellSize, d, nFree, cells, free, data[..]);
    }

    /** The general path: every cell is copied to the end of the page in index order.  Cells are
        read from a copy of the content area taken when the first of them has to move. */
    method Repack()
      requires Valid()
      modifies data, `cells, `free
      ensures Valid() && free == []
      ensures Moved(g, old(data[..]), data[..], old(cells), cells)
      ensures SameHeader(g, old(data[..]), data[..])
      ensures Frag(g, data[..]) == 0
    {
      hide PageOk, Repacked, Saved, Moved, SameHeader, Ahead, Get2NotZero;
      ghost var d, z, f := data[..], cells, free;
      PageParts(g, xCellSize, data[..], nCell, nFree, cells, free);
      RepackStart(g, xCellSize, d, nFree, z, f);
      var iCellFirst, iCellLast := Gap(g, nCell), g.usable - 4;
      var temp: array?<byte> := null;
      var cbrk: nat := g.usable;
      var i := 0;
      while i < nCell
        invariant cells == z && free == f
        invariant 0 <= i <= nCell && |z| == nCell && Repacked(g, d, z, data[..], i, cbrk)
        invariant temp == null ==> Unmoved(g, d, z, data[..], i)
        invariant temp != null ==> fresh(temp) && temp != data && Saved(d, z, temp[..], i)
      {
        ghost var cur := data[..];
        RepackRoom(g, xCellSize, d, nFree, z, f, i);
        RepackReads(g, xCellSize, d, nFree, z, f, cur, i, cbrk);
        var pc := Read2(data, g.CellOffset() + 2 * i);
        if pc < iCellFirst || pc > iCellLast {
          assert false;  // SQLITE_CORRUPT
        }
        var size;
        if temp == null {
          UnmovedCell(g, xCellSize, d, nFree, z, f, cur, i, i, i);
          SizeRead(g, xCellSize, d, nFree, z, f, i, cur);
          size := xCellSize(data[pc..]);
          temp := MoveOrStay(i, pc, cbrk, size, d);
        } else {
          size := MoveFromCopy(i, pc, cbrk, temp, d);
        }
        cbrk := cbrk - size;
        if cbrk < iCellFirst || pc + size > g.usable {
          assert false;  // SQLITE_CORRUPT
        }
        i := i + 1;
      }
      FinishRepack(cbrk, d);
    }

    method FinishRepack(cbrk: nat, ghost d: seq<byte>)
      requires PageOk(g, xCellSize, d, nCell, nFree, cells, free)
      requires Repacked(g, d, cells, data[..], nCell, cbrk)
      modifies data, `cells, `free
      ensures Valid() && free == []
      ensures Moved(g, d, data[..], old(cells), cells)
      ensures SameHeader(g, d, data[..])
      ensures Frag(g, data[..]) == 0
    {
      ghost var z, f := cells, free;
      RepackDone(g, xCellSize, d, nFree, z, f, data[..], cbrk);
      data[g.hdr + 7] := 0;
      CompactedSound(g, xCellSize, d, nFree, z, f, data[..], Packed(z, g.usable), cbrk);
      DefragmentOut(cbrk);
      cells, free := Packed(z, g.usable), [];
    }

    /** The loop body of the repack while no cell has moved: returns the copy once one does. */
    method MoveOrStay(i: nat, pc: nat, cbrk: nat, size: nat, ghost d: seq<byte>) returns (temp: array?<byte>)
      requires PageOk(g, xCellSize, d, nCell, nFree, cells, free) && i < nCell
      requires Repacked(g, d, cells, data[..], i, cbrk) && Unmoved(g, d, cells, data[..], i)
      requires cells[i] == Span(pc, size) && size <= cbrk
      modifies data
      ensures Repacked(g, d, cells, data[..], i + 1, cbrk - size)
      ensures temp == null ==> Unmoved(g, d, cells, data[..], i + 1)
      ensures temp != null ==> fresh(temp) && Saved(d, cells, temp[..], i + 1)
    {
      hide Put2, Copy, OneMoved, PageOk, Repacked, Saved, Ahead, PackedAt;
      PageParts(g, xCellSize, d, nCell, nFree, cells, free);
      ghost var cur := data[..];
      RepackRoom(g, xCellSize, d, nFree, cells, free, i);
      RepackReads(g, xCellSize, d, nFree, cells, free, cur, i, cbrk);
      UnmovedCell(g, xCellSize, d, nFree, cells, free, cur, i, i, i);
      if cbrk - size == pc {
        StayStep(g, xCellSize, d, nFree, cells, free, cur, i, cbrk);
        WriteTwo(data, g.CellOffset() + 2 * i, pc);
        return null;
      }
      temp := TakeCopy(i, cbrk, d);
      RepackedParts(g, d, cells, cur, i, cbrk);
      SavedAt(d, cells, temp[..], i);
      RepackStep(g, xCellSize, d, nFree, cells, free, cur, i, cbrk, temp[..]);
      PlaceCell(g.CellOffset() + 2 * i, cbrk - size, temp, pc, size);
    }

    /** The loop body once the copy has been taken. */
    method MoveFromCopy(i: nat, pc: nat, cbrk: nat, temp: array<byte>, ghost d: seq<byte>) returns (size: nat)
      requires PageOk(g, xCellSize, d, nCell, nFree, cells, free) && i < nCell
      requires Repacked(g, d, cells, data[..], i, cbrk) && Saved(d, cells, temp[..], i)
      requires cells[i].start == pc && temp != data
      modifies data
      ensures size == cells[i].size <= cbrk && Repacked(g, d, cells, data[..], i + 1, cbrk - size)
      ensures Saved(d, cells, temp[..], i + 1)
    {
      hide Put2, Copy, OneMoved, PageOk, Repacked, Saved, PackedAt;
      PageParts(g, xCellSize, d, nCell, nFree, cells, free);
      ghost var cur := data[..];
      RepackRoom(g, xCellSize, d, nFree, cells, free, i);
      RepackReads(g, xCellSize, d, nFree, cells, free, cur, i, cbrk);
      RepackedParts(g, d, cells, cur, i, cbrk);
      SavedAt(d, cells, temp[..], i);
      SizeRead(g, xCellSize, d, nFree, cells, free, i, temp[..]);
      size := xCellSize(temp[pc..]);
      RepackStep(g, xCellSize, d, nFree, cells, free, cur, i, cbrk, temp[..]);
      PlaceCell(g.CellOffset() + 2 * i, cbrk - size, temp, pc, size);
    }

    method TakeCopy(i: nat, cbrk: nat, ghost d: seq<byte>) returns (temp: array<byte>)
      requires PageOk(g, xCellSize, d, nCell, nFree, cells, free) && i < nCell
      requires Repacked(g, d, cells, data[..], i, cbrk) && Unmoved(g, d, cells, data[..], i)
      ensures fresh(temp) && Saved(d, cells, temp[..], i)
    {
      hide PageOk, Repacked, Saved, Copy, Ahead;
      PageParts(g, xCellSize, d, nCell, nFree, cells, free);
      RepackRoom(g, xCellSize, d, nFree, cells, free, i);
      RepackReads(g, xCellSize, d, nFree, cells, free, data[..], i, cbrk);
      temp := new byte[data.Length];
      var x := Read2(data, g.hdr + 5);
      SavedInit(g, xCellSize, d, nFree, cells, free, data[..], i, i, cbrk, temp[..]);
      WriteCopy(temp, x, data[..], x, cbrk - x);
    }

    method PlaceCell(pAddr: nat, to: nat, temp: array<byte>, pc: nat, size: nat)
      requires temp != data && pAddr + 2 <= to && to + size <= data.Length && pc + size <= temp.Length
      modifies data
      ensures data[..] == OneMoved(old(data[..]), pAddr, to, temp[..], Span(pc, size))
    {
      WriteTwo(data, pAddr, to);
      WriteCopy(data, to, temp[..], pc, size);
    }

    /** The common tail of both paths. */
    method DefragmentOut(cbrk: nat)
      requires Holds(g, data[..]) && Gap(g, nCell) <= cbrk <= g.usable
      modifies data
      ensures data[..] == Compacted(g, old(data[..]), Gap(g, nCell), cbrk)
    {
      WriteTwo(data, g.hdr + 5, cbrk);
      data[g.hdr + 1] := 0;
      data[g.hdr + 2] := 0;
      WriteZero(data, Gap(g, nCell), cbrk - Gap(g, nCell));
    }

    /** The cells on the page in index order. */
    ghost function Cells(): seq<seq<byte>>
      reads this, data
      requires Valid()
    {
      CellsFit(g, xCellSize, data[..], nCell, nFree, cells, free);
      Contents(data[..], cells)
    }

    /** Set up a raw page so that it looks like a database page holding no entries. */
    method ZeroPage(flags: byte)
      requires g.Valid() && g.usable <= data.Length && Local(xCellSize)
      modifies this, data
      ensures Valid() && Cells() == [] && ovfl == [] && data[g.hdr] == flags
      ensures nFree == g.usable - g.CellOffset()
    {
      data[g.hdr] := flags;
      WriteZero(data, g.hdr + 1, 4);
      data[g.hdr + 7] := 0;
      WriteTwo(data, g.hdr + 5, g.usable);
      nFree, nCell, ovfl := g.usable - g.CellOffset(), 0, [];
      cells, free := [], [];
      EmptySound(g, xCellSize, data[..]);
    }

    /** Allocate nByte bytes of content area, defragmenting if that is what it takes. */
    method AllocateSpace(nByte: nat) returns (idx: nat)
      requires Valid() && 4 <= nByte && nByte + 2 <= nFree
      modifies data, `cells, `free
      ensures Space(g, data[..], cells + [Span(idx, nByte)], free)
      ensures Gap(g, nCell) + 2 <= Top(g, data[..]) <= idx && idx + nByte <= g.usable
      ensures Moved(g, old(data[..]), data[..], old(cells), cells)
      ensures SameHeader(g, old(data[..]), data[..])
    {
      ghost var d := data[..];
      var gap := Gap(g, nCell);
      ReadNode(g, d, cells, free, 0);
      var top := Read2(data, g.hdr + 5);
      if gap > top {
        if top == 0 && g.usable == 0x1_0000 {
          top := 0x1_0000;
        } else {
          assert false;  // SQLITE_CORRUPT
        }
      }
      if (data[g.hdr + 2] != 0 || data[g.hdr + 1] != 0) && gap + 2 <= top {
        idx := PageFindSlot(nByte, cells);
        FrameMoves(g, xCellSize, d, nCell, nFree, cells, old(free), data[..]);
        if idx != 0 {
          assert At(cells + [Span(idx, nByte)], |cells|) == Span(idx, nByte);
          return;
        }
        MovedOk(g, xCellSize, d, nCell, nFree, cells, old(free), data[..], free);
      } else {
        FrameSame(g, d, cells);
        FrameMoves(g, xCellSize, d, nCell, nFree, cells, free, d);
      }
      idx := AllocateFromGap(nByte, top, d, cells);
    }

    method AllocateFromGap(nByte: nat, top: nat, ghost d: seq<byte>, ghost z: seq<Span>) returns (idx: nat)
      requires Valid() && 4 <= nByte && nByte + 2 <= nFree && top == Top(g, data[..])
      requires Moved(g, d, data[..], z, cells) && SameHeader(g, d, data[..])
      modifies data, `cells, `free
      ensures Space(g, data[..], cells + [Span(idx, nByte)], free)
      ensures Gap(g, nCell) + 2 <= Top(g, data[..]) <= idx && idx + nByte <= g.usable
      ensures Moved(g, d, data[..], z, cells)
      ensures SameHeader(g, d, data[..])
    {
      hide Space, PageOk, Moved, SameHeader, Frame, Put2;
      ghost var d0, z0 := data[..], cells;
      PageParts(g, xCellSize, data[..], nCell, nFree, cells, free);
      var newTop := top;
      if Gap(g, nCell) + 2 + nByte > top {
        DefragmentPage(if nFree - (2 + nByte) < 4 then nFree - (2 + nByte) else 4);
        MovedTrans(g, d, d0, data[..], z, z0, cells);
        newTop := Get2NotZero(data[..], g.hdr + 5);
      }
      ghost var d1 := data[..];
      PageParts(g, xCellSize, data[..], nCell, nFree, cells, free);
      idx := newTop - nByte;
      GapSound(g, d1, cells, free, nByte);
      WriteTwo(data, g.hdr + 5, idx);
      FrameMoves(g, xCellSize, d1, nCell, nFree, cells, free, data[..]);
      MovedTrans(g, d, d1, data[..], z, cells, cells);
    }

    /** Make pCell the i-th cell of the page; iChild, when not zero, replaces its first four bytes.
        A cell that does not fit, or comes after one that did not, goes to the overflow list. */
    method InsertCell(i: nat, pCell: seq<byte>, iChild: nat)
      requires Valid() && 4 <= |pCell| && i <= nCell + |ovfl|
      requires xCellSize(Filled(pCell, iChild)) == |pCell|
      modifies this, data
      ensures Valid()
      ensures old(|ovfl| == 0 && |pCell| + 2 <= nFree) ==>
        && ovfl == [] && nCell == old(nCell) + 1 && nFree == old(nFree) - |pCell| - 2
        && Cells() == InsertAt(old(Cells()), i, Filled(pCell, iChild)) && StoredAs(pCell, iChild, Cells()[i])
        && SameButCount(g, old(data[..]), data[..])
      ensures !old(|ovfl| == 0 && |pCell| + 2 <= nFree) ==>
        && ovfl == old(ovfl) + [(i, Filled(pCell, iChild))] && StoredAs(pCell, iChild, ovfl[|ovfl| - 1].1)
        && unchanged(data) && nCell == old(nCell) && nFree == old(nFree) && cells == old(cells)
    {
      if |ovfl| != 0 || |pCell| + 2 > nFree {
        ovfl := ovfl + [(i, Filled(pCell, iChild))];
        return;
      }
      PlaceNew(i, pCell, iChild);
    }

    method PlaceNew(i: nat, pCell: seq<byte>, iChild: nat)
      requires Valid() && 4 <= |pCell| && i <= nCell && |pCell| + 2 <= nFree
      requires xCellSize(Filled(pCell, iChild)) == |pCell|
      modifies data, `cells, `free, `nFree, `nCell
      ensures Valid() && nCell == old(nCell) + 1 && nFree == old(nFree) - |pCell| - 2
      ensures Cells() == InsertAt(old(Cells()), i, Filled(pCell, iChild))
      ensures SameButCount(g, old(data[..]), data[..])
    {
      hide Put2, Copy, Filled, Inserted, Space;
      ReadNode(g, data[..], cells, free, 0);
      ghost var d, z0 := data[..], cells;
      var idx := AllocateSpace(|pCell|);
      ghost var d1, z1, z := data[..], cells, Span(idx, |pCell|);
      AllocatedOk(g, xCellSize, d, nFree, z0, old(free), d1, z1);
      InsertSound(g, xCellSize, d1, nFree, z1, free, i, z, Filled(pCell, iChild));
      InsertedCount(g, d, d1, nCell, i, z, Filled(pCell, iChild));
      WriteInserted(i, idx, pCell, iChild);
      nFree := nFree - (2 + |pCell|);
      nCell := nCell + 1;
      cells := InsertAt(z1, i, z);
    }

    /** The writes of insertCell(): cell, child pointer, pointer array, cell count. */
    method WriteInserted(i: nat, idx: nat, pCell: seq<byte>, iChild: nat)
      requires Holds(g, data[..]) && i <= nCell && 4 <= |pCell| && nCell + 1 < 0x1_0000 && idx < 0x1_0000
      requires Gap(g, nCell) + 2 <= idx && idx + |pCell| <= g.usable && Get2(data[..], g.hdr + 3) == nCell
      modifies data
      ensures data[..] == Inserted(g, old(data[..]), nCell, i, Span(idx, |pCell|), Filled(pCell, iChild))
    {
      hide Put2, Copy, Filled;
      PutCell(idx, pCell, iChild);
      var ins := g.CellOffset() + 2 * i;
      WriteCopy(data, ins + 2, data[..], ins, 2 * (nCell - i));
      WriteTwo(data, ins, idx);
      BumpCount();
    }

    method PutCell(idx: nat, pCell: seq<byte>, iChild: nat)
      requires 4 <= |pCell| && idx + |pCell| <= data.Length
      modifies data
      ensures data[..] == Copy(old(data[..]), idx, Filled(pCell, iChild), 0, |pCell|)
    {
      ghost var d := data[..];
      WriteCopy(data, idx, pCell, 0, |pCell|);
      if iChild != 0 {
        WriteFour(data, idx, iChild);
        FilledInPlace(d, idx, pCell, iChild);
      }
    }

    /** Increment the two-byte cell count, byte by byte. */
    method BumpCount()
      requires g.hdr + 5 <= data.Length && Get2(data[..], g.hdr + 3) == nCell && nCell + 1 < 0x1_0000
      modifies data
      ensures data[..] == Put2(old(data[..]), g.hdr + 3, nCell + 1)
    {
      if data[g.hdr + 4] == 255 {
        data[g.hdr + 4] := 0;
        data[g.hdr + 3] := data[g.hdr + 3] + 1;
      } else {
        data[g.hdr + 4] := data[g.hdr + 4] + 1;
      }
    }

    /** Remove the i-th cell, of sz bytes, from the page. */
    method DropCell(i: nat, sz: nat)
      requires Valid() && i < nCell && sz == |Cells()[i]|
      modifies this, data
      ensures Valid() && nCell == old(nCell) - 1 && nFree == old(nFree) + sz + 2
      ensures Cells() == RemoveAt(old(Cells()), i) && ovfl == old(ovfl)
      ensures SameButCount(g, old(data[..]), data[..])
    {
      hide Frame, Space, Sum, Dropped, PageOk, SameButCount, Merged, Place, Get2;
      ghost var d, z, f, nf := data[..], cells, free, nFree;
      PageParts(g, xCellSize, data[..], nCell, nFree, cells, free);
      CellAtPtr(g, xCellSize, d, nf, z, f, i);
      var ptr := g.CellOffset() + 2 * i;
      var pc := Read2(data, ptr);
      if pc + sz > g.usable {
        assert false;  // SQLITE_CORRUPT
      }
      ghost var k := FreeSpace(pc, sz, z, i);
      FinishDrop(i, d, f);
    }

    /** The end of dropCell(), when the space is released. */
    method FinishDrop(i: nat, ghost d: seq<byte>, ghost f: seq<Span>)
      requires i < |cells| == nCell && PageOk(g, xCellSize, d, nCell, nFree - cells[i].size, cells, f)
      requires Space(g, data[..], Without(cells, i), free) && Frame(g, d, data[..], Without(cells, i))
      requires Top(g, d) <= Top(g, data[..])
      modifies this, data
      ensures Valid() && nCell == old(nCell) - 1 && nFree == old(nFree) + 2 && ovfl == old(ovfl)
      ensures (forall x: nat | x < |old(cells)| :: At(old(cells), x).End() <= |d|)
      ensures Cells() == RemoveAt(Contents(d, old(cells)), i)
      ensures SameButCount(g, d, data[..])
    {
      hide Frame, Space, Sum, Dropped, PageOk, SameButCount, Get2, Get2NotZero;
      ghost var z, nf := cells, nFree - cells[i].size;
      PageParts(g, xCellSize, d, nCell, nf, z, f);
      SpaceParts(g, data[..], Without(z, i), free);
      DropSound(g, xCellSize, d, nf, z, f, data[..], free, i);
      DroppedCount(g, d, data[..], z, i);
      nCell := nCell - 1;
      if nCell == 0 {
        OnlyOne(z, i);
        ResetPage(d);
        assert RemoveAt(Contents(d, z), i) == [];
      } else {
        CloseUp(i);
        nFree := nFree + 2;
        cells := Without(z, i);
      }
    }

    /** The last cell has gone: nothing is left to keep track of. */
    method ResetPage(ghost d: seq<byte>)
      requires Holds(g, data[..]) && Local(xCellSize) && nCell == 0
      requires SameButCount(g, d, data[..])
      modifies data, `cells, `free, `nFree
      ensures Valid() && Cells() == [] && nFree == g.usable - g.CellOffset()
      ensures SameButCount(g, d, data[..])
    {
      ghost var d1 := data[..];
      WriteZero(data, g.hdr + 1, 4);
      data[g.hdr + 7] := 0;
      WriteTwo(data, g.hdr + 5, g.usable);
      nFree := g.usable - g.CellOffset();
      cells, free := [], [];
      EmptySound(g, xCellSize, data[..]);
      ResetCount(g, d, d1, data[..]);
    }

    method CloseUp(i: nat)
      requires Holds(g, data[..]) && i <= nCell && Gap(g, nCell) + 2 <= data.Length && nCell < 0x1_0000
      modifies data
      ensures data[..] == Dropped(g, old(data[..]), nCell, i)
    {
      var ptr := g.CellOffset() + 2 * i;
      WriteCopy(data, ptr, data[..], ptr + 2, 2 * (nCell - i));
      WriteTwo(data, g.hdr + 3, nCell);
    }
  }
}
