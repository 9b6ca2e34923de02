/** The online backup: an incremental copy of a database that may change meanwhile. */
module Backups {
  import opened Bytes
  import opened BackupCopy
  import Multiples

  /** The pages of the source database. */
  type Source = seq<seq<byte>>

  predicate SourceOk(z: Sizes, src: Source) {
    forall p <- src :: |p| == z.src
  }

  /** The source page with byte off. */
  function SrcPage(z: Sizes, off: nat): (p: nat)
    requires z.Valid()
    ensures p >= 1
  {
    off / z.src + 1
  }

  /** The position of byte off in its page. */
  function SrcRest(z: Sizes, off: nat): nat
    requires z.Valid()
  {
    off % z.src
  }

  function PageByte(src: Source, p: nat, r: nat): byte {
    if 1 <= p <= |src| && r < |src[p - 1]| then src[p - 1][r] else 0
  }

  function SrcByte(z: Sizes, src: Source, off: nat): byte
    requires z.Valid()
  {
    PageByte(src, SrcPage(z, off), SrcRest(z, off))
  }

  /** The destination has the byte of the source at off. */
  predicate Held(z: Sizes, src: Source, d: Pages, off: nat)
    requires z.Valid()
  {
    DestPage(z, off) <= d.n && ByteAt(z.dest, d, off) == SrcByte(z, src, off)
  }

  /** Byte off has been copied, if its page has. */
  predicate SameAt(z: Sizes, src: Source, d: Pages, next: nat, off: nat)
    requires z.Valid()
  {
    SrcPage(z, off) < next && SrcPage(z, off) <= |src| && SrcPage(z, off) != z.SrcPending()
    && DestPage(z, off) != z.DestPending() && !SizeField(off) ==>
      Held(z, src, d, off)
  }

  /** Every page of the source before page next is in the destination. */
  ghost predicate Synced(z: Sizes, src: Source, d: Pages, next: nat)
    requires z.Valid()
  {
    forall off: nat :: SameAt(z, src, d, next, off)
  }

  lemma InPage(z: Sizes, p: nat, off: nat)
    requires z.Valid() && p >= 1
    ensures SrcPage(z, off) == p <==> Start(z.src, p) <= off < Start(z.src, p) + z.src
    ensures SrcPage(z, off) == p ==> SrcRest(z, off) == off - Start(z.src, p) < z.src
  {
    hide Start;
    Located(z.src, off);
    if Start(z.src, p) <= off < Start(z.src, p) + z.src {
      Locate(z.src, p, off - Start(z.src, p));
    }
  }

  /** A page is copied to the destination, or copied again after a change of the source. */
  lemma PageSynced(z: Sizes, src: Source, src': Source, d: Pages, d': Pages, memory: bool, p: nat, update: bool,
                   lastPage: nat, get: nat -> Code, next: nat, next': nat)
    requires z.Valid() && SourceOk(z, src') && 1 <= p <= |src'| && Synced(z, src, d, next)
    requires OthersSame(z, src, src', p)
    requires next' == next || (next' == next + 1 && p == next)
    requires CopyPage(z, d, memory, p, src'[p - 1], update, lastPage, get) == Outcome(d', OK)
    ensures Synced(z, src', d', next')
  {
    hide ByteAt, SrcPage, SrcRest, CopiedAt, SameAt, CopyFrom, OthersSame;
    forall off: nat
      ensures SameAt(z, src', d', next', off)
    {
      assert SameAt(z, src, d, next, off);
      CopyPageCopies(z, d, memory, p, src'[p - 1], update, lastPage, get, off);
      SameAtCopied(z, src, src', d, d', p, next, next', off);
    }
  }

  /** Of two states of the source: the pages other than page p, and the pending-byte page, are the same. */
  ghost predicate OthersSame(z: Sizes, src: Source, src': Source, p: nat)
    requires z.Valid()
  {
    forall q: nat :: q != p && q != z.SrcPending() ==> PageKept(src, src', q)
  }

  lemma CopyPageCopies(z: Sizes, d: Pages, memory: bool, p: nat, data: seq<byte>, update: bool, lastPage: nat,
                       get: nat -> Code, off: nat)
    requires z.Valid() && p >= 1 && |data| == z.src
    requires CopyPage(z, d, memory, p, data, update, lastPage, get).rc == OK
    ensures CopiedAt(z, d, CopyPage(z, d, memory, p, data, update, lastPage, get).dest, p, 0, z.src, data, off)
  {
    hide CopiedAt, CopyFrom;
    AtZero(z);
    CopyFromCopies(z, d, p, 0, data, update, lastPage, get, off);
  }

  lemma SameAtCopied(z: Sizes, src: Source, src': Source, d: Pages, d': Pages, p: nat, next: nat, next': nat, off: nat)
    requires z.Valid() && SourceOk(z, src') && 1 <= p <= |src'| && SameAt(z, src, d, next, off)
    requires OthersSame(z, src, src', p)
    requires next' == next || (next' == next + 1 && p == next)
    requires |src'[p - 1]| == z.src && CopiedAt(z, d, d', p, 0, z.src, src'[p - 1], off)
    ensures SameAt(z, src', d', next', off)
  {
    hide ByteAt, Start, SrcPage, SrcRest, DestPage, Sizes.SrcPending, Sizes.DestPending, PageKept, SameAt;
    InPage(z, p, off);
    var q := SrcPage(z, off);
    if q == p {
      CopiedHere(z, src', d, d', p, next', off);
    } else {
      CopiedElsewhere(z, src, d, d', p, src'[p - 1], next, next', off);
      SameAtKept(z, src, src', d', next', off);
    }
  }

  lemma CopiedHere(z: Sizes, src: Source, d: Pages, d': Pages, p: nat, next: nat, off: nat)
    requires z.Valid() && 1 <= p <= |src| && |src[p - 1]| == z.src && SrcPage(z, off) == p
    requires CopiedAt(z, d, d', p, 0, z.src, src[p - 1], off)
    ensures SameAt(z, src, d', next, off)
  {
    hide ByteAt, Start, SrcPage, SrcRest, DestPage, Sizes.SrcPending, Sizes.DestPending;
    InPage(z, p, off);
  }

  lemma CopiedElsewhere(z: Sizes, src: Source, d: Pages, d': Pages, p: nat, data: seq<byte>, next: nat, next': nat,
                        off: nat)
    requires z.Valid() && p >= 1 && |data| == z.src && SrcPage(z, off) != p && SameAt(z, src, d, next, off)
    requires next' == next || (next' == next + 1 && p == next)
    requires CopiedAt(z, d, d', p, 0, z.src, data, off)
    ensures SameAt(z, src, d', next', off)
  {
    hide ByteAt, Start, SrcPage, SrcByte, DestPage, Sizes.SrcPending, Sizes.DestPending;
    InPage(z, p, off);
  }

  /** Page p of the source is as before. */
  predicate PageKept(src: Source, src': Source, p: nat) {
    1 <= p <= |src'| ==> p <= |src| && src'[p - 1] == src[p - 1]
  }

  lemma SameAtKept(z: Sizes, src: Source, src': Source, d: Pages, next: nat, off: nat)
    requires z.Valid() && SameAt(z, src, d, next, off)
    requires SrcPage(z, off) < next && SrcPage(z, off) != z.SrcPending() ==> PageKept(src, src', SrcPage(z, off))
    ensures SameAt(z, src', d, next, off)
  {
    hide ByteAt, SrcPage, SrcRest, DestPage, Sizes.SrcPending, Sizes.DestPending;
  }

  /** Changes of the source that the backup need not hear of: pages not yet copied, and truncation. */
  lemma StillSynced(z: Sizes, src: Source, src': Source, d: Pages, next: nat)
    requires z.Valid() && Synced(z, src, d, next)
    requires forall p: nat :: 1 <= p < next && p != z.SrcPending() ==> PageKept(src, src', p)
    ensures Synced(z, src', d, next)
  {
    hide SameAt, SrcPage, PageKept, Sizes.SrcPending;
    forall off: nat
      ensures SameAt(z, src', d, next, off)
    {
      assert SameAt(z, src, d, next, off);
      SameAtKept(z, src, src', d, next, off);
    }
  }

  lemma NoneSynced(z: Sizes, src: Source, d: Pages)
    requires z.Valid()
    ensures Synced(z, src, d, 1)
  {
    hide ByteAt, SrcPage, SrcRest, DestPage, Sizes.SrcPending, Sizes.DestPending;
  }

  lemma SyncedLess(z: Sizes, src: Source, d: Pages, next: nat, next': nat)
    requires z.Valid() && Synced(z, src, d, next) && next' <= next
    ensures Synced(z, src, d, next')
  {
    hide ByteAt, SrcPage, SrcRest, DestPage, Sizes.SrcPending, Sizes.DestPending;
    forall off: nat
      ensures SameAt(z, src, d, next', off)
    {
      assert SameAt(z, src, d, next, off);
    }
  }

  lemma PendingSynced(z: Sizes, src: Source, d: Pages, next: nat)
    requires z.Valid() && Synced(z, src, d, next) && next == z.SrcPending()
    ensures Synced(z, src, d, next + 1)
  {
    hide ByteAt, SrcPage, SrcRest, DestPage, Sizes.SrcPending, Sizes.DestPending;
    var next' := next + 1;
    forall off: nat
      ensures SameAt(z, src, d, next', off)
    {
      assert SameAt(z, src, d, next, off);
    }
  }

  // ---- one pass of the copying loop -----------------------------------------------------------------

  datatype Progress = Progress(dest: Pages, next: nat, rc: Code)

  /** One pass of the loop in sqlite3_backup_step(): the next page number advances even if the page
      could not be copied. */
  function Pass(z: Sizes, src: Source, memory: bool, c: Progress, srcGet: nat -> Code, destGet: nat -> Code): Progress
    requires z.Valid() && SourceOk(z, src) && 1 <= c.next <= |src|
  {
    if c.next == z.SrcPending() then c.(next := c.next + 1)
    else if srcGet(c.next) != OK then Progress(c.dest, c.next + 1, srcGet(c.next))
    else
      var r := CopyPage(z, c.dest, memory, c.next, src[c.next - 1], false, |src|, destGet);
      Progress(r.dest, c.next + 1, r.rc)
  }

  /** The error of a pass at page p. */
  function PageCode(z: Sizes, memory: bool, p: nat, srcGet: nat -> Code, destGet: nat -> Code): Code
    requires z.Valid() && p >= 1
  {
    AtZero(z);
    if p == z.SrcPending() then OK
    else if srcGet(p) != OK then srcGet(p)
    else CopyCode(z, memory, p, destGet)
  }

  /** The error of copying page p. */
  function CopyCode(z: Sizes, memory: bool, p: nat, destGet: nat -> Code): Code
    requires z.Valid() && p >= 1
  {
    AtZero(z);
    if z.src != z.dest && memory then READONLY else StopCode(z, p, Stop(z, p, 0, destGet), destGet)
  }

  /** Copying succeeds exactly if it need not change the page size of a memory database and every page of the
      destination that it needs, but for that of the pending byte, can be had. */
  lemma CopyCodeIs(z: Sizes, memory: bool, p: nat, destGet: nat -> Code)
    requires z.Valid() && p >= 1
    ensures CopyCode(z, memory, p, destGet) == OK <==>
      (z.src == z.dest || !memory) && forall k: nat :: k < z.src && RunStart(z, k) ==> !StopsAt(z, p, k, destGet)
  {
    AtZero(z);
    StopIsFirst(z, p, 0, destGet);
  }

  lemma CopyPageCode(z: Sizes, d: Pages, memory: bool, p: nat, data: seq<byte>, update: bool, lastPage: nat,
                     get: nat -> Code)
    requires z.Valid() && p >= 1 && |data| == z.src
    ensures CopyPage(z, d, memory, p, data, update, lastPage, get).rc == CopyCode(z, memory, p, get)
  {
    AtZero(z);
    CopyFromCopies(z, d, p, 0, data, update, lastPage, get, 0);
  }

  /** How much of page p is copied in a pass. */
  function Reached(z: Sizes, memory: bool, p: nat, srcGet: nat -> Code, destGet: nat -> Code): (s: nat)
    requires z.Valid() && p >= 1
    ensures s <= z.src
    ensures s == z.src <==> PageCode(z, memory, p, srcGet, destGet) == OK
  {
    AtZero(z);
    if p == z.SrcPending() then z.src
    else if srcGet(p) != OK || (z.src != z.dest && memory) then 0
    else Stop(z, p, 0, destGet)
  }

  /** A byte of page p from position s on is in the destination. */
  predicate RestAt(z: Sizes, src: Source, d: Pages, p: nat, s: nat, off: nat)
    requires z.Valid() && p >= 1
  {
    Start(z.src, p) + s <= off < Start(z.src, p) + z.src && DestPage(z, off) != z.DestPending() && !SizeField(off) ==>
      Held(z, src, d, off)
  }

  ghost predicate RestHeld(z: Sizes, src: Source, d: Pages, p: nat, s: nat)
    requires z.Valid() && p >= 1
  {
    forall off: nat :: RestAt(z, src, d, p, s, off)
  }

  /** After a pass, whatever its error, the copied pages are equal exactly if the bytes that were not
      copied were in the destination before; and all are copied exactly if the source page and every
      page of the destination that it needs could be had. */
  lemma PassLosesPage(z: Sizes, src: Source, memory: bool, c: Progress, srcGet: nat -> Code, destGet: nat -> Code)
    requires z.Valid() && SourceOk(z, src) && 1 <= c.next <= |src| && Synced(z, src, c.dest, c.next)
    ensures var c' := Pass(z, src, memory, c, srcGet, destGet);
      var s := Reached(z, memory, c.next, srcGet, destGet);
      && c'.next == c.next + 1
      && (c.next != z.SrcPending() ==> c'.rc == PageCode(z, memory, c.next, srcGet, destGet))
      && (Synced(z, src, c'.dest, c'.next) <==> RestHeld(z, src, c.dest, c.next, s))
      && (Synced(z, src, c'.dest, c'.next) <==> RestHeld(z, src, c'.dest, c.next, s))
  {
    hide SameAt, RestAt, Pass, Reached, PageCode, RestHeld, Sizes.SrcPending;
    if c.next == z.SrcPending() {
      PendingSynced(z, src, c.dest, c.next);
      PendingPass(z, src, memory, c, srcGet, destGet);
    } else {
      var c' := Pass(z, src, memory, c, srcGet, destGet);
      var s := Reached(z, memory, c.next, srcGet, destGet);
      var next := c.next + 1;
      forall off: nat
        ensures SameAt(z, src, c'.dest, next, off) <==> RestAt(z, src, c.dest, c.next, s, off)
        ensures SameAt(z, src, c'.dest, next, off) <==> RestAt(z, src, c'.dest, c.next, s, off)
      {
        assert SameAt(z, src, c.dest, c.next, off);
        PassAt(z, src, memory, c, srcGet, destGet, off);
      }
      PassCode(z, src, memory, c, srcGet, destGet);
      SyncedIsRest(z, src, c'.dest, c.dest, c.next, s);
      SyncedIsRest(z, src, c'.dest, c'.dest, c.next, s);
    }
  }

  lemma SyncedIsRest(z: Sizes, src: Source, d': Pages, d: Pages, p: nat, s: nat)
    requires z.Valid() && p >= 1
    requires forall off: nat :: SameAt(z, src, d', p + 1, off) <==> RestAt(z, src, d, p, s, off)
    ensures Synced(z, src, d', p + 1) <==> RestHeld(z, src, d, p, s)
  {
    hide SameAt, RestAt;
    if Synced(z, src, d', p + 1) {
      forall off: nat
        ensures RestAt(z, src, d, p, s, off)
      {
        assert SameAt(z, src, d', p + 1, off);
      }
    } else {
      var off: nat :| !SameAt(z, src, d', p + 1, off);
      assert !RestAt(z, src, d, p, s, off);
    }
  }

  lemma PendingPass(z: Sizes, src: Source, memory: bool, c: Progress, srcGet: nat -> Code, destGet: nat -> Code)
    requires z.Valid() && SourceOk(z, src) && 1 <= c.next <= |src| && c.next == z.SrcPending()
    ensures Pass(z, src, memory, c, srcGet, destGet) == c.(next := c.next + 1)
    ensures forall d: Pages :: RestHeld(z, src, d, c.next, Reached(z, memory, c.next, srcGet, destGet))
  {
    hide Held, Start, DestPage;
    forall d: Pages, off: nat
      ensures RestAt(z, src, d, c.next, z.src, off)
    {
    }
  }

  lemma PassCode(z: Sizes, src: Source, memory: bool, c: Progress, srcGet: nat -> Code, destGet: nat -> Code)
    requires z.Valid() && SourceOk(z, src) && 1 <= c.next <= |src| && c.next != z.SrcPending()
    ensures Pass(z, src, memory, c, srcGet, destGet).next == c.next + 1
    ensures Pass(z, src, memory, c, srcGet, destGet).rc == PageCode(z, memory, c.next, srcGet, destGet)
  {
    hide CopyFrom, Stop, StopCode;
    AtZero(z);
    CopyFromCopies(z, c.dest, c.next, 0, src[c.next - 1], false, |src|, destGet, 0);
  }

  lemma PassAt(z: Sizes, src: Source, memory: bool, c: Progress, srcGet: nat -> Code, destGet: nat -> Code, off: nat)
    requires z.Valid() && SourceOk(z, src) && 1 <= c.next <= |src| && c.next != z.SrcPending()
    requires SameAt(z, src, c.dest, c.next, off)
    ensures var c' := Pass(z, src, memory, c, srcGet, destGet);
      var s := Reached(z, memory, c.next, srcGet, destGet);
      && (SameAt(z, src, c'.dest, c.next + 1, off) <==> RestAt(z, src, c.dest, c.next, s, off))
      && (SameAt(z, src, c'.dest, c.next + 1, off) <==> RestAt(z, src, c'.dest, c.next, s, off))
  {
    hide CopyFrom, Stop, SameAt, RestAt, CopiedAt, StopCode;
    AtZero(z);
    var p, data := c.next, src[c.next - 1];
    DataSize(z, src, p);
    if srcGet(p) != OK || (z.src != z.dest && memory) {
      NothingCopied(z, c.dest, p, data, off);
      CopiedTo(z, src, c.dest, c.dest, p, 0, off);
    } else {
      var s := Stop(z, p, 0, destGet);
      var d' := CopyFrom(z, c.dest, p, 0, data, false, |src|, destGet).dest;
      CopyFromCopies(z, c.dest, p, 0, data, false, |src|, destGet, off);
      CopyFromPages(z, c.dest, p, 0, data, false, |src|, destGet);
      CopiedTo(z, src, c.dest, d', p, s, off);
    }
  }

  lemma NothingCopied(z: Sizes, d: Pages, p: nat, data: seq<byte>, off: nat)
    requires z.Valid() && p >= 1 && |data| == z.src
    ensures CopiedAt(z, d, d, p, 0, 0, data, off)
  {
  }

  lemma CopiedTo(z: Sizes, src: Source, d: Pages, d': Pages, p: nat, s: nat, off: nat)
    requires z.Valid() && SourceOk(z, src) && 1 <= p <= |src| && p != z.SrcPending() && s <= z.src
    requires SameAt(z, src, d, p, off) && |src[p - 1]| == z.src && CopiedAt(z, d, d', p, 0, s, src[p - 1], off)
    requires s < z.src && d'.n > d.n ==> d'.n < DestPage(z, Offset(z, p, s))
    ensures SameAt(z, src, d', p + 1, off) <==> RestAt(z, src, d, p, s, off)
    ensures SameAt(z, src, d', p + 1, off) <==> RestAt(z, src, d', p, s, off)
  {
    hide ByteAt, Start, SrcPage, SrcRest, DestPage, Sizes.SrcPending, Sizes.DestPending;
    InPage(z, p, off);
    if Offset(z, p, s) <= off {
      DestOrder(z, Offset(z, p, s), off);
    }
  }

  /** A pass that succeeds keeps the copied pages equal. */
  lemma PassSynced(z: Sizes, src: Source, memory: bool, c: Progress, srcGet: nat -> Code, destGet: nat -> Code)
    requires z.Valid() && SourceOk(z, src) && 1 <= c.next <= |src| && Synced(z, src, c.dest, c.next) && c.rc == OK
    ensures var c' := Pass(z, src, memory, c, srcGet, destGet); c'.rc == OK ==> Synced(z, src, c'.dest, c'.next)
  {
    hide SameAt, Pass, Reached, PageCode;
    PassLosesPage(z, src, memory, c, srcGet, destGet);
    if c.next == z.SrcPending() {
      PendingPass(z, src, memory, c, srcGet, destGet);
    } else if PageCode(z, memory, c.next, srcGet, destGet) == OK {
      NoRest(z, src, c.dest, c.next);
    }
  }

  lemma NoRest(z: Sizes, src: Source, d: Pages, p: nat)
    requires z.Valid() && p >= 1
    ensures RestHeld(z, src, d, p, z.src)
  {
    hide Held, Start, DestPage;
    forall off: nat
      ensures RestAt(z, src, d, p, z.src, off)
    {
    }
  }

  /** The pass at page p fails for good, or leaves the pages it went past equal. */
  ghost predicate PassKeeps(z: Sizes, src: Source, memory: bool, d: Pages, p: nat, srcGet: nat -> Code,
                            destGet: nat -> Code)
    requires z.Valid() && SourceOk(z, src) && 1 <= p <= |src|
  {
    var c := Pass(z, src, memory, Progress(d, p, OK), srcGet, destGet);
    Fatal(c.rc) || Synced(z, src, c.dest, c.next)
  }

  /** A pass is safe, for every source and destination, exactly if the first page that cannot be had,
      if there is one, fails with a fatal code, or the source page is not copied here at all: it lies
      on the pending-byte page of the destination. */
  lemma PassSafeExactly(z: Sizes, n: nat, memory: bool, p: nat, srcGet: nat -> Code, destGet: nat -> Code)
    requires z.Valid() && 1 <= p <= n
    ensures (forall src: Source, d: Pages :: SourceOk(z, src) && |src| == n && Synced(z, src, d, p) ==>
               PassKeeps(z, src, memory, d, p, srcGet, destGet))
      <==> PageCode(z, memory, p, srcGet, destGet) !in {BUSY, LOCKED} || OnPending(z, p)
  {
    hide Synced, Pass, PageCode, Reached, RestHeld, OnPending;
    forall src: Source, d: Pages | SourceOk(z, src) && |src| == n && Synced(z, src, d, p)
      ensures PageCode(z, memory, p, srcGet, destGet) !in {BUSY, LOCKED} || OnPending(z, p) ==>
          PassKeeps(z, src, memory, d, p, srcGet, destGet)
    {
      if PageCode(z, memory, p, srcGet, destGet) !in {BUSY, LOCKED} || OnPending(z, p) {
        PassSafe(z, src, memory, d, p, srcGet, destGet);
      }
    }
    if PageCode(z, memory, p, srcGet, destGet) in {BUSY, LOCKED} && !OnPending(z, p) {
      OnesSynced(z, n, p);
      OnesLost(z, n, OnesAt(z, n, p), Pages(map[], z.src * n), p, memory, srcGet, destGet);
    }
  }

  predicate OnPending(z: Sizes, p: nat)
    requires z.Valid() && p >= 1
  {
    DestPage(z, Offset(z, p, 0)) == z.DestPending()
  }

  lemma PassSafe(z: Sizes, src: Source, memory: bool, d: Pages, p: nat, srcGet: nat -> Code, destGet: nat -> Code)
    requires z.Valid() && SourceOk(z, src) && 1 <= p <= |src| && Synced(z, src, d, p)
    requires PageCode(z, memory, p, srcGet, destGet) !in {BUSY, LOCKED} || OnPending(z, p)
    ensures PassKeeps(z, src, memory, d, p, srcGet, destGet)
  {
    hide Synced, Pass, PageCode, Reached, RestHeld, OnPending;
    var c := Progress(d, p, OK);
    PassLosesPage(z, src, memory, c, srcGet, destGet);
    PassSynced(z, src, memory, c, srcGet, destGet);
    if p == z.SrcPending() {
      PendingPass(z, src, memory, c, srcGet, destGet);
    } else if OnPending(z, p) {
      NothingNeeded(z, src, d, p, Reached(z, memory, p, srcGet, destGet));
    }
  }

  lemma NothingNeeded(z: Sizes, src: Source, d: Pages, p: nat, s: nat)
    requires z.Valid() && p >= 1 && OnPending(z, p) && p != z.SrcPending()
    ensures RestHeld(z, src, d, p, s)
  {
    hide Held, Start, DestPage;
    AtZero(z);
    forall off: nat
      ensures RestAt(z, src, d, p, s, off)
    {
      if Start(z.src, p) + s <= off < Start(z.src, p) + z.src {
        PendingStart(z);
        OnDestPage(z, z.DestPending(), Offset(z, p, 0));
        if z.src > z.dest {
          Located(z.src, Start(z.src, p));
          Locate(z.src, p, 0);
          PendingIs(z, p);
        } else {
          RunOnPage(z, p, 0, off);
        }
      }
    }
  }

  /** A page of the source that is larger than the destination's pages and begins on the pending-byte
      page is the source's own pending-byte page. */
  lemma PendingIs(z: Sizes, p: nat)
    requires z.Valid() && p >= 1 && z.src > z.dest && z.pendingByte <= Start(z.src, p) < z.pendingByte + z.dest
    ensures p == z.SrcPending()
  {
    hide Start;
    PendingStart(z);
    if p < z.SrcPending() {
      StartLe(z.src, p, z.SrcPending());
    } else if p > z.SrcPending() {
      StartLe(z.src, z.SrcPending(), p);
    }
  }

  /** A source of n pages that is zero but for page p. */
  function OnesAt(z: Sizes, n: nat, p: nat): (src: Source)
    ensures SourceOk(z, src) && |src| == n
  {
    seq(n, i => seq(z.src, _ => if i + 1 == p then 1 else 0))
  }

  lemma OnesSynced(z: Sizes, n: nat, p: nat)
    requires z.Valid() && 1 <= p <= n
    ensures Synced(z, OnesAt(z, n, p), Pages(map[], z.src * n), p)
  {
    hide SrcRest, DestPage, Sizes.SrcPending, Sizes.DestPending, SrcPage, Start, OnesAt, Held;
    var src, d := OnesAt(z, n, p), Pages(map[], z.src * n);
    forall off: nat
      ensures SameAt(z, src, d, p, off)
    {
      if SrcPage(z, off) < p {
        ZeroHeld(z, n, p, off);
      }
    }
  }

  lemma ZeroHeld(z: Sizes, n: nat, p: nat, off: nat)
    requires z.Valid() && 1 <= p <= n && SrcPage(z, off) < p
    ensures Held(z, OnesAt(z, n, p), Pages(map[], z.src * n), off)
  {
    hide SrcRest, DestPage, Sizes.SrcPending, Sizes.DestPending, SrcPage, Start;
    InPage(z, SrcPage(z, off), off);
    PageOrder(z, n + 1, off);
    SizeIs(z, n);
    PageCount(z, off, z.src * n);
  }

  lemma PageCount(z: Sizes, off: nat, m: nat)
    requires z.Valid() && off < m
    ensures DestPage(z, off) <= m
  {
    QuotientLe(off, z.dest);
  }

  lemma QuotientLe(a: nat, d: nat)
    requires d > 0
    ensures a / d <= a
  {
    if a / d > a {
      Multiples.MulLe(a + 1, a / d, d);
      Multiples.MulLe(1, d, a + 1);
    }
  }

  /** The byte at which the copying of the page of ones stops is lost. */
  lemma OnesLost(z: Sizes, n: nat, src: Source, d: Pages, p: nat, memory: bool, srcGet: nat -> Code,
                 destGet: nat -> Code)
    requires z.Valid() && 1 <= p <= n && PageCode(z, memory, p, srcGet, destGet) in {BUSY, LOCKED} && !OnPending(z, p)
    requires SourceOk(z, src) && |src| == n && Synced(z, src, d, p)
    requires src == OnesAt(z, n, p) && d == Pages(map[], d.n) && d.n == z.src * n
    ensures !PassKeeps(z, src, memory, d, p, srcGet, destGet)
  {
    hide Synced, Pass, SrcRest, DestPage, SrcPage, OnesAt, Offset, PageCode, Stop, StopsAt, Start, Sizes.DestPending;
    var c := Progress(d, p, OK);
    PassLosesPage(z, src, memory, c, srcGet, destGet);
    StopsWhere(z, memory, p, srcGet, destGet);
    var s := Reached(z, memory, p, srcGet, destGet);
    OnesDiffer(z, n, p, s);
    assert !RestAt(z, src, d, p, s, Offset(z, p, s));
  }

  lemma OnesDiffer(z: Sizes, n: nat, p: nat, s: nat)
    requires z.Valid() && 1 <= p <= n && s < z.src && RunStart(z, s) && DestPage(z, Offset(z, p, s)) != z.DestPending()
    ensures !RestAt(z, OnesAt(z, n, p), Pages(map[], z.src * n), p, s, Offset(z, p, s))
  {
    hide SrcRest, DestPage, SrcPage, Start, Sizes.DestPending;
    InPage(z, p, Offset(z, p, s));
    NoSizeField(z, p, s);
  }

  lemma NoSizeField(z: Sizes, p: nat, s: nat)
    requires z.Valid() && p >= 1 && s < z.src && RunStart(z, s)
    ensures !SizeField(Offset(z, p, s))
  {
    if p > 1 {
      StartLe(z.src, 1, p);
    } else if z.src > z.dest && s < z.dest {
      SmallRest(s, z.dest);
    }
  }

  lemma StopsWhere(z: Sizes, memory: bool, p: nat, srcGet: nat -> Code, destGet: nat -> Code)
    requires z.Valid() && p >= 1 && PageCode(z, memory, p, srcGet, destGet) in {BUSY, LOCKED} && !OnPending(z, p)
    ensures p != z.SrcPending()
    ensures var s := Reached(z, memory, p, srcGet, destGet);
      s < z.src && RunStart(z, s) && DestPage(z, Offset(z, p, s)) != z.DestPending()
  {
    hide Stop, Offset, DestPage, RunStart;
    AtZero(z);
  }

  /** For example: a source of one page, when the page or its place in the destination is busy. The
      backup goes on to page 2 with nothing copied, and the next step finds nothing left to do. */
  lemma BusyPageIsLost()
    ensures var z := Sizes(512, 512, 0x4000_0000);
      var src: Source := [seq(512, _ => 1)];
      var c := Progress(Pages(map[], 0), 1, OK);
      && z.Valid() && SourceOk(z, src) && Synced(z, src, c.dest, 1)
      && Pass(z, src, false, c, _ => BUSY, _ => OK) == Progress(Pages(map[], 0), 2, BUSY)
      && Pass(z, src, false, c, _ => OK, _ => BUSY) == Progress(Pages(map[], 0), 2, BUSY)
      && !Synced(z, src, Pages(map[], 0), 2)
  {
    var z := Sizes(512, 512, 0x4000_0000);
    var src: Source := [seq(512, _ => 1)];
    NoneSynced(z, src, Pages(map[], 0));
    assert SrcPage(z, 0) == 1 && SrcRest(z, 0) == 0 && DestPage(z, 0) == 1;
    assert !SameAt(z, src, Pages(map[], 0), 2, 0);
  }

  /** Failures are fatal: no page of either file is ever found busy or locked. */
  ghost predicate FatalOnly(get: nat -> Code) {
    forall p: nat :: get(p) == OK || Fatal(get(p))
  }

  // ---- the end of a backup --------------------------------------------------------------------------

  /** Header fields that the backup writes itself: the file format versions, the size of the database
      and the schema cookie. */
  predicate Rewritten(off: nat) {
    off == 18 || off == 19 || SizeField(off) || 40 <= off < 44
  }

  /** The destination is a copy of the source. */
  ghost predicate Complete(z: Sizes, src: Source, d: Pages)
    requires z.Valid()
  {
    forall off: nat :: DoneAt(z, src, d, off)
  }

  predicate DoneAt(z: Sizes, src: Source, d: Pages, off: nat)
    requires z.Valid()
  {
    SrcPage(z, off) <= |src| && SrcPage(z, off) != z.SrcPending() && !Rewritten(off) ==>
      ByteAt(z.dest, d, off) == SrcByte(z, src, off)
  }

  /** Bytes of the destination's pending-byte page before offset upTo that hold source data. */
  predicate ExtraAt(z: Sizes, src: Source, d: Pages, upTo: nat, off: nat)
    requires z.Valid()
  {
    SrcPage(z, off) <= |src| && SrcPage(z, off) != z.SrcPending() && DestPage(z, off) == z.DestPending() &&
    off < upTo ==>
      ByteAt(z.dest, d, off) == SrcByte(z, src, off)
  }

  /** All that has been copied, and what the last loop of the backup has written so far. */
  ghost predicate Finishing(z: Sizes, src: Source, d: Pages, upTo: nat)
    requires z.Valid()
  {
    forall off: nat :: HeaderOrSame(z, src, d, off) && ExtraAt(z, src, d, upTo, off)
  }

  predicate HeaderOrSame(z: Sizes, src: Source, d: Pages, off: nat)
    requires z.Valid()
  {
    Rewritten(off) || SameAt(z, src, d, |src| + 1, off)
  }

  lemma PendingStart(z: Sizes)
    requires z.Valid()
    ensures Start(z.src, z.SrcPending()) == z.pendingByte == Start(z.dest, z.DestPending()) && z.DestPending() > 1
    ensures z.SrcPending() >= 1
  {
    if z.pendingByte < z.dest {
      SmallRest(z.pendingByte, z.dest);
    }
  }

  lemma OnDestPage(z: Sizes, i: nat, off: nat)
    requires z.Valid() && i >= 1
    ensures DestPage(z, off) == i <==> Start(z.dest, i) <= off < Start(z.dest, i) + z.dest
  {
    hide Start;
    Located(z.dest, off);
    if Start(z.dest, i) <= off < Start(z.dest, i) + z.dest {
      Locate(z.dest, i, off - Start(z.dest, i));
    }
  }

  lemma PastPending(z: Sizes, p: nat)
    requires p >= 1
    ensures Start(z.src, p + 1) == Start(z.src, p) + z.src
  {
  }

  lemma SizeIs(z: Sizes, n: nat)
    ensures Start(z.src, n + 1) == z.src * n
  {
  }

  /** Bytes of the source before page p are those before its start. */
  lemma PageOrder(z: Sizes, p: nat, off: nat)
    requires z.Valid() && p >= 1
    ensures SrcPage(z, off) < p <==> off < Start(z.src, p)
  {
    hide Start;
    InPage(z, SrcPage(z, off), off);
    if SrcPage(z, off) < p {
      StartLe(z.src, SrcPage(z, off), p);
    } else if SrcPage(z, off) > p {
      StartLe(z.src, p, SrcPage(z, off));
    }
  }

  /** Before the last loop: only the bytes on the destination's pending-byte page are missing. */
  lemma FinishStart(z: Sizes, src: Source, d: Pages, upTo: nat)
    requires z.Valid() && Synced(z, src, d, |src| + 1) && upTo == z.pendingByte + z.src
    ensures Finishing(z, src, d, upTo)
  {
    hide ByteAt, SrcPage, SrcRest, DestPage, Sizes.SrcPending, Sizes.DestPending, Start;
    PendingStart(z);
    forall off: nat
      ensures HeaderOrSame(z, src, d, off) && ExtraAt(z, src, d, upTo, off)
    {
      assert SameAt(z, src, d, |src| + 1, off);
      OnDestPage(z, z.DestPending(), off);
      InPage(z, z.SrcPending(), off);
    }
  }

  /** sqlite3OsWrite() writes to the file behind the pager. */
  function FileWritten(size: nat, d: Pages, i: nat, o: nat, data: seq<byte>, from: nat, n: nat): Pages
    requires o + n <= size && from + n <= |data|
  {
    Written(size, d, i, o, data, from, n).(n := d.n)
  }

  lemma CountApart(z: Sizes, d: Pages, n: nat, off: nat)
    requires z.Valid()
    ensures ByteAt(z.dest, d.(n := n), off) == ByteAt(z.dest, d, off)
  {
  }

  /** One pass of the last loop: source page p, which follows the pending-byte page, is written to
      the file at its offset. */
  lemma FinishPass(z: Sizes, src: Source, d: Pages, p: nat, off0: nat)
    requires z.Valid() && SourceOk(z, src) && z.src < z.dest && Finishing(z, src, d, off0)
    requires 1 <= p <= |src| && off0 == Start(z.src, p) && z.pendingByte <= off0 < z.pendingByte + z.dest
    ensures SrcPage(z, off0) == p && DestPage(z, off0) == z.DestPending() && off0 % z.dest + z.src <= z.dest
    ensures Finishing(z, src, FileWritten(z.dest, d, z.DestPending(), off0 % z.dest, src[p - 1], 0, z.src),
                      off0 + z.src)
  {
    hide ByteAt, SrcPage, SrcRest, Sizes.SrcPending, Start, Written, RunStart;
    PendingStart(z);
    OnDestPage(z, z.DestPending(), off0);
    InPage(z, p, off0);
    RunAt(z, p);
    var d1 := Written(z.dest, d, z.DestPending(), off0 % z.dest, src[p - 1], 0, z.src);
    var d' := FileWritten(z.dest, d, z.DestPending(), off0 % z.dest, src[p - 1], 0, z.src);
    var upTo' := off0 + z.src;
    forall off: nat
      ensures HeaderOrSame(z, src, d', off) && ExtraAt(z, src, d', upTo', off)
    {
      WrittenAt(z.dest, d, z.DestPending(), off0 % z.dest, src[p - 1], 0, z.src, off);
      CountApart(z, d1, d.n, off);
      assert HeaderOrSame(z, src, d, off) && ExtraAt(z, src, d, off0, off);
      InPage(z, p, off);
      OnDestPage(z, z.DestPending(), off);
    }
  }

  lemma RunAt(z: Sizes, p: nat)
    requires z.Valid() && z.src < z.dest && p >= 1
    ensures Start(z.src, p) % z.dest + z.src <= z.dest
    ensures Start(z.dest, DestPage(z, Start(z.src, p))) + Start(z.src, p) % z.dest == Start(z.src, p)
  {
    RunFits(z, p, 0);
  }

  /** Nothing is missing when the last loop ends. */
  lemma FinishDone(z: Sizes, src: Source, d: Pages, upTo: nat)
    requires z.Valid() && Finishing(z, src, d, upTo)
    requires z.src >= z.dest || upTo >= z.pendingByte + z.dest || upTo >= z.src * |src|
    ensures Complete(z, src, d)
  {
    hide ByteAt, SrcPage, SrcRest, DestPage, Sizes.SrcPending, Sizes.DestPending, Start;
    PendingStart(z);
    SizeIs(z, |src|);
    forall off: nat
      ensures DoneAt(z, src, d, off)
    {
      assert HeaderOrSame(z, src, d, off) && ExtraAt(z, src, d, upTo, off);
      OnDestPage(z, z.DestPending(), off);
      InPage(z, z.SrcPending(), off);
      PageOrder(z, |src| + 1, off);
    }
  }

  /** sqlite3BtreeUpdateMeta() for the schema cookie, and sqlite3BtreeSetVersion() in WAL mode. */
  function WithHeader(z: Sizes, d: Pages, cookie: nat, wal: bool): Pages
    requires z.Valid()
  {
    var page := Put4(PageOf(z.dest, d, 1), 40, cookie);
    PageWritten(d, 1, if wal then page[18 := 2][19 := 2] else page)
  }

  lemma HeaderWritten(z: Sizes, src: Source, d: Pages, cookie: nat, wal: bool)
    requires z.Valid()
    ensures forall off: nat ::
      Rewritten(off) || ByteAt(z.dest, WithHeader(z, d, cookie, wal), off) == ByteAt(z.dest, d, off)
  {
    forall off: nat | !Rewritten(off)
      ensures ByteAt(z.dest, WithHeader(z, d, cookie, wal), off) == ByteAt(z.dest, d, off)
    {
      if off < z.dest {
        FirstPage(z.dest, off);
      } else {
        NotFirst(z.dest, off);
      }
    }
  }

  lemma HeaderLonger(z: Sizes, d: Pages, cookie: nat, wal: bool)
    requires z.Valid()
    ensures WithHeader(z, d, cookie, wal).n == if d.n < 1 then 1 else d.n
  {
  }

  lemma HeaderKeepsComplete(z: Sizes, src: Source, d: Pages, cookie: nat, wal: bool, upTo: nat)
    requires z.Valid() && Finishing(z, src, d, upTo)
    ensures Finishing(z, src, WithHeader(z, d, cookie, wal), upTo)
  {
    HeaderWritten(z, src, d, cookie, wal);
    hide ByteAt, SrcPage, SrcRest, DestPage, Sizes.SrcPending, Sizes.DestPending, WithHeader;
    var d' := WithHeader(z, d, cookie, wal);
    forall off: nat
      ensures HeaderOrSame(z, src, d', off) && ExtraAt(z, src, d', upTo, off)
    {
      assert HeaderOrSame(z, src, d, off) && ExtraAt(z, src, d, upTo, off);
    }
  }

  /** nDestTruncate */
  function DestTruncate(z: Sizes, n: nat): int
    requires z.Valid()
  {
    if z.src < z.dest then
      var ratio := z.dest / z.src;
      RatioPositive(z);
      var t := (n + ratio - 1) / ratio;
      if t == z.DestPending() then t - 1 else t
    else n * (z.src / z.dest)
  }

  lemma RatioPositive(z: Sizes)
    requires z.Valid() && z.src < z.dest
    ensures z.dest / z.src > 0 && z.dest == z.dest / z.src * z.src
  {
    Multiple(z.dest, z.src);
  }

  /** The pages kept cover the source, unless its last page is on the destination's pending-byte page, and are no more
      than that; with larger source pages they are exactly as long. */
  lemma TruncateCovers(z: Sizes, n: nat)
    requires z.Valid() && n > 0
    ensures DestTruncate(z, n) > 0 && (DestTruncate(z, n) - 1) * z.dest < n * z.src
    ensures z.src < z.dest ==> DestTruncate(z, n) != z.DestPending()
    ensures z.src >= z.dest ==> DestTruncate(z, n) * z.dest == n * z.src
    ensures DestTruncate(z, n) * z.dest >= n * z.src ||
      (DestTruncate(z, n) == z.DestPending() - 1 && z.pendingByte <= n * z.src <= z.pendingByte + z.dest)
  {
    if z.src < z.dest {
      RatioPositive(z);
      RoundUp(n, z.dest / z.src, z.src, z.dest);
      PendingStart(z);
    } else {
      Multiple(z.src, z.dest);
      Multiples.MulLe(1, n, z.src / z.dest);
      assert n * (z.src / z.dest) * z.dest == n * (z.src / z.dest * z.dest);
    }
  }

  lemma RoundUp(n: nat, r: nat, s: nat, d: nat)
    requires r > 0 && s > 0 && d == r * s && n > 0
    ensures var t := (n + r - 1) / r; t >= 1 && (t - 1) * d < n * s <= t * d
  {
    var t, e := (n + r - 1) / r, (n + r - 1) % r;
    assert n + r - 1 == t * r + e;
    if t < 1 {
      Multiples.MulLe(t, 0, r);
    }
    assert n == (t - 1) * r + e + 1;
    Multiples.MulLe(n, t * r, s);
    Multiples.MulLe((t - 1) * r + 1, n, s);
    assert t * r * s == t * d;
    assert ((t - 1) * r + 1) * s == (t - 1) * (r * s) + s;
  }

  /** The size of the destination file after the backup: that of the source. Only if the source ends
      with its pending-byte page may that page, which holds no data, be missing. */
  predicate FinalSize(z: Sizes, n: nat, size: nat)
    requires z.Valid()
  {
    size == z.src * n || (z.src < z.dest && n == z.SrcPending() && size == z.src * (n - 1))
  }

  /** What the pager has written reaches the end of the source, unless its last page shares the
      pending-byte page of the destination. */
  lemma LastWritten(z: Sizes, src: Source, d: Pages, n: nat)
    requires z.Valid() && Synced(z, src, d, |src| + 1) && 1 <= n <= |src| && n != z.SrcPending() && z.src < z.dest
    ensures d.n * z.dest >= z.src * n || z.pendingByte < z.src * n <= z.pendingByte + z.dest
  {
    hide Held, SrcPage, DestPage, Start, Sizes.SrcPending, Sizes.DestPending;
    var off := Start(z.src, n) + z.src - 1;
    InPage(z, n, off);
    assert SameAt(z, src, d, |src| + 1, off);
    EndOf(z, n);
    if DestPage(z, off) == z.DestPending() {
      PendingStart(z);
      OnDestPage(z, z.DestPending(), off);
    } else {
      HeldWithin(z, src, d, off);
    }
  }

  lemma HeldWithin(z: Sizes, src: Source, d: Pages, off: nat)
    requires z.Valid() && Held(z, src, d, off)
    ensures off < d.n * z.dest
  {
    hide ByteAt, SrcByte, DestPage;
    Reaches(z, off, d.n);
  }

  lemma EndOf(z: Sizes, n: nat)
    requires n >= 1
    ensures Start(z.src, n) + z.src == z.src * n >= z.src
  {
    Multiples.MulLe(1, n, z.src);
  }

  lemma Reaches(z: Sizes, off: nat, m: nat)
    requires z.Valid() && DestPage(z, off) <= m
    ensures off < m * z.dest
  {
    Multiples.MulLe(off / z.dest + 1, m, z.dest);
  }

  /** The size of the file when the pager has written its pages, the last loop has written up to upTo,
      and the file has been cut off at the size of the source. */
  lemma SizeIsFinal(z: Sizes, src: Source, d: Pages, m: nat, upTo: nat, n: nat, size: nat)
    requires z.Valid() && Synced(z, src, d, |src| + 1) && z.src < z.dest && n == (if src == [] then 1 else |src|)
    requires d.n <= m && (src == [] ==> m >= 1)
    requires upTo > z.pendingByte && (upTo >= z.pendingByte + z.dest || upTo >= z.src * n)
    requires size == FileSize(z, m * z.dest, upTo, z.src * n)
    ensures FinalSize(z, n, size)
  {
    hide Synced, Sizes.SrcPending, Sizes.DestPending, FileSize, FinalSize;
    Multiples.MulLe(d.n, m, z.dest);
    if src == [] {
      Multiples.MulLe(1, m, z.dest);
      LongEnough(z, m * z.dest, upTo, n, size);
    } else if n != z.SrcPending() {
      LastWritten(z, src, d, n);
      if m * z.dest < z.src * n {
        PastLoop(z, n);
      }
      LongEnough(z, m * z.dest, upTo, n, size);
    } else {
      BeforePending(z, src, d);
      if m * z.dest > z.pendingByte {
        PageOrMore(z, m);
        LongEnough(z, m * z.dest, upTo, n, size);
      } else {
        ShortByPending(z, m * z.dest, upTo, n, size);
      }
    }
  }

  lemma LongEnough(z: Sizes, written: nat, upTo: nat, n: nat, size: nat)
    requires z.Valid() && size == FileSize(z, written, upTo, z.src * n)
    requires written >= z.src * n || upTo >= z.src * n > z.pendingByte + z.src
    ensures FinalSize(z, n, size)
  {
    hide Sizes.SrcPending;
  }

  lemma ShortByPending(z: Sizes, written: nat, upTo: nat, n: nat, size: nat)
    requires z.Valid() && size == FileSize(z, written, upTo, z.src * n) && z.src < z.dest && n == z.SrcPending()
    requires n >= 1
    requires written == z.pendingByte == z.src * (n - 1) && z.src * n == z.pendingByte + z.src
    ensures FinalSize(z, n, size)
  {
    hide Sizes.SrcPending;
  }

  /** The size of the file: what the pager has written, longer by what the loop has written. */
  function Longer(z: Sizes, written: nat, upTo: nat): nat {
    if upTo > z.pendingByte + z.src && upTo > written then upTo else written
  }

  /** The file cut off at the size of the source. */
  function FileSize(z: Sizes, written: nat, upTo: nat, iSize: nat): nat {
    if Longer(z, written, upTo) > iSize then iSize else Longer(z, written, upTo)
  }

  lemma PastLoop(z: Sizes, n: nat)
    requires z.Valid() && n != z.SrcPending() && z.src * n > z.pendingByte
    ensures z.src * n > z.pendingByte + z.src
  {
    hide Sizes.SrcPending;
    PendingStart(z);
    var p := z.SrcPending();
    assert z.pendingByte == (p - 1) * z.src;
    if n < p {
      Multiples.MulLe(n, p - 1, z.src);
    } else {
      Multiples.MulLe(p + 1, n, z.src);
    }
  }

  /** The pages before the pending-byte page of the source have reached the destination's. */
  lemma BeforePending(z: Sizes, src: Source, d: Pages)
    requires z.Valid() && Synced(z, src, d, |src| + 1) && z.src < z.dest && |src| == z.SrcPending()
    ensures d.n * z.dest >= z.pendingByte && z.src * (|src| - 1) == z.pendingByte
    ensures z.src * |src| == z.pendingByte + z.src
  {
    hide Synced, Sizes.SrcPending;
    PendingStart(z);
    var n := |src| - 1;
    assert z.pendingByte == n * z.src;
    LastWritten(z, src, d, n);
  }

  lemma PageOrMore(z: Sizes, m: nat)
    requires z.Valid() && m * z.dest > z.pendingByte
    ensures m * z.dest >= z.pendingByte + z.dest
  {
    hide Sizes.SrcPending;
    PendingStart(z);
    var p := z.DestPending();
    assert z.pendingByte == (p - 1) * z.dest;
    if m < p {
      Multiples.MulLe(m, p - 1, z.dest);
    } else {
      Multiples.MulLe(p, m, z.dest);
    }
  }

  // ---- the backup object ----------------------------------------------------------------------------

  /** A backup, together with the source database it reads. */
  /** A pass that copies page 1 sets the size field, and the others leave it. */
  lemma PassSize(z: Sizes, src: Source, memory: bool, c: Progress, p: nat, srcGet: nat -> Code, destGet: nat -> Code,
                 dest: Pages, code: Code)
    requires z.Valid() && SourceOk(z, src) && p == c.next && 1 <= p <= |src|
    requires if p == z.SrcPending() then dest == c.dest && code == OK
             else if srcGet(p) != OK then dest == c.dest && code == srcGet(p)
             else Outcome(dest, code) == CopyPage(z, c.dest, memory, p, src[p - 1], false, |src|, destGet)
    ensures code == OK && |src| < 0x1_0000_0000 && p == 1 ==> Field(z, dest, 28) == |src|
    ensures |src| < 0x1_0000_0000 && p > 1 ==> Field(z, dest, 28) == Field(z, c.dest, 28)
  {
    hide CopyFrom, Field;
    PendingPast(z);
    AtZero(z);
    if p != z.SrcPending() && srcGet(p) == OK && |src| < 0x1_0000_0000 {
      DataSize(z, src, p);
      CopyFromSize(z, c.dest, p, 0, src[p - 1], false, |src|, destGet);
    }
  }

  lemma PendingPast(z: Sizes)
    requires z.Valid()
    ensures z.SrcPending() > 1 && z.DestPending() > 1
  {
    WholeMultiple(z.pendingByte, z.src);
    WholeMultiple(z.pendingByte, z.dest);
  }

  /** The header fields that a backup sets itself at its end: the schema cookie, and in WAL mode the file format
      versions, which are otherwise those of the source. */
  ghost predicate HeaderSet(z: Sizes, src: Source, d: Pages, cookie: nat, wal: bool)
    requires z.Valid()
  {
    && (cookie < 0x1_0000_0000 ==> Field(z, d, 40) == cookie)
    && if wal then ByteAt(z.dest, d, 18) == 2 && ByteAt(z.dest, d, 19) == 2
       else SameAt(z, src, d, |src| + 1, 18) && SameAt(z, src, d, |src| + 1, 19)
  }

  lemma HeaderIsSet(z: Sizes, src: Source, d: Pages, cookie: nat, wal: bool)
    requires z.Valid() && Synced(z, src, d, |src| + 1)
    ensures HeaderSet(z, src, WithHeader(z, d, cookie, wal), cookie, wal)
    ensures Field(z, WithHeader(z, d, cookie, wal), 28) == Field(z, d, 28)
  {
    hide SrcPage, SrcRest, DestPage, Sizes.DestPending, Sizes.SrcPending;
    var page := PageOf(z.dest, d, 1);
    var d' := WithHeader(z, d, cookie, wal);
    var page' := PageOf(z.dest, d', 1);
    FirstPage(z.dest, 18);
    FirstPage(z.dest, 19);
    if cookie < 0x1_0000_0000 {
      Get4Put4(page, 40, cookie);
      assert forall q: nat :: 40 <= q < 44 ==> page'[q] == Put4(page, 40, cookie)[q];
    }
    assert forall q: nat :: 28 <= q < 32 ==> page'[q] == page[q];
    assert SameAt(z, src, d, |src| + 1, 18) && SameAt(z, src, d, |src| + 1, 19);
  }

  /** The header is on page 1. */
  lemma HeaderKept(z: Sizes, src: Source, d: Pages, d': Pages, cookie: nat, wal: bool)
    requires z.Valid() && HeaderSet(z, src, d, cookie, wal) && PageOf(z.dest, d', 1) == PageOf(z.dest, d, 1)
    requires d'.n >= 1
    ensures HeaderSet(z, src, d', cookie, wal) && Field(z, d', 28) == Field(z, d, 28)
  {
    hide SrcPage, SrcRest, Sizes.DestPending, Sizes.SrcPending, PageOf;
    FirstPage(z.dest, 18);
    FirstPage(z.dest, 19);
  }

  class Backup {
    const z: Sizes
    const memory: bool
    const wal: bool
    const cookie: nat
    const newDb: seq<byte>
    var src: Source
    var dest: Pages
    var size: nat
    var iNext: nat
    var rc: Code
    var bDestLocked: bool
    var isAttached: bool
    var nRemaining: int
    var nPagecount: int

    /** Unless the backup has failed or is done, every source page before iNext is in the destination,
        and if there is one the pager reports changes. */
    ghost predicate Valid()
      reads this
    {
      && z.Valid() && SourceOk(z, src) && iNext >= 1
      && (!Fatal(rc) ==> Synced(z, src, dest, iNext) && (iNext > 1 ==> isAttached))
    }

    constructor (z: Sizes, memory: bool, wal: bool, cookie: nat, newDb: seq<byte>, src: Source, dest: Pages)
      requires z.Valid() && SourceOk(z, src)
      ensures Valid() && iNext == 1 && rc == OK
    {
      this.z, this.memory, this.wal := z, memory, wal;
      this.cookie, this.newDb, this.src, this.dest := cookie, newDb, src, dest;
      size := dest.n * z.dest;
      iNext, rc, bDestLocked, isAttached, nRemaining, nPagecount := 1, OK, false, false, 0, 0;
      new;
      NoneSynced(z, src, dest);
    }

    /** The page after the last that a step can copy from page i on. */
    function Until(i: nat, nPage: int): nat
      reads this
    {
      if i > |src| then i else if nPage < 0 || i + nPage > |src| then |src| + 1 else i + nPage
    }

    /** A step comes to its copying loop. */
    ghost predicate Starts(writing: bool, begin: Code, lock: Code)
      reads this
    {
      !Fatal(rc) && !writing && begin == OK && (bDestLocked || lock == OK) && (wal ==> z.src == z.dest)
    }

    /** Pages i up to n can all be copied. */
    ghost predicate Copyable(i: nat, n: nat, srcGet: nat -> Code, destGet: nat -> Code)
      requires z.Valid() && i >= 1
    {
      forall p: nat :: i <= p < n ==> PageCode(z, memory, p, srcGet, destGet) == OK
    }

    /** sqlite3_backup_step(). The source may be in a write transaction; reading and locking may fail;
        and so may every page access and the commit. A step that ends with a busy or locked page keeps
        the backup sound exactly if the pager already reported changes and the rest of that page was in
        the destination. */
    method Step(nPage: int, writing: bool, begin: Code, lock: Code, srcGet: nat -> Code, destGet: nat -> Code,
                commit: Code)
      returns (code: Code)
      requires Valid() && begin != DONE && lock != DONE && commit != DONE && (commit == OK || Fatal(commit))
      requires forall p: nat :: srcGet(p) != DONE && destGet(p) != DONE
      modifies this
      ensures src == old(src) && code == rc && iNext >= old(iNext)
      ensures rc !in {BUSY, LOCKED} || iNext == old(iNext) ==> Valid()
      ensures rc in {BUSY, LOCKED} && iNext > old(iNext) ==>
        (Valid() <==> isAttached && RestHeld(z, src, dest, iNext - 1, Reached(z, memory, iNext - 1, srcGet, destGet)))
      ensures rc in {BUSY, LOCKED} ==> isAttached == old(isAttached)
      ensures FatalOnly(srcGet) && FatalOnly(destGet) ==> Valid()
      ensures Fatal(old(rc)) ==> rc == old(rc) && dest == old(dest) && iNext == old(iNext)
      ensures !Fatal(old(rc)) && rc == DONE ==>
        && Complete(z, src, dest) && iNext > |src| && FinalSize(z, if src == [] then 1 else |src|, size)
        && HeaderSet(z, src, dest, cookie + 1, wal)
      ensures !Fatal(old(rc)) && 0 < |src| < 0x1_0000_0000 && rc in {OK, DONE} ==>
        Field(z, dest, 28) == if old(iNext) == 1 < iNext then |src| else old(Field(z, dest, 28))
      ensures !Fatal(old(rc)) && rc == OK ==> nRemaining == |src| + 1 - iNext > 0
      ensures !Fatal(old(rc)) ==>
        && (writing ==> code == BUSY)
        && (!writing && begin != OK ==> code == begin)
        && (!writing && begin == OK && !old(bDestLocked) && lock != OK ==> code == lock)
      ensures !old(Starts(writing, begin, lock)) ==>
        dest == old(dest) && iNext == old(iNext) && isAttached == old(isAttached) && code != OK
      ensures !Fatal(old(rc)) && !writing && begin == OK && (old(bDestLocked) || lock == OK) ==>
        wal && z.src != z.dest ==> code == READONLY
      ensures old(Starts(writing, begin, lock)) ==>
        var n := Until(old(iNext), nPage);
        if Copyable(old(iNext), n, srcGet, destGet) then
          && iNext == n && nPagecount == |src| && nRemaining == |src| + 1 - n
          && code == if n <= |src| then OK else if commit == OK then DONE else commit
        else
          && old(iNext) < iNext <= n && code == PageCode(z, memory, iNext - 1, srcGet, destGet) != OK
          && Copyable(old(iNext), iNext - 1, srcGet, destGet)
      ensures bDestLocked == (old(bDestLocked) || (!Fatal(old(rc)) && !writing && begin == OK && lock == OK))
      ensures isAttached == (old(isAttached) || (old(Starts(writing, begin, lock)) && code == OK))
    {
      hide Synced, Complete, SourceOk, Pass, WithHeader, Finishing, RestHeld, Reached, FinalSize, PageCode, HeaderSet,
           Field;
      code := rc;
      if Fatal(code) {
        return;
      }
      code := StartStep(writing, begin, lock);
      code := CopyPages(nPage, code, srcGet, destGet);
      if iNext > old(iNext) {
        FatalPage(z, memory, iNext - 1, srcGet, destGet);
      }
      rc := EndStep(code, commit);
      code := rc;
    }

    /** The part of the step before the loop: reading and locking. */
    method StartStep(writing: bool, begin: Code, lock: Code) returns (code: Code)
      requires begin != DONE && lock != DONE && !Fatal(rc)
      modifies `bDestLocked
      ensures code != DONE && (code == OK <==> old(Starts(writing, begin, lock)))
      ensures writing ==> code == BUSY
      ensures !writing && begin != OK ==> code == begin
      ensures !writing && begin == OK && !old(bDestLocked) && lock != OK ==> code == lock
      ensures !writing && begin == OK && (old(bDestLocked) || lock == OK) && wal && z.src != z.dest ==> code == READONLY
      ensures bDestLocked == (old(bDestLocked) || (!writing && begin == OK && lock == OK))
    {
      code := if writing then BUSY else OK;
      if code == OK {
        code := begin;
      }
      if code == OK && !bDestLocked {
        code := lock;
        if code == OK {
          bDestLocked := true;
        }
      }
      if code == OK && wal && z.src != z.dest {
        code := READONLY;
      }
    }

    /** The part after the loop: what remains is counted; the backup is attached, or ends. */
    method EndStep(code0: Code, commit: Code) returns (code: Code)
      requires z.Valid() && SourceOk(z, src) && code0 != DONE && commit != DONE && (commit == OK || Fatal(commit))
      requires code0 == OK ==> iNext >= 1 && Synced(z, src, dest, iNext)
      modifies `dest, `size, `nPagecount, `nRemaining, `isAttached
      ensures code0 != OK ==> code == code0 && dest == old(dest) && isAttached == old(isAttached)
      ensures code0 == OK ==> nPagecount == |src| && nRemaining == |src| + 1 - iNext
      ensures code0 == OK ==> code == if iNext <= |src| then OK else if commit == OK then DONE else commit
      ensures code0 == OK ==> isAttached == (old(isAttached) || code == OK)
      ensures code0 == OK && iNext <= |src| ==> dest == old(dest)
      ensures code0 == OK && code == DONE ==>
        && Complete(z, src, dest) && FinalSize(z, if src == [] then 1 else |src|, size)
        && HeaderSet(z, src, dest, cookie + 1, wal) && (src != [] ==> Field(z, dest, 28) == old(Field(z, dest, 28)))
    {
      hide Synced, Complete, SourceOk, FinalSize, HeaderSet, Field;
      code := code0;
      if code == OK {
        nPagecount := |src|;
        nRemaining := |src| + 1 - iNext;
        if iNext > |src| {
          code := DONE;
        } else if !isAttached {
          isAttached := true;
        }
      }
      if code == DONE {
        SyncedLess(z, src, dest, iNext, |src| + 1);
        code := Finish(commit);
      }
    }

    /** The copying loop: at most nPage pages, all of them if nPage is negative. It ends before that
        only at a page that cannot be had, and then what lies before iNext is equal exactly if the rest
        of that page was in the destination. */
    method CopyPages(nPage: int, code0: Code, srcGet: nat -> Code, destGet: nat -> Code) returns (code: Code)
      requires z.Valid() && SourceOk(z, src) && iNext >= 1 && Synced(z, src, dest, iNext) && code0 != DONE
      requires forall p: nat :: srcGet(p) != DONE && destGet(p) != DONE
      modifies `dest, `iNext
      ensures code != DONE && iNext >= old(iNext)
      ensures code0 != OK ==> code == code0 && iNext == old(iNext) && dest == old(dest)
      ensures code == OK || iNext == old(iNext) ==> Synced(z, src, dest, iNext)
      ensures code0 == OK ==> iNext <= Until(old(iNext), nPage) && (code == OK ==> iNext == Until(old(iNext), nPage))
      ensures src == old(src) && (iNext == old(iNext) ==> dest == old(dest))
      ensures |src| < 0x1_0000_0000 && old(iNext) == 1 < iNext && code == OK ==> Field(z, dest, 28) == |src|
      ensures |src| < 0x1_0000_0000 && old(iNext) > 1 ==> Field(z, dest, 28) == old(Field(z, dest, 28))
      ensures code0 == OK && code != OK ==>
        iNext > old(iNext) && code == PageCode(z, memory, iNext - 1, srcGet, destGet)
      ensures code0 == OK && code != OK ==>
        (Synced(z, src, dest, iNext) <==>
          RestHeld(z, src, dest, iNext - 1, Reached(z, memory, iNext - 1, srcGet, destGet)))
      ensures forall p: nat :: old(iNext) <= p < iNext && (p + 1 < iNext || code == OK) ==>
        PageCode(z, memory, p, srcGet, destGet) == OK
    {
      hide Synced, SourceOk, Pass, RestHeld, Reached, PageCode, Field;
      code := code0;
      var ii := 0;
      while (nPage < 0 || ii < nPage) && iNext <= |src| && code == OK
        invariant if iNext == old(iNext) then dest == old(dest) else iNext <= |src| + 1
        invariant iNext >= old(iNext) && code != DONE && ii == iNext - old(iNext)
        invariant (nPage < 0 || ii <= nPage || ii == 0)
        invariant code0 != OK ==> code == code0 && iNext == old(iNext) && dest == old(dest)
        invariant code == OK || iNext == old(iNext) ==> Synced(z, src, dest, iNext)
        invariant code0 == OK && code != OK ==>
          iNext > old(iNext) && code == PageCode(z, memory, iNext - 1, srcGet, destGet)
        invariant code0 == OK && code != OK ==>
          (Synced(z, src, dest, iNext) <==>
            RestHeld(z, src, dest, iNext - 1, Reached(z, memory, iNext - 1, srcGet, destGet)))
        invariant forall p: nat :: old(iNext) <= p < iNext && (p + 1 < iNext || code == OK) ==>
          PageCode(z, memory, p, srcGet, destGet) == OK
        invariant |src| < 0x1_0000_0000 && old(iNext) == 1 < iNext && code == OK ==> Field(z, dest, 28) == |src|
        invariant |src| < 0x1_0000_0000 && old(iNext) > 1 ==> Field(z, dest, 28) == old(Field(z, dest, 28))
        decreases |src| + 1 - iNext, code == OK
      {
        ghost var c := Progress(dest, iNext, OK);
        if iNext != z.SrcPending() {
          code := srcGet(iNext);
          if code == OK {
            code := BackupOnePage(iNext, false, destGet);
          }
        }
        iNext := iNext + 1;
        PassSize(z, src, memory, c, iNext - 1, srcGet, destGet, dest, code);
        PassIs(z, src, memory, c, srcGet, destGet, Progress(dest, iNext, code));
        PassLosesPage(z, src, memory, c, srcGet, destGet);
        PassSynced(z, src, memory, c, srcGet, destGet);
        ii := ii + 1;
      }
    }

    /** backupOnePage(), for the present content of source page p. */
    method BackupOnePage(p: nat, update: bool, get: nat -> Code) returns (code: Code)
      requires z.Valid() && SourceOk(z, src) && 1 <= p <= |src|
      modifies `dest
      ensures Outcome(dest, code) == CopyPage(z, old(dest), memory, p, src[p - 1], update, |src|, get)
    {
      hide CopyFrom, RunCopied, WithSize, RunStart, DestPage, Offset;
      var data := src[p - 1];
      AtZero(z);
      DataSize(z, src, p);
      code := OK;
      if z.src != z.dest && memory {
        code := READONLY;
        return;
      }
      var j: nat := 0;
      while code == OK && j < z.src
        invariant RunStart(z, j)
        invariant CopyFrom(z, old(dest), p, 0, data, update, |src|, get) ==
          if code == OK then CopyFrom(z, dest, p, j, data, update, |src|, get) else Outcome(dest, code)
        decreases code == OK, z.src - j
      {
        CopyFromStep(z, dest, p, j, data, update, |src|, get);
        var i := DestPage(z, Offset(z, p, j));
        if i != z.DestPending() {
          code := get(i);
          if code == OK {
            dest := RunCopied(z, dest, p, j, data);
            if Offset(z, p, j) == 0 && !update {
              dest := WithSize(dest, z, |src|);
            }
          }
        }
        if code == OK {
          j := j + z.dest;
        }
      }
      if code == OK {
        CopyFromEnd(z, dest, p, j, data, update, |src|, get);
      }
    }

    /** The commit at the end: the header is completed, source pages that share the destination's
        pending-byte page are written to the file directly, and the file is cut off. */
    method Finish(commit: Code) returns (code: Code)
      requires z.Valid() && SourceOk(z, src) && Synced(z, src, dest, |src| + 1) && (commit == OK || Fatal(commit))
      requires commit != DONE
      modifies `dest, `size
      ensures commit != OK ==> code == commit && dest == old(dest) && size == old(size)
      ensures commit == OK ==>
        code == DONE && Complete(z, src, dest) && FinalSize(z, if src == [] then 1 else |src|, size)
      ensures commit == OK ==> HeaderSet(z, src, dest, cookie + 1, wal)
      ensures commit == OK && src != [] ==> Field(z, dest, 28) == Field(z, old(dest), 28)
    {
      hide HeaderSet, Field, Synced, Complete, WithHeader, Finishing, FinalSize, DestTruncate, Sizes.DestPending;
      if commit != OK {
        return commit;
      }
      var nSrcPage := if src == [] then 1 else |src|;
      ghost var d0 := PutHeader();
      ghost var d1 := dest;
      CutOff(nSrcPage, d0);
      HeaderKept(z, src, d1, dest, cookie + 1, wal);
      code := DONE;
    }

    /** A new database if the source is empty; then the schema cookie and the file format versions. */
    method PutHeader() returns (ghost d0: Pages)
      requires z.Valid() && SourceOk(z, src) && Synced(z, src, dest, |src| + 1)
      modifies `dest
      ensures Synced(z, src, d0, |src| + 1) && dest.n == (if d0.n < 1 then 1 else d0.n)
      ensures Finishing(z, src, dest, z.pendingByte + z.src) && HeaderSet(z, src, dest, cookie + 1, wal)
      ensures src != [] ==> Field(z, dest, 28) == Field(z, old(dest), 28)
    {
      hide HeaderSet, Field, Synced, WithHeader, Finishing, PageOf;
      if |src| == 0 && dest.n == 0 {
        NewDbSynced(z, src, dest, newDb);
        dest := PageWritten(dest, 1, newDb);
      }
      d0 := dest;
      FinishStart(z, src, dest, z.pendingByte + z.src);
      HeaderKeepsComplete(z, src, dest, cookie + 1, wal, z.pendingByte + z.src);
      HeaderIsSet(z, src, dest, cookie + 1, wal);
      HeaderLonger(z, d0, cookie + 1, wal);
      dest := WithHeader(z, dest, cookie + 1, wal);
    }

    /** What the pages that share the pending-byte page of the destination need, and the truncation. */
    method CutOff(nSrcPage: nat, ghost d0: Pages)
      requires z.Valid() && SourceOk(z, src) && nSrcPage == (if src == [] then 1 else |src|)
      requires Synced(z, src, d0, |src| + 1) && dest.n == (if d0.n < 1 then 1 else d0.n)
      requires Finishing(z, src, dest, z.pendingByte + z.src)
      modifies `dest, `size
      ensures Complete(z, src, dest) && FinalSize(z, nSrcPage, size)
      ensures PageOf(z.dest, dest, 1) == PageOf(z.dest, old(dest), 1) && dest.n >= 1
    {
      hide Synced, Complete, Finishing, Sizes.SrcPending, Sizes.DestPending, Start, Written, FinalSize, DestTruncate,
           HeaderOrSame;
      PendingStart(z);
      ghost var upTo := z.pendingByte + z.src;
      var nDestTruncate := DestTruncate(z, nSrcPage);
      TruncateCovers(z, nSrcPage);
      if z.src < z.dest {
        ghost var m := dest.n;
        upTo := WriteExtra(nSrcPage);
        SizeIsFinal(z, src, d0, m, upTo, nSrcPage, size);
        FinishDone(z, src, dest, upTo);
      } else {
        FinishDone(z, src, dest, upTo);
        CompleteApart(z, src, dest, nDestTruncate);
        dest := dest.(n := nDestTruncate);
        size := nDestTruncate * z.dest;
        SizeExact(z, nSrcPage, size);
      }
    }

    /** One source page is written to the file at its offset. */
    method WriteOne(ghost p: nat, iOff: nat)
      requires z.Valid() && SourceOk(z, src) && z.src < z.dest && Finishing(z, src, dest, iOff)
      requires 1 <= p <= |src| && iOff == Start(z.src, p) && z.pendingByte <= iOff < z.pendingByte + z.dest
      modifies `dest, `size
      ensures Finishing(z, src, dest, iOff + z.src) && dest.n == old(dest.n)
      ensures PageOf(z.dest, dest, 1) == PageOf(z.dest, old(dest), 1)
      ensures size == if old(size) < iOff + z.src then iOff + z.src else old(size)
    {
      hide Finishing, Sizes.SrcPending, Sizes.DestPending, Start;
      PendingPast(z);
      FinishPass(z, src, dest, p, iOff);
      var iSrcPg := SrcPage(z, iOff);
      dest := FileWritten(z.dest, dest, DestPage(z, iOff), iOff % z.dest, src[iSrcPg - 1], 0, z.src);
      if size < iOff + z.src {
        size := iOff + z.src;
      }
    }

    /** The source pages that share the destination's pending-byte page are written to the file, which
        is then cut off at the size of the source. */
    method WriteExtra(nSrcPage: nat) returns (ghost upTo: nat)
      requires z.Valid() && SourceOk(z, src) && z.src < z.dest && nSrcPage == (if src == [] then 1 else |src|)
      requires Finishing(z, src, dest, z.pendingByte + z.src)
      modifies `dest, `size
      ensures Finishing(z, src, dest, upTo) && dest.n == old(dest.n)
      ensures upTo > z.pendingByte && (upTo >= z.pendingByte + z.dest || upTo >= z.src * nSrcPage)
      ensures PageOf(z.dest, dest, 1) == PageOf(z.dest, old(dest), 1)
      ensures size == FileSize(z, old(dest.n) * z.dest, upTo, z.src * nSrcPage)
    {
      hide Finishing, Sizes.SrcPending, Sizes.DestPending, Start, Written, PageOf;
      PendingStart(z);
      size := dest.n * z.dest;
      ghost var written := size;
      var iSize := z.src * nSrcPage;
      var iEnd := if z.pendingByte + z.dest < iSize then z.pendingByte + z.dest else iSize;
      var iOff := z.pendingByte + z.src;
      upTo := iOff;
      ghost var p := z.SrcPending() + 1;
      PastPending(z, z.SrcPending());
      while iOff < iEnd
        invariant p >= 1 && iOff == Start(z.src, p) >= z.pendingByte + z.src && upTo == iOff
        invariant Finishing(z, src, dest, upTo) && PageOf(z.dest, dest, 1) == PageOf(z.dest, old(dest), 1)
        invariant size == Longer(z, written, upTo) && dest.n == old(dest.n)
        decreases iEnd - iOff
      {
        LastRead(z, src, nSrcPage, p, iOff);
        WriteOne(p, iOff);
        PastPending(z, p);
        p := p + 1;
        iOff := iOff + z.src;
        upTo := iOff;
      }
      if size > iSize {
        size := iSize;
      }
    }

    /** The source pager writes page i: an old page is replaced, or the file grows. A file never grows
        to end with its pending-byte page, so that there it becomes longer by two pages. If the backup
        is attached it is told. */
    method SourceWrite(i: nat, data: seq<byte>, destGet: nat -> Code)
      requires Valid() && 1 <= i && i != z.SrcPending() && |data| == z.src && FatalOnly(destGet)
      requires i <= |src| + 1 || (i == |src| + 2 && |src| + 1 == z.SrcPending())
      modifies this
      ensures Valid() && src == SourceWritten(z, old(src), i, data)
      ensures iNext == old(iNext) && isAttached == old(isAttached)
      ensures Fatal(old(rc)) || !isAttached || i >= iNext ==> rc == old(rc) && dest == old(dest)
      ensures !Fatal(old(rc)) && isAttached && i < iNext ==>
        rc == if CopyCode(z, memory, i, destGet) == OK then old(rc) else CopyCode(z, memory, i, destGet)
    {
      hide Synced, CopyPage, OthersSame, CopyCode;
      ghost var src0, dest0 := src, dest;
      src := SourceWritten(z, src, i, data);
      WriteOk(z, src0, src, i, data);
      if isAttached && !Fatal(rc) && i < iNext {
        var code := BackupOnePage(i, true, destGet);
        CopyPageCode(z, dest0, memory, i, data, true, |src|, destGet);
        if code != OK {
          UpdateFatal(z, dest0, memory, i, data, |src|, destGet);
          rc := code;
        } else {
          PageSynced(z, src0, src, dest0, dest, memory, i, true, |src|, destGet, iNext, iNext);
        }
      } else if !Fatal(rc) {
        WriteUnseen(z, src0, src, dest, i, iNext);
      }
    }

    /** The source becomes shorter. */
    method SourceTruncate(n: nat)
      requires Valid() && n <= |src|
      modifies `src
      ensures Valid() && src == old(src)[..n]
    {
      hide Synced;
      ghost var src0 := src;
      src := src[..n];
      if !Fatal(rc) {
        StillSynced(z, src0, src, dest, iNext);
      }
    }

    /** sqlite3BackupRestart() */
    method Restart()
      requires Valid()
      modifies `iNext
      ensures Valid() && iNext == 1
    {
      iNext := 1;
      NoneSynced(z, src, dest);
    }
  }

  lemma DataSize(z: Sizes, src: Source, p: nat)
    requires SourceOk(z, src) && 1 <= p <= |src|
    ensures |src[p - 1]| == z.src
  {
  }

  lemma FatalPage(z: Sizes, memory: bool, p: nat, srcGet: nat -> Code, destGet: nat -> Code)
    requires z.Valid() && p >= 1
    ensures FatalOnly(srcGet) && FatalOnly(destGet) ==> PageCode(z, memory, p, srcGet, destGet) !in {BUSY, LOCKED}
  {
    hide Stop, DestPage, Offset, Sizes.SrcPending;
    AtZero(z);
  }

  lemma NewDbSynced(z: Sizes, src: Source, d: Pages, newDb: seq<byte>)
    requires z.Valid() && src == []
    ensures Synced(z, src, PageWritten(d, 1, newDb), 1)
  {
    NoneSynced(z, src, PageWritten(d, 1, newDb));
  }

  lemma LastRead(z: Sizes, src: Source, nSrcPage: nat, p: nat, iOff: nat)
    requires z.Valid() && p >= 1 && iOff == Start(z.src, p) && z.pendingByte < iOff < z.src * nSrcPage
    requires nSrcPage == if src == [] then 1 else |src|
    ensures p <= |src|
  {
    hide Start;
    SizeIs(z, nSrcPage);
    Before(z, p, nSrcPage + 1, iOff);
    if p == 1 {
      StartIs(z.src, p);
    }
  }

  lemma CompleteApart(z: Sizes, src: Source, d: Pages, n: nat)
    requires z.Valid() && Complete(z, src, d)
    ensures Complete(z, src, d.(n := n))
  {
    hide ByteAt, SrcPage, SrcRest, Sizes.SrcPending;
    var d' := d.(n := n);
    forall off: nat
      ensures DoneAt(z, src, d', off)
    {
      assert DoneAt(z, src, d, off);
      CountApart(z, d, n, off);
    }
  }

  lemma SizeExact(z: Sizes, n: nat, size: nat)
    requires z.Valid() && size == n * z.src
    ensures FinalSize(z, n, size)
  {
  }

  /** The source after page i has been written. */
  function SourceWritten(z: Sizes, src: Source, i: nat, data: seq<byte>): (r: Source)
    requires 1 <= i <= |src| + 2
    ensures |r| == if i <= |src| then |src| else i
  {
    if i <= |src| then src[i - 1 := data]
    else if i == |src| + 1 then src + [data]
    else src + [seq(z.src, _ => 0), data]
  }

  lemma WriteUnseen(z: Sizes, src: Source, src': Source, d: Pages, i: nat, next: nat)
    requires z.Valid() && Synced(z, src, d, next) && OthersSame(z, src, src', i) && i >= next
    ensures Synced(z, src', d, next)
  {
    hide Synced, PageKept, Sizes.SrcPending;
    StillSynced(z, src, src', d, next);
  }

  lemma CopyFromEnd(z: Sizes, d: Pages, p: nat, j: nat, data: seq<byte>, update: bool, lastPage: nat, get: nat -> Code)
    requires z.Valid() && p >= 1 && |data| == z.src && RunStart(z, j) && j >= z.src
    ensures CopyFrom(z, d, p, j, data, update, lastPage, get) == Outcome(d, OK)
  {
  }

  lemma CopyFromStep(z: Sizes, d: Pages, p: nat, j: nat, data: seq<byte>, update: bool, lastPage: nat, get: nat -> Code)
    requires z.Valid() && p >= 1 && |data| == z.src && RunStart(z, j) && j < z.src
    ensures RunStart(z, j + z.dest)
    ensures var i := DestPage(z, Offset(z, p, j));
      var d1 := RunCopied(z, d, p, j, data);
      CopyFrom(z, d, p, j, data, update, lastPage, get) ==
        if i == z.DestPending() then CopyFrom(z, d, p, j + z.dest, data, update, lastPage, get)
        else if get(i) != OK then Outcome(d, get(i))
        else if Offset(z, p, j) == 0 && !update then
          CopyFrom(z, WithSize(d1, z, lastPage), p, j + z.dest, data, update, lastPage, get)
        else CopyFrom(z, d1, p, j + z.dest, data, update, lastPage, get)
  {
    hide RunCopied, WithSize, RunStart, DestPage, Offset;
    NextRun(z, j);
  }

  lemma AtZero(z: Sizes)
    requires z.Valid()
    ensures RunStart(z, 0)
  {
    SmallRest(0, z.dest);
  }

  lemma Before(z: Sizes, p: nat, q: nat, off: nat)
    requires z.Valid() && p >= 1 && q >= 1 && off == Start(z.src, p) && off < Start(z.src, q)
    ensures p < q
  {
    hide Start;
    if q < p {
      StartLe(z.src, q, p);
    }
  }

  lemma PassIs(z: Sizes, src: Source, memory: bool, c: Progress, srcGet: nat -> Code, destGet: nat -> Code,
               c': Progress)
    requires z.Valid() && SourceOk(z, src) && 1 <= c.next <= |src| && c.rc == OK && c'.next == c.next + 1
    requires if c.next == z.SrcPending() then c'.dest == c.dest && c'.rc == OK
             else if srcGet(c.next) != OK then c'.dest == c.dest && c'.rc == srcGet(c.next)
             else Outcome(c'.dest, c'.rc) == CopyPage(z, c.dest, memory, c.next, src[c.next - 1], false, |src|, destGet)
    requires forall p: nat :: srcGet(p) != DONE && destGet(p) != DONE
    ensures c' == Pass(z, src, memory, c, srcGet, destGet)
    ensures c'.rc != DONE && c'.rc == PageCode(z, memory, c.next, srcGet, destGet)
  {
    hide CopyPage, CopyFrom, Stop;
    if c.next != z.SrcPending() {
      PassCode(z, src, memory, c, srcGet, destGet);
      AtZero(z);
    }
  }

  lemma {:induction false} CopyFromCodes(z: Sizes, d: Pages, p: nat, j: nat, data: seq<byte>, update: bool,
                                         lastPage: nat, get: nat -> Code)
    requires z.Valid() && p >= 1 && |data| == z.src && RunStart(z, j)
    ensures var c := CopyFrom(z, d, p, j, data, update, lastPage, get).rc; c == OK || exists i: nat :: c == get(i)
    decreases if j < z.src then z.src - j else 0
  {
    hide RunCopied, WithSize, RunStart;
    if j < z.src {
      NextRun(z, j);
      var o := Offset(z, p, j);
      if DestPage(z, o) == z.DestPending() {
        CopyFromCodes(z, d, p, j + z.dest, data, update, lastPage, get);
      } else if get(DestPage(z, o)) == OK {
        var d1 := RunCopied(z, d, p, j, data);
        var d2 := if o == 0 && !update then WithSize(d1, z, lastPage) else d1;
        CopyFromCodes(z, d2, p, j + z.dest, data, update, lastPage, get);
      }
    }
  }

  lemma CopyCodes(z: Sizes, d: Pages, memory: bool, p: nat, data: seq<byte>, update: bool, lastPage: nat,
                  get: nat -> Code)
    requires z.Valid() && p >= 1 && |data| == z.src && FatalOnly(get)
    ensures var c := CopyPage(z, d, memory, p, data, update, lastPage, get).rc;
      (c == OK || Fatal(c)) && ((forall i: nat :: get(i) != DONE) ==> c != DONE)
  {
    hide CopyFrom;
    AtZero(z);
    CopyFromCodes(z, d, p, 0, data, update, lastPage, get);
  }

  lemma UpdateFatal(z: Sizes, d: Pages, memory: bool, p: nat, data: seq<byte>, lastPage: nat, get: nat -> Code)
    requires z.Valid() && p >= 1 && |data| == z.src && FatalOnly(get)
    requires CopyPage(z, d, memory, p, data, true, lastPage, get).rc != OK
    ensures Fatal(CopyPage(z, d, memory, p, data, true, lastPage, get).rc)
  {
    CopyCodes(z, d, memory, p, data, true, lastPage, get);
  }

  lemma WriteOk(z: Sizes, src: Source, src': Source, i: nat, data: seq<byte>)
    requires z.Valid() && SourceOk(z, src) && 1 <= i <= |src| + 2 && |data| == z.src
    requires i <= |src| + 1 || |src| + 1 == z.SrcPending()
    requires src' == SourceWritten(z, src, i, data)
    ensures SourceOk(z, src') && i <= |src'| && src'[i - 1] == data
    ensures OthersSame(z, src, src', i)
  {
  }
}
