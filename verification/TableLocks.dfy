/** Shared-cache mode: transactions and table locks of the connections that share one database. */
module TableLocks {
  import opened Counting

  datatype LockType = READ_LOCK | WRITE_LOCK

  /** TRANS_NONE, TRANS_READ, TRANS_WRITE. */
  datatype Trans = NoTrans | ReadTrans | WriteTrans

  /** A lock of a connection's Btree on the table with the given root page. */
  datatype Lock = Lock(btree: nat, table: nat, kind: LockType)

  datatype Writer = Nobody | Only(btree: nat)

  datatype Code = OK | LOCKED | READONLY | BUSY

  const MASTER_ROOT := 1

  /** A lock that stands in the way of another of the given kind: the full conflict test. */
  predicate Conflicts(held: Lock, p: nat, table: nat, kind: LockType) {
    held.btree != p && held.table == table && (held.kind == WRITE_LOCK || kind == WRITE_LOCK)
  }

  function LockAt(locks: seq<Lock>, i: nat): Lock
    requires i < |locks|
  {
    locks[i]
  }

  /** What holds of every lock in the list. */
  ghost predicate LockOk(open: map<nat, Trans>, writer: Writer, exclusive: bool, k: Lock) {
    && k.btree in open
    && (k.kind == WRITE_LOCK ==> writer == Only(k.btree))
    && (exclusive ==> writer == Only(k.btree))
  }

  ghost predicate LocksOk(open: map<nat, Trans>, writer: Writer, exclusive: bool, locks: seq<Lock>) {
    forall i: nat :: i < |locks| ==> LockOk(open, writer, exclusive, LockAt(locks, i))
  }

  /** Two connections share a table only for reading. */
  ghost predicate Compatible(locks: seq<Lock>) {
    forall i: nat, j: nat :: i < |locks| && j < |locks| ==>
      !Conflicts(LockAt(locks, i), LockAt(locks, j).btree, LockAt(locks, j).table, LockAt(locks, j).kind)
  }

  predicate Holds(locks: seq<Lock>, p: nat, table: nat) {
    exists i: nat :: i < |locks| && locks[i].btree == p && locks[i].table == table
  }

  /** Every open transaction holds a lock on the schema table. */
  ghost predicate SchemaLocked(open: map<nat, Trans>, locks: seq<Lock>) {
    forall p <- open :: Holds(locks, p, MASTER_ROOT)
  }

  /** There is at most one writer, and it is pWriter. */
  ghost predicate OneWriter(open: map<nat, Trans>, writer: Writer) {
    && (forall p <- open :: open[p] != NoTrans && (open[p] == WriteTrans <==> writer == Only(p)))
    && (writer.Only? ==> writer.btree in open)
  }

  /** The state of the shared database in terms of the open transactions. */
  function Mode(open: map<nat, Trans>, writer: Writer): Trans {
    if writer.Only? then WriteTrans else if open == map[] then NoTrans else ReadTrans
  }

  ghost predicate StateOk(open: map<nat, Trans>, writer: Writer, locks: seq<Lock>, exclusive: bool, pending: bool,
                          inTransaction: Trans, nTransaction: nat)
  {
    && OneWriter(open, writer) && LocksOk(open, writer, exclusive, locks) && Compatible(locks)
    && SchemaLocked(open, locks)
    && inTransaction == Mode(open, writer) && nTransaction == |open|
    && (exclusive ==> writer.Only?) && (pending ==> writer.Only? && nTransaction >= 2)
  }

  /** EXCLUSIVE: only the writer has a transaction open. */
  lemma ExclusiveIsAlone(open: map<nat, Trans>, writer: Writer, locks: seq<Lock>, exclusive: bool, pending: bool,
                         inTransaction: Trans, nTransaction: nat)
    requires StateOk(open, writer, locks, exclusive, pending, inTransaction, nTransaction) && exclusive
    ensures open.Keys == {writer.btree}
  {
    forall p | p in open
      ensures p == writer.btree
    {
      var i: nat :| i < |locks| && locks[i].btree == p && locks[i].table == MASTER_ROOT;
      assert LockOk(open, writer, exclusive, LockAt(locks, i));
    }
  }

  /** Given the writer's privilege, two kinds of lock conflict exactly when they differ. */
  lemma ShortcutIsExact(open: map<nat, Trans>, writer: Writer, locks: seq<Lock>, exclusive: bool, p: nat, table: nat,
                        kind: LockType, i: nat)
    requires LocksOk(open, writer, exclusive, locks) && i < |locks|
    requires kind == WRITE_LOCK ==> writer == Only(p)
    ensures Conflicts(locks[i], p, table, kind) <==>
      locks[i].btree != p && locks[i].table == table && locks[i].kind != kind
  {
    assert LockOk(open, writer, exclusive, LockAt(locks, i));
  }

  class SharedBtree {
    const readOnly: bool
    var open: map<nat, Trans>
    var writer: Writer
    var locks: seq<Lock>
    var exclusive: bool
    var pending: bool
    var inTransaction: Trans
    var nTransaction: nat

    ghost predicate Valid()
      reads this
    {
      StateOk(open, writer, locks, exclusive, pending, inTransaction, nTransaction)
    }

    constructor (readOnly: bool)
      ensures Valid() && open == map[] && locks == []
    {
      this.readOnly := readOnly;
      open, writer, locks := map[], Nobody, [];
      exclusive, pending, inTransaction, nTransaction := false, false, NoTrans, 0;
    }

    /** querySharedCacheTableLock(): the lock may be obtained exactly if nobody else has exclusive use
        and no lock of another connection conflicts with it. A writer that has to wait raises PENDING. */
    method QueryLock(p: nat, table: nat, kind: LockType) returns (code: Code)
      requires Valid() && (kind == WRITE_LOCK ==> writer == Only(p))
      modifies `pending
      ensures Valid() && (code == OK || code == LOCKED)
      ensures code == OK <==> !(exclusive && writer != Only(p)) && forall i: nat :: i < |locks| ==>
        !Conflicts(LockAt(locks, i), p, table, kind)
      ensures pending == (old(pending) || (code == LOCKED && kind == WRITE_LOCK))
    {
      if writer != Only(p) && exclusive {
        return LOCKED;
      }
      var i := 0;
      while i < |locks|
        invariant i <= |locks| && Valid() && pending == old(pending)
        invariant forall j: nat :: j < i ==> !Conflicts(LockAt(locks, j), p, table, kind)
      {
        ShortcutIsExact(open, writer, locks, exclusive, p, table, kind, i);
        if locks[i].btree != p && locks[i].table == table && locks[i].kind != kind {
          assert Conflicts(LockAt(locks, i), p, table, kind);
          if kind == WRITE_LOCK {
            TwoOpen(open, writer, exclusive, locks, p, i);
            pending := true;
          }
          return LOCKED;
        }
        i := i + 1;
      }
      code := OK;
    }

    /** setSharedCacheTableLock(), after the lock was found to be obtainable: the lock is added, or a
        weaker one that is held already becomes stronger. */
    method SetLock(p: nat, table: nat, kind: LockType)
      requires Valid() && p in open && (kind == WRITE_LOCK ==> writer == Only(p)) && (exclusive ==> writer == Only(p))
      requires forall i: nat :: i < |locks| ==> !Conflicts(LockAt(locks, i), p, table, kind)
      modifies `locks
      ensures Valid() && Granted(old(locks), locks, p, table, kind)
    {
      hide Holds, LockOk, Conflicts, Mode, OneWriter;
      var i := 0;
      while i < |locks| && !(locks[i].table == table && locks[i].btree == p)
        invariant i <= |locks| && locks == old(locks)
        invariant forall j: nat :: j < i ==> !(LockAt(locks, j).table == table && LockAt(locks, j).btree == p)
      {
        i := i + 1;
      }
      if i == |locks| {
        var k := Lock(p, table, kind);
        AddLock(open, writer, exclusive, locks, k);
        SchemaKept(open, locks, k);
        locks := [k] + locks;
      } else if kind == WRITE_LOCK {
        var k := Lock(p, table, WRITE_LOCK);
        RaiseLock(open, writer, exclusive, locks, i, k);
        locks := locks[i := k];
      } else {
        SameLock(locks, i, p, table, kind);
      }
    }

    /** sqlite3BtreeLockTable() within a transaction that allows it. */
    method LockTable(p: nat, table: nat, kind: LockType) returns (code: Code)
      requires Valid() && p in open && (kind == WRITE_LOCK ==> writer == Only(p))
      modifies `locks, `pending
      ensures Valid() && (code == OK ==> Granted(old(locks), locks, p, table, kind))
      ensures code != OK ==> code == LOCKED && locks == old(locks)
      ensures code == OK <==> !(exclusive && writer != Only(p)) && forall i: nat :: i < |old(locks)| ==>
        !Conflicts(LockAt(old(locks), i), p, table, kind)
      ensures pending == (old(pending) || (code == LOCKED && kind == WRITE_LOCK))
    {
      code := QueryLock(p, table, kind);
      if code == OK {
        OthersNotExclusive(open, writer, exclusive, locks, p);
        SetLock(p, table, kind);
      }
    }

    /** The connection has such a transaction open already. */
    ghost predicate Begun(p: nat, wrflag: nat)
      reads this
    {
      p in open && (open[p] == WriteTrans || wrflag == 0)
    }

    /** Another connection bars the transaction: there is a writer, or one that waits; an exclusive transaction
        tolerates no lock of another; and the schema must be readable. */
    ghost predicate Barred(p: nat, wrflag: nat)
      reads this
    {
      || (wrflag > 0 && inTransaction == WriteTrans) || pending || (exclusive && writer != Only(p))
      || (wrflag > 1 && exists j: nat :: j < |locks| && LockAt(locks, j).btree != p)
      || exists j: nat :: j < |locks| && Conflicts(LockAt(locks, j), p, MASTER_ROOT, READ_LOCK)
    }

    /** sqlite3BtreeBeginTrans(): 0 for a read transaction, 1 for a write transaction, 2 for an
        exclusive one. The pager may refuse. */
    method BeginTrans(p: nat, wrflag: nat, pager: Code) returns (code: Code)
      requires Valid() && pager != LOCKED
      modifies this
      ensures Valid()
      ensures code != OK ==>
        open == old(open) && writer == old(writer) && locks == old(locks) && exclusive == old(exclusive)
      ensures code == OK ==> p in open && (wrflag > 0 ==> writer == Only(p))
      ensures code == OK && old(pending) ==> open == old(open) && writer == old(writer)
      ensures code == OK && wrflag > 1 && writer != old(writer) ==> exclusive && open.Keys == {p}
      ensures pending == old(pending)
      ensures code == if old(Begun(p, wrflag)) then OK else if readOnly && wrflag > 0 then READONLY
                      else if old(Barred(p, wrflag)) then LOCKED else pager
      ensures code != OK || old(Begun(p, wrflag)) ==>
        && open == old(open) && writer == old(writer) && locks == old(locks) && exclusive == old(exclusive)
        && inTransaction == old(inTransaction) && nTransaction == old(nTransaction)
      ensures code == OK && !old(Begun(p, wrflag)) ==>
        && open == old(open)[p := if wrflag > 0 then WriteTrans else ReadTrans]
        && writer == (if wrflag > 0 then Only(p) else old(writer))
        && exclusive == (if wrflag > 0 then wrflag > 1 else old(exclusive))
        && locks == (if p in old(open) then [] else [Lock(p, MASTER_ROOT, READ_LOCK)]) + old(locks)
    {
      if p in open && (open[p] == WriteTrans || wrflag == 0) {
        WriterIs(open, writer, p);
        return OK;
      }
      if readOnly && wrflag > 0 {
        return READONLY;
      }
      if (wrflag > 0 && inTransaction == WriteTrans) || pending {
        return LOCKED;
      }
      if wrflag > 1 {
        var i := 0;
        while i < |locks|
          invariant i <= |locks|
          invariant forall j: nat :: j < i ==> LockAt(locks, j).btree == p
        {
          if locks[i].btree != p {
            assert LockAt(locks, i).btree != p;
            return LOCKED;
          }
          i := i + 1;
        }
      }
      code := QueryLock(p, MASTER_ROOT, READ_LOCK);
      if code != OK {
        NoWriterNoConflict(open, writer, exclusive, locks, p);
        return;
      }
      if pager != OK {
        return pager;
      }
      OpenUp(p, wrflag);
      code := OK;
    }

    /** The end of sqlite3BtreeBeginTrans(): the transaction is open. */
    method OpenUp(p: nat, wrflag: nat)
      requires Valid() && !pending && (p in open ==> open[p] == ReadTrans && wrflag > 0)
      requires wrflag > 0 ==> inTransaction != WriteTrans
      requires wrflag > 1 ==> forall j: nat :: j < |locks| ==> LockAt(locks, j).btree == p
      requires !(exclusive && writer != Only(p))
      requires forall i: nat :: i < |locks| ==> !Conflicts(LockAt(locks, i), p, MASTER_ROOT, READ_LOCK)
      modifies this
      ensures Valid() && p in open && !pending
      ensures open == old(open)[p := if wrflag > 0 then WriteTrans else ReadTrans]
      ensures writer == (if wrflag > 0 then Only(p) else old(writer))
      ensures exclusive == (if wrflag > 0 then wrflag > 1 else old(exclusive))
      ensures locks == (if p in old(open) then [] else [Lock(p, MASTER_ROOT, READ_LOCK)]) + old(locks)
      ensures wrflag > 1 ==> exclusive && open.Keys == {p}
    {
      ghost var open0, locks0 := open, locks;
      if p !in open {
        nTransaction := nTransaction + 1;
        locks := [Lock(p, MASTER_ROOT, READ_LOCK)] + locks;
      }
      var mode := if wrflag > 0 then WriteTrans else ReadTrans;
      open := open[p := mode];
      if !(mode == ReadTrans && inTransaction != NoTrans) {
        inTransaction := mode;
      }
      if wrflag > 0 {
        writer := Only(p);
        exclusive := false;
        if wrflag > 1 {
          exclusive := true;
        }
      }
      assert locks == (if p in open0 then [] else [Lock(p, MASTER_ROOT, READ_LOCK)]) + locks0;
      OpenedOk(open0, old(writer), locks0, old(exclusive), old(inTransaction), old(nTransaction), p, wrflag, locks);
    }

    /** clearAllSharedCacheTableLocks(): the locks of p go, and its flags if it is the writer; PENDING
        goes with the last transaction besides the writer's. */
    method ClearLocks(p: nat)
      requires p in open
      modifies `locks, `writer, `exclusive, `pending
      ensures locks == Without(old(locks), p)
      ensures if old(writer) == Only(p) then writer == Nobody && !exclusive && !pending
              else writer == old(writer) && exclusive == old(exclusive) &&
                   pending == (old(pending) && nTransaction != 2)
    {
      hide Without;
      var i := 0;
      ghost var n := 0;
      WithoutNone(locks, p);
      while i < |locks|
        invariant n <= |old(locks)| && i == |Without(old(locks)[..n], p)|
        invariant locks == Without(old(locks)[..n], p) + old(locks)[n..]
        decreases |old(locks)| - n
        modifies this`locks
      {
        ClearStep(old(locks), p, n, locks, i);
        if locks[i].btree == p {
          locks := locks[..i] + locks[i + 1..];
        } else {
          i := i + 1;
        }
        n := n + 1;
      }
      WithoutAll(old(locks), p, n, locks);
      if writer == Only(p) {
        writer, exclusive, pending := Nobody, false, false;
      } else if nTransaction == 2 {
        pending := false;
      }
    }

    /** downgradeAllSharedCacheTableLocks(): if p is the writer, its write locks become read locks. */
    method DowngradeLocks(p: nat)
      modifies `locks, `writer, `exclusive, `pending
      ensures if old(writer) == Only(p) then writer == Nobody && !exclusive && !pending && Downgraded(old(locks), locks)
              else writer == old(writer) && exclusive == old(exclusive) && pending == old(pending) &&
                   locks == old(locks)
    {
      if writer == Only(p) {
        writer, exclusive, pending := Nobody, false, false;
        var i := 0;
        while i < |locks|
          invariant i <= |locks| == |old(locks)|
          invariant forall j: nat :: j < |locks| ==>
            LockAt(locks, j) == if j < i then LockAt(old(locks), j).(kind := READ_LOCK) else LockAt(old(locks), j)
          modifies this`locks
        {
          ghost var before := locks;
          locks := locks[i := locks[i].(kind := READ_LOCK)];
          assert forall j: nat :: j < |locks| ==>
            LockAt(locks, j) == if j == i then LockAt(before, i).(kind := READ_LOCK) else LockAt(before, j);
          i := i + 1;
        }
      }
    }

    /** The end of a transaction: sqlite3BtreeCommitPhaseTwo() or sqlite3BtreeRollback(), with
        btreeEndTransaction(). While the connection has other readers active the transaction lives on
        as a read transaction. */
    method Conclude(p: nat, otherReaders: bool)
      requires Valid()
      modifies this
      ensures Valid()
      ensures open == if p !in old(open) then old(open) else if otherReaders then old(open)[p := ReadTrans]
        else old(open) - {p}
      ensures writer == if old(writer) == Only(p) then Nobody else old(writer)
      ensures exclusive == (old(exclusive) && old(writer) != Only(p))
      ensures pending == (old(pending) && old(writer) != Only(p)
                          && (p !in old(open) || otherReaders || old(nTransaction) != 2))
      ensures if p !in old(open) then locks == old(locks)
              else if !otherReaders then locks == Without(old(locks), p)
              else if old(writer) == Only(p) then Downgraded(old(locks), locks) else locks == old(locks)
    {
      hide StateOk, Without, Downgraded;
      WriterOpen(open, writer, locks, exclusive, pending, inTransaction, nTransaction);
      if p !in open {
        return;
      }
      Unfold(open, writer, locks, exclusive, pending, inTransaction, nTransaction, p);
      if open[p] == WriteTrans {
        inTransaction := ReadTrans;
      }
      if otherReaders {
        DowngradeLocks(p);
        open := open[p := ReadTrans];
        DowngradedOk(old(open), old(writer), old(locks), old(exclusive), old(pending), old(inTransaction),
                     old(nTransaction), p, locks);
      } else {
        ClearLocks(p);
        nTransaction := nTransaction - 1;
        if nTransaction == 0 {
          inTransaction := NoTrans;
        }
        open := open - {p};
        ClearedOk(old(open), old(writer), old(locks), old(exclusive), old(pending), old(inTransaction),
                  old(nTransaction), p);
      }
    }
  }

  /** The locks of the other connections. */
  function Without(locks: seq<Lock>, p: nat): seq<Lock> {
    if locks == [] then []
    else
      var k := locks[|locks| - 1];
      Without(locks[..|locks| - 1], p) + if k.btree == p then [] else [k]
  }

  lemma WithoutNone(locks: seq<Lock>, p: nat)
    ensures Without(locks[..0], p) == [] && locks == Without(locks[..0], p) + locks[0..]
  {
  }

  lemma WithoutAll(locks: seq<Lock>, p: nat, n: nat, rest: seq<Lock>)
    requires n <= |locks| && rest == Without(locks[..n], p) + locks[n..] && |rest| <= |Without(locks[..n], p)|
    ensures rest == Without(locks, p)
  {
    hide Without;
    assert locks[..n] == locks && locks[n..] == [];
  }

  /** One pass along the list: the lock at i is skipped or removed. */
  lemma ClearStep(locks: seq<Lock>, p: nat, n: nat, now: seq<Lock>, i: nat)
    requires n <= |locks| && i == |Without(locks[..n], p)| && now == Without(locks[..n], p) + locks[n..] && i < |now|
    ensures n < |locks| && now[i] == locks[n]
    ensures now[i].btree == p ==>
      now[..i] + now[i + 1..] == Without(locks[..n + 1], p) + locks[n + 1..] && |Without(locks[..n + 1], p)| == i
    ensures now[i].btree != p ==>
      now == Without(locks[..n + 1], p) + locks[n + 1..] && |Without(locks[..n + 1], p)| == i + 1
  {
    var w := Without(locks[..n], p);
    assert locks[n..] == [locks[n]] + locks[n + 1..];
    WithoutNext(locks, p, n);
    hide Without;
    assert now[..i] == w && now[i + 1..] == locks[n + 1..];
  }

  lemma WithoutNext(locks: seq<Lock>, p: nat, n: nat)
    requires n < |locks|
    ensures Without(locks[..n + 1], p) == Without(locks[..n], p) + if locks[n].btree == p then [] else [locks[n]]
  {
    assert locks[..n + 1][..n] == locks[..n];
  }

  lemma {:induction false} WithoutHas(locks: seq<Lock>, p: nat)
    ensures forall k: Lock :: k in Without(locks, p) <==> k in locks && k.btree != p
  {
    if locks != [] {
      WithoutHas(locks[..|locks| - 1], p);
      assert locks == locks[..|locks| - 1] + [locks[|locks| - 1]];
    }
  }

  predicate Downgraded(locks: seq<Lock>, locks': seq<Lock>) {
    |locks'| == |locks| && forall j: nat :: j < |locks| ==> LockAt(locks', j) == LockAt(locks, j).(kind := READ_LOCK)
  }

  lemma WriterOpen(open: map<nat, Trans>, writer: Writer, locks: seq<Lock>, exclusive: bool, pending: bool,
                   inTransaction: Trans, nTransaction: nat)
    requires StateOk(open, writer, locks, exclusive, pending, inTransaction, nTransaction)
    ensures writer.Only? ==> writer.btree in open
  {
  }

  lemma Unfold(open: map<nat, Trans>, writer: Writer, locks: seq<Lock>, exclusive: bool, pending: bool,
               inTransaction: Trans, nTransaction: nat, p: nat)
    requires StateOk(open, writer, locks, exclusive, pending, inTransaction, nTransaction) && p in open
    ensures open[p] == WriteTrans <==> writer == Only(p)
    ensures inTransaction == Mode(open, writer) && nTransaction == |open| > 0
  {
    assert open.Keys != {};
  }

  lemma DowngradedOk(open: map<nat, Trans>, writer: Writer, locks: seq<Lock>, exclusive: bool, pending: bool,
                     inTransaction: Trans, nTransaction: nat, p: nat, locks': seq<Lock>)
    requires StateOk(open, writer, locks, exclusive, pending, inTransaction, nTransaction) && p in open
    requires if writer == Only(p) then Downgraded(locks, locks') else locks' == locks
    ensures var open' := open[p := ReadTrans];
      (&& (writer == Only(p) ==> StateOk(open', Nobody, locks', false, false, ReadTrans, nTransaction))
       && (writer != Only(p) ==> StateOk(open', writer, locks', exclusive, pending, inTransaction, nTransaction)))
  {
    var open' := open[p := ReadTrans];
    assert open'.Keys == open.Keys;
    if writer == Only(p) {
      forall i: nat | i < |locks'|
        ensures LockOk(open', Nobody, false, LockAt(locks', i)) && LockAt(locks', i).kind == READ_LOCK
      {
        assert LockOk(open, writer, exclusive, LockAt(locks, i));
      }
      forall q | q in open'
        ensures Holds(locks', q, MASTER_ROOT)
      {
        var i: nat :| i < |locks| && locks[i].btree == q && locks[i].table == MASTER_ROOT;
        assert LockAt(locks', i) == LockAt(locks, i).(kind := READ_LOCK);
      }
    } else {
      assert open' == open;
    }
  }

  lemma ClearedOk(open: map<nat, Trans>, writer: Writer, locks: seq<Lock>, exclusive: bool, pending: bool,
                  inTransaction: Trans, nTransaction: nat, p: nat)
    requires StateOk(open, writer, locks, exclusive, pending, inTransaction, nTransaction) && p in open
    ensures var open', locks' := open - {p}, Without(locks, p);
      (&& (writer == Only(p) ==>
             StateOk(open', Nobody, locks', false, false, if nTransaction == 1 then NoTrans else ReadTrans,
                     nTransaction - 1))
       && (writer != Only(p) ==>
             StateOk(open', writer, locks', exclusive, pending && nTransaction != 2,
                     if nTransaction == 1 then NoTrans else inTransaction, nTransaction - 1)))
  {
    hide Without, Mode, Compatible, LocksOk, SchemaLocked;
    var open', locks' := open - {p}, Without(locks, p);
    OneLess(open, p);
    ClearedLocks(open, writer, locks, exclusive, p);
    ClearedMode(open, writer, p);
  }

  lemma OneLess(open: map<nat, Trans>, p: nat)
    requires p in open
    ensures |open - {p}| == |open| - 1 && (open - {p} == map[] <==> |open| == 1)
  {
    var open' := open - {p};
    assert open'.Keys == open.Keys - {p};
    if open' != map[] {
      var q :| q in open';
      SubsetSize({q}, open'.Keys);
    }
  }

  lemma ClearedMode(open: map<nat, Trans>, writer: Writer, p: nat)
    requires OneWriter(open, writer) && p in open
    ensures var open' := open - {p};
      if writer == Only(p) then
        OneWriter(open', Nobody) && Mode(open', Nobody) == if |open| == 1 then NoTrans else ReadTrans
      else
        OneWriter(open', writer) && (writer.Only? ==> |open| >= 2) &&
        Mode(open', writer) == if |open| == 1 then NoTrans else Mode(open, writer)
  {
    OneLess(open, p);
    if writer.Only? && writer != Only(p) {
      SubsetSize({p, writer.btree}, open.Keys);
    }
  }

  lemma WithoutFrom(locks: seq<Lock>, p: nat, i: nat) returns (j: nat)
    requires i < |Without(locks, p)|
    ensures j < |locks| && LockAt(locks, j) == LockAt(Without(locks, p), i) && LockAt(locks, j).btree != p
  {
    hide Without;
    WithoutHas(locks, p);
    var k := Without(locks, p)[i];
    assert k in Without(locks, p);
    var x: nat :| x < |locks| && locks[x] == k;
    j := x;
  }

  lemma ClearedLocks(open: map<nat, Trans>, writer: Writer, locks: seq<Lock>, exclusive: bool, p: nat)
    requires LocksOk(open, writer, exclusive, locks) && Compatible(locks) && SchemaLocked(open, locks)
    ensures LocksOk(open - {p}, if writer == Only(p) then Nobody else writer, exclusive && writer != Only(p),
                    Without(locks, p))
    ensures Compatible(Without(locks, p)) && SchemaLocked(open - {p}, Without(locks, p))
  {
    hide Without;
    var locks' := Without(locks, p);
    var writer' := if writer == Only(p) then Nobody else writer;
    var exclusive' := exclusive && writer != Only(p);
    forall i: nat | i < |locks'|
      ensures LockOk(open - {p}, writer', exclusive', LockAt(locks', i))
    {
      var j := WithoutFrom(locks, p, i);
      assert LockOk(open, writer, exclusive, LockAt(locks, j));
    }
    forall i: nat, j: nat | i < |locks'| && j < |locks'|
      ensures !Conflicts(LockAt(locks', i), LockAt(locks', j).btree, LockAt(locks', j).table, LockAt(locks', j).kind)
    {
      var a := WithoutFrom(locks, p, i);
      var b := WithoutFrom(locks, p, j);
    }
    WithoutHas(locks, p);
    forall q | q in open - {p}
      ensures Holds(locks', q, MASTER_ROOT)
    {
      var i: nat :| i < |locks| && locks[i].btree == q && locks[i].table == MASTER_ROOT;
      assert locks[i] in locks';
    }
  }

  lemma NoWriterNoConflict(open: map<nat, Trans>, writer: Writer, exclusive: bool, locks: seq<Lock>, p: nat)
    requires LocksOk(open, writer, exclusive, locks)
    ensures writer == Nobody ==> forall i: nat :: i < |locks| ==>
      !Conflicts(LockAt(locks, i), p, MASTER_ROOT, READ_LOCK)
  {
    forall i: nat | i < |locks|
      ensures writer == Nobody ==> !Conflicts(LockAt(locks, i), p, MASTER_ROOT, READ_LOCK)
    {
      assert LockOk(open, writer, exclusive, LockAt(locks, i));
    }
  }

  lemma OthersNotExclusive(open: map<nat, Trans>, writer: Writer, exclusive: bool, locks: seq<Lock>, p: nat)
    requires !(exclusive && writer != Only(p))
    ensures exclusive ==> writer == Only(p)
  {
  }

  lemma WriterIs(open: map<nat, Trans>, writer: Writer, p: nat)
    requires OneWriter(open, writer) && p in open
    ensures open[p] == WriteTrans <==> writer == Only(p)
  {
  }

  /** A transaction has been opened. */
  function Opened(open: map<nat, Trans>, p: nat, wrflag: nat): map<nat, Trans> {
    open[p := if wrflag > 0 then WriteTrans else ReadTrans]
  }

  lemma OpenedWriter(open: map<nat, Trans>, writer: Writer, inTransaction: Trans, p: nat, wrflag: nat)
    requires OneWriter(open, writer) && inTransaction == Mode(open, writer)
    requires (wrflag > 0 ==> inTransaction != WriteTrans)
    requires p in open ==> open[p] == ReadTrans
    ensures OneWriter(Opened(open, p, wrflag), if wrflag > 0 then Only(p) else writer)
    ensures Opened(open, p, wrflag).Keys == open.Keys + {p}
    ensures |Opened(open, p, wrflag)| == |open| + (if p in open then 0 else 1)
  {
    assert Opened(open, p, wrflag).Keys == open.Keys + {p};
  }

  /** A connection whose transaction starts had no lock before. */
  lemma NewcomerLocks(open: map<nat, Trans>, writer: Writer, exclusive: bool, locks: seq<Lock>, p: nat)
    requires LocksOk(open, writer, exclusive, locks) && p !in open
    ensures forall i: nat :: i < |locks| ==> LockAt(locks, i).btree != p
  {
    forall i: nat | i < |locks|
      ensures LockAt(locks, i).btree != p
    {
      assert LockOk(open, writer, exclusive, LockAt(locks, i));
    }
  }

  /** The schema stays locked by all when connection p, which holds a lock on it now, is among the open ones. */
  lemma SchemaOpened(open: map<nat, Trans>, locks: seq<Lock>, p: nat, wrflag: nat)
    requires SchemaLocked(open, locks) && Holds(locks, p, MASTER_ROOT)
    ensures SchemaLocked(Opened(open, p, wrflag), locks)
  {
  }

  lemma HoldsFirst(locks: seq<Lock>, k: Lock)
    ensures Holds([k] + locks, k.btree, k.table)
  {
    assert ([k] + locks)[0] == k;
  }

  lemma HoldsOpen(open: map<nat, Trans>, locks: seq<Lock>, p: nat)
    requires SchemaLocked(open, locks) && p in open
    ensures Holds(locks, p, MASTER_ROOT)
  {
  }

  lemma OpenedOk(open: map<nat, Trans>, writer: Writer, locks: seq<Lock>, exclusive: bool, inTransaction: Trans,
                 nTransaction: nat, p: nat, wrflag: nat, locks': seq<Lock>)
    requires StateOk(open, writer, locks, exclusive, false, inTransaction, nTransaction)
    requires (p in open ==> open[p] == ReadTrans && wrflag > 0) && (wrflag > 0 ==> inTransaction != WriteTrans)
    requires wrflag > 1 ==> forall j: nat :: j < |locks| ==> LockAt(locks, j).btree == p
    requires !(exclusive && writer != Only(p))
    requires forall i: nat :: i < |locks| ==> !Conflicts(LockAt(locks, i), p, MASTER_ROOT, READ_LOCK)
    requires locks' == if p in open then locks else [Lock(p, MASTER_ROOT, READ_LOCK)] + locks
    ensures var open' := Opened(open, p, wrflag);
      var writer' := if wrflag > 0 then Only(p) else writer;
      (&& StateOk(open', writer', locks', if wrflag > 0 then wrflag > 1 else exclusive, false, Mode(open', writer'),
                  |open'|)
       && |open'| == nTransaction + (if p in open then 0 else 1)
       && (wrflag > 1 ==> open'.Keys == {p}))
  {
    hide Opened, LocksOk, Compatible, SchemaLocked, OneWriter, Holds, Conflicts;
    var open', writer' := Opened(open, p, wrflag), if wrflag > 0 then Only(p) else writer;
    var exclusive' := if wrflag > 0 then wrflag > 1 else exclusive;
    OpenedWriter(open, writer, inTransaction, p, wrflag);
    OldLocksOk(open, writer, locks, exclusive, p, wrflag);
    if wrflag > 1 {
      AloneWithLocks(open, locks, p);
    }
    if p in open {
      HoldsOpen(open, locks, p);
      SchemaOpened(open, locks, p, wrflag);
    } else {
      var k := Lock(p, MASTER_ROOT, READ_LOCK);
      NewcomerLocks(open, writer, exclusive, locks, p);
      NewLockOk(open, writer, p, wrflag, exclusive);
      AddLock(open', writer', exclusive', locks, k);
      SchemaKept(open, locks, k);
      HoldsFirst(locks, k);
      SchemaOpened(open, locks', p, wrflag);
    }
  }

  lemma NewLockOk(open: map<nat, Trans>, writer: Writer, p: nat, wrflag: nat, exclusive: bool)
    requires !(exclusive && writer != Only(p))
    ensures LockOk(Opened(open, p, wrflag), if wrflag > 0 then Only(p) else writer,
                   if wrflag > 0 then wrflag > 1 else exclusive, Lock(p, MASTER_ROOT, READ_LOCK))
  {
  }

  /** The locks already held remain in order when p opens a transaction. */
  lemma OldLocksOk(open: map<nat, Trans>, writer: Writer, locks: seq<Lock>, exclusive: bool, p: nat, wrflag: nat)
    requires LocksOk(open, writer, exclusive, locks) && (wrflag > 0 ==> writer == Nobody)
    requires wrflag > 1 ==> forall j: nat :: j < |locks| ==> LockAt(locks, j).btree == p
    ensures LocksOk(Opened(open, p, wrflag), if wrflag > 0 then Only(p) else writer,
                    if wrflag > 0 then wrflag > 1 else exclusive, locks)
  {
    forall i: nat | i < |locks|
      ensures LockOk(Opened(open, p, wrflag), if wrflag > 0 then Only(p) else writer,
                     if wrflag > 0 then wrflag > 1 else exclusive, LockAt(locks, i))
    {
      assert LockOk(open, writer, exclusive, LockAt(locks, i));
    }
  }

  lemma AloneWithLocks(open: map<nat, Trans>, locks: seq<Lock>, p: nat)
    requires SchemaLocked(open, locks) && forall j: nat :: j < |locks| ==> LockAt(locks, j).btree == p
    ensures open.Keys <= {p}
  {
    forall q | q in open
      ensures q == p
    {
      var i: nat :| i < |locks| && locks[i].btree == q && locks[i].table == MASTER_ROOT;
      assert LockAt(locks, i).btree == p;
    }
  }

  /** The lock is there, no other lock of anybody is gone or new, and none has become weaker. */
  ghost predicate Granted(locks: seq<Lock>, locks': seq<Lock>, p: nat, table: nat, kind: LockType) {
    && Holds(locks', p, table)
    && (Lock(p, table, WRITE_LOCK) in locks' <==> kind == WRITE_LOCK || Lock(p, table, WRITE_LOCK) in locks)
    && forall k: Lock :: k.btree != p || k.table != table ==> (k in locks' <==> k in locks)
  }

  lemma SchemaKept(open: map<nat, Trans>, locks: seq<Lock>, k: Lock)
    requires SchemaLocked(open, locks)
    ensures SchemaLocked(open, [k] + locks)
  {
    var locks' := [k] + locks;
    forall p | p in open
      ensures Holds(locks', p, MASTER_ROOT)
    {
      var i: nat :| i < |locks| && locks[i].btree == p && locks[i].table == MASTER_ROOT;
      assert locks'[i + 1] == locks[i];
    }
  }

  lemma AddLock(open: map<nat, Trans>, writer: Writer, exclusive: bool, locks: seq<Lock>, k: Lock)
    requires LocksOk(open, writer, exclusive, locks) && Compatible(locks) && LockOk(open, writer, exclusive, k)
    requires forall i: nat :: i < |locks| ==> !Conflicts(LockAt(locks, i), k.btree, k.table, k.kind)
    requires forall i: nat :: i < |locks| ==> !(LockAt(locks, i).table == k.table && LockAt(locks, i).btree == k.btree)
    ensures LocksOk(open, writer, exclusive, [k] + locks) && Compatible([k] + locks)
    ensures Granted(locks, [k] + locks, k.btree, k.table, k.kind)
  {
    var locks' := [k] + locks;
    assert LockAt(locks', 0) == k;
    forall i: nat | i < |locks|
      ensures locks'[i + 1] == LockAt(locks, i) == locks[i]
    {
    }
    forall i: nat | i < |locks'|
      ensures LockOk(open, writer, exclusive, LockAt(locks', i))
    {
      if i > 0 {
        assert LockAt(locks', i) == LockAt(locks, i - 1);
      }
    }
    forall i: nat, j: nat | i < |locks'| && j < |locks'|
      ensures !Conflicts(LockAt(locks', i), LockAt(locks', j).btree, LockAt(locks', j).table, LockAt(locks', j).kind)
    {
      if i > 0 {
        assert LockAt(locks', i) == LockAt(locks, i - 1);
      }
      if j > 0 {
        assert LockAt(locks', j) == LockAt(locks, j - 1);
      }
    }
    forall x: Lock | x.btree != k.btree || x.table != k.table
      ensures x in locks' <==> x in locks
    {
    }
    forall i: nat | i < |locks|
      ensures LockAt(locks, i) == locks[i] != Lock(k.btree, k.table, WRITE_LOCK)
    {
    }
  }

  lemma RaiseLock(open: map<nat, Trans>, writer: Writer, exclusive: bool, locks: seq<Lock>, n: nat, k: Lock)
    requires LocksOk(open, writer, exclusive, locks) && Compatible(locks) && SchemaLocked(open, locks)
    requires LockOk(open, writer, exclusive, k)
    requires forall i: nat :: i < |locks| ==> !Conflicts(LockAt(locks, i), k.btree, k.table, k.kind)
    requires n < |locks| && locks[n].btree == k.btree && locks[n].table == k.table && k.kind == WRITE_LOCK
    ensures var locks' := locks[n := k];
      (&& LocksOk(open, writer, exclusive, locks') && Compatible(locks') && SchemaLocked(open, locks')
       && Granted(locks, locks', k.btree, k.table, k.kind))
  {
    var locks' := locks[n := k];
    forall i: nat | i < |locks'|
      ensures LockAt(locks', i) == if i == n then k else LockAt(locks, i)
    {
    }
    forall p | p in open
      ensures Holds(locks', p, MASTER_ROOT)
    {
      var i: nat :| i < |locks| && locks[i].btree == p && locks[i].table == MASTER_ROOT;
      assert locks'[i].btree == p && locks'[i].table == MASTER_ROOT;
    }
    assert locks'[n] == k;
    forall x: Lock | x.btree != k.btree || x.table != k.table
      ensures x in locks' <==> x in locks
    {
      if x in locks {
        var i: nat :| i < |locks| && locks[i] == x;
        assert locks'[i] == x;
      }
    }
  }

  lemma SameLock(locks: seq<Lock>, n: nat, p: nat, table: nat, kind: LockType)
    requires n < |locks| && locks[n].btree == p && locks[n].table == table && kind == READ_LOCK
    ensures Granted(locks, locks, p, table, kind)
  {
  }

  /** A lock of another connection means another open transaction. */
  lemma TwoOpen(open: map<nat, Trans>, writer: Writer, exclusive: bool, locks: seq<Lock>, p: nat, i: nat)
    requires LocksOk(open, writer, exclusive, locks) && i < |locks| && locks[i].btree != p && p in open
    ensures |open| >= 2
  {
    assert LockOk(open, writer, exclusive, LockAt(locks, i));
    SubsetSize({p, locks[i].btree}, open.Keys);
  }
}
