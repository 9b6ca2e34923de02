/** What a scan of a sorted index knows of a row: how many rows and distinct keys come before it, and
    how many rows share each prefix of its key. */
module IndexCounts {
  import opened Counting

  /** For each row but the first, the leftmost column that differs from the row before. */
  type Changes = seq<nat>

  function At(ch: Changes, q: nat): nat {
    if q < |ch| then ch[q] else 0
  }

  /** The first row that agrees with row r in columns 0..c. */
  function Start(ch: Changes, r: nat, c: nat): (s: nat)
    ensures s <= r
  {
    if r == 0 || At(ch, r) <= c then r else Start(ch, r - 1, c)
  }

  /** The distinct values of columns 0..c before those of row r. */
  function Before(ch: Changes, r: nat, c: nat): nat {
    if r == 0 then 0 else Before(ch, r - 1, c) + if At(ch, r) <= c then 1 else 0
  }

  /** The first row after r that differs from it in columns 0..c, or the number of rows. */
  function End(ch: Changes, r: nat, c: nat): (e: nat)
    requires r < |ch|
    ensures r < e <= |ch|
    decreases |ch| - r
  {
    if r + 1 == |ch| || At(ch, r + 1) <= c then r + 1 else End(ch, r + 1, c)
  }

  /** Row r agrees with the last row in columns 0..c. */
  ghost predicate Open(ch: Changes, r: nat, c: nat) {
    forall q: nat :: r < q < |ch| ==> At(ch, q) > c
  }

  /** nEq as far as it is known: zero while rows may still be added to the group. */
  ghost function Known(ch: Changes, r: nat, c: nat): nat
    requires r < |ch|
  {
    if Open(ch, r, c) then 0 else End(ch, r, c) - Start(ch, r, c)
  }

  /** The rows of the last group so far. */
  function SoFar(ch: Changes, c: nat): nat
    requires |ch| > 0
  {
    |ch| - Start(ch, |ch| - 1, c)
  }

  lemma OpenLess(ch: Changes, r: nat, c: nat, b: nat)
    requires Open(ch, r, c) && b <= c
    ensures Open(ch, r, b)
  {
  }

  lemma {:induction false} SameStart(ch: Changes, r: nat, r': nat, c: nat)
    requires r <= r' < |ch| && Open(ch, r, c)
    ensures Start(ch, r', c) == Start(ch, r, c)
    decreases r'
  {
    if r < r' {
      assert At(ch, r') > c;
      SameStart(ch, r, r' - 1, c);
    }
  }

  lemma {:induction false} OpenEnd(ch: Changes, r: nat, c: nat)
    requires r < |ch| && Open(ch, r, c)
    ensures End(ch, r, c) == |ch|
    decreases |ch| - r
  {
    if r + 1 < |ch| {
      assert At(ch, r + 1) > c;
      OpenEnd(ch, r + 1, c);
    }
  }

  lemma {:induction false} ClosedEnd(ch: Changes, r: nat, c: nat)
    requires r < |ch| && !Open(ch, r, c)
    ensures End(ch, r, c) < |ch|
    decreases |ch| - r
  {
    if r + 1 < |ch| && At(ch, r + 1) > c {
      ClosedEnd(ch, r + 1, c);
    }
  }

  lemma {:induction false} StartSame(ch: Changes, ch': Changes, r: nat, c: nat)
    requires r < |ch| && ch <= ch'
    ensures Start(ch', r, c) == Start(ch, r, c) && Before(ch', r, c) == Before(ch, r, c)
  {
    assert At(ch', r) == At(ch, r);
    if r > 0 {
      StartSame(ch, ch', r - 1, c);
    }
  }

  /** What the next row changes: groups it does not belong to are complete. */
  lemma NextRow(ch: Changes, x: nat, r: nat, c: nat)
    requires r < |ch|
    ensures Open(ch + [x], r, c) <==> Open(ch, r, c) && c < x
    ensures !Open(ch, r, c) ==> Known(ch + [x], r, c) == Known(ch, r, c) > 0
    ensures Open(ch, r, c) && c >= x ==> Known(ch + [x], r, c) == SoFar(ch, c) > 0
    ensures Open(ch, r, c) && c < x ==> Known(ch + [x], r, c) == 0
  {
    var ch' := ch + [x];
    assert At(ch', |ch|) == x;
    assert forall q: nat :: q < |ch| ==> At(ch', q) == At(ch, q);
    StartSame(ch, ch', r, c);
    if Open(ch, r, c) {
      SameStart(ch, r, |ch| - 1, c);
      EndNext(ch, x, r, c);
      OpenEnd(ch, r, c);
      if c < x {
        assert Open(ch', r, c);
      } else {
        assert !Open(ch', r, c);
      }
    } else {
      var q: nat :| r < q < |ch| && At(ch, q) <= c;
      assert At(ch', q) <= c;
      EndNext(ch, x, r, c);
      ClosedEnd(ch, r, c);
    }
  }

  lemma {:induction false} EndNext(ch: Changes, x: nat, r: nat, c: nat)
    requires r < |ch|
    ensures End(ch, r, c) < |ch| ==> End(ch + [x], r, c) == End(ch, r, c)
    ensures End(ch, r, c) == |ch| && c >= x ==> End(ch + [x], r, c) == |ch|
    decreases |ch| - r
  {
    var ch' := ch + [x];
    assert At(ch', r + 1) == if r + 1 < |ch| then At(ch, r + 1) else x;
    if r + 1 < |ch| && At(ch, r + 1) > c {
      EndNext(ch, x, r + 1, c);
    }
  }

  /** The counters of the current row. */
  lemma NextCounts(ch: Changes, x: nat, c: nat)
    requires |ch| > 0
    ensures var n, ch' := |ch|, ch + [x];
      (&& Start(ch', n, c) == (if x <= c then Start(ch, n - 1, c) + SoFar(ch, c) else Start(ch, n - 1, c))
       && Before(ch', n, c) == Before(ch, n - 1, c) + (if x <= c then 1 else 0)
       && SoFar(ch', c) == if x <= c then 1 else SoFar(ch, c) + 1)
  {
    var n, ch' := |ch|, ch + [x];
    assert At(ch', n) == x;
    StartSame(ch, ch', n - 1, c);
  }

  /** A row of a complete group comes before every row of the open one. */
  lemma ClosedBefore(ch: Changes, r: nat, b: nat, c: nat)
    requires !Open(ch, r, c) && Open(ch, b, c)
    ensures r < b
  {
    var q: nat :| r < q < |ch| && At(ch, q) <= c;
  }

  // ---- the counters are the true counts --------------------------------------------------------------

  type Row = seq<int>

  function ColumnOf(row: Row, k: nat): int {
    if k < |row| then row[k] else 0
  }

  /** Rows a and b agree in columns 0..c. */
  ghost predicate Agree(a: Row, b: Row, c: nat) {
    forall k: nat :: k <= c ==> ColumnOf(a, k) == ColumnOf(b, k)
  }

  /** Row a comes before row b by columns 0..c. */
  ghost predicate Less(a: Row, b: Row, c: nat) {
    exists k: nat :: LessAt(a, b, k) && k <= c
  }

  ghost predicate LessAt(a: Row, b: Row, k: nat) {
    ColumnOf(a, k) < ColumnOf(b, k) && forall j: nat :: j < k ==> ColumnOf(a, j) == ColumnOf(b, j)
  }

  /** The rows are in order, and ch says in which column each first differs from the one before. */
  ghost predicate Sorted(rows: seq<Row>, ch: Changes) {
    |rows| == |ch| && forall r: nat :: 0 < r < |rows| ==> Follows(rows, ch, r)
  }

  ghost predicate Follows(rows: seq<Row>, ch: Changes, r: nat)
    requires 0 < r < |rows|
  {
    LessAt(rows[r - 1], rows[r], At(ch, r))
  }

  /** Earlier rows are less, or agree if they belong to the same group. */
  lemma {:induction false} Ordered(rows: seq<Row>, ch: Changes, q: nat, r: nat, c: nat)
    requires Sorted(rows, ch) && q <= r < |rows|
    ensures if q < Start(ch, r, c) then Less(rows[q], rows[r], c) else Agree(rows[q], rows[r], c)
    decreases r
  {
    if q < r {
      Ordered(rows, ch, q, r - 1, c);
      assert Follows(rows, ch, r);
      var k := At(ch, r);
      if k <= c {
        if q < Start(ch, r - 1, c) {
          var j: nat :| LessAt(rows[q], rows[r - 1], j) && j <= c;
          assert LessAt(rows[q], rows[r], if j < k then j else k);
        } else {
          assert LessAt(rows[q], rows[r], k);
        }
      } else {
        assert forall j: nat :: j <= c ==> ColumnOf(rows[r - 1], j) == ColumnOf(rows[r], j);
        if q < Start(ch, r - 1, c) {
          var j: nat :| LessAt(rows[q], rows[r - 1], j) && j <= c;
          assert LessAt(rows[q], rows[r], j);
        }
      }
    }
  }

  lemma {:induction false} EndIs(ch: Changes, q: nat, r: nat, c: nat)
    requires r <= q < |ch|
    ensures q < End(ch, r, c) <==> Start(ch, q, c) <= r
    decreases |ch| - r
  {
    if r < q {
      if At(ch, r + 1) > c {
        EndIs(ch, q, r + 1, c);
        StartJump(ch, q, r, c);
      } else {
        StartAfter(ch, q, r + 1, c);
      }
    }
  }

  lemma {:induction false} StartAfter(ch: Changes, q: nat, r: nat, c: nat)
    requires r <= q && At(ch, r) <= c
    ensures Start(ch, q, c) >= r
    decreases q
  {
    if r < q {
      StartAfter(ch, q - 1, r, c);
    }
  }

  lemma {:induction false} StartJump(ch: Changes, q: nat, r: nat, c: nat)
    requires r < q && At(ch, r + 1) > c
    ensures Start(ch, q, c) != r + 1
    decreases q
  {
    if r + 1 < q {
      StartJump(ch, q - 1, r, c);
    }
  }

  ghost function EqualRows(rows: seq<Row>, r: nat, c: nat): set<int>
    requires r < |rows|
  {
    set q: int | 0 <= q < |rows| && InRange(q, 0, |rows|) && Agree(rows[q], rows[r], c)
  }

  ghost function LessRows(rows: seq<Row>, r: nat, c: nat): set<int>
    requires r < |rows|
  {
    set q: int | 0 <= q < |rows| && InRange(q, 0, |rows|) && Less(rows[q], rows[r], c)
  }

  lemma NotBoth(a: Row, b: Row, c: nat)
    ensures !(Agree(a, b, c) && Less(a, b, c)) && !(Less(a, b, c) && Less(b, a, c))
    ensures (Agree(a, b, c) <==> Agree(b, a, c))
  {
  }

  /** nEq is the number of rows that agree with the row, nLt the number of rows before it. */
  lemma TrueCounts(rows: seq<Row>, ch: Changes, r: nat, c: nat)
    requires Sorted(rows, ch) && r < |rows|
    ensures |EqualRows(rows, r, c)| == End(ch, r, c) - Start(ch, r, c)
    ensures |LessRows(rows, r, c)| == Start(ch, r, c)
  {
    var s, e := Start(ch, r, c), End(ch, r, c);
    forall q: nat | q < |rows|
      ensures Agree(rows[q], rows[r], c) <==> s <= q < e
      ensures Less(rows[q], rows[r], c) <==> q < s
    {
      NotBoth(rows[q], rows[r], c);
      NotBoth(rows[r], rows[q], c);
      if q <= r {
        Ordered(rows, ch, q, r, c);
      } else {
        Ordered(rows, ch, r, q, c);
        EndIs(ch, q, r, c);
      }
    }
    assert EqualRows(rows, r, c) == Range(s, e);
    assert LessRows(rows, r, c) == Range(0, s);
    RangeSize(s, e);
    RangeSize(0, s);
  }

  /** The first columns of a row. */
  ghost function Prefix(row: Row, c: nat): seq<int> {
    seq(c + 1, k requires k >= 0 => ColumnOf(row, k))
  }

  ghost function Prefixes(rows: seq<Row>, n: nat, c: nat): set<seq<int>>
    requires n <= |rows|
  {
    if n == 0 then {} else Prefixes(rows, n - 1, c) + {Prefix(rows[n - 1], c)}
  }

  lemma PrefixAgree(a: Row, b: Row, c: nat)
    ensures Prefix(a, c) == Prefix(b, c) <==> Agree(a, b, c)
  {
    if Prefix(a, c) == Prefix(b, c) {
      forall k: nat | k <= c
        ensures ColumnOf(a, k) == ColumnOf(b, k)
      {
        assert Prefix(a, c)[k] == Prefix(b, c)[k];
      }
    }
  }

  lemma {:induction false} InPrefixes(rows: seq<Row>, n: nat, c: nat, x: seq<int>)
    requires n <= |rows|
    ensures x in Prefixes(rows, n, c) <==> exists q: nat :: q < n && Prefix(rows[q], c) == x
  {
    if n > 0 {
      InPrefixes(rows, n - 1, c, x);
    }
  }

  lemma NoPrefixes(rows: seq<Row>, c: nat)
    ensures Prefixes(rows, 0, c) == {}
  {
  }

  lemma PrefixesSize(rows: seq<Row>, r: nat, c: nat)
    requires r < |rows|
    ensures |Prefixes(rows, r + 1, c)| ==
      |Prefixes(rows, r, c)| + if Prefix(rows[r], c) in Prefixes(rows, r, c) then 0 else 1
  {
    hide Prefix;
    if Prefix(rows[r], c) in Prefixes(rows, r, c) {
      assert Prefixes(rows, r + 1, c) == Prefixes(rows, r, c);
    }
  }

  /** A prefix is among the earlier ones exactly if its row does not begin a group. */
  lemma PrefixSeen(rows: seq<Row>, ch: Changes, r: nat, c: nat)
    requires Sorted(rows, ch) && 0 < r < |rows|
    ensures Prefix(rows[r], c) in Prefixes(rows, r, c) <==> At(ch, r) > c
  {
    hide Less, LessAt, Agree, Prefix, Prefixes;
    InPrefixes(rows, r, c, Prefix(rows[r], c));
    if At(ch, r) <= c {
      forall q: nat | q < r
        ensures Prefix(rows[q], c) != Prefix(rows[r], c)
      {
        Ordered(rows, ch, q, r, c);
        NotBoth(rows[q], rows[r], c);
        PrefixAgree(rows[q], rows[r], c);
      }
    } else {
      Ordered(rows, ch, r - 1, r, c);
      PrefixAgree(rows[r - 1], rows[r], c);
    }
  }

  /** nDLt is the number of distinct keys, cut to columns 0..c, among the rows before the group. */
  lemma {:induction false} TrueDistinct(rows: seq<Row>, ch: Changes, r: nat, c: nat)
    requires Sorted(rows, ch) && r < |rows|
    ensures |Prefixes(rows, r + 1, c)| == Before(ch, r, c) + 1
    ensures |Prefixes(rows, Start(ch, r, c), c)| == Before(ch, r, c)
  {
    hide Prefixes, Prefix;
    PrefixesSize(rows, r, c);
    if r == 0 {
      NoPrefixes(rows, c);
    } else {
      TrueDistinct(rows, ch, r - 1, c);
      PrefixSeen(rows, ch, r, c);
    }
  }
}
