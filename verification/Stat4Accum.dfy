/** The accumulator behind stat_init(), stat_push() and stat_get(): one pass over a sorted index leaves
    samples whose counters are exact. */
module Stat4Accums {
  import opened IndexCounts
  import opened Multiples
  import opened Stat4
  import opened Stat4Ranks
  import opened Stat4Steps

  function Zeros(n: nat): seq<nat> {
    seq(n, _ => 0)
  }

  /** An empty sample, as allocated. */
  function Blank(nCol: nat, i: nat): Sample {
    Sample(Zeros(nCol), Zeros(nCol), Zeros(nCol), false, i, 0, 0)
  }

  /** The samples between two rows: what is not complete is zero. */
  ghost predicate Between(a: seq<Sample>, ch: Changes, nCol: nat, n: nat, mx: nat, m: nat)
    requires nCol > 0
  {
    var z := nCol - 1;
    && Good(a, ch, nCol, z, n) && n <= z && |a| <= mx && (|a| == mx ==> Least(a, m, nCol))
    && (|a| < mx ==> Represented(a, ch, nCol))
  }

  ghost predicate BestsOk(best: seq<Sample>, ch: Changes, nCol: nat) {
    |best| == nCol && forall i: nat :: i + 1 < nCol ==> BestOk(SampleAt(best, i), ch, nCol, i)
  }

  /** The periodic samples among the first n rows. */
  function PeriodicRows(n: nat, interval: nat): nat
    requires interval > 0
  {
    n / interval
  }

  lemma PeriodicStep(n: nat, interval: nat)
    requires interval > 0
    ensures PeriodicRows(n + 1, interval) ==
      PeriodicRows(n, interval) + if n / interval != (n + 1) / interval then 1 else 0
  {
    NextQuotient(n, interval, n / interval, n % interval);
  }

  lemma NextQuotient(n: nat, p: nat, q: nat, r: nat)
    requires n == q * p + r && r < p
    ensures n / p == q && (n + 1) / p == if r + 1 == p then q + 1 else q
  {
    DivExact(p, q, r);
    if r + 1 == p {
      assert q * p + p == (q + 1) * p;
      DivExact(p, q + 1, 0);
    } else {
      DivExact(p, q, r + 1);
    }
  }

  /** Periodic samples never fill the buffer. */
  lemma PeriodicFew(n: nat, count: nat, mx: nat)
    requires n <= count && mx > 0
    ensures PeriodicRows(n, count / (mx / 3 + 1) + 1) <= mx / 3 < mx
  {
    var m, p := mx / 3 + 1, count / (mx / 3 + 1) + 1;
    Few(n / p, n % p, p, count / m, count % m, m);
  }

  lemma Few(d: nat, e: nat, p: nat, c: nat, f: nat, m: nat)
    requires d * p + e <= c * m + f && f < m && p == c + 1
    ensures d < m
  {
    if d >= m {
      MulLe(m, d, p);
    }
  }

  lemma BestFilled(s: Sample, ch: Changes, nCol: nat, i: nat, v: nat)
    requires BestOk(s, ch, nCol, i) && i + 1 < nCol
    ensures BestOk(s.(anEq := s.anEq[i := v]), ch, nCol, i)
  {
    var t := s.(anEq := s.anEq[i := v]);
    forall j: nat | j < nCol
      ensures BestColumn(t, ch, nCol, i, j)
    {
      assert BestColumn(s, ch, nCol, i, j);
    }
  }

  lemma StartDealing(a: seq<Sample>, ch: Changes, nCol: nat, n: nat, mx: nat, m: nat)
    requires nCol > 0 && |ch| > 0 && Between(a, ch, nCol, n, mx, m)
    ensures var z := nCol - 1; Dealt(a, ch, nCol, z, n, mx)
  {
  }

  lemma RowsKnown(a: seq<Sample>, ch: Changes, nCol: nat, k: nat)
    requires nCol > 0 && SamplesOk(a, ch, nCol, k)
    ensures forall i: nat :: i < |a| ==> SampleAt(a, i).row < |ch| && Sized(SampleAt(a, i), nCol)
  {
    forall i: nat | i < |a|
      ensures SampleAt(a, i).row < |ch| && Sized(SampleAt(a, i), nCol)
    {
      assert SampleOk(SampleAt(a, i), ch, nCol, k) && ColumnOk(SampleAt(a, i), ch, nCol, k, 0);
    }
  }

  /** When the columns that changed are dealt with and filled in, the samples are ready for the next row. */
  lemma NextIsBetween(a: seq<Sample>, ch: Changes, nCol: nat, x: nat, n: nat, mx: nat, m: nat, cur: Sample)
    requires Dealt(a, ch, nCol, x, n, mx) && CurrentOk(cur, ch, nCol) && x < nCol && (|a| == mx ==> Least(a, m, nCol))
    ensures Between(AllFilled(a, x, cur), ch + [x], nCol, x, mx, m)
    ensures Periodic(AllFilled(a, x, cur)) == Periodic(a) && |AllFilled(a, x, cur)| == |a|
    ensures forall i: nat :: i < |a| ==> SampleAt(AllFilled(a, x, cur), i).row < |ch|
  {
    hide Represented, LastRepresented, CurrentOk, Periodic, AllFilled, InOrder, SampleOk, ZerosBelow, Witnessed,
         Reserved, IsBetter, Sized;
    var b := AllFilled(a, x, cur);
    AllFilledAt(a, x, cur);
    FilledIsGood(a, ch, nCol, x, n, cur);
    RowsKnown(a, ch, nCol, x);
    if |a| == mx {
      FilledIsLeast(a, x, cur, nCol, m);
    } else {
      RepresentedNext(a, ch, nCol, x);
      SameRowsKeep(a, b, ch + [x], nCol, x);
    }
  }

  /** Adding the current row as a periodic sample. */
  lemma PeriodicIsBetween(a: seq<Sample>, b: seq<Sample>, cur: Sample, ch: Changes, nCol: nat, n: nat, mx: nat, m: nat)
    requires nCol > 0 && 0 < mx && ChangesOk(ch, nCol) && CurrentOk(cur, ch, nCol) && Between(a, ch, nCol, n, mx, m)
    requires forall i: nat :: i < |a| ==> SampleAt(a, i).row < cur.row
    requires b == Kept(a, mx, m) + [ZeroFirst(cur.(isPSample := true, iCol := 0), nCol - 1)]
    ensures var z := nCol - 1; Good(b, ch, nCol, z, z) && |b| <= mx
    ensures |b| < mx ==> Represented(b, ch, nCol)
    ensures Periodic(b) == Periodic(a) + 1
  {
    hide Represented, CurrentOk, Periodic, InOrder, SampleOk, ZerosBelow, Reserved, IsBetter, SamplesOk, NewOk,
         AllReserved, SameRows;
    var z, p, c := nCol - 1, cur.(isPSample := true, iCol := 0), Kept(a, mx, m);
    CurrentIsNew(cur, ch, nCol, true);
    NewIsOk(p, ch, nCol, z);
    PeriodicReserved(ZeroFirst(p, z), nCol);
    KeptIsGood(a, mx, m, ch, nCol, z, n);
    ZerosMore(c, ch, nCol, z, n, z);
    KeptRows(a, c, cur.row);
    AppendGood(c, ZeroFirst(p, z), ch, nCol, z, z);
    PeriodicAppended(c, ZeroFirst(p, z));
    if |b| < mx {
      AppendedRows(a, ZeroFirst(p, z));
      CurrentSome(cur, ch, nCol);
      SameRowsKeep(a, b, ch, nCol, z);
    }
  }

  lemma PeriodicReserved(s: Sample, nCol: nat)
    requires s.isPSample
    ensures Reserved(s, nCol)
  {
  }

  lemma CurrentSome(cur: Sample, ch: Changes, nCol: nat)
    requires CurrentOk(cur, ch, nCol)
    ensures |ch| > 0
  {
  }

  lemma KeptRows(a: seq<Sample>, c: seq<Sample>, row: nat)
    requires forall i: nat :: i < |a| ==> SampleAt(a, i).row < row
    requires forall q: nat :: q < |c| ==> From(a, SampleAt(c, q))
    ensures forall q: nat :: q < |c| ==> SampleAt(c, q).row < row
  {
    forall q: nat | q < |c|
      ensures SampleAt(c, q).row < row
    {
      assert From(a, SampleAt(c, q));
      var i: nat :| i < |a| && SampleAt(a, i) == SampleAt(c, q);
      assert SampleAt(a, i).row < row;
    }
  }

  /** After the last row, the counters of each sample are the numbers of rows of the whole index. */
  lemma FinalColumn(s: Sample, ch: Changes, nCol: nat, j: nat)
    requires nCol > 0 && j < nCol && ChangesOk(ch, nCol) && s.row < |ch| && Eq(s, j) != 0
    requires var z := nCol - 1; SampleOk(s, ch + [0], nCol, z)
    ensures Eq(s, j) == End(ch, s.row, j) - Start(ch, s.row, j) && Lt(s, j) == Start(ch, s.row, j)
    ensures DLt(s, j) == Before(ch, s.row, j)
  {
    var ch', z := ch + [0], nCol - 1;
    assert ColumnOk(s, ch', nCol, z, j);
    StartSame(ch, ch', s.row, j);
    assert At(ch', |ch|) <= j;
    EndNext(ch, 0, s.row, j);
    if j == z {
      LastColumn(ch, nCol, s.row);
      if s.row + 1 < |ch| {
        assert At(ch, s.row + 1) < nCol;
      }
    }
  }

  /** nEq, nLt and nDLt of a sample, column by column: the rows that agree with it, the rows before it,
      and the distinct keys among the rows before it. */
  ghost predicate Exact(s: Sample, rows: seq<Row>, nCol: nat) {
    s.row < |rows| && forall c: nat :: c < nCol ==> ExactAt(s, rows, c)
  }

  ghost predicate ExactAt(s: Sample, rows: seq<Row>, c: nat)
    requires s.row < |rows|
  {
    && Eq(s, c) == |EqualRows(rows, s.row, c)| && Lt(s, c) == |LessRows(rows, s.row, c)| <= |rows|
    && DLt(s, c) == |Prefixes(rows, Lt(s, c), c)|
  }

  lemma CountsAreExact(s: Sample, rows: seq<Row>, ch: Changes, nCol: nat, c: nat)
    requires Sorted(rows, ch) && s.row < |rows|
    requires Eq(s, c) == End(ch, s.row, c) - Start(ch, s.row, c) && Lt(s, c) == Start(ch, s.row, c)
    requires DLt(s, c) == Before(ch, s.row, c)
    ensures ExactAt(s, rows, c)
  {
    TrueCounts(rows, ch, s.row, c);
    TrueDistinct(rows, ch, s.row, c);
  }

  lemma SampleIsExact(a: seq<Sample>, i: nat, rows: seq<Row>, ch: Changes, nCol: nat)
    requires nCol > 0 && ChangesOk(ch, nCol) && Sorted(rows, ch) && i < |a| && SampleAt(a, i).row < |ch|
    requires var z := nCol - 1; SamplesOk(a, ch + [0], nCol, z) && ZerosBelow(a, nCol, 0)
    ensures Exact(SampleAt(a, i), rows, nCol)
  {
    hide ExactAt, Sorted, ChangesOk;
    var s, z := SampleAt(a, i), nCol - 1;
    assert |rows| == |ch| by {
      SortedSize(rows, ch);
    }
    assert SampleOk(s, ch + [0], nCol, z);
    forall c: nat | c < nCol
      ensures ExactAt(s, rows, c)
    {
      assert Eq(SampleAt(a, i), c) != 0;
      FinalColumn(s, ch, nCol, c);
      CountsAreExact(s, rows, ch, nCol, c);
    }
  }

  lemma SortedSize(rows: seq<Row>, ch: Changes)
    requires Sorted(rows, ch)
    ensures |rows| == |ch|
  {
  }

  /** Some sample agrees with row r in columns 0..c. */
  ghost predicate KeySampled(a: seq<Sample>, rows: seq<Row>, r: nat, c: nat)
    requires r < |rows|
  {
    exists i: nat :: i < |a| && RowAgrees(SampleAt(a, i), rows, r, c)
  }

  ghost predicate RowAgrees(s: Sample, rows: seq<Row>, r: nat, c: nat)
    requires r < |rows|
  {
    s.row < |rows| && Agree(rows[s.row], rows[r], c)
  }

  /** The buffer is full, and each sample that is not periodic has been chosen for a key prefix of at least
      as many rows as agree with row r in columns 0..c. */
  ghost predicate NoneSmaller(a: seq<Sample>, rows: seq<Row>, r: nat, c: nat, mx: nat)
    requires r < |rows|
  {
    |a| == mx && AtLeast(a, |EqualRows(rows, r, c)|)
  }

  /** A key prefix has no sample only if the samples went to keys that are at least as frequent. */
  lemma MostSampled(a: seq<Sample>, rows: seq<Row>, ch: Changes, nCol: nat, mx: nat, r: nat, c: nat)
    requires Sorted(rows, ch) && r < |rows| && c + 1 < nCol && Ranked(a, ch + [0], nCol, mx, nCol - 1)
    requires forall i: nat :: i < |a| ==> SampleAt(a, i).row < |ch|
    ensures KeySampled(a, rows, r, c) || NoneSmaller(a, rows, r, c, mx)
  {
    hide Sorted, KeySampled, EqualRows, AtLeast;
    var ch' := ch + [0];
    SortedSize(rows, ch);
    assert At(ch', |ch|) <= c;
    assert !Open(ch', r, c);
    assert RankedAt(a, ch', mx, r, c);
    if Covered(a, ch', r, c) {
      var i: nat :| i < |a| && Covers(SampleAt(a, i), ch', r, c);
      GroupSampled(a, rows, ch, i, r, c);
    } else {
      TrueCounts(rows, ch, r, c);
      EndNext(ch, 0, r, c);
      StartSame(ch, ch', r, c);
    }
  }

  lemma GroupSampled(a: seq<Sample>, rows: seq<Row>, ch: Changes, i: nat, r: nat, c: nat)
    requires Sorted(rows, ch) && r < |rows| && i < |a| && SampleAt(a, i).row < |ch|
    requires SameGroup(ch + [0], SampleAt(a, i).row, r, c)
    ensures KeySampled(a, rows, r, c)
  {
    var q := SampleAt(a, i).row;
    StartSame(ch, ch + [0], q, c);
    StartSame(ch, ch + [0], r, c);
    if q <= r {
      Ordered(rows, ch, q, r, c);
    } else {
      Ordered(rows, ch, r, q, c);
      NotBoth(rows[r], rows[q], c);
    }
    assert RowAgrees(SampleAt(a, i), rows, r, c);
  }

  /** Unless the buffer is full, every key prefix is sampled. */
  lemma AllSampled(a: seq<Sample>, rows: seq<Row>, ch: Changes, nCol: nat, r: nat, c: nat)
    requires Sorted(rows, ch) && r < |rows| && c + 1 < nCol && Represented(a, ch + [0], nCol)
    requires forall i: nat :: i < |a| ==> SampleAt(a, i).row < |ch|
    ensures KeySampled(a, rows, r, c)
  {
    var ch' := ch + [0];
    assert At(ch', |ch|) <= c;
    assert !Open(ch', r, c);
    assert HasSample(a, ch', r, c);
    var i: nat :| i < |a| && SameGroup(ch', SampleAt(a, i).row, r, c);
    GroupSampled(a, rows, ch, i, r, c);
  }

  /** The rows of an index are distinct and in order. */
  ghost predicate Ascending(rows: seq<Row>, nCol: nat)
    requires nCol > 0
  {
    forall r: nat :: 0 < r < |rows| ==> AscendsAt(rows, r, nCol)
  }

  ghost predicate AscendsAt(rows: seq<Row>, r: nat, nCol: nat)
    requires nCol > 0 && 0 < r < |rows|
  {
    Less(rows[r - 1], rows[r], nCol - 1)
  }

  /** The comparisons of the generated scan loop: the first column that differs, of those tested. */
  method LeftmostChange(prev: Row, row: Row, nColTest: nat) returns (x: nat)
    requires Less(prev, row, nColTest)
    ensures x <= nColTest && LessAt(prev, row, x)
  {
    x := 0;
    while x < nColTest
      invariant x <= nColTest && forall j: nat :: j < x ==> ColumnOf(prev, j) == ColumnOf(row, j)
    {
      if ColumnOf(row, x) != ColumnOf(prev, x) {
        return;
      }
      x := x + 1;
    }
  }

  lemma SortedNext(rows: seq<Row>, ch: Changes, x: nat)
    requires |ch| < |rows| && Sorted(rows[..|ch|], ch) && (|ch| > 0 ==> LessAt(rows[|ch| - 1], rows[|ch|], x))
    ensures Sorted(rows[..|ch| + 1], ch + [x])
  {
    var n, ch' := |ch|, ch + [x];
    var rows' := rows[..n + 1];
    forall r: nat | 0 < r < |rows'|
      ensures Follows(rows', ch', r)
    {
      if r < n {
        assert Follows(rows[..n], ch, r);
      }
    }
  }

  class Stat4Accum {
    const nCol: nat
    const mxSample: nat
    const nPSample: nat
    var nRow: nat
    var current: Sample
    var aBest: seq<Sample>
    var a: seq<Sample>
    var iMin: nat
    var nMaxEqZero: nat
    var iPrn: nat
    ghost const count: nat
    ghost var ch: Changes

    ghost predicate Valid()
      reads this
    {
      && nCol > 0 && mxSample > 0 && nPSample == count / (mxSample / 3 + 1) + 1
      && nRow == |ch| <= count && ChangesOk(ch, nCol) && |aBest| == nCol
      && Between(a, ch, nCol, nMaxEqZero, mxSample, iMin)
      && Periodic(a) <= PeriodicRows(nRow, nPSample) && EveryPth(a, nRow, nPSample)
      && Ranked(a, ch, nCol, mxSample, nCol - 1)
      && if nRow == 0 then
           a == [] && current == Blank(nCol, current.iCol) && current.iCol < nCol && BestBlank(aBest, nCol)
         else CurrentOk(current, ch, nCol) && BestsOk(aBest, ch, nCol)
    }

    static ghost predicate BestBlank(best: seq<Sample>, nCol: nat) {
      |best| == nCol && forall i: nat :: i < |best| ==> SampleAt(best, i) == Blank(nCol, i)
    }

    /** statInit() */
    constructor (nCol: nat, count: nat, mxSample: nat, seed: nat)
      requires nCol > 0 && mxSample > 0
      ensures Valid() && ch == [] && this.nCol == nCol && this.count == count && this.mxSample == mxSample
    {
      this.nCol, this.count, this.mxSample := nCol, count, mxSample;
      nPSample := count / (mxSample / 3 + 1) + 1;
      nRow, iMin, nMaxEqZero, iPrn := 0, 0, 0, seed;
      current := Blank(nCol, 0);
      a, ch := [], [];
      aBest := seq(nCol, i requires 0 <= i < nCol => Blank(nCol, i));
      new;
    }

    // ---- sampleInsert() ----------------------------------------------------------------------------

    /** The search for samples that share the group of the new one. */
    method FindUpgrade(p: Sample) returns (periodic: bool, u: int)
      requires p.iCol + 1 < nCol && |ch| > 0 && AllReserved(a, nCol) && Eq(p, p.iCol) == SoFar(ch, p.iCol)
      requires var k := p.iCol + 1; SamplesOk(a, ch, nCol, k)
      ensures periodic ==> Shared(a, p.iCol, true)
      ensures !periodic && u < 0 ==> !Shared(a, p.iCol, true) && !Shared(a, p.iCol, false)
      ensures !periodic && u >= 0 ==> !Shared(a, p.iCol, true) && Chosen(a, u, p.iCol, nCol)
    {
      hide SampleOk, Reserved, Eq, IsBetter, SampleAt, Open, Start, SoFar;
      u := -1;
      var i: int := |a| - 1;
      while i >= 0
        invariant -1 <= i < |a| && -1 <= u < |a|
        invariant forall q: nat :: i < q < |a| ==> !ZeroAt(SampleAt(a, q), p.iCol, true)
        invariant u < 0 ==> forall q: nat :: i < q < |a| ==> !ZeroAt(SampleAt(a, q), p.iCol, false)
        invariant u >= 0 ==> ZeroAt(SampleAt(a, u), p.iCol, false)
        invariant u >= 0 ==> forall q: nat :: i < q < |a| && ZeroAt(SampleAt(a, q), p.iCol, false) ==>
          !IsBetter(SampleAt(a, q), SampleAt(a, u), nCol)
      {
        var old_ := SampleAt(a, i);
        if Eq(old_, p.iCol) == 0 {
          if old_.isPSample {
            assert ZeroAt(SampleAt(a, i), p.iCol, true);
            return true, u;
          }
          OlderIsWorse(a, i, p, ch, nCol);
          assert old_.iCol > p.iCol;
          assert IsBetter(p, old_, nCol);
          if u < 0 || IsBetter(old_, SampleAt(a, u), nCol) {
            if u >= 0 {
              BetterThanAll(a, i + 1, u, i, p.iCol, nCol);
            }
            NotBetterItself(old_, nCol);
            u := i;
          }
        }
        i := i - 1;
      }
      periodic := false;
    }

    static lemma OlderIsWorse(a: seq<Sample>, q: nat, p: Sample, ch: Changes, nCol: nat)
      requires q < |a| && p.iCol + 1 < nCol && |ch| > 0 && AllReserved(a, nCol) && Eq(p, p.iCol) == SoFar(ch, p.iCol)
      requires var k := p.iCol + 1; SamplesOk(a, ch, nCol, k)
      requires Eq(SampleAt(a, q), p.iCol) == 0 && !SampleAt(a, q).isPSample
      ensures SampleAt(a, q).iCol > p.iCol && IsBetter(p, SampleAt(a, q), nCol)
    {
      var k := p.iCol + 1;
      assert SampleOk(SampleAt(a, q), ch, nCol, k) && Reserved(SampleAt(a, q), nCol);
      SharedIsWorse(p, SampleAt(a, q), ch, nCol, k, p.iCol);
    }

    static lemma NotBetterItself(s: Sample, nCol: nat)
      ensures !IsBetter(s, s, nCol)
    {
      if IsBetter(s, s, nCol) {
        PreferenceIsOrder(s, s, s, nCol);
      }
    }

    /** What is better than the best of some samples is better than all of them. */
    static lemma BetterThanAll(a: seq<Sample>, from: nat, u: nat, i: nat, c: nat, nCol: nat)
      requires u < |a| && i < |a| && IsBetter(SampleAt(a, i), SampleAt(a, u), nCol)
      requires forall q: nat :: from <= q < |a| && ZeroAt(SampleAt(a, q), c, false) ==>
        !IsBetter(SampleAt(a, q), SampleAt(a, u), nCol)
      ensures forall q: nat :: from <= q < |a| && ZeroAt(SampleAt(a, q), c, false) ==>
        !IsBetter(SampleAt(a, q), SampleAt(a, i), nCol)
    {
      hide IsBetter, ZeroAt;
      forall q: nat | from <= q < |a| && ZeroAt(SampleAt(a, q), c, false)
        ensures !IsBetter(SampleAt(a, q), SampleAt(a, i), nCol)
      {
        PreferenceIsOrder(SampleAt(a, i), SampleAt(a, u), SampleAt(a, q), nCol);
        if IsBetter(SampleAt(a, q), SampleAt(a, i), nCol) {
          PreferenceIsOrder(SampleAt(a, q), SampleAt(a, i), SampleAt(a, u), nCol);
        }
      }
    }

    /** The search for the least desirable sample. */
    method FindMin()
      requires |a| == mxSample && Periodic(a) < mxSample
      modifies this`iMin
      ensures Least(a, iMin, nCol)
    {
      hide IsBetter, SampleAt;
      var m: int := -1;
      var i := 0;
      while i < mxSample
        invariant i <= mxSample && -1 <= m < i
        invariant m < 0 ==> forall q: nat :: q < i ==> SampleAt(a, q).isPSample
        invariant m >= 0 ==> !SampleAt(a, m).isPSample
        invariant m >= 0 ==> forall q: nat :: q < i && !SampleAt(a, q).isPSample ==>
          !IsBetter(SampleAt(a, m), SampleAt(a, q), nCol)
      {
        if !SampleAt(a, i).isPSample {
          if m < 0 || IsBetter(SampleAt(a, m), SampleAt(a, i), nCol) {
            if m >= 0 {
              WorseThanAll(a, i, m, i, nCol);
            }
            NotBetterItself(SampleAt(a, i), nCol);
            m := i;
          }
        }
        i := i + 1;
      }
      if m < 0 {
        AllPeriodic(a);
      }
      iMin := m;
    }

    static lemma WorseThanAll(a: seq<Sample>, to: nat, m: nat, i: nat, nCol: nat)
      requires to <= |a| && m < |a| && i < |a| && IsBetter(SampleAt(a, m), SampleAt(a, i), nCol)
      requires forall q: nat :: q < to && !SampleAt(a, q).isPSample ==> !IsBetter(SampleAt(a, m), SampleAt(a, q), nCol)
      ensures forall q: nat :: q < to && !SampleAt(a, q).isPSample ==> !IsBetter(SampleAt(a, i), SampleAt(a, q), nCol)
    {
      hide IsBetter;
      forall q: nat | q < to && !SampleAt(a, q).isPSample
        ensures !IsBetter(SampleAt(a, i), SampleAt(a, q), nCol)
      {
        PreferenceIsOrder(SampleAt(a, m), SampleAt(a, i), SampleAt(a, q), nCol);
        if IsBetter(SampleAt(a, i), SampleAt(a, q), nCol) {
          PreferenceIsOrder(SampleAt(a, i), SampleAt(a, q), SampleAt(a, m), nCol);
        }
      }
    }

    /** sampleInsert(): the new sample, its first z counters set to zero, joins the others. */
    method SampleInsert(p: Sample, z: nat)
      requires |a| <= mxSample && mxSample > 0 && |ch| > 0 && (|a| == mxSample ==> Least(a, iMin, nCol))
      requires Periodic(a) + (if p.isPSample then 1 else 0) < mxSample
      requires !p.isPSample ==> p.iCol + 1 < nCol && AllReserved(a, nCol) && Eq(p, p.iCol) == SoFar(ch, p.iCol)
      requires var k := p.iCol + 1; SamplesOk(a, ch, nCol, if p.isPSample then z else k)
      modifies this`a, this`iMin, this`nMaxEqZero
      ensures Inserted(old(a), a, p, z, mxSample, old(iMin), nCol)
      ensures |a| <= mxSample && (|a| == mxSample ==> Least(a, iMin, nCol))
      ensures nMaxEqZero == if z > old(nMaxEqZero) then z else old(nMaxEqZero)
    {
      hide IsBetter, SamplesOk, AllReserved, Eq, SoFar, Periodic, Shared;
      if z > nMaxEqZero {
        nMaxEqZero := z;
      }
      if !p.isPSample {
        var periodic, u := FindUpgrade(p);
        if periodic {
          return;
        }
        if u >= 0 {
          ChosenSized(a, u, p, ch, nCol);
          ghost var was := a;
          a := a[u := SampleAt(a, u).(iCol := p.iCol, anEq := SampleAt(a, u).anEq[p.iCol := Eq(p, p.iCol)])];
          assert Chosen(was, u, p.iCol, nCol) && RaisedAt(was, a, u, p);
          RaisedRows(was, a, u, p);
          ChosenShares(was, u, p.iCol, nCol);
          if |a| >= mxSample {
            FindMin();
          }
          return;
        }
      }
      ghost var was := a;
      KeptSize(a, mxSample, iMin, nCol);
      if |a| >= mxSample {
        a := a[..iMin] + a[iMin + 1..];
      }
      assert a == Kept(was, mxSample, iMin);
      a := a + [ZeroFirst(p, z)];
      PeriodicAppended(Kept(was, mxSample, iMin), ZeroFirst(p, z));
      if |a| >= mxSample {
        FindMin();
      }
    }

    static lemma KeptSize(a: seq<Sample>, mx: nat, m: nat, nCol: nat)
      requires |a| <= mx && mx > 0 && (|a| == mx ==> Least(a, m, nCol))
      ensures |Kept(a, mx, m)| < mx && Periodic(Kept(a, mx, m)) == Periodic(a)
    {
      if |a| == mx {
        PeriodicDropped(a, m);
      }
    }

    static lemma ChosenShares(a: seq<Sample>, u: nat, c: nat, nCol: nat)
      requires Chosen(a, u, c, nCol)
      ensures Shared(a, c, false)
    {
    }

    static lemma ChosenSized(a: seq<Sample>, u: nat, p: Sample, ch: Changes, nCol: nat)
      requires u < |a| && p.iCol + 1 < nCol
      requires var k := p.iCol + 1; SamplesOk(a, ch, nCol, k)
      ensures p.iCol < |SampleAt(a, u).anEq|
    {
      var k := p.iCol + 1;
      assert SampleOk(SampleAt(a, u), ch, nCol, k);
    }

    // ---- samplePushPrevious() ----------------------------------------------------------------------

    /** The best row of each group that is complete becomes a sample, if it is worth it. */
    method PushBest(x: nat)
      requires Valid() && nRow > 0 && x < nCol
      modifies this`a, this`iMin, this`nMaxEqZero, this`aBest
      ensures Dealt(a, ch, nCol, x, nMaxEqZero, mxSample) && nMaxEqZero < nCol
      ensures |a| == mxSample ==> Least(a, iMin, nCol)
      ensures BestsOk(aBest, ch, nCol) && Periodic(a) == Periodic(old(a)) && |aBest| == nCol
      ensures SamePeriodic(old(a), a) && Ranked(a, ch, nCol, mxSample, x)
      ensures forall i: nat :: i < x && i + 1 < nCol ==> SampleAt(aBest, i) == SampleAt(old(aBest), i)
    {
      hide PeriodicRow, EveryPth, Between, BestsOk, CurrentOk, Least, Periodic, Dealt, Inserted, PeriodicRows, IsBetter,
           BetterPostFrom, SamplesOk, AllReserved, Ranked;
      StartDealing(a, ch, nCol, nMaxEqZero, mxSample, iMin);
      BetweenFacts(a, ch, nCol, nMaxEqZero, mxSample, iMin);
      PeriodicFew(nRow, count, mxSample);
      var i: int := nCol - 2;
      ghost var k: nat := nCol - 1;
      while i >= x
        invariant k == i + 1 && x <= k < nCol && nMaxEqZero < nCol
        invariant Dealt(a, ch, nCol, k, nMaxEqZero, mxSample)
        invariant |a| == mxSample ==> Least(a, iMin, nCol)
        invariant BestsOk(aBest, ch, nCol) && Periodic(a) == Periodic(old(a)) && SamePeriodic(old(a), a)
        invariant |aBest| == nCol && Ranked(a, ch, nCol, mxSample, k)
        invariant forall c: nat :: c < x && c + 1 < nCol ==> SampleAt(aBest, c) == SampleAt(old(aBest), c)
      {
        ghost var was, n := a, nMaxEqZero;
        BestReady(aBest, ch, nCol, i, current);
        var best := SampleAt(aBest, i).(anEq := SampleAt(aBest, i).anEq[i := Eq(current, i)]);
        aBest := aBest[i := best];
        DealtFacts(a, ch, nCol, k, n, mxSample, iMin);
        if |a| < mxSample || IsBetter(best, SampleAt(a, iMin), nCol) {
          ghost var m := iMin;
          SampleInsert(best, i);
          InsertedRows(was, a, best, i, mxSample, m, nCol);
          InsertedRanks(was, a, best, ch, nCol, mxSample, m);
          ZerosMoreDealt(was, ch, nCol, k, n, nMaxEqZero, mxSample);
          InsertedIsDealt(was, a, best, ch, nCol, nMaxEqZero, mxSample, m);
        } else {
          PassedOverIsDealt(a, best, ch, nCol, n, mxSample, iMin);
          PassedOverRanks(a, best, ch, nCol, mxSample, iMin);
        }
        i, k := i - 1, i;
      }
    }

    static lemma BetweenFacts(a: seq<Sample>, ch: Changes, nCol: nat, n: nat, mx: nat, m: nat)
      requires nCol > 0 && Between(a, ch, nCol, n, mx, m)
      ensures n < nCol && (|a| == mx ==> Least(a, m, nCol))
    {
    }

    static lemma DealtFacts(a: seq<Sample>, ch: Changes, nCol: nat, k: nat, n: nat, mx: nat, m: nat)
      requires Dealt(a, ch, nCol, k, n, mx) && (|a| == mx ==> Least(a, m, nCol))
      ensures |a| <= mx && SamplesOk(a, ch, nCol, k) && AllReserved(a, nCol) && (|a| == mx ==> m < |a|)
    {
    }

    static lemma ZerosMoreDealt(a: seq<Sample>, ch: Changes, nCol: nat, k: nat, n: nat, n': nat, mx: nat)
      requires Dealt(a, ch, nCol, k, n, mx) && n <= n'
      ensures Dealt(a, ch, nCol, k, n', mx)
    {
      hide Witnessed, Represented, LastRepresented;
      ZerosMore(a, ch, nCol, k, n, n');
    }

    /** The best row of a group, given the group's size. */
    static lemma BestReady(best: seq<Sample>, ch: Changes, nCol: nat, i: nat, cur: Sample)
      requires BestsOk(best, ch, nCol) && CurrentOk(cur, ch, nCol) && i + 1 < nCol
      ensures i < |best| && i < |SampleAt(best, i).anEq|
      ensures var p := SampleAt(best, i).(anEq := SampleAt(best, i).anEq[i := Eq(cur, i)]);
        && NewOk(p, ch, nCol, i) && p.iCol == i && !p.isPSample && Open(ch, p.row, i) && Eq(p, i) == SoFar(ch, i)
        && BestsOk(best[i := p], ch, nCol)
    {
      var s := SampleAt(best, i);
      assert BestOk(s, ch, nCol, i);
      var p := s.(anEq := s.anEq[i := Eq(cur, i)]);
      assert CurrentColumn(cur, ch, i);
      BestIsNew(s, ch, nCol, i);
      BestFilled(s, ch, nCol, i, Eq(cur, i));
      var b := best[i := p];
      forall j: nat | j + 1 < nCol
        ensures BestOk(SampleAt(b, j), ch, nCol, j)
      {
        assert SampleAt(b, j) == if j == i then p else SampleAt(best, j);
      }
    }

    /** Zeros from column x on are replaced by the counters of the current row. */
    method FillZeros(x: nat)
      requires x < nCol && Sized(current, nCol) && forall i: nat :: i < |a| ==> Sized(SampleAt(a, i), nCol)
      modifies this`a
      ensures a == AllFilled(old(a), x, current)
    {
      var i: int := |a| - 1;
      while i >= 0
        invariant -1 <= i < |a| == |old(a)|
        invariant forall q: nat :: q < |a| ==>
          SampleAt(a, q) == if q > i then Filled(SampleAt(old(a), q), x, current) else SampleAt(old(a), q)
      {
        ghost var s := SampleAt(old(a), i);
        assert Sized(s, nCol) && SampleAt(a, i) == s;
        var j := x;
        while j < nCol
          invariant x <= j <= nCol && |a| == |old(a)| && Sized(SampleAt(a, i), nCol)
          invariant forall q: nat :: q < |a| && q != i ==>
            SampleAt(a, q) == if q > i then Filled(SampleAt(old(a), q), x, current) else SampleAt(old(a), q)
          invariant SampleAt(a, i) == s.(anEq := SampleAt(a, i).anEq)
          invariant forall c: nat :: c < nCol ==>
            Eq(SampleAt(a, i), c) == if c < j then Eq(Filled(s, x, current), c) else Eq(s, c)
        {
          if SampleAt(a, i).anEq[j] == 0 {
            a := a[i := SampleAt(a, i).(anEq := SampleAt(a, i).anEq[j := Eq(current, j)])];
          }
          j := j + 1;
        }
        SameCounters(SampleAt(a, i), Filled(s, x, current), nCol);
        i := i - 1;
      }
      AllFilledAt(old(a), x, current);
      SameSamples(a, AllFilled(old(a), x, current));
    }

    static lemma SameCounters(s: Sample, t: Sample, nCol: nat)
      requires |s.anEq| == nCol == |t.anEq| && s == t.(anEq := s.anEq)
      requires forall c: nat :: c < nCol ==> Eq(s, c) == Eq(t, c)
      ensures s == t
    {
      forall c: nat | c < nCol
        ensures s.anEq[c] == t.anEq[c]
      {
        assert Eq(s, c) == Eq(t, c);
      }
      assert s.anEq == t.anEq;
    }

    static lemma SameSamples(a: seq<Sample>, b: seq<Sample>)
      requires |a| == |b| && forall q: nat :: q < |a| ==> SampleAt(a, q) == SampleAt(b, q)
      ensures a == b
    {
      forall q: nat | q < |a|
        ensures a[q] == b[q]
      {
        assert SampleAt(a, q) == SampleAt(b, q);
      }
    }

    static lemma ZerosDown(a: seq<Sample>, ch: Changes, nCol: nat, x: nat, n: nat, mx: nat, m: nat)
      requires nCol > 0 && Between(a, ch, nCol, x, mx, m) && ZerosBelow(a, nCol, n) && n <= x
      ensures Between(a, ch, nCol, n, mx, m)
    {
    }

    static lemma DealtZeros(a: seq<Sample>, ch: Changes, nCol: nat, k: nat, n: nat, mx: nat)
      requires Dealt(a, ch, nCol, k, n, mx)
      ensures ZerosBelow(a, nCol, n) && SamplesOk(a, ch, nCol, k)
    {
    }

    static lemma DealtReserved(a: seq<Sample>, ch: Changes, nCol: nat, k: nat, n: nat, mx: nat)
      requires Dealt(a, ch, nCol, k, n, mx)
      ensures AllReserved(a, nCol)
    {
    }

    /** The current row is the last of its groups in columns from x on: their best rows become samples,
        and the counters left at zero are set. */
    method SamplePushPrevious(x: nat)
      requires Valid() && nRow > 0 && x < nCol
      modifies this`a, this`iMin, this`nMaxEqZero, this`aBest
      ensures Between(a, ch + [x], nCol, nMaxEqZero, mxSample, iMin) && nMaxEqZero <= x
      ensures BestsOk(aBest, ch, nCol) && |aBest| == nCol
      ensures forall i: nat :: i < x && i + 1 < nCol ==> SampleAt(aBest, i) == SampleAt(old(aBest), i)
      ensures SamePeriodic(old(a), a) && Ranked(a, ch + [x], nCol, mxSample, nCol - 1)
      ensures Periodic(a) == Periodic(old(a)) && forall i: nat :: i < |a| ==> SampleAt(a, i).row < |ch|
    {
      PushBest(x);
      hide Between, BestsOk, Least, Periodic, Dealt, ZerosBelow, SamplesOk, AllFilled, PeriodicRow, EveryPth,
           AllReserved, Ranked;
      FilledRows(a, x, current);
      DealtReserved(a, ch, nCol, x, nMaxEqZero, mxSample);
      NextRanks(a, ch, nCol, x, x, mxSample, current);
      DealtZeros(a, ch, nCol, x, nMaxEqZero, mxSample);
      RowsKnown(a, ch, nCol, x);
      NextIsBetween(a, ch, nCol, x, nMaxEqZero, mxSample, iMin, current);
      if x < nMaxEqZero {
        FillZeros(x);
        nMaxEqZero := x;
      } else {
        NothingToFill(a, nCol, nMaxEqZero, x, current);
        ZerosDown(a, ch + [x], nCol, x, nMaxEqZero, mxSample, iMin);
      }
    }

    // ---- statPush() --------------------------------------------------------------------------------

    /** The counters of the current row, given the first column that differs from the row before. */
    method UpdateCurrent(x: nat)
      requires Sized(current, nCol) && x < nCol
      modifies this`current
      ensures current == NextCurrent(old(current), x).(row := old(current).row)
    {
      hide NextCurrent;
      ghost var s := current;
      var i := 0;
      while i < x
        invariant i <= x && current == s.(anEq := current.anEq) && |current.anEq| == nCol
        invariant forall j: nat :: j < nCol ==> current.anEq[j] == if j < i then s.anEq[j] + 1 else s.anEq[j]
      {
        current := current.(anEq := current.anEq[i := current.anEq[i] + 1]);
        i := i + 1;
      }
      while i < nCol
        invariant x <= i <= nCol && current == s.(anEq := current.anEq, anLt := current.anLt, anDLt := current.anDLt)
        invariant |current.anEq| == |current.anLt| == |current.anDLt| == nCol
        invariant forall j: nat :: j < nCol ==>
          current.anEq[j] == if j < x then s.anEq[j] + 1 else if j < i then 1 else s.anEq[j]
        invariant forall j: nat :: j < nCol ==>
          current.anLt[j] == if x <= j < i then s.anLt[j] + s.anEq[j] else s.anLt[j]
        invariant forall j: nat :: j < nCol ==> current.anDLt[j] == if x <= j < i then s.anDLt[j] + 1 else s.anDLt[j]
      {
        current := current.(anDLt := current.anDLt[i := current.anDLt[i] + 1],
                            anLt := current.anLt[i := current.anLt[i] + current.anEq[i]],
                            anEq := current.anEq[i := 1]);
        i := i + 1;
      }
      NextCurrentIs(s, current, x, nCol);
    }

    static lemma NextCurrentIs(s: Sample, t: Sample, x: nat, nCol: nat)
      requires Sized(s, nCol) && Sized(t, nCol) && x < nCol && t == s.(anEq := t.anEq, anLt := t.anLt, anDLt := t.anDLt)
      requires forall j: nat :: j < nCol ==> t.anEq[j] == if j < x then s.anEq[j] + 1 else 1
      requires forall j: nat :: j < nCol ==> t.anLt[j] == if x <= j then s.anLt[j] + s.anEq[j] else s.anLt[j]
      requires forall j: nat :: j < nCol ==> t.anDLt[j] == if x <= j then s.anDLt[j] + 1 else s.anDLt[j]
      ensures t == NextCurrent(s, x).(row := s.row)
    {
      var n := NextCurrent(s, x);
      assert t.anEq == n.anEq && t.anLt == n.anLt && t.anDLt == n.anDLt;
    }

    /** The current row becomes the best of each group it starts, or is better in. */
    method UpdateBest(x: nat)
      requires |aBest| == nCol && nCol > 0 && ChangesOk(ch, nCol) && CurrentOk(current, ch, nCol)
      requires forall i: nat :: i < x && i + 1 < nCol ==> NextBestOk(SampleAt(aBest, i), current, ch, nCol, i)
      modifies this`aBest, this`current
      ensures BestsOk(aBest, ch, nCol) && |aBest| == nCol
      ensures CurrentOk(current, ch, nCol) && current == old(current).(iCol := current.iCol)
      ensures forall i: nat :: i + 1 < nCol ==>
        SampleAt(aBest, i) == BestAfter(old(current), SampleAt(old(aBest), i), x, i, nCol)
    {
      hide CurrentOk, BestOk, BetterPostFrom, NextBestOk, BestAfter, SampleAt;
      ghost var cur := current;
      var i := 0;
      while i < nCol - 1
        invariant i <= nCol - 1 && |aBest| == nCol && CurrentOk(current, ch, nCol)
        invariant current == old(current).(iCol := current.iCol)
        invariant forall j: nat :: j < i ==> BestOk(SampleAt(aBest, j), ch, nCol, j)
        invariant forall j: nat :: i <= j && j + 1 < nCol ==> SampleAt(aBest, j) == SampleAt(old(aBest), j)
        invariant forall j: nat :: j < i ==> SampleAt(aBest, j) == BestAfter(cur, SampleAt(old(aBest), j), x, j, nCol)
      {
        CurrentColumnSet(current, ch, nCol, i);
        current := current.(iCol := i);
        CurrentIsBest(current, ch, nCol, i);
        var better := i >= x;
        if i < x {
          BestColumnIs(SampleAt(aBest, i), cur, current, ch, nCol, i);
          better := IsBetterPost(current, SampleAt(aBest, i), nCol);
        }
        BestAfterIs(cur, current, SampleAt(aBest, i), x, i, nCol);
        ghost var was := aBest;
        if better {
          aBest := aBest[i := current];
        }
        BestSet(was, aBest, i);
        i := i + 1;
      }
    }

    static function BestAfter(cur: Sample, s: Sample, x: nat, i: nat, nCol: nat): Sample {
      if i >= x || BetterPostFrom(cur, s, i + 1, nCol) then cur.(iCol := i) else s
    }

    static lemma BestSet(a: seq<Sample>, b: seq<Sample>, i: nat)
      requires |a| == |b| && i < |a| && forall j: nat :: j < |a| && j != i ==> b[j] == a[j]
      ensures forall j: nat :: j < |a| && j != i ==> SampleAt(b, j) == SampleAt(a, j)
      ensures SampleAt(b, i) == b[i] && SampleAt(a, i) == a[i]
    {
    }

    static lemma CurrentColumnSet(s: Sample, ch: Changes, nCol: nat, i: nat)
      requires CurrentOk(s, ch, nCol) && i < nCol
      ensures CurrentOk(s.(iCol := i), ch, nCol)
    {
      forall j: nat | j < nCol
        ensures CurrentColumn(s.(iCol := i), ch, j)
      {
        assert CurrentColumn(s, ch, j);
      }
    }

    /** The best row of a group that goes on, unless the current row is better. */
    static ghost predicate NextBestOk(s: Sample, cur: Sample, ch: Changes, nCol: nat, i: nat) {
      var k := i + 1;
      s.iCol == i && (!BetterPostFrom(cur.(iCol := i), s, k, nCol) ==> BestOk(s, ch, nCol, i))
    }

    static lemma BestColumnIs(s: Sample, cur: Sample, cur': Sample, ch: Changes, nCol: nat, i: nat)
      requires NextBestOk(s, cur, ch, nCol, i) && cur' == cur.(iCol := i)
      ensures s.iCol == i
      ensures BetterPostFrom(cur', s, i + 1, nCol) || BestOk(s, ch, nCol, i)
    {
    }

    static lemma BestAfterIs(cur: Sample, cur': Sample, s: Sample, x: nat, i: nat, nCol: nat)
      requires cur' == cur.(iCol := i)
      ensures BestAfter(cur, s, x, i, nCol) == if i >= x || BetterPostFrom(cur', s, i + 1, nCol) then cur' else s
    {
      PostKept(cur, cur', s, s, i + 1, nCol);
    }

    /** The first row: each group has one row. */
    method FirstCurrent()
      requires current == Blank(nCol, current.iCol)
      modifies this`current
      ensures current == old(current).(anEq := Ones(nCol))
    {
      ghost var s := current;
      var i := 0;
      while i < nCol
        invariant i <= nCol && |current.anEq| == nCol && current == s.(anEq := current.anEq)
        invariant forall j: nat :: j < i ==> current.anEq[j] == 1
      {
        current := current.(anEq := current.anEq[i := 1]);
        i := i + 1;
      }
      assert current.anEq == Ones(nCol);
    }

    static function Ones(n: nat): seq<nat> {
      seq(n, _ => 1)
    }

    static lemma FirstIsCurrent(s: Sample, nCol: nat, c: nat, x: nat, hash: nat)
      requires s == Blank(nCol, c).(anEq := Ones(nCol), iHash := hash) && c < nCol
      ensures CurrentOk(s, [x], nCol)
      ensures forall i: nat :: i + 1 < nCol ==> NextBestOk(Blank(nCol, i), s, [x], nCol, i)
    {
      forall j: nat | j < nCol
        ensures CurrentColumn(s, [x], j)
      {
        assert Eq(s, j) == 1;
      }
      forall i: nat | i + 1 < nCol
        ensures NextBestOk(Blank(nCol, i), s, [x], nCol, i)
      {
        var k := i + 1;
        assert Eq(s.(iCol := i), k) == 1 && Eq(Blank(nCol, i), k) == 0;
      }
    }

    static lemma NextIsCurrent(s: Sample, t: Sample, ch: Changes, nCol: nat, x: nat, hash: nat)
      requires CurrentOk(s, ch, nCol) && x < nCol && t == NextCurrent(s, x).(iHash := hash)
      ensures CurrentOk(t, ch + [x], nCol)
    {
      CurrentNext(s, ch, nCol, x);
      forall j: nat | j < nCol
        ensures CurrentColumn(t, ch + [x], j)
      {
        assert CurrentColumn(NextCurrent(s, x), ch + [x], j);
      }
    }

    static lemma BestsGoOn(best: seq<Sample>, cur: Sample, ch: Changes, nCol: nat, x: nat)
      requires BestsOk(best, ch, nCol) && x < nCol && CurrentOk(cur, ch + [x], nCol)
      ensures forall i: nat :: i < x && i + 1 < nCol ==> NextBestOk(SampleAt(best, i), cur, ch + [x], nCol, i)
    {
      forall i: nat | i < x && i + 1 < nCol
        ensures NextBestOk(SampleAt(best, i), cur, ch + [x], nCol, i)
      {
        var k := i + 1;
        assert BestOk(SampleAt(best, i), ch, nCol, i);
        if !BetterPostFrom(cur.(iCol := i), SampleAt(best, i), k, nCol) {
          BestNext(SampleAt(best, i), ch, nCol, x, i, cur);
        }
      }
    }

    /** Every nPSample-th row is a sample in any case. */
    method PushPeriodic()
      requires nCol > 0 && 0 < mxSample && nPSample > 0 && ChangesOk(ch, nCol) && CurrentOk(current, ch, nCol)
      requires nRow == |ch| && Between(a, ch, nCol, nMaxEqZero, mxSample, iMin)
      requires forall i: nat :: i < |a| ==> SampleAt(a, i).row < current.row
      requires var n := nRow - 1; Periodic(a) <= PeriodicRows(n, nPSample) && PeriodicRows(nRow, nPSample) < mxSample
      modifies this`a, this`iMin, this`nMaxEqZero, this`current
      ensures Between(a, ch, nCol, nMaxEqZero, mxSample, iMin) && Periodic(a) <= PeriodicRows(nRow, nPSample)
      ensures EveryPth(old(a), nRow - 1, nPSample) ==> EveryPth(a, nRow, nPSample)
      ensures Ranked(old(a), ch, nCol, mxSample, nCol - 1) ==> Ranked(a, ch, nCol, mxSample, nCol - 1)
      ensures CurrentOk(current, ch, nCol) && current == old(current).(iCol := current.iCol)
      ensures a == if nPSample > 0 && (nRow - 1) / nPSample != nRow / nPSample
        then Kept(old(a), mxSample, old(iMin)) + [ZeroFirst(old(current).(isPSample := true, iCol := 0), nCol - 1)]
        else old(a)
    {
      hide CurrentOk, Between, Periodic, Inserted, SamplesOk, AllReserved, Least, Kept, Good, Represented, PeriodicRow,
           Ranked;
      var z := nCol - 1;
      CurrentFacts(current, ch, nCol);
      var nLt := Lt(current, z);
      PeriodicStep(nLt, nPSample);
      if nLt / nPSample != (nLt + 1) / nPSample {
        ghost var was, m, n, cur := a, iMin, nMaxEqZero, current;
        InsertReady(a, ch, nCol, nMaxEqZero, mxSample, iMin);
        current := current.(isPSample := true, iCol := 0);
        SampleInsert(current, z);
        InsertedRows(was, a, current, z, mxSample, m, nCol);
        InsertedPeriodic(was, a, current, z, mxSample, m, nCol);
        PeriodicRanked(was, a, ZeroFirst(current, z), ch, nCol, mxSample, m);
        PeriodicIsBetween(was, a, cur, ch, nCol, n, mxSample, m);
        BetweenIs(a, ch, nCol, z, mxSample, iMin);
        CurrentColumnSet(cur, ch, nCol, 0);
        current := current.(isPSample := false);
      }
    }

    static lemma CurrentFacts(s: Sample, ch: Changes, nCol: nat)
      requires CurrentOk(s, ch, nCol) && ChangesOk(ch, nCol) && nCol > 0
      ensures var z := nCol - 1; Lt(s, z) == |ch| - 1 && s.row == |ch| - 1 && !s.isPSample && Sized(s, nCol)
    {
      var z := nCol - 1;
      assert CurrentColumn(s, ch, z);
      LastColumn(ch, nCol, s.row);
    }

    static lemma InsertReady(a: seq<Sample>, ch: Changes, nCol: nat, n: nat, mx: nat, m: nat)
      requires nCol > 0 && Between(a, ch, nCol, n, mx, m)
      ensures var z := nCol - 1; SamplesOk(a, ch, nCol, z) && n <= z
      ensures |a| <= mx && (|a| == mx ==> Least(a, m, nCol)) && (|a| >= mx ==> m < |a|) && AllReserved(a, nCol)
    {
    }

    static lemma PeriodicRanked(a: seq<Sample>, b: seq<Sample>, s: Sample, ch: Changes, nCol: nat, mx: nat, m: nat)
      requires |ch| > 0 && nCol > 0 && SamplesOk(a, ch, nCol, nCol - 1) && AllReserved(a, nCol) && |a| <= mx && 0 < mx
      requires s.isPSample && (|a| == mx ==> Least(a, m, nCol)) && b == Kept(a, mx, m) + [s]
      ensures Ranked(a, ch, nCol, mx, nCol - 1) ==> Ranked(b, ch, nCol, mx, nCol - 1)
    {
      hide SamplesOk, AllReserved, Least, Kept, Ranked;
      if Ranked(a, ch, nCol, mx, nCol - 1) {
        PeriodicRanks(a, b, s, ch, nCol, nCol - 1, mx, m);
      }
    }

    static lemma InsertedPeriodic(a: seq<Sample>, b: seq<Sample>, p: Sample, z: nat, mx: nat, m: nat, nCol: nat)
      requires (|a| >= mx ==> m < |a|) && Inserted(a, b, p, z, mx, m, nCol) && p.isPSample
      ensures b == Kept(a, mx, m) + [ZeroFirst(p, z)]
    {
    }

    static lemma BetweenIs(a: seq<Sample>, ch: Changes, nCol: nat, n: nat, mx: nat, m: nat)
      requires var z := nCol - 1; nCol > 0 && Good(a, ch, nCol, z, n) && n <= z && |a| <= mx
      requires (|a| == mx ==> Least(a, m, nCol)) && (|a| < mx ==> Represented(a, ch, nCol))
      ensures Between(a, ch, nCol, n, mx, m)
    {
    }

    /** The counters for the next row; the groups it does not belong to are complete. */
    method Advance(x: nat)
      requires Valid() && nRow < count && x < nCol
      modifies this
      ensures ch == old(ch) + [x] && nRow == old(nRow) + 1 && |aBest| == nCol
      ensures CurrentOk(current, ch, nCol) && current.row == nRow - 1
      ensures Between(a, ch, nCol, nMaxEqZero, mxSample, iMin) && Periodic(a) <= PeriodicRows(old(nRow), nPSample)
      ensures EveryPth(a, old(nRow), nPSample) && Ranked(a, ch, nCol, mxSample, nCol - 1)
      ensures forall i: nat :: i < |a| ==> SampleAt(a, i).row < current.row
      ensures forall i: nat :: i < x && i + 1 < nCol ==> SampleAt(aBest, i) == SampleAt(old(aBest), i)
      ensures iPrn == (old(iPrn) * 1103515245 + 12345) % 0x1_0000_0000 == current.iHash
      ensures forall i: nat :: i < x && i + 1 < nCol ==> NextBestOk(SampleAt(aBest, i), current, ch, nCol, i)
    {
      hide CurrentOk, Between, BestsOk, Periodic, PeriodicRows, NextCurrent, NextBestOk, Blank, BestBlank, ChangesOk,
           PeriodicRow, OnPeriod, Ranked;
      iPrn := (iPrn * 1103515245 + 12345) % 0x1_0000_0000;
      ghost var was := current;
      if nRow == 0 {
        FirstCurrent();
        nRow := 1;
        current := current.(row := 0, iHash := iPrn);
        FirstIs(aBest, was, current, ch, nCol, x, iPrn);
        FirstRanks(ch, nCol, x, mxSample);
        FirstBetween(ch, nCol, x, nMaxEqZero, mxSample, iMin);
      } else {
        SizedCurrent(current, ch, nCol);
        SamplePushPrevious(x);
        UpdateCurrent(x);
        nRow := nRow + 1;
        current := current.(row := nRow - 1, iHash := iPrn);
        NextIs(was, current, ch, nCol, x, iPrn);
        BestsGoOn(aBest, current, ch, nCol, x);
      }
      ch := ch + [x];
    }

    /** statPush(): the next row of the index, and the first column in which it differs from the last. */
    method StatPush(x: nat)
      requires Valid() && nRow < count && x < nCol
      modifies this
      ensures Valid() && ch == old(ch) + [x]
      ensures iPrn == (old(iPrn) * 1103515245 + 12345) % 0x1_0000_0000 == current.iHash
      ensures forall i: nat :: i + 1 < nCol ==>
        SampleAt(aBest, i) == BestAfter(current, SampleAt(old(aBest), i), x, i, nCol)
    {
      hide CurrentOk, Between, BestsOk, Periodic, PeriodicRows, NextBestOk, Blank, BestBlank, ChangesOk, Kept, EveryPth,
           Ranked, BestAfter;
      ghost var best := aBest;
      ChangesNext(ch, x, nCol);
      PeriodicFew(nRow + 1, count, mxSample);
      Advance(x);
      ghost var cur := current;
      PushPeriodic();
      SameCurrent(aBest, cur, current, ch, nCol, x);
      ghost var mid := aBest;
      ghost var now := current;
      UpdateBest(x);
      forall i: nat | i + 1 < nCol
        ensures SampleAt(aBest, i) == BestAfter(current, SampleAt(best, i), x, i, nCol)
      {
        BestAfterSame(now, current, SampleAt(mid, i), SampleAt(best, i), x, i, nCol);
      }
    }

    static lemma BestAfterSame(cur: Sample, cur': Sample, s: Sample, t: Sample, x: nat, i: nat, nCol: nat)
      requires cur' == cur.(iCol := cur'.iCol) && (i < x ==> s == t)
      ensures BestAfter(cur, s, x, i, nCol) == BestAfter(cur', t, x, i, nCol)
    {
      assert cur'.(iCol := i) == cur.(iCol := i);
      PostKept(cur, cur', s, s, i + 1, nCol);
    }

    static lemma SameCurrent(best: seq<Sample>, cur: Sample, cur': Sample, ch: Changes, nCol: nat, x: nat)
      requires |best| == nCol && cur' == cur.(iCol := cur'.iCol)
      requires forall i: nat :: i < x && i + 1 < nCol ==> NextBestOk(SampleAt(best, i), cur, ch, nCol, i)
      ensures forall i: nat :: i < x && i + 1 < nCol ==> NextBestOk(SampleAt(best, i), cur', ch, nCol, i)
    {
      hide BestOk, BetterPostFrom;
      forall i: nat | i < x && i + 1 < nCol
        ensures NextBestOk(SampleAt(best, i), cur', ch, nCol, i)
      {
        assert NextBestOk(SampleAt(best, i), cur, ch, nCol, i);
        assert cur'.(iCol := i) == cur.(iCol := i);
      }
    }

    static lemma ChangesNext(ch: Changes, x: nat, nCol: nat)
      requires ChangesOk(ch, nCol) && x < nCol
      ensures ChangesOk(ch + [x], nCol)
    {
      forall q: nat | 0 < q < |ch| + 1
        ensures At(ch + [x], q) < nCol
      {
        assert q < |ch| ==> At(ch, q) == At(ch + [x], q);
      }
    }

    static lemma SizedCurrent(s: Sample, ch: Changes, nCol: nat)
      requires CurrentOk(s, ch, nCol)
      ensures Sized(s, nCol) && s.row == |ch| - 1
    {
    }

    static lemma FirstIs(best: seq<Sample>, was: Sample, cur: Sample, ch: Changes, nCol: nat, x: nat, hash: nat)
      requires was == Blank(nCol, was.iCol) && was.iCol < nCol
      requires cur == was.(anEq := Ones(nCol), row := 0, iHash := hash)
      requires ch == [] && BestBlank(best, nCol)
      ensures CurrentOk(cur, ch + [x], nCol) && cur.row == 0
      ensures forall i: nat :: i < x && i + 1 < nCol ==> NextBestOk(SampleAt(best, i), cur, ch + [x], nCol, i)
    {
      hide NextBestOk, CurrentOk;
      assert ch + [x] == [x];
      FirstIsCurrent(cur, nCol, was.iCol, x, hash);
    }

    static lemma FirstBetween(ch: Changes, nCol: nat, x: nat, n: nat, mx: nat, m: nat)
      requires nCol > 0 && mx > 0 && ch == [] && Between([], ch, nCol, n, mx, m)
      ensures Between([], ch + [x], nCol, n, mx, m)
    {
      assert forall r: nat, c: nat :: r < 1 ==> Open([x], r, c);
      assert ch + [x] == [x];
    }

    static lemma FirstRanks(ch: Changes, nCol: nat, x: nat, mx: nat)
      requires nCol > 0 && ch == []
      ensures Ranked([], ch + [x], nCol, mx, nCol - 1)
    {
      assert ch + [x] == [x];
      assert forall r: nat, c: nat :: r < 1 ==> Open([x], r, c);
    }

    static lemma NextIs(was: Sample, cur: Sample, ch: Changes, nCol: nat, x: nat, hash: nat)
      requires CurrentOk(was, ch, nCol) && x < nCol && cur == NextCurrent(was, x).(row := |ch|, iHash := hash)
      ensures CurrentOk(cur, ch + [x], nCol) && cur.row == |ch|
    {
      NextIsCurrent(was, cur, ch, nCol, x, hash);
    }

    // ---- statGet() ---------------------------------------------------------------------------------

    /** The first request for a sample: the last groups are complete. */
    method Flush(ghost rows: seq<Row>)
      requires Valid() && nRow > 0 && Sorted(rows, ch)
      modifies this`a, this`iMin, this`nMaxEqZero, this`aBest
      ensures |a| <= mxSample && InOrder(a)
      ensures forall i: nat :: i < |a| ==> Exact(SampleAt(a, i), rows, nCol)
      ensures EveryPth(a, nRow, nPSample)
      ensures |a| < mxSample ==> forall r: nat, c: nat :: r < |rows| && c + 1 < nCol ==> KeySampled(a, rows, r, c)
      ensures forall r: nat, c: nat :: r < |rows| && c + 1 < nCol ==>
        KeySampled(a, rows, r, c) || NoneSmaller(a, rows, r, c, mxSample)
    {
      hide NoneSmaller, Ranked, Between, BestsOk, CurrentOk, Exact, KeySampled, Sorted, InOrder, ChangesOk, Periodic,
           PeriodicRow, OnPeriod;
      SamplePushPrevious(0);
      FlushedFacts(a, ch, nCol, nMaxEqZero, mxSample, iMin);
      SortedSize(rows, ch);
      forall r: nat, c: nat | r < |rows| && c + 1 < nCol
        ensures KeySampled(a, rows, r, c) || NoneSmaller(a, rows, r, c, mxSample)
      {
        MostSampled(a, rows, ch, nCol, mxSample, r, c);
      }
      forall i: nat | i < |a|
        ensures Exact(SampleAt(a, i), rows, nCol)
      {
        SampleIsExact(a, i, rows, ch, nCol);
      }
      if |a| < mxSample {
        forall r: nat, c: nat | r < |rows| && c + 1 < nCol
          ensures KeySampled(a, rows, r, c)
        {
          AllSampled(a, rows, ch, nCol, r, c);
        }
      }
    }

    static lemma FlushedFacts(a: seq<Sample>, ch: Changes, nCol: nat, n: nat, mx: nat, m: nat)
      requires nCol > 0 && Between(a, ch + [0], nCol, n, mx, m) && n <= 0
      ensures var z := nCol - 1; SamplesOk(a, ch + [0], nCol, z) && ZerosBelow(a, nCol, 0) && InOrder(a) && |a| <= mx
      ensures |a| < mx ==> Represented(a, ch + [0], nCol)
    {
    }
  }

  /** The scan that ANALYZE generates for one index: the samples are exact, in the order of the index and
      no more than allowed; unless there are that many every prefix of every key has one, and if there are
      a prefix without one is no more frequent than those with samples of their own. */
  method AnalyzeIndex(rows: seq<Row>, nCol: nat, mxSample: nat, seed: nat) returns (samples: seq<Sample>)
    requires nCol > 0 && mxSample > 0 && rows != [] && Ascending(rows, nCol)
    ensures |samples| <= mxSample && InOrder(samples)
    ensures forall i: nat :: i < |samples| ==> Exact(SampleAt(samples, i), rows, nCol)
    ensures EveryPth(samples, |rows|, |rows| / (mxSample / 3 + 1) + 1)
    ensures |samples| < mxSample ==> forall r: nat, c: nat :: r < |rows| && c + 1 < nCol ==>
      KeySampled(samples, rows, r, c)
    ensures forall r: nat, c: nat :: r < |rows| && c + 1 < nCol ==>
      KeySampled(samples, rows, r, c) || NoneSmaller(samples, rows, r, c, mxSample)
  {
    hide NoneSmaller, InOrder, Exact, KeySampled, Sorted, Ascending, Less, LessAt, EveryPth;
    var p := new Stat4Accum(nCol, |rows|, mxSample, seed);
    SortedNone(rows);
    var r := 0;
    while r < |rows|
      invariant r <= |rows| && p.Valid() && |p.ch| == r && fresh(p)
      invariant p.nCol == nCol && p.count == |rows| && p.mxSample == mxSample
      invariant Sorted(rows[..r], p.ch)
    {
      var x := 0;
      if r > 0 {
        AscendsHere(rows, r, nCol);
        x := LeftmostChange(rows[r - 1], rows[r], nCol - 1);
      }
      SortedNext(rows, p.ch, x);
      StepFacts(p);
      p.StatPush(x);
      r := r + 1;
    }
    assert rows[..r] == rows;
    StepFacts(p);
    p.Flush(rows);
    samples := p.a;
  }

  lemma StepFacts(p: Stat4Accum)
    requires p.Valid()
    ensures p.nRow == |p.ch| && p.nPSample == p.count / (p.mxSample / 3 + 1) + 1
  {
  }

  lemma SortedNone(rows: seq<Row>)
    ensures Sorted(rows[..0], [])
  {
  }

  lemma AscendsHere(rows: seq<Row>, r: nat, nCol: nat)
    requires nCol > 0 && Ascending(rows, nCol) && 0 < r < |rows|
    ensures Less(rows[r - 1], rows[r], nCol - 1)
  {
    assert AscendsAt(rows, r, nCol);
  }
}
