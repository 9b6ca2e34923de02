/** The STAT4 accumulator: samples of an index, gathered in one scan. */
module Stat4 {
  import opened IndexCounts

  /** A sample of the row with the given position. */
  datatype Sample = Sample(anEq: seq<nat>, anLt: seq<nat>, anDLt: seq<nat>, isPSample: bool, iCol: nat, iHash: nat,
                           row: nat)

  predicate Sized(s: Sample, nCol: nat) {
    |s.anEq| == nCol && |s.anLt| == nCol && |s.anDLt| == nCol && s.iCol < nCol
  }

  function Eq(s: Sample, j: nat): nat {
    if j < |s.anEq| then s.anEq[j] else 0
  }

  function Lt(s: Sample, j: nat): nat {
    if j < |s.anLt| then s.anLt[j] else 0
  }

  function DLt(s: Sample, j: nat): nat {
    if j < |s.anDLt| then s.anDLt[j] else 0
  }

  // ---- preferences ---------------------------------------------------------------------------------

  predicate BetterPostFrom(x: Sample, y: Sample, i: nat, nCol: nat)
    decreases nCol - i
  {
    if i >= nCol then x.iHash > y.iHash
    else if Eq(x, i) > Eq(y, i) then true
    else if Eq(x, i) < Eq(y, i) then false
    else BetterPostFrom(x, y, i + 1, nCol)
  }

  /** sampleIsBetterPost() */
  method IsBetterPost(x: Sample, y: Sample, nCol: nat) returns (r: bool)
    requires x.iCol == y.iCol
    ensures r == BetterPostFrom(x, y, x.iCol + 1, nCol)
  {
    var i := x.iCol + 1;
    while i < nCol
      invariant BetterPostFrom(x, y, i, nCol) == BetterPostFrom(x, y, x.iCol + 1, nCol)
    {
      if Eq(x, i) > Eq(y, i) {
        return true;
      }
      if Eq(x, i) < Eq(y, i) {
        return false;
      }
      i := i + 1;
    }
    r := x.iHash > y.iHash;
  }

  /** sampleIsBetter() */
  predicate IsBetter(x: Sample, y: Sample, nCol: nat) {
    if Eq(x, x.iCol) > Eq(y, y.iCol) then true
    else if Eq(x, x.iCol) < Eq(y, y.iCol) then false
    else x.iCol < y.iCol || (x.iCol == y.iCol && BetterPostFrom(x, y, x.iCol + 1, nCol))
  }

  // ---- what the counters say -----------------------------------------------------------------------

  /** The columns before the row identifier hold what is known of the group; that column is unique. */
  ghost predicate ColumnOk(s: Sample, ch: Changes, nCol: nat, k: nat, j: nat) {
    s.row < |ch| && Lt(s, j) == Start(ch, s.row, j) && DLt(s, j) == Before(ch, s.row, j)
    && if j + 1 == nCol then Eq(s, j) == 1
       else if !Open(ch, s.row, j) then Eq(s, j) == Known(ch, s.row, j)
       else Eq(s, j) == 0 || (j >= k && Eq(s, j) == SoFar(ch, j))
  }

  /** The counters of a sample, when open groups in columns from k on may already be filled in. */
  ghost predicate SampleOk(s: Sample, ch: Changes, nCol: nat, k: nat) {
    Sized(s, nCol) && forall j: nat :: j < nCol ==> ColumnOk(s, ch, nCol, k, j)
  }

  function SampleAt(a: seq<Sample>, i: nat): Sample
    requires i < |a|
  {
    a[i]
  }

  ghost predicate SamplesOk(a: seq<Sample>, ch: Changes, nCol: nat, k: nat) {
    forall i: nat :: i < |a| ==> SampleOk(SampleAt(a, i), ch, nCol, k)
  }

  /** The samples are of different rows, in the order of the index. */
  ghost predicate InOrder(a: seq<Sample>) {
    forall i: nat, j: nat :: i < j < |a| ==> SampleAt(a, i).row < SampleAt(a, j).row
  }

  /** Zeros occur in columns before n only. */
  ghost predicate ZerosBelow(a: seq<Sample>, nCol: nat, n: nat) {
    forall i: nat, j: nat :: i < |a| && j < nCol && Eq(SampleAt(a, i), j) == 0 ==> j < n
  }

  function Periodic(a: seq<Sample>): nat {
    if a == [] then 0 else Periodic(a[..|a| - 1]) + if a[|a| - 1].isPSample then 1 else 0
  }

  /** The current row: all its groups are open. */
  ghost predicate CurrentOk(s: Sample, ch: Changes, nCol: nat) {
    && Sized(s, nCol) && |ch| > 0 && s.row == |ch| - 1 && !s.isPSample
    && forall j: nat :: j < nCol ==> CurrentColumn(s, ch, j)
  }

  ghost predicate CurrentColumn(s: Sample, ch: Changes, j: nat)
    requires |ch| > 0
  {
    Lt(s, j) == Start(ch, s.row, j) && DLt(s, j) == Before(ch, s.row, j) && Eq(s, j) == SoFar(ch, j)
  }

  /** The best row of the open group in column i: in the columns after i its counters are complete, or
      it is the current row. */
  ghost predicate BestOk(s: Sample, ch: Changes, nCol: nat, i: nat) {
    && Sized(s, nCol) && |ch| > 0 && s.row < |ch| && s.iCol == i && !s.isPSample && Open(ch, s.row, i)
    && (Open(ch, s.row, i + 1) && i + 2 < nCol ==> s.row == |ch| - 1)
    && forall j: nat :: j < nCol ==> BestColumn(s, ch, nCol, i, j)
  }

  ghost predicate BestColumn(s: Sample, ch: Changes, nCol: nat, i: nat, j: nat)
    requires |ch| > 0 && s.row < |ch|
  {
    && Lt(s, j) == Start(ch, s.row, j) && DLt(s, j) == Before(ch, s.row, j)
    && if j + 1 == nCol then Eq(s, j) == 1
       else j > i ==> Eq(s, j) == if Open(ch, s.row, j) then SoFar(ch, j) else Known(ch, s.row, j)
  }

  /** Each change is in some column, and the last column always changes. */
  ghost predicate ChangesOk(ch: Changes, nCol: nat) {
    forall q: nat :: 0 < q < |ch| ==> At(ch, q) < nCol
  }

  lemma LastColumn(ch: Changes, nCol: nat, r: nat)
    requires ChangesOk(ch, nCol) && nCol > 0 && r < |ch|
    ensures Start(ch, r, nCol - 1) == r && (Open(ch, r, nCol - 1) <==> r == |ch| - 1)
    ensures r == |ch| - 1 ==> SoFar(ch, nCol - 1) == 1
  {
    if r + 1 < |ch| {
      assert At(ch, r + 1) <= nCol - 1;
    }
  }

  // ---- single samples ------------------------------------------------------------------------------

  lemma KnownPositive(ch: Changes, r: nat, c: nat)
    requires r < |ch|
    ensures Open(ch, r, c) <==> Known(ch, r, c) == 0
    ensures SoFar(ch, c) > 0
  {
  }

  /** A zero marks the open group, and the open group is marked by a zero where nothing is filled in. */
  lemma ZeroIsOpen(s: Sample, ch: Changes, nCol: nat, k: nat, j: nat)
    requires SampleOk(s, ch, nCol, k) && j + 1 < nCol
    ensures Eq(s, j) == 0 ==> Open(ch, s.row, j)
    ensures Open(ch, s.row, j) && j < k ==> Eq(s, j) == 0
  {
    assert ColumnOk(s, ch, nCol, k, j);
    KnownPositive(ch, s.row, j);
  }

  lemma LessFilled(a: seq<Sample>, ch: Changes, nCol: nat, k: nat, k': nat)
    requires SamplesOk(a, ch, nCol, k) && k' <= k
    ensures SamplesOk(a, ch, nCol, k')
  {
    forall i: nat | i < |a|
      ensures SampleOk(SampleAt(a, i), ch, nCol, k')
    {
      assert SampleOk(SampleAt(a, i), ch, nCol, k);
      forall j: nat | j < nCol
        ensures ColumnOk(SampleAt(a, i), ch, nCol, k', j)
      {
        assert ColumnOk(SampleAt(a, i), ch, nCol, k, j);
      }
    }
  }

  /** The first z counters set to zero. */
  function ZeroFirst(s: Sample, z: nat): Sample {
    s.(anEq := seq(|s.anEq|, j requires 0 <= j < |s.anEq| => if j < z then 0 else s.anEq[j]))
  }

  /** A sample about to be added: the groups in columns before z are open, the others are complete. */
  ghost predicate NewOk(s: Sample, ch: Changes, nCol: nat, z: nat) {
    && Sized(s, nCol) && |ch| > 0 && s.row < |ch| && z < nCol && (z > 0 ==> Open(ch, s.row, z - 1))
    && forall j: nat :: j < nCol ==> NewColumn(s, ch, nCol, z, j)
  }

  ghost predicate NewColumn(s: Sample, ch: Changes, nCol: nat, z: nat, j: nat)
    requires |ch| > 0 && s.row < |ch|
  {
    && Lt(s, j) == Start(ch, s.row, j) && DLt(s, j) == Before(ch, s.row, j)
    && if j + 1 == nCol then Eq(s, j) == 1
       else j >= z ==> Eq(s, j) == if Open(ch, s.row, j) then SoFar(ch, j) else Known(ch, s.row, j)
  }

  lemma NewIsOk(s: Sample, ch: Changes, nCol: nat, z: nat)
    requires NewOk(s, ch, nCol, z)
    ensures SampleOk(ZeroFirst(s, z), ch, nCol, z)
    ensures forall j: nat :: j < nCol && Eq(ZeroFirst(s, z), j) == 0 ==> j < z
  {
    var t := ZeroFirst(s, z);
    forall j: nat | j < nCol
      ensures ColumnOk(t, ch, nCol, z, j) && (Eq(t, j) == 0 ==> j < z)
    {
      assert NewColumn(s, ch, nCol, z, j);
      KnownPositive(ch, s.row, j);
      if j < z {
        OpenLess(ch, s.row, z - 1, j);
      }
    }
  }

  lemma BestIsNew(s: Sample, ch: Changes, nCol: nat, i: nat)
    requires BestOk(s, ch, nCol, i) && i + 1 < nCol
    ensures NewOk(s.(anEq := s.anEq[i := SoFar(ch, i)]), ch, nCol, i)
  {
    var t := s.(anEq := s.anEq[i := SoFar(ch, i)]);
    forall j: nat | j < nCol
      ensures NewColumn(t, ch, nCol, i, j)
    {
      assert BestColumn(s, ch, nCol, i, j);
    }
    if i > 0 {
      OpenLess(ch, s.row, i, i - 1);
    }
  }

  lemma CurrentIsNew(s: Sample, ch: Changes, nCol: nat, periodic: bool)
    requires CurrentOk(s, ch, nCol) && ChangesOk(ch, nCol) && nCol > 0
    ensures NewOk(s.(isPSample := periodic, iCol := 0), ch, nCol, nCol - 1)
  {
    var t, z := s.(isPSample := periodic, iCol := 0), nCol - 1;
    LastColumn(ch, nCol, s.row);
    forall j: nat | j < nCol
      ensures NewColumn(t, ch, nCol, z, j)
    {
      assert CurrentColumn(s, ch, j);
    }
  }

  /** A sample of the open group in column i takes over that column's priority. */
  lemma Upgraded(s: Sample, ch: Changes, nCol: nat, i: nat, n: nat)
    requires SampleOk(s, ch, nCol, i + 1) && i + 1 < nCol && Eq(s, i) == 0 && |ch| > 0
    requires forall j: nat :: j < nCol && Eq(s, j) == 0 ==> j < n
    ensures var t := s.(iCol := i, anEq := s.anEq[i := SoFar(ch, i)]);
      SampleOk(t, ch, nCol, i) && forall j: nat :: j < nCol && Eq(t, j) == 0 ==> j < n
  {
    var t := s.(iCol := i, anEq := s.anEq[i := SoFar(ch, i)]);
    ZeroIsOpen(s, ch, nCol, i + 1, i);
    forall j: nat | j < nCol
      ensures ColumnOk(t, ch, nCol, i, j) && (Eq(t, j) == 0 ==> Eq(s, j) == 0)
    {
      assert ColumnOk(s, ch, nCol, i + 1, j);
    }
  }

  /** Open groups from column x on are filled in: the counters are right for the next row. */
  function Filled(s: Sample, x: nat, cur: Sample): Sample {
    s.(anEq := seq(|s.anEq|,
                   j requires 0 <= j < |s.anEq| => if j >= x && s.anEq[j] == 0 then Eq(cur, j) else s.anEq[j]))
  }

  lemma FilledIsOk(s: Sample, ch: Changes, nCol: nat, x: nat, cur: Sample)
    requires SampleOk(s, ch, nCol, x) && CurrentOk(cur, ch, nCol) && x < nCol
    ensures SampleOk(Filled(s, x, cur), ch + [x], nCol, nCol - 1)
    ensures forall j: nat :: j < nCol && Eq(Filled(s, x, cur), j) == 0 ==> j < x
  {
    var t, ch', z := Filled(s, x, cur), ch + [x], nCol - 1;
    forall j: nat | j < nCol
      ensures ColumnOk(t, ch', nCol, z, j) && (Eq(t, j) == 0 ==> j < x)
    {
      assert ColumnOk(s, ch, nCol, x, j) && CurrentColumn(cur, ch, j);
      NextRow(ch, x, s.row, j);
      StartSame(ch, ch', s.row, j);
      KnownPositive(ch, s.row, j);
    }
  }

  // ---- the preference is a strict weak order -------------------------------------------------------

  lemma {:induction false} PostIsOrder(x: Sample, y: Sample, z: Sample, i: nat, nCol: nat)
    requires BetterPostFrom(x, y, i, nCol)
    ensures !BetterPostFrom(y, x, i, nCol)
    ensures BetterPostFrom(x, z, i, nCol) || BetterPostFrom(z, y, i, nCol)
    decreases nCol - i
  {
    if i < nCol && Eq(x, i) == Eq(y, i) {
      PostIsOrder(x, y, z, i + 1, nCol);
    }
  }

  lemma PreferenceIsOrder(x: Sample, y: Sample, z: Sample, nCol: nat)
    requires IsBetter(x, y, nCol)
    ensures !IsBetter(y, x, nCol)
    ensures IsBetter(x, z, nCol) || IsBetter(z, y, nCol)
  {
    if x.iCol == y.iCol && Eq(x, x.iCol) == Eq(y, y.iCol) {
      PostIsOrder(x, y, z, x.iCol + 1, nCol);
    }
  }

  /** Sample m is not periodic, and none of those is less desirable. */
  ghost predicate Least(a: seq<Sample>, m: nat, nCol: nat) {
    && m < |a| && !SampleAt(a, m).isPSample
    && forall i: nat :: i < |a| && !SampleAt(a, i).isPSample ==> !IsBetter(SampleAt(a, m), SampleAt(a, i), nCol)
  }

  /** Zeros are reserved for the columns before the one the sample stands for. */
  ghost predicate Reserved(s: Sample, nCol: nat) {
    !s.isPSample ==> forall j: nat :: j < nCol && Eq(s, j) == 0 ==> j < s.iCol
  }

  lemma {:induction false} PostKept(x: Sample, x': Sample, y: Sample, y': Sample, i: nat, nCol: nat)
    requires x'.iHash == x.iHash && y'.iHash == y.iHash
    requires forall j: nat :: i <= j < nCol ==> Eq(x', j) == Eq(x, j) && Eq(y', j) == Eq(y, j)
    ensures BetterPostFrom(x', y', i, nCol) == BetterPostFrom(x, y, i, nCol)
    decreases nCol - i
  {
    if i < nCol {
      PostKept(x, x', y, y', i + 1, nCol);
    }
  }

  lemma FilledPreference(x: Sample, y: Sample, c: nat, cur: Sample, nCol: nat)
    requires Sized(x, nCol) && Sized(y, nCol) && Reserved(x, nCol) && Reserved(y, nCol) && !x.isPSample && !y.isPSample
    ensures IsBetter(Filled(x, c, cur), Filled(y, c, cur), nCol) == IsBetter(x, y, nCol)
  {
    var x', y' := Filled(x, c, cur), Filled(y, c, cur);
    forall j: nat | x.iCol <= j < nCol
      ensures Eq(x', j) == Eq(x, j)
    {
    }
    forall j: nat | y.iCol <= j < nCol
      ensures Eq(y', j) == Eq(y, j)
    {
    }
    if x.iCol == y.iCol {
      PostKept(x, x', y, y', x.iCol + 1, nCol);
    }
  }

  // ---- a collection of samples ---------------------------------------------------------------------

  ghost predicate AllReserved(a: seq<Sample>, nCol: nat) {
    forall i: nat :: i < |a| ==> Reserved(SampleAt(a, i), nCol)
  }

  ghost predicate Good(a: seq<Sample>, ch: Changes, nCol: nat, k: nat, n: nat) {
    SamplesOk(a, ch, nCol, k) && InOrder(a) && ZerosBelow(a, nCol, n) && AllReserved(a, nCol)
  }

  function Dropped(a: seq<Sample>, m: nat): seq<Sample>
    requires m < |a|
  {
    a[..m] + a[m + 1..]
  }

  lemma DroppedAt(a: seq<Sample>, m: nat, i: nat)
    requires m < |a| && i + 1 < |a|
    ensures SampleAt(Dropped(a, m), i) == SampleAt(a, if i < m then i else i + 1)
  {
  }

  lemma DropGood(a: seq<Sample>, ch: Changes, nCol: nat, k: nat, n: nat, m: nat)
    requires Good(a, ch, nCol, k, n) && m < |a|
    ensures Good(Dropped(a, m), ch, nCol, k, n)
  {
    hide SampleOk, Reserved, Eq, SampleAt, Dropped;
    var b := Dropped(a, m);
    DroppedSize(a, m);
    forall i: nat | i < |b|
      ensures SampleAt(b, i) == SampleAt(a, if i < m then i else i + 1)
    {
      DroppedAt(a, m, i);
    }
    DropOrder(a, m);
  }

  lemma DroppedSize(a: seq<Sample>, m: nat)
    requires m < |a|
    ensures |Dropped(a, m)| + 1 == |a|
  {
  }

  lemma DropOrder(a: seq<Sample>, m: nat)
    requires InOrder(a) && m < |a|
    ensures InOrder(Dropped(a, m))
  {
    hide SampleAt, Dropped;
    var b := Dropped(a, m);
    DroppedSize(a, m);
    forall i: nat, j: nat | i < j < |b|
      ensures SampleAt(b, i).row < SampleAt(b, j).row
    {
      DroppedAt(a, m, i);
      DroppedAt(a, m, j);
      var i', j' := if i < m then i else i + 1, if j < m then j else j + 1;
      assert SampleAt(a, i').row < SampleAt(a, j').row;
    }
  }

  lemma AppendGood(a: seq<Sample>, s: Sample, ch: Changes, nCol: nat, k: nat, n: nat)
    requires Good(a, ch, nCol, k, n) && SampleOk(s, ch, nCol, k) && Reserved(s, nCol)
    requires forall j: nat :: j < nCol && Eq(s, j) == 0 ==> j < n
    requires forall i: nat :: i < |a| ==> SampleAt(a, i).row < s.row
    ensures Good(a + [s], ch, nCol, k, n)
  {
    hide SampleOk, Reserved, Eq;
    var b := a + [s];
    forall i: nat | i < |b|
      ensures SampleAt(b, i) == if i < |a| then SampleAt(a, i) else s
    {
    }
    hide SampleAt;
  }

  lemma ReplaceGood(a: seq<Sample>, u: nat, s: Sample, ch: Changes, nCol: nat, k: nat, n: nat)
    requires Good(a, ch, nCol, k, n) && u < |a| && SampleOk(s, ch, nCol, k) && Reserved(s, nCol)
    requires forall j: nat :: j < nCol && Eq(s, j) == 0 ==> j < n
    requires s.row == SampleAt(a, u).row
    ensures Good(a[u := s], ch, nCol, k, n)
  {
    hide SampleOk, Reserved, Eq;
    var b := a[u := s];
    forall i: nat | i < |b|
      ensures SampleAt(b, i) == if i == u then s else SampleAt(a, i)
    {
    }
  }

  // ---- periodic samples ----------------------------------------------------------------------------

  lemma {:induction false} PeriodicSame(a: seq<Sample>, b: seq<Sample>)
    requires |a| == |b| && forall i: nat :: i < |a| ==> SampleAt(a, i).isPSample == SampleAt(b, i).isPSample
    ensures Periodic(a) == Periodic(b)
  {
    if a != [] {
      var n := |a| - 1;
      assert SampleAt(a, n).isPSample == SampleAt(b, n).isPSample;
      forall i: nat | i < n
        ensures SampleAt(a[..n], i).isPSample == SampleAt(b[..n], i).isPSample
      {
        assert SampleAt(a, i).isPSample == SampleAt(b, i).isPSample;
      }
      PeriodicSame(a[..n], b[..n]);
    }
  }

  lemma {:induction false} PeriodicDropped(a: seq<Sample>, m: nat)
    requires m < |a| && !SampleAt(a, m).isPSample
    ensures Periodic(Dropped(a, m)) == Periodic(a)
  {
    var n := |a| - 1;
    if m < n {
      PeriodicDropped(a[..n], m);
      assert Dropped(a, m)[..n - 1] == Dropped(a[..n], m);
    } else {
      assert Dropped(a, m) == a[..n];
    }
  }

  lemma PeriodicAppended(a: seq<Sample>, s: Sample)
    ensures Periodic(a + [s]) == Periodic(a) + if s.isPSample then 1 else 0
  {
    assert (a + [s])[..|a|] == a;
  }

  /** Where not all samples are periodic, one is not. */
  lemma {:induction false} AllPeriodic(a: seq<Sample>)
    requires forall i: nat :: i < |a| ==> SampleAt(a, i).isPSample
    ensures Periodic(a) == |a|
  {
    if a != [] {
      var n := |a| - 1;
      assert SampleAt(a, n).isPSample;
      forall i: nat | i < n
        ensures SampleAt(a[..n], i).isPSample
      {
        assert SampleAt(a, i).isPSample;
      }
      AllPeriodic(a[..n]);
    }
  }

  // ---- groups that are represented -----------------------------------------------------------------

  ghost predicate SameGroup(ch: Changes, q: nat, r: nat, c: nat) {
    Start(ch, q, c) == Start(ch, r, c)
  }

  /** Some sample agrees with row r in columns 0..c. */
  ghost predicate HasSample(a: seq<Sample>, ch: Changes, r: nat, c: nat) {
    exists i: nat :: i < |a| && SameGroup(ch, SampleAt(a, i).row, r, c)
  }

  /** Every complete group has a sample. */
  ghost predicate Represented(a: seq<Sample>, ch: Changes, nCol: nat) {
    forall r: nat, c: nat :: r < |ch| && c + 1 < nCol && !Open(ch, r, c) ==> HasSample(a, ch, r, c)
  }

  /** The last groups in columns from k on have samples too. */
  ghost predicate LastRepresented(a: seq<Sample>, ch: Changes, nCol: nat, k: nat)
    requires |ch| > 0
  {
    var n := |ch| - 1;
    forall c: nat :: k <= c && c + 1 < nCol ==> HasSample(a, ch, n, c)
  }

  ghost predicate SameRows(a: seq<Sample>, b: seq<Sample>) {
    |a| <= |b| && forall i: nat :: i < |a| ==> SampleAt(b, i).row == SampleAt(a, i).row
  }

  lemma SameRowsHave(a: seq<Sample>, b: seq<Sample>, ch: Changes, r: nat, c: nat)
    requires SameRows(a, b) && HasSample(a, ch, r, c)
    ensures HasSample(b, ch, r, c)
  {
    var i: nat :| i < |a| && SameGroup(ch, SampleAt(a, i).row, r, c);
    assert SameGroup(ch, SampleAt(b, i).row, r, c);
  }

  lemma SameRowsKeep(a: seq<Sample>, b: seq<Sample>, ch: Changes, nCol: nat, k: nat)
    requires SameRows(a, b) && |ch| > 0
    ensures Represented(a, ch, nCol) ==> Represented(b, ch, nCol)
    ensures LastRepresented(a, ch, nCol, k) ==> LastRepresented(b, ch, nCol, k)
  {
    hide SameRows, HasSample, Open;
    forall r: nat, c: nat | HasSample(a, ch, r, c)
      ensures HasSample(b, ch, r, c)
    {
      SameRowsHave(a, b, ch, r, c);
    }
  }

  /** The groups that the next row completes. */
  lemma RepresentedNext(a: seq<Sample>, ch: Changes, nCol: nat, x: nat)
    requires |ch| > 0 && Represented(a, ch, nCol) && LastRepresented(a, ch, nCol, x)
    requires forall i: nat :: i < |a| ==> SampleAt(a, i).row < |ch|
    ensures Represented(a, ch + [x], nCol)
  {
    var ch' := ch + [x];
    forall r: nat, c: nat | r < |ch'| && c + 1 < nCol && !Open(ch', r, c)
      ensures HasSample(a, ch', r, c)
    {
      NextGroup(a, ch, nCol, x, r, c);
    }
  }

  lemma NextGroup(a: seq<Sample>, ch: Changes, nCol: nat, x: nat, r: nat, c: nat)
    requires |ch| > 0 && Represented(a, ch, nCol) && LastRepresented(a, ch, nCol, x)
    requires forall i: nat :: i < |a| ==> SampleAt(a, i).row < |ch|
    requires r <= |ch| && c + 1 < nCol && !Open(ch + [x], r, c)
    ensures HasSample(a, ch + [x], r, c)
  {
    var ch', n := ch + [x], |ch| - 1;
    assert r < |ch|;
    NextRow(ch, x, r, c);
    var q: nat;
    if Open(ch, r, c) {
      SameStart(ch, r, n, c);
      q := n;
    } else {
      q := r;
    }
    assert HasSample(a, ch, q, c);
    var i: nat :| i < |a| && SameGroup(ch, SampleAt(a, i).row, q, c);
    StartSame(ch, ch', SampleAt(a, i).row, c);
    StartSame(ch, ch', r, c);
    assert SameGroup(ch', SampleAt(a, i).row, r, c);
  }
}
