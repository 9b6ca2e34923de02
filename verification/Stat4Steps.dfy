/** What inserting a sample and moving on to the next row do to the collected samples. */
module Stat4Steps {
  import opened IndexCounts
  import opened Stat4

  // ---- groups within groups ------------------------------------------------------------------------

  lemma {:induction false} StartWithin(ch: Changes, r: nat, j: nat, c: nat)
    requires j <= c
    ensures Start(ch, r, j) <= Start(ch, r, c)
  {
    if r > 0 && At(ch, r) > c {
      StartWithin(ch, r - 1, j, c);
    }
  }

  /** No group within the open one has more rows than it. */
  lemma EqWithin(s: Sample, ch: Changes, nCol: nat, k: nat, j: nat, c: nat)
    requires |ch| > 0 && SampleOk(s, ch, nCol, k) && j <= c < nCol && Open(ch, s.row, j)
    ensures Eq(s, c) <= SoFar(ch, j)
  {
    assert ColumnOk(s, ch, nCol, k, c);
    SameStart(ch, s.row, |ch| - 1, j);
    StartWithin(ch, s.row, j, c);
    if Open(ch, s.row, c) {
      SameStart(ch, s.row, |ch| - 1, c);
    }
  }

  /** A sample with a zero in the column of the new one was added for a later column, and is worse. */
  lemma SharedIsWorse(p: Sample, s: Sample, ch: Changes, nCol: nat, k: nat, j: nat)
    requires SampleOk(s, ch, nCol, k) && Reserved(s, nCol) && !s.isPSample && j + 1 < nCol && Eq(s, j) == 0
    requires |ch| > 0 && p.iCol <= j && Eq(p, p.iCol) == SoFar(ch, p.iCol)
    ensures s.iCol > j && IsBetter(p, s, nCol)
  {
    ZeroIsOpen(s, ch, nCol, k, j);
    OpenLess(ch, s.row, j, p.iCol);
    EqWithin(s, ch, nCol, k, p.iCol, s.iCol);
  }

  // ---- inserting -----------------------------------------------------------------------------------

  predicate ZeroAt(s: Sample, c: nat, periodic: bool) {
    Eq(s, c) == 0 && s.isPSample == periodic
  }

  /** Some sample shares the open group in column c. */
  ghost predicate Shared(a: seq<Sample>, c: nat, periodic: bool) {
    exists i: nat :: i < |a| && ZeroAt(SampleAt(a, i), c, periodic)
  }

  /** Sample u shares the open group, and is the best that does. */
  ghost predicate Chosen(a: seq<Sample>, u: nat, c: nat, nCol: nat) {
    && u < |a| && ZeroAt(SampleAt(a, u), c, false)
    && forall i: nat :: i < |a| && ZeroAt(SampleAt(a, i), c, false) ==> !IsBetter(SampleAt(a, i), SampleAt(a, u), nCol)
  }

  function Raised(s: Sample, p: Sample): Sample
    requires p.iCol < |s.anEq|
  {
    s.(iCol := p.iCol, anEq := s.anEq[p.iCol := Eq(p, p.iCol)])
  }

  /** b is a with sample u raised to the priority of the new one. */
  ghost predicate RaisedAt(a: seq<Sample>, b: seq<Sample>, u: nat, p: Sample) {
    u < |a| && p.iCol < |SampleAt(a, u).anEq| && b == a[u := Raised(SampleAt(a, u), p)]
  }

  /** The samples kept when another one is added. */
  function Kept(a: seq<Sample>, mx: nat, m: nat): seq<Sample>
    requires |a| >= mx ==> m < |a|
  {
    if |a| >= mx then Dropped(a, m) else a
  }

  /** What inserting makes of the samples a: nothing if a periodic one shares the group, else the best
      that shares it is raised, else the sample is added, in place of the least desirable one if need be. */
  ghost predicate Inserted(a: seq<Sample>, b: seq<Sample>, p: Sample, z: nat, mx: nat, m: nat, nCol: nat)
    requires |a| >= mx ==> m < |a|
  {
    if !p.isPSample && Shared(a, p.iCol, true) then b == a
    else if !p.isPSample && Shared(a, p.iCol, false) then
      exists u: nat :: Chosen(a, u, p.iCol, nCol) && RaisedAt(a, b, u, p)
    else b == Kept(a, mx, m) + [ZeroFirst(p, z)]
  }

  /** A non-periodic sample that stands for a column from k to j of the open group. */
  ghost predicate Witness(t: Sample, ch: Changes, k: nat, j: nat)
    requires |ch| > 0
  {
    !t.isPSample && k <= t.iCol <= j && Eq(t, t.iCol) == SoFar(ch, t.iCol) && Open(ch, t.row, t.iCol)
  }

  ghost predicate HasWitness(a: seq<Sample>, ch: Changes, k: nat, j: nat)
    requires |ch| > 0
  {
    exists i: nat :: i < |a| && Witness(SampleAt(a, i), ch, k, j)
  }

  ghost predicate PeriodicAt(s: Sample, ch: Changes, c: nat) {
    s.isPSample && Open(ch, s.row, c)
  }

  ghost predicate PeriodicOpen(a: seq<Sample>, ch: Changes, c: nat) {
    exists i: nat :: i < |a| && PeriodicAt(SampleAt(a, i), ch, c)
  }

  /** Zeros left in columns already dealt with: a better sample, or a periodic one, shares the group. */
  ghost predicate Witnessed(a: seq<Sample>, ch: Changes, nCol: nat, k: nat)
    requires |ch| > 0
  {
    PeriodicOpen(a, ch, k)
    || forall i: nat, j: nat :: i < |a| && k <= j && j + 1 < nCol && ZeroAt(SampleAt(a, i), j, false) ==>
      HasWitness(a, ch, k, j)
  }

  lemma ZeroAbove(a: seq<Sample>, ch: Changes, nCol: nat, q: nat, i: nat, j: nat)
    requires var k := i + 1; SamplesOk(a, ch, nCol, k)
    requires q < |a| && i <= j && j + 1 < nCol && Open(ch, SampleAt(a, q).row, j)
    ensures Eq(SampleAt(a, q), i) == 0
  {
    var k := i + 1;
    var t := SampleAt(a, q);
    assert SampleOk(t, ch, nCol, k);
    OpenLess(ch, t.row, j, i);
    ZeroIsOpen(t, ch, nCol, k, i);
  }

  /** If no sample shares the group in column i, none shares one within it. */
  lemma NoneWithin(a: seq<Sample>, ch: Changes, nCol: nat, i: nat, q: nat, j: nat)
    requires var k := i + 1; SamplesOk(a, ch, nCol, k)
    requires q < |a| && i <= j && j + 1 < nCol && Eq(SampleAt(a, q), j) == 0
    ensures Eq(SampleAt(a, q), i) == 0
  {
    var k := i + 1;
    assert SampleOk(SampleAt(a, q), ch, nCol, k);
    ZeroIsOpen(SampleAt(a, q), ch, nCol, k, j);
    ZeroAbove(a, ch, nCol, q, i, j);
  }

  /** Where no sample shares its group, a new sample comes after all others. */
  lemma ComesAfter(a: seq<Sample>, ch: Changes, nCol: nat, q: nat, i: nat, row: nat)
    requires var k := i + 1; SamplesOk(a, ch, nCol, k)
    requires q < |a| && i + 1 < nCol && Eq(SampleAt(a, q), i) != 0 && Open(ch, row, i)
    ensures SampleAt(a, q).row < row
  {
    if Open(ch, SampleAt(a, q).row, i) {
      ZeroAbove(a, ch, nCol, q, i, i);
    } else {
      ClosedBefore(ch, SampleAt(a, q).row, row, i);
    }
  }

  /** The raised sample has zeros before its new column only. */
  lemma RaisedIsReserved(a: seq<Sample>, u: nat, p: Sample, ch: Changes, nCol: nat)
    requires |ch| > 0 && p.iCol + 1 < nCol && Eq(p, p.iCol) == SoFar(ch, p.iCol)
    requires var k := p.iCol + 1; SamplesOk(a, ch, nCol, k) && Witnessed(a, ch, nCol, k)
    requires AllReserved(a, nCol) && Chosen(a, u, p.iCol, nCol) && !Shared(a, p.iCol, true)
    requires p.iCol < |SampleAt(a, u).anEq|
    ensures Reserved(Raised(SampleAt(a, u), p), nCol)
  {
    var i, k, s := p.iCol, p.iCol + 1, SampleAt(a, u);
    assert SampleOk(s, ch, nCol, k) && ColumnOk(s, ch, nCol, k, i);
    KnownPositive(ch, s.row, i);
    forall j: nat | j < nCol && Eq(Raised(s, p), j) == 0
      ensures j < i
    {
      if j > i {
        assert Eq(s, j) == 0 && ColumnOk(s, ch, nCol, k, j);
        NotLeftOver(a, u, i, ch, nCol, j);
      }
    }
  }

  lemma NotLeftOver(a: seq<Sample>, u: nat, i: nat, ch: Changes, nCol: nat, j: nat)
    requires |ch| > 0 && i < j && j + 1 < nCol
    requires var k := i + 1; SamplesOk(a, ch, nCol, k) && Witnessed(a, ch, nCol, k)
    requires AllReserved(a, nCol) && Chosen(a, u, i, nCol) && !Shared(a, i, true)
    ensures Eq(SampleAt(a, u), j) != 0
  {
    var k, s := i + 1, SampleAt(a, u);
    assert SampleOk(s, ch, nCol, k);
    if Eq(s, j) == 0 {
      if PeriodicOpen(a, ch, k) {
        var q: nat :| q < |a| && PeriodicAt(SampleAt(a, q), ch, k);
        ZeroAbove(a, ch, nCol, q, i, k);
        assert ZeroAt(SampleAt(a, q), i, true);
      } else {
        assert ZeroAt(SampleAt(a, u), j, false);
        assert HasWitness(a, ch, k, j);
        var q: nat :| q < |a| && Witness(SampleAt(a, q), ch, k, j);
        ZeroAbove(a, ch, nCol, q, i, SampleAt(a, q).iCol);
        assert ZeroAt(SampleAt(a, q), i, false);
        SharedIsWorse(SampleAt(a, q), s, ch, nCol, k, j);
      }
    }
  }

  // ---- after inserting the best row of a group -----------------------------------------------------

  /** What holds of the samples when columns from k on have been dealt with. */
  ghost predicate Dealt(a: seq<Sample>, ch: Changes, nCol: nat, k: nat, n: nat, mx: nat) {
    && |ch| > 0 && Good(a, ch, nCol, k, n) && Witnessed(a, ch, nCol, k) && |a| <= mx
    && (|a| < mx ==> Represented(a, ch, nCol) && LastRepresented(a, ch, nCol, k))
  }

  lemma ZerosMore(a: seq<Sample>, ch: Changes, nCol: nat, k: nat, n: nat, n': nat)
    requires Good(a, ch, nCol, k, n) && n <= n'
    ensures Good(a, ch, nCol, k, n')
  {
  }

  /** No sample shares the group. */
  lemma NothingShared(a: seq<Sample>, ch: Changes, nCol: nat, i: nat)
    requires |ch| > 0 && i + 1 < nCol && !Shared(a, i, false)
    requires var k := i + 1; SamplesOk(a, ch, nCol, k)
    ensures Witnessed(a, ch, nCol, i)
  {
    forall q: nat, j: nat | q < |a| && i <= j && j + 1 < nCol
      ensures !ZeroAt(SampleAt(a, q), j, false)
    {
      assert !ZeroAt(SampleAt(a, q), i, false);
      if Eq(SampleAt(a, q), j) == 0 {
        NoneWithin(a, ch, nCol, i, q, j);
      }
    }
  }

  lemma LastNext(a: seq<Sample>, ch: Changes, nCol: nat, i: nat)
    requires |ch| > 0
    requires var n, k := |ch| - 1, i + 1; HasSample(a, ch, n, i) && LastRepresented(a, ch, nCol, k)
    ensures LastRepresented(a, ch, nCol, i)
  {
    hide HasSample;
  }

  /** An open sample represents the open group. */
  lemma OpenRepresents(a: seq<Sample>, ch: Changes, q: nat, i: nat)
    requires |ch| > 0 && q < |a| && SampleAt(a, q).row < |ch| && Open(ch, SampleAt(a, q).row, i)
    ensures HasSample(a, ch, |ch| - 1, i)
  {
    SameStart(ch, SampleAt(a, q).row, |ch| - 1, i);
    assert SameGroup(ch, SampleAt(a, q).row, |ch| - 1, i);
  }

  lemma ZeroRepresents(a: seq<Sample>, ch: Changes, nCol: nat, q: nat, i: nat)
    requires |ch| > 0 && i + 1 < nCol && q < |a| && Eq(SampleAt(a, q), i) == 0
    requires var k := i + 1; SamplesOk(a, ch, nCol, k)
    ensures Open(ch, SampleAt(a, q).row, i) && HasSample(a, ch, |ch| - 1, i)
  {
    var k := i + 1;
    assert SampleOk(SampleAt(a, q), ch, nCol, k) && ColumnOk(SampleAt(a, q), ch, nCol, k, i);
    ZeroIsOpen(SampleAt(a, q), ch, nCol, k, i);
    OpenRepresents(a, ch, q, i);
  }

  /** A periodic sample shares the group: the samples stay as they are. */
  lemma LeftToPeriodic(a: seq<Sample>, ch: Changes, nCol: nat, i: nat, n: nat, mx: nat)
    requires i + 1 < nCol && Shared(a, i, true)
    requires var k := i + 1; Dealt(a, ch, nCol, k, n, mx)
    ensures Dealt(a, ch, nCol, i, n, mx)
  {
    hide Represented, InOrder, ZerosBelow, AllReserved, SamplesOk, LastRepresented, HasSample, HasWitness;
    var k := i + 1;
    LessFilled(a, ch, nCol, k, i);
    var q: nat :| q < |a| && ZeroAt(SampleAt(a, q), i, true);
    ZeroRepresents(a, ch, nCol, q, i);
    assert PeriodicAt(SampleAt(a, q), ch, i);
    if |a| < mx {
      LastNext(a, ch, nCol, i);
    }
  }

  lemma RaisedRows(a: seq<Sample>, b: seq<Sample>, u: nat, p: Sample)
    requires RaisedAt(a, b, u, p)
    ensures SameRows(a, b) && |b| == |a| && SampleAt(b, u) == Raised(SampleAt(a, u), p)
    ensures forall i: nat :: i < |a| && i != u ==> SampleAt(b, i) == SampleAt(a, i)
    ensures Periodic(b) == Periodic(a)
  {
    PeriodicSame(a, b);
  }

  /** The raised sample vouches for all that share the group. */
  lemma RaisedIsWitness(a: seq<Sample>, b: seq<Sample>, u: nat, p: Sample, ch: Changes, nCol: nat)
    requires |ch| > 0 && p.iCol + 1 < nCol && Eq(p, p.iCol) == SoFar(ch, p.iCol)
    requires RaisedAt(a, b, u, p) && !SampleAt(a, u).isPSample && Open(ch, SampleAt(a, u).row, p.iCol)
    ensures Witnessed(b, ch, nCol, p.iCol)
  {
    RaisedRows(a, b, u, p);
    forall j: nat | p.iCol <= j
      ensures HasWitness(b, ch, p.iCol, j)
    {
      assert Witness(SampleAt(b, u), ch, p.iCol, j);
    }
  }

  lemma RaisedIsDealt(a: seq<Sample>, b: seq<Sample>, u: nat, p: Sample, ch: Changes, nCol: nat, n: nat, mx: nat)
    requires var k := p.iCol + 1; Dealt(a, ch, nCol, k, n, mx)
    requires p.iCol + 1 < nCol && Eq(p, p.iCol) == SoFar(ch, p.iCol)
    requires Chosen(a, u, p.iCol, nCol) && RaisedAt(a, b, u, p) && !Shared(a, p.iCol, true)
    ensures Dealt(b, ch, nCol, p.iCol, n, mx) && Periodic(b) == Periodic(a)
  {
    hide Represented, LastRepresented, HasSample, HasWitness, Witnessed, SamplesOk, InOrder, ZerosBelow, AllReserved,
         SampleOk, Reserved, Shared;
    var i, k, s, t := p.iCol, p.iCol + 1, SampleAt(a, u), Raised(SampleAt(a, u), p);
    ZeroRepresents(a, ch, nCol, u, i);
    RaisedIsReserved(a, u, p, ch, nCol);
    RaisedIsOk(a, u, p, ch, nCol, n);
    LessFilled(a, ch, nCol, k, i);
    ReplaceGood(a, u, t, ch, nCol, i, n);
    RaisedRows(a, b, u, p);
    RaisedIsWitness(a, b, u, p, ch, nCol);
    SameRowsKeep(a, b, ch, nCol, k);
    SameRowsHave2(a, b, ch, i);
    if |b| < mx {
      LastNext(b, ch, nCol, i);
    }
  }

  lemma SameRowsHave2(a: seq<Sample>, b: seq<Sample>, ch: Changes, i: nat)
    requires |ch| > 0 && SameRows(a, b) && HasSample(a, ch, |ch| - 1, i)
    ensures HasSample(b, ch, |ch| - 1, i)
  {
    SameRowsHave(a, b, ch, |ch| - 1, i);
  }

  lemma RaisedIsOk(a: seq<Sample>, u: nat, p: Sample, ch: Changes, nCol: nat, n: nat)
    requires |ch| > 0 && p.iCol + 1 < nCol && Eq(p, p.iCol) == SoFar(ch, p.iCol)
    requires var k := p.iCol + 1; Good(a, ch, nCol, k, n)
    requires u < |a| && Eq(SampleAt(a, u), p.iCol) == 0 && p.iCol < |SampleAt(a, u).anEq|
    ensures SampleOk(Raised(SampleAt(a, u), p), ch, nCol, p.iCol)
    ensures forall j: nat :: j < nCol && Eq(Raised(SampleAt(a, u), p), j) == 0 ==> j < n
  {
    var k, s := p.iCol + 1, SampleAt(a, u);
    assert SampleOk(s, ch, nCol, k);
    Upgraded(s, ch, nCol, p.iCol, n);
  }

  /** No sample shares the group: the new one is added at the end. */
  lemma AddedIsDealt(a: seq<Sample>, b: seq<Sample>, p: Sample, ch: Changes, nCol: nat, n: nat, mx: nat, m: nat)
    requires var k := p.iCol + 1; Dealt(a, ch, nCol, k, n, mx)
    requires p.iCol + 1 < nCol && p.iCol <= n && NewOk(p, ch, nCol, p.iCol) && Open(ch, p.row, p.iCol) && !p.isPSample
    requires !Shared(a, p.iCol, true) && !Shared(a, p.iCol, false) && 0 < mx && (|a| == mx ==> Least(a, m, nCol))
    requires b == Kept(a, mx, m) + [ZeroFirst(p, p.iCol)]
    ensures Dealt(b, ch, nCol, p.iCol, n, mx) && Periodic(b) == Periodic(a)
  {
    hide Represented, LastRepresented, HasSample, Witnessed, InOrder, ZerosBelow, AllReserved, SampleOk, Reserved,
         SamplesOk, Shared, NewOk, IsBetter, Periodic, SameRows;
    var i, k, s, c := p.iCol, p.iCol + 1, ZeroFirst(p, p.iCol), Kept(a, mx, m);
    KeptIsGood(a, mx, m, ch, nCol, k, n);
    AddedIsLast(a, c, p, ch, nCol);
    AddedIsOk(p, ch, nCol);
    LessFilled(c, ch, nCol, k, i);
    AppendGood(c, s, ch, nCol, i, n);
    PeriodicAppended(c, s);
    AddedUnshared(c, p, ch, nCol);
    if |b| < mx {
      AppendedRows(a, s);
      SameRowsKeep(a, b, ch, nCol, k);
      OpenRepresentsLast(b, ch, i);
      LastNext(b, ch, nCol, i);
    }
  }

  lemma AppendedRows(a: seq<Sample>, s: Sample)
    ensures SameRows(a, a + [s])
  {
  }

  lemma OpenRepresentsLast(b: seq<Sample>, ch: Changes, i: nat)
    requires |ch| > 0 && b != [] && b[|b| - 1].row < |ch| && Open(ch, b[|b| - 1].row, i)
    ensures HasSample(b, ch, |ch| - 1, i)
  {
    OpenRepresents(b, ch, |b| - 1, i);
  }

  ghost predicate From(a: seq<Sample>, s: Sample) {
    exists i: nat :: i < |a| && SampleAt(a, i) == s
  }

  lemma KeptFrom(a: seq<Sample>, mx: nat, m: nat, q: nat)
    requires |a| <= mx && (|a| == mx ==> m < |a|) && q < |Kept(a, mx, m)|
    ensures From(a, SampleAt(Kept(a, mx, m), q))
  {
    if |a| == mx {
      DroppedAt(a, m, q);
      var i := if q < m then q else q + 1;
      assert SampleAt(a, i) == SampleAt(Kept(a, mx, m), q);
    } else {
      assert SampleAt(a, q) == SampleAt(Kept(a, mx, m), q);
    }
  }

  lemma KeptIsGood(a: seq<Sample>, mx: nat, m: nat, ch: Changes, nCol: nat, k: nat, n: nat)
    requires Good(a, ch, nCol, k, n)
    requires |a| <= mx && (|a| == mx ==> Least(a, m, nCol)) && 0 < mx
    ensures Good(Kept(a, mx, m), ch, nCol, k, n) && Periodic(Kept(a, mx, m)) == Periodic(a) && |Kept(a, mx, m)| < mx
    ensures forall q: nat :: q < |Kept(a, mx, m)| ==> From(a, SampleAt(Kept(a, mx, m), q))
  {
    hide SamplesOk, InOrder, ZerosBelow, AllReserved, Periodic;
    if |a| == mx {
      DropGood(a, ch, nCol, k, n, m);
      PeriodicDropped(a, m);
    }
    forall q: nat | q < |Kept(a, mx, m)|
      ensures From(a, SampleAt(Kept(a, mx, m), q))
    {
      KeptFrom(a, mx, m, q);
    }
  }

  lemma AddedIsLast(a: seq<Sample>, c: seq<Sample>, p: Sample, ch: Changes, nCol: nat)
    requires var k := p.iCol + 1; SamplesOk(a, ch, nCol, k)
    requires p.iCol + 1 < nCol && Open(ch, p.row, p.iCol) && !Shared(a, p.iCol, true) && !Shared(a, p.iCol, false)
    requires forall q: nat :: q < |c| ==> From(a, SampleAt(c, q))
    ensures forall q: nat :: q < |c| ==> SampleAt(c, q).row < p.row && Eq(SampleAt(c, q), p.iCol) != 0
  {
    hide SamplesOk;
    forall q: nat | q < |c|
      ensures SampleAt(c, q).row < p.row && Eq(SampleAt(c, q), p.iCol) != 0
    {
      assert From(a, SampleAt(c, q));
      var r: nat :| r < |a| && SampleAt(a, r) == SampleAt(c, q);
      var s := SampleAt(a, r);
      assert !ZeroAt(s, p.iCol, true) && !ZeroAt(s, p.iCol, false);
      ComesAfter(a, ch, nCol, r, p.iCol, p.row);
    }
  }

  lemma AddedIsOk(p: Sample, ch: Changes, nCol: nat)
    requires NewOk(p, ch, nCol, p.iCol) && !p.isPSample
    ensures var s := ZeroFirst(p, p.iCol);
      && SampleOk(s, ch, nCol, p.iCol) && Reserved(s, nCol) && s.row == p.row < |ch| && !s.isPSample && s.iCol == p.iCol
      && forall j: nat :: j < nCol && Eq(s, j) == 0 ==> j < p.iCol
  {
    NewIsOk(p, ch, nCol, p.iCol);
  }

  /** After adding, no sample has a zero in a column dealt with. */
  lemma AddedUnshared(c: seq<Sample>, p: Sample, ch: Changes, nCol: nat)
    requires |ch| > 0 && NewOk(p, ch, nCol, p.iCol) && p.iCol + 1 < nCol && !p.isPSample
    requires var k := p.iCol + 1; SamplesOk(c, ch, nCol, k)
    requires forall q: nat :: q < |c| ==> Eq(SampleAt(c, q), p.iCol) != 0
    ensures Witnessed(c + [ZeroFirst(p, p.iCol)], ch, nCol, p.iCol)
  {
    var b, i := c + [ZeroFirst(p, p.iCol)], p.iCol;
    NewIsOk(p, ch, nCol, i);
    forall q: nat, j: nat | q < |b| && i <= j && j + 1 < nCol
      ensures !ZeroAt(SampleAt(b, q), j, false)
    {
      if q < |c| {
        assert SampleAt(b, q) == SampleAt(c, q);
        if Eq(SampleAt(c, q), j) == 0 {
          NoneWithin(c, ch, nCol, i, q, j);
        }
      }
    }
  }

  /** Inserting the best row of a group deals with the group's column. */
  lemma InsertedIsDealt(a: seq<Sample>, b: seq<Sample>, p: Sample, ch: Changes, nCol: nat, n: nat, mx: nat, m: nat)
    requires var k := p.iCol + 1; Dealt(a, ch, nCol, k, n, mx)
    requires p.iCol + 1 < nCol && p.iCol <= n && NewOk(p, ch, nCol, p.iCol) && Open(ch, p.row, p.iCol) && !p.isPSample
    requires Eq(p, p.iCol) == SoFar(ch, p.iCol) && 0 < mx && (|a| == mx ==> Least(a, m, nCol))
    requires Inserted(a, b, p, p.iCol, mx, m, nCol)
    ensures Dealt(b, ch, nCol, p.iCol, n, mx) && Periodic(b) == Periodic(a)
  {
    hide Dealt, NewOk, Open, Periodic, Shared, Chosen, RaisedAt;
    if Shared(a, p.iCol, true) {
      LeftToPeriodic(a, ch, nCol, p.iCol, n, mx);
    } else if Shared(a, p.iCol, false) {
      var u: nat :| Chosen(a, u, p.iCol, nCol) && RaisedAt(a, b, u, p);
      RaisedIsDealt(a, b, u, p, ch, nCol, n, mx);
    } else {
      AddedIsDealt(a, b, p, ch, nCol, n, mx, m);
    }
  }

  /** A row that is not better than the least desirable sample shares no sample's group. */
  lemma PassedOverIsDealt(a: seq<Sample>, p: Sample, ch: Changes, nCol: nat, n: nat, mx: nat, m: nat)
    requires var k := p.iCol + 1; Dealt(a, ch, nCol, k, n, mx)
    requires p.iCol + 1 < nCol && Eq(p, p.iCol) == SoFar(ch, p.iCol)
    requires |a| == mx && Least(a, m, nCol) && !IsBetter(p, SampleAt(a, m), nCol)
    ensures Dealt(a, ch, nCol, p.iCol, n, mx)
  {
    hide IsBetter, Witnessed, SampleOk, Reserved, InOrder, ZerosBelow;
    var i, k := p.iCol, p.iCol + 1;
    LessFilled(a, ch, nCol, k, i);
    if Shared(a, i, false) {
      var q: nat :| q < |a| && ZeroAt(SampleAt(a, q), i, false);
      SharedIsWorse(p, SampleAt(a, q), ch, nCol, k, i);
      PreferenceIsOrder(p, SampleAt(a, q), SampleAt(a, m), nCol);
    } else {
      NothingShared(a, ch, nCol, i);
    }
  }

  // ---- on to the next row --------------------------------------------------------------------------

  function AllFilled(a: seq<Sample>, x: nat, cur: Sample): seq<Sample> {
    seq(|a|, i requires 0 <= i < |a| => Filled(a[i], x, cur))
  }

  lemma AllFilledAt(a: seq<Sample>, x: nat, cur: Sample)
    ensures |AllFilled(a, x, cur)| == |a|
    ensures forall i: nat :: i < |a| ==> SampleAt(AllFilled(a, x, cur), i) == Filled(SampleAt(a, i), x, cur)
  {
  }

  lemma NothingToFill(a: seq<Sample>, nCol: nat, n: nat, x: nat, cur: Sample)
    requires ZerosBelow(a, nCol, n) && n <= x
    requires forall i: nat :: i < |a| ==> Sized(SampleAt(a, i), nCol)
    ensures AllFilled(a, x, cur) == a
  {
    forall i: nat | i < |a|
      ensures Filled(SampleAt(a, i), x, cur) == SampleAt(a, i)
    {
      var s := SampleAt(a, i);
      assert Sized(s, nCol);
      forall j: nat | j < nCol
        ensures Filled(s, x, cur).anEq[j] == s.anEq[j]
      {
        assert s.anEq[j] == Eq(s, j);
      }
      assert Filled(s, x, cur).anEq == s.anEq;
    }
    AllFilledAt(a, x, cur);
    forall i: nat | i < |a|
      ensures AllFilled(a, x, cur)[i] == a[i]
    {
      assert SampleAt(a, i) == a[i];
    }
  }

  lemma FilledKeeps(s: Sample, x: nat, cur: Sample, nCol: nat)
    requires Reserved(s, nCol)
    ensures var t := Filled(s, x, cur);
      Reserved(t, nCol) && t.row == s.row && t.isPSample == s.isPSample
  {
    var t := Filled(s, x, cur);
    forall j: nat | Eq(t, j) == 0
      ensures Eq(s, j) == 0
    {
    }
  }

  lemma FilledIsGood(a: seq<Sample>, ch: Changes, nCol: nat, x: nat, n: nat, cur: Sample)
    requires Good(a, ch, nCol, x, n) && CurrentOk(cur, ch, nCol) && x < nCol
    ensures var z := nCol - 1; Good(AllFilled(a, x, cur), ch + [x], nCol, z, x)
    ensures SameRows(a, AllFilled(a, x, cur)) && Periodic(AllFilled(a, x, cur)) == Periodic(a)
  {
    hide SampleOk, Reserved, CurrentOk, Filled, AllFilled, Eq;
    var b, ch', z := AllFilled(a, x, cur), ch + [x], nCol - 1;
    AllFilledAt(a, x, cur);
    forall i: nat | i < |b|
      ensures SampleOk(SampleAt(b, i), ch', nCol, z) && Reserved(SampleAt(b, i), nCol)
      ensures SampleAt(b, i).row == SampleAt(a, i).row && SampleAt(b, i).isPSample == SampleAt(a, i).isPSample
      ensures forall j: nat :: j < nCol && Eq(SampleAt(b, i), j) == 0 ==> j < x
    {
      var s := SampleAt(a, i);
      assert SampleOk(s, ch, nCol, x) && Reserved(s, nCol);
      FilledIsOk(s, ch, nCol, x, cur);
      FilledKeeps(s, x, cur, nCol);
    }
    assert InOrder(b) by {
      hide SampleAt;
    }
    PeriodicSame(a, b);
  }

  lemma FilledIsLeast(a: seq<Sample>, x: nat, cur: Sample, nCol: nat, m: nat)
    requires Least(a, m, nCol) && AllReserved(a, nCol) && forall i: nat :: i < |a| ==> Sized(SampleAt(a, i), nCol)
    ensures Least(AllFilled(a, x, cur), m, nCol)
  {
    hide IsBetter, Sized, Filled, Reserved, AllFilled;
    var b := AllFilled(a, x, cur);
    AllFilledAt(a, x, cur);
    forall i: nat | i < |a|
      ensures Filled(SampleAt(a, i), x, cur).isPSample == SampleAt(a, i).isPSample
    {
      assert Reserved(SampleAt(a, i), nCol);
      FilledKeeps(SampleAt(a, i), x, cur, nCol);
    }
    forall i: nat | i < |a| && !SampleAt(a, i).isPSample
      ensures !IsBetter(SampleAt(b, m), SampleAt(b, i), nCol)
    {
      assert Reserved(SampleAt(a, i), nCol) && Reserved(SampleAt(a, m), nCol);
      assert Sized(SampleAt(a, i), nCol) && Sized(SampleAt(a, m), nCol);
      FilledPreference(SampleAt(a, m), SampleAt(a, i), x, cur, nCol);
    }
  }

  /** The counters of the next row, the first to differ from its predecessor in column x. */
  function NextCurrent(s: Sample, x: nat): Sample {
    s.(anEq := seq(|s.anEq|, j requires 0 <= j < |s.anEq| => if j < x then s.anEq[j] + 1 else 1),
       anLt := seq(|s.anLt|, j requires 0 <= j < |s.anLt| => if j < x then s.anLt[j] else s.anLt[j] + Eq(s, j)),
       anDLt := seq(|s.anDLt|, j requires 0 <= j < |s.anDLt| => if j < x then s.anDLt[j] else s.anDLt[j] + 1),
       row := s.row + 1)
  }

  lemma CurrentNext(s: Sample, ch: Changes, nCol: nat, x: nat)
    requires CurrentOk(s, ch, nCol) && x < nCol
    ensures CurrentOk(NextCurrent(s, x), ch + [x], nCol)
  {
    var t, ch' := NextCurrent(s, x), ch + [x];
    forall j: nat | j < nCol
      ensures CurrentColumn(t, ch', j)
    {
      assert CurrentColumn(s, ch, j);
      NextCounts(ch, x, j);
    }
  }

  lemma CurrentIsBest(s: Sample, ch: Changes, nCol: nat, i: nat)
    requires CurrentOk(s, ch, nCol) && ChangesOk(ch, nCol) && i < nCol
    ensures BestOk(s.(iCol := i), ch, nCol, i)
  {
    var t := s.(iCol := i);
    LastColumn(ch, nCol, s.row);
    forall j: nat | j < nCol
      ensures BestColumn(t, ch, nCol, i, j)
    {
      assert CurrentColumn(s, ch, j);
    }
  }

  /** The best row of a group that goes on stays valid unless the current row is better. */
  lemma BestNext(s: Sample, ch: Changes, nCol: nat, x: nat, i: nat, cur: Sample)
    requires BestOk(s, ch, nCol, i) && i + 1 < nCol && i < x < nCol && CurrentOk(cur, ch + [x], nCol)
    requires var k := i + 1; !BetterPostFrom(cur.(iCol := i), s, k, nCol)
    ensures BestOk(s, ch + [x], nCol, i)
  {
    var ch', k := ch + [x], i + 1;
    NextRow(ch, x, s.row, i);
    NextRow(ch, x, s.row, k);
    if k + 1 < nCol && Open(ch', s.row, k) {
      BestStops(s, ch, nCol, x, i, cur);
    }
    forall j: nat | j < nCol
      ensures BestColumn(s, ch', nCol, i, j)
    {
      assert BestColumn(s, ch, nCol, i, j);
      StartSame(ch, ch', s.row, j);
      NextRow(ch, x, s.row, j);
    }
  }

  /** Otherwise the group within it does not go on. */
  lemma BestStops(s: Sample, ch: Changes, nCol: nat, x: nat, i: nat, cur: Sample)
    requires BestOk(s, ch, nCol, i) && i + 2 < nCol && i < x < nCol && CurrentOk(cur, ch + [x], nCol)
    requires var k := i + 1; Open(ch + [x], s.row, k)
    ensures var k := i + 1; BetterPostFrom(cur.(iCol := i), s, k, nCol)
  {
    var k := i + 1;
    assert BestColumn(s, ch, nCol, i, k) && CurrentColumn(cur, ch + [x], k);
    NextRow(ch, x, s.row, k);
    NextCounts(ch, x, k);
  }

  // ---- periodic samples ----------------------------------------------------------------------------

  /** A periodic sample stands for row r. */
  ghost predicate PeriodicRow(a: seq<Sample>, r: nat) {
    exists i: nat :: i < |a| && IsPeriodic(a, i, r)
  }

  ghost predicate IsPeriodic(a: seq<Sample>, i: nat, r: nat)
    requires i < |a|
  {
    SampleAt(a, i).isPSample && SampleAt(a, i).row == r
  }

  ghost predicate SamePeriodic(a: seq<Sample>, b: seq<Sample>) {
    forall r: nat :: PeriodicRow(a, r) <==> PeriodicRow(b, r)
  }

  /** Row r is one of every p rows. */
  predicate OnPeriod(r: nat, p: nat)
    requires p > 0
  {
    r / p != (r + 1) / p
  }

  /** The periodic samples stand for every p-th of the first n rows, and for no others. */
  ghost predicate EveryPth(a: seq<Sample>, n: nat, p: nat)
    requires p > 0
  {
    forall r: nat :: PeriodicRow(a, r) <==> r < n && OnPeriod(r, p)
  }

  lemma PeriodicAsBefore(a: seq<Sample>, b: seq<Sample>)
    requires |a| == |b|
    requires forall i: nat :: i < |a| ==>
      SampleAt(b, i).isPSample == SampleAt(a, i).isPSample && SampleAt(b, i).row == SampleAt(a, i).row
    ensures SamePeriodic(a, b)
  {
    forall r: nat
      ensures PeriodicRow(a, r) <==> PeriodicRow(b, r)
    {
      forall i: nat | i < |a|
        ensures IsPeriodic(a, i, r) <==> IsPeriodic(b, i, r)
      {
      }
    }
  }

  lemma PeriodicLess(a: seq<Sample>, m: nat)
    requires m < |a| && !SampleAt(a, m).isPSample
    ensures SamePeriodic(a, Dropped(a, m))
  {
    var b := Dropped(a, m);
    DroppedSize(a, m);
    forall r: nat
      ensures PeriodicRow(a, r) <==> PeriodicRow(b, r)
    {
      if PeriodicRow(a, r) {
        var i: nat :| i < |a| && IsPeriodic(a, i, r);
        var j := if i < m then i else i - 1;
        DroppedAt(a, m, j);
        assert IsPeriodic(b, j, r);
      }
      if PeriodicRow(b, r) {
        var j: nat :| j < |b| && IsPeriodic(b, j, r);
        DroppedAt(a, m, j);
        assert IsPeriodic(a, if j < m then j else j + 1, r);
      }
    }
  }

  lemma PeriodicMore(a: seq<Sample>, s: Sample)
    ensures forall r: nat :: PeriodicRow(a + [s], r) <==> PeriodicRow(a, r) || (s.isPSample && s.row == r)
  {
    var b := a + [s];
    forall i: nat | i < |b|
      ensures SampleAt(b, i) == if i < |a| then SampleAt(a, i) else s
    {
    }
    forall r: nat
      ensures PeriodicRow(b, r) <==> PeriodicRow(a, r) || (s.isPSample && s.row == r)
    {
      if PeriodicRow(a, r) {
        var i: nat :| i < |a| && IsPeriodic(a, i, r);
        assert IsPeriodic(b, i, r);
      }
      if s.isPSample && s.row == r {
        assert IsPeriodic(b, |a|, r);
      }
      if PeriodicRow(b, r) {
        var j: nat :| j < |b| && IsPeriodic(b, j, r);
        assert j < |a| ==> IsPeriodic(a, j, r);
      }
    }
  }

  /** Inserting drops no periodic sample, and adds one only if the new sample is one. */
  lemma InsertedRows(a: seq<Sample>, b: seq<Sample>, p: Sample, z: nat, mx: nat, m: nat, nCol: nat)
    requires (|a| >= mx ==> Least(a, m, nCol)) && Inserted(a, b, p, z, mx, m, nCol)
    ensures forall r: nat :: PeriodicRow(b, r) <==> PeriodicRow(a, r) || (p.isPSample && p.row == r)
  {
    hide PeriodicRow, IsBetter, Shared;
    if !p.isPSample && Shared(a, p.iCol, true) {
    } else if !p.isPSample && Shared(a, p.iCol, false) {
      var u: nat :| Chosen(a, u, p.iCol, nCol) && RaisedAt(a, b, u, p);
      PeriodicAsBefore(a, b);
    } else {
      if |a| >= mx {
        PeriodicLess(a, m);
      }
      PeriodicMore(Kept(a, mx, m), ZeroFirst(p, z));
    }
  }

  lemma FilledRows(a: seq<Sample>, x: nat, cur: Sample)
    ensures SamePeriodic(a, AllFilled(a, x, cur))
  {
    AllFilledAt(a, x, cur);
    PeriodicAsBefore(a, AllFilled(a, x, cur));
  }
}
