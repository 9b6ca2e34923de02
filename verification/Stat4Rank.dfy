/** Which groups have a sample when not all can have one: a group is left out only if the buffer is full
    and every sample chosen for its frequency stands for a group that is at least as large. */
module Stat4Ranks {
  import opened IndexCounts
  import opened Stat4
  import opened Stat4Steps

  /** The rows of the group of row r in column c. */
  ghost function Size(ch: Changes, r: nat, c: nat): nat
    requires r < |ch|
  {
    End(ch, r, c) - Start(ch, r, c)
  }

  /** The number for which a sample has been chosen. */
  function Weight(s: Sample): nat {
    Eq(s, s.iCol)
  }

  /** The sample stands for the group: it is periodic, or chosen for this column or one before it. */
  ghost predicate Covers(s: Sample, ch: Changes, r: nat, c: nat) {
    SameGroup(ch, s.row, r, c) && (s.isPSample || s.iCol <= c)
  }

  ghost predicate Covered(a: seq<Sample>, ch: Changes, r: nat, c: nat) {
    exists i: nat :: i < |a| && Covers(SampleAt(a, i), ch, r, c)
  }

  /** Every sample that is not periodic has been chosen for v rows or more. */
  ghost predicate AtLeast(a: seq<Sample>, v: nat) {
    forall i: nat :: i < |a| && !SampleAt(a, i).isPSample ==> v <= Weight(SampleAt(a, i))
  }

  ghost predicate RankedAt(a: seq<Sample>, ch: Changes, mx: nat, r: nat, c: nat)
    requires r < |ch|
  {
    Covered(a, ch, r, c) || (|a| == mx && AtLeast(a, Size(ch, r, c)))
  }

  /** The complete groups, and from column k on the open ones, have a sample or are not larger than any
      group that has one. */
  ghost predicate Ranked(a: seq<Sample>, ch: Changes, nCol: nat, mx: nat, k: nat) {
    forall r: nat, c: nat :: r < |ch| && c + 1 < nCol && (Open(ch, r, c) ==> k <= c) ==> RankedAt(a, ch, mx, r, c)
  }

  // ---- the size of a group -------------------------------------------------------------------------

  lemma {:induction false} EndWithin(ch: Changes, r: nat, c: nat, c': nat)
    requires r < |ch| && c <= c'
    ensures End(ch, r, c') <= End(ch, r, c)
    decreases |ch| - r
  {
    if r + 1 < |ch| && At(ch, r + 1) > c' {
      EndWithin(ch, r + 1, c, c');
    }
  }

  lemma SizeWithin(ch: Changes, r: nat, c: nat, c': nat)
    requires r < |ch| && c <= c'
    ensures Size(ch, r, c') <= Size(ch, r, c)
  {
    EndWithin(ch, r, c, c');
    StartWithin(ch, r, c, c');
  }

  lemma {:induction false} EndSame(ch: Changes, q: nat, r: nat, c: nat)
    requires r < |ch| && r <= q < End(ch, r, c)
    ensures q < |ch| && End(ch, q, c) == End(ch, r, c)
    decreases |ch| - r
  {
    if r < q {
      EndSame(ch, q, r + 1, c);
    }
  }

  lemma SameSize(ch: Changes, q: nat, r: nat, c: nat)
    requires q < |ch| && r < |ch| && SameGroup(ch, q, r, c)
    ensures Size(ch, q, c) == Size(ch, r, c)
  {
    if r <= q {
      EndIs(ch, q, r, c);
      EndSame(ch, q, r, c);
    } else {
      EndIs(ch, r, q, c);
      EndSame(ch, r, q, c);
    }
  }

  /** A counter that is not zero is the size of its group. */
  lemma CounterIsSize(s: Sample, ch: Changes, nCol: nat, k: nat, j: nat)
    requires |ch| > 0 && SampleOk(s, ch, nCol, k) && j + 1 < nCol && Eq(s, j) != 0
    ensures s.row < |ch| && Eq(s, j) == Size(ch, s.row, j)
  {
    assert ColumnOk(s, ch, nCol, k, j);
    if Open(ch, s.row, j) {
      SameStart(ch, s.row, |ch| - 1, j);
      OpenEnd(ch, s.row, j);
    }
  }

  lemma LastSize(ch: Changes, c: nat)
    requires |ch| > 0
    ensures Size(ch, |ch| - 1, c) == SoFar(ch, c)
  {
  }

  /** A group that a sample stands for is no larger than the one for which the sample was chosen. */
  lemma CoveredSize(s: Sample, ch: Changes, nCol: nat, k: nat, r: nat, c: nat)
    requires |ch| > 0 && SampleOk(s, ch, nCol, k) && Reserved(s, nCol) && !s.isPSample
    requires r < |ch| && c + 1 < nCol && Covers(s, ch, r, c)
    ensures Size(ch, r, c) <= Weight(s)
  {
    CounterIsSize(s, ch, nCol, k, s.iCol);
    SizeWithin(ch, s.row, s.iCol, c);
    SameSize(ch, s.row, r, c);
  }

  // ---- inserting -----------------------------------------------------------------------------------

  lemma CoversMore(a: seq<Sample>, b: seq<Sample>, ch: Changes, r: nat, c: nat, i: nat, j: nat)
    requires i < |a| && j < |b| && Covers(SampleAt(a, i), ch, r, c)
    requires var s, t := SampleAt(a, i), SampleAt(b, j);
      t.row == s.row && t.isPSample == s.isPSample && t.iCol <= s.iCol
    ensures Covered(b, ch, r, c)
  {
    assert Covers(SampleAt(b, j), ch, r, c);
  }

  /** A sample raised to a larger group still stands for all it stood for. */
  lemma RaisedRanks(a: seq<Sample>, b: seq<Sample>, u: nat, p: Sample, ch: Changes, mx: nat, r: nat, c: nat)
    requires RaisedAt(a, b, u, p) && r < |ch| && RankedAt(a, ch, mx, r, c)
    requires p.iCol <= SampleAt(a, u).iCol && Weight(SampleAt(a, u)) <= Weight(p)
    ensures RankedAt(b, ch, mx, r, c)
  {
    hide Covers, Size;
    RaisedRows(a, b, u, p);
    if Covered(a, ch, r, c) {
      var i: nat :| i < |a| && Covers(SampleAt(a, i), ch, r, c);
      CoversMore(a, b, ch, r, c, i, i);
    }
  }

  /** A sample takes the place of the least desirable one only if it is preferred to it. */
  lemma AddedRanks(a: seq<Sample>, b: seq<Sample>, s: Sample, ch: Changes, nCol: nat, k: nat, mx: nat, m: nat,
                   r: nat, c: nat)
    requires |ch| > 0 && SamplesOk(a, ch, nCol, k) && AllReserved(a, nCol) && |a| <= mx && 0 < mx
    requires |a| == mx ==> Least(a, m, nCol) && (s.isPSample || Weight(SampleAt(a, m)) <= Weight(s))
    requires b == Kept(a, mx, m) + [s] && r < |ch| && c + 1 < nCol && RankedAt(a, ch, mx, r, c)
    ensures RankedAt(b, ch, mx, r, c)
  {
    hide Covers, Size, Least, Weight;
    if |a| < mx {
      var i: nat :| i < |a| && Covers(SampleAt(a, i), ch, r, c);
      assert SampleAt(b, i) == SampleAt(a, i);
      CoversMore(a, b, ch, r, c, i, i);
    } else {
      LeastFacts(a, m, nCol);
      FullRanks(a, b, s, ch, nCol, k, m, r, c);
    }
  }

  lemma LeastFacts(a: seq<Sample>, m: nat, nCol: nat)
    requires Least(a, m, nCol)
    ensures m < |a| && !SampleAt(a, m).isPSample && AtLeast(a, Weight(SampleAt(a, m)))
  {
    forall i: nat | i < |a| && !SampleAt(a, i).isPSample
      ensures Weight(SampleAt(a, m)) <= Weight(SampleAt(a, i))
    {
      assert !IsBetter(SampleAt(a, m), SampleAt(a, i), nCol);
    }
  }

  lemma FullRanks(a: seq<Sample>, b: seq<Sample>, s: Sample, ch: Changes, nCol: nat, k: nat, m: nat, r: nat, c: nat)
    requires |ch| > 0 && SamplesOk(a, ch, nCol, k) && AllReserved(a, nCol)
    requires m < |a| && !SampleAt(a, m).isPSample && AtLeast(a, Weight(SampleAt(a, m)))
    requires s.isPSample || Weight(SampleAt(a, m)) <= Weight(s)
    requires b == Dropped(a, m) + [s] && r < |ch| && c + 1 < nCol && RankedAt(a, ch, |a|, r, c)
    ensures RankedAt(b, ch, |a|, r, c)
  {
    hide Covers, Size, Weight, SampleOk, Reserved, Dropped;
    var v := Size(ch, r, c);
    DroppedSize(a, m);
    if Covered(a, ch, r, c) {
      var i: nat :| i < |a| && Covers(SampleAt(a, i), ch, r, c);
      if i == m {
        assert SampleOk(SampleAt(a, m), ch, nCol, k) && Reserved(SampleAt(a, m), nCol);
        CoveredSize(SampleAt(a, m), ch, nCol, k, r, c);
        FewerAtLeast(a, Weight(SampleAt(a, m)), v);
        AddedAtLeast(a, b, s, m, v);
      } else {
        var j := if i < m then i else i - 1;
        DroppedAt(a, m, j);
        assert SampleAt(b, j) == SampleAt(Dropped(a, m), j);
        CoversMore(a, b, ch, r, c, i, j);
      }
    } else {
      AddedAtLeast(a, b, s, m, v);
    }
  }

  lemma FewerAtLeast(a: seq<Sample>, w: nat, v: nat)
    requires AtLeast(a, w) && v <= w
    ensures AtLeast(a, v)
  {
  }

  lemma AddedAtLeast(a: seq<Sample>, b: seq<Sample>, s: Sample, m: nat, v: nat)
    requires m < |a| && AtLeast(a, v) && !SampleAt(a, m).isPSample
    requires s.isPSample || Weight(SampleAt(a, m)) <= Weight(s)
    requires b == Dropped(a, m) + [s]
    ensures AtLeast(b, v)
  {
    DroppedSize(a, m);
    forall j: nat | j < |b| && !SampleAt(b, j).isPSample
      ensures v <= Weight(SampleAt(b, j))
    {
      if j + 1 < |b| {
        DroppedAt(a, m, j);
        assert SampleAt(b, j) == SampleAt(Dropped(a, m), j);
      }
    }
  }

  lemma BetterWeight(x: Sample, y: Sample, nCol: nat)
    ensures IsBetter(x, y, nCol) ==> Weight(y) <= Weight(x)
    ensures !IsBetter(x, y, nCol) ==> Weight(x) <= Weight(y)
  {
  }

  /** What is covered in the group of the last row is covered in every open group. */
  lemma OpenCovered(a: seq<Sample>, ch: Changes, q: nat, r: nat, c: nat)
    requires q < |a| && SampleAt(a, q).row < |ch| && r < |ch|
    requires Open(ch, SampleAt(a, q).row, c) && Open(ch, r, c) && (SampleAt(a, q).isPSample || SampleAt(a, q).iCol <= c)
    ensures Covered(a, ch, r, c)
  {
    SameStart(ch, SampleAt(a, q).row, |ch| - 1, c);
    SameStart(ch, r, |ch| - 1, c);
    assert Covers(SampleAt(a, q), ch, r, c);
  }

  /** An insertion keeps the ranking of the groups that have it, and gives it to the new one's group. */
  lemma InsertedRanks(a: seq<Sample>, b: seq<Sample>, p: Sample, ch: Changes, nCol: nat, mx: nat, m: nat)
    requires |ch| > 0 && AllReserved(a, nCol) && |a| <= mx && 0 < mx && p.iCol + 1 < nCol && !p.isPSample
    requires var k := p.iCol + 1; SamplesOk(a, ch, nCol, k) && Ranked(a, ch, nCol, mx, k)
    requires p.row < |ch| && Open(ch, p.row, p.iCol) && Eq(p, p.iCol) == SoFar(ch, p.iCol)
    requires |a| == mx ==> Least(a, m, nCol) && IsBetter(p, SampleAt(a, m), nCol)
    requires Inserted(a, b, p, p.iCol, mx, m, nCol)
    ensures Ranked(b, ch, nCol, mx, p.iCol)
  {
    hide Open, Inserted, AllReserved, SamplesOk, Least, IsBetter, Ranked, RankedAt;
    var k := p.iCol + 1;
    if |a| == mx {
      LeastFacts(a, m, nCol);
    }
    forall r: nat, c: nat | r < |ch| && c + 1 < nCol && (Open(ch, r, c) ==> p.iCol <= c)
      ensures RankedAt(b, ch, mx, r, c)
    {
      if Open(ch, r, c) && c == p.iCol {
        InsertedCovers(a, b, p, ch, nCol, mx, m, r);
      } else {
        RankedIs(a, ch, nCol, mx, k, r, c);
        InsertedKeeps(a, b, p, ch, nCol, k, mx, m, r, c);
      }
    }
    RankedAll(b, ch, nCol, mx, p.iCol);
  }

  lemma RankedIs(a: seq<Sample>, ch: Changes, nCol: nat, mx: nat, k: nat, r: nat, c: nat)
    requires Ranked(a, ch, nCol, mx, k) && r < |ch| && c + 1 < nCol && (Open(ch, r, c) ==> k <= c)
    ensures RankedAt(a, ch, mx, r, c)
  {
  }

  lemma RankedAll(a: seq<Sample>, ch: Changes, nCol: nat, mx: nat, k: nat)
    requires forall r: nat, c: nat :: r < |ch| && c + 1 < nCol && (Open(ch, r, c) ==> k <= c) ==>
      RankedAt(a, ch, mx, r, c)
    ensures Ranked(a, ch, nCol, mx, k)
  {
  }

  lemma InsertedKeeps(a: seq<Sample>, b: seq<Sample>, p: Sample, ch: Changes, nCol: nat, k: nat, mx: nat, m: nat,
                      r: nat, c: nat)
    requires |ch| > 0 && AllReserved(a, nCol) && |a| <= mx && 0 < mx && !p.isPSample && k == p.iCol + 1 < nCol
    requires SamplesOk(a, ch, nCol, k) && Eq(p, p.iCol) == SoFar(ch, p.iCol)
    requires |a| == mx ==> Least(a, m, nCol) && IsBetter(p, SampleAt(a, m), nCol)
    requires Inserted(a, b, p, p.iCol, mx, m, nCol)
    requires r < |ch| && c + 1 < nCol && RankedAt(a, ch, mx, r, c)
    ensures RankedAt(b, ch, mx, r, c)
  {
    hide RankedAt, SampleOk, IsBetter, Least, Reserved, Weight;
    if Shared(a, p.iCol, true) {
    } else if Shared(a, p.iCol, false) {
      var u: nat :| Chosen(a, u, p.iCol, nCol) && RaisedAt(a, b, u, p);
      assert SampleOk(SampleAt(a, u), ch, nCol, k) && Reserved(SampleAt(a, u), nCol);
      SharedIsWorse(p, SampleAt(a, u), ch, nCol, k, p.iCol);
      BetterWeight(p, SampleAt(a, u), nCol);
      RaisedRanks(a, b, u, p, ch, mx, r, c);
    } else {
      if |a| == mx {
        LeastFacts(a, m, nCol);
        BetterWeight(p, SampleAt(a, m), nCol);
      }
      ZeroWeight(p);
      AddedRanks(a, b, ZeroFirst(p, p.iCol), ch, nCol, k, mx, m, r, c);
    }
  }

  lemma ZeroWeight(p: Sample)
    ensures Weight(ZeroFirst(p, p.iCol)) == Weight(p)
  {
  }

  /** The open group has a sample now, whichever way the insertion went. */
  lemma InsertedCovers(a: seq<Sample>, b: seq<Sample>, p: Sample, ch: Changes, nCol: nat, mx: nat, m: nat, r: nat)
    requires |ch| > 0 && |a| <= mx && 0 < mx && p.iCol + 1 < nCol && !p.isPSample && (|a| == mx ==> m < |a|)
    requires var k := p.iCol + 1; SamplesOk(a, ch, nCol, k)
    requires p.row < |ch| && Open(ch, p.row, p.iCol) && Inserted(a, b, p, p.iCol, mx, m, nCol)
    requires r < |ch| && Open(ch, r, p.iCol)
    ensures RankedAt(b, ch, mx, r, p.iCol)
  {
    hide Open, SampleOk, IsBetter, SamplesOk, Size, Kept, Covered;
    var i, k := p.iCol, p.iCol + 1;
    if Shared(a, i, true) {
      var q: nat :| q < |a| && ZeroAt(SampleAt(a, q), i, true);
      ZeroRepresents(a, ch, nCol, q, i);
      RowOf(a, ch, nCol, k, q);
      OpenCovered(a, ch, q, r, i);
    } else if Shared(a, i, false) {
      var u: nat :| Chosen(a, u, i, nCol) && RaisedAt(a, b, u, p);
      ZeroRepresents(a, ch, nCol, u, i);
      RowOf(a, ch, nCol, k, u);
      RaisedRows(a, b, u, p);
      OpenCovered(b, ch, u, r, i);
    } else {
      assert SampleAt(b, |b| - 1) == ZeroFirst(p, i);
      OpenCovered(b, ch, |b| - 1, r, i);
    }
  }

  lemma RowOf(a: seq<Sample>, ch: Changes, nCol: nat, k: nat, q: nat)
    requires SamplesOk(a, ch, nCol, k) && q < |a| && nCol > 0
    ensures SampleAt(a, q).row < |ch|
  {
    assert SampleOk(SampleAt(a, q), ch, nCol, k) && ColumnOk(SampleAt(a, q), ch, nCol, k, 0);
  }

  /** A row is passed over only if its group is no larger than any that has a sample. */
  lemma PassedOverRanks(a: seq<Sample>, p: Sample, ch: Changes, nCol: nat, mx: nat, m: nat)
    requires |ch| > 0 && p.iCol + 1 < nCol && Eq(p, p.iCol) == SoFar(ch, p.iCol)
    requires var k := p.iCol + 1; Ranked(a, ch, nCol, mx, k)
    requires |a| == mx && Least(a, m, nCol) && !IsBetter(p, SampleAt(a, m), nCol)
    ensures Ranked(a, ch, nCol, mx, p.iCol)
  {
    hide IsBetter, Covered, Least;
    LeastFacts(a, m, nCol);
    BetterWeight(p, SampleAt(a, m), nCol);
    forall r: nat | r < |ch| && Open(ch, r, p.iCol)
      ensures RankedAt(a, ch, mx, r, p.iCol)
    {
      SameStart(ch, r, |ch| - 1, p.iCol);
      OpenEnd(ch, r, p.iCol);
    }
  }

  /** A periodic sample is taken in place of the least desirable one. */
  lemma PeriodicRanks(a: seq<Sample>, b: seq<Sample>, s: Sample, ch: Changes, nCol: nat, k: nat, mx: nat, m: nat)
    requires |ch| > 0 && SamplesOk(a, ch, nCol, k) && AllReserved(a, nCol) && |a| <= mx && 0 < mx && s.isPSample
    requires (|a| == mx ==> Least(a, m, nCol)) && b == Kept(a, mx, m) + [s] && Ranked(a, ch, nCol, mx, k)
    ensures Ranked(b, ch, nCol, mx, k)
  {
    hide Open, AllReserved, SamplesOk, Least, RankedAt, Kept;
    forall r: nat, c: nat | r < |ch| && c + 1 < nCol && RankedAt(a, ch, mx, r, c)
      ensures RankedAt(b, ch, mx, r, c)
    {
      AddedRanks(a, b, s, ch, nCol, k, mx, m, r, c);
    }
  }

  // ---- on to the next row --------------------------------------------------------------------------

  /** The groups that the next row completes have been dealt with. */
  lemma NextRanks(a: seq<Sample>, ch: Changes, nCol: nat, k: nat, x: nat, mx: nat, cur: Sample)
    requires |ch| > 0 && x < nCol && SamplesOk(a, ch, nCol, k) && AllReserved(a, nCol) && Ranked(a, ch, nCol, mx, x)
    ensures var z := nCol - 1; Ranked(AllFilled(a, x, cur), ch + [x], nCol, mx, z)
  {
    hide Open, AllReserved, SamplesOk, RankedAt, Ranked;
    var ch', b, z := ch + [x], AllFilled(a, x, cur), nCol - 1;
    forall r: nat, c: nat | r < |ch'| && c + 1 < nCol && (Open(ch', r, c) ==> z <= c)
      ensures RankedAt(b, ch', mx, r, c)
    {
      NextOpen(ch, x, r, c);
      RankedIs(a, ch, nCol, mx, x, r, c);
      NextRanked(a, ch, nCol, k, x, mx, cur, r, c);
    }
    RankedAll(b, ch', nCol, mx, z);
  }

  lemma NextOpen(ch: Changes, x: nat, r: nat, c: nat)
    requires r <= |ch| && !Open(ch + [x], r, c)
    ensures r < |ch| && (Open(ch, r, c) ==> x <= c)
  {
    NextRow(ch, x, r, c);
  }

  lemma NextRanked(a: seq<Sample>, ch: Changes, nCol: nat, k: nat, x: nat, mx: nat, cur: Sample, r: nat, c: nat)
    requires |ch| > 0 && SamplesOk(a, ch, nCol, k) && AllReserved(a, nCol) && r < |ch| && c + 1 < nCol
    requires (Open(ch, r, c) ==> x <= c) && RankedAt(a, ch, mx, r, c)
    ensures RankedAt(AllFilled(a, x, cur), ch + [x], mx, r, c)
  {
    hide SamplesOk, AllReserved, AllFilled;
    var b, ch' := AllFilled(a, x, cur), ch + [x];
    AllFilledAt(a, x, cur);
    if Covered(a, ch, r, c) {
      var i: nat :| i < |a| && Covers(SampleAt(a, i), ch, r, c);
      RowOf(a, ch, nCol, k, i);
      StartSame(ch, ch', SampleAt(a, i).row, c);
      StartSame(ch, ch', r, c);
      assert Covers(SampleAt(b, i), ch', r, c);
    } else {
      NextSize(ch, x, r, c);
      FilledAtLeast(a, nCol, x, cur, Size(ch, r, c));
    }
  }

  lemma NextSize(ch: Changes, x: nat, r: nat, c: nat)
    requires r < |ch| && (Open(ch, r, c) ==> x <= c)
    ensures Size(ch + [x], r, c) == Size(ch, r, c)
  {
    StartSame(ch, ch + [x], r, c);
    EndNext(ch, x, r, c);
    if Open(ch, r, c) {
      OpenEnd(ch, r, c);
    } else {
      ClosedEnd(ch, r, c);
    }
  }

  lemma FilledAtLeast(a: seq<Sample>, nCol: nat, x: nat, cur: Sample, v: nat)
    requires AllReserved(a, nCol) && AtLeast(a, v)
    ensures AtLeast(AllFilled(a, x, cur), v)
  {
    var b := AllFilled(a, x, cur);
    AllFilledAt(a, x, cur);
    forall i: nat | i < |b| && !SampleAt(b, i).isPSample
      ensures v <= Weight(SampleAt(b, i))
    {
      assert Reserved(SampleAt(a, i), nCol);
      FilledWeight(SampleAt(a, i), nCol, x, cur);
    }
  }

  lemma FilledWeight(s: Sample, nCol: nat, x: nat, cur: Sample)
    requires Reserved(s, nCol) && !s.isPSample
    ensures Weight(s) <= Weight(Filled(s, x, cur))
  {
  }
}
