/** Byte ranges of a page: what a set of disjoint ranges covers, and how much room it leaves.

    The quantifiers below range over At(s, i) rather than s[i], so that a proof says which
    elements it needs. */
module Spans {
  import opened Counting

  datatype Span = Span(start: nat, size: nat) {
    function End(): nat {
      start + size
    }
    predicate Has(x: int) {
      start <= x < start + size
    }
  }

  function At(s: seq<Span>, i: nat): Span
    requires i < |s|
  {
    s[i]
  }

  predicate Apart(a: Span, b: Span) {
    a.End() <= b.start || b.End() <= a.start
  }

  /** Every span lies in [lo, hi). */
  ghost predicate Inside(s: seq<Span>, lo: nat, hi: nat) {
    forall i: nat | i < |s| :: lo <= At(s, i).start && At(s, i).End() <= hi
  }

  /** Every span has room for a freeblock header and lies in [lo, hi). */
  ghost predicate Within(s: seq<Span>, lo: nat, hi: nat) {
    forall i: nat | i < |s| :: lo <= At(s, i).start && 4 <= At(s, i).size && At(s, i).End() <= hi
  }

  ghost predicate Disjoint(s: seq<Span>) {
    forall i: nat, j: nat | i < j < |s| :: Apart(At(s, i), At(s, j))
  }

  ghost predicate CrossApart(s: seq<Span>, t: seq<Span>) {
    forall i: nat, j: nat | i < |s| && j < |t| :: Apart(At(s, i), At(t, j))
  }

  /** Freeblocks ascend and are more than three bytes apart. */
  ghost predicate Ascending(s: seq<Span>) {
    forall i: nat, j: nat | i < j < |s| :: At(s, i).End() + 4 <= At(s, j).start
  }

  function Sum(s: seq<Span>): nat {
    if s == [] then 0 else Sum(s[..|s| - 1]) + s[|s| - 1].size
  }

  function Without(s: seq<Span>, j: nat): (r: seq<Span>)
    requires j < |s|
    ensures |r| == |s| - 1
    ensures forall i: nat | i < |r| :: At(r, i) == if i < j then s[i] else s[i + 1]
  {
    var r := s[..j] + s[j + 1..];
    assert forall i: nat | i < |r| :: r[i] == if i < j then s[i] else s[i + 1];
    assert forall i: nat | i < |r| :: At(r, i) == r[i];
    r
  }

  lemma {:induction false} SumAppend(s: seq<Span>, t: seq<Span>)
    ensures Sum(s + t) == Sum(s) + Sum(t)
    decreases |t|
  {
    if t == [] {
      assert s + t == s;
    } else {
      var t' := t[..|t| - 1];
      assert (s + t)[..|s + t| - 1] == s + t';
      SumAppend(s, t');
    }
  }

  lemma SumSnoc(s: seq<Span>, x: Span)
    ensures Sum(s + [x]) == Sum(s) + x.size
  {
    assert (s + [x])[..|s|] == s;
  }

  /** Exchanging the elements from a up to b for one. */
  lemma SumSplice(s: seq<Span>, a: nat, b: nat, x: Span)
    requires a <= b <= |s|
    ensures Sum(s[..a] + [x] + s[b..]) == Sum(s) - Sum(s[a..b]) + x.size
  {
    hide Sum;
    SumAppend(s[..a] + [x], s[b..]);
    SumSnoc(s[..a], x);
    SumAppend(s[..a], s[a..b]);
    assert s[..a] + s[a..b] == s[..b];
    SumAppend(s[..b], s[b..]);
    assert s[..b] + s[b..] == s;
  }

  /** At most two neighbours. */
  lemma SumFew(s: seq<Span>, a: nat, b: nat)
    requires a <= b <= |s| && b <= a + 2
    ensures Sum(s[a..b]) == (if a < b then s[a].size else 0) + if a + 1 < b then s[a + 1].size else 0
  {
    if b == a + 2 {
      assert s[a..b][..1] == s[a..a + 1];
      SumFew(s, a, a + 1);
    } else if b == a + 1 {
      assert s[a..b][..0] == [];
    }
  }

  lemma SumSplit(s: seq<Span>, j: nat)
    requires j < |s|
    ensures Sum(s) == Sum(s[..j]) + s[j].size + Sum(s[j + 1..])
    ensures Sum(Without(s, j)) == Sum(s) - s[j].size
  {
    var a, b := s[..j], s[j + 1..];
    SumSnoc(a, s[j]);
    SumAppend(a + [s[j]], b);
    assert s == a + [s[j]] + b;
    SumAppend(a, b);
  }

  lemma SumUpdate(s: seq<Span>, j: nat, x: Span)
    requires j < |s|
    ensures Sum(s[j := x]) == Sum(s) - s[j].size + x.size
  {
    SumSplit(s, j);
    SumSplit(s[j := x], j);
    assert s[j := x][..j] == s[..j] && s[j := x][j + 1..] == s[j + 1..];
  }

  ghost predicate Covered(x: int, s: seq<Span>) {
    exists i: nat | i < |s| :: At(s, i).Has(x)
  }

  ghost function CoveredSet(s: seq<Span>, lo: nat, hi: nat): set<int> {
    set x: int | lo <= x < hi && Covered(x, s)
  }

  lemma CoveredSnoc(s: seq<Span>, z: Span, x: int)
    ensures Covered(x, s + [z]) <==> Covered(x, s) || z.Has(x)
  {
    var t := s + [z];
    if Covered(x, s) {
      var i: nat :| i < |s| && At(s, i).Has(x);
      assert At(t, i).Has(x);
    }
    if z.Has(x) {
      assert At(t, |s|).Has(x);
    }
    if Covered(x, t) {
      var i: nat :| i < |t| && At(t, i).Has(x);
      assert i < |s| ==> At(s, i).Has(x);
    }
  }

  lemma CoveredStep(s: seq<Span>, z: Span, lo: nat, hi: nat)
    requires Inside(s + [z], lo, hi) && Disjoint(s + [z])
    ensures Inside(s, lo, hi) && Disjoint(s)
    ensures CoveredSet(s + [z], lo, hi) == CoveredSet(s, lo, hi) + Range(z.start, z.End())
    ensures CoveredSet(s, lo, hi) !! Range(z.start, z.End())
  {
    var t := s + [z];
    assert At(t, |s|) == z;
    forall i: nat | i < |s|
      ensures At(s, i) == At(t, i)
    {}
    forall x | lo <= x < hi
      ensures x in CoveredSet(t, lo, hi) <==> x in CoveredSet(s, lo, hi) + Range(z.start, z.End())
    {
      CoveredSnoc(s, z, x);
    }
    forall x | x in CoveredSet(s, lo, hi)
      ensures !z.Has(x)
    {
      var i: nat :| i < |s| && At(s, i).Has(x);
      assert Apart(At(t, i), At(t, |s|));
    }
  }

  /** Disjoint spans cover exactly as many bytes as their sizes add up to. */
  lemma {:induction false} CoveredSize(s: seq<Span>, lo: nat, hi: nat)
    requires Inside(s, lo, hi) && Disjoint(s)
    ensures |CoveredSet(s, lo, hi)| == Sum(s)
    decreases |s|
  {
    if s == [] {
      assert CoveredSet(s, lo, hi) == {};
    } else {
      var s', z := s[..|s| - 1], s[|s| - 1];
      assert s == s' + [z];
      CoveredStep(s', z, lo, hi);
      CoveredSize(s', lo, hi);
      RangeSize(z.start, z.End());
    }
  }

  /** Disjoint spans fit in the interval that holds them. */
  lemma Packing(s: seq<Span>, lo: nat, hi: nat)
    requires Inside(s, lo, hi) && Disjoint(s) && lo <= hi
    ensures Sum(s) <= hi - lo
  {
    CoveredSize(s, lo, hi);
    RangeSize(lo, hi);
    SubsetSize(CoveredSet(s, lo, hi), Range(lo, hi));
  }

  /** What disjoint spans leave uncovered is the length of the interval less their sizes. */
  lemma UncoveredSize(s: seq<Span>, lo: nat, hi: nat)
    requires Inside(s, lo, hi) && Disjoint(s) && lo <= hi
    ensures |set x: int | lo <= x < hi && !Covered(x, s)| == hi - lo - Sum(s)
  {
    CoveredSize(s, lo, hi);
    RangeSize(lo, hi);
    SubsetSize(CoveredSet(s, lo, hi), Range(lo, hi));
    assert (set x: int | lo <= x < hi && !Covered(x, s)) == Range(lo, hi) - CoveredSet(s, lo, hi);
  }

  lemma {:induction false} SumPointwise(s: seq<Span>, t: seq<Span>)
    requires |s| == |t| && forall i: nat | i < |s| :: At(s, i).size == At(t, i).size
    ensures Sum(s) == Sum(t)
    decreases |s|
  {
    if s != [] {
      var s', t' := s[..|s| - 1], t[..|t| - 1];
      forall i: nat | i < |s'| ensures At(s', i).size == At(t', i).size {
        assert At(s, i).size == At(t, i).size;
      }
      SumPointwise(s', t');
      assert At(s, |s| - 1).size == At(t, |t| - 1).size;
    }
  }

  /** Sizes of the first i spans. */
  function Ahead(s: seq<Span>, i: nat): nat
    requires i <= |s|
  {
    if i == 0 then 0 else Ahead(s, i - 1) + s[i - 1].size
  }

  lemma {:induction false} AheadMono(s: seq<Span>, i: nat, j: nat)
    requires i <= j <= |s|
    ensures Ahead(s, i) <= Ahead(s, j)
    decreases j
  {
    if i < j {
      AheadMono(s, i, j - 1);
    }
  }

  lemma {:induction false} AheadIsSum(s: seq<Span>, i: nat)
    requires i <= |s|
    ensures Ahead(s, i) == Sum(s[..i])
  {
    if i > 0 {
      AheadIsSum(s, i - 1);
      assert s[..i][..i - 1] == s[..i - 1];
    }
  }

  lemma AheadAll(s: seq<Span>)
    ensures Ahead(s, |s|) == Sum(s)
  {
    AheadIsSum(s, |s|);
    assert s[..|s|] == s;
  }
}
