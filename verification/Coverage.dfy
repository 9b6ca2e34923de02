/** The integrity check's test that cells and freeblocks cover the content area of a page, each byte at
    most once, but for the fragments. */
module Coverage {
  import opened Bytes
  import opened Spans
  import opened PageLayout
  import opened PageCells
  import opened SpanHeap

  // ---- heap entries --------------------------------------------------------------------------------

  predicate Fits(z: Span) {
    1 <= z.start < 0x1_0000 && z.End() <= 0x1_0000
  }

  /** A heap entry: the first byte of a span, and the last. */
  function Key(z: Span): u32 {
    if Fits(z) then z.start * 0x1_0000 + (z.End() - 1) else 0
  }

  function First(x: u32): nat {
    x / 0x1_0000
  }

  function Last(x: u32): nat {
    x % 0x1_0000
  }

  lemma KeyParts(z: Span)
    requires Fits(z)
    ensures First(Key(z)) == z.start && Last(Key(z)) == z.End() - 1
  {
  }

  function Keys(s: seq<Span>): seq<u32> {
    seq(|s|, i requires 0 <= i < |s| => Key(s[i]))
  }

  ghost predicate AllFit(s: seq<Span>) {
    forall i: nat :: i < |s| ==> Fits(At(s, i))
  }

  predicate KeysApart(a: u32, b: u32) {
    Last(a) < First(b) || Last(b) < First(a)
  }

  function KeyAt(p: seq<u32>, i: nat): u32
    requires i < |p|
  {
    p[i]
  }

  ghost predicate AllKeysApart(p: seq<u32>) {
    forall i: nat, j: nat :: i < j < |p| ==> KeysApart(KeyAt(p, i), KeyAt(p, j))
  }

  lemma KeysOfSpans(s: seq<Span>)
    requires AllFit(s)
    ensures AllKeysApart(Keys(s)) <==> Disjoint(s)
  {
    var p := Keys(s);
    forall i: nat, j: nat | i < j < |s|
      ensures KeysApart(KeyAt(p, i), KeyAt(p, j)) <==> Apart(At(s, i), At(s, j))
    {
      assert Fits(At(s, i)) && Fits(At(s, j));
      KeyParts(s[i]);
      KeyParts(s[j]);
    }
  }

  lemma {:induction false} TwoPlaces(p: seq<u32>, v: u32) returns (i: nat, j: nat)
    requires multiset(p)[v] >= 2
    ensures i < j < |p| && KeyAt(p, i) == v == KeyAt(p, j)
  {
    var n := |p| - 1;
    assert p == p[..n] + [p[n]];
    if p[n] == v {
      assert v in p[..n];
      var k :| 0 <= k < n && p[..n][k] == v;
      i, j := k, n;
    } else {
      i, j := TwoPlaces(p[..n], v);
    }
  }

  lemma Twice(p: seq<u32>, i: nat, j: nat)
    requires i < j < |p| && p[i] == p[j]
    ensures multiset(p)[p[i]] >= 2
  {
    assert p == p[..j] + p[j..];
    assert p[i] in p[..j] && p[i] in p[j..];
  }

  lemma KeyIn(q: seq<u32>, v: u32) returns (k: nat)
    requires v in multiset(q)
    ensures k < |q| && KeyAt(q, k) == v
  {
    var i :| 0 <= i < |q| && q[i] == v;
    k := i;
  }

  /** Entries taken from others that are apart are apart. */
  lemma SubApart(p: seq<u32>, q: seq<u32>)
    requires multiset(p) <= multiset(q) && AllKeysApart(q)
    ensures AllKeysApart(p)
  {
    forall i: nat, j: nat | i < j < |p|
      ensures KeysApart(KeyAt(p, i), KeyAt(p, j))
    {
      var a, b := p[i], p[j];
      assert a in multiset(p) && b in multiset(p);
      assert a in multiset(q) && b in multiset(q);
      if a == b {
        Twice(p, i, j);
        var k, l := TwoPlaces(q, a);
        assert KeysApart(KeyAt(q, k), KeyAt(q, l));
      } else {
        var k := KeyIn(q, a);
        var l := KeyIn(q, b);
        assert k < l ==> KeysApart(KeyAt(q, k), KeyAt(q, l));
        assert l < k ==> KeysApart(KeyAt(q, l), KeyAt(q, k));
      }
    }
  }

  // ---- pulling the spans in order ------------------------------------------------------------------

  /** The cells and freeblocks lie past the start of the content area and use no byte twice. */
  ghost predicate Tidy(top: nat, s: seq<Span>) {
    (forall i: nat :: i < |s| ==> top <= At(s, i).start) && Disjoint(s)
  }

  /** Bytes of the content area that no span covers. */
  ghost function Uncovered(top: nat, hi: nat, s: seq<Span>): set<int> {
    set x: int | top <= x < hi && !Covered(x, s)
  }

  function Edge(top: nat, p: seq<Span>): int {
    if p == [] then top - 1 else p[|p| - 1].End() - 1
  }

  /** The spans pulled so far, of those in s. */
  ghost predicate Pulled(top: nat, s: seq<Span>, p: seq<Span>, rest: multiset<u32>) {
    && AllFit(s) && AllFit(p) && Tidy(top, p)
    && multiset(Keys(p)) + rest == multiset(Keys(s))
    && (forall i: nat :: i < |p| ==> At(p, i).End() - 1 <= Edge(top, p))
    && (p != [] ==> forall v: u32 :: v in rest ==> Key(p[|p| - 1]) <= v)
  }

  lemma KeysAppend(p: seq<Span>, z: Span)
    ensures Keys(p + [z]) == Keys(p) + [Key(z)]
  {
  }

  lemma KeyOfSome(s: seq<Span>, x: u32) returns (i: nat)
    requires x in multiset(Keys(s))
    ensures i < |s| && Key(At(s, i)) == x
  {
    assert x in Keys(s);
    var k :| 0 <= k < |Keys(s)| && Keys(s)[k] == x;
    i := k;
  }

  /** The next span starts past the last one. */
  lemma PullNext(top: nat, s: seq<Span>, p: seq<Span>, rest: multiset<u32>, x: u32) returns (z: Span)
    requires top > 0 && Pulled(top, s, p, rest + multiset{x}) && Edge(top, p) < First(x)
    requires forall v: u32 :: v in rest ==> x <= v
    ensures Fits(z) && Key(z) == x && First(x) == z.start && Last(x) == z.End() - 1
    ensures Pulled(top, s, p + [z], rest)
  {
    hide Key, Keys, Tidy;
    assert x in rest + multiset{x};
    var i := KeyOfSome(s, x);
    z := At(s, i);
    assert Fits(z);
    KeyParts(z);
    KeysAppend(p, z);
    TidyNext(top, p, z);
    var q := p + [z];
    forall j: nat | j < |q|
      ensures At(q, j) == if j < |p| then At(p, j) else z
    {
    }
  }

  lemma TidyNext(top: nat, p: seq<Span>, z: Span)
    requires top > 0 && Tidy(top, p) && Edge(top, p) < z.start
    requires forall i: nat :: i < |p| ==> At(p, i).End() - 1 <= Edge(top, p)
    ensures Tidy(top, p + [z])
  {
    var q := p + [z];
    if p != [] {
      assert top <= At(p, |p| - 1).start;
    }
    forall j: nat | j < |q|
      ensures At(q, j) == if j < |p| then At(p, j) else z
    {
    }
    forall j: nat, k: nat | j < k < |q|
      ensures Apart(At(q, j), At(q, k))
    {
      if k < |p| {
        assert Apart(At(p, j), At(p, k));
      } else {
        assert At(p, j).End() - 1 <= Edge(top, p);
      }
    }
  }

  /** A span that does not start past the last one overlaps it, or starts too early. */
  lemma PullBad(top: nat, s: seq<Span>, p: seq<Span>, rest: multiset<u32>, x: u32)
    requires top > 0 && Pulled(top, s, p, rest + multiset{x}) && Edge(top, p) >= First(x)
    ensures !Tidy(top, s)
  {
    assert x in rest + multiset{x};
    var i := KeyOfSome(s, x);
    var z := At(s, i);
    assert Fits(z);
    KeyParts(z);
    if p != [] {
      var y, q := p[|p| - 1], Keys(p + [z]);
      assert Fits(At(p, |p| - 1));
      KeyParts(y);
      KeysAppend(p, z);
      NotApart(y, z);
      assert !KeysApart(KeyAt(q, |p| - 1), KeyAt(q, |p|));
      KeysOfSpans(s);
      if AllKeysApart(Keys(s)) {
        SubApart(q, Keys(s));
      }
    }
  }

  lemma NotApart(y: Span, z: Span)
    requires Fits(y) && Fits(z) && Key(y) <= Key(z) && z.start < y.End()
    ensures !KeysApart(Key(y), Key(z))
  {
    KeyParts(y);
    KeyParts(z);
  }

  /** All spans pulled in order: they are apart, and cover what the given spans cover. */
  lemma PulledAll(top: nat, hi: nat, s: seq<Span>, p: seq<Span>)
    requires Pulled(top, s, p, multiset{}) && Inside(s, 0, hi) && top <= hi
    ensures Tidy(top, s) && |Uncovered(top, hi, s)| == hi - top - Sum(p)
  {
    assert multiset(Keys(p)) + multiset{} == multiset(Keys(p));
    KeysOfSpans(p);
    SubApart(Keys(s), Keys(p));
    KeysOfSpans(s);
    forall i: nat | i < |s|
      ensures top <= At(s, i).start
    {
      var j := SameSpan(s, p, i);
      assert top <= At(p, j).start;
    }
    forall j: nat | j < |p|
      ensures top <= At(p, j).start && At(p, j).End() <= hi
    {
      var i := SameSpan(p, s, j);
      assert top <= At(p, j).start;
      assert At(s, i).End() <= hi;
    }
    forall x: int
      ensures Covered(x, s) <==> Covered(x, p)
    {
      if Covered(x, s) {
        SameCover(s, p, x);
      } else if Covered(x, p) {
        SameCover(p, s, x);
      }
    }
    UncoveredSize(p, top, hi);
    assert Uncovered(top, hi, s) == set x: int | top <= x < hi && !Covered(x, p);
  }

  lemma SameSpan(s: seq<Span>, p: seq<Span>, i: nat) returns (j: nat)
    requires AllFit(s) && AllFit(p) && multiset(Keys(s)) == multiset(Keys(p)) && i < |s|
    ensures j < |p| && At(p, j) == At(s, i)
  {
    assert Keys(s)[i] in multiset(Keys(s));
    j := KeyOfSome(p, Keys(s)[i]);
    assert Fits(At(s, i)) && Fits(At(p, j));
    KeyParts(At(s, i));
    KeyParts(At(p, j));
  }

  lemma SameCover(s: seq<Span>, p: seq<Span>, x: int)
    requires AllFit(s) && AllFit(p) && multiset(Keys(s)) == multiset(Keys(p)) && Covered(x, s)
    ensures Covered(x, p)
  {
    var i: nat :| i < |s| && At(s, i).Has(x);
    var j := SameSpan(s, p, i);
    assert At(p, j).Has(x);
  }

  /** The loop that empties the heap. */
  method PullSpans(heap: array<u32>, top: nat, hi: nat, frag: nat, ghost s: seq<Span>) returns (multiple: bool,
      fragments: bool)
    requires HeapOk(heap[..]) && Entries(heap[..]) == multiset(Keys(s)) && AllFit(s) && Inside(s, 0, hi)
    requires 0 < top <= hi <= 0x1_0000
    modifies heap
    ensures multiple <==> !Tidy(top, s)
    ensures !multiple ==> (fragments <==> frag != |Uncovered(top, hi, s)|)
  {
    hide HeapOk, Entries, Pulled, Keys, Tidy, Key, Inside, AllFit;
    ghost var p: seq<Span> := [];
    var nFrag, prev := 0, top - 1;
    multiple := false;
    HeapCounts(heap[..]);
    PullNone(top, s, Entries(heap[..]));
    while true
      invariant HeapOk(heap[..]) && Counted(heap[..]) && Pulled(top, s, p, Entries(heap[..]))
      invariant prev % 0x1_0000 == Edge(top, p) && 0 <= prev
      invariant nFrag + Sum(p) == Edge(top, p) + 1 - top
      decreases heap[0]
    {
      var found, x := BtreeHeapPull(heap);
      HeapCounts(heap[..]);
      if !found {
        break;
      }
      if prev % 0x1_0000 >= x / 0x1_0000 {
        PullBad(top, s, p, Entries(heap[..]), x);
        multiple := true;
        break;
      } else {
        LessLeft(Entries(heap[..]), x);
        ghost var z := PullNext(top, s, p, Entries(heap[..]), x);
        SumSnoc(p, z);
        nFrag := nFrag + x / 0x1_0000 - prev % 0x1_0000 - 1;
        prev := x;
        p := p + [z];
      }
    }
    nFrag := nFrag + hi - prev % 0x1_0000 - 1;
    fragments := heap[0] == 0 && nFrag != frag;
    if !multiple {
      NoEntries(heap[..]);
      PulledAll(top, hi, s, p);
    }
  }

  lemma PullNone(top: nat, s: seq<Span>, rest: multiset<u32>)
    requires AllFit(s) && rest == multiset(Keys(s))
    ensures Pulled(top, s, [], rest)
  {
    assert multiset(Keys([])) + rest == rest;
  }

  lemma LessLeft(rest: multiset<u32>, x: u32)
    requires forall v: u32 :: v in rest + multiset{x} ==> x <= v
    ensures forall v: u32 :: v in rest ==> x <= v
  {
    forall v: u32 | v in rest
      ensures x <= v
    {
      assert v in rest + multiset{x};
    }
  }

  lemma NoEntries(h: seq<u32>)
    requires Counted(h) && h[0] == 0
    ensures Entries(h) == multiset{}
  {
  }
}
