/** The min-heap of the integrity check: element 0 holds the count, element 1 the least entry. */
module SpanHeap {

  type u32 = x: int | 0 <= x < 0x1_0000_0000

  function Parent(i: nat): nat {
    i / 2
  }

  function Entry(h: seq<u32>, i: nat): u32
    requires i < |h|
  {
    h[i]
  }

  /** Entry i is not less than its parent. */
  predicate Under(h: seq<u32>, i: nat)
    requires i < |h|
  {
    Entry(h, Parent(i)) <= Entry(h, i)
  }

  /** The array is at most a page long. */
  ghost predicate Counted(h: seq<u32>) {
    0 < |h| <= 0x1_0000 && h[0] < |h|
  }

  ghost predicate HeapOk(h: seq<u32>) {
    Counted(h) && forall i: nat :: 2 <= i <= h[0] ==> Under(h, i)
  }

  ghost function Entries(h: seq<u32>): multiset<u32>
    requires Counted(h)
  {
    multiset(h[1..h[0] + 1])
  }

  function Swapped(h: seq<u32>, i: nat, j: nat): (r: seq<u32>)
    requires i < |h| && j < |h|
    ensures |r| == |h|
  {
    h[i := h[j]][j := h[i]]
  }

  lemma SwapEntries(h: seq<u32>, i: nat, j: nat)
    requires Counted(h) && 1 <= j < i <= h[0]
    ensures Counted(Swapped(h, i, j)) && Swapped(h, i, j)[0] == h[0] && Entries(Swapped(h, i, j)) == Entries(h)
    ensures forall q: nat :: q < |h| ==>
      Entry(Swapped(h, i, j), q) == Entry(h, if q == i then j else if q == j then i else q)
  {
    var s, t := h[1..h[0] + 1], Swapped(h, i, j)[1..h[0] + 1];
    assert t == s[i - 1 := s[j - 1]][j - 1 := s[i - 1]];
  }

  // ---- sifting up ----------------------------------------------------------------------------------

  /** A heap but for entry i, which may be less than its parent. */
  ghost predicate RisingOk(h: seq<u32>, i: nat) {
    && Counted(h) && 1 <= i <= h[0]
    && (forall q: nat :: 2 <= q <= h[0] && q != i ==> Under(h, q))
    && (forall q: nat :: 2 <= q <= h[0] && Parent(q) == i && i >= 2 ==> Entry(h, Parent(i)) <= Entry(h, q))
  }

  lemma Rise(h: seq<u32>, i: nat)
    requires RisingOk(h, i) && i >= 2 && Entry(h, Parent(i)) > Entry(h, i)
    ensures RisingOk(Swapped(h, i, Parent(i)), Parent(i))
    ensures Entries(Swapped(h, i, Parent(i))) == Entries(h) && Swapped(h, i, Parent(i))[0] == h[0]
  {
    hide Swapped;
    var j, r := Parent(i), Swapped(h, i, Parent(i));
    SwapEntries(h, i, j);
    forall q: nat | 2 <= q <= h[0] && q != j
      ensures Under(r, q)
    {
      assert q != i ==> Under(h, q);
    }
    forall q: nat | 2 <= q <= h[0] && Parent(q) == j && j >= 2
      ensures Entry(r, Parent(j)) <= Entry(r, q)
    {
      assert Under(h, j) && (q != i ==> Under(h, q));
    }
  }

  /** btreeHeapInsert() */
  method BtreeHeapInsert(a: array<u32>, x: u32)
    requires HeapOk(a[..]) && a[0] + 1 < a.Length
    modifies a
    ensures HeapOk(a[..]) && a[0] == old(a[0]) + 1
    ensures Entries(a[..]) == Entries(old(a[..])) + multiset{x}
  {
    hide Swapped, Entries;
    ghost var was := a[..];
    a[0] := a[0] + 1;
    var i: nat := a[0];
    a[i] := x;
    AddLast(was, a[..], x);
    while i / 2 > 0 && a[i / 2] > a[i]
      invariant RisingOk(a[..], i) && a[0] == old(a[0]) + 1
      invariant Entries(a[..]) == Entries(was) + multiset{x}
    {
      var j := i / 2;
      ghost var h := a[..];
      a[i], a[j] := a[j], a[i];
      SwapIs(h, a[..], i, j);
      Rise(h, i);
      i := j;
    }
    Risen(a[..], i);
  }

  lemma EntriesAdd(h: seq<u32>, r: seq<u32>, x: u32)
    requires Counted(h) && h[0] + 1 < |h| && r == h[0 := h[0] + 1][h[0] + 1 := x]
    ensures Counted(r) && Entries(r) == Entries(h) + multiset{x}
  {
    var n := h[0];
    assert r[1..n + 2] == h[1..n + 1] + [x];
  }

  lemma AddLast(h: seq<u32>, r: seq<u32>, x: u32)
    requires HeapOk(h) && h[0] + 1 < |h| && r == h[0 := h[0] + 1][h[0] + 1 := x]
    ensures RisingOk(r, h[0] + 1) && Entries(r) == Entries(h) + multiset{x}
  {
    hide Entries;
    var n := h[0];
    EntriesAdd(h, r, x);
    forall q: nat | 2 <= q <= r[0] && q != n + 1
      ensures Under(r, q)
    {
      assert Under(h, q);
    }
  }

  lemma SwapIs(h: seq<u32>, r: seq<u32>, i: nat, j: nat)
    requires |h| == |r| && i < |h| && j < |h| && r == h[i := h[j]][j := h[i]]
    ensures r == Swapped(h, i, j)
  {
  }

  lemma Risen(h: seq<u32>, i: nat)
    requires RisingOk(h, i) && (i / 2 == 0 || h[i / 2] <= h[i])
    ensures HeapOk(h)
  {
    assert i >= 2 ==> Under(h, i);
  }

  // ---- sifting down --------------------------------------------------------------------------------

  /** A heap but for entry i, which may exceed its children. */
  ghost predicate SinkingOk(h: seq<u32>, i: nat) {
    && Counted(h) && 1 <= i
    && (forall q: nat :: 2 <= q <= h[0] && Parent(q) != i ==> Under(h, q))
    && (forall q: nat :: 2 <= q <= h[0] && Parent(q) == i && i >= 2 ==> Entry(h, Parent(i)) <= Entry(h, q))
  }

  lemma Sink(h: seq<u32>, i: nat, j: nat)
    requires SinkingOk(h, i) && 2 <= j <= h[0] && Parent(j) == i && h[j] <= h[i]
    requires forall q: nat :: 2 <= q <= h[0] && Parent(q) == i ==> Entry(h, j) <= Entry(h, q)
    ensures SinkingOk(Swapped(h, j, i), j)
    ensures Entries(Swapped(h, j, i)) == Entries(h) && Swapped(h, j, i)[0] == h[0]
  {
    hide Swapped;
    var r := Swapped(h, j, i);
    SwapEntries(h, j, i);
    forall q: nat | 2 <= q <= h[0] && Parent(q) != j
      ensures Under(r, q)
    {
      assert Parent(q) != i ==> Under(h, q);
    }
    forall q: nat | 2 <= q <= h[0] && Parent(q) == j
      ensures Entry(r, Parent(j)) <= Entry(r, q)
    {
      assert Under(h, q);
    }
  }

  lemma {:induction false} RootIsLeast(h: seq<u32>, i: nat)
    requires HeapOk(h) && 1 <= i <= h[0]
    ensures Entry(h, 1) <= Entry(h, i)
  {
    if i >= 2 {
      RootIsLeast(h, Parent(i));
      assert Under(h, i);
    }
  }

  /** btreeHeapPull(): the least entry, if there is one. */
  method BtreeHeapPull(a: array<u32>) returns (found: bool, out: u32)
    requires HeapOk(a[..])
    modifies a
    ensures found == (old(a[0]) > 0) && HeapOk(a[..])
    ensures found ==> a[0] == old(a[0]) - 1 && Entries(old(a[..])) == Entries(a[..]) + multiset{out}
    ensures found ==> forall v: u32 :: v in Entries(old(a[..])) ==> out <= v
    ensures !found ==> a[..] == old(a[..])
  {
    hide Swapped, Entries, HeapOk, SinkingOk, Parent, Entry;
    ghost var was := a[..];
    HeapCounts(was);
    var x := a[0];
    out := 0;
    if x == 0 {
      return false, out;
    }
    out := a[1];
    a[1] := a[x];
    a[x] := 0xffff_ffff;
    a[0] := a[0] - 1;
    RemoveRoot(was, a[..]);
    var i: nat := 1;
    while 2 * i <= a[0]
      invariant SinkingOk(a[..], i) && Counted(a[..]) && a[0] == x - 1 && 1 <= i
      invariant Entries(was) == Entries(a[..]) + multiset{out}
      invariant a[x] == 0xffff_ffff
      decreases a[0] - i
    {
      var j := 2 * i;
      if a[j] > a[j + 1] {
        j := j + 1;
      }
      LeastChild(a[..], i, j);
      if a[i] < a[j] {
        break;
      }
      ghost var h := a[..];
      a[i], a[j] := a[j], a[i];
      SwapIs(h, a[..], j, i);
      Sink(h, i, j);
      SinkCounts(a[..], j);
      i := j;
    }
    Sunk(a[..], i);
    found := true;
  }

  lemma HeapCounts(h: seq<u32>)
    requires HeapOk(h)
    ensures Counted(h)
  {
  }

  lemma SinkCounts(h: seq<u32>, i: nat)
    requires SinkingOk(h, i)
    ensures Counted(h) && 1 <= i
  {
  }

  lemma RemoveRoot(h: seq<u32>, r: seq<u32>)
    requires HeapOk(h) && h[0] > 0 && |r| == |h|
    requires r == h[1 := h[h[0]]][h[0] := 0xffff_ffff][0 := h[0] - 1]
    ensures SinkingOk(r, 1) && Counted(r) && Entries(h) == Entries(r) + multiset{h[1]}
    ensures forall v: u32 :: v in Entries(h) ==> h[1] <= v
  {
    RootRemoved(h, r);
    forall q: nat | 2 <= q <= r[0] && Parent(q) != 1
      ensures Under(r, q)
    {
      assert Under(h, q);
    }
    forall v: u32 | v in Entries(h)
      ensures h[1] <= v
    {
      var s := h[1..h[0] + 1];
      var q :| 0 <= q < |s| && s[q] == v;
      RootIsLeast(h, q + 1);
    }
  }

  lemma RootRemoved(h: seq<u32>, r: seq<u32>)
    requires Counted(h) && h[0] > 0 && |r| == |h|
    requires r == h[1 := h[h[0]]][h[0] := 0xffff_ffff][0 := h[0] - 1]
    ensures Counted(r) && Entries(h) == Entries(r) + multiset{h[1]}
  {
    var n := h[0];
    var s, t := h[1..n + 1], r[1..n];
    if n > 1 {
      var mid := h[2..n];
      assert s == [h[1]] + mid + [h[n]];
      assert t == [h[n]] + mid;
    } else {
      assert s == [h[1]] && t == [];
    }
  }

  /** The slot past the last entry is never chosen: it holds the largest value. */
  lemma LeastChild(h: seq<u32>, i: nat, j: nat)
    requires Counted(h) && 1 <= i && 2 * i <= h[0] && h[0] + 1 < |h| && h[h[0] + 1] == 0xffff_ffff
    requires j == if h[2 * i] > h[2 * i + 1] then 2 * i + 1 else 2 * i
    ensures j <= h[0] && Parent(j) == i
    ensures forall q: nat :: 2 <= q <= h[0] && Parent(q) == i ==> Entry(h, j) <= Entry(h, q)
  {
  }

  lemma Sunk(h: seq<u32>, i: nat)
    requires SinkingOk(h, i)
    requires 2 * i <= h[0] ==> exists j: nat :: LeastBelow(h, i, j) && h[i] < h[j]
    ensures HeapOk(h)
  {
    forall q: nat | 2 <= q <= h[0]
      ensures Under(h, q)
    {
      if Parent(q) == i {
        var j: nat :| LeastBelow(h, i, j) && h[i] < h[j];
        assert Entry(h, j) <= Entry(h, q);
      }
    }
  }

  ghost predicate LeastBelow(h: seq<u32>, i: nat, j: nat)
    requires Counted(h)
  {
    i < |h| && j < |h| && forall q: nat :: 2 <= q <= h[0] && Parent(q) == i ==> Entry(h, j) <= Entry(h, q)
  }
}
