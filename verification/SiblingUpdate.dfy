/** What balance_nonroot() does with its plan: new dividers, the order in which the sibling pages
    are rewritten, and the editing of one page. */
module SiblingUpdate {
  import opened Counting
  import opened BalancePlan

  // ---- the cells on the new pages ---------------------------------------------------------------

  function Page<T>(p: Load, cells: seq<T>, cnt: seq<nat>, i: nat): seq<T>
    requires |cells| == p.N() && i < |cnt| && First(p, cnt, i) <= cnt[i] <= p.N()
  {
    cells[First(p, cnt, i) .. cnt[i]]
  }

  /** The cell that goes to the parent after page i: the cell at the cut, or, in a table whose
      leaves keep the data, a copy of the key of the last cell of the page. */
  function Divider<T>(p: Load, cells: seq<T>, cnt: seq<nat>, i: nat): T
    requires |cells| == p.N() && i < |cnt| && First(p, cnt, i) < cnt[i] < p.N()
  {
    if p.leafData then cells[cnt[i] - 1] else cells[cnt[i]]
  }

  /** The plan of a balance that found something to spread. */
  ghost predicate Cut(p: Load, cnt: seq<nat>) {
    && cnt != [] && cnt[|cnt| - 1] == p.N()
    && forall i: nat | i < |cnt| :: CutAt(p, cnt, i)
  }

  ghost predicate CutAt(p: Load, cnt: seq<nat>, i: nat) {
    i < |cnt| && First(p, cnt, i) < cnt[i] <= p.N() && (i + 1 < |cnt| ==> cnt[i] < p.N())
  }

  /** The tree below the parent read from page i on: the divider cells of an index are entries of
      the tree, those of a table are copies. */
  ghost function ReadFrom<T>(p: Load, cells: seq<T>, cnt: seq<nat>, i: nat): seq<T>
    requires |cells| == p.N() && Cut(p, cnt) && i < |cnt|
    decreases |cnt| - i
  {
    assert CutAt(p, cnt, i);
    Page(p, cells, cnt, i)
    + if i + 1 == |cnt| then []
      else (if p.leafData then [] else [Divider(p, cells, cnt, i)]) + ReadFrom(p, cells, cnt, i + 1)
  }

  /** Balancing keeps the sequence of entries. */
  lemma {:induction false} ReadBack<T>(p: Load, cells: seq<T>, cnt: seq<nat>, i: nat)
    requires |cells| == p.N() && Cut(p, cnt) && i < |cnt|
    ensures First(p, cnt, i) <= p.N() && ReadFrom(p, cells, cnt, i) == cells[First(p, cnt, i)..]
    decreases |cnt| - i
  {
    assert CutAt(p, cnt, i);
    if i + 1 < |cnt| {
      ReadBack(p, cells, cnt, i + 1);
      assert CutAt(p, cnt, i + 1);
    }
  }

  /** In a table the divider bounds its neighbours: no key of the page before it is larger, none of
      the page after it is smaller or equal. */
  lemma DividerSeparates(p: Load, keys: seq<int>, cnt: seq<nat>, i: nat, x: nat)
    requires |keys| == p.N() && Cut(p, cnt) && i + 1 < |cnt| && p.leafData
    requires forall a, b | 0 <= a < b < |keys| :: keys[a] < keys[b]
    requires CutAt(p, cnt, i) && CutAt(p, cnt, i + 1)
    ensures x < |Page(p, keys, cnt, i)| ==> Page(p, keys, cnt, i)[x] <= Divider(p, keys, cnt, i)
    ensures x < |Page(p, keys, cnt, i + 1)| ==> Divider(p, keys, cnt, i) < Page(p, keys, cnt, i + 1)[x]
  {
  }

  /** The outcome of the planner is such a plan. */
  lemma BalancedCut(p: Load, cnt: seq<nat>, sz: seq<int>, k: nat)
    requires Balanced(p, cnt, sz, k) && k > 1
    ensures Cut(p, cnt[..k])
  {
    BalancedLegal(p, cnt, sz, k);
    forall i: nat | i < k ensures CutAt(p, cnt[..k], i) {
      assert PageFits(p, cnt[..k], i);
      assert First(p, cnt[..k], i) == First(p, cnt, i);
    }
  }

  // ---- the order of the updates -----------------------------------------------------------------

  ghost predicate Ascending(s: seq<nat>) {
    forall i, j | 0 <= i <= j < |s| :: s[i] <= s[j]
  }

  /** Page a's new cells and page b's old cells have nothing in common. */
  ghost predicate Unrelated(p: Load, old_: seq<nat>, new_: seq<nat>, a: nat, b: nat)
    requires a < |new_| && b < |old_|
  {
    new_[a] <= First(p, old_, b) || old_[b] <= First(p, new_, a)
  }

  /** Every page comes once, and none is rewritten while its old cells are still to be read for a
      page that comes later. */
  ghost predicate SafeOrder(p: Load, old_: seq<nat>, new_: seq<nat>, order: seq<nat>)
    requires |old_| == |new_|
  {
    && (forall t | 0 <= t < |order| :: order[t] < |new_|)
    && (forall s, t | 0 <= s < t < |order| :: order[s] != order[t] && Unrelated(p, old_, new_, order[t], order[s]))
  }

  lemma Append(p: Load, old_: seq<nat>, new_: seq<nat>, order: seq<nat>, a: nat)
    requires |old_| == |new_| && SafeOrder(p, old_, new_, order) && a < |new_|
    requires forall s | 0 <= s < |order| :: order[s] != a && Unrelated(p, old_, new_, a, order[s])
    ensures SafeOrder(p, old_, new_, order + [a])
  {
  }

  /** Cells move out of page i to the right, if at all. */
  predicate NotLeft(old_: seq<nat>, new_: seq<nat>, i: nat)
    requires 0 < i < |old_| && |old_| == |new_|
  {
    old_[i - 1] >= new_[i - 1]
  }

  lemma RightOf(p: Load, old_: seq<nat>, new_: seq<nat>, a: nat, b: nat)
    requires |old_| == |new_| && Ascending(old_) && Ascending(new_) && a < b < |old_| && NotLeft(old_, new_, b)
    ensures Unrelated(p, old_, new_, a, b)
  {
    assert new_[a] <= new_[b - 1];
  }

  lemma LeftOf(p: Load, old_: seq<nat>, new_: seq<nat>, a: nat, b: nat)
    requires |old_| == |new_| && Ascending(old_) && Ascending(new_) && b < a < |old_| && !NotLeft(old_, new_, a)
    ensures Unrelated(p, old_, new_, a, b)
  {
    assert old_[b] <= old_[a - 1];
  }

  /** The two passes over the siblings: down from the last page, then up from the first. */
  method UpdateSiblings(p: Load, old_: seq<nat>, new_: seq<nat>) returns (order: seq<nat>)
    requires |old_| == |new_| > 0 && Ascending(old_) && Ascending(new_)
    ensures |order| == |new_| && SafeOrder(p, old_, new_, order)
    ensures forall i: nat | i < |new_| :: i in order
  {
    var nNew := |new_|;
    var abDone := new bool[nNew](_ => false);
    order := [];
    var i: int := 1 - nNew;
    while i < nNew
      invariant 1 - nNew <= i <= nNew
      invariant SafeOrder(p, old_, new_, order)
      invariant forall q: nat | q < nNew :: abDone[q] <==> q in order
      invariant forall q: nat | q < nNew ::
        (abDone[q] <==> (if i <= 0 then q > -i && NotLeft(old_, new_, q) else q < i || NotLeft(old_, new_, q)))
    {
      var iPg := if i < 0 then -i else i;
      if !abDone[iPg] {
        if i >= 0 || old_[iPg - 1] >= new_[iPg - 1] {
          forall s | 0 <= s < |order| ensures order[s] != iPg && Unrelated(p, old_, new_, iPg, order[s]) {
            var q := order[s];
            assert q in order;
            if q > iPg { RightOf(p, old_, new_, iPg, q); } else { LeftOf(p, old_, new_, iPg, q); }
          }
          Append(p, old_, new_, order, iPg);
          order := order + [iPg];
          abDone[iPg] := true;
        }
      }
      i := i + 1;
    }
    AllOnce(order, nNew);
  }

  /** Distinct numbers below n that include them all are n in number. */
  lemma AllOnce(order: seq<nat>, n: nat)
    requires Distinct(order)
    requires forall t | 0 <= t < |order| :: order[t] < n
    requires forall i: nat | i < n :: i in order
    ensures |order| == n
  {
    var ints: seq<int> := order;
    DistinctSize(ints);
    RangeSize(0, n);
    forall x: int ensures x in SetOf(ints) <==> x in Range(0, n) {
      if x in Range(0, n) {
        var y: nat := x;
        assert y in order;
      }
    }
    assert SetOf(ints) == Range(0, n);
  }
}
