/** On which side of a key that is not in the tree its search ends: on the last smaller entry of a leaf or on the
    first larger one, as the binary searches on the way down have it. */
module SeekSides {
  import opened TreeEntries

  /** What a seek compares entries with: a row identifier, or a record; a record of a key prefix may be equal
      to many entries. */
  datatype Probe = RowId(key: int) | Record(compare: int -> int)

  function Compare(p: Probe, entry: int): int {
    match p
    case RowId(key) => Sign(entry - key)
    case Record(compare) => compare(entry)
  }

  function Sign(x: int): int {
    if x < 0 then -1 else if x > 0 then 1 else 0
  }

  /** The first cell from i on that is not too small, or the number of cells. */
  function FirstAtLeast(t: Tree, p: Probe, i: nat): (n: nat)
    requires i <= NCell(t)
    ensures i <= n <= NCell(t)
    decreases NCell(t) - i
  {
    if i == NCell(t) || Compare(p, CellKey(t, i)) >= 0 then i else FirstAtLeast(t, p, i + 1)
  }

  /** A binary search between lwr and upr for a place before cell k, with idx the cell compared next, compares its
      last cell as too large. */
  predicate EndsAbove(lwr: nat, upr: nat, idx: nat, k: nat)
    requires lwr <= idx <= upr
    decreases upr - lwr
  {
    if idx < k then idx < upr && EndsAbove(idx + 1, upr, (idx + 1 + upr) / 2, k)
    else idx == lwr || EndsAbove(lwr, idx - 1, (lwr + idx - 1) / 2, k)
  }

  function FirstIndex(n: nat, biasRight: bool): nat
    requires n > 0
  {
    if biasRight then n - 1 else (n - 1) / 2
  }

  /** The search below page t for what is not there ends on a larger entry. */
  predicate SeeksAbove(t: Tree, p: Probe, biasRight: bool)
    decreases t
  {
    var k := FirstAtLeast(t, p, 0);
    if t.Interior? then SeeksAbove(Child(t, k), p, biasRight)
    else NCell(t) > 0 && EndsAbove(0, NCell(t) - 1, FirstIndex(NCell(t), biasRight), k)
  }

  /** One comparison: idx is too small, or not. */
  lemma EndsStep(lwr: nat, upr: nat, idx: nat, k: nat)
    requires lwr <= idx <= upr
    ensures idx < k && idx == upr ==> !EndsAbove(lwr, upr, idx, k)
    ensures idx < k && idx < upr ==>
      (EndsAbove(lwr, upr, idx, k) <==> EndsAbove(idx + 1, upr, (idx + 1 + upr) / 2, k))
    ensures idx >= k && idx == lwr ==> EndsAbove(lwr, upr, idx, k)
    ensures idx >= k && idx > lwr ==>
      (EndsAbove(lwr, upr, idx, k) <==> EndsAbove(lwr, idx - 1, (lwr + idx - 1) / 2, k))
  {
  }

  lemma SeekDown(t: Tree, p: Probe, biasRight: bool, n: nat)
    requires t.Interior? && n == FirstAtLeast(t, p, 0)
    ensures SeeksAbove(t, p, biasRight) <==> SeeksAbove(Child(t, n), p, biasRight)
  {
  }

  lemma SeekEnd(t: Tree, p: Probe, biasRight: bool, n: nat)
    requires t.Leaf? && n == FirstAtLeast(t, p, 0) && NCell(t) > 0
    ensures SeeksAbove(t, p, biasRight) <==> EndsAbove(0, NCell(t) - 1, FirstIndex(NCell(t), biasRight), n)
  {
  }

  /** The page below an empty root on page 1. */
  lemma RootSide(t: Tree, p: Probe, biasRight: bool)
    ensures t.Interior? && NCell(t) == 0 ==> (SeeksAbove(t, p, biasRight) <==> SeeksAbove(Child(t, 0), p, biasRight))
    ensures t.Leaf? && NCell(t) == 0 ==> !SeeksAbove(t, p, biasRight)
  {
  }

  lemma {:induction false} FirstIs(t: Tree, p: Probe, i: nat, n: nat)
    requires i <= n <= NCell(t) && forall j: nat :: j < n ==> Compare(p, CellKey(t, j)) < 0
    requires n < NCell(t) ==> Compare(p, CellKey(t, n)) >= 0
    ensures FirstAtLeast(t, p, i) == n
    decreases n - i
  {
    if i < n {
      FirstIs(t, p, i + 1, n);
    }
  }

  lemma {:induction false} FirstSide(t: Tree, p: Probe, i: nat, n: nat)
    requires i <= n < NCell(t)
    ensures Compare(p, CellKey(t, n)) >= 0 ==> FirstAtLeast(t, p, i) <= n
    ensures (forall j: nat :: j <= n ==> Compare(p, CellKey(t, j)) < 0) ==> FirstAtLeast(t, p, i) > n
    decreases n - i
  {
    if i < n {
      FirstSide(t, p, i + 1, n);
    }
  }

  /** Where all cells are too small, or all too large, the side does not depend on the order of comparisons. */
  lemma {:induction false} EndsAtEdge(lwr: nat, upr: nat, idx: nat, k: nat)
    requires lwr <= idx <= upr
    ensures k <= lwr ==> EndsAbove(lwr, upr, idx, k)
    ensures k > upr ==> !EndsAbove(lwr, upr, idx, k)
    decreases upr - lwr
  {
    if k <= lwr && idx > lwr {
      EndsAtEdge(lwr, idx - 1, (lwr + idx - 1) / 2, k);
    }
    if k > upr && idx < upr {
      EndsAtEdge(idx + 1, upr, (idx + 1 + upr) / 2, k);
    }
  }

  /** In between it does: the search for 15 ends on 20 among 10 and 20, and on 10 among 10, 20 and 30. */
  lemma EitherSide()
    ensures SeeksAbove(Leaf([10, 20]), RowId(15), false)
    ensures !SeeksAbove(Leaf([10, 20, 30]), RowId(15), false)
  {
    FirstIs(Leaf([10, 20]), RowId(15), 0, 1);
    FirstIs(Leaf([10, 20, 30]), RowId(15), 0, 1);
    assert EndsAbove(0, 1, 0, 1) && !EndsAbove(0, 2, 1, 1);
  }
}
