/** What the freelist promises: which page an allocation yields, and what keeps the list sound. */
module FreeState {
  import opened PtrMap
  import opened FreeLists

  /** BTALLOC_ANY, BTALLOC_EXACT, BTALLOC_LE. */
  datatype Mode = Anywhere | Exactly | AtMost

  /** The most leaves freePage2() puts on a trunk page. */
  function Cap(l: Layout): nat
    requires l.Valid()
  {
    l.usable / 4 - 8
  }

  /** The freelist: a chain without repetitions of count ordinary pages, and trunks that are not too
      full. */
  ghost predicate FreeOk(l: Layout, nPage: nat, head: nat, count: nat, trunks: Trunks, list: List) {
    && l.Valid() && Linked(head, trunks, list)
    && BagOk(l, nPage, count, Bag(list)) && (forall t <- list :: |t.leaves| <= Cap(l))
  }

  ghost predicate BagOk(l: Layout, nPage: nat, count: nat, b: multiset<nat>) {
    NoDup(b) && |b| == count && forall p <- b :: 2 <= p <= nPage && l.Ordinary(p)
  }

  lemma BagOkWithout(l: Layout, nPage: nat, count: nat, b: multiset<nat>, p: nat)
    requires BagOk(l, nPage, count, b) && p in b
    ensures BagOk(l, nPage, count - 1, b - multiset{p}) && p !in b - multiset{p}
  {
    forall q | q in b - multiset{p}
      ensures (b - multiset{p})[q] == 1 && q in b
    {
    }
  }

  function Dist(a: nat, b: nat): nat {
    if a < b then b - a else a - b
  }

  /** What one allocation from a nonempty list yields. */
  ghost predicate Chosen(list: List, nearby: nat, mode: Mode, p: nat) {
    && p in Bag(list)
    && (mode.Exactly? && nearby in Bag(list) ==> p == nearby)
    && (mode.AtMost? ==> p <= nearby)
  }

  /** Some free page is as near as mode asks. */
  ghost predicate Obtainable(list: List, nearby: nat, mode: Mode) {
    mode.AtMost? ==> exists p <- Bag(list) :: p <= nearby
  }

  /** Page p ends the search of the list. */
  predicate Wanted(nearby: nat, mode: Mode, p: nat) {
    p == nearby || (p < nearby && mode.AtMost?)
  }

  /** The first leaf at or before nearby, else leaf 0. */
  method FirstAtMost(leaves: seq<nat>, nearby: nat) returns (closest: nat)
    requires leaves != []
    ensures closest < |leaves|
    ensures (exists p <- leaves :: p <= nearby) ==> leaves[closest] <= nearby
    ensures (forall p <- leaves :: p > nearby) ==> closest == 0
    ensures forall j: nat :: j < closest ==> leaves[j] > nearby
  {
    closest := 0;
    var i := 0;
    while i < |leaves|
      invariant closest == 0 && i <= |leaves|
      invariant forall j: nat :: j < i ==> leaves[j] > nearby
    {
      if leaves[i] <= nearby {
        assert leaves[i] in leaves;
        return i;
      }
      i := i + 1;
    }
  }

  /** The leaf with the least distance to nearby. */
  method Closest(leaves: seq<nat>, nearby: nat) returns (closest: nat)
    requires leaves != []
    ensures closest < |leaves|
    ensures forall j: nat :: j < |leaves| ==> Dist(leaves[closest], nearby) <= Dist(leaves[j], nearby)
    ensures nearby in leaves ==> leaves[closest] == nearby
  {
    closest := 0;
    var dist := Dist(leaves[0], nearby);
    var i := 1;
    while i < |leaves|
      invariant 1 <= i <= |leaves| && closest < i && dist == Dist(leaves[closest], nearby)
      invariant forall j: nat :: j < i ==> dist <= Dist(leaves[j], nearby)
    {
      var d2 := Dist(leaves[i], nearby);
      if d2 < dist {
        closest, dist := i, d2;
      }
      i := i + 1;
    }
  }

  /** The leaf that the allocator looks at on a trunk. */
  method PickLeaf(leaves: seq<nat>, nearby: nat, mode: Mode) returns (closest: nat)
    requires leaves != []
    ensures closest < |leaves|
    ensures mode.AtMost? && (exists p <- leaves :: p <= nearby) && nearby > 0 ==> leaves[closest] <= nearby
    ensures !mode.AtMost? && nearby > 0 ==>
      forall j: nat :: j < |leaves| ==> Dist(leaves[closest], nearby) <= Dist(leaves[j], nearby)
    ensures !mode.AtMost? && nearby > 0 && nearby in leaves ==> leaves[closest] == nearby
    ensures nearby == 0 ==> closest == 0
  {
    if nearby > 0 {
      if mode.AtMost? {
        closest := FirstAtMost(leaves, nearby);
      } else {
        closest := Closest(leaves, nearby);
      }
    } else {
      closest := 0;
    }
  }

  lemma HeadOfEmpty(head: nat, trunks: Trunks, list: List)
    requires Linked(head, trunks, list) && |Bag(list)| == 0
    ensures head == 0
  {
    Shorter(list);
  }

  lemma BagOkWith(l: Layout, nPage: nat, count: nat, b: multiset<nat>, p: nat)
    requires BagOk(l, nPage, count, b) && p !in b && 2 <= p <= nPage && l.Ordinary(p)
    ensures BagOk(l, nPage, count + 1, b + multiset{p})
  {
    forall q | q in b + multiset{p}
      ensures (b + multiset{p})[q] == 1 && (q in b || q == p)
    {
    }
  }

  lemma LeafPushed(l: Layout, nPage: nat, head: nat, count: nat, trunks: Trunks, list: List, p: nat)
    requires FreeOk(l, nPage, head, count, trunks, list) && p !in Bag(list) && 2 <= p <= nPage && l.Ordinary(p)
    requires list != [] && |list[0].leaves| < Cap(l)
    ensures head in trunks && trunks[head].leaves == list[0].leaves && Bag(PushLeaf(list, p)) == Bag(list) + multiset{p}
    ensures var t := TrunkPage(trunks[head].next, trunks[head].leaves + [p]);
      FreeOk(l, nPage, head, count + 1, trunks[head := t], PushLeaf(list, p))
  {
    hide Bag, Linked;
    HeadIs(head, trunks, list);
    PushLeafBag(list, p);
    PushLeafLinked(head, trunks, list, p);
    BagOkWith(l, nPage, count, Bag(list), p);
  }

  lemma HeadIs(head: nat, trunks: Trunks, list: List)
    requires Linked(head, trunks, list) && list != []
    ensures head == list[0].pgno && head in trunks && trunks[head] == TrunkPage(Next(list, 0), list[0].leaves)
  {
    assert LinkedAt(trunks, list, 0);
  }

  lemma TrunkPushed(l: Layout, nPage: nat, head: nat, count: nat, trunks: Trunks, list: List, p: nat)
    requires FreeOk(l, nPage, head, count, trunks, list) && p !in Bag(list) && 2 <= p <= nPage && l.Ordinary(p)
    ensures Bag(PushTrunk(list, p)) == Bag(list) + multiset{p}
    ensures FreeOk(l, nPage, p, count + 1, trunks[p := TrunkPage(head, [])], PushTrunk(list, p))
  {
    hide Bag, Linked;
    PushTrunkOk(head, trunks, list, p);
    BagOkWith(l, nPage, count, Bag(list), p);
  }

  lemma EmptyIs(l: Layout, nPage: nat, head: nat, count: nat, trunks: Trunks, list: List)
    requires FreeOk(l, nPage, head, count, trunks, list)
    ensures count == 0 <==> list == []
    ensures list == [] ==> head == 0
  {
    if list == [] {
      HeadOfEmpty(head, trunks, list);
    } else {
      assert Bag(list) == list[0].Bag() + Bag(list[1..]);
    }
  }

  lemma NotEmpty(list: List)
    requires |Bag(list)| > 0
    ensures list != []
  {
  }

  /** No page of the trunk ends the search. */
  predicate NoneWanted(t: Trunk, nearby: nat, mode: Mode) {
    !Wanted(nearby, mode, t.pgno) && forall p <- t.leaves :: !Wanted(nearby, mode, p)
  }

  lemma SearchedAll(list: List, nearby: nat, mode: Mode)
    requires forall j: nat :: j < |list| ==> NoneWanted(list[j], nearby, mode)
    ensures nearby !in Bag(list)
    ensures mode.AtMost? ==> !Obtainable(list, nearby, mode)
  {
    forall p | p in Bag(list)
      ensures !Wanted(nearby, mode, p)
    {
      var j := WhereIs(list, p);
      assert NoneWanted(list[j], nearby, mode);
    }
    assert Wanted(nearby, mode, nearby);
  }

  /** Of a first trunk with leaves, the leaf nearest to the page asked for; without such a page, the first leaf. */
  ghost predicate NearestOf(t: Trunk, nearby: nat, page: nat) {
    if t.leaves == [] then page == t.pgno
    else if nearby == 0 then page == t.leaves[0]
    else page in t.leaves && forall p <- t.leaves :: Dist(page, nearby) <= Dist(p, nearby)
  }

  lemma EmptiedList(l: Layout, n: nat, trunks: Trunks)
    requires l.Valid()
    ensures FreeOk(l, n, 0, 0, trunks, []) && Bag([]) == multiset{}
  {
  }

  lemma EmptyList(l: Layout, n: nat, head: nat, trunks: Trunks, list: List)
    requires FreeOk(l, n, head, 0, trunks, list)
    ensures Bag(list) == multiset{}
  {
  }

  lemma ValidLayout(l: Layout, n: nat, head: nat, count: nat, trunks: Trunks, list: List)
    requires FreeOk(l, n, head, count, trunks, list)
    ensures l.Valid()
  {
  }

  lemma ValidBag(l: Layout, n: nat, head: nat, count: nat, trunks: Trunks, list: List)
    requires FreeOk(l, n, head, count, trunks, list)
    ensures BagOk(l, n, count, Bag(list))
  {
  }
}
