/** The freelist: a chain of trunk pages, each with the numbers of free leaf pages. */
module FreeLists {

  /** A trunk page as stored: the next trunk and its leaves. */
  datatype TrunkPage = TrunkPage(next: nat, leaves: seq<nat>)

  type Trunks = map<nat, TrunkPage>

  /** A trunk of the list and the page it is on. */
  datatype Trunk = Trunk(pgno: nat, leaves: seq<nat>) {
    function Bag(): multiset<nat> {
      multiset{pgno} + multiset(leaves)
    }
  }

  type List = seq<Trunk>

  /** All free pages. */
  function Bag(list: List): multiset<nat> {
    if list == [] then multiset{} else list[0].Bag() + Bag(list[1..])
  }

  predicate NoDup(b: multiset<nat>) {
    forall p <- b :: b[p] == 1
  }

  function First(list: List): nat {
    if list == [] then 0 else list[0].pgno
  }

  /** The trunk after trunk i, 0 at the end. */
  function Next(list: List, i: nat): nat {
    if i + 1 < |list| then list[i + 1].pgno else 0
  }

  predicate LinkedAt(trunks: Trunks, list: List, i: nat)
    requires i < |list|
  {
    list[i].pgno in trunks && trunks[list[i].pgno] == TrunkPage(Next(list, i), list[i].leaves)
  }

  /** The chain that starts at page head is list. */
  ghost predicate Linked(head: nat, trunks: Trunks, list: List) {
    head == First(list) && forall i: nat :: i < |list| ==> LinkedAt(trunks, list, i)
  }

  // ---- contents of a list ------------------------------------------------------------------------

  lemma {:induction false} BagConcat(a: List, b: List)
    ensures Bag(a + b) == Bag(a) + Bag(b)
  {
    hide Trunk.Bag;
    if a == [] {
      assert a + b == b;
    } else {
      BagConcat(a[1..], b);
      assert (a + b)[1..] == a[1..] + b && (a + b)[0] == a[0];
    }
  }

  lemma BagOne(t: Trunk)
    ensures Bag([t]) == t.Bag()
  {
    hide Trunk.Bag;
    assert [t][1..] == [];
  }

  lemma BagAt(list: List, i: nat)
    requires i < |list|
    ensures Bag(list) == list[i].Bag() + Bag(list[..i] + list[i + 1..])
  {
    hide Trunk.Bag, Bag;
    BagConcat(list[..i], list[i + 1..]);
    BagConcat(list[..i], [list[i]]);
    BagConcat(list[..i] + [list[i]], list[i + 1..]);
    BagOne(list[i]);
    assert list == list[..i] + [list[i]] + list[i + 1..];
  }

  lemma BagUpdate(list: List, i: nat, t: Trunk)
    requires i < |list|
    ensures Bag(list[i := t]) == Bag(list) - list[i].Bag() + t.Bag()
  {
    BagAt(list, i);
    BagAt(list[i := t], i);
    assert list[i := t][..i] == list[..i] && list[i := t][i + 1..] == list[i + 1..];
  }

  lemma InBag(list: List, i: nat)
    requires i < |list|
    ensures list[i].pgno in Bag(list) && forall p <- list[i].leaves :: p in Bag(list)
  {
    BagAt(list, i);
  }

  /** A page of one trunk is on no other. */
  lemma Elsewhere(list: List, i: nat, j: nat, p: nat)
    requires NoDup(Bag(list)) && i < |list| && j < |list| && i != j && p in list[i].Bag()
    ensures p !in list[j].Bag() && p in Bag(list)
  {
    BagAt(list, i);
    var rest := list[..i] + list[i + 1..];
    var j' := if j < i then j else j - 1;
    assert rest[j'] == list[j];
    BagAt(rest, j');
    assert Bag(list)[p] >= list[i].Bag()[p] + list[j].Bag()[p];
  }

  lemma Distinct(list: List, i: nat, j: nat)
    requires NoDup(Bag(list)) && i < |list| && j < |list| && i != j
    ensures list[i].pgno != list[j].pgno
  {
    Elsewhere(list, i, j, list[i].pgno);
  }

  lemma {:induction false} WhereIs(list: List, p: nat) returns (i: nat)
    requires p in Bag(list)
    ensures i < |list| && p in list[i].Bag()
  {
    if p in list[0].Bag() {
      i := 0;
    } else {
      i := WhereIs(list[1..], p);
      i := i + 1;
    }
  }

  lemma {:induction false} Shorter(list: List)
    ensures |list| <= |Bag(list)|
  {
    if list != [] {
      Shorter(list[1..]);
    }
  }

  // ---- what the operations do to the list ----------------------------------------------------------

  /** Leaf c of trunk i is taken, the last leaf moves into its place. */
  function WithoutLeaf(leaves: seq<nat>, c: nat): seq<nat>
    requires c < |leaves|
  {
    var k := |leaves|;
    (if c < k - 1 then leaves[c := leaves[k - 1]] else leaves)[..k - 1]
  }

  lemma WithoutLeafBag(leaves: seq<nat>, c: nat)
    requires c < |leaves|
    ensures multiset(leaves) == multiset(WithoutLeaf(leaves, c)) + multiset{leaves[c]}
  {
    var k := |leaves|;
    var last := leaves[k - 1];
    assert leaves == leaves[..k - 1] + [last];
    if c < k - 1 {
      var w := leaves[c := last];
      assert w[..k - 1] == leaves[..k - 1][c := last];
      assert multiset(leaves[..k - 1][c := last]) == multiset(leaves[..k - 1]) - multiset{leaves[c]} + multiset{last};
      assert leaves[..k - 1][c] == leaves[c];
    }
  }

  function TakeLeaf(list: List, i: nat, c: nat): List
    requires i < |list| && c < |list[i].leaves|
  {
    list[i := Trunk(list[i].pgno, WithoutLeaf(list[i].leaves, c))]
  }

  /** Trunk i, which has no leaves, is taken. */
  function TakeTrunk(list: List, i: nat): List
    requires i < |list|
  {
    list[..i] + list[i + 1..]
  }

  /** Trunk i is taken and its first leaf becomes the trunk. */
  function Promote(list: List, i: nat): List
    requires i < |list| && |list[i].leaves| > 0
  {
    list[i := Trunk(list[i].leaves[0], list[i].leaves[1..])]
  }

  lemma TakeLeafBag(list: List, i: nat, c: nat)
    requires i < |list| && c < |list[i].leaves|
    ensures Bag(TakeLeaf(list, i, c)) == Bag(list) - multiset{list[i].leaves[c]} && list[i].leaves[c] in Bag(list)
  {
    WithoutLeafBag(list[i].leaves, c);
    BagUpdate(list, i, Trunk(list[i].pgno, WithoutLeaf(list[i].leaves, c)));
    BagAt(list, i);
  }

  lemma TakeTrunkBag(list: List, i: nat)
    requires i < |list| && list[i].leaves == []
    ensures Bag(TakeTrunk(list, i)) == Bag(list) - multiset{list[i].pgno} && list[i].pgno in Bag(list)
  {
    BagAt(list, i);
  }

  lemma PromoteBag(list: List, i: nat)
    requires i < |list| && |list[i].leaves| > 0
    ensures Bag(Promote(list, i)) == Bag(list) - multiset{list[i].pgno} && list[i].pgno in Bag(list)
  {
    hide Bag;
    var t := list[i];
    assert t.leaves == [t.leaves[0]] + t.leaves[1..];
    assert t.Bag() == Trunk(t.leaves[0], t.leaves[1..]).Bag() + multiset{t.pgno};
    BagUpdate(list, i, Trunk(t.leaves[0], t.leaves[1..]));
    BagAt(list, i);
  }

  // ---- the links after each operation ----------------------------------------------------------------

  lemma TakeLeafLinked(head: nat, trunks: Trunks, list: List, i: nat, c: nat)
    requires Linked(head, trunks, list) && NoDup(Bag(list)) && i < |list| && c < |list[i].leaves|
    ensures Linked(head, trunks[list[i].pgno := TrunkPage(Next(list, i), WithoutLeaf(list[i].leaves, c))],
                   TakeLeaf(list, i, c))
  {
    var list' := TakeLeaf(list, i, c);
    var trunks' := trunks[list[i].pgno := TrunkPage(Next(list, i), WithoutLeaf(list[i].leaves, c))];
    forall j: nat | j < |list'|
      ensures LinkedAt(trunks', list', j)
    {
      assert LinkedAt(trunks, list, j);
      if j != i {
        Distinct(list, i, j);
      }
    }
  }

  /** The pointer to trunk i, on page 1 or on the trunk before it, is set to page p. */
  function NewHead(head: nat, i: nat, p: nat): nat {
    if i == 0 then p else head
  }

  function Relink(trunks: Trunks, list: List, i: nat, p: nat): Trunks
    requires i < |list|
  {
    if i == 0 || list[i - 1].pgno !in trunks then trunks
    else trunks[list[i - 1].pgno := trunks[list[i - 1].pgno].(next := p)]
  }

  lemma TakeTrunkLinked(head: nat, trunks: Trunks, list: List, i: nat)
    requires Linked(head, trunks, list) && NoDup(Bag(list)) && i < |list|
    ensures Linked(NewHead(head, i, Next(list, i)), Relink(trunks, list, i, Next(list, i)), TakeTrunk(list, i))
  {
    var list' := TakeTrunk(list, i);
    var trunks' := Relink(trunks, list, i, Next(list, i));
    forall j: nat | j < |list'|
      ensures LinkedAt(trunks', list', j)
    {
      var j0 := if j < i then j else j + 1;
      assert LinkedAt(trunks, list, j0) && list'[j] == list[j0];
      if i > 0 {
        assert LinkedAt(trunks, list, i - 1);
        if j0 != i - 1 {
          Distinct(list, i - 1, j0);
        }
      }
    }
  }

  lemma PromoteLinked(head: nat, trunks: Trunks, list: List, i: nat)
    requires Linked(head, trunks, list) && NoDup(Bag(list)) && i < |list| && |list[i].leaves| > 0
    ensures var leaf := list[i].leaves[0];
      Linked(NewHead(head, i, leaf),
             Relink(trunks[leaf := TrunkPage(Next(list, i), list[i].leaves[1..])], list, i, leaf), Promote(list, i))
  {
    var leaf := list[i].leaves[0];
    var list' := Promote(list, i);
    var trunks1 := trunks[leaf := TrunkPage(Next(list, i), list[i].leaves[1..])];
    var trunks' := Relink(trunks1, list, i, leaf);
    assert leaf in list[i].Bag();
    forall j: nat | j < |list'|
      ensures LinkedAt(trunks', list', j)
    {
      assert LinkedAt(trunks, list, j);
      if j != i {
        Elsewhere(list, i, j, leaf);
      }
      if i > 0 {
        Elsewhere(list, i, i - 1, leaf);
        assert LinkedAt(trunks, list, i - 1);
        if j != i - 1 {
          Distinct(list, i - 1, j);
        }
      }
    }
  }

  /** A freed page becomes a leaf of the first trunk. */
  function PushLeaf(list: List, p: nat): List
    requires list != []
  {
    list[0 := Trunk(list[0].pgno, list[0].leaves + [p])]
  }

  lemma PushLeafBag(list: List, p: nat)
    requires list != []
    ensures Bag(PushLeaf(list, p)) == Bag(list) + multiset{p}
  {
    hide Bag;
    var t := Trunk(list[0].pgno, list[0].leaves + [p]);
    BagUpdate(list, 0, t);
    BagAt(list, 0);
    assert t.Bag() == list[0].Bag() + multiset{p};
  }

  lemma PushLeafLinked(head: nat, trunks: Trunks, list: List, p: nat)
    requires Linked(head, trunks, list) && NoDup(Bag(list)) && list != []
    ensures Linked(head, trunks[list[0].pgno := TrunkPage(Next(list, 0), list[0].leaves + [p])], PushLeaf(list, p))
  {
    hide Bag;
    var list' := PushLeaf(list, p);
    var trunks' := trunks[list[0].pgno := TrunkPage(Next(list, 0), list[0].leaves + [p])];
    forall j: nat | j < |list'|
      ensures LinkedAt(trunks', list', j)
    {
      assert LinkedAt(trunks, list, j);
      if j != 0 {
        Distinct(list, 0, j);
      }
    }
  }

  /** A freed page becomes the first trunk. */
  function PushTrunk(list: List, p: nat): List {
    [Trunk(p, [])] + list
  }

  lemma PushTrunkOk(head: nat, trunks: Trunks, list: List, p: nat)
    requires Linked(head, trunks, list) && p !in Bag(list)
    ensures Bag(PushTrunk(list, p)) == Bag(list) + multiset{p}
    ensures Linked(p, trunks[p := TrunkPage(head, [])], PushTrunk(list, p))
  {
    var list' := PushTrunk(list, p);
    var trunks' := trunks[p := TrunkPage(head, [])];
    assert list'[1..] == list && list'[0].Bag() == multiset{p};
    forall j: nat | j < |list'|
      ensures LinkedAt(trunks', list', j)
    {
      if j > 0 {
        assert LinkedAt(trunks, list, j - 1);
        BagAt(list, j - 1);
      }
    }
  }
}
