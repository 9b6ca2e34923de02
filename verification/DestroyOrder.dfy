/** Dropping a table and its indexes, root page by root page, largest first. */
module DestroyOrder {
  import opened PageGraph
  import opened PtrMap
  import opened Databases

  predicate Descending(s: seq<nat>) {
    forall i, j | 0 <= i < j < |s| :: s[i] > s[j]
  }

  predicate Among(tab: nat, indexes: seq<nat>, x: nat) {
    x == tab || x in indexes
  }

  /** destroyTable(): the root pages of a table and of its indexes, in the order in which they are
      destroyed. */
  method DestroyTable(tab: nat, indexes: seq<nat>) returns (order: seq<nat>)
    requires tab > 0 && forall x <- indexes :: x > 0
    ensures Descending(order) && order != []
    ensures forall x: nat :: x in order <==> Among(tab, indexes, x)
  {
    order := [];
    var destroyed := 0;
    while true
      invariant Descending(order) && (forall x <- order :: Among(tab, indexes, x))
      invariant if order == [] then destroyed == 0 else destroyed == order[|order| - 1]
      invariant forall x: nat :: Among(tab, indexes, x) && destroyed != 0 && x >= destroyed ==> x in order
      invariant destroyed > 0 || order == []
      decreases destroyed == 0, destroyed
    {
      assert Among(tab, indexes, tab);
      var largest := Largest(tab, indexes, destroyed);
      if largest == 0 {
        return;
      }
      order := order + [largest];
      destroyed := largest;
    }
  }

  /** The largest root page not yet destroyed, 0 if there is none. */
  method Largest(tab: nat, indexes: seq<nat>, destroyed: nat) returns (largest: nat)
    requires tab > 0 && forall x <- indexes :: x > 0
    ensures largest == 0 || (Among(tab, indexes, largest) && (destroyed == 0 || largest < destroyed))
    ensures forall x: nat :: Among(tab, indexes, x) && (destroyed == 0 || x < destroyed) ==> 0 < x <= largest
  {
    largest := 0;
    if destroyed == 0 || tab < destroyed {
      largest := tab;
    }
    var i := 0;
    while i < |indexes|
      invariant i <= |indexes|
      invariant largest == 0 || (Among(tab, indexes, largest) && (destroyed == 0 || largest < destroyed))
      invariant destroyed == 0 || tab < destroyed ==> tab <= largest
      invariant forall j: nat :: j < i && (destroyed == 0 || indexes[j] < destroyed) ==> indexes[j] <= largest
    {
      if (destroyed == 0 || indexes[i] < destroyed) && indexes[i] > largest {
        largest := indexes[i];
      }
      i := i + 1;
    }
  }

  // ---- why that order ------------------------------------------------------------------------------

  /** What each root page is the root of. */
  type Placement<T> = map<nat, T>

  predicate IsLast<T>(at: Placement<T>, top: nat) {
    top in at && forall r <- at :: r <= top
  }

  /** btreeDropTable() on root page r: the tree at the last root page moves into the gap. */
  ghost function Drop<T>(at: Placement<T>, r: nat): (at': Placement<T>)
    requires r in at
  {
    LastExists(at);
    var top :| IsLast(at, top);
    (if r == top then at else at[r := at[top]]) - {top}
  }

  lemma LastExists<T>(at: Placement<T>)
    requires |at| > 0
    ensures exists top :: IsLast(at, top)
  {
    var r :| r in at;
    var rest := at - {r};
    if |rest| > 0 {
      LastExists(rest);
      var t :| IsLast(rest, t);
      assert at.Keys == rest.Keys + {r};
      assert IsLast(at, if t < r then r else t);
    } else {
      assert at.Keys == {r};
      assert IsLast(at, r);
    }
  }

  /** Every drop finds the tree it is meant for where it always was. */
  ghost predicate EachInPlace<T>(at: Placement<T>, order: seq<nat>, original: Placement<T>) {
    order == [] ||
    (&& order[0] in at && order[0] in original && at[order[0]] == original[order[0]]
     && EachInPlace(Drop(at, order[0]), order[1..], original))
  }

  /** In descending order, no root still to be destroyed is relocated. */
  lemma {:induction false} DescendingIsSafe<T>(at: Placement<T>, order: seq<nat>, original: Placement<T>)
    requires Descending(order)
    requires forall r <- order :: r in at && r in original && at[r] == original[r]
    ensures EachInPlace(at, order, original)
  {
    if order != [] {
      var at' := Drop(at, order[0]);
      forall r | r in order[1..]
        ensures r in at' && at'[r] == at[r] && r in order
      {
      }
      DescendingIsSafe(at', order[1..], original);
    }
  }

  /** Destroying page 4 before page 5, the last root, moves the tree of page 5 away. */
  lemma AscendingIsNot()
    ensures !EachInPlace(map[1 := 'a', 3 := 'b', 4 := 'c', 5 := 'd'], [4, 5],
                         map[1 := 'a', 3 := 'b', 4 := 'c', 5 := 'd'])
  {
    var at := map[1 := 'a', 3 := 'b', 4 := 'c', 5 := 'd'];
    assert IsLast(at, 5);
    assert 5 !in Drop(at, 4);
    assert [4, 5][1..] == [5];
  }

  // ---- the database --------------------------------------------------------------------------------

  /** What is left after all of them have been dropped. */
  ghost function DropEach<T>(at: Placement<T>, order: seq<nat>): Placement<T>
    decreases |order|
  {
    if order == [] || order[0] !in at then at else DropEach(Drop(at, order[0]), order[1..])
  }

  /** Each root page has the tree that was at page at[r] of m. */
  ghost predicate Holding(m: Store, pages: Store, at: Placement<nat>) {
    forall r :: r in at ==> ReadsAs(m, at[r], pages, r)
  }

  /** The rootpage column of the schema table, before anything is dropped: each tree by its own root page. */
  predicate Named(at: Placement<nat>) {
    forall r <- at :: at[r] == r
  }

  /** The table whose root page is the largest is the one that DropTable() moves, and it is the last. */
  lemma DropIs(at: Placement<nat>, r: nat, top: nat, moved: nat)
    requires r in at && IsLast(at, top) && moved == if r == top then 0 else top
    ensures Drop(at, r) == if moved == 0 then at - {r} else at[r := at[moved]] - {moved}
  {
    LastExists(at);
  }

  lemma HoldingDrop(m: Store, m1: Store, m2: Store, at: Placement<nat>, r: nat, top: nat)
    requires Holding(m, m1, at) && r in at && IsLast(at, top)
    requires forall q :: q in at && q != r ==> ReadsAs(m1, q, m2, Ren(top, r, q))
    ensures Holding(m, m2, Drop(at, r))
  {
    hide ReadsAs;
    LastExists(at);
    var at' := Drop(at, r);
    forall q | q in at'
      ensures ReadsAs(m, at'[q], m2, q)
    {
      var from := if q == r then top else q;
      assert Ren(top, r, from) == q;
      ReadsTrans(m, at[from], m1, from, m2, q);
    }
  }

  /** One OP_Destroy, and the update of the schema table that follows it. The root to be dropped holds the
      tree it held at the start. */
  method DestroyRootPage(bt: BtShared, table: nat, at: Placement<nat>, ghost m: Store) returns (at': Placement<nat>)
    requires bt.Valid() && at.Keys == bt.roots && Holding(m, bt.pages, at)
    requires table in at && table >= 2 && at[table] == table
    modifies bt
    ensures bt.Valid() && at'.Keys == bt.roots && Holding(m, bt.pages, at') && at' == Drop(at, table)
  {
    hide BtShared.Valid, Holding, Drop, ReadsAs, Ren;
    LargestIsLast(bt, at);
    ghost var top, m1 := bt.largestRoot, bt.pages;
    var moved := bt.DropTable(table);
    DropIs(at, table, top, moved);
    HoldingDrop(m, m1, bt.pages, at, table, top);
    at' := if moved == 0 then at - {table} else at[table := at[moved]] - {moved};
  }

  lemma LargestIsLast(bt: BtShared, at: Placement<nat>)
    requires bt.Valid() && at.Keys == bt.roots && at.Keys != {}
    ensures IsLast(at, bt.largestRoot) && bt.largestRoot >= 1
  {
    hide BtShared.FreeValid;
    var r :| r in at;
    VacuumState.TopInUse(bt.l, bt.nPage, bt.count, bt.Free(), bt.pages, bt.ptrmap, bt.largestRoot);
  }

  ghost function Elements(order: seq<nat>): set<nat> {
    set x | x in order
  }

  ghost predicate Injective(at: Placement<nat>) {
    forall r, q :: r in at && q in at && at[r] == at[q] ==> r == q
  }

  lemma DropValues(at: Placement<nat>, r: nat)
    requires r in at && Injective(at)
    ensures Injective(Drop(at, r)) && Drop(at, r).Values == at.Values - {at[r]}
  {
    LastExists(at);
    var at' := Drop(at, r);
    var top :| IsLast(at, top) && at' == (if r == top then at else at[r := at[top]]) - {top};
    forall v | v in at.Values && v != at[r]
      ensures v in at'.Values
    {
      var q :| q in at && at[q] == v;
      var q' := if q == top then r else q;
      assert q' in at' && at'[q'] == v;
    }
  }

  /** What is dropped is gone, and nothing else. */
  lemma {:induction false} DropEachValues(at: Placement<nat>, order: seq<nat>, named: Placement<nat>)
    requires EachInPlace(at, order, named) && Injective(at) && Named(named)
    ensures DropEach(at, order).Values == at.Values - Elements(order)
    decreases |order|
  {
    hide Drop, Injective;
    if order != [] {
      DropValues(at, order[0]);
      DropEachValues(Drop(at, order[0]), order[1..], named);
      assert Elements(order) == {order[0]} + Elements(order[1..]);
    }
  }

  /** Dropping a table and its indexes in an auto-vacuum database. Whenever one of them is dropped its tree is
      still where it was, and every other tree ends where the schema table says, with the content it had. */
  method DestroyAll(bt: BtShared, tab: nat, indexes: seq<nat>, named: Placement<nat>)
    returns (order: seq<nat>, at: Placement<nat>)
    requires bt.Valid() && named.Keys == bt.roots && Named(named)
    requires forall x: nat :: Among(tab, indexes, x) ==> x in named && x >= 2
    modifies bt
    ensures Descending(order) && (forall x: nat :: x in order <==> Among(tab, indexes, x))
    ensures EachInPlace(named, order, named) && at == DropEach(named, order)
    ensures bt.Valid() && at.Keys == bt.roots && Holding(old(bt.pages), bt.pages, at)
    ensures at.Values == old(bt.roots) - Elements(order)
  {
    hide BtShared.Valid, Holding, Drop;
    assert Among(tab, indexes, tab);
    forall x | x in indexes
      ensures x > 0
    {
      assert Among(tab, indexes, x);
    }
    order := DestroyTable(tab, indexes);
    NamedFacts(named, bt.pages);
    DescendingIsSafe(named, order, named);
    DropEachValues(named, order, named);
    at := named;
    var i := 0;
    assert order[i..] == order;
    while i < |order|
      invariant i <= |order| && bt.Valid() && at.Keys == bt.roots && Holding(old(bt.pages), bt.pages, at)
      invariant EachInPlace(at, order[i..], named) && DropEach(at, order[i..]) == DropEach(named, order)
    {
      assert order[i] in order && Among(tab, indexes, order[i]);
      assert order[i..][0] == order[i] && order[i..][1..] == order[i + 1..];
      at := DestroyRootPage(bt, order[i], at, old(bt.pages));
      i := i + 1;
    }
    assert order[i..] == [];
  }

  lemma NamedFacts(named: Placement<nat>, m: Store)
    requires Named(named)
    ensures Injective(named) && Holding(m, m, named) && named.Values == named.Keys
  {
    forall r | r in named
      ensures named[r] == r
    {
    }
    assert forall r :: r in named.Keys ==> named[r] in named.Values;
  }
}
