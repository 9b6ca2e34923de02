/** Which pages of a database are in use and which are free, and what that says about its size. */
module VacuumState {
  import opened Counting
  import opened PtrMap
  import opened FreeLists
  import opened FreeState
  import opened PageGraph

  ghost function Members(b: multiset<nat>): set<nat> {
    set p | p in b
  }

  lemma {:induction false} MembersSize(b: multiset<nat>)
    requires NoDup(b)
    ensures |Members(b)| == |b|
    decreases |b|
  {
    if b == multiset{} {
      assert Members(b) == {};
    } else {
      var p :| p in b;
      var c := b - multiset{p};
      assert forall q <- c :: q in b && c[q] == b[q];
      MembersSize(c);
      assert Members(b) == Members(c) + {p};
    }
  }

  /** Every ordinary page up to n is either in use or free. */
  ghost predicate Partition(l: Layout, n: nat, m: Store, b: multiset<nat>) {
    (forall p :: p in Pages(l, n) <==> p in m || p in b) && (forall p :: p in m ==> p !in b)
  }

  /** The pointer map knows the free pages. */
  ghost predicate FreeKnown(pm: PointerMap, b: multiset<nat>) {
    forall p <- b :: p in pm && pm[p].kind == FreePage
  }

  /** Pages in use and free pages add up. */
  lemma Accounts(l: Layout, n: nat, m: Store, b: multiset<nat>)
    requires Partition(l, n, m, b) && NoDup(b)
    ensures l.Count(n) == |m| + |b|
  {
    MembersSize(b);
    assert Pages(l, n) == m.Keys + Members(b);
    assert m.Keys !! Members(b);
  }

  /** If the last page is in use and the rest would fit in k pages, there is a free page among them. */
  lemma RoomBelow(l: Layout, k: nat, m: Store, last: nat)
    requires last in m && last > k && |m| <= l.Count(k)
    ensures exists p :: p in Pages(l, k) && p !in m
  {
    if forall p :: p in Pages(l, k) ==> p in m {
      SubsetSize(Pages(l, k), m.Keys - {last});
    }
  }

  /** Pages in use are all among the first k if as many as there are such pages, and none is free. */
  lemma AllBelow(l: Layout, k: nat, m: Store)
    requires |m| == l.Count(k) && forall p :: p in Pages(l, k) ==> p in m
    ensures m.Keys == Pages(l, k)
  {
    SameSet(Pages(l, k), m.Keys);
  }

  /** The root pages, being the first ordinary pages, stay where they are. */
  lemma RootsBelow(l: Layout, m: Store, top: nat, k: nat)
    requires l.Ordinary(top) && Pages(l, top) <= m.Keys && |m| <= l.Count(k)
    ensures top <= k
  {
    SubsetSize(Pages(l, top), m.Keys);
    if k < top {
      CountMono(l, k, top);
    }
  }

  /** Every tree in roots reads the same. */
  ghost predicate SameTrees(m: Store, m': Store, roots: set<nat>) {
    forall r <- roots :: ReadsAs(m, r, m', r)
  }

  lemma {:induction false} CountAtMost(l: Layout, n: nat)
    ensures l.Count(n) <= n
  {
    if n > 0 {
      CountAtMost(l, n - 1);
    }
  }

  /** A sound database whose pages all lie among the first n. */
  ghost predicate Sound(l: Layout, n: nat, count: nat, b: multiset<nat>, m: Store, pm: PointerMap, top: nat) {
    && BagOk(l, n, count, b) && GraphOk(m, pm, Pages(l, top))
    && Partition(l, n, m, b) && FreeKnown(pm, b) && 1 in m && l.Ordinary(top)
  }

  lemma SoundSizes(l: Layout, n: nat, count: nat, b: multiset<nat>, m: Store, pm: PointerMap, top: nat)
    requires Sound(l, n, count, b, m, pm, top)
    ensures l.Count(n) == |m| + count && count < l.Count(n) <= n
  {
    Accounts(l, n, m, b);
    CountAtMost(l, n);
  }

  /** With free pages left, the last page is no root and, if it is in use, there is a free page
      among the first k. */
  lemma StepFacts(l: Layout, n: nat, count: nat, b: multiset<nat>, m: Store, pm: PointerMap, top: nat, k: nat)
    requires l.Valid() && Sound(l, n, count, b, m, pm, top) && count > 0 && l.Ordinary(n)
    requires 1 <= k && l.Ordinary(k) && l.Count(k) == |m|
    ensures k < n && top <= k && n in pm && n > 1 && (pm[n].kind.FreePage? <==> n in b) && (n in b <==> n !in m)
    ensures n !in b ==> exists p <- b :: p <= k
    ensures n !in b ==> n !in Pages(l, top) && !pm[n].kind.RootPage?
  {
    SoundSizes(l, n, count, b, m, pm, top);
    if n <= k {
      CountMono(l, n, k);
    }
    RootsBelow(l, m, top, k);
    assert n in Pages(l, n);
    if n !in b {
      EntryOf(m, pm, Pages(l, top), n);
      RoomBelow(l, k, m, n);
      var p :| p in Pages(l, k) && p !in m;
      assert p in Pages(l, n);
    }
  }

  /** Giving up the last page. */
  lemma SoundDown(l: Layout, n: nat, n': nat, count: nat, b: multiset<nat>, m: Store, pm: PointerMap, top: nat)
    requires Sound(l, n, count, b, m, pm, top) && n' <= n && l.Count(n') == l.Count(n)
    ensures Sound(l, n', count, b, m, pm, top)
  {
    forall p | p in Pages(l, n)
      ensures p in Pages(l, n')
    {
      if n' < p {
        CountMono(l, n', p);
        CountMono(l, p, n);
      }
    }
  }

  lemma Removed(b: multiset<nat>, p: nat)
    requires NoDup(b) && p in b
    ensures forall q :: q in b - multiset{p} <==> q in b && q != p
  {
    assert b[p] == 1;
  }

  lemma BagDown(l: Layout, n: nat, count: nat, b: multiset<nat>)
    requires BagOk(l, n, count, b) && n > 0 && n !in b
    ensures BagOk(l, n - 1, count, b)
  {
  }

  /** The partition after the last page is given up: page q is no longer free, and the pages in use
      are those of m with q for the last page, if that was in use. */
  lemma PartitionDown(l: Layout, n: nat, m: Store, b: multiset<nat>, q: nat, m': Store)
    requires Partition(l, n, m, b) && NoDup(b) && q in b && n > 0 && (q == n || n in m)
    requires m'.Keys == if q == n then m.Keys else m.Keys - {n} + {q}
    ensures Partition(l, n - 1, m', b - multiset{q})
  {
    hide NoDup, Pages;
    Removed(b, q);
    PagesLess(l, n);
    assert forall p :: p in m' <==> (p == q && q != n) || (p in m && p != n);
    LastNotFree(l, n, m, b, q);
  }

  lemma LastNotFree(l: Layout, n: nat, m: Store, b: multiset<nat>, q: nat)
    requires Partition(l, n, m, b) && (q == n || n in m) && q in b
    ensures n in b ==> q == n
    ensures n in m ==> q != n
  {
  }

  lemma PagesLess(l: Layout, n: nat)
    requires n > 0
    ensures forall p :: p in Pages(l, n - 1) <==> p in Pages(l, n) && p != n
  {
  }

  lemma FreeKnownLess(pm: PointerMap, b: multiset<nat>, q: nat, m: Store, pm': PointerMap)
    requires FreeKnown(pm, b) && NoDup(b) && q in b && forall p :: p in m ==> p !in b
    requires forall t :: t !in m && t != q ==> EntryKept(pm, pm', t)
    ensures FreeKnown(pm', b - multiset{q})
  {
    Removed(b, q);
    forall p | p in b - multiset{q}
      ensures EntryKept(pm, pm', p)
    {
    }
  }

  /** The last page is given up: if free it leaves the freelist, else it is relocated to a free page. */
  lemma SoundStep(l: Layout, n: nat, count: nat, b: multiset<nat>, m: Store, pm: PointerMap, top: nat,
                  q: nat, m': Store, pm': PointerMap)
    requires Sound(l, n, count, b, m, pm, top) && q in b && n > 1 && (q == n || n in m)
    requires m'.Keys == if q == n then m.Keys else m.Keys - {n} + {q}
    requires GraphOk(m', pm', Pages(l, top))
    requires forall t :: t !in m && t != q ==> EntryKept(pm, pm', t)
    ensures Sound(l, n - 1, count - 1, b - multiset{q}, m', pm', top)
  {
    hide GraphOk, Pages;
    BagOkWithout(l, n, count, b, q);
    Removed(b, q);
    BagDown(l, n, count - 1, b - multiset{q});
    PartitionDown(l, n, m, b, q, m');
    FreeKnownLess(pm, b, q, m, pm');
    assert 1 in m.Keys;
  }

  lemma SameTreesRefl(m: Store, roots: set<nat>)
    ensures SameTrees(m, m, roots)
  {
  }

  /** The roots are not renamed, and so read as before. */
  lemma RootsRead(m: Store, m': Store, roots: set<nat>, a: nat, b: nat)
    requires forall p :: p in m ==> ReadsAs(m, p, m', Ren(a, b, p))
    requires roots <= m.Keys && a !in roots
    ensures SameTrees(m, m', roots)
  {
    hide ReadsAs;
    forall r | r in roots
      ensures ReadsAs(m, r, m', r)
    {
      assert r in m.Keys && Ren(a, b, r) == r;
    }
  }

  lemma SoundRoots(l: Layout, n: nat, count: nat, b: multiset<nat>, m: Store, pm: PointerMap, top: nat)
    requires Sound(l, n, count, b, m, pm, top)
    ensures GraphOk(m, pm, Pages(l, top)) && Pages(l, top) <= m.Keys
    ensures l.Ordinary(top) && 0 !in m && forall p :: p in m ==> p !in b
    ensures forall p :: p in b ==> p > 1
  {
  }

  lemma SoundBag(l: Layout, n: nat, count: nat, b: multiset<nat>, m: Store, pm: PointerMap, top: nat)
    requires Sound(l, n, count, b, m, pm, top)
    ensures BagOk(l, n, count, b)
  {
  }

  lemma SameTreesTrans(m: Store, m': Store, m'': Store, roots: set<nat>)
    requires SameTrees(m, m', roots) && SameTrees(m', m'', roots)
    ensures SameTrees(m, m'', roots)
  {
    hide Walk;
  }

  // ---- vacuum on commit ----------------------------------------------------------------------------

  /** In the middle of a vacuum on commit to k pages: the pages in use lie among the first last
      pages, and every other page among the first k is still on the freelist. */
  ghost predicate Committing(l: Layout, n: nat, last: nat, k: nat, count: nat, b: multiset<nat>, m: Store,
                             pm: PointerMap, top: nat) {
    && BagOk(l, n, count, b) && GraphOk(m, pm, Pages(l, top)) && 1 in m && l.Ordinary(top)
    && k <= last && |m| == l.Count(k) && InUseBelow(l, last, m, b) && StillFree(l, k, m, b) && MapKnows(l, last, m, pm)
  }

  ghost predicate InUseBelow(l: Layout, last: nat, m: Store, b: multiset<nat>) {
    forall p :: p in m ==> p in Pages(l, last) && p !in b
  }

  ghost predicate StillFree(l: Layout, k: nat, m: Store, b: multiset<nat>) {
    forall p :: p in Pages(l, k) ==> p in m || p in b
  }

  ghost predicate MapKnows(l: Layout, last: nat, m: Store, pm: PointerMap) {
    forall p :: p in Pages(l, last) ==> p in m || (p in pm && pm[p].kind.FreePage?)
  }

  lemma CommitStarts(l: Layout, n: nat, k: nat, count: nat, b: multiset<nat>, m: Store, pm: PointerMap, top: nat)
    requires Sound(l, n, count, b, m, pm, top) && k <= n && l.Count(k) == |m|
    ensures Committing(l, n, n, k, count, b, m, pm, top)
  {
    assert forall p :: p in Pages(l, k) ==> p in Pages(l, n);
  }

  /** The last page is free in the pointer map, or in use and then no root, and then there is a free
      page among the first k on the freelist. */
  lemma CommitFacts(l: Layout, n: nat, last: nat, k: nat, count: nat, b: multiset<nat>, m: Store, pm: PointerMap,
                    top: nat)
    requires Committing(l, n, last, k, count, b, m, pm, top) && k < last && l.Ordinary(last) && k > 0
    ensures last in pm && !pm[last].kind.RootPage? && (pm[last].kind.FreePage? <==> last !in m)
    ensures last in m ==> last !in Pages(l, top) && exists p <- b :: p <= k
  {
    hide Pages;
    assert last in Pages(l, last);
    RootsBelow(l, m, top, k);
    if last in m {
      assert last !in Pages(l, top);
      EntryOf(m, pm, Pages(l, top), last);
      RoomBelow(l, k, m, last);
    }
  }

  lemma CommitRoots(l: Layout, n: nat, last: nat, k: nat, count: nat, b: multiset<nat>, m: Store, pm: PointerMap,
                    top: nat)
    requires Committing(l, n, last, k, count, b, m, pm, top)
    ensures GraphOk(m, pm, Pages(l, top)) && Pages(l, top) <= m.Keys && BagOk(l, n, count, b)
    ensures forall p :: p in m ==> p !in b
  {
  }

  /** Passing a page that is not in use. */
  lemma CommitPass(l: Layout, n: nat, last: nat, k: nat, count: nat, b: multiset<nat>, m: Store, pm: PointerMap,
                   top: nat)
    requires Committing(l, n, last, k, count, b, m, pm, top) && k < last && last !in m
    ensures Committing(l, n, last - 1, k, count, b, m, pm, top)
  {
    assert forall p :: p in Pages(l, last - 1) ==> p in Pages(l, last);
  }

  /** A free page past the first k is discarded. */
  lemma CommitDiscard(l: Layout, n: nat, last: nat, k: nat, count: nat, b: multiset<nat>, m: Store, pm: PointerMap,
                      top: nat, q: nat)
    requires Committing(l, n, last, k, count, b, m, pm, top) && q in b && q > k
    ensures Committing(l, n, last, k, count - 1, b - multiset{q}, m, pm, top)
  {
    hide GraphOk, Layout.Count, Layout.Ordinary, MapKnows, BagOk, Pages;
    BagNoDup(l, n, count, b);
    BagOkWithout(l, n, count, b, q);
    Removed(b, q);
  }

  /** The last page is relocated to page q. */
  lemma CommitMove(l: Layout, n: nat, last: nat, k: nat, count: nat, b: multiset<nat>, m: Store, pm: PointerMap,
                   top: nat, q: nat, m': Store, pm': PointerMap)
    requires Committing(l, n, last, k, count, b, m, pm, top) && q in b && q <= k < last && last in m && last > 1
    requires m'.Keys == m.Keys - {last} + {q} && GraphOk(m', pm', Pages(l, top))
    requires forall t :: t !in m && t != q ==> EntryKept(pm, pm', t)
    ensures Committing(l, n, last - 1, k, count - 1, b - multiset{q}, m', pm', top)
  {
    hide GraphOk, Pages, BagOk;
    BagOkWithout(l, n, count, b, q);
    BagNoDup(l, n, count, b);
    Removed(b, q);
    assert 1 in m.Keys && |m'| == |m'.Keys| == |m.Keys|;
    CommitMovePages(l, last, k, b, m, q, m');
    MapKnowsMoved(l, last, m, pm, q, m', pm');
  }

  lemma BagNoDup(l: Layout, n: nat, count: nat, b: multiset<nat>)
    requires BagOk(l, n, count, b)
    ensures NoDup(b) && forall p <- b :: 1 <= p && l.Ordinary(p)
  {
  }

  lemma CommitMovePages(l: Layout, last: nat, k: nat, b: multiset<nat>, m: Store, q: nat, m': Store)
    requires InUseBelow(l, last, m, b) && StillFree(l, k, m, b) && NoDup(b) && q in b && 1 <= q <= k < last
    requires l.Ordinary(q)
    requires m'.Keys == m.Keys - {last} + {q}
    ensures InUseBelow(l, last - 1, m', b - multiset{q}) && StillFree(l, k, m', b - multiset{q})
  {
    Removed(b, q);
    forall p | p in m'.Keys
      ensures p in Pages(l, last - 1) && p !in b - multiset{q}
    {
    }
  }

  lemma MapKnowsMoved(l: Layout, last: nat, m: Store, pm: PointerMap, q: nat, m': Store, pm': PointerMap)
    requires MapKnows(l, last, m, pm) && last > 0 && m'.Keys == m.Keys - {last} + {q}
    requires forall t :: t !in m && t != q ==> EntryKept(pm, pm', t)
    ensures MapKnows(l, last - 1, m', pm')
  {
    forall p | p in Pages(l, last - 1)
      ensures p in m'.Keys || (p in pm' && pm'[p].kind.FreePage?)
    {
      assert p in Pages(l, last) && p != last;
    }
  }

  /** When the end is reached, or the freelist is empty, the first k pages are in use and no others. */
  lemma CommitEnds(l: Layout, n: nat, last: nat, k: nat, count: nat, b: multiset<nat>, m: Store, pm: PointerMap,
                   top: nat)
    requires Committing(l, n, last, k, count, b, m, pm, top) && (last == k || count == 0)
    ensures Sound(l, k, 0, multiset{}, m, pm, top)
  {
    hide GraphOk, Sound, Pages, InUseBelow, StillFree, MapKnows, Layout.Count, Layout.Ordinary;
    if last == k {
      AllInUse(l, k, m, b);
    } else {
      NoneFree(l, k, m, b);
    }
    SoundNone(l, k, m, pm, top);
  }

  lemma AllInUse(l: Layout, k: nat, m: Store, b: multiset<nat>)
    requires InUseBelow(l, k, m, b) && |m| == l.Count(k)
    ensures m.Keys == Pages(l, k)
  {
    hide Layout.Count, Layout.Ordinary;
    assert m.Keys <= Pages(l, k);
    SameSet(m.Keys, Pages(l, k));
  }

  lemma NoneFree(l: Layout, k: nat, m: Store, b: multiset<nat>)
    requires StillFree(l, k, m, b) && |b| == 0 && |m| == l.Count(k)
    ensures m.Keys == Pages(l, k)
  {
    hide Layout.Count, Layout.Ordinary;
    assert b == multiset{};
    AllBelow(l, k, m);
  }

  lemma SoundNone(l: Layout, k: nat, m: Store, pm: PointerMap, top: nat)
    requires m.Keys == Pages(l, k) && GraphOk(m, pm, Pages(l, top)) && 1 in m && l.Ordinary(top)
    ensures Sound(l, k, 0, multiset{}, m, pm, top)
  {
    hide GraphOk, Layout.Count, Layout.Ordinary;
    forall p
      ensures p in Pages(l, k) <==> p in m
    {
      assert p in m <==> p in m.Keys;
    }
  }

  lemma SameSet(a: set<nat>, b: set<nat>)
    requires a <= b && |a| == |b|
    ensures a == b
  {
    SubsetSize(a, b);
    assert b == a + (b - a);
  }

  lemma NotInUse(l: Layout, n: nat, last: nat, k: nat, count: nat, b: multiset<nat>, m: Store, pm: PointerMap, top: nat)
    requires Committing(l, n, last, k, count, b, m, pm, top)
    requires !l.Ordinary(last)
    ensures last !in m
  {
  }

  lemma SomeFree(l: Layout, n: nat, count: nat, b: multiset<nat>)
    requires BagOk(l, n, count, b) && exists p :: p in b
    ensures count > 0 && forall p <- b :: p > 1
  {
  }

  // ---- root pages ----------------------------------------------------------------------------------

  lemma PagesNext(l: Layout, n: nat, m: nat)
    requires NextOrdinary(l, n, m)
    ensures Pages(l, m) == Pages(l, n) + {m} && m !in Pages(l, n)
  {
    forall p | n < p < m
      ensures !l.Ordinary(p)
    {
      CountMono(l, n, p);
      CountMono(l, p, m);
    }
  }

  /** The page for the next root is one of the pages of the file, or the one after the last. */
  lemma RootPlace(l: Layout, n: nat, count: nat, b: multiset<nat>, m: Store, pm: PointerMap, top: nat, root: nat)
    requires Sound(l, n, count, b, m, pm, top) && l.Ordinary(n) && NextOrdinary(l, top, root)
    ensures root !in Pages(l, top) && root > 1
    ensures root <= n ==> root in pm && (root in m <==> root !in b) && (pm[root].kind.FreePage? <==> root in b)
    ensures root <= n && root in m ==> !pm[root].kind.RootPage?
    ensures root > n ==> top == n && count == 0
  {
    hide Sound, Layout.Count, GraphOk, Pages;
    PagesNext(l, top, root);
    SoundRoots(l, n, count, b, m, pm, top);
    TopInUse(l, n, count, b, m, pm, top);
    if root <= n {
      SoundAt(l, n, count, b, m, pm, top, root);
      if root in m {
        EntryOf(m, pm, Pages(l, top), root);
      }
    } else {
      if top < n {
        CountMono(l, top, n);
        CountMono(l, n, root);
      }
      SoundSizes(l, n, count, b, m, pm, top);
      SubsetSize(Pages(l, n), m.Keys);
    }
  }

  lemma SoundAt(l: Layout, n: nat, count: nat, b: multiset<nat>, m: Store, pm: PointerMap, top: nat, p: nat)
    requires Sound(l, n, count, b, m, pm, top) && 1 <= p <= n && l.Ordinary(p)
    ensures (p in m <==> p !in b) && (p in b ==> p in pm && pm[p].kind.FreePage?)
  {
    assert p in Pages(l, n);
  }

  /** A page is drawn for a new root: page q from the freelist, or the new last page. */
  predicate Drawn(l: Layout, n: nat, count: nat, b: multiset<nat>, q: nat, n': nat, count': nat, b': multiset<nat>) {
    if count > 0 then q in b && n' == n && count' == count - 1 && b' == b - multiset{q}
    else q == n' && NextOrdinary(l, n, n') && count' == 0 && b' == b
  }

  lemma SoundCreate(l: Layout, n: nat, count: nat, b: multiset<nat>, m: Store, pm: PointerMap, top: nat, root: nat,
                    q: nat, n': nat, count': nat, b': multiset<nat>, m': Store, pm': PointerMap)
    requires Sound(l, n, count, b, m, pm, top) && NextOrdinary(l, top, root) && Drawn(l, n, count, b, q, n', count', b')
    requires BagOk(l, n', count', b')
    requires m'.Keys == m.Keys + {q} && GraphOk(m', pm', Pages(l, top) + {root})
    requires forall t :: t !in m && t != q ==> EntryKept(pm, pm', t)
    ensures Sound(l, n', count', b', m', pm', root)
  {
    hide GraphOk, Pages, Partition, FreeKnown, BagOk;
    PagesNext(l, top, root);
    BagNoDup(l, n, count, b);
    BagNoDup(l, n', count', b');
    assert 1 in m.Keys;
    if count > 0 {
      PartitionTake(l, n, m, b, q, m');
      SoundRoots(l, n, count, b, m, pm, top);
      FreeKnownLess(pm, b, q, m, pm');
    } else {
      PagesNext(l, n, n');
      EmptyBag(l, n, b);
      PartitionGrow(l, n, n', m, m');
      NoneKnown(pm');
    }
  }

  lemma NoneKnown(pm: PointerMap)
    ensures FreeKnown(pm, multiset{})
  {
  }

  lemma EmptyBag(l: Layout, n: nat, b: multiset<nat>)
    requires BagOk(l, n, 0, b)
    ensures b == multiset{}
  {
  }

  lemma PartitionTake(l: Layout, n: nat, m: Store, b: multiset<nat>, q: nat, m': Store)
    requires Partition(l, n, m, b) && NoDup(b) && q in b && m'.Keys == m.Keys + {q}
    ensures Partition(l, n, m', b - multiset{q})
  {
    Removed(b, q);
    assert forall p :: p in m' <==> p in m || p == q;
  }

  lemma PartitionGrow(l: Layout, n: nat, n': nat, m: Store, m': Store)
    requires Partition(l, n, m, multiset{}) && Pages(l, n') == Pages(l, n) + {n'} && m'.Keys == m.Keys + {n'}
    ensures Partition(l, n', m', multiset{})
  {
    assert forall p :: p in m' <==> p in m || p == n';
  }

  /** The last root's page is freed. */
  lemma SoundDrop(l: Layout, n: nat, count: nat, b: multiset<nat>, m: Store, pm: PointerMap, top: nat, top': nat,
                  m': Store, pm': PointerMap)
    requires Sound(l, n, count, b, m, pm, top) && top > 1 && 1 <= top' && NextOrdinary(l, top', top) && l.Ordinary(top')
    requires BagOk(l, n, count + 1, b + multiset{top})
    requires m'.Keys == m.Keys - {top} && GraphOk(m', pm', Pages(l, top) - {top})
    requires top in pm' && pm'[top].kind.FreePage?
    requires forall t :: t !in m ==> EntryKept(pm, pm', t)
    ensures Sound(l, n, count + 1, b + multiset{top}, m', pm', top')
  {
    hide GraphOk, NoDup, Pages;
    PagesNext(l, top', top);
    assert Pages(l, top) - {top} == Pages(l, top');
    TopInUse(l, n, count, b, m, pm, top);
    assert 1 in m.Keys;
    forall p
      ensures p in Pages(l, n) <==> p in m' || p in b + multiset{top}
      ensures p in m' ==> p !in b + multiset{top}
    {
      assert p in m' <==> p in m && p != top;
    }
  }

  lemma TopInUse(l: Layout, n: nat, count: nat, b: multiset<nat>, m: Store, pm: PointerMap, top: nat)
    requires Sound(l, n, count, b, m, pm, top)
    ensures top in m && top !in b && top in Pages(l, n) && 1 <= top <= n
  {
    assert top in Pages(l, top);
  }

  /** If the new root's page was not drawn, it is in use. */
  lemma DrawnElsewhere(l: Layout, n: nat, count: nat, b: multiset<nat>, m: Store, pm: PointerMap, top: nat, root: nat,
                       q: nat, n': nat, count': nat, b': multiset<nat>)
    requires Sound(l, n, count, b, m, pm, top) && l.Ordinary(n) && NextOrdinary(l, top, root)
    requires Drawn(l, n, count, b, q, n', count', b') && (count > 0 && root in b ==> q == root) && q != root
    ensures root in m && q !in m && q > 1 && 0 !in m
    ensures root in pm && !pm[root].kind.RootPage? && !pm[root].kind.FreePage?
  {
    hide GraphOk, NoDup;
    RootPlace(l, n, count, b, m, pm, top, root);
    if root > n {
      SameCount(l, q, root);
    }
    assert n' in Pages(l, n) ==> n' <= n;
  }

  /** The trees read the same when a page is added to the store. */
  lemma AddedReads(m: Store, m1: Store, m2: Store, pm1: PointerMap, roots: set<nat>)
    requires SameTrees(m, m1, roots) && GraphOk(m1, pm1, roots) && Extends(m1, m2)
    ensures SameTrees(m, m2, roots)
  {
    hide ReadsAs, Extends;
    assert roots <= m1.Keys by { hide Named, RefOk; }
    ReadsExtends(m1, m2, pm1, roots);
    forall r | r in roots
      ensures ReadsAs(m, r, m2, r)
    {
      assert r in m1.Keys;
      ReadsTrans(m, r, m1, r, m2, r);
    }
  }

  lemma DrawnHere(l: Layout, n: nat, count: nat, b: multiset<nat>, m: Store, pm: PointerMap, top: nat, root: nat,
                  n': nat, count': nat, b': multiset<nat>)
    requires Sound(l, n, count, b, m, pm, top) && Drawn(l, n, count, b, root, n', count', b')
    ensures root !in m
  {
    hide GraphOk, NoDup;
  }

  lemma TopIsRoot(l: Layout, top: nat, r: nat)
    requires l.Ordinary(top) && r in Pages(l, top) && r >= 2
    ensures top in Pages(l, top) && top >= 2
  {
  }
}
