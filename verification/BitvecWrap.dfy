/** A hash node of a Bitvec that is too large for its divisor: when the divisor wraps to zero, rehashing leaves the
    node a hash table, and its count of values as it was. */
module WrappedDivisors {
  import opened HashSlots

  /** Setting a value ends with a table and a count, or needs more rehashes inside one another. */
  datatype Outcome = Done(h: Table, n: nat) | Deeper

  function Home(v: nat): (p: nat)
    requires v > 0
    ensures p < NINT
  {
    (v - 1) % NINT
  }

  /** The number of steps after which the probe for v meets v or an empty slot. */
  function Probe(h: Table, v: nat, d: nat): (k: nat)
    requires v > 0 && d <= NINT
    ensures d <= k <= NINT
    decreases NINT - d
  {
    if d == NINT || At(h, Slot(v, d)) == v || At(h, Slot(v, d)) == 0 then d else Probe(h, v, d + 1)
  }

  /** The guards of the branch that rehashes. */
  ghost predicate NeedsRehash(h: Table, n: nat, i: nat)
    requires i > 0
  {
    if At(h, Home(i)) == 0 then n >= NINT - 1 else n >= MXHASH && !Has(h, i)
  }

  /** sqlite3BitvecSet() on such a node, with at most the given number of rehashes inside one another. */
  function SetNode(h: Table, n: nat, i: nat, depth: nat): Outcome
    requires i > 0
    decreases depth, 0, 0
  {
    var d := Probe(h, i, 0);
    if At(h, Home(i)) == 0 && n < NINT - 1 then Done(h[Home(i) := i], n + 1)
    else if At(h, Home(i)) != 0 && At(h, Slot(i, d)) == i then Done(h, n)
    else if At(h, Home(i)) != 0 && n < MXHASH then Done(h[Slot(i, d) := i], n + 1)
    else if depth == 0 then Deeper
    else Refill(h, 0, SetNode(Empty(), n, i, depth - 1), depth - 1)
  }

  /** The loop that sets the old values again, from slot j on. */
  function Refill(values: Table, j: nat, r: Outcome, depth: nat): Outcome
    requires j <= NINT
    decreases depth, 1, NINT - j
  {
    if j == NINT || r.Deeper? then r
    else if At(values, j) == 0 then Refill(values, j + 1, r, depth)
    else Refill(values, j + 1, SetNode(r.h, r.n, At(values, j), depth), depth)
  }

  /** Every value is in the first slot of its probe. */
  ghost predicate AtHome(h: Table) {
    forall p: nat :: At(h, p) != 0 ==> Home(At(h, p)) == p
  }

  /** Two different values of the same home: v is in slot q, from j on, and w is stored already or in a slot between. */
  ghost predicate Clash(values: Table, j: nat, h: Table, q: nat, w: nat) {
    && j <= q && At(values, q) != 0 && w > 0 && w != At(values, q) && Home(w) == Home(At(values, q))
    && (At(h, Home(w)) == w || exists q': nat :: j <= q' < q && At(values, q') == w)
  }

  lemma HomeIs(v: nat)
    requires v > 0
    ensures Slot(v, 0) == Home(v)
  {
  }

  /** What the probe finds. */
  lemma {:induction false} ProbeFinds(h: Table, v: nat, d: nat)
    requires v > 0 && d <= NINT && Taken(h, v, d) && forall k: nat :: k < d ==> At(h, Slot(v, k)) != v
    ensures var k := Probe(h, v, d); Taken(h, v, k) && (forall k': nat :: k' < k ==> At(h, Slot(v, k')) != v)
    ensures var k := Probe(h, v, d); k == NINT || At(h, Slot(v, k)) == v || At(h, Slot(v, k)) == 0
    decreases NINT - d
  {
    if !(d == NINT || At(h, Slot(v, d)) == v || At(h, Slot(v, d)) == 0) {
      ProbeFinds(h, v, d + 1);
    }
  }

  lemma WhereIs(h: Table, v: nat) returns (d: nat)
    requires Probing(h) && Has(h, v)
    ensures d < NINT && At(h, Slot(v, d)) == v && Taken(h, v, d)
    ensures forall p: nat :: At(h, p) == v ==> p == Slot(v, d)
  {
    assert Reached(h, v);
    d :| d < NINT && At(h, Slot(v, d)) == v && Taken(h, v, d);
  }

  /** A value is found exactly if it is stored, also when the rest of the table has no empty slot. */
  lemma FoundIs(h: Table, i: nat)
    requires i > 0 && (Probing(h) || AtHome(h))
    ensures At(h, Slot(i, Probe(h, i, 0))) == i <==> Has(h, i)
    ensures At(h, Home(i)) == 0 ==> !Has(h, i)
  {
    hide Slot, Home, Probing, Probe;
    var k := Probe(h, i, 0);
    HomeIs(i);
    ProbeFinds(h, i, 0);
    if Has(h, i) {
      var p: nat :| At(h, p) == i;
      if AtHome(h) {
        assert At(h, Slot(i, 0)) == i;
      } else {
        var d := WhereIs(h, i);
        assert k <= d;
      }
    }
  }

  /** Where the guards do not ask for a rehash, the call ends and the value is stored. */
  lemma WithoutRehash(h: Table, n: nat, i: nat, depth: nat)
    requires i > 0 && Probing(h) && Used(h, NINT) == n < NINT && !NeedsRehash(h, n, i)
    ensures var r := SetNode(h, n, i, depth);
      r.Done? && Probing(r.h) && Used(r.h, NINT) == r.n < NINT && forall v: nat :: Has(r.h, v) <==> Has(h, v) || v == i
  {
    hide Probing, Has, Used;
    var d := Probe(h, i, 0);
    FoundIs(h, i);
    ProbeFinds(h, i, 0);
    ProbeEnds(h, i, d);
    assert Slot(i, 0) == Home(i);
    if At(h, Home(i)) == 0 {
      Stored(h, i, 0);
    } else if At(h, Slot(i, d)) != i {
      Stored(h, i, d);
    }
  }

  /** The guards say when a call on a table of values at home rehashes. */
  lemma NodeStep(h: Table, n: nat, i: nat, depth: nat)
    requires i > 0 && AtHome(h) && n >= MXHASH
    ensures !NeedsRehash(h, n, i) ==>
      SetNode(h, n, i, depth) == if At(h, Home(i)) == 0 then Done(h[Home(i) := i], n + 1) else Done(h, n)
    ensures NeedsRehash(h, n, i) ==>
      SetNode(h, n, i, depth) ==
        if depth == 0 then Deeper else Refill(h, 0, SetNode(Empty(), n, i, depth - 1), depth - 1)
    ensures Has(h, i) <==> At(h, Home(i)) == i
  {
    FoundIs(h, i);
    if Has(h, i) {
      var p: nat :| At(h, p) == i;
      assert Home(At(h, p)) == p;
    }
  }

  lemma HomePut(h: Table, i: nat)
    requires i > 0 && AtHome(h)
    ensures AtHome(h[Home(i) := i]) && At(h[Home(i) := i], Home(i)) == i
    ensures forall p: nat :: p != Home(i) ==> At(h[Home(i) := i], p) == At(h, p)
  {
    var h': Table := h[Home(i) := i];
    forall p: nat
      ensures At(h', p) == if p == Home(i) then i else At(h, p)
    {
    }
  }

  /** Two values of one home among those to be set again make the loop go deeper. */
  lemma {:induction false} ClashDeeper(values: Table, j: nat, h: Table, n: nat, depth: nat, q: nat, w: nat)
    requires j <= NINT && AtHome(h) && n >= MXHASH && Clash(values, j, h, q, w)
    ensures Refill(values, j, Done(h, n), depth) == Deeper
    decreases depth, 1, NINT - j
  {
    var v := At(values, j);
    if v != 0 {
      NodeStep(h, n, v, depth);
      if NeedsRehash(h, n, v) {
        HomeDeeper(h, n, v, depth);
      } else if At(h, Home(v)) == 0 {
        HomePut(h, v);
        ClashDeeper(values, j + 1, h[Home(v) := v], n + 1, depth, q, w);
      } else {
        ClashDeeper(values, j + 1, h, n, depth, q, w);
      }
    } else {
      ClashDeeper(values, j + 1, h, n, depth, q, w);
    }
  }

  /** On a table of values at home a rehash needs another one, at any depth. */
  lemma {:induction false} HomeDeeper(h: Table, n: nat, i: nat, depth: nat)
    requires i > 0 && AtHome(h) && n >= MXHASH && NeedsRehash(h, n, i)
    ensures SetNode(h, n, i, depth) == Deeper
    decreases depth, 0, 0
  {
    hide Home, Slot, Refill, SetNode, Probe;
    NodeStep(h, n, i, depth);
    if depth > 0 {
      FirstAgain(h, n, i, depth - 1);
      if n < NINT - 1 {
        ClashDeeper(h, 0, Empty()[Home(i) := i], n + 1, depth - 1, Home(i), i);
      }
    }
  }

  /** The first value after the table was cleared: it is stored at home, or the count alone asks for another rehash. */
  lemma {:induction false} FirstAgain(values: Table, n: nat, i: nat, depth: nat)
    requires i > 0 && n >= MXHASH
    ensures n >= NINT - 1 ==> Refill(values, 0, SetNode(Empty(), n, i, depth), depth) == Deeper
    ensures n < NINT - 1 ==> SetNode(Empty(), n, i, depth) == Done(Empty()[Home(i) := i], n + 1)
    ensures AtHome(Empty()[Home(i) := i]) && At(Empty()[Home(i) := i], Home(i)) == i
    decreases depth, 0, 1
  {
    EmptyTable();
    assert forall p: nat :: At(Empty(), p) == 0;
    NodeStep(Empty(), n, i, depth);
    HomePut(Empty(), i);
    if n >= NINT - 1 {
      HomeDeeper(Empty(), n, i, depth);
    }
  }

  /** A value away from its home means two values with the same home. */
  lemma {:induction false} FindClash(h: Table, v: nat, run: nat) returns (a: nat, b: nat)
    requires Probing(h) && Used(h, NINT) < NINT && Has(h, v) && run > 0 && Taken(h, v, run) && At(h, Home(v)) != v
    ensures Has(h, a) && Has(h, b) && a != b && Home(a) == Home(b)
    decreases NINT - run
  {
    hide Slot, Home, Probing, Reached, Used;
    ProbeEnds(h, v, run);
    HomeIs(v);
    var w := At(h, Home(v));
    HomeIs(w);
    if Home(w) == Home(v) {
      a, b := v, w;
    } else {
      var d := WhereIs(h, w);
      assert Slot(w, d) == Home(v);
      forall k: nat | k < d + run
        ensures At(h, Slot(w, k)) != 0
      {
        if k >= d {
          SlotShift(w, d, v, k - d);
        }
      }
      ProbeEnds(h, w, d + run);
      a, b := FindClash(h, w, d + run);
    }
  }

  lemma SlotShift(w: nat, d: nat, v: nat, k: nat)
    requires w > 0 && v > 0 && Slot(w, d) == Home(v)
    ensures Slot(w, d + k) == Slot(v, k)
  {
  }

  lemma SomeClash(h: Table, t: Table) returns (q: nat, w: nat)
    requires Probing(h) && Used(h, NINT) < NINT && !AtHome(h)
    ensures Clash(h, 0, t, q, w)
  {
    hide Home, Slot, Probing, Used, Reached;
    var p: nat :| At(h, p) != 0 && Home(At(h, p)) != p;
    var v := At(h, p);
    HomeIs(v);
    var d := WhereIs(h, v);
    var a, b := FindClash(h, v, d);
    var x: nat, y: nat :| At(h, x) == a && At(h, y) == b;
    q, w := if x < y then y else x, if x < y then a else b;
  }

  lemma DepthStep(h: Table, n: nat, i: nat, depth: nat)
    requires i > 0 && NeedsRehash(h, n, i)
    requires At(h, Slot(i, Probe(h, i, 0))) == i <==> Has(h, i)
    ensures SetNode(h, n, i, depth) ==
      if depth == 0 then Deeper else Refill(h, 0, SetNode(Empty(), n, i, depth - 1), depth - 1)
  {
    hide Home, Slot, Probe, Refill, Has;
  }

  /** Setting a value on such a node ends exactly if the guards do not ask for a rehash. */
  lemma SetEnds(h: Table, n: nat, i: nat)
    requires i > 0 && Probing(h) && Used(h, NINT) == n < NINT
    ensures (exists depth: nat :: SetNode(h, n, i, depth).Done?) <==> !NeedsRehash(h, n, i)
  {
    if NeedsRehash(h, n, i) {
      forall depth: nat
        ensures SetNode(h, n, i, depth) == Deeper
      {
        RehashDeeper(h, n, i, depth);
      }
    } else {
      WithoutRehash(h, n, i, 0);
    }
  }

  lemma RehashDeeper(h: Table, n: nat, i: nat, depth: nat)
    requires i > 0 && Probing(h) && Used(h, NINT) == n < NINT && NeedsRehash(h, n, i)
    ensures SetNode(h, n, i, depth) == Deeper
  {
    hide Home, Slot, Probing, Used, Clash, SetNode, Refill;
    FoundIs(h, i);
    DepthStep(h, n, i, depth);
    if AtHome(h) {
      HomeDeeper(h, n, i, depth);
    } else if depth > 0 {
      FirstAgain(h, n, i, depth - 1);
      if n < NINT - 1 {
        var q, w := SomeClash(h, Empty()[Home(i) := i]);
        ClashDeeper(h, 0, Empty()[Home(i) := i], n + 1, depth - 1, q, w);
      }
    }
  }
}
