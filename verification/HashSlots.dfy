/** The open-addressed table of a Bitvec: 124 slots, linear probing, zero for an empty slot. */
module HashSlots {

  const NINT := 124

  /** A table with so many values is split when one collides. */
  const MXHASH := 62

  type Table = h: seq<nat> | |h| == NINT witness seq(NINT, _ => 0)

  /** The slot probed for value v after d steps. */
  function Slot(v: nat, d: nat): (p: nat)
    requires v > 0
    ensures p < NINT
  {
    ((v - 1) % NINT + d) % NINT
  }

  lemma NextSlot(v: nat, d: nat)
    requires v > 0
    ensures Slot(v, d + 1) == (Slot(v, d) + 1) % NINT
  {
  }

  /** Every slot is probed. */
  lemma SomeStep(v: nat, p: nat) returns (d: nat)
    requires v > 0 && p < NINT
    ensures d < NINT && Slot(v, d) == p
  {
    var home := (v - 1) % NINT;
    d := if p >= home then p - home else p + NINT - home;
  }

  function At(h: Table, p: nat): nat {
    if p < NINT then h[p] else 0
  }

  /** Every slot probed in the first d steps for v is taken. */
  ghost predicate Taken(h: Table, v: nat, d: nat)
    requires v > 0
  {
    forall k: nat :: k < d ==> At(h, Slot(v, k)) != 0
  }

  /** The value is found by probing. */
  ghost predicate Reached(h: Table, v: nat)
    requires v > 0
  {
    exists d: nat :: d < NINT && At(h, Slot(v, d)) == v && Taken(h, v, d)
  }

  ghost predicate Has(h: Table, v: nat) {
    v > 0 && exists p: nat :: At(h, p) == v
  }

  /** Every value stored is found by probing, and is stored once. */
  ghost predicate Probing(h: Table) {
    && (forall v: nat :: Has(h, v) ==> Reached(h, v))
    && (forall p: nat, q: nat :: At(h, p) == At(h, q) != 0 ==> p == q)
  }

  /** Taken slots among the first n. */
  function Used(h: Table, n: nat): nat {
    if n == 0 then 0 else Used(h, n - 1) + if At(h, n - 1) != 0 then 1 else 0
  }

  lemma {:induction false} SomeEmpty(h: Table, n: nat) returns (p: nat)
    requires Used(h, n) < n
    ensures p < n && At(h, p) == 0
  {
    if At(h, n - 1) == 0 {
      p := n - 1;
    } else {
      p := SomeEmpty(h, n - 1);
    }
  }

  lemma {:induction false} UsedPut(h: Table, n: nat, p: nat, v: nat)
    requires p < NINT && At(h, p) == 0 && v > 0
    ensures Used(h[p := v], n) == Used(h, n) + if p < n then 1 else 0
  {
    if n > 0 {
      UsedPut(h, n - 1, p, v);
    }
  }

  lemma {:induction false} UsedNone(n: nat)
    ensures Used(Empty(), n) == 0
  {
    if n > 0 {
      UsedNone(n - 1);
    }
  }

  function Empty(): Table {
    seq(NINT, _ => 0)
  }

  /** A probe that has not met v nor an empty slot goes on; one that meets an empty slot is done. */
  lemma NotFound(h: Table, v: nat, d: nat)
    requires Probing(h) && v > 0 && Taken(h, v, d)
    requires forall k: nat :: k < d ==> At(h, Slot(v, k)) != v
    ensures At(h, Slot(v, d)) == 0 ==> !Has(h, v)
  {
  }

  /** A probe ends within NINT steps if a slot is empty. */
  lemma ProbeEnds(h: Table, v: nat, d: nat)
    requires v > 0 && Taken(h, v, d) && Used(h, NINT) < NINT
    ensures d < NINT
  {
    var p := SomeEmpty(h, NINT);
    var k := SomeStep(v, p);
    assert At(h, Slot(v, k)) == 0;
  }

  /** Storing a new value in the empty slot its probe arrives at. */
  lemma Stored(h: Table, v: nat, d: nat)
    requires Probing(h) && v > 0 && Taken(h, v, d) && d < NINT && At(h, Slot(v, d)) == 0 && !Has(h, v)
    ensures var h' := h[Slot(v, d) := v];
      Probing(h') && (forall w: nat :: Has(h', w) <==> Has(h, w) || w == v) && Used(h', NINT) == Used(h, NINT) + 1
  {
    var s := Slot(v, d);
    var h': Table := h[s := v];
    UsedPut(h, NINT, s, v);
    assert forall p: nat :: At(h', p) == if p == s then v else At(h, p);
    assert At(h', s) == v;
    forall w: nat
      ensures Has(h', w) <==> Has(h, w) || w == v
    {
      if Has(h, w) {
        var p: nat :| At(h, p) == w;
        assert At(h', p) == w;
      }
    }
    forall w: nat | Has(h', w)
      ensures Reached(h', w)
    {
      if w == v {
        assert Taken(h', v, d);
      } else {
        var d0: nat :| d0 < NINT && At(h, Slot(w, d0)) == w && Taken(h, w, d0);
        assert At(h', Slot(w, d0)) == w && Taken(h', w, d0);
      }
    }
  }

  lemma EmptyTable()
    ensures Probing(Empty()) && Used(Empty(), NINT) == 0 && forall v: nat :: !Has(Empty(), v)
  {
    UsedNone(NINT);
    assert forall p: nat :: At(Empty(), p) == 0;
  }
}
