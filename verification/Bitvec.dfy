/** A set of page numbers in three representations: a bitmap, a hash table, or sub-bitmaps. */
module Bitvecs {
  import opened HashSlots
  import opened WrappedDivisors

  const NBIT := 3968
  const NPTR := 62

  /** The largest size whose divisor can be computed in 32 bits. */
  const MAX_SIZE := 0x1_0000_0000 - NPTR

  // ---- bitmaps -----------------------------------------------------------------------------------

  type Bitmap = b: seq<bv8> | |b| == 496 witness seq(496, _ => 0)

  function Mask(k: nat): bv8
    requires k < 8
  {
    1 << k
  }

  predicate TestIn(x: bv8, k: nat)
    requires k < 8
  {
    x & Mask(k) != 0
  }

  function SetIn(x: bv8, k: nat): bv8
    requires k < 8
  {
    x | Mask(k)
  }

  function ClearIn(x: bv8, k: nat): bv8
    requires k < 8
  {
    x & !Mask(k)
  }

  lemma MaskSet(x: bv8, k: nat, j: nat)
    requires k < 8 && j < 8
    ensures TestIn(SetIn(x, k), j) <==> j == k || TestIn(x, j)
  {
  }

  lemma MaskClear(x: bv8, k: nat, j: nat)
    requires k < 8 && j < 8
    ensures TestIn(ClearIn(x, k), j) <==> j != k && TestIn(x, j)
  {
  }

  lemma MaskNone(j: nat)
    requires j < 8
    ensures !TestIn(0, j)
  {
  }

  lemma MaskBits(x: bv8, k: nat, j: nat)
    requires k < 8 && j < 8
    ensures TestIn(SetIn(x, k), j) <==> j == k || TestIn(x, j)
    ensures TestIn(ClearIn(x, k), j) <==> j != k && TestIn(x, j)
    ensures !TestIn(0, j)
  {
    hide TestIn, SetIn, ClearIn;
    MaskSet(x, k, j);
    MaskClear(x, k, j);
    MaskNone(j);
  }

  /** Bit i, counted from 0. */
  predicate Bit(b: Bitmap, i: nat) {
    i < NBIT && TestIn(b[i / 8], i % 8)
  }

  function WithBit(b: Bitmap, i: nat): Bitmap
    requires i < NBIT
  {
    b[i / 8 := SetIn(b[i / 8], i % 8)]
  }

  function WithoutBit(b: Bitmap, i: nat): Bitmap
    requires i < NBIT
  {
    b[i / 8 := ClearIn(b[i / 8], i % 8)]
  }

  function NoBits(): Bitmap {
    seq(496, _ => 0)
  }

  lemma BitSet(b: Bitmap, i: nat)
    requires i < NBIT
    ensures forall j: nat :: Bit(WithBit(b, i), j) <==> Bit(b, j) || j == i
  {
    hide TestIn, SetIn, ClearIn;
    forall j: nat
      ensures Bit(WithBit(b, i), j) <==> Bit(b, j) || j == i
    {
      if j < NBIT {
        MaskBits(b[i / 8], i % 8, j % 8);
      }
    }
  }

  lemma BitCleared(b: Bitmap, i: nat)
    requires i < NBIT
    ensures forall j: nat :: Bit(WithoutBit(b, i), j) <==> Bit(b, j) && j != i
  {
    hide TestIn, SetIn, ClearIn;
    forall j: nat
      ensures Bit(WithoutBit(b, i), j) <==> Bit(b, j) && j != i
    {
      if j < NBIT {
        MaskBits(b[i / 8], i % 8, j % 8);
      }
    }
  }

  lemma NothingSet()
    ensures forall j: nat :: !Bit(NoBits(), j)
  {
    hide TestIn, SetIn, ClearIn;
    forall j: nat
      ensures !Bit(NoBits(), j)
    {
      if j < NBIT {
        MaskBits(0, 0, j % 8);
      }
    }
  }

  // ---- splitting -----------------------------------------------------------------------------------

  /** iDivisor, in 32-bit arithmetic. */
  function Divisor(size: nat): nat {
    (size + NPTR - 1) % 0x1_0000_0000 / NPTR
  }

  /** The sub-bitmaps have room for every bit exactly when the sum does not wrap; if it wraps the
      divisor is zero, which says that the bits are not split at all. */
  lemma DivisorFits(size: nat)
    requires NBIT < size < 0x1_0000_0000
    ensures size <= MAX_SIZE <==> size <= NPTR * Divisor(size)
    ensures size <= MAX_SIZE ==> 0 < Divisor(size) < size
    ensures size > MAX_SIZE ==> Divisor(size) == 0
  {
  }

  function Bin(i: nat, d: nat): nat
    requires i > 0 && d > 0
  {
    (i - 1) / d
  }

  /** The number within its sub-bitmap. */
  function Off(i: nat, d: nat): nat
    requires i > 0 && d > 0
  {
    (i - 1) % d + 1
  }

  lemma BinFits(x: nat, d: nat)
    requires d > 0 && x < NPTR * d
    ensures x / d < NPTR && x % d < d
  {
    assert x == x / d * d + x % d;
  }

  lemma InSub(size: nat, i: nat)
    requires NBIT < size <= MAX_SIZE && 1 <= i <= size
    ensures Divisor(size) > 0 && Bin(i, Divisor(size)) < NPTR && 1 <= Off(i, Divisor(size)) <= Divisor(size)
  {
    hide Divisor;
    DivisorFits(size);
    BinFits(i - 1, Divisor(size));
  }

  lemma SamePlace(i: nat, j: nat, d: nat)
    requires i > 0 && j > 0 && d > 0 && Bin(i, d) == Bin(j, d) && Off(i, d) == Off(j, d)
    ensures i == j
  {
  }

  /** i--, in 32-bit arithmetic. */
  function Decrement(i: nat): nat {
    (i + 0xFFFF_FFFF) % 0x1_0000_0000
  }

  class Bitvec {
    const size: nat
    var nSet: nat
    var divisor: nat
    var bitmap: Bitmap
    var hash: Table
    var sub: seq<Bitvec?>
    ghost var elems: set<nat>
    ghost var Repr: set<Bitvec>

    ghost predicate Valid()
      reads this, Repr
      decreases size
    {
      && this in Repr && size < 0x1_0000_0000
      && (forall i <- elems :: 1 <= i <= size)
      && if size <= NBIT then
           divisor == 0 && Repr == {this} && forall i: nat :: i > 0 ==> (i in elems <==> Bit(bitmap, i - 1))
         else if divisor == 0 then Repr == {this} && HashOk(hash, nSet, elems)
         else
           && size <= MAX_SIZE && divisor == Divisor(size) && |sub| == NPTR
           && (forall k: nat :: k < NPTR && sub[k] != null ==>
                 (&& sub[k] in Repr && sub[k].Repr <= Repr && this !in sub[k].Repr
                  && sub[k].size == divisor && divisor < size && sub[k].Valid()))
           && (forall j: nat, k: nat :: j < k < NPTR && sub[j] != null && sub[k] != null ==> sub[j].Repr !! sub[k].Repr)
           && forall i: nat :: 1 <= i <= size ==> (i in elems <==> Holds(sub, i, divisor))
    }

    static ghost predicate HashOk(h: Table, n: nat, elems: set<nat>) {
      Probing(h) && Used(h, NINT) == n < NINT && forall i: nat :: i in elems <==> Has(h, i)
    }

    /** Bit i is set in its sub-bitmap. */
    static ghost predicate Holds(sub: seq<Bitvec?>, i: nat, d: nat)
      requires i > 0 && d > 0
      reads sub
    {
      Bin(i, d) < |sub| && sub[Bin(i, d)] != null && Off(i, d) in sub[Bin(i, d)].elems
    }

    /** sqlite3BitvecCreate() */
    constructor (size: nat)
      requires size < 0x1_0000_0000
      ensures Valid() && fresh(Repr) && elems == {} && this.size == size
    {
      this.size := size;
      nSet, divisor := 0, 0;
      bitmap, hash, sub := NoBits(), Empty(), [];
      elems, Repr := {}, {this};
      new;
      NothingSet();
      EmptyTable();
    }

    /** Where bit i of a split node is. */
    lemma Descend(i: nat)
      requires Valid() && divisor != 0 && 1 <= i <= size
      ensures divisor == Divisor(size) && |sub| == NPTR && NBIT < size <= MAX_SIZE
      ensures Bin(i, divisor) < NPTR && 1 <= Off(i, divisor) <= divisor < size
      ensures sub[Bin(i, divisor)] == null ==> i !in elems
      ensures sub[Bin(i, divisor)] != null ==>
        (&& sub[Bin(i, divisor)].Valid() && sub[Bin(i, divisor)].size == divisor
         && (i in elems <==> Off(i, divisor) in sub[Bin(i, divisor)].elems))
    {
      InSub(size, i);
      DivisorFits(size);
    }

    lemma Bounds()
      requires Valid()
      ensures size < 0x1_0000_0000 && forall i <- elems :: 1 <= i <= size
    {
    }

    /** sqlite3BitvecTestNotNull() */
    method Test(i0: nat) returns (r: bool)
      requires Valid() && i0 < 0x1_0000_0000
      ensures r <==> i0 in elems
    {
      hide Valid;
      Bounds();
      var i: nat := Decrement(i0);
      if i >= size {
        return false;
      }
      var p: Bitvec := this;
      while p.divisor != 0
        invariant p.Valid() && i < p.size && (i0 in elems <==> i + 1 in p.elems)
        decreases p.size
      {
        p.Descend(i + 1);
        var bin := i / p.divisor;
        i := i % p.divisor;
        if p.sub[bin] == null {
          return false;
        }
        p := p.sub[bin];
      }
      r := p.TestHere(i);
    }

    /** The end of the test, on the node that stores the bit itself. */
    method TestHere(i0: nat) returns (r: bool)
      requires Valid() && divisor == 0 && i0 < size
      ensures r <==> i0 + 1 in elems
    {
      if size <= NBIT {
        r := TestIn(bitmap[i0 / 8], i0 % 8);
      } else {
        var h := i0 % NINT;
        var i := i0 + 1;
        ghost var d := 0;
        while hash[h] != 0
          invariant h == Slot(i, d) && Taken(hash, i, d)
          invariant forall k: nat :: k < d ==> At(hash, Slot(i, k)) != i
          decreases NINT - d
        {
          ProbeEnds(hash, i, d);
          if hash[h] == i {
            assert At(hash, h) == i;
            return true;
          }
          NextSlot(i, d);
          h := (h + 1) % NINT;
          d := d + 1;
        }
        NotFound(hash, i, d);
        r := false;
      }
    }

    /** The call ends: see WrappedDivisors.SetEnds(). */
    ghost predicate CanSet(i: nat)
      requires i > 0
      reads this
    {
      size <= MAX_SIZE || !NeedsRehash(hash, nSet, i)
    }

    /** sqlite3BitvecSet() */
    method Set(i: nat)
      requires Valid() && 1 <= i <= size && CanSet(i)
      modifies Repr
      ensures Valid() && fresh(Repr - old(Repr)) && elems == old(elems) + {i}
      decreases size, 3
    {
      if size <= NBIT {
        BitSet(bitmap, i - 1);
        bitmap := WithBit(bitmap, i - 1);
        elems := elems + {i};
      } else if divisor != 0 {
        SetInSub(i);
      } else {
        SetInHash(i);
      }
    }

    /** The bit is passed on to its sub-bitmap, which is created if need be. */
    method SetInSub(i: nat)
      requires Valid() && 1 <= i <= size <= MAX_SIZE && divisor != 0
      modifies Repr
      ensures Valid() && fresh(Repr - old(Repr)) && elems == old(elems) + {i} && divisor == old(divisor)
      decreases size, 0
    {
      Descend(i);
      var bin := (i - 1) / divisor;
      if sub[bin] == null {
        AddSub(bin);
      }
      Descend(i);
      var kid := sub[bin];
      SetInKid(i, kid);
    }

    method SetInKid(i: nat, kid: Bitvec)
      requires Valid() && 1 <= i <= size <= MAX_SIZE && divisor == Divisor(size) > 0 && |sub| == NPTR
      requires size > NBIT && Bin(i, divisor) < NPTR && sub[Bin(i, divisor)] == kid && 1 <= Off(i, divisor) <= divisor
      requires kid.Valid() && kid.size == divisor < size && kid in Repr && kid.Repr <= Repr && this !in kid.Repr
      modifies Repr
      ensures Valid() && fresh(Repr - old(Repr)) && elems == old(elems) + {i} && divisor == old(divisor)
      decreases size, 0, 0
    {
      hide Bin, Off, Divisor, HashOk, Bit, NeedsRehash;
      ghost var bin := Bin(i, divisor);
      forall k: nat | k < NPTR && k != bin && sub[k] != null
        ensures sub[k].Repr !! kid.Repr && sub[k] !in kid.Repr
      {
        assert sub[if k < bin then k else bin].Repr !! sub[if k < bin then bin else k].Repr;
      }
      kid.Set(Off(i, divisor));
      forall x: nat | 1 <= x <= size
        ensures Holds(sub, x, divisor) <==> old(Holds(sub, x, divisor)) || x == i
      {
        InSub(size, x);
        if Bin(x, divisor) == bin && Off(x, divisor) == Off(i, divisor) {
          SamePlace(x, i, divisor);
        }
      }
      Repr := Repr + kid.Repr;
      elems := elems + {i};
    }

    method AddSub(bin: nat)
      requires Valid() && divisor != 0 && bin < NPTR && bin < |sub| && sub[bin] == null
      modifies this
      ensures Valid() && fresh(Repr - old(Repr)) && elems == old(elems) && divisor == old(divisor)
      ensures |sub| == |old(sub)| && sub[bin] != null && fresh(sub[bin])
    {
      hide Bin, Off, Divisor, HashOk, Bit;
      DivisorFits(size);
      var kid := new Bitvec(divisor);
      sub := sub[bin := kid];
      Repr := Repr + kid.Repr;
    }

    method SetInHash(i: nat)
      requires Valid() && 1 <= i <= size && divisor == 0 && size > NBIT && CanSet(i)
      modifies Repr
      ensures Valid() && fresh(Repr - old(Repr)) && elems == old(elems) + {i}
      decreases size, 2
    {
      var h := (i - 1) % NINT;
      ghost var d := 0;
      if hash[h] == 0 {
        if nSet >= NINT - 1 {
          Rehash(i);
          return;
        }
      } else {
        var found;
        found, h, d := FindSpot(i);
        if found {
          return;
        }
        if nSet >= MXHASH {
          Rehash(i);
          return;
        }
      }
      Store(i, h, d);
    }

    /** The search for a value or for a free spot, after a collision. */
    method FindSpot(i: nat) returns (found: bool, h: nat, ghost d: nat)
      requires Valid() && 1 <= i <= size && divisor == 0 && size > NBIT && hash[(i - 1) % NINT] != 0
      ensures found ==> i in elems
      ensures !found ==> i !in elems && d < NINT && h == Slot(i, d) && hash[h] == 0 && Taken(hash, i, d)
    {
      h := (i - 1) % NINT;
      d := 0;
      found := false;
      while hash[h] != 0
        invariant h == Slot(i, d) && Taken(hash, i, d)
        invariant forall k: nat :: k < d ==> At(hash, Slot(i, k)) != i
        decreases NINT - d
      {
        ProbeEnds(hash, i, d);
        if hash[h] == i {
          assert At(hash, h) == i;
          found := true;
          return;
        }
        NextSlot(i, d);
        h := h + 1;
        if h >= NINT {
          h := 0;
        }
        d := d + 1;
      }
      NotFound(hash, i, d);
      ProbeEnds(hash, i, d);
    }

    /** bitvec_set_end: the value goes into the free slot h. */
    method Store(i: nat, h: nat, ghost d: nat)
      requires Valid() && 1 <= i <= size && divisor == 0 && size > NBIT && nSet < NINT - 1
      requires d < NINT && h == Slot(i, d) && hash[h] == 0 && Taken(hash, i, d) && i !in elems
      modifies this
      ensures Valid() && Repr == old(Repr) && elems == old(elems) + {i}
    {
      Stored(hash, i, d);
      nSet := nSet + 1;
      hash := hash[h := i];
      elems := elems + {i};
    }

    /** The table is split into sub-bitmaps. */
    method Rehash(i: nat)
      requires Valid() && 1 <= i <= size <= MAX_SIZE && divisor == 0 && size > NBIT
      modifies Repr
      ensures Valid() && fresh(Repr - old(Repr)) && elems == old(elems) + {i}
      decreases size, 1
    {
      hide Valid, Probing, Has;
      HashFacts();
      var values := hash;
      SplitEmpty();
      SetInSub(i);
      var j := 0;
      while j < NINT
        invariant j <= NINT && Valid() && divisor != 0 && fresh(Repr - old(Repr))
        invariant elems == {i} + Prefix(values, j)
      {
        if values[j] != 0 {
          assert At(values, j) == values[j];
          SetInSub(values[j]);
        }
        j := j + 1;
      }
      AllValues(values);
    }

    lemma HashFacts()
      requires Valid() && divisor == 0 && size > NBIT
      ensures this in Repr && forall v: nat :: v in elems <==> Has(hash, v)
      ensures forall j: nat :: At(hash, j) != 0 ==> 1 <= At(hash, j) <= size
      ensures Probing(hash) && Used(hash, NINT) < NINT
    {
      forall j: nat | At(hash, j) != 0
        ensures 1 <= At(hash, j) <= size
      {
        assert Has(hash, At(hash, j));
      }
    }

    /** The node holds no table any more, and no sub-bitmaps yet. */
    method SplitEmpty()
      requires Valid() && divisor == 0 && NBIT < size <= MAX_SIZE
      modifies this
      ensures Valid() && divisor != 0 && Repr == old(Repr) && elems == {}
    {
      DivisorFits(size);
      hash := Empty();
      sub := seq(NPTR, _ => null);
      divisor := Divisor(size);
      elems := {};
    }

    /** sqlite3BitvecClear() */
    method Clear(i: nat)
      requires Valid() && 1 <= i <= size
      modifies Repr
      ensures Valid() && Repr == old(Repr) && elems == old(elems) - {i}
      decreases size
    {
      if divisor != 0 {
        Descend(i);
        var kid := sub[(i - 1) / divisor];
        if kid != null {
          ClearInKid(i, kid);
        }
      } else if size <= NBIT {
        BitCleared(bitmap, i - 1);
        bitmap := WithoutBit(bitmap, i - 1);
        elems := elems - {i};
      } else {
        ClearInHash(i);
      }
    }

    method ClearInKid(i: nat, kid: Bitvec)
      requires Valid() && 1 <= i <= size <= MAX_SIZE && divisor == Divisor(size) > 0 && |sub| == NPTR
      requires size > NBIT && Bin(i, divisor) < NPTR && sub[Bin(i, divisor)] == kid && 1 <= Off(i, divisor) <= divisor
      requires kid.Valid() && kid.size == divisor < size && kid in Repr && kid.Repr <= Repr && this !in kid.Repr
      modifies Repr
      ensures Valid() && Repr == old(Repr) && elems == old(elems) - {i}
      decreases size, 0
    {
      ghost var bin := Bin(i, divisor);
      forall k: nat | k < NPTR && k != bin && sub[k] != null
        ensures sub[k].Repr !! kid.Repr && sub[k] !in kid.Repr
      {
        assert sub[if k < bin then k else bin].Repr !! sub[if k < bin then bin else k].Repr;
      }
      kid.Clear(Off(i, divisor));
      forall x: nat | 1 <= x <= size
        ensures Holds(sub, x, divisor) <==> old(Holds(sub, x, divisor)) && x != i
      {
        InSub(size, x);
        if Bin(x, divisor) == bin && Off(x, divisor) == Off(i, divisor) {
          SamePlace(x, i, divisor);
        }
      }
      elems := elems - {i};
    }

    /** The table is built again without the value. */
    method ClearInHash(i: nat)
      requires Valid() && 1 <= i <= size && divisor == 0 && size > NBIT
      modifies this
      ensures Valid() && Repr == old(Repr) && elems == old(elems) - {i}
    {
      hide Probing, Has;
      HashFacts();
      var values := hash;
      EmptyTable();
      hash := Empty();
      nSet := 0;
      var j := 0;
      while j < NINT
        invariant j <= NINT && Probing(hash) && Used(hash, NINT) == nSet <= Used(values, j)
        invariant forall v: nat :: Has(hash, v) <==> v in Prefix(values, j) && v != i
        modifies this`nSet, this`hash
      {
        if values[j] != 0 && values[j] != i {
          assert At(values, j) == values[j];
          NotBefore(values, j);
          UsedMono(values, j + 1, NINT);
          nSet := nSet + 1;
          Reinsert(values[j]);
        }
        j := j + 1;
      }
      AllValues(values);
      elems := elems - {i};
    }

    /** The value goes into the first free slot of its probe. */
    method Reinsert(v: nat)
      requires Probing(hash) && Used(hash, NINT) < NINT && v > 0 && !Has(hash, v)
      modifies this`hash
      ensures Probing(hash) && Used(hash, NINT) == old(Used(hash, NINT)) + 1
      ensures forall w: nat :: Has(hash, w) <==> old(Has(hash, w)) || w == v
    {
      var h := (v - 1) % NINT;
      ghost var d := 0;
      while hash[h] != 0
        invariant h == Slot(v, d) && Taken(hash, v, d) && hash == old(hash)
        decreases NINT - d
      {
        ProbeEnds(hash, v, d);
        NextSlot(v, d);
        h := h + 1;
        if h >= NINT {
          h := 0;
        }
        d := d + 1;
      }
      ProbeEnds(hash, v, d);
      Stored(hash, v, d);
      hash := hash[h := v];
    }
  }

  /** A value stored in slot j is in no earlier slot. */
  lemma NotBefore(h: Table, j: nat)
    requires Probing(h) && At(h, j) != 0
    ensures At(h, j) !in Prefix(h, j)
  {
    PrefixIs(h, j);
  }

  lemma {:induction false} UsedMono(h: Table, a: nat, b: nat)
    requires a <= b
    ensures Used(h, a) <= Used(h, b)
    decreases b
  {
    if a < b {
      UsedMono(h, a, b - 1);
    }
  }

  /** The values in the first n slots. */
  ghost function Prefix(h: Table, n: nat): set<nat> {
    if n == 0 then {} else Prefix(h, n - 1) + if At(h, n - 1) != 0 then {At(h, n - 1)} else {}
  }

  lemma {:induction false} PrefixIs(h: Table, n: nat)
    ensures forall v: nat :: v in Prefix(h, n) <==> v > 0 && exists p: nat :: p < n && At(h, p) == v
  {
    if n > 0 {
      PrefixIs(h, n - 1);
    }
  }

  lemma AllValues(h: Table)
    ensures forall v: nat :: v in Prefix(h, NINT) <==> Has(h, v)
  {
    PrefixIs(h, NINT);
  }
}
