/** The divider cells that a balance puts into the parent page: what their bytes are, and that they say what
    the cells they were made from say. */
module Dividers {
  import opened Bytes
  import opened Varints
  import opened CellFormat
  import opened OverflowChain

  /** An integer reads the same wherever its bytes are. */
  lemma IntegerSame(d: seq<byte>, p: nat, e: seq<byte>, q: nat)
    requires forall i: nat :: i < Length(d, p) ==> Nth(e, q, i) == Nth(d, p, i)
    ensures Length(e, q) == Length(d, p) && Integer(e, q) == Integer(d, p) && Small(e, q) == Small(d, p)
  {
    LengthSame(d, p, e, q, 1);
    ValueSame(e, q, d, p, Length(d, p));
    if Length(d, p) == 9 {
      ValueSame(e, q, d, p, 8);
    }
  }

  lemma {:induction false} LengthSame(d: seq<byte>, p: nat, e: seq<byte>, q: nat, i: nat)
    requires 1 <= i <= 9 && forall k: nat :: k < LengthFrom(d, p, i) ==> Nth(e, q, k) == Nth(d, p, k)
    ensures LengthFrom(e, q, i) == LengthFrom(d, p, i)
    decreases 9 - i
  {
    assert Nth(e, q, i - 1) == Nth(d, p, i - 1);
    if i < 9 && Nth(d, p, i - 1) >= 128 {
      LengthSame(d, p, e, q, i + 1);
    }
  }

  /** A cell of an interior page is what it is behind its child pointer. */
  lemma ChildApart(kind: CellKind, usable: nat, d: seq<byte>, e: seq<byte>)
    requires Usable(usable) && kind.ChildSize() == 4
    requires Parsed(kind, usable, d, 0).at <= |d| && Parsed(kind, usable, d, 0).at <= |e|
    requires forall i: nat :: 4 <= i < Parsed(kind, usable, d, 0).at ==> e[i] == d[i]
    ensures Parsed(kind, usable, e, 0) == Parsed(kind, usable, d, 0)
  {
    IntegerSame(d, 4, e, 4);
  }

  /** The cell of an index leaf, behind four bytes more, is the same cell on an interior page. */
  lemma LeafBehind(usable: nat, c: seq<byte>, e: seq<byte>)
    requires Usable(usable) && Parsed(IndexLeaf, usable, c, 0).at <= |c|
    requires Parsed(IndexLeaf, usable, c, 0).at + 4 <= |e|
    requires forall i: nat :: i < Parsed(IndexLeaf, usable, c, 0).at ==> e[i + 4] == c[i]
    ensures var i := Parsed(IndexLeaf, usable, c, 0);
      Parsed(IndexInterior, usable, e, 0) == Info(i.key, i.payload, i.local, i.at + 4,
        if i.local < i.payload then i.size + 4 else i.at + i.payload + 4)
  {
    IntegerSame(c, 0, e, 4);
  }

  /** The cell of an interior page, without its child pointer, is the same cell on an index leaf. */
  lemma LeafAhead(usable: nat, d: seq<byte>, c: seq<byte>)
    requires Usable(usable) && 4 <= |d| && Parsed(IndexInterior, usable, d, 0).at <= |d| && d[4..] <= c
    ensures var i, l := Parsed(IndexInterior, usable, d, 0), Parsed(IndexLeaf, usable, c, 0);
      l.key == i.key && l.payload == i.payload && l.local == i.local && l.at + 4 == i.at
  {
    forall k: nat | k < Length(d, 4)
      ensures Nth(c, 0, k) == Nth(d, 4, k)
    {
      assert d[4..][k] == c[k];
    }
    IntegerSame(d, 4, c, 0);
  }

  /** The cell as insertCell() stores it. */
  function Stored(c: seq<byte>, pgno: nat): (r: seq<byte>)
    requires 4 <= |c|
    ensures |r| == |c| && r[4..] == c[4..]
  {
    Put4(c, 0, pgno)
  }

  lemma IntegerBound(d: seq<byte>, p: nat)
    ensures Integer(d, p) < TWO64
  {
    PowersOf7();
    ValueBound(d, p, 8);
    ValueMono(d, p, if Length(d, p) <= 8 then Length(d, p) else 8, 8);
  }

  lemma VarintShort(v: nat)
    requires v < TWO64
    ensures |Varint(v)| <= 9
  {
    ReadsBack(v, Varint(v), 0);
  }

  lemma InteriorStays(kind: CellKind, usable: nat, cell: seq<byte>, c: seq<byte>)
    requires Usable(usable) && kind.ChildSize() == 4
    requires var i := Parsed(kind, usable, cell, 0); i.at <= i.size <= |cell| && c == cell[..i.size]
    ensures 4 <= |c|
    ensures forall pgno: nat :: Parsed(kind, usable, Stored(c, pgno), 0) == Parsed(kind, usable, cell, 0)
  {
    hide Parsed, Stored;
    ParsedRoom(kind, usable, cell);
    forall pgno: nat
      ensures Parsed(kind, usable, Stored(c, pgno), 0) == Parsed(kind, usable, cell, 0)
    {
      var r := Stored(c, pgno);
      Tails(r, c);
      ChildApart(kind, usable, cell, r);
    }
  }

  lemma ParsedRoom(kind: CellKind, usable: nat, d: seq<byte>)
    requires Usable(usable)
    ensures Parsed(kind, usable, d, 0).at > kind.ChildSize()
  {
  }

  lemma Tails(r: seq<byte>, c: seq<byte>)
    requires |r| == |c| >= 4 && r[4..] == c[4..]
    ensures forall i: nat :: 4 <= i < |c| ==> r[i] == c[i]
  {
    forall i: nat | 4 <= i < |c|
      ensures r[i] == c[i]
    {
      assert r[4..][i - 4] == c[4..][i - 4];
    }
  }

  lemma KeyStays(usable: nat, key: nat, c: seq<byte>)
    requires Usable(usable) && key < TWO64 && StartsAt(c, 4, Varint(key)) && |c| == 4 + |Varint(key)|
    ensures forall pgno: nat ::
      var i := Parsed(TableInterior, usable, Stored(c, pgno), 0); i.key == key && i.size == |c|
  {
    hide Stored, Varint;
    forall pgno: nat
      ensures var i := Parsed(TableInterior, usable, Stored(c, pgno), 0); i.key == key && i.size == |c|
    {
      var r := Stored(c, pgno);
      Tails(r, c);
      StartsKept(c, r, 4, Varint(key));
      ReadsBack(key, r, 4);
    }
  }

  lemma PastFour(before: seq<byte>, cell: seq<byte>, n: nat)
    requires |before| == 4 <= n <= |before + cell|
    ensures (before + cell)[..n][4..] == cell[..n - 4]
  {
    var u, v := (before + cell)[..n][4..], cell[..n - 4];
    forall i: nat | i < |v|
      ensures u[i] == v[i]
    {
      assert u[i] == (before + cell)[i + 4];
    }
    assert u == v;
  }

  lemma LeafStays(usable: nat, cell: seq<byte>, before: seq<byte>, c: seq<byte>)
    requires Usable(usable) && |before| == 4
    requires var i := Parsed(IndexLeaf, usable, cell, 0); i.at <= i.size <= |cell|
    requires var i := Parsed(IndexLeaf, usable, cell, 0);
      var n := if i.local < i.payload then i.size + 4 else i.at + i.payload + 4;
      n <= |before + cell| && c == (before + cell)[..n]
    ensures 4 <= |c| && |c| - 4 <= |cell|
    ensures forall pgno: nat ::
      var i, l := Parsed(IndexInterior, usable, Stored(c, pgno), 0), Parsed(IndexLeaf, usable, cell, 0);
      i == Info(l.key, l.payload, l.local, l.at + 4, |c|) && Stored(c, pgno)[4..] == cell[..|c| - 4]
  {
    hide Stored, LocalSize;
    PastFour(before, cell, |c|);
    forall pgno: nat
      ensures var i, l := Parsed(IndexInterior, usable, Stored(c, pgno), 0), Parsed(IndexLeaf, usable, cell, 0);
        i == Info(l.key, l.payload, l.local, l.at + 4, |c|) && Stored(c, pgno)[4..] == cell[..|c| - 4]
    {
      var r := Stored(c, pgno);
      Tails(r, c);
      forall i: nat | i < Parsed(IndexLeaf, usable, cell, 0).at
        ensures r[i + 4] == cell[i]
      {
        assert c[4..][i] == cell[..|c| - 4][i];
      }
      LeafBehind(usable, cell, r);
    }
  }

  /** The loop body that makes the divider after page pNew, one of siblings with cells of the given kind: from
      the last cell of the page in a table whose leaves keep the data, else from the cell at the cut. cell and
      last are the bytes from the cells on, before the four bytes in front of the cell. With interior siblings,
      the cell's own child goes to the page. */
  method MakeDivider(kind: CellKind, usable: nat, cell: seq<byte>, szCell: nat, before: seq<byte>, last: seq<byte>)
    returns (pCell: seq<byte>, right: seq<byte>)
    requires Usable(usable) && |before| == 4
    requires kind.TableLeaf? ==> Parsed(TableLeaf, usable, last, 0).at <= |last|
    requires !kind.TableLeaf? ==> var i := Parsed(kind, usable, cell, 0); i.at <= i.size == szCell <= |cell|
    ensures |pCell| >= 4
    ensures kind.TableLeaf? ==> forall pgno: nat ::
      var i := Parsed(TableInterior, usable, Stored(pCell, pgno), 0);
      i.key == Parsed(TableLeaf, usable, last, 0).key && i.size == |pCell|
    ensures kind.IndexLeaf? ==> forall pgno: nat ::
      var i, c := Parsed(IndexInterior, usable, Stored(pCell, pgno), 0), Parsed(IndexLeaf, usable, cell, 0);
      && i == Info(c.key, c.payload, c.local, c.at + 4, |pCell|)
      && Stored(pCell, pgno)[4..] == cell[..|pCell| - 4]
    ensures kind.ChildSize() == 4 ==> right == cell[..4] && |pCell| == szCell && forall pgno: nat ::
      && Parsed(kind, usable, Stored(pCell, pgno), 0) == Parsed(kind, usable, cell, 0)
      && Stored(pCell, pgno)[4..] == cell[4..szCell]
  {
    right := [];
    if kind.TableInterior? || kind.IndexInterior? {
      ParsedRoom(kind, usable, cell);
      right := cell[..4];
      pCell := cell[..szCell];
      InteriorStays(kind, usable, cell, pCell);
    } else if kind.TableLeaf? {
      var info := ParseCell(TableLeaf, usable, last, 0);
      var pTemp := new byte[13];
      IntegerBound(last, Length(last, 0));
      VarintShort(info.key);
      var n := PutVarint(pTemp, 4, info.key);
      pCell := pTemp[..4 + n];
      KeyStays(usable, info.key, pCell);
    } else {
      var sz := szCell + 4;
      if szCell == 4 {
        LeafBehind(usable, cell, before + cell);
        sz := CellSize(IndexInterior, usable, before + cell, 0);
      }
      pCell := (before + cell)[..sz];
      LeafStays(usable, cell, before, pCell);
    }
  }
}
