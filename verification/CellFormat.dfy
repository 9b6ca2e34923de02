/** The format of a cell: what fillInCell() writes, what the parsers make of it, and how much of a
    payload is kept on the page. */
module CellFormat {
  import opened Bytes
  import opened Varints
  import opened PageCells
  import opened PtrMap
  import Multiples

  /** The kinds of btree page, by what their cells hold. */
  datatype CellKind = TableLeaf | TableInterior | IndexLeaf | IndexInterior {
    /** childPtrSize */
    function ChildSize(): nat {
      if TableInterior? || IndexInterior? then 4 else 0
    }
  }

  /** Limits computed from the usable size in lockBtree(). */
  function MinLocal(usable: nat): int {
    (usable - 12) * 32 / 255 - 23
  }

  function MaxLocal(kind: CellKind, usable: nat): int {
    if kind.TableLeaf? then usable - 35 else (usable - 12) * 64 / 255 - 23
  }

  predicate Usable(usable: nat) {
    480 <= usable <= 0x1_0000
  }

  lemma LimitsOrdered(kind: CellKind, usable: nat)
    requires Usable(usable)
    ensures 0 < MinLocal(usable) < MaxLocal(kind, usable) <= usable - 35
  {
  }

  /** How much of a payload of n bytes stays on the page. */
  function LocalSize(kind: CellKind, usable: nat, n: nat): (k: nat)
    requires Usable(usable)
    ensures k <= n && k <= MaxLocal(kind, usable)
    ensures k < n ==> MinLocal(usable) <= k
  {
    LimitsOrdered(kind, usable);
    var min, max := MinLocal(usable), MaxLocal(kind, usable);
    if n <= max then n
    else
      var surplus := min + (n - min) % (usable - 4);
      if surplus <= max then surplus else min
  }

  /** Bytes left unused on the overflow pages if k of n bytes stay on the page. */
  function Unused(usable: nat, n: nat, k: nat): nat
    requires usable > 4 && k < n
  {
    (usable - 4) - 1 - (n - k - 1) % (usable - 4)
  }

  /** No admissible choice wastes less space on overflow pages. */
  lemma SpillWastesLeast(kind: CellKind, usable: nat, n: nat, k: nat)
    requires Usable(usable) && n > MaxLocal(kind, usable) && MinLocal(usable) <= k <= MaxLocal(kind, usable)
    ensures LocalSize(kind, usable, n) < n
    ensures Unused(usable, n, LocalSize(kind, usable, n)) <= Unused(usable, n, k)
  {
    LimitsOrdered(kind, usable);
    SurplusOr(kind, usable, n);
    hide LocalSize, MinLocal, MaxLocal, Unused, Mark;
    var o: nat, min: nat := usable - 4, MinLocal(usable);
    var q, r := Split(o, n - min + 2);
    var s := min + r;
    MarkStep(o, q);
    LocalIs(kind, usable, n, q, r);
    if k < s {
      UnusedIs(usable, n, k, q, s - k);
    } else {
      NotNegative(o, q, n, k, s);
      UnusedIs(usable, n, k, q - 1, s - k + o);
    }
    if s <= MaxLocal(kind, usable) {
      NotNegative(o, q, n, s, s);
      UnusedIs(usable, n, s, q - 1, o);
    } else {
      UnusedIs(usable, n, min, q, r);
    }
  }

  lemma SurplusOr(kind: CellKind, usable: nat, n: nat)
    requires Usable(usable) && n > MaxLocal(kind, usable)
    ensures LocalSize(kind, usable, n) <= MaxLocal(kind, usable)
  {
  }

  lemma LocalIs(kind: CellKind, usable: nat, n: nat, q: nat, r: nat)
    requires Usable(usable) && n > MaxLocal(kind, usable) && r < usable - 4
    requires n - MinLocal(usable) + 2 == Mark(usable - 4, q) + r
    ensures var s := MinLocal(usable) + r;
      LocalSize(kind, usable, n) == if s <= MaxLocal(kind, usable) then s else MinLocal(usable)
  {
    LimitsOrdered(kind, usable);
    MarksAt(usable - 4, q, r);
  }

  /** If less than a full page would be moved, there is a full page. */
  lemma NotNegative(o: nat, q: nat, n: nat, k: nat, s: nat)
    requires k >= s && n > k && n - s + 2 == Mark(o, q)
    ensures q > 0
  {
  }

  /** The space left on the overflow pages, if n - k bytes fill q of them and t bytes of another. */
  lemma UnusedIs(usable: nat, n: nat, k: nat, q: nat, t: nat)
    requires usable > 4 && k < n && 1 <= t <= usable - 4 && n - k + 2 == Mark(usable - 4, q) + t
    ensures Unused(usable, n, k) == usable - 4 - t
  {
    MarksAt(usable - 4, q, t - 1);
  }

  /** Whatever its bytes: a cell of a table leaf fits an empty page, and two of any other kind do. */
  lemma CellSizeBound(kind: CellKind, usable: nat, d: seq<byte>, p: nat)
    requires Usable(usable)
    ensures var size := Parsed(kind, usable, d, p).size;
      0 < size && if kind.TableLeaf? then 2 + size <= usable - 8 else 2 * (2 + size) <= usable - 12
  {
    hide LocalSize, Length, Integer, Small;
  }

  // ---- how many cells fit a page -------------------------------------------------------------------

  /** The bytes that a payload of n bytes takes on an interior page of an index: pointer, child, size, what stays local,
      and the number of an overflow page if there is one. */
  function Taken(usable: nat, n: nat): nat
    requires Usable(usable)
  {
    var local := LocalSize(IndexInterior, usable, n);
    2 + 4 + |Varint(n)| + local + if local < n then 4 else 0
  }

  lemma SizeBytes(n: nat)
    requires n < 0x8000_0000
    ensures |Varint(n)| <= 5 && (n >= 0x1000_0000 ==> |Varint(n)| == 5)
  {
    if n >= 128 {
      var v := n / 128;
      PowersOf7();
      FlaggedLength(v, 4);
      if n >= 0x1000_0000 {
        assert |Flagged(v / 128 / 128 / 128)| == 1;
        assert |Flagged(v / 128 / 128)| == 2;
        assert |Flagged(v / 128)| == 3;
      }
    }
  }

  /** No payload takes more than the largest local size and fifteen bytes, and one takes as much. */
  lemma MostTaken(usable: nat) returns (n: nat)
    requires Usable(usable)
    ensures forall m: nat :: m < 0x8000_0000 ==> Taken(usable, m) <= MaxLocal(IndexInterior, usable) + 15
    ensures n < 0x8000_0000 && Taken(usable, n) == MaxLocal(IndexInterior, usable) + 15
  {
    LimitsOrdered(IndexInterior, usable);
    forall m: nat | m < 0x8000_0000
      ensures Taken(usable, m) <= MaxLocal(IndexInterior, usable) + 15
    {
      SizeBytes(m);
    }
    var min, max, o := MinLocal(usable), MaxLocal(IndexInterior, usable), usable - 4;
    var q := 0x1000_0000 / o + 1;
    Multiples.DivExact(o, q, max - min);
    n := min + (q * o + (max - min));
    WholePages(o, q);
    SizeBytes(n);
  }

  lemma WholePages(o: nat, q: nat)
    requires 476 <= o <= 0x1_0000 && q == 0x1000_0000 / o + 1
    ensures 0x1000_0000 <= q * o <= 0x1000_0000 + o
  {
    assert 0x1000_0000 == 0x1000_0000 / o * o + 0x1000_0000 % o;
    assert q * o == 0x1000_0000 / o * o + o;
  }

  /** The largest local size is chosen so that four cells fit any page, as the file format says of the fraction 64 of
      255. They do exactly if four of the largest do, which is so up to 8192 usable bytes, and not from 9192 on; three
      always fit. */
  lemma MinimumFanOut(usable: nat)
    requires Usable(usable)
    ensures (forall n: nat :: n < 0x8000_0000 ==> 4 * Taken(usable, n) <= usable - 12)
      <==> 4 * (MaxLocal(IndexInterior, usable) + 15) <= usable - 12
    ensures usable <= 8192 ==> 4 * (MaxLocal(IndexInterior, usable) + 15) <= usable - 12
    ensures usable >= 9192 ==> 4 * (MaxLocal(IndexInterior, usable) + 15) > usable - 12
    ensures forall n: nat :: n < 0x8000_0000 ==> 3 * Taken(usable, n) <= usable - 12
  {
    hide Taken, LocalSize;
    var n := MostTaken(usable);
    assert 4 * Taken(usable, n) == 4 * (MaxLocal(IndexInterior, usable) + 15);
  }

  // ---- parsing -------------------------------------------------------------------------------------

  /** CellInfo: the key, the size of the payload, how much of it is in the cell and where, and the
      size of the cell. */
  datatype Info = Info(key: nat, payload: nat, local: nat, at: nat, size: nat)

  /** The cell at p of d. */
  function Parsed(kind: CellKind, usable: nat, d: seq<byte>, p: nat): (info: Info)
    requires Usable(usable)
    ensures p + kind.ChildSize() < info.at
    ensures kind.TableInterior? || info.at - p + info.local <= info.size
    ensures kind.TableInterior? ==> p + info.size == info.at
  {
    var h := p + kind.ChildSize();
    if kind.TableInterior? then
      Info(Integer(d, h), 0, 0, h + Length(d, h), 4 + Length(d, h))
    else
      var n := Small(d, h);
      var k := h + Length(d, h);
      var at := if kind.TableLeaf? then k + Length(d, k) else k;
      var key := if kind.TableLeaf? then Integer(d, k) else n;
      var local := LocalSize(kind, usable, n);
      Info(key, n, local, at, if local < n then at - p + local + 4 else if at - p + n < 4 then 4 else at - p + n)
  }

  /** btreeParseCellPtr(), btreeParseCellPtrIndex() and btreeParseCellPtrNoPayload(). */
  method ParseCell(kind: CellKind, usable: nat, d: seq<byte>, p: nat) returns (info: Info)
    requires Usable(usable) && Parsed(kind, usable, d, p).at <= |d|
    ensures info == Parsed(kind, usable, d, p)
  {
    var iter := p + kind.ChildSize();
    if kind.TableInterior? {
      var key, next := ReadKey(d, iter);
      return Info(key, 0, 0, next, 4 + (next - iter));
    }
    var n, next := ReadSize(d, iter);
    iter := next;
    var key := n;
    if kind.TableLeaf? {
      key, iter := ReadKey(d, iter);
    }
    if n <= MaxLocal(kind, usable) {
      var size := n + (iter - p);
      if size < 4 {
        size := 4;
      }
      info := Info(key, n, n, iter, size);
    } else {
      info := AdjustForOverflow(kind, usable, key, n, iter, p);
    }
  }

  /** btreeParseCellAdjustSizeForOverflow() */
  method AdjustForOverflow(kind: CellKind, usable: nat, key: nat, n: nat, at: nat, p: nat) returns (info: Info)
    requires Usable(usable) && n > MaxLocal(kind, usable) && p <= at
    ensures LocalSize(kind, usable, n) < n
    ensures info == Info(key, n, LocalSize(kind, usable, n), at, at - p + LocalSize(kind, usable, n) + 4)
  {
    LimitsOrdered(kind, usable);
    var surplus := MinLocal(usable) + (n - MinLocal(usable)) % (usable - 4);
    var local := if surplus <= MaxLocal(kind, usable) then surplus else MinLocal(usable);
    info := Info(key, n, local, at, at + local - p + 4);
  }

  /** cellSizePtr() and cellSizePtrNoPayload(): the size found without a full parse is the size found
      by one, whatever the bytes are. */
  method CellSize(kind: CellKind, usable: nat, d: seq<byte>, p: nat) returns (size: nat)
    requires Usable(usable) && Parsed(kind, usable, d, p).at <= |d|
    ensures size == Parsed(kind, usable, d, p).size
  {
    var iter := p + kind.ChildSize();
    if kind.TableInterior? {
      iter := SkipInteger(d, iter);
      return iter - p;
    }
    size, iter := ReadSize(d, iter);
    if kind.TableLeaf? {
      iter := SkipInteger(d, iter);
    }
    if size <= MaxLocal(kind, usable) {
      size := size + (iter - p);
      if size < 4 {
        size := 4;
      }
    } else {
      LimitsOrdered(kind, usable);
      var min := MinLocal(usable);
      var local := min + (size - min) % (usable - 4);
      if local > MaxLocal(kind, usable) {
        local := min;
      }
      size := local + 4 + (iter - p);
    }
  }

  /** Moves past an integer without reading it. */
  method SkipInteger(d: seq<byte>, p: nat) returns (next: nat)
    requires p + Length(d, p) <= |d|
    ensures next == p + Length(d, p)
  {
    var end := p + 9;
    next := p + 1;
    while d[next - 1] >= 0x80 && next < end
      invariant p < next <= end && Length(d, p) == LengthFrom(d, p, next - p)
      decreases end - next
    {
      next := next + 1;
    }
  }

  /** xCellSize, for the cells of one kind. */
  function SizeOf(kind: CellKind, usable: nat): seq<byte> -> nat
    requires Usable(usable)
  {
    c => Parsed(kind, usable, c, 0).size
  }

  /** xCellSize as the page code uses it looks at nothing but the cell. */
  lemma CellSizeIsLocal(kind: CellKind, usable: nat)
    requires Usable(usable)
    ensures Local(SizeOf(kind, usable))
  {
    forall c: seq<byte>, rest: seq<byte> | Parsed(kind, usable, c, 0).size == |c|
      ensures Parsed(kind, usable, c + rest, 0).size == |c|
    {
      SameHeader(kind, usable, c, c + rest, 0);
    }
  }

  /** Parsing depends on the header only. */
  lemma SameHeader(kind: CellKind, usable: nat, c: seq<byte>, d: seq<byte>, p: nat)
    requires Usable(usable) && Parsed(kind, usable, c, p).at <= |c| && c <= d
    ensures Parsed(kind, usable, d, p) == Parsed(kind, usable, c, p)
  {
    hide Integer, Length, Small, LocalSize;
    var h := p + kind.ChildSize();
    SameInteger(c, d, h);
    if kind.TableLeaf? {
      SameInteger(c, d, h + Length(c, h));
    }
  }

  lemma SameInteger(c: seq<byte>, d: seq<byte>, p: nat)
    requires c <= d && p + Length(c, p) <= |c|
    ensures Length(d, p) == Length(c, p) && Integer(d, p) == Integer(c, p) && Small(d, p) == Small(c, p)
  {
    SameLength(c, d, p, 1);
    ValueSame(d, p, c, p, Length(c, p));
    if Length(c, p) == 9 {
      ValueSame(d, p, c, p, 8);
    }
  }

  lemma {:induction false} SameLength(c: seq<byte>, d: seq<byte>, p: nat, i: nat)
    requires c <= d && 1 <= i <= 9 && p + LengthFrom(c, p, i) <= |c|
    ensures LengthFrom(d, p, i) == LengthFrom(c, p, i)
    decreases 9 - i
  {
    if i < 9 && Nth(c, p, i - 1) >= 128 {
      SameLength(c, d, p, i + 1);
    }
  }

  // ---- what is written is parsed -------------------------------------------------------------------

  /** The header that fillInCell() writes after the child pointer. */
  function Header(kind: CellKind, key: nat, n: nat): seq<byte> {
    if kind.TableLeaf? then Varint(n) + Varint(key) else Varint(n)
  }

  /** *(u64*)&nKey */
  function AsUnsigned(key: int): nat
    requires -0x8000_0000_0000_0000 <= key < 0x8000_0000_0000_0000
  {
    if key < 0 then key + TWO64 else key
  }

  /** *(i64*)&iKey */
  function AsSigned(key: nat): int {
    if key >= 0x8000_0000_0000_0000 then key - TWO64 else key
  }

  lemma KeyBack(key: int)
    requires -0x8000_0000_0000_0000 <= key < 0x8000_0000_0000_0000
    ensures AsSigned(AsUnsigned(key)) == key && AsUnsigned(key) < TWO64
  {
  }

  /** The parser recovers key, payload size, local size and cell size from a header written for them. */
  lemma ParsesBack(kind: CellKind, usable: nat, key: nat, n: nat, d: seq<byte>, p: nat)
    requires Usable(usable) && !kind.TableInterior? && key < TWO64 && n < TWO32
    requires StartsAt(d, p + kind.ChildSize(), Header(kind, key, n))
    ensures var i := Parsed(kind, usable, d, p);
      (&& i.payload == n && i.local == LocalSize(kind, usable, n)
       && i.key == (if kind.TableLeaf? then key else n)
       && i.at == p + kind.ChildSize() + |Header(kind, key, n)|)
  {
    hide Varint, Length, Integer, Small, LocalSize, StartsAt;
    var h := p + kind.ChildSize();
    if kind.TableLeaf? {
      StartsSplit(d, h, Varint(n), Varint(key));
      ReadsBack(key, d, h + |Varint(n)|);
    }
    ReadsBack(n, d, h);
  }

  lemma StartsSplit(d: seq<byte>, p: nat, a: seq<byte>, b: seq<byte>)
    requires StartsAt(d, p, a + b)
    ensures StartsAt(d, p, a) && StartsAt(d, p + |a|, b)
  {
    var all := d[p .. p + |a| + |b|];
    assert d[p .. p + |a|] == all[..|a|] && d[p + |a| .. p + |a| + |b|] == all[|a|..];
  }

  lemma StartsJoin(d: seq<byte>, p: nat, a: seq<byte>, b: seq<byte>)
    requires StartsAt(d, p, a) && StartsAt(d, p + |a|, b)
    ensures StartsAt(d, p, a + b)
  {
    assert d[p .. p + |a| + |b|] == d[p .. p + |a|] + d[p + |a| .. p + |a| + |b|];
  }

  lemma CopyStarts(d: seq<byte>, p: nat, src: seq<byte>, from: nat, n: nat)
    requires p + n <= |d| && from + n <= |src|
    ensures StartsAt(Copy(d, p, src, from, n), p, src[from .. from + n])
  {
    var e := Copy(d, p, src, from, n);
    assert e[p .. p + n] == src[from .. from + n];
  }

  /** What a write does not touch stays. */
  lemma StartsKept(d: seq<byte>, e: seq<byte>, p: nat, a: seq<byte>)
    requires StartsAt(d, p, a) && |d| == |e| && forall q: nat :: p <= q < p + |a| ==> e[q] == d[q]
    ensures StartsAt(e, p, a)
  {
    assert e[p .. p + |a|] == d[p .. p + |a|];
  }
}
