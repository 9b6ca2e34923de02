/** Copying the pages of one database into another whose page size may be different. */
module BackupCopy {
  import opened Bytes
  import Multiples

  datatype Code = OK | DONE | BUSY | LOCKED | READONLY | FAILED(n: nat)

  /** isFatalError() */
  predicate Fatal(c: Code) {
    c != OK && c != BUSY && c != LOCKED
  }

  /** The page sizes of source and destination, and the offset of the pending byte. */
  datatype Sizes = Sizes(src: nat, dest: nat, pendingByte: nat) {
    predicate Valid() {
      && 512 <= src <= 0x1_0000 && 512 <= dest <= 0x1_0000
      && (src % dest == 0 || dest % src == 0)
      && pendingByte > 0 && pendingByte % src == 0 && pendingByte % dest == 0
    }

    /** The page of the source with the pending byte, on which no data is stored. */
    function SrcPending(): nat
      requires Valid()
    {
      pendingByte / src + 1
    }

    function DestPending(): nat
      requires Valid()
    {
      pendingByte / dest + 1
    }

    /** nCopy */
    function Run(): nat {
      if src < dest then src else dest
    }
  }

  /** The destination as its pager holds it: the content of its pages, and their number. Pages that
      have not been written read as zeros; writing a page past the end makes the database longer. */
  datatype Pages = Pages(at: map<nat, seq<byte>>, n: nat)

  function PageOf(size: nat, d: Pages, i: nat): (page: seq<byte>)
    ensures |page| == size
  {
    if i in d.at && |d.at[i]| == size then d.at[i] else seq(size, _ => 0)
  }

  function PageWritten(d: Pages, i: nat, page: seq<byte>): Pages {
    Pages(d.at[i := page], if d.n < i then i else d.n)
  }

  /** The byte of the destination file at an offset. */
  function ByteAt(size: nat, d: Pages, off: nat): byte
    requires size > 0
  {
    PageOf(size, d, off / size + 1)[off % size]
  }

  /** Start of page i. */
  function Start(size: nat, i: nat): nat
    requires i >= 1
  {
    (i - 1) * size
  }

  lemma StartIs(size: nat, i: nat)
    requires i >= 1
    ensures Start(size, i) == (i - 1) * size
  {
  }

  lemma Locate(size: nat, i: nat, r: nat)
    requires size > 0 && i >= 1 && r < size
    ensures (Start(size, i) + r) / size + 1 == i && (Start(size, i) + r) % size == r
  {
    Multiples.DivExact(size, i - 1, r);
  }

  lemma Located(size: nat, off: nat)
    requires size > 0
    ensures off == Start(size, off / size + 1) + off % size
  {
  }

  /** n bytes of data written to page i at position o. */
  function Written(size: nat, d: Pages, i: nat, o: nat, data: seq<byte>, from: nat, n: nat): Pages
    requires o + n <= size && from + n <= |data|
  {
    PageWritten(d, i, Copy(PageOf(size, d, i), o, data, from, n))
  }

  lemma WrittenAt(size: nat, d: Pages, i: nat, o: nat, data: seq<byte>, from: nat, n: nat, off: nat)
    requires o + n <= size && from + n <= |data| && size > 0 && i >= 1
    ensures var a := Start(size, i) + o;
      ByteAt(size, Written(size, d, i, o, data, from, n), off) ==
      if a <= off < a + n then data[from + (off - a)] else ByteAt(size, d, off)
    ensures Written(size, d, i, o, data, from, n).n == if d.n < i then i else d.n
  {
    hide Start, PageOf;
    Located(size, off);
    var k, r := off / size + 1, off % size;
    PartWritten(size, d, i, o, data, from, n, k, r);
    if k == i {
    } else if k < i {
      StartLe(size, k, i);
    } else {
      StartLe(size, i, k);
    }
  }

  lemma PartWritten(size: nat, d: Pages, i: nat, o: nat, data: seq<byte>, from: nat, n: nat, k: nat, r: nat)
    requires o + n <= size && from + n <= |data| && r < size
    ensures PageOf(size, Written(size, d, i, o, data, from, n), k)[r] ==
      if k == i && o <= r < o + n then data[from + (r - o)] else PageOf(size, d, k)[r]
  {
  }

  lemma StartLe(size: nat, a: nat, b: nat)
    requires 1 <= a < b
    ensures Start(size, a) + size <= Start(size, b)
  {
    Multiples.MulLe(a, b - 1, size);
  }

  // ---- one source page -----------------------------------------------------------------------------

  /** Position j of a source page is where a run of bytes to be copied starts, or past the end. */
  predicate RunStart(z: Sizes, j: nat)
    requires z.Valid()
  {
    if z.src <= z.dest then j == 0 || j >= z.src else j % z.dest == 0
  }

  /** iDest */
  function DestPage(z: Sizes, off: nat): nat
    requires z.Valid()
  {
    off / z.dest + 1
  }

  /** Position j of source page p, in the file. */
  function Offset(z: Sizes, p: nat, j: nat): nat
    requires p >= 1
  {
    Start(z.src, p) + j
  }

  /** The run of bytes starting there lies within one page of each file. */
  lemma RunFits(z: Sizes, p: nat, j: nat)
    requires z.Valid() && p >= 1 && j < z.src && RunStart(z, j)
    ensures var off := Offset(z, p, j);
      (&& off % z.src == j && j + z.Run() <= z.src && off % z.dest + z.Run() <= z.dest
       && Start(z.dest, DestPage(z, off)) + off % z.dest == off)
  {
    hide Start;
    Locate(z.src, p, j);
    var off := Start(z.src, p) + j;
    Located(z.dest, off);
    StartIs(z.src, p);
    if z.src <= z.dest {
      Multiple(z.dest, z.src);
      SmallRuns(z.src, z.dest / z.src, z.dest, p, off);
    } else {
      Multiple(z.src, z.dest);
      LargeRuns(z.dest, z.src / z.dest, z.src, p, j);
    }
  }

  /** Every byte of the run is on the same destination page. */
  lemma RunOnPage(z: Sizes, p: nat, j: nat, off: nat)
    requires z.Valid() && p >= 1 && j < z.src && RunStart(z, j) && Offset(z, p, j) <= off < Offset(z, p, j) + z.Run()
    ensures DestPage(z, off) == DestPage(z, Offset(z, p, j))
  {
    hide Start, RunStart, Offset;
    RunFits(z, p, j);
    var i := DestPage(z, Offset(z, p, j));
    Locate(z.dest, i, off - Start(z.dest, i));
  }

  /** Of two page sizes the smaller divides the larger. */
  lemma Multiple(a: nat, b: nat)
    requires a > 0 && b > 0 && (a % b == 0 || b % a == 0) && b <= a
    ensures a == a / b * b && a / b >= 1
  {
    if b < a {
      SmallRest(b, a);
    }
  }

  lemma SmallRest(b: nat, a: nat)
    requires b < a
    ensures b % a == b
  {
  }

  /** A small source page lies within one destination page. */
  lemma SmallRuns(s: nat, r: nat, d: nat, p: nat, off: nat)
    requires s > 0 && r > 0 && d == r * s && p >= 1 && off == (p - 1) * s
    ensures off % d + s <= d
  {
    var q, rest := off / d, off % d;
    assert off == q * d + rest;
    var m := p - 1 - q * r;
    assert m * s == (p - 1) * s - q * r * s;
    assert q * r * s == q * d;
    if m >= r {
      Multiples.MulLe(r, m, s);
    } else {
      Multiples.MulLe(m, r - 1, s);
      assert (r - 1) * s == r * s - s;
    }
  }

  /** A large source page is made up of destination pages. */
  lemma LargeRuns(d: nat, r: nat, s: nat, p: nat, j: nat)
    requires d > 0 && s == r * d && p >= 1 && j < s && j % d == 0
    ensures ((p - 1) * s + j) % d == 0 && j + d <= s
  {
    var t := j / d;
    assert j == t * d;
    if t >= r {
      Multiples.MulLe(r, t, d);
    }
    Multiples.MulLe(t, r - 1, d);
    assert (r - 1) * d == r * d - d;
    assert (p - 1) * s == (p - 1) * r * d;
    assert ((p - 1) * r + t) * d == (p - 1) * r * d + t * d;
    Multiples.DivExact(d, (p - 1) * r + t, 0);
  }

  /** The result of copying: the destination, and an error code. */
  datatype Outcome = Outcome(dest: Pages, rc: Code)

  /** The bytes that are rewritten: the size of the database, in the header. */
  predicate SizeField(off: nat) {
    28 <= off < 32
  }

  /** sqlite3Put4byte(&zOut[28], ...) */
  function WithSize(d: Pages, z: Sizes, lastPage: nat): Pages
    requires z.Valid()
  {
    PageWritten(d, 1, Put4(PageOf(z.dest, d, 1), 28, lastPage))
  }

  /** One memcpy() of backupOnePage(). */
  function RunCopied(z: Sizes, d: Pages, p: nat, j: nat, data: seq<byte>): Pages
    requires z.Valid() && p >= 1 && |data| == z.src && j < z.src && RunStart(z, j)
  {
    RunFits(z, p, j);
    var off := Offset(z, p, j);
    Written(z.dest, d, DestPage(z, off), off % z.dest, data, off % z.src, z.Run())
  }

  /** The loop of backupOnePage(), from position j of source page p. */
  function CopyFrom(z: Sizes, d: Pages, p: nat, j: nat, data: seq<byte>, update: bool, lastPage: nat,
                    get: nat -> Code): Outcome
    requires z.Valid() && p >= 1 && |data| == z.src && RunStart(z, j)
    decreases if j < z.src then z.src - j else 0
  {
    if j >= z.src then Outcome(d, OK)
    else
      var off := Offset(z, p, j);
      var i := DestPage(z, off);
      NextRun(z, j);
      if i == z.DestPending() then CopyFrom(z, d, p, j + z.dest, data, update, lastPage, get)
      else if get(i) != OK then Outcome(d, get(i))
      else
        var d1 := RunCopied(z, d, p, j, data);
        var d2 := if off == 0 && !update then WithSize(d1, z, lastPage) else d1;
        CopyFrom(z, d2, p, j + z.dest, data, update, lastPage, get)
  }

  lemma NextRun(z: Sizes, j: nat)
    requires z.Valid() && j < z.src && RunStart(z, j)
    ensures RunStart(z, j + z.dest) && (z.src <= z.dest ==> j == 0 && j + z.dest >= z.src)
  {
    if z.src > z.dest {
      NextMultiple(j, z.dest);
    }
  }

  lemma NextMultiple(j: nat, d: nat)
    requires d > 0 && j % d == 0
    ensures (j + d) % d == 0
  {
    assert j == j / d * d;
    assert (j / d + 1) * d == j / d * d + d;
    Multiples.DivExact(d, j / d + 1, 0);
  }

  /** backupOnePage() */
  function CopyPage(z: Sizes, d: Pages, memory: bool, p: nat, data: seq<byte>, update: bool, lastPage: nat,
                    get: nat -> Code): Outcome
    requires z.Valid() && p >= 1 && |data| == z.src
  {
    if z.src != z.dest && memory then Outcome(d, READONLY)
    else CopyFrom(z, d, p, 0, data, update, lastPage, get)
  }

  // ---- what one source page's copy does to the bytes ------------------------------------------------

  lemma SizeWritten(z: Sizes, d: Pages, lastPage: nat, off: nat)
    requires z.Valid() && !SizeField(off)
    ensures ByteAt(z.dest, WithSize(d, z, lastPage), off) == ByteAt(z.dest, d, off)
  {
    if off < z.dest {
      FirstPage(z.dest, off);
    } else {
      NotFirst(z.dest, off);
    }
  }

  lemma FirstPage(size: nat, off: nat)
    requires off < size
    ensures off / size == 0 && off % size == off
  {
  }

  lemma NotFirst(size: nat, off: nat)
    requires off >= size > 0
    ensures off / size > 0
  {
  }

  lemma RunCopiedAt(z: Sizes, d: Pages, p: nat, j: nat, data: seq<byte>, off: nat)
    requires z.Valid() && p >= 1 && |data| == z.src && j < z.src && RunStart(z, j)
    ensures ByteAt(z.dest, RunCopied(z, d, p, j, data), off) ==
      if Offset(z, p, j) <= off < Offset(z, p, j) + z.Run() && off >= Start(z.src, p) && off - Start(z.src, p) < z.src
      then data[off - Start(z.src, p)] else ByteAt(z.dest, d, off)
    ensures var i := DestPage(z, Offset(z, p, j)); RunCopied(z, d, p, j, data).n == if d.n < i then i else d.n
  {
    hide Start, ByteAt, Written, RunStart;
    RunFits(z, p, j);
    var o := Offset(z, p, j);
    WrittenAt(z.dest, d, DestPage(z, o), o % z.dest, data, o % z.src, z.Run(), off);
  }

  /** The page numbers of two bytes are in the order of the bytes. */
  lemma DestOrder(z: Sizes, a: nat, b: nat)
    requires z.Valid() && a <= b
    ensures DestPage(z, a) <= DestPage(z, b)
  {
    hide Start;
    Located(z.dest, a);
    Located(z.dest, b);
    if DestPage(z, a) > DestPage(z, b) {
      StartLe(z.dest, DestPage(z, b), DestPage(z, a));
    }
  }

  /** Two runs are on different pages of the destination. */
  lemma RunOrder(z: Sizes, p: nat, j: nat, k: nat)
    requires z.Valid() && p >= 1 && j + z.dest <= k
    ensures DestPage(z, Offset(z, p, j)) < DestPage(z, Offset(z, p, k))
  {
    hide Start;
    var a, b := Offset(z, p, j), Offset(z, p, k);
    Located(z.dest, a);
    Located(z.dest, b);
    DestOrder(z, a, b);
  }

  /** Where the copying of source page p stops, from position j on: at the first run whose destination
      page cannot be had, at the end of the page if there is none. */
  function Stop(z: Sizes, p: nat, j: nat, get: nat -> Code): (s: nat)
    requires z.Valid() && p >= 1 && RunStart(z, j)
    ensures s <= z.src && RunStart(z, s) && (j < z.src ==> j <= s)
    ensures s < z.src ==> StopsAt(z, p, s, get)
    decreases if j < z.src then z.src - j else 0
  {
    if j >= z.src then
      SourceEnds(z);
      z.src
    else
      NextRun(z, j);
      if StopsAt(z, p, j, get) then j else Stop(z, p, j + z.dest, get)
  }

  lemma SourceEnds(z: Sizes)
    requires z.Valid()
    ensures RunStart(z, z.src)
  {
    if z.src > z.dest {
      SmallRest(z.dest, z.src);
    }
  }

  predicate StopsAt(z: Sizes, p: nat, j: nat, get: nat -> Code)
    requires z.Valid() && p >= 1
  {
    DestPage(z, Offset(z, p, j)) != z.DestPending() && get(DestPage(z, Offset(z, p, j))) != OK
  }

  /** The error with which the copying stops at position s. */
  function StopCode(z: Sizes, p: nat, s: nat, get: nat -> Code): Code
    requires z.Valid() && p >= 1
  {
    if s < z.src then get(DestPage(z, Offset(z, p, s))) else OK
  }

  /** Copying stops at the end of the page exactly if every page of the destination that it needs can be had. */
  lemma {:induction false} StopIsFirst(z: Sizes, p: nat, j: nat, get: nat -> Code)
    requires z.Valid() && p >= 1 && RunStart(z, j) && j < z.src
    ensures var s := Stop(z, p, j, get);
      s == z.src <==> forall k: nat :: j <= k < z.src && RunStart(z, k) ==> !StopsAt(z, p, k, get)
    decreases z.src - j
  {
    hide StopsAt;
    NextRun(z, j);
    if !StopsAt(z, p, j, get) {
      if j + z.dest < z.src {
        StopIsFirst(z, p, j + z.dest, get);
      }
      forall k: nat | j < k < z.src && RunStart(z, k)
        ensures k >= j + z.dest
      {
        RunGap(z, j, k);
      }
    }
  }

  lemma RunGap(z: Sizes, j: nat, k: nat)
    requires z.Valid() && RunStart(z, j) && RunStart(z, k) && j < k < z.src
    ensures k >= j + z.dest
  {
    if z.src > z.dest {
      MultipleGap(z.dest, j, k);
    }
  }

  lemma MultipleGap(d: nat, j: nat, k: nat)
    requires d > 0 && j % d == 0 && k % d == 0 && j < k
    ensures k >= j + d
  {
    var a, b := j / d, k / d;
    assert j == a * d && k == b * d;
    if b <= a {
      Multiples.MulLe(b, a, d);
    }
    Multiples.MulLe(a + 1, b, d);
    assert (a + 1) * d == a * d + d;
  }

  /** Byte off of the destination is byte off of the source page p, if it is between positions j and s,
      unless it is on the destination's pending-byte page or in the size field; others are as before. */
  predicate CopiedAt(z: Sizes, d: Pages, d': Pages, p: nat, j: nat, s: nat, data: seq<byte>, off: nat)
    requires z.Valid() && p >= 1 && |data| == z.src && s <= z.src
  {
    var a := Start(z.src, p);
    && d.n <= d'.n
    && (SizeField(off) ||
        if a <= off && a + j <= off < a + s && DestPage(z, off) != z.DestPending()
        then DestPage(z, off) <= d'.n && ByteAt(z.dest, d', off) == data[off - a]
        else ByteAt(z.dest, d', off) == ByteAt(z.dest, d, off))
  }

  /** A field of four bytes in the header of the destination. */
  function Field(z: Sizes, d: Pages, o: nat): nat
    requires z.Valid() && o + 4 <= 512
  {
    Get4(PageOf(z.dest, d, 1), o)
  }

  lemma FieldSame(z: Sizes, d: Pages, d': Pages, o: nat)
    requires z.Valid() && o + 4 <= 512
    requires forall off: nat :: o <= off < o + 4 ==> ByteAt(z.dest, d', off) == ByteAt(z.dest, d, off)
    ensures Field(z, d', o) == Field(z, d, o)
  {
    forall off: nat | o <= off < o + 4
      ensures PageOf(z.dest, d', 1)[off] == PageOf(z.dest, d, 1)[off]
    {
      FirstPage(z.dest, off);
      assert ByteAt(z.dest, d', off) == ByteAt(z.dest, d, off);
    }
  }

  /** A run that does not begin at the start of the file leaves its header alone. */
  lemma RunPastHeader(z: Sizes, d: Pages, p: nat, j: nat, data: seq<byte>)
    requires z.Valid() && p >= 1 && |data| == z.src && j < z.src && RunStart(z, j) && (p > 1 || j > 0)
    ensures Offset(z, p, j) > 0 && Field(z, RunCopied(z, d, p, j, data), 28) == Field(z, d, 28)
  {
    hide ByteAt, RunCopied, Field;
    PastHeader(z, p, j);
    forall off: nat | 28 <= off < 32
      ensures ByteAt(z.dest, RunCopied(z, d, p, j, data), off) == ByteAt(z.dest, d, off)
    {
      RunCopiedAt(z, d, p, j, data, off);
    }
    FieldSame(z, d, RunCopied(z, d, p, j, data), 28);
  }

  lemma WholeMultiple(a: nat, s: nat)
    requires s > 0 && a > 0 && a % s == 0
    ensures a >= s && a / s >= 1
  {
  }

  lemma PastHeader(z: Sizes, p: nat, j: nat)
    requires z.Valid() && p >= 1 && RunStart(z, j) && j < z.src && (p > 1 || j > 0)
    ensures Offset(z, p, j) >= 512
  {
    if p > 1 {
      Multiples.MulLe(1, p - 1, z.src);
    } else {
      WholeMultiple(j, z.dest);
    }
  }

  lemma SizeSet(z: Sizes, d: Pages, v: nat)
    requires z.Valid() && v < 0x1_0000_0000
    ensures Field(z, WithSize(d, z, v), 28) == v
  {
    Get4Put4(PageOf(z.dest, d, 1), 28, v);
  }

  /** The size field after copying a page: for page 1, the number of pages of the source; for others, what it was. */
  lemma {:induction false} CopyFromSize(z: Sizes, d: Pages, p: nat, j: nat, data: seq<byte>, update: bool,
                                        lastPage: nat, get: nat -> Code)
    requires z.Valid() && p >= 1 && |data| == z.src && RunStart(z, j) && lastPage < 0x1_0000_0000
    ensures var r := CopyFrom(z, d, p, j, data, update, lastPage, get);
      && (p > 1 || j > 0 ==> Field(z, r.dest, 28) == Field(z, d, 28))
      && (p == 1 && j == 0 && r.rc == OK && !update ==> Field(z, r.dest, 28) == lastPage)
    decreases if j < z.src then z.src - j else 0
  {
    hide Start, RunCopied, WithSize, DestPage, Sizes.DestPending, RunStart, Field, Offset;
    if j < z.src {
      NextRun(z, j);
      var o := Offset(z, p, j);
      var d1 := RunCopied(z, d, p, j, data);
      var d2 := if o == 0 && !update then WithSize(d1, z, lastPage) else d1;
      FirstRun(z);
      if p > 1 || j > 0 {
        RunPastHeader(z, d, p, j, data);
      }
      SizeSet(z, d1, lastPage);
      if DestPage(z, o) == z.DestPending() {
        CopyFromSize(z, d, p, j + z.dest, data, update, lastPage, get);
      } else if get(DestPage(z, o)) == OK {
        CopyFromSize(z, d2, p, j + z.dest, data, update, lastPage, get);
      }
    }
  }

  lemma FirstRun(z: Sizes)
    requires z.Valid()
    ensures Offset(z, 1, 0) == 0 && DestPage(z, 0) != z.DestPending()
  {
    WholeMultiple(z.pendingByte, z.dest);
    FirstPage(z.dest, 0);
  }

  /** What copying a page does for whatever pages of the destination can be had. */
  lemma {:induction false} CopyFromCopies(z: Sizes, d: Pages, p: nat, j: nat, data: seq<byte>, update: bool,
                                          lastPage: nat,
                                         get: nat -> Code, off: nat)
    requires z.Valid() && p >= 1 && |data| == z.src && RunStart(z, j)
    ensures var r := CopyFrom(z, d, p, j, data, update, lastPage, get);
      var s := Stop(z, p, j, get);
      r.rc == StopCode(z, p, s, get) && CopiedAt(z, d, r.dest, p, j, s, data, off)
    decreases if j < z.src then z.src - j else 0
  {
    hide Start, ByteAt, RunCopied, WithSize, DestPage, Sizes.DestPending, RunStart, Sizes.Run;
    if j < z.src {
      NextRun(z, j);
      var o := Offset(z, p, j);
      RunReach(z, p, j);
      if o <= off < o + z.Run() {
        RunOnPage(z, p, j, off);
      }
      if DestPage(z, o) == z.DestPending() {
        CopyFromCopies(z, d, p, j + z.dest, data, update, lastPage, get, off);
      } else if get(DestPage(z, o)) == OK {
        var d1 := RunCopied(z, d, p, j, data);
        var d2 := if o == 0 && !update then WithSize(d1, z, lastPage) else d1;
        RunCopiedAt(z, d, p, j, data, off);
        if !SizeField(off) {
          SizeWritten(z, d1, lastPage, off);
        }
        CountWritten(z, d1, lastPage);
        CopyFromCopies(z, d2, p, j + z.dest, data, update, lastPage, get, off);
      }
    }
  }

  lemma RunReach(z: Sizes, p: nat, j: nat)
    requires z.Valid() && p >= 1 && j < z.src && RunStart(z, j)
    ensures z.Run() <= z.dest && z.Run() <= z.src && (j + z.Run() >= z.src || z.Run() == z.dest) && j + z.Run() <= z.src
  {
    RunFits(z, p, j);
  }

  lemma CountWritten(z: Sizes, d: Pages, lastPage: nat)
    requires z.Valid()
    ensures WithSize(d, z, lastPage).n == if d.n < 1 then 1 else d.n
  {
  }

  /** Copying writes no page at or past the one where it stops. */
  lemma {:induction false} CopyFromPages(z: Sizes, d: Pages, p: nat, j: nat, data: seq<byte>, update: bool,
                                         lastPage: nat, get: nat -> Code)
    requires z.Valid() && p >= 1 && |data| == z.src && RunStart(z, j)
    ensures var n := CopyFrom(z, d, p, j, data, update, lastPage, get).dest.n;
      var s := Stop(z, p, j, get);
      n >= d.n && (s < z.src && n > d.n ==> n < DestPage(z, Offset(z, p, s)))
    decreases if j < z.src then z.src - j else 0
  {
    hide Start, RunCopied, WithSize, DestPage, Sizes.DestPending, RunStart, Offset;
    if j < z.src {
      NextRun(z, j);
      var o := Offset(z, p, j);
      if DestPage(z, o) == z.DestPending() {
        CopyFromPages(z, d, p, j + z.dest, data, update, lastPage, get);
      } else if get(DestPage(z, o)) == OK {
        var d1 := RunCopied(z, d, p, j, data);
        var d2 := if o == 0 && !update then WithSize(d1, z, lastPage) else d1;
        RunCount(z, d, p, j, data);
        CountWritten(z, d1, lastPage);
        CopyFromPages(z, d2, p, j + z.dest, data, update, lastPage, get);
        var s := Stop(z, p, j + z.dest, get);
        if s < z.src {
          RunOrder(z, p, j, s);
        }
      }
    }
  }

  lemma RunCount(z: Sizes, d: Pages, p: nat, j: nat, data: seq<byte>)
    requires z.Valid() && p >= 1 && |data| == z.src && j < z.src && RunStart(z, j)
    ensures var i := DestPage(z, Offset(z, p, j)); i >= 1 && RunCopied(z, d, p, j, data).n == if d.n < i then i else d.n
  {
  }
}
