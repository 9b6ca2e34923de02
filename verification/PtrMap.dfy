/** Pointer-map pages, the pending-byte page and the size a database has once it is vacuumed. */
module PtrMap {
  import opened Multiples

  /** Usable bytes of a page, and the number of the page that holds the pending byte. */
  datatype Layout = Layout(usable: nat, pending: nat) {
    predicate Valid() {
      480 <= usable <= 0x1_0000 && 3 < pending < 0x1_0000_0000
    }

    /** Entries on one pointer-map page. */
    function Entries(): nat {
      usable / 5
    }

    /** Distance between pointer-map pages. */
    function Period(): nat {
      usable / 5 + 1
    }

    /** ptrmapPageno(): the pointer-map page with the entry for page pgno. */
    function MapPage(pgno: nat): nat {
      if pgno < 2 then 0
      else
        var ret := (pgno - 2) / Period() * Period() + 2;
        if ret == pending then ret + 1 else ret
    }

    predicate IsMap(pgno: nat) {
      MapPage(pgno) == pgno
    }

    /** A page that can hold a btree node, an overflow page or a free page. */
    predicate Ordinary(pgno: nat) {
      1 <= pgno && !IsMap(pgno) && pgno != pending
    }

    /** Number of ordinary pages among the first n. */
    function Count(n: nat): nat {
      if n == 0 then 0 else Count(n - 1) + if Ordinary(n) then 1 else 0
    }
  }

  // ---- counting ordinary pages -----------------------------------------------------------------

  /** Where map page number q would be but for the pending byte: 2, 2 + R, 2 + 2R, ... */
  function Mark(r: nat, q: int): int {
    2 + q * r
  }

  /** Number of marks up to page n. */
  function Marks(r: nat, n: nat): nat
    requires r > 0
  {
    if n < 2 then 0 else (n - 2) / r + 1
  }

  /** The first page from which the pending byte costs a page: where the map page is displaced by
      it, the page after. */
  function Lost(l: Layout): nat
    requires l.Valid()
  {
    if (l.pending - 2) % l.Period() == 0 then l.pending + 1 else l.pending
  }

  lemma MarkStep(r: nat, q: int)
    ensures Mark(r, 0) == 2
    ensures Mark(r, q + 1) == Mark(r, q) + r
    ensures Mark(r, q - 1) == Mark(r, q) - r
  {
  }

  lemma MarkLe(r: nat, a: int, b: int)
    requires a <= b
    ensures Mark(r, a) <= Mark(r, b)
  {
    MulLe(a, b, r);
  }

  /** n as a mark and the distance past it. */
  lemma Split(r: nat, n: nat) returns (q: nat, s: nat)
    requires r > 0 && n >= 2
    ensures n == Mark(r, q) + s && s < r && Marks(r, n) == q + 1
  {
    q, s := (n - 2) / r, (n - 2) % r;
  }

  lemma MarksAt(r: nat, q: nat, s: nat)
    requires s < r
    ensures Mark(r, q) + s >= 2 && Marks(r, Mark(r, q) + s) == q + 1
    ensures (Mark(r, q) + s - 2) % r == s
  {
    DivExact(r, q, s);
    MarkLe(r, 0, q);
  }

  lemma MapAt(l: Layout, q: nat, s: nat)
    requires l.Valid() && s < l.Period()
    ensures Mark(l.Period(), q) >= 2
    ensures l.MapPage(Mark(l.Period(), q) + s) == Mark(l.Period(), q) + if Mark(l.Period(), q) == l.pending then 1
      else 0
  {
    DivExact(l.Period(), q, s);
    MarkLe(l.Period(), 0, q);
  }

  /** The pending byte's page, s past a mark. */
  lemma LostAt(l: Layout, q: nat, s: nat)
    requires l.Valid() && s < l.Period() && l.pending == Mark(l.Period(), q) + s
    ensures Lost(l) == l.pending + if s == 0 then 1 else 0
  {
    DivExact(l.Period(), q, s);
  }

  /** Which of the pages past a mark are not ordinary. */
  lemma MarkOrNot(l: Layout, q: nat, s: nat)
    requires l.Valid() && s < l.Period()
    ensures var m := Mark(l.Period(), q);
      m >= 2 && (l.Ordinary(m + s) <==> if m == l.pending then s > 1 else s > 0 && m + s != l.pending)
  {
    MapAt(l, q, s);
  }

  /** Ordinary pages up to n, in closed form. */
  function Closed(l: Layout, n: nat): int
    requires l.Valid()
  {
    n - Marks(l.Period(), n) - if n >= Lost(l) then 1 else 0
  }

  /** The closed form of the count. */
  lemma {:induction false} CountIs(l: Layout, n: nat)
    requires l.Valid() && n >= 1
    ensures l.Count(n) == Closed(l, n)
  {
    if n == 1 {
      assert l.Count(0) == 0;
    } else {
      CountIs(l, n - 1);
      ClosedStep(l, n);
    }
  }

  lemma ClosedStep(l: Layout, n: nat)
    requires l.Valid() && n >= 2
    ensures Closed(l, n) == Closed(l, n - 1) + if l.Ordinary(n) then 1 else 0
  {
    hide Mark, Marks, Lost, Layout.Ordinary;
    var q, s := Split(l.Period(), n);
    MarksBefore(l.Period(), q, s);
    MarkOrNot(l, q, s);
    var p, w := Split(l.Period(), l.pending);
    LostAt(l, p, w);
    if p < q {
      MarkLe(l.Period(), p + 1, q);
      MarkStep(l.Period(), p);
    } else if q < p {
      MarkLe(l.Period(), q + 1, p);
      MarkStep(l.Period(), q);
    }
  }

  lemma MarksBefore(r: nat, q: nat, s: nat)
    requires s < r
    ensures Mark(r, q) >= 2 && Marks(r, Mark(r, q) + s - 1) == if s == 0 then q else q + 1
  {
    MarkLe(r, 0, q);
    if s > 0 {
      MarksAt(r, q, s - 1);
    } else if q > 0 {
      MarksAt(r, q - 1, r - 1);
      MarkStep(r, q);
    }
  }

  // ---- finalDbSize -------------------------------------------------------------------------------

  /** nPtrmap in finalDbSize(), in 32-bit unsigned arithmetic. */
  function MapPagesFreed(l: Layout, nOrig: nat, nFree: nat): nat
    requires l.Valid()
  {
    Quotient(Wrapped(nFree - nOrig + l.MapPage(nOrig) + l.Entries()), l.Entries())
  }

  function Quotient(v: nat, e: nat): nat
    requires e > 0
  {
    v / e
  }

  function Wrapped(v: int): nat {
    v % 0x1_0000_0000
  }

  /** The size before the search for an ordinary page. */
  function Guess(l: Layout, nOrig: nat, nFree: nat): int
    requires l.Valid()
  {
    var nFin := nOrig - nFree - MapPagesFreed(l, nOrig, nFree);
    if nOrig > l.pending && nFin < l.pending then nFin - 1 else nFin
  }

  /** The entries on x - 1 map pages. */
  function Run(e: nat, x: int): int {
    (x - 1) * e
  }

  /** f free pages among the last ones, of which t lie past the last map page. */
  lemma Rounded(e: nat, f: nat, t: nat) returns (x: nat, y: nat)
    requires 0 < e && t <= e
    ensures x == (f - t + e) / e && f == t + Run(e, x) + y && y < e
    ensures f < t <==> x == 0
  {
    x, y := (f - t + e) / e, (f - t + e) % e;
    assert f - t + e == x * e + y;
    assert (x - 1) * e == x * e - e;
    if x == 0 {
      assert x * e == 0;
    } else {
      MulLe(1, x, e);
    }
  }

  lemma Regroup(q: int, x: int, r: nat)
    requires r > 0
    ensures Mark(r, q) - Run(r - 1, x) - x == Mark(r, q - x) + r - 1
  {
    assert (x - 1) * (r - 1) == (x - 1) * r - (x - 1);
    assert (x - 1) * r == x * r - r;
    assert (q - x) * r == q * r - x * r;
  }

  /** Where the guess lands: past mark q - x, before the next; if there is no such mark, on page 1. */
  lemma Landing(r: nat, q: nat, x: nat, y: nat, v: int)
    requires r > 1 && y < r - 1 && v == Mark(r, q - x) + (r - 1 - y) && v >= q + 2 - x
    ensures v >= 1 && x <= q + 1 && Marks(r, v) == q + 1 - x
    ensures v > 1 ==> x <= q && Marks(r, v - 1) == q + 1 - x && (v - 2) % r != 0
  {
    if x <= q {
      MarksAt(r, q - x, r - 1 - y);
      MarksAt(r, q - x, r - 2 - y);
    } else if x == q + 1 {
      MarkStep(r, 0);
    } else {
      TooFar(r, x - q, y, v);
    }
  }

  /** Page 1 is never given up. */
  lemma TooFar(r: nat, z: nat, y: nat, v: int)
    requires r > 1 && y < r - 1 && z >= 2 && v == Mark(r, 0 - z) + (r - 1 - y)
    ensures v < 2 - z
  {
    assert (0 - z) * r == 0 - z * (r - 1) - z;
    MulLe(2, z, r - 1);
  }

  /** The 32-bit arithmetic does not wrap for a database of at most 2147483647 pages. */
  lemma NoWrap(l: Layout, nOrig: nat, nFree: nat)
    requires l.Valid() && nFree <= nOrig < 0x8000_0000
    requires nOrig - l.Entries() <= l.MapPage(nOrig) <= nOrig
    ensures MapPagesFreed(l, nOrig, nFree) == (nFree - (nOrig - l.MapPage(nOrig)) + l.Entries()) / l.Entries()
  {
    SmallMod(nFree - nOrig + l.MapPage(nOrig) + l.Entries());
  }

  lemma SmallMod(v: int)
    requires 0 <= v < 0x1_0000_0000
    ensures Wrapped(v) == v
  {
  }

  /** The position of an ordinary page past its map page. */
  lemma Position(l: Layout, n: nat) returns (q: nat, s: nat, t: nat)
    requires l.Valid() && l.Ordinary(n) && n >= 2
    ensures At(l, n, q, s) && l.MapPage(n) == n - t && 1 <= t <= l.Entries()
    ensures t == if Mark(l.Period(), q) == l.pending then s - 1 else s
  {
    q, s := Split(l.Period(), n);
    MapAt(l, q, s);
    MarkOrNot(l, q, s);
    t := n - l.MapPage(n);
  }

  /** Ordinary page n lies s past mark q. */
  predicate At(l: Layout, n: nat, q: nat, s: nat)
    requires l.Valid()
  {
    n == Mark(l.Period(), q) + s && 1 <= s < l.Period() && Marks(l.Period(), n) == q + 1
    && l.Ordinary(n)
  }

  /** The guess has the right number of ordinary pages at or before it. */
  lemma GuessCounts(l: Layout, n: nat, f: nat)
    requires l.Valid() && l.Ordinary(n) && n < 0x8000_0000 && f < l.Count(n)
    ensures 1 <= Guess(l, n, f) <= n && l.Count(Guess(l, n, f)) == l.Count(n) - f
  {
    hide Mark, Marks, Lost, Layout.Count, Run, Layout.MapPage;
    CountIs(l, n);
    if n == 1 {
      OnePage(l, f);
    } else {
      var q, s, t := Position(l, n);
      NoWrap(l, n, f);
      var x, y := Rounded(l.Entries(), f, t);
      if x == 0 {
        NoCrossing(l, n, f, q, s);
      } else if Mark(l.Period(), q) == l.pending {
        CrossingDisplaced(l, n, f, q, s, x, y);
      } else {
        Crossing(l, n, f, q, s, x, y);
      }
    }
  }

  lemma NoQuotient(v: nat, e: nat)
    requires v < e
    ensures Quotient(v, e) == 0
  {
  }

  lemma OnePage(l: Layout, f: nat)
    requires l.Valid() && f < l.Count(1)
    ensures Guess(l, 1, f) == 1 && f == 0
  {
    hide Quotient, Wrapped;
    NoQuotient(l.Entries() - 1, l.Entries());
    assert l.Count(0) == 0;
    assert l.MapPage(1) == 0;
    SmallMod(l.Entries() - 1);
  }

  /** Few free pages: the end of the file stays within the same map page's entries. */
  lemma NoCrossing(l: Layout, n: nat, f: nat, q: nat, s: nat)
    requires l.Valid() && At(l, n, q, s)
    requires if Mark(l.Period(), q) == l.pending then f < s - 1 else f < s
    requires MapPagesFreed(l, n, f) == 0
    ensures 1 <= Guess(l, n, f) <= n && l.Count(Guess(l, n, f)) == l.Count(n) - f
  {
    hide Mark, Marks, Lost, Layout.Count, Layout.MapPage, Layout.Ordinary;
    MarkOrNot(l, q, s);
    MarksAt(l.Period(), q, s - f);
    MarksAt(l.Period(), q, s - f - 1);
    CountIs(l, n);
    CountIs(l, n - f);
    CountIs(l, n - f - 1);
    var p, w := Split(l.Period(), l.pending);
    LostAt(l, p, w);
    if p < q {
      MarkLe(l.Period(), p + 1, q);
      MarkStep(l.Period(), p);
    } else if q < p {
      MarkLe(l.Period(), q + 1, p);
      MarkStep(l.Period(), q);
    }
  }

  /** The end of the file moves past x map pages. */
  lemma Crossing(l: Layout, n: nat, f: nat, q: nat, s: nat, x: nat, y: nat)
    requires l.Valid() && At(l, n, q, s) && f < l.Count(n)
    requires Mark(l.Period(), q) != l.pending
    requires x >= 1 && f == s + Run(l.Entries(), x) + y && y < l.Entries()
    requires MapPagesFreed(l, n, f) == x
    ensures 1 <= Guess(l, n, f) <= n && l.Count(Guess(l, n, f)) == l.Count(n) - f
  {
    hide Mark, Marks, Run, Layout.Count, Layout.MapPage, Layout.Ordinary;
    var v: int := n - f - x;
    MarkOrNot(l, q, s);
    CountIs(l, n);
    Regroup(q, x, l.Period());
    Landing(l.Period(), q, x, y, v);
    CountIs(l, v);
    if v > 1 {
      CountIs(l, v - 1);
    }
  }

  /** The map page of the last page is the one displaced by the pending byte. */
  lemma CrossingDisplaced(l: Layout, n: nat, f: nat, q: nat, s: nat, x: nat, y: nat)
    requires l.Valid() && At(l, n, q, s) && f < l.Count(n)
    requires Mark(l.Period(), q) == l.pending
    requires x >= 1 && f == s - 1 + Run(l.Entries(), x) + y && y < l.Entries()
    requires MapPagesFreed(l, n, f) == x
    ensures 1 <= Guess(l, n, f) <= n && l.Count(Guess(l, n, f)) == l.Count(n) - f
  {
    hide Mark, Marks, Run, Layout.Count, Layout.MapPage, Layout.Ordinary, Lost;
    var r := l.Period();
    var v: int := n - f - x;
    MarkOrNot(l, q, s);
    CountIs(l, n);
    LostAt(l, q, 0);
    Regroup(q, x, r);
    Landing(r, q, x, y, v - 1);
    MarkLe(r, q - x, q - 1);
    MarkStep(r, q);
    if x > 1 {
      MarkLe(r, q - x, q - 2);
      MarkStep(r, q - 1);
    }
    if v == l.pending {
      MarksAt(r, q, 0);
      CountIs(l, v);
    } else {
      CountIs(l, v - 1);
    }
  }

  /** finalDbSize(): the size of a vacuumed database, exactly. */
  method FinalDbSize(l: Layout, nOrig: nat, nFree: nat) returns (nFin: nat)
    requires l.Valid() && l.Ordinary(nOrig) && nOrig < 0x8000_0000 && nFree < l.Count(nOrig)
    ensures nFin == FinalSize(l, nOrig, nFree)
    ensures l.Ordinary(nFin) && nFin <= nOrig
    ensures l.Count(nFin) == l.Count(nOrig) - nFree
  {
    GuessCounts(l, nOrig, nFree);
    var nEntry := l.usable / 5;
    var nPtrmap := Quotient(Wrapped(nFree - nOrig + l.MapPage(nOrig) + nEntry), nEntry);
    var size := nOrig - nFree - nPtrmap;
    if nOrig > l.pending && size < l.pending {
      size := size - 1;
    }
    assert size == Guess(l, nOrig, nFree);
    nFin := DownToOrdinary(l, size);
    FinalSizeIs(l, nOrig, nFree, nFin);
  }

  /** The search that skips pointer-map pages and the pending-byte page. */
  method DownToOrdinary(l: Layout, start: nat) returns (n: nat)
    requires l.Valid() && start >= 1
    ensures 1 <= n <= start && l.Ordinary(n) && l.Count(n) == l.Count(start)
  {
    n := start;
    while l.IsMap(n) || n == l.pending
      invariant 1 <= n <= start && l.Count(n) == l.Count(start)
      decreases n
    {
      n := n - 1;
    }
  }

  /** The ordinary page with exactly the pages in use at or before it. */
  ghost function FinalSize(l: Layout, nOrig: nat, nFree: nat): (n: nat)
    requires l.Valid() && l.Ordinary(nOrig) && nOrig < 0x8000_0000 && nFree < l.Count(nOrig)
    ensures 1 <= n <= nOrig && l.Ordinary(n) && l.Count(n) == l.Count(nOrig) - nFree
  {
    GuessCounts(l, nOrig, nFree);
    var g: nat := Guess(l, nOrig, nFree);
    LastOrdinary(l, g)
  }

  ghost function LastOrdinary(l: Layout, n: nat): (m: nat)
    requires l.Valid() && n >= 1
    ensures 1 <= m <= n && l.Ordinary(m) && l.Count(m) == l.Count(n)
  {
    if l.Ordinary(n) then n else LastOrdinary(l, n - 1)
  }

  lemma {:induction false} CountMono(l: Layout, a: nat, b: nat)
    requires a <= b
    ensures l.Count(a) <= l.Count(b)
    ensures a < b && l.Ordinary(b) ==> l.Count(a) < l.Count(b)
    decreases b
  {
    if a < b {
      CountMono(l, a, b - 1);
    }
  }

  /** An ordinary page is known by the number of ordinary pages up to it. */
  lemma SameCount(l: Layout, a: nat, b: nat)
    requires l.Ordinary(a) && l.Ordinary(b) && l.Count(a) == l.Count(b)
    ensures a == b
  {
    CountMono(l, if a < b then a else b, if a < b then b else a);
  }

  lemma FinalSizeIs(l: Layout, nOrig: nat, nFree: nat, n: nat)
    requires l.Valid() && l.Ordinary(nOrig) && nOrig < 0x8000_0000 && nFree < l.Count(nOrig)
    requires l.Ordinary(n) && l.Count(n) == l.Count(nOrig) - nFree
    ensures n == FinalSize(l, nOrig, nFree)
  {
    GuessCounts(l, nOrig, nFree);
    SameCount(l, n, FinalSize(l, nOrig, nFree));
  }

  // ---- sets of pages -----------------------------------------------------------------------------

  /** The ordinary pages up to n. */
  ghost function Pages(l: Layout, n: nat): (s: set<nat>)
    ensures forall p :: p in s <==> 1 <= p <= n && l.Ordinary(p)
    ensures |s| == l.Count(n)
  {
    if n == 0 then {} else Pages(l, n - 1) + if l.Ordinary(n) then {n} else {}
  }

  /** The next ordinary page. */
  predicate NextOrdinary(l: Layout, n: nat, m: nat) {
    n < m && l.Ordinary(m) && l.Count(m) == l.Count(n) + 1
  }

  /** Pages between an ordinary page and the next one are pointer-map pages and the pending-byte page. */
  lemma {:induction false} SkipCount(l: Layout, n: nat, m: nat)
    requires n <= m && forall p :: n < p <= m ==> !l.Ordinary(p)
    ensures l.Count(m) == l.Count(n)
  {
    if n < m {
      SkipCount(l, n, m - 1);
    }
  }

  /** A pointer-map page, and the pending-byte page if it is next, are followed by an ordinary page. */
  lemma AfterMap(l: Layout, n: nat)
    requires l.Valid() && n >= 2 && l.IsMap(n) && n != l.pending
    ensures n + 1 == l.pending ==> l.Ordinary(n + 2)
    ensures n + 1 != l.pending ==> l.Ordinary(n + 1)
  {
    hide Mark;
    var q, s := Split(l.Period(), n);
    MapAt(l, q, s);
    MarkOrNot(l, q, s + 1);
    if s + 2 < l.Period() {
      MarkOrNot(l, q, s + 2);
    }
  }

  /** There is an ordinary page after every ordinary page. */
  lemma NextExists(l: Layout, n: nat) returns (m: nat)
    requires l.Valid() && n >= 1 && l.Ordinary(n)
    ensures NextOrdinary(l, n, m)
  {
    var a := if n + 1 == l.pending then n + 2 else n + 1;
    m := if !l.IsMap(a) then a else if a + 1 == l.pending then a + 2 else a + 1;
    ExtendSkips(l, n, m);
  }

  /** The search for the next ordinary page does not pass it. */
  lemma SkippedRoot(l: Layout, n: nat, r: nat, m: nat)
    requires NextOrdinary(l, n, m) && n < r <= m && !l.Ordinary(r) && l.Count(r - 1) == l.Count(n)
    ensures r < m && l.Count(r) == l.Count(n)
  {
    CountStep(l, r);
  }

  /** The pages skipped at the end of the file are not ordinary. */
  lemma ExtendSkips(l: Layout, n: nat, m: nat)
    requires l.Valid() && n >= 1 && l.Ordinary(n)
    requires var a := if n + 1 == l.pending then n + 2 else n + 1;
      m == if !l.IsMap(a) then a else if a + 1 == l.pending then a + 2 else a + 1
    ensures NextOrdinary(l, n, m)
  {
    hide Layout.MapPage, Layout.Count;
    var a := if n + 1 == l.pending then n + 2 else n + 1;
    if l.IsMap(a) {
      AfterMap(l, a);
    }
    SkipCount(l, n, m - 1);
    CountStep(l, m);
  }

  lemma CountStep(l: Layout, n: nat)
    requires n > 0
    ensures l.Count(n) == l.Count(n - 1) + if l.Ordinary(n) then 1 else 0
  {
  }
}
