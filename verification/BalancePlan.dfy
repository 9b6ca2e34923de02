/** The planner of balance_nonroot(): how many sibling pages, and where to cut the cells. */
module BalancePlan {

  /** The cells being balanced: local sizes, whether divider cells stay in the leaves, and the
      bytes each sibling has beyond its header. */
  datatype Load = Load(sz: seq<nat>, leafData: bool, room: nat) {
    function N(): nat {
      |sz|
    }

    /** Bytes taken by the first i cells with their pointers. */
    function Bytes(i: nat): nat
      requires i <= |sz|
    {
      if i == 0 then 0 else Bytes(i - 1) + 2 + sz[i - 1]
    }

    /** The first cell of the page after cut c; cell c itself goes to the parent unless the tree
        keeps its data in the leaves. */
    function After(c: nat): (b: nat)
      ensures c <= b
    {
      if leafData then c else c + 1
    }

    /** Byte cost of a page that holds the cells from b up to e; negative when e comes before b. */
    function Cost(b: nat, e: nat): int
      requires e <= |sz|
    {
      Bytes(e) - Bytes(if b <= |sz| then b else |sz|)
    }

    /** A cell and its pointer fit a page; twice over where an index cell may have to be the only
        one on a page beside its divider. */
    ghost predicate Fits() {
      forall i | 0 <= i < |sz| :: 0 < sz[i] && (if leafData then 2 + sz[i] else 2 * (2 + sz[i])) <= room
    }
  }

  function First(p: Load, cnt: seq<nat>, i: nat): nat
    requires i <= |cnt|
  {
    if i == 0 then 0 else p.After(cnt[i - 1])
  }

  /** The i-th page is within the page size and, unless it is the last, followed by a cell. */
  ghost predicate PageFits(p: Load, cnt: seq<nat>, i: nat) {
    && i < |cnt|
    && First(p, cnt, i) <= cnt[i] <= p.N()
    && p.Cost(First(p, cnt, i), cnt[i]) <= p.room
    && (i + 1 < |cnt| ==> cnt[i] < p.N())
  }

  /** Cut points that spread the cells over pages none of which is too full. */
  ghost predicate Legal(p: Load, cnt: seq<nat>) {
    && cnt != [] && cnt[|cnt| - 1] == p.N()
    && forall i: nat | i < |cnt| :: PageFits(p, cnt, i)
  }

  lemma {:induction false} BytesMono(p: Load, i: nat, j: nat)
    requires i <= j <= p.N()
    ensures p.Bytes(i) + 2 * (j - i) <= p.Bytes(j)
    decreases j
  {
    if i < j {
      BytesMono(p, i, j - 1);
    }
  }

  lemma CostMono(p: Load, b: nat, b': nat, e: nat, e': nat)
    requires b <= b' && e' <= e <= p.N()
    ensures p.Cost(b', e') <= p.Cost(b, e)
  {
    BytesMono(p, e', e);
    var x, y := if b <= p.N() then b else p.N(), if b' <= p.N() then b' else p.N();
    BytesMono(p, x, y);
  }

  lemma CostSign(p: Load, b: nat, e: nat)
    requires e <= p.N()
    ensures p.Cost(b, e) > 0 <==> b < e
    ensures p.Cost(b, e) < 0 ==> e < b
  {
    if b < e {
      BytesMono(p, b, e);
    } else {
      BytesMono(p, e, if b <= p.N() then b else p.N());
    }
  }

  // ---- the first pass fills pages from the left -------------------------------------------------

  /** Page i cannot take one more cell. */
  ghost predicate Full(p: Load, cnt: seq<nat>, i: nat) {
    && i < |cnt| && cnt[i] < p.N()
    && First(p, cnt, i) < cnt[i]
    && p.Cost(First(p, cnt, i), cnt[i]) <= p.room < p.Cost(First(p, cnt, i), cnt[i] + 1)
  }

  /** No legal partition reaches further with its first pages than full pages do. */
  lemma {:induction false} GreedyAhead(p: Load, cnt: seq<nat>, other: seq<nat>, j: nat)
    requires forall i: nat | i <= j :: Full(p, cnt, i)
    requires Legal(p, other) && j < |other|
    ensures j < |cnt| && other[j] <= cnt[j]
  {
    assert Full(p, cnt, j) && PageFits(p, other, j);
    if j > 0 {
      GreedyAhead(p, cnt, other, j - 1);
    }
    if cnt[j] < other[j] {
      CostMono(p, First(p, other, j), First(p, cnt, j), other[j], cnt[j] + 1);
    }
  }

  /** Pages that were full up to the last make the partition one with the fewest pages. */
  lemma GreedyFewest(p: Load, cnt: seq<nat>, other: seq<nat>, k: nat)
    requires forall i: nat | i + 1 < k :: Full(p, cnt, i)
    requires Legal(p, other)
    ensures k <= |other|
  {
    if |other| < k {
      assert Full(p, cnt, |other| - 1);
      GreedyAhead(p, cnt, other, |other| - 1);
    }
  }

  /** When k - 1 full pages leave more than a page, k pages never suffice. */
  lemma GreedyHopeless(p: Load, cnt: seq<nat>, other: seq<nat>, k: nat)
    requires 0 < k && k - 1 <= |cnt| && forall i: nat | i + 1 < k :: Full(p, cnt, i)
    requires p.Cost(First(p, cnt, k - 1), p.N()) > p.room
    requires Legal(p, other)
    ensures k < |other|
  {
    GreedyFewest(p, cnt, other, k);
    if |other| == k {
      assert PageFits(p, other, k - 1);
      if k > 1 {
        assert Full(p, cnt, k - 2);
        GreedyAhead(p, cnt, other, k - 2);
      }
      CostMono(p, First(p, other, k - 1), First(p, cnt, k - 1), p.N(), p.N());
    }
  }

  // ---- the arrays of the planner --------------------------------------------------------------

  /** szNew[i] is the exact cost of page i. */
  ghost predicate Exact(p: Load, cnt: seq<nat>, sz: seq<int>, i: nat) {
    && i < |cnt| && i < |sz| && cnt[i] <= p.N()
    && sz[i] == p.Cost(First(p, cnt, i), cnt[i])
  }

  const MX: nat := 5  // NB+2

  ghost predicate Plan(p: Load, cnt: seq<nat>, sz: seq<int>, k: nat) {
    && 1 <= k <= MX == |cnt| == |sz|
    && cnt[k - 1] == p.N()
    && forall i: nat | i < k :: Exact(p, cnt, sz, i)
  }

  /** Moving one cut changes the cost of the two pages beside it and of no other. */
  lemma MoveCut(p: Load, cnt: seq<nat>, sz: seq<int>, k: nat, i: nat, c: nat, cnt': seq<nat>, sz': seq<int>)
    requires Plan(p, cnt, sz, k) && i + 1 < k && c <= p.N() && cnt[i + 1] <= p.N()
    requires cnt' == cnt[i := c] && |sz'| == MX
    requires sz'[i] == p.Cost(First(p, cnt, i), c) && sz'[i + 1] == p.Cost(p.After(c), cnt[i + 1])
    requires forall j: nat | j < k && j != i && j != i + 1 :: sz'[j] == sz[j]
    ensures Plan(p, cnt', sz', k)
  {
    forall j: nat | j < k ensures Exact(p, cnt', sz', j) {
      assert Exact(p, cnt, sz, j);
    }
  }

  /** What the second page gains when the last cell of the first page leaves it. */
  lemma CutLeft(p: Load, b: nat, c: nat, e: nat)
    requires 0 < c <= p.N() && e <= p.N()
    ensures p.Cost(b, c - 1) == (if b <= c - 1 then p.Cost(b, c) - (2 + p.sz[c - 1]) else p.Cost(b, c - 1))
    ensures p.Cost(p.After(c - 1), e) == p.Cost(p.After(c), e)
      + if p.leafData then 2 + p.sz[c - 1] else if c < p.N() then 2 + p.sz[c] else 0
    ensures p.Bytes(c) == p.Bytes(c - 1) + 2 + p.sz[c - 1]
  {
  }

  /** The last cell of page i, or the divider after it, moves to the next page. */
  method ShedOne(p: Load, cnt: array<nat>, sz: array<int>, i: nat, k: nat)
    requires Plan(p, cnt[..], sz[..], k) && i + 1 < k && cnt != sz as object
    requires First(p, cnt[..], i) < cnt[i]
    modifies cnt, sz
    ensures Plan(p, cnt[..], sz[..], k) && cnt[..i] == old(cnt[..i]) && cnt[i] == old(cnt[i]) - 1
  {
    ghost var c1, s1 := cnt[..], sz[..];
    assert Exact(p, c1, s1, i) && Exact(p, c1, s1, i + 1);
    CutLeft(p, First(p, c1, i), cnt[i], cnt[i + 1]);
    var x := 2 + p.sz[cnt[i] - 1];
    sz[i] := sz[i] - x;
    if !p.leafData {
      x := if cnt[i] < p.N() then 2 + p.sz[cnt[i]] else 0;
    }
    sz[i + 1] := sz[i + 1] + x;
    cnt[i] := cnt[i] - 1;
    MoveCut(p, c1, s1, k, i, cnt[i], cnt[..], sz[..]);
    assert cnt[..i] == c1[..i];
  }

  /** The first loop of the planner for page i: cells that overfill it go to the page after. */
  method Shed(p: Load, cnt: array<nat>, sz: array<int>, i: nat, k0: nat) returns (ok: bool, k: nat)
    requires Plan(p, cnt[..], sz[..], k0) && i < k0 && cnt != sz as object && p.Fits()
    modifies cnt, sz
    ensures k <= MX + 1 && cnt[..i] == old(cnt[..i])
    ensures ok ==> k0 <= k && i < k && Plan(p, cnt[..], sz[..], k) && sz[i] <= p.room
    ensures !ok ==> i == MX - 1 && p.Cost(First(p, cnt[..], i), p.N()) > p.room
  {
    k := k0;
    while sz[i] > p.room
      invariant k0 <= k && i < k <= MX && Plan(p, cnt[..], sz[..], k)
      invariant cnt[..i] == old(cnt[..i])
      decreases cnt[i]
    {
      ghost var c0, s0 := cnt[..], sz[..];
      assert Exact(p, c0, s0, i);
      CostSign(p, First(p, c0, i), cnt[i]);
      if i + 1 >= k {
        k := i + 2;
        if k > MX {
          return false, k;
        }
        sz[k - 1] := 0;
        cnt[k - 1] := p.N();
        NewPage(p, c0, s0, k, cnt[..], sz[..]);
      }
      ShedOne(p, cnt, sz, i, k);
    }
    ok := true;
  }

  lemma NewPage(p: Load, cnt: seq<nat>, sz: seq<int>, k: nat, cnt': seq<nat>, sz': seq<int>)
    requires 1 < k <= MX && Plan(p, cnt, sz, k - 1)
    requires cnt' == cnt[k - 1 := p.N()] && sz' == sz[k - 1 := 0]
    ensures Plan(p, cnt', sz', k)
  {
    forall j: nat | j < k ensures Exact(p, cnt', sz', j) {
      if j < k - 1 { assert Exact(p, cnt, sz, j); }
    }
  }

  /** The second loop of the planner for page i: cells from the page after fill it up. */
  method Pull(p: Load, cnt: array<nat>, sz: array<int>, i: nat, k: nat)
    requires Plan(p, cnt[..], sz[..], k) && i < k && cnt != sz as object && p.Fits()
    requires sz[i] <= p.room
    modifies cnt, sz
    ensures cnt[..i] == old(cnt[..i]) && Plan(p, cnt[..], sz[..], k) && sz[i] <= p.room
    ensures cnt[i] < p.N() ==> i + 1 < k && Full(p, cnt[..], i)
  {
    while cnt[i] < p.N()
      invariant Plan(p, cnt[..], sz[..], k) && sz[i] <= p.room
      invariant cnt[..i] == old(cnt[..i])
      decreases p.N() - cnt[i]
    {
      ghost var c1, s1 := cnt[..], sz[..];
      assert Exact(p, c1, s1, i) && Exact(p, c1, s1, i + 1);
      CutLeft(p, First(p, c1, i), cnt[i] + 1, cnt[i + 1]);
      var x := 2 + p.sz[cnt[i]];
      if sz[i] + x > p.room {
        CostSign(p, First(p, c1, i), cnt[i]);
        break;
      }
      PullCost(p, First(p, c1, i), cnt[i]);
      sz[i] := sz[i] + x;
      cnt[i] := cnt[i] + 1;
      if !p.leafData {
        x := if cnt[i] < p.N() then 2 + p.sz[cnt[i]] else 0;
      }
      sz[i + 1] := sz[i + 1] - x;
      MoveCut(p, c1, s1, k, i, cnt[i], cnt[..], sz[..]);
    }
  }

  /** One more cell costs its size and its pointer, also while the cost is negative. */
  lemma PullCost(p: Load, b: nat, c: nat)
    requires c < p.N()
    ensures p.Cost(b, c + 1) == p.Cost(b, c) + 2 + p.sz[c]
  {
  }

  /** The first pass: pack the cells to the left, on as many pages as that takes. */
  method PackLeft(p: Load, cnt: array<nat>, sz: array<int>, nOld: nat) returns (ok: bool, k: nat)
    requires Plan(p, cnt[..], sz[..], nOld) && cnt != sz as object && p.Fits()
    modifies cnt, sz
    ensures ok ==> LeftPacked(p, cnt[..], sz[..], k)
    ensures !ok ==> forall other | Legal(p, other) :: |other| > MX
  {
    k := nOld;
    var i := 0;
    while i < k
      invariant i <= k && Plan(p, cnt[..], sz[..], k)
      invariant forall j: nat | j < i && j + 1 < k :: Full(p, cnt[..], j)
      invariant i == k ==> sz[k - 1] <= p.room
      decreases MX - i
    {
      ghost var c0 := cnt[..];
      ok, k := Shed(p, cnt, sz, i, k);
      FullKept(p, c0, cnt[..], i);
      if !ok {
        Hopeless(p, cnt[..]);
        return;
      }
      Pull(p, cnt, sz, i, k);
      FullKept(p, c0, cnt[..], i);
      if cnt[i] >= p.N() {
        assert Exact(p, cnt[..], sz[..], i);
        k := i + 1;
        assert Plan(p, cnt[..], sz[..], k) by { Shorter(p, cnt[..], sz[..], k); }
      } else if cnt[i] <= if i > 0 then cnt[i - 1] else 0 {
        assert false;  // SQLITE_CORRUPT
      }
      i := i + 1;
    }
    ok := true;
  }

  /** The outcome of the first pass: every page but the last is full. */
  ghost predicate LeftPacked(p: Load, cnt: seq<nat>, sz: seq<int>, k: nat) {
    && Plan(p, cnt, sz, k)
    && sz[k - 1] <= p.room
    && forall j: nat | j + 1 < k :: Full(p, cnt, j)
  }

  lemma Shorter(p: Load, cnt: seq<nat>, sz: seq<int>, k: nat)
    requires 1 <= k <= MX == |cnt| == |sz| && cnt[k - 1] == p.N()
    requires exists k0 :: k <= k0 && Plan(p, cnt, sz, k0)
    ensures Plan(p, cnt, sz, k)
  {
  }

  lemma FullKept(p: Load, cnt: seq<nat>, cnt': seq<nat>, i: nat)
    requires i <= |cnt| == |cnt'| && cnt'[..i] == cnt[..i]
    ensures forall j: nat | j < i && Full(p, cnt, j) :: Full(p, cnt', j)
  {
    forall j: nat | j < i && Full(p, cnt, j) ensures Full(p, cnt', j) {
      assert cnt'[j] == cnt'[..i][j] == cnt[..i][j] == cnt[j];
      if j > 0 {
        assert cnt'[j - 1] == cnt'[..i][j - 1] == cnt[..i][j - 1];
      }
    }
  }

  lemma Hopeless(p: Load, cnt: seq<nat>)
    requires |cnt| == MX && forall j: nat | j < MX - 1 :: Full(p, cnt, j)
    requires p.Cost(First(p, cnt, MX - 1), p.N()) > p.room
    ensures forall other | Legal(p, other) :: |other| > MX
  {
    forall other | Legal(p, other) ensures |other| > MX {
      GreedyHopeless(p, cnt, other, MX);
    }
  }

  // ---- the second pass evens the pages out ------------------------------------------------------

  /** The sizes of the two pages beside cut i - 1, and what is known of the cell after the cut. */
  ghost predicate Beside(p: Load, b: nat, c: nat, e: nat, last: bool, szLeft: int, szRight: int) {
    && c < p.N() && e <= p.N()
    && szLeft == p.Cost(b, c) && szRight == p.Cost(p.After(c), e)
    && 0 < szLeft <= p.room && szRight <= p.room
    && 0 <= szRight
    && (szRight == 0 ==> !p.leafData && last && szLeft + 2 + p.sz[c - if p.leafData then 1 else 0] > p.room)
  }

  /** The loop stops with the cut at c: the page on the right has something, and one more cell would make it larger
      than the page on the left, by more than two bytes if it is the last one. A bulk load only asks for the first. */
  ghost predicate Stops(p: Load, b: nat, c: nat, e: nat, last: bool, bulk: bool) {
    && 0 < c <= p.N() && e <= p.N() && p.Cost(p.After(c), e) > 0
    && (bulk || p.Cost(p.After(c - 1), e) > p.Cost(b, c - 1) + if last then 2 else 0)
  }

  /** From c0 on to the left, c is the first place where it stops. */
  ghost predicate StopsFirst(p: Load, b: nat, c0: nat, c: nat, e: nat, last: bool, bulk: bool) {
    c <= c0 && Stops(p, b, c, e, last, bulk) && forall c': nat :: c < c' <= c0 ==> !Stops(p, b, c', e, last, bulk)
  }

  /** Cut j was moved from where packing to the left had put it, when the cut after it was in its place. */
  ghost predicate EvenCut(p: Load, packed: seq<nat>, cnt: seq<nat>, k: nat, bulk: bool, j: nat) {
    && j + 1 < k <= |cnt| == |packed|
    && StopsFirst(p, First(p, packed, j), packed[j], cnt[j], cnt[j + 1], j + 2 == k, bulk)
  }

  /** All pages but the last are full. */
  ghost predicate AllFull(p: Load, cnt: seq<nat>, k: nat) {
    0 < k <= |cnt| && cnt[k - 1] == p.N() && forall j: nat | j + 1 < k :: Full(p, cnt, j)
  }

  /** What evening out makes of the packed pages. */
  ghost predicate EvenedOut(p: Load, packed: seq<nat>, cnt: seq<nat>, k: nat, bulk: bool) {
    0 < k <= |cnt| == |packed| && cnt[k - 1] == packed[k - 1] && forall j: nat | j + 1 < k ::
      EvenCut(p, packed, cnt, k, bulk, j)
  }

  lemma EvenStart(p: Load, cnt: seq<nat>, sz: seq<int>, i: nat, k: nat)
    requires Plan(p, cnt, sz, k) && 0 < i < k && Full(p, cnt, i - 1) && sz[i] <= p.room && (i + 1 == k || sz[i] > 0)
    ensures cnt[i - 1] > 0 && Beside(p, First(p, cnt, i - 1), cnt[i - 1], cnt[i], i + 1 == k, sz[i - 1], sz[i])
  {
    assert Exact(p, cnt, sz, i) && Exact(p, cnt, sz, i - 1);
    var b, c := First(p, cnt, i - 1), cnt[i - 1];
    CostSign(p, b, c);
    CutSign(p, c, cnt[i], i + 1 == k);
    PullCost(p, b, c);
  }

  lemma BesideFacts(p: Load, b: nat, c: nat, e: nat, last: bool, szLeft: int, szRight: int)
    requires Beside(p, b, c, e, last, szLeft, szRight)
    ensures b < c < p.N() && e <= p.N() && 0 < szLeft <= p.room && 0 <= szRight <= p.room
  {
    CostSign(p, b, c);
  }

  /** One cell moves across the cut: the left page loses cell r, the right one gains cell d. */
  lemma PullOne(p: Load, b: nat, c: nat, e: nat, last: bool, bulk: bool, szLeft: int, szRight: int, r: nat, d: nat)
    requires p.Fits() && Beside(p, b, c, e, last, szLeft, szRight) && c == r + 1 && d == c - if p.leafData then 1 else 0
    requires szRight == 0 || (!bulk && szRight + p.sz[d] + 2 <= szLeft - (p.sz[r] + if last then 0 else 2))
    ensures Beside(p, b, r, e, last, szLeft - (p.sz[r] + 2), szRight + p.sz[d] + 2) && !Stops(p, b, c, e, last, bulk)
  {
    CostSign(p, b, c);
    CutLeft(p, b, c, e);
    CostSign(p, b, r);
  }

  lemma PullStop(p: Load, b: nat, c: nat, e: nat, last: bool, bulk: bool, szLeft: int, szRight: int, r: nat, d: nat)
    requires Beside(p, b, c, e, last, szLeft, szRight) && c == r + 1 && d == c - if p.leafData then 1 else 0
    requires szRight != 0 && (bulk || szRight + p.sz[d] + 2 > szLeft - (p.sz[r] + if last then 0 else 2))
    ensures Stops(p, b, c, e, last, bulk)
  {
    CostSign(p, b, c);
    CutLeft(p, b, c, e);
  }

  /** The loop that moves cells over cut i - 1 until the sizes of the two pages would cross. */
  method PullRight(p: Load, cnt: array<nat>, i: nat, k: nat, bulk: bool, szLeft0: int, szRight0: int, ghost b: nat)
    returns (szLeft: int, szRight: int)
    requires p.Fits() && 0 < i < k <= cnt.Length && cnt[i - 1] > 0
    requires Beside(p, b, cnt[i - 1], cnt[i], i + 1 == k, szLeft0, szRight0)
    modifies cnt
    ensures cnt[..] == old(cnt[..])[i - 1 := cnt[i - 1]] && b < cnt[i - 1] < p.N()
    ensures szLeft == p.Cost(b, cnt[i - 1]) && szRight == p.Cost(p.After(cnt[i - 1]), cnt[i])
    ensures 0 < szLeft <= p.room && 0 < szRight <= p.room
    ensures StopsFirst(p, b, old(cnt[i - 1]), cnt[i - 1], cnt[i], i + 1 == k, bulk)
  {
    hide Beside, Stops;
    ghost var c0, last := cnt[i - 1], i + 1 == k;
    ghost var e := cnt[i];
    szLeft, szRight := szLeft0, szRight0;
    var r: int := cnt[i - 1] - 1;
    var d: int := r + 1 - if p.leafData then 1 else 0;
    BesideFacts(p, b, cnt[i - 1], e, i + 1 == k, szLeft, szRight);
    while true
      invariant cnt[..] == old(cnt[..])[i - 1 := cnt[i - 1]] && b < cnt[i - 1] < p.N()
      invariant r + 1 == cnt[i - 1] && d == r + 1 - if p.leafData then 1 else 0
      invariant Beside(p, b, cnt[i - 1], e, i + 1 == k, szLeft, szRight)
      invariant cnt[i - 1] <= c0 && forall c': nat :: cnt[i - 1] < c' <= c0 ==> !Stops(p, b, c', e, last, bulk)
      decreases r
    {
      if szRight != 0 && (bulk || szRight + p.sz[d] + 2 > szLeft - (p.sz[r] + if i + 1 == k then 0 else 2)) {
        PullStop(p, b, cnt[i - 1], e, i + 1 == k, bulk, szLeft, szRight, r, d);
        break;
      }
      PullOne(p, b, cnt[i - 1], e, i + 1 == k, bulk, szLeft, szRight, r, d);
      szRight := szRight + p.sz[d] + 2;
      szLeft := szLeft - (p.sz[r] + 2);
      cnt[i - 1] := r;
      r := r - 1;
      d := d - 1;
      BesideFacts(p, b, cnt[i - 1], e, i + 1 == k, szLeft, szRight);
    }
    BesideCosts(p, b, cnt[i - 1], e, i + 1 == k, szLeft, szRight);
  }

  lemma BesideCosts(p: Load, b: nat, c: nat, e: nat, last: bool, szLeft: int, szRight: int)
    requires Beside(p, b, c, e, last, szLeft, szRight)
    ensures c < p.N() && e <= p.N() && szLeft == p.Cost(b, c) && szRight == p.Cost(p.After(c), e)
    ensures 0 < szLeft <= p.room && 0 <= szRight <= p.room
  {
  }

  /** Balance the two pages on either side of cut i - 1 by moving cells to the right. */
  method EvenPair(p: Load, cnt: array<nat>, sz: array<int>, i: nat, k: nat, bulk: bool)
    requires Plan(p, cnt[..], sz[..], k) && cnt != sz as object && p.Fits()
    requires 0 < i < k && Full(p, cnt[..], i - 1) && sz[i] <= p.room && (i + 1 == k || sz[i] > 0)
    modifies cnt, sz
    ensures Plan(p, cnt[..], sz[..], k)
    ensures 0 < sz[i] <= p.room && 0 < sz[i - 1] <= p.room
    ensures cnt[..] == old(cnt[..])[i - 1 := cnt[i - 1]]
    ensures StopsFirst(p, First(p, old(cnt[..]), i - 1), old(cnt[i - 1]), cnt[i - 1], cnt[i], i + 1 == k, bulk)
    ensures forall j: nat | j < k && j != i && j != i - 1 :: sz[j] == old(sz[j])
  {
    ghost var c0, s0 := cnt[..], sz[..];
    EvenStart(p, c0, s0, i, k);
    var szLeft, szRight := PullRight(p, cnt, i, k, bulk, sz[i - 1], sz[i], First(p, c0, i - 1));
    sz[i] := szRight;
    sz[i - 1] := szLeft;
    MoveCut(p, c0, s0, k, i - 1, cnt[i - 1], cnt[..], sz[..]);
  }

  /** A cut before the end leaves the page after it at worst empty, and that only in an index. */
  lemma CutSign(p: Load, c: nat, e: nat, last: bool)
    requires c < p.N() && e <= p.N() && (last ==> e == p.N())
    ensures last ==> 0 <= p.Cost(p.After(c), e)
    ensures last && p.leafData ==> 0 < p.Cost(p.After(c), e)
  {
    if last {
      CostSign(p, p.After(c), e);
    }
  }

  /** The outcome of the planner: exact sizes, no page too full, none empty. */
  ghost predicate Balanced(p: Load, cnt: seq<nat>, sz: seq<int>, k: nat) {
    && Plan(p, cnt, sz, k)
    && forall i: nat | i < k :: sz[i] <= p.room && (k > 1 ==> First(p, cnt, i) < cnt[i])
  }

  lemma EvenMore(p: Load, packed: seq<nat>, c0: seq<nat>, cnt: seq<nat>, k: nat, bulk: bool, i: nat)
    requires 0 < i < k <= |c0| == |packed| == |cnt| && cnt == c0[i - 1 := cnt[i - 1]] && c0[..i] == packed[..i]
    requires forall j: nat | i <= j && j + 1 < k :: EvenCut(p, packed, c0, k, bulk, j)
    requires StopsFirst(p, First(p, c0, i - 1), c0[i - 1], cnt[i - 1], cnt[i], i + 1 == k, bulk)
    ensures cnt[..i - 1] == packed[..i - 1]
    ensures forall j: nat | i - 1 <= j && j + 1 < k :: EvenCut(p, packed, cnt, k, bulk, j)
  {
    hide StopsFirst;
    assert c0[i - 1] == c0[..i][i - 1] == packed[i - 1];
    if i > 1 {
      assert c0[i - 2] == c0[..i][i - 2] == packed[i - 2];
    }
    forall j: nat | i - 1 <= j && j + 1 < k
      ensures EvenCut(p, packed, cnt, k, bulk, j)
    {
      assert j >= i ==> EvenCut(p, packed, c0, k, bulk, j);
    }
    assert cnt[..i - 1] == c0[..i][..i - 1];
  }

  lemma EvenedCuts(p: Load, packed: seq<nat>, cnt: seq<nat>, k: nat, bulk: bool)
    requires EvenedOut(p, packed, cnt, k, bulk) && AllFull(p, packed, k)
    ensures EvenedOut(p, packed[..k], cnt[..k], k, bulk) && AllFull(p, packed[..k], k)
  {
    hide StopsFirst;
    forall j: nat | j + 1 < k
      ensures EvenCut(p, packed[..k], cnt[..k], k, bulk, j) && Full(p, packed[..k], j)
    {
      assert EvenCut(p, packed, cnt, k, bulk, j) && Full(p, packed, j);
    }
  }

  /** Packing to the left has one outcome, and so has evening out: the plan is determined by the cells alone. */
  lemma {:induction false} PackedOnce(p: Load, a: seq<nat>, b: seq<nat>, k: nat, j: nat)
    requires j + 1 < k <= |a| && k <= |b| && forall q: nat | q + 1 < k :: Full(p, a, q) && Full(p, b, q)
    ensures a[j] == b[j]
    decreases j
  {
    assert Full(p, a, j) && Full(p, b, j);
    if j > 0 {
      PackedOnce(p, a, b, k, j - 1);
      assert Full(p, a, j - 1) && Full(p, b, j - 1);
    }
    FullOnce(p, First(p, a, j), a[j], b[j]);
    FullOnce(p, First(p, a, j), b[j], a[j]);
  }

  lemma FullOnce(p: Load, f: nat, c: nat, c': nat)
    requires f < c < p.N() && f < c' < p.N() && p.Cost(f, c) <= p.room && p.Cost(f, c' + 1) > p.room
    ensures c <= c'
  {
    if c > c' {
      CostMono(p, f, f, c, c' + 1);
    }
  }

  lemma {:induction false} PlanIsOne(p: Load, packed: seq<nat>, a: seq<nat>, b: seq<nat>, k: nat, bulk: bool, j: nat)
    requires EvenedOut(p, packed, a, k, bulk) && EvenedOut(p, packed, b, k, bulk) && j < k
    ensures a[j] == b[j]
    decreases k - j
  {
    hide Stops;
    if j + 1 < k {
      PlanIsOne(p, packed, a, b, k, bulk, j + 1);
      assert EvenCut(p, packed, a, k, bulk, j) && EvenCut(p, packed, b, k, bulk, j);
    }
  }

  method Even(p: Load, cnt: array<nat>, sz: array<int>, k: nat, bulk: bool)
    requires LeftPacked(p, cnt[..], sz[..], k) && cnt != sz as object && p.Fits()
    modifies cnt, sz
    ensures Balanced(p, cnt[..], sz[..], k) && EvenedOut(p, old(cnt[..]), cnt[..], k, bulk)
  {
    LeftPackedFits(p, cnt[..], sz[..], k);
    ghost var packed := cnt[..];
    var i := k - 1;
    while i > 0
      invariant 0 <= i < k && Plan(p, cnt[..], sz[..], k)
      invariant forall j: nat | j < i :: Full(p, cnt[..], j)
      invariant cnt[..i] == packed[..i] && cnt[k - 1] == packed[k - 1]
      invariant forall j: nat | i <= j && j + 1 < k :: EvenCut(p, packed, cnt[..], k, bulk, j)
      invariant forall j: nat | j < k :: sz[j] <= p.room
      invariant forall j: nat | i <= j < k && (j > i || i + 1 < k) :: sz[j] > 0
    {
      ghost var c0 := cnt[..];
      assert Full(p, c0, i - 1);
      EvenPair(p, cnt, sz, i, k, bulk);
      FullKept(p, c0, cnt[..], i - 1);
      EvenMore(p, packed, c0, cnt[..], k, bulk, i);
      i := i - 1;
    }
    NoneEmpty(p, cnt[..], sz[..], k);
  }

  lemma LeftPackedFits(p: Load, cnt: seq<nat>, sz: seq<int>, k: nat)
    requires LeftPacked(p, cnt, sz, k)
    ensures forall j: nat | j < k :: sz[j] <= p.room
  {
    forall j: nat | j < k ensures sz[j] <= p.room {
      assert Exact(p, cnt, sz, j);
      if j + 1 < k { assert Full(p, cnt, j); }
    }
  }

  lemma NoneEmpty(p: Load, cnt: seq<nat>, sz: seq<int>, k: nat)
    requires Plan(p, cnt, sz, k) && forall j: nat | j < k :: sz[j] <= p.room && (k > 1 ==> sz[j] > 0)
    ensures Balanced(p, cnt, sz, k)
  {
    forall i: nat | i < k && k > 1 ensures First(p, cnt, i) < cnt[i] {
      assert Exact(p, cnt, sz, i);
      CostSign(p, First(p, cnt, i), cnt[i]);
    }
  }

  // ---- the planner ------------------------------------------------------------------------------

  /** The whole computation of k, cntNew and szNew from the old siblings.  It gives up exactly when
      NB+2 pages cannot hold the cells, and otherwise uses the fewest pages that can. */
  method PlanSiblings(p: Load, cnt: array<nat>, sz: array<int>, nOld: nat, bulk: bool)
    returns (ok: bool, k: nat, ghost packed: seq<nat>)
    requires Plan(p, cnt[..], sz[..], nOld) && cnt != sz as object && p.Fits()
    modifies cnt, sz
    ensures ok <==> exists other :: Legal(p, other) && |other| <= MX
    ensures ok ==> Balanced(p, cnt[..], sz[..], k) && EvenedOut(p, packed, cnt[..], k, bulk) && AllFull(p, packed, k)
    ensures ok ==> forall other | Legal(p, other) :: k <= |other|
  {
    ok, k := PackLeft(p, cnt, sz, nOld);
    packed := [];
    if !ok {
      return;
    }
    packed := cnt[..];
    forall other | Legal(p, other) ensures k <= |other| {
      GreedyFewest(p, packed, other, k);
    }
    Even(p, cnt, sz, k, bulk);
    BalancedLegal(p, cnt[..], sz[..], k);
  }

  lemma BalancedLegal(p: Load, cnt: seq<nat>, sz: seq<int>, k: nat)
    requires Balanced(p, cnt, sz, k)
    ensures Legal(p, cnt[..k])
  {
    forall i: nat | i < k ensures PageFits(p, cnt[..k], i) {
      assert Exact(p, cnt, sz, i);
      if i + 1 < k {
        assert Exact(p, cnt, sz, i + 1);
      } else if k == 1 {
        assert First(p, cnt, 0) == 0;
      }
      assert First(p, cnt[..k], i) == First(p, cnt, i);
    }
  }

  // ---- when five pages are enough ---------------------------------------------------------------

  /** The siblings before balancing: all fit their pages but page i, and page i would without its
      overflow cells, those from lo up to hi, which would fit a page of their own. */
  ghost predicate OneOverfull(p: Load, cnt: seq<nat>, i: nat, lo: nat, hi: nat) {
    && i < |cnt| && cnt[|cnt| - 1] == p.N()
    && First(p, cnt, i) <= lo < hi <= cnt[i] <= p.N() && (i + 1 < |cnt| ==> cnt[i] < p.N())
    && p.Cost(lo, hi) <= p.room
    && p.Cost(First(p, cnt, i), cnt[i]) - p.Cost(lo, hi) <= p.room
    && forall j: nat | j < |cnt| && j != i :: PageFits(p, cnt, j)
  }

  function WithCut(cnt: seq<nat>, i: nat, c: nat): (r: seq<nat>)
    requires i < |cnt|
    ensures |r| == |cnt| + 1
    ensures forall j: nat {:trigger r[j]} | j < |r| ::
      r[j] == if j < i then cnt[j] else if j == i then c else cnt[j - 1]
  {
    cnt[..i] + [c] + cnt[i..]
  }

  /** One more cut inside page i leaves the other pages as they were. */
  lemma CutPage(p: Load, cnt: seq<nat>, i: nat, c: nat, j: nat)
    requires i < |cnt| && j < |cnt| && j != i && PageFits(p, cnt, j)
    ensures PageFits(p, WithCut(cnt, i, c), if j < i then j else j + 1)
  {
    var r := WithCut(cnt, i, c);
    var m := if j < i then j else j + 1;
    assert r[m] == cnt[j];
    if j > 0 {
      assert r[m - 1] == cnt[j - 1];
    }
  }

  /** At most two more pages take the overflow. */
  lemma TwoMorePages(p: Load, cnt: seq<nat>, i: nat, lo: nat, hi: nat) returns (other: seq<nat>)
    requires OneOverfull(p, cnt, i, lo, hi)
    ensures Legal(p, other) && |other| <= |cnt| + 2
  {
    var b := First(p, cnt, i);
    CostMono(p, b, b, cnt[i], hi);
    CostMono(p, lo, lo, cnt[i], hi);
    BytesMono(p, b, lo);
    BytesMono(p, hi, cnt[i]);
    if hi < cnt[i] {
      var c := WithCut(cnt, i, hi);
      CostMono(p, hi, p.After(hi), cnt[i], cnt[i]);
      forall j: nat | i < j < |c| ensures PageFits(p, c, j) {
        if j == i + 1 {
          assert c[i] == hi && c[i + 1] == cnt[i];
        } else {
          CutPage(p, cnt, i, hi, j - 1);
        }
      }
      forall j: nat | j < i ensures PageFits(p, c, j) {
        CutPage(p, cnt, i, hi, j);
      }
      other := HeadCut(p, c, i, lo);
    } else {
      other := HeadCut(p, cnt, i, lo);
    }
  }

  lemma HeadCut(p: Load, cnt: seq<nat>, i: nat, lo: nat) returns (other: seq<nat>)
    requires i < |cnt| && cnt[|cnt| - 1] == p.N()
    requires First(p, cnt, i) <= lo < cnt[i] <= p.N() && (i + 1 < |cnt| ==> cnt[i] < p.N())
    requires p.Cost(lo, cnt[i]) <= p.room && p.Cost(First(p, cnt, i), lo) <= p.room
    requires forall j: nat | j < |cnt| && j != i :: PageFits(p, cnt, j)
    ensures Legal(p, other) && |other| <= |cnt| + 1
  {
    if First(p, cnt, i) == lo {
      other := cnt;
      assert PageFits(p, cnt, i);
      return;
    }
    var c := if p.leafData then lo else lo - 1;
    other := WithCut(cnt, i, c);
    CostMono(p, First(p, cnt, i), First(p, cnt, i), lo, c);
    assert other[i] == c && other[i + 1] == cnt[i];
    assert First(p, other, i) == First(p, cnt, i) by {
      if i > 0 { assert other[i - 1] == cnt[i - 1]; }
    }
    forall j: nat | j < |other| ensures PageFits(p, other, j) {
      if j < i {
        CutPage(p, cnt, i, c, j);
      } else if j > i + 1 {
        CutPage(p, cnt, i, c, j - 1);
      }
    }
  }

  /** Three siblings of which one is overfull never need more pages than the planner has. */
  lemma PlannerNeverGivesUp(p: Load, cnt: seq<nat>, i: nat, lo: nat, hi: nat)
    requires OneOverfull(p, cnt, i, lo, hi) && |cnt| <= MX - 2
    ensures exists other :: Legal(p, other) && |other| <= MX
  {
    var other := TwoMorePages(p, cnt, i, lo, hi);
  }
}
