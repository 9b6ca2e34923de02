/** A payload spread over a cell and a chain of overflow pages. */
module OverflowChain {
  import opened Bytes
  import Multiples

  lemma Get4Same(d: seq<byte>, e: seq<byte>, p: nat)
    requires p + 4 <= |d| && |d| == |e| && forall q: nat :: p <= q < p + 4 ==> e[q] == d[q]
    ensures Get4(e, p) == Get4(d, p)
  {
  }

  /** Where overflow page k begins in the payload: after the local bytes and k full pages. */
  function Edge(local: nat, o: nat, k: nat): nat {
    local + k * o
  }

  lemma EdgeStep(local: nat, o: nat, k: nat)
    ensures Edge(local, o, 0) == local
    ensures Edge(local, o, k + 1) == Edge(local, o, k) + o
  {
  }

  lemma {:induction false} EdgeLe(local: nat, o: nat, a: nat, b: nat)
    requires a <= b
    ensures Edge(local, o, a) <= Edge(local, o, b)
    ensures a < b ==> Edge(local, o, a) + o <= Edge(local, o, b)
    decreases b
  {
    hide Edge;
    if a < b {
      EdgeLe(local, o, a, b - 1);
      EdgeStep(local, o, b - 1);
    }
  }

  function Min(a: int, b: int): int {
    if a < b then a else b
  }

  /** The part of the first w bytes of the payload that belongs on overflow page k. */
  function Piece(payload: seq<byte>, local: nat, o: nat, k: nat, w: nat): seq<byte> {
    var lo, hi := Edge(local, o, k), Min(Edge(local, o, k + 1), w);
    if lo <= hi <= |payload| then payload[lo..hi] else []
  }

  /** An overflow page: the next page's number, then data. */
  predicate PageHolds(page: seq<byte>, usable: nat, next: nat, data: seq<byte>) {
    |page| == usable && 4 + |data| <= usable && Get4(page, 0) == next && page[4 .. 4 + |data|] == data
  }

  type Contents = map<nat, seq<byte>>

  function NextOf(chain: seq<nat>, k: nat): nat {
    if k + 1 < |chain| then chain[k + 1] else 0
  }

  predicate LinkOk(pages: Contents, chain: seq<nat>, payload: seq<byte>, local: nat, o: nat, w: nat, k: nat)
    requires k < |chain|
  {
    chain[k] in pages && PageHolds(pages[chain[k]], o + 4, NextOf(chain, k), Piece(payload, local, o, k, w))
  }

  ghost predicate Distinct(chain: seq<nat>) {
    forall i: nat, j: nat :: i < j < |chain| ==> chain[i] != chain[j]
  }

  /** The first w bytes of the payload past the local ones are on the pages of the chain. */
  ghost predicate ChainOk(pages: Contents, chain: seq<nat>, payload: seq<byte>, local: nat, o: nat, w: nat) {
    && Distinct(chain) && (forall p <- chain :: p > 1)
    && forall k: nat :: k < |chain| ==> LinkOk(pages, chain, payload, local, o, w, k)
  }

  /** The chain has exactly the pages that the payload needs. */
  predicate RightLength(chain: seq<nat>, n: nat, local: nat, o: nat) {
    |chain| > 0 && Edge(local, o, |chain| - 1) < n <= Edge(local, o, |chain|)
  }

  /** nOvfl in clearCell() and accessPayload(). */
  lemma PagesNeeded(chain: seq<nat>, n: nat, local: nat, o: nat)
    requires RightLength(chain, n, local, o) && o > 0 && n > local
    ensures (n - local + o - 1) / o == |chain|
  {
    var t := n - Edge(local, o, |chain| - 1);
    EdgeStep(local, o, |chain| - 1);
    Multiples.DivExact(o, |chain|, t - 1);
  }

  lemma LinkPage(pages: Contents, chain: seq<nat>, payload: seq<byte>, local: nat, o: nat, w: nat, k: nat)
    requires ChainOk(pages, chain, payload, local, o, w) && k < |chain|
    ensures chain[k] in pages && PageHolds(pages[chain[k]], o + 4, NextOf(chain, k), Piece(payload, local, o, k, w))
  {
    hide Piece, PageHolds, Distinct;
    assert LinkOk(pages, chain, payload, local, o, w, k);
  }

  lemma Apart(chain: seq<nat>, i: nat, j: nat)
    requires Distinct(chain) && i < j < |chain|
    ensures chain[i] != chain[j]
  {
  }

  /** A page before the last one written is full, and stays as it is. */
  lemma PieceFull(payload: seq<byte>, local: nat, o: nat, k: nat, last: nat, w: nat, v: nat)
    requires k < last && Edge(local, o, last) <= w <= v
    ensures Piece(payload, local, o, k, w) == Piece(payload, local, o, k, v)
  {
    hide Edge;
    EdgeLe(local, o, k + 1, last);
  }

  /** Writing the next n bytes of the payload on page k. */
  lemma PageWrite(page: seq<byte>, next: nat, payload: seq<byte>, local: nat, o: nat, k: nat, w: nat, n: nat)
    requires PageHolds(page, o + 4, next, Piece(payload, local, o, k, w))
    requires Edge(local, o, k) <= w && w + n <= Edge(local, o, k) + o && w + n <= |payload|
    ensures var at := 4 + (w - Edge(local, o, k));
      at + n <= o + 4 && |page| == o + 4 &&
      PageHolds(Copy(page, at, payload, w, n), o + 4, next, Piece(payload, local, o, k, w + n))
  {
    hide Edge;
    EdgeStep(local, o, k);
    var at := 4 + (w - Edge(local, o, k));
    var page' := Copy(page, at, payload, w, n);
    Get4Same(page, page', 0);
    var old', new' := Piece(payload, local, o, k, w), Piece(payload, local, o, k, w + n);
    assert page'[4 .. 4 + |new'|] == new' by {
      forall i: nat | i < |new'|
        ensures page'[4 + i] == new'[i]
      {
        if i < |old'| {
          assert page[4 .. 4 + |old'|][i] == old'[i];
        }
      }
    }
  }

  /** n bytes of the payload are written to the last page. */
  lemma ChainWrite(pages: Contents, chain: seq<nat>, payload: seq<byte>, local: nat, o: nat, w: nat, n: nat)
    requires ChainOk(pages, chain, payload, local, o, w) && |chain| > 0 && o > 0
    requires Edge(local, o, |chain| - 1) <= w && w + n <= Edge(local, o, |chain|) && w + n <= |payload|
    ensures var last := |chain| - 1;
      var at := 4 + (w - Edge(local, o, last));
      (&& at + n <= o + 4 && chain[last] in pages && |pages[chain[last]]| == o + 4
       && ChainOk(pages[chain[last] := Copy(pages[chain[last]], at, payload, w, n)], chain, payload, local, o, w + n))
  {
    hide Edge, Piece, PageHolds, Copy, Distinct;
    var last := |chain| - 1;
    EdgeStep(local, o, last);
    LinkPage(pages, chain, payload, local, o, w, last);
    PageWrite(pages[chain[last]], NextOf(chain, last), payload, local, o, last, w, n);
    var at := 4 + (w - Edge(local, o, last));
    var pages', v := pages[chain[last] := Copy(pages[chain[last]], at, payload, w, n)], w + n;
    forall k: nat | k < |chain|
      ensures LinkOk(pages', chain, payload, local, o, v, k)
    {
      if k < last {
        LinkPage(pages, chain, payload, local, o, w, k);
        Apart(chain, k, last);
        PieceFull(payload, local, o, k, last, w, v);
      }
    }
  }

  /** A fresh page q is linked to the end of a chain whose pages are full: the last page, or the cell
      if there is none yet, gets its number, and q ends the chain. */
  lemma ChainGrow(pages: Contents, chain: seq<nat>, payload: seq<byte>, local: nat, o: nat, w: nat, q: nat,
                  page: seq<byte>)
    requires ChainOk(pages, chain, payload, local, o, w) && o > 0 && w == Edge(local, o, |chain|) && w <= |payload|
    requires q !in chain && 1 < q < 0x1_0000_0000 && |page| == o + 4
    ensures var pages1 := if |chain| == 0 || chain[|chain| - 1] !in pages || |pages[chain[|chain| - 1]]| < 4 then pages
                          else pages[chain[|chain| - 1] := Put4(pages[chain[|chain| - 1]], 0, q)];
      ChainOk(pages1[q := Put4(page, 0, 0)], chain + [q], payload, local, o, w)
  {
    hide Edge;
    var last: int := |chain| - 1;
    var chain' := chain + [q];
    if last >= 0 {
      assert LinkOk(pages, chain, payload, local, o, w, last);
      Get4Put4(pages[chain[last]], 0, q);
    }
    Get4Put4(page, 0, 0);
    var pages1 := if last < 0 then pages else pages[chain[last] := Put4(pages[chain[last]], 0, q)];
    var pages' := pages1[q := Put4(page, 0, 0)];
    EdgeStep(local, o, |chain|);
    forall k: nat | k < |chain'|
      ensures LinkOk(pages', chain', payload, local, o, w, k)
    {
      if k < |chain| {
        assert LinkOk(pages, chain, payload, local, o, w, k);
        assert chain'[k] == chain[k];
        var piece := Piece(payload, local, o, k, w);
        if k == last {
          assert pages'[chain[k]][4 .. 4 + |piece|] == pages[chain[k]][4 .. 4 + |piece|];
        }
      }
    }
  }
}
