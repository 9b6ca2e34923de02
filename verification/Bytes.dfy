/** Big-endian integers inside a byte buffer, as the btree headers store them. */
module Bytes {

  type byte = x: int | 0 <= x < 256

  /** get2byte() */
  function Get2(d: seq<byte>, p: nat): (v: nat)
    requires p + 1 < |d|
    ensures v < 0x1_0000
  {
    (d[p] as int) * 256 + d[p + 1]
  }

  /** get2byteNotZero(): a stored zero stands for 65536. */
  function Get2NotZero(d: seq<byte>, p: nat): (v: nat)
    requires p + 1 < |d|
    ensures 0 < v <= 0x1_0000
  {
    if Get2(d, p) == 0 then 0x1_0000 else Get2(d, p)
  }

  /** put2byte(): the value is truncated to sixteen bits. */
  function Put2(d: seq<byte>, p: nat, v: nat): (r: seq<byte>)
    requires p + 1 < |d|
    ensures |r| == |d|
    ensures v < 0x1_0000 ==> Get2(r, p) == v
    ensures 0 < v <= 0x1_0000 ==> Get2NotZero(r, p) == v
    ensures forall q {:trigger r[q]} | 0 <= q < |d| && q != p && q != p + 1 :: r[q] == d[q]
  {
    d[p := v / 256 % 256][p + 1 := v % 256]
  }

  /** put4byte() */
  function Put4(d: seq<byte>, p: nat, v: nat): (r: seq<byte>)
    requires p + 4 <= |d|
    ensures |r| == |d|
    ensures forall q {:trigger r[q]} | 0 <= q < |d| && !(p <= q < p + 4) :: r[q] == d[q]
  {
    Put2(Put2(d, p, v / 0x1_0000 % 0x1_0000), p + 2, v % 0x1_0000)
  }

  /** get4byte() */
  function Get4(d: seq<byte>, p: nat): (v: nat)
    requires p + 4 <= |d|
    ensures v < 0x1_0000_0000
  {
    Get2(d, p) * 0x1_0000 + Get2(d, p + 2)
  }

  lemma Get4Put4(d: seq<byte>, p: nat, v: nat)
    requires p + 4 <= |d| && v < 0x1_0000_0000
    ensures Get4(Put4(d, p, v), p) == v
  {
    var d1 := Put2(d, p, v / 0x1_0000 % 0x1_0000);
    var d2 := Put2(d1, p + 2, v % 0x1_0000);
    assert d2[p] == d1[p] && d2[p + 1] == d1[p + 1];
    assert Get2(d2, p) == Get2(d1, p);
  }

  /** memmove()/memcpy(): n bytes of src at position from land at position to of d. */
  function Copy(d: seq<byte>, to: nat, src: seq<byte>, from: nat, n: nat): (r: seq<byte>)
    requires to + n <= |d| && from + n <= |src|
    ensures |r| == |d|
    ensures forall q {:trigger r[q]} | 0 <= q < |d| :: r[q] == if to <= q < to + n then src[from + (q - to)] else d[q]
  {
    d[..to] + src[from .. from + n] + d[to + n..]
  }

  /** memset(): n bytes of d from position p become zero. */
  function Zeroed(d: seq<byte>, p: nat, n: nat): (r: seq<byte>)
    requires p + n <= |d|
    ensures |r| == |d|
    ensures forall q {:trigger r[q]} | 0 <= q < |d| :: r[q] == if p <= q < p + n then 0 else d[q]
  {
    d[..p] + seq(n, _ => 0) + d[p + n..]
  }

  /** get2byte() on the live buffer. */
  function Read2(a: array<byte>, p: nat): (v: nat)
    requires p + 1 < a.Length
    reads a
    ensures v == Get2(a[..], p)
  {
    (a[p] as int) * 256 + a[p + 1]
  }

  method WriteTwo(a: array<byte>, p: nat, v: nat)
    requires p + 1 < a.Length
    modifies a
    ensures a[..] == Put2(old(a[..]), p, v)
  {
    a[p] := v / 256 % 256;
    a[p + 1] := v % 256;
  }

  method WriteFour(a: array<byte>, p: nat, v: nat)
    requires p + 4 <= a.Length
    modifies a
    ensures a[..] == Put4(old(a[..]), p, v)
  {
    WriteTwo(a, p, v / 0x1_0000 % 0x1_0000);
    WriteTwo(a, p + 2, v % 0x1_0000);
  }

  /** memcpy() of a two-byte pointer. */
  method CopyTwo(a: array<byte>, to: nat, from: nat)
    requires to + 1 < a.Length && from + 1 < a.Length
    modifies a
    ensures a[..] == Put2(old(a[..]), to, Get2(old(a[..]), from))
  {
    a[to], a[to + 1] := a[from], a[from + 1];
  }

  method WriteCopy(a: array<byte>, to: nat, src: seq<byte>, from: nat, n: nat)
    requires to + n <= a.Length && from + n <= |src|
    modifies a
    ensures a[..] == Copy(old(a[..]), to, src, from, n)
  {
    forall i | to <= i < to + n {
      a[i] := src[from + (i - to)];
    }
  }

  method WriteZero(a: array<byte>, p: nat, n: nat)
    requires p + n <= a.Length
    modifies a
    ensures a[..] == Zeroed(old(a[..]), p, n)
  {
    forall i | p <= i < p + n {
      a[i] := 0;
    }
  }
}
