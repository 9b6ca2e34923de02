/** Variable-length integers: one to nine bytes, most significant first, seven bits a byte but for
    the ninth, which holds eight. */
module Varints {
  import opened Bytes

  const TWO32 := 0x1_0000_0000
  const TWO56 := 0x100_0000_0000_0000
  const TWO64 := 0x1_0000_0000_0000_0000

  /** The bytes of v with the flag bit set on each. */
  function Flagged(v: nat): seq<byte> {
    if v < 128 then [v + 128] else Flagged(v / 128) + [v % 128 + 128]
  }

  /** n bytes with the flag bit set, for the low 7n bits of v. */
  function FlaggedN(v: nat, n: nat): seq<byte> {
    if n == 0 then [] else FlaggedN(v / 128, n - 1) + [v % 128 + 128]
  }

  /** The encoding of v. */
  function Varint(v: nat): (b: seq<byte>)
    ensures |b| > 0
  {
    if v >= TWO56 then FlaggedN(v / 256, 8) + [v % 256]
    else if v < 128 then [v]
    else Flagged(v / 128) + [v % 128]
  }

  // ---- the number in the low seven bits of a run of bytes -----------------------------------------

  /** Byte i of what starts at p. */
  function Nth(d: seq<byte>, p: nat, i: nat): byte {
    if p + i < |d| then d[p + i] else 0
  }

  function Value(d: seq<byte>, p: nat, n: nat): nat {
    if n == 0 then 0 else Value(d, p, n - 1) * 128 + Nth(d, p, n - 1) % 128
  }

  lemma {:induction false} ValueMono(d: seq<byte>, p: nat, i: nat, n: nat)
    requires i <= n
    ensures Value(d, p, i) <= Value(d, p, n)
    decreases n
  {
    if i < n {
      ValueMono(d, p, i, n - 1);
    }
  }

  lemma {:induction false} ValueSame(d: seq<byte>, p: nat, e: seq<byte>, q: nat, n: nat)
    requires forall i: nat :: i < n ==> Nth(d, p, i) % 128 == Nth(e, q, i) % 128
    ensures Value(d, p, n) == Value(e, q, n)
  {
    if n > 0 {
      ValueSame(d, p, e, q, n - 1);
      assert Nth(d, p, n - 1) % 128 == Nth(e, q, n - 1) % 128;
    }
  }

  /** Every byte of the run has its flag bit set. */
  predicate AllFlagged(d: seq<byte>, p: nat, n: nat) {
    forall i: nat :: i < n ==> Nth(d, p, i) >= 128
  }

  lemma {:induction false} FlaggedIs(v: nat)
    ensures var b := Flagged(v); AllFlagged(b, 0, |b|) && Value(b, 0, |b|) == v
    decreases v
  {
    var b := Flagged(v);
    if v >= 128 {
      FlaggedIs(v / 128);
      var c := Flagged(v / 128);
      forall i: nat | i < |b|
        ensures Nth(b, 0, i) >= 128 && (i < |c| ==> Nth(b, 0, i) == Nth(c, 0, i))
      {
        assert i < |c| ==> Nth(c, 0, i) >= 128;
      }
      ValueSame(b, 0, c, 0, |c|);
    } else {
      assert Value(b, 0, 0) == 0;
    }
  }

  lemma {:induction false} FlaggedNIs(v: nat, n: nat)
    requires v < Pow7(n)
    ensures |FlaggedN(v, n)| == n && AllFlagged(FlaggedN(v, n), 0, n) && Value(FlaggedN(v, n), 0, n) == v
  {
    if n > 0 {
      FlaggedNIs(v / 128, n - 1);
      var b, c := FlaggedN(v, n), FlaggedN(v / 128, n - 1);
      forall i: nat | i < n
        ensures Nth(b, 0, i) >= 128 && (i < n - 1 ==> Nth(b, 0, i) == Nth(c, 0, i))
      {
        assert i < n - 1 ==> Nth(c, 0, i) >= 128;
      }
      ValueSame(b, 0, c, 0, n - 1);
    }
  }

  function Pow7(n: nat): (m: nat)
    ensures m > 0
  {
    if n == 0 then 1 else Pow7(n - 1) * 128
  }

  lemma PowersOf7()
    ensures Pow7(8) == TWO56
  {
    assert Pow7(4) == 0x1000_0000;
    assert Pow7(8) == Pow7(4) * 0x1000_0000 by {
      assert Pow7(5) == Pow7(4) * 0x80;
      assert Pow7(6) == Pow7(4) * 0x4000;
      assert Pow7(7) == Pow7(4) * 0x20_0000;
    }
  }

  lemma {:induction false} ValueBound(d: seq<byte>, p: nat, n: nat)
    ensures Value(d, p, n) < Pow7(n)
  {
    if n > 0 {
      ValueBound(d, p, n - 1);
    }
  }

  // ---- reading -------------------------------------------------------------------------------------

  /** The length of the integer at p: the flag bits say, but there are never more than nine bytes. */
  function Length(d: seq<byte>, p: nat): (n: nat)
    ensures 1 <= n <= 9
  {
    LengthFrom(d, p, 1)
  }

  function LengthFrom(d: seq<byte>, p: nat, i: nat): (n: nat)
    requires 1 <= i <= 9
    ensures i <= n <= 9
    decreases 9 - i
  {
    if i == 9 || Nth(d, p, i - 1) < 128 then i else LengthFrom(d, p, i + 1)
  }

  /** The 64-bit integer at p. */
  function Integer(d: seq<byte>, p: nat): nat {
    if Length(d, p) == 9 then Value(d, p, 8) * 256 + Nth(d, p, 8) else Value(d, p, Length(d, p))
  }

  /** The 32-bit integer at p, which is read as if the ninth byte too had seven bits. */
  function Small(d: seq<byte>, p: nat): nat {
    Value(d, p, Length(d, p)) % TWO32
  }

  predicate StartsAt(d: seq<byte>, p: nat, b: seq<byte>) {
    p + |b| <= |d| && d[p .. p + |b|] == b
  }

  lemma {:induction false} LengthIs(d: seq<byte>, p: nat, i: nat, n: nat)
    requires 1 <= i <= n <= 9 && AllFlagged(d, p, n - 1) && (n == 9 || Nth(d, p, n - 1) < 128)
    ensures LengthFrom(d, p, i) == n
    decreases n - i
  {
    if i < n {
      assert Nth(d, p, i - 1) >= 128;
      LengthIs(d, p, i + 1, n);
    }
  }

  lemma {:induction false} FlaggedLength(v: nat, n: nat)
    requires v < Pow7(n) && n > 0
    ensures 1 <= |Flagged(v)| <= n
  {
    if v >= 128 {
      FlaggedLength(v / 128, n - 1);
    }
  }

  /** What is written is read back. */
  lemma ReadsBack(v: nat, d: seq<byte>, p: nat)
    requires v < TWO64 && StartsAt(d, p, Varint(v))
    ensures Length(d, p) == |Varint(v)| && Integer(d, p) == v
    ensures v < TWO32 ==> Small(d, p) == v
  {
    PowersOf7();
    var b := Varint(v);
    var n := |b|;
    var c: seq<byte> := b[..n - 1];
    if v >= TWO56 {
      FlaggedNIs(v / 256, 8);
      assert c == FlaggedN(v / 256, 8);
    } else if v >= 128 {
      FlaggedIs(v / 128);
      Pow7Step(v / 128);
      FlaggedLength(v / 128, 7);
      assert c == Flagged(v / 128);
    }
    forall i: nat | i < n
      ensures Nth(d, p, i) == b[i] && (i < n - 1 ==> Nth(d, p, i) == Nth(c, 0, i))
    {
      assert d[p .. p + n][i] == b[i];
    }
    ReadsBackFrom(v, d, p, c, n);
  }

  lemma Pow7Step(w: nat)
    requires w < TWO56 / 128
    ensures w < Pow7(7)
  {
    PowersOf7();
  }

  lemma ReadsBackFrom(v: nat, d: seq<byte>, p: nat, c: seq<byte>, n: nat)
    requires 1 <= n <= 9 && |c| == n - 1 && AllFlagged(c, 0, n - 1) && v < TWO64
    requires forall i: nat :: i < n - 1 ==> Nth(d, p, i) == Nth(c, 0, i)
    requires if v >= TWO56 then n == 9 && Nth(d, p, 8) == v % 256 && Value(c, 0, 8) == v / 256
             else n <= 8 && Nth(d, p, n - 1) == v % 128 && Value(c, 0, n - 1) == v / 128
    ensures Length(d, p) == n && Integer(d, p) == v && (v < TWO32 ==> Small(d, p) == v)
  {
    assert AllFlagged(d, p, n - 1) by {
      forall i: nat | i < n - 1
        ensures Nth(d, p, i) >= 128
      {
        assert Nth(c, 0, i) >= 128;
      }
    }
    LengthIs(d, p, 1, n);
    ValueSame(d, p, c, 0, n - 1);
  }

  /** (acc << 7) | (x & 0x7f) in 32 bits. */
  function Shift7(acc: nat, x: byte): nat {
    acc * 128 % TWO32 + x % 128
  }

  lemma Wraps(k: nat, w: nat)
    ensures (k * TWO32 + w) % TWO32 == w % TWO32
  {
  }

  lemma Shift7Is(a: nat, x: byte)
    ensures Shift7(a % TWO32, x) == (a * 128 + x % 128) % TWO32
  {
    Wraps(a / TWO32 * 128, a % TWO32 * 128 + x % 128);
  }

  /** The loop that reads a payload size. */
  method ReadSize(d: seq<byte>, p: nat) returns (size: nat, next: nat)
    requires p + Length(d, p) <= |d|
    ensures size == Small(d, p) && next == p + Length(d, p)
  {
    var i := p;
    size := d[i];
    assert Value(d, p, 0) == 0;
    if size >= 0x80 {
      var end := p + 8;
      size := size % 128;
      while true
        invariant p <= i < end && Length(d, p) == LengthFrom(d, p, i - p + 1)
        invariant size == Value(d, p, i - p + 1) % TWO32 && d[i] >= 128
        decreases end - i
      {
        i := i + 1;
        Shift7Is(Value(d, p, i - p), d[i]);
        size := Shift7(size, d[i]);
        if d[i] < 0x80 || i >= end {
          break;
        }
      }
    }
    next := i + 1;
  }

  /** The loop that reads a key. */
  method ReadKey(d: seq<byte>, p: nat) returns (key: nat, next: nat)
    requires p + Length(d, p) <= |d|
    ensures key == Integer(d, p) && next == p + Length(d, p) && key < TWO64
  {
    var i := p;
    key := d[i];
    assert Value(d, p, 0) == 0;
    PowersOf7();
    if key >= 0x80 {
      var end := p + 7;
      key := key % 128;
      while true
        invariant p <= i < end && Length(d, p) == LengthFrom(d, p, i - p + 1)
        invariant key == Value(d, p, i - p + 1) && d[i] >= 128
        decreases end - i
      {
        i := i + 1;
        key := key * 128 + d[i] % 128;
        ValueBound(d, p, i - p + 1);
        if d[i] < 0x80 {
          ValueBoundUpTo(d, p, i - p + 1);
          break;
        }
        if i >= end {
          key := key * 256 + d[i + 1];
          i := i + 1;
          break;
        }
      }
    }
    next := i + 1;
  }

  lemma ValueBoundUpTo(d: seq<byte>, p: nat, n: nat)
    requires n <= 8
    ensures Value(d, p, n) < TWO56
  {
    ValueMono(d, p, n, 8);
    ValueBound(d, p, 8);
    PowersOf7();
  }

  // ---- writing -------------------------------------------------------------------------------------

  /** sqlite3PutVarint() */
  method PutVarint(a: array<byte>, p: nat, v: nat) returns (n: nat)
    requires p + |Varint(v)| <= a.Length && v < TWO64
    modifies a
    ensures n == |Varint(v)| && a[..] == Copy(old(a[..]), p, Varint(v), 0, n)
  {
    if v <= 0x7f {
      a[p] := v;
      return 1;
    }
    if v <= 0x3fff {
      assert Flagged(v / 128) == [v / 128 + 128];
      a[p] := v / 128 % 128 + 0x80;
      a[p + 1] := v % 128;
      return 2;
    }
    if v >= TWO56 {
      LengthN(v / 256, 8);
      PutNine(a, p, v);
      return 9;
    }
    n := PutFew(a, p, v);
  }

  /** putVarint64() when all 64 bits are needed. */
  method PutNine(a: array<byte>, p: nat, v0: nat)
    requires p + 9 <= a.Length && TWO56 <= v0 < TWO64
    modifies a
    ensures |Varint(v0)| == 9 && a[..] == Copy(old(a[..]), p, Varint(v0), 0, 9)
  {
    PowersOf7();
    FlaggedNIs(v0 / 256, 8);
    ghost var b := FlaggedN(v0 / 256, 8);
    var v := v0;
    a[p + 8] := v % 256;
    v := v / 256;
    var i := 7;
    while i >= 0
      invariant -1 <= i <= 7 && b[..i + 1] == FlaggedN(v, i + 1)
      invariant forall q: nat :: q < a.Length ==>
        a[q] == if q == p + 8 then v0 % 256 else if p + i < q < p + 8 then b[q - p] else old(a[q])
    {
      ghost var c := FlaggedN(v, i + 1);
      assert c[..i] == FlaggedN(v / 128, i) by {
        assert c == FlaggedN(v / 128, i) + [v % 128 + 128];
        LengthN(v / 128, i);
      }
      assert c[i] == b[i];
      a[p + i] := v % 128 + 0x80;
      v := v / 128;
      i := i - 1;
    }
  }

  lemma {:induction false} LengthN(v: nat, n: nat)
    ensures |FlaggedN(v, n)| == n
  {
    if n > 0 {
      LengthN(v / 128, n - 1);
    }
  }

  /** putVarint64() in groups of seven bits, least significant first into a buffer, then reversed. */
  method PutFew(a: array<byte>, p: nat, v0: nat) returns (n: nat)
    requires p + |Varint(v0)| <= a.Length && 0x3fff < v0 < TWO56
    modifies a
    ensures n == |Varint(v0)| && a[..] == Copy(old(a[..]), p, Varint(v0), 0, n)
  {
    ghost var b := Varint(v0);
    var buf: array<byte>;
    buf, n := Groups(v0);
    var i, j := 0, n - 1;
    while j >= 0
      invariant -1 <= j < n && i + j == n - 1
      invariant forall k: nat :: k < n ==> buf[k] == b[n - 1 - k]
      invariant forall q: nat :: q < a.Length ==> a[q] == if p <= q < p + i then b[q - p] else old(a[q])
    {
      a[p + i] := buf[j];
      i, j := i + 1, j - 1;
    }
  }

  /** What is left of v0 after n groups: the encoding ends with one group more. */
  lemma NextGroup(b: seq<byte>, n: nat, v: nat)
    requires n < |b| && v > 0 && b[..|b| - n] == Flagged(v)
    ensures b[|b| - 1 - n] == v % 128 + 128
    ensures if v / 128 == 0 then n + 1 == |b| else n + 1 < |b| && b[..|b| - (n + 1)] == Flagged(v / 128)
  {
    var c := Flagged(v);
    assert c[|c| - 1] == v % 128 + 128;
    assert v >= 128 ==> c[..|c| - 1] == Flagged(v / 128);
    assert b[..|b| - n][..|c| - 1] == b[..|b| - (n + 1)];
  }

  /** The bytes of the encoding of v0, last one first. */
  method Groups(v0: nat) returns (buf: array<byte>, n: nat)
    requires 0x3fff < v0 < TWO56
    ensures fresh(buf) && n == |Varint(v0)| <= buf.Length
    ensures forall k: nat :: k < n ==> buf[k] == Varint(v0)[n - 1 - k]
  {
    ghost var b := Varint(v0);
    PowersOf7();
    Pow7Step(v0 / 128);
    FlaggedLength(v0 / 128, 7);
    buf := new byte[10];
    n := 0;
    var v := v0;
    buf[n] := v % 128 + 0x80;
    n := 1;
    v := v / 128;
    while v != 0
      invariant 1 <= n <= |b|
      invariant if v == 0 then n == |b| else n < |b| && b[..|b| - n] == Flagged(v)
      invariant buf[0] == b[|b| - 1] + 0x80
      invariant forall k: nat :: 0 < k < n ==> buf[k] == b[|b| - 1 - k]
      decreases v
    {
      NextGroup(b, n, v);
      buf[n] := v % 128 + 0x80;
      n := n + 1;
      v := v / 128;
    }
    buf[0] := buf[0] % 128;
  }
}
