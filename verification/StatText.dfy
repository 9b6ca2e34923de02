/** The counters of a sample as text: stat_get() prints them, and loading the statistics reads them back. */
module StatText {

  const ROWCNT: nat := 0x1_0000_0000

  function Digit(d: nat): char
    requires d < 10
  {
    ('0' as int + d) as char
  }

  predicate IsDigit(c: char) {
    '0' <= c <= '9'
  }

  /** A number in decimal, without leading zeros. */
  function Digits(v: nat): string {
    if v < 10 then [Digit(v)] else Digits(v / 10) + [Digit(v % 10)]
  }

  /** The numbers with a space after each. */
  function Spaced(a: seq<nat>): string {
    if a == [] then "" else Digits(a[0]) + " " + Spaced(a[1..])
  }

  lemma {:induction false} SpacedSnoc(a: seq<nat>, v: nat)
    ensures Spaced(a + [v]) == Spaced(a) + Digits(v) + " "
  {
    if a == [] {
      assert a + [v] == [v];
    } else {
      SpacedSnoc(a[1..], v);
      assert (a + [v])[1..] == a[1..] + [v];
      assert Spaced(a + [v]) == Digits(a[0]) + " " + Spaced(a[1..] + [v]);
    }
  }

  /** The list that statGet() returns: the last space gives way to the end of the string. */
  method PrintList(a: seq<nat>) returns (z: string)
    requires a != []
    ensures z + " " == Spaced(a)
  {
    z := "";
    var i := 0;
    while i < |a|
      invariant i <= |a| && z == Spaced(a[..i])
    {
      SpacedSnoc(a[..i], a[i]);
      assert a[..i + 1] == a[..i] + [a[i]];
      z := z + Digits(a[i]) + " ";
      i := i + 1;
    }
    assert a[..|a|] == a;
    LastSpace(a);
    z := z[..|z| - 1];
  }

  lemma LastSpace(a: seq<nat>)
    requires a != []
    ensures Spaced(a) != "" && Spaced(a)[|Spaced(a)| - 1] == ' '
  {
    var n := |a| - 1;
    assert a == a[..n] + [a[n]];
    SpacedSnoc(a[..n], a[n]);
  }

  /** The number that the digits at the start of a text add to, and what follows them. */
  function Value(z: string, v: nat): nat {
    if z != "" && IsDigit(z[0]) then Value(z[1..], (v * 10 + (z[0] as int - '0' as int)) % ROWCNT) else v
  }

  function Rest(z: string): (r: string)
    ensures |r| <= |z|
  {
    if z != "" && IsDigit(z[0]) then Rest(z[1..]) else z
  }

  function SkipSpace(z: string): string {
    if z != "" && z[0] == ' ' then z[1..] else z
  }

  /** At most n numbers read from a text. */
  function Decoded(z: string, n: nat): seq<nat>
    decreases n
  {
    if z == "" || n == 0 then [] else [Value(z, 0)] + Decoded(SkipSpace(Rest(z)), n - 1)
  }

  /** The loop over the digits of one number. */
  method ReadNumber(z0: string) returns (v: nat, z: string)
    ensures v == Value(z0, 0) && z == Rest(z0)
  {
    z := z0;
    v := 0;
    while z != "" && IsDigit(z[0])
      invariant Value(z, v) == Value(z0, 0) && Rest(z) == Rest(z0)
      decreases |z|
    {
      v := (v * 10 + (z[0] as int - '0' as int)) % ROWCNT;
      z := z[1..];
    }
  }

  method DecodeIntArray(zIntArray: string, nOut: nat) returns (aOut: seq<nat>)
    ensures aOut == Decoded(zIntArray, nOut)
  {
    hide Value, Rest, Decoded;
    var z := zIntArray;
    aOut := [];
    NoneYet(Decoded(z, nOut));
    var i := 0;
    while z != "" && i < nOut
      invariant i <= nOut && aOut + Decoded(z, nOut - i) == Decoded(zIntArray, nOut)
    {
      DecodedStep(aOut, z, nOut - i);
      var v: nat;
      v, z := ReadNumber(z);
      aOut := aOut + [v];
      if z != "" && z[0] == ' ' {
        z := z[1..];
      }
      i := i + 1;
    }
    DecodedEnd(aOut, z, nOut - i);
  }

  lemma DecodedStep(a: seq<nat>, z: string, n: nat)
    requires z != "" && n > 0
    ensures a + Decoded(z, n) == a + [Value(z, 0)] + Decoded(SkipSpace(Rest(z)), n - 1)
  {
  }

  lemma NoneYet(s: seq<nat>)
    ensures [] + s == s
  {
  }

  lemma DecodedEnd(a: seq<nat>, z: string, n: nat)
    requires z == "" || n == 0
    ensures a + Decoded(z, n) == a
  {
  }

  lemma OneDigit(d: nat, s: string, w: nat)
    requires d < 10 && w * 10 + d < ROWCNT
    ensures Value([Digit(d)] + s, w) == Value(s, w * 10 + d) && Rest([Digit(d)] + s) == Rest(s)
  {
    var t := [Digit(d)] + s;
    assert t[1..] == s && t[0] == Digit(d);
  }

  lemma DigitsSplit(v: nat, s: string)
    ensures Digits(v) + s == if v < 10 then [Digit(v)] + s else Digits(v / 10) + ([Digit(v % 10)] + s)
  {
  }

  /** Reading the digits of a number gives the number. */
  lemma {:induction false} DigitsRead(v: nat, s: string)
    requires v < ROWCNT
    ensures Value(Digits(v) + s, 0) == Value(s, v) && Rest(Digits(v) + s) == Rest(s)
    decreases v
  {
    hide Value, Rest, Digits;
    DigitsSplit(v, s);
    if v < 10 {
      OneDigit(v, s, 0);
    } else {
      DigitsRead(v / 10, [Digit(v % 10)] + s);
      OneDigit(v % 10, s, v / 10);
    }
  }

  /** The text of a list, without its last space: the first number, and the text of the others after a space. */
  lemma FirstNumber(a: seq<nat>, z: string) returns (y: string)
    requires a != [] && z + " " == Spaced(a)
    ensures z == Digits(a[0]) + (if |a| == 1 then "" else " " + y)
    ensures |a| > 1 ==> y + " " == Spaced(a[1..])
  {
    hide Digits;
    var d, r := Digits(a[0]), Spaced(a[1..]);
    y := "";
    if |a| > 1 {
      LastSpace(a[1..]);
      y := r[..|r| - 1];
      assert y + " " == r;
      assert z == (z + " ")[..|z|] == d + (" " + y);
    } else {
      assert z == (z + " ")[..|z|] == d + "";
    }
  }

  lemma SpacedSome(a: seq<nat>, z: string)
    requires z + " " == Spaced(a)
    ensures a != []
  {
    assert |z + " "| > 0;
  }

  /** Reading starts with the first number, which ends at a space or with the text. */
  lemma DecodedFirst(v: nat, t: string, n: nat)
    requires v < ROWCNT && n > 0 && (t == "" || t[0] == ' ')
    ensures Decoded(Digits(v) + t, n) == [v] + Decoded(SkipSpace(t), n - 1)
  {
    hide Digits, SkipSpace;
    DigitsRead(v, t);
    DigitsSome(v);
  }

  lemma SkipOne(y: string)
    ensures SkipSpace(" " + y) == y && SkipSpace("") == ""
  {
    assert (" " + y)[1..] == y;
  }

  /** What is printed is read back, whatever room there is for more. */
  lemma {:induction false} RoundTrip(a: seq<nat>, z: string, n: nat)
    requires z + " " == Spaced(a) && |a| <= n && forall i: nat :: i < |a| ==> a[i] < ROWCNT
    ensures Decoded(z, n) == a
    decreases |a|
  {
    hide Value, Rest, Digits, Decoded, SkipSpace;
    SpacedSome(a, z);
    var y := FirstNumber(a, z);
    var t := if |a| == 1 then "" else " " + y;
    DecodedFirst(a[0], t, n);
    SkipOne(y);
    if |a| == 1 {
      DecodedEnd([], "", n - 1);
      assert a == [a[0]];
    } else {
      assert forall i: nat :: i < |a[1..]| ==> a[1..][i] == a[i + 1];
      RoundTrip(a[1..], y, n - 1);
    }
  }

  lemma DigitsSome(v: nat)
    ensures Digits(v) != ""
  {
  }
}
