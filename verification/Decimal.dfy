/** Decimal and hexadecimal renderings used inside row keys (Go's %d, %0Nd and %x) and the
    unsigned parser that reads them back. */
module Decimal {
  import opened Bytes
  import opened Words

  function Pow10(w: nat): nat
    ensures Pow10(w) > 0
  {
    if w == 0 then 1 else 10 * Pow10(w - 1)
  }

  /** The w low decimal digits of n, most significant first. */
  function Digits(n: nat, w: nat): (s: Key)
    ensures |s| == w
    ensures forall i :: 0 <= i < w ==> 48 <= s[i] <= 57
  {
    if w == 0 then [] else Digits(n / 10, w - 1) + [48 + n % 10]
  }

  /** Number of decimal digits of n; zero has one. */
  function DecLen(n: nat): nat {
    if n < 10 then 1 else 1 + DecLen(n / 10)
  }

  /** Go's %0wd: zero-padded to w digits, but never truncated. */
  function Pad(n: nat, w: nat): Key {
    Digits(n, if DecLen(n) > w then DecLen(n) else w)
  }

  /** Go's %d for an unsigned number. */
  function Dec(n: nat): Key {
    Pad(n, 1)
  }

  lemma {:induction false} DecLenBound(n: nat)
    ensures DecLen(n) >= 1 && n < Pow10(DecLen(n))
  {
    if n >= 10 { DecLenBound(n / 10); }
  }

  lemma {:induction false} DecLenFits(n: nat, w: nat)
    requires w >= 1
    ensures DecLen(n) <= w <==> n < Pow10(w)
  {
    if n >= 10 && w > 1 { DecLenFits(n / 10, w - 1); }
    if w == 1 { assert Pow10(0) == 1; if n >= 10 { DecLenBound(n / 10); } }
    if n < 10 && w > 1 { assert Pow10(w - 1) >= 1; }
  }

  lemma PadFits(n: nat, w: nat)
    requires w >= 1 && n < Pow10(w)
    ensures Pad(n, w) == Digits(n, w)
  {
    DecLenFits(n, w);
  }

  /** On a fixed width, byte order is numeric order. */
  lemma {:induction false} DigitsOrder(a: nat, b: nat, w: nat)
    requires a < b < Pow10(w)
    ensures Less(Digits(a, w), Digits(b, w))
    decreases w
  {
    var x, y := Digits(a / 10, w - 1), Digits(b / 10, w - 1);
    if a / 10 == b / 10 {
      LessCancel(x, [48 + a % 10], [48 + b % 10]);
    } else {
      DigitsOrder(a / 10, b / 10, w - 1);
      LessIrreflexive(x);
      LessHeads(x, y, [48 + a % 10], [48 + b % 10]);
    }
  }

  lemma DigitsOrderIff(a: nat, b: nat, w: nat)
    requires a < Pow10(w) && b < Pow10(w)
    ensures Less(Digits(a, w), Digits(b, w)) <==> a < b
  {
    if a < b { DigitsOrder(a, b, w); }
    else if b < a {
      DigitsOrder(b, a, w);
      LessAsymmetric(Digits(a, w), Digits(b, w));
    } else { LessIrreflexive(Digits(a, w)); }
  }

  // ---------------------------------------------------------------- parsing

  predicate IsDigit(c: byte) { 48 <= c <= 57 }

  function DigitValue(c: byte): nat
    requires IsDigit(c)
  {
    c as int - 48
  }

  function Value(s: Key): nat
    requires forall i :: 0 <= i < |s| ==> IsDigit(s[i])
  {
    if s == [] then 0 else 10 * Value(s[..|s| - 1]) + DigitValue(s[|s| - 1])
  }

  /** A decimal number: the sum of its digits by place. */
  ghost function Numeral(s: Key): int {
    if s == [] then 0 else (s[0] as int - 48) * Pow10(|s| - 1) + Numeral(s[1..])
  }

  lemma {:induction false} NumeralAppend(s: Key, c: byte)
    ensures Numeral(s + [c]) == 10 * Numeral(s) + (c as int - 48)
    decreases |s|
  {
    if s == [] {
      assert (s + [c])[1..] == [] && Pow10(0) == 1;
    } else {
      assert (s + [c])[1..] == s[1..] + [c];
      NumeralAppend(s[1..], c);
      TenTimes(s[0] as int - 48, Pow10(|s| - 1));
    }
  }

  lemma TenTimes(d: int, p: nat)
    ensures d * (10 * p) == 10 * (d * p)
  {}

  lemma {:induction false} ValueIsNumeral(s: Key)
    requires forall i :: 0 <= i < |s| ==> IsDigit(s[i])
    ensures Value(s) == Numeral(s)
    decreases |s|
  {
    if s != [] {
      ValueIsNumeral(s[..|s| - 1]);
      NumeralAppend(s[..|s| - 1], s[|s| - 1]);
      assert s[..|s| - 1] + [s[|s| - 1]] == s;
    }
  }

  datatype Option<+T> = None | Some(value: T)

  /** Go's strconv.ParseUint(s, 10, 64). */
  function ParseUint(s: Key): Option<u64> {
    if s != [] && (forall i :: 0 <= i < |s| ==> IsDigit(s[i])) && Value(s) < TWO64
    then Some(Value(s))
    else None
  }

  lemma {:induction false} ValueOfDigits(n: nat, w: nat)
    requires n < Pow10(w)
    ensures Value(Digits(n, w)) == n
    decreases w
  {
    if w > 0 {
      ValueOfDigits(n / 10, w - 1);
      assert Digits(n, w)[..w - 1] == Digits(n / 10, w - 1);
    }
  }

  lemma ValueOfPad(n: nat, w: nat)
    ensures Pad(n, w) != [] && Value(Pad(n, w)) == n
  {
    DecLenBound(n);
    var v := if DecLen(n) > w then DecLen(n) else w;
    Pow10Monotone(DecLen(n), v);
    ValueOfDigits(n, v);
  }

  /** Whatever width it was printed with, a 64-bit number parses back to itself. */
  lemma ParsePad(n: u64, w: nat)
    ensures ParseUint(Pad(n, w)) == Some(n)
  {
    ValueOfPad(n, w);
    ParseOfValue(Pad(n, w), n);
  }

  lemma ParseOfValue(s: Key, n: u64)
    requires s != [] && forall i :: 0 <= i < |s| ==> IsDigit(s[i])
    requires Value(s) == n
    ensures ParseUint(s) == Some(n)
  {}

  lemma {:induction false} Pow10Monotone(v: nat, w: nat)
    requires v <= w
    ensures Pow10(v) <= Pow10(w)
    decreases w
  {
    if v < w { Pow10Monotone(v, w - 1); }
  }

  lemma PadInjective(a: u64, b: u64, w: nat)
    requires Pad(a, w) == Pad(b, w)
    ensures a == b
  {
    ParsePad(a, w);
    ParsePad(b, w);
  }

  lemma {:induction false} LeadingDigit(n: nat)
    ensures n >= 10 ==> Digits(n, DecLen(n))[0] != 48
    ensures Digits(n, DecLen(n))[0] == 48 ==> n == 0
  {
    if n >= 10 {
      LeadingDigit(n / 10);
      assert Digits(n, DecLen(n))[0] == Digits(n / 10, DecLen(n) - 1)[0];
    }
  }

  /** A decimal text: digits alone, of that value, on so many columns, and with zeros ahead
      only to fill them. */
  ghost predicate IsDecimal(s: Key, n: nat, w: nat) {
    (forall i :: 0 <= i < |s| ==> 48 <= s[i] <= 57) && Numeral(s) == n && |s| >= w && |s| >= 1 &&
    (|s| > w && |s| > 1 ==> s[0] != 48)
  }

  /** So the renderings are what %0wd and %d print. */
  lemma PadIsDecimal(n: nat, w: nat)
    ensures IsDecimal(Pad(n, w), n, w)
  {
    ValueOfPad(n, w);
    ValueIsNumeral(Pad(n, w));
    LeadingDigit(n);
  }

  lemma PadFree(n: nat, w: nat, sep: byte)
    requires sep < 48 || sep > 57
    ensures Free(Pad(n, w), sep)
  {}

  // -------------------------------------------------------------------- hex

  function HexDigit(d: int): byte
    requires 0 <= d < 16
  {
    if d < 10 then 48 + d else 87 + d
  }

  /** Go's %x of a byte slice. */
  function Hex(s: Key): (h: Key)
    ensures |h| == 2 * |s|
    ensures forall i :: 0 <= i < |h| ==> 48 <= h[i] <= 57 || 97 <= h[i] <= 102
  {
    if s == [] then [] else [HexDigit(s[0] / 16), HexDigit(s[0] % 16)] + Hex(s[1..])
  }

  /** Two characters for a byte, the high half first. */
  lemma {:induction false} HexDigitsOf(s: Key, i: nat)
    requires i < |s|
    ensures Hex(s)[2 * i] == Text("0123456789abcdef")[s[i] as int / 16]
    ensures Hex(s)[2 * i + 1] == Text("0123456789abcdef")[s[i] as int % 16]
    decreases |s|
  {
    var rest := Hex(s[1..]);
    HexFirst(s);
    if i > 0 {
      HexDigitsOf(s[1..], i - 1);
      assert s[1..][i - 1] == s[i] && Hex(s)[2 * i] == rest[2 * i - 2] && Hex(s)[2 * i + 1] == rest[2 * i - 1];
    }
  }

  lemma HexFirst(s: Key)
    requires s != []
    ensures Hex(s)[0] == Text("0123456789abcdef")[s[0] as int / 16]
    ensures Hex(s)[1] == Text("0123456789abcdef")[s[0] as int % 16]
    ensures forall j :: 2 <= j < |Hex(s)| ==> Hex(s)[j] == Hex(s[1..])[j - 2]
  {
    HexCharacter(s[0] as int / 16);
    HexCharacter(s[0] as int % 16);
    assert Hex(s) == [HexDigit(s[0] / 16), HexDigit(s[0] % 16)] + Hex(s[1..]);
  }

  lemma HexCharacter(d: int)
    requires 0 <= d < 16
    ensures HexDigit(d) == Text("0123456789abcdef")[d]
  {
    assert d == 0 || d == 1 || d == 2 || d == 3 || d == 4 || d == 5 || d == 6 || d == 7 ||
           d == 8 || d == 9 || d == 10 || d == 11 || d == 12 || d == 13 || d == 14 || d == 15;
  }

  lemma {:induction false} HexInjective(a: Key, b: Key)
    requires Hex(a) == Hex(b)
    ensures a == b
    decreases |a|
  {
    assert |a| == |b|;
    if a != [] {
      assert Hex(a)[2..] == Hex(a[1..]) && Hex(b)[2..] == Hex(b[1..]);
      assert Hex(a)[0] == Hex(b)[0] && Hex(a)[1] == Hex(b)[1];
      HexInjective(a[1..], b[1..]);
      assert a == [a[0]] + a[1..] && b == [b[0]] + b[1..];
    }
  }
}
