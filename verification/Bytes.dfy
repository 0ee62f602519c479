/** Byte strings in the order Bigtable keeps its rows in, and the separator-delimited
    fields the key builders of the explorer paste together. */
module Bytes {
  type byte = x: int | 0 <= x < 256
  type Key = seq<byte>

  const COLON: byte := 58
  const COMMA: byte := 44
  const DASH: byte := 45

  /** The bytes of a text of Latin characters. */
  function Text(s: string): (k: Key)
    requires forall i :: 0 <= i < |s| ==> s[i] as int < 256
    ensures |k| == |s| && forall i :: 0 <= i < |k| ==> k[i] == s[i] as int
  {
    seq(|s|, i requires 0 <= i < |s| => s[i] as int)
  }

  lemma SeparatorsAreTexts()
    ensures [COLON] == Text(":") && [COMMA] == Text(",") && [DASH] == Text("-")
  {}

  // ------------------------------------------------------------------ order

  /** Bytewise lexicographic order; a proper prefix comes first. */
  predicate Less(a: Key, b: Key)
    decreases |a|
  {
    if b == [] then false
    else if a == [] then true
    else if a[0] != b[0] then a[0] < b[0]
    else Less(a[1..], b[1..])
  }

  /** Half-open row range; an empty upper bound means "to the end of the table". */
  predicate InRange(k: Key, lo: Key, hi: Key) {
    !Less(k, lo) && (hi == [] || Less(k, hi))
  }

  lemma {:induction false} LessIrreflexive(a: Key)
    ensures !Less(a, a)
    decreases |a|
  {
    if a != [] { LessIrreflexive(a[1..]); }
  }

  lemma {:induction false} LessTotal(a: Key, b: Key)
    ensures a == b || Less(a, b) || Less(b, a)
    decreases |a|
  {
    if a != [] && b != [] && a[0] == b[0] {
      LessTotal(a[1..], b[1..]);
      if a[1..] == b[1..] {
        assert a == [a[0]] + a[1..] == [b[0]] + b[1..] == b;
      }
    }
  }

  lemma {:induction false} LessTransitive(a: Key, b: Key, c: Key)
    requires Less(a, b) && Less(b, c)
    ensures Less(a, c)
    decreases |a|
  {
    if a != [] && a[0] == b[0] == c[0] {
      LessTransitive(a[1..], b[1..], c[1..]);
    }
  }

  lemma LessAsymmetric(a: Key, b: Key)
    ensures !(Less(a, b) && Less(b, a))
  {
    if Less(a, b) && Less(b, a) {
      LessTransitive(a, b, a);
      LessIrreflexive(a);
    }
  }

  /** A common prefix does not influence the order. */
  lemma {:induction false} LessCancel(p: Key, a: Key, b: Key)
    ensures Less(p + a, p + b) <==> Less(a, b)
    decreases |p|
  {
    if p == [] {
      assert p + a == a && p + b == b;
    } else {
      LessCancel(p[1..], a, b);
      assert (p + a)[1..] == p[1..] + a;
      assert (p + b)[1..] == p[1..] + b;
    }
  }

  /** Heads of equal length that differ decide the order; tails do not matter. */
  lemma {:induction false} LessHeads(a: Key, b: Key, x: Key, y: Key)
    requires |a| == |b| && a != b
    ensures Less(a + x, b + y) <==> Less(a, b)
    decreases |a|
  {
    assert a != [];
    assert (a + x)[1..] == a[1..] + x;
    assert (b + y)[1..] == b[1..] + y;
    if a[0] == b[0] {
      assert a == [a[0]] + a[1..] && b == [b[0]] + b[1..];
      LessHeads(a[1..], b[1..], x, y);
    }
  }

  lemma LessExtension(p: Key, x: Key)
    requires x != []
    ensures Less(p, p + x)
  {
    LessCancel(p, [], x);
    assert p + [] == p;
  }

  /** A string that does not start with q lies on the same side of every extension of q. */
  lemma {:induction false} SameSide(q: Key, k: Key, x: Key, y: Key)
    requires !(q <= k)
    ensures Less(k, q + x) <==> Less(k, q + y)
    decreases |q|
  {
    if k != [] && k[0] == q[0] {
      assert q == [q[0]] + q[1..] && k == [k[0]] + k[1..];
      SameSide(q[1..], k[1..], x, y);
      assert (q + x)[1..] == q[1..] + x;
      assert (q + y)[1..] == q[1..] + y;
    }
  }

  /** p followed by a zero byte is the immediate successor of p: nothing lies between. */
  lemma {:induction false} ZeroByteIsNext(p: Key, k: Key)
    ensures Less(p, k) <==> !Less(k, p + [0])
    decreases |p|
  {
    if p == [] {
      assert p + [0] == [0];
      if k != [] && k[0] == 0 { assert !Less(k[1..], []); }
    } else if k != [] {
      assert (p + [0])[1..] == p[1..] + [0];
      ZeroByteIsNext(p[1..], k[1..]);
    }
  }

  // ----------------------------------------------------------------- fields

  predicate Free(s: Key, sep: byte) {
    forall i :: 0 <= i < |s| ==> s[i] != sep
  }

  /** One field, the colon, and the rest of the key. */
  function Sep(field: Key, rest: Key): Key {
    field + [COLON] + rest
  }

  lemma SepCancel(f: Key, a: Key, b: Key)
    ensures Less(Sep(f, a), Sep(f, b)) <==> Less(a, b)
  {
    LessCancel(f + [COLON], a, b);
  }

  lemma SepExtends(f: Key, x: Key, y: Key)
    requires x <= y
    ensures Sep(f, x) <= Sep(f, y)
  {
    assert y == x + y[|x|..];
    assert Sep(f, y) == Sep(f, x) + y[|x|..];
  }

  /** Fields free of their separator can be read back: a prefix relation between two keys
      forces their first fields to agree. */
  lemma FieldPrefix(f: Key, x: Key, g: Key, y: Key, sep: byte)
    requires Free(f, sep) && Free(g, sep)
    requires f + [sep] + x <= g + [sep] + y
    ensures f == g && x <= y
  {
    var a, b := f + [sep] + x, g + [sep] + y;
    assert a == b[..|a|];
    assert a[|f|] == sep == b[|f|];
    assert b[|g|] == sep;
    assert |g| < |a| ==> a[|g|] == b[|g|];
    assert |f| == |g|;
    assert f == a[..|f|] == b[..|g|] == g;
    assert x == a[|f| + 1..] && y == b[|g| + 1..];
  }

  lemma SepPrefix(f: Key, x: Key, g: Key, y: Key)
    requires Free(f, COLON) && Free(g, COLON)
    requires Sep(f, x) <= Sep(g, y)
    ensures f == g && x <= y
  {
    FieldPrefix(f, x, g, y, COLON);
  }

  lemma SepInjective(f: Key, x: Key, g: Key, y: Key)
    requires Free(f, COLON) && Free(g, COLON)
    requires Sep(f, x) == Sep(g, y)
    ensures f == g && x == y
  {
    SepPrefix(f, x, g, y);
    SepPrefix(g, y, f, x);
  }

  /** Go's strings.Split for a one-byte separator. */
  function Split(s: Key, sep: byte): (parts: seq<Key>)
    ensures |parts| >= 1
  {
    if s == [] then [[]]
    else
      var rest := Split(s[1..], sep);
      if s[0] == sep then [[]] + rest
      else [[s[0]] + rest[0]] + rest[1..]
  }

  /** Go's strings.Join for a one-byte separator. */
  function Join(parts: seq<Key>, sep: byte): Key {
    if |parts| == 0 then []
    else if |parts| == 1 then parts[0]
    else parts[0] + [sep] + Join(parts[1..], sep)
  }

  lemma JoinCons(f: Key, rest: seq<Key>)
    requires rest != []
    ensures Join([f] + rest, COLON) == Sep(f, Join(rest, COLON))
  {
    assert ([f] + rest)[1..] == rest;
  }

  lemma {:induction false} SplitFree(f: Key, sep: byte)
    requires Free(f, sep)
    ensures Split(f, sep) == [f]
    decreases |f|
  {
    if f != [] {
      SplitFree(f[1..], sep);
      assert f == [f[0]] + f[1..];
    }
  }

  lemma {:induction false} SplitField(f: Key, rest: Key, sep: byte)
    requires Free(f, sep)
    ensures Split(f + [sep] + rest, sep) == [f] + Split(rest, sep)
    decreases |f|
  {
    var s := f + [sep] + rest;
    if f == [] {
      assert s[1..] == rest;
    } else {
      assert s[1..] == f[1..] + [sep] + rest;
      SplitField(f[1..], rest, sep);
      assert f == [f[0]] + f[1..];
    }
  }

  /** Splitting a joined list gives the list back, provided no part contains the separator. */
  lemma {:induction false} SplitJoin(parts: seq<Key>, sep: byte)
    requires |parts| >= 1
    requires forall i :: 0 <= i < |parts| ==> Free(parts[i], sep)
    ensures Split(Join(parts, sep), sep) == parts
    decreases |parts|
  {
    if |parts| == 1 {
      SplitFree(parts[0], sep);
    } else {
      SplitField(parts[0], Join(parts[1..], sep), sep);
      SplitJoin(parts[1..], sep);
    }
  }

  lemma {:induction false} SplitParts(s: Key, sep: byte)
    ensures forall i :: 0 <= i < |Split(s, sep)| ==> Free(Split(s, sep)[i], sep)
    decreases |s|
  {
    if s != [] { SplitParts(s[1..], sep); }
  }

  /** ... and exactly then, for a list that is not empty. */
  lemma SplitJoinExactly(parts: seq<Key>, sep: byte)
    ensures Split(Join(parts, sep), sep) == parts <==> parts != [] && forall i :: 0 <= i < |parts| ==> Free(parts[i], sep)
  {
    SplitParts(Join(parts, sep), sep);
    if parts != [] && forall i :: 0 <= i < |parts| ==> Free(parts[i], sep) { SplitJoin(parts, sep); }
  }

  lemma JoinFirstByte(c: byte, f: Key, rest: seq<Key>, sep: byte)
    ensures Join([[c] + f] + rest, sep) == [c] + Join([f] + rest, sep)
  {
    assert ([[c] + f] + rest)[1..] == rest && ([f] + rest)[1..] == rest;
  }

  /** The first parts of a split string, joined again, are a prefix of it. */
  lemma {:induction false} JoinSplitPrefix(s: Key, n: nat, sep: byte)
    requires 1 <= n <= |Split(s, sep)|
    ensures Join(Split(s, sep)[..n], sep) <= s
    decreases |s|
  {
    if s != [] {
      var rest := Split(s[1..], sep);
      if s[0] == sep {
        if n > 1 {
          JoinSplitPrefix(s[1..], n - 1, sep);
          assert Split(s, sep)[..n] == [[]] + rest[..n - 1];
          assert Split(s, sep)[..n][1..] == rest[..n - 1];
          assert s == [sep] + s[1..];
        } else {
          assert Split(s, sep)[..1] == [[]];
        }
      } else {
        JoinSplitPrefix(s[1..], n, sep);
        JoinFirstByte(s[0], rest[0], rest[1..n], sep);
        assert Split(s, sep)[..n] == [[s[0]] + rest[0]] + rest[1..n];
        assert rest[..n] == [rest[0]] + rest[1..n];
        assert s == [s[0]] + s[1..];
      }
    }
  }

  /** The first part of a split string is what comes before the first separator. */
  lemma {:induction false} SplitHead(s: Key, sep: byte)
    ensures var head := Split(s, sep)[0];
            Free(head, sep) && head <= s && (|head| < |s| ==> s[|head|] == sep)
    decreases |s|
  {
    if s != [] && s[0] != sep {
      SplitHead(s[1..], sep);
      assert s == [s[0]] + s[1..];
    }
  }

  lemma HeadUnique(s: Key, head: Key, sep: byte)
    requires Free(head, sep) && head <= s && (|head| < |s| ==> s[|head|] == sep)
    ensures Split(s, sep)[0] == head
  {
    SplitHead(s, sep);
    var first := Split(s, sep)[0];
    assert forall i :: 0 <= i < |head| ==> s[i] == head[i] != sep;
    assert forall i :: 0 <= i < |first| ==> s[i] == first[i] != sep;
    assert first == s[..|first|] && head == s[..|head|];
  }
}
