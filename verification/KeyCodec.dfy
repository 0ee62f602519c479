/** The number encoders of the row keys and the prefix bound used by every page read. */
module KeyCodec {
  import opened Bytes
  import opened Words
  import opened Decimal

  const MAX_NUMBER: u64 := 1_000_000_000
  const MAX_INT: u64 := 9_223_372_036_854_775_807
  const MAX_TX_INDEX: nat := 10_000

  // ----------------------------------------------------------- number encoders

  /** reversedPaddedBlockNumber, reversedPaddedEpoch and reversedPaddedSlot: one encoding. */
  function ReversedPadded(n: u64): Key {
    Pad(Sub64(MAX_NUMBER, n), 9)
  }

  /** reversePaddedBigtableTimestamp, for the non-negative seconds of an int64. */
  function ReversedTimestamp(seconds: nat): Key
    requires seconds <= MAX_INT
  {
    Pad(MAX_INT - seconds, 19)
  }

  /** reversePaddedIndex: the width is one less than the length of maxValue itself. */
  function ReversedIndex(i: nat, maxValue: nat): Key
    requires i <= maxValue
  {
    Pad(maxValue - i, |Dec(maxValue)| - 1)
  }

  lemma PowersOfTen()
    ensures Pow10(4) == 10_000
    ensures Pow10(9) == 1_000_000_000
    ensures Pow10(18) == 1_000_000_000_000_000_000
    ensures Pow10(19) == 10_000_000_000_000_000_000
  {
    assert Pow10(2) == 100;
    assert Pow10(4) == 10_000;
    assert Pow10(6) == 1_000_000;
    assert Pow10(8) == 100_000_000;
    assert Pow10(9) == 1_000_000_000;
    assert Pow10(11) == 100_000_000_000;
    assert Pow10(13) == 10_000_000_000_000;
    assert Pow10(15) == 1_000_000_000_000_000;
    assert Pow10(17) == 100_000_000_000_000_000;
    assert Pow10(18) == 1_000_000_000_000_000_000;
  }

  /** 10^w printed on w columns overflows by one digit. */
  lemma PadOfPower(w: nat)
    requires w >= 1
    ensures Pad(Pow10(w), w) == Digits(Pow10(w - 1), w) + [48]
  {
    DecLenFits(Pow10(w), w);
    DecLenFits(Pow10(w), w + 1);
    assert Pow10(w) / 10 == Pow10(w - 1) && Pow10(w) % 10 == 0;
  }

  /** The exact order of reversed numbers below a power of ten: larger numbers come first,
      except around zero, whose rendering is one digit wider than all others. */
  lemma ReversedOrderExact(a: nat, b: nat, w: nat)
    requires w >= 1 && a < b <= Pow10(w)
    ensures Less(Pad(Pow10(w) - b, w), Pad(Pow10(w) - a, w)) <==>
            a > 0 || Pow10(w) - b <= Pow10(w - 1)
  {
    var v := Pow10(w) - b;
    PadFits(v, w);
    if a > 0 {
      PadFits(Pow10(w) - a, w);
      DigitsOrder(v, Pow10(w) - a, w);
    } else {
      PadOfPower(w);
      var ten := Pow10(w - 1);
      assert ten < Pow10(w);
      if v == ten {
        LessExtension(Digits(v, w), [48]);
      } else {
        DigitsOrderIff(v, ten, w);
        DigitsDiffer(v, ten, w);
        LessHeads(Digits(v, w), Digits(ten, w), [], [48]);
        assert Digits(v, w) + [] == Digits(v, w);
      }
    }
  }

  lemma DigitsDiffer(a: nat, b: nat, w: nat)
    requires a < Pow10(w) && b < Pow10(w) && a != b
    ensures Digits(a, w) != Digits(b, w)
  {
    ValueOfDigits(a, w);
    ValueOfDigits(b, w);
  }

  /** Block, epoch and slot numbers: an ascending scan meets larger numbers first on
      1..10^9; number 0 breaks this exactly below 900000000. */
  lemma ReversedPaddedOrder(a: u64, b: u64)
    requires a < b <= MAX_NUMBER
    ensures Less(ReversedPadded(b), ReversedPadded(a)) <==> a > 0 || b >= 900_000_000
  {
    PowersOfTen();
    assert Pow10(8) == 100_000_000;
    ReversedOrderExact(a, b, 9);
  }

  lemma GenesisOutOfOrder()
    ensures Less(ReversedPadded(0), ReversedPadded(1))
  {
    ReversedPaddedOrder(0, 1);
    PadInjectiveReversed(0, 1);
    LessTotal(ReversedPadded(0), ReversedPadded(1));
  }

  /** No two 64-bit numbers share a rendering, even where the subtraction wraps. */
  lemma PadInjectiveReversed(a: u64, b: u64)
    ensures ReversedPadded(a) == ReversedPadded(b) ==> a == b
  {
    if ReversedPadded(a) == ReversedPadded(b) {
      PadInjective(Sub64(MAX_NUMBER, a), Sub64(MAX_NUMBER, b), 9);
    }
  }

  /** Parsing a rendered number and subtracting it from the maximum recovers it. */
  lemma ReversedPaddedRoundTrip(n: u64)
    ensures ParseUint(ReversedPadded(n)).Some?
    ensures Sub64(MAX_NUMBER, ParseUint(ReversedPadded(n)).value) == n
  {
    ParsePad(Sub64(MAX_NUMBER, n), 9);
  }

  /** What the numbers in keys say: the distance to a billion on nine columns, to the last
      int64 on nineteen, and to ten thousand on four. */
  lemma RenderingsSay(n: u64, seconds: nat, i: nat)
    requires n <= 1_000_000_000 && seconds <= 9_223_372_036_854_775_807 && i <= 10_000
    ensures IsDecimal(ReversedPadded(n), 1_000_000_000 - n, 9)
    ensures IsDecimal(ReversedTimestamp(seconds), 9_223_372_036_854_775_807 - seconds, 19)
    ensures IsDecimal(ReversedIndex(i, 10_000), 10_000 - i, 4)
  {
    PadIsDecimal(1_000_000_000 - n, 9);
    PadIsDecimal(9_223_372_036_854_775_807 - seconds, 19);
    PadIsDecimal(10_000 - i, 4);
    PowersOfTen();
    PowerLength(4);
  }

  /** Beyond a billion the subtraction wraps, and twenty digits say so. */
  lemma WrappedSays(n: u64)
    requires n > 1_000_000_000
    ensures IsDecimal(ReversedPadded(n), 1_000_000_000 + 18_446_744_073_709_551_616 - n, 9)
  {
    PadIsDecimal(Sub64(MAX_NUMBER, n), 9);
  }

  /** Timestamps: always nineteen digits, newest first, on the whole non-negative range. */
  lemma ReversedTimestampOrder(a: nat, b: nat)
    requires a <= MAX_INT && b <= MAX_INT
    ensures |ReversedTimestamp(a)| == |ReversedTimestamp(b)| == 19
    ensures Less(ReversedTimestamp(b), ReversedTimestamp(a)) <==> a < b
    ensures ReversedTimestamp(a) == ReversedTimestamp(b) ==> a == b
  {
    PowersOfTen();
    DescendingOrder(a, b, MAX_INT, 19);
  }

  lemma DescendingOrder(a: nat, b: nat, m: nat, w: nat)
    requires w >= 1 && a <= m && b <= m && m < Pow10(w)
    ensures |Pad(m - a, w)| == |Pad(m - b, w)| == w
    ensures Less(Pad(m - b, w), Pad(m - a, w)) <==> a < b
    ensures Pad(m - a, w) == Pad(m - b, w) ==> a == b
  {
    PadFits(m - a, w);
    PadFits(m - b, w);
    DigitsOrderIff(m - b, m - a, w);
    if a != b { DigitsDiffer(m - a, m - b, w); }
  }

  /** The order in which a scan meets the entries up to a maximum: from the last one down,
      with number 0 slipped in before the last tenth of the way. */
  predicate MetBeforeIn(i: nat, j: nat, maxValue: nat) {
    if i == 0 then 0 < j < maxValue - maxValue / 10
    else if j == 0 then i >= maxValue - maxValue / 10
    else i > j
  }

  /** For the transactions of one block number 0 comes right before number 8999. */
  predicate MetBefore(i: nat, j: nat) {
    MetBeforeIn(i, j, MAX_TX_INDEX)
  }

  lemma PowerLength(w: nat)
    requires w >= 1
    ensures |Dec(Pow10(w))| == w + 1
  {
    DecLenFits(Pow10(w), w);
    DecLenFits(Pow10(w), w + 1);
    assert Pow10(w + 1) == 10 * Pow10(w);
  }

  lemma DistinctPads(a: nat, b: nat, w: nat)
    requires a != b
    ensures Pad(a, w) != Pad(b, w)
  {
    ValueOfPad(a, w);
    ValueOfPad(b, w);
  }

  lemma PadOrderUp(a: nat, b: nat, w: nat)
    requires w >= 1 && a < b <= Pow10(w)
    ensures Less(Pad(Pow10(w) - b, w), Pad(Pow10(w) - a, w)) <==> a > 0 || b >= Pow10(w) - Pow10(w) / 10
    ensures Less(Pad(Pow10(w) - a, w), Pad(Pow10(w) - b, w)) <==> a == 0 && b < Pow10(w) - Pow10(w) / 10
    ensures Pad(Pow10(w) - a, w) != Pad(Pow10(w) - b, w)
  {
    var x, y := Pad(Pow10(w) - a, w), Pad(Pow10(w) - b, w);
    assert Pow10(w) / 10 == Pow10(w - 1);
    ReversedOrderExact(a, b, w);
    DistinctPads(Pow10(w) - a, Pow10(w) - b, w);
    LessTotal(x, y);
    LessAsymmetric(x, y);
  }

  lemma IndexOrderUp(a: nat, b: nat, w: nat)
    requires w >= 1 && a < b <= Pow10(w)
    ensures Less(ReversedIndex(b, Pow10(w)), ReversedIndex(a, Pow10(w))) <==> MetBeforeIn(b, a, Pow10(w))
    ensures Less(ReversedIndex(a, Pow10(w)), ReversedIndex(b, Pow10(w))) <==> MetBeforeIn(a, b, Pow10(w))
    ensures ReversedIndex(a, Pow10(w)) != ReversedIndex(b, Pow10(w))
  {
    PowerLength(w);
    PadOrderUp(a, b, w);
  }

  /** For every power of ten as the maximum, itself an index too: 10 and 100000 are in use
      besides 10000. */
  lemma ReversedIndexOrder(i: nat, j: nat, w: nat)
    requires w >= 1 && i <= Pow10(w) && j <= Pow10(w)
    ensures Less(ReversedIndex(i, Pow10(w)), ReversedIndex(j, Pow10(w))) <==> MetBeforeIn(i, j, Pow10(w))
    ensures ReversedIndex(i, Pow10(w)) == ReversedIndex(j, Pow10(w)) ==> i == j
  {
    if i < j { IndexOrderUp(i, j, w); }
    else if j < i { IndexOrderUp(j, i, w); }
    else { LessIrreflexive(ReversedIndex(i, Pow10(w))); }
  }

  lemma TxIndexOrder(i: nat, j: nat)
    requires i < MAX_TX_INDEX && j < MAX_TX_INDEX
    ensures Less(ReversedIndex(i, MAX_TX_INDEX), ReversedIndex(j, MAX_TX_INDEX)) <==> MetBefore(i, j)
    ensures ReversedIndex(i, MAX_TX_INDEX) == ReversedIndex(j, MAX_TX_INDEX) ==> i == j
  {
    PowersOfTen();
    ReversedIndexOrder(i, j, 4);
  }

  // ------------------------------------------------------------ prefix bounds

  /** The least string above every extension of p; empty when there is none. */
  function SuccessorOf(p: Key): Key {
    if p == [] then []
    else if p[|p| - 1] == 255 then SuccessorOf(p[..|p| - 1])
    else p[..|p| - 1] + [p[|p| - 1] + 1]
  }

  /** The first pos colon-separated fields of a prefix that has more of them. */
  function FirstFields(prefix: Key, pos: nat): Key {
    var split := Split(prefix, COLON);
    if |split| > pos then Join(split[..pos], COLON) else prefix
  }

  /** The range from a prefix to its successor holds exactly the keys with that prefix,
      whatever bytes the prefix consists of. */
  lemma {:induction false} SuccessorExact(p: Key, k: Key)
    ensures InRange(k, p, SuccessorOf(p)) <==> p <= k
    decreases |p|
  {
    if p == [] {
      assert !Less(k, []);
    } else {
      var q, c := p[..|p| - 1], p[|p| - 1];
      assert p == q + [c];
      if q <= k {
        assert k == q + k[|q|..];
        LastByte(q, c, k[|q|..]);
      }
      if c == 255 {
        SuccessorExact(q, k);
        if !Less(k, p) && Less(k, q) { LessExtension(q, [c]); LessTransitive(k, q, p); }
      } else if !(q <= k) {
        SameSide(q, k, [c], [c + 1]);
      }
    }
  }

  lemma LastByte(q: Key, c: byte, r: Key)
    ensures !Less(q + r, q + [c]) <==> r != [] && r[0] >= c
    ensures c < 255 ==> (Less(q + r, q + [c + 1]) <==> r == [] || r[0] <= c)
    ensures !Less(q + r, q)
    ensures q + [c] <= q + r <==> r != [] && r[0] == c
  {
    LessCancel(q, r, [c]);
    LessCancel(q, r, []);
    assert q + [] == q;
    if c < 255 { LessCancel(q, r, [c + 1]); }
    if r != [] {
      assert !Less(r[1..], []);
      assert (q + r)[|q|] == r[0];
    }
    if q + [c] <= q + r {
      assert (q + [c])[|q|] == (q + r)[|q|];
    }
  }

  lemma SuccessorSkips(p: Key, n: nat)
    requires n < |p|
    ensures SuccessorOf(p[..n + 1]) == if p[n] == 255 then SuccessorOf(p[..n]) else p[..n] + [p[n] + 1]
  {
    assert p[..n + 1][..n] == p[..n];
  }

  lemma SuccessorBoundsPrefix(prefix: Key, pos: nat)
    ensures var p := FirstFields(prefix, pos);
            forall k :: InRange(k, p, SuccessorOf(p)) <==> p <= k
  {
    var p := FirstFields(prefix, pos);
    forall k ensures InRange(k, p, SuccessorOf(p)) <==> p <= k { SuccessorExact(p, k); }
  }

  /** prefixSuccessor: keep the first pos fields, then bump the last byte below 0xff. */
  method PrefixSuccessor(prefix: Key, pos: nat) returns (succ: Key)
    ensures succ == SuccessorOf(FirstFields(prefix, pos))
    ensures forall k :: InRange(k, FirstFields(prefix, pos), succ) <==> FirstFields(prefix, pos) <= k
  {
    SuccessorBoundsPrefix(prefix, pos);
    if prefix == [] {
      return [];
    }
    var p := prefix;
    var split := Split(prefix, COLON);
    if |split| > pos {
      p := Join(split[..pos], COLON);
    }
    assert p == FirstFields(prefix, pos);
    var n := |p| - 1;
    assert p[..n + 1] == p;
    while n >= 0 && p[n] == 255
      invariant -1 <= n < |p|
      invariant SuccessorOf(p) == SuccessorOf(p[..n + 1])
    {
      SuccessorSkips(p, n);
      n := n - 1;
    }
    if n == -1 {
      return [];
    }
    SuccessorSkips(p, n);
    succ := p[..n] + [p[n] + 1];
  }

  lemma FirstFieldsPrefix(prefix: Key, pos: nat)
    requires pos >= 1
    ensures FirstFields(prefix, pos) <= prefix
  {
    if |Split(prefix, COLON)| > pos { JoinSplitPrefix(prefix, pos, COLON); }
  }

  /** Continuing a scan: after row key t inside a prefix range, the next page asks for
      [t + 0x00, successor), and that is exactly what lies beyond t in the range. */
  lemma NextPageRange(t: Key, p: Key, k: Key)
    requires p <= t
    ensures InRange(k, t + [0], SuccessorOf(p)) <==> Less(t, k) && p <= k
  {
    ZeroByteIsNext(t, k);
    SuccessorExact(p, k);
    SuccessorExact(p, t);
    if Less(t, k) && Less(k, p) { LessTransitive(t, k, p); }
  }
}
