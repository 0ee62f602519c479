/** Where the duty rows of a slot lie in the table, and which of them a window read meets. */
module DutyWindow {
  import opened Bytes
  import opened Words
  import opened Decimal
  import opened KeyCodec
  import opened AttestationCells

  /** The lower bound of the rows of an epoch: every slot row of the epoch extends it. */
  function EpochPrefix(chain: Key, epoch: u64): Key {
    Sep(chain, Sep(TAG_E, Sep(ReversedPadded(epoch), Sep(TAG_S, []))))
  }

  /** Epochs of slots below 10^9 with at least two slots each. */
  const EPOCH_BOUND: u64 := 500_000_000

  /** The order in which a scan meets two epochs: descending, but zero before all others. */
  predicate Before(e: u64, f: u64) {
    e != f && (e == 0 || (f != 0 && e > f))
  }

  // ---------------------------------------------------- renderings of different widths

  /** How many digits a number has on nine columns. */
  function Width(n: nat): (w: nat)
    ensures w >= 9
  {
    if DecLen(n) > 9 then DecLen(n) else 9
  }

  lemma WidthFits(n: nat)
    ensures Pad(n, 9) == Digits(n, Width(n)) && n < Pow10(Width(n))
  {
    DecLenBound(n);
    Pow10Monotone(DecLen(n), Width(n));
  }

  /** A number without its last k digits. */
  function Lead(n: nat, k: nat): nat {
    if k == 0 then n else Lead(n / 10, k - 1)
  }

  /** The order of two numbers printed on nine columns and followed by a colon, which comes
      after every digit: the common leading digits decide, and then the longer one is first. */
  predicate ColonLess(a: nat, b: nat) {
    var v, w := Width(a), Width(b);
    if v == w then a < b
    else if v < w then a < Lead(b, w - v)
    else Lead(a, v - w) <= b
  }

  /** The rendering without its last digits is that of the number without them. */
  lemma {:induction false} DigitsSplit(n: nat, w: nat, k: nat)
    ensures Digits(n, w + k) == Digits(Lead(n, k), w) + Digits(n, k)
    decreases k
  {
    if k > 0 {
      DigitsSplit(n / 10, w, k - 1);
      assert Digits(n, w + k) == Digits(n / 10, w + k - 1) + [48 + n % 10];
    } else {
      assert Digits(n, 0) == [];
    }
  }

  lemma {:induction false} LeadingFits(n: nat, w: nat, k: nat)
    requires n < Pow10(w + k)
    ensures Lead(n, k) < Pow10(w)
    decreases k
  {
    if k > 0 { LeadingFits(n / 10, w, k - 1); }
  }

  /** The digits of a shorter number and the leading digits of a longer one. */
  lemma LeadingDigits(a: nat, b: nat) returns (q: Key, r: Key)
    requires Width(a) < Width(b)
    ensures var lead := Lead(b, Width(b) - Width(a));
            Pad(b, 9) == q + r && |q| == |Pad(a, 9)| && r != [] && (forall i :: 0 <= i < |r| ==> r[i] < COLON) &&
            (Pad(a, 9) == q <==> a == lead) && (Less(Pad(a, 9), q) <==> a < lead) && (Less(q, Pad(a, 9)) <==> lead < a)
  {
    var v, k := Width(a), Width(b) - Width(a);
    var lead := Lead(b, k);
    WidthFits(a);
    WidthFits(b);
    DigitsSplit(b, v, k);
    LeadingFits(b, v, k);
    q, r := Digits(lead, v), Digits(b, k);
    DigitsOrderIff(a, lead, v);
    DigitsOrderIff(lead, a, v);
    if a != lead { DigitsDiffer(a, lead, v); }
  }

  /** A shorter rendering against a longer one. */
  lemma ShorterAgainstLonger(a: nat, b: nat, x: Key, y: Key)
    requires Width(a) < Width(b)
    ensures Less(Sep(Pad(a, 9), x), Sep(Pad(b, 9), y)) <==> ColonLess(a, b)
    ensures Less(Sep(Pad(b, 9), y), Sep(Pad(a, 9), x)) <==> ColonLess(b, a)
  {
    var q, r := LeadingDigits(a, b);
    var p := Pad(a, 9);
    assert Sep(p, x) == p + ([COLON] + x);
    assert Sep(q + r, y) == q + (r + [COLON] + y);
    HeadsThenColon(p, q, r, x, y);
  }

  lemma HeadsThenColon(p: Key, q: Key, r: Key, x: Key, y: Key)
    requires |p| == |q| && r != [] && forall i :: 0 <= i < |r| ==> r[i] < COLON
    ensures p != q ==> (Less(p + ([COLON] + x), q + (r + [COLON] + y)) <==> Less(p, q)) &&
                       (Less(q + (r + [COLON] + y), p + ([COLON] + x)) <==> Less(q, p))
    ensures p == q ==> !Less(p + ([COLON] + x), q + (r + [COLON] + y)) && Less(q + (r + [COLON] + y), p + ([COLON] + x))
  {
    var s, t := [COLON] + x, r + [COLON] + y;
    assert s[0] == COLON && t[0] == r[0];
    if p == q {
      LessCancel(p, s, t);
      LessCancel(p, t, s);
    } else {
      LessHeads(p, q, s, t);
      LessHeads(q, p, t, s);
    }
  }

  /** What follows the numbers in the keys does not matter. */
  lemma ColonOrder(a: nat, b: nat, x: Key, y: Key)
    requires a != b
    ensures Less(Sep(Pad(a, 9), x), Sep(Pad(b, 9), y)) <==> ColonLess(a, b)
  {
    if Width(a) < Width(b) {
      ShorterAgainstLonger(a, b, x, y);
    } else if Width(b) < Width(a) {
      ShorterAgainstLonger(b, a, y, x);
    } else {
      WidthFits(a);
      WidthFits(b);
      DigitsDiffer(a, b, Width(a));
      DigitsOrderIff(a, b, Width(a));
      LessHeads(Pad(a, 9), Pad(b, 9), [COLON] + x, [COLON] + y);
      assert Sep(Pad(a, 9), x) == Pad(a, 9) + ([COLON] + x);
      assert Sep(Pad(b, 9), y) == Pad(b, 9) + ([COLON] + y);
    }
  }

  // ------------------------------------------------------------------------- windows

  function Reversed(n: u64): u64 {
    Sub64(MAX_NUMBER, n)
  }

  /** Whether a window read covers an epoch, for every start and limit, wrapped range ends
      included. */
  predicate Covered(e: u64, start: u64, limit: u64) {
    !ColonLess(Reversed(e), Reversed(start)) && ColonLess(Reversed(e), Reversed(Sub64(start, limit)))
  }

  lemma PrefixOrder(chain: Key, e: u64, slot: u64, f: u64)
    ensures Less(DutyKey(chain, e, slot), EpochPrefix(chain, f)) <==>
            Less(Sep(ReversedPadded(e), Sep(TAG_S, ReversedPadded(slot))), Sep(ReversedPadded(f), Sep(TAG_S, [])))
  {
    var x := Sep(ReversedPadded(e), Sep(TAG_S, ReversedPadded(slot)));
    var y := Sep(ReversedPadded(f), Sep(TAG_S, []));
    SepCancel(chain, Sep(TAG_E, x), Sep(TAG_E, y));
    SepCancel(TAG_E, x, y);
  }

  /** A slot row against the lower bound of any epoch number. */
  lemma RowAgainstEpoch(chain: Key, e: u64, slot: u64, f: u64)
    ensures Less(DutyKey(chain, e, slot), EpochPrefix(chain, f)) <==> ColonLess(Reversed(e), Reversed(f))
  {
    PrefixOrder(chain, e, slot, f);
    var x, y := Sep(TAG_S, ReversedPadded(slot)), Sep(TAG_S, []);
    if e == f {
      SepCancel(ReversedPadded(e), x, y);
      SepCancel(TAG_S, ReversedPadded(slot), []);
    } else {
      ColonOrder(Reversed(e), Reversed(f), x, y);
    }
  }

  predicate InWindow(k: Key, chain: Key, start: u64, limit: u64) {
    InRange(k, EpochPrefix(chain, start), EpochPrefix(chain, Sub64(start, limit)))
  }

  lemma WindowExact(chain: Key, e: u64, slot: u64, start: u64, limit: u64)
    ensures InWindow(DutyKey(chain, e, slot), chain, start, limit) <==> Covered(e, start, limit)
  {
    RowAgainstEpoch(chain, e, slot, start);
    RowAgainstEpoch(chain, e, slot, Sub64(start, limit));
    assert EpochPrefix(chain, Sub64(start, limit)) != [];
  }

  lemma NineWide(n: nat)
    requires n < 1_000_000_000
    ensures Width(n) == 9
  {
    PowersOfTen();
    DecLenFits(n, 9);
  }

  lemma TenWide(n: nat)
    requires 1_000_000_000 <= n < 10_000_000_000
    ensures Width(n) == 10 && Lead(n, 1) == n / 10
  {
    PowersOfTen();
    assert Pow10(10) == 10_000_000_000;
    DecLenFits(n, 9);
    DecLenFits(n, 10);
    assert Lead(n / 10, 0) == n / 10;
  }

  /** Two epochs below the bound. */
  lemma EpochsCompare(e: u64, f: u64)
    requires e < EPOCH_BOUND && f < EPOCH_BOUND
    ensures ColonLess(Reversed(e), Reversed(f)) <==> Before(e, f)
  {
    if e == 0 { TenWide(MAX_NUMBER); } else { NineWide(MAX_NUMBER - e); }
    if f == 0 { TenWide(MAX_NUMBER); } else { NineWide(MAX_NUMBER - f); }
  }

  lemma EpochOrder(e: u64, f: u64, x: Key, y: Key)
    requires e < EPOCH_BOUND && f < EPOCH_BOUND && e != f
    ensures Less(Sep(ReversedPadded(e), x), Sep(ReversedPadded(f), y)) <==> Before(e, f)
  {
    ColonOrder(Reversed(e), Reversed(f), x, y);
    EpochsCompare(e, f);
  }

  /** An epoch below the bound against an epoch number that wrapped below zero. */
  lemma WrappedCompare(e: u64, k: nat)
    requires e < EPOCH_BOUND && 1 <= k <= 4_000_000_000
    ensures ColonLess(Reversed(e), Reversed(TWO64 - k)) <==> e == 0
  {
    TenWide(MAX_NUMBER + k);
    if e == 0 { TenWide(MAX_NUMBER); } else { NineWide(MAX_NUMBER - e); }
  }

  /** In plain terms, for limits up to four billion: the limit epochs up to start, unless the
      window touches epoch 0; then nothing, except that start 0 covers epoch 0. */
  predicate CoveredPlainly(e: u64, start: u64, limit: u64) {
    if start == 0 then e == 0 else limit < start && start - limit < e <= start
  }

  lemma PlainWindow(e: u64, start: u64, limit: u64)
    requires e < EPOCH_BOUND && start < EPOCH_BOUND && 1 <= limit <= 4_000_000_000
    ensures Covered(e, start, limit) <==> CoveredPlainly(e, start, limit)
  {
    EpochsCompare(e, start);
    if limit <= start { EpochsCompare(e, start - limit); } else { WrappedCompare(e, limit - start); }
  }

  /** A caller gets the epochs start-limit+1 .. start exactly when the window stays above
      epoch 0, or consists of epoch 0 alone. */
  lemma WindowFaithful(start: u64, limit: u64)
    requires start < EPOCH_BOUND && 1 <= limit <= 4_000_000_000
    ensures (forall e: u64 :: e < EPOCH_BOUND ==> (Covered(e, start, limit) <==> start - limit < e <= start)) <==>
            (limit < start || start == 0)
  {
    forall e: u64 | e < EPOCH_BOUND ensures Covered(e, start, limit) <==> CoveredPlainly(e, start, limit) {
      PlainWindow(e, start, limit);
    }
    if 0 < start <= limit {
      assert !Covered(1, start, limit) && start - limit < 1 <= start;
    }
  }

  // ------------------------------------------------------------------ one row per slot

  predicate SlotOk(slotsPerEpoch: u64, slot: u64) {
    2 <= slotsPerEpoch < 900_000_000 && slot < MAX_NUMBER
  }

  lemma Euclid(d: nat, e: nat, f: nat, r: nat)
    requires d >= 1 && e * d <= f * d + r && r < d
    ensures e <= f
  {
    assert (f + 1) * d == f * d + d;
    if f + 1 <= e { MulMonotone(f + 1, e, d); }
  }

  lemma MulMonotone(a: nat, b: nat, d: nat)
    requires a <= b
    ensures a * d <= b * d
  {}

  lemma EpochBounded(slotsPerEpoch: u64, slot: u64)
    requires SlotOk(slotsPerEpoch, slot)
    ensures EpochOf(slotsPerEpoch, slot) < EPOCH_BOUND
  {
    var e := EpochOf(slotsPerEpoch, slot);
    DivMod(slot, slotsPerEpoch);
    MulMonotone(2, slotsPerEpoch, e);
    assert slotsPerEpoch * e == e * slotsPerEpoch;
  }

  lemma DivMod(n: nat, d: nat)
    requires d >= 1
    ensures n == (n / d) * d + n % d && 0 <= n % d < d
  {}

  lemma EpochMonotone(slotsPerEpoch: u64, s: u64, t: u64)
    requires slotsPerEpoch >= 1 && s <= t
    ensures EpochOf(slotsPerEpoch, s) <= EpochOf(slotsPerEpoch, t)
  {
    DivMod(s, slotsPerEpoch);
    DivMod(t, slotsPerEpoch);
    Euclid(slotsPerEpoch, s / slotsPerEpoch, t / slotsPerEpoch, t % slotsPerEpoch);
  }

  lemma ReversedFree(n: u64)
    ensures Free(ReversedPadded(n), COLON)
  {
    PadFree(Sub64(MAX_NUMBER, n), 9, COLON);
  }

  /** The slot is the fifth field of its row key. */
  lemma SlotField(chain: Key, epoch: u64, slot: u64)
    requires Free(chain, COLON)
    ensures |Split(DutyKey(chain, epoch, slot), COLON)| == 5
    ensures Split(DutyKey(chain, epoch, slot), COLON)[4] == ReversedPadded(slot)
  {
    var d := ReversedPadded(slot);
    var c := Sep(TAG_S, d);
    var b := Sep(ReversedPadded(epoch), c);
    ReversedFree(slot);
    ReversedFree(epoch);
    SplitFree(d, COLON);
    SplitField(TAG_S, d, COLON);
    SplitField(ReversedPadded(epoch), c, COLON);
    SplitField(TAG_E, b, COLON);
    SplitField(chain, Sep(TAG_E, b), COLON);
  }

  /** The slot a reader takes a row to be about. */
  function SlotOfKey(k: Key): Option<u64> {
    var parts := Split(k, COLON);
    if |parts| <= 4 || ParseUint(parts[4]).None? then None
    else Some(Sub64(MAX_NUMBER, ParseUint(parts[4]).value))
  }

  lemma SlotReadBack(chain: Key, epoch: u64, slot: u64)
    requires Free(chain, COLON)
    ensures SlotOfKey(DutyKey(chain, epoch, slot)) == Some(slot)
  {
    SlotField(chain, epoch, slot);
    ReversedPaddedRoundTrip(slot);
  }

  lemma DutyKeyOrder(chain: Key, e: u64, s: u64, f: u64, t: u64)
    ensures Less(DutyKey(chain, e, s), DutyKey(chain, f, t)) <==>
            Less(Sep(ReversedPadded(e), Sep(TAG_S, ReversedPadded(s))),
                 Sep(ReversedPadded(f), Sep(TAG_S, ReversedPadded(t))))
  {
    var x := Sep(ReversedPadded(e), Sep(TAG_S, ReversedPadded(s)));
    var y := Sep(ReversedPadded(f), Sep(TAG_S, ReversedPadded(t)));
    SepCancel(chain, Sep(TAG_E, x), Sep(TAG_E, y));
    SepCancel(TAG_E, x, y);
  }

  /** The order in which a scan meets two slots: newest first, but the slots of epoch 0
      before all others, and among them slot 0 first. */
  predicate MetFirst(slotsPerEpoch: u64, s: u64, t: u64) {
    if s < slotsPerEpoch then t >= slotsPerEpoch || Before(s, t) else t >= slotsPerEpoch && s > t
  }

  lemma SlotOrder(chain: Key, slotsPerEpoch: u64, s: u64, t: u64)
    requires SlotOk(slotsPerEpoch, s) && SlotOk(slotsPerEpoch, t) && MetFirst(slotsPerEpoch, s, t)
    ensures Less(RowOfSlot(chain, slotsPerEpoch)(s), RowOfSlot(chain, slotsPerEpoch)(t))
  {
    var e, f := EpochOf(slotsPerEpoch, s), EpochOf(slotsPerEpoch, t);
    DutyKeyOrder(chain, e, s, f, t);
    GenesisSlots(s, slotsPerEpoch);
    GenesisSlots(t, slotsPerEpoch);
    if e == f {
      SlotOrderWithin(slotsPerEpoch, s, t);
      SepCancel(ReversedPadded(e), Sep(TAG_S, ReversedPadded(s)), Sep(TAG_S, ReversedPadded(t)));
      SepCancel(TAG_S, ReversedPadded(s), ReversedPadded(t));
    } else {
      EpochsDiffer(slotsPerEpoch, s, t);
      EpochOrder(e, f, Sep(TAG_S, ReversedPadded(s)), Sep(TAG_S, ReversedPadded(t)));
    }
  }

  lemma GenesisSlots(s: u64, d: u64)
    requires d >= 1
    ensures EpochOf(d, s) == 0 <==> s < d
  {
    DivMod(s, d);
    if s < d { Euclid(d, EpochOf(d, s), 0, s); }
  }

  lemma EpochsDiffer(slotsPerEpoch: u64, s: u64, t: u64)
    requires SlotOk(slotsPerEpoch, s) && SlotOk(slotsPerEpoch, t) && MetFirst(slotsPerEpoch, s, t)
    requires EpochOf(slotsPerEpoch, s) != EpochOf(slotsPerEpoch, t)
    ensures EpochOf(slotsPerEpoch, s) < EPOCH_BOUND && EpochOf(slotsPerEpoch, t) < EPOCH_BOUND
    ensures Before(EpochOf(slotsPerEpoch, s), EpochOf(slotsPerEpoch, t))
  {
    EpochBounded(slotsPerEpoch, s);
    EpochBounded(slotsPerEpoch, t);
    GenesisSlots(s, slotsPerEpoch);
    GenesisSlots(t, slotsPerEpoch);
    if t <= s { EpochMonotone(slotsPerEpoch, t, s); }
  }

  lemma SlotOrderWithin(slotsPerEpoch: u64, s: u64, t: u64)
    requires SlotOk(slotsPerEpoch, s) && SlotOk(slotsPerEpoch, t) && MetFirst(slotsPerEpoch, s, t)
    requires EpochOf(slotsPerEpoch, s) == EpochOf(slotsPerEpoch, t)
    ensures Less(ReversedPadded(s), ReversedPadded(t))
  {
    GenesisSlots(s, slotsPerEpoch);
    GenesisSlots(t, slotsPerEpoch);
    if s == 0 {
      ReversedPaddedOrder(0, t);
      PadInjectiveReversed(0, t);
      LessTotal(ReversedPadded(0), ReversedPadded(t));
    } else {
      ReversedPaddedOrder(t, s);
    }
  }
}
