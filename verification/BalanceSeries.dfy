/** Reading balances back: the history of some validators, and the fold of a window of
    epochs into statistics. */
module BalanceSeries {
  import opened Bytes
  import opened Words
  import opened Decimal
  import opened KeyOrder
  import opened KeyCodec
  import opened Extremes
  import opened Bigtable
  import opened ColumnScan
  import opened DutyWindow
  import opened BalanceCells

  // ------------------------------------------------------------------ window of rows

  lemma BalanceKeyOrder(chain: Key, e: u64, f: u64)
    ensures Less(BalanceKey(chain, e), BalanceKey(chain, f)) <==> Less(ReversedPadded(e), ReversedPadded(f))
  {
    var x, y := ReversedPadded(e), ReversedPadded(f);
    SepCancel(chain, Sep(TAG_EPOCH, Sep(TAG_B, x)), Sep(TAG_EPOCH, Sep(TAG_B, y)));
    SepCancel(TAG_EPOCH, Sep(TAG_B, x), Sep(TAG_B, y));
    SepCancel(TAG_B, x, y);
  }

  /** Epochs that sort by their number, apart from epoch 0. */
  const ROW_BOUND: u64 := 900_000_000

  /** Newest epoch first, except that epoch 0 comes before all others. */
  lemma EpochRowOrder(chain: Key, e: u64, f: u64)
    requires e < ROW_BOUND && f < ROW_BOUND
    ensures Less(BalanceKey(chain, e), BalanceKey(chain, f)) <==> Before(e, f)
  {
    var x, y := ReversedPadded(e), ReversedPadded(f);
    BalanceKeyOrder(chain, e, f);
    PadInjectiveReversed(e, f);
    LessTotal(x, y);
    LessAsymmetric(x, y);
    if e < f { ReversedPaddedOrder(e, f); }
    else if f < e { ReversedPaddedOrder(f, e); }
    else { LessIrreflexive(x); }
  }

  /** The order of two numbers printed on nine columns at the end of a key: the common
      leading digits decide, and then the shorter one is first. */
  predicate EndLess(a: nat, b: nat) {
    var v, w := Width(a), Width(b);
    if v == w then a < b
    else if v < w then a <= Lead(b, w - v)
    else Lead(a, v - w) < b
  }

  lemma ShorterAtEnd(a: nat, b: nat)
    requires Width(a) < Width(b)
    ensures Less(Pad(a, 9), Pad(b, 9)) <==> EndLess(a, b)
    ensures Less(Pad(b, 9), Pad(a, 9)) <==> EndLess(b, a)
  {
    var q, r := LeadingDigits(a, b);
    var p := Pad(a, 9);
    assert p + [] == p;
    LessAsymmetric(p, q + r);
    if p == q { LessExtension(p, r); } else {
      LessHeads(p, q, [], r);
      LessHeads(q, p, r, []);
    }
  }

  lemma EndOrder(a: nat, b: nat)
    ensures Less(Pad(a, 9), Pad(b, 9)) <==> EndLess(a, b)
  {
    if Width(a) < Width(b) {
      ShorterAtEnd(a, b);
    } else if Width(b) < Width(a) {
      ShorterAtEnd(b, a);
    } else {
      WidthFits(a);
      WidthFits(b);
      DigitsOrderIff(a, b, Width(a));
    }
  }

  /** Whether a window read covers the row of an epoch, for every start and limit, wrapped
      range ends included. */
  predicate CoveredRow(e: u64, start: u64, limit: u64) {
    !EndLess(Reversed(e), Reversed(start)) && EndLess(Reversed(e), Reversed(Sub64(start, limit)))
  }

  /** The rows of a window read are those of the covered epochs. */
  lemma BalanceWindowExact(chain: Key, e: u64, start: u64, limit: u64)
    ensures InRange(BalanceKey(chain, e), BalanceKey(chain, start), BalanceKey(chain, Sub64(start, limit))) <==>
            CoveredRow(e, start, limit)
  {
    BalanceKeyOrder(chain, e, start);
    BalanceKeyOrder(chain, e, Sub64(start, limit));
    EndOrder(Reversed(e), Reversed(start));
    EndOrder(Reversed(e), Reversed(Sub64(start, limit)));
    assert BalanceKey(chain, Sub64(start, limit)) != [];
  }

  /** Two epochs below the bound. */
  lemma RowsCompare(e: u64, f: u64)
    requires e < ROW_BOUND && f < ROW_BOUND
    ensures EndLess(Reversed(e), Reversed(f)) <==> Before(e, f)
  {
    EpochRowOrder([], e, f);
    BalanceKeyOrder([], e, f);
    EndOrder(Reversed(e), Reversed(f));
  }

  /** In plain terms: a window above epoch 0 covers the epochs start-limit+1 .. start, one
      down to epoch 0 covers none. */
  lemma PlainRows(e: u64, start: u64, limit: u64)
    requires e < ROW_BOUND && start < ROW_BOUND && 1 <= limit <= start
    ensures CoveredRow(e, start, limit) <==> limit < start && start - limit < e <= start
  {
    RowsCompare(e, start);
    RowsCompare(e, start - limit);
  }

  /** A window that wraps below epoch 0 covers nothing above its start, and nothing at all up
      to four billion limits except epoch 0 on its own. */
  lemma WrappedRows(e: u64, start: u64, limit: u64)
    requires e < ROW_BOUND && start < limit <= MAX_INT && start < ROW_BOUND
    ensures CoveredRow(e, start, limit) && e != 0 && start != 0 ==> e <= start
    ensures e == 0 && start != 0 ==> !CoveredRow(e, start, limit)
    ensures limit - start < 9_000_000_000 && e != 0 && CoveredRow(e, start, limit) ==>
              e + (limit - start) / 10 >= ROW_BOUND
    ensures start == 0 && e == 0 && limit < 9_000_000_000 ==> CoveredRow(e, start, limit)
  {
    RowsCompare(e, start);
    var k: nat := limit - start;
    assert Reversed(Sub64(start, limit)) == MAX_NUMBER + k;
    if k < 9_000_000_000 {
      TenWide(MAX_NUMBER + k);
      if e == 0 { TenWide(MAX_NUMBER); } else { NineWide(MAX_NUMBER - e); }
    }
  }

  /** The epoch a reader takes a row to be about. */
  function EpochOfKey(k: Key): Option<u64> {
    var parts := Split(k, COLON);
    if |parts| <= 3 || ParseUint(parts[3]).None? then None
    else Some(Sub64(MAX_NUMBER, ParseUint(parts[3]).value))
  }

  lemma EpochReadBack(chain: Key, e: u64)
    requires Free(chain, COLON)
    ensures EpochOfKey(BalanceKey(chain, e)) == Some(e)
  {
    var d := ReversedPadded(e);
    ReversedFree(e);
    SplitFree(d, COLON);
    SplitField(TAG_B, d, COLON);
    SplitField(TAG_EPOCH, Sep(TAG_B, d), COLON);
    SplitField(chain, Sep(TAG_EPOCH, Sep(TAG_B, d)), COLON);
    ReversedPaddedRoundTrip(e);
  }

  // --------------------------------------------------------------------- reading cells

  datatype Reading = Reading(epoch: u64, validator: u64, balance: Balance)

  /** How a reader folds one more reading into what it keeps per validator. */
  type Step<!S> = (Option<S>, Reading) -> S

  function Get<S>(res: map<u64, S>, v: u64): Option<S> {
    if v in res then Some(res[v]) else None
  }

  function Fold<S>(step: Step<S>, q: seq<Reading>): Option<S> {
    if q == [] then None else Some(step(Fold(step, q[..|q| - 1]), q[|q| - 1]))
  }

  /** None stands for a read of all validators. */
  predicate Asked(wanted: Option<seq<u64>>, v: u64) {
    wanted.None? || v in wanted.value
  }

  function Count(q: seq<u64>, v: u64): nat {
    if q == [] then 0 else Count(q[..|q| - 1], v) + (if q[|q| - 1] == v then 1 else 0)
  }

  /** How often a read delivers a cell of a validator: one column filter per list entry,
      interleaved, and each filter that passes the cell yields it once more. */
  function Times(wanted: Option<seq<u64>>, v: u64): nat {
    if wanted.None? then 1 else Count(wanted.value, v)
  }

  lemma {:induction false} CountPositive(q: seq<u64>, v: u64)
    ensures Count(q, v) > 0 <==> v in q
    decreases |q|
  {
    if q != [] {
      CountPositive(q[..|q| - 1], v);
      assert q == q[..|q| - 1] + [q[|q| - 1]];
    }
  }

  function Same(r: Reading, n: nat): (q: seq<Reading>)
    ensures |q| == n
  {
    seq(n, i => r)
  }

  /** Every reading n times in a row. */
  function Repeated(q: seq<Reading>, n: nat): seq<Reading> {
    if q == [] then [] else Repeated(q[..|q| - 1], n) + Same(q[|q| - 1], n)
  }

  lemma {:induction false} RepeatedLength(q: seq<Reading>, n: nat)
    ensures |Repeated(q, n)| == |q| * n
    decreases |q|
  {
    if q != [] {
      RepeatedLength(q[..|q| - 1], n);
      OneFactorMore(|q| - 1, n);
    }
  }

  lemma {:induction false} RepeatedOnce(q: seq<Reading>)
    ensures Repeated(q, 1) == q
    decreases |q|
  {
    if q != [] {
      RepeatedOnce(q[..|q| - 1]);
      assert q == q[..|q| - 1] + [q[|q| - 1]];
    }
  }

  /** A list is its own repetition exactly once, or when it is empty. */
  lemma RepeatedExactly(q: seq<Reading>, n: nat)
    ensures Repeated(q, n) == q <==> n == 1 || q == []
  {
    RepeatedOnce(q);
    RepeatedLength(q, n);
    if |q| * n == |q| && q != [] { assert n == 1 by { CancelFactor(|q|, n); } }
  }

  lemma OneFactorMore(k: nat, n: nat)
    ensures (k + 1) * n == k * n + n
  {}

  lemma CancelFactor(k: nat, n: nat)
    requires k > 0 && k * n == k
    ensures n == 1
  {
    assert n == 0 ==> k * n == 0;
    assert n >= 2 ==> k * n >= k * 2;
  }

  lemma RepeatedAppend(q: seq<Reading>, r: Reading, n: nat)
    ensures Repeated(q + [r], n) == Repeated(q, n) + Same(r, n)
  {
    assert (q + [r])[..|q|] == q;
  }

  /** The same reading folded in n times. */
  function FoldTimes<S>(step: Step<S>, o: Option<S>, r: Reading, n: nat): Option<S> {
    if n == 0 then o else Some(step(FoldTimes(step, o, r, n - 1), r))
  }

  lemma {:induction false} FoldSame<S>(step: Step<S>, q: seq<Reading>, r: Reading, n: nat)
    ensures Fold(step, q + Same(r, n)) == FoldTimes(step, Fold(step, q), r, n)
  {
    if n == 0 {
      assert q + Same(r, 0) == q;
    } else {
      FoldSame(step, q, r, n - 1);
      FoldAppend(step, q + Same(r, n - 1), r);
      assert q + Same(r, n) == (q + Same(r, n - 1)) + [r];
    }
  }

  predicate Selected(wanted: Option<seq<u64>>, c: Column) {
    c.family == BALANCES &&
    (wanted.None? || exists i :: 0 <= i < |wanted.value| && c.qualifier == Dec(wanted.value[i]))
  }

  lemma SelectedAsked(wanted: Option<seq<u64>>, v: u64)
    ensures Selected(wanted, BalanceColumn(v)) <==> Asked(wanted, v)
  {
    forall w: u64 | Dec(v) == Dec(w) ensures v == w { PadInjective(v, w, 1); }
  }

  function SelectedCells(row: Row<Key>, wanted: Option<seq<u64>>): set<Key> {
    set c | c in row && row[c] != map[] && Selected(wanted, c) :: c.qualifier
  }

  function AnySelected(wanted: Option<seq<u64>>): Filter<Key> {
    (row: Row<Key>) => SelectedCells(row, wanted) != {}
  }

  function Newest(cells: map<nat, Key>): Key
    requires cells != map[]
  {
    NonEmptyKeys(cells);
    cells[MaxOf(cells.Keys)]
  }

  /** What one cell says, if key, column and value can be parsed. */
  function ReadCell(k: Key, qualifier: Key, value: Key): Option<Reading> {
    if ParseUint(qualifier).None? || EpochOfKey(k).None? || Decode(value).None? then None
    else Some(Reading(EpochOfKey(k).value, ParseUint(qualifier).value, Decode(value).value))
  }

  /** Every balance cell of a row can be parsed and belongs to a validator of its own. */
  ghost predicate RowReadable(k: Key, row: Row<Key>) {
    forall c :: c in row && c.family == BALANCES && row[c] != map[] ==>
      exists v: u64 :: c == BalanceColumn(v) && ReadCell(k, Dec(v), Newest(row[c])).Some?
  }

  function RowReading(k: Key, row: Row<Key>, v: u64): Option<Reading>
    requires BalanceColumn(v) in row && row[BalanceColumn(v)] != map[]
  {
    ReadCell(k, Dec(v), Newest(row[BalanceColumn(v)]))
  }

  ghost predicate FoldedAt<S>(before: Option<S>, after: Option<S>, k: Key, row: Row<Key>, done: set<Key>,
                              wanted: Option<seq<u64>>, step: Step<S>, v: u64)
  {
    after ==
      if Dec(v) in done && BalanceColumn(v) in row && row[BalanceColumn(v)] != map[] && RowReading(k, row, v).Some?
      then FoldTimes(step, before, RowReading(k, row, v).value, Times(wanted, v))
      else before
  }

  ghost predicate RowFolded<S>(before: map<u64, S>, after: map<u64, S>, k: Key, row: Row<Key>, done: set<Key>,
                               wanted: Option<seq<u64>>, step: Step<S>)
  {
    forall v: u64 :: FoldedAt(Get(before, v), Get(after, v), k, row, done, wanted, step, v)
  }

  lemma OneCell<S>(before: map<u64, S>, now: map<u64, S>, after: map<u64, S>, k: Key, row: Row<Key>, done: set<Key>,
                   wanted: Option<seq<u64>>, step: Step<S>, v: u64)
    requires RowFolded(before, now, k, row, done, wanted, step) && Dec(v) !in done
    requires BalanceColumn(v) in row && row[BalanceColumn(v)] != map[] && RowReading(k, row, v).Some?
    requires Get(after, v) == FoldTimes(step, Get(now, v), RowReading(k, row, v).value, Times(wanted, v))
    requires forall w: u64 :: w != v ==> Get(after, w) == Get(now, w)
    ensures RowFolded(before, after, k, row, done + {Dec(v)}, wanted, step)
  {
    forall w: u64 | Dec(w) == Dec(v) ensures w == v { PadInjective(w, v, 1); }
  }

  lemma CellParses(k: Key, row: Row<Key>, qualifier: Key)
    requires RowReadable(k, row)
    requires Column(BALANCES, qualifier) in row && row[Column(BALANCES, qualifier)] != map[]
    ensures var r := ReadCell(k, qualifier, Newest(row[Column(BALANCES, qualifier)]));
            r.Some? && qualifier == Dec(r.value.validator)
  {
    var v: u64 :| Column(BALANCES, qualifier) == BalanceColumn(v);
    ParsePad(v, 1);
  }

  /** How many list entries name a column; one when the read has no filters. */
  function Filters(wanted: Option<seq<u64>>, qualifier: Key): nat {
    if wanted.None? then 1 else Matching(wanted.value, qualifier)
  }

  function Matching(q: seq<u64>, qualifier: Key): nat {
    if q == [] then 0 else Matching(q[..|q| - 1], qualifier) + (if Dec(q[|q| - 1]) == qualifier then 1 else 0)
  }

  lemma {:induction false} MatchingIsCount(q: seq<u64>, v: u64)
    ensures Matching(q, Dec(v)) == Count(q, v)
    decreases |q|
  {
    if q != [] {
      MatchingIsCount(q[..|q| - 1], v);
      if Dec(q[|q| - 1]) == Dec(v) { PadInjective(q[|q| - 1], v, 1); }
    }
  }

  /** One cell, as often as the filters deliver it. */
  method ReadTimes<S>(r: Reading, n: nat, step: Step<S>, res: map<u64, S>) returns (res': map<u64, S>)
    ensures Get(res', r.validator) == FoldTimes(step, Get(res, r.validator), r, n)
    ensures forall w: u64 :: w != r.validator ==> Get(res', w) == Get(res, w)
  {
    res' := res;
    for i := 0 to n
      invariant Get(res', r.validator) == FoldTimes(step, Get(res, r.validator), r, i)
      invariant forall w: u64 :: w != r.validator ==> Get(res', w) == Get(res, w)
    {
      res' := res'[r.validator := step(Get(res', r.validator), r)];
    }
  }

  lemma OneCellRead<S>(before: map<u64, S>, now: map<u64, S>, after: map<u64, S>, k: Key, row: Row<Key>, cells: seq<Key>,
                       n: nat, wanted: Option<seq<u64>>, step: Step<S>, r: Reading)
    requires RowReadable(k, row) && StrictlySorted(cells) && n < |cells|
    requires RowFolded(before, now, k, row, FirstCells(cells, n), wanted, step)
    requires Column(BALANCES, cells[n]) in row && row[Column(BALANCES, cells[n])] != map[]
    requires ReadCell(k, cells[n], Newest(row[Column(BALANCES, cells[n])])) == Some(r)
    requires Get(after, r.validator) == FoldTimes(step, Get(now, r.validator), r, Filters(wanted, cells[n]))
    requires forall w: u64 :: w != r.validator ==> Get(after, w) == Get(now, w)
    ensures RowFolded(before, after, k, row, FirstCells(cells, n + 1), wanted, step)
  {
    CellParses(k, row, cells[n]);
    FirstCellsStep(cells, n);
    if wanted.Some? { MatchingIsCount(wanted.value, r.validator); }
    OneCell(before, now, after, k, row, FirstCells(cells, n), wanted, step, r.validator);
  }

  /** The selected cells of one row, in column order. */
  method ReadRow<S>(k: Key, row: Row<Key>, wanted: Option<seq<u64>>, step: Step<S>, res: map<u64, S>)
    returns (res': map<u64, S>, stopped: bool)
    ensures RowReadable(k, row) ==> !stopped && RowFolded(res, res', k, row, SelectedCells(row, wanted), wanted, step)
  {
    res' := res;
    var cells := SortedKeys(SelectedCells(row, wanted));
    SortedKeysSpec(SelectedCells(row, wanted));
    for n := 0 to |cells|
      invariant RowReadable(k, row) ==> RowFolded(res, res', k, row, FirstCells(cells, n), wanted, step)
    {
      assert cells[n] in cells;
      if RowReadable(k, row) { CellParses(k, row, cells[n]); }
      var r := ReadCell(k, cells[n], Newest(row[Column(BALANCES, cells[n])]));
      if r.None? {
        return res', true;
      }
      ghost var before := res';
      res' := ReadTimes(r.value, Filters(wanted, cells[n]), step, res');
      if RowReadable(k, row) { OneCellRead(res, before, res', k, row, cells, n, wanted, step, r.value); }
    }
    stopped := false;
    AllCells(cells, SelectedCells(row, wanted));
  }

  // -------------------------------------------------------------------- a whole window

  function ReadingAt(rows: Rows<Key>, k: Key, v: u64): Reading
    requires HasCell(rows, k, BalanceColumn(v))
  {
    var r := RowReading(k, rows[k], v);
    if r.Some? then r.value else Reading(0, v, Balance(0, 0))
  }

  /** The readings of one validator, in the order of the given keys. */
  function Readings(rows: Rows<Key>, keys: seq<Key>, v: u64): (q: seq<Reading>)
    ensures |q| == |With(rows, keys, BalanceColumn(v))|
  {
    var with := With(rows, keys, BalanceColumn(v));
    seq(|with|, i requires 0 <= i < |with| => assert with[i] in with; ReadingAt(rows, with[i], v))
  }

  ghost predicate AllFolded<S>(rows: Rows<Key>, keys: seq<Key>, wanted: Option<seq<u64>>, step: Step<S>, res: map<u64, S>) {
    forall v: u64 :: ReadSoFar(rows, keys, wanted, step, Get(res, v), v)
  }

  ghost predicate AllReadable(rows: Rows<Key>) {
    forall k :: k in rows ==> RowReadable(k, rows[k])
  }

  lemma ReadingsStep(rows: Rows<Key>, keys: seq<Key>, n: nat, v: u64)
    requires n < |keys|
    ensures Readings(rows, keys[..n + 1], v) ==
            Readings(rows, keys[..n], v) +
            (if HasCell(rows, keys[n], BalanceColumn(v)) then [ReadingAt(rows, keys[n], v)] else [])
  {
    PassingStep(rows, keys, n, ColumnFilter(BalanceColumn(v)));
  }

  lemma SelectedCell(rows: Rows<Key>, k: Key, wanted: Option<seq<u64>>, v: u64)
    requires k in rows
    ensures Dec(v) in SelectedCells(rows[k], wanted) <==> HasCell(rows, k, BalanceColumn(v)) && Asked(wanted, v)
  {
    SelectedAsked(wanted, v);
    var c := BalanceColumn(v);
    assert c == Column(BALANCES, Dec(v));
    if HasCell(rows, k, c) && Asked(wanted, v) { assert Selected(wanted, c); }
  }

  lemma FoldAppend<S>(step: Step<S>, q: seq<Reading>, r: Reading)
    ensures Fold(step, q + [r]) == Some(step(Fold(step, q), r))
  {
    assert (q + [r])[..|q|] == q;
  }

  ghost predicate ReadSoFar<S>(rows: Rows<Key>, keys: seq<Key>, wanted: Option<seq<u64>>, step: Step<S>, o: Option<S>, v: u64) {
    o == Fold(step, Repeated(Readings(rows, keys, v), Times(wanted, v)))
  }

  lemma ReadingFound(rows: Rows<Key>, k: Key, v: u64)
    requires HasCell(rows, k, BalanceColumn(v)) && RowReadable(k, rows[k])
    ensures RowReading(k, rows[k], v) == Some(ReadingAt(rows, k, v))
  {
    CellParses(k, rows[k], Dec(v));
  }

  lemma TimesAsked(wanted: Option<seq<u64>>, v: u64)
    ensures Times(wanted, v) > 0 <==> Asked(wanted, v)
  {
    if wanted.Some? { CountPositive(wanted.value, v); }
  }

  lemma {:induction false} RepeatedNever(q: seq<Reading>)
    ensures Repeated(q, 0) == []
    decreases |q|
  {
    if q != [] { RepeatedNever(q[..|q| - 1]); }
  }

  lemma OneValidator<S>(rows: Rows<Key>, keys: seq<Key>, n: nat, wanted: Option<seq<u64>>, step: Step<S>,
                        o: Option<S>, o': Option<S>, v: u64)
    requires n < |keys| && keys[n] in rows && RowReadable(keys[n], rows[keys[n]])
    requires ReadSoFar(rows, keys[..n], wanted, step, o, v)
    requires FoldedAt(o, o', keys[n], rows[keys[n]], SelectedCells(rows[keys[n]], wanted), wanted, step, v)
    ensures ReadSoFar(rows, keys[..n + 1], wanted, step, o', v)
  {
    var k, times := keys[n], Times(wanted, v);
    var q := Readings(rows, keys[..n], v);
    SelectedCell(rows, k, wanted, v);
    ReadingsStep(rows, keys, n, v);
    TimesAsked(wanted, v);
    if !HasCell(rows, k, BalanceColumn(v)) {
      assert Readings(rows, keys[..n + 1], v) == q;
    } else if times == 0 {
      RepeatedNever(q);
      RepeatedNever(Readings(rows, keys[..n + 1], v));
    } else {
      OneMoreReading(rows, k, q, wanted, step, o, o', v);
    }
  }

  lemma OneMoreReading<S>(rows: Rows<Key>, k: Key, q: seq<Reading>, wanted: Option<seq<u64>>, step: Step<S>,
                          o: Option<S>, o': Option<S>, v: u64)
    requires k in rows && RowReadable(k, rows[k]) && HasCell(rows, k, BalanceColumn(v)) && Asked(wanted, v)
    requires o == Fold(step, Repeated(q, Times(wanted, v)))
    requires FoldedAt(o, o', k, rows[k], SelectedCells(rows[k], wanted), wanted, step, v)
    ensures o' == Fold(step, Repeated(q + [ReadingAt(rows, k, v)], Times(wanted, v)))
  {
    var r, times := ReadingAt(rows, k, v), Times(wanted, v);
    SelectedCell(rows, k, wanted, v);
    ReadingFound(rows, k, v);
    RepeatedAppend(q, r, times);
    FoldSame(step, Repeated(q, times), r, times);
  }

  lemma RowFoldsAll<S>(rows: Rows<Key>, keys: seq<Key>, n: nat, wanted: Option<seq<u64>>, step: Step<S>,
                       res: map<u64, S>, res': map<u64, S>)
    requires n < |keys| && keys[n] in rows && RowReadable(keys[n], rows[keys[n]])
    requires AllFolded(rows, keys[..n], wanted, step, res)
    requires RowFolded(res, res', keys[n], rows[keys[n]], SelectedCells(rows[keys[n]], wanted), wanted, step)
    ensures AllFolded(rows, keys[..n + 1], wanted, step, res')
  {
    forall v: u64 ensures ReadSoFar(rows, keys[..n + 1], wanted, step, Get(res', v), v) {
      OneValidator(rows, keys, n, wanted, step, Get(res, v), Get(res', v), v);
    }
  }

  /** The rows a filtered read with a row limit delivers. */
  function Delivered(rows: Rows<Key>, lo: Key, hi: Key, wanted: Option<seq<u64>>, limit: nat): seq<Key> {
    Limited(Passing(rows, Scan(rows, lo, hi), AnySelected(wanted)), limit)
  }

  /** The common loop of the balance readers; a cell that cannot be parsed ends it early. */
  method ReadWindow<S>(t: Table<Key>, lo: Key, hi: Key, wanted: Option<seq<u64>>, limit: nat, step: Step<S>)
    returns (res: map<u64, S>)
    ensures AllReadable(t.rows) ==> AllFolded(t.rows, Delivered(t.rows, lo, hi, wanted, limit), wanted, step, res)
  {
    var found := t.ReadRows(lo, hi, 0);
    var keys := Limited(Passing(t.rows, found, AnySelected(wanted)), limit);
    res := map[];
    for n := 0 to |keys|
      invariant AllReadable(t.rows) ==> AllFolded(t.rows, keys[..n], wanted, step, res)
    {
      assert keys[n] in Passing(t.rows, found, AnySelected(wanted));
      ghost var before := res;
      var stopped;
      res, stopped := ReadRow(keys[n], t.rows[keys[n]], wanted, step, res);
      if stopped {
        return;
      }
      if AllReadable(t.rows) {
        RowFoldsAll(t.rows, keys, n, wanted, step, before, res);
      }
    }
    assert keys[..|keys|] == keys;
  }

  // ------------------------------------------------------------------ the true series

  ghost predicate Seen(ledger: Ledger, v: u64, start: u64, limit: u64, e: u64) {
    At(e, v) in ledger && CoveredRow(e, start, limit)
  }

  /** The epochs among top-1, ..., top-n with a booked balance that the window covers. */
  ghost function BookedEpochs(ledger: Ledger, v: u64, start: u64, limit: u64, top: nat, n: nat): seq<u64>
    requires n <= top <= ROW_BOUND
  {
    if n == 0 then []
    else
      BookedEpochs(ledger, v, start, limit, top, n - 1) +
      (if Seen(ledger, v, start, limit, top - n) then [top - n] else [])
  }

  /** Epoch 0 first, and then all others, newest first. */
  ghost function WindowEpochs(ledger: Ledger, v: u64, start: u64, limit: u64): seq<u64> {
    BookedEpochs(ledger, v, start, limit, 1, 1) + BookedEpochs(ledger, v, start, limit, ROW_BOUND, ROW_BOUND - 1)
  }

  /** What a reader must see of a validator. */
  ghost function Series(ledger: Ledger, v: u64, start: u64, limit: u64): (q: seq<Reading>)
    ensures |q| == |WindowEpochs(ledger, v, start, limit)|
  {
    var es := WindowEpochs(ledger, v, start, limit);
    seq(|es|, i requires 0 <= i < |es| =>
      Reading(es[i], v, if At(es[i], v) in ledger then ledger[At(es[i], v)] else Balance(0, 0)))
  }

  ghost predicate FallingEpochs(q: seq<u64>) {
    forall i, j :: 0 <= i < j < |q| ==> q[i] > q[j]
  }

  lemma {:induction false} BookedEpochsMembers(ledger: Ledger, v: u64, start: u64, limit: u64, top: nat, n: nat, e: u64)
    requires n <= top <= ROW_BOUND
    ensures e in BookedEpochs(ledger, v, start, limit, top, n) <==> top - n <= e < top && Seen(ledger, v, start, limit, e)
    decreases n
  {
    if n > 0 { BookedEpochsMembers(ledger, v, start, limit, top, n - 1, e); }
  }

  lemma {:induction false} BookedEpochsFall(ledger: Ledger, v: u64, start: u64, limit: u64, top: nat, n: nat)
    requires n <= top <= ROW_BOUND
    ensures FallingEpochs(BookedEpochs(ledger, v, start, limit, top, n))
    decreases n
  {
    if n > 0 {
      var front := BookedEpochs(ledger, v, start, limit, top, n - 1);
      BookedEpochsFall(ledger, v, start, limit, top, n - 1);
      forall f: u64 | f in front ensures f > top - n { BookedEpochsMembers(ledger, v, start, limit, top, n - 1, f); }
      FallingEpochsAppend(front, top - n);
    }
  }

  lemma FallingEpochsAppend(q: seq<u64>, e: u64)
    requires FallingEpochs(q) && forall f: u64 :: f in q ==> f > e
    ensures FallingEpochs(q + [e])
  {
    assert forall i :: 0 <= i < |q| ==> q[i] in q;
  }

  ghost predicate EpochsInOrder(q: seq<u64>) {
    forall i, j :: 0 <= i < j < |q| ==> Before(q[i], q[j])
  }

  lemma ZeroAhead(a: seq<u64>, b: seq<u64>)
    requires FallingEpochs(a) && FallingEpochs(b)
    requires (forall e :: e in a ==> e == 0) && forall e :: e in b ==> e > 0
    ensures EpochsInOrder(a + b)
  {
    assert forall i :: 0 <= i < |a| ==> a[i] in a;
    assert forall i :: 0 <= i < |b| ==> b[i] in b;
  }

  lemma WindowEpochsSpec(ledger: Ledger, v: u64, start: u64, limit: u64)
    ensures EpochsInOrder(WindowEpochs(ledger, v, start, limit))
    ensures forall e: u64 :: e in WindowEpochs(ledger, v, start, limit) <==>
                             e < ROW_BOUND && Seen(ledger, v, start, limit, e)
  {
    var a := BookedEpochs(ledger, v, start, limit, 1, 1);
    var b := BookedEpochs(ledger, v, start, limit, ROW_BOUND, ROW_BOUND - 1);
    forall e: u64
      ensures e in a <==> e < 1 && Seen(ledger, v, start, limit, e)
      ensures e in b <==> 1 <= e < ROW_BOUND && Seen(ledger, v, start, limit, e)
    {
      BookedEpochsMembers(ledger, v, start, limit, 1, 1, e);
      BookedEpochsMembers(ledger, v, start, limit, ROW_BOUND, ROW_BOUND - 1, e);
    }
    BookedEpochsFall(ledger, v, start, limit, 1, 1);
    BookedEpochsFall(ledger, v, start, limit, ROW_BOUND, ROW_BOUND - 1);
    ZeroAhead(a, b);
  }

  ghost predicate LedgerOk(rows: Rows<Key>, chain: Key, ledger: Ledger) {
    Mirrors(rows, chain, ledger) && Free(chain, COLON) && forall a: At :: a in ledger ==> a.epoch < ROW_BOUND
  }

  lemma LedgerReadable(rows: Rows<Key>, chain: Key, ledger: Ledger)
    requires LedgerOk(rows, chain, ledger)
    ensures AllReadable(rows)
  {
    forall k, c: Column | k in rows && c in rows[k] && c.family == BALANCES && rows[k][c] != map[]
      ensures exists v: u64 :: c == BalanceColumn(v) && ReadCell(k, Dec(v), Newest(rows[k][c])).Some?
    {
      assert FromLedger(chain, ledger, k, c);
      var a: At :| a in ledger && k == BalanceKey(chain, a.epoch) && c == BalanceColumn(a.validator);
      BookedCell(rows, chain, ledger, a.epoch, a.validator);
    }
  }

  /** A booked balance reads back as it was saved. */
  lemma BookedCell(rows: Rows<Key>, chain: Key, ledger: Ledger, e: u64, v: u64)
    requires LedgerOk(rows, chain, ledger) && At(e, v) in ledger
    ensures HasCell(rows, BalanceKey(chain, e), BalanceColumn(v))
    ensures ReadCell(BalanceKey(chain, e), Dec(v), Newest(rows[BalanceKey(chain, e)][BalanceColumn(v)])) ==
            Some(Reading(e, v, ledger[At(e, v)]))
  {
    CellOfLedger(rows, chain, ledger, e, v);
    EpochReadBack(chain, e);
    ParsePad(v, 1);
    DecodeEncode(ledger[At(e, v)]);
    var cells := rows[BalanceKey(chain, e)][BalanceColumn(v)];
    assert 0 in cells;
    assert cells.Keys == {0};
  }

  ghost function KeysOfEpochs(chain: Key, q: seq<u64>): (keys: seq<Key>)
    ensures |keys| == |q|
  {
    seq(|q|, i requires 0 <= i < |q| => BalanceKey(chain, q[i]))
  }

  lemma EpochKeysSorted(chain: Key, q: seq<u64>)
    requires EpochsInOrder(q) && forall e :: e in q ==> e < ROW_BOUND
    ensures StrictlySorted(KeysOfEpochs(chain, q))
  {
    forall i, j | 0 <= i < j < |q| ensures Less(KeysOfEpochs(chain, q)[i], KeysOfEpochs(chain, q)[j]) {
      assert q[i] in q && q[j] in q;
      EpochRowOrder(chain, q[i], q[j]);
    }
  }

  lemma KeyOfEpoch(chain: Key, q: seq<u64>, e: u64)
    requires e in q
    ensures BalanceKey(chain, e) in KeysOfEpochs(chain, q)
  {
    var i :| 0 <= i < |q| && q[i] == e;
    assert KeysOfEpochs(chain, q)[i] == BalanceKey(chain, e);
  }

  lemma InWindowMeansBooked(rows: Rows<Key>, chain: Key, ledger: Ledger, v: u64, start: u64, limit: u64, k: Key)
    requires LedgerOk(rows, chain, ledger)
    requires HasCell(rows, k, BalanceColumn(v)) && InRange(k, BalanceKey(chain, start), BalanceKey(chain, Sub64(start, limit)))
    ensures k in KeysOfEpochs(chain, WindowEpochs(ledger, v, start, limit))
  {
    assert FromLedger(chain, ledger, k, BalanceColumn(v));
    var a: At :| a in ledger && k == BalanceKey(chain, a.epoch) && BalanceColumn(v) == BalanceColumn(a.validator);
    BalanceColumnInjective(v, a.validator);
    BalanceWindowExact(chain, a.epoch, start, limit);
    WindowEpochsSpec(ledger, v, start, limit);
    assert Seen(ledger, v, start, limit, a.epoch);
    KeyOfEpoch(chain, WindowEpochs(ledger, v, start, limit), a.epoch);
  }

  lemma BookedMeansInWindow(rows: Rows<Key>, chain: Key, ledger: Ledger, v: u64, start: u64, limit: u64, k: Key)
    requires LedgerOk(rows, chain, ledger) && k in KeysOfEpochs(chain, WindowEpochs(ledger, v, start, limit))
    ensures HasCell(rows, k, BalanceColumn(v)) && InRange(k, BalanceKey(chain, start), BalanceKey(chain, Sub64(start, limit)))
  {
    var q := WindowEpochs(ledger, v, start, limit);
    var i :| 0 <= i < |q| && KeysOfEpochs(chain, q)[i] == k;
    WindowEpochsSpec(ledger, v, start, limit);
    assert q[i] in q;
    BookedCell(rows, chain, ledger, q[i], v);
    BalanceWindowExact(chain, q[i], start, limit);
  }

  /** The rows of the window that have the validator's balance are those of its series. */
  lemma WindowKeys(rows: Rows<Key>, chain: Key, ledger: Ledger, v: u64, start: u64, limit: u64)
    requires LedgerOk(rows, chain, ledger)
    ensures With(rows, Scan(rows, BalanceKey(chain, start), BalanceKey(chain, Sub64(start, limit))), BalanceColumn(v)) ==
            KeysOfEpochs(chain, WindowEpochs(ledger, v, start, limit))
  {
    var lo, hi, c := BalanceKey(chain, start), BalanceKey(chain, Sub64(start, limit)), BalanceColumn(v);
    var keys, q := Scan(rows, lo, hi), WindowEpochs(ledger, v, start, limit);
    ScanSorted(rows, lo, hi);
    PassingSorted(rows, keys, ColumnFilter(c));
    WindowEpochsSpec(ledger, v, start, limit);
    EpochKeysSorted(chain, q);
    forall k ensures k in With(rows, keys, c) <==> k in KeysOfEpochs(chain, q) {
      PassingMembers(rows, keys, ColumnFilter(c), k);
      if k in With(rows, keys, c) { InWindowMeansBooked(rows, chain, ledger, v, start, limit, k); }
      if k in KeysOfEpochs(chain, q) { BookedMeansInWindow(rows, chain, ledger, v, start, limit, k); }
    }
    SortedUnique(With(rows, keys, c), KeysOfEpochs(chain, q));
  }

  lemma WindowReadings(rows: Rows<Key>, chain: Key, ledger: Ledger, v: u64, start: u64, limit: u64)
    requires LedgerOk(rows, chain, ledger)
    ensures Readings(rows, Scan(rows, BalanceKey(chain, start), BalanceKey(chain, Sub64(start, limit))), v) ==
            Series(ledger, v, start, limit)
  {
    var keys := Scan(rows, BalanceKey(chain, start), BalanceKey(chain, Sub64(start, limit)));
    var q := WindowEpochs(ledger, v, start, limit);
    WindowKeys(rows, chain, ledger, v, start, limit);
    WindowEpochsSpec(ledger, v, start, limit);
    forall i | 0 <= i < |q| ensures Readings(rows, keys, v)[i] == Series(ledger, v, start, limit)[i] {
      assert q[i] in q;
      BookedCell(rows, chain, ledger, q[i], v);
      assert With(rows, keys, BalanceColumn(v))[i] == BalanceKey(chain, q[i]);
    }
  }

  // ------------------------------------------------------------------- the row limit

  /** Sorted balance rows of epochs strictly between two bounds are few. */
  lemma {:induction false} FewRows(chain: Key, q: seq<Key>, lo: nat, top: nat)
    requires StrictlySorted(q) && top <= ROW_BOUND
    requires forall k :: k in q ==> exists e: u64 :: lo < e < top && k == BalanceKey(chain, e)
    ensures q != [] ==> |q| <= top - lo - 1
    decreases |q|
  {
    if q != [] {
      assert q[0] in q;
      var e: u64 :| lo < e < top && q[0] == BalanceKey(chain, e);
      forall k | k in q[1..] ensures exists f: u64 :: lo < f < e && k == BalanceKey(chain, f) {
        var i :| 0 <= i < |q[1..]| && q[1..][i] == k;
        assert k in q && Less(q[0], q[i + 1]);
        var f: u64 :| lo < f < top && k == BalanceKey(chain, f);
        EpochRowOrder(chain, e, f);
      }
      FewRows(chain, q[1..], lo, e);
    }
  }

  /** ... and the row of epoch 0 in front adds one. */
  lemma FewRowsWithZero(chain: Key, q: seq<Key>, lo: nat, top: nat)
    requires StrictlySorted(q) && top <= ROW_BOUND && lo < top
    requires forall k :: k in q ==> exists e: u64 :: (e == 0 || lo < e < top) && k == BalanceKey(chain, e)
    ensures |q| <= top - lo
  {
    if q != [] {
      assert q[0] in q;
      var tail := q[1..];
      forall k | k in tail ensures exists e: u64 :: lo < e < top && k == BalanceKey(chain, e) {
        var i :| 0 <= i < |tail| && tail[i] == k;
        assert k in q && Less(q[0], q[i + 1]);
        var d: u64 :| (d == 0 || lo < d < top) && q[0] == BalanceKey(chain, d);
        var e: u64 :| (e == 0 || lo < e < top) && k == BalanceKey(chain, e);
        EpochRowOrder(chain, d, e);
      }
      FewRows(chain, tail, lo, top);
    }
  }

  /** A row that passes the filter in the window is the row of a covered epoch. */
  lemma SelectedRow(rows: Rows<Key>, chain: Key, ledger: Ledger, wanted: Option<seq<u64>>, start: u64, limit: u64, k: Key)
    returns (e: u64)
    requires LedgerOk(rows, chain, ledger)
    requires k in rows && SelectedCells(rows[k], wanted) != {}
    requires InRange(k, BalanceKey(chain, start), BalanceKey(chain, Sub64(start, limit)))
    ensures e < ROW_BOUND && CoveredRow(e, start, limit) && k == BalanceKey(chain, e)
  {
    var q :| q in SelectedCells(rows[k], wanted);
    var c: Column :| c in rows[k] && rows[k][c] != map[] && Selected(wanted, c);
    assert FromLedger(chain, ledger, k, c);
    var a: At :| a in ledger && k == BalanceKey(chain, a.epoch) && c == BalanceColumn(a.validator);
    e := a.epoch;
    BalanceWindowExact(chain, e, start, limit);
  }

  /** Between which bounds the covered epochs lie: no more of them than the limit, epoch 0
      counted apart. */
  function Below(start: u64, limit: u64): nat {
    if limit <= start then start - limit
    else if start != 0 then 0
    else if limit < 9_000_000_000 then ROW_BOUND - 1 - limit / 10
    else 0
  }

  lemma CoveredBetween(e: u64, start: u64, limit: u64)
    requires e < ROW_BOUND && start < ROW_BOUND && 1 <= limit <= MAX_INT && CoveredRow(e, start, limit)
    ensures start != 0 ==> Below(start, limit) < e < start + 1
    ensures start == 0 ==> e == 0 || Below(start, limit) < e < ROW_BOUND
  {
    if limit <= start { PlainRows(e, start, limit); } else { WrappedRows(e, start, limit); }
  }

  lemma FewEnough(chain: Key, q: seq<Key>, start: u64, limit: u64)
    requires StrictlySorted(q) && start < ROW_BOUND && 1 <= limit <= MAX_INT
    requires forall k :: k in q ==> exists e: u64 :: e < ROW_BOUND && CoveredRow(e, start, limit) && k == BalanceKey(chain, e)
    ensures |q| <= limit
  {
    var lo := Below(start, limit);
    var top := if start != 0 then start + 1 else ROW_BOUND;
    forall k | k in q ensures exists e: u64 :: ((start == 0 && e == 0) || lo < e < top) && k == BalanceKey(chain, e) {
      var e: u64 :| e < ROW_BOUND && CoveredRow(e, start, limit) && k == BalanceKey(chain, e);
      CoveredBetween(e, start, limit);
    }
    if start != 0 { FewRows(chain, q, lo, top); } else { FewRowsWithZero(chain, q, lo, top); }
  }

  /** The row limit of the history read never cuts anything off. */
  lemma LimitNeverCuts(rows: Rows<Key>, chain: Key, ledger: Ledger, wanted: Option<seq<u64>>, start: u64, limit: u64)
    requires LedgerOk(rows, chain, ledger) && start < ROW_BOUND && 1 <= limit <= MAX_INT
    ensures var lo, hi := BalanceKey(chain, start), BalanceKey(chain, Sub64(start, limit));
            Delivered(rows, lo, hi, wanted, limit) == Passing(rows, Scan(rows, lo, hi), AnySelected(wanted))
  {
    var lo, hi := BalanceKey(chain, start), BalanceKey(chain, Sub64(start, limit));
    var keys := Scan(rows, lo, hi);
    var q := Passing(rows, keys, AnySelected(wanted));
    ScanSorted(rows, lo, hi);
    PassingSorted(rows, keys, AnySelected(wanted));
    forall k | k in q ensures exists e: u64 :: e < ROW_BOUND && CoveredRow(e, start, limit) && k == BalanceKey(chain, e) {
      PassingMembers(rows, keys, AnySelected(wanted), k);
      var e := SelectedRow(rows, chain, ledger, wanted, start, limit, k);
    }
    FewEnough(chain, q, start, limit);
  }

  lemma DeliveredReadings(rows: Rows<Key>, chain: Key, ledger: Ledger, wanted: Option<seq<u64>>, start: u64, limit: u64, v: u64)
    requires LedgerOk(rows, chain, ledger) && Asked(wanted, v)
    ensures var all := Scan(rows, BalanceKey(chain, start), BalanceKey(chain, Sub64(start, limit)));
            Readings(rows, Passing(rows, all, AnySelected(wanted)), v) == Series(ledger, v, start, limit)
  {
    var lo, hi := BalanceKey(chain, start), BalanceKey(chain, Sub64(start, limit));
    ScanSorted(rows, lo, hi);
    forall k | k in rows && ColumnFilter(BalanceColumn(v))(rows[k]) ensures AnySelected(wanted)(rows[k]) {
      SelectedCell(rows, k, wanted, v);
    }
    PassingTwice(rows, Scan(rows, lo, hi), AnySelected(wanted), ColumnFilter(BalanceColumn(v)));
    WindowReadings(rows, chain, ledger, v, start, limit);
  }

  // ------------------------------------------------------------------------ the history

  function Append(o: Option<seq<Reading>>, r: Reading): seq<Reading> {
    (if o.None? then [] else o.value) + [r]
  }

  lemma {:induction false} FoldOfAppend(q: seq<Reading>)
    ensures Fold(Append, q) == if q == [] then None else Some(q)
    decreases |q|
  {
    if q != [] {
      FoldOfAppend(q[..|q| - 1]);
      assert q == q[..|q| - 1] + [q[|q| - 1]];
    }
  }

  ghost predicate ListsSeries(h: map<u64, seq<Reading>>, validators: seq<u64>, ledger: Ledger, start: u64, limit: u64)
  {
    forall v: u64 :: Listed(h, v) == Repeated(Series(ledger, v, start, limit), Count(validators, v))
  }

  function Listed(h: map<u64, seq<Reading>>, v: u64): seq<Reading> {
    if v in h then h[v] else []
  }

  ghost predicate InBounds(rows: Rows<Key>, chain: Key, ledger: Ledger, start: u64, limit: u64) {
    LedgerOk(rows, chain, ledger) && start < ROW_BOUND && 1 <= limit <= MAX_INT
  }

  /** The epochs of a window: those after start - limit up to the start; below epoch 0 the
      subtraction wraps, and the rows between the two keys decide. */
  ghost predicate Within(chain: Key, e: u64, start: u64, limit: u64) {
    if limit <= start then limit < start && start - limit < e <= start
    else InRange(BalanceRowText(chain, e), BalanceRowText(chain, start),
                 BalanceRowText(chain, start - limit + 18_446_744_073_709_551_616))
  }

  lemma WithinExactly(chain: Key, e: u64, start: u64, limit: u64)
    requires e < ROW_BOUND && start < ROW_BOUND && 1 <= limit
    ensures Within(chain, e, start, limit) <==> CoveredRow(e, start, limit)
  {
    if limit <= start {
      PlainRows(e, start, limit);
    } else {
      BalanceWindowExact(chain, e, start, limit);
      BalanceKeyIsText(chain, e);
      BalanceKeyIsText(chain, start);
      BalanceKeyIsText(chain, Sub64(start, limit));
    }
  }

  /** Newest first, with epoch 0 ahead; equal entries next to each other. */
  ghost predicate NewestFirst(q: seq<Reading>) {
    forall i, j :: 0 <= i < j < |q| ==>
      q[i] == q[j] || q[i].epoch > q[j].epoch > 0 || (q[i].epoch == 0 && q[j].epoch > 0)
  }

  ghost predicate Booking(r: Reading, ledger: Ledger, v: u64) {
    r.validator == v && At(r.epoch, v) in ledger && r.balance == ledger[At(r.epoch, v)]
  }

  /** The list a caller gets for a validator, said without the reader's functions: the booked
      balances of the window and no others, each as often as the request names it. */
  ghost predicate TellsList(q: seq<Reading>, chain: Key, validators: seq<u64>, v: u64, ledger: Ledger, start: u64, limit: u64) {
    NewestFirst(q) && (forall r :: r in q ==> InSpan(r, chain, v, ledger, start, limit)) &&
    forall r: Reading :: InSpan(r, chain, v, ledger, start, limit) ==> multiset(q)[r] == multiset(validators)[v]
  }

  ghost predicate InSpan(r: Reading, chain: Key, v: u64, ledger: Ledger, start: u64, limit: u64) {
    Booking(r, ledger, v) && Within(chain, r.epoch, start, limit)
  }

  ghost predicate TellsLists(h: map<u64, seq<Reading>>, chain: Key, validators: seq<u64>, ledger: Ledger, start: u64, limit: u64) {
    forall v: u64 :: TellsList(Listed(h, v), chain, validators, v, ledger, start, limit)
  }

  lemma {:induction false} CountIsMultiset(q: seq<u64>, v: u64)
    ensures Count(q, v) == multiset(q)[v]
    decreases |q|
  {
    if q != [] {
      CountIsMultiset(q[..|q| - 1], v);
      assert q == q[..|q| - 1] + [q[|q| - 1]];
    }
  }

  lemma {:induction false} SameMultiset(r: Reading, n: nat, x: Reading)
    ensures multiset(Same(r, n))[x] == if x == r then n else 0
  {
    if n > 0 {
      SameMultiset(r, n - 1, x);
      assert Same(r, n) == Same(r, n - 1) + [r];
    }
  }

  lemma {:induction false} RepeatedMultiset(q: seq<Reading>, n: nat, x: Reading)
    requires forall i, j :: 0 <= i < j < |q| ==> q[i] != q[j]
    ensures multiset(Repeated(q, n))[x] == if x in q then n else 0
    decreases |q|
  {
    if q != [] {
      var front, r := q[..|q| - 1], q[|q| - 1];
      RepeatedMultiset(front, n, x);
      SameMultiset(r, n, x);
      assert q == front + [r];
      assert x in front ==> x != r;
    }
  }

  ghost predicate Ahead(a: Reading, b: Reading) {
    a.epoch > b.epoch > 0 || (a.epoch == 0 && b.epoch > 0)
  }

  lemma {:induction false} RepeatedMembers(q: seq<Reading>, n: nat)
    ensures forall x :: x in Repeated(q, n) ==> x in q
    decreases |q|
  {
    if q != [] {
      RepeatedMembers(q[..|q| - 1], n);
      assert q == q[..|q| - 1] + [q[|q| - 1]];
    }
  }

  lemma {:induction false} RepeatedOrder(q: seq<Reading>, n: nat)
    requires forall i, j :: 0 <= i < j < |q| ==> Ahead(q[i], q[j])
    ensures NewestFirst(Repeated(q, n))
    decreases |q|
  {
    if q != [] {
      var front, r := q[..|q| - 1], q[|q| - 1];
      RepeatedOrder(front, n);
      RepeatedMembers(front, n);
      assert forall x :: x in front ==> Ahead(x, r);
      OrderAppend(Repeated(front, n), r, n);
    }
  }

  lemma OrderAppend(a: seq<Reading>, r: Reading, n: nat)
    requires NewestFirst(a) && forall x :: x in a ==> Ahead(x, r)
    ensures NewestFirst(a + Same(r, n))
  {
    assert forall i :: 0 <= i < |a| ==> a[i] in a;
  }

  lemma SeriesMeans(chain: Key, ledger: Ledger, v: u64, start: u64, limit: u64)
    requires start < ROW_BOUND && 1 <= limit && forall a: At :: a in ledger ==> a.epoch < ROW_BOUND
    ensures var q := Series(ledger, v, start, limit);
            (forall i, j :: 0 <= i < j < |q| ==> Ahead(q[i], q[j])) &&
            forall r: Reading :: r in q <==> InSpan(r, chain, v, ledger, start, limit)
  {
    var q, es := Series(ledger, v, start, limit), WindowEpochs(ledger, v, start, limit);
    WindowEpochsSpec(ledger, v, start, limit);
    forall i, j | 0 <= i < j < |q| ensures Ahead(q[i], q[j]) { assert Before(es[i], es[j]); }
    forall r: Reading ensures r in q <==> InSpan(r, chain, v, ledger, start, limit) {
      OneOfSeries(chain, ledger, v, start, limit, r);
    }
  }

  lemma OneOfSeries(chain: Key, ledger: Ledger, v: u64, start: u64, limit: u64, r: Reading)
    requires start < ROW_BOUND && 1 <= limit && forall a: At :: a in ledger ==> a.epoch < ROW_BOUND
    ensures r in Series(ledger, v, start, limit) <==> InSpan(r, chain, v, ledger, start, limit)
  {
    var q, es := Series(ledger, v, start, limit), WindowEpochs(ledger, v, start, limit);
    WindowEpochsSpec(ledger, v, start, limit);
    if r in q {
      var i :| 0 <= i < |q| && q[i] == r;
      assert es[i] in es;
      WithinExactly(chain, r.epoch, start, limit);
    }
    if Booking(r, ledger, v) && Within(chain, r.epoch, start, limit) {
      WithinExactly(chain, r.epoch, start, limit);
      assert Seen(ledger, v, start, limit, r.epoch) && r.epoch in es;
      var i :| 0 <= i < |es| && es[i] == r.epoch;
      assert q[i] == r;
    }
  }

  /** The lists say what the ledger says. */
  lemma ListsAreTold(h: map<u64, seq<Reading>>, chain: Key, validators: seq<u64>, ledger: Ledger, start: u64, limit: u64)
    requires start < ROW_BOUND && 1 <= limit && forall a: At :: a in ledger ==> a.epoch < ROW_BOUND
    requires ListsSeries(h, validators, ledger, start, limit)
    ensures TellsLists(h, chain, validators, ledger, start, limit)
  {
    forall v: u64 ensures TellsList(Listed(h, v), chain, validators, v, ledger, start, limit) {
      ListIsTold(chain, validators, v, ledger, start, limit);
    }
  }

  lemma ListIsTold(chain: Key, validators: seq<u64>, v: u64, ledger: Ledger, start: u64, limit: u64)
    requires start < ROW_BOUND && 1 <= limit && forall a: At :: a in ledger ==> a.epoch < ROW_BOUND
    ensures TellsList(Repeated(Series(ledger, v, start, limit), Count(validators, v)), chain, validators, v, ledger, start, limit)
  {
    var q, n := Series(ledger, v, start, limit), Count(validators, v);
    SeriesMeans(chain, ledger, v, start, limit);
    RepeatedOrder(q, n);
    RepeatedMembers(q, n);
    CountIsMultiset(validators, v);
    var told := Repeated(q, n);
    forall r: Reading | InSpan(r, chain, v, ledger, start, limit)
      ensures multiset(told)[r] == multiset(validators)[v]
    {
      RepeatedMultiset(q, n, r);
      assert r in q;
    }
    assert TellsList(told, chain, validators, v, ledger, start, limit);
  }

  /** GetValidatorBalanceHistory: for each validator, newest first, what was last saved for
      the epochs of the window, as often as the request names the validator. */
  method GetValidatorBalanceHistory(t: Table<Key>, chain: Key, validators: seq<u64>, start: u64, limit: u64,
                                    ghost ledger: Ledger)
    returns (h: map<u64, seq<Reading>>)
    ensures InBounds(t.rows, chain, ledger, start, limit) ==> ListsSeries(h, validators, ledger, start, limit)
    ensures InBounds(t.rows, chain, ledger, start, limit) ==> TellsLists(h, chain, validators, ledger, start, limit)
  {
    var lo, hi := BalanceKey(chain, start), BalanceKey(chain, Sub64(start, limit));
    h := map[];
    if |validators| == 0 {
      if InBounds(t.rows, chain, ledger, start, limit) {
        NobodyAsked(ledger, start, limit);
        ListsAreTold(h, chain, validators, ledger, start, limit);
      }
      return;
    }
    h := ReadWindow(t, lo, hi, Some(validators), limit, Append);
    if InBounds(t.rows, chain, ledger, start, limit) {
      HistoryLists(t.rows, chain, validators, start, limit, ledger, h);
      ListsAreTold(h, chain, validators, ledger, start, limit);
    }
  }

  lemma NobodyAsked(ledger: Ledger, start: u64, limit: u64)
    ensures ListsSeries(map[], [], ledger, start, limit)
  {
    forall v: u64 ensures Repeated(Series(ledger, v, start, limit), Count([], v)) == [] {
      RepeatedNever(Series(ledger, v, start, limit));
    }
  }

  lemma HistoryLists(rows: Rows<Key>, chain: Key, validators: seq<u64>, start: u64, limit: u64, ledger: Ledger,
                     h: map<u64, seq<Reading>>)
    requires InBounds(rows, chain, ledger, start, limit)
    requires var lo, hi := BalanceKey(chain, start), BalanceKey(chain, Sub64(start, limit));
             AllReadable(rows) ==> AllFolded(rows, Delivered(rows, lo, hi, Some(validators), limit), Some(validators), Append, h)
    ensures ListsSeries(h, validators, ledger, start, limit)
  {
    var wanted := Some(validators);
    LedgerReadable(rows, chain, ledger);
    LimitNeverCuts(rows, chain, ledger, wanted, start, limit);
    var keys := Delivered(rows, BalanceKey(chain, start), BalanceKey(chain, Sub64(start, limit)), wanted, limit);
    forall v: u64 ensures Listed(h, v) == Repeated(Series(ledger, v, start, limit), Count(validators, v)) {
      assert ReadSoFar(rows, keys, wanted, Append, Get(h, v), v);
      FoldOfAppend(Repeated(Readings(rows, keys, v), Count(validators, v)));
      CountPositive(validators, v);
      if v in validators {
        DeliveredReadings(rows, chain, ledger, wanted, start, limit, v);
      } else {
        RepeatedNever(Readings(rows, keys, v));
        RepeatedNever(Series(ledger, v, start, limit));
      }
    }
  }

  /** A caller gets a validator's series exactly when the request names it once, or when
      there is nothing to be read. */
  lemma SeriesExactly(h: map<u64, seq<Reading>>, validators: seq<u64>, ledger: Ledger, start: u64, limit: u64, v: u64)
    requires ListsSeries(h, validators, ledger, start, limit)
    ensures Listed(h, v) == Series(ledger, v, start, limit) <==>
            Count(validators, v) == 1 || WindowEpochs(ledger, v, start, limit) == []
  {
    RepeatedExactly(Series(ledger, v, start, limit), Count(validators, v));
  }

  lemma CountTwice(v: u64)
    ensures Count([v, v], v) == 2
  {
    assert [v, v][..1] == [v] && [v][..0] == [];
    assert Count([v], v) == Count([], v) + 1;
    assert Count([v, v], v) == Count([v], v) + 1;
  }

  lemma RepeatedTwice(r: Reading)
    ensures Repeated([r], 2) == [r, r]
  {
    RepeatedAppend([], r, 2);
    assert [] + [r] == [r];
    assert Same(r, 2) == [r, r];
  }

  lemma OneEpochWindow(ledger: Ledger, epoch: u64, v: u64)
    requires 2 <= epoch < ROW_BOUND && At(epoch, v) in ledger
    ensures WindowEpochs(ledger, v, epoch, 1) == [epoch]
  {
    var q := WindowEpochs(ledger, v, epoch, 1);
    WindowEpochsSpec(ledger, v, epoch, 1);
    PlainRows(epoch, epoch, 1);
    forall e: u64 | e in q ensures e == epoch { PlainRows(e, epoch, 1); }
    assert epoch in q;
    assert forall i :: 0 <= i < |q| ==> q[i] in q;
    assert |q| > 1 ==> Before(q[0], q[1]);
  }

  /** A validator named twice gets every balance twice. */
  lemma NamedTwice(h: map<u64, seq<Reading>>, ledger: Ledger, epoch: u64, v: u64)
    requires 2 <= epoch < ROW_BOUND && At(epoch, v) in ledger && ListsSeries(h, [v, v], ledger, epoch, 1)
    ensures var r := Reading(epoch, v, ledger[At(epoch, v)]); Listed(h, v) == [r, r]
  {
    var r := Reading(epoch, v, ledger[At(epoch, v)]);
    OneEpochWindow(ledger, epoch, v);
    assert Series(ledger, v, epoch, 1) == [r];
    CountTwice(v);
    RepeatedTwice(r);
  }
}
