/** GetValidatorBalanceStatistics: one pass over the balance rows of a span of epochs. */
module BalanceStatistics {
  import opened Bytes
  import opened Words
  import opened Decimal
  import opened Bigtable
  import opened BalanceCells
  import opened BalanceSeries

  datatype Statistic = Statistic(
    minEffective: u64, maxEffective: u64, minBalance: u64, maxBalance: u64,
    startEffective: u64, endEffective: u64, startBalance: u64, endBalance: u64)

  /** The body of the loop. The effective minimum and maximum are updated from the balance,
      not from the effective balance. */
  function Record(startEpoch: u64, endEpoch: u64, o: Option<Statistic>, r: Reading): Statistic {
    var b := r.balance.balance;
    var s0 := if o.None? then Statistic(r.balance.effective, 0, b, 0, 0, 0, 0, 0) else o.value;
    var s1 := if r.epoch == startEpoch then s0.(startBalance := b, startEffective := r.balance.effective) else s0;
    var s2 := if r.epoch == endEpoch then s1.(endBalance := b, endEffective := r.balance.effective) else s1;
    s2.(maxBalance := if b > s2.maxBalance then b else s2.maxBalance,
        minBalance := if b < s2.minBalance then b else s2.minBalance,
        maxEffective := if b > s2.maxEffective then b else s2.maxEffective,
        minEffective := if b < s2.minEffective then b else s2.minEffective)
  }

  function RecordStep(startEpoch: u64, endEpoch: u64): Step<Statistic> {
    (o: Option<Statistic>, r: Reading) => Record(startEpoch, endEpoch, o, r)
  }

  // ------------------------------------------------------------------ what the fold means

  ghost predicate IsLargest(x: u64, q: seq<Reading>) {
    (exists i :: 0 <= i < |q| && q[i].balance.balance == x) && forall i :: 0 <= i < |q| ==> q[i].balance.balance <= x
  }

  ghost predicate IsSmallest(x: u64, q: seq<Reading>) {
    (exists i :: 0 <= i < |q| && q[i].balance.balance == x) && forall i :: 0 <= i < |q| ==> x <= q[i].balance.balance
  }

  /** The balances recorded for one epoch; zero stands for none. */
  ghost predicate IsAtEpoch(balance: u64, effective: u64, q: seq<Reading>, epoch: u64) {
    (forall i :: 0 <= i < |q| && q[i].epoch == epoch ==> q[i].balance == Balance(balance, effective)) &&
    ((forall i :: 0 <= i < |q| ==> q[i].epoch != epoch) ==> balance == effective == 0)
  }

  ghost predicate DistinctEpochs(q: seq<Reading>) {
    forall i, j :: 0 <= i < j < |q| ==> q[i].epoch != q[j].epoch
  }

  ghost predicate Extremal(st: Statistic, q: seq<Reading>) {
    q != [] && IsLargest(st.maxBalance, q) && IsSmallest(st.minBalance, q) &&
    st.maxEffective == st.maxBalance &&
    st.minEffective == if q[0].balance.effective < st.minBalance then q[0].balance.effective else st.minBalance
  }

  ghost predicate Summarises(st: Statistic, q: seq<Reading>, startEpoch: u64, endEpoch: u64) {
    Extremal(st, q) &&
    IsAtEpoch(st.startBalance, st.startEffective, q, startEpoch) &&
    IsAtEpoch(st.endBalance, st.endEffective, q, endEpoch)
  }

  lemma LargestAppend(x: u64, q: seq<Reading>, r: Reading)
    requires q != [] ==> IsLargest(x, q)
    requires q == [] ==> x == 0
    ensures IsLargest(if r.balance.balance > x then r.balance.balance else x, q + [r])
  {
    var b := r.balance.balance;
    var q' := q + [r];
    assert q'[|q|] == r;
    if b <= x && q != [] {
      var i :| 0 <= i < |q| && q[i].balance.balance == x;
      assert q'[i] == q[i];
    }
  }

  lemma SmallestAppend(x: u64, q: seq<Reading>, r: Reading)
    requires q != [] ==> IsSmallest(x, q)
    requires q == [] ==> x == r.balance.balance
    ensures IsSmallest(if r.balance.balance < x then r.balance.balance else x, q + [r])
  {
    var q' := q + [r];
    assert q'[|q|] == r;
    if r.balance.balance >= x && q != [] {
      var i :| 0 <= i < |q| && q[i].balance.balance == x;
      assert q'[i] == q[i];
    }
  }

  lemma AtEpochAppend(b: u64, e: u64, q: seq<Reading>, r: Reading, epoch: u64)
    requires IsAtEpoch(b, e, q, epoch) && forall i :: 0 <= i < |q| ==> q[i].epoch != r.epoch
    ensures if r.epoch == epoch then IsAtEpoch(r.balance.balance, r.balance.effective, q + [r], epoch)
            else IsAtEpoch(b, e, q + [r], epoch)
  {
    var q' := q + [r];
    assert q'[|q|] == r;
    assert forall i :: 0 <= i < |q| ==> q'[i] == q[i];
  }

  /** One pass computes the true start, end, smallest and largest balance. */
  lemma {:induction false} FoldSummarises(q: seq<Reading>, startEpoch: u64, endEpoch: u64)
    requires DistinctEpochs(q) && q != []
    ensures Fold(RecordStep(startEpoch, endEpoch), q).Some?
    ensures Summarises(Fold(RecordStep(startEpoch, endEpoch), q).value, q, startEpoch, endEpoch)
    decreases |q|
  {
    var step := RecordStep(startEpoch, endEpoch);
    var front, r := q[..|q| - 1], q[|q| - 1];
    assert q == front + [r];
    if front == [] {
      OneRecorded(None, [], r, startEpoch, endEpoch);
    } else {
      FoldSummarises(front, startEpoch, endEpoch);
      OneRecorded(Fold(step, front), front, r, startEpoch, endEpoch);
    }
  }

  lemma OneRecorded(o: Option<Statistic>, q: seq<Reading>, r: Reading, startEpoch: u64, endEpoch: u64)
    requires o.None? <==> q == []
    requires o.Some? ==> Summarises(o.value, q, startEpoch, endEpoch)
    requires forall i :: 0 <= i < |q| ==> q[i].epoch != r.epoch
    ensures Summarises(Record(startEpoch, endEpoch, o, r), q + [r], startEpoch, endEpoch)
  {
    var s := if o.None? then Statistic(r.balance.effective, 0, r.balance.balance, 0, 0, 0, 0, 0) else o.value;
    LargestAppend(s.maxBalance, q, r);
    SmallestAppend(s.minBalance, q, r);
    AtEpochAppend(s.startBalance, s.startEffective, q, r, startEpoch);
    AtEpochAppend(s.endBalance, s.endEffective, q, r, endEpoch);
    assert (q + [r])[0] == if q == [] then r else q[0];
  }

  // ------------------------------------------------------------------------- the reader

  ghost predicate SummarisedAt(o: Option<Statistic>, ledger: Ledger, startEpoch: u64, endEpoch: u64, v: u64)
    requires startEpoch <= endEpoch < ROW_BOUND
  {
    var q := Series(ledger, v, endEpoch, endEpoch - startEpoch + 1);
    (o.None? <==> q == []) && (o.Some? ==> Summarises(o.value, q, startEpoch, endEpoch))
  }

  /** The statistics of every validator are those of its series over the span read. */
  ghost predicate SeriesSummarised(res: map<u64, Statistic>, ledger: Ledger, startEpoch: u64, endEpoch: u64)
    requires startEpoch <= endEpoch < ROW_BOUND
  {
    forall v: u64 :: SummarisedAt(Get(res, v), ledger, startEpoch, endEpoch, v)
  }

  method GetValidatorBalanceStatistics(t: Table<Key>, chain: Key, startEpoch: u64, endEpoch: u64, ghost ledger: Ledger)
    returns (res: map<u64, Statistic>)
    ensures LedgerOk(t.rows, chain, ledger) && startEpoch <= endEpoch < ROW_BOUND ==>
              SeriesSummarised(res, ledger, startEpoch, endEpoch)
  {
    var lo, hi := BalanceKey(chain, endEpoch), BalanceKey(chain, Sub64(startEpoch, 1));
    res := ReadWindow(t, lo, hi, None, 0, RecordStep(startEpoch, endEpoch));
    if LedgerOk(t.rows, chain, ledger) && startEpoch <= endEpoch < ROW_BOUND {
      ReadingSummarises(t.rows, chain, startEpoch, endEpoch, ledger, res);
    }
  }

  lemma ReadingSummarises(rows: Rows<Key>, chain: Key, startEpoch: u64, endEpoch: u64, ledger: Ledger, res: map<u64, Statistic>)
    requires LedgerOk(rows, chain, ledger) && startEpoch <= endEpoch < ROW_BOUND
    requires var lo, hi := BalanceKey(chain, endEpoch), BalanceKey(chain, Sub64(startEpoch, 1));
             AllReadable(rows) ==>
               AllFolded(rows, Delivered(rows, lo, hi, None, 0), None, RecordStep(startEpoch, endEpoch), res)
    ensures SeriesSummarised(res, ledger, startEpoch, endEpoch)
  {
    LedgerReadable(rows, chain, ledger);
    var keys := Delivered(rows, BalanceKey(chain, endEpoch), BalanceKey(chain, Sub64(startEpoch, 1)), None, 0);
    forall v: u64 ensures SummarisedAt(Get(res, v), ledger, startEpoch, endEpoch, v) {
      assert ReadSoFar(rows, keys, None, RecordStep(startEpoch, endEpoch), Get(res, v), v);
      OneSummarised(rows, chain, startEpoch, endEpoch, ledger, Get(res, v), v);
    }
  }

  /** The span is the window of that many epochs up to its end. */
  lemma SpanReadings(rows: Rows<Key>, chain: Key, startEpoch: u64, endEpoch: u64, ledger: Ledger, v: u64)
    requires LedgerOk(rows, chain, ledger) && startEpoch <= endEpoch < ROW_BOUND
    ensures Readings(rows, Delivered(rows, BalanceKey(chain, endEpoch), BalanceKey(chain, Sub64(startEpoch, 1)), None, 0), v)
            == Series(ledger, v, endEpoch, endEpoch - startEpoch + 1)
  {
    assert Sub64(endEpoch, endEpoch - startEpoch + 1) == Sub64(startEpoch, 1);
    DeliveredReadings(rows, chain, ledger, None, endEpoch, endEpoch - startEpoch + 1, v);
  }

  /** One validator, away from the others. */
  lemma OneSummarised(rows: Rows<Key>, chain: Key, startEpoch: u64, endEpoch: u64, ledger: Ledger, o: Option<Statistic>, v: u64)
    requires LedgerOk(rows, chain, ledger) && startEpoch <= endEpoch < ROW_BOUND
    requires ReadSoFar(rows, Delivered(rows, BalanceKey(chain, endEpoch), BalanceKey(chain, Sub64(startEpoch, 1)), None, 0),
                       None, RecordStep(startEpoch, endEpoch), o, v)
    ensures SummarisedAt(o, ledger, startEpoch, endEpoch, v)
  {
    SpanReadings(rows, chain, startEpoch, endEpoch, ledger, v);
    FoldedOnce(Series(ledger, v, endEpoch, endEpoch - startEpoch + 1), ledger, startEpoch, endEpoch, o, v);
  }

  lemma FoldedOnce(q: seq<Reading>, ledger: Ledger, startEpoch: u64, endEpoch: u64, o: Option<Statistic>, v: u64)
    requires startEpoch <= endEpoch < ROW_BOUND && q == Series(ledger, v, endEpoch, endEpoch - startEpoch + 1)
    requires o == Fold(RecordStep(startEpoch, endEpoch), Repeated(q, 1))
    ensures SummarisedAt(o, ledger, startEpoch, endEpoch, v)
  {
    RepeatedOnce(q);
    SeriesFolded(ledger, v, startEpoch, endEpoch);
  }

  lemma SeriesFolded(ledger: Ledger, v: u64, startEpoch: u64, endEpoch: u64)
    requires startEpoch <= endEpoch < ROW_BOUND
    ensures var q := Series(ledger, v, endEpoch, endEpoch - startEpoch + 1);
            var st := Fold(RecordStep(startEpoch, endEpoch), q);
            (q == [] ==> st.None?) && (q != [] ==> st.Some? && Summarises(st.value, q, startEpoch, endEpoch))
  {
    var q := Series(ledger, v, endEpoch, endEpoch - startEpoch + 1);
    WindowEpochsSpec(ledger, v, endEpoch, endEpoch - startEpoch + 1);
    if q != [] { FoldSummarises(q, startEpoch, endEpoch); }
  }

  // ------------------------------------------------------------- in terms of the ledger

  /** The true statistics of a validator over the epochs startEpoch .. endEpoch. */
  ghost predicate TrueBalances(st: Statistic, ledger: Ledger, v: u64, startEpoch: u64, endEpoch: u64) {
    (forall e: u64 :: startEpoch <= e <= endEpoch && At(e, v) in ledger ==>
                        st.minBalance <= ledger[At(e, v)].balance <= st.maxBalance) &&
    (exists e: u64 :: startEpoch <= e <= endEpoch && At(e, v) in ledger && ledger[At(e, v)].balance == st.minBalance) &&
    (exists e: u64 :: startEpoch <= e <= endEpoch && At(e, v) in ledger && ledger[At(e, v)].balance == st.maxBalance) &&
    Balance(st.startBalance, st.startEffective) == BalanceAt(ledger, startEpoch, v) &&
    Balance(st.endBalance, st.endEffective) == BalanceAt(ledger, endEpoch, v)
  }

  ghost function BalanceAt(ledger: Ledger, e: u64, v: u64): Balance {
    if At(e, v) in ledger then ledger[At(e, v)] else Balance(0, 0)
  }

  /** The spans whose window is not empty by construction. */
  predicate ReadableSpan(startEpoch: u64, endEpoch: u64) {
    startEpoch <= endEpoch < ROW_BOUND && (startEpoch >= 2 || endEpoch == 0)
  }

  /** The window that is read for a span covers it exactly, or nothing. */
  lemma SpanRows(e: u64, startEpoch: u64, endEpoch: u64)
    requires startEpoch <= endEpoch < ROW_BOUND && e < ROW_BOUND
    ensures CoveredRow(e, endEpoch, endEpoch - startEpoch + 1) <==>
            ReadableSpan(startEpoch, endEpoch) && startEpoch <= e <= endEpoch
  {
    if startEpoch == 0 {
      WrappedRows(e, endEpoch, endEpoch + 1);
    } else {
      PlainRows(e, endEpoch, endEpoch - startEpoch + 1);
    }
  }

  lemma SeriesCovers(ledger: Ledger, v: u64, startEpoch: u64, endEpoch: u64, e: u64) returns (i: nat)
    requires ReadableSpan(startEpoch, endEpoch) && startEpoch <= e <= endEpoch && At(e, v) in ledger
    ensures var q := Series(ledger, v, endEpoch, endEpoch - startEpoch + 1);
            i < |q| && q[i] == Reading(e, v, ledger[At(e, v)])
  {
    WindowEpochsSpec(ledger, v, endEpoch, endEpoch - startEpoch + 1);
    var es := WindowEpochs(ledger, v, endEpoch, endEpoch - startEpoch + 1);
    SpanRows(e, startEpoch, endEpoch);
    assert Seen(ledger, v, endEpoch, endEpoch - startEpoch + 1, e) && e in es;
    i :| 0 <= i < |es| && es[i] == e;
  }

  lemma SeriesBooked(ledger: Ledger, v: u64, startEpoch: u64, endEpoch: u64, i: nat)
    requires ReadableSpan(startEpoch, endEpoch) && i < |Series(ledger, v, endEpoch, endEpoch - startEpoch + 1)|
    ensures var r := Series(ledger, v, endEpoch, endEpoch - startEpoch + 1)[i];
            startEpoch <= r.epoch <= endEpoch && At(r.epoch, v) in ledger && r.balance == ledger[At(r.epoch, v)]
  {
    WindowEpochsSpec(ledger, v, endEpoch, endEpoch - startEpoch + 1);
    var es := WindowEpochs(ledger, v, endEpoch, endEpoch - startEpoch + 1);
    assert es[i] in es;
    SpanRows(es[i], startEpoch, endEpoch);
  }

  lemma EpochBalance(st: Balance, ledger: Ledger, v: u64, startEpoch: u64, endEpoch: u64, e: u64)
    requires ReadableSpan(startEpoch, endEpoch) && startEpoch <= e <= endEpoch
    requires IsAtEpoch(st.balance, st.effective, Series(ledger, v, endEpoch, endEpoch - startEpoch + 1), e)
    ensures st == BalanceAt(ledger, e, v)
  {
    var q := Series(ledger, v, endEpoch, endEpoch - startEpoch + 1);
    if At(e, v) in ledger {
      var i := SeriesCovers(ledger, v, startEpoch, endEpoch, e);
    } else {
      forall i | 0 <= i < |q| ensures q[i].epoch != e { SeriesBooked(ledger, v, startEpoch, endEpoch, i); }
    }
  }

  lemma SummaryIsTrue(st: Statistic, ledger: Ledger, v: u64, startEpoch: u64, endEpoch: u64)
    requires ReadableSpan(startEpoch, endEpoch)
    requires Summarises(st, Series(ledger, v, endEpoch, endEpoch - startEpoch + 1), startEpoch, endEpoch)
    ensures TrueBalances(st, ledger, v, startEpoch, endEpoch)
  {
    var q := Series(ledger, v, endEpoch, endEpoch - startEpoch + 1);
    forall e: u64 | startEpoch <= e <= endEpoch && At(e, v) in ledger
      ensures st.minBalance <= ledger[At(e, v)].balance <= st.maxBalance
    {
      var i := SeriesCovers(ledger, v, startEpoch, endEpoch, e);
    }
    var i :| 0 <= i < |q| && q[i].balance.balance == st.minBalance;
    SeriesBooked(ledger, v, startEpoch, endEpoch, i);
    var j :| 0 <= j < |q| && q[j].balance.balance == st.maxBalance;
    SeriesBooked(ledger, v, startEpoch, endEpoch, j);
    EpochBalance(Balance(st.startBalance, st.startEffective), ledger, v, startEpoch, endEpoch, startEpoch);
    EpochBalance(Balance(st.endBalance, st.endEffective), ledger, v, startEpoch, endEpoch, endEpoch);
  }

  lemma NothingCovered(ledger: Ledger, v: u64, startEpoch: u64, endEpoch: u64)
    requires startEpoch <= endEpoch < ROW_BOUND && !ReadableSpan(startEpoch, endEpoch)
    ensures WindowEpochs(ledger, v, endEpoch, endEpoch - startEpoch + 1) == []
  {
    var q := WindowEpochs(ledger, v, endEpoch, endEpoch - startEpoch + 1);
    WindowEpochsSpec(ledger, v, endEpoch, endEpoch - startEpoch + 1);
    if q != [] {
      var e := SomeMember(q);
      SpanRows(e, startEpoch, endEpoch);
    }
  }

  lemma SomeMember(q: seq<u64>) returns (e: u64)
    requires q != []
    ensures e in q
  {
    e := q[0];
  }

  /** For spans from epoch 2 on, and for epoch 0 alone, exactly the validators with a balance
      in the span get statistics, and these are true. Any other span gets none at all. */
  lemma StatisticsMean(res: map<u64, Statistic>, ledger: Ledger, startEpoch: u64, endEpoch: u64, v: u64)
    requires startEpoch <= endEpoch < ROW_BOUND && SeriesSummarised(res, ledger, startEpoch, endEpoch)
    ensures ReadableSpan(startEpoch, endEpoch) ==>
              (v in res <==> exists e: u64 :: startEpoch <= e <= endEpoch && At(e, v) in ledger) &&
              (v in res ==> TrueBalances(res[v], ledger, v, startEpoch, endEpoch))
    ensures !ReadableSpan(startEpoch, endEpoch) ==> res == map[]
  {
    assert SummarisedAt(Get(res, v), ledger, startEpoch, endEpoch, v);
    if ReadableSpan(startEpoch, endEpoch) {
      if v in res {
        SeriesBooked(ledger, v, startEpoch, endEpoch, 0);
        SummaryIsTrue(res[v], ledger, v, startEpoch, endEpoch);
      } else if e: u64 :| startEpoch <= e <= endEpoch && At(e, v) in ledger {
        var i := SeriesCovers(ledger, v, startEpoch, endEpoch, e);
      }
    } else {
      forall w: u64 ensures w !in res {
        assert SummarisedAt(Get(res, w), ledger, startEpoch, endEpoch, w);
        NothingCovered(ledger, w, startEpoch, endEpoch);
      }
    }
  }
}
