/** Balances from the first save to the read: any sequence of saves, with failing flushes and
    with writes of other kinds in between, and then the history or the statistics. */
module BalanceLog {
  import opened Bytes
  import opened Words
  import opened Bigtable
  import opened KeyCodec
  import opened BalanceCells
  import opened BalanceSeries
  import opened BalanceStatistics

  /** A call of SaveValidatorBalances, or a row written to other column families. */
  datatype Event = Save(epoch: u64, validators: seq<Validator>) | Elsewhere(key: Key, ops: Mutation<Key>)

  ghost predicate ValidEvent(e: Event) {
    (e.Save? ==> e.epoch < ROW_BOUND) &&
    (e.Elsewhere? ==> forall op :: op in e.ops ==> op.SetCell? && op.column.family != BALANCES)
  }

  /** What an event books when the first n of its balances reach the table. */
  function Books(ledger: Ledger, e: Event, n: nat): Ledger {
    if e.Save? && n <= |e.validators| then Booked(ledger, e.epoch, e.validators[..n]) else ledger
  }

  /** The balances saved last, call after call. */
  function LedgerOf(log: seq<Event>, saved: seq<nat>): Ledger
    requires |saved| == |log|
  {
    if log == [] then map[]
    else Books(LedgerOf(log[..|log| - 1], saved[..|log| - 1]), log[|log| - 1], saved[|log| - 1])
  }

  /** How far a save got: all the way when its flushes succeed, and otherwise to the last one
      that did. */
  ghost predicate SavedFar(e: Event, applyFails: nat -> bool, saved: nat) {
    e.Save? ==>
      var n := |e.validators|;
      if FlushesWork(applyFails, n) && !applyFails(n) then saved == n else LastFlush(applyFails, n, saved)
  }

  lemma LastFlushAtMost(applyFails: nat -> bool, n: nat, f: nat, g: nat)
    requires LastFlush(applyFails, n, f) && LastFlush(applyFails, n, g)
    ensures f <= g
  {
    var b := f - 1;
    assert f > 0 ==> 0 <= b < n && b % 100_000 == 0 && FlushesWork(applyFails, b + 1);
  }

  /** So the failing flushes alone decide how far a save got. */
  lemma SavedFarUnique(e: Event, applyFails: nat -> bool, m: nat, n: nat)
    requires e.Save? && SavedFar(e, applyFails, m) && SavedFar(e, applyFails, n)
    ensures m == n
  {
    if !FlushesWork(applyFails, |e.validators|) || applyFails(|e.validators|) {
      LastFlushAtMost(applyFails, |e.validators|, m, n);
      LastFlushAtMost(applyFails, |e.validators|, n, m);
    }
  }

  /** How far each call got. */
  ghost predicate SavedAsTheyCan(log: seq<Event>, applyFails: nat -> nat -> bool, saved: seq<nat>) {
    |saved| == |log| && forall i :: 0 <= i < |log| ==> SavedFar(log[i], applyFails(i), saved[i])
  }

  lemma {:induction false} BookedEpochsBelow(ledger: Ledger, epoch: u64, vs: seq<Validator>)
    requires epoch < ROW_BOUND && forall a: At :: a in ledger ==> a.epoch < ROW_BOUND
    ensures forall a: At :: a in Booked(ledger, epoch, vs) ==> a.epoch < ROW_BOUND
    decreases |vs|
  {
    if vs != [] { BookedEpochsBelow(ledger, epoch, vs[..|vs| - 1]); }
  }

  /** Entry j of call i reached the table and is about a validator in an epoch. */
  ghost predicate Gives(log: seq<Event>, saved: seq<nat>, i: nat, j: nat, a: At) {
    i < |log| && i < |saved| && log[i].Save? && log[i].epoch == a.epoch &&
    j < saved[i] && j < |log[i].validators| && log[i].validators[j].index == a.validator
  }

  ghost predicate Given(log: seq<Event>, saved: seq<nat>, a: At) {
    exists i: nat, j: nat :: Gives(log, saved, i, j, a)
  }

  ghost predicate GivenBy(log: seq<Event>, saved: seq<nat>, i: nat, a: At) {
    exists j: nat :: Gives(log, saved, i, j, a)
  }

  /** The last such entry. */
  ghost predicate GivesLast(log: seq<Event>, saved: seq<nat>, i: nat, j: nat, a: At) {
    Gives(log, saved, i, j, a) &&
    forall k: nat, l: nat :: Gives(log, saved, k, l, a) ==> k < i || (k == i && l <= j)
  }

  /** A ledger of the balances that were saved last, and of no others. */
  ghost predicate TellsLast(log: seq<Event>, saved: seq<nat>, ledger: Ledger) {
    (forall a: At :: a in ledger <==> Given(log, saved, a)) &&
    forall a: At, i: nat, j: nat :: GivesLast(log, saved, i, j, a) ==> a in ledger && ledger[a] == log[i].validators[j].balance
  }

  /** One save: what it does not name stays ... */
  lemma {:induction false} BookedElsewhere(ledger: Ledger, epoch: u64, vs: seq<Validator>, a: At)
    requires a.epoch != epoch || forall j :: 0 <= j < |vs| ==> vs[j].index != a.validator
    ensures a in Booked(ledger, epoch, vs) <==> a in ledger
    ensures a in ledger ==> Booked(ledger, epoch, vs)[a] == ledger[a]
    decreases |vs|
  {
    if vs != [] {
      assert a != At(epoch, vs[|vs| - 1].index);
      BookedElsewhere(ledger, epoch, vs[..|vs| - 1], a);
    }
  }

  /** ... and the last entry of a validator counts. */
  lemma {:induction false} BookedLast(ledger: Ledger, epoch: u64, vs: seq<Validator>, j: nat)
    requires LastNamed(vs, j)
    ensures var a := At(epoch, vs[j].index); a in Booked(ledger, epoch, vs) && Booked(ledger, epoch, vs)[a] == vs[j].balance
    decreases |vs|
  {
    var n := |vs| - 1;
    if j < n {
      assert vs[n].index != vs[j].index;
      assert forall l :: j < l < n ==> vs[..n][l] == vs[l];
      BookedLast(ledger, epoch, vs[..n], j);
    }
  }

  lemma GivesBefore(log: seq<Event>, saved: seq<nat>, i: nat, j: nat, a: At)
    requires |saved| == |log| > 0 && i < |log| - 1
    ensures Gives(log, saved, i, j, a) <==> Gives(log[..|log| - 1], saved[..|log| - 1], i, j, a)
  {}

  lemma GivenStep(log: seq<Event>, saved: seq<nat>, a: At)
    requires |saved| == |log| > 0
    ensures Given(log, saved, a) <==>
            Given(log[..|log| - 1], saved[..|log| - 1], a) || GivenBy(log, saved, |log| - 1, a)
  {
    var n := |log| - 1;
    if i: nat, j: nat :| Gives(log, saved, i, j, a) {
      if i < n { GivesBefore(log, saved, i, j, a); } else { assert GivenBy(log, saved, n, a); }
    }
    if i: nat, j: nat :| Gives(log[..n], saved[..n], i, j, a) {
      GivesBefore(log, saved, i, j, a);
    }
  }

  /** The ledger is what was saved last. */
  lemma {:induction false} LedgerTellsLast(log: seq<Event>, saved: seq<nat>)
    requires |saved| == |log| && forall i :: 0 <= i < |log| && log[i].Save? ==> saved[i] <= |log[i].validators|
    ensures TellsLast(log, saved, LedgerOf(log, saved))
    decreases |log|
  {
    if log != [] {
      LedgerTellsLast(log[..|log| - 1], saved[..|log| - 1]);
      forall a: At ensures a in LedgerOf(log, saved) <==> Given(log, saved, a) { LedgerHolds(log, saved, a); }
      forall a: At, i: nat, j: nat | GivesLast(log, saved, i, j, a)
        ensures a in LedgerOf(log, saved) && LedgerOf(log, saved)[a] == log[i].validators[j].balance
      {
        LedgerValue(log, saved, i, j, a);
      }
    }
  }

  /** The balances of the last call that reached the table. */
  function LastBatch(log: seq<Event>, saved: seq<nat>): seq<Validator>
    requires |saved| == |log| > 0 && (log[|log| - 1].Save? ==> saved[|log| - 1] <= |log[|log| - 1].validators|)
  {
    var e := log[|log| - 1];
    if e.Save? then e.validators[..saved[|log| - 1]] else []
  }

  lemma LastGives(log: seq<Event>, saved: seq<nat>, j: nat, a: At)
    requires |saved| == |log| > 0 && (log[|log| - 1].Save? ==> saved[|log| - 1] <= |log[|log| - 1].validators|)
    ensures Gives(log, saved, |log| - 1, j, a) <==>
            log[|log| - 1].Save? && log[|log| - 1].epoch == a.epoch &&
            j < |LastBatch(log, saved)| && LastBatch(log, saved)[j].index == a.validator
  {}

  lemma LedgerHolds(log: seq<Event>, saved: seq<nat>, a: At)
    requires |saved| == |log| > 0 && (log[|log| - 1].Save? ==> saved[|log| - 1] <= |log[|log| - 1].validators|)
    requires TellsLast(log[..|log| - 1], saved[..|log| - 1], LedgerOf(log[..|log| - 1], saved[..|log| - 1]))
    ensures a in LedgerOf(log, saved) <==> Given(log, saved, a)
  {
    var e, before := log[|log| - 1], LedgerOf(log[..|log| - 1], saved[..|log| - 1]);
    var vs := LastBatch(log, saved);
    GivenStep(log, saved, a);
    forall j: nat
      ensures Gives(log, saved, |log| - 1, j, a) <==> e.Save? && e.epoch == a.epoch && j < |vs| && vs[j].index == a.validator
    {
      LastGives(log, saved, j, a);
    }
    if j: nat :| e.Save? && e.epoch == a.epoch && j < |vs| && vs[j].index == a.validator {
      var l := LastEntry(vs, j);
      BookedLast(before, e.epoch, vs, l);
    } else if e.Save? {
      BookedElsewhere(before, e.epoch, vs, a);
    }
  }

  lemma LedgerValue(log: seq<Event>, saved: seq<nat>, i: nat, j: nat, a: At)
    requires |saved| == |log| > 0 && (log[|log| - 1].Save? ==> saved[|log| - 1] <= |log[|log| - 1].validators|)
    requires TellsLast(log[..|log| - 1], saved[..|log| - 1], LedgerOf(log[..|log| - 1], saved[..|log| - 1]))
    requires GivesLast(log, saved, i, j, a)
    ensures a in LedgerOf(log, saved) && LedgerOf(log, saved)[a] == log[i].validators[j].balance
  {
    var n := |log| - 1;
    var e, before := log[n], LedgerOf(log[..n], saved[..n]);
    var vs := LastBatch(log, saved);
    LedgerHolds(log, saved, a);
    assert Given(log, saved, a);
    if i == n {
      forall l: nat | j < l < |vs| ensures vs[l].index != vs[j].index { LastGives(log, saved, l, a); }
      assert LastNamed(vs, j);
      BookedLast(before, e.epoch, vs, j);
    } else {
      forall k: nat, l: nat | Gives(log[..n], saved[..n], k, l, a) ensures k < i || (k == i && l <= j) {
        GivesBefore(log, saved, k, l, a);
      }
      GivesBefore(log, saved, i, j, a);
      assert GivesLast(log[..n], saved[..n], i, j, a);
      if e.Save? {
        forall l: nat | l < |vs| ensures a.epoch != e.epoch || vs[l].index != a.validator { LastGives(log, saved, l, a); }
        BookedElsewhere(before, e.epoch, vs, a);
      }
    }
  }

  lemma ReachedTellsLast(log: seq<Event>, applyFails: nat -> nat -> bool, saved: seq<nat>)
    requires SavedAsTheyCan(log, applyFails, saved)
    ensures TellsLast(log, saved, LedgerOf(log, saved))
  {
    forall i | 0 <= i < |log| && log[i].Save? ensures saved[i] <= |log[i].validators| {
      assert SavedFar(log[i], applyFails(i), saved[i]);
    }
    LedgerTellsLast(log, saved);
  }

  method RunEvent(t: Table<Key>, chain: Key, e: Event, applyFails: nat -> bool, ghost ledger: Ledger)
    returns (ghost saved: nat)
    requires ValidEvent(e) && LedgerOk(t.rows, chain, ledger)
    modifies t
    ensures LedgerOk(t.rows, chain, Books(ledger, e, saved))
    ensures SavedFar(e, applyFails, saved)
  {
    match e {
      case Save(epoch, vs) =>
        ghost var before := t.rows;
        var ok;
        ok, saved := SaveValidatorBalances(t, chain, epoch, vs, applyFails);
        SavingBooks(before, chain, ledger, epoch, vs[..saved]);
        BookedEpochsBelow(ledger, epoch, vs[..saved]);
      case Elsewhere(key, ops) =>
        saved := 0;
        if !applyFails(0) {
          OtherWritesKeepLedger(t.rows, chain, ledger, key, ops);
          t.Apply(key, ops);
        }
    }
  }

  /** The first n calls were made. */
  ghost predicate RanTo(rows: Rows<Key>, chain: Key, log: seq<Event>, n: nat, applyFails: nat -> nat -> bool, saved: seq<nat>)
    requires n <= |log|
  {
    SavedAsTheyCan(log[..n], applyFails, saved) && LedgerOk(rows, chain, LedgerOf(log[..n], saved))
  }

  lemma OneMoreRan(rows: Rows<Key>, chain: Key, log: seq<Event>, n: nat, applyFails: nat -> nat -> bool,
                   saved: seq<nat>, m: nat)
    requires n < |log| && SavedAsTheyCan(log[..n], applyFails, saved) && SavedFar(log[n], applyFails(n), m)
    requires LedgerOk(rows, chain, Books(LedgerOf(log[..n], saved), log[n], m))
    ensures RanTo(rows, chain, log, n + 1, applyFails, saved + [m])
  {
    var front, longer := log[..n], log[..n + 1];
    assert longer[..n] == front && longer[n] == log[n] && (saved + [m])[..n] == saved;
  }

  method RunLog(t: Table<Key>, chain: Key, log: seq<Event>, applyFails: nat -> nat -> bool) returns (ghost saved: seq<nat>)
    requires Free(chain, COLON) && t.rows == map[] && forall e :: e in log ==> ValidEvent(e)
    modifies t
    ensures SavedAsTheyCan(log, applyFails, saved) && LedgerOk(t.rows, chain, LedgerOf(log, saved))
    ensures TellsLast(log, saved, LedgerOf(log, saved))
  {
    saved := [];
    for i := 0 to |log|
      invariant RanTo(t.rows, chain, log, i, applyFails, saved)
    {
      assert log[i] in log;
      ghost var n := RunEvent(t, chain, log[i], applyFails(i), LedgerOf(log[..i], saved));
      OneMoreRan(t.rows, chain, log, i, applyFails, saved, n);
      saved := saved + [n];
    }
    assert log[..|log|] == log;
    ReachedTellsLast(log, applyFails, saved);
  }

  /** From the empty table through any calls to the history read: each validator gets the
      balances that were saved last for the epochs of the window. */
  method WriteThenRead(chain: Key, log: seq<Event>, applyFails: nat -> nat -> bool, validators: seq<u64>,
                       start: u64, limit: u64)
    returns (h: map<u64, seq<Reading>>)
    requires Free(chain, COLON) && forall e :: e in log ==> ValidEvent(e)
    requires start < ROW_BOUND && 1 <= limit <= MAX_INT
    ensures exists saved ::
              SavedAsTheyCan(log, applyFails, saved) && ListsSeries(h, validators, LedgerOf(log, saved), start, limit)
    ensures exists saved, ledger ::
              SavedAsTheyCan(log, applyFails, saved) && TellsLast(log, saved, ledger) &&
              TellsLists(h, chain, validators, ledger, start, limit)
  {
    var t := new Table<Key>();
    ghost var saved := RunLog(t, chain, log, applyFails);
    h := GetValidatorBalanceHistory(t, chain, validators, start, limit, LedgerOf(log, saved));
  }

  /** ... and to the statistics: the true ones for a readable span, none for any other. */
  method WriteThenSummarise(chain: Key, log: seq<Event>, applyFails: nat -> nat -> bool, startEpoch: u64, endEpoch: u64)
    returns (res: map<u64, Statistic>)
    requires Free(chain, COLON) && forall e :: e in log ==> ValidEvent(e)
    requires startEpoch <= endEpoch < ROW_BOUND
    ensures exists saved ::
              SavedAsTheyCan(log, applyFails, saved) && AllStatedTruly(res, LedgerOf(log, saved), startEpoch, endEpoch)
    ensures exists saved, ledger ::
              SavedAsTheyCan(log, applyFails, saved) && TellsLast(log, saved, ledger) &&
              AllStatedTruly(res, ledger, startEpoch, endEpoch)
  {
    var t := new Table<Key>();
    ghost var saved := RunLog(t, chain, log, applyFails);
    ghost var ledger := LedgerOf(log, saved);
    res := GetValidatorBalanceStatistics(t, chain, startEpoch, endEpoch, ledger);
    forall v: u64 ensures StatedTruly(res, ledger, startEpoch, endEpoch, v) {
      StatisticsMean(res, ledger, startEpoch, endEpoch, v);
    }
  }

  /** A validator has statistics when it has a balance in a readable span, and then true ones. */
  ghost predicate StatedTruly(res: map<u64, Statistic>, ledger: Ledger, startEpoch: u64, endEpoch: u64, v: u64) {
    (v in res <==> ReadableSpan(startEpoch, endEpoch) && exists e: u64 :: startEpoch <= e <= endEpoch && At(e, v) in ledger) &&
    (v in res ==> TrueBalances(res[v], ledger, v, startEpoch, endEpoch))
  }

  ghost predicate AllStatedTruly(res: map<u64, Statistic>, ledger: Ledger, startEpoch: u64, endEpoch: u64) {
    forall v: u64 :: StatedTruly(res, ledger, startEpoch, endEpoch, v)
  }
}
