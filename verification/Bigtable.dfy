/** One Bigtable table: a sorted map from row keys to versioned cells, changed one row
    mutation at a time, and the batched writer built on top of it. */
module Bigtable {
  import opened Bytes
  import opened KeyOrder

  datatype Column = Column(family: Key, qualifier: Key)
  type Row<V> = map<Column, map<nat, V>>
  type Rows<V> = map<Key, Row<V>>

  datatype Op<V> = SetCell(column: Column, ts: nat, value: V) | DeleteRow
  type Mutation<V> = seq<Op<V>>
  datatype Write<V> = Write(key: Key, mut: Mutation<V>)

  function ApplyOp<V>(row: Row<V>, op: Op<V>): Row<V> {
    match op
    case SetCell(c, ts, v) => row[c := (if c in row then row[c] else map[])[ts := v]]
    case DeleteRow => map[]
  }

  function ApplyOps<V>(row: Row<V>, ops: Mutation<V>): Row<V>
    decreases |ops|
  {
    if ops == [] then row else ApplyOps(ApplyOp(row, ops[0]), ops[1..])
  }

  function RowAt<V>(rows: Rows<V>, k: Key): Row<V> {
    if k in rows then rows[k] else map[]
  }

  /** A row without cells does not exist. */
  function ApplyWrite<V>(rows: Rows<V>, w: Write<V>): Rows<V> {
    var row := ApplyOps(RowAt(rows, w.key), w.mut);
    if row == map[] then rows - {w.key} else rows[w.key := row]
  }

  function ApplyAll<V>(rows: Rows<V>, ws: seq<Write<V>>): Rows<V>
    decreases |ws|
  {
    if ws == [] then rows else ApplyAll(ApplyWrite(rows, ws[0]), ws[1..])
  }

  ghost predicate NoEmptyRows<V>(rows: Rows<V>) {
    forall k :: k in rows ==> rows[k] != map[]
  }

  /** What the writes addressed to one key make of that key's row. */
  function RowFold<V>(row: Row<V>, ws: seq<Write<V>>, k: Key): Row<V>
    decreases |ws|
  {
    if ws == [] then row
    else RowFold(if ws[0].key == k then ApplyOps(row, ws[0].mut) else row, ws[1..], k)
  }

  lemma ApplyOne<V>(rows: Rows<V>, w: Write<V>)
    ensures ApplyAll(rows, [w]) == ApplyWrite(rows, w)
  {
    assert [w][1..] == [];
  }

  lemma ApplyOneOp<V>(row: Row<V>, op: Op<V>)
    ensures ApplyOps(row, [op]) == ApplyOp(row, op)
  {
    assert [op][1..] == [];
  }

  lemma {:induction false} ApplyAllConcat<V>(rows: Rows<V>, a: seq<Write<V>>, b: seq<Write<V>>)
    ensures ApplyAll(rows, a + b) == ApplyAll(ApplyAll(rows, a), b)
    decreases |a|
  {
    if a == [] {
      assert a + b == b;
    } else {
      assert (a + b)[1..] == a[1..] + b;
      ApplyAllConcat(ApplyWrite(rows, a[0]), a[1..], b);
    }
  }

  ghost function Extend<V>(rows: Rows<V>, a: seq<Write<V>>, b: seq<Write<V>>): (ab: seq<Write<V>>)
    ensures ab == a + b
    ensures ApplyAll(rows, ab) == ApplyAll(ApplyAll(rows, a), b)
  {
    ApplyAllConcat(rows, a, b);
    a + b
  }

  lemma {:induction false} RowFoldConcat<V>(row: Row<V>, a: seq<Write<V>>, b: seq<Write<V>>, k: Key)
    ensures RowFold(row, a + b, k) == RowFold(RowFold(row, a, k), b, k)
    decreases |a|
  {
    if a == [] {
      assert a + b == b;
    } else {
      assert (a + b)[1..] == a[1..] + b;
      RowFoldConcat(if a[0].key == k then ApplyOps(row, a[0].mut) else row, a[1..], b, k);
    }
  }

  /** Rows evolve independently of each other. */
  lemma {:induction false} ApplyAllRow<V>(rows: Rows<V>, ws: seq<Write<V>>, k: Key)
    requires NoEmptyRows(rows)
    ensures NoEmptyRows(ApplyAll(rows, ws))
    ensures RowAt(ApplyAll(rows, ws), k) == RowFold(RowAt(rows, k), ws, k)
    decreases |ws|
  {
    if ws != [] { ApplyAllRow(ApplyWrite(rows, ws[0]), ws[1..], k); }
  }

  lemma {:induction false} RowFoldUntouched<V>(row: Row<V>, ws: seq<Write<V>>, k: Key)
    requires forall i :: 0 <= i < |ws| ==> ws[i].key != k
    ensures RowFold(row, ws, k) == row
    decreases |ws|
  {
    if ws != [] {
      assert ws[0].key != k;
      RowFoldUntouched(row, ws[1..], k);
    }
  }

  /** If every write to a key sets the same single cell, the row holds that cell and
      nothing else, however often and in whatever company it was written. */
  lemma {:induction false} SingleCellRow<V>(row: Row<V>, ws: seq<Write<V>>, k: Key, c: Column, v: V)
    requires row == map[] || row == map[c := map[0 := v]]
    requires forall i :: 0 <= i < |ws| && ws[i].key == k ==> ws[i].mut == [SetCell(c, 0, v)]
    ensures RowFold(row, ws, k) ==
            if row == map[] && (forall i :: 0 <= i < |ws| ==> ws[i].key != k) then map[]
            else map[c := map[0 := v]]
    decreases |ws|
  {
    if ws != [] {
      var next := if ws[0].key == k then ApplyOps(row, ws[0].mut) else row;
      if ws[0].key == k {
        ApplyOneOp(row, SetCell(c, 0, v));
        assert map[0 := v][0 := v] == map[0 := v];
        assert next == map[c := map[0 := v]];
      }
      assert forall i :: 0 <= i < |ws[1..]| ==> ws[1..][i] == ws[i + 1];
      SingleCellRow(next, ws[1..], k, c, v);
      if row == map[] && ws[0].key != k {
        assert (forall i :: 0 <= i < |ws[1..]| ==> ws[1..][i].key != k) <==>
               (forall i :: 0 <= i < |ws| ==> ws[i].key != k) by {
          if forall i :: 0 <= i < |ws[1..]| ==> ws[1..][i].key != k {
            forall i | 0 <= i < |ws| ensures ws[i].key != k {
              if i > 0 { assert ws[1..][i - 1].key != k; }
            }
          }
        }
      }
    }
  }

  lemma RowsEqual<V>(a: Rows<V>, b: Rows<V>)
    requires NoEmptyRows(a) && NoEmptyRows(b)
    requires forall k :: RowAt(a, k) == RowAt(b, k)
    ensures a == b
  {
    forall k ensures k in a <==> k in b {
      assert RowAt(a, k) == RowAt(b, k);
    }
    forall k | k in a ensures a[k] == b[k] {
      assert RowAt(a, k) == RowAt(b, k);
    }
  }

  // ------------------------------------------------------------------ reading

  /** The keys a range scan meets, in table order. */
  function Scan<V>(rows: Rows<V>, lo: Key, hi: Key): seq<Key> {
    SortedKeys(set k | k in rows && InRange(k, lo, hi))
  }

  /** The row limit of a read; zero means none. */
  function Limited(all: seq<Key>, limit: nat): seq<Key> {
    if limit == 0 || |all| <= limit then all else all[..limit]
  }

  // ------------------------------------------------------------ batched writes

  /** What the service does with one bulk call: it may fail as a whole, and some entries
      (by position) may not be applied. */
  datatype BatchOutcome = BatchOutcome(callFailed: bool, lost: set<nat>)

  datatype BulkResult = AllApplied | CallFailed | SomeRowsFailed

  predicate Clean(o: BatchOutcome, n: nat) {
    !o.callFailed && forall i :: 0 <= i < n ==> i !in o.lost
  }

  /** The entries of a bulk call that reach the table. */
  function Survivors<V>(ws: seq<Write<V>>, lost: set<nat>): seq<Write<V>> {
    if ws == [] then []
    else
      var n := |ws| - 1;
      Survivors(ws[..n], lost) + (if n in lost then [] else [ws[n]])
  }

  lemma {:induction false} SurvivorsCount<V>(ws: seq<Write<V>>, lost: set<nat>)
    ensures |Survivors(ws, lost)| <= |ws|
    ensures (forall i :: 0 <= i < |ws| ==> i !in lost) ==> Survivors(ws, lost) == ws
    ensures (exists i :: 0 <= i < |ws| && i in lost) ==> |Survivors(ws, lost)| < |ws|
    decreases |ws|
  {
    if ws != [] {
      SurvivorsCount(ws[..|ws| - 1], lost);
      assert ws == ws[..|ws| - 1] + [ws[|ws| - 1]];
    }
  }

  lemma SurvivorsStep<V>(ws: seq<Write<V>>, i: nat, lost: set<nat>)
    requires i < |ws|
    ensures Survivors(ws[..i + 1], lost) == Survivors(ws[..i], lost) + (if i in lost then [] else [ws[i]])
  {
    assert ws[..i + 1][..i] == ws[..i];
  }

  function Zip<V>(keys: seq<Key>, muts: seq<Mutation<V>>): seq<Write<V>>
    requires |keys| == |muts|
  {
    seq(|keys|, i requires 0 <= i < |keys| => Write(keys[i], muts[i]))
  }

  function Batches(n: nat): nat {
    (n + 9_999) / 10_000
  }

  function BatchEnd(b: nat, n: nat): nat {
    if (b + 1) * 10_000 <= n then (b + 1) * 10_000 else n
  }

  function BatchSize(b: nat, n: nat): nat {
    if b * 10_000 <= BatchEnd(b, n) then BatchEnd(b, n) - b * 10_000 else 0
  }

  /** The first batch from b on that is not applied cleanly; Batches(n) when all are. */
  function FirstBad(outcome: nat -> BatchOutcome, b: nat, n: nat): nat
    decreases Batches(n) - b
  {
    if b >= Batches(n) then Batches(n)
    else if Clean(outcome(b), BatchSize(b, n)) then FirstBad(outcome, b + 1, n)
    else b
  }

  lemma {:induction false} FirstBadRange(outcome: nat -> BatchOutcome, b: nat, n: nat)
    requires b <= Batches(n)
    ensures b <= FirstBad(outcome, b, n) <= Batches(n)
    ensures FirstBad(outcome, b, n) < Batches(n) ==>
              !Clean(outcome(FirstBad(outcome, b, n)), BatchSize(FirstBad(outcome, b, n), n))
    decreases Batches(n) - b
  {
    if b < Batches(n) { FirstBadRange(outcome, b + 1, n); }
  }

  /** The writes that reach the table: all batches before the first bad one, and of that
      one the entries that were not lost. Later batches are never attempted. */
  function BulkWrites<V>(ws: seq<Write<V>>, outcome: nat -> BatchOutcome): seq<Write<V>> {
    var n := |ws|;
    var f := FirstBad(outcome, 0, n);
    if f * 10_000 >= n then ws
    else ws[..f * 10_000] + Survivors(ws[f * 10_000..BatchEnd(f, n)], outcome(f).lost)
  }

  /** The error the caller sees: a failed call always, lost rows only in the last,
      incomplete batch. */
  predicate BulkReportsError(n: nat, outcome: nat -> BatchOutcome) {
    var f := FirstBad(outcome, 0, n);
    f < Batches(n) && (outcome(f).callFailed || f == n / 10_000)
  }

  lemma BatchArithmetic(f: nat, n: nat)
    ensures f < Batches(n) <==> f * 10_000 < n
    ensures f < n / 10_000 <==> (f + 1) * 10_000 <= n
    ensures f < Batches(n) ==> f <= n / 10_000
  {}

  /** WriteBulk can claim success although rows are missing, and does so exactly when the
      first batch that is not clean is a full one whose call went through. */
  lemma SilentLossExact<V>(ws: seq<Write<V>>, outcome: nat -> BatchOutcome)
    ensures var f := FirstBad(outcome, 0, |ws|);
            (!BulkReportsError(|ws|, outcome) && |BulkWrites(ws, outcome)| < |ws|) <==>
            (f < |ws| / 10_000 && !outcome(f).callFailed)
    ensures FirstBad(outcome, 0, |ws|) == Batches(|ws|) ==> BulkWrites(ws, outcome) == ws
  {
    var n := |ws|;
    var f := FirstBad(outcome, 0, n);
    FirstBadRange(outcome, 0, n);
    BatchArithmetic(f, n);
    if f < Batches(n) {
      var part := ws[f * 10_000..BatchEnd(f, n)];
      SurvivorsCount(part, outcome(f).lost);
      if !outcome(f).callFailed {
        var i :| 0 <= i < BatchSize(f, n) && i in outcome(f).lost;
        assert |part| == BatchSize(f, n);
        assert |BulkWrites(ws, outcome)| < n;
      }
    }
  }

  /** 10001 writes whose first batch loses one row: success is reported, and neither the
      lost row nor the second batch was written. */
  lemma SilentLossExample<V>(ws: seq<Write<V>>)
    requires |ws| == 10_001
    ensures var outcome := (b: nat) => BatchOutcome(false, if b == 0 then {0} else {});
            !BulkReportsError(|ws|, outcome) && |BulkWrites(ws, outcome)| == 9_999
  {
    var outcome := (b: nat) => BatchOutcome(false, if b == 0 then {0} else {});
    assert BatchSize(0, 10_001) == 10_000;
    assert !Clean(outcome(0), 10_000) by { assert 0 in outcome(0).lost; }
    assert FirstBad(outcome, 0, 10_001) == 0;
    OneLost(ws[0..10_000]);
    assert ws[..0] == [];
  }

  lemma {:induction false} OneLost<V>(ws: seq<Write<V>>)
    requires |ws| >= 1
    ensures |Survivors(ws, {0})| == |ws| - 1
    decreases |ws|
  {
    if |ws| > 1 { OneLost(ws[..|ws| - 1]); }
    else { assert Survivors(ws[..0], {0}) == []; }
  }

  lemma ZipSlice<V>(keys: seq<Key>, muts: seq<Mutation<V>>, start: nat, end: nat)
    requires |keys| == |muts| && start <= end <= |keys|
    ensures Zip(keys[start..end], muts[start..end]) == Zip(keys, muts)[start..end]
    ensures end == |keys| ==> keys[start..end] == keys[start..] && muts[start..end] == muts[start..]
  {}

  /** Which writes reached the table when WriteBulk returns, and what it then reports. */
  ghost predicate BulkDone<V>(ws: seq<Write<V>>, outcome: nat -> BatchOutcome, written: seq<Write<V>>, ok: bool) {
    ok == !BulkReportsError(|ws|, outcome) && written == BulkWrites(ws, outcome)
  }

  /** Which writes have reached the table after b batches, all of them clean. */
  ghost predicate BulkSoFar<V>(ws: seq<Write<V>>, outcome: nat -> BatchOutcome, b: nat, written: seq<Write<V>>) {
    FirstBad(outcome, 0, |ws|) == FirstBad(outcome, b, |ws|) &&
    written == ws[..if b * 10_000 <= |ws| then b * 10_000 else |ws|]
  }

  /** One more batch, in the terms of the bulk call that wrote it. */
  lemma BatchRan<V>(keys: seq<Key>, muts: seq<Mutation<V>>, outcome: nat -> BatchOutcome,
                    b: nat, end: nat, written: seq<Write<V>>)
    requires |keys| == |muts| && b * 10_000 < |keys| && end == BatchEnd(b, |keys|)
    requires BulkSoFar(Zip(keys, muts), outcome, b, written)
    ensures var ws := Zip(keys, muts);
            var written' := written + Survivors(Zip(keys[b * 10_000..end], muts[b * 10_000..end]), outcome(b).lost);
            if Clean(outcome(b), end - b * 10_000) then BulkSoFar(ws, outcome, b + 1, written')
            else BulkDone(ws, outcome, written', !outcome(b).callFailed && b != |ws| / 10_000)
  {
    var ws := Zip(keys, muts);
    var start := b * 10_000;
    ZipSlice(keys, muts, start, end);
    BatchArithmetic(b, |ws|);
    if Clean(outcome(b), end - start) {
      SurvivorsCount(ws[start..end], outcome(b).lost);
      assert ws[..start] + ws[start..end] == ws[..end];
    } else {
      assert FirstBad(outcome, 0, |ws|) == b;
    }
  }

  lemma AllClean<V>(ws: seq<Write<V>>, outcome: nat -> BatchOutcome, b: nat, written: seq<Write<V>>)
    requires b * 10_000 >= |ws| && BulkSoFar(ws, outcome, b, written)
    ensures BulkDone(ws, outcome, written, true)
  {
    BatchArithmetic(b, |ws|);
    assert ws[..|ws|] == ws;
  }

  // ------------------------------------------------- said entry by entry, for any batches

  /** Entries of batch b lie at 10000*b and the 9999 places behind it. */
  ghost predicate BatchClean(n: nat, outcome: nat -> BatchOutcome, b: nat) {
    !outcome(b).callFailed && forall p: nat :: p < 10_000 && b * 10_000 + p < n ==> p !in outcome(b).lost
  }

  ghost predicate AllCleanBefore(n: nat, outcome: nat -> BatchOutcome, b: nat) {
    forall a: nat :: a < b ==> BatchClean(n, outcome, a)
  }

  /** An entry reaches the table when it is not lost and all batches before its own are clean. */
  ghost predicate Reaches(n: nat, outcome: nat -> BatchOutcome, i: nat) {
    i < n && i % 10_000 !in outcome(i / 10_000).lost && AllCleanBefore(n, outcome, i / 10_000)
  }

  /** The caller gets an error for a batch whose call failed, and for lost rows of the last,
      incomplete one. */
  ghost predicate Reports(n: nat, outcome: nat -> BatchOutcome, b: nat) {
    b * 10_000 < n && AllCleanBefore(n, outcome, b) &&
    (outcome(b).callFailed || (n < (b + 1) * 10_000 && !BatchClean(n, outcome, b)))
  }

  ghost predicate Increasing(q: seq<nat>) {
    forall j, k :: 0 <= j < k < |q| ==> q[j] < q[k]
  }

  ghost predicate Picks<V>(ws: seq<Write<V>>, q: seq<nat>, written: seq<Write<V>>) {
    |q| == |written| && forall k :: 0 <= k < |q| ==> q[k] < |ws| && written[k] == ws[q[k]]
  }

  /** These entries and no others, in their order. */
  ghost predicate WritesReaching<V>(ws: seq<Write<V>>, outcome: nat -> BatchOutcome, written: seq<Write<V>>, q: seq<nat>) {
    Picks(ws, q, written) && Increasing(q) && forall i: nat :: i in q <==> Reaches(|ws|, outcome, i)
  }

  function EntriesAt<V>(ws: seq<Write<V>>, q: seq<nat>): seq<Write<V>>
    requires forall k :: 0 <= k < |q| ==> q[k] < |ws|
  {
    seq(|q|, k requires 0 <= k < |q| => ws[q[k]])
  }

  /** The table after the entries at these places, which are those that reach it. */
  ghost predicate LeavesAt<V>(before: Rows<V>, after: Rows<V>, ws: seq<Write<V>>, outcome: nat -> BatchOutcome, q: seq<nat>) {
    Increasing(q) && (forall k :: 0 <= k < |q| ==> q[k] < |ws|) &&
    (forall i: nat :: i in q <==> Reaches(|ws|, outcome, i)) && after == ApplyAll(before, EntriesAt(ws, q))
  }

  ghost predicate BulkLeaves<V>(before: Rows<V>, after: Rows<V>, ws: seq<Write<V>>, outcome: nat -> BatchOutcome, ok: bool) {
    (exists q: seq<nat> :: LeavesAt(before, after, ws, outcome, q)) && (ok <==> forall b: nat :: !Reports(|ws|, outcome, b))
  }

  /** The places from start on that are not lost, of m in all. */
  ghost function Kept(start: nat, m: nat, lost: set<nat>): seq<nat> {
    if m == 0 then [] else Kept(start, m - 1, lost) + (if m - 1 in lost then [] else [start + m - 1])
  }

  lemma {:induction false} KeptMembers(start: nat, m: nat, lost: set<nat>)
    ensures Increasing(Kept(start, m, lost))
    ensures forall i: nat :: i in Kept(start, m, lost) <==> start <= i < start + m && i - start !in lost
  {
    if m > 0 {
      KeptMembers(start, m - 1, lost);
      var front := Kept(start, m - 1, lost);
      assert forall k :: 0 <= k < |front| ==> front[k] in front;
    }
  }

  lemma {:induction false} KeptPicks<V>(ws: seq<Write<V>>, start: nat, m: nat, lost: set<nat>)
    requires start + m <= |ws|
    ensures Picks(ws, Kept(start, m, lost), Survivors(ws[start..start + m], lost))
  {
    if m > 0 {
      KeptPicks(ws, start, m - 1, lost);
      assert ws[start..start + m][..m - 1] == ws[start..start + m - 1];
    } else {
      assert ws[start..start + 0] == [];
    }
  }

  lemma CleanIsBatchClean(n: nat, outcome: nat -> BatchOutcome, b: nat)
    requires b * 10_000 < n
    ensures Clean(outcome(b), BatchSize(b, n)) <==> BatchClean(n, outcome, b)
  {}

  lemma {:induction false} BatchesBeforeBad(outcome: nat -> BatchOutcome, b: nat, n: nat)
    requires AllCleanBefore(n, outcome, b)
    ensures AllCleanBefore(n, outcome, FirstBad(outcome, b, n)) || b >= Batches(n)
    decreases Batches(n) - b
  {
    if b < Batches(n) {
      BatchArithmetic(b, n);
      CleanIsBatchClean(n, outcome, b);
      if Clean(outcome(b), BatchSize(b, n)) { BatchesBeforeBad(outcome, b + 1, n); }
    }
  }

  lemma PicksAppend<V>(ws: seq<Write<V>>, p: seq<nat>, a: seq<Write<V>>, q: seq<nat>, b: seq<Write<V>>)
    requires Picks(ws, p, a) && Picks(ws, q, b)
    requires Increasing(p) && Increasing(q) && forall i, j :: i in p && j in q ==> i < j
    ensures Picks(ws, p + q, a + b) && Increasing(p + q)
  {
    assert forall k :: 0 <= k < |p| ==> p[k] in p;
    assert forall k :: 0 <= k < |q| ==> q[k] in q;
  }

  /** What the places of the first bad batch and those before it come to. */
  lemma ReachingPlaces(outcome: nat -> BatchOutcome, n: nat, i: nat)
    requires var f := FirstBad(outcome, 0, n); f * 10_000 < n
    ensures var f := FirstBad(outcome, 0, n);
            Reaches(n, outcome, i) <==>
            i < f * 10_000 || (f * 10_000 <= i < BatchEnd(f, n) && i - f * 10_000 !in outcome(f).lost)
  {
    var f := FirstBad(outcome, 0, n);
    FirstBadRange(outcome, 0, n);
    BatchesBeforeBad(outcome, 0, n);
    BatchArithmetic(f, n);
    CleanIsBatchClean(n, outcome, f);
    var b := i / 10_000;
    if b < f {
      assert BatchClean(n, outcome, b);
    } else if b > f {
      assert AllCleanBefore(n, outcome, b) ==> BatchClean(n, outcome, f);
    }
  }

  /** What a bulk write leaves and reports, in terms of its entries. */
  lemma BulkMeans<V>(before: Rows<V>, ws: seq<Write<V>>, outcome: nat -> BatchOutcome)
    ensures BulkLeaves(before, ApplyAll(before, BulkWrites(ws, outcome)), ws, outcome, !BulkReportsError(|ws|, outcome))
  {
    ReportMeans(outcome, |ws|);
    var q := BulkPlaces(ws, outcome);
    assert EntriesAt(ws, q) == BulkWrites(ws, outcome);
    assert LeavesAt(before, ApplyAll(before, BulkWrites(ws, outcome)), ws, outcome, q);
  }

  lemma BulkPlaces<V>(ws: seq<Write<V>>, outcome: nat -> BatchOutcome) returns (q: seq<nat>)
    ensures WritesReaching(ws, outcome, BulkWrites(ws, outcome), q)
  {
    if FirstBad(outcome, 0, |ws|) * 10_000 >= |ws| {
      q := AllPlaces(ws, outcome);
    } else {
      q := PlacesUpToBad(ws, outcome);
    }
  }

  lemma FirstPlaces<V>(ws: seq<Write<V>>, n: nat)
    requires n <= |ws|
    ensures Picks(ws, Kept(0, n, {}), ws[..n]) && Increasing(Kept(0, n, {}))
    ensures forall i: nat :: i in Kept(0, n, {}) <==> i < n
  {
    KeptPicks(ws, 0, n, {});
    KeptMembers(0, n, {});
    SurvivorsCount(ws[..n], {});
    assert ws[0..0 + n] == ws[..n];
  }

  lemma AllPlaces<V>(ws: seq<Write<V>>, outcome: nat -> BatchOutcome) returns (q: seq<nat>)
    requires FirstBad(outcome, 0, |ws|) * 10_000 >= |ws|
    ensures WritesReaching(ws, outcome, BulkWrites(ws, outcome), q)
  {
    var n := |ws|;
    q := Kept(0, n, {});
    FirstPlaces(ws, n);
    assert ws[..n] == ws;
    BatchesBeforeBad(outcome, 0, n);
    forall i: nat ensures i < n <==> Reaches(n, outcome, i) { EntryOfCleanBatch(outcome, n, i); }
  }

  lemma EntryOfCleanBatch(outcome: nat -> BatchOutcome, n: nat, i: nat)
    requires FirstBad(outcome, 0, n) * 10_000 >= n
    ensures i < n <==> Reaches(n, outcome, i)
  {
    var b := i / 10_000;
    BatchesBeforeBad(outcome, 0, n);
    FirstBadRange(outcome, 0, n);
    if i < n {
      assert b < FirstBad(outcome, 0, n) && BatchClean(n, outcome, b);
      assert b * 10_000 + i % 10_000 == i;
    }
  }

  lemma PlacesUpToBad<V>(ws: seq<Write<V>>, outcome: nat -> BatchOutcome) returns (q: seq<nat>)
    requires FirstBad(outcome, 0, |ws|) * 10_000 < |ws|
    ensures WritesReaching(ws, outcome, BulkWrites(ws, outcome), q)
  {
    var start, m, lost := BadBatch(outcome, |ws|);
    BulkToBad(ws, outcome, start, m, lost);
    q := PlacesFit(ws, outcome, start, m, lost);
  }

  /** Where the first bad batch lies, and what that means for every entry. */
  lemma BadBatch(outcome: nat -> BatchOutcome, n: nat) returns (start: nat, m: nat, lost: set<nat>)
    requires FirstBad(outcome, 0, n) * 10_000 < n
    ensures var f := FirstBad(outcome, 0, n);
            start == f * 10_000 && start + m == BatchEnd(f, n) && lost == outcome(f).lost && start + m <= n
    ensures forall i: nat :: Reaches(n, outcome, i) <==> i < start || (start <= i < start + m && i - start !in lost)
  {
    var f := FirstBad(outcome, 0, n);
    start, m, lost := f * 10_000, BatchEnd(f, n) - f * 10_000, outcome(f).lost;
    forall i: nat ensures Reaches(n, outcome, i) <==> i < start || (start <= i < start + m && i - start !in lost) {
      ReachingPlaces(outcome, n, i);
    }
  }

  lemma PlacesFit<V>(ws: seq<Write<V>>, outcome: nat -> BatchOutcome, start: nat, m: nat, lost: set<nat>) returns (q: seq<nat>)
    requires start + m <= |ws|
    requires BulkWrites(ws, outcome) == ws[..start] + Survivors(ws[start..start + m], lost)
    requires forall i: nat :: Reaches(|ws|, outcome, i) <==> i < start || (start <= i < start + m && i - start !in lost)
    ensures WritesReaching(ws, outcome, BulkWrites(ws, outcome), q)
  {
    var head, tail := Kept(0, start, {}), Kept(start, m, lost);
    q := head + tail;
    FirstPlaces(ws, start);
    KeptPicks(ws, start, m, lost);
    KeptMembers(start, m, lost);
    forall i: nat ensures Reaches(|ws|, outcome, i) <==> i in head || i in tail { KeptTogether(start, m, lost, i); }
    JoinPlaces(ws, outcome, head, ws[..start], tail, Survivors(ws[start..start + m], lost));
  }

  lemma KeptTogether(start: nat, m: nat, lost: set<nat>, i: nat)
    ensures i in Kept(0, start, {}) || i in Kept(start, m, lost) <==>
            i < start || (start <= i < start + m && i - start !in lost)
  {
    KeptMembers(0, start, {});
    KeptMembers(start, m, lost);
  }

  lemma JoinPlaces<V>(ws: seq<Write<V>>, outcome: nat -> BatchOutcome, p: seq<nat>, a: seq<Write<V>>, q: seq<nat>, b: seq<Write<V>>)
    requires Picks(ws, p, a) && Picks(ws, q, b)
    requires Increasing(p) && Increasing(q) && forall i, j :: i in p && j in q ==> i < j
    requires forall i: nat :: Reaches(|ws|, outcome, i) <==> i in p || i in q
    ensures WritesReaching(ws, outcome, a + b, p + q)
  {
    PicksAppend(ws, p, a, q, b);
    assert forall i: nat :: i in p + q <==> i in p || i in q;
  }

  lemma BulkToBad<V>(ws: seq<Write<V>>, outcome: nat -> BatchOutcome, start: nat, m: nat, lost: set<nat>)
    requires start + m <= |ws| && start < |ws|
    requires var f := FirstBad(outcome, 0, |ws|);
             start == f * 10_000 && start + m == BatchEnd(f, |ws|) && lost == outcome(f).lost
    ensures BulkWrites(ws, outcome) == ws[..start] + Survivors(ws[start..start + m], lost)
  {}

  lemma ReportMeans(outcome: nat -> BatchOutcome, n: nat)
    ensures BulkReportsError(n, outcome) <==> exists b: nat :: Reports(n, outcome, b)
  {
    var f := FirstBad(outcome, 0, n);
    FirstBadRange(outcome, 0, n);
    BatchesBeforeBad(outcome, 0, n);
    BatchArithmetic(f, n);
    if f < Batches(n) {
      CleanIsBatchClean(n, outcome, f);
      assert BulkReportsError(n, outcome) <==> Reports(n, outcome, f);
    }
    forall b: nat | Reports(n, outcome, b) ensures b == f { ReportedFirst(outcome, n, b); }
  }

  lemma ReportedFirst(outcome: nat -> BatchOutcome, n: nat, b: nat)
    requires Reports(n, outcome, b)
    ensures b == FirstBad(outcome, 0, n)
  {
    var f := FirstBad(outcome, 0, n);
    FirstBadRange(outcome, 0, n);
    BatchesBeforeBad(outcome, 0, n);
    BatchArithmetic(b, n);
    BatchArithmetic(f, n);
    CleanIsBatchClean(n, outcome, b);
    if f < Batches(n) { CleanIsBatchClean(n, outcome, f); }
    assert forall a: nat :: a < b ==> BatchClean(n, outcome, a);
    assert forall a: nat :: a < f ==> BatchClean(n, outcome, a);
  }

  class Table<V(==)> {
    var rows: Rows<V>

    ghost predicate Valid()
      reads this
    {
      NoEmptyRows(rows)
    }

    constructor ()
      ensures Valid() && rows == map[]
    {
      rows := map[];
    }

    method Apply(key: Key, mut: Mutation<V>)
      requires Valid()
      modifies this
      ensures Valid()
      ensures rows == ApplyWrite(old(rows), Write(key, mut))
    {
      var row := ApplyOps(RowAt(rows, key), mut);
      rows := if row == map[] then rows - {key} else rows[key := row];
    }

    method ApplyBulk(keys: seq<Key>, muts: seq<Mutation<V>>, o: BatchOutcome) returns (result: BulkResult)
      requires Valid() && |keys| == |muts|
      modifies this
      ensures Valid()
      ensures rows == ApplyAll(old(rows), Survivors(Zip(keys, muts), o.lost))
      ensures result == if o.callFailed then CallFailed
                        else if Clean(o, |keys|) then AllApplied else SomeRowsFailed
    {
      var anyLost := false;
      ghost var ws := Zip(keys, muts);
      ghost var applied: seq<Write<V>> := [];
      for i := 0 to |keys|
        invariant Valid()
        invariant applied == Survivors(ws[..i], o.lost)
        invariant rows == ApplyAll(old(rows), applied)
        invariant anyLost <==> exists j :: 0 <= j < i && j in o.lost
      {
        SurvivorsStep(ws, i, o.lost);
        if i in o.lost {
          anyLost := true;
        } else {
          applied := Extend(old(rows), applied, [ws[i]]);
          ApplyOne(rows, ws[i]);
          Apply(keys[i], muts[i]);
        }
      }
      assert ws[..|keys|] == ws;
      result := if o.callFailed then CallFailed else if anyLost then SomeRowsFailed else AllApplied;
    }

    /** One batch of a bulk write, after b clean ones. */
    method WriteBatch(keys: seq<Key>, muts: seq<Mutation<V>>, outcome: nat -> BatchOutcome, b: nat, end: nat,
                      ghost before: Rows<V>, ghost written: seq<Write<V>>)
      returns (r: BulkResult, ghost written': seq<Write<V>>)
      requires Valid() && |keys| == |muts| && b * 10_000 < |keys| && end == BatchEnd(b, |keys|)
      requires rows == ApplyAll(before, written) && BulkSoFar(Zip(keys, muts), outcome, b, written)
      modifies this
      ensures Valid() && rows == ApplyAll(before, written')
      ensures r == AllApplied ==> BulkSoFar(Zip(keys, muts), outcome, b + 1, written')
      ensures r != AllApplied ==>
                BulkDone(Zip(keys, muts), outcome, written', r == SomeRowsFailed && b != |keys| / 10_000)
    {
      var start := b * 10_000;
      BatchRan(keys, muts, outcome, b, end, written);
      written' := Extend(before, written, Survivors(Zip(keys[start..end], muts[start..end]), outcome(b).lost));
      r := ApplyBulk(keys[start..end], muts[start..end], outcome(b));
    }

    /** WriteBulk: full batches of 10000 first, then the remainder. A lost row inside a full
        batch makes it stop and return the call's nil error. */
    method WriteBulk(keys: seq<Key>, muts: seq<Mutation<V>>, outcome: nat -> BatchOutcome) returns (ok: bool)
      requires Valid()
      modifies this
      ensures Valid()
      ensures |keys| != |muts| ==> !ok && rows == old(rows)
      ensures |keys| == |muts| ==>
                ok == !BulkReportsError(|keys|, outcome) &&
                rows == ApplyAll(old(rows), BulkWrites(Zip(keys, muts), outcome))
    {
      var numKeys := |keys|;
      var iterations := numKeys / 10_000;
      if numKeys != |muts| {
        return false;
      }
      ghost var before, written := rows, [];
      var offset := 0;
      var r;
      while offset < iterations
        invariant 0 <= offset <= iterations && Valid()
        invariant rows == ApplyAll(before, written) && BulkSoFar(Zip(keys, muts), outcome, offset, written)
      {
        r, written := WriteBatch(keys, muts, outcome, offset, offset * 10_000 + 10_000, before, written);
        if r != AllApplied {
          return r == SomeRowsFailed;
        }
        offset := offset + 1;
      }
      if iterations * 10_000 < numKeys {
        r, written := WriteBatch(keys, muts, outcome, iterations, numKeys, before, written);
        if r != AllApplied {
          return false;
        }
        offset := offset + 1;
      }
      AllClean(Zip(keys, muts), outcome, offset, written);
      return true;
    }

    /** ReadRows with a row limit; a limit of zero means none. */
    method ReadRows(lo: Key, hi: Key, limit: nat) returns (keys: seq<Key>)
      ensures keys == Limited(Scan(rows, lo, hi), limit)
      ensures forall i :: 0 <= i < |keys| ==> keys[i] in rows
    {
      var all := Scan(rows, lo, hi);
      SortedKeysSpec(set k | k in rows && InRange(k, lo, hi));
      assert forall i :: 0 <= i < |all| ==> all[i] in all;
      keys := Limited(all, limit);
    }
  }
}
