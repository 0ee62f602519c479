/** The duty list of a validator, defined on the log alone, and the proof that the reader
    returns it from any table the log can leave behind. */
module DutyHistory {
  import opened Bytes
  import opened Words
  import opened Decimal
  import opened KeyOrder
  import opened KeyCodec
  import opened Bigtable
  import opened ColumnScan
  import opened Extremes
  import opened AttestationCells
  import opened DutyWindow
  import opened DutyLog
  import opened AttestationHistory

  // -------------------------------------------------------------- the list to be returned

  /** Missed unless some batch included the vote; then the earliest slot that did. */
  ghost function DutyEntry(log: seq<Event>, v: u64, slot: u64, slotsPerEpoch: u64): Entry
    requires slotsPerEpoch >= 1
  {
    var seen := Inclusions(log, slot, v);
    if seen == {} then Entry(v, slot / slotsPerEpoch, slot, 0, 0, -1 - slot)
    else Entry(v, slot / slotsPerEpoch, slot, 1, MinOf(seen), MinOf(seen) - slot - 1)
  }

  /** A slot with a duty in a covered epoch. */
  ghost predicate Due(log: seq<Event>, v: u64, start: u64, limit: u64, slotsPerEpoch: u64, s: u64)
    requires slotsPerEpoch >= 1
  {
    HasDuty(log, s, v) && Covered(EpochOf(slotsPerEpoch, s), start, limit)
  }

  /** The due ones among the slots top-1, top-2, ..., top-n. */
  ghost function DueSlots(log: seq<Event>, v: u64, start: u64, limit: u64, slotsPerEpoch: u64, top: nat, n: nat): seq<u64>
    requires slotsPerEpoch >= 1 && n <= top <= MAX_NUMBER
  {
    if n == 0 then []
    else
      DueSlots(log, v, start, limit, slotsPerEpoch, top, n - 1) +
      (if Due(log, v, start, limit, slotsPerEpoch, top - n) then [top - n] else [])
  }

  /** The due slots of a window: those of epoch 0, slot 0 ahead, and then all others, newest
      first. When a window covers what is meant (and does not consist of epoch 0), these are
      the due slots from the last one of epoch start down to the first of epoch
      start-limit+1. */
  ghost function WindowSlots(log: seq<Event>, v: u64, start: u64, limit: u64, slotsPerEpoch: u64): seq<u64>
    requires 1 <= slotsPerEpoch <= MAX_NUMBER
  {
    DueSlots(log, v, start, limit, slotsPerEpoch, 1, 1) +
    DueSlots(log, v, start, limit, slotsPerEpoch, slotsPerEpoch, slotsPerEpoch - 1) +
    DueSlots(log, v, start, limit, slotsPerEpoch, MAX_NUMBER, MAX_NUMBER - slotsPerEpoch)
  }

  ghost predicate Falling(q: seq<u64>) {
    forall i, j :: 0 <= i < j < |q| ==> q[i] > q[j]
  }

  lemma FallingAppend(q: seq<u64>, s: u64)
    requires Falling(q) && forall e: u64 :: e in q ==> e > s
    ensures Falling(q + [s])
  {
    assert forall i :: 0 <= i < |q| ==> q[i] in q;
  }

  lemma {:induction false} DueSlotsMembers(log: seq<Event>, v: u64, start: u64, limit: u64, d: u64, top: nat, n: nat, s: u64)
    requires d >= 1 && n <= top <= MAX_NUMBER
    ensures s in DueSlots(log, v, start, limit, d, top, n) <==> top - n <= s < top && Due(log, v, start, limit, d, s)
    decreases n
  {
    if n > 0 { DueSlotsMembers(log, v, start, limit, d, top, n - 1, s); }
  }

  lemma {:induction false} DueSlotsFall(log: seq<Event>, v: u64, start: u64, limit: u64, d: u64, top: nat, n: nat)
    requires d >= 1 && n <= top <= MAX_NUMBER
    ensures Falling(DueSlots(log, v, start, limit, d, top, n))
    decreases n
  {
    if n > 0 {
      var front := DueSlots(log, v, start, limit, d, top, n - 1);
      DueSlotsFall(log, v, start, limit, d, top, n - 1);
      forall e: u64 | e in front ensures e > top - n { DueSlotsMembers(log, v, start, limit, d, top, n - 1, e); }
      FallingAppend(front, top - n);
    }
  }

  // ----------------------------------------------------------------- members of the window

  ghost predicate InScanOrder(slotsPerEpoch: u64, q: seq<u64>) {
    forall i, j :: 0 <= i < j < |q| ==> MetFirst(slotsPerEpoch, q[i], q[j])
  }

  lemma ThreeParts(d: u64, a: seq<u64>, b: seq<u64>, c: seq<u64>)
    requires d >= 1 && Falling(a) && Falling(b) && Falling(c)
    requires forall s :: s in a ==> s == 0
    requires forall s :: s in b ==> 0 < s < d
    requires forall s :: s in c ==> s >= d
    ensures InScanOrder(d, a + b + c)
  {
    assert forall i :: 0 <= i < |a| ==> a[i] in a;
    assert forall i :: 0 <= i < |b| ==> b[i] in b;
    assert forall i :: 0 <= i < |c| ==> c[i] in c;
  }

  ghost predicate DueBetween(log: seq<Event>, v: u64, start: u64, limit: u64, d: u64, low: nat, top: nat, q: seq<u64>)
    requires d >= 1
  {
    Falling(q) && forall s: u64 :: s in q <==> low <= s < top && Due(log, v, start, limit, d, s)
  }

  lemma DueSlotsBetween(log: seq<Event>, v: u64, start: u64, limit: u64, d: u64, low: nat, top: nat)
    requires d >= 1 && low <= top <= MAX_NUMBER
    ensures DueBetween(log, v, start, limit, d, low, top, DueSlots(log, v, start, limit, d, top, top - low))
  {
    var q := DueSlots(log, v, start, limit, d, top, top - low);
    forall s: u64 ensures s in q <==> low <= s < top && Due(log, v, start, limit, d, s) {
      DueSlotsMembers(log, v, start, limit, d, top, top - low, s);
    }
    DueSlotsFall(log, v, start, limit, d, top, top - low);
  }

  lemma DueInThree(log: seq<Event>, v: u64, start: u64, limit: u64, d: u64, a: seq<u64>, b: seq<u64>, c: seq<u64>)
    requires 1 <= d <= MAX_NUMBER
    requires DueBetween(log, v, start, limit, d, 0, 1, a)
    requires DueBetween(log, v, start, limit, d, 1, d, b)
    requires DueBetween(log, v, start, limit, d, d, MAX_NUMBER, c)
    ensures InScanOrder(d, a + b + c)
    ensures forall s: u64 :: s in a + b + c <==> s < MAX_NUMBER && Due(log, v, start, limit, d, s)
  {
    ThreeParts(d, a, b, c);
  }

  lemma WindowSpec(log: seq<Event>, v: u64, start: u64, limit: u64, d: u64)
    requires 1 <= d <= MAX_NUMBER
    ensures InScanOrder(d, WindowSlots(log, v, start, limit, d))
    ensures forall s: u64 :: s in WindowSlots(log, v, start, limit, d) <==>
                             s < MAX_NUMBER && Due(log, v, start, limit, d, s)
  {
    DueSlotsBetween(log, v, start, limit, d, 0, 1);
    DueSlotsBetween(log, v, start, limit, d, 1, d);
    DueSlotsBetween(log, v, start, limit, d, d, MAX_NUMBER);
    DueInThree(log, v, start, limit, d, DueSlots(log, v, start, limit, d, 1, 1),
               DueSlots(log, v, start, limit, d, d, d - 1), DueSlots(log, v, start, limit, d, MAX_NUMBER, MAX_NUMBER - d));
  }

  // ------------------------------------------------------------------- the table of a log

  /** A table holding exactly the cells of a valid log. */
  ghost predicate TableOf(rows: Rows<Key>, chain: Key, slotsPerEpoch: u64, log: seq<Event>) {
    2 <= slotsPerEpoch < 900_000_000 && Free(chain, COLON) && ValidLog(slotsPerEpoch, log) &&
    NoEmptyColumns(rows) && Marks(rows) == Marked(chain, slotsPerEpoch, log)
  }

  /** Every attestation column belongs to a validator and stands in the row of its slot. */
  lemma CellOrigin(rows: Rows<Key>, chain: Key, slotsPerEpoch: u64, log: seq<Event>, k: Key, c: Column)
    returns (slot: u64, v: u64)
    requires TableOf(rows, chain, slotsPerEpoch, log)
    requires k in rows && c in rows[k] && c.family == ATTESTATIONS
    ensures slot < MAX_NUMBER && k == RowOfSlot(chain, slotsPerEpoch)(slot) && c == ValidatorColumn(v)
    ensures SlotOfKey(k) == Some(slot)
  {
    NonEmptyKeys(rows[k][c]);
    var ts :| ts in rows[k][c];
    var m := Mark(k, c, ts);
    assert m in Marks(rows);
    slot, v := MarkOrigin(chain, slotsPerEpoch, log, m);
    SlotReadBack(chain, EpochOf(slotsPerEpoch, slot), slot);
  }

  lemma TableReadable(rows: Rows<Key>, chain: Key, slotsPerEpoch: u64, log: seq<Event>)
    requires TableOf(rows, chain, slotsPerEpoch, log)
    ensures Readable(rows)
  {
    forall k | k in rows && HasDutyCells(rows[k])
      ensures ReadableRow(k, rows[k])
      ensures exists s: u64 :: k == RowOfSlot(chain, slotsPerEpoch)(s) && SlotOfKey(k) == Some(s)
    {
      var c0 :| c0 in rows[k] && c0.family == ATTESTATIONS;
      var s0, v0 := CellOrigin(rows, chain, slotsPerEpoch, log, k, c0);
      forall c | c in rows[k] && c.family == ATTESTATIONS ensures exists v: u64 :: c == ValidatorColumn(v) {
        var s, v := CellOrigin(rows, chain, slotsPerEpoch, log, k, c);
      }
    }
  }

  /** A cell is there exactly when there is a duty, and its newest version is the duty's. */
  lemma DutyCell(rows: Rows<Key>, chain: Key, slotsPerEpoch: u64, log: seq<Event>, slot: u64, v: u64)
    requires TableOf(rows, chain, slotsPerEpoch, log)
    ensures var k := RowOfSlot(chain, slotsPerEpoch)(slot);
            (HasCell(rows, k, ValidatorColumn(v)) <==> HasDuty(log, slot, v)) &&
            (HasCell(rows, k, ValidatorColumn(v)) ==> Latest(rows[k], Dec(v)) == DutyTs(log, slot, v))
  {
    var k := RowOfSlot(chain, slotsPerEpoch)(slot);
    var c := ValidatorColumn(v);
    if HasDuty(log, slot, v) {
      EarliestCell(chain, slotsPerEpoch, log, slot, v);
      assert Mark(k, c, DutyTs(log, slot, v)) in Marks(rows);
    }
    if HasCell(rows, k, ValidatorColumn(v)) {
      var latest := Latest(rows[k], Dec(v));
      assert Mark(k, c, latest) in Marks(rows);
      NoNewerCell(chain, slotsPerEpoch, log, slot, v, latest);
    }
  }

  lemma ReadsInclusion(n: nat)
    requires n <= MAX_NUMBER
    ensures InclusionOf((MAX_NUMBER - n) * 1000) == n
  {
    var d := MAX_NUMBER - n;
    assert d * 1000 / 1000 == d;
    SmallMod(d);
  }

  lemma SmallMod(d: nat)
    requires d < TWO64
    ensures d % TWO64 == d
  {}

  lemma SmallInt64(x: int)
    requires 0 - MAX_INT <= x <= MAX_INT
    ensures Int64(x) == x
  {
    if x >= 0 { SmallMod(x); } else { assert x % TWO64 == x + TWO64; }
  }

  lemma EntryOfDuty(log: seq<Event>, v: u64, slot: u64, slotsPerEpoch: u64)
    requires slotsPerEpoch >= 1 && slot < MAX_NUMBER
    requires forall n :: n in Inclusions(log, slot, v) ==> n >= 1
    ensures EntryOf(v, slot, DutyTs(log, slot, v), slotsPerEpoch) == DutyEntry(log, v, slot, slotsPerEpoch)
  {
    ReadsInclusion(0);
    SmallInt64(-1 - slot);
    if Inclusions(log, slot, v) == {} {
      assert InclusionOf(0) == MAX_NUMBER by { SmallMod(0); }
    } else {
      var first := MinOf(Inclusions(log, slot, v));
      ReadsInclusion(first);
      SmallInt64(first - slot - 1);
    }
  }

  lemma InclusionsPositive(slotsPerEpoch: u64, log: seq<Event>, slot: u64, v: u64)
    requires slotsPerEpoch >= 1 && ValidLog(slotsPerEpoch, log)
    ensures forall n :: n in Inclusions(log, slot, v) ==> n >= 1
  {
    forall n | n in Inclusions(log, slot, v) ensures n >= 1 {
      var ev :| ev in log && ev.Include? && Incl(slot, v, n) in Incls(ev.blocks, ev.blocks.Keys);
      assert ValidEvent(slotsPerEpoch, ev);
    }
  }

  // ------------------------------------------------------------------------- the theorem

  ghost function KeysOfSlots(chain: Key, slotsPerEpoch: u64, q: seq<u64>): (keys: seq<Key>)
    requires slotsPerEpoch >= 1
    ensures |keys| == |q|
  {
    seq(|q|, i requires 0 <= i < |q| => RowOfSlot(chain, slotsPerEpoch)(q[i]))
  }

  lemma KeysSorted(chain: Key, slotsPerEpoch: u64, q: seq<u64>)
    requires slotsPerEpoch >= 1 && InScanOrder(slotsPerEpoch, q) && forall s :: s in q ==> SlotOk(slotsPerEpoch, s)
    ensures StrictlySorted(KeysOfSlots(chain, slotsPerEpoch, q))
  {
    var keys := KeysOfSlots(chain, slotsPerEpoch, q);
    forall i, j | 0 <= i < j < |q| ensures Less(keys[i], keys[j]) {
      assert q[i] in q && q[j] in q;
      SlotOrder(chain, slotsPerEpoch, q[i], q[j]);
    }
  }

  /** The rows with the validator's cells that a window read meets are the rows of the
      window's duty slots, in that order. */
  lemma WindowRows(rows: Rows<Key>, chain: Key, slotsPerEpoch: u64, log: seq<Event>, v: u64, start: u64, limit: u64)
    requires TableOf(rows, chain, slotsPerEpoch, log)
    ensures var keys := Scan(rows, EpochPrefix(chain, start), EpochPrefix(chain, Sub64(start, limit)));
            With(rows, keys, ValidatorColumn(v)) ==
            KeysOfSlots(chain, slotsPerEpoch, WindowSlots(log, v, start, limit, slotsPerEpoch))
  {
    var lo, hi := EpochPrefix(chain, start), EpochPrefix(chain, Sub64(start, limit));
    var keys := Scan(rows, lo, hi);
    var q := WindowSlots(log, v, start, limit, slotsPerEpoch);
    ScanSorted(rows, lo, hi);
    PassingSorted(rows, keys, ColumnFilter(ValidatorColumn(v)));
    WindowSpec(log, v, start, limit, slotsPerEpoch);
    KeysSorted(chain, slotsPerEpoch, q);
    forall k ensures k in With(rows, keys, ValidatorColumn(v)) <==> k in KeysOfSlots(chain, slotsPerEpoch, q) {
      PassingMembers(rows, keys, ColumnFilter(ValidatorColumn(v)), k);
      if k in keys && HasCell(rows, k, ValidatorColumn(v)) {
        InScanInWindow(rows, chain, slotsPerEpoch, log, v, start, limit, k);
      }
      if k in KeysOfSlots(chain, slotsPerEpoch, q) {
        InWindowInScan(rows, chain, slotsPerEpoch, log, v, start, limit, k);
      }
    }
    SortedUnique(With(rows, keys, ValidatorColumn(v)), KeysOfSlots(chain, slotsPerEpoch, q));
  }

  lemma InScanInWindow(rows: Rows<Key>, chain: Key, slotsPerEpoch: u64, log: seq<Event>, v: u64, start: u64, limit: u64, k: Key)
    requires TableOf(rows, chain, slotsPerEpoch, log)
    requires HasCell(rows, k, ValidatorColumn(v)) && InWindow(k, chain, start, limit)
    ensures k in KeysOfSlots(chain, slotsPerEpoch, WindowSlots(log, v, start, limit, slotsPerEpoch))
  {
    var slot, w := CellOrigin(rows, chain, slotsPerEpoch, log, k, ValidatorColumn(v));
    DutyCell(rows, chain, slotsPerEpoch, log, slot, v);
    WindowExact(chain, EpochOf(slotsPerEpoch, slot), slot, start, limit);
    WindowSpec(log, v, start, limit, slotsPerEpoch);
    KeyOfMember(chain, slotsPerEpoch, WindowSlots(log, v, start, limit, slotsPerEpoch), slot);
  }

  lemma KeyOfMember(chain: Key, slotsPerEpoch: u64, q: seq<u64>, slot: u64)
    requires slotsPerEpoch >= 1 && slot in q
    ensures RowOfSlot(chain, slotsPerEpoch)(slot) in KeysOfSlots(chain, slotsPerEpoch, q)
  {
    var i :| 0 <= i < |q| && q[i] == slot;
    assert KeysOfSlots(chain, slotsPerEpoch, q)[i] == RowOfSlot(chain, slotsPerEpoch)(slot);
  }

  lemma InWindowInScan(rows: Rows<Key>, chain: Key, slotsPerEpoch: u64, log: seq<Event>, v: u64, start: u64, limit: u64, k: Key)
    requires TableOf(rows, chain, slotsPerEpoch, log)
    requires k in KeysOfSlots(chain, slotsPerEpoch, WindowSlots(log, v, start, limit, slotsPerEpoch))
    ensures HasCell(rows, k, ValidatorColumn(v)) && InWindow(k, chain, start, limit)
  {
    var q := WindowSlots(log, v, start, limit, slotsPerEpoch);
    WindowSpec(log, v, start, limit, slotsPerEpoch);
    var i :| 0 <= i < |q| && k == KeysOfSlots(chain, slotsPerEpoch, q)[i];
    assert q[i] in q;
    DutyCell(rows, chain, slotsPerEpoch, log, q[i], v);
    WindowExact(chain, EpochOf(slotsPerEpoch, q[i]), q[i], start, limit);
  }

  /** What the reader must return for one validator. */
  ghost function Duties(log: seq<Event>, v: u64, start: u64, limit: u64, slotsPerEpoch: u64): (q: seq<Entry>)
    requires 1 <= slotsPerEpoch <= MAX_NUMBER
    ensures |q| == |WindowSlots(log, v, start, limit, slotsPerEpoch)|
  {
    var slots := WindowSlots(log, v, start, limit, slotsPerEpoch);
    seq(|slots|, i requires 0 <= i < |slots| => DutyEntry(log, v, slots[i], slotsPerEpoch))
  }

  /** The window read of one validator gives its duty list. */
  lemma ReadsDuties(rows: Rows<Key>, chain: Key, slotsPerEpoch: u64, log: seq<Event>, v: u64, start: u64, limit: u64)
    requires TableOf(rows, chain, slotsPerEpoch, log)
    ensures ReadBack(rows, Scan(rows, EpochPrefix(chain, start), EpochPrefix(chain, Sub64(start, limit))), v, slotsPerEpoch)
            == Duties(log, v, start, limit, slotsPerEpoch)
  {
    var keys := Scan(rows, EpochPrefix(chain, start), EpochPrefix(chain, Sub64(start, limit)));
    var slots := WindowSlots(log, v, start, limit, slotsPerEpoch);
    WindowRows(rows, chain, slotsPerEpoch, log, v, start, limit);
    WindowSpec(log, v, start, limit, slotsPerEpoch);
    var with := With(rows, keys, ValidatorColumn(v));
    forall i | 0 <= i < |slots|
      ensures ReadBack(rows, keys, v, slotsPerEpoch)[i] == DutyEntry(log, v, slots[i], slotsPerEpoch)
    {
      assert slots[i] in slots && with[i] in with;
      OneDuty(rows, chain, slotsPerEpoch, log, v, slots[i]);
      assert with[i] == RowOfSlot(chain, slotsPerEpoch)(slots[i]);
    }
  }

  lemma OneDuty(rows: Rows<Key>, chain: Key, slotsPerEpoch: u64, log: seq<Event>, v: u64, slot: u64)
    requires TableOf(rows, chain, slotsPerEpoch, log) && slot < MAX_NUMBER && HasDuty(log, slot, v)
    ensures var k := RowOfSlot(chain, slotsPerEpoch)(slot);
            HasCell(rows, k, ValidatorColumn(v)) && KeyEntry(rows, k, v, slotsPerEpoch) == DutyEntry(log, v, slot, slotsPerEpoch)
  {
    DutyCell(rows, chain, slotsPerEpoch, log, slot, v);
    SlotReadBack(chain, EpochOf(slotsPerEpoch, slot), slot);
    InclusionsPositive(slotsPerEpoch, log, slot, v);
    EntryOfDuty(log, v, slot, slotsPerEpoch);
  }

  ghost predicate ListsDuties(h: History, validators: seq<u64>, log: seq<Event>, start: u64, limit: u64, slotsPerEpoch: u64)
    requires 1 <= slotsPerEpoch <= MAX_NUMBER
  {
    forall v: u64 :: At(h, v) == if Wanted(validators, v) then Duties(log, v, start, limit, slotsPerEpoch) else []
  }

  /** On a table that holds the cells of a log, what was read is, for each requested
      validator, its duty list of the window, and nothing for the others. */
  lemma ReadListsDuties(rows: Rows<Key>, chain: Key, validators: seq<u64>, start: u64, limit: u64, slotsPerEpoch: u64,
                        log: seq<Event>, h: History)
    requires TableOf(rows, chain, slotsPerEpoch, log)
    requires HasRead(rows, Scan(rows, EpochPrefix(chain, start), EpochPrefix(chain, Sub64(start, limit))),
                     validators, h, slotsPerEpoch)
    ensures ListsDuties(h, validators, log, start, limit, slotsPerEpoch)
  {
    forall v: u64 ensures At(h, v) == if Wanted(validators, v) then Duties(log, v, start, limit, slotsPerEpoch) else [] {
      ReadsDuties(rows, chain, slotsPerEpoch, log, v, start, limit);
    }
  }

  // --------------------------------------------------------- the same on the raw calls

  /** Some call assigned the validator under a key that names the slot. */
  ghost predicate WasAssigned(log: seq<Event>, slot: u64, v: u64) {
    exists ev, k :: ev in log && ev.Assign? && k in ev.assignments && NamesSlot(k, slot) && ev.assignments[k] == v
  }

  /** Some batch held a block of slot n with the validator's vote for the slot. */
  ghost predicate HasVoted(log: seq<Event>, slot: u64, v: u64, n: u64) {
    exists ev :: ev in log && ev.Include? && Votes(ev.blocks, slot, v, n)
  }

  ghost predicate EverVoted(log: seq<Event>, slot: u64, v: u64) {
    exists n: u64 :: HasVoted(log, slot, v, n)
  }

  /** An entry of the list: the earliest inclusion of a vote, or a missed assignment. */
  ghost predicate TellsDuty(e: Entry, log: seq<Event>, v: u64, slotsPerEpoch: u64)
    requires slotsPerEpoch >= 1
  {
    e.index == v && e.epoch == e.slot / slotsPerEpoch && e.delay == e.inclusion - e.slot - 1 &&
    if EverVoted(log, e.slot, v) then
      e.status == 1 && HasVoted(log, e.slot, v, e.inclusion) && forall n: u64 :: HasVoted(log, e.slot, v, n) ==> e.inclusion <= n
    else e.status == 0 && e.inclusion == 0 && WasAssigned(log, e.slot, v)
  }

  /** The slot has an assignment or a vote, and lies in the window. */
  ghost predicate InWindowRaw(log: seq<Event>, v: u64, start: u64, limit: u64, slotsPerEpoch: u64, slot: u64)
    requires slotsPerEpoch >= 1
  {
    (WasAssigned(log, slot, v) || EverVoted(log, slot, v)) && Covered(EpochOf(slotsPerEpoch, slot), start, limit)
  }

  ghost predicate Mentions(q: seq<Entry>, slot: u64) {
    exists i :: 0 <= i < |q| && q[i].slot == slot
  }

  /** The whole list of a validator: one entry per slot of the window with an assignment or a
      vote, in the order of the scan. */
  ghost predicate TellsDuties(q: seq<Entry>, log: seq<Event>, v: u64, start: u64, limit: u64, slotsPerEpoch: u64)
    requires slotsPerEpoch >= 1
  {
    (forall i :: 0 <= i < |q| ==> TellsDuty(q[i], log, v, slotsPerEpoch) && Covered(q[i].epoch, start, limit)) &&
    (forall i, j :: 0 <= i < j < |q| ==> MetFirst(slotsPerEpoch, q[i].slot, q[j].slot)) &&
    forall slot: u64 :: InWindowRaw(log, v, start, limit, slotsPerEpoch, slot) ==> Mentions(q, slot)
  }

  /** ... for each requested validator, or for all when none or a thousand are requested. */
  ghost predicate TellsAll(h: History, validators: seq<u64>, log: seq<Event>, start: u64, limit: u64, slotsPerEpoch: u64)
    requires slotsPerEpoch >= 1
  {
    forall v: u64 :: TellsOne(if v in h then h[v] else [], validators, log, v, start, limit, slotsPerEpoch)
  }

  ghost predicate TellsOne(q: seq<Entry>, validators: seq<u64>, log: seq<Event>, v: u64, start: u64, limit: u64, slotsPerEpoch: u64)
    requires slotsPerEpoch >= 1
  {
    if validators == [] || |validators| >= 1000 || v in validators
    then TellsDuties(q, log, v, start, limit, slotsPerEpoch) else q == []
  }

  lemma AssignedMeans(log: seq<Event>, slot: u64, v: u64)
    ensures Assigned(log, slot, v) <==> WasAssigned(log, slot, v)
  {
    if Assigned(log, slot, v) {
      var ev :| ev in log && ev.Assign? && Pair(slot, v) in AssignedPairs(ev.assignments);
      var k :| k in ev.assignments && SlotOf(k).Some? && Pair(slot, v) == Pair(SlotOf(k).value, ev.assignments[k]);
      SlotOfNames(k, slot);
    }
    if ev, k :| ev in log && ev.Assign? && k in ev.assignments && NamesSlot(k, slot) && ev.assignments[k] == v {
      SlotOfNames(k, slot);
      assert Pair(slot, v) in AssignedPairs(ev.assignments);
    }
  }

  lemma InclusionsMean(slotsPerEpoch: u64, log: seq<Event>, slot: u64, v: u64)
    requires slotsPerEpoch >= 1 && ValidLog(slotsPerEpoch, log)
    ensures forall n: u64 :: n in Inclusions(log, slot, v) <==> HasVoted(log, slot, v, n)
    ensures Inclusions(log, slot, v) == {} <==> !EverVoted(log, slot, v)
    ensures EverVoted(log, slot, v) ==> slot < MAX_NUMBER
  {
    forall n: u64
      ensures n in Inclusions(log, slot, v) <==> HasVoted(log, slot, v, n)
      ensures HasVoted(log, slot, v, n) ==> slot < MAX_NUMBER
    {
      if HasVoted(log, slot, v, n) {
        var ev :| ev in log && ev.Include? && Votes(ev.blocks, slot, v, n);
        InclsAreVotes(ev.blocks, Incl(slot, v, n));
        assert ValidEvent(slotsPerEpoch, ev);
      }
      if n in Inclusions(log, slot, v) {
        var ev :| ev in log && ev.Include? && Incl(slot, v, n) in Incls(ev.blocks, ev.blocks.Keys);
        InclsAreVotes(ev.blocks, Incl(slot, v, n));
      }
    }
  }

  lemma AssignedBelow(slotsPerEpoch: u64, log: seq<Event>, slot: u64, v: u64)
    requires slotsPerEpoch >= 1 && ValidLog(slotsPerEpoch, log) && Assigned(log, slot, v)
    ensures slot < MAX_NUMBER
  {
    var ev :| ev in log && ev.Assign? && Pair(slot, v) in AssignedPairs(ev.assignments);
    assert ValidEvent(slotsPerEpoch, ev);
  }

  lemma DutyIsTold(slotsPerEpoch: u64, log: seq<Event>, v: u64, slot: u64)
    requires slotsPerEpoch >= 1 && ValidLog(slotsPerEpoch, log) && HasDuty(log, slot, v)
    ensures TellsDuty(DutyEntry(log, v, slot, slotsPerEpoch), log, v, slotsPerEpoch)
  {
    AssignedMeans(log, slot, v);
    InclusionsMean(slotsPerEpoch, log, slot, v);
  }

  lemma DueMeans(slotsPerEpoch: u64, log: seq<Event>, slot: u64, v: u64)
    requires slotsPerEpoch >= 1 && ValidLog(slotsPerEpoch, log)
    ensures WasAssigned(log, slot, v) || EverVoted(log, slot, v) ==> HasDuty(log, slot, v) && slot < MAX_NUMBER
  {
    AssignedMeans(log, slot, v);
    InclusionsMean(slotsPerEpoch, log, slot, v);
    if Assigned(log, slot, v) { AssignedBelow(slotsPerEpoch, log, slot, v); }
  }

  lemma DutyAt(slotsPerEpoch: u64, log: seq<Event>, v: u64, start: u64, limit: u64, i: nat)
    requires 1 <= slotsPerEpoch <= MAX_NUMBER && ValidLog(slotsPerEpoch, log)
    requires i < |Duties(log, v, start, limit, slotsPerEpoch)|
    ensures var e := Duties(log, v, start, limit, slotsPerEpoch)[i];
            e.slot == WindowSlots(log, v, start, limit, slotsPerEpoch)[i] &&
            TellsDuty(e, log, v, slotsPerEpoch) && Covered(e.epoch, start, limit)
  {
    var slots := WindowSlots(log, v, start, limit, slotsPerEpoch);
    WindowSpec(log, v, start, limit, slotsPerEpoch);
    assert slots[i] in slots;
    DutyIsTold(slotsPerEpoch, log, v, slots[i]);
  }

  lemma DutyFound(slotsPerEpoch: u64, log: seq<Event>, v: u64, start: u64, limit: u64, slot: u64) returns (i: nat)
    requires 1 <= slotsPerEpoch <= MAX_NUMBER && ValidLog(slotsPerEpoch, log)
    requires InWindowRaw(log, v, start, limit, slotsPerEpoch, slot)
    ensures var slots := WindowSlots(log, v, start, limit, slotsPerEpoch); i < |slots| && slots[i] == slot
  {
    var slots := WindowSlots(log, v, start, limit, slotsPerEpoch);
    DueMeans(slotsPerEpoch, log, slot, v);
    WindowSpec(log, v, start, limit, slotsPerEpoch);
    assert slot in slots;
    i :| 0 <= i < |slots| && slots[i] == slot;
  }

  lemma DutiesInOrder(slotsPerEpoch: u64, log: seq<Event>, v: u64, start: u64, limit: u64)
    requires 1 <= slotsPerEpoch <= MAX_NUMBER && ValidLog(slotsPerEpoch, log)
    ensures var q := Duties(log, v, start, limit, slotsPerEpoch);
            forall i, j :: 0 <= i < j < |q| ==> MetFirst(slotsPerEpoch, q[i].slot, q[j].slot)
  {
    var q, slots := Duties(log, v, start, limit, slotsPerEpoch), WindowSlots(log, v, start, limit, slotsPerEpoch);
    WindowSpec(log, v, start, limit, slotsPerEpoch);
    forall i | 0 <= i < |q| ensures q[i].slot == slots[i] { DutyAt(slotsPerEpoch, log, v, start, limit, i); }
  }

  lemma DutiesAreTold(slotsPerEpoch: u64, log: seq<Event>, v: u64, start: u64, limit: u64)
    requires 1 <= slotsPerEpoch <= MAX_NUMBER && ValidLog(slotsPerEpoch, log)
    ensures TellsDuties(Duties(log, v, start, limit, slotsPerEpoch), log, v, start, limit, slotsPerEpoch)
  {
    var q := Duties(log, v, start, limit, slotsPerEpoch);
    DutiesInOrder(slotsPerEpoch, log, v, start, limit);
    forall i | 0 <= i < |q| ensures TellsDuty(q[i], log, v, slotsPerEpoch) && Covered(q[i].epoch, start, limit) {
      DutyAt(slotsPerEpoch, log, v, start, limit, i);
    }
    forall slot: u64 | InWindowRaw(log, v, start, limit, slotsPerEpoch, slot) ensures Mentions(q, slot) {
      var i := DutyFound(slotsPerEpoch, log, v, start, limit, slot);
      DutyAt(slotsPerEpoch, log, v, start, limit, i);
    }
  }

  lemma OneIsTold(q: seq<Entry>, validators: seq<u64>, log: seq<Event>, v: u64, start: u64, limit: u64, slotsPerEpoch: u64)
    requires 1 <= slotsPerEpoch <= MAX_NUMBER && ValidLog(slotsPerEpoch, log)
    requires q == if Wanted(validators, v) then Duties(log, v, start, limit, slotsPerEpoch) else []
    ensures TellsOne(q, validators, log, v, start, limit, slotsPerEpoch)
  {
    DutiesAreTold(slotsPerEpoch, log, v, start, limit);
  }

  lemma ListsAreTold(h: History, validators: seq<u64>, log: seq<Event>, start: u64, limit: u64, slotsPerEpoch: u64)
    requires 1 <= slotsPerEpoch <= MAX_NUMBER && ValidLog(slotsPerEpoch, log)
    requires ListsDuties(h, validators, log, start, limit, slotsPerEpoch)
    ensures TellsAll(h, validators, log, start, limit, slotsPerEpoch)
  {
    forall v: u64 ensures TellsOne(if v in h then h[v] else [], validators, log, v, start, limit, slotsPerEpoch) {
      assert At(h, v) == if v in h then h[v] else [];
      OneIsTold(At(h, v), validators, log, v, start, limit, slotsPerEpoch);
    }
  }

  /** An assignment under a key of the exporter's format is listed at its slot. */
  lemma AssignmentListed(q: seq<Entry>, log: seq<Event>, ev: Event, slot: u64, committee: u64, member: u64, v: u64,
                         start: u64, limit: u64, slotsPerEpoch: u64)
    requires slotsPerEpoch >= 1 && TellsDuties(q, log, v, start, limit, slotsPerEpoch)
    requires ev in log && ev.Assign? && AssignmentKey(slot, committee, member) in ev.assignments
    requires ev.assignments[AssignmentKey(slot, committee, member)] == v && Covered(EpochOf(slotsPerEpoch, slot), start, limit)
    ensures exists i :: 0 <= i < |q| && q[i].slot == slot && q[i].index == v
  {
    AssignmentKeyNames(slot, committee, member);
    assert NamesSlot(AssignmentKey(slot, committee, member), slot);
    assert WasAssigned(log, slot, v);
    assert InWindowRaw(log, v, start, limit, slotsPerEpoch, slot);
  }

  /** From the empty table through any sequence of writer calls, with any failing Apply calls
      and retries, to the read: if every call succeeded at some point, the duty lists are
      those of the calls, whatever their order, repetition and batching. */
  method WriteThenRead(chain: Key, slotsPerEpoch: u64, log: seq<Event>, applyFails: nat -> Key -> bool,
                       validators: seq<u64>, start: u64, limit: u64)
    returns (ok: seq<bool>, h: History)
    requires 2 <= slotsPerEpoch < 900_000_000 && Free(chain, COLON) && ValidLog(slotsPerEpoch, log)
    ensures SucceededAsTheyCan(chain, slotsPerEpoch, log, applyFails, ok)
    ensures AllSucceeded(log, ok) ==>
              ListsDuties(h, validators, log, start, limit, slotsPerEpoch) &&
              TellsAll(h, validators, log, start, limit, slotsPerEpoch)
  {
    var t := new Table<Key>();
    ghost var states;
    ok, states := RunLog(t, chain, slotsPerEpoch, log, applyFails);
    h := GetValidatorAttestationHistory(t, chain, validators, start, limit, slotsPerEpoch);
    if AllSucceeded(log, ok) {
      RunLeavesMarks(chain, slotsPerEpoch, log, ok, states);
      TableReadable(t.rows, chain, slotsPerEpoch, log);
      ReadListsDuties(t.rows, chain, validators, start, limit, slotsPerEpoch, log, h);
      ListsAreTold(h, validators, log, start, limit, slotsPerEpoch);
    }
  }
}
