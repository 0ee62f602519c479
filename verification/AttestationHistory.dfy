/** GetValidatorAttestationHistory: what a window read makes of the duty cells of each
    validator. */
module AttestationHistory {
  import opened Bytes
  import opened Words
  import opened Decimal
  import opened KeyOrder
  import opened KeyCodec
  import opened Bigtable
  import opened ColumnScan
  import opened Extremes
  import opened AttestationCells
  import opened DutyWindow

  datatype Entry = Entry(index: u64, epoch: u64, slot: u64, status: nat, inclusion: u64, delay: int)

  type History = map<u64, seq<Entry>>

  /** Go's conversion to int64. */
  function Int64(x: int): int {
    var r := x % TWO64;
    if r > MAX_INT then r - TWO64 else r
  }

  // ------------------------------------------------------------------ one cell, one entry

  /** The slot a cell's timestamp stands for; 10^9 when it is an assignment. */
  function InclusionOf(ts: nat): u64 {
    Sub64(MAX_NUMBER, (ts / 1000) % TWO64)
  }

  function EntryOf(v: u64, slot: u64, ts: nat, slotsPerEpoch: u64): Entry
    requires slotsPerEpoch >= 1
  {
    var seen := InclusionOf(ts);
    var inclusion: u64 := if seen == MAX_NUMBER then 0 else seen;
    Entry(v, EpochOf(slotsPerEpoch, slot), slot, if seen == MAX_NUMBER then 0 else 1, inclusion,
          Int64(inclusion - slot - 1))
  }

  /** An entry for the slot of the last one would overwrite that one, from the second on. */
  function AddEntry(q: seq<Entry>, e: Entry): seq<Entry> {
    if |q| > 1 && q[|q| - 1].slot == e.slot
    then q[|q| - 1 := q[|q| - 1].(inclusion := e.inclusion, status := e.status, delay := Int64(e.inclusion - e.slot))]
    else q + [e]
  }

  function At(h: History, v: u64): seq<Entry> {
    if v in h then h[v] else []
  }

  /** The column filters: none for no validators, and none for a thousand or more. */
  predicate Passes(validators: seq<u64>, qualifier: Key) {
    |validators| == 0 || |validators| >= 1000 || exists i :: 0 <= i < |validators| && qualifier == Dec(validators[i])
  }

  predicate Wanted(validators: seq<u64>, v: u64) {
    |validators| == 0 || |validators| >= 1000 || v in validators
  }

  lemma PassesWanted(validators: seq<u64>, v: u64)
    ensures Passes(validators, Dec(v)) <==> Wanted(validators, v)
  {
    forall w: u64 | Dec(v) == Dec(w) ensures v == w { PadInjective(v, w, 1); }
  }

  /** The columns of a row that pass the filters. */
  function CellsOf(row: Row<Key>, validators: seq<u64>): set<Key> {
    set c | c in row && c.family == ATTESTATIONS && row[c] != map[] && Passes(validators, c.qualifier) :: c.qualifier
  }

  function Latest(row: Row<Key>, qualifier: Key): nat
    requires Column(ATTESTATIONS, qualifier) in row && row[Column(ATTESTATIONS, qualifier)] != map[]
  {
    var cells := row[Column(ATTESTATIONS, qualifier)];
    NonEmptyKeys(cells);
    MaxOf(cells.Keys)
  }

  // ------------------------------------------------------------------------- the reader

  /** A row whose key and columns can be parsed and name each validator once. */
  ghost predicate ReadableRow(k: Key, row: Row<Key>) {
    SlotOfKey(k).Some? && forall c :: c in row && c.family == ATTESTATIONS ==> exists v: u64 :: c == ValidatorColumn(v)
  }

  ghost predicate HasDutyCells(row: Row<Key>) {
    exists c :: c in row && c.family == ATTESTATIONS
  }

  /** Rows with duty cells can be read, and each slot has one of them. */
  ghost predicate Readable(rows: Rows<Key>) {
    (forall k :: k in rows && HasDutyCells(rows[k]) ==> ReadableRow(k, rows[k])) &&
    (forall j, k | j in rows && k in rows && HasDutyCells(rows[j]) && HasDutyCells(rows[k]) ::
       SlotOfKey(j) == SlotOfKey(k) ==> j == k)
  }

  /** What a row adds to the list of one validator. */
  function RowEntry(k: Key, row: Row<Key>, v: u64, slotsPerEpoch: u64): Entry
    requires slotsPerEpoch >= 1 && SlotOfKey(k).Some?
    requires ValidatorColumn(v) in row && row[ValidatorColumn(v)] != map[]
  {
    EntryOf(v, SlotOfKey(k).value, Latest(row, Dec(v)), slotsPerEpoch)
  }

  ghost predicate RowAdded(before: History, after: History, k: Key, row: Row<Key>, done: set<Key>, slotsPerEpoch: u64)
    requires slotsPerEpoch >= 1 && SlotOfKey(k).Some?
  {
    forall v: u64 :: At(after, v) ==
      if Dec(v) in done && ValidatorColumn(v) in row && row[ValidatorColumn(v)] != map[]
      then AddEntry(At(before, v), RowEntry(k, row, v, slotsPerEpoch))
      else At(before, v)
  }

  lemma OneColumn(before: History, h: History, k: Key, row: Row<Key>, done: set<Key>, slotsPerEpoch: u64, v: u64)
    requires slotsPerEpoch >= 1 && SlotOfKey(k).Some?
    requires ValidatorColumn(v) in row && row[ValidatorColumn(v)] != map[]
    requires RowAdded(before, h, k, row, done, slotsPerEpoch) && Dec(v) !in done
    ensures RowAdded(before, h[v := AddEntry(At(h, v), RowEntry(k, row, v, slotsPerEpoch))], k, row,
                     done + {Dec(v)}, slotsPerEpoch)
  {
    forall w: u64 | Dec(w) == Dec(v) ensures w == v { PadInjective(w, v, 1); }
  }

  /** The inner loop: the selected cells of one row, in column order. */
  method ReadRow(k: Key, row: Row<Key>, validators: seq<u64>, slotsPerEpoch: u64, h: History)
    returns (h': History, stopped: bool)
    requires slotsPerEpoch >= 1
    ensures ReadableRow(k, row) ==>
              !stopped && RowAdded(h, h', k, row, CellsOf(row, validators), slotsPerEpoch)
    ensures CellsOf(row, validators) == {} ==> !stopped && h' == h
  {
    h' := h;
    var cells := SortedKeys(CellsOf(row, validators));
    SortedKeysSpec(CellsOf(row, validators));
    for n := 0 to |cells|
      invariant ReadableRow(k, row) ==> RowAdded(h, h', k, row, FirstCells(cells, n), slotsPerEpoch)
      invariant n == 0 ==> h' == h
    {
      assert cells[n] in cells;
      var slot := SlotOfKey(k);
      if slot.None? {
        return h', true;
      }
      if ReadableRow(k, row) { ParsesBack(k, row, cells[n]); }
      var validator := ParseUint(cells[n]);
      if validator.None? {
        return h', true;
      }
      var v := validator.value;
      if ReadableRow(k, row) {
        FirstCellsStep(cells, n);
        OneColumn(h, h', k, row, FirstCells(cells, n), slotsPerEpoch, v);
      }
      h' := h'[v := AddEntry(At(h', v), EntryOf(v, slot.value, Latest(row, cells[n]), slotsPerEpoch))];
    }
    stopped := false;
    AllCells(cells, CellsOf(row, validators));
  }

  lemma ParsesBack(k: Key, row: Row<Key>, qualifier: Key)
    requires ReadableRow(k, row) && Column(ATTESTATIONS, qualifier) in row
    ensures ParseUint(qualifier).Some? && qualifier == Dec(ParseUint(qualifier).value)
  {
    var v: u64 :| Column(ATTESTATIONS, qualifier) == ValidatorColumn(v);
    ParsePad(v, 1);
  }

  function KeyEntry(rows: Rows<Key>, k: Key, v: u64, slotsPerEpoch: u64): Entry
    requires slotsPerEpoch >= 1 && HasCell(rows, k, ValidatorColumn(v))
  {
    EntryOf(v, if SlotOfKey(k).Some? then SlotOfKey(k).value else 0, Latest(rows[k], Dec(v)), slotsPerEpoch)
  }

  /** One entry per row with a cell of the validator, in scan order. */
  function ReadBack(rows: Rows<Key>, keys: seq<Key>, v: u64, slotsPerEpoch: u64): (q: seq<Entry>)
    requires slotsPerEpoch >= 1
    ensures |q| == |With(rows, keys, ValidatorColumn(v))|
  {
    var with := With(rows, keys, ValidatorColumn(v));
    seq(|with|, i requires 0 <= i < |with| => assert with[i] in with; KeyEntry(rows, with[i], v, slotsPerEpoch))
  }

  /** No earlier row of the scan is about the same slot. */
  lemma LastSlotDiffers(rows: Rows<Key>, keys: seq<Key>, n: nat, v: u64, slotsPerEpoch: u64)
    requires slotsPerEpoch >= 1 && Readable(rows) && StrictlySorted(keys) && n < |keys|
    requires HasCell(rows, keys[n], ValidatorColumn(v))
    ensures var q := ReadBack(rows, keys[..n], v, slotsPerEpoch);
            q != [] ==> q[|q| - 1].slot != KeyEntry(rows, keys[n], v, slotsPerEpoch).slot
  {
    var with := With(rows, keys[..n], ValidatorColumn(v));
    assert HasDutyCells(rows[keys[n]]);
    if with != [] {
      var last := with[|with| - 1];
      assert last in with;
      PassingMembers(rows, keys[..n], ColumnFilter(ValidatorColumn(v)), last);
      assert HasDutyCells(rows[last]);
      EarlierKeyDiffers(keys, n, last);
    }
  }

  /** So the overwriting branch is dead. */
  lemma EntryAppended(rows: Rows<Key>, keys: seq<Key>, n: nat, v: u64, slotsPerEpoch: u64)
    requires slotsPerEpoch >= 1 && Readable(rows) && StrictlySorted(keys) && n < |keys|
    requires HasCell(rows, keys[n], ValidatorColumn(v))
    ensures ReadBack(rows, keys[..n + 1], v, slotsPerEpoch) ==
            AddEntry(ReadBack(rows, keys[..n], v, slotsPerEpoch), KeyEntry(rows, keys[n], v, slotsPerEpoch))
  {
    LastSlotDiffers(rows, keys, n, v, slotsPerEpoch);
    OneMoreRead(rows, keys, n, v, slotsPerEpoch);
  }

  lemma OneMoreRead(rows: Rows<Key>, keys: seq<Key>, n: nat, v: u64, slotsPerEpoch: u64)
    requires slotsPerEpoch >= 1 && n < |keys| && HasCell(rows, keys[n], ValidatorColumn(v))
    ensures ReadBack(rows, keys[..n + 1], v, slotsPerEpoch) ==
            ReadBack(rows, keys[..n], v, slotsPerEpoch) + [KeyEntry(rows, keys[n], v, slotsPerEpoch)]
  {
    PassingStep(rows, keys, n, ColumnFilter(ValidatorColumn(v)));
  }

  ghost predicate HasRead(rows: Rows<Key>, keys: seq<Key>, validators: seq<u64>, h: History, slotsPerEpoch: u64)
    requires slotsPerEpoch >= 1
  {
    forall v: u64 :: At(h, v) == if Wanted(validators, v) then ReadBack(rows, keys, v, slotsPerEpoch) else []
  }

  lemma CellsAre(rows: Rows<Key>, k: Key, validators: seq<u64>, v: u64)
    requires k in rows
    ensures Dec(v) in CellsOf(rows[k], validators) <==> HasCell(rows, k, ValidatorColumn(v)) && Wanted(validators, v)
  {
    PassesWanted(validators, v);
    assert ValidatorColumn(v) == Column(ATTESTATIONS, Dec(v));
  }

  lemma RowRead(rows: Rows<Key>, keys: seq<Key>, n: nat, validators: seq<u64>, h: History, h': History, slotsPerEpoch: u64)
    requires slotsPerEpoch >= 1 && Readable(rows) && StrictlySorted(keys) && n < |keys| && keys[n] in rows
    requires HasRead(rows, keys[..n], validators, h, slotsPerEpoch)
    requires if HasDutyCells(rows[keys[n]])
             then SlotOfKey(keys[n]).Some? &&
                  RowAdded(h, h', keys[n], rows[keys[n]], CellsOf(rows[keys[n]], validators), slotsPerEpoch)
             else h' == h
    ensures HasRead(rows, keys[..n + 1], validators, h', slotsPerEpoch)
  {
    forall v: u64
      ensures At(h', v) == if Wanted(validators, v) then ReadBack(rows, keys[..n + 1], v, slotsPerEpoch) else []
    {
      CellsAre(rows, keys[n], validators, v);
      if HasCell(rows, keys[n], ValidatorColumn(v)) {
        assert HasDutyCells(rows[keys[n]]);
        EntryAppended(rows, keys, n, v, slotsPerEpoch);
      } else {
        PassingStep(rows, keys, n, ColumnFilter(ValidatorColumn(v)));
      }
    }
  }

  /** GetValidatorAttestationHistory; a row that cannot be parsed ends the read early. */
  method GetValidatorAttestationHistory(t: Table<Key>, chain: Key, validators: seq<u64>, start: u64, limit: u64,
                                        slotsPerEpoch: u64)
    returns (h: History)
    requires slotsPerEpoch >= 1
    ensures Readable(t.rows) ==>
              HasRead(t.rows, Scan(t.rows, EpochPrefix(chain, start), EpochPrefix(chain, Sub64(start, limit))),
                      validators, h, slotsPerEpoch)
  {
    var lo, hi := EpochPrefix(chain, start), EpochPrefix(chain, Sub64(start, limit));
    var keys := t.ReadRows(lo, hi, 0);
    ScanSorted(t.rows, lo, hi);
    h := map[];
    for n := 0 to |keys|
      invariant Readable(t.rows) ==> HasRead(t.rows, keys[..n], validators, h, slotsPerEpoch)
    {
      ghost var before := h;
      var stopped;
      h, stopped := ReadRow(keys[n], t.rows[keys[n]], validators, slotsPerEpoch, h);
      if stopped {
        return h;
      }
      if Readable(t.rows) {
        RowRead(t.rows, keys, n, validators, before, h, slotsPerEpoch);
      }
    }
    assert keys[..|keys|] == keys;
  }
}
