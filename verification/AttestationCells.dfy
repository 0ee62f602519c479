/** Attestation duties and inclusions as versioned cells: the two writers, and why the cells
    they leave behind do not depend on order, repetition or batching. */
module AttestationCells {
  import opened Bytes
  import opened Words
  import opened Decimal
  import opened KeyCodec
  import opened Bigtable

  const TAG_E: Key := [101]
  const TAG_S: Key := [115]
  const ATTESTATIONS: Key := [97, 116]

  /** Epoch and slot of a row; epochs above the bound cannot occur for slots below 10^9. */
  function DutyKey(chain: Key, epoch: u64, slot: u64): Key {
    Sep(chain, Sep(TAG_E, Sep(ReversedPadded(epoch), Sep(TAG_S, ReversedPadded(slot)))))
  }

  /** The row of a slot when the caller names the epoch ... */
  function RowOfEpoch(chain: Key, epoch: u64): u64 -> Key {
    (slot: u64) => DutyKey(chain, epoch, slot)
  }

  function EpochOf(slotsPerEpoch: u64, slot: u64): u64
    requires slotsPerEpoch >= 1
  {
    slot / slotsPerEpoch
  }

  /** ... and when the epoch is computed from the slot. */
  function RowOfSlot(chain: Key, slotsPerEpoch: u64): u64 -> Key
    requires slotsPerEpoch >= 1
  {
    (slot: u64) => DutyKey(chain, EpochOf(slotsPerEpoch, slot), slot)
  }

  /** "<chain>:e:<epoch>:s:<slot>" */
  ghost function DutyRowText(chain: Key, epoch: u64, slot: u64): Key {
    Join([chain, Text("e"), ReversedPadded(epoch), Text("s"), ReversedPadded(slot)], COLON)
  }

  lemma JoinPair(a: Key, b: Key)
    ensures Join([a, b], COLON) == Sep(a, b)
  {
    JoinCons(a, [b]);
    assert [a] + [b] == [a, b];
  }

  lemma DutyKeyIsText(chain: Key, epoch: u64, slot: u64)
    ensures DutyKey(chain, epoch, slot) == DutyRowText(chain, epoch, slot)
    ensures ATTESTATIONS == Text("at")
  {
    var e, s := ReversedPadded(epoch), ReversedPadded(slot);
    assert TAG_E == Text("e") && TAG_S == Text("s");
    JoinPair(TAG_S, s);
    JoinCons(e, [TAG_S, s]);
    JoinCons(TAG_E, [e, TAG_S, s]);
    JoinCons(chain, [TAG_E, e, TAG_S, s]);
    assert [e] + [TAG_S, s] == [e, TAG_S, s] && [TAG_E] + [e, TAG_S, s] == [TAG_E, e, TAG_S, s];
    assert [chain] + [TAG_E, e, TAG_S, s] == [chain, TAG_E, e, TAG_S, s];
  }

  function ValidatorColumn(v: u64): Column {
    Column(ATTESTATIONS, Dec(v))
  }

  /** An inclusion slot as a timestamp: earlier inclusions are newer cells. */
  function InclusionTs(slot: u64): nat {
    Sub64(MAX_NUMBER, slot) * 1000
  }

  // ------------------------------------------------------------- tables as cell sets

  datatype Mark = Mark(key: Key, column: Column, ts: nat)

  /** All cells of a table, forgetting their (empty) values. */
  function Marks(rows: Rows<Key>): set<Mark> {
    set k, c, t | k in rows && c in rows[k] && t in rows[k][c] :: Mark(k, c, t)
  }

  function RowMarks(k: Key, row: Row<Key>): set<Mark> {
    set c, t | c in row && t in row[c] :: Mark(k, c, t)
  }

  function OpMarks(k: Key, ops: Mutation<Key>): set<Mark> {
    set op | op in ops && op.SetCell? :: Mark(k, op.column, op.ts)
  }

  ghost predicate OnlySets(ops: Mutation<Key>) {
    forall op :: op in ops ==> op.SetCell?
  }

  ghost predicate NoEmptyColumns(rows: Rows<Key>) {
    NoEmptyRows(rows) && forall k, c :: k in rows && c in rows[k] ==> rows[k][c] != map[]
  }

  lemma {:induction false} SetsAddMarks(k: Key, row: Row<Key>, ops: Mutation<Key>)
    requires OnlySets(ops) && forall c :: c in row ==> row[c] != map[]
    ensures RowMarks(k, ApplyOps(row, ops)) == RowMarks(k, row) + OpMarks(k, ops)
    ensures forall c :: c in ApplyOps(row, ops) ==> ApplyOps(row, ops)[c] != map[]
    ensures row != map[] || ops != [] ==> ApplyOps(row, ops) != map[]
    decreases |ops|
  {
    if ops != [] {
      var op, rest := ops[0], ops[1..];
      var next := ApplyOp(row, op);
      assert op in ops;
      OneSet(k, row, op);
      forall o | o in rest ensures o.SetCell? { assert o in ops; }
      SetsAddMarks(k, next, rest);
      assert forall o :: o in ops <==> o == op || o in rest;
      assert OpMarks(k, ops) == {Mark(k, op.column, op.ts)} + OpMarks(k, rest);
    }
  }

  lemma OneSet(k: Key, row: Row<Key>, op: Op<Key>)
    requires op.SetCell? && forall c :: c in row ==> row[c] != map[]
    ensures var next := ApplyOp(row, op);
            RowMarks(k, next) == RowMarks(k, row) + {Mark(k, op.column, op.ts)} &&
            next != map[] && forall c :: c in next ==> next[c] != map[]
  {
    var next := ApplyOp(row, op);
    assert op.column in next;
    assert op.ts in next[op.column];
    forall m ensures m in RowMarks(k, next) <==> m in RowMarks(k, row) + {Mark(k, op.column, op.ts)} {}
  }

  lemma MarksByRow(rows: Rows<Key>, m: Mark)
    ensures m in Marks(rows) <==> m in RowMarks(m.key, RowAt(rows, m.key))
  {}

  lemma WriteAddsMarks(rows: Rows<Key>, k: Key, ops: Mutation<Key>)
    requires OnlySets(ops) && NoEmptyColumns(rows)
    ensures Marks(ApplyWrite(rows, Write(k, ops))) == Marks(rows) + OpMarks(k, ops)
    ensures NoEmptyColumns(ApplyWrite(rows, Write(k, ops)))
  {
    var row := RowAt(rows, k);
    SetsAddMarks(k, row, ops);
    var after := ApplyWrite(rows, Write(k, ops));
    assert RowAt(after, k) == ApplyOps(row, ops);
    forall m ensures m in Marks(after) <==> m in Marks(rows) + OpMarks(k, ops) {
      MarksByRow(after, m);
      MarksByRow(rows, m);
      assert m.key != k ==> RowAt(after, m.key) == RowAt(rows, m.key);
    }
  }

  // ------------------------------------------------------------- one row per slot

  /** The cells written by the mutations of some slots. */
  function GroupMarks(keyOf: u64 -> Key, groups: map<u64, Mutation<Key>>, slots: set<u64>): set<Mark> {
    set s, op | s in slots && s in groups && op in groups[s] && op.SetCell? :: Mark(keyOf(s), op.column, op.ts)
  }

  lemma GroupMarksStep(keyOf: u64 -> Key, groups: map<u64, Mutation<Key>>, slots: set<u64>, s: u64)
    requires s in groups
    ensures GroupMarks(keyOf, groups, slots + {s}) == GroupMarks(keyOf, groups, slots) + OpMarks(keyOf(s), groups[s])
  {}

  /** The table after the mutations of the given slots were applied. */
  ghost predicate SavedSoFar(rows: Rows<Key>, before: set<Mark>, keyOf: u64 -> Key,
                             groups: map<u64, Mutation<Key>>, done: set<u64>)
  {
    NoEmptyColumns(rows) && done <= groups.Keys && Marks(rows) == before + GroupMarks(keyOf, groups, done)
  }

  lemma NothingSaved(rows: Rows<Key>, keyOf: u64 -> Key, groups: map<u64, Mutation<Key>>)
    requires NoEmptyColumns(rows)
    ensures SavedSoFar(rows, Marks(rows), keyOf, groups, {})
  {
    assert GroupMarks(keyOf, groups, {}) == {};
  }

  lemma OneMoreSaved(rows: Rows<Key>, before: set<Mark>, keyOf: u64 -> Key,
                     groups: map<u64, Mutation<Key>>, done: set<u64>, slot: u64)
    requires SavedSoFar(rows, before, keyOf, groups, done) && slot in groups && OnlySets(groups[slot])
    ensures SavedSoFar(ApplyWrite(rows, Write(keyOf(slot), groups[slot])), before, keyOf, groups, done + {slot})
  {
    WriteAddsMarks(rows, keyOf(slot), groups[slot]);
    GroupMarksStep(keyOf, groups, done, slot);
  }

  /** The saving loop of both writers: one Apply per slot, in whatever order the map yields
      them; a failing Apply ends it and leaves the rows written so far. */
  method SaveGroups(t: Table<Key>, keyOf: u64 -> Key, groups: map<u64, Mutation<Key>>, applyFails: Key -> bool)
    returns (ok: bool, ghost done: set<u64>)
    requires NoEmptyColumns(t.rows) && forall s :: s in groups ==> OnlySets(groups[s])
    modifies t
    ensures SavedSoFar(t.rows, Marks(old(t.rows)), keyOf, groups, done)
    ensures ok ==> done == groups.Keys
    ensures ok <==> forall s :: s in groups ==> !applyFails(keyOf(s))
  {
    ghost var before := Marks(t.rows);
    NothingSaved(t.rows, keyOf, groups);
    done := {};
    var todo := groups.Keys;
    while todo != {}
      invariant t.Valid()
      invariant todo <= groups.Keys && done == groups.Keys - todo
      invariant forall s :: s in done ==> !applyFails(keyOf(s))
      invariant SavedSoFar(t.rows, before, keyOf, groups, done)
      decreases |todo|
    {
      var slot :| slot in todo;
      if applyFails(keyOf(slot)) {
        return false, done;
      }
      OneMoreSaved(t.rows, before, keyOf, groups, done, slot);
      t.Apply(keyOf(slot), groups[slot]);
      done, todo := done + {slot}, todo - {slot};
    }
    ok := true;
  }

  // ----------------------------------------------------------------- assignments

  /** The slot part of an assignment key "slot-committee-...". */
  function SlotOf(key: Key): Option<u64> {
    ParseUint(Split(key, DASH)[0])
  }

  /** The text of a key up to its first dash is a decimal number of 64 bits. */
  ghost predicate NamesSlot(key: Key, slot: u64) {
    exists n: nat :: n <= |key| && NamesSlotIn(key, n, slot)
  }

  ghost predicate NamesSlotIn(key: Key, n: nat, slot: u64)
    requires n <= |key|
  {
    0 < n && (n < |key| ==> key[n] == 45) && (forall i :: 0 <= i < n ==> 48 <= key[i] <= 57) && Numeral(key[..n]) == slot
  }

  /** FormatAttestorAssignmentKey. */
  function AssignmentKey(slot: u64, committee: u64, member: u64): Key {
    Dec(slot) + [DASH] + Dec(committee) + [DASH] + Dec(member)
  }

  lemma SlotOfNames(key: Key, slot: u64)
    ensures SlotOf(key) == Some(slot) <==> NamesSlot(key, slot)
  {
    var head := Split(key, DASH)[0];
    SplitHead(key, DASH);
    assert head == key[..|head|];
    if SlotOf(key) == Some(slot) {
      ValueIsNumeral(head);
      assert NamesSlotIn(key, |head|, slot);
    }
    if n: nat :| n <= |key| && NamesSlotIn(key, n, slot) {
      assert Free(key[..n], DASH);
      HeadUnique(key, key[..n], DASH);
      ValueIsNumeral(key[..n]);
    }
  }

  /** A key in the format of the exporter names its first number, and no other. */
  lemma AssignmentKeyNames(slot: u64, committee: u64, member: u64)
    ensures forall s: u64 :: NamesSlot(AssignmentKey(slot, committee, member), s) <==> s == slot
  {
    var key := AssignmentKey(slot, committee, member);
    SlotOfAssignmentKey(slot, committee, member);
    forall s: u64 ensures NamesSlot(key, s) <==> s == slot { SlotOfNames(key, s); }
  }

  lemma SlotOfAssignmentKey(slot: u64, committee: u64, member: u64)
    ensures SlotOf(AssignmentKey(slot, committee, member)) == Some(slot)
  {
    var key, head := AssignmentKey(slot, committee, member), Dec(slot);
    PadFree(slot, 1, DASH);
    assert key[..|head|] == head && key[|head|] == DASH;
    HeadUnique(key, head, DASH);
    ParsePad(slot, 1);
  }

  datatype Pair = Pair(slot: u64, validator: u64)

  /** Who is assigned to which slot. */
  function AssignedPairs(assignments: map<Key, u64>): set<Pair> {
    set k | k in assignments && SlotOf(k).Some? :: Pair(SlotOf(k).value, assignments[k])
  }

  function GroupedPairs(perSlot: map<u64, seq<u64>>): set<Pair> {
    set s, v | s in perSlot && v in perSlot[s] :: Pair(s, v)
  }

  function Push(perSlot: map<u64, seq<u64>>, s: u64, v: u64): map<u64, seq<u64>> {
    perSlot[s := (if s in perSlot then perSlot[s] else []) + [v]]
  }

  lemma PushPair(perSlot: map<u64, seq<u64>>, s: u64, v: u64)
    ensures GroupedPairs(Push(perSlot, s, v)) == GroupedPairs(perSlot) + {Pair(s, v)}
  {
    var after := Push(perSlot, s, v);
    assert v in after[s];
    forall p ensures p in GroupedPairs(after) <==> p in GroupedPairs(perSlot) + {Pair(s, v)} {
      if p.slot == s { assert p.validator in after[s] <==> p == Pair(s, v) || p in GroupedPairs(perSlot); }
    }
  }

  function PairsOf(assignments: map<Key, u64>, keys: set<Key>): set<Pair> {
    set k | k in keys && k in assignments && SlotOf(k).Some? :: Pair(SlotOf(k).value, assignments[k])
  }

  lemma PairsOfStep(assignments: map<Key, u64>, keys: set<Key>, k: Key, slot: u64)
    requires k in assignments && SlotOf(k) == Some(slot)
    ensures PairsOf(assignments, keys + {k}) == PairsOf(assignments, keys) + {Pair(slot, assignments[k])}
  {}

  /** Part of the assignments, grouped. */
  ghost predicate Grouped(m: map<u64, seq<u64>>, assignments: map<Key, u64>, done: set<Key>) {
    GroupedPairs(m) == PairsOf(assignments, done) && forall s :: s in m ==> m[s] != []
  }

  lemma OneGrouped(m: map<u64, seq<u64>>, assignments: map<Key, u64>, done: set<Key>, k: Key, slot: u64)
    requires Grouped(m, assignments, done) && k in assignments && SlotOf(k) == Some(slot)
    ensures Grouped(Push(m, slot, assignments[k]), assignments, done + {k})
  {
    PushPair(m, slot, assignments[k]);
    PairsOfStep(assignments, done, k, slot);
  }

  /** The grouping loop: assignments by slot, in whatever order the map yields them. */
  method GroupBySlot(assignments: map<Key, u64>) returns (perSlot: Option<map<u64, seq<u64>>>)
    ensures perSlot.None? <==> exists k :: k in assignments && SlotOf(k).None?
    ensures perSlot.Some? ==> GroupedPairs(perSlot.value) == AssignedPairs(assignments)
    ensures perSlot.Some? ==> forall s :: s in perSlot.value ==> perSlot.value[s] != []
  {
    var m: map<u64, seq<u64>> := map[];
    var todo := assignments.Keys;
    ghost var done: set<Key> := {};
    while todo != {}
      invariant todo + done == assignments.Keys
      invariant forall k :: k in done ==> SlotOf(k).Some?
      invariant Grouped(m, assignments, done)
      decreases |todo|
    {
      var k :| k in todo;
      var slot := SlotOf(k);
      if slot.None? {
        return None;
      }
      OneGrouped(m, assignments, done, k, slot.value);
      m := Push(m, slot.value, assignments[k]);
      done, todo := done + {k}, todo - {k};
    }
    assert PairsOf(assignments, done) == AssignedPairs(assignments);
    perSlot := Some(m);
  }

  /** A cell at timestamp zero for each validator. */
  function AssignOps(validators: seq<u64>): Mutation<Key> {
    seq(|validators|, i requires 0 <= i < |validators| => SetCell(ValidatorColumn(validators[i]), 0, []))
  }

  function AssignMark(keyOf: u64 -> Key, p: Pair): Mark {
    Mark(keyOf(p.slot), ValidatorColumn(p.validator), 0)
  }

  /** The cells a successful SaveAttestationAssignments adds. */
  function AssignMarks(keyOf: u64 -> Key, pairs: set<Pair>): set<Mark> {
    set p | p in pairs :: AssignMark(keyOf, p)
  }

  lemma AssignOpsMember(validators: seq<u64>, op: Op<Key>)
    ensures op in AssignOps(validators) <==> op.SetCell? && exists v :: v in validators && op == SetCell(ValidatorColumn(v), 0, [])
  {
    var ops := AssignOps(validators);
    if op in ops {
      var i :| 0 <= i < |ops| && ops[i] == op;
      assert validators[i] in validators;
    }
    if op.SetCell? && exists v :: v in validators && op == SetCell(ValidatorColumn(v), 0, []) {
      var v :| v in validators && op == SetCell(ValidatorColumn(v), 0, []);
      var i :| 0 <= i < |validators| && validators[i] == v;
      assert ops[i] == op;
    }
  }

  function AssignGroups(perSlot: map<u64, seq<u64>>): map<u64, Mutation<Key>> {
    map s | s in perSlot :: AssignOps(perSlot[s])
  }

  /** A cell at timestamp zero, in column "at:<validator>" of the row of the epoch and of the
      slot that the key of the assignment names. */
  ghost predicate AssignsCell(chain: Key, epoch: u64, assignments: map<Key, u64>, m: Mark) {
    exists k: Key, slot: u64 :: AssignsAt(chain, epoch, assignments, k, slot, m)
  }

  ghost predicate AssignsAt(chain: Key, epoch: u64, assignments: map<Key, u64>, k: Key, slot: u64, m: Mark) {
    k in assignments && NamesSlot(k, slot) &&
    m == Mark(DutyRowText(chain, epoch, slot), Column(Text("at"), Dec(assignments[k])), 0)
  }

  lemma AssignMarksAre(chain: Key, epoch: u64, assignments: map<Key, u64>, m: Mark)
    ensures m in AssignMarks(RowOfEpoch(chain, epoch), AssignedPairs(assignments)) <==> AssignsCell(chain, epoch, assignments, m)
  {
    var pairs, keyOf := AssignedPairs(assignments), RowOfEpoch(chain, epoch);
    if m in AssignMarks(keyOf, pairs) {
      var p: Pair :| p in pairs && m == AssignMark(keyOf, p);
      var k :| k in assignments && SlotOf(k).Some? && p == Pair(SlotOf(k).value, assignments[k]);
      SlotOfNames(k, p.slot);
      DutyKeyIsText(chain, epoch, p.slot);
      assert AssignsAt(chain, epoch, assignments, k, p.slot, m);
    }
    if k: Key, slot: u64 :| AssignsAt(chain, epoch, assignments, k, slot, m) {
      SlotOfNames(k, slot);
      DutyKeyIsText(chain, epoch, slot);
      assert Pair(slot, assignments[k]) in pairs;
    }
  }

  /** What a call has added to the cells: all of some, or part of them after an error. */
  ghost predicate Added(before: set<Mark>, after: set<Mark>, ok: bool, added: Mark -> bool) {
    before <= after && (forall m :: m in after ==> m in before || added(m)) && (ok ==> forall m :: added(m) ==> m in after)
  }

  lemma AssignmentsAdded(chain: Key, epoch: u64, assignments: map<Key, u64>, before: set<Mark>, after: set<Mark>, ok: bool)
    requires var added := AssignMarks(RowOfEpoch(chain, epoch), AssignedPairs(assignments));
             before <= after <= before + added && (ok ==> after == before + added)
    ensures Added(before, after, ok, m => AssignsCell(chain, epoch, assignments, m))
  {
    forall m ensures m in AssignMarks(RowOfEpoch(chain, epoch), AssignedPairs(assignments)) <==>
                     AssignsCell(chain, epoch, assignments, m) {
      AssignMarksAre(chain, epoch, assignments, m);
    }
  }

  /** Every key names a slot, and the row of none of them fails. */
  ghost predicate RowsWork(chain: Key, epoch: u64, assignments: map<Key, u64>, applyFails: Key -> bool) {
    (forall k :: k in assignments ==> exists slot: u64 :: NamesSlot(k, slot)) &&
    forall k: Key, slot: u64 :: k in assignments && NamesSlot(k, slot) ==> !applyFails(DutyRowText(chain, epoch, slot))
  }

  lemma CanSaveMeans(chain: Key, epoch: u64, assignments: map<Key, u64>, applyFails: Key -> bool)
    ensures CanSaveAssignments(chain, epoch, assignments, applyFails) <==> RowsWork(chain, epoch, assignments, applyFails)
  {
    forall k: Key | k in assignments ensures SlotOf(k).Some? <==> exists slot: u64 :: NamesSlot(k, slot) {
      if SlotOf(k).Some? { SlotOfNames(k, SlotOf(k).value); }
      if slot: u64 :| NamesSlot(k, slot) { SlotOfNames(k, slot); }
    }
    if RowsWork(chain, epoch, assignments, applyFails) {
      forall p: Pair | p in AssignedPairs(assignments) ensures !applyFails(RowOfEpoch(chain, epoch)(p.slot)) {
        var k :| k in assignments && SlotOf(k).Some? && p == Pair(SlotOf(k).value, assignments[k]);
        SlotOfNames(k, p.slot);
        DutyKeyIsText(chain, epoch, p.slot);
      }
    }
    if CanSaveAssignments(chain, epoch, assignments, applyFails) {
      forall k: Key, slot: u64 | k in assignments && NamesSlot(k, slot) ensures !applyFails(DutyRowText(chain, epoch, slot)) {
        SlotOfNames(k, slot);
        DutyKeyIsText(chain, epoch, slot);
        assert Pair(slot, assignments[k]) in AssignedPairs(assignments);
      }
    }
  }

  /** The grouped mutations write one cell per assigned pair. */
  lemma AssignGroupMarks(keyOf: u64 -> Key, perSlot: map<u64, seq<u64>>)
    ensures GroupMarks(keyOf, AssignGroups(perSlot), perSlot.Keys) == AssignMarks(keyOf, GroupedPairs(perSlot))
    ensures forall s :: s in AssignGroups(perSlot) ==> OnlySets(AssignGroups(perSlot)[s])
  {
    var groups := AssignGroups(perSlot);
    forall m | m in GroupMarks(keyOf, groups, perSlot.Keys) ensures m in AssignMarks(keyOf, GroupedPairs(perSlot)) {
      var s, op: Op<Key> :| s in groups && op in groups[s] && op.SetCell? && m == Mark(keyOf(s), op.column, op.ts);
      AssignOpsMember(perSlot[s], op);
      var v :| v in perSlot[s] && op == SetCell(ValidatorColumn(v), 0, []);
      assert Pair(s, v) in GroupedPairs(perSlot);
      assert m == AssignMark(keyOf, Pair(s, v));
    }
    forall p | p in GroupedPairs(perSlot) ensures AssignMark(keyOf, p) in GroupMarks(keyOf, groups, perSlot.Keys) {
      AssignOpsMember(perSlot[p.slot], SetCell(ValidatorColumn(p.validator), 0, []));
    }
    forall s, op: Op<Key> | s in groups && op in groups[s] ensures op.SetCell? { AssignOpsMember(perSlot[s], op); }
  }

  lemma GroupMarksMonotone(keyOf: u64 -> Key, groups: map<u64, Mutation<Key>>, a: set<u64>, b: set<u64>)
    requires a <= b
    ensures GroupMarks(keyOf, groups, a) <= GroupMarks(keyOf, groups, b)
  {}

  /** Every key names a slot, and the row of every assigned slot can be written. */
  ghost predicate CanSaveAssignments(chain: Key, epoch: u64, assignments: map<Key, u64>, applyFails: Key -> bool) {
    (forall k :: k in assignments ==> SlotOf(k).Some?) &&
    forall p: Pair :: p in AssignedPairs(assignments) ==> !applyFails(RowOfEpoch(chain, epoch)(p.slot))
  }

  lemma AssignedSlots(perSlot: map<u64, seq<u64>>, pairs: set<Pair>)
    requires GroupedPairs(perSlot) == pairs && forall s :: s in perSlot ==> perSlot[s] != []
    ensures forall s: u64 :: s in perSlot <==> exists p: Pair :: p in pairs && p.slot == s
  {
    forall s | s in perSlot ensures exists p: Pair :: p in pairs && p.slot == s {
      assert Pair(s, perSlot[s][0]) in pairs;
    }
  }

  /** SaveAttestationAssignments: one cell per assigned pair, or part of them after an error. */
  method SaveAttestationAssignments(t: Table<Key>, chain: Key, epoch: u64, assignments: map<Key, u64>,
                                    applyFails: Key -> bool)
    returns (ok: bool)
    requires NoEmptyColumns(t.rows)
    modifies t
    ensures NoEmptyColumns(t.rows)
    ensures var added := AssignMarks(RowOfEpoch(chain, epoch), AssignedPairs(assignments));
            Marks(old(t.rows)) <= Marks(t.rows) <= Marks(old(t.rows)) + added &&
            (ok ==> Marks(t.rows) == Marks(old(t.rows)) + added)
    ensures (exists k :: k in assignments && SlotOf(k).None?) ==> t.rows == old(t.rows)
    ensures ok <==> CanSaveAssignments(chain, epoch, assignments, applyFails)
    ensures ok <==> RowsWork(chain, epoch, assignments, applyFails)
    ensures Added(Marks(old(t.rows)), Marks(t.rows), ok, m => AssignsCell(chain, epoch, assignments, m))
  {
    CanSaveMeans(chain, epoch, assignments, applyFails);
    ghost var before := Marks(t.rows);
    var grouped := GroupBySlot(assignments);
    if grouped.None? {
      return false;
    }
    var keyOf := RowOfEpoch(chain, epoch);
    var groups := AssignGroups(grouped.value);
    AssignGroupMarks(keyOf, grouped.value);
    AssignedSlots(grouped.value, AssignedPairs(assignments));
    ghost var done;
    ok, done := SaveGroups(t, keyOf, groups, applyFails);
    GroupMarksMonotone(keyOf, groups, done, groups.Keys);
    AssignmentsAdded(chain, epoch, assignments, before, Marks(t.rows), ok);
  }

  // ------------------------------------------------------------------- inclusions

  datatype Attestation = Attestation(slot: u64, attesters: seq<u64>)
  datatype BeaconBlock = BeaconBlock(attestations: seq<Attestation>)

  /** Blocks by slot and root. */
  type Blocks = map<u64, map<Key, BeaconBlock>>

  /** A validator's vote for a slot, seen in a block. */
  datatype Incl = Incl(attested: u64, validator: u64, included: u64)

  function VoteIncls(a: Attestation, n: nat, s: u64): set<Incl>
    requires n <= |a.attesters|
  {
    set v | v in a.attesters[..n] :: Incl(a.slot, v, s)
  }

  function BlockIncls(b: BeaconBlock, n: nat, s: u64): set<Incl>
    requires n <= |b.attestations|
  {
    set a, v | a in b.attestations[..n] && v in a.attesters :: Incl(a.slot, v, s)
  }

  function SlotIncls(atSlot: map<Key, BeaconBlock>, roots: set<Key>, s: u64): set<Incl> {
    set r, a, v | r in roots && r in atSlot && a in atSlot[r].attestations && v in a.attesters :: Incl(a.slot, v, s)
  }

  function Incls(blocks: Blocks, slots: set<u64>): set<Incl> {
    set s, r, a, v | s in slots && s in blocks && r in blocks[s] && a in blocks[s][r].attestations &&
                     v in a.attesters :: Incl(a.slot, v, s)
  }

  type BySlot = map<u64, map<u64, u64>>

  predicate Has(m: BySlot, a: u64, v: u64) {
    a in m && v in m[a]
  }

  /** The order of inclusions as the code has it: slot 0 counts as no inclusion yet, so any
      other slot beats it. */
  predicate NotAfter(s: u64, t: u64) {
    t == 0 || (s != 0 && s <= t)
  }

  /** The map holds, for every vote seen, the slot of its first inclusion. */
  ghost predicate HoldsEarliest(m: BySlot, seen: set<Incl>) {
    (forall i: Incl :: i in seen ==> Has(m, i.attested, i.validator) && NotAfter(m[i.attested][i.validator], i.included)) &&
    (forall a, v :: Has(m, a, v) ==> Incl(a, v, m[a][v]) in seen) &&
    (forall a :: a in m ==> m[a] != map[])
  }

  /** The innermost statement: a missing entry reads as slot zero. */
  function Note(m: BySlot, a: u64, v: u64, s: u64): BySlot {
    var m1 := if a in m then m else m[a := map[]];
    if (if v in m1[a] then m1[a][v] else 0) == 0 || s < m1[a][v] then m1[a := m1[a][v := s]] else m1
  }

  /** The slots come in ascending order. */
  ghost predicate UpTo(seen: set<Incl>, s: u64) {
    forall i: Incl :: i in seen ==> i.included <= s
  }

  lemma NoteSets(m: BySlot, a: u64, v: u64, s: u64)
    ensures var after := Note(m, a, v, s);
            Has(after, a, v) &&
            after[a][v] == (if Has(m, a, v) && m[a][v] != 0 && m[a][v] <= s then m[a][v] else s) &&
            (forall a', v' :: a' != a || v' != v ==>
               (Has(after, a', v') <==> Has(m, a', v')) && (Has(m, a', v') ==> after[a'][v'] == m[a'][v'])) &&
            (forall a' :: a' in after && a' != a ==> a' in m && after[a'] == m[a'])
  {}

  lemma NoteKeepsEarliest(m: BySlot, seen: set<Incl>, i: Incl)
    requires HoldsEarliest(m, seen) && UpTo(seen, i.included)
    ensures HoldsEarliest(Note(m, i.attested, i.validator, i.included), seen + {i})
  {
    NoteSets(m, i.attested, i.validator, i.included);
    if Has(m, i.attested, i.validator) {
      assert Incl(i.attested, i.validator, m[i.attested][i.validator]).included <= i.included;
    }
  }

  lemma VoteStep(a: Attestation, n: nat, s: u64)
    requires n < |a.attesters|
    ensures VoteIncls(a, n + 1, s) == VoteIncls(a, n, s) + {Incl(a.slot, a.attesters[n], s)}
  {
    assert a.attesters[..n + 1] == a.attesters[..n] + [a.attesters[n]];
  }

  lemma BlockStep(b: BeaconBlock, n: nat, s: u64)
    requires n < |b.attestations|
    ensures BlockIncls(b, n + 1, s) ==
            BlockIncls(b, n, s) + VoteIncls(b.attestations[n], |b.attestations[n].attesters|, s)
  {
    var a := b.attestations[n];
    assert b.attestations[..n + 1] == b.attestations[..n] + [a];
    assert a.attesters[..|a.attesters|] == a.attesters;
  }

  lemma SlotStep(atSlot: map<Key, BeaconBlock>, done: set<Key>, r: Key, s: u64)
    requires r in atSlot
    ensures SlotIncls(atSlot, done + {r}, s) ==
            SlotIncls(atSlot, done, s) + BlockIncls(atSlot[r], |atSlot[r].attestations|, s)
  {
    assert atSlot[r].attestations[..|atSlot[r].attestations|] == atSlot[r].attestations;
  }

  lemma UnionStep(seen: set<Incl>, x: set<Incl>, y: set<Incl>)
    ensures seen + (x + y) == seen + x + y
  {}

  method NoteVotes(m: BySlot, a: Attestation, s: u64, ghost seen: set<Incl>) returns (m': BySlot)
    requires HoldsEarliest(m, seen) && UpTo(seen, s)
    ensures HoldsEarliest(m', seen + VoteIncls(a, |a.attesters|, s))
  {
    m' := m;
    ghost var now := seen;
    for n := 0 to |a.attesters|
      invariant now == seen + VoteIncls(a, n, s)
      invariant HoldsEarliest(m', now) && UpTo(now, s)
    {
      NoteKeepsEarliest(m', now, Incl(a.slot, a.attesters[n], s));
      m' := Note(m', a.slot, a.attesters[n], s);
      VoteStep(a, n, s);
      now := now + {Incl(a.slot, a.attesters[n], s)};
    }
  }

  method NoteBlock(m: BySlot, b: BeaconBlock, s: u64, ghost seen: set<Incl>) returns (m': BySlot)
    requires HoldsEarliest(m, seen) && UpTo(seen, s)
    ensures HoldsEarliest(m', seen + BlockIncls(b, |b.attestations|, s))
  {
    m' := m;
    for n := 0 to |b.attestations|
      invariant HoldsEarliest(m', seen + BlockIncls(b, n, s))
    {
      var a := b.attestations[n];
      m' := NoteVotes(m', a, s, seen + BlockIncls(b, n, s));
      BlockStep(b, n, s);
      UnionStep(seen, BlockIncls(b, n, s), VoteIncls(a, |a.attesters|, s));
    }
  }

  method NoteSlot(m: BySlot, atSlot: map<Key, BeaconBlock>, s: u64, ghost seen: set<Incl>) returns (m': BySlot)
    requires HoldsEarliest(m, seen) && UpTo(seen, s)
    ensures HoldsEarliest(m', seen + SlotIncls(atSlot, atSlot.Keys, s))
  {
    m' := m;
    var todo := atSlot.Keys;
    ghost var done: set<Key> := {};
    while todo != {}
      invariant todo + done == atSlot.Keys
      invariant HoldsEarliest(m', seen + SlotIncls(atSlot, done, s))
      decreases |todo|
    {
      var r :| r in todo;
      var b := atSlot[r];
      m' := NoteBlock(m', b, s, seen + SlotIncls(atSlot, done, s));
      SlotStep(atSlot, done, r, s);
      UnionStep(seen, SlotIncls(atSlot, done, s), BlockIncls(b, |b.attestations|, s));
      done, todo := done + {r}, todo - {r};
    }
  }

  lemma InclsStep(blocks: Blocks, done: set<u64>, s: u64)
    requires s in blocks
    ensures Incls(blocks, done + {s}) == Incls(blocks, done) + SlotIncls(blocks[s], blocks[s].Keys, s)
  {}

  lemma ToSetStep(q: seq<u64>, n: nat)
    requires n < |q|
    ensures ToSet(q[..n + 1]) == ToSet(q[..n]) + {q[n]}
  {
    assert q[..n + 1] == q[..n] + [q[n]];
  }

  lemma SoFar(blocks: Blocks, slots: seq<u64>, n: nat)
    requires Ascending(slots) && n < |slots|
    ensures UpTo(Incls(blocks, ToSet(slots[..n])), slots[n])
  {
    var front := slots[..n];
    forall i: Incl | i in Incls(blocks, ToSet(front)) ensures i.included <= slots[n] {
      var j :| 0 <= j < n && front[j] == i.included;
    }
  }

  /** The nested loops of SaveAttestations: first inclusions over a batch of blocks. */
  method FirstInclusions(blocks: Blocks) returns (m: BySlot)
    ensures HoldsEarliest(m, Incls(blocks, blocks.Keys))
  {
    m := map[];
    var slots := SortAscending(blocks.Keys);
    ghost var done: set<u64> := {};
    assert Incls(blocks, {}) == {};
    for n := 0 to |slots|
      invariant done == ToSet(slots[..n])
      invariant HoldsEarliest(m, Incls(blocks, done))
    {
      var s := slots[n];
      assert s in slots;
      SoFar(blocks, slots, n);
      m := NoteSlot(m, blocks[s], s, Incls(blocks, done));
      ToSetStep(slots, n);
      InclsStep(blocks, done, s);
      done := done + {s};
    }
    assert slots[..|slots|] == slots;
    assert done == blocks.Keys;
  }

  // ---------------------------------------------------------- saving the inclusions

  function InclusionOps(first: map<u64, u64>): set<Op<Key>> {
    set v | v in first :: SetCell(ValidatorColumn(v), InclusionTs(first[v]), [])
  }

  ghost predicate IsFirst(i: Incl, seen: set<Incl>) {
    i in seen && forall j: Incl :: j in seen && j.attested == i.attested && j.validator == i.validator ==>
                               NotAfter(i.included, j.included)
  }

  function InclMark(keyOf: u64 -> Key, i: Incl): Mark {
    Mark(keyOf(i.attested), ValidatorColumn(i.validator), InclusionTs(i.included))
  }

  /** The cells a successful SaveAttestations adds: the first inclusion of every vote. */
  ghost function InclMarks(keyOf: u64 -> Key, seen: set<Incl>): set<Mark> {
    set i | i in seen && IsFirst(i, seen) :: InclMark(keyOf, i)
  }

  /** One mutation for the votes of one attested slot, in whatever order the map yields them. */
  method BuildMutation(first: map<u64, u64>) returns (ops: Mutation<Key>)
    ensures forall op :: op in ops <==> op in InclusionOps(first)
  {
    ops := [];
    var todo := first.Keys;
    ghost var done: set<u64> := {};
    while todo != {}
      invariant todo + done == first.Keys
      invariant forall op :: op in ops <==>
                             exists v :: v in done && v in first && op == SetCell(ValidatorColumn(v), InclusionTs(first[v]), [])
      decreases |todo|
    {
      var v :| v in todo;
      ops := ops + [SetCell(ValidatorColumn(v), InclusionTs(first[v]), [])];
      done, todo := done + {v}, todo - {v};
    }
  }

  ghost predicate GroupsMatch(m: BySlot, groups: map<u64, Mutation<Key>>) {
    groups.Keys == m.Keys && forall a, op :: a in m ==> (op in groups[a] <==> op in InclusionOps(m[a]))
  }

  method BuildGroups(m: BySlot) returns (groups: map<u64, Mutation<Key>>)
    ensures GroupsMatch(m, groups)
  {
    groups := map[];
    var todo := m.Keys;
    while todo != {}
      invariant todo <= m.Keys && groups.Keys == m.Keys - todo
      invariant forall a, op :: a in groups ==> (op in groups[a] <==> op in InclusionOps(m[a]))
      decreases |todo|
    {
      var a :| a in todo;
      var ops := BuildMutation(m[a]);
      groups, todo := groups[a := ops], todo - {a};
    }
  }

  lemma InclGroupMarks(keyOf: u64 -> Key, m: BySlot, seen: set<Incl>, groups: map<u64, Mutation<Key>>)
    requires HoldsEarliest(m, seen) && GroupsMatch(m, groups)
    ensures GroupMarks(keyOf, groups, groups.Keys) == InclMarks(keyOf, seen)
    ensures forall a :: a in groups ==> OnlySets(groups[a])
  {
    forall k | k in GroupMarks(keyOf, groups, groups.Keys) ensures k in InclMarks(keyOf, seen) {
      var a, op: Op<Key> :| a in groups && op in groups[a] && op.SetCell? && k == Mark(keyOf(a), op.column, op.ts);
      var v :| v in m[a] && op == SetCell(ValidatorColumn(v), InclusionTs(m[a][v]), []);
      assert Has(m, a, v);
      var i := Incl(a, v, m[a][v]);
      assert IsFirst(i, seen) && k == InclMark(keyOf, i);
    }
    forall i | i in seen && IsFirst(i, seen) ensures InclMark(keyOf, i) in GroupMarks(keyOf, groups, groups.Keys) {
      var first := m[i.attested][i.validator];
      assert Incl(i.attested, i.validator, first) in seen;
      assert first == i.included;
      var op := SetCell(ValidatorColumn(i.validator), InclusionTs(first), []);
      assert op in InclusionOps(m[i.attested]);
      assert op in groups[i.attested];
    }
  }

  /** A block of a slot carries a validator's vote for another slot. */
  ghost predicate Votes(blocks: Blocks, slot: u64, v: u64, n: u64) {
    n in blocks && exists r, a :: r in blocks[n] && a in blocks[n][r].attestations && a.slot == slot && v in a.attesters
  }

  /** ... and no other does so earlier; slot 0 counts as none. */
  ghost predicate VotesFirst(blocks: Blocks, slot: u64, v: u64, n: u64) {
    Votes(blocks, slot, v, n) && forall later: u64 :: Votes(blocks, slot, v, later) ==> later == 0 || 0 < n <= later
  }

  /** The slot whose block counts: the first after slot 0, or 0 when there is no other. */
  ghost predicate Counts(blocks: Blocks, slot: u64, v: u64, n: u64) {
    VotesFirst(blocks, slot, v, n) || (n == 0 && OnlyAtZero(blocks, slot, v))
  }

  ghost predicate OnlyAtZero(blocks: Blocks, slot: u64, v: u64) {
    Votes(blocks, slot, v, 0) && forall n: u64 :: Votes(blocks, slot, v, n) ==> n == 0
  }

  /** A cell in column "at:<validator>" of the row of the attested slot, whose timestamp falls
      as the slot of the first inclusion rises. */
  ghost predicate IncludesCell(chain: Key, slotsPerEpoch: u64, blocks: Blocks, m: Mark)
    requires slotsPerEpoch >= 1
  {
    exists slot: u64, v: u64, n: u64 :: IncludesAt(chain, slotsPerEpoch, blocks, slot, v, n, m)
  }

  ghost predicate IncludesAt(chain: Key, slotsPerEpoch: u64, blocks: Blocks, slot: u64, v: u64, n: u64, m: Mark)
    requires slotsPerEpoch >= 1
  {
    Counts(blocks, slot, v, n) &&
    m == Mark(DutyRowText(chain, slot / slotsPerEpoch, slot), Column(Text("at"), Dec(v)), Sub64(1_000_000_000, n) * 1000)
  }

  lemma InclsAreVotes(blocks: Blocks, i: Incl)
    ensures i in Incls(blocks, blocks.Keys) <==> Votes(blocks, i.attested, i.validator, i.included)
  {}

  lemma FirstVotes(blocks: Blocks, i: Incl)
    ensures i in Incls(blocks, blocks.Keys) && IsFirst(i, Incls(blocks, blocks.Keys)) <==>
            Counts(blocks, i.attested, i.validator, i.included)
  {
    forall n: u64 ensures Incl(i.attested, i.validator, n) in Incls(blocks, blocks.Keys) <==> Votes(blocks, i.attested, i.validator, n) {
      InclsAreVotes(blocks, Incl(i.attested, i.validator, n));
    }
    assert Incl(i.attested, i.validator, i.included) == i;
  }

  lemma InclMarkIs(chain: Key, slotsPerEpoch: u64, i: Incl)
    requires slotsPerEpoch >= 1
    ensures InclMark(RowOfSlot(chain, slotsPerEpoch), i) ==
            Mark(DutyRowText(chain, i.attested / slotsPerEpoch, i.attested), Column(Text("at"), Dec(i.validator)),
                 Sub64(1_000_000_000, i.included) * 1000)
  {
    DutyKeyIsText(chain, i.attested / slotsPerEpoch, i.attested);
  }

  lemma InclMarksAre(chain: Key, slotsPerEpoch: u64, blocks: Blocks, m: Mark)
    requires slotsPerEpoch >= 1
    ensures m in InclMarks(RowOfSlot(chain, slotsPerEpoch), Incls(blocks, blocks.Keys)) <==>
            IncludesCell(chain, slotsPerEpoch, blocks, m)
  {
    var keyOf, seen := RowOfSlot(chain, slotsPerEpoch), Incls(blocks, blocks.Keys);
    if m in InclMarks(keyOf, seen) {
      var i: Incl :| i in seen && IsFirst(i, seen) && m == InclMark(keyOf, i);
      FirstVotes(blocks, i);
      InclMarkIs(chain, slotsPerEpoch, i);
      assert IncludesAt(chain, slotsPerEpoch, blocks, i.attested, i.validator, i.included, m);
    }
    if slot: u64, v: u64, n: u64 :| IncludesAt(chain, slotsPerEpoch, blocks, slot, v, n, m) {
      var i := Incl(slot, v, n);
      FirstVotes(blocks, i);
      InclMarkIs(chain, slotsPerEpoch, i);
    }
  }

  lemma InclusionsAdded(chain: Key, slotsPerEpoch: u64, blocks: Blocks, before: set<Mark>, after: set<Mark>, ok: bool)
    requires slotsPerEpoch >= 1
    requires var added := InclMarks(RowOfSlot(chain, slotsPerEpoch), Incls(blocks, blocks.Keys));
             before <= after <= before + added && (ok ==> after == before + added)
    ensures Added(before, after, ok, m => IncludesCell(chain, slotsPerEpoch, blocks, m))
  {
    forall m ensures m in InclMarks(RowOfSlot(chain, slotsPerEpoch), Incls(blocks, blocks.Keys)) <==>
                     IncludesCell(chain, slotsPerEpoch, blocks, m) {
      InclMarksAre(chain, slotsPerEpoch, blocks, m);
    }
  }

  /** The row of no attested slot fails. */
  ghost predicate VoteRowsWork(chain: Key, slotsPerEpoch: u64, blocks: Blocks, applyFails: Key -> bool)
    requires slotsPerEpoch >= 1
  {
    forall slot: u64, v: u64, n: u64 :: Votes(blocks, slot, v, n) ==> !applyFails(DutyRowText(chain, slot / slotsPerEpoch, slot))
  }

  lemma CanSaveVotes(chain: Key, slotsPerEpoch: u64, blocks: Blocks, applyFails: Key -> bool)
    requires slotsPerEpoch >= 1
    ensures CanSaveInclusions(chain, slotsPerEpoch, blocks, applyFails) <==> VoteRowsWork(chain, slotsPerEpoch, blocks, applyFails)
  {
    forall i: Incl ensures RowOfSlot(chain, slotsPerEpoch)(i.attested) == DutyRowText(chain, i.attested / slotsPerEpoch, i.attested) {
      DutyKeyIsText(chain, i.attested / slotsPerEpoch, i.attested);
    }
    if CanSaveInclusions(chain, slotsPerEpoch, blocks, applyFails) {
      forall slot: u64, v: u64, n: u64 | Votes(blocks, slot, v, n) ensures !applyFails(DutyRowText(chain, slot / slotsPerEpoch, slot)) {
        InclsAreVotes(blocks, Incl(slot, v, n));
      }
    }
    if VoteRowsWork(chain, slotsPerEpoch, blocks, applyFails) {
      forall i: Incl | i in Incls(blocks, blocks.Keys) ensures !applyFails(RowOfSlot(chain, slotsPerEpoch)(i.attested)) {
        InclsAreVotes(blocks, i);
      }
    }
  }

  /** The row of every attested slot can be written. */
  ghost predicate CanSaveInclusions(chain: Key, slotsPerEpoch: u64, blocks: Blocks, applyFails: Key -> bool)
    requires slotsPerEpoch >= 1
  {
    forall i: Incl :: i in Incls(blocks, blocks.Keys) ==> !applyFails(RowOfSlot(chain, slotsPerEpoch)(i.attested))
  }

  lemma HasEntry(first: map<u64, u64>)
    requires first != map[]
    ensures first.Keys != {}
  {
    assert first.Keys == {} ==> first == map[];
  }

  lemma AttestedSlots(m: BySlot, seen: set<Incl>)
    requires HoldsEarliest(m, seen)
    ensures forall a: u64 :: a in m <==> exists i: Incl :: i in seen && i.attested == a
  {
    forall a | a in m ensures exists i: Incl :: i in seen && i.attested == a {
      HasEntry(m[a]);
      var v :| v in m[a];
      assert Has(m, a, v);
    }
  }

  /** SaveAttestations. */
  method SaveAttestations(t: Table<Key>, chain: Key, slotsPerEpoch: u64, blocks: Blocks, applyFails: Key -> bool)
    returns (ok: bool)
    requires NoEmptyColumns(t.rows) && slotsPerEpoch >= 1
    modifies t
    ensures NoEmptyColumns(t.rows)
    ensures var added := InclMarks(RowOfSlot(chain, slotsPerEpoch), Incls(blocks, blocks.Keys));
            Marks(old(t.rows)) <= Marks(t.rows) <= Marks(old(t.rows)) + added &&
            (ok ==> Marks(t.rows) == Marks(old(t.rows)) + added)
    ensures ok <==> CanSaveInclusions(chain, slotsPerEpoch, blocks, applyFails)
    ensures ok <==> VoteRowsWork(chain, slotsPerEpoch, blocks, applyFails)
    ensures Added(Marks(old(t.rows)), Marks(t.rows), ok, m => IncludesCell(chain, slotsPerEpoch, blocks, m))
  {
    CanSaveVotes(chain, slotsPerEpoch, blocks, applyFails);
    ghost var before := Marks(t.rows);
    var m := FirstInclusions(blocks);
    var groups := BuildGroups(m);
    var keyOf := RowOfSlot(chain, slotsPerEpoch);
    InclGroupMarks(keyOf, m, Incls(blocks, blocks.Keys), groups);
    AttestedSlots(m, Incls(blocks, blocks.Keys));
    ghost var done;
    ok, done := SaveGroups(t, keyOf, groups, applyFails);
    GroupMarksMonotone(keyOf, groups, done, groups.Keys);
    InclusionsAdded(chain, slotsPerEpoch, blocks, before, Marks(t.rows), ok);
  }
}
