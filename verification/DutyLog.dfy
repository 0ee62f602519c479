/** Everything the explorer ever learned about attestation duties, as a log of writer calls,
    and what that log leaves in the table whatever its order, repetition and batching. */
module DutyLog {
  import opened Bytes
  import opened Words
  import opened Decimal
  import opened KeyCodec
  import opened Bigtable
  import opened Extremes
  import opened AttestationCells
  import opened DutyWindow

  /** A call of SaveAttestationAssignments, a call of SaveAttestations, or any other row
      written to the same table (proposals, balances, sync duties): those use other column
      families. */
  datatype Event =
    | Assign(epoch: u64, assignments: map<Key, u64>)
    | Include(blocks: Blocks)
    | Elsewhere(key: Key, ops: Mutation<Key>)

  ghost function EventMarks(chain: Key, slotsPerEpoch: u64, ev: Event): set<Mark>
    requires slotsPerEpoch >= 1
  {
    match ev
    case Assign(epoch, assignments) => AssignMarks(RowOfEpoch(chain, epoch), AssignedPairs(assignments))
    case Include(blocks) => InclMarks(RowOfSlot(chain, slotsPerEpoch), Incls(blocks, blocks.Keys))
    case Elsewhere(key, ops) => OpMarks(key, ops)
  }

  ghost predicate ValidAssignment(slotsPerEpoch: u64, epoch: u64, pairs: set<Pair>)
    requires slotsPerEpoch >= 1
  {
    forall p: Pair :: p in pairs ==> p.slot < MAX_NUMBER && EpochOf(slotsPerEpoch, p.slot) == epoch
  }

  ghost predicate ValidInclusions(seen: set<Incl>) {
    forall i: Incl :: i in seen ==> i.attested < MAX_NUMBER && 1 <= i.included < MAX_NUMBER
  }

  ghost predicate OtherFamilies(ops: Mutation<Key>) {
    OnlySets(ops) && forall op: Op<Key> :: op in ops && op.SetCell? ==> op.column.family != ATTESTATIONS
  }

  ghost predicate ValidEvent(slotsPerEpoch: u64, ev: Event)
    requires slotsPerEpoch >= 1
  {
    (ev.Assign? ==> ValidAssignment(slotsPerEpoch, ev.epoch, AssignedPairs(ev.assignments))) &&
    (ev.Include? ==> ValidInclusions(Incls(ev.blocks, ev.blocks.Keys))) &&
    (ev.Elsewhere? ==> OtherFamilies(ev.ops))
  }

  ghost predicate ValidLog(slotsPerEpoch: u64, log: seq<Event>)
    requires slotsPerEpoch >= 1
  {
    forall ev :: ev in log ==> ValidEvent(slotsPerEpoch, ev)
  }

  /** All cells of a log, each call counted as if it had been the only one. */
  ghost function Marked(chain: Key, slotsPerEpoch: u64, log: seq<Event>): set<Mark>
    requires slotsPerEpoch >= 1
  {
    if log == [] then {}
    else Marked(chain, slotsPerEpoch, log[..|log| - 1]) + EventMarks(chain, slotsPerEpoch, log[|log| - 1])
  }

  lemma {:induction false} MarkedMember(chain: Key, slotsPerEpoch: u64, log: seq<Event>, m: Mark)
    requires slotsPerEpoch >= 1
    ensures m in Marked(chain, slotsPerEpoch, log) <==>
            exists ev :: ev in log && m in EventMarks(chain, slotsPerEpoch, ev)
    decreases |log|
  {
    if log != [] {
      var front, last := log[..|log| - 1], log[|log| - 1];
      MarkedMember(chain, slotsPerEpoch, front, m);
      assert log == front + [last];
      assert forall ev :: ev in log <==> ev in front || ev == last;
    }
  }

  // ------------------------------------------------------------------ runs of the writers

  /** A run: one table state before each call and one at the end. A successful call adds
      exactly its cells, a failed one any part of them; that is what the writers promise. */
  ghost predicate Run(chain: Key, slotsPerEpoch: u64, log: seq<Event>, ok: seq<bool>, states: seq<set<Mark>>)
    requires slotsPerEpoch >= 1
  {
    |ok| == |log| && |states| == |log| + 1 && states[0] == {} &&
    forall i :: 0 <= i < |log| ==> Step(EventMarks(chain, slotsPerEpoch, log[i]), ok[i], states[i], states[i + 1])
  }

  ghost predicate Step(added: set<Mark>, ok: bool, before: set<Mark>, after: set<Mark>) {
    before <= after <= before + added && (ok ==> after == before + added)
  }

  /** Every call of the log succeeded at some point of the run, perhaps on a retry. */
  ghost predicate AllSucceeded(log: seq<Event>, ok: seq<bool>)
    requires |ok| == |log|
  {
    forall ev :: ev in log ==> exists j :: 0 <= j < |log| && ok[j] && log[j] == ev
  }

  lemma {:induction false} RunAddsOnlyMarks(chain: Key, slotsPerEpoch: u64, log: seq<Event>, ok: seq<bool>,
                                            states: seq<set<Mark>>, n: nat)
    requires slotsPerEpoch >= 1 && Run(chain, slotsPerEpoch, log, ok, states) && n <= |log|
    ensures states[n] <= Marked(chain, slotsPerEpoch, log[..n])
  {
    if n > 0 {
      RunAddsOnlyMarks(chain, slotsPerEpoch, log, ok, states, n - 1);
      assert log[..n][..n - 1] == log[..n - 1];
      assert Step(EventMarks(chain, slotsPerEpoch, log[n - 1]), ok[n - 1], states[n - 1], states[n]);
    }
  }

  lemma {:induction false} RunKeepsMarks(chain: Key, slotsPerEpoch: u64, log: seq<Event>, ok: seq<bool>,
                                         states: seq<set<Mark>>, j: nat, n: nat)
    requires slotsPerEpoch >= 1 && Run(chain, slotsPerEpoch, log, ok, states) && j < n <= |log| && ok[j]
    ensures EventMarks(chain, slotsPerEpoch, log[j]) <= states[n]
    decreases n
  {
    assert Step(EventMarks(chain, slotsPerEpoch, log[n - 1]), ok[n - 1], states[n - 1], states[n]);
    if j < n - 1 { RunKeepsMarks(chain, slotsPerEpoch, log, ok, states, j, n - 1); }
  }

  /** After any run in which every call went through at least once, the table holds the
      cells of the log's calls: failures, repetitions and order have left no trace. */
  lemma RunLeavesMarks(chain: Key, slotsPerEpoch: u64, log: seq<Event>, ok: seq<bool>, states: seq<set<Mark>>)
    requires slotsPerEpoch >= 1 && Run(chain, slotsPerEpoch, log, ok, states) && AllSucceeded(log, ok)
    ensures states[|log|] == Marked(chain, slotsPerEpoch, log)
  {
    RunAddsOnlyMarks(chain, slotsPerEpoch, log, ok, states, |log|);
    assert log[..|log|] == log;
    forall m | m in Marked(chain, slotsPerEpoch, log) ensures m in states[|log|] {
      MarkedMember(chain, slotsPerEpoch, log, m);
      var ev :| ev in log && m in EventMarks(chain, slotsPerEpoch, ev);
      var j :| 0 <= j < |log| && ok[j] && log[j] == ev;
      RunKeepsMarks(chain, slotsPerEpoch, log, ok, states, j, |log|);
    }
  }

  /** Two complete runs over the same calls end in the same table. */
  lemma OrderIndependent(chain: Key, slotsPerEpoch: u64, a: seq<Event>, okA: seq<bool>, statesA: seq<set<Mark>>,
                         b: seq<Event>, okB: seq<bool>, statesB: seq<set<Mark>>)
    requires slotsPerEpoch >= 1
    requires Run(chain, slotsPerEpoch, a, okA, statesA) && AllSucceeded(a, okA)
    requires Run(chain, slotsPerEpoch, b, okB, statesB) && AllSucceeded(b, okB)
    requires forall ev :: ev in a <==> ev in b
    ensures statesA[|a|] == statesB[|b|]
  {
    RunLeavesMarks(chain, slotsPerEpoch, a, okA, statesA);
    RunLeavesMarks(chain, slotsPerEpoch, b, okB, statesB);
    forall m ensures m in statesA[|a|] <==> m in statesB[|b|] {
      MarkedMember(chain, slotsPerEpoch, a, m);
      MarkedMember(chain, slotsPerEpoch, b, m);
    }
  }

  /** A call succeeds exactly when every row it writes can be written. */
  ghost predicate CanRun(chain: Key, slotsPerEpoch: u64, ev: Event, applyFails: Key -> bool)
    requires slotsPerEpoch >= 1
  {
    match ev
    case Assign(epoch, assignments) => CanSaveAssignments(chain, epoch, assignments, applyFails)
    case Include(blocks) => CanSaveInclusions(chain, slotsPerEpoch, blocks, applyFails)
    case Elsewhere(key, ops) => !applyFails(key)
  }

  /** One call of a writer, with any of its Apply calls failing. */
  method RunEvent(t: Table<Key>, chain: Key, slotsPerEpoch: u64, ev: Event, applyFails: Key -> bool) returns (ok: bool)
    requires slotsPerEpoch >= 1 && ValidEvent(slotsPerEpoch, ev) && NoEmptyColumns(t.rows)
    modifies t
    ensures NoEmptyColumns(t.rows)
    ensures Step(EventMarks(chain, slotsPerEpoch, ev), ok, Marks(old(t.rows)), Marks(t.rows))
    ensures ok <==> CanRun(chain, slotsPerEpoch, ev, applyFails)
  {
    match ev
    case Assign(epoch, assignments) =>
      ok := SaveAttestationAssignments(t, chain, epoch, assignments, applyFails);
    case Include(blocks) =>
      ok := SaveAttestations(t, chain, slotsPerEpoch, blocks, applyFails);
    case Elsewhere(key, ops) =>
      if applyFails(key) {
        return false;
      }
      WriteAddsMarks(t.rows, key, ops);
      t.Apply(key, ops);
      ok := true;
  }

  /** Which calls of a log succeed. */
  ghost predicate SucceededAsTheyCan(chain: Key, slotsPerEpoch: u64, log: seq<Event>, applyFails: nat -> Key -> bool, ok: seq<bool>)
    requires slotsPerEpoch >= 1
  {
    |ok| == |log| &&
    forall i :: 0 <= i < |log| ==> (ok[i] <==> CanRun(chain, slotsPerEpoch, log[i], applyFails(i)))
  }

  /** Any sequence of writer calls on an empty table, with any failures, is a run. */
  method RunLog(t: Table<Key>, chain: Key, slotsPerEpoch: u64, log: seq<Event>, applyFails: nat -> Key -> bool)
    returns (ok: seq<bool>, ghost states: seq<set<Mark>>)
    requires slotsPerEpoch >= 1 && ValidLog(slotsPerEpoch, log) && t.rows == map[]
    modifies t
    ensures Run(chain, slotsPerEpoch, log, ok, states)
    ensures NoEmptyColumns(t.rows) && Marks(t.rows) == states[|log|]
    ensures SucceededAsTheyCan(chain, slotsPerEpoch, log, applyFails, ok)
  {
    ok, states := [], [Marks(t.rows)];
    for n := 0 to |log|
      invariant NoEmptyColumns(t.rows)
      invariant RanTo(chain, slotsPerEpoch, log, n, ok, states, Marks(t.rows))
      invariant forall i :: 0 <= i < n ==> (ok[i] <==> CanRun(chain, slotsPerEpoch, log[i], applyFails(i)))
    {
      assert log[n] in log;
      var good := RunEvent(t, chain, slotsPerEpoch, log[n], applyFails(n));
      OneMoreRan(chain, slotsPerEpoch, log, n, ok, states, good, Marks(t.rows));
      ok, states := ok + [good], states + [Marks(t.rows)];
    }
    assert log[..|log|] == log;
  }

  /** The first n calls were a run, and these are the cells they left. */
  ghost predicate RanTo(chain: Key, slotsPerEpoch: u64, log: seq<Event>, n: nat, ok: seq<bool>, states: seq<set<Mark>>,
                        marks: set<Mark>)
    requires slotsPerEpoch >= 1 && n <= |log|
  {
    Run(chain, slotsPerEpoch, log[..n], ok, states) && marks == states[n]
  }

  lemma OneMoreRan(chain: Key, slotsPerEpoch: u64, log: seq<Event>, n: nat, ok: seq<bool>, states: seq<set<Mark>>,
                   good: bool, after: set<Mark>)
    requires slotsPerEpoch >= 1 && n < |log| && |states| == n + 1
    requires RanTo(chain, slotsPerEpoch, log, n, ok, states, states[n])
    requires Step(EventMarks(chain, slotsPerEpoch, log[n]), good, states[n], after)
    ensures RanTo(chain, slotsPerEpoch, log, n + 1, ok + [good], states + [after], after)
  {}

  // --------------------------------------------------------------------- duties of the log

  ghost predicate Assigned(log: seq<Event>, slot: u64, v: u64) {
    exists ev :: ev in log && ev.Assign? && Pair(slot, v) in AssignedPairs(ev.assignments)
  }

  ghost predicate SeenIn(log: seq<Event>, slot: u64, v: u64, included: u64) {
    exists ev :: ev in log && ev.Include? && Incl(slot, v, included) in Incls(ev.blocks, ev.blocks.Keys)
  }

  /** All slots in which a vote was included, over all batches. */
  ghost function Inclusions(log: seq<Event>, slot: u64, v: u64): set<nat> {
    set n: nat | n < MAX_NUMBER && SeenIn(log, slot, v, n)
  }

  ghost predicate HasDuty(log: seq<Event>, slot: u64, v: u64) {
    Assigned(log, slot, v) || Inclusions(log, slot, v) != {}
  }

  /** The cell the reader must find: the earliest inclusion, or timestamp 0. */
  ghost function DutyTs(log: seq<Event>, slot: u64, v: u64): nat {
    if Inclusions(log, slot, v) == {} then 0 else (MAX_NUMBER - MinOf(Inclusions(log, slot, v))) * 1000
  }

  lemma RowOfSlotInjective(chain: Key, slotsPerEpoch: u64, s: u64, t: u64)
    requires Free(chain, COLON) && slotsPerEpoch >= 1
    requires RowOfSlot(chain, slotsPerEpoch)(s) == RowOfSlot(chain, slotsPerEpoch)(t)
    ensures s == t
  {
    SlotReadBack(chain, EpochOf(slotsPerEpoch, s), s);
    SlotReadBack(chain, EpochOf(slotsPerEpoch, t), t);
  }

  lemma ColumnInjective(v: u64, w: u64)
    requires ValidatorColumn(v) == ValidatorColumn(w)
    ensures v == w
  {
    PadInjective(v, w, 1);
  }

  /** Where the cell of an assignment lies, and whose it is. */
  lemma AssignedMark(chain: Key, slotsPerEpoch: u64, ev: Event, m: Mark)
    requires slotsPerEpoch >= 1 && ev.Assign? && ValidEvent(slotsPerEpoch, ev)
    ensures m in EventMarks(chain, slotsPerEpoch, ev) <==>
            exists p: Pair :: p in AssignedPairs(ev.assignments) && m == AssignMark(RowOfSlot(chain, slotsPerEpoch), p)
  {
    var pairs := AssignedPairs(ev.assignments);
    forall p: Pair | p in pairs
      ensures AssignMark(RowOfEpoch(chain, ev.epoch), p) == AssignMark(RowOfSlot(chain, slotsPerEpoch), p) {
      assert EpochOf(slotsPerEpoch, p.slot) == ev.epoch;
    }
  }

  /** A cell stems from a duty of the log. */
  ghost predicate Stems(keyOf: u64 -> Key, log: seq<Event>, m: Mark, slot: u64, v: u64) {
    slot < MAX_NUMBER && m.key == keyOf(slot) && m.column == ValidatorColumn(v) &&
    ((m.ts == 0 && Assigned(log, slot, v)) ||
     exists n :: n in Inclusions(log, slot, v) && m.ts == (MAX_NUMBER - n) * 1000)
  }

  lemma InclusionOrigin(keyOf: u64 -> Key, slotsPerEpoch: u64, log: seq<Event>, ev: Event, i: Incl)
    requires slotsPerEpoch >= 1 && ValidEvent(slotsPerEpoch, ev) && ev in log && ev.Include?
    requires i in Incls(ev.blocks, ev.blocks.Keys)
    ensures Stems(keyOf, log, InclMark(keyOf, i), i.attested, i.validator)
  {
    assert Incl(i.attested, i.validator, i.included) == i;
    assert SeenIn(log, i.attested, i.validator, i.included);
    assert (i.included as nat) in Inclusions(log, i.attested, i.validator);
  }

  lemma AssignmentOrigin(keyOf: u64 -> Key, slotsPerEpoch: u64, log: seq<Event>, ev: Event, p: Pair)
    requires slotsPerEpoch >= 1 && ValidEvent(slotsPerEpoch, ev) && ev in log && ev.Assign?
    requires p in AssignedPairs(ev.assignments)
    ensures Stems(keyOf, log, AssignMark(keyOf, p), p.slot, p.validator)
  {
    assert Pair(p.slot, p.validator) == p;
    assert Assigned(log, p.slot, p.validator);
  }

  /** Every attestation cell of a valid log belongs to a slot and a validator of the log. */
  lemma MarkOrigin(chain: Key, slotsPerEpoch: u64, log: seq<Event>, m: Mark) returns (slot: u64, v: u64)
    requires slotsPerEpoch >= 1 && ValidLog(slotsPerEpoch, log)
    requires m in Marked(chain, slotsPerEpoch, log) && m.column.family == ATTESTATIONS
    ensures Stems(RowOfSlot(chain, slotsPerEpoch), log, m, slot, v)
  {
    var keyOf := RowOfSlot(chain, slotsPerEpoch);
    MarkedMember(chain, slotsPerEpoch, log, m);
    var ev :| ev in log && m in EventMarks(chain, slotsPerEpoch, ev);
    assert ValidEvent(slotsPerEpoch, ev);
    if ev.Assign? {
      AssignedMark(chain, slotsPerEpoch, ev, m);
      var p: Pair :| p in AssignedPairs(ev.assignments) && m == AssignMark(keyOf, p);
      AssignmentOrigin(keyOf, slotsPerEpoch, log, ev, p);
      slot, v := p.slot, p.validator;
    } else {
      assert ev.Include?;
      var i: Incl :| i in Incls(ev.blocks, ev.blocks.Keys) && m == InclMark(keyOf, i);
      InclusionOrigin(keyOf, slotsPerEpoch, log, ev, i);
      slot, v := i.attested, i.validator;
    }
  }

  /** No cell of a duty is newer than its earliest inclusion. */
  lemma NoNewerCell(chain: Key, slotsPerEpoch: u64, log: seq<Event>, slot: u64, v: u64, ts: nat)
    requires slotsPerEpoch >= 1 && ValidLog(slotsPerEpoch, log) && Free(chain, COLON)
    requires Mark(RowOfSlot(chain, slotsPerEpoch)(slot), ValidatorColumn(v), ts) in Marked(chain, slotsPerEpoch, log)
    ensures HasDuty(log, slot, v) && ts <= DutyTs(log, slot, v)
  {
    var m := Mark(RowOfSlot(chain, slotsPerEpoch)(slot), ValidatorColumn(v), ts);
    var s, w := MarkOrigin(chain, slotsPerEpoch, log, m);
    RowOfSlotInjective(chain, slotsPerEpoch, slot, s);
    ColumnInjective(v, w);
  }

  /** The earliest inclusion over all batches was the first one of its own batch. */
  lemma EarliestCell(chain: Key, slotsPerEpoch: u64, log: seq<Event>, slot: u64, v: u64)
    requires slotsPerEpoch >= 1 && ValidLog(slotsPerEpoch, log) && HasDuty(log, slot, v)
    ensures Mark(RowOfSlot(chain, slotsPerEpoch)(slot), ValidatorColumn(v), DutyTs(log, slot, v))
            in Marked(chain, slotsPerEpoch, log)
  {
    var m := Mark(RowOfSlot(chain, slotsPerEpoch)(slot), ValidatorColumn(v), DutyTs(log, slot, v));
    MarkedMember(chain, slotsPerEpoch, log, m);
    if Inclusions(log, slot, v) == {} {
      var ev :| ev in log && ev.Assign? && Pair(slot, v) in AssignedPairs(ev.assignments);
      assert ValidEvent(slotsPerEpoch, ev);
      AssignedMark(chain, slotsPerEpoch, ev, m);
      assert m == AssignMark(RowOfSlot(chain, slotsPerEpoch), Pair(slot, v));
    } else {
      var first := MinOf(Inclusions(log, slot, v));
      var ev :| ev in log && ev.Include? && Incl(slot, v, first) in Incls(ev.blocks, ev.blocks.Keys);
      FirstOfBatch(slotsPerEpoch, log, ev, Incl(slot, v, first));
      assert ValidEvent(slotsPerEpoch, ev);
      assert m == InclMark(RowOfSlot(chain, slotsPerEpoch), Incl(slot, v, first));
    }
  }

  lemma FirstOfBatch(slotsPerEpoch: u64, log: seq<Event>, ev: Event, i: Incl)
    requires slotsPerEpoch >= 1 && ValidLog(slotsPerEpoch, log) && ev in log && ev.Include?
    requires i in Incls(ev.blocks, ev.blocks.Keys)
    requires forall n :: n in Inclusions(log, i.attested, i.validator) ==> i.included <= n
    ensures IsFirst(i, Incls(ev.blocks, ev.blocks.Keys))
  {
    var seen := Incls(ev.blocks, ev.blocks.Keys);
    assert ValidEvent(slotsPerEpoch, ev);
    forall j: Incl | j in seen && j.attested == i.attested && j.validator == i.validator
      ensures i.included <= j.included
    {
      assert SeenIn(log, j.attested, j.validator, j.included) by {
        assert Incl(j.attested, j.validator, j.included) == j;
      }
      assert (j.included as nat) in Inclusions(log, i.attested, i.validator);
    }
  }
}
