/** UpdateCanonicalBlocks: demote a range of blocks, then promote the canonical ones, in one
    transaction. */
module CanonicalMarking {
  import opened Bytes
  import opened Words
  import opened Decimal

  const PROPOSED: nat := 1
  const ORPHANED: nat := 3

  /** A row of the blocks table under its primary key. */
  datatype BlockId = BlockId(slot: u64, root: Key)
  datatype Block = Block(epoch: u64, status: nat)
  type Rows = map<BlockId, Block>

  /** What the node reports about one slot. */
  datatype Given = Given(slot: u64, root: Key, canonical: bool)

  datatype Env = Env(beginFails: bool, demoteFails: bool, promoteFails: nat -> bool, commitFails: bool)

  predicate IsCanonical(given: seq<Given>, root: Key) {
    exists i :: 0 <= i < |given| && given[i].canonical && given[i].root == root
  }

  function Highest(given: seq<Given>): (h: u64)
    ensures forall i :: 0 <= i < |given| ==> given[i].slot <= h
    ensures h == 0 || exists i :: 0 <= i < |given| && given[i].slot == h
  {
    if given == [] then 0
    else
      var front, last := given[..|given| - 1], given[|given| - 1];
      assert forall i :: 0 <= i < |front| ==> front[i] == given[i];
      if last.slot > Highest(front) then assert given[|given| - 1].slot == last.slot; last.slot else Highest(front)
  }

  /** The rows the first statement can touch. */
  predicate InReach(id: BlockId, b: Block, startEpoch: u64, endEpoch: u64, given: seq<Given>) {
    startEpoch <= b.epoch <= endEpoch && id.slot <= Highest(given)
  }

  predicate Decided(b: Block) {
    b.status == PROPOSED || b.status == ORPHANED
  }

  /** The status of a row afterwards: given as canonical, demoted, or as before. */
  function StatusAfter(id: BlockId, b: Block, startEpoch: u64, endEpoch: u64, given: seq<Given>): nat {
    if IsCanonical(given, id.root) then PROPOSED
    else if InReach(id, b, startEpoch, endEpoch, given) && Decided(b) then ORPHANED
    else b.status
  }

  function Marked(rows: Rows, startEpoch: u64, endEpoch: u64, given: seq<Given>): Rows {
    map id | id in rows :: rows[id].(status := StatusAfter(id, rows[id], startEpoch, endEpoch, given))
  }

  /** UPDATE blocks SET status = 3 WHERE ... */
  function Demoted(rows: Rows, startEpoch: u64, endEpoch: u64, last: u64): Rows {
    map id | id in rows ::
      if startEpoch <= rows[id].epoch <= endEpoch && Decided(rows[id]) && id.slot <= last
      then rows[id].(status := 3) else rows[id]
  }

  /** UPDATE blocks SET status = '1' WHERE blockroot = ... */
  function Promoted(rows: Rows, root: Key): Rows {
    map id | id in rows :: if id.root == root then rows[id].(status := 1) else rows[id]
  }

  /** The table after the canonical ones among some reports were promoted. */
  ghost predicate PromotedAll(from: Rows, to: Rows, given: seq<Given>) {
    to.Keys == from.Keys &&
    forall id :: id in from ==> to[id] == if IsCanonical(given, id.root) then from[id].(status := 1) else from[id]
  }

  lemma OnePromoted(from: Rows, to: Rows, given: seq<Given>, i: nat)
    requires i < |given| && PromotedAll(from, to, given[..i])
    ensures PromotedAll(from, if given[i].canonical then Promoted(to, given[i].root) else to, given[..i + 1])
  {
    OneMore(given, i);
  }

  lemma DemotedPromoted(rows: Rows, startEpoch: u64, endEpoch: u64, given: seq<Given>, to: Rows)
    requires PromotedAll(Demoted(rows, startEpoch, endEpoch, Highest(given)), to, given)
    ensures to == Marked(rows, startEpoch, endEpoch, given)
  {
    var from := Demoted(rows, startEpoch, endEpoch, Highest(given));
    assert from.Keys == rows.Keys;
    forall id | id in rows ensures to[id] == rows[id].(status := StatusAfter(id, rows[id], startEpoch, endEpoch, given)) {
      assert id in from;
    }
  }

  ghost predicate GivenCanonical(given: seq<Given>, root: Key) {
    exists g :: g in given && g.canonical && g.root == root
  }

  ghost predicate NotAbove(given: seq<Given>, slot: u64) {
    exists g :: g in given && slot <= g.slot
  }

  /** The whole effect of a call, row by row: status 1 for a root reported canonical; else 3 for
      a row of status 1 or 3 in the epochs, not above the highest slot reported; else no
      change. Epochs, and the set of rows, stay. */
  ghost predicate MarksRows(before: Rows, after: Rows, startEpoch: u64, endEpoch: u64, given: seq<Given>) {
    after.Keys == before.Keys &&
    forall id :: id in before ==>
      after[id].epoch == before[id].epoch &&
      after[id].status ==
        if GivenCanonical(given, id.root) then 1
        else if startEpoch <= before[id].epoch <= endEpoch && before[id].status in {1, 3} &&
                NotAbove(given, id.slot)
        then 3 else before[id].status
  }

  lemma MarkedMarksRows(rows: Rows, startEpoch: u64, endEpoch: u64, given: seq<Given>)
    requires given != []
    ensures MarksRows(rows, Marked(rows, startEpoch, endEpoch, given), startEpoch, endEpoch, given)
  {
    forall root ensures IsCanonical(given, root) <==> GivenCanonical(given, root) {
      if i :| 0 <= i < |given| && given[i].canonical && given[i].root == root { assert given[i] in given; }
    }
    var top := HighestGiven(given);
    assert forall g :: g in given ==> g.slot <= Highest(given);
    assert forall slot: u64 :: slot <= Highest(given) <==> NotAbove(given, slot);
  }

  lemma HighestGiven(given: seq<Given>) returns (g: Given)
    requires given != []
    ensures g in given && g.slot == Highest(given)
  {
    g := given[0];
    if Highest(given) != 0 {
      var i :| 0 <= i < |given| && given[i].slot == Highest(given);
      g := given[i];
    }
  }

  /** No statement that promotes a canonical report fails. */
  predicate PromotesWork(env: Env, given: seq<Given>) {
    forall i :: 0 <= i < |given| && given[i].canonical ==> !env.promoteFails(i)
  }

  class BlocksTable {
    var rows: Rows

    constructor (table: Rows)
      ensures rows == table
    {
      rows := table;
    }

    static method LastSlot(blocks: seq<Given>) returns (last: u64)
      ensures last == Highest(blocks)
    {
      last := 0;
      for i := 0 to |blocks|
        invariant last == Highest(blocks[..i])
      {
        assert blocks[..i + 1][..i] == blocks[..i];
        if blocks[i].slot > last {
          last := blocks[i].slot;
        }
      }
      assert blocks[..|blocks|] == blocks;
    }

    method UpdateCanonicalBlocks(startEpoch: u64, endEpoch: u64, blocks: seq<Given>, env: Env) returns (ok: bool)
      modifies this
      ensures ok <==> blocks == [] ||
                      (!env.beginFails && !env.demoteFails && !env.commitFails && PromotesWork(env, blocks))
      ensures !ok ==> rows == old(rows)
      ensures ok ==> rows == if blocks == [] then old(rows) else Marked(old(rows), startEpoch, endEpoch, blocks)
      ensures ok && blocks != [] ==> MarksRows(old(rows), rows, startEpoch, endEpoch, blocks)
    {
      if |blocks| == 0 {
        return true;
      }
      if env.beginFails {
        return false;
      }
      var last := LastSlot(blocks);
      if env.demoteFails {
        return false;
      }
      var tx := Demoted(rows, startEpoch, endEpoch, last);
      ghost var demoted := tx;
      for i := 0 to |blocks|
        invariant rows == old(rows) && PromotedAll(demoted, tx, blocks[..i])
        invariant PromotesWork(env, blocks[..i])
      {
        OnePromoted(demoted, tx, blocks, i);
        if blocks[i].canonical {
          if env.promoteFails(i) {
            return false;
          }
          tx := Promoted(tx, blocks[i].root);
        }
      }
      assert blocks[..|blocks|] == blocks;
      DemotedPromoted(rows, startEpoch, endEpoch, blocks, tx);
      MarkedMarksRows(rows, startEpoch, endEpoch, blocks);
      if env.commitFails {
        return false;
      }
      rows, ok := tx, true;
    }
  }

  lemma OneMore(given: seq<Given>, i: nat)
    requires i < |given|
    ensures forall root :: IsCanonical(given[..i + 1], root) <==>
                           IsCanonical(given[..i], root) || (given[i].canonical && given[i].root == root)
  {
    forall root ensures IsCanonical(given[..i + 1], root) <==>
                        IsCanonical(given[..i], root) || (given[i].canonical && given[i].root == root)
    {
      var front, longer := given[..i], given[..i + 1];
      assert forall j :: 0 <= j < i ==> front[j] == longer[j];
      assert longer[i] == given[i];
    }
  }

  // ---------------------------------------------------------------- what marking promises

  /** Doing it again changes nothing. */
  lemma MarkingTwice(rows: Rows, startEpoch: u64, endEpoch: u64, given: seq<Given>)
    ensures Marked(Marked(rows, startEpoch, endEpoch, given), startEpoch, endEpoch, given) ==
            Marked(rows, startEpoch, endEpoch, given)
  {}

  /** After a later marking, an earlier one over the same rows has left no trace, exactly
      unless it promoted an undecided (scheduled or missed) row that the later one does not
      know as canonical. */
  lemma LaterMarkingWins(id: BlockId, b: Block, s1: u64, e1: u64, before: seq<Given>, s2: u64, e2: u64, later: seq<Given>)
    requires InReach(id, b, s2, e2, later)
    ensures StatusAfter(id, b.(status := StatusAfter(id, b, s1, e1, before)), s2, e2, later) ==
            StatusAfter(id, b, s2, e2, later) <==>
            Decided(b) || !IsCanonical(before, id.root) || IsCanonical(later, id.root)
  {}

  // ------------------------------------------------------------------ runs of markings

  datatype Marking = Marking(startEpoch: u64, endEpoch: u64, given: seq<Given>)

  /** A row's status after a run of markings; an empty report changes nothing. */
  function StatusOver(id: BlockId, b: Block, ms: seq<Marking>): nat {
    if ms == [] then b.status
    else
      var m, before := ms[|ms| - 1], b.(status := StatusOver(id, b, ms[..|ms| - 1]));
      if m.given == [] then before.status else StatusAfter(id, before, m.startEpoch, m.endEpoch, m.given)
  }

  /** Whether a marking says anything about a row that was proposed or orphaned. */
  predicate Speaks(id: BlockId, b: Block, m: Marking) {
    m.given != [] && (IsCanonical(m.given, id.root) || InReach(id, b, m.startEpoch, m.endEpoch, m.given))
  }

  lemma {:induction false} StaysDecided(id: BlockId, b: Block, ms: seq<Marking>)
    requires Decided(b)
    ensures Decided(b.(status := StatusOver(id, b, ms)))
    decreases |ms|
  {
    if ms != [] { StaysDecided(id, b, ms[..|ms| - 1]); }
  }

  /** The last marking of a run that speaks about a row. */
  function LastWord(id: BlockId, b: Block, ms: seq<Marking>): Option<Marking> {
    if ms == [] then None
    else if Speaks(id, b, ms[|ms| - 1]) then Some(ms[|ms| - 1])
    else LastWord(id, b, ms[..|ms| - 1])
  }

  /** However often its range was marked, the last marking that speaks about a decided row
      settles its status; a row no marking speaks about keeps it. */
  lemma {:induction false} LastWordCounts(id: BlockId, b: Block, ms: seq<Marking>)
    requires Decided(b)
    ensures StatusOver(id, b, ms) ==
            var last := LastWord(id, b, ms);
            if last.None? then b.status
            else if IsCanonical(last.value.given, id.root) then PROPOSED else ORPHANED
    decreases |ms|
  {
    if ms != [] {
      LastWordCounts(id, b, ms[..|ms| - 1]);
      StaysDecided(id, b, ms[..|ms| - 1]);
    }
  }

  // ------------------------------------------------------------------- one per slot

  /** The node names at most one canonical root per slot, and a root belongs to one slot. */
  ghost predicate OnePerSlot(rows: Rows, given: seq<Given>) {
    (forall i, j | 0 <= i < |given| && 0 <= j < |given| && given[i].canonical && given[j].canonical ::
       given[i].slot == given[j].slot ==> given[i].root == given[j].root) &&
    (forall i, id :: 0 <= i < |given| && id in rows && given[i].root == id.root ==> given[i].slot == id.slot)
  }

  /** Every covered slot then has at most one proposed block, and only a canonical one. */
  lemma OneProposedPerSlot(rows: Rows, startEpoch: u64, endEpoch: u64, given: seq<Given>, a: BlockId, b: BlockId)
    requires OnePerSlot(rows, given) && a in rows && b in rows && a.slot == b.slot
    requires InReach(a, rows[a], startEpoch, endEpoch, given) && InReach(b, rows[b], startEpoch, endEpoch, given)
    ensures var after := Marked(rows, startEpoch, endEpoch, given);
            after[a].status == after[b].status == PROPOSED ==> a == b && IsCanonical(given, a.root)
  {
    var after := Marked(rows, startEpoch, endEpoch, given);
    if after[a].status == after[b].status == PROPOSED {
      var i :| 0 <= i < |given| && given[i].canonical && given[i].root == a.root;
      var j :| 0 <= j < |given| && given[j].canonical && given[j].root == b.root;
    }
  }
}
