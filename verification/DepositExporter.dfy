/** The loop that follows the deposit contract: which block range it asks for next, and why
    no block is ever skipped across failures, head movements and restarts. */
module DepositExporter {
  import opened Words
  import opened Extremes

  const LOOK_BACK: u64 := 100
  const MAX_FETCH: u64 := 1000

  /** A deposit log; the table is keyed by transaction and tree index. */
  datatype DepositId = DepositId(txHash: nat, treeIndex: nat)
  datatype Deposit = Deposit(id: DepositId, block: u64)
  type Deposits = map<DepositId, u64>

  datatype Fetch = Logs(deposits: seq<Deposit>) | TooManyResults | FetchError
  datatype Range = Range(from: u64, to: u64)

  /** What one round meets outside. */
  datatype Env = Env(dbFails: bool, headFails: bool, head: u64, fetch: Range -> Fetch, saveFails: bool)

  /** A node returns logs of the requested blocks only, and none for an inverted range. */
  ghost predicate HonestNode(env: Env) {
    forall r, i :: env.fetch(r).Logs? && 0 <= i < |env.fetch(r).deposits| ==>
      r.from <= env.fetch(r).deposits[i].block <= r.to
  }

  ghost predicate IsLastDeposit(d: Deposits, last: u64) {
    (forall k :: k in d ==> d[k] <= last) && (d == map[] ==> last == 0) && (d != map[] ==> last in d.Values)
  }

  /** select coalesce(max(block_number), 0) from eth1_deposits */
  function LastDeposit(d: Deposits): (last: u64)
    ensures IsLastDeposit(d, last)
  {
    if d == map[] then 0
    else
      var blocks: set<nat> := set k | k in d :: d[k];
      assert forall k :: k in d ==> d[k] in blocks;
      var k :| k in d.Keys;
      assert d[k] in blocks;
      MaxOf(blocks)
  }

  function Upsert(d: Deposits, rows: seq<Deposit>): Deposits {
    if rows == [] then d
    else Upsert(d, rows[..|rows| - 1])[rows[|rows| - 1].id := rows[|rows| - 1].block]
  }

  /** Row number i is the last one about its deposit. */
  ghost predicate LastOfItsId(rows: seq<Deposit>, i: nat) {
    i < |rows| && forall j :: i < j < |rows| ==> rows[j].id != rows[i].id
  }

  ghost predicate Mentioned(rows: seq<Deposit>, id: DepositId) {
    exists i :: 0 <= i < |rows| && rows[i].id == id
  }

  /** Every deposit of the answer is in the table with its block, the last one for a repeated
      id, and nothing else has changed. */
  ghost predicate Stored(before: Deposits, rows: seq<Deposit>, after: Deposits) {
    (forall i: nat :: LastOfItsId(rows, i) ==> rows[i].id in after && after[rows[i].id] == rows[i].block) &&
    (forall id :: !Mentioned(rows, id) ==>
       (id in after <==> id in before) && (id in before ==> after[id] == before[id])) &&
    forall id :: Mentioned(rows, id) ==> id in after
  }

  lemma {:induction false} UpsertUnmentioned(d: Deposits, rows: seq<Deposit>, id: DepositId)
    requires !Mentioned(rows, id)
    ensures id in Upsert(d, rows) <==> id in d
    ensures id in d ==> Upsert(d, rows)[id] == d[id]
    decreases |rows|
  {
    if rows != [] {
      var front := rows[..|rows| - 1];
      assert forall i :: 0 <= i < |front| ==> front[i] == rows[i];
      assert rows[|rows| - 1].id != id;
      UpsertUnmentioned(d, front, id);
    }
  }

  lemma {:induction false} UpsertLast(d: Deposits, rows: seq<Deposit>, i: nat)
    requires LastOfItsId(rows, i)
    ensures rows[i].id in Upsert(d, rows) && Upsert(d, rows)[rows[i].id] == rows[i].block
    decreases |rows|
  {
    var front := rows[..|rows| - 1];
    if i < |front| {
      assert rows[|rows| - 1].id != rows[i].id;
      assert forall j :: 0 <= j < |front| ==> front[j] == rows[j];
      UpsertLast(d, front, i);
    }
  }

  lemma {:induction false} LastMention(rows: seq<Deposit>, id: DepositId) returns (i: nat)
    requires Mentioned(rows, id)
    ensures LastOfItsId(rows, i) && rows[i].id == id
    decreases |rows|
  {
    var n := |rows| - 1;
    if rows[n].id == id {
      i := n;
    } else {
      var front := rows[..n];
      var j :| 0 <= j < |rows| && rows[j].id == id;
      assert front[j].id == id;
      i := LastMention(front, id);
    }
  }

  lemma UpsertStores(d: Deposits, rows: seq<Deposit>)
    ensures Stored(d, rows, Upsert(d, rows))
  {
    forall i: nat | LastOfItsId(rows, i)
      ensures rows[i].id in Upsert(d, rows) && Upsert(d, rows)[rows[i].id] == rows[i].block
    {
      UpsertLast(d, rows, i);
    }
    forall id | !Mentioned(rows, id)
      ensures (id in Upsert(d, rows) <==> id in d) && (id in d ==> Upsert(d, rows)[id] == d[id])
    {
      UpsertUnmentioned(d, rows, id);
    }
    forall id | Mentioned(rows, id) ensures id in Upsert(d, rows) {
      var i := LastMention(rows, id);
      UpsertLast(d, rows, i);
    }
  }

  /** The statements of saveEth1Deposits inside their transaction, one per deposit. */
  method UpsertAll(d: Deposits, rows: seq<Deposit>) returns (table: Deposits)
    ensures table == Upsert(d, rows) && Stored(d, rows, table)
  {
    table := d;
    for i := 0 to |rows|
      invariant table == Upsert(d, rows[..i])
    {
      assert rows[..i + 1][..i] == rows[..i];
      table := table[rows[i].id := rows[i].block];
    }
    assert rows[..|rows|] == rows;
    UpsertStores(d, rows);
  }

  lemma {:induction false} UpsertBound(d: Deposits, rows: seq<Deposit>, bound: u64)
    requires forall k :: k in d ==> d[k] <= bound
    requires forall i :: 0 <= i < |rows| ==> rows[i].block <= bound
    ensures forall k :: k in Upsert(d, rows) ==> Upsert(d, rows)[k] <= bound
    decreases |rows|
  {
    if rows != [] { UpsertBound(d, rows[..|rows| - 1], bound); }
  }

  // ---------------------------------------------------------------- range choice

  function Max(a: u64, b: u64): u64 {
    if a > b then a else b
  }

  /** Where the next range starts before any look-back. */
  function Resume(first: u64, lastDeposit: u64, lastFetched: u64): u64 {
    Max(Max(Add64(lastDeposit, 1), first), Add64(lastFetched, 1))
  }

  /** The range in plain integers, for a start that the head has reached: at most 1001
      blocks, and at least the last 101 when that reaches the head. */
  function Planned(start: u64, head: u64): Range
    requires start <= head
  {
    var to := if head - start > MAX_FETCH then start + 1000 else head;
    Range(if to - start < LOOK_BACK && to > LOOK_BACK then to - LOOK_BACK else start, to)
  }

  /** A start beyond the head yields an inverted range that ends at or below the head. */
  function Inverted(start: u64, head: u64): Range
    requires start > head
  {
    Range(start, if start + 1000 < TWO64 || head < start + 1000 - TWO64 then head else start + 1000 - TWO64)
  }

  function Chosen(first: u64, lastDeposit: u64, lastFetched: u64, head: u64): Range {
    var start := Resume(first, lastDeposit, lastFetched);
    if start <= head then Planned(start, head) else Inverted(start, head)
  }

  /** The next block nobody has asked for: behind the newest deposit and the newest fetched
      block, and not before the contract's first. */
  ghost predicate StartsAt(first: u64, lastDeposit: u64, lastFetched: u64, start: u64) {
    start >= first && start > lastDeposit && start > lastFetched &&
    (start == first || start == lastDeposit + 1 || start == lastFetched + 1)
  }

  /** At most 1000 blocks beyond the start, and at least the last 100 of the chain. */
  ghost predicate Plans(start: u64, head: u64, r: Range) {
    (start <= head ==>
       r.to == (if head > start + 1000 then start + 1000 else head) &&
       r.from == (if r.to - start < 100 && r.to > 100 then r.to - 100 else start)) &&
    (head < start < 18_446_744_073_709_550_616 ==> r == Range(start, head))
  }

  ghost predicate PlansFrom(first: u64, lastDeposit: u64, lastFetched: u64, head: u64, r: Range) {
    forall start: u64 :: StartsAt(first, lastDeposit, lastFetched, start) ==> Plans(start, head, r)
  }

  lemma ChosenAsPlanned(first: u64, lastDeposit: u64, lastFetched: u64, head: u64)
    ensures PlansFrom(first, lastDeposit, lastFetched, head, Chosen(first, lastDeposit, lastFetched, head))
  {
    forall start: u64 | StartsAt(first, lastDeposit, lastFetched, start)
      ensures Plans(start, head, Chosen(first, lastDeposit, lastFetched, head))
    {
      assert start == Resume(first, lastDeposit, lastFetched);
    }
  }

  /** fromBlock and toBlock, computed in 64-bit words as the loop does. The wrapping
      subtraction never shows: the result is the plain-integer range. */
  method ChooseRange(first: u64, lastDeposit: u64, lastFetched: u64, head: u64) returns (r: Range)
    ensures r == Chosen(first, lastDeposit, lastFetched, head)
    ensures PlansFrom(first, lastDeposit, lastFetched, head, r)
  {
    var from := Add64(lastDeposit, 1);
    var to := head;
    if from < first {
      from := first;
    }
    if from < Add64(lastFetched, 1) {
      from := Add64(lastFetched, 1);
    }
    if Sub64(to, from) > MAX_FETCH {
      to := Add64(from, 1000);
    }
    if to > head {
      to := head;
    }
    if Sub64(to, from) < LOOK_BACK && to > LOOK_BACK {
      from := Sub64(to, LOOK_BACK);
    }
    r := Range(from, to);
    ChosenAsPlanned(first, lastDeposit, lastFetched, head);
  }

  function Narrowed(r: Range, head: u64): Range {
    Range(r.from, if Add64(r.from, 100) > head then head else Add64(r.from, 100))
  }

  /** The range after a node refused it for too many results: 101 blocks, or up to the head. */
  method NarrowRange(r: Range, head: u64) returns (n: Range)
    ensures n == Narrowed(r, head) && n.to <= head
    ensures r.from + 100 < TWO64 ==> n.to == if r.from + 100 > head then head else r.from + 100
  {
    var to := Add64(r.from, 100);
    if to > head {
      to := head;
    }
    n := Range(r.from, to);
  }

  // ------------------------------------------------------------------- the exporter

  /** What survives a round: the progress variable, the table, and (for the proof) the
      ranges that were saved. */
  datatype World = World(lastFetched: u64, deposits: Deposits, saved: set<Range>)

  ghost predicate Covered(saved: set<Range>, b: u64) {
    exists r :: r in saved && r.from <= b <= r.to
  }

  /** Every block up to the newest fetched or deposited one was in a saved range. */
  ghost predicate NoGap(first: u64, w: World) {
    forall b: u64 :: first <= b && (b <= w.lastFetched || exists k :: k in w.deposits && b <= w.deposits[k]) ==>
      Covered(w.saved, b)
  }

  /** A successful round with its range, its logs and the last deposit it started from: the
      range joins what was there, ends at or below the head, and makes progress. */
  ghost predicate Saves(first: u64, v: World, w: World, head: u64, r: Range, rows: seq<Deposit>, last: u64) {
    IsLastDeposit(v.deposits, last) &&
    w == World(r.to, Upsert(v.deposits, rows), v.saved + {r}) && r.to <= head &&
    (forall i :: 0 <= i < |rows| ==> r.from <= rows[i].block <= r.to) &&
    (forall b: u64 :: first <= b < r.from ==> DoneBefore(v, last, b)) &&
    Progress(Resume(first, last, v.lastFetched), head, r.to)
  }

  ghost predicate DoneBefore(v: World, last: u64, b: u64) {
    b <= v.lastFetched || b <= last
  }

  /** Reach the head or cover 101 more blocks; stay at the head once it is reached. (Within
      a thousand blocks of the end of the 64-bit range the additions themselves wrap.) */
  ghost predicate Progress(start: u64, head: u64, to: u64) {
    start < TWO64 - 1000 && head < TWO64 - 1000 ==>
      if start <= head then to == head || to >= start + 100 else to == head
  }

  /** What the node finally answers: to the chosen range, or after a refusal to the narrow one. */
  function Answered(env: Env, r: Range): Fetch {
    if env.fetch(r).TooManyResults? then env.fetch(Narrowed(r, env.head)) else env.fetch(r)
  }

  /** A round succeeds exactly when database, head, node and save do. */
  ghost predicate CanRound(first: u64, w: World, env: Env) {
    !env.dbFails && !env.headFails && !env.saveFails &&
    Answered(env, Chosen(first, LastDeposit(w.deposits), w.lastFetched, env.head)).Logs?
  }

  ghost predicate Succeeds(first: u64, v: World, w: World, head: u64) {
    exists r, rows, last :: Saves(first, v, w, head, r, rows, last)
  }

  /** The answer holds exactly the deposits of the contract's log in a range. */
  ghost predicate AllLogs(log: set<Deposit>, r: Range, rows: seq<Deposit>) {
    forall d: Deposit :: d in rows <==> d in log && r.from <= d.block <= r.to
  }

  /** A node that answers with all logs of a range, or not at all. */
  ghost predicate CompleteNode(env: Env, log: set<Deposit>) {
    forall r :: env.fetch(r).Logs? ==> AllLogs(log, r, env.fetch(r).deposits)
  }

  ghost predicate SucceedsFrom(first: u64, log: set<Deposit>, v: World, w: World, head: u64) {
    exists r, rows, last :: Saves(first, v, w, head, r, rows, last) && AllLogs(log, r, rows)
  }

  /** The range asked for: the planned one, or 100 blocks on from its start when the node
      refuses that. */
  ghost predicate AskedFor(env: Env, planned: Range, r: Range) {
    if env.fetch(planned).TooManyResults? then
      r.from == planned.from &&
      (r.from + 100 < 18_446_744_073_709_551_616 ==> r.to == if r.from + 100 > env.head then env.head else r.from + 100)
    else r == planned
  }

  /** The node's answer to that range is what the table has taken over. */
  ghost predicate TakesOver(first: u64, env: Env, v: World, w: World, last: u64, planned: Range, r: Range, rows: seq<Deposit>) {
    IsLastDeposit(v.deposits, last) && PlansFrom(first, last, v.lastFetched, env.head, planned) && AskedFor(env, planned, r) &&
    env.fetch(r) == Logs(rows) && w.lastFetched == r.to && Stored(v.deposits, rows, w.deposits)
  }

  ghost predicate TookOver(first: u64, env: Env, v: World, w: World) {
    exists last: u64, planned: Range, r: Range, rows: seq<Deposit> :: TakesOver(first, env, v, w, last, planned, r, rows)
  }

  class Exporter {
    const firstBlock: u64
    var lastFetchedBlock: u64
    var deposits: Deposits
    ghost var saved: set<Range>

    ghost function State(): World
      reads this
    {
      World(lastFetchedBlock, deposits, saved)
    }

    /** A start or restart of the process: the table survives, the progress variable does not. */
    constructor (first: u64, table: Deposits, ghost history: set<Range>)
      ensures firstBlock == first && State() == World(0, table, history)
    {
      firstBlock, lastFetchedBlock, deposits, saved := first, 0, table, history;
    }

    /** One round of eth1DepositsExporter. */
    method Round(env: Env) returns (ok: bool)
      requires HonestNode(env)
      modifies this`lastFetchedBlock, this`deposits, this`saved
      ensures ok <==> CanRound(firstBlock, old(State()), env)
      ensures !ok ==> State() == old(State())
      ensures ok ==> Succeeds(firstBlock, old(State()), State(), env.head)
      ensures ok ==> TookOver(firstBlock, env, old(State()), State())
      ensures ok ==> forall log :: CompleteNode(env, log) ==> SucceedsFrom(firstBlock, log, old(State()), State(), env.head)
    {
      ghost var before := State();
      if env.dbFails || env.headFails {
        return false;
      }
      var last := LastDeposit(deposits);
      var r := ChooseRange(firstBlock, last, lastFetchedBlock, env.head);
      ghost var planned := r;
      var reply := env.fetch(r);
      if reply.TooManyResults? {
        r := NarrowRange(r, env.head);
        reply := env.fetch(r);
      }
      if !reply.Logs? {
        return false;
      }
      if env.saveFails {
        return false;
      }
      deposits := UpsertAll(deposits, reply.deposits);
      lastFetchedBlock := r.to;
      saved := saved + {r};
      ok := true;
      assert TakesOver(firstBlock, env, before, State(), last, planned, r, reply.deposits);
      assert forall b: u64 :: firstBlock <= b < r.from ==> DoneBefore(before, last, b);
      assert Progress(Resume(firstBlock, last, before.lastFetched), env.head, r.to);
      assert Saves(firstBlock, before, State(), env.head, r, reply.deposits, last);
    }
  }

  // --------------------------------------------------------------------- whole runs

  lemma DoneWasCovered(first: u64, v: World, last: u64, b: u64)
    requires NoGap(first, v) && IsLastDeposit(v.deposits, last) && first <= b && DoneBefore(v, last, b)
    ensures Covered(v.saved, b)
  {
    if b > v.lastFetched {
      assert v.deposits != map[];
      var k :| k in v.deposits && v.deposits[k] == last;
      assert b <= v.deposits[k];
    }
  }

  lemma SuccessKeepsNoGap(first: u64, v: World, w: World, head: u64)
    requires NoGap(first, v) && Succeeds(first, v, w, head)
    ensures NoGap(first, w)
  {
    var r, rows, last :| Saves(first, v, w, head, r, rows, last);
    UpsertBound(v.deposits, rows, Max(last, r.to));
    forall b: u64 | first <= b && (b <= w.lastFetched || exists k :: k in w.deposits && b <= w.deposits[k])
      ensures Covered(w.saved, b)
    {
      assert b <= Max(last, r.to);
      assert b < r.from ==> DoneBefore(v, last, b);
      assert b > r.to ==> DoneBefore(v, last, b);
      if r.from <= b <= r.to {
        assert r in w.saved;
      } else {
        DoneWasCovered(first, v, last, b);
        var q :| q in v.saved && q.from <= b <= q.to;
        assert q in w.saved;
      }
    }
  }

  /** A fresh installation starts without a gap exactly when the contract's first block is
      not block zero, which the loop never asks for. */
  lemma FreshStart(first: u64)
    ensures NoGap(first, World(0, map[], {})) <==> first > 0
  {
    if first == 0 {
      assert !Covered({}, 0);
    }
  }

  ghost predicate Next(first: u64, v: World, w: World) {
    w == v || w == v.(lastFetched := 0) || exists head :: Succeeds(first, v, w, head)
  }

  /** No run over arbitrary heads, failures and restarts leaves a gap behind. */
  lemma {:induction false} RunLeavesNoGap(first: u64, run: seq<World>, i: nat)
    requires i < |run| && NoGap(first, run[0])
    requires forall j :: 0 < j < |run| ==> Next(first, run[j - 1], run[j])
    ensures NoGap(first, run[i])
  {
    if i > 0 {
      RunLeavesNoGap(first, run, i - 1);
      var v, w := run[i - 1], run[i];
      assert Next(first, v, w);
      if w != v && w != v.(lastFetched := 0) {
        var head :| Succeeds(first, v, w, head);
        SuccessKeepsNoGap(first, v, w, head);
      }
    }
  }

  /** Each deposit of the log belongs to one id. */
  ghost predicate IdsIdentify(log: set<Deposit>) {
    forall d, e :: d in log && e in log && d.id == e.id ==> d == e
  }

  /** Every deposit of the log in a block that was fetched is in the table. */
  ghost predicate HoldsFetched(log: set<Deposit>, w: World) {
    forall d :: d in log && Covered(w.saved, d.block) ==> d.id in w.deposits && w.deposits[d.id] == d.block
  }

  lemma StoredFromLog(log: set<Deposit>, r: Range, rows: seq<Deposit>, before: Deposits, after: Deposits, d: Deposit)
    requires IdsIdentify(log) && AllLogs(log, r, rows) && Stored(before, rows, after) && d in log
    requires r.from <= d.block <= r.to || (d.id in before && before[d.id] == d.block)
    ensures d.id in after && after[d.id] == d.block
  {
    if Mentioned(rows, d.id) {
      var i := LastMention(rows, d.id);
      assert rows[i] in rows && rows[i] in log;
    } else {
      assert forall i :: 0 <= i < |rows| ==> rows[i].id != d.id;
    }
  }

  lemma RoundHoldsFetched(first: u64, log: set<Deposit>, v: World, w: World, head: u64)
    requires IdsIdentify(log) && HoldsFetched(log, v) && SucceedsFrom(first, log, v, w, head)
    ensures HoldsFetched(log, w)
  {
    var r, rows, last :| Saves(first, v, w, head, r, rows, last) && AllLogs(log, r, rows);
    UpsertStores(v.deposits, rows);
    forall d | d in log && Covered(w.saved, d.block) ensures d.id in w.deposits && w.deposits[d.id] == d.block {
      var q :| q in w.saved && q.from <= d.block <= q.to;
      if q != r { assert Covered(v.saved, d.block); }
      StoredFromLog(log, r, rows, v.deposits, w.deposits, d);
    }
  }

  ghost predicate NextFrom(first: u64, log: set<Deposit>, v: World, w: World) {
    w == v || w == v.(lastFetched := 0) || exists head :: SucceedsFrom(first, log, v, w, head)
  }

  /** No deposit is passed over: while the contract's log stands, every deposit in it, from
      the first block up to the newest fetched or deposited one, is in the table. */
  lemma {:induction false} RunStoresAll(first: u64, log: set<Deposit>, run: seq<World>, i: nat)
    requires i < |run| && NoGap(first, run[0]) && IdsIdentify(log) && HoldsFetched(log, run[0])
    requires forall j :: 0 < j < |run| ==> NextFrom(first, log, run[j - 1], run[j])
    ensures NoGap(first, run[i]) && HoldsFetched(log, run[i])
    ensures forall d :: d in log && first <= d.block <= run[i].lastFetched ==>
              d.id in run[i].deposits && run[i].deposits[d.id] == d.block
  {
    if i > 0 {
      RunStoresAll(first, log, run, i - 1);
      var v, w := run[i - 1], run[i];
      assert NextFrom(first, log, v, w);
      if w != v && w != v.(lastFetched := 0) {
        var head :| SucceedsFrom(first, log, v, w, head);
        RoundHoldsFetched(first, log, v, w, head);
        assert Succeeds(first, v, w, head);
        SuccessKeepsNoGap(first, v, w, head);
      }
    }
  }

  /** With a standing head that has reached the contract's first block, k successful rounds
      reach the head or advance 101 blocks each. */
  lemma {:induction false} CatchesUp(first: u64, run: seq<World>, head: u64, k: nat)
    requires k < |run| && first <= head < TWO64 - 1001 && run[0].lastFetched <= head
    requires forall j :: 0 < j < |run| ==> Succeeds(first, run[j - 1], run[j], head)
    requires forall d :: d in run[0].deposits ==> run[0].deposits[d] <= head
    ensures run[k].lastFetched <= head && forall d :: d in run[k].deposits ==> run[k].deposits[d] <= head
    ensures k > 0 ==> run[k].lastFetched == head || run[k].lastFetched >= run[0].lastFetched + 101 * k
  {
    if k > 0 {
      CatchesUp(first, run, head, k - 1);
      var v, w := run[k - 1], run[k];
      assert Succeeds(first, v, w, head);
      var r, rows, last :| Saves(first, v, w, head, r, rows, last);
      UpsertBound(v.deposits, rows, head);
    }
  }
}
