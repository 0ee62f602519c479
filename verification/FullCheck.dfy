/** The epoch queue of doFullCheck: gap filling, the export loop with its blacklist, and how
    many checks it takes until every epoch up to the head is present. */
module FullCheck {
  import opened Words
  import BlockDiff

  // --------------------------------------------------------------------- the queue

  /** Which epochs the gap logic queues, given the stored epochs and the head: everything
      into an empty table; otherwise the holes between the first and the last stored epoch,
      and the tail from the last one up to a newer head, or else a missing genesis epoch. */
  predicate Queued(stored: set<u64>, head: u64, e: u64) {
    if stored == {} then e <= head
    else
      (First(stored) < e < Last(stored) && e !in stored) ||
      (if Last(stored) < head then Last(stored) <= e <= head else e == 0 && First(stored) != 0)
  }

  /** What the gap logic is for, on the sorted list of stored epochs: everything up to the head
      for an empty list; else what is not stored between its ends; and, when the head is newer
      than the last one, that one again and all that follow, or else epoch 0 when it is not
      stored. */
  ghost predicate MissingOrLast(epochs: seq<u64>, head: u64, e: u64) {
    var n := |epochs|;
    if n == 0 then e <= head
    else
      (epochs[0] < e < epochs[n - 1] && e !in epochs) || (epochs[n - 1] < head && epochs[n - 1] <= e <= head) ||
      (epochs[n - 1] >= head && e == 0 && 0 !in epochs)
  }

  lemma MissingMeans(epochs: seq<u64>, head: u64)
    requires Ascending(epochs)
    ensures forall e: u64 :: Queued(ToSet(epochs), head, e) <==> MissingOrLast(epochs, head, e)
  {
    if epochs != [] {
      StoredEnds(epochs);
      assert 0 !in epochs <==> epochs[0] != 0 by {
        if 0 in epochs {
          var i :| 0 <= i < |epochs| && epochs[i] == 0;
          assert i > 0 ==> epochs[0] < epochs[i];
        }
      }
    } else {
      assert ToSet(epochs) == {};
    }
  }

  /** The gap logic as doFullCheck runs it over the sorted list of stored epochs. */
  method QueueMissing(epochs: seq<u64>, head: u64, diff: set<u64>) returns (queue: set<u64>)
    requires Ascending(epochs) && head < TWO64 - 1
    ensures forall e :: e in queue <==> e in diff || Queued(ToSet(epochs), head, e)
    ensures forall e: u64 :: e in queue <==> e in diff || MissingOrLast(epochs, head, e)
  {
    MissingMeans(epochs, head);
    queue := diff;
    var n := |epochs|;
    if n > 0 && epochs[n - 1] < head {
      queue := AddRange(queue, epochs[n - 1], head);
    } else if n > 0 && epochs[0] != 0 {
      queue := queue + {0};
    } else if n == 0 {
      queue := AddRange(queue, 0, head);
    }
    ghost var tail := queue;
    var i := 0;
    while i < n - 1
      invariant 0 <= i && (n > 0 ==> i <= n - 1)
      invariant forall e :: e in queue <==> e in tail || (n > 0 && epochs[0] < e < epochs[i] && e !in epochs[..i])
    {
      var current, next := epochs[i], epochs[i + 1];
      if current != next - 1 {
        queue := AddRange(queue, current + 1, next - 1);
      }
      HoleStep(epochs, i);
      i := i + 1;
    }
    if n > 0 { StoredEnds(epochs); HolesAll(epochs); }
  }

  method AddRange(queue: set<u64>, from: u64, to: u64) returns (r: set<u64>)
    requires to < TWO64 - 1
    ensures forall e :: e in r <==> e in queue || from <= e <= to
  {
    r := queue;
    var i := from;
    while i <= to
      invariant from <= i && (from <= to ==> i <= to + 1) && (from > to ==> i == from)
      invariant forall e :: e in r <==> e in queue || (from <= e < i)
    {
      r := r + {i};
      i := i + 1;
    }
  }

  lemma HoleStep(epochs: seq<u64>, i: nat)
    requires Ascending(epochs) && i + 1 < |epochs|
    ensures forall e :: epochs[0] < e < epochs[i + 1] && e !in epochs[..i + 1] <==>
                        (epochs[0] < e < epochs[i] && e !in epochs[..i]) || epochs[i] < e < epochs[i + 1]
  {
    assert epochs[..i + 1] == epochs[..i] + [epochs[i]];
    assert epochs[0] <= epochs[i];
    var done := epochs[..i + 1];
    forall e | e in done ensures e <= epochs[i] {
      var j :| 0 <= j < |done| && done[j] == e;
    }
  }

  lemma StoredEnds(epochs: seq<u64>)
    requires Ascending(epochs) && epochs != []
    ensures var s := ToSet(epochs); s != {} && First(s) == epochs[0] && Last(s) == epochs[|epochs| - 1]
  {
    var s := ToSet(epochs);
    assert epochs[0] in s && epochs[|epochs| - 1] in s;
    var i :| 0 <= i < |epochs| && epochs[i] == First(s);
    var j :| 0 <= j < |epochs| && epochs[j] == Last(s);
  }

  lemma HolesAll(epochs: seq<u64>)
    requires Ascending(epochs) && epochs != []
    ensures forall e :: e < epochs[|epochs| - 1] ==> (e in epochs <==> e in epochs[..|epochs| - 1])
  {
    var n := |epochs| - 1;
    assert epochs == epochs[..n] + [epochs[n]];
  }

  // --------------------------------------------------------------- the export loop

  /** How one export ends within its check: saved; failed with an error; or accepted while
      the background save has not ended or has failed, which the loop does not learn. */
  datatype Attempt = Saved | Errored | Lost

  datatype State = State(stored: set<u64>, blacklist: map<u64, nat>)

  function Failures(blacklist: map<u64, nat>, e: u64): nat {
    if e in blacklist then blacklist[e] else 0
  }

  predicate Tried(s: State, queue: set<u64>, e: u64) {
    e in queue && Failures(s.blacklist, e) <= 3
  }

  /** What one pass over a queue does to one epoch, whatever happens to the others. */
  ghost predicate Passed(s: State, t: State, queue: set<u64>, attempt: u64 -> Attempt, old_: u64 -> bool) {
    (forall e: u64 :: e in t.stored <==> e in s.stored || (Tried(s, queue, e) && attempt(e) == Saved)) &&
    (forall e: u64 :: Failures(t.blacklist, e) ==
                 Failures(s.blacklist, e) + (if Tried(s, queue, e) && attempt(e) == Errored && old_(e) then 1 else 0))
  }

  /** What the loop body does to the state. */
  function AfterOne(s: State, e: u64, attempt: u64 -> Attempt, old_: u64 -> bool): State {
    if Failures(s.blacklist, e) > 3 then s
    else match attempt(e)
         case Saved => s.(stored := s.stored + {e})
         case Lost => s
         case Errored => if old_(e) then s.(blacklist := s.blacklist[e := Failures(s.blacklist, e) + 1]) else s
  }

  lemma OnePassed(s: State, t: State, keys: seq<u64>, i: nat, attempt: u64 -> Attempt, old_: u64 -> bool)
    requires Ascending(keys) && i < |keys| && Passed(s, t, ToSet(keys[..i]), attempt, old_)
    ensures Passed(s, AfterOne(t, keys[i], attempt, old_), ToSet(keys[..i + 1]), attempt, old_)
  {
    NotYet(keys, i);
    assert keys[..i + 1] == keys[..i] + [keys[i]];
    assert ToSet(keys[..i + 1]) == ToSet(keys[..i]) + {keys[i]};
    assert Failures(t.blacklist, keys[i]) == Failures(s.blacklist, keys[i]);
  }

  /** A pass over a list of epochs, on the raw map of errors: an epoch that has failed at most
      three times is tried, and saved or not as its attempt goes; an error counts when the
      epoch is more than a day old. */
  ghost predicate ExportsEach(s: State, t: State, keys: seq<u64>, attempt: u64 -> Attempt, old_: u64 -> bool) {
    (forall e: u64 :: e in t.stored <==> e in s.stored || (e in keys && attempt(e).Saved? && Patience(s.blacklist, e))) &&
    forall e: u64 ::
      (if e in t.blacklist then t.blacklist[e] else 0) ==
      (if e in s.blacklist then s.blacklist[e] else 0) +
      (if e in keys && attempt(e).Errored? && old_(e) && Patience(s.blacklist, e) then 1 else 0)
  }

  ghost predicate Patience(blacklist: map<u64, nat>, e: u64) {
    e in blacklist ==> blacklist[e] <= 3
  }

  lemma PassedExportsEach(s: State, t: State, keys: seq<u64>, attempt: u64 -> Attempt, old_: u64 -> bool)
    requires Passed(s, t, ToSet(keys), attempt, old_)
    ensures ExportsEach(s, t, keys, attempt, old_)
  {
    forall e: u64
      ensures Tried(s, ToSet(keys), e) <==> e in keys && Patience(s.blacklist, e)
      ensures Failures(t.blacklist, e) == if e in t.blacklist then t.blacklist[e] else 0
      ensures Failures(s.blacklist, e) == if e in s.blacklist then s.blacklist[e] else 0
    {}
  }

  class Checker {
    /** The epochs table. */
    var stored: set<u64>
    /** The process-wide count of errors of epochs older than a day. */
    var epochBlacklist: map<u64, nat>

    ghost function Now(): State
      reads this
    {
      State(stored, epochBlacklist)
    }

    constructor (table: set<u64>)
      ensures Now() == State(table, map[])
    {
      stored, epochBlacklist := table, map[];
    }

    /** One epoch of the sorted queue. */
    method ExportOne(epoch: u64, attempt: u64 -> Attempt, old_: u64 -> bool)
      modifies this
      ensures Now() == AfterOne(old(Now()), epoch, attempt, old_)
    {
      if Failures(epochBlacklist, epoch) > 3 {
        return;
      }
      match attempt(epoch) {
        case Saved => stored := stored + {epoch};
        case Lost =>
        case Errored =>
          if old_(epoch) {
            epochBlacklist := epochBlacklist[epoch := Failures(epochBlacklist, epoch) + 1];
          }
      }
    }

    /** The loop over the sorted queue. */
    method ExportQueued(keys: seq<u64>, attempt: u64 -> Attempt, old_: u64 -> bool)
      requires Ascending(keys)
      modifies this
      ensures Passed(old(Now()), Now(), ToSet(keys), attempt, old_)
      ensures ExportsEach(old(Now()), Now(), keys, attempt, old_)
    {
      for i := 0 to |keys|
        invariant Passed(old(Now()), Now(), ToSet(keys[..i]), attempt, old_)
      {
        OnePassed(old(Now()), Now(), keys, i, attempt, old_);
        ExportOne(keys[i], attempt, old_);
      }
      assert keys[..|keys|] == keys;
      PassedExportsEach(old(Now()), Now(), keys, attempt, old_);
    }

    /** The queue and export part of doFullCheck, with the node and database blocks it
        compares and the sorted list of stored epochs it reads. */
    method DoFullCheck(epochs: seq<u64>, head: u64, dbBlocks: seq<BlockDiff.MinimalBlock>,
                       nodeBlocks: seq<BlockDiff.MinimalBlock>, attempt: u64 -> Attempt, old_: u64 -> bool)
      returns (ghost queue: set<u64>)
      requires Ascending(epochs) && stored == ToSet(epochs) && head < TWO64 - 1
      requires BlockDiff.EpochsBySlot(dbBlocks, nodeBlocks)
      modifies this
      ensures forall e :: e in queue <==>
                          BlockDiff.Differs(dbBlocks, nodeBlocks, e) || Queued(old(stored), head, e)
      ensures forall e: u64 :: e in queue <==>
                          BlockDiff.Differs(dbBlocks, nodeBlocks, e) || MissingOrLast(epochs, head, e)
      ensures Passed(old(Now()), Now(), queue, attempt, old_)
      ensures exists keys :: Ascending(keys) && ToSet(keys) == queue && ExportsEach(old(Now()), Now(), keys, attempt, old_)
    {
      var diff := BlockDiff.QueueDiff(dbBlocks, nodeBlocks);
      var q := QueueMissing(epochs, head, diff);
      var keys := SortAscending(q);
      ExportQueued(keys, attempt, old_);
      queue := q;
      assert ToSet(keys) == q;
    }
  }

  lemma NotYet(keys: seq<u64>, i: nat)
    requires Ascending(keys) && i < |keys|
    ensures keys[i] !in keys[..i]
  {}

  // -------------------------------------------------------------------- whole runs

  /** One pass of the export loop inside a longer run, and what late background saves bring
      into the table before the next check reads it. */
  datatype Pass = Pass(before: State, after: State, queue: set<u64>, attempt: u64 -> Attempt, old_: u64 -> bool,
                       landed: set<u64>)
  {
    function End(): State { after.(stored := after.stored + landed) }
  }

  ghost predicate IsHistory(ps: seq<Pass>) {
    (forall i :: 0 <= i < |ps| ==> Passed(ps[i].before, ps[i].after, ps[i].queue, ps[i].attempt, ps[i].old_)) &&
    (forall i :: 0 < i < |ps| ==> ps[i].before == ps[i - 1].End())
  }

  predicate FailsOld(p: Pass, e: u64) {
    Tried(p.before, p.queue, e) && p.attempt(e) == Errored && p.old_(e)
  }

  /** How often an epoch was tried and failed while more than a day old. */
  function FailedAttempts(ps: seq<Pass>, e: u64): nat {
    if ps == [] then 0
    else FailedAttempts(ps[..|ps| - 1], e) + (if FailsOld(ps[|ps| - 1], e) then 1 else 0)
  }

  lemma {:induction false} FailuresCounted(ps: seq<Pass>, e: u64)
    requires IsHistory(ps) && ps != []
    ensures FailedAttempts(ps, e) == Failures(ps[|ps| - 1].after.blacklist, e) - Failures(ps[0].before.blacklist, e)
    ensures Failures(ps[0].before.blacklist, e) <= 4 ==> Failures(ps[|ps| - 1].after.blacklist, e) <= 4
    decreases |ps|
  {
    var front, last := ps[..|ps| - 1], ps[|ps| - 1];
    if front == [] {
      assert FailedAttempts(front, e) == 0;
    } else {
      FailuresCounted(front, e);
    }
  }

  /** Over the life of the process an epoch more than a day old fails at most four times. */
  lemma AtMostFourFailures(ps: seq<Pass>, e: u64)
    requires IsHistory(ps) && ps != [] && ps[0].before.blacklist == map[]
    ensures FailedAttempts(ps, e) <= 4
  {
    FailuresCounted(ps, e);
  }

  // ------------------------------------------------------------------- convergence

  function QueueSet(stored: set<u64>, head: u64): set<u64> {
    var bound := if stored == {} then head else if Last(stored) > head then Last(stored) else head;
    set e: u64 | 0 <= e <= bound && Queued(stored, head, e)
  }

  lemma QueueSetSpec(stored: set<u64>, head: u64)
    ensures forall e: u64 :: e in QueueSet(stored, head) <==> Queued(stored, head, e)
  {}

  /** What one check brings along: the block difference it queues, and the saves of earlier
      checks that land before the next one. */
  datatype Round = Round(diff: set<u64>, landed: set<u64>)

  /** The stored epochs after a check in which exactly the exports in failing are not saved. */
  function AfterCheck(stored: set<u64>, head: u64, failing: set<u64>, r: Round): set<u64> {
    stored + ((QueueSet(stored, head) + r.diff) - failing) + r.landed
  }

  /** ... after one check for each of the given rounds. */
  function AfterChecks(stored: set<u64>, head: u64, failing: set<u64>, rounds: seq<Round>): set<u64> {
    if rounds == [] then stored
    else AfterCheck(AfterChecks(stored, head, failing, rounds[..|rounds| - 1]), head, failing, rounds[|rounds| - 1])
  }

  /** What DoFullCheck does to the table is this step, as long as no epoch outside failing is
      blacklisted. */
  lemma PassIsCheck(s: State, t: State, queue: set<u64>, head: u64, r: Round, attempt: u64 -> Attempt,
                    old_: u64 -> bool, failing: set<u64>)
    requires Passed(s, t, queue, attempt, old_)
    requires forall e: u64 :: e in queue <==> e in r.diff || Queued(s.stored, head, e)
    requires forall e: u64 :: attempt(e) == Saved <==> e !in failing
    requires forall e: u64 :: e !in failing ==> Failures(s.blacklist, e) <= 3
    ensures t.stored + r.landed == AfterCheck(s.stored, head, failing, r)
    ensures forall e: u64 :: e !in failing ==> Failures(t.blacklist, e) <= 3
  {
    QueueSetSpec(s.stored, head);
  }

  /** A history of full checks with a standing head and the same exports failing in each. */
  ghost predicate StandingChecks(ps: seq<Pass>, head: u64, failing: set<u64>, rounds: seq<Round>) {
    |rounds| == |ps| && IsHistory(ps) &&
    (forall i, e: u64 :: 0 <= i < |ps| ==>
       (e in ps[i].queue <==> e in rounds[i].diff || Queued(ps[i].before.stored, head, e))) &&
    (forall i :: 0 <= i < |ps| ==> ps[i].landed == rounds[i].landed) &&
    (forall i, e: u64 :: 0 <= i < |ps| ==> (ps[i].attempt(e) == Saved <==> e !in failing))
  }

  lemma {:induction false} HistoryIsChecks(ps: seq<Pass>, head: u64, failing: set<u64>, rounds: seq<Round>)
    requires StandingChecks(ps, head, failing, rounds) && ps != []
    requires forall e: u64 :: e !in failing ==> Failures(ps[0].before.blacklist, e) <= 3
    ensures ps[|ps| - 1].End().stored == AfterChecks(ps[0].before.stored, head, failing, rounds)
    ensures forall e: u64 :: e !in failing ==> Failures(ps[|ps| - 1].after.blacklist, e) <= 3
    decreases |ps|
  {
    var front, last := ps[..|ps| - 1], ps[|ps| - 1];
    if front == [] {
      assert AfterChecks(ps[0].before.stored, head, failing, rounds[..0]) == ps[0].before.stored;
    } else {
      HistoryIsChecks(front, head, failing, rounds[..|ps| - 1]);
    }
    PassIsCheck(last.before, last.after, last.queue, head, rounds[|ps| - 1], last.attempt, last.old_, failing);
  }

  ghost predicate Complete(stored: set<u64>, head: u64, failing: set<u64>) {
    forall e: u64 :: e <= head ==> e in stored || e in failing
  }

  /** The compared blocks, and the late saves, are those of epochs up to the head. */
  ghost predicate UpToHead(rounds: seq<Round>, head: u64) {
    forall i, e :: 0 <= i < |rounds| && (e in rounds[i].diff || e in rounds[i].landed) ==> e <= head
  }

  /** Whether the newest stored epoch has reached the head before check number j. */
  ghost predicate AtHead(s: set<u64>, head: u64, failing: set<u64>, rounds: seq<Round>, j: nat)
    requires s != {} && j <= |rounds|
  {
    Last(s) >= head || (j >= 1 && head !in failing) || exists i: nat :: i < j && head in rounds[i].landed
  }

  /** What check number i brings in from below: of its block difference and, once the newest
      stored epoch has reached the head, the genesis epoch, what can be exported; and what
      lands late. */
  ghost predicate BringsIn(s: set<u64>, head: u64, failing: set<u64>, rounds: seq<Round>, i: nat, a: u64)
    requires s != {} && i < |rounds|
  {
    a in rounds[i].landed ||
    (a !in failing && (a in rounds[i].diff || (a == 0 && AtHead(s, head, failing, rounds, i))))
  }

  /** An epoch at or above something that was stored before check number j. */
  ghost predicate Reached(s: set<u64>, head: u64, failing: set<u64>, rounds: seq<Round>, j: nat, e: u64)
    requires s != {} && j <= |rounds|
  {
    e >= First(s) || exists i: nat, a: u64 :: i < j && BringsIn(s, head, failing, rounds, i, a) && a <= e
  }

  /** What is known of the table u after j checks of a run from s. */
  ghost predicate RunInv(s: set<u64>, head: u64, failing: set<u64>, rounds: seq<Round>, j: nat, u: set<u64>)
    requires s != {} && j <= |rounds|
  {
    s <= u && u != {} &&
    (Last(u) >= head <==> AtHead(s, head, failing, rounds, j)) &&
    (forall e :: e in u ==> Reached(s, head, failing, rounds, j, e)) &&
    (forall i: nat, a: u64 :: i < j && BringsIn(s, head, failing, rounds, i, a) ==> a in u)
  }

  lemma ReachedMonotone(s: set<u64>, head: u64, failing: set<u64>, rounds: seq<Round>, j: nat, k: nat, e: u64, f: u64)
    requires s != {} && j <= k <= |rounds| && e <= f && Reached(s, head, failing, rounds, j, e)
    ensures Reached(s, head, failing, rounds, k, f)
  {}

  /** One check queues everything from the first stored epoch up to the head, and below it
      only the difference and perhaps the genesis epoch. */
  lemma CheckStep(u: set<u64>, head: u64, failing: set<u64>, r: Round)
    requires u != {} && forall e :: e in r.diff || e in r.landed ==> e <= head
    ensures var t := AfterCheck(u, head, failing, r);
            u <= t && t != {} &&
            (Last(t) >= head <==> Last(u) >= head || head !in failing || head in r.landed) &&
            (forall e: u64 :: First(u) <= e <= head ==> e in t || e in failing) &&
            (forall e: u64 :: e < First(u) ==>
               (e in t <==> e in r.landed || (e !in failing && (e in r.diff || (e == 0 && Last(u) >= head)))))
  {
    var t := AfterCheck(u, head, failing, r);
    QueueSetSpec(u, head);
    assert Last(u) in t && First(u) in t;
    if Last(u) < head && (head !in failing || head in r.landed) { assert head in t; }
  }

  lemma RunStep(s: set<u64>, head: u64, failing: set<u64>, rounds: seq<Round>, j: nat, u: set<u64>)
    requires s != {} && j < |rounds| && UpToHead(rounds, head) && RunInv(s, head, failing, rounds, j, u)
    ensures RunInv(s, head, failing, rounds, j + 1, AfterCheck(u, head, failing, rounds[j]))
  {
    var t := AfterCheck(u, head, failing, rounds[j]);
    CheckStep(u, head, failing, rounds[j]);
    forall e | e in t ensures Reached(s, head, failing, rounds, j + 1, e) {
      if e >= First(u) {
        ReachedMonotone(s, head, failing, rounds, j, j + 1, First(u), e);
      } else {
        assert BringsIn(s, head, failing, rounds, j, e);
      }
    }
    forall i: nat, a: u64 | i < j + 1 && BringsIn(s, head, failing, rounds, i, a) ensures a in t {
      if i == j && a !in u && a !in rounds[j].landed {
        assert a in rounds[j].diff || (a == 0 && Last(u) >= head && First(u) != 0);
      }
    }
  }

  lemma {:induction false} RunKeepsInv(s: set<u64>, head: u64, failing: set<u64>, rounds: seq<Round>, j: nat)
    requires s != {} && j <= |rounds| && UpToHead(rounds, head)
    ensures RunInv(s, head, failing, rounds, j, AfterChecks(s, head, failing, rounds[..j]))
  {
    if j > 0 {
      RunKeepsInv(s, head, failing, rounds, j - 1);
      RunStep(s, head, failing, rounds, j - 1, AfterChecks(s, head, failing, rounds[..j - 1]));
      assert rounds[..j][..j - 1] == rounds[..j - 1];
    }
  }

  /** What a run of checks brings in: everything at or above what the table held before the
      last check, and what the last check asked for or saw landing. */
  ghost predicate BroughtIn(s: set<u64>, head: u64, failing: set<u64>, rounds: seq<Round>, e: u64)
    requires s != {} && rounds != []
  {
    Reached(s, head, failing, rounds, |rounds| - 1, e) || BringsIn(s, head, failing, rounds, |rounds| - 1, e)
  }

  /** Which exportable epochs a run of checks has brought in, from the ends of the first
      table, the head, the failing epochs, the block differences and the late saves alone. */
  lemma StoredExactly(s: set<u64>, head: u64, failing: set<u64>, rounds: seq<Round>, e: u64)
    requires s != {} && rounds != [] && UpToHead(rounds, head) && e <= head && e !in failing
    ensures e in AfterChecks(s, head, failing, rounds) <==> BroughtIn(s, head, failing, rounds, e)
  {
    var n := |rounds| - 1;
    var u := AfterChecks(s, head, failing, rounds[..n]);
    RunKeepsInv(s, head, failing, rounds, n);
    RunStep(s, head, failing, rounds, n, u);
    CheckStep(u, head, failing, rounds[n]);
    if e >= First(u) { ReachedMonotone(s, head, failing, rounds, n, n, First(u), e); }
    assert Reached(s, head, failing, rounds, n, e) ==> First(u) <= e;
  }

  /** So a run completes a table if and only if it brings in whatever can be exported below
      the first stored epoch. */
  lemma CompleteExactly(s: set<u64>, head: u64, failing: set<u64>, rounds: seq<Round>)
    requires s != {} && rounds != [] && UpToHead(rounds, head)
    ensures Complete(AfterChecks(s, head, failing, rounds), head, failing) <==>
            forall e: u64 :: e < First(s) && e <= head && e !in failing ==> BroughtIn(s, head, failing, rounds, e)
  {
    forall e: u64 | e <= head && e !in failing
      ensures e in AfterChecks(s, head, failing, rounds) <==> BroughtIn(s, head, failing, rounds, e)
    {
      StoredExactly(s, head, failing, rounds, e);
    }
  }

  /** An empty table is complete after its first check, and complete tables stay complete. */
  lemma {:induction false} EmptyCompletes(s: set<u64>, head: u64, failing: set<u64>, rounds: seq<Round>)
    requires Complete(s, head, failing) || (s == {} && rounds != [])
    ensures Complete(AfterChecks(s, head, failing, rounds), head, failing)
    decreases |rounds|
  {
    if rounds != [] {
      var front := rounds[..|rounds| - 1];
      QueueSetSpec(AfterChecks(s, head, failing, front), head);
      if Complete(s, head, failing) || front != [] { EmptyCompletes(s, head, failing, front); }
    }
  }

  /** Nothing but a block difference or a late save can reach below the first stored epoch:
      epoch 0 itself fails, or the head does, so that the check never asks for epoch 0. */
  predicate Stuck(stored: set<u64>, head: u64, failing: set<u64>) {
    stored != {} && First(stored) != 0 && (0 in failing || (Last(stored) < head && head in failing))
  }

  /** With a standing head, any exports failing, any block differences and any late saves,
      three checks bring in every epoch that can be exported, unless the table is stuck. */
  lemma ThreeChecks(s: set<u64>, head: u64, failing: set<u64>, rounds: seq<Round>)
    requires |rounds| >= 3 && UpToHead(rounds, head) && !Stuck(s, head, failing)
    ensures Complete(AfterChecks(s, head, failing, rounds), head, failing)
  {
    if s == {} {
      EmptyCompletes(s, head, failing, rounds);
    } else {
      CompleteExactly(s, head, failing, rounds);
      if First(s) != 0 { assert BringsIn(s, head, failing, rounds, 1, 0); }
    }
  }

  /** What a round brings by itself, whatever is stored. */
  predicate Moved(r: Round, failing: set<u64>, a: u64) {
    a in r.landed || (a in r.diff && a !in failing)
  }

  /** The head does not land late while that would let the checks ask for epoch 0. */
  ghost predicate StaysStuck(head: u64, failing: set<u64>, rounds: seq<Round>) {
    0 in failing || forall i: nat :: i < |rounds| ==> head !in rounds[i].landed
  }

  /** A stuck table becomes complete if and only if the block differences and late saves make
      it so: each exportable epoch below the first stored one is brought by the last of them,
      or lies at or above one that an earlier one brought. */
  lemma StuckExactly(s: set<u64>, head: u64, failing: set<u64>, rounds: seq<Round>)
    requires Stuck(s, head, failing) && rounds != [] && UpToHead(rounds, head) && StaysStuck(head, failing, rounds)
    ensures Complete(AfterChecks(s, head, failing, rounds), head, failing) <==>
            forall e: u64 :: e < First(s) && e <= head && e !in failing ==>
              Moved(rounds[|rounds| - 1], failing, e) ||
              exists i: nat, a: u64 :: i < |rounds| - 1 && Moved(rounds[i], failing, a) && a <= e
  {
    forall i: nat, a: u64 | i < |rounds|
      ensures BringsIn(s, head, failing, rounds, i, a) <==> Moved(rounds[i], failing, a) {}
    CompleteExactly(s, head, failing, rounds);
  }

  /** In particular it never does while every difference and late save stays above the first
      stored epoch and something below it could be exported. */
  lemma StuckForever(s: set<u64>, head: u64, failing: set<u64>, rounds: seq<Round>)
    requires Stuck(s, head, failing) && rounds != [] && UpToHead(rounds, head) && StaysStuck(head, failing, rounds)
    requires forall i: nat, a: u64 :: i < |rounds| && a < First(s) ==> !Moved(rounds[i], failing, a)
    ensures Complete(AfterChecks(s, head, failing, rounds), head, failing) <==>
            forall e: u64 :: e < First(s) && e <= head ==> e in failing
  {
    StuckExactly(s, head, failing, rounds);
  }

  /** One: epoch 5 is stored, the head is epoch 9, epoch 0 fails. No number of checks without
      a difference or a late save ever brings in epochs 1 to 4. */
  lemma StuckExample(s: set<u64>, failing: set<u64>, rounds: seq<Round>)
    requires s == {5} && failing == {0}
    requires rounds != [] && forall i :: 0 <= i < |rounds| ==> rounds[i] == Round({}, {})
    ensures Stuck(s, 9, failing) && !Complete(AfterChecks(s, 9, failing, rounds), 9, failing)
  {
    var e: u64 := 1;
    assert First(s) == 5;
    StuckForever(s, 9, failing, rounds);
    assert e < First(s) && e !in failing;
  }

  // --------------------------------------------------------- counting succeeding checks

  /** How many succeeding checks a table needs without help from block differences: one for
      what lies above its first epoch (or for an empty table), one to fetch a missing genesis
      epoch once the head is reached, and one for the hole that this opens. */
  ghost function Needed(stored: set<u64>, head: u64): nat {
    if stored == {} then 1
    else if First(stored) == 0 then (if Complete(stored, head, {}) then 0 else 1)
    else (if Last(stored) < head then 1 else 0) + (if First(stored) == 1 || head == 0 then 1 else 2)
  }

  /** Block differences and late saves never delay completion: Needed(s) checks, at most
      three, suffice. */
  lemma NeededSuffices(s: set<u64>, head: u64, rounds: seq<Round>)
    requires |rounds| >= Needed(s, head) && UpToHead(rounds, head)
    ensures Complete(AfterChecks(s, head, {}, rounds), head, {})
    ensures Needed(s, head) <= 3
  {
    if s == {} || Complete(s, head, {}) {
      EmptyCompletes(s, head, {}, rounds);
    } else {
      var n := |rounds| - 1;
      CompleteExactly(s, head, {}, rounds);
      forall e: u64 | e < First(s) && e <= head
        ensures BroughtIn(s, head, {}, rounds, e)
      {
        assert BringsIn(s, head, {}, rounds, n, 0);
        if e != 0 {
          assert n >= 1 && BringsIn(s, head, {}, rounds, n - 1, 0);
        }
      }
    }
  }

  /** One check too few leaves the genesis epoch out, or the one above it. */
  lemma TooFew(s: set<u64>, head: u64, rounds: seq<Round>)
    requires s != {} && rounds != [] && UpToHead(rounds, head) && |rounds| < Needed(s, head)
    requires forall i: nat, a: u64 :: i < |rounds| && a < First(s) ==> !Moved(rounds[i], {}, a)
    ensures !Complete(AfterChecks(s, head, {}, rounds), head, {})
  {
    var n := |rounds| - 1;
    var e: u64 := if AtHead(s, head, {}, rounds, n) then 1 else 0;
    forall i: nat, a: u64 | i < |rounds| && a < First(s)
      ensures BringsIn(s, head, {}, rounds, i, a) <==> a == 0 && AtHead(s, head, {}, rounds, i)
    {
      assert !Moved(rounds[i], {}, a);
    }
    CompleteExactly(s, head, {}, rounds);
    assert e < First(s) && e <= head && !BroughtIn(s, head, {}, rounds, e);
  }

  /** Without differences or late saves below the first stored epoch the count is exact. */
  lemma ConvergesExactly(s: set<u64>, head: u64, rounds: seq<Round>)
    requires UpToHead(rounds, head)
    requires s != {} ==> forall i: nat, a: u64 :: i < |rounds| && a < First(s) ==> !Moved(rounds[i], {}, a)
    ensures Complete(AfterChecks(s, head, {}, rounds), head, {}) <==> |rounds| >= Needed(s, head)
  {
    if |rounds| >= Needed(s, head) {
      NeededSuffices(s, head, rounds);
    } else if rounds == [] {
      assert AfterChecks(s, head, {}, rounds) == s;
      if s == {} || First(s) != 0 { assert 0 !in s; }
    } else {
      TooFew(s, head, rounds);
    }
  }
}
