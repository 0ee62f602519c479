/** Incremental synchronisation of one MEV relay: cursor paging inside a transaction, from
    the head down to shortly below the newest stored payload, then from the oldest down. The
    relay and the known blocks may change between any two requests and any two inserts. */
module RelayPaging {
  import opened Bytes
  import opened Extremes
  import opened Decimal

  /** A delivered payload; a row of relays_blocks is one payload joined with its block. */
  datatype Payload = Payload(slot: nat, blockHash: Key)

  datatype Fetch = Failed | Null | Answer(payloads: seq<Payload>)

  const PAGE_SIZE: nat := 100
  const LOOKBACK: nat := 10

  /** The relay and the known blocks at one moment; a payload is visible when it is in both. */
  datatype Outside = Outside(relay: set<Payload>, blocks: set<Payload>) {
    function Visible(): set<Payload> { relay * blocks }
  }

  /** What one retrieval meets outside: the relay's reply to each cursor (a cursor is never
      asked twice), the outside at the request for a cursor and after each insert of its page,
      failing inserts, a failing begin or commit. */
  datatype Env = Env(fetch: nat -> Fetch, world: (nat, nat) -> Outside, insertFails: (nat, nat) -> bool,
                     beginFails: bool, commitFails: bool)

  predicate AtOrBelow(p: Payload, cursor: nat) {
    cursor == 0 || p.slot <= cursor
  }

  predicate Positive(s: set<Payload>) {
    forall p :: p in s ==> p.slot >= 1
  }

  /** The reply the relay interface promises: the newest payloads at or below the cursor,
      newest first, a hundred of them or all there are. */
  ghost predicate IsPage(relay: set<Payload>, cursor: nat, resp: seq<Payload>) {
    |resp| <= PAGE_SIZE &&
    (forall i :: 0 <= i < |resp| ==> resp[i] in relay && AtOrBelow(resp[i], cursor)) &&
    (forall i, j :: 0 <= i < j < |resp| ==> resp[i].slot >= resp[j].slot && resp[i] != resp[j]) &&
    (forall p :: p in relay && AtOrBelow(p, cursor) && p !in resp ==>
       |resp| == PAGE_SIZE && p.slot <= resp[PAGE_SIZE - 1].slot)
  }

  /** Every answer is a page of what the relay holds at the moment of the request. */
  ghost predicate FollowsSpec(env: Env) {
    forall c :: env.fetch(c).Answer? ==>
      Positive(env.world(c, 0).relay) && IsPage(env.world(c, 0).relay, c, env.fetch(c).payloads)
  }

  function MinSlot(low: nat): nat {
    if low > LOOKBACK then low - LOOKBACK else 0
  }

  // ------------------------------------------------------------------------ one page

  /** The first of n inserts of a page that fails; n when none does. */
  function FirstFailure(env: Env, c: nat, n: nat): (f: nat)
    ensures f <= n && (f < n ==> env.insertFails(c, f)) && forall i :: 0 <= i < f ==> !env.insertFails(c, i)
  {
    if n == 0 then 0
    else
      var f := FirstFailure(env, c, n - 1);
      if f == n - 1 && !env.insertFails(c, n - 1) then n else f
  }

  /** The rows that the first n inserts of a page create: those whose block is known then. */
  function Known(env: Env, c: nat, resp: seq<Payload>, n: nat): set<Payload>
    requires n <= |resp|
  {
    set i | 0 <= i < n && resp[i] in env.world(c, i).blocks :: resp[i]
  }

  function KnownAll(env: Env, c: nat, resp: seq<Payload>): set<Payload> {
    Known(env, c, resp, |resp|)
  }

  predicate InsertsWork(env: Env, c: nat, resp: seq<Payload>) {
    forall i :: 0 <= i < |resp| ==> !env.insertFails(c, i)
  }

  // ------------------------------------------------------------------ one retrieval

  /** How the paging of one retrieval ends: with a page that is not full, with one whose last
      slot lies below the floor, with a JSON null for a cursor (the first one or a later one),
      or with an error. */
  datatype End =
    | Short
    | Floor(last: nat)
    | NullAt(cursor: nat, first: bool)
    | FetchFailed
    | InsertFailed
    | Stalled

  /** The end, the rows inserted on the way, the cursors asked, and the outside at the end. */
  datatype Pages = Pages(end: End, pending: set<Payload>, asked: set<nat>, final: Outside)

  predicate ReachesCommit(end: End) {
    end.Short? || end.Floor? || end.NullAt?
  }

  /** Whether a reply calls for another page. */
  predicate Continues(env: Env, offset: nat, low: nat) {
    env.fetch(offset).Answer? &&
    var resp := env.fetch(offset).payloads;
    InsertsWork(env, offset, resp) && |resp| >= PAGE_SIZE && resp[|resp| - 1].slot >= MinSlot(low) &&
    resp[|resp| - 1].slot != offset
  }

  /** The slot a page ends with. */
  function LastSlot(env: Env, offset: nat): nat {
    if env.fetch(offset).Answer? && env.fetch(offset).payloads != []
    then env.fetch(offset).payloads[|env.fetch(offset).payloads| - 1].slot
    else 0
  }

  lemma CursorFalls(env: Env, low: nat, offset: nat, first: bool)
    requires FollowsSpec(env) && (!first ==> offset >= 1) && Continues(env, offset, low)
    ensures LastSlot(env, offset) >= 1 && AtOrBelow(Payload(LastSlot(env, offset), []), offset)
    ensures first || LastSlot(env, offset) < offset
  {
    var resp := env.fetch(offset).payloads;
    assert resp[|resp| - 1] in env.world(offset, 0).relay;
  }

  /** A reply that does not call for another page. */
  function LastPages(env: Env, low: nat, offset: nat, first: bool): Pages {
    match env.fetch(offset)
    case Failed => Pages(FetchFailed, {}, {offset}, env.world(offset, 0))
    case Null => Pages(NullAt(offset, first), {}, {offset}, env.world(offset, 0))
    case Answer(resp) =>
      if !InsertsWork(env, offset, resp)
      then Pages(InsertFailed, {}, {offset}, env.world(offset, FirstFailure(env, offset, |resp|)))
      else
        var end := if resp == [] then Short
                   else if resp[|resp| - 1].slot < MinSlot(low) then Floor(resp[|resp| - 1].slot)
                   else if |resp| < PAGE_SIZE then Short
                   else Stalled;
        Pages(end, KnownAll(env, offset, resp), {offset}, env.world(offset, |resp|))
  }

  /** The paging from a cursor on. It ends because the cursor falls after the first page. */
  ghost function Paging(env: Env, low: nat, offset: nat, first: bool): Pages
    requires FollowsSpec(env) && (!first ==> offset >= 1)
    decreases first, offset
  {
    if Continues(env, offset, low) then
      CursorFalls(env, low, offset, first);
      var rest := Paging(env, low, LastSlot(env, offset), false);
      Pages(rest.end, KnownAll(env, offset, env.fetch(offset).payloads) + rest.pending, {offset} + rest.asked, rest.final)
    else LastPages(env, low, offset, first)
  }

  /** retrieveAndInsertPayloadsFromRelay as a function: None when it returns an error and
      rolls back, otherwise the rows it commits. */
  ghost function Retrieved(env: Env, low: nat, high: nat): Option<set<Payload>>
    requires FollowsSpec(env)
  {
    var pages := Paging(env, low, high, true);
    if !env.beginFails && ReachesCommit(pages.end) && !env.commitFails then Some(pages.pending) else None
  }

  /** The outside when the retrieval returns. */
  ghost function FinalOutside(env: Env, low: nat, high: nat): Outside
    requires FollowsSpec(env)
  {
    if env.beginFails then env.world(high, 0) else Paging(env, low, high, true).final
  }

  /** The loop between two requests: what remains decides how all of it ends. */
  ghost predicate Remaining(env: Env, low: nat, offset: nat, first: bool, pending: set<Payload>, all: Pages)
    requires FollowsSpec(env)
  {
    (!first ==> offset >= 1) &&
    var rest := Paging(env, low, offset, first);
    all.end == rest.end && (ReachesCommit(all.end) ==> all.pending == pending + rest.pending)
  }

  predicate EndsWith(all: Pages, pending: set<Payload>) {
    ReachesCommit(all.end) && all.pending == pending
  }

  /** A reply that ends the paging. */
  lemma FinalRequest(env: Env, low: nat, offset: nat, first: bool, pending: set<Payload>, all: Pages)
    requires FollowsSpec(env) && Remaining(env, low, offset, first, pending, all) && !Continues(env, offset, low)
    ensures var last := LastPages(env, low, offset, first);
            if ReachesCommit(last.end) then EndsWith(all, pending + last.pending) else !ReachesCommit(all.end)
  {}

  /** A reply that calls for another page. */
  lemma FurtherRequest(env: Env, low: nat, offset: nat, first: bool, pending: set<Payload>, all: Pages)
    requires FollowsSpec(env) && Remaining(env, low, offset, first, pending, all) && Continues(env, offset, low)
    ensures first || LastSlot(env, offset) < offset
    ensures Remaining(env, low, LastSlot(env, offset), false,
                      pending + KnownAll(env, offset, env.fetch(offset).payloads), all)
  {
    CursorFalls(env, low, offset, first);
    var mine := KnownAll(env, offset, env.fetch(offset).payloads);
    var rest := Paging(env, low, LastSlot(env, offset), false);
    assert pending + (mine + rest.pending) == (pending + mine) + rest.pending;
  }

  /** One request, branch by branch. */
  lemma OneRequest(env: Env, low: nat, offset: nat, first: bool, pending: set<Payload>, all: Pages)
    requires FollowsSpec(env) && Remaining(env, low, offset, first, pending, all)
    ensures env.fetch(offset).Failed? ==> !ReachesCommit(all.end)
    ensures env.fetch(offset).Null? ==> EndsWith(all, pending)
    ensures env.fetch(offset).Answer? ==>
              var resp := env.fetch(offset).payloads;
              var now := pending + KnownAll(env, offset, resp);
              if !InsertsWork(env, offset, resp) then !ReachesCommit(all.end)
              else if resp == [] || resp[|resp| - 1].slot < MinSlot(low) || |resp| < PAGE_SIZE then EndsWith(all, now)
              else if resp[|resp| - 1].slot == offset then !ReachesCommit(all.end)
              else (first || resp[|resp| - 1].slot < offset) &&
                   Remaining(env, low, resp[|resp| - 1].slot, false, now, all)
  {
    if Continues(env, offset, low) {
      FurtherRequest(env, low, offset, first, pending, all);
    } else {
      FinalRequest(env, low, offset, first, pending, all);
      assert pending + {} == pending;
    }
  }

  // ------------------------------------------------------------------------- success

  /** A reply the paging survives: no failure, every insert works, and a full page that is
      not below the floor moves the cursor. */
  ghost predicate GoodReply(env: Env, c: nat, low: nat) {
    !env.fetch(c).Failed? &&
    (env.fetch(c).Answer? ==>
       var resp := env.fetch(c).payloads;
       InsertsWork(env, c, resp) && !(|resp| >= PAGE_SIZE && resp[|resp| - 1].slot == c && c >= MinSlot(low)))
  }

  ghost predicate AllGood(env: Env, asked: set<nat>, low: nat) {
    forall c :: c in asked ==> GoodReply(env, c, low)
  }

  lemma {:induction false} PagingSucceeds(env: Env, low: nat, offset: nat, first: bool)
    requires FollowsSpec(env) && (!first ==> offset >= 1)
    ensures var pages := Paging(env, low, offset, first); ReachesCommit(pages.end) <==> AllGood(env, pages.asked, low)
    decreases first, offset
  {
    if Continues(env, offset, low) {
      CursorFalls(env, low, offset, first);
      PagingSucceeds(env, low, LastSlot(env, offset), false);
      assert GoodReply(env, offset, low);
    }
  }

  /** A retrieval succeeds if and only if its transaction does and every asked cursor gets a
      good reply. */
  lemma RetrieveSucceeds(env: Env, low: nat, high: nat)
    requires FollowsSpec(env)
    ensures Retrieved(env, low, high).Some? <==>
            !env.beginFails && !env.commitFails && AllGood(env, Paging(env, low, high, true).asked, low)
  {
    PagingSucceeds(env, low, high, true);
  }

  // ------------------------------------------------------------- which rows are committed

  /** A payload of the page for a cursor whose block was known at its insert. */
  ghost predicate InsertedBy(env: Env, c: nat, p: Payload) {
    env.fetch(c).Answer? &&
    exists i :: 0 <= i < |env.fetch(c).payloads| && env.fetch(c).payloads[i] == p && p in env.world(c, i).blocks
  }

  ghost predicate NothingFails(env: Env, c: nat) {
    env.fetch(c).Null? || (env.fetch(c).Answer? && forall i :: 0 <= i < |env.fetch(c).payloads| ==> !env.insertFails(c, i))
  }

  /** A full page that reaches no more than ten slots below the low bound, and the cursor it
      leads to. */
  ghost predicate LeadsTo(env: Env, low: nat, c: nat, next: nat) {
    env.fetch(c).Answer? &&
    var resp := env.fetch(c).payloads;
    |resp| >= 100 && next == resp[|resp| - 1].slot && next + 10 >= low && next != c
  }

  /** A null, a page of less than a hundred, or one that reaches further down. */
  ghost predicate StopsAt(env: Env, low: nat, c: nat) {
    env.fetch(c).Null? ||
    (env.fetch(c).Answer? &&
     var resp := env.fetch(c).payloads;
     |resp| < 100 || resp[|resp| - 1].slot + 10 < low)
  }

  /** The cursors a retrieval asks when it succeeds, from the high bound on. */
  ghost predicate IsTrail(env: Env, low: nat, high: nat, cs: seq<nat>) {
    cs != [] && cs[0] == high && StopsAt(env, low, cs[|cs| - 1]) &&
    (forall k: nat :: k + 1 < |cs| ==> LeadsTo(env, low, cs[k], cs[k + 1])) &&
    (forall k: nat :: k < |cs| ==> NothingFails(env, cs[k]))
  }

  ghost predicate HasTrail(env: Env, low: nat, high: nat) {
    exists cs :: IsTrail(env, low, high, cs)
  }

  ghost predicate InsertedOn(env: Env, cs: seq<nat>, p: Payload) {
    exists k :: 0 <= k < |cs| && InsertedBy(env, cs[k], p)
  }

  lemma KnownInserted(env: Env, c: nat, p: Payload)
    requires env.fetch(c).Answer?
    ensures p in KnownAll(env, c, env.fetch(c).payloads) <==> InsertedBy(env, c, p)
  {}

  lemma TrailTail(env: Env, low: nat, high: nat, cs: seq<nat>)
    requires IsTrail(env, low, high, cs) && |cs| > 1
    ensures LeadsTo(env, low, high, cs[1]) && NothingFails(env, high) && IsTrail(env, low, cs[1], cs[1..])
    ensures forall p :: InsertedOn(env, cs, p) <==> InsertedBy(env, high, p) || InsertedOn(env, cs[1..], p)
  {
    var rest := cs[1..];
    assert LeadsTo(env, low, cs[0], cs[0 + 1]);
    forall k: nat | k + 1 < |rest| ensures LeadsTo(env, low, rest[k], rest[k + 1]) {
      assert LeadsTo(env, low, cs[k + 1], cs[(k + 1) + 1]);
    }
    forall p ensures InsertedOn(env, cs, p) <==> InsertedBy(env, high, p) || InsertedOn(env, rest, p) {
      if k :| 0 <= k < |rest| && InsertedBy(env, rest[k], p) { assert InsertedBy(env, cs[k + 1], p); }
      if k :| 0 <= k < |cs| && InsertedBy(env, cs[k], p) && k > 0 { assert rest[k - 1] == cs[k]; }
    }
  }

  lemma TrailCons(env: Env, low: nat, c: nat, next: nat, rest: seq<nat>)
    requires LeadsTo(env, low, c, next) && NothingFails(env, c) && IsTrail(env, low, next, rest)
    ensures IsTrail(env, low, c, [c] + rest)
  {
    var cs := [c] + rest;
    forall k: nat | k + 1 < |cs| ensures LeadsTo(env, low, cs[k], cs[k + 1]) {
      if k > 0 { assert LeadsTo(env, low, rest[k - 1], rest[(k - 1) + 1]); }
    }
  }

  lemma ContinuesLeads(env: Env, low: nat, offset: nat)
    ensures Continues(env, offset, low) <==>
            NothingFails(env, offset) && LeadsTo(env, low, offset, LastSlot(env, offset))
  {}

  lemma LastStops(env: Env, low: nat, offset: nat, first: bool)
    ensures ReachesCommit(LastPages(env, low, offset, first).end) <==> NothingFails(env, offset) && StopsAt(env, low, offset)
    ensures ReachesCommit(LastPages(env, low, offset, first).end) ==>
              forall p :: p in LastPages(env, low, offset, first).pending <==> InsertedBy(env, offset, p)
  {
    if env.fetch(offset).Answer? {
      forall p ensures p in KnownAll(env, offset, env.fetch(offset).payloads) <==> InsertedBy(env, offset, p) {
        KnownInserted(env, offset, p);
      }
    }
  }

  /** Where a trail exists, the paging reaches the commit with exactly its inserts. */
  lemma {:induction false} TrailCommits(env: Env, low: nat, offset: nat, first: bool, cs: seq<nat>)
    requires FollowsSpec(env) && (!first ==> offset >= 1) && IsTrail(env, low, offset, cs)
    ensures var pages := Paging(env, low, offset, first);
            ReachesCommit(pages.end) && forall p :: p in pages.pending <==> InsertedOn(env, cs, p)
    decreases |cs|
  {
    ContinuesLeads(env, low, offset);
    LastStops(env, low, offset, first);
    if |cs| == 1 {
      assert forall p :: InsertedOn(env, cs, p) <==> InsertedBy(env, offset, p);
    } else {
      TrailTail(env, low, offset, cs);
      CursorFalls(env, low, offset, first);
      TrailCommits(env, low, cs[1], false, cs[1..]);
      forall p ensures p in Paging(env, low, offset, first).pending <==> InsertedOn(env, cs, p) {
        KnownInserted(env, offset, p);
      }
    }
  }

  /** ... and only there. */
  lemma {:induction false} CommitHasTrail(env: Env, low: nat, offset: nat, first: bool) returns (cs: seq<nat>)
    requires FollowsSpec(env) && (!first ==> offset >= 1) && ReachesCommit(Paging(env, low, offset, first).end)
    ensures IsTrail(env, low, offset, cs)
    decreases first, offset
  {
    if Continues(env, offset, low) {
      CursorFalls(env, low, offset, first);
      ContinuesLeads(env, low, offset);
      var rest := CommitHasTrail(env, low, LastSlot(env, offset), false);
      cs := [offset] + rest;
      TrailCons(env, low, offset, LastSlot(env, offset), rest);
    } else {
      LastStops(env, low, offset, first);
      cs := [offset];
    }
  }

  /** What one retrieval does to the table: it succeeds if and only if its transaction does and
      a trail leads to an end; then exactly the payloads on it whose block was known when they
      were inserted are new, and otherwise nothing is. */
  ghost predicate CommitsExactly(env: Env, low: nat, high: nat, before: set<Payload>, ok: bool, after: set<Payload>) {
    (ok <==> !env.beginFails && !env.commitFails && HasTrail(env, low, high)) &&
    (!ok ==> after == before) &&
    (ok ==> forall cs, p :: IsTrail(env, low, high, cs) ==> (p in after <==> p in before || InsertedOn(env, cs, p)))
  }

  lemma RetrievedExactly(env: Env, low: nat, high: nat, before: set<Payload>)
    requires FollowsSpec(env)
    ensures var rows := Retrieved(env, low, high);
            CommitsExactly(env, low, high, before, rows.Some?, if rows.Some? then before + rows.value else before)
  {
    if ReachesCommit(Paging(env, low, high, true).end) {
      var cs := CommitHasTrail(env, low, high, true);
    }
    forall cs | IsTrail(env, low, high, cs)
      ensures var pages := Paging(env, low, high, true);
              ReachesCommit(pages.end) && forall p :: p in pages.pending <==> InsertedOn(env, cs, p)
    {
      TrailCommits(env, low, high, true, cs);
    }
  }

  /** A row that was not there before was on a page, and its block known at its insert. */
  lemma {:induction false} PendingInserted(env: Env, low: nat, offset: nat, first: bool, p: Payload)
    requires FollowsSpec(env) && (!first ==> offset >= 1) && p in Paging(env, low, offset, first).pending
    ensures exists c: nat :: InsertedBy(env, c, p)
    decreases first, offset
  {
    if env.fetch(offset).Answer? { KnownInserted(env, offset, p); }
    if Continues(env, offset, low) {
      CursorFalls(env, low, offset, first);
      if !InsertedBy(env, offset, p) { PendingInserted(env, low, LastSlot(env, offset), false, p); }
    }
  }

  // -------------------------------------------------------------------- the exporter

  function Slots(s: set<Payload>): set<nat> {
    set p | p in s :: p.slot
  }

  /** ORDER BY block_slot DESC LIMIT 1; zero stands for "none set". */
  function Newest(s: set<Payload>): nat {
    if Slots(s) == {} then 0 else MaxOf(Slots(s))
  }

  function Oldest(s: set<Payload>): nat {
    if Slots(s) == {} then 0 else MinOf(Slots(s))
  }

  lemma SlotBounds(s: set<Payload>)
    ensures forall p :: p in s ==> Oldest(s) <= p.slot <= Newest(s)
    ensures s != {} ==> (exists p :: p in s && p.slot == Newest(s)) && (exists p :: p in s && p.slot == Oldest(s))
  {
    forall p | p in s ensures Oldest(s) <= p.slot <= Newest(s) {
      assert p.slot in Slots(s);
    }
    if s != {} {
      var x :| x in s;
      assert x.slot in Slots(s);
      assert Newest(s) in Slots(s) && Oldest(s) in Slots(s);
    }
  }

  lemma EndsOf(s: set<Payload>, oldest: Payload, newest: Payload)
    requires oldest in s && newest in s && forall p :: p in s ==> oldest.slot <= p.slot <= newest.slot
    ensures Oldest(s) == oldest.slot && Newest(s) == newest.slot
  {
    SlotBounds(s);
  }

  /** What one export meets: the two reads of the table and the two retrievals. */
  datatype Attempt = Attempt(lastReadFails: bool, firstReadFails: bool, head: Env, tail: Env)

  ghost predicate Regular(e: Attempt) {
    FollowsSpec(e.head) && FollowsSpec(e.tail)
  }

  function Low(e: Attempt, s: set<Payload>): nat {
    if e.lastReadFails then 0 else Newest(s)
  }

  function High(e: Attempt, s: set<Payload>): nat {
    if e.firstReadFails then 0 else Oldest(s)
  }

  /** exportRelayBlocks as a function: whether it succeeds, and the table afterwards. */
  ghost function Exported(e: Attempt, s: set<Payload>): (bool, set<Payload>)
    requires Regular(e)
  {
    var headRows := Retrieved(e.head, Low(e, s), 0);
    if headRows.None? then (false, s)
    else
      var mid := s + headRows.value;
      if High(e, mid) == 0 then (true, mid)
      else
        var tailRows := Retrieved(e.tail, 0, High(e, mid));
        if tailRows.None? then (false, mid) else (true, mid + tailRows.value)
  }

  /** The slot of the newest row; zero without rows. */
  ghost predicate IsNewest(s: set<Payload>, slot: nat) {
    (s == {} ==> slot == 0) && (s != {} ==> exists p :: p in s && p.slot == slot) && forall p :: p in s ==> p.slot <= slot
  }

  ghost predicate IsOldest(s: set<Payload>, slot: nat) {
    (s == {} ==> slot == 0) && (s != {} ==> exists p :: p in s && p.slot == slot) && forall p :: p in s ==> p.slot >= slot
  }

  /** One export: down to the newest row, and then, unless there is none, from the oldest
      row on; a failing read stands for zero. */
  ghost predicate ExportsVia(e: Attempt, before: set<Payload>, low: nat, headOk: bool, mid: set<Payload>, high: nat,
                             ok: bool, after: set<Payload>)
  {
    (if e.lastReadFails then low == 0 else IsNewest(before, low)) &&
    (if e.firstReadFails then high == 0 else IsOldest(mid, high)) &&
    CommitsExactly(e.head, low, 0, before, headOk, mid) &&
    if headOk && high != 0 then CommitsExactly(e.tail, 0, high, mid, ok, after) else ok == headOk && after == mid
  }

  ghost predicate ExportsExactly(e: Attempt, before: set<Payload>, ok: bool, after: set<Payload>) {
    exists low: nat, headOk: bool, mid: set<Payload>, high: nat :: ExportsVia(e, before, low, headOk, mid, high, ok, after)
  }

  lemma TableEnds(s: set<Payload>)
    ensures IsNewest(s, Newest(s)) && IsOldest(s, Oldest(s))
  {
    SlotBounds(s);
  }

  lemma ExportedExactly(e: Attempt, s: set<Payload>)
    requires Regular(e)
    ensures ExportsExactly(e, s, Exported(e, s).0, Exported(e, s).1)
  {
    var low, headRows := Low(e, s), Retrieved(e.head, Low(e, s), 0);
    var mid := if headRows.Some? then s + headRows.value else s;
    var high := High(e, mid);
    TableEnds(s);
    TableEnds(mid);
    RetrievedExactly(e.head, low, 0, s);
    RetrievedExactly(e.tail, 0, high, mid);
    ViaTheseBounds(e, s, low, headRows.Some?, mid, high, Retrieved(e.tail, 0, high));
  }

  lemma ViaTheseBounds(e: Attempt, s: set<Payload>, low: nat, headOk: bool, mid: set<Payload>, high: nat, tailRows: Option<set<Payload>>)
    requires if e.lastReadFails then low == 0 else IsNewest(s, low)
    requires if e.firstReadFails then high == 0 else IsOldest(mid, high)
    requires CommitsExactly(e.head, low, 0, s, headOk, mid)
    requires CommitsExactly(e.tail, 0, high, mid, tailRows.Some?, if tailRows.Some? then mid + tailRows.value else mid)
    ensures var ok := if headOk && high != 0 then tailRows.Some? else headOk;
            ExportsExactly(e, s, ok, if headOk && high != 0 && tailRows.Some? then mid + tailRows.value else mid)
  {
    var ok := if headOk && high != 0 then tailRows.Some? else headOk;
    var after := if headOk && high != 0 && tailRows.Some? then mid + tailRows.value else mid;
    assert ExportsVia(e, s, low, headOk, mid, high, ok, after);
  }

  class RelayExporter {
    /** The rows of relays_blocks that carry this relay's tag. */
    var stored: set<Payload>

    constructor (table: set<Payload>)
      ensures stored == table
    {
      stored := table;
    }

    /** The insert loop of one page: only payloads whose block is known become rows. */
    static method InsertAll(c: nat, resp: seq<Payload>, env: Env) returns (ok: bool, inserted: set<Payload>)
      ensures ok <==> InsertsWork(env, c, resp)
      ensures ok ==> inserted == KnownAll(env, c, resp)
    {
      inserted := {};
      for i := 0 to |resp|
        invariant inserted == Known(env, c, resp, i)
        invariant forall j :: 0 <= j < i ==> !env.insertFails(c, j)
      {
        if env.insertFails(c, i) {
          return false, {};
        }
        if resp[i] in env.world(c, i).blocks {
          inserted := inserted + {resp[i]};
        }
      }
      ok := true;
    }

    /** The paging loop: false for every way out that rolls back. */
    static method ReadPages(low: nat, high: nat, env: Env) returns (ok: bool, pending: set<Payload>)
      requires FollowsSpec(env)
      ensures var all := Paging(env, low, high, true); if ok then EndsWith(all, pending) else !ReachesCommit(all.end)
    {
      pending := {};
      var offset := high;
      var minSlot := if low > 10 then low - 10 else 0;
      ghost var first := true;
      ghost var all := Paging(env, low, high, true);
      while true
        invariant Remaining(env, low, offset, first, pending, all)
        decreases first, offset
      {
        OneRequest(env, low, offset, first, pending, all);
        var reply := env.fetch(offset);
        if reply.Failed? {
          return false, {};
        }
        if reply.Null? {
          return true, pending;
        }
        var resp := reply.payloads;
        var inserted;
        ok, inserted := InsertAll(offset, resp, env);
        if !ok {
          return false, {};
        }
        pending := pending + inserted;
        if |resp| == 0 || resp[|resp| - 1].slot < minSlot {
          return true, pending;
        }
        if |resp| < 100 {
          return true, pending;
        }
        if resp[|resp| - 1].slot == offset {
          return false, {};
        }
        offset := resp[|resp| - 1].slot;
        first := false;
      }
    }

    /** retrieveAndInsertPayloadsFromRelay. */
    method Retrieve(low: nat, high: nat, env: Env) returns (ok: bool)
      requires FollowsSpec(env)
      modifies this
      ensures ok <==> Retrieved(env, low, high).Some?
      ensures stored == if ok then old(stored) + Retrieved(env, low, high).value else old(stored)
      ensures CommitsExactly(env, low, high, old(stored), ok, stored)
    {
      RetrievedExactly(env, low, high, stored);
      if env.beginFails {
        return false;
      }
      var pending;
      ok, pending := ReadPages(low, high, env);
      if !ok {
        return;
      }
      if env.commitFails {
        return false;
      }
      stored := stored + pending;
    }

    /** exportRelayBlocks. */
    method Export(e: Attempt) returns (ok: bool)
      requires Regular(e)
      modifies this
      ensures (ok, stored) == Exported(e, old(stored))
      ensures ExportsExactly(e, old(stored), ok, stored)
    {
      ExportedExactly(e, stored);
      var low := if e.lastReadFails then 0 else Newest(stored);
      ok := Retrieve(low, 0, e.head);
      if !ok {
        return;
      }
      var high := if e.firstReadFails then 0 else Oldest(stored);
      if high == 0 {
        return true;
      }
      ok := Retrieve(0, high, e.tail);
    }
  }
}
