/** What exports of a relay leave in the table while the relay and the known blocks move
    between any two requests and any two inserts. */
module RelaySync {
  import opened RelayPaging

  /** No visible payload is missing between the oldest stored slot and the look-back
      window below the newest. */
  ghost predicate Gapless(visible: set<Payload>, stored: set<Payload>) {
    forall p :: p in visible && stored != {} && Oldest(stored) < p.slot && p.slot + LOOKBACK < Newest(stored) ==>
      p in stored
  }

  /** ... and not in the window either. */
  ghost predicate Complete(visible: set<Payload>, stored: set<Payload>) {
    forall p :: p in visible && Oldest(stored) < p.slot <= Newest(stored) ==> p in stored
  }

  // ------------------------------------------------------------ how the outside moves

  /** Payloads and blocks appear or vanish; what becomes visible is at most so many slots
      behind the newest of some rows. */
  ghost predicate Grew(v: Outside, w: Outside, rows: set<Payload>, lateness: nat) {
    forall p :: p in w.Visible() && p !in v.Visible() ==> rows == {} || p.slot + lateness >= Newest(rows)
  }

  /** How many inserts of a cursor's page are run. */
  function Ran(env: Env, c: nat): nat {
    if env.fetch(c).Answer? then FirstFailure(env, c, |env.fetch(c).payloads|) else 0
  }

  /** The rows they create. */
  function Rows(env: Env, c: nat): set<Payload> {
    if env.fetch(c).Answer? then Known(env, c, env.fetch(c).payloads, Ran(env, c)) else {}
  }

  ghost predicate PageMoves(env: Env, c: nat, rows: set<Payload>, lateness: nat) {
    forall i :: 0 <= i < Ran(env, c) ==> Grew(env.world(c, i), env.world(c, i + 1), rows, lateness)
  }

  /** The outside moves between the inserts of a page and between two requests. Lateness is
      measured against the stored rows together with those of the retrieval in flight, up to
      and with its current page; when these do not count, against the stored rows alone. */
  ghost predicate Moves(env: Env, low: nat, offset: nat, first: bool, s: set<Payload>, pending: set<Payload>,
                        inFlight: bool, lateness: nat)
    requires FollowsSpec(env) && (!first ==> offset >= 1)
    decreases first, offset
  {
    var now := pending + Rows(env, offset);
    var rows := if inFlight then s + now else s;
    PageMoves(env, offset, rows, lateness) &&
    if Continues(env, offset, low) then
      CursorFalls(env, low, offset, first);
      Grew(env.world(offset, Ran(env, offset)), env.world(LastSlot(env, offset), 0), rows, lateness) &&
      Moves(env, low, LastSlot(env, offset), false, s, now, inFlight, lateness)
    else true
  }

  ghost predicate RetrieveMoves(env: Env, low: nat, high: nat, s: set<Payload>, inFlight: bool, lateness: nat)
    requires FollowsSpec(env)
  {
    !env.beginFails ==> Moves(env, low, high, true, s, {}, inFlight, lateness)
  }

  lemma GrowthKeepsGapless(v: Outside, w: Outside, s: set<Payload>, rows: set<Payload>, lateness: nat)
    requires Grew(v, w, rows, lateness) && lateness <= LOOKBACK && s <= rows && Gapless(v.Visible(), s)
    ensures Gapless(w.Visible(), s)
  {
    SlotBounds(s);
    SlotBounds(rows);
  }

  // ------------------------------------------- what a retrieval holds while it is paging

  /** Every visible payload from a bound on, below the high bound of the retrieval and
      outside the look-back window, is among the rows. */
  ghost predicate Held(visible: set<Payload>, rows: set<Payload>, high: nat, reach: int, newest: nat) {
    forall p :: p in visible && AtOrBelow(p, high) && p.slot > reach && p.slot + LOOKBACK < newest ==> p in rows
  }

  ghost predicate Within(rows: set<Payload>, high: nat, reach: int) {
    forall q :: q in rows ==> AtOrBelow(q, high) && q.slot >= reach && q.slot >= 1
  }

  /** Between two requests. */
  ghost predicate Between(visible: set<Payload>, s: set<Payload>, pending: set<Payload>, high: nat, offset: nat, first: bool) {
    Gapless(visible, s) &&
    (first ==> offset == high && pending == {}) &&
    (!first ==> offset >= 1 && (high != 0 ==> offset <= high) && Within(pending, high, offset) &&
                Held(visible, s + pending, high, offset, Newest(s + pending)))
  }

  /** How far down a page, or the whole paging, has reached. */
  function PageReach(resp: seq<Payload>): int {
    if |resp| < PAGE_SIZE then -1 else resp[|resp| - 1].slot
  }

  function Reach(end: End): int {
    match end
    case Floor(last) => last
    case NullAt(cursor, _) => cursor
    case _ => -1
  }

  /** At the end of the paging. */
  ghost predicate Ended(visible: set<Payload>, s: set<Payload>, rows: set<Payload>, low: nat, high: nat, end: End) {
    Gapless(visible, s) &&
    (end.Floor? ==> end.last < MinSlot(low)) &&
    (ReachesCommit(end) ==> Within(rows, high, Reach(end))) &&
    if end.NullAt? && end.first then rows == {}
    else ReachesCommit(end) ==> Held(visible, s + rows, high, Reach(end), Newest(s + rows))
  }

  lemma GrowthKeepsHeld(v: Outside, w: Outside, rows: set<Payload>, measured: set<Payload>, high: nat, reach: int, lateness: nat)
    requires Grew(v, w, measured, lateness) && lateness <= LOOKBACK
    requires Held(v.Visible(), rows, high, reach, Newest(measured))
    ensures Held(w.Visible(), rows, high, reach, Newest(measured))
  {}

  lemma NewestOfMore(rows: set<Payload>, more: set<Payload>, bound: nat)
    requires forall q :: q in more ==> q.slot <= bound
    ensures Newest(rows + more) == Newest(rows) || Newest(rows + more) <= bound
  {
    SlotBounds(rows);
    SlotBounds(rows + more);
    if rows + more != {} {
      var x :| x in rows + more && x.slot == Newest(rows + more);
      if x in rows && rows != {} {
        var y :| y in rows && y.slot == Newest(rows);
        assert y in rows + more;
      }
    } else {
      assert rows == rows + more;
    }
  }

  function All(resp: seq<Payload>): set<Payload> {
    set p | p in resp
  }

  lemma PageFloor(relay: set<Payload>, cursor: nat, resp: seq<Payload>, q: Payload)
    requires IsPage(relay, cursor, resp) && q in resp
    ensures q.slot >= resp[|resp| - 1].slot && AtOrBelow(q, cursor) && q in relay
  {
    var i :| 0 <= i < |resp| && resp[i] == q;
    if i < |resp| - 1 { assert resp[i].slot >= resp[|resp| - 1].slot; }
  }

  lemma PageHolds(relay: set<Payload>, cursor: nat, resp: seq<Payload>, p: Payload)
    requires IsPage(relay, cursor, resp) && p in relay && AtOrBelow(p, cursor) && p.slot > PageReach(resp)
    ensures p in resp
  {}

  /** A page holds everything down to its end that no earlier page held. */
  lemma RequestHolds(out: Outside, s: set<Payload>, pending: set<Payload>, added: set<Payload>, high: nat, offset: nat,
                     first: bool, resp: seq<Payload>)
    requires IsPage(out.relay, offset, resp) && Between(out.Visible(), s, pending, high, offset, first)
    requires added <= All(resp)
    ensures Held(out.Visible(), s + pending + All(resp), high, PageReach(resp), Newest(s + pending + added))
  {
    var newest := Newest(s + pending + added);
    forall q | q in added ensures AtOrBelow(q, offset) { PageFloor(out.relay, offset, resp, q); }
    if !first { NewestOfMore(s + pending, added, offset); }
    forall p | p in out.Visible() && AtOrBelow(p, high) && p.slot > PageReach(resp) && p.slot + LOOKBACK < newest
      ensures p in s + pending + All(resp)
    {
      if AtOrBelow(p, offset) { PageHolds(out.relay, offset, resp, p); }
    }
  }

  /** The rows of a page before its insert number i, with those still to be inserted. */
  function Awaited(env: Env, c: nat, resp: seq<Payload>, i: nat): set<Payload>
    requires i <= |resp|
  {
    Known(env, c, resp, i) + All(resp[i..])
  }

  lemma AwaitedStep(env: Env, c: nat, resp: seq<Payload>, i: nat)
    requires i < |resp|
    ensures forall p :: p in Awaited(env, c, resp, i) && p in env.world(c, i).blocks ==> p in Awaited(env, c, resp, i + 1)
  {
    assert resp[i..] == [resp[i]] + resp[i + 1..];
    forall p | p in Awaited(env, c, resp, i) && p in env.world(c, i).blocks ensures p in Awaited(env, c, resp, i + 1) {
      if p in Known(env, c, resp, i) {
        var j :| 0 <= j < i && resp[j] in env.world(c, j).blocks && resp[j] == p;
      } else if p !in resp[i + 1..] {
        assert p == resp[i];
      }
    }
  }

  lemma AwaitedEnds(env: Env, c: nat, resp: seq<Payload>)
    ensures Awaited(env, c, resp, 0) == All(resp)
    ensures Awaited(env, c, resp, |resp|) == KnownAll(env, c, resp)
  {
    assert resp[0..] == resp && Known(env, c, resp, 0) == {};
    assert All(resp[|resp|..]) == {};
  }

  lemma RowsOfPage(env: Env, c: nat)
    requires env.fetch(c).Answer?
    ensures Rows(env, c) <= All(env.fetch(c).payloads)
    ensures InsertsWork(env, c, env.fetch(c).payloads) <==> Ran(env, c) == |env.fetch(c).payloads|
    ensures InsertsWork(env, c, env.fetch(c).payloads) ==> Rows(env, c) == KnownAll(env, c, env.fetch(c).payloads)
  {}

  /** Inside a page. */
  ghost predicate InPage(env: Env, c: nat, resp: seq<Payload>, s: set<Payload>, before: set<Payload>, measured: set<Payload>,
                         high: nat, reach: int, i: nat)
    requires i <= |resp|
  {
    Gapless(env.world(c, i).Visible(), s) &&
    Held(env.world(c, i).Visible(), before + Awaited(env, c, resp, i), high, reach, Newest(measured))
  }

  lemma {:induction false} PageInserted(env: Env, c: nat, resp: seq<Payload>, s: set<Payload>, before: set<Payload>,
                                        measured: set<Payload>, high: nat, reach: int, lateness: nat, i: nat)
    requires env.fetch(c) == Answer(resp) && i <= Ran(env, c) <= |resp| && lateness <= LOOKBACK && s <= measured
    requires PageMoves(env, c, measured, lateness) && InPage(env, c, resp, s, before, measured, high, reach, 0)
    ensures InPage(env, c, resp, s, before, measured, high, reach, i)
  {
    if i > 0 {
      PageInserted(env, c, resp, s, before, measured, high, reach, lateness, i - 1);
      var v, w := env.world(c, i - 1), env.world(c, i);
      AwaitedStep(env, c, resp, i - 1);
      assert Held(v.Visible(), before + Awaited(env, c, resp, i), high, reach, Newest(measured));
      assert Grew(v, env.world(c, (i - 1) + 1), measured, lateness);
      GrowthKeepsHeld(v, w, before + Awaited(env, c, resp, i), measured, high, reach, lateness);
      GrowthKeepsGapless(v, w, s, measured, lateness);
    }
  }

  /** From a request to the end of its page. */
  lemma PageKeeps(env: Env, offset: nat, first: bool, s: set<Payload>, pending: set<Payload>, high: nat, lateness: nat)
    requires FollowsSpec(env) && env.fetch(offset).Answer? && lateness <= LOOKBACK
    requires PageMoves(env, offset, s + (pending + Rows(env, offset)), lateness)
    requires Between(env.world(offset, 0).Visible(), s, pending, high, offset, first)
    ensures var out := env.world(offset, Ran(env, offset));
            var resp := env.fetch(offset).payloads;
            var now := pending + Rows(env, offset);
            Gapless(out.Visible(), s) &&
            (InsertsWork(env, offset, resp) ==> Held(out.Visible(), s + now, high, PageReach(resp), Newest(s + now)))
  {
    var resp, out := env.fetch(offset).payloads, env.world(offset, 0);
    var now := pending + Rows(env, offset);
    RowsOfPage(env, offset);
    RequestHolds(out, s, pending, Rows(env, offset), high, offset, first, resp);
    assert s + pending + Rows(env, offset) == s + now;
    AwaitedEnds(env, offset, resp);
    PageInserted(env, offset, resp, s, s + pending, s + now, high, PageReach(resp), lateness, Ran(env, offset));
    assert InsertsWork(env, offset, resp) ==> s + pending + KnownAll(env, offset, resp) == s + now;
  }

  lemma PageWithin(env: Env, offset: nat, first: bool, visible: set<Payload>, s: set<Payload>, pending: set<Payload>, high: nat)
    requires FollowsSpec(env) && env.fetch(offset).Answer?
    requires Between(visible, s, pending, high, offset, first)
    ensures Within(pending + Rows(env, offset), high,
                   if env.fetch(offset).payloads == [] then -1 else LastSlot(env, offset))
  {
    var resp := env.fetch(offset).payloads;
    RowsOfPage(env, offset);
    var relay := env.world(offset, 0).relay;
    if resp != [] {
      PageFloor(relay, offset, resp, resp[|resp| - 1]);
    }
    forall q | q in Rows(env, offset) ensures AtOrBelow(q, high) && q.slot >= 1 && q.slot >= LastSlot(env, offset) {
      PageFloor(relay, offset, resp, q);
    }
  }

  /** A page that ends the paging. */
  lemma LastPageKeeps(env: Env, low: nat, offset: nat, first: bool, s: set<Payload>, pending: set<Payload>, high: nat, lateness: nat)
    requires FollowsSpec(env) && !Continues(env, offset, low) && lateness <= LOOKBACK
    requires env.fetch(offset).Answer? && InsertsWork(env, offset, env.fetch(offset).payloads)
    requires PageMoves(env, offset, s + (pending + Rows(env, offset)), lateness)
    requires Between(env.world(offset, 0).Visible(), s, pending, high, offset, first)
    ensures var last := LastPages(env, low, offset, first);
            last.pending == Rows(env, offset) && last.final == env.world(offset, Ran(env, offset)) &&
            Ended(last.final.Visible(), s, pending + Rows(env, offset), low, high, last.end)
  {
    RowsOfPage(env, offset);
    PageKeeps(env, offset, first, s, pending, high, lateness);
    PageWithin(env, offset, first, env.world(offset, 0).Visible(), s, pending, high);
  }

  /** A page one of whose inserts fails. */
  lemma FailedPageKeeps(env: Env, low: nat, offset: nat, first: bool, s: set<Payload>, pending: set<Payload>, high: nat, lateness: nat)
    requires FollowsSpec(env) && lateness <= LOOKBACK
    requires env.fetch(offset).Answer? && !InsertsWork(env, offset, env.fetch(offset).payloads)
    requires PageMoves(env, offset, s + (pending + Rows(env, offset)), lateness)
    requires Between(env.world(offset, 0).Visible(), s, pending, high, offset, first)
    ensures var last := LastPages(env, low, offset, first); Gapless(last.final.Visible(), s) && last.end.InsertFailed?
  {
    PageKeeps(env, offset, first, s, pending, high, lateness);
  }

  /** No page. */
  lemma NoPageKeeps(env: Env, low: nat, offset: nat, first: bool, s: set<Payload>, pending: set<Payload>, high: nat)
    requires !env.fetch(offset).Answer?
    requires Between(env.world(offset, 0).Visible(), s, pending, high, offset, first)
    ensures var last := LastPages(env, low, offset, first);
            last.pending == {} && Ended(last.final.Visible(), s, pending, low, high, last.end)
  {}

  /** A reply that ends the paging. */
  lemma LastKeeps(env: Env, low: nat, offset: nat, first: bool, s: set<Payload>, pending: set<Payload>, high: nat, lateness: nat)
    requires FollowsSpec(env) && !Continues(env, offset, low) && lateness <= LOOKBACK
    requires PageMoves(env, offset, s + (pending + Rows(env, offset)), lateness)
    requires Between(env.world(offset, 0).Visible(), s, pending, high, offset, first)
    ensures var last := LastPages(env, low, offset, first);
            Ended(last.final.Visible(), s, pending + last.pending, low, high, last.end)
  {
    if !env.fetch(offset).Answer? {
      NoPageKeeps(env, low, offset, first, s, pending, high);
      assert pending + {} == pending;
    } else if InsertsWork(env, offset, env.fetch(offset).payloads) {
      LastPageKeeps(env, low, offset, first, s, pending, high, lateness);
    } else {
      FailedPageKeeps(env, low, offset, first, s, pending, high, lateness);
    }
  }

  /** A reply that calls for another page. */
  lemma FurtherKeeps(env: Env, low: nat, offset: nat, first: bool, s: set<Payload>, pending: set<Payload>, high: nat, lateness: nat)
    requires FollowsSpec(env) && (!first ==> offset >= 1) && Continues(env, offset, low) && lateness <= LOOKBACK
    requires Moves(env, low, offset, first, s, pending, true, lateness)
    requires Between(env.world(offset, 0).Visible(), s, pending, high, offset, first)
    ensures var next := LastSlot(env, offset);
            next >= 1 && Rows(env, offset) == KnownAll(env, offset, env.fetch(offset).payloads) &&
            Between(env.world(next, 0).Visible(), s, pending + Rows(env, offset), high, next, false)
  {
    var next, now := LastSlot(env, offset), pending + Rows(env, offset);
    var out := env.world(offset, Ran(env, offset));
    CursorFalls(env, low, offset, first);
    RowsOfPage(env, offset);
    PageKeeps(env, offset, first, s, pending, high, lateness);
    PageWithin(env, offset, first, env.world(offset, 0).Visible(), s, pending, high);
    GrowthKeepsHeld(out, env.world(next, 0), s + now, s + now, high, next, lateness);
    GrowthKeepsGapless(out, env.world(next, 0), s, s + now, lateness);
  }

  /** However the outside moves meanwhile, at the end of its paging a retrieval holds all it
      passed by. */
  lemma {:induction false} PagingKeeps(env: Env, low: nat, offset: nat, first: bool, s: set<Payload>, pending: set<Payload>,
                                       high: nat, lateness: nat)
    requires FollowsSpec(env) && (!first ==> offset >= 1) && lateness <= LOOKBACK
    requires Moves(env, low, offset, first, s, pending, true, lateness)
    requires Between(env.world(offset, 0).Visible(), s, pending, high, offset, first)
    ensures var pages := Paging(env, low, offset, first);
            Ended(pages.final.Visible(), s, pending + pages.pending, low, high, pages.end)
    decreases first, offset
  {
    if Continues(env, offset, low) {
      CursorFalls(env, low, offset, first);
      FurtherKeeps(env, low, offset, first, s, pending, high, lateness);
      var now := pending + Rows(env, offset);
      PagingKeeps(env, low, LastSlot(env, offset), false, s, now, high, lateness);
      var rest := Paging(env, low, LastSlot(env, offset), false);
      assert pending + (Rows(env, offset) + rest.pending) == now + rest.pending;
    } else {
      LastKeeps(env, low, offset, first, s, pending, high, lateness);
    }
  }

  // ------------------------------------------------------------------ null replies

  /** A null for a later cursor of the first phase commits everything above the cursor. By
      the ends of the tables: whether a slot at or below the cursor lies above the oldest
      stored row, within the look-back of the old newest row and outside that of the new. */
  predicate GapPossible(s: set<Payload>, cursor: nat, t: set<Payload>) {
    s != {} && Oldest(s) < cursor && Newest(s) <= cursor + LOOKBACK && Newest(s) < Newest(t) &&
    Oldest(s) + 1 + LOOKBACK < Newest(t)
  }

  function GapSlot(s: set<Payload>): nat {
    if Oldest(s) + 1 + LOOKBACK >= Newest(s) then Oldest(s) + 1 else Newest(s) - LOOKBACK
  }

  lemma GapSlotExists(s: set<Payload>, cursor: nat, t: set<Payload>, slot: nat)
    ensures s != {} && slot <= cursor && Oldest(s) < slot && Newest(s) <= slot + LOOKBACK < Newest(t) ==>
              GapPossible(s, cursor, t)
    ensures GapPossible(s, cursor, t) ==>
              var g := GapSlot(s); g <= cursor && Oldest(s) < g && Newest(s) <= g + LOOKBACK < Newest(t)
  {}

  ghost predicate HarmlessEnd(end: End, s: set<Payload>, rows: set<Payload>) {
    end.NullAt? && !end.first ==> !GapPossible(s, end.cursor, s + rows)
  }

  // ---------------------------------------------------------------------- two phases

  /** Committing the first phase, from the head to the look-back window, keeps the table
      gapless. */
  lemma HeadCommit(visible: set<Payload>, s: set<Payload>, rows: set<Payload>, low: nat, end: End)
    requires Ended(visible, s, rows, low, 0, end) && ReachesCommit(end) && HarmlessEnd(end, s, rows)
    requires low == 0 || low == Newest(s)
    ensures Gapless(visible, s + rows)
  {
    var t := s + rows;
    SlotBounds(s);
    SlotBounds(t);
    if end.NullAt? && end.first {
      assert t == s;
    } else {
      forall p | p in visible && t != {} && Oldest(t) < p.slot && p.slot + LOOKBACK < Newest(t) ensures p in t {
        var x :| x in t && x.slot == Oldest(t);
        assert x in rows ==> x.slot >= Reach(end);
        if end.NullAt? { GapSlotExists(s, end.cursor, t, p.slot); }
      }
    }
  }

  /** Committing the second phase, from the oldest row down, does so whatever ended it. */
  lemma TailCommit(visible: set<Payload>, s: set<Payload>, rows: set<Payload>, end: End)
    requires Ended(visible, s, rows, 0, Oldest(s), end) && ReachesCommit(end) && Oldest(s) != 0
    ensures Gapless(visible, s + rows)
  {
    var t := s + rows;
    assert s != {};
    SlotBounds(s);
    SlotBounds(t);
    if end.NullAt? && end.first {
      assert t == s;
    } else {
      NewestOfMore(s, rows, Oldest(s));
      forall p | p in visible && Oldest(t) < p.slot && p.slot + LOOKBACK < Newest(t) ensures p in t {
        var x :| x in t && x.slot == Oldest(t);
        assert x in rows ==> x.slot >= Reach(end);
      }
    }
  }

  /** One retrieval in a moving world: before the commit, and after it. */
  lemma RetrieveKeeps(env: Env, low: nat, high: nat, s: set<Payload>, lateness: nat)
    requires FollowsSpec(env) && lateness <= LOOKBACK && RetrieveMoves(env, low, high, s, true, lateness)
    requires Gapless(env.world(high, 0).Visible(), s)
    ensures Gapless(FinalOutside(env, low, high).Visible(), s)
    ensures var pages := Paging(env, low, high, true);
            !env.beginFails ==> Ended(pages.final.Visible(), s, pages.pending, low, high, pages.end)
  {
    if !env.beginFails {
      var pages := Paging(env, low, high, true);
      PagingKeeps(env, low, high, true, s, {}, high, lateness);
      assert {} + pages.pending == pages.pending;
    }
  }

  lemma HeadKeeps(env: Env, low: nat, s: set<Payload>, lateness: nat)
    requires FollowsSpec(env) && lateness <= LOOKBACK && RetrieveMoves(env, low, 0, s, true, lateness)
    requires Gapless(env.world(0, 0).Visible(), s) && (low == 0 || low == Newest(s))
    requires var pages := Paging(env, low, 0, true); HarmlessEnd(pages.end, s, pages.pending)
    ensures var rows := Retrieved(env, low, 0);
            Gapless(FinalOutside(env, low, 0).Visible(), if rows.Some? then s + rows.value else s)
  {
    RetrieveKeeps(env, low, 0, s, lateness);
    if Retrieved(env, low, 0).Some? {
      var pages := Paging(env, low, 0, true);
      HeadCommit(pages.final.Visible(), s, pages.pending, low, pages.end);
    }
  }

  lemma TailKeeps(env: Env, s: set<Payload>, lateness: nat)
    requires FollowsSpec(env) && Oldest(s) != 0 && lateness <= LOOKBACK
    requires RetrieveMoves(env, 0, Oldest(s), s, true, lateness) && Gapless(env.world(Oldest(s), 0).Visible(), s)
    ensures var rows := Retrieved(env, 0, Oldest(s));
            Gapless(FinalOutside(env, 0, Oldest(s)).Visible(), if rows.Some? then s + rows.value else s)
  {
    RetrieveKeeps(env, 0, Oldest(s), s, lateness);
    if Retrieved(env, 0, Oldest(s)).Some? {
      var pages := Paging(env, 0, Oldest(s), true);
      TailCommit(pages.final.Visible(), s, pages.pending, pages.end);
    }
  }

  // ------------------------------------------------------------------------ whole runs

  /** The outside and the exported rows at one point of a run. */
  datatype World = World(outside: Outside, stored: set<Payload>) {
    function Visible(): set<Payload> { outside.Visible() }
  }

  /** The outside moves between two exports. */
  ghost predicate Grows(v: World, w: World, lateness: nat) {
    w.stored == v.stored && Grew(v.outside, w.outside, v.stored, lateness)
  }

  /** The table between the two phases of an export. */
  ghost function Middle(e: Attempt, s: set<Payload>): set<Payload>
    requires Regular(e)
  {
    var rows := Retrieved(e.head, Low(e, s), 0);
    if rows.Some? then s + rows.value else s
  }

  /** Whether an export comes to its second phase. */
  ghost predicate HasTail(e: Attempt, s: set<Payload>)
    requires Regular(e)
  {
    Retrieved(e.head, Low(e, s), 0).Some? && High(e, Middle(e, s)) != 0
  }

  ghost function OutsideAfter(e: Attempt, s: set<Payload>): Outside
    requires Regular(e)
  {
    if HasTail(e, s) then FinalOutside(e.tail, 0, High(e, Middle(e, s))) else FinalOutside(e.head, Low(e, s), 0)
  }

  /** One call of exportRelayBlocks, with any replies, failures and rollbacks and with the
      outside moving all the while, but without a null reply that can leave a hole. */
  ghost predicate Exports(v: World, w: World, e: Attempt, inFlight: bool, lateness: nat) {
    Regular(e) && HeadStep(v, e, inFlight, lateness) &&
    w.stored == Exported(e, v.stored).1 && w.outside == OutsideAfter(e, v.stored) &&
    (HasTail(e, v.stored) ==> TailStep(v, e, inFlight, lateness))
  }

  ghost predicate HeadStep(v: World, e: Attempt, inFlight: bool, lateness: nat)
    requires Regular(e)
  {
    var low := Low(e, v.stored);
    var pages := Paging(e.head, low, 0, true);
    e.head.world(0, 0) == v.outside && RetrieveMoves(e.head, low, 0, v.stored, inFlight, lateness) &&
    HarmlessEnd(pages.end, v.stored, pages.pending)
  }

  ghost predicate TailStep(v: World, e: Attempt, inFlight: bool, lateness: nat)
    requires Regular(e)
  {
    var mid := Middle(e, v.stored);
    var high := High(e, mid);
    Grew(FinalOutside(e.head, Low(e, v.stored), 0), e.tail.world(high, 0), mid, lateness) &&
    RetrieveMoves(e.tail, 0, high, mid, inFlight, lateness)
  }

  ghost predicate Next(v: World, w: World, inFlight: bool, lateness: nat) {
    Grows(v, w, lateness) || exists e: Attempt :: Exports(v, w, e, inFlight, lateness)
  }

  ghost predicate IsRun(run: seq<World>, inFlight: bool, lateness: nat) {
    run != [] && run[0].stored == {} && forall i :: 0 < i < |run| ==> Next(run[i - 1], run[i], inFlight, lateness)
  }

  lemma RowsPositive(env: Env, low: nat, offset: nat, first: bool)
    requires FollowsSpec(env) && (!first ==> offset >= 1)
    ensures Positive(Paging(env, low, offset, first).pending)
    decreases first, offset
  {
    if Continues(env, offset, low) {
      CursorFalls(env, low, offset, first);
      RowsPositive(env, low, LastSlot(env, offset), false);
    }
  }

  /** Every row has a positive slot. */
  lemma ExportKeepsPositive(e: Attempt, s: set<Payload>)
    requires Regular(e) && Positive(s)
    ensures Positive(Exported(e, s).1)
  {
    RowsPositive(e.head, Low(e, s), 0, true);
    if HasTail(e, s) { RowsPositive(e.tail, 0, High(e, Middle(e, s)), true); }
  }

  lemma ExportKeepsGapless(v: World, w: World, e: Attempt, lateness: nat)
    requires Gapless(v.Visible(), v.stored) && Exports(v, w, e, true, lateness) && lateness <= LOOKBACK
    ensures Gapless(w.Visible(), w.stored)
  {
    var low, mid := Low(e, v.stored), Middle(e, v.stored);
    HeadKeeps(e.head, low, v.stored, lateness);
    assert Gapless(FinalOutside(e.head, low, 0).Visible(), mid);
    if HasTail(e, v.stored) {
      var high := High(e, mid);
      GrowthKeepsGapless(FinalOutside(e.head, low, 0), e.tail.world(high, 0), mid, mid, lateness);
      TailKeeps(e.tail, mid, lateness);
    }
  }

  /** In every run, however the outside moves between exports, between the two phases,
      between requests and between inserts, and whichever exports are rolled back, no visible
      payload is ever left behind between the oldest stored row and the look-back window. */
  lemma {:induction false} RunStaysGapless(run: seq<World>, lateness: nat, i: nat)
    requires IsRun(run, true, lateness) && lateness <= LOOKBACK && i < |run|
    ensures Gapless(run[i].Visible(), run[i].stored) && Positive(run[i].stored)
  {
    if i > 0 {
      RunStaysGapless(run, lateness, i - 1);
      var v, w := run[i - 1], run[i];
      assert Next(v, w, true, lateness);
      if Grows(v, w, lateness) {
        GrowthKeepsGapless(v.outside, w.outside, v.stored, v.stored, lateness);
      } else {
        var e: Attempt :| Exports(v, w, e, true, lateness);
        ExportKeepsGapless(v, w, e, lateness);
        ExportKeepsPositive(e, v.stored);
      }
    }
  }

  // ------------------------------------------------------------------ where rows come from

  /** A payload an export inserted, its block known at that moment. */
  ghost predicate InsertedIn(e: Attempt, p: Payload) {
    (exists c: nat :: InsertedBy(e.head, c, p)) || exists c: nat :: InsertedBy(e.tail, c, p)
  }

  lemma ExportedRows(e: Attempt, s: set<Payload>, p: Payload)
    requires Regular(e) && p in Exported(e, s).1 && p !in s
    ensures InsertedIn(e, p)
  {
    if p in Middle(e, s) {
      PendingInserted(e.head, Low(e, s), 0, true, p);
    } else {
      PendingInserted(e.tail, 0, High(e, Middle(e, s)), true, p);
    }
  }

  ghost predicate ExportedBetween(v: World, w: World, inFlight: bool, lateness: nat, p: Payload) {
    exists e: Attempt :: Exports(v, w, e, inFlight, lateness) && InsertedIn(e, p)
  }

  /** Every stored row was on a page of the relay in some export of the run, and its block was
      known when it was inserted. */
  lemma {:induction false} RowsWereKnown(run: seq<World>, inFlight: bool, lateness: nat, i: nat, p: Payload)
    requires IsRun(run, inFlight, lateness) && i < |run| && p in run[i].stored
    ensures exists j: nat :: j < i && ExportedBetween(run[j], run[j + 1], inFlight, lateness, p)
  {
    if i > 0 {
      if p in run[i - 1].stored {
        RowsWereKnown(run, inFlight, lateness, i - 1, p);
      } else {
        assert Next(run[i - 1], run[i], inFlight, lateness);
        var e: Attempt :| Exports(run[i - 1], run[i], e, inFlight, lateness);
        ExportedRows(e, run[i - 1].stored, p);
        assert ExportedBetween(run[i - 1], run[(i - 1) + 1], inFlight, lateness, p);
      }
    }
  }

  // ----------------------------------------------------------------- what is never lost

  /** Payloads that are visible from the first request of a retrieval to its last insert. */
  ghost predicate Throughout(vis: set<Payload>, env: Env, asked: set<nat>) {
    forall c: nat, i: nat :: c in asked && i <= Ran(env, c) ==> vis <= env.world(c, i).Visible()
  }

  /** What a committed retrieval between two bounds has added: everything visible from the
      low bound (less the look-back) up to the high bound, and without a hole. */
  ghost predicate Covers(vis: set<Payload>, added: set<Payload>, low: nat, high: nat) {
    (forall q :: q in added ==> AtOrBelow(q, high)) &&
    (forall p :: p in vis && AtOrBelow(p, high) && p.slot >= MinSlot(low) ==> p in added) &&
    (forall p, q :: p in vis && q in added && AtOrBelow(p, high) && p.slot > q.slot ==> p in added)
  }

  /** The state of the paging loop between two requests. */
  ghost predicate Paged(vis: set<Payload>, pending: set<Payload>, high: nat, offset: nat, first: bool) {
    (forall q :: q in pending ==> AtOrBelow(q, high)) &&
    (first ==> offset == high && pending == {}) &&
    (!first ==> offset >= 1 && (high != 0 ==> offset <= high) &&
                (forall q :: q in pending ==> q.slot >= offset) &&
                (forall p :: p in vis && AtOrBelow(p, high) && p.slot > offset ==> p in pending))
  }

  /** The rows of a page are payloads of it, and all of those that stay visible. */
  lemma PageRows(vis: set<Payload>, env: Env, c: nat, asked: set<nat>)
    requires env.fetch(c).Answer? && InsertsWork(env, c, env.fetch(c).payloads)
    requires c in asked && Throughout(vis, env, asked)
    ensures Rows(env, c) <= All(env.fetch(c).payloads)
    ensures forall p :: p in vis && p in env.fetch(c).payloads ==> p in Rows(env, c)
  {
    var resp := env.fetch(c).payloads;
    RowsOfPage(env, c);
    forall p | p in vis && p in resp ensures p in Rows(env, c) {
      var i :| 0 <= i < |resp| && resp[i] == p;
      assert vis <= env.world(c, i).Visible();
    }
  }

  /** After one more page everything above its last slot is pending. */
  lemma OnePage(vis: set<Payload>, env: Env, asked: set<nat>, pending: set<Payload>, high: nat, offset: nat, first: bool)
    requires FollowsSpec(env) && env.fetch(offset).Answer? && offset in asked && Throughout(vis, env, asked)
    requires Paged(vis, pending, high, offset, first) && InsertsWork(env, offset, env.fetch(offset).payloads)
    requires env.fetch(offset).payloads != []
    ensures Paged(vis, pending + Rows(env, offset), high, LastSlot(env, offset), false)
  {
    var resp, now, out := env.fetch(offset).payloads, pending + Rows(env, offset), env.world(offset, 0);
    PageRows(vis, env, offset, asked);
    assert vis <= out.Visible();
    PageFloor(out.relay, offset, resp, resp[|resp| - 1]);
    forall q | q in now ensures AtOrBelow(q, high) && q.slot >= LastSlot(env, offset) {
      if q in Rows(env, offset) { PageFloor(out.relay, offset, resp, q); }
    }
    forall p | p in vis && AtOrBelow(p, high) && p.slot > LastSlot(env, offset) ensures p in now {
      if AtOrBelow(p, offset) { PageHolds(out.relay, offset, resp, p); }
    }
  }

  /** A short page ends the list. */
  lemma LastPage(vis: set<Payload>, env: Env, asked: set<nat>, pending: set<Payload>, high: nat, low: nat, offset: nat, first: bool)
    requires FollowsSpec(env) && env.fetch(offset).Answer? && offset in asked && Throughout(vis, env, asked)
    requires Paged(vis, pending, high, offset, first) && InsertsWork(env, offset, env.fetch(offset).payloads)
    requires |env.fetch(offset).payloads| < PAGE_SIZE
    ensures Covers(vis, pending + Rows(env, offset), low, high)
  {
    var resp, now, out := env.fetch(offset).payloads, pending + Rows(env, offset), env.world(offset, 0);
    PageRows(vis, env, offset, asked);
    assert vis <= out.Visible();
    forall q | q in now ensures AtOrBelow(q, high) {
      if q in Rows(env, offset) { PageFloor(out.relay, offset, resp, q); }
    }
    forall p | p in vis && AtOrBelow(p, high) ensures p in now {
      if AtOrBelow(p, offset) { PageHolds(out.relay, offset, resp, p); }
    }
  }

  /** What a retrieval has gathered at its end. A page end or the floor leaves no hole; a
      null leaves everything above its cursor. */
  ghost predicate Gathered(vis: set<Payload>, end: End, now: set<Payload>, low: nat, high: nat) {
    (end.Short? || end.Floor? ==> Covers(vis, now, low, high)) &&
    (end.NullAt? && !end.first ==> Paged(vis, now, high, end.cursor, false)) &&
    (end.NullAt? && end.first ==> now == {})
  }

  lemma LastGathers(vis: set<Payload>, env: Env, asked: set<nat>, pending: set<Payload>, high: nat, low: nat, offset: nat, first: bool)
    requires FollowsSpec(env) && Paged(vis, pending, high, offset, first) && !Continues(env, offset, low)
    requires offset in asked && Throughout(vis, env, asked)
    ensures var pages := LastPages(env, low, offset, first); Gathered(vis, pages.end, pending + pages.pending, low, high)
  {
    assert pending + {} == pending;
    if env.fetch(offset).Answer? && InsertsWork(env, offset, env.fetch(offset).payloads) {
      RowsOfPage(env, offset);
      if |env.fetch(offset).payloads| < PAGE_SIZE { LastPage(vis, env, asked, pending, high, low, offset, first); }
      if env.fetch(offset).payloads != [] { OnePage(vis, env, asked, pending, high, offset, first); }
    }
  }

  lemma {:induction false} PagesCover(vis: set<Payload>, env: Env, asked: set<nat>, pending: set<Payload>, high: nat, low: nat,
                                      offset: nat, first: bool)
    requires FollowsSpec(env) && Paged(vis, pending, high, offset, first) && Throughout(vis, env, asked)
    requires Paging(env, low, offset, first).asked <= asked
    ensures var pages := Paging(env, low, offset, first); Gathered(vis, pages.end, pending + pages.pending, low, high)
    decreases first, offset
  {
    var pages := Paging(env, low, offset, first);
    assert offset in pages.asked;
    if Continues(env, offset, low) {
      CursorFalls(env, low, offset, first);
      RowsOfPage(env, offset);
      OnePage(vis, env, asked, pending, high, offset, first);
      var rest := Paging(env, low, LastSlot(env, offset), false);
      assert rest.asked <= pages.asked;
      PagesCover(vis, env, asked, pending + Rows(env, offset), high, low, LastSlot(env, offset), false);
      assert pending + pages.pending == pending + Rows(env, offset) + rest.pending;
    } else {
      LastGathers(vis, env, asked, pending, high, low, offset, first);
    }
  }

  /** A committed first phase closes every gap above the oldest stored slot, and leaves
      nothing newer than the newest stored slot. */
  lemma HeadSync(vis: set<Payload>, s: set<Payload>, added: set<Payload>, low: nat)
    requires (low == 0 || low == Newest(s)) && Covers(vis, added, low, 0)
    ensures Gapless(vis, s) ==> Complete(vis, s + added)
    ensures forall p :: p in vis ==> p.slot <= Newest(s + added)
  {
    var t := s + added;
    SlotBounds(s);
    SlotBounds(t);
    forall p | p in vis ensures p.slot <= Newest(t) {
      if p !in added {
        assert p.slot < MinSlot(low);
        var x :| x in s && x.slot == Newest(s);
      }
    }
    if Gapless(vis, s) {
      forall p | p in vis && Oldest(t) < p.slot <= Newest(t) ensures p in t {
        if p !in added {
          assert p.slot < MinSlot(low) && p.slot + LOOKBACK < Newest(s);
          var x :| x in t && x.slot == Oldest(t);
          assert x !in added;
        }
      }
    }
  }

  ghost predicate CompleteToTop(vis: set<Payload>, s: set<Payload>) {
    Complete(vis, s) && forall p :: p in vis ==> p.slot <= Newest(s)
  }

  ghost predicate ThroughoutRetrieval(vis: set<Payload>, env: Env, low: nat, high: nat)
    requires FollowsSpec(env)
  {
    Throughout(vis, env, Paging(env, low, high, true).asked)
  }

  /** A committed first phase that met no null completes a gapless table up to the newest
      payload. */
  lemma HeadCompletes(vis: set<Payload>, env: Env, low: nat, s: set<Payload>)
    requires FollowsSpec(env) && Gapless(vis, s) && ThroughoutRetrieval(vis, env, low, 0)
    requires (low == 0 || low == Newest(s)) && !Paging(env, low, 0, true).end.NullAt?
    ensures var rows := Retrieved(env, low, 0); rows.Some? ==> CompleteToTop(vis, s + rows.value)
  {
    var pages := Paging(env, low, 0, true);
    PagesCover(vis, env, pages.asked, {}, 0, low, 0, true);
    assert {} + pages.pending == pages.pending;
    if pages.end.Short? || pages.end.Floor? { HeadSync(vis, s, pages.pending, low); }
  }

  /** Rows from the oldest down without a hole, down to their own oldest. */
  lemma MoreBelow(vis: set<Payload>, s: set<Payload>, added: set<Payload>)
    requires Oldest(s) != 0 && CompleteToTop(vis, s)
    requires forall q :: q in added ==> q.slot <= Oldest(s)
    requires forall p, q :: p in vis && q in added && p.slot <= Oldest(s) && p.slot > q.slot ==> p in added
    ensures CompleteToTop(vis, s + added)
  {
    var t := s + added;
    assert s != {};
    SlotBounds(s);
    SlotBounds(t);
    NewestOfMore(s, added, Oldest(s));
    var x :| x in s && x.slot == Newest(s);
    assert x in t;
    var z :| z in t && z.slot == Oldest(t);
  }

  /** Whatever ends the second phase, null replies included, a table complete to the top
      stays so; without a null nothing is left out. */
  lemma TailCompletes(vis: set<Payload>, env: Env, s: set<Payload>)
    requires FollowsSpec(env) && Oldest(s) != 0 && CompleteToTop(vis, s) && ThroughoutRetrieval(vis, env, 0, Oldest(s))
    ensures var rows := Retrieved(env, 0, Oldest(s));
            rows.Some? ==>
              CompleteToTop(vis, s + rows.value) &&
              (!Paging(env, 0, Oldest(s), true).end.NullAt? ==> vis <= s + rows.value)
  {
    var high := Oldest(s);
    var pages := Paging(env, 0, high, true);
    PagesCover(vis, env, pages.asked, {}, high, 0, high, true);
    assert {} + pages.pending == pages.pending;
    if ReachesCommit(pages.end) {
      if pages.end.NullAt? && pages.end.first {
        assert s + pages.pending == s;
      } else {
        MoreBelow(vis, s, pages.pending);
      }
    }
  }

  lemma OldestZero(s: set<Payload>)
    requires Oldest(s) == 0
    ensures s == {} || exists p :: p in s && p.slot == 0
  {
    SlotBounds(s);
  }

  /** An export over whose retrievals some payloads stay visible, whatever else moves. If it
      succeeds and its first phase met no null, it completes a gapless table; if the second
      one met none either and the oldest row was read, none of these payloads is left out. */
  lemma ExportCompletes(vis: set<Payload>, e: Attempt, s: set<Payload>)
    requires Regular(e) && Gapless(vis, s) && Exported(e, s).0
    requires ThroughoutRetrieval(vis, e.head, Low(e, s), 0)
    requires HasTail(e, s) ==> ThroughoutRetrieval(vis, e.tail, 0, High(e, Middle(e, s)))
    requires !Paging(e.head, Low(e, s), 0, true).end.NullAt?
    ensures CompleteToTop(vis, Exported(e, s).1)
    ensures !e.firstReadFails && Positive(s) &&
            (HasTail(e, s) ==> !Paging(e.tail, 0, High(e, Middle(e, s)), true).end.NullAt?) ==>
              vis <= Exported(e, s).1
  {
    HeadCompletes(vis, e.head, Low(e, s), s);
    var mid := Middle(e, s);
    RowsPositive(e.head, Low(e, s), 0, true);
    if HasTail(e, s) {
      TailCompletes(vis, e.tail, mid);
    } else if Oldest(mid) == 0 {
      OldestZero(mid);
    }
  }
}
