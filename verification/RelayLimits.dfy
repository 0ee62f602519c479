/** The limits of the relay synchronisation: which null replies can leave a hole, how late a
    payload may become visible, and what goes wrong beyond that. */
module RelayLimits {
  import opened Extremes
  import opened Decimal
  import opened RelayPaging
  import opened RelaySync

  // ---------------------------------------------------- the null condition is the weakest

  /** The same replies to the cursors asked, and so the same retrieval, in a world that moves
      differently. */
  ghost predicate SeesTheSame(env: Env, env': Env, low: nat)
    requires FollowsSpec(env)
  {
    var pages := Paging(env, low, 0, true);
    FollowsSpec(env') && (forall c :: c in pages.asked ==> env'.fetch(c) == env.fetch(c)) &&
    Paging(env', low, 0, true).(final := pages.final) == pages
  }

  /** The outside moves during the paging, and nothing becomes visible later than the look-back. */
  ghost predicate InTime(env: Env, low: nat, s: set<Payload>)
    requires FollowsSpec(env)
  {
    Moves(env, low, 0, true, s, {}, true, LOOKBACK)
  }

  /** In some world the exporter cannot tell from this one the table was gapless before the
      retrieval and is not after its commit. */
  ghost predicate CanLose(env: Env, low: nat, s: set<Payload>)
    requires FollowsSpec(env)
  {
    exists env' :: SeesTheSame(env, env', low) && Loses(env', low, s)
  }

  ghost predicate Loses(env: Env, low: nat, s: set<Payload>) {
    FollowsSpec(env) && InTime(env, low, s) && Gapless(env.world(0, 0).Visible(), s) &&
    var pages := Paging(env, low, 0, true);
    !Gapless(pages.final.Visible(), s + pages.pending)
  }

  ghost predicate FullDownTo(reply: Fetch, cursor: nat) {
    reply.Answer? && |reply.payloads| == PAGE_SIZE && reply.payloads[PAGE_SIZE - 1].slot >= cursor
  }

  /** Every answered cursor before a null was answered with a full page that ends at or
      above the null's cursor. */
  lemma {:induction false} PagesBeforeNull(env: Env, low: nat, offset: nat, first: bool, c: nat)
    requires FollowsSpec(env) && (!first ==> offset >= 1)
    requires var pages := Paging(env, low, offset, first); pages.end.NullAt? && c in pages.asked
    ensures var o := Paging(env, low, offset, first).end.cursor;
            (offset == 0 || offset >= o) && (c == offset || c >= o) &&
            (env.fetch(c).Null? || FullDownTo(env.fetch(c), o))
    decreases first, offset
  {
    if Continues(env, offset, low) {
      CursorFalls(env, low, offset, first);
      var next := LastSlot(env, offset);
      var rest := Paging(env, low, next, false);
      assert next in rest.asked;
      PagesBeforeNull(env, low, next, false, if c == offset then next else c);
      PagesBeforeNull(env, low, next, false, next);
    }
  }

  function Plus(o: Outside, p: Payload): Outside {
    Outside(o.relay + {p}, o.blocks + {p})
  }

  /** The same replies with one more payload in the relay and in the blocks all the time. */
  function Hiding(env: Env, asked: set<nat>, p: Payload): Env {
    env.(fetch := (c: nat) => if c in asked then env.fetch(c) else Failed,
         world := (c: nat, i: nat) => Plus(env.world(c, i), p))
  }

  /** The payloads of all pages asked for. */
  function Shown(env: Env, asked: set<nat>): set<Payload> {
    set c, p | c in asked && env.fetch(c).Answer? && p in env.fetch(c).payloads :: p
  }

  lemma GrewPlus(v: Outside, w: Outside, rows: set<Payload>, lateness: nat, p: Payload)
    requires Grew(v, w, rows, lateness)
    ensures Grew(Plus(v, p), Plus(w, p), rows, lateness)
  {}

  lemma HidingRows(env: Env, asked: set<nat>, p: Payload, c: nat)
    requires c in asked && p !in Shown(env, asked)
    ensures var env' := Hiding(env, asked, p);
            Ran(env', c) == Ran(env, c) && Rows(env', c) == Rows(env, c) &&
            (env.fetch(c).Answer? ==> KnownAll(env', c, env.fetch(c).payloads) == KnownAll(env, c, env.fetch(c).payloads))
  {
    var env' := Hiding(env, asked, p);
    if env.fetch(c).Answer? {
      var resp := env.fetch(c).payloads;
      SameFailure(env, env', c, |resp|);
      forall i | 0 <= i < |resp| ensures resp[i] in env'.world(c, i).blocks <==> resp[i] in env.world(c, i).blocks {
        assert resp[i] in env.fetch(c).payloads;
        assert resp[i] in Shown(env, asked);
      }
    }
  }

  lemma SameFailure(env: Env, env': Env, c: nat, n: nat)
    requires env'.insertFails == env.insertFails
    ensures FirstFailure(env', c, n) == FirstFailure(env, c, n)
  {}

  lemma LastHidden(env: Env, asked: set<nat>, p: Payload, low: nat, offset: nat, first: bool)
    requires offset in asked && p !in Shown(env, asked)
    ensures var last := LastPages(env, low, offset, first);
            LastPages(Hiding(env, asked, p), low, offset, first) == last.(final := Plus(last.final, p))
  {
    HidingRows(env, asked, p, offset);
    if env.fetch(offset).Answer? {
      SameFailure(env, Hiding(env, asked, p), offset, |env.fetch(offset).payloads|);
    }
  }

  /** A payload that no asked page shows changes nothing of what the exporter does. */
  lemma {:induction false} HiddenPayload(env: Env, asked: set<nat>, p: Payload, low: nat, offset: nat, first: bool)
    requires FollowsSpec(env) && FollowsSpec(Hiding(env, asked, p)) && (!first ==> offset >= 1)
    requires Paging(env, low, offset, first).asked <= asked && p !in Shown(env, asked)
    ensures var pages := Paging(env, low, offset, first);
            Paging(Hiding(env, asked, p), low, offset, first) == pages.(final := Plus(pages.final, p))
    decreases first, offset
  {
    var env' := Hiding(env, asked, p);
    assert offset in Paging(env, low, offset, first).asked;
    HidingRows(env, asked, p, offset);
    assert Continues(env', offset, low) == Continues(env, offset, low);
    if Continues(env, offset, low) {
      CursorFalls(env, low, offset, first);
      HiddenPayload(env, asked, p, low, LastSlot(env, offset), false);
    } else {
      LastHidden(env, asked, p, low, offset, first);
    }
  }

  lemma {:induction false} HiddenMoves(env: Env, asked: set<nat>, p: Payload, low: nat, offset: nat, first: bool,
                                       s: set<Payload>, pending: set<Payload>, lateness: nat)
    requires FollowsSpec(env) && FollowsSpec(Hiding(env, asked, p)) && (!first ==> offset >= 1)
    requires Paging(env, low, offset, first).asked <= asked && p !in Shown(env, asked)
    requires Moves(env, low, offset, first, s, pending, true, lateness)
    ensures Moves(Hiding(env, asked, p), low, offset, first, s, pending, true, lateness)
    decreases first, offset
  {
    var env' := Hiding(env, asked, p);
    assert offset in Paging(env, low, offset, first).asked;
    HidingRows(env, asked, p, offset);
    var rows := s + (pending + Rows(env, offset));
    forall i | 0 <= i < Ran(env, offset) ensures Grew(env'.world(offset, i), env'.world(offset, i + 1), rows, lateness) {
      GrewPlus(env.world(offset, i), env.world(offset, i + 1), rows, lateness, p);
    }
    if Continues(env, offset, low) {
      CursorFalls(env, low, offset, first);
      var next := LastSlot(env, offset);
      GrewPlus(env.world(offset, Ran(env, offset)), env.world(next, 0), rows, lateness, p);
      HiddenMoves(env, asked, p, low, next, false, s, pending + Rows(env, offset), lateness);
    }
  }

  function Lengths(s: set<Payload>): set<nat> {
    {0} + set p | p in s :: |p.blockHash|
  }

  /** A payload of a given slot that is in none of finitely many. */
  function Fresh(s: set<Payload>, slot: nat): (p: Payload)
    ensures p.slot == slot && p !in s
  {
    var longest := MaxOf(Lengths(s));
    var p := Payload(slot, seq(longest + 1, i => 0));
    assert p in s ==> |p.blockHash| in Lengths(s);
    p
  }

  lemma HidingFollows(env: Env, low: nat, p: Payload)
    requires FollowsSpec(env) && p.slot >= 1
    requires var pages := Paging(env, low, 0, true); pages.end.NullAt? && p.slot <= pages.end.cursor
    ensures FollowsSpec(Hiding(env, Paging(env, low, 0, true).asked, p))
  {
    var pages := Paging(env, low, 0, true);
    var env' := Hiding(env, pages.asked, p);
    forall c | env'.fetch(c).Answer?
      ensures Positive(env'.world(c, 0).relay) && IsPage(env'.world(c, 0).relay, c, env'.fetch(c).payloads)
    {
      PagesBeforeNull(env, low, 0, true, c);
      assert IsPage(env.world(c, 0).relay, c, env.fetch(c).payloads);
    }
  }

  lemma HoleOpens(visible: set<Payload>, s: set<Payload>, t: set<Payload>, cursor: nat, p: Payload)
    requires GapPossible(s, cursor, t) && s <= t && p.slot == GapSlot(s) && p !in t
    ensures Gapless(visible, s) ==> Gapless(visible + {p}, s)
    ensures p in visible ==> !Gapless(visible, t)
  {
    GapSlotExists(s, cursor, t, 0);
    SlotBounds(s);
    SlotBounds(t);
    var x :| x in s && x.slot == Oldest(s);
    assert x in t;
  }

  /** The exporter cannot tell the world with one more payload, which nobody shows it. */
  lemma HidingIsInvisible(env: Env, low: nat, s: set<Payload>, p: Payload)
    requires FollowsSpec(env) && InTime(env, low, s) && p.slot >= 1
    requires var pages := Paging(env, low, 0, true);
             pages.end.NullAt? && p.slot <= pages.end.cursor && p !in Shown(env, pages.asked)
    ensures var pages := Paging(env, low, 0, true);
            var env' := Hiding(env, pages.asked, p);
            FollowsSpec(env') && InTime(env', low, s) && Paging(env', low, 0, true) == pages.(final := Plus(pages.final, p))
  {
    var asked := Paging(env, low, 0, true).asked;
    HidingFollows(env, low, p);
    HiddenPayload(env, asked, p, low, 0, true);
    HiddenMoves(env, asked, p, low, 0, true, s, {}, LOOKBACK);
  }

  lemma HidingSeesTheSame(env: Env, low: nat, s: set<Payload>, p: Payload)
    requires FollowsSpec(env) && InTime(env, low, s) && p.slot >= 1
    requires var pages := Paging(env, low, 0, true);
             pages.end.NullAt? && p.slot <= pages.end.cursor && p !in Shown(env, pages.asked)
    ensures SeesTheSame(env, Hiding(env, Paging(env, low, 0, true).asked, p), low)
  {
    HidingIsInvisible(env, low, s, p);
  }

  lemma PlusVisible(o: Outside, p: Payload)
    ensures Plus(o, p).Visible() == o.Visible() + {p}
  {}

  lemma HidingLoses(env: Env, low: nat, s: set<Payload>, p: Payload)
    requires FollowsSpec(env) && InTime(env, low, s) && Gapless(env.world(0, 0).Visible(), s)
    requires var pages := Paging(env, low, 0, true);
             pages.end.NullAt? && GapPossible(s, pages.end.cursor, s + pages.pending) && p.slot == GapSlot(s) &&
             p !in Shown(env, pages.asked) && p !in s + pages.pending
    ensures p.slot >= 1 && p.slot <= Paging(env, low, 0, true).end.cursor
    ensures Loses(Hiding(env, Paging(env, low, 0, true).asked, p), low, s)
  {
    var pages := Paging(env, low, 0, true);
    var t := s + pages.pending;
    GapSlotExists(s, pages.end.cursor, t, 0);
    HidingIsInvisible(env, low, s, p);
    PlusVisible(env.world(0, 0), p);
    PlusVisible(pages.final, p);
    HoleOpens(env.world(0, 0).Visible(), s, t, pages.end.cursor, p);
    HoleOpens(Plus(pages.final, p).Visible(), s, t, pages.end.cursor, p);
  }

  lemma NullCanLose(env: Env, low: nat, s: set<Payload>)
    requires FollowsSpec(env) && InTime(env, low, s) && Gapless(env.world(0, 0).Visible(), s)
    requires var pages := Paging(env, low, 0, true);
             pages.end.NullAt? && GapPossible(s, pages.end.cursor, s + pages.pending)
    ensures CanLose(env, low, s)
  {
    var pages := Paging(env, low, 0, true);
    var p := Fresh(Shown(env, pages.asked) + (s + pages.pending), GapSlot(s));
    HidingLoses(env, low, s, p);
    HidingSeesTheSame(env, low, s, p);
  }

  /** Nothing is lost where the ends of the tables exclude a hole. */
  lemma NullKeepsGapless(env: Env, low: nat, s: set<Payload>)
    requires FollowsSpec(env) && InTime(env, low, s) && Gapless(env.world(0, 0).Visible(), s)
    requires var pages := Paging(env, low, 0, true);
             pages.end.NullAt? && !pages.end.first && !GapPossible(s, pages.end.cursor, s + pages.pending)
    ensures !Loses(env, low, s)
  {
    var pages := Paging(env, low, 0, true);
    PagingKeeps(env, low, 0, true, s, {}, 0, LOOKBACK);
    assert {} + pages.pending == pages.pending;
    NullCommit(pages.final.Visible(), s, pages.pending, low, pages.end);
  }

  /** The commit after a later null, whatever the low bound was. */
  lemma NullCommit(visible: set<Payload>, s: set<Payload>, rows: set<Payload>, low: nat, end: End)
    requires Ended(visible, s, rows, low, 0, end) && end.NullAt? && !end.first && HarmlessEnd(end, s, rows)
    ensures Gapless(visible, s + rows)
  {
    HeadCommit(visible, s, rows, 0, end);
  }

  /** After a null for a later cursor of the first phase, the table is gapless in every world
      with these replies, however it moves, if and only if the ends of the tables exclude a
      hole: no weaker condition on what the exporter sees would do. */
  lemma NullExactly(env: Env, low: nat, s: set<Payload>)
    requires FollowsSpec(env) && InTime(env, low, s) && Gapless(env.world(0, 0).Visible(), s)
    requires var pages := Paging(env, low, 0, true); pages.end.NullAt? && !pages.end.first
    ensures var pages := Paging(env, low, 0, true);
            CanLose(env, low, s) <==> GapPossible(s, pages.end.cursor, s + pages.pending)
  {
    var pages := Paging(env, low, 0, true);
    if GapPossible(s, pages.end.cursor, s + pages.pending) {
      NullCanLose(env, low, s);
    } else {
      forall env' | SeesTheSame(env, env', low) && FollowsSpec(env') && InTime(env', low, s) &&
                    Gapless(env'.world(0, 0).Visible(), s)
        ensures !Loses(env', low, s)
      {
        NullKeepsGapless(env', low, s);
      }
    }
  }

  // ------------------------------------------------------- the lateness bound is exact

  /** A relay that answers the given cursors and fails for all others; what is outside may
      depend on the cursor asked. */
  function Replies(pages: map<nat, seq<Payload>>, outside: nat -> Outside): Env {
    Env((c: nat) => if c in pages then Answer(pages[c]) else Failed, (c: nat, i: nat) => outside(c),
        (c: nat, i: nat) => false, false, false)
  }

  function Plain(slot: nat): Payload {
    Payload(slot, [])
  }

  /** A relay all of whose payloads lie in known blocks. */
  function Open(relay: set<Payload>): Outside {
    Outside(relay, relay)
  }

  /** A full page from a slot down. */
  function FullPage(top: nat): (resp: seq<Payload>)
    requires top >= PAGE_SIZE
    ensures |resp| == PAGE_SIZE
    ensures forall i :: 0 <= i < PAGE_SIZE ==> resp[i] == Plain(top - i)
  {
    seq(PAGE_SIZE, i requires 0 <= i < PAGE_SIZE => Plain(top - i))
  }

  lemma FullPageBounds(top: nat)
    requires top >= PAGE_SIZE
    ensures forall p :: p in All(FullPage(top)) ==> top - 99 <= p.slot <= top && p.blockHash == []
    ensures forall slot: nat :: top - 99 <= slot <= top ==> Plain(slot) in All(FullPage(top))
  {
    forall slot: nat | top - 99 <= slot <= top ensures Plain(slot) in All(FullPage(top)) {
      assert FullPage(top)[top - slot] == Plain(slot);
    }
  }

  /** The second phase of every example: the payload of slot 1 alone, in a relay that stands
      still. */
  function BottomPage(relay: set<Payload>): Env {
    Replies(map[1 := [Plain(1)]], c => Open(relay))
  }

  function AttemptWith(head: Env, relay: set<Payload>): Attempt {
    Attempt(false, false, head, BottomPage(relay))
  }

  ghost predicate BottomedOut(relay: set<Payload>) {
    Positive(relay) && Plain(1) in relay && forall p :: p in relay && p.slot == 1 ==> p == Plain(1)
  }

  lemma KnownPage(env: Env, c: nat, resp: seq<Payload>)
    requires forall i :: 0 <= i < |resp| ==> resp[i] in env.world(c, i).blocks
    ensures KnownAll(env, c, resp) == All(resp)
  {
    forall p | p in resp ensures p in KnownAll(env, c, resp) {
      var i :| 0 <= i < |resp| && resp[i] == p;
    }
  }

  lemma NoFailure(pages: map<nat, seq<Payload>>, outside: nat -> Outside, c: nat, n: nat)
    ensures FirstFailure(Replies(pages, outside), c, n) == n
  {}

  /** One page that ends the paging, in a relay that stands still: it is committed. */
  lemma OnePageCommitted(cursor: nat, page: seq<Payload>, relay: set<Payload>, low: nat, s: set<Payload>, inFlight: bool, lateness: nat)
    requires Positive(relay) && IsPage(relay, cursor, page) && page != []
    requires |page| < PAGE_SIZE || page[|page| - 1].slot < MinSlot(low)
    ensures var env := Replies(map[cursor := page], c => Open(relay));
            FollowsSpec(env) && Retrieved(env, low, cursor) == Some(All(page)) &&
            RetrieveMoves(env, low, cursor, s, inFlight, lateness) &&
            FinalOutside(env, low, cursor) == Open(relay) && !Paging(env, low, cursor, true).end.NullAt?
  {
    var env := Replies(map[cursor := page], c => Open(relay));
    KnownPage(env, cursor, page);
    NoFailure(map[cursor := page], c => Open(relay), cursor, |page|);
  }

  lemma BottomFollows(relay: set<Payload>)
    requires BottomedOut(relay)
    ensures IsPage(relay, 1, [Plain(1)]) && FollowsSpec(BottomPage(relay))
  {}

  /** An export whose first phase is given, with the payload of slot 1 at its bottom. */
  lemma ExportOf(head: Env, v: World, rows: set<Payload>, relay: set<Payload>, newest: Payload, inFlight: bool, lateness: nat)
    requires FollowsSpec(head) && Regular(AttemptWith(head, relay)) && HeadStep(v, AttemptWith(head, relay), inFlight, lateness)
    requires Retrieved(head, Newest(v.stored), 0) == Some(rows) && FinalOutside(head, Newest(v.stored), 0) == Open(relay)
    requires BottomedOut(relay)
    requires Plain(1) in v.stored + rows && newest in v.stored + rows
    requires forall p :: p in v.stored + rows ==> 1 <= p.slot <= newest.slot
    ensures Exports(v, World(Open(relay), v.stored + rows), AttemptWith(head, relay), inFlight, lateness)
    ensures Exported(AttemptWith(head, relay), v.stored) == (true, v.stored + rows)
  {
    var t := v.stored + rows;
    EndsOf(t, Plain(1), newest);
    var tail := [Plain(1)];
    BottomFollows(relay);
    OnePageCommitted(1, tail, relay, 0, t, inFlight, lateness);
    assert All(tail) == {Plain(1)} && t + {Plain(1)} == t;
  }

  /** ... when that first phase is a single page of a relay that stands still. */
  lemma ExportOfPage(page: seq<Payload>, relay: set<Payload>, s: set<Payload>, newest: Payload, inFlight: bool, lateness: nat)
    requires BottomedOut(relay) && IsPage(relay, 0, page) && page != []
    requires |page| < PAGE_SIZE || page[|page| - 1].slot < MinSlot(Newest(s))
    requires Plain(1) in s + All(page) && newest in s + All(page)
    requires forall p :: p in s + All(page) ==> 1 <= p.slot <= newest.slot
    ensures var e := AttemptWith(Replies(map[0 := page], c => Open(relay)), relay);
            Exports(World(Open(relay), s), World(Open(relay), s + All(page)), e, inFlight, lateness) &&
            Exported(e, s) == (true, s + All(page))
  {
    OnePageCommitted(0, page, relay, Newest(s), s, inFlight, lateness);
    BottomFollows(relay);
    ExportOf(Replies(map[0 := page], c => Open(relay)), World(Open(relay), s), All(page), relay, newest, inFlight, lateness);
  }

  /** Two payloads, exported from an empty table. */
  lemma FirstExport(top: Payload, inFlight: bool, lateness: nat)
    requires top.slot > 1
    ensures exists e :: Exports(World(Open({Plain(1), top}), {}), World(Open({Plain(1), top}), {Plain(1), top}), e, inFlight, lateness)
  {
    var page, few := [top, Plain(1)], {Plain(1), top};
    assert All(page) == few && {} + All(page) == few;
    assert IsPage(few, 0, page);
    ExportOfPage(page, few, {}, top, inFlight, lateness);
  }

  lemma RunOfFour(w0: World, w1: World, w2: World, w3: World, f: Attempt, inFlight: bool, lateness: nat)
    requires w0.stored == {} && exists e :: Exports(w0, w1, e, inFlight, lateness)
    requires Grows(w1, w2, lateness) && Exports(w2, w3, f, inFlight, lateness)
    ensures IsRun([w0, w1, w2, w3], inFlight, lateness)
  {
    assert Next(w0, w1, inFlight, lateness) && Next(w1, w2, inFlight, lateness) && Next(w2, w3, inFlight, lateness);
  }

  ghost predicate AlwaysGapless(run: seq<World>) {
    forall i :: 0 <= i < |run| ==> Gapless(run[i].Visible(), run[i].stored)
  }

  // ...................................................................... eleven slots

  /** A second payload of slot 89, right behind a full page from slot 188 down to 89. */
  const LATE: Payload := Payload(89, [0])

  function LateRelay(): set<Payload> {
    All(FullPage(188)) + {LATE, Plain(1)}
  }

  function LateHead(): Env {
    Replies(map[0 := FullPage(188)], c => Open(LateRelay()))
  }

  function Few(): set<Payload> {
    {Plain(1), Plain(100)}
  }

  function Crowded(): set<Payload> {
    Few() + All(FullPage(188))
  }

  /** Two payloads at slots 1 and 100 exported, then the crowded relay with the late one. */
  function LateRun(): seq<World> {
    [World(Open(Few()), {}), World(Open(Few()), Few()), World(Open(LateRelay()), Few()), World(Open(LateRelay()), Crowded())]
  }

  lemma LateRows()
    ensures BottomedOut(LateRelay()) && IsPage(LateRelay(), 0, FullPage(188)) && Newest(Few()) == 100
    ensures Crowded() == Few() + All(FullPage(188)) && Plain(1) in Crowded() && Plain(188) in Crowded()
    ensures forall p :: p in Crowded() ==> 1 <= p.slot <= 188
  {
    FullPageBounds(188);
    EndsOf(Few(), Plain(1), Plain(100));
  }

  lemma LateExport(lateness: nat)
    ensures var e := AttemptWith(LateHead(), LateRelay());
            Exports(World(Open(LateRelay()), Few()), World(Open(LateRelay()), Crowded()), e, true, lateness) &&
            Exported(e, Few()) == (true, Crowded())
  {
    LateRows();
    ExportOfPage(FullPage(188), LateRelay(), Few(), Plain(188), true, lateness);
  }

  lemma LatePayloadBehind()
    ensures !Gapless(Open(LateRelay()).Visible(), Crowded())
  {
    FullPageBounds(188);
    EndsOf(Crowded(), Plain(1), Plain(188));
    assert LATE in Open(LateRelay()).Visible() && LATE !in Crowded();
  }

  lemma LateGrowth(lateness: nat)
    requires lateness > LOOKBACK
    ensures Grew(Open(Few()), Open(LateRelay()), Few(), lateness)
  {
    FullPageBounds(188);
    EndsOf(Few(), Plain(1), Plain(100));
  }

  /** Eleven slots are too late: both exports of the run succeed, and the second payload of
      slot 89 stays behind. */
  lemma LatePayloadLost(lateness: nat)
    requires lateness > LOOKBACK
    ensures IsRun(LateRun(), true, lateness) && !AlwaysGapless(LateRun())
  {
    FirstExport(Plain(100), true, lateness);
    LateGrowth(lateness);
    LateExport(lateness);
    var run := LateRun();
    RunOfFour(run[0], run[1], run[2], run[3], AttemptWith(LateHead(), LateRelay()), true, lateness);
    LatePayloadBehind();
    assert !Gapless(run[3].Visible(), run[3].stored);
  }

  /** Runs stay gapless if and only if nothing becomes visible more than ten slots behind the
      newest row, stored or in flight. */
  lemma LatenessExactly(lateness: nat)
    ensures (forall run: seq<World> :: IsRun(run, true, lateness) ==> AlwaysGapless(run)) <==> lateness <= LOOKBACK
  {
    if lateness <= LOOKBACK {
      forall run: seq<World> | IsRun(run, true, lateness) ensures AlwaysGapless(run) {
        forall i | 0 <= i < |run| ensures Gapless(run[i].Visible(), run[i].stored) { RunStaysGapless(run, lateness, i); }
      }
    } else {
      LatePayloadLost(lateness);
    }
  }

  /** The same through the class. */
  method ExportTooLate(e: RelayExporter) returns (ok: bool)
    requires e.stored == Few()
    modifies e
    ensures ok && e.stored == Crowded() && !Gapless(Open(LateRelay()).Visible(), e.stored)
  {
    LateExport(11);
    ok := e.Export(AttemptWith(LateHead(), LateRelay()));
    LatePayloadBehind();
  }

  // ............................................................... between two requests

  function Sparse(): set<Payload> {
    {Plain(1), Plain(300)}
  }

  function HeadRelay(): set<Payload> {
    All(FullPage(500)) + Sparse()
  }

  /** A second payload of slot 450, which appears when slots 500 to 401 have been fetched. */
  const BELATED: Payload := Payload(450, [0])

  function MovedRelay(): set<Payload> {
    HeadRelay() + {BELATED}
  }

  function RestPage(): seq<Payload> {
    [Plain(401), Plain(300), Plain(1)]
  }

  function MovingHead(): Env {
    Replies(map[0 := FullPage(500), 401 := RestPage()], (c: nat) => Open(if c == 0 then HeadRelay() else MovedRelay()))
  }

  /** The payloads at slots 1 and 300 exported, then a hundred newer ones. */
  function MovingRun(): seq<World> {
    [World(Open(Sparse()), {}), World(Open(Sparse()), Sparse()), World(Open(HeadRelay()), Sparse()),
     World(Open(MovedRelay()), HeadRelay())]
  }

  lemma HeadIsPage()
    ensures Positive(HeadRelay()) && IsPage(HeadRelay(), 0, FullPage(500))
  {
    FullPageBounds(500);
  }

  lemma RestIsPage()
    ensures Positive(MovedRelay()) && IsPage(MovedRelay(), 401, RestPage())
  {
    FullPageBounds(500);
    forall p | p in MovedRelay() && p.slot <= 401 ensures p in RestPage() {
      if p in All(FullPage(500)) {
        assert p == Plain(401);
      }
    }
  }

  /** A full page and one that ends the paging, with the outside moving once in between. */
  ghost predicate TwoPages(env: Env, low: nat, page: seq<Payload>, o: nat, rest: seq<Payload>, was: set<Payload>, now: set<Payload>) {
    !env.beginFails && !env.commitFails &&
    env.fetch(0) == Answer(page) && env.fetch(o) == Answer(rest) && (forall c: nat :: c != 0 && c != o ==> env.fetch(c).Failed?) &&
    (forall c: nat, i: nat :: env.world(c, i) == Open(if c == 0 then was else now) && !env.insertFails(c, i)) &&
    Positive(was) && Positive(now) && IsPage(was, 0, page) && IsPage(now, o, rest) &&
    |page| == PAGE_SIZE && page[PAGE_SIZE - 1].slot == o && o >= 1 && o >= MinSlot(low) &&
    0 < |rest| < PAGE_SIZE && rest[|rest| - 1].slot < MinSlot(low)
  }

  lemma TwoPagesFollow(env: Env, low: nat, page: seq<Payload>, o: nat, rest: seq<Payload>, was: set<Payload>, now: set<Payload>)
    requires TwoPages(env, low, page, o, rest, was, now)
    ensures FollowsSpec(env) && Continues(env, 0, low) && !Continues(env, o, low) && LastSlot(env, 0) == o
    ensures Ran(env, 0) == |page| && Rows(env, 0) == All(page) && KnownAll(env, 0, page) == All(page)
    ensures Ran(env, o) == |rest| && KnownAll(env, o, rest) == All(rest)
  {
    KnownPage(env, 0, page);
    KnownPage(env, o, rest);
    RowsOfPage(env, 0);
    RowsOfPage(env, o);
  }

  lemma TwoPagesPaging(env: Env, low: nat, page: seq<Payload>, o: nat, rest: seq<Payload>, was: set<Payload>, now: set<Payload>)
    requires TwoPages(env, low, page, o, rest, was, now)
    ensures FollowsSpec(env)
    ensures Paging(env, low, 0, true) == Pages(Floor(rest[|rest| - 1].slot), All(page) + All(rest), {0} + {o}, Open(now))
  {
    TwoPagesFollow(env, low, page, o, rest, was, now);
    assert Paging(env, low, o, false) == LastPages(env, low, o, false);
  }

  lemma TwoPagesMove(env: Env, low: nat, page: seq<Payload>, o: nat, rest: seq<Payload>, was: set<Payload>, now: set<Payload>,
                     s: set<Payload>, lateness: nat)
    requires TwoPages(env, low, page, o, rest, was, now) && Grew(Open(was), Open(now), s, lateness)
    ensures FollowsSpec(env) && Moves(env, low, 0, true, s, {}, false, lateness)
  {
    TwoPagesFollow(env, low, page, o, rest, was, now);
    assert Moves(env, low, o, false, s, {} + Rows(env, 0), false, lateness);
  }

  lemma MovingTwoPages()
    ensures TwoPages(MovingHead(), 300, FullPage(500), 401, RestPage(), HeadRelay(), MovedRelay())
  {
    HeadIsPage();
    RestIsPage();
  }

  /** Against the stored rows alone the payload of slot 450 is not late at all. */
  lemma BelatedIsPunctual(lateness: nat)
    ensures Grew(Open(HeadRelay()), Open(MovedRelay()), Sparse(), lateness)
  {
    EndsOf(Sparse(), Plain(1), Plain(300));
  }

  lemma MovingRows()
    ensures Sparse() + (All(FullPage(500)) + All(RestPage())) == HeadRelay()
    ensures BottomedOut(MovedRelay()) && Plain(1) in HeadRelay() && Plain(500) in HeadRelay()
    ensures forall p :: p in HeadRelay() ==> 1 <= p.slot <= 500
    ensures Newest(Sparse()) == 300
  {
    FullPageBounds(500);
    EndsOf(Sparse(), Plain(1), Plain(300));
  }

  lemma TwoPageHead(env: Env, low: nat, page: seq<Payload>, o: nat, rest: seq<Payload>, was: set<Payload>, now: set<Payload>,
                    s: set<Payload>, lateness: nat)
    requires TwoPages(env, low, page, o, rest, was, now) && Grew(Open(was), Open(now), s, lateness) && low == Newest(s)
    requires FollowsSpec(BottomPage(now))
    ensures FollowsSpec(env) && HeadStep(World(Open(was), s), AttemptWith(env, now), false, lateness)
    ensures Retrieved(env, low, 0) == Some(All(page) + All(rest)) && FinalOutside(env, low, 0) == Open(now)
  {
    TwoPagesPaging(env, low, page, o, rest, was, now);
    TwoPagesMove(env, low, page, o, rest, was, now, s, lateness);
  }

  lemma TwoPageExport(env: Env, low: nat, page: seq<Payload>, o: nat, rest: seq<Payload>, was: set<Payload>, now: set<Payload>,
                      s: set<Payload>, after: set<Payload>, newest: Payload, lateness: nat)
    requires TwoPages(env, low, page, o, rest, was, now) && Grew(Open(was), Open(now), s, lateness)
    requires low == Newest(s) && after == s + (All(page) + All(rest)) && BottomedOut(now)
    requires Plain(1) in after && newest in after && forall p :: p in after ==> 1 <= p.slot <= newest.slot
    ensures var e := AttemptWith(env, now);
            Exports(World(Open(was), s), World(Open(now), after), e, false, lateness) && Exported(e, s) == (true, after)
  {
    BottomFollows(now);
    TwoPageHead(env, low, page, o, rest, was, now, s, lateness);
    ExportOf(env, World(Open(was), s), All(page) + All(rest), now, newest, false, lateness);
  }

  lemma MovingExport(lateness: nat)
    ensures var e := AttemptWith(MovingHead(), MovedRelay());
            Exports(World(Open(HeadRelay()), Sparse()), World(Open(MovedRelay()), HeadRelay()), e, false, lateness) &&
            Exported(e, Sparse()) == (true, HeadRelay())
  {
    MovingRows();
    MovingTwoPages();
    BelatedIsPunctual(lateness);
    TwoPageExport(MovingHead(), 300, FullPage(500), 401, RestPage(), HeadRelay(), MovedRelay(), Sparse(), HeadRelay(),
                  Plain(500), lateness);
  }

  lemma MovingBehind()
    ensures Gapless(Open(HeadRelay()).Visible(), Sparse()) && !Gapless(Open(MovedRelay()).Visible(), HeadRelay())
  {
    FullPageBounds(500);
    EndsOf(Sparse(), Plain(1), Plain(300));
    EndsOf(HeadRelay(), Plain(1), Plain(500));
    assert BELATED in Open(MovedRelay()).Visible() && BELATED !in HeadRelay();
  }

  lemma MovingGrowth(lateness: nat)
    ensures Grew(Open(Sparse()), Open(HeadRelay()), Sparse(), lateness)
  {
    FullPageBounds(500);
    EndsOf(Sparse(), Plain(1), Plain(300));
  }

  /** It does not suffice to measure lateness against the stored rows: between two requests a
      payload can appear that is newer than all of these and is left behind for good. */
  lemma StoredRowsAreNoMeasure(lateness: nat)
    ensures exists run :: IsRun(run, false, lateness) && !AlwaysGapless(run)
  {
    FirstExport(Plain(300), false, lateness);
    MovingGrowth(lateness);
    MovingExport(lateness);
    var run := MovingRun();
    RunOfFour(run[0], run[1], run[2], run[3], AttemptWith(MovingHead(), MovedRelay()), false, lateness);
    MovingBehind();
    assert !Gapless(run[3].Visible(), run[3].stored);
  }

  /** The same through the class. */
  method ExportWhileMoving(e: RelayExporter) returns (ok: bool)
    requires e.stored == Sparse()
    modifies e
    ensures ok && e.stored == HeadRelay()
    ensures Gapless(Open(HeadRelay()).Visible(), Sparse()) && !Gapless(Open(MovedRelay()).Visible(), e.stored)
  {
    MovingExport(0);
    ok := e.Export(AttemptWith(MovingHead(), MovedRelay()));
    MovingBehind();
  }

  // -------------------------------------------------------------- a null that loses one

  /** One slot between the full page and the rows already stored. */
  function NullRelay(): set<Payload> {
    HeadRelay() + {Plain(350)}
  }

  function NullAfterPage(): Env {
    Replies(map[0 := FullPage(500)], c => Open(NullRelay())).(
      fetch := (c: nat) => if c == 0 then Answer(FullPage(500)) else if c == 401 then Null else Failed)
  }

  lemma NullPaging()
    ensures FollowsSpec(NullAfterPage())
    ensures var pages := Paging(NullAfterPage(), 300, 0, true);
            pages.end == NullAt(401, false) && pages.pending == All(FullPage(500)) && pages.final == Open(NullRelay())
  {
    FullPageBounds(500);
    assert IsPage(NullRelay(), 0, FullPage(500));
    KnownPage(NullAfterPage(), 0, FullPage(500));
    assert Paging(NullAfterPage(), 300, 401, false) == Pages(NullAt(401, false), {}, {401}, Open(NullRelay()));
    assert All(FullPage(500)) + {} == All(FullPage(500));
  }

  lemma NullReplyLeavesGap()
    ensures Gapless(Open(NullRelay()).Visible(), Sparse())
    ensures !Gapless(Open(NullRelay()).Visible(), Sparse() + All(FullPage(500)))
  {
    FullPageBounds(500);
    EndsOf(Sparse(), Plain(1), Plain(300));
    EndsOf(Sparse() + All(FullPage(500)), Plain(1), Plain(500));
    assert Plain(350) in Open(NullRelay()).Visible() && Plain(350) !in Sparse() + All(FullPage(500));
  }

  /** With rows at slots 1 and 300, a full first page and then a null: the retrieval commits
      the page, and slot 350 stays behind although nothing moved. */
  method RetrieveUpToNull(e: RelayExporter) returns (ok: bool)
    requires e.stored == Sparse()
    modifies e
    ensures ok && e.stored == Sparse() + All(FullPage(500))
    ensures Gapless(Open(NullRelay()).Visible(), Sparse()) && !Gapless(Open(NullRelay()).Visible(), e.stored)
  {
    NullPaging();
    ok := e.Retrieve(300, 0, NullAfterPage());
    NullReplyLeavesGap();
  }
}
