/** GetSlotVizData: the block rows of the last epochs laid out as a grid of 32 slots per
    epoch, filled up, normalised, and ordered newest epoch first. */
module SlotGrid {
  import opened Bytes
  import opened Words
  import opened Decimal

  const SLOTS: nat := 32

  datatype Status = Scheduled | Proposed | Missed | Orphaned | Unknown | ScheduledMissed

  /** A row of the query, newest slot first. */
  datatype Row = Row(slot: u64, root: Key, epoch: u64, status: Status, finalized: bool)

  datatype Cell = Cell(epoch: u64, slot: nat, status: Status, active: bool, root: Key)

  datatype Line = Line(epoch: u64, finalized: bool, justified: bool, justifying: bool, cells: seq<Option<Cell>>)

  type Grid = map<u64, Line>

  /** Rows whose slot lies in their epoch; for others the original indexes out of its array. */
  ghost predicate InEpoch(b: Row) {
    b.epoch * SLOTS <= b.slot < b.epoch * SLOTS + SLOTS
  }

  ghost predicate WellFormed(rows: seq<Row>) {
    forall b :: b in rows ==> InEpoch(b)
  }

  // ------------------------------------------------------------------- what is expected

  /** The row of a slot with the longest root, the first one of equals. */
  function Best(rows: seq<Row>, slot: nat): Option<Row> {
    if rows == [] then None
    else
      var last, before := rows[|rows| - 1], Best(rows[..|rows| - 1], slot);
      if last.slot == slot && (before.None? || |last.root| > |before.value.root|) then Some(last) else before
  }

  lemma {:induction false} BestIsLongest(rows: seq<Row>, slot: nat)
    ensures Best(rows, slot).None? <==> forall b :: b in rows ==> b.slot != slot
    ensures Best(rows, slot).Some? ==>
              Best(rows, slot).value in rows && Best(rows, slot).value.slot == slot &&
              forall b :: b in rows && b.slot == slot ==> |b.root| <= |Best(rows, slot).value.root|
    decreases |rows|
  {
    if rows != [] {
      BestIsLongest(rows[..|rows| - 1], slot);
      assert rows == rows[..|rows| - 1] + [rows[|rows| - 1]];
    }
  }

  function BestAt(rows: seq<Row>, e: u64, i: nat): Option<Row> {
    Best(rows, e * SLOTS + i)
  }

  /** The first row of an epoch, which names its finality. */
  function FirstOf(rows: seq<Row>, e: u64): Option<Row> {
    if rows == [] then None
    else if FirstOf(rows[..|rows| - 1], e).Some? then FirstOf(rows[..|rows| - 1], e)
    else if rows[|rows| - 1].epoch == e then Some(rows[|rows| - 1]) else None
  }

  function Placed(b: Row, current: u64): Cell {
    Cell(b.epoch, b.slot, b.status, b.slot == current, b.root)
  }

  function Normalised(c: Cell, current: u64): Cell {
    var status :=
      if c.status == Proposed || c.status == Missed then c.status
      else if c.slot >= current then Scheduled
      else if c.status == Scheduled then ScheduledMissed else c.status;
    c.(active := c.slot == current, status := status)
  }

  function Filled(o: Option<Cell>, e: u64, i: nat, current: u64): Cell {
    if o.Some? then o.value
    else Cell(e, e * SLOTS + i, if e * SLOTS + i < current then ScheduledMissed else Scheduled,
              e * SLOTS + i == current, [])
  }

  function Expected(rows: seq<Row>, e: u64, i: nat, current: u64): Cell {
    var best := BestAt(rows, e, i);
    Normalised(Filled(if best.Some? then Some(Placed(best.value, current)) else None, e, i, current), current)
  }

  /** No past slot is left scheduled, the current and later ones are scheduled, proposed or
      missed, and exactly the current one is active. */
  lemma CellsMakeSense(rows: seq<Row>, e: u64, i: nat, current: u64)
    requires WellFormed(rows) && i < SLOTS
    ensures var c := Expected(rows, e, i, current);
            c.slot == e * SLOTS + i && c.epoch == e && (c.active <==> c.slot == current) &&
            (c.slot < current ==> c.status != Scheduled) &&
            (c.slot >= current ==> c.status in {Scheduled, Proposed, Missed})
  {
    BestIsLongest(rows, e * SLOTS + i);
    var best := BestAt(rows, e, i);
    if best.Some? {
      assert InEpoch(best.value);
      assert best.value.epoch == e by { SameEpoch(best.value.epoch, e, best.value.slot); }
    }
  }

  lemma SameEpoch(e: nat, f: nat, slot: nat)
    requires e * SLOTS <= slot < e * SLOTS + SLOTS && f * SLOTS <= slot < f * SLOTS + SLOTS
    ensures e == f
  {}

  // --------------------------------------------------------------------- placing the rows

  function PutCell(cells: seq<Option<Cell>>, i: nat, c: Cell): seq<Option<Cell>>
    requires i < |cells|
  {
    if cells[i].None? || |c.root| > |cells[i].value.root| then cells[i := Some(c)] else cells
  }

  ghost predicate LineHolds(line: Line, rows: seq<Row>, e: u64, current: u64) {
    line.epoch == e && |line.cells| == SLOTS && !line.justified && !line.justifying &&
    FirstOf(rows, e).Some? && line.finalized == FirstOf(rows, e).value.finalized &&
    forall i :: 0 <= i < SLOTS ==> CellHolds(line.cells[i], rows, e, i, current)
  }

  ghost predicate GridHolds(grid: Grid, rows: seq<Row>, current: u64) {
    (forall e: u64 :: e in grid <==> FirstOf(rows, e).Some?) &&
    forall e :: e in grid ==> LineHolds(grid[e], rows, e, current)
  }

  function EmptyLine(b: Row): Line {
    Line(b.epoch, b.finalized, false, false, seq(SLOTS, i => None))
  }

  function Put(grid: Grid, b: Row, current: u64): Grid
    requires b.epoch * SLOTS <= b.slot < b.epoch * SLOTS + SLOTS
    requires forall e :: e in grid ==> |grid[e].cells| == SLOTS
  {
    var line := if b.epoch in grid then grid[b.epoch] else EmptyLine(b);
    grid[b.epoch := line.(cells := PutCell(line.cells, b.slot - b.epoch * SLOTS, Placed(b, current)))]
  }

  lemma {:induction false} NoRowNoBest(rows: seq<Row>, e: u64, i: nat)
    requires WellFormed(rows) && i < SLOTS && FirstOf(rows, e).None?
    ensures BestAt(rows, e, i).None?
    decreases |rows|
  {
    if rows != [] {
      var front, last := rows[..|rows| - 1], rows[|rows| - 1];
      assert forall b :: b in front ==> b in rows;
      NoRowNoBest(front, e, i);
      assert InEpoch(last);
      if last.slot == e * SLOTS + i { SameEpoch(last.epoch, e, last.slot); }
    }
  }

  ghost predicate CellHolds(o: Option<Cell>, rows: seq<Row>, e: u64, i: nat, current: u64) {
    var best := BestAt(rows, e, i);
    o == if best.Some? then Some(Placed(best.value, current)) else None
  }

  lemma OwnCell(cells: seq<Option<Cell>>, rows: seq<Row>, b: Row, i: nat, current: u64)
    requires InEpoch(b) && |cells| == SLOTS && i < SLOTS && CellHolds(cells[i], rows, b.epoch, i, current)
    ensures CellHolds(PutCell(cells, b.slot - b.epoch * SLOTS, Placed(b, current))[i], rows + [b], b.epoch, i, current)
  {
    var k := b.slot - b.epoch * SLOTS;
    assert (rows + [b])[..|rows|] == rows;
    if i == k {
      assert b.slot == b.epoch * SLOTS + i;
    } else {
      assert PutCell(cells, k, Placed(b, current))[i] == cells[i];
    }
  }

  /** The line of the row's own epoch. */
  lemma OwnLine(line: Line, rows: seq<Row>, b: Row, current: u64)
    requires WellFormed(rows) && InEpoch(b)
    requires if FirstOf(rows, b.epoch).Some? then LineHolds(line, rows, b.epoch, current) else line == EmptyLine(b)
    ensures LineHolds(line.(cells := PutCell(line.cells, b.slot - b.epoch * SLOTS, Placed(b, current))),
                      rows + [b], b.epoch, current)
  {
    assert (rows + [b])[..|rows|] == rows;
    var cells := PutCell(line.cells, b.slot - b.epoch * SLOTS, Placed(b, current));
    forall i | 0 <= i < SLOTS ensures CellHolds(cells[i], rows + [b], b.epoch, i, current) {
      if FirstOf(rows, b.epoch).None? { NoRowNoBest(rows, b.epoch, i); }
      assert CellHolds(line.cells[i], rows, b.epoch, i, current);
      OwnCell(line.cells, rows, b, i, current);
    }
  }

  lemma OtherLine(line: Line, rows: seq<Row>, b: Row, e: u64, current: u64)
    requires InEpoch(b) && e != b.epoch && LineHolds(line, rows, e, current)
    ensures LineHolds(line, rows + [b], e, current)
  {
    assert (rows + [b])[..|rows|] == rows;
    forall i | 0 <= i < SLOTS ensures CellHolds(line.cells[i], rows + [b], e, i, current) {
      assert CellHolds(line.cells[i], rows, e, i, current);
      if b.slot == e * SLOTS + i { SameEpoch(b.epoch, e, b.slot); }
    }
  }

  lemma OnePlaced(grid: Grid, rows: seq<Row>, b: Row, current: u64)
    requires WellFormed(rows) && InEpoch(b) && GridHolds(grid, rows, current)
    ensures GridHolds(Put(grid, b, current), rows + [b], current)
  {
    assert (rows + [b])[..|rows|] == rows;
    OwnLine(if b.epoch in grid then grid[b.epoch] else EmptyLine(b), rows, b, current);
    forall e | e in grid && e != b.epoch ensures LineHolds(grid[e], rows + [b], e, current) {
      OtherLine(grid[e], rows, b, e, current);
    }
  }

  method PlaceRows(rows: seq<Row>, current: u64) returns (grid: Grid)
    requires WellFormed(rows)
    ensures GridHolds(grid, rows, current)
  {
    grid := map[];
    for n := 0 to |rows|
      invariant GridHolds(grid, rows[..n], current)
    {
      var b := rows[n];
      assert rows[..n + 1] == rows[..n] + [b];
      assert forall c :: c in rows[..n] ==> c in rows;
      OnePlaced(grid, rows[..n], b, current);
      grid := Put(grid, b, current);
    }
    assert rows[..|rows|] == rows;
  }

  // ------------------------------------------------------- filling and normalising a line

  ghost predicate LineDone(line: Line, rows: seq<Row>, current: u64) {
    FirstOf(rows, line.epoch).Some? && line.finalized == FirstOf(rows, line.epoch).value.finalized &&
    |line.cells| == SLOTS && forall i :: 0 <= i < SLOTS ==> line.cells[i] == Some(Expected(rows, line.epoch, i, current))
  }

  /** The two loops over the slots of an epoch. */
  method FinishLine(line: Line, current: u64, ghost rows: seq<Row>) returns (done: Line)
    requires LineHolds(line, rows, line.epoch, current)
    ensures LineDone(done, rows, current) && done.epoch == line.epoch
    ensures Fresh(done)
  {
    var cells := line.cells;
    for i := 0 to SLOTS
      invariant |cells| == SLOTS
      invariant forall j :: 0 <= j < i ==> cells[j] == Some(Filled(line.cells[j], line.epoch, j, current))
      invariant forall j :: i <= j < SLOTS ==> cells[j] == line.cells[j]
    {
      cells := cells[i := Some(Filled(line.cells[i], line.epoch, i, current))];
    }
    for i := 0 to SLOTS
      invariant |cells| == SLOTS
      invariant forall j :: 0 <= j < i ==>
                  cells[j] == Some(Normalised(Filled(line.cells[j], line.epoch, j, current), current))
      invariant forall j :: i <= j < SLOTS ==> cells[j] == Some(Filled(line.cells[j], line.epoch, j, current))
    {
      cells := cells[i := Some(Normalised(cells[i].value, current))];
    }
    done := line.(cells := cells, justified := line.finalized);
  }

  ghost predicate NewestFirst(res: seq<Line>) {
    forall i, j :: 0 <= i < j < |res| ==> res[i].epoch > res[j].epoch
  }

  /** Finished lines, newest first, none newer than what is still to come. */
  ghost predicate LinesDone(res: seq<Line>, rows: seq<Row>, current: u64) {
    NewestFirst(res) && forall i :: 0 <= i < |res| ==>
      LineDone(res[i], rows, current) && Fresh(res[i])
  }

  function Epochs(res: seq<Line>): set<u64> {
    set line | line in res :: line.epoch
  }

  ghost predicate Fresh(line: Line) {
    line.justified == line.finalized && !line.justifying
  }

  /** The lines of the epochs outside todo are finished, and those in todo are older. */
  ghost predicate FinishedBut(res: seq<Line>, all: set<u64>, todo: set<u64>, rows: seq<Row>, current: u64) {
    todo <= all && LinesDone(res, rows, current) && Epochs(res) == all - todo &&
    forall d, e :: d in Epochs(res) && e in todo ==> d > e
  }

  lemma EpochsAppend(res: seq<Line>, line: Line)
    ensures Epochs(res + [line]) == Epochs(res) + {line.epoch}
    ensures forall i :: 0 <= i < |res| ==> res[i].epoch in Epochs(res)
  {
    assert forall x :: x in res + [line] <==> x in res || x == line;
    assert forall i :: 0 <= i < |res| ==> res[i] in res;
  }

  lemma LinesAppend(res: seq<Line>, line: Line, rows: seq<Row>, current: u64)
    requires LinesDone(res, rows, current) && LineDone(line, rows, current) && Fresh(line)
    requires forall i :: 0 <= i < |res| ==> res[i].epoch > line.epoch
    ensures LinesDone(res + [line], rows, current)
  {}

  lemma OneFinished(res: seq<Line>, line: Line, all: set<u64>, todo: set<u64>, rows: seq<Row>, current: u64)
    requires FinishedBut(res, all, todo, rows, current) && LineDone(line, rows, current) && Fresh(line)
    requires line.epoch in todo && forall e :: e in todo ==> e <= line.epoch
    ensures FinishedBut(res + [line], all, todo - {line.epoch}, rows, current)
  {
    EpochsAppend(res, line);
    LinesAppend(res, line, rows, current);
  }

  /** All lines, in whatever order the map yields them, and then the sort. */
  method FinishLines(grid: Grid, current: u64, ghost rows: seq<Row>) returns (res: seq<Line>)
    requires GridHolds(grid, rows, current)
    ensures LinesDone(res, rows, current) && Epochs(res) == grid.Keys
  {
    res := [];
    var todo := grid.Keys;
    while todo != {}
      invariant FinishedBut(res, grid.Keys, todo, rows, current)
      decreases |todo|
    {
      var e := Last(todo);
      var line := FinishLine(grid[e], current, rows);
      OneFinished(res, line, grid.Keys, todo, rows, current);
      res, todo := res + [line], todo - {e};
    }
  }

  // ----------------------------------------------------------------------- justification

  /** The first finalized line below the top one. */
  function FirstFinal(res: seq<Line>, i: nat): (f: nat)
    requires i <= |res|
    ensures i <= f <= |res|
    decreases |res| - i
  {
    if i == |res| then |res| else if i > 0 && res[i].finalized then i else FirstFinal(res, i + 1)
  }

  /** The flags of line i: the line above an open one is justifying, the one above the newest
      final one is justified. */
  function Flagged(res: seq<Line>, i: nat): Line
    requires i < |res|
  {
    var f := FirstFinal(res, 0);
    res[i].(justifying := res[i].justifying || (i + 1 < f && !res[i + 1].finalized),
            justified := res[i].justified || (f < |res| && i + 1 == f))
  }

  lemma {:induction false} FirstFinalSpec(res: seq<Line>, i: nat)
    requires i <= |res|
    ensures i <= FirstFinal(res, i) <= |res|
    ensures FirstFinal(res, i) < |res| ==> FirstFinal(res, i) > 0 && res[FirstFinal(res, i)].finalized
    ensures forall j: nat :: i <= j < FirstFinal(res, i) && 0 < j < |res| ==> !res[j].finalized
    decreases |res| - i
  {
    if i < |res| && !(i > 0 && res[i].finalized) { FirstFinalSpec(res, i + 1); }
  }

  method Justify(lines: seq<Line>) returns (res: seq<Line>)
    ensures |res| == |lines| && forall i :: 0 <= i < |lines| ==> res[i] == Flagged(lines, i)
  {
    res := lines;
    FirstFinalSpec(lines, 0);
    ghost var f := FirstFinal(lines, 0);
    for i := 0 to |lines|
      invariant |res| == |lines| && i <= f
      invariant forall j :: 0 <= j < |lines| ==>
                  res[j] == if j + 1 < i then lines[j].(justifying := true) else lines[j]
    {
      if !lines[i].finalized && i != 0 {
        res := res[i - 1 := res[i - 1].(justifying := true)];
      }
      if lines[i].finalized && i != 0 {
        res := res[i - 1 := res[i - 1].(justified := true)];
        break;
      }
    }
  }

  /** The result for the rows of the query: every epoch with a row, newest first, with all 32
      cells as expected. */
  ghost predicate IsGrid(res: seq<Line>, rows: seq<Row>, current: u64) {
    NewestFirst(res) &&
    (forall i :: 0 <= i < |res| ==> LineDone(res[i], rows, current)) &&
    (forall e: u64 :: FirstOf(rows, e).Some? <==> e in Epochs(res))
  }

  /** The lines before and after the flags of the epochs above others were set. */
  ghost predicate FlagsSet(plain: seq<Line>, res: seq<Line>) {
    |plain| == |res| && (forall i :: 0 <= i < |res| ==> res[i] == Flagged(plain, i)) &&
    forall i :: 0 <= i < |res| ==> Fresh(plain[i])
  }

  lemma FlagsKeepGrid(plain: seq<Line>, res: seq<Line>, rows: seq<Row>, current: u64)
    requires FlagsSet(plain, res) && IsGrid(plain, rows, current)
    ensures IsGrid(res, rows, current)
  {
    forall i | 0 <= i < |res| ensures res[i].epoch == plain[i].epoch && LineDone(res[i], rows, current) {
      assert LineDone(plain[i], rows, current);
    }
    SameEpochs(plain, res);
  }

  lemma SameEpochs(a: seq<Line>, b: seq<Line>)
    requires |a| == |b| && forall i :: 0 <= i < |a| ==> a[i].epoch == b[i].epoch
    ensures Epochs(a) == Epochs(b)
  {
    forall e ensures e in Epochs(a) <==> e in Epochs(b) {
      if e in Epochs(a) {
        var i :| 0 <= i < |a| && a[i].epoch == e;
        assert b[i] in b;
      }
      if e in Epochs(b) {
        var i :| 0 <= i < |b| && b[i].epoch == e;
        assert a[i] in a;
      }
    }
  }

  // ------------------------------------------------------------ the same, on the raw rows

  /** Row number n is the one shown for a slot: the longest root, the first of equals. */
  ghost predicate IsShown(rows: seq<Row>, slot: nat, n: nat) {
    n < |rows| && rows[n].slot == slot &&
    forall m :: 0 <= m < |rows| && rows[m].slot == slot ==>
      |rows[m].root| <= |rows[n].root| && (m < n ==> |rows[m].root| < |rows[n].root|)
  }

  ghost predicate NoRowFor(rows: seq<Row>, slot: nat) {
    forall m :: 0 <= m < |rows| ==> rows[m].slot != slot
  }

  /** What becomes of a stored status: proposed and missed stay, from the current slot on all
      others read scheduled, and a past slot that is still scheduled was missed. */
  ghost predicate Becomes(stored: Status, past: bool, shown: Status) {
    match stored
    case Proposed => shown == Proposed
    case Missed => shown == Missed
    case Scheduled => shown == if past then ScheduledMissed else Scheduled
    case Orphaned => shown == if past then Orphaned else Scheduled
    case Unknown => shown == if past then Unknown else Scheduled
    case ScheduledMissed => shown == if past then ScheduledMissed else Scheduled
  }

  ghost predicate TellsCell(o: Option<Cell>, rows: seq<Row>, e: u64, i: nat, current: u64) {
    var slot := 32 * e + i;
    o.Some? && o.value.epoch == e && o.value.slot == slot && (o.value.active <==> slot == current) &&
    if NoRowFor(rows, slot) then o.value.root == [] && o.value.status == (if slot < current then ScheduledMissed else Scheduled)
    else ShowsRow(o.value, rows, slot, current)
  }

  ghost predicate ShowsRow(c: Cell, rows: seq<Row>, slot: nat, current: u64) {
    exists n: nat :: IsShown(rows, slot, n) && c.root == rows[n].root && Becomes(rows[n].status, slot < current, c.status)
  }

  /** An epoch is as final as its first row says. */
  ghost predicate FinalAs(line: Line, rows: seq<Row>) {
    exists n: nat :: n < |rows| && rows[n].epoch == line.epoch && line.finalized == rows[n].finalized &&
      forall m :: 0 <= m < n ==> rows[m].epoch != line.epoch
  }

  ghost predicate OpenBelow(res: seq<Line>, i: nat) {
    forall j :: 0 < j <= i < |res| ==> !res[j].finalized
  }

  /** An epoch is justifying above an open one, and justified when it is final or above a final
      one; epochs below a final one get neither from their neighbours. */
  ghost predicate TellsFlags(res: seq<Line>, i: nat)
    requires i < |res|
  {
    (res[i].justifying <==> i + 1 < |res| && OpenBelow(res, i) && !res[i + 1].finalized) &&
    (res[i].justified <==> res[i].finalized || (i + 1 < |res| && OpenBelow(res, i) && res[i + 1].finalized))
  }

  ghost predicate HasLine(res: seq<Line>, e: u64) {
    exists i :: 0 <= i < |res| && res[i].epoch == e
  }

  /** The whole result: the epochs with rows, newest first, each with its 32 slots and flags. */
  ghost predicate TellsGrid(res: seq<Line>, rows: seq<Row>, current: u64) {
    (forall i, j :: 0 <= i < j < |res| ==> res[i].epoch > res[j].epoch) &&
    (forall n :: 0 <= n < |rows| ==> HasLine(res, rows[n].epoch)) &&
    forall i :: 0 <= i < |res| ==> TellsLine(res, rows, current, i)
  }

  ghost predicate TellsLine(res: seq<Line>, rows: seq<Row>, current: u64, i: nat)
    requires i < |res|
  {
    FinalAs(res[i], rows) && |res[i].cells| == 32 && TellsFlags(res, i) &&
    forall k :: 0 <= k < 32 ==> TellsCell(res[i].cells[k], rows, res[i].epoch, k, current)
  }

  lemma {:induction false} BestIsShown(rows: seq<Row>, slot: nat) returns (n: nat)
    ensures Best(rows, slot).None? <==> NoRowFor(rows, slot)
    ensures Best(rows, slot).Some? ==> IsShown(rows, slot, n) && Best(rows, slot).value == rows[n]
    decreases |rows|
  {
    n := 0;
    if rows != [] {
      var front, last := rows[..|rows| - 1], rows[|rows| - 1];
      n := BestIsShown(front, slot);
      assert forall m :: 0 <= m < |front| ==> front[m] == rows[m];
      if last.slot == slot && (Best(front, slot).None? || |last.root| > |Best(front, slot).value.root|) {
        n := |rows| - 1;
      }
    }
  }

  lemma {:induction false} FirstOfIs(rows: seq<Row>, e: u64) returns (n: nat)
    ensures FirstOf(rows, e).None? <==> forall m :: 0 <= m < |rows| ==> rows[m].epoch != e
    ensures FirstOf(rows, e).Some? ==>
              n < |rows| && rows[n] == FirstOf(rows, e).value && rows[n].epoch == e &&
              forall m :: 0 <= m < n ==> rows[m].epoch != e
    decreases |rows|
  {
    n := 0;
    if rows != [] {
      var front := rows[..|rows| - 1];
      n := FirstOfIs(front, e);
      assert forall m :: 0 <= m < |front| ==> front[m] == rows[m];
      if FirstOf(front, e).None? { n := |rows| - 1; }
    }
  }

  lemma ExpectedTells(rows: seq<Row>, e: u64, i: nat, current: u64)
    requires WellFormed(rows) && i < 32
    ensures TellsCell(Some(Expected(rows, e, i, current)), rows, e, i, current)
  {
    CellsMakeSense(rows, e, i, current);
    var n := BestIsShown(rows, e * SLOTS + i);
    var c, best := Expected(rows, e, i, current), BestAt(rows, e, i);
    if best.Some? {
      assert c.root == best.value.root && Becomes(best.value.status, e * SLOTS + i < current, c.status);
      assert ShowsRow(c, rows, 32 * e + i, current);
    }
  }

  lemma FlagsTell(plain: seq<Line>, res: seq<Line>, i: nat)
    requires FlagsSet(plain, res) && i < |res|
    ensures TellsFlags(res, i)
  {
    FirstFinalSpec(plain, 0);
    var f := FirstFinal(plain, 0);
    assert Fresh(plain[i]);
    assert forall j :: 0 <= j < |res| ==> res[j].finalized == plain[j].finalized;
    assert OpenBelow(res, i) <==> i < f;
  }

  lemma GridTells(plain: seq<Line>, res: seq<Line>, rows: seq<Row>, current: u64)
    requires WellFormed(rows) && FlagsSet(plain, res) && IsGrid(res, rows, current)
    ensures TellsGrid(res, rows, current)
  {
    forall n | 0 <= n < |rows| ensures HasLine(res, rows[n].epoch) {
      var m := FirstOfIs(rows, rows[n].epoch);
      assert rows[n].epoch in Epochs(res);
      var line :| line in res && line.epoch == rows[n].epoch;
    }
    forall i | 0 <= i < |res| ensures TellsLine(res, rows, current, i) {
      assert LineDone(res[i], rows, current);
      var m := FirstOfIs(rows, res[i].epoch);
      FlagsTell(plain, res, i);
      forall k | 0 <= k < 32 ensures TellsCell(res[i].cells[k], rows, res[i].epoch, k, current) {
        ExpectedTells(rows, res[i].epoch, k, current);
      }
    }
  }

  method GetSlotVizData(rows: seq<Row>, current: u64) returns (res: seq<Line>)
    requires WellFormed(rows)
    ensures IsGrid(res, rows, current)
    ensures exists plain :: FlagsSet(plain, res)
    ensures TellsGrid(res, rows, current)
  {
    var grid := PlaceRows(rows, current);
    var plain := FinishLines(grid, current, rows);
    res := Justify(plain);
    assert FlagsSet(plain, res);
    FlagsKeepGrid(plain, res, rows, current);
    GridTells(plain, res, rows, current);
  }
}
