/** The ETH.STORE exporter: the count shortcut, the list of missing days, and one
    transaction per exported day. */
module EthStore {
  import opened Extremes

  /** A row of eth_store_stats by its primary key; validator -1 is the summary of the day. */
  datatype Row = Row(day: nat, validator: int)

  const SUMMARY: int := -1

  /** What one export meets outside: the calculated validators (None when the calculation
      fails), and whether some statement or the commit fails. */
  datatype Day = NoData | Data(validators: set<nat>)
  datatype Env = Env(calculate: nat -> Day, dbFails: nat -> bool)

  function DayRows(day: nat, validators: set<nat>): set<Row> {
    {Row(day, SUMMARY)} + set v | v in validators :: Row(day, v)
  }

  function Days(rows: set<Row>): set<nat> {
    set r | r in rows && r.validator == SUMMARY :: r.day
  }

  /** The days 0..latest. */
  function UpTo(latest: nat): (days: set<nat>)
    ensures forall d: nat :: d in days <==> d <= latest
  {
    if latest == 0 then {0} else UpTo(latest - 1) + {latest}
  }

  function Missing(rows: set<Row>, latest: nat): set<nat> {
    UpTo(latest) - Days(rows)
  }

  function Beyond(rows: set<Row>, latest: nat): set<nat> {
    Days(rows) - UpTo(latest)
  }

  /** A day can be exported when its data is there, the database cooperates, and none of its
      rows exists yet (the primary key rejects a second insert). */
  predicate CanExport(rows: set<Row>, env: Env, day: nat) {
    env.calculate(day).Data? && !env.dbFails(day) && rows !! DayRows(day, env.calculate(day).validators)
  }

  // -------------------------------------------------------------- the shortcut

  lemma {:induction false} RangeSize(latest: nat)
    ensures |UpTo(latest)| == latest + 1
  {
    if latest > 0 { RangeSize(latest - 1); }
  }

  /** The table is taken for incomplete exactly when more days are missing than lie beyond
      the latest day. */
  lemma ShortcutExact(rows: set<Row>, latest: nat)
    ensures |Days(rows)| <= latest <==> |Missing(rows, latest)| > |Beyond(rows, latest)|
  {
    var s, u := Days(rows), UpTo(latest);
    RangeSize(latest);
    assert s == (s * u) + Beyond(rows, latest);
    assert u == (s * u) + Missing(rows, latest);
  }

  /** With no day beyond the latest, counting is as good as looking. */
  lemma ShortcutSound(rows: set<Row>, latest: nat)
    requires Days(rows) <= UpTo(latest)
    ensures |Days(rows)| <= latest <==> exists d: nat :: d <= latest && d !in Days(rows)
  {
    ShortcutExact(rows, latest);
    assert Beyond(rows, latest) == {};
    if |Missing(rows, latest)| > 0 {
      var d :| d in Missing(rows, latest);
    }
    if d: nat :| d <= latest && d !in Days(rows) {
      assert d in Missing(rows, latest);
    }
  }

  // ------------------------------------------------------------------ one pass

  ghost predicate Descending(q: seq<nat>) {
    forall i, j :: 0 <= i < j < |q| ==> q[i] > q[j]
  }

  /** A table in which a day is either wholly there or not at all. */
  ghost predicate WholeDays(rows: set<Row>) {
    forall r :: r in rows ==> r.day in Days(rows)
  }

  // ----------------------------------------------------------- said by the rows alone

  /** A day is stored when it has a summary row. */
  ghost predicate IsStored(rows: set<Row>, d: nat) {
    Row(d, -1) in rows
  }

  /** The rows of a day: its summary and one for every validator. */
  ghost predicate IsRowOf(env: Env, d: nat, r: Row) {
    r.day == d && (r.validator == -1 || (env.calculate(d).Data? && r.validator in env.calculate(d).validators))
  }

  ghost predicate Exportable(rows: set<Row>, env: Env, d: nat) {
    env.calculate(d).Data? && !env.dbFails(d) && forall r :: r in rows ==> !IsRowOf(env, d, r)
  }

  lemma ExportableMeans(rows: set<Row>, env: Env, d: nat)
    ensures CanExport(rows, env, d) <==> Exportable(rows, env, d)
    ensures env.calculate(d).Data? ==> forall r :: r in DayRows(d, env.calculate(d).validators) <==> IsRowOf(env, d, r)
  {
    if env.calculate(d).Data? {
      forall r ensures r in DayRows(d, env.calculate(d).validators) <==> IsRowOf(env, d, r) {
        if IsRowOf(env, d, r) { assert r == Row(d, r.validator); }
      }
      assert rows !! DayRows(d, env.calculate(d).validators) <==> forall r :: r in rows ==> !IsRowOf(env, d, r);
    }
  }

  ghost predicate ToExport(rows: set<Row>, latest: nat, d: nat) {
    d <= latest && !IsStored(rows, d)
  }

  /** The days that are not stored, down to the first one that cannot be exported ... */
  ghost predicate ExportsDay(rows: set<Row>, latest: nat, env: Env, d: nat) {
    ToExport(rows, latest, d) && forall f: nat :: f >= d && ToExport(rows, latest, f) ==> Exportable(rows, env, f)
  }

  /** ... with all their rows and no others. */
  ghost predicate AddsDays(before: set<Row>, after: set<Row>, env: Env, exported: seq<nat>) {
    forall r :: r in after <==> r in before || (r.day in exported && IsRowOf(env, r.day, r))
  }

  /** A pass over a table whose count test fails. */
  ghost predicate PassTells(before: set<Row>, after: set<Row>, latest: nat, env: Env, ok: bool, exported: seq<nat>) {
    (forall d: nat :: d in exported <==> ExportsDay(before, latest, env, d)) &&
    (ok <==> forall d: nat :: ToExport(before, latest, d) ==> Exportable(before, env, d)) &&
    AddsDays(before, after, env, exported)
  }

  lemma {:induction false} RowsOfExactly(env: Env, days: seq<nat>, r: Row)
    requires forall d :: d in days ==> env.calculate(d).Data?
    ensures r in RowsOf(env, days) <==> r.day in days && IsRowOf(env, r.day, r)
    decreases |days|
  {
    if days != [] {
      var front, last := days[..|days| - 1], days[|days| - 1];
      assert days == front + [last];
      RowsOfExactly(env, front, r);
      ExportableMeans({}, env, last);
    }
  }

  lemma ToExportMeans(rows: set<Row>, latest: nat, env: Env, d: nat)
    ensures d in Missing(rows, latest) <==> ToExport(rows, latest, d)
    ensures CanExport(rows, env, d) <==> Exportable(rows, env, d)
  {
    ExportableMeans(rows, env, d);
    assert d in Days(rows) <==> Row(d, SUMMARY) in rows;
  }

  lemma DaysAdded(before: set<Row>, env: Env, exported: seq<nat>)
    requires forall d :: d in exported ==> env.calculate(d).Data?
    ensures AddsDays(before, before + RowsOf(env, exported), env, exported)
  {
    forall r ensures r in RowsOf(env, exported) <==> r.day in exported && IsRowOf(env, r.day, r) {
      RowsOfExactly(env, exported, r);
    }
  }

  lemma ExportsMeans(rows: set<Row>, latest: nat, env: Env, exported: seq<nat>, d: nat)
    requires AboveFirstFailure(rows, latest, env, exported)
    ensures d in exported <==> ExportsDay(rows, latest, env, d)
  {
    ToExportMeans(rows, latest, env, d);
    if d in exported {
      forall f: nat | f >= d && ToExport(rows, latest, f) ensures Exportable(rows, env, f) {
        ToExportMeans(rows, latest, env, f);
      }
    }
    if ExportsDay(rows, latest, env, d) {
      forall f: nat | f in Missing(rows, latest) && f >= d ensures CanExport(rows, env, f) {
        ToExportMeans(rows, latest, env, f);
      }
    }
  }

  lemma PassMeans(before: set<Row>, latest: nat, env: Env, ok: bool, exported: seq<nat>)
    requires AboveFirstFailure(before, latest, env, exported) && (ok <==> AllExportable(before, latest, env))
    ensures PassTells(before, before + RowsOf(env, exported), latest, env, ok, exported)
  {
    forall d: nat ensures d in exported <==> ExportsDay(before, latest, env, d) {
      ExportsMeans(before, latest, env, exported, d);
    }
    OkMeans(before, latest, env);
    forall d | d in exported ensures env.calculate(d).Data? {
      assert d in Missing(before, latest) && CanExport(before, env, d);
    }
    DaysAdded(before, env, exported);
  }

  lemma OkMeans(rows: set<Row>, latest: nat, env: Env)
    ensures AllExportable(rows, latest, env) <==> forall d: nat :: ToExport(rows, latest, d) ==> Exportable(rows, env, d)
  {
    if AllExportable(rows, latest, env) {
      forall d: nat | ToExport(rows, latest, d) ensures Exportable(rows, env, d) { ToExportMeans(rows, latest, env, d); }
    }
    if forall d: nat :: ToExport(rows, latest, d) ==> Exportable(rows, env, d) {
      forall d: nat | d in Missing(rows, latest) ensures CanExport(rows, env, d) { ToExportMeans(rows, latest, env, d); }
    }
  }

  class Exporter {
    var rows: set<Row>

    constructor ()
      ensures rows == {}
    {
      rows := {};
    }

    /** ExportDay: one transaction, all rows of the day or none. */
    method ExportDay(day: nat, env: Env) returns (ok: bool)
      modifies this
      ensures ok <==> CanExport(old(rows), env, day)
      ensures rows == if ok then old(rows) + DayRows(day, env.calculate(day).validators) else old(rows)
      ensures ok <==> Exportable(old(rows), env, day)
      ensures ok ==> forall r :: r in rows <==> r in old(rows) || IsRowOf(env, day, r)
    {
      ExportableMeans(rows, env, day);
      var data := env.calculate(day);
      if data.NoData? {
        return false;
      }
      var tx := rows;
      if Row(day, SUMMARY) in tx {
        return false;
      }
      tx := tx + {Row(day, SUMMARY)};
      var todo := data.validators;
      while todo != {}
        invariant todo <= data.validators
        invariant old(rows) !! DayRows(day, data.validators - todo)
        invariant tx == old(rows) + DayRows(day, data.validators - todo)
        decreases |todo|
      {
        var v :| v in todo;
        var row := Row(day, v);
        if row in tx {
          assert row in old(rows);
          return false;
        }
        assert data.validators - (todo - {v}) == (data.validators - todo) + {v};
        tx, todo := tx + {row}, todo - {v};
      }
      assert data.validators - todo == data.validators;
      if env.dbFails(day) {
        return false;
      }
      rows, ok := tx, true;
    }

    /** daysToExport: every day up to the latest set to true, every stored day set to false. */
    method MissingDays(latest: nat) returns (days: seq<nat>)
      ensures Descending(days) && forall d :: d in days <==> d in Missing(rows, latest)
      ensures forall d: nat :: d in days <==> d <= latest && Row(d, -1) !in rows
    {
      var flag: map<nat, bool> := map[];
      var i := 0;
      while i <= latest
        invariant 0 <= i <= latest + 1
        invariant forall d: nat :: d in flag <==> d < i
        invariant forall d :: d in flag ==> flag[d]
      {
        flag := flag[i := true];
        i := i + 1;
      }
      var stored := Days(rows);
      while stored != {}
        invariant stored <= Days(rows)
        invariant UpTo(latest) <= flag.Keys <= UpTo(latest) + Days(rows)
        invariant forall d :: d in flag ==> (flag[d] <==> d !in Days(rows) - stored)
        decreases |stored|
      {
        var d :| d in stored;
        flag := flag[d := false];
        stored := stored - {d};
      }
      var chosen := set d | d in flag && flag[d];
      assert chosen == Missing(rows, latest);
      days := SortDescending(chosen);
      forall d: nat ensures d in days <==> d <= latest && Row(d, -1) !in rows {
        assert d in Days(rows) <==> Row(d, SUMMARY) in rows;
      }
    }

    /** One pass of Run over a database in which the given day is the latest. The exported
        days come newest first; the first one that fails ends the pass, and what was
        exported before it stays. */
    method Pass(latest: nat, env: Env) returns (ok: bool, exported: seq<nat>)
      modifies this
      ensures Descending(exported)
      ensures |Days(old(rows))| > latest ==> ok && exported == [] && rows == old(rows)
      ensures |Days(old(rows))| <= latest ==> AboveFirstFailure(old(rows), latest, env, exported)
      ensures |Days(old(rows))| <= latest ==> (ok <==> AllExportable(old(rows), latest, env))
      ensures rows == old(rows) + RowsOf(env, exported)
      ensures if |set r | r in old(rows) && r.validator == -1 :: r.day| > latest
              then ok && exported == [] && rows == old(rows)
              else PassTells(old(rows), rows, latest, env, ok, exported)
    {
      exported := [];
      if |Days(rows)| > latest {
        return true, [];
      }
      var days := MissingDays(latest);
      for i := 0 to |days|
        invariant exported == days[..i]
        invariant forall j :: 0 <= j < i ==> CanExport(old(rows), env, days[j])
        invariant rows == old(rows) + RowsOf(env, exported)
      {
        OtherDays(old(rows), rows, exported, env, days[i]);
        assert days[i] !in exported;
        ok := ExportDay(days[i], env);
        if !ok {
          FirstFailure(old(rows), latest, days, i, env);
          PassMeans(old(rows), latest, env, false, exported);
          return;
        }
        assert days[..i + 1] == days[..i] + [days[i]];
        exported := exported + [days[i]];
      }
      assert days[..|days|] == days;
      NoFailure(old(rows), latest, days, env);
      PassMeans(old(rows), latest, env, true, exported);
      ok := true;
    }
  }

  function Validators(env: Env, d: nat): set<nat> {
    if env.calculate(d).Data? then env.calculate(d).validators else {}
  }

  function RowsOf(env: Env, days: seq<nat>): set<Row> {
    if days == [] then {}
    else RowsOf(env, days[..|days| - 1]) + DayRows(days[|days| - 1], Validators(env, days[|days| - 1]))
  }

  lemma {:induction false} RowsOfDays(env: Env, days: seq<nat>, r: Row)
    requires r in RowsOf(env, days)
    ensures r.day in days
    decreases |days|
  {
    if r in RowsOf(env, days[..|days| - 1]) { RowsOfDays(env, days[..|days| - 1], r); }
  }

  /** What a pass has added: exactly the exported days are new, and no day is half there. */
  lemma {:induction false} AfterPass(env: Env, rows: set<Row>, days: seq<nat>)
    ensures Days(rows + RowsOf(env, days)) == Days(rows) + set d | d in days
    ensures WholeDays(rows) ==> WholeDays(rows + RowsOf(env, days))
    decreases |days|
  {
    if days == [] {
      assert rows + RowsOf(env, days) == rows;
    } else {
      var front, last := days[..|days| - 1], days[|days| - 1];
      AfterPass(env, rows, front);
      var before, mine := rows + RowsOf(env, front), DayRows(last, Validators(env, last));
      assert rows + RowsOf(env, days) == before + mine;
      assert Row(last, SUMMARY) in mine;
      assert Days(before + mine) == Days(before) + {last};
      assert forall d :: d in days <==> d in front || d == last;
    }
  }

  /** Days exported in this pass do not stand in the way of another one. */
  lemma OtherDays(before: set<Row>, now: set<Row>, exported: seq<nat>, env: Env, day: nat)
    requires now == before + RowsOf(env, exported)
    requires day !in exported
    ensures CanExport(now, env, day) <==> CanExport(before, env, day)
  {
    var mine := DayRows(day, Validators(env, day));
    forall r | r in now && r in mine ensures r in before {
      if r in RowsOf(env, exported) { RowsOfDays(env, exported, r); }
    }
  }

  ghost predicate AllExportable(rows: set<Row>, latest: nat, env: Env) {
    forall d :: d in Missing(rows, latest) ==> CanExport(rows, env, d)
  }

  /** The missing days down to, and without, the newest one that cannot be exported. */
  ghost predicate AboveFirstFailure(rows: set<Row>, latest: nat, env: Env, exported: seq<nat>) {
    forall d :: d in exported <==>
                d in Missing(rows, latest) && forall f :: f in Missing(rows, latest) && f >= d ==> CanExport(rows, env, f)
  }

  lemma FirstFailure(rows: set<Row>, latest: nat, days: seq<nat>, i: nat, env: Env)
    requires Descending(days) && i < |days| && forall d :: d in days <==> d in Missing(rows, latest)
    requires !CanExport(rows, env, days[i]) && forall j :: 0 <= j < i ==> CanExport(rows, env, days[j])
    ensures AboveFirstFailure(rows, latest, env, days[..i]) && !AllExportable(rows, latest, env)
  {
    assert days[i] in days;
    forall d ensures d in days[..i] <==>
      d in Missing(rows, latest) && forall f :: f in Missing(rows, latest) && f >= d ==> CanExport(rows, env, f)
    {
      if d in days[..i] {
        var j :| 0 <= j < i && days[j] == d;
        assert days[j] in days;
        forall f | f in Missing(rows, latest) && f >= d ensures CanExport(rows, env, f) {
          var k :| 0 <= k < |days| && days[k] == f;
        }
      } else if d in Missing(rows, latest) {
        var k :| 0 <= k < |days| && days[k] == d;
        assert days[i] in Missing(rows, latest) && days[i] >= d;
      }
    }
  }

  lemma NoFailure(rows: set<Row>, latest: nat, days: seq<nat>, env: Env)
    requires forall d :: d in days <==> d in Missing(rows, latest)
    requires forall j :: 0 <= j < |days| ==> CanExport(rows, env, days[j])
    ensures AboveFirstFailure(rows, latest, env, days) && AllExportable(rows, latest, env)
  {
    forall d | d in days ensures CanExport(rows, env, d) {
      var j :| 0 <= j < |days| && days[j] == d;
    }
  }

  /** sort.Slice, newest day first. */
  method SortDescending(s: set<nat>) returns (days: seq<nat>)
    ensures Descending(days) && forall d :: d in days <==> d in s
  {
    days := [];
    var todo := s;
    while todo != {}
      invariant Descending(days) && todo <= s
      invariant forall d :: d in s <==> d in days || d in todo
      invariant forall i, d :: 0 <= i < |days| && d in todo ==> days[i] > d
      decreases |todo|
    {
      var m := MaxOf(todo);
      days, todo := days + [m], todo - {m};
    }
  }
}
