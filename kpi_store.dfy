/**
 * The database the reminder cycle and the form write to, as an object with
 * the three tables as fields: the schedule advance of one KPI (app.py,
 * update_kpi_created_at) and the partial-update merge of a submitted form
 * into `kpi_values` (app.py, submit_form).
 */
module KpiStore {
  import opened Wrappers
  import opened Text
  import opened Tables
  import opened FormFields
  import WeekKey

  // ---------------------------------------------------------------------
  // Advancing a KPI's schedule

  /**
   * `SET created_at = NOW()`. The database then recomputes
   * `frequence_de_envoi` by a recurrence rule of its own, given here as
   * `nextSend(kpiId, createdAt)`.
   */
  function Touch(k: Kpi, now: int, nextSend: (int, int) -> Option<int>): Kpi {
    k.(createdAt := now, frequenceDeEnvoi := nextSend(k.kpiId, now))
  }

  /** The `Kpi` table after touching every row whose id is in `ids`. */
  function Advance(ks: seq<Kpi>, ids: set<int>, now: int, nextSend: (int, int) -> Option<int>): seq<Kpi> {
    seq(|ks|, i requires 0 <= i < |ks| => if ks[i].kpiId in ids then Touch(ks[i], now, nextSend) else ks[i])
  }

  predicate HasKpi(ks: seq<Kpi>, kpiId: int) {
    exists i | 0 <= i < |ks| :: ks[i].kpiId == kpiId
  }

  /**
   * The `Kpi` table after one update call per id in `ids`, each in its own
   * transaction: the row of KPI `id` is touched with that call's own
   * reading of `NOW()`, `at(id)`.
   */
  function AdvanceEach(ks: seq<Kpi>, ids: set<int>, at: int -> int, nextSend: (int, int) -> Option<int>): seq<Kpi> {
    seq(|ks|, i requires 0 <= i < |ks| =>
      if ks[i].kpiId in ids then Touch(ks[i], at(ks[i].kpiId), nextSend) else ks[i])
  }

  /**
   * One more update call, for `id` at instant `at(id)`, after those for
   * `done`: the rows of `id` get that instant whatever was done before, so
   * the table is `AdvanceEach` of the enlarged set.
   */
  lemma AdvanceEachInsert(ks: seq<Kpi>, done: set<int>, id: int, at: int -> int, nextSend: (int, int) -> Option<int>)
    ensures Advance(AdvanceEach(ks, done, at, nextSend), {id}, at(id), nextSend) == AdvanceEach(ks, done + {id}, at, nextSend)
  {
    var l, r := Advance(AdvanceEach(ks, done, at, nextSend), {id}, at(id), nextSend), AdvanceEach(ks, done + {id}, at, nextSend);
    forall i | 0 <= i < |ks| ensures l[i] == r[i] {
    }
  }

  /** Touching keeps every key, so the primary key of `Kpi` is kept. */
  lemma AdvanceKeepsIds(ks: seq<Kpi>, ids: set<int>, now: int, nextSend: (int, int) -> Option<int>)
    ensures |Advance(ks, ids, now, nextSend)| == |ks|
    ensures forall i :: 0 <= i < |ks| ==> Advance(ks, ids, now, nextSend)[i].kpiId == ks[i].kpiId
    ensures UniqueKpiIds(ks) ==> UniqueKpiIds(Advance(ks, ids, now, nextSend))
  {
  }

  /** The per-call touches keep every key too, so the scheduler's run keeps the primary key of `Kpi`. */
  lemma AdvanceEachKeepsIds(ks: seq<Kpi>, ids: set<int>, at: int -> int, nextSend: (int, int) -> Option<int>)
    ensures |AdvanceEach(ks, ids, at, nextSend)| == |ks|
    ensures forall i :: 0 <= i < |ks| ==> AdvanceEach(ks, ids, at, nextSend)[i].kpiId == ks[i].kpiId
    ensures UniqueKpiIds(ks) ==> UniqueKpiIds(AdvanceEach(ks, ids, at, nextSend))
  {
  }

  // ---------------------------------------------------------------------
  // The partial-update merge of submit_form

  /**
   * The id text used as a parameter for the integer column
   * `kpi_values_id`. The model accepts an optional sign and one or more
   * decimal digits, and takes any other text to raise an error. This is
   * PostgreSQL's integer input up to version 15, less its tolerance of
   * surrounding whitespace and its range check; version 16 also accepts
   * `_` between digits and the prefixes `0x`, `0o` and `0b`.
   */
  function IntegerInput(s: string): Option<int> {
    if |s| >= 2 && (s[0] == '+' || s[0] == '-') && AllDigits(s[1..]) then
      var n: int := WeekKey.DecimalValue(s[1..]);
      Some(if s[0] == '-' then -n else n)
    else if |s| >= 1 && AllDigits(s) then Some(WeekKey.DecimalValue(s))
    else None
  }

  /** `SELECT analyse, actions_correctives … WHERE kpi_values_id = %s`, first row. */
  function FirstWithId(vs: seq<KpiValue>, id: int): (r: Option<KpiValue>)
    ensures r.None? <==> forall i :: 0 <= i < |vs| ==> vs[i].kpiValuesId != id
    ensures r.Some? ==> r.value in vs && r.value.kpiValuesId == id
  {
    if vs == [] then None
    else if vs[0].kpiValuesId == id then Some(vs[0])
    else
      var r := FirstWithId(vs[1..], id);
      assert forall i :: 0 < i < |vs| ==> vs[i] == vs[1..][i - 1];
      r
  }

  /** The submitted value if one was given, otherwise the old one (`data.get(field, old)`). */
  function Override(given: Option<string>, previous: Option<string>): Option<string> {
    if given.Some? then given else previous
  }

  /** `UPDATE kpi_values SET analyse = a, actions_correctives = c WHERE kpi_values_id = id`. */
  function SetColumns(vs: seq<KpiValue>, id: int, a: Option<string>, c: Option<string>): seq<KpiValue> {
    seq(|vs|, i requires 0 <= i < |vs| =>
      if vs[i].kpiValuesId == id then vs[i].(analyse := a, actionsCorrectives := c) else vs[i])
  }

  /** One entry of `kpi_data` applied to the table; an id with no row is skipped. */
  function ApplyEdit(vs: seq<KpiValue>, id: int, e: FieldEdit): seq<KpiValue> {
    match FirstWithId(vs, id)
    case None => vs
    case Some(row) =>
      SetColumns(vs, id, Override(e.analyse, row.analyse), Override(e.actionsCorrectives, row.actionsCorrectives))
  }

  /**
   * The loop over `kpi_data` in order. An id that PostgreSQL cannot read as
   * an integer raises; the transaction is then never committed, so the
   * whole merge yields `None` and the table keeps its old contents.
   */
  function Merged(vs: seq<KpiValue>, data: seq<FieldEdit>): Option<seq<KpiValue>>
    decreases |data|
  {
    if data == [] then Some(vs)
    else match IntegerInput(data[0].id)
      case None => None
      case Some(id) => Merged(ApplyEdit(vs, id, data[0]), data[1..])
  }

  /** Does entry `e` name the row with key `id`? */
  predicate Names(e: FieldEdit, id: int) {
    IntegerInput(e.id) == Some(id)
  }

  function Given(e: FieldEdit, f: Field): Option<string> {
    match f
    case Analyse => e.analyse
    case ActionsCorrectives => e.actionsCorrectives
  }

  /** The value for column `f` of row `id` supplied by the last entry that names the row and supplies one. */
  function LastGiven(data: seq<FieldEdit>, id: int, f: Field): Option<string> {
    if data == [] then None
    else
      var later := LastGiven(data[1..], id, f);
      if later.Some? then later
      else if Names(data[0], id) then Given(data[0], f)
      else None
  }

  /** The reference result for one row: each edited column takes its last submitted value. */
  function MergedRow(row: KpiValue, data: seq<FieldEdit>): KpiValue {
    row.(analyse := Override(LastGiven(data, row.kpiValuesId, Analyse), row.analyse),
         actionsCorrectives := Override(LastGiven(data, row.kpiValuesId, ActionsCorrectives), row.actionsCorrectives))
  }

  /** The merge fails exactly when some collected id is not an integer. */
  lemma {:induction false} MergedFailsIff(vs: seq<KpiValue>, data: seq<FieldEdit>)
    ensures Merged(vs, data).None? <==> exists j :: 0 <= j < |data| && IntegerInput(data[j].id).None?
    decreases |data|
  {
    if data != [] {
      match IntegerInput(data[0].id)
      case None =>
      case Some(id) =>
        MergedFailsIff(ApplyEdit(vs, id, data[0]), data[1..]);
        assert forall j :: 0 < j < |data| ==> data[j] == data[1..][j - 1];
    }
  }

  lemma ApplyEditRows(vs: seq<KpiValue>, id: int, e: FieldEdit)
    requires UniqueValueIds(vs)
    ensures var r := ApplyEdit(vs, id, e);
      |r| == |vs| && UniqueValueIds(r)
      && forall i :: 0 <= i < |vs| ==>
           r[i] == if vs[i].kpiValuesId == id
                   then vs[i].(analyse := Override(e.analyse, vs[i].analyse),
                               actionsCorrectives := Override(e.actionsCorrectives, vs[i].actionsCorrectives))
                   else vs[i]
  {
    match FirstWithId(vs, id)
    case None =>
    case Some(row) =>
      forall i | 0 <= i < |vs| && vs[i].kpiValuesId == id ensures vs[i] == row {
        var j :| 0 <= j < |vs| && vs[j] == row;
      }
  }

  /**
   * With a primary key on `kpi_values`, the merge changes each row on its
   * own: `analyse` and `actions_correctives` take the last value submitted
   * for the row, a column nobody submitted keeps its value, and every other
   * column and every row no entry names stay as they were.
   */
  lemma {:induction false} MergedRows(vs: seq<KpiValue>, data: seq<FieldEdit>)
    requires UniqueValueIds(vs)
    requires Merged(vs, data).Some?
    ensures |Merged(vs, data).value| == |vs|
    ensures forall i :: 0 <= i < |vs| ==> Merged(vs, data).value[i] == MergedRow(vs[i], data)
    decreases |data|
  {
    if data == [] {
      forall i | 0 <= i < |vs| ensures vs[i] == MergedRow(vs[i], data) {
      }
    } else {
      var id := IntegerInput(data[0].id).value;
      var vs' := ApplyEdit(vs, id, data[0]);
      ApplyEditRows(vs, id, data[0]);
      MergedRows(vs', data[1..]);
    }
  }

  /** A row that no collected id names is left untouched. */
  lemma {:induction false} UnnamedRowUnchanged(row: KpiValue, data: seq<FieldEdit>)
    requires forall j :: 0 <= j < |data| ==> !Names(data[j], row.kpiValuesId)
    ensures MergedRow(row, data) == row
  {
    NothingGiven(data, row.kpiValuesId, Analyse);
    NothingGiven(data, row.kpiValuesId, ActionsCorrectives);
  }

  lemma {:induction false} NothingGiven(data: seq<FieldEdit>, id: int, f: Field)
    requires forall j :: 0 <= j < |data| ==> !Names(data[j], id)
    ensures LastGiven(data, id, f) == None
  {
    if data != [] {
      assert forall j :: 0 < j < |data| ==> data[j] == data[1..][j - 1];
      NothingGiven(data[1..], id, f);
    }
  }

  // ---------------------------------------------------------------------
  // The database object

  datatype SubmitOutcome =
    | NothingToUpdate   // no analyse_/actions_ key: nothing is written
    | Saved             // every entry applied or skipped, then committed
    | Failed            // an error was raised: nothing is committed

  class Store {
    var kpis: seq<Kpi>
    var values: seq<KpiValue>
    var responsibles: seq<Responsible>

    constructor (ks: seq<Kpi>, vs: seq<KpiValue>, rs: seq<Responsible>)
      ensures kpis == ks && values == vs && responsibles == rs
    {
      kpis, values, responsibles := ks, vs, rs;
    }

    /**
     * update_kpi_created_at. `fails` says whether the database raises: the
     * transaction is then rolled back and false is returned. Otherwise
     * every row with the id is touched and the answer is whether one
     * existed.
     */
    method UpdateKpiCreatedAt(kpiId: int, now: int, nextSend: (int, int) -> Option<int>, fails: bool)
      returns (found: bool)
      modifies this
      ensures found <==> !fails && HasKpi(old(kpis), kpiId)
      ensures kpis == if fails then old(kpis) else Advance(old(kpis), {kpiId}, now, nextSend)
      ensures !HasKpi(old(kpis), kpiId) ==> kpis == old(kpis)
      ensures values == old(values) && responsibles == old(responsibles)
    {
      if fails {
        return false;
      }
      found := HasKpi(kpis, kpiId);
      kpis := Advance(kpis, {kpiId}, now, nextSend);
      if !found {
        assert kpis == old(kpis);
      }
    }

    /**
     * submit_form after the parameters are read: collect the fields, and
     * merge them into `kpi_values` one entry at a time, rolling back when
     * an entry's id raises.
     */
    method SubmitForm(form: seq<(string, string)>) returns (outcome: SubmitOutcome)
      modifies this
      ensures Collected(form) == [] ==> outcome == NothingToUpdate && values == old(values)
      ensures Collected(form) != [] ==>
        match Merged(old(values), Collected(form))
        case None => outcome == Failed && values == old(values)
        case Some(vs) => outcome == Saved && values == vs
      ensures kpis == old(kpis) && responsibles == old(responsibles)
    {
      var data := CollectFields(form);
      if data == [] {
        return NothingToUpdate;
      }
      var snapshot := values;
      var i := 0;
      while i < |data|
        invariant 0 <= i <= |data|
        invariant Merged(snapshot, data) == Merged(values, data[i..])
        invariant kpis == old(kpis) && responsibles == old(responsibles) && snapshot == old(values)
      {
        assert data[i..][0] == data[i] && data[i..][1..] == data[i + 1..];
        var id := IntegerInput(data[i].id);
        if id.None? {
          values := snapshot;
          return Failed;
        }
        var previous := FirstWithId(values, id.value);
        if previous.Some? {
          var newAnalyse := Override(data[i].analyse, previous.value.analyse);
          var newActions := Override(data[i].actionsCorrectives, previous.value.actionsCorrectives);
          values := SetColumns(values, id.value, newAnalyse, newActions);
        }
        i := i + 1;
      }
      return Saved;
    }
  }
}
