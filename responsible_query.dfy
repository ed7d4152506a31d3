/**
 * The read side of the form (app.py, get_responsible_with_kpis): the
 * responsible with the given id, and the `kpi_values` rows of that
 * responsible for one week joined with their `Kpi`, ordered by `kpi_id`.
 */
module ResponsibleQuery {
  import opened Wrappers
  import opened Tables

  /** One entry of the `kpis` list the query returns. */
  datatype KpiRow = KpiRow(
    kpiValuesId: int,
    value: Option<string>,
    week: string,
    analyse: Option<string>,
    actionsCorrectives: Option<string>,
    kpiId: int,
    kpiName: string,
    kpiObjectif: Option<string>)

  datatype FormData = FormData(responsible: Responsible, kpis: seq<KpiRow>)

  /** The query raises "Responsible not found". */
  datatype QueryError = ResponsibleNotFound

  function Row(kv: KpiValue, k: Kpi): KpiRow {
    KpiRow(kv.kpiValuesId, kv.value, kv.week, kv.analyse, kv.actionsCorrectives, k.kpiId, k.name, k.objective)
  }

  /** The first `Responsible` row with the id, as `fetchone` returns it. */
  function FindResponsible(rs: seq<Responsible>, rid: int): (r: Option<Responsible>)
    ensures r.None? <==> forall x :: x in rs ==> x.responsibleId != rid
    ensures r.Some? ==> r.value in rs && r.value.responsibleId == rid
  {
    if rs == [] then None
    else if rs[0].responsibleId == rid then Some(rs[0])
    else
      assert forall x :: x in rs <==> x == rs[0] || x in rs[1..];
      FindResponsible(rs[1..], rid)
  }

  /** The join and WHERE conditions of the KPI query. */
  predicate Selected(kv: KpiValue, k: Kpi, rid: int, week: string) {
    kv.kpiId == k.kpiId && kv.responsibleId == rid && kv.week == week
  }

  function JoinKpis(kv: KpiValue, ks: seq<Kpi>, rid: int, week: string): seq<KpiRow> {
    if ks == [] then []
    else (if Selected(kv, ks[0], rid, week) then [Row(kv, ks[0])] else []) + JoinKpis(kv, ks[1..], rid, week)
  }

  /** The joined rows before ordering. */
  function ValueRows(vs: seq<KpiValue>, ks: seq<Kpi>, rid: int, week: string): seq<KpiRow> {
    if vs == [] then [] else JoinKpis(vs[0], ks, rid, week) + ValueRows(vs[1..], ks, rid, week)
  }

  lemma {:induction false} JoinKpisMembers(kv: KpiValue, ks: seq<Kpi>, rid: int, week: string, x: KpiRow)
    ensures x in JoinKpis(kv, ks, rid, week) <==> exists k :: k in ks && Selected(kv, k, rid, week) && x == Row(kv, k)
  {
    if ks != [] {
      JoinKpisMembers(kv, ks[1..], rid, week, x);
      assert forall k :: k in ks <==> k == ks[0] || k in ks[1..];
    }
  }

  lemma {:induction false} ValueRowsMembers(vs: seq<KpiValue>, ks: seq<Kpi>, rid: int, week: string, x: KpiRow)
    ensures x in ValueRows(vs, ks, rid, week)
        <==> exists kv, k :: kv in vs && k in ks && Selected(kv, k, rid, week) && x == Row(kv, k)
  {
    if vs != [] {
      JoinKpisMembers(vs[0], ks, rid, week, x);
      ValueRowsMembers(vs[1..], ks, rid, week, x);
      assert forall kv :: kv in vs <==> kv == vs[0] || kv in vs[1..];
    }
  }

  /** The `kpi_values` rows of the responsible for the week. */
  function ValuesOf(vs: seq<KpiValue>, rid: int, week: string): (r: seq<KpiValue>)
    ensures forall kv :: kv in r <==> kv in vs && kv.responsibleId == rid && kv.week == week
  {
    if vs == [] then []
    else
      assert forall kv :: kv in vs <==> kv == vs[0] || kv in vs[1..];
      (if vs[0].responsibleId == rid && vs[0].week == week then [vs[0]] else []) + ValuesOf(vs[1..], rid, week)
  }

  /** Every value row names a KPI that exists (the foreign key `kpi_values.kpi_id`). */
  ghost predicate KpiReferencesExist(vs: seq<KpiValue>, ks: seq<Kpi>) {
    forall kv :: kv in vs ==> exists k :: k in ks && k.kpiId == kv.kpiId
  }

  lemma {:induction false} JoinKpisSingle(kv: KpiValue, ks: seq<Kpi>, rid: int, week: string)
    requires UniqueKpiIds(ks)
    requires exists k :: k in ks && k.kpiId == kv.kpiId
    ensures |JoinKpis(kv, ks, rid, week)| == if kv.responsibleId == rid && kv.week == week then 1 else 0
  {
    var k :| k in ks && k.kpiId == kv.kpiId;
    if ks[0] == k {
      assert forall j :: 0 <= j < |ks[1..]| ==> ks[1..][j].kpiId != kv.kpiId by {
        forall j | 0 <= j < |ks[1..]| ensures ks[1..][j].kpiId != kv.kpiId {
          assert ks[1..][j] == ks[j + 1];
        }
      }
      JoinKpisNone(kv, ks[1..], rid, week);
    } else {
      assert k in ks[1..];
      assert UniqueKpiIds(ks[1..]) by {
        forall i, j | 0 <= i < j < |ks[1..]| ensures ks[1..][i].kpiId != ks[1..][j].kpiId {
          assert ks[1..][i] == ks[i + 1] && ks[1..][j] == ks[j + 1];
        }
      }
      JoinKpisSingle(kv, ks[1..], rid, week);
    }
  }

  lemma {:induction false} JoinKpisNone(kv: KpiValue, ks: seq<Kpi>, rid: int, week: string)
    requires forall j :: 0 <= j < |ks| ==> ks[j].kpiId != kv.kpiId
    ensures JoinKpis(kv, ks, rid, week) == []
  {
    if ks != [] {
      JoinKpisNone(kv, ks[1..], rid, week);
    }
  }

  /**
   * With a primary key on `Kpi` and the foreign key in place, the join
   * yields exactly one row per `kpi_values` row of the responsible and week.
   */
  lemma {:induction false} ValueRowsCount(vs: seq<KpiValue>, ks: seq<Kpi>, rid: int, week: string)
    requires UniqueKpiIds(ks) && KpiReferencesExist(vs, ks)
    ensures |ValueRows(vs, ks, rid, week)| == |ValuesOf(vs, rid, week)|
  {
    if vs != [] {
      assert vs[0] in vs;
      JoinKpisSingle(vs[0], ks, rid, week);
      assert KpiReferencesExist(vs[1..], ks) by {
        forall kv | kv in vs[1..] ensures exists k :: k in ks && k.kpiId == kv.kpiId {
          assert kv in vs;
        }
      }
      ValueRowsCount(vs[1..], ks, rid, week);
    }
  }

  // ---------------------------------------------------------------------
  // ORDER BY k.kpi_id ASC

  ghost predicate SortedByKpi(s: seq<KpiRow>) {
    forall i, j :: 0 <= i < j < |s| ==> s[i].kpiId <= s[j].kpiId
  }

  lemma SortedByKpiCons(a: KpiRow, t: seq<KpiRow>)
    requires SortedByKpi(t) && forall y :: y in multiset(t) ==> a.kpiId <= y.kpiId
    ensures SortedByKpi([a] + t)
  {
    assert forall j :: 0 < j < |[a] + t| ==> ([a] + t)[j] == t[j - 1] && t[j - 1] in multiset(t);
  }

  /** Places `x` before the first row whose `kpi_id` is not below its own. */
  function InsertByKpi(x: KpiRow, s: seq<KpiRow>): (r: seq<KpiRow>)
    ensures multiset(r) == multiset(s) + multiset{x}
  {
    if s == [] || x.kpiId <= s[0].kpiId then [x] + s
    else
      assert s == [s[0]] + s[1..];
      [s[0]] + InsertByKpi(x, s[1..])
  }

  lemma {:induction false} InsertByKpiSorted(x: KpiRow, s: seq<KpiRow>)
    requires SortedByKpi(s)
    ensures SortedByKpi(InsertByKpi(x, s))
  {
    if s == [] || x.kpiId <= s[0].kpiId {
      forall y: KpiRow | y in multiset(s) ensures x.kpiId <= y.kpiId {
        var j :| 0 <= j < |s| && s[j] == y;
      }
      SortedByKpiCons(x, s);
    } else {
      var t := InsertByKpi(x, s[1..]);
      assert SortedByKpi(s[1..]);
      InsertByKpiSorted(x, s[1..]);
      forall y: KpiRow | y in multiset(t) ensures s[0].kpiId <= y.kpiId {
        assert y == x || y in multiset(s[1..]);
        if y != x {
          var j :| 0 <= j < |s[1..]| && s[1..][j] == y;
          assert s[j + 1] == y;
        }
      }
      SortedByKpiCons(s[0], t);
    }
  }

  function SortByKpi(s: seq<KpiRow>): (r: seq<KpiRow>)
    ensures multiset(r) == multiset(s)
    ensures SortedByKpi(r)
  {
    if s == [] then []
    else
      assert s == [s[0]] + s[1..];
      InsertByKpiSorted(s[0], SortByKpi(s[1..]));
      InsertByKpi(s[0], SortByKpi(s[1..]))
  }

  /** The query; it raises when no responsible has the id. */
  function GetResponsibleWithKpis(ks: seq<Kpi>, vs: seq<KpiValue>, rs: seq<Responsible>,
                                  rid: int, week: string): (r: Result<FormData, QueryError>)
    ensures r.Failure? <==> forall x :: x in rs ==> x.responsibleId != rid
    ensures r.Success? ==> r.value.responsible in rs && r.value.responsible.responsibleId == rid
    ensures r.Success? ==> SortedByKpi(r.value.kpis)
    ensures r.Success? ==> multiset(r.value.kpis) == multiset(ValueRows(vs, ks, rid, week))
    ensures r.Success? ==>
      forall x :: x in r.value.kpis <==>
        exists kv, k :: kv in vs && k in ks && Selected(kv, k, rid, week) && x == Row(kv, k)
  {
    match FindResponsible(rs, rid)
    case None => Failure(ResponsibleNotFound)
    case Some(resp) =>
      var rows := ValueRows(vs, ks, rid, week);
      var sorted := SortByKpi(rows);
      assert forall x :: x in sorted <==> x in rows by {
        forall x ensures x in sorted <==> x in rows {
          assert x in sorted <==> x in multiset(sorted);
          assert x in rows <==> x in multiset(rows);
        }
      }
      assert forall x :: x in rows <==>
                 exists kv, k :: kv in vs && k in ks && Selected(kv, k, rid, week) && x == Row(kv, k) by {
        forall x ensures x in rows <==>
                           exists kv, k :: kv in vs && k in ks && Selected(kv, k, rid, week) && x == Row(kv, k) {
          ValueRowsMembers(vs, ks, rid, week, x);
        }
      }
      Success(FormData(resp, sorted))
  }
}
