/**
 * The due-reminder query of the scheduler (app.py,
 * get_due_kpis_with_responsibles): the inner join of `Kpi`, `kpi_values`
 * and `Responsible`, restricted to KPIs whose next send instant has passed
 * and to values of the current week, with duplicates removed (DISTINCT) and
 * rows ordered by `(kpi_id, responsible_id)`.
 */
module DueQuery {
  import opened Tables
  import WeekKey

  /** One selected row: `(kpi_id, KPI_name, responsible_id, name, email, week)`. */
  datatype DueRecord = DueRecord(
    kpiId: int,
    kpiName: string,
    responsibleId: int,
    responsibleName: string,
    email: string,
    week: string)

  function Record(k: Kpi, kv: KpiValue, r: Responsible): DueRecord {
    DueRecord(k.kpiId, k.name, r.responsibleId, r.name, r.email, kv.week)
  }

  /** The join and WHERE conditions on one combination of rows. */
  predicate Matches(k: Kpi, kv: KpiValue, r: Responsible, now: int, week: string) {
    kv.kpiId == k.kpiId && r.responsibleId == kv.responsibleId && IsDue(k, now) && kv.week == week
  }

  /** The rows the query is asked for, stated as a relation on the tables. */
  ghost predicate IsDueRow(x: DueRecord, ks: seq<Kpi>, vs: seq<KpiValue>, rs: seq<Responsible>, now: int, week: string) {
    exists k, kv, r :: k in ks && kv in vs && r in rs && Matches(k, kv, r, now, week) && x == Record(k, kv, r)
  }

  // ---------------------------------------------------------------------
  // The join, one table at a time

  function JoinResponsibles(k: Kpi, kv: KpiValue, rs: seq<Responsible>, now: int, week: string): seq<DueRecord> {
    if rs == [] then []
    else (if Matches(k, kv, rs[0], now, week) then [Record(k, kv, rs[0])] else [])
         + JoinResponsibles(k, kv, rs[1..], now, week)
  }

  function JoinValues(k: Kpi, vs: seq<KpiValue>, rs: seq<Responsible>, now: int, week: string): seq<DueRecord> {
    if vs == [] then [] else JoinResponsibles(k, vs[0], rs, now, week) + JoinValues(k, vs[1..], rs, now, week)
  }

  function Joined(ks: seq<Kpi>, vs: seq<KpiValue>, rs: seq<Responsible>, now: int, week: string): seq<DueRecord> {
    if ks == [] then [] else JoinValues(ks[0], vs, rs, now, week) + Joined(ks[1..], vs, rs, now, week)
  }

  lemma {:induction false} JoinResponsiblesMembers(k: Kpi, kv: KpiValue, rs: seq<Responsible>, now: int, week: string, x: DueRecord)
    ensures x in JoinResponsibles(k, kv, rs, now, week)
        <==> exists r :: r in rs && Matches(k, kv, r, now, week) && x == Record(k, kv, r)
  {
    if rs != [] {
      JoinResponsiblesMembers(k, kv, rs[1..], now, week, x);
      assert forall r :: r in rs <==> r == rs[0] || r in rs[1..];
    }
  }

  lemma {:induction false} JoinValuesMembers(k: Kpi, vs: seq<KpiValue>, rs: seq<Responsible>, now: int, week: string, x: DueRecord)
    ensures x in JoinValues(k, vs, rs, now, week)
        <==> exists kv, r :: kv in vs && r in rs && Matches(k, kv, r, now, week) && x == Record(k, kv, r)
  {
    if vs != [] {
      JoinResponsiblesMembers(k, vs[0], rs, now, week, x);
      JoinValuesMembers(k, vs[1..], rs, now, week, x);
      assert forall kv :: kv in vs <==> kv == vs[0] || kv in vs[1..];
    }
  }

  /** The join produces exactly the rows the query asks for. */
  lemma {:induction false} JoinedMembers(ks: seq<Kpi>, vs: seq<KpiValue>, rs: seq<Responsible>, now: int, week: string, x: DueRecord)
    ensures x in Joined(ks, vs, rs, now, week) <==> IsDueRow(x, ks, vs, rs, now, week)
  {
    if ks != [] {
      JoinValuesMembers(ks[0], vs, rs, now, week, x);
      JoinedMembers(ks[1..], vs, rs, now, week, x);
      assert forall k :: k in ks <==> k == ks[0] || k in ks[1..];
    }
  }

  // ---------------------------------------------------------------------
  // DISTINCT and ORDER BY kpi_id, responsible_id

  predicate KeyLess(a: DueRecord, b: DueRecord) {
    a.kpiId < b.kpiId || (a.kpiId == b.kpiId && a.responsibleId < b.responsibleId)
  }

  predicate KeyLe(a: DueRecord, b: DueRecord) {
    !KeyLess(b, a)
  }

  ghost predicate SortedByKey(s: seq<DueRecord>) {
    forall i, j :: 0 <= i < j < |s| ==> KeyLe(s[i], s[j])
  }

  ghost predicate StrictlySortedByKey(s: seq<DueRecord>) {
    forall i, j :: 0 <= i < j < |s| ==> KeyLess(s[i], s[j])
  }

  ghost predicate Distinct(s: seq<DueRecord>) {
    forall i, j :: 0 <= i < j < |s| ==> s[i] != s[j]
  }

  lemma SortedCons(a: DueRecord, t: seq<DueRecord>)
    requires SortedByKey(t) && forall y :: y in t ==> KeyLe(a, y)
    ensures SortedByKey([a] + t)
  {
    assert forall j :: 0 < j < |[a] + t| ==> ([a] + t)[j] == t[j - 1];
  }

  lemma DistinctCons(a: DueRecord, t: seq<DueRecord>)
    requires Distinct(t) && a !in t
    ensures Distinct([a] + t)
  {
    assert forall j :: 0 < j < |[a] + t| ==> ([a] + t)[j] == t[j - 1];
  }

  /** Places `x` after every row whose key is not above its own, unless it is already there. */
  function Insert(x: DueRecord, s: seq<DueRecord>): (r: seq<DueRecord>)
    ensures forall y :: y in r <==> y == x || y in s
    ensures SortedByKey(s) ==> SortedByKey(r)
    ensures SortedByKey(s) && Distinct(s) ==> Distinct(r)
  {
    if s == [] then [x]
    else if x == s[0] then s
    else if KeyLess(x, s[0]) then [x] + s
    else
      var t := Insert(x, s[1..]);
      assert forall y :: y in s <==> y == s[0] || y in s[1..];
      assert SortedByKey(s) ==> SortedByKey([s[0]] + t) && (Distinct(s) ==> Distinct([s[0]] + t)) by {
        if SortedByKey(s) {
          assert SortedByKey(s[1..]);
          SortedCons(s[0], t);
          if Distinct(s) {
            assert Distinct(s[1..]);
            DistinctCons(s[0], t);
          }
        }
      }
      [s[0]] + t
  }

  /** The rows of `s` without repetition, ordered by key. */
  function SortDistinct(s: seq<DueRecord>): (r: seq<DueRecord>)
    ensures forall y :: y in r <==> y in s
    ensures SortedByKey(r) && Distinct(r)
  {
    if s == [] then []
    else
      assert forall y :: y in s <==> y == s[0] || y in s[1..];
      Insert(s[0], SortDistinct(s[1..]))
  }

  /**
   * The query. A database error inside it is caught and yields the empty
   * list; `fetchFails` says whether one occurs. The week compared against
   * is the key of the current ISO `(year, week)`.
   */
  function GetDueKpis(ks: seq<Kpi>, vs: seq<KpiValue>, rs: seq<Responsible>,
                      now: int, year: nat, week: nat, fetchFails: bool): (r: seq<DueRecord>)
    ensures fetchFails ==> r == []
    ensures !fetchFails ==>
      forall x :: x in r <==> IsDueRow(x, ks, vs, rs, now, WeekKey.WeekKey(year, week))
    ensures forall x :: x in r ==> x.week == WeekKey.WeekKey(year, week)
    ensures SortedByKey(r) && Distinct(r)
  {
    if fetchFails then []
    else
      var key := WeekKey.WeekKey(year, week);
      var rows := Joined(ks, vs, rs, now, key);
      assert forall x :: x in rows <==> IsDueRow(x, ks, vs, rs, now, key) by {
        forall x ensures x in rows <==> IsDueRow(x, ks, vs, rs, now, key) {
          JoinedMembers(ks, vs, rs, now, key, x);
        }
      }
      SortDistinct(rows)
  }

  // ---------------------------------------------------------------------
  // Properties of the query

  /** With primary keys on `Kpi` and `Responsible`, two due rows with the same key are the same row. */
  lemma SameKeySameRow(x: DueRecord, y: DueRecord, ks: seq<Kpi>, vs: seq<KpiValue>, rs: seq<Responsible>, now: int, week: string)
    requires UniqueKpiIds(ks) && UniqueResponsibleIds(rs)
    requires IsDueRow(x, ks, vs, rs, now, week) && IsDueRow(y, ks, vs, rs, now, week)
    requires x.kpiId == y.kpiId && x.responsibleId == y.responsibleId
    ensures x == y
  {
    var k1, kv1, r1 :| k1 in ks && kv1 in vs && r1 in rs && Matches(k1, kv1, r1, now, week) && x == Record(k1, kv1, r1);
    var k2, kv2, r2 :| k2 in ks && kv2 in vs && r2 in rs && Matches(k2, kv2, r2, now, week) && y == Record(k2, kv2, r2);
    var a :| 0 <= a < |ks| && ks[a] == k1;
    var b :| 0 <= b < |ks| && ks[b] == k2;
    var c :| 0 <= c < |rs| && rs[c] == r1;
    var d :| 0 <= d < |rs| && rs[d] == r2;
    assert a == b && c == d;
  }

  /**
   * With primary keys on `Kpi` and `Responsible`, the result is strictly
   * ordered by `(kpi_id, responsible_id)`: no two rows share a key.
   */
  lemma DueStrictlySorted(ks: seq<Kpi>, vs: seq<KpiValue>, rs: seq<Responsible>,
                          now: int, year: nat, week: nat, fetchFails: bool)
    requires UniqueKpiIds(ks) && UniqueResponsibleIds(rs)
    ensures StrictlySortedByKey(GetDueKpis(ks, vs, rs, now, year, week, fetchFails))
  {
    var r := GetDueKpis(ks, vs, rs, now, year, week, fetchFails);
    var key := WeekKey.WeekKey(year, week);
    forall i, j | 0 <= i < j < |r| ensures KeyLess(r[i], r[j]) {
      if !KeyLess(r[i], r[j]) {
        assert r[i] in r && r[j] in r;
        SameKeySameRow(r[i], r[j], ks, vs, rs, now, key);
      }
    }
  }

  lemma HeadIsMember(s: seq<DueRecord>)
    ensures s != [] ==> s[0] in s
  {
  }

  /** A strictly key-ordered sequence is determined by its members. */
  lemma {:induction false} StrictlySortedUnique(a: seq<DueRecord>, b: seq<DueRecord>)
    requires StrictlySortedByKey(a) && StrictlySortedByKey(b)
    requires forall x :: x in a <==> x in b
    ensures a == b
  {
    if a != [] && b != [] {
      assert a[0] == b[0] by {
        assert a[0] in b && b[0] in a;
        var i :| 0 <= i < |b| && b[i] == a[0];
        var j :| 0 <= j < |a| && a[j] == b[0];
        assert i == 0 || KeyLess(b[0], a[0]);
        assert j == 0 || KeyLess(a[0], b[0]);
      }
      assert forall x :: x in a <==> x == a[0] || x in a[1..];
      assert forall x :: x in b <==> x == b[0] || x in b[1..];
      forall x ensures x in a[1..] <==> x in b[1..] {
        if x in a[1..] {
          var i :| 1 <= i < |a| && a[i] == x;
          assert KeyLess(a[0], x);
        }
        if x in b[1..] {
          var i :| 1 <= i < |b| && b[i] == x;
          assert KeyLess(b[0], x);
        }
      }
      StrictlySortedUnique(a[1..], b[1..]);
      assert a == [a[0]] + a[1..] && b == [b[0]] + b[1..];
    } else if a != [] || b != [] {
      HeadIsMember(a);
      HeadIsMember(b);
      assert false;
    }
  }

  /**
   * With primary keys, any sequence that holds exactly the due rows in
   * strict key order is the query's answer: the ORDER BY leaves no choice.
   */
  lemma DueAnswerDetermined(ks: seq<Kpi>, vs: seq<KpiValue>, rs: seq<Responsible>,
                            now: int, year: nat, week: nat, other: seq<DueRecord>)
    requires UniqueKpiIds(ks) && UniqueResponsibleIds(rs)
    requires StrictlySortedByKey(other)
    requires forall x :: x in other <==> IsDueRow(x, ks, vs, rs, now, WeekKey.WeekKey(year, week))
    ensures other == GetDueKpis(ks, vs, rs, now, year, week, false)
  {
    DueStrictlySorted(ks, vs, rs, now, year, week, false);
    StrictlySortedUnique(other, GetDueKpis(ks, vs, rs, now, year, week, false));
  }
}
