/**
 * Rows of the three tables the reminder cycle reads and writes: `Kpi`,
 * `kpi_values` and `Responsible`. A nullable column is an `Option`; a
 * timestamp is an integer instant.
 */
module Tables {
  import opened Wrappers

  /**
   * A KPI definition. `frequenceDeEnvoi` is the next send instant, which the
   * database derives from `createdAt` by a recurrence rule of its own.
   */
  datatype Kpi = Kpi(
    kpiId: int,
    name: string,
    objective: Option<string>,
    createdAt: int,
    frequenceDeEnvoi: Option<int>)

  datatype Responsible = Responsible(responsibleId: int, name: string, email: string)

  /** One reported value of a KPI, for a responsible and a week key. */
  datatype KpiValue = KpiValue(
    kpiValuesId: int,
    kpiId: int,
    responsibleId: int,
    week: string,
    value: Option<string>,
    analyse: Option<string>,
    actionsCorrectives: Option<string>)

  /** `frequence_de_envoi <= NOW()`; a NULL next-send instant is never due. */
  predicate IsDue(k: Kpi, now: int) {
    k.frequenceDeEnvoi.Some? && k.frequenceDeEnvoi.value <= now
  }

  /** The primary keys of the three tables. */
  ghost predicate UniqueKpiIds(ks: seq<Kpi>) {
    forall i, j :: 0 <= i < j < |ks| ==> ks[i].kpiId != ks[j].kpiId
  }

  ghost predicate UniqueResponsibleIds(rs: seq<Responsible>) {
    forall i, j :: 0 <= i < j < |rs| ==> rs[i].responsibleId != rs[j].responsibleId
  }

  ghost predicate UniqueValueIds(vs: seq<KpiValue>) {
    forall i, j :: 0 <= i < j < |vs| ==> vs[i].kpiValuesId != vs[j].kpiValuesId
  }
}
