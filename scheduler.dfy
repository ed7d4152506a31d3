/**
 * One run of the reminder job (app.py, scheduled_email_task): fetch the due
 * (KPI, responsible) records, make one send attempt per record, count
 * successes and failures, collect the ids of the KPIs with a successful
 * send, and advance the schedule of each of them once.
 */
module Scheduler {
  import opened Wrappers
  import opened Tables
  import opened DueQuery
  import opened KpiStore

  /**
   * What one call of send_kpi_email comes to: it returns true, it returns
   * false (it catches its own errors), or it raises.
   */
  datatype SendOutcome = Delivered | Refused | Raised

  /** The counters and the set of the dispatch loop. */
  datatype Tally = Tally(emailsSent: nat, emailsFailed: nat, kpisProcessed: set<int>)

  /** The result of a run: it stops early when nothing is due. */
  datatype RunSummary = NothingDue | Completed(tally: Tally)

  /** The dispatch loop after its first `n` attempts; `send(i)` is the outcome of attempt `i`. */
  function Dispatch(due: seq<DueRecord>, send: nat -> SendOutcome, n: nat): Tally
    requires n <= |due|
  {
    if n == 0 then Tally(0, 0, {})
    else
      var t := Dispatch(due, send, n - 1);
      if send(n - 1) == Delivered then Tally(t.emailsSent + 1, t.emailsFailed, t.kpisProcessed + {due[n - 1].kpiId})
      else Tally(t.emailsSent, t.emailsFailed + 1, t.kpisProcessed)
  }

  /** The attempts among the first `n` that delivered. */
  function DeliveredAttempts(send: nat -> SendOutcome, n: nat): set<nat> {
    set i: nat | i < n && send(i) == Delivered
  }

  /**
   * Every attempt is counted once: as sent when it delivered, as failed
   * when it returned false or raised.
   */
  lemma {:induction false} DispatchCounts(due: seq<DueRecord>, send: nat -> SendOutcome, n: nat)
    requires n <= |due|
    ensures Dispatch(due, send, n).emailsSent + Dispatch(due, send, n).emailsFailed == n
    ensures Dispatch(due, send, n).emailsSent == |DeliveredAttempts(send, n)|
  {
    if n > 0 {
      DispatchCounts(due, send, n - 1);
      if send(n - 1) == Delivered {
        assert DeliveredAttempts(send, n) == DeliveredAttempts(send, n - 1) + {n - 1};
      } else {
        assert DeliveredAttempts(send, n) == DeliveredAttempts(send, n - 1);
      }
    }
  }

  /** A KPI is processed exactly when at least one of its sends delivered. */
  lemma {:induction false} DispatchProcessed(due: seq<DueRecord>, send: nat -> SendOutcome, n: nat, kpiId: int)
    requires n <= |due|
    ensures kpiId in Dispatch(due, send, n).kpisProcessed
        <==> exists i :: 0 <= i < n && send(i) == Delivered && due[i].kpiId == kpiId
  {
    if n > 0 {
      DispatchProcessed(due, send, n - 1, kpiId);
    }
  }

  /** No more KPIs are advanced than emails were sent. */
  lemma {:induction false} DispatchProcessedBound(due: seq<DueRecord>, send: nat -> SendOutcome, n: nat)
    requires n <= |due|
    ensures |Dispatch(due, send, n).kpisProcessed| <= Dispatch(due, send, n).emailsSent
  {
    if n > 0 {
      DispatchProcessedBound(due, send, n - 1);
      var t := Dispatch(due, send, n - 1);
      if send(n - 1) == Delivered {
        assert |t.kpisProcessed + {due[n - 1].kpiId}| <= |t.kpisProcessed| + |{due[n - 1].kpiId}|;
      }
    }
  }

  /** The KPIs whose update call goes through (it may still find no row). */
  function Touched(processed: set<int>, updateFails: int -> bool): set<int> {
    set id | id in processed && !updateFails(id)
  }

  /** The loop over the due records; each attempt is counted and delivered KPIs are collected. */
  method SendAll(due: seq<DueRecord>, send: nat -> SendOutcome) returns (tally: Tally)
    ensures tally == Dispatch(due, send, |due|)
  {
    var kpisProcessed: set<int> := {};
    var emailsSent, emailsFailed := 0, 0;
    for i := 0 to |due|
      invariant Tally(emailsSent, emailsFailed, kpisProcessed) == Dispatch(due, send, i)
    {
      if send(i) == Delivered {
        emailsSent := emailsSent + 1;
        kpisProcessed := kpisProcessed + {due[i].kpiId};
      } else {
        emailsFailed := emailsFailed + 1;
      }
    }
    tally := Tally(emailsSent, emailsFailed, kpisProcessed);
  }

  /** A set with no members is the empty set, so a non-empty one has a member to pick. */
  lemma NoMembersEmpty(s: set<int>)
    ensures (forall y :: y !in s) ==> s == {}
  {
    if forall y :: y !in s {
      assert forall y :: y in s <==> y in {};
    }
  }

  /**
   * The loop over `kpis_processed`: one update call per KPI, in any order;
   * the call for KPI `id` reads the clock as `at(id)`.
   */
  method AdvanceProcessed(store: Store, processed: set<int>, at: int -> int, updateFails: int -> bool,
                          nextSend: (int, int) -> Option<int>)
    returns (ghost updated: seq<int>)
    modifies store
    ensures multiset(updated) == multiset(processed)
    ensures store.kpis == AdvanceEach(old(store.kpis), Touched(processed, updateFails), at, nextSend)
    ensures store.values == old(store.values) && store.responsibles == old(store.responsibles)
  {
    updated := [];
    var remaining := processed;
    ghost var done: set<int> := {};
    assert old(store.kpis) == AdvanceEach(old(store.kpis), {}, at, nextSend);
    while remaining != {}
      invariant remaining + done == processed && remaining !! done
      invariant multiset(updated) == multiset(done)
      invariant store.kpis == AdvanceEach(old(store.kpis), Touched(done, updateFails), at, nextSend)
      invariant store.values == old(store.values) && store.responsibles == old(store.responsibles)
      decreases remaining
    {
      NoMembersEmpty(remaining);
      var kpiId: int :| kpiId in remaining;
      var _ := store.UpdateKpiCreatedAt(kpiId, at(kpiId), nextSend, updateFails(kpiId));
      if updateFails(kpiId) {
        assert Touched(done + {kpiId}, updateFails) == Touched(done, updateFails);
      } else {
        AdvanceEachInsert(old(store.kpis), Touched(done, updateFails), kpiId, at, nextSend);
        assert Touched(done + {kpiId}, updateFails) == Touched(done, updateFails) + {kpiId};
      }
      updated := updated + [kpiId];
      done := done + {kpiId};
      remaining := remaining - {kpiId};
    }
  }

  /**
   * scheduled_email_task. The due query's clock reading `now` and the ISO
   * `(year, week)` are inputs; `fetchFails` says whether the due query
   * raises, `send(i)` is the outcome of the i-th send attempt, `at(id)` is
   * the clock reading of the update of KPI `id` (a transaction of its own,
   * after the sends), `updateFails(id)` whether that update raises, and
   * `nextSend` is the database's recurrence rule. The ghost results record the records a send was attempted for
   * and the KPI ids the updater was called with, in order.
   */
  method ScheduledEmailTask(store: Store, now: int, year: nat, week: nat, fetchFails: bool,
                            send: nat -> SendOutcome, at: int -> int, updateFails: int -> bool,
                            nextSend: (int, int) -> Option<int>)
    returns (summary: RunSummary, ghost attempted: seq<DueRecord>, ghost updated: seq<int>)
    modifies store
    ensures var due := GetDueKpis(old(store.kpis), old(store.values), old(store.responsibles),
                                  now, year, week, fetchFails);
      && attempted == due
      && (due == [] ==> summary == NothingDue && updated == [] && store.kpis == old(store.kpis))
      && (due != [] ==> summary == Completed(Dispatch(due, send, |due|)))
    ensures summary.Completed? ==>
      && multiset(updated) == multiset(summary.tally.kpisProcessed)
      && store.kpis == AdvanceEach(old(store.kpis), Touched(summary.tally.kpisProcessed, updateFails), at, nextSend)
    ensures store.values == old(store.values) && store.responsibles == old(store.responsibles)
  {
    var due := GetDueKpis(store.kpis, store.values, store.responsibles, now, year, week, fetchFails);
    attempted := due;
    if due == [] {
      return NothingDue, attempted, [];
    }
    var tally := SendAll(due, send);
    updated := AdvanceProcessed(store, tally.kpisProcessed, at, updateFails, nextSend);
    summary := Completed(tally);
  }

  /**
   * One due KPI "Scrap Rate" with one value row for alice in week 43 of
   * 2025: one record is due, one email is sent, none fails, and KPI 1 is
   * the one KPI advanced, to the instant of its update.
   */
  lemma SingleDueKpiScenario(send: nat -> SendOutcome, at: int -> int, updateFails: int -> bool,
                              nextSend: (int, int) -> Option<int>)
    requires send(0) == Delivered && !updateFails(1)
    ensures var ks := [Kpi(1, "Scrap Rate", None, 0, Some(10))];
      var vs := [KpiValue(5, 1, 2, "2025-W43", None, None, None)];
      var rs := [Responsible(2, "Alice", "alice@example.com")];
      var due := GetDueKpis(ks, vs, rs, 20, 2025, 43, false);
      && due == [DueRecord(1, "Scrap Rate", 2, "Alice", "alice@example.com", "2025-W43")]
      && Dispatch(due, send, |due|) == Tally(1, 0, {1})
      && Touched(Dispatch(due, send, |due|).kpisProcessed, updateFails) == {1}
      && AdvanceEach(ks, {1}, at, nextSend) == [Kpi(1, "Scrap Rate", None, at(1), nextSend(1, at(1)))]
  {
    WeekKey.WeekKeyExamples();
    var ks := [Kpi(1, "Scrap Rate", None, 0, Some(10))];
    var vs := [KpiValue(5, 1, 2, "2025-W43", None, None, None)];
    var rs := [Responsible(2, "Alice", "alice@example.com")];
    var rec := DueRecord(1, "Scrap Rate", 2, "Alice", "alice@example.com", "2025-W43");
    assert Joined(ks, vs, rs, 20, "2025-W43") == [rec];
    assert Touched({1}, updateFails) == {1};
  }
}
