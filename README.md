# KPI reminder cycle — a Dafny model

This project models the core of a small KPI-reporting service (`app.py`).
A job runs periodically and finds the KPIs whose next send instant has passed
and which have a value row for the current ISO week. It emails each
responsible person of such a row a link to a form, then reschedules every KPI
for which at least one email went out. It does this by touching the KPI's
`created_at`, from which the database recomputes `frequence_de_envoi`. The
form reads the responsible's value rows for the week. A submission of the
form merges the free-text fields `analyse` and `actions_correctives` back into
those rows.

The model consists of:

- `WeekKey` (`week_key.dfy`): the week key `f"{year}-W{week:02d}"` built
  from an ISO year and week (`YYYY-Www` for four-digit years), plus a parser that reads it back.
- `Tables` (`tables.dfy`): the rows of `Kpi`, `kpi_values` and
  `Responsible`, and their primary keys.
- `DueQuery` (`due_query.dfy`): the due-reminder query. It is the three-way
  join with a WHERE clause, `DISTINCT` and `ORDER BY kpi_id, responsible_id`.
  A relational definition of the rows it must return sits beside it.
- `ResponsibleQuery` (`responsible_query.dfy`): the form's read query. The
  responsible is looked up by id and the value rows are joined with their KPI,
  ordered by `kpi_id`. An unknown id is an error.
- `FormFields` (`form_fields.dfy`): the loop that collects the
  `analyse_<id>` / `actions_<id>` fields into the insertion-ordered
  dictionary `kpi_data`. A reference reading of that dictionary ("last value
  per key") sits beside it.
- `KpiStore` (`kpi_store.dfy`): the database as a `Store` object with the
  three tables as fields.
  - `UpdateKpiCreatedAt` is `update_kpi_created_at`.
  - `SubmitForm` is the write part of `submit_form`. It is proved against
    the merge function `Merged`, and `Merged` is related to a per-row
    reference definition `MergedRow`.
- `Scheduler` (`scheduler.dfy`): `scheduled_email_task`.
  - The dispatch loop (`SendAll`) is proved against the fold `Dispatch`.
  - The reschedule loop over `kpis_processed` (`AdvanceProcessed`) is proved
    against `AdvanceEach`, which touches each KPI with the clock reading of
    its own update call.
  - The two are combined in `ScheduledEmailTask`.

These parts of the environment are parameters of the model:

- the due query's clock reading `now` (an integer instant), and the clock
  reading `at(id)` of the update of KPI `id`, each in its own transaction
  after the sends;
- the ISO year and week;
- the outcome of each send attempt, `send(i)`;
- whether a database call raises (`fetchFails`, `fails`, `updateFails(id)`);
- the database's recurrence rule, `nextSend(kpiId, createdAt)`.

This version of the code has no plant table:

- `scheduled_email_task` sends one email per due `(kpi, responsible)`
  record, without grouping records by responsible or by plant.
- The "KPIs updated" figure it reports is `len(kpis_processed)`: every KPI
  with at least one successful send. It is not the number of update calls
  that succeeded.

## Model

| member | source | states |
|---|---|---|
| WeekKey.WeekKey | app.py:57 | definition: the year's decimal digits, `-W`, and the week as `:02d` renders it |
| WeekKey.PadTwoDenotes | app.py:57 | `:02d` gives at least two digits, all decimal, that denote the week; a week below ten gets a leading `0` |
| WeekKey.DecimalRoundTrip | app.py:57 | the decimal rendering of the ISO year denotes the year |
| WeekKey.WeekKeyShape | app.py:53-57 | the key is the year's digits, `-W`, then exactly two digits (tens and units of the week) for every week below 100 |
| WeekKey.ParseWeekKeyRoundTrip | app.py:53-57 | reading a key back yields the ISO year and week it was built from |
| WeekKey.WeekKeyInjective | app.py:53-57 | distinct (year, week) periods have distinct keys, so the `kv.week = %s` filter selects exactly one period |
| WeekKey.ParseWeekKeyCanonical | app.py:53-57 | conversely, every canonical string that parses is the key of the period it parses to |
| WeekKey.WeekKeyExamples | app.py:54 | (2025, 43) gives `2025-W43` as the docstring says; (2025, 5) gives `2025-W05` |
| DueQuery.Joined | app.py:189-202 | definition: the records of every (KPI, value row, responsible) combination that satisfies the JOIN and WHERE conditions |
| DueQuery.SortDistinct | app.py:189-203 | the result has the same members as its input, without repetition, ordered by (kpi_id, responsible_id) |
| DueQuery.GetDueKpis | app.py:178-216 | on a database error the result is empty; otherwise a record is returned iff some KPI, value row and responsible join on the keys, the KPI's `frequence_de_envoi` is set and not after now, and the value is for the current week key; every record carries that week; records are ordered by (kpi_id, responsible_id) and have no duplicates |
| DueQuery.DueStrictlySorted | app.py:188-204 | with primary keys on `Kpi` and `Responsible`, no two due records share a (kpi_id, responsible_id) key |
| DueQuery.SameKeySameRow | app.py:188-204 | with those primary keys, two due records with the same key are equal, so DISTINCT leaves one record per (KPI, responsible) |
| DueQuery.DueAnswerDetermined | app.py:188-204 | with those primary keys, any sequence holding exactly the due records in strict key order is the query's answer |
| DueQuery.StrictlySortedUnique | app.py:203 | a sequence strictly ordered by the ORDER BY key is determined by its set of members |
| ResponsibleQuery.FindResponsible | app.py:65-75 | none iff no responsible has the id; otherwise a row of the table with that id |
| ResponsibleQuery.GetResponsibleWithKpis | app.py:59-115 | fails with "Responsible not found" iff no responsible has the id; otherwise the responsible is a row with that id, and the KPI rows are ordered by kpi_id and are a permutation of the join; a row is listed iff a value row of that responsible and week joins a KPI with that id |
| ResponsibleQuery.ValueRows | app.py:78-89 | definition: the joined rows of `kpi_values` and `Kpi` for the responsible and week, before ordering |
| ResponsibleQuery.ValuesOf | app.py:84 | holds exactly the value rows of the responsible and week |
| ResponsibleQuery.ValueRowsCount | app.py:78-89 | with a primary key on `Kpi` and the foreign key from `kpi_values`, the join yields as many rows as the responsible has value rows for the week |
| ResponsibleQuery.SortByKpi | app.py:85 | the result is a permutation of its input and is ordered by kpi_id |
| FormFields.SplitAfterPrefix | app.py:495-500 | for a key starting with `analyse_` or `actions_`, `key.split('_', 1)[1]` is exactly the text after the prefix |
| FormFields.KeyNamesId | app.py:495-500 | a key carries a field for id `i` iff it is the prefix followed by `i` |
| FormFields.StepNamed | app.py:495-500 | an item `analyse_<id>` (or `actions_<id>`) sets that field of the entry for `id` |
| FormFields.Upsert | app.py:497-500 | definition: `kpi_data.setdefault(id, {})[f] = v` on an insertion-ordered dictionary |
| FormFields.Collected | app.py:493-500 | definition: `kpi_data` after the loop over the form items in their order |
| FormFields.CollectFields | app.py:492-500 | the collecting loop computes `kpi_data` as the fold `Collected` over the form items in order |
| FormFields.CollectedLookup | app.py:492-500 | the entry for an id holds the value of the `analyse_<id>` item and of the `actions_<id>` item (the last of each, for a sequence of items that repeats a key); there is an entry iff the form has at least one of them |
| FormFields.LastValueOfItem | app.py:494 | `request.form.items()` yields each key once, so the value looked up for an item's key is that item's value |
| FormFields.CollectedDistinct | app.py:497 | `kpi_data` never holds two entries for the same id |
| FormFields.OtherKeysIgnored | app.py:494-500 | a key with neither prefix (such as `responsible_id` or `week`) leaves `kpi_data` as it was |
| FormFields.CollectedEmpty | app.py:502-508 | `kpi_data` is empty, and nothing is updated, iff no key has either prefix |
| FormFields.LookupUpsert | app.py:497 | `setdefault(id, {})[f] = v` sets field f of the entry for id and leaves every other entry as it was |
| KpiStore.IntegerInput | app.py:514-516 | definition: how PostgreSQL reads the id text bound to `%s` for the integer column `kpi_values_id`, as the model takes it: an optional sign and decimal digits, anything else raising; app.py does not state this rule, it is an assumption about the database (see "## Left out") |
| KpiStore.ApplyEdit | app.py:514-533 | definition: one entry of `kpi_data` applied to the table; the SELECT's first row supplies the old values, and the UPDATE sets both columns on every row with the id |
| KpiStore.Merged | app.py:510-535 | definition: the entries of `kpi_data` applied in order, with none when an id raises, so nothing is committed |
| KpiStore.FirstWithId | app.py:514-519 | none iff no row has the id; otherwise a row of the table with that id |
| KpiStore.MergedFailsIff | app.py:510-535 | the merge fails, and nothing is committed, iff some collected id cannot be read as an integer |
| KpiStore.MergedRows | app.py:512-535 | with a primary key on `kpi_values`, every row ends with `analyse` and `actions_correctives` set to the last value submitted for it; a column nobody submitted keeps its value, and the length and all other columns are unchanged |
| KpiStore.ApplyEditRows | app.py:514-533 | one entry rewrites exactly the row with its id, each column taking the submitted value or else the old one, and keeps the primary key |
| KpiStore.UnnamedRowUnchanged | app.py:512-520 | a row that no collected id names is left untouched |
| KpiStore.Touch | app.py:228-233 | definition: `SET created_at = NOW()` with the call's instant, and the database's next send instant recomputed from it |
| KpiStore.Advance | app.py:228-233 | definition: the `Kpi` table after one update call at one instant, which touches every row with the id |
| KpiStore.AdvanceEach | app.py:311-315 | definition: the `Kpi` table after one update call per id, each row of KPI `id` touched with that call's own instant `at(id)` |
| KpiStore.AdvanceEachInsert | app.py:311-315 | one more update call, for KPI `id` at `at(id)`, after the calls for a set of KPIs gives the table of the enlarged set, whatever was done before |
| KpiStore.AdvanceKeepsIds | app.py:228-233 | touching keeps every kpi_id, so the table's primary key is kept |
| KpiStore.AdvanceEachKeepsIds | app.py:311-315 | the run's update calls keep the table's length, every kpi_id, and so the primary key of `Kpi` |
| KpiStore.Store.UpdateKpiCreatedAt | app.py:219-256 | returns true iff no error occurs and a KPI has the id; on an error the table is rolled back and unchanged; otherwise every row with the id gets `created_at = now` and its recomputed next send instant; the other tables are unchanged |
| KpiStore.Store.SubmitForm | app.py:484-578 | with no collected field the answer is "Nothing to Update" and nothing changes; an id that cannot be read as an integer gives a failure and leaves the table as it was; otherwise the table becomes the merge of the collected fields; `Kpi` and `Responsible` are unchanged |
| Scheduler.Dispatch | app.py:288-306 | definition: the counters and `kpis_processed` after the first n send attempts |
| Scheduler.SendAll | app.py:281-306 | the dispatch loop computes the tally `Dispatch`: sent and failed counts, and the set of KPIs with a delivered email |
| Scheduler.DispatchCounts | app.py:293-306 | every attempt is counted once: sent plus failed is the number of records, and sent is the number of delivered attempts |
| Scheduler.DispatchProcessed | app.py:297-299 | a KPI is in `kpis_processed` iff at least one of its records had its email delivered |
| Scheduler.DispatchProcessedBound | app.py:297-321 | the reported "KPIs updated" figure never exceeds the number of emails sent |
| Scheduler.AdvanceProcessed | app.py:311-315 | the update is called once for each processed KPI, in some order, and the `Kpi` table ends with exactly the processed KPIs whose update did not raise touched, each with its own update's instant |
| Scheduler.ScheduledEmailTask | app.py:258-322 | the records attempted are the due-query result; if none is due the run stops with nothing changed; otherwise the tally is `Dispatch` of the due records, each processed KPI is updated once, and only the `Kpi` table changes, by advancing those KPIs, each to its own update's instant |
| Scheduler.SingleDueKpiScenario | app.py:258-322 | one due KPI "Scrap Rate" with one value row for its responsible in 2025-W43 gives one due record, one email sent, none failed, and KPI 1 advanced to the instant of its update |

## Left out

- The Flask routes, the HTML pages, the dashboard and the status page are not modelled. `submit_form` is modelled from the point where the form items are read; its response texts become the three outcomes `NothingToUpdate`, `Saved` and `Failed`.
- `send_kpi_email` is not modelled. SMTP is I/O, so the outcome of each attempt (true, false, raised) is the parameter `send`. `_base_url` and the link it builds are left out with it.
- `get_current_iso_week` takes the ISO year and week as inputs. Reading the clock and `isocalendar()` are a library computation on local time, and they are not modelled.
- The recurrence rule that derives `frequence_de_envoi` from `created_at` lives in the database. It is not visible in the source, so it is the parameter `nextSend`.
- The connection pool, commits and rollbacks are modelled only by their effect on the tables. The errors are those named by the Boolean parameters plus an id the database cannot read as an integer; no other database error is modelled.
- KpiStore.IntegerInput: accepts an optional sign and decimal digits, which is PostgreSQL's integer input up to version 15. It does not model the acceptance of surrounding whitespace (all versions) or the rejection of values outside the 32-bit range. It does not model what PostgreSQL 16 and later also accept: `_` between digits and the non-decimal prefixes `0x`, `0o` and `0b` (so `analyse_0x5` updates row 5 there, while the model treats the submission as failed).
- Scheduler.AdvanceProcessed: Python iterates over the set in an order fixed by hashing, and each update reads the clock when it runs. The model picks the elements in an unspecified order and takes each update's instant as the input `at(id)`. It does not relate these instants to the iteration order, to each other, or to the due query's `now` (in app.py each is later than `now`, and they increase in loop order). Given the instants, the final table does not depend on the order.
- Scheduler.ScheduledEmailTask: the same holds for the whole run. The instants `at(id)` are unconstrained inputs, so the model does not capture that a KPI's new `created_at`, and so its next due instant, depends on when its update ran.
- The background scheduler's start-up, its cron trigger (daily at 23:35, Africa/Tunis time) and its shutdown are not modelled; neither are the log lines (`print`).
- Grouping of due records by responsible or plant, and the plant table, do not exist in this version of the code and are not modelled.
- `get_responsible_with_kpis` re-raises database errors. Only the "Responsible not found" error is modelled.
