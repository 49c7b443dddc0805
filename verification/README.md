# Verification model of the rental platform's stateful cores

This project models, in Dafny, the parts of the rental platform that keep state over time, and proves
what they keep. `dafny verify dfyconfig.toml` checks everything.

| file | what it models |
|---|---|
| `CircuitBreaker.dfy`, `BreakerRuns.dfy` | the breaker object, one atomic step per locked call, and every run of it under every interleaving |
| `IntegrationClient.dfy`, `ConcurrentRequests.dfy` | the retry loop of one request, and any number of requests interleaved over one breaker |
| `AuditTrigger.dfy` | the row trigger and the append-only log it writes, replayed in four ways |
| `ArchiveJob.dfy` | the nightly five-step archive procedure and any sequence of nights with other writes in between |
| `Repository.dfy` | the tenant-scoped repository over vehicle blocks, the table's constraints, the commit-or-rollback session |
| `IntervalMeasure.dfy`, `FleetCalendar.dfy` | lengths of disjoint intervals, and the calendar's utilisation bar and grouping |
| `Paging.dfy` | the dashboard's paging loop over the repository's list |
| `Utilization.dfy` | average daily fleet utilisation |
| `SeedAllocator.dfy`, `SeedTimeline.dfy` | the seed script's vehicle allocator and reservation dates |
| `AvalaraCache.dfy` | the tax-quote cache under any interleaving and any Redis failure |
| `ClaimLifecycle.dfy` | the damage-claim transition table |
| `Arithmetic.dfy`, `Wrappers.dfy` | division bounds, rounding, set sizes, the length of a day, and the option type |

Conventions. A clock is an integer whose readings are inputs of the steps that read it; random draws,
network replies and Redis failures are inputs too. Runs are finite sequences of steps with no bound on
their length. Objects whose methods update fields are classes; each method is tied to a step function,
and the theorems are about runs of that function.

Where the code and its own words disagree, the model follows the code and states what is true instead:

- an open circuit does not block calls already in their retry loop: a request asleep in its backoff still sends when
  it wakes; and half-open admits every caller, not one;
- a committed tax call can be refused by the breaker without reaching the remote, and a retried one reaches it more than once;
- step 2 of the archive job soft-deletes agreements that were never archived (those on hold), and step 3 does the
  same to reservations with an open agreement;
- a purged archive copy is made again the next night while its live row is still closed;
- the archive tables copy the live tables' UNIQUE constraints, so reusing an archived agreement's number stops the job,
  and a stopped night archives nothing;
- `list` orders by creation time alone, so a tie across a page boundary can bring a row twice and lose another;
- an update that changes a primary key is logged under the new id only;
- the calendar bar counts whole durations and can show up to 300 percent, and dashboard utilisation can pass 100.

Assumptions. `rental_agreements.deleted_at` exists, as the archive job needs it although migration 019 does not
declare it. Calendar subtraction of one and of seven years is a parameter of the archive model, required only not to
go forward. Only the job writes the archive tables. The dashboard's pages come from the
repository's list. Local days have a fixed length. The digest in the quote cache's key is injective.

## Model

| member | source | states |
|---|---|---|
| CircuitBreakers.CircuitBreaker.AllowRequest | apps/api/app/integrations/base.py:56-69 | admission and the OPEN to HALF_OPEN move happen exactly as the step the run theorems are about |
| CircuitBreakers.CircuitBreaker.RecordSuccess | apps/api/app/integrations/base.py:71-78 | the state after a success, field by field |
| CircuitBreakers.CircuitBreaker.RecordFailure | apps/api/app/integrations/base.py:80-94 | the state after a failure, field by field, with the opening time |
| BreakerRuns.HistoryExplains | apps/api/app/integrations/base.py:50-94 | in every reachable state the failure count is the trailing run of failures, CLOSED is below the threshold, OPEN was opened by a failure that completed a streak or hit a probe and every later check was refused, HALF_OPEN counts the successes since its entry |
| BreakerRuns.ProbeFailureReopens | apps/api/app/integrations/base.py:80-94 | after every history, a failure met half-open opens the circuit again at its own time |
| BreakerRuns.StreakOpensExactly | apps/api/app/integrations/base.py:80-94 | after every history, a failure opens a closed circuit if and only if it makes the trailing run of failures as long as the threshold |
| BreakerRuns.SuccessEffect | apps/api/app/integrations/base.py:71-78 | a success never opens the circuit and closes it only from half-open, at the threshold |
| BreakerRuns.RefusedExactlyInWindow | apps/api/app/integrations/base.py:56-69 | a check is refused if and only if the circuit is open and fewer than recovery_timeout seconds have passed |
| BreakerRuns.OpenWindowHolds | apps/api/app/integrations/base.py:60-67 | until the recovery timeout has elapsed the circuit stays open with the same opening time whatever arrives late, and every check is refused |
| BreakerRuns.RecoveryNeedsThresholdSuccesses | apps/api/app/integrations/base.py:71-78 | failure-free traffic closes a half-open circuit at the threshold-th success and not before |
| BreakerRuns.HalfOpenAdmitsEveryCaller | apps/api/app/integrations/base.py:62-69 | after the window any number of checks in a row is admitted, despite the one-probe comment |
| BreakerRuns.OpeningsBounded | apps/api/app/integrations/base.py:60-70 | under a monotone clock successive openings are a recovery timeout apart, so a run of length T opens at most T/timeout + 1 times |
| IntegrationClients.IntegrationClient.Request | apps/api/app/integrations/base.py:158-244 | a refused request sends nothing and changes nothing; an admitted one makes at most max_attempts, stops at its first reply that is not retried, makes exactly max_attempts if all are, and leaves the breaker as its own reports say |
| IntegrationClients.RetryAccounting | apps/api/app/integrations/base.py:181-244 | one failure per 5xx, one more for a final transport error, one success for a return, attempts within the limit, and which reply ends the request with which result |
| IntegrationClients.FailingCallsOpenCircuit | apps/api/app/integrations/base.py:80-94 | from a fresh circuit, failing requests open it no later than the threshold-th and no sooner than the ceil(threshold/limit)-th |
| IntegrationClients.ServerErrorsOpenSoonest | apps/api/app/integrations/base.py:191-216 | requests that meet only 5xx replies attain the early bound: they open it at exactly the ceil(threshold/limit)-th |
| IntegrationClients.TransportErrorsOpenLatest | apps/api/app/integrations/base.py:222-236 | requests that meet only transport errors attain the late bound: they open it at exactly the threshold-th |
| ConcurrentRequests.InterleavingProjects | apps/api/app/integrations/base.py:172-244 | in every interleaving each request reports exactly what it would have reported alone on the same replies, and the breaker is the run of the merged history |
| ConcurrentRequests.InterleavedAccounting | apps/api/app/integrations/base.py:172-244 | retry accounting holds for each request's share of the shared history: one admission check, its failures, its success, its result from its last reply, sends within the limit |
| ConcurrentRequests.ResumesExactlyWhenDue | apps/api/app/integrations/base.py:214-223 | a retried reply puts the request to sleep for backoff and jitter, and it sends again if and only if it is resumed then or later |
| ConcurrentRequests.OpenCircuitBlocksNewRequests | apps/api/app/integrations/base.py:172-179 | inside the window new requests are refused without sending and old ones send at most the attempts they had left |
| ConcurrentRequests.OpenBlocksEverySendExactlyWithoutRetries | apps/api/app/integrations/base.py:28-31 | "calls blocked" is true of every continuation inside the refusal window if and only if no request wakes from a backoff in it and none on the wire has a further attempt whose backoff ends in it |
| ConcurrentRequests.OpenCircuitStillSends | apps/api/app/integrations/base.py:190-201 | the concrete run, with the clients' own thresholds, attempts and backoff, in which a third attempt is sent and answered while the circuit is open |
| AuditTrigger.AuditedTable.LogChanges | apps/api/alembic/versions/20240101_027_create_audit_trigger.py:35-89 | the branches by operation append exactly the trigger's event, NULL and not an empty list when no field changed |
| AuditTrigger.AuditedTable.Insert | apps/api/alembic/versions/20240101_027_create_audit_trigger.py:36-39 | an accepted insertion changes one row and logs it; a refused one changes nothing |
| AuditTrigger.AuditedTable.Update | apps/api/alembic/versions/20240101_027_create_audit_trigger.py:41-47 | an update moves or replaces one row and logs old and new; it fails whole on a taken key |
| AuditTrigger.AuditedTable.Delete | apps/api/alembic/versions/20240101_027_create_audit_trigger.py:49-53 | a deletion removes one row and logs the old one |
| AuditTrigger.InsertionLogged | apps/api/alembic/versions/20240101_027_create_audit_trigger.py:36-39 | in every reachable table, a row with the table's columns and a free key is stored under that key and logged whole with all its columns |
| AuditTrigger.InsertionRefused | apps/api/alembic/versions/20240101_027_create_audit_trigger.py:36-39 | a row without exactly the columns or without a key changes and logs nothing |
| AuditTrigger.UpdateLogged | apps/api/alembic/versions/20240101_027_create_audit_trigger.py:41-47 | an update stores the new row under its key and logs both rows and the differing columns, NULL when none differs |
| AuditTrigger.DeletionLogged | apps/api/alembic/versions/20240101_027_create_audit_trigger.py:49-53 | a deletion logs the old row, no new row and NULL changed fields; deleting nothing logs nothing |
| AuditTrigger.OtherEventLogged | apps/api/alembic/versions/20240101_027_create_audit_trigger.py:55-86 | other tables' events share the log and leave the table alone |
| AuditTrigger.ReplayRebuildsTable | apps/api/alembic/versions/20240101_027_create_audit_trigger.py:35-90 | for every sequence of statements the log rebuilds the table and every event fits the table it met |
| AuditTrigger.ReplayRebuildsThePast | apps/api/alembic/versions/20240101_027_create_audit_trigger.py:55-86 | the log only grows and its prefixes rebuild every earlier table |
| AuditTrigger.OldDataIsPreviousNewData | apps/api/alembic/versions/20240101_027_create_audit_trigger.py:36-53 | each event's old row is what the last event on that key wrote; an insertion follows no live row |
| AuditTrigger.ChangedFieldsPatch | apps/api/alembic/versions/20240101_027_create_audit_trigger.py:41-47 | the changed fields are exactly the differing ones and patching the old row with them gives the new row |
| AuditTrigger.DeltasRebuildTable | apps/api/alembic/versions/20240101_027_create_audit_trigger.py:36-53 | insertions plus the changed fields and the old key rebuild the same table |
| AuditTrigger.LatestByIdExactlyWithoutKeyChanges | apps/api/alembic/versions/20240101_027_create_audit_trigger.py:70-76 | grouping by resource id rebuilds every earlier table if and only if no logged update changed a key |
| AuditTrigger.KeyChangeLeavesGhostRow | apps/api/alembic/versions/20240101_027_create_audit_trigger.py:70-76 | the concrete key change after which grouping by id keeps a row that is gone |
| ArchiveJob.ArchiveDatabase.RunArchiveJob | apps/api/alembic/versions/20240101_029_create_archive_job.py:24-76 | the procedure performs one whole night or, on a unique violation, nothing; the count is the rows copied |
| ArchiveJob.ArchiveDatabase.ArchiveAgreements | apps/api/alembic/versions/20240101_029_create_archive_job.py:34-42 | step 1 adds true copies of exactly the selected agreements and changes no other copy |
| ArchiveJob.ArchiveDatabase.SoftDeleteAgreements | apps/api/alembic/versions/20240101_029_create_archive_job.py:44-47 | step 2 stamps exactly the stale unstamped agreements and logs one trigger event for each |
| ArchiveJob.ArchiveDatabase.ArchiveReservations | apps/api/alembic/versions/20240101_029_create_archive_job.py:49-62 | step 3 copies the selected reservations and stamps every terminal one |
| ArchiveJob.StampingKeepsSelection | apps/api/alembic/versions/20240101_029_create_archive_job.py:56-59 | step 3 selects the same reservations whether it runs before or after step 2 |
| ArchiveJob.ArchiveMembershipAfterNight | apps/api/alembic/versions/20240101_029_create_archive_job.py:34-67 | exactly which agreements have an archive copy after a night, and which copy |
| ArchiveJob.NightRowByRow | apps/api/alembic/versions/20240101_029_create_archive_job.py:27-67 | a completed night for any one agreement and reservation, with statuses, dates and hold flags written out: who is stamped, who is copied, and that an existing copy is gone if and only if it was unheld and older than seven years |
| ArchiveJob.NightLogsItself | apps/api/alembic/versions/20240101_029_create_archive_job.py:44-72 | the log gains one entry per changed row and the job's CONFIG_CHANGE entry at the end |
| ArchiveJob.RowsArchivedExactly | apps/api/alembic/versions/20240101_029_create_archive_job.py:34-42 | the count is the agreements newly in the archive |
| ArchiveJob.RolledBackExactly | apps/api/alembic/versions/20240101_028_create_archive_tables.py:23-34 | a night is rolled back if and only if its copies would leave an archive with a repeated number, so numbers stay unique |
| ArchiveJob.NightArchivesStaleRowsExactly | apps/api/alembic/versions/20240101_029_create_archive_job.py:34-67 | a night breaks its promise if and only if a unique constraint rolled it back; the promise: every stale closed agreement is archived, held or purged by this night; every stale terminal reservation is archived or has an open agreement; all are soft-deleted |
| ArchiveJob.NightLogsExactlyItsChanges | apps/api/alembic/versions/20240101_029_create_archive_job.py:44-72 | a night changes nothing of a live row but its first deletion stamp, and the log gains one event per changed row and the job's own |
| ArchiveJob.StampedWithoutCopyExactly | apps/api/alembic/versions/20240101_029_create_archive_job.py:44-47 | a soft-deleted row ends the night without a copy if and only if it was held and uncopied, or unheld with an expired copy |
| ArchiveJob.HeldAgreementSoftDeletedUncopied | apps/api/alembic/versions/20240101_029_create_archive_job.py:41-47 | the concrete held agreement that is soft-deleted with no copy |
| ArchiveJob.ReservationStampedWithoutCopyExactly | apps/api/alembic/versions/20240101_029_create_archive_job.py:49-62 | a reservation stamped by step 3 ends the night without a copy if and only if it had none and an agreement of it is open |
| ArchiveJob.DisputedReservationSoftDeletedUncopied | apps/api/alembic/versions/20240101_029_create_archive_job.py:56-62 | the concrete reservation with a disputed agreement that is soft-deleted with no copy |
| ArchiveJob.PurgedCopyReturnsExactly | apps/api/alembic/versions/20240101_029_create_archive_job.py:34-67 | a purged copy was unheld and expired, and is made again by the next completed night if and only if its live row is then stale and unheld, as it is when nobody changes or holds it |
| ArchiveJob.PurgeReached | apps/api/alembic/versions/20240101_029_create_archive_job.py:34-67 | the concrete history from an empty archive: one night copies, one purges, one copies again |
| ArchiveJob.NightKeepsHolds | apps/api/alembic/versions/20240101_029_create_archive_job.py:27-31 | neither the job's log row nor the trigger's rows place or lift a hold |
| ArchiveJob.HoldsOnlyGrow | apps/api/alembic/versions/20240101_023_create_audit_events.py:50-53 | over any sequence of nights and other writes the held set only grows |
| ArchiveJob.HeldCopyKeptForever | apps/api/alembic/versions/20240101_029_create_archive_job.py:64-67 | a held agreement's copy is never deleted and never changes |
| ArchiveJob.CopySurvivesSevenYears | apps/api/alembic/versions/20240101_029_create_archive_job.py:64-67 | a copy that is gone or replaced was purged, unheld, on a night more than seven years after it was made |
| ArchiveJob.ReservationCopyKeptForever | apps/api/alembic/versions/20240101_029_create_archive_job.py:49-67 | step 4 covers agreements only: a reservation's copy is never deleted and never changes |
| ArchiveJob.ArchiveRowsAreTrueCopies | apps/api/alembic/versions/20240101_029_create_archive_job.py:34-41 | from an empty archive, every copy is the live row as it stood, stale and unheld, on the night in its `archived_at` |
| ArchiveJob.ReservationRowsAreTrueCopies | apps/api/alembic/versions/20240101_029_create_archive_job.py:49-59 | from an empty archive, every reservation copy is the live row as it stood, terminal and with no open agreement, on the night in its `archived_at` |
| ArchiveJob.ReusedNumberStopsEveryNight | apps/api/alembic/versions/20240101_028_create_archive_tables.py:23-28 | while a stale uncopied agreement carries an archived number, every night rolls back and the archive is frozen |
| ArchiveJob.ReusedNumberReached | apps/api/alembic/versions/20240101_028_create_archive_tables.py:23-28 | the concrete history from an empty archive that gets there: archive an agreement, delete its live row, reuse its number |
| Repository.BlockRepository.Get | apps/api/app/core/repository.py:62-73 | a row is found exactly when it exists, is the tenant's and is live |
| Repository.BlockRepository.CreateBlock | apps/api/app/core/repository.py:124-137 | creation injects the tenant and fails on a taken key or a constraint |
| Repository.BlockRepository.UpdateBlock | apps/api/app/core/repository.py:139-150 | the update under the tenant filter followed by the closing read under it |
| Repository.BlockRepository.SoftDeleteBlock | apps/api/app/core/repository.py:152-163 | the stamp under the tenant filter, silent on a missing row |
| Repository.BlockRepository.HardDeleteBlock | apps/api/app/core/repository.py:165-172 | the row is removed or the call raises |
| Repository.BlockRepository.HandleRequest | apps/api/app/core/database.py:39-47 | the session commits all calls of a request or, at the first error, none |
| Repository.CommittedWhole | apps/api/app/core/database.py:39-47 | a request without an error takes effect whole, and one with an error not at all |
| Repository.CallsInOrder | apps/api/app/core/database.py:39-47 | the calls of a request act one after the other up to the first that raises |
| Repository.CreationCommitted | apps/api/app/core/repository.py:124-137 | a creation is stored with the caller's tenant and columns if and only if key and range are free and the range is not empty |
| Repository.UpdateCommitted | apps/api/app/core/repository.py:139-150 | an update changes the given columns and the update time and nothing else if and only if key, tenant and liveness stay and the range is free |
| Repository.DeletionCommitted | apps/api/app/core/repository.py:152-172 | a soft deletion stamps and a hard one removes the tenant's live row and no other |
| Repository.ErrorsRaised | apps/api/app/core/repository.py:124-172 | which call raises which error |
| Repository.LiveBlocksStayDisjoint | apps/api/alembic/versions/20240101_010_create_vehicle_blocks.py:40-45 | whatever requests any tenants make, live blocks of one vehicle never overlap and none is empty |
| Repository.SoftDeleteFreesSlot | apps/api/app/core/repository.py:152-157 | after a soft delete a new block fits if and only if it conflicts with nothing but the deleted one |
| Repository.HardDeleteUndoesCreate | apps/api/app/core/repository.py:165-172 | deleting a created row restores the table exactly when it was created live, and raises otherwise |
| Repository.UpdateSucceedsExactly | apps/api/app/core/repository.py:139-150 | an update succeeds if and only if the row is visible, keeps its key, tenant and liveness, and fits |
| Repository.RequestKeepsOtherTenants | apps/api/app/core/repository.py:46-54 | a committed request changes no other tenant's row and no soft-deleted row |
| Repository.ExecKeepsOthersExactly | apps/api/app/core/repository.py:124-172 | before any rollback, one call leaves other tenants' rows and soft-deleted rows alone if and only if it is not an update that gives a row away, and that one raises |
| Repository.FailedUpdateWritesBeforeRaising | apps/api/app/core/database.py:45-47 | giving a row to another tenant does write it inside the session; only the rollback undoes it |
| FleetCalendar.EventAddsToBar | apps/web-admin/src/pages/FleetCalendarPage.tsx:490-497 | an event adds its length up to the window's if it is a reservation and nothing otherwise |
| FleetCalendar.BarIsNearestPercent | apps/web-admin/src/pages/FleetCalendarPage.tsx:487-498 | the bar is the booked time over the fleet's time in percent, to the nearest integer |
| FleetCalendar.ClipIsIntersection | apps/web-admin/src/pages/FleetCalendarPage.tsx:490-497 | the time inside the window is what reservation and window share |
| FleetCalendar.BookedWindows | apps/web-admin/src/pages/FleetCalendarPage.tsx:490-497 | one vehicle's unclipped sum is at most three windows, and at most one if each of its reservations lies inside the window or covers it |
| FleetCalendar.BarPercentBounded | apps/web-admin/src/pages/FleetCalendarPage.tsx:487-498 | the bar shows at most 300 percent, and at most 100 when no reservation straddles an edge of the window |
| FleetCalendar.FleetBookedExact | apps/web-admin/src/pages/FleetCalendarPage.tsx:490-497 | the bar counts the time inside the window plus each reservation's overhang as far as it leaves the window free, and there is none if and only if every reservation lies within the window or covers it |
| FleetCalendar.BarWithinHundredExactly | apps/web-admin/src/pages/FleetCalendarPage.tsx:487-498 | the bar shows at most 100 if and only if time in the window and excess together are below 100.5 percent of the fleet's time |
| FleetCalendar.BarReachesThreeHundred | apps/web-admin/src/pages/FleetCalendarPage.tsx:490-498 | the three disjoint reservations, all served by the endpoint, for which the bar shows 300 percent, for a window of any length |
| FleetCalendar.ServedMeetsWindow | apps/api/app/domains/fleet/router.py:696-697 | what is served up to the last second of the window meets the window the bar divides by |
| FleetCalendar.ServedEventsAreDisjoint | apps/api/app/domains/fleet/router.py:741-773 | the blocks the calendar endpoint serves for a vehicle are disjoint and meet the window, whatever requests filled the table |
| FleetCalendar.LiveBlocksFitAnyWindow | apps/api/alembic/versions/20240101_010_create_vehicle_blocks.py:42-45 | clipped to any window, a vehicle's live blocks are together no longer than the window |
| FleetCalendar.GroupByHome | apps/web-admin/src/pages/FleetCalendarPage.tsx:338-348 | one group per home location in order of first appearance, each holding its vehicles in order; the sizes add up to the number of vehicles |
| FleetCalendar.AtHomeInOrder | apps/web-admin/src/pages/FleetCalendarPage.tsx:338-348 | a group is exactly the vehicles of its home in their original order |
| FleetCalendar.GroupsByFirstAppearance | apps/web-admin/src/pages/FleetCalendarPage.tsx:338-348 | an earlier group's home appears before any vehicle of a later group |
| FleetCalendar.GroupsConserveVehicles | apps/web-admin/src/pages/FleetCalendarPage.tsx:338-348 | grouping loses no vehicle and invents none |
| Paging.FetchAll | apps/web-admin/src/pages/ExecutiveDashboardPage.tsx:117-131 | the loop ends after floor(n/100) + 1 requests with their pages, whatever order each request is answered in |
| Paging.FetchedInOneOrder | apps/web-admin/src/pages/ExecutiveDashboardPage.tsx:117-131 | if every request is answered in one order, the pages are that order |
| Paging.FetchCompleteExactlyWithoutTiesAcrossPages | apps/api/app/core/repository.py:103-112 | every live row is fetched exactly once however each request orders ties, if and only if no tie lies across a page boundary |
| Paging.TieFetchedTwice | apps/api/app/core/repository.py:109 | with such a tie, two requests that order it differently fetch the row before the boundary twice and the row after it never |
| Paging.FetchedRowsExactly | apps/api/app/core/repository.py:86-112 | the listing holds each of the tenant's live rows once and nothing else |
| Paging.ListingExists | apps/api/app/core/repository.py:103-112 | every table has a newest-first listing of the tenant's live rows |
| Utilization.ComputeAvgDailyUtilization | apps/web-admin/src/pages/ExecutiveDashboardPage.tsx:149-196 | the loops compute the set specification: distinct vehicles per day over fleet-days, rounded once |
| Utilization.DaysOfPeriod | apps/web-admin/src/pages/ExecutiveDashboardPage.tsx:160-166 | one entry per calendar day starting before the period's end, at most 366 |
| Utilization.OnRentExactly | apps/web-admin/src/pages/ExecutiveDashboardPage.tsx:169-190 | a vehicle is on rent on a day if and only if one of its rentals has a dispatched status, starts before the day ends and ends after it starts |
| Utilization.CountsExactlyWhenShared | apps/web-admin/src/pages/ExecutiveDashboardPage.tsx:182-190 | for a rental that ends after its pickup that is sharing an instant with the day |
| Utilization.PercentIsNearest | apps/web-admin/src/pages/ExecutiveDashboardPage.tsx:193-196 | the percentage is vehicle-days over fleet-days, to the nearest integer |
| Utilization.StartOfDayMeaning | apps/web-admin/src/pages/ExecutiveDashboardPage.tsx:162 | the first day starts at the local midnight at or before the period |
| Utilization.DayCountMeaning | apps/web-admin/src/pages/ExecutiveDashboardPage.tsx:163-166 | the days are those that start before the period ends, up to 366 |
| Utilization.OrderAndDuplicatesIrrelevant | apps/web-admin/src/pages/ExecutiveDashboardPage.tsx:176-190 | the order of rentals and repeated rentals do not matter |
| Utilization.DaysEqualVehicles | apps/web-admin/src/pages/ExecutiveDashboardPage.tsx:176-190 | vehicles summed over days equal covered days summed over vehicles |
| Utilization.PercentNeverFalls | apps/web-admin/src/pages/ExecutiveDashboardPage.tsx:176-193 | adding rentals never lowers the percentage |
| Utilization.PercentWithinHundred | apps/web-admin/src/pages/ExecutiveDashboardPage.tsx:189-193 | the percentage is at most 100 when every dispatched vehicle is in the active fleet |
| Utilization.PercentWithinHundredExactly | apps/web-admin/src/pages/ExecutiveDashboardPage.tsx:176-193 | rentals of a given set of vehicles show at most 100, whatever the rentals, if and only if that set's share of the active fleet does not round above 100 percent |
| Utilization.DisposedVehiclesPassHundred | apps/web-admin/src/pages/ExecutiveDashboardPage.tsx:308-312 | the concrete disposed vehicle whose rental takes the percentage to 200 |
| SeedAllocator.GenerateAgreements | apps/api/seed_realistic.py:759-851 | the loops compute the first-fit allocation and the on-rent set |
| SeedAllocator.AllocationSound | apps/api/seed_realistic.py:769-851 | every agreement takes the first vehicle of its class not on rent, or the first anywhere when the class has none free; ON_RENT is exactly the vehicles of ACTIVE agreements, all distinct |
| SeedAllocator.ServedExactly | apps/api/seed_realistic.py:769-791 | a returned or checked-out reservation gets its one agreement if and only if some vehicle is not on rent when its turn comes |
| SeedAllocator.RentedVehicleNotReused | apps/api/seed_realistic.py:773-791 | a vehicle once on rent is never handed out again |
| SeedAllocator.ActiveAgreementsCount | apps/api/seed_realistic.py:781-851 | exactly min(checked-out reservations, vehicles) agreements are ACTIVE, and nobody goes without while a vehicle is free |
| SeedTimeline.PeriodDate | apps/api/seed_realistic.py:146-172 | a drawn date is the drawn number of days from today at the drawn time of day |
| SeedTimeline.PeriodSide | apps/api/seed_realistic.py:146-172 | a date drawn for a past or future period stays on its side of now whatever time of day replaces its own |
| SeedTimeline.GenerateDates | apps/api/seed_realistic.py:614-662 | for every draw the return follows the pickup, creation precedes both now and the pickup, each status lies where it should relative to now, and every date is the drawn one |
| SeedTimeline.CheckedOutDates | apps/api/seed_realistic.py:632-644 | an overdue return lies strictly between pickup and now, so its repair branch is unreachable |
| AvalaraCache.AvalaraClient.CreateTransaction | apps/api/app/integrations/avalara_client.py:230-287 | a hit or a refusal sends nothing; an admitted miss sends within the limit, returns the answer to its last attempt, and stores it when Redis is up |
| AvalaraCache.QuotesAreGenuine | apps/api/app/integrations/avalara_client.py:134-287 | under any interleaving and Redis failure a cached quote is a remote answer to the same keyed inputs stored less than 3600 s before, and any other result is the answer to the call's own last attempt |
| AvalaraCache.ServedForAnHourExactly | apps/api/app/integrations/avalara_client.py:142-158 | a stored answer is served to an uncommitted call on the same inputs exactly for 3600 s, when Redis is up and it is not empty |
| AvalaraCache.RemoteReachedExactlyIfAdmitted | apps/api/app/integrations/avalara_client.py:232-276 | a call reaches the remote if and only if it missed the cache and the breaker admitted it, and then at most as often as the attempt limit |
| AvalaraCache.CommittedCallsReachRemote | apps/api/app/integrations/avalara_client.py:232-285 | a committed call never uses the cache; it is refused by the breaker unsent, or its result is the answer to the last of its attempts |
| AvalaraCache.ReachedTwiceExactly | apps/api/app/integrations/avalara_client.py:276 | a call whose post is over and was not refused reached the remote more than once if and only if another attempt was allowed and its first reply was a 5xx or a transport error |
| AvalaraCache.NobodySendsTwiceExactly | apps/api/app/integrations/avalara_client.py:123 | every call of every run reaches the remote at most once if and only if the policy allows one attempt |
| AvalaraCache.OpenCircuitRefusesCommittedCall | apps/api/app/integrations/avalara_client.py:276 | the concrete committed call, with the client's own thresholds, that fails without reaching the remote |
| AvalaraCache.CommittedCallReachesRemoteTwice | apps/api/app/integrations/avalara_client.py:276 | the concrete committed call whose second attempt is the one answered |
| AvalaraCache.SecondCallGetsFirstAnswer | apps/api/app/integrations/avalara_client.py:200-237 | a second call with another transaction code gets the first one's answer exactly when Redis serves it in time and it is not empty |
| ClaimLifecycle.EnteredExactlyFrom | apps/web-admin/src/pages/DamagePage.tsx:108-119 | from which statuses each status is entered, over all runs |
| ClaimLifecycle.RunLengthBound | apps/web-admin/src/pages/DamagePage.tsx:108-119 | a claim that enters DISPUTED k times makes at most 6 + 4k transitions |
| ClaimLifecycle.RunLengthAttained | apps/web-admin/src/pages/DamagePage.tsx:108-119 | for every k some claim makes exactly 6 + 4k and ends paid |
| ClaimLifecycle.EveryClaimCanEnd | apps/web-admin/src/pages/DamagePage.tsx:108-119 | from every status some dispute-free run ends the claim |
| ClaimLifecycle.PaidWasInvoicedOrLitigated | apps/web-admin/src/pages/DamagePage.tsx:114-117 | PAID is entered only from INVOICED or IN_LITIGATION, and ends the run |
| ClaimLifecycle.RepairFollowsAgreementOrDispute | apps/web-admin/src/pages/DamagePage.tsx:110-116 | a claim in repair or invoiced was acknowledged or disputed before, and litigation follows a dispute directly |

## Left out

- RunArchiveJob: other transactions committing between the statements of one run; a run is one atomic step between them.
- HandleRequest: concurrent sessions and callers that catch an error inside the session; sessions run one after another and the first error ends the request.
- FetchAll: failed page requests, and rows inserted or deleted between pages; the rows are fixed for the loop, their order among ties is not.
- ComputeAvgDailyUtilization: unparsable dates, daylight saving and floating-point accumulation; days have a fixed length and the average is over reals.
- BarPercentBounded: floating-point division; durations are whole milliseconds with one final rounding.
- QuotesAreGenuine: the age is measured from the moment the answer was stored; a slow write adds its own delay to the age of the answer.
- Row-level security policies and grants: they can only refuse more than the modelled filters do.
- Backoff durations: the least wait after each attempt is a function parameter and jitter any amount on top of it.
- Parsing of the tax lines, error envelopes and numbers of the tax remote: field lookups.
- `getPeriodRange`: calendar case analysis that only adds easy members.
- Other columns of the modelled tables, beyond one that stands for them where a copy must be exact.
- The Stripe, SendGrid, Twilio, SMTP and NHTSA clients: they reuse the breaker and the retry loop.
- Reservation, pricing, checkout and payment services, user interface, authentication, messaging and seeding of the remaining tables.
