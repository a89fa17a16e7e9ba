# Verified model of the control server

The server administers employees, organizations, control policies, location logs, translations and
daily statistics. This project models the parts of it that search, merge, rename, queue and
aggregate, and proves what they keep. Tables are maps and sequences; each transaction is one atomic
step; the workers of the translation queue and the asynchronous log writer take smaller steps.

How the pieces fit:

- `Organizations` holds the organization rows and their classification. `UnitSearch`, `Closures`,
  `Subtrees`, `OwnerFallback` and `PolicyScope` are the tree walks over it: three searches for units,
  two closures, a memoised recursion and three walks towards the root. Loops with a visited set are
  proved to end on every table; loops without one take a ghost ranking, which exists exactly for tables
  without parent cycles (`Organizations.RankingExistsIff`).
- `LocationFallback` proves that merging windows and fetching in chunks finds the same points as a
  scan of the whole history.
- `EmployeeTables` states what archiving, reassigning, restoring and erasing an employee do,
  `EmployeeStore` runs the transactions statement by statement against it, `EmployeeLaws` says what they
  mean for each row, and `EmployeeLifecycle` proves what every run keeps. `PolicyTables`, `PolicyStore`,
  `PolicyLaws` and `PolicyMachine` do the same for control policies and their relations.
- `TranslationFields`, `TranslationBatch`, `TranslationTargets`, `TranslationStore` and
  `TranslationDelivery` follow a job from its fields to stored rows. `TranslationJobs` is one worker that
  drains the table, `TranslationQueue` any number of workers over it.
- `HttpLogLedger` and `HttpLogQueue` account for every accepted log line.
- `EcmaCalendar` and `DateKeys` are the calendar of section 21.4.1 of ECMA-262 and date keys as strings;
  `KstTime` is the Korean-time utility on top of them.
- `StatCounts`, `StatDay`, `StatTables`, `StatLogs`, `StatZones`, `StatStore`, `StatEmployees`, `StatLaws`,
  `StatTotals` and `HourlyView` are the daily statistics. `BulkDirectory`, `BulkUpload` and `BulkLaws` are the
  bulk registration of employees.
- `Wrappers` and `Strings` hold shared shapes: options, results, filtering, trimming.

## Where the code falls short

Each of these is stated as an exact condition, with a concrete run or input where one is short.

- An edit that completes the zones and times of a draft makes the draft active, and no other operation does
  (`PolicyMachine.DraftSwitchedOnIff`, `PolicyMachine.ActiveDraftIsReachable`).
- The two ancestor rules for policy resources agree exactly for a live owner whose groups and companies
  form an unbroken chain (`PolicyScope.RulesAgreeIff`).
- Reading up and collecting down are dual exactly when no row with a non-blank id names a blank parent
  (`Closures.ClosureDuality`).
- Starts of days and months are wrong exactly for the years 0 to 99, because Date.UTC maps them to the
  twentieth century (`KstTime.StartOfDayIff`, `KstTime.MonthStartIff`); date keys are read back exactly for
  years of four digits (`KstTime.KeyComesBackIff`).
- A log query accepts a start date whose month or day does not exist, such as 2024-13-01, and then has no
  valid lower bound (`KstTime.RangeStaysInWindowIff`, `KstTime.ImpossibleStartIsAccepted`).
- A re-aggregation deletes an organization's zone rows when it comes to that organization, also those that an
  organization before it in the run has just written. So the order of the run decides what is counted: a child's
  row of its parent's zone is gone when the parent follows (`StatZones.ParentDeletesRowOfChild`). The zone rows
  of a run count all blocked logs exactly if each zone belongs to an organization rewritten no later than the one
  whose logs were blocked there and not again afterwards (`StatZones.RunConservesZonesIff`).
- Rows of zones that no organization of the run owns are added but never deleted by it, so a second run changes
  nothing exactly if every zone of a blocked log belongs to an organization of the run
  (`StatZones.SecondDayChangesNothingIff`); for one organization that means its own zones
  (`StatZones.SecondRunIff`, `StatZones.ZoneTableConservesIff`).
- The hourly chart trusts stored rows whose totals match even if an hour is not one of the day
  (`HourlyView.GetHourlyData`).
- A translation store reads the version of a row before it writes. It replaces a newer row exactly if no newer one
  was there when it read, so that the newer text was stored in between (`TranslationStore.GapLosesUpdateIff`,
  `TranslationStore.InterleavedStoresLoseTheNewest`); a row of time zero reads as having none
  (`TranslationStore.VersionGoesBackIff`).
- A request to translate into the source or skipped languages only is stored with an empty list of targets, which
  a worker reads as all languages (`TranslationDelivery.RequestIsKeptIff`, `TranslationDelivery.SourceOnlyBecomesAll`).
- Queueing a held job again and recovering a held job as stale are exactly the steps after which two workers can
  come to hold one job (`TranslationQueue.ExclusionIsLostIff` and the runs beside it).
- Work queued for a key can be marked completed without anybody having read it exactly if a worker is at the key
  then: one that processes it, or one that has found its row and claims it with the fields it read before
  (`TranslationQueue.RequeuedWorkIsSwallowedIff`).
- A run over some organizations rebuilds the whole day of an employee from their logs alone: each counter covers
  the employee's day exactly if every log it counts is attributed to one of these organizations
  (`StatTotals.RebuiltRowIsWholeIff`, `StatTotals.LogElsewhereIsZeroed`).
- A move of a resource that is interrupted before the detachment leaves resources attached where they may not be,
  exactly if a policy with the resource may not take it from the new organization
  (`PolicyMachine.InterruptedMoveFitsIff`).
- A company and a team code are looked up by one string, the company id, a bar and the code. Different pairs have
  different strings exactly if no company id is another one followed by a bar and more
  (`BulkDirectory.KeysTellApartIff`); otherwise a row can place its employee in a unit of another company
  (`BulkUpload.UnitOfAnotherCompany`).
- A bulk-uploaded employee whose account cannot be written stays in the table although the row is reported
  as failed (`BulkUpload.CountedIsGrowthIff`).

## Model

| member | source | states |
|---|---|---|
| Organizations.RankingExistsIff | src/modules/control-policies/control-policies.service.ts:2655-2671 | a ranking that falls at every step towards the root, which makes this walk end, exists exactly for tables without parent cycles |
| Organizations.WalkIsShort | src/modules/control-policies/control-policies.service.ts:2655-2671 | without cycles a walk towards the root takes at most as many steps as the table has rows |
| UnitSearch.DescendantUnitsVisited | src/modules/control-logs/control-logs.service.ts:356-405 | the visited-set search ends on every table whose ids are unique and neither blank nor the key of parentless rows, cycles included, and returns exactly the units reachable through non-unit nodes, each once |
| UnitSearch.DescendantUnitsStack | src/modules/employees/employees.service.ts:204-256 | the stack search refuses a missing row and a non-group, and otherwise returns the same units, each once |
| UnitSearch.DescendantUnitsByTeamCode | src/modules/control-policies/control-policies.service.ts:2748-2781 | the team-code queue returns the same units, each once, when no cycle leads back to the owner and no root organization lies below it |
| UnitSearch.TeamCodeMeansUnit | src/modules/control-policies/control-policies.service.ts:2770-2776 | where neither an organization nor its parent is a root organization, having a team code is being classified as a unit |
| UnitSearch.ClosedHoldsReached | src/modules/control-logs/control-logs.service.ts:372-404 | a set with the root that is closed under expansion holds everything reached |
| UnitSearch.RankedHasNoCycle | src/modules/employees/employees.service.ts:232-255 | a cycle-free table has no walk from a root back to itself, which the searches without a visited set need |
| Closures.ResolveReadableOrganizationIds | src/modules/notices/notices.service.ts:468-497 | the upward loop ends on every table, cycles included, with exactly the ancestors-or-self of the scope |
| Closures.CollectDescendantOrganizationIds | src/modules/notices/notices.service.ts:499-523 | the downward loop ends on every table with exactly the descendants-or-self of the root |
| Closures.ClosureDuality | src/modules/notices/notices.service.ts:468-523 | b is collected below a iff a is readable from b, for all a and b, exactly when no row with a non-blank id names a blank parent |
| Subtrees.SubtreeCache.GetSubtreeIds | src/modules/dashboard/dashboard.service.ts:2459-2469 | the memoised recursion returns the uncached list and every cached list agrees with it |
| Subtrees.SubtreeHolds | src/modules/dashboard/dashboard.service.ts:2460-2469 | a subtree lists exactly the descendants-or-self |
| Subtrees.SubtreeDistinct | src/modules/dashboard/dashboard.service.ts:2460-2469 | and lists each of them once |
| Subtrees.SiteCountsEachLogOnce | src/modules/dashboard/dashboard.service.ts:2564-2675 | a site counts, for each log type, every log attributed to a descendant-or-self, each once; its total is the app-control and behaviour logs |
| Subtrees.SiteIsOwnPlusChildren | src/modules/dashboard/dashboard.service.ts:2588-2675 | for each log type a site's count is that of its own logs plus the counts of its children |
| OwnerFallback.ResolvePolicySelectionContext | src/common/utils/policy-owner-fallback.util.ts:55-91 | owners are listed from the organization upwards without repetition; the applied id is that of the nearest owner with a non-blank one |
| OwnerFallback.SelectPreferredOwnerScopedPolicies | src/common/utils/policy-owner-fallback.util.ts:113-144 | the two-pass selection returns the eligible policies of the first owner that has any |
| OwnerFallback.EligibleIff | src/common/utils/policy-owner-fallback.util.ts:93-111 | eligible are the owner's policies that name no target or name this organization and, where required, have a zone and a time |
| OwnerFallback.ContextSelectsNearest | src/common/utils/policy-owner-fallback.util.ts:55-144 | the two calls together: exactly the eligible policies of the nearest ancestor-or-self owner with an eligible one, none iff no owner has one |
| LocationFallback.WindowIff | src/modules/control-logs/control-logs.service.ts:74-98 | a window is built exactly for a log with a non-blank id and device id, a time, and no latitude or no longitude; it is ten minutes to each side |
| LocationFallback.MergeLocationFallbackWindows | src/modules/control-logs/control-logs.service.ts:100-127 | grouping, sorting and extending the last window in place yields each device's merged list |
| LocationFallback.MergedWindowsCover | src/modules/control-logs/control-logs.service.ts:100-127 | merged windows of a device are sorted, disjoint and cover the same instants as its windows |
| LocationFallback.FindDeviceLocationsForFallback | src/modules/control-logs/control-logs.service.ts:129-156 | fetching in chunks of a hundred returns the chunk results in order |
| LocationFallback.FetchedIsCovered | src/modules/control-logs/control-logs.service.ts:129-156 | however the chunks cut, the rows fetched for a device are its history inside its windows, in time order |
| LocationFallback.CoveredOnce | src/modules/control-logs/control-logs.service.ts:100-156 | no history row is fetched more often than the table holds it |
| LocationFallback.FindNearestLocation | src/modules/control-logs/control-logs.service.ts:179-193 | the scan keeps the first strictly nearest row and drops it beyond ten minutes |
| LocationFallback.ScanIsNearest | src/modules/control-logs/control-logs.service.ts:179-193 | the scan's row has no nearer one and every row before it is farther |
| LocationFallback.FastIsPlain | src/modules/control-logs/control-logs.service.ts:195-231 | scanning merged, fetched rows finds the row that scanning the device's whole history and current location finds |
| LocationFallback.ResolveLocationFallbacks | src/modules/control-logs/control-logs.service.ts:195-232 | for every batch of logs, a log id has an entry exactly if a log with that id that lacks a coordinate has a nearest row within ten minutes in its device's history and current location, the first of the nearest, that decrypts to a latitude or a longitude; the entry is that point, and the last such log wins. It equals the plain scan |
| EmployeeStore.EmployeeStore.RepointEmployeeReferences | src/modules/employees/employees.service.ts:2296-2314 | the nine statements move every reference and nothing else |
| EmployeeTables.RepointingUnites | src/modules/employees/employees.service.ts:1805-1815 | re-pointing the five history tables leaves the old id no rows and gives the new id those of both; every other row and table stays as it was |
| EmployeeTables.RepointingIsUndoneIff | src/modules/employees/employees.service.ts:1805-1815 | re-pointing back restores the tables exactly if the new id had no history before |
| EmployeeStore.EmployeeStore.RemoveEmployeeById | src/modules/employees/employees.service.ts:1109-1218 | the deletion transaction equals its specification, whose meaning EmployeeLaws.RemoveMeans states; a failure changes nothing |
| EmployeeStore.EmployeeStore.MoveEmployeeToDeletedArchive | src/modules/employees/employees.service.ts:2192-2294 | the archive transaction equals its specification, whose meaning EmployeeLaws.ArchiveMeans states; a missing employee or a failure changes nothing |
| EmployeeStore.EmployeeStore.ReassignEmployeeId | src/modules/employees/employees.service.ts:2138-2190 | id reassignment, archiving the id's previous holder on confirmation, equals its specification |
| EmployeeStore.EmployeeStore.RestoreDeletedEmployee | src/modules/employees/employees.service.ts:1427-1516 | restoring under the original id equals its specification; a failure changes nothing |
| EmployeeStore.EmployeeStore.HardDeleteDeletedEmployeeById | src/modules/employees/employees.service.ts:1675-1803 | erasing to an anonymous anchor equals its specification; a failure changes nothing |
| EmployeeLaws.ArchiveMeans | src/modules/employees/employees.service.ts:2192-2294 | the archive has the employee's history, its devices and account are inactive rows of the archive, its policy and exclusion rows are gone, and every other row and employee is as it was |
| EmployeeLaws.RemoveMeans | src/modules/employees/employees.service.ts:1109-1218 | deletion does that under the employee's name or a stand-in for a blank one; a missing employee and a taken archive id are refused |
| EmployeeLaws.ReassignMeans | src/modules/employees/employees.service.ts:2138-2190 | a new id is refused when it is blank, or taken and not confirmed; otherwise every row of the nine tables has it, and a previous holder is archived first |
| EmployeeLaws.RestoreMeans | src/modules/employees/employees.service.ts:1427-1516 | only a deleted employee with a free original id comes back: with every row, active devices and account, and the organization and status of its context |
| EmployeeLaws.HardDeleteMeans | src/modules/employees/employees.service.ts:1675-1803 | only a deleted employee with an original id is erased: the history goes to an anonymous anchor, devices are inactive and nobody's, account and assignments are gone |
| EmployeeLifecycle.HistoriesNeverMix | src/modules/employees/employees.service.ts:1119-1218 | over any run two history rows share an employee at the end iff they did at the start, none is lost, every reference names an existing employee and the unique keys hold |
| EmployeeLifecycle.StepIsSafe | src/modules/employees/employees.service.ts:1463-1513 | each single operation keeps all of that |
| EmployeeLifecycle.MoveIsSafe | src/modules/employees/employees.service.ts:1734-1797 | handing one employee's rows to someone who owns none keeps histories apart and keys unique |
| EmployeeLifecycle.RestoreUndoesRemove | src/modules/employees/employees.service.ts:1427-1516 | restoring right after deletion gives every history row, device and account back to its employee |
| EmployeeLifecycle.AnchorsAreFinal | src/modules/employees/employees.service.ts:1675-1803 | what hard deletion leaves can be neither restored nor erased again |
| PolicyScope.ResolveRelationSourceOrganizationIds | src/modules/control-policies/control-policies.service.ts:2636-2674 | the editing walk returns exactly the owner and every live group or company above it |
| PolicyScope.IsResourceOrganizationAllowedForPolicyOwner | src/modules/control-policies/control-policies.service.ts:1581-1612 | the moving walk accepts exactly the owner and the groups and companies of an unbroken chain |
| PolicyScope.AllowedImpliesSource | src/modules/control-policies/control-policies.service.ts:1581-1612 | what the moving rule allows is always something the editing rule accepts |
| PolicyScope.RulesAgreeIff | src/modules/control-policies/control-policies.service.ts:2636-2674 | the two rules agree on every organization exactly for a live owner whose groups and companies form an unbroken chain |
| Organizations.ClassifyMeans | src/common/utils/organization-scope.util.ts:21-36 | the two roots are administrative, a child of a root is a company even with a team code, and elsewhere the team code alone makes a unit |
| PolicyStore.PolicyStore.ValidatePolicyRelations | src/modules/control-policies/control-policies.service.ts:2534-2634 | comparing counts with distinct ids accepts exactly the lists whose resources exist, are not deleted and come from a source organization |
| PolicyStore.PolicyStore.Create | src/modules/control-policies/control-policies.service.ts:210-322 | creation equals its specification, error cases included; a refusal changes nothing |
| PolicyStore.PolicyStore.Update | src/modules/control-policies/control-policies.service.ts:732-959 | an edit equals its specification, error cases included; a refusal changes nothing |
| PolicyStore.PolicyStore.WriteUpdate | src/modules/control-policies/control-policies.service.ts:845-959 | a given list replaces its relation, an absent one is kept unless the owner changed, then activation is decided |
| PolicyStore.PolicyStore.ApplyRequiredConditionActivationPolicy | src/modules/control-policies/control-policies.service.ts:2472-2519 | a policy is active afterwards exactly if it has a zone and a time and either lacked one before or was active |
| PolicyStore.PolicyStore.Remove | src/modules/control-policies/control-policies.service.ts:1039-1078 | removal deactivates, detaches and marks deleted, and nothing else |
| PolicyStore.PolicyStore.BulkRemove | src/modules/control-policies/control-policies.service.ts:1080-1140 | bulk removal does that to the undeleted policies in scope and counts them |
| PolicyStore.PolicyStore.BulkSetActive | src/modules/control-policies/control-policies.service.ts:1142-1213 | only published, undeleted and, for activation, complete policies change; the count is the number that changed |
| PolicyStore.PolicyStore.ToggleActive | src/modules/control-policies/control-policies.service.ts:1215-1275 | drafts are refused, and so is activating an incomplete policy |
| PolicyStore.PolicyStore.Assign | src/modules/control-policies/control-policies.service.ts:2122-2341 | the four assign operations replace one relation of a published policy and decide activation |
| PolicyStore.PolicyStore.DetachInvalidRelationsForMovedResource | src/modules/control-policies/control-policies.service.ts:1378-1488 | exactly the undeleted policies whose owner may not use the new organization lose the resource and are switched off |
| PolicyStore.PolicyStore.DeactivatePoliciesWithoutConditions | src/common/utils/control-policy-cleanup.util.ts:1-47 | a policy is active afterwards exactly if it was and either is not listed or has a zone, a time and a behaviour or preset; nothing else changes |
| PolicyStore.PolicyStore.MoveResource | src/modules/behavior-conditions/behavior-conditions.service.ts:250-366 | moving a resource equals its specification, error cases included |
| PolicyStore.PolicyStore.RemoveResource | src/modules/behavior-conditions/behavior-conditions.service.ts:368-399 | removing a resource equals its specification, whose meaning PolicyLaws.RemoveResourceMeans states |
| PolicyLaws.RemoveResourceMeans | src/modules/behavior-conditions/behavior-conditions.service.ts:368-399 | the resource is marked deleted and in no policy; a policy is active afterwards exactly if it was and either did not hold the resource or still has a zone, a time and a behaviour or preset |
| PolicyLaws.CreateMeans | src/modules/control-policies/control-policies.service.ts:210-322 | exactly when a creation is accepted, and what the new policy then holds; a draft is inactive, another policy is active unless the request says otherwise |
| PolicyLaws.UpdateMeans | src/modules/control-policies/control-policies.service.ts:732-959 | exactly when an edit is accepted, what each relation holds afterwards and when the policy is active |
| PolicyLaws.AssignMeans | src/modules/control-policies/control-policies.service.ts:2122-2341 | an assignment is accepted exactly for a published undeleted policy and ids that fit, and replaces that relation only |
| PolicyLaws.ToggleMeans | src/modules/control-policies/control-policies.service.ts:1215-1275 | a toggle flips the activity of a published undeleted policy, on only with a zone and a time |
| PolicyLaws.BulkSetActiveMeans | src/modules/control-policies/control-policies.service.ts:1142-1213 | bulk activation sets the listed published undeleted policies, to active only with a zone and a time |
| PolicyLaws.MoveResourceMeans | src/modules/behavior-conditions/behavior-conditions.service.ts:250-366 | a move changes the organization of the resource and takes it off, and switches off, exactly the undeleted policies with it whose owner may not use it there |
| PolicyMachine.RunsStaySound | src/modules/control-policies/control-policies.service.ts:815-881 | over any run an active policy is undeleted with a zone and a time, each organization owns at most one undeleted published policy, attached resources exist, and without super admins they belong to the owner or a group or company above it |
| PolicyMachine.StepKeepsOnePublished | src/modules/control-policies/control-policies.service.ts:250-256 | no single operation gives an organization a second undeleted published policy |
| PolicyMachine.MoveFits | src/modules/control-policies/control-policies.service.ts:1378-1488 | after a move everything still attached may be attached |
| PolicyMachine.InterruptedMoveFitsIff | src/modules/behavior-conditions/behavior-conditions.service.ts:317-345 | between the row update and the detachment everything attached is in place exactly if every policy with the resource may take it from the new organization |
| PolicyMachine.DraftSwitchedOnIff | src/modules/control-policies/control-policies.service.ts:2472-2519 | a request leaves an active draft where there was none exactly if it is an accepted edit that keeps or makes the policy a draft and completes its missing zones or times |
| PolicyMachine.ActiveDraftsComeFromEdits | src/modules/control-policies/control-policies.service.ts:845-959 | every active draft at the end of a run was switched on by such an edit during the run |
| PolicyMachine.ActiveDraftIsReachable | src/modules/control-policies/control-policies.service.ts:852-958 | saving an empty draft and editing in a zone and a time makes it active |
| TranslationFields.NormalizeFields | src/common/translation/translation.service.ts:594-612 | the loop computes the normalised list |
| TranslationFields.LastWins | src/common/translation/translation.service.ts:594-612 | the result has distinct trimmed keys and holds, for each key, the last non-blank field given for it |
| TranslationFields.KeysStayInPlace | src/common/translation/translation.service.ts:594-612 | its keys are the trimmed keys of the non-blank fields, each at the place of its first one |
| TranslationFields.NormalFormIsFixed | src/common/translation/translation.service.ts:594-612 | a normalised list is left alone, order included |
| TranslationFields.QueuedFieldsComeBack | src/common/translation/translation.service.ts:614-641 | what a worker parses from a job is what was queued |
| TranslationFields.ReadIff | src/common/translation/translation.service.ts:614-641 | exactly the entries that are objects with two strings, neither blank, are read, trimmed |
| TranslationBatch.TranslateBatch | src/common/translation/translation.service.ts:877-921 | succeeds exactly when the reply answers every field (and every language when required) and returns the trimmed text or the source text |
| TranslationBatch.ArrivedIff | src/common/translation/translation.service.ts:877-921 | the reply is complete exactly if it has one item for each field, for every field a first item of its key, and, when required, a non-blank text of that item in every language |
| TranslationBatch.TextMeans | src/common/translation/translation.service.ts:908-918 | a field becomes the trimmed translation of the first item with its key, or keeps its content |
| TranslationTargets.TranslateFieldsToLanguages | src/common/translation/translation.service.ts:777-850 | succeeds exactly when both needed replies are complete, with one value map for each distinct target |
| TranslationTargets.EveryFieldIsDelivered | src/common/translation/translation.service.ts:777-850 | each target language gets exactly the keys of the job's fields, derived texts included |
| TranslationTargets.DeliveredValues | src/common/translation/translation.service.ts:777-850 | plain fields get their translation, HTML fields theirs, derived texts the text of the translated HTML |
| TranslationTargets.DerivedFromOne | src/common/translation/translation.service.ts:643-650 | a derived text comes from one field only |
| TranslationTargets.PlainIff | src/common/translation/translation.service.ts:643-650 | a field is translated as plain text exactly if it is not HTML and no HTML field has its key with Html for Text |
| TranslationStore.ContentTranslations.StoreEntityTranslations | src/common/translation/translation.service.ts:199-271 | reading all versions first and then writing equals storing entry by entry |
| TranslationStore.HoldsTheNewest | src/common/translation/translation.service.ts:221-263 | after any events a key has a row iff it was stored since its last deletion, and the row is the newest of those stores, the latest on ties |
| TranslationStore.OrderDoesNotMatter | src/common/translation/translation.service.ts:221-263 | the same stores in another order leave the same row |
| TranslationStore.VersionGoesBackIff | src/common/translation/translation.service.ts:233-238 | between deletions a version goes down exactly when a row of time zero meets a negative time |
| TranslationStore.GapLosesUpdateIff | src/common/translation/translation.service.ts:213-263 | in any interleaving of readings, writes and deletions a write replaces a newer row exactly if no newer one was there when its call read the key; the replaced row was then stored after that reading |
| TranslationStore.InterleavedStoresLoseTheNewest | src/common/translation/translation.service.ts:221-263 | an interleaving of two calls that leaves the older text, which no order of whole calls does |
| TranslationDelivery.ProcessFields | src/common/translation/translation.service.ts:523-572 | a job completes exactly when its replies were complete; then every non-blank value of every target has a row at least as new, and a failed job stores nothing |
| TranslationDelivery.TargetIff | src/common/translation/translation.service.ts:538-547 | a worker translates to the explicit targets or else all languages, but neither to the source, ko by default, nor to a skipped one |
| TranslationDelivery.RequestIsKeptIff | src/common/translation/translation.service.ts:365-391 | a request that names languages is kept to them exactly if one of them remains without the source and the skipped ones, or none of all languages does |
| TranslationDelivery.SourceOnlyBecomesAll | src/common/translation/translation.service.ts:365-547 | asked for Korean only, from Korean, a worker translates to every other language |
| TranslationJobs.BackoffGrows | src/common/translation/translation.service.ts:574-575 | the delay never shrinks with attempts, is between 1 and 256 seconds, and the cap never decides |
| TranslationJobs.BackoffIsDelay | src/common/translation/translation.service.ts:574-575 | the delay after the n-th failure is 2, 4, 8, 16, 32, 64, 128 and from the eighth on 256 seconds |
| TranslationJobs.DrainMeans | src/common/translation/translation.service.ts:441-586 | what a drain leaves of each job: completed, failed with one more attempt and its delay, or as it was |
| TranslationJobs.HandledIsNotDue | src/common/translation/translation.service.ts:573-586 | a handled job is not due again at the same time |
| TranslationJobs.RecoveryMakesDue | src/common/translation/translation.service.ts:464-478 | a recovery makes exactly the jobs held for more than five minutes due besides those that were, none of them is stale later, a second one finds nothing, and attempts go on counting |
| TranslationJobs.TranslationWorker.ClaimNextJob | src/common/translation/translation.service.ts:480-516 | claims a due job such that no due job has an earlier nextAttemptAt, and none with the same one an earlier createdAt, or nothing when none is due |
| TranslationJobs.TranslationWorker.ProcessPendingJobs | src/common/translation/translation.service.ts:441-462 | at a fixed clock the drain loop ends and claims every job that was due or stale exactly once; along the claims nextAttemptAt never falls, and createdAt does not where it is equal |
| TranslationQueue.NoJobIsHeldTwice | src/common/translation/translation.service.ts:480-586 | any workers, any interleaving: while no recovery finds a held job stale and no held key is queued again, no job is held by two workers |
| TranslationQueue.ExclusionIsLostIff | src/common/translation/translation.service.ts:359-516 | from a state with one marked holder per job, a step makes it possible for two workers to hold a job without any further such step exactly if it recovers or requeues a held job |
| TranslationQueue.StepsMean | src/common/translation/translation.service.ts:359-586 | queueing starts the row afresh, a worker finds only a due job, claims only a pending or failed row and writes its outcome whatever the row has become; a failure counts one attempt more than was found, with its delay |
| TranslationQueue.RequeueBreaksExclusion | src/common/translation/translation.service.ts:359-419 | a run in which a requeued job is held twice |
| TranslationQueue.SlowJobBreaksExclusion | src/common/translation/translation.service.ts:464-478 | a run in which a slow job is held twice |
| TranslationQueue.RequeuedWorkIsSwallowedIff | src/common/translation/translation.service.ts:359-586 | queued work can be completed without anybody reading it exactly if a worker holds the job, or has found its row, when it is queued |
| HttpLogQueue.HttpFileLogger.Write | src/common/utils/http-file.logger.ts:73-99 | a write drops the oldest entry of a full queue, appends, and may start a flush; the books stay balanced |
| HttpLogQueue.HttpFileLogger.Flush | src/common/utils/http-file.logger.ts:101-115 | at most one batch is taken, from the front of the queue, and only when none is in flight |
| HttpLogQueue.HttpFileLogger.FinishFlush | src/common/utils/http-file.logger.ts:123-129 | the flush ends and the next one starts when entries queued up meanwhile |
| HttpLogQueue.HttpFileLogger.AppendSucceeds | src/common/utils/http-file.logger.ts:117-120 | one file of the batch reaches the disk behind what was written to it before |
| HttpLogQueue.HttpFileLogger.AppendFails | src/common/utils/http-file.logger.ts:117-122 | what was not appended is lost and accounted as lost |
| HttpLogLedger.NothingUnaccounted | src/common/utils/http-file.logger.ts:73-129 | every accepted entry is in exactly one of dropped, in flight, appended, lost or queued, and the queue is a suffix of the accepted writes |
| HttpLogLedger.WrittenMeans | src/common/utils/http-file.logger.ts:73-99 | a write is accepted last and queued; only a queue of 5000 gives up a write, its oldest |
| HttpLogLedger.SameFileIff | src/common/utils/http-file.logger.ts:106-115 | two entries share a file exactly if one file is configured or they have the same date |
| HttpLogLedger.WrittenKeeps | src/common/utils/http-file.logger.ts:73-99 | accepting an entry keeps the books, the order on disk and the bound of 5000 |
| HttpLogLedger.TakeKeeps | src/common/utils/http-file.logger.ts:101-115 | taking a batch keeps them |
| HttpLogLedger.LandKeeps | src/common/utils/http-file.logger.ts:117-120 | appending a file keeps each file's lines in write order |
| HttpLogLedger.LoseKeeps | src/common/utils/http-file.logger.ts:117-122 | losing the rest of a batch keeps them |
| EcmaCalendar.DayFromYearFormula | src/common/utils/kst-time.util.ts:40-47 | counting years of 365 or 366 days gives the closed form of ECMA-262 |
| EcmaCalendar.DaysBeforeTable | src/common/utils/kst-time.util.ts:40-47 | the formula for the days before a month gives the twelve entries of the table in ECMA-262 |
| EcmaCalendar.MakeDayRoundTrip | src/common/utils/kst-time.util.ts:40-47 | taking a day apart and making it again gives the same day |
| EcmaCalendar.PartsOfMadeDay | src/common/utils/kst-time.util.ts:53-60 | making a day and taking it apart gives back its year, month and date |
| EcmaCalendar.DaysOrderLikeParts | src/common/utils/kst-time.util.ts:27-34 | days are ordered as their years, months and dates are |
| DateKeys.KeyRoundTrip | src/common/utils/kst-time.util.ts:27-34 | a written key has the date pattern exactly for four-digit years, and its parts are read back |
| DateKeys.KeysOrderLikeParts | src/common/utils/kst-time.util.ts:27-34 | keys compare as strings like their parts |
| KstTime.StartOfDayIff | src/common/utils/kst-time.util.ts:40-47 | getKstStartOfDay is the start of the Korean day exactly outside the years 0 to 99 |
| KstTime.MonthStartIff | src/common/utils/kst-time.util.ts:53-60 | a month start with any offset is the first day of that month, across years, exactly outside the years 0 to 99 |
| KstTime.MonthStartsCompose | src/common/utils/kst-time.util.ts:53-60 | going a months and then b months is going a + b months |
| KstTime.KeyComesBackIff | src/common/utils/kst-time.util.ts:74-92 | a date key is parsed exactly for four-digit years, as the start of its day or as its last millisecond |
| KstTime.ParseKeyMeans | src/common/utils/kst-time.util.ts:74-80 | a date key that names a day is read as its first or last millisecond in Korea, and one that names none as an invalid date |
| KstTime.ParseOtherMeans | src/common/utils/kst-time.util.ts:82-92 | any other input is accepted exactly if it ends in an offset and is a date |
| KstTime.RangeMeans | src/common/utils/kst-time.util.ts:112-132 | a query is accepted exactly if what is given can be read and the start, where it is a date, is at most 730 days before today's midnight, which is the start where none is given |
| KstTime.KeysOrderLikeDays | src/common/utils/kst-time.util.ts:27-34 | keys of four-digit years compare like the days of their instants |
| KstTime.StoredDateIff | src/modules/dashboard/dashboard.service.ts:53-64 | the stored-date shift is the UTC day of a date column exactly for the start of a Korean day, and the bucket start undoes it |
| KstTime.AggregatedKeyIsTheKey | src/modules/dashboard/dashboard.service.ts:61-64 | the key of a stored date is the key of its day |
| KstTime.UnshiftedKeyIsTheDayBefore | src/modules/dashboard/dashboard.service.ts:1436 | without the shift a stored date yields the key of the day before |
| KstTime.RangeStaysInWindowIff | src/common/utils/kst-time.util.ts:112-132 | an accepted log query has a lower bound at most 730 Korean days back exactly if its start date is not a date key of an impossible date |
| KstTime.ImpossibleStartIsAccepted | src/common/utils/kst-time.util.ts:74-132 | the start 2024-13-01 is accepted at any time, without a lower bound |
| KstTime.KeyOpensRangeIff | src/common/utils/kst-time.util.ts:112-132 | the key of an instant opens a range exactly if its day is within the window, and the range begins with that whole day |
| KstTime.KeyClosesRange | src/common/utils/kst-time.util.ts:112-132 | the key of an instant as the end date closes the range with the last millisecond of its day |
| StatCounts.SplitConserves | src/modules/dashboard/dashboard.service.ts:929-973 | a counter split over distinct keys that cover the logs adds up to the counter of the logs |
| StatCounts.HoursConserve | src/modules/dashboard/dashboard.service.ts:958-973 | each counter of the 24 hours adds up to that of the day |
| StatCounts.KoreanHourIff | src/modules/dashboard/dashboard.service.ts:958-973 | a log is counted in hour h exactly if it lies between h and h + 1 o'clock of its Korean day |
| StatCounts.CountsMean | src/modules/dashboard/dashboard.service.ts:901-946 | each counter counts exactly the blocked logs of its kind, or the logs |
| StatDay.AggregateDay | src/modules/dashboard/dashboard.service.ts:901-973 | the loop over the logs computes the day counters, the counters of each hour and the bucket of each zone |
| StatDay.ZonesConserve | src/modules/dashboard/dashboard.service.ts:948-956 | the zone buckets together count every blocked log with a zone, once |
| StatDay.BucketIsPlausible | src/modules/dashboard/dashboard.service.ts:948-956 | a bucket has between one employee and one employee per violation |
| StatStore.StatStore.ReaggregateOrganization | src/modules/dashboard/dashboard.service.ts:853-1058 | the table statements of one organization equal their specification |
| StatStore.StatStore.ReaggregateDay | src/modules/dashboard/dashboard.service.ts:832-1117 | and so does the loop over the organizations |
| StatLaws.RewrittenMeans | src/modules/dashboard/dashboard.service.ts:853-1058 | after one organization was rewritten its day row, its 24 hour rows and the rows of each zone count exactly its logs, and rows of other days, organizations and zones are as they were |
| StatTables.DayAndHoursAgree | src/modules/dashboard/dashboard.service.ts:990-1040 | after a run the 24 hour rows of an organization add up to its day row in each of the five counters |
| StatZones.ZoneTableConservesIff | src/modules/dashboard/dashboard.service.ts:1042-1058 | right after its own rewriting, the stored rows of an organization's zones count its blocked logs with a zone exactly if those zones are its own |
| StatZones.RunConservesZonesIff | src/modules/dashboard/dashboard.service.ts:850-1058 | at the end of a run the rows of its zones count at most the blocked logs with a zone, and all of them exactly if each zone belongs to an organization rewritten no later than the one blocked there, and not again later |
| StatZones.OnceEachStays | src/modules/dashboard/dashboard.service.ts:850-1058 | when the run names each organization once, rewritten no later is the whole condition |
| StatZones.ParentDeletesRowOfChild | src/modules/dashboard/dashboard.service.ts:850-1058 | a child's row of its parent's zone is deleted when the parent is rewritten after it, and kept in the other order |
| StatZones.SecondRunIff | src/modules/dashboard/dashboard.service.ts:1042-1058 | rewriting one organization twice is rewriting it once exactly if its blocked logs lie in its own zones |
| StatZones.SecondDayChangesNothingIff | src/modules/dashboard/dashboard.service.ts:832-1117 | a second run over the same logs leaves the day, hour and zone tables as they were exactly if every zone of a blocked log belongs to an organization of the run |
| StatEmployees.EmployeeStats.Reaggregate | src/modules/dashboard/dashboard.service.ts:1138-1267 | every employee with a log, or with a row of the day in a target organization, who resolves gets a rebuilt row; nothing else changes |
| StatLaws.RebuiltRowMeans | src/modules/dashboard/dashboard.service.ts:1138-1267 | a rebuilt row counts exactly the employee's logs in each column and names the app blocked most |
| StatLaws.WantedMeans | src/modules/dashboard/dashboard.service.ts:1138-1267 | exactly the employees with a log or with a row of the day in a target organization, who resolve, get a row |
| StatEmployees.TopIsMost | src/modules/dashboard/dashboard.service.ts:1238-1245 | no app is blocked more often than the top one and an earlier one is blocked less often |
| StatEmployees.EmployeeRowsConserve | src/modules/dashboard/dashboard.service.ts:1138-1267 | when all employees resolve, the rewritten rows add up to the logs in each counter |
| StatEmployees.SecondRunChangesNothing | src/modules/dashboard/dashboard.service.ts:1138-1267 | a second run leaves the employee rows as they were |
| StatLogs.SameLogsTogether | src/modules/dashboard/dashboard.service.ts:383-400 | a log counts for one organization only, its own or else that of its device, so one query for all targets returns the same logs as one query for each |
| StatTotals.EmployeesMatchOrganizations | src/modules/dashboard/dashboard.service.ts:832-1267 | when the targets are distinct and every employee with a log resolves, the rewritten employee rows add up to the organization rows in each counter |
| StatTotals.RebuiltRowIsWholeIff | src/modules/dashboard/dashboard.service.ts:1138-1267 | a rebuilt row counts at most the employee's logs of the day, and all of them in a counter exactly if each log it counts is attributed to a target |
| StatTotals.LogElsewhereIsZeroed | src/modules/dashboard/dashboard.service.ts:1208-1217 | the row of an employee of a target whose only log belongs to another organization is set to zero |
| HourlyView.GetHourlyData | src/modules/dashboard/dashboard.service.ts:608-750 | row h of the 24 counts, in each column, exactly the logs whose Korean hour is h, or, where stored rows agree with the totals of the logs, the stored rows of hour h; so the rows add up to the logs, short only of used rows outside the hours of a day |
| BulkDirectory.ResolveCompanyId | src/modules/employees/employees.service.ts:363-383 | the walk ends on every table, cycles included, at the first company at or above the organization |
| BulkDirectory.IndexUnits | src/modules/employees/employees.service.ts:385-420 | the index files each key as absent, ambiguous or one unit |
| BulkDirectory.UniqueCarrierIff | src/modules/employees/employees.service.ts:398-420 | a key leads to a unit exactly if that unit alone carries the key |
| BulkDirectory.KeysTellApartIff | src/modules/employees/employees.service.ts:412 | pairs of a company id and a team code have different keys exactly if no company id is another one followed by a bar and more |
| BulkDirectory.UniqueUnitIff | src/modules/employees/employees.service.ts:398-420 | where company ids are so, a company and a team code lead to a unit exactly if it is the only unit of that company with that code |
| BulkUpload.BulkUploadByCompanyTeam | src/modules/employees/employees.service.ts:328-591 | the loop over the rows equals the row-by-row specification; more than a thousand rows are refused |
| BulkLaws.FirstFailedCheckDecides | src/modules/employees/employees.service.ts:454-533 | a row is refused by the first of the twelve checks on its texts that it fails; one that passes them all is placed in the one organization it leads to, as an exception exactly if it has no team code |
| BulkLaws.ReportIff | src/modules/employees/employees.service.ts:441-582 | the report names exactly the refused rows with their codes and counts exactly the created ids |
| BulkLaws.InUseIff | src/modules/employees/employees.service.ts:422-436 | an id counts as in use exactly if an employee had it before the upload or an earlier row was created with it |
| BulkUpload.UploadAccounts | src/modules/employees/employees.service.ts:435-591 | created and failed rows add up to the requested ones; created ids are distinct and new |
| BulkUpload.CountedIsGrowthIff | src/modules/employees/employees.service.ts:535-582 | the table grew by the reported number exactly if no row that passed the checks with a free id failed at its account only |
| BulkUpload.AddedEmployeesArePlaced | src/modules/employees/employees.service.ts:475-507 | every added employee sits in the one company of its row's name, or in the one unit filed under that company's id and the team code; where no company id is another one followed by a bar and more, that is the company's only unit with the code |
| BulkUpload.UnitOfAnotherCompany | src/modules/employees/employees.service.ts:412-507 | a row that names one company leads to a unit of another one whose id is the first one's followed by a bar and more |

## Left out

- Controllers, DTO mapping, notifications, audit rows, push messages and the language of error texts.
- Calls to the translation API, MDM, geocoding, bcrypt and AES-GCM: arbitrary results, or uninterpreted functions.
- Concurrency between separate transactions, except in the translation queue and the log writer; the checks of policy creation, which the server runs outside a transaction, are one step with its write.
- The order of the ids the two closures return: they are sets here.
- Log file names: the prefix and path are not part of the model, only which date and target share a file; a partially written append is not modelled.
- The order the database gives rows of one device with equal timestamps: one fixed table order.
- The memo that records an archived employee's original id is a field here; its text pattern is not part of the model, nor is the default status of a created row, which is taken as active.
- Device tokens, phone numbers, reference ids and the columns createdBy and updatedBy.
- bulkUpdateStatus on archived rows and the expiry query of hard deletion.
- PolicyStore.PolicyStore.Create: scope, target teams and target employees are one flag, because they touch no modelled state; ids repeated inside one relation list collapse, because relations are sets.
- PolicyStore.PolicyStore.Update: the same flag and sets, and the author check of drafts is part of the flag.
- PolicyStore.PolicyStore.MoveResource: the row update and the detachment are two transactions in the service (src/modules/behavior-conditions/behavior-conditions.service.ts:317-345) and one step here, so a failure between them is not part of this operation (PolicyMachine.InterruptedMoveFitsIff says what it leaves); the fields that do not decide relations, such as thresholds, preset items and platforms, are left out; the services of zones and time policies follow the same steps.
- Organization edits: the tree is fixed over a run of policy operations.
- KstTime.KeyComesBackIff: days of a month that do not exist are an invalid date, as section 21.4.1.32 of ECMA-262 says; an engine that rolls them over is not modelled. Instants whose shift leaves the range of time values are unbounded integers.
- TranslationDelivery.ProcessFields: a failure of the database in the middle of storing is not modelled.
- TranslationTargets.DeliveredValues: an HTML field whose key is also derived from another HTML field gets whichever is written last; only its presence is stated, by EveryFieldIsDelivered.
- TranslationJobs.TranslationWorker.ClaimNextJob: one worker alone, so a claim is never lost to another one between the query and the update; TranslationQueue takes the two as separate steps.
- TranslationJobs.TranslationWorker.ProcessPendingJobs: time stands still during one drain; what moving time allows is in TranslationQueue.
- StatStore.StatStore.ReaggregateDay: the compliance rate and head counts come in as values; whether the zone table has a unique key is not in the repository, so rows may repeat.
- HourlyView.GetHourlyData: the summer-time rules of the server's time zone are not part of the end-of-day bound; the logs of the day are given.
- BulkUpload.BulkUploadByCompanyTeam: case mapping and the pattern of e-mail addresses are uninterpreted functions; position, role and memo are left out.
- Compliance and risk scores, incident reports, the request board, pagination, common codes and schedulers: they would add easy members.
