// The employee rows of a day, rebuilt from the logs of all target organizations.
module StatEmployees {
  import opened Wrappers
  import opened Organizations
  import opened StatCounts
  import opened StatDay

  datatype EmployeeKey = EmployeeKey(employeeId: EmployeeId, date: int)

  datatype EmployeeRow = EmployeeRow(organizationId: OrgId, counts: Counts, zoneViolations: nat,
      topBlockedApp: Option<string>)

  type EmployeeRows = map<EmployeeKey, EmployeeRow>

  // ----- the most blocked app -----

  predicate BlockedApp(log: Log) {
    Blocked(log) && log.kind.AppControl? && Truthy(log.packageName)
  }

  function AppKey(log: Log): string {
    log.packageName.GetOr("")
  }

  function AppsOf(logs: seq<Log>): seq<string> {
    FirstSeen(Filter(logs, BlockedApp), AppKey)
  }

  function AppCount(logs: seq<Log>, app: string): nat {
    |With(Filter(logs, BlockedApp), AppKey, app)|
  }

  /** The loop over the counts: a later app must have strictly more. */
  function TopOf(logs: seq<Log>, apps: seq<string>): (r: Option<string>)
    ensures r.Some? ==> r.value in apps && AppCount(logs, r.value) > 0
  {
    if apps == [] then None
    else
      var best, app := TopOf(logs, apps[..|apps| - 1]), apps[|apps| - 1];
      if AppCount(logs, app) > (if best.Some? then AppCount(logs, best.value) else 0) then Some(app) else best
  }

  /** App `i` has the highest count, and every app seen earlier has a lower one. */
  ghost predicate MostAt(logs: seq<Log>, apps: seq<string>, i: int) {
    && 0 <= i < |apps|
    && (forall j :: 0 <= j < |apps| ==> AppCount(logs, apps[j]) <= AppCount(logs, apps[i]))
    && forall j :: 0 <= j < i ==> AppCount(logs, apps[j]) < AppCount(logs, apps[i])
  }

  /** No app is blocked more often than the top one, and an app seen earlier is blocked less
      often; without a top app there is no count at all. */
  lemma {:induction false} TopIsMost(logs: seq<Log>, apps: seq<string>) returns (i: int)
    ensures TopOf(logs, apps).None? ==> forall j :: 0 <= j < |apps| ==> AppCount(logs, apps[j]) == 0
    ensures TopOf(logs, apps).Some? ==> MostAt(logs, apps, i) && apps[i] == TopOf(logs, apps).value
  {
    i := 0;
    if apps != [] {
      var before, app := apps[..|apps| - 1], apps[|apps| - 1];
      i := TopIsMost(logs, before);
      assert apps == before + [app];
      var best := TopOf(logs, before);
      if best.Some? && AppCount(logs, app) <= AppCount(logs, best.value) {
      } else if AppCount(logs, app) > 0 {
        i := |before|;
      }
    }
  }

  /** Cut to the length of the column. */
  function Cut(app: Option<string>): Option<string> {
    if app.Some? && |app.value| > 100 then Some(app.value[..100]) else app
  }

  // ----- the aggregate of an employee -----

  function EmployeeOf(log: Log): EmployeeId {
    log.employeeId
  }

  datatype AppMap = AppMap(order: seq<string>, counts: map<string, nat>)

  datatype Aggregate = Aggregate(counts: Counts, zoneViolations: nat, apps: AppMap)

  ghost predicate AppsDone(apps: AppMap, logs: seq<Log>) {
    && apps.order == AppsOf(logs)
    && (forall a :: a in apps.counts <==> a in apps.order)
    && forall a :: a in apps.counts ==> apps.counts[a] == AppCount(logs, a)
  }

  ghost predicate Aggregates(g: Aggregate, logs: seq<Log>) {
    g.counts == CountsOf(logs) && g.zoneViolations == |Filter(logs, InZone)| && AppsDone(g.apps, logs)
  }

  const NO_EVENTS := Aggregate(ZERO, 0, AppMap([], map[]))

  lemma AppsStep(apps: AppMap, logs: seq<Log>, log: Log, next: AppMap)
    requires AppsDone(apps, logs)
    requires if !BlockedApp(log) then next == apps
      else var a := AppKey(log);
        next == AppMap(if a in apps.counts then apps.order else apps.order + [a],
            apps.counts[a := (if a in apps.counts then apps.counts[a] else 0) + 1])
    ensures AppsDone(next, logs + [log])
  {
    FilterAppend(logs, log, BlockedApp);
    if BlockedApp(log) {
      forall a | a in next.counts ensures next.counts[a] == AppCount(logs + [log], a) {
        AppCountAppend(logs, log, a);
      }
    }
  }

  lemma AppCountAppend(logs: seq<Log>, log: Log, a: string)
    requires BlockedApp(log)
    ensures AppCount(logs + [log], a) == AppCount(logs, a) + if AppKey(log) == a then 1 else 0
    ensures a !in AppsOf(logs) ==> AppCount(logs, a) == 0
  {
    FilterAppend(logs, log, BlockedApp);
    WithAppend(Filter(logs, BlockedApp), log, AppKey, a);
    if With(Filter(logs, BlockedApp), AppKey, a) != [] { LogsHaveSeenKey(Filter(logs, BlockedApp), AppKey, a); }
  }

  method AddToAggregate(g: Aggregate, log: Log, ghost logs: seq<Log>) returns (next: Aggregate)
    requires Aggregates(g, logs)
    ensures Aggregates(next, logs + [log])
  {
    CountsAppend(logs, log);
    FilterAppend(logs, log, InZone);
    var apps := g.apps;
    if BlockedApp(log) {
      var a := AppKey(log);
      apps := AppMap(if a in apps.counts then apps.order else apps.order + [a],
          apps.counts[a := (if a in apps.counts then apps.counts[a] else 0) + 1]);
    }
    AppsStep(g.apps, logs, log, apps);
    next := Aggregate(Bumped(g.counts, log), if InZone(log) then g.zoneViolations + 1 else g.zoneViolations, apps);
  }

  type EmployeeMap = map<EmployeeId, Aggregate>

  ghost predicate EmployeesDone(m: EmployeeMap, logs: seq<Log>) {
    && (forall e :: e in m <==> e in FirstSeen(logs, EmployeeOf))
    && forall e :: e in m ==> Aggregates(m[e], With(logs, EmployeeOf, e))
  }

  lemma NoLogsOfOthers(logs: seq<Log>, e: EmployeeId)
    requires e !in FirstSeen(logs, EmployeeOf)
    ensures With(logs, EmployeeOf, e) == []
  {
    if With(logs, EmployeeOf, e) != [] { LogsHaveSeenKey(logs, EmployeeOf, e); }
  }

  lemma EmployeesStep(m: EmployeeMap, logs: seq<Log>, log: Log, g: Aggregate)
    requires EmployeesDone(m, logs) && Aggregates(g, With(logs, EmployeeOf, log.employeeId) + [log])
    ensures EmployeesDone(m[log.employeeId := g], logs + [log])
  {
    var m' := m[log.employeeId := g];
    forall e | e in m' ensures Aggregates(m'[e], With(logs + [log], EmployeeOf, e)) {
      WithAppend(logs, log, EmployeeOf, e);
    }
  }

  /** The body of the loop over the logs. */
  method AddLog(m: EmployeeMap, log: Log, ghost logs: seq<Log>) returns (next: EmployeeMap)
    requires EmployeesDone(m, logs)
    ensures EmployeesDone(next, logs + [log])
  {
    var aggregate := NO_EVENTS;
    if log.employeeId in m {
      aggregate := m[log.employeeId];
    } else {
      NoLogsOfOthers(logs, log.employeeId);
    }
    aggregate := AddToAggregate(aggregate, log, With(logs, EmployeeOf, log.employeeId));
    EmployeesStep(m, logs, log, aggregate);
    next := m[log.employeeId := aggregate];
  }

  /** The loop over the logs. */
  method AggregateEmployees(logs: seq<Log>) returns (m: EmployeeMap)
    ensures EmployeesDone(m, logs)
  {
    m := map[];
    for i := 0 to |logs|
      invariant EmployeesDone(m, logs[..i])
    {
      var log := logs[i];
      m := AddLog(m, log, logs[..i]);
      assert logs[..i + 1] == logs[..i] + [log];
    }
    assert logs[..|logs|] == logs;
  }

  // ----- the rows -----

  function RebuiltRow(org: OrgId, logs: seq<Log>): EmployeeRow {
    EmployeeRow(org, CountsOf(logs), |Filter(logs, InZone)|, Cut(TopOf(logs, AppsOf(logs))))
  }

  /** Employees with a log, or with a row of that day in a target organization. */
  ghost predicate Touched(rows: EmployeeRows, date: int, logs: seq<Log>, targets: set<OrgId>, e: EmployeeId) {
    e in FirstSeen(logs, EmployeeOf)
        || (EmployeeKey(e, date) in rows && rows[EmployeeKey(e, date)].organizationId in targets)
  }

  /** The employee exists and names an organization. */
  predicate Resolves(employees: map<EmployeeId, OrgId>, e: EmployeeId) {
    e in employees && employees[e] != ""
  }

  /** The rows to write, one for every touched employee that resolves. */
  ghost predicate Wanted(want: map<EmployeeId, EmployeeRow>, rows: EmployeeRows, employees: map<EmployeeId, OrgId>,
          date: int, logs: seq<Log>, targets: set<OrgId>) {
    && (forall e :: e in want <==> Touched(rows, date, logs, targets, e) && Resolves(employees, e))
    && forall e :: e in want ==> want[e] == RebuiltRow(employees[e], With(logs, EmployeeOf, e))
  }

  /** The table with the wanted rows of the day written over it. */
  ghost predicate Upserted(was: EmployeeRows, now: EmployeeRows, date: int, want: map<EmployeeId, EmployeeRow>) {
    forall k: EmployeeKey :: if k.date == date && k.employeeId in want then k in now && now[k] == want[k.employeeId]
      else (k in now <==> k in was) && (k in now ==> now[k] == was[k])
  }

  /** The loop over the blocked app counts of one employee. */
  method TopBlockedApp(apps: AppMap, ghost logs: seq<Log>) returns (top: Option<string>)
    requires AppsDone(apps, logs)
    ensures top == TopOf(logs, AppsOf(logs))
  {
    top := None;
    var topCount := 0;
    for i := 0 to |apps.order|
      invariant top == TopOf(logs, apps.order[..i])
      invariant topCount == if top.Some? then AppCount(logs, top.value) else 0
    {
      var packageName := apps.order[i];
      assert packageName in apps.order;
      assert apps.order[..i + 1][..i] == apps.order[..i];
      if apps.counts[packageName] > topCount {
        topCount := apps.counts[packageName];
        top := Some(packageName);
      }
    }
    assert apps.order[..|apps.order|] == apps.order;
  }

  /** Aggregates for every touched employee: existing rows without logs are reset to zero. */
  ghost predicate TouchedDone(m: EmployeeMap, rows: EmployeeRows, date: int, logs: seq<Log>, targets: set<OrgId>) {
    && (forall e :: e in m <==> Touched(rows, date, logs, targets, e))
    && forall e :: e in m ==> Aggregates(m[e], With(logs, EmployeeOf, e))
  }

  method AddExistingRows(m: EmployeeMap, rows: EmployeeRows, date: int, targets: set<OrgId>, ghost logs: seq<Log>)
    returns (all: EmployeeMap)
    requires EmployeesDone(m, logs)
    ensures TouchedDone(all, rows, date, logs, targets)
  {
    var existing := set k | k in rows && k.date == date && rows[k].organizationId in targets :: k.employeeId;
    all := map e | e in m.Keys + existing :: if e in m then m[e] else NO_EVENTS;
    forall e ensures e in existing
        <==> EmployeeKey(e, date) in rows && rows[EmployeeKey(e, date)].organizationId in targets {
      if EmployeeKey(e, date) in rows && rows[EmployeeKey(e, date)].organizationId in targets {
        assert EmployeeKey(e, date).employeeId == e;
      }
    }
    forall e | e in all ensures Aggregates(all[e], With(logs, EmployeeOf, e)) {
      if e !in m { NoLogsOfOthers(logs, e); }
    }
  }

  class EmployeeStats {
    var rows: EmployeeRows

    constructor ()
      ensures rows == map[]
    {
      rows := map[];
    }

    /** reaggregateEmployeeDailyStats; the result counts the rebuilt rows. */
    method Reaggregate(employees: map<EmployeeId, OrgId>, date: int, logs: seq<Log>, targets: set<OrgId>)
      returns (rebuilt: nat, ghost want: map<EmployeeId, EmployeeRow>)
      modifies this
      ensures Wanted(want, old(rows), employees, date, logs, targets) && rebuilt == |want|
      ensures Upserted(old(rows), rows, date, want)
    {
      var found := AggregateEmployees(logs);
      var employeeMap := AddExistingRows(found, rows, date, targets, logs);
      rebuilt, want := UpsertAll(employees, date, employeeMap, logs);
    }

    method UpsertAll(employees: map<EmployeeId, OrgId>, date: int, m: EmployeeMap, ghost logs: seq<Log>)
      returns (rebuilt: nat, ghost want: map<EmployeeId, EmployeeRow>)
      requires forall e :: e in m ==> Aggregates(m[e], With(logs, EmployeeOf, e))
      modifies this
      ensures Upserted(old(rows), rows, date, want) && rebuilt == |want|
      ensures RowsBuilt(want, m.Keys, employees, logs)
    {
      rebuilt, want := 0, map[];
      var left := m.Keys;
      while left != {}
        invariant left <= m.Keys && rebuilt == |want|
        invariant Upserted(old(rows), rows, date, want)
        invariant RowsBuilt(want, m.Keys - left, employees, logs)
        decreases left
      {
        var e :| e in left;
        ghost var done := m.Keys - left;
        left := left - {e};
        assert m.Keys - left == done + {e};
        if Resolves(employees, e) {
          want := UpsertEmployee(employees, date, e, m[e], logs, old(rows), want, done);
          rebuilt := rebuilt + 1;
        }
      }
    }

    method UpsertEmployee(employees: map<EmployeeId, OrgId>, date: int, e: EmployeeId, g: Aggregate,
            ghost logs: seq<Log>, ghost was: EmployeeRows,
                          ghost want: map<EmployeeId, EmployeeRow>, ghost done: set<EmployeeId>)
                            returns (ghost more: map<EmployeeId, EmployeeRow>)
      requires Aggregates(g, With(logs, EmployeeOf, e)) && Resolves(employees, e) && e !in done
      requires Upserted(was, rows, date, want) && RowsBuilt(want, done, employees, logs)
      modifies this
      ensures Upserted(was, rows, date, more) && RowsBuilt(more, done + {e}, employees, logs) && |more| == |want| + 1
    {
      var row := BuildRow(employees[e], g, With(logs, EmployeeOf, e));
      BuiltOneMore(want, done, employees, logs, e, row);
      rows := rows[EmployeeKey(e, date) := row];
      more := want[e := row];
    }

    method BuildRow(org: OrgId, g: Aggregate, ghost logs: seq<Log>) returns (row: EmployeeRow)
      requires Aggregates(g, logs)
      ensures row == RebuiltRow(org, logs)
    {
      var top := TopBlockedApp(g.apps, logs);
      row := EmployeeRow(org, g.counts, g.zoneViolations, Cut(top));
    }
  }

  ghost predicate RowsBuilt(want: map<EmployeeId, EmployeeRow>, done: set<EmployeeId>,
          employees: map<EmployeeId, OrgId>, logs: seq<Log>) {
    && (forall e :: e in want <==> e in done && Resolves(employees, e))
    && forall e :: e in want ==> want[e] == RebuiltRow(employees[e], With(logs, EmployeeOf, e))
  }

  lemma BuiltOneMore(want: map<EmployeeId, EmployeeRow>, done: set<EmployeeId>, employees: map<EmployeeId, OrgId>,
          logs: seq<Log>, e: EmployeeId, row: EmployeeRow)
    requires RowsBuilt(want, done, employees, logs) && e !in done && Resolves(employees, e)
    requires row == RebuiltRow(employees[e], With(logs, EmployeeOf, e))
    ensures RowsBuilt(want[e := row], done + {e}, employees, logs) && e !in want
  {
  }

  // ----- what the rows add up to -----

  /** A counter summed over the rows of some employees. */
  function RowTotal(rows: EmployeeRows, date: int, ids: seq<EmployeeId>, c: Counter): nat {
    if ids == [] then 0
    else (if EmployeeKey(ids[0], date) in rows then rows[EmployeeKey(ids[0], date)].counts.Of(c) else 0)
         + RowTotal(rows, date, ids[1..], c)
  }

  lemma {:induction false} RowTotalIsCount(rows: EmployeeRows, date: int, ids: seq<EmployeeId>, c: Counter,
          logs: seq<Log>)
    requires forall e :: e in ids ==>
               EmployeeKey(e, date) in rows
               && rows[EmployeeKey(e, date)].counts.Of(c) == Count(c, With(logs, EmployeeOf, e))
    ensures RowTotal(rows, date, ids, c) == CountOver(c, ids, logs, EmployeeOf)
  {
    if ids != [] { RowTotalIsCount(rows, date, ids[1..], c, logs); }
  }

  /** When every employee with a log resolves, the rewritten rows add up to the logs, counter by
      counter, whatever order they are listed in. */
  lemma EmployeeRowsConserve(was: EmployeeRows, now: EmployeeRows, want: map<EmployeeId, EmployeeRow>,
          employees: map<EmployeeId, OrgId>, date: int, logs: seq<Log>,
                             targets: set<OrgId>, ids: seq<EmployeeId>, c: Counter)
    requires Wanted(want, was, employees, date, logs, targets) && Upserted(was, now, date, want)
    requires forall l :: l in logs ==> Resolves(employees, l.employeeId)
    requires Distinct(ids) && forall e :: e in ids <==> e in want
    ensures RowTotal(now, date, ids, c) == Count(c, logs)
  {
    FirstSeenKeys(logs, EmployeeOf);
    forall l | l in logs ensures EmployeeOf(l) in ids {
      assert EmployeeOf(l) in FirstSeen(logs, EmployeeOf);
      assert Touched(was, date, logs, targets, EmployeeOf(l));
    }
    forall e | e in ids ensures EmployeeKey(e, date) in now
        && now[EmployeeKey(e, date)].counts.Of(c) == Count(c, With(logs, EmployeeOf, e)) {
    }
    RowTotalIsCount(now, date, ids, c, logs);
    SplitConserves(c, ids, logs, EmployeeOf);
  }

  /** A second run over the same logs writes rows that are already there. */
  lemma SecondRunChangesNothing(was: EmployeeRows, once: EmployeeRows, twice: EmployeeRows,
          want: map<EmployeeId, EmployeeRow>, again: map<EmployeeId, EmployeeRow>,
                                employees: map<EmployeeId, OrgId>, date: int, logs: seq<Log>, targets: set<OrgId>)
    requires Wanted(want, was, employees, date, logs, targets) && Upserted(was, once, date, want)
    requires Wanted(again, once, employees, date, logs, targets) && Upserted(once, twice, date, again)
    ensures twice == once
  {
    SameRowsAgain(was, once, twice, date, want, again);
  }

  lemma SameRowsAgain(was: EmployeeRows, once: EmployeeRows, twice: EmployeeRows, date: int,
          want: map<EmployeeId, EmployeeRow>, again: map<EmployeeId, EmployeeRow>)
    requires Upserted(was, once, date, want) && Upserted(once, twice, date, again)
    requires forall e :: e in again ==> e in want && again[e] == want[e]
    ensures twice == once
  {
    forall k: EmployeeKey ensures (k in twice <==> k in once) && (k in once ==> twice[k] == once[k]) {
    }
  }
}
