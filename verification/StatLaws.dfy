// What the rebuilt rows of a day hold, said on the logs themselves.
module StatLaws {
  import opened Wrappers
  import opened Organizations
  import opened KstTime
  import opened StatCounts
  import opened StatDay
  import opened StatTables
  import opened StatEmployees

  lemma {:induction false} FilterTwice<T(!new)>(s: seq<T>, p: T -> bool, q: T -> bool, both: T -> bool)
    requires forall x :: both(x) <==> p(x) && q(x)
    ensures Filter(Filter(s, p), q) == Filter(s, both)
  {
    if s != [] {
      FilterTwice(s[1..], p, q, both);
      var rest := Filter(s[1..], p);
      if p(s[0]) { assert ([s[0]] + rest)[1..] == rest; }
    }
  }

  // ----- counters -----

  /** The five columns over the logs that satisfy `p`: all, allowed, blocked, and blocked of type
      behavior and of type app_control. */
  ghost function CountsIn(logs: seq<Log>, p: Log -> bool): Counts {
    Counts(|Filter(logs, p)|,
           |Filter(logs, (l: Log) => p(l) && l.action.Allow?)|,
           |Filter(logs, (l: Log) => p(l) && l.action.Block?)|,
           |Filter(logs, (l: Log) => p(l) && l.action.Block? && l.kind.Behavior?)|,
           |Filter(logs, (l: Log) => p(l) && l.action.Block? && l.kind.AppControl?)|)
  }

  lemma CountsOfFilter(logs: seq<Log>, p: Log -> bool)
    ensures CountsOf(Filter(logs, p)) == CountsIn(logs, p)
  {
    CountsMean(Filter(logs, p));
    FilterTwice(logs, p, (l: Log) => l.action.Allow?, (l: Log) => p(l) && l.action.Allow?);
    FilterTwice(logs, p, (l: Log) => l.action.Block?, (l: Log) => p(l) && l.action.Block?);
    FilterTwice(logs, p, (l: Log) => l.action.Block? && l.kind.Behavior?,
                (l: Log) => p(l) && l.action.Block? && l.kind.Behavior?);
    FilterTwice(logs, p, (l: Log) => l.action.Block? && l.kind.AppControl?,
                (l: Log) => p(l) && l.action.Block? && l.kind.AppControl?);
  }

  lemma {:induction false} FilterSame(logs: seq<Log>, p: Log -> bool, q: Log -> bool)
    requires forall l :: p(l) <==> q(l)
    ensures Filter(logs, p) == Filter(logs, q)
  {
    if logs != [] { FilterSame(logs[1..], p, q); }
  }

  lemma CountsOfAll(logs: seq<Log>)
    ensures CountsOf(logs) == CountsIn(logs, (l: Log) => true)
  {
    KeepsAll(logs, (l: Log) => true);
    CountsOfFilter(logs, (l: Log) => true);
  }

  lemma {:induction false} KeepsAll(logs: seq<Log>, p: Log -> bool)
    requires forall l :: p(l)
    ensures Filter(logs, p) == logs
  {
    if logs != [] {
      KeepsAll(logs[1..], p);
      assert logs == [logs[0]] + logs[1..];
    }
  }

  lemma CountsOfHour(logs: seq<Log>, h: int)
    requires 0 <= h < 24
    ensures CountsOf(With(logs, HourOf, h)) == CountsIn(logs, (l: Log) => InKoreanHour(l.timestamp, h))
  {
    forall l: Log { KoreanHourIff(l.timestamp, h); }
    WithIsFilter(logs, HourOf, h, (l: Log) => InKoreanHour(l.timestamp, h));
    CountsOfFilter(logs, (l: Log) => InKoreanHour(l.timestamp, h));
  }

  // ----- zones -----

  /** Blocked in the zone. */
  ghost predicate BlockedIn(l: Log, z: ZoneId) {
    l.action.Block? && l.zoneId == Some(z)
  }

  ghost predicate HasBlockedIn(logs: seq<Log>, z: ZoneId) {
    z != "" && exists l :: l in logs && BlockedIn(l, z)
  }

  lemma ZonesMean(logs: seq<Log>, z: ZoneId)
    ensures z in ZonesOf(logs) <==> HasBlockedIn(logs, z)
    ensures z != "" ==> BucketOf(logs, z).violationCount == |Filter(logs, l => BlockedIn(l, z))|
    ensures z != "" ==> BucketOf(logs, z).employeeIds == set l | l in logs && BlockedIn(l, z) :: l.employeeId
  {
    ZonesOfBlocked(logs);
    if z in ZonesOf(logs) {
      var l :| l in logs && InZone(l) && ZoneKey(l) == z;
      assert BlockedIn(l, z);
    }
    if HasBlockedIn(logs, z) {
      var l :| l in logs && BlockedIn(l, z);
      assert InZone(l) && ZoneKey(l) == z;
    }
    if z != "" {
      WithIsFilter(Filter(logs, InZone), ZoneKey, z, l => ZoneKey(l) == z);
      FilterTwice(logs, InZone, l => ZoneKey(l) == z, l => BlockedIn(l, z));
      assert ZoneLogs(logs, z) == Filter(logs, l => BlockedIn(l, z));
    }
  }

  /** The zone row of a day: how often its zone was entered in vain, and by how many employees. */
  ghost predicate IsZoneRow(logs: seq<Log>, date: int, r: ZoneRow) {
    && r.date == date && HasBlockedIn(logs, r.zoneId)
    && r.violationCount == |Filter(logs, l => BlockedIn(l, r.zoneId))|
    && r.uniqueEmployees == |set l | l in logs && BlockedIn(l, r.zoneId) :: l.employeeId|
  }

  lemma NewZoneRowsMean(logs: seq<Log>, date: int, r: ZoneRow)
    ensures r in NewZoneRows(logs, date) <==> IsZoneRow(logs, date, r)
  {
    var rows, zones := NewZoneRows(logs, date), ZonesOf(logs);
    if r in rows {
      var i :| 0 <= i < |rows| && rows[i] == r;
      assert zones[i] in zones;
      ZonesMean(logs, zones[i]);
    }
    if IsZoneRow(logs, date, r) {
      ZonesMean(logs, r.zoneId);
      var i :| 0 <= i < |zones| && zones[i] == r.zoneId;
      assert rows[i] in rows;
    }
  }

  // ----- one organization rewritten -----

  /** The day row of the organization counts its logs, the 24 hour rows those of each Korean hour;
      zone rows of the day are those of its own zones no more and those of its blocked logs instead.
      Rows of other organizations and days are as they were. */
  lemma RewrittenMeans(db: Db, owners: ZoneOwners, date: int, w: OrgDay)
    ensures var (org, after) := (w.organizationId, Rewritten(db, owners, date, w));
            && after.daily == db.daily[DayKey(org, date) := DailyRow(w.facts, CountsIn(w.logs, (l: Log) => true))]
            && (forall k: HourKey :: if k.organizationId == org && k.date == date
                  then k in after.hourly <==> 0 <= k.hour < 24
                  else (k in after.hourly <==> k in db.hourly) && (k in db.hourly ==> after.hourly[k] == db.hourly[k]))
            && (forall h :: 0 <= h < 24 ==>
                  && HourKey(org, date, h) in after.hourly
                  && after.hourly[HourKey(org, date, h)] == CountsIn(w.logs, (l: Log) => InKoreanHour(l.timestamp, h)))
            && forall r :: r in after.zoneRows <==>
                 || (r in db.zoneRows && !(r.date == date && r.zoneId in owners && owners[r.zoneId] == org))
                 || IsZoneRow(w.logs, date, r)
  {
    CountsOfAll(w.logs);
    RewritesHours(db, owners, date, w);
    forall h | 0 <= h < 24
      ensures HourKey(w.organizationId, date, h) in Rewritten(db, owners, date, w).hourly
      ensures Rewritten(db, owners, date, w).hourly[HourKey(w.organizationId, date, h)]
           == CountsIn(w.logs, (l: Log) => InKoreanHour(l.timestamp, h))
    {
      CountsOfHour(w.logs, h);
    }
    forall r { NewZoneRowsMean(w.logs, date, r); }
  }

  // ----- employee rows -----

  /** How often the app was blocked. */
  ghost function AppBlocks(logs: seq<Log>, app: string): nat {
    |Filter(logs, (l: Log) => l.action.Block? && l.kind.AppControl? && l.packageName == Some(app))|
  }

  lemma AppsMean(logs: seq<Log>, app: string)
    ensures app in AppsOf(logs) ==> app != ""
    ensures app != "" ==> AppCount(logs, app) == AppBlocks(logs, app)
    ensures app != "" && app !in AppsOf(logs) ==> AppBlocks(logs, app) == 0
  {
    FirstSeenKeys(Filter(logs, BlockedApp), AppKey);
    if app != "" {
      WithIsFilter(Filter(logs, BlockedApp), AppKey, app, l => AppKey(l) == app);
      FilterTwice(logs, BlockedApp, l => AppKey(l) == app,
                  (l: Log) => l.action.Block? && l.kind.AppControl? && l.packageName == Some(app));
      if app !in AppsOf(logs) && AppCount(logs, app) != 0 { LogsHaveSeenKey(Filter(logs, BlockedApp), AppKey, app); }
    }
  }

  /** The app is blocked, and no app more often. */
  ghost predicate MostBlocked(logs: seq<Log>, app: string) {
    && app != "" && AppBlocks(logs, app) > 0
    && forall other :: other != "" ==> AppBlocks(logs, other) <= AppBlocks(logs, app)
  }

  lemma TopMeans(logs: seq<Log>)
    ensures var top := TopOf(logs, AppsOf(logs));
            if top.Some? then MostBlocked(logs, top.value) else forall app :: app != "" ==> AppBlocks(logs, app) == 0
  {
    var apps := AppsOf(logs);
    var i := TopIsMost(logs, apps);
    forall app | app != "" ensures AppBlocks(logs, app)
        <= if TopOf(logs, apps).Some? then AppBlocks(logs, TopOf(logs, apps).value) else 0 {
      AppsMean(logs, app);
      if TopOf(logs, apps).Some? { AppsMean(logs, TopOf(logs, apps).value); }
      if app in apps { var j :| 0 <= j < |apps| && apps[j] == app; }
    }
    if TopOf(logs, apps).Some? { AppsMean(logs, TopOf(logs, apps).value); }
  }

  /** A rebuilt employee row: the organization of the employee, the five columns, the blocked logs
      with a zone, and the first hundred characters of a most blocked app, if any was blocked. */
  lemma RebuiltRowMeans(org: OrgId, logs: seq<Log>)
    ensures var row := RebuiltRow(org, logs);
            && row.organizationId == org && row.counts == CountsIn(logs, (l: Log) => true)
            && row.zoneViolations == |Filter(logs, (l: Log) => l.action.Block? && l.zoneId !in {None, Some("")})|
            && (row.topBlockedApp.None? ==> forall app :: app != "" ==> AppBlocks(logs, app) == 0)
            && (row.topBlockedApp.Some? ==> exists app ::
                  MostBlocked(logs, app) && row.topBlockedApp.value == app[..if |app| < 100 then |app| else 100])
  {
    CountsOfAll(logs);
    FilterSame(logs, InZone, (l: Log) => l.action.Block? && l.zoneId !in {None, Some("")});
    TopMeans(logs);
    var top := TopOf(logs, AppsOf(logs));
    if top.Some? { assert top.value[..|top.value|] == top.value; }
  }

  /** Exactly the employees with a log, or with a row of the day in a target organization, who exist
      and have an organization get a row, from their own logs. */
  lemma WantedMeans(want: map<EmployeeId, EmployeeRow>, rows: EmployeeRows, employees: map<EmployeeId, OrgId>,
          date: int, logs: seq<Log>, targets: set<OrgId>, e: EmployeeId)
    requires Wanted(want, rows, employees, date, logs, targets)
    ensures e in want
      <==> && e in employees && employees[e] != ""
           && (HasLog(logs, e)
               || (EmployeeKey(e, date) in rows && rows[EmployeeKey(e, date)].organizationId in targets))
    ensures e in want ==> want[e] == RebuiltRow(employees[e], Filter(logs, (l: Log) => l.employeeId == e))
  {
    HasLogIff(logs, e);
    WithIsFilter(logs, EmployeeOf, e, (l: Log) => l.employeeId == e);
    assert Touched(rows, date, logs, targets, e)
      <==> HasLog(logs, e) || (EmployeeKey(e, date) in rows && rows[EmployeeKey(e, date)].organizationId in targets);
  }

  ghost predicate HasLog(logs: seq<Log>, e: EmployeeId) {
    exists l :: l in logs && l.employeeId == e
  }

  lemma HasLogIff(logs: seq<Log>, e: EmployeeId)
    ensures e in FirstSeen(logs, EmployeeOf) <==> HasLog(logs, e)
  {
    FirstSeenKeys(logs, EmployeeOf);
    if HasLog(logs, e) {
      var l :| l in logs && l.employeeId == e;
      assert EmployeeOf(l) == e;
    }
  }
}
