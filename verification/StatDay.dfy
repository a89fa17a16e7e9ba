// One pass over the logs of an organization and day: day counters, hour counters, zone buckets.
module StatDay {
  import opened Wrappers
  import opened StatCounts

  // ----- zones -----

  predicate InZone(log: Log) {
    Blocked(log) && Truthy(log.zoneId)
  }

  function ZoneKey(log: Log): ZoneId {
    log.zoneId.GetOr("")
  }

  /** The blocked logs of a zone. */
  function ZoneLogs(logs: seq<Log>, z: ZoneId): seq<Log> {
    With(Filter(logs, InZone), ZoneKey, z)
  }

  /** The zones of the blocked logs in the order in which they first occur. */
  function ZonesOf(logs: seq<Log>): seq<ZoneId> {
    FirstSeen(Filter(logs, InZone), ZoneKey)
  }

  datatype Bucket = Bucket(violationCount: nat, employeeIds: set<EmployeeId>)

  function BucketOf(logs: seq<Log>, z: ZoneId): Bucket {
    Bucket(|ZoneLogs(logs, z)|, set l | l in ZoneLogs(logs, z) :: l.employeeId)
  }

  lemma ZonesOfBlocked(logs: seq<Log>)
    ensures Distinct(ZonesOf(logs))
    ensures forall z :: z in ZonesOf(logs) <==> exists l :: l in logs && InZone(l) && ZoneKey(l) == z
  {
    FirstSeenKeys(Filter(logs, InZone), ZoneKey);
    forall z ensures z in ZonesOf(logs) <==> exists l :: l in logs && InZone(l) && ZoneKey(l) == z {
      if l :| l in logs && InZone(l) && ZoneKey(l) == z { assert l in Filter(logs, InZone); }
    }
  }

  lemma ZoneLogsAppend(logs: seq<Log>, log: Log, z: ZoneId)
    ensures ZoneLogs(logs + [log], z) == if InZone(log) && ZoneKey(log) == z then ZoneLogs(logs, z) + [log]
      else ZoneLogs(logs, z)
  {
    FilterAppend(logs, log, InZone);
    if InZone(log) {
      WithAppend(Filter(logs, InZone), log, ZoneKey, z);
    }
  }

  function ZoneTotal(zones: seq<ZoneId>, logs: seq<Log>): nat {
    if zones == [] then 0 else |ZoneLogs(logs, zones[0])| + ZoneTotal(zones[1..], logs)
  }

  lemma {:induction false} ZoneTotalIsCount(zones: seq<ZoneId>, logs: seq<Log>)
    ensures ZoneTotal(zones, logs) == CountOver(TotalEvents, zones, Filter(logs, InZone), ZoneKey)
  {
    if zones != [] {
      ZoneTotalIsCount(zones[1..], logs);
      EventsAreLogs(ZoneLogs(logs, zones[0]));
    }
  }

  /** The zone buckets together count every blocked log that has a zone, once. */
  lemma ZonesConserve(logs: seq<Log>)
    ensures ZoneTotal(ZonesOf(logs), logs) == |Filter(logs, InZone)|
  {
    ZonesOfBlocked(logs);
    SplitConserves(TotalEvents, ZonesOf(logs), Filter(logs, InZone), ZoneKey);
    ZoneTotalIsCount(ZonesOf(logs), logs);
    EventsAreLogs(Filter(logs, InZone));
  }

  lemma {:induction false} UsersOfLogs(logs: seq<Log>)
    ensures |set l | l in logs :: l.employeeId| <= |logs|
    ensures logs != [] ==> 1 <= |set l | l in logs :: l.employeeId|
  {
    var users := set l | l in logs :: l.employeeId;
    if logs != [] {
      var n := |logs| - 1;
      UsersOfLogs(logs[..n]);
      assert logs == logs[..n] + [logs[n]];
      assert users == (set l | l in logs[..n] :: l.employeeId) + {logs[n].employeeId};
    }
  }

  /** A bucket that exists has a violation, and between one employee and one per violation. */
  lemma BucketIsPlausible(logs: seq<Log>, z: ZoneId)
    requires z in ZonesOf(logs)
    ensures 1 <= |BucketOf(logs, z).employeeIds| <= BucketOf(logs, z).violationCount
  {
    ZonesOfBlocked(logs);
    var l :| l in logs && InZone(l) && ZoneKey(l) == z;
    assert l in ZoneLogs(logs, z);
    UsersOfLogs(ZoneLogs(logs, z));
  }

  // ----- the loop -----

  /** A map with its keys in insertion order. */
  datatype ZoneMap = ZoneMap(order: seq<ZoneId>, buckets: map<ZoneId, Bucket>)

  type HourMap = map<int, Counts>

  ghost predicate HoursDone(hourly: HourMap, logs: seq<Log>) {
    && (forall h :: h in hourly <==> 0 <= h < 24)
    && forall h :: h in hourly ==> hourly[h] == CountsOf(With(logs, HourOf, h))
  }

  ghost predicate ZonesDone(zones: ZoneMap, logs: seq<Log>) {
    && zones.order == ZonesOf(logs)
    && (forall z :: z in zones.buckets <==> z in zones.order)
    && forall z :: z in zones.buckets ==> zones.buckets[z] == BucketOf(logs, z)
  }

  /** The increments that one log makes. */
  function Bumped(a: Counts, log: Log): Counts {
    Counts(a.totalEvents + 1,
           if log.action.Allow? then a.allowedEvents + 1 else a.allowedEvents,
           if Blocked(log) then a.totalBlocks + 1 else a.totalBlocks,
           if Blocked(log) && log.kind.Behavior? then a.behaviorBlocks + 1 else a.behaviorBlocks,
           if Blocked(log) && log.kind.AppControl? then a.appControlBlocks + 1 else a.appControlBlocks)
  }

  lemma CountsAppend(logs: seq<Log>, log: Log)
    ensures CountsOf(logs + [log]) == Bumped(CountsOf(logs), log)
  {
    CountAppend(TotalEvents, logs, log);
    CountAppend(AllowedEvents, logs, log);
    CountAppend(TotalBlocks, logs, log);
    CountAppend(BehaviorBlocks, logs, log);
    CountAppend(AppControlBlocks, logs, log);
  }

  lemma HoursStep(hourly: HourMap, logs: seq<Log>, log: Log)
    requires HoursDone(hourly, logs)
    ensures HoursDone(hourly[HourOf(log) := Bumped(hourly[HourOf(log)], log)], logs + [log])
  {
    forall h | 0 <= h < 24
      ensures CountsOf(With(logs + [log], HourOf, h)) == if h == HourOf(log) then Bumped(hourly[h], log) else hourly[h]
    {
      WithAppend(logs, log, HourOf, h);
      if h == HourOf(log) { CountsAppend(With(logs, HourOf, h), log); }
    }
  }

  lemma ZonesOfAppend(logs: seq<Log>, log: Log)
    ensures ZonesOf(logs + [log]) == if InZone(log) && ZoneKey(log) !in ZonesOf(logs)
      then ZonesOf(logs) + [ZoneKey(log)] else ZonesOf(logs)
  {
    FilterAppend(logs, log, InZone);
  }

  lemma ZonesStep(zones: ZoneMap, logs: seq<Log>, log: Log, next: ZoneMap)
    requires ZonesDone(zones, logs)
    requires if !InZone(log) then next == zones
      else var z := ZoneKey(log);
        var was := if z in zones.buckets then zones.buckets[z] else Bucket(0, {});
        next == ZoneMap(if z in zones.buckets then zones.order else zones.order + [z],
                        zones.buckets[z := Bucket(was.violationCount + 1, was.employeeIds + {log.employeeId})])
    ensures ZonesDone(next, logs + [log])
  {
    ZonesOfAppend(logs, log);
    forall z | z in next.buckets ensures next.buckets[z] == BucketOf(logs + [log], z) {
      BucketAppend(logs, log, z);
    }
  }

  lemma BucketAppend(logs: seq<Log>, log: Log, z: ZoneId)
    ensures var was := BucketOf(logs, z);
            BucketOf(logs + [log], z) == if InZone(log) && ZoneKey(log) == z
                then Bucket(was.violationCount + 1, was.employeeIds + {log.employeeId}) else was
    ensures z !in ZonesOf(logs) ==> BucketOf(logs, z) == Bucket(0, {})
  {
    ZoneLogsAppend(logs, log, z);
    if ZoneLogs(logs, z) != [] { LogsHaveSeenKey(Filter(logs, InZone), ZoneKey, z); }
    if InZone(log) && ZoneKey(log) == z {
      assert (set l | l in ZoneLogs(logs, z) + [log] :: l.employeeId)
          == (set l | l in ZoneLogs(logs, z) :: l.employeeId) + {log.employeeId};
    }
  }

  ghost predicate Aggregated(total: Counts, hourly: HourMap, zones: ZoneMap, logs: seq<Log>) {
    total == CountsOf(logs) && HoursDone(hourly, logs) && ZonesDone(zones, logs)
  }

  method AggregateDay(logs: seq<Log>) returns (total: Counts, hourly: HourMap, zones: ZoneMap)
    ensures Aggregated(total, hourly, zones, logs)
  {
    hourly := EmptyHours();
    zones := ZoneMap([], map[]);
    total := ZERO;
    for i := 0 to |logs|
      invariant Aggregated(total, hourly, zones, logs[..i])
    {
      total, hourly, zones := AddLog(total, hourly, zones, logs[i], logs[..i]);
      assert logs[..i + 1] == logs[..i] + [logs[i]];
    }
    assert logs[..|logs|] == logs;
  }

  /** The body of the loop over the logs. */
  method AddLog(total: Counts, hourly: HourMap, zones: ZoneMap, log: Log, ghost logs: seq<Log>)
    returns (total': Counts, hourly': HourMap, zones': ZoneMap)
    requires Aggregated(total, hourly, zones, logs)
    ensures Aggregated(total', hourly', zones', logs + [log])
  {
    CountsAppend(logs, log);
    total' := Bumped(total, log);
    zones' := zones;
    if InZone(log) {
      zones' := AddToZone(zones, ZoneKey(log), log.employeeId);
    }
    ZonesStep(zones, logs, log, zones');
    HoursStep(hourly, logs, log);
    hourly' := hourly[HourOf(log) := Bumped(hourly[HourOf(log)], log)];
  }

  method EmptyHours() returns (hourly: HourMap)
    ensures HoursDone(hourly, [])
  {
    hourly := map[];
    for hour := 0 to 24
      invariant forall h :: h in hourly <==> 0 <= h < hour
      invariant forall h :: h in hourly ==> hourly[h] == ZERO
    {
      hourly := hourly[hour := ZERO];
    }
  }

  method AddToZone(zones: ZoneMap, z: ZoneId, employeeId: EmployeeId) returns (next: ZoneMap)
    ensures var was := if z in zones.buckets then zones.buckets[z] else Bucket(0, {});
            next == ZoneMap(if z in zones.buckets then zones.order else zones.order + [z],
                            zones.buckets[z := Bucket(was.violationCount + 1, was.employeeIds + {employeeId})])
  {
    var bucket := Bucket(0, {});
    var order := zones.order + [z];
    if z in zones.buckets {
      bucket := zones.buckets[z];
      order := zones.order;
    }
    next := ZoneMap(order, zones.buckets[z := Bucket(bucket.violationCount + 1, bucket.employeeIds + {employeeId})]);
  }
}
