// Re-aggregation as the service runs it: one pass over the logs, then the table statements of
// one transaction, organization by organization.
module StatStore {
  import opened Wrappers
  import opened Organizations
  import opened StatCounts
  import opened StatDay
  import opened StatTables

  class StatStore {
    var daily: map<DayKey, DailyRow>
    var hourly: map<HourKey, Counts>
    var zoneRows: seq<ZoneRow>

    ghost function Snapshot(): Db
      reads this
    {
      Db(daily, hourly, zoneRows)
    }

    constructor ()
      ensures Snapshot() == Db(map[], map[], [])
    {
      daily, hourly, zoneRows := map[], map[], [];
    }

    /** createMany of the hour rows, in the order of the hours. */
    method CreateHours(org: OrgId, date: int, hourMap: HourMap, ghost logs: seq<Log>)
      requires HoursDone(hourMap, logs)
      modifies `hourly
      ensures hourly == old(hourly) + HourRows(org, date, logs, 24)
    {
      for hour := 0 to 24
        invariant hourly == old(hourly) + HourRows(org, date, logs, hour)
      {
        hourly := hourly[HourKey(org, date, hour) := hourMap[hour]];
      }
    }

    /** createMany of the zone rows, in the order of the map. */
    method CreateZones(date: int, zones: ZoneMap, ghost logs: seq<Log>)
      requires ZonesDone(zones, logs)
      modifies `zoneRows
      ensures zoneRows == old(zoneRows) + NewZoneRows(logs, date)
    {
      if zones.order == [] {
        return;
      }
      for i := 0 to |zones.order|
        invariant zoneRows == old(zoneRows) + NewZoneRows(logs, date)[..i]
      {
        var z := zones.order[i];
        assert z in zones.order;
        var bucket := zones.buckets[z];
        assert NewZoneRows(logs, date)[..i + 1] == NewZoneRows(logs, date)[..i] + [NewZoneRows(logs, date)[i]];
        zoneRows := zoneRows + [ZoneRow(z, date, bucket.violationCount, |bucket.employeeIds|)];
      }
      assert NewZoneRows(logs, date)[..|zones.order|] == NewZoneRows(logs, date);
    }

    /** The body of the loop of reaggregateDay. */
    method ReaggregateOrganization(owners: ZoneOwners, date: int, w: OrgDay)
      modifies this
      ensures Snapshot() == Rewritten(old(Snapshot()), owners, date, w)
    {
      var org := w.organizationId;
      var total, hourMap, zones := AggregateDay(w.logs);
      daily := daily[DayKey(org, date) := DailyRow(w.facts, total)];
      hourly := map k | k in hourly && !(k.organizationId == org && k.date == date) :: hourly[k];
      CreateHours(org, date, hourMap, w.logs);
      zoneRows := Filter(zoneRows, r => KeptZoneRow(owners, org, date, r));
      assert zoneRows == DeletedZones(old(zoneRows), owners, org, date);
      CreateZones(date, zones, w.logs);
    }

    /** reaggregateDay over the target organizations, employee rows aside. */
    method ReaggregateDay(owners: ZoneOwners, date: int, work: seq<OrgDay>)
      modifies this
      ensures Snapshot() == AfterDay(old(Snapshot()), owners, date, work)
    {
      for i := 0 to |work|
        invariant Snapshot() == AfterDay(old(Snapshot()), owners, date, work[..i])
      {
        ReaggregateOrganization(owners, date, work[i]);
        assert work[..i + 1][..i] == work[..i];
      }
      assert work[..|work|] == work;
    }
  }
}
