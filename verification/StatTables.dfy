// The derived tables of a day and how re-aggregation rewrites them, organization by organization.
module StatTables {
  import opened Wrappers
  import opened Organizations
  import opened StatCounts
  import opened StatDay

  /** What a day row holds besides the counters: head counts and the compliance rate. */
  datatype Facts = Facts(totalEmployees: nat, activeDevices: nat, complianceRate: Option<real>)

  datatype DayKey = DayKey(organizationId: OrgId, date: int)
  datatype DailyRow = DailyRow(facts: Facts, counts: Counts)
  datatype HourKey = HourKey(organizationId: OrgId, date: int, hour: int)
  datatype ZoneRow = ZoneRow(zoneId: ZoneId, date: int, violationCount: nat, uniqueEmployees: nat)

  datatype Db = Db(daily: map<DayKey, DailyRow>, hourly: map<HourKey, Counts>, zoneRows: seq<ZoneRow>)

  /** The organization of each zone. */
  type ZoneOwners = map<ZoneId, OrgId>

  predicate Owned(owners: ZoneOwners, z: ZoneId, org: OrgId) {
    z in owners && owners[z] == org
  }

  /** The logs of one organization and day, as the query returns them. */
  datatype OrgDay = OrgDay(organizationId: OrgId, logs: seq<Log>, facts: Facts)

  // ----- one organization -----

  function DeletedHours(hourly: map<HourKey, Counts>, org: OrgId, date: int): map<HourKey, Counts> {
    map k | k in hourly && !(k.organizationId == org && k.date == date) :: hourly[k]
  }

  predicate KeptZoneRow(owners: ZoneOwners, org: OrgId, date: int, r: ZoneRow) {
    !(r.date == date && Owned(owners, r.zoneId, org))
  }

  function DeletedZones(rows: seq<ZoneRow>, owners: ZoneOwners, org: OrgId, date: int): seq<ZoneRow> {
    Filter(rows, r => KeptZoneRow(owners, org, date, r))
  }

  function NewZoneRow(logs: seq<Log>, date: int, z: ZoneId): ZoneRow {
    ZoneRow(z, date, BucketOf(logs, z).violationCount, |BucketOf(logs, z).employeeIds|)
  }

  function NewZoneRows(logs: seq<Log>, date: int): (rows: seq<ZoneRow>)
    ensures |rows| == |ZonesOf(logs)|
    ensures forall i :: 0 <= i < |rows| ==> rows[i] == NewZoneRow(logs, date, ZonesOf(logs)[i])
  {
    seq(|ZonesOf(logs)|, i requires 0 <= i < |ZonesOf(logs)| => NewZoneRow(logs, date, ZonesOf(logs)[i]))
  }

  /** The hour rows after an organization was rewritten. */
  ghost predicate HoursRewritten(was: map<HourKey, Counts>, now: map<HourKey, Counts>, org: OrgId, date: int,
          logs: seq<Log>) {
    forall k: HourKey :: if k.organizationId == org && k.date == date
      then (k in now <==> 0 <= k.hour < 24) && (k in now ==> now[k] == CountsOf(With(logs, HourOf, k.hour)))
      else (k in now <==> k in was) && (k in now ==> now[k] == was[k])
  }

  function HourRows(org: OrgId, date: int, logs: seq<Log>, n: nat): map<HourKey, Counts> {
    if n == 0 then map[] else HourRows(org, date, logs, n - 1)[HourKey(org, date, n - 1) :=
        CountsOf(With(logs, HourOf, n - 1))]
  }

  function Rewritten(db: Db, owners: ZoneOwners, date: int, w: OrgDay): Db {
    Db(db.daily[DayKey(w.organizationId, date) := DailyRow(w.facts, CountsOf(w.logs))],
       DeletedHours(db.hourly, w.organizationId, date) + HourRows(w.organizationId, date, w.logs, 24),
       DeletedZones(db.zoneRows, owners, w.organizationId, date) + NewZoneRows(w.logs, date))
  }

  lemma {:induction false} HourRowsHold(org: OrgId, date: int, logs: seq<Log>, n: nat, k: HourKey)
    ensures k in HourRows(org, date, logs, n) <==> k.organizationId == org && k.date == date && 0 <= k.hour < n
    ensures k in HourRows(org, date, logs, n)
      ==> HourRows(org, date, logs, n)[k] == CountsOf(With(logs, HourOf, k.hour))
  {
    if n > 0 { HourRowsHold(org, date, logs, n - 1, k); }
  }

  lemma RewritesHours(db: Db, owners: ZoneOwners, date: int, w: OrgDay)
    ensures HoursRewritten(db.hourly, Rewritten(db, owners, date, w).hourly, w.organizationId, date, w.logs)
  {
    forall k: HourKey { HourRowsHold(w.organizationId, date, w.logs, 24, k); }
  }

  // ----- several organizations -----

  function AfterDay(db: Db, owners: ZoneOwners, date: int, work: seq<OrgDay>): Db {
    if work == [] then db else Rewritten(AfterDay(db, owners, date, work[..|work| - 1]), owners, date, work[|work| - 1])
  }

  function WorkOf(work: seq<OrgDay>, org: OrgId): Option<OrgDay> {
    if work == [] then None
    else if work[|work| - 1].organizationId == org then Some(work[|work| - 1])
    else WorkOf(work[..|work| - 1], org)
  }

  lemma {:induction false} DailyRowOfDay(db: Db, owners: ZoneOwners, date: int, work: seq<OrgDay>, k: DayKey)
    ensures var now := AfterDay(db, owners, date, work).daily;
            var w := WorkOf(work, k.organizationId);
            if k.date == date && w.Some? then k in now && now[k] == DailyRow(w.value.facts, CountsOf(w.value.logs))
            else (k in now <==> k in db.daily) && (k in now ==> now[k] == db.daily[k])
  {
    if work != [] { DailyRowOfDay(db, owners, date, work[..|work| - 1], k); }
  }

  lemma {:induction false} HourRowOfDay(db: Db, owners: ZoneOwners, date: int, work: seq<OrgDay>, k: HourKey)
    ensures var now := AfterDay(db, owners, date, work).hourly;
            var w := WorkOf(work, k.organizationId);
            if k.date == date && w.Some? then (k in now <==> 0 <= k.hour < 24) && (k in now
                ==> now[k] == CountsOf(With(w.value.logs, HourOf, k.hour)))
            else (k in now <==> k in db.hourly) && (k in now ==> now[k] == db.hourly[k])
  {
    if work != [] {
      var n := |work| - 1;
      HourRowOfDay(db, owners, date, work[..n], k);
      RewritesHours(AfterDay(db, owners, date, work[..n]), owners, date, work[n]);
    }
  }

  /** A counter summed over the stored hours of a day. */
  function HourTotal(hourly: map<HourKey, Counts>, org: OrgId, date: int, hours: seq<int>, c: Counter): nat {
    if hours == [] then 0
    else (if HourKey(org, date, hours[0]) in hourly then hourly[HourKey(org, date, hours[0])].Of(c) else 0)
         + HourTotal(hourly, org, date, hours[1..], c)
  }

  /** After the run, the 24 hour rows of every organization in it add up to its day row, counter
      by counter, and that is the count over its logs. */
  lemma DayAndHoursAgree(db: Db, owners: ZoneOwners, date: int, work: seq<OrgDay>, org: OrgId, c: Counter)
    requires WorkOf(work, org).Some?
    ensures var after := AfterDay(db, owners, date, work);
            && DayKey(org, date) in after.daily
            && HourTotal(after.hourly, org, date, UpTo(24), c) == after.daily[DayKey(org, date)].counts.Of(c)
            && after.daily[DayKey(org, date)].counts.Of(c) == Count(c, WorkOf(work, org).value.logs)
  {
    var after, logs := AfterDay(db, owners, date, work), WorkOf(work, org).value.logs;
    DailyRowOfDay(db, owners, date, work, DayKey(org, date));
    UpToIsDistinct(24);
    forall h | h in UpTo(24) ensures HourKey(org, date, h) in after.hourly
        && after.hourly[HourKey(org, date, h)].Of(c) == Count(c, With(logs, HourOf, h)) {
      HourRowOfDay(db, owners, date, work, HourKey(org, date, h));
    }
    HourTotalIsCount(after.hourly, org, date, UpTo(24), c, logs);
    HoursConserve(c, logs);
  }

  lemma {:induction false} HourTotalIsCount(hourly: map<HourKey, Counts>, org: OrgId, date: int, hours: seq<int>,
          c: Counter, logs: seq<Log>)
    requires forall h :: h in hours ==>
               HourKey(org, date, h) in hourly && hourly[HourKey(org, date, h)].Of(c) == Count(c, With(logs, HourOf, h))
    ensures HourTotal(hourly, org, date, hours, c) == CountOver(c, hours, logs, HourOf)
  {
    if hours != [] { HourTotalIsCount(hourly, org, date, hours[1..], c, logs); }
  }

  ghost predicate OneEach(work: seq<OrgDay>) {
    forall i, j :: 0 <= i < j < |work| ==> work[i].organizationId != work[j].organizationId
  }
}
