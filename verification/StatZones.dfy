// The zone rows of a day: what the rewriting of one organization, and of a whole run, conserves,
// and what a second run over the same logs changes.
module StatZones {
  import opened Wrappers
  import opened Organizations
  import opened StatCounts
  import opened StatDay
  import opened StatTables

  /** The violations stored in the rows that satisfy `p`. */
  ghost function Violations(rows: seq<ZoneRow>, p: ZoneRow -> bool): nat {
    if rows == [] then 0 else (if p(rows[0]) then rows[0].violationCount else 0) + Violations(rows[1..], p)
  }

  lemma {:induction false} ViolationsConcat(a: seq<ZoneRow>, b: seq<ZoneRow>, p: ZoneRow -> bool)
    ensures Violations(a + b, p) == Violations(a, p) + Violations(b, p)
  {
    if a == [] {
      assert a + b == b;
    } else {
      assert (a + b)[1..] == a[1..] + b;
      ViolationsConcat(a[1..], b, p);
    }
  }

  /** Filtering away what `q` does not keep leaves the violations that both predicates select. */
  lemma {:induction false} ViolationsOfFilter(rows: seq<ZoneRow>, q: ZoneRow -> bool, p: ZoneRow -> bool,
          both: ZoneRow -> bool)
    requires forall r :: r in rows ==> both(r) == (q(r) && p(r))
    ensures Violations(Filter(rows, q), p) == Violations(rows, both)
  {
    if rows != [] {
      assert rows[0] in rows;
      ViolationsOfFilter(rows[1..], q, p, both);
    }
  }

  lemma {:induction false} NoViolations(rows: seq<ZoneRow>, p: ZoneRow -> bool)
    requires forall r :: r in rows ==> !p(r)
    ensures Violations(rows, p) == 0
  {
    if rows != [] {
      assert rows[0] in rows;
      NoViolations(rows[1..], p);
    }
  }

  /** The new rows of an organization store at most its blocked logs with a zone, and all of them
      exactly if every row is selected. */
  lemma {:induction false} NewRowsHold(logs: seq<Log>, date: int, zones: seq<ZoneId>, rows: seq<ZoneRow>,
          p: ZoneRow -> bool)
    requires |rows| == |zones|
    requires forall i :: 0 <= i < |rows| ==> zones[i] in ZonesOf(logs) && rows[i] == NewZoneRow(logs, date, zones[i])
    ensures Violations(rows, p) <= ZoneTotal(zones, logs)
    ensures Violations(rows, p) == ZoneTotal(zones, logs) <==> forall z :: z in zones ==> p(NewZoneRow(logs, date, z))
  {
    if rows != [] {
      assert zones[0] in zones;
      BucketIsPlausible(logs, zones[0]);
      NewRowsHold(logs, date, zones[1..], rows[1..], p);
      assert zones == [zones[0]] + zones[1..];
    }
  }

  lemma NewZoneRowsHold(logs: seq<Log>, date: int, p: ZoneRow -> bool)
    ensures Violations(NewZoneRows(logs, date), p) <= |Filter(logs, InZone)|
    ensures Violations(NewZoneRows(logs, date), p) == |Filter(logs, InZone)|
      <==> forall z :: z in ZonesOf(logs) ==> p(NewZoneRow(logs, date, z))
  {
    NewRowsHold(logs, date, ZonesOf(logs), NewZoneRows(logs, date), p);
    ZonesConserve(logs);
  }

  // ----- one organization -----

  /** Every zone in which the organization's logs were blocked belongs to the organization. */
  ghost predicate OwnZones(owners: ZoneOwners, org: OrgId, logs: seq<Log>) {
    forall z :: z in ZonesOf(logs) ==> Owned(owners, z, org)
  }

  /** The violations stored for the zones of an organization. */
  ghost function StoredViolations(rows: seq<ZoneRow>, owners: ZoneOwners, org: OrgId, date: int): nat {
    Violations(rows, r => !KeptZoneRow(owners, org, date, r))
  }

  /** After an organization was rewritten, the rows of its zones count its blocked logs that have
      a zone exactly if those zones are its own; otherwise they fall short. */
  lemma ZoneTableConservesIff(db: Db, owners: ZoneOwners, date: int, w: OrgDay)
    ensures var stored := StoredViolations(Rewritten(db, owners, date, w).zoneRows, owners, w.organizationId, date);
            && stored <= |Filter(w.logs, InZone)|
            && (stored == |Filter(w.logs, InZone)| <==> OwnZones(owners, w.organizationId, w.logs))
  {
    var kept := DeletedZones(db.zoneRows, owners, w.organizationId, date);
    var deleted := r => !KeptZoneRow(owners, w.organizationId, date, r);
    NoViolations(kept, deleted);
    ViolationsConcat(kept, NewZoneRows(w.logs, date), deleted);
    NewZoneRowsHold(w.logs, date, deleted);
  }

  // ----- a run over several organizations -----

  /** What a run does to the zone table. */
  function ZonesAfter(rows: seq<ZoneRow>, owners: ZoneOwners, date: int, work: seq<OrgDay>): seq<ZoneRow> {
    if work == [] then rows
    else
      var w := work[|work| - 1];
      DeletedZones(ZonesAfter(rows, owners, date, work[..|work| - 1]), owners, w.organizationId, date)
      + NewZoneRows(w.logs, date)
  }

  lemma {:induction false} ZonesAfterDay(db: Db, owners: ZoneOwners, date: int, work: seq<OrgDay>)
    ensures AfterDay(db, owners, date, work).zoneRows == ZonesAfter(db.zoneRows, owners, date, work)
  {
    if work != [] { ZonesAfterDay(db, owners, date, work[..|work| - 1]); }
  }

  lemma ZonesAfterAppend(rows: seq<ZoneRow>, owners: ZoneOwners, date: int, work: seq<OrgDay>, w: OrgDay)
    ensures ZonesAfter(rows, owners, date, work + [w])
         == DeletedZones(ZonesAfter(rows, owners, date, work), owners, w.organizationId, date)
            + NewZoneRows(w.logs, date)
  {
    assert (work + [w])[..|work|] == work;
  }

  /** The zone belongs to an organization of the run. */
  ghost predicate OwnedIn(owners: ZoneOwners, work: seq<OrgDay>, z: ZoneId) {
    exists v :: v in work && Owned(owners, z, v.organizationId)
  }

  /** A row that the `k`-th organization writes for the zone is one of the run's and stays: the
      owner of the zone is rewritten no later than the organization, and not again afterwards. */
  ghost predicate Stays(owners: ZoneOwners, work: seq<OrgDay>, k: nat, z: ZoneId)
    requires k < |work|
  {
    OwnedIn(owners, work[..k + 1], z) && !OwnedIn(owners, work[k + 1..], z)
  }

  ghost predicate OfRun(owners: ZoneOwners, date: int, work: seq<OrgDay>, r: ZoneRow) {
    r.date == date && OwnedIn(owners, work, r.zoneId)
  }

  /** The violations stored for the zones of all organizations of a run. */
  ghost function StoredByRun(rows: seq<ZoneRow>, owners: ZoneOwners, date: int, work: seq<OrgDay>): nat {
    Violations(rows, r => OfRun(owners, date, work, r))
  }

  /** The blocked logs with a zone in the whole run. */
  function BlockedInZones(work: seq<OrgDay>): nat {
    if work == [] then 0 else BlockedInZones(work[..|work| - 1]) + |Filter(work[|work| - 1].logs, InZone)|
  }

  lemma BlockedAppend(work: seq<OrgDay>, w: OrgDay)
    ensures BlockedInZones(work + [w]) == BlockedInZones(work) + |Filter(w.logs, InZone)|
  {
    assert (work + [w])[..|work|] == work;
  }

  /** The rows that the first `k` organizations leave for good. */
  ghost predicate Settled(owners: ZoneOwners, date: int, work: seq<OrgDay>, k: nat, r: ZoneRow)
    requires k <= |work|
  {
    OfRun(owners, date, work[..k], r) && !OwnedIn(owners, work[k..], r.zoneId)
  }

  ghost function SettledAt(owners: ZoneOwners, date: int, work: seq<OrgDay>, k: nat): ZoneRow -> bool
    requires k <= |work|
  {
    r => Settled(owners, date, work, k, r)
  }

  /** One more organization deletes none of the settled rows and settles no older ones. */
  lemma SettledStep(owners: ZoneOwners, date: int, work: seq<OrgDay>, k: nat, r: ZoneRow)
    requires k < |work|
    ensures Settled(owners, date, work, k, r)
      == (KeptZoneRow(owners, work[k].organizationId, date, r) && Settled(owners, date, work, k + 1, r))
  {
    assert work[k..] == [work[k]] + work[k + 1..];
    assert work[..k + 1] == work[..k] + [work[k]];
    assert work[k] in work[k..];
  }

  ghost predicate AllStay(owners: ZoneOwners, work: seq<OrgDay>, n: nat)
    requires n <= |work|
  {
    forall k, z :: 0 <= k < n && z in ZonesOf(work[k].logs) ==> Stays(owners, work, k, z)
  }

  lemma SettledIsStored(rows: seq<ZoneRow>, owners: ZoneOwners, date: int, work: seq<OrgDay>, k: nat)
    requires k < |work|
    ensures Violations(DeletedZones(rows, owners, work[k].organizationId, date) + NewZoneRows(work[k].logs, date),
                       SettledAt(owners, date, work, k + 1))
         == Violations(rows, SettledAt(owners, date, work, k))
            + Violations(NewZoneRows(work[k].logs, date), SettledAt(owners, date, work, k + 1))
  {
    var p := SettledAt(owners, date, work, k + 1);
    var org := work[k].organizationId;
    forall r: ZoneRow { SettledStep(owners, date, work, k, r); }
    ViolationsOfFilter(rows, r => KeptZoneRow(owners, org, date, r), p, SettledAt(owners, date, work, k));
    ViolationsConcat(DeletedZones(rows, owners, org, date), NewZoneRows(work[k].logs, date), p);
  }

  lemma NewRowsSettle(owners: ZoneOwners, date: int, work: seq<OrgDay>, k: nat)
    requires k < |work|
    ensures var settled := Violations(NewZoneRows(work[k].logs, date), SettledAt(owners, date, work, k + 1));
            && settled <= |Filter(work[k].logs, InZone)|
            && (settled == |Filter(work[k].logs, InZone)|
                <==> forall z :: z in ZonesOf(work[k].logs) ==> Stays(owners, work, k, z))
  {
    var p := SettledAt(owners, date, work, k + 1);
    NewZoneRowsHold(work[k].logs, date, p);
    assert forall z :: p(NewZoneRow(work[k].logs, date, z)) == Stays(owners, work, k, z);
  }

  lemma AllStayStep(owners: ZoneOwners, work: seq<OrgDay>, k: nat)
    requires k < |work|
    ensures AllStay(owners, work, k + 1)
      <==> AllStay(owners, work, k) && forall z :: z in ZonesOf(work[k].logs) ==> Stays(owners, work, k, z)
  {
    if AllStay(owners, work, k + 1) {
      assert forall z :: z in ZonesOf(work[k].logs) ==> Stays(owners, work, k, z);
    }
  }

  lemma {:induction false} SettledByRun(rows: seq<ZoneRow>, owners: ZoneOwners, date: int, work: seq<OrgDay>, n: nat)
    requires n <= |work|
    ensures var settled := Violations(ZonesAfter(rows, owners, date, work[..n]), SettledAt(owners, date, work, n));
            && settled <= BlockedInZones(work[..n])
            && (settled == BlockedInZones(work[..n]) <==> AllStay(owners, work, n))
  {
    if n == 0 {
      NoViolations(rows, SettledAt(owners, date, work, 0));
    } else {
      var k := n - 1;
      SettledByRun(rows, owners, date, work, k);
      assert work[..n] == work[..k] + [work[k]];
      ZonesAfterAppend(rows, owners, date, work[..k], work[k]);
      BlockedAppend(work[..k], work[k]);
      SettledIsStored(ZonesAfter(rows, owners, date, work[..k]), owners, date, work, k);
      NewRowsSettle(owners, date, work, k);
      AllStayStep(owners, work, k);
    }
  }

  /** After a run the rows of its zones count at most the blocked logs with a zone, and all of
      them exactly if every such zone belongs to an organization that the run rewrote no later
      than the one whose logs were blocked there, and did not rewrite again. */
  lemma RunConservesZonesIff(db: Db, owners: ZoneOwners, date: int, work: seq<OrgDay>)
    ensures var stored := StoredByRun(AfterDay(db, owners, date, work).zoneRows, owners, date, work);
            && stored <= BlockedInZones(work)
            && (stored == BlockedInZones(work) <==> AllStay(owners, work, |work|))
  {
    ZonesAfterDay(db, owners, date, work);
    SettledByRun(db.zoneRows, owners, date, work, |work|);
    assert work[..|work|] == work;
    var rows := AfterDay(db, owners, date, work).zoneRows;
    SameViolations(rows, SettledAt(owners, date, work, |work|), r => OfRun(owners, date, work, r));
  }

  lemma {:induction false} SameViolations(rows: seq<ZoneRow>, p: ZoneRow -> bool, q: ZoneRow -> bool)
    requires forall r :: r in rows ==> p(r) == q(r)
    ensures Violations(rows, p) == Violations(rows, q)
  {
    if rows != [] {
      assert rows[0] in rows;
      SameViolations(rows[1..], p, q);
    }
  }

  /** In a run that names each organization once, the second half of the condition is void: the
      owner has to come no later, which a child with a log in its parent's zone does not grant. */
  lemma OnceEachStays(owners: ZoneOwners, work: seq<OrgDay>, k: nat, z: ZoneId)
    requires OneEach(work) && k < |work|
    ensures Stays(owners, work, k, z) <==> OwnedIn(owners, work[..k + 1], z)
  {
    forall v, u | v in work[..k + 1] && u in work[k + 1..] ensures v.organizationId != u.organizationId {
      var i :| 0 <= i < k + 1 && work[i] == v;
      var j :| k + 1 <= j < |work| && work[j] == u;
    }
  }

  const BLOCKED_LOG := Log("e", Some("zone"), 0, Behavior, Block, None)
  const CHILD := OrgDay("child", [BLOCKED_LOG], Facts(0, 0, None))
  const PARENT := OrgDay("parent", [], Facts(0, 0, None))

  /** The parent, rewritten after its child, deletes the child's row of the parent's zone; the
      other way round the row is there at the end. */
  lemma ParentDeletesRowOfChild(db: Db, date: int)
    requires db.zoneRows == []
    ensures var owners := map["zone" := "parent"];
            && AfterDay(db, owners, date, [CHILD, PARENT]).zoneRows == []
            && AfterDay(db, owners, date, [PARENT, CHILD]).zoneRows == [ZoneRow("zone", date, 1, 1)]
  {
    var owners: ZoneOwners := map["zone" := "parent"];
    ZonesAfterDay(db, owners, date, [CHILD, PARENT]);
    ZonesAfterDay(db, owners, date, [PARENT, CHILD]);
    ZonesAfterTwo(owners, date, CHILD, PARENT);
    ZonesAfterTwo(owners, date, PARENT, CHILD);
    ChildWritesOneRow(date);
    assert [ZoneRow("zone", date, 1, 1)][1..] == [];
  }

  lemma ZonesAfterTwo(owners: ZoneOwners, date: int, a: OrgDay, b: OrgDay)
    ensures ZonesAfter([], owners, date, [a, b])
         == DeletedZones(NewZoneRows(a.logs, date), owners, b.organizationId, date) + NewZoneRows(b.logs, date)
  {
    ZonesAfterAppend([], owners, date, [], a);
    ZonesAfterAppend([], owners, date, [a], b);
    assert [] + [a] == [a] && [a] + [b] == [a, b];
    var none: seq<ZoneRow> := [];
    assert none + NewZoneRows(a.logs, date) == NewZoneRows(a.logs, date);
  }

  lemma NoLogNoRow(date: int)
    ensures ZonesOf([]) == [] && NewZoneRows([], date) == []
    ensures forall z :: ZoneLogs([], z) == []
  {
  }

  lemma ZonesOfOneLog(log: Log, z: ZoneId)
    requires InZone(log) && ZoneKey(log) == z
    ensures ZonesOf([log]) == [z] && ZoneLogs([log], z) == [log]
  {
    var none: seq<Log> := [];
    assert none + [log] == [log];
    NoLogNoRow(0);
    ZoneLogsAppend(none, log, z);
    ZonesOfAppend(none, log);
  }

  lemma OneLogOneRow(log: Log, z: ZoneId, date: int)
    requires InZone(log) && ZoneKey(log) == z
    ensures NewZoneRows([log], date) == [ZoneRow(z, date, 1, 1)]
  {
    ZonesOfOneLog(log, z);
    assert (set l | l in [log] :: l.employeeId) == {log.employeeId};
  }

  lemma ChildWritesOneRow(date: int)
    ensures NewZoneRows(CHILD.logs, date) == [ZoneRow("zone", date, 1, 1)]
    ensures NewZoneRows(PARENT.logs, date) == []
  {
    OneLogOneRow(BLOCKED_LOG, "zone", date);
    NoLogNoRow(date);
  }

  // ----- a second run over one organization -----

  lemma {:induction false} FilterAll<T(!new)>(s: seq<T>, p: T -> bool)
    requires forall x :: x in s ==> p(x)
    ensures Filter(s, p) == s
  {
    if s != [] {
      assert s[0] in s;
      FilterAll(s[1..], p);
      assert s == [s[0]] + s[1..];
    }
  }

  /** Rewriting one organization twice is rewriting it once exactly if its blocked logs lie in its
      own zones: its rows of foreign zones are added but not deleted by it. */
  lemma SecondRunIff(db: Db, owners: ZoneOwners, date: int, w: OrgDay)
    ensures Rewritten(Rewritten(db, owners, date, w), owners, date, w) == Rewritten(db, owners, date, w)
      <==> OwnZones(owners, w.organizationId, w.logs)
  {
    OneOrganization(db, owners, date, w);
    OneOrganization(Rewritten(db, owners, date, w), owners, date, w);
    SecondDayChangesNothingIff(db, owners, date, [w]);
    assert forall z :: OwnedIn(owners, [w], z) <==> Owned(owners, z, w.organizationId) by { assert [w][0] in [w]; }
  }

  lemma OneOrganization(db: Db, owners: ZoneOwners, date: int, w: OrgDay)
    ensures AfterDay(db, owners, date, [w]) == Rewritten(db, owners, date, w)
  {
    assert [w][..0] == [];
  }

  // ----- a second run over all organizations -----

  /** The older rows that survive a run. */
  function AllDeleted(rows: seq<ZoneRow>, owners: ZoneOwners, date: int, work: seq<OrgDay>): seq<ZoneRow> {
    if work == [] then rows
    else DeletedZones(AllDeleted(rows, owners, date, work[..|work| - 1]), owners, work[|work| - 1].organizationId, date)
  }

  /** The rows that a run writes and does not delete again itself. */
  function Added(owners: ZoneOwners, date: int, work: seq<OrgDay>): seq<ZoneRow> {
    if work == [] then []
    else
      var w := work[|work| - 1];
      DeletedZones(Added(owners, date, work[..|work| - 1]), owners, w.organizationId, date) + NewZoneRows(w.logs, date)
  }

  lemma Regroup(a: seq<ZoneRow>, b: seq<ZoneRow>, c: seq<ZoneRow>)
    ensures (a + b) + c == a + (b + c)
  {
  }

  lemma {:induction false} ZonesAfterParts(rows: seq<ZoneRow>, owners: ZoneOwners, date: int, work: seq<OrgDay>)
    ensures ZonesAfter(rows, owners, date, work) == AllDeleted(rows, owners, date, work) + Added(owners, date, work)
  {
    if work == [] {
      assert rows + [] == rows;
    } else {
      var n := |work| - 1;
      var org := work[n].organizationId;
      var older, added := AllDeleted(rows, owners, date, work[..n]), Added(owners, date, work[..n]);
      ZonesAfterParts(rows, owners, date, work[..n]);
      FilterConcat(older, added, r => KeptZoneRow(owners, org, date, r));
      Regroup(DeletedZones(older, owners, org, date), DeletedZones(added, owners, org, date),
              NewZoneRows(work[n].logs, date));
    }
  }

  ghost predicate KeptByAll(owners: ZoneOwners, date: int, work: seq<OrgDay>, r: ZoneRow) {
    forall w :: w in work ==> KeptZoneRow(owners, w.organizationId, date, r)
  }

  lemma {:induction false} DeletedAgain(rows: seq<ZoneRow>, owners: ZoneOwners, date: int, work: seq<OrgDay>,
          r: ZoneRow)
    ensures r in AllDeleted(rows, owners, date, work) <==> r in rows && KeptByAll(owners, date, work, r)
  {
    if work != [] {
      var n := |work| - 1;
      DeletedAgain(rows, owners, date, work[..n], r);
      assert work == work[..n] + [work[n]];
    }
  }

  lemma {:induction false} DeletesNothing(rows: seq<ZoneRow>, owners: ZoneOwners, date: int, work: seq<OrgDay>)
    requires forall r :: r in rows ==> KeptByAll(owners, date, work, r)
    ensures AllDeleted(rows, owners, date, work) == rows
  {
    if work != [] {
      var n := |work| - 1;
      DeletesNothing(rows, owners, date, work[..n]);
      assert work[n] in work;
      FilterAll(rows, r => KeptZoneRow(owners, work[n].organizationId, date, r));
    }
  }

  lemma {:induction false} AllDeletedConcat(a: seq<ZoneRow>, b: seq<ZoneRow>, owners: ZoneOwners, date: int,
          work: seq<OrgDay>)
    ensures AllDeleted(a + b, owners, date, work)
      == AllDeleted(a, owners, date, work) + AllDeleted(b, owners, date, work)
  {
    if work != [] {
      var n := |work| - 1;
      AllDeletedConcat(a, b, owners, date, work[..n]);
      FilterConcat(AllDeleted(a, owners, date, work[..n]), AllDeleted(b, owners, date, work[..n]),
                   r => KeptZoneRow(owners, work[n].organizationId, date, r));
    }
  }

  /** A row that no organization of the run deletes is added exactly if one of them writes it. */
  lemma {:induction false} AddedIff(owners: ZoneOwners, date: int, work: seq<OrgDay>, r: ZoneRow)
    requires KeptByAll(owners, date, work, r)
    ensures r in Added(owners, date, work) <==> exists w :: w in work && r in NewZoneRows(w.logs, date)
  {
    if work != [] {
      var n := |work| - 1;
      assert work == work[..n] + [work[n]];
      AddedIff(owners, date, work[..n], r);
    }
  }

  /** Every zone of a blocked log belongs to an organization of the run. */
  ghost predicate ZonesOwnedIn(owners: ZoneOwners, work: seq<OrgDay>) {
    forall w, z :: w in work && z in ZonesOf(w.logs) ==> OwnedIn(owners, work, z)
  }

  lemma NewRowIff(logs: seq<Log>, date: int, r: ZoneRow)
    ensures r in NewZoneRows(logs, date) <==> exists z :: z in ZonesOf(logs) && r == NewZoneRow(logs, date, z)
  {
    var rows, zones := NewZoneRows(logs, date), ZonesOf(logs);
    if r in rows {
      var i :| 0 <= i < |rows| && rows[i] == r;
      assert zones[i] in zones;
    }
    if z :| z in zones && r == NewZoneRow(logs, date, z) {
      var i :| 0 <= i < |zones| && zones[i] == z;
      assert rows[i] in rows;
    }
  }

  /** A run deletes all it added before exactly if every zone of its logs is its own. */
  lemma AddedIsDeletedIff(owners: ZoneOwners, date: int, work: seq<OrgDay>)
    ensures AllDeleted(Added(owners, date, work), owners, date, work) == [] <==> ZonesOwnedIn(owners, work)
  {
    var added := Added(owners, date, work);
    var left := AllDeleted(added, owners, date, work);
    if left != [] {
      var r := left[0];
      assert r in left;
      DeletedAgain(added, owners, date, work, r);
      AddedIff(owners, date, work, r);
      var w :| w in work && r in NewZoneRows(w.logs, date);
      NewRowIff(w.logs, date, r);
      assert !OwnedIn(owners, work, r.zoneId);
    } else {
      forall w, z | w in work && z in ZonesOf(w.logs) ensures OwnedIn(owners, work, z) {
        var r := NewZoneRow(w.logs, date, z);
        NewRowIff(w.logs, date, r);
        if !OwnedIn(owners, work, z) {
          AddedIff(owners, date, work, r);
          DeletedAgain(added, owners, date, work, r);
        }
      }
    }
  }

  /** A second run over the same logs leaves the derived tables as the first run left them exactly
      if every zone in which a log was blocked belongs to an organization of the run. */
  lemma SecondDayChangesNothingIff(db: Db, owners: ZoneOwners, date: int, work: seq<OrgDay>)
    ensures AfterDay(AfterDay(db, owners, date, work), owners, date, work) == AfterDay(db, owners, date, work)
      <==> ZonesOwnedIn(owners, work)
  {
    SecondDayKeepsZonesIff(db, owners, date, work);
    SecondDayKeepsDays(db, owners, date, work);
    SecondDayKeepsHours(db, owners, date, work);
  }

  lemma SecondDayKeepsZonesIff(db: Db, owners: ZoneOwners, date: int, work: seq<OrgDay>)
    ensures AfterDay(AfterDay(db, owners, date, work), owners, date, work).zoneRows
      == AfterDay(db, owners, date, work).zoneRows
      <==> ZonesOwnedIn(owners, work)
  {
    var once := AfterDay(db, owners, date, work);
    var kept, added := AllDeleted(db.zoneRows, owners, date, work), Added(owners, date, work);
    ZonesAfterDay(db, owners, date, work);
    ZonesAfterDay(once, owners, date, work);
    ZonesAfterParts(db.zoneRows, owners, date, work);
    ZonesAfterParts(once.zoneRows, owners, date, work);
    AllDeletedConcat(kept, added, owners, date, work);
    forall r | r in kept ensures KeptByAll(owners, date, work, r) {
      DeletedAgain(db.zoneRows, owners, date, work, r);
    }
    DeletesNothing(kept, owners, date, work);
    AddedIsDeletedIff(owners, date, work);
    var left := AllDeleted(added, owners, date, work);
    var twice := AfterDay(once, owners, date, work);
    assert twice.zoneRows == kept + left + added;
    assert twice.zoneRows == once.zoneRows <==> left == [] by {
      assert |twice.zoneRows| == |once.zoneRows| + |left|;
      if left == [] { assert kept + [] == kept; }
    }
  }

  lemma SecondDayKeepsDays(db: Db, owners: ZoneOwners, date: int, work: seq<OrgDay>)
    ensures AfterDay(AfterDay(db, owners, date, work), owners, date, work).daily
      == AfterDay(db, owners, date, work).daily
  {
    var once := AfterDay(db, owners, date, work);
    var twice := AfterDay(once, owners, date, work);
    forall k: DayKey ensures (k in twice.daily <==> k in once.daily)
        && (k in once.daily ==> twice.daily[k] == once.daily[k]) {
      DailyRowOfDay(db, owners, date, work, k);
      DailyRowOfDay(once, owners, date, work, k);
    }
  }

  lemma SecondDayKeepsHours(db: Db, owners: ZoneOwners, date: int, work: seq<OrgDay>)
    ensures AfterDay(AfterDay(db, owners, date, work), owners, date, work).hourly
      == AfterDay(db, owners, date, work).hourly
  {
    var once := AfterDay(db, owners, date, work);
    var twice := AfterDay(once, owners, date, work);
    forall k: HourKey ensures (k in twice.hourly <==> k in once.hourly)
        && (k in once.hourly ==> twice.hourly[k] == once.hourly[k]) {
      HourRowOfDay(db, owners, date, work, k);
      HourRowOfDay(once, owners, date, work, k);
    }
  }
}
