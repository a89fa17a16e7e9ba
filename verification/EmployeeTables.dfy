// The nine tables that refer to employees; each lifecycle operation is one atomic transaction.
module EmployeeTables {
  import opened Wrappers
  import opened Strings

  type EmployeeId = string
  type RowId = string

  datatype Status = Active | Exception | OtherStatus | Deleted

  /** `memoOriginalId` is the original id an older archive note in the memo names, if any. */
  datatype Employee = Employee(name: string, organizationId: string, status: Status,
                               originalEmployeeId: Option<EmployeeId>, memoOriginalId: Option<EmployeeId>)

  datatype TableName =
    | PolicyEmployee | Exclusion | ControlLog | DailyStat | ZoneVisit | AppUsage | WorkSession | Device | Account

  /** A row: its employee, the rest of its unique key (the date of a daily stat, the policy of
      an assignment) and whether it is active (accounts and devices). */
  datatype Row = Row(employeeId: Option<EmployeeId>, key: string, active: bool)

  type Table = map<RowId, Row>

  datatype Tables = Tables(
    policyEmployees: Table, exclusions: Table,
    controlLogs: Table, dailyStats: Table, zoneVisits: Table, appUsages: Table, workSessions: Table,
    devices: Table, accounts: Table
  ) {
    function At(n: TableName): Table {
      match n
      case PolicyEmployee => policyEmployees
      case Exclusion => exclusions
      case ControlLog => controlLogs
      case DailyStat => dailyStats
      case ZoneVisit => zoneVisits
      case AppUsage => appUsages
      case WorkSession => workSessions
      case Device => devices
      case Account => accounts
    }
  }

  datatype Db = Db(employees: map<EmployeeId, Employee>, tables: Tables)

  datatype LifecycleError = NotFound | BadRequest | Conflict

  /** Logs, stats and sessions. */
  predicate IsHistory(n: TableName) {
    n in {ControlLog, DailyStat, ZoneVisit, AppUsage, WorkSession}
  }

  // ----- table operations -----

  /** updateMany({ where: { employeeId: from }, data: { employeeId: to } }) */
  function UpdateOwner(t: Table, from: EmployeeId, to: Option<EmployeeId>): Table {
    map r | r in t :: if t[r].employeeId == Some(from) then t[r].(employeeId := to) else t[r]
  }

  /** updateMany({ where: { employeeId: from }, data: { employeeId: to, <active flag> } }) */
  function UpdateOwnerActive(t: Table, from: EmployeeId, to: Option<EmployeeId>, active: bool): Table {
    map r | r in t :: if t[r].employeeId == Some(from) then t[r].(employeeId := to, active := active) else t[r]
  }

  /** deleteMany({ where: { employeeId: id } }) */
  function DeleteOwned(t: Table, id: EmployeeId): Table {
    map r | r in t && t[r].employeeId != Some(id) :: t[r]
  }

  predicate Owns(t: Table, id: EmployeeId) {
    exists r :: r in t && t[r].employeeId == Some(id)
  }

  /** The history tables re-pointed. */
  function RepointedHistory(t: Tables, from: EmployeeId, to: EmployeeId): Tables {
    t.(controlLogs := UpdateOwner(t.controlLogs, from, Some(to)),
       dailyStats := UpdateOwner(t.dailyStats, from, Some(to)),
       zoneVisits := UpdateOwner(t.zoneVisits, from, Some(to)),
       appUsages := UpdateOwner(t.appUsages, from, Some(to)),
       workSessions := UpdateOwner(t.workSessions, from, Some(to)))
  }

  /** The rows of an employee. */
  function RowsOf(t: Table, id: EmployeeId): set<RowId> {
    set r | r in t && t[r].employeeId == Some(id)
  }

  /** Re-pointing the history leaves the old id nothing and gives the new id the rows of both;
      everybody else's rows and the other tables stay as they were. */
  lemma RepointingUnites(t: Tables, from: EmployeeId, to: EmployeeId, n: TableName)
    requires from != to
    ensures var was, now := t.At(n), RepointedHistory(t, from, to).At(n);
            if !IsHistory(n) then now == was
            else
              && now.Keys == was.Keys
              && RowsOf(now, from) == {} && RowsOf(now, to) == RowsOf(was, from) + RowsOf(was, to)
              && forall r :: r in was && r !in RowsOf(was, from) ==> now[r] == was[r]
  {
    var was, now := t.At(n), RepointedHistory(t, from, to).At(n);
    if IsHistory(n) {
      assert now == UpdateOwner(was, from, Some(to));
      forall r ensures r in RowsOf(now, to) <==> r in RowsOf(was, from) + RowsOf(was, to) {
      }
    }
  }

  /** It can be undone exactly if the new id had no history, as a fresh archive id has none. */
  lemma RepointingIsUndoneIff(t: Tables, from: EmployeeId, to: EmployeeId)
    requires from != to
    ensures RepointedHistory(RepointedHistory(t, from, to), to, from) == t
      <==> forall n :: IsHistory(n) ==> RowsOf(t.At(n), to) == {}
  {
    UndoneIff(t.controlLogs, from, to);
    UndoneIff(t.dailyStats, from, to);
    UndoneIff(t.zoneVisits, from, to);
    UndoneIff(t.appUsages, from, to);
    UndoneIff(t.workSessions, from, to);
    NoHistoryIff(t, to);
  }

  lemma NoHistoryIff(t: Tables, id: EmployeeId)
    ensures (forall n :: IsHistory(n) ==> RowsOf(t.At(n), id) == {})
      <==> RowsOf(t.controlLogs, id) + RowsOf(t.dailyStats, id) + RowsOf(t.zoneVisits, id)
           + RowsOf(t.appUsages, id) + RowsOf(t.workSessions, id) == {}
  {
    if forall n :: IsHistory(n) ==> RowsOf(t.At(n), id) == {} {
      assert RowsOf(t.At(ControlLog), id) == RowsOf(t.At(DailyStat), id) == RowsOf(t.At(ZoneVisit), id) == {};
      assert RowsOf(t.At(AppUsage), id) == RowsOf(t.At(WorkSession), id) == {};
    } else {
      var n :| IsHistory(n) && RowsOf(t.At(n), id) != {};
      var r :| r in RowsOf(t.At(n), id);
      assert r in RowsOf(t.controlLogs, id) + RowsOf(t.dailyStats, id) + RowsOf(t.zoneVisits, id)
                  + RowsOf(t.appUsages, id) + RowsOf(t.workSessions, id);
    }
  }

  lemma UndoneIff(t: Table, from: EmployeeId, to: EmployeeId)
    requires from != to
    ensures UpdateOwner(UpdateOwner(t, from, Some(to)), to, Some(from)) == t <==> RowsOf(t, to) == {}
  {
    var back := UpdateOwner(UpdateOwner(t, from, Some(to)), to, Some(from));
    if r :| r in RowsOf(t, to) {
      assert back[r].employeeId == Some(from);
    } else {
      assert forall r :: r in t ==> r !in RowsOf(t, to);
    }
  }

  /** All nine tables re-pointed. */
  function Repointed(t: Tables, from: EmployeeId, to: EmployeeId): Tables {
    RepointedHistory(t, from, to).(
      policyEmployees := UpdateOwner(t.policyEmployees, from, Some(to)),
      exclusions := UpdateOwner(t.exclusions, from, Some(to)),
      devices := UpdateOwner(t.devices, from, Some(to)),
      accounts := UpdateOwner(t.accounts, from, Some(to)))
  }

  /** What archiving does to the tables. */
  function ArchivedTables(t: Tables, id: EmployeeId, archiveId: EmployeeId): Tables {
    RepointedHistory(t, id, archiveId).(
      policyEmployees := DeleteOwned(t.policyEmployees, id),
      exclusions := DeleteOwned(t.exclusions, id),
      devices := UpdateOwnerActive(t.devices, id, Some(archiveId), false),
      accounts := UpdateOwnerActive(t.accounts, id, Some(archiveId), false))
  }

  /** What hard deletion does to the tables: history moves to the anchor, devices are set free
      and the rest goes. */
  function HardDeletedTables(t: Tables, id: EmployeeId, anchorId: EmployeeId): Tables {
    RepointedHistory(t, id, anchorId).(
      policyEmployees := DeleteOwned(t.policyEmployees, id),
      exclusions := DeleteOwned(t.exclusions, id),
      devices := UpdateOwnerActive(t.devices, id, None, false),
      accounts := DeleteOwned(t.accounts, id))
  }

  /** What restoring adds to re-pointing: the account and the devices work again. */
  function ReactivatedTables(t: Tables, id: EmployeeId): Tables {
    t.(accounts := UpdateOwnerActive(t.accounts, id, Some(id), true),
        devices := UpdateOwnerActive(t.devices, id, Some(id), true))
  }

  // ----- the transactions -----

  function ArchiveRecord(e: Employee, id: EmployeeId, name: string, keepMemo: bool): Employee {
    Employee(name, e.organizationId, Deleted, Some(id), if keepMemo then e.memoOriginalId else None)
  }

  /** Archiving, as deletion (which drops the memo) and id reassignment (which keeps it) share
      it. The archive id ends in a random UUID; creating it fails when it is taken. */
  function Archive(db: Db, id: EmployeeId, archiveId: EmployeeId, name: string,
          keepMemo: bool): Result<Db, LifecycleError> {
    if id !in db.employees then Failure(NotFound)
    else if archiveId in db.employees then Failure(Conflict)
    else Success(Db(db.employees[archiveId := ArchiveRecord(db.employees[id], id, name, keepMemo)] - {id},
                    ArchivedTables(db.tables, id, archiveId)))
  }

  /** removeEmployeeById */
  function RemoveEmployee(db: Db, id: EmployeeId, archiveId: EmployeeId): Result<Db, LifecycleError> {
    var name := if id in db.employees then db.employees[id].name else "";
    Archive(db, id, archiveId, if name == "" then "삭제된 직원" else name, false)
  }

  /** Change an employee's id; an employee who has that id already is archived first, if the
      administrator confirmed it. */
  function Reassign(db: Db, current: EmployeeId, requested: EmployeeId, confirmed: bool,
          archiveId: EmployeeId): Result<Db, LifecycleError> {
    if current !in db.employees then Failure(NotFound)
    else if db.employees[current].status == Deleted then Failure(NotFound)
    else if requested == "" then Failure(BadRequest)
    else if requested == current then Success(db)
    else if requested in db.employees && !confirmed then Failure(Conflict)
    else
      var cleared := if requested in db.employees
          then Archive(db, requested, archiveId, db.employees[requested].name, true) else Success(db);
      if cleared.Failure? then cleared
      else Success(Renamed(cleared.value, current, requested))
  }

  /** The row an id reassignment creates: a placeholder that takes over the organization only.
      A new row is active until the caller's update sets another status. */
  function Placeholder(e: Employee): Employee {
    Employee("임시", e.organizationId, Active, None, None)
  }

  /** Create the new row, re-point everything, delete the old row. */
  function Renamed(db: Db, from: EmployeeId, to: EmployeeId): Db
    requires from in db.employees
  {
    Db(db.employees[to := Placeholder(db.employees[from])] - {from}, Repointed(db.tables, from, to))
  }

  /** The id an archived employee had: the recorded one, or the one an old archive note names. */
  function OriginalIdForRestore(e: Employee): Option<EmployeeId> {
    if e.originalEmployeeId.Some? && !Blank(e.originalEmployeeId.value) then Some(Trim(e.originalEmployeeId.value))
    else e.memoOriginalId
  }

  /** Where a restored employee goes; None when no company can be found for it. */
  datatype RestoreContext = RestoreContext(organizationId: string, status: Status)

  function Restore(db: Db, id: EmployeeId, context: Option<RestoreContext>): Result<Db, LifecycleError> {
    if id !in db.employees then Failure(NotFound)
    else if db.employees[id].status != Deleted then Failure(BadRequest)
    else if OriginalIdForRestore(db.employees[id]).None? then Failure(BadRequest)
    else
      var original := OriginalIdForRestore(db.employees[id]).value;
      if original in db.employees then Failure(Conflict)
      else if context.None? then Failure(BadRequest)
      else Success(Db(db.employees[original :=
        Employee(db.employees[id].name, context.value.organizationId, context.value.status,
                                                         None, db.employees[id].memoOriginalId)] - {id},
                      ReactivatedTables(Repointed(db.tables, id, original), original)))
  }

  function HardDelete(db: Db, id: EmployeeId, anchorId: EmployeeId): Result<Db, LifecycleError> {
    if id !in db.employees || db.employees[id].status != Deleted || OriginalIdForRestore(db.employees[id]).None?
        then Failure(NotFound)
    else if anchorId in db.employees then Failure(Conflict)
    else Success(Db(db.employees[anchorId :=
      Employee("삭제된 사용자", db.employees[id].organizationId, Deleted, None, None)] - {id},
                    HardDeletedTables(db.tables, id, anchorId)))
  }
}
