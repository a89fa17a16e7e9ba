// Runs of the employee lifecycle: the histories of two people never mix, no history row is lost.
module EmployeeLifecycle {
  import opened Wrappers
  import opened Strings
  import opened EmployeeTables

  /** One transaction of the lifecycle, or one of the two ordinary additions between them:
      a new employee and a new row for an employee who exists. */
  datatype Step =
    | DoRemove(id: EmployeeId, archiveId: EmployeeId)
    | DoReassign(current: EmployeeId, requested: EmployeeId, confirmed: bool, archiveId: EmployeeId)
    | DoRestore(id: EmployeeId, context: Option<RestoreContext>)
    | DoHardDelete(id: EmployeeId, anchorId: EmployeeId)
    | Hire(id: EmployeeId, employee: Employee)
    | Record(table: TableName, rowId: RowId, row: Row)

  /** A failed transaction leaves the database as it was. */
  function Apply(db: Db, s: Step): Db {
    match s
    case DoRemove(id, archiveId) => Outcome(db, RemoveEmployee(db, id, archiveId))
    case DoReassign(current, requested, confirmed, archiveId) => Outcome(db,
        Reassign(db, current, requested, confirmed, archiveId))
    case DoRestore(id, context) => Outcome(db, Restore(db, id, context))
    case DoHardDelete(id, anchorId) => Outcome(db, HardDelete(db, id, anchorId))
    case Hire(id, e) => if id in db.employees then db else db.(employees := db.employees[id := e])
    case Record(n, rowId, row) => if CanRecord(db, n, rowId, row)
        then db.(tables := Put(db.tables, n, db.tables.At(n)[rowId := row])) else db
  }

  function Outcome(db: Db, r: Result<Db, LifecycleError>): Db {
    if r.Success? then r.value else db
  }

  function Run(db: Db, steps: seq<Step>): Db
    decreases |steps|
  {
    if steps == [] then db else Run(Apply(db, steps[0]), steps[1..])
  }

  function Put(t: Tables, n: TableName, table: Table): Tables {
    match n
    case PolicyEmployee => t.(policyEmployees := table)
    case Exclusion => t.(exclusions := table)
    case ControlLog => t.(controlLogs := table)
    case DailyStat => t.(dailyStats := table)
    case ZoneVisit => t.(zoneVisits := table)
    case AppUsage => t.(appUsages := table)
    case WorkSession => t.(workSessions := table)
    case Device => t.(devices := table)
    case Account => t.(accounts := table)
  }

  /** The database's own checks on an insert: a free row id, an existing employee and, for the
      tables with a unique key, no second row for the same employee and key. */
  predicate CanRecord(db: Db, n: TableName, rowId: RowId, row: Row) {
    && rowId !in db.tables.At(n)
    && (row.employeeId.Some? ==> row.employeeId.value in db.employees)
    && (n != Device ==> row.employeeId.Some?)
    && (HasUniqueKey(n) ==> forall r :: r in db.tables.At(n) ==> !SameKey(n, db.tables.At(n)[r], row))
  }

  predicate HasUniqueKey(n: TableName) {
    n in {DailyStat, Account, PolicyEmployee}
  }

  /** Daily stats and assignments are unique per employee and key, accounts per employee. */
  predicate SameKey(n: TableName, a: Row, b: Row) {
    a.employeeId == b.employeeId && (n == Account || a.key == b.key)
  }

  /** A row is taken under a free id, for an existing employee or a free device; a daily stat and an
      assignment need a new key for the employee, an account an employee without one. */
  lemma CanRecordIff(db: Db, n: TableName, rowId: RowId, row: Row)
    ensures CanRecord(db, n, rowId, row)
      <==> && rowId !in db.tables.At(n)
           && (if row.employeeId.None? then n.Device? else row.employeeId.value in db.employees)
           && (n.DailyStat? || n.PolicyEmployee? ==> forall r :: r in db.tables.At(n) ==>
                db.tables.At(n)[r].employeeId != row.employeeId || db.tables.At(n)[r].key != row.key)
           && (n.Account? ==> forall r :: r in db.tables.At(n) ==>
                db.tables.At(n)[r].employeeId != row.employeeId)
  {
  }

  // ----- the invariant -----

  /** Every reference names an existing employee; only a device may have none. */
  ghost predicate RefersToEmployees(db: Db, n: TableName) {
    forall r :: r in db.tables.At(n) ==>
      if db.tables.At(n)[r].employeeId.Some? then db.tables.At(n)[r].employeeId.value in db.employees else n == Device
  }

  ghost predicate KeysUnique(db: Db, n: TableName) {
    forall a, b :: a in db.tables.At(n) && b in db.tables.At(n) && a != b
        ==> !SameKey(n, db.tables.At(n)[a], db.tables.At(n)[b])
  }

  ghost predicate Consistent(db: Db) {
    && (forall n :: RefersToEmployees(db, n))
    && (forall n :: HasUniqueKey(n) ==> KeysUnique(db, n))
  }

  ghost predicate AllRefer(db: Db, t: Table) {
    forall r :: r in t ==> t[r].employeeId.Some? && t[r].employeeId.value in db.employees
  }

  /** Two rows of one employee have different keys. */
  ghost predicate KeysDiffer(t: Table) {
    forall a, b :: a in t && b in t && a != b && t[a].employeeId == t[b].employeeId ==> t[a].key != t[b].key
  }

  /** Every row but that of a free device refers to an employee; an employee has one account, one
      daily stat for each day and one assignment to each policy. */
  ghost predicate TablesConsistent(db: Db, t: Tables) {
    && AllRefer(db, t.policyEmployees) && AllRefer(db, t.exclusions) && AllRefer(db, t.controlLogs)
    && AllRefer(db, t.dailyStats) && AllRefer(db, t.zoneVisits) && AllRefer(db, t.appUsages)
    && AllRefer(db, t.workSessions) && AllRefer(db, t.accounts)
    && (forall r :: r in t.devices && t.devices[r].employeeId.Some? ==> t.devices[r].employeeId.value in db.employees)
    && KeysDiffer(t.dailyStats) && KeysDiffer(t.policyEmployees)
    && forall a, b ::
         a in t.accounts && b in t.accounts && a != b ==> t.accounts[a].employeeId != t.accounts[b].employeeId
  }

  lemma ConsistentIff(db: Db)
    ensures Consistent(db) <==> TablesConsistent(db, db.tables)
  {
    if Consistent(db) { ConsistentSays(db); }
    if TablesConsistent(db, db.tables) {
      forall n ensures RefersToEmployees(db, n) {
      }
      forall n | HasUniqueKey(n) ensures KeysUnique(db, n) {
      }
    }
  }

  lemma ConsistentSays(db: Db)
    requires Consistent(db)
    ensures TablesConsistent(db, db.tables)
  {
    var t := db.tables;
    TablesByName(t);
    assert RefersToEmployees(db, PolicyEmployee) && RefersToEmployees(db, Exclusion);
    assert RefersToEmployees(db, ControlLog) && RefersToEmployees(db, DailyStat) && RefersToEmployees(db, ZoneVisit);
    assert RefersToEmployees(db, AppUsage) && RefersToEmployees(db, WorkSession);
    assert RefersToEmployees(db, Device) && RefersToEmployees(db, Account);
    assert KeysUnique(db, DailyStat) && KeysUnique(db, PolicyEmployee) && KeysUnique(db, Account);
  }

  lemma TablesByName(t: Tables)
    ensures t.At(PolicyEmployee) == t.policyEmployees && t.At(Exclusion) == t.exclusions
    ensures t.At(ControlLog) == t.controlLogs && t.At(DailyStat) == t.dailyStats && t.At(ZoneVisit) == t.zoneVisits
    ensures t.At(AppUsage) == t.appUsages && t.At(WorkSession) == t.workSessions
    ensures t.At(Device) == t.devices && t.At(Account) == t.accounts
  {
  }

  /** A new employee has a new id, and nobody else is touched. */
  lemma HireMeans(db: Db, id: EmployeeId, e: Employee)
    ensures Apply(db, Hire(id, e)).tables == db.tables
    ensures forall x :: x in db.employees ==>
              x in Apply(db, Hire(id, e)).employees && Apply(db, Hire(id, e)).employees[x] == db.employees[x]
    ensures forall x :: x in Apply(db, Hire(id, e)).employees <==> x in db.employees || x == id
    ensures id !in db.employees ==> Apply(db, Hire(id, e)).employees[id] == e
  {
  }

  // ----- what runs keep -----

  /** Every history row of `a` is still in `b`, and two of them share an employee in `b`
      exactly when they did in `a`. */
  ghost predicate HistoryKept(a: Db, b: Db) {
    && (forall n, r :: IsHistory(n) && r in a.tables.At(n)
         ==> r in b.tables.At(n) && b.tables.At(n)[r].key == a.tables.At(n)[r].key)
    && (forall m, q, n, r :: IsHistory(m) && q in a.tables.At(m) && IsHistory(n) && r in a.tables.At(n) ==>
          (b.tables.At(m)[q].employeeId == b.tables.At(n)[r].employeeId
           <==> a.tables.At(m)[q].employeeId == a.tables.At(n)[r].employeeId))
  }

  lemma HistoryKeptTransitive(a: Db, b: Db, c: Db)
    requires HistoryKept(a, b) && HistoryKept(b, c)
    ensures HistoryKept(a, c)
  {
    forall m, q, n, r | IsHistory(m) && q in a.tables.At(m) && IsHistory(n) && r in a.tables.At(n)
      ensures c.tables.At(m)[q].employeeId == c.tables.At(n)[r].employeeId
        <==> a.tables.At(m)[q].employeeId == a.tables.At(n)[r].employeeId
    {
      assert q in b.tables.At(m) && r in b.tables.At(n);
    }
  }

  /** What any of the operations may do to one table: rows of `from` become rows of `to` or
      go, devices may be set free, and history tables keep every row. */
  ghost predicate TableMoves(n: TableName, a: Table, b: Table, from: EmployeeId, to: EmployeeId) {
    && b.Keys <= a.Keys && (IsHistory(n) ==> b.Keys == a.Keys)
    && forall r :: r in b ==> RowMoves(n, a[r], b[r], from, to)
  }

  ghost predicate RowMoves(n: TableName, a: Row, b: Row, from: EmployeeId, to: EmployeeId) {
    && b.key == a.key
    && if n == Device && b.employeeId == None then true
       else b.employeeId == if a.employeeId == Some(from) then Some(to) else a.employeeId
  }

  /** What archiving, renaming, restoring and erasing have in common: `to` is created, the
      tables move, and `from` is deleted. */
  ghost predicate Moves(a: Db, b: Db, from: EmployeeId, to: EmployeeId) {
    && from in a.employees && to !in a.employees
    && b.employees.Keys == a.employees.Keys + {to} - {from}
    && forall n :: TableMoves(n, a.tables.At(n), b.tables.At(n), from, to)
  }

  /** Handing one employee's rows to somebody who owns none keeps histories apart, references
      alive and keys unique. */
  lemma MoveIsSafe(a: Db, b: Db, from: EmployeeId, to: EmployeeId)
    requires Consistent(a) && Moves(a, b, from, to)
    ensures Consistent(b) && HistoryKept(a, b)
  {
    forall n ensures RefersToEmployees(b, n) && (HasUniqueKey(n) ==> KeysUnique(b, n)) {
      assert RefersToEmployees(a, n) && (HasUniqueKey(n) ==> KeysUnique(a, n));
      assert TableMoves(n, a.tables.At(n), b.tables.At(n), from, to);
      if HasUniqueKey(n) { MovingKeepsKeys(a, b, from, to, n); }
    }
    forall n, r | IsHistory(n) && r in a.tables.At(n)
      ensures r in b.tables.At(n) && RowMoves(n, a.tables.At(n)[r], b.tables.At(n)[r], from, to)
      ensures a.tables.At(n)[r].employeeId.Some?
      ensures a.tables.At(n)[r].employeeId != Some(to) && b.tables.At(n)[r].employeeId.Some?
    {
      assert RefersToEmployees(a, n) && RefersToEmployees(b, n);
      assert TableMoves(n, a.tables.At(n), b.tables.At(n), from, to);
    }
  }

  lemma MovingKeepsKeys(a: Db, b: Db, from: EmployeeId, to: EmployeeId, n: TableName)
    requires RefersToEmployees(a, n) && KeysUnique(a, n) && to !in a.employees && HasUniqueKey(n)
    requires TableMoves(n, a.tables.At(n), b.tables.At(n), from, to)
    ensures KeysUnique(b, n)
  {
    var t, u := a.tables.At(n), b.tables.At(n);
    forall x, y | x in u && y in u && x != y ensures !SameKey(n, u[x], u[y]) {
      assert RowMoves(n, t[x], u[x], from, to) && RowMoves(n, t[y], u[y], from, to);
      assert !SameKey(n, t[x], t[y]);
    }
  }

  // ----- each operation is a move -----

  lemma UpdateMoves(n: TableName, t: Table, from: EmployeeId, to: EmployeeId, active: bool)
    ensures TableMoves(n, t, UpdateOwner(t, from, Some(to)), from, to)
    ensures TableMoves(n, t, UpdateOwnerActive(t, from, Some(to), active), from, to)
    ensures n == Device ==> TableMoves(n, t, UpdateOwnerActive(t, from, None, active), from, to)
    ensures !IsHistory(n) ==> TableMoves(n, t, DeleteOwned(t, from), from, to)
  {
  }

  lemma ReactivatedMoves(n: TableName, t: Table, from: EmployeeId, to: EmployeeId)
    requires !IsHistory(n)
    ensures TableMoves(n, t, UpdateOwnerActive(UpdateOwner(t, from, Some(to)), to, Some(to), true), from, to)
  {
  }

  lemma ArchiveMoves(db: Db, id: EmployeeId, archiveId: EmployeeId, name: string, keepMemo: bool)
    requires Archive(db, id, archiveId, name, keepMemo).Success?
    ensures Moves(db, Archive(db, id, archiveId, name, keepMemo).value, id, archiveId)
  {
    var b := Archive(db, id, archiveId, name, keepMemo).value;
    assert b.employees.Keys == db.employees.Keys + {archiveId} - {id};
    forall n ensures TableMoves(n, db.tables.At(n), b.tables.At(n), id, archiveId) {
      UpdateMoves(n, db.tables.At(n), id, archiveId, false);
    }
  }

  lemma RenamedMoves(db: Db, from: EmployeeId, to: EmployeeId)
    requires from in db.employees && to !in db.employees
    ensures Moves(db, Renamed(db, from, to), from, to)
  {
    var b := Renamed(db, from, to);
    assert b.employees.Keys == db.employees.Keys + {to} - {from};
    forall n ensures TableMoves(n, db.tables.At(n), b.tables.At(n), from, to) {
      UpdateMoves(n, db.tables.At(n), from, to, false);
    }
  }

  lemma RestoreMoves(db: Db, id: EmployeeId, context: Option<RestoreContext>)
    requires Restore(db, id, context).Success?
    ensures Moves(db, Restore(db, id, context).value, id, OriginalIdForRestore(db.employees[id]).value)
  {
    var original := OriginalIdForRestore(db.employees[id]).value;
    var b := Restore(db, id, context).value;
    assert b.employees.Keys == db.employees.Keys + {original} - {id};
    forall n ensures TableMoves(n, db.tables.At(n), b.tables.At(n), id, original) {
      UpdateMoves(n, db.tables.At(n), id, original, true);
      if !IsHistory(n) { ReactivatedMoves(n, db.tables.At(n), id, original); }
    }
  }

  lemma HardDeleteMoves(db: Db, id: EmployeeId, anchorId: EmployeeId)
    requires HardDelete(db, id, anchorId).Success?
    ensures Moves(db, HardDelete(db, id, anchorId).value, id, anchorId)
  {
    var b := HardDelete(db, id, anchorId).value;
    assert b.employees.Keys == db.employees.Keys + {anchorId} - {id};
    forall n ensures TableMoves(n, db.tables.At(n), b.tables.At(n), id, anchorId) {
      UpdateMoves(n, db.tables.At(n), id, anchorId, false);
    }
  }

  lemma ReassignIsSafe(db: Db, current: EmployeeId, requested: EmployeeId, confirmed: bool, archiveId: EmployeeId)
    requires Consistent(db)
    ensures var b := Outcome(db, Reassign(db, current, requested, confirmed, archiveId));
      Consistent(b) && HistoryKept(db, b)
  {
    var r := Reassign(db, current, requested, confirmed, archiveId);
    if r.Success? && requested != current {
      var mid := db;
      if requested in db.employees {
        ArchiveMoves(db, requested, archiveId, db.employees[requested].name, true);
        mid := Archive(db, requested, archiveId, db.employees[requested].name, true).value;
        MoveIsSafe(db, mid, requested, archiveId);
      }
      RenamedMoves(mid, current, requested);
      MoveIsSafe(mid, r.value, current, requested);
      HistoryKeptTransitive(db, mid, r.value);
    }
  }

  lemma PutAt(t: Tables, n: TableName, table: Table, m: TableName)
    ensures Put(t, n, table).At(m) == if m == n then table else t.At(m)
  {
  }

  lemma InsertKeepsKeys(db: Db, b: Db, n: TableName, rowId: RowId, row: Row)
    requires CanRecord(db, n, rowId, row) && HasUniqueKey(n) && KeysUnique(db, n)
    requires b.tables.At(n) == db.tables.At(n)[rowId := row]
    ensures KeysUnique(b, n)
  {
  }

  /** A recorded row joins its table; every other table stays. */
  lemma RecordMeans(db: Db, n: TableName, rowId: RowId, row: Row)
    requires CanRecord(db, n, rowId, row)
    ensures var b := Apply(db, Record(n, rowId, row));
      b.employees == db.employees && forall m ::
        b.tables.At(m) == if m == n then db.tables.At(n)[rowId := row] else db.tables.At(m)
  {
    forall m ensures Put(db.tables, n, db.tables.At(n)[rowId := row]).At(m)
        == if m == n then db.tables.At(n)[rowId := row] else db.tables.At(m) {
      PutAt(db.tables, n, db.tables.At(n)[rowId := row], m);
    }
  }

  lemma RecordKeepsHistory(db: Db, b: Db, n: TableName, rowId: RowId, row: Row)
    requires rowId !in db.tables.At(n)
    requires forall m :: b.tables.At(m) == if m == n then db.tables.At(n)[rowId := row] else db.tables.At(m)
    ensures HistoryKept(db, b)
  {
  }

  lemma RecordIsSafe(db: Db, n: TableName, rowId: RowId, row: Row)
    requires Consistent(db) && CanRecord(db, n, rowId, row)
    ensures Consistent(Apply(db, Record(n, rowId, row))) && HistoryKept(db, Apply(db, Record(n, rowId, row)))
  {
    var b := Apply(db, Record(n, rowId, row));
    RecordMeans(db, n, rowId, row);
    RecordKeepsHistory(db, b, n, rowId, row);
    forall m ensures RefersToEmployees(b, m) && (HasUniqueKey(m) ==> KeysUnique(b, m)) {
      assert RefersToEmployees(db, m) && (HasUniqueKey(m) ==> KeysUnique(db, m));
      if m == n && HasUniqueKey(m) { InsertKeepsKeys(db, b, n, rowId, row); }
    }
  }

  lemma StepIsSafe(db: Db, s: Step)
    requires Consistent(db)
    ensures Consistent(Apply(db, s)) && HistoryKept(db, Apply(db, s))
  {
    match s
    case DoRemove(id, archiveId) =>
      if RemoveEmployee(db, id, archiveId).Success? {
        var name := if db.employees[id].name == "" then "삭제된 직원" else db.employees[id].name;
        ArchiveMoves(db, id, archiveId, name, false);
        MoveIsSafe(db, Apply(db, s), id, archiveId);
      }
    case DoReassign(current, requested, confirmed, archiveId) => ReassignIsSafe(db, current, requested,
        confirmed, archiveId);
    case DoRestore(id, context) =>
      if Restore(db, id, context).Success? {
        RestoreMoves(db, id, context);
        MoveIsSafe(db, Apply(db, s), id, OriginalIdForRestore(db.employees[id]).value);
      }
    case DoHardDelete(id, anchorId) =>
      if HardDelete(db, id, anchorId).Success? {
        HardDeleteMoves(db, id, anchorId);
        MoveIsSafe(db, Apply(db, s), id, anchorId);
      }
    case Hire(id, e) =>
      forall n ensures RefersToEmployees(Apply(db, s), n) && (HasUniqueKey(n) ==> KeysUnique(Apply(db, s), n)) {
        assert RefersToEmployees(db, n) && (HasUniqueKey(n) ==> KeysUnique(db, n));
      }
    case Record(n, rowId, row) =>
      if CanRecord(db, n, rowId, row) { RecordIsSafe(db, n, rowId, row); }
  }

  /** Over any run: every reference still names an employee, the unique keys hold, no history
      row is lost, and two rows belong to the same person at the end iff they did at the start. */
  lemma {:induction false} HistoriesNeverMix(db: Db, steps: seq<Step>)
    requires Consistent(db)
    ensures Consistent(Run(db, steps)) && HistoryKept(db, Run(db, steps))
    decreases |steps|
  {
    if steps != [] {
      var next := Apply(db, steps[0]);
      StepIsSafe(db, steps[0]);
      HistoriesNeverMix(next, steps[1..]);
      HistoryKeptTransitive(db, next, Run(db, steps));
    }
  }

  // ----- undoing an archive -----

  /** Moving rows to somebody who owned none and back changes nothing. */
  lemma ThereAndBack(t: Table, from: EmployeeId, to: EmployeeId)
    requires forall r :: r in t ==> t[r].employeeId != Some(to)
    ensures UpdateOwner(UpdateOwner(t, from, Some(to)), to, Some(from)) == t
  {
  }

  lemma TablesThereAndBack(t: Tables, id: EmployeeId, archiveId: EmployeeId)
    requires forall n, r :: r in t.At(n) ==> t.At(n)[r].employeeId != Some(archiveId)
    ensures ReactivatedTables(Repointed(ArchivedTables(t, id, archiveId), archiveId, id), id) == t.(
              policyEmployees := DeleteOwned(t.policyEmployees, id),
              exclusions := DeleteOwned(t.exclusions, id),
              devices := UpdateOwnerActive(t.devices, id, Some(id), true),
              accounts := UpdateOwnerActive(t.accounts, id, Some(id), true))
  {
    ThereAndBack(t.At(ControlLog), id, archiveId);
    ThereAndBack(t.At(DailyStat), id, archiveId);
    ThereAndBack(t.At(ZoneVisit), id, archiveId);
    ThereAndBack(t.At(AppUsage), id, archiveId);
    ThereAndBack(t.At(WorkSession), id, archiveId);
    DeviceThereAndBack(t.At(Device), id, archiveId);
    DeviceThereAndBack(t.At(Account), id, archiveId);
    DeletedStays(t.At(PolicyEmployee), id, archiveId);
    DeletedStays(t.At(Exclusion), id, archiveId);
  }

  /** Restoring right after deletion gives every history row, device and account back to its
      employee, and the devices and the account work; only the policy assignments and the
      exclusions are gone for good. */
  lemma RestoreUndoesRemove(db: Db, id: EmployeeId, archiveId: EmployeeId, context: RestoreContext)
    requires Consistent(db) && id in db.employees && archiveId !in db.employees
    requires id != "" && Trim(id) == id
    ensures RemoveEmployee(db, id, archiveId).Success?
    ensures var r := Restore(RemoveEmployee(db, id, archiveId).value, archiveId, Some(context));
      && r.Success? && r.value.employees.Keys == db.employees.Keys
      && r.value.tables == db.tables.(
           policyEmployees := DeleteOwned(db.tables.policyEmployees, id),
           exclusions := DeleteOwned(db.tables.exclusions, id),
           devices := UpdateOwnerActive(db.tables.devices, id, Some(id), true),
           accounts := UpdateOwnerActive(db.tables.accounts, id, Some(id), true))
  {
    var archived := RemoveEmployee(db, id, archiveId).value;
    forall n, r | r in db.tables.At(n) ensures db.tables.At(n)[r].employeeId != Some(archiveId) {
      assert RefersToEmployees(db, n);
    }
    TablesThereAndBack(db.tables, id, archiveId);
    assert archived.employees[archiveId].originalEmployeeId == Some(id) && id !in archived.employees;
    var b := Restore(archived, archiveId, Some(context)).value;
    assert b.employees.Keys == db.employees.Keys;
  }

  lemma DeviceThereAndBack(t: Table, id: EmployeeId, archiveId: EmployeeId)
    requires forall r :: r in t ==> t[r].employeeId != Some(archiveId)
    ensures UpdateOwnerActive(UpdateOwner(UpdateOwnerActive(t, id, Some(archiveId), false), archiveId, Some(id)),
      id, Some(id), true)
         == UpdateOwnerActive(t, id, Some(id), true)
  {
  }

  lemma DeletedStays(t: Table, id: EmployeeId, archiveId: EmployeeId)
    requires forall r :: r in t ==> t[r].employeeId != Some(archiveId)
    ensures UpdateOwner(DeleteOwned(t, id), archiveId, Some(id)) == DeleteOwned(t, id)
  {
  }

  /** What hard deletion leaves behind can be neither restored nor hard-deleted again. */
  lemma AnchorsAreFinal(db: Db, id: EmployeeId, anchorId: EmployeeId, context: Option<RestoreContext>,
          other: EmployeeId)
    requires HardDelete(db, id, anchorId).Success?
    ensures var b := HardDelete(db, id, anchorId).value;
      && anchorId in b.employees
      && Restore(b, anchorId, context) == Failure(BadRequest)
      && HardDelete(b, anchorId, other) == Failure(NotFound)
  {
  }
}
