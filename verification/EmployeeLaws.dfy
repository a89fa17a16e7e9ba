// What each lifecycle operation does to the employees and to every row, operation by operation.
module EmployeeLaws {
  import opened Wrappers
  import opened Strings
  import opened EmployeeTables

  // ----- one table before and after -----

  /** The rows of `id` are gone, all others are as they were. */
  ghost predicate RowsGone(before: Table, after: Table, id: EmployeeId) {
    && (forall r :: r in after <==> r in before && before[r].employeeId != Some(id))
    && forall r :: r in after ==> after[r] == before[r]
  }

  /** The rows of `id` belong to `to`, all others are as they were. */
  ghost predicate RowsPassed(before: Table, after: Table, id: EmployeeId, to: EmployeeId) {
    && after.Keys == before.Keys
    && forall r :: r in before ==>
         after[r] == if before[r].employeeId != Some(id) then before[r]
                     else Row(Some(to), before[r].key, before[r].active)
  }

  /** The rows of `id` belong to `to` and are inactive, all others are as they were. */
  ghost predicate RowsRetired(before: Table, after: Table, id: EmployeeId, to: Option<EmployeeId>) {
    && after.Keys == before.Keys
    && forall r :: r in before ==>
         after[r] == if before[r].employeeId == Some(id) then Row(to, before[r].key, false) else before[r]
  }

  /** The rows of `id`, and those that bear the restored id already, belong to it and are active. */
  ghost predicate RowsRevived(before: Table, after: Table, id: EmployeeId, original: EmployeeId) {
    && after.Keys == before.Keys
    && forall r :: r in before ==>
         after[r] == if before[r].employeeId in {Some(id), Some(original)} then Row(Some(original), before[r].key, true)
                     else before[r]
  }

  ghost predicate HistoryPassed(before: Tables, after: Tables, id: EmployeeId, to: EmployeeId) {
    && RowsPassed(before.controlLogs, after.controlLogs, id, to)
    && RowsPassed(before.dailyStats, after.dailyStats, id, to)
    && RowsPassed(before.zoneVisits, after.zoneVisits, id, to)
    && RowsPassed(before.appUsages, after.appUsages, id, to)
    && RowsPassed(before.workSessions, after.workSessions, id, to)
  }

  ghost predicate AssignmentsGone(before: Tables, after: Tables, id: EmployeeId) {
    && RowsGone(before.policyEmployees, after.policyEmployees, id)
    && RowsGone(before.exclusions, after.exclusions, id)
  }

  /** `to` has taken the place of `id`; every other employee is as before. */
  ghost predicate Replaced(before: map<EmployeeId, Employee>, after: map<EmployeeId, Employee>, id: EmployeeId,
          to: EmployeeId, record: Employee) {
    && id in before && to !in before && id !in after && to in after && after[to] == record
    && forall e :: e != id && e != to ==> (e in after <==> e in before) && (e in before ==> after[e] == before[e])
  }

  /** What is left of a deleted or superseded employee: a deleted record that knows its old id, the
      history, and the devices and the account, which no longer work. */
  ghost predicate Archived(before: Db, after: Db, id: EmployeeId, archiveId: EmployeeId, record: Employee) {
    && Replaced(before.employees, after.employees, id, archiveId, record)
    && record.status.Deleted? && record.originalEmployeeId == Some(id)
    && HistoryPassed(before.tables, after.tables, id, archiveId)
    && AssignmentsGone(before.tables, after.tables, id)
    && RowsRetired(before.tables.devices, after.tables.devices, id, Some(archiveId))
    && RowsRetired(before.tables.accounts, after.tables.accounts, id, Some(archiveId))
  }

  // ----- the operations -----

  lemma ArchiveMeans(db: Db, id: EmployeeId, archiveId: EmployeeId, name: string, keepMemo: bool)
    requires id in db.employees && archiveId !in db.employees
    ensures var (e, r) := (db.employees[id], Archive(db, id, archiveId, name, keepMemo));
            var memo := if keepMemo then e.memoOriginalId else None;
            var record := Employee(name, e.organizationId, Deleted, Some(id), memo);
            r.Success? && Archived(db, r.value, id, archiveId, record)
  {
    ArchivedTablesMean(db.tables, id, archiveId);
  }

  lemma ArchivedTablesMean(t: Tables, id: EmployeeId, archiveId: EmployeeId)
    ensures var after := ArchivedTables(t, id, archiveId);
            && HistoryPassed(t, after, id, archiveId) && AssignmentsGone(t, after, id)
            && RowsRetired(t.devices, after.devices, id, Some(archiveId))
            && RowsRetired(t.accounts, after.accounts, id, Some(archiveId))
  {
    HistoryMeans(t, id, archiveId);
  }

  lemma HistoryMeans(t: Tables, id: EmployeeId, to: EmployeeId)
    ensures HistoryPassed(t, RepointedHistory(t, id, to), id, to)
  {
  }

  /** Deletion archives the employee without its memo, under its name or a stand-in for a blank
      one; a missing employee or a taken archive id is refused. */
  lemma RemoveMeans(db: Db, id: EmployeeId, archiveId: EmployeeId)
    ensures id !in db.employees ==> RemoveEmployee(db, id, archiveId) == Failure(NotFound)
    ensures id in db.employees && archiveId in db.employees ==> RemoveEmployee(db, id, archiveId) == Failure(Conflict)
    ensures id in db.employees && archiveId !in db.employees ==>
              var (e, r) := (db.employees[id], RemoveEmployee(db, id, archiveId));
              var name := if e.name == "" then "삭제된 직원" else e.name;
              var record := Employee(name, e.organizationId, Deleted, Some(id), None);
              r.Success? && Archived(db, r.value, id, archiveId, record)
  {
    if id in db.employees && archiveId !in db.employees {
      var name := if db.employees[id].name == "" then "삭제된 직원" else db.employees[id].name;
      ArchiveMeans(db, id, archiveId, name, false);
    }
  }

  /** The employee has the new id: a placeholder record in the same organization and every row of
      the nine tables. */
  ghost predicate Renumbered(before: Db, after: Db, id: EmployeeId, to: EmployeeId) {
    && id in before.employees
    && Replaced(before.employees, after.employees, id, to,
                Employee("임시", before.employees[id].organizationId, Active, None, None))
    && HistoryPassed(before.tables, after.tables, id, to)
    && RowsPassed(before.tables.policyEmployees, after.tables.policyEmployees, id, to)
    && RowsPassed(before.tables.exclusions, after.tables.exclusions, id, to)
    && RowsPassed(before.tables.devices, after.tables.devices, id, to)
    && RowsPassed(before.tables.accounts, after.tables.accounts, id, to)
  }

  lemma RenamedMeans(db: Db, id: EmployeeId, to: EmployeeId)
    requires id in db.employees && to !in db.employees
    ensures Renumbered(db, Renamed(db, id, to), id, to)
  {
    HistoryMeans(db.tables, id, to);
  }

  /** Reassigning an id: only for an employee who is not deleted and to an id that is not blank;
      a free id is taken over, an id in use only on confirmation, after its holder was archived with
      name and memo. */
  lemma ReassignMeans(db: Db, current: EmployeeId, requested: EmployeeId, confirmed: bool, archiveId: EmployeeId)
    ensures var r := Reassign(db, current, requested, confirmed, archiveId);
            if current !in db.employees || db.employees[current].status.Deleted? then r == Failure(NotFound)
            else if requested == "" then r == Failure(BadRequest)
            else if requested == current then r == Success(db)
            else if requested !in db.employees then r.Success? && Renumbered(db, r.value, current, requested)
            else if !confirmed || archiveId in db.employees then r == Failure(Conflict)
            else
              exists mid :: r.Success? && Renumbered(mid, r.value, current, requested)
                            && Archived(db, mid, requested, archiveId, HolderRecord(db.employees[requested], requested))
  {
    if current in db.employees && !db.employees[current].status.Deleted? && requested != "" && requested != current {
      if requested !in db.employees {
        RenamedMeans(db, current, requested);
      } else if confirmed && archiveId !in db.employees {
        var mid := Archive(db, requested, archiveId, db.employees[requested].name, true).value;
        ArchiveMeans(db, requested, archiveId, db.employees[requested].name, true);
        RenamedMeans(mid, current, requested);
        assert Archived(db, mid, requested, archiveId, HolderRecord(db.employees[requested], requested));
      }
    }
  }

  ghost function HolderRecord(e: Employee, id: EmployeeId): Employee {
    Employee(e.name, e.organizationId, Deleted, Some(id), e.memoOriginalId)
  }

  /** The id to restore: the recorded one if it is not blank, else the one named in the memo. */
  ghost predicate IsOriginalId(e: Employee, original: EmployeeId) {
    if e.originalEmployeeId.Some? && Trim(e.originalEmployeeId.value) != ""
    then original == Trim(e.originalEmployeeId.value)
    else e.memoOriginalId == Some(original)
  }

  /** Restoring: only a deleted employee with an original id that is free; the employee is back in
      the organization and with the status of the context, with every row, and the devices and the
      account work. */
  lemma RestoreMeans(db: Db, id: EmployeeId, context: Option<RestoreContext>)
    ensures id !in db.employees ==> Restore(db, id, context) == Failure(NotFound)
    ensures id in db.employees && !db.employees[id].status.Deleted? ==> Restore(db, id, context) == Failure(BadRequest)
    ensures id in db.employees && (forall original :: !IsOriginalId(db.employees[id], original)) ==>
              Restore(db, id, context) == Failure(BadRequest)
    ensures forall original ::
              id in db.employees && db.employees[id].status.Deleted? && IsOriginalId(db.employees[id], original)
              ==> if original in db.employees then Restore(db, id, context) == Failure(Conflict)
                  else if context.None? then Restore(db, id, context) == Failure(BadRequest)
                  else Restore(db, id, context).Success?
                       && Restored(db, Restore(db, id, context).value, id, original, context.value)
  {
    forall original | id in db.employees && db.employees[id].status.Deleted? && IsOriginalId(db.employees[id], original)
        && original !in db.employees && context.Some?
      ensures Restore(db, id, context).Success?
      ensures Restored(db, Restore(db, id, context).value, id, original, context.value)
    {
      HistoryMeans(db.tables, id, original);
      RevivedMeans(db.tables.devices, id, original);
      RevivedMeans(db.tables.accounts, id, original);
    }
    if id in db.employees && db.employees[id].status.Deleted? && OriginalIdForRestore(db.employees[id]).Some? {
      assert IsOriginalId(db.employees[id], OriginalIdForRestore(db.employees[id]).value);
    }
  }

  ghost predicate Restored(before: Db, after: Db, id: EmployeeId, original: EmployeeId, context: RestoreContext) {
    && id in before.employees
    && Replaced(before.employees, after.employees, id, original,
                Employee(before.employees[id].name, context.organizationId, context.status, None,
                         before.employees[id].memoOriginalId))
    && HistoryPassed(before.tables, after.tables, id, original)
    && RowsPassed(before.tables.policyEmployees, after.tables.policyEmployees, id, original)
    && RowsPassed(before.tables.exclusions, after.tables.exclusions, id, original)
    && RowsRevived(before.tables.devices, after.tables.devices, id, original)
    && RowsRevived(before.tables.accounts, after.tables.accounts, id, original)
  }

  lemma RevivedMeans(t: Table, id: EmployeeId, original: EmployeeId)
    ensures var after := UpdateOwnerActive(UpdateOwner(t, id, Some(original)), original, Some(original), true);
      RowsRevived(t, after, id, original)
  {
  }

  /** Hard deletion: only of a deleted employee with an original id; the history goes to an
      anonymous anchor without one, devices are inactive and nobody's, and the rest is gone. */
  lemma HardDeleteMeans(db: Db, id: EmployeeId, anchorId: EmployeeId)
    ensures id !in db.employees || !db.employees[id].status.Deleted?
              || (forall original :: !IsOriginalId(db.employees[id], original))
            ==> HardDelete(db, id, anchorId) == Failure(NotFound)
    ensures forall original ::
              id in db.employees && db.employees[id].status.Deleted? && IsOriginalId(db.employees[id], original)
              ==> if anchorId in db.employees then HardDelete(db, id, anchorId) == Failure(Conflict)
                  else
                    var r := HardDelete(db, id, anchorId);
                    r.Success? && Erased(db, r.value, id, anchorId)
  {
    if id in db.employees && db.employees[id].status.Deleted? && OriginalIdForRestore(db.employees[id]).Some? {
      assert IsOriginalId(db.employees[id], OriginalIdForRestore(db.employees[id]).value);
      HistoryMeans(db.tables, id, anchorId);
    }
  }

  ghost predicate Erased(before: Db, after: Db, id: EmployeeId, anchorId: EmployeeId) {
    && id in before.employees
    && Replaced(before.employees, after.employees, id, anchorId,
                Employee("삭제된 사용자", before.employees[id].organizationId, Deleted, None, None))
    && HistoryPassed(before.tables, after.tables, id, anchorId)
    && AssignmentsGone(before.tables, after.tables, id)
    && RowsRetired(before.tables.devices, after.tables.devices, id, None)
    && RowsGone(before.tables.accounts, after.tables.accounts, id)
  }
}
