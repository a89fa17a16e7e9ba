// The lifecycle transactions as the service runs them, statement by statement.
module EmployeeStore {
  import opened Wrappers
  import opened EmployeeTables

  class EmployeeStore {
    var employees: map<EmployeeId, Employee>
    var policyEmployees: Table
    var exclusions: Table
    var controlLogs: Table
    var dailyStats: Table
    var zoneVisits: Table
    var appUsages: Table
    var workSessions: Table
    var devices: Table
    var accounts: Table

    /** The nine tables as one value. */
    ghost function Rows(): Tables
      reads this
    {
      Tables(policyEmployees, exclusions, controlLogs, dailyStats, zoneVisits, appUsages, workSessions,
          devices, accounts)
    }

    ghost function Snapshot(): Db
      reads this
    {
      Db(employees, Rows())
    }

    constructor ()
      ensures Snapshot() == Db(map[], Tables(map[], map[], map[], map[], map[], map[], map[], map[], map[]))
    {
      employees := map[];
      policyEmployees, exclusions, devices, accounts := map[], map[], map[], map[];
      controlLogs, dailyStats, zoneVisits, appUsages, workSessions := map[], map[], map[], map[], map[];
    }

    /** repointEmployeeReferences: eight bulk updates, then the account if there is one. */
    method RepointEmployeeReferences(from: EmployeeId, to: EmployeeId)
      modifies this
      ensures Rows() == Repointed(old(Rows()), from, to) && employees == old(employees)
    {
      policyEmployees := UpdateOwner(policyEmployees, from, Some(to));
      exclusions := UpdateOwner(exclusions, from, Some(to));
      controlLogs := UpdateOwner(controlLogs, from, Some(to));
      dailyStats := UpdateOwner(dailyStats, from, Some(to));
      zoneVisits := UpdateOwner(zoneVisits, from, Some(to));
      appUsages := UpdateOwner(appUsages, from, Some(to));
      workSessions := UpdateOwner(workSessions, from, Some(to));
      devices := UpdateOwner(devices, from, Some(to));
      assert !Owns(accounts, from)
          ==> UpdateOwner(accounts, from, Some(to)) == accounts by { NothingToUpdate(accounts, from, Some(to)); }
      if Owns(accounts, from) {
        accounts := UpdateOwner(accounts, from, Some(to));
      }
    }

    /** repointEmployeeAnalyticsReferences: the history tables only. */
    method RepointEmployeeAnalyticsReferences(from: EmployeeId, to: EmployeeId)
      modifies this
      ensures Rows() == RepointedHistory(old(Rows()), from, to) && employees == old(employees)
      ensures from != to ==> forall n :: IsHistory(n) ==>
        && RowsOf(Rows().At(n), from) == {}
        && RowsOf(Rows().At(n), to) == RowsOf(old(Rows()).At(n), from) + RowsOf(old(Rows()).At(n), to)
    {
      if from != to {
        forall n { RepointingUnites(Rows(), from, to, n); }
      }
      controlLogs := UpdateOwner(controlLogs, from, Some(to));
      dailyStats := UpdateOwner(dailyStats, from, Some(to));
      zoneVisits := UpdateOwner(zoneVisits, from, Some(to));
      appUsages := UpdateOwner(appUsages, from, Some(to));
      workSessions := UpdateOwner(workSessions, from, Some(to));
    }

    /** The table statements shared by removeEmployeeById and moveEmployeeToDeletedArchive. */
    method ArchiveRows(id: EmployeeId, archiveId: EmployeeId)
      modifies this
      ensures Rows() == ArchivedTables(old(Rows()), id, archiveId) && employees == old(employees)
    {
      policyEmployees := DeleteOwned(policyEmployees, id);
      exclusions := DeleteOwned(exclusions, id);
      devices := UpdateOwnerActive(devices, id, Some(archiveId), false);
      RepointEmployeeAnalyticsReferences(id, archiveId);
      NothingToUpdateActive(accounts, id, Some(archiveId), false);
      if Owns(accounts, id) {
        accounts := UpdateOwnerActive(accounts, id, Some(archiveId), false);
      }
    }

    method RemoveEmployeeById(id: EmployeeId, archiveId: EmployeeId) returns (r: Result<(), LifecycleError>)
      modifies this
      ensures var spec := RemoveEmployee(old(Snapshot()), id, archiveId);
              if spec.Success? then r.Success? && Snapshot() == spec.value
                  else r == Failure(spec.error) && unchanged(this)
    {
      if id !in employees {
        return Failure(NotFound);
      }
      if archiveId in employees {
        return Failure(Conflict);
      }
      var employee := employees[id];
      employees := employees[archiveId :=
          ArchiveRecord(employee, id, if employee.name == "" then "삭제된 직원" else employee.name, false)];
      ArchiveRows(id, archiveId);
      employees := employees - {id};
      r := Success(());
    }

    /** The service runs this inside the transaction of an id reassignment. An employee who does
        not exist is left alone. */
    method MoveEmployeeToDeletedArchive(id: EmployeeId, archiveId: EmployeeId)
      returns (r: Result<Option<EmployeeId>, LifecycleError>)
      modifies this
      ensures id !in old(employees) ==> r == Success(None) && unchanged(this)
      ensures id in old(employees) ==>
        var spec := Archive(old(Snapshot()), id, archiveId, old(employees)[id].name, true);
        if spec.Success? then r == Success(Some(archiveId)) && Snapshot() == spec.value
        else r == Failure(spec.error) && unchanged(this)
    {
      if id !in employees {
        return Success(None);
      }
      if archiveId in employees {
        return Failure(Conflict);
      }
      var source := employees[id];
      employees := employees[archiveId := ArchiveRecord(source, id, source.name, true)];
      ArchiveRows(id, archiveId);
      employees := employees - {id};
      r := Success(Some(archiveId));
    }

    method ReassignEmployeeId(current: EmployeeId, requested: EmployeeId, confirmed: bool, archiveId: EmployeeId)
      returns (r: Result<(), LifecycleError>)
      modifies this
      ensures var spec := Reassign(old(Snapshot()), current, requested, confirmed, archiveId);
              if spec.Success? then r.Success? && Snapshot() == spec.value
                  else r == Failure(spec.error) && unchanged(this)
    {
      if current !in employees {
        return Failure(NotFound);
      }
      if employees[current].status == Deleted {
        return Failure(NotFound);
      }
      if requested == "" {
        return Failure(BadRequest);
      }
      if requested == current {
        return Success(());
      }
      if requested in employees {
        if !confirmed {
          return Failure(Conflict);
        }
        var moved := MoveEmployeeToDeletedArchive(requested, archiveId);
        if moved.Failure? {
          return Failure(moved.error);
        }
      }
      employees := employees[requested := Placeholder(employees[current])];
      RepointEmployeeReferences(current, requested);
      employees := employees - {current};
      r := Success(());
    }

    method RestoreDeletedEmployee(id: EmployeeId, context: Option<RestoreContext>)
      returns (r: Result<(), LifecycleError>)
      modifies this
      ensures var spec := Restore(old(Snapshot()), id, context);
              if spec.Success? then r.Success? && Snapshot() == spec.value
                  else r == Failure(spec.error) && unchanged(this)
    {
      if id !in employees {
        return Failure(NotFound);
      }
      var deletedEmployee := employees[id];
      if deletedEmployee.status != Deleted {
        return Failure(BadRequest);
      }
      var original := OriginalIdForRestore(deletedEmployee);
      if original.None? {
        return Failure(BadRequest);
      }
      var originalId := original.value;
      if originalId in employees {
        return Failure(Conflict);
      }
      if context.None? {
        return Failure(BadRequest);
      }
      employees := employees[originalId :=
          Employee(deletedEmployee.name, context.value.organizationId, context.value.status,
                                                    None, deletedEmployee.memoOriginalId)];
      RepointEmployeeReferences(id, originalId);
      employees := employees - {id};
      accounts := UpdateOwnerActive(accounts, originalId, Some(originalId), true);
      devices := UpdateOwnerActive(devices, originalId, Some(originalId), true);
      r := Success(());
    }

    method HardDeleteDeletedEmployeeById(id: EmployeeId, anchorId: EmployeeId) returns (r: Result<(), LifecycleError>)
      modifies this
      ensures var spec := HardDelete(old(Snapshot()), id, anchorId);
              if spec.Success? then r.Success? && Snapshot() == spec.value
                  else r == Failure(spec.error) && unchanged(this)
    {
      if id !in employees || employees[id].status != Deleted || OriginalIdForRestore(employees[id]).None? {
        return Failure(NotFound);
      }
      if anchorId in employees {
        return Failure(Conflict);
      }
      var anchor := Employee("삭제된 사용자", employees[id].organizationId, Deleted, None, None);
      employees := employees[anchorId := anchor];
      RepointEmployeeAnalyticsReferences(id, anchorId);
      policyEmployees := DeleteOwned(policyEmployees, id);
      exclusions := DeleteOwned(exclusions, id);
      devices := UpdateOwnerActive(devices, id, None, false);
      assert !Owns(accounts, id) ==> DeleteOwned(accounts, id) == accounts by { NothingToDelete(accounts, id); }
      if Owns(accounts, id) {
        accounts := DeleteOwned(accounts, id);
      }
      employees := employees - {id};
      r := Success(());
    }
  }

  lemma NothingToUpdate(t: Table, from: EmployeeId, to: Option<EmployeeId>)
    ensures !Owns(t, from) ==> UpdateOwner(t, from, to) == t
  {
  }

  lemma NothingToUpdateActive(t: Table, from: EmployeeId, to: Option<EmployeeId>, active: bool)
    ensures !Owns(t, from) ==> UpdateOwnerActive(t, from, to, active) == t
  {
  }

  lemma NothingToDelete(t: Table, id: EmployeeId)
    ensures !Owns(t, id) ==> DeleteOwned(t, id) == t
  {
  }
}
