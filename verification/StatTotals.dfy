// The employee rows of a day against its organization rows.
module StatTotals {
  import opened Wrappers
  import opened Organizations
  import opened StatCounts
  import opened StatLogs
  import opened StatTables
  import opened StatEmployees

  lemma {:induction false} CountConcat(c: Counter, a: seq<Log>, b: seq<Log>)
    ensures Count(c, a + b) == Count(c, a) + Count(c, b)
  {
    if a == [] {
      assert a + b == b;
    } else {
      assert (a + b)[1..] == a[1..] + b;
      CountConcat(c, a[1..], b);
    }
  }

  /** The order of the logs does not matter. */
  lemma {:induction false} CountOfPermutation(c: Counter, a: seq<Log>, b: seq<Log>)
    requires multiset(a) == multiset(b)
    ensures Count(c, a) == Count(c, b)
  {
    if a == [] {
      assert |b| == |multiset(b)|;
    } else {
      assert a[0] in multiset(a);
      assert a[0] in b;
      var i :| 0 <= i < |b| && b[i] == a[0];
      var rest := b[..i] + b[i + 1..];
      TakeOut(c, a, 0);
      TakeOut(c, b, i);
      assert a[..0] + a[1..] == a[1..];
      assert multiset(a[1..]) == multiset(a) - multiset([a[0]]);
      assert multiset(rest) == multiset(b) - multiset([a[0]]);
      CountOfPermutation(c, a[1..], rest);
    }
  }

  lemma TakeOut(c: Counter, b: seq<Log>, i: nat)
    requires i < |b|
    ensures multiset(b) == multiset([b[i]]) + multiset(b[..i] + b[i + 1..])
    ensures Count(c, b) == Count(c, [b[i]]) + Count(c, b[..i] + b[i + 1..])
  {
    assert b == b[..i] + ([b[i]] + b[i + 1..]);
    CountConcat(c, b[..i], [b[i]] + b[i + 1..]);
    CountConcat(c, [b[i]], b[i + 1..]);
    CountConcat(c, b[..i], b[i + 1..]);
  }

  /** A counter summed over the day rows of the organizations of a run. */
  function DayTotal(daily: map<DayKey, DailyRow>, date: int, work: seq<OrgDay>, c: Counter): nat {
    if work == [] then 0
    else
      var k := DayKey(work[|work| - 1].organizationId, date);
      DayTotal(daily, date, work[..|work| - 1], c) + if k in daily then daily[k].counts.Of(c) else 0
  }

  lemma {:induction false} OnlyWorkOf(work: seq<OrgDay>, i: nat)
    requires OneEach(work) && i < |work|
    ensures WorkOf(work, work[i].organizationId) == Some(work[i])
  {
    if i < |work| - 1 {
      assert work[..|work| - 1][i] == work[i];
      OnlyWorkOf(work[..|work| - 1], i);
    }
  }

  lemma {:induction false} DayTotalIsCount(daily: map<DayKey, DailyRow>, date: int, work: seq<OrgDay>, c: Counter)
    requires forall w :: w in work ==>
               DayKey(w.organizationId, date) in daily
               && daily[DayKey(w.organizationId, date)].counts.Of(c) == Count(c, w.logs)
    ensures DayTotal(daily, date, work, c) == Count(c, AllLogs(work))
  {
    if work != [] {
      var n := |work| - 1;
      DayTotalIsCount(daily, date, work[..n], c);
      assert work[n] in work;
      CountConcat(c, AllLogs(work[..n]), work[n].logs);
    }
  }

  /** The rebuilt employee rows add up to the rebuilt organization rows, counter by counter, when
      the targets are the organizations of the run, each once, and every employee with a log
      resolves: the one query of the employees returns what the queries of the organizations do. */
  lemma EmployeesMatchOrganizations(db: Db, owners: ZoneOwners, table: seq<StoredLog>, work: seq<OrgDay>,
          was: EmployeeRows, now: EmployeeRows, want: map<EmployeeId, EmployeeRow>,
          employees: map<EmployeeId, OrgId>, date: int, logs: seq<Log>, ids: seq<EmployeeId>, c: Counter)
    requires OneEach(work) && forall w :: w in work ==> Queried(table, {w.organizationId}, w.logs)
    requires Queried(table, OrganizationsOf(work), logs)
    requires Wanted(want, was, employees, date, logs, OrganizationsOf(work)) && Upserted(was, now, date, want)
    requires forall l :: l in logs ==> Resolves(employees, l.employeeId)
    requires Distinct(ids) && forall e :: e in ids <==> e in want
    ensures RowTotal(now, date, ids, c) == DayTotal(AfterDay(db, owners, date, work).daily, date, work, c)
  {
    EmployeeRowsConserve(was, now, want, employees, date, logs, OrganizationsOf(work), ids, c);
    SameLogsTogether(table, work);
    CountOfPermutation(c, logs, AllLogs(work));
    var daily := AfterDay(db, owners, date, work).daily;
    forall w | w in work
      ensures DayKey(w.organizationId, date) in daily
      ensures daily[DayKey(w.organizationId, date)].counts.Of(c) == Count(c, w.logs)
    {
      var i :| 0 <= i < |work| && work[i] == w;
      OnlyWorkOf(work, i);
      DailyRowOfDay(db, owners, date, work, DayKey(w.organizationId, date));
    }
    DayTotalIsCount(daily, date, work, c);
  }

  // ----- the whole day of an employee -----

  /** A rebuilt employee row holds one count for the day, whatever organizations the run covers. In
      each counter it is that of all the employee's logs of the day exactly if every log it counts
      is attributed to a target; otherwise it falls short. */
  lemma RebuiltRowIsWholeIff(table: seq<StoredLog>, targets: set<OrgId>, was: EmployeeRows, now: EmployeeRows,
          want: map<EmployeeId, EmployeeRow>, employees: map<EmployeeId, OrgId>, date: int, logs: seq<Log>,
          e: EmployeeId, c: Counter)
    requires Queried(table, targets, logs)
    requires Wanted(want, was, employees, date, logs, targets) && Upserted(was, now, date, want) && e in want
    ensures EmployeeKey(e, date) in now
    ensures var (stored, day) := (now[EmployeeKey(e, date)].counts.Of(c), Count(c, With(AllOf(table), EmployeeOf, e)));
            && stored <= day
            && (stored == day
                <==> forall l :: l in table && EmployeeOf(l.log) == e && Counted(c, l.log) ==> Selected(l, targets))
  {
    WithOfPermutation(logs, LogsOf(table, targets), EmployeeOf, e);
    CountOfPermutation(c, With(logs, EmployeeOf, e), With(LogsOf(table, targets), EmployeeOf, e));
    SelectedAllIff(table, targets, c, EmployeeOf, e);
    assert now[EmployeeKey(e, date)].counts == CountsOf(With(logs, EmployeeOf, e));
  }

  const ELSEWHERE := StoredLog(Log("e", None, 0, Behavior, Block, None), Some("other"), None)

  /** A run over one organization sets the day of its employee to zero although the employee has a
      log that day, attributed to another organization. */
  lemma LogElsewhereIsZeroed(was: EmployeeRows, now: EmployeeRows, want: map<EmployeeId, EmployeeRow>,
          employees: map<EmployeeId, OrgId>, date: int)
    requires EmployeeKey("e", date) in was && was[EmployeeKey("e", date)].organizationId == "home"
    requires Resolves(employees, "e")
    requires Wanted(want, was, employees, date, LogsOf([ELSEWHERE], {"home"}), {"home"})
    requires Upserted(was, now, date, want)
    ensures EmployeeKey("e", date) in now && now[EmployeeKey("e", date)].counts == ZERO
    ensures Count(TotalEvents, With(AllOf([ELSEWHERE]), EmployeeOf, "e")) == 1
  {
    LogsElsewhere();
    assert Touched(was, date, [], {"home"}, "e");
  }

  lemma LogsElsewhere()
    ensures LogsOf([ELSEWHERE], {"home"}) == []
    ensures Count(TotalEvents, With(AllOf([ELSEWHERE]), EmployeeOf, "e")) == 1
  {
    assert AllOf([ELSEWHERE]) == [ELSEWHERE.log] + [];
    CountWithFirst(TotalEvents, ELSEWHERE.log, [], EmployeeOf, "e");
  }
}
