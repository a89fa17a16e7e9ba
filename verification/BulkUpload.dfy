// Bulk registration of employees: every row is either created or reported, and no id twice.
module BulkUpload {
  import opened Wrappers
  import opened Strings
  import opened Organizations
  import opened BulkDirectory

  type EmployeeId = string

  datatype Row = Row(employeeId: Option<string>, name: Option<string>, companyName: Option<string>,
      teamCode: Option<string>,
                     email: Option<string>, password: Option<string>)

  datatype EmployeeStatus = Active | Exception

  /** Where a created employee is placed. */
  datatype Placement = Placement(organizationId: OrgId, status: EmployeeStatus)

  datatype Code =
    | InvalidEmployeeId | MissingName | MissingCompanyName | DuplicateEmployeeId | CompanyNotFound | CompanyAmbiguous
    | TeamCodeNotFound | TeamCodeAmbiguous | InvalidEmail | MissingPassword | InvalidPassword | CreateFailed

  datatype RowError = RowError(index: nat, code: Code)

  datatype BadRequest = BadRequest

  /** What the database does with a row that passes the checks and whose id is free. The account
      is written after the employee and outside a transaction, so it can fail alone. */
  datatype Outcome = Saved | CreateFails | AccountFails

  /** The digits of a phone number. */
  function PhoneId(value: Option<string>): EmployeeId {
    if value.None? then "" else Filter(value.value, c => '0' <= c <= '9')
  }

  function Text(value: Option<string>): string {
    if value.None? then "" else Trim(value.value)
  }

  /** The organization of a row: the one company of that name, or the one unit filed under the key
      made of its id and the team code. */
  ghost function Target(d: Directory, row: Row): Result<OrgId, Code> {
    var companies, code := Candidates(d, d.CompanyName(Text(row.companyName))), d.TeamCode(row.teamCode);
    if companies == [] then Failure(CompanyNotFound)
    else if |companies| > 1 then Failure(CompanyAmbiguous)
    else if code.None? then Success(companies[0].id)
    else
      var units := Carriers(d, d.rows, KeyOf(companies[0].id, code.value));
      if units == [] then Failure(TeamCodeNotFound)
      else if |units| > 1 then Failure(TeamCodeAmbiguous)
      else Success(units[0].id)
  }

  datatype Verdict = Reject(code: Code) | Skip | Place(placement: Placement)

  /** The checks of one row in their order; `taken` are the ids known to be in use. A blank target
      id drops the row without a word. */
  ghost function Judged(d: Directory, validEmail: string -> bool, taken: set<EmployeeId>, row: Row): Verdict {
    if PhoneId(row.employeeId) == "" then Reject(InvalidEmployeeId)
    else if Text(row.name) == "" then Reject(MissingName)
    else if Text(row.companyName) == "" then Reject(MissingCompanyName)
    else if PhoneId(row.employeeId) in taken then Reject(DuplicateEmployeeId)
    else
      var target := Target(d, row);
      if target.Failure? then Reject(target.error)
      else if target.value == "" then Skip
      else if Text(row.email) != "" && !validEmail(d.lower(Text(row.email))) then Reject(InvalidEmail)
      else if Text(row.password) == "" then Reject(MissingPassword)
      else if |Text(row.password)| < 8 then Reject(InvalidPassword)
      else Place(Placement(target.value, if d.TeamCode(row.teamCode).None? then Exception else Active))
  }

  /** What has happened so far. `halfSaved` are employees whose account could not be written: they
      stay in the table although their row is reported as failed. */
  datatype Ledger = Ledger(table: map<EmployeeId, Placement>, taken: set<EmployeeId>, created: seq<EmployeeId>,
      halfSaved: seq<EmployeeId>,
                           errors: seq<RowError>, skipped: nat)

  function Reported(l: Ledger, index: nat, code: Code): Ledger {
    l.(errors := l.errors + [RowError(index, code)])
  }

  /** The write of a row that passed the checks. */
  function Written(l: Ledger, index: nat, id: EmployeeId, p: Placement, outcome: Outcome): Ledger {
    if id in l.table then Reported(l, index, DuplicateEmployeeId)
    else match outcome
      case CreateFails => Reported(l, index, CreateFailed)
      case AccountFails => Reported(l.(table := l.table[id := p], halfSaved := l.halfSaved + [id]), index, CreateFailed)
      case Saved => l.(table := l.table[id := p], taken := l.taken + {id}, created := l.created + [id])
  }

  /** The checks as a function of the ids in use and the row. */
  type Judge = (set<EmployeeId>, Row) -> Verdict

  function Applied(l: Ledger, index: nat, verdict: Verdict, id: EmployeeId, outcome: Outcome): Ledger {
    match verdict
    case Reject(code) => Reported(l, index, code)
    case Skip => l.(skipped := l.skipped + 1)
    case Place(p) => Written(l, index, id, p, outcome)
  }

  function RequestedIds(rows: seq<Row>): set<EmployeeId> {
    set r | r in rows :: PhoneId(r.employeeId)
  }

  function Start(rows: seq<Row>, employees: map<EmployeeId, Placement>): Ledger {
    Ledger(employees, set id | id in RequestedIds(rows) && id != "" && id in employees, [], [], [], 0)
  }

  ghost function AfterRows(judge: Judge, l: Ledger, rows: seq<Row>, outcomes: seq<Outcome>): Ledger
    requires |outcomes| == |rows|
  {
    if rows == [] then l
    else
      var n := |rows| - 1;
      var before := AfterRows(judge, l, rows[..n], outcomes[..n]);
      Applied(before, n, judge(before.taken, rows[n]), PhoneId(rows[n].employeeId), outcomes[n])
  }

  ghost function JudgeOf(d: Directory, validEmail: string -> bool): Judge {
    (taken, row) => Judged(d, validEmail, taken, row)
  }

  // ----- the loop -----

  /** The checks of one row against the look-up tables. */
  method JudgeRow(d: Directory, index: UnitIndex, validEmail: string -> bool, taken: set<EmployeeId>, row: Row)
    returns (verdict: Verdict)
    requires IndexOf(d, index, d.rows)
    ensures verdict == Judged(d, validEmail, taken, row)
  {
    var employeeId, name, companyName := PhoneId(row.employeeId), Text(row.name), Text(row.companyName);
    if employeeId == "" {
      return Reject(InvalidEmployeeId);
    }
    if name == "" {
      return Reject(MissingName);
    }
    if companyName == "" {
      return Reject(MissingCompanyName);
    }
    if employeeId in taken {
      return Reject(DuplicateEmployeeId);
    }
    var teamCode := d.TeamCode(row.teamCode);
    var target := FindTarget(d, index, row);
    if target.Failure? {
      return Reject(target.error);
    }
    if target.value == "" {
      return Skip;
    }
    var email, password := Text(row.email), Text(row.password);
    if email != "" && !validEmail(d.lower(email)) {
      return Reject(InvalidEmail);
    }
    if password == "" {
      return Reject(MissingPassword);
    }
    if |password| < 8 {
      return Reject(InvalidPassword);
    }
    verdict := Place(Placement(target.value, if teamCode.None? then Exception else Active));
  }

  method FindTarget(d: Directory, index: UnitIndex, row: Row) returns (target: Result<OrgId, Code>)
    requires IndexOf(d, index, d.rows)
    ensures target == Target(d, row)
  {
    var companyCandidates := Candidates(d, d.CompanyName(Text(row.companyName)));
    if |companyCandidates| == 0 {
      return Failure(CompanyNotFound);
    }
    if |companyCandidates| > 1 {
      return Failure(CompanyAmbiguous);
    }
    var company, teamCode := companyCandidates[0], d.TeamCode(row.teamCode);
    if teamCode.None? {
      return Success(company.id);
    }
    var key := KeyOf(company.id, teamCode.value);
    if key !in index {
      return Failure(TeamCodeNotFound);
    }
    if index[key].None? {
      return Failure(TeamCodeAmbiguous);
    }
    target := Success(index[key].value);
  }

  /** bulkUploadByCompanyTeam; the ledger holds the report, created and errors, and the table. */
  method BulkUploadByCompanyTeam(d: Directory, rows: seq<Row>, employees: map<EmployeeId, Placement>,
          validEmail: string -> bool, outcomes: seq<Outcome>)
    returns (r: Result<Ledger, BadRequest>)
    requires |outcomes| == |rows|
    ensures r.Failure? <==> |rows| > 1000
    ensures r.Success? ==> r.value == AfterRows(JudgeOf(d, validEmail), Start(rows, employees), rows, outcomes)
  {
    if |rows| == 0 {
      return Success(Start(rows, employees));
    }
    if |rows| > 1000 {
      return Failure(BadRequest);
    }
    var index := IndexUnits(d);
    var l := Start(rows, employees);
    for i := 0 to |rows|
      invariant l == AfterRows(JudgeOf(d, validEmail), Start(rows, employees), rows[..i], outcomes[..i])
    {
      var verdict := JudgeRow(d, index, validEmail, l.taken, rows[i]);
      assert rows[..i + 1][..i] == rows[..i] && outcomes[..i + 1][..i] == outcomes[..i];
      match verdict {
        case Reject(code) =>
          l := Reported(l, i, code);
        case Skip =>
          l := l.(skipped := l.skipped + 1);
        case Place(p) =>
          l := Written(l, i, PhoneId(rows[i].employeeId), p, outcomes[i]);
      }
    }
    assert rows[..|rows|] == rows && outcomes[..|rows|] == outcomes;
    r := Success(l);
  }

  // ----- accounting -----

  lemma AppliedCounts(l: Ledger, index: nat, verdict: Verdict, id: EmployeeId, outcome: Outcome)
    ensures var after := Applied(l, index, verdict, id, outcome);
            |after.created| + |after.errors| + after.skipped == |l.created| + |l.errors| + l.skipped + 1
  {
  }

  /** Every row is counted once, as created, failed or dropped. */
  lemma {:induction false} EveryRowIsCounted(judge: Judge, l: Ledger, rows: seq<Row>, outcomes: seq<Outcome>)
    requires |outcomes| == |rows|
    ensures var after := AfterRows(judge, l, rows, outcomes);
            |after.created| + |after.errors| + after.skipped == |l.created| + |l.errors| + l.skipped + |rows|
  {
    if rows != [] {
      var n := |rows| - 1;
      EveryRowIsCounted(judge, l, rows[..n], outcomes[..n]);
      var before := AfterRows(judge, l, rows[..n], outcomes[..n]);
      AppliedCounts(before, n, judge(before.taken, rows[n]), PhoneId(rows[n].employeeId), outcomes[n]);
    }
  }

  /** What an upload has written so far: distinct new ids, which is all the table gained; the
      counted ones are in use; errors name rows in order. */
  ghost predicate Consistent(was: map<EmployeeId, Placement>, l: Ledger, n: nat) {
    && Distinct(l.created + l.halfSaved)
    && (forall id :: id in l.created + l.halfSaved ==> id !in was)
    && l.table.Keys == was.Keys + ToSet(l.created + l.halfSaved)
    && (forall id :: id in was ==> l.table[id] == was[id])
    && (forall e :: e in l.errors ==> e.index < n)
    && forall i, j :: 0 <= i < j < |l.errors| ==> l.errors[i].index < l.errors[j].index
  }

  lemma NewId(was: map<EmployeeId, Placement>, created: seq<EmployeeId>, half: seq<EmployeeId>, id: EmployeeId)
    requires Distinct(created + half) && id !in created + half
    ensures Distinct(created + [id] + half) && Distinct(created + (half + [id]))
    ensures ToSet(created + [id] + half) == ToSet(created + half) + {id} == ToSet(created + (half + [id]))
  {
    DistinctSplit(created, half);
    DistinctAppend(created, [id]);
    DistinctAppend(created + [id], half);
    DistinctAppend(half, [id]);
    DistinctAppend(created, half + [id]);
  }

  lemma InsertedIsConsistent(was: map<EmployeeId, Placement>, l: Ledger, n: nat, id: EmployeeId, p: Placement,
          l': Ledger)
    requires Consistent(was, l, n) && id !in l.table
    requires l'.table == l.table[id := p] && l'.errors == l.errors
    requires (l'.created == l.created + [id] && l'.halfSaved == l.halfSaved)
      || (l'.created == l.created && l'.halfSaved == l.halfSaved + [id])
    ensures Consistent(was, l', n)
  {
    NewId(was, l.created, l.halfSaved, id);
  }

  lemma AppliedIsConsistent(was: map<EmployeeId, Placement>, l: Ledger, n: nat, verdict: Verdict, id: EmployeeId,
          outcome: Outcome)
    requires Consistent(was, l, n)
    ensures Consistent(was, Applied(l, n, verdict, id, outcome), n + 1)
  {
    if verdict.Place? && id !in l.table && !outcome.CreateFails? {
      var table := l.table[id := verdict.placement];
      if outcome.Saved? {
        InsertedIsConsistent(was, l, n, id, verdict.placement,
            l.(table := table, taken := l.taken + {id}, created := l.created + [id]));
      } else {
        var l' := l.(table := table, halfSaved := l.halfSaved + [id]);
        InsertedIsConsistent(was, l, n, id, verdict.placement, l');
      }
    } else if verdict.Reject? {
    } else if verdict.Place? {
    }
  }

  /** Created ids are pairwise distinct and absent beforehand, and so are the ids whose account
      failed; together they are exactly what the table gained. */
  lemma {:induction false} UploadIsConsistent(judge: Judge, rows: seq<Row>, all: seq<Row>,
          employees: map<EmployeeId, Placement>, outcomes: seq<Outcome>)
    requires |outcomes| == |rows|
    ensures Consistent(employees, AfterRows(judge, Start(all, employees), rows, outcomes), |rows|)
  {
    if rows != [] {
      var n := |rows| - 1;
      UploadIsConsistent(judge, rows[..n], all, employees, outcomes[..n]);
      var before := AfterRows(judge, Start(all, employees), rows[..n], outcomes[..n]);
      AppliedIsConsistent(employees, before, n, judge(before.taken, rows[n]), PhoneId(rows[n].employeeId), outcomes[n]);
    }
  }

  /** What the table gained. */
  lemma GrowthOfLedger(was: map<EmployeeId, Placement>, l: Ledger, n: nat)
    requires Consistent(was, l, n)
    ensures |l.table| == |was| + |l.created| + |l.halfSaved|
  {
    var new_ := l.created + l.halfSaved;
    DistinctMultiset(new_);
    assert |multiset(ToSet(new_))| == |ToSet(new_)|;
    assert |multiset(new_)| == |new_|;
    assert was.Keys !! ToSet(new_);
    assert |l.table.Keys| == |was.Keys| + |ToSet(new_)|;
  }

  /** The row passes the checks with an id that is still free, its employee is written and only
      the account cannot be. */
  ghost predicate FailsAlone(judge: Judge, l: Ledger, rows: seq<Row>, outcomes: seq<Outcome>, i: nat)
    requires |outcomes| == |rows| && i < |rows|
  {
    var before := AfterRows(judge, l, rows[..i], outcomes[..i]);
    judge(before.taken, rows[i]).Place? && PhoneId(rows[i].employeeId) !in before.table && outcomes[i].AccountFails?
  }

  ghost predicate NoneFailsAlone(judge: Judge, l: Ledger, rows: seq<Row>, outcomes: seq<Outcome>)
    requires |outcomes| == |rows|
  {
    forall i :: 0 <= i < |rows| ==> !FailsAlone(judge, l, rows, outcomes, i)
  }

  lemma FailsAloneBefore(judge: Judge, l: Ledger, rows: seq<Row>, outcomes: seq<Outcome>, n: nat, i: nat)
    requires |outcomes| == |rows| == n + 1 && i < n
    ensures FailsAlone(judge, l, rows[..n], outcomes[..n], i) == FailsAlone(judge, l, rows, outcomes, i)
  {
    assert rows[..n][..i] == rows[..i] && outcomes[..n][..i] == outcomes[..i];
  }

  lemma NoneFailsAloneStep(judge: Judge, l: Ledger, rows: seq<Row>, outcomes: seq<Outcome>, n: nat)
    requires |outcomes| == |rows| == n + 1
    ensures NoneFailsAlone(judge, l, rows, outcomes)
      <==> NoneFailsAlone(judge, l, rows[..n], outcomes[..n]) && !FailsAlone(judge, l, rows, outcomes, n)
  {
    forall i: nat | i < n { FailsAloneBefore(judge, l, rows, outcomes, n, i); }
    assert NoneFailsAlone(judge, l, rows[..n], outcomes[..n])
      <==> forall i :: 0 <= i < n ==> !FailsAlone(judge, l, rows, outcomes, i);
  }

  lemma AppliedHalfSaves(l: Ledger, index: nat, verdict: Verdict, id: EmployeeId, outcome: Outcome)
    ensures |Applied(l, index, verdict, id, outcome).halfSaved|
         == |l.halfSaved| + if verdict.Place? && id !in l.table && outcome.AccountFails? then 1 else 0
  {
  }

  lemma {:induction false} HalfSavedIff(judge: Judge, l: Ledger, rows: seq<Row>, outcomes: seq<Outcome>)
    requires |outcomes| == |rows|
    ensures |l.halfSaved| <= |AfterRows(judge, l, rows, outcomes).halfSaved|
    ensures |AfterRows(judge, l, rows, outcomes).halfSaved| == |l.halfSaved|
      <==> NoneFailsAlone(judge, l, rows, outcomes)
  {
    if rows != [] {
      var n := |rows| - 1;
      HalfSavedIff(judge, l, rows[..n], outcomes[..n]);
      NoneFailsAloneStep(judge, l, rows, outcomes, n);
      var before := AfterRows(judge, l, rows[..n], outcomes[..n]);
      AppliedHalfSaves(before, n, judge(before.taken, rows[n]), PhoneId(rows[n].employeeId), outcomes[n]);
    }
  }

  /** The table grew by the number reported as created exactly if no account failed on its own. */
  lemma CountedIsGrowthIff(judge: Judge, rows: seq<Row>, employees: map<EmployeeId, Placement>, outcomes: seq<Outcome>)
    requires |outcomes| == |rows|
    ensures var after := AfterRows(judge, Start(rows, employees), rows, outcomes);
            && |employees| + |after.created| <= |after.table|
            && (|after.table| == |employees| + |after.created|
                <==> NoneFailsAlone(judge, Start(rows, employees), rows, outcomes))
  {
    UploadIsConsistent(judge, rows, rows, employees, outcomes);
    GrowthOfLedger(employees, AfterRows(judge, Start(rows, employees), rows, outcomes), |rows|);
    HalfSavedIff(judge, Start(rows, employees), rows, outcomes);
  }

  /** Rows are dropped without a word only where an organization has a blank id. */
  lemma {:induction false} NoRowIsDropped(judge: Judge, l: Ledger, rows: seq<Row>, outcomes: seq<Outcome>)
    requires |outcomes| == |rows|
    requires forall taken, row :: !judge(taken, row).Skip?
    ensures AfterRows(judge, l, rows, outcomes).skipped == l.skipped
  {
    if rows != [] {
      NoRowIsDropped(judge, l, rows[..|rows| - 1], outcomes[..|rows| - 1]);
    }
  }

  /** The report of an upload over organizations with non-blank ids: created and failed rows add up
      to the requested ones, and what was counted as created is new and distinct. */
  lemma UploadAccounts(d: Directory, validEmail: string -> bool, rows: seq<Row>,
          employees: map<EmployeeId, Placement>, outcomes: seq<Outcome>)
    requires |outcomes| == |rows| && !HasId(d.rows, "")
    ensures var after := AfterRows(JudgeOf(d, validEmail), Start(rows, employees), rows, outcomes);
            && |after.created| + |after.errors| == |rows| && after.skipped == 0
            && Consistent(employees, after, |rows|)
  {
    var judge := JudgeOf(d, validEmail);
    forall taken, row ensures !judge(taken, row).Skip? {
    }
    NoRowIsDropped(judge, Start(rows, employees), rows, outcomes);
    EveryRowIsCounted(judge, Start(rows, employees), rows, outcomes);
    UploadIsConsistent(judge, rows, rows, employees, outcomes);
  }

  /** The row's one company of that name, or the only unit of that company with its team code. */
  ghost predicate Belongs(d: Directory, row: Row, organization: OrgId) {
    exists company :: Candidates(d, d.CompanyName(Text(row.companyName))) == [company]
                      && BelongsTo(d, company, d.TeamCode(row.teamCode), organization)
  }

  ghost predicate BelongsTo(d: Directory, company: Organization, code: Option<string>, organization: OrgId) {
    if code.None? then organization == company.id
    else exists unit :: OnlyUnitOf(d, unit, company.id, code.value) && unit.id == organization
  }

  lemma TargetBelongs(d: Directory, row: Row)
    requires Apart(CompanyIds(d.rows)) && Target(d, row).Success?
    ensures Belongs(d, row, Target(d, row).value)
  {
    var companies, code := Candidates(d, d.CompanyName(Text(row.companyName))), d.TeamCode(row.teamCode);
    var company := companies[0];
    assert companies == [company] && company in companies;
    if code.Some? {
      var key := KeyOf(company.id, code.value);
      FoundIsOnlyCarrier(d, key);
      var unit := Carriers(d, d.rows, key)[0];
      CarriedIsUnit(d, unit, company.id, code.value);
      OnlyCarrierIsOnlyUnit(d, unit, company.id, code.value);
    }
    assert BelongsTo(d, company, code, Target(d, row).value);
  }

  lemma CarriedIsUnit(d: Directory, unit: Organization, company: OrgId, code: string)
    requires Apart(CompanyIds(d.rows)) && company in CompanyIds(d.rows) && Carries(d, unit, KeyOf(company, code))
    ensures company != ""
  {
    CompanyHasId(d.rows, unit.id);
    var c, x := CompanyOf(d.rows, unit.id).value, d.TeamCode(unit.teamCode).value;
    SameKeySamePair(CompanyIds(d.rows), c, company, x, code);
  }

  /** Two companies whose ids are not apart. */
  const BAR_ROWS := [
    Organization("a", Some(LEGACY_ROOT_ORGANIZATION_ID), None, false),
    Organization("a|X", Some(LEGACY_ROOT_ORGANIZATION_ID), None, false),
    Organization("u", Some("a|X"), Some("Y"), false)]
  const BAR_DIRECTORY := Directory(BAR_ROWS, id => id, s => s, s => s)
  const BAR_ROW := Row(Some("1"), Some("n"), Some("a"), Some("X|Y"), None, None)

  /** A row that names the company a and the team code X|Y leads to a unit of the company a|X. */
  lemma UnitOfAnotherCompany()
    ensures Target(BAR_DIRECTORY, BAR_ROW) == Success("u")
    ensures CompanyOf(BAR_ROWS, "u") == Some("a|X") && !Belongs(BAR_DIRECTORY, BAR_ROW, "u")
  {
    BarCompanies();
    BarCarriers();
    BarCandidates();
    BarRowTexts();
    forall company | Candidates(BAR_DIRECTORY, "a") == [company]
      ensures !BelongsTo(BAR_DIRECTORY, company, Some("X|Y"), "u")
    {
      assert [company][0] == [BAR_ROWS[0]][0];
      UIsNoUnitOfA();
    }
  }

  lemma UIsNoUnitOfA()
    ensures forall unit: Organization :: unit.id == "u" ==> !OnlyUnitOf(BAR_DIRECTORY, unit, "a", "X|Y")
  {
    BarCompanies();
  }

  lemma BarRowTexts()
    ensures BAR_DIRECTORY.CompanyName(Text(BAR_ROW.companyName)) == "a"
    ensures BAR_DIRECTORY.TeamCode(BAR_ROW.teamCode) == Some("X|Y")
  {
    assert Trim("a") == "a" && Trim("X|Y") == "X|Y";
  }

  lemma BarCandidates()
    ensures Candidates(BAR_DIRECTORY, "a") == [BAR_ROWS[0]]
  {
    assert Trim("a") == "a" && Trim("a|X") == "a|X";
    CandidatesOfThree(BAR_DIRECTORY, BAR_ROWS[0], BAR_ROWS[1], BAR_ROWS[2], "a");
  }

  lemma CandidatesOfThree(d: Directory, a: Organization, b: Organization, c: Organization, key: string)
    requires d.rows == [a, b, c] && Named(d, a, key) && !Named(d, b, key) && !Named(d, c, key)
    ensures Candidates(d, key) == [a]
  {
    assert d.rows == [a] + [b, c];
    FilterFirst(a, [b, c], (o: Organization) => Named(d, o, key));
  }

  lemma FilterFirst<T(!new)>(x: T, rest: seq<T>, p: T -> bool)
    requires p(x) && forall y :: y in rest ==> !p(y)
    ensures Filter([x] + rest, p) == [x]
  {
    assert ([x] + rest)[1..] == rest;
    if Filter(rest, p) != [] { assert Filter(rest, p)[0] in Filter(rest, p); }
  }

  lemma BarCompanies()
    ensures CompanyOf(BAR_ROWS, "u") == Some("a|X")
    ensures CompanyOf(BAR_ROWS, "a") == Some("a") && CompanyOf(BAR_ROWS, "a|X") == Some("a|X")
  {
    assert BAR_ROWS[1..][1..] == [BAR_ROWS[2]] && BAR_ROWS[2] in BAR_ROWS;
    assert Lookup(BAR_ROWS, "u") == Some(BAR_ROWS[2]) && Lookup(BAR_ROWS, "a|X") == Some(BAR_ROWS[1]);
    assert Up(BAR_ROWS, "u", 1) == Up(BAR_ROWS, "a|X", 0);
    assert FirstCompanyAt(BAR_ROWS, "u", "a|X", 1);
    assert FirstCompanyAt(BAR_ROWS, "a", "a", 0) && FirstCompanyAt(BAR_ROWS, "a|X", "a|X", 0);
    CompanyIs(BAR_ROWS, "u", "a|X", 1);
    CompanyIs(BAR_ROWS, "a", "a", 0);
    CompanyIs(BAR_ROWS, "a|X", "a|X", 0);
  }

  lemma BarCarriers()
    ensures Carriers(BAR_DIRECTORY, BAR_ROWS, KeyOf("a", "X|Y")) == [BAR_ROWS[2]]
  {
    BarCompanies();
    assert Trim("Y") == "Y" && KeyOf("a", "X|Y") == KeyOf("a|X", "Y");
    CarriersOfThree(BAR_DIRECTORY, BAR_ROWS[0], BAR_ROWS[1], BAR_ROWS[2], KeyOf("a", "X|Y"));
  }

  lemma CarriersOfThree(d: Directory, a: Organization, b: Organization, c: Organization, key: string)
    requires !Carries(d, a, key) && !Carries(d, b, key) && Carries(d, c, key)
    ensures Carriers(d, [a, b, c], key) == [c]
  {
    CarriersAppend(d, [], a, key);
    CarriersAppend(d, [a], b, key);
    CarriersAppend(d, [a, b], c, key);
    assert [] + [a] == [a] && [a] + [b] == [a, b] && [a, b] + [c] == [a, b, c];
  }

  lemma CarriersAppend(d: Directory, rows: seq<Organization>, o: Organization, key: string)
    ensures Carriers(d, rows + [o], key) == Carriers(d, rows, key) + if Carries(d, o, key) then [o] else []
  {
    assert (rows + [o])[..|rows|] == rows;
  }

  /** Row `i` names the id and its company and team code lead to the placement; where company ids
      are apart, that is the company itself or its only unit with the code. */
  ghost predicate PlacedBy(d: Directory, rows: seq<Row>, i: int, id: EmployeeId, p: Placement) {
    && 0 <= i < |rows| && PhoneId(rows[i].employeeId) == id && id != ""
    && Target(d, rows[i]) == Success(p.organizationId)
    && (p.status.Exception? <==> d.TeamCode(rows[i].teamCode).None?)
    && (Apart(CompanyIds(d.rows)) ==> Belongs(d, rows[i], p.organizationId))
  }

  lemma PlacedAtTarget(d: Directory, validEmail: string -> bool, taken: set<EmployeeId>, row: Row)
    requires Judged(d, validEmail, taken, row).Place?
    ensures Target(d, row) == Success(Judged(d, validEmail, taken, row).placement.organizationId)
    ensures PhoneId(row.employeeId) != "" && PhoneId(row.employeeId) !in taken
    ensures Judged(d, validEmail, taken, row).placement.status.Exception? <==> d.TeamCode(row.teamCode).None?
  {
  }

  lemma PlaceMeansTarget(d: Directory, validEmail: string -> bool, taken: set<EmployeeId>, rows: seq<Row>, i: nat)
    requires i < |rows| && JudgeOf(d, validEmail)(taken, rows[i]).Place?
    ensures PlacedBy(d, rows, i, PhoneId(rows[i].employeeId), JudgeOf(d, validEmail)(taken, rows[i]).placement)
    ensures PhoneId(rows[i].employeeId) !in taken
  {
    PlacedAtTarget(d, validEmail, taken, rows[i]);
    if Apart(CompanyIds(d.rows)) { TargetBelongs(d, rows[i]); }
  }

  /** Every employee that the upload added sits where one of its rows says: in the one company of
      that name, or in the one unit filed under its key; where no company id is another one followed
      by a bar and more, that is the only unit of that company with that team code. */
  lemma {:induction false} AddedEmployeesArePlaced(d: Directory, validEmail: string -> bool, l: Ledger,
          rows: seq<Row>, outcomes: seq<Outcome>, id: EmployeeId)
    requires |outcomes| == |rows|
    requires id !in l.table && id in AfterRows(JudgeOf(d, validEmail), l, rows, outcomes).table
    ensures exists i :: PlacedBy(d, rows, i, id, AfterRows(JudgeOf(d, validEmail), l, rows, outcomes).table[id])
  {
    var judge := JudgeOf(d, validEmail);
    var n := |rows| - 1;
    var before, after := AfterRows(judge, l, rows[..n], outcomes[..n]), AfterRows(judge, l, rows, outcomes);
    var verdict := judge(before.taken, rows[n]);
    if id in before.table {
      AddedEmployeesArePlaced(d, validEmail, l, rows[..n], outcomes[..n], id);
      var i :| PlacedBy(d, rows[..n], i, id, before.table[id]);
      RowsAreKept(before, n, verdict, PhoneId(rows[n].employeeId), outcomes[n], id);
      assert rows[..n][i] == rows[i];
      assert PlacedBy(d, rows, i, id, after.table[id]);
    } else {
      NewRowIsPlaced(before, n, verdict, PhoneId(rows[n].employeeId), outcomes[n], id);
      PlaceMeansTarget(d, validEmail, before.taken, rows, n);
      assert PlacedBy(d, rows, n, id, after.table[id]);
    }
  }

  lemma NewRowIsPlaced(l: Ledger, n: nat, verdict: Verdict, newId: EmployeeId, outcome: Outcome, id: EmployeeId)
    requires id !in l.table && id in Applied(l, n, verdict, newId, outcome).table
    ensures verdict.Place? && id == newId && Applied(l, n, verdict, newId, outcome).table[id] == verdict.placement
  {
  }

  lemma RowsAreKept(l: Ledger, n: nat, verdict: Verdict, newId: EmployeeId, outcome: Outcome, id: EmployeeId)
    requires id in l.table
    ensures var after := Applied(l, n, verdict, newId, outcome).table; id in after && after[id] == l.table[id]
  {
  }

}
