// The checks and the report of a bulk upload in terms of the uploaded texts and the organization
// rows: which check refuses a row, where an accepted row sits, and what the report says of each row.
module BulkLaws {
  import opened Wrappers
  import opened Strings
  import opened Organizations
  import opened BulkDirectory
  import opened BulkUpload

  // ----- texts -----

  ghost predicate NonBlank(v: Option<string>) {
    v.Some? && exists i :: 0 <= i < |v.value| && !IsWhite(v.value[i])
  }

  lemma TextIff(v: Option<string>)
    ensures Text(v) != "" <==> NonBlank(v)
    ensures v.Some? ==> Text(v) == Trim(v.value) && IsTrimmed(v.value, Trim(v.value))
  {
    if v.Some? {
      var s := v.value;
      TrimMeans(s);
      var a, b :| s == a + Trim(s) + b && AllWhite(a) && AllWhite(b);
      if Trim(s) != "" { assert s[|a|] == Trim(s)[0]; }
    }
  }

  lemma TrimTwice(s: string)
    ensures Trim(Trim(s)) == Trim(s)
  {
    TrimMeans(s);
    TrimMeans(Trim(s));
    var t := Trim(s);
    assert t == "" + t + "" && AllWhite("");
    TrimmedIsUnique(t, t, Trim(t));
  }

  ghost predicate IsDigit(c: char) {
    c in "0123456789"
  }

  /** The digits of a text, in order: those of its front and then those of its back. */
  lemma PhoneIdMeans(a: string, b: string, c: char)
    ensures PhoneId(Some(a + b)) == PhoneId(Some(a)) + PhoneId(Some(b))
    ensures PhoneId(Some([c])) == if IsDigit(c) then [c] else ""
    ensures PhoneId(None) == "" && PhoneId(Some("")) == ""
  {
    FilterConcat(a, b, c => '0' <= c <= '9');
    OneDigit(c);
  }

  lemma OneDigit(c: char)
    ensures PhoneId(Some([c])) == if IsDigit(c) then [c] else ""
  {
    DigitIff(c);
    assert [c][1..] == "";
  }

  lemma DigitIff(c: char)
    ensures IsDigit(c) <==> '0' <= c <= '9'
  {
  }

  ghost predicate HasDigit(v: Option<string>) {
    v.Some? && exists i :: 0 <= i < |v.value| && IsDigit(v.value[i])
  }

  lemma PhoneIdIff(v: Option<string>)
    ensures PhoneId(v) != "" <==> HasDigit(v)
  {
    var id := PhoneId(v);
    assert id != "" ==> id[0] in id;
    if HasDigit(v) {
      var i :| 0 <= i < |v.value| && IsDigit(v.value[i]);
      assert v.value[i] in id;
    }
  }

  /** A team code is the upper-cased text without outer white space, unless that is empty. */
  lemma TeamCodeIff(d: Directory, code: Option<string>, t: string)
    ensures d.TeamCode(code) == Some(t)
      <==> code.Some? && t != "" && exists s :: IsTrimmed(code.value, s) && t == d.upper(s)
  {
    if code.Some? {
      TrimMeans(code.value);
      forall s | IsTrimmed(code.value, s) ensures s == Trim(code.value) {
        TrimmedIsUnique(code.value, s, Trim(code.value));
      }
    }
  }

  // ----- the checks -----

  /** A company whose name is that of the row, up to case and outer white space. */
  ghost predicate Called(d: Directory, o: Organization, row: Row) {
    && row.companyName.Some? && Classify(o) == Company
    && d.lower(Trim(d.nameOf(o.id))) == d.lower(Trim(row.companyName.value))
  }

  /** Filed under a company of the row's name and the row's team code. */
  ghost predicate FiledFor(d: Directory, o: Organization, row: Row) {
    && d.TeamCode(row.teamCode).Some?
    && exists company :: company in d.rows && Called(d, company, row)
         && Carries(d, o, company.id + "|" + d.TeamCode(row.teamCode).value)
  }

  /** The row leads to an organization with this id. */
  ghost predicate Sits(d: Directory, row: Row, id: OrgId) {
    exists o :: o in d.rows && o.id == id
                && if d.TeamCode(row.teamCode).None? then Called(d, o, row) else FiledFor(d, o, row)
  }

  /** The verdicts of the failing checks, in the order of the checks. */
  const CHECKS: seq<Verdict> := [
    Reject(InvalidEmployeeId), Reject(MissingName), Reject(MissingCompanyName), Reject(DuplicateEmployeeId),
    Reject(CompanyNotFound), Reject(CompanyAmbiguous), Reject(TeamCodeNotFound), Reject(TeamCodeAmbiguous), Skip,
    Reject(InvalidEmail), Reject(MissingPassword), Reject(InvalidPassword)]

  ghost predicate Passes(d: Directory, validEmail: string -> bool, taken: set<EmployeeId>, row: Row, k: nat) {
    match k
    case 0 => HasDigit(row.employeeId)
    case 1 => NonBlank(row.name)
    case 2 => NonBlank(row.companyName)
    case 3 => PhoneId(row.employeeId) !in taken
    case 4 => exists o :: o in d.rows && Called(d, o, row)
    case 5 => forall i, j :: 0 <= i < j < |d.rows| ==> !(Called(d, d.rows[i], row) && Called(d, d.rows[j], row))
    case 6 => d.TeamCode(row.teamCode).Some? ==> exists o :: o in d.rows && FiledFor(d, o, row)
    case 7 => forall i, j :: 0 <= i < j < |d.rows| ==> !(FiledFor(d, d.rows[i], row) && FiledFor(d, d.rows[j], row))
    case 8 => !Sits(d, row, "")
    case 9 => NonBlank(row.email) ==> validEmail(d.lower(Trim(row.email.value)))
    case 10 => NonBlank(row.password)
    case _ => row.password.Some? && |Trim(row.password.value)| >= 8
  }

  /** The row passes the checks before check `k`. */
  ghost predicate PassesBefore(d: Directory, validEmail: string -> bool, taken: set<EmployeeId>, row: Row, k: nat) {
    forall j: nat :: j < k ==> Passes(d, validEmail, taken, row, j)
  }

  lemma {:induction false} FilterTwo<T(!new)>(s: seq<T>, p: T -> bool)
    ensures |Filter(s, p)| <= 1 <==> forall i, j :: 0 <= i < j < |s| ==> !(p(s[i]) && p(s[j]))
  {
    if s != [] {
      var rest := s[1..];
      FilterTwo(rest, p);
      assert Filter(rest, p) == [] || Filter(rest, p)[0] in Filter(rest, p);
      assert forall j :: 0 < j < |s| ==> s[j] == rest[j - 1];
      assert forall x :: x in rest ==> exists j :: 0 < j < |s| && s[j] == x;
    }
  }

  lemma {:induction false} CarriersAreFiltered(d: Directory, rows: seq<Organization>, key: string,
          p: Organization -> bool)
    requires forall o :: p(o) <==> Carries(d, o, key)
    ensures Carriers(d, rows, key) == Filter(rows, p)
  {
    if rows != [] {
      var n := |rows| - 1;
      CarriersAreFiltered(d, rows[..n], key, p);
      FilterConcat(rows[..n], [rows[n]], p);
      assert rows == rows[..n] + [rows[n]];
      assert Filter([rows[n]], p) == if p(rows[n]) then [rows[n]] else [];
    }
  }

  lemma CarriersTwo(d: Directory, rows: seq<Organization>, key: string)
    ensures |Carriers(d, rows, key)| <= 1
      <==> forall i, j :: 0 <= i < j < |rows| ==> !(Carries(d, rows[i], key) && Carries(d, rows[j], key))
  {
    var p := (o: Organization) => Carries(d, o, key);
    CarriersAreFiltered(d, rows, key, p);
    FilterTwo(rows, p);
  }

  lemma CalledIff(d: Directory, row: Row, o: Organization)
    requires NonBlank(row.companyName)
    ensures Named(d, o, d.CompanyName(Text(row.companyName))) <==> Called(d, o, row)
  {
    TrimTwice(row.companyName.value);
  }

  lemma CompaniesMean(d: Directory, row: Row)
    requires NonBlank(row.companyName)
    ensures var companies := Candidates(d, d.CompanyName(Text(row.companyName)));
      && (forall o :: o in companies <==> o in d.rows && Called(d, o, row))
      && (|companies| <= 1 <==> forall i, j ::
           0 <= i < j < |d.rows| ==> !(Called(d, d.rows[i], row) && Called(d, d.rows[j], row)))
  {
    var key := d.CompanyName(Text(row.companyName));
    forall o ensures Named(d, o, key) <==> Called(d, o, row) { CalledIff(d, row, o); }
    FilterTwo(d.rows, (o: Organization) => Named(d, o, key));
  }

  /** With one company of the row's name, what is filed for the row is filed under its key. */
  lemma UnitsMean(d: Directory, row: Row, company: Organization)
    requires company in d.rows && Called(d, company, row) && d.TeamCode(row.teamCode).Some?
    requires forall o :: o in d.rows && Called(d, o, row) ==> o == company
    ensures var units := Carriers(d, d.rows, KeyOf(company.id, d.TeamCode(row.teamCode).value));
      && (forall o :: o in units <==> o in d.rows && FiledFor(d, o, row))
      && (|units| <= 1 <==> forall i, j ::
           0 <= i < j < |d.rows| ==> !(FiledFor(d, d.rows[i], row) && FiledFor(d, d.rows[j], row)))
  {
    var key := KeyOf(company.id, d.TeamCode(row.teamCode).value);
    forall o ensures FiledFor(d, o, row) <==> Carries(d, o, key) {
    }
    CarriersTwo(d, d.rows, key);
  }

  /** What the search for the row's organization finds. */
  lemma TargetMeans(d: Directory, validEmail: string -> bool, taken: set<EmployeeId>, row: Row)
    requires Passes(d, validEmail, taken, row, 2)
    ensures var t := Target(d, row);
      && (t == Failure(CompanyNotFound) <==> !Passes(d, validEmail, taken, row, 4))
      && (t == Failure(CompanyAmbiguous)
          <==> Passes(d, validEmail, taken, row, 4) && !Passes(d, validEmail, taken, row, 5))
      && (t.Success? || t.error in {TeamCodeNotFound, TeamCodeAmbiguous}
          <==> Passes(d, validEmail, taken, row, 4) && Passes(d, validEmail, taken, row, 5))
  {
    CompaniesMean(d, row);
    var companies := Candidates(d, d.CompanyName(Text(row.companyName)));
    assert companies == [] || companies[0] in companies;
  }

  lemma SoleMember(s: seq<Organization>, o: Organization)
    requires |s| <= 1 && o in s
    ensures s == [o]
  {
  }

  /** Exactly one company has the row's name. */
  lemma OneCompany(d: Directory, validEmail: string -> bool, taken: set<EmployeeId>, row: Row)
    returns (company: Organization)
    requires Passes(d, validEmail, taken, row, 2)
    requires Passes(d, validEmail, taken, row, 4) && Passes(d, validEmail, taken, row, 5)
    ensures Candidates(d, d.CompanyName(Text(row.companyName))) == [company]
    ensures company in d.rows && Called(d, company, row)
    ensures forall o :: o in d.rows && Called(d, o, row) ==> o == company
  {
    CompaniesMean(d, row);
    company :| company in d.rows && Called(d, company, row);
    SoleMember(Candidates(d, d.CompanyName(Text(row.companyName))), company);
  }

  lemma CodedTargetIs(d: Directory, row: Row, company: Organization, units: seq<Organization>)
    requires Candidates(d, d.CompanyName(Text(row.companyName))) == [company] && d.TeamCode(row.teamCode).Some?
    requires units == Carriers(d, d.rows, KeyOf(company.id, d.TeamCode(row.teamCode).value))
    ensures Target(d, row) == if units == [] then Failure(TeamCodeNotFound)
                              else if |units| > 1 then Failure(TeamCodeAmbiguous) else Success(units[0].id)
  {
  }

  lemma CodedTargetMeans(d: Directory, validEmail: string -> bool, taken: set<EmployeeId>, row: Row,
          company: Organization)
    requires Candidates(d, d.CompanyName(Text(row.companyName))) == [company]
    requires company in d.rows && Called(d, company, row)
    requires forall o :: o in d.rows && Called(d, o, row) ==> o == company
    requires d.TeamCode(row.teamCode).Some?
    ensures var t := Target(d, row);
      && (t == Failure(TeamCodeNotFound) <==> !Passes(d, validEmail, taken, row, 6))
      && (t == Failure(TeamCodeAmbiguous)
          <==> Passes(d, validEmail, taken, row, 6) && !Passes(d, validEmail, taken, row, 7))
      && (t.Success? <==> Passes(d, validEmail, taken, row, 6) && Passes(d, validEmail, taken, row, 7))
      && (t.Success? ==> forall id :: Sits(d, row, id) <==> id == t.value)
  {
    UnitsMean(d, row, company);
    var units := Carriers(d, d.rows, KeyOf(company.id, d.TeamCode(row.teamCode).value));
    CodedTargetIs(d, row, company, units);
    assert units == [] || units[0] in units;
    assert units != [] <==> Passes(d, validEmail, taken, row, 6);
    assert |units| <= 1 <==> Passes(d, validEmail, taken, row, 7);
    if |units| == 1 { SitsInSole(d, row, units); }
  }

  lemma SitsInSole(d: Directory, row: Row, units: seq<Organization>)
    requires |units| == 1 && d.TeamCode(row.teamCode).Some?
    requires forall o :: o in units <==> o in d.rows && FiledFor(d, o, row)
    ensures forall id :: Sits(d, row, id) <==> id == units[0].id
  {
    assert units[0] in units && FiledFor(d, units[0], row);
    forall id | Sits(d, row, id) ensures id == units[0].id {
      var o :| o in d.rows && o.id == id && FiledFor(d, o, row);
      SoleMember(units, o);
    }
  }

  lemma UnitTargetMeans(d: Directory, validEmail: string -> bool, taken: set<EmployeeId>, row: Row)
    requires Passes(d, validEmail, taken, row, 2)
    requires Passes(d, validEmail, taken, row, 4) && Passes(d, validEmail, taken, row, 5)
    ensures var t := Target(d, row);
      && (t == Failure(TeamCodeNotFound) <==> !Passes(d, validEmail, taken, row, 6))
      && (t == Failure(TeamCodeAmbiguous)
          <==> Passes(d, validEmail, taken, row, 6) && !Passes(d, validEmail, taken, row, 7))
      && (t.Success? <==> Passes(d, validEmail, taken, row, 6) && Passes(d, validEmail, taken, row, 7))
      && (t.Success? ==> forall id :: Sits(d, row, id) <==> id == t.value)
  {
    var company := OneCompany(d, validEmail, taken, row);
    if d.TeamCode(row.teamCode).Some? {
      CodedTargetMeans(d, validEmail, taken, row, company);
    } else {
      assert Called(d, company, row);
    }
  }

  ghost predicate FirstFailed(d: Directory, validEmail: string -> bool, taken: set<EmployeeId>, row: Row, k: nat) {
    PassesBefore(d, validEmail, taken, row, k) && !Passes(d, validEmail, taken, row, k)
  }

  lemma EarlyCheckDecides(d: Directory, validEmail: string -> bool, taken: set<EmployeeId>, row: Row)
    ensures FirstFailed(d, validEmail, taken, row, 0) ==>
      Judged(d, validEmail, taken, row) == Reject(InvalidEmployeeId)
    ensures FirstFailed(d, validEmail, taken, row, 1) ==> Judged(d, validEmail, taken, row) == Reject(MissingName)
    ensures FirstFailed(d, validEmail, taken, row, 2) ==>
      Judged(d, validEmail, taken, row) == Reject(MissingCompanyName)
    ensures FirstFailed(d, validEmail, taken, row, 3) ==>
      Judged(d, validEmail, taken, row) == Reject(DuplicateEmployeeId)
  {
    PhoneIdIff(row.employeeId);
    TextIff(row.name);
    TextIff(row.companyName);
    if PassesBefore(d, validEmail, taken, row, 1) { assert Passes(d, validEmail, taken, row, 0); }
    if PassesBefore(d, validEmail, taken, row, 2) {
      assert Passes(d, validEmail, taken, row, 0) && Passes(d, validEmail, taken, row, 1);
    }
    if PassesBefore(d, validEmail, taken, row, 3) {
      assert Passes(d, validEmail, taken, row, 0) && Passes(d, validEmail, taken, row, 1);
      assert Passes(d, validEmail, taken, row, 2);
    }
  }

  /** After the first four checks the search for the organization decides. */
  lemma EarlyChecksPass(d: Directory, validEmail: string -> bool, taken: set<EmployeeId>, row: Row)
    requires PassesBefore(d, validEmail, taken, row, 4)
    ensures PhoneId(row.employeeId) != "" && PhoneId(row.employeeId) !in taken
    ensures Text(row.name) != "" && Text(row.companyName) != "" && Passes(d, validEmail, taken, row, 2)
  {
    assert Passes(d, validEmail, taken, row, 0) && Passes(d, validEmail, taken, row, 1);
    assert Passes(d, validEmail, taken, row, 2) && Passes(d, validEmail, taken, row, 3);
    PhoneIdIff(row.employeeId);
    TextIff(row.name);
    TextIff(row.companyName);
  }

  lemma CompanyCheckDecides(d: Directory, validEmail: string -> bool, taken: set<EmployeeId>, row: Row)
    requires PassesBefore(d, validEmail, taken, row, 4)
    ensures FirstFailed(d, validEmail, taken, row, 4) ==>
      Judged(d, validEmail, taken, row) == Reject(CompanyNotFound)
    ensures FirstFailed(d, validEmail, taken, row, 5) ==>
      Judged(d, validEmail, taken, row) == Reject(CompanyAmbiguous)
  {
    EarlyChecksPass(d, validEmail, taken, row);
    TargetMeans(d, validEmail, taken, row);
  }

  lemma UnitCheckDecides(d: Directory, validEmail: string -> bool, taken: set<EmployeeId>, row: Row)
    requires PassesBefore(d, validEmail, taken, row, 6)
    ensures FirstFailed(d, validEmail, taken, row, 6) ==>
      Judged(d, validEmail, taken, row) == Reject(TeamCodeNotFound)
    ensures FirstFailed(d, validEmail, taken, row, 7) ==>
      Judged(d, validEmail, taken, row) == Reject(TeamCodeAmbiguous)
  {
    EarlyChecksPass(d, validEmail, taken, row);
    assert Passes(d, validEmail, taken, row, 4) && Passes(d, validEmail, taken, row, 5);
    UnitTargetMeans(d, validEmail, taken, row);
  }

  lemma TargetIsFound(d: Directory, validEmail: string -> bool, taken: set<EmployeeId>, row: Row)
    requires PassesBefore(d, validEmail, taken, row, 8)
    ensures Target(d, row).Success? && forall id :: Sits(d, row, id) <==> id == Target(d, row).value
  {
    assert Passes(d, validEmail, taken, row, 2) && Passes(d, validEmail, taken, row, 4);
    assert Passes(d, validEmail, taken, row, 5) && Passes(d, validEmail, taken, row, 6);
    assert Passes(d, validEmail, taken, row, 7);
    UnitTargetMeans(d, validEmail, taken, row);
  }

  lemma LateCheckDecides(d: Directory, validEmail: string -> bool, taken: set<EmployeeId>, row: Row, k: nat)
    requires 8 <= k < 12 && FirstFailed(d, validEmail, taken, row, k)
    ensures Judged(d, validEmail, taken, row) == CHECKS[k]
  {
    EarlyChecksPass(d, validEmail, taken, row);
    TargetIsFound(d, validEmail, taken, row);
    TextIff(row.email);
    TextIff(row.password);
    assert k > 8 ==> Passes(d, validEmail, taken, row, 8);
    assert k > 9 ==> Passes(d, validEmail, taken, row, 9);
    assert k > 10 ==> Passes(d, validEmail, taken, row, 10);
  }

  lemma FirstFailedDecides(d: Directory, validEmail: string -> bool, taken: set<EmployeeId>, row: Row, k: nat)
    requires k < 12 && FirstFailed(d, validEmail, taken, row, k)
    ensures Judged(d, validEmail, taken, row) == CHECKS[k]
  {
    if k < 4 {
      EarlyCheckDecides(d, validEmail, taken, row);
    } else if k < 6 {
      CompanyCheckDecides(d, validEmail, taken, row);
    } else if k < 8 {
      UnitCheckDecides(d, validEmail, taken, row);
    } else {
      LateCheckDecides(d, validEmail, taken, row, k);
    }
  }

  lemma AllChecksPlace(d: Directory, validEmail: string -> bool, taken: set<EmployeeId>, row: Row)
    requires PassesBefore(d, validEmail, taken, row, 12)
    ensures var verdict := Judged(d, validEmail, taken, row);
      && verdict.Place? && (verdict.placement.status == Exception <==> d.TeamCode(row.teamCode).None?)
      && forall id :: Sits(d, row, id) <==> id == verdict.placement.organizationId
  {
    EarlyChecksPass(d, validEmail, taken, row);
    TargetIsFound(d, validEmail, taken, row);
    TextIff(row.email);
    TextIff(row.password);
    assert Passes(d, validEmail, taken, row, 8) && Passes(d, validEmail, taken, row, 9);
    assert Passes(d, validEmail, taken, row, 10) && Passes(d, validEmail, taken, row, 11);
  }

  lemma {:induction false} SomeCheckFails(d: Directory, validEmail: string -> bool, taken: set<EmployeeId>, row: Row,
          n: nat)
    ensures PassesBefore(d, validEmail, taken, row, n)
      || exists k: nat :: k < n && FirstFailed(d, validEmail, taken, row, k)
  {
    if n > 0 {
      SomeCheckFails(d, validEmail, taken, row, n - 1);
      if PassesBefore(d, validEmail, taken, row, n - 1) && !Passes(d, validEmail, taken, row, n - 1) {
        assert FirstFailed(d, validEmail, taken, row, n - 1);
      }
    }
  }

  /** A row gets the verdict of the first check it fails. One that passes all twelve is placed in
      the one organization that it leads to, as an exception exactly if it has no team code. */
  lemma FirstFailedCheckDecides(d: Directory, validEmail: string -> bool, taken: set<EmployeeId>, row: Row)
    ensures var verdict := Judged(d, validEmail, taken, row);
      && (forall k: nat :: k < 12 ==> (verdict == CHECKS[k] <==> FirstFailed(d, validEmail, taken, row, k)))
      && (verdict.Place? <==> PassesBefore(d, validEmail, taken, row, 12))
      && (verdict.Place? ==>
           && (forall id :: Sits(d, row, id) <==> id == verdict.placement.organizationId)
           && (verdict.placement.status == Exception <==> d.TeamCode(row.teamCode).None?))
  {
    SomeCheckFails(d, validEmail, taken, row, 12);
    if PassesBefore(d, validEmail, taken, row, 12) {
      AllChecksPlace(d, validEmail, taken, row);
    } else {
      var k: nat :| k < 12 && FirstFailed(d, validEmail, taken, row, k);
      OnlyFirstFails(d, validEmail, taken, row, k);
    }
  }

  lemma OnlyFirstFails(d: Directory, validEmail: string -> bool, taken: set<EmployeeId>, row: Row, k: nat)
    requires k < 12 && FirstFailed(d, validEmail, taken, row, k)
    ensures forall j: nat :: j < 12 ==>
      (Judged(d, validEmail, taken, row) == CHECKS[j] <==> FirstFailed(d, validEmail, taken, row, j))
    ensures !Judged(d, validEmail, taken, row).Place?
  {
    FirstFailedDecides(d, validEmail, taken, row, k);
    forall j: nat | j < 12 && j != k ensures CHECKS[j] != CHECKS[k] && !FirstFailed(d, validEmail, taken, row, j) {
      ChecksDiffer(j, k);
    }
  }

  lemma ChecksDiffer(i: nat, j: nat)
    requires i < 12 && j < 12 && i != j
    ensures CHECKS[i] != CHECKS[j] && !CHECKS[i].Place?
  {
  }

  // ----- the report -----

  /** A row is reported with the check it failed; one that passed is a duplicate where its id is in
      the table by now, and failed where the employee or the account could not be written. */
  ghost predicate Refuses(l: Ledger, verdict: Verdict, id: EmployeeId, outcome: Outcome, code: Code) {
    || verdict == Reject(code)
    || (verdict.Place? && id in l.table && code == DuplicateEmployeeId)
    || (verdict.Place? && id !in l.table && outcome != Saved && code == CreateFailed)
  }

  ghost predicate Creates(l: Ledger, verdict: Verdict, id: EmployeeId, outcome: Outcome) {
    verdict.Place? && id !in l.table && outcome == Saved
  }

  lemma AppliedMeans(l: Ledger, index: nat, verdict: Verdict, id: EmployeeId, outcome: Outcome)
    ensures var after := Applied(l, index, verdict, id, outcome);
      && (forall e :: e in after.errors
           <==> e in l.errors || (e.index == index && Refuses(l, verdict, id, outcome, e.code)))
      && (forall x :: x in after.created <==> x in l.created || (x == id && Creates(l, verdict, id, outcome)))
      && (forall x :: x in after.taken <==> x in l.taken || (x == id && Creates(l, verdict, id, outcome)))
      && (forall x ::
           x in after.table <==> x in l.table || (x == id && verdict.Place? && outcome != CreateFails))
  {
  }

  ghost predicate RefusedAt(judge: Judge, l: Ledger, rows: seq<Row>, outcomes: seq<Outcome>, i: nat, code: Code)
    requires |outcomes| == |rows|
  {
    && i < |rows|
    && var before := AfterRows(judge, l, rows[..i], outcomes[..i]);
       Refuses(before, judge(before.taken, rows[i]), PhoneId(rows[i].employeeId), outcomes[i], code)
  }

  ghost predicate CreatedAt(judge: Judge, l: Ledger, rows: seq<Row>, outcomes: seq<Outcome>, i: nat, id: EmployeeId)
    requires |outcomes| == |rows|
  {
    && i < |rows| && id == PhoneId(rows[i].employeeId)
    && var before := AfterRows(judge, l, rows[..i], outcomes[..i]);
       Creates(before, judge(before.taken, rows[i]), id, outcomes[i])
  }

  lemma OneMoreRow(judge: Judge, l: Ledger, rows: seq<Row>, outcomes: seq<Outcome>, n: nat)
    requires |outcomes| == |rows| && n < |rows|
    ensures var before := AfterRows(judge, l, rows[..n], outcomes[..n]);
      AfterRows(judge, l, rows[..n + 1], outcomes[..n + 1])
      == Applied(before, n, judge(before.taken, rows[n]), PhoneId(rows[n].employeeId), outcomes[n])
  {
    assert rows[..n + 1][..n] == rows[..n] && outcomes[..n + 1][..n] == outcomes[..n];
  }

  lemma CreatedNext(judge: Judge, l: Ledger, rows: seq<Row>, outcomes: seq<Outcome>, n: nat, id: EmployeeId)
    requires |outcomes| == |rows| && n < |rows|
    ensures id in AfterRows(judge, l, rows[..n + 1], outcomes[..n + 1]).created
      <==> id in AfterRows(judge, l, rows[..n], outcomes[..n]).created || CreatedAt(judge, l, rows, outcomes, n, id)
  {
    OneMoreRow(judge, l, rows, outcomes, n);
    var before := AfterRows(judge, l, rows[..n], outcomes[..n]);
    AppliedMeans(before, n, judge(before.taken, rows[n]), PhoneId(rows[n].employeeId), outcomes[n]);
  }

  lemma {:induction false} CreatedStays(judge: Judge, l: Ledger, rows: seq<Row>, outcomes: seq<Outcome>, m: nat,
          n: nat, id: EmployeeId)
    requires |outcomes| == |rows| && m <= n <= |rows|
    requires id in AfterRows(judge, l, rows[..m], outcomes[..m]).created
    ensures id in AfterRows(judge, l, rows[..n], outcomes[..n]).created
    decreases n - m
  {
    if m < n {
      CreatedNext(judge, l, rows, outcomes, m, id);
      CreatedStays(judge, l, rows, outcomes, m + 1, n, id);
    }
  }

  lemma {:induction false} WhoCreated(judge: Judge, l: Ledger, rows: seq<Row>, outcomes: seq<Outcome>, n: nat,
          id: EmployeeId) returns (i: nat)
    requires |outcomes| == |rows| && n <= |rows|
    requires id in AfterRows(judge, l, rows[..n], outcomes[..n]).created && id !in l.created
    ensures i < n && CreatedAt(judge, l, rows, outcomes, i, id)
  {
    NoRowsYet(judge, l, rows, outcomes);
    CreatedNext(judge, l, rows, outcomes, n - 1, id);
    if id in AfterRows(judge, l, rows[..n - 1], outcomes[..n - 1]).created {
      i := WhoCreated(judge, l, rows, outcomes, n - 1, id);
    } else {
      i := n - 1;
    }
  }

  lemma NoRowsYet(judge: Judge, l: Ledger, rows: seq<Row>, outcomes: seq<Outcome>)
    requires |outcomes| == |rows|
    ensures AfterRows(judge, l, rows[..0], outcomes[..0]) == l
  {
  }

  lemma CreatedThen(judge: Judge, l: Ledger, rows: seq<Row>, outcomes: seq<Outcome>, n: nat, id: EmployeeId, i: nat)
    requires |outcomes| == |rows| && i < n <= |rows| && CreatedAt(judge, l, rows, outcomes, i, id)
    ensures id in AfterRows(judge, l, rows[..n], outcomes[..n]).created
  {
    CreatedNext(judge, l, rows, outcomes, i, id);
    CreatedStays(judge, l, rows, outcomes, i + 1, n, id);
  }

  /** After `n` rows: who was created, and which rows were refused. */
  lemma CreatedIff(judge: Judge, l: Ledger, rows: seq<Row>, outcomes: seq<Outcome>, n: nat, id: EmployeeId)
    requires |outcomes| == |rows| && n <= |rows|
    ensures id in AfterRows(judge, l, rows[..n], outcomes[..n]).created
      <==> id in l.created || exists i: nat :: i < n && CreatedAt(judge, l, rows, outcomes, i, id)
  {
    NoRowsYet(judge, l, rows, outcomes);
    if id in l.created {
      CreatedStays(judge, l, rows, outcomes, 0, n, id);
    } else if id in AfterRows(judge, l, rows[..n], outcomes[..n]).created {
      var i := WhoCreated(judge, l, rows, outcomes, n, id);
    }
    forall i: nat | i < n && CreatedAt(judge, l, rows, outcomes, i, id)
        ensures id in AfterRows(judge, l, rows[..n], outcomes[..n]).created {
      CreatedThen(judge, l, rows, outcomes, n, id, i);
    }
  }

  lemma {:induction false} ErrorIff(judge: Judge, l: Ledger, rows: seq<Row>, outcomes: seq<Outcome>, n: nat,
          e: RowError)
    requires |outcomes| == |rows| && n <= |rows|
    ensures e in AfterRows(judge, l, rows[..n], outcomes[..n]).errors
      <==> e in l.errors || (e.index < n && RefusedAt(judge, l, rows, outcomes, e.index, e.code))
  {
    if n > 0 {
      ErrorIff(judge, l, rows, outcomes, n - 1, e);
      OneMoreRow(judge, l, rows, outcomes, n - 1);
      var before := AfterRows(judge, l, rows[..n - 1], outcomes[..n - 1]);
      var verdict := judge(before.taken, rows[n - 1]);
      AppliedMeans(before, n - 1, verdict, PhoneId(rows[n - 1].employeeId), outcomes[n - 1]);
    }
  }

  /** The report of an upload names exactly the refused rows, each with its code, and counts exactly
      the created ids. */
  lemma ReportIff(judge: Judge, rows: seq<Row>, employees: map<EmployeeId, Placement>, outcomes: seq<Outcome>)
    requires |outcomes| == |rows|
    ensures var start := Start(rows, employees);
      var after := AfterRows(judge, start, rows, outcomes);
      && (forall e :: e in after.errors <==> RefusedAt(judge, start, rows, outcomes, e.index, e.code))
      && (forall id :: id in after.created <==> exists i: nat :: CreatedAt(judge, start, rows, outcomes, i, id))
  {
    var start := Start(rows, employees);
    assert rows[..|rows|] == rows && outcomes[..|rows|] == outcomes;
    forall e: RowError { ErrorIff(judge, start, rows, outcomes, |rows|, e); }
    forall id: EmployeeId { CreatedIff(judge, start, rows, outcomes, |rows|, id); }
  }

  lemma {:induction false} TakenGrows(judge: Judge, l: Ledger, rows: seq<Row>, outcomes: seq<Outcome>, id: EmployeeId)
    requires |outcomes| == |rows| && l.created == []
    ensures var after := AfterRows(judge, l, rows, outcomes);
            id in after.taken <==> id in l.taken || id in after.created
  {
    if rows != [] {
      var n := |rows| - 1;
      TakenGrows(judge, l, rows[..n], outcomes[..n], id);
      var before := AfterRows(judge, l, rows[..n], outcomes[..n]);
      AppliedMeans(before, n, judge(before.taken, rows[n]), PhoneId(rows[n].employeeId), outcomes[n]);
    }
  }

  /** The id of a row counts as in use when an employee had it before the upload or an earlier row
      was created with it. */
  lemma InUseIff(judge: Judge, rows: seq<Row>, employees: map<EmployeeId, Placement>, outcomes: seq<Outcome>, i: nat)
    requires |outcomes| == |rows| && i < |rows| && HasDigit(rows[i].employeeId)
    ensures var id, l := PhoneId(rows[i].employeeId), Start(rows, employees);
      id in AfterRows(judge, l, rows[..i], outcomes[..i]).taken
      <==> id in employees || exists j: nat :: j < i && CreatedAt(judge, l, rows, outcomes, j, id)
  {
    var id, l := PhoneId(rows[i].employeeId), Start(rows, employees);
    PhoneIdIff(rows[i].employeeId);
    TakenGrows(judge, l, rows[..i], outcomes[..i], id);
    CreatedIff(judge, l, rows, outcomes, i, id);
  }
}
