// The look-up tables of a bulk upload: the company of an organization, companies by name, and
// units by company and team code. A key that several units carry is filed as ambiguous, so that
// the upload can refuse it instead of choosing one.
module BulkDirectory {
  import opened Wrappers
  import opened Strings
  import opened Organizations

  /** Active organizations in scope with their names; `upper` and `lower` are the case mappings. */
  datatype Directory = Directory(rows: seq<Organization>, nameOf: OrgId -> string, upper: string -> string,
      lower: string -> string) {
    function TeamCode(code: Option<string>): (r: Option<string>)
      ensures r.Some? ==> r.value != ""
    {
      if code.None? || upper(Trim(code.value)) == "" then None else Some(upper(Trim(code.value)))
    }

    function CompanyName(name: string): string {
      lower(Trim(name))
    }
  }

  predicate IsCompany(o: Organization) {
    Classify(o).Company?
  }

  predicate IsUnit(o: Organization) {
    Classify(o).Unit?
  }

  // ----- the company above -----

  ghost predicate CompanyRow(rows: seq<Organization>, id: OrgId) {
    Lookup(rows, id).Some? && IsCompany(Lookup(rows, id).value)
  }

  /** `c` is the first company met `k` levels above `id`, every level below having a row. */
  ghost predicate FirstCompanyAt(rows: seq<Organization>, id: OrgId, c: OrgId, k: nat) {
    && Up(rows, id, k) == Some(c) && CompanyRow(rows, c)
    && forall j: nat :: j < k ==> NoCompanyAt(rows, id, j)
  }

  ghost predicate NoCompanyAt(rows: seq<Organization>, id: OrgId, j: nat) {
    Up(rows, id, j).Some? ==> !CompanyRow(rows, Up(rows, id, j).value)
  }

  /** Nothing above `id` is a company. */
  ghost predicate NoCompanyAbove(rows: seq<Organization>, id: OrgId) {
    forall j: nat :: NoCompanyAt(rows, id, j)
  }

  /** A set closed under parents that holds no company shuts companies out for ever. */
  lemma {:induction false} ClosedHasNoCompany(rows: seq<Organization>, visited: set<OrgId>, id: OrgId, j: nat)
    requires id in visited
    requires forall x ::
      x in visited ==> !CompanyRow(rows, x) && (ParentOf(rows, x).Some? ==> ParentOf(rows, x).value in visited)
    ensures NoCompanyAt(rows, id, j)
    decreases j
  {
    if j > 0 && ParentOf(rows, id).Some? {
      ClosedHasNoCompany(rows, visited, ParentOf(rows, id).value, j - 1);
      assert Up(rows, id, j) == Up(rows, ParentOf(rows, id).value, j - 1);
    }
  }

  /** The nodes passed so far: no company among them, and the parent of each was passed too or is
      the current node. */
  ghost predicate Passed(rows: seq<Organization>, id: OrgId, n: nat, at: OrgId, visited: set<OrgId>) {
    && Up(rows, id, n) == Some(at)
    && (n > 0 ==> id in visited) && (n == 0 ==> at == id)
    && (forall x :: x in visited
         ==> !CompanyRow(rows, x) && ParentOf(rows, x).Some? && ParentOf(rows, x).value in visited + {at})
    && forall j: nat :: j < n ==> NoCompanyAt(rows, id, j)
  }

  lemma PassOn(rows: seq<Organization>, id: OrgId, n: nat, at: OrgId, visited: set<OrgId>)
    requires Passed(rows, id, n, at, visited) && !CompanyRow(rows, at) && ParentOf(rows, at).Some?
    ensures Passed(rows, id, n + 1, ParentOf(rows, at).value, visited + {at})
  {
    OneLevelUp(rows, id, n, at);
    assert NoCompanyAt(rows, id, n);
  }

  /** The walk is over: at a node passed before, or at one without a parent or a row. */
  lemma PassedAll(rows: seq<Organization>, id: OrgId, n: nat, at: OrgId, visited: set<OrgId>)
    requires Passed(rows, id, n, at, visited)
    requires at in visited || (!CompanyRow(rows, at) && ParentOf(rows, at).None?)
    ensures NoCompanyAbove(rows, id)
  {
    forall j: nat ensures NoCompanyAt(rows, id, j) {
      ClosedHasNoCompany(rows, visited + {at}, id, j);
    }
  }

  lemma FirstIsUnique(rows: seq<Organization>, id: OrgId, c: OrgId, d: OrgId, k: nat, m: nat)
    requires FirstCompanyAt(rows, id, c, k) && FirstCompanyAt(rows, id, d, m)
    ensures c == d
  {
    assert k < m ==> NoCompanyAt(rows, id, k);
    assert m < k ==> NoCompanyAt(rows, id, m);
  }

  ghost predicate IsFirstCompany(rows: seq<Organization>, id: OrgId, c: OrgId) {
    exists k: nat :: FirstCompanyAt(rows, id, c, k)
  }

  /** The first company at or above an organization. */
  ghost function CompanyOf(rows: seq<Organization>, id: OrgId): (r: Option<OrgId>)
    ensures r.Some? ==> IsFirstCompany(rows, id, r.value)
  {
    if exists c :: IsFirstCompany(rows, id, c) then var c :| IsFirstCompany(rows, id, c); Some(c) else None
  }

  lemma CompanyIs(rows: seq<Organization>, id: OrgId, c: OrgId, k: nat)
    requires FirstCompanyAt(rows, id, c, k)
    ensures CompanyOf(rows, id) == Some(c)
  {
    assert IsFirstCompany(rows, id, c);
    var d := CompanyOf(rows, id).value;
    var m: nat :| FirstCompanyAt(rows, id, d, m);
    FirstIsUnique(rows, id, c, d, k, m);
  }

  lemma NoCompany(rows: seq<Organization>, id: OrgId)
    requires NoCompanyAbove(rows, id)
    ensures CompanyOf(rows, id) == None
  {
    forall c, k: nat ensures !FirstCompanyAt(rows, id, c, k) {
      assert NoCompanyAt(rows, id, k);
    }
  }

  /** resolveCompanyId: the visited set ends the walk on every table, cycles included. */
  method ResolveCompanyId(rows: seq<Organization>, organizationId: OrgId) returns (r: Option<OrgId>)
    ensures r == CompanyOf(rows, organizationId)
  {
    var visited: set<OrgId> := {};
    var current := Lookup(rows, organizationId);
    ghost var n, at := 0, organizationId;
    ghost var ids := set o | o in rows :: o.id;
    while current.Some? && current.value.id !in visited
      invariant Passed(rows, organizationId, n, at, visited) && current == Lookup(rows, at)
      invariant visited <= ids
      decreases ids - visited
    {
      var organization := current.value;
      if IsCompany(organization) {
        CompanyIs(rows, organizationId, at, n);
        return Some(organization.id);
      }
      var parentId := organization.parentId;
      if !Truthy(parentId) {
        PassedAll(rows, organizationId, n, at, visited);
        NoCompany(rows, organizationId);
        return None;
      }
      PassOn(rows, organizationId, n, at, visited);
      visited := visited + {organization.id};
      n, at := n + 1, parentId.value;
      current := Lookup(rows, parentId.value);
    }
    PassedAll(rows, organizationId, n, at, visited);
    NoCompany(rows, organizationId);
    r := None;
  }

  // ----- units by company and team code -----

  function KeyOf(company: OrgId, code: string): string {
    company + "|" + code
  }

  /** The key under which a unit is filed, when it has a company and a team code. */
  ghost function UnitKey(d: Directory, o: Organization): Option<string> {
    var company, code := CompanyOf(d.rows, o.id), d.TeamCode(o.teamCode);
    if !IsUnit(o) || company.None? || company.value == "" || code.None? then None
        else Some(KeyOf(company.value, code.value))
  }

  ghost predicate Carries(d: Directory, o: Organization, key: string) {
    UnitKey(d, o) == Some(key)
  }

  /** The units among `rows` filed under a key, in order. */
  ghost function Carriers(d: Directory, rows: seq<Organization>, key: string): (r: seq<Organization>)
    ensures forall o :: o in r <==> o in rows && Carries(d, o, key)
  {
    if rows == [] then []
    else
      var before, last := Carriers(d, rows[..|rows| - 1], key), rows[|rows| - 1];
      assert rows == rows[..|rows| - 1] + [last];
      if Carries(d, last, key) then before + [last] else before
  }

  /** A key of the index: absent, ambiguous, or one unit. */
  type UnitIndex = map<string, Option<OrgId>>

  ghost predicate IndexOf(d: Directory, index: UnitIndex, rows: seq<Organization>) {
    && (forall key :: key in index <==> Carriers(d, rows, key) != [])
    && forall key :: key in index
         ==> index[key] == if |Carriers(d, rows, key)| == 1 then Some(Carriers(d, rows, key)[0].id) else None
  }

  /** A key leads to a unit exactly if that unit, and no other row, carries the key. */
  method IndexUnits(d: Directory) returns (index: UnitIndex)
    ensures IndexOf(d, index, d.rows)
  {
    index := map[];
    for i := 0 to |d.rows|
      invariant IndexOf(d, index, d.rows[..i])
    {
      var organization := d.rows[i];
      assert d.rows[..i + 1] == d.rows[..i] + [organization];
      if !IsUnit(organization) {
        continue;
      }
      var companyId := ResolveCompanyId(d.rows, organization.id);
      var normalizedTeamCode := d.TeamCode(organization.teamCode);
      if !Truthy(companyId) || normalizedTeamCode.None? {
        continue;
      }
      var key := KeyOf(companyId.value, normalizedTeamCode.value);
      index := index[key := if key in index then None else Some(organization.id)];
    }
    assert d.rows[..|d.rows|] == d.rows;
  }

  /** One row carries the key, and it is the one with this id. */
  ghost predicate OnlyCarrier(d: Directory, key: string, o: Organization) {
    o in d.rows && Carries(d, o, key) && forall p :: p in d.rows && Carries(d, p, key) ==> p == o
  }

  /** On rows with unique ids, a key leads to a unit exactly if that unit alone carries it. */
  lemma UniqueCarrierIff(d: Directory, index: UnitIndex, key: string, id: OrgId)
    requires UniqueIds(d.rows) && IndexOf(d, index, d.rows)
    ensures key in index && index[key] == Some(id) <==> exists o :: OnlyCarrier(d, key, o) && o.id == id
  {
    if o :| OnlyCarrier(d, key, o) && o.id == id {
      OnlyCarrierIsFound(d, key, o);
    }
    if key in index && index[key] == Some(id) {
      FoundIsOnlyCarrier(d, key);
    }
  }

  lemma FoundIsOnlyCarrier(d: Directory, key: string)
    requires |Carriers(d, d.rows, key)| == 1
    ensures OnlyCarrier(d, key, Carriers(d, d.rows, key)[0])
  {
    var c := Carriers(d, d.rows, key);
    Sole(c);
  }

  lemma Sole(c: seq<Organization>)
    requires |c| == 1
    ensures c[0] in c && forall p :: p in c ==> p == c[0]
  {
  }

  lemma OnlyCarrierIsFound(d: Directory, key: string, o: Organization)
    requires UniqueIds(d.rows) && OnlyCarrier(d, key, o)
    ensures Carriers(d, d.rows, key) == [o]
  {
    var c := Carriers(d, d.rows, key);
    assert o in c && c[0] in c;
    CarriersUnique(d, d.rows, key);
    if |c| > 1 { TwoDiffer(c); }
  }

  lemma TwoDiffer(c: seq<Organization>)
    requires |c| > 1 && UniqueIds(c)
    ensures exists p, q :: p in c && q in c && p != q
  {
    assert c[0] in c && c[1] in c && c[0] != c[1];
  }

  lemma {:induction false} CarriersUnique(d: Directory, rows: seq<Organization>, key: string)
    requires UniqueIds(rows)
    ensures UniqueIds(Carriers(d, rows, key))
  {
    if rows != [] {
      var n := |rows| - 1;
      CarriersUnique(d, rows[..n], key);
      var before := Carriers(d, rows[..n], key);
      forall i | 0 <= i < |before| ensures before[i].id != rows[n].id {
        assert before[i] in before;
        var j :| 0 <= j < n && rows[..n][j] == before[i];
      }
    }
  }

  // ----- what a key means -----

  /** No id of `ids` is another one followed by a bar and more. */
  ghost predicate Apart(ids: set<OrgId>) {
    forall a, b :: a in ids && b in ids ==> !(a + "|" <= b)
  }

  /** Different pairs of a company and a team code have different keys. */
  ghost predicate KeysTellApart(ids: set<OrgId>) {
    forall a, b, x, y ::
      a in ids && b in ids && x != "" && y != "" && KeyOf(a, x) == KeyOf(b, y) ==> a == b && x == y
  }

  lemma ShorterIsPrefix(a: OrgId, b: OrgId, x: string, y: string)
    requires KeyOf(a, x) == KeyOf(b, y) && |a| < |b|
    ensures a + "|" <= b
  {
    forall i | 0 <= i < |a| + 1 ensures (a + "|")[i] == b[i] {
      assert (a + "|")[i] == KeyOf(a, x)[i] == KeyOf(b, y)[i];
    }
  }

  lemma SameLengthIsSame(a: OrgId, b: OrgId, x: string, y: string)
    requires KeyOf(a, x) == KeyOf(b, y) && |a| == |b|
    ensures a == b && x == y
  {
    assert a == KeyOf(a, x)[..|a|] && b == KeyOf(b, y)[..|b|];
    assert x == KeyOf(a, x)[|a| + 1..] && y == KeyOf(b, y)[|b| + 1..];
  }

  /** Keys tell companies and team codes apart exactly if no company id is another one followed by
      a bar and more, in particular when no company id contains a bar. */
  lemma KeysTellApartIff(ids: set<OrgId>)
    ensures KeysTellApart(ids) <==> Apart(ids)
  {
    if Apart(ids) {
      forall a, b, x, y | a in ids && b in ids && KeyOf(a, x) == KeyOf(b, y) ensures a == b && x == y {
        SameKeySamePair(ids, a, b, x, y);
      }
    }
    if KeysTellApart(ids) {
      forall a, b | a in ids && b in ids ensures !(a + "|" <= b) {
        if a + "|" <= b { ExtendedCollides(ids, a, b); }
      }
    }
  }

  lemma SameKeySamePair(ids: set<OrgId>, a: OrgId, b: OrgId, x: string, y: string)
    requires Apart(ids) && a in ids && b in ids && KeyOf(a, x) == KeyOf(b, y)
    ensures a == b && x == y
  {
    if |a| < |b| {
      ShorterIsPrefix(a, b, x, y);
    } else if |b| < |a| {
      ShorterIsPrefix(b, a, y, x);
    } else {
      SameLengthIsSame(a, b, x, y);
    }
  }

  lemma ExtendedCollides(ids: set<OrgId>, a: OrgId, b: OrgId)
    requires a in ids && b in ids && a + "|" <= b
    ensures !KeysTellApart(ids)
  {
    var z := b[|a| + 1..];
    assert b == a + "|" + z;
    assert KeyOf(a, z + "|c") == KeyOf(b, "c");
    assert a != b;
  }

  lemma ExtendedHasBar(a: OrgId, b: OrgId)
    requires a + "|" <= b
    ensures '|' in b
  {
    assert b[|a|] == (a + "|")[|a|];
  }

  lemma BarFreeIsApart(ids: set<OrgId>)
    requires forall a :: a in ids ==> '|' !in a
    ensures Apart(ids)
  {
    forall a, b | a in ids && b in ids ensures !(a + "|" <= b) {
      if a + "|" <= b { ExtendedHasBar(a, b); }
    }
  }

  function CompanyIds(rows: seq<Organization>): set<OrgId> {
    set o | o in rows && IsCompany(o) :: o.id
  }

  /** The row is a unit of the company with the normalised team code. */
  ghost predicate UnitOf(d: Directory, o: Organization, company: OrgId, code: string) {
    IsUnit(o) && CompanyOf(d.rows, o.id) == Some(company) && d.TeamCode(o.teamCode) == Some(code)
  }

  /** The only unit of the company with the team code. */
  ghost predicate OnlyUnitOf(d: Directory, o: Organization, company: OrgId, code: string) {
    o in d.rows && UnitOf(d, o, company, code) && forall p :: p in d.rows && UnitOf(d, p, company, code) ==> p == o
  }

  /** Where company ids are apart, carrying a key is being a unit of that company with that code. */
  lemma CarriesIff(d: Directory, o: Organization, company: OrgId, code: string)
    requires Apart(CompanyIds(d.rows)) && company in CompanyIds(d.rows) && company != ""
    ensures Carries(d, o, KeyOf(company, code)) <==> UnitOf(d, o, company, code)
  {
    if Carries(d, o, KeyOf(company, code)) {
      var c := CompanyOf(d.rows, o.id).value;
      CompanyHasId(d.rows, o.id);
      SameKeySamePair(CompanyIds(d.rows), c, company, d.TeamCode(o.teamCode).value, code);
    }
  }

  lemma CompanyHasId(rows: seq<Organization>, id: OrgId)
    requires CompanyOf(rows, id).Some?
    ensures CompanyOf(rows, id).value in CompanyIds(rows)
  {
    var c := CompanyOf(rows, id).value;
    var k: nat :| FirstCompanyAt(rows, id, c, k);
    assert Lookup(rows, c).value in rows;
  }

  /** There a company and a team code lead to a unit exactly if it is the only one of that company
      with that code. */
  lemma UniqueUnitIff(d: Directory, index: UnitIndex, company: OrgId, code: string, id: OrgId)
    requires UniqueIds(d.rows) && IndexOf(d, index, d.rows)
    requires Apart(CompanyIds(d.rows)) && company in CompanyIds(d.rows) && company != ""
    ensures KeyOf(company, code) in index && index[KeyOf(company, code)] == Some(id)
      <==> exists o :: OnlyUnitOf(d, o, company, code) && o.id == id
  {
    UniqueCarrierIff(d, index, KeyOf(company, code), id);
    forall o ensures OnlyCarrier(d, KeyOf(company, code), o) <==> OnlyUnitOf(d, o, company, code) {
      OnlyCarrierIsOnlyUnit(d, o, company, code);
    }
  }

  lemma OnlyCarrierIsOnlyUnit(d: Directory, o: Organization, company: OrgId, code: string)
    requires Apart(CompanyIds(d.rows)) && company in CompanyIds(d.rows) && company != ""
    ensures OnlyCarrier(d, KeyOf(company, code), o) <==> OnlyUnitOf(d, o, company, code)
  {
    forall p ensures Carries(d, p, KeyOf(company, code)) <==> UnitOf(d, p, company, code) {
      CarriesIff(d, p, company, code);
    }
  }

  // ----- companies by name -----

  predicate Named(d: Directory, o: Organization, key: string) {
    IsCompany(o) && d.CompanyName(d.nameOf(o.id)) == key
  }

  /** The companies with a normalised name, in order. */
  function Candidates(d: Directory, key: string): seq<Organization> {
    Filter(d.rows, (o: Organization) => Named(d, o, key))
  }
}

