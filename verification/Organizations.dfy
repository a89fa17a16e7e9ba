// The organization table and the classification every tree walk uses.
module Organizations {
  import opened Wrappers

  type OrgId = string

  /** One row. `deleted` is deletedAt being set. */
  datatype Organization = Organization(
    id: OrgId,
    parentId: Option<OrgId>,
    teamCode: Option<string>,
    deleted: bool
  )

  datatype Classification = Admin | Company | Group | Unit

  const CODEEDGE_ROOT_ORGANIZATION_ID: OrgId := "org-codeedge"
  const LEGACY_ROOT_ORGANIZATION_ID: OrgId := "org-root"

  predicate IsRootId(id: OrgId) {
    id == CODEEDGE_ROOT_ORGANIZATION_ID || id == LEGACY_ROOT_ORGANIZATION_ID
  }

  function Classify(org: Organization): Classification {
    if IsRootId(org.id) then Admin
    else if Truthy(org.parentId) && IsRootId(org.parentId.value) then Company
    else if Truthy(org.teamCode) then Unit
    else Group
  }

  /** The two roots are administrative whatever their row says; a child of a root is a company even
      with a team code; everywhere else the team code alone makes a unit. */
  lemma ClassifyMeans(org: Organization)
    ensures Classify(org) == Admin <==> org.id in {"org-codeedge", "org-root"}
    ensures Classify(org) != Admin ==>
              (Classify(org) == Company <==> org.parentId in {Some("org-codeedge"), Some("org-root")})
    ensures Classify(org) !in {Admin, Company} ==>
              (Classify(org) == Unit <==> exists code :: org.teamCode == Some(code) && code != "")
  {
  }

  /** Rows as a query returns them; ids are the primary key. */
  ghost predicate UniqueIds(rows: seq<Organization>) {
    forall i, j :: 0 <= i < j < |rows| ==> rows[i].id != rows[j].id
  }

  predicate HasId(rows: seq<Organization>, id: OrgId) {
    exists o :: o in rows && o.id == id
  }

  /** Map.get on the rows keyed by id. */
  function Lookup(rows: seq<Organization>, id: OrgId): (r: Option<Organization>)
    ensures r.Some? ==> r.value in rows && r.value.id == id
    ensures r.None? ==> forall o :: o in rows ==> o.id != id
  {
    if rows == [] then None
    else if rows[0].id == id then Some(rows[0])
    else Lookup(rows[1..], id)
  }

  /** The parent a walk follows from `id`, when the row exists and names one. */
  function ParentOf(rows: seq<Organization>, id: OrgId): Option<OrgId> {
    var org :- Lookup(rows, id);
    if Truthy(org.parentId) then org.parentId else None
  }

  /** A parent is named by a row and not blank. */
  lemma ParentIff(rows: seq<Organization>, id: OrgId, parent: OrgId)
    requires UniqueIds(rows)
    ensures ParentOf(rows, id) == Some(parent)
      <==> parent != "" && exists o :: o in rows && o.id == id && o.parentId == Some(parent)
  {
  }

  /** The k-th parent of `id`. The id itself and the last parent named need not have a row. */
  ghost function Up(rows: seq<Organization>, id: OrgId, k: nat): Option<OrgId>
    decreases k
  {
    if k == 0 then Some(id)
    else
      var parent :- ParentOf(rows, id);
      Up(rows, parent, k - 1)
  }

  lemma {:induction false} UpCompose(rows: seq<Organization>, id: OrgId, j: nat, k: nat)
    ensures Up(rows, id, j + k)
         == (match Up(rows, id, j) case None => None case Some(x) => Up(rows, x, k))
    decreases j
  {
    if j != 0 {
      match ParentOf(rows, id)
      case None =>
      case Some(p) => UpCompose(rows, p, j - 1, k);
    }
  }

  lemma OneLevelUp(rows: seq<Organization>, id: OrgId, n: nat, at: OrgId)
    requires Up(rows, id, n) == Some(at) && ParentOf(rows, at).Some?
    ensures Up(rows, id, n + 1) == ParentOf(rows, at)
  {
    UpCompose(rows, id, n, 1);
    assert Up(rows, ParentOf(rows, at).value, 0) == ParentOf(rows, at);
  }

  /** `a` is `b` or one of its ancestors. */
  ghost predicate IsAncestorOrSelf(rows: seq<Organization>, a: OrgId, b: OrgId) {
    exists k: nat :: Up(rows, b, k) == Some(a)
  }

  /** A ranking that decreases towards the root. */
  ghost predicate RanksUpward(rows: seq<Organization>, rank: OrgId -> nat) {
    forall o :: o in rows && Truthy(o.parentId) ==> rank(o.parentId.value) < rank(o.id)
  }

  lemma {:induction false} UpDescendsRank(rows: seq<Organization>, rank: OrgId -> nat, id: OrgId, k: nat)
    requires RanksUpward(rows, rank)
    requires Up(rows, id, k).Some?
    ensures rank(Up(rows, id, k).value) + k <= rank(id)
    decreases k
  {
    if k != 0 {
      UpDescendsRank(rows, rank, ParentOf(rows, id).value, k - 1);
    }
  }

  /** No organization is its own ancestor. */
  ghost predicate NoCycles(rows: seq<Organization>) {
    forall id: OrgId, k: nat :: k > 0 ==> Up(rows, id, k) != Some(id)
  }

  /** The nodes that the first k steps of the walk leave behind. */
  ghost function Path(rows: seq<Organization>, id: OrgId, k: nat): set<OrgId>
    requires Up(rows, id, k).Some?
    decreases k
  {
    if k == 0 then {} else {id} + Path(rows, ParentOf(rows, id).value, k - 1)
  }

  lemma {:induction false} PathIsWalked(rows: seq<Organization>, id: OrgId, k: nat, x: OrgId)
    requires Up(rows, id, k).Some? && x in Path(rows, id, k)
    ensures exists j: nat :: j < k && Up(rows, id, j) == Some(x)
    ensures HasId(rows, x)
    decreases k
  {
    if x == id {
      assert Up(rows, id, 0) == Some(x);
    } else {
      PathIsWalked(rows, ParentOf(rows, id).value, k - 1, x);
      var j: nat :| j < k - 1 && Up(rows, ParentOf(rows, id).value, j) == Some(x);
      assert Up(rows, id, j + 1) == Some(x);
    }
  }

  /** Without cycles a walk leaves a new row behind at every step. */
  lemma {:induction false} PathGrows(rows: seq<Organization>, id: OrgId, k: nat)
    requires NoCycles(rows) && Up(rows, id, k).Some?
    ensures |Path(rows, id, k)| == k
    decreases k
  {
    if k != 0 {
      var parent := ParentOf(rows, id).value;
      PathGrows(rows, parent, k - 1);
      if id in Path(rows, parent, k - 1) {
        PathIsWalked(rows, parent, k - 1, id);
        var j: nat :| j < k - 1 && Up(rows, parent, j) == Some(id);
        UpCompose(rows, id, 1, j);
        assert false;
      }
    }
  }

  lemma {:induction false} FewIds(rows: seq<Organization>)
    ensures |set o | o in rows :: o.id| <= |rows|
  {
    if rows != [] {
      FewIds(rows[1..]);
      assert (set o | o in rows :: o.id) == {rows[0].id} + set o | o in rows[1..] :: o.id;
    }
  }

  lemma WalkIsShort(rows: seq<Organization>, id: OrgId, k: nat)
    requires NoCycles(rows) && Up(rows, id, k).Some?
    ensures k <= |rows|
  {
    PathGrows(rows, id, k);
    var ids := set o | o in rows :: o.id;
    forall x | x in Path(rows, id, k) ensures x in ids {
      PathIsWalked(rows, id, k, x);
    }
    SubsetIsSmaller(Path(rows, id, k), ids);
    FewIds(rows);
  }

  /** The levels above an organization, counted up to n. */
  ghost function Height(rows: seq<Organization>, id: OrgId, n: nat): (h: nat)
    ensures h <= n && Up(rows, id, h).Some?
    decreases n
  {
    if n == 0 || ParentOf(rows, id).None? then 0 else 1 + Height(rows, ParentOf(rows, id).value, n - 1)
  }

  lemma {:induction false} HeightIsReached(rows: seq<Organization>, id: OrgId, n: nat)
    requires Height(rows, id, n + 1) <= n
    ensures Height(rows, id, n) == Height(rows, id, n + 1)
    decreases n
  {
    if n != 0 && ParentOf(rows, id).Some? {
      HeightIsReached(rows, ParentOf(rows, id).value, n - 1);
    }
  }

  /** A ranking exists exactly for tables without parent cycles. */
  lemma RankingExistsIff(rows: seq<Organization>)
    requires UniqueIds(rows)
    ensures (exists rank: OrgId -> nat :: RanksUpward(rows, rank)) <==> NoCycles(rows)
  {
    if rank: OrgId -> nat :| RanksUpward(rows, rank) {
      forall id: OrgId, k: nat | k > 0 && Up(rows, id, k) == Some(id) ensures false {
        UpDescendsRank(rows, rank, id, k);
      }
    }
    if NoCycles(rows) {
      var rank := id => Height(rows, id, |rows| + 1);
      forall o | o in rows && Truthy(o.parentId) ensures rank(o.parentId.value) < rank(o.id) {
        var parent := o.parentId.value;
        assert ParentOf(rows, o.id) == Some(parent);
        WalkIsShort(rows, parent, rank(parent));
        HeightIsReached(rows, parent, |rows|);
      }
      assert RanksUpward(rows, rank);
    }
  }

  /** The rows filed under `key` in childrenByParentId. */
  function Children(rows: seq<Organization>, key: OrgId): (r: seq<Organization>)
    ensures forall c :: c in r <==> c in rows && Truthy(c.parentId) && c.parentId.value == key
  {
    if rows == [] then []
    else
      var rest := Children(rows[1..], key);
      if Truthy(rows[0].parentId) && rows[0].parentId.value == key then [rows[0]] + rest else rest
  }

  lemma ChildrenAreParented(rows: seq<Organization>, key: OrgId, c: Organization)
    requires UniqueIds(rows)
    ensures c in Children(rows, key)
      <==> c in rows && ParentOf(rows, c.id) == Some(key) && Lookup(rows, c.id) == Some(c)
  {
  }

  function ChildIds(children: seq<Organization>): set<OrgId> {
    set c | c in children :: c.id
  }

  lemma ChildIdsAreParented(rows: seq<Organization>, key: OrgId)
    requires UniqueIds(rows)
    ensures forall id :: id in ChildIds(Children(rows, key)) <==> ParentOf(rows, id) == Some(key)
  {
    forall id ensures id in ChildIds(Children(rows, key)) <==> ParentOf(rows, id) == Some(key) {
      if ParentOf(rows, id) == Some(key) {
        ChildrenAreParented(rows, key, Lookup(rows, id).value);
      }
      if c :| c in Children(rows, key) && c.id == id {
        ChildrenAreParented(rows, key, c);
      }
    }
  }

  lemma {:induction false} ChildrenDistinct(rows: seq<Organization>, key: OrgId)
    requires UniqueIds(rows)
    ensures UniqueIds(Children(rows, key))
  {
    if rows != [] {
      ChildrenDistinct(rows[1..], key);
    }
  }
}
