// The walks that decide which resources a policy may use: one for editing, one for moving.
module PolicyScope {
  import opened Wrappers
  import opened Organizations

  /** The rows with deletedAt null, which both walks look ancestors up in. */
  function Live(rows: seq<Organization>): (r: seq<Organization>)
    ensures forall o :: o in r <==> o in rows && !o.deleted
  {
    if rows == [] then []
    else if rows[0].deleted then Live(rows[1..])
    else [rows[0]] + Live(rows[1..])
  }

  predicate MayShare(o: Organization) {
    Classify(o) in {Group, Company}
  }

  /** Not a root, and the child of a root or without a team code. */
  lemma MayShareMeans(o: Organization)
    ensures MayShare(o)
      <==> && o.id !in {"org-codeedge", "org-root"}
           && (o.parentId in {Some("org-codeedge"), Some("org-root")} || o.teamCode in {None, Some("")})
  {
  }

  /** `id` has a live row classified as group or company. */
  ghost predicate Shares(live: seq<Organization>, id: OrgId) {
    Lookup(live, id).Some? && MayShare(Lookup(live, id).value)
  }

  /** `a` is met `k` levels above `start` and may share its resources. */
  ghost predicate SourceAt(live: seq<Organization>, start: OrgId, a: OrgId, k: nat) {
    Up(live, start, k) == Some(a) && Shares(live, a)
  }

  /** The editing rule: the owner itself and every group or company above it. */
  ghost predicate IsSource(rows: seq<Organization>, owner: OrgId, a: OrgId) {
    a == owner || (ParentOf(rows, owner).Some? && exists k: nat ::
        SourceAt(Live(rows), ParentOf(rows, owner).value, a, k))
  }

  /** `a` is `k` levels above the owner and every step up to it lands on a group or company. */
  ghost predicate AllowedAt(live: seq<Organization>, owner: OrgId, a: OrgId, k: nat) {
    && Up(live, owner, k) == Some(a)
    && forall j: nat :: 0 < j <= k ==> SharesAt(live, owner, j)
  }

  ghost predicate SharesAt(live: seq<Organization>, start: OrgId, j: nat) {
    Up(live, start, j).Some? && Shares(live, Up(live, start, j).value)
  }

  /** The moving rule: the owner itself and the groups and companies of an unbroken chain. */
  ghost predicate IsAllowed(rows: seq<Organization>, owner: OrgId, a: OrgId) {
    Lookup(Live(rows), owner).Some? && exists k: nat :: AllowedAt(Live(rows), owner, a, k)
  }

  // ----- the walks -----

  /** `ids` are the sources met in the first `n` levels above `start`. */
  ghost predicate Collected(live: seq<Organization>, start: OrgId, owner: OrgId, n: nat, ids: set<OrgId>) {
    forall a :: a in ids <==> a == owner || exists k: nat :: k < n && SourceAt(live, start, a, k)
  }

  /** No source lies `n` or more levels above `start`. */
  ghost predicate Exhausted(live: seq<Organization>, start: OrgId, n: nat) {
    forall k: nat, a :: SourceAt(live, start, a, k) ==> k < n
  }

  lemma SourceStep(live: seq<Organization>, start: OrgId, owner: OrgId, n: nat, at: OrgId, ids: set<OrgId>)
    requires Up(live, start, n) == Some(at) && Collected(live, start, owner, n, ids)
    ensures Collected(live, start, owner, n + 1, if Shares(live, at) then ids + {at} else ids)
  {
    var ids' := if Shares(live, at) then ids + {at} else ids;
    forall a ensures a in ids' <==> a == owner || exists k: nat :: k < n + 1 && SourceAt(live, start, a, k) {
      if Shares(live, at) { assert SourceAt(live, start, at, n); }
      if k: nat :| k < n + 1 && SourceAt(live, start, a, k) {
        if k == n { assert a == at; }
      }
    }
  }

  /** Beyond a node without a live row or without a parent the walk meets no source. */
  lemma EndOfWalk(live: seq<Organization>, start: OrgId, n: nat, at: OrgId)
    requires Up(live, start, n) == Some(at) && ParentOf(live, at).None?
    ensures Exhausted(live, start, n + 1)
    ensures Lookup(live, at).None? ==> Exhausted(live, start, n)
  {
    forall k: nat | k > n ensures Up(live, start, k).None? {
      UpCompose(live, start, n, k - n);
    }
  }

  /** resolveRelationSourceOrganizationIds */
  method ResolveRelationSourceOrganizationIds(rows: seq<Organization>, organizationId: OrgId, ghost rank: OrgId -> nat)
    returns (r: Option<set<OrgId>>)
    requires UniqueIds(rows) && RanksUpward(rows, rank)
    ensures r.None? <==> Lookup(rows, organizationId).None?
    ensures r.Some? ==> forall a :: a in r.value <==> IsSource(rows, organizationId, a)
  {
    var owner := Lookup(rows, organizationId);
    if owner.None? {
      return None;
    }
    var live := Live(rows);
    if !Truthy(owner.value.parentId) {
      return Some({organizationId});
    }
    var ids := WalkSources(live, owner.value.parentId.value, organizationId, rank);
    r := Some(ids);
  }

  /** The while loop: it goes on past ancestors that are neither group nor company, and stops
      at the top or at a missing row. */
  method WalkSources(live: seq<Organization>, start: OrgId, organizationId: OrgId, ghost rank: OrgId -> nat)
    returns (ids: set<OrgId>)
    requires RanksUpward(live, rank)
    ensures forall a :: a in ids <==> a == organizationId || exists k: nat :: SourceAt(live, start, a, k)
  {
    ids := {organizationId};
    var currentParentId := Some(start);
    ghost var n, at := 0, start;
    while true
      invariant currentParentId == Some(at) && Up(live, start, n) == Some(at)
      invariant Collected(live, start, organizationId, n, ids)
      decreases rank(at)
    {
      var currentParent := Lookup(live, currentParentId.value);
      if currentParent.None? {
        EndOfWalk(live, start, n, at);
        break;
      }
      SourceStep(live, start, organizationId, n, at, ids);
      if MayShare(currentParent.value) {
        ids := ids + {currentParent.value.id};
      }
      currentParentId := currentParent.value.parentId;
      if !Truthy(currentParentId) {
        EndOfWalk(live, start, n, at);
        n := n + 1;
        break;
      }
      OneLevelUp(live, start, n, at);
      n, at := n + 1, currentParentId.value;
    }
    assert Collected(live, start, organizationId, n, ids) && Exhausted(live, start, n);
  }

  /** isResourceOrganizationAllowedForPolicyOwner */
  method IsResourceOrganizationAllowedForPolicyOwner(rows: seq<Organization>, policyOrganizationId: OrgId,
          resourceOrganizationId: OrgId,
                                                     ghost rank: OrgId -> nat) returns (allowed: bool)
    requires UniqueIds(rows) && RanksUpward(rows, rank)
    ensures allowed <==> IsAllowed(rows, policyOrganizationId, resourceOrganizationId)
  {
    var live := Live(rows);
    var current := Lookup(live, policyOrganizationId);
    if current.None? {
      return false;
    }
    allowed := WalkChain(live, current.value, resourceOrganizationId, rank);
  }

  /** The while loop: it stops at the first ancestor that is neither group nor company. */
  method WalkChain(live: seq<Organization>, first: Organization, resourceOrganizationId: OrgId,
          ghost rank: OrgId -> nat) returns (allowed: bool)
    requires RanksUpward(live, rank) && Lookup(live, first.id) == Some(first)
    ensures allowed <==> exists k: nat :: AllowedAt(live, first.id, resourceOrganizationId, k)
  {
    var current := first;
    ghost var n := 0;
    while true
      invariant Lookup(live, current.id) == Some(current)
      invariant AllowedAt(live, first.id, current.id, n)
      invariant forall k: nat :: k < n ==> !AllowedAt(live, first.id, resourceOrganizationId, k)
      decreases rank(current.id)
    {
      if current.id == resourceOrganizationId {
        return true;
      }
      var parentId := current.parentId;
      if !Truthy(parentId) {
        ChainEnds(live, first.id, n, current.id, resourceOrganizationId);
        return false;
      }
      var parent := Lookup(live, parentId.value);
      if parent.None? || !MayShare(parent.value) {
        ChainEnds(live, first.id, n, current.id, resourceOrganizationId);
        return false;
      }
      ChainStep(live, first.id, n, current.id, resourceOrganizationId);
      current := parent.value;
      n := n + 1;
    }
    assert false;
  }

  lemma ChainStep(live: seq<Organization>, owner: OrgId, n: nat, at: OrgId, r: OrgId)
    requires AllowedAt(live, owner, at, n) && at != r
    requires ParentOf(live, at).Some? && Shares(live, ParentOf(live, at).value)
    requires forall k: nat :: k < n ==> !AllowedAt(live, owner, r, k)
    ensures AllowedAt(live, owner, ParentOf(live, at).value, n + 1)
    ensures forall k: nat :: k < n + 1 ==> !AllowedAt(live, owner, r, k)
  {
    OneLevelUp(live, owner, n, at);
  }

  lemma ChainEnds(live: seq<Organization>, owner: OrgId, n: nat, at: OrgId, r: OrgId)
    requires Up(live, owner, n) == Some(at) && at != r
    requires ParentOf(live, at).None? || !Shares(live, ParentOf(live, at).value)
    requires forall k: nat :: k < n ==> !AllowedAt(live, owner, r, k)
    ensures forall k: nat :: !AllowedAt(live, owner, r, k)
  {
    forall k: nat | k > n ensures !AllowedAt(live, owner, r, k) {
      if ParentOf(live, at).Some? {
        OneLevelUp(live, owner, n, at);
        assert !SharesAt(live, owner, n + 1);
      } else {
        UpCompose(live, owner, n, k - n);
      }
    }
  }

  // ----- how the two rules compare -----

  /** What may stay attached when a resource moves is always something editing would accept. */
  lemma AllowedImpliesSource(rows: seq<Organization>, owner: OrgId, a: OrgId)
    requires UniqueIds(rows) && IsAllowed(rows, owner, a)
    ensures IsSource(rows, owner, a)
  {
    var k: nat :| AllowedAt(Live(rows), owner, a, k);
    if k > 0 {
      assert SharesAt(Live(rows), owner, k);
      assert SourceAt(Live(rows), ParentOf(rows, owner).value, a, k - 1);
    }
  }

  /** No group or company above the owner lies beyond an ancestor that is neither. */
  ghost predicate UnbrokenChain(rows: seq<Organization>, owner: OrgId) {
    ParentOf(rows, owner).Some? ==>
      var start := ParentOf(rows, owner).value;
      forall k: nat, j: nat :: SharesAt(Live(rows), start, k) && j <= k ==> SharesAt(Live(rows), start, j)
  }

  /** The two rules agree on every organization exactly for a live owner whose groups and
      companies form an unbroken chain. */
  lemma RulesAgreeIff(rows: seq<Organization>, rank: OrgId -> nat, owner: OrgId)
    requires UniqueIds(rows) && RanksUpward(rows, rank)
    ensures (forall a :: IsAllowed(rows, owner, a) <==> IsSource(rows, owner, a))
       <==> Lookup(Live(rows), owner).Some? && UnbrokenChain(rows, owner)
  {
    if Lookup(Live(rows), owner).Some? && UnbrokenChain(rows, owner) {
      forall a ensures IsAllowed(rows, owner, a) <==> IsSource(rows, owner, a) {
        if IsAllowed(rows, owner, a) { AllowedImpliesSource(rows, owner, a); }
        if IsSource(rows, owner, a) { UnbrokenIsAllowed(rows, owner, a); }
      }
    }
    if forall a :: IsAllowed(rows, owner, a) <==> IsSource(rows, owner, a) {
      assert IsSource(rows, owner, owner);
      AgreeingIsUnbroken(rows, rank, owner);
    }
  }

  lemma UnbrokenIsAllowed(rows: seq<Organization>, owner: OrgId, a: OrgId)
    requires UniqueIds(rows) && Lookup(Live(rows), owner).Some? && UnbrokenChain(rows, owner)
    requires IsSource(rows, owner, a)
    ensures IsAllowed(rows, owner, a)
  {
    if a == owner {
      assert AllowedAt(Live(rows), owner, owner, 0);
    } else {
      var start := ParentOf(rows, owner).value;
      var k: nat :| SourceAt(Live(rows), start, a, k);
      assert SharesAt(Live(rows), start, k);
      forall j: nat | 0 < j <= k + 1 ensures SharesAt(Live(rows), owner, j) {
        assert SharesAt(Live(rows), start, j - 1);
      }
      assert AllowedAt(Live(rows), owner, a, k + 1);
    }
  }

  lemma AgreeingIsUnbroken(rows: seq<Organization>, rank: OrgId -> nat, owner: OrgId)
    requires UniqueIds(rows) && RanksUpward(rows, rank) && Lookup(Live(rows), owner).Some?
    requires forall a :: IsSource(rows, owner, a) ==> IsAllowed(rows, owner, a)
    ensures UnbrokenChain(rows, owner)
  {
    if ParentOf(rows, owner).Some? {
      var start := ParentOf(rows, owner).value;
      forall k: nat, j: nat | SharesAt(Live(rows), start, k) && j <= k ensures SharesAt(Live(rows), start, j) {
        var a := Up(Live(rows), start, k).value;
        assert SourceAt(Live(rows), start, a, k);
        assert IsAllowed(rows, owner, a);
        var m: nat :| AllowedAt(Live(rows), owner, a, m);
        SameLevel(Live(rows), rank, owner, a, k + 1, m);
        assert SharesAt(Live(rows), owner, j + 1);
      }
    }
  }

  /** On a cycle-free table an organization lies at one level only. */
  lemma SameLevel(live: seq<Organization>, rank: OrgId -> nat, owner: OrgId, a: OrgId, k: nat, m: nat)
    requires RanksUpward(live, rank)
    requires Up(live, owner, m) == Some(a) && Up(live, owner, k) == Some(a)
    ensures m == k
  {
    var lo, hi := if m < k then m else k, if m < k then k else m;
    UpCompose(live, owner, lo, hi - lo);
    UpDescendsRank(live, rank, a, hi - lo);
  }
}
