// Which policies apply to an organization: those of its nearest ancestor-or-self that owns any.
module OwnerFallback {
  import opened Wrappers
  import opened Organizations
  import opened Strings

  datatype SelectionContext = SelectionContext(
    ownerOrganizationIds: seq<OrgId>,
    appliedPolicyId: Option<string>,
    appliedByOrganizationId: Option<OrgId>
  )

  /** A list field is None when the query did not return an array. */
  datatype PolicyCandidate = PolicyCandidate(
    policyId: string,
    organizationId: OrgId,
    targetUnitIds: Option<seq<OrgId>>,
    zones: Option<seq<string>>,
    timePolicies: Option<seq<string>>
  )

  /** The organization `k` levels above `id`, when the walk can stand on it and it may own
      policies: it has a row and is not the administrative root. */
  ghost function OwnerAt(rows: seq<Organization>, id: OrgId, k: nat): Option<Organization> {
    var above :- Up(rows, id, k);
    var o :- Lookup(rows, above);
    if Classify(o) == Admin then None else Some(o)
  }

  function AppliedId(applied: map<OrgId, string>, id: OrgId): Option<string> {
    if id in applied && !Blank(applied[id]) then Some(Trim(applied[id])) else None
  }

  /** `owners` lists the owners met in the first `n` levels, nearest first. */
  ghost predicate ListsOwners(rows: seq<Organization>, id: OrgId, n: nat, owners: seq<OrgId>)
    decreases n
  {
    if n == 0 then owners == []
    else if OwnerAt(rows, id, n - 1).Some? then
      && owners != []
      && owners[|owners| - 1] == OwnerAt(rows, id, n - 1).value.id
      && ListsOwners(rows, id, n - 1, owners[..|owners| - 1])
    else ListsOwners(rows, id, n - 1, owners)
  }

  /** The context lists the owners of the first `levels` levels, none lies above them, and the
      applied id is that of the nearest owner with one. */
  ghost predicate ContextOf(rows: seq<Organization>, id: OrgId, levels: nat, applied: map<OrgId, string>,
          ctx: SelectionContext) {
    && ListsOwners(rows, id, levels, ctx.ownerOrganizationIds)
    && (forall k: nat :: k >= levels ==> OwnerAt(rows, id, k).None?)
    && NearestApplied(rows, id, levels, applied, ctx.appliedPolicyId, ctx.appliedByOrganizationId)
  }

  /** Walks towards the root. The walk ends because the table has no parent cycle. */
  method ResolvePolicySelectionContext(organizationId: OrgId, rows: seq<Organization>, applied: map<OrgId, string>,
                                       ghost rank: OrgId -> nat) returns (ctx: SelectionContext)
    requires UniqueIds(rows) && RanksUpward(rows, rank)
    ensures exists levels: nat :: ContextOf(rows, organizationId, levels, applied, ctx)
  {
    var result: seq<OrgId> := [];
    var appliedPolicyId: Option<string> := None;
    var appliedBy: Option<OrgId> := None;
    var current := Lookup(rows, organizationId);
    ghost var levels, at := 0, organizationId;
    if current.None? { NothingAbove(rows, organizationId, 0, organizationId); }
    while current.Some?
      invariant StandsAt(rows, organizationId, levels, at, current)
      invariant ListsOwners(rows, organizationId, levels, result)
      invariant NearestApplied(rows, organizationId, levels, applied, appliedPolicyId, appliedBy)
      decreases current.Some?, rank(at)
    {
      var node := current.value;
      result, appliedPolicyId, appliedBy := Visit(node, rows, organizationId, levels, applied, result,
          appliedPolicyId, appliedBy);
      levels := levels + 1;
      if !Truthy(node.parentId) {
        NothingAbove(rows, organizationId, levels - 1, at);
        current := None;
        break;
      }
      StepUp(rows, organizationId, levels - 1, at);
      at := node.parentId.value;
      current := Lookup(rows, node.parentId.value);
    }
    ctx := SelectionContext(Unique(result), appliedPolicyId, appliedBy);
    WalkIsOver(rows, rank, organizationId, levels, applied, result, ctx);
  }

  /** The walk stands on a row, or is over and no owner lies further up. */
  ghost predicate StandsAt(rows: seq<Organization>, id: OrgId, n: nat, at: OrgId, current: Option<Organization>) {
    if current.Some? then Up(rows, id, n) == Some(at) && current == Lookup(rows, at) else forall k: nat ::
        k >= n ==> OwnerAt(rows, id, k).None?
  }

  /** What the loop does with one row. */
  method Visit(node: Organization, ghost rows: seq<Organization>, ghost id: OrgId, ghost n: nat,
          applied: map<OrgId, string>,
               owners: seq<OrgId>, policyId: Option<string>, appliedBy: Option<OrgId>)
    returns (owners': seq<OrgId>, policyId': Option<string>, appliedBy': Option<OrgId>)
    requires Up(rows, id, n) == Some(node.id) && Lookup(rows, node.id) == Some(node)
    requires ListsOwners(rows, id, n, owners) && NearestApplied(rows, id, n, applied, policyId, appliedBy)
    ensures ListsOwners(rows, id, n + 1, owners') && NearestApplied(rows, id, n + 1, applied, policyId', appliedBy')
  {
    VisitLevel(rows, id, n, node.id, applied, owners, policyId, appliedBy);
    owners', policyId', appliedBy' := owners, policyId, appliedBy;
    if Classify(node) in {Company, Group, Unit} {
      owners' := owners + [node.id];
      if policyId.None? {
        policyId' := AppliedId(applied, node.id);
        if policyId'.Some? {
          appliedBy' := Some(node.id);
        }
      }
    }
  }

  lemma StepUp(rows: seq<Organization>, id: OrgId, n: nat, at: OrgId)
    requires Up(rows, id, n) == Some(at) && ParentOf(rows, at).Some?
    ensures Up(rows, id, n + 1) == ParentOf(rows, at)
    ensures Lookup(rows, ParentOf(rows, at).value).None? ==> forall k: nat :: k >= n + 1 ==> OwnerAt(rows, id, k).None?
  {
    OneLevelUp(rows, id, n, at);
    if Lookup(rows, ParentOf(rows, at).value).None? { NothingAbove(rows, id, n + 1, ParentOf(rows, at).value); }
  }

  lemma WalkIsOver(rows: seq<Organization>, rank: OrgId -> nat, id: OrgId, levels: nat, applied: map<OrgId, string>,
          owners: seq<OrgId>, ctx: SelectionContext)
    requires RanksUpward(rows, rank) && ListsOwners(rows, id, levels, owners)
    requires ctx.ownerOrganizationIds == Unique(owners)
    requires forall k: nat :: k >= levels ==> OwnerAt(rows, id, k).None?
    requires NearestApplied(rows, id, levels, applied, ctx.appliedPolicyId, ctx.appliedByOrganizationId)
    ensures ContextOf(rows, id, levels, applied, ctx)
  {
    OwnersDistinct(rows, rank, id, levels, owners);
    UniqueOfDistinct(owners);
  }

  /** What one visited level adds to the owner list and to the applied policy. */
  lemma VisitLevel(rows: seq<Organization>, id: OrgId, n: nat, at: OrgId, applied: map<OrgId, string>,
                   owners: seq<OrgId>, policyId: Option<string>, appliedBy: Option<OrgId>)
    requires Up(rows, id, n) == Some(at) && Lookup(rows, at).Some?
    requires ListsOwners(rows, id, n, owners)
    requires NearestApplied(rows, id, n, applied, policyId, appliedBy)
    ensures Classify(Lookup(rows, at).value) == Admin ==>
              ListsOwners(rows, id, n + 1, owners) && NearestApplied(rows, id, n + 1, applied, policyId, appliedBy)
    ensures Classify(Lookup(rows, at).value) != Admin ==> ListsOwners(rows, id, n + 1, owners + [at])
    ensures Classify(Lookup(rows, at).value) != Admin && policyId.Some? ==>
              NearestApplied(rows, id, n + 1, applied, policyId, appliedBy)
    ensures Classify(Lookup(rows, at).value) != Admin && policyId.None? ==>
              var now := AppliedId(applied, at);
              NearestApplied(rows, id, n + 1, applied, now, if now.Some? then Some(at) else None)
  {
    assert owners == (owners + [at])[..|owners|];
    if policyId.Some? {
      var k: nat :| k < n && AppliedAt(rows, id, k, applied, policyId.value, appliedBy.value);
    } else if Classify(Lookup(rows, at).value) != Admin && AppliedId(applied, at).Some? {
      assert AppliedAt(rows, id, n, applied, AppliedId(applied, at).value, at);
    }
  }

  /** A walk that cannot leave `at` meets no owner above it. */
  lemma NothingAbove(rows: seq<Organization>, id: OrgId, n: nat, at: OrgId)
    requires Up(rows, id, n) == Some(at)
    requires Lookup(rows, at).None? || ParentOf(rows, at).None?
    ensures forall k: nat :: k > n ==> OwnerAt(rows, id, k).None?
    ensures Lookup(rows, at).None? ==> OwnerAt(rows, id, n).None?
  {
    forall k: nat | k > n ensures Up(rows, id, k).None? {
      UpCompose(rows, id, n, k - n);
    }
  }

  /** The id comes from the nearest owner that has a non-blank one. */
  ghost predicate NearestApplied(rows: seq<Organization>, id: OrgId, n: nat, applied: map<OrgId, string>,
                                 policyId: Option<string>, appliedBy: Option<OrgId>) {
    && (policyId.Some? <==> appliedBy.Some?)
    && (policyId.None? ==> forall k: nat ::
         k < n && OwnerAt(rows, id, k).Some? ==> AppliedId(applied, OwnerAt(rows, id, k).value.id).None?)
    && (policyId.Some? ==> exists k: nat :: k < n && AppliedAt(rows, id, k, applied, policyId.value, appliedBy.value))
  }

  ghost predicate AppliedAt(rows: seq<Organization>, id: OrgId, k: nat, applied: map<OrgId, string>,
          policyId: string, appliedBy: OrgId) {
    && OwnerAt(rows, id, k).Some? && OwnerAt(rows, id, k).value.id == appliedBy
    && AppliedId(applied, appliedBy) == Some(policyId)
    && forall j: nat :: j < k && OwnerAt(rows, id, j).Some? ==> AppliedId(applied, OwnerAt(rows, id, j).value.id).None?
  }

  ghost predicate OwnsAt(rows: seq<Organization>, id: OrgId, k: nat, x: OrgId) {
    OwnerAt(rows, id, k).Some? && OwnerAt(rows, id, k).value.id == x
  }

  lemma OwnsOnce(rows: seq<Organization>, rank: OrgId -> nat, id: OrgId, k: nat, n: nat, x: OrgId)
    requires RanksUpward(rows, rank) && k < n && OwnsAt(rows, id, k, x)
    ensures !OwnsAt(rows, id, n, x)
  {
    UpCompose(rows, id, k, n - k);
    if Up(rows, x, n - k).Some? { UpDescendsRank(rows, rank, x, n - k); }
  }

  lemma {:induction false} OwnersDistinct(rows: seq<Organization>, rank: OrgId -> nat, id: OrgId, n: nat,
          owners: seq<OrgId>)
    requires RanksUpward(rows, rank) && ListsOwners(rows, id, n, owners)
    ensures Distinct(owners)
    ensures forall x :: x in owners ==> exists k: nat :: k < n && OwnsAt(rows, id, k, x)
    decreases n
  {
    if n != 0 && OwnerAt(rows, id, n - 1).Some? {
      var front, last := owners[..|owners| - 1], owners[|owners| - 1];
      OwnersDistinct(rows, rank, id, n - 1, front);
      assert owners == front + [last];
      if last in front {
        var k: nat :| k < n - 1 && OwnsAt(rows, id, k, last);
        OwnsOnce(rows, rank, id, k, n - 1, last);
      }
      assert OwnsAt(rows, id, n - 1, last);
      DistinctAppend(front, [last]);
    } else if n != 0 {
      OwnersDistinct(rows, rank, id, n - 1, owners);
    }
  }

  // ----- selection -----

  predicate DoesPolicyTargetOrganization(policy: PolicyCandidate, organizationId: OrgId) {
    var targets := if policy.targetUnitIds.Some? then Filter(policy.targetUnitIds.value, (id: OrgId) => !Blank(id))
        else [];
    targets == [] || organizationId in targets
  }

  predicate HasRequiredPolicyConditions(policy: PolicyCandidate) {
    && policy.zones.Some? && |policy.zones.value| > 0
    && policy.timePolicies.Some? && |policy.timePolicies.value| > 0
  }

  predicate IsEligible(policy: PolicyCandidate, owner: OrgId, target: OrgId, requireConditions: bool) {
    && policy.organizationId == owner && DoesPolicyTargetOrganization(policy, target)
    && (requireConditions ==> HasRequiredPolicyConditions(policy))
  }

  /** The policies of one owner that may be used for `target`, in their given order. */
  function EligibleOf(policies: seq<PolicyCandidate>, owner: OrgId, target: OrgId,
          requireConditions: bool): (r: seq<PolicyCandidate>)
    ensures forall p :: p in r <==> p in policies && IsEligible(p, owner, target, requireConditions)
  {
    if policies == [] then []
    else
      var rest := EligibleOf(policies[1..], owner, target, requireConditions);
      if IsEligible(policies[0], owner, target, requireConditions) then [policies[0]] + rest else rest
  }

  /** The organization may use the policy: its target list names nobody, or names the organization. */
  ghost predicate Targets(p: PolicyCandidate, organizationId: OrgId) {
    p.targetUnitIds.Some? && (exists id :: id in p.targetUnitIds.value && Trim(id) != "") ==>
      organizationId in p.targetUnitIds.value && Trim(organizationId) != ""
  }

  /** Eligible are the owner's policies that may be used for the organization and, where conditions
      are required, have a zone and a time. */
  lemma EligibleIff(policies: seq<PolicyCandidate>, owner: OrgId, target: OrgId, requireConditions: bool,
          p: PolicyCandidate)
    ensures p in EligibleOf(policies, owner, target, requireConditions)
      <==> p in policies && p.organizationId == owner && Targets(p, target)
           && (requireConditions ==> p.zones.GetOr([]) != [] && p.timePolicies.GetOr([]) != [])
  {
    if p.targetUnitIds.Some? {
      var named := Filter(p.targetUnitIds.value, (id: OrgId) => !Blank(id));
      assert named != [] ==> named[0] in named;
    }
  }

  /** The applied id of an organization: the configured one without outer white space, unless
      nothing is left of it. */
  lemma AppliedIdIff(applied: map<OrgId, string>, id: OrgId, policyId: string)
    ensures AppliedId(applied, id) == Some(policyId) <==> id in applied && IsTrimmed(applied[id], policyId)
                                                          && policyId != ""
  {
    if id in applied {
      TrimMeans(applied[id]);
      if IsTrimmed(applied[id], policyId) { TrimmedIsUnique(applied[id], policyId, Trim(applied[id])); }
    }
  }

  /** The first owner of the list that is not blank and has an eligible policy decides. */
  ghost function FirstEligible(policies: seq<PolicyCandidate>, owners: seq<OrgId>, target: OrgId,
          requireConditions: bool): seq<PolicyCandidate> {
    if owners == [] then []
    else if Blank(owners[0]) || EligibleOf(policies, owners[0], target, requireConditions) == [] then
      FirstEligible(policies, owners[1..], target, requireConditions)
    else EligibleOf(policies, owners[0], target, requireConditions)
  }

  method SelectPreferredOwnerScopedPolicies(policies: seq<PolicyCandidate>, owners: seq<OrgId>, target: OrgId,
          requireConditions: bool)
    returns (r: seq<PolicyCandidate>)
    ensures r == FirstEligible(policies, owners, target, requireConditions)
  {
    var named := Filter(owners, (id: OrgId) => !Blank(id));
    var orderedOwnerIds := Unique(named);
    BlankOwnersDecideNothing(policies, owners, target, requireConditions, (id: OrgId) => !Blank(id));
    RepeatedOwnersDecideNothing(policies, named, target, requireConditions);
    var i := 0;
    while i < |orderedOwnerIds|
      invariant 0 <= i <= |orderedOwnerIds|
      invariant FirstEligible(policies, orderedOwnerIds[i..], target, requireConditions)
             == FirstEligible(policies, orderedOwnerIds, target, requireConditions)
    {
      var owner := orderedOwnerIds[i];
      assert orderedOwnerIds[i..][1..] == orderedOwnerIds[i + 1..];
      assert !Blank(owner) by { assert owner in orderedOwnerIds; }
      var ownerPolicies := EligibleOf(policies, owner, target, false);
      ConditionsNarrow(policies, owner, target);
      if |ownerPolicies| > 0 {
        if !requireConditions {
          return ownerPolicies;
        }
        var eligiblePolicies := EligibleOf(ownerPolicies, owner, target, true);
        if |eligiblePolicies| > 0 {
          return eligiblePolicies;
        }
      }
      i := i + 1;
    }
    r := [];
  }

  /** Filtering for conditions after filtering for the owner is filtering for both. */
  lemma {:induction false} ConditionsNarrow(policies: seq<PolicyCandidate>, owner: OrgId, target: OrgId)
    ensures EligibleOf(EligibleOf(policies, owner, target, false), owner, target, true)
      == EligibleOf(policies, owner, target, true)
  {
    if policies != [] {
      ConditionsNarrow(policies[1..], owner, target);
      var tail := EligibleOf(policies[1..], owner, target, false);
      if IsEligible(policies[0], owner, target, false) {
        assert ([policies[0]] + tail)[1..] == tail;
      } else {
        assert [] + tail == tail;
      }
    }
  }

  lemma {:induction false} BlankOwnersDecideNothing(policies: seq<PolicyCandidate>, owners: seq<OrgId>, target: OrgId,
                                                    requireConditions: bool, named: OrgId -> bool)
    requires forall id :: named(id) <==> !Blank(id)
    ensures FirstEligible(policies, Filter(owners, named), target, requireConditions)
         == FirstEligible(policies, owners, target, requireConditions)
  {
    if owners != [] {
      BlankOwnersDecideNothing(policies, owners[1..], target, requireConditions, named);
      var tail := Filter(owners[1..], named);
      assert ([owners[0]] + tail)[1..] == tail && [] + tail == tail;
    }
  }

  lemma {:induction false} DroppingLoserKeeps(policies: seq<PolicyCandidate>, owners: seq<OrgId>, target: OrgId,
          requireConditions: bool, x: OrgId)
    requires Blank(x) || EligibleOf(policies, x, target, requireConditions) == []
    ensures FirstEligible(policies, Without(owners, x), target, requireConditions)
      == FirstEligible(policies, owners, target, requireConditions)
  {
    if owners != [] {
      DroppingLoserKeeps(policies, owners[1..], target, requireConditions, x);
      var tail := Without(owners[1..], x);
      assert ([owners[0]] + tail)[1..] == tail && [] + tail == tail;
    }
  }

  lemma {:induction false} RepeatedOwnersDecideNothing(policies: seq<PolicyCandidate>, owners: seq<OrgId>,
          target: OrgId, requireConditions: bool)
    ensures FirstEligible(policies, Unique(owners), target, requireConditions)
      == FirstEligible(policies, owners, target, requireConditions)
    decreases |owners|
  {
    if owners != [] {
      var rest := Without(owners[1..], owners[0]);
      assert Unique(owners)[1..] == Unique(rest);
      RepeatedOwnersDecideNothing(policies, rest, target, requireConditions);
      if Blank(owners[0]) || EligibleOf(policies, owners[0], target, requireConditions) == [] {
        DroppingLoserKeeps(policies, owners[1..], target, requireConditions, owners[0]);
      }
    }
  }

  /** `policies` are the eligible ones of the owner `k` levels up, and no nearer owner has any. */
  ghost predicate ChosenAt(rows: seq<Organization>, id: OrgId, k: nat, policies: seq<PolicyCandidate>,
          requireConditions: bool, r: seq<PolicyCandidate>) {
    && UsableOwner(rows, id, k, policies, requireConditions)
    && r == EligibleOf(policies, OwnerAt(rows, id, k).value.id, id, requireConditions)
    && forall j: nat :: j < k ==> !UsableOwner(rows, id, j, policies, requireConditions)
  }

  ghost predicate UsableOwner(rows: seq<Organization>, id: OrgId, k: nat, policies: seq<PolicyCandidate>,
          requireConditions: bool) {
    var o := OwnerAt(rows, id, k);
    o.Some? && !Blank(o.value.id) && EligibleOf(policies, o.value.id, id, requireConditions) != []
  }

  lemma {:induction false} FirstEligibleAppend(policies: seq<PolicyCandidate>, a: seq<OrgId>, b: seq<OrgId>,
          target: OrgId, requireConditions: bool)
    ensures FirstEligible(policies, a + b, target, requireConditions)
         == if FirstEligible(policies, a, target, requireConditions) != []
            then FirstEligible(policies, a, target, requireConditions)
            else FirstEligible(policies, b, target, requireConditions)
  {
    if a == [] { assert a + b == b; }
    else {
      assert (a + b)[1..] == a[1..] + b;
      FirstEligibleAppend(policies, a[1..], b, target, requireConditions);
    }
  }

  /** Selecting with the owners the walk found picks exactly the eligible policies of the
      nearest ancestor-or-self owner that has any, and nothing iff no owner has any. */
  lemma {:induction false} NearestOwnerDecides(rows: seq<Organization>, id: OrgId, n: nat, owners: seq<OrgId>,
                                               policies: seq<PolicyCandidate>, requireConditions: bool)
    requires ListsOwners(rows, id, n, owners)
    ensures var r := FirstEligible(policies, owners, id, requireConditions);
      && (r == [] <==> forall k: nat :: k < n ==> !UsableOwner(rows, id, k, policies, requireConditions))
      && (r != [] ==> exists k: nat :: k < n && ChosenAt(rows, id, k, policies, requireConditions, r))
    decreases n
  {
    if n != 0 {
      if OwnerAt(rows, id, n - 1).Some? {
        var front, last := owners[..|owners| - 1], owners[|owners| - 1];
        assert owners == front + [last];
        NearestOwnerDecides(rows, id, n - 1, front, policies, requireConditions);
        FirstEligibleAppend(policies, front, [last], id, requireConditions);
        var r := FirstEligible(policies, owners, id, requireConditions);
        assert FirstEligible(policies, [last][1..], id, requireConditions) == [];
        if FirstEligible(policies, front, id, requireConditions) == [] && r != [] {
          assert ChosenAt(rows, id, n - 1, policies, requireConditions, r);
        }
      } else {
        NearestOwnerDecides(rows, id, n - 1, owners, policies, requireConditions);
      }
    }
  }

  /** The two calls together: the context of an organization selects exactly the eligible policies
      of its nearest ancestor-or-self owner that has any, and nothing iff no owner has any. */
  lemma ContextSelectsNearest(rows: seq<Organization>, id: OrgId, levels: nat, applied: map<OrgId, string>,
          ctx: SelectionContext,
                              policies: seq<PolicyCandidate>, requireConditions: bool)
    requires ContextOf(rows, id, levels, applied, ctx)
    ensures var r := FirstEligible(policies, ctx.ownerOrganizationIds, id, requireConditions);
      && (r == [] <==> forall k: nat :: !UsableOwner(rows, id, k, policies, requireConditions))
      && (r != [] ==> exists k: nat :: ChosenAt(rows, id, k, policies, requireConditions, r))
  {
    NearestOwnerDecides(rows, id, levels, ctx.ownerOrganizationIds, policies, requireConditions);
  }
}
