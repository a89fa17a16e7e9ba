// The policy transactions as the service runs them, statement by statement.
module PolicyStore {
  import opened Wrappers
  import opened Organizations
  import opened PolicyScope
  import opened PolicyTables

  lemma SameSize(a: set<ResourceId>, b: set<ResourceId>)
    requires a <= b
    ensures |a| == |b| <==> a == b
  {
    assert b == a + (b - a);
  }

  /** Writing one row twice is writing it once. */
  lemma Overwritten(m: map<PolicyId, Policy>, id: PolicyId, a: Policy, b: Policy)
    ensures m[id := a][id := b] == m[id := b]
  {
  }

  /** One relation after an update: a given list replaces it. */
  ghost function Renewed(l: Links, k: Kind, ids: Option<seq<ResourceId>>, organizationChanged: bool): set<ResourceId> {
    if ids.Some? then Listed(ids) else if organizationChanged then {} else l.Of(k)
  }

  class PolicyStore {
    const organizations: seq<Organization>
    var policies: map<PolicyId, Policy>
    var resources: Resources

    ghost function Snapshot(): Db
      reads this
    {
      Db(policies, resources)
    }

    constructor (rows: seq<Organization>, known: Resources)
      ensures organizations == rows && Snapshot() == Db(map[], known)
    {
      organizations, policies, resources := rows, map[], known;
    }

    // ----- checks -----

    /** One count of validatePolicyRelations against the number of distinct ids asked for. */
    method ValidateRelation(k: Kind, ids: Option<seq<ResourceId>>, sources: Option<set<OrgId>>) returns (ok: bool)
      ensures ok <==> forall id :: id in Named(ids) ==>
                        id in resources.Of(k) && !resources.Of(k)[id].deleted
                        && (sources.Some? ==> resources.Of(k)[id].organizationId in sources.value)
    {
      var uniqueIds := Named(ids);
      var table := resources.Of(k);
      var found := set id | id in uniqueIds && id in table && !table[id].deleted
          && (sources.Some? ==> table[id].organizationId in sources.value);
      SameSize(found, uniqueIds);
      ok := |found| == |uniqueIds|;
    }

    method ValidatePolicyRelations(organizationId: OrgId, lists: Lists, superAdmin: bool, ghost rank: OrgId -> nat)
      returns (ok: bool)
      requires UniqueIds(organizations) && RanksUpward(organizations, rank)
      requires Lookup(organizations, organizationId).Some?
      ensures ok <==> AllValidated(organizations, resources, organizationId, lists, superAdmin)
    {
      var sources := None;
      if !superAdmin {
        sources := ResolveRelationSourceOrganizationIds(organizations, organizationId, rank);
      }
      var zones := ValidateRelation(Zone, lists.zones, sources);
      assert zones <==> Validated(organizations, resources.Of(Zone), organizationId, Named(lists.Of(Zone)), superAdmin);
      var times := ValidateRelation(TimePolicy, lists.timePolicies, sources);
      assert times <==> Validated(organizations, resources.Of(TimePolicy), organizationId,
          Named(lists.Of(TimePolicy)), superAdmin);
      var behaviors := ValidateRelation(Behavior, lists.behaviors, sources);
      assert behaviors <==> Validated(organizations, resources.Of(Behavior), organizationId,
          Named(lists.Of(Behavior)), superAdmin);
      var presets := ValidateRelation(Preset, lists.presets, sources);
      assert presets <==> Validated(organizations, resources.Of(Preset), organizationId,
          Named(lists.Of(Preset)), superAdmin);
      ok := zones && times && behaviors && presets;
      assert ok ==> forall k :: Validated(organizations, resources.Of(k), organizationId, Named(lists.Of(k)),
          superAdmin) by {
        forall k | ok ensures Validated(organizations, resources.Of(k), organizationId,
            Named(lists.Of(k)), superAdmin) {
          match k case Zone => case TimePolicy => case Behavior => case Preset =>
        }
      }
    }

    // ----- statements -----

    /** deleteMany, then createMany, on one relation table. */
    method ReplaceRelation(id: PolicyId, k: Kind, ids: seq<ResourceId>)
      requires id in policies
      modifies `policies
      ensures policies == old(policies)[id :=
        old(policies)[id].(links := old(policies)[id].links.With(k, Listed(Some(ids))))]
    {
      policies := policies[id := policies[id].(links := policies[id].links.With(k, {}))];
      assert |ids| == 0 ==> Listed(Some(ids)) == {};
      if |ids| > 0 {
        policies := policies[id := policies[id].(links := policies[id].links.With(k, set r | r in ids))];
      }
    }

    /** What update does to one relation table. */
    method UpdateRelation(id: PolicyId, k: Kind, ids: Option<seq<ResourceId>>, organizationChanged: bool)
      requires id in policies
      modifies `policies
      ensures var p := old(policies)[id];
              policies == old(policies)[id :=
                  p.(links := p.links.With(k, Renewed(p.links, k, ids, organizationChanged)))]
    {
      if organizationChanged && ids.None? {
        policies := policies[id := policies[id].(links := policies[id].links.With(k, {}))];
      }
      if ids.Some? {
        ReplaceRelation(id, k, ids.value);
      }
    }

    method ApplyRequiredConditionActivationPolicy(id: PolicyId, hadMissing: bool)
      requires id in policies
      modifies `policies
      ensures policies == old(policies)[id := ApplyActivation(old(policies)[id], hadMissing)]
      ensures policies[id] == old(policies)[id].(isActive := policies[id].isActive)
      ensures var l := policies[id].links;
              policies[id].isActive
              <==> l.zones != {} && l.timePolicies != {} && (hadMissing || old(policies)[id].isActive)
    {
      var policy := policies[id];
      if MissingRequired(policy.links) {
        if policy.isActive {
          policies := policies[id := policy.(isActive := false)];
        }
        return;
      }
      if hadMissing && !policy.isActive {
        policies := policies[id := policy.(isActive := true)];
      }
    }

    method DeactivatePoliciesWithoutConditions(ids: set<PolicyId>)
      modifies `policies
      ensures policies == map p | p in old(policies) :: if p in ids then Reviewed(old(policies)[p])
        else old(policies)[p]
      ensures forall p :: p in policies ==>
                && policies[p] == old(policies)[p].(isActive := policies[p].isActive)
                && var l := policies[p].links;
                   policies[p].isActive <==> old(policies)[p].isActive && (p in ids ==>
                     l.zones != {} && l.timePolicies != {} && (l.behaviors != {} || l.presets != {}))
    {
      var reviewRequired := set p | p in ids && p in policies && ReviewRequired(policies[p].links);
      policies := map p | p in policies :: if p in reviewRequired then policies[p].(isActive := false) else policies[p];
    }

    /** deleteMany of one resource's rows for the given policies. */
    method DetachRelation(k: Kind, r: ResourceId, ids: set<PolicyId>)
      modifies `policies
      ensures policies == map p | p in old(policies) :: if p in ids then Detached(old(policies)[p], k, r)
        else old(policies)[p]
    {
      policies := map p | p in policies :: if p in ids then Detached(policies[p], k, r) else policies[p];
    }

    // ----- operations -----

    method Create(id: PolicyId, q: CreateRequest, superAdmin: bool, otherChecks: bool, ghost rank: OrgId -> nat)
      returns (r: Result<(), PolicyError>)
      requires UniqueIds(organizations) && RanksUpward(organizations, rank)
      modifies `policies
      ensures var spec := PolicyTables.Create(organizations, old(Snapshot()), id, q, superAdmin, otherChecks);
              if spec.Success? then r.Success? && Snapshot() == spec.value
                  else r == Failure(spec.error) && Snapshot() == old(Snapshot())
    {
      if Lookup(organizations, q.organizationId).None? || !otherChecks {
        return Failure(BadRequest);
      }
      if !MayOwn(organizations, q.organizationId) || OwnsPublished(policies, q.organizationId, None) {
        return Failure(BadRequest);
      }
      var valid := ValidatePolicyRelations(q.organizationId, q.lists, superAdmin, rank);
      if !valid || !SingleSelection(q.lists) {
        return Failure(BadRequest);
      }
      var missing := Named(q.lists.zones) == {} || Named(q.lists.timePolicies) == {};
      if !q.isDraft && missing {
        return Failure(BadRequest);
      }
      var requestedIsActive := if q.isDraft then false else q.isActive.GetOr(true);
      var isActive := if q.isDraft || !missing then requestedIsActive else false;
      if id in policies || !Insertable(resources, q.lists) {
        return Failure(BadRequest);
      }
      var links := Links(Listed(q.lists.zones), Listed(q.lists.timePolicies), Listed(q.lists.behaviors),
          Listed(q.lists.presets));
      policies := policies[id := Policy(q.organizationId, isActive, q.isDraft, false, links)];
      r := Success(());
    }

    method Update(id: PolicyId, q: UpdateRequest, superAdmin: bool, otherChecks: bool, ghost rank: OrgId -> nat)
      returns (r: Result<(), PolicyError>)
      requires UniqueIds(organizations) && RanksUpward(organizations, rank)
      modifies `policies
      ensures var spec := PolicyTables.Update(organizations, old(Snapshot()), id, q, superAdmin, otherChecks);
              if spec.Success? then r.Success? && Snapshot() == spec.value
                  else r == Failure(spec.error) && Snapshot() == old(Snapshot())
    {
      if id !in policies || policies[id].deleted || !otherChecks {
        return Failure(NotFound);
      }
      var currentPolicy := policies[id];
      var nextIsDraft := q.isDraft.GetOr(currentPolicy.isDraft);
      var targetOrganizationId := q.organizationId.GetOr(currentPolicy.organizationId);
      if Lookup(organizations, targetOrganizationId).None? {
        return Failure(NotFound);
      }
      if !MayOwn(organizations, targetOrganizationId) {
        return Failure(BadRequest);
      }
      if !nextIsDraft && OwnsPublished(policies, targetOrganizationId, Some(id)) {
        return Failure(BadRequest);
      }
      var valid := ValidatePolicyRelations(targetOrganizationId, q.lists, superAdmin, rank);
      if !valid || !SingleSelection(q.lists) || !Insertable(resources, q.lists) {
        return Failure(BadRequest);
      }
      WriteUpdate(id, q, targetOrganizationId, nextIsDraft);
      r := Success(());
    }

    /** The writes of update, after its checks. */
    method WriteUpdate(id: PolicyId, q: UpdateRequest, targetOrganizationId: OrgId, nextIsDraft: bool)
      requires id in policies && !policies[id].deleted
      requires nextIsDraft == q.isDraft.GetOr(policies[id].isDraft)
      requires targetOrganizationId == q.organizationId.GetOr(policies[id].organizationId)
      modifies `policies
      ensures policies == old(policies)[id := Edited(old(policies)[id], q)]
    {
      var currentPolicy := policies[id];
      var hadMissing := MissingRequired(currentPolicy.links);
      var isActive := q.isActive.GetOr(currentPolicy.isActive);
      if nextIsDraft {
        isActive := false;
      }
      policies := policies[id :=
          currentPolicy.(organizationId := targetOrganizationId, isDraft := nextIsDraft, isActive := isActive)];
      UpdateRelations(id, q.lists, targetOrganizationId != currentPolicy.organizationId);
      ApplyRequiredConditionActivationPolicy(id, hadMissing);
    }

    method UpdateRelations(id: PolicyId, lists: Lists, organizationChanged: bool)
      requires id in policies
      modifies `policies
      ensures policies == old(policies)[id :=
        old(policies)[id].(links := NewLinks(old(policies)[id].links, lists, organizationChanged))]
    {
      ghost var was, p := policies, policies[id];
      UpdateRelation(id, Zone, lists.zones, organizationChanged);
      ghost var p1 := p.(links := p.links.(zones := Renewed(p.links, Zone, lists.zones, organizationChanged)));
      assert policies == was[id := p1];
      UpdateRelation(id, TimePolicy, lists.timePolicies, organizationChanged);
      ghost var p2 := p1.(links :=
          p1.links.(timePolicies := Renewed(p1.links, TimePolicy, lists.timePolicies, organizationChanged)));
      Overwritten(was, id, p1, p2);
      UpdateRelation(id, Behavior, lists.behaviors, organizationChanged);
      ghost var p3 := p2.(links :=
          p2.links.(behaviors := Renewed(p2.links, Behavior, lists.behaviors, organizationChanged)));
      Overwritten(was, id, p2, p3);
      UpdateRelation(id, Preset, lists.presets, organizationChanged);
      ghost var p4 := p3.(links := p3.links.(presets := Renewed(p3.links, Preset, lists.presets, organizationChanged)));
      Overwritten(was, id, p3, p4);
      assert p4.links == NewLinks(p.links, lists, organizationChanged);
    }

    method Remove(id: PolicyId, otherChecks: bool) returns (r: Result<(), PolicyError>)
      modifies `policies
      ensures if id in old(policies) && !old(policies)[id].deleted && otherChecks
              then r.Success? && Snapshot() == PolicyTables.Remove(old(Snapshot()), {id})
              else r == Failure(NotFound) && Snapshot() == old(Snapshot())
    {
      if id !in policies || policies[id].deleted || !otherChecks {
        return Failure(NotFound);
      }
      policies := policies[id := policies[id].(links := NoLinks)];
      policies := policies[id := policies[id].(isActive := false, deleted := true)];
      r := Success(());
    }

    /** `inScope` are the policies the caller may see; the result counts what was deleted. */
    method BulkRemove(policyIds: set<PolicyId>, inScope: set<PolicyId>) returns (deleted: nat)
      modifies `policies
      ensures Snapshot() == PolicyTables.Remove(old(Snapshot()), policyIds * inScope)
      ensures deleted == |set p | p in policyIds && p in inScope && p in old(policies) && !old(policies)[p].deleted|
    {
      var targetPolicyIds := set p | p in policyIds && p in inScope && p in policies && !policies[p].deleted;
      deleted := |targetPolicyIds|;
      if targetPolicyIds == {} {
        forall p | p in policies && p in policyIds * inScope ensures policies[p].deleted {
          assert p !in targetPolicyIds;
        }
        return;
      }
      policies := map p | p in policies :: if p in targetPolicyIds then policies[p].(links := NoLinks) else policies[p];
      policies := map p | p in policies ::
          if p in targetPolicyIds then policies[p].(isActive := false, deleted := true) else policies[p];
    }

    method ToggleActive(id: PolicyId) returns (r: Result<(), PolicyError>)
      modifies `policies
      ensures var spec := Toggle(old(Snapshot()), id);
              if spec.Success? then r.Success? && Snapshot() == spec.value
                  else r == Failure(spec.error) && Snapshot() == old(Snapshot())
    {
      if id !in policies || policies[id].deleted {
        return Failure(NotFound);
      }
      var policy := policies[id];
      if policy.isDraft {
        return Failure(BadRequest);
      }
      if !policy.isActive {
        if MissingRequired(policy.links) {
          return Failure(BadRequest);
        }
      }
      policies := policies[id := policy.(isActive := !policy.isActive)];
      r := Success(());
    }

    method BulkSetActive(policyIds: set<PolicyId>, isActive: bool, inScope: set<PolicyId>) returns (updated: nat)
      modifies `policies
      ensures Snapshot() == PolicyTables.BulkSetActive(old(Snapshot()), policyIds * inScope, isActive)
      ensures updated == |set p | p in old(policies) && policies[p] != old(policies)[p]|
    {
      var targetPolicies := set p | p in policyIds && p in inScope && p in policies && !policies[p].isDraft
          && !policies[p].deleted;
      var eligible := set p | p in targetPolicies && (!isActive || !MissingRequired(policies[p].links));
      var changed := set p | p in targetPolicies && p in eligible && policies[p].isActive != isActive;
      updated := |changed|;
      if changed == {} {
        assert changed == set p | p in old(policies) && policies[p] != old(policies)[p];
        forall p | p in policies && p in policyIds * inScope && Switchable(policies[p], isActive)
            ensures policies[p].isActive == isActive {
          assert p !in changed;
        }
        return;
      }
      policies := map p | p in policies :: if p in changed then policies[p].(isActive := isActive) else policies[p];
      assert changed == set p | p in old(policies) && policies[p] != old(policies)[p];
    }

    /** assignZones, assignTimePolicies, assignBehaviorConditions and assignAllowedApps. */
    method Assign(id: PolicyId, k: Kind, ids: seq<ResourceId>, superAdmin: bool, otherChecks: bool,
            ghost rank: OrgId -> nat)
      returns (r: Result<(), PolicyError>)
      requires UniqueIds(organizations) && RanksUpward(organizations, rank)
      modifies `policies
      ensures var spec := PolicyTables.Assign(organizations, old(Snapshot()), id, k, ids, superAdmin, otherChecks);
              if spec.Success? then r.Success? && Snapshot() == spec.value
                  else r == Failure(spec.error) && Snapshot() == old(Snapshot())
    {
      if id !in policies || policies[id].deleted || policies[id].isDraft || !otherChecks {
        return Failure(NotFound);
      }
      var policy := policies[id];
      var hadMissing := MissingRequired(policy.links);
      if Lookup(organizations, policy.organizationId).None? {
        return Failure(NotFound);
      }
      var sources := None;
      if !superAdmin {
        sources := ResolveRelationSourceOrganizationIds(organizations, policy.organizationId, rank);
      }
      var valid := ValidateRelation(k, Some(ids), sources);
      if !valid || !SingleSelection(OneList(k, ids)) || !(Listed(Some(ids)) <= resources.Of(k).Keys) {
        return Failure(BadRequest);
      }
      WriteAssign(id, k, ids, hadMissing);
      r := Success(());
    }

    /** The writes of an assign operation. */
    method WriteAssign(id: PolicyId, k: Kind, ids: seq<ResourceId>, hadMissing: bool)
      requires id in policies
      modifies `policies
      ensures var p := old(policies)[id];
              policies == old(policies)[id :=
                  ApplyActivation(p.(links := p.links.With(k, Listed(Some(ids)))), hadMissing)]
    {
      ghost var was, p := policies, policies[id];
      ReplaceRelation(id, k, ids);
      ghost var p1 := p.(links := p.links.With(k, Listed(Some(ids))));
      ApplyRequiredConditionActivationPolicy(id, hadMissing);
      Overwritten(was, id, p1, ApplyActivation(p1, hadMissing));
    }

    /** The policies of findPolicyRelationsByMovedResource whose owner may not use the target. */
    method InvalidPolicyIds(k: Kind, r: ResourceId, target: OrgId, ghost rank: OrgId -> nat)
      returns (ids: set<PolicyId>)
      requires UniqueIds(organizations) && RanksUpward(organizations, rank)
      ensures forall p :: p in ids <==> p in policies && MustDetach(organizations, policies[p], k, r, target)
    {
      var relations := set p | p in policies && r in policies[p].links.Of(k) && !policies[p].deleted;
      ids := {};
      var left := relations;
      while left != {}
        invariant left <= relations
        invariant forall p ::
          p in ids <==> p in relations && p !in left && MustDetach(organizations, policies[p], k, r, target)
        decreases left
      {
        var p :| p in left;
        var allowed := IsResourceOrganizationAllowedForPolicyOwner(organizations,
            policies[p].organizationId, target, rank);
        if !allowed {
          ids := ids + {p};
        }
        left := left - {p};
      }
    }

    method DetachInvalidRelationsForMovedResource(k: Kind, r: ResourceId, target: OrgId, ghost rank: OrgId -> nat)
      requires UniqueIds(organizations) && RanksUpward(organizations, rank)
      modifies `policies
      ensures policies == map p | p in old(policies) ::
        if MustDetach(organizations, old(policies)[p], k, r, target)
            then Detached(old(policies)[p], k, r).(isActive := false) else old(policies)[p]
    {
      var invalidPolicyIds := InvalidPolicyIds(k, r, target, rank);
      if invalidPolicyIds == {} {
        return;
      }
      WriteDetach(k, r, invalidPolicyIds);
    }

    /** The writes of a detachment. */
    method WriteDetach(k: Kind, r: ResourceId, invalidPolicyIds: set<PolicyId>)
      requires invalidPolicyIds <= policies.Keys
      modifies `policies
      ensures policies == map p | p in old(policies) ::
        if p in invalidPolicyIds then Detached(old(policies)[p], k, r).(isActive := false) else old(policies)[p]
    {
      var deactivated := set p | p in invalidPolicyIds && policies[p].isActive;
      DetachRelation(k, r, invalidPolicyIds);
      policies := map p | p in policies :: if p in deactivated then policies[p].(isActive := false) else policies[p];
      DeactivatePoliciesWithoutConditions(invalidPolicyIds);
    }

    /** The update of a zone, time policy, behaviour condition or preset that names an organization. */
    method MoveResource(k: Kind, r: ResourceId, target: OrgId, otherChecks: bool, ghost rank: OrgId -> nat)
      returns (done: Result<(), PolicyError>)
      requires UniqueIds(organizations) && RanksUpward(organizations, rank)
      modifies this
      ensures var spec := PolicyTables.MoveResource(organizations, old(Snapshot()), k, r, target, otherChecks);
              if spec.Success? then done.Success? && Snapshot() == spec.value
                  else done == Failure(spec.error) && Snapshot() == old(Snapshot())
    {
      var table := resources.Of(k);
      if r !in table || table[r].deleted || !otherChecks {
        return Failure(NotFound);
      }
      var organizationChanged := target != table[r].organizationId;
      if Lookup(organizations, target).None? {
        return Failure(if k.Preset? && target != "" then NotFound else BadRequest);
      }
      if !MayOwn(organizations, target) {
        return Failure(BadRequest);
      }
      resources := resources.With(k, table[r := table[r].(organizationId := target)]);
      if organizationChanged {
        DetachInvalidRelationsForMovedResource(k, r, target, rank);
      }
      done := Success(());
    }

    method RemoveResource(k: Kind, r: ResourceId) returns (done: Result<(), PolicyError>)
      modifies this
      ensures var spec := PolicyTables.RemoveResource(old(Snapshot()), k, r);
              if spec.Success? then done.Success? && Snapshot() == spec.value
                  else done == Failure(spec.error) && Snapshot() == old(Snapshot())
    {
      var table := resources.Of(k);
      if r !in table || table[r].deleted {
        return Failure(NotFound);
      }
      var impacted := set p | p in policies && r in policies[p].links.Of(k);
      DetachRelation(k, r, impacted);
      resources := resources.With(k, table[r := table[r].(deleted := true)]);
      DeactivatePoliciesWithoutConditions(impacted);
      done := Success(());
    }
  }
}
