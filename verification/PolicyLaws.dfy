// What each policy operation accepts and does, relation by relation and flag by flag.
module PolicyLaws {
  import opened Wrappers
  import opened Organizations
  import opened PolicyScope
  import opened PolicyTables

  // ----- requests -----

  /** The organization exists and is not one of the two roots. */
  ghost predicate CanOwn(rows: seq<Organization>, id: OrgId) {
    Lookup(rows, id).Some? && id != "org-codeedge" && id != "org-root"
  }

  ghost predicate IsListed(list: Option<seq<ResourceId>>, id: ResourceId) {
    list.Some? && id in list.value
  }

  /** Every listed resource has a row, and those with a non-blank id are not deleted and, unless a
      super admin asks, come from a source organization of the owner. */
  ghost predicate ListFits(rows: seq<Organization>, table: map<ResourceId, Resource>, owner: OrgId,
          list: Option<seq<ResourceId>>, superAdmin: bool) {
    forall id :: IsListed(list, id) ==>
      id in table
      && (id != "" ==> !table[id].deleted && (superAdmin || IsSource(rows, owner, table[id].organizationId)))
  }

  ghost predicate ListsFit(rows: seq<Organization>, resources: Resources, owner: OrgId, lists: Lists,
          superAdmin: bool) {
    && ListFits(rows, resources.zones, owner, lists.zones, superAdmin)
    && ListFits(rows, resources.timePolicies, owner, lists.timePolicies, superAdmin)
    && ListFits(rows, resources.behaviors, owner, lists.behaviors, superAdmin)
    && ListFits(rows, resources.presets, owner, lists.presets, superAdmin)
  }

  /** No two different non-blank ids. */
  ghost predicate AtMostOne(list: Option<seq<ResourceId>>) {
    forall a, b :: IsListed(list, a) && IsListed(list, b) && a != "" && b != "" ==> a == b
  }

  ghost predicate NamesOne(list: Option<seq<ResourceId>>) {
    exists id :: IsListed(list, id) && id != ""
  }

  /** Some other undeleted published policy belongs to the organization. */
  ghost predicate OtherPublished(policies: map<PolicyId, Policy>, owner: OrgId, id: PolicyId) {
    exists q :: q in policies && q != id && policies[q].organizationId == owner && !policies[q].deleted
                && !policies[q].isDraft
  }

  // ----- relations -----

  /** The links with one relation replaced. */
  ghost function Having(l: Links, k: Kind, ids: set<ResourceId>): Links {
    match k
    case Zone => Links(ids, l.timePolicies, l.behaviors, l.presets)
    case TimePolicy => Links(l.zones, ids, l.behaviors, l.presets)
    case Behavior => Links(l.zones, l.timePolicies, ids, l.presets)
    case Preset => Links(l.zones, l.timePolicies, l.behaviors, ids)
  }

  ghost function Attached(l: Links, k: Kind): set<ResourceId> {
    match k
    case Zone => l.zones
    case TimePolicy => l.timePolicies
    case Behavior => l.behaviors
    case Preset => l.presets
  }

  ghost function TableOf(r: Resources, k: Kind): map<ResourceId, Resource> {
    match k
    case Zone => r.zones
    case TimePolicy => r.timePolicies
    case Behavior => r.behaviors
    case Preset => r.presets
  }

  /** Only row `r` of kind `k` is different: it is `x` now. */
  ghost predicate OneResourceChanged(before: Resources, after: Resources, k: Kind, r: ResourceId, x: Resource) {
    && r in TableOf(before, k) && TableOf(after, k) == TableOf(before, k)[r := x]
    && forall other :: other != k ==> TableOf(after, other) == TableOf(before, other)
  }

  /** A zone and a time. */
  ghost predicate HasZoneAndTime(l: Links) {
    l.zones != {} && l.timePolicies != {}
  }

  ghost predicate SameExcept(before: map<PolicyId, Policy>, after: map<PolicyId, Policy>, id: PolicyId) {
    forall p :: p != id ==> (p in after <==> p in before) && (p in before ==> after[p] == before[p])
  }

  lemma NamedIff(list: Option<seq<ResourceId>>)
    ensures forall id :: id in Named(list) <==> IsListed(list, id) && id != ""
    ensures forall id :: id in Listed(list) <==> IsListed(list, id)
    ensures Named(list) == {} <==> !NamesOne(list)
    ensures |Named(list)| <= 1 <==> AtMostOne(list)
  {
    if AtMostOne(list) && Named(list) != {} {
      var a :| a in Named(list);
      forall b | b in Named(list) ensures b in {a} {
        assert IsListed(list, a) && IsListed(list, b);
      }
      SubsetIsSmaller(Named(list), {a});
    }
    if |Named(list)| <= 1 {
      forall a, b | a in Named(list) && b in Named(list) ensures a == b {
        if a != b { SubsetIsSmaller({a, b}, Named(list)); }
      }
    }
  }

  lemma AcceptedIff(rows: seq<Organization>, resources: Resources, owner: OrgId, lists: Lists, superAdmin: bool)
    ensures AllValidated(rows, resources, owner, lists, superAdmin) && Insertable(resources, lists)
      <==> ListsFit(rows, resources, owner, lists, superAdmin)
    ensures SingleSelection(lists) <==> AtMostOne(lists.timePolicies) && AtMostOne(lists.behaviors)
  {
    NamedIff(lists.zones);
    NamedIff(lists.timePolicies);
    NamedIff(lists.behaviors);
    NamedIff(lists.presets);
    if AllValidated(rows, resources, owner, lists, superAdmin) && Insertable(resources, lists) {
      assert Validated(rows, resources.Of(Zone), owner, Named(lists.Of(Zone)), superAdmin);
      assert Validated(rows, resources.Of(TimePolicy), owner, Named(lists.Of(TimePolicy)), superAdmin);
      assert Validated(rows, resources.Of(Behavior), owner, Named(lists.Of(Behavior)), superAdmin);
      assert Validated(rows, resources.Of(Preset), owner, Named(lists.Of(Preset)), superAdmin);
    }
  }

  // ----- creating and editing -----

  /** Creation refuses an owner that cannot own policies or owns a published one, lists that do not
      fit, and a published policy without a zone or a time. The new policy has what the lists name;
      a draft is inactive, another one is active unless the request says otherwise. */
  lemma CreateMeans(rows: seq<Organization>, db: Db, id: PolicyId, q: CreateRequest, superAdmin: bool,
          otherChecks: bool)
    ensures var r := Create(rows, db, id, q, superAdmin, otherChecks);
            && (r.Success? <==> && id !in db.policies && otherChecks && CanOwn(rows, q.organizationId)
                                && !OtherPublished(db.policies, q.organizationId, id)
                                && ListsFit(rows, db.resources, q.organizationId, q.lists, superAdmin)
                                && AtMostOne(q.lists.timePolicies) && AtMostOne(q.lists.behaviors)
                                && (!q.isDraft ==> NamesOne(q.lists.zones) && NamesOne(q.lists.timePolicies)))
            && (r.Failure? ==> r.error == BadRequest)
            && (r.Success? ==> r.value.resources == db.resources && CreatedAs(db.policies, r.value.policies, id, q))
  {
    AcceptedIff(rows, db.resources, q.organizationId, q.lists, superAdmin);
    NamedIff(q.lists.zones);
    NamedIff(q.lists.timePolicies);
    if id !in db.policies {
      assert OwnsPublished(db.policies, q.organizationId, None) <==> OtherPublished(db.policies, q.organizationId, id);
    }
    if Create(rows, db, id, q, superAdmin, otherChecks).Success? {
      CreatedMeans(rows, db, id, q, superAdmin, otherChecks);
    }
  }

  lemma CreatedMeans(rows: seq<Organization>, db: Db, id: PolicyId, q: CreateRequest, superAdmin: bool,
          otherChecks: bool)
    requires Create(rows, db, id, q, superAdmin, otherChecks).Success?
    ensures var r := Create(rows, db, id, q, superAdmin, otherChecks);
            r.value.resources == db.resources && CreatedAs(db.policies, r.value.policies, id, q)
  {
    NamedIff(q.lists.behaviors);
    NamedIff(q.lists.presets);
  }

  ghost predicate CreatedAs(before: map<PolicyId, Policy>, after: map<PolicyId, Policy>, id: PolicyId,
          q: CreateRequest) {
    && SameExcept(before, after, id) && id in after
    && after[id].organizationId == q.organizationId && after[id].isDraft == q.isDraft && !after[id].deleted
    && (after[id].isActive <==> !q.isDraft && q.isActive != Some(false))
    && (forall r :: r in after[id].links.zones <==> IsListed(q.lists.zones, r))
    && (forall r :: r in after[id].links.timePolicies <==> IsListed(q.lists.timePolicies, r))
    && (forall r :: r in after[id].links.behaviors <==> IsListed(q.lists.behaviors, r))
    && forall r :: r in after[id].links.presets <==> IsListed(q.lists.presets, r)
  }

  /** A given list replaces its relation; an absent one keeps it unless the owner changed. */
  ghost predicate RelationEdited(was: set<ResourceId>, now: set<ResourceId>, list: Option<seq<ResourceId>>,
          ownerChanged: bool) {
    if list.Some? then forall r :: r in now <==> r in list.value
    else if ownerChanged then now == {}
    else now == was
  }

  ghost predicate EditedAs(was: Policy, now: Policy, q: UpdateRequest) {
    && now.organizationId == q.organizationId.GetOr(was.organizationId)
    && now.isDraft == q.isDraft.GetOr(was.isDraft) && now.deleted == was.deleted
    && RelationEdited(was.links.zones, now.links.zones, q.lists.zones, now.organizationId != was.organizationId)
    && RelationEdited(was.links.timePolicies, now.links.timePolicies, q.lists.timePolicies,
                      now.organizationId != was.organizationId)
    && RelationEdited(was.links.behaviors, now.links.behaviors, q.lists.behaviors,
                      now.organizationId != was.organizationId)
    && RelationEdited(was.links.presets, now.links.presets, q.lists.presets, now.organizationId != was.organizationId)
    && (now.isActive <==> && HasZoneAndTime(now.links)
                          && (!HasZoneAndTime(was.links) || (!now.isDraft && q.isActive.GetOr(was.isActive))))
  }

  /** An edit wants an undeleted policy and an existing owner; it refuses an owner that cannot own
      policies, a second published policy and lists that do not fit. Only this policy changes. It is
      active afterwards if it has a zone and a time and either lacked one before or is published
      and asked or known to be active. */
  lemma UpdateMeans(rows: seq<Organization>, db: Db, id: PolicyId, q: UpdateRequest, superAdmin: bool,
          otherChecks: bool)
    ensures var r := Update(rows, db, id, q, superAdmin, otherChecks);
            if id !in db.policies || db.policies[id].deleted || !otherChecks then r == Failure(NotFound)
            else
              var was := db.policies[id];
              var owner := q.organizationId.GetOr(was.organizationId);
              if Lookup(rows, owner).None? then r == Failure(NotFound)
              else if CanOwn(rows, owner) && (q.isDraft.GetOr(was.isDraft) || !OtherPublished(db.policies, owner, id))
                && ListsFit(rows, db.resources, owner, q.lists, superAdmin)
                && AtMostOne(q.lists.timePolicies) && AtMostOne(q.lists.behaviors)
              then r.Success? && r.value.resources == db.resources && id in r.value.policies
                && SameExcept(db.policies, r.value.policies, id) && EditedAs(was, r.value.policies[id], q)
              else r == Failure(BadRequest)
  {
    if id in db.policies && !db.policies[id].deleted {
      AcceptedIff(rows, db.resources, q.organizationId.GetOr(db.policies[id].organizationId), q.lists, superAdmin);
      EditedMeans(db.policies[id], q);
    }
  }

  lemma LinksEdited(was: Links, lists: Lists, ownerChanged: bool)
    ensures var now := NewLinks(was, lists, ownerChanged);
      && RelationEdited(was.zones, now.zones, lists.zones, ownerChanged)
      && RelationEdited(was.timePolicies, now.timePolicies, lists.timePolicies, ownerChanged)
      && RelationEdited(was.behaviors, now.behaviors, lists.behaviors, ownerChanged)
      && RelationEdited(was.presets, now.presets, lists.presets, ownerChanged)
  {
    NamedIff(lists.zones);
    NamedIff(lists.timePolicies);
    NamedIff(lists.behaviors);
    NamedIff(lists.presets);
  }

  lemma EditedMeans(was: Policy, q: UpdateRequest)
    requires !was.deleted
    ensures EditedAs(was, Edited(was, q), q)
  {
    LinksEdited(was.links, q.lists, q.organizationId.GetOr(was.organizationId) != was.organizationId);
  }

  // ----- switching, assigning, removing -----

  /** Removal deactivates, detaches everything and marks deleted, once, and nothing else. */
  lemma RemoveMeans(db: Db, ids: set<PolicyId>)
    ensures Remove(db, ids).resources == db.resources && Remove(db, ids).policies.Keys == db.policies.Keys
    ensures forall p :: p in db.policies ==>
              Remove(db, ids).policies[p] == if p in ids && !db.policies[p].deleted
                then Policy(db.policies[p].organizationId, false, db.policies[p].isDraft, true, Links({}, {}, {}, {}))
                else db.policies[p]
  {
  }

  /** Toggling refuses drafts and, when it would activate, a policy without a zone or a time. */
  lemma ToggleMeans(db: Db, id: PolicyId)
    ensures var r := Toggle(db, id);
            if id !in db.policies || db.policies[id].deleted then r == Failure(NotFound)
            else if db.policies[id].isDraft || (!db.policies[id].isActive && !HasZoneAndTime(db.policies[id].links))
            then r == Failure(BadRequest)
            else
              var was := db.policies[id];
              r.Success? && r.value.resources == db.resources && SameExcept(db.policies, r.value.policies, id)
              && id in r.value.policies
              && r.value.policies[id] == Policy(was.organizationId, !was.isActive, false, false, was.links)
  {
  }

  /** Bulk switching sets the flag of the listed published undeleted policies, and switches on only
      those with a zone and a time. */
  lemma BulkSetActiveMeans(db: Db, ids: set<PolicyId>, on: bool)
    ensures var after := BulkSetActive(db, ids, on);
            && after.resources == db.resources && after.policies.Keys == db.policies.Keys
            && forall p :: p in db.policies ==>
                 after.policies[p].links == db.policies[p].links && after.policies[p].isDraft == db.policies[p].isDraft
                 && after.policies[p].deleted == db.policies[p].deleted
                 && after.policies[p].organizationId == db.policies[p].organizationId
                 && after.policies[p].isActive ==
                      if p in ids && !db.policies[p].isDraft && !db.policies[p].deleted
                         && (on ==> HasZoneAndTime(db.policies[p].links))
                      then on else db.policies[p].isActive
  {
  }

  /** Assigning wants a published undeleted policy and replaces one relation; the policy is active
      afterwards if it has a zone and a time and either lacked one before or was active. */
  lemma AssignMeans(rows: seq<Organization>, db: Db, id: PolicyId, k: Kind, ids: seq<ResourceId>, superAdmin: bool,
          otherChecks: bool)
    ensures var r := Assign(rows, db, id, k, ids, superAdmin, otherChecks);
            if id !in db.policies || db.policies[id].deleted || db.policies[id].isDraft || !otherChecks
               || Lookup(rows, db.policies[id].organizationId).None? then r == Failure(NotFound)
            else if ListFits(rows, TableOf(db.resources, k), db.policies[id].organizationId, Some(ids), superAdmin)
              && (k in {TimePolicy, Behavior} ==> AtMostOne(Some(ids)))
            then
              var was := db.policies[id];
              var links := Having(was.links, k, set r | r in ids);
              var active := HasZoneAndTime(links) && (!HasZoneAndTime(was.links) || was.isActive);
              r.Success? && r.value.resources == db.resources && SameExcept(db.policies, r.value.policies, id)
              && id in r.value.policies
              && r.value.policies[id] == Policy(was.organizationId, active, false, false, links)
            else r == Failure(BadRequest)
  {
    NamedIff(Some(ids));
    NamedIff(None);
    if id in db.policies { AssignmentFitsIff(rows, db.resources, k, db.policies[id].organizationId, ids, superAdmin); }
  }

  lemma AssignmentFitsIff(rows: seq<Organization>, resources: Resources, k: Kind, owner: OrgId, ids: seq<ResourceId>,
          superAdmin: bool)
    ensures Validated(rows, resources.Of(k), owner, Named(Some(ids)), superAdmin)
            && Listed(Some(ids)) <= resources.Of(k).Keys
      <==> ListFits(rows, TableOf(resources, k), owner, Some(ids), superAdmin)
    ensures SingleSelection(OneList(k, ids)) <==> (k in {TimePolicy, Behavior} ==> AtMostOne(Some(ids)))
  {
    NamedIff(Some(ids));
    NamedIff(None);
  }

  // ----- resources -----

  /** Moving a resource wants one that exists undeleted and an organization that can own it. Its row
      changes the organization; if that is another one, the undeleted policies whose owner may not
      use it any more lose it and are switched off, and no other policy changes. */
  lemma MoveResourceMeans(rows: seq<Organization>, db: Db, k: Kind, r: ResourceId, target: OrgId, otherChecks: bool)
    ensures var done := MoveResource(rows, db, k, r, target, otherChecks);
            if r !in TableOf(db.resources, k) || TableOf(db.resources, k)[r].deleted || !otherChecks
            then done == Failure(NotFound)
            else if !CanOwn(rows, target)
            then
              var missing := k.Preset? && target != "" && Lookup(rows, target).None?;
              done == Failure(if missing then NotFound else BadRequest)
            else
              var from := TableOf(db.resources, k)[r].organizationId;
              && done.Success? && OneResourceChanged(db.resources, done.value.resources, k, r, Resource(target, false))
              && done.value.policies.Keys == db.policies.Keys
              && forall p :: p in db.policies ==>
                   done.value.policies[p] == MovedFrom(rows, db.policies[p], k, r, from, target)
  {
  }

  ghost function MovedFrom(rows: seq<Organization>, p: Policy, k: Kind, r: ResourceId, from: OrgId,
          target: OrgId): Policy {
    if target != from && !p.deleted && r in Attached(p.links, k) && !IsAllowed(rows, p.organizationId, target)
    then Policy(p.organizationId, false, p.isDraft, false, Having(p.links, k, Attached(p.links, k) - {r}))
    else p
  }

  /** Removing a resource marks it deleted and detaches it everywhere. A policy is active
      afterwards exactly if it was and either did not hold the resource or still has a zone, a time,
      and a behaviour or a preset. */
  lemma RemoveResourceMeans(db: Db, k: Kind, r: ResourceId)
    ensures r !in TableOf(db.resources, k) || TableOf(db.resources, k)[r].deleted ==>
              RemoveResource(db, k, r) == Failure(NotFound)
    ensures r in TableOf(db.resources, k) && !TableOf(db.resources, k)[r].deleted ==>
              var done := RemoveResource(db, k, r);
              && done.Success?
              && OneResourceChanged(db.resources, done.value.resources, k, r,
                                    Resource(TableOf(db.resources, k)[r].organizationId, true))
              && done.value.policies.Keys == db.policies.Keys
              && forall p :: p in db.policies ==> Released(db.policies[p], done.value.policies[p], k, r)
  {
  }

  ghost predicate Released(was: Policy, now: Policy, k: Kind, r: ResourceId) {
    && now.organizationId == was.organizationId && now.isDraft == was.isDraft && now.deleted == was.deleted
    && now.links == Having(was.links, k, Attached(was.links, k) - {r})
    && (now.isActive <==> was.isActive && (r !in Attached(was.links, k) || StaysReviewed(now.links)))
  }

  /** A zone, a time, and a behaviour or a preset. */
  ghost predicate StaysReviewed(l: Links) {
    l.zones != {} && l.timePolicies != {} && (l.behaviors != {} || l.presets != {})
  }
}
