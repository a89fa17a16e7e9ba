// Control policies, what is attached to them, and what each operation of the service does.
// Each operation is one atomic step: the checks and the writes are not taken apart here, except
// that the caller's scope and the target teams and employees are a flag.
module PolicyTables {
  import opened Wrappers
  import opened Organizations
  import opened PolicyScope

  type PolicyId = string
  type ResourceId = string

  datatype Kind = Zone | TimePolicy | Behavior | Preset

  /** The relation rows of one policy. */
  datatype Links = Links(zones: set<ResourceId>, timePolicies: set<ResourceId>, behaviors: set<ResourceId>,
      presets: set<ResourceId>) {
    function Of(k: Kind): set<ResourceId> {
      match k
      case Zone => zones
      case TimePolicy => timePolicies
      case Behavior => behaviors
      case Preset => presets
    }

    function With(k: Kind, ids: set<ResourceId>): Links {
      match k
      case Zone => this.(zones := ids)
      case TimePolicy => this.(timePolicies := ids)
      case Behavior => this.(behaviors := ids)
      case Preset => this.(presets := ids)
    }
  }

  const NoLinks := Links({}, {}, {}, {})

  datatype Policy = Policy(organizationId: OrgId, isActive: bool, isDraft: bool, deleted: bool, links: Links)

  datatype Resource = Resource(organizationId: OrgId, deleted: bool)

  datatype Resources = Resources(zones: map<ResourceId, Resource>, timePolicies: map<ResourceId, Resource>,
                                 behaviors: map<ResourceId, Resource>, presets: map<ResourceId, Resource>) {
    function Of(k: Kind): map<ResourceId, Resource> {
      match k
      case Zone => zones
      case TimePolicy => timePolicies
      case Behavior => behaviors
      case Preset => presets
    }

    function With(k: Kind, t: map<ResourceId, Resource>): Resources {
      match k
      case Zone => this.(zones := t)
      case TimePolicy => this.(timePolicies := t)
      case Behavior => this.(behaviors := t)
      case Preset => this.(presets := t)
    }
  }

  datatype Db = Db(policies: map<PolicyId, Policy>, resources: Resources)

  datatype PolicyError = NotFound | BadRequest

  /** The lists of a request; None is an absent field. */
  datatype Lists = Lists(zones: Option<seq<ResourceId>>, timePolicies: Option<seq<ResourceId>>,
                         behaviors: Option<seq<ResourceId>>, presets: Option<seq<ResourceId>>) {
    function Of(k: Kind): Option<seq<ResourceId>> {
      match k
      case Zone => zones
      case TimePolicy => timePolicies
      case Behavior => behaviors
      case Preset => presets
    }
  }

  /** normalizeIds as a set: the truthy ids of a list. */
  function Named(ids: Option<seq<ResourceId>>): set<ResourceId> {
    if ids.None? then {} else set id | id in ids.value && id != ""
  }

  function Listed(ids: Option<seq<ResourceId>>): set<ResourceId> {
    if ids.None? then {} else set id | id in ids.value
  }

  predicate MissingRequired(l: Links) {
    l.zones == {} || l.timePolicies == {}
  }

  /** A policy owner is a company, a group or a unit. */
  predicate MayOwn(rows: seq<Organization>, id: OrgId) {
    Lookup(rows, id).Some? && Classify(Lookup(rows, id).value) != Admin
  }

  /** validatePolicyRelations for one list: every named resource exists, is not deleted and,
      unless a super admin asks, belongs to a source organization of the owner. */
  ghost predicate Validated(rows: seq<Organization>, table: map<ResourceId, Resource>, owner: OrgId,
          ids: set<ResourceId>, superAdmin: bool) {
    forall id :: id in ids
        ==> id in table && !table[id].deleted && (superAdmin || IsSource(rows, owner, table[id].organizationId))
  }

  ghost predicate AllValidated(rows: seq<Organization>, resources: Resources, owner: OrgId, lists: Lists,
          superAdmin: bool) {
    forall k :: Validated(rows, resources.Of(k), owner, Named(lists.Of(k)), superAdmin)
  }

  /** ensureSingleSelectionConstraints */
  predicate SingleSelection(lists: Lists) {
    |Named(lists.timePolicies)| <= 1 && |Named(lists.behaviors)| <= 1
  }

  /** The foreign keys of the relation tables. */
  predicate Insertable(resources: Resources, lists: Lists) {
    && Listed(lists.zones) <= resources.zones.Keys && Listed(lists.timePolicies) <= resources.timePolicies.Keys
    && Listed(lists.behaviors) <= resources.behaviors.Keys && Listed(lists.presets) <= resources.presets.Keys
  }

  /** Another undeleted published policy of the organization. */
  predicate OwnsPublished(policies: map<PolicyId, Policy>, owner: OrgId, except: Option<PolicyId>) {
    exists q :: q in policies && Some(q) != except && policies[q].organizationId == owner && !policies[q].deleted
        && !policies[q].isDraft
  }

  // ----- operations -----

  datatype CreateRequest = CreateRequest(organizationId: OrgId, lists: Lists, isDraft: bool, isActive: Option<bool>)

  /** `otherChecks` stands for the checks that touch no modelled state: the caller's scope and
      the target teams and employees. `id` is the key the database generates. */
  ghost function Create(rows: seq<Organization>, db: Db, id: PolicyId, q: CreateRequest, superAdmin: bool,
          otherChecks: bool): Result<Db, PolicyError> {
    if Lookup(rows, q.organizationId).None? || !otherChecks then Failure(BadRequest)
    else if !MayOwn(rows, q.organizationId) then Failure(BadRequest)
    else if OwnsPublished(db.policies, q.organizationId, None) then Failure(BadRequest)
    else if !AllValidated(rows, db.resources, q.organizationId, q.lists, superAdmin) || !SingleSelection(q.lists)
        then Failure(BadRequest)
    else if !q.isDraft && (Named(q.lists.zones) == {} || Named(q.lists.timePolicies) == {}) then Failure(BadRequest)
    else if id in db.policies || !Insertable(db.resources, q.lists) then Failure(BadRequest)
    else
      var links := Links(Listed(q.lists.zones), Listed(q.lists.timePolicies), Listed(q.lists.behaviors),
          Listed(q.lists.presets));
      Success(db.(policies := db.policies[id :=
        Policy(q.organizationId, !q.isDraft && q.isActive.GetOr(true), q.isDraft, false, links)]))
  }

  datatype UpdateRequest = UpdateRequest(organizationId: Option<OrgId>, lists: Lists, isDraft: Option<bool>,
      isActive: Option<bool>)

  /** applyRequiredConditionActivationPolicy: it never looks at isDraft. */
  function ApplyActivation(p: Policy, hadMissing: bool): Policy {
    if MissingRequired(p.links) then p.(isActive := false)
    else if hadMissing then p.(isActive := true)
    else p
  }

  /** A given list replaces the relation; an absent one keeps it unless the owner changed. */
  function NewLinks(old_: Links, lists: Lists, ownerChanged: bool): Links {
    Links(
      if lists.zones.Some? then Listed(lists.zones) else if ownerChanged then {} else old_.zones,
      if lists.timePolicies.Some? then Listed(lists.timePolicies) else if ownerChanged then {} else old_.timePolicies,
      if lists.behaviors.Some? then Listed(lists.behaviors) else if ownerChanged then {} else old_.behaviors,
      if lists.presets.Some? then Listed(lists.presets) else if ownerChanged then {} else old_.presets)
  }

  function Edited(p: Policy, q: UpdateRequest): Policy {
    var draft := q.isDraft.GetOr(p.isDraft);
    var owner := q.organizationId.GetOr(p.organizationId);
    ApplyActivation(
      Policy(owner, !draft && q.isActive.GetOr(p.isActive), draft, false,
          NewLinks(p.links, q.lists, owner != p.organizationId)),
      MissingRequired(p.links))
  }

  ghost function Update(rows: seq<Organization>, db: Db, id: PolicyId, q: UpdateRequest, superAdmin: bool,
          otherChecks: bool): Result<Db, PolicyError> {
    if id !in db.policies || db.policies[id].deleted || !otherChecks then Failure(NotFound)
    else
      var p := db.policies[id];
      var owner := q.organizationId.GetOr(p.organizationId);
      if Lookup(rows, owner).None? then Failure(NotFound)
      else if !MayOwn(rows, owner) then Failure(BadRequest)
      else if !q.isDraft.GetOr(p.isDraft) && OwnsPublished(db.policies, owner, Some(id)) then Failure(BadRequest)
      else if !AllValidated(rows, db.resources, owner, q.lists, superAdmin) || !SingleSelection(q.lists)
          then Failure(BadRequest)
      else if !Insertable(db.resources, q.lists) then Failure(BadRequest)
      else Success(db.(policies := db.policies[id := Edited(p, q)]))
  }

  function Removed(p: Policy): Policy {
    p.(isActive := false, deleted := true, links := NoLinks)
  }

  /** remove, and bulkRemove for several ids at once. */
  function Remove(db: Db, ids: set<PolicyId>): Db {
    db.(policies := map p | p in db.policies ::
        if p in ids && !db.policies[p].deleted then Removed(db.policies[p]) else db.policies[p])
  }

  function Toggle(db: Db, id: PolicyId): Result<Db, PolicyError> {
    if id !in db.policies || db.policies[id].deleted then Failure(NotFound)
    else
      var p := db.policies[id];
      if p.isDraft || (!p.isActive && MissingRequired(p.links)) then Failure(BadRequest)
      else Success(db.(policies := db.policies[id := p.(isActive := !p.isActive)]))
  }

  predicate Switchable(p: Policy, isActive: bool) {
    !p.isDraft && !p.deleted && (isActive ==> !MissingRequired(p.links))
  }

  function BulkSetActive(db: Db, ids: set<PolicyId>, isActive: bool): Db {
    db.(policies := map p | p in db.policies ::
      if p in ids && Switchable(db.policies[p], isActive) then db.policies[p].(isActive := isActive)
          else db.policies[p])
  }

  function OneList(k: Kind, ids: seq<ResourceId>): Lists {
    match k
    case Zone => Lists(Some(ids), None, None, None)
    case TimePolicy => Lists(None, Some(ids), None, None)
    case Behavior => Lists(None, None, Some(ids), None)
    case Preset => Lists(None, None, None, Some(ids))
  }

  /** assignZones and its three siblings, which see published policies only. */
  ghost function Assign(rows: seq<Organization>, db: Db, id: PolicyId, k: Kind, ids: seq<ResourceId>,
          superAdmin: bool, otherChecks: bool): Result<Db, PolicyError> {
    if id !in db.policies || db.policies[id].deleted || db.policies[id].isDraft || !otherChecks then Failure(NotFound)
    else
      var p := db.policies[id];
      var lists := OneList(k, ids);
      if Lookup(rows, p.organizationId).None? then Failure(NotFound)
      else if !Validated(rows, db.resources.Of(k), p.organizationId, Named(Some(ids)),
          superAdmin) || !SingleSelection(lists) then Failure(BadRequest)
      else if !(Listed(Some(ids)) <= db.resources.Of(k).Keys) then Failure(BadRequest)
      else Success(db.(policies := db.policies[id :=
        ApplyActivation(p.(links := p.links.With(k, Listed(Some(ids)))), MissingRequired(p.links))]))
  }

  // ----- resources -----

  /** deactivatePoliciesWithoutConditions wants a zone, a time and a behaviour or a preset. */
  predicate ReviewRequired(l: Links) {
    l.zones == {} || l.timePolicies == {} || (l.behaviors == {} && l.presets == {})
  }

  function Detached(p: Policy, k: Kind, r: ResourceId): Policy {
    p.(links := p.links.With(k, p.links.Of(k) - {r}))
  }

  /** Moving a resource to another organization detaches it from the undeleted policies whose
      owner may no longer use it, and switches those policies off. */
  ghost function MoveResource(rows: seq<Organization>, db: Db, k: Kind, r: ResourceId, target: OrgId,
          otherChecks: bool): Result<Db, PolicyError> {
    if r !in db.resources.Of(k) || db.resources.Of(k)[r].deleted || !otherChecks then Failure(NotFound)
    else if Lookup(rows, target).None? then Failure(if k.Preset? && target != "" then NotFound else BadRequest)
    else if !MayOwn(rows, target) then Failure(BadRequest)
    else
      var moved := db.(resources :=
          db.resources.With(k, db.resources.Of(k)[r := db.resources.Of(k)[r].(organizationId := target)]));
      if target == db.resources.Of(k)[r].organizationId then Success(moved)
      else Success(moved.(policies := map p | p in db.policies ::
        if MustDetach(rows, db.policies[p], k, r, target) then Detached(db.policies[p], k, r).(isActive := false)
            else db.policies[p]))
  }

  ghost predicate MustDetach(rows: seq<Organization>, p: Policy, k: Kind, r: ResourceId, target: OrgId) {
    !p.deleted && r in p.links.Of(k) && !IsAllowed(rows, p.organizationId, target)
  }

  /** Removing a resource detaches it everywhere and switches off what now lacks a condition. */
  function RemoveResource(db: Db, k: Kind, r: ResourceId): Result<Db, PolicyError> {
    if r !in db.resources.Of(k) || db.resources.Of(k)[r].deleted then Failure(NotFound)
    else Success(Db(
      map p | p in db.policies :: if r in db.policies[p].links.Of(k) then Reviewed(Detached(db.policies[p], k, r))
          else db.policies[p],
      db.resources.With(k, db.resources.Of(k)[r := db.resources.Of(k)[r].(deleted := true)])))
  }

  function Reviewed(p: Policy): Policy {
    if ReviewRequired(p.links) then p.(isActive := false) else p
  }
}
