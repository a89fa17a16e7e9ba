// Runs of policy operations on a fixed organization tree, each operation one atomic step, and
// what every reachable state keeps.
module PolicyMachine {
  import opened Wrappers
  import opened Organizations
  import opened PolicyScope
  import opened PolicyTables
  import PolicyLaws

  datatype Step =
    | Creates(id: PolicyId, creation: CreateRequest)
    | Updates(id: PolicyId, edit: UpdateRequest)
    | Removes(ids: set<PolicyId>)
    | Toggles(id: PolicyId)
    | SetsActive(ids: set<PolicyId>, isActive: bool)
    | Assigns(id: PolicyId, kind: Kind, listed: seq<ResourceId>)
    | AddsResource(kind: Kind, resource: ResourceId, organizationId: OrgId)
    | MovesResource(kind: Kind, resource: ResourceId, organizationId: OrgId)
    | RemovesResource(kind: Kind, resource: ResourceId)

  /** One request: who asks, and whether the checks outside the model let it through. */
  datatype Call = Call(step: Step, superAdmin: bool, otherChecks: bool)

  /** A resource created in its organization; the database makes the id. */
  function AddResource(db: Db, k: Kind, r: ResourceId, owner: OrgId): Result<Db, PolicyError> {
    if r in db.resources.Of(k) || r == "" then Failure(BadRequest)
    else Success(db.(resources := db.resources.With(k, db.resources.Of(k)[r := Resource(owner, false)])))
  }

  /** A free id that is not blank becomes an undeleted resource of its organization, and nothing
      else changes; another id is refused. */
  lemma AddResourceMeans(db: Db, k: Kind, r: ResourceId, owner: OrgId)
    ensures var table, done := PolicyLaws.TableOf(db.resources, k), AddResource(db, k, r, owner);
            if r == "" || r in table then done == Failure(BadRequest)
            else
              && done.Success? && done.value.policies == db.policies
              && PolicyLaws.TableOf(done.value.resources, k) == table[r := Resource(owner, false)]
              && forall other :: other != k ==>
                   PolicyLaws.TableOf(done.value.resources, other) == PolicyLaws.TableOf(db.resources, other)
  {
  }

  ghost function Answer(rows: seq<Organization>, db: Db, c: Call): Result<Db, PolicyError> {
    match c.step
    case Creates(id, q) => Create(rows, db, id, q, c.superAdmin, c.otherChecks)
    case Updates(id, q) => Update(rows, db, id, q, c.superAdmin, c.otherChecks)
    case Removes(ids) => Success(Remove(db, ids))
    case Toggles(id) => Toggle(db, id)
    case SetsActive(ids, on) => Success(BulkSetActive(db, ids, on))
    case Assigns(id, k, ids) => Assign(rows, db, id, k, ids, c.superAdmin, c.otherChecks)
    case AddsResource(k, r, owner) => AddResource(db, k, r, owner)
    case MovesResource(k, r, target) => MoveResource(rows, db, k, r, target, c.otherChecks)
    case RemovesResource(k, r) => RemoveResource(db, k, r)
  }

  /** A refused request changes nothing. */
  ghost function Next(rows: seq<Organization>, db: Db, c: Call): Db {
    if Answer(rows, db, c).Success? then Answer(rows, db, c).value else db
  }

  ghost function Run(rows: seq<Organization>, db: Db, calls: seq<Call>): Db
    decreases |calls|
  {
    if calls == [] then db else Run(rows, Next(rows, db, calls[0]), calls[1..])
  }

  // ----- an active policy is complete and undeleted -----

  ghost predicate SafePolicy(p: Policy) {
    && (p.isActive ==> !p.deleted && p.links.zones != {} && p.links.timePolicies != {})
    && (p.deleted ==> p.links == NoLinks)
  }

  ghost predicate AllSafe(db: Db) {
    forall p :: p in db.policies ==> SafePolicy(db.policies[p])
  }

  lemma EditIsSafe(p: Policy, q: UpdateRequest)
    requires SafePolicy(p) && !p.deleted
    ensures SafePolicy(Edited(p, q))
  {
  }

  lemma CreateIsSafe(rows: seq<Organization>, db: Db, c: Call)
    requires AllSafe(db) && c.step.Creates?
    ensures AllSafe(Next(rows, db, c))
  {
    var q := c.step.creation;
    assert Named(q.lists.zones) <= Listed(q.lists.zones) && Named(q.lists.timePolicies) <= Listed(q.lists.timePolicies);
  }

  lemma EditingIsSafe(rows: seq<Organization>, db: Db, c: Call)
    requires AllSafe(db) && (c.step.Updates? || c.step.Assigns?)
    ensures AllSafe(Next(rows, db, c))
  {
    if c.step.Updates? && Answer(rows, db, c).Success? {
      EditIsSafe(db.policies[c.step.id], c.step.edit);
    }
  }

  lemma StepKeepsSafe(rows: seq<Organization>, db: Db, c: Call)
    requires AllSafe(db)
    ensures AllSafe(Next(rows, db, c))
  {
    if c.step.Creates? {
      CreateIsSafe(rows, db, c);
    } else if c.step.Updates? || c.step.Assigns? {
      EditingIsSafe(rows, db, c);
    } else {
    }
  }

  // ----- one published policy per owner -----

  predicate Published(p: Policy) {
    !p.deleted && !p.isDraft
  }

  ghost predicate OnePublished(db: Db) {
    forall p, q ::
      p in db.policies && q in db.policies && Published(db.policies[p]) && Published(db.policies[q])
      && db.policies[p].organizationId == db.policies[q].organizationId
      ==> p == q
  }

  /** Every published policy of `after` was published for the same owner before, except `id`. */
  ghost predicate PublishesOnly(before: Db, after: Db, id: Option<PolicyId>) {
    forall p :: p in after.policies && Published(after.policies[p]) && Some(p) != id ==>
      p in before.policies && Published(before.policies[p])
          && before.policies[p].organizationId == after.policies[p].organizationId
  }

  lemma OwnerKept(rows: seq<Organization>, db: Db, c: Call, p: PolicyId)
    requires !c.step.Creates? && !c.step.Updates? && p in Next(rows, db, c).policies
    ensures p in db.policies && db.policies[p].organizationId == Next(rows, db, c).policies[p].organizationId
    ensures Published(Next(rows, db, c).policies[p]) ==> Published(db.policies[p])
  {
  }

  lemma OtherStepsPublishNothing(rows: seq<Organization>, db: Db, c: Call)
    requires !c.step.Creates? && !c.step.Updates?
    ensures PublishesOnly(db, Next(rows, db, c), None)
  {
    var after := Next(rows, db, c);
    forall p | p in after.policies && Published(after.policies[p])
      ensures p in db.policies && Published(db.policies[p])
      ensures db.policies[p].organizationId == after.policies[p].organizationId
    {
      OwnerKept(rows, db, c, p);
    }
  }

  lemma StepKeepsOnePublished(rows: seq<Organization>, db: Db, c: Call)
    requires OnePublished(db)
    ensures OnePublished(Next(rows, db, c))
  {
    if (c.step.Creates? || c.step.Updates?) && Answer(rows, db, c).Success? {
    } else if !c.step.Creates? && !c.step.Updates? {
      OtherStepsPublishNothing(rows, db, c);
    }
  }

  // ----- what is attached exists and belongs where it may -----

  /** The attached resources of one policy exist, are not deleted and, when `strict`, belong to
      the owner or to a group or company above it. */
  ghost predicate Fits(rows: seq<Organization>, resources: Resources, p: Policy, strict: bool) {
    forall k, r :: r in p.links.Of(k) ==> Usable(rows, resources, p.organizationId, k, r, strict)
  }

  ghost predicate Usable(rows: seq<Organization>, resources: Resources, owner: OrgId, k: Kind, r: ResourceId,
          strict: bool) {
    && r in resources.Of(k) && !resources.Of(k)[r].deleted
    && (strict ==> IsSource(rows, owner, resources.Of(k)[r].organizationId))
  }

  predicate NoBlankId(resources: Resources) {
    "" !in resources.zones && "" !in resources.timePolicies && "" !in resources.behaviors && "" !in resources.presets
  }

  ghost predicate AllFit(rows: seq<Organization>, db: Db, strict: bool) {
    && NoBlankId(db.resources)
    && forall p :: p in db.policies ==> Fits(rows, db.resources, db.policies[p], strict)
  }

  lemma UpdateFits(rows: seq<Organization>, db: Db, c: Call, strict: bool)
    requires AllFit(rows, db, strict) && (strict ==> !c.superAdmin) && c.step.Updates?
    ensures AllFit(rows, Next(rows, db, c), strict)
  {
    if Answer(rows, db, c).Success? {
      var q, was := c.step.edit, db.policies[c.step.id];
      var p := Edited(was, q);
      forall k, r | r in p.links.Of(k) ensures Usable(rows, db.resources, p.organizationId, k, r, strict) {
        if q.lists.Of(k).Some? {
          assert r in Listed(q.lists.Of(k));
        } else {
          assert r in was.links.Of(k) && p.organizationId == was.organizationId;
          assert Fits(rows, db.resources, was, strict);
        }
      }
    }
  }

  lemma AssignFits(rows: seq<Organization>, db: Db, c: Call, strict: bool)
    requires AllFit(rows, db, strict) && (strict ==> !c.superAdmin) && c.step.Assigns?
    ensures AllFit(rows, Next(rows, db, c), strict)
  {
    if Answer(rows, db, c).Success? {
      var was, p := db.policies[c.step.id], Next(rows, db, c).policies[c.step.id];
      forall k, r | r in p.links.Of(k) ensures Usable(rows, db.resources, p.organizationId, k, r, strict) {
        if k == c.step.kind {
        } else {
          assert r in was.links.Of(k);
          assert Fits(rows, db.resources, was, strict);
        }
      }
    }
  }

  /** One resource row is rewritten and the policy keeps some of its relations: it still fits
      when it no longer holds that resource or may use it as it now is. */
  lemma StillFits(rows: seq<Organization>, before: Resources, k0: Kind, r0: ResourceId, x: Resource, was: Policy,
          now: Policy, strict: bool)
    requires Fits(rows, before, was, strict) && now.organizationId == was.organizationId
    requires forall k :: now.links.Of(k) <= was.links.Of(k)
    requires r0 in now.links.Of(k0) ==> !x.deleted && (strict ==> IsSource(rows, now.organizationId, x.organizationId))
    ensures Fits(rows, before.With(k0, before.Of(k0)[r0 := x]), now, strict)
  {
    var after := before.With(k0, before.Of(k0)[r0 := x]);
    forall k, r | r in now.links.Of(k) ensures Usable(rows, after, now.organizationId, k, r, strict) {
      assert Usable(rows, before, was.organizationId, k, r, strict);
    }
  }

  /** After a move, what stays attached is what the walk allows, and that is a source. */
  lemma MoveFits(rows: seq<Organization>, db: Db, c: Call, strict: bool)
    requires UniqueIds(rows) && AllSafe(db) && AllFit(rows, db, strict) && c.step.MovesResource?
    ensures AllFit(rows, Next(rows, db, c), strict)
  {
    var after := Next(rows, db, c);
    if Answer(rows, db, c).Success? {
      var k0, r0, target := c.step.kind, c.step.resource, c.step.organizationId;
      var x := db.resources.Of(k0)[r0].(organizationId := target);
      forall p | p in after.policies ensures Fits(rows, after.resources, after.policies[p], strict) {
        MoveKeepsFit(rows, db, k0, r0, target, p, strict);
        StillFits(rows, db.resources, k0, r0, x, db.policies[p], after.policies[p], strict);
      }
    }
  }

  lemma MoveKeepsFit(rows: seq<Organization>, db: Db, k0: Kind, r0: ResourceId, target: OrgId, p: PolicyId,
          strict: bool)
    requires UniqueIds(rows) && p in db.policies && SafePolicy(db.policies[p])
    requires Fits(rows, db.resources, db.policies[p], strict)
    requires MoveResource(rows, db, k0, r0, target, true).Success?
    ensures var now := MoveResource(rows, db, k0, r0, target, true).value.policies[p];
            && now.organizationId == db.policies[p].organizationId
                 && (forall k :: now.links.Of(k) <= db.policies[p].links.Of(k))
            && (strict && r0 in now.links.Of(k0) ==> IsSource(rows, now.organizationId, target))
  {
    var was := db.policies[p];
    if strict && r0 in was.links.Of(k0) {
      assert Usable(rows, db.resources, was.organizationId, k0, r0, strict);
      if IsAllowed(rows, was.organizationId, target) {
        AllowedImpliesSource(rows, was.organizationId, target);
      }
    }
  }

  /** The state between the two transactions of a move: the row is updated, nothing detached yet. */
  function RowMoved(db: Db, k: Kind, r: ResourceId, target: OrgId): Db
    requires r in db.resources.Of(k)
  {
    db.(resources := db.resources.With(k, db.resources.Of(k)[r := db.resources.Of(k)[r].(organizationId := target)]))
  }

  /** A move that is interrupted there keeps what is attached in place exactly if every policy with
      the resource may take it from the new organization as well. */
  lemma InterruptedMoveFitsIff(rows: seq<Organization>, db: Db, k: Kind, r: ResourceId, target: OrgId)
    requires AllFit(rows, db, true) && r in db.resources.Of(k) && !db.resources.Of(k)[r].deleted
    ensures AllFit(rows, RowMoved(db, k, r, target), true)
      <==> forall p :: p in db.policies && r in db.policies[p].links.Of(k)
                       ==> IsSource(rows, db.policies[p].organizationId, target)
  {
    var after := RowMoved(db, k, r, target);
    var x := db.resources.Of(k)[r].(organizationId := target);
    if forall p :: p in db.policies && r in db.policies[p].links.Of(k)
                   ==> IsSource(rows, db.policies[p].organizationId, target) {
      forall p | p in after.policies ensures Fits(rows, after.resources, after.policies[p], true) {
        StillFits(rows, db.resources, k, r, x, db.policies[p], db.policies[p], true);
      }
    }
    if AllFit(rows, after, true) {
      forall p | p in db.policies && r in db.policies[p].links.Of(k)
        ensures IsSource(rows, db.policies[p].organizationId, target)
      {
        assert Usable(rows, after.resources, db.policies[p].organizationId, k, r, true);
      }
    }
  }

  lemma RemoveResourceFits(rows: seq<Organization>, db: Db, c: Call, strict: bool)
    requires AllFit(rows, db, strict) && c.step.RemovesResource?
    ensures AllFit(rows, Next(rows, db, c), strict)
  {
    var after := Next(rows, db, c);
    if Answer(rows, db, c).Success? {
      var k0, r0 := c.step.kind, c.step.resource;
      forall p | p in after.policies ensures Fits(rows, after.resources, after.policies[p], strict) {
        StillFits(rows, db.resources, k0, r0, db.resources.Of(k0)[r0].(deleted := true), db.policies[p],
            after.policies[p], strict);
      }
    }
  }

  lemma AddResourceFits(rows: seq<Organization>, db: Db, c: Call, strict: bool)
    requires AllFit(rows, db, strict) && c.step.AddsResource?
    ensures AllFit(rows, Next(rows, db, c), strict)
  {
    var after := Next(rows, db, c);
    if Answer(rows, db, c).Success? {
      var k0, r0 := c.step.kind, c.step.resource;
      forall p | p in after.policies ensures Fits(rows, after.resources, after.policies[p], strict) {
        assert r0 in db.policies[p].links.Of(k0)
            ==> Usable(rows, db.resources, db.policies[p].organizationId, k0, r0, strict);
        StillFits(rows, db.resources, k0, r0, Resource(c.step.organizationId, false), db.policies[p],
            db.policies[p], strict);
      }
    }
  }

  lemma StepFits(rows: seq<Organization>, db: Db, c: Call, strict: bool)
    requires UniqueIds(rows) && AllSafe(db) && AllFit(rows, db, strict) && (strict ==> !c.superAdmin)
    ensures AllFit(rows, Next(rows, db, c), strict)
  {
    match c.step
    case Creates(_, _) =>
    case Updates(_, _) => UpdateFits(rows, db, c, strict);
    case Assigns(_, _, _) => AssignFits(rows, db, c, strict);
    case MovesResource(_, _, _) => MoveFits(rows, db, c, strict);
    case RemovesResource(_, _) => RemoveResourceFits(rows, db, c, strict);
    case AddsResource(_, _, _) => AddResourceFits(rows, db, c, strict);
    case Removes(ids) =>
    case Toggles(id) =>
    case SetsActive(ids, on) =>
  }

  // ----- every reachable state -----

  ghost predicate Sound(rows: seq<Organization>, db: Db, strict: bool) {
    AllSafe(db) && OnePublished(db) && AllFit(rows, db, strict)
  }

  /** From any sound state, in particular one without policies, every run keeps the state sound:
      an active policy is undeleted with a zone and a time, an organization owns at most one
      undeleted published policy, and what is attached exists. When no super admin takes part,
      what is attached also belongs to the owner or to a group or company above it. */
  lemma {:induction false} RunsStaySound(rows: seq<Organization>, db: Db, calls: seq<Call>, strict: bool)
    requires UniqueIds(rows) && Sound(rows, db, strict)
    requires strict ==> forall c :: c in calls ==> !c.superAdmin
    ensures Sound(rows, Run(rows, db, calls), strict)
    decreases |calls|
  {
    if calls != [] {
      StepKeepsSafe(rows, db, calls[0]);
      StepKeepsOnePublished(rows, db, calls[0]);
      StepFits(rows, db, calls[0], strict);
      RunsStaySound(rows, Next(rows, db, calls[0]), calls[1..], strict);
    }
  }

  // ----- drafts -----

  /** The edit leaves the policy a draft and gives it the zone or the time it lacked. */
  predicate CompletesDraft(p: Policy, q: UpdateRequest) {
    && q.isDraft.GetOr(p.isDraft) && MissingRequired(p.links)
    && !MissingRequired(NewLinks(p.links, q.lists, q.organizationId.GetOr(p.organizationId) != p.organizationId))
  }

  ghost predicate ActiveDraft(db: Db, id: PolicyId) {
    id in db.policies && db.policies[id].isDraft && db.policies[id].isActive
  }

  /** The request is an edit of the policy that the service accepts and that completes a draft. */
  ghost predicate AcceptedCompletion(rows: seq<Organization>, db: Db, c: Call, id: PolicyId) {
    c.step.Updates? && c.step.id == id && Answer(rows, db, c).Success? && CompletesDraft(db.policies[id], c.step.edit)
  }

  /** A request leaves an active draft where there was none exactly if it is such an edit. No
      other operation does it: the activation of an edit ignores isDraft, while assigning,
      toggling and bulk activation refuse drafts and creation saves them inactive. */
  lemma DraftSwitchedOnIff(rows: seq<Organization>, db: Db, c: Call, id: PolicyId)
    requires !ActiveDraft(db, id)
    ensures ActiveDraft(Next(rows, db, c), id) <==> AcceptedCompletion(rows, db, c, id)
  {
  }

  /** So every active draft at the end of a run was switched on by such an edit during it. */
  lemma {:induction false} ActiveDraftsComeFromEdits(rows: seq<Organization>, db: Db, calls: seq<Call>, id: PolicyId)
    returns (i: nat)
    requires !ActiveDraft(db, id) && ActiveDraft(Run(rows, db, calls), id)
    ensures i < |calls| && AcceptedCompletion(rows, Run(rows, db, calls[..i]), calls[i], id)
    decreases |calls|
  {
    DraftSwitchedOnIff(rows, db, calls[0], id);
    if ActiveDraft(Next(rows, db, calls[0]), id) {
      i := 0;
    } else {
      var k := ActiveDraftsComeFromEdits(rows, Next(rows, db, calls[0]), calls[1..], id);
      i := k + 1;
      assert calls[..i][1..] == calls[1..][..k];
    }
  }

  /** So an active draft is reachable: saved empty, then edited with a zone and a time. */
  lemma ActiveDraftIsReachable(rows: seq<Organization>, owner: OrgId) returns (db: Db, calls: seq<Call>)
    requires MayOwn(rows, owner)
    ensures Sound(rows, db, true) && db.policies == map[]
    ensures |calls| == 2 && forall c :: c in calls ==> !c.superAdmin
    ensures ActiveDraft(Run(rows, db, calls), "p")
  {
    var nothing := Lists(None, None, None, None);
    var both := Lists(Some(["z"]), Some(["t"]), None, None);
    db := Db(map[], Resources(map["z" := Resource(owner, false)], map["t" := Resource(owner, false)], map[], map[]));
    var save := Call(Creates("p", CreateRequest(owner, nothing, true, None)), false, true);
    var edit := Call(Updates("p", UpdateRequest(None, both, None, None)), false, true);
    calls := [save, edit];
    var saved := Next(rows, db, save);
    assert saved.policies["p"] == Policy(owner, false, true, false, NoLinks);
    assert Named(both.timePolicies) == {"t"} && Named(both.zones) == {"z"};
    assert AllValidated(rows, saved.resources, owner, both, false);
    var p := Edited(saved.policies["p"], UpdateRequest(None, both, None, None));
    assert Listed(both.zones) == {"z"} && Listed(both.timePolicies) == {"t"};
    assert "z" in p.links.zones && "t" in p.links.timePolicies;
    assert calls[1..] == [edit] && [edit][1..] == [];
    assert Run(rows, saved, [edit]) == Run(rows, Next(rows, saved, edit), []);
  }
}
