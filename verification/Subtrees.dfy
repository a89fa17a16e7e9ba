// The site report's memoised subtree recursion and the roll-up that uses it.
module Subtrees {
  import opened Wrappers
  import opened Organizations

  /** The largest rank of a row. */
  ghost function MaxRank(rows: seq<Organization>, rank: OrgId -> nat): (m: nat)
    ensures forall o :: o in rows ==> rank(o.id) <= m
  {
    if rows == [] then 0
    else
      var m := MaxRank(rows[1..], rank);
      if rank(rows[0].id) <= m then m else rank(rows[0].id)
  }

  /** How many ranks are left below `id`: what the recursion descends on. */
  ghost function Room(rows: seq<Organization>, rank: OrgId -> nat, id: OrgId): nat {
    if rank(id) <= MaxRank(rows, rank) then MaxRank(rows, rank) - rank(id) else 0
  }

  /** The uncached recursion: the id, then its children's subtrees one after another. */
  ghost function Subtree(rows: seq<Organization>, rank: OrgId -> nat, id: OrgId): seq<OrgId>
    requires RanksUpward(rows, rank)
    decreases Room(rows, rank, id), 1, 0
  {
    [id] + SubtreesOf(rows, rank, id, Children(rows, id))
  }

  ghost function SubtreesOf(rows: seq<Organization>, rank: OrgId -> nat, id: OrgId,
          children: seq<Organization>): seq<OrgId>
    requires RanksUpward(rows, rank)
    requires forall c :: c in children ==> c in Children(rows, id)
    decreases Room(rows, rank, id), 0, |children|
  {
    if children == [] then []
    else
      assert children[0] in children && children[0] in Children(rows, id);
      assert rank(children[0].id) <= MaxRank(rows, rank);
      Subtree(rows, rank, children[0].id) + SubtreesOf(rows, rank, id, children[1..])
  }

  class SubtreeCache {
    const rows: seq<Organization>
    var cache: map<OrgId, seq<OrgId>>

    constructor (rows: seq<Organization>)
      ensures this.rows == rows && cache == map[]
    {
      this.rows := rows;
      cache := map[];
    }

    method GetSubtreeIds(organizationId: OrgId, ghost rank: OrgId -> nat) returns (ids: seq<OrgId>)
      requires RanksUpward(rows, rank) && Agrees(rows, rank, cache)
      modifies this`cache
      ensures Agrees(rows, rank, cache)
      ensures ids == Subtree(rows, rank, organizationId)
      ensures old(cache.Keys) + {organizationId} <= cache.Keys
      decreases Room(rows, rank, organizationId)
    {
      if organizationId in cache {
        return cache[organizationId];
      }
      var children := Children(rows, organizationId);
      ids := [organizationId];
      var i := 0;
      assert children[i..] == children;
      while i < |children|
        invariant 0 <= i <= |children|
        invariant Agrees(rows, rank, cache)
        invariant old(cache.Keys) <= cache.Keys
        invariant ids + SubtreesOf(rows, rank, organizationId, children[i..]) == Subtree(rows, rank, organizationId)
      {
        ChildBelow(rows, rank, organizationId, i);
        var below := GetSubtreeIds(children[i].id, rank);
        ids := ids + below;
        i := i + 1;
      }
      assert children[i..] == [];
      cache := cache[organizationId := ids];
    }
  }

  /** Every cached list is what the uncached recursion would return. */
  ghost predicate Agrees(rows: seq<Organization>, rank: OrgId -> nat, cache: map<OrgId, seq<OrgId>>)
    requires RanksUpward(rows, rank)
  {
    forall id :: id in cache ==> cache[id] == Subtree(rows, rank, id)
  }

  lemma ChildBelow(rows: seq<Organization>, rank: OrgId -> nat, id: OrgId, i: nat)
    requires RanksUpward(rows, rank) && i < |Children(rows, id)|
    ensures var children := Children(rows, id);
      && Room(rows, rank, children[i].id) < Room(rows, rank, id)
      && SubtreesOf(rows, rank, id, children[i..])
         == Subtree(rows, rank, children[i].id) + SubtreesOf(rows, rank, id, children[i + 1..])
  {
    var children := Children(rows, id);
    assert children[i] in children;
    assert children[i..][1..] == children[i + 1..];
  }

  // ----- every descendant exactly once -----

  lemma ParentStep(rows: seq<Organization>, x: OrgId, k: nat, p: OrgId)
    requires Up(rows, x, k).Some? && ParentOf(rows, Up(rows, x, k).value) == Some(p)
    ensures Up(rows, x, k + 1) == Some(p)
  {
    UpCompose(rows, x, k, 1);
    assert Up(rows, p, 0) == Some(p);
  }

  lemma {:induction false} SubtreeHolds(rows: seq<Organization>, rank: OrgId -> nat, id: OrgId, x: OrgId)
    requires UniqueIds(rows) && RanksUpward(rows, rank)
    ensures x in Subtree(rows, rank, id) <==> IsAncestorOrSelf(rows, id, x)
    decreases Room(rows, rank, id), 1, 0
  {
    assert Up(rows, x, 0) == Some(x);
    var children := Children(rows, id);
    SubtreesHold(rows, rank, id, children, x);
    if k: nat :| Up(rows, x, k) == Some(id) {
      if k > 0 {
        UpCompose(rows, x, k - 1, 1);
        var c := Up(rows, x, k - 1).value;
        assert Up(rows, c, 1) == Some(id);
        assert ParentOf(rows, c) == Some(id);
        ChildrenAreParented(rows, id, Lookup(rows, c).value);
        assert IsAncestorOrSelf(rows, c, x);
      }
    }
    if c :| c in children && IsAncestorOrSelf(rows, c.id, x) {
      var k: nat :| Up(rows, x, k) == Some(c.id);
      ChildrenAreParented(rows, id, c);
      ParentStep(rows, x, k, id);
    }
  }

  lemma {:induction false} SubtreesHold(rows: seq<Organization>, rank: OrgId -> nat, id: OrgId,
          children: seq<Organization>, x: OrgId)
    requires UniqueIds(rows) && RanksUpward(rows, rank)
    requires forall c :: c in children ==> c in Children(rows, id)
    ensures x in SubtreesOf(rows, rank, id, children) <==> exists c :: c in children && IsAncestorOrSelf(rows, c.id, x)
    decreases Room(rows, rank, id), 0, |children|
  {
    if children != [] {
      assert children[0] in children;
      SubtreeHolds(rows, rank, children[0].id, x);
      SubtreesHold(rows, rank, id, children[1..], x);
      assert children == [children[0]] + children[1..];
    }
  }

  /** Two siblings have no common descendant. */
  lemma SiblingsAreApart(rows: seq<Organization>, rank: OrgId -> nat, id: OrgId, a: OrgId, b: OrgId, x: OrgId,
          j: nat, k: nat)
    requires RanksUpward(rows, rank)
    requires ParentOf(rows, a) == Some(id) && ParentOf(rows, b) == Some(id)
    requires Up(rows, x, j) == Some(a) && Up(rows, x, k) == Some(b) && j <= k
    ensures a == b
  {
    UpCompose(rows, x, j, k - j);
    if j < k {
      UpDescendsRank(rows, rank, id, k - j - 1);
      var o := Lookup(rows, b).value;
      assert o in rows && o.parentId == Some(id);
    }
  }

  lemma {:induction false} SubtreeDistinct(rows: seq<Organization>, rank: OrgId -> nat, id: OrgId)
    requires UniqueIds(rows) && RanksUpward(rows, rank)
    ensures Distinct(Subtree(rows, rank, id))
    decreases Room(rows, rank, id), 1, 0
  {
    var children := Children(rows, id);
    ChildrenDistinct(rows, id);
    SubtreesDistinct(rows, rank, id, children);
    forall x | x in SubtreesOf(rows, rank, id, children) ensures x != id {
      SubtreesHold(rows, rank, id, children, x);
      var c :| c in children && IsAncestorOrSelf(rows, c.id, x);
      var k: nat :| Up(rows, x, k) == Some(c.id);
      UpDescendsRank(rows, rank, x, k);
      assert c in rows;
    }
    DistinctAppend([id], SubtreesOf(rows, rank, id, children));
  }

  lemma {:induction false} SubtreesDistinct(rows: seq<Organization>, rank: OrgId -> nat, id: OrgId,
          children: seq<Organization>)
    requires UniqueIds(rows) && RanksUpward(rows, rank) && UniqueIds(children)
    requires forall c :: c in children ==> c in Children(rows, id)
    ensures Distinct(SubtreesOf(rows, rank, id, children))
    decreases Room(rows, rank, id), 0, |children|
  {
    if children != [] {
      var first, rest := children[0], children[1..];
      assert first in children;
      SubtreeDistinct(rows, rank, first.id);
      SubtreesDistinct(rows, rank, id, rest);
      forall x | x in Subtree(rows, rank, first.id) ensures x !in SubtreesOf(rows, rank, id, rest) {
        SubtreeHolds(rows, rank, first.id, x);
        SubtreesHold(rows, rank, id, rest, x);
        if c :| c in rest && IsAncestorOrSelf(rows, c.id, x) {
          var j: nat :| Up(rows, x, j) == Some(first.id);
          var k: nat :| Up(rows, x, k) == Some(c.id);
          ChildrenAreParented(rows, id, first);
          ChildrenAreParented(rows, id, c);
          if j <= k { SiblingsAreApart(rows, rank, id, first.id, c.id, x, j, k); }
          else { SiblingsAreApart(rows, rank, id, c.id, first.id, x, k, j); }
          assert false;
        }
      }
      DistinctAppend(Subtree(rows, rank, first.id), SubtreesOf(rows, rank, id, rest));
    }
  }

  // ----- roll-up -----

  /** The type column; a site's total counts the first two. */
  datatype LogType = Behavior | AppControl | OtherType

  /** A blocked log with the organizations it may be attributed to, in order of preference. */
  datatype RawLog = RawLog(logType: LogType, organizationId: Option<OrgId>, deviceOrganizationId: Option<OrgId>,
                           employeeOrganizationId: Option<OrgId>)

  /** The first candidate that is not blank and lies inside the report. */
  function EffectiveOrganization(log: RawLog, relevant: set<OrgId>): Option<OrgId> {
    if Truthy(log.organizationId) && log.organizationId.value in relevant then log.organizationId
    else if Truthy(log.deviceOrganizationId) && log.deviceOrganizationId.value in relevant then log.deviceOrganizationId
    else if Truthy(log.employeeOrganizationId) && log.employeeOrganizationId.value in relevant
        then log.employeeOrganizationId
    else None
  }

  /** The log's own organization counts first, then that of its device, then that of its employee;
      a blank one or one outside the report is passed over. */
  lemma EffectiveMeans(log: RawLog, relevant: set<OrgId>, id: OrgId)
    ensures EffectiveOrganization(log, relevant) == Some(id)
      <==> id != "" && id in relevant &&
           (|| log.organizationId == Some(id)
            || (!Inside(log.organizationId, relevant)
                && (|| log.deviceOrganizationId == Some(id)
                    || (!Inside(log.deviceOrganizationId, relevant) && log.employeeOrganizationId == Some(id)))))
  {
  }

  ghost predicate Inside(id: Option<OrgId>, ids: set<OrgId>) {
    exists x :: id == Some(x) && x != "" && x in ids
  }

  /** The bucket of `id` in rawLogsByOrg. */
  function Bucket(logs: seq<RawLog>, relevant: set<OrgId>, id: OrgId): seq<RawLog> {
    if logs == [] then []
    else
      var rest := Bucket(logs[1..], relevant, id);
      if EffectiveOrganization(logs[0], relevant) == Some(id) then [logs[0]] + rest else rest
  }

  function OfType(logs: seq<RawLog>, t: LogType): nat {
    if logs == [] then 0 else (if logs[0].logType == t then 1 else 0) + OfType(logs[1..], t)
  }

  /** allowedAppBlocks + behaviorBlocks of a site. */
  function TotalViolations(siteLogs: seq<RawLog>): nat {
    OfType(siteLogs, AppControl) + OfType(siteLogs, Behavior)
  }

  /** Logs of a type attributed to an organization of `ids`. */
  ghost function CountWithin(logs: seq<RawLog>, relevant: set<OrgId>, ids: set<OrgId>, t: LogType): nat {
    if logs == [] then 0
    else
      var e := EffectiveOrganization(logs[0], relevant);
      (if e.Some? && e.value in ids && logs[0].logType == t then 1 else 0) + CountWithin(logs[1..], relevant, ids, t)
  }

  /** subtreeIds.flatMap(bucket) */
  function SubtreeLogs(logs: seq<RawLog>, relevant: set<OrgId>, ids: seq<OrgId>): seq<RawLog> {
    if ids == [] then [] else Bucket(logs, relevant, ids[0]) + SubtreeLogs(logs, relevant, ids[1..])
  }

  lemma {:induction false} OfTypeConcat(a: seq<RawLog>, b: seq<RawLog>, t: LogType)
    ensures OfType(a + b, t) == OfType(a, t) + OfType(b, t)
  {
    if a == [] {
      assert a + b == b;
    } else {
      assert (a + b)[1..] == a[1..] + b;
      OfTypeConcat(a[1..], b, t);
    }
  }

  lemma {:induction false} CountSplits(logs: seq<RawLog>, relevant: set<OrgId>, id: OrgId, ids: set<OrgId>, t: LogType)
    requires id !in ids
    ensures CountWithin(logs, relevant, {id} + ids, t)
         == OfType(Bucket(logs, relevant, id), t) + CountWithin(logs, relevant, ids, t)
  {
    if logs != [] { CountSplits(logs[1..], relevant, id, ids, t); }
  }

  lemma {:induction false} FlattenedCount(logs: seq<RawLog>, relevant: set<OrgId>, ids: seq<OrgId>, t: LogType)
    requires Distinct(ids)
    ensures OfType(SubtreeLogs(logs, relevant, ids), t) == CountWithin(logs, relevant, ToSet(ids), t)
  {
    if ids == [] {
      assert ToSet(ids) == {};
      NothingWithin(logs, relevant, t);
    } else {
      assert ids == [ids[0]] + ids[1..];
      DistinctSplit([ids[0]], ids[1..]);
      FlattenedCount(logs, relevant, ids[1..], t);
      CountSplits(logs, relevant, ids[0], ToSet(ids[1..]), t);
      OfTypeConcat(Bucket(logs, relevant, ids[0]), SubtreeLogs(logs, relevant, ids[1..]), t);
      assert ToSet(ids) == {ids[0]} + ToSet(ids[1..]);
    }
  }

  lemma {:induction false} NothingWithin(logs: seq<RawLog>, relevant: set<OrgId>, t: LogType)
    ensures CountWithin(logs, relevant, {}, t) == 0
  {
    if logs != [] { NothingWithin(logs[1..], relevant, t); }
  }

  /** What a site reports: the app-control and behaviour logs of every descendant-or-self, each
      log once; logs of other types are in its hours but not in its total. */
  lemma SiteCountsEachLogOnce(rows: seq<Organization>, rank: OrgId -> nat, site: OrgId, logs: seq<RawLog>,
          relevant: set<OrgId>)
    requires UniqueIds(rows) && RanksUpward(rows, rank)
    ensures var (below, siteLogs) :=
      (ToSet(Subtree(rows, rank, site)), SubtreeLogs(logs, relevant, Subtree(rows, rank, site)));
            && (forall x :: x in below <==> IsAncestorOrSelf(rows, site, x))
            && (forall t :: OfType(siteLogs, t) == CountWithin(logs, relevant, below, t))
            && TotalViolations(siteLogs) == CountWithin(logs, relevant, below, AppControl)
                 + CountWithin(logs, relevant, below, Behavior)
  {
    SubtreeDistinct(rows, rank, site);
    forall t { FlattenedCount(logs, relevant, Subtree(rows, rank, site), t); }
    forall x ensures x in ToSet(Subtree(rows, rank, site)) <==> IsAncestorOrSelf(rows, site, x) {
      SubtreeHolds(rows, rank, site, x);
    }
  }

  ghost function SiteCount(rows: seq<Organization>, rank: OrgId -> nat, site: OrgId, logs: seq<RawLog>,
          relevant: set<OrgId>, t: LogType): nat
    requires RanksUpward(rows, rank)
  {
    OfType(SubtreeLogs(logs, relevant, Subtree(rows, rank, site)), t)
  }

  ghost function ChildrenTotal(rows: seq<Organization>, rank: OrgId -> nat, children: seq<Organization>,
          logs: seq<RawLog>, relevant: set<OrgId>, t: LogType): nat
    requires RanksUpward(rows, rank)
  {
    if children == [] then 0
    else SiteCount(rows, rank, children[0].id, logs, relevant, t)
         + ChildrenTotal(rows, rank, children[1..], logs, relevant, t)
  }

  lemma {:induction false} SubtreeLogsConcat(logs: seq<RawLog>, relevant: set<OrgId>, a: seq<OrgId>,
          b: seq<OrgId>, t: LogType)
    ensures OfType(SubtreeLogs(logs, relevant, a + b), t)
         == OfType(SubtreeLogs(logs, relevant, a), t) + OfType(SubtreeLogs(logs, relevant, b), t)
  {
    if a == [] {
      assert a + b == b;
    } else {
      assert (a + b)[1..] == a[1..] + b;
      SubtreeLogsConcat(logs, relevant, a[1..], b, t);
      OfTypeConcat(Bucket(logs, relevant, a[0]), SubtreeLogs(logs, relevant, a[1..]), t);
      OfTypeConcat(Bucket(logs, relevant, a[0]), SubtreeLogs(logs, relevant, a[1..] + b), t);
    }
  }

  lemma OwnLogs(logs: seq<RawLog>, relevant: set<OrgId>, id: OrgId)
    ensures SubtreeLogs(logs, relevant, [id]) == Bucket(logs, relevant, id)
  {
    assert [id][1..] == [];
    assert Bucket(logs, relevant, id) + [] == Bucket(logs, relevant, id);
  }

  /** A site's count of a type is that of its own logs plus the counts its children report. */
  lemma SiteIsOwnPlusChildren(rows: seq<Organization>, rank: OrgId -> nat, site: OrgId, logs: seq<RawLog>,
          relevant: set<OrgId>, t: LogType)
    requires RanksUpward(rows, rank)
    ensures SiteCount(rows, rank, site, logs, relevant, t)
         == OfType(Bucket(logs, relevant, site), t)
            + ChildrenTotal(rows, rank, Children(rows, site), logs, relevant, t)
  {
    SubtreeLogsConcat(logs, relevant, [site], SubtreesOf(rows, rank, site, Children(rows, site)), t);
    OwnLogs(logs, relevant, site);
    ChildrenSum(rows, rank, site, Children(rows, site), logs, relevant, t);
  }

  lemma {:induction false} ChildrenSum(rows: seq<Organization>, rank: OrgId -> nat, id: OrgId,
          children: seq<Organization>,
                                       logs: seq<RawLog>, relevant: set<OrgId>, t: LogType)
    requires RanksUpward(rows, rank)
    requires forall c :: c in children ==> c in Children(rows, id)
    ensures OfType(SubtreeLogs(logs, relevant, SubtreesOf(rows, rank, id, children)), t)
         == ChildrenTotal(rows, rank, children, logs, relevant, t)
    decreases |children|
  {
    if children != [] {
      ChildrenSum(rows, rank, id, children[1..], logs, relevant, t);
      SubtreeLogsConcat(logs, relevant, Subtree(rows, rank, children[0].id),
          SubtreesOf(rows, rank, id, children[1..]), t);
    }
  }
}
