// Three searches for the units below an organization: a visited-set queue, a stack, a team-code queue.
module UnitSearch {
  import opened Wrappers
  import opened Organizations

  const ROOT_PARENT_KEY: OrgId := "__root__"

  datatype SearchError = NotFound | BadRequest

  /** `id` is reached from `root` by n parent-to-child steps that never leave a unit. */
  ghost predicate ReachedIn(rows: seq<Organization>, root: OrgId, id: OrgId, n: nat)
    decreases n
  {
    if n == 0 then id == root
    else
      var p := ParentOf(rows, id);
      p.Some? && Expands(rows, p.value) && ReachedIn(rows, root, p.value, n - 1)
  }

  ghost predicate Reached(rows: seq<Organization>, root: OrgId, id: OrgId) {
    exists n: nat :: ReachedIn(rows, root, id, n)
  }

  /** A node whose children a search goes on to: it has a row and is not a unit. */
  predicate Expands(rows: seq<Organization>, id: OrgId) {
    var o := Lookup(rows, id);
    o.Some? && Classify(o.value) != Unit
  }

  predicate IsUnit(rows: seq<Organization>, id: OrgId) {
    var o := Lookup(rows, id);
    o.Some? && Classify(o.value) == Unit
  }

  /** The answer every search must give: the units reachable through non-unit nodes. */
  ghost function UnitsBelow(rows: seq<Organization>, root: OrgId): set<OrgId> {
    set o | o in rows && IsUnit(rows, o.id) && Reached(rows, root, o.id) :: o.id
  }

  /** No non-empty walk leads from the root back to itself: what the searches without a
      visited set need in order to stop. */
  ghost predicate NoCycleThrough(rows: seq<Organization>, root: OrgId) {
    forall n: nat :: n > 0 ==> !ReachedIn(rows, root, root, n)
  }

  /** Ids are unique, not blank, and not the key under which the services file parentless rows. */
  ghost predicate PlainIds(rows: seq<Organization>) {
    && UniqueIds(rows)
    && forall o :: o in rows ==> o.id != "" && o.id != ROOT_PARENT_KEY
  }

  /** No root organization lies where the search from `root` goes. */
  ghost predicate MeetsNoRoot(rows: seq<Organization>, root: OrgId) {
    forall o :: o in rows && IsRootId(o.id) ==> !Reached(rows, root, o.id)
  }

  lemma {:induction false} ReachedStep(rows: seq<Organization>, root: OrgId, p: OrgId, c: OrgId)
    requires Reached(rows, root, p) && Expands(rows, p) && ParentOf(rows, c) == Some(p)
    ensures Reached(rows, root, c)
  {
    var n: nat :| ReachedIn(rows, root, p, n);
    assert ReachedIn(rows, root, c, n + 1);
  }

  /** A set that holds the root and is closed under expansion holds everything reached. */
  lemma {:induction false} ClosedHoldsReached(rows: seq<Organization>, root: OrgId, s: set<OrgId>, id: OrgId, n: nat)
    requires root in s
    requires forall c: OrgId ::
      ParentOf(rows, c).Some? && ParentOf(rows, c).value in s && Expands(rows, ParentOf(rows, c).value) ==> c in s
    requires ReachedIn(rows, root, id, n)
    ensures id in s
    decreases n
  {
    if n != 0 {
      ClosedHoldsReached(rows, root, s, ParentOf(rows, id).value, n - 1);
    }
  }

  /** On a cycle-free table no node lies below itself. */
  lemma RankedHasNoCycle(rows: seq<Organization>, rank: OrgId -> nat, root: OrgId)
    requires RanksUpward(rows, rank)
    ensures NoCycleThrough(rows, root)
  {
    forall n: nat | n > 0 && ReachedIn(rows, root, root, n) ensures false {
      ReachedIsUp(rows, root, root, n);
      UpDescendsRank(rows, rank, root, n);
    }
  }

  lemma {:induction false} ReachedIsUp(rows: seq<Organization>, root: OrgId, id: OrgId, n: nat)
    requires ReachedIn(rows, root, id, n)
    ensures Up(rows, id, n) == Some(root)
    decreases n
  {
    if n != 0 { ReachedIsUp(rows, root, ParentOf(rows, id).value, n - 1); }
  }

  // ----- control-logs: queue with a visited set -----

  /** Terminates and is exact on every table with plain ids: cycles and root organizations that
      have a parent are no obstacle. */
  method DescendantUnitsVisited(organizationId: OrgId, rows: seq<Organization>) returns (unitIds: seq<OrgId>)
    requires PlainIds(rows)
    ensures multiset(unitIds) == multiset(UnitsBelow(rows, organizationId))
  {
    unitIds := [];
    if organizationId == "" || |rows| == 0 {
      NothingBelowBlank(rows, organizationId);
      return;
    }
    assert ReachedIn(rows, organizationId, organizationId, 0);
    var visited: set<OrgId> := {};
    var frontier := [organizationId];
    while |frontier| > 0
      invariant VisitProgress(rows, organizationId, visited, ToSet(frontier), unitIds)
      decreases Universe(rows, organizationId) - visited, |frontier|
    {
      var currentId := frontier[0];
      ghost var seen, pending := visited, ToSet(frontier);
      frontier := frontier[1..];
      assert pending == {currentId} + ToSet(frontier);
      if currentId in visited {
        SkipVisited(rows, organizationId, visited, pending, unitIds, currentId, ToSet(frontier));
        continue;
      }
      visited := visited + {currentId};
      var current := Lookup(rows, currentId);
      if current.None? {
        VisitLeaf(rows, organizationId, seen, pending, unitIds, currentId, ToSet(frontier));
        continue;
      }
      if Classify(current.value) == Unit {
        VisitLeaf(rows, organizationId, seen, pending, unitIds, currentId, ToSet(frontier));
        unitIds := unitIds + [current.value.id];
        continue;
      }
      var children := Children(rows, current.value.id);
      ghost var rest := ToSet(frontier);
      frontier := PushUnvisited(children, visited, frontier);
      VisitInner(rows, organizationId, seen, pending, unitIds, currentId, rest, ToSet(frontier));
    }
    FinishSearch(rows, organizationId, visited, unitIds);
  }

  ghost function Universe(rows: seq<Organization>, root: OrgId): set<OrgId> {
    {root} + set o | o in rows :: o.id
  }

  ghost predicate VisitProgress(rows: seq<Organization>, root: OrgId, visited: set<OrgId>, pending: set<OrgId>,
          unitIds: seq<OrgId>) {
    && visited <= Universe(rows, root) && pending <= Universe(rows, root)
    && root in visited + pending
    && (forall id :: id in visited + pending ==> Reached(rows, root, id))
    && Expanded(rows, visited, visited + pending)
    && Distinct(unitIds)
    && (forall id :: id in unitIds <==> id in visited && IsUnit(rows, id))
  }

  lemma SkipVisited(rows: seq<Organization>, root: OrgId, visited: set<OrgId>, pending: set<OrgId>, unitIds: seq<OrgId>,
                    current: OrgId, rest: set<OrgId>)
    requires VisitProgress(rows, root, visited, pending, unitIds)
    requires pending == {current} + rest && current in visited
    ensures VisitProgress(rows, root, visited, rest, unitIds)
  {
    assert visited + rest == visited + pending;
  }

  lemma VisitLeaf(rows: seq<Organization>, root: OrgId, visited: set<OrgId>, pending: set<OrgId>, unitIds: seq<OrgId>,
                  current: OrgId, rest: set<OrgId>)
    requires VisitProgress(rows, root, visited, pending, unitIds)
    requires pending == {current} + rest && current !in visited && !Expands(rows, current)
    ensures VisitProgress(rows, root, visited + {current}, rest,
      if IsUnit(rows, current) then unitIds + [current] else unitIds)
  {
    assert visited + {current} + rest == visited + pending;
    if IsUnit(rows, current) {
      DistinctAppend(unitIds, [current]);
    }
  }

  lemma VisitInner(rows: seq<Organization>, root: OrgId, visited: set<OrgId>, pending: set<OrgId>, unitIds: seq<OrgId>,
                   current: OrgId, rest: set<OrgId>, pending': set<OrgId>)
    requires UniqueIds(rows)
    requires VisitProgress(rows, root, visited, pending, unitIds)
    requires pending == {current} + rest && current !in visited && Expands(rows, current)
    requires rest <= pending' <= rest + ChildIds(Children(rows, current))
    requires ChildIds(Children(rows, current)) <= visited + {current} + pending'
    ensures VisitProgress(rows, root, visited + {current}, pending', unitIds)
  {
    ChildIdsAreParented(rows, current);
    forall id | id in pending' && id !in rest ensures id in Universe(rows, root) && Reached(rows, root, id) {
      ReachedStep(rows, root, current, id);
      assert Lookup(rows, id).value in rows;
    }
    assert visited + pending <= visited + {current} + pending';
  }

  method PushUnvisited(children: seq<Organization>, visited: set<OrgId>, frontier: seq<OrgId>)
    returns (frontier': seq<OrgId>)
    ensures ToSet(frontier) <= ToSet(frontier') <= ToSet(frontier) + ChildIds(children)
    ensures ChildIds(children) <= visited + ToSet(frontier')
  {
    frontier' := frontier;
    var i := 0;
    while i < |children|
      invariant 0 <= i <= |children|
      invariant ToSet(frontier) <= ToSet(frontier') <= ToSet(frontier) + ChildIds(children)
      invariant ChildIds(children[..i]) <= visited + ToSet(frontier')
    {
      assert children[..i + 1] == children[..i] + [children[i]];
      assert ChildIds(children[..i + 1]) == ChildIds(children[..i]) + {children[i].id};
      if children[i].id !in visited {
        frontier' := frontier' + [children[i].id];
      }
      i := i + 1;
    }
    assert children[..i] == children;
  }

  /** Every child of an expanding node of `s` is in `t`. */
  ghost predicate Expanded(rows: seq<Organization>, s: set<OrgId>, t: set<OrgId>) {
    forall c: OrgId ::
        ParentOf(rows, c).Some? && ParentOf(rows, c).value in s && Expands(rows, ParentOf(rows, c).value) ==> c in t
  }

  lemma {:induction false} BlankReachesNothing(rows: seq<Organization>, id: OrgId, n: nat)
    requires PlainIds(rows) && ReachedIn(rows, "", id, n)
    ensures id == ""
    decreases n
  {
    if n != 0 { BlankReachesNothing(rows, ParentOf(rows, id).value, n - 1); }
  }

  lemma NothingBelowBlank(rows: seq<Organization>, root: OrgId)
    requires PlainIds(rows) && (root == "" || rows == [])
    ensures UnitsBelow(rows, root) == {}
  {
    if root == "" {
      forall id, n: nat | ReachedIn(rows, root, id, n) ensures id == "" {
        BlankReachesNothing(rows, id, n);
      }
    }
  }

  lemma FinishSearch(rows: seq<Organization>, root: OrgId, visited: set<OrgId>, unitIds: seq<OrgId>)
    requires root in visited && Expanded(rows, visited, visited)
    requires forall id :: id in visited ==> Reached(rows, root, id)
    requires Distinct(unitIds) && forall id :: id in unitIds <==> id in visited && IsUnit(rows, id)
    ensures multiset(unitIds) == multiset(UnitsBelow(rows, root))
  {
    forall o | o in rows && Reached(rows, root, o.id) ensures o.id in visited {
      var n: nat :| ReachedIn(rows, root, o.id, n);
      ClosedHoldsReached(rows, root, visited, o.id, n);
    }
    forall id | id in unitIds ensures id in UnitsBelow(rows, root) {
      assert Lookup(rows, id).value in rows;
    }
    assert ToSet(unitIds) == UnitsBelow(rows, root);
    DistinctMultiset(unitIds);
  }

  // ----- employees: stack without a visited set -----

  /** What both searches without a visited set keep: `done` are the nodes taken so far,
      `pending` the ones still to take. No node is ever pending twice. */
  ghost predicate Progress(rows: seq<Organization>, root: OrgId, done: set<OrgId>, pending: seq<OrgId>,
          unitIds: seq<OrgId>) {
    && Distinct(pending) && Distinct(unitIds)
    && (root in done || root in pending)
    && (forall id :: id in pending ==> id !in done && Expands(rows, id))
    && (forall id :: id in done || id in pending
         ==> Reached(rows, root, id) && (id == root || ParentIn(rows, id, done)))
    && (forall id :: id in unitIds <==> IsUnit(rows, id) && ParentIn(rows, id, done))
    && (forall id :: id in done ==> Expands(rows, id))
    && (forall id :: Expands(rows, id) && ParentIn(rows, id, done) ==> id in done || id in pending)
  }

  ghost predicate ParentIn(rows: seq<Organization>, id: OrgId, s: set<OrgId>) {
    ParentOf(rows, id).Some? && ParentOf(rows, id).value in s
  }

  /** Taking `current` exposes only children that were never pending before: each has a
      single parent, and the root is nobody's descendant. */
  lemma ChildIsNew(rows: seq<Organization>, root: OrgId, done: set<OrgId>, pending: seq<OrgId>, unitIds: seq<OrgId>,
                   current: OrgId, c: OrgId)
    requires NoCycleThrough(rows, root)
    requires Progress(rows, root, done, pending, unitIds)
    requires current in pending && ParentOf(rows, c) == Some(current)
    ensures c !in done && c !in pending && c !in unitIds && c != root
  {
    if c == root {
      var n: nat :| ReachedIn(rows, root, current, n);
      assert ReachedIn(rows, root, root, n + 1);
    }
  }

  lemma FinishPending(rows: seq<Organization>, root: OrgId, done: set<OrgId>, unitIds: seq<OrgId>)
    requires Progress(rows, root, done, [], unitIds)
    ensures multiset(unitIds) == multiset(UnitsBelow(rows, root))
  {
    var all := done + ToSet(unitIds);
    forall o | o in rows && Reached(rows, root, o.id) ensures o.id in all || o.id == root || !IsUnit(rows, o.id) {
      var n: nat :| ReachedIn(rows, root, o.id, n);
      UnitParentDone(rows, root, done, unitIds, o.id, n);
    }
    forall id | id in unitIds ensures id in UnitsBelow(rows, root) {
      ReachedStep(rows, root, ParentOf(rows, id).value, id);
      assert Lookup(rows, id).value in rows;
    }
    assert ToSet(unitIds) == UnitsBelow(rows, root);
    DistinctMultiset(unitIds);
  }

  lemma {:induction false} UnitParentDone(rows: seq<Organization>, root: OrgId, done: set<OrgId>,
          unitIds: seq<OrgId>, id: OrgId, n: nat)
    requires Progress(rows, root, done, [], unitIds)
    requires ReachedIn(rows, root, id, n)
    ensures Expands(rows, id) ==> id in done
    ensures IsUnit(rows, id) ==> id in unitIds
    decreases n
  {
    if n != 0 {
      UnitParentDone(rows, root, done, unitIds, ParentOf(rows, id).value, n - 1);
    }
  }

  /** The inner loop: unit children are results, the others go on the stack. */
  method TakeChildren(children: seq<Organization>, stack: seq<OrgId>, units: seq<OrgId>)
    returns (stack': seq<OrgId>, units': seq<OrgId>)
    ensures stack' == stack + Split(children, false)
    ensures units' == units + Split(children, true)
  {
    stack', units' := stack, units;
    var i := 0;
    while i < |children|
      invariant 0 <= i <= |children|
      invariant stack' + Split(children[i..], false) == stack + Split(children, false)
      invariant units' + Split(children[i..], true) == units + Split(children, true)
    {
      assert children[i..][1..] == children[i + 1..];
      if Classify(children[i]) == Unit {
        units' := units' + [children[i].id];
      } else {
        stack' := stack' + [children[i].id];
      }
      i := i + 1;
    }
  }

  /** Only a group is accepted as the starting point. Each unit is found exactly once. */
  method DescendantUnitsStack(groupId: OrgId, rows: seq<Organization>) returns (r: Result<seq<OrgId>, SearchError>)
    requires PlainIds(rows) && NoCycleThrough(rows, groupId)
    ensures r == Failure(NotFound) <==> Lookup(rows, groupId).None?
    ensures r == Failure(BadRequest) <==> Lookup(rows, groupId).Some? && Classify(Lookup(rows, groupId).value) != Group
    ensures r.Success? ==> multiset(r.value) == multiset(UnitsBelow(rows, groupId))
  {
    var group := Lookup(rows, groupId);
    if group.None? {
      return Failure(NotFound);
    }
    if Classify(group.value) != Group {
      return Failure(BadRequest);
    }
    assert ReachedIn(rows, groupId, groupId, 0);
    ghost var universe := set o | o in rows :: o.id;
    ghost var done: set<OrgId> := {};
    var unitIds: seq<OrgId> := [];
    var stack := [groupId];
    while |stack| > 0
      invariant Progress(rows, groupId, done, stack, unitIds)
      invariant done <= universe
      decreases universe - done
    {
      var current := stack[|stack| - 1];
      ghost var before, unitsBefore := stack, unitIds;
      stack := stack[..|stack| - 1];
      assert before == stack + [current];
      assert current in before && Lookup(rows, current).value in rows;
      var children := Children(rows, current);
      stack, unitIds := TakeChildren(children, stack, unitIds);
      TakeNode(rows, groupId, done, before, unitsBefore, current, before[..|before| - 1]);
      done := done + {current};
    }
    assert stack == [];
    FinishPending(rows, groupId, done, unitIds);
    r := Success(unitIds);
  }

  /** The ids of the unit children, or of the others, in order. */
  function Split(children: seq<Organization>, units: bool): (r: seq<OrgId>)
    ensures forall id :: id in r <==> exists c :: c in children && c.id == id && (Classify(c) == Unit) == units
  {
    if children == [] then []
    else
      var rest := Split(children[1..], units);
      if (Classify(children[0]) == Unit) == units then [children[0].id] + rest else rest
  }

  lemma {:induction false} SplitDistinct(children: seq<Organization>, units: bool)
    requires UniqueIds(children)
    ensures Distinct(Split(children, units))
  {
    if children != [] {
      SplitDistinct(children[1..], units);
      var head := if (Classify(children[0]) == Unit) == units then [children[0].id] else [];
      assert multiset(head) <= multiset{children[0].id};
      DistinctAppend(head, Split(children[1..], units));
    }
  }

  lemma SplitMembers(rows: seq<Organization>, key: OrgId, id: OrgId)
    requires UniqueIds(rows)
    ensures id in Split(Children(rows, key), true) <==> ParentOf(rows, id) == Some(key) && IsUnit(rows, id)
    ensures id in Split(Children(rows, key), false) <==> ParentOf(rows, id) == Some(key) && Expands(rows, id)
  {
    if ParentOf(rows, id) == Some(key) {
      ChildrenAreParented(rows, key, Lookup(rows, id).value);
    }
    forall c | c in Children(rows, key) && c.id == id ensures Lookup(rows, id) == Some(c) {
      ChildrenAreParented(rows, key, c);
    }
  }

  /** One outer step of either search keeps Progress: `current` leaves the pending nodes,
      its unit children are results and its other children become pending. */
  lemma TakeNode(rows: seq<Organization>, root: OrgId, done: set<OrgId>, pending: seq<OrgId>, unitIds: seq<OrgId>,
                 current: OrgId, rest: seq<OrgId>)
    requires UniqueIds(rows) && NoCycleThrough(rows, root)
    requires Progress(rows, root, done, pending, unitIds)
    requires pending == rest + [current] || pending == [current] + rest
    ensures Progress(rows, root, done + {current}, rest + Split(Children(rows, current), false),
                     unitIds + Split(Children(rows, current), true))
  {
    var children := Children(rows, current);
    var inner, leaf := Split(children, false), Split(children, true);
    if pending == rest + [current] {
      DistinctSplit(rest, [current]);
    } else {
      DistinctSplit([current], rest);
    }
    forall id
      ensures id in leaf <==> ParentOf(rows, id) == Some(current) && IsUnit(rows, id)
      ensures id in inner <==> ParentOf(rows, id) == Some(current) && Expands(rows, id)
    {
      SplitMembers(rows, current, id);
    }
    forall id | ParentOf(rows, id) == Some(current)
      ensures id !in done && id !in pending && id !in unitIds && Reached(rows, root, id)
    {
      ChildIsNew(rows, root, done, pending, unitIds, current, id);
      ReachedStep(rows, root, current, id);
    }
    ChildrenDistinct(rows, current);
    SplitDistinct(children, false);
    SplitDistinct(children, true);
    DistinctAppend(rest, inner);
    DistinctAppend(unitIds, leaf);
    TakeNodeMembers(rows, root, done, pending, unitIds, current, rest, inner, leaf);
  }

  lemma TakeNodeMembers(rows: seq<Organization>, root: OrgId, done: set<OrgId>, pending: seq<OrgId>,
          unitIds: seq<OrgId>,
                        current: OrgId, rest: seq<OrgId>, inner: seq<OrgId>, leaf: seq<OrgId>)
    requires Progress(rows, root, done, pending, unitIds)
    requires forall id :: id in pending <==> id in rest || id == current
    requires current !in rest
    requires forall id :: id in leaf <==> ParentOf(rows, id) == Some(current) && IsUnit(rows, id)
    requires forall id :: id in inner <==> ParentOf(rows, id) == Some(current) && Expands(rows, id)
    requires forall id ::
      ParentOf(rows, id) == Some(current) ==> id !in done && id !in pending && Reached(rows, root, id)
    requires Distinct(rest + inner) && Distinct(unitIds + leaf)
    ensures Progress(rows, root, done + {current}, rest + inner, unitIds + leaf)
  {
    var d := done + {current};
    forall id ensures ParentIn(rows, id, d) <==> ParentIn(rows, id, done) || ParentOf(rows, id) == Some(current) {}
  }

  // ----- control-policies: queue that reads teamCode directly -----

  /** Where neither an organization nor its parent is a root organization, having a team code and
      being classified as a unit are the same thing. */
  lemma TeamCodeMeansUnit(c: Organization)
    requires Truthy(c.parentId) && !IsRootId(c.parentId.value) && !IsRootId(c.id)
    ensures Truthy(c.teamCode) <==> Classify(c) == Unit
  {
  }

  method TakeChildrenByTeamCode(children: seq<Organization>, queue: seq<OrgId>, units: seq<OrgId>)
    returns (queue': seq<OrgId>, units': seq<OrgId>)
    requires forall c :: c in children ==> (Truthy(c.teamCode) <==> Classify(c) == Unit)
    ensures queue' == queue + Split(children, false)
    ensures units' == units + Split(children, true)
  {
    queue', units' := queue, units;
    var i := 0;
    while i < |children|
      invariant 0 <= i <= |children|
      invariant queue' + Split(children[i..], false) == queue + Split(children, false)
      invariant units' + Split(children[i..], true) == units + Split(children, true)
    {
      assert children[i..][1..] == children[i + 1..];
      if Truthy(children[i].teamCode) {
        units' := units' + [children[i].id];
      } else {
        queue' := queue' + [children[i].id];
      }
      i := i + 1;
    }
  }

  method DescendantUnitsByTeamCode(ownerId: OrgId, rows: seq<Organization>) returns (unitIds: seq<OrgId>)
    requires PlainIds(rows) && NoCycleThrough(rows, ownerId) && MeetsNoRoot(rows, ownerId)
    requires Lookup(rows, ownerId).Some? && Classify(Lookup(rows, ownerId).value) in {Company, Group}
    ensures multiset(unitIds) == multiset(UnitsBelow(rows, ownerId))
  {
    assert ReachedIn(rows, ownerId, ownerId, 0);
    ghost var universe := set o | o in rows :: o.id;
    ghost var done: set<OrgId> := {};
    unitIds := [];
    var queue := [ownerId];
    while |queue| > 0
      invariant Progress(rows, ownerId, done, queue, unitIds)
      invariant forall id :: id in queue ==> !IsRootId(id)
      invariant done <= universe
      decreases universe - done
    {
      var parentId := queue[0];
      ghost var before, unitsBefore := queue, unitIds;
      queue := queue[1..];
      assert before == [parentId] + queue;
      assert parentId in before && Lookup(rows, parentId).value in rows;
      var children := Children(rows, parentId);
      forall c | c in children ensures !IsRootId(c.id) && (Truthy(c.teamCode) <==> Classify(c) == Unit) {
        ChildrenAreParented(rows, parentId, c);
        ReachedStep(rows, ownerId, parentId, c.id);
        TeamCodeMeansUnit(c);
      }
      queue, unitIds := TakeChildrenByTeamCode(children, queue, unitIds);
      TakeNode(rows, ownerId, done, before, unitsBefore, parentId, before[1..]);
      done := done + {parentId};
    }
    assert queue == [];
    FinishPending(rows, ownerId, done, unitIds);
  }
}
