// The frontier loops that close a set of organizations upwards and downwards, on every table.
module Closures {
  import opened Wrappers
  import opened Organizations

  /** The k-th parent as the downward query sees it: it compares parentId without asking
      whether it is blank. */
  ghost function RawUp(rows: seq<Organization>, id: OrgId, k: nat): Option<OrgId>
    decreases k
  {
    if k == 0 then Some(id)
    else
      var org :- Lookup(rows, id);
      var parent :- org.parentId;
      RawUp(rows, parent, k - 1)
  }

  /** `b` is `a` or lies below it, as the downward loop counts. */
  ghost predicate IsDescendantOrSelf(rows: seq<Organization>, a: OrgId, b: OrgId) {
    exists k: nat :: RawUp(rows, b, k) == Some(a)
  }

  // ----- upward: resolveReadableOrganizationIds -----

  ghost function UpUniverse(rows: seq<Organization>, scope: seq<OrgId>): set<OrgId> {
    ToSet(scope) + set o | o in rows && o.parentId.Some? :: o.parentId.value
  }

  ghost predicate AboveScope(rows: seq<Organization>, scope: seq<OrgId>, id: OrgId) {
    exists s :: s in scope && IsAncestorOrSelf(rows, id, s)
  }

  ghost predicate UpProgress(rows: seq<Organization>, scope: seq<OrgId>, visited: set<OrgId>, frontier: set<OrgId>) {
    && ToSet(scope) <= visited <= UpUniverse(rows, scope)
    && frontier <= visited
    && (forall id :: id in visited ==> AboveScope(rows, scope, id))
    && (forall id :: id in visited && id !in frontier && ParentOf(rows, id).Some?
         ==> ParentOf(rows, id).value in visited)
  }

  lemma AboveParent(rows: seq<Organization>, scope: seq<OrgId>, id: OrgId)
    requires AboveScope(rows, scope, id) && ParentOf(rows, id).Some?
    ensures AboveScope(rows, scope, ParentOf(rows, id).value)
  {
    var s :| s in scope && IsAncestorOrSelf(rows, id, s);
    var k: nat :| Up(rows, s, k) == Some(id);
    UpCompose(rows, s, k, 1);
    assert Up(rows, id, 1) == ParentOf(rows, id) by {
      assert Up(rows, ParentOf(rows, id).value, 0) == ParentOf(rows, id);
    }
    assert Up(rows, s, k + 1) == ParentOf(rows, id);
  }

  lemma {:induction false} UpStaysInside(rows: seq<Organization>, visited: set<OrgId>, id: OrgId, k: nat)
    requires id in visited && Up(rows, id, k).Some?
    requires forall x :: x in visited && ParentOf(rows, x).Some? ==> ParentOf(rows, x).value in visited
    ensures Up(rows, id, k).value in visited
    decreases k
  {
    if k != 0 { UpStaysInside(rows, visited, ParentOf(rows, id).value, k - 1); }
  }

  /** No scope means every organization is readable; otherwise the result is exactly the
      reflexive-transitive closure of the scope under "parent of". */
  method ResolveReadableOrganizationIds(rows: seq<Organization>, scope: Option<seq<OrgId>>)
    returns (r: Option<set<OrgId>>)
    requires UniqueIds(rows)
    ensures r.None? <==> scope.None?
    ensures r.Some? ==> forall id :: id in r.value <==> AboveScope(rows, scope.value, id)
  {
    if scope.None? {
      return None;
    }
    var visited := ToSet(scope.value);
    var frontier := ToSet(scope.value);
    forall s | s in scope.value ensures AboveScope(rows, scope.value, s) {
      assert Up(rows, s, 0) == Some(s);
    }
    while frontier != {}
      invariant UpProgress(rows, scope.value, visited, frontier)
      decreases UpUniverse(rows, scope.value) - visited, frontier
    {
      ghost var before, oldFrontier := visited, frontier;
      visited, frontier := ParentRound(rows, visited, frontier);
      UpRound(rows, scope.value, before, oldFrontier, frontier);
    }
    forall id | AboveScope(rows, scope.value, id) ensures id in visited {
      var s :| s in scope.value && IsAncestorOrSelf(rows, id, s);
      var k: nat :| Up(rows, s, k) == Some(id);
      UpStaysInside(rows, visited, s, k);
    }
    r := Some(visited);
  }

  /** The body of the upward loop: one query for the frontier, then the parents not yet seen. */
  method ParentRound(rows: seq<Organization>, visited: set<OrgId>, frontier: set<OrgId>)
    returns (visited': set<OrgId>, next: set<OrgId>)
    ensures visited' == visited + next && visited !! next
    ensures forall id ::
      id in next ==> exists o :: o in rows && o.id in frontier && o.parentId == Some(id) && Truthy(o.parentId)
    ensures forall o :: o in rows && o.id in frontier && Truthy(o.parentId) ==> o.parentId.value in visited'
  {
    var found := Filter(rows, (o: Organization) => o.id in frontier);
    visited', next := visited, {};
    var i := 0;
    while i < |found|
      invariant 0 <= i <= |found|
      invariant visited' == visited + next && visited !! next
      invariant forall id :: id in next ==> exists o :: o in found && o.parentId == Some(id) && Truthy(o.parentId)
      invariant forall j :: 0 <= j < i && Truthy(found[j].parentId) ==> found[j].parentId.value in visited'
    {
      var parentId := found[i].parentId;
      if Truthy(parentId) && parentId.value !in visited' {
        assert found[i] in found;
        visited' := visited' + {parentId.value};
        next := next + {parentId.value};
      }
      i := i + 1;
    }
  }

  /** One round of the upward loop keeps what the loop knows. */
  lemma UpRound(rows: seq<Organization>, scope: seq<OrgId>, visited: set<OrgId>, frontier: set<OrgId>, next: set<OrgId>)
    requires UniqueIds(rows) && UpProgress(rows, scope, visited, frontier)
    requires forall id ::
      id in next ==> exists o :: o in rows && o.id in frontier && o.parentId == Some(id) && Truthy(o.parentId)
    requires forall o :: o in rows && o.id in frontier && Truthy(o.parentId) ==> o.parentId.value in visited + next
    requires visited !! next
    ensures UpProgress(rows, scope, visited + next, next)
    ensures next != {} ==> UpUniverse(rows, scope) - (visited + next) < UpUniverse(rows, scope) - visited
    ensures next == {} ==> visited + next == visited
  {
    forall id | id in next ensures id in UpUniverse(rows, scope) && AboveScope(rows, scope, id) {
      var o :| o in rows && o.id in frontier && o.parentId == Some(id) && Truthy(o.parentId);
      AboveParent(rows, scope, o.id);
    }
    forall id | id in frontier && ParentOf(rows, id).Some? ensures ParentOf(rows, id).value in visited + next {
      assert Lookup(rows, id).value in rows;
    }
    if next != {} {
      var x :| x in next;
      assert x in UpUniverse(rows, scope) - visited && x !in UpUniverse(rows, scope) - (visited + next);
    }
  }

  // ----- downward: collectDescendantOrganizationIds -----

  ghost function DownUniverse(rows: seq<Organization>, root: OrgId): set<OrgId> {
    {root} + set o | o in rows :: o.id
  }

  ghost predicate DownProgress(rows: seq<Organization>, root: OrgId, visited: set<OrgId>, frontier: set<OrgId>) {
    && root in visited && visited <= DownUniverse(rows, root)
    && frontier <= visited
    && (forall id :: id in visited ==> IsDescendantOrSelf(rows, root, id))
    && (forall o :: o in rows && o.parentId.Some? && o.parentId.value in visited && o.parentId.value !in frontier
         ==> o.id in visited)
  }

  lemma {:induction false} DownStaysInside(rows: seq<Organization>, root: OrgId, visited: set<OrgId>, id: OrgId, k: nat)
    requires DownProgress(rows, root, visited, {})
    requires RawUp(rows, id, k) == Some(root)
    ensures id in visited
    decreases k
  {
    if k != 0 {
      var o := Lookup(rows, id).value;
      DownStaysInside(rows, root, visited, o.parentId.value, k - 1);
      assert o in rows;
    }
  }

  lemma ChildIsDescendant(rows: seq<Organization>, root: OrgId, o: Organization)
    requires UniqueIds(rows) && o in rows && o.parentId.Some? && IsDescendantOrSelf(rows, root, o.parentId.value)
    ensures IsDescendantOrSelf(rows, root, o.id)
  {
    var k: nat :| RawUp(rows, o.parentId.value, k) == Some(root);
    assert RawUp(rows, o.id, k + 1) == Some(root);
  }

  method CollectDescendantOrganizationIds(rows: seq<Organization>, root: OrgId) returns (visited: set<OrgId>)
    requires UniqueIds(rows)
    ensures forall id :: id in visited <==> IsDescendantOrSelf(rows, root, id)
  {
    visited := {root};
    var frontier := {root};
    assert RawUp(rows, root, 0) == Some(root);
    while frontier != {}
      invariant DownProgress(rows, root, visited, frontier)
      decreases DownUniverse(rows, root) - visited, frontier
    {
      ghost var before, oldFrontier := visited, frontier;
      visited, frontier := ChildRound(rows, visited, frontier);
      DownRound(rows, root, before, oldFrontier, frontier);
    }
    forall id | IsDescendantOrSelf(rows, root, id) ensures id in visited {
      var k: nat :| RawUp(rows, id, k) == Some(root);
      DownStaysInside(rows, root, visited, id, k);
    }
  }

  method ChildRound(rows: seq<Organization>, visited: set<OrgId>, frontier: set<OrgId>)
    returns (visited': set<OrgId>, next: set<OrgId>)
    ensures visited' == visited + next && visited !! next
    ensures forall id ::
      id in next ==> exists o :: o in rows && o.id == id && o.parentId.Some? && o.parentId.value in frontier
    ensures forall o :: o in rows && o.parentId.Some? && o.parentId.value in frontier ==> o.id in visited'
  {
    var children := Filter(rows, (o: Organization) => o.parentId.Some? && o.parentId.value in frontier);
    visited', next := visited, {};
    var i := 0;
    while i < |children|
      invariant 0 <= i <= |children|
      invariant visited' == visited + next && visited !! next
      invariant forall id :: id in next ==> exists c :: c in children && c.id == id
      invariant forall j :: 0 <= j < i ==> children[j].id in visited'
    {
      if children[i].id !in visited' {
        assert children[i] in children;
        visited' := visited' + {children[i].id};
        next := next + {children[i].id};
      }
      i := i + 1;
    }
  }

  lemma DownRound(rows: seq<Organization>, root: OrgId, visited: set<OrgId>, frontier: set<OrgId>, next: set<OrgId>)
    requires UniqueIds(rows) && DownProgress(rows, root, visited, frontier)
    requires forall id ::
      id in next ==> exists o :: o in rows && o.id == id && o.parentId.Some? && o.parentId.value in frontier
    requires forall o :: o in rows && o.parentId.Some? && o.parentId.value in frontier ==> o.id in visited + next
    requires visited !! next
    ensures DownProgress(rows, root, visited + next, next)
    ensures next != {} ==> DownUniverse(rows, root) - (visited + next) < DownUniverse(rows, root) - visited
    ensures next == {} ==> visited + next == visited
  {
    forall id | id in next ensures IsDescendantOrSelf(rows, root, id) && id in DownUniverse(rows, root) {
      var o :| o in rows && o.id == id && o.parentId.Some? && o.parentId.value in frontier;
      ChildIsDescendant(rows, root, o);
    }
    if next != {} {
      var x :| x in next;
      assert x in DownUniverse(rows, root) - visited && x !in DownUniverse(rows, root) - (visited + next);
    }
  }

  // ----- duality -----

  /** No row but one with a blank id names a blank parent. */
  predicate NoBlankParent(rows: seq<Organization>) {
    forall o :: o in rows && o.parentId == Some("") ==> o.id == ""
  }

  lemma {:induction false} UpIsRaw(rows: seq<Organization>, id: OrgId, k: nat)
    ensures Up(rows, id, k).Some? ==> RawUp(rows, id, k) == Up(rows, id, k)
    decreases k
  {
    if k != 0 && ParentOf(rows, id).Some? { UpIsRaw(rows, ParentOf(rows, id).value, k - 1); }
  }

  lemma {:induction false} RawIsUp(rows: seq<Organization>, a: OrgId, id: OrgId, k: nat)
    requires NoBlankParent(rows) && RawUp(rows, id, k) == Some(a)
    ensures IsAncestorOrSelf(rows, a, id)
    decreases k
  {
    if k == 0 {
      assert Up(rows, id, 0) == Some(a);
    } else {
      var o := Lookup(rows, id).value;
      var p := o.parentId.value;
      assert o in rows;
      RawIsUp(rows, a, p, k - 1);
      if p != "" {
        var j: nat :| Up(rows, p, j) == Some(a);
        assert Up(rows, id, j + 1) == Some(a);
      }
    }
  }

  /** "b is collected below a" and "a is readable from b" are the same relation exactly on
      the tables where no other row names a blank parent. */
  lemma ClosureDuality(rows: seq<Organization>)
    requires UniqueIds(rows)
    ensures (forall a, b :: IsDescendantOrSelf(rows, a, b) <==> AboveScope(rows, [b], a)) <==> NoBlankParent(rows)
  {
    forall a, b ensures AboveScope(rows, [b], a) <==> IsAncestorOrSelf(rows, a, b) {
      if IsAncestorOrSelf(rows, a, b) { assert b in [b]; }
    }
    if NoBlankParent(rows) {
      forall a, b ensures IsDescendantOrSelf(rows, a, b) <==> IsAncestorOrSelf(rows, a, b) {
        if k: nat :| RawUp(rows, b, k) == Some(a) { RawIsUp(rows, a, b, k); }
        if k: nat :| Up(rows, b, k) == Some(a) { UpIsRaw(rows, b, k); }
      }
    } else {
      var o :| o in rows && o.parentId == Some("") && o.id != "";
      assert RawUp(rows, o.id, 1) == Some("") by { assert RawUp(rows, "", 0) == Some(""); }
      assert IsDescendantOrSelf(rows, "", o.id);
      forall k: nat ensures Up(rows, o.id, k) != Some("") {}
      assert !IsAncestorOrSelf(rows, "", o.id);
    }
  }
}
