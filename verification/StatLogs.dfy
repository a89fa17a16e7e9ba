// The control logs of a day as the queries select them: the organization a log is attributed to.
module StatLogs {
  import opened Wrappers
  import opened Organizations
  import opened StatCounts
  import opened StatTables

  /** A log of the day with its own organization and that of its device, both nullable. */
  datatype StoredLog = StoredLog(log: Log, organizationId: Option<OrgId>, deviceOrganizationId: Option<OrgId>)

  /** The log's organization or, where it has none, that of its device. */
  function AttributedTo(l: StoredLog): Option<OrgId> {
    if l.organizationId.Some? then l.organizationId else l.deviceOrganizationId
  }

  /** The condition of the queries: a log is selected for exactly the sets that hold the one
      organization it is attributed to. */
  predicate Selected(l: StoredLog, ids: set<OrgId>): (selected: bool)
    ensures selected <==> AttributedTo(l).Some? && AttributedTo(l).value in ids
  {
    || (l.organizationId.Some? && l.organizationId.value in ids)
    || (l.organizationId.None? && l.deviceOrganizationId.Some? && l.deviceOrganizationId.value in ids)
  }

  /** A log with an organization of its own belongs there wherever its device is. */
  lemma SelectedMeans(l: StoredLog, ids: set<OrgId>, own: OrgId, device: Option<OrgId>)
    ensures Selected(l.(organizationId := Some(own)), ids) <==> own in ids
    ensures Selected(l.(organizationId := None, deviceOrganizationId := device), ids)
      <==> exists id :: device == Some(id) && id in ids
  {
  }

  function LogsOf(table: seq<StoredLog>, ids: set<OrgId>): seq<Log> {
    if table == [] then []
    else
      var rest := LogsOf(table[1..], ids);
      if Selected(table[0], ids) then [table[0].log] + rest else rest
  }

  function AllOf(table: seq<StoredLog>): seq<Log> {
    if table == [] then [] else [table[0].log] + AllOf(table[1..])
  }

  /** The query returns the logs of the organizations, in any order. */
  ghost predicate Queried(table: seq<StoredLog>, ids: set<OrgId>, logs: seq<Log>) {
    multiset(logs) == multiset(LogsOf(table, ids))
  }

  // ----- one query for all organizations and one for each -----

  function AllLogs(work: seq<OrgDay>): seq<Log> {
    if work == [] then [] else AllLogs(work[..|work| - 1]) + work[|work| - 1].logs
  }

  function OrganizationsOf(work: seq<OrgDay>): set<OrgId> {
    set w | w in work :: w.organizationId
  }

  lemma {:induction false} LogsOfUnion(table: seq<StoredLog>, ids: set<OrgId>, id: OrgId)
    requires id !in ids
    ensures multiset(LogsOf(table, ids + {id})) == multiset(LogsOf(table, ids)) + multiset(LogsOf(table, {id}))
  {
    if table != [] { LogsOfUnion(table[1..], ids, id); }
  }

  lemma {:induction false} LogsOfNothing(table: seq<StoredLog>)
    ensures LogsOf(table, {}) == []
  {
    if table != [] { LogsOfNothing(table[1..]); }
  }

  /** Asked for each organization once or for all of them together, the queries return the same
      logs: each log is attributed to one organization. */
  lemma {:induction false} SameLogsTogether(table: seq<StoredLog>, work: seq<OrgDay>)
    requires OneEach(work) && forall w :: w in work ==> Queried(table, {w.organizationId}, w.logs)
    ensures Queried(table, OrganizationsOf(work), AllLogs(work))
  {
    if work == [] {
      assert OrganizationsOf(work) == {};
      LogsOfNothing(table);
    } else {
      var n := |work| - 1;
      assert work == work[..n] + [work[n]] && work[n] in work;
      assert OrganizationsOf(work) == OrganizationsOf(work[..n]) + {work[n].organizationId};
      SameLogsTogether(table, work[..n]);
      NotBefore(work);
      LogsOfUnion(table, OrganizationsOf(work[..n]), work[n].organizationId);
    }
  }

  lemma NotBefore(work: seq<OrgDay>)
    requires OneEach(work) && work != []
    ensures work[|work| - 1].organizationId !in OrganizationsOf(work[..|work| - 1])
  {
    forall w | w in work[..|work| - 1] ensures w.organizationId != work[|work| - 1].organizationId {
      var i :| 0 <= i < |work| - 1 && work[i] == w;
    }
  }

  // ----- what a query misses -----

  /** Of the logs of a key, a query returns those that a counter counts exactly if all of these
      are attributed to one of its organizations. */
  lemma {:induction false} SelectedAllIff<K(!new)>(table: seq<StoredLog>, ids: set<OrgId>, c: Counter,
          keyOf: Log -> K, k: K)
    ensures Count(c, With(LogsOf(table, ids), keyOf, k)) <= Count(c, With(AllOf(table), keyOf, k))
    ensures Count(c, With(LogsOf(table, ids), keyOf, k)) == Count(c, With(AllOf(table), keyOf, k))
      <==> forall l :: l in table && keyOf(l.log) == k && Counted(c, l.log) ==> Selected(l, ids)
  {
    if table != [] {
      SelectedAllIff(table[1..], ids, c, keyOf, k);
      assert table == [table[0]] + table[1..];
      CountWithFirst(c, table[0].log, AllOf(table[1..]), keyOf, k);
      CountWithFirst(c, table[0].log, LogsOf(table[1..], ids), keyOf, k);
    }
  }

  lemma CountWithFirst<K(!new)>(c: Counter, log: Log, logs: seq<Log>, keyOf: Log -> K, k: K)
    ensures Count(c, With([log] + logs, keyOf, k))
         == Count(c, With(logs, keyOf, k)) + if keyOf(log) == k && Counted(c, log) then 1 else 0
  {
    assert ([log] + logs)[1..] == logs;
  }

  lemma {:induction false} FilterMultiset<T(!new)>(s: seq<T>, p: T -> bool, x: T)
    ensures multiset(Filter(s, p))[x] == if p(x) then multiset(s)[x] else 0
  {
    if s != [] {
      FilterMultiset(s[1..], p, x);
      assert s == [s[0]] + s[1..];
    }
  }

  lemma WithOfPermutation<K(!new)>(a: seq<Log>, b: seq<Log>, keyOf: Log -> K, k: K)
    requires multiset(a) == multiset(b)
    ensures multiset(With(a, keyOf, k)) == multiset(With(b, keyOf, k))
  {
    forall x ensures multiset(With(a, keyOf, k))[x] == multiset(With(b, keyOf, k))[x] {
      FilterMultiset(a, l => keyOf(l) == k, x);
      FilterMultiset(b, l => keyOf(l) == k, x);
    }
  }
}
