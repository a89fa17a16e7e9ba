// The table of translations: stores guarded by the version of the source text.
module TranslationStore {
  import opened Wrappers
  import opened TranslationFields
  import opened TranslationBatch

  /** `entity` stands for the pair of entity type and entity id. */
  datatype RowKey = RowKey(entity: string, fieldKey: string, language: Language)

  datatype Row = Row(content: string, sourceUpdatedAt: int)

  type Rows = map<RowKey, Row>

  /** The guard of one store: a time of zero reads as no time at all. */
  predicate Newer(existing: Option<int>, t: int) {
    existing.Some? && existing.value != 0 && existing.value > t
  }

  function VersionOf(rows: Rows, k: RowKey): Option<int> {
    if k in rows then Some(rows[k].sourceUpdatedAt) else None
  }

  /** Storing one entry in one step. */
  function Store(rows: Rows, k: RowKey, content: string, t: int): Rows {
    if Newer(VersionOf(rows, k), t) then rows else rows[k := Row(content, t)]
  }

  // ----- any interleaving of stores and deletions -----

  datatype Event = Stored(key: RowKey, content: string, sourceUpdatedAt: int) | Deleted(keys: set<RowKey>)

  function Apply(rows: Rows, e: Event): Rows {
    match e
    case Stored(k, content, t) => Store(rows, k, content, t)
    case Deleted(ks) => rows - ks
  }

  function After(events: seq<Event>): Rows {
    if events == [] then map[] else Apply(After(events[..|events| - 1]), events[|events| - 1])
  }

  /** What was stored under a key since it was last deleted, in order. */
  function StoredSince(events: seq<Event>, k: RowKey): seq<Row> {
    if events == [] then []
    else
      var before := StoredSince(events[..|events| - 1], k);
      match events[|events| - 1]
      case Stored(k', content, t) => if k' == k then before + [Row(content, t)] else before
      case Deleted(ks) => if k in ks then [] else before
  }

  /** `r` is at place `i`, nothing is newer, and everything after it is older. */
  ghost predicate NewestAt(s: seq<Row>, i: nat, r: Row) {
    && i < |s| && s[i] == r
    && forall j :: 0 <= j < |s|
         ==> s[j].sourceUpdatedAt <= r.sourceUpdatedAt && (j > i ==> s[j].sourceUpdatedAt < r.sourceUpdatedAt)
  }

  ghost predicate Newest(s: seq<Row>, r: Row) {
    exists i: nat :: NewestAt(s, i, r)
  }

  ghost predicate NonNegative(events: seq<Event>) {
    forall e :: e in events && e.Stored? ==> e.sourceUpdatedAt >= 0
  }

  lemma OneMoreStore(s: seq<Row>, r: Row, last: Row)
    requires Newest(s, r)
    ensures Newest(s + [last], if r.sourceUpdatedAt > last.sourceUpdatedAt then r else last)
  {
    var i: nat :| NewestAt(s, i, r);
    if r.sourceUpdatedAt > last.sourceUpdatedAt {
      assert NewestAt(s + [last], i, r);
    } else {
      assert NewestAt(s + [last], |s|, last);
    }
  }

  /** After any events in any order, a key has a row exactly if it was stored since its last
      deletion, and the row is the newest of those stores, the latest of them on a tie. */
  lemma {:induction false} HoldsTheNewest(events: seq<Event>, k: RowKey)
    requires NonNegative(events)
    ensures k in After(events) <==> StoredSince(events, k) != []
    ensures k in After(events) ==> Newest(StoredSince(events, k), After(events)[k])
  {
    if events != [] {
      var n := |events| - 1;
      var before, e := events[..n], events[n];
      assert e in events;
      HoldsTheNewest(before, k);
      if e.Stored? && e.key == k {
        var s, last := StoredSince(before, k), Row(e.content, e.sourceUpdatedAt);
        if k in After(before) {
          OneMoreStore(s, After(before)[k], last);
        } else {
          assert NewestAt(s + [last], 0, last);
        }
      }
    }
  }

  /** Two histories with the same stores in different orders agree, provided stores of the same
      version carry the same content. */
  lemma OrderDoesNotMatter(one: seq<Event>, other: seq<Event>, k: RowKey)
    requires NonNegative(one) && NonNegative(other)
    requires multiset(StoredSince(one, k)) == multiset(StoredSince(other, k))
    requires forall a, b ::
      a in StoredSince(one, k) && b in StoredSince(one, k) && a.sourceUpdatedAt == b.sourceUpdatedAt ==> a == b
    ensures (k in After(one) <==> k in After(other)) && (k in After(one) ==> After(one)[k] == After(other)[k])
  {
    var s, t := StoredSince(one, k), StoredSince(other, k);
    HoldsTheNewest(one, k);
    HoldsTheNewest(other, k);
    assert forall r :: r in s <==> r in multiset(s);
    assert forall r :: r in t <==> r in multiset(t);
    assert |s| == |multiset(s)| && |t| == |multiset(t)|;
    if k in After(one) {
      var a, b := After(one)[k], After(other)[k];
      var i: nat :| NewestAt(s, i, a);
      var j: nat :| NewestAt(t, j, b);
      assert a in t && b in s;
    }
  }

  /** Between deletions a version goes down exactly when a row of time zero is overwritten by a
      store of negative time. */
  lemma VersionGoesBackIff(events: seq<Event>, e: Event, k: RowKey)
    requires k in After(events) && !(e.Deleted? && k in e.keys)
    ensures k in After(events + [e])
    ensures After(events + [e])[k].sourceUpdatedAt < After(events)[k].sourceUpdatedAt
       <==> e.Stored? && e.key == k && After(events)[k].sourceUpdatedAt == 0 && e.sourceUpdatedAt < 0
  {
    assert (events + [e])[..|events|] == events;
  }

  // ----- the service -----

  /** Each entry of one call stored in one step. */
  function StoreAll(rows: Rows, entity: string, language: Language, entries: seq<Field>, t: int): Rows {
    if entries == [] then rows
    else
      var e := entries[|entries| - 1];
      Store(StoreAll(rows, entity, language, entries[..|entries| - 1], t),
          RowKey(entity, e.fieldKey, language), e.content, t)
  }

  /** A call touches the keys of its entries only. */
  lemma {:induction false} StoreAllFrame(rows: Rows, entity: string, language: Language, entries: seq<Field>, t: int,
          k: RowKey)
    requires forall e :: e in entries ==> RowKey(entity, e.fieldKey, language) != k
    ensures VersionOf(StoreAll(rows, entity, language, entries, t), k) == VersionOf(rows, k)
    ensures k in rows ==> StoreAll(rows, entity, language, entries, t)[k] == rows[k]
  {
    if entries != [] {
      var n := |entries| - 1;
      assert entries[n] in entries;
      StoreAllFrame(rows, entity, language, entries[..n], t, k);
    }
  }

  /** Every entry ends up stored, or a newer row was there. */
  lemma {:induction false} StoreAllHas(rows: Rows, entity: string, language: Language, entries: seq<Field>, t: int,
          e: Field)
    requires NormalForm(entries) && e in entries
    ensures var k := RowKey(entity, e.fieldKey, language);
            var r := StoreAll(rows, entity, language, entries, t);
            k in r && r[k] == if Newer(VersionOf(rows, k), t) then rows[k] else Row(e.content, t)
  {
    var n := |entries| - 1;
    var k := RowKey(entity, e.fieldKey, language);
    if e == entries[n] {
      StoreAllFrame(rows, entity, language, entries[..n], t, k);
    } else {
      StoreAllHas(rows, entity, language, entries[..n], t, e);
      assert entries[n] in entries;
      var i :| 0 <= i < n && entries[i] == e;
    }
  }

  class ContentTranslations {
    var rows: Rows

    constructor ()
      ensures rows == After([])
    {
      rows := map[];
    }

    /** storeEntityTranslations: the versions are read once for the whole call, then each entry
        is written or skipped. `values` are the entries of the record in order. */
    method StoreEntityTranslations(entity: string, language: Language, values: seq<Field>, sourceUpdatedAt: int)
      modifies this
      ensures rows == StoreAll(old(rows), entity, language, Normalized(values), sourceUpdatedAt)
    {
      var entries := NormalizeFields(values);
      NormalizedIsNormalForm(values);
      if entries == [] {
        return;
      }
      var existing := map key | key in Keys(entries)
          && RowKey(entity, key, language) in rows :: rows[RowKey(entity, key, language)].sourceUpdatedAt;
      WriteEntries(entity, language, entries, existing, sourceUpdatedAt);
    }

    method WriteEntries(entity: string, language: Language, entries: seq<Field>, existing: map<string, int>, t: int)
      requires NormalForm(entries)
      requires forall e ::
        e in entries ==> VersionRead(existing, e.fieldKey) == VersionOf(rows, RowKey(entity, e.fieldKey, language))
      modifies this
      ensures rows == StoreAll(old(rows), entity, language, entries, t)
    {
      for i := 0 to |entries|
        invariant rows == StoreAll(old(rows), entity, language, entries[..i], t)
      {
        var entry := entries[i];
        assert entry in entries;
        NextEntry(old(rows), entity, language, entries, i, t);
        if Newer(VersionRead(existing, entry.fieldKey), t) {
          continue;
        }
        rows := rows[RowKey(entity, entry.fieldKey, language) := Row(entry.content, t)];
      }
      assert entries[..|entries|] == entries;
    }
  }

  function VersionRead(existing: map<string, int>, fieldKey: string): Option<int> {
    if fieldKey in existing then Some(existing[fieldKey]) else None
  }

  /** No entry of a call touches the row of another, so reading all versions first is harmless. */
  lemma NextEntry(rows: Rows, entity: string, language: Language, entries: seq<Field>, i: nat, t: int)
    requires NormalForm(entries) && i < |entries|
    ensures var k := RowKey(entity, entries[i].fieldKey, language);
            var so := StoreAll(rows, entity, language, entries[..i], t);
            StoreAll(rows, entity, language, entries[..i + 1], t) == if Newer(VersionOf(rows, k), t) then so
                else so[k := Row(entries[i].content, t)]
  {
    StoreAllFrame(rows, entity, language, entries[..i], t, RowKey(entity, entries[i].fieldKey, language));
    assert entries[..i + 1][..i] == entries[..i];
  }

  // ----- the gap between reading and writing -----

  type CallId = nat

  /** What a call read of a key. */
  datatype Reading = Reading(call: CallId, key: RowKey)

  /** A call reads the version of a key and later writes its entry; deletions come in between. */
  datatype Access =
    | Reads(call: CallId, key: RowKey)
    | Writes(call: CallId, key: RowKey, content: string, sourceUpdatedAt: int)
    | Deletes(keys: set<RowKey>)

  datatype Shared = Shared(rows: Rows, seen: map<Reading, Option<int>>)

  /** The write of one entry, decided by a version read earlier. */
  function WriteAfterRead(rows: Rows, read: Option<int>, k: RowKey, content: string, t: int): Rows {
    if Newer(read, t) then rows else rows[k := Row(content, t)]
  }

  /** A write without a reading does not happen. */
  function Accessed(s: Shared, a: Access): Shared {
    match a
    case Reads(c, k) => s.(seen := s.seen[Reading(c, k) := VersionOf(s.rows, k)])
    case Writes(c, k, content, t) =>
      if Reading(c, k) in s.seen then s.(rows := WriteAfterRead(s.rows, s.seen[Reading(c, k)], k, content, t)) else s
    case Deletes(ks) => s.(rows := s.rows - ks)
  }

  function AfterAll(accesses: seq<Access>): Shared {
    if accesses == [] then Shared(map[], map[])
    else Accessed(AfterAll(accesses[..|accesses| - 1]), accesses[|accesses| - 1])
  }

  /** A row of the key is newer than a version. */
  predicate HoldsNewer(rows: Rows, k: RowKey, t: int) {
    k in rows && rows[k].sourceUpdatedAt > t
  }

  /** The `i`-th access is the call's last reading of the key. */
  ghost predicate LastReading(accesses: seq<Access>, i: nat, call: CallId, k: RowKey) {
    i < |accesses| && accesses[i] == Reads(call, k) && forall j :: i < j < |accesses| ==> accesses[j] != Reads(call, k)
  }

  /** The `j`-th access stored the row. */
  ghost predicate StoredAt(accesses: seq<Access>, j: nat, k: RowKey, r: Row) {
    && j < |accesses| && accesses[j].Writes? && accesses[j].key == k
    && r == Row(accesses[j].content, accesses[j].sourceUpdatedAt)
    && k in AfterAll(accesses[..j + 1]).rows && AfterAll(accesses[..j + 1]).rows[k] == r
  }

  lemma {:induction false} ReadingStays(accesses: seq<Access>, i: nat, call: CallId, k: RowKey)
    requires LastReading(accesses, i, call, k)
    ensures Reading(call, k) in AfterAll(accesses).seen
    ensures AfterAll(accesses).seen[Reading(call, k)] == VersionOf(AfterAll(accesses[..i]).rows, k)
  {
    var n := |accesses| - 1;
    if i < n {
      assert accesses[..n][..i] == accesses[..i];
      assert LastReading(accesses[..n], i, call, k);
      ReadingStays(accesses[..n], i, call, k);
    }
  }

  /** A newer row that was not there after `i` accesses was stored by one of the later ones. */
  lemma {:induction false} NewerWasStored(accesses: seq<Access>, i: nat, k: RowKey, t: int) returns (j: nat)
    requires i <= |accesses| && HoldsNewer(AfterAll(accesses).rows, k, t)
    requires !HoldsNewer(AfterAll(accesses[..i]).rows, k, t)
    ensures i <= j && StoredAt(accesses, j, k, AfterAll(accesses).rows[k])
  {
    assert accesses[..|accesses|] == accesses;
    var n := |accesses| - 1;
    var before := AfterAll(accesses[..n]).rows;
    if k in before && before[k] == AfterAll(accesses).rows[k] {
      assert accesses[..n][..i] == accesses[..i];
      j := NewerWasStored(accesses[..n], i, k, t);
      assert accesses[..n][..j + 1] == accesses[..j + 1] && accesses[..n][j] == accesses[j];
    } else {
      j := n;
      assert accesses[..j + 1] == accesses;
    }
  }

  /** In any interleaving of readings, writes and deletions, a write of version t replaces a newer
      row exactly if no row newer than t was there when its call read the key, that is if every
      row newer than t was stored after that reading, as the replaced one then was. */
  lemma GapLosesUpdateIff(accesses: seq<Access>, i: nat, call: CallId, k: RowKey, content: string, t: int)
    requires LastReading(accesses, i, call, k) && t >= 0
    requires HoldsNewer(AfterAll(accesses).rows, k, t)
    ensures var now, lost := AfterAll(accesses).rows, AfterAll(accesses + [Writes(call, k, content, t)]).rows;
            && k in lost
            && (lost[k] == Row(content, t) <==> !HoldsNewer(AfterAll(accesses[..i]).rows, k, t))
            && (lost[k] != Row(content, t) ==> lost == now)
            && (lost[k] == Row(content, t) ==> exists j: nat :: i < j && StoredAt(accesses, j, k, now[k]))
  {
    var write := Writes(call, k, content, t);
    assert (accesses + [write])[..|accesses|] == accesses;
    ReadingStays(accesses, i, call, k);
    if !HoldsNewer(AfterAll(accesses[..i]).rows, k, t) {
      var j := NewerWasStored(accesses, i, k, t);
      assert i < j;
    }
  }

  /** A first store of version 1 reads, a store of version 2 runs, and the first one writes: the
      table ends with version 1, which no order of whole stores leaves. */
  lemma InterleavedStoresLoseTheNewest(k: RowKey)
    ensures var read := VersionOf(After([]), k);
            var between := After([Stored(k, "new", 2)]);
            var end := WriteAfterRead(between, read, k, "old", 1);
            && end[k] == Row("old", 1)
            && After([Stored(k, "new", 2), Stored(k, "old", 1)])[k] == Row("new", 2)
            && After([Stored(k, "old", 1), Stored(k, "new", 2)])[k] == Row("new", 2)
  {
    assert [Stored(k, "new", 2), Stored(k, "old", 1)][..1] == [Stored(k, "new", 2)];
    assert [Stored(k, "old", 1), Stored(k, "new", 2)][..1] == [Stored(k, "old", 1)];
    assert [Stored(k, "new", 2)][..0] == [];
    assert [Stored(k, "old", 1)][..0] == [];
  }
}
