// A control log without a position takes the nearest point of its device's location history.
module LocationFallback {
  import opened Wrappers

  const LOCATION_FALLBACK_MAX_AGE_MS: int := 10 * 60 * 1000
  const LOCATION_FALLBACK_QUERY_CHUNK_SIZE: nat := 100

  /** A log with its DTO. A missing id or device id is the empty string; `timestamp` is None
      when it does not parse. */
  datatype LogItem = LogItem(id: string, deviceId: string, timestamp: Option<int>, hasLatitude: bool,
      hasLongitude: bool)

  datatype Window = Window(logId: string, deviceId: string, timestamp: int, start: int, end: int)

  datatype Interval = Interval(start: int, end: int)

  datatype Span = Span(deviceId: string, range: Interval)

  /** A row of either location table; the position itself is encrypted. */
  datatype LocationRow = LocationRow(deviceId: string, timestamp: int, cipher: string)

  datatype Point = Point(latitude: Option<real>, longitude: Option<real>)

  // ----- windows -----

  predicate NeedsFallback(item: LogItem) {
    item.id != "" && item.deviceId != "" && !(item.hasLatitude && item.hasLongitude)
  }

  function WindowOf(item: LogItem, timestamp: int): Window {
    Window(item.id, item.deviceId, timestamp, timestamp - LOCATION_FALLBACK_MAX_AGE_MS,
        timestamp + LOCATION_FALLBACK_MAX_AGE_MS)
  }

  function BuildLocationFallbackWindows(items: seq<LogItem>): (r: seq<Window>)
    ensures forall w :: w in r ==> w.start <= w.timestamp <= w.end && w.deviceId != ""
    ensures forall w :: w in r ==> w.end - w.timestamp == w.timestamp - w.start == LOCATION_FALLBACK_MAX_AGE_MS
  {
    if items == [] then []
    else
      var rest := BuildLocationFallbackWindows(items[1..]);
      if NeedsFallback(items[0]) && items[0].timestamp.Some? then [WindowOf(items[0], items[0].timestamp.value)] + rest
          else rest
  }

  /** The log has an id, a device and a time and lacks a coordinate. */
  ghost predicate Asks(item: LogItem, id: string, deviceId: string, timestamp: int) {
    && item.id == id && id != "" && item.deviceId == deviceId && deviceId != ""
    && item.timestamp == Some(timestamp) && (!item.hasLatitude || !item.hasLongitude)
  }

  /** Exactly the logs that ask for a position get a window, of ten minutes to each side. */
  lemma {:induction false} WindowIff(items: seq<LogItem>, w: Window)
    ensures w in BuildLocationFallbackWindows(items)
      <==> && w.start == w.timestamp - 600000 && w.end == w.timestamp + 600000
           && exists item :: item in items && Asks(item, w.logId, w.deviceId, w.timestamp)
  {
    if items != [] {
      WindowIff(items[1..], w);
      assert items == [items[0]] + items[1..];
      assert (exists item :: item in items && Asks(item, w.logId, w.deviceId, w.timestamp))
        <==> Asks(items[0], w.logId, w.deviceId, w.timestamp)
             || exists item :: item in items[1..] && Asks(item, w.logId, w.deviceId, w.timestamp);
    }
  }

  lemma {:induction false} WindowsAppend(items: seq<LogItem>, item: LogItem)
    ensures BuildLocationFallbackWindows(items + [item])
         == BuildLocationFallbackWindows(items) + BuildLocationFallbackWindows([item])
  {
    if items == [] {
      assert items + [item] == [item];
    } else {
      assert (items + [item])[1..] == items[1..] + [item];
      WindowsAppend(items[1..], item);
    }
  }

  /** One log's window. */
  lemma WindowOfOne(item: LogItem)
    ensures |BuildLocationFallbackWindows([item])| <= 1
    ensures (exists id, d, t :: Asks(item, id, d, t)) <==> BuildLocationFallbackWindows([item]) != []
    ensures forall id, d, t :: Asks(item, id, d, t)
              ==> BuildLocationFallbackWindows([item]) == [Window(id, d, t, t - 600000, t + 600000)]
  {
    assert [item][1..] == [];
    if NeedsFallback(item) && item.timestamp.Some? { assert Asks(item, item.id, item.deviceId, item.timestamp.value); }
  }

  // ----- merging -----

  /** The intervals of one device, in order. */
  function IntervalsOf(spans: seq<Span>, deviceId: string): seq<Interval> {
    if spans == [] then []
    else
      var rest := IntervalsOf(spans[1..], deviceId);
      if spans[0].deviceId == deviceId then [spans[0].range] + rest else rest
  }

  lemma {:induction false} IntervalsConcat(a: seq<Span>, b: seq<Span>, deviceId: string)
    ensures IntervalsOf(a + b, deviceId) == IntervalsOf(a, deviceId) + IntervalsOf(b, deviceId)
  {
    if a == [] { assert a + b == b; }
    else {
      assert (a + b)[1..] == a[1..] + b;
      IntervalsConcat(a[1..], b, deviceId);
    }
  }

  function Devices(spans: seq<Span>): (r: seq<string>)
    ensures forall d :: d in r <==> exists s :: s in spans && s.deviceId == d
  {
    if spans == [] then [] else [spans[0].deviceId] + Devices(spans[1..])
  }

  predicate SortedByStart(s: seq<Interval>) {
    |s| <= 1 || (s[0].start <= s[1].start && SortedByStart(s[1..]))
  }

  /** Array.prototype.sort by start: a stable sort. */
  function SortByStart(s: seq<Interval>): (r: seq<Interval>)
    ensures SortedByStart(r) && multiset(r) == multiset(s)
  {
    if s == [] then []
    else
      assert s == [s[0]] + s[1..];
      InsertByStart(s[0], SortByStart(s[1..]))
  }

  function InsertByStart(x: Interval, s: seq<Interval>): (r: seq<Interval>)
    requires SortedByStart(s)
    ensures SortedByStart(r) && multiset(r) == multiset{x} + multiset(s)
    ensures r != [] && (r[0] == x || (s != [] && r[0] == s[0]))
  {
    if s == [] || x.start <= s[0].start then
      assert ([x] + s)[1..] == s;
      [x] + s
    else
      assert s == [s[0]] + s[1..];
      var rest := InsertByStart(x, s[1..]);
      assert ([s[0]] + rest)[1..] == rest;
      [s[0]] + rest
  }

  /** One window against the last merged interval: extend it when they touch, else append. */
  function MergeOne(merged: seq<Interval>, w: Interval): seq<Interval> {
    if merged != [] && w.start <= merged[|merged| - 1].end then
      if w.end > merged[|merged| - 1].end then merged[|merged| - 1 := merged[|merged| - 1].(end := w.end)] else merged
    else merged + [w]
  }

  function MergeAll(merged: seq<Interval>, windows: seq<Interval>): seq<Interval>
    decreases |windows|
  {
    if windows == [] then merged else MergeAll(MergeOne(merged, windows[0]), windows[1..])
  }

  ghost predicate Within(t: int, s: seq<Interval>) {
    exists i :: i in s && i.start <= t <= i.end
  }

  /** Sorted with a gap between neighbours. */
  ghost predicate Disjoint(s: seq<Interval>) {
    && (forall i :: 0 <= i < |s| ==> s[i].start <= s[i].end)
    && (forall i, j :: 0 <= i < j < |s| ==> s[i].end < s[j].start)
  }

  lemma WithinAppend(t: int, s: seq<Interval>, x: Interval)
    ensures Within(t, s + [x]) <==> Within(t, s) || x.start <= t <= x.end
  {
    if i :| i in s && i.start <= t <= i.end { assert i in s + [x]; }
    assert x in s + [x];
  }

  lemma DisjointAppend(s: seq<Interval>, x: Interval)
    requires Disjoint(s) && x.start <= x.end
    requires s != [] ==> s[|s| - 1].end < x.start
    ensures Disjoint(s + [x])
  {
  }

  /** Replacing the last interval by `x` that starts where it did and covers it and `w`. */
  lemma ExtendLast(front: seq<Interval>, last: Interval, x: Interval, w: Interval)
    requires Disjoint(front + [last]) && x.start == last.start <= w.start <= last.end
    requires x.end == if w.end > last.end then w.end else last.end
    ensures Disjoint(front + [x])
    ensures forall t :: Within(t, front + [x]) <==> Within(t, front + [last]) || w.start <= t <= w.end
  {
    var s := front + [last];
    assert s[|front|] == last && forall i :: 0 <= i < |front| ==> s[i] == front[i];
    DisjointAppend(front, x);
    forall t ensures Within(t, front + [x]) <==> Within(t, front + [last]) || w.start <= t <= w.end {
      WithinAppend(t, front, last);
      WithinAppend(t, front, x);
    }
  }

  lemma MergeOneKeeps(merged: seq<Interval>, w: Interval)
    requires Disjoint(merged) && w.start <= w.end
    requires merged != [] ==> merged[|merged| - 1].start <= w.start
    ensures Disjoint(MergeOne(merged, w)) && MergeOne(merged, w) != []
    ensures MergeOne(merged, w)[|MergeOne(merged, w)| - 1].start <= w.start
    ensures forall t :: Within(t, MergeOne(merged, w)) <==> Within(t, merged) || w.start <= t <= w.end
  {
    if merged != [] && w.start <= merged[|merged| - 1].end {
      var last := merged[|merged| - 1];
      var front := merged[..|merged| - 1];
      var x := if w.end > last.end then last.(end := w.end) else last;
      assert merged == front + [last];
      assert MergeOne(merged, w) == front + [x];
      ExtendLast(front, last, x, w);
    } else {
      DisjointAppend(merged, w);
      forall t ensures Within(t, merged + [w]) <==> Within(t, merged) || w.start <= t <= w.end {
        WithinAppend(t, merged, w);
      }
    }
  }

  /** Merging the sorted windows of a device gives sorted, disjoint intervals that cover
      exactly the same instants. */
  lemma {:induction false} MergeAllCovers(merged: seq<Interval>, windows: seq<Interval>)
    requires Disjoint(merged) && SortedByStart(windows)
    requires forall w :: w in windows ==> w.start <= w.end
    requires merged != [] && windows != [] ==> merged[|merged| - 1].start <= windows[0].start
    ensures Disjoint(MergeAll(merged, windows))
    ensures forall t :: Within(t, MergeAll(merged, windows)) <==> Within(t, merged) || Within(t, windows)
    decreases |windows|
  {
    if windows != [] {
      MergeOneKeeps(merged, windows[0]);
      MergeAllCovers(MergeOne(merged, windows[0]), windows[1..]);
      assert windows == [windows[0]] + windows[1..];
    }
  }

  function Tag(deviceId: string, s: seq<Interval>): (r: seq<Span>)
    ensures |r| == |s| && forall i :: 0 <= i < |r| ==> r[i] == Span(deviceId, s[i])
  {
    seq(|s|, i requires 0 <= i < |s| => Span(deviceId, s[i]))
  }

  lemma {:induction false} IntervalsOfTag(deviceId: string, s: seq<Interval>, d: string)
    ensures IntervalsOf(Tag(deviceId, s), d) == if d == deviceId then s else []
  {
    if s != [] {
      assert Tag(deviceId, s)[1..] == Tag(deviceId, s[1..]);
      IntervalsOfTag(deviceId, s[1..], d);
    }
  }

  /** What merging leaves for one device, whatever the other devices' windows are. */
  function MergedOf(windows: seq<Span>, deviceId: string): seq<Interval> {
    MergeAll([], SortByStart(IntervalsOf(windows, deviceId)))
  }

  function GroupAt(grouped: map<string, seq<Interval>>, d: string): seq<Interval> {
    if d in grouped then grouped[d] else []
  }

  /** The grouping map with its keys in insertion order. */
  method GroupByDevice(windows: seq<Span>) returns (order: seq<string>, grouped: map<string, seq<Interval>>)
    ensures Distinct(order) && ToSet(order) == grouped.Keys
    ensures forall d :: GroupAt(grouped, d) == IntervalsOf(windows, d)
  {
    order, grouped := [], map[];
    var i := 0;
    assert windows[..0] == [];
    while i < |windows|
      invariant 0 <= i <= |windows|
      invariant Distinct(order) && ToSet(order) == grouped.Keys
      invariant forall d :: GroupAt(grouped, d) == IntervalsOf(windows[..i], d)
    {
      var w := windows[i];
      assert windows[..i + 1] == windows[..i] + [w];
      var group := GroupAt(grouped, w.deviceId);
      if w.deviceId !in grouped {
        order := order + [w.deviceId];
      }
      GroupStep(grouped, windows[..i], w);
      grouped := grouped[w.deviceId := group + [w.range]];
      i := i + 1;
    }
    assert windows[..i] == windows;
  }

  lemma GroupStep(grouped: map<string, seq<Interval>>, seen: seq<Span>, w: Span)
    requires forall d :: GroupAt(grouped, d) == IntervalsOf(seen, d)
    ensures forall d ::
      GroupAt(grouped[w.deviceId := GroupAt(grouped, w.deviceId) + [w.range]], d) == IntervalsOf(seen + [w], d)
  {
    forall d ensures GroupAt(grouped[w.deviceId := GroupAt(grouped, w.deviceId) + [w.range]], d)
        == IntervalsOf(seen + [w], d) {
      IntervalsConcat(seen, [w], d);
      assert IntervalsOf([w][1..], d) == [];
    }
  }

  /** The inner loop: `merged` is shared by all devices, so the last entry is only extended
      when it belongs to this device. */
  method MergeDevice(merged: seq<Span>, deviceId: string, sorted: seq<Interval>) returns (merged': seq<Span>)
    requires forall s :: s in merged ==> s.deviceId != deviceId
    ensures merged' == merged + Tag(deviceId, MergeAll([], sorted))
  {
    merged' := merged;
    ghost var mine: seq<Interval> := [];
    assert sorted[0..] == sorted;
    var i := 0;
    while i < |sorted|
      invariant 0 <= i <= |sorted|
      invariant merged' == merged + Tag(deviceId, mine)
      invariant MergeAll(mine, sorted[i..]) == MergeAll([], sorted)
    {
      var window := sorted[i];
      assert sorted[i..][0] == window && sorted[i..][1..] == sorted[i + 1..];
      ghost var next := MergeOne(mine, window);
      var n := |merged'|;
      if n > 0 && merged'[n - 1].deviceId == deviceId && window.start <= merged'[n - 1].range.end {
        if mine == [] {
          assert false;
        }
        if window.end > merged'[n - 1].range.end {
          merged' := merged'[n - 1 := merged'[n - 1].(range := merged'[n - 1].range.(end := window.end))];
        }
      } else {
        merged' := merged' + [Span(deviceId, window)];
      }
      assert merged' == merged + Tag(deviceId, next);
      mine := next;
      i := i + 1;
    }
    assert sorted[i..] == [];
  }

  method MergeLocationFallbackWindows(windows: seq<Span>) returns (merged: seq<Span>)
    ensures forall d :: IntervalsOf(merged, d) == MergedOf(windows, d)
  {
    var order, grouped := GroupByDevice(windows);
    merged := [];
    var i := 0;
    while i < |order|
      invariant 0 <= i <= |order|
      invariant MergedUpTo(windows, merged, order[..i])
    {
      var deviceId := order[i];
      NextIsNew(order, i);
      GroupIs(windows, order, grouped, deviceId);
      merged := MergeGroup(windows, merged, order[..i], deviceId, grouped[deviceId]);
      assert order[..i + 1] == order[..i] + [deviceId];
      i := i + 1;
    }
    assert order[..i] == order;
    AllMerged(windows, merged, order, grouped);
  }

  /** The body of the outer loop: sort one device's windows and merge them in. */
  method MergeGroup(ghost windows: seq<Span>, merged: seq<Span>, ghost done: seq<string>, deviceId: string,
          group: seq<Interval>)
    returns (merged': seq<Span>)
    requires MergedUpTo(windows, merged, done) && deviceId !in done
    requires group == IntervalsOf(windows, deviceId)
    ensures MergedUpTo(windows, merged', done + [deviceId])
  {
    MergedStep(windows, merged, done, deviceId);
    merged' := MergeDevice(merged, deviceId, SortByStart(group));
  }

  lemma GroupIs(windows: seq<Span>, order: seq<string>, grouped: map<string, seq<Interval>>, d: string)
    requires ToSet(order) == grouped.Keys && d in order
    requires forall x :: GroupAt(grouped, x) == IntervalsOf(windows, x)
    ensures d in grouped && grouped[d] == IntervalsOf(windows, d)
  {
    assert d in ToSet(order);
    assert GroupAt(grouped, d) == IntervalsOf(windows, d);
  }

  lemma AllMerged(windows: seq<Span>, merged: seq<Span>, order: seq<string>, grouped: map<string, seq<Interval>>)
    requires ToSet(order) == grouped.Keys
    requires forall x :: GroupAt(grouped, x) == IntervalsOf(windows, x)
    requires MergedUpTo(windows, merged, order)
    ensures forall d :: IntervalsOf(merged, d) == MergedOf(windows, d)
  {
    forall d | d !in order ensures MergedOf(windows, d) == [] {
      assert d !in ToSet(order);
      assert GroupAt(grouped, d) == [];
    }
  }

  lemma NextIsNew(order: seq<string>, i: nat)
    requires Distinct(order) && i < |order|
    ensures order[i] !in order[..i]
  {
    assert order == order[..i] + order[i..];
    DistinctSplit(order[..i], order[i..]);
    assert order[i] in order[i..];
  }

  ghost predicate MergedUpTo(windows: seq<Span>, merged: seq<Span>, devices: seq<string>) {
    && (forall d :: IntervalsOf(merged, d) == if d in devices then MergedOf(windows, d) else [])
    && (forall s :: s in merged ==> s.deviceId in devices)
  }

  lemma MergedStep(windows: seq<Span>, merged: seq<Span>, devices: seq<string>, deviceId: string)
    requires MergedUpTo(windows, merged, devices) && deviceId !in devices
    ensures MergedUpTo(windows, merged + Tag(deviceId, MergedOf(windows, deviceId)), devices + [deviceId])
  {
    var mine := MergedOf(windows, deviceId);
    forall d ensures IntervalsOf(merged + Tag(deviceId, mine), d) == if d in devices + [deviceId]
        then MergedOf(windows, d) else [] {
      TagAdds(merged, deviceId, mine, d);
    }
  }

  lemma TagAdds(merged: seq<Span>, deviceId: string, mine: seq<Interval>, d: string)
    ensures IntervalsOf(merged + Tag(deviceId, mine), d) == if d == deviceId then IntervalsOf(merged, d) + mine
      else IntervalsOf(merged, d)
  {
    IntervalsConcat(merged, Tag(deviceId, mine), d);
    IntervalsOfTag(deviceId, mine, d);
  }

  /** For every device: sorted, disjoint, and the same instants as its windows. */
  lemma MergedWindowsCover(windows: seq<Span>, deviceId: string)
    requires forall w :: w in windows ==> w.range.start <= w.range.end
    ensures Disjoint(MergedOf(windows, deviceId))
    ensures forall t :: Within(t, MergedOf(windows, deviceId)) <==> Within(t, IntervalsOf(windows, deviceId))
  {
    IntervalsOrdered(windows, deviceId);
    var s := IntervalsOf(windows, deviceId);
    var sorted := SortByStart(s);
    forall x ensures x in sorted <==> x in s {
      assert x in sorted <==> x in multiset(sorted);
      assert x in s <==> x in multiset(s);
    }
    MergeAllCovers([], sorted);
  }

  lemma {:induction false} IntervalsOrdered(windows: seq<Span>, deviceId: string)
    requires forall w :: w in windows ==> w.range.start <= w.range.end
    ensures forall r :: r in IntervalsOf(windows, deviceId) ==> r.start <= r.end
  {
    if windows != [] {
      assert windows[0] in windows;
      IntervalsOrdered(windows[1..], deviceId);
    }
  }

  // ----- fetching -----

  /** The history table in the order the query asks for. */
  ghost predicate InTimeOrder(history: seq<LocationRow>) {
    forall i, j :: 0 <= i < j < |history| && history[i].deviceId == history[j].deviceId
        ==> history[i].timestamp <= history[j].timestamp
  }

  predicate MatchesSome(row: LocationRow, windows: seq<Span>) {
    exists w :: w in windows && w.deviceId == row.deviceId && w.range.start <= row.timestamp <= w.range.end
  }

  /** One query: the rows that match any window of the chunk, in table order. */
  function QueryChunk(history: seq<LocationRow>, chunk: seq<Span>): seq<LocationRow> {
    if history == [] then []
    else
      var rest := QueryChunk(history[1..], chunk);
      if MatchesSome(history[0], chunk) then [history[0]] + rest else rest
  }

  function RowsOf(rows: seq<LocationRow>, deviceId: string): (r: seq<LocationRow>)
    ensures forall x :: x in r <==> x in rows && x.deviceId == deviceId
  {
    if rows == [] then []
    else
      var rest := RowsOf(rows[1..], deviceId);
      if rows[0].deviceId == deviceId then [rows[0]] + rest else rest
  }

  lemma {:induction false} RowsOfConcat(a: seq<LocationRow>, b: seq<LocationRow>, d: string)
    ensures RowsOf(a + b, d) == RowsOf(a, d) + RowsOf(b, d)
  {
    if a == [] { assert a + b == b; }
    else {
      assert (a + b)[1..] == a[1..] + b;
      RowsOfConcat(a[1..], b, d);
    }
  }

  /** The part of a device's history inside `ranges`, each row once. */
  ghost function Covered(history: seq<LocationRow>, deviceId: string, ranges: seq<Interval>): (r: seq<LocationRow>)
    ensures forall x :: x in r <==> x in history && x.deviceId == deviceId && Within(x.timestamp, ranges)
  {
    if history == [] then []
    else
      var rest := Covered(history[1..], deviceId, ranges);
      if history[0].deviceId == deviceId && Within(history[0].timestamp, ranges) then [history[0]] + rest else rest
  }

  lemma {:induction false} MatchesIsWithin(row: LocationRow, windows: seq<Span>)
    ensures MatchesSome(row, windows) <==> Within(row.timestamp, IntervalsOf(windows, row.deviceId))
  {
    if windows != [] {
      MatchesIsWithin(row, windows[1..]);
      assert windows == [windows[0]] + windows[1..];
      var tail := IntervalsOf(windows[1..], row.deviceId);
      assert MatchesSome(row, windows) <==>
        MatchesSome(row, windows[1..])
            || (windows[0].deviceId == row.deviceId && windows[0].range.start <= row.timestamp <= windows[0].range.end);
      assert Within(row.timestamp, [windows[0].range] + tail)
          <==> Within(row.timestamp, tail) || windows[0].range.start <= row.timestamp <= windows[0].range.end;
      assert [] + tail == tail;
    }
  }

  lemma {:induction false} QueryIsCovered(history: seq<LocationRow>, chunk: seq<Span>, d: string)
    ensures RowsOf(QueryChunk(history, chunk), d) == Covered(history, d, IntervalsOf(chunk, d))
  {
    if history != [] {
      QueryIsCovered(history[1..], chunk, d);
      MatchesIsWithin(history[0], chunk);
      var tail := QueryChunk(history[1..], chunk);
      RowsOfConcat(if MatchesSome(history[0], chunk) then [history[0]] else [], tail, d);
    }
  }

  /** Cutting the sorted disjoint ranges in two cuts the covered history in two. */
  lemma {:induction false} CoveredSplits(history: seq<LocationRow>, d: string, a: seq<Interval>, b: seq<Interval>)
    requires InTimeOrder(history) && Disjoint(a + b)
    ensures Covered(history, d, a) + Covered(history, d, b) == Covered(history, d, a + b)
  {
    if history != [] {
      var row, rest := history[0], history[1..];
      CoveredSplits(rest, d, a, b);
      if row.deviceId == d && Within(row.timestamp, b) {
        NothingLeftOf(history, d, a, b);
        RangesApart(a, b, row.timestamp, row.timestamp);
        assert Covered(history, d, a) == [];
        assert Covered(rest, d, b) == Covered(rest, d, a + b);
      } else if row.deviceId == d && Within(row.timestamp, a) {
        assert [row] + Covered(rest, d, a) + Covered(rest, d, b) == [row] + (Covered(rest, d, a) + Covered(rest, d, b));
      }
    }
  }

  lemma NothingLeftOf(history: seq<LocationRow>, d: string, a: seq<Interval>, b: seq<Interval>)
    requires InTimeOrder(history) && Disjoint(a + b) && history != []
    requires history[0].deviceId == d && Within(history[0].timestamp, b)
    ensures Covered(history[1..], d, a) == []
  {
    var c := Covered(history[1..], d, a);
    if c != [] {
      var x := c[0];
      assert x in c;
      var k :| 0 <= k < |history[1..]| && history[1..][k] == x;
      assert history[0].timestamp <= history[k + 1].timestamp;
      RangesApart(a, b, history[0].timestamp, x.timestamp);
      assert false;
    }
  }

  lemma RangesApart(a: seq<Interval>, b: seq<Interval>, t: int, u: int)
    requires Disjoint(a + b) && Within(t, b) && t <= u
    ensures !Within(u, a)
  {
    var j :| 0 <= j < |b| && b[j].start <= t <= b[j].end;
    forall i | 0 <= i < |a| ensures a[i].end < t {
      assert (a + b)[i] == a[i] && (a + b)[|a| + j] == b[j];
    }
  }

  function Chunk(windows: seq<Span>): seq<Span> {
    if |windows| <= LOCATION_FALLBACK_QUERY_CHUNK_SIZE then windows else windows[..LOCATION_FALLBACK_QUERY_CHUNK_SIZE]
  }

  /** All chunk results, flattened. */
  function Fetched(history: seq<LocationRow>, windows: seq<Span>): seq<LocationRow> {
    if windows == [] then []
    else QueryChunk(history, Chunk(windows)) + Fetched(history, windows[|Chunk(windows)|..])
  }

  method FindDeviceLocationsForFallback(history: seq<LocationRow>, windows: seq<Span>)
    returns (results: seq<LocationRow>)
    ensures results == Fetched(history, windows)
  {
    results := [];
    var index := 0;
    ghost var at := 0;
    assert windows[0..] == windows;
    while index < |windows|
      invariant at == if index < |windows| then index else |windows|
      invariant results + Fetched(history, windows[at..]) == Fetched(history, windows)
    {
      var end := if index + LOCATION_FALLBACK_QUERY_CHUNK_SIZE < |windows|
          then index + LOCATION_FALLBACK_QUERY_CHUNK_SIZE else |windows|;
      var chunk := windows[index..end];
      FetchNext(history, windows, index, end, results);
      results := results + QueryChunk(history, chunk);
      index, at := index + LOCATION_FALLBACK_QUERY_CHUNK_SIZE, end;
    }
  }

  lemma FetchNext(history: seq<LocationRow>, windows: seq<Span>, index: nat, end: nat, results: seq<LocationRow>)
    requires index < |windows|
    requires end == if index + LOCATION_FALLBACK_QUERY_CHUNK_SIZE < |windows|
      then index + LOCATION_FALLBACK_QUERY_CHUNK_SIZE else |windows|
    ensures results + Fetched(history, windows[index..])
      == results + QueryChunk(history, windows[index..end]) + Fetched(history, windows[end..])
  {
    assert windows[index..end] == Chunk(windows[index..]);
    assert windows[index..][|windows[index..end]|..] == windows[end..];
  }

  /** However the chunks cut a device's windows, the rows fetched for it are its history
      inside them: in time order, nothing missing and no row twice. */
  lemma {:induction false} FetchedIsCovered(history: seq<LocationRow>, windows: seq<Span>, d: string)
    requires InTimeOrder(history) && Disjoint(IntervalsOf(windows, d))
    ensures RowsOf(Fetched(history, windows), d) == Covered(history, d, IntervalsOf(windows, d))
    decreases |windows|
  {
    if windows == [] {
      NothingCovered(history, d);
    } else {
      var chunk, rest := Chunk(windows), windows[|Chunk(windows)|..];
      assert windows == chunk + rest;
      IntervalsConcat(chunk, rest, d);
      var a, b := IntervalsOf(chunk, d), IntervalsOf(rest, d);
      DisjointSuffix(a, b);
      FetchedIsCovered(history, rest, d);
      QueryIsCovered(history, chunk, d);
      CoveredSplits(history, d, a, b);
      RowsOfConcat(QueryChunk(history, chunk), Fetched(history, rest), d);
    }
  }

  lemma DisjointSuffix(a: seq<Interval>, b: seq<Interval>)
    requires Disjoint(a + b)
    ensures Disjoint(b)
  {
    assert forall i :: 0 <= i < |b| ==> (a + b)[|a| + i] == b[i];
    forall i, j | 0 <= i < j < |b| ensures b[i].end < b[j].start {
      assert (a + b)[|a| + i].end < (a + b)[|a| + j].start;
    }
  }

  lemma {:induction false} NothingCovered(history: seq<LocationRow>, d: string)
    ensures Covered(history, d, []) == []
  {
    if history != [] { NothingCovered(history[1..], d); }
  }

  /** No history row is fetched more often than the table holds it. */
  lemma {:induction false} CoveredOnce(history: seq<LocationRow>, d: string, ranges: seq<Interval>)
    ensures multiset(Covered(history, d, ranges)) <= multiset(history)
  {
    if history != [] {
      CoveredOnce(history[1..], d, ranges);
      assert history == [history[0]] + history[1..];
    }
  }

  // ----- nearest point -----

  function Distance(row: LocationRow, t: int): nat {
    if row.timestamp >= t then row.timestamp - t else t - row.timestamp
  }

  /** The scan keeps the first row that is strictly nearer than all before it. */
  function Scan(rows: seq<LocationRow>, t: int, best: Option<LocationRow>): Option<LocationRow>
    decreases |rows|
  {
    if rows == [] then best
    else Scan(rows[1..], t, if best.None? || Distance(rows[0], t) < Distance(best.value, t) then Some(rows[0])
        else best)
  }

  function CutOff(best: Option<LocationRow>, t: int): Option<LocationRow> {
    if best.Some? && Distance(best.value, t) <= LOCATION_FALLBACK_MAX_AGE_MS then best else None
  }

  method FindNearestLocation(locations: seq<LocationRow>, timestamp: int) returns (r: Option<LocationRow>)
    ensures r == CutOff(Scan(locations, timestamp, None), timestamp)
  {
    var nearest: Option<LocationRow> := None;
    var i := 0;
    assert locations[i..] == locations;
    while i < |locations|
      invariant 0 <= i <= |locations|
      invariant Scan(locations[i..], timestamp, nearest) == Scan(locations, timestamp, None)
    {
      assert locations[i..][1..] == locations[i + 1..];
      if nearest.None? || Distance(locations[i], timestamp) < Distance(nearest.value, timestamp) {
        nearest := Some(locations[i]);
      }
      i := i + 1;
    }
    r := if nearest.Some? && Distance(nearest.value, timestamp) <= LOCATION_FALLBACK_MAX_AGE_MS then nearest else None;
  }

  /** Nothing is nearer than row `k` and everything before it is farther. */
  ghost predicate FirstNearest(rows: seq<LocationRow>, t: int, k: nat) {
    && k < |rows|
    && (forall j :: 0 <= j < |rows| ==> Distance(rows[k], t) <= Distance(rows[j], t))
    && (forall j :: 0 <= j < k ==> Distance(rows[k], t) < Distance(rows[j], t))
  }

  lemma {:induction false} ScanKeeps(rows: seq<LocationRow>, t: int, i: nat, b: nat) returns (k: nat)
    requires i <= |rows| && FirstNearest(rows[..i], t, b)
    ensures FirstNearest(rows, t, k) && Scan(rows[i..], t, Some(rows[b])) == Some(rows[k])
    decreases |rows| - i
  {
    if i < |rows| {
      assert rows[i..][1..] == rows[i + 1..];
      k := ScanKeeps(rows, t, i + 1, if Distance(rows[i], t) < Distance(rows[b], t) then i else b);
    } else {
      assert rows[i..] == [] && rows[..i] == rows;
      k := b;
    }
  }

  /** The scan returns the nearest row within ten minutes, the first one on a tie, and
      nothing exactly when every row is farther away. */
  lemma ScanIsNearest(rows: seq<LocationRow>, t: int)
    ensures var r := CutOff(Scan(rows, t, None), t);
      && (r.Some? ==> Distance(r.value, t) <= LOCATION_FALLBACK_MAX_AGE_MS && exists k: nat ::
           FirstNearest(rows, t, k) && r.value == rows[k])
      && (r.None? <==> forall j :: 0 <= j < |rows| ==> Distance(rows[j], t) > LOCATION_FALLBACK_MAX_AGE_MS)
  {
    if rows != [] {
      var k := ScanKeeps(rows, t, 1, 0);
    }
  }

  /** The rows close enough to matter. */
  ghost function Near(rows: seq<LocationRow>, t: int): seq<LocationRow> {
    if rows == [] then []
    else
      var rest := Near(rows[1..], t);
      if Distance(rows[0], t) <= LOCATION_FALLBACK_MAX_AGE_MS then [rows[0]] + rest else rest
  }

  lemma {:induction false} NearConcat(a: seq<LocationRow>, b: seq<LocationRow>, t: int)
    ensures Near(a + b, t) == Near(a, t) + Near(b, t)
  {
    if a == [] { assert a + b == b; }
    else {
      assert (a + b)[1..] == a[1..] + b;
      NearConcat(a[1..], b, t);
    }
  }

  lemma {:induction false} OnlyNearMatters(rows: seq<LocationRow>, t: int, best: Option<LocationRow>)
    ensures CutOff(Scan(rows, t, best), t) == CutOff(Scan(Near(rows, t), t, CutOff(best, t)), t)
    decreases |rows|
  {
    if rows != [] {
      var next := if best.None? || Distance(rows[0], t) < Distance(best.value, t) then Some(rows[0]) else best;
      OnlyNearMatters(rows[1..], t, next);
      var tail := Near(rows[1..], t);
      if Distance(rows[0], t) <= LOCATION_FALLBACK_MAX_AGE_MS {
        assert ([rows[0]] + tail)[1..] == tail;
      } else {
        assert [] + tail == tail;
      }
    }
  }

  lemma {:induction false} NearSurvives(history: seq<LocationRow>, d: string, ranges: seq<Interval>, t: int)
    requires forall u :: t - LOCATION_FALLBACK_MAX_AGE_MS <= u <= t + LOCATION_FALLBACK_MAX_AGE_MS ==> Within(u, ranges)
    ensures Near(Covered(history, d, ranges), t) == Near(RowsOf(history, d), t)
  {
    if history != [] {
      NearSurvives(history[1..], d, ranges, t);
      var row := history[0];
      NearConcat(if row.deviceId == d && Within(row.timestamp, ranges) then [row] else [],
          Covered(history[1..], d, ranges), t);
      NearConcat(if row.deviceId == d then [row] else [], RowsOf(history[1..], d), t);
    }
  }

  // ----- the whole resolution -----

  /** The plain answer: scan the device's whole history, then its current location. */
  function PlainScan(history: seq<LocationRow>, current: seq<LocationRow>, w: Window): Option<LocationRow> {
    CutOff(Scan(RowsOf(history, w.deviceId) + RowsOf(current, w.deviceId), w.timestamp, None), w.timestamp)
  }

  predicate HasPosition(p: Option<Point>) {
    p.Some? && (p.value.latitude.Some? || p.value.longitude.Some?)
  }

  /** The fallback position of every log, found the plain way; a later window of the same
      log id overrides. */
  function PlainFallbacks(windows: seq<Window>, history: seq<LocationRow>, current: seq<LocationRow>,
                          decrypt: LocationRow -> Option<Point>): map<string, Point> {
    if windows == [] then map[]
    else
      var rest := windows[..|windows| - 1];
      var w := windows[|windows| - 1];
      var found := PlainScan(history, current, w);
      var before := PlainFallbacks(rest, history, current, decrypt);
      if found.Some? && HasPosition(decrypt(found.value)) then before[w.logId := decrypt(found.value).value] else before
  }

  lemma PlainNext(windows: seq<Window>, i: nat, history: seq<LocationRow>, current: seq<LocationRow>,
          decrypt: LocationRow -> Option<Point>)
    requires i < |windows|
    ensures var found := PlainScan(history, current, windows[i]);
            var before := PlainFallbacks(windows[..i], history, current, decrypt);
            PlainFallbacks(windows[..i + 1], history, current, decrypt)
            == if found.Some? && HasPosition(decrypt(found.value))
               then before[windows[i].logId := decrypt(found.value).value] else before
  {
    assert windows[..i + 1][..i] == windows[..i];
  }

  function Spans(windows: seq<Window>): (r: seq<Span>)
    ensures |r| == |windows|
    ensures forall i :: 0 <= i < |r| ==> r[i] == Span(windows[i].deviceId, Interval(windows[i].start, windows[i].end))
  {
    seq(|windows|, i requires 0 <= i < |windows| => Span(windows[i].deviceId,
        Interval(windows[i].start, windows[i].end)))
  }

  /** The rows the merged, chunked fetch offers a window give the answer of the plain scan. */
  lemma FastIsPlain(history: seq<LocationRow>, current: seq<LocationRow>, windows: seq<Window>, merged: seq<Span>,
          w: Window)
    requires InTimeOrder(history) && w in windows
    requires forall x :: x in windows ==>
               x.start == x.timestamp - LOCATION_FALLBACK_MAX_AGE_MS
               && x.end == x.timestamp + LOCATION_FALLBACK_MAX_AGE_MS
    requires forall d :: IntervalsOf(merged, d) == MergedOf(Spans(windows), d)
    ensures CutOff(Scan(RowsOf(Fetched(history, merged) + current, w.deviceId), w.timestamp, None), w.timestamp)
      == PlainScan(history, current, w)
  {
    var d, t := w.deviceId, w.timestamp;
    var spans := Spans(windows);
    MergedWindowsCover(spans, d);
    var ranges := IntervalsOf(merged, d);
    forall u | t - LOCATION_FALLBACK_MAX_AGE_MS <= u <= t + LOCATION_FALLBACK_MAX_AGE_MS ensures Within(u, ranges) {
      var k :| 0 <= k < |windows| && windows[k] == w;
      assert spans[k] in spans;
      IntervalsOfMember(spans, spans[k]);
    }
    FetchedIsCovered(history, merged, d);
    RowsOfConcat(Fetched(history, merged), current, d);
    NearSurvives(history, d, ranges, t);
    NearConcat(Covered(history, d, ranges), RowsOf(current, d), t);
    NearConcat(RowsOf(history, d), RowsOf(current, d), t);
    OnlyNearMatters(Covered(history, d, ranges) + RowsOf(current, d), t, None);
    OnlyNearMatters(RowsOf(history, d) + RowsOf(current, d), t, None);
  }

  lemma {:induction false} IntervalsOfMember(spans: seq<Span>, s: Span)
    requires s in spans
    ensures s.range in IntervalsOf(spans, s.deviceId)
  {
    if spans[0] != s { IntervalsOfMember(spans[1..], s); }
  }

  function RowsAt(grouped: map<string, seq<LocationRow>>, d: string): seq<LocationRow> {
    if d in grouped then grouped[d] else []
  }

  /** locationsByDeviceId */
  method GroupRows(rows: seq<LocationRow>) returns (grouped: map<string, seq<LocationRow>>)
    ensures forall d :: RowsAt(grouped, d) == RowsOf(rows, d)
  {
    grouped := map[];
    var i := 0;
    assert rows[..0] == [];
    while i < |rows|
      invariant 0 <= i <= |rows|
      invariant forall d :: RowsAt(grouped, d) == RowsOf(rows[..i], d)
    {
      var row := rows[i];
      assert rows[..i + 1] == rows[..i] + [row];
      GroupRowStep(grouped, rows[..i], row);
      var group := RowsAt(grouped, row.deviceId);
      grouped := grouped[row.deviceId := group + [row]];
      i := i + 1;
    }
    assert rows[..i] == rows;
  }

  lemma GroupRowStep(grouped: map<string, seq<LocationRow>>, seen: seq<LocationRow>, row: LocationRow)
    requires forall d :: RowsAt(grouped, d) == RowsOf(seen, d)
    ensures forall d ::
      RowsAt(grouped[row.deviceId := RowsAt(grouped, row.deviceId) + [row]], d) == RowsOf(seen + [row], d)
  {
    forall d ensures RowsAt(grouped[row.deviceId := RowsAt(grouped, row.deviceId) + [row]], d)
        == RowsOf(seen + [row], d) {
      RowsOfConcat(seen, [row], d);
      assert RowsOf([row][1..], d) == [];
    }
  }

  /** The rows of the current-location table for the given devices; a failed query counts as
      an empty one. */
  method FindDeviceCurrentLocations(windows: seq<Span>, currentTable: Option<seq<LocationRow>>)
    returns (r: seq<LocationRow>)
    ensures currentTable.None? ==> r == []
    ensures currentTable.Some? ==> forall s ::
      s in windows ==> RowsOf(r, s.deviceId) == RowsOf(currentTable.value, s.deviceId)
  {
    if currentTable.None? {
      return [];
    }
    var deviceIds := set s | s in windows :: s.deviceId;
    r := Filter(currentTable.value, (row: LocationRow) => row.deviceId in deviceIds);
    forall s | s in windows ensures RowsOf(r, s.deviceId) == RowsOf(currentTable.value, s.deviceId) {
      FilterKeepsDevice(currentTable.value, (row: LocationRow) => row.deviceId in deviceIds, s.deviceId);
    }
  }

  lemma {:induction false} FilterKeepsDevice(rows: seq<LocationRow>, p: LocationRow -> bool, d: string)
    requires forall row :: row in rows && row.deviceId == d ==> p(row)
    ensures RowsOf(Filter(rows, p), d) == RowsOf(rows, d)
  {
    if rows != [] {
      FilterKeepsDevice(rows[1..], p, d);
      RowsOfConcat(if p(rows[0]) then [rows[0]] else [], Filter(rows[1..], p), d);
    }
  }

  /** The merged windows still name the device of every window. */
  lemma DeviceSurvivesMerge(windows: seq<Window>, merged: seq<Span>, w: Window)
    requires w in windows && forall x :: x in windows ==> x.start <= x.timestamp <= x.end
    requires forall d :: IntervalsOf(merged, d) == MergedOf(Spans(windows), d)
    ensures exists s :: s in merged && s.deviceId == w.deviceId
  {
    var spans := Spans(windows);
    MergedWindowsCover(spans, w.deviceId);
    var k :| 0 <= k < |windows| && windows[k] == w;
    assert spans[k] in spans;
    IntervalsOfMember(spans, spans[k]);
    assert Within(w.timestamp, IntervalsOf(merged, w.deviceId));
    IntervalHasSpan(merged, w.deviceId);
  }

  lemma {:induction false} IntervalHasSpan(spans: seq<Span>, d: string)
    requires IntervalsOf(spans, d) != []
    ensures exists s :: s in spans && s.deviceId == d
  {
    if spans[0].deviceId == d { assert spans[0] in spans; }
    else {
      IntervalHasSpan(spans[1..], d);
      var s :| s in spans[1..] && s.deviceId == d;
      assert s in spans;
    }
  }

  /** The grouped rows answer every window as the plain scan would. */
  ghost predicate Serves(windows: seq<Window>, grouped: map<string, seq<LocationRow>>, history: seq<LocationRow>,
          current: seq<LocationRow>) {
    forall w :: w in windows
        ==> CutOff(Scan(RowsAt(grouped, w.deviceId), w.timestamp, None), w.timestamp) == PlainScan(history, current, w)
  }

  /** Merge the windows, fetch both tables and group the rows by device. */
  method LoadLocations(windows: seq<Window>, history: seq<LocationRow>, currentTable: Option<seq<LocationRow>>)
    returns (locationsByDeviceId: map<string, seq<LocationRow>>)
    requires InTimeOrder(history)
    requires forall x :: x in windows ==>
               x.start == x.timestamp - LOCATION_FALLBACK_MAX_AGE_MS
               && x.end == x.timestamp + LOCATION_FALLBACK_MAX_AGE_MS
    ensures Serves(windows, locationsByDeviceId, history, currentTable.GetOr([]))
  {
    var mergedWindows := MergeLocationFallbackWindows(Spans(windows));
    var locations := FindDeviceLocationsForFallback(history, mergedWindows);
    var currentLocations := FindDeviceCurrentLocations(mergedWindows, currentTable);
    locationsByDeviceId := GroupRows(locations + currentLocations);
    forall w | w in windows
      ensures CutOff(Scan(RowsAt(locationsByDeviceId, w.deviceId), w.timestamp, None), w.timestamp)
           == PlainScan(history, currentTable.GetOr([]), w)
    {
      FastIsPlain(history, currentLocations, windows, mergedWindows, w);
      SameCurrentRows(windows, mergedWindows, w, currentTable, currentLocations);
    }
  }

  // ----- the result, from the logs -----

  /** Row `k` is the first of the device's rows at the distance `g`, at most ten minutes, and none
      of the device's rows is nearer. */
  ghost predicate NearestAt(rows: seq<LocationRow>, deviceId: string, t: int, k: int, g: int) {
    && 0 <= k < |rows| && rows[k].deviceId == deviceId
    && 0 <= g <= 600000 && (rows[k].timestamp == t - g || rows[k].timestamp == t + g)
    && (forall j :: 0 <= j < |rows| && rows[j].deviceId == deviceId ==> !(t - g < rows[j].timestamp < t + g))
    && forall j :: 0 <= j < k && rows[j].deviceId == deviceId
         ==> rows[j].timestamp != t - g && rows[j].timestamp != t + g
  }

  lemma NearestIsOne(rows: seq<LocationRow>, deviceId: string, t: int, k: int, g: int, k': int, g': int)
    requires NearestAt(rows, deviceId, t, k, g) && NearestAt(rows, deviceId, t, k', g')
    ensures k == k'
  {
    assert g == g';
  }

  lemma {:induction false} RowsOfIndex(rows: seq<LocationRow>, d: string, m: nat) returns (k: nat)
    requires m < |RowsOf(rows, d)|
    ensures k < |rows| && rows[k] == RowsOf(rows, d)[m] && rows[k].deviceId == d
    ensures RowsOf(rows[..k], d) == RowsOf(rows, d)[..m]
  {
    if rows[0].deviceId == d && m == 0 {
      k := 0;
    } else {
      var rest := RowsOfIndex(rows[1..], d, if rows[0].deviceId == d then m - 1 else m);
      k := rest + 1;
      assert rows[..k][1..] == rows[1..][..rest];
    }
  }

  /** The first nearest of a device's rows is the first nearest among all rows. */
  lemma FirstNearestIsNearestAt(rows: seq<LocationRow>, d: string, t: int, m: nat) returns (k: nat)
    requires FirstNearest(RowsOf(rows, d), t, m) && Distance(RowsOf(rows, d)[m], t) <= LOCATION_FALLBACK_MAX_AGE_MS
    ensures NearestAt(rows, d, t, k, Distance(RowsOf(rows, d)[m], t)) && rows[k] == RowsOf(rows, d)[m]
  {
    k := RowsOfIndex(rows, d, m);
    var own, g := RowsOf(rows, d), Distance(RowsOf(rows, d)[m], t);
    forall j | 0 <= j < |rows| && rows[j].deviceId == d ensures !(t - g < rows[j].timestamp < t + g) {
      assert rows[j] in own;
      var i :| 0 <= i < |own| && own[i] == rows[j];
    }
    forall j | 0 <= j < k && rows[j].deviceId == d ensures rows[j].timestamp != t - g && rows[j].timestamp != t + g {
      assert rows[j] in rows[..k];
      assert rows[j] in RowsOf(rows[..k], d);
      var i :| 0 <= i < m && own[..m][i] == rows[j];
      assert own[i] == rows[j];
    }
  }

  lemma NearestIsNear(rows: seq<LocationRow>, d: string, t: int, k: int, g: int)
    requires NearestAt(rows, d, t, k, g)
    ensures exists i :: 0 <= i < |RowsOf(rows, d)| && Distance(RowsOf(rows, d)[i], t) <= LOCATION_FALLBACK_MAX_AGE_MS
  {
    assert rows[k] in RowsOf(rows, d);
  }

  /** The plain scan finds the row at the nearest place, and nothing where there is none. */
  lemma PlainScanIsNearest(history: seq<LocationRow>, current: seq<LocationRow>, w: Window)
    ensures PlainScan(history, current, w).None?
      <==> forall k, g :: !NearestAt(history + current, w.deviceId, w.timestamp, k, g)
    ensures forall k, g :: NearestAt(history + current, w.deviceId, w.timestamp, k, g)
              ==> PlainScan(history, current, w) == Some((history + current)[k])
  {
    var rows, d, t := history + current, w.deviceId, w.timestamp;
    RowsOfConcat(history, current, d);
    var own := RowsOf(rows, d);
    ScanIsNearest(own, t);
    var r := PlainScan(history, current, w);
    if r.Some? {
      var m: nat :| FirstNearest(own, t, m) && r.value == own[m];
      var k := FirstNearestIsNearestAt(rows, d, t, m);
      forall k', g' | NearestAt(rows, d, t, k', g') ensures r == Some(rows[k']) {
        NearestIsOne(rows, d, t, k, Distance(own[m], t), k', g');
      }
    } else {
      forall k, g ensures !NearestAt(rows, d, t, k, g) {
        if NearestAt(rows, d, t, k, g) { NearestIsNear(rows, d, t, k, g); }
      }
    }
  }

  /** The `i`-th log asks for a position under the id, and its nearest row has this one. */
  ghost predicate Gives(items: seq<LogItem>, i: int, rows: seq<LocationRow>, decrypt: LocationRow -> Option<Point>,
          id: string, p: Point) {
    && 0 <= i < |items|
    && (p.latitude.Some? || p.longitude.Some?)
    && exists d, t, k, g :: Asks(items[i], id, d, t) && NearestAt(rows, d, t, k, g) && decrypt(rows[k]) == Some(p)
  }

  /** The last log that gives a position under the id gives this one. */
  ghost predicate GivesLast(items: seq<LogItem>, rows: seq<LocationRow>, decrypt: LocationRow -> Option<Point>,
          id: string, p: Point) {
    exists i :: Gives(items, i, rows, decrypt, id, p) && NoneGivesAfter(items, i, rows, decrypt, id)
  }

  ghost predicate NoneGivesAfter(items: seq<LogItem>, i: int, rows: seq<LocationRow>,
          decrypt: LocationRow -> Option<Point>, id: string) {
    forall j, q :: i < j < |items| ==> !Gives(items, j, rows, decrypt, id, q)
  }

  /** The entries of a fallback map are what the last log of each id gives. */
  ghost predicate Fallbacks(m: map<string, Point>, items: seq<LogItem>, rows: seq<LocationRow>,
          decrypt: LocationRow -> Option<Point>) {
    forall id, p :: id in m && m[id] == p <==> GivesLast(items, rows, decrypt, id, p)
  }

  lemma GivesBefore(items: seq<LogItem>, item: LogItem, i: int, rows: seq<LocationRow>,
          decrypt: LocationRow -> Option<Point>, id: string, p: Point)
    requires i < |items|
    ensures Gives(items + [item], i, rows, decrypt, id, p) <==> Gives(items, i, rows, decrypt, id, p)
  {
    if 0 <= i { assert (items + [item])[i] == items[i]; }
  }

  /** One more log overrides what it gives and leaves the other entries alone. */
  lemma GivesLastAppend(items: seq<LogItem>, item: LogItem, rows: seq<LocationRow>,
          decrypt: LocationRow -> Option<Point>, id: string, p: Point)
    ensures GivesLast(items + [item], rows, decrypt, id, p)
      <==> Gives(items + [item], |items|, rows, decrypt, id, p)
           || (NoneGivesAfter(items + [item], |items| - 1, rows, decrypt, id) && GivesLast(items, rows, decrypt, id, p))
  {
    var all, n := items + [item], |items|;
    forall i, q | i < n ensures Gives(all, i, rows, decrypt, id, q) <==> Gives(items, i, rows, decrypt, id, q) {
      GivesBefore(items, item, i, rows, decrypt, id, q);
    }
    if GivesLast(all, rows, decrypt, id, p) {
      var i :| Gives(all, i, rows, decrypt, id, p) && NoneGivesAfter(all, i, rows, decrypt, id);
      if i < n {
        assert Gives(items, i, rows, decrypt, id, p) && NoneGivesAfter(items, i, rows, decrypt, id);
      }
    }
    if Gives(all, n, rows, decrypt, id, p) { assert NoneGivesAfter(all, n, rows, decrypt, id); }
    if NoneGivesAfter(all, n - 1, rows, decrypt, id) && GivesLast(items, rows, decrypt, id, p) {
      var i :| Gives(items, i, rows, decrypt, id, p) && NoneGivesAfter(items, i, rows, decrypt, id);
      assert Gives(all, i, rows, decrypt, id, p) && NoneGivesAfter(all, i, rows, decrypt, id);
    }
  }

  /** What one log gives is the decrypted result of its window's scan. */
  lemma GivesIsScan(items: seq<LogItem>, i: nat, history: seq<LocationRow>, current: seq<LocationRow>,
          decrypt: LocationRow -> Option<Point>, w: Window, id: string, p: Point)
    requires i < |items| && BuildLocationFallbackWindows([items[i]]) == [w]
    ensures Gives(items, i, history + current, decrypt, id, p)
      <==> && id == w.logId && PlainScan(history, current, w).Some?
           && decrypt(PlainScan(history, current, w).value) == Some(p) && (p.latitude.Some? || p.longitude.Some?)
  {
    WindowOfOne(items[i]);
    var id', d', t' :| Asks(items[i], id', d', t');
    assert w == Window(id', d', t', t' - 600000, t' + 600000);
    PlainScanIsNearest(history, current, w);
    if PlainScan(history, current, w).Some? {
      var k, g :| NearestAt(history + current, w.deviceId, w.timestamp, k, g);
    }
  }

  lemma {:induction false} PlainFallbacksMean(items: seq<LogItem>, history: seq<LocationRow>,
          current: seq<LocationRow>, decrypt: LocationRow -> Option<Point>)
    ensures Fallbacks(PlainFallbacks(BuildLocationFallbackWindows(items), history, current, decrypt), items,
                      history + current, decrypt)
  {
    if items != [] {
      var n := |items| - 1;
      var front, item := items[..n], items[n];
      assert items == front + [item];
      PlainFallbacksMean(front, history, current, decrypt);
      WindowsAppend(front, item);
      WindowOfOne(item);
      OneMoreLog(front, item, history, current, decrypt);
    }
  }

  lemma OneMoreLog(front: seq<LogItem>, item: LogItem, history: seq<LocationRow>, current: seq<LocationRow>,
          decrypt: LocationRow -> Option<Point>)
    requires Fallbacks(PlainFallbacks(BuildLocationFallbackWindows(front), history, current, decrypt), front,
                       history + current, decrypt)
    ensures Fallbacks(PlainFallbacks(BuildLocationFallbackWindows(front + [item]), history, current, decrypt),
                      front + [item], history + current, decrypt)
  {
    var windows, own := BuildLocationFallbackWindows(front), BuildLocationFallbackWindows([item]);
    WindowsAppend(front, item);
    WindowOfOne(item);
    if own == [] {
      assert windows + own == windows;
      forall id, p { NoEntryMore(front, item, history + current, decrypt, id, p); }
    } else {
      assert own == [own[0]];
      forall id, p { OneMoreEntry(front, item, history, current, decrypt, own[0], id, p); }
    }
  }

  lemma NoEntryMore(front: seq<LogItem>, item: LogItem, rows: seq<LocationRow>, decrypt: LocationRow -> Option<Point>,
          id: string, p: Point)
    requires BuildLocationFallbackWindows([item]) == []
    ensures GivesLast(front + [item], rows, decrypt, id, p) <==> GivesLast(front, rows, decrypt, id, p)
  {
    WindowOfOne(item);
    assert (front + [item])[|front|] == item;
    GivesLastAppend(front, item, rows, decrypt, id, p);
  }

  lemma OneMoreEntry(front: seq<LogItem>, item: LogItem, history: seq<LocationRow>, current: seq<LocationRow>,
          decrypt: LocationRow -> Option<Point>, w: Window, id: string, p: Point)
    requires BuildLocationFallbackWindows([item]) == [w]
    requires Fallbacks(PlainFallbacks(BuildLocationFallbackWindows(front), history, current, decrypt), front,
                       history + current, decrypt)
    ensures var m := PlainFallbacks(BuildLocationFallbackWindows(front) + [w], history, current, decrypt);
            id in m && m[id] == p <==> GivesLast(front + [item], history + current, decrypt, id, p)
  {
    var windows, rows, n := BuildLocationFallbackWindows(front), history + current, |front|;
    assert (windows + [w])[..|windows|] == windows && (front + [item])[n] == item;
    GivesLastAppend(front, item, rows, decrypt, id, p);
    forall q ensures Gives(front + [item], n, rows, decrypt, id, q)
        <==> id == w.logId && PlainScan(history, current, w).Some?
             && decrypt(PlainScan(history, current, w).value) == Some(q) && HasPosition(Some(q)) {
      GivesIsScan(front + [item], n, history, current, decrypt, w, id, q);
    }
    var found, before := PlainScan(history, current, w), PlainFallbacks(windows, history, current, decrypt);
    if found.Some? && HasPosition(decrypt(found.value)) && id == w.logId {
      assert Gives(front + [item], n, rows, decrypt, id, decrypt(found.value).value);
    } else {
      assert NoneGivesAfter(front + [item], n - 1, rows, decrypt, id);
      assert id in before && before[id] == p <==> GivesLast(front, rows, decrypt, id, p);
    }
  }

  /** For every batch of logs: the merged and chunked search finds, for each log, what a plain
      scan of the device's whole history followed by its current location would find. A log id
      has an entry exactly if a log with it that lacks a coordinate has a row of its device within
      ten minutes whose first nearest one decrypts to a coordinate; the last such log decides. */
  method ResolveLocationFallbacks(items: seq<LogItem>, history: seq<LocationRow>,
          currentTable: Option<seq<LocationRow>>,
                                  decrypt: LocationRow -> Option<Point>) returns (fallbackByLogId: map<string, Point>)
    requires InTimeOrder(history)
    ensures fallbackByLogId == PlainFallbacks(BuildLocationFallbackWindows(items), history,
      currentTable.GetOr([]), decrypt)
    ensures Fallbacks(fallbackByLogId, items, history + currentTable.GetOr([]), decrypt)
  {
    PlainFallbacksMean(items, history, currentTable.GetOr([]), decrypt);
    var windows := BuildLocationFallbackWindows(items);
    if |windows| == 0 {
      return map[];
    }
    var locationsByDeviceId := LoadLocations(windows, history, currentTable);
    fallbackByLogId := map[];
    var i := 0;
    assert windows[..0] == [];
    while i < |windows|
      invariant 0 <= i <= |windows|
      invariant fallbackByLogId == PlainFallbacks(windows[..i], history, currentTable.GetOr([]), decrypt)
    {
      var window := windows[i];
      var nearest := FindNearestLocation(RowsAt(locationsByDeviceId, window.deviceId), window.timestamp);
      assert nearest == PlainScan(history, currentTable.GetOr([]), window);
      PlainNext(windows, i, history, currentTable.GetOr([]), decrypt);
      if nearest.Some? {
        var location := decrypt(nearest.value);
        if HasPosition(location) {
          fallbackByLogId := fallbackByLogId[window.logId := location.value];
        }
      }
      i := i + 1;
    }
    assert windows[..i] == windows;
  }

  lemma SameCurrentRows(windows: seq<Window>, merged: seq<Span>, w: Window, currentTable: Option<seq<LocationRow>>,
          r: seq<LocationRow>)
    requires w in windows && forall x :: x in windows ==> x.start <= x.timestamp <= x.end
    requires forall d :: IntervalsOf(merged, d) == MergedOf(Spans(windows), d)
    requires currentTable.None? ==> r == []
    requires currentTable.Some? ==> forall s ::
      s in merged ==> RowsOf(r, s.deviceId) == RowsOf(currentTable.value, s.deviceId)
    ensures RowsOf(r, w.deviceId) == RowsOf(currentTable.GetOr([]), w.deviceId)
  {
    DeviceSurvivesMerge(windows, merged, w);
  }
}
