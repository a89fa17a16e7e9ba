// Counters over the control logs of a day, and how they split by hour, zone and employee.
module StatCounts {
  import opened Wrappers
  import opened KstTime

  type EmployeeId = string
  type ZoneId = string

  /** The action and type columns, as far as the statistics tell them apart. */
  datatype Action = Block | Allow | OtherAction
  datatype Kind = Behavior | AppControl | OtherKind

  datatype Log = Log(employeeId: EmployeeId, zoneId: Option<ZoneId>, timestamp: int, kind: Kind, action: Action,
      packageName: Option<string>)

  datatype Counter = TotalEvents | AllowedEvents | TotalBlocks | BehaviorBlocks | AppControlBlocks

  predicate Blocked(log: Log) {
    log.action.Block?
  }

  /** Whether a log adds one to a counter. */
  predicate Counted(c: Counter, log: Log) {
    match c
    case TotalEvents => true
    case AllowedEvents => log.action.Allow?
    case TotalBlocks => Blocked(log)
    case BehaviorBlocks => Blocked(log) && log.kind.Behavior?
    case AppControlBlocks => Blocked(log) && log.kind.AppControl?
  }

  function Count(c: Counter, logs: seq<Log>): nat {
    if logs == [] then 0 else (if Counted(c, logs[0]) then 1 else 0) + Count(c, logs[1..])
  }

  datatype Counts = Counts(totalEvents: nat, allowedEvents: nat, totalBlocks: nat, behaviorBlocks: nat,
      appControlBlocks: nat) {
    function Of(c: Counter): nat {
      match c
      case TotalEvents => totalEvents
      case AllowedEvents => allowedEvents
      case TotalBlocks => totalBlocks
      case BehaviorBlocks => behaviorBlocks
      case AppControlBlocks => appControlBlocks
    }
  }

  const ZERO := Counts(0, 0, 0, 0, 0)

  function CountsOf(logs: seq<Log>): Counts {
    Counts(Count(TotalEvents, logs), Count(AllowedEvents, logs), Count(TotalBlocks, logs), Count(BehaviorBlocks, logs),
        Count(AppControlBlocks, logs))
  }

  lemma {:induction false} CountIsFilter(c: Counter, logs: seq<Log>, p: Log -> bool)
    requires forall l :: p(l) <==> Counted(c, l)
    ensures Count(c, logs) == |Filter(logs, p)|
  {
    if logs != [] { CountIsFilter(c, logs[1..], p); }
  }

  /** What each column counts: all logs, the allowed ones, the blocked ones, and of these the ones
      of type behavior and of type app_control. */
  lemma CountsMean(logs: seq<Log>)
    ensures CountsOf(logs) == Counts(|logs|,
                                     |Filter(logs, (l: Log) => l.action.Allow?)|,
                                     |Filter(logs, (l: Log) => l.action.Block?)|,
                                     |Filter(logs, (l: Log) => l.action.Block? && l.kind.Behavior?)|,
                                     |Filter(logs, (l: Log) => l.action.Block? && l.kind.AppControl?)|)
    ensures forall c :: CountsOf(logs).Of(c) == Count(c, logs)
  {
    EventsAreLogs(logs);
    CountIsFilter(AllowedEvents, logs, (l: Log) => l.action.Allow?);
    CountIsFilter(TotalBlocks, logs, (l: Log) => l.action.Block?);
    CountIsFilter(BehaviorBlocks, logs, (l: Log) => l.action.Block? && l.kind.Behavior?);
    CountIsFilter(AppControlBlocks, logs, (l: Log) => l.action.Block? && l.kind.AppControl?);
  }

  lemma {:induction false} CountAppend(c: Counter, logs: seq<Log>, log: Log)
    ensures Count(c, logs + [log]) == Count(c, logs) + if Counted(c, log) then 1 else 0
  {
    if logs == [] {
      assert logs + [log] == [log] && [log][1..] == [];
    } else {
      assert (logs + [log])[1..] == logs[1..] + [log];
      CountAppend(c, logs[1..], log);
    }
  }

  lemma {:induction false} EventsAreLogs(logs: seq<Log>)
    ensures Count(TotalEvents, logs) == |logs|
  {
    if logs != [] { EventsAreLogs(logs[1..]); }
  }

  // ----- splitting by a key -----

  /** The logs whose key is `k`. */
  function With<K(==, !new)>(logs: seq<Log>, keyOf: Log -> K, k: K): seq<Log> {
    Filter(logs, l => keyOf(l) == k)
  }

  lemma {:induction false} WithIsFilter<K(!new)>(logs: seq<Log>, keyOf: Log -> K, k: K, p: Log -> bool)
    requires forall l :: p(l) <==> keyOf(l) == k
    ensures With(logs, keyOf, k) == Filter(logs, p)
  {
    if logs != [] { WithIsFilter(logs[1..], keyOf, k, p); }
  }

  /** A counter taken for each key and added up. */
  function CountOver<K(==, !new)>(c: Counter, keys: seq<K>, logs: seq<Log>, keyOf: Log -> K): nat {
    if keys == [] then 0 else Count(c, With(logs, keyOf, keys[0])) + CountOver(c, keys[1..], logs, keyOf)
  }

  lemma {:induction false} CountOverNothing<K(!new)>(c: Counter, keys: seq<K>, keyOf: Log -> K)
    ensures CountOver(c, keys, [], keyOf) == 0
  {
    if keys != [] { CountOverNothing(c, keys[1..], keyOf); }
  }

  /** The first log counts once for each occurrence of its key. */
  lemma {:induction false} CountOverFirst<K(!new)>(c: Counter, keys: seq<K>, logs: seq<Log>, keyOf: Log -> K)
    requires Distinct(keys) && logs != []
    ensures CountOver(c, keys, logs, keyOf)
      == CountOver(c, keys, logs[1..], keyOf) + if keyOf(logs[0]) in keys && Counted(c, logs[0]) then 1 else 0
  {
    if keys != [] {
      assert keys == [keys[0]] + keys[1..];
      DistinctSplit([keys[0]], keys[1..]);
      assert keys[0] in [keys[0]];
      CountOverFirst(c, keys[1..], logs, keyOf);
    }
  }

  /** When the keys are distinct and every log has one of them, nothing is lost or counted twice. */
  lemma {:induction false} SplitConserves<K(!new)>(c: Counter, keys: seq<K>, logs: seq<Log>, keyOf: Log -> K)
    requires Distinct(keys)
    requires forall l :: l in logs ==> keyOf(l) in keys
    ensures CountOver(c, keys, logs, keyOf) == Count(c, logs)
  {
    if logs == [] {
      CountOverNothing(c, keys, keyOf);
    } else {
      SplitConserves(c, keys, logs[1..], keyOf);
      CountOverFirst(c, keys, logs, keyOf);
    }
  }

  /** The keys of the logs in the order in which they first occur. */
  function FirstSeen<K(==, !new)>(logs: seq<Log>, keyOf: Log -> K): seq<K> {
    if logs == [] then []
    else
      var before, k := FirstSeen(logs[..|logs| - 1], keyOf), keyOf(logs[|logs| - 1]);
      if k in before then before else before + [k]
  }

  /** Every key once. */
  lemma {:induction false} FirstSeenKeys<K(!new)>(logs: seq<Log>, keyOf: Log -> K)
    ensures Distinct(FirstSeen(logs, keyOf))
    ensures forall k :: k in FirstSeen(logs, keyOf) <==> exists l :: l in logs && keyOf(l) == k
  {
    if logs != [] {
      var n := |logs| - 1;
      FirstSeenKeys(logs[..n], keyOf);
      assert logs == logs[..n] + [logs[n]];
      if keyOf(logs[n]) !in FirstSeen(logs[..n], keyOf) {
        DistinctAppend(FirstSeen(logs[..n], keyOf), [keyOf(logs[n])]);
      }
    }
  }

  lemma SeenKey<K(!new)>(logs: seq<Log>, keyOf: Log -> K, n: nat)
    requires n < |logs|
    ensures keyOf(logs[n]) in FirstSeen(logs, keyOf)
  {
    FirstSeenKeys(logs, keyOf);
    assert logs[n] in logs;
  }

  /** A key listed before another one occurs before every log of the other one. */
  lemma {:induction false} FirstSeenInOrder<K(!new)>(logs: seq<Log>, keyOf: Log -> K, i: nat, j: nat, n: nat)
    requires i < j < |FirstSeen(logs, keyOf)| && n < |logs| && keyOf(logs[n]) == FirstSeen(logs, keyOf)[j]
    ensures exists m :: 0 <= m < n && keyOf(logs[m]) == FirstSeen(logs, keyOf)[i]
  {
    var last := |logs| - 1;
    var front, keys := logs[..last], FirstSeen(logs[..last], keyOf);
    FirstSeenKeys(front, keyOf);
    if j < |keys| {
      if n < last {
        FirstSeenInOrder(front, keyOf, i, j, n);
        var m :| 0 <= m < n && keyOf(front[m]) == keys[i];
        assert logs[m] == front[m];
      } else {
        assert keys[i] in keys;
        var l :| l in front && keyOf(l) == keys[i];
        var m :| 0 <= m < last && front[m] == l;
        assert logs[m] == l;
      }
    } else {
      assert keys[i] in keys;
      var l :| l in front && keyOf(l) == keys[i];
      var m :| 0 <= m < last && front[m] == l;
      assert logs[m] == l;
      if n < last { SeenKey(front, keyOf, n); }
    }
  }

  lemma WithAppend<K(!new)>(logs: seq<Log>, log: Log, keyOf: Log -> K, k: K)
    ensures With(logs + [log], keyOf, k) == if keyOf(log) == k then With(logs, keyOf, k) + [log]
      else With(logs, keyOf, k)
  {
    FilterConcat(logs, [log], l => keyOf(l) == k);
    assert [log][1..] == [];
  }

  lemma FilterAppend(logs: seq<Log>, log: Log, p: Log -> bool)
    ensures Filter(logs + [log], p) == if p(log) then Filter(logs, p) + [log] else Filter(logs, p)
  {
    FilterConcat(logs, [log], p);
    assert [log][1..] == [];
  }

  /** A key that does not occur has no logs. */
  lemma LogsHaveSeenKey<K(!new)>(logs: seq<Log>, keyOf: Log -> K, k: K)
    requires With(logs, keyOf, k) != []
    ensures k in FirstSeen(logs, keyOf)
  {
    FirstSeenKeys(logs, keyOf);
    var l := With(logs, keyOf, k)[0];
    assert l in With(logs, keyOf, k);
    assert l in logs && keyOf(l) == k;
  }

  // ----- hours -----

  /** getKstHourFromUtc */
  function KstHour(t: int): (h: int)
    ensures 0 <= h < 24
  {
    (t + KST_OFFSET_MS) / 3600000 % 24
  }

  /** The instant lies in the `h`-th hour after some Korean midnight. */
  ghost predicate InKoreanHour(t: int, h: int) {
    exists day :: Midnight(day) + h * 3600000 <= t < Midnight(day) + (h + 1) * 3600000
  }

  lemma HourOfDayIff(u: int, day: int, h: int)
    requires 0 <= h < 24
    ensures day * 86400000 + h * 3600000 <= u < day * 86400000 + (h + 1) * 3600000
      <==> u / 3600000 == day * 24 + h
  {
  }

  lemma HourInDay(q: int, h: int)
    requires 0 <= h < 24
    ensures q % 24 == h <==> exists day :: q == Hours(day) + h
  {
    if q % 24 == h { assert q == Hours(q / 24) + h; }
  }

  ghost function Hours(day: int): int {
    day * 24
  }

  lemma KoreanHourIff(t: int, h: int)
    requires 0 <= h < 24
    ensures KstHour(t) == h <==> InKoreanHour(t, h)
  {
    var q := (t + 32400000) / 3600000;
    HourInDay(q, h);
    if KstHour(t) == h {
      var day :| q == Hours(day) + h;
      HourOfDayIff(t + 32400000, day, h);
      assert Midnight(day) + h * 3600000 <= t < Midnight(day) + (h + 1) * 3600000;
    }
    if InKoreanHour(t, h) {
      var day :| Midnight(day) + h * 3600000 <= t < Midnight(day) + (h + 1) * 3600000;
      HourOfDayIff(t + 32400000, day, h);
      assert q == Hours(day) + h;
    }
  }

  function HourOf(log: Log): int {
    KstHour(log.timestamp)
  }

  function UpTo(n: nat): (s: seq<int>)
    ensures |s| == n && forall i :: 0 <= i < n ==> s[i] == i
  {
    if n == 0 then [] else UpTo(n - 1) + [n - 1]
  }

  lemma {:induction false} UpToIsDistinct(n: nat)
    ensures Distinct(UpTo(n)) && forall h :: h in UpTo(n) <==> 0 <= h < n
  {
    if n > 0 {
      UpToIsDistinct(n - 1);
      DistinctAppend(UpTo(n - 1), [n - 1]);
    }
  }

  /** Each counter of the 24 hours adds up to that of the day. */
  lemma HoursConserve(c: Counter, logs: seq<Log>)
    ensures CountOver(c, UpTo(24), logs, HourOf) == Count(c, logs)
  {
    UpToIsDistinct(24);
    SplitConserves(c, UpTo(24), logs, HourOf);
  }
}
