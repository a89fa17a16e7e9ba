// The hourly chart of a day: stored hour rows when they agree with the raw logs, else the logs.
module HourlyView {
  import opened Wrappers
  import opened KstTime
  import opened StatCounts

  /** Blocks of an hour; `allowedAppBlocks` counts the app control blocks. */
  datatype Blocks = Blocks(totalBlocks: nat, behaviorBlocks: nat, allowedAppBlocks: nat) {
    function Of(c: Column): nat {
      match c
      case All => totalBlocks
      case ByBehavior => behaviorBlocks
      case ByApp => allowedAppBlocks
    }
  }

  datatype Column = All | ByBehavior | ByApp

  const NO_BLOCKS := Blocks(0, 0, 0)

  function Added(a: Blocks, b: Blocks): Blocks {
    Blocks(a.totalBlocks + b.totalBlocks, a.behaviorBlocks + b.behaviorBlocks, a.allowedAppBlocks + b.allowedAppBlocks)
  }

  /** A stored row: some organization's hour. */
  datatype HourStat = HourStat(hour: int, blocks: Blocks)

  function RowsTotal(rows: seq<HourStat>, c: Column): nat {
    if rows == [] then 0 else RowsTotal(rows[..|rows| - 1], c) + rows[|rows| - 1].blocks.Of(c)
  }

  function LogBlocks(log: Log): Blocks {
    Blocks(1, if log.kind.Behavior? then 1 else 0, if log.kind.AppControl? then 1 else 0)
  }

  /** A column of the blocked logs. */
  function LogsTotal(logs: seq<Log>, c: Column): nat {
    if logs == [] then 0 else LogsTotal(logs[..|logs| - 1], c) + LogBlocks(logs[|logs| - 1]).Of(c)
  }

  type HourMap = map<int, Blocks>

  function At(m: HourMap, h: int): Blocks {
    if h in m then m[h] else NO_BLOCKS
  }

  /** A column over the hours below `n`. */
  function Upto(m: HourMap, n: nat, c: Column): nat {
    if n == 0 then 0 else Upto(m, n - 1, c) + At(m, n - 1).Of(c)
  }

  /** Adding to one hour of the day adds to the sum once. */
  lemma {:induction false} UptoUpdated(m: HourMap, n: nat, h: int, b: Blocks, c: Column)
    ensures Upto(m[h := Added(At(m, h), b)], n, c) == Upto(m, n, c) + if 0 <= h < n then b.Of(c) else 0
  {
    if n > 0 { UptoUpdated(m, n - 1, h, b, c); }
  }

  lemma {:induction false} UptoOfNothing(n: nat, c: Column)
    ensures Upto(map[], n, c) == 0
  {
    if n > 0 { UptoOfNothing(n - 1, c); }
  }

  /** The rows whose hour is not one of the first `hours`; nothing stops the table from holding them. */
  function Misplaced(rows: seq<HourStat>, hours: nat): seq<HourStat> {
    Filter(rows, (r: HourStat) => !(0 <= r.hour < hours))
  }

  lemma MisplacedAppend(rows: seq<HourStat>, r: HourStat, hours: nat, c: Column)
    ensures RowsTotal(Misplaced(rows + [r], hours), c) == RowsTotal(Misplaced(rows, hours), c) + if 0 <= r.hour < hours
      then 0 else r.blocks.Of(c)
  {
    FilterConcat(rows, [r], (r: HourStat) => !(0 <= r.hour < hours));
    assert [r][1..] == [];
    if !(0 <= r.hour < hours) {
      assert Misplaced(rows + [r], hours) == Misplaced(rows, hours) + [r];
      assert (Misplaced(rows, hours) + [r])[..|Misplaced(rows, hours)|] == Misplaced(rows, hours);
    } else {
      assert Misplaced(rows + [r], hours) == Misplaced(rows, hours);
    }
  }

  /** The hours hold the rows, all but the misplaced ones. */
  ghost predicate HoldsRows(m: HourMap, rows: seq<HourStat>, hours: nat) {
    forall c: Column :: Upto(m, hours, c) + RowsTotal(Misplaced(rows, hours), c) == RowsTotal(rows, c)
  }

  lemma HoldsOneMoreRow(m: HourMap, rows: seq<HourStat>, r: HourStat, hours: nat)
    requires HoldsRows(m, rows, hours)
    ensures HoldsRows(m[r.hour := Added(At(m, r.hour), r.blocks)], rows + [r], hours)
  {
    var m' := m[r.hour := Added(At(m, r.hour), r.blocks)];
    forall c: Column ensures Upto(m', hours, c) + RowsTotal(Misplaced(rows + [r], hours), c)
        == RowsTotal(rows + [r], c) {
      UptoUpdated(m, hours, r.hour, r.blocks, c);
      MisplacedAppend(rows, r, hours, c);
      assert (rows + [r])[..|rows|] == rows;
    }
  }

  /** A column of the stored rows of an hour. */
  function RowsAtHour(rows: seq<HourStat>, h: int, c: Column): nat {
    if rows == [] then 0
    else RowsAtHour(rows[..|rows| - 1], h, c) + if rows[|rows| - 1].hour == h then rows[|rows| - 1].blocks.Of(c) else 0
  }

  ghost predicate ChartsRows(m: HourMap, rows: seq<HourStat>) {
    forall h, c: Column :: At(m, h).Of(c) == RowsAtHour(rows, h, c)
  }

  lemma AddedOf(a: Blocks, b: Blocks, c: Column)
    ensures Added(a, b).Of(c) == a.Of(c) + b.Of(c)
  {
  }

  lemma ChartsOneMoreRow(m: HourMap, rows: seq<HourStat>, r: HourStat)
    requires ChartsRows(m, rows)
    ensures ChartsRows(m[r.hour := Added(At(m, r.hour), r.blocks)], rows + [r])
  {
    var m' := m[r.hour := Added(At(m, r.hour), r.blocks)];
    assert (rows + [r])[..|rows|] == rows;
    forall h, c: Column ensures At(m', h).Of(c) == RowsAtHour(rows + [r], h, c) {
      AddedOf(At(m, r.hour), r.blocks, c);
    }
  }

  /** The stored rows, added hour by hour. */
  method AddStoredRows(rows: seq<HourStat>, ghost hours: nat) returns (m: HourMap)
    ensures HoldsRows(m, rows, hours)
    ensures ChartsRows(m, rows)
  {
    m := map[];
    forall c { UptoOfNothing(hours, c); }
    for i := 0 to |rows|
      invariant HoldsRows(m, rows[..i], hours)
      invariant ChartsRows(m, rows[..i])
    {
      var stat := rows[i];
      HoldsOneMoreRow(m, rows[..i], stat, hours);
      assert rows[..i + 1] == rows[..i] + [stat];
      ChartsOneMoreRow(m, rows[..i], stat);
      m := m[stat.hour := Added(At(m, stat.hour), stat.blocks)];
    }
    assert rows[..|rows|] == rows;
  }

  ghost predicate HoldsLogs(m: HourMap, logs: seq<Log>, hours: nat) {
    forall c: Column :: Upto(m, hours, c) == LogsTotal(logs, c)
  }

  lemma HoldsOneMoreLog(m: HourMap, logs: seq<Log>, log: Log, hours: nat)
    requires HoldsLogs(m, logs, hours) && HourOf(log) < hours
    ensures HoldsLogs(m[HourOf(log) := Added(At(m, HourOf(log)), LogBlocks(log))], logs + [log], hours)
  {
    var m' := m[HourOf(log) := Added(At(m, HourOf(log)), LogBlocks(log))];
    forall c: Column ensures Upto(m', hours, c) == LogsTotal(logs + [log], c) {
      UptoUpdated(m, hours, HourOf(log), LogBlocks(log), c);
      assert (logs + [log])[..|logs|] == logs;
    }
  }

  /** A column of the logs of an hour. */
  function LogsAtHour(logs: seq<Log>, h: int, c: Column): nat {
    if logs == [] then 0
    else LogsAtHour(logs[..|logs| - 1], h, c)
         + if HourOf(logs[|logs| - 1]) == h then LogBlocks(logs[|logs| - 1]).Of(c) else 0
  }

  ghost predicate ChartsLogs(m: HourMap, logs: seq<Log>) {
    forall h, c: Column :: At(m, h).Of(c) == LogsAtHour(logs, h, c)
  }

  lemma ChartsOneMoreLog(m: HourMap, logs: seq<Log>, log: Log)
    requires ChartsLogs(m, logs)
    ensures ChartsLogs(m[HourOf(log) := Added(At(m, HourOf(log)), LogBlocks(log))], logs + [log])
  {
    var m' := m[HourOf(log) := Added(At(m, HourOf(log)), LogBlocks(log))];
    assert (logs + [log])[..|logs|] == logs;
    forall h, c: Column ensures At(m', h).Of(c) == LogsAtHour(logs + [log], h, c) {
      AddedOf(At(m, HourOf(log)), LogBlocks(log), c);
    }
  }

  /** addRawLogsToHourlyMap */
  method AddRawLogs(logs: seq<Log>, ghost hours: nat) returns (m: HourMap)
    requires forall l :: l in logs ==> HourOf(l) < hours
    ensures HoldsLogs(m, logs, hours)
    ensures ChartsLogs(m, logs)
  {
    m := map[];
    forall c { UptoOfNothing(hours, c); }
    for i := 0 to |logs|
      invariant HoldsLogs(m, logs[..i], hours)
      invariant ChartsLogs(m, logs[..i])
    {
      var hour := HourOf(logs[i]);
      assert logs[i] in logs;
      HoldsOneMoreLog(m, logs[..i], logs[i], hours);
      ChartsOneMoreLog(m, logs[..i], logs[i]);
      assert logs[..i + 1] == logs[..i] + [logs[i]];
      m := m[hour := Added(At(m, hour), LogBlocks(logs[i]))];
    }
    assert logs[..|logs|] == logs;
  }

  /** A column of the returned rows. */
  function SumOf(result: seq<Blocks>, c: Column): nat {
    if result == [] then 0 else SumOf(result[..|result| - 1], c) + result[|result| - 1].Of(c)
  }

  /** The stored rows are used when there are any and all their totals are those of the logs. */
  ghost predicate UsesStoredRows(stats: seq<HourStat>, logs: seq<Log>) {
    stats != [] && forall c: Column :: RowsTotal(stats, c) == LogsTotal(logs, c)
  }

  // ----- what a row of the chart shows -----

  ghost function Total(rows: seq<HourStat>, f: HourStat -> nat): nat {
    if rows == [] then 0 else Total(rows[..|rows| - 1], f) + f(rows[|rows| - 1])
  }

  /** The blocked logs of a Korean hour: all, those of type behavior, those of type app_control. */
  ghost function ChartOfLogs(logs: seq<Log>, h: int): Blocks {
    Blocks(|Filter(logs, (l: Log) => InKoreanHour(l.timestamp, h))|,
           |Filter(logs, (l: Log) => InKoreanHour(l.timestamp, h) && l.kind.Behavior?)|,
           |Filter(logs, (l: Log) => InKoreanHour(l.timestamp, h) && l.kind.AppControl?)|)
  }

  /** The stored rows of an hour, column by column. */
  ghost function ChartOfRows(rows: seq<HourStat>, h: int): Blocks {
    Blocks(Total(rows, (r: HourStat) => if r.hour == h then r.blocks.totalBlocks else 0),
           Total(rows, (r: HourStat) => if r.hour == h then r.blocks.behaviorBlocks else 0),
           Total(rows, (r: HourStat) => if r.hour == h then r.blocks.allowedAppBlocks else 0))
  }

  /** There are stored rows and each of their columns adds up to the number of logs it stands for. */
  ghost predicate StoredRowsAgree(rows: seq<HourStat>, logs: seq<Log>) {
    && rows != []
    && Total(rows, (r: HourStat) => r.blocks.totalBlocks) == |logs|
    && Total(rows, (r: HourStat) => r.blocks.behaviorBlocks) == |Filter(logs, (l: Log) => l.kind.Behavior?)|
    && Total(rows, (r: HourStat) => r.blocks.allowedAppBlocks) == |Filter(logs, (l: Log) => l.kind.AppControl?)|
  }

  lemma {:induction false} LogsAtHourCount(logs: seq<Log>, h: int, c: Column, p: Log -> bool)
    requires forall l: Log :: (if HourOf(l) == h then LogBlocks(l).Of(c) else 0) == if p(l) then 1 else 0
    ensures LogsAtHour(logs, h, c) == |Filter(logs, p)|
  {
    if logs != [] {
      var n := |logs| - 1;
      LogsAtHourCount(logs[..n], h, c, p);
      assert logs == logs[..n] + [logs[n]];
      FilterAppend(logs[..n], logs[n], p);
    }
  }

  lemma LogsAtHourMean(logs: seq<Log>, h: int)
    requires 0 <= h < 24
    ensures LogsAtHour(logs, h, All) == ChartOfLogs(logs, h).totalBlocks
    ensures LogsAtHour(logs, h, ByBehavior) == ChartOfLogs(logs, h).behaviorBlocks
    ensures LogsAtHour(logs, h, ByApp) == ChartOfLogs(logs, h).allowedAppBlocks
  {
    forall l: Log { KoreanHourIff(l.timestamp, h); }
    LogsAtHourCount(logs, h, All, (l: Log) => InKoreanHour(l.timestamp, h));
    LogsAtHourCount(logs, h, ByBehavior, (l: Log) => InKoreanHour(l.timestamp, h) && l.kind.Behavior?);
    LogsAtHourCount(logs, h, ByApp, (l: Log) => InKoreanHour(l.timestamp, h) && l.kind.AppControl?);
  }

  lemma {:induction false} RowsAtHourMean(rows: seq<HourStat>, h: int)
    ensures RowsAtHour(rows, h, All) == ChartOfRows(rows, h).totalBlocks
    ensures RowsAtHour(rows, h, ByBehavior) == ChartOfRows(rows, h).behaviorBlocks
    ensures RowsAtHour(rows, h, ByApp) == ChartOfRows(rows, h).allowedAppBlocks
  {
    if rows != [] { RowsAtHourMean(rows[..|rows| - 1], h); }
  }

  lemma {:induction false} RowsTotalMeans(rows: seq<HourStat>)
    ensures RowsTotal(rows, All) == Total(rows, (r: HourStat) => r.blocks.totalBlocks)
    ensures RowsTotal(rows, ByBehavior) == Total(rows, (r: HourStat) => r.blocks.behaviorBlocks)
    ensures RowsTotal(rows, ByApp) == Total(rows, (r: HourStat) => r.blocks.allowedAppBlocks)
  {
    if rows != [] { RowsTotalMeans(rows[..|rows| - 1]); }
  }

  lemma {:induction false} LogsTotalMeans(logs: seq<Log>)
    ensures LogsTotal(logs, All) == |logs|
    ensures LogsTotal(logs, ByBehavior) == |Filter(logs, (l: Log) => l.kind.Behavior?)|
    ensures LogsTotal(logs, ByApp) == |Filter(logs, (l: Log) => l.kind.AppControl?)|
  {
    if logs != [] {
      var n := |logs| - 1;
      LogsTotalMeans(logs[..n]);
      assert logs == logs[..n] + [logs[n]];
      FilterAppend(logs[..n], logs[n], (l: Log) => l.kind.Behavior?);
      FilterAppend(logs[..n], logs[n], (l: Log) => l.kind.AppControl?);
    }
  }

  lemma UsedIffAgree(stats: seq<HourStat>, logs: seq<Log>)
    ensures UsesStoredRows(stats, logs) <==> StoredRowsAgree(stats, logs)
  {
    RowsTotalMeans(stats);
    LogsTotalMeans(logs);
    assert (forall c: Column :: RowsTotal(stats, c) == LogsTotal(logs, c))
      <==> RowsTotal(stats, All) == LogsTotal(logs, All) && RowsTotal(stats, ByBehavior) == LogsTotal(logs, ByBehavior)
           && RowsTotal(stats, ByApp) == LogsTotal(logs, ByApp);
  }

  lemma {:induction false} NoneMisplaced(rows: seq<HourStat>)
    requires forall r :: r in rows ==> 0 <= r.hour < 24
    ensures Misplaced(rows, 24) == []
  {
    if rows != [] {
      assert rows[0] in rows;
      NoneMisplaced(rows[1..]);
    }
  }

  /** getHourlyData over the blocked logs of the day and the stored rows of its organizations:
      whatever the stored rows hold, the 24 returned rows add up to the logs in every column,
      short only of used rows whose hour is not an hour of the day. Row h shows the stored rows of
      hour h where these agree with the logs, and else the logs of the Korean hour h. */
  method GetHourlyData(stats: seq<HourStat>, logs: seq<Log>) returns (result: seq<Blocks>)
    ensures |result| == 24
    ensures forall c ::
      SumOf(result, c) + (if UsesStoredRows(stats, logs) then RowsTotal(Misplaced(stats, 24), c) else 0)
      == LogsTotal(logs, c)
    ensures (forall r :: r in stats ==> 0 <= r.hour < 24) ==> forall c :: SumOf(result, c) == LogsTotal(logs, c)
    ensures forall h :: 0 <= h < 24 ==>
              result[h] == if StoredRowsAgree(stats, logs) then ChartOfRows(stats, h) else ChartOfLogs(logs, h)
  {
    result := HourlyRows(stats, logs, 24);
    UsedIffAgree(stats, logs);
    if forall r :: r in stats ==> 0 <= r.hour < 24 { NoneMisplaced(stats); }
    forall h | 0 <= h < 24
      ensures result[h] == if StoredRowsAgree(stats, logs) then ChartOfRows(stats, h) else ChartOfLogs(logs, h)
    {
      RowsAtHourMean(stats, h);
      LogsAtHourMean(logs, h);
      assert result[h] == Blocks(result[h].Of(All), result[h].Of(ByBehavior), result[h].Of(ByApp));
    }
  }

  method HourlyRows(stats: seq<HourStat>, logs: seq<Log>, hours: nat) returns (result: seq<Blocks>)
    requires forall l :: l in logs ==> HourOf(l) < hours
    ensures |result| == hours
    ensures forall c ::
      SumOf(result, c) + (if UsesStoredRows(stats, logs) then RowsTotal(Misplaced(stats, hours), c) else 0)
      == LogsTotal(logs, c)
    ensures forall h :: 0 <= h < hours ==>
              forall c: Column :: result[h].Of(c)
                == if UsesStoredRows(stats, logs) then RowsAtHour(stats, h, c) else LogsAtHour(logs, h, c)
  {
    var m: HourMap;
    if stats != [] {
      var summary := Summary(stats);
      var raw := RawSummary(logs);
      SameTotals(stats, logs, summary, raw);
      if summary == raw {
        m := AddStoredRows(stats, hours);
      } else {
        m := AddRawLogs(logs, hours);
      }
    } else {
      m := AddRawLogs(logs, hours);
    }
    result := Listed(m, hours);
  }

  /** The final loop over the hours. */
  method Listed(m: HourMap, hours: nat) returns (result: seq<Blocks>)
    ensures |result| == hours && forall c :: SumOf(result, c) == Upto(m, hours, c)
    ensures forall h :: 0 <= h < hours ==> result[h] == At(m, h)
  {
    result := [];
    for h := 0 to hours
      invariant |result| == h && forall c :: SumOf(result, c) == Upto(m, h, c)
      invariant forall j :: 0 <= j < h ==> result[j] == At(m, j)
    {
      var data := At(m, h);
      assert (result + [data])[..h] == result;
      result := result + [data];
    }
  }

  ghost predicate Totals(b: Blocks, stats: seq<HourStat>) {
    forall c: Column :: b.Of(c) == RowsTotal(stats, c)
  }

  lemma SameTotals(stats: seq<HourStat>, logs: seq<Log>, summary: Blocks, raw: Blocks)
    requires stats != [] && Totals(summary, stats)
    requires forall c: Column :: raw.Of(c) == LogsTotal(logs, c)
    ensures summary == raw <==> UsesStoredRows(stats, logs)
  {
    assert summary == raw
      <==> summary.Of(All) == raw.Of(All) && summary.Of(ByBehavior) == raw.Of(ByBehavior)
           && summary.Of(ByApp) == raw.Of(ByApp);
  }

  method Summary(stats: seq<HourStat>) returns (summary: Blocks)
    ensures Totals(summary, stats)
  {
    summary := NO_BLOCKS;
    for i := 0 to |stats|
      invariant Totals(summary, stats[..i])
    {
      assert stats[..i + 1][..i] == stats[..i];
      summary := Added(summary, stats[i].blocks);
    }
    assert stats[..|stats|] == stats;
  }

  predicate IsBehavior(l: Log) {
    l.kind.Behavior?
  }

  predicate IsAppControl(l: Log) {
    l.kind.AppControl?
  }

  predicate IsOther(l: Log) {
    l.kind.OtherKind?
  }

  /** The reduction over the groups of the query, one group per type. */
  method RawSummary(logs: seq<Log>) returns (summary: Blocks)
    ensures forall c: Column :: summary.Of(c) == LogsTotal(logs, c)
  {
    var behavior, appControl, other := |Filter(logs, IsBehavior)|, |Filter(logs, IsAppControl)|,
        |Filter(logs, IsOther)|;
    summary := Blocks(behavior + appControl + other, behavior, appControl);
    GroupsAreAll(logs);
    BehaviorGroup(logs);
    AppControlGroup(logs);
  }

  lemma {:induction false} BehaviorGroup(logs: seq<Log>)
    ensures LogsTotal(logs, ByBehavior) == |Filter(logs, IsBehavior)|
  {
    if logs != [] {
      var n := |logs| - 1;
      BehaviorGroup(logs[..n]);
      FilterAppend(logs[..n], logs[n], IsBehavior);
      assert logs == logs[..n] + [logs[n]];
    }
  }

  lemma {:induction false} AppControlGroup(logs: seq<Log>)
    ensures LogsTotal(logs, ByApp) == |Filter(logs, IsAppControl)|
  {
    if logs != [] {
      var n := |logs| - 1;
      AppControlGroup(logs[..n]);
      FilterAppend(logs[..n], logs[n], IsAppControl);
      assert logs == logs[..n] + [logs[n]];
    }
  }

  lemma {:induction false} KindsSplit(logs: seq<Log>)
    ensures |logs| == |Filter(logs, IsBehavior)| + |Filter(logs, IsAppControl)| + |Filter(logs, IsOther)|
  {
    if logs != [] { KindsSplit(logs[1..]); }
  }

  lemma {:induction false} GroupsAreAll(logs: seq<Log>)
    ensures LogsTotal(logs, All) == |logs|
      == |Filter(logs, IsBehavior)| + |Filter(logs, IsAppControl)| + |Filter(logs, IsOther)|
  {
    KindsSplit(logs);
    if logs != [] { GroupsAreAll(logs[..|logs| - 1]); }
  }
}
