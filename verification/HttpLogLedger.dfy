// The books of the bounded HTTP log queue: where every accepted write is, and what each step of
// writing and flushing does to them.
module HttpLogLedger {
  import opened Wrappers

  const MAX_BATCH_SIZE: nat := 200
  const MAX_QUEUE_SIZE: nat := 5000

  datatype Entry = Entry(logDate: string, line: string)

  /** The configured destination: one file, or a directory (by default the logs directory of
      the process) with a file for each log date. */
  datatype Target = SingleFile(path: string) | Directory(path: string)

  /** A log file: the configured one, or the one of a date, "<prefix>-<date>.log". */
  datatype LogFile = Configured(path: string) | Dated(directory: string, logDate: string)

  function ResolveFilePath(target: Target, logDate: string): LogFile {
    match target
    case SingleFile(path) => Configured(path)
    case Directory(path) => Dated(path, logDate)
  }

  /** Two entries share a file exactly if one file is configured or they have the same date. */
  lemma SameFileIff(target: Target, a: string, b: string)
    ensures ResolveFilePath(target, a) == ResolveFilePath(target, b) <==> target.SingleFile? || a == b
  {
  }

  // ----- lines by file -----

  function BatchLines(batch: seq<Entry>, target: Target, path: LogFile): seq<string> {
    if batch == [] then []
    else
      var last := batch[|batch| - 1];
      BatchLines(batch[..|batch| - 1], target, path)
      + if ResolveFilePath(target, last.logDate) == path then [last.line] else []
  }

  /** What became of an accepted write. */
  datatype Fate = Queued | InFlight | Appended | Lost | Dropped

  /** The lines of the writes with fate `f` that belong in `path`, in write order. */
  ghost function LinesAt(writes: seq<Entry>, fate: seq<Fate>, f: Fate, target: Target, path: LogFile): seq<string>
    requires |fate| == |writes|
  {
    if writes == [] then []
    else
      var n := |writes| - 1;
      LinesAt(writes[..n], fate[..n], f, target, path)
      + if fate[n] == f && ResolveFilePath(target, writes[n].logDate) == path then [writes[n].line] else []
  }

  ghost predicate GoesTo(e: Entry, target: Target, path: LogFile) {
    ResolveFilePath(target, e.logDate) == path
  }

  /** Two histories that agree on the writes of a file give the same lines for it. */
  lemma {:induction false} LinesAgree(writes: seq<Entry>, a: seq<Fate>, f: Fate, b: seq<Fate>, g: Fate,
          target: Target, path: LogFile)
    requires |a| == |b| == |writes|
    requires forall i :: 0 <= i < |writes| && GoesTo(writes[i], target, path) ==> (a[i] == f <==> b[i] == g)
    ensures LinesAt(writes, a, f, target, path) == LinesAt(writes, b, g, target, path)
  {
    if writes != [] {
      var n := |writes| - 1;
      assert GoesTo(writes[n], target, path) <==> ResolveFilePath(target, writes[n].logDate) == path;
      LinesAgree(writes[..n], a[..n], f, b[..n], g, target, path);
    }
  }

  lemma {:induction false} NoLines(writes: seq<Entry>, fate: seq<Fate>, f: Fate, target: Target, path: LogFile)
    requires |fate| == |writes|
    requires forall i :: 0 <= i < |writes| && GoesTo(writes[i], target, path) ==> fate[i] != f
    ensures LinesAt(writes, fate, f, target, path) == []
  {
    if writes != [] {
      var n := |writes| - 1;
      assert GoesTo(writes[n], target, path) <==> ResolveFilePath(target, writes[n].logDate) == path;
      NoLines(writes[..n], fate[..n], f, target, path);
    }
  }

  /** When everything in flight for a file is later than everything appended to it, appending
      the former gives the file's lines in write order. */
  lemma {:induction false} LinesJoin(writes: seq<Entry>, fate: seq<Fate>, next: seq<Fate>, start: nat,
          target: Target, path: LogFile)
    requires |fate| == |next| == |writes|
    requires forall i :: 0 <= i < |writes| && GoesTo(writes[i], target, path)
               ==> (next[i] == Appended <==> fate[i] == Appended || fate[i] == InFlight)
    requires forall i :: 0 <= i < |writes| && GoesTo(writes[i], target, path) && fate[i] == Appended ==> i < start
    requires forall i :: 0 <= i < |writes| && GoesTo(writes[i], target, path) && fate[i] == InFlight ==> start <= i
    ensures LinesAt(writes, next, Appended, target, path)
         == LinesAt(writes, fate, Appended, target, path) + LinesAt(writes, fate, InFlight, target, path)
  {
    if writes != [] {
      var n := |writes| - 1;
      assert GoesTo(writes[n], target, path) <==> ResolveFilePath(target, writes[n].logDate) == path;
      LinesJoin(writes[..n], fate[..n], next[..n], start, target, path);
      if fate[n] == Appended && GoesTo(writes[n], target, path) {
        NoLines(writes[..n], fate[..n], InFlight, target, path);
      }
    }
  }

  /** A batch is a stretch of the writes. */
  lemma {:induction false} LinesOfStretch(writes: seq<Entry>, fate: seq<Fate>, f: Fate, lo: nat, hi: nat,
          target: Target, path: LogFile)
    requires lo <= hi <= |writes| == |fate|
    requires forall i :: 0 <= i < |writes| ==> (fate[i] == f <==> lo <= i < hi)
    ensures LinesAt(writes, fate, f, target, path) == BatchLines(writes[lo..hi], target, path)
    decreases |writes|
  {
    if lo == hi {
      NoLines(writes, fate, f, target, path);
    } else {
      var n := |writes| - 1;
      var front := writes[..n];
      if hi == |writes| {
        assert writes[lo..hi] == front[lo..n] + [writes[n]];
        LinesOfStretch(front, fate[..n], f, lo, n, target, path);
      } else {
        assert writes[lo..hi] == front[lo..hi];
        LinesOfStretch(front, fate[..n], f, lo, hi, target, path);
      }
    }
  }

  ghost function Count(fate: seq<Fate>, f: Fate): nat {
    if fate == [] then 0 else Count(fate[..|fate| - 1], f) + if fate[|fate| - 1] == f then 1 else 0
  }

  // ----- grouping a batch -----

  /** linesByPath: the paths in insertion order and the lines of each. */
  datatype Groups = Groups(paths: seq<LogFile>, lines: map<LogFile, seq<string>>)

  ghost predicate NoRepeats(s: seq<LogFile>) {
    s == [] || (s[0] !in s[1..] && NoRepeats(s[1..]))
  }

  lemma {:induction false} NoRepeatsAppend(s: seq<LogFile>, x: LogFile)
    requires NoRepeats(s) && x !in s
    ensures NoRepeats(s + [x])
  {
    if s != [] {
      assert (s + [x])[1..] == s[1..] + [x];
      NoRepeatsAppend(s[1..], x);
    }
  }

  ghost predicate GroupsOf(groups: Groups, batch: seq<Entry>, target: Target) {
    && NoRepeats(groups.paths) && ToSet(groups.paths) == groups.lines.Keys
    && (forall p :: p in groups.lines ==> groups.lines[p] == BatchLines(batch, target, p))
    && (forall i :: 0 <= i < |batch| ==> ResolveFilePath(target, batch[i].logDate) in groups.lines)
  }

  function LinesIn(groups: Groups, path: LogFile): seq<string> {
    if path in groups.lines then groups.lines[path] else []
  }

  lemma {:induction false} OtherPathsNoLines(batch: seq<Entry>, target: Target, path: LogFile)
    requires forall i :: 0 <= i < |batch| ==> ResolveFilePath(target, batch[i].logDate) != path
    ensures BatchLines(batch, target, path) == []
  {
    if batch != [] {
      OtherPathsNoLines(batch[..|batch| - 1], target, path);
    }
  }

  /** One more entry: its line joins its file's lines, and a new file comes last. */
  lemma GroupStep(groups: Groups, batch: seq<Entry>, e: Entry, target: Target)
    requires GroupsOf(groups, batch, target)
    ensures GroupsOf(AddLine(groups, ResolveFilePath(target, e.logDate), e.line), batch + [e], target)
  {
    var p := ResolveFilePath(target, e.logDate);
    assert (batch + [e])[..|batch|] == batch;
    if p !in groups.lines {
      OtherPathsNoLines(batch, target, p);
    }
    GroupPaths(groups, p, e.line);
  }

  function AddLine(groups: Groups, p: LogFile, line: string): Groups {
    Groups(if p in groups.lines then groups.paths else groups.paths + [p],
        groups.lines[p := LinesIn(groups, p) + [line]])
  }

  lemma GroupPaths(groups: Groups, p: LogFile, line: string)
    requires NoRepeats(groups.paths) && ToSet(groups.paths) == groups.lines.Keys
    ensures var next := AddLine(groups, p, line);
      NoRepeats(next.paths) && ToSet(next.paths) == next.lines.Keys
  {
    if p !in groups.lines {
      assert p !in ToSet(groups.paths);
      NoRepeatsAppend(groups.paths, p);
      assert ToSet(groups.paths + [p]) == ToSet(groups.paths) + {p};
    } else {
      assert groups.lines[p := LinesIn(groups, p) + [line]].Keys == groups.lines.Keys;
    }
  }

  method GroupByPath(batch: seq<Entry>, target: Target) returns (groups: Groups)
    ensures GroupsOf(groups, batch, target)
  {
    groups := Groups([], map[]);
    var i := 0;
    assert batch[..0] == [];
    while i < |batch|
      invariant 0 <= i <= |batch|
      invariant GroupsOf(groups, batch[..i], target)
    {
      var filePath := ResolveFilePath(target, batch[i].logDate);
      GroupStep(groups, batch[..i], batch[i], target);
      assert batch[..i + 1] == batch[..i] + [batch[i]];
      groups := AddLine(groups, filePath, batch[i].line);
      i := i + 1;
    }
    assert batch[..i] == batch;
  }

  // ----- accounting -----

  /** Every accepted write in order, the one place each of them is in, and the number of the
      first write of the current batch. */
  datatype Ledger = Ledger(accepted: seq<Entry>, fate: seq<Fate>, batchStart: nat)

  /** The queue is the suffix of the accepted writes that are still queued. */
  ghost predicate Books(l: Ledger, queue: seq<Entry>) {
    && |l.fate| == |l.accepted|
    && |queue| <= |l.accepted|
    && (forall k :: 0 <= k < |queue| ==> queue[k] == l.accepted[|l.accepted| - |queue| + k])
    && (forall i :: 0 <= i < |l.fate| ==> (l.fate[i] == Queued <==> i >= |l.accepted| - |queue|))
  }

  function FileAt(files: map<LogFile, seq<string>>, path: LogFile): seq<string> {
    if path in files then files[path] else []
  }

  /** Each file holds exactly its appended writes, in write order. */
  ghost predicate OnDisk(l: Ledger, files: map<LogFile, seq<string>>, target: Target)
    requires |l.fate| == |l.accepted|
  {
    forall path :: FileAt(files, path) == LinesAt(l.accepted, l.fate, Appended, target, path)
  }

  /** The paths still to append to carry the writes in flight, and nothing of a file was
      appended from a write later than one in flight for it. */
  ghost predicate Carries(l: Ledger, pending: Groups, target: Target)
    requires |l.fate| == |l.accepted|
  {
    && NoRepeats(pending.paths)
    && (forall p :: p in pending.paths
         ==> p in pending.lines && pending.lines[p] == LinesAt(l.accepted, l.fate, InFlight, target, p))
    && (forall i :: 0 <= i < |l.fate| && l.fate[i] == InFlight
         ==> ResolveFilePath(target, l.accepted[i].logDate) in pending.paths)
    && (forall i :: 0 <= i < |l.fate| && l.fate[i] == InFlight ==> l.batchStart <= i)
    && (forall i :: 0 <= i < |l.fate| && l.fate[i] == Appended
                    && ResolveFilePath(target, l.accepted[i].logDate) in pending.paths
         ==> i < l.batchStart)
  }

  /** No write is counted twice or forgotten. */
  lemma NothingUnaccounted(l: Ledger, queue: seq<Entry>)
    requires Books(l, queue)
    ensures |l.accepted| == Count(l.fate, Dropped) + Count(l.fate, InFlight) + Count(l.fate, Appended)
      + Count(l.fate, Lost) + |queue|
  {
    CountsAddUp(l.fate);
    CountSuffix(l.fate, Queued, |l.accepted| - |queue|);
  }

  lemma {:induction false} CountsAddUp(fate: seq<Fate>)
    ensures |fate| == Count(fate, Dropped) + Count(fate, InFlight) + Count(fate, Appended) + Count(fate, Lost)
      + Count(fate, Queued)
  {
    if fate != [] { CountsAddUp(fate[..|fate| - 1]); }
  }

  lemma {:induction false} CountSuffix(fate: seq<Fate>, f: Fate, lo: nat)
    requires lo <= |fate|
    requires forall i :: 0 <= i < |fate| ==> (fate[i] == f <==> i >= lo)
    ensures Count(fate, f) == |fate| - lo
  {
    if fate != [] {
      var n := |fate| - 1;
      if lo <= n { CountSuffix(fate[..n], f, lo); } else { CountSuffix(fate[..n], f, n); }
    }
  }

  lemma {:induction false} CountUpdate(fate: seq<Fate>, i: nat, g: Fate, f: Fate)
    requires i < |fate|
    ensures Count(fate[i := g], f) == Count(fate, f) - (if fate[i] == f then 1 else 0) + (if g == f then 1 else 0)
  {
    var n := |fate| - 1;
    if i == n {
      assert fate[i := g][..n] == fate[..n];
    } else {
      assert fate[i := g][..n] == fate[..n][i := g];
      CountUpdate(fate[..n], i, g, f);
    }
  }

  lemma {:induction false} CountSame(a: seq<Fate>, b: seq<Fate>, f: Fate)
    requires |a| == |b| && forall i :: 0 <= i < |a| ==> (a[i] == f <==> b[i] == f)
    ensures Count(a, f) == Count(b, f)
  {
    if a != [] { CountSame(a[..|a| - 1], b[..|b| - 1], f); }
  }

  // ----- what each step does to the books -----

  function Drop(l: Ledger, oldest: nat): Ledger
    requires oldest < |l.fate|
  {
    l.(fate := l.fate[oldest := Dropped])
  }

  function Accept(l: Ledger, e: Entry): Ledger {
    Ledger(l.accepted + [e], l.fate + [Queued], l.batchStart)
  }

  /** One write: the oldest queued entry makes room when the queue is full. */
  function Written(l: Ledger, queued: nat, e: Entry): Ledger
    requires queued <= |l.accepted| == |l.fate|
  {
    Accept(if queued == MAX_QUEUE_SIZE then Drop(l, |l.accepted| - queued) else l, e)
  }

  /** A write is accepted behind all others; only a queue of 5000 gives up a write, its oldest. */
  lemma WrittenMeans(l: Ledger, queued: nat, e: Entry)
    requires queued <= |l.accepted| == |l.fate|
    ensures var l' := Written(l, queued, e);
      && l'.accepted == l.accepted + [e] && |l'.fate| == |l.fate| + 1 && l'.fate[|l.fate|] == Queued
      && l'.batchStart == l.batchStart
      && forall i :: 0 <= i < |l.fate| ==>
           l'.fate[i] == if queued == 5000 && i == |l.accepted| - 5000 then Dropped else l.fate[i]
  {
  }

  function Take(l: Ledger, lo: nat, hi: nat): (r: Ledger)
    ensures r.accepted == l.accepted && |r.fate| == |l.fate| && r.batchStart == lo
    ensures forall i :: 0 <= i < |r.fate| ==> r.fate[i] == if lo <= i < hi then InFlight else l.fate[i]
  {
    l.(fate := seq(|l.fate|, i requires 0 <= i < |l.fate| => if lo <= i < hi then InFlight else l.fate[i]),
        batchStart := lo)
  }

  /** The writes of one file leave flight for good. */
  ghost function Land(l: Ledger, target: Target, path: LogFile): (r: Ledger)
    requires |l.fate| == |l.accepted|
    ensures r.accepted == l.accepted && |r.fate| == |l.fate| && r.batchStart == l.batchStart
    ensures forall i :: 0 <= i < |r.fate| ==>
              r.fate[i] == if l.fate[i] == InFlight && GoesTo(l.accepted[i], target, path) then Appended else l.fate[i]
  {
    l.(fate := seq(|l.fate|, i requires 0 <= i < |l.fate| =>
      if l.fate[i] == InFlight && GoesTo(l.accepted[i], target, path) then Appended else l.fate[i]))
  }

  function Lose(l: Ledger): (r: Ledger)
    ensures r.accepted == l.accepted && |r.fate| == |l.fate| && r.batchStart == l.batchStart
    ensures forall i :: 0 <= i < |r.fate| ==> r.fate[i] == if l.fate[i] == InFlight then Lost else l.fate[i]
  {
    l.(fate := seq(|l.fate|, i requires 0 <= i < |l.fate| => if l.fate[i] == InFlight then Lost else l.fate[i]))
  }

  /** Fates that neither enter nor leave Appended or InFlight keep files and groups. */
  lemma KeepsDisk(l: Ledger, l': Ledger, files: map<LogFile, seq<string>>, pending: Groups, target: Target)
    requires |l.fate| == |l.accepted| == |l'.fate| && l'.accepted == l.accepted && l'.batchStart == l.batchStart
    requires OnDisk(l, files, target) && Carries(l, pending, target)
    requires forall i :: 0 <= i < |l.fate| ==>
               (l'.fate[i] == Appended <==> l.fate[i] == Appended)
               && (l'.fate[i] == InFlight <==> l.fate[i] == InFlight)
    ensures OnDisk(l', files, target) && Carries(l', pending, target)
  {
    forall path ensures LinesAt(l.accepted, l'.fate, Appended, target, path)
        == LinesAt(l.accepted, l.fate, Appended, target, path) {
      LinesAgree(l.accepted, l.fate, Appended, l'.fate, Appended, target, path);
    }
    forall p | p in pending.paths ensures pending.lines[p] == LinesAt(l.accepted, l'.fate, InFlight, target, p) {
      LinesAgree(l.accepted, l.fate, InFlight, l'.fate, InFlight, target, p);
    }
  }

  /** The oldest queued write is dropped. */
  lemma DropKeeps(l: Ledger, queue: seq<Entry>, files: map<LogFile, seq<string>>, pending: Groups, target: Target)
    requires Books(l, queue) && queue != [] && OnDisk(l, files, target) && Carries(l, pending, target)
    ensures var l' := Drop(l, |l.accepted| - |queue|);
      && Books(l', queue[1..]) && OnDisk(l', files, target) && Carries(l', pending, target)
      && Count(l'.fate, Dropped) == Count(l.fate, Dropped) + 1
  {
    var oldest := |l.accepted| - |queue|;
    KeepsDisk(l, Drop(l, oldest), files, pending, target);
    CountUpdate(l.fate, oldest, Dropped, Dropped);
  }

  lemma AcceptKeeps(l: Ledger, queue: seq<Entry>, files: map<LogFile, seq<string>>, pending: Groups, e: Entry,
          target: Target)
    requires Books(l, queue) && OnDisk(l, files, target) && Carries(l, pending, target)
    ensures var l' := Accept(l, e);
      && Books(l', queue + [e]) && OnDisk(l', files, target) && Carries(l', pending, target)
      && Count(l'.fate, Dropped) == Count(l.fate, Dropped)
  {
    var l' := Accept(l, e);
    forall path ensures LinesAt(l'.accepted, l'.fate, Appended, target, path)
        == LinesAt(l.accepted, l.fate, Appended, target, path) {
      AcceptLines(l, e, Appended, target, path);
    }
    forall p | p in pending.paths ensures pending.lines[p] == LinesAt(l'.accepted, l'.fate, InFlight, target, p) {
      AcceptLines(l, e, InFlight, target, p);
    }
    assert l'.fate[..|l.fate|] == l.fate;
  }

  lemma AcceptLines(l: Ledger, e: Entry, f: Fate, target: Target, path: LogFile)
    requires |l.fate| == |l.accepted| && f != Queued
    ensures LinesAt(Accept(l, e).accepted, Accept(l, e).fate, f, target, path)
      == LinesAt(l.accepted, l.fate, f, target, path)
  {
    assert (l.accepted + [e])[..|l.accepted|] == l.accepted && (l.fate + [Queued])[..|l.fate|] == l.fate;
  }

  /** A batch leaves the queue when nothing is in flight. */
  lemma TakeKeeps(l: Ledger, queue: seq<Entry>, k: nat, l': Ledger, groups: Groups, files: map<LogFile, seq<string>>,
          target: Target)
    requires Books(l, queue) && OnDisk(l, files, target) && 0 < k <= |queue|
    requires forall i :: 0 <= i < |l.fate| ==> l.fate[i] != InFlight
    requires l' == Take(l, |l.accepted| - |queue|, |l.accepted| - |queue| + k)
    requires GroupsOf(groups, queue[..k], target)
    ensures Books(l', queue[k..]) && OnDisk(l', files, target) && Carries(l', groups, target) && groups.paths != []
    ensures Count(l'.fate, Dropped) == Count(l.fate, Dropped)
  {
    var lo := |l.accepted| - |queue|;
    TakeBooks(l, queue, k, l');
    TakeDisk(l, files, l', lo, lo + k, target);
    assert queue[..k] == l.accepted[lo..lo + k];
    TakeCarries(l', lo, lo + k, groups, target);
    CountSame(l.fate, l'.fate, Dropped);
  }

  lemma TakeBooks(l: Ledger, queue: seq<Entry>, k: nat, l': Ledger)
    requires Books(l, queue) && k <= |queue|
    requires l' == Take(l, |l.accepted| - |queue|, |l.accepted| - |queue| + k)
    ensures Books(l', queue[k..])
  {
  }

  lemma TakeDisk(l: Ledger, files: map<LogFile, seq<string>>, l': Ledger, lo: nat, hi: nat, target: Target)
    requires |l.fate| == |l.accepted| && lo <= hi <= |l.fate|
    requires forall i :: lo <= i < hi ==> l.fate[i] == Queued
    requires OnDisk(l, files, target) && l' == Take(l, lo, hi)
    ensures OnDisk(l', files, target)
  {
    forall path ensures LinesAt(l.accepted, l'.fate, Appended, target, path)
        == LinesAt(l.accepted, l.fate, Appended, target, path) {
      LinesAgree(l.accepted, l.fate, Appended, l'.fate, Appended, target, path);
    }
  }

  lemma TakeCarries(l: Ledger, lo: nat, hi: nat, groups: Groups, target: Target)
    requires |l.fate| == |l.accepted| && l.batchStart == lo < hi <= |l.fate|
    requires forall i :: 0 <= i < |l.fate| ==> (l.fate[i] == InFlight <==> lo <= i < hi)
    requires forall i :: 0 <= i < |l.fate| && l.fate[i] == Appended ==> i < lo
    requires GroupsOf(groups, l.accepted[lo..hi], target)
    ensures Carries(l, groups, target) && groups.paths != []
  {
    var batch := l.accepted[lo..hi];
    assert forall p :: p in groups.lines <==> p in ToSet(groups.paths);
    forall p | p in groups.paths
        ensures p in groups.lines && groups.lines[p] == LinesAt(l.accepted, l.fate, InFlight, target, p) {
      LinesOfStretch(l.accepted, l.fate, InFlight, lo, hi, target, p);
    }
    forall i | lo <= i < hi ensures ResolveFilePath(target, l.accepted[i].logDate) in groups.paths {
      assert batch[i - lo] == l.accepted[i];
    }
    assert ResolveFilePath(target, batch[0].logDate) in groups.lines;
  }

  /** One file of the batch is appended. */
  lemma LandKeeps(l: Ledger, queue: seq<Entry>, files: map<LogFile, seq<string>>, pending: Groups, target: Target)
    requires Books(l, queue) && OnDisk(l, files, target) && Carries(l, pending, target) && pending.paths != []
    ensures var p := pending.paths[0];
      var l' := Land(l, target, p);
      && Books(l', queue) && Carries(l', pending.(paths := pending.paths[1..]), target)
      && OnDisk(l', files[p := FileAt(files, p) + LinesIn(pending, p)], target)
      && Count(l'.fate, Dropped) == Count(l.fate, Dropped)
  {
    var p := pending.paths[0];
    assert p in pending.paths;
    LandDisk(l, files, p, LinesIn(pending, p), target);
    LandCarries(l, pending, target);
    LandBooks(l, queue, p, target);
    CountSame(l.fate, Land(l, target, p).fate, Dropped);
  }

  lemma LandBooks(l: Ledger, queue: seq<Entry>, p: LogFile, target: Target)
    requires Books(l, queue)
    ensures Books(Land(l, target, p), queue)
  {
  }

  lemma LandCarries(l: Ledger, pending: Groups, target: Target)
    requires |l.fate| == |l.accepted| && Carries(l, pending, target) && pending.paths != []
    ensures Carries(Land(l, target, pending.paths[0]), pending.(paths := pending.paths[1..]), target)
  {
    var p := pending.paths[0];
    var l' := Land(l, target, p);
    forall q | q in pending.paths[1..] ensures pending.lines[q] == LinesAt(l.accepted, l'.fate, InFlight, target, q) {
      assert q in pending.paths && q != p;
      LinesAgree(l.accepted, l.fate, InFlight, l'.fate, InFlight, target, q);
    }
  }

  lemma LandDisk(l: Ledger, files: map<LogFile, seq<string>>, p: LogFile, lines: seq<string>, target: Target)
    requires |l.fate| == |l.accepted| && OnDisk(l, files, target)
    requires forall i :: 0 <= i < |l.fate| && l.fate[i] == InFlight ==> l.batchStart <= i
    requires forall i ::
      0 <= i < |l.fate| && l.fate[i] == Appended && GoesTo(l.accepted[i], target, p) ==> i < l.batchStart
    requires lines == LinesAt(l.accepted, l.fate, InFlight, target, p)
    ensures OnDisk(Land(l, target, p), files[p := FileAt(files, p) + lines], target)
  {
    var l' := Land(l, target, p);
    var files' := files[p := FileAt(files, p) + lines];
    forall path ensures FileAt(files', path) == LinesAt(l.accepted, l'.fate, Appended, target, path) {
      if path == p {
        LinesJoin(l.accepted, l.fate, l'.fate, l.batchStart, target, path);
      } else {
        LinesAgree(l.accepted, l.fate, Appended, l'.fate, Appended, target, path);
      }
    }
  }

  /** The rest of the batch is lost. */
  lemma LoseKeeps(l: Ledger, queue: seq<Entry>, files: map<LogFile, seq<string>>, target: Target)
    requires Books(l, queue) && OnDisk(l, files, target)
    ensures Books(Lose(l), queue) && Carries(Lose(l), Groups([], map[]), target) && OnDisk(Lose(l), files, target)
    ensures Count(Lose(l).fate, Dropped) == Count(l.fate, Dropped)
  {
    var l' := Lose(l);
    forall path ensures LinesAt(l.accepted, l'.fate, Appended, target, path)
        == LinesAt(l.accepted, l.fate, Appended, target, path) {
      LinesAgree(l.accepted, l.fate, Appended, l'.fate, Appended, target, path);
    }
    CountSame(l.fate, l'.fate, Dropped);
  }

  /** The books balance, and the files and the pending appends agree with them. */
  ghost predicate Sound(l: Ledger, queue: seq<Entry>, files: map<LogFile, seq<string>>, pending: Groups,
          target: Target) {
    Books(l, queue) && OnDisk(l, files, target) && Carries(l, pending, target)
  }

  /** Splice a batch off the queue and group it by file, when nothing is in flight. */
  method TakeBatch(ghost l: Ledger, queue: seq<Entry>, ghost files: map<LogFile, seq<string>>, ghost idle: Groups,
          target: Target)
    returns (rest: seq<Entry>, groups: Groups, ghost next: Ledger)
    requires Sound(l, queue, files, idle, target) && idle.paths == [] && queue != []
    ensures |rest| == if |queue| < 200 then 0 else |queue| - 200
    ensures next == Take(l, |l.accepted| - |queue|, |l.accepted| - |rest|)
    ensures Sound(next, rest, files, groups, target) && groups.paths != []
    ensures Count(next.fate, Dropped) == Count(l.fate, Dropped)
  {
    var k := if |queue| < MAX_BATCH_SIZE then |queue| else MAX_BATCH_SIZE;
    groups := GroupByPath(queue[..k], target);
    next := Take(l, |l.accepted| - |queue|, |l.accepted| - |queue| + k);
    TakeKeeps(l, queue, k, next, groups, files, target);
    rest := queue[k..];
  }

  /** The queue after one more write. */
  function Enqueued(queue: seq<Entry>, e: Entry): (r: seq<Entry>)
    ensures |r| == if |queue| == MAX_QUEUE_SIZE then MAX_QUEUE_SIZE else |queue| + 1
  {
    (if |queue| == MAX_QUEUE_SIZE then queue[1..] else queue) + [e]
  }

  lemma WrittenKeeps(l: Ledger, queue: seq<Entry>, files: map<LogFile, seq<string>>, pending: Groups, e: Entry,
          target: Target)
    requires Sound(l, queue, files, pending, target)
    ensures Sound(Written(l, |queue|, e), Enqueued(queue, e), files, pending, target)
    ensures Count(Written(l, |queue|, e).fate, Dropped) == Count(l.fate, Dropped) + if |queue| == MAX_QUEUE_SIZE
      then 1 else 0
  {
    if |queue| == MAX_QUEUE_SIZE {
      var dropped := Drop(l, |l.accepted| - |queue|);
      DropKeeps(l, queue, files, pending, target);
      assert Sound(dropped, queue[1..], files, pending, target);
      AcceptKeeps(dropped, queue[1..], files, pending, e, target);
      assert Written(l, |queue|, e) == Accept(dropped, e);
    } else {
      AcceptKeeps(l, queue, files, pending, e, target);
      assert Written(l, |queue|, e) == Accept(l, e);
    }
  }
}
