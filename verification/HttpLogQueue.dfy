// The bounded HTTP log queue: writes, a timer and file appends interleave; each method below is
// one uninterrupted stretch of the event loop, so every interleaving is a sequence of calls.
module HttpLogQueue {
  import opened HttpLogLedger

  class HttpFileLogger {
    const enabled: bool
    const target: Target
    var queue: seq<Entry>
    var flushing: bool
    var droppedSinceLastWarn: nat
    var pending: Groups              // the appends the running flush still has to make
    var files: map<LogFile, seq<string>>  // what the appends have written
    ghost var ledger: Ledger

    constructor (enabled: bool, target: Target)
      ensures Valid() && ledger == Ledger([], [], 0) && files == map[]
      ensures this.enabled == enabled && this.target == target
    {
      this.enabled, this.target := enabled, target;
      queue, flushing, droppedSinceLastWarn, pending, files := [], false, 0, Groups([], map[]), map[];
      ledger := Ledger([], [], 0);
    }

    /** The books balance, files and pending appends agree with them, and at most one batch
        is in flight. */
    ghost predicate Balanced()
      reads this
    {
      && Sound(ledger, queue, files, pending, target)
      && |queue| <= MAX_QUEUE_SIZE
      && (flushing <==> pending.paths != [])
      && droppedSinceLastWarn == Count(ledger.fate, Dropped)
    }

    /** Between two stretches a queue that could fill a batch is always being flushed. */
    ghost predicate Valid()
      reads this
    {
      Balanced() && (!flushing ==> |queue| < MAX_BATCH_SIZE)
    }

    /** A full queue gives up its oldest entry, which happens only while a batch is in flight;
        a queue that now fills a batch starts a flush if none is running. */
    method Write(e: Entry)
      requires Valid()
      modifies this
      ensures Valid() && files == old(files)
      ensures !enabled ==> unchanged(this)
      ensures enabled && |old(queue)| == 5000 ==> old(flushing)
      ensures enabled ==> var l := Written(old(ledger), |old(queue)|, e);
                ledger == if !old(flushing) && |old(queue)| + 1 == 200
                    then Take(l, |l.accepted| - 200, |l.accepted|) else l
    {
      if !enabled {
        return;
      }
      Enqueue(e);
      if |queue| >= MAX_BATCH_SIZE {
        Flush();
      }
    }

    method Enqueue(e: Entry)
      requires Valid()
      modifies this`queue, this`droppedSinceLastWarn, this`ledger
      ensures Balanced() && ledger == Written(old(ledger), |old(queue)|, e) && queue == Enqueued(old(queue), e)
    {
      ghost var queued := queue;
      Push(e);
      WrittenKeeps(ledger, queued, files, pending, e, target);
      ledger := Written(ledger, |queued|, e);
    }

    /** Drop the oldest entry of a full queue, then append. */
    method Push(e: Entry)
      requires |queue| <= MAX_QUEUE_SIZE
      modifies this`queue, this`droppedSinceLastWarn
      ensures queue == Enqueued(old(queue), e)
      ensures droppedSinceLastWarn == old(droppedSinceLastWarn) + if |old(queue)| >= MAX_QUEUE_SIZE then 1 else 0
    {
      if |queue| >= MAX_QUEUE_SIZE {
        queue := queue[1..];
        droppedSinceLastWarn := droppedSinceLastWarn + 1;
      }
      queue := queue + [e];
    }

    /** The part of flush before its first await. */
    method Flush()
      requires Balanced()
      modifies this
      ensures Valid()
      ensures files == old(files)
      ensures old(flushing) || old(queue) == [] ==> unchanged(this)
      ensures !old(flushing) && old(queue) != [] ==>
                && flushing && |queue| == (if |old(queue)| < 200 then 0 else |old(queue)| - 200)
                && ledger == Take(old(ledger), |old(ledger.accepted)| - |old(queue)|, |old(ledger.accepted)| - |queue|)
    {
      if flushing || |queue| == 0 {
        return;
      }
      flushing := true;
      queue, pending, ledger := TakeBatch(ledger, queue, files, pending, target);
    }

    /** The finally block: the flush is over, and what queued up meanwhile starts the next one. */
    method FinishFlush()
      requires flushing && pending.paths == [] && |queue| <= MAX_QUEUE_SIZE
      requires Sound(ledger, queue, files, pending, target)
      requires droppedSinceLastWarn == Count(ledger.fate, Dropped)
      modifies this
      ensures Valid() && files == old(files)
      ensures flushing <==> old(queue) != []
      ensures |queue| <= |old(queue)| <= |old(ledger.accepted)|
      ensures ledger == if old(queue) == [] then old(ledger)
                        else Take(old(ledger), |old(ledger.accepted)| - |old(queue)|, |old(ledger.accepted)| - |queue|)
    {
      flushing := false;
      if |queue| > 0 {
        Flush();
      }
    }

    /** The next append of the running flush succeeds; after the last one the flush finishes. */
    method AppendSucceeds()
      requires Valid() && flushing
      modifies this
      ensures Valid()
      ensures ledger.accepted == old(ledger.accepted)
      ensures forall i :: 0 <= i < |ledger.fate| && old(ledger.fate)[i] != Queued ==>
                ledger.fate[i] == Land(old(ledger), target, old(pending.paths)[0]).fate[i]
      ensures var p := old(pending.paths)[0]; files == old(files)[p := FileAt(old(files), p) + LinesIn(old(pending), p)]
    {
      LandKeeps(ledger, queue, files, pending, target);
      var p := pending.paths[0];
      files := files[p := FileAt(files, p) + LinesIn(pending, p)];
      ledger := Land(ledger, target, p);
      pending := pending.(paths := pending.paths[1..]);
      if |pending.paths| == 0 {
        FinishFlush();
      }
    }

    /** Creating the directory or appending fails: the lines not yet appended are lost. */
    method AppendFails()
      requires Valid() && flushing
      modifies this
      ensures Valid() && files == old(files)
      ensures ledger.accepted == old(ledger.accepted)
      ensures forall i ::
        0 <= i < |ledger.fate| && old(ledger.fate)[i] != Queued ==> ledger.fate[i] == Lose(old(ledger)).fate[i]
    {
      LoseKeeps(ledger, queue, files, target);
      ledger := Lose(ledger);
      pending := Groups([], map[]);
      FinishFlush();
    }
  }
}
