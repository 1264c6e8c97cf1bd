/** The closures of `indexAll` over their shared variables. Each method is one stretch
    between awaits, and has exactly the effect of the corresponding step of the window. */
module IndexRun {
  import opened Collections
  import opened GraphTables
  import opened StoreExtraction
  import opened IndexProgress
  import opened ParseWindow

  class IndexAll {
    var pos: nat
    var nextSeq: nat
    var nextToStore: nat
    var parsing: set<nat>
    var inFlight: set<nat>
    var completed: map<nat, Job>
    var waiting: bool
    var aborted: bool
    var drained: bool
    var progress: Progress
    ghost var log: seq<Event>
    ghost const start: Tables

    ghost function View(): Window
      reads this
    {
      Window(pos, nextSeq, nextToStore, parsing, inFlight, completed, waiting, aborted, drained, log)
    }

    /** The counters, errors and tables are those of the effects so far. */
    ghost predicate Valid()
      reads this
    {
      Sound(log) && progress == Replay(start, log)
    }

    constructor (t: Tables)
      ensures Valid() && View() == INIT && start == t && progress == Start(t)
    {
      pos, nextSeq, nextToStore := 0, 0, 0;
      parsing, inFlight, completed := {}, {}, map[];
      waiting, aborted, drained := false, false, false;
      progress, log, start := Start(t), [], t;
    }

    /** `storeResult`. */
    method StoreResult(job: Job, result: ExtractionResult)
      modifies this`progress
      ensures progress == IndexProgress.StoreResult(old(progress), job, result)
    {
      var p := progress.(processed := progress.processed + 1);
      if result.nodes != [] || result.errors == [] {
        p := p.(tables := Store(p.tables, job.path, job.content, job.language, job.stats, result));
      }
      p := p.(errors := p.errors + WithPath(result.errors, job.path));
      if result.nodes != [] {
        p := p.(indexed := p.indexed + 1, nodes := p.nodes + |result.nodes|, edges := p.edges + |result.edges|);
      } else if exists e :: e in result.errors && e.isError {
        p := p.(errored := p.errored + 1);
      } else if job.fileLevelOnly {
        p := p.(indexed := p.indexed + 1);
      } else {
        p := p.(skipped := p.skipped + 1);
      }
      progress := p;
    }

    method CommitJob(job: Job)
      requires Valid()
      modifies this`progress, this`log
      ensures Valid() && log == old(log) + [Committed(job)]
    {
      match job.outcome {
        case Resolved(result) => StoreResult(job, result);
        case Rejected(message) => progress := RecordParseFailure(progress, job.path, message);
      }
      ReplayCommit(start, log, job);
      log := log + [Committed(job)];
    }

    /** The body of the loop of `flushOrdered`. */
    method CommitCursor()
      requires Valid() && nextToStore in completed
      modifies this`completed, this`nextToStore, this`progress, this`log
      ensures Valid() && View() == CommitNext(old(View()))
    {
      var item := completed[nextToStore];
      completed := completed - {nextToStore};
      nextToStore := nextToStore + 1;
      CommitJob(item);
    }

    /** `flushOrdered`. */
    method FlushOrdered()
      requires Valid()
      modifies this`completed, this`nextToStore, this`progress, this`log
      ensures Valid() && View() == Flush(old(View()))
    {
      if aborted {
        return;
      }
      while nextToStore in completed
        invariant Valid() && Flush(View()) == Flush(old(View()))
        invariant !aborted
        decreases |completed|
      {
        FlushShrinks(View());
        CommitCursor();
      }
    }

    /** The body of the tracked promise once its parse has settled. */
    method SettleParse(files: seq<FileInput>, windowSize: nat, k: nat)
      requires Valid() && k in parsing && k < |Jobs(files)|
      modifies this`parsing, this`completed, this`nextToStore, this`progress, this`log
      ensures Valid() && Next(files, windowSize, old(View()), Settle(k), View())
    {
      parsing := parsing - {k};
      completed := completed[k := Jobs(files)[k]];
      assert View() == Settled(files, old(View()), k);
      FlushOrdered();
    }

    /** `feed` up to its first await. */
    method Feed(files: seq<FileInput>, windowSize: nat)
      requires Valid() && Enabled(files, windowSize, View(), Dispatch)
      modifies this`nextSeq, this`pos, this`parsing, this`inFlight, this`waiting
      ensures Valid() && Next(files, windowSize, old(View()), Dispatch, View())
    {
      var seqNo := nextSeq;
      nextSeq := nextSeq + 1;
      pos := pos + 1;
      parsing := parsing + {seqNo};
      inFlight := inFlight + {seqNo};
      waiting := true;
    }

    method CountRefusal(x: FileInput)
      requires !IndexProgress.Dispatched(x)
      modifies this`progress
      ensures progress == Refuse(old(progress), x)
    {
      var p := progress.(processed := progress.processed + 1);
      if x.Unreadable? {
        p := p.(errored := p.errored + 1);
      } else {
        p := p.(skipped := p.skipped + 1);
      }
      progress := p.(errors := p.errors + [RefusalError(x)]);
    }

    /** A file that could not be read, or is too large, is counted and passed over. */
    method PassOver(files: seq<FileInput>, windowSize: nat)
      requires Valid() && Enabled(files, windowSize, View(), RefuseFile)
      modifies this`pos, this`progress, this`log
      ensures Valid() && Next(files, windowSize, old(View()), RefuseFile, View())
    {
      var x := files[pos];
      CountRefusal(x);
      ReplayRefuse(start, log, x);
      log := log + [Refused(x)];
      pos := pos + 1;
    }

    /** After the loop: every tracked promise is done, so one more flush commits the rest. */
    method DrainAll(files: seq<FileInput>, windowSize: nat)
      requires Valid() && Enabled(files, windowSize, View(), Drain)
      modifies this
      ensures Valid() && Next(files, windowSize, old(View()), Drain, View())
    {
      FlushOrdered();
      drained := true;
    }
  }

  lemma ReplayCommit(t: Tables, log: seq<Event>, job: Job)
    requires Sound(log)
    ensures Sound(log + [Committed(job)])
    ensures Replay(t, log + [Committed(job)]) == Commit(Replay(t, log), job)
  {
    assert (log + [Committed(job)])[..|log|] == log;
  }

  lemma ReplayRefuse(t: Tables, log: seq<Event>, x: FileInput)
    requires Sound(log) && !IndexProgress.Dispatched(x)
    ensures Sound(log + [Refused(x)])
    ensures Replay(t, log + [Refused(x)]) == Refuse(Replay(t, log), x)
  {
    assert (log + [Refused(x)])[..|log|] == log;
  }
}
