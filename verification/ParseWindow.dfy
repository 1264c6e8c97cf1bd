/** The bounded parse window of `indexAll`: parses settle in any order, results are
    committed in file order. A step is what runs between two awaits. */
module ParseWindow {
  import opened Collections
  import opened GraphTables
  import opened IndexProgress

  /** `parsing` holds the sequence numbers whose parse has not settled; `inFlight` the
      tracked promises, each removed some time after its parse settled. `waiting` is the
      feeding loop sitting in the backpressure loop of `feed`. `log` lists the effects so
      far: commits to the database and refusals counted by the feeding loop. */
  datatype Window = Window(
    pos: nat,
    nextSeq: nat,
    nextToStore: nat,
    parsing: set<nat>,
    inFlight: set<nat>,
    completed: map<nat, Job>,
    waiting: bool,
    aborted: bool,
    drained: bool,
    log: seq<Event>)

  datatype Step =
    | RefuseFile          // unreadable or too large: counted by the feeding loop
    | Dispatch            // `feed` up to its first await
    | Settle(k: nat)      // `completed.set` and `flushOrdered`, no await between them
    | Untrack(k: nat)     // the `finally` of a settled parse
    | Resume              // the backpressure loop finds room
    | Abort               // the feeding loop sees the signal
    | Drain               // all tracked promises are done: the last flush

  const INIT := Window(0, 0, 0, {}, {}, map[], false, false, false, [])

  function Flush(w: Window): Window
    decreases |w.completed|
  {
    if !w.aborted && w.nextToStore in w.completed then
      FlushShrinks(w);
      Flush(CommitNext(w))
    else w
  }

  lemma FlushShrinks(w: Window)
    requires w.nextToStore in w.completed
    ensures |w.completed - {w.nextToStore}| < |w.completed|
  {
    assert (w.completed - {w.nextToStore}).Keys == w.completed.Keys - {w.nextToStore};
    assert |w.completed.Keys - {w.nextToStore}| == |w.completed.Keys| - 1;
  }

  predicate Enabled(files: seq<FileInput>, windowSize: nat, w: Window, step: Step) {
    match step
    case RefuseFile =>
      !w.waiting && !w.aborted && !w.drained && w.pos < |files| && !IndexProgress.Dispatched(files[w.pos])
    case Dispatch =>
      !w.waiting && !w.aborted && !w.drained && w.pos < |files| && IndexProgress.Dispatched(files[w.pos])
    case Settle(k) => k in w.parsing
    case Untrack(k) => k in w.inFlight && k !in w.parsing
    case Resume => w.waiting && (w.nextSeq - w.nextToStore < windowSize || w.inFlight == {})
    case Abort => !w.waiting && !w.aborted && !w.drained && w.pos < |files|
    case Drain => !w.waiting && !w.aborted && !w.drained && w.pos == |files| && w.inFlight == {}
  }

  /** `completed.set`: the job is the one that the closure of `feed` keeps for `k`. */
  function Settled(files: seq<FileInput>, w: Window, k: nat): Window
    requires k < |Jobs(files)|
  {
    w.(parsing := w.parsing - {k}, completed := w.completed[k := Jobs(files)[k]])
  }

  ghost predicate Next(files: seq<FileInput>, windowSize: nat, w: Window, step: Step, w': Window) {
    Enabled(files, windowSize, w, step) &&
    match step
    case RefuseFile => w' == w.(pos := w.pos + 1, log := w.log + [Refused(files[w.pos])])
    case Dispatch => w' == Started(w)
    case Settle(k) => k < |Jobs(files)| &&
                      w' == Flush(Settled(files, w, k))
    case Untrack(k) => w' == w.(inFlight := w.inFlight - {k})
    case Resume => w' == w.(waiting := false)
    case Abort => w' == w.(aborted := true)
    case Drain => w' == Flush(w).(drained := true)
  }

  // --------------------------------------------------------------- invariant

  /** Between flushes: what is committed, what is buffered and what is still parsing
      make up the dispatched files. */
  ghost predicate Structure(files: seq<FileInput>, w: Window) {
    && w.pos <= |files|
    && w.nextSeq == |Jobs(files[..w.pos])|
    && w.nextToStore <= w.nextSeq <= |Jobs(files)|
    && Jobs(files[..w.pos]) == Jobs(files)[..w.nextSeq]
    && (forall k :: k in w.completed ==> k < w.nextSeq && w.completed[k] == Jobs(files)[k])
    && (forall k :: k in w.parsing ==> k in w.inFlight)
    && (forall k :: k in w.inFlight ==> k < w.nextSeq)
    && (!w.aborted ==> forall k :: w.nextToStore <= k < w.nextSeq ==> (k in w.completed <==> k !in w.parsing))
    && (!w.aborted ==> forall k :: k in w.parsing || k in w.completed ==> w.nextToStore <= k)
  }

  /** The commits so far are the first dispatched files, in file order, and the refusals
      are those of the files passed. */
  ghost predicate Ledger(files: seq<FileInput>, w: Window) {
    && w.nextToStore <= |Jobs(files)| && w.pos <= |files|
    && Sound(w.log)
    && CommittedOf(w.log) == Jobs(files)[..w.nextToStore]
    && RefusedOf(w.log) == RefusedFiles(files[..w.pos])
  }

  ghost predicate Inv(files: seq<FileInput>, windowSize: nat, w: Window) {
    && Structure(files, w) && Ledger(files, w)
    && (!w.aborted ==> w.nextToStore !in w.completed)
    && w.nextSeq - w.nextToStore <= windowSize
    && (!w.waiting && !w.aborted ==> w.nextSeq - w.nextToStore < windowSize)
    && (w.drained ==> !w.aborted && w.pos == |files| && w.inFlight == {})
    && (w.aborted ==> !w.waiting)
  }

  lemma {:induction false} JobsPrefix(files: seq<FileInput>, n: nat)
    requires n <= |files|
    ensures |Jobs(files[..n])| <= |Jobs(files)|
    ensures Jobs(files[..n]) == Jobs(files)[..|Jobs(files[..n])|]
  {
    if n < |files| {
      JobsPrefix(files[..|files| - 1], n);
      assert files[..|files| - 1][..n] == files[..n];
    } else {
      assert files[..n] == files;
    }
  }

  /** One round of `flushOrdered`. */
  function CommitNext(w: Window): Window
    requires w.nextToStore in w.completed
  {
    w.(completed := w.completed - {w.nextToStore},
       nextToStore := w.nextToStore + 1,
       log := w.log + [Committed(w.completed[w.nextToStore])])
  }

  lemma CommitNextLedger(files: seq<FileInput>, w: Window)
    requires Structure(files, w) && Ledger(files, w) && w.nextToStore in w.completed
    ensures Ledger(files, CommitNext(w))
  {
    var k, job := w.nextToStore, w.completed[w.nextToStore];
    assert Jobs(files)[..k + 1] == Jobs(files)[..k] + [job];
    assert (w.log + [Committed(job)])[..|w.log|] == w.log;
  }

  lemma {:induction false} FlushLedger(files: seq<FileInput>, w: Window)
    requires Structure(files, w) && Ledger(files, w)
    ensures Ledger(files, Flush(w))
    decreases |w.completed|
  {
    if !w.aborted && w.nextToStore in w.completed {
      FlushShrinks(w);
      CommitNextStructure(files, w);
      CommitNextLedger(files, w);
      FlushLedger(files, CommitNext(w));
    }
  }

  lemma CommitNextStructure(files: seq<FileInput>, w: Window)
    requires Structure(files, w) && w.nextToStore in w.completed
    ensures Structure(files, CommitNext(w))
  {
  }

  /** A flush moves the cursor over the contiguous run of settled files and stops at the
      first one that is missing. */
  lemma {:induction false} FlushStructure(files: seq<FileInput>, w: Window)
    requires Structure(files, w)
    ensures Structure(files, Flush(w))
    ensures !w.aborted ==> Flush(w).nextToStore !in Flush(w).completed
    ensures w.nextToStore <= Flush(w).nextToStore
    ensures Flush(w) == w.(nextToStore := Flush(w).nextToStore, completed := Flush(w).completed, log := Flush(w).log)
    ensures w.aborted ==> Flush(w) == w
    decreases |w.completed|
  {
    if !w.aborted && w.nextToStore in w.completed {
      FlushShrinks(w);
      CommitNextStructure(files, w);
      FlushStructure(files, CommitNext(w));
    }
  }

  lemma InitInv(files: seq<FileInput>, windowSize: nat)
    requires windowSize >= 1
    ensures Inv(files, windowSize, INIT)
  {
    assert files[..0] == [];
    assert Jobs(files)[..0] == [];
  }

  lemma StepInv(files: seq<FileInput>, windowSize: nat, w: Window, step: Step, w': Window)
    requires windowSize >= 1
    requires Inv(files, windowSize, w) && Next(files, windowSize, w, step, w')
    ensures Inv(files, windowSize, w')
  {
    match step
    case RefuseFile => RefuseInv(files, windowSize, w);
    case Dispatch => DispatchInv(files, windowSize, w);
    case Settle(k) => SettleInv(files, windowSize, w, k);
    case Untrack(k) =>
    case Resume => FullWindowWaits(files, windowSize, w);
    case Abort =>
    case Drain => DrainInv(files, windowSize, w);
  }

  lemma RefuseInv(files: seq<FileInput>, windowSize: nat, w: Window)
    requires Inv(files, windowSize, w) && Enabled(files, windowSize, w, RefuseFile)
    ensures Inv(files, windowSize, w.(pos := w.pos + 1, log := w.log + [Refused(files[w.pos])]))
  {
    FeedStructure(files, w);
    FeedLedger(files, w);
  }

  /** `feed` up to its first await. */
  function Started(w: Window): Window {
    w.(pos := w.pos + 1, nextSeq := w.nextSeq + 1, waiting := true,
       parsing := w.parsing + {w.nextSeq}, inFlight := w.inFlight + {w.nextSeq})
  }

  lemma DispatchInv(files: seq<FileInput>, windowSize: nat, w: Window)
    requires Inv(files, windowSize, w) && Enabled(files, windowSize, w, Dispatch)
    ensures Inv(files, windowSize, Started(w))
  {
    FeedStructure(files, w);
    FeedLedger(files, w);
    StartedStructure(files, w);
  }

  lemma StartedStructure(files: seq<FileInput>, w: Window)
    requires Structure(files, w) && w.pos < |files| && !w.aborted
    requires |Jobs(files[..w.pos + 1])| == w.nextSeq + 1 <= |Jobs(files)|
    requires Jobs(files[..w.pos + 1]) == Jobs(files)[..w.nextSeq + 1]
    ensures Structure(files, Started(w))
  {
  }

  lemma DrainInv(files: seq<FileInput>, windowSize: nat, w: Window)
    requires Inv(files, windowSize, w) && Enabled(files, windowSize, w, Drain)
    ensures Inv(files, windowSize, Flush(w).(drained := true))
  {
    FlushStructure(files, w);
    FlushLedger(files, w);
  }

  lemma SettleInv(files: seq<FileInput>, windowSize: nat, w: Window, k: nat)
    requires Inv(files, windowSize, w) && k in w.parsing
    ensures k < |Jobs(files)|
    ensures Inv(files, windowSize, Flush(Settled(files, w, k)))
  {
    SettledStructure(files, w, k);
    FlushStructure(files, Settled(files, w, k));
    FlushLedger(files, Settled(files, w, k));
  }

  lemma SettledStructure(files: seq<FileInput>, w: Window, k: nat)
    requires Structure(files, w) && k in w.parsing
    ensures k < |Jobs(files)|
    ensures Structure(files, Settled(files, w, k))
  {
  }

  lemma FeedStructure(files: seq<FileInput>, w: Window)
    requires w.pos < |files|
    ensures var x := files[w.pos];
      && Jobs(files[..w.pos + 1]) == Jobs(files[..w.pos]) + (if IndexProgress.Dispatched(x) then [x.job] else [])
      && |Jobs(files[..w.pos + 1])| <= |Jobs(files)|
      && Jobs(files[..w.pos + 1]) == Jobs(files)[..|Jobs(files[..w.pos + 1])|]
  {
    assert files[..w.pos + 1][..w.pos] == files[..w.pos];
    JobsPrefix(files, w.pos + 1);
  }

  lemma FeedLedger(files: seq<FileInput>, w: Window)
    requires w.pos < |files|
    ensures var x := files[w.pos];
      && RefusedFiles(files[..w.pos + 1]) ==
         RefusedFiles(files[..w.pos]) + (if IndexProgress.Dispatched(x) then [] else [x])
      && RefusedOf(w.log + [Refused(x)]) == RefusedOf(w.log) + [x]
      && CommittedOf(w.log + [Refused(x)]) == CommittedOf(w.log)
  {
    assert files[..w.pos + 1][..w.pos] == files[..w.pos];
    assert (w.log + [Refused(files[w.pos])])[..|w.log|] == w.log;
  }

  /** Whenever the window is full, the file at the commit cursor is still being parsed,
      so `Promise.race` is never handed an empty set. */
  lemma FullWindowWaits(files: seq<FileInput>, windowSize: nat, w: Window)
    requires windowSize >= 1 && Inv(files, windowSize, w) && w.waiting
    ensures w.nextSeq - w.nextToStore >= windowSize ==> w.nextToStore in w.parsing && w.nextToStore in w.inFlight
    ensures w.inFlight == {} ==> w.nextSeq == w.nextToStore
  {
  }

  /** The out-of-order buffer stays below the window size. */
  lemma BufferBound(files: seq<FileInput>, windowSize: nat, w: Window)
    requires windowSize >= 1 && Inv(files, windowSize, w) && !w.aborted
    ensures w.nextSeq - w.nextToStore <= windowSize
    ensures |w.completed| <= windowSize - 1
  {
    var keys := w.completed.Keys;
    if w.nextSeq == w.nextToStore {
      assert keys == {};
    } else {
      BoundedCard(keys, w.nextToStore + 1, w.nextSeq);
    }
    assert |keys| == |w.completed|;
  }

  // -------------------------------------------------------------------- runs

  /** `trace` is a run: it starts in the initial state and every step is allowed. */
  ghost predicate IsRun(files: seq<FileInput>, windowSize: nat, trace: seq<Window>, steps: seq<Step>) {
    && |trace| == |steps| + 1
    && trace[0] == INIT
    && forall i :: 0 <= i < |steps| ==> Next(files, windowSize, trace[i], steps[i], trace[i + 1])
  }

  lemma {:induction false} RunInv(files: seq<FileInput>, windowSize: nat,
                                  trace: seq<Window>, steps: seq<Step>, n: nat)
    requires windowSize >= 1 && IsRun(files, windowSize, trace, steps) && n <= |steps|
    ensures Inv(files, windowSize, trace[n])
  {
    if n == 0 {
      InitInv(files, windowSize);
    } else {
      RunInv(files, windowSize, trace, steps, n - 1);
      StepInv(files, windowSize, trace[n - 1], steps[n - 1], trace[n]);
    }
  }

  /** For every interleaving that drains: the commits are the dispatched files, each once
      and in file order, and the database, the counters and the retry list are those of
      the one-worker loop; only the order of the other errors may differ. */
  lemma DrainedRefinesSequential(files: seq<FileInput>, windowSize: nat, t: Tables,
                                 trace: seq<Window>, steps: seq<Step>)
    requires windowSize >= 1 && IsRun(files, windowSize, trace, steps)
    requires trace[|steps|].drained
    ensures var w := trace[|steps|];
      && w.nextToStore == w.nextSeq == |Jobs(files)|
      && CommittedOf(w.log) == Jobs(files)
      && Sound(w.log)
      && SameOutcome(Replay(t, w.log), Sequential(t, files))
      && Accounted(Replay(t, w.log)) == |files|
  {
    var w := trace[|steps|];
    RunInv(files, windowSize, trace, steps, |steps|);
    assert files[..|files|] == files;
    assert w.nextToStore < w.nextSeq ==> w.nextToStore in w.completed;
    assert Jobs(files)[..|Jobs(files)|] == Jobs(files);
    SequentialProjections(files);
    SequentialAccounts(t, files);
    SameProjections(t, w.log, SequentialLog(files));
  }

  ghost predicate SameOutcome(p: Progress, s: Progress) {
    && p.tables == s.tables
    && p.indexed == s.indexed && p.skipped == s.skipped && p.errored == s.errored
    && p.processed == s.processed && p.nodes == s.nodes && p.edges == s.edges
    && multiset(p.errors) == multiset(s.errors)
    && RetryList(p.errors) == RetryList(s.errors)
  }

  lemma SameProjections(t: Tables, a: seq<Event>, b: seq<Event>)
    requires Sound(a) && Sound(b)
    requires CommittedOf(a) == CommittedOf(b) && RefusedOf(a) == RefusedOf(b)
    ensures SameOutcome(Replay(t, a), Replay(t, b))
  {
    ReplaySplits(t, a);
    ReplaySplits(t, b);
  }

  /** Once the abort is seen, no step commits, counts or reports anything. */
  lemma {:induction false} AbortFreezes(files: seq<FileInput>, windowSize: nat,
                                        trace: seq<Window>, steps: seq<Step>, m: nat, n: nat)
    requires windowSize >= 1 && IsRun(files, windowSize, trace, steps)
    requires m <= n <= |steps| && trace[m].aborted
    ensures trace[n].aborted && trace[n].log == trace[m].log
    decreases n - m
  {
    if m < n {
      AbortFreezes(files, windowSize, trace, steps, m, n - 1);
      assert Next(files, windowSize, trace[n - 1], steps[n - 1], trace[n]);
      if steps[n - 1].Settle? {
        var w1 := Settled(files, trace[n - 1], steps[n - 1].k);
        assert Flush(w1) == w1;
      }
    }
  }

  // ---------------------------------------------------- progress, termination

  function B(b: bool): nat { if b then 1 else 0 }

  function Remaining(files: seq<FileInput>, w: Window): int {
    5 * (|files| - w.pos) + 2 * |w.parsing| + |w.inFlight| + B(w.waiting) + B(!w.aborted) + B(!w.drained)
  }

  /** Every step uses up part of a finite budget, so no run goes on forever. */
  lemma StepsRunOut(files: seq<FileInput>, windowSize: nat, w: Window, step: Step, w': Window)
    requires windowSize >= 1
    requires Inv(files, windowSize, w) && Next(files, windowSize, w, step, w')
    ensures 0 <= Remaining(files, w') < Remaining(files, w)
  {
    StepInv(files, windowSize, w, step, w');
    match step
    case Dispatch =>
      assert w.nextSeq !in w.parsing && w.nextSeq !in w.inFlight;
    case Settle(k) => SettleUsesUp(files, w, k);
    case Untrack(k) =>
      assert |w.inFlight - {k}| == |w.inFlight| - 1;
    case Drain => FlushStructure(files, w);
    case RefuseFile =>
    case Resume =>
    case Abort =>
  }

  lemma SettleUsesUp(files: seq<FileInput>, w: Window, k: nat)
    requires Structure(files, w) && k in w.parsing
    ensures k < |Jobs(files)| && Remaining(files, Flush(Settled(files, w, k))) == Remaining(files, w) - 2
  {
    FlushStructure(files, Settled(files, w, k));
    assert |w.parsing - {k}| == |w.parsing| - 1;
  }

  /** The window never deadlocks: until it has drained or seen an abort, some step other
      than an abort is possible. */
  lemma NoDeadlock(files: seq<FileInput>, windowSize: nat, w: Window)
    requires windowSize >= 1 && Inv(files, windowSize, w)
    requires !w.drained && !w.aborted
    ensures exists step :: step != Abort && Enabled(files, windowSize, w, step)
  {
    if w.parsing != {} {
      var k :| k in w.parsing;
      assert Enabled(files, windowSize, w, Settle(k));
    } else if w.inFlight != {} {
      var k :| k in w.inFlight;
      assert Enabled(files, windowSize, w, Untrack(k));
    } else if w.waiting {
      assert Enabled(files, windowSize, w, Resume);
    } else if w.pos == |files| {
      assert Enabled(files, windowSize, w, Drain);
    } else if IndexProgress.Dispatched(files[w.pos]) {
      assert Enabled(files, windowSize, w, Dispatch);
    } else {
      assert Enabled(files, windowSize, w, RefuseFile);
    }
  }
}
