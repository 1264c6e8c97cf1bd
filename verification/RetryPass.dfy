/** The two retry passes after the window has drained, and the completeness check that
    `CodeGraph.indexAll` makes on the final counters. */
module RetryPass {
  import opened Collections
  import opened GraphTables
  import opened StoreExtraction
  import opened IndexProgress
  import ParseWindow

  /** What became of one retried file. `Unavailable` is a blocked path or a failed read. */
  datatype Attempt =
    | Unavailable
    | Crashes
    | Parses(content: string, language: string, stats: Stats, result: ExtractionResult)

  predicate Succeeds(a: Attempt) {
    a.Parses? && (a.result.nodes != [] || a.result.errors == [])
  }

  /** `errors.indexOf(errEntry)` and `splice`. */
  function RemoveFirst<T(==)>(s: seq<T>, x: T): seq<T> {
    if s == [] then [] else if s[0] == x then s[1..] else [s[0]] + RemoveFirst(s[1..], x)
  }

  function RetryOne(p: Progress, e: ExtractionError, a: Attempt): Progress
    requires e.filePath.Some?
  {
    if Succeeds(a) then
      p.(tables := Store(p.tables, e.filePath.value, a.content, a.language, a.stats, a.result),
         errors := RemoveFirst(p.errors, e),
         errored := p.errored - 1, indexed := p.indexed + 1,
         nodes := p.nodes + |a.result.nodes|, edges := p.edges + |a.result.edges|)
    else p
  }

  /** The entries come from the retry list, so each has a path. `attempts` may be shorter
      than `entries`: an abort ends the pass early. */
  ghost predicate Pairs(entries: seq<ExtractionError>, attempts: seq<Attempt>) {
    && |attempts| <= |entries|
    && forall e :: e in entries ==> e.filePath.Some?
  }

  function Retry(p: Progress, entries: seq<ExtractionError>, attempts: seq<Attempt>): Progress
    requires Pairs(entries, attempts)
    decreases |attempts|
  {
    if attempts == [] then p
    else
      var n := |attempts| - 1;
      RetryOne(Retry(p, entries, attempts[..n]), entries[n], attempts[n])
  }

  /** `stillFailing`: the files that crashed their worker again. */
  function StillFailing(entries: seq<ExtractionError>, attempts: seq<Attempt>): (r: seq<ExtractionError>)
    requires Pairs(entries, attempts)
    ensures forall e :: e in r ==> e in entries
    decreases |attempts|
  {
    if attempts == [] then []
    else
      var n := |attempts| - 1;
      var init := StillFailing(entries, attempts[..n]);
      if attempts[n].Crashes? then init + [entries[n]] else init
  }

  /** Both passes; the second one sees only the files that failed the first. */
  function RetryBoth(p: Progress, first: seq<Attempt>, second: seq<Attempt>): Progress
    requires Pairs(RetryList(p.errors), first)
    requires Pairs(StillFailing(RetryList(p.errors), first), second)
  {
    var entries := RetryList(p.errors);
    Retry(Retry(p, entries, first), StillFailing(entries, first), second)
  }

  /** One pass as the source runs it. */
  method RunPass(p: Progress, entries: seq<ExtractionError>, attempts: seq<Attempt>)
      returns (r: Progress, stillFailing: seq<ExtractionError>)
    requires Pairs(entries, attempts)
    ensures r == Retry(p, entries, attempts)
    ensures stillFailing == StillFailing(entries, attempts)
  {
    r, stillFailing := p, [];
    for i := 0 to |attempts|
      invariant r == Retry(p, entries, attempts[..i])
      invariant stillFailing == StillFailing(entries, attempts[..i])
    {
      assert attempts[..i + 1][..i] == attempts[..i];
      assert entries[i] in entries;
      match attempts[i] {
        case Unavailable =>
        case Crashes => stillFailing := stillFailing + [entries[i]];
        case Parses(content, language, stats, result) =>
          if result.nodes != [] || result.errors == [] {
            r := RetryOne(r, entries[i], attempts[i]);
          }
      }
    }
    assert attempts[..|attempts|] == attempts;
  }

  /** Which errors are retried: parse errors about a file whose message speaks of an exited
      worker or of memory. */
  lemma RetryableExact(e: ExtractionError)
    ensures Retryable(e) <==>
      && e.code == "parse_error" && e.filePath.Some? && e.filePath.value != ""
      && (Within(e.message, "Worker exited") || Within(e.message, "memory access out of bounds"))
  {
    ContainsExact(e.message, "Worker exited");
    ContainsExact(e.message, "memory access out of bounds");
  }

  ghost predicate Within(s: string, part: string) {
    exists a, b :: s == a + part + b
  }

  lemma ContainsExact(s: string, part: string)
    ensures Contains(s, part) <==> Within(s, part)
  {
    if Contains(s, part) {
      var i :| 0 <= i <= |s| && StartsAt(s, i, part);
      assert s == s[..i] + part + s[i..][|part|..];
    }
    if a, b :| s == a + part + b {
      assert s[|a|..] == part + b;
      assert StartsAt(s, |a|, part);
    }
  }

  /** `at` lists the crashed attempts, in order. */
  ghost predicate CrashedAt(attempts: seq<Attempt>, at: seq<nat>) {
    && (forall k :: 0 <= k < |at| ==> at[k] < |attempts| && attempts[at[k]].Crashes?)
    && (forall k, l :: 0 <= k < l < |at| ==> at[k] < at[l])
    && (forall i: nat :: i < |attempts| && attempts[i].Crashes? ==> i in at)
  }

  /** The second pass gets exactly the entries that crashed again, in order. */
  lemma {:induction false} StillFailingExact(entries: seq<ExtractionError>, attempts: seq<Attempt>)
      returns (at: seq<nat>)
    requires Pairs(entries, attempts)
    ensures CrashedAt(attempts, at) && |at| == |StillFailing(entries, attempts)|
    ensures forall k :: 0 <= k < |at| ==> StillFailing(entries, attempts)[k] == entries[at[k]]
    decreases |attempts|
  {
    if attempts == [] {
      at := [];
    } else {
      var n := |attempts| - 1;
      at := StillFailingExact(entries, attempts[..n]);
      if attempts[n].Crashes? {
        CrashAppended(attempts, at);
        at := at + [n];
      } else {
        assert CrashedAt(attempts, at);
      }
    }
  }

  lemma CrashAppended(attempts: seq<Attempt>, at: seq<nat>)
    requires attempts != [] && attempts[|attempts| - 1].Crashes? && CrashedAt(attempts[..|attempts| - 1], at)
    ensures CrashedAt(attempts, at + [|attempts| - 1])
  {
    var n := |attempts| - 1;
    forall i: nat | i < |attempts| && attempts[i].Crashes? ensures i in at + [n] {
      if i < n {
        assert attempts[..n][i] == attempts[i];
      }
    }
  }

  /** The retried entry is taken out once, where it first stands. */
  lemma {:induction false} RemoveFirstExact<T(!new)>(a: seq<T>, x: T, b: seq<T>)
    requires x !in a
    ensures RemoveFirst(a + [x] + b, x) == a + b
  {
    var s := a + [x] + b;
    if a == [] {
      assert s[1..] == b && a + b == b;
    } else {
      assert s[0] == a[0] && s[1..] == a[1..] + [x] + b;
      RemoveFirstExact(a[1..], x, b);
      assert a + b == [a[0]] + (a[1..] + b);
    }
  }

  lemma {:induction false} RemoveFirstAbsent<T(!new)>(s: seq<T>, x: T)
    requires x !in s
    ensures RemoveFirst(s, x) == s
  {
    if s != [] {
      RemoveFirstAbsent(s[1..], x);
    }
  }

  // ------------------------------------------------------------ conservation

  lemma {:induction false} RetryConserves(p: Progress, entries: seq<ExtractionError>, attempts: seq<Attempt>)
    requires Pairs(entries, attempts)
    ensures Accounted(Retry(p, entries, attempts)) == Accounted(p)
    decreases |attempts|
  {
    if attempts != [] {
      RetryConserves(p, entries, attempts[..|attempts| - 1]);
    }
  }

  datatype IndexState = Failed | Partial(shortfall: int) | Complete

  predicate Success(p: Progress) {
    p.indexed > 0 || forall e :: e in p.errors ==> !e.isError
  }

  /** The reconciliation of the scan against the counters. */
  function Reconcile(p: Progress, discovered: nat): IndexState {
    if !Success(p) then Failed
    else if discovered - Accounted(p) > 0 then Partial(discovered - Accounted(p))
    else Complete
  }

  /** When an index is reported failed, partial and complete. */
  lemma ReconcileExact(p: Progress, discovered: nat)
    ensures var accounted := p.indexed + p.skipped + p.errored;
      var failed := p.indexed <= 0 && exists e :: e in p.errors && e.isError;
      && (Reconcile(p, discovered) == Failed <==> failed)
      && (Reconcile(p, discovered) == Partial(discovered - accounted) <==> !failed && accounted < discovered)
      && (Reconcile(p, discovered) == Complete <==> !failed && accounted >= discovered)
  {
  }

  /** No run that is not aborted is ever reported as partial: whatever the order of the
      effects and the outcome of the retries, the counters add up to the files found. */
  lemma NoShortfall(t: Tables, log: seq<Event>, first: seq<Attempt>, second: seq<Attempt>)
    requires Sound(log)
    requires Pairs(RetryList(Replay(t, log).errors), first)
    requires Pairs(StillFailing(RetryList(Replay(t, log).errors), first), second)
    ensures var p := RetryBoth(Replay(t, log), first, second);
      Accounted(p) == |log| && !Reconcile(p, |log|).Partial?
  {
    var p := Replay(t, log);
    ReplayAccounts(t, log);
    RetryConserves(p, RetryList(p.errors), first);
    RetryConserves(Retry(p, RetryList(p.errors), first), StillFailing(RetryList(p.errors), first), second);
  }

  /** End to end: a run of the parse window that drains, followed by both retry passes,
      accounts for every file that the scan found. Such a log is always sound. */
  lemma DrainedRunIsComplete(files: seq<FileInput>, windowSize: nat, t: Tables, trace: seq<ParseWindow.Window>,
                             steps: seq<ParseWindow.Step>, first: seq<Attempt>, second: seq<Attempt>)
    requires windowSize >= 1 && ParseWindow.IsRun(files, windowSize, trace, steps) && trace[|steps|].drained
    requires Sound(trace[|steps|].log)
    requires var entries := RetryList(Replay(t, trace[|steps|].log).errors);
      Pairs(entries, first) && Pairs(StillFailing(entries, first), second)
    ensures var p := RetryBoth(Replay(t, trace[|steps|].log), first, second);
      p.indexed + p.skipped + p.errored == |files| && !Reconcile(p, |files|).Partial?
  {
    var log := trace[|steps|].log;
    ParseWindow.DrainedRefinesSequential(files, windowSize, t, trace, steps);
    ReplayAccounts(t, log);
    NoShortfall(t, log, first, second);
  }

  // ------------------------- is `filesErrored` really the number of errored files?

  type Statuses = map<Path, Status>

  function PathOf(e: Event): Path {
    match e
    case Committed(job) => job.path
    case Refused(Unreadable(path, _)) => path
    case Refused(Readable(job)) => job.path
  }

  function EventStatus(e: Event): Status {
    match e
    case Committed(job) =>
      (match job.outcome case Resolved(result) => StatusOf(job, result) case Rejected(_) => Errored)
    case Refused(Unreadable(_, _)) => Errored
    case Refused(Readable(_)) => Skipped
  }

  function StatusesAfter(log: seq<Event>): Statuses {
    if log == [] then map[] else StatusesAfter(log[..|log| - 1])[PathOf(log[|log| - 1]) := EventStatus(log[|log| - 1])]
  }

  function FilesWith(s: Statuses, status: Status): set<Path> {
    set p | p in s && s[p] == status
  }

  function ErroredFiles(s: Statuses): set<Path> {
    FilesWith(s, Errored)
  }

  ghost predicate DistinctPaths(log: seq<Event>) {
    forall i, j :: 0 <= i < j < |log| ==> PathOf(log[i]) != PathOf(log[j])
  }

  lemma {:induction false} StatusHasEvent(log: seq<Event>, p: Path)
    requires p in StatusesAfter(log)
    ensures exists i :: 0 <= i < |log| && PathOf(log[i]) == p
  {
    if PathOf(log[|log| - 1]) != p {
      StatusHasEvent(log[..|log| - 1], p);
    }
  }

  function CountWith(log: seq<Event>, status: Status): nat {
    if log == [] then 0
    else CountWith(log[..|log| - 1], status) + (if EventStatus(log[|log| - 1]) == status then 1 else 0)
  }

  lemma {:induction false} CountFilesWith(log: seq<Event>, status: Status)
    requires DistinctPaths(log)
    ensures CountWith(log, status) == |FilesWith(StatusesAfter(log), status)|
  {
    if log != [] {
      var init, e := log[..|log| - 1], log[|log| - 1];
      CountFilesWith(init, status);
      var s := StatusesAfter(init);
      if PathOf(e) in s {
        StatusHasEvent(init, PathOf(e));
      }
      OneStatus(s, PathOf(e), EventStatus(e), status);
    }
  }

  lemma OneStatus(s: Statuses, path: Path, given: Status, status: Status)
    requires path !in s
    ensures |FilesWith(s[path := given], status)| == |FilesWith(s, status)| + (if given == status then 1 else 0)
  {
    assert FilesWith(s[path := given], status) == FilesWith(s, status) + (if given == status then {path} else {});
  }

  function Counter(p: Progress, status: Status): int {
    match status case Indexed => p.indexed case Skipped => p.skipped case Errored => p.errored
  }

  lemma {:induction false} CounterCounts(t: Tables, log: seq<Event>, status: Status)
    requires Sound(log)
    ensures Counter(Replay(t, log), status) == CountWith(log, status)
  {
    if log != [] {
      var init, e := log[..|log| - 1], log[|log| - 1];
      assert forall x :: x in init ==> x in log;
      assert e in log;
      CounterCounts(t, init, status);
      OneCounted(Replay(t, init), e, status);
    }
  }

  /** When the window has drained each counter is the number of files with its status. */
  lemma CountersAreExact(t: Tables, log: seq<Event>, status: Status)
    requires Sound(log) && DistinctPaths(log)
    ensures Counter(Replay(t, log), status) == |FilesWith(StatusesAfter(log), status)|
  {
    CountFilesWith(log, status);
    CounterCounts(t, log, status);
  }

  lemma OneCounted(p: Progress, e: Event, status: Status)
    requires e.Refused? ==> !Dispatched(e.x)
    ensures Counter(match e case Committed(job) => Commit(p, job) case Refused(x) => Refuse(p, x), status)
         == Counter(p, status) + (if EventStatus(e) == status then 1 else 0)
  {
  }

  /** A retried file that parses is indexed from then on. */
  function StatusesRetried(s: Statuses, entries: seq<ExtractionError>, attempts: seq<Attempt>): Statuses
    requires Pairs(entries, attempts)
    decreases |attempts|
  {
    if attempts == [] then s
    else
      var n := |attempts| - 1;
      var before := StatusesRetried(s, entries, attempts[..n]);
      if Succeeds(attempts[n]) then before[entries[n].filePath.value := Indexed] else before
  }

  /** Successful retries of a file that was not errored when it was retried: its parse had
      reported a retryable message and still returned nodes, or it was retried twice. */
  function Misfits(s: Statuses, entries: seq<ExtractionError>, attempts: seq<Attempt>): nat
    requires Pairs(entries, attempts)
    decreases |attempts|
  {
    if attempts == [] then 0
    else
      var n := |attempts| - 1;
      var path := entries[n].filePath.value;
      var before := StatusesRetried(s, entries, attempts[..n]);
      Misfits(s, entries, attempts[..n]) +
        (if Succeeds(attempts[n]) && !(path in before && before[path] == Errored) then 1 else 0)
  }

  /** One pass, from any counter: each misfit makes it fall short by one more. */
  lemma {:induction false} PassDrift(p: Progress, s: Statuses, entries: seq<ExtractionError>, attempts: seq<Attempt>)
    requires Pairs(entries, attempts)
    ensures Retry(p, entries, attempts).errored + Misfits(s, entries, attempts) + |ErroredFiles(s)|
         == p.errored + |ErroredFiles(StatusesRetried(s, entries, attempts))|
    decreases |attempts|
  {
    if attempts != [] {
      var n := |attempts| - 1;
      PassDrift(p, s, entries, attempts[..n]);
      if Succeeds(attempts[n]) {
        var before, path := StatusesRetried(s, entries, attempts[..n]), entries[n].filePath.value;
        RetryIndexes(before, path);
      }
    }
  }

  /** The file statuses and the misfits of both passes, from the statuses of the log. */
  function StatusesAfterBoth(log: seq<Event>, entries: seq<ExtractionError>, first: seq<Attempt>,
                             second: seq<Attempt>): Statuses
    requires Pairs(entries, first) && Pairs(StillFailing(entries, first), second)
  {
    StatusesRetried(StatusesRetried(StatusesAfter(log), entries, first), StillFailing(entries, first), second)
  }

  function MisfitsOfBoth(log: seq<Event>, entries: seq<ExtractionError>, first: seq<Attempt>, second: seq<Attempt>): nat
    requires Pairs(entries, first) && Pairs(StillFailing(entries, first), second)
  {
    Misfits(StatusesAfter(log), entries, first) +
    Misfits(StatusesRetried(StatusesAfter(log), entries, first), StillFailing(entries, first), second)
  }

  /** After both passes `filesErrored` is too low by exactly the misfits of both. */
  lemma RetryDrift(t: Tables, log: seq<Event>, first: seq<Attempt>, second: seq<Attempt>)
    requires Sound(log) && DistinctPaths(log)
    requires var entries := RetryList(Replay(t, log).errors);
      Pairs(entries, first) && Pairs(StillFailing(entries, first), second)
    ensures var entries := RetryList(Replay(t, log).errors);
      RetryBoth(Replay(t, log), first, second).errored + MisfitsOfBoth(log, entries, first, second)
      == |ErroredFiles(StatusesAfterBoth(log, entries, first, second))|
  {
    var p, s := Replay(t, log), StatusesAfter(log);
    var entries := RetryList(p.errors);
    CountersAreExact(t, log, Errored);
    PassDrift(p, s, entries, first);
    PassDrift(Retry(p, entries, first), StatusesRetried(s, entries, first), StillFailing(entries, first), second);
  }

  // ------------------------------- when it is right, whatever the retries do

  /** Every retryable error is about a file counted as errored, and no two about one file. */
  ghost predicate EntriesFit(s: Statuses, entries: seq<ExtractionError>) {
    && (forall i :: 0 <= i < |entries| ==> entries[i].filePath.Some? && IsErrored(s, entries[i].filePath.value))
    && (forall i, j :: 0 <= i < j < |entries| ==> entries[i].filePath != entries[j].filePath)
  }

  predicate IsErrored(s: Statuses, path: Path) {
    path in s && s[path] == Errored
  }

  /** The file of entry `i` has been retried with success. */
  predicate Recovered(entries: seq<ExtractionError>, attempts: seq<Attempt>, path: Path)
    requires Pairs(entries, attempts)
  {
    exists i :: 0 <= i < |attempts| && Succeeds(attempts[i]) && entries[i].filePath == Some(path)
  }

  lemma {:induction false} StatusesExact(s: Statuses, entries: seq<ExtractionError>, attempts: seq<Attempt>, path: Path)
    requires Pairs(entries, attempts)
    ensures IsErrored(StatusesRetried(s, entries, attempts), path) <==>
      IsErrored(s, path) && !Recovered(entries, attempts, path)
    decreases |attempts|
  {
    if attempts != [] {
      var n := |attempts| - 1;
      StatusesExact(s, entries, attempts[..n], path);
      assert entries[n] in entries;
      assert Recovered(entries, attempts, path) <==>
        Recovered(entries, attempts[..n], path) || (Succeeds(attempts[n]) && entries[n].filePath == Some(path)) by {
        if i :| 0 <= i < n && Succeeds(attempts[i]) && entries[i].filePath == Some(path) {
          assert attempts[..n][i] == attempts[i];
        }
      }
    }
  }

  /** No misfit in a pass over fitting entries. */
  lemma {:induction false} FittingPass(s: Statuses, entries: seq<ExtractionError>, attempts: seq<Attempt>)
    requires EntriesFit(s, entries) && |attempts| <= |entries|
    ensures Pairs(entries, attempts) && Misfits(s, entries, attempts) == 0
    decreases |attempts|
  {
    if attempts != [] {
      var n := |attempts| - 1;
      FittingPass(s, entries, attempts[..n]);
      StatusesExact(s, entries, attempts[..n], entries[n].filePath.value);
    }
  }

  /** The files that crash again fit the second pass: none of them has been recovered. */
  lemma {:induction false} StillFailingFit(s: Statuses, entries: seq<ExtractionError>, attempts: seq<Attempt>, n: nat)
    requires EntriesFit(s, entries) && Pairs(entries, attempts) && n <= |attempts|
    ensures EntriesFit(StatusesRetried(s, entries, attempts), StillFailing(entries, attempts[..n]))
    ensures forall e :: e in StillFailing(entries, attempts[..n]) ==>
      exists i :: 0 <= i < n && attempts[i].Crashes? && entries[i] == e
  {
    if n > 0 {
      StillFailingFit(s, entries, attempts, n - 1);
      assert attempts[..n][..n - 1] == attempts[..n - 1];
      var before := StillFailing(entries, attempts[..n - 1]);
      if attempts[n - 1].Crashes? {
        forall k | 0 <= k < |before| ensures before[k].filePath != entries[n - 1].filePath {
          assert before[k] in before;
        }
        StatusesExact(s, entries, attempts, entries[n - 1].filePath.value);
      }
    }
  }

  const RECOVERS: Attempt := Parses("", "", Stats(0, 0.0), ExtractionResult([], [], []))

  /** Every retry succeeds. */
  function AllRecover(n: nat): seq<Attempt> {
    seq(n, _ => RECOVERS)
  }

  /** When every retry succeeds, only fitting entries give no misfit. */
  lemma {:induction false} AllRecoverFits(s: Statuses, entries: seq<ExtractionError>, n: nat)
    requires Pairs(entries, []) && n <= |entries|
    requires Misfits(s, entries, AllRecover(n)) == 0
    ensures EntriesFit(s, entries[..n])
  {
    if n > 0 {
      assert AllRecover(n)[..n - 1] == AllRecover(n - 1);
      AllRecoverFits(s, entries, n - 1);
      var path := entries[n - 1].filePath.value;
      StatusesExact(s, entries, AllRecover(n - 1), path);
      assert IsErrored(s, path) && !Recovered(entries, AllRecover(n - 1), path);
      forall i | 0 <= i < n - 1 ensures entries[i].filePath != Some(path) {
        assert Succeeds(AllRecover(n - 1)[i]);
      }
    }
  }

  /** `filesErrored` after the retries, for one outcome of the attempts. */
  ghost predicate ErroredRight(t: Tables, log: seq<Event>, first: seq<Attempt>, second: seq<Attempt>)
    requires Sound(log)
  {
    var entries := RetryList(Replay(t, log).errors);
    Pairs(entries, first) && Pairs(StillFailing(entries, first), second) ==>
      RetryBoth(Replay(t, log), first, second).errored == |ErroredFiles(StatusesAfterBoth(log, entries, first, second))|
  }

  /** It is right whatever the retries do iff, before they start, the retryable errors are
      about distinct files that are all counted as errored. */
  lemma ErroredRightIff(t: Tables, log: seq<Event>)
    requires Sound(log) && DistinctPaths(log)
    ensures (forall first, second :: ErroredRight(t, log, first, second)) <==>
      EntriesFit(StatusesAfter(log), RetryList(Replay(t, log).errors))
  {
    var s, entries := StatusesAfter(log), RetryList(Replay(t, log).errors);
    assert Pairs(entries, []);
    if EntriesFit(s, entries) {
      forall first, second ensures ErroredRight(t, log, first, second) {
        if Pairs(entries, first) && Pairs(StillFailing(entries, first), second) {
          FitsMeansRight(t, log, first, second);
        }
      }
    }
    if forall first, second :: ErroredRight(t, log, first, second) {
      var all := AllRecover(|entries|);
      assert ErroredRight(t, log, all, []);
      assert Pairs(StillFailing(entries, all), []);
      RetryDrift(t, log, all, []);
      AllRecoverFits(s, entries, |entries|);
      assert entries[..|entries|] == entries;
    }
  }

  lemma FitsMeansRight(t: Tables, log: seq<Event>, first: seq<Attempt>, second: seq<Attempt>)
    requires Sound(log) && DistinctPaths(log)
    requires var entries := RetryList(Replay(t, log).errors);
      EntriesFit(StatusesAfter(log), entries) && Pairs(entries, first) && Pairs(StillFailing(entries, first), second)
    ensures ErroredRight(t, log, first, second)
  {
    var s, entries := StatusesAfter(log), RetryList(Replay(t, log).errors);
    FittingPass(s, entries, first);
    assert first[..|first|] == first;
    StillFailingFit(s, entries, first, |first|);
    FittingPass(StatusesRetried(s, entries, first), StillFailing(entries, first), second);
    RetryDrift(t, log, first, second);
  }

  lemma RetryIndexes(s: Statuses, path: Path)
    ensures |ErroredFiles(s[path := Indexed])| + (if path in s && s[path] == Errored then 1 else 0) == |ErroredFiles(s)|
  {
    assert ErroredFiles(s[path := Indexed]) == ErroredFiles(s) - {path};
  }

  lemma ReplayOne(t: Tables, job: Job)
    ensures Replay(t, [Committed(job)]) == Commit(Start(t), job)
  {
    var log := [Committed(job)];
    assert log[|log| - 1] == Committed(job);
    assert log[..|log| - 1] == [];
    assert Replay(t, []) == Start(t);
  }

  /** A component file that yields a node and reports that its embedded script ran out of
      bounds is counted as indexed; the retry then makes `filesErrored` negative. */
  const SVELTE_NODE := Node(NodeId("a", "n"), "component", "A", "a", "svelte", "")
  const SVELTE_ERROR := ExtractionError("memory access out of bounds", Some("a"), true, "parse_error")
  const SVELTE_JOB := Job("a", "x", "svelte", Stats(1, 0.0), false,
                          Resolved(ExtractionResult([SVELTE_NODE], [], [SVELTE_ERROR])))
  const SVELTE_RETRY := Parses("x", "svelte", Stats(1, 0.0), ExtractionResult([SVELTE_NODE], [], []))

  lemma SvelteIsRetried()
    ensures RetryList([SVELTE_ERROR]) == [SVELTE_ERROR]
  {
    assert StartsAt(SVELTE_ERROR.message, 0, "memory access out of bounds");
    assert Retryable(SVELTE_ERROR);
    assert [SVELTE_ERROR][1..] == [];
    assert Filter([SVELTE_ERROR][1..], Retryable) == [];
  }

  lemma RetryOnce(p: Progress, e: ExtractionError, a: Attempt)
    requires e.filePath.Some?
    ensures Pairs([e], [a]) && Retry(p, [e], [a]) == RetryOne(p, e, a)
  {
    assert [a][..0] == [];
  }

  lemma ErroredCanGoNegative()
    ensures exists log: seq<Event>, first: seq<Attempt> ::
      && Sound(log) && DistinctPaths(log)
      && Pairs(RetryList(Replay(NO_TABLES, log).errors), first)
      && Retry(Replay(NO_TABLES, log), RetryList(Replay(NO_TABLES, log).errors), first).errored == -1
  {
    var log, first := [Committed(SVELTE_JOB)], [SVELTE_RETRY];
    var p := Replay(NO_TABLES, log);
    ReplayOne(NO_TABLES, SVELTE_JOB);
    assert WithPath([SVELTE_ERROR], "a") == [SVELTE_ERROR];
    assert p.errors == [SVELTE_ERROR];
    assert p.errored == 0;
    SvelteIsRetried();
    RetryOnce(p, SVELTE_ERROR, SVELTE_RETRY);
    assert Retry(p, RetryList(p.errors), first).errored == -1;
  }
}
