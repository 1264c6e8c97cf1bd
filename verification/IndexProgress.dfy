/** The bookkeeping of `indexAll`: counters, error list and database writes per file. */
module IndexProgress {
  import opened Collections
  import opened GraphTables
  import opened StoreExtraction
  import opened Sync

  datatype ParseOutcome = Rejected(message: string) | Resolved(result: ExtractionResult)

  /** One file handed to the parser, with the outcome its parse will have. */
  datatype Job = Job(path: Path, content: string, language: string, stats: Stats,
                     fileLevelOnly: bool, outcome: ParseOutcome)

  datatype FileInput = Unreadable(path: Path, message: string) | Readable(job: Job)

  /** `processed`, the three status counters, the node and edge totals and the errors. */
  datatype Progress = Progress(
    tables: Tables, processed: int, indexed: int, skipped: int, errored: int,
    nodes: int, edges: int, errors: seq<ExtractionError>)

  function Start(t: Tables): Progress {
    Progress(t, 0, 0, 0, 0, 0, 0, [])
  }

  predicate Dispatched(x: FileInput) {
    x.Readable? && x.job.stats.size <= MAX_FILE_SIZE
  }

  datatype Status = Indexed | Skipped | Errored

  /** Which counter a parsed file goes to. */
  function StatusOf(job: Job, result: ExtractionResult): Status {
    if result.nodes != [] then Indexed
    else if exists e :: e in result.errors && e.isError then Errored
    else if job.fileLevelOnly then Indexed
    else Skipped
  }

  function WithPath(errors: seq<ExtractionError>, path: Path): (r: seq<ExtractionError>)
    ensures |r| == |errors|
  {
    seq(|errors|, i requires 0 <= i < |errors| =>
      if errors[i].filePath.None? || errors[i].filePath == Some("") then errors[i].(filePath := Some(path))
      else errors[i])
  }

  function StoreTables(t: Tables, job: Job, result: ExtractionResult): Tables {
    if result.nodes != [] || result.errors == []
    then Store(t, job.path, job.content, job.language, job.stats, result) else t
  }

  function StoreResult(p: Progress, job: Job, result: ExtractionResult): Progress {
    var status := StatusOf(job, result);
    Progress(
      StoreTables(p.tables, job, result),
      p.processed + 1,
      p.indexed + (if status == Indexed then 1 else 0),
      p.skipped + (if status == Skipped then 1 else 0),
      p.errored + (if status == Errored then 1 else 0),
      p.nodes + |result.nodes|,
      p.edges + (if result.nodes != [] then |result.edges| else 0),
      p.errors + WithPath(result.errors, job.path))
  }

  function RecordParseFailure(p: Progress, path: Path, message: string): Progress {
    p.(processed := p.processed + 1, errored := p.errored + 1,
       errors := p.errors + [ExtractionError(message, Some(path), true, "parse_error")])
  }

  function Commit(p: Progress, job: Job): Progress {
    match job.outcome
    case Resolved(result) => StoreResult(p, job, result)
    case Rejected(message) => RecordParseFailure(p, job.path, message)
  }

  /** The error the feeding loop reports for a file it does not dispatch. */
  function RefusalError(x: FileInput): ExtractionError
    requires !Dispatched(x)
  {
    match x
    case Unreadable(path, message) => ExtractionError("Failed to read file: " + message, Some(path), true, "read_error")
    case Readable(job) => ExtractionError("File exceeds max size", Some(job.path), false, "size_exceeded")
  }

  /** Unreadable files count as errored, oversized ones as skipped. */
  function Refuse(p: Progress, x: FileInput): Progress
    requires !Dispatched(x)
  {
    var q := p.(processed := p.processed + 1, errors := p.errors + [RefusalError(x)]);
    if x.Unreadable? then q.(errored := q.errored + 1) else q.(skipped := q.skipped + 1)
  }

  /** What `indexAll` does with a file, in the order in which it does it. */
  datatype Event = Committed(job: Job) | Refused(x: FileInput)

  predicate Sound(log: seq<Event>) {
    forall e :: e in log && e.Refused? ==> !Dispatched(e.x)
  }

  /** The progress after a sequence of effects. */
  function Replay(t: Tables, log: seq<Event>): Progress
    requires Sound(log)
  {
    if log == [] then Start(t)
    else
      var e := log[|log| - 1];
      assert e in log;
      match e
      case Committed(job) => Commit(Replay(t, log[..|log| - 1]), job)
      case Refused(x) => Refuse(Replay(t, log[..|log| - 1]), x)
  }

  function CommittedOf(log: seq<Event>): seq<Job> {
    if log == [] then []
    else
      var init, e := CommittedOf(log[..|log| - 1]), log[|log| - 1];
      if e.Committed? then init + [e.job] else init
  }

  function RefusedOf(log: seq<Event>): seq<FileInput> {
    if log == [] then []
    else
      var init, e := RefusedOf(log[..|log| - 1]), log[|log| - 1];
      if e.Refused? then init + [e.x] else init
  }

  /** The one-worker loop: each file is committed before the next one is looked at. */
  function SequentialLog(files: seq<FileInput>): (log: seq<Event>)
    ensures Sound(log)
  {
    if files == [] then []
    else
      var x := files[|files| - 1];
      SequentialLog(files[..|files| - 1]) + [if Dispatched(x) then Committed(x.job) else Refused(x)]
  }

  function Sequential(t: Tables, files: seq<FileInput>): Progress {
    Replay(t, SequentialLog(files))
  }

  function CommitAll(t: Tables, jobs: seq<Job>): Progress {
    if jobs == [] then Start(t) else Commit(CommitAll(t, jobs[..|jobs| - 1]), jobs[|jobs| - 1])
  }

  function Jobs(files: seq<FileInput>): seq<Job> {
    if files == [] then []
    else
      var init, x := Jobs(files[..|files| - 1]), files[|files| - 1];
      if Dispatched(x) then init + [x.job] else init
  }

  function RefusedFiles(files: seq<FileInput>): seq<FileInput> {
    if files == [] then []
    else
      var init, x := RefusedFiles(files[..|files| - 1]), files[|files| - 1];
      if Dispatched(x) then init else init + [x]
  }

  function Unreadables(files: seq<FileInput>): nat {
    if files == [] then 0
    else Unreadables(files[..|files| - 1]) + (if files[|files| - 1].Unreadable? then 1 else 0)
  }

  function OversizedOne(x: FileInput): nat {
    if x.Readable? && !Dispatched(x) then 1 else 0
  }

  function Oversized(files: seq<FileInput>): nat {
    if files == [] then 0
    else Oversized(files[..|files| - 1]) + OversizedOne(files[|files| - 1])
  }

  function Refusals(files: seq<FileInput>): multiset<ExtractionError> {
    if files == [] then multiset{}
    else
      var x := files[|files| - 1];
      Refusals(files[..|files| - 1]) + (if Dispatched(x) then multiset{} else multiset{RefusalError(x)})
  }

  predicate Contains(s: string, part: string) {
    exists i :: 0 <= i <= |s| && StartsAt(s, i, part)
  }

  predicate StartsAt(s: string, i: nat, part: string)
    requires i <= |s|
  {
    part <= s[i..]
  }

  /** The errors the retry pass picks up. */
  predicate Retryable(e: ExtractionError) {
    && e.code == "parse_error"
    && e.filePath.Some? && e.filePath.value != ""
    && (Contains(e.message, "Worker exited") || Contains(e.message, "memory access out of bounds"))
  }

  function RetryList(errors: seq<ExtractionError>): seq<ExtractionError> {
    Filter(errors, Retryable)
  }

  /** `p` is what committing alone gives in `c`, plus the refusals of `fed`. */
  ghost predicate Splits(p: Progress, c: Progress, fed: seq<FileInput>) {
    && p.tables == c.tables
    && p.indexed == c.indexed
    && p.skipped == c.skipped + Oversized(fed)
    && p.errored == c.errored + Unreadables(fed)
    && p.processed == c.processed + Oversized(fed) + Unreadables(fed)
    && p.nodes == c.nodes && p.edges == c.edges
    && multiset(p.errors) == multiset(c.errors) + Refusals(fed)
    && RetryList(p.errors) == RetryList(c.errors)
  }

  /** Both logs grow by the same errors. */
  lemma ErrorsSplit(p: seq<ExtractionError>, c: seq<ExtractionError>, refused: multiset<ExtractionError>,
                    extra: seq<ExtractionError>)
    requires multiset(p) == multiset(c) + refused && RetryList(p) == RetryList(c)
    ensures multiset(p + extra) == multiset(c + extra) + refused
    ensures RetryList(p + extra) == RetryList(c + extra)
  {
    FilterAppend(p, extra, Retryable);
    FilterAppend(c, extra, Retryable);
  }

  lemma CommitSplits(p: Progress, c: Progress, fed: seq<FileInput>, job: Job)
    requires Splits(p, c, fed)
    ensures Splits(Commit(p, job), Commit(c, job), fed)
  {
    match job.outcome
    case Resolved(result) => ResultSplits(p, c, fed, job, result);
    case Rejected(message) =>
      ErrorsSplit(p.errors, c.errors, Refusals(fed), [ExtractionError(message, Some(job.path), true, "parse_error")]);
  }

  lemma ResultSplits(p: Progress, c: Progress, fed: seq<FileInput>, job: Job, result: ExtractionResult)
    requires Splits(p, c, fed)
    ensures Splits(StoreResult(p, job, result), StoreResult(c, job, result), fed)
  {
    ErrorsSplit(p.errors, c.errors, Refusals(fed), WithPath(result.errors, job.path));
  }

  lemma RefuseSplits(p: Progress, c: Progress, fed: seq<FileInput>, x: FileInput)
    requires Splits(p, c, fed) && !Dispatched(x)
    ensures Splits(Refuse(p, x), c, fed + [x])
  {
    assert (fed + [x])[..|fed|] == fed;
    RefusalNotRetried(p.errors, x);
    assert multiset(p.errors + [RefusalError(x)]) == multiset(p.errors) + multiset{RefusalError(x)};
  }

  lemma RefusalNotRetried(errors: seq<ExtractionError>, x: FileInput)
    requires !Dispatched(x)
    ensures RetryList(errors + [RefusalError(x)]) == RetryList(errors)
  {
    FilterAppend(errors, [RefusalError(x)], Retryable);
    assert Filter([RefusalError(x)][1..], Retryable) == [];
  }

  /** However commits and refusals are interleaved, database, counters and retry list
      depend only on the order of the commits among themselves. */
  lemma {:induction false} ReplaySplits(t: Tables, log: seq<Event>)
    requires Sound(log)
    ensures Splits(Replay(t, log), CommitAll(t, CommittedOf(log)), RefusedOf(log))
  {
    if log != [] {
      var init, e := log[..|log| - 1], log[|log| - 1];
      assert forall x :: x in init ==> x in log;
      assert e in log;
      ReplaySplits(t, init);
      match e
      case Committed(job) =>
        var jobs := CommittedOf(init);
        assert (jobs + [job])[..|jobs|] == jobs;
        CommitSplits(Replay(t, init), CommitAll(t, jobs), RefusedOf(init), job);
      case Refused(x) =>
        RefuseSplits(Replay(t, init), CommitAll(t, CommittedOf(init)), RefusedOf(init), x);
    }
  }

  lemma {:induction false} SequentialProjections(files: seq<FileInput>)
    ensures CommittedOf(SequentialLog(files)) == Jobs(files)
    ensures RefusedOf(SequentialLog(files)) == RefusedFiles(files)
  {
    if files != [] {
      var init, x := files[..|files| - 1], files[|files| - 1];
      SequentialProjections(init);
      var before := SequentialLog(init);
      var e := if Dispatched(x) then Committed(x.job) else Refused(x);
      assert (before + [e])[..|before|] == before;
    }
  }

  // ------------------------------------------------------- nothing gets lost

  function Accounted(p: Progress): int {
    p.indexed + p.skipped + p.errored
  }

  lemma {:induction false} ReplayAccounts(t: Tables, log: seq<Event>)
    requires Sound(log)
    ensures Accounted(Replay(t, log)) == Replay(t, log).processed == |log|
  {
    if log != [] {
      assert forall x :: x in log[..|log| - 1] ==> x in log;
      ReplayAccounts(t, log[..|log| - 1]);
      assert log[|log| - 1] in log;
    }
  }

  lemma {:induction false} SequentialAccounts(t: Tables, files: seq<FileInput>)
    ensures |SequentialLog(files)| == |files|
    ensures Accounted(Sequential(t, files)) == Sequential(t, files).processed == |files|
  {
    ReplayAccounts(t, SequentialLog(files));
    if files != [] {
      SequentialAccounts(t, files[..|files| - 1]);
    }
  }
}
