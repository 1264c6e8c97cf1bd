/** What a full index leaves in the database, file by file, and in its report, said of the
    files and of nothing in between. */
module IndexOutcome {
  import opened Collections
  import opened GraphTables
  import opened StoreExtraction
  import opened IndexProgress
  import RetryPass
  import ParseWindow
  import StoreRuns

  // ------------------------------------------------------- one file's rows

  /** The last node of the list with this id and all required fields. */
  ghost predicate LastComplete(ns: seq<Node>, id: NodeId, i: nat) {
    && i < |ns| && ns[i].id == id && FieldsPresent(ns[i])
    && forall j :: i < j < |ns| ==> ns[j].id != id || !FieldsPresent(ns[j])
  }

  ghost predicate HasLast(ns: seq<Node>, id: NodeId) {
    exists i: nat :: LastComplete(ns, id, i)
  }

  /** `row` is what the list leaves under the id. */
  ghost predicate IsRow(row: Option<Node>, ns: seq<Node>, id: NodeId) {
    (row.Some? <==> HasLast(ns, id)) && forall i: nat :: LastComplete(ns, id, i) ==> row == Some(ns[i])
  }

  /** The file's rows are exactly the complete ones of the list. */
  ghost predicate RowsAre(t: Tables, path: Path, ns: seq<Node>) {
    forall id :: InFile(id, path) ==> IsRow(StoreRuns.RowOf(t, id), ns, id)
  }

  ghost predicate SameRecord(t: Tables, t': Tables, path: Path) {
    (path in t'.files <==> path in t.files) && (path in t.files ==> t'.files[path] == t.files[path])
  }

  ghost predicate SameRows(t: Tables, t': Tables, path: Path) {
    forall id :: InFile(id, path) ==> StoreRuns.RowOf(t', id) == StoreRuns.RowOf(t, id)
  }

  /** Nothing changed about the file. */
  ghost predicate SameFile(t: Tables, t': Tables, path: Path) {
    SameRecord(t, t', path) && SameRows(t, t', path)
  }

  /** The file was stored, or already had this content. */
  ghost predicate StoredFile(t: Tables, t': Tables, path: Path, content: string, language: string, stats: Stats,
                             result: ExtractionResult)
  {
    && path in t'.files && t'.files[path].contentHash == ContentHash(content)
    && if path in t.files && t.files[path].contentHash == ContentHash(content) then SameFile(t, t', path)
       else
         && t'.files[path] == FileRecord(ContentHash(content), language, stats.size, stats.mtimeMs, |result.nodes|)
         && RowsAre(t', path, result.nodes)
  }

  function Complete(ns: seq<Node>): seq<Node> {
    Filter(ns, (n: Node) => n.Complete())
  }

  lemma CompleteAppend(ns: seq<Node>, n: Node)
    ensures Complete(ns + [n]) == if FieldsPresent(n) then Complete(ns) + [n] else Complete(ns)
  {
    FilterAppend(ns, [n], (n: Node) => n.Complete());
    assert Complete([n][1..]) == [];
    assert Complete([n]) == if FieldsPresent(n) then [n] else [];
  }

  lemma LastCompleteAppend(ns: seq<Node>, n: Node, id: NodeId, i: nat)
    ensures LastComplete(ns + [n], id, i) <==>
      if n.id == id && FieldsPresent(n) then i == |ns| else LastComplete(ns, id, i)
  {
    var all := ns + [n];
    assert all[|ns|] == n && forall j :: 0 <= j < |ns| ==> all[j] == ns[j];
  }

  lemma IsRowAppend(row: Option<Node>, ns: seq<Node>, n: Node, id: NodeId)
    requires IsRow(row, ns, id)
    ensures IsRow(if n.id == id && FieldsPresent(n) then Some(n) else row, ns + [n], id)
  {
    forall i: nat ensures LastComplete(ns + [n], id, i) <==>
      if n.id == id && FieldsPresent(n) then i == |ns| else LastComplete(ns, id, i)
    {
      LastCompleteAppend(ns, n, id, i);
    }
    if n.id == id && FieldsPresent(n) {
      assert LastComplete(ns + [n], id, |ns|);
    } else if HasLast(ns, id) {
      var i: nat :| LastComplete(ns, id, i);
      assert LastComplete(ns + [n], id, i);
    }
  }

  lemma {:induction false} LastRowIsLast(ns: seq<Node>, id: NodeId)
    ensures IsRow(LastRow(Complete(ns), id), ns, id)
  {
    if ns != [] {
      var init, last := ns[..|ns| - 1], ns[|ns| - 1];
      LastRowIsLast(init, id);
      assert ns == init + [last];
      CompleteAppend(init, last);
      StoreRuns.LastRowAppend(Complete(init), last, id);
      IsRowAppend(LastRow(Complete(init), id), init, last, id);
    }
  }

  lemma OneStore(t: Tables, path: Path, content: string, language: string, stats: Stats, result: ExtractionResult)
    requires WellFormed(t) && Owned(t) && ResultOf(path, result)
    ensures var t' := Store(t, path, content, language, stats, result);
      && WellFormed(t') && Owned(t')
      && StoredFile(t, t', path, content, language, stats, result)
      && forall p :: p != path ==> SameFile(t, t', p)
  {
    if !Unchanged(t, path, content) {
      ReindexExact(t, path, content, language, stats, result);
      ReindexedRows(t, Store(t, path, content, language, stats, result), path, result);
    }
  }

  lemma ReindexedRows(t: Tables, t': Tables, path: Path, result: ExtractionResult)
    requires RowsReindexed(t, t', path, CompleteNodes(result))
    ensures RowsAre(t', path, result.nodes) && forall p :: p != path ==> SameRows(t, t', p)
  {
    forall id | InFile(id, path) ensures IsRow(StoreRuns.RowOf(t', id), result.nodes, id) {
      LastRowIsLast(result.nodes, id);
      assert StoreRuns.RowOf(t', id) == LastRow(Complete(result.nodes), id);
    }
  }

  // ------------------------------------------------------------- a whole run

  function PathOf(x: FileInput): Path {
    match x case Unreadable(path, _) => path case Readable(job) => job.path
  }

  ghost predicate EachOnce(files: seq<FileInput>) {
    forall i, j :: 0 <= i < j < |files| ==> PathOf(files[i]) != PathOf(files[j])
  }

  ghost predicate StampedInput(x: FileInput) {
    x.Readable? && x.job.outcome.Resolved? ==> ResultOf(x.job.path, x.job.outcome.result)
  }

  /** What the run does about a file: nothing if it cannot be read, is larger than a megabyte,
      was rejected by the parser, or gave errors and no node. */
  ghost predicate Outcome(t: Tables, t': Tables, x: FileInput) {
    match x
    case Unreadable(path, _) => SameFile(t, t', path)
    case Readable(job) =>
      if job.stats.size > 1048576 then SameFile(t, t', job.path)
      else match job.outcome
        case Rejected(_) => SameFile(t, t', job.path)
        case Resolved(result) =>
          if result.nodes == [] && result.errors != [] then SameFile(t, t', job.path)
          else StoredFile(t, t', job.path, job.content, job.language, job.stats, result)
  }

  lemma OutcomeStays(t: Tables, t1: Tables, t2: Tables, x: FileInput)
    requires Outcome(t, t1, x) && SameFile(t1, t2, PathOf(x))
    ensures Outcome(t, t2, x)
  {
  }

  lemma OutcomeFrom(t: Tables, t1: Tables, t2: Tables, x: FileInput)
    requires SameFile(t, t1, PathOf(x)) && Outcome(t1, t2, x)
    ensures Outcome(t, t2, x)
  {
  }

  /** One file of the sequential loop. */
  lemma OneFile(t: Tables, files: seq<FileInput>)
    requires files != [] && StampedInput(files[|files| - 1])
    requires var t1 := Sequential(t, files[..|files| - 1]).tables; WellFormed(t1) && Owned(t1)
    ensures var t1, t2 := Sequential(t, files[..|files| - 1]).tables, Sequential(t, files).tables;
      var x := files[|files| - 1];
      && WellFormed(t2) && Owned(t2) && Outcome(t1, t2, x)
      && forall p :: p != PathOf(x) ==> SameFile(t1, t2, p)
  {
    var init, x := files[..|files| - 1], files[|files| - 1];
    var log := SequentialLog(files);
    assert log[..|log| - 1] == SequentialLog(init);
    if Dispatched(x) && x.job.outcome.Resolved? {
      var job, t1 := x.job, Sequential(t, init).tables;
      OneStore(t1, job.path, job.content, job.language, job.stats, job.outcome.result);
    }
  }

  ghost predicate AllSettled(t: Tables, t': Tables, files: seq<FileInput>) {
    forall i :: 0 <= i < |files| ==> Outcome(t, t', files[i])
  }

  ghost predicate OthersSame(t: Tables, t': Tables, files: seq<FileInput>) {
    forall p :: (forall i :: 0 <= i < |files| ==> PathOf(files[i]) != p) ==> SameFile(t, t', p)
  }

  lemma OneMoreFile(t: Tables, t1: Tables, t2: Tables, files: seq<FileInput>)
    requires files != [] && EachOnce(files)
    requires AllSettled(t, t1, files[..|files| - 1]) && OthersSame(t, t1, files[..|files| - 1])
    requires Outcome(t1, t2, files[|files| - 1])
    requires forall p :: p != PathOf(files[|files| - 1]) ==> SameFile(t1, t2, p)
    ensures AllSettled(t, t2, files) && OthersSame(t, t2, files)
  {
    var n := |files| - 1;
    forall i | 0 <= i < |files| ensures Outcome(t, t2, files[i]) {
      if i < n {
        assert Outcome(t, t1, files[..n][i]);
        OutcomeStays(t, t1, t2, files[i]);
      } else {
        assert SameFile(t, t1, PathOf(files[n]));
        OutcomeFrom(t, t1, t2, files[n]);
      }
    }
    forall p | forall i :: 0 <= i < |files| ==> PathOf(files[i]) != p ensures SameFile(t, t2, p) {
      assert SameFile(t, t1, p) && SameFile(t1, t2, p);
      StaysSame(t, t1, t2, p);
    }
  }

  lemma StaysSame(t: Tables, t1: Tables, t2: Tables, p: Path)
    requires SameFile(t, t1, p) && SameFile(t1, t2, p)
    ensures SameFile(t, t2, p)
  {
  }

  lemma {:induction false} SequentialOutcome(t: Tables, files: seq<FileInput>)
    requires WellFormed(t) && Owned(t) && EachOnce(files) && forall x :: x in files ==> StampedInput(x)
    ensures var t' := Sequential(t, files).tables;
      WellFormed(t') && Owned(t') && AllSettled(t, t', files) && OthersSame(t, t', files)
  {
    if files == [] {
      assert SequentialLog(files) == [];
    } else {
      var n := |files| - 1;
      assert files[n] in files && forall x :: x in files[..n] ==> x in files;
      SequentialOutcome(t, files[..n]);
      OneFile(t, files);
      OneMoreFile(t, Sequential(t, files[..n]).tables, Sequential(t, files).tables, files);
    }
  }

  /** Every run of the window that drains, over a scan that lists each file once, leaves every
      file as it should be, and every other file alone. */
  lemma DrainedRunOutcome(files: seq<FileInput>, windowSize: nat, t: Tables, trace: seq<ParseWindow.Window>,
                          steps: seq<ParseWindow.Step>)
    requires windowSize >= 1 && ParseWindow.IsRun(files, windowSize, trace, steps) && trace[|steps|].drained
    requires WellFormed(t) && Owned(t) && EachOnce(files) && forall x :: x in files ==> StampedInput(x)
    ensures Sound(trace[|steps|].log)
    ensures var t' := Replay(t, trace[|steps|].log).tables;
      WellFormed(t') && Owned(t') && AllSettled(t, t', files) && OthersSame(t, t', files)
  {
    ParseWindow.DrainedRefinesSequential(files, windowSize, t, trace, steps);
    SequentialOutcome(t, files);
  }

  /** A retry stores the file if its parse gave a node, or no error, and counts it; otherwise
      it changes nothing. */
  lemma RetryOutcome(p: Progress, e: ExtractionError, a: RetryPass.Attempt)
    requires WellFormed(p.tables) && Owned(p.tables) && e.filePath.Some?
    requires a.Parses? ==> ResultOf(e.filePath.value, a.result)
    ensures var r, path := RetryPass.RetryOne(p, e, a), e.filePath.value;
      if a.Parses? && (a.result.nodes != [] || a.result.errors == []) then
        && WellFormed(r.tables) && Owned(r.tables)
        && StoredFile(p.tables, r.tables, path, a.content, a.language, a.stats, a.result)
        && (forall q :: q != path ==> SameFile(p.tables, r.tables, q))
        && r.indexed == p.indexed + 1 && r.errored == p.errored - 1 && r.skipped == p.skipped
        && r.nodes == p.nodes + |a.result.nodes| && r.edges == p.edges + |a.result.edges|
        && (forall before, after :: p.errors == before + [e] + after && e !in before ==> r.errors == before + after)
      else r == p
  {
    if RetryPass.Succeeds(a) {
      OneStore(p.tables, e.filePath.value, a.content, a.language, a.stats, a.result);
      forall before, after | p.errors == before + [e] + after && e !in before
        ensures RetryPass.RemoveFirst(p.errors, e) == before + after
      {
        RetryPass.RemoveFirstExact(before, e, after);
      }
    }
  }

  // ------------------------------------------------------------- the report

  function NodeCount(e: Event): nat {
    if e.Committed? && e.job.outcome.Resolved? then |e.job.outcome.result.nodes| else 0
  }

  function EdgeCount(e: Event): nat {
    if e.Committed? && e.job.outcome.Resolved? && e.job.outcome.result.nodes != []
    then |e.job.outcome.result.edges| else 0
  }

  function Sum(log: seq<Event>, count: Event -> nat): nat {
    if log == [] then 0 else Sum(log[..|log| - 1], count) + count(log[|log| - 1])
  }

  /** The totals are the nodes committed, and the edges of the results that had a node. */
  lemma {:induction false} TotalsExact(t: Tables, log: seq<Event>)
    requires Sound(log)
    ensures Replay(t, log).nodes == Sum(log, NodeCount) && Replay(t, log).edges == Sum(log, EdgeCount)
  {
    if log != [] {
      var init := log[..|log| - 1];
      assert forall e :: e in init ==> e in log;
      TotalsExact(t, init);
    }
  }

  /** An error without a path gets the file's. */
  function Located(e: ExtractionError, path: Path): ExtractionError {
    match e.filePath
    case None => e.(filePath := Some(path))
    case Some(own) => if own == "" then e.(filePath := Some(path)) else e
  }

  ghost predicate ReportedBy(e: Event, errors: seq<ExtractionError>) {
    match e
    case Committed(job) =>
      (match job.outcome
       case Resolved(result) =>
         |errors| == |result.errors| &&
         forall i :: 0 <= i < |errors| ==> errors[i] == Located(result.errors[i], job.path)
       case Rejected(message) => errors == [ExtractionError(message, Some(job.path), true, "parse_error")])
    case Refused(Unreadable(path, message)) =>
      errors == [ExtractionError("Failed to read file: " + message, Some(path), true, "read_error")]
    case Refused(Readable(job)) =>
      errors == [ExtractionError("File exceeds max size", Some(job.path), false, "size_exceeded")]
  }

  /** Every event appends its own errors and no others. */
  lemma ErrorsExact(t: Tables, log: seq<Event>) returns (own: seq<ExtractionError>)
    requires Sound(log) && log != []
    ensures ReportedBy(log[|log| - 1], own)
    ensures Sound(log[..|log| - 1])
    ensures Replay(t, log).errors == Replay(t, log[..|log| - 1]).errors + own
  {
    var init, e := log[..|log| - 1], log[|log| - 1];
    assert e in log && forall x :: x in init ==> x in log;
    own := match e
      case Committed(job) =>
        (match job.outcome
         case Resolved(result) => WithPath(result.errors, job.path)
         case Rejected(message) => [ExtractionError(message, Some(job.path), true, "parse_error")])
      case Refused(x) => [RefusalError(x)];
  }

  /** Which counter a parsed file goes to. */
  lemma StatusExact(job: Job, result: ExtractionResult)
    ensures StatusOf(job, result) == Indexed <==>
      result.nodes != [] || (job.fileLevelOnly && forall e :: e in result.errors ==> !e.isError)
    ensures StatusOf(job, result) == Errored <==> result.nodes == [] && exists e :: e in result.errors && e.isError
  {
  }
}
