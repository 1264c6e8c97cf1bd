/** Properties of the graph store over whole runs of write operations. */
module StoreRuns {
  import opened Collections
  import opened GraphTables
  import opened StoreExtraction

  datatype Op =
    | StoreResult(path: Path, content: string, language: string, stats: Stats, result: ExtractionResult)
    | RemoveFile(path: Path)
    | AddNodes(ns: seq<Node>)
    | AddEdges(es: seq<Edge>)
    | RemoveNode(id: NodeId)
    | ChangeNode(n: Node)
    | Wipe

  function Apply(t: Tables, op: Op): Tables {
    match op
    case StoreResult(path, content, language, stats, result) => Store(t, path, content, language, stats, result)
    case RemoveFile(path) => DeleteFile(t, path)
    case AddNodes(ns) => InsertNodes(t, ns)
    case AddEdges(es) => InsertEdges(t, es)
    case RemoveNode(id) => DeleteNode(t, id)
    case ChangeNode(n) => UpdateNode(t, n)
    case Wipe => ClearAll(t)
  }

  function Run(ops: seq<Op>): Tables
    decreases |ops|
  {
    if ops == [] then NO_TABLES else Apply(Run(ops[..|ops| - 1]), ops[|ops| - 1])
  }

  /** No sequence of writes, with any arguments, leaves a dangling edge, two rows of one
      edge identity, or a node row under a foreign id. */
  lemma {:induction false} RunsStayWellFormed(ops: seq<Op>)
    ensures WellFormed(Run(ops))
    decreases |ops|
  {
    if ops != [] {
      RunsStayWellFormed(ops[..|ops| - 1]);
      var t := Run(ops[..|ops| - 1]);
      match ops[|ops| - 1]
      case StoreResult(path, content, language, stats, result) =>
        StoreWellFormed(t, path, content, language, stats, result);
      case RemoveFile(path) => DeleteNodesWellFormed(t, NodesOfFile(t, path));
      case AddNodes(ns) => InsertNodesWellFormed(t, ns);
      case AddEdges(es) => InsertEdgesWellFormed(t, es);
      case RemoveNode(id) => DeleteNodesWellFormed(t, {id});
      case ChangeNode(n) =>
      case Wipe =>
    }
  }

  // ----------------------------------- the simple index that the tables implement

  /** What the index is meant to remember: per tracked file the hash, and per file the rows
      written for it, of which a later one replaces an earlier one with the same id. */
  datatype Index = Index(hashes: map<Path, ContentHash>, rows: map<Path, seq<Node>>)

  const NOTHING := Index(map[], map[])

  function RowsIn(m: Index, path: Path): seq<Node> {
    if path in m.rows then m.rows[path] else []
  }

  function RememberedRow(m: Index, id: NodeId): Option<Node> {
    if id.NodeId? then LastRow(RowsIn(m, id.path), id) else None
  }

  /** Every node is written under an id that was hashed from its own file path. */
  ghost predicate Stamped(op: Op) {
    match op
    case StoreResult(path, _, _, _, result) => ResultOf(path, result)
    case AddNodes(ns) => forall n :: n in ns && n.Complete() ==> OwnId(n)
    case ChangeNode(n) => n.Complete() ==> OwnId(n)
    case _ => true
  }

  ghost predicate OwnId(n: Node) {
    InFile(n.id, n.filePath)
  }

  function Append(m: Index, n: Node): Index {
    if n.Complete() then m.(rows := m.rows[n.filePath := RowsIn(m, n.filePath) + [n]]) else m
  }

  function AppendAll(m: Index, ns: seq<Node>): Index {
    if ns == [] then m else Append(AppendAll(m, ns[..|ns| - 1]), ns[|ns| - 1])
  }

  function ForgetFile(m: Index, path: Path): Index {
    Index(m.hashes - {path}, m.rows - {path})
  }

  /** A file that is not tracked is not cleared before it is stored. */
  function Remember(m: Index, op: Op): Index {
    match op
    case StoreResult(path, content, _, _, result) =>
      var hash := ContentHash(content);
      if path in m.hashes && m.hashes[path] == hash then m
      else Index(m.hashes[path := hash],
                 m.rows[path := (if path in m.hashes then [] else RowsIn(m, path)) + CompleteNodes(result)])
    case RemoveFile(path) => ForgetFile(m, path)
    case AddNodes(ns) => AppendAll(m, ns)
    case AddEdges(_) => m
    case RemoveNode(id) =>
      if id.NodeId? then m.(rows := m.rows[id.path := WithoutId(RowsIn(m, id.path), id)]) else m
    case ChangeNode(n) => if RememberedRow(m, n.id).Some? then Append(m, n) else m
    case Wipe => NOTHING
  }

  function Remembered(ops: seq<Op>): Index {
    if ops == [] then NOTHING else Remember(Remembered(ops[..|ops| - 1]), ops[|ops| - 1])
  }

  function RowOf(t: Tables, id: NodeId): Option<Node> {
    if id in t.nodes then Some(t.nodes[id]) else None
  }

  /** The tables hold exactly the remembered hashes and rows: nothing missing, no leftovers. */
  ghost predicate Represents(t: Tables, m: Index) {
    && t.files.Keys == m.hashes.Keys
    && (forall p :: p in m.hashes ==> t.files[p].contentHash == m.hashes[p])
    && (forall id :: RowOf(t, id) == RememberedRow(m, id))
    && OwnRows(t)
  }

  ghost predicate OwnRows(t: Tables) {
    forall id :: id in t.nodes ==> t.nodes[id].id == id && OwnId(t.nodes[id])
  }

  /** Over every run of the seven write operations the file and node tables are those of
      the simple index. */
  lemma {:induction false} RunsRemember(ops: seq<Op>)
    requires forall op :: op in ops ==> Stamped(op)
    ensures Represents(Run(ops), Remembered(ops))
    decreases |ops|
  {
    if ops != [] {
      var init, op := ops[..|ops| - 1], ops[|ops| - 1];
      RunsRemember(init);
      assert op in ops;
      StepRemembers(Run(init), Remembered(init), op);
    }
  }

  lemma StepRemembers(t: Tables, m: Index, op: Op)
    requires Represents(t, m) && Stamped(op)
    ensures Represents(Apply(t, op), Remember(m, op))
  {
    match op
    case StoreResult(path, content, language, stats, result) =>
      StoreRemembers(t, m, path, content, language, stats, result);
    case RemoveFile(path) => RemoveRemembers(t, m, path);
    case AddNodes(ns) => InsertsRemembered(t, m, ns);
    case AddEdges(es) => SameRows(t, Apply(t, op), m);
    case RemoveNode(id) => RemoveNodeRemembers(t, m, id);
    case ChangeNode(n) => ChangeRemembers(t, m, n);
    case Wipe =>
  }

  lemma SameRows(t: Tables, t': Tables, m: Index)
    requires Represents(t, m) && t'.files == t.files && t'.nodes == t.nodes
    ensures Represents(t', m)
  {
    forall id ensures RowOf(t', id) == RememberedRow(m, id) {
      assert RowOf(t', id) == RowOf(t, id);
    }
  }

  lemma RemoveRemembers(t: Tables, m: Index, path: Path)
    requires Represents(t, m)
    ensures Represents(DeleteFile(t, path), ForgetFile(m, path))
  {
    var t', m' := DeleteFile(t, path), ForgetFile(m, path);
    forall id ensures RowOf(t', id) == RememberedRow(m', id) {
      assert RowOf(t, id) == RememberedRow(m, id);
    }
  }

  /** Writing one more row under an id of its own file. */
  lemma AppendRemembers(t: Tables, t': Tables, m: Index, n: Node)
    requires Represents(t, m) && n.Complete() && OwnId(n)
    requires t'.files == t.files && t'.nodes == t.nodes[n.id := n]
    ensures Represents(t', Append(m, n))
  {
    var m' := Append(m, n);
    var before := RowsIn(m, n.filePath);
    forall id ensures RowOf(t', id) == RememberedRow(m', id) {
      assert RowOf(t, id) == RememberedRow(m, id);
      LastRowAppend(before, n, id);
    }
  }

  lemma InsertRemembers(t: Tables, m: Index, n: Node)
    requires Represents(t, m) && (n.Complete() ==> OwnId(n))
    ensures Represents(InsertNode(t, n), Append(m, n))
  {
    if n.Complete() {
      var t' := InsertNode(t, n);
      assert t'.nodes == t.nodes[n.id := n];
      AppendRemembers(t, t', m, n);
    }
  }

  lemma {:induction false} InsertsRemembered(t: Tables, m: Index, ns: seq<Node>)
    requires Represents(t, m) && forall n :: n in ns && n.Complete() ==> OwnId(n)
    ensures Represents(InsertNodes(t, ns), AppendAll(m, ns))
    decreases |ns|
  {
    if ns != [] {
      var init, last := ns[..|ns| - 1], ns[|ns| - 1];
      assert last in ns && forall n :: n in init ==> n in ns;
      InsertsRemembered(t, m, init);
      InsertRemembers(InsertNodes(t, init), AppendAll(m, init), last);
    }
  }

  lemma ChangeRemembers(t: Tables, m: Index, n: Node)
    requires Represents(t, m) && (n.Complete() ==> OwnId(n))
    ensures Represents(UpdateNode(t, n), Remember(m, ChangeNode(n)))
  {
    assert RowOf(t, n.id) == RememberedRow(m, n.id);
    if n.Complete() && n.id in t.nodes {
      AppendRemembers(t, UpdateNode(t, n), m, n);
    }
  }

  lemma LastRowAppend(ns: seq<Node>, n: Node, id: NodeId)
    ensures LastRow(ns + [n], id) == if n.id == id then Some(n) else LastRow(ns, id)
  {
    assert (ns + [n])[..|ns|] == ns;
  }

  function WithoutId(ns: seq<Node>, gone: NodeId): seq<Node> {
    Filter(ns, (n: Node) => n.id != gone)
  }

  lemma WithoutIdAppend(ns: seq<Node>, n: Node, gone: NodeId)
    ensures WithoutId(ns + [n], gone) == if n.id == gone then WithoutId(ns, gone) else WithoutId(ns, gone) + [n]
  {
    FilterAppend(ns, [n], (n: Node) => n.id != gone);
    assert WithoutId([n][1..], gone) == [];
    assert WithoutId([n], gone) == if n.id == gone then [] else [n];
  }

  lemma {:induction false} LastRowWithout(ns: seq<Node>, gone: NodeId, id: NodeId)
    ensures LastRow(WithoutId(ns, gone), id) == if id == gone then None else LastRow(ns, id)
    decreases |ns|
  {
    if ns != [] {
      var init, last := ns[..|ns| - 1], ns[|ns| - 1];
      LastRowWithout(init, gone, id);
      assert ns == init + [last];
      WithoutIdAppend(init, last, gone);
      LastRowAppend(init, last, id);
      LastRowAppend(WithoutId(init, gone), last, id);
    }
  }

  lemma RemoveNodeRemembers(t: Tables, m: Index, gone: NodeId)
    requires Represents(t, m)
    ensures Represents(DeleteNode(t, gone), Remember(m, RemoveNode(gone)))
  {
    var t', m' := DeleteNode(t, gone), Remember(m, RemoveNode(gone));
    forall id ensures RowOf(t', id) == RememberedRow(m', id) {
      assert RowOf(t, id) == RememberedRow(m, id);
      if gone.NodeId? && InFile(id, gone.path) {
        LastRowWithout(RowsIn(m, gone.path), gone, id);
      }
    }
  }

  /** One store: the rows of a tracked file are replaced, the rest is left alone. */
  lemma StoreRemembers(t: Tables, m: Index, path: Path, content: string, language: string, stats: Stats,
                       result: ExtractionResult)
    requires Represents(t, m) && ResultOf(path, result)
    ensures Represents(Store(t, path, content, language, stats, result),
                       Remember(m, StoreResult(path, content, language, stats, result)))
  {
    if !Unchanged(t, path, content) {
      var left, t' := Left(m, path), Store(t, path, content, language, stats, result);
      if path in t.files {
        RemoveRemembers(t, m, path);
      }
      RebuiltRemembers(Cleared(t, path), left, path, t', CompleteNodes(result),
                       Record(content, language, stats, result));
      StoredOver(m, path, ContentHash(content), CompleteNodes(result));
    }
  }

  /** A tracked file is forgotten before it is stored again. */
  function Left(m: Index, path: Path): Index {
    if path in m.hashes then ForgetFile(m, path) else m
  }

  function StoredIn(m: Index, path: Path, hash: ContentHash, valid: seq<Node>): Index {
    Index(m.hashes[path := hash], m.rows[path := RowsIn(m, path) + valid])
  }

  lemma StoredOver(m: Index, path: Path, hash: ContentHash, valid: seq<Node>)
    ensures StoredIn(Left(m, path), path, hash, valid) ==
      Index(m.hashes[path := hash], m.rows[path := (if path in m.hashes then [] else RowsIn(m, path)) + valid])
  {
  }

  lemma RebuiltRemembers(t: Tables, m: Index, path: Path, t': Tables, valid: seq<Node>, r: FileRecord)
    requires Represents(t, m) && forall n :: n in valid ==> n.Complete() && n.filePath == path && OwnId(n)
    requires var withNodes := InsertNodes(t, valid);
      t'.nodes == withNodes.nodes && t'.files == withNodes.files[path := r]
    ensures Represents(t', StoredIn(m, path, r.contentHash, valid))
  {
    var m1 := AppendAll(m, valid).(hashes := m.hashes[path := r.contentHash]);
    var m2 := StoredIn(m, path, r.contentHash, valid);
    InsertsRemembered(t, m, valid);
    AppendedToFile(m, path, valid);
    FileRecorded(InsertNodes(t, valid), AppendAll(m, valid), t', path, r);
    forall p ensures RowsIn(m1, p) == RowsIn(m2, p) {
      assert RowsIn(m1, p) == RowsIn(AppendAll(m, valid), p);
    }
    SameMemory(t', m1, m2);
  }

  lemma SameMemory(t: Tables, m: Index, m': Index)
    requires Represents(t, m) && m'.hashes == m.hashes && forall p :: RowsIn(m', p) == RowsIn(m, p)
    ensures Represents(t, m')
  {
    forall id ensures RowOf(t, id) == RememberedRow(m', id) {
      assert RowOf(t, id) == RememberedRow(m, id);
    }
  }

  lemma AppendedToFile(m: Index, path: Path, ns: seq<Node>)
    requires forall n :: n in ns ==> n.Complete() && n.filePath == path
    ensures AppendAll(m, ns).hashes == m.hashes
    ensures forall p :: RowsIn(AppendAll(m, ns), p) == if p == path then RowsIn(m, path) + ns else RowsIn(m, p)
  {
    AppendKeepsHashes(m, ns);
    forall p
      ensures RowsIn(AppendAll(m, ns), p) == if p == path then RowsIn(m, path) + ns else RowsIn(m, p)
    {
      AppendedTo(m, ns, p);
      AllOfFile(ns, path, p);
      assert RowsIn(m, p) + [] == RowsIn(m, p);
    }
  }

  /** The nodes of the list that are written under a path. */
  function Written(ns: seq<Node>, p: Path): seq<Node> {
    if ns == [] then []
    else
      var before, last := Written(ns[..|ns| - 1], p), ns[|ns| - 1];
      if last.Complete() && last.filePath == p then before + [last] else before
  }

  lemma {:induction false} AppendKeepsHashes(m: Index, ns: seq<Node>)
    ensures AppendAll(m, ns).hashes == m.hashes
  {
    if ns != [] {
      AppendKeepsHashes(m, ns[..|ns| - 1]);
    }
  }

  lemma {:induction false} AppendedTo(m: Index, ns: seq<Node>, p: Path)
    ensures RowsIn(AppendAll(m, ns), p) == RowsIn(m, p) + Written(ns, p)
  {
    if ns == [] {
      assert RowsIn(m, p) + [] == RowsIn(m, p);
    } else {
      var init, last := ns[..|ns| - 1], ns[|ns| - 1];
      AppendedTo(m, init, p);
      OneAppended(AppendAll(m, init), last, p);
      Grouped(RowsIn(m, p), Written(init, p), last);
    }
  }

  lemma Grouped(a: seq<Node>, b: seq<Node>, n: Node)
    ensures (a + b) + [n] == a + (b + [n])
  {
  }

  lemma OneAppended(m: Index, n: Node, p: Path)
    ensures RowsIn(Append(m, n), p) == if n.Complete() && p == n.filePath then RowsIn(m, p) + [n] else RowsIn(m, p)
  {
  }

  lemma {:induction false} AllOfFile(ns: seq<Node>, path: Path, p: Path)
    requires forall n :: n in ns ==> n.Complete() && n.filePath == path
    ensures Written(ns, p) == if p == path then ns else []
  {
    if ns != [] {
      var init, last := ns[..|ns| - 1], ns[|ns| - 1];
      assert last in ns && forall n :: n in init ==> n in ns;
      AllOfFile(init, path, p);
      assert ns == init + [last];
    }
  }

  lemma FileRecorded(t: Tables, m: Index, t': Tables, path: Path, r: FileRecord)
    requires Represents(t, m) && t'.nodes == t.nodes && t'.files == t.files[path := r]
    ensures Represents(t', m.(hashes := m.hashes[path := r.contentHash]))
  {
    var m' := m.(hashes := m.hashes[path := r.contentHash]);
    forall id ensures RowOf(t', id) == RememberedRow(m', id) {
      assert RowOf(t, id) == RememberedRow(m, id);
    }
  }

  // ------------------------------------------------- runs of indexing alone

  predicate Indexing(op: Op) {
    op.StoreResult? || op.RemoveFile? || op.AddEdges? || op.Wipe?
  }

  /** Operation `j` of the run changed what is stored for the file. */
  ghost predicate Rewrites(ops: seq<Op>, j: nat, path: Path)
    requires j < |ops|
  {
    match ops[j]
    case StoreResult(p, content, _, _, _) => p == path && !Unchanged(Run(ops[..j]), path, content)
    case RemoveFile(p) => p == path
    case Wipe => true
    case _ => false
  }

  /** Operation `i` is the last one to change what is stored for the file, and stored it. */
  ghost predicate InForce(ops: seq<Op>, path: Path, i: nat) {
    && i < |ops| && ops[i].StoreResult? && Rewrites(ops, i, path)
    && forall j :: i < j < |ops| ==> !Rewrites(ops, j, path)
  }

  /** When only indexing writes, a file's rows are those of the last result that was really
      stored for it, and a file without such a result has no rows and no record. */
  lemma {:induction false} NoLeftovers(ops: seq<Op>, path: Path)
    requires forall op :: op in ops ==> Indexing(op) && Stamped(op)
    ensures var m := Remembered(ops);
      && (path in m.rows <==> path in m.hashes)
      && (path in m.hashes <==> exists i: nat :: InForce(ops, path, i))
      && forall i: nat :: InForce(ops, path, i) ==>
           && path in m.hashes && m.hashes[path] == ContentHash(ops[i].content)
           && m.rows[path] == CompleteNodes(ops[i].result)
    decreases |ops|
  {
    if ops != [] {
      var n := |ops| - 1;
      var init, op := ops[..n], ops[n];
      NoLeftovers(init, path);
      RunsRemember(init);
      assert op in ops;
      forall i: nat ensures InForce(ops, path, i) <==>
        if i == n then op.StoreResult? && Rewrites(ops, n, path) else InForce(init, path, i) && !Rewrites(ops, n, path)
      {
        InForceStep(ops, path, i);
      }
      if Rewrites(ops, n, path) {
        assert InForce(ops, path, n) <==> op.StoreResult?;
        RewriteRemembers(ops, path);
      } else {
        NoRewriteRemembers(Run(init), Remembered(init), op, path);
        if i: nat :| InForce(init, path, i) {
          assert InForce(ops, path, i);
        }
      }
    }
  }

  lemma InForceStep(ops: seq<Op>, path: Path, i: nat)
    requires ops != []
    ensures var n := |ops| - 1;
      InForce(ops, path, i) <==>
      if i == n then ops[n].StoreResult? && Rewrites(ops, n, path)
      else InForce(ops[..n], path, i) && !Rewrites(ops, n, path)
  {
    var n := |ops| - 1;
    forall j: nat | j < n ensures Rewrites(ops, j, path) <==> Rewrites(ops[..n], j, path) {
      assert ops[..n][..j] == ops[..j];
    }
  }

  lemma RewriteRemembers(ops: seq<Op>, path: Path)
    requires ops != [] && Indexing(ops[|ops| - 1]) && Rewrites(ops, |ops| - 1, path)
    requires var init := ops[..|ops| - 1];
      Represents(Run(init), Remembered(init)) && (path in Remembered(init).rows <==> path in Remembered(init).hashes)
    ensures var m, op := Remembered(ops), ops[|ops| - 1];
      && (path in m.rows <==> path in m.hashes) && (path in m.hashes <==> op.StoreResult?)
      && (op.StoreResult? ==> m.hashes[path] == ContentHash(op.content) && m.rows[path] == CompleteNodes(op.result))
  {
  }

  lemma NoRewriteRemembers(t: Tables, m: Index, op: Op, path: Path)
    requires Represents(t, m) && Indexing(op) && !op.Wipe? && (op.RemoveFile? ==> op.path != path)
    requires op.StoreResult? && op.path == path ==> Unchanged(t, path, op.content)
    ensures var m' := Remember(m, op);
      && (path in m'.hashes <==> path in m.hashes) && (path in m'.rows <==> path in m.rows)
      && (path in m.hashes ==> m'.hashes[path] == m.hashes[path])
      && (path in m.rows ==> m'.rows[path] == m.rows[path])
  {
  }

  // ------------------------------------------------------------ file dependents

  ghost predicate DependsOn(t: Tables, dependent: Path, path: Path) {
    exists e :: e in t.edges && IsDependency(t, e, dependent, path)
  }

  /** A row of `getDependentFilePaths`. */
  ghost predicate IsDependency(t: Tables, e: Edge, dependent: Path, path: Path) {
    && e.source in t.nodes && e.target in t.nodes && e.kind != "contains"
    && t.nodes[e.source].filePath == dependent && t.nodes[e.target].filePath == path
    && dependent != path
  }

  /** `e`'s target still has a counterpart of the same kind and name in the new result. */
  ghost predicate StillDefined(t: Tables, e: Edge, result: ExtractionResult) {
    e.target in t.nodes &&
    Retarget(CompleteNodes(result), t.nodes[e.target].kind, t.nodes[e.target].name).Some?
  }

  /** The files that depend on a re-indexed file are exactly those that used a symbol
      which, by kind and name, is still there: a line shift severs nothing. */
  lemma DependentsAfterReindex(t: Tables, path: Path, content: string, language: string, stats: Stats,
                               result: ExtractionResult, dependent: Path)
    requires WellFormed(t) && Owned(t) && ResultOf(path, result) && !Unchanged(t, path, content)
    ensures DependsOn(Store(t, path, content, language, stats, result), dependent, path) <==>
      exists e :: e in t.edges && IsDependency(t, e, dependent, path) && StillDefined(t, e, result)
  {
    ReindexExact(t, path, content, language, stats, result);
    var t' := Store(t, path, content, language, stats, result);
    if DependsOn(t', dependent, path) {
      var e :| e in t'.edges && IsDependency(t', e, dependent, path);
      DependencyBefore(t, t', path, result, dependent, e);
    }
    if was :| was in t.edges && IsDependency(t, was, dependent, path) && StillDefined(t, was, result) {
      DependencyAfter(t, t', path, result, dependent, was);
    }
  }

  lemma DependencyBefore(t: Tables, t': Tables, path: Path, result: ExtractionResult, dependent: Path, e: Edge)
    requires WellFormed(t) && Owned(t) && WellFormed(t') && Owned(t')
    requires RowsReindexed(t, t', path, CompleteNodes(result))
    requires EdgesReindexed(t, t', path, CompleteNodes(result), result.edges)
    requires e in t'.edges && IsDependency(t', e, dependent, path)
    ensures exists was :: was in t.edges && IsDependency(t, was, dependent, path) && StillDefined(t, was, result)
  {
    assert !InFile(e.source, path) && InFile(e.target, path);
    var was :| Survives(t, path, CompleteNodes(result), was, e);
    SurvivorBefore(t, t', path, result, dependent, was, e);
  }

  lemma SurvivorBefore(t: Tables, t': Tables, path: Path, result: ExtractionResult, dependent: Path, was: Edge, e: Edge)
    requires WellFormed(t) && Owned(t) && RowsReindexed(t, t', path, CompleteNodes(result))
    requires Survives(t, path, CompleteNodes(result), was, e) && IsDependency(t', e, dependent, path)
    ensures was in t.edges && IsDependency(t, was, dependent, path) && StillDefined(t, was, result)
  {
  }

  lemma DependencyAfter(t: Tables, t': Tables, path: Path, result: ExtractionResult, dependent: Path, was: Edge)
    requires WellFormed(t) && Owned(t) && WellFormed(t') && Owned(t') && ResultOf(path, result)
    requires RowsReindexed(t, t', path, CompleteNodes(result))
    requires EdgesReindexed(t, t', path, CompleteNodes(result), result.edges)
    requires was in t.edges && IsDependency(t, was, dependent, path) && StillDefined(t, was, result)
    ensures DependsOn(t', dependent, path)
  {
    var valid := CompleteNodes(result);
    var e := was.(target := Retarget(valid, t.nodes[was.target].kind, t.nodes[was.target].name).value);
    assert InFile(e.target, path);
    assert Survives(t, path, valid, was, e);
    assert HasRow(t'.edges, e);
    var row :| row in t'.edges && SameIdentity(row, e);
    assert row.source == was.source && row.target == e.target && row.kind == was.kind;
    assert IsDependency(t', row, dependent, path);
  }
}
