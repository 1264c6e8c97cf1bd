/** `storeExtractionResult`: re-indexing one file without losing the edges that other
    files have into it. */
module StoreExtraction {
  import opened Collections
  import opened GraphTables

  datatype ExtractionError = ExtractionError(
    message: string, filePath: Option<Path>, isError: bool, code: string)

  datatype ExtractionResult = ExtractionResult(
    nodes: seq<Node>, edges: seq<Edge>, errors: seq<ExtractionError>)

  /** The part of `fs.Stats` that is recorded; `mtimeMs` has a fraction. */
  datatype Stats = Stats(size: nat, mtimeMs: real)

  /** A row of `getCrossFileIncomingEdgesWithTarget`. */
  datatype Incoming = Incoming(edge: Edge, targetKind: string, targetName: string)

  function CompleteNodes(result: ExtractionResult): seq<Node> {
    Filter(result.nodes, (n: Node) => n.Complete())
  }

  function Ids(ns: seq<Node>): set<NodeId> {
    set n | n in ns :: n.id
  }

  predicate IsIncoming(t: Tables, path: Path, e: Edge)
  {
    && e.target in t.nodes && t.nodes[e.target].filePath == path
    && e.source in t.nodes && t.nodes[e.source].filePath != path
    && e.kind != "contains"
  }

  function IncomingEdges(t: Tables, path: Path): seq<Edge> {
    Filter(t.edges, (e: Edge) => IsIncoming(t, path, e))
  }

  function WithTarget(t: Tables, es: seq<Edge>): (r: seq<Incoming>)
    requires forall e :: e in es ==> e.target in t.nodes
    ensures forall c :: c in r <==> c.edge in es && c == Joined(t, c.edge)
  {
    if es == [] then [] else
    assert forall e :: e in es <==> e == es[0] || e in es[1..];
    [Joined(t, es[0])] + WithTarget(t, es[1..])
  }

  function Joined(t: Tables, e: Edge): Incoming
    requires e.target in t.nodes
  {
    Incoming(e, t.nodes[e.target].kind, t.nodes[e.target].name)
  }

  function CrossFileIncoming(t: Tables, path: Path): seq<Incoming> {
    WithTarget(t, IncomingEdges(t, path))
  }

  /** The map `newNodesByKindName`, filled in order, so the last match wins. */
  function Retarget(ns: seq<Node>, kind: string, name: string): (r: Option<NodeId>)
    ensures r.Some? ==> exists n :: n in ns && n.kind == kind && n.name == name && n.id == r.value
    ensures r.None? <==> forall n :: n in ns ==> n.kind != kind || n.name != name
  {
    if ns == [] then None
    else
      var last := ns[|ns| - 1];
      assert forall n :: n in ns <==> n in ns[..|ns| - 1] || n == last;
      if last.kind == kind && last.name == name then Some(last.id)
      else Retarget(ns[..|ns| - 1], kind, name)
  }

  /** Among several new nodes of one kind and name the last one is taken. */
  lemma {:induction false} RetargetIsLast(ns: seq<Node>, kind: string, name: string, i: nat)
    requires i < |ns| && ns[i].kind == kind && ns[i].name == name
    requires forall j :: i < j < |ns| ==> ns[j].kind != kind || ns[j].name != name
    ensures Retarget(ns, kind, name) == Some(ns[i].id)
    decreases |ns|
  {
    if i < |ns| - 1 {
      RetargetIsLast(ns[..|ns| - 1], kind, name, i);
    }
  }

  function Reattach(incoming: seq<Incoming>, ns: seq<Node>): (r: seq<Edge>)
    ensures forall e :: e in r <==> exists c :: c in incoming && Moves(c, ns, e)
  {
    if incoming == [] then []
    else
      var c := incoming[0];
      var rest := Reattach(incoming[1..], ns);
      assert forall x :: x in incoming <==> x == c || x in incoming[1..];
      match Retarget(ns, c.targetKind, c.targetName)
      case Some(id) =>
        assert Moves(c, ns, c.edge.(target := id));
        [c.edge.(target := id)] + rest
      case None => rest
  }

  /** `e` is the snapshotted edge `c` moved onto the re-indexed target. */
  ghost predicate Moves(c: Incoming, ns: seq<Node>, e: Edge) {
    var id := Retarget(ns, c.targetKind, c.targetName);
    id.Some? && e == c.edge.(target := id.value)
  }

  function Record(content: string, language: string, stats: Stats, result: ExtractionResult): FileRecord {
    FileRecord(ContentHash(content), language, stats.size, stats.mtimeMs, |result.nodes|)
  }

  predicate Unchanged(t: Tables, path: Path, content: string) {
    path in t.files && t.files[path].contentHash == ContentHash(content)
  }

  /** The file's rows are deleted when it was indexed before. */
  function Cleared(t: Tables, path: Path): Tables {
    if path in t.files then DeleteFile(t, path) else t
  }

  /** The snapshot is taken before the delete, and only for a file indexed before. */
  function Snapshot(t: Tables, path: Path): seq<Incoming> {
    if path in t.files then CrossFileIncoming(t, path) else []
  }

  /** Extracted edges between nodes that were really inserted. */
  function OwnEdges(valid: seq<Node>, extracted: seq<Edge>): seq<Edge> {
    var ids := Ids(valid);
    Filter(extracted, (e: Edge) => e.source in ids && e.target in ids)
  }

  function Rebuilt(t: Tables, path: Path, result: ExtractionResult): Tables {
    var valid := CompleteNodes(result);
    var withNodes := InsertNodes(Cleared(t, path), valid);
    var withEdges := InsertEdges(withNodes, OwnEdges(valid, result.edges));
    InsertEdges(withEdges, Reattach(Snapshot(t, path), valid))
  }

  function Store(t: Tables, path: Path, content: string, language: string, stats: Stats,
                 result: ExtractionResult): Tables
  {
    if Unchanged(t, path, content) then t
    else UpsertFile(Rebuilt(t, path, result), path, Record(content, language, stats, result))
  }

  // ------------------------------------------------------------ integrity

  /** Whatever the extractor returns, the graph stays free of dangling edges and of
      duplicate edge identities. */
  lemma StoreWellFormed(t: Tables, path: Path, content: string, language: string, stats: Stats,
                        result: ExtractionResult)
    requires WellFormed(t)
    ensures WellFormed(Store(t, path, content, language, stats, result))
  {
    DeleteNodesWellFormed(t, NodesOfFile(t, path));
    var valid := CompleteNodes(result);
    InsertNodesWellFormed(Cleared(t, path), valid);
    var withNodes := InsertNodes(Cleared(t, path), valid);
    InsertEdgesWellFormed(withNodes, OwnEdges(valid, result.edges));
    InsertEdgesWellFormed(InsertEdges(withNodes, OwnEdges(valid, result.edges)), Reattach(Snapshot(t, path), valid));
  }

  /** Only the record of the stored file changes. */
  lemma StoreFiles(t: Tables, path: Path, content: string, language: string, stats: Stats, result: ExtractionResult)
    requires !Unchanged(t, path, content)
    ensures forall p :: p in Store(t, path, content, language, stats, result).files <==> p in t.files || p == path
    ensures forall p :: p in t.files && p != path ==>
      Store(t, path, content, language, stats, result).files[p] == t.files[p]
    ensures Store(t, path, content, language, stats, result).files[path] == Record(content, language, stats, result)
  {
    var valid := CompleteNodes(result);
    InsertNodesFiles(Cleared(t, path), valid);
  }

  lemma {:induction false} InsertNodesFiles(t: Tables, ns: seq<Node>)
    ensures InsertNodes(t, ns).files == t.files
    decreases |ns|
  {
    if ns != [] {
      InsertNodesFiles(t, ns[..|ns| - 1]);
    }
  }

  // -------------------------------------------------- exactness of a re-index

  /** Every row belongs to the file its id was hashed from, and that file is tracked. */
  ghost predicate Owned(t: Tables) {
    forall id :: id in t.nodes ==>
      id.NodeId? && id.path == t.nodes[id].filePath && id.path in t.files
  }

  /** Extractors stamp every node with the path of the file they were given. */
  ghost predicate ResultOf(path: Path, result: ExtractionResult) {
    forall n :: n in result.nodes && n.Complete() ==> n.filePath == path && n.id.path == path
  }

  ghost predicate InFile(id: NodeId, path: Path) {
    id.NodeId? && id.path == path
  }

  /** The row that a list of nodes leaves under an id: `INSERT OR REPLACE`, so the last. */
  function LastRow(ns: seq<Node>, id: NodeId): (r: Option<Node>)
    ensures r.Some? <==> id in Ids(ns)
    ensures r.Some? ==> r.value in ns && r.value.id == id
  {
    if ns == [] then None
    else
      var last := ns[|ns| - 1];
      assert forall n :: n in ns <==> n in ns[..|ns| - 1] || n == last;
      if last.id == id then Some(last) else LastRow(ns[..|ns| - 1], id)
  }

  lemma InsertNodeExact(t: Tables, n: Node)
    requires n.Complete()
    requires forall e :: e in t.edges ==> e.source != n.id && e.target != n.id
    ensures InsertNode(t, n) == t.(nodes := t.nodes[n.id := n])
  {
    UntouchedAll(t.edges, {n.id});
  }

  /** Inserting nodes whose ids no edge mentions changes only the node rows. */
  lemma {:induction false} InsertNodesExact(t: Tables, ns: seq<Node>)
    requires forall n :: n in ns ==> n.Complete()
    requires forall e, n :: e in t.edges && n in ns ==> e.source != n.id && e.target != n.id
    ensures var r := InsertNodes(t, ns);
      && r.edges == t.edges && r.files == t.files
      && (forall id :: id in r.nodes <==> id in t.nodes || LastRow(ns, id).Some?)
      && (forall id :: id in r.nodes ==> 
            Some(r.nodes[id]) == (if LastRow(ns, id).Some? then LastRow(ns, id) else Some(t.nodes[id])))
    decreases |ns|
  {
    if ns != [] {
      var init, last := ns[..|ns| - 1], ns[|ns| - 1];
      assert forall n :: n in init ==> n in ns;
      assert last in ns;
      InsertNodesExact(t, init);
      InsertNodeExact(InsertNodes(t, init), last);
    }
  }

  /** What `storeExtractionResult` promises about the incoming edges of a re-indexed
      file, about everything else, and about the file's own rows. */
  ghost predicate RowsReindexed(t: Tables, t': Tables, path: Path, valid: seq<Node>) {
    && (forall id :: InFile(id, path) ==> (id in t'.nodes <==> LastRow(valid, id).Some?))
    && (forall id :: InFile(id, path) && id in t'.nodes ==> Some(t'.nodes[id]) == LastRow(valid, id))
    && (forall id :: !InFile(id, path) ==> (id in t'.nodes <==> id in t.nodes))
    && (forall id :: !InFile(id, path) && id in t.nodes ==> t'.nodes[id] == t.nodes[id])
  }

  ghost predicate EdgesReindexed(t: Tables, t': Tables, path: Path, valid: seq<Node>, extracted: seq<Edge>) {
    && (forall e: Edge :: !InFile(e.source, path) && !InFile(e.target, path) ==>
          (e in t'.edges <==> e in t.edges))
    && (forall e :: e in t'.edges && InFile(e.source, path) ==>
          e in extracted && e.source in Ids(valid) && e.target in Ids(valid))
    && (forall e :: e in extracted && e.source in Ids(valid) && e.target in Ids(valid) ==>
          HasRow(t'.edges, e))
    && (forall e :: e in t'.edges && !InFile(e.source, path) && InFile(e.target, path) ==>
          exists was :: Survives(t, path, valid, was, e))
    && (forall was, e :: Survives(t, path, valid, was, e) ==> HasRow(t'.edges, e))
  }

  /** A non-`contains` edge from another file, moved to the new node that has its former
      target's kind and name. Source, kind, line, column and payload are those of `was`. */
  ghost predicate Survives(t: Tables, path: Path, valid: seq<Node>, was: Edge, e: Edge) {
    && was in t.edges && was.source in t.nodes && was.target in t.nodes
    && was.kind != "contains" && !InFile(was.source, path) && InFile(was.target, path)
    && var id := Retarget(valid, t.nodes[was.target].kind, t.nodes[was.target].name);
       id.Some? && e == was.(target := id.value)
  }

  lemma ReindexExact(t: Tables, path: Path, content: string, language: string, stats: Stats,
                     result: ExtractionResult)
    requires WellFormed(t) && Owned(t) && ResultOf(path, result)
    requires !Unchanged(t, path, content)
    ensures var t' := Store(t, path, content, language, stats, result);
      && RowsReindexed(t, t', path, CompleteNodes(result))
      && EdgesReindexed(t, t', path, CompleteNodes(result), result.edges)
      && t'.files == t.files[path := Record(content, language, stats, result)]
      && WellFormed(t') && Owned(t')
  {
    StoreWellFormed(t, path, content, language, stats, result);
    RowsExact(t, path, result);
    EdgesOfRebuilt(t, path, result);
  }

  lemma RowsExact(t: Tables, path: Path, result: ExtractionResult)
    requires WellFormed(t) && Owned(t) && ResultOf(path, result)
    ensures var t' := Rebuilt(t, path, result);
      && RowsReindexed(t, t', path, CompleteNodes(result))
      && t'.files == t.files - {path}
      && t'.nodes == InsertNodes(Cleared(t, path), CompleteNodes(result)).nodes
      && (forall id :: id in t'.nodes <==> (id in t.nodes && !InFile(id, path)) || id in Ids(CompleteNodes(result)))
  {
    ClearedExact(t, path);
    InsertNodesExact(Cleared(t, path), CompleteNodes(result));
  }

  lemma EdgesOfRebuilt(t: Tables, path: Path, result: ExtractionResult)
    requires WellFormed(t) && Owned(t) && ResultOf(path, result)
    ensures EdgesReindexed(t, Rebuilt(t, path, result), path, CompleteNodes(result), result.edges)
  {
    var t' := Rebuilt(t, path, result);
    var kept, valid := Cleared(t, path).edges, CompleteNodes(result);
    ClearedExact(t, path);
    InsertNodesExact(Cleared(t, path), valid);
    RowsExact(t, path, result);
    var own, moved := OwnEdges(valid, result.edges), Reattach(Snapshot(t, path), valid);
    var live := t'.nodes.Keys;
    DeleteNodesWellFormed(t, NodesOfFile(t, path));
    InsertLiveExact(kept, live, own);
    var withEdges := InsertLive(kept, live, own);
    InsertLiveExact(withEdges, live, moved);
    MovedExact(t, path, valid);
    EdgesExact(t, t', path, valid, result.edges, kept, withEdges, own, moved, live);
  }

  /** The edges of the re-indexed graph, from what the two batch inserts did. */
  lemma EdgesExact(t: Tables, t': Tables, path: Path, valid: seq<Node>, extracted: seq<Edge>,
                   kept: seq<Edge>, withEdges: seq<Edge>, own: seq<Edge>, moved: seq<Edge>, live: set<NodeId>)
    requires forall n :: n in valid ==> InFile(n.id, path)
    requires forall e :: e in kept <==>
      e in t.edges && !InFile(e.source, path) && !InFile(e.target, path)
    requires forall e :: e in own <==> e in extracted && e.source in Ids(valid) && e.target in Ids(valid)
    requires forall e :: e in moved <==> exists was :: Survives(t, path, valid, was, e)
    requires forall id :: id in live <==> (id in t.nodes && !InFile(id, path)) || id in Ids(valid)
    requires kept <= withEdges <= t'.edges
    requires forall e :: e in withEdges && e !in kept ==> e in own
    requires forall e :: e in t'.edges && e !in withEdges ==> e in moved
    requires forall k :: k in KeySet(withEdges) <==> k in KeySet(kept) || Accepted(own, live, k)
    requires forall k :: k in KeySet(t'.edges) <==> k in KeySet(withEdges) || Accepted(moved, live, k)
    ensures EdgesReindexed(t, t', path, valid, extracted)
  {
    forall e | e in kept ensures e in t'.edges {
      PrefixIn(kept, withEdges, e);
      PrefixIn(withEdges, t'.edges, e);
    }
    forall e | e in own ensures HasRow(t'.edges, e) {
      RowByKey(t'.edges, e);
      assert Accepted(own, live, Key(e));
    }
    forall was, e | Survives(t, path, valid, was, e) ensures HasRow(t'.edges, e) {
      RowByKey(t'.edges, e);
      assert e in moved;
      assert Accepted(moved, live, Key(e));
    }
  }

  lemma MovedExact(t: Tables, path: Path, valid: seq<Node>)
    requires WellFormed(t) && Owned(t)
    ensures forall e :: e in Reattach(Snapshot(t, path), valid) <==>
      exists was :: Survives(t, path, valid, was, e)
  {
    var incoming := Snapshot(t, path);
    forall e ensures e in Reattach(incoming, valid) <==> exists was :: Survives(t, path, valid, was, e) {
      if e in Reattach(incoming, valid) {
        var c :| c in incoming && Moves(c, valid, e);
        assert Survives(t, path, valid, c.edge, e);
      }
      if was :| Survives(t, path, valid, was, e) {
        var c := Joined(t, was);
        assert c in incoming && Moves(c, valid, e);
      }
    }
  }

  lemma PrefixIn<T>(a: seq<T>, b: seq<T>, x: T)
    requires a <= b && x in a
    ensures x in b
  {
    var i :| 0 <= i < |a| && a[i] == x;
    assert b[i] == x;
  }

  /** After the delete, neither rows nor edge ends of the file are left. */
  lemma ClearedExact(t: Tables, path: Path)
    requires WellFormed(t) && Owned(t)
    ensures var cleared := Cleared(t, path);
      && (forall id :: id in cleared.nodes <==> id in t.nodes && !InFile(id, path))
      && (forall id :: id in cleared.nodes ==> cleared.nodes[id] == t.nodes[id])
      && (forall e :: e in cleared.edges <==>
            e in t.edges && !InFile(e.source, path) && !InFile(e.target, path))
      && cleared.files == t.files - {path}
  {
  }
}
