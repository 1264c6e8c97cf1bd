/** The SQLite tables behind the code graph, as values: `files`, `nodes`, `edges`
    (with the foreign-key cascade and the unique identity index) and the write
    operations of the query layer on them. */
module GraphTables {
  import opened Collections

  type Path = string

  /** The node id hash is injective, so an id is as good as what was hashed:
      the file path and the rest (kind, name, line). `NoId` is the empty id. */
  datatype NodeId = NoId | NodeId(path: Path, discriminator: string)

  datatype Node = Node(
    id: NodeId, kind: string, name: string, filePath: Path, language: string,
    detail: string)
  {
    /** The required fields that `insertNode` checks before binding. */
    predicate Complete() {
      id != NoId && kind != "" && name != "" && filePath != "" && language != ""
    }
  }

  /** `payload` stands for metadata and provenance, which are not part of the identity. */
  datatype Edge = Edge(
    source: NodeId, target: NodeId, kind: string,
    line: Option<int>, column: Option<int>, payload: string)

  datatype EdgeKey = EdgeKey(source: NodeId, target: NodeId, kind: string, line: int, column: int)

  /** The content hash is injective, so it is as good as the content. */
  datatype ContentHash = ContentHash(content: string)

  datatype FileRecord = FileRecord(
    contentHash: ContentHash, language: string, size: nat, modifiedAt: real, nodeCount: nat)

  datatype Tables = Tables(
    files: map<Path, FileRecord>,
    nodes: map<NodeId, Node>,
    edges: seq<Edge>)

  const NO_TABLES := Tables(map[], map[], [])

  function IfNull(x: Option<int>, default: int): int {
    match x case Some(v) => v case None => default
  }

  /** The columns of `idx_edges_identity`. */
  function Key(e: Edge): EdgeKey {
    EdgeKey(e.source, e.target, e.kind, IfNull(e.line, -1), IfNull(e.column, -1))
  }

  function KeySet(edges: seq<Edge>): set<EdgeKey> {
    set e | e in edges :: Key(e)
  }

  /** An absent line or column counts as -1. */
  predicate SamePlace(a: Option<int>, b: Option<int>) {
    a == b || (a in {None, Some(-1)} && b in {None, Some(-1)})
  }

  /** What makes two rows one edge, column by column. */
  predicate SameIdentity(e: Edge, f: Edge) {
    && e.source == f.source && e.target == f.target && e.kind == f.kind
    && SamePlace(e.line, f.line) && SamePlace(e.column, f.column)
  }

  lemma KeySame(e: Edge, f: Edge)
    ensures Key(e) == Key(f) <==> SameIdentity(e, f)
  {
  }

  ghost predicate HasRow(edges: seq<Edge>, e: Edge) {
    exists f :: f in edges && SameIdentity(f, e)
  }

  lemma RowByKey(edges: seq<Edge>, e: Edge)
    ensures Key(e) in KeySet(edges) <==> HasRow(edges, e)
  {
    if Key(e) in KeySet(edges) {
      var f :| f in edges && Key(f) == Key(e);
      KeySame(f, e);
    }
    if f :| f in edges && SameIdentity(f, e) {
      KeySame(f, e);
      assert Key(f) in KeySet(edges);
    }
  }

  ghost predicate DistinctKeys(edges: seq<Edge>) {
    forall i, j :: 0 <= i < j < |edges| ==> !SameIdentity(edges[i], edges[j])
  }

  // ---------------------------------------------------------------- writes

  function Untouched(edges: seq<Edge>, dead: set<NodeId>): seq<Edge> {
    Filter(edges, (e: Edge) => e.source !in dead && e.target !in dead)
  }

  /** Deleting rows of `nodes` cascades to the edges at either end. */
  function DeleteNodes(t: Tables, dead: set<NodeId>): Tables {
    t.(nodes := t.nodes - dead, edges := Untouched(t.edges, dead))
  }

  function DeleteNode(t: Tables, id: NodeId): Tables {
    if id in t.nodes then DeleteNodes(t, {id}) else t
  }

  function NodesOfFile(t: Tables, path: Path): set<NodeId> {
    set id | id in t.nodes && t.nodes[id].filePath == path
  }

  function DeleteNodesByFile(t: Tables, path: Path): Tables {
    DeleteNodes(t, NodesOfFile(t, path))
  }

  function DeleteFile(t: Tables, path: Path): Tables {
    var t' := DeleteNodesByFile(t, path);
    t'.(files := t'.files - {path})
  }

  /** `INSERT OR REPLACE`: a replaced row is deleted first, and with foreign keys
      on that cascades. Rows with a missing required field are skipped. */
  function InsertNode(t: Tables, n: Node): Tables {
    if !n.Complete() then t
    else
      var t' := DeleteNode(t, n.id);
      t'.(nodes := t'.nodes[n.id := n])
  }

  function InsertNodes(t: Tables, ns: seq<Node>): Tables
    decreases |ns|
  {
    if ns == [] then t else InsertNode(InsertNodes(t, ns[..|ns| - 1]), ns[|ns| - 1])
  }

  /** `UPDATE ... WHERE id = @id` touches a row only if there is one. */
  function UpdateNode(t: Tables, n: Node): Tables {
    if n.Complete() && n.id in t.nodes then t.(nodes := t.nodes[n.id := n]) else t
  }

  /** `INSERT OR IGNORE` against the unique identity index. */
  function InsertEdge(edges: seq<Edge>, e: Edge): seq<Edge> {
    if Key(e) in KeySet(edges) then edges else edges + [e]
  }

  function InsertLive(edges: seq<Edge>, live: set<NodeId>, es: seq<Edge>): seq<Edge>
    decreases |es|
  {
    if es == [] then edges else
    var before := InsertLive(edges, live, es[..|es| - 1]);
    var e := es[|es| - 1];
    if e.source in live && e.target in live then InsertEdge(before, e) else before
  }

  function InsertEdges(t: Tables, es: seq<Edge>): Tables {
    t.(edges := InsertLive(t.edges, t.nodes.Keys, es))
  }

  function UpsertFile(t: Tables, path: Path, r: FileRecord): Tables {
    t.(files := t.files[path := r])
  }

  function ClearAll(t: Tables): Tables { NO_TABLES }

  // ------------------------------------------------- the integrity invariant

  ghost predicate WellFormed(t: Tables) {
    && (forall id :: id in t.nodes ==> t.nodes[id].id == id && t.nodes[id].Complete())
    && (forall e :: e in t.edges ==> e.source in t.nodes && e.target in t.nodes)
    && DistinctKeys(t.edges)
  }

  // ------------------------------------------------- what each write leaves

  predicate Touches(e: Edge, id: NodeId) {
    e.source == id || e.target == id
  }

  /** The fields without which a node is not written. */
  predicate FieldsPresent(n: Node) {
    n.id.NodeId? && n.kind != "" && n.name != "" && n.filePath != "" && n.language != ""
  }

  /** An update changes the row with that id, if there is one, and no edge. */
  lemma UpdateExact(t: Tables, n: Node, id: NodeId)
    ensures var t' := UpdateNode(t, n);
      && t'.edges == t.edges && t'.files == t.files
      && (id in t'.nodes <==> id in t.nodes)
      && (id in t.nodes ==> t'.nodes[id] == if id == n.id && FieldsPresent(n) then n else t.nodes[id])
  {
  }

  /** An insert writes the row of a complete node; where it replaces a row, the edges at that
      row go and no others. */
  lemma InsertExact(t: Tables, n: Node, id: NodeId, e: Edge)
    ensures var t' := InsertNode(t, n);
      && t'.files == t.files
      && (id in t'.nodes <==> id in t.nodes || (FieldsPresent(n) && id == n.id))
      && (id in t'.nodes ==> t'.nodes[id] == if FieldsPresent(n) && id == n.id then n else t.nodes[id])
      && (e in t'.edges <==> e in t.edges && !(FieldsPresent(n) && n.id in t.nodes && Touches(e, n.id)))
  {
  }

  lemma DeleteExact(t: Tables, gone: NodeId, id: NodeId, e: Edge)
    ensures var t' := DeleteNode(t, gone);
      && t'.files == t.files
      && (id in t'.nodes <==> id in t.nodes && id != gone)
      && (id in t'.nodes ==> t'.nodes[id] == t.nodes[id])
      && (e in t'.edges <==> e in t.edges && !(gone in t.nodes && Touches(e, gone)))
  {
  }

  predicate RowOfFile(t: Tables, id: NodeId, path: Path) {
    id in t.nodes && t.nodes[id].filePath == path
  }

  lemma DeleteFileExact(t: Tables, path: Path, id: NodeId, e: Edge)
    ensures var t' := DeleteFile(t, path);
      && t'.files == t.files - {path}
      && (id in t'.nodes <==> id in t.nodes && t.nodes[id].filePath != path)
      && (id in t'.nodes ==> t'.nodes[id] == t.nodes[id])
      && (e in t'.edges <==> e in t.edges && !RowOfFile(t, e.source, path) && !RowOfFile(t, e.target, path))
  {
  }

  lemma {:induction false} FilterKeepsDistinctKeys(edges: seq<Edge>, keep: Edge -> bool)
    requires DistinctKeys(edges)
    ensures DistinctKeys(Filter(edges, keep))
  {
    if edges != [] {
      FilterKeepsDistinctKeys(edges[1..], keep);
      var rest := Filter(edges[1..], keep);
      forall e | e in rest ensures !SameIdentity(edges[0], e) {
        var i :| 0 <= i < |edges[1..]| && edges[1..][i] == e;
        assert edges[i + 1] == e;
      }
    }
  }

  lemma UntouchedAll(edges: seq<Edge>, dead: set<NodeId>)
    requires forall e :: e in edges ==> e.source !in dead && e.target !in dead
    ensures Untouched(edges, dead) == edges
  {
    FilterAll(edges, (e: Edge) => e.source !in dead && e.target !in dead);
  }

  lemma DeleteNodesWellFormed(t: Tables, dead: set<NodeId>)
    requires WellFormed(t)
    ensures WellFormed(DeleteNodes(t, dead))
  {
    FilterKeepsDistinctKeys(t.edges, (e: Edge) => e.source !in dead && e.target !in dead);
  }

  lemma InsertNodeWellFormed(t: Tables, n: Node)
    requires WellFormed(t)
    ensures WellFormed(InsertNode(t, n))
  {
    DeleteNodesWellFormed(t, {n.id});
  }

  lemma {:induction false} InsertNodesWellFormed(t: Tables, ns: seq<Node>)
    requires WellFormed(t)
    ensures WellFormed(InsertNodes(t, ns))
    decreases |ns|
  {
    if ns != [] {
      InsertNodesWellFormed(t, ns[..|ns| - 1]);
      InsertNodeWellFormed(InsertNodes(t, ns[..|ns| - 1]), ns[|ns| - 1]);
    }
  }

  ghost predicate Accepted(es: seq<Edge>, live: set<NodeId>, k: EdgeKey) {
    exists e :: e in es && e.source in live && e.target in live && Key(e) == k
  }

  lemma KeySetAppend(edges: seq<Edge>, e: Edge)
    ensures KeySet(edges + [e]) == KeySet(edges) + {Key(e)}
  {
    var both := edges + [e];
    assert forall x :: x in both <==> x in edges || x == e;
    assert forall x :: x in edges ==> x in both;
    assert e in both;
  }

  /** What a batch insert leaves behind: the old rows as a prefix, new rows only from
      the batch, and a key is present iff it was there or a live edge carries it. */
  lemma {:induction false} InsertLiveExact(edges: seq<Edge>, live: set<NodeId>, es: seq<Edge>)
    requires DistinctKeys(edges)
    ensures var r := InsertLive(edges, live, es);
      && DistinctKeys(r)
      && edges <= r
      && (forall x :: x in r && x !in edges ==> x in es && x.source in live && x.target in live)
      && (forall k :: k in KeySet(r) <==> k in KeySet(edges) || Accepted(es, live, k))
    decreases |es|
  {
    if es != [] {
      var init, e := es[..|es| - 1], es[|es| - 1];
      InsertLiveExact(edges, live, init);
      var before := InsertLive(edges, live, init);
      assert e in es && forall x :: x in init ==> x in es;
      forall k ensures Accepted(es, live, k) <==> Accepted(init, live, k) || IsLive(e, live, k) {
        AcceptedMore(es, live, k);
      }
      if e.source in live && e.target in live {
        InsertEdgeExact(before, e);
      }
    }
  }

  predicate IsLive(e: Edge, live: set<NodeId>, k: EdgeKey) {
    e.source in live && e.target in live && Key(e) == k
  }

  lemma AcceptedMore(es: seq<Edge>, live: set<NodeId>, k: EdgeKey)
    requires es != []
    ensures Accepted(es, live, k) <==> Accepted(es[..|es| - 1], live, k) || IsLive(es[|es| - 1], live, k)
  {
    assert es == es[..|es| - 1] + [es[|es| - 1]];
    assert forall x :: x in es <==> x in es[..|es| - 1] || x == es[|es| - 1];
  }

  lemma InsertEdgeExact(edges: seq<Edge>, e: Edge)
    requires DistinctKeys(edges)
    ensures DistinctKeys(InsertEdge(edges, e)) && edges <= InsertEdge(edges, e)
    ensures KeySet(InsertEdge(edges, e)) == KeySet(edges) + {Key(e)}
    ensures forall x :: x in InsertEdge(edges, e) ==> x in edges || x == e
  {
    KeySetAppend(edges, e);
    RowByKey(edges, e);
    forall i | 0 <= i < |edges| && Key(e) !in KeySet(edges) ensures !SameIdentity(edges[i], e) {
      assert edges[i] in edges;
    }
  }

  /** An edge of a batch gets a row of its own iff both its ends are there and no row so far
      agrees with it in source, target, kind, line and column. */
  lemma EdgeIgnoredIff(edges: seq<Edge>, live: set<NodeId>, es: seq<Edge>, i: nat)
    requires i < |es|
    ensures var before, after := InsertLive(edges, live, es[..i]), InsertLive(edges, live, es[..i + 1]);
      var e := es[i];
      after == if e.source in live && e.target in live && !HasRow(before, e) then before + [e] else before
  {
    assert es[..i + 1][..i] == es[..i];
    RowByKey(InsertLive(edges, live, es[..i]), es[i]);
  }

  /** After a batch an edge has a row iff it had one or a live edge of the batch is the same
      in all five. */
  lemma RowsAfterBatch(edges: seq<Edge>, live: set<NodeId>, es: seq<Edge>, x: Edge)
    requires DistinctKeys(edges)
    ensures HasRow(InsertLive(edges, live, es), x) <==>
      HasRow(edges, x) || exists e :: e in es && e.source in live && e.target in live && SameIdentity(e, x)
  {
    InsertLiveExact(edges, live, es);
    RowByKey(InsertLive(edges, live, es), x);
    RowByKey(edges, x);
    if Accepted(es, live, Key(x)) {
      var e :| e in es && e.source in live && e.target in live && Key(e) == Key(x);
      KeySame(e, x);
    }
    if e :| e in es && e.source in live && e.target in live && SameIdentity(e, x) {
      KeySame(e, x);
    }
  }

  lemma InsertEdgesWellFormed(t: Tables, es: seq<Edge>)
    requires WellFormed(t)
    ensures WellFormed(InsertEdges(t, es))
  {
    InsertLiveExact(t.edges, t.nodes.Keys, es);
  }
}
