/** The segment vocabulary as a value: which (segment, name) rows there are. */
module SegmentVocab {
  import opened Collections
  import opened GraphTables

  const MAX_SEGMENTED_NAMES: nat := 65536

  type Splitter = string -> seq<string>
  type Vocab = set<(string, string)>

  predicate Segmentable(kind: string) {
    kind != "file" && kind != "import"
  }

  function Rows(split: Splitter, name: string): Vocab {
    set s | s in split(name) :: (s, name)
  }

  /** The rows a write of `n` owes to the vocabulary. */
  function RowsOf(split: Splitter, n: Node): Vocab {
    if n.Complete() && Segmentable(n.kind) then Rows(split, n.name) else {}
  }

  function RowsOfAll(split: Splitter, ns: seq<Node>): Vocab {
    if ns == [] then {} else RowsOfAll(split, ns[..|ns| - 1]) + RowsOf(split, ns[|ns| - 1])
  }

  function RowsOfNames(split: Splitter, names: seq<string>): Vocab {
    if names == [] then {} else RowsOfNames(split, names[..|names| - 1]) + Rows(split, names[|names| - 1])
  }

  /** The set in memory only names whose segments are all written. */
  ghost predicate FastPathSound(split: Splitter, segmented: set<string>, vocab: Vocab) {
    forall name :: name in segmented ==> Rows(split, name) <= vocab
  }

  /** Every searchable name in the graph can be found by each of its segments. */
  ghost predicate VocabComplete(split: Splitter, t: Tables, vocab: Vocab) {
    forall id :: id in t.nodes ==> RowsOf(split, t.nodes[id]) <= vocab
  }

  /** The rows that a write of a node owes, one by one. */
  lemma RowsOfExact(split: Splitter, n: Node, segment: string, name: string)
    ensures (segment, name) in RowsOf(split, n) <==>
      && FieldsPresent(n) && n.kind != "file" && n.kind != "import"
      && name == n.name && segment in split(n.name)
  {
  }

  /** Completeness, said of nodes and segments. */
  lemma VocabCompleteExact(split: Splitter, t: Tables, vocab: Vocab)
    requires WellFormed(t)
    ensures VocabComplete(split, t, vocab) <==>
      forall id, segment ::
        && id in t.nodes && t.nodes[id].kind != "file" && t.nodes[id].kind != "import"
        && segment in split(t.nodes[id].name) ==>
        (segment, t.nodes[id].name) in vocab
  {
    if VocabComplete(split, t, vocab) {
      forall id, segment | id in t.nodes && t.nodes[id].kind != "file" && t.nodes[id].kind != "import"
                           && segment in split(t.nodes[id].name)
        ensures (segment, t.nodes[id].name) in vocab
      {
        RowsOfExact(split, t.nodes[id], segment, t.nodes[id].name);
        assert RowsOf(split, t.nodes[id]) <= vocab;
      }
    }
  }

  /** `SELECT DISTINCT name ... ORDER BY name`: some listing of the segmentable names. */
  ghost predicate ListsNames(names: seq<string>, t: Tables) {
    forall s :: s in names <==> exists id :: id in t.nodes && Segmentable(t.nodes[id].kind) && t.nodes[id].name == s
  }

  function Page(names: seq<string>, limit: nat, offset: nat): seq<string> {
    if offset >= |names| then []
    else if offset + limit >= |names| then names[offset..]
    else names[offset..offset + limit]
  }

  lemma {:induction false} RowsOfNamesAll(split: Splitter, names: seq<string>, name: string)
    requires name in names
    ensures Rows(split, name) <= RowsOfNames(split, names)
  {
    if names[|names| - 1] != name {
      RowsOfNamesAll(split, names[..|names| - 1], name);
    }
  }

  lemma {:induction false} RowsOfNamesAppend(split: Splitter, a: seq<string>, b: seq<string>)
    ensures RowsOfNames(split, a + b) == RowsOfNames(split, a) + RowsOfNames(split, b)
    decreases |b|
  {
    if b == [] {
      assert a + b == a;
    } else {
      assert (a + b)[..|a + b| - 1] == a + b[..|b| - 1];
      RowsOfNamesAppend(split, a, b[..|b| - 1]);
    }
  }

  lemma {:induction false} InsertNodesVocab(split: Splitter, t: Tables, vocab: Vocab, ns: seq<Node>)
    requires VocabComplete(split, t, vocab)
    ensures VocabComplete(split, InsertNodes(t, ns), vocab + RowsOfAll(split, ns))
    decreases |ns|
  {
    if ns != [] {
      InsertNodesVocab(split, t, vocab, ns[..|ns| - 1]);
    }
  }

  /** The LIMIT/OFFSET pages of an unchanged listing cover it, so the rebuild restores
      the invariant from any vocabulary, in particular from an empty one. */
  lemma RebuildCompletes(split: Splitter, t: Tables, vocab: Vocab, names: seq<string>)
    requires ListsNames(names, t)
    ensures VocabComplete(split, t, vocab + RowsOfNames(split, names))
  {
    forall id | id in t.nodes ensures RowsOf(split, t.nodes[id]) <= vocab + RowsOfNames(split, names) {
      if Segmentable(t.nodes[id].kind) {
        assert t.nodes[id].name in names;
        RowsOfNamesAll(split, names, t.nodes[id].name);
      }
    }
  }

  /** The wipe that opens a full index keeps the invariant exactly when no indexed name
      has a segment; a populated graph otherwise relies on its files being stored again. */
  lemma WipedVocab(split: Splitter, t: Tables)
    requires WellFormed(t)
    ensures VocabComplete(split, t, {}) <==>
      forall id :: id in t.nodes && Segmentable(t.nodes[id].kind) ==> split(t.nodes[id].name) == []
  {
    forall name ensures Rows(split, name) == {} <==> split(name) == [] {
      NoRows(split, name);
    }
    if VocabComplete(split, t, {}) {
      forall id | id in t.nodes && Segmentable(t.nodes[id].kind) ensures split(t.nodes[id].name) == [] {
        assert RowsOf(split, t.nodes[id]) <= {};
      }
    }
  }

  lemma NoRows(split: Splitter, name: string)
    ensures Rows(split, name) == {} <==> split(name) == []
  {
    if split(name) != [] {
      assert (split(name)[0], name) in Rows(split, name);
    }
  }
}

/** The query layer: SQL tables, prepared writes, and the two in-memory structures that
    must agree with the tables. */
module QueryLayer {
  import opened Collections
  import opened JsMaps
  import opened GraphTables
  import opened NodeCache
  import opened SegmentVocab

  const SQLITE_PARAM_CHUNK_SIZE: nat := 500
  const REBUILD_BATCH: nat := 2000

  /** `SELECT * FROM nodes WHERE id IN (...)`: each present row once. */
  function SelectIn(t: Tables, ids: seq<NodeId>): seq<Node> {
    if ids == [] then []
    else if ids[0] in t.nodes && ids[0] !in ids[1..] then [t.nodes[ids[0]]] + SelectIn(t, ids[1..])
    else SelectIn(t, ids[1..])
  }

  ghost predicate IdsMatch(t: Tables) {
    forall id :: id in t.nodes ==> t.nodes[id].id == id
  }

  lemma {:induction false} SelectInExact(t: Tables, ids: seq<NodeId>)
    requires IdsMatch(t)
    ensures forall n :: n in SelectIn(t, ids) <==> n.id in ids && n.id in t.nodes && t.nodes[n.id] == n
  {
    if ids != [] {
      SelectInExact(t, ids[1..]);
      assert forall x :: x in ids <==> x == ids[0] || x in ids[1..];
      if ids[0] in t.nodes && ids[0] !in ids[1..] {
        assert SelectIn(t, ids) == [t.nodes[ids[0]]] + SelectIn(t, ids[1..]);
        forall n ensures n in SelectIn(t, ids) <==> n == t.nodes[ids[0]] || n in SelectIn(t, ids[1..]) {
        }
      }
    }
  }

  function RowMap(rows: seq<Node>): map<NodeId, Node> {
    if rows == [] then map[] else RowMap(rows[..|rows| - 1])[rows[|rows| - 1].id := rows[|rows| - 1]]
  }

  lemma RowMapAppend(rows: seq<Node>, n: Node)
    ensures RowMap(rows + [n]) == RowMap(rows)[n.id := n]
  {
    assert (rows + [n])[..|rows|] == rows;
  }

  lemma {:induction false} RowMapExact(t: Tables, rows: seq<Node>)
    requires forall n :: n in rows ==> n.id in t.nodes && t.nodes[n.id] == n
    ensures forall id :: id in RowMap(rows) <==> id in t.nodes && t.nodes[id].id == id && t.nodes[id] in rows
    ensures forall id :: id in RowMap(rows) ==> RowMap(rows)[id] == t.nodes[id]
  {
    if rows != [] {
      var init, last := rows[..|rows| - 1], rows[|rows| - 1];
      assert rows == init + [last];
      assert forall n :: n in rows <==> n in init || n == last;
      RowMapExact(t, init);
      RowMapAppend(init, last);
    }
  }

  lemma RowMapLookup(t: Tables, ids: seq<NodeId>)
    requires IdsMatch(t)
    ensures RowMap(SelectIn(t, ids)) == Lookup(t, ids)
  {
    SelectInExact(t, ids);
    RowMapExact(t, SelectIn(t, ids));
  }

  lemma SelectInIds(t: Tables, ids: seq<NodeId>)
    requires IdsMatch(t)
    ensures (set n | n in SelectIn(t, ids) :: n.id) == set id | id in ids && id in t.nodes
  {
    SelectInExact(t, ids);
    forall id | id in ids && id in t.nodes ensures id in (set n | n in SelectIn(t, ids) :: n.id) {
      assert t.nodes[id] in SelectIn(t, ids);
    }
  }

  lemma LookupOneMore(t: Tables, ids: seq<NodeId>, id: NodeId)
    requires id in t.nodes
    ensures Lookup(t, ids + [id]) == Lookup(t, ids)[id := t.nodes[id]]
  {
    assert forall x :: x in ids + [id] <==> x in ids || x == id;
  }

  lemma UnionPut(a: map<NodeId, Node>, b: map<NodeId, Node>, id: NodeId, n: Node)
    ensures a + b[id := n] == (a + b)[id := n]
  {
  }

  lemma LookupAppend(t: Tables, a: seq<NodeId>, b: seq<NodeId>)
    ensures Lookup(t, a + b) == Lookup(t, a) + Lookup(t, b)
  {
    assert forall x :: x in a + b <==> x in a || x in b;
  }

  lemma LookupChunk(t: Tables, hits: seq<NodeId>, misses: seq<NodeId>, i: nat, end: nat)
    requires i <= end <= |misses|
    ensures Lookup(t, hits + misses[..end]) == Lookup(t, hits + misses[..i]) + Lookup(t, misses[i..end])
  {
    LookupAppend(t, hits + misses[..i], misses[i..end]);
    assert hits + misses[..end] == hits + misses[..i] + misses[i..end];
  }

  /** `ids` falls into hits and misses. */
  ghost predicate Divided(ids: seq<NodeId>, hits: seq<NodeId>, misses: seq<NodeId>) {
    forall id :: id in ids <==> id in hits || id in misses
  }

  lemma DividedMore(ids: seq<NodeId>, i: nat, hits: seq<NodeId>, misses: seq<NodeId>)
    requires i < |ids| && Divided(ids[..i], hits, misses)
    ensures Divided(ids[..i + 1], hits + [ids[i]], misses)
    ensures Divided(ids[..i + 1], hits, misses + [ids[i]])
  {
    assert ids[..i + 1] == ids[..i] + [ids[i]];
  }

  lemma LookupPermuted(t: Tables, ids: seq<NodeId>, hits: seq<NodeId>, misses: seq<NodeId>)
    requires Divided(ids, hits, misses)
    ensures Lookup(t, hits + misses) == Lookup(t, ids)
  {
  }

  /** The answer a lookup of many ids must give. */
  function Lookup(t: Tables, ids: seq<NodeId>): map<NodeId, Node> {
    map id | id in ids && id in t.nodes :: t.nodes[id]
  }

  class QueryBuilder {
    const split: Splitter
    var tables: Tables
    var nodeCache: Cache
    var segmentedNames: set<string>
    var vocab: Vocab
    /** The ids in the order in which entries were hit or newly cached. */
    ghost var touches: seq<NodeId>

    ghost predicate Valid()
      reads this
    {
      && WellFormed(tables)
      && Coherent(nodeCache, tables)
      && OldestFirst(nodeCache.keys, touches)
      && FastPathSound(split, segmentedNames, vocab)
      && |segmentedNames| <= 65536
    }

    ghost predicate Searchable()
      reads this
    {
      VocabComplete(split, tables, vocab)
    }

    constructor (split: Splitter)
      ensures Valid() && Searchable() && tables == NO_TABLES && vocab == {} && this.split == split
    {
      this.split := split;
      tables := NO_TABLES;
      nodeCache := Empty();
      segmentedNames := {};
      vocab := {};
      touches := [];
    }

    // -------------------------------------------------------------- vocabulary

    /** The fast path cannot be observed: afterwards all rows of the name are there. */
    method InsertNameSegments(name: string)
      requires Valid()
      modifies this`segmentedNames, this`vocab
      ensures Valid()
      ensures vocab == old(vocab) + Rows(split, name)
    {
      if name in segmentedNames {
        return;
      }
      if |segmentedNames| >= MAX_SEGMENTED_NAMES {
        segmentedNames := {};
      }
      segmentedNames := segmentedNames + {name};
      WriteSegments(name);
    }

    /** The rows of one name, `INSERT OR IGNORE`. */
    method WriteSegments(name: string)
      modifies this`vocab
      ensures vocab == old(vocab) + Rows(split, name)
    {
      var segments := split(name);
      for i := 0 to |segments|
        invariant vocab == old(vocab) + set s | s in segments[..i] :: (s, name)
      {
        vocab := vocab + {(segments[i], name)};
      }
      assert segments[..|segments|] == segments;
    }

    method InsertNameSegmentsBatch(names: seq<string>)
      requires Valid()
      modifies this`segmentedNames, this`vocab
      ensures Valid()
      ensures vocab == old(vocab) + RowsOfNames(split, names)
    {
      for i := 0 to |names|
        invariant Valid()
        invariant vocab == old(vocab) + RowsOfNames(split, names[..i])
      {
        InsertNameSegments(names[i]);
        assert names[..i + 1][..i] == names[..i];
      }
      assert names[..|names|] == names;
    }

    method ClearNameSegmentVocab()
      requires Valid()
      modifies this`segmentedNames, this`vocab
      ensures Valid() && vocab == {}
    {
      vocab := {};
      segmentedNames := {};
    }

    /** `listing` is what the paged query ranges over; the graph does not change meanwhile. */
    method RebuildNameSegmentVocab(listing: seq<string>)
      requires Valid() && ListsNames(listing, tables)
      modifies this`segmentedNames, this`vocab
      ensures Valid() && Searchable()
      ensures vocab == old(vocab) + RowsOfNames(split, listing)
    {
      var offset := 0;
      while true
        invariant Valid()
        invariant vocab == old(vocab) + RowsOfNames(split, listing[..if offset < |listing| then offset else |listing|])
        decreases |listing| + REBUILD_BATCH - offset
      {
        var names := Page(listing, REBUILD_BATCH, offset);
        if |names| == 0 {
          break;
        }
        InsertNameSegmentsBatch(names);
        RowsOfNamesAppend(split, listing[..offset], names);
        offset := offset + REBUILD_BATCH;
        assert listing[..if offset < |listing| then offset else |listing|] == listing[..offset - REBUILD_BATCH] + names;
      }
      assert listing[..|listing|] == listing;
      RebuildCompletes(split, tables, old(vocab), listing);
    }

    // ------------------------------------------------------------------- nodes

    /** Changes rows other than `id` in no way; the cached copy of `id` goes. */
    method Rewrite(id: NodeId, t: Tables)
      requires Valid() && WellFormed(t)
      requires forall k :: k in tables.nodes && k != id ==> k in t.nodes && t.nodes[k] == tables.nodes[k]
      modifies this`nodeCache, this`tables
      ensures Valid() && tables == t && nodeCache == old(nodeCache).Remove(id)
    {
      ForgetKeeps(nodeCache, tables, t, touches, id);
      nodeCache := nodeCache.Remove(id);
      tables := t;
    }

    method InsertNode(n: Node)
      requires Valid()
      modifies this
      ensures Valid() && (old(Searchable()) ==> Searchable())
      ensures tables == GraphTables.InsertNode(old(tables), n)
      ensures vocab == old(vocab) + RowsOf(split, n)
    {
      if !n.Complete() {
        return;
      }
      InsertNodeWellFormed(tables, n);
      Rewrite(n.id, GraphTables.InsertNode(tables, n));
      if Segmentable(n.kind) {
        InsertNameSegments(n.name);
      }
    }

    method InsertNodes(ns: seq<Node>)
      requires Valid()
      modifies this
      ensures Valid() && (old(Searchable()) ==> Searchable())
      ensures tables == GraphTables.InsertNodes(old(tables), ns)
      ensures vocab == old(vocab) + RowsOfAll(split, ns)
    {
      for i := 0 to |ns|
        invariant Valid() && (old(Searchable()) ==> Searchable())
        invariant tables == GraphTables.InsertNodes(old(tables), ns[..i])
        invariant vocab == old(vocab) + RowsOfAll(split, ns[..i])
      {
        InsertNode(ns[i]);
        assert ns[..i + 1][..i] == ns[..i];
      }
      assert ns[..|ns|] == ns;
    }

    /** The cached copy is dropped even when the update is then refused. */
    method UpdateNode(n: Node)
      requires Valid()
      modifies this
      ensures Valid() && (old(Searchable()) ==> Searchable())
      ensures tables == GraphTables.UpdateNode(old(tables), n)
      ensures vocab == old(vocab) + RowsOf(split, n)
    {
      Rewrite(n.id, GraphTables.UpdateNode(tables, n));
      if !n.Complete() {
        return;
      }
      if Segmentable(n.kind) {
        InsertNameSegments(n.name);
      }
    }

    method DeleteNode(id: NodeId)
      requires Valid()
      modifies this`nodeCache, this`tables
      ensures Valid() && (old(Searchable()) ==> Searchable())
      ensures tables == GraphTables.DeleteNode(old(tables), id)
    {
      DeleteNodesWellFormed(tables, {id});
      Rewrite(id, GraphTables.DeleteNode(tables, id));
    }

    method DeleteNodesByFile(path: Path)
      requires Valid()
      modifies this`nodeCache, this`tables
      ensures Valid() && (old(Searchable()) ==> Searchable())
      ensures tables == GraphTables.DeleteNodesByFile(old(tables), path)
    {
      var entries := nodeCache.keys;
      for i := 0 to |entries|
        invariant Valid()
        invariant tables == old(tables)
        invariant forall id :: id in nodeCache.vals ==> id in entries[i..] || nodeCache.vals[id].filePath != path
      {
        var id := entries[i];
        assert entries[i..] == [id] + entries[i + 1..];
        if nodeCache.Has(id) && nodeCache.vals[id].filePath == path {
          Rewrite(id, tables);
        }
      }
      DeleteNodesWellFormed(tables, NodesOfFile(tables, path));
      assert forall id :: id in nodeCache.vals ==> tables.nodes[id].filePath != path;
      tables := GraphTables.DeleteNodesByFile(tables, path);
    }

    method DeleteFile(path: Path)
      requires Valid()
      modifies this`nodeCache, this`tables
      ensures Valid() && (old(Searchable()) ==> Searchable())
      ensures tables == GraphTables.DeleteFile(old(tables), path)
    {
      DeleteNodesByFile(path);
      tables := tables.(files := tables.files - {path});
    }

    method UpsertFile(path: Path, record: FileRecord)
      requires Valid()
      modifies this`tables
      ensures Valid() && (old(Searchable()) ==> Searchable())
      ensures tables == GraphTables.UpsertFile(old(tables), path, record)
    {
      tables := GraphTables.UpsertFile(tables, path, record);
    }

    method Clear()
      requires Valid()
      modifies this`nodeCache, this`tables
      ensures Valid() && Searchable() && tables == NO_TABLES
    {
      nodeCache := Empty();
      tables := NO_TABLES;
    }

    // ------------------------------------------------------------------- edges

    method GetExistingNodeIds(ids: seq<NodeId>) returns (out: set<NodeId>)
      requires Valid()
      ensures out == set id | id in ids && id in tables.nodes
    {
      out := {};
      var i := 0;
      while i < |ids|
        invariant 0 <= i
        invariant out == set id | id in ids[..if i < |ids| then i else |ids|] && id in tables.nodes
      {
        var end := if i + SQLITE_PARAM_CHUNK_SIZE < |ids| then i + SQLITE_PARAM_CHUNK_SIZE else |ids|;
        var chunk := ids[i..end];
        var rows := SelectIn(tables, chunk);
        out := out + set n | n in rows :: n.id;
        assert ids[..end] == ids[..i] + ids[i..end];
        SelectInIds(tables, chunk);
        i := i + SQLITE_PARAM_CHUNK_SIZE;
      }
      assert ids[..|ids|] == ids;
    }

    method InsertEdges(edges: seq<Edge>)
      requires Valid()
      modifies this`tables
      ensures Valid() && (old(Searchable()) ==> Searchable())
      ensures tables == GraphTables.InsertEdges(old(tables), edges)
    {
      if |edges| == 0 {
        return;
      }
      var endpoints := Endpoints(edges);
      var existing := GetExistingNodeIds(endpoints);
      ghost var before := tables;
      for i := 0 to |edges|
        invariant tables == before.(edges := InsertLive(before.edges, before.nodes.Keys, edges[..i]))
      {
        var e := edges[i];
        assert edges[..i + 1][..i] == edges[..i];
        assert e.source in endpoints && e.target in endpoints;
        if e.source in existing && e.target in existing {
          tables := tables.(edges := InsertEdge(tables.edges, e));
        }
      }
      assert edges[..|edges|] == edges;
      InsertEdgesWellFormed(before, edges);
    }

    static method Endpoints(edges: seq<Edge>) returns (ids: seq<NodeId>)
      ensures forall k :: 0 <= k < |edges| ==> edges[k].source in ids && edges[k].target in ids
    {
      ids := [];
      for i := 0 to |edges|
        invariant forall k :: 0 <= k < i ==> edges[k].source in ids && edges[k].target in ids
      {
        ids := ids + [edges[i].source, edges[i].target];
      }
    }

    // ----------------------------------------------------------------- lookups

    /** A cache hit: the entry becomes the youngest. */
    method Hit(id: NodeId) returns (node: Node)
      requires Valid() && nodeCache.Has(id)
      modifies this`nodeCache, this`touches
      ensures Valid() && nodeCache == Touch(old(nodeCache), id)
      ensures id in tables.nodes && node == tables.nodes[id]
    {
      TouchKeeps(nodeCache, tables, touches, id);
      node := nodeCache.vals[id];
      nodeCache := Touch(nodeCache, id);
      touches := touches + [id];
    }

    method CacheNode(node: Node)
      requires Valid() && node.id in tables.nodes && node == tables.nodes[node.id]
      modifies this`nodeCache, this`touches
      ensures Valid() && nodeCache == NodeCache.CacheNode(old(nodeCache), node)
    {
      CacheNodeKeeps(nodeCache, tables, touches, node);
      touches := TouchesAfter(nodeCache, touches, node.id);
      nodeCache := NodeCache.CacheNode(nodeCache, node);
    }

    method GetNodeById(id: NodeId) returns (r: Option<Node>)
      requires Valid()
      modifies this`nodeCache, this`touches
      ensures Valid()
      ensures r == if id in tables.nodes then Some(tables.nodes[id]) else None
      ensures id in old(nodeCache).vals ==> nodeCache == Touch(old(nodeCache), id)
      ensures id !in old(nodeCache).vals && id in tables.nodes ==>
        nodeCache == NodeCache.CacheNode(old(nodeCache), tables.nodes[id])
      ensures id !in tables.nodes ==> nodeCache == old(nodeCache)
    {
      if nodeCache.Has(id) {
        var cached := Hit(id);
        return Some(cached);
      }
      if id !in tables.nodes {
        return None;
      }
      var node := tables.nodes[id];
      CacheNode(node);
      return Some(node);
    }

    method GetNodesByIds(ids: seq<NodeId>) returns (out: map<NodeId, Node>)
      requires Valid()
      modifies this`nodeCache, this`touches
      ensures Valid()
      ensures out == Lookup(tables, ids)
    {
      ghost var hits;
      var misses;
      out, hits, misses := ServeHits(ids);
      var i := 0;
      while i < |misses|
        invariant 0 <= i && Valid()
        invariant out == Lookup(tables, hits + misses[..if i < |misses| then i else |misses|])
      {
        var end := if i + SQLITE_PARAM_CHUNK_SIZE < |misses| then i + SQLITE_PARAM_CHUNK_SIZE else |misses|;
        out := AddRows(misses[i..end], out);
        LookupChunk(tables, hits, misses, i, end);
        i := i + SQLITE_PARAM_CHUNK_SIZE;
      }
      assert misses[..|misses|] == misses;
      LookupPermuted(tables, ids, hits, misses);
    }

    /** First pass of `getNodesByIds`: answer from the cache and list the misses. */
    method ServeHits(ids: seq<NodeId>) returns (out: map<NodeId, Node>, ghost hits: seq<NodeId>, misses: seq<NodeId>)
      requires Valid()
      modifies this`nodeCache, this`touches
      ensures Valid()
      ensures out == Lookup(tables, hits)
      ensures Divided(ids, hits, misses)
    {
      out, hits, misses := map[], [], [];
      for i := 0 to |ids|
        invariant Valid()
        invariant out == Lookup(tables, hits)
        invariant Divided(ids[..i], hits, misses)
      {
        DividedMore(ids, i, hits, misses);
        if nodeCache.Has(ids[i]) {
          var cached := Hit(ids[i]);
          LookupOneMore(tables, hits, ids[i]);
          out, hits := out[ids[i] := cached], hits + [ids[i]];
        } else {
          misses := misses + [ids[i]];
        }
      }
      assert ids[..|ids|] == ids;
    }

    /** One chunk of `getNodesByIds`: query the rows, cache each, add it to the answer. */
    method AddRows(chunk: seq<NodeId>, found: map<NodeId, Node>) returns (out: map<NodeId, Node>)
      requires Valid()
      modifies this`nodeCache, this`touches
      ensures Valid()
      ensures out == found + Lookup(tables, chunk)
    {
      var rows := SelectIn(tables, chunk);
      SelectInExact(tables, chunk);
      out := found;
      for j := 0 to |rows|
        invariant Valid()
        invariant out == found + RowMap(rows[..j])
      {
        var node := rows[j];
        assert node in rows;
        assert rows[..j + 1] == rows[..j] + [node];
        RowMapAppend(rows[..j], node);
        UnionPut(found, RowMap(rows[..j]), node.id, node);
        out := out[node.id := node];
        CacheNode(node);
      }
      assert rows[..|rows|] == rows;
      RowMapLookup(tables, chunk);
    }
  }
}
