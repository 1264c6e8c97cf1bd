/** `storeExtractionResult` as the orchestrator runs it: a sequence of calls on the
    query layer, proved to have exactly the effect of `StoreExtraction.Store`. */
module StoreMethod {
  import opened Collections
  import opened GraphTables
  import opened StoreExtraction
  import opened SegmentVocab
  import opened QueryLayer

  /** `newNodesByKindName`: a later node of the same kind and name replaces an earlier one. */
  method IndexByKindName(ns: seq<Node>) returns (m: map<(string, string), NodeId>)
    ensures forall kind, name :: (kind, name) in m <==> Retarget(ns, kind, name).Some?
    ensures forall kind, name :: (kind, name) in m ==> Retarget(ns, kind, name) == Some(m[(kind, name)])
  {
    m := map[];
    for i := 0 to |ns|
      invariant forall kind, name :: (kind, name) in m <==> Retarget(ns[..i], kind, name).Some?
      invariant forall kind, name :: (kind, name) in m ==> Retarget(ns[..i], kind, name) == Some(m[(kind, name)])
    {
      assert ns[..i + 1][..i] == ns[..i];
      m := m[(ns[i].kind, ns[i].name) := ns[i].id];
    }
    assert ns[..|ns|] == ns;
  }

  lemma {:induction false} ReattachAppend(a: seq<Incoming>, b: seq<Incoming>, ns: seq<Node>)
    ensures Reattach(a + b, ns) == Reattach(a, ns) + Reattach(b, ns)
  {
    if a == [] {
      assert a + b == b;
    } else {
      assert (a + b)[1..] == a[1..] + b;
      ReattachAppend(a[1..], b, ns);
    }
  }

  /** The loop that re-resolves the snapshotted edges. */
  method ReattachAll(incoming: seq<Incoming>, ns: seq<Node>) returns (reinserted: seq<Edge>)
    ensures reinserted == Reattach(incoming, ns)
  {
    var newNodesByKindName := IndexByKindName(ns);
    reinserted := [];
    for i := 0 to |incoming|
      invariant reinserted == Reattach(incoming[..i], ns)
    {
      var c := incoming[i];
      ReattachAppend(incoming[..i], [c], ns);
      assert incoming[..i + 1] == incoming[..i] + [c];
      assert Reattach([], ns) == [];
      assert [c][1..] == [];
      if (c.targetKind, c.targetName) in newNodesByKindName {
        reinserted := reinserted + [c.edge.(target := newNodesByKindName[(c.targetKind, c.targetName)])];
      }
    }
    assert incoming[..|incoming|] == incoming;
  }

  method StoreExtractionResult(q: QueryBuilder, path: Path, content: string, language: string, stats: Stats,
                               result: ExtractionResult)
    requires q.Valid()
    modifies q
    ensures q.Valid() && (old(q.Searchable()) ==> q.Searchable())
    ensures q.tables == Store(old(q.tables), path, content, language, stats, result)
    ensures q.vocab == if Unchanged(old(q.tables), path, content) then old(q.vocab)
                       else old(q.vocab) + RowsOfAll(q.split, CompleteNodes(result))
  {
    if path in q.tables.files && q.tables.files[path].contentHash == ContentHash(content) {
      return;
    }
    var existing := path in q.tables.files;
    var incoming := if existing then CrossFileIncoming(q.tables, path) else [];
    if existing {
      q.DeleteFile(path);
    }
    var valid := CompleteNodes(result);
    q.InsertNodes(valid);
    q.InsertEdges(OwnEdges(valid, result.edges));
    var reinserted := ReattachAll(incoming, valid);
    q.InsertEdges(reinserted);
    q.UpsertFile(path, Record(content, language, stats, result));
  }
}
