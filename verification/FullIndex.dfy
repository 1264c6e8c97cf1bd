/** A full index over a graph that may hold data already: the segment vocabulary is wiped,
    then results are stored, and a file whose content did not change is not stored. */
module FullIndex {
  import opened Collections
  import opened GraphTables
  import opened StoreExtraction
  import opened SegmentVocab
  import opened QueryLayer
  import opened StoreMethod

  /** The arguments of one call of `storeExtractionResult`. */
  datatype Call = Call(path: Path, content: string, language: string, stats: Stats, result: ExtractionResult)

  function StoreAll(t: Tables, calls: seq<Call>): Tables {
    if calls == [] then t
    else
      var c := calls[|calls| - 1];
      Store(StoreAll(t, calls[..|calls| - 1]), c.path, c.content, c.language, c.stats, c.result)
  }

  /** The call does not take the early return. */
  predicate Stores(t: Tables, c: Call) {
    !Unchanged(t, c.path, c.content)
  }

  function RowsWritten(split: Splitter, c: Call): Vocab {
    RowsOfAll(split, CompleteNodes(c.result))
  }

  /** The vocabulary rows that the calls write. */
  function Written(split: Splitter, t: Tables, calls: seq<Call>): Vocab {
    if calls == [] then {}
    else
      var init, c := calls[..|calls| - 1], calls[|calls| - 1];
      Written(split, t, init) + (if Stores(StoreAll(t, init), c) then RowsWritten(split, c) else {})
  }

  /** The files that some call really stores. */
  function Restored(t: Tables, calls: seq<Call>): set<Path> {
    if calls == [] then {}
    else
      var init, c := calls[..|calls| - 1], calls[|calls| - 1];
      Restored(t, init) + (if Stores(StoreAll(t, init), c) then {c.path} else {})
  }

  ghost predicate StampedCalls(calls: seq<Call>) {
    forall c :: c in calls ==> ResultOf(c.path, c.result)
  }

  /** What a run of stores leaves: rows of files that were not stored again are as before,
      and those of the other files have their vocabulary written. */
  ghost predicate RunOf(split: Splitter, t: Tables, t': Tables, restored: set<Path>, written: Vocab) {
    && WellFormed(t') && Owned(t')
    && (forall id: NodeId :: id.NodeId? && id.path !in restored ==>
          (id in t'.nodes <==> id in t.nodes) && (id in t.nodes ==> t'.nodes[id] == t.nodes[id]))
    && (forall id :: id in t'.nodes && id.path in restored ==> RowsOf(split, t'.nodes[id]) <= written)
  }

  lemma {:induction false} RowsOfMember(split: Splitter, ns: seq<Node>, n: Node)
    requires n in ns
    ensures RowsOf(split, n) <= RowsOfAll(split, ns)
  {
    if ns[|ns| - 1] != n {
      RowsOfMember(split, ns[..|ns| - 1], n);
    }
  }

  lemma {:induction false} StoresKeep(split: Splitter, t: Tables, calls: seq<Call>)
    requires WellFormed(t) && Owned(t) && StampedCalls(calls)
    ensures RunOf(split, t, StoreAll(t, calls), Restored(t, calls), Written(split, t, calls))
  {
    if calls != [] {
      var init, c := calls[..|calls| - 1], calls[|calls| - 1];
      assert c in calls && forall x :: x in init ==> x in calls;
      StoresKeep(split, t, init);
      if Stores(StoreAll(t, init), c) {
        StoreKeeps(split, t, StoreAll(t, init), Restored(t, init), Written(split, t, init), c);
      }
    }
  }

  lemma StoreKeeps(split: Splitter, t: Tables, t1: Tables, restored: set<Path>, written: Vocab, c: Call)
    requires RunOf(split, t, t1, restored, written) && ResultOf(c.path, c.result) && Stores(t1, c)
    ensures RunOf(split, t, Store(t1, c.path, c.content, c.language, c.stats, c.result), restored + {c.path},
                  written + RowsWritten(split, c))
  {
    ReindexExact(t1, c.path, c.content, c.language, c.stats, c.result);
    var t2, valid := Store(t1, c.path, c.content, c.language, c.stats, c.result), CompleteNodes(c.result);
    forall id | id in t2.nodes && id.path in restored + {c.path}
      ensures RowsOf(split, t2.nodes[id]) <= written + RowsWritten(split, c)
    {
      if id.path == c.path {
        assert InFile(id, c.path);
        RowsOfMember(split, valid, t2.nodes[id]);
      } else {
        assert !InFile(id, c.path) && t2.nodes[id] == t1.nodes[id];
      }
    }
  }

  /** The vocabulary that a full index leaves is complete iff every segmentable name in a
      file that it did not store again is also a name that it stored. */
  lemma CompleteIff(split: Splitter, t: Tables, calls: seq<Call>)
    requires WellFormed(t) && Owned(t) && StampedCalls(calls)
    ensures VocabComplete(split, StoreAll(t, calls), Written(split, t, calls)) <==>
      forall id :: id in t.nodes && id.path !in Restored(t, calls) ==>
        RowsOf(split, t.nodes[id]) <= Written(split, t, calls)
  {
    StoresKeep(split, t, calls);
    var t' := StoreAll(t, calls);
    forall id | id in t.nodes && id.path !in Restored(t, calls) ensures id in t'.nodes && t'.nodes[id] == t.nodes[id] {
    }
  }

  /** Storing every tracked file again is enough. */
  lemma RestoringAllCompletes(split: Splitter, t: Tables, calls: seq<Call>)
    requires WellFormed(t) && Owned(t) && StampedCalls(calls)
    requires t.files.Keys <= Restored(t, calls)
    ensures VocabComplete(split, StoreAll(t, calls), Written(split, t, calls))
  {
    CompleteIff(split, t, calls);
  }

  // ------------------------- a scan lists each file once: the condition, before the run

  ghost predicate EachOnce(calls: seq<Call>) {
    forall i, j :: 0 <= i < j < |calls| ==> calls[i].path != calls[j].path
  }

  lemma {:induction false} UnscannedKeepRecord(t: Tables, calls: seq<Call>, path: Path)
    requires !Scanned(calls, path)
    ensures SameRecord(t, StoreAll(t, calls), path)
  {
    if calls != [] {
      var init, c := calls[..|calls| - 1], calls[|calls| - 1];
      assert c in calls && forall x :: x in init ==> x in calls;
      UnscannedKeepRecord(t, init, path);
      OthersKeepRecord(StoreAll(t, init), c, path);
    }
  }

  /** Whether a call will store something can be told from the graph as it is before. */
  lemma StoresEarly(t: Tables, calls: seq<Call>)
    requires calls != [] && EachOnce(calls)
    ensures var init, c := calls[..|calls| - 1], calls[|calls| - 1];
      EachOnce(init) && (Stores(StoreAll(t, init), c) <==> Stores(t, c))
  {
    var init, c := calls[..|calls| - 1], calls[|calls| - 1];
    forall x | x in init ensures x.path != c.path {
      var i :| 0 <= i < |init| && init[i] == x;
      assert calls[i] == x;
    }
    UnscannedKeepRecord(t, init, c.path);
  }

  lemma {:induction false} RestoredBefore(t: Tables, calls: seq<Call>, path: Path)
    requires EachOnce(calls)
    ensures path in Restored(t, calls) <==> WillBeRestored(t, calls, path)
  {
    if calls != [] {
      StoresEarly(t, calls);
      RestoredBefore(t, calls[..|calls| - 1], path);
      assert calls == calls[..|calls| - 1] + [calls[|calls| - 1]];
    }
  }

  lemma {:induction false} WrittenBefore(split: Splitter, t: Tables, calls: seq<Call>, row: (string, string))
    requires EachOnce(calls)
    ensures row in Written(split, t, calls) <==> WillBeWritten(split, t, calls, row)
  {
    if calls != [] {
      StoresEarly(t, calls);
      WrittenBefore(split, t, calls[..|calls| - 1], row);
      assert calls == calls[..|calls| - 1] + [calls[|calls| - 1]];
    }
  }

  ghost predicate Scanned(calls: seq<Call>, path: Path) {
    exists c :: c in calls && c.path == path
  }

  ghost predicate SameRecord(t: Tables, t': Tables, path: Path) {
    (path in t'.files <==> path in t.files) && (path in t.files ==> t'.files[path] == t.files[path])
  }

  lemma OthersKeepRecord(t: Tables, c: Call, path: Path)
    requires path != c.path
    ensures SameRecord(t, Store(t, c.path, c.content, c.language, c.stats, c.result), path)
  {
    if Stores(t, c) {
      StoreFiles(t, c.path, c.content, c.language, c.stats, c.result);
    }
  }

  /** A name's row is written by a file of the scan that is new or has changed. */
  ghost predicate WillBeWritten(split: Splitter, t: Tables, calls: seq<Call>, row: (string, string)) {
    exists c :: c in calls && Stores(t, c) && row in RowsWritten(split, c)
  }

  ghost predicate WillBeRestored(t: Tables, calls: seq<Call>, path: Path) {
    exists c :: c in calls && c.path == path && Stores(t, c)
  }

  /** For a scan the same condition speaks only of the graph before and of the results. */
  lemma ScanCompleteIff(split: Splitter, t: Tables, calls: seq<Call>)
    requires WellFormed(t) && Owned(t) && StampedCalls(calls) && EachOnce(calls)
    ensures VocabComplete(split, StoreAll(t, calls), Written(split, t, calls)) <==>
      forall id, row :: id in t.nodes && !WillBeRestored(t, calls, id.path) && row in RowsOf(split, t.nodes[id]) ==>
        WillBeWritten(split, t, calls, row)
  {
    CompleteIff(split, t, calls);
    forall path ensures path in Restored(t, calls) <==> WillBeRestored(t, calls, path) {
      RestoredBefore(t, calls, path);
    }
    forall row ensures row in Written(split, t, calls) <==> WillBeWritten(split, t, calls, row) {
      WrittenBefore(split, t, calls, row);
    }
  }

  /** A name of a skipped file that no stored file shares is lost to the search. */
  lemma SkippedFileStaysUnsearchable(split: Splitter, t: Tables, calls: seq<Call>, id: NodeId, segment: string)
    requires WellFormed(t) && Owned(t) && StampedCalls(calls) && EachOnce(calls)
    requires id in t.nodes && !WillBeRestored(t, calls, id.path)
    requires Segmentable(t.nodes[id].kind) && segment in split(t.nodes[id].name)
    requires !WillBeWritten(split, t, calls, (segment, t.nodes[id].name))
    ensures id in StoreAll(t, calls).nodes && StoreAll(t, calls).nodes[id] == t.nodes[id]
    ensures (segment, t.nodes[id].name) !in Written(split, t, calls)
    ensures !VocabComplete(split, StoreAll(t, calls), Written(split, t, calls))
  {
    var row := (segment, t.nodes[id].name);
    RestoredBefore(t, calls, id.path);
    WrittenBefore(split, t, calls, row);
    StoresKeep(split, t, calls);
    ScanCompleteIff(split, t, calls);
    assert row in RowsOf(split, t.nodes[id]);
  }

  lemma {:induction false} NothingStored(split: Splitter, t: Tables, calls: seq<Call>)
    requires forall c :: c in calls ==> !Stores(t, c)
    ensures StoreAll(t, calls) == t && Written(split, t, calls) == {}
  {
    if calls != [] {
      assert calls[|calls| - 1] in calls;
      NothingStored(split, t, calls[..|calls| - 1]);
    }
  }

  /** Indexing an unchanged tree again empties the vocabulary of a graph that does not
      change: it stays complete only if no name in it has a segment. */
  lemma UnchangedTreeIff(split: Splitter, t: Tables, calls: seq<Call>)
    requires WellFormed(t) && forall c :: c in calls ==> !Stores(t, c)
    ensures VocabComplete(split, StoreAll(t, calls), Written(split, t, calls)) <==>
      forall id :: id in t.nodes && Segmentable(t.nodes[id].kind) ==> split(t.nodes[id].name) == []
  {
    NothingStored(split, t, calls);
    WipedVocab(split, t);
  }

  /** The wipe and the stores of a full index, on the query layer. */
  method WipeAndStore(q: QueryBuilder, calls: seq<Call>)
    requires q.Valid() && Owned(q.tables) && StampedCalls(calls)
    modifies q
    ensures q.Valid() && q.tables == StoreAll(old(q.tables), calls)
    ensures q.vocab == Written(q.split, old(q.tables), calls)
    ensures q.Searchable() <==>
      forall id :: id in old(q.tables).nodes && id.path !in Restored(old(q.tables), calls) ==>
        RowsOf(q.split, old(q.tables).nodes[id]) <= Written(q.split, old(q.tables), calls)
  {
    ghost var t := q.tables;
    q.ClearNameSegmentVocab();
    for i := 0 to |calls|
      invariant q.Valid() && q.tables == StoreAll(t, calls[..i])
      invariant q.vocab == Written(q.split, t, calls[..i])
    {
      var c := calls[i];
      assert calls[..i + 1][..i] == calls[..i];
      StoreExtractionResult(q, c.path, c.content, c.language, c.stats, c.result);
    }
    assert calls[..|calls|] == calls;
    assert q.Searchable() <==> VocabComplete(q.split, StoreAll(t, calls), Written(q.split, t, calls));
    CompleteIff(q.split, t, calls);
  }
}
