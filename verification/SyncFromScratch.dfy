/** What an incremental sync leaves, against indexing the same tree from scratch. */
module SyncFromScratch {
  import opened Collections
  import opened GraphTables
  import opened StoreExtraction
  import opened Sync
  import StoreRuns

  /** Extractors stamp every node with the path of the file they were given. */
  ghost predicate ParserStamps(w: World) {
    forall p, content :: w.parse(p, content).Parsed? ==> ResultOf(p, w.parse(p, content).result)
  }

  function Hashes(files: map<Path, FileRecord>): map<Path, ContentHash> {
    map p | p in files :: files[p].contentHash
  }

  /** The rows that the parser gives for the content behind a hash. */
  function AnswerNodes(w: World, p: Path, hash: ContentHash): seq<Node> {
    var answer := w.parse(p, hash.content);
    if answer.Parsed? then CompleteNodes(answer.result) else []
  }

  function AnswersTo(w: World, hashes: map<Path, ContentHash>): StoreRuns.Index {
    StoreRuns.Index(hashes, map p | p in hashes :: AnswerNodes(w, p, hashes[p]))
  }

  /** The node table holds the parser's answers for the tracked contents and nothing else. */
  ghost predicate Answers(w: World, t: Tables) {
    StoreRuns.Represents(t, AnswersTo(w, Hashes(t.files)))
  }

  lemma AnswersMore(w: World, hashes: map<Path, ContentHash>, p: Path, content: string, language: string, stats: Stats)
    requires w.parse(p, content).Parsed? && !(p in hashes && hashes[p] == ContentHash(content))
    ensures AnswersTo(w, hashes[p := ContentHash(content)]) ==
      StoreRuns.Remember(AnswersTo(w, hashes),
                         StoreRuns.StoreResult(p, content, language, stats, w.parse(p, content).result))
  {
    var m, nodes := AnswersTo(w, hashes), CompleteNodes(w.parse(p, content).result);
    assert AnswerNodes(w, p, ContentHash(content)) == nodes;
    assert (if p in m.hashes then [] else StoreRuns.RowsIn(m, p)) + nodes == nodes;
    assert AnswersTo(w, hashes[p := ContentHash(content)]).rows == m.rows[p := nodes];
  }

  lemma IndexAnswers(w: World, t: Tables, p: Path)
    requires ParserStamps(w) && Answers(w, t)
    ensures Answers(w, IndexFile(w, t, p))
  {
    if Indexable(w, p) && !Unchanged(t, p, w.disk[p].content) {
      var content, stats := w.disk[p].content, w.disk[p].stats;
      var answer := w.parse(p, content);
      StoreRuns.StoreRemembers(t, AnswersTo(w, Hashes(t.files)), p, content, answer.language, stats, answer.result);
      StoreFiles(t, p, content, answer.language, stats, answer.result);
      HashesOf(t.files, IndexFile(w, t, p).files, p, ContentHash(content));
      AnswersMore(w, Hashes(t.files), p, content, answer.language, stats);
    }
  }

  lemma HashesOf(files: map<Path, FileRecord>, files': map<Path, FileRecord>, p: Path, hash: ContentHash)
    requires forall x :: x in files' <==> x in files || x == p
    requires files'[p].contentHash == hash && forall x :: x in files && x != p ==> files'[x] == files[x]
    ensures Hashes(files') == Hashes(files)[p := hash]
  {
  }

  lemma DeleteAnswers(w: World, t: Tables, p: Path)
    requires Answers(w, t)
    ensures Answers(w, DeleteFile(t, p))
  {
    var m := AnswersTo(w, Hashes(t.files));
    StoreRuns.RemoveRemembers(t, m, p);
    assert Hashes(DeleteFile(t, p).files) == Hashes(t.files) - {p};
    assert AnswersTo(w, Hashes(t.files) - {p}) == StoreRuns.ForgetFile(m, p);
  }

  lemma {:induction false} IndexAllAnswers(w: World, t: Tables, ps: seq<Path>)
    requires ParserStamps(w) && Answers(w, t)
    ensures Answers(w, IndexFiles(w, t, ps))
  {
    if ps != [] {
      IndexAllAnswers(w, t, ps[..|ps| - 1]);
      IndexAnswers(w, IndexFiles(w, t, ps[..|ps| - 1]), ps[|ps| - 1]);
    }
  }

  lemma {:induction false} RemoveAnswers(w: World, t: Tables, listing: seq<Path>)
    requires Answers(w, t)
    ensures Answers(w, RemoveGone(w, t, listing))
  {
    if listing != [] {
      RemoveAnswers(w, t, listing[..|listing| - 1]);
      if Gone(w, listing[|listing| - 1]) {
        DeleteAnswers(w, RemoveGone(w, t, listing[..|listing| - 1]), listing[|listing| - 1]);
      }
    }
  }

  /** A sync keeps the node table to the parser's answers for what the file table tracks. */
  lemma SyncAnswers(w: World, t: Tables, listing: seq<Path>)
    requires ParserStamps(w) && Answers(w, t)
    ensures Answers(w, SyncTables(w, t, listing))
  {
    RemoveAnswers(w, t, listing);
    IndexAllAnswers(w, RemoveGone(w, t, listing), Changed(w, t.files, w.scan));
  }

  /** Then the hashes of the tracked files determine the nodes. */
  lemma SameHashesSameNodes(w: World, a: Tables, b: Tables)
    requires Answers(w, a) && Answers(w, b) && Hashes(a.files) == Hashes(b.files)
    ensures a.nodes == b.nodes
  {
    forall id ensures StoreRuns.RowOf(a, id) == StoreRuns.RowOf(b, id) {
    }
    forall id ensures (id in a.nodes <==> id in b.nodes) && (id in a.nodes ==> a.nodes[id] == b.nodes[id]) {
      assert StoreRuns.RowOf(a, id) == StoreRuns.RowOf(b, id);
    }
  }

  lemma NothingAnswers(w: World)
    ensures Answers(w, NO_TABLES)
  {
  }

  function FromScratch(w: World): Tables {
    IndexFiles(w, NO_TABLES, w.scan)
  }

  /** A tracked file that is still there can be indexed, and is not taken for unchanged by
      size and time when its content did change. */
  predicate SeenRight(w: World, files: map<Path, FileRecord>, p: Path)
    requires p in files
  {
    && Indexable(w, p)
    && (files[p].size == w.disk[p].stats.size && files[p].modifiedAt.Floor == w.disk[p].stats.mtimeMs.Floor ==>
          files[p].contentHash == ContentHash(w.disk[p].content))
  }

  lemma HashOfSync(w: World, t: Tables, listing: seq<Path>, p: Path)
    requires Distinct(w.scan) && ListsFiles(listing, t)
    ensures var synced, scratch := Hashes(SyncTables(w, t, listing).files), Hashes(FromScratch(w).files);
      SameAt(synced, scratch, p) <==>
      (p in t.files && !Gone(w, p) ==> SeenRight(w, t.files, p))
  {
    SyncRecords(w, t, listing);
    IndexFilesRecords(w, NO_TABLES, w.scan);
  }

  /** After a sync the tracked hashes and the node table are those of indexing the tree from
      scratch iff the sync sees every tracked file right. */
  lemma SyncIsFromScratchIff(w: World, t: Tables, listing: seq<Path>)
    requires Distinct(w.scan) && ListsFiles(listing, t) && ParserStamps(w) && Answers(w, t)
    ensures var synced, scratch := SyncTables(w, t, listing), FromScratch(w);
      (Hashes(synced.files) == Hashes(scratch.files) && synced.nodes == scratch.nodes) <==>
      forall p :: p in t.files && !Gone(w, p) ==> SeenRight(w, t.files, p)
  {
    var synced, scratch := SyncTables(w, t, listing), FromScratch(w);
    SameHashesIff(w, t, listing);
    if Hashes(synced.files) == Hashes(scratch.files) {
      SyncAnswers(w, t, listing);
      NothingAnswers(w);
      IndexAllAnswers(w, NO_TABLES, w.scan);
      SameHashesSameNodes(w, synced, scratch);
    }
  }

  lemma SameHashesIff(w: World, t: Tables, listing: seq<Path>)
    requires Distinct(w.scan) && ListsFiles(listing, t)
    ensures Hashes(SyncTables(w, t, listing).files) == Hashes(FromScratch(w).files) <==>
      forall p :: p in t.files && !Gone(w, p) ==> SeenRight(w, t.files, p)
  {
    var a, b := Hashes(SyncTables(w, t, listing).files), Hashes(FromScratch(w).files);
    forall p ensures SameAt(a, b, p) <==> (p in t.files && !Gone(w, p) ==> SeenRight(w, t.files, p)) {
      HashOfSync(w, t, listing, p);
    }
    SameEverywhere(a, b);
  }

  predicate SameAt(a: map<Path, ContentHash>, b: map<Path, ContentHash>, p: Path) {
    (p in a <==> p in b) && (p in a && p in b ==> a[p] == b[p])
  }

  lemma SameEverywhere(a: map<Path, ContentHash>, b: map<Path, ContentHash>)
    ensures a == b <==> forall p :: SameAt(a, b, p)
  {
    if forall p :: SameAt(a, b, p) {
      forall p ensures (p in a <==> p in b) && (p in a ==> a[p] == b[p]) {
        assert SameAt(a, b, p);
      }
    }
  }
}
