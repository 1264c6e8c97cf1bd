/** Incremental sync: reconcile the file table with the file system, then re-index what
    changed. The scan, the file system and the parser are arbitrary inputs. */
module Sync {
  import opened Collections
  import opened GraphTables
  import opened StoreExtraction
  import opened QueryLayer
  import opened StoreMethod

  const MAX_FILE_SIZE: nat := 1024 * 1024

  /** What the file system answers for a path that exists. */
  datatype DiskFile = DiskFile(
    insideRoot: bool, statOk: bool, readOk: bool, stats: Stats, content: string)

  type Disk = map<Path, DiskFile>

  datatype Parsed = Unsupported | Parsed(language: string, result: ExtractionResult)

  /** Everything outside the database that one sync looks at. */
  datatype World = World(scan: seq<Path>, disk: Disk, parse: (Path, string) -> Parsed)

  datatype Verdict = Skip | Added | Modified

  predicate Gone(w: World, p: Path) {
    p !in w.scan || p !in w.disk
  }

  predicate SameStat(r: FileRecord, s: Stats) {
    s.size == r.size && s.mtimeMs.Floor == r.modifiedAt.Floor
  }

  /** The reconcile decision for one scanned path, against the file table as it was
      before the removals. */
  function Check(w: World, files: map<Path, FileRecord>, p: Path): Verdict {
    if p in files && (p !in w.disk || !w.disk[p].statOk) then Skip
    else if p in files && SameStat(files[p], w.disk[p].stats) then Skip
    else if p !in w.disk || !w.disk[p].readOk then Skip
    else if p !in files then Added
    else if files[p].contentHash != ContentHash(w.disk[p].content) then Modified
    else Skip
  }

  function Changed(w: World, files: map<Path, FileRecord>, scan: seq<Path>): seq<Path> {
    if scan == [] then []
    else
      var init := Changed(w, files, scan[..|scan| - 1]);
      if Check(w, files, scan[|scan| - 1]) == Skip then init else init + [scan[|scan| - 1]]
  }

  function CountOf(w: World, files: map<Path, FileRecord>, scan: seq<Path>, v: Verdict): nat {
    if scan == [] then 0
    else CountOf(w, files, scan[..|scan| - 1], v) + (if Check(w, files, scan[|scan| - 1]) == v then 1 else 0)
  }

  function CountGone(w: World, listing: seq<Path>): nat {
    if listing == [] then 0
    else CountGone(w, listing[..|listing| - 1]) + (if Gone(w, listing[|listing| - 1]) then 1 else 0)
  }

  function RemoveGone(w: World, t: Tables, listing: seq<Path>): Tables {
    if listing == [] then t
    else
      var before := RemoveGone(w, t, listing[..|listing| - 1]);
      var p := listing[|listing| - 1];
      if Gone(w, p) then DeleteFile(before, p) else before
  }

  /** `indexFile` reaches the store exactly for these. */
  predicate Indexable(w: World, p: Path) {
    && p in w.disk && w.disk[p].insideRoot && w.disk[p].statOk && w.disk[p].readOk
    && w.disk[p].stats.size <= MAX_FILE_SIZE
    && var answer := w.parse(p, w.disk[p].content);
       answer.Parsed? && (answer.result.nodes != [] || answer.result.errors == [])
  }

  function IndexFile(w: World, t: Tables, p: Path): Tables {
    if Indexable(w, p) then
      var answer := w.parse(p, w.disk[p].content);
      Store(t, p, w.disk[p].content, answer.language, w.disk[p].stats, answer.result)
    else t
  }

  function IndexFiles(w: World, t: Tables, ps: seq<Path>): Tables {
    if ps == [] then t else IndexFile(w, IndexFiles(w, t, ps[..|ps| - 1]), ps[|ps| - 1])
  }

  function SyncTables(w: World, t: Tables, listing: seq<Path>): Tables {
    IndexFiles(w, RemoveGone(w, t, listing), Changed(w, t.files, w.scan))
  }

  // ---------------------------------------------------------------- the method

  datatype Report = Report(added: nat, modified: nat, removed: nat, changed: seq<Path>)

  /** `listing` is `getAllFiles()`. */
  method Run(q: QueryBuilder, w: World, listing: seq<Path>) returns (report: Report)
    requires q.Valid()
    modifies q
    ensures q.Valid() && (old(q.Searchable()) ==> q.Searchable())
    ensures q.tables == SyncTables(w, old(q.tables), listing)
    ensures report.changed == Changed(w, old(q.tables.files), w.scan)
    ensures report.added == CountOf(w, old(q.tables.files), w.scan, Added)
    ensures report.modified == CountOf(w, old(q.tables.files), w.scan, Modified)
    ensures report.removed == CountGone(w, listing)
  {
    var trackedMap := q.tables.files;
    var removed := RemoveGoneFrom(q, w, listing);
    var filesToIndex, added, modified := ClassifyAll(w, trackedMap);
    IndexInto(q, w, filesToIndex);
    return Report(added, modified, removed, filesToIndex);
  }

  method RemoveGoneFrom(q: QueryBuilder, w: World, listing: seq<Path>) returns (removed: nat)
    requires q.Valid()
    modifies q
    ensures q.Valid() && (old(q.Searchable()) ==> q.Searchable())
    ensures q.tables == RemoveGone(w, old(q.tables), listing)
    ensures removed == CountGone(w, listing)
  {
    removed := 0;
    for i := 0 to |listing|
      invariant q.Valid() && (old(q.Searchable()) ==> q.Searchable())
      invariant q.tables == RemoveGone(w, old(q.tables), listing[..i])
      invariant removed == CountGone(w, listing[..i])
    {
      assert listing[..i + 1][..i] == listing[..i];
      if Gone(w, listing[i]) {
        q.DeleteFile(listing[i]);
        removed := removed + 1;
      }
    }
    assert listing[..|listing|] == listing;
  }

  method IndexInto(q: QueryBuilder, w: World, ps: seq<Path>)
    requires q.Valid()
    modifies q
    ensures q.Valid() && (old(q.Searchable()) ==> q.Searchable())
    ensures q.tables == IndexFiles(w, old(q.tables), ps)
  {
    for i := 0 to |ps|
      invariant q.Valid() && (old(q.Searchable()) ==> q.Searchable())
      invariant q.tables == IndexFiles(w, old(q.tables), ps[..i])
    {
      var p := ps[i];
      assert ps[..i + 1][..i] == ps[..i];
      IndexOne(q, w, p);
    }
    assert ps[..|ps|] == ps;
  }

  /** `indexFile`: every early return leaves the database alone. */
  method IndexOne(q: QueryBuilder, w: World, p: Path)
    requires q.Valid()
    modifies q
    ensures q.Valid() && (old(q.Searchable()) ==> q.Searchable())
    ensures q.tables == IndexFile(w, old(q.tables), p)
  {
    if p !in w.disk || !w.disk[p].insideRoot {
      return;
    }
    if !w.disk[p].statOk || !w.disk[p].readOk {
      return;
    }
    var stats, content := w.disk[p].stats, w.disk[p].content;
    if stats.size > MAX_FILE_SIZE {
      return;
    }
    var answer := w.parse(p, content);
    if answer.Unsupported? {
      return;
    }
    if answer.result.nodes != [] || answer.result.errors == [] {
      StoreExtractionResult(q, p, content, answer.language, stats, answer.result);
    }
  }

  /** Added and modified partition the files to index. */
  method ClassifyAll(w: World, files: map<Path, FileRecord>)
      returns (filesToIndex: seq<Path>, added: nat, modified: nat)
    ensures filesToIndex == Changed(w, files, w.scan)
    ensures added == CountOf(w, files, w.scan, Added)
    ensures modified == CountOf(w, files, w.scan, Modified)
    ensures added + modified == |filesToIndex|
  {
    filesToIndex, added, modified := [], 0, 0;
    for i := 0 to |w.scan|
      invariant filesToIndex == Changed(w, files, w.scan[..i])
      invariant added == CountOf(w, files, w.scan[..i], Added)
      invariant modified == CountOf(w, files, w.scan[..i], Modified)
      invariant added + modified == |filesToIndex|
    {
      var p := w.scan[i];
      assert w.scan[..i + 1][..i] == w.scan[..i];
      if p in files {
        if p !in w.disk || !w.disk[p].statOk {
          continue;
        }
        if SameStat(files[p], w.disk[p].stats) {
          continue;
        }
      }
      if p !in w.disk || !w.disk[p].readOk {
        continue;
      }
      if p !in files {
        filesToIndex, added := filesToIndex + [p], added + 1;
      } else if files[p].contentHash != ContentHash(w.disk[p].content) {
        filesToIndex, modified := filesToIndex + [p], modified + 1;
      }
    }
    assert w.scan[..|w.scan|] == w.scan;
  }

  // ------------------------------------------------------------- convergence

  ghost predicate ListsFiles(listing: seq<Path>, t: Tables) {
    forall p :: p in listing <==> p in t.files
  }

  lemma {:induction false} ChangedExact(w: World, files: map<Path, FileRecord>, scan: seq<Path>)
    ensures forall p :: p in Changed(w, files, scan) <==> p in scan && Check(w, files, p) != Skip
    ensures Distinct(scan) ==> Distinct(Changed(w, files, scan))
  {
    if scan != [] {
      var init, last := scan[..|scan| - 1], scan[|scan| - 1];
      ChangedExact(w, files, init);
      assert scan == init + [last];
      assert forall p :: p in scan <==> p in init || p == last;
      if Distinct(scan) && Check(w, files, last) != Skip {
        assert last !in init;
        DistinctAppend(Changed(w, files, init), last);
      }
    }
  }

  /** Said field by field: an untracked file is re-indexed iff it can be read; a tracked one
      iff it can be statted and read, its size or floored time differs, and so does its hash. */
  lemma ChangedIff(w: World, files: map<Path, FileRecord>, p: Path)
    requires p in w.scan
    ensures p !in files ==> (p in Changed(w, files, w.scan) <==> p in w.disk && w.disk[p].readOk)
    ensures p in files ==> (p in Changed(w, files, w.scan) <==>
      && p in w.disk && w.disk[p].statOk && w.disk[p].readOk
      && files[p].contentHash != ContentHash(w.disk[p].content)
      && (files[p].size != w.disk[p].stats.size || files[p].modifiedAt.Floor != w.disk[p].stats.mtimeMs.Floor))
  {
    ChangedExact(w, files, w.scan);
  }

  /** The counts are those of the untracked and of the tracked files that are re-indexed. */
  lemma {:induction false} CountsExact(w: World, files: map<Path, FileRecord>, scan: seq<Path>)
    requires Distinct(scan)
    ensures CountOf(w, files, scan, Added) == |Untracked(files, Changed(w, files, scan))|
    ensures CountOf(w, files, scan, Modified) == |Tracked(files, Changed(w, files, scan))|
  {
    if scan != [] {
      var init, last := scan[..|scan| - 1], scan[|scan| - 1];
      assert scan == init + [last];
      assert last !in init;
      CountsExact(w, files, init);
      ChangedExact(w, files, init);
      OneMorePath(files, Changed(w, files, init), last);
    }
  }

  function Tracked(files: map<Path, FileRecord>, ps: seq<Path>): set<Path> {
    set p | p in ps && p in files
  }

  function Untracked(files: map<Path, FileRecord>, ps: seq<Path>): set<Path> {
    set p | p in ps && p !in files
  }

  lemma OneMorePath(files: map<Path, FileRecord>, ps: seq<Path>, p: Path)
    requires p !in ps
    ensures |Tracked(files, ps + [p])| == |Tracked(files, ps)| + (if p in files then 1 else 0)
    ensures |Untracked(files, ps + [p])| == |Untracked(files, ps)| + (if p in files then 0 else 1)
  {
    assert forall x :: x in ps + [p] <==> x in ps || x == p;
    MoreTracked(files, ps, p);
    MoreUntracked(files, ps, p);
  }

  lemma MoreTracked(files: map<Path, FileRecord>, ps: seq<Path>, p: Path)
    requires forall x :: x in ps + [p] <==> x in ps || x == p
    ensures Tracked(files, ps + [p]) == Tracked(files, ps) + (if p in files then {p} else {})
  {
  }

  lemma MoreUntracked(files: map<Path, FileRecord>, ps: seq<Path>, p: Path)
    requires forall x :: x in ps + [p] <==> x in ps || x == p
    ensures Untracked(files, ps + [p]) == Untracked(files, ps) + (if p in files then {} else {p})
  {
  }

  /** A tracked path is removed iff it was not scanned or is not on disk. */
  lemma RemovedIff(w: World, t: Tables, listing: seq<Path>, p: Path)
    requires ListsFiles(listing, t)
    ensures p in RemoveGone(w, t, listing).files <==> p in t.files && p in w.scan && p in w.disk
  {
    RemoveGoneFiles(w, t, listing);
  }

  lemma {:induction false} RemoveGoneFiles(w: World, t: Tables, listing: seq<Path>)
    ensures forall p :: p in RemoveGone(w, t, listing).files <==> p in t.files && !(p in listing && Gone(w, p))
    ensures forall p :: p in RemoveGone(w, t, listing).files ==> RemoveGone(w, t, listing).files[p] == t.files[p]
    ensures (forall p :: p in listing ==> !Gone(w, p)) ==> RemoveGone(w, t, listing) == t
  {
    if listing != [] {
      var init, last := listing[..|listing| - 1], listing[|listing| - 1];
      assert listing == init + [last];
      assert forall p :: p in listing <==> p in init || p == last;
      RemoveGoneFiles(w, t, init);
    }
  }

  /** The record that indexing leaves for a path. */
  function DiskRecord(w: World, p: Path): FileRecord
    requires Indexable(w, p)
  {
    var answer := w.parse(p, w.disk[p].content);
    Record(w.disk[p].content, answer.language, w.disk[p].stats, answer.result)
  }

  /** Said field by field: which paths `indexFile` stores, and the record it leaves. */
  lemma IndexFileExact(w: World, t: Tables, p: Path)
    requires p in t.files && p in w.disk ==> t.files[p].contentHash != ContentHash(w.disk[p].content)
    ensures var t' := IndexFile(w, t, p);
      if p in w.disk && w.disk[p].insideRoot && w.disk[p].statOk && w.disk[p].readOk && w.disk[p].stats.size <= 1048576
        && w.parse(p, w.disk[p].content).Parsed?
        && (w.parse(p, w.disk[p].content).result.nodes != [] || w.parse(p, w.disk[p].content).result.errors == [])
      then
        var d, answer := w.disk[p], w.parse(p, w.disk[p].content);
        t'.files == t.files[p := FileRecord(ContentHash(d.content), answer.language, d.stats.size, d.stats.mtimeMs,
                                            |answer.result.nodes|)]
      else t' == t
  {
    if Indexable(w, p) {
      var answer := w.parse(p, w.disk[p].content);
      StoreFiles(t, p, w.disk[p].content, answer.language, w.disk[p].stats, answer.result);
    }
  }

  /** Indexing distinct, really changed files replaces exactly the records of the
      indexable ones. */
  lemma {:induction false} IndexFilesRecords(w: World, t: Tables, ps: seq<Path>)
    requires Distinct(ps)
    requires forall p :: p in ps && p in t.files && p in w.disk ==>
      t.files[p].contentHash != ContentHash(w.disk[p].content)
    ensures var t' := IndexFiles(w, t, ps);
      && (forall p :: p in t'.files <==> p in t.files || (p in ps && Indexable(w, p)))
      && (forall p :: p in t'.files ==>
            t'.files[p] == if p in ps && Indexable(w, p) then DiskRecord(w, p) else t.files[p])
  {
    if ps != [] {
      var init, last := ps[..|ps| - 1], ps[|ps| - 1];
      assert ps == init + [last];
      assert forall p :: p in ps <==> p in init || p == last;
      assert last !in init;
      IndexFilesRecords(w, t, init);
      if Indexable(w, last) {
        var t1 := IndexFiles(w, t, init);
        var answer := w.parse(last, w.disk[last].content);
        StoreFiles(t1, last, w.disk[last].content, answer.language, w.disk[last].stats, answer.result);
      }
    }
  }

  /** The file table after one sync, path by path. */
  lemma SyncRecords(w: World, t: Tables, listing: seq<Path>)
    requires Distinct(w.scan) && ListsFiles(listing, t)
    ensures var t' := SyncTables(w, t, listing);
      && (forall p :: p in t'.files <==>
            (p in t.files && !Gone(w, p)) || (p in w.scan && Check(w, t.files, p) != Skip && Indexable(w, p)))
      && (forall p :: p in t'.files ==>
            t'.files[p] ==
            (if p in w.scan && Check(w, t.files, p) != Skip && Indexable(w, p) then DiskRecord(w, p) else t.files[p]))
  {
    ChangedExact(w, t.files, w.scan);
    RemoveGoneFiles(w, t, listing);
    IndexFilesRecords(w, RemoveGone(w, t, listing), Changed(w, t.files, w.scan));
  }

  /** After a sync every tracked path was scanned and exists, and carries the hash of the
      current content unless it was tracked before and the sync had no way to see or store
      the change. */
  lemma SyncIsFresh(w: World, t: Tables, listing: seq<Path>)
    requires Distinct(w.scan) && ListsFiles(listing, t)
    ensures var t' := SyncTables(w, t, listing);
      forall p :: p in t'.files ==>
        && p in w.scan && p in w.disk
        && (t'.files[p].contentHash == ContentHash(w.disk[p].content) ||
            (p in t.files && t'.files[p] == t.files[p] &&
             (!w.disk[p].statOk || !w.disk[p].readOk || !Indexable(w, p) ||
              (w.disk[p].stats.size == t.files[p].size &&
               w.disk[p].stats.mtimeMs.Floor == t.files[p].modifiedAt.Floor))))
  {
    SyncRecords(w, t, listing);
  }

  /** What a second sync over the same world would re-index: exactly what the first one
      found changed and could not store. */
  lemma SecondSyncChanged(w: World, t: Tables, listing: seq<Path>, p: Path)
    requires Distinct(w.scan) && ListsFiles(listing, t) && p in w.scan
    ensures var t' := SyncTables(w, t, listing);
      Check(w, t'.files, p) != Skip <==> Check(w, t.files, p) != Skip && !Indexable(w, p)
  {
    SyncRecords(w, t, listing);
  }

  lemma {:induction false} IndexNothing(w: World, t: Tables, ps: seq<Path>)
    requires forall p :: p in ps ==> !Indexable(w, p)
    ensures IndexFiles(w, t, ps) == t
  {
    if ps != [] {
      assert ps[|ps| - 1] in ps;
      IndexNothing(w, t, ps[..|ps| - 1]);
    }
  }

  /** Sync converges in one step: over an unchanged tree a second sync never changes the
      database, and it reports no change iff the first one stored all it set out to. */
  lemma SyncConverges(w: World, t: Tables, listing: seq<Path>, listing': seq<Path>)
    requires Distinct(w.scan) && ListsFiles(listing, t)
    requires ListsFiles(listing', SyncTables(w, t, listing))
    ensures var t' := SyncTables(w, t, listing);
      && SyncTables(w, t', listing') == t'
      && CountGone(w, listing') == 0
      && (Changed(w, t'.files, w.scan) == [] <==>
            forall p :: p in Changed(w, t.files, w.scan) ==> Indexable(w, p))
  {
    var t' := SyncTables(w, t, listing);
    SyncRecords(w, t, listing);
    assert forall p :: p in listing' ==> !Gone(w, p);
    RemoveGoneFiles(w, t', listing');
    NoneGone(w, listing');
    ChangedExact(w, t.files, w.scan);
    ChangedExact(w, t'.files, w.scan);
    forall p | p in w.scan
      ensures Check(w, t'.files, p) != Skip <==> Check(w, t.files, p) != Skip && !Indexable(w, p)
    {
      SecondSyncChanged(w, t, listing, p);
    }
    IndexNothing(w, t', Changed(w, t'.files, w.scan));
    if Changed(w, t'.files, w.scan) != [] {
      var p := Changed(w, t'.files, w.scan)[0];
      assert p in Changed(w, t'.files, w.scan);
      assert p in Changed(w, t.files, w.scan) && !Indexable(w, p);
    }
  }

  lemma {:induction false} NoneGone(w: World, listing: seq<Path>)
    requires forall p :: p in listing ==> !Gone(w, p)
    ensures CountGone(w, listing) == 0
  {
    if listing != [] {
      assert listing[|listing| - 1] in listing;
      NoneGone(w, listing[..|listing| - 1]);
    }
  }
}
