/** The two commands of the indexer: `index_photos`, which walks a directory
    and writes new RAW files to the table, and `import_photos`, which walks a
    card and reports the RAW files whose content is not yet indexed. */
module Indexer {
  import opened Paths
  import opened Extensions
  import opened Md5
  import opened Store
  import opened IndexRun

  /** `index_photos`. In verbose mode every candidate's record is printed and
      the table is left alone; otherwise the table ends as `Run` says, which
      includes the run aborting on a failed bulk insert. */
  method IndexPhotos(walk: seq<FileEntry>, db: PhotoIndex, verbose: bool, digest: Digest)
    returns (outcome: Outcome, printed: seq<PendingRecord>)
    requires db.Valid()
    modifies db
    ensures db.Valid()
    ensures verbose ==> outcome == Completed && db.rows == old(db.rows) && printed == Candidates(walk, digest)
    ensures !verbose ==> printed == [] && RunResult(outcome, db.rows) == Run(old(db.rows), walk, digest)
  {
    ghost var start := db.rows;
    ghost var target := Run(start, walk, digest);
    var batch: seq<PendingRecord> := [];
    printed := [];
    var i := 0;
    while i < |walk|
      invariant 0 <= i <= |walk|
      invariant db.Valid()
      invariant |batch| < BatchSize
      invariant verbose ==> batch == [] && db.rows == start
      invariant verbose ==> printed + Candidates(walk[i..], digest) == Candidates(walk, digest)
      invariant !verbose ==> printed == []
      invariant !verbose ==> Scan(db.rows, batch, Candidates(walk[i..], digest)) == target
    {
      CandidatesStep(walk, i, digest);
      var ok;
      batch, printed, ok := VisitFile(db, walk[i], verbose, batch, printed, digest, Candidates(walk[i + 1..], digest));
      if !ok {
        outcome := Aborted(batch);
        return;
      }
      i := i + 1;
    }
    assert walk[i..] == [];
    outcome := FlushRemaining(db, batch);
  }

  /** The body of the walk loop of `index_photos` for one file. A RAW file's
      record is printed in verbose mode and otherwise offered to the batch;
      `ok` is false when a bulk insert fails, and `pending` is then the
      failed batch. */
  method VisitFile(db: PhotoIndex, e: FileEntry, verbose: bool, batch: seq<PendingRecord>, printed: seq<PendingRecord>,
                   digest: Digest, ghost rest: seq<PendingRecord>)
    returns (pending: seq<PendingRecord>, shown: seq<PendingRecord>, ok: bool)
    requires db.Valid() && |batch| < BatchSize
    requires verbose ==> batch == []
    modifies db
    ensures db.Valid()
    ensures verbose ==> (ok && pending == [] && db.rows == old(db.rows) &&
      shown + rest == printed + ((if IsRaw(e.name) then [RecordOf(e, digest)] else []) + rest))
    ensures !verbose ==> shown == printed
    ensures !verbose && ok ==> (|pending| < BatchSize &&
      Scan(db.rows, pending, rest) == Scan(old(db.rows), batch, (if IsRaw(e.name) then [RecordOf(e, digest)] else []) + rest))
    ensures !verbose && !ok ==>
      RunResult(Aborted(pending), db.rows) == Scan(old(db.rows), batch, (if IsRaw(e.name) then [RecordOf(e, digest)] else []) + rest)
  {
    pending, shown, ok := batch, printed, true;
    if IsRaw(e.name) {
      var record := DeriveRecord(e, digest);
      if verbose {
        assert (printed + [record]) + rest == printed + ([record] + rest);
        shown := printed + [record];
      } else {
        pending, ok := AddCandidate(db, batch, record, rest);
      }
    } else {
      assert [] + rest == rest;
    }
  }

  /** After the walk: a non-empty leftover batch is inserted and committed. */
  method FlushRemaining(db: PhotoIndex, batch: seq<PendingRecord>) returns (outcome: Outcome)
    requires db.Valid()
    modifies db
    ensures db.Valid()
    ensures RunResult(outcome, db.rows) == Scan(old(db.rows), batch, [])
  {
    if batch != [] {
      var ok := db.InsertMany(batch);
      if !ok {
        outcome := Aborted(batch);
        return;
      }
    }
    outcome := Completed;
  }

  /** One candidate outside verbose mode: it joins the batch unless its hash
      is stored, and a batch that reaches the batch size is inserted and
      committed. `ok` is false when that insert fails; `pending` is then the
      failed batch. (In verbose mode the batch stays empty, so the size check
      never fires there.) */
  method AddCandidate(db: PhotoIndex, batch: seq<PendingRecord>, record: PendingRecord, ghost rest: seq<PendingRecord>)
    returns (pending: seq<PendingRecord>, ok: bool)
    requires db.Valid() && |batch| < BatchSize
    modifies db
    ensures db.Valid()
    ensures ok ==> |pending| < BatchSize && Scan(db.rows, pending, rest) == Scan(old(db.rows), batch, [record] + rest)
    ensures !ok ==> RunResult(Aborted(pending), db.rows) == Scan(old(db.rows), batch, [record] + rest)
  {
    ScanStep(db.rows, batch, record, rest);
    pending := batch;
    if !db.HasMd5(record.md5) {
      pending := batch + [record];
    }
    ok := true;
    if |pending| >= BatchSize {
      ok := db.InsertMany(pending);
      if ok {
        pending := [];
      }
    }
  }

  /** The fields of a candidate's row: absolute path, parent folder name,
      file name, content hash and creation time. */
  method DeriveRecord(e: FileEntry, digest: Digest) returns (record: PendingRecord)
    ensures record == RecordOf(e, digest)
  {
    var filePath := Join(e.root, e.name);
    var folder := Basename(Dirname(filePath));
    var filename := e.name;
    var md5, _ := ComputeMd5(e.content, digest);
    record := PendingRecord(filePath, folder, filename, md5, e.ctime);
  }

  /** The paths of the records whose hash is not in the table, in order. */
  function AbsentPaths(rows: seq<PhotoRow>, recs: seq<PendingRecord>): seq<string> {
    if recs == [] then []
    else (if recs[0].md5 in RowHashes(rows) then [] else [recs[0].filepath]) + AbsentPaths(rows, recs[1..])
  }

  /** What `import_photos` reports: the candidates whose hash is not in the
      table, in walk order. */
  function NewFiles(walk: seq<FileEntry>, rows: seq<PhotoRow>, digest: Digest): seq<string> {
    AbsentPaths(rows, Candidates(walk, digest))
  }

  lemma {:induction false} AbsentPathsAppend(rows: seq<PhotoRow>, a: seq<PendingRecord>, b: seq<PendingRecord>)
    ensures AbsentPaths(rows, a + b) == AbsentPaths(rows, a) + AbsentPaths(rows, b)
    decreases |a|
  {
    if a != [] {
      assert (a + b)[1..] == a[1..] + b;
      AbsentPathsAppend(rows, a[1..], b);
    } else {
      assert a + b == b;
    }
  }

  /** One file of the walk: it is reported when it is RAW and its hash is
      not in the table. */
  lemma NewFilesStep(walk: seq<FileEntry>, i: nat, rows: seq<PhotoRow>, digest: Digest)
    requires i < |walk|
    ensures NewFiles(walk[i..], rows, digest) ==
      (if IsRaw(walk[i].name) && digest(walk[i].content) !in RowHashes(rows) then [FilePath(walk[i])] else [])
      + NewFiles(walk[i + 1..], rows, digest)
  {
    var head := if IsRaw(walk[i].name) then [RecordOf(walk[i], digest)] else [];
    CandidatesStep(walk, i, digest);
    AbsentPathsAppend(rows, head, Candidates(walk[i + 1..], digest));
    if IsRaw(walk[i].name) {
      assert AbsentPaths(rows, head) == (if head[0].md5 in RowHashes(rows) then [] else [head[0].filepath])
        + AbsentPaths(rows, head[1..]);
    }
  }

  lemma ReportStep(walk: seq<FileEntry>, i: nat, rows: seq<PhotoRow>, digest: Digest, reported: seq<string>, report: seq<string>)
    requires i < |walk| && reported + NewFiles(walk[i..], rows, digest) == NewFiles(walk, rows, digest)
    requires report == if IsRaw(walk[i].name) && digest(walk[i].content) !in RowHashes(rows) then [FilePath(walk[i])] else []
    ensures (reported + report) + NewFiles(walk[i + 1..], rows, digest) == NewFiles(walk, rows, digest)
  {
    NewFilesStep(walk, i, rows, digest);
    var rest := NewFiles(walk[i + 1..], rows, digest);
    assert (reported + report) + rest == reported + (report + rest);
  }

  /** `import_photos`: a read-only pass that reports each new RAW file. */
  method ImportPhotos(walk: seq<FileEntry>, db: PhotoIndex, digest: Digest) returns (newFiles: seq<string>)
    ensures newFiles == NewFiles(walk, db.rows, digest)
  {
    ghost var rows := db.rows;
    newFiles := [];
    var i := 0;
    while i < |walk|
      invariant 0 <= i <= |walk| && db.rows == rows
      invariant newFiles + NewFiles(walk[i..], rows, digest) == NewFiles(walk, rows, digest)
    {
      var report := CheckFile(walk[i], db, digest);
      ReportStep(walk, i, rows, digest, newFiles, report);
      newFiles := newFiles + report;
      i := i + 1;
    }
    assert walk[i..] == [];
  }

  /** The body of the walk loop of `import_photos` for one file: a RAW file is
      hashed and reported when the table lacks its hash. */
  method CheckFile(e: FileEntry, db: PhotoIndex, digest: Digest) returns (report: seq<string>)
    ensures report == if IsRaw(e.name) && digest(e.content) !in RowHashes(db.rows) then [FilePath(e)] else []
  {
    report := [];
    if IsRaw(e.name) {
      var filePath := Join(e.root, e.name);
      var md5, _ := ComputeMd5(e.content, digest);
      if !db.HasMd5(md5) {
        report := [filePath];
      }
    }
  }

  /** A path is reported exactly when some RAW file of the walk has that path
      and a hash the table does not hold. */
  lemma {:induction false} AbsentPathsExactly(rows: seq<PhotoRow>, recs: seq<PendingRecord>, p: string)
    ensures p in AbsentPaths(rows, recs) <==>
      exists k :: 0 <= k < |recs| && recs[k].filepath == p && recs[k].md5 !in RowHashes(rows)
  {
    if recs != [] {
      AbsentPathsExactly(rows, recs[1..], p);
      if p in AbsentPaths(rows, recs[1..]) {
        var k :| 0 <= k < |recs[1..]| && recs[1..][k].filepath == p && recs[1..][k].md5 !in RowHashes(rows);
        assert recs[k + 1] == recs[1..][k];
      }
      if exists k :: 0 <= k < |recs| && recs[k].filepath == p && recs[k].md5 !in RowHashes(rows) {
        var k :| 0 <= k < |recs| && recs[k].filepath == p && recs[k].md5 !in RowHashes(rows);
        if k > 0 { assert recs[1..][k - 1] == recs[k]; }
      }
    }
  }

  /** Against an empty table every candidate is new. */
  lemma {:induction false} EmptyTableAllNew(recs: seq<PendingRecord>)
    ensures |AbsentPaths([], recs)| == |recs|
    ensures forall k :: 0 <= k < |recs| ==> AbsentPaths([], recs)[k] == recs[k].filepath
  {
    if recs != [] {
      assert RowHashes([]) == {};
      EmptyTableAllNew(recs[1..]);
    }
  }

  /** Against a table that holds every candidate's hash, nothing is new. */
  lemma {:induction false} AllKnownNoneNew(rows: seq<PhotoRow>, recs: seq<PendingRecord>)
    requires BatchHashes(recs) <= RowHashes(rows)
    ensures AbsentPaths(rows, recs) == []
  {
    if recs != [] {
      assert recs == [recs[0]] + recs[1..];
      BatchHashesAppend([recs[0]], recs[1..]);
      BatchHashesSingle(recs[0]);
      AllKnownNoneNew(rows, recs[1..]);
    }
  }

  /** After an indexing run over a card completes, importing from the same
      card reports nothing. */
  lemma ImportAfterIndexReportsNothing(rows: seq<PhotoRow>, walk: seq<FileEntry>, digest: Digest)
    requires Run(rows, walk, digest).outcome == Completed
    ensures NewFiles(walk, Run(rows, walk, digest).rows, digest) == []
  {
    CompletedRunStoresAll(rows, [], Candidates(walk, digest));
    AllKnownNoneNew(Run(rows, walk, digest).rows, Candidates(walk, digest));
  }

  /** Running `index_photos` twice over the same walk: if the first run
      completes, the second appends nothing. */
  method IndexTwice(walk: seq<FileEntry>, db: PhotoIndex, digest: Digest)
    returns (first: Outcome, second: Outcome)
    requires db.Valid()
    modifies db
    ensures db.Valid()
    ensures first == Completed ==> second == Completed && db.rows == Run(old(db.rows), walk, digest).rows
  {
    var printed;
    first, printed := IndexPhotos(walk, db, false, digest);
    if first == Completed {
      ReindexAddsNothing(old(db.rows), walk, digest);
    }
    second, printed := IndexPhotos(walk, db, false, digest);
  }
}
