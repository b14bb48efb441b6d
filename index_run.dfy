/** What one run of `index_photos` does to the table, as a function of the
    table before the run and the candidates in walk order: each candidate
    whose hash is absent from the table at check time joins the pending
    batch, a batch that reaches 100 is bulk-inserted and cleared, and what is
    left is bulk-inserted at the end. A bulk insert that violates
    UNIQUE(md5_hash) ends the run: earlier batches stay committed, the
    failing one is not. */
module IndexRun {
  import opened Paths
  import opened Extensions
  import opened Md5
  import opened Store

  /** One file of the directory walk: the walk's directory, the file name,
      its bytes, and its creation time as formatted by the OS layer. */
  datatype FileEntry = FileEntry(root: string, name: string, content: seq<Byte>, ctime: string)

  const BatchSize: nat := 100

  /** How a run ends: normally, or with the bulk insert of `failed` raising
      a UNIQUE violation. */
  datatype Outcome = Completed | Aborted(failed: seq<PendingRecord>)

  datatype RunResult = RunResult(outcome: Outcome, rows: seq<PhotoRow>)

  function FilePath(e: FileEntry): string {
    Join(e.root, e.name)
  }

  /** The tuple appended to the pending batch for a candidate. */
  function RecordOf(e: FileEntry, digest: Digest): PendingRecord {
    var path := FilePath(e);
    PendingRecord(path, Basename(Dirname(path)), e.name, digest(e.content), e.ctime)
  }

  /** The stored file name is the base name of the stored path, the folder is
      the last component of the walk directory, and the hash depends on the
      bytes only. */
  lemma RecordFields(e: FileEntry, digest: Digest)
    requires Sep !in e.name
    ensures RecordOf(e, digest).filename == Basename(RecordOf(e, digest).filepath)
    ensures RecordOf(e, digest).folder == Basename(RStripSeps(e.root))
    ensures RecordOf(e, digest).md5 == digest(e.content)
  {
    BasenameJoin(e.root, e.name);
    if AllSeps(e.root) {
      FolderOfSeparatorRoot(e.root, e.name);
    } else {
      DirnameJoin(e.root, e.name);
    }
  }

  /** The records of the RAW files of the walk, in walk order. */
  function Candidates(walk: seq<FileEntry>, digest: Digest): seq<PendingRecord> {
    if walk == [] then []
    else (if IsRaw(walk[0].name) then [RecordOf(walk[0], digest)] else []) + Candidates(walk[1..], digest)
  }

  /** The candidates from position `i` on: the file at `i` if it is RAW, then
      the rest. */
  lemma CandidatesStep(walk: seq<FileEntry>, i: nat, digest: Digest)
    requires i < |walk|
    ensures Candidates(walk[i..], digest) ==
      (if IsRaw(walk[i].name) then [RecordOf(walk[i], digest)] else []) + Candidates(walk[i + 1..], digest)
  {
    assert walk[i..][0] == walk[i] && walk[i..][1..] == walk[i + 1..];
  }

  /** Every RAW file of the walk is a candidate. */
  lemma {:induction false} RawFileIsCandidate(walk: seq<FileEntry>, digest: Digest, i: nat)
    requires i < |walk| && IsRaw(walk[i].name)
    ensures RecordOf(walk[i], digest) in Candidates(walk, digest)
  {
    if i > 0 {
      assert walk[1..][i - 1] == walk[i];
      RawFileIsCandidate(walk[1..], digest, i - 1);
    }
  }

  /** Every candidate is the record of a RAW file of the walk: other files
      are never hashed or stored. */
  lemma {:induction false} CandidateIsRawFile(walk: seq<FileEntry>, digest: Digest, r: PendingRecord)
    requires r in Candidates(walk, digest)
    ensures exists i :: 0 <= i < |walk| && IsRaw(walk[i].name) && r == RecordOf(walk[i], digest)
  {
    if IsRaw(walk[0].name) && r == RecordOf(walk[0], digest) {
      assert 0 < |walk|;
    } else {
      assert r in Candidates(walk[1..], digest);
      CandidateIsRawFile(walk[1..], digest, r);
      var i :| 0 <= i < |walk[1..]| && IsRaw(walk[1..][i].name) && r == RecordOf(walk[1..][i], digest);
      assert walk[i + 1] == walk[1..][i];
    }
  }

  /** No hash of the pending batch is in the table. */
  predicate FreshBatch(rows: seq<PhotoRow>, batch: seq<PendingRecord>) {
    forall i :: 0 <= i < |batch| ==> batch[i].md5 !in RowHashes(rows)
  }

  /** The rest of a run from table `rows` with pending batch `batch`. */
  function Scan(rows: seq<PhotoRow>, batch: seq<PendingRecord>, recs: seq<PendingRecord>): RunResult
    decreases |recs|
  {
    if recs == [] then
      if batch == [] then RunResult(Completed, rows)
      else if Insertable(rows, batch) then RunResult(Completed, Commit(rows, batch))
      else RunResult(Aborted(batch), rows)
    else
      var pending := if recs[0].md5 in RowHashes(rows) then batch else batch + [recs[0]];
      if |pending| >= BatchSize then
        if Insertable(rows, pending) then Scan(Commit(rows, pending), [], recs[1..])
        else RunResult(Aborted(pending), rows)
      else Scan(rows, pending, recs[1..])
  }

  /** One step of `Scan`, for the loop that computes it. */
  lemma ScanStep(rows: seq<PhotoRow>, batch: seq<PendingRecord>, r: PendingRecord, rest: seq<PendingRecord>)
    ensures var pending := if r.md5 in RowHashes(rows) then batch else batch + [r];
      Scan(rows, batch, [r] + rest) ==
        if |pending| >= BatchSize then
          if Insertable(rows, pending) then Scan(Commit(rows, pending), [], rest)
          else RunResult(Aborted(pending), rows)
        else Scan(rows, pending, rest)
  {
    assert ([r] + rest)[0] == r && ([r] + rest)[1..] == rest;
  }

  /** A whole run over the walk, from an empty pending batch. */
  function Run(rows: seq<PhotoRow>, walk: seq<FileEntry>, digest: Digest): RunResult {
    Scan(rows, [], Candidates(walk, digest))
  }

  /** The records of `recs` whose hash is not yet known, first occurrence only. */
  function Fresh(known: set<string>, recs: seq<PendingRecord>): seq<PendingRecord>
    decreases |recs|
  {
    if recs == [] then []
    else if recs[0].md5 in known then Fresh(known, recs[1..])
    else [recs[0]] + Fresh(known + {recs[0].md5}, recs[1..])
  }

  /** `Fresh` keeps each new hash once, and only records of `recs` whose
      hash was not known. */
  lemma {:induction false} FreshFacts(known: set<string>, recs: seq<PendingRecord>)
    ensures DistinctHashes(Fresh(known, recs))
    ensures forall i :: 0 <= i < |Fresh(known, recs)| ==>
      Fresh(known, recs)[i].md5 !in known && Fresh(known, recs)[i] in recs
    decreases |recs|
  {
    if recs != [] {
      var h := recs[0].md5;
      if h in known {
        FreshFacts(known, recs[1..]);
      } else {
        var tail := Fresh(known + {h}, recs[1..]);
        FreshFacts(known + {h}, recs[1..]);
        var r := [recs[0]] + tail;
        assert Fresh(known, recs) == r;
        forall i | 0 <= i < |r| ensures r[i].md5 !in known && r[i] in recs {
          if i > 0 { assert r[i] == tail[i - 1]; }
        }
        forall i, j | 0 <= i < j < |r| ensures r[i].md5 != r[j].md5 {
          assert r[j] == tail[j - 1];
          if i > 0 { assert r[i] == tail[i - 1]; }
        }
      }
    }
  }

  /** A run never breaks the table's invariant, never removes or changes a
      committed row, and adds rows only for records of the batch or the
      candidates. */
  lemma {:induction false} ScanKeepsTable(rows: seq<PhotoRow>, batch: seq<PendingRecord>, recs: seq<PendingRecord>)
    requires TableOk(rows)
    ensures TableOk(Scan(rows, batch, recs).rows)
    ensures rows <= Scan(rows, batch, recs).rows
    ensures forall k :: |rows| <= k < |Scan(rows, batch, recs).rows| ==>
      Scan(rows, batch, recs).rows[k].record in batch + recs
    decreases |recs|
  {
    if recs == [] {
      if batch != [] && Insertable(rows, batch) {
        CommitKeepsTable(rows, batch);
      }
    } else {
      var pending := if recs[0].md5 in RowHashes(rows) then batch else batch + [recs[0]];
      assert forall x :: x in pending ==> x in batch + recs;
      if |pending| >= BatchSize {
        if Insertable(rows, pending) {
          var next := Commit(rows, pending);
          CommitKeepsTable(rows, pending);
          ScanKeepsTable(next, [], recs[1..]);
          assert forall x :: x in [] + recs[1..] ==> x in batch + recs;
        }
      } else {
        ScanKeepsTable(rows, pending, recs[1..]);
        assert forall x :: x in pending + recs[1..] ==> x in batch + recs;
      }
    }
  }

  /** Once two pending records share a hash, the run ends with a failed
      bulk insert. */
  lemma {:induction false} DuplicateInBatchAborts(rows: seq<PhotoRow>, batch: seq<PendingRecord>, recs: seq<PendingRecord>)
    requires !DistinctHashes(batch)
    ensures Scan(rows, batch, recs).outcome.Aborted?
    decreases |recs|
  {
    var i, j :| 0 <= i < j < |batch| && batch[i].md5 == batch[j].md5;
    if recs == [] {
      RepeatedHashNotInsertable(rows, batch, i, j);
    } else {
      var pending := if recs[0].md5 in RowHashes(rows) then batch else batch + [recs[0]];
      assert pending[i] == batch[i] && pending[j] == batch[j];
      RepeatedHashNotInsertable(rows, pending, i, j);
      if |pending| < BatchSize {
        DuplicateInBatchAborts(rows, pending, recs[1..]);
      }
    }
  }

  /** A failed bulk insert holds between 1 and 100 records of the batch and
      the candidates, and it fails because two of them share a hash: a hash
      already in the table never reaches the batch. */
  lemma {:induction false} AbortedBatchHasDuplicate(rows: seq<PhotoRow>, batch: seq<PendingRecord>, recs: seq<PendingRecord>)
    requires FreshBatch(rows, batch) && |batch| < BatchSize
    requires Scan(rows, batch, recs).outcome.Aborted?
    ensures 0 < |Scan(rows, batch, recs).outcome.failed| <= BatchSize
    ensures !DistinctHashes(Scan(rows, batch, recs).outcome.failed)
    ensures forall x :: x in Scan(rows, batch, recs).outcome.failed ==> x in batch + recs
    ensures FreshBatch(Scan(rows, batch, recs).rows, Scan(rows, batch, recs).outcome.failed)
    decreases |recs|
  {
    if recs != [] {
      var pending := if recs[0].md5 in RowHashes(rows) then batch else batch + [recs[0]];
      assert forall x :: x in pending ==> x in batch + recs;
      if |pending| >= BatchSize {
        if Insertable(rows, pending) {
          AbortedBatchHasDuplicate(Commit(rows, pending), [], recs[1..]);
          assert forall x :: x in [] + recs[1..] ==> x in batch + recs;
        }
      } else {
        AbortedBatchHasDuplicate(rows, pending, recs[1..]);
        assert forall x :: x in pending + recs[1..] ==> x in batch + recs;
      }
    }
  }

  /** After a run that completes, every candidate's hash is in the table,
      and so is every hash that was there before or in the starting batch. */
  lemma {:induction false} CompletedRunStoresAll(rows: seq<PhotoRow>, batch: seq<PendingRecord>, recs: seq<PendingRecord>)
    requires Scan(rows, batch, recs).outcome == Completed
    ensures RowHashes(rows) + BatchHashes(batch) + BatchHashes(recs) <= RowHashes(Scan(rows, batch, recs).rows)
    decreases |recs|
  {
    if recs == [] {
      if batch != [] {
        CommitHashes(rows, batch);
      }
    } else {
      var r, rest := recs[0], recs[1..];
      assert recs == [r] + rest;
      BatchHashesAppend([r], rest);
      var pending := if r.md5 in RowHashes(rows) then batch else batch + [r];
      BatchHashesAppend(batch, [r]);
      assert BatchHashes(batch) + BatchHashes([r]) <= RowHashes(rows) + BatchHashes(pending);
      if |pending| >= BatchSize {
        CompletedRunStoresAll(Commit(rows, pending), [], rest);
        CommitHashes(rows, pending);
      } else {
        CompletedRunStoresAll(rows, pending, rest);
      }
    }
  }

  /** A run that completes appends, after the old rows, the starting batch
      and then the candidates whose hash was not yet stored or pending, each
      hash once, in walk order. */
  lemma {:induction false} CompletedRunCommitsFresh(rows: seq<PhotoRow>, batch: seq<PendingRecord>, recs: seq<PendingRecord>)
    requires FreshBatch(rows, batch) && DistinctHashes(batch) && |batch| < BatchSize
    requires Scan(rows, batch, recs).outcome == Completed
    ensures Scan(rows, batch, recs).rows ==
      Commit(rows, batch + Fresh(RowHashes(rows) + BatchHashes(batch), recs))
    decreases |recs|
  {
    var known := RowHashes(rows) + BatchHashes(batch);
    if recs == [] {
      assert batch + Fresh(known, recs) == batch;
    } else if recs[0].md5 in RowHashes(rows) {
      CompletedRunCommitsFresh(rows, batch, recs[1..]);
    } else if recs[0].md5 in BatchHashes(batch) {
      PendingRepeatAborts(rows, batch, recs);
      assert false;
    } else {
      var r, rest := recs[0], recs[1..];
      var pending := batch + [r];
      var known' := RowHashes(rows) + BatchHashes(pending);
      FreshStep(rows, batch, r, rest);
      PendingGrows(rows, batch, r);
      if |pending| >= BatchSize {
        var next := Commit(rows, pending);
        CommitHashes(rows, pending);
        assert BatchHashes([]) == {};
        assert RowHashes(next) + BatchHashes([]) == known';
        CompletedRunCommitsFresh(next, [], rest);
        assert [] + Fresh(known', rest) == Fresh(known', rest);
        CommitAppend(rows, pending, Fresh(known', rest));
      } else {
        CompletedRunCommitsFresh(rows, pending, rest);
      }
    }
  }

  /** A candidate absent from the table whose hash is already pending makes
      the run fail. */
  lemma PendingRepeatAborts(rows: seq<PhotoRow>, batch: seq<PendingRecord>, recs: seq<PendingRecord>)
    requires recs != [] && recs[0].md5 !in RowHashes(rows) && recs[0].md5 in BatchHashes(batch)
    ensures Scan(rows, batch, recs).outcome.Aborted?
  {
    var pending := batch + [recs[0]];
    var k :| 0 <= k < |batch| && batch[k].md5 == recs[0].md5;
    assert pending[k].md5 == pending[|batch|].md5;
    if |pending| < BatchSize {
      DuplicateInBatchAborts(rows, pending, recs[1..]);
    } else {
      RepeatedHashNotInsertable(rows, pending, k, |batch|);
    }
  }

  /** Moving a new record into the pending batch moves it out of `Fresh`. */
  lemma FreshStep(rows: seq<PhotoRow>, batch: seq<PendingRecord>, r: PendingRecord, rest: seq<PendingRecord>)
    requires r.md5 !in RowHashes(rows) + BatchHashes(batch)
    ensures batch + Fresh(RowHashes(rows) + BatchHashes(batch), [r] + rest) ==
      (batch + [r]) + Fresh(RowHashes(rows) + BatchHashes(batch + [r]), rest)
  {
    var known := RowHashes(rows) + BatchHashes(batch);
    var k2 := RowHashes(rows) + BatchHashes(batch + [r]);
    assert k2 == known + {r.md5} by {
      BatchHashesAppend(batch, [r]);
      BatchHashesSingle(r);
    }
    var f := Fresh(k2, rest);
    assert Fresh(known, [r] + rest) == [r] + f by {
      FreshCons(known, r, rest);
    }
    assert batch + ([r] + f) == (batch + [r]) + f;
  }

  /** A new record keeps the pending batch free of stored and of repeated
      hashes. */
  lemma PendingGrows(rows: seq<PhotoRow>, batch: seq<PendingRecord>, r: PendingRecord)
    requires r.md5 !in RowHashes(rows) + BatchHashes(batch)
    requires FreshBatch(rows, batch) && DistinctHashes(batch)
    ensures FreshBatch(rows, batch + [r]) && DistinctHashes(batch + [r])
  {
    forall i | 0 <= i < |batch| ensures batch[i].md5 != r.md5 {
      assert batch[i].md5 in BatchHashes(batch);
    }
  }

  lemma FreshCons(known: set<string>, r: PendingRecord, rest: seq<PendingRecord>)
    requires r.md5 !in known
    ensures Fresh(known, [r] + rest) == [r] + Fresh(known + {r.md5}, rest)
  {
    assert ([r] + rest)[1..] == rest;
  }

  /** A run over candidates whose hashes are all stored adds nothing. */
  lemma {:induction false} AllKnownAddsNothing(rows: seq<PhotoRow>, recs: seq<PendingRecord>)
    requires BatchHashes(recs) <= RowHashes(rows)
    ensures Scan(rows, [], recs) == RunResult(Completed, rows)
    decreases |recs|
  {
    if recs != [] {
      BatchHashesAppend([recs[0]], recs[1..]);
      assert recs == [recs[0]] + recs[1..];
      BatchHashesSingle(recs[0]);
      AllKnownAddsNothing(rows, recs[1..]);
    }
  }

  /** Idempotence: after a run that completes, a second run over the same
      files appends nothing and completes. */
  lemma ReindexAddsNothing(rows: seq<PhotoRow>, walk: seq<FileEntry>, digest: Digest)
    requires Run(rows, walk, digest).outcome == Completed
    ensures Run(Run(rows, walk, digest).rows, walk, digest) == RunResult(Completed, Run(rows, walk, digest).rows)
  {
    var recs := Candidates(walk, digest);
    CompletedRunStoresAll(rows, [], recs);
    AllKnownAddsNothing(Run(rows, walk, digest).rows, recs);
  }

  /** If no two candidates share a hash, the run completes. */
  lemma {:induction false} DistinctCandidatesComplete(rows: seq<PhotoRow>, batch: seq<PendingRecord>, recs: seq<PendingRecord>)
    requires FreshBatch(rows, batch) && DistinctHashes(batch + recs) && |batch| < BatchSize
    ensures Scan(rows, batch, recs).outcome == Completed
    decreases |recs|
  {
    var all := batch + recs;
    if recs == [] {
      assert all == batch;
    } else {
      var r, rest := recs[0], recs[1..];
      assert all == batch + [r] + rest;
      if r.md5 in RowHashes(rows) {
        assert DistinctHashes(batch + rest) by {
          var a := batch + rest;
          forall i, j | 0 <= i < j < |a| ensures a[i].md5 != a[j].md5 {
            var i' := if i < |batch| then i else i + 1;
            var j' := if j < |batch| then j else j + 1;
            assert a[i] == all[i'] && a[j] == all[j'];
          }
        }
        DistinctCandidatesComplete(rows, batch, rest);
      } else {
        var pending := batch + [r];
        assert pending + rest == all;
        if |pending| >= BatchSize {
          assert Insertable(rows, pending) by {
            forall i, j | 0 <= i < j < |pending| ensures pending[i].md5 != pending[j].md5 {
              assert pending[i] == all[i] && pending[j] == all[j];
            }
          }
          assert DistinctHashes([] + rest) by {
            forall i, j | 0 <= i < j < |rest| ensures rest[i].md5 != rest[j].md5 {
              assert rest[i] == all[|pending| + i] && rest[j] == all[|pending| + j];
            }
          }
          DistinctCandidatesComplete(Commit(rows, pending), [], rest);
        } else {
          DistinctCandidatesComplete(rows, pending, rest);
        }
      }
    }
  }

  /** Two records with one hash, on an empty table: both join the batch and
      the final bulk insert fails. */
  lemma PairAborts(ra: PendingRecord, rb: PendingRecord)
    requires ra.md5 == rb.md5
    ensures Scan([], [], [ra, rb]) == RunResult(Aborted([ra, rb]), [])
  {
    assert RowHashes([]) == {};
    assert [ra, rb] == [ra] + [rb];
    ScanStep([], [], ra, [rb]);
    assert [] + [ra] == [ra];
    ScanStep([], [ra], rb, []);
    assert [ra] + [rb] == [ra, rb];
    RepeatedHashNotInsertable([], [ra, rb], 0, 1);
  }

  /** Two copies of a photo in one run on an empty table: both pass the
      check, their bulk insert fails, and nothing is stored. */
  lemma TwoCopiesAbort(a: FileEntry, b: FileEntry, digest: Digest)
    requires IsRaw(a.name) && IsRaw(b.name) && a.content == b.content
    ensures Run([], [a, b], digest) == RunResult(Aborted([RecordOf(a, digest), RecordOf(b, digest)]), [])
  {
    CandidatesPair(a, b, digest);
    PairAborts(RecordOf(a, digest), RecordOf(b, digest));
  }

  lemma CandidatesPair(a: FileEntry, b: FileEntry, digest: Digest)
    requires IsRaw(a.name) && IsRaw(b.name)
    ensures Candidates([a, b], digest) == [RecordOf(a, digest), RecordOf(b, digest)]
  {
    CandidatesStep([a, b], 0, digest);
    CandidatesStep([a, b], 1, digest);
    assert [a, b][2..] == [];
  }
}
