/** The `photo_index` table: rows (id, filepath, folder, filename, md5_hash,
    creation_time) with UNIQUE(md5_hash), held in memory. A bulk insert
    (`executemany` followed by `commit`) either commits every row of the
    batch or, on the first UNIQUE violation, none of them. */
module Store {

  /** A row before insertion: the tuple appended to the pending batch. */
  datatype PendingRecord = PendingRecord(
    filepath: string, folder: string, filename: string, md5: string, creationTime: string)

  /** A stored row; `id` is the INTEGER PRIMARY KEY the table assigns. */
  datatype PhotoRow = PhotoRow(id: nat, record: PendingRecord)

  function RowHashes(rows: seq<PhotoRow>): set<string> {
    set i | 0 <= i < |rows| :: rows[i].record.md5
  }

  function BatchHashes(batch: seq<PendingRecord>): set<string> {
    set i | 0 <= i < |batch| :: batch[i].md5
  }

  /** No two rows share an md5_hash: the table's one global invariant. */
  predicate UniqueHashes(rows: seq<PhotoRow>) {
    forall i, j :: 0 <= i < j < |rows| ==> rows[i].record.md5 != rows[j].record.md5
  }

  /** Rows are never deleted, so the primary key of row i is i + 1. */
  predicate SequentialIds(rows: seq<PhotoRow>) {
    forall i :: 0 <= i < |rows| ==> rows[i].id == i + 1
  }

  predicate TableOk(rows: seq<PhotoRow>) {
    UniqueHashes(rows) && SequentialIds(rows)
  }

  predicate DistinctHashes(batch: seq<PendingRecord>) {
    forall i, j :: 0 <= i < j < |batch| ==> batch[i].md5 != batch[j].md5
  }

  /** The bulk insert succeeds: no hash of the batch is stored already, and
      none is repeated within the batch. */
  predicate Insertable(rows: seq<PhotoRow>, batch: seq<PendingRecord>) {
    DistinctHashes(batch) && forall i :: 0 <= i < |batch| ==> batch[i].md5 !in RowHashes(rows)
  }

  /** The rows a batch becomes when appended after `start` existing rows. */
  function RowsFor(start: nat, batch: seq<PendingRecord>): seq<PhotoRow> {
    seq(|batch|, i requires 0 <= i < |batch| => PhotoRow(start + i + 1, batch[i]))
  }

  /** The table after a committed bulk insert. */
  function Commit(rows: seq<PhotoRow>, batch: seq<PendingRecord>): seq<PhotoRow> {
    rows + RowsFor(|rows|, batch)
  }

  /** A committed batch adds exactly the batch's hashes. */
  lemma CommitHashes(rows: seq<PhotoRow>, batch: seq<PendingRecord>)
    ensures RowHashes(Commit(rows, batch)) == RowHashes(rows) + BatchHashes(batch)
  {
    var c := Commit(rows, batch);
    forall h | h in RowHashes(c) ensures h in RowHashes(rows) + BatchHashes(batch) {
      var i :| 0 <= i < |c| && c[i].record.md5 == h;
      if i >= |rows| { assert batch[i - |rows|].md5 == h; }
    }
    forall h | h in BatchHashes(batch) ensures h in RowHashes(c) {
      var i :| 0 <= i < |batch| && batch[i].md5 == h;
      assert c[|rows| + i].record.md5 == h;
    }
    forall h | h in RowHashes(rows) ensures h in RowHashes(c) {
      var i :| 0 <= i < |rows| && rows[i].record.md5 == h;
      assert c[i].record.md5 == h;
    }
  }

  lemma BatchHashesAppend(a: seq<PendingRecord>, b: seq<PendingRecord>)
    ensures BatchHashes(a + b) == BatchHashes(a) + BatchHashes(b)
  {
    var c := a + b;
    forall h | h in BatchHashes(c) ensures h in BatchHashes(a) + BatchHashes(b) {
      var i :| 0 <= i < |c| && c[i].md5 == h;
      if i >= |a| { assert b[i - |a|].md5 == h; }
    }
    forall h | h in BatchHashes(b) ensures h in BatchHashes(c) {
      var i :| 0 <= i < |b| && b[i].md5 == h;
      assert c[|a| + i].md5 == h;
    }
    forall h | h in BatchHashes(a) ensures h in BatchHashes(c) {
      var i :| 0 <= i < |a| && a[i].md5 == h;
      assert c[i].md5 == h;
    }
  }

  lemma BatchHashesSingle(r: PendingRecord)
    ensures BatchHashes([r]) == {r.md5}
  {
    assert [r][0].md5 == r.md5;
  }

  /** A successful bulk insert keeps the table valid. */
  lemma CommitKeepsTable(rows: seq<PhotoRow>, batch: seq<PendingRecord>)
    requires TableOk(rows) && Insertable(rows, batch)
    ensures TableOk(Commit(rows, batch))
  {
    var c := Commit(rows, batch);
    forall i, j | 0 <= i < j < |c| ensures c[i].record.md5 != c[j].record.md5 {
      if j >= |rows| && i < |rows| {
        assert c[i].record.md5 in RowHashes(rows);
      }
    }
  }

  /** Committing in two steps is committing the concatenation. */
  lemma CommitAppend(rows: seq<PhotoRow>, a: seq<PendingRecord>, b: seq<PendingRecord>)
    ensures Commit(Commit(rows, a), b) == Commit(rows, a + b)
  {
  }

  /** Inserting a batch that repeats one of its own hashes fails. */
  lemma RepeatedHashNotInsertable(rows: seq<PhotoRow>, batch: seq<PendingRecord>, i: nat, j: nat)
    requires i < j < |batch| && batch[i].md5 == batch[j].md5
    ensures !Insertable(rows, batch)
  {
  }

  /** The table, held in memory. */
  class PhotoIndex {
    var rows: seq<PhotoRow>

    ghost predicate Valid()
      reads this
    {
      TableOk(rows)
    }

    /** `CREATE TABLE IF NOT EXISTS photo_index` on a new database. */
    constructor ()
      ensures Valid() && rows == []
    {
      rows := [];
    }

    /** `SELECT 1 FROM photo_index WHERE md5_hash = ?` */
    predicate HasMd5(md5: string)
      reads this
    {
      md5 in RowHashes(rows)
    }

    /** `executemany(INSERT ...)` then `commit()`: the rows are inserted one by
        one inside a transaction; the first UNIQUE violation ends the
        transaction uncommitted, and the table is as before. */
    method InsertMany(batch: seq<PendingRecord>) returns (ok: bool)
      requires Valid()
      modifies this
      ensures Valid()
      ensures ok == Insertable(old(rows), batch)
      ensures rows == if ok then Commit(old(rows), batch) else old(rows)
    {
      var committed := rows;
      var i := 0;
      ok := true;
      while i < |batch| && ok
        invariant 0 <= i <= |batch|
        invariant rows == Commit(committed, batch[..i])
        invariant TableOk(committed)
        invariant ok ==> Insertable(committed, batch[..i])
        invariant !ok ==> !Insertable(committed, batch)
        decreases |batch| - i, if ok then 1 else 0
      {
        CommitHashes(committed, batch[..i]);
        if batch[i].md5 in RowHashes(rows) {
          ok := false;
          if batch[i].md5 !in RowHashes(committed) {
            var k :| 0 <= k < i && batch[k].md5 == batch[i].md5;
            RepeatedHashNotInsertable(committed, batch, k, i);
          }
        } else {
          assert batch[..i + 1] == batch[..i] + [batch[i]];
          rows := rows + [PhotoRow(|rows| + 1, batch[i])];
          assert Insertable(committed, batch[..i + 1]) by {
            forall k | 0 <= k < i ensures batch[k].md5 != batch[i].md5 {
              assert batch[..i][k].md5 in BatchHashes(batch[..i]);
            }
          }
          i := i + 1;
        }
      }
      if ok {
        assert batch[..i] == batch;
        CommitKeepsTable(committed, batch);
      } else {
        rows := committed;
      }
    }
  }
}
