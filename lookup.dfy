/** The lookups the import window uses: whether a file is already indexed,
    compared by base name or by content hash, and `find_existing_images`,
    which classifies the RAW paths of a list by the chosen comparison. */
module Lookup {
  import opened Paths
  import opened Extensions
  import opened Md5
  import opened Store
  import opened IndexRun

  datatype LookupError = InvalidMethod(name: string) | FileNotFound(path: string)

  datatype Result<T> = Success(value: T) | Failure(error: LookupError)

  /** The files that exist, with their bytes. */
  type FileSystem = map<string, seq<Byte>>

  const ByFilename: string := "filename"
  const ByMd5: string := "md5"

  /** `is_image_unique_by_name`: no stored row has the path's base name. */
  predicate IsImageUniqueByName(path: string, rows: seq<PhotoRow>) {
    forall i | 0 <= i < |rows| :: rows[i].record.filename != Basename(path)
  }

  /** `is_image_unique_by_md5`: no stored row has the file's hash; hashing a
      file that does not exist raises. */
  function IsImageUniqueByMd5(path: string, fs: FileSystem, rows: seq<PhotoRow>, digest: Digest): Result<bool> {
    if path !in fs then Failure(FileNotFound(path))
    else Success(digest(fs[path]) !in RowHashes(rows))
  }

  /** The RAW paths of the list, in order. */
  function RawOnly(paths: seq<string>): (r: seq<string>)
    ensures |r| <= |paths|
    ensures forall k :: 0 <= k < |r| ==> IsRaw(r[k]) && r[k] in paths
    ensures forall p :: p in paths && IsRaw(p) ==> p in r
  {
    if paths == [] then []
    else (if IsRaw(paths[0]) then [paths[0]] else []) + RawOnly(paths[1..])
  }

  function ClassifyByName(paths: seq<string>, rows: seq<PhotoRow>): (r: seq<(string, bool)>)
    ensures |r| == |paths|
    ensures forall k :: 0 <= k < |r| ==> r[k] == (paths[k], IsImageUniqueByName(paths[k], rows))
  {
    if paths == [] then []
    else [(paths[0], IsImageUniqueByName(paths[0], rows))] + ClassifyByName(paths[1..], rows)
  }

  /** Hashes the paths in order; the first one that does not exist raises. */
  function ClassifyByMd5(paths: seq<string>, fs: FileSystem, rows: seq<PhotoRow>, digest: Digest): (r: Result<seq<(string, bool)>>)
    ensures r.Success? <==> forall k :: 0 <= k < |paths| ==> paths[k] in fs
    ensures r.Success? ==> |r.value| == |paths| && forall k :: 0 <= k < |paths| ==>
      r.value[k].0 == paths[k] && IsImageUniqueByMd5(paths[k], fs, rows, digest) == Success(r.value[k].1)
    ensures r.Failure? ==> exists k :: (0 <= k < |paths| && r.error == FileNotFound(paths[k]) &&
      paths[k] !in fs && forall j :: 0 <= j < k ==> paths[j] in fs)
  {
    if paths == [] then Success([])
    else if paths[0] !in fs then Failure(FileNotFound(paths[0]))
    else match ClassifyByMd5(paths[1..], fs, rows, digest)
      case Failure(e) =>
        assert forall k :: 0 <= k < |paths[1..]| ==> paths[1..][k] == paths[k + 1];
        Failure(e)
      case Success(tail) =>
        assert forall k :: 0 <= k < |paths[1..]| ==> paths[1..][k] == paths[k + 1];
        Success([(paths[0], digest(fs[paths[0]]) !in RowHashes(rows))] + tail)
  }

  /** `find_existing_images`: an unknown comparison is rejected before any file
      is looked at; otherwise every RAW path of the list, in order, is paired
      with its uniqueness flag, and other paths are dropped. */
  function FindExistingImages(paths: seq<string>, fs: FileSystem, rows: seq<PhotoRow>, comparison: string, digest: Digest)
    : (r: Result<seq<(string, bool)>>)
    ensures comparison != ByFilename && comparison != ByMd5 ==> r == Failure(InvalidMethod(comparison))
    ensures comparison == ByFilename ==> r.Success?
    ensures comparison == ByMd5 ==> (r.Success? <==> forall p :: p in RawOnly(paths) ==> p in fs)
    ensures comparison == ByMd5 && r.Failure? ==>
      r.error.FileNotFound? && r.error.path in RawOnly(paths) && r.error.path !in fs
    ensures r.Success? ==> |r.value| == |RawOnly(paths)| && forall k :: 0 <= k < |r.value| ==>
      r.value[k].0 == RawOnly(paths)[k] &&
      (comparison == ByFilename ==> r.value[k].1 == IsImageUniqueByName(r.value[k].0, rows)) &&
      (comparison == ByMd5 ==> IsImageUniqueByMd5(r.value[k].0, fs, rows, digest) == Success(r.value[k].1))
  {
    if comparison == ByFilename then Success(ClassifyByName(RawOnly(paths), rows))
    else if comparison == ByMd5 then ClassifyByMd5(RawOnly(paths), fs, rows, digest)
    else Failure(InvalidMethod(comparison))
  }

  /** Two different photos with the same file name: the name comparison
      reports the second as known, the hash comparison as new. */
  lemma SameNameDifferentContent(path: string, fs: FileSystem, row: PhotoRow, digest: Digest)
    requires path in fs
    requires row.record.filename == Basename(path) && row.record.md5 != digest(fs[path])
    ensures !IsImageUniqueByName(path, [row])
    ensures IsImageUniqueByMd5(path, fs, [row], digest) == Success(true)
  {
    assert forall i | 0 <= i < |[row]| :: [row][i] == row;
    assert !IsImageUniqueByName(path, [row]) by {
      assert [row][0].record.filename == Basename(path);
    }
  }

  /** A renamed copy of an indexed photo: the name comparison reports it as
      new, the hash comparison as known. */
  lemma RenamedCopy(path: string, fs: FileSystem, row: PhotoRow, digest: Digest)
    requires path in fs
    requires row.record.filename != Basename(path) && row.record.md5 == digest(fs[path])
    ensures IsImageUniqueByName(path, [row])
    ensures IsImageUniqueByMd5(path, fs, [row], digest) == Success(false)
  {
    assert [row][0].record.md5 == row.record.md5;
  }

  /** Against an empty table every RAW path is reported as unique, by either
      comparison (for the hash comparison, when the files exist). */
  lemma EmptyTableAllUnique(paths: seq<string>, fs: FileSystem, comparison: string, digest: Digest)
    requires comparison == ByFilename || (comparison == ByMd5 && forall p :: p in RawOnly(paths) ==> p in fs)
    ensures FindExistingImages(paths, fs, [], comparison, digest).Success?
    ensures forall k :: 0 <= k < |FindExistingImages(paths, fs, [], comparison, digest).value| ==>
      FindExistingImages(paths, fs, [], comparison, digest).value[k].1
  {
    assert RowHashes([]) == {};
  }

  /** After an indexing run completes, each RAW file of the walk, read back
      with the same bytes, is reported as known by the hash comparison. */
  lemma IndexedFileIsKnown(rows: seq<PhotoRow>, walk: seq<FileEntry>, digest: Digest, i: nat, fs: FileSystem)
    requires Run(rows, walk, digest).outcome == Completed
    requires i < |walk| && IsRaw(walk[i].name)
    requires FilePath(walk[i]) in fs && fs[FilePath(walk[i])] == walk[i].content
    ensures IsImageUniqueByMd5(FilePath(walk[i]), fs, Run(rows, walk, digest).rows, digest) == Success(false)
  {
    var recs := Candidates(walk, digest);
    CompletedRunStoresAll(rows, [], recs);
    RawFileIsCandidate(walk, digest, i);
    var k :| 0 <= k < |recs| && recs[k] == RecordOf(walk[i], digest);
    assert recs[k].md5 in BatchHashes(recs);
  }
}
