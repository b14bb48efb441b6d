# RAW photo indexer and importer, modelled in Dafny

The system keeps an SQLite table, `photo_index`, with one row per RAW photo:
path, parent folder name, file name, MD5 hash and creation time. The hash
column is UNIQUE. Three operations use the table:

- `index` walks a directory tree and hashes every file with a RAW extension
  (`.cr2 .nef .arw .dng .orf .raf`, name compared case-insensitively). Files
  whose hash the table does not hold go into a pending batch. A batch of 100
  is bulk-inserted and committed, and the rest is inserted at the end. In
  verbose mode the records are printed and the table is not touched.
- `import` walks a memory card and reports each RAW file whose hash is not
  in the table.
- The import window's helpers do three more things. They list one card
  directory with modification times, optionally filtered by extension. They
  group those files by calendar date in time order. And they tell whether
  each RAW path of a list is already indexed, comparing either by base name
  or by MD5.

The model has nine modules:

| module | file | what it holds |
|---|---|---|
| `Paths` | `paths.dfy` | ASCII lower-casing, `endswith`, and POSIX `join`/`basename`/`dirname` |
| `Extensions` | `extensions.dfy` | the RAW extension set and the two filters built on it |
| `Md5` | `md5.dfy` | the chunked read-and-hash loop, over an open file and a hash object |
| `Store` | `store.dfy` | the table (a class over a sequence of rows) and its bulk insert |
| `IndexRun` | `index_run.dfy` | `Run`/`Scan`, a function giving what one indexing run does to the table, and its properties |
| `Indexer` | `indexer.dfy` | the loops of `index_photos`, proved against `Run`, and of `import_photos`, proved against `NewFiles` |
| `Lookup` | `lookup.dfy` | `is_image_unique_by_name`, `is_image_unique_by_md5` and `find_existing_images` |
| `DateGroups` | `date_groups.dfy` | `group_by_date`: a stable sort by time, then one group per run of equal dates |
| `Metadata` | `metadata.dfy` | `import_photo_metadata` |

Modelling choices:

- **MD5** is a parameter `digest: seq<Byte> -> string`. The model proves
  that the digest is taken over exactly the file's bytes. It does not
  model MD5 itself.
- **Inputs from the OS** are values:
  - the directory walk is a sequence of `FileEntry(root, name, content, ctime)` in walk order;
  - a listing is an `Option` of `DirEntry(name, isFile, mtime)`, where `None` is a missing directory;
  - a set of existing files is a map from path to bytes.
- **Timestamps** used by the grouping are naive local datetimes:
  `DateTime(date, clock)`, a day number and microseconds into the day. They
  are ordered as day first, then clock.
- **Python's `sorted`** is stable, and any two stable sorts agree. So an
  insertion sort stands for it.
- **A failed bulk insert.** `executemany` inside one transaction, followed
  by `commit`, either inserts the whole batch or raises on the first
  UNIQUE violation. The model's `Run` then ends with
  `Aborted(failed batch)`: batches committed earlier stay, and the failing
  one is not committed. The code has no per-record retry after a failed
  bulk insert and no rule for duplicates within a batch.
  - A run fails this way when two copies of a photo whose hash is not
    stored join the same pending batch (`IndexRun.DuplicateInBatchAborts`;
    example: `IndexRun.TwoCopiesAbort`).
  - If the hash is already stored, both copies are skipped. If the first
    copy fills a batch of 100, that batch is committed and the second copy
    is skipped.

## Model

| member | source | states |
|---|---|---|
| Paths.LowerIdempotent | src/main.py:47 | lower-casing a name twice is lower-casing it once |
| Paths.LastSepIsLast | src/main.py:49 | the split point of `basename`/`dirname` is a separator with none after it |
| Paths.RStripSepsRemovesSeps | src/main.py:49 | `dirname` strips only trailing separators and keeps a prefix that does not end in one |
| Paths.BasenameJoin | src/utils.py:33 | the base name of `join(root, name)` is `name` when `name` has no separator |
| Paths.DirnameJoin | src/main.py:48-49 | the directory of `join(root, name)` is `root` without trailing separators |
| Paths.FolderOfSeparatorRoot | src/main.py:48-49 | under a root of separators only (empty or `/`), the folder of a joined path is empty |
| Paths.Join | src/main.py:48 | `os.path.join`: an absolute second part replaces the first, otherwise one separator is added when missing; its meaning is fixed by BasenameJoin and DirnameJoin |
| Paths.Basename | src/utils.py:33 | `os.path.basename`: the text after the last separator (LastSepIsLast, BasenameJoin) |
| Paths.Dirname | src/main.py:49 | `os.path.dirname`: the text up to the last separator without trailing separators, unless it is separators only (DirnameJoin, FolderOfSeparatorRoot) |
| Extensions.IsRaw | src/main.py:47 | the candidate test: the lower-cased name ends with one of the RAW extensions (IsRawIff spells it out) |
| Extensions.Accepts | src/utils.py:70-72 | the listing filter: an empty extension set or a lower-cased name ending with one of the extensions (AcceptsEverythingWhenEmpty, AcceptsRaw) |
| Extensions.IsRawIff | src/main.py:22 | a name is a candidate iff its lower-cased form ends with one of the six RAW extensions |
| Extensions.IsRawCaseInsensitive | src/main.py:47 | the candidate test does not depend on the case of the name |
| Extensions.UpperExtensionNeverMatches | src/utils.py:70-72 | an extension holding an upper-case letter matches no name, because only the name is lower-cased |
| Extensions.AcceptsEverythingWhenEmpty | src/utils.py:70 | an empty extension set lets every name through |
| Extensions.AcceptsRaw | src/utils.py:7-14 | with the RAW set, the listing filter is the same as the candidate test |
| Extensions.UpperCaseRawExample | src/main.py:47 | `A.CR2` is a candidate |
| Extensions.NonRawExamples | src/main.py:47 | `A.JPG` and `cr2` are not candidates |
| Md5.Chunks | src/main.py:11 | the chunks `read(4096)` returns until the empty read (ChunksCoverContent states their sizes and that they cover the file) |
| Md5.ChunksCoverContent | src/main.py:11 | the chunks read concatenate to the file; each holds 1 to 4096 bytes, all but the last are full, and there are ceil(size/4096) of them |
| Md5.OpenFile.Read | src/main.py:11 | `read(n)` returns the next `min(n, remaining)` bytes and advances the position by that much |
| Md5.Hasher.Update | src/main.py:12 | `update` appends the chunk to the bytes hashed so far |
| Md5.ComputeMd5 | src/main.py:7-13 | the hex digest is the digest of exactly the file's bytes, and the chunks read are the 4096-byte chunking |
| Store.CommitHashes | src/main.py:64-68 | a committed batch adds exactly its own hashes to the table's hashes |
| Store.CommitKeepsTable | src/main.py:36 | a successful bulk insert keeps hashes unique and ids sequential |
| Store.PhotoIndex.constructor | src/main.py:30-39 | a new table is empty and valid |
| Store.PhotoIndex.InsertMany | src/main.py:64-68 | a bulk insert succeeds iff no hash of the batch is stored or repeated; on success the rows are appended with the next ids, on failure the table is unchanged |
| IndexRun.RecordOf | src/main.py:48-52 | the tuple built for a RAW file: joined path, folder, file name, hash of the bytes, creation time (RecordFields fixes each field's meaning) |
| IndexRun.Candidates | src/main.py:45-47 | the records of the RAW files of the walk, in walk order (RawFileIsCandidate, CandidateIsRawFile) |
| IndexRun.Scan | src/main.py:57-77 | the rest of a run from a table, a pending batch and the remaining candidates: hash check, append, insert at 100, final insert, or failure (ScanStep unfolds one step; the lemmas below state its properties) |
| IndexRun.Run | src/main.py:43-77 | one indexing run: `Scan` from an empty batch over the candidates; Indexer.IndexPhotos is proved equal to it |
| IndexRun.Fresh | src/main.py:57-60 | the candidates whose hash is neither stored nor already taken, first occurrence only (FreshFacts, CompletedRunCommitsFresh) |
| IndexRun.RecordFields | src/main.py:48-52 | the stored file name is the base name of the stored path, the folder is the last component of the walk directory, and the hash depends on the bytes only, for any walk directory |
| IndexRun.RawFileIsCandidate | src/main.py:45-47 | every RAW file of the walk yields a candidate record |
| IndexRun.CandidateIsRawFile | src/main.py:47-52 | every candidate record comes from a RAW file of the walk |
| IndexRun.ScanStep | src/main.py:57-69 | one candidate: it joins the batch iff its hash is not stored, and a batch of 100 is inserted, then either cleared or the run fails |
| IndexRun.FreshFacts | src/main.py:57-60 | the records a run keeps have distinct hashes that were not known, and come from the candidates |
| IndexRun.ScanKeepsTable | src/main.py:36 | a run keeps the table valid, only appends rows, and appends only records of the batch or the candidates |
| IndexRun.DuplicateInBatchAborts | src/main.py:62-77 | once two pending records share a hash, the run fails |
| IndexRun.AbortedBatchHasDuplicate | src/main.py:62-77 | a failed insert holds 1 to 100 records of the batch and candidates; two of them share a hash, and none of its hashes is in the table |
| IndexRun.CompletedRunStoresAll | src/main.py:57-77 | after a completed run, every hash stored before, pending, or of a candidate is in the table |
| IndexRun.CompletedRunCommitsFresh | src/main.py:43-77 | a completed run appends the candidates whose hash was new, first occurrence only, in walk order, with consecutive ids |
| IndexRun.AllKnownAddsNothing | src/main.py:57-60 | a run whose candidate hashes are all stored completes and appends nothing |
| IndexRun.ReindexAddsNothing | src/main.py:20-80 | indexing the same files again after a completed run completes and appends nothing |
| IndexRun.DistinctCandidatesComplete | src/main.py:62-77 | if no two candidates share a hash, the run completes |
| IndexRun.PairAborts | src/main.py:71-77 | two records with one hash on an empty table make the final insert fail with both pending |
| IndexRun.TwoCopiesAbort | src/main.py:45-77 | a walk of exactly two RAW copies of one photo, on an empty table: the run fails with both records and stores nothing |
| Indexer.IndexPhotos | src/main.py:20-80 | in verbose mode it prints every candidate record and leaves the table alone; otherwise the outcome and table are what `Run` gives for the old table and the walk |
| Indexer.VisitFile | src/main.py:46-69 | one file of the walk: a RAW file's record is printed in verbose mode and otherwise offered to the batch, as `Scan` steps |
| Indexer.AddCandidate | src/main.py:57-69 | the hash check and the size-100 flush agree with one step of `Scan`, including a failing insert |
| Indexer.FlushRemaining | src/main.py:71-77 | the leftover batch is inserted as `Scan` does at the end of the candidates |
| Indexer.DeriveRecord | src/main.py:48-52 | the record built for a file is its path, folder, name, hash and creation time |
| Indexer.NewFiles | src/main.py:91-100 | the paths `import_photos` reports: candidates whose hash is not stored, in walk order (AbsentPathsExactly, EmptyTableAllNew, AllKnownNoneNew) |
| Indexer.NewFilesStep | src/main.py:93-100 | one file of the card is reported iff it is RAW and its hash is not stored |
| Indexer.ImportPhotos | src/main.py:83-102 | the reported paths are those of the RAW files whose hash is not stored, in walk order, and the table is not changed |
| Indexer.CheckFile | src/main.py:93-100 | per file: reported iff RAW and the hash is not in the table |
| Indexer.AbsentPathsExactly | src/main.py:97-100 | a path is reported iff some candidate has that path and an unstored hash |
| Indexer.EmptyTableAllNew | src/main.py:97-100 | against an empty table every candidate's path is reported, in order |
| Indexer.AllKnownNoneNew | src/main.py:97-100 | against a table holding every candidate hash, nothing is reported |
| Indexer.ImportAfterIndexReportsNothing | src/main.py:83-102 | importing the files of a completed indexing run reports nothing |
| Indexer.IndexTwice | src/main.py:20-80 | running `index_photos` twice: if the first completes, the second completes and appends nothing |
| Lookup.IsImageUniqueByName | src/utils.py:32-40 | no stored row has the path's base name as its file name (SameNameDifferentContent, RenamedCopy) |
| Lookup.IsImageUniqueByMd5 | src/utils.py:43-51 | a missing file fails; otherwise whether no stored row has the file's hash (IndexedFileIsKnown) |
| Lookup.RawOnly | src/utils.py:91-95 | the kept paths are RAW paths of the list, and every RAW path of the list is kept |
| Lookup.ClassifyByName | src/utils.py:32-40 | each path is paired with whether no stored row has its base name, in order |
| Lookup.ClassifyByMd5 | src/utils.py:43-51 | succeeds iff every path exists, pairing each with whether its hash is unstored; otherwise fails at the first missing path |
| Lookup.FindExistingImages | src/utils.py:80-97 | an unknown method fails before any file is read; otherwise the RAW paths, in order, are paired with the chosen comparison's answer |
| Lookup.SameNameDifferentContent | src/utils.py:32-51 | a different photo with a stored name is known by name but new by hash |
| Lookup.RenamedCopy | src/utils.py:32-51 | a renamed copy of a stored photo is new by name but known by hash |
| Lookup.EmptyTableAllUnique | src/utils.py:80-97 | against an empty table every RAW path is reported as unique |
| Lookup.IndexedFileIsKnown | src/utils.py:43-51 | after a completed indexing run, each indexed RAW file read back with the same bytes is known by hash |
| DateGroups.SortByTime | src/utils.py:56 | `sorted` by time; SortFacts proves it sorted and a permutation, SortIsStable proves it stable |
| DateGroups.Runs | src/utils.py:60-61 | `groupby` by date: one group per maximal run of equal dates (RunsConcat, RunsDates, RunsAscending, RunPaths) |
| DateGroups.InsertFacts | src/utils.py:56 | insertion keeps the sequence sorted by time and adds the element once |
| DateGroups.SortFacts | src/utils.py:56 | the sort's result is sorted by time and a permutation of its input |
| DateGroups.SortIsStable | src/utils.py:56 | entries with equal timestamps keep their input order |
| DateGroups.OnDayOfSorted | src/utils.py:56-61 | a date's entries in the sorted sequence are that date's entries of the input, stably sorted |
| DateGroups.SortKeepsPaths | src/utils.py:56 | sorting keeps every path as often as it occurs |
| DateGroups.TakeDayIsRun | src/utils.py:60 | the counted leading entries share the date, and the next entry does not |
| DateGroups.RunsConcat | src/utils.py:60-61 | the groups together list every path of the sorted sequence, in order |
| DateGroups.RunsDates | src/utils.py:60 | the group dates are exactly the dates of the entries |
| DateGroups.RunsAscending | src/utils.py:60 | on sorted input the group dates strictly increase, so no date is a key twice |
| DateGroups.RunPaths | src/utils.py:60-61 | on sorted input each group is non-empty and holds exactly its date's paths |
| DateGroups.TakeRun | src/utils.py:60-61 | the inner loop collects one run of equal dates and stops at the next date |
| DateGroups.GroupByDate | src/utils.py:54-62 | the groups are the runs of equal date of the time-sorted input |
| DateGroups.GroupByDateCorrect | src/utils.py:54-62 | dates strictly ascending, keys exactly the input dates, each group that date's paths stably sorted by time, and every input path kept as often as it occurs |
| DateGroups.SortKeepsDays | src/utils.py:56 | sorting keeps the set of dates |
| DateGroups.TwoDaysExample | src/utils.py:54-62 | three photos over two days, out of order, give two groups in date and time order |
| Metadata.ImportPhotoMetadata | src/utils.py:65-77 | a missing directory gives nothing; otherwise the regular files whose name passes the filter, each with its path and modification time, in listing order |
| Metadata.Selected | src/utils.py:68-74 | the pairs collected from a listing, in listing order (SelectedExactly, SelectedNamesAccepted, SelectedPathsDistinct) |
| Metadata.SelectedExactly | src/utils.py:69-74 | a pair is collected iff it comes from an entry passing both the filter and the file test |
| Metadata.SelectedNamesAccepted | src/utils.py:69-72 | every collected path is inside the directory, and its base name passes the filter |
| Metadata.SelectedPathsDistinct | src/utils.py:68-74 | no path is collected twice, so the sequence is the dictionary's items |
| Metadata.NoFilterKeepsEveryFile | src/utils.py:70-73 | with no extension set an entry is collected iff it is a regular file |

## Left out

- The graphical front ends (`src/app.py`, `src/app_import_window.py`) are not part of this model.
- The command line (`argparse`, src/main.py:104-126) is left out: it only dispatches to the two commands.
- SQLite is modelled as an in-memory sequence of rows. Connections, SQL text, `close`, and the index on `md5_hash` (src/main.py:40) are left out; the index only speeds up lookups.
- `os.walk`, `os.listdir`, `os.path.isfile`, `getctime`, `getmtime` and `fromtimestamp` are inputs, not I/O. `os.path.abspath` is the identity, on the assumption that the walk directory is absolute and normalized. The model does not do the normalization `abspath` performs (removing `.`, `..` and repeated separators): for a directory `/photos/.` the code stores `/photos/x.cr2` with folder `photos`, while `RecordOf` gives `/photos/./x.cr2` with folder `.`.
- `get_file_creation_time` (src/main.py:15-18, src/utils.py:17-20) is not modelled. Its value is part of each input entry: an ISO string for indexing and a `DateTime` for the listing.
- Printing is left out. The verbose records and the reported new paths are return values instead.
- MD5 itself is a parameter, as above.
- Files that disappear or cannot be read during `index_photos` or `import_photos` are not modelled: each walk entry carries its bytes. In the hash comparison of `find_existing_images`, a missing file is the `FileNotFound` failure.
- Lower-casing covers ASCII letters only. Python's `str.lower` also folds other Unicode letters.
- `src/utils.py:23-29` is a second copy of `compute_md5`, identical to src/main.py:7-13, and is modelled once.
- The `find_existing_images` default `method="filename"` is not modelled as a default: the caller always passes the comparison.
- `import_photo_metadata` guards the whole loop with `except FileNotFoundError` (src/utils.py:75-76). The model covers only the case where the directory is missing before the listing. A file vanishing between `listdir` and `getmtime` is left out.
- Metadata.ImportPhotoMetadata: requires the listing's names to be distinct and free of '/', as `os.listdir` guarantees. Because of that, adding a key to the dictionary is appending to the sequence.
- In verbose mode `index_photos` also runs the size-100 check on its batch, which stays empty there. The model skips that check in verbose mode, which has the same effect.
