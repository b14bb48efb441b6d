/** `import_photo_metadata`: lists a card directory and collects, for every
    regular file whose name has an accepted extension, its path and its
    modification time, in listing order. */
module Metadata {
  import opened Paths
  import opened Extensions
  import opened DateGroups

  /** One name returned by `os.listdir`, with what `os.path.isfile` and
      `os.path.getmtime` (as a local datetime) say about its path. */
  datatype DirEntry = DirEntry(name: string, isFile: bool, mtime: DateTime)

  datatype Option<T> = None | Some(value: T)

  /** What `os.listdir` can return: no name twice, and no name holds a
      separator. */
  predicate ListingOk(entries: seq<DirEntry>) {
    (forall i, j :: 0 <= i < j < |entries| ==> entries[i].name != entries[j].name) &&
    forall i :: 0 <= i < |entries| ==> Sep !in entries[i].name
  }

  /** The name has an accepted extension and the path is a regular file. */
  predicate Wanted(fileTypes: set<string>, e: DirEntry) {
    Accepts(fileTypes, e.name) && e.isFile
  }

  function Entry(dir: string, e: DirEntry): TimedPath {
    TimedPath(Join(dir, e.name), e.mtime)
  }

  /** The pairs collected from a listing, in listing order. */
  function Selected(dir: string, entries: seq<DirEntry>, fileTypes: set<string>): seq<TimedPath> {
    if entries == [] then []
    else
      var head := if Wanted(fileTypes, entries[0]) then [Entry(dir, entries[0])] else [];
      head + Selected(dir, entries[1..], fileTypes)
  }

  lemma {:induction false} SelectedAppend(dir: string, a: seq<DirEntry>, b: seq<DirEntry>, fileTypes: set<string>)
    ensures Selected(dir, a + b, fileTypes) == Selected(dir, a, fileTypes) + Selected(dir, b, fileTypes)
  {
    if a == [] {
      assert a + b == b;
    } else {
      assert (a + b)[1..] == a[1..] + b;
      SelectedAppend(dir, a[1..], b, fileTypes);
    }
  }

  /** `import_photo_metadata`. A missing directory (`listing` is `None`) gives
      an empty result; otherwise each wanted entry is added in listing order.
      The names of a listing are distinct, so adding a key to the dictionary
      is appending to the sequence. */
  method ImportPhotoMetadata(dir: string, listing: Option<seq<DirEntry>>, fileTypes: set<string>)
    returns (contents: seq<TimedPath>)
    requires listing.Some? ==> ListingOk(listing.value)
    ensures listing.None? ==> contents == []
    ensures listing.Some? ==> contents == Selected(dir, listing.value, fileTypes)
  {
    contents := [];
    if listing.None? {
      return;
    }
    var entries := listing.value;
    var i := 0;
    while i < |entries|
      invariant 0 <= i <= |entries|
      invariant contents == Selected(dir, entries[..i], fileTypes)
    {
      var e := entries[i];
      var filepath := Join(dir, e.name);
      assert entries[..i + 1] == entries[..i] + [e];
      SelectedAppend(dir, entries[..i], [e], fileTypes);
      assert Selected(dir, [e], fileTypes) == (if Wanted(fileTypes, e) then [Entry(dir, e)] else []) + Selected(dir, [], fileTypes);
      if |fileTypes| == 0 || MatchesAny(e.name, fileTypes) {
        if e.isFile {
          contents := contents + [TimedPath(filepath, e.mtime)];
        }
      }
      i := i + 1;
    }
    assert entries[..i] == entries;
  }

  /** A pair is collected exactly when it comes from a wanted entry. */
  lemma {:induction false} SelectedExactly(dir: string, entries: seq<DirEntry>, fileTypes: set<string>, x: TimedPath)
    ensures x in Selected(dir, entries, fileTypes) <==>
      exists i :: 0 <= i < |entries| && Wanted(fileTypes, entries[i]) && x == Entry(dir, entries[i])
  {
    if entries != [] {
      SelectedExactly(dir, entries[1..], fileTypes, x);
      if x in Selected(dir, entries[1..], fileTypes) {
        var i :| 0 <= i < |entries[1..]| && Wanted(fileTypes, entries[1..][i]) && x == Entry(dir, entries[1..][i]);
        assert entries[i + 1] == entries[1..][i];
      }
      if exists i :: 0 <= i < |entries| && Wanted(fileTypes, entries[i]) && x == Entry(dir, entries[i]) {
        var i :| 0 <= i < |entries| && Wanted(fileTypes, entries[i]) && x == Entry(dir, entries[i]);
        if i > 0 { assert entries[1..][i - 1] == entries[i]; }
      }
    }
  }

  /** Every collected path is in the card directory and its base name has an
      accepted extension. */
  lemma {:induction false} SelectedNamesAccepted(dir: string, entries: seq<DirEntry>, fileTypes: set<string>)
    requires ListingOk(entries)
    ensures forall x :: x in Selected(dir, entries, fileTypes) ==>
      Accepts(fileTypes, Basename(x.path)) && x.path == Join(dir, Basename(x.path))
  {
    forall x | x in Selected(dir, entries, fileTypes)
      ensures Accepts(fileTypes, Basename(x.path)) && x.path == Join(dir, Basename(x.path))
    {
      SelectedExactly(dir, entries, fileTypes, x);
      var i :| 0 <= i < |entries| && Wanted(fileTypes, entries[i]) && x == Entry(dir, entries[i]);
      BasenameJoin(dir, entries[i].name);
    }
  }

  predicate DistinctPaths(s: seq<TimedPath>) {
    forall k, k' :: 0 <= k < k' < |s| ==> s[k].path != s[k'].path
  }

  /** No path is collected twice, so the sequence is the dictionary's item
      list. */
  lemma {:induction false} SelectedPathsDistinct(dir: string, entries: seq<DirEntry>, fileTypes: set<string>)
    requires ListingOk(entries)
    ensures DistinctPaths(Selected(dir, entries, fileTypes))
  {
    if entries != [] {
      var e := entries[0];
      var tail := Selected(dir, entries[1..], fileTypes);
      assert ListingOk(entries[1..]) by {
        forall i, j | 0 <= i < j < |entries[1..]| ensures entries[1..][i].name != entries[1..][j].name {
          assert entries[1..][i] == entries[i + 1] && entries[1..][j] == entries[j + 1];
        }
        forall i | 0 <= i < |entries[1..]| ensures Sep !in entries[1..][i].name {
          assert entries[1..][i] == entries[i + 1];
        }
      }
      SelectedPathsDistinct(dir, entries[1..], fileTypes);
      if Wanted(fileTypes, e) {
        forall k | 0 <= k < |tail| ensures tail[k].path != Join(dir, e.name) {
          assert tail[k] in tail;
          SelectedExactly(dir, entries[1..], fileTypes, tail[k]);
          var i :| 0 <= i < |entries[1..]| && Wanted(fileTypes, entries[1..][i]) && tail[k] == Entry(dir, entries[1..][i]);
          assert entries[1..][i] == entries[i + 1];
          BasenameJoin(dir, e.name);
          BasenameJoin(dir, entries[i + 1].name);
        }
        var r := [Entry(dir, e)] + tail;
        assert Selected(dir, entries, fileTypes) == r;
        forall k, k' | 0 <= k < k' < |r| ensures r[k].path != r[k'].path {
          if k > 0 {
            assert r[k] == tail[k - 1] && r[k'] == tail[k' - 1];
          } else {
            assert r[0].path == Join(dir, e.name);
            assert r[k'] == tail[k' - 1];
          }
        }
      } else {
        assert Selected(dir, entries, fileTypes) == tail;
      }
    }
  }

  /** With no extension filter an entry is collected exactly when it is a
      regular file. */
  lemma NoFilterKeepsEveryFile(dir: string, entries: seq<DirEntry>, i: nat)
    requires ListingOk(entries) && i < |entries|
    ensures Entry(dir, entries[i]) in Selected(dir, entries, {}) <==> entries[i].isFile
  {
    SelectedExactly(dir, entries, {}, Entry(dir, entries[i]));
    if Entry(dir, entries[i]) in Selected(dir, entries, {}) {
      var j :| 0 <= j < |entries| && Wanted({}, entries[j]) && Entry(dir, entries[i]) == Entry(dir, entries[j]);
      BasenameJoin(dir, entries[i].name);
      BasenameJoin(dir, entries[j].name);
      assert entries[i].name == entries[j].name;
      assert i == j;
    }
  }
}
