/** String and POSIX path helpers used by the indexer: ASCII lower-casing,
    suffix tests, and `os.path.join`, `os.path.basename`, `os.path.dirname`
    with the separator '/'. */
module Paths {

  const Sep: char := '/'

  /** `str.lower` on one character, restricted to ASCII letters. */
  function LowerChar(c: char): char {
    if 'A' <= c <= 'Z' then (c as int + 32) as char else c
  }

  function Lower(s: string): string {
    seq(|s|, i requires 0 <= i < |s| => LowerChar(s[i]))
  }

  predicate IsUpper(c: char) {
    'A' <= c <= 'Z'
  }

  predicate EndsWith(s: string, suffix: string) {
    |suffix| <= |s| && s[|s| - |suffix|..] == suffix
  }

  /** Lower-casing twice is lower-casing once. */
  lemma LowerIdempotent(s: string)
    ensures Lower(Lower(s)) == Lower(s)
  {
    assert forall i :: 0 <= i < |s| ==> LowerChar(LowerChar(s[i])) == LowerChar(s[i]);
  }

  /** A lower-cased string holds no upper-case ASCII letter. */
  lemma LowerHasNoUpper(s: string)
    ensures forall i :: 0 <= i < |Lower(s)| ==> !IsUpper(Lower(s)[i])
  {
  }

  /** The position of the last separator, or -1 (`str.rfind('/')`). */
  function LastSep(p: string): (i: int)
    ensures -1 <= i < |p|
  {
    if p == [] then -1
    else if p[|p| - 1] == Sep then |p| - 1
    else LastSep(p[..|p| - 1])
  }

  /** `LastSep` finds a separator, and none comes after it. */
  lemma {:induction false} LastSepIsLast(p: string)
    ensures LastSep(p) >= 0 ==> p[LastSep(p)] == Sep
    ensures forall j :: LastSep(p) < j < |p| ==> p[j] != Sep
    decreases |p|
  {
    if p != [] && p[|p| - 1] != Sep {
      var q := p[..|p| - 1];
      LastSepIsLast(q);
      assert forall j :: 0 <= j < |q| ==> q[j] == p[j];
    }
  }

  predicate AllSeps(s: string) {
    forall i :: 0 <= i < |s| ==> s[i] == Sep
  }

  /** `str.rstrip('/')`. */
  function RStripSeps(s: string): (r: string)
    ensures |r| <= |s|
  {
    if s == [] || s[|s| - 1] != Sep then s else RStripSeps(s[..|s| - 1])
  }

  /** Stripping keeps a prefix that does not end in a separator, and removes
      only separators. */
  lemma {:induction false} RStripSepsRemovesSeps(s: string)
    ensures RStripSeps(s) <= s
    ensures RStripSeps(s) == [] || RStripSeps(s)[|RStripSeps(s)| - 1] != Sep
    ensures AllSeps(s[|RStripSeps(s)|..])
    decreases |s|
  {
    if s != [] && s[|s| - 1] == Sep {
      var q := s[..|s| - 1];
      RStripSepsRemovesSeps(q);
      var r := RStripSeps(q);
      assert s[|r|..] == q[|r|..] + [Sep];
    }
  }

  /** `os.path.join(a, b)`. */
  function Join(a: string, b: string): string {
    if b != [] && b[0] == Sep then b
    else if a == [] || a[|a| - 1] == Sep then a + b
    else a + [Sep] + b
  }

  /** `os.path.basename(p)`: everything after the last separator. */
  function Basename(p: string): string {
    p[LastSep(p) + 1..]
  }

  /** `os.path.dirname(p)`: everything up to the last separator, with trailing
      separators removed unless the head consists of separators only. */
  function Dirname(p: string): string {
    var head := p[..LastSep(p) + 1];
    if head != [] && !AllSeps(head) then RStripSeps(head) else head
  }

  /** Appending separator-free text does not move the last separator. */
  lemma {:induction false} LastSepAppend(a: string, b: string)
    requires Sep !in b
    ensures LastSep(a + b) == LastSep(a)
  {
    if b != [] {
      assert (a + b)[..|a + b| - 1] == a + b[..|b| - 1];
      LastSepAppend(a, b[..|b| - 1]);
    } else {
      assert a + b == a;
    }
  }

  /** The base name of a joined path is the joined file name. */
  lemma BasenameJoin(root: string, name: string)
    requires Sep !in name
    ensures Basename(Join(root, name)) == name
  {
    assert name == [] || name[0] != Sep;
    if root == [] {
      LastSepAppend([], name);
      assert [] + name == name;
      assert Join(root, name) == name;
    } else if root[|root| - 1] == Sep {
      LastSepAppend(root, name);
      assert LastSep(root) == |root| - 1;
      assert (root + name)[|root|..] == name;
    } else {
      var a := root + [Sep];
      LastSepAppend(a, name);
      assert Join(root, name) == a + name;
      assert LastSep(a) == |root|;
      assert (a + name)[|a|..] == name;
    }
  }

  /** The directory name of a joined path is the root without trailing separators. */
  lemma DirnameJoin(root: string, name: string)
    requires Sep !in name
    requires !AllSeps(root)
    ensures Dirname(Join(root, name)) == RStripSeps(root)
  {
    var p := Join(root, name);
    if root[|root| - 1] == Sep {
      LastSepAppend(root, name);
      assert p[..LastSep(p) + 1] == root;
    } else {
      LastSepAppend(root + [Sep], name);
      assert p == (root + [Sep]) + name;
      assert p[..LastSep(p) + 1] == root + [Sep];
      assert !AllSeps(root + [Sep]) by {
        var k :| 0 <= k < |root| && root[k] != Sep;
        assert (root + [Sep])[k] == root[k];
      }
      assert (root + [Sep])[..|root|] == root;
    }
  }

  /** A string of separators only has an empty base name. */
  lemma BasenameOfSeps(s: string)
    requires AllSeps(s)
    ensures Basename(s) == []
  {
    if s != [] {
      assert LastSep(s) == |s| - 1;
    }
  }

  /** Stripping a string of separators only leaves nothing. */
  lemma {:induction false} RStripAllSeps(s: string)
    requires AllSeps(s)
    ensures RStripSeps(s) == []
    decreases |s|
  {
    if s != [] {
      var q := s[..|s| - 1];
      assert AllSeps(q) by {
        assert forall j :: 0 <= j < |q| ==> q[j] == s[j];
      }
      RStripAllSeps(q);
    }
  }

  /** Joining a separator-free name to a root of separators only is
      concatenation. */
  lemma JoinSepRoot(root: string, name: string)
    requires Sep !in name && AllSeps(root)
    ensures Join(root, name) == root + name
  {
    assert name == [] || name[0] != Sep;
    if root == [] {
      assert root + name == name;
    }
  }

  /** The last separator of a non-empty string of separators is its last
      character. */
  lemma LastSepOfSeps(s: string)
    requires AllSeps(s)
    ensures LastSep(s) == |s| - 1
  {
    if s != [] {
      assert s[|s| - 1] == Sep;
    }
  }

  /** Under a root of separators only, the directory of a joined path is
      that root. */
  lemma DirnameSepRoot(root: string, name: string)
    requires Sep !in name && AllSeps(root)
    ensures Dirname(Join(root, name)) == root
  {
    var p := root + name;
    JoinSepRoot(root, name);
    LastSepAppend(root, name);
    LastSepOfSeps(root);
    assert p[..LastSep(p) + 1] == root;
  }

  /** Under a root made of separators only (the empty root, or `/`), the
      folder of a joined path is empty, as is the stripped root's base name. */
  lemma FolderOfSeparatorRoot(root: string, name: string)
    requires Sep !in name && AllSeps(root)
    ensures Basename(Dirname(Join(root, name))) == [] == Basename(RStripSeps(root))
  {
    DirnameSepRoot(root, name);
    BasenameOfSeps(root);
    RStripAllSeps(root);
  }
}
