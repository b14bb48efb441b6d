/** The extension filter: which names are RAW photo candidates. */
module Extensions {
  import opened Paths

  /** The six RAW extensions, lower-case and dot-prefixed. */
  const RawExtensions: set<string> := {".cr2", ".nef", ".arw", ".dng", ".orf", ".raf"}

  /** The lower-cased name ends with one of the given extensions. The
      extensions themselves are not lower-cased. */
  predicate MatchesAny(name: string, exts: set<string>) {
    exists ext | ext in exts :: EndsWith(Lower(name), ext)
  }

  /** A candidate for indexing, import comparison and lookup. */
  predicate IsRaw(name: string) {
    MatchesAny(name, RawExtensions)
  }

  /** The filter of the metadata import: an empty set accepts every name. */
  predicate Accepts(exts: set<string>, name: string) {
    |exts| == 0 || MatchesAny(name, exts)
  }

  /** The candidate test spelled out for each RAW extension. */
  lemma IsRawIff(name: string)
    ensures IsRaw(name) <==>
      EndsWith(Lower(name), ".cr2") || EndsWith(Lower(name), ".nef") ||
      EndsWith(Lower(name), ".arw") || EndsWith(Lower(name), ".dng") ||
      EndsWith(Lower(name), ".orf") || EndsWith(Lower(name), ".raf")
  {
    if EndsWith(Lower(name), ".cr2") { assert ".cr2" in RawExtensions; }
    if EndsWith(Lower(name), ".nef") { assert ".nef" in RawExtensions; }
    if EndsWith(Lower(name), ".arw") { assert ".arw" in RawExtensions; }
    if EndsWith(Lower(name), ".dng") { assert ".dng" in RawExtensions; }
    if EndsWith(Lower(name), ".orf") { assert ".orf" in RawExtensions; }
    if EndsWith(Lower(name), ".raf") { assert ".raf" in RawExtensions; }
  }

  /** The test ignores the case of the name. */
  lemma IsRawCaseInsensitive(name: string)
    ensures IsRaw(Lower(name)) == IsRaw(name)
  {
    LowerIdempotent(name);
  }

  /** An extension holding an upper-case letter never matches, because only
      the name is lower-cased. */
  lemma UpperExtensionNeverMatches(name: string, ext: string, k: nat)
    requires k < |ext| && IsUpper(ext[k])
    ensures !MatchesAny(name, {ext})
  {
    LowerHasNoUpper(name);
  }

  /** The empty extension set accepts every name. */
  lemma AcceptsEverythingWhenEmpty(exts: set<string>, name: string)
    requires exts == {}
    ensures Accepts(exts, name)
  {
  }

  /** With the RAW set, the metadata filter is the candidate test. */
  lemma AcceptsRaw(name: string)
    ensures Accepts(RawExtensions, name) == IsRaw(name)
  {
    assert ".cr2" in RawExtensions;
  }

  /** An upper-case RAW name is a candidate. */
  lemma UpperCaseRawExample()
    ensures IsRaw("A.CR2")
  {
    assert Lower("A.CR2") == "a.cr2";
    assert EndsWith(Lower("A.CR2"), ".cr2");
    assert ".cr2" in RawExtensions;
  }

  /** A name without the dot, or with a JPEG extension, is not a candidate. */
  lemma NonRawExamples()
    ensures !IsRaw("A.JPG")
    ensures !IsRaw("cr2")
  {
    IsRawIff("A.JPG");
    assert Lower("A.JPG") == "a.jpg";
    IsRawIff("cr2");
  }
}
