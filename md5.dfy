/** The content fingerprint: a file is read in chunks of at most 4096 bytes
    until a read comes back empty, and every chunk is fed to an MD5 hash
    object. The MD5 function itself is a parameter (`digest`), so the model
    says only that the hex digest is computed from the bytes read. */
module Md5 {

  newtype Byte = x: int | 0 <= x < 256

  /** The hex digest of a byte sequence (MD5 is not modelled). */
  type Digest = seq<Byte> -> string

  const ChunkSize: nat := 4096

  function Min(a: nat, b: nat): nat {
    if a <= b then a else b
  }

  /** The chunks the read loop sees: full 4096-byte chunks, then the rest. */
  function Chunks(content: seq<Byte>): seq<seq<Byte>>
    decreases |content|
  {
    if content == [] then []
    else
      var n := Min(ChunkSize, |content|);
      [content[..n]] + Chunks(content[n..])
  }

  function Flatten(chunks: seq<seq<Byte>>): seq<Byte> {
    if chunks == [] then [] else chunks[0] + Flatten(chunks[1..])
  }

  /** The chunks cover the file, in order, each between 1 and 4096 bytes,
      and every chunk but the last is full. */
  lemma {:induction false} ChunksCoverContent(content: seq<Byte>)
    ensures Flatten(Chunks(content)) == content
    ensures forall i :: 0 <= i < |Chunks(content)| ==> 0 < |Chunks(content)[i]| <= ChunkSize
    ensures forall i :: 0 <= i < |Chunks(content)| - 1 ==> |Chunks(content)[i]| == ChunkSize
    ensures |Chunks(content)| == (|content| + ChunkSize - 1) / ChunkSize
    decreases |content|
  {
    if content != [] {
      var n := Min(ChunkSize, |content|);
      ChunksCoverContent(content[n..]);
      var cs := Chunks(content);
      assert cs[1..] == Chunks(content[n..]);
      assert content[..n] + content[n..] == content;
    }
  }

  /** The chunks from offset `k` on: one read of at most 4096 bytes, then
      the chunks after it. */
  lemma ChunksStep(content: seq<Byte>, k: nat)
    requires k < |content|
    ensures var n := Min(ChunkSize, |content| - k);
      Chunks(content[k..]) == [content[k..k + n]] + Chunks(content[k + n..])
  {
    var n := Min(ChunkSize, |content| - k);
    assert content[k..][..n] == content[k..k + n];
    assert content[k..][n..] == content[k + n..];
  }

  /** An open file in binary mode; `Read(n)` is `f.read(n)`. */
  class OpenFile {
    const content: seq<Byte>
    var pos: nat

    constructor (content: seq<Byte>)
      ensures this.content == content && pos == 0
    {
      this.content := content;
      pos := 0;
    }

    /** Returns the next `n` bytes, fewer at the end of the file, and none there. */
    method Read(n: nat) returns (chunk: seq<Byte>)
      requires pos <= |content|
      modifies this
      ensures pos == old(pos) + Min(n, |content| - old(pos))
      ensures chunk == content[old(pos)..pos]
    {
      var end := pos + Min(n, |content| - pos);
      chunk := content[pos..end];
      pos := end;
    }
  }

  /** `hashlib.md5()`: the bytes fed so far determine the digest. */
  class Hasher {
    var fed: seq<Byte>

    constructor ()
      ensures fed == []
    {
      fed := [];
    }

    method Update(chunk: seq<Byte>)
      modifies this
      ensures fed == old(fed) + chunk
    {
      fed := fed + chunk;
    }

    function HexDigest(digest: Digest): string
      reads this
    {
      digest(fed)
    }
  }

  /** `compute_md5`: the digest covers exactly the file's bytes, and the
      chunks read are the 4096-byte chunking of the content. */
  method ComputeMd5(content: seq<Byte>, digest: Digest) returns (hex: string, chunks: seq<seq<Byte>>)
    ensures hex == digest(content)
    ensures chunks == Chunks(content)
  {
    var f := new OpenFile(content);
    var hasher := new Hasher();
    chunks := [];
    var chunk := f.Read(ChunkSize);
    ghost var done: nat := 0;
    while chunk != []
      invariant f.content == content && done <= f.pos <= |content|
      invariant hasher.fed == content[..done]
      invariant chunk == content[done..f.pos] && f.pos == done + Min(ChunkSize, |content| - done)
      invariant chunks + Chunks(content[done..]) == Chunks(content)
      decreases |content| - done
    {
      ChunksStep(content, done);
      assert content[..done] + chunk == content[..f.pos];
      assert (chunks + [chunk]) + Chunks(content[f.pos..]) == chunks + ([chunk] + Chunks(content[f.pos..]));
      hasher.Update(chunk);
      chunks := chunks + [chunk];
      done := f.pos;
      chunk := f.Read(ChunkSize);
    }
    assert |chunk| == f.pos - done == 0;
    assert content[..done] == content && content[done..] == [];
    hex := hasher.HexDigest(digest);
  }
}
