/**
  The checksum engine of check_bitrot.py: `determineFileChecksum` opens a file
  in binary mode, reads it block by block and feeds every block to a hash
  accumulator until a read comes back empty. The hash algorithm (MD5 in the
  program) is a parameter: the accumulator records only the bytes it was fed,
  and its digest is `hash` applied to them.
 */
module ChecksumEngine {

  /** DEFAULT_BLOCKSIZE */
  const DefaultBlockSize: int := 65536

  /** Length of an MD5 `hexdigest()`: 128 bits as 32 hex characters. */
  const DigestLength: nat := 32

  predicate IsLowerHexDigit(c: char) {
    ('0' <= c <= '9') || ('a' <= c <= 'f')
  }

  /** What `hexdigest()` returns: a fixed-length string of lower-case hex digits. */
  type Digest = s: string | |s| == DigestLength && forall i :: 0 <= i < |s| ==> IsLowerHexDigit(s[i])
    witness "00000000000000000000000000000000"

  /** The bytes of a sequence of blocks, in order. */
  function Concat(blocks: seq<seq<bv8>>): seq<bv8> {
    if blocks == [] then [] else blocks[0] + Concat(blocks[1..])
  }

  lemma {:induction false} ConcatAppend(a: seq<seq<bv8>>, b: seq<seq<bv8>>)
    ensures Concat(a + b) == Concat(a) + Concat(b)
  {
    if a != [] {
      assert (a + b)[1..] == a[1..] + b;
      ConcatAppend(a[1..], b);
    } else {
      assert a + b == b;
    }
  }

  /** Where a read of `size` bytes starting at `pos` stops in a file of `len`
      bytes: Python's `read(size)` reads to the end for a negative size and
      otherwise returns at most `size` bytes. */
  function BlockEnd(len: nat, pos: nat, size: int): (r: nat)
    requires pos <= len
    ensures pos <= r <= len
  {
    if size < 0 then len else if pos + size <= len then pos + size else len
  }

  /** The blocks that successive `read(blocksize)` calls return for `content`,
      up to (not including) the first empty read. */
  function Chunks(content: seq<bv8>, blocksize: int): (r: seq<seq<bv8>>)
    ensures r == [] <==> content == [] || blocksize == 0
    decreases |content|
  {
    if content == [] || blocksize == 0 then []
    else
      var n := BlockEnd(|content|, 0, blocksize);
      [content[..n]] + Chunks(content[n..], blocksize)
  }

  /** The successive reads partition the file: for a non-zero block size they
      concatenate to the whole content; each is non-empty and, for a positive
      block size, at most `blocksize` long, and all but the last exactly that
      long; a negative size reads everything at once; an empty file or a
      block size of 0 gives no block at all. */
  lemma {:induction false} ChunksPartition(content: seq<bv8>, blocksize: int)
    ensures var r := Chunks(content, blocksize);
            && (blocksize != 0 ==> Concat(r) == content)
            && (blocksize == 0 || content == [] ==> r == [])
            && (forall i :: 0 <= i < |r| ==> 0 < |r[i]| && (blocksize > 0 ==> |r[i]| <= blocksize))
            && (blocksize > 0 ==> forall i :: 0 <= i < |r| - 1 ==> |r[i]| == blocksize)
            && (blocksize < 0 ==> |r| <= 1)
    decreases |content|
  {
    if content != [] && blocksize != 0 {
      var n := BlockEnd(|content|, 0, blocksize);
      ChunksPartition(content[n..], blocksize);
      var r := Chunks(content, blocksize);
      assert r[1..] == Chunks(content[n..], blocksize);
      assert content[..n] + content[n..] == content;
      assert forall i :: 1 <= i < |r| ==> r[i] == r[1..][i - 1];
    }
  }

  /** One more read from position `start`: its block is the first of the
      chunks of what is left, and the rest are the chunks after it. */
  lemma ChunksAt(content: seq<bv8>, start: nat, blocksize: int)
    requires start < |content| && blocksize != 0
    ensures var e := BlockEnd(|content|, start, blocksize);
            Chunks(content[start..], blocksize) == [content[start..e]] + Chunks(content[e..], blocksize)
  {
    var rest := content[start..];
    var n := BlockEnd(|rest|, 0, blocksize);
    assert start + n == BlockEnd(|content|, start, blocksize);
    assert rest[..n] == content[start..start + n];
    assert rest[n..] == content[start + n..];
  }

  /** An open binary file: its bytes and the read position. */
  class ByteFile {
    const content: seq<bv8>
    var pos: nat

    ghost predicate Valid()
      reads this
    {
      pos <= |content|
    }

    /** `open(filename, 'rb')` */
    constructor Open(content: seq<bv8>)
      ensures Valid() && this.content == content && pos == 0
    {
      this.content := content;
      pos := 0;
    }

    /** `read(size)`: the next block of at most `size` bytes (all remaining
        bytes for a negative size); empty exactly at the end of the file or
        for a size of 0. */
    method Read(size: int) returns (buf: seq<bv8>)
      requires Valid()
      modifies this
      ensures Valid()
      ensures pos == BlockEnd(|content|, old(pos), size)
      ensures buf == content[old(pos)..pos]
    {
      var end := BlockEnd(|content|, pos, size);
      buf := content[pos..end];
      pos := end;
    }
  }

  /** A streaming hash object such as `hashlib.md5()`. It keeps the bytes fed
      so far; `updates` records the argument of every `update` call. */
  class HashAccumulator {
    const hash: seq<bv8> -> Digest
    var fed: seq<bv8>
    ghost var updates: seq<seq<bv8>>

    ghost predicate Valid()
      reads this
    {
      fed == Concat(updates)
    }

    /** A fresh accumulator, as `CHECKSUM_HASHING_METHOD()` makes one. */
    constructor (hash: seq<bv8> -> Digest)
      ensures Valid() && this.hash == hash && fed == [] && updates == []
    {
      this.hash := hash;
      fed := [];
      updates := [];
    }

    /** `update(block)` */
    method Update(block: seq<bv8>)
      requires Valid()
      modifies this
      ensures Valid()
      ensures fed == old(fed) + block && updates == old(updates) + [block]
    {
      ConcatAppend(updates, [block]);
      fed := fed + block;
      updates := updates + [block];
    }

    /** `hexdigest()`: the digest of everything fed so far. */
    method HexDigest() returns (d: Digest)
      ensures d == hash(fed)
    {
      d := hash(fed);
    }
  }

  /** `determineFileChecksum(filename, hashingMethod, blocksize)`, with the
      file given by its bytes. The blocks fed are exactly the successive reads
      of the file, so for every non-zero block size the accumulator receives
      exactly the file's bytes, in order, and the digest is the hash of the
      content whatever the block size. */
  method DetermineFileChecksum(content: seq<bv8>, hashingMethod: HashAccumulator, blocksize: int)
    returns (d: Digest)
    requires hashingMethod.Valid()
    modifies hashingMethod
    ensures hashingMethod.Valid()
    ensures hashingMethod.updates == old(hashingMethod.updates) + Chunks(content, blocksize)
    ensures hashingMethod.fed == old(hashingMethod.fed) + (if blocksize == 0 then [] else content)
    ensures d == hashingMethod.hash(hashingMethod.fed)
  {
    var fileHandle := new ByteFile.Open(content);
    var fileBuffer := fileHandle.Read(blocksize);
    ghost var start := 0;
    while |fileBuffer| > 0
      invariant fileHandle.Valid() && fileHandle.content == content
      invariant hashingMethod.Valid()
      invariant start <= fileHandle.pos == BlockEnd(|content|, start, blocksize)
      invariant fileBuffer == content[start..fileHandle.pos]
      invariant old(hashingMethod.updates) + Chunks(content, blocksize)
                == hashingMethod.updates + Chunks(content[start..], blocksize)
      decreases |content| - start
    {
      ChunksAt(content, start, blocksize);
      ghost var later := Chunks(content[fileHandle.pos..], blocksize);
      assert hashingMethod.updates + Chunks(content[start..], blocksize)
             == (hashingMethod.updates + [fileBuffer]) + later;
      hashingMethod.Update(fileBuffer);
      start := fileHandle.pos;
      fileBuffer := fileHandle.Read(blocksize);
    }
    assert blocksize == 0 || content[start..] == [];
    ChunksPartition(content, blocksize);
    ConcatAppend(old(hashingMethod.updates), Chunks(content, blocksize));
    d := hashingMethod.HexDigest();
  }
}
