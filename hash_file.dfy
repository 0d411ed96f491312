/** `hash_file` (find_duplicates.py:5-13): feed a file to an MD5 hasher one
    block at a time until a read comes back empty. */
module HashFiles {
  import opened FileSystem

  /** The `block_size` that `hash_file` reads with when none is given. */
  const DefaultBlockSize: int := 65536

  /** The bytes of `chunks` joined in order. */
  function Concat(chunks: seq<seq<byte>>): seq<byte> {
    if chunks == [] then [] else Concat(chunks[..|chunks| - 1]) + chunks[|chunks| - 1]
  }

  /** The digest a file's content gets, or None when the file cannot be read:
      what `hash_file` returns or raises with a positive block size. */
  function HashOf(path: Path, fs: FileReader, md5: Md5): (r: Option<Digest>)
    ensures r.None? <==> fs(path).None?
    ensures r.Some? ==> r.value == md5(fs(path).value)
  {
    match fs(path)
    case None => None
    case Some(content) => Some(md5(content))
  }

  /** A `hashlib.md5()` object. Its internal state is abstracted to the bytes
      fed to it so far; its digest is `md5` of those bytes. */
  class Md5Hasher {
    var fed: seq<byte>

    constructor ()
      ensures fed == []
    {
      fed := [];
    }

    /** `hasher.update(buf)` */
    method Update(buf: seq<byte>)
      modifies this
      ensures fed == old(fed) + buf
    {
      fed := fed + buf;
    }

    /** `hasher.hexdigest()` */
    method HexDigest(md5: Md5) returns (d: Digest)
      ensures d == md5(fed)
    {
      d := md5(fed);
    }
  }

  /** A file opened with mode 'rb': its content and the read position. */
  class BinaryFile {
    const content: seq<byte>
    var pos: nat

    ghost predicate Valid()
      reads this
    {
      pos <= |content|
    }

    constructor (content: seq<byte>)
      ensures Valid() && this.content == content && pos == 0
    {
      this.content := content;
      pos := 0;
    }

    /** `f.read(size)`: the next `size` bytes, fewer at the end of the file,
        none at the end of the file or for a size of 0, and all the rest for
        a negative size. */
    method Read(size: int) returns (buf: seq<byte>)
      requires Valid()
      modifies this
      ensures Valid()
      ensures pos == if size < 0 || old(pos) + size > |content| then |content| else old(pos) + size
      ensures buf == content[old(pos)..pos]
    {
      var end := if size < 0 || pos + size > |content| then |content| else pos + size;
      buf := content[pos..end];
      pos := end;
    }
  }

  /** `hash_file(filepath, block_size)`. None stands for the `OSError` that
      `open` raises. Otherwise the digest is MD5 of the whole file: the
      chunks handed to `update` (the ghost result `chunks`) are non-empty,
      none longer than a positive block size, and joined in order they are
      the whole file. With a block size of 0 the first read is already empty
      and nothing is fed. */
  method HashFile(filepath: Path, fs: FileReader, md5: Md5, blockSize: int)
    returns (r: Option<Digest>, ghost chunks: seq<seq<byte>>)
    ensures fs(filepath).None? ==> r == None
    ensures fs(filepath).Some? ==> r == Some(md5(if blockSize == 0 then [] else fs(filepath).value))
    ensures fs(filepath).None? ==> chunks == []
    ensures fs(filepath).Some? ==> Concat(chunks) == if blockSize == 0 then [] else fs(filepath).value
    ensures forall i :: 0 <= i < |chunks| ==> chunks[i] != [] && (blockSize > 0 ==> |chunks[i]| <= blockSize)
    ensures blockSize != 0 ==> r == HashOf(filepath, fs, md5)
  {
    chunks := [];
    var hasher := new Md5Hasher();
    match fs(filepath)
    case None =>
      r := None;
    case Some(content) =>
      var f := new BinaryFile(content);
      var buf := f.Read(blockSize);
      while |buf| > 0
        invariant f.Valid() && f.content == content
        invariant hasher.fed == Concat(chunks)
        invariant hasher.fed + buf == content[..f.pos]
        invariant buf == [] && blockSize != 0 ==> f.pos == |content|
        invariant blockSize == 0 ==> f.pos == 0
        invariant blockSize > 0 ==> |buf| <= blockSize
        invariant forall i :: 0 <= i < |chunks| ==> chunks[i] != [] && (blockSize > 0 ==> |chunks[i]| <= blockSize)
        decreases |content| - f.pos + |buf|
      {
        hasher.Update(buf);
        assert Concat(chunks + [buf]) == Concat(chunks) + buf by {
          assert (chunks + [buf])[..|chunks|] == chunks;
        }
        chunks := chunks + [buf];
        ghost var start := f.pos;
        buf := f.Read(blockSize);
        assert content[..f.pos] == content[..start] + buf;
      }
      assert content[..|content|] == content;
      var d := hasher.HexDigest(md5);
      r := Some(d);
  }
}
