/** The vocabulary `find_duplicates.py` works in, once the file system and
    MD5 are taken out: paths, bytes, digests and what the directory walk
    reports about each file name. */
module FileSystem {

  datatype Option<+T> = None | Some(value: T)

  newtype byte = b: int | 0 <= b < 256

  /** A path as `os.path.join(dirpath, filename)` builds it. */
  type Path = string

  /** What `hexdigest()` returns. */
  type Digest = string

  /** The whole content of the file at a path, or None where opening or
      reading it raises `OSError`. */
  type FileReader = Path -> Option<seq<byte>>

  /** MD5, left uninterpreted: some deterministic function from the bytes
      fed to a hasher to its digest. */
  type Md5 = seq<byte> -> Digest

  /** One file name the directory walk yields: its joined path, and its size
      in bytes, or None when `os.path.isfile` rejects it or
      `os.path.getsize` raises `OSError`. */
  datatype Stat = Stat(path: Path, size: Option<nat>)

  /** No path occurs twice in a sequence. */
  predicate Distinct<T(==)>(s: seq<T>) {
    forall i, j :: 0 <= i < j < |s| ==> s[i] != s[j]
  }

  /** The walk yields each path once, as `os.walk` does on a tree without
      links back into itself. */
  predicate DistinctPaths(walk: seq<Stat>) {
    forall i, j :: 0 <= i < j < |walk| ==> walk[i].path != walk[j].path
  }
}
