# Duplicate file finder — a verified Dafny model

`find_duplicates.py` scans a directory tree for files with identical
content. It works in two passes. The first pass groups every regular file by
its byte size. The second pass computes an MD5 digest only for files whose
size another file shares, and groups those files by digest. Digests shared
by a single path are then dropped. `main` prints the groups and counts the
"extra copies": every path of a group beyond the first.

This project models that core in Dafny and proves what the result contains.

- `file_system.dfy` (module `FileSystem`): paths, bytes, digests, and what
  the walk reports about each file name (`Stat`).
- `list_dict.dfy` (module `ListDicts`): Python's `defaultdict(list)` as a
  value. It keeps the keys in insertion order, which is the order `items()`
  visits them, and one list per key. `GroupBy` is what appending a sequence
  of pairs leaves behind.
- `hash_file.dfy` (module `HashFiles`): `hash_file`. The MD5 object and the
  opened file are classes. The block-read loop is a `while` loop proved to
  feed the whole file, in order, in chunks of at most the block size.
- `find_duplicates.dfy` (module `DuplicateFinder`): `find_duplicates`. The
  functions `HashesBySize`, `Hashed`, `AllGroups` and `Duplicates` state each
  pass as a value. The method `FindDuplicates` runs the passes as the source
  does: loops appending to two `defaultdict(list)`s (the first in
  `BucketBySize`, the nested second in `HashBuckets`), then the final
  filter. It is proved to return `Duplicates` and to hash exactly the paths
  of `Hashed`.
- `duplicate_properties.dfy` (module `DuplicateProperties`): the properties
  of `Duplicates`.
- `report.dfy` (module `Report`): the extra-copies count of `main`.

The file system and MD5 are parameters:

- the walk is a sequence of `Stat(path, size)`, with `size == None` when
  `os.path.isfile` is false or `os.path.getsize` raises `OSError`;
- `fs: Path -> Option<seq<byte>>` gives a file's content, with `None` when
  opening or reading it raises `OSError`;
- `md5: seq<byte> -> Digest` is any deterministic function.

Two points where the code promises less than a reader may expect:

- The comment at find_duplicates.py:29-30 says that only files of the same
  size can be exact duplicates, and the size pass exists to exploit that.
  But one `duplicates` dict (lines 27 and 48) is shared by every size
  bucket, so the second pass groups by digest across all buckets. When MD5
  does not collide, a group keeps to one size; a collision between contents
  of different lengths can mix sizes in one group.
  `SameSizeWhenMd5Injective` proves that under that assumption.
  `SizesMixWhenMd5Collides` shows a group with two sizes when MD5 collides.
- A group is a list, built by `append` (line 48). When the walk yields no
  path twice, no group lists a path twice (`NoPathTwiceInGroup`).

## Model

| member | source | states |
|---|---|---|
| `ListDicts.ListDict.Append` | find_duplicates.py:37 | `d[k].append(v)` puts `v` at the end of the list under `k` and changes no other list; a new key goes to the end of the key order; keys stay unique |
| `ListDicts.Empty` | find_duplicates.py:26-27 | a fresh `defaultdict(list)` holds no key and no list, and looking any key up gives the empty list |
| `ListDicts.GroupBy` | find_duplicates.py:26-27 | the dict that appending a sequence of pairs to an empty `defaultdict(list)` builds has unique keys, lists exactly its keys, and stores no empty list |
| `HashFiles.HashOf` | find_duplicates.py:46-50 | the outcome of `hash_file` inside the `try`: no digest exactly when the file cannot be opened or read, otherwise MD5 of its whole content; `HashFile` is proved to return it for every non-zero block size |
| `HashFiles.Md5Hasher.constructor` | find_duplicates.py:7 | `hashlib.md5()` starts with no bytes fed |
| `HashFiles.BinaryFile.constructor` | find_duplicates.py:8 | `open(filepath, 'rb')` gives a file positioned at its first byte, holding the file's content |
| `HashFiles.BinaryFile.Read` | find_duplicates.py:9 | `f.read(size)` returns the next `size` bytes, fewer at end of file, none for size 0, all the rest for a negative size, and moves the position past them |
| `HashFiles.Md5Hasher.Update` | find_duplicates.py:11 | `hasher.update(buf)` adds `buf` to the end of the bytes fed so far |
| `HashFiles.Md5Hasher.HexDigest` | find_duplicates.py:13 | the digest is MD5 of all bytes fed, in order |
| `HashFiles.HashFile` | find_duplicates.py:5-13 | an unreadable file gives no digest; otherwise the chunks fed are non-empty, at most the block size each, and joined in order they are the whole file, so the digest is MD5 of the file, the value `HashOf` gives; a block size of 0 feeds nothing |
| `DuplicateFinder.KeepDuplicates` | find_duplicates.py:54 | the result keeps exactly the groups with more than one path, with their lists unchanged; the kept keys come in the order of the input's keys, the order `items()` visits them |
| `DuplicateFinder.BucketBySize` | find_duplicates.py:31-40 | the first loop builds exactly `HashesBySize(walk)`: every file whose size is known is appended to the bucket of its size, in walk order |
| `DuplicateFinder.HashBuckets` | find_duplicates.py:43-51 | the second loop hashes exactly the paths of the buckets holding more than one path, bucket by bucket, and files each readable one under its digest in that order |
| `DuplicateFinder.FindDuplicates` | find_duplicates.py:15-56 | the two loops and the filter return exactly `Duplicates(walk, fs, md5)`, and the paths handed to `hash_file` are exactly `Hashed(walk)`, in order |
| `DuplicateProperties.BucketContents` | find_duplicates.py:31-40 | the bucket of size `n` lists the paths the walk yields with size `n`, in walk order; files without a readable size are in no bucket |
| `DuplicateProperties.PathsOfSizeMember` | find_duplicates.py:34-37 | a path is in the bucket of size `n` if and only if the walk yields it with size `n` |
| `DuplicateProperties.BucketHasTwo` | find_duplicates.py:44 | a bucket holds more than one path if and only if two walked files have that size |
| `DuplicateProperties.HashedMember` | find_duplicates.py:43-47 | a path is hashed if and only if the walk yields it with a size that another walked file also has |
| `DuplicateProperties.GroupContents` | find_duplicates.py:45-51 | the group of digest `h` built by the second pass lists the hashed paths whose files have digest `h`, in hashing order; unreadable files are in no group |
| `DuplicateProperties.WithHashMember` | find_duplicates.py:46-51 | a hashed path is in the group of `h` if and only if its file can be read and its digest is `h` |
| `DuplicateProperties.GroupsHaveTwoOrMore` | find_duplicates.py:54 | every returned group holds at least two paths |
| `DuplicateProperties.EmptyWalk` | find_duplicates.py:26-54 | an empty walk returns an empty mapping |
| `DuplicateProperties.Soundness` | find_duplicates.py:34-54 | every returned path was read, its digest is its group's key, and the walk yielded it with a size another walked file shares |
| `DuplicateProperties.Completeness` | find_duplicates.py:43-54 | any two walked files of equal size whose contents have the same digest are both returned, in that digest's group |
| `DuplicateProperties.UniqueSizeNeverHashed` | find_duplicates.py:43-44 | a file whose size no other walked file has is never hashed and never returned |
| `DuplicateProperties.OneGroupPerPath` | find_duplicates.py:47-48 | a path is returned under one digest at most |
| `DuplicateProperties.CandidatesDistinct` | find_duplicates.py:37-45 | when the walk yields distinct paths, no path is hashed twice |
| `DuplicateProperties.NoPathTwiceInGroup` | find_duplicates.py:45-48 | when the walk yields distinct paths, no returned group lists a path twice |
| `DuplicateProperties.GroupKeepsWalkOrder` | find_duplicates.py:43-48 | within a returned group, the paths of one shared size with that digest appear as a run, in the order the walk yielded them; when the walk yields distinct paths, no other path of that size lies before or after the run |
| `DuplicateProperties.SameSizeWhenMd5Injective` | find_duplicates.py:47-48 | if MD5 never collides and contents are as long as their read sizes, all files of a group have the same size |
| `DuplicateProperties.SizesMixWhenMd5Collides` | find_duplicates.py:43-48 | with an MD5 that collides, one group can hold files of different sizes and different contents |
| `Report.CountExtraCopies` | find_duplicates.py:76-81 | the loop total is the sum over groups of (group size − 1), which is the number of returned paths minus the number of groups |
| `Report.ExtraCopiesAtLeastGroups` | find_duplicates.py:81 | when every group holds at least two paths, there are at least as many extra copies as groups |
| `Report.ReportedExtraCopies` | find_duplicates.py:76-83 | for a result of `find_duplicates`, the printed extra-copies total is at least the printed number of duplicate sets |

## Left out

- The directory walk (`os.walk`, `os.path.join`, `os.path.isfile`, `os.path.getsize`), `open` and `read`: file-system I/O. They are replaced by the walk sequence and the `fs` parameter. A file's content is assumed not to change between calls, so a file read once per path gives one answer.
- MD5 itself (`hashlib`): a foreign library. It is the parameter `md5`, and the hasher's state is the sequence of bytes fed to it.
- The warnings printed on `OSError` (lines 39 and 50): console output. The affected file is skipped, as modelled.
- `main`'s console output, the report file `local_duplicates.txt`, the hard-coded target directory and its `isdir` check (lines 58-93): I/O and configuration. Only the extra-copies count is modelled.
- A read that fails part way through a file: it raises the same `OSError` as a failed `open`, so a file's content is modelled as all or nothing.
