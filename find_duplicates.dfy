/** `find_duplicates` (find_duplicates.py:15-56): group the walked files by
    size, hash only the files of sizes that occur more than once, group
    those by digest, and keep the digests shared by more than one path.
    The functions below state each pass as a value; `FindDuplicates` runs the
    passes as loops and is proved to build exactly those values. */
module DuplicateFinder {
  import opened FileSystem
  import opened ListDicts
  import opened HashFiles

  /** What the first pass appends to `hashes_by_size`, in walk order: one
      `(size, path)` pair for every file whose size could be read. */
  function SizeItems(walk: seq<Stat>): seq<(nat, Path)> {
    if walk == [] then []
    else
      var e := walk[|walk| - 1];
      SizeItems(walk[..|walk| - 1]) + if e.size.Some? then [(e.size.value, e.path)] else []
  }

  /** `hashes_by_size` after the first pass. */
  function HashesBySize(walk: seq<Stat>): ListDict<nat, Path> {
    GroupBy(SizeItems(walk))
  }

  /** The paths the second pass hands to `hash_file` when it visits the sizes
      `keys` of `bySize` in order: each whole bucket that holds more than one
      path, one bucket after another. */
  function Candidates(bySize: ListDict<nat, Path>, keys: seq<nat>): seq<Path> {
    if keys == [] then []
    else
      var paths := bySize.Get(keys[|keys| - 1]);
      Candidates(bySize, keys[..|keys| - 1]) + if |paths| > 1 then paths else []
  }

  /** Every path the second pass hashes, in the order it hashes them. */
  function Hashed(walk: seq<Stat>): seq<Path> {
    var bySize := HashesBySize(walk);
    Candidates(bySize, bySize.keys)
  }

  /** What the second pass appends to `duplicates` for `paths`: one
      `(digest, path)` pair for every path whose file could be read. */
  function HashItems(paths: seq<Path>, fs: FileReader, md5: Md5): seq<(Digest, Path)> {
    if paths == [] then []
    else
      var p := paths[|paths| - 1];
      var h := HashOf(p, fs, md5);
      HashItems(paths[..|paths| - 1], fs, md5) + if h.Some? then [(h.value, p)] else []
  }

  /** `duplicates` after the second pass. */
  function AllGroups(walk: seq<Stat>, fs: FileReader, md5: Md5): ListDict<Digest, Path> {
    GroupBy(HashItems(Hashed(walk), fs, md5))
  }

  /** `sub` lists some of the elements of `s`, in the order `s` lists them. */
  ghost predicate InOrderOf<T>(sub: seq<T>, s: seq<T>) {
    forall i, j :: 0 <= i < j < |sub| ==>
      exists a, b :: 0 <= a < b < |s| && s[a] == sub[i] && s[b] == sub[j]
  }

  /** The keys of `keys` whose list in `d` holds more than one path, in order. */
  function SharedKeys(d: ListDict<Digest, Path>, keys: seq<Digest>): (r: seq<Digest>)
    ensures forall h :: h in r <==> h in keys && |d.Get(h)| > 1
    ensures Distinct(keys) ==> Distinct(r)
  {
    if keys == [] then []
    else
      var h := keys[|keys| - 1];
      var init := keys[..|keys| - 1];
      assert forall g :: g in keys <==> g in init || g == h;
      SharedKeys(d, init) + if |d.Get(h)| > 1 then [h] else []
  }

  /** The dict comprehension of find_duplicates.py:54: the groups holding more than one
      path, in the same order and with the same lists. */
  function KeepDuplicates(d: ListDict<Digest, Path>): (r: ListDict<Digest, Path>)
    requires d.Valid()
    ensures r.Valid()
    ensures forall h :: h in r.lists <==> h in d.lists && |d.lists[h]| > 1
    ensures forall h :: h in r.lists ==> r.lists[h] == d.lists[h]
    ensures InOrderOf(r.keys, d.keys)
  {
    SharedKeysInOrder(d, d.keys);
    ListDict(SharedKeys(d, d.keys), map h | h in d.lists && |d.lists[h]| > 1 :: d.lists[h])
  }

  /** The kept keys come in the order of `keys`. */
  lemma {:induction false} SharedKeysInOrder(d: ListDict<Digest, Path>, keys: seq<Digest>)
    ensures InOrderOf(SharedKeys(d, keys), keys)
  {
    if keys != [] {
      var last := |keys| - 1;
      var init := keys[..last];
      var r := SharedKeys(d, keys);
      var r0 := SharedKeys(d, init);
      SharedKeysInOrder(d, init);
      assert r == r0 + if |d.Get(keys[last])| > 1 then [keys[last]] else [];
      forall i, j | 0 <= i < j < |r|
        ensures exists a, b :: 0 <= a < b < |keys| && keys[a] == r[i] && keys[b] == r[j]
      {
        if j < |r0| {
          var a, b :| 0 <= a < b < |init| && init[a] == r0[i] && init[b] == r0[j];
          assert keys[a] == r[i] && keys[b] == r[j];
        } else {
          assert r[i] in init by { assert r[i] == r0[i]; }
          var a :| 0 <= a < |init| && init[a] == r[i];
          assert keys[a] == r[i] && keys[last] == r[j];
        }
      }
    }
  }

  /** What `find_duplicates` returns for a walk. */
  function Duplicates(walk: seq<Stat>, fs: FileReader, md5: Md5): ListDict<Digest, Path> {
    KeepDuplicates(AllGroups(walk, fs, md5))
  }

  /** One more walked file appends its path under its size, if it has one. */
  lemma BySizeStep(walk: seq<Stat>, i: nat)
    requires i < |walk|
    ensures walk[i].size.None? ==> HashesBySize(walk[..i + 1]) == HashesBySize(walk[..i])
    ensures walk[i].size.Some? ==>
      HashesBySize(walk[..i + 1]) == HashesBySize(walk[..i]).Append(walk[i].size.value, walk[i].path)
  {
    assert walk[..i + 1][..i] == walk[..i];
    if walk[i].size.None? {
      assert SizeItems(walk[..i + 1]) == SizeItems(walk[..i]) + [];
      assert SizeItems(walk[..i + 1]) == SizeItems(walk[..i]);
    } else {
      GroupBySnoc(SizeItems(walk[..i]), walk[i].size.value, walk[i].path);
    }
  }

  /** Visiting one more size `k` adds its bucket when it holds more than one path. */
  lemma CandidatesSnoc(bySize: ListDict<nat, Path>, keys: seq<nat>, k: nat)
    ensures Candidates(bySize, keys + [k]) ==
      Candidates(bySize, keys) + if |bySize.Get(k)| > 1 then bySize.Get(k) else []
  {
    assert (keys + [k])[..|keys|] == keys;
  }

  /** `CandidatesSnoc` for the prefixes of `keys` that the second pass visits. */
  lemma CandidatesStep(bySize: ListDict<nat, Path>, keys: seq<nat>, k: nat)
    requires k < |keys|
    ensures Candidates(bySize, keys[..k + 1]) ==
      Candidates(bySize, keys[..k]) + if |bySize.Get(keys[k])| > 1 then bySize.Get(keys[k]) else []
  {
    assert keys[..k + 1] == keys[..k] + [keys[k]];
    CandidatesSnoc(bySize, keys[..k], keys[k]);
  }

  /** Hashing one more path appends it under its digest, if its file can be read. */
  lemma HashStep(paths: seq<Path>, p: Path, fs: FileReader, md5: Md5)
    ensures HashOf(p, fs, md5).None? ==>
      GroupBy(HashItems(paths + [p], fs, md5)) == GroupBy(HashItems(paths, fs, md5))
    ensures HashOf(p, fs, md5).Some? ==>
      GroupBy(HashItems(paths + [p], fs, md5)) == GroupBy(HashItems(paths, fs, md5)).Append(HashOf(p, fs, md5).value, p)
  {
    assert (paths + [p])[..|paths|] == paths;
    if HashOf(p, fs, md5).None? {
      assert HashItems(paths + [p], fs, md5) == HashItems(paths, fs, md5) + [];
      assert HashItems(paths + [p], fs, md5) == HashItems(paths, fs, md5);
    } else {
      GroupBySnoc(HashItems(paths, fs, md5), HashOf(p, fs, md5).value, p);
    }
  }

  /** Hashing one more path of a bucket extends the hashed prefix by it. */
  lemma TakeOneMore(prefix: seq<Path>, paths: seq<Path>, j: nat)
    requires j < |paths|
    ensures prefix + paths[..j] + [paths[j]] == prefix + paths[..j + 1]
  {
    assert paths[..j + 1] == paths[..j] + [paths[j]];
  }

  /** The first pass of `find_duplicates` (find_duplicates.py:31-40): it
      builds `hashes_by_size` from the walk. */
  method BucketBySize(walk: seq<Stat>) returns (hashesBySize: ListDict<nat, Path>)
    ensures hashesBySize == HashesBySize(walk)
  {
    hashesBySize := Empty();
    for i := 0 to |walk|
      invariant hashesBySize == HashesBySize(walk[..i])
    {
      BySizeStep(walk, i);
      match walk[i].size {
        case Some(fileSize) =>
          hashesBySize := hashesBySize.Append(fileSize, walk[i].path);
        case None =>
      }
    }
    assert walk[..|walk|] == walk;
  }

  /** The second pass of `find_duplicates` (find_duplicates.py:43-51): it
      hashes the files of every bucket holding more than one path and builds
      `duplicates`. The ghost result lists the paths hashed, in order. */
  method HashBuckets(hashesBySize: ListDict<nat, Path>, fs: FileReader, md5: Md5)
    returns (duplicates: ListDict<Digest, Path>, ghost hashed: seq<Path>)
    ensures hashed == Candidates(hashesBySize, hashesBySize.keys)
    ensures duplicates == GroupBy(HashItems(Candidates(hashesBySize, hashesBySize.keys), fs, md5))
  {
    duplicates := Empty();
    hashed := [];
    ghost var sizes := hashesBySize.keys;
    for k := 0 to |hashesBySize.keys|
      invariant hashed == Candidates(hashesBySize, sizes[..k])
      invariant duplicates == GroupBy(HashItems(hashed, fs, md5))
    {
      CandidatesStep(hashesBySize, sizes, k);
      var filePaths := hashesBySize.Get(hashesBySize.keys[k]);
      if |filePaths| > 1 {
        for j := 0 to |filePaths|
          invariant hashed == Candidates(hashesBySize, sizes[..k]) + filePaths[..j]
          invariant duplicates == GroupBy(HashItems(hashed, fs, md5))
        {
          TakeOneMore(Candidates(hashesBySize, sizes[..k]), filePaths, j);
          var fileHash, _ := HashFile(filePaths[j], fs, md5, DefaultBlockSize);
          HashStep(hashed, filePaths[j], fs, md5);
          match fileHash {
            case Some(h) =>
              duplicates := duplicates.Append(h, filePaths[j]);
            case None =>
          }
          hashed := hashed + [filePaths[j]];
        }
        assert filePaths[..|filePaths|] == filePaths;
      }
    }
    assert sizes[..|sizes|] == sizes;
  }

  /** `find_duplicates(directory)`, with the walk of `directory`, the file
      contents and MD5 given: the two passes, then the filter of
      find_duplicates.py:54. It returns what `Duplicates` describes, and it
      hashes exactly the paths `Hashed` lists, in that order. */
  method FindDuplicates(walk: seq<Stat>, fs: FileReader, md5: Md5)
    returns (actualDuplicates: ListDict<Digest, Path>, ghost hashed: seq<Path>)
    ensures actualDuplicates == Duplicates(walk, fs, md5)
    ensures hashed == Hashed(walk)
  {
    var hashesBySize := BucketBySize(walk);
    var duplicates;
    duplicates, hashed := HashBuckets(hashesBySize, fs, md5);
    actualDuplicates := KeepDuplicates(duplicates);
  }
}
