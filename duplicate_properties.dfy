/** What `find_duplicates` promises about its result, proved of `Duplicates`
    (which `FindDuplicates` is proved to return): which paths are hashed,
    which paths are reported and under which digest, that every reported
    group holds two paths or more, that no path is reported twice, and in
    which order a group lists its paths. */
module DuplicateProperties {
  import opened FileSystem
  import opened ListDicts
  import opened HashFiles
  import opened DuplicateFinder

  /** The paths of the walked files of size `n`, in walk order. */
  function PathsOfSize(walk: seq<Stat>, n: nat): seq<Path> {
    if walk == [] then []
    else
      var e := walk[|walk| - 1];
      PathsOfSize(walk[..|walk| - 1], n) + if e.size == Some(n) then [e.path] else []
  }

  /** The paths of `paths` whose files can be read and have digest `h`, in order. */
  function WithHash(paths: seq<Path>, fs: FileReader, md5: Md5, h: Digest): seq<Path> {
    if paths == [] then []
    else
      var p := paths[|paths| - 1];
      WithHash(paths[..|paths| - 1], fs, md5, h) + if HashOf(p, fs, md5) == Some(h) then [p] else []
  }

  /** The walk yields `p` with a size that another walked file also has. */
  ghost predicate SizeShared(walk: seq<Stat>, p: Path) {
    exists i, j :: 0 <= i < |walk| && 0 <= j < |walk| && i != j &&
      walk[i].path == p && walk[i].size.Some? && walk[j].size == walk[i].size
  }

  // ---------------------------------------------------------------------
  // The first pass

  /** The bucket of size `n` lists the paths of the files of size `n`, in walk order. */
  lemma {:induction false} BucketContents(walk: seq<Stat>, n: nat)
    ensures HashesBySize(walk).Get(n) == PathsOfSize(walk, n)
  {
    if walk != [] {
      var i := |walk| - 1;
      assert walk[..i + 1] == walk;
      BySizeStep(walk, i);
      BucketContents(walk[..i], n);
    }
  }

  /** A path is in the bucket of size `n` exactly when the walk yields it with size `n`. */
  lemma {:induction false} PathsOfSizeMember(walk: seq<Stat>, n: nat, p: Path)
    ensures p in PathsOfSize(walk, n) <==>
      exists i :: 0 <= i < |walk| && walk[i].path == p && walk[i].size == Some(n)
  {
    if walk != [] {
      var init := walk[..|walk| - 1];
      PathsOfSizeMember(init, n, p);
      if p in PathsOfSize(init, n) {
        var i :| 0 <= i < |init| && init[i].path == p && init[i].size == Some(n);
        assert walk[i] == init[i];
      }
      if exists i :: 0 <= i < |walk| && walk[i].path == p && walk[i].size == Some(n) {
        var i :| 0 <= i < |walk| && walk[i].path == p && walk[i].size == Some(n);
        if i < |init| {
          assert init[i] == walk[i];
        }
      }
    }
  }

  /** The bucket of size `n` is non-empty exactly when some walked file has size `n`. */
  lemma {:induction false} BucketHasOne(walk: seq<Stat>, n: nat)
    ensures |PathsOfSize(walk, n)| >= 1 <==>
      exists i :: 0 <= i < |walk| && walk[i].size == Some(n)
  {
    if walk != [] {
      var m := |walk| - 1;
      var init := walk[..m];
      BucketHasOne(init, n);
      if exists i :: 0 <= i < |init| && init[i].size == Some(n) {
        var i :| 0 <= i < |init| && init[i].size == Some(n);
        assert walk[i] == init[i];
      }
      if walk[m].size != Some(n) && exists i :: 0 <= i < |walk| && walk[i].size == Some(n) {
        var i :| 0 <= i < |walk| && walk[i].size == Some(n);
        assert init[i] == walk[i];
      }
    }
  }

  /** When the last walked file has size `n`, two files have size `n` exactly
      when one of the files before it does. */
  lemma PairEndingAtLast(walk: seq<Stat>, n: nat)
    requires walk != [] && walk[|walk| - 1].size == Some(n)
    ensures (exists i, j :: 0 <= i < j < |walk| && walk[i].size == Some(n) && walk[j].size == Some(n)) <==>
      exists i :: 0 <= i < |walk| - 1 && walk[i].size == Some(n)
  {
    if exists i :: 0 <= i < |walk| - 1 && walk[i].size == Some(n) {
      var i :| 0 <= i < |walk| - 1 && walk[i].size == Some(n);
      assert 0 <= i < |walk| - 1 < |walk| && walk[i].size == Some(n) && walk[|walk| - 1].size == Some(n);
    }
  }

  /** When the last walked file has another size, the pairs of files of size
      `n` are those before it. */
  lemma PairBeforeLast(walk: seq<Stat>, n: nat)
    requires walk != [] && walk[|walk| - 1].size != Some(n)
    ensures (exists i, j :: 0 <= i < j < |walk| && walk[i].size == Some(n) && walk[j].size == Some(n)) <==>
      exists i, j :: 0 <= i < j < |walk| - 1 && walk[i].size == Some(n) && walk[j].size == Some(n)
  {
  }

  /** The bucket of size `n` holds two paths or more exactly when two walked
      files have size `n`. */
  lemma {:induction false} BucketHasTwo(walk: seq<Stat>, n: nat)
    ensures |PathsOfSize(walk, n)| >= 2 <==>
      exists i, j :: 0 <= i < j < |walk| && walk[i].size == Some(n) && walk[j].size == Some(n)
  {
    if walk != [] {
      var m := |walk| - 1;
      var init := walk[..m];
      BucketHasTwo(init, n);
      assert forall i :: 0 <= i < m ==> init[i] == walk[i];
      if walk[m].size == Some(n) {
        assert |PathsOfSize(walk, n)| == |PathsOfSize(init, n)| + 1;
        BucketHasOne(init, n);
        PairEndingAtLast(walk, n);
      } else {
        assert |PathsOfSize(walk, n)| == |PathsOfSize(init, n)|;
        PairBeforeLast(walk, n);
      }
    }
  }

  // ---------------------------------------------------------------------
  // The second pass

  /** A path is among the candidates exactly when it is in a bucket, visited
      in `keys`, that holds more than one path. */
  lemma {:induction false} CandidatesMember(bySize: ListDict<nat, Path>, keys: seq<nat>, p: Path)
    ensures p in Candidates(bySize, keys) <==>
      exists m :: 0 <= m < |keys| && |bySize.Get(keys[m])| > 1 && p in bySize.Get(keys[m])
  {
    if keys != [] {
      var last := |keys| - 1;
      var init := keys[..last];
      assert keys[..last + 1] == keys;
      CandidatesStep(bySize, keys, last);
      CandidatesMember(bySize, init, p);
      if exists m :: 0 <= m < |init| && |bySize.Get(init[m])| > 1 && p in bySize.Get(init[m]) {
        var m :| 0 <= m < |init| && |bySize.Get(init[m])| > 1 && p in bySize.Get(init[m]);
        assert keys[m] == init[m];
      }
      if exists m :: 0 <= m < |keys| && |bySize.Get(keys[m])| > 1 && p in bySize.Get(keys[m]) {
        var m :| 0 <= m < |keys| && |bySize.Get(keys[m])| > 1 && p in bySize.Get(keys[m]);
        if m < last {
          assert init[m] == keys[m];
        }
      }
    }
  }

  /** Visiting the sizes `a` and then `b` hashes the candidates of `a` and then those of `b`. */
  lemma {:induction false} CandidatesConcat(bySize: ListDict<nat, Path>, a: seq<nat>, b: seq<nat>)
    ensures Candidates(bySize, a + b) == Candidates(bySize, a) + Candidates(bySize, b)
  {
    if b == [] {
      assert a + b == a;
    } else {
      var init := b[..|b| - 1];
      var k := b[|b| - 1];
      assert a + b == (a + init) + [k];
      assert b == init + [k];
      CandidatesSnoc(bySize, a + init, k);
      CandidatesSnoc(bySize, init, k);
      CandidatesConcat(bySize, a, init);
    }
  }

  /** A path is hashed exactly when the walk yields it with a size that
      another walked file also has: a file whose size no other file shares is
      never hashed. */
  lemma HashedMember(walk: seq<Stat>, p: Path)
    ensures p in Hashed(walk) <==> SizeShared(walk, p)
  {
    var bySize := HashesBySize(walk);
    CandidatesMember(bySize, bySize.keys, p);
    if p in Hashed(walk) {
      var m :| 0 <= m < |bySize.keys| && |bySize.Get(bySize.keys[m])| > 1 && p in bySize.Get(bySize.keys[m]);
      var n := bySize.keys[m];
      BucketContents(walk, n);
      PathsOfSizeMember(walk, n, p);
      BucketHasTwo(walk, n);
      var i :| 0 <= i < |walk| && walk[i].path == p && walk[i].size == Some(n);
      var a, b :| 0 <= a < b < |walk| && walk[a].size == Some(n) && walk[b].size == Some(n);
      var j := if a != i then a else b;
      assert i != j && walk[j].size == walk[i].size;
    }
    if SizeShared(walk, p) {
      var i, j :| 0 <= i < |walk| && 0 <= j < |walk| && i != j &&
        walk[i].path == p && walk[i].size.Some? && walk[j].size == walk[i].size;
      var n := walk[i].size.value;
      BucketHasTwo(walk, n);
      if i < j {
        assert walk[i].size == Some(n) && walk[j].size == Some(n);
      } else {
        assert walk[j].size == Some(n) && walk[i].size == Some(n);
      }
      BucketContents(walk, n);
      PathsOfSizeMember(walk, n, p);
      assert n in bySize.lists;
      var m :| 0 <= m < |bySize.keys| && bySize.keys[m] == n;
    }
  }

  /** The group of digest `h` that the second pass builds lists the hashed
      paths whose files have digest `h`, in the order they were hashed. */
  lemma {:induction false} GroupContents(paths: seq<Path>, fs: FileReader, md5: Md5, h: Digest)
    ensures GroupBy(HashItems(paths, fs, md5)).Get(h) == WithHash(paths, fs, md5, h)
  {
    if paths != [] {
      var init := paths[..|paths| - 1];
      var p := paths[|paths| - 1];
      assert paths == init + [p];
      HashStep(init, p, fs, md5);
      GroupContents(init, fs, md5, h);
    }
  }

  /** A path is in the group of `h` exactly when it is hashed and its digest is `h`. */
  lemma {:induction false} WithHashMember(paths: seq<Path>, fs: FileReader, md5: Md5, h: Digest, p: Path)
    ensures p in WithHash(paths, fs, md5, h) <==> p in paths && HashOf(p, fs, md5) == Some(h)
  {
    if paths != [] {
      var init := paths[..|paths| - 1];
      assert paths == init + [paths[|paths| - 1]];
      WithHashMember(init, fs, md5, h, p);
    }
  }

  /** Selecting by digest commutes with joining paths. */
  lemma {:induction false} WithHashConcat(a: seq<Path>, b: seq<Path>, fs: FileReader, md5: Md5, h: Digest)
    ensures WithHash(a + b, fs, md5, h) == WithHash(a, fs, md5, h) + WithHash(b, fs, md5, h)
  {
    if b == [] {
      assert a + b == a;
    } else {
      var init := b[..|b| - 1];
      assert (a + b)[..|a + b| - 1] == a + init;
      WithHashConcat(a, init, fs, md5, h);
    }
  }

  /** Within the paths hashed under `h`, the bucket of a size `n` that was
      hashed appears as one run: its paths with digest `h`, in walk order. */
  lemma BucketRun(walk: seq<Stat>, fs: FileReader, md5: Md5, n: nat, h: Digest)
    returns (before: seq<Path>, after: seq<Path>)
    requires |PathsOfSize(walk, n)| >= 2
    ensures WithHash(Hashed(walk), fs, md5, h) ==
      before + WithHash(PathsOfSize(walk, n), fs, md5, h) + after
    ensures DistinctPaths(walk) ==> forall q :: q in before + after ==> q !in PathsOfSize(walk, n)
  {
    var bySize := HashesBySize(walk);
    var keys := bySize.keys;
    BucketContents(walk, n);
    assert n in bySize.lists;
    var m :| 0 <= m < |keys| && keys[m] == n;
    assert keys == keys[..m + 1] + keys[m + 1..];
    CandidatesConcat(bySize, keys[..m + 1], keys[m + 1..]);
    CandidatesStep(bySize, keys, m);
    var pre := Candidates(bySize, keys[..m]);
    var post := Candidates(bySize, keys[m + 1..]);
    assert Hashed(walk) == pre + PathsOfSize(walk, n) + post;
    WithHashConcat(pre + PathsOfSize(walk, n), post, fs, md5, h);
    WithHashConcat(pre, PathsOfSize(walk, n), fs, md5, h);
    before, after := WithHash(pre, fs, md5, h), WithHash(post, fs, md5, h);
    if DistinctPaths(walk) {
      assert n !in keys[..m] && n !in keys[m + 1..] by {
        assert Distinct(keys);
      }
      forall q | q in before + after
        ensures q !in PathsOfSize(walk, n)
      {
        if q in before {
          WithHashMember(pre, fs, md5, h, q);
          OutsideBucket(walk, keys[..m], n, q);
        } else {
          WithHashMember(post, fs, md5, h, q);
          OutsideBucket(walk, keys[m + 1..], n, q);
        }
      }
    }
  }

  /** With distinct walked paths, a path hashed while visiting sizes other
      than `n` is not in the bucket of size `n`. */
  lemma OutsideBucket(walk: seq<Stat>, sizes: seq<nat>, n: nat, q: Path)
    requires DistinctPaths(walk)
    requires n !in sizes && q in Candidates(HashesBySize(walk), sizes)
    ensures q !in PathsOfSize(walk, n)
  {
    var bySize := HashesBySize(walk);
    CandidatesMember(bySize, sizes, q);
    var m :| 0 <= m < |sizes| && |bySize.Get(sizes[m])| > 1 && q in bySize.Get(sizes[m]);
    BucketContents(walk, sizes[m]);
    BucketsDisjoint(walk, sizes[m], n, q);
  }

  /** Two walked files of size `n` and digest `h` both appear, at two
      different places, among the paths of size `n` with digest `h`. */
  lemma {:induction false} TwoInBucket(walk: seq<Stat>, fs: FileReader, md5: Md5, n: nat, h: Digest, i: nat, j: nat)
    requires i < j < |walk|
    requires walk[i].size == Some(n) && walk[j].size == Some(n)
    requires HashOf(walk[i].path, fs, md5) == Some(h) && HashOf(walk[j].path, fs, md5) == Some(h)
    ensures |WithHash(PathsOfSize(walk, n), fs, md5, h)| >= 2
    ensures walk[i].path in WithHash(PathsOfSize(walk, n), fs, md5, h)
    ensures walk[j].path in WithHash(PathsOfSize(walk, n), fs, md5, h)
  {
    var m := |walk| - 1;
    var init := walk[..m];
    var tail := if walk[m].size == Some(n) then [walk[m].path] else [];
    assert PathsOfSize(walk, n) == PathsOfSize(init, n) + tail;
    WithHashConcat(PathsOfSize(init, n), tail, fs, md5, h);
    assert init[i] == walk[i];
    if j < m {
      assert init[j] == walk[j];
      TwoInBucket(init, fs, md5, n, h, i, j);
    } else {
      PathsOfSizeMember(init, n, walk[i].path);
      WithHashMember(PathsOfSize(init, n), fs, md5, h, walk[i].path);
      assert WithHash(tail, fs, md5, h) == [walk[j].path] by {
        assert tail == [walk[j].path];
        assert tail[..0] == [];
      }
    }
  }

  // ---------------------------------------------------------------------
  // The result

  /** Every group in the result holds at least two paths. */
  lemma GroupsHaveTwoOrMore(walk: seq<Stat>, fs: FileReader, md5: Md5)
    ensures forall h :: h in Duplicates(walk, fs, md5).lists ==> |Duplicates(walk, fs, md5).lists[h]| >= 2
  {
  }

  /** An empty walk gives an empty result. */
  lemma EmptyWalk(fs: FileReader, md5: Md5)
    ensures Duplicates([], fs, md5).keys == [] && Duplicates([], fs, md5).lists == map[]
  {
  }

  /** Every reported path was hashed successfully, its digest is the key of
      its group, and the walk yielded it with a size that another walked file
      shares. */
  lemma Soundness(walk: seq<Stat>, fs: FileReader, md5: Md5, h: Digest, p: Path)
    requires h in Duplicates(walk, fs, md5).lists && p in Duplicates(walk, fs, md5).lists[h]
    ensures fs(p).Some? && md5(fs(p).value) == h
    ensures SizeShared(walk, p)
  {
    GroupContents(Hashed(walk), fs, md5, h);
    WithHashMember(Hashed(walk), fs, md5, h, p);
    HashedMember(walk, p);
  }

  /** Any two walked files of the same size whose contents hash alike are
      both reported, in the same group. */
  lemma Completeness(walk: seq<Stat>, fs: FileReader, md5: Md5, i: nat, j: nat)
    requires i < |walk| && j < |walk| && i != j
    requires walk[i].size.Some? && walk[j].size == walk[i].size
    requires fs(walk[i].path).Some? && fs(walk[j].path).Some?
    requires md5(fs(walk[i].path).value) == md5(fs(walk[j].path).value)
    ensures md5(fs(walk[i].path).value) in Duplicates(walk, fs, md5).lists
    ensures walk[i].path in Duplicates(walk, fs, md5).lists[md5(fs(walk[i].path).value)]
    ensures walk[j].path in Duplicates(walk, fs, md5).lists[md5(fs(walk[i].path).value)]
  {
    var h := md5(fs(walk[i].path).value);
    var n := walk[i].size.value;
    var a, b := if i < j then i else j, if i < j then j else i;
    TwoInBucket(walk, fs, md5, n, h, a, b);
    BucketHasTwo(walk, n);
    var bucket := WithHash(PathsOfSize(walk, n), fs, md5, h);
    var before, after := BucketRun(walk, fs, md5, n, h);
    GroupContents(Hashed(walk), fs, md5, h);
    var all := AllGroups(walk, fs, md5);
    assert all.Get(h) == before + bucket + after;
    assert h in all.lists;
  }

  /** A walked file whose size no other walked file has is never hashed and
      never reported. */
  lemma UniqueSizeNeverHashed(walk: seq<Stat>, fs: FileReader, md5: Md5, i: nat)
    requires DistinctPaths(walk)
    requires i < |walk|
    requires forall j :: 0 <= j < |walk| && j != i ==> walk[j].size != walk[i].size
    ensures walk[i].path !in Hashed(walk)
    ensures forall h :: h in Duplicates(walk, fs, md5).lists ==> walk[i].path !in Duplicates(walk, fs, md5).lists[h]
  {
    HashedMember(walk, walk[i].path);
    forall h | h in Duplicates(walk, fs, md5).lists
      ensures walk[i].path !in Duplicates(walk, fs, md5).lists[h]
    {
      if walk[i].path in Duplicates(walk, fs, md5).lists[h] {
        Soundness(walk, fs, md5, h, walk[i].path);
      }
    }
  }

  /** A path is reported under one digest at most. */
  lemma OneGroupPerPath(walk: seq<Stat>, fs: FileReader, md5: Md5, h1: Digest, h2: Digest, p: Path)
    requires h1 in Duplicates(walk, fs, md5).lists && p in Duplicates(walk, fs, md5).lists[h1]
    requires h2 in Duplicates(walk, fs, md5).lists && p in Duplicates(walk, fs, md5).lists[h2]
    ensures h1 == h2
  {
    Soundness(walk, fs, md5, h1, p);
    Soundness(walk, fs, md5, h2, p);
  }

  lemma DistinctConcat(a: seq<Path>, b: seq<Path>)
    requires Distinct(a) && Distinct(b)
    requires forall p :: p in a ==> p !in b
    ensures Distinct(a + b)
  {
    forall i, j | 0 <= i < j < |a + b|
      ensures (a + b)[i] != (a + b)[j]
    {
      if j < |a| {
        assert (a + b)[i] == a[i] && (a + b)[j] == a[j];
      } else if i >= |a| {
        assert (a + b)[i] == b[i - |a|] && (a + b)[j] == b[j - |a|];
      } else {
        assert (a + b)[i] == a[i] && (a + b)[j] == b[j - |a|];
        assert a[i] in a;
      }
    }
  }

  /** Paths of distinct walked files, selected by size, stay distinct. */
  lemma {:induction false} PathsOfSizeDistinct(walk: seq<Stat>, n: nat)
    requires DistinctPaths(walk)
    ensures Distinct(PathsOfSize(walk, n))
  {
    if walk != [] {
      var m := |walk| - 1;
      var init := walk[..m];
      PathsOfSizeDistinct(init, n);
      forall i | 0 <= i < |init|
        ensures init[i].path != walk[m].path
      {
        assert init[i] == walk[i];
      }
      PathsOfSizeMember(init, n, walk[m].path);
    }
  }

  /** When the walk yields distinct paths, the buckets of two sizes share no path. */
  lemma BucketsDisjoint(walk: seq<Stat>, n1: nat, n2: nat, p: Path)
    requires DistinctPaths(walk)
    requires n1 != n2 && p in PathsOfSize(walk, n1)
    ensures p !in PathsOfSize(walk, n2)
  {
    PathsOfSizeMember(walk, n1, p);
    var a :| 0 <= a < |walk| && walk[a].path == p && walk[a].size == Some(n1);
    forall b | 0 <= b < |walk| && walk[b].path == p
      ensures walk[b].size != Some(n2)
    {
      assert b == a;
    }
    PathsOfSizeMember(walk, n2, p);
  }

  /** Paths selected by digest from distinct paths stay distinct. */
  lemma {:induction false} WithHashDistinct(paths: seq<Path>, fs: FileReader, md5: Md5, h: Digest)
    requires Distinct(paths)
    ensures Distinct(WithHash(paths, fs, md5, h))
  {
    if paths != [] {
      var init := paths[..|paths| - 1];
      var p := paths[|paths| - 1];
      WithHashDistinct(init, fs, md5, h);
      WithHashMember(init, fs, md5, h, p);
    }
  }

  /** When the walk yields distinct paths, the second pass hashes each path once. */
  lemma {:induction false} CandidatesDistinct(walk: seq<Stat>, keys: seq<nat>)
    requires DistinctPaths(walk) && Distinct(keys)
    ensures Distinct(Candidates(HashesBySize(walk), keys))
  {
    var bySize := HashesBySize(walk);
    if keys != [] {
      var last := |keys| - 1;
      var init := keys[..last];
      var n := keys[last];
      assert keys[..last + 1] == keys;
      CandidatesStep(bySize, keys, last);
      CandidatesDistinct(walk, init);
      BucketContents(walk, n);
      PathsOfSizeDistinct(walk, n);
      forall p | p in Candidates(bySize, init)
        ensures p !in PathsOfSize(walk, n)
      {
        CandidatesMember(bySize, init, p);
        var m :| 0 <= m < |init| && |bySize.Get(init[m])| > 1 && p in bySize.Get(init[m]);
        assert init[m] == keys[m];
        BucketContents(walk, init[m]);
        BucketsDisjoint(walk, init[m], n, p);
      }
      DistinctConcat(Candidates(bySize, init), if |bySize.Get(n)| > 1 then bySize.Get(n) else []);
    }
  }

  /** When the walk yields distinct paths, no group lists a path twice. */
  lemma NoPathTwiceInGroup(walk: seq<Stat>, fs: FileReader, md5: Md5, h: Digest)
    requires DistinctPaths(walk)
    requires h in Duplicates(walk, fs, md5).lists
    ensures Distinct(Duplicates(walk, fs, md5).lists[h])
  {
    var bySize := HashesBySize(walk);
    CandidatesDistinct(walk, bySize.keys);
    WithHashDistinct(Hashed(walk), fs, md5, h);
    GroupContents(Hashed(walk), fs, md5, h);
  }

  /** Within a reported group, the paths of one size form a single run and
      keep the order in which the walk yielded them. */
  lemma GroupKeepsWalkOrder(walk: seq<Stat>, fs: FileReader, md5: Md5, h: Digest, n: nat)
    returns (before: seq<Path>, after: seq<Path>)
    requires h in Duplicates(walk, fs, md5).lists
    requires |PathsOfSize(walk, n)| >= 2
    ensures Duplicates(walk, fs, md5).lists[h] == before + WithHash(PathsOfSize(walk, n), fs, md5, h) + after
    ensures DistinctPaths(walk) ==> forall q :: q in before + after ==> q !in PathsOfSize(walk, n)
  {
    before, after := BucketRun(walk, fs, md5, n, h);
    GroupContents(Hashed(walk), fs, md5, h);
  }

  /** If MD5 never collides and every file's content is as long as the size
      the walk read for it, the paths of one group all have the same size. */
  lemma SameSizeWhenMd5Injective(walk: seq<Stat>, fs: FileReader, md5: Md5, h: Digest, i: nat, j: nat)
    requires forall a, b :: md5(a) == md5(b) ==> a == b
    requires forall k :: 0 <= k < |walk| && walk[k].size.Some? && fs(walk[k].path).Some? ==>
      |fs(walk[k].path).value| == walk[k].size.value
    requires h in Duplicates(walk, fs, md5).lists
    requires i < |walk| && j < |walk| && walk[i].size.Some? && walk[j].size.Some?
    requires walk[i].path in Duplicates(walk, fs, md5).lists[h]
    requires walk[j].path in Duplicates(walk, fs, md5).lists[h]
    ensures walk[i].size == walk[j].size
  {
    Soundness(walk, fs, md5, h, walk[i].path);
    Soundness(walk, fs, md5, h, walk[j].path);
  }

  /** Without that assumption a group can mix sizes: with an MD5 that maps
      everything to one digest, two files of one byte and two of two bytes
      all land in one group, although all four contents differ. */
  lemma SizesMixWhenMd5Collides(fs: FileReader, md5: Md5)
    requires fs("a") == Some([1]) && fs("b") == Some([2])
    requires fs("c") == Some([1, 2]) && fs("d") == Some([3, 4])
    requires forall c :: md5(c) == md5([])
    ensures var walk := [Stat("a", Some(1)), Stat("b", Some(1)), Stat("c", Some(2)), Stat("d", Some(2))];
      && md5([]) in Duplicates(walk, fs, md5).lists
      && "a" in Duplicates(walk, fs, md5).lists[md5([])]
      && "c" in Duplicates(walk, fs, md5).lists[md5([])]
  {
    var walk := [Stat("a", Some(1)), Stat("b", Some(1)), Stat("c", Some(2)), Stat("d", Some(2))];
    Completeness(walk, fs, md5, 0, 1);
    Completeness(walk, fs, md5, 2, 3);
  }
}
