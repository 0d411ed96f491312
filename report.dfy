/** The counting `main` does over the result of `find_duplicates`
    (find_duplicates.py:76-82); its printing and report file are left out. */
module Report {
  import opened FileSystem
  import opened ListDicts
  import opened DuplicateFinder

  /** The number of paths the groups under `keys` list together. */
  function PathCount(groups: ListDict<Digest, Path>, keys: seq<Digest>): nat {
    if keys == [] then 0
    else PathCount(groups, keys[..|keys| - 1]) + |groups.Get(keys[|keys| - 1])|
  }

  /** The extra copies: every path of a group beyond the one it keeps. */
  function ExtraCopies(groups: ListDict<Digest, Path>, keys: seq<Digest>): int {
    if keys == [] then 0
    else ExtraCopies(groups, keys[..|keys| - 1]) + (|groups.Get(keys[|keys| - 1])| - 1)
  }

  /** The loop of `main` that adds up `len(file_paths) - 1` over the groups:
      its total is the number of reported paths less the number of groups. */
  method CountExtraCopies(groups: ListDict<Digest, Path>) returns (total: int)
    ensures total == ExtraCopies(groups, groups.keys)
    ensures total == PathCount(groups, groups.keys) - |groups.keys|
  {
    total := 0;
    for i := 0 to |groups.keys|
      invariant total == ExtraCopies(groups, groups.keys[..i])
      invariant total == PathCount(groups, groups.keys[..i]) - i
    {
      assert groups.keys[..i + 1][..i] == groups.keys[..i];
      total := total + (|groups.Get(groups.keys[i])| - 1);
    }
    assert groups.keys[..|groups.keys|] == groups.keys;
  }

  /** When every group under `keys` holds two paths or more, there are at
      least as many extra copies as groups. */
  lemma {:induction false} ExtraCopiesAtLeastGroups(groups: ListDict<Digest, Path>, keys: seq<Digest>)
    requires forall i :: 0 <= i < |keys| ==> |groups.Get(keys[i])| >= 2
    ensures ExtraCopies(groups, keys) >= |keys|
  {
    if keys != [] {
      var init := keys[..|keys| - 1];
      assert forall i :: 0 <= i < |init| ==> init[i] == keys[i];
      ExtraCopiesAtLeastGroups(groups, init);
    }
  }

  /** For the result of `find_duplicates`, the "extra copies" total that
      `main` prints is at least the number of duplicate sets it prints. */
  lemma ReportedExtraCopies(walk: seq<Stat>, fs: FileReader, md5: Md5)
    ensures ExtraCopies(Duplicates(walk, fs, md5), Duplicates(walk, fs, md5).keys) >= |Duplicates(walk, fs, md5).keys|
  {
    var r := Duplicates(walk, fs, md5);
    forall i | 0 <= i < |r.keys|
      ensures |r.Get(r.keys[i])| >= 2
    {
      assert r.keys[i] in r.lists;
    }
    ExtraCopiesAtLeastGroups(r, r.keys);
  }
}
