/**
 * The whole run: walk the tree, sort the candidates by size, bucket them by
 * size, group the bucketed records by digest, prune, and report the stats.
 */
module Dedup {
  import opened Wrappers
  import opened Records
  import opened Walk
  import opened SizeSort
  import opened SizeBuckets
  import opened Grouping

  /** A record that reaches a group came, unmarked and without a digest, from the walk. */
  lemma GroupMemberFromWalk(fs: seq<File>, sorted: seq<File>, dups: seq<File>, hash: string -> Option<string>,
                            h: string, f: File)
    requires multiset(sorted) == multiset(fs)
    requires forall g :: g in fs ==> !g.duplicate && g.crc32Hash == ""
    requires dups == Bucketed(sorted)
    requires h in HashGroups(dups, hash) && f in HashGroups(dups, hash)[h]
    ensures f.crc32Hash == h && f.duplicate && hash(f.path) == Some(h)
    ensures f.(duplicate := false, crc32Hash := "") in fs
  {
    GroupMembers(dups, hash, h, f);
    var k :| 0 <= k < |dups| && hash(dups[k].path) == Some(h) && f == dups[k].(crc32Hash := h);
    BucketedMembers(sorted, dups[k]);
    var j :| 0 <= j < |sorted| && HasTwin(sorted, j) && dups[k] == Mark(sorted[j]);
    assert sorted[j] in multiset(fs);
  }

  /** The same for every member of every group left after pruning. */
  lemma PrunedMembersFromWalk(root: Entry, minFileSize: int, sorted: seq<File>, dups: seq<File>,
                              hash: string -> Option<string>, hm: Groups)
    requires multiset(sorted) == multiset(Collected(root, minFileSize))
    requires dups == Bucketed(sorted)
    requires hm == Pruned(HashGroups(dups, hash))
    ensures forall h, f :: h in hm && f in hm[h] ==>
              f.crc32Hash == h && f.duplicate && hash(f.path) == Some(h) &&
              f.(duplicate := false, crc32Hash := "") in Collected(root, minFileSize)
  {
    CollectedFresh(root, minFileSize);
    forall h, f | h in hm && f in hm[h]
      ensures f.crc32Hash == h && f.duplicate && hash(f.path) == Some(h) &&
              f.(duplicate := false, crc32Hash := "") in Collected(root, minFileSize)
    {
      GroupMemberFromWalk(Collected(root, minFileSize), sorted, dups, hash, h, f);
    }
  }

  /** The records of the walk are unmarked and carry no digest. */
  lemma CollectedFresh(root: Entry, minFileSize: int)
    ensures forall g :: g in Collected(root, minFileSize) ==> !g.duplicate && g.crc32Hash == ""
  {
    forall g | g in Collected(root, minFileSize)
      ensures !g.duplicate && g.crc32Hash == ""
    {
      CollectedExactly(root, minFileSize, g);
    }
  }

  /** The walk stage: a fresh callback state, one walk of the tree. */
  method CollectCandidates(root: Entry, minFileSize: int) returns (seenFiles: nat, files: seq<File>)
    ensures seenFiles == Seen(root)
    ensures files == Collected(root, minFileSize)
  {
    var w := new Walker(minFileSize);
    w.Walk(root);
    seenFiles, files := w.seenFiles, w.files;
  }

  /**
   * The size stage: the candidates are sorted in place by descending size and
   * bucketed; `sorted` is the order the sort left them in.
   */
  method SortAndBucket(fs: seq<File>) returns (duplicateFiles: seq<File>, ghost sorted: seq<File>)
    requires forall g :: g in fs ==> !g.duplicate
    ensures multiset(sorted) == multiset(fs) && SortedBySizeDesc(sorted)
    ensures duplicateFiles == Bucketed(sorted)
  {
    var files := new File[|fs|](i requires 0 <= i < |fs| => fs[i]);
    assert files[..] == fs;
    SortBySizeDesc(files);
    sorted := files[..];
    forall k | 0 <= k < |sorted|
      ensures !sorted[k].duplicate
    {
      assert sorted[k] in multiset(fs);
    }
    duplicateFiles := MarkDuplicates(files);
  }

  /** The digest stage: hashing, grouping and pruning with the two sums. */
  method HashAndPrune(dups: seq<File>, hash: string -> Option<string>) returns (hm: Groups, duplicateFiles: nat, wastedSpace: int)
    ensures hm == Pruned(HashGroups(dups, hash))
    ensures duplicateFiles == SumOver(hm, GroupLen)
    ensures wastedSpace == SumOver(hm, Waste)
  {
    var hm0 := GroupByHash(dups, hash);
    GroupsNonEmpty(dups, hash);
    hm, duplicateFiles, wastedSpace := PruneGroups(hm0);
  }

  /**
   * One run over the tree `root`, with `hash` standing for the digest of a
   * path's contents (None when the file cannot be read). The groups are the
   * map that is printed as JSON.
   */
  method Dedup(root: Entry, minFileSize: int, hash: string -> Option<string>) returns (hm: Groups, stat: Stats)
    ensures stat.seenFiles == Seen(root)
    ensures stat.filteredFiles == |Collected(root, minFileSize)| <= stat.seenFiles
    ensures forall h :: h in hm ==> |hm[h]| >= 2
    ensures forall h, f :: h in hm && f in hm[h] ==>
              f.crc32Hash == h && f.duplicate && hash(f.path) == Some(h) &&
              f.(duplicate := false, crc32Hash := "") in Collected(root, minFileSize)
    ensures stat.duplicateFiles == SumOver(hm, GroupLen) <= stat.filteredFiles
    ensures stat.wastedSpace == SumOver(hm, Waste)
    ensures exists sorted :: multiset(sorted) == multiset(Collected(root, minFileSize)) && SortedBySizeDesc(sorted) &&
                             hm == Pruned(HashGroups(Bucketed(sorted), hash))
  {
    var seenFiles, files := CollectCandidates(root, minFileSize);
    CollectedAtMostSeen(root, minFileSize);
    CollectedFresh(root, minFileSize);
    var duplicateFiles, sorted := SortAndBucket(files);
    var dupCount, wasted;
    hm, dupCount, wasted := HashAndPrune(duplicateFiles, hash);
    PrunedAtLeastTwo(duplicateFiles, hash);
    PrunedMembersFromWalk(root, minFileSize, sorted, duplicateFiles, hash, hm);
    PrunedCountAtMostHashed(duplicateFiles, hash);
    BucketedAtMostAll(sorted);
    stat := Stats(seenFiles, |files|, dupCount, wasted);
  }

  /** When no two candidates share a size nothing is hashed, no group is reported and no space is wasted. */
  lemma DistinctSizesNoGroups(sorted: seq<File>, hash: string -> Option<string>)
    requires forall k :: 0 <= k < |sorted| ==> !HasTwin(sorted, k)
    ensures Bucketed(sorted) == []
    ensures Pruned(HashGroups(Bucketed(sorted), hash)) == map[]
    ensures SumOver(Pruned(HashGroups(Bucketed(sorted), hash)), GroupLen) == 0
    ensures SumOver(Pruned(HashGroups(Bucketed(sorted), hash)), Waste) == 0
  {
    if Bucketed(sorted) != [] {
      BucketedMembers(sorted, Bucketed(sorted)[0]);
      assert false;
    }
  }

  /** Bucketing three records of one size appends the two later ones, then the first. */
  lemma ThreeOfOneSizeBucketed(a: File, b: File, c: File)
    requires a.size == b.size == c.size
    ensures Bucketed([a, b, c]) == [Mark(b), Mark(c), Mark(a)]
  {
    var s := [a, b, c];
    assert IsFirst(s, 0);
    assert MatchIdx(s, 0, 3) == [1, 2];
    assert !IsFirst(s, 1) && !IsFirst(s, 2);
    assert RoundIdx(s, 0) == [1, 2, 0] && RoundIdx(s, 1) == [] && RoundIdx(s, 2) == [];
    assert BucketIdx(s, 1) == [1, 2, 0];
    assert BucketIdx(s, 2) == [1, 2, 0];
    assert BucketIdx(s, 3) == [1, 2, 0];
  }

  /** Hashing three records where the first and last hash alike. */
  lemma ThreeHashedTwoEqual(x: File, y: File, z: File, hash: string -> Option<string>, h: string, h': string)
    requires hash(x.path) == Some(h) && hash(y.path) == Some(h') && hash(z.path) == Some(h) && h != h'
    ensures HashGroups([x, y, z], hash) == map[h := [x.(crc32Hash := h), z.(crc32Hash := h)], h' := [y.(crc32Hash := h')]]
  {
    var x', y', z' := x.(crc32Hash := h), y.(crc32Hash := h'), z.(crc32Hash := h);
    HashGroupsAppend([], x, hash);
    assert [] + [x] == [x] && [] + [x'] == [x'];
    assert HashGroups([x], hash) == map[h := [x']];
    HashGroupsAppend([x], y, hash);
    assert [x] + [y] == [x, y] && [] + [y'] == [y'];
    assert HashGroups([x, y], hash) == map[h := [x'], h' := [y']];
    HashGroupsAppend([x, y], z, hash);
    assert [x, y] + [z] == [x, y, z] && [x'] + [z'] == [x', z'];
    assert HashGroups([x, y, z], hash) == map[h := [x'], h' := [y']][h := [x', z']];
  }

  /**
   * Three candidates of one size, two with the same contents: one group of
   * the two is reported, the third is in no group, and the space wasted is
   * one file's size.
   */
  lemma ThreeOfOneSizeTwoEqual()
    ensures Pruned(HashGroups(Bucketed([File("/a", 100, false, ""), File("/b", 100, false, ""), File("/c", 100, false, "")]),
                              p => if p == "/c" then Some("y") else Some("x")))
            == map["x" := [File("/b", 100, true, "x"), File("/a", 100, true, "x")]]
    ensures SumOver(map["x" := [File("/b", 100, true, "x"), File("/a", 100, true, "x")]], Waste) == 100
  {
    var a, b, c := File("/a", 100, false, ""), File("/b", 100, false, ""), File("/c", 100, false, "");
    var hash: string -> Option<string> := p => if p == "/c" then Some("y") else Some("x");
    ThreeOfOneSizeBucketed(a, b, c);
    ThreeHashedTwoEqual(Mark(b), Mark(c), Mark(a), hash, "x", "y");
    var g := [File("/b", 100, true, "x"), File("/a", 100, true, "x")];
    var m := map["x" := g, "y" := [File("/c", 100, true, "y")]];
    assert Pruned(m) == map["x" := g];
    SumOverInsert(map[], "x", g, Waste);
    assert map[]["x" := g] == map["x" := g];
  }
}
