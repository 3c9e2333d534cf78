/**
 * The second stage: every record of the bucketing's working list is hashed
 * and appended, with its digest recorded, to the group of that digest; a
 * record whose hash fails is dropped. Then every group of one record is
 * deleted while the sizes of the others and their wasted space are summed.
 * Groups are formed on digest equality alone: their members' sizes are not
 * compared again, and the waste of a group is reckoned from its first member.
 */
module Grouping {
  import opened Wrappers
  import opened Records

  /** Digest to the records that have it, in hashing order. */
  type Groups = map<string, seq<File>>

  /** The groups the hashing loop builds over `dup`; `hash` gives a path's digest, or None when it cannot be read. */
  function HashGroups(dup: seq<File>, hash: string -> Option<string>): Groups
    decreases |dup|
  {
    if dup == [] then map[]
    else
      var m := HashGroups(dup[..|dup| - 1], hash);
      var f := dup[|dup| - 1];
      match hash(f.path)
      case None => m
      case Some(h) => m[h := (if h in m then m[h] else []) + [f.(crc32Hash := h)]]
  }

  /** The records of `dup` whose digest is `h`, in order, with the digest recorded. */
  function HashedAs(dup: seq<File>, hash: string -> Option<string>, h: string): seq<File>
    decreases |dup|
  {
    if dup == [] then []
    else
      var f := dup[|dup| - 1];
      HashedAs(dup[..|dup| - 1], hash, h) + (if hash(f.path) == Some(h) then [f.(crc32Hash := h)] else [])
  }

  /** The number of records of `dup` whose hash succeeds. */
  function CountHashed(dup: seq<File>, hash: string -> Option<string>): (r: nat)
    ensures r <= |dup|
    decreases |dup|
  {
    if dup == [] then 0
    else CountHashed(dup[..|dup| - 1], hash) + (if hash(dup[|dup| - 1].path).Some? then 1 else 0)
  }

  /** The hashing loop. */
  method GroupByHash(dup: seq<File>, hash: string -> Option<string>) returns (hm: Groups)
    ensures hm == HashGroups(dup, hash)
  {
    hm := map[];
    for index := 0 to |dup|
      invariant hm == HashGroups(dup[..index], hash)
    {
      assert dup[..index + 1][..index] == dup[..index];
      var f := dup[index];
      var r := hash(f.path);
      if r.None? {
        continue;
      }
      var h := r.value;
      f := f.(crc32Hash := h);
      var val := if h in hm then hm[h] else [];
      val := val + [f];
      hm := hm[h := val];
    }
    assert dup[..|dup|] == dup;
  }

  /** One more record: `f` is appended to the group of its digest, or dropped when its hash fails. */
  lemma HashGroupsAppend(dup: seq<File>, f: File, hash: string -> Option<string>)
    ensures HashGroups(dup + [f], hash) ==
            match hash(f.path)
            case None => HashGroups(dup, hash)
            case Some(h) =>
              HashGroups(dup, hash)[h := (if h in HashGroups(dup, hash) then HashGroups(dup, hash)[h] else []) + [f.(crc32Hash := h)]]
  {
    assert (dup + [f])[..|dup|] == dup;
  }

  /**
   * A digest has a group exactly when some record hashed to it, and the
   * group is those records in their order, each with the digest recorded.
   */
  lemma {:induction false} GroupsAreHashedAs(dup: seq<File>, hash: string -> Option<string>, h: string)
    ensures h in HashGroups(dup, hash) <==> HashedAs(dup, hash, h) != []
    ensures h in HashGroups(dup, hash) ==> HashGroups(dup, hash)[h] == HashedAs(dup, hash, h)
    decreases |dup|
  {
    if dup != [] {
      GroupsAreHashedAs(dup[..|dup| - 1], hash, h);
    }
  }

  /** A record is in group `h` exactly when it is a record of `dup` that hashed to `h`, with `h` recorded. */
  lemma {:induction false} HashedAsMembers(dup: seq<File>, hash: string -> Option<string>, h: string, f: File)
    ensures f in HashedAs(dup, hash, h) <==>
            exists k :: 0 <= k < |dup| && hash(dup[k].path) == Some(h) && f == dup[k].(crc32Hash := h)
    decreases |dup|
  {
    if dup != [] {
      var init := dup[..|dup| - 1];
      HashedAsMembers(init, hash, h, f);
      if f in HashedAs(init, hash, h) {
        var k :| 0 <= k < |init| && hash(init[k].path) == Some(h) && f == init[k].(crc32Hash := h);
        assert dup[k] == init[k];
      }
      if exists k :: 0 <= k < |dup| && hash(dup[k].path) == Some(h) && f == dup[k].(crc32Hash := h) {
        var k :| 0 <= k < |dup| && hash(dup[k].path) == Some(h) && f == dup[k].(crc32Hash := h);
        if k < |init| {
          assert init[k] == dup[k];
        }
      }
    }
  }

  /** Hash assignment: every member of a group carries the group's digest and comes from a record that hashed to it. */
  lemma GroupMembers(dup: seq<File>, hash: string -> Option<string>, h: string, f: File)
    requires h in HashGroups(dup, hash) && f in HashGroups(dup, hash)[h]
    ensures f.crc32Hash == h
    ensures exists k :: 0 <= k < |dup| && hash(dup[k].path) == Some(h) && f == dup[k].(crc32Hash := h)
  {
    GroupsAreHashedAs(dup, hash, h);
    HashedAsMembers(dup, hash, h, f);
  }

  /** A path whose hash fails is in no group. */
  lemma FailedHashDropped(dup: seq<File>, hash: string -> Option<string>, path: string)
    requires hash(path) == None
    ensures forall h, f :: h in HashGroups(dup, hash) && f in HashGroups(dup, hash)[h] ==> f.path != path
  {
    forall h, f | h in HashGroups(dup, hash) && f in HashGroups(dup, hash)[h]
      ensures f.path != path
    {
      GroupMembers(dup, hash, h, f);
    }
  }

  /** Every group the hashing loop builds has at least one member. */
  lemma GroupsNonEmpty(dup: seq<File>, hash: string -> Option<string>)
    ensures forall h :: h in HashGroups(dup, hash) ==> HashGroups(dup, hash)[h] != []
  {
    forall h | h in HashGroups(dup, hash)
      ensures HashGroups(dup, hash)[h] != []
    {
      GroupsAreHashedAs(dup, hash, h);
    }
  }

  // Sums over the groups, in no particular order of the digests

  ghost function AnyKey(m: Groups): string
    requires m != map[]
  {
    var k :| k in m; k
  }

  /** The sum of `w` over the groups of `m`. */
  ghost function SumOver(m: Groups, w: seq<File> -> int): int
    decreases m.Keys
  {
    if m == map[] then 0
    else
      var k := AnyKey(m);
      w(m[k]) + SumOver(m - {k}, w)
  }

  /** The sum does not depend on which digest is taken first. */
  lemma {:induction false} SumOverRemove(m: Groups, k: string, w: seq<File> -> int)
    requires k in m
    ensures SumOver(m, w) == w(m[k]) + SumOver(m - {k}, w)
    decreases m.Keys
  {
    var j := AnyKey(m);
    if j != k {
      var mj, mk := m - {j}, m - {k};
      SumOverRemove(mj, k, w);
      SumOverRemove(mk, j, w);
      assert mj - {k} == mk - {j};
    }
  }

  lemma SumOverInsert(m: Groups, k: string, g: seq<File>, w: seq<File> -> int)
    requires k !in m
    ensures SumOver(m[k := g], w) == SumOver(m, w) + w(g)
  {
    SumOverRemove(m[k := g], k, w);
    assert m[k := g] - {k} == m;
  }

  lemma SumOverUpdate(m: Groups, k: string, g: seq<File>, w: seq<File> -> int)
    requires k in m
    ensures SumOver(m[k := g], w) == SumOver(m, w) - w(m[k]) + w(g)
  {
    SumOverRemove(m[k := g], k, w);
    SumOverRemove(m, k, w);
    assert m[k := g] - {k} == m - {k};
  }

  function GroupLen(g: seq<File>): int
  {
    |g|
  }

  /** The space a group wastes: all copies but one, reckoned with the size of its first member. */
  function Waste(g: seq<File>): int
  {
    if g == [] then 0 else g[0].size * (|g| - 1)
  }

  lemma {:induction false} SumOfLengthsNonNegative(m: Groups)
    ensures SumOver(m, GroupLen) >= 0
    decreases m.Keys
  {
    if m != map[] {
      SumOfLengthsNonNegative(m - {AnyKey(m)});
    }
  }

  /** Keeping only some groups never adds to the count of their members. */
  lemma {:induction false} SumOfLengthsSubmap(m1: Groups, m2: Groups)
    requires forall h :: h in m1 ==> h in m2 && m1[h] == m2[h]
    ensures SumOver(m1, GroupLen) <= SumOver(m2, GroupLen)
    decreases m1.Keys
  {
    if m1 == map[] {
      SumOfLengthsNonNegative(m2);
    } else {
      var k := AnyKey(m1);
      SumOverRemove(m2, k, GroupLen);
      SumOfLengthsSubmap(m1 - {k}, m2 - {k});
    }
  }

  /** The groups hold, all together, exactly the records whose hash succeeded. */
  lemma {:induction false} HashGroupsTotal(dup: seq<File>, hash: string -> Option<string>)
    ensures SumOver(HashGroups(dup, hash), GroupLen) == CountHashed(dup, hash)
    decreases |dup|
  {
    if dup != [] {
      var init, f := dup[..|dup| - 1], dup[|dup| - 1];
      HashGroupsTotal(init, hash);
      var m := HashGroups(init, hash);
      match hash(f.path)
      case None =>
      case Some(h) =>
        var g := (if h in m then m[h] else []) + [f.(crc32Hash := h)];
        if h in m {
          SumOverUpdate(m, h, g, GroupLen);
        } else {
          SumOverInsert(m, h, g, GroupLen);
        }
    }
  }

  /** The groups left after pruning: every group but those of exactly one record. */
  function Pruned(hm: Groups): Groups
  {
    map h | h in hm && |hm[h]| != 1 :: hm[h]
  }

  /**
   * The pruning loop over the digests, taken in any order (Go's map order is
   * unspecified): it deletes every group of one record and sums the members
   * and the waste of the others.
   */
  method PruneGroups(hm: Groups) returns (kept: Groups, duplicateFiles: nat, wastedSpace: int)
    requires forall h :: h in hm ==> hm[h] != []
    ensures kept == Pruned(hm)
    ensures forall h :: h in kept <==> h in hm && |hm[h]| >= 2
    ensures forall h :: h in kept ==> kept[h] == hm[h]
    ensures duplicateFiles == SumOver(kept, GroupLen)
    ensures wastedSpace == SumOver(kept, Waste)
    ensures kept == map[] ==> duplicateFiles == 0 && wastedSpace == 0
  {
    kept, duplicateFiles, wastedSpace := hm, 0, 0;
    var keys := hm.Keys;
    ghost var done: Groups := map[];
    while keys != {}
      invariant keys <= hm.Keys
      invariant forall h :: h in kept <==> h in hm && (h in keys || |hm[h]| != 1)
      invariant forall h :: h in kept ==> kept[h] == hm[h]
      invariant done == map h | h in hm && h !in keys && |hm[h]| != 1 :: hm[h]
      invariant duplicateFiles == SumOver(done, GroupLen)
      invariant wastedSpace == SumOver(done, Waste)
      decreases keys
    {
      var key :| key in keys;
      var slice := kept[key];
      keys := keys - {key};
      if |slice| == 1 {
        kept := kept - {key};
        assert done == map h | h in hm && h !in keys && |hm[h]| != 1 :: hm[h];
        continue;
      }
      SumOverInsert(done, key, slice, GroupLen);
      SumOverInsert(done, key, slice, Waste);
      duplicateFiles := duplicateFiles + |slice|;
      var size := slice[0].size;
      wastedSpace := wastedSpace + size * (|slice| - 1);
      done := done[key := slice];
    }
    assert kept == done;
  }

  /** Pruning and stats: every remaining group has at least two members. */
  lemma PrunedAtLeastTwo(dup: seq<File>, hash: string -> Option<string>)
    ensures forall h :: h in Pruned(HashGroups(dup, hash)) ==> |Pruned(HashGroups(dup, hash))[h]| >= 2
  {
    GroupsNonEmpty(dup, hash);
  }

  /** DuplicateFiles never exceeds the number of records that were hashed. */
  lemma PrunedCountAtMostHashed(dup: seq<File>, hash: string -> Option<string>)
    ensures SumOver(Pruned(HashGroups(dup, hash)), GroupLen) <= CountHashed(dup, hash) <= |dup|
  {
    SumOfLengthsSubmap(Pruned(HashGroups(dup, hash)), HashGroups(dup, hash));
    HashGroupsTotal(dup, hash);
  }
}
