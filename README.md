# dedup — a verified model of the duplicate finder

`dedup` walks a directory tree and reports files that share their contents.
It works in stages:
- It collects the non-directory entries whose stat succeeds and whose size is above a minimum, skipping `.git`, `.terraform` and `node_modules` subtrees.
- It sorts them by descending size.
- It gathers every file whose size occurs more than once into a working list.
- It hashes that list with CRC-32, groups it by digest and drops the groups of one file.
- It reports the counters (`SeenFiles`, `FilteredFiles`, `DuplicateFiles`, `WastedSpace`) and the groups.

The program also renders byte counts in SI and IEC units.

The Dafny model follows `main.go` stage by stage. Each file holds one module:

- `wrappers.dfy` (`Wrappers`): an `Option` type.
- `records.dfy` (`Records`): the `File` record and the `Stats` counters.
- `walk.dfy` (`Walk`) models the walk callback and the library's traversal.
  - The tree is an `Entry` datatype. `os.Stat` becomes an `Option<int>` on each entry.
  - The closure state (`SeenFiles` and the `files` slice) is the class `Walker`, whose `Callback` and `Walk` methods update it.
  - Both are proved against the functions `Seen` and `Collected`.
- `sort.dfy` (`SizeSort`): the descending-size sort, on an array.
  - Only its postcondition is fixed: sorted and a permutation.
  - The body that meets it is a selection sort.
- `buckets.dfy` (`SizeBuckets`): the nested `i`/`j` loops that mark records in place and build `duplicateFiles`.
  - They are proved against `Bucketed`, a function on the old array contents that lists, in appending order, the indices that reach the list.
  - Lemmas about `Bucketed` state which records it holds, each exactly once, grouped by size class and in which order.
- `grouping.dfy` (`Grouping`): the hashing loop that builds the digest map, and the pruning loop over that map.
  - The loops are proved against `HashGroups` and `Pruned`.
  - The pruning loop takes the keys in an arbitrary order, picked with `:|`.
  - The sums of the counters are `SumOver`, which is proved not to depend on that order.
- `dedup.dfy` (`Dedup`): the whole run composed from the stages.
  - It has end-to-end guarantees.
  - It includes the three-files scenario and the distinct-sizes scenario.
- `bytecount.dfy` (`ByteCount`): the unit constants, and the divisor/exponent loop of `ByteCountSI` and `ByteCountIEC`.

Two behaviours are modelled as the code has them:
- A failed `os.Stat` is not counted in `SeenFiles`.
- Groups are formed on digest equality only. Their members' sizes are not compared again, and a group's waste is reckoned from the size of its first member.

In the bucketing loops, the first member of a size class is marked only in the copy appended to the working list. Its own array slot keeps `Duplicate == false`. At the end, a slot is marked exactly when an earlier record has its size. `SizeBuckets.MarkDuplicates` states this.

## Model

| member | source | states |
|---|---|---|
| `Walk.MatchesFilter` | main.go:70-74 | the filter loop answers skip exactly when the path ends in "/" followed by some filter entry |
| `Walk.FilteredNamesExcluded` | main.go:56 | a path ending in "/.git", "/.terraform" or "/node_modules" is excluded |
| `Walk.Walker.constructor` | main.go:56-58 | the walk starts with SeenFiles 0 and an empty candidate list |
| `Walk.Walker.Callback` | main.go:69-89 | excluded path gives SkipThis, anything else Continue; SeenFiles grows by one exactly for a non-excluded non-directory whose stat succeeded; a record is appended exactly when, in addition, its size is strictly above the minimum |
| `Walk.Walker.Walk` | main.go:67-92 | the traversal adds exactly Seen(t) to SeenFiles and appends exactly Collected(t) to the candidates; an excluded directory is not descended into |
| `Walk.ExcludedSubtreeContributesNothing` | main.go:70-74 | an excluded entry, and everything below it, adds nothing to SeenFiles or the candidates |
| `Walk.CollectedAtMostSeen` | main.go:82-87 | FilteredFiles, the number of candidates, never exceeds SeenFiles |
| `Walk.CollectedAllAtMostSeenAll` | main.go:82-87 | the same bound for a directory's entries |
| `Walk.CollectedExactly` | main.go:75-87 | a record is a candidate iff it is the fresh record of an entry reached through non-excluded directories that is a non-directory, stat succeeded and size is strictly above the minimum |
| `Walk.CollectedAllExactly` | main.go:75-87 | the same characterisation for a directory's entries |
| `SizeSort.SortBySizeDesc` | main.go:98-100 | the array ends in non-increasing order of size and is a permutation of its old contents |
| `SizeBuckets.MarkedBeforeWitness` | main.go:108-121 | after m outer iterations slot k is marked iff some index below both m and k holds record k's size |
| `SizeBuckets.MatchIdxExactly` | main.go:112-121 | the inner loop's matches are increasing, all of record i's size, and include every later index of that size |
| `SizeBuckets.FirstTwinMatches` | main.go:112-127 | for a record that opens its size class, the inner loop finds a match iff the record has a twin |
| `SizeBuckets.MarkLaterMatches` | main.go:112-122 | the inner loop marks and writes back exactly the later unmarked records of checkFile's size, appends them in index order, and reports whether there was one |
| `SizeBuckets.MarkDuplicates` | main.go:105-128 | on unmarked records the working list is Bucketed(old array); each slot ends with its Duplicate flag set iff an earlier record has its size, and no other field changes |
| `SizeBuckets.FinalMarks` | main.go:105-128 | after the last iteration the marks are exactly "an earlier record has the same size" |
| `SizeBuckets.RoundMembers` | main.go:108-127 | iteration i appends something only when record i opens its size class and has a twin, and then exactly record i and the later records of its size |
| `SizeBuckets.RoundShape` | main.go:112-127 | iteration i appends records of record i's size only: the later matches first, in increasing index order, then record i last |
| `SizeBuckets.BucketMembers` | main.go:105-128 | after n iterations the list holds exactly the records with a twin whose size class opened before n |
| `SizeBuckets.BucketedExactlyTwins` | main.go:105-128 | an index reaches the working list iff its record has the same size as some other record |
| `SizeBuckets.BucketedMembers` | main.go:105-128 | the working list holds exactly the marked copies of the records that have a twin |
| `SizeBuckets.BucketIdxDistinct` | main.go:105-128 | no index reaches the working list twice |
| `SizeBuckets.BucketIdxContiguous` | main.go:105-128 | each size class occupies one contiguous run of the working list |
| `SizeBuckets.BucketedAtMostAll` | main.go:105-128 | the working list is no longer than the candidate array |
| `Grouping.GroupByHash` | main.go:130-145 | the hashing loop builds exactly HashGroups(duplicateFiles, hash) |
| `Grouping.HashGroupsAppend` | main.go:131-144 | one more record is appended, digest recorded, to its digest's group (a new group when absent), or dropped when its hash fails |
| `Grouping.GroupsAreHashedAs` | main.go:130-145 | a digest has a group iff some record hashed to it, and the group is those records in working-list order with the digest recorded |
| `Grouping.HashedAsMembers` | main.go:138-144 | a record is in the group of h iff it is a working-list record whose hash is h, with h recorded |
| `Grouping.GroupMembers` | main.go:138-144 | every group member carries its group's digest and comes from a working-list record that hashed to it |
| `Grouping.FailedHashDropped` | main.go:133-137 | a path whose hash fails is in no group |
| `Grouping.GroupsNonEmpty` | main.go:139-144 | every group built has at least one member |
| `Grouping.SumOverRemove` | main.go:146 | a sum over the groups is the same whichever digest is taken first, so it does not depend on map order |
| `Grouping.SumOfLengthsSubmap` | main.go:146-152 | dropping groups never increases the member count |
| `Grouping.HashGroupsTotal` | main.go:130-145 | the groups hold, all together, exactly as many records as were hashed successfully |
| `Grouping.PruneGroups` | main.go:146-155 | in any key order, the singleton groups are deleted and all others kept as they were; DuplicateFiles is the sum of the kept groups' lengths and WastedSpace the sum of first-member size times (length − 1); both are 0 when no group is left |
| `Grouping.PrunedAtLeastTwo` | main.go:146-151 | after pruning every group has at least two members |
| `Grouping.PrunedCountAtMostHashed` | main.go:146-152 | DuplicateFiles is at most the number of hashed records, which is at most the length of the working list |
| `Dedup.CollectCandidates` | main.go:55-96 | the walk stage yields SeenFiles = Seen(root) and candidates = Collected(root) |
| `Dedup.SortAndBucket` | main.go:98-128 | the size stage yields a sorted permutation of the candidates and its Bucketed working list |
| `Dedup.HashAndPrune` | main.go:130-155 | the digest stage yields the pruned groups of the working list with their two sums |
| `Dedup.CollectedFresh` | main.go:85 | every candidate is unmarked and carries no digest |
| `Dedup.GroupMemberFromWalk` | main.go:85-144 | a group member has its digest recorded, is marked, its path hashes to its group's key, and is a walk candidate apart from those two fields |
| `Dedup.PrunedMembersFromWalk` | main.go:85-155 | the same for every member of every group left after pruning |
| `Dedup.Dedup` | main.go:49-155 | a whole run: SeenFiles and FilteredFiles as the walk defines them, FilteredFiles ≤ SeenFiles; the groups are exactly the pruned digest groups of the bucketed list of some size-sorted permutation of the candidates; each group has ≥ 2 members that hashed to its key and came from the walk; DuplicateFiles = Σ lengths ≤ FilteredFiles; WastedSpace = Σ waste |
| `Dedup.DistinctSizesNoGroups` | main.go:105-155 | when no two candidates share a size, nothing is hashed, no group is reported and DuplicateFiles and WastedSpace are 0 |
| `Dedup.ThreeOfOneSizeBucketed` | main.go:105-128 | three records of one size are appended as the second, the third, then the first |
| `Dedup.ThreeHashedTwoEqual` | main.go:130-145 | three records where the first and last hash alike give one group of two in order and one singleton |
| `Dedup.ThreeOfOneSizeTwoEqual` | main.go:105-155 | three files of one size, two with the same contents: one group of those two survives and the waste is one file's size |
| `ByteCount.PowMonotone` | main.go:204-208 | powers of a unit ≥ 1 grow with the exponent |
| `ByteCount.DivStep` | main.go:205-206 | one loop turn: dividing the running quotient by the unit is dividing the count by the next power, and that power does not exceed the count |
| `ByteCount.SelectUnit` | main.go:204-208 | for b ≥ unit the loop ends with div = unit^(exp+1), div ≤ b < div·unit, 1 ≤ b/div < unit and exp ≤ 5, so div never overflows int64 and the prefix index is in bounds |
| `ByteCount.ExponentBound` | main.go:204-209 | no int64 count reaches unit^7, so the exponent is at most 5 |
| `ByteCount.ExponentUnique` | main.go:204-208 | only one exponent brackets a count between two consecutive powers |
| `ByteCount.Render` | main.go:199-209 | b < unit (negative b included) gives the plain count; otherwise a scaled rendering with one of the six prefixes and its power as divisor |
| `ByteCount.ByteCountSI` | main.go:199-210 | SI rendering: plain below 1000; otherwise divisor 1000^(e+1) with prefix "kMGTPE"[e] and suffix "B" |
| `ByteCount.ByteCountIEC` | main.go:212-223 | IEC rendering: plain below 1024; otherwise divisor 1024^(e+1) with prefix "KMGTPE"[e] and suffix "iB" |
| `ByteCount.UnitConstants` | main.go:21-31 | KiB..TiB are the powers of 1024, KB..TB the powers of 1000, and the default minimum size 30 MiB is 31457280 bytes |

## Left out

- Directory traversal, `os.Stat` and `os.Open` are filesystem I/O. The tree, with each entry's stat outcome, is an input. The traversal is the library's pre-order with subtree skipping. Entry order within a directory is whatever the input lists.
- The walk always completes in the model. When the library's walk returns an error (an unreadable root, or a directory read failing), the program aborts with `panic` (main.go:94-96); that fatal path is not modelled.
- The CRC-32 computation (main.go:171-187) reads a file through library calls. It is a parameter `hash: string -> Option<string>`, where None means the file could not be opened or read.
- Flag parsing, the empty-directory usage exit, `expandTilde`, logging, JSON output, and `time.Now`/`time.Since` for Start and Elapsed are environment and I/O. They are not modelled.
- The `%.1f` float quotient and the string formatting of the byte formatters are floating point and text. A rendering keeps the count, the divisor, the prefix letter and the suffix.
- The `SizeHuman` field of a record is the SI rendering's text, so it is left out with that text.
- `sort.Slice` is not stable. Only its postcondition is fixed, and the selection sort that meets it may order equal sizes differently.
- Go's map iteration order is unspecified. The pruning loop takes the keys in any order, and the result is proved not to depend on it.
- The counters are unbounded integers. `SeenFiles`, `FilteredFiles` and `DuplicateFiles` are uint64, `WastedSpace` and sizes are int64, and their wrap-around is not modelled.
- `ByteCount.DefaultMinFileSize` and the unit constants are plain naturals. Go writes the binary ones as shifts, which have the same values.
