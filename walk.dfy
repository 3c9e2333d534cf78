/**
 * The walk over the directory tree: the callback that decides, for each
 * entry, whether to skip it, pass over it, count it and keep it; and the
 * library's traversal, which descends into a directory only when the callback
 * did not answer SkipThis.
 */
module Walk {
  import opened Wrappers
  import opened Records

  /**
   * A directory entry as the walk presents it: its path, whether it is a
   * directory, the outcome of stat on it (the size, or None when stat failed)
   * and, for a directory, the entries below it in the order they are read.
   */
  datatype Entry = Entry(path: string, isDir: bool, stat: Option<int>, children: seq<Entry>)

  /** The callback's answer to the library. */
  datatype Action = Continue | SkipThis

  /** The path suffixes whose subtrees are never visited. */
  const Filter: seq<string> := [".git", ".terraform", "node_modules"]

  predicate HasSuffix(s: string, suffix: string)
  {
    |suffix| <= |s| && s[|s| - |suffix|..] == suffix
  }

  /** A path is excluded when it ends in "/" followed by one of the filter entries. */
  predicate Excluded(path: string)
  {
    exists i :: 0 <= i < |Filter| && HasSuffix(path, "/" + Filter[i])
  }

  /** Whether the callback counts the entry in SeenFiles: not excluded, not a directory, stat succeeded. */
  predicate Counted(e: Entry)
  {
    !Excluded(e.path) && !e.isDir && e.stat.Some?
  }

  /** Whether the callback appends a record for the entry: counted, and strictly above the minimum size. */
  predicate Kept(e: Entry, minFileSize: int)
  {
    Counted(e) && e.stat.value > minFileSize
  }

  /** The number of entries the walk counts in SeenFiles, in the library's pre-order. */
  function Seen(t: Entry): nat
    decreases t, 1
  {
    if Excluded(t.path) then 0
    else if t.isDir then SeenAll(t.children)
    else if t.stat.Some? then 1
    else 0
  }

  function SeenAll(ts: seq<Entry>): nat
    decreases ts, 0
  {
    if ts == [] then 0 else SeenAll(ts[..|ts| - 1]) + Seen(ts[|ts| - 1])
  }

  /** The records the walk appends to the candidate list, in the library's pre-order. */
  function Collected(t: Entry, minFileSize: int): seq<File>
    decreases t, 1
  {
    if Excluded(t.path) then []
    else if t.isDir then CollectedAll(t.children, minFileSize)
    else if Kept(t, minFileSize) then [NewFile(t.path, t.stat.value)]
    else []
  }

  function CollectedAll(ts: seq<Entry>, minFileSize: int): seq<File>
    decreases ts, 0
  {
    if ts == [] then [] else CollectedAll(ts[..|ts| - 1], minFileSize) + Collected(ts[|ts| - 1], minFileSize)
  }

  /** `n` is reached from `t` through directories none of which, and `n` not either, is excluded. */
  ghost predicate Reaches(t: Entry, n: Entry)
    decreases t
  {
    !Excluded(t.path) &&
    (n == t || (t.isDir && exists i :: 0 <= i < |t.children| && Reaches(t.children[i], n)))
  }

  /** The test of the callback's loop over the filter. */
  method MatchesFilter(path: string, filter: seq<string>) returns (skip: bool)
    ensures skip <==> exists i :: 0 <= i < |filter| && HasSuffix(path, "/" + filter[i])
  {
    for i := 0 to |filter|
      invariant forall k :: 0 <= k < i ==> !HasSuffix(path, "/" + filter[k])
    {
      var suffix := "/" + filter[i];
      if HasSuffix(path, suffix) {
        return true;
      }
    }
    return false;
  }

  /** The state the callback closes over: the SeenFiles counter and the candidate list. */
  class Walker {
    const minFileSize: int
    var seenFiles: nat
    var files: seq<File>

    constructor (minFileSize: int)
      ensures this.minFileSize == minFileSize && seenFiles == 0 && files == []
    {
      this.minFileSize := minFileSize;
      seenFiles := 0;
      files := [];
    }

    /** The callback for one entry. */
    method Callback(e: Entry) returns (action: Action)
      modifies this
      ensures action == (if Excluded(e.path) then SkipThis else Continue)
      ensures seenFiles == old(seenFiles) + (if Counted(e) then 1 else 0)
      ensures files == old(files) + (if Kept(e, minFileSize) then [NewFile(e.path, e.stat.value)] else [])
    {
      var skip := MatchesFilter(e.path, Filter);
      if skip {
        return SkipThis;
      }
      if e.isDir {
        return Continue;
      }
      match e.stat {
        case None =>
          return Continue;
        case Some(size) =>
          seenFiles := seenFiles + 1;
          if size > minFileSize {
            files := files + [NewFile(e.path, size)];
          }
          return Continue;
      }
    }

    /** The library's walk: the callback on `t`, then on the entries below it unless it answered SkipThis. */
    method Walk(t: Entry)
      modifies this
      decreases t
      ensures seenFiles == old(seenFiles) + Seen(t)
      ensures files == old(files) + Collected(t, minFileSize)
    {
      var action := Callback(t);
      if action == SkipThis || !t.isDir {
        return;
      }
      var i := 0;
      while i < |t.children|
        invariant 0 <= i <= |t.children|
        invariant seenFiles == old(seenFiles) + SeenAll(t.children[..i])
        invariant files == old(files) + CollectedAll(t.children[..i], minFileSize)
      {
        assert t.children[..i + 1][..i] == t.children[..i];
        Walk(t.children[i]);
        i := i + 1;
      }
      assert t.children[..i] == t.children;
    }
  }

  /** A path ending in one of the three filtered names is excluded. */
  lemma FilteredNamesExcluded(path: string)
    requires HasSuffix(path, "/.git") || HasSuffix(path, "/.terraform") || HasSuffix(path, "/node_modules")
    ensures Excluded(path)
  {
    if HasSuffix(path, "/.git") {
      assert HasSuffix(path, "/" + Filter[0]);
    } else if HasSuffix(path, "/.terraform") {
      assert HasSuffix(path, "/" + Filter[1]);
    } else {
      assert HasSuffix(path, "/" + Filter[2]);
    }
  }

  /** An excluded entry contributes nothing, however large its subtree. */
  lemma ExcludedSubtreeContributesNothing(t: Entry, minFileSize: int)
    requires Excluded(t.path)
    ensures Seen(t) == 0 && Collected(t, minFileSize) == []
  {
  }

  /** Every candidate record was counted: FilteredFiles never exceeds SeenFiles. */
  lemma {:induction false} CollectedAtMostSeen(t: Entry, minFileSize: int)
    ensures |Collected(t, minFileSize)| <= Seen(t)
    decreases t, 1
  {
    if !Excluded(t.path) && t.isDir {
      CollectedAllAtMostSeenAll(t.children, minFileSize);
    }
  }

  lemma {:induction false} CollectedAllAtMostSeenAll(ts: seq<Entry>, minFileSize: int)
    ensures |CollectedAll(ts, minFileSize)| <= SeenAll(ts)
    decreases ts, 0
  {
    if ts != [] {
      CollectedAllAtMostSeenAll(ts[..|ts| - 1], minFileSize);
      CollectedAtMostSeen(ts[|ts| - 1], minFileSize);
    }
  }

  /**
   * The candidate list holds exactly the records of the entries reached
   * without passing through an excluded directory that are kept by the
   * callback: nothing from an excluded subtree, nothing at or below the
   * minimum size, nothing whose stat failed.
   */
  lemma {:induction false} CollectedExactly(t: Entry, minFileSize: int, f: File)
    ensures f in Collected(t, minFileSize) <==>
            exists n :: Reaches(t, n) && Kept(n, minFileSize) && f == NewFile(n.path, n.stat.value)
    decreases t, 1
  {
    if Excluded(t.path) {
    } else if t.isDir {
      CollectedAllExactly(t.children, minFileSize, f);
      if f in Collected(t, minFileSize) {
        var i, n :| 0 <= i < |t.children| && Reaches(t.children[i], n) && Kept(n, minFileSize) && f == NewFile(n.path, n.stat.value);
        assert Reaches(t, n);
      }
      if exists n :: Reaches(t, n) && Kept(n, minFileSize) && f == NewFile(n.path, n.stat.value) {
        var n :| Reaches(t, n) && Kept(n, minFileSize) && f == NewFile(n.path, n.stat.value);
        assert n != t;
        var i :| 0 <= i < |t.children| && Reaches(t.children[i], n);
      }
    } else {
      if exists n :: Reaches(t, n) && Kept(n, minFileSize) && f == NewFile(n.path, n.stat.value) {
        var n :| Reaches(t, n) && Kept(n, minFileSize) && f == NewFile(n.path, n.stat.value);
        assert n == t;
      }
    }
  }

  lemma {:induction false} CollectedAllExactly(ts: seq<Entry>, minFileSize: int, f: File)
    ensures f in CollectedAll(ts, minFileSize) <==>
            exists i, n :: 0 <= i < |ts| && Reaches(ts[i], n) && Kept(n, minFileSize) && f == NewFile(n.path, n.stat.value)
    decreases ts, 0
  {
    if ts != [] {
      var init, last := ts[..|ts| - 1], ts[|ts| - 1];
      CollectedAllExactly(init, minFileSize, f);
      CollectedExactly(last, minFileSize, f);
      if exists i, n :: 0 <= i < |ts| && Reaches(ts[i], n) && Kept(n, minFileSize) && f == NewFile(n.path, n.stat.value) {
        var i, n :| 0 <= i < |ts| && Reaches(ts[i], n) && Kept(n, minFileSize) && f == NewFile(n.path, n.stat.value);
        if i < |ts| - 1 {
          assert init[i] == ts[i];
        }
      }
      if f in CollectedAll(init, minFileSize) {
        var i, n :| 0 <= i < |init| && Reaches(init[i], n) && Kept(n, minFileSize) && f == NewFile(n.path, n.stat.value);
        assert ts[i] == init[i];
      }
    }
  }
}
