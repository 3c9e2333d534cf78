/**
 * The quadratic size bucketing: for each record not yet marked, every later
 * unmarked record of the same size is marked, written back to the array and
 * appended to the working list; if there was one, the record itself is
 * appended after them (marked, but only in the appended copy: its own slot in
 * the array keeps the flag it had).
 *
 * The specification works on indices into the sorted array `s`: BucketIdx
 * lists, in appending order, the indices whose records reach the working list.
 */
module SizeBuckets {
  import opened Records

  function Mark(f: File): File
  {
    f.(duplicate := true)
  }

  predicate AllUnmarked(s: seq<File>)
  {
    forall k :: 0 <= k < |s| ==> !s[k].duplicate
  }

  /** No record before index `i` has the size of record `i`: `i` opens its size class. */
  predicate IsFirst(s: seq<File>, i: nat)
    requires i < |s|
  {
    forall l :: 0 <= l < i ==> s[l].size != s[i].size
  }

  /** Some other record, anywhere in the list, has the size of record `k`. */
  predicate HasTwin(s: seq<File>, k: nat)
    requires k < |s|
  {
    exists l :: 0 <= l < |s| && l != k && s[l].size == s[k].size
  }

  /**
   * Whether the first `m` iterations of the outer loop marked slot `k`: some
   * record at an index below both `m` and `k` has the size of record `k`.
   */
  predicate MarkedBefore(s: seq<File>, m: nat, k: nat)
    requires k < |s|
  {
    m > 0 && ((m - 1 < k && s[m - 1].size == s[k].size) || MarkedBefore(s, m - 1, k))
  }

  lemma {:induction false} MarkedBeforeWitness(s: seq<File>, m: nat, k: nat)
    requires k < |s|
    ensures MarkedBefore(s, m, k) <==> exists l :: 0 <= l < m && l < k && s[l].size == s[k].size
  {
    if m > 0 {
      MarkedBeforeWitness(s, m - 1, k);
    }
  }

  /** Some earlier record has the size of record `k`: the flag its array slot ends with. */
  predicate HasEarlierTwin(s: seq<File>, k: nat)
    requires k < |s|
  {
    exists l :: 0 <= l < k && s[l].size == s[k].size
  }

  /** The indices in (i, j) whose records have the size of record `i`, in increasing order. */
  function MatchIdx(s: seq<File>, i: nat, j: nat): (r: seq<nat>)
    requires i < j <= |s|
    ensures forall p :: 0 <= p < |r| ==> i < r[p] < j
    decreases j
  {
    if j == i + 1 then []
    else MatchIdx(s, i, j - 1) + (if s[j - 1].size == s[i].size then [j - 1] else [])
  }

  lemma {:induction false} MatchIdxIncreasing(s: seq<File>, i: nat, j: nat)
    requires i < j <= |s|
    ensures forall p, q :: 0 <= p < q < |MatchIdx(s, i, j)| ==> MatchIdx(s, i, j)[p] < MatchIdx(s, i, j)[q]
    decreases j
  {
    if j > i + 1 {
      MatchIdxIncreasing(s, i, j - 1);
      var r0, tail := MatchIdx(s, i, j - 1), if s[j - 1].size == s[i].size then [j - 1] else [];
      assert MatchIdx(s, i, j) == r0 + tail;
      forall p, q | 0 <= p < q < |r0 + tail|
        ensures (r0 + tail)[p] < (r0 + tail)[q]
      {
        assert (r0 + tail)[p] == r0[p];
        if q >= |r0| {
          assert (r0 + tail)[q] == j - 1;
        } else {
          assert (r0 + tail)[q] == r0[q];
        }
      }
    }
  }

  /** The matches are increasing, all of the size of record `i`, and include every such index in (i, j). */
  lemma MatchIdxExactly(s: seq<File>, i: nat, j: nat)
    requires i < j <= |s|
    ensures forall p :: 0 <= p < |MatchIdx(s, i, j)| ==> s[MatchIdx(s, i, j)[p]].size == s[i].size
    ensures forall p, q :: 0 <= p < q < |MatchIdx(s, i, j)| ==> MatchIdx(s, i, j)[p] < MatchIdx(s, i, j)[q]
    ensures forall k :: i < k < j && s[k].size == s[i].size ==> k in MatchIdx(s, i, j)
  {
    MatchIdxIncreasing(s, i, j);
    forall p | 0 <= p < |MatchIdx(s, i, j)|
      ensures s[MatchIdx(s, i, j)[p]].size == s[i].size
    {
      MatchIdxMembers(s, i, j, MatchIdx(s, i, j)[p]);
    }
    forall k | i < k < j && s[k].size == s[i].size
      ensures k in MatchIdx(s, i, j)
    {
      MatchIdxMembers(s, i, j, k);
    }
  }

  /** What iteration `i` of the outer loop appends: the later matches, then `i` itself. */
  function RoundIdx(s: seq<File>, i: nat): (r: seq<nat>)
    requires i < |s|
    ensures forall p :: 0 <= p < |r| ==> r[p] < |s|
  {
    var m := MatchIdx(s, i, |s|);
    if IsFirst(s, i) && m != [] then m + [i] else []
  }

  /** What the first `n` iterations of the outer loop append. */
  function BucketIdx(s: seq<File>, n: nat): (r: seq<nat>)
    requires n <= |s|
    ensures forall p :: 0 <= p < |r| ==> r[p] < |s|
  {
    if n == 0 then [] else BucketIdx(s, n - 1) + RoundIdx(s, n - 1)
  }

  /** The marked records at the given indices. */
  function Pick(s: seq<File>, idx: seq<nat>): (r: seq<File>)
    requires forall p :: 0 <= p < |idx| ==> idx[p] < |s|
    ensures |r| == |idx|
  {
    seq(|idx|, p requires 0 <= p < |idx| => Mark(s[idx[p]]))
  }

  /** The working list `duplicateFiles` after the bucketing of `s`. */
  function Bucketed(s: seq<File>): seq<File>
  {
    Pick(s, BucketIdx(s, |s|))
  }

  lemma PickAppend(s: seq<File>, x: seq<nat>, y: seq<nat>)
    requires forall p :: 0 <= p < |x| ==> x[p] < |s|
    requires forall p :: 0 <= p < |y| ==> y[p] < |s|
    ensures forall p :: 0 <= p < |x + y| ==> (x + y)[p] < |s|
    ensures Pick(s, x + y) == Pick(s, x) + Pick(s, y)
  {
    assert Pick(s, x + y) == Pick(s, x) + Pick(s, y);
  }

  /** Appending the marked record `j` of the size of `i` extends the picked matches by one. */
  lemma PickNextMatch(pre: seq<File>, s: seq<File>, i: nat, j: nat)
    requires i < j < |s| && s[j].size == s[i].size
    ensures pre + Pick(s, MatchIdx(s, i, j + 1)) == (pre + Pick(s, MatchIdx(s, i, j))) + [Mark(s[j])]
  {
    assert MatchIdx(s, i, j + 1) == MatchIdx(s, i, j) + [j];
    PickAppend(s, MatchIdx(s, i, j), [j]);
  }

  /** A record of another size leaves the matches as they were. */
  lemma NoNextMatch(s: seq<File>, i: nat, j: nat)
    requires i < j < |s| && s[j].size != s[i].size
    ensures MatchIdx(s, i, j + 1) == MatchIdx(s, i, j)
  {
  }

  /** Iteration `i` of a record already marked adds nothing and marks nothing new. */
  lemma SkippedRound(s: seq<File>, i: nat)
    requires i < |s| && MarkedBefore(s, i, i)
    ensures RoundIdx(s, i) == []
    ensures forall k :: 0 <= k < |s| ==> (MarkedBefore(s, i + 1, k) <==> MarkedBefore(s, i, k))
  {
    MarkedBeforeWitness(s, i, i);
    var l0 :| 0 <= l0 < i && s[l0].size == s[i].size;
    assert !IsFirst(s, i);
    forall k | 0 <= k < |s| && MarkedBefore(s, i + 1, k)
      ensures MarkedBefore(s, i, k)
    {
      if i < k && s[k].size == s[i].size {
        MarkedBeforeWitness(s, i, k);
        assert l0 < i && l0 < k && s[l0].size == s[k].size;
      }
    }
  }

  /** Iteration `i` marks, beyond what was marked before, exactly the later records of its size. */
  lemma MarkStep(s: seq<File>, i: nat, k: nat)
    requires i < |s| && k < |s|
    ensures MarkedBefore(s, i + 1, k) <==> MarkedBefore(s, i, k) || (i < k && s[k].size == s[i].size)
  {
  }

  /** A record marked before iteration `i` of a class opener has another size. */
  lemma MarkedOtherSize(s: seq<File>, i: nat, j: nat)
    requires i < j < |s| && IsFirst(s, i) && MarkedBefore(s, i, j)
    ensures s[j].size != s[i].size
  {
    MarkedBeforeWitness(s, i, j);
    var l :| 0 <= l < i && l < j && s[l].size == s[j].size;
  }

  /** The array after the first `m` iterations of the outer loop. */
  function MarksAfter(s: seq<File>, m: nat): (r: seq<File>)
    ensures |r| == |s|
  {
    seq(|s|, k requires 0 <= k < |s| => s[k].(duplicate := MarkedBefore(s, m, k)))
  }

  /** The array inside iteration `i` once the inner loop has reached `j`. */
  function MarksWithin(s: seq<File>, i: nat, j: nat): (r: seq<File>)
    ensures |r| == |s|
  {
    seq(|s|, k requires 0 <= k < |s| => s[k].(duplicate := MarkedBefore(s, if i < k < j then i + 1 else i, k)))
  }

  lemma MarksAtStart(s: seq<File>)
    requires AllUnmarked(s)
    ensures MarksAfter(s, 0) == s
  {
  }

  lemma WithinStart(s: seq<File>, i: nat)
    ensures MarksWithin(s, i, i + 1) == MarksAfter(s, i)
  {
  }

  lemma WithinStep(s: seq<File>, i: nat, j: nat)
    requires i < j < |s|
    ensures MarksWithin(s, i, j + 1) == MarksWithin(s, i, j)[j := s[j].(duplicate := MarkedBefore(s, i + 1, j))]
  {
  }

  lemma WithinEnd(s: seq<File>, i: nat)
    requires i < |s|
    ensures MarksWithin(s, i, |s|) == MarksAfter(s, i + 1)
  {
    forall k | 0 <= k <= i
      ensures MarkedBefore(s, i + 1, k) == MarkedBefore(s, i, k)
    {
      MarkStep(s, i, k);
    }
  }

  lemma SkippedMarks(s: seq<File>, i: nat)
    requires i < |s| && MarkedBefore(s, i, i)
    ensures MarksAfter(s, i + 1) == MarksAfter(s, i)
  {
    SkippedRound(s, i);
  }

  /**
   * The inner loop of iteration `i` when record `i` (`checkFile`) opens its
   * size class: every later unmarked record of its size is marked, written
   * back and appended.
   */
  method MarkLaterMatches(a: array<File>, i: nat, checkFile: File, duplicateFiles: seq<File>, ghost s: seq<File>)
    returns (hasDuplicate: bool, duplicateFiles': seq<File>)
    requires i < a.Length == |s| && IsFirst(s, i) && checkFile == s[i]
    requires a[..] == MarksAfter(s, i)
    modifies a
    ensures a[..] == MarksAfter(s, i + 1)
    ensures hasDuplicate == (MatchIdx(s, i, a.Length) != [])
    ensures duplicateFiles' == duplicateFiles + Pick(s, MatchIdx(s, i, a.Length))
  {
    var l := a.Length;
    duplicateFiles' := duplicateFiles;
    hasDuplicate := false;
    assert MatchIdx(s, i, i + 1) == [];
    assert duplicateFiles' == duplicateFiles + Pick(s, MatchIdx(s, i, i + 1));
    WithinStart(s, i);
    for j := i + 1 to l
      invariant a[..] == MarksWithin(s, i, j)
      invariant hasDuplicate == (MatchIdx(s, i, j) != [])
      invariant duplicateFiles' == duplicateFiles + Pick(s, MatchIdx(s, i, j))
    {
      MarkStep(s, i, j);
      WithinStep(s, i, j);
      var f := a[j];
      assert f == MarksWithin(s, i, j)[j];
      if f.duplicate {
        MarkedOtherSize(s, i, j);
        NoNextMatch(s, i, j);
        assert MarksWithin(s, i, j)[j := f] == MarksWithin(s, i, j);
        continue;
      }
      if f.size == checkFile.size {
        f := f.(duplicate := true);
        assert f == Mark(s[j]);
        hasDuplicate := true;
        PickNextMatch(duplicateFiles, s, i, j);
        duplicateFiles' := duplicateFiles' + [f];
        a[j] := f;
      } else {
        NoNextMatch(s, i, j);
        assert MarksWithin(s, i, j)[j := f] == MarksWithin(s, i, j);
      }
    }
    WithinEnd(s, i);
  }

  /** After the last iteration a slot is marked exactly when an earlier record has its size. */
  lemma FinalMarks(s: seq<File>)
    ensures forall k :: 0 <= k < |s| ==> MarksAfter(s, |s|)[k] == s[k].(duplicate := HasEarlierTwin(s, k))
  {
    forall k | 0 <= k < |s|
      ensures MarkedBefore(s, |s|, k) == HasEarlierTwin(s, k)
    {
      MarkedBeforeWitness(s, |s|, k);
    }
  }

  /** What a class opener's iteration appends to the working list: the marked later matches, then itself marked. */
  lemma RoundPick(s: seq<File>, idx: seq<nat>, i: nat)
    requires i < |s| && IsFirst(s, i)
    requires forall p :: 0 <= p < |idx| ==> idx[p] < |s|
    ensures forall p :: 0 <= p < |idx + RoundIdx(s, i)| ==> (idx + RoundIdx(s, i))[p] < |s|
    ensures Pick(s, idx + RoundIdx(s, i)) ==
            Pick(s, idx) + Pick(s, MatchIdx(s, i, |s|)) + (if MatchIdx(s, i, |s|) != [] then [Mark(s[i])] else [])
  {
    var m := MatchIdx(s, i, |s|);
    PickAppend(s, idx, m);
    if m != [] {
      PickAppend(s, idx + m, [i]);
      assert idx + RoundIdx(s, i) == idx + m + [i];
    } else {
      assert idx + RoundIdx(s, i) == idx;
    }
  }

  /**
   * The bucketing loops. On records that all start unmarked, the working list
   * is Bucketed(s), and each array slot ends marked exactly when an earlier
   * record has its size; no other field changes.
   */
  method MarkDuplicates(a: array<File>) returns (duplicateFiles: seq<File>)
    requires AllUnmarked(a[..])
    modifies a
    ensures duplicateFiles == Bucketed(old(a[..]))
    ensures forall k :: 0 <= k < a.Length ==> a[k] == old(a[k]).(duplicate := HasEarlierTwin(old(a[..]), k))
  {
    ghost var s := a[..];
    ghost var idx: seq<nat> := [];
    var l := a.Length;
    duplicateFiles := [];
    MarksAtStart(s);
    for i := 0 to l
      invariant a[..] == MarksAfter(s, i)
      invariant idx == BucketIdx(s, i)
      invariant duplicateFiles == Pick(s, idx)
    {
      var checkFile := a[i];
      assert checkFile == MarksAfter(s, i)[i];
      if checkFile.duplicate {
        SkippedRound(s, i);
        SkippedMarks(s, i);
        assert idx + RoundIdx(s, i) == idx;
        idx := idx + RoundIdx(s, i);
        continue;
      }
      MarkedBeforeWitness(s, i, i);
      assert IsFirst(s, i);
      assert checkFile == s[i];
      var hasDuplicate;
      hasDuplicate, duplicateFiles := MarkLaterMatches(a, i, checkFile, duplicateFiles, s);
      if hasDuplicate {
        checkFile := checkFile.(duplicate := true);
        duplicateFiles := duplicateFiles + [checkFile];
      }
      RoundPick(s, idx, i);
      idx := idx + RoundIdx(s, i);
    }
    FinalMarks(s);
  }

  /** Record `k`'s size class has a member at an index below `n` (and at or below `k`). */
  predicate ClassOpenedBefore(s: seq<File>, n: nat, k: nat)
    requires k < |s|
  {
    exists l :: 0 <= l < n && l <= k && s[l].size == s[k].size
  }

  lemma {:induction false} MatchIdxMembers(s: seq<File>, i: nat, j: nat, k: nat)
    requires i < j <= |s|
    ensures k in MatchIdx(s, i, j) <==> i < k < j && s[k].size == s[i].size
    decreases j
  {
    if j > i + 1 {
      MatchIdxMembers(s, i, j - 1, k);
    }
  }

  /** A record that opens its size class has a twin exactly when a later record matches it. */
  lemma FirstTwinMatches(s: seq<File>, i: nat)
    requires i < |s| && IsFirst(s, i)
    ensures HasTwin(s, i) <==> MatchIdx(s, i, |s|) != []
  {
    var m := MatchIdx(s, i, |s|);
    if HasTwin(s, i) {
      var t :| 0 <= t < |s| && t != i && s[t].size == s[i].size;
      assert t > i;
      MatchIdxMembers(s, i, |s|, t);
    }
    if m != [] {
      MatchIdxMembers(s, i, |s|, m[0]);
      assert m[0] != i && s[m[0]].size == s[i].size;
    }
  }

  lemma RoundMembers(s: seq<File>, i: nat, k: nat)
    requires i < |s|
    ensures k in RoundIdx(s, i) <==>
            IsFirst(s, i) && HasTwin(s, i) && (k == i || (i < k < |s| && s[k].size == s[i].size))
  {
    if IsFirst(s, i) {
      FirstTwinMatches(s, i);
      MatchIdxMembers(s, i, |s|, k);
    }
  }

  /** A record appended in iteration `i` has a twin and its class opened at `i`. */
  lemma RoundMemberHasTwin(s: seq<File>, i: nat, k: nat)
    requires i < |s| && k in RoundIdx(s, i)
    ensures k < |s| && HasTwin(s, k) && ClassOpenedBefore(s, i + 1, k)
  {
    RoundMembers(s, i, k);
    assert ClassOpenedBefore(s, i + 1, k) by { assert i < i + 1 && i <= k && s[i].size == s[k].size; }
    if k != i {
      assert HasTwin(s, k) by { assert i != k && s[i].size == s[k].size; }
    }
  }

  /** A record with a twin whose class opened at `i` exactly is appended in iteration `i`. */
  lemma OpenedAtRound(s: seq<File>, i: nat, k: nat)
    requires i <= k < |s| && HasTwin(s, k) && s[i].size == s[k].size && !ClassOpenedBefore(s, i, k)
    ensures k in RoundIdx(s, i)
  {
    forall l2 | 0 <= l2 < i
      ensures s[l2].size != s[i].size
    {
      assert l2 <= k;
    }
    if k != i {
      assert HasTwin(s, i) by { assert k != i && s[k].size == s[i].size; }
    }
    RoundMembers(s, i, k);
  }

  /** After `n` iterations the working list holds the records with a twin whose class opened before `n`. */
  lemma {:induction false} BucketMembers(s: seq<File>, n: nat, k: nat)
    requires n <= |s|
    ensures k in BucketIdx(s, n) <==> k < |s| && HasTwin(s, k) && ClassOpenedBefore(s, n, k)
  {
    if n > 0 {
      var i := n - 1;
      BucketMembers(s, i, k);
      assert BucketIdx(s, n) == BucketIdx(s, i) + RoundIdx(s, i);
      if k in RoundIdx(s, i) {
        RoundMemberHasTwin(s, i, k);
      }
      if k < |s| && ClassOpenedBefore(s, i, k) {
        var l :| 0 <= l < i && l <= k && s[l].size == s[k].size;
        assert ClassOpenedBefore(s, n, k) by { assert l < n; }
      }
      if k < |s| && HasTwin(s, k) && ClassOpenedBefore(s, n, k) && !ClassOpenedBefore(s, i, k) {
        var l :| 0 <= l < n && l <= k && s[l].size == s[k].size;
        assert l == i;
        OpenedAtRound(s, i, k);
      }
    }
  }

  /**
   * Bucketing membership: the working list holds, marked, exactly the records
   * whose size some other record of the list shares, whatever their positions.
   */
  lemma BucketedExactlyTwins(s: seq<File>, k: nat)
    ensures k in BucketIdx(s, |s|) <==> k < |s| && HasTwin(s, k)
  {
    BucketMembers(s, |s|, k);
    if k < |s| {
      assert ClassOpenedBefore(s, |s|, k) by { assert k < |s| && k <= k && s[k].size == s[k].size; }
    }
  }

  predicate Distinct(xs: seq<nat>)
  {
    forall p, q :: 0 <= p < q < |xs| ==> xs[p] != xs[q]
  }

  lemma DistinctAppend(xs: seq<nat>, ys: seq<nat>)
    requires Distinct(xs) && Distinct(ys)
    requires forall x :: x in xs ==> x !in ys
    ensures Distinct(xs + ys)
  {
    forall p, q | 0 <= p < q < |xs + ys|
      ensures (xs + ys)[p] != (xs + ys)[q]
    {
      if p < |xs| && q >= |xs| {
        assert (xs + ys)[p] in xs && (xs + ys)[q] == ys[q - |xs|];
      }
    }
  }

  /** Every record of the working list is there once. */
  lemma {:induction false} BucketIdxDistinct(s: seq<File>, n: nat)
    requires n <= |s|
    ensures Distinct(BucketIdx(s, n))
  {
    if n > 0 {
      var i := n - 1;
      var b, r := BucketIdx(s, i), RoundIdx(s, i);
      BucketIdxDistinct(s, i);
      if r != [] {
        var m := MatchIdx(s, i, |s|);
        MatchIdxExactly(s, i, |s|);
        assert r == m + [i];
        assert Distinct(r) by {
          DistinctAppend(m, [i]);
        }
        forall x | x in b
          ensures x !in r
        {
          BucketMembers(s, i, x);
          RoundMembers(s, i, x);
          var l :| 0 <= l < i && l <= x && s[l].size == s[x].size;
        }
        DistinctAppend(b, r);
      } else {
        assert BucketIdx(s, n) == b;
      }
    }
  }

  /**
   * Order within the working list: the records appended in iteration `i` all
   * have the size of record `i`; its later matches come first, in index
   * order, and record `i` itself comes last.
   */
  lemma RoundShape(s: seq<File>, i: nat)
    requires i < |s|
    ensures RoundIdx(s, i) != [] ==> IsFirst(s, i) && RoundIdx(s, i)[|RoundIdx(s, i)| - 1] == i
    ensures forall p :: 0 <= p < |RoundIdx(s, i)| ==> s[RoundIdx(s, i)[p]].size == s[i].size
    ensures forall p, q :: 0 <= p < q < |RoundIdx(s, i)| - 1 ==> i < RoundIdx(s, i)[p] < RoundIdx(s, i)[q]
  {
    MatchIdxExactly(s, i, |s|);
  }

  /** A record appended before iteration `i` of a class opener has another size than record `i`. */
  lemma OpenedBeforeOtherSize(s: seq<File>, i: nat, x: nat)
    requires i < |s| && IsFirst(s, i) && x in BucketIdx(s, i)
    ensures s[x].size != s[i].size
  {
    BucketMembers(s, i, x);
    var l :| 0 <= l < i && l <= x && s[l].size == s[x].size;
  }

  /** Between two indices of records of one size there are only indices of records of that size. */
  predicate Contiguous(s: seq<File>, b: seq<nat>)
    requires forall p :: 0 <= p < |b| ==> b[p] < |s|
  {
    forall p, q, r :: 0 <= p < q < r < |b| && s[b[p]].size == s[b[r]].size ==> s[b[q]].size == s[b[p]].size
  }

  /** A run of one size, of a size the list does not hold yet, keeps the list contiguous. */
  lemma ContiguousAppendRun(s: seq<File>, b: seq<nat>, r: seq<nat>, c: int)
    requires forall p :: 0 <= p < |b| ==> b[p] < |s|
    requires forall p :: 0 <= p < |r| ==> r[p] < |s| && s[r[p]].size == c
    requires forall p :: 0 <= p < |b| ==> s[b[p]].size != c
    requires Contiguous(s, b)
    ensures forall p :: 0 <= p < |b + r| ==> (b + r)[p] < |s|
    ensures Contiguous(s, b + r)
  {
    var br := b + r;
    forall p, q, t | 0 <= p < q < t < |br| && s[br[p]].size == s[br[t]].size
      ensures s[br[q]].size == s[br[p]].size
    {
      if t < |b| {
        assert br[p] == b[p] && br[q] == b[q] && br[t] == b[t];
      } else if p >= |b| {
        assert br[p] == r[p - |b|] && br[q] == r[q - |b|];
      } else {
        assert false;
      }
    }
  }

  /** Each size class is appended as one contiguous run. */
  lemma {:induction false} BucketIdxContiguous(s: seq<File>, n: nat)
    requires n <= |s|
    ensures Contiguous(s, BucketIdx(s, n))
  {
    if n > 0 {
      var i := n - 1;
      var b0, r0 := BucketIdx(s, i), RoundIdx(s, i);
      BucketIdxContiguous(s, i);
      RoundShape(s, i);
      if r0 != [] {
        forall p | 0 <= p < |b0|
          ensures s[b0[p]].size != s[i].size
        {
          OpenedBeforeOtherSize(s, i, b0[p]);
        }
        ContiguousAppendRun(s, b0, r0, s[i].size);
      } else {
        assert BucketIdx(s, n) == b0;
      }
    }
  }

  lemma {:induction false} DistinctBounded(xs: seq<nat>, n: nat)
    requires Distinct(xs)
    requires forall p :: 0 <= p < |xs| ==> xs[p] < n
    ensures |xs| <= n
    decreases n
  {
    if xs != [] {
      assert xs[0] < n;
      if p :| 0 <= p < |xs| && xs[p] == n - 1 {
        var ys := xs[..p] + xs[p + 1..];
        forall a, b | 0 <= a < b < |ys|
          ensures ys[a] != ys[b]
        {
          var a', b' := if a < p then a else a + 1, if b < p then b else b + 1;
          assert ys[a] == xs[a'] && ys[b] == xs[b'];
        }
        forall q | 0 <= q < |ys|
          ensures ys[q] < n - 1
        {
          var q' := if q < p then q else q + 1;
          assert ys[q] == xs[q'] && q' != p;
        }
        DistinctBounded(ys, n - 1);
      } else {
        DistinctBounded(xs, n - 1);
      }
    }
  }

  /** The working list is never longer than the candidate list. */
  lemma BucketedAtMostAll(s: seq<File>)
    ensures |Bucketed(s)| <= |s|
  {
    BucketIdxDistinct(s, |s|);
    DistinctBounded(BucketIdx(s, |s|), |s|);
  }

  /** The working list holds, marked, exactly the records that share their size with another record. */
  lemma BucketedMembers(s: seq<File>, f: File)
    ensures f in Bucketed(s) <==> exists k :: 0 <= k < |s| && HasTwin(s, k) && f == Mark(s[k])
  {
    var idx := BucketIdx(s, |s|);
    if f in Bucketed(s) {
      var p :| 0 <= p < |idx| && Bucketed(s)[p] == f;
      BucketedExactlyTwins(s, idx[p]);
    }
    if exists k :: 0 <= k < |s| && HasTwin(s, k) && f == Mark(s[k]) {
      var k :| 0 <= k < |s| && HasTwin(s, k) && f == Mark(s[k]);
      BucketedExactlyTwins(s, k);
      var p :| 0 <= p < |idx| && idx[p] == k;
      assert Bucketed(s)[p] == f;
    }
  }
}
