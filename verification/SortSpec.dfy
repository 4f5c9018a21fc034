/** What the ordered list operations of list.c compute, as functions on sequences. */
module SortSpec {

  predicate Between<T>(less: (T, T) -> bool, x: T, y: T, z: T) {
    less(x, z) ==> less(x, y) || less(y, z)
  }

  /** less is a strict weak order. */
  ghost predicate StrictWeak<T(!new)>(less: (T, T) -> bool) {
    && (forall x, y :: less(x, y) ==> !less(y, x))
    && (forall x, y, z :: Between(less, x, y, z))
  }

  ghost predicate Sorted<T>(s: seq<T>, less: (T, T) -> bool, lo: nat, hi: nat)
    requires lo <= hi <= |s|
  {
    forall i, j :: lo <= i < j < hi ==> !less(s[j], s[i])
  }

  ghost predicate Equivalent<T>(less: (T, T) -> bool, x: T, y: T) {
    !less(x, y) && !less(y, x)
  }

  /** The elements of s equivalent to x, in order. */
  ghost function Class<T>(s: seq<T>, less: (T, T) -> bool, x: T): seq<T> {
    if s == [] then [] else
    (if Equivalent(less, s[0], x) then [s[0]] else []) + Class(s[1..], less, x)
  }

  /** t is s with equivalent elements kept in the same order. */
  ghost predicate StablePermutation<T(!new)>(s: seq<T>, t: seq<T>, less: (T, T) -> bool) {
    multiset(s) == multiset(t) && forall x :: Class(s, less, x) == Class(t, less, x)
  }

  /** Position k continues the run of position k - 1. */
  predicate Ascent<T>(s: seq<T>, less: (T, T) -> bool, k: nat)
    requires 0 < k < |s|
  {
    !less(s[k], s[k - 1])
  }

  /** The exclusive end of the run that starts at lo. */
  function RunEnd<T>(s: seq<T>, less: (T, T) -> bool, lo: nat, hi: nat): (e: nat)
    requires lo < hi <= |s|
    ensures lo < e <= hi
    ensures forall k :: lo < k < e ==> Ascent(s, less, k)
    ensures e < hi ==> !Ascent(s, less, e)
    decreases hi - lo
  {
    if lo + 1 == hi || !Ascent(s, less, lo + 1) then lo + 1 else RunEnd(s, less, lo + 1, hi)
  }

  /** Where the element at position k of a spliced sequence comes from. */
  function Source(k: int, before: nat, first: nat, last: nat): int
    requires first <= last && (before <= first || last <= before)
  {
    if before <= first then
      if before <= k < before + (last - first) then k - before + first
      else if before + (last - first) <= k < last then k - (last - first)
      else k
    else
      if first <= k < first + (before - last) then k - first + last
      else if first + (before - last) <= k < before then k - (before - last)
      else k
  }

  /** s with the range [first, last) moved in front of position before. */
  function Spliced<T>(s: seq<T>, before: nat, first: nat, last: nat): (t: seq<T>)
    requires first <= last <= |s| && before <= |s| && (before <= first || last <= before)
    ensures |t| == |s|
  {
    seq(|s|, k requires 0 <= k < |s| => s[Source(k, before, first, last)])
  }

  /** The merge loop with cursors i and m, ending at e. */
  function Merged<T>(s: seq<T>, less: (T, T) -> bool, i: nat, m: nat, e: nat): (r: seq<T>)
    requires i <= m <= e <= |s|
    ensures |r| == |s|
    decreases e - m, m - i
  {
    if i == m || m == e then s
    else if !less(s[m], s[i]) then Merged(s, less, i + 1, m, e)
    else Merged(Spliced(s, i, m, m + 1), less, i + 1, m + 1, e)
  }

  /** The merge that is left to do with these cursors ends in GOAL. */
  ghost predicate MergesTo<T>(s: seq<T>, less: (T, T) -> bool, i: nat, m: nat, e: nat, goal: seq<T>) {
    MergesToBody(s, less, i, m, e, goal) == true
  }

  ghost predicate MergesToBody<T>(s: seq<T>, less: (T, T) -> bool, i: nat, m: nat, e: nat, goal: seq<T>) {
    i <= m <= e <= |s| && Merged(s, less, i, m, e) == goal
  }

  lemma MergesNext<T>(s: seq<T>, less: (T, T) -> bool, i: nat, m: nat, e: nat, goal: seq<T>)
    requires i < m < e <= |s| && MergesTo(s, less, i, m, e, goal)
    ensures !less(s[m], s[i]) ==> MergesTo(s, less, i + 1, m, e, goal)
    ensures less(s[m], s[i]) ==> MergesTo(Spliced(s, i, m, m + 1), less, i + 1, m + 1, e, goal)
  {
  }

  lemma MergesEnd<T>(s: seq<T>, less: (T, T) -> bool, i: nat, m: nat, e: nat, goal: seq<T>)
    requires MergesTo(s, less, i, m, e, goal) && (i == m || m == e)
    ensures s == goal
  {
  }

  /** One pass over the list from position a: the new list and the number of runs output. */
  function Pass<T>(s: seq<T>, less: (T, T) -> bool, a: nat): (r: (seq<T>, nat))
    requires a <= |s|
    ensures |r.0| == |s|
    decreases |s| - a
  {
    if a == |s| then (s, 0)
    else
      var a1b0 := RunEnd(s, less, a, |s|);
      if a1b0 == |s| then (s, 1)
      else
        var b1 := RunEnd(s, less, a1b0, |s|);
        var rest := Pass(Merged(s, less, a, a1b0, b1), less, b1);
        (rest.0, rest.1 + 1)
  }

  lemma {:induction false} PassNext<T>(s: seq<T>, less: (T, T) -> bool, a: nat, m: nat)
    requires a < |s| && m == RunEnd(s, less, a, |s|)
    ensures m == |s| ==> Pass(s, less, a) == (s, 1)
    ensures m < |s| ==> var e := RunEnd(s, less, m, |s|); var rest := Pass(Merged(s, less, a, m, e), less, e);
                        Pass(s, less, a).0 == rest.0 && Pass(s, less, a).1 == rest.1 + 1
  {
  }

  /** The number of places in s[lo..hi] where a new run starts. */
  function Descents<T>(s: seq<T>, less: (T, T) -> bool, lo: nat, hi: nat): nat
    requires lo <= hi <= |s|
  {
    if hi <= lo + 1 then 0
    else Descents(s, less, lo, hi - 1) + (if Ascent(s, less, hi - 1) then 0 else 1)
  }

  // ----- Runs and descents -----

  lemma {:induction false} AscentsSort<T(!new)>(s: seq<T>, less: (T, T) -> bool, lo: nat, hi: nat)
    requires StrictWeak(less) && lo <= hi <= |s|
    requires forall k :: lo < k < hi ==> Ascent(s, less, k)
    ensures Sorted(s, less, lo, hi)
  {
    if lo < hi {
      AscentsSort(s, less, lo, hi - 1);
      forall i | lo <= i < hi - 1
        ensures !less(s[hi - 1], s[i])
      {
        assert Ascent(s, less, hi - 1);
        assert Between(less, s[hi - 1], s[hi - 2], s[i]);
      }
    }
  }

  lemma {:induction false} NoDescents<T>(s: seq<T>, less: (T, T) -> bool, lo: nat, hi: nat)
    requires lo <= hi <= |s|
    ensures Descents(s, less, lo, hi) == 0 <==> forall k :: lo < k < hi ==> Ascent(s, less, k)
  {
    if lo + 1 < hi {
      NoDescents(s, less, lo, hi - 1);
    }
  }

  lemma {:induction false} SplitDescents<T>(s: seq<T>, less: (T, T) -> bool, lo: nat, mid: nat, hi: nat)
    requires lo < mid < hi <= |s|
    ensures Descents(s, less, lo, hi) ==
            Descents(s, less, lo, mid) + (if Ascent(s, less, mid) then 0 else 1) + Descents(s, less, mid, hi)
  {
    if mid + 1 < hi {
      SplitDescents(s, less, lo, mid, hi - 1);
    }
  }

  lemma {:induction false} SameDescents<T>(s: seq<T>, t: seq<T>, less: (T, T) -> bool, lo: nat, hi: nat)
    requires lo <= hi <= |s| == |t| && s[lo..hi] == t[lo..hi]
    ensures Descents(s, less, lo, hi) == Descents(t, less, lo, hi)
  {
    if lo + 1 < hi {
      assert s[lo..hi - 1] == s[lo..hi][..hi - 1 - lo] && t[lo..hi - 1] == t[lo..hi][..hi - 1 - lo];
      assert s[hi - 1] == s[lo..hi][hi - 1 - lo] && s[hi - 2] == s[lo..hi][hi - 2 - lo];
      SameDescents(s, t, less, lo, hi - 1);
    }
  }

  // ----- Merging is a stable permutation of the merged range -----

  lemma Assoc<T>(a: seq<T>, b: seq<T>, c: seq<T>)
    ensures a + (b + c) == (a + b) + c
  {
  }

  lemma {:induction false} ClassConcat<T>(a: seq<T>, b: seq<T>, less: (T, T) -> bool, x: T)
    ensures Class(a + b, less, x) == Class(a, less, x) + Class(b, less, x)
  {
    if a == [] {
      assert a + b == b;
    } else {
      var first := if Equivalent(less, a[0], x) then [a[0]] else [];
      assert (a + b)[0] == a[0] && (a + b)[1..] == a[1..] + b;
      ClassConcat(a[1..], b, less, x);
      Assoc(first, Class(a[1..], less, x), Class(b, less, x));
    }
  }

  lemma {:induction false} ClassOfThree<T>(a: seq<T>, b: seq<T>, c: seq<T>, less: (T, T) -> bool, x: T)
    ensures Class(a + b + c, less, x) == Class(a, less, x) + Class(b, less, x) + Class(c, less, x)
  {
    ClassConcat(a + b, c, less, x);
    ClassConcat(a, b, less, x);
  }

  lemma {:induction false} NoneEquivalent<T(!new)>(b: seq<T>, c: T, less: (T, T) -> bool, x: T)
    requires StrictWeak(less) && Equivalent(less, c, x)
    requires forall k :: 0 <= k < |b| ==> less(c, b[k])
    ensures Class(b, less, x) == []
  {
    if b != [] {
      assert Between(less, c, x, b[0]);
      NoneEquivalent(b[1..], c, less, x);
    }
  }

  lemma {:induction false} SwapKeepsClass<T(!new)>(b: seq<T>, c: T, less: (T, T) -> bool, x: T)
    requires StrictWeak(less)
    requires forall k :: 0 <= k < |b| ==> less(c, b[k])
    ensures Class(b + [c], less, x) == Class([c] + b, less, x)
  {
    ClassConcat(b, [c], less, x);
    ClassConcat([c], b, less, x);
    if Equivalent(less, c, x) {
      NoneEquivalent(b, c, less, x);
    } else {
      assert Class([c], less, x) == [];
    }
  }

  /** Moving an element over elements that are all greater keeps every class in order. */
  lemma SpliceKeepsClass<T(!new)>(s: seq<T>, less: (T, T) -> bool, i: nat, m: nat, x: T)
    requires StrictWeak(less) && i < m < |s|
    requires forall k :: i <= k < m ==> less(s[m], s[k])
    ensures Class(s, less, x) == Class(Spliced(s, i, m, m + 1), less, x)
  {
    var a, b, c, d := s[..i], s[i..m], [s[m]], s[m + 1..];
    SplicedSlices(s, i, m);
    ClassOfThree(a, b + c, d, less, x);
    ClassOfThree(a, c + b, d, less, x);
    SwapKeepsClass(b, s[m], less, x);
  }

  lemma SplicedSlices<T>(s: seq<T>, i: nat, m: nat)
    requires i < m < |s|
    ensures s == s[..i] + (s[i..m] + [s[m]]) + s[m + 1..]
    ensures Spliced(s, i, m, m + 1) == s[..i] + ([s[m]] + s[i..m]) + s[m + 1..]
  {
  }

  lemma SplicePermutes<T>(s: seq<T>, i: nat, m: nat)
    requires i < m < |s|
    ensures multiset(s) == multiset(Spliced(s, i, m, m + 1))
  {
    SplicedSlices(s, i, m);
  }

  /** The merge loop's invariant: s[lo..i) is output, s[i..m) and s[m..e) are the rest of the two runs. */
  ghost predicate Merging<T>(s: seq<T>, less: (T, T) -> bool, lo: nat, i: nat, m: nat, e: nat) {
    && lo <= i <= m <= e <= |s|
    && Sorted(s, less, i, m) && Sorted(s, less, m, e) && Sorted(s, less, lo, i)
    && forall p, q :: lo <= p < i <= q < e ==> !less(s[q], s[p])
  }

  lemma TakeLeft<T(!new)>(s: seq<T>, less: (T, T) -> bool, lo: nat, i: nat, m: nat, e: nat)
    requires StrictWeak(less) && Merging(s, less, lo, i, m, e) && i < m < e && !less(s[m], s[i])
    ensures Merging(s, less, lo, i + 1, m, e)
  {
    forall q | i < q < e
      ensures !less(s[q], s[i])
    {
      if m < q {
        assert Between(less, s[q], s[m], s[i]);
      }
    }
  }

  lemma TakeRight<T(!new)>(s: seq<T>, less: (T, T) -> bool, lo: nat, i: nat, m: nat, e: nat)
    requires StrictWeak(less) && Merging(s, less, lo, i, m, e) && i < m < e && less(s[m], s[i])
    ensures forall k :: i <= k < m ==> less(s[m], s[k])
    ensures Merging(Spliced(s, i, m, m + 1), less, lo, i + 1, m + 1, e)
  {
    forall k | i <= k < m
      ensures less(s[m], s[k])
    {
      assert Between(less, s[m], s[k], s[i]);
    }
    var t := Spliced(s, i, m, m + 1);
    assert forall p, q :: lo <= p < i + 1 <= q < e ==> !less(t[q], t[p]);
  }

  lemma {:induction false} MergeKeepsClass<T(!new)>(s: seq<T>, less: (T, T) -> bool, lo: nat, i: nat, m: nat, e: nat, x: T)
    requires StrictWeak(less) && Merging(s, less, lo, i, m, e)
    ensures Class(s, less, x) == Class(Merged(s, less, i, m, e), less, x)
    decreases e - m, m - i
  {
    if i < m < e {
      if less(s[m], s[i]) {
        TakeRight(s, less, lo, i, m, e);
        SpliceKeepsClass(s, less, i, m, x);
        MergeKeepsClass(Spliced(s, i, m, m + 1), less, lo, i + 1, m + 1, e, x);
      } else {
        TakeLeft(s, less, lo, i, m, e);
        MergeKeepsClass(s, less, lo, i + 1, m, e, x);
      }
    }
  }

  lemma {:induction false} MergePermutes<T>(s: seq<T>, less: (T, T) -> bool, i: nat, m: nat, e: nat)
    requires i <= m <= e <= |s|
    ensures multiset(s) == multiset(Merged(s, less, i, m, e))
    decreases e - m, m - i
  {
    if i < m < e {
      if less(s[m], s[i]) {
        SplicePermutes(s, i, m);
        MergePermutes(Spliced(s, i, m, m + 1), less, i + 1, m + 1, e);
      } else {
        MergePermutes(s, less, i + 1, m, e);
      }
    }
  }

  lemma {:induction false} MergeIsSorted<T(!new)>(s: seq<T>, less: (T, T) -> bool, lo: nat, i: nat, m: nat, e: nat)
    requires StrictWeak(less) && Merging(s, less, lo, i, m, e)
    ensures Sorted(Merged(s, less, i, m, e), less, lo, e)
    decreases e - m, m - i
  {
    if i < m < e {
      if less(s[m], s[i]) {
        TakeRight(s, less, lo, i, m, e);
        MergeIsSorted(Spliced(s, i, m, m + 1), less, lo, i + 1, m + 1, e);
      } else {
        TakeLeft(s, less, lo, i, m, e);
        MergeIsSorted(s, less, lo, i + 1, m, e);
      }
    }
  }

  lemma {:induction false} MergeStaysInside<T>(s: seq<T>, less: (T, T) -> bool, i: nat, m: nat, e: nat)
    requires i <= m <= e <= |s|
    ensures var r := Merged(s, less, i, m, e);
            forall k :: 0 <= k < i || e <= k < |s| ==> r[k] == s[k]
    decreases e - m, m - i
  {
    if i < m < e {
      if less(s[m], s[i]) {
        assert forall k :: 0 <= k < i || e <= k < |s| ==> Spliced(s, i, m, m + 1)[k] == s[k];
        MergeStaysInside(Spliced(s, i, m, m + 1), less, i + 1, m + 1, e);
      } else {
        MergeStaysInside(s, less, i + 1, m, e);
      }
    }
  }

  /** inplace_merge: two adjacent sorted ranges become one, and nothing outside them moves. */
  lemma {:induction false} MergeSorts<T(!new)>(s: seq<T>, less: (T, T) -> bool, lo: nat, m: nat, e: nat)
    requires StrictWeak(less) && lo <= m <= e <= |s|
    requires Sorted(s, less, lo, m) && Sorted(s, less, m, e)
    ensures var r := Merged(s, less, lo, m, e);
            Sorted(r, less, lo, e) && StablePermutation(s, r, less) && r[..lo] == s[..lo] && r[e..] == s[e..]
  {
    MergePermutes(s, less, lo, m, e);
    forall x {
      MergeKeepsClass(s, less, lo, lo, m, e, x);
    }
    MergeIsSorted(s, less, lo, lo, m, e);
    MergeStaysInside(s, less, lo, m, e);
  }

  // ----- One pass -----

  /** The two runs that start at a, merged: no descent is left between a and the end of the second. */
  lemma {:induction false} MergeRuns<T(!new)>(s: seq<T>, less: (T, T) -> bool, a: nat, m: nat, e: nat)
    requires StrictWeak(less) && a < |s|
    requires m == RunEnd(s, less, a, |s|) && m < |s| && e == RunEnd(s, less, m, |s|)
    ensures Descents(s, less, a, e) == 1
    ensures var t := Merged(s, less, a, m, e);
            StablePermutation(s, t, less) && t[..a] == s[..a] && t[e..] == s[e..] && Descents(t, less, a, e) == 0
  {
    NoDescents(s, less, a, m);
    NoDescents(s, less, m, e);
    SplitDescents(s, less, a, m, e);
    AscentsSort(s, less, a, m);
    AscentsSort(s, less, m, e);
    MergeSorts(s, less, a, m, e);
    NoDescents(Merged(s, less, a, m, e), less, a, e);
  }

  /** A pass over r runs is a stable permutation that outputs (r + 1) / 2 runs and leaves no more. */
  lemma {:induction false} PassHalvesRuns<T(!new)>(s: seq<T>, less: (T, T) -> bool, a: nat)
    requires StrictWeak(less) && a < |s|
    ensures var (t, cnt) := Pass(s, less, a);
            && StablePermutation(s, t, less) && t[..a] == s[..a]
            && cnt == (Descents(s, less, a, |s|) + 2) / 2
            && Descents(t, less, a, |s|) < cnt
    decreases |s| - a, 0
  {
    var n := |s|;
    var m := RunEnd(s, less, a, n);
    if m == n {
      NoDescents(s, less, a, n);
    } else {
      var e := RunEnd(s, less, m, n);
      MergeRuns(s, less, a, m, e);
      if e < n {
        PassTail(s, Merged(s, less, a, m, e), less, a, e);
      } else {
        assert Pass(Merged(s, less, a, m, e), less, e) == (Merged(s, less, a, m, e), 0);
      }
    }
  }

  lemma {:induction false} PassTail<T(!new)>(s: seq<T>, s1: seq<T>, less: (T, T) -> bool, a: nat, b1: nat)
    requires StrictWeak(less) && a < b1 < |s| == |s1|
    requires s1[..a] == s[..a] && s1[b1..] == s[b1..] && StablePermutation(s, s1, less)
    requires !Ascent(s, less, b1) && Descents(s, less, a, b1) == 1 && Descents(s1, less, a, b1) == 0
    ensures var (t, cnt) := Pass(s1, less, b1);
            && StablePermutation(s, t, less) && t[..a] == s[..a]
            && cnt + 1 == (Descents(s, less, a, |s|) + 2) / 2
            && Descents(t, less, a, |s|) < cnt + 1
    decreases |s| - b1, 1
  {
    var n := |s|;
    PassHalvesRuns(s1, less, b1);
    var (t, cnt) := Pass(s1, less, b1);
    assert t[..a] == t[..b1][..a] && s1[..a] == s1[..b1][..a];
    SplitDescents(s, less, a, b1, n);
    assert s[b1..n] == s1[b1..n];
    SameDescents(s, s1, less, b1, n);
    SplitDescents(t, less, a, b1, n);
    assert t[a..b1] == t[..b1][a..] && s1[a..b1] == s1[..b1][a..];
    SameDescents(t, s1, less, a, b1);
  }

  // ----- The whole sort -----

  /** Passes until one outputs at most one run. */
  ghost function Sort<T(!new)>(s: seq<T>, less: (T, T) -> bool): (r: seq<T>)
    requires StrictWeak(less)
    ensures StablePermutation(s, r, less) && Sorted(r, less, 0, |r|)
    decreases Descents(s, less, 0, |s|)
  {
    if s == [] then s
    else
      PassHalvesRuns(s, less, 0);
      var (t, cnt) := Pass(s, less, 0);
      if cnt > 1 then
        Sort(t, less)
      else
        NoDescents(t, less, 0, |t|);
        AscentsSort(t, less, 0, |t|);
        t
  }

  // ----- Unique and ordered insertion -----

  /** The elements kept and removed when e is the last one kept. */
  function Unique<T>(e: T, s: seq<T>, less: (T, T) -> bool): (r: (seq<T>, seq<T>)) {
    if s == [] then ([], [])
    else if !less(e, s[0]) && !less(s[0], e) then
      var r := Unique(e, s[1..], less);
      (r.0, [s[0]] + r.1)
    else
      var r := Unique(s[0], s[1..], less);
      ([s[0]] + r.0, r.1)
  }

  /** With the elements up to k kept and REMOVED gone, list_unique goes on to keep KEEPS and remove DROPS in all. */
  ghost predicate Splitting<T>(s: seq<T>, less: (T, T) -> bool, k: nat, removed: seq<T>, keeps: seq<T>, drops: seq<T>) {
    SplittingBody(s, less, k, removed, keeps, drops) == true
  }

  ghost predicate SplittingBody<T>(s: seq<T>, less: (T, T) -> bool, k: nat, removed: seq<T>, keeps: seq<T>, drops: seq<T>) {
    && k < |s| && keeps == s[..k + 1] + Unique(s[k], s[k + 1..], less).0
    && drops == removed + Unique(s[k], s[k + 1..], less).1
  }

  lemma SplitStart<T>(s: seq<T>, less: (T, T) -> bool)
    requires s != []
    ensures Splitting(s, less, 0, [], [s[0]] + Unique(s[0], s[1..], less).0, Unique(s[0], s[1..], less).1)
  {
    assert s[..1] == [s[0]];
  }

  lemma SplitNext<T>(s: seq<T>, less: (T, T) -> bool, k: nat, removed: seq<T>, keeps: seq<T>, drops: seq<T>)
    requires k + 1 < |s| && Splitting(s, less, k, removed, keeps, drops)
    ensures Equivalent(less, s[k], s[k + 1]) ==> Splitting(s[..k + 1] + s[k + 2..], less, k, removed + [s[k + 1]], keeps, drops)
    ensures !Equivalent(less, s[k], s[k + 1]) ==> Splitting(s, less, k + 1, removed, keeps, drops)
  {
    UniqueNext(s, less, k);
    if Equivalent(less, s[k], s[k + 1]) {
      var t := s[..k + 1] + s[k + 2..];
      Assoc(removed, [s[k + 1]], Unique(t[k], t[k + 1..], less).1);
    }
  }

  lemma SplitEnd<T>(s: seq<T>, less: (T, T) -> bool, removed: seq<T>, keeps: seq<T>, drops: seq<T>)
    requires s != [] && Splitting(s, less, |s| - 1, removed, keeps, drops)
    ensures keeps == s && drops == removed
  {
  }

  /** One step of the loop of list_unique with the last kept element at position k. */
  lemma UniqueNext<T>(s: seq<T>, less: (T, T) -> bool, k: nat)
    requires k + 1 < |s|
    ensures !less(s[k], s[k + 1]) && !less(s[k + 1], s[k]) ==>
              var t := s[..k + 1] + s[k + 2..];
              t[k] == s[k] && t[..k + 1] == s[..k + 1]
              && Unique(s[k], s[k + 1..], less).0 == Unique(t[k], t[k + 1..], less).0
              && Unique(s[k], s[k + 1..], less).1 == [s[k + 1]] + Unique(t[k], t[k + 1..], less).1
    ensures less(s[k], s[k + 1]) || less(s[k + 1], s[k]) ==>
              s[..k + 1] + Unique(s[k], s[k + 1..], less).0 == s[..k + 2] + Unique(s[k + 1], s[k + 2..], less).0
              && Unique(s[k], s[k + 1..], less).1 == Unique(s[k + 1], s[k + 2..], less).1
  {
    var t := s[..k + 1] + s[k + 2..];
    assert s[k + 1..][1..] == s[k + 2..] && t[k + 1..] == s[k + 2..];
    assert s[..k + 2] == s[..k + 1] + [s[k + 1]];
  }

  /** list_unique keeps no two adjacent equals and loses nothing. */
  lemma {:induction false} UniqueSplits<T>(e: T, s: seq<T>, less: (T, T) -> bool)
    ensures var (kept, removed) := Unique(e, s, less);
            && multiset(kept) + multiset(removed) == multiset(s)
            && forall k :: 0 < k <= |kept| ==> !Equivalent(less, ([e] + kept)[k - 1], ([e] + kept)[k])
  {
    if s != [] {
      assert s == [s[0]] + s[1..];
      if !less(e, s[0]) && !less(s[0], e) {
        UniqueSplits(e, s[1..], less);
      } else {
        UniqueSplits(s[0], s[1..], less);
        var rest := Unique(s[0], s[1..], less).0;
        assert Unique(e, s, less).0 == [s[0]] + rest;
        NoEqualNeighbours(e, s[0], rest, less);
      }
    }
  }

  lemma NoEqualNeighbours<T>(e: T, x: T, rest: seq<T>, less: (T, T) -> bool)
    requires !Equivalent(less, e, x)
    requires forall k :: 0 < k <= |rest| ==> !Equivalent(less, ([x] + rest)[k - 1], ([x] + rest)[k])
    ensures forall k :: 0 < k <= |rest| + 1 ==> !Equivalent(less, ([e] + ([x] + rest))[k - 1], ([e] + ([x] + rest))[k])
  {
    forall k | 0 < k <= |rest| + 1
      ensures !Equivalent(less, ([e] + ([x] + rest))[k - 1], ([e] + ([x] + rest))[k])
    {
      if k > 1 {
        assert ([e] + ([x] + rest))[k] == ([x] + rest)[k - 1] && ([e] + ([x] + rest))[k - 1] == ([x] + rest)[k - 2];
      }
    }
  }

  /** The first position at or after i whose element is greater than x. */
  function InsertAt<T>(s: seq<T>, x: T, less: (T, T) -> bool, i: nat): (p: nat)
    requires i <= |s|
    ensures i <= p <= |s|
    ensures forall k :: i <= k < p ==> !less(x, s[k])
    ensures p < |s| ==> less(x, s[p])
    decreases |s| - i
  {
    if i == |s| || less(x, s[i]) then i else InsertAt(s, x, less, i + 1)
  }

  /** list_insert_ordered keeps a sorted list sorted and puts x after its equals. */
  lemma {:induction false} InsertKeepsSorted<T(!new)>(s: seq<T>, x: T, less: (T, T) -> bool)
    requires StrictWeak(less) && Sorted(s, less, 0, |s|)
    ensures var p := InsertAt(s, x, less, 0);
            var r := s[..p] + [x] + s[p..];
            && Sorted(r, less, 0, |r|)
            && forall k :: p <= k < |s| ==> less(x, s[k])
  {
    var p := InsertAt(s, x, less, 0);
    var r := s[..p] + [x] + s[p..];
    forall k | p <= k < |s|
      ensures less(x, s[k])
    {
      assert Between(less, x, s[k], s[p]);
    }
    forall i, j | 0 <= i < j < |r|
      ensures !less(r[j], r[i])
    {
      assert r[i] == if i < p then s[i] else if i == p then x else s[i - 1];
      assert r[j] == if j < p then s[j] else if j == p then x else s[j - 1];
    }
  }

  // ----- Reversal -----

  function Reversed<T>(s: seq<T>): (r: seq<T>)
    ensures |r| == |s|
  {
    seq(|s|, k requires 0 <= k < |s| => s[|s| - 1 - k])
  }
}
