/**
 The in-place merge sort and bubble sort. Elements are ordered by a key, so that what happens
 to equal keys can be told; the program's integers are their own keys.
 */
module Sorting {
  ghost predicate Ordered<T>(key: T -> int, s: seq<T>) {
    forall i, j :: 0 <= i <= j < |s| ==> key(s[i]) <= key(s[j])
  }

  /** The elements with key `k`, in order. */
  function Run<T>(key: T -> int, s: seq<T>, k: int): seq<T> {
    if s == [] then []
    else if key(s[0]) == k then [s[0]] + Run(key, s[1..], k)
    else Run(key, s[1..], k)
  }

  /** The same elements, with those of equal key in the same order. */
  ghost predicate StableRearrangement<T>(key: T -> int, s: seq<T>, t: seq<T>) {
    forall k :: Run(key, s, k) == Run(key, t, k)
  }

  // ----- facts about runs

  lemma {:induction false} RunConcat<T>(key: T -> int, s: seq<T>, t: seq<T>, k: int)
    ensures Run(key, s + t, k) == Run(key, s, k) + Run(key, t, k)
  {
    if s == [] {
      assert [] + t == t;
    } else {
      assert (s + t)[1..] == s[1..] + t;
      RunConcat(key, s[1..], t, k);
    }
  }

  lemma {:induction false} RunAbsent<T>(key: T -> int, s: seq<T>, k: int)
    ensures (forall i :: 0 <= i < |s| ==> key(s[i]) != k) <==> Run(key, s, k) == []
  {
    if s != [] {
      RunAbsent(key, s[1..], k);
      assert forall i :: 0 < i < |s| ==> s[i] == s[1..][i - 1];
    }
  }

  lemma {:induction false} RunCount<T>(key: T -> int, s: seq<T>, x: T)
    ensures multiset(s)[x] == multiset(Run(key, s, key(x)))[x]
  {
    if s != [] {
      assert s == [s[0]] + s[1..];
      RunCount(key, s[1..], x);
    }
  }

  /** A stable rearrangement is a permutation. */
  lemma StableIsPermutation<T>(key: T -> int, s: seq<T>, t: seq<T>)
    requires StableRearrangement(key, s, t)
    ensures multiset(s) == multiset(t)
  {
    forall x: T ensures multiset(s)[x] == multiset(t)[x] {
      RunCount(key, s, x);
      RunCount(key, t, x);
    }
  }

  lemma LeastKeyFirst<T>(key: T -> int, s: seq<T>, t: seq<T>)
    requires Ordered(key, s) && Ordered(key, t) && StableRearrangement(key, s, t) && s != []
    ensures t != [] && key(t[0]) <= key(s[0])
  {
    assert Run(key, s, key(s[0])) == Run(key, t, key(s[0]));
    RunAbsent(key, t, key(s[0]));
  }

  /** There is only one ordered stable rearrangement. */
  lemma {:induction false} OrderedIsUnique<T>(key: T -> int, s: seq<T>, t: seq<T>)
    requires Ordered(key, s) && Ordered(key, t) && StableRearrangement(key, s, t)
    ensures s == t
  {
    if s == [] {
      if t != [] {
        LeastKeyFirst(key, t, s);
      }
    } else {
      LeastKeyFirst(key, s, t);
      LeastKeyFirst(key, t, s);
      assert Run(key, s, key(s[0])) == Run(key, t, key(s[0]));
      assert s[0] == Run(key, s, key(s[0]))[0] == t[0];
      forall k ensures Run(key, s[1..], k) == Run(key, t[1..], k) {
        assert Run(key, s, k) == Run(key, t, k);
        if key(s[0]) == k {
          assert Run(key, s[1..], k) == Run(key, s, k)[1..];
        }
      }
      OrderedIsUnique(key, s[1..], t[1..]);
    }
  }

  // ----- merging and merge sort on sequences

  function Merged<T>(key: T -> int, a: seq<T>, b: seq<T>): seq<T>
    decreases |a| + |b|
  {
    if a == [] then b
    else if b == [] then a
    else if key(a[0]) <= key(b[0]) then [a[0]] + Merged(key, a[1..], b)
    else [b[0]] + Merged(key, a, b[1..])
  }

  lemma {:induction false} MergedBounds<T>(key: T -> int, a: seq<T>, b: seq<T>, low: int)
    requires forall i :: 0 <= i < |a| ==> low <= key(a[i])
    requires forall i :: 0 <= i < |b| ==> low <= key(b[i])
    ensures |Merged(key, a, b)| == |a| + |b|
    ensures forall i :: 0 <= i < |Merged(key, a, b)| ==> low <= key(Merged(key, a, b)[i])
    decreases |a| + |b|
  {
    if a != [] && b != [] {
      if key(a[0]) <= key(b[0]) {
        MergedBounds(key, a[1..], b, low);
      } else {
        MergedBounds(key, a, b[1..], low);
      }
    }
  }

  lemma {:induction false} MergedOrdered<T>(key: T -> int, a: seq<T>, b: seq<T>)
    requires Ordered(key, a) && Ordered(key, b)
    ensures Ordered(key, Merged(key, a, b))
    decreases |a| + |b|
  {
    if a != [] && b != [] {
      if key(a[0]) <= key(b[0]) {
        MergedOrdered(key, a[1..], b);
        MergedBounds(key, a[1..], b, key(a[0]));
      } else {
        MergedOrdered(key, a, b[1..]);
        MergedBounds(key, a, b[1..], key(b[0]));
      }
    }
  }

  /** Ties take the left run: each key's elements come first from `a`, then from `b`. */
  lemma {:induction false} MergedStable<T>(key: T -> int, a: seq<T>, b: seq<T>, k: int)
    requires Ordered(key, a)
    ensures Run(key, Merged(key, a, b), k) == Run(key, a, k) + Run(key, b, k)
    decreases |a| + |b|
  {
    if a != [] && b != [] {
      var m := Merged(key, a, b);
      if key(a[0]) <= key(b[0]) {
        MergedStable(key, a[1..], b, k);
        assert m[1..] == Merged(key, a[1..], b);
      } else {
        MergedStable(key, a, b[1..], k);
        assert m[1..] == Merged(key, a, b[1..]);
        if k == key(b[0]) {
          RunAbsent(key, a, k);
        }
      }
    }
  }

  /** The length of the first half; the midpoint itself goes left. */
  function Half(n: nat): nat
    requires n > 0
  {
    (n - 1) / 2 + 1
  }

  function Sorted<T>(key: T -> int, s: seq<T>): seq<T>
    decreases |s|
  {
    if |s| <= 1 then s
    else
      var m := Half(|s|);
      Merged(key, Sorted(key, s[..m]), Sorted(key, s[m..]))
  }

  /** Merge sort orders, permutes, and keeps equal keys in order. */
  lemma {:induction false} SortedCorrect<T>(key: T -> int, s: seq<T>)
    ensures Ordered(key, Sorted(key, s))
    ensures StableRearrangement(key, Sorted(key, s), s)
    ensures |Sorted(key, s)| == |s|
    decreases |s|
  {
    if |s| > 1 {
      var m := Half(|s|);
      var a, b := Sorted(key, s[..m]), Sorted(key, s[m..]);
      SortedCorrect(key, s[..m]);
      SortedCorrect(key, s[m..]);
      MergedCorrect(key, s[..m], s[m..], a, b);
      assert s[..m] + s[m..] == s;
    }
  }

  /** Merging the sorted forms of two parts gives the sorted form of the whole. */
  lemma MergedCorrect<T>(key: T -> int, s: seq<T>, t: seq<T>, a: seq<T>, b: seq<T>)
    requires Ordered(key, a) && StableRearrangement(key, a, s)
    requires Ordered(key, b) && StableRearrangement(key, b, t)
    ensures Ordered(key, Merged(key, a, b))
    ensures StableRearrangement(key, Merged(key, a, b), s + t)
    ensures |Merged(key, a, b)| == |s + t|
  {
    MergedOrdered(key, a, b);
    forall k ensures Run(key, Merged(key, a, b), k) == Run(key, s + t, k) {
      MergedStable(key, a, b, k);
      RunConcat(key, s, t, k);
      assert Run(key, a, k) == Run(key, s, k) && Run(key, b, k) == Run(key, t, k);
    }
    StableIsPermutation(key, Merged(key, a, b), s + t);
    assert |multiset(Merged(key, a, b))| == |multiset(s + t)|;
  }

  // ----- merge sort on an array

  /** `s` with the part from `lo` up to `hi` replaced. */
  ghost function Patched<T>(s: seq<T>, lo: nat, part: seq<T>, hi: nat): seq<T>
    requires lo <= hi <= |s|
  {
    s[..lo] + part + s[hi..]
  }

  lemma MergedStep<T>(key: T -> int, done: seq<T>, a: seq<T>, b: seq<T>)
    requires a != [] && b != []
    ensures if key(a[0]) <= key(b[0])
            then done + Merged(key, a, b) == (done + [a[0]]) + Merged(key, a[1..], b)
            else done + Merged(key, a, b) == (done + [b[0]]) + Merged(key, a, b[1..])
  {
  }

  /** `done` stands in `s` from `l` on; before that and from `e` on `s` is still `start`. */
  ghost predicate Placed<T>(start: seq<T>, s: seq<T>, l: nat, done: seq<T>, e: nat) {
    && |s| == |start| && l + |done| <= e <= |s|
    && s[..l + |done|] == start[..l] + done && s[e..] == start[e..]
  }

  lemma PlacedOneMore<T>(start: seq<T>, s: seq<T>, l: nat, done: seq<T>, e: nat, x: T)
    requires Placed(start, s, l, done, e) && l + |done| < e
    ensures Placed(start, s[l + |done| := x], l, done + [x], e)
  {
    var k, s' := l + |done|, s[l + |done| := x];
    assert s'[..k + 1] == s[..k] + [x];
    assert s'[e..] == s[e..];
  }

  /** Writes the next element of the merge. */
  method Place<T>(arr: array<T>, k: nat, x: T, ghost start: seq<T>, ghost l: nat, ghost done: seq<T>, ghost e: nat)
    requires Placed(start, arr[..], l, done, e) && k == l + |done| < e
    modifies arr
    ensures Placed(start, arr[..], l, done + [x], e)
  {
    PlacedOneMore(start, arr[..], l, done, e, x);
    ghost var s := arr[..];
    arr[k] := x;
    assert arr[..] == s[k := x];
  }

  /** Takes the smaller head, or the left one if they tie, until one run is used up. */
  method MergeHeads<T>(arr: array<T>, key: T -> int, l: nat, L: seq<T>, R: seq<T>)
    returns (i: nat, j: nat, ghost done: seq<T>)
    requires l + |L| + |R| <= arr.Length
    modifies arr
    ensures i <= |L| && j <= |R| && (i == |L| || j == |R|)
    ensures |done| == i + j && done + Merged(key, L[i..], R[j..]) == Merged(key, L, R)
    ensures Placed(old(arr[..]), arr[..], l, done, l + |L| + |R|)
  {
    i, j, done := 0, 0, [];
    while i < |L| && j < |R|
      invariant i <= |L| && j <= |R| && |done| == i + j
      invariant done + Merged(key, L[i..], R[j..]) == Merged(key, L, R)
      invariant Placed(old(arr[..]), arr[..], l, done, l + |L| + |R|)
    {
      MergedStep(key, done, L[i..], R[j..]);
      if key(L[i]) <= key(R[j]) {
        Place(arr, l + i + j, L[i], old(arr[..]), l, done, l + |L| + |R|);
        done := done + [L[i]];
        i := i + 1;
      } else {
        Place(arr, l + i + j, R[j], old(arr[..]), l, done, l + |L| + |R|);
        done := done + [R[j]];
        j := j + 1;
      }
    }
  }

  /** Copies what is left of one run. */
  method CopyRest<T>(
    arr: array<T>, k: nat, run: seq<T>, i: nat, ghost start: seq<T>, ghost l: nat, ghost done: seq<T>, ghost e: nat)
    requires Placed(start, arr[..], l, done, e) && k == l + |done|
    requires i <= |run| && k + |run| - i <= e
    modifies arr
    ensures Placed(start, arr[..], l, done + run[i..], e)
  {
    var n := i;
    ghost var now := done;
    while n < |run|
      invariant i <= n <= |run| && now == done + run[i..n]
      invariant Placed(start, arr[..], l, now, e)
    {
      Place(arr, k + n - i, run[n], start, l, now, e);
      now := now + [run[n]];
      n := n + 1;
    }
  }

  method Merge<T>(arr: array<T>, key: T -> int, l: nat, m: nat, r: nat)
    requires l <= m < r < arr.Length
    modifies arr
    ensures arr[..] == Patched(old(arr[..]), l, Merged(key, old(arr[l..m + 1]), old(arr[m + 1..r + 1])), r + 1)
  {
    MergeRuns(arr, key, l, arr[l..m + 1], arr[m + 1..r + 1]);
  }

  /** Writes the merge of two runs over the place they came from. */
  method MergeRuns<T>(arr: array<T>, key: T -> int, l: nat, L: seq<T>, R: seq<T>)
    requires l + |L| + |R| <= arr.Length
    modifies arr
    ensures arr[..] == Patched(old(arr[..]), l, Merged(key, L, R), l + |L| + |R|)
  {
    ghost var start, e := arr[..], l + |L| + |R|;
    var i, j;
    ghost var done;
    i, j, done := MergeHeads(arr, key, l, L, R);
    CopyRest(arr, l + i + j, L, i, start, l, done, e);
    CopyRest(arr, l + |L| + j, R, j, start, l, done + L[i..], e);
    LastRun(key, done, L[i..], R[j..]);
    PlacedAll(start, arr[..], l, Merged(key, L, R), e);
  }

  /** One of the two runs is used up, and the other ends the merge. */
  lemma LastRun<T>(key: T -> int, done: seq<T>, a: seq<T>, b: seq<T>)
    requires a == [] || b == []
    ensures done + a + b == done + Merged(key, a, b)
  {
  }

  lemma PlacedAll<T>(start: seq<T>, s: seq<T>, l: nat, all: seq<T>, e: nat)
    requires Placed(start, s, l, all, e) && l + |all| == e
    ensures s == Patched(start, l, all, e)
  {
    assert s == s[..e] + s[e..];
  }

  /** Sorts the part from `l` to `r`, both included, and touches nothing else. */
  method MergeSort<T>(arr: array<T>, key: T -> int, l: nat, r: int)
    requires l <= r + 1 <= arr.Length
    modifies arr
    ensures arr[..] == Patched(old(arr[..]), l, Sorted(key, old(arr[l..r + 1])), r + 1)
    decreases r - l
  {
    if l < r {
      var m := l + (r - l) / 2;
      ghost var s := arr[..];
      MergeSort(arr, key, l, m);
      ghost var s1 := arr[..];
      MergeSort(arr, key, m + 1, r);
      HalvesSorted(key, s, s1, arr[..], l, m, r);
      Merge(arr, key, l, m, r);
    } else {
      AtMostOneIsSorted(key, arr[..], l, r + 1);
    }
  }

  lemma AtMostOneIsSorted<T>(key: T -> int, s: seq<T>, l: nat, e: nat)
    requires l <= e <= |s| && e - l <= 1
    ensures s == Patched(s, l, Sorted(key, s[l..e]), e)
  {
    assert s == s[..l] + s[l..e] + s[e..];
  }

  lemma PatchedHalves<T>(s: seq<T>, s1: seq<T>, s2: seq<T>, l: nat, m: nat, r: nat, a: seq<T>, b: seq<T>, c: seq<T>)
    requires l <= m < r < |s| && |a| == m + 1 - l && |b| == r - m
    requires s1 == Patched(s, l, a, m + 1) && |s1| == |s| && s2 == Patched(s1, m + 1, b, r + 1)
    ensures |s2| == |s| && s2[l..m + 1] == a && s2[m + 1..r + 1] == b
    ensures Patched(s2, l, c, r + 1) == Patched(s, l, c, r + 1)
  {
    assert s2[..l] == s[..l] && s2[r + 1..] == s[r + 1..];
  }

  lemma RightHalfKept<T>(s: seq<T>, s1: seq<T>, l: nat, m: nat, r: nat, a: seq<T>)
    requires l <= m < r < |s| && |a| == m + 1 - l && s1 == Patched(s, l, a, m + 1)
    ensures |s1| == |s| && s1[m + 1..r + 1] == s[m + 1..r + 1]
  {
  }

  lemma SortedSplits<T>(key: T -> int, a: seq<T>, b: seq<T>)
    requires b != [] && |a| == Half(|a| + |b|)
    ensures Sorted(key, a + b) == Merged(key, Sorted(key, a), Sorted(key, b))
  {
    assert (a + b)[..|a|] == a && (a + b)[|a|..] == b;
  }

  lemma SortedHalves<T>(key: T -> int, s: seq<T>, l: nat, m: nat, r: nat)
    requires l <= m < r < |s| && m == l + (r - l) / 2
    ensures var a, b := Sorted(key, s[l..m + 1]), Sorted(key, s[m + 1..r + 1]);
            |a| == m + 1 - l && |b| == r - m && Merged(key, a, b) == Sorted(key, s[l..r + 1])
  {
    var left, right := s[l..m + 1], s[m + 1..r + 1];
    SortedCorrect(key, left);
    SortedCorrect(key, right);
    assert left + right == s[l..r + 1];
    SortedSplits(key, left, right);
  }

  /** Once both halves are sorted, merging them sorts the whole. */
  lemma HalvesSorted<T>(key: T -> int, s: seq<T>, s1: seq<T>, s2: seq<T>, l: nat, m: nat, r: nat)
    requires l <= m < r < |s| && m == l + (r - l) / 2
    requires s1 == Patched(s, l, Sorted(key, s[l..m + 1]), m + 1)
    requires |s1| == |s| && s2 == Patched(s1, m + 1, Sorted(key, s1[m + 1..r + 1]), r + 1)
    ensures |s2| == |s|
    ensures Patched(s2, l, Merged(key, s2[l..m + 1], s2[m + 1..r + 1]), r + 1)
         == Patched(s, l, Sorted(key, s[l..r + 1]), r + 1)
  {
    var left, right := s[l..m + 1], s[m + 1..r + 1];
    var a, b := Sorted(key, left), Sorted(key, right);
    SortedHalves(key, s, l, m, r);
    RightHalfKept(s, s1, l, m, r, a);
    PatchedHalves(s, s1, s2, l, m, r, a, b, Sorted(key, s[l..r + 1]));
  }

  // ----- bubble sort on an array

  lemma SwapKeepsRuns<T>(key: T -> int, s: seq<T>, j: nat, t: seq<T>)
    requires j + 1 < |s| && key(s[j]) > key(s[j + 1])
    requires t == s[j := s[j + 1]][j + 1 := s[j]]
    ensures StableRearrangement(key, t, s)
  {
    var a, x, y, b := s[..j], s[j], s[j + 1], s[j + 2..];
    assert s == a + ([x] + [y] + b) && t == a + ([y] + [x] + b);
    forall k ensures Run(key, t, k) == Run(key, s, k) {
      RunConcat(key, a, [x] + [y] + b, k);
      RunConcat(key, a, [y] + [x] + b, k);
      RunConcat(key, [x] + [y], b, k);
      RunConcat(key, [y] + [x], b, k);
      RunConcat(key, [x], [y], k);
      RunConcat(key, [y], [x], k);
    }
  }

  /** The last `i` elements are in place: ordered, and no smaller than any before them. */
  ghost predicate TailPlaced<T>(key: T -> int, s: seq<T>, i: nat) {
    i <= |s| && forall p, q :: 0 <= p <= q < |s| && |s| - i <= q ==> key(s[p]) <= key(s[q])
  }

  /** One pass moves the largest element of the unplaced part to its end. */
  method BubblePass<T>(arr: array<T>, key: T -> int, len: nat, i: nat)
    requires i < len <= arr.Length && TailPlaced(key, arr[..len], i)
    modifies arr
    ensures StableRearrangement(key, arr[..len], old(arr[..len])) && arr[len..] == old(arr[len..])
    ensures TailPlaced(key, arr[..len], i + 1)
  {
    ghost var s := arr[..len];
    for j := 0 to len - i - 1
      invariant StableRearrangement(key, arr[..len], s) && arr[len..] == old(arr[len..])
      invariant TailPlaced(key, arr[..len], i)
      invariant forall p :: 0 <= p <= j ==> key(arr[p]) <= key(arr[j])
    {
      if key(arr[j]) > key(arr[j + 1]) {
        ghost var before := arr[..len];
        var temp := arr[j];
        arr[j] := arr[j + 1];
        arr[j + 1] := temp;
        SwapKeepsRuns(key, before, j, arr[..len]);
        SwapKeepsTail(key, before, j, arr[..len], i);
      }
    }
  }

  lemma SwapKeepsTail<T>(key: T -> int, s: seq<T>, j: nat, t: seq<T>, i: nat)
    requires TailPlaced(key, s, i) && j + 1 < |s| - i && t == s[j := s[j + 1]][j + 1 := s[j]]
    ensures TailPlaced(key, t, i)
  {
  }

  /** Sorts the first `len` elements into exactly what MergeSort makes of them. */
  method BubbleSort<T>(arr: array<T>, key: T -> int, len: nat)
    requires len <= arr.Length
    modifies arr
    ensures arr[..] == Sorted(key, old(arr[..len])) + old(arr[len..])
  {
    ghost var s := arr[..len];
    for i := 0 to len
      invariant StableRearrangement(key, arr[..len], s) && arr[len..] == old(arr[len..])
      invariant TailPlaced(key, arr[..len], i)
    {
      BubblePass(arr, key, len, i);
    }
    SortedCorrect(key, s);
    OrderedIsUnique(key, arr[..len], Sorted(key, s));
    assert arr[..] == arr[..len] + arr[len..];
  }
}
