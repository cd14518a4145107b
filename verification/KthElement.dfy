/** findKth and findMedianSortedArrays of cpp/online_judge/leetcode/editor/cn/寻找两个正序数组的中位数.cpp. */
module KthElement {
  import opened Sequences

  const INT_MAX: int := 0x7fff_ffff

  ghost predicate IntRange(s: seq<int>) {
    forall i :: 0 <= i < |s| ==> s[i] <= INT_MAX
  }

  function Less(s: seq<int>, v: int): nat {
    if s == [] then 0 else (if s[0] < v then 1 else 0) + Less(s[1..], v)
  }

  function AtMost(s: seq<int>, v: int): nat {
    if s == [] then 0 else (if s[0] <= v then 1 else 0) + AtMost(s[1..], v)
  }

  /** `v` is the k-th smallest of the two sequences together: fewer than k below it, at least k not above it. */
  ghost predicate IsKth(a: seq<int>, b: seq<int>, k: int, v: int) {
    Less(a, v) + Less(b, v) < k <= AtMost(a, v) + AtMost(b, v)
  }

  lemma {:induction false} CountConcat(s: seq<int>, t: seq<int>, v: int)
    ensures Less(s + t, v) == Less(s, v) + Less(t, v)
    ensures AtMost(s + t, v) == AtMost(s, v) + AtMost(t, v)
  {
    if s == [] {
      assert s + t == t;
    } else {
      assert (s + t)[1..] == s[1..] + t;
      CountConcat(s[1..], t, v);
    }
  }

  lemma {:induction false} CountBounds(s: seq<int>, v: int)
    ensures Less(s, v) <= AtMost(s, v) <= |s|
  {
    if s == [] {
    } else {
      CountBounds(s[1..], v);
    }
  }

  lemma {:induction false} CountAll(s: seq<int>, v: int)
    ensures (forall i :: 0 <= i < |s| ==> s[i] <= v) ==> AtMost(s, v) == |s|
    ensures (forall i :: 0 <= i < |s| ==> s[i] < v) ==> Less(s, v) == |s|
    ensures (forall i :: 0 <= i < |s| ==> s[i] > v) ==> AtMost(s, v) == 0
    ensures (forall i :: 0 <= i < |s| ==> s[i] >= v) ==> Less(s, v) == 0
  {
    if s == [] {
    } else {
      CountAll(s[1..], v);
    }
  }

  lemma CountSplit(s: seq<int>, h: nat, v: int)
    requires h <= |s|
    ensures Less(s, v) == Less(s[..h], v) + Less(s[h..], v) && AtMost(s, v) == AtMost(s[..h], v) + AtMost(s[h..], v)
    ensures Less(s[..h], v) <= AtMost(s[..h], v) <= h
  {
    assert s == s[..h] + s[h..];
    CountConcat(s[..h], s[h..], v);
    CountBounds(s[..h], v);
  }

  /** In a sorted sequence an element not below `v` bounds how many are. */
  lemma SortedFew(s: seq<int>, h: nat, v: int)
    requires Sorted(s) && h < |s|
    ensures s[h] > v ==> AtMost(s, v) <= h
    ensures s[h] >= v ==> Less(s, v) <= h
  {
    CountSplit(s, h, v);
    CountAll(s[h..], v);
  }

  lemma {:induction false} SortedMany(s: seq<int>, h: nat, v: int)
    requires Sorted(s) && h < |s|
    ensures s[h] <= v ==> AtMost(s, v) >= h + 1
    ensures s[h] < v ==> Less(s, v) >= h + 1
  {
    CountSplit(s, h + 1, v);
    CountAll(s[..h + 1], v);
  }

  /**
   The halving step: when the h-th element of `a` does not exceed the h-th element of `b` (or `b` is shorter
   than h), the first h elements of `a` can be dropped, for any k of at least 2h.
   */
  lemma DropHalf(a: seq<int>, b: seq<int>, h: nat, k: int, v: int)
    requires Sorted(a) && Sorted(b) && 1 <= h <= |a| && 2 * h <= k
    requires h <= |b| ==> a[h - 1] <= b[h - 1]
    requires IsKth(a[h..], b, k - h, v)
    ensures IsKth(a, b, k, v)
  {
    assert a == a[..h] + a[h..];
    CountConcat(a[..h], a[h..], v);
    CountBounds(a[..h], v);
    CountBounds(b, v);
    if a[h - 1] <= v {
      CountAll(a[..h], v);
    } else {
      CountAll(a[h..], v);
      if h <= |b| {
        SortedFew(b, h - 1, v);
      }
    }
  }

  /** One sequence exhausted: the k-th element of the other. */
  lemma KthOfOne(s: seq<int>, k: int)
    requires Sorted(s) && 1 <= k <= |s|
    ensures IsKth(s, [], k, s[k - 1])
  {
    SortedFew(s, k - 1, s[k - 1]);
    SortedMany(s, k - 1, s[k - 1]);
  }

  lemma FirstOfTwo(a: seq<int>, b: seq<int>)
    requires Sorted(a) && Sorted(b) && |a| > 0 && |b| > 0
    ensures IsKth(a, b, 1, if a[0] < b[0] then a[0] else b[0])
  {
    var v := if a[0] < b[0] then a[0] else b[0];
    CountAll(a, v);
    CountAll(b, v);
    SortedMany(a, 0, v);
    SortedMany(b, 0, v);
  }

  /** The tie with the sentinel: `b` is too short and the h-th element of `a` is a real INT_MAX. */
  lemma SentinelTie(a: seq<int>, b: seq<int>, h: nat, k: int)
    requires Sorted(a) && IntRange(a) && IntRange(b) && |b| < h <= |a| && 2 * h <= k <= |a| + |b| && a[h - 1] == INT_MAX
    ensures k - h <= |a| && a[k - h - 1] == INT_MAX && IsKth(a, b, k, INT_MAX)
  {
    SortedFew(a, h - 1, INT_MAX);
    CountBounds(b, INT_MAX);
    CountAll(a, INT_MAX);
    CountAll(b, INT_MAX);
  }

  /** nums[i + k/2 - 1], or INT_MAX past the end. */
  function MidVal(s: seq<int>, x: nat): int {
    if x < |s| then s[x] else INT_MAX
  }

  /** The branch that steps the first index on. */
  lemma StepFirst(a: seq<int>, i: nat, b: seq<int>, j: nat, h: nat, k: int, v: int)
    requires Sorted(a) && Sorted(b) && IntRange(b) && i < |a| && j < |b| && 1 <= h && 2 * h <= k
    requires MidVal(a, i + h - 1) < MidVal(b, j + h - 1)
    requires i + h <= |a| ==> IsKth(a[i + h..], b[j..], k - h, v)
    ensures i + h <= |a| && IsKth(a[i..], b[j..], k, v)
  {
    var s, t := a[i..], b[j..];
    assert s[h..] == a[i + h..];
    assert s[h - 1] == a[i + h - 1];
    assert h <= |t| ==> t[h - 1] == b[j + h - 1];
    DropHalf(s, t, h, k, v);
  }

  /** The branch that steps the second index on, within the array. */
  lemma StepSecond(a: seq<int>, i: nat, b: seq<int>, j: nat, h: nat, k: int, v: int)
    requires Sorted(a) && Sorted(b) && i < |a| && 1 <= h && j + h <= |b| && 2 * h <= k
    requires MidVal(a, i + h - 1) >= b[j + h - 1]
    requires IsKth(a[i..], b[j + h..], k - h, v)
    ensures IsKth(a[i..], b[j..], k, v)
  {
    var s, t := a[i..], b[j..];
    assert t[h..] == b[j + h..];
    assert t[h - 1] == b[j + h - 1];
    assert h <= |s| ==> s[h - 1] == a[i + h - 1];
    DropHalf(t, s, h, k, v);
  }

  /** The branch that steps the second index past the end: the first array alone answers. */
  lemma StepPast(a: seq<int>, i: nat, b: seq<int>, j: nat, h: nat, k: int)
    requires Sorted(a) && IntRange(a) && IntRange(b) && i < |a| && j < |b| < j + h && 1 <= h && 2 * h <= k <= 2 * h + 1
    requires k <= |a| - i + |b| - j && MidVal(a, i + h - 1) >= INT_MAX
    ensures i + k - h <= |a| && IsKth(a[i..], b[j..], k, a[i + k - h - 1])
  {
    var s, t := a[i..], b[j..];
    assert h <= |s|;
    assert s[h - 1] == a[i + h - 1];
    SentinelTie(s, t, h, k);
    assert s[k - h - 1] == a[i + k - h - 1];
  }

  /** One array is used up, or one element is wanted. */
  lemma BaseCases(a: seq<int>, i: nat, b: seq<int>, j: nat, k: int)
    requires Sorted(a) && Sorted(b) && i <= |a| && j <= |b| && 1 <= k <= |a| - i + |b| - j
    ensures i == |a| ==> IsKth(a[i..], b[j..], k, b[j + k - 1])
    ensures j == |b| ==> IsKth(a[i..], b[j..], k, a[i + k - 1])
    ensures i < |a| && j < |b| && k == 1 ==> IsKth(a[i..], b[j..], k, if a[i] < b[j] then a[i] else b[j])
  {
    var s, t := a[i..], b[j..];
    if i == |a| {
      KthOfOne(t, k);
    }
    if j == |b| {
      KthOfOne(s, k);
    }
    if i < |a| && j < |b| {
      FirstOfTwo(s, t);
    }
  }

  /**
   findKth. A second index past the end of `b` arises only from a tie with the sentinel; then `a` alone answers.
   */
  function FindKth(a: seq<int>, i: nat, b: seq<int>, j: nat, k: int): (r: int)
    requires Sorted(a) && Sorted(b) && IntRange(a) && IntRange(b) && k >= 1 && i <= |a|
    requires if j <= |b| then k <= |a| - i + |b| - j else i + k <= |a|
    ensures j <= |b| ==> IsKth(a[i..], b[j..], k, r)
    ensures j > |b| ==> r == a[i + k - 1]
    decreases k
  {
    if i >= |a| then
      BaseCases(a, i, b, j, k);
      b[j + k - 1]
    else if j >= |b| then
      assert j == |b| ==> IsKth(a[i..], b[j..], k, a[i + k - 1]) by {
        BaseCases(a, i, b, |b|, k);
      }
      a[i + k - 1]
    else if k == 1 then
      BaseCases(a, i, b, j, k);
      if a[i] < b[j] then a[i] else b[j]
    else
      var h := k / 2;
      var mid1, mid2 := MidVal(a, i + h - 1), MidVal(b, j + h - 1);
      if mid1 < mid2 then
        var r := FindKth(a, i + h, b, j, k - h);
        StepFirst(a, i, b, j, h, k, r);
        r
      else if j + h <= |b| then
        var r := FindKth(a, i, b, j + h, k - h);
        StepSecond(a, i, b, j, h, k, r);
        r
      else
        StepPast(a, i, b, j, h, k);
        FindKth(a, i, b, j + h, k - h)
  }

  // ----- Against sorting -----

  lemma {:induction false} CountPermuted(s: seq<int>, t: seq<int>, v: int)
    requires multiset(s) == multiset(t)
    ensures Less(s, v) == Less(t, v) && AtMost(s, v) == AtMost(t, v)
    decreases |s|
  {
    if s == [] {
      assert |multiset(t)| == 0;
    } else {
      var k, r := PullOut(s, t);
      CountRemoveAt(t, k, v);
      CountPermuted(s[1..], r, v);
    }
  }

  lemma Occurrence(s: seq<int>, t: seq<int>) returns (k: nat)
    requires multiset(s) == multiset(t) && s != []
    ensures k < |t| && t[k] == s[0]
  {
    assert s[0] in multiset(t);
    k :| 0 <= k < |t| && t[k] == s[0];
  }

  lemma TailBag(s: seq<int>)
    requires s != []
    ensures multiset(s) == multiset(s[1..]) + multiset{s[0]}
  {
    assert s == [s[0]] + s[1..];
  }

  lemma PullOut(s: seq<int>, t: seq<int>) returns (k: nat, r: seq<int>)
    requires multiset(s) == multiset(t) && s != []
    ensures k < |t| && t[k] == s[0] && r == t[..k] + t[k + 1..] && multiset(s[1..]) == multiset(r)
  {
    k := Occurrence(s, t);
    r := t[..k] + t[k + 1..];
    BagWithout(t, k);
    TailBag(s);
    assert multiset(s[1..]) == multiset(s) - multiset{s[0]} == multiset(r);
  }

  lemma CountRemoveAt(t: seq<int>, k: nat, v: int)
    requires k < |t|
    ensures Less(t, v) == Less(t[..k] + t[k + 1..], v) + (if t[k] < v then 1 else 0)
    ensures AtMost(t, v) == AtMost(t[..k] + t[k + 1..], v) + (if t[k] <= v then 1 else 0)
  {
    assert t == t[..k] + t[k..];
    CountConcat(t[..k], t[k..], v);
    CountConcat(t[..k], t[k + 1..], v);
    assert t[k..][1..] == t[k + 1..];
  }

  /** The k-th element by counting is the element at index k - 1 of any sorted arrangement. */
  lemma KthIsSortedIndex(a: seq<int>, b: seq<int>, s: seq<int>, k: int, v: int)
    requires Sorted(s) && multiset(s) == multiset(a) + multiset(b) && 1 <= k <= |s|
    ensures IsKth(a, b, k, v) <==> s[k - 1] == v
  {
    assert multiset(a + b) == multiset(a) + multiset(b);
    CountPermuted(s, a + b, v);
    CountConcat(a, b, v);
    SortedFew(s, k - 1, v);
    SortedMany(s, k - 1, v);
  }

  /** findKth returns the k-th smallest of the combined arrays, for every valid k. */
  lemma FindKthIsSortedIndex(a: seq<int>, b: seq<int>, s: seq<int>, k: int)
    requires Sorted(a) && Sorted(b) && IntRange(a) && IntRange(b)
    requires Sorted(s) && multiset(s) == multiset(a) + multiset(b) && 1 <= k <= |s| == |a| + |b|
    ensures FindKth(a, 0, b, 0, k) == s[k - 1]
  {
    assert a[0..] == a && b[0..] == b;
    KthIsSortedIndex(a, b, s, k, FindKth(a, 0, b, 0, k));
  }

  lemma SameSize(a: seq<int>, b: seq<int>, s: seq<int>)
    requires multiset(s) == multiset(a) + multiset(b)
    ensures |s| == |a| + |b|
  {
    assert |multiset(s)| == |s|;
  }

  lemma Halves(n: int)
    requires n >= 1
    ensures 1 <= (n + 1) / 2 <= (n + 2) / 2 <= n
    ensures (n + 1) / 2 - 1 == (n - 1) / 2 && (n + 2) / 2 - 1 == n / 2
  {
  }

  /** The two elements around the middle, which are one when their number is odd. */
  lemma MiddleOfTwo(a: seq<int>, b: seq<int>, x: int, y: int, s: seq<int>)
    requires |a| + |b| >= 1 && Sorted(s) && multiset(s) == multiset(a) + multiset(b)
    requires var n := |a| + |b|; IsKth(a, b, (n + 1) / 2, x) && IsKth(a, b, (n + 2) / 2, y)
    ensures |s| == |a| + |b| && x == s[(|s| - 1) / 2] && y == s[|s| / 2]
  {
    SameSize(a, b, s);
    Halves(|s|);
    KthIsSortedIndex(a, b, s, (|s| + 1) / 2, x);
    KthIsSortedIndex(a, b, s, (|s| + 2) / 2, y);
  }

  /** findMedianSortedArrays: half the sum of the two middle elements of any sorted arrangement of both arrays. */
  function FindMedian(a: seq<int>, b: seq<int>): (r: real)
    requires Sorted(a) && Sorted(b) && IntRange(a) && IntRange(b) && |a| + |b| >= 1
    ensures forall s :: Sorted(s) && multiset(s) == multiset(a) + multiset(b) ==>
              |s| == |a| + |b| && 2.0 * r == s[(|s| - 1) / 2] as real + s[|s| / 2] as real
  {
    var n := |a| + |b|;
    Halves(n);
    var x, y := FindKth(a, 0, b, 0, (n + 1) / 2), FindKth(a, 0, b, 0, (n + 2) / 2);
    assert a[0..] == a && b[0..] == b;
    assert IsKth(a, b, (n + 1) / 2, x) && IsKth(a, b, (n + 2) / 2, y);
    assert forall s :: Sorted(s) && multiset(s) == multiset(a) + multiset(b) ==>
             |s| == n && x == s[(|s| - 1) / 2] && y == s[|s| / 2] by {
      forall s | Sorted(s) && multiset(s) == multiset(a) + multiset(b)
        ensures |s| == n && x == s[(|s| - 1) / 2] && y == s[|s| / 2]
      {
        MiddleOfTwo(a, b, x, y, s);
      }
    }
    (x as real + y as real) / 2.0
  }
}
