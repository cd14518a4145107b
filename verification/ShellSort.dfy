/** shellSort1 and shellSort2 of cpp/sort/shellSort.cpp: the same algorithm, halving the gap each pass. */
module ShellSort {
  import opened Sequences

  ghost predicate GapSorted(s: seq<int>, g: nat) {
    forall p, q :: 0 <= p < q < |s| && q - p == g ==> s[p] <= s[q]
  }

  /** How many of the elements at p, p + k, p + 2k, ... are at most `v`. */
  ghost function CountFrom(s: seq<int>, p: nat, k: nat, v: int): nat
    requires k >= 1
    decreases |s| - p
  {
    if p >= |s| then 0 else (if s[p] <= v then 1 else 0) + CountFrom(s, p + k, k, v)
  }

  /** Each column of stride k holds the same elements in both sequences. */
  ghost predicate SameColumns(s: seq<int>, t: seq<int>, k: nat) {
    k >= 1 && |s| == |t| && forall c: nat, v :: c < k ==> CountFrom(s, c, k, v) == CountFrom(t, c, k, v)
  }

  // ----- An ordering by one gap survives sorting by another -----

  lemma {:induction false} Pairing(s: seq<int>, h: nat, q: nat, k: nat, v: int)
    requires GapSorted(s, h) && k >= 1
    ensures CountFrom(s, q + h, k, v) <= CountFrom(s, q, k, v)
    decreases |s| - q
  {
    if q + h < |s| {
      Pairing(s, h, q + k, k, v);
      assert q + k + h == q + h + k;
    }
  }

  lemma {:induction false} DropFront(s: seq<int>, c: nat, m: nat, k: nat, v: int)
    requires k >= 1
    ensures CountFrom(s, c, k, v) <= m + CountFrom(s, c + m * k, k, v)
    decreases m
  {
    if m == 0 {
    } else {
      DropFront(s, c + k, m - 1, k, v);
      assert c + k + (m - 1) * k == c + m * k;
    }
  }

  /** In a sorted column, an element at most `v` has all its predecessors counted. */
  lemma {:induction false} ColumnMany(t: seq<int>, c: nat, m: nat, k: nat, v: int)
    requires k >= 1 && GapSorted(t, k) && c + m * k < |t| && t[c + m * k] <= v
    ensures CountFrom(t, c, k, v) >= m + 1
    decreases m
  {
    if m == 0 {
    } else {
      assert c + k + (m - 1) * k == c + m * k;
      ColumnMany(t, c + k, m - 1, k, v);
      ColumnOrder(t, c, m, k);
    }
  }

  lemma {:induction false} ColumnOrder(t: seq<int>, c: nat, m: nat, k: nat)
    requires k >= 1 && GapSorted(t, k) && c + m * k < |t|
    ensures c < |t| && t[c] <= t[c + m * k]
    decreases m
  {
    if m == 0 {
    } else {
      assert c + k + (m - 1) * k == c + m * k;
      assert (m - 1) * k >= 0;
      ColumnOrder(t, c + k, m - 1, k);
    }
  }

  /** In a sorted column, an element above `v` has no successor counted. */
  lemma {:induction false} ColumnNone(t: seq<int>, p: nat, k: nat, v: int)
    requires k >= 1 && GapSorted(t, k) && (p < |t| ==> t[p] > v)
    ensures CountFrom(t, p, k, v) == 0
    decreases |t| - p
  {
    if p < |t| {
      ColumnNone(t, p + k, k, v);
    }
  }

  lemma ColumnFew(t: seq<int>, c: nat, m: nat, k: nat, v: int)
    requires k >= 1 && GapSorted(t, k) && c + m * k < |t| && t[c + m * k] > v
    ensures CountFrom(t, c, k, v) <= m
  {
    DropFront(t, c, m, k, v);
    ColumnNone(t, c + m * k, k, v);
  }

  lemma Positions(i: nat, h: nat, k: nat)
    requires k >= 1
    ensures var a, b, r, q := i % k, (i + h) % k, i / k, (i + h) / k;
            i == a + r * k && i + h == b + q * k && r <= q && a + h == b + (q - r) * k
  {
    var a, b, r, q := i % k, (i + h) % k, i / k, (i + h) / k;
    assert i == a + r * k && i + h == b + q * k;
    RowsInOrder(a, r, b, q, k);
    Distribute(q, r, k);
  }

  lemma Distribute(q: int, r: int, k: int)
    ensures (q - r) * k == q * k - r * k
  {
  }

  lemma RowsInOrder(a: int, r: int, b: int, q: int, k: int)
    requires 0 <= a < k && 0 <= b < k && a + r * k <= b + q * k
    ensures r <= q
  {
    Distribute(q, r, k);
    assert q - r <= -1 ==> (q - r) * k <= -k;
  }

  lemma {:induction false} LowerBound(s: seq<int>, t: seq<int>, h: nat, k: nat, a: nat, r: nat, b: nat, q: nat, v: int)
    requires GapSorted(s, h) && SameColumns(s, t, k) && GapSorted(t, k)
    requires a < k && b < k && r <= q && a + h == b + (q - r) * k && b + q * k < |t| && t[b + q * k] == v
    ensures CountFrom(t, a, k, v) >= r + 1
  {
    ColumnMany(t, b, q, k, v);
    DropFront(s, b, q - r, k, v);
    Pairing(s, h, a, k, v);
  }

  /** Row r of column a against row q of column b, h positions further on. */
  lemma RowsStayOrdered(s: seq<int>, t: seq<int>, h: nat, k: nat, a: nat, r: nat, b: nat, q: nat)
    requires GapSorted(s, h) && SameColumns(s, t, k) && GapSorted(t, k)
    requires a < k && b < k && r <= q && a + h == b + (q - r) * k && b + q * k < |t| && a + r * k < |t|
    ensures t[a + r * k] <= t[b + q * k]
  {
    var v := t[b + q * k];
    LowerBound(s, t, h, k, a, r, b, q, v);
    if t[a + r * k] > v {
      ColumnFew(t, a, r, k, v);
    }
  }

  /** The classic theorem: sorting an h-ordered sequence by columns of stride k leaves it h-ordered. */
  lemma GapOrderSurvives(s: seq<int>, t: seq<int>, h: nat, k: nat)
    requires GapSorted(s, h) && SameColumns(s, t, k) && GapSorted(t, k)
    ensures GapSorted(t, h)
  {
    forall i, j | 0 <= i < j < |t| && j - i == h ensures t[i] <= t[j] {
      Positions(i, h, k);
      RowsStayOrdered(s, t, h, k, i % k, i / k, j % k, j / k);
    }
  }

  // ----- One pass -----

  function Swapped(s: seq<int>, i: nat, j: nat): seq<int>
    requires i < |s| && j < |s|
  {
    s[i := s[j]][j := s[i]]
  }

  lemma SwapBag(s: seq<int>, i: nat, j: nat)
    requires i < |s| && j < |s|
    ensures multiset(Swapped(s, i, j)) == multiset(s)
  {
  }

  lemma {:induction false} SwapCount(s: seq<int>, j: nat, k: nat, p: nat, v: int)
    requires k >= 1 && j + k < |s| && p != j + k
    ensures CountFrom(Swapped(s, j, j + k), p, k, v) == CountFrom(s, p, k, v)
    decreases |s| - p
  {
    if p < |s| {
      var s' := Swapped(s, j, j + k);
      if p == j {
        SwapCount(s, j, k, p + k + k, v);
        assert CountFrom(s, p + k, k, v) == (if s[p + k] <= v then 1 else 0) + CountFrom(s, p + k + k, k, v);
        assert CountFrom(s', p + k, k, v) == (if s'[p + k] <= v then 1 else 0) + CountFrom(s', p + k + k, k, v);
      } else {
        SwapCount(s, j, k, p + k, v);
      }
    }
  }

  lemma SwapColumns(s: seq<int>, j: nat, k: nat)
    requires k >= 1 && j + k < |s|
    ensures SameColumns(s, Swapped(s, j, j + k), k)
  {
    forall c: nat, v | c < k ensures CountFrom(s, c, k, v) == CountFrom(Swapped(s, j, j + k), c, k, v) {
      SwapCount(s, j, k, c, v);
    }
  }

  /** The elements before position i are ordered by the gap. */
  ghost predicate PrefixSorted(s: seq<int>, g: nat, i: int) {
    forall p, q :: 0 <= p < q < |s| && q < i && q - p == g ==> s[p] <= s[q]
  }

  /** During the inner loop only the pair at j may be out of order, and its neighbours already agree around it. */
  ghost predicate SiftState(s: seq<int>, g: nat, i: nat, j: int) {
    && (forall p, q :: 0 <= p < q < |s| && q <= i && q - p == g && p != j ==> s[p] <= s[q])
    && (0 <= j && j + g + g <= i && j + g + g < |s| ==> s[j] <= s[j + g + g])
  }

  lemma SiftStep(s: seq<int>, g: nat, i: nat, j: nat)
    requires g >= 1 && i < |s| && j + g <= i && SiftState(s, g, i, j)
    ensures s[j] > s[j + g] ==> SiftState(Swapped(s, j, j + g), g, i, j - g)
    ensures s[j] <= s[j + g] ==> SiftState(s, g, i, j - g)
  {
    assert j - g >= 0 ==> s[j - g] <= s[j];
    assert j + g + g <= i ==> s[j + g] <= s[j + g + g];
  }

  /** A rearrangement within the columns of stride g. */
  ghost predicate Rearranged(s: seq<int>, t: seq<int>, g: nat) {
    SameColumns(s, t, g) && multiset(t) == multiset(s)
  }

  function Exchanged(s: seq<int>, j: nat, g: nat): seq<int>
    requires j + g < |s|
  {
    if s[j] > s[j + g] then Swapped(s, j, j + g) else s
  }

  lemma ExchangeStep(s0: seq<int>, s: seq<int>, g: nat, i: nat, j: nat)
    requires g >= 1 && i < |s| && j + g <= i && SiftState(s, g, i, j) && Rearranged(s0, s, g)
    ensures SiftState(Exchanged(s, j, g), g, i, j - g) && Rearranged(s0, Exchanged(s, j, g), g)
  {
    SiftStep(s, g, i, j);
    SwapColumns(s, j, g);
    SwapBag(s, j, j + g);
  }

  /** The innermost loop, which carries the element at i down its column without stopping early. */
  method Sift(a: array<int>, i: nat, gap: nat)
    requires gap >= 1 && gap <= i < a.Length && PrefixSorted(a[..], gap, i)
    modifies a
    ensures PrefixSorted(a[..], gap, i + 1) && Rearranged(old(a[..]), a[..], gap)
  {
    var j: int := i - gap;
    while j >= 0
      invariant j + gap <= i && SiftState(a[..], gap, i, j) && Rearranged(old(a[..]), a[..], gap)
      decreases j
    {
      ghost var s := a[..];
      ExchangeStep(old(a[..]), s, gap, i, j);
      if a[j] > a[j + gap] {
        a[j], a[j + gap] := a[j + gap], a[j];
      }
      assert a[..] == Exchanged(s, j, gap);
      j := j - gap;
    }
  }

  method Pass(a: array<int>, gap: nat)
    requires 1 <= gap <= a.Length
    modifies a
    ensures GapSorted(a[..], gap) && Rearranged(old(a[..]), a[..], gap)
  {
    for i := gap to a.Length
      invariant PrefixSorted(a[..], gap, i) && Rearranged(old(a[..]), a[..], gap)
    {
      Sift(a, i, gap);
    }
  }

  /** The gaps the sort uses, largest first. */
  function Gaps(g: nat): seq<nat> {
    if g == 0 then [] else [g] + Gaps(g / 2)
  }

  lemma GapsStep(used: seq<nat>, g: nat)
    requires g > 0
    ensures (used + [g]) + Gaps(g / 2) == used + Gaps(g)
  {
  }

  lemma {:induction false} GapsEndInOne(g: nat)
    requires g >= 1
    ensures 1 in Gaps(g)
  {
    if g > 1 {
      GapsEndInOne(g / 2);
    }
  }

  lemma {:induction false} GapOneSorts(s: seq<int>, i: nat, j: nat)
    requires GapSorted(s, 1) && i < j < |s|
    ensures s[i] <= s[j]
    decreases j
  {
    if i < j - 1 {
      GapOneSorts(s, i, j - 1);
    }
    assert s[j - 1] <= s[j];
  }

  /** Every gap of the list orders the sequence. */
  ghost predicate AllGaps(s: seq<int>, gaps: seq<nat>) {
    forall i :: 0 <= i < |gaps| ==> GapSorted(s, gaps[i])
  }

  lemma PassKeepsGaps(s: seq<int>, t: seq<int>, gaps: seq<nat>, k: nat)
    requires AllGaps(s, gaps) && SameColumns(s, t, k) && GapSorted(t, k)
    ensures AllGaps(t, gaps + [k])
  {
    forall i | 0 <= i < |gaps| ensures GapSorted(t, gaps[i]) {
      GapOrderSurvives(s, t, gaps[i], k);
    }
  }

  /** A sorted permutation, and still ordered by every gap used on the way. */
  method Sort(a: array<int>)
    modifies a
    ensures Sorted(a[..]) && multiset(a[..]) == multiset(old(a[..]))
    ensures AllGaps(a[..], Gaps(a.Length / 2))
  {
    var gap := a.Length / 2;
    ghost var used: seq<nat> := [];
    while gap > 0
      invariant 0 <= gap <= a.Length && AllGaps(a[..], used) && used + Gaps(gap) == Gaps(a.Length / 2)
      invariant multiset(a[..]) == multiset(old(a[..]))
      decreases gap
    {
      ghost var s := a[..];
      Pass(a, gap);
      PassKeepsGaps(s, a[..], used, gap);
      GapsStep(used, gap);
      used := used + [gap];
      gap := gap / 2;
    }
    assert used == Gaps(a.Length / 2);
    if a.Length >= 2 {
      GapsEndInOne(a.Length / 2);
      ghost var k :| 0 <= k < |used| && used[k] == 1;
      forall i, j | 0 <= i < j < a.Length ensures a[..][i] <= a[..][j] {
        GapOneSorts(a[..], i, j);
      }
    }
  }
}
