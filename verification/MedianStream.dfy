/** Median of a stream with two heaps (cpp/online_judge/leetcode/editor/cn/数据流中的中位数.cpp). */
module MedianStream {
  import opened Sequences

  ghost predicate IsMax(h: multiset<int>, x: int) {
    x in h && forall y :: y in h ==> y <= x
  }

  ghost predicate IsMin(h: multiset<int>, x: int) {
    x in h && forall y :: y in h ==> x <= y
  }

  lemma NotEmpty(h: multiset<int>)
    requires h != multiset{}
    ensures exists x :: x in h
  {
    assert (forall x :: h[x] == 0) ==> h == multiset{};
  }

  /** The top of a priority queue ordered by `less`. */
  method MaxTop(h: multiset<int>) returns (x: int)
    requires h != multiset{}
    ensures IsMax(h, x)
  {
    NotEmpty(h);
    x :| x in h;
    var rest := h;
    while rest != multiset{}
      invariant x in h && rest <= h
      invariant forall y :: y in h ==> y <= x || y in rest
      decreases |rest|
    {
      NotEmpty(rest);
      var y :| y in rest;
      if y > x {
        x := y;
      }
      rest := rest - multiset{y};
    }
  }

  /** The top of a priority queue ordered by `greater`. */
  method MinTop(h: multiset<int>) returns (x: int)
    requires h != multiset{}
    ensures IsMin(h, x)
  {
    NotEmpty(h);
    x :| x in h;
    var rest := h;
    while rest != multiset{}
      invariant x in h && rest <= h
      invariant forall y :: y in h ==> x <= y || y in rest
      decreases |rest|
    {
      NotEmpty(rest);
      var y :| y in rest;
      if y < x {
        x := y;
      }
      rest := rest - multiset{y};
    }
  }

  ghost predicate Below(lo: multiset<int>, hi: multiset<int>) {
    forall x, y :: x in lo && y in hi ==> x <= y
  }

  /** Passing a new number through the lower heap keeps the halves apart. */
  lemma ThroughLower(lo: multiset<int>, hi: multiset<int>, num: int, x: int)
    requires Below(lo, hi) && IsMax(lo + multiset{num}, x)
    ensures Below(lo + multiset{num} - multiset{x}, hi + multiset{x})
  {
    var lo', hi' := lo + multiset{num} - multiset{x}, hi + multiset{x};
    forall p, q | p in lo' && q in hi' ensures p <= q {
      assert p in lo + multiset{num};
      assert q == x || q in hi;
      assert p != x ==> p in lo || x in lo;
      assert p == x ==> x in lo;
    }
  }

  lemma ThroughUpper(lo: multiset<int>, hi: multiset<int>, num: int, x: int)
    requires Below(lo, hi) && IsMin(hi + multiset{num}, x)
    ensures Below(lo + multiset{x}, hi + multiset{num} - multiset{x})
  {
    var lo', hi' := lo + multiset{x}, hi + multiset{num} - multiset{x};
    forall p, q | p in lo' && q in hi' ensures p <= q {
      assert q in hi + multiset{num};
      assert p == x || p in lo;
      assert q != x ==> q in hi || x in hi;
      assert q == x ==> x in hi;
    }
  }

  lemma MovedOver(lo: multiset<int>, hi: multiset<int>, num: int, x: int)
    requires x in lo + multiset{num}
    ensures (lo + multiset{num} - multiset{x}) + (hi + multiset{x}) == lo + hi + multiset{num}
    ensures |lo + multiset{num} - multiset{x}| == |lo| && |hi + multiset{x}| == |hi| + 1
  {
  }

  lemma LastOf(s: seq<int>)
    requires |s| > 0
    ensures multiset(s) == multiset(s[..|s| - 1]) + multiset{s[|s| - 1]}
  {
    assert s == s[..|s| - 1] + [s[|s| - 1]];
  }

  lemma CutLast(s: seq<int>, n: nat)
    requires n < |s|
    ensures s[..|s| - 1][..n] == s[..n] && s[..|s| - 1][n..] + [s[|s| - 1]] == s[n..]
  {
  }

  lemma LastIsUpper(lo: multiset<int>, hi: multiset<int>, s: seq<int>)
    requires Below(lo, hi) && Sorted(s) && multiset(s) == lo + hi && hi != multiset{}
    ensures |s| > 0 && s[|s| - 1] in hi
  {
    NotEmpty(hi);
    var y :| y in hi;
    assert y in multiset(s);
    var m := s[|s| - 1];
    assert m in multiset(s);
    assert y <= m;
  }

  lemma TakeFromUpper(lo: multiset<int>, hi: multiset<int>, m: int, rest: multiset<int>)
    requires m in hi && rest + multiset{m} == lo + hi
    ensures rest == lo + (hi - multiset{m}) && |hi - multiset{m}| == |hi| - 1
    ensures (hi - multiset{m}) + multiset{m} == hi
  {
    assert rest == lo + hi - multiset{m};
  }

  /** In any sorted arrangement the lower half comes first. */
  lemma {:induction false} HalvesInOrder(lo: multiset<int>, hi: multiset<int>, s: seq<int>)
    requires Below(lo, hi) && Sorted(s) && multiset(s) == lo + hi
    ensures |s| == |lo| + |hi| && multiset(s[..|lo|]) == lo && multiset(s[|lo|..]) == hi
    decreases |s|
  {
    assert |multiset(s)| == |s|;
    var n := |lo|;
    if hi == multiset{} {
      assert s[..n] == s && s[n..] == [];
    } else {
      LastIsUpper(lo, hi, s);
      LastOf(s);
      var r, m := s[..|s| - 1], s[|s| - 1];
      TakeFromUpper(lo, hi, m, multiset(r));
      HalvesInOrder(lo, hi - multiset{m}, r);
      CutLast(s, n);
    }
  }

  /** The tops of the heaps stand next to each other in the middle. */
  lemma TopsInMiddle(lo: multiset<int>, hi: multiset<int>, s: seq<int>)
    requires Below(lo, hi) && Sorted(s) && multiset(s) == lo + hi
    ensures |s| == |lo| + |hi|
    ensures |hi| > 0 ==> IsMin(hi, s[|lo|])
    ensures |lo| > 0 ==> IsMax(lo, s[|lo| - 1])
  {
    HalvesInOrder(lo, hi, s);
    var a, b := s[..|lo|], s[|lo|..];
    if |hi| > 0 {
      FirstIsMin(b);
    }
    if |lo| > 0 {
      LastIsMax(a);
    }
  }

  lemma FirstIsMin(b: seq<int>)
    requires Sorted(b) && |b| > 0
    ensures IsMin(multiset(b), b[0])
  {
    forall y | y in multiset(b) ensures b[0] <= y {
      assert y in b;
    }
  }

  lemma LastIsMax(a: seq<int>)
    requires Sorted(a) && |a| > 0
    ensures IsMax(multiset(a), a[|a| - 1])
  {
    forall y | y in multiset(a) ensures y <= a[|a| - 1] {
      assert y in a;
    }
  }

  /** Push on the lower heap and move its top over. */
  method PushLower(lo: multiset<int>, hi: multiset<int>, num: int) returns (lo': multiset<int>, hi': multiset<int>)
    requires Below(lo, hi)
    ensures Below(lo', hi') && lo' + hi' == lo + hi + multiset{num} && |lo'| == |lo| && |hi'| == |hi| + 1
  {
    var pushed := lo + multiset{num};
    var x := MaxTop(pushed);
    hi', lo' := hi + multiset{x}, pushed - multiset{x};
    ThroughLower(lo, hi, num, x);
    MovedOver(lo, hi, num, x);
  }

  /** Push on the upper heap and move its top over. */
  method PushUpper(lo: multiset<int>, hi: multiset<int>, num: int) returns (lo': multiset<int>, hi': multiset<int>)
    requires Below(lo, hi)
    ensures Below(lo', hi') && lo' + hi' == lo + hi + multiset{num} && |lo'| == |lo| + 1 && |hi'| == |hi|
  {
    var pushed := hi + multiset{num};
    var x := MinTop(pushed);
    lo', hi' := lo + multiset{x}, pushed - multiset{x};
    ThroughUpper(lo, hi, num, x);
    MovedOver(hi, lo, num, x);
  }

  class MedianFinder {
    var maxHeap: multiset<int>
    var minHeap: multiset<int>
    var count: nat

    /** The lower half in one heap, the upper in the other, which holds the odd one. */
    ghost predicate Valid()
      reads this
    {
      Below(maxHeap, minHeap) && count == |maxHeap| + |minHeap| && |minHeap| == |maxHeap| + count % 2
    }

    ghost function Contents(): multiset<int>
      reads this
    {
      maxHeap + minHeap
    }

    constructor ()
      ensures Valid() && Contents() == multiset{} && count == 0
    {
      maxHeap, minHeap, count := multiset{}, multiset{}, 0;
    }

    method AddNum(num: int)
      requires Valid()
      modifies this
      ensures Valid() && Contents() == old(Contents()) + multiset{num} && count == old(count) + 1
    {
      if count % 2 == 0 {
        maxHeap, minHeap := PushLower(maxHeap, minHeap, num);
      } else {
        maxHeap, minHeap := PushUpper(maxHeap, minHeap, num);
      }
      count := count + 1;
    }

    /** With nothing added the original reads the top of an empty heap. */
    method FindMedian() returns (r: real)
      requires Valid() && count > 0
      ensures forall s :: Sorted(s) && multiset(s) == Contents() ==>
                |s| == count && 2.0 * r == s[(|s| - 1) / 2] as real + s[|s| / 2] as real
    {
      if count % 2 == 0 {
        var x := MaxTop(maxHeap);
        var y := MinTop(minHeap);
        r := (x + y) as real / 2.0;
      } else {
        var y := MinTop(minHeap);
        r := y as real;
      }
      forall s | Sorted(s) && multiset(s) == Contents()
        ensures |s| == count && 2.0 * r == s[(|s| - 1) / 2] as real + s[|s| / 2] as real
      {
        TopsInMiddle(maxHeap, minHeap, s);
      }
    }
  }

  /** After any stream twice the median is the sum of the two middle elements of its sorted arrangement. */
  method Run(nums: seq<int>) returns (r: real)
    requires |nums| > 0
    ensures forall s :: Sorted(s) && multiset(s) == multiset(nums) ==>
              |s| == |nums| && 2.0 * r == s[(|s| - 1) / 2] as real + s[|s| / 2] as real
  {
    var f := new MedianFinder();
    for i := 0 to |nums|
      invariant fresh(f) && f.Valid() && f.count == i && f.Contents() == multiset(nums[..i])
    {
      assert nums[..i + 1] == nums[..i] + [nums[i]];
      f.AddNum(nums[i]);
    }
    assert nums[..|nums|] == nums;
    r := f.FindMedian();
  }
}
