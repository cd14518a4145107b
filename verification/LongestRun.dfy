/**
 Longest run of consecutive integers (cpp/online_judge/leetcode/editor/cn/最长连续序列.cpp) through a map that is only
 right at the two ends of every maximal run.
 */
module LongestRun {

  /** All the integers from `a` to `b` are seen. */
  ghost predicate Interval(seen: set<int>, a: int, b: int) {
    forall x :: a <= x <= b ==> x in seen
  }

  ghost predicate Maximal(seen: set<int>, a: int, b: int) {
    a <= b && Interval(seen, a, b) && a - 1 !in seen && b + 1 !in seen
  }

  /** Both ends of every maximal run map to its length. Nothing is said of its interior, which goes stale. */
  ghost predicate EndsKnow(m: map<int, int>, seen: set<int>) {
    m.Keys == seen && forall a, b {:trigger Maximal(seen, a, b)} :: Maximal(seen, a, b) ==> EndsHold(m, a, b)
  }

  ghost predicate EndsHold(m: map<int, int>, a: int, b: int) {
    a in m && b in m && m[a] == b - a + 1 && m[b] == b - a + 1
  }

  /** `n` is the length of the longest run: some run has it and none exceeds it. */
  ghost predicate Longest(seen: set<int>, n: int) {
    && n >= 0
    && (exists a, b :: Interval(seen, a, b) && b - a + 1 == n)
    && (forall a, b :: a <= b && Interval(seen, a, b) ==> b - a + 1 <= n)
  }

  lemma {:induction false} RunStart(seen: set<int>, x: int) returns (a: int)
    requires x in seen
    ensures a <= x && Interval(seen, a, x) && a - 1 !in seen
    decreases seen
  {
    a := x;
    if x - 1 in seen {
      a := RunStart(seen - {x}, x - 1);
    }
  }

  lemma {:induction false} RunEnd(seen: set<int>, x: int) returns (b: int)
    requires x in seen
    ensures x <= b && Interval(seen, x, b) && b + 1 !in seen
    decreases seen
  {
    b := x;
    if x + 1 in seen {
      b := RunEnd(seen - {x}, x + 1);
    }
  }

  function LeftLength(m: map<int, int>, cur: int): int {
    if cur - 1 in m then m[cur - 1] else 0
  }

  function RightLength(m: map<int, int>, cur: int): int {
    if cur + 1 in m then m[cur + 1] else 0
  }

  /** The lookups beside a new number are never stale: they measure the runs that stop at it. */
  lemma LeftIsEnd(m: map<int, int>, seen: set<int>, cur: int)
    requires EndsKnow(m, seen) && cur !in seen
    ensures LeftLength(m, cur) >= 0
    ensures Interval(seen, cur - LeftLength(m, cur), cur - 1) && cur - LeftLength(m, cur) - 1 !in seen
  {
    if cur - 1 in seen {
      var a := RunStart(seen, cur - 1);
      assert Maximal(seen, a, cur - 1);
    }
  }

  lemma RightIsEnd(m: map<int, int>, seen: set<int>, cur: int)
    requires EndsKnow(m, seen) && cur !in seen
    ensures RightLength(m, cur) >= 0
    ensures Interval(seen, cur + 1, cur + RightLength(m, cur)) && cur + RightLength(m, cur) + 1 !in seen
  {
    if cur + 1 in seen {
      var b := RunEnd(seen, cur + 1);
      assert Maximal(seen, cur + 1, b);
    }
  }

  /** The runs on both sides and the new number make one maximal run. */
  lemma NeighboursJoin(seen: set<int>, cur: int, p: int, q: int)
    requires p <= cur <= q && p - 1 !in seen && q + 1 !in seen
    requires Interval(seen, p, cur - 1) && Interval(seen, cur + 1, q)
    ensures Maximal(seen + {cur}, p, q)
  {
  }

  /** A maximal run is the new one, or stood before and lies clear of it. */
  lemma OtherRuns(seen: set<int>, cur: int, p: int, q: int, a: int, b: int)
    requires cur !in seen && p <= cur <= q
    requires Maximal(seen + {cur}, p, q) && Maximal(seen + {cur}, a, b)
    ensures (a == p && b == q) || (Maximal(seen, a, b) && (b < p || q < a))
  {
    if b >= p && q >= a {
      assert !(p < a) && !(a < p) && !(q < b) && !(b < q);
    } else {
      assert forall x :: a <= x <= b ==> x in seen + {cur} && x != cur;
    }
  }

  function Updated(m: map<int, int>, cur: int, left: int, right: int): map<int, int> {
    var sum := left + right + 1;
    m[cur := sum][cur - left := sum][cur + right := sum]
  }

  lemma StepKeepsEnds(m: map<int, int>, seen: set<int>, cur: int, left: nat, right: nat)
    requires EndsKnow(m, seen) && cur !in seen && Maximal(seen + {cur}, cur - left, cur + right)
    ensures EndsKnow(Updated(m, cur, left, right), seen + {cur})
  {
    var p, q, m' := cur - left, cur + right, Updated(m, cur, left, right);
    forall a, b | Maximal(seen + {cur}, a, b) ensures EndsHold(m', a, b) {
      OtherRuns(seen, cur, p, q, a, b);
    }
    assert p in seen + {cur} && q in seen + {cur};
  }

  /** Every run through the new number lies inside the new maximal run; the others were there before. */
  lemma StepKeepsLongest(seen: set<int>, cur: int, p: int, q: int, res: int)
    requires Longest(seen, res) && cur !in seen && p <= cur <= q && Maximal(seen + {cur}, p, q)
    ensures Longest(seen + {cur}, if q - p + 1 > res then q - p + 1 else res)
  {
    var s := seen + {cur};
    var best := if q - p + 1 > res then q - p + 1 else res;
    forall a, b | a <= b && Interval(s, a, b) ensures b - a + 1 <= best {
      if a <= cur <= b {
        assert !(a <= p - 1) && !(q + 1 <= b);
      } else {
        assert Interval(seen, a, b);
      }
    }
    var a, b :| Interval(seen, a, b) && b - a + 1 == res;
    assert Interval(s, a, b) && Interval(s, p, q);
  }

  function Seen(nums: seq<int>): set<int> {
    set x | x in nums
  }

  lemma SeenSnoc(nums: seq<int>, i: nat)
    requires i < |nums|
    ensures Seen(nums[..i + 1]) == Seen(nums[..i]) + {nums[i]}
  {
    assert nums[..i + 1] == nums[..i] + [nums[i]];
  }

  lemma NothingSeen(seen: set<int>)
    requires seen == {}
    ensures Longest(seen, 0)
  {
    assert Interval(seen, 0, -1);
    assert forall a, b :: a <= b && Interval(seen, a, b) ==> a in seen;
  }

  /** One round of the loop on a number not seen before. */
  lemma Step(m: map<int, int>, seen: set<int>, cur: int, res: int)
    requires EndsKnow(m, seen) && Longest(seen, res) && cur !in seen
    ensures var left, right := LeftLength(m, cur), RightLength(m, cur);
            && EndsKnow(Updated(m, cur, left, right), seen + {cur})
            && Longest(seen + {cur}, if left + right + 1 > res then left + right + 1 else res)
  {
    var left, right := LeftLength(m, cur), RightLength(m, cur);
    LeftIsEnd(m, seen, cur);
    RightIsEnd(m, seen, cur);
    NeighboursJoin(seen, cur, cur - left, cur + right);
    StepKeepsEnds(m, seen, cur, left, right);
    StepKeepsLongest(seen, cur, cur - left, cur + right, res);
  }

  method LongestConsecutive(nums: seq<int>) returns (res: int)
    ensures Longest(Seen(nums), res)
  {
    res := 0;
    var m: map<int, int> := map[];
    ghost var seen: set<int> := {};
    NothingSeen(seen);
    for i := 0 to |nums|
      invariant EndsKnow(m, seen) && Longest(seen, res)
      invariant seen == Seen(nums[..i])
    {
      SeenSnoc(nums, i);
      var cur := nums[i];
      if cur in m {
        continue;
      }
      var left := LeftLength(m, cur);
      var right := RightLength(m, cur);
      var sum := left + right + 1;
      Step(m, seen, cur, res);
      seen := seen + {cur};
      ghost var next := Updated(m, cur, left, right);
      m := m[cur := sum];
      res := if res > sum then res else sum;
      m := m[cur - left := sum];
      m := m[cur + right := sum];
      assert m == next;
    }
    assert nums[..|nums|] == nums;
  }
}
