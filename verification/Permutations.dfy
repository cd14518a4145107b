/** Permutations by swapping and swapping back (cpp/online_judge/leetcode/editor/cn/全排列.cpp). */
module Permutations {
  import opened Sequences

  function Swap(s: seq<int>, i: nat, j: nat): (t: seq<int>)
    requires i < |s| && j < |s|
    ensures |t| == |s| && t[i] == s[j] && t[j] == s[i]
    ensures forall k :: 0 <= k < |s| && k != i && k != j ==> t[k] == s[k]
  {
    s[i := s[j]][j := s[i]]
  }

  /** What BT emits from position `start` on. */
  function Emitted(s: seq<int>, start: nat): seq<seq<int>>
    requires start <= |s|
    decreases |s| - start, |s| + 1
  {
    if start == |s| then [s] else Branches(s, start, start)
  }

  /** What the loop of BT emits from iteration `i` on. */
  function Branches(s: seq<int>, start: nat, i: nat): seq<seq<int>>
    requires start < |s| && i <= |s|
    decreases |s| - start, |s| - i
  {
    if i == |s| then [] else Emitted(Swap(s, i, start), start + 1) + Branches(s, start, i + 1)
  }

  /** Same elements, same number of times. */
  ghost predicate Permuted(s: seq<int>, t: seq<int>) {
    multiset(s) == multiset(t)
  }

  lemma SwapPermuted(s: seq<int>, i: nat, j: nat)
    requires i < |s| && j < |s|
    ensures Permuted(s, Swap(s, i, j))
  {
  }

  // ----- Only permutations that keep the part before `start` -----

  lemma {:induction false} EmittedPermutes(s: seq<int>, start: nat, t: seq<int>)
    requires start <= |s| && t in Emitted(s, start)
    ensures Permuted(s, t) && |t| == |s| && t[..start] == s[..start]
    decreases |s| - start, |s| + 1
  {
    if start < |s| {
      var i := BranchOf(s, start, start, t);
    }
  }

  /** Every emitted list comes from one iteration, which fixes its element at `start`. */
  lemma {:induction false} BranchOf(s: seq<int>, start: nat, i: nat, t: seq<int>) returns (k: nat)
    requires start < |s| && start <= i <= |s| && t in Branches(s, start, i)
    ensures i <= k < |s| && t in Emitted(Swap(s, k, start), start + 1)
    ensures Permuted(s, t) && |t| == |s| && t[..start] == s[..start] && t[start] == s[k]
    decreases |s| - start, |s| - i
  {
    var u := Swap(s, i, start);
    if t in Emitted(u, start + 1) {
      k := i;
      EmittedPermutes(u, start + 1, t);
      SwapPermuted(s, i, start);
      assert t[start] == t[..start + 1][start] == u[..start + 1][start];
      assert t[..start] == t[..start + 1][..start] == u[..start + 1][..start] == s[..start];
    } else {
      k := BranchOf(s, start, i + 1, t);
    }
  }

  // ----- All of them -----

  lemma InBranches(s: seq<int>, start: nat, i: nat, k: nat, t: seq<int>)
    requires start < |s| && i <= k < |s| && t in Emitted(Swap(s, k, start), start + 1)
    ensures t in Branches(s, start, i)
    decreases k - i
  {
    if i < k {
      InBranches(s, start, i + 1, k, t);
    }
  }

  /** Lists that agree up to `start` and hold the same elements hold the same elements from `start` on. */
  lemma NextElement(s: seq<int>, start: nat, t: seq<int>) returns (k: nat)
    requires start < |s| == |t| && Permuted(s, t) && t[..start] == s[..start]
    ensures start <= k < |s| && s[k] == t[start]
  {
    SplitBag(s, start);
    SplitBag(t, start);
    assert multiset(s[start..]) == multiset(s) - multiset(s[..start]) == multiset(t[start..]);
    assert t[start] == t[start..][0];
    assert t[start] in multiset(s[start..]);
    k :| start <= k < |s| && s[k] == t[start];
  }

  lemma SplitBag(s: seq<int>, n: nat)
    requires n <= |s|
    ensures multiset(s) == multiset(s[..n]) + multiset(s[n..])
  {
    assert s == s[..n] + s[n..];
  }

  lemma {:induction false} EmitsEvery(s: seq<int>, start: nat, t: seq<int>)
    requires start <= |s| == |t| && Permuted(s, t) && t[..start] == s[..start]
    ensures t in Emitted(s, start)
    decreases |s| - start
  {
    if start == |s| {
      assert t[..start] == t && s[..start] == s;
    } else {
      var k := NextElement(s, start, t);
      var u := Swap(s, k, start);
      SwapPermuted(s, k, start);
      assert t[..start + 1] == t[..start] + [t[start]] == u[..start + 1];
      EmitsEvery(u, start + 1, t);
      InBranches(s, start, start, k, t);
    }
  }

  lemma PermutedLength(s: seq<int>, t: seq<int>)
    requires Permuted(s, t)
    ensures |s| == |t|
  {
    assert |multiset(s)| == |s| && |multiset(t)| == |t|;
  }

  /** The output is exactly the permutations of the input. */
  lemma EmitsExactlyPermutations(s: seq<int>, t: seq<int>)
    ensures t in Emitted(s, 0) <==> Permuted(s, t)
  {
    if t in Emitted(s, 0) {
      EmittedPermutes(s, 0, t);
    }
    if Permuted(s, t) {
      PermutedLength(s, t);
      EmitsEvery(s, 0, t);
    }
  }

  // ----- Once each -----

  lemma NoRepeatsConcat<T>(a: seq<T>, b: seq<T>)
    requires NoRepeats(a) && NoRepeats(b) && forall x :: x in a ==> x !in b
    ensures NoRepeats(a + b)
  {
    var c := a + b;
    forall i, j | 0 <= i < j < |c| ensures c[i] != c[j] {
      if i < |a| <= j {
        assert c[i] in a && c[j] in b;
      }
    }
  }

  ghost predicate DistinctFrom(s: seq<int>, start: nat) {
    forall i, j :: start <= i < j < |s| ==> s[i] != s[j]
  }

  lemma {:induction false} EmittedOnce(s: seq<int>, start: nat)
    requires start <= |s| && DistinctFrom(s, start)
    ensures NoRepeats(Emitted(s, start))
    decreases |s| - start, |s| + 1
  {
    if start < |s| {
      BranchesOnce(s, start, start);
    }
  }

  lemma {:induction false} BranchesOnce(s: seq<int>, start: nat, i: nat)
    requires start < |s| && start <= i <= |s| && DistinctFrom(s, start)
    ensures NoRepeats(Branches(s, start, i))
    decreases |s| - start, |s| - i
  {
    if i < |s| {
      var u := Swap(s, i, start);
      assert DistinctFrom(u, start + 1);
      EmittedOnce(u, start + 1);
      BranchesOnce(s, start, i + 1);
      var a, b := Emitted(u, start + 1), Branches(s, start, i + 1);
      forall t | t in a ensures t !in b {
        EmittedPermutes(u, start + 1, t);
        assert t[start] == t[..start + 1][start] == u[..start + 1][start];
        if t in b {
          var k := BranchOf(s, start, i + 1, t);
        }
      }
      NoRepeatsConcat(a, b);
    }
  }

  lemma {:induction false} EmittedNonEmpty(s: seq<int>, start: nat)
    requires start <= |s|
    ensures |Emitted(s, start)| > 0
    decreases |s| - start
  {
    if start < |s| {
      EmittedNonEmpty(Swap(s, start, start), start + 1);
    }
  }

  lemma RepeatsConcat<T>(a: seq<T>, b: seq<T>)
    requires !NoRepeats(a) || !NoRepeats(b) || exists x :: x in a && x in b
    ensures !NoRepeats(a + b)
  {
    var c := a + b;
    if !NoRepeats(a) {
      var i, j :| 0 <= i < j < |a| && a[i] == a[j];
      assert c[i] == c[j];
    } else if !NoRepeats(b) {
      var i, j :| 0 <= i < j < |b| && b[i] == b[j];
      assert c[|a| + i] == c[|a| + j];
    } else {
      var x :| x in a && x in b;
      var i :| 0 <= i < |a| && a[i] == x;
      var j :| 0 <= j < |b| && b[j] == x;
      assert c[i] == c[|a| + j];
    }
  }

  /** An element that stands twice from `start` on makes two iterations emit the same lists. */
  lemma {:induction false} EmittedTwice(s: seq<int>, start: nat, i: nat, j: nat)
    requires start <= i < j < |s| && s[i] == s[j]
    ensures !NoRepeats(Emitted(s, start))
    decreases |s| - start
  {
    assert Swap(s, start, start) == s;
    var a, b := Emitted(s, start + 1), Branches(s, start, start + 1);
    if i == start {
      assert Swap(s, j, start) == s;
      EmittedNonEmpty(s, start + 1);
      assert a[0] in a;
      InBranches(s, start, start + 1, j, a[0]);
    } else {
      EmittedTwice(s, start + 1, i, j);
    }
    RepeatsConcat(a, b);
  }

  /** Each permutation is emitted once exactly when the input holds no number twice. */
  lemma OnceIffDistinct(s: seq<int>)
    ensures NoRepeats(Emitted(s, 0)) <==> NoRepeats(s)
  {
    if NoRepeats(s) {
      EmittedOnce(s, 0);
    } else {
      var i, j :| 0 <= i < j < |s| && s[i] == s[j];
      EmittedTwice(s, 0, i, j);
    }
  }

  // ----- The program -----

  /** Emits below `start` and puts `nums` back as it was. */
  method BT(res: seq<seq<int>>, nums: array<int>, start: nat) returns (out: seq<seq<int>>)
    requires start <= nums.Length
    modifies nums
    ensures nums[..] == old(nums[..])
    ensures out == res + Emitted(old(nums[..]), start)
    decreases nums.Length - start
  {
    ghost var s := nums[..];
    out := res;
    if start == nums.Length {
      out := out + [nums[..]];
    } else {
      for i := start to nums.Length
        invariant nums[..] == s
        invariant out + Branches(s, start, i) == res + Branches(s, start, start)
      {
        ghost var before := out;
        nums[i], nums[start] := nums[start], nums[i];
        assert nums[..] == Swap(s, i, start);
        out := BT(out, nums, start + 1);
        nums[i], nums[start] := nums[start], nums[i];
        assert nums[..] == s;
        assert before + (Emitted(Swap(s, i, start), start + 1) + Branches(s, start, i + 1))
            == out + Branches(s, start, i + 1);
      }
    }
  }

  method Permute(nums: array<int>) returns (res: seq<seq<int>>)
    modifies nums
    ensures nums[..] == old(nums[..])
    ensures forall t :: t in res <==> Permuted(nums[..], t)
    ensures NoRepeats(res) <==> NoRepeats(nums[..])
  {
    res := BT([], nums, 0);
    assert res == Emitted(nums[..], 0);
    forall t ensures t in res <==> Permuted(nums[..], t) {
      EmitsExactlyPermutations(nums[..], t);
    }
    OnceIffDistinct(nums[..]);
  }
}
