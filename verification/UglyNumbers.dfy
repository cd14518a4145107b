/** Numbers whose only prime factors are 2, 3 and 5, in order (cpp/online_judge/leetcode/editor/cn/丑数.cpp). */
module UglyNumbers {
  import opened Divisibility

  ghost predicate Factor(f: int) {
    f == 2 || f == 3 || f == 5
  }

  /** 1, and 2, 3 and 5 times every ugly number. UglyByPrimes shows that this is what the name stands for. */
  ghost predicate Ugly(x: int)
    decreases x
  {
    x == 1 || (x > 1 && ((x % 2 == 0 && Ugly(x / 2)) || (x % 3 == 0 && Ugly(x / 3)) || (x % 5 == 0 && Ugly(x / 5))))
  }

  ghost predicate OnlySmallPrimes(x: int) {
    x >= 1 && forall p :: IsPrime(p) && x % p == 0 ==> Factor(p)
  }

  lemma TimesSmallPrime(f: int, y: int)
    requires Factor(f) && OnlySmallPrimes(y)
    ensures OnlySmallPrimes(f * y)
  {
    forall p | IsPrime(p) && (f * y) % p == 0 ensures Factor(p) {
      Euclid(p, f, y);
      if f % p == 0 && p > f {
        Small(f, p);
      }
    }
  }

  lemma Small(f: int, p: int)
    requires 0 < f < p
    ensures f % p == f
  {
  }

  lemma SplitSmallPrime(x: int) returns (f: int, y: int)
    requires OnlySmallPrimes(x) && x > 1
    ensures Factor(f) && OnlySmallPrimes(y) && x == f * y && 1 <= y < x
  {
    f := Spf(x);
    SpfPrime(x);
    y := ModZero(f, x);
    forall p | IsPrime(p) && y % p == 0 ensures Factor(p) {
      DivisibleMultiple(p, y, f);
    }
  }

  lemma UglyTimes(f: int, y: int)
    requires Factor(f) && Ugly(y)
    ensures Ugly(f * y)
  {
    assert (f * y) % f == 0 && (f * y) / f == y by {
      MulMod(f, y);
      Quotient(f, y);
    }
  }

  /** Every ugly number but 1 is 2, 3 or 5 times a smaller one. */
  lemma UglySplit(x: int) returns (f: int, y: int)
    requires Ugly(x) && x > 1
    ensures Factor(f) && Ugly(y) && x == f * y && 1 <= y < x
  {
    f := if x % 2 == 0 && Ugly(x / 2) then 2 else if x % 3 == 0 && Ugly(x / 3) then 3 else 5;
    y := x / f;
  }

  /** The ugly numbers are exactly those with no prime factor besides 2, 3 and 5. */
  lemma {:induction false} UglyByPrimes(x: int)
    ensures Ugly(x) <==> OnlySmallPrimes(x)
    decreases x
  {
    if x == 1 {
      forall p | IsPrime(p) ensures 1 % p == 1 {
        Small(1, p);
      }
    } else if Ugly(x) {
      var f, y := UglySplit(x);
      UglyByPrimes(y);
      TimesSmallPrime(f, y);
    } else if OnlySmallPrimes(x) {
      var f, y := SplitSmallPrime(x);
      UglyByPrimes(y);
      UglyTimes(f, y);
    }
  }

  /** The list holds the first ugly numbers: increasing, all ugly, none skipped. */
  ghost predicate FirstUgly(s: seq<int>) {
    && |s| >= 1
    && (forall i, j :: 0 <= i < j < |s| ==> s[i] < s[j])
    && (forall i :: 0 <= i < |s| ==> Ugly(s[i]))
    && (forall x :: Ugly(x) && x <= s[|s| - 1] ==> x in s)
  }

  /** `f` times `x`, for the three factors there are. */
  function Fold(f: int, x: int): int {
    if f == 2 then x * 2 else if f == 3 then x * 3 else x * 5
  }

  /** `c` points at the first number of the list whose `f`-fold is beyond the list. */
  ghost predicate Pointer(s: seq<int>, f: int, c: nat) {
    && c < |s|
    && Fold(f, s[c]) > s[|s| - 1]
    && forall j :: 0 <= j < c ==> Fold(f, s[j]) <= s[|s| - 1]
  }

  ghost predicate Pointers(s: seq<int>, c2: nat, c3: nat, c5: nat) {
    FirstUgly(s) && Pointer(s, 2, c2) && Pointer(s, 3, c3) && Pointer(s, 5, c5)
  }

  function MinVal(a: int, b: int, c: int): (r: int)
    ensures r <= a && r <= b && r <= c && (r == a || r == b || r == c)
  {
    if a > b then (if c < b then c else b) else (if c < a then c else a)
  }

  function Next(s: seq<int>, c2: nat, c3: nat, c5: nat): int
    requires c2 < |s| && c3 < |s| && c5 < |s|
  {
    MinVal(s[c2] * 2, s[c3] * 3, s[c5] * 5)
  }

  /** A multiple beyond the list is at least the one the pointer stands on. */
  lemma {:induction false} Beyond(s: seq<int>, f: int, c: nat, y: int)
    requires FirstUgly(s) && Pointer(s, f, c) && Ugly(y) && Fold(f, y) > s[|s| - 1]
    ensures Fold(f, y) >= Fold(f, s[c])
  {
    assert s[c] <= s[|s| - 1];
    if y <= s[|s| - 1] {
      var j :| 0 <= j < |s| && s[j] == y;
      assert j >= c;
    }
  }

  /** The smallest of the three candidates is at most every ugly number not yet listed. */
  lemma {:induction false} NothingBetween(s: seq<int>, c2: nat, c3: nat, c5: nat, x: int)
    requires Pointers(s, c2, c3, c5) && Ugly(x) && x > s[|s| - 1]
    ensures x >= Next(s, c2, c3, c5)
  {
    assert Ugly(s[|s| - 1]);
    var f, y := UglySplit(x);
    Beyond(s, f, if f == 2 then c2 else if f == 3 then c3 else c5, y);
  }

  lemma NextUgly(s: seq<int>, c2: nat, c3: nat, c5: nat)
    requires Pointers(s, c2, c3, c5)
    ensures Ugly(Next(s, c2, c3, c5)) && Next(s, c2, c3, c5) > s[|s| - 1]
  {
    assert Ugly(s[c2] * 2) by { UglyTimes(2, s[c2]); }
    assert Ugly(s[c3] * 3) by { UglyTimes(3, s[c3]); }
    assert Ugly(s[c5] * 5) by { UglyTimes(5, s[c5]); }
  }

  lemma Extend(s: seq<int>, v: int)
    requires FirstUgly(s) && Ugly(v) && v > s[|s| - 1]
    requires forall x :: Ugly(x) && x > s[|s| - 1] ==> x >= v
    ensures FirstUgly(s + [v])
  {
    var t := s + [v];
    assert t[|s|] == v && t[|t| - 1] == v;
    forall i, j | 0 <= i < j < |t| ensures t[i] < t[j] {
      assert s[i] <= s[|s| - 1];
    }
    forall x | Ugly(x) && x <= v ensures x in t {
      assert x <= s[|s| - 1] ==> x in s;
    }
  }

  /** Whether the division test moves the pointer or not, it points at the first multiple beyond the longer list. */
  lemma Advance(s: seq<int>, f: int, c: nat, v: int)
    requires Factor(f) && FirstUgly(s) && Pointer(s, f, c) && s[|s| - 1] < v <= Fold(f, s[c])
    ensures s[c] > 0 && Pointer(s + [v], f, if v / s[c] == f then c + 1 else c)
  {
    var t := s + [v];
    assert Ugly(s[c]);
    QuotientTest(v, s[c], f);
    assert t[c] == s[c] && s[c] <= s[|s| - 1];
    assert c + 1 < |s| ==> s[c] < s[c + 1];
    assert t[c] < t[c + 1];
  }

  lemma QuotientTest(v: int, d: int, f: int)
    requires d > 0 && Factor(f) && 0 <= v <= Fold(f, d)
    ensures v / d == f <==> v == Fold(f, d)
  {
    Quotient(d, f);
    assert v == d * (v / d) + v % d;
  }

  /** One round of the loop. */
  lemma Round(s: seq<int>, c2: nat, c3: nat, c5: nat)
    requires Pointers(s, c2, c3, c5)
    ensures s[c2] > 0 && s[c3] > 0 && s[c5] > 0
    ensures var v := Next(s, c2, c3, c5);
            Pointers(s + [v], if v / s[c2] == 2 then c2 + 1 else c2, if v / s[c3] == 3 then c3 + 1 else c3,
                     if v / s[c5] == 5 then c5 + 1 else c5)
  {
    var v := Next(s, c2, c3, c5);
    NextUgly(s, c2, c3, c5);
    forall x | Ugly(x) && x > s[|s| - 1] ensures x >= v {
      NothingBetween(s, c2, c3, c5, x);
    }
    Extend(s, v);
    Advance(s, 2, c2, v);
    Advance(s, 3, c3, v);
    Advance(s, 5, c5, v);
  }

  method NthUglyNumber(n: int) returns (u: int)
    requires n >= 1
    ensures exists s :: FirstUgly(s) && |s| == n && s[n - 1] == u
  {
    var dp := new int[n + 1](_ => 1);
    var c2, c3, c5 := 0, 0, 0;
    OneIsFirst(dp[..1]);
    ghost var s := dp[..1];
    for i := 1 to n
      invariant dp[..i] == s && |s| == i
      invariant Pointers(s, c2, c3, c5)
    {
      var v := MinVal(dp[c2] * 2, dp[c3] * 3, dp[c5] * 5);
      assert v == Next(s, c2, c3, c5);
      dp[i] := v;
      assert dp[..i + 1] == s + [v];
      assert dp[c2] == s[c2] && dp[c3] == s[c3] && dp[c5] == s[c5];
      Round(s, c2, c3, c5);
      s := s + [v];
      c2 := if v / dp[c2] == 2 then c2 + 1 else c2;
      c3 := if v / dp[c3] == 3 then c3 + 1 else c3;
      c5 := if v / dp[c5] == 5 then c5 + 1 else c5;
    }
    u := dp[n - 1];
    assert s[n - 1] == u;
  }

  lemma OneIsFirst(s: seq<int>)
    requires s == [1]
    ensures FirstUgly(s)
  {
    assert forall x :: Ugly(x) && x <= 1 ==> x == s[0];
  }

  /** There is only one list of the first n ugly numbers. */
  lemma {:induction false} FirstUglyUnique(s: seq<int>, t: seq<int>, n: nat)
    requires FirstUgly(s) && FirstUgly(t) && n <= |s| && n <= |t|
    ensures s[..n] == t[..n]
  {
    if n == 0 {
    } else {
      var i := n - 1;
      FirstUglyUnique(s, t, i);
      assert s[i] >= t[i] by { NotBelow(s, t, i); }
      assert t[i] >= s[i] by { NotBelow(t, s, i); }
      assert s[..n] == s[..i] + [s[i]] && t[..n] == t[..i] + [t[i]];
    }
  }

  lemma NotBelow(s: seq<int>, t: seq<int>, i: nat)
    requires FirstUgly(s) && FirstUgly(t) && i < |s| && i < |t| && s[..i] == t[..i]
    ensures s[i] >= t[i]
  {
    assert Ugly(s[i]) && t[i] <= t[|t| - 1];
    assert forall j :: 0 <= j < i ==> s[..i][j] == t[..i][j] < s[i];
    assert s[i] !in t[..i];
    assert s[i] in t ==> s[i] in t[i..];
  }
}
