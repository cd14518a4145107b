/** Knuth-Morris-Pratt matching from cpp/string/kmp.cpp, on C strings (a NUL ends the text). */
module Kmp {

  /** The characters before the terminating NUL. */
  predicate CString(s: string) {
    '\0' !in s
  }

  /** s[i] as C reads it: the terminator follows the last character. */
  function At(s: string, i: nat): char
    requires i <= |s|
  {
    if i < |s| then s[i] else '\0'
  }

  /** The length-k prefix of t[..n] is also its suffix, and k < n. */
  predicate Border(t: string, n: nat, k: nat) {
    k < n <= |t| && t[..k] == t[n - k..n]
  }

  ghost predicate LongestBorder(t: string, n: nat, b: nat) {
    Border(t, n, b) && forall k: nat :: Border(t, n, k) ==> k <= b
  }

  predicate Occurs(s: string, t: string, p: nat) {
    p + |t| <= |s| && s[p..p + |t|] == t
  }

  lemma BorderExtends(t: string, n: nat, k: nat)
    requires n < |t| && k < n
    ensures Border(t, n + 1, k + 1) <==> Border(t, n, k) && t[k] == t[n]
  {
    var m := n - k;
    assert t[..k + 1] == t[..k] + [t[k]];
    assert t[m..n + 1] == t[m..n] + [t[n]];
  }

  /** Borders of a prefix shorter than one of its borders are exactly the borders of that border. */
  lemma BorderNests(t: string, n: nat, b: nat, k: nat)
    requires Border(t, n, b) && k < b
    ensures Border(t, n, k) <==> Border(t, b, k)
  {
    assert t[b - k..b] == t[..b][b - k..];
    assert t[n - k..n] == t[n - b..n][b - k..];
  }

  /** No border of t[..n] longer than `k` can be extended by the next character. */
  ghost predicate NoneLonger(t: string, n: nat, k: nat)
    requires n < |t|
  {
    forall j: nat :: Border(t, n, j) && k < j ==> t[j] != t[n]
  }

  /** Falling back to the longest border of the border loses no candidate. */
  lemma FallBack(t: string, n: nat, k: nat, b: nat)
    requires n < |t| && Border(t, n, k) && NoneLonger(t, n, k) && t[k] != t[n] && LongestBorder(t, k, b)
    ensures Border(t, n, b) && NoneLonger(t, n, b)
  {
    BorderNests(t, n, k, b);
    forall j: nat | Border(t, n, j) && b < j ensures t[j] != t[n] {
      if j < k {
        BorderNests(t, n, k, j);
      }
    }
  }

  /** The value stored for t[..n + 1] once the fall-back has stopped at `k`. */
  lemma NextBorder(t: string, n: nat, k: nat)
    requires 0 < n < |t| && Border(t, n, k) && NoneLonger(t, n, k) && (k == 0 || t[k] == t[n])
    ensures LongestBorder(t, n + 1, if t[k] == t[n] then k + 1 else 0)
  {
    var r, m := if t[k] == t[n] then k + 1 else 0, n + 1;
    BorderExtends(t, n, k);
    forall j: nat | Border(t, m, j) ensures j <= r {
      if j > 0 {
        BorderExtends(t, n, j - 1);
      }
    }
  }

  ghost predicate NextTable(t: string, next: seq<int>, len: nat) {
    && len <= |next| == |t| && (len > 0 ==> next[0] == -1)
    && forall i :: 1 <= i < len ==> next[i] >= 0 && LongestBorder(t, i, next[i])
  }

  /** The inner loop of getNext: shorten the border until the next character extends it, or it is empty. */
  method Shorten(t: string, next: array<int>, i: nat, start: nat) returns (k: nat)
    requires 2 <= i < |t| && NextTable(t, next[..], i) && LongestBorder(t, i - 1, start)
    ensures Border(t, i - 1, k) && NoneLonger(t, i - 1, k) && (k == 0 || t[i - 1] == t[k])
  {
    k := start;
    while k > 0 && t[i - 1] != t[k]
      invariant Border(t, i - 1, k) && NoneLonger(t, i - 1, k)
      decreases k
    {
      assert next[..][k] == next[k];
      FallBack(t, i - 1, k, next[k]);
      k := next[k];
    }
  }

  /** getNext: next[i] is the length of the longest proper border of the length-i prefix. */
  method GetNext(t: string) returns (next: array<int>)
    requires |t| > 0
    ensures fresh(next) && NextTable(t, next[..], |t|)
  {
    var len := |t|;
    next := new int[len](_ => 0);
    var k := 0;
    next[0] := -1;
    if len == 1 {
      return;
    }
    assert LongestBorder(t, 1, 0);
    for i := 2 to len
      invariant next.Length == len && 0 <= k == next[i - 1]
      invariant NextTable(t, next[..], i)
    {
      ghost var filled := next[..];
      k := Shorten(t, next, i, k);
      NextBorder(t, i - 1, k);
      if t[i - 1] == t[k] {
        k := k + 1;
      }
      next[i] := k;
      assert next[..] == filled[i := k];
    }
  }

  /** The text read so far ends in t[..j], and no occurrence starts before that match. */
  ghost predicate Searching(s: string, t: string, i: nat, j: nat) {
    && j <= i <= |s| && j <= |t| && s[i - j..i] == t[..j]
    && forall p :: 0 <= p < i - j ==> !Occurs(s, t, p)
  }

  lemma MatchOne(s: string, t: string, i: nat, j: nat)
    requires Searching(s, t, i, j) && i < |s| && j < |t| && s[i] == t[j]
    ensures Searching(s, t, i + 1, j + 1)
  {
    assert s[i - j..i + 1] == s[i - j..i] + [s[i]];
    assert t[..j + 1] == t[..j] + [t[j]];
  }

  lemma OccursAt(s: string, t: string, p: nat, k: nat)
    requires Occurs(s, t, p) && k < |t|
    ensures s[p + k] == t[k]
  {
    assert s[p..p + |t|][k] == s[p + k];
  }

  lemma FirstCharacter(s: string, t: string, p: nat)
    ensures Occurs(s, t, p) && |t| > 0 ==> s[p] == t[0]
  {
    if Occurs(s, t, p) && |t| > 0 {
      OccursAt(s, t, p, 0);
    }
  }

  /** After a mismatch no occurrence starts between the old match and the one given by the longest border. */
  lemma ShiftSkipsNothing(s: string, t: string, i: nat, j: nat, p: nat, b: nat)
    requires Searching(s, t, i, j) && i < |s| && j < |t| && s[i] != t[j] && LongestBorder(t, j, b)
    requires i - j <= p < i - b
    ensures !Occurs(s, t, p)
  {
    if Occurs(s, t, p) {
      var k := i - p;
      if k == j {
        OccursAt(s, t, p, j);
      } else {
        assert t[..k] == s[p..p + |t|][..k] == s[p..i];
        assert s[p..i] == s[i - j..i][j - k..];
        assert t[j - k..j] == t[..j][j - k..];
        assert Border(t, j, k);
      }
    }
  }

  lemma Shift(s: string, t: string, i: nat, j: nat, b: nat)
    requires Searching(s, t, i, j) && i < |s| && j < |t| && s[i] != t[j] && LongestBorder(t, j, b)
    ensures Searching(s, t, i, b)
  {
    assert s[i - b..i] == s[i - j..i][j - b..];
    assert t[j - b..j] == t[..j][j - b..];
    forall p | 0 <= p < i - b ensures !Occurs(s, t, p) {
      if i - j <= p {
        ShiftSkipsNothing(s, t, i, j, p, b);
      }
    }
  }

  lemma ShiftPast(s: string, t: string, i: nat)
    requires Searching(s, t, i, 0) && i < |s| && |t| > 0 && s[i] != t[0]
    ensures Searching(s, t, i + 1, 0)
  {
    forall p | 0 <= p < i + 1 ensures !Occurs(s, t, p) {
      FirstCharacter(s, t, p);
    }
  }

  /** kmp: the first occurrence of the pattern, or -1 exactly when there is none. */
  method Find(s: string, t: string) returns (r: int)
    requires CString(s) && CString(t) && |t| > 0
    ensures r >= 0 ==> Occurs(s, t, r) && forall p :: 0 <= p < r ==> !Occurs(s, t, p)
    ensures r < 0 ==> r == -1 && forall p: nat :: !Occurs(s, t, p)
  {
    var next := GetNext(t);
    var i, j := 0, 0;
    while At(s, i) != '\0' && At(t, j) != '\0'
      invariant 0 <= j && Searching(s, t, i, j) && NextTable(t, next[..], |t|)
      decreases 2 * (|s| - i) + j
    {
      if s[i] == t[j] {
        MatchOne(s, t, i, j);
        i := i + 1;
        j := j + 1;
      } else {
        if j > 0 {
          assert next[..][j] == next[j];
          Shift(s, t, i, j, next[j]);
        } else {
          ShiftPast(s, t, i);
        }
        j := next[j];
      }
      if j == -1 {
        i := i + 1;
        j := j + 1;
      }
    }
    if At(t, j) == '\0' {
      return i - j;
    }
    forall p: nat ensures !Occurs(s, t, p) {
    }
    return -1;
  }
}
