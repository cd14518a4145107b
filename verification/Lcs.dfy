/** The longest-common-subsequence tables and traceback of cpp/dynamic_programming/longgestSubSequence.cpp. */
module Lcs {

  /** `z` arises from `x` by deleting characters. */
  predicate Subsequence(z: string, x: string)
    decreases |x|
  {
    if z == [] then true
    else if x == [] then false
    else
      var m := |x| - 1;
      (z[|z| - 1] == x[m] && Subsequence(z[..|z| - 1], x[..m])) || Subsequence(z, x[..m])
  }

  predicate Common(z: string, x: string, y: string) {
    Subsequence(z, x) && Subsequence(z, y)
  }

  lemma {:induction false} DropLast(z: string, x: string)
    requires Subsequence(z, x) && z != []
    ensures x != [] && Subsequence(z[..|z| - 1], x[..|x| - 1])
    decreases |x|
  {
    var m := |x| - 1;
    if !(z[|z| - 1] == x[m] && Subsequence(z[..|z| - 1], x[..m])) {
      DropLast(z, x[..m]);
      Widen(z[..|z| - 1], x[..m]);
    }
  }

  /** A subsequence of all but the last character is a subsequence. */
  lemma {:induction false} Widen(z: string, x: string)
    requires x != [] && Subsequence(z, x[..|x| - 1])
    ensures Subsequence(z, x)
  {
  }

  /** The recurrence behind table c. */
  function Length(x: string, y: string, i: nat, j: nat): nat
    requires i <= |x| && j <= |y|
    decreases i + j
  {
    if i == 0 || j == 0 then 0
    else if x[i - 1] == y[j - 1] then Length(x, y, i - 1, j - 1) + 1
    else if Length(x, y, i - 1, j) >= Length(x, y, i, j - 1) then Length(x, y, i - 1, j)
    else Length(x, y, i, j - 1)
  }

  /** No common subsequence of the prefixes is longer than the table says. */
  lemma {:induction false} NoneLonger(x: string, y: string, i: nat, j: nat, z: string)
    requires i <= |x| && j <= |y| && Common(z, x[..i], y[..j])
    ensures |z| <= Length(x, y, i, j)
    decreases i + j
  {
    if z != [] && i > 0 && j > 0 {
      assert x[..i][..i - 1] == x[..i - 1] && y[..j][..j - 1] == y[..j - 1];
      if x[i - 1] == y[j - 1] {
        DropLast(z, x[..i]);
        DropLast(z, y[..j]);
        NoneLonger(x, y, i - 1, j - 1, z[..|z| - 1]);
      } else if z[|z| - 1] != x[i - 1] {
        NoneLonger(x, y, i - 1, j, z);
      } else {
        NoneLonger(x, y, i, j - 1, z);
      }
    }
  }

  /** The direction stored in table b. */
  function Direction(x: string, y: string, i: nat, j: nat): char
    requires 0 < i <= |x| && 0 < j <= |y|
  {
    if x[i - 1] == y[j - 1] then 'c'
    else if Length(x, y, i - 1, j) >= Length(x, y, i, j - 1) then 'u'
    else 'l'
  }

  ghost predicate LengthsFilled(c: array2<int>, x: string, y: string)
    reads c
  {
    && c.Length0 == |x| + 1 && c.Length1 == |y| + 1
    && forall i: nat, j: nat :: i <= |x| && j <= |y| ==> c[i, j] == Length(x, y, i, j)
  }

  ghost predicate DirectionsFilled(b: array2<char>, x: string, y: string)
    reads b
  {
    && b.Length0 == |x| + 1 && b.Length1 == |y| + 1
    && forall i: nat, j: nat :: 0 < i <= |x| && 0 < j <= |y| ==> b[i, j] == Direction(x, y, i, j)
  }

  /** Row and column zero, all rows before i, and row i before j are done. */
  predicate Done(i: nat, j: nat, p: nat, q: nat) {
    p == 0 || q == 0 || p < i || (p == i && q < j)
  }

  ghost predicate FilledTo(c: array2<int>, b: array2<char>, x: string, y: string, i: nat, j: nat)
    reads c, b
  {
    && c.Length0 == b.Length0 == |x| + 1 && c.Length1 == b.Length1 == |y| + 1
    && (forall p: nat, q: nat :: p <= |x| && q <= |y| && Done(i, j, p, q) ==> c[p, q] == Length(x, y, p, q))
    && (forall p: nat, q: nat :: 0 < p <= |x| && 0 < q <= |y| && Done(i, j, p, q) ==> b[p, q] == Direction(x, y, p, q))
  }

  /** The body of the two loops. Row and column zero stay as they are. */
  method FillCell(c: array2<int>, b: array2<char>, x: string, y: string, i: nat, j: nat)
    requires 0 < i <= |x| && 0 < j <= |y|
    requires c.Length0 == b.Length0 == |x| + 1 && c.Length1 == b.Length1 == |y| + 1
    modifies c, b
    ensures old(FilledTo(c, b, x, y, i, j)) ==> FilledTo(c, b, x, y, i, j + 1)
    ensures forall p: nat, q: nat :: p <= |x| && q <= |y| && (p == 0 || q == 0) ==> c[p, q] == old(c[p, q])
  {
    ghost var filled := FilledTo(c, b, x, y, i, j);
    assert Done(i, j, i - 1, j - 1) && Done(i, j, i - 1, j) && Done(i, j, i, j - 1);
    assert filled ==> c[i - 1, j - 1] == Length(x, y, i - 1, j - 1);
    assert filled ==> c[i - 1, j] == Length(x, y, i - 1, j) && c[i, j - 1] == Length(x, y, i, j - 1);
    var v, d;
    if x[i - 1] == y[j - 1] {
      v, d := c[i - 1, j - 1] + 1, 'c';
    } else if c[i - 1, j] >= c[i, j - 1] {
      v, d := c[i - 1, j], 'u';
    } else {
      v, d := c[i, j - 1], 'l';
    }
    assert filled ==> v == Length(x, y, i, j) && d == Direction(x, y, i, j);
    c[i, j] := v;
    b[i, j] := d;
    assert forall p: nat, q: nat :: Done(i, j + 1, p, q) <==> Done(i, j, p, q) || (p == i && q == j);
  }

  /** What a resized vector of vectors holds at a position: the old entry, or zero where there was none. */
  function Entry<T>(c: seq<seq<T>>, i: nat, j: nat, zero: T): T {
    if i < |c| && j < |c[i]| then c[i][j] else zero
  }

  /** Row and column zero of the table passed in hold zeros as far as the new table reaches. */
  ghost predicate Blank(c0: seq<seq<int>>, m: nat, n: nat) {
    && (forall i: nat :: i <= m ==> Entry(c0, i, 0, 0) == 0)
    && (forall j: nat :: j <= n ==> Entry(c0, 0, j, 0) == 0)
  }

  /** The border of the table is that of the table passed in. */
  ghost predicate BorderKept(c: array2<int>, c0: seq<seq<int>>)
    reads c
  {
    forall p: nat, q: nat :: p < c.Length0 && q < c.Length1 && (p == 0 || q == 0) ==> c[p, q] == Entry(c0, p, q, 0)
  }

  /** The resized tables. */
  method Resize(c0: seq<seq<int>>, b0: seq<seq<char>>, m: nat, n: nat) returns (c: array2<int>, b: array2<char>)
    ensures fresh(c) && fresh(b) && c.Length0 == b.Length0 == m + 1 && c.Length1 == b.Length1 == n + 1
    ensures BorderKept(c, c0)
  {
    c := new int[m + 1, n + 1]((i: nat, j: nat) => Entry(c0, i, j, 0));
    b := new char[m + 1, n + 1]((i: nat, j: nat) => Entry(b0, i, j, '\0'));
  }

  /**
   lcsLength, on any tables passed in: it resizes them and never writes row or column zero. Table c is right
   if and only if those held zeros (as in the empty tables of main), and then table b is right too.
   */
  method FillTables(x: string, y: string, c0: seq<seq<int>>, b0: seq<seq<char>>)
    returns (c: array2<int>, b: array2<char>)
    ensures fresh(c) && fresh(b)
    ensures LengthsFilled(c, x, y) <==> Blank(c0, |x|, |y|)
    ensures Blank(c0, |x|, |y|) ==> DirectionsFilled(b, x, y)
  {
    c, b := Resize(c0, b0, |x|, |y|);
    ghost var blank := Blank(c0, |x|, |y|);
    for i := 1 to |x| + 1
      invariant BorderKept(c, c0) && (blank ==> FilledTo(c, b, x, y, i, 0))
    {
      for j := 1 to |y| + 1
        invariant BorderKept(c, c0) && (blank ==> FilledTo(c, b, x, y, i, j))
      {
        FillCell(c, b, x, y, i, j);
      }
    }
    BorderDecides(c, c0, x, y);
  }

  lemma BorderDecides(c: array2<int>, c0: seq<seq<int>>, x: string, y: string)
    requires c.Length0 == |x| + 1 && c.Length1 == |y| + 1 && BorderKept(c, c0)
    ensures LengthsFilled(c, x, y) ==> Blank(c0, |x|, |y|)
  {
    if LengthsFilled(c, x, y) {
      forall i: nat | i <= |x| ensures Entry(c0, i, 0, 0) == 0 {
        assert c[i, 0] == Length(x, y, i, 0);
      }
      forall j: nat | j <= |y| ensures Entry(c0, 0, j, 0) == 0 {
        assert c[0, j] == Length(x, y, 0, j);
      }
    }
  }

  /** print_lcs: the characters it emits are a common subsequence of the length in table c. */
  function Traceback(b: array2<char>, x: string, ghost y: string, i: nat, j: nat): (r: string)
    requires DirectionsFilled(b, x, y) && i <= |x| && j <= |y|
    reads b
    ensures |r| == Length(x, y, i, j) && Common(r, x[..i], y[..j])
    decreases i + j
  {
    if i == 0 || j == 0 then ""
    else
      assert x[..i][..i - 1] == x[..i - 1] && y[..j][..j - 1] == y[..j - 1];
      if b[i, j] == 'c' then
        var r := Traceback(b, x, y, i - 1, j - 1);
        assert (r + [x[i - 1]])[..|r|] == r;
        r + [x[i - 1]]
      else if b[i, j] == 'u' then
        var r := Traceback(b, x, y, i - 1, j);
        Widen(r, x[..i]);
        r
      else
        var r := Traceback(b, x, y, i, j - 1);
        Widen(r, y[..j]);
        r
  }

  /** The whole program: the emitted string is a longest common subsequence. */
  method LongestCommon(x: string, y: string) returns (r: string)
    ensures Common(r, x, y) && forall z: string :: Common(z, x, y) ==> |z| <= |r|
  {
    var c, b := FillTables(x, y, [], []);
    r := Traceback(b, x, y, |x|, |y|);
    assert x[..|x|] == x && y[..|y|] == y;
    forall z: string | Common(z, x, y) ensures |z| <= |r| {
      NoneLonger(x, y, |x|, |y|, z);
    }
  }
}
