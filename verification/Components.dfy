/** The component counter `code` of cpp/race/race_template.cpp, on an adjacency matrix. */
module Components {
  import opened UnionFind
  import opened Sequences

  type Matrix = seq<seq<int>>

  ghost predicate Square(m: Matrix) {
    forall i :: 0 <= i < |m| ==> |m[i]| >= |m|
  }

  /** An edge in either direction. */
  ghost predicate Adjacent(m: Matrix, u: nat, v: nat)
    requires Square(m)
  {
    u < |m| && v < |m| && (m[u][v] != 0 || m[v][u] != 0)
  }

  ghost predicate Path(m: Matrix, p: seq<nat>)
    requires Square(m)
  {
    && |p| >= 1 && (forall i :: 0 <= i < |p| ==> p[i] < |m|)
    && forall i :: 0 < i < |p| ==> Adjacent(m, p[i - 1], p[i])
  }

  ghost predicate Joins(m: Matrix, p: seq<nat>, x: nat, y: nat)
    requires Square(m)
  {
    Path(m, p) && p[0] == x && p[|p| - 1] == y
  }

  ghost predicate Connected(m: Matrix, x: nat, y: nat)
    requires Square(m)
  {
    exists p: seq<nat> :: Joins(m, p, x, y)
  }

  lemma ConnectedSelf(m: Matrix, x: nat)
    requires Square(m) && x < |m|
    ensures Connected(m, x, x)
  {
    assert Joins(m, [x], x, x);
  }

  lemma ConnectedEdge(m: Matrix, x: nat, y: nat)
    requires Square(m) && Adjacent(m, x, y)
    ensures Connected(m, x, y)
  {
    assert Joins(m, [x, y], x, y);
  }

  function Reversed(p: seq<nat>): (r: seq<nat>)
    ensures |r| == |p| && forall i :: 0 <= i < |p| ==> r[i] == p[|p| - 1 - i]
  {
    seq(|p|, i requires 0 <= i < |p| => p[|p| - 1 - i])
  }

  lemma ConnectedSymmetric(m: Matrix, x: nat, y: nat)
    requires Square(m) && Connected(m, x, y)
    ensures Connected(m, y, x)
  {
    var p: seq<nat> :| Joins(m, p, x, y);
    var r := Reversed(p);
    forall i | 0 < i < |r| ensures Adjacent(m, r[i - 1], r[i]) {
      assert Adjacent(m, p[|p| - 1 - i], p[|p| - i]);
    }
    assert Joins(m, r, y, x);
  }

  lemma ConnectedTransitive(m: Matrix, x: nat, y: nat, z: nat)
    requires Square(m) && Connected(m, x, y) && Connected(m, y, z)
    ensures Connected(m, x, z)
  {
    var p: seq<nat> :| Joins(m, p, x, y);
    var q: seq<nat> :| Joins(m, q, y, z);
    var r := p + q[1..];
    forall i | 0 < i < |r| ensures Adjacent(m, r[i - 1], r[i]) {
      if i >= |p| {
        assert r[i] == q[i - |p| + 1];
        assert r[i - 1] == q[i - |p|];
        assert Adjacent(m, q[i - |p|], q[i - |p| + 1]);
      } else {
        assert Adjacent(m, p[i - 1], p[i]);
      }
    }
    assert Joins(m, r, x, z);
  }

  /** The pairs are exactly the edges of the matrix met before position (i, j) of the scan. */
  ghost predicate Scanned(m: Matrix, pairs: seq<Pair>, i: nat, j: nat)
    requires Square(m)
  {
    && (forall k :: 0 <= k < |pairs| ==> pairs[k].x < |m| && pairs[k].y < |m| && m[pairs[k].x][pairs[k].y] != 0)
    && (forall u: nat, v: nat :: u < |m| && v < |m| && (u < i || (u == i && v < j)) && m[u][v] != 0 ==>
         Pair(u, v) in pairs)
  }

  ghost function ConnectedRelation(m: Matrix): (nat, nat) -> bool
    requires Square(m)
  {
    (x: nat, y: nat) => Connected(m, x, y)
  }

  lemma ConnectedIsEquivalence(m: Matrix, pairs: seq<Pair>, i: nat, j: nat)
    requires Square(m) && Scanned(m, pairs, i, j)
    ensures Equivalence(|m|, ConnectedRelation(m)) && Contains(|m|, ConnectedRelation(m), pairs)
  {
    var e := ConnectedRelation(m);
    forall x: nat | x < |m| ensures e(x, x) {
      ConnectedSelf(m, x);
    }
    forall x: nat, y: nat | x < |m| && y < |m| && e(x, y) ensures e(y, x) {
      ConnectedSymmetric(m, x, y);
    }
    forall x: nat, y: nat, z: nat | x < |m| && y < |m| && z < |m| && e(x, y) && e(y, z) ensures e(x, z) {
      ConnectedTransitive(m, x, y, z);
    }
    forall k | 0 <= k < |pairs| ensures e(pairs[k].x, pairs[k].y) {
      ConnectedEdge(m, pairs[k].x, pairs[k].y);
    }
  }

  lemma {:induction false} PathSameRoot(m: Matrix, f: seq<nat>, rank: seq<nat>, pairs: seq<Pair>, p: seq<nat>)
    requires Square(m) && Forest(f, rank) && |f| == |m| && IsClosure(f, rank, pairs) && Scanned(m, pairs, |m|, 0)
             && Path(m, p)
    ensures SameRoot(f, rank, p[0], p[|p| - 1])
    decreases |p|
  {
    if |p| > 1 {
      var n := |p| - 1;
      PathSameRoot(m, f, rank, pairs, p[..n]);
      var u, v := p[n - 1], p[n];
      assert Adjacent(m, u, v);
      assert Pair(u, v) in pairs || Pair(v, u) in pairs;
      var k :| 0 <= k < |pairs| && (pairs[k] == Pair(u, v) || pairs[k] == Pair(v, u));
      assert SameRoot(f, rank, pairs[k].x, pairs[k].y);
    }
  }

  /** After the scan two cities share a root exactly when a path of edges joins them. */
  lemma RootsAreComponents(m: Matrix, f: seq<nat>, rank: seq<nat>, pairs: seq<Pair>, x: nat, y: nat)
    requires Square(m) && Forest(f, rank) && |f| == |m| && IsClosure(f, rank, pairs) && Scanned(m, pairs, |m|, 0)
    requires x < |m| && y < |m|
    ensures SameRoot(f, rank, x, y) <==> Connected(m, x, y)
  {
    ConnectedIsEquivalence(m, pairs, |m|, 0);
    var e := ConnectedRelation(m);
    assert Within(f, rank, e);
    if SameRoot(f, rank, x, y) {
      assert e(x, y);
    }
    if Connected(m, x, y) {
      var p: seq<nat> :| Joins(m, p, x, y);
      PathSameRoot(m, f, rank, pairs, p);
    }
  }

  // ----- Counting -----

  ghost function Component(m: Matrix, x: nat): set<nat>
    requires Square(m)
  {
    set y: nat | y < |m| && Connected(m, x, y)
  }

  /** Sequences that repeat at the same places have equally many distinct elements. */
  lemma {:induction false} EqualCounts<T, U>(a: seq<T>, b: seq<U>)
    requires |a| == |b| && forall i, j :: 0 <= i < j < |a| ==> (a[i] == a[j] <==> b[i] == b[j])
    ensures |Elements(a)| == |Elements(b)|
    decreases |a|
  {
    if a == [] {
    } else {
      var n := |a| - 1;
      EqualCounts(a[..n], b[..n]);
      ElementsSnoc(a);
      ElementsSnoc(b);
      SameFreshness(a, b);
      SameFreshness(b, a);
    }
  }

  lemma ElementsSnoc<T>(a: seq<T>)
    requires a != []
    ensures var n := |a| - 1; Elements(a) == Elements(a[..n]) + {a[n]} && (a[n] in Elements(a[..n]) <==> a[n] in a[..n])
  {
    var n := |a| - 1;
    assert a == a[..n] + [a[n]];
  }

  lemma SameFreshness<T, U>(a: seq<T>, b: seq<U>)
    requires |a| == |b| > 0 && forall i, j :: 0 <= i < j < |a| ==> (a[i] == a[j] <==> b[i] == b[j])
    ensures var n := |a| - 1; a[n] in a[..n] ==> b[n] in b[..n]
  {
    var n := |a| - 1;
    if a[n] in a[..n] {
      var i :| 0 <= i < n && a[..n][i] == a[n];
      assert b[..n][i] == b[n];
    }
  }

  /** The component of every city, in order of the cities. */
  ghost function ComponentList(m: Matrix): (r: seq<set<nat>>)
    requires Square(m)
    ensures |r| == |m| && forall x :: 0 <= x < |m| ==> r[x] == Component(m, x)
  {
    seq(|m|, x requires 0 <= x < |m| => Component(m, x))
  }

  ghost function RootList(f: seq<nat>, rank: seq<nat>): (r: seq<nat>)
    requires Forest(f, rank)
    ensures |r| == |f| && forall x :: 0 <= x < |f| ==> r[x] == Root(f, rank, x)
  {
    seq(|f|, x requires 0 <= x < |f| => Root(f, rank, x))
  }

  lemma SameComponent(m: Matrix, x: nat, y: nat)
    requires Square(m) && x < |m| && y < |m|
    ensures Component(m, x) == Component(m, y) <==> Connected(m, x, y)
  {
    ConnectedSelf(m, y);
    if Connected(m, x, y) {
      ConnectedSymmetric(m, x, y);
      forall z: nat | z < |m| ensures Connected(m, x, z) <==> Connected(m, y, z) {
        if Connected(m, x, z) {
          ConnectedTransitive(m, y, x, z);
        }
        if Connected(m, y, z) {
          ConnectedTransitive(m, x, y, z);
        }
      }
    } else {
      assert y in Component(m, y);
    }
  }

  lemma RootsCountComponents(m: Matrix, f: seq<nat>, rank: seq<nat>, pairs: seq<Pair>)
    requires Square(m) && Forest(f, rank) && |f| == |m| && IsClosure(f, rank, pairs) && Scanned(m, pairs, |m|, 0)
    ensures |Elements(RootList(f, rank))| == |Elements(ComponentList(m))|
  {
    var a, b := RootList(f, rank), ComponentList(m);
    forall i, j | 0 <= i < j < |m| ensures a[i] == a[j] <==> b[i] == b[j] {
      SameComponent(m, i, j);
      RootsAreComponents(m, f, rank, pairs, i, j);
    }
    EqualCounts(a, b);
  }

  /** join: link the root of i below the root of j. */
  method Join(father: array<nat>, i: nat, j: nat, ghost rank: seq<nat>) returns (ghost rank': seq<nat>)
    requires Forest(father[..], rank) && i < father.Length && j < father.Length
    modifies father
    ensures Forest(father[..], rank') && Merged(old(father[..]), rank, father[..], rank', i, j)
  {
    ghost var f := father[..];
    var a: nat := Root(father[..], rank, i);
    var b: nat := Root(father[..], rank, j);
    father[a] := b;
    assert father[..] == f[a := b];
    if a == b {
      rank' := rank;
      assert father[..] == f;
    } else {
      rank' := LinkRank(f, rank, a, b);
      forall z: nat | z < |f|
        ensures Forest(f[a := b], rank')
        ensures Root(f[a := b], rank', z) == if Root(f, rank, z) == a then b else Root(f, rank, z)
      {
        LinkRoots(f, rank, a, b, z);
      }
    }
  }

  /** code: the number of connected components. */
  method Count(m: Matrix) returns (count: nat)
    requires Square(m)
    ensures count == |Elements(ComponentList(m))|
  {
    var n := |m|;
    var father := new nat[n];
    for i := 0 to n
      invariant forall x :: 0 <= x < i ==> father[x] == x
    {
      father[i] := i;
    }
    ghost var rank: seq<nat> := seq(n, _ => 0);
    ghost var pairs: seq<Pair> := [];
    InitialClosure(father[..], rank);
    for i := 0 to n
      invariant Forest(father[..], rank) && IsClosure(father[..], rank, pairs) && Scanned(m, pairs, i, 0)
    {
      for j := 0 to n
        invariant Forest(father[..], rank) && IsClosure(father[..], rank, pairs) && Scanned(m, pairs, i, j)
      {
        if m[i][j] != 0 {
          ghost var f, r := father[..], rank;
          rank := Join(father, i, j, rank);
          MergeClosure(f, r, father[..], rank, pairs, i, j);
          ScanOne(m, pairs, i, j);
          pairs := pairs + [Pair(i, j)];
        }
      }
    }
    var roots: set<nat> := {};
    for i := 0 to n
      invariant roots == Elements(RootList(father[..], rank)[..i])
    {
      roots := roots + {Root(father[..], rank, i)};
      assert RootList(father[..], rank)[..i + 1] == RootList(father[..], rank)[..i] + [Root(father[..], rank, i)];
    }
    assert RootList(father[..], rank)[..n] == RootList(father[..], rank);
    RootsCountComponents(m, father[..], rank, pairs);
    count := |roots|;
  }

  lemma ScanOne(m: Matrix, pairs: seq<Pair>, i: nat, j: nat)
    requires Square(m) && Scanned(m, pairs, i, j) && i < |m| && j < |m| && m[i][j] != 0
    ensures Scanned(m, pairs + [Pair(i, j)], i, j + 1)
  {
    var pairs' := pairs + [Pair(i, j)];
    assert pairs'[|pairs|] == Pair(i, j);
    forall k | 0 <= k < |pairs| ensures pairs'[k] in pairs' {
    }
    assert forall p :: p in pairs ==> p in pairs';
  }
}
