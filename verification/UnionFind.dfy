/**
 Union-find: the path-compressing version of cpp/race/union_find.cpp, and the component counter of
 cpp/race/race_template.cpp, both over the same forest of father links.
 */
module UnionFind {

  /** `rank` witnesses that following father links always ends: each link goes to a smaller rank. */
  ghost predicate Forest(f: seq<nat>, rank: seq<nat>) {
    && |rank| == |f| && (forall x :: 0 <= x < |f| ==> f[x] < |f|)
    && forall x :: 0 <= x < |f| && f[x] != x ==> rank[f[x]] < rank[x]
  }

  /** find: follow father links to the root. */
  function Root(f: seq<nat>, ghost rank: seq<nat>, x: nat): (r: nat)
    requires Forest(f, rank) && x < |f|
    ensures r < |f| && f[r] == r && (f[x] == x ==> r == x)
    decreases rank[x]
  {
    if x == f[x] then x else Root(f, rank, f[x])
  }

  /** Pointing a node at its own root changes no node's root. */
  lemma {:induction false} CompressKeepsRoots(f: seq<nat>, rank: seq<nat>, x: nat, y: nat)
    requires Forest(f, rank) && x < |f| && f[x] != x && y < |f|
    ensures Forest(f[x := Root(f, rank, x)], rank)
    ensures Root(f[x := Root(f, rank, x)], rank, y) == Root(f, rank, y)
    decreases rank[y]
  {
    RootRank(f, rank, x);
    var f' := f[x := Root(f, rank, x)];
    if f[y] != y {
      CompressKeepsRoots(f, rank, x, f[y]);
      if y == x {
        var r := Root(f, rank, x);
        assert f'[r] == r;
      }
    }
  }

  /** Node `z` lies on the way from `x` to its root. */
  ghost predicate OnPath(f: seq<nat>, rank: seq<nat>, x: nat, z: nat)
    requires Forest(f, rank) && x < |f|
    decreases rank[x]
  {
    x == z || (f[x] != x && OnPath(f, rank, f[x], z))
  }

  lemma {:induction false} PathRank(f: seq<nat>, rank: seq<nat>, x: nat, z: nat)
    requires Forest(f, rank) && x < |f| && OnPath(f, rank, x, z)
    ensures z < |f| && (z == x || rank[z] < rank[x])
    decreases rank[x]
  {
    if x == z {
    } else {
      PathRank(f, rank, f[x], z);
    }
  }

  /** Half-way through: what lies between `start` and `x` hangs below the root, the rest is as before. */
  ghost predicate Compressed(f: seq<nat>, rank: seq<nat>, g: seq<nat>, start: nat, x: nat, root: nat)
    requires Forest(f, rank) && start < |f| && x < |f| && |g| == |f|
  {
    && OnPath(f, rank, start, x)
    && forall z: nat :: z < |f| ==>
         g[z] == if OnPath(f, rank, start, z) && !OnPath(f, rank, x, z) then root else f[z]
  }

  lemma CompressStep(f: seq<nat>, rank: seq<nat>, g: seq<nat>, start: nat, x: nat, root: nat)
    requires Forest(f, rank) && start < |f| && x < |f| && |g| == |f| && Compressed(f, rank, g, start, x, root)
    requires f[x] != x
    ensures g[x] == f[x] && Compressed(f, rank, g[x := root], start, f[x], root)
  {
    PathOn(f, rank, start, x);
    forall z: nat | z < |f| ensures OnPath(f, rank, x, z) <==> z == x || OnPath(f, rank, f[x], z) {
    }
    if OnPath(f, rank, f[x], x) {
      PathRank(f, rank, f[x], x);
    }
  }

  lemma {:induction false} PathOn(f: seq<nat>, rank: seq<nat>, x: nat, z: nat)
    requires Forest(f, rank) && x < |f| && OnPath(f, rank, x, z) && z < |f| && f[z] != z
    ensures OnPath(f, rank, x, f[z])
    decreases rank[x]
  {
    if x == z {
      assert OnPath(f, rank, f[x], f[x]);
    } else {
      PathOn(f, rank, f[x], z);
    }
  }

  lemma {:induction false} RootRank(f: seq<nat>, rank: seq<nat>, x: nat)
    requires Forest(f, rank) && x < |f|
    ensures f[x] != x ==> rank[Root(f, rank, x)] < rank[x]
    ensures Root(f, rank, x) == x || f[x] != x
    decreases rank[x]
  {
    if f[x] != x {
      RootRank(f, rank, f[x]);
    }
  }

  /** A rank for the forest in which root `a` hangs below root `b`. */
  ghost function LinkRank(f: seq<nat>, rank: seq<nat>, a: nat, b: nat): (r: seq<nat>)
    requires Forest(f, rank) && a < |f| && b < |f|
    ensures |r| == |f|
    ensures forall x :: 0 <= x < |f| ==> r[x] == rank[x] + (if Root(f, rank, x) == a then rank[b] + 1 else 0)
  {
    seq(|f|, x requires 0 <= x < |f| => rank[x] + (if Root(f, rank, x) == a then rank[b] + 1 else 0))
  }

  lemma LinkForest(f: seq<nat>, rank: seq<nat>, a: nat, b: nat)
    requires Forest(f, rank) && a < |f| && b < |f| && f[a] == a && f[b] == b && a != b
    ensures Forest(f[a := b], LinkRank(f, rank, a, b))
  {
    var f', rank' := f[a := b], LinkRank(f, rank, a, b);
    forall x | 0 <= x < |f'| && f'[x] != x ensures rank'[f'[x]] < rank'[x] {
      if x != a {
        assert Root(f, rank, x) == Root(f, rank, f[x]);
      }
    }
  }

  /** Linking root `a` below root `b` moves exactly the class of `a` to `b`. */
  lemma {:induction false} LinkRoots(f: seq<nat>, rank: seq<nat>, a: nat, b: nat, y: nat)
    requires Forest(f, rank) && a < |f| && b < |f| && f[a] == a && f[b] == b && a != b && y < |f|
    ensures Forest(f[a := b], LinkRank(f, rank, a, b))
    ensures Root(f[a := b], LinkRank(f, rank, a, b), y) == if Root(f, rank, y) == a then b else Root(f, rank, y)
    decreases rank[y]
  {
    LinkForest(f, rank, a, b);
    var f', rank' := f[a := b], LinkRank(f, rank, a, b);
    if f[y] != y {
      LinkRoots(f, rank, a, b, f[y]);
    } else if y == a {
      assert Root(f', rank', b) == b;
    }
  }

  // ----- The relation a run of unions builds -----

  datatype Pair = Pair(x: nat, y: nat)

  ghost predicate Equivalence(n: nat, e: (nat, nat) -> bool) {
    && (forall x: nat :: x < n ==> e(x, x))
    && (forall x: nat, y: nat :: x < n && y < n && e(x, y) ==> e(y, x))
    && (forall x: nat, y: nat, z: nat :: x < n && y < n && z < n && e(x, y) && e(y, z) ==> e(x, z))
  }

  ghost predicate Contains(n: nat, e: (nat, nat) -> bool, pairs: seq<Pair>) {
    forall i :: 0 <= i < |pairs| ==> pairs[i].x < n && pairs[i].y < n && e(pairs[i].x, pairs[i].y)
  }

  ghost predicate PairsBelow(n: nat, pairs: seq<Pair>) {
    forall i :: 0 <= i < |pairs| ==> pairs[i].x < n && pairs[i].y < n
  }

  ghost predicate SameRoot(f: seq<nat>, rank: seq<nat>, x: nat, y: nat)
    requires Forest(f, rank)
  {
    x < |f| && y < |f| && Root(f, rank, x) == Root(f, rank, y)
  }

  /** Having the same root is the least equivalence relation that contains the pairs. */
  ghost predicate IsClosure(f: seq<nat>, rank: seq<nat>, pairs: seq<Pair>)
    requires Forest(f, rank)
  {
    && (forall i :: 0 <= i < |pairs| ==> SameRoot(f, rank, pairs[i].x, pairs[i].y))
    && (forall e: (nat, nat) -> bool :: Equivalence(|f|, e) && Contains(|f|, e, pairs) ==> Within(f, rank, e))
  }

  /** `e` relates any two nodes with the same root. */
  ghost predicate Within(f: seq<nat>, rank: seq<nat>, e: (nat, nat) -> bool)
    requires Forest(f, rank)
  {
    forall x: nat, y: nat :: SameRoot(f, rank, x, y) ==> e(x, y)
  }

  /** What a union of `x` and `y` does to the roots. */
  ghost predicate Merged(f: seq<nat>, rank: seq<nat>, f': seq<nat>, rank': seq<nat>, x: nat, y: nat)
    requires Forest(f, rank) && Forest(f', rank') && |f'| == |f| && x < |f| && y < |f|
  {
    var a, b := Root(f, rank, x), Root(f, rank, y);
    forall z: nat :: z < |f| ==> Root(f', rank', z) == if Root(f, rank, z) == a then b else Root(f, rank, z)
  }

  lemma MergeWithin(f: seq<nat>, rank: seq<nat>, f': seq<nat>, rank': seq<nat>, x: nat, y: nat, e: (nat, nat) -> bool)
    requires Forest(f, rank) && Forest(f', rank') && |f'| == |f| && x < |f| && y < |f|
    requires Merged(f, rank, f', rank', x, y) && Equivalence(|f|, e) && Within(f, rank, e) && e(x, y)
    ensures Within(f', rank', e)
  {
    forall u: nat, v: nat | SameRoot(f', rank', u, v) ensures e(u, v) {
      if SameRoot(f, rank, u, v) {
        assert e(u, v);
      } else if SameRoot(f, rank, u, x) {
        assert SameRoot(f, rank, y, v);
        assert e(u, x) && e(x, y) && e(y, v);
      } else {
        assert SameRoot(f, rank, u, y) && SameRoot(f, rank, x, v);
        assert e(u, y) && e(y, x) && e(x, v);
      }
    }
  }

  /** Union merges exactly two classes, so the closure grows by exactly the new pair. */
  lemma MergeClosure(f: seq<nat>, rank: seq<nat>, f': seq<nat>, rank': seq<nat>, pairs: seq<Pair>, x: nat, y: nat)
    requires Forest(f, rank) && Forest(f', rank') && |f'| == |f| && x < |f| && y < |f|
    requires Merged(f, rank, f', rank', x, y) && IsClosure(f, rank, pairs)
    ensures IsClosure(f', rank', pairs + [Pair(x, y)])
  {
    var pairs' := pairs + [Pair(x, y)];
    forall i | 0 <= i < |pairs'| ensures SameRoot(f', rank', pairs'[i].x, pairs'[i].y) {
      assert i < |pairs| ==> SameRoot(f, rank, pairs[i].x, pairs[i].y);
    }
    forall e: (nat, nat) -> bool | Equivalence(|f'|, e) && Contains(|f'|, e, pairs') ensures Within(f', rank', e) {
      assert pairs'[|pairs|] == Pair(x, y);
      assert forall i :: 0 <= i < |pairs| ==> pairs'[i] == pairs[i];
      assert Contains(|f|, e, pairs);
      MergeWithin(f, rank, f', rank', x, y, e);
    }
  }

  lemma InitialClosure(f: seq<nat>, rank: seq<nat>)
    requires Forest(f, rank) && forall x :: 0 <= x < |f| ==> f[x] == x
    ensures IsClosure(f, rank, [])
  {
  }

  ghost predicate SameRoots(f: seq<nat>, f': seq<nat>, rank: seq<nat>)
    requires Forest(f, rank) && Forest(f', rank) && |f'| == |f|
  {
    forall z: nat :: z < |f| ==> Root(f', rank, z) == Root(f, rank, z)
  }

  /** The global father array with makeSet, findRoot and Union. */
  class DisjointSets {
    const father: array<nat>
    ghost var rank: seq<nat>
    /** The pairs united so far. */
    ghost var pairs: seq<Pair>

    ghost predicate Valid()
      reads this, father
    {
      Forest(father[..], rank) && IsClosure(father[..], rank, pairs)
    }

    /** makeSet: every node is its own root. */
    constructor (n: nat)
      ensures Valid() && fresh(father) && father.Length == n && pairs == []
      ensures forall x: nat :: x < n ==> father[x] == x
    {
      var a := new nat[n];
      for i := 0 to n
        invariant forall x :: 0 <= x < i ==> a[x] == x
      {
        a[i] := i;
      }
      father := a;
      rank, pairs := seq(n, _ => 0), [];
      new;
      InitialClosure(father[..], rank);
    }

    /**
     findRoot: returns the root and hangs every node on the way there directly below it; no other entry and no node's
     root changes.
     */
    method FindRoot(start: nat) returns (root: nat)
      requires Forest(father[..], rank) && start < father.Length
      modifies father
      ensures Forest(father[..], rank) && root == Root(old(father[..]), rank, start)
      ensures SameRoots(old(father[..]), father[..], rank)
      ensures forall z: nat :: z < father.Length ==>
                father[z] == if OnPath(old(father[..]), rank, start, z) then root else old(father[z])
    {
      ghost var f := father[..];
      root := start;
      while root != father[root]
        invariant root < father.Length && father[..] == f && Root(f, rank, root) == Root(f, rank, start)
        decreases rank[root]
      {
        root := father[root];
      }
      var x: nat := start;
      while x != root
        invariant x < father.Length && Forest(father[..], rank) && SameRoots(f, father[..], rank)
        invariant Root(father[..], rank, x) == root
        invariant Compressed(f, rank, father[..], start, x, root)
        decreases rank[x]
      {
        ghost var g := father[..];
        var tmp := father[x];
        RootRank(g, rank, x);
        forall z: nat | z < |g| ensures Forest(g[x := root], rank) && Root(g[x := root], rank, z) == Root(g, rank, z) {
          CompressKeepsRoots(g, rank, x, z);
        }
        CompressStep(f, rank, g, start, x, root);
        father[x] := root;
        assert father[..] == g[x := root];
        x := tmp;
      }
      forall z: nat | z < father.Length
        ensures father[z] == if OnPath(f, rank, start, z) then root else f[z]
      {
        assert father[..][z] == father[z];
      }
    }

    /** Union: the relation becomes the closure with the new pair added, and nothing else is related. */
    method Union(x: nat, y: nat)
      requires Valid() && x < father.Length && y < father.Length
      modifies this`rank, this`pairs, father
      ensures Valid() && pairs == old(pairs) + [Pair(x, y)]
      ensures Merged(old(father[..]), old(rank), father[..], rank, x, y)
    {
      ghost var f0 := father[..];
      var a: nat := FindRoot(x);
      ghost var f1 := father[..];
      var b: nat := FindRoot(y);
      ghost var f := father[..];
      father[a] := b;
      assert father[..] == f[a := b];
      if a != b {
        forall z: nat | z < |f|
          ensures Forest(f[a := b], LinkRank(f, rank, a, b))
          ensures Root(f[a := b], LinkRank(f, rank, a, b), z) == if Root(f, rank, z) == a then b else Root(f, rank, z)
        {
          LinkRoots(f, rank, a, b, z);
        }
        rank := LinkRank(f, rank, a, b);
      } else {
        assert father[..] == f;
      }
      MergeClosure(f0, old(rank), father[..], rank, pairs, x, y);
      pairs := pairs + [Pair(x, y)];
    }

    /** After any run of unions, two nodes share a root exactly when the closure of the united pairs relates them. */
    method UnionAll(more: seq<Pair>)
      requires Valid() && PairsBelow(father.Length, more)
      modifies this`rank, this`pairs, father
      ensures Valid() && pairs == old(pairs) + more
    {
      for i := 0 to |more|
        invariant Valid() && pairs == old(pairs) + more[..i]
      {
        Union(more[i].x, more[i].y);
        assert more[..i + 1] == more[..i] + [more[i]];
      }
      assert more[..|more|] == more;
    }
  }
}
