/**
 When a key is cached, from the calls alone: its last use lies back, but fewer other keys have been used since than
 the cache can hold.
 */
module LruHistory {
  import opened Sequences
  import opened LruSpec

  /** Call `i` finds its key in the cache. */
  ghost predicate Hit(ops: seq<Op>, cap: int, i: nat)
    requires i < |ops|
  {
    ops[i].key in CachedKeys(ops[..i], cap)
  }

  /** Call `i` uses its key: every put does, and every get that hits. */
  ghost predicate Used(ops: seq<Op>, cap: int, i: nat)
    requires i < |ops|
  {
    ops[i].Put? || Hit(ops, cap, i)
  }

  /** The keys used by the calls from `a` up to `b`. */
  ghost function KeysUsed(ops: seq<Op>, cap: int, a: nat, b: nat): set<int>
    requires b <= |ops|
  {
    set l: nat | a <= l < b && Used(ops, cap, l) :: ops[l].key
  }

  /** Call `j` is the last one before `i` that uses `k`. */
  ghost predicate LastUse(ops: seq<Op>, cap: int, j: nat, i: nat, k: int)
    requires i <= |ops|
  {
    j < i && ops[j].key == k && Used(ops, cap, j) && k !in KeysUsed(ops, cap, j + 1, i)
  }

  // ----- Lists of touches -----

  lemma {:induction false} RemoveMember(r: seq<int>, k: int, x: int)
    ensures x in Remove(r, k) <==> x in r && x != k
  {
    if r == [] {
    } else {
      RemoveMember(r[1..], k, x);
      assert r == [r[0]] + r[1..];
    }
  }

  lemma {:induction false} RecentMember(h: seq<int>, x: int)
    ensures x in Recent(h) <==> x in h
  {
    if h == [] {
    } else {
      RecentMember(h[1..], x);
      RemoveMember(Recent(h[1..]), h[0], x);
      assert h == [h[0]] + h[1..];
    }
  }

  lemma {:induction false} TouchPosition(h: seq<int>, x: int, p: nat)
    requires p <= |h|
    ensures x in h[..p] <==> LastTouch(h, x) < p
    ensures LastTouch(h, x) <= |h|
  {
    if h == [] {
    } else if h[0] == x {
      assert p > 0 ==> h[..p][0] == x;
    } else if p == 0 {
      TouchPosition(h[1..], x, 0);
    } else {
      TouchPosition(h[1..], x, p - 1);
      assert h[..p] == [h[0]] + h[1..][..p - 1];
    }
  }

  /** Before `k` in the list of recent keys stand exactly the keys touched since. */
  lemma BeforeInRecent(h: seq<int>, idx: nat)
    requires idx < |Recent(h)|
    ensures var k := Recent(h)[idx];
            LastTouch(h, k) <= |h| && Elements(Recent(h)[..idx]) == Elements(h[..LastTouch(h, k)])
  {
    var r := Recent(h);
    var k := r[idx];
    RecentIsByLastTouch(h);
    TouchPosition(h, k, 0);
    var p := LastTouch(h, k);
    forall x ensures x in r[..idx] <==> x in h[..p] {
      TouchPosition(h, x, p);
      RecentMember(h, x);
      if x in r[..idx] {
        var i :| 0 <= i < idx && r[i] == x;
      }
      if x in h[..p] {
        assert x in h;
        var i :| 0 <= i < |r| && r[i] == x;
        assert i < idx;
        assert r[..idx][i] == x;
      }
    }
  }

  /** A key is among the first `cap` recent ones exactly when fewer than `cap` others were touched since. */
  lemma CachedIff(h: seq<int>, cap: int, k: int)
    ensures LastTouch(h, k) <= |h|
    ensures k in Take(Recent(h), cap) <==> k in h && (cap < 0 || |Elements(h[..LastTouch(h, k)])| < cap)
  {
    TouchPosition(h, k, 0);
    RecentMember(h, k);
    RecentDistinct(h);
    var r := Recent(h);
    if k in h {
      var idx :| 0 <= idx < |r| && r[idx] == k;
      BeforeInRecent(h, idx);
      assert NoRepeats(r[..idx]);
      DistinctSize(r[..idx]);
      assert 0 <= cap <= |r| ==> (k in r[..cap] <==> idx < cap) by {
        if 0 <= cap <= |r| && idx < cap {
          assert r[..cap][idx] == k;
        }
      }
    }
  }

  // ----- The calls -----

  lemma UsedStep(ops: seq<Op>, cap: int, a: nat, n: nat)
    requires a <= n < |ops|
    ensures KeysUsed(ops, cap, a, n + 1) == KeysUsed(ops, cap, a, n) + (if Used(ops, cap, n) then {ops[n].key} else {})
  {
  }

  /** The list of touches after `i` calls. */
  function History(ops: seq<Op>, cap: int, i: nat): seq<int>
    requires i <= |ops|
  {
    Touches(ops[..i], cap)
  }

  lemma HistoryStep(ops: seq<Op>, cap: int, n: nat)
    requires n < |ops|
    ensures var h := History(ops, cap, n);
            History(ops, cap, n + 1) == if Used(ops, cap, n) then [ops[n].key] + h else h
  {
    assert ops[..n + 1][..n] == ops[..n];
  }

  /** The touches since the last one of `k` are the keys used since its last use `j`; without any, `j` is negative. */
  ghost predicate Since(ops: seq<Op>, cap: int, h: seq<int>, i: nat, k: int, j: int)
    requires i <= |ops|
  {
    && -1 <= j < i && LastTouch(h, k) <= |h| && (j < 0 <==> k !in h)
    && if j < 0 then k !in KeysUsed(ops, cap, 0, i)
       else LastUse(ops, cap, j, i, k) && Elements(h[..LastTouch(h, k)]) == KeysUsed(ops, cap, j + 1, i)
  }

  lemma SinceUsed(ops: seq<Op>, cap: int, h: seq<int>, n: nat)
    requires n < |ops| && Used(ops, cap, n)
    ensures Since(ops, cap, [ops[n].key] + h, n + 1, ops[n].key, n)
  {
    assert KeysUsed(ops, cap, n + 1, n + 1) == {};
    assert LastTouch([ops[n].key] + h, ops[n].key) == 0;
  }

  lemma SinceOther(ops: seq<Op>, cap: int, h: seq<int>, n: nat, k: int, j: int)
    requires n < |ops| && Since(ops, cap, h, n, k, j) && Used(ops, cap, n) && ops[n].key != k
    ensures Since(ops, cap, [ops[n].key] + h, n + 1, k, j)
  {
    UsedStep(ops, cap, j + 1, n);
    TouchedAgain(h, k, ops[n].key);
  }

  lemma SinceIdle(ops: seq<Op>, cap: int, h: seq<int>, n: nat, k: int, j: int)
    requires n < |ops| && Since(ops, cap, h, n, k, j) && !Used(ops, cap, n)
    ensures Since(ops, cap, h, n + 1, k, j)
  {
    UsedStep(ops, cap, j + 1, n);
  }

  lemma {:induction false} TouchedSince(ops: seq<Op>, cap: int, i: nat, k: int) returns (j: int)
    requires i <= |ops|
    ensures Since(ops, cap, History(ops, cap, i), i, k, j)
  {
    if i == 0 {
      j := -1;
    } else {
      var n := i - 1;
      HistoryStep(ops, cap, n);
      j := TouchedSince(ops, cap, n, k);
      if !Used(ops, cap, n) {
        SinceIdle(ops, cap, History(ops, cap, n), n, k, j);
      } else if ops[n].key == k {
        SinceUsed(ops, cap, History(ops, cap, n), n);
        j := n;
      } else {
        SinceOther(ops, cap, History(ops, cap, n), n, k, j);
      }
    }
  }

  /** Touching another key adds it to those touched since. */
  lemma TouchedAgain(h: seq<int>, k: int, x: int)
    ensures LastTouch(h, k) <= |h|
    ensures x != k ==>
              && LastTouch([x] + h, k) == LastTouch(h, k) + 1
              && Elements(([x] + h)[..LastTouch(h, k) + 1]) == Elements(h[..LastTouch(h, k)]) + {x}
  {
    TouchPosition(h, k, 0);
    assert ([x] + h)[1..] == h;
    assert ([x] + h)[..LastTouch(h, k) + 1] == [x] + h[..LastTouch(h, k)];
  }

  lemma NotUsed(ops: seq<Op>, cap: int, a: nat, b: nat, k: int)
    requires b <= |ops| && k !in KeysUsed(ops, cap, a, b)
    ensures forall l: nat :: a <= l < b && Used(ops, cap, l) ==> ops[l].key != k
  {
    assert forall l: nat :: a <= l < b && Used(ops, cap, l) ==> ops[l].key in KeysUsed(ops, cap, a, b);
  }

  lemma LastUseUnique(ops: seq<Op>, cap: int, i: nat, k: int, a: nat, b: nat)
    requires i <= |ops| && LastUse(ops, cap, a, i, k) && LastUse(ops, cap, b, i, k)
    ensures a == b
  {
    NotUsed(ops, cap, a + 1, i, k);
    NotUsed(ops, cap, b + 1, i, k);
  }

  /**
   A call hits exactly when its key was used before and, unless the capacity is negative, fewer than `cap` keys have
   been used since. As uses are puts and earlier hits, this determines every hit from the calls alone.
   */
  lemma HitIff(ops: seq<Op>, cap: int, i: nat)
    requires i < |ops|
    ensures Hit(ops, cap, i) <==>
            exists j: nat :: LastUse(ops, cap, j, i, ops[i].key) && (cap < 0 || |KeysUsed(ops, cap, j + 1, i)| < cap)
  {
    var h, k := History(ops, cap, i), ops[i].key;
    var j := TouchedSince(ops, cap, i, k);
    CachedIff(h, cap, k);
    if j >= 0 {
      forall b: nat | LastUse(ops, cap, b, i, k) ensures b == j {
        LastUseUnique(ops, cap, i, k, j, b);
      }
    } else {
      NotUsed(ops, cap, 0, i, k);
    }
  }

  /** Call `j` is the last put of `k` before `i`. */
  ghost predicate PutLast(ops: seq<Op>, j: nat, i: nat, k: int, v: int)
    requires i <= |ops|
  {
    j < i && ops[j] == Put(k, v) && forall l :: j < l < i && ops[l].Put? ==> ops[l].key != k
  }

  lemma {:induction false} LastPutAt(ops: seq<Op>, i: nat, k: int) returns (j: nat)
    requires i <= |ops| && WasPut(ops[..i], k)
    ensures PutLast(ops, j, i, k, LastPut(ops[..i], k))
  {
    var n := i - 1;
    if ops[n].Put? && ops[n].key == k {
      j := n;
    } else {
      assert ops[..i][..n] == ops[..n];
      j := LastPutAt(ops, n, k);
    }
  }
}
