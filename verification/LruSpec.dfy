/**
 What an LRU cache should do, twice: as a recency-ordered association list, and as a plain statement about the
 history of calls (the most recently touched keys are cached, with the last value put). Both are shown equal.
 */
module LruSpec {
  import opened Sequences

  datatype Entry = Entry(key: int, value: int)

  // ----- The association list -----

  function Keys(s: seq<Entry>): (r: seq<int>)
    ensures |r| == |s| && forall i :: 0 <= i < |s| ==> r[i] == s[i].key
  {
    seq(|s|, i requires 0 <= i < |s| => s[i].key)
  }

  /** The list without the entry for `k`. */
  function Drop(s: seq<Entry>, k: int): seq<Entry> {
    if s == [] then [] else if s[0].key == k then Drop(s[1..], k) else [s[0]] + Drop(s[1..], k)
  }

  function Value(s: seq<Entry>, k: int): int
    requires k in Keys(s)
  {
    if s[0].key == k then s[0].value
    else
      assert k in Keys(s[1..]) by {
        var i :| 0 <= i < |s| && Keys(s)[i] == k;
        assert Keys(s[1..])[i - 1] == k;
      }
      Value(s[1..], k)
  }

  function GetResult(s: seq<Entry>, k: int): int {
    if k in Keys(s) then Value(s, k) else -1
  }

  function AfterGet(s: seq<Entry>, k: int): seq<Entry> {
    if k in Keys(s) then [Entry(k, Value(s, k))] + Drop(s, k) else s
  }

  function AfterPut(s: seq<Entry>, cap: int, k: int, v: int): seq<Entry> {
    if k in Keys(s) then [Entry(k, v)] + Drop(s, k)
    else if |s| == cap && s != [] then [Entry(k, v)] + s[..|s| - 1]
    else [Entry(k, v)] + s
  }

  // ----- The history -----

  datatype Op = Get(key: int) | Put(key: int, value: int)

  function Remove(r: seq<int>, k: int): seq<int> {
    if r == [] then [] else if r[0] == k then Remove(r[1..], k) else [r[0]] + Remove(r[1..], k)
  }

  /** The distinct keys of a list of touches (latest first), by last touch. */
  function Recent(h: seq<int>): seq<int> {
    if h == [] then [] else [h[0]] + Remove(Recent(h[1..]), h[0])
  }

  function Take(r: seq<int>, n: int): seq<int> {
    if n < 0 || |r| <= n then r else r[..n]
  }

  /** The touches of a run, latest first: every put, and every get of a key that is cached. */
  function Touches(ops: seq<Op>, cap: int): seq<int> {
    if ops == [] then []
    else
      var n := |ops| - 1;
      var h := Touches(ops[..n], cap);
      if ops[n].Put? || ops[n].key in Take(Recent(h), cap) then [ops[n].key] + h else h
  }

  /** The keys cached after a run: the `cap` most recently touched ones (all of them when cap is negative). */
  function CachedKeys(ops: seq<Op>, cap: int): seq<int> {
    Take(Recent(Touches(ops, cap)), cap)
  }

  function WasPut(ops: seq<Op>, k: int): bool {
    ops != [] && ((ops[|ops| - 1].Put? && ops[|ops| - 1].key == k) || WasPut(ops[..|ops| - 1], k))
  }

  function LastPut(ops: seq<Op>, k: int): int
    requires WasPut(ops, k)
  {
    var last := ops[|ops| - 1];
    if last.Put? && last.key == k then last.value else LastPut(ops[..|ops| - 1], k)
  }

  /** The list after a run from the empty cache. */
  function ListAfter(ops: seq<Op>, cap: int): seq<Entry> {
    if ops == [] then [] else AfterCall(ListAfter(ops[..|ops| - 1], cap), cap, ops[|ops| - 1])
  }

  function AfterCall(s: seq<Entry>, cap: int, op: Op): seq<Entry> {
    match op
    case Get(k) => AfterGet(s, k)
    case Put(k, v) => AfterPut(s, cap, k, v)
  }

  // ----- Facts about the lists -----

  lemma {:induction false} RemoveFacts(r: seq<int>, k: int)
    ensures k !in Remove(r, k) && (forall x :: x in Remove(r, k) ==> x in r)
    ensures NoRepeats(r) ==> NoRepeats(Remove(r, k))
    ensures k !in r ==> Remove(r, k) == r
  {
    if r == [] {
    } else {
      RemoveFacts(r[1..], k);
      assert r == [r[0]] + r[1..];
      if NoRepeats(r) {
        assert r[0] !in r[1..];
      }
    }
  }

  lemma {:induction false} RecentDistinct(h: seq<int>)
    ensures NoRepeats(Recent(h))
  {
    if h == [] {
    } else {
      RecentDistinct(h[1..]);
      RemoveFacts(Recent(h[1..]), h[0]);
    }
  }

  lemma TakeCons(x: int, t: seq<int>, n: nat)
    requires n > 0
    ensures Take([x] + t, n) == [x] + Take(t, n - 1)
  {
  }

  lemma RemoveCons(x: int, t: seq<int>, k: int)
    ensures Remove([x] + t, k) == if x == k then Remove(t, k) else [x] + Remove(t, k)
  {
    assert ([x] + t)[1..] == t;
  }

  /** Removing a cached key and cutting to size commute as the cache needs. */
  lemma {:induction false} TakeRemoveIn(r: seq<int>, k: int, n: nat)
    requires NoRepeats(r) && k in Take(r, n)
    ensures n > 0 && Remove(Take(r, n), k) == Take(Remove(r, k), n - 1)
    decreases |r|
  {
    assert n > 0;
    var x, t := r[0], r[1..];
    assert r == [x] + t;
    TakeCons(x, t, n);
    RemoveCons(x, t, k);
    RemoveCons(x, Take(t, n - 1), k);
    if x == k {
      assert k !in t;
      RemoveFacts(t, k);
      RemoveFacts(Take(t, n - 1), k);
    } else {
      TakeRemoveIn(t, k, n - 1);
      TakeCons(x, Remove(t, k), n - 1);
    }
  }

  /** Removing a key that is not cached does not show after the cut. */
  lemma {:induction false} TakeRemoveOut(r: seq<int>, k: int, n: nat)
    requires k !in Take(r, n)
    ensures Take(Remove(r, k), n) == Take(r, n)
    decreases |r|
  {
    if r != [] && n > 0 {
      var x, t := r[0], r[1..];
      assert r == [x] + t;
      TakeCons(x, t, n);
      RemoveCons(x, t, k);
      assert x == Take(r, n)[0];
      TakeRemoveOut(t, k, n - 1);
      TakeCons(x, Remove(t, k), n);
    }
  }

  lemma KeysCons(e: Entry, s: seq<Entry>)
    ensures Keys([e] + s) == [e.key] + Keys(s)
  {
  }

  lemma {:induction false} KeysDrop(s: seq<Entry>, k: int)
    ensures Keys(Drop(s, k)) == Remove(Keys(s), k)
  {
    if s == [] {
    } else {
      assert Keys(s)[1..] == Keys(s[1..]);
      KeysDrop(s[1..], k);
      if s[0].key != k {
        KeysCons(s[0], Drop(s[1..], k));
      }
    }
  }

  lemma TouchFront(k: int, h: seq<int>, cap: int)
    requires cap != 0
    ensures Take(Recent([k] + h), cap) == [k] + Take(Remove(Recent(h), k), if cap < 0 then cap else cap - 1)
  {
    assert ([k] + h)[1..] == h;
  }

  /** Touching a cached key moves it to the front. */
  lemma TouchCached(h: seq<int>, cap: int, k: int)
    requires cap != 0 && k in Take(Recent(h), cap)
    ensures Take(Recent([k] + h), cap) == [k] + Remove(Take(Recent(h), cap), k)
  {
    TouchFront(k, h, cap);
    RecentDistinct(h);
    if cap > 0 {
      TakeRemoveIn(Recent(h), k, cap);
    }
  }

  /** Touching an absent key puts it in front; if the cache is full the least recently touched key goes. */
  lemma TouchAbsent(h: seq<int>, cap: int, k: int)
    requires cap != 0 && k !in Take(Recent(h), cap)
    ensures var r := Take(Recent(h), cap);
            Take(Recent([k] + h), cap) == [k] + (if |r| == cap then r[..|r| - 1] else r)
  {
    TouchFront(k, h, cap);
    RecentDistinct(h);
    var r := Recent(h);
    if cap > 0 {
      TakeRemoveOut(r, k, cap);
      if |r| >= cap {
        assert k !in Take(r, cap - 1) by {
          assert forall x :: x in Take(r, cap - 1) ==> x in Take(r, cap);
        }
        TakeRemoveOut(r, k, cap - 1);
      } else {
        RemoveFacts(r, k);
      }
    } else {
      RemoveFacts(r, k);
    }
  }

  /** The keys after one call, as a list of keys. */
  lemma KeysAfterCall(s: seq<Entry>, cap: int, op: Op)
    ensures var keys, k := Keys(s), op.key;
            Keys(AfterCall(s, cap, op)) ==
            if k in keys then [k] + Remove(keys, k)
            else if op.Get? then keys
            else [k] + (if |s| == cap && s != [] then keys[..|s| - 1] else keys)
  {
    KeysDrop(s, op.key);
    if op.key in Keys(s) {
      KeysCons(Entry(op.key, if op.Get? then Value(s, op.key) else op.value), Drop(s, op.key));
    } else if op.Put? {
      KeysCons(Entry(op.key, op.value), s);
      if s != [] {
        KeysCons(Entry(op.key, op.value), s[..|s| - 1]);
        assert Keys(s[..|s| - 1]) == Keys(s)[..|s| - 1];
      }
    }
  }

  /** The list holds, in order of recency, exactly the keys the history says are cached. */
  lemma {:induction false} KeysFollowHistory(ops: seq<Op>, cap: int)
    requires cap != 0
    ensures Keys(ListAfter(ops, cap)) == CachedKeys(ops, cap)
  {
    if ops == [] {
    } else {
      var n := |ops| - 1;
      KeysFollowHistory(ops[..n], cap);
      KeysAfterCall(ListAfter(ops[..n], cap), cap, ops[n]);
      var h, k := Touches(ops[..n], cap), ops[n].key;
      if k in CachedKeys(ops[..n], cap) {
        TouchCached(h, cap, k);
      } else if ops[n].Put? {
        TouchAbsent(h, cap, k);
      }
    }
  }

  // ----- Values -----

  lemma ValueCons(e: Entry, s: seq<Entry>, x: int)
    requires x == e.key || x in Keys(s)
    ensures x in Keys([e] + s) && Value([e] + s, x) == if x == e.key then e.value else Value(s, x)
  {
    KeysCons(e, s);
    assert ([e] + s)[1..] == s;
  }

  lemma {:induction false} ValueDrop(s: seq<Entry>, k: int, x: int)
    requires x in Keys(Drop(s, k))
    ensures x != k && x in Keys(s) && Value(s, x) == Value(Drop(s, k), x)
  {
    KeysDrop(s, k);
    RemoveFacts(Keys(s), k);
    if s[0].key == k {
      ValueDrop(s[1..], k, x);
    } else {
      var t := Drop(s[1..], k);
      KeysCons(s[0], t);
      assert ([s[0]] + t)[1..] == t;
      if x != s[0].key {
        ValueDrop(s[1..], k, x);
      }
    }
  }

  lemma {:induction false} ValueInit(s: seq<Entry>, x: int)
    requires s != [] && x in Keys(s[..|s| - 1])
    ensures x in Keys(s) && Value(s, x) == Value(s[..|s| - 1], x)
  {
    assert Keys(s[..|s| - 1]) == Keys(s)[..|s| - 1];
    if s[0].key != x {
      assert s[1..][..|s[1..]| - 1] == s[..|s| - 1][1..];
      ValueInit(s[1..], x);
    }
  }

  /** Every cached key holds the value last put for it. */
  lemma {:induction false} ValuesAreLastPut(ops: seq<Op>, cap: int, x: int)
    requires x in Keys(ListAfter(ops, cap))
    ensures WasPut(ops, x) && Value(ListAfter(ops, cap), x) == LastPut(ops, x)
    decreases |ops|
  {
    var n := |ops| - 1;
    var s, op := ListAfter(ops[..n], cap), ops[n];
    var k := op.key;
    if op.Get? {
      if k in Keys(s) {
        KeysCons(Entry(k, Value(s, k)), Drop(s, k));
        ValueCons(Entry(k, Value(s, k)), Drop(s, k), x);
        if x != k {
          ValueDrop(s, k, x);
        }
      }
      ValuesAreLastPut(ops[..n], cap, x);
    } else {
      var t := if k in Keys(s) then Drop(s, k) else if |s| == cap && s != [] then s[..|s| - 1] else s;
      KeysCons(Entry(k, op.value), t);
      ValueCons(Entry(k, op.value), t, x);
      if x != k {
        if k in Keys(s) {
          ValueDrop(s, k, x);
        } else if |s| == cap && s != [] {
          ValueInit(s, x);
        }
        ValuesAreLastPut(ops[..n], cap, x);
      }
    }
  }

  /** What get must answer after a run, from the history alone. */
  lemma GetFollowsHistory(ops: seq<Op>, cap: int, k: int)
    requires cap != 0
    ensures k in CachedKeys(ops, cap) ==> WasPut(ops, k)
    ensures GetResult(ListAfter(ops, cap), k) == if k in CachedKeys(ops, cap) then LastPut(ops, k) else -1
  {
    KeysFollowHistory(ops, cap);
    if k in CachedKeys(ops, cap) {
      ValuesAreLastPut(ops, cap, k);
    }
  }

  // ----- Recency -----

  /** Position of the last touch of `k`, counting back from the present. */
  function LastTouch(h: seq<int>, k: int): nat {
    if h == [] || h[0] == k then 0 else 1 + LastTouch(h[1..], k)
  }

  ghost predicate ByLastTouch(h: seq<int>, r: seq<int>) {
    forall i, j :: 0 <= i < j < |r| ==> LastTouch(h, r[i]) < LastTouch(h, r[j])
  }

  lemma {:induction false} RemoveKeepsOrder(h: seq<int>, r: seq<int>, k: int)
    requires ByLastTouch(h, r)
    ensures ByLastTouch(h, Remove(r, k))
    decreases |r|
  {
    if r == [] {
    } else {
      var t := r[1..];
      RemoveKeepsOrder(h, t, k);
      RemoveFacts(t, k);
      if r[0] != k {
        var q := Remove(t, k);
        forall j | 0 <= j < |q| ensures LastTouch(h, r[0]) < LastTouch(h, q[j]) {
          assert q[j] in q;
          var i :| 0 <= i < |t| && t[i] == q[j];
          assert r[i + 1] == t[i];
        }
      }
    }
  }

  /** The cached keys stand in order of their last touch, so the one evicted is the least recently used. */
  lemma {:induction false} RecentIsByLastTouch(h: seq<int>)
    ensures ByLastTouch(h, Recent(h))
  {
    if h == [] {
    } else {
      RecentIsByLastTouch(h[1..]);
      var q := Remove(Recent(h[1..]), h[0]);
      RemoveKeepsOrder(h[1..], Recent(h[1..]), h[0]);
      RemoveFacts(Recent(h[1..]), h[0]);
      forall j | 0 <= j < |q| ensures LastTouch(h, q[j]) == 1 + LastTouch(h[1..], q[j]) {
        assert q[j] in q;
      }
    }
  }
}
