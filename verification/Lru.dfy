/** The LRU cache of cpp/linux/LRU.cpp: a hash index into a linked list, refining the list of LruSpec. */
module Lru {
  import opened Memory
  import opened LruSpec
  import opened LruHistory
  import opened Sequences

  /** A list node; `at` is its address, which is what an iterator to it holds. */
  datatype Item = Item(at: Ptr, key: int, value: int)

  function Entries(l: seq<Item>): (r: seq<Entry>)
    ensures |r| == |l| && forall i :: 0 <= i < |l| ==> r[i] == Entry(l[i].key, l[i].value)
  {
    seq(|l|, i requires 0 <= i < |l| => Entry(l[i].key, l[i].value))
  }

  /** The list after erasing the node an iterator points to. */
  function Erase(l: seq<Item>, at: Ptr): seq<Item> {
    if l == [] then [] else if l[0].at == at then l[1..] else [l[0]] + Erase(l[1..], at)
  }

  /** The value of the node an iterator points to. */
  function Deref(l: seq<Item>, at: Ptr): int
    requires exists i :: 0 <= i < |l| && l[i].at == at
  {
    if l[0].at == at then l[0].value
    else
      assert exists i :: 0 <= i < |l[1..]| && l[1..][i].at == at by {
        var i :| 0 <= i < |l| && l[i].at == at;
        assert l[1..][i - 1].at == at;
      }
      Deref(l[1..], at)
  }

  /** No key and no address stands twice. */
  ghost predicate Distinct(l: seq<Item>) {
    forall i, j :: 0 <= i < j < |l| ==> l[i].key != l[j].key && l[i].at != l[j].at
  }

  /** The index sends exactly the listed keys to their nodes. */
  ghost predicate Indexes(m: map<int, Ptr>, l: seq<Item>) {
    && (forall i :: 0 <= i < |l| ==> l[i].key in m && m[l[i].key] == l[i].at)
    && (forall k :: k in m ==> k in Keys(Entries(l)))
  }

  lemma {:induction false} ListedKey(l: seq<Item>, k: int) returns (i: nat)
    requires k in Keys(Entries(l))
    ensures i < |l| && l[i].key == k
  {
    i :| 0 <= i < |l| && Keys(Entries(l))[i] == k;
  }

  lemma EntriesCons(x: Item, l: seq<Item>)
    ensures Entries([x] + l) == [Entry(x.key, x.value)] + Entries(l)
  {
  }

  lemma {:induction false} DropAbsent(s: seq<Entry>, k: int)
    requires k !in Keys(s)
    ensures Drop(s, k) == s
  {
    if s == [] {
    } else {
      assert s == [s[0]] + s[1..];
      KeysCons(s[0], s[1..]);
      DropAbsent(s[1..], k);
    }
  }

  lemma CutCons<T>(l: seq<T>, i: nat)
    requires 0 < i < |l|
    ensures l[..i] + l[i + 1..] == [l[0]] + (l[1..][..i - 1] + l[1..][i..])
  {
  }

  /** Erasing by iterator cuts out the node it points to. */
  lemma {:induction false} EraseCuts(l: seq<Item>, i: nat)
    requires Distinct(l) && i < |l|
    ensures Erase(l, l[i].at) == l[..i] + l[i + 1..]
    decreases |l|
  {
    if i == 0 {
      assert l[..0] + l[1..] == l[1..];
    } else {
      EraseCuts(l[1..], i - 1);
      CutCons(l, i);
    }
  }

  lemma KeysTail(s: seq<Entry>)
    requires s != [] && NoRepeats(Keys(s))
    ensures NoRepeats(Keys(s[1..])) && s[0].key !in Keys(s[1..])
  {
    assert Keys(s[1..]) == Keys(s)[1..];
  }

  /** Dropping by key cuts out the entry that has it. */
  lemma {:induction false} DropCuts(s: seq<Entry>, i: nat)
    requires NoRepeats(Keys(s)) && i < |s|
    ensures Drop(s, s[i].key) == s[..i] + s[i + 1..]
    decreases |s|
  {
    KeysTail(s);
    if i == 0 {
      DropAbsent(s[1..], s[0].key);
      assert s[..0] + s[1..] == s[1..];
    } else {
      assert Keys(s)[0] != Keys(s)[i];
      DropCuts(s[1..], i - 1);
      CutCons(s, i);
    }
  }

  /** Erasing by iterator is dropping by key. */
  lemma EraseIsDrop(l: seq<Item>, i: nat)
    requires Distinct(l) && i < |l|
    ensures Entries(Erase(l, l[i].at)) == Drop(Entries(l), l[i].key)
  {
    EraseCuts(l, i);
    DropCuts(Entries(l), i);
    assert Entries(l[..i] + l[i + 1..]) == Entries(l)[..i] + Entries(l)[i + 1..];
  }

  lemma {:induction false} ValueAt(l: seq<Item>, i: nat)
    requires Distinct(l) && i < |l|
    ensures l[i].key in Keys(Entries(l)) && Value(Entries(l), l[i].key) == Deref(l, l[i].at)
    decreases |l|
  {
    assert Keys(Entries(l))[i] == l[i].key;
    if i == 0 {
    } else {
      assert Entries(l)[1..] == Entries(l[1..]);
      ValueAt(l[1..], i - 1);
    }
  }

  lemma {:induction false} IndexSize(m: map<int, Ptr>, l: seq<Item>)
    requires Distinct(l) && Indexes(m, l)
    ensures |m| == |l|
  {
    if l == [] {
      assert Keys(Entries(l)) == [];
      assert forall k :: k in m.Keys ==> k in Keys(Entries(l));
      assert m.Keys == {};
    } else {
      var n := |l| - 1;
      var k := l[n].key;
      var m' := m - {k};
      assert m.Keys == m'.Keys + {k};
      forall x | x in m' ensures x in Keys(Entries(l[..n])) {
        var i := ListedKey(l, x);
        assert Keys(Entries(l[..n]))[i] == x;
      }
      IndexSize(m', l[..n]);
    }
  }

  /** Moving to the front, or adding there: the index follows. */
  lemma PushIndexed(m: map<int, Ptr>, l: seq<Item>, x: Item)
    requires Distinct(l) && x.key !in Keys(Entries(l))
    requires forall i :: 0 <= i < |l| ==> l[i].at != x.at
    requires forall i :: 0 <= i < |l| ==> l[i].key in m && m[l[i].key] == l[i].at
    requires forall k :: k in m ==> k == x.key || k in Keys(Entries(l))
    ensures Distinct([x] + l) && Indexes(m[x.key := x.at], [x] + l)
  {
    EntriesCons(x, l);
    KeysCons(Entry(x.key, x.value), Entries(l));
    forall i | 0 <= i < |l| ensures l[i].key != x.key {
      assert Keys(Entries(l))[i] == l[i].key;
    }
  }

  /** Taking a node out leaves the other keys indexed. */
  lemma CutIndexed(m: map<int, Ptr>, l: seq<Item>, i: nat)
    requires Distinct(l) && Indexes(m, l) && i < |l|
    ensures var r := l[..i] + l[i + 1..];
            Distinct(r) && l[i].key !in Keys(Entries(r)) && forall k :: k in m ==>
                k == l[i].key || k in Keys(Entries(r))
  {
    var r := l[..i] + l[i + 1..];
    forall k | k in m && k != l[i].key ensures k in Keys(Entries(r)) {
      var j := ListedKey(l, k);
      assert Keys(Entries(r))[if j < i then j else j - 1] == k;
    }
    assert forall j :: 0 <= j < |r| ==> Keys(Entries(r))[j] == r[j].key;
  }

  class LRUCache {
    const cap: int
    var count: int
    var m: map<int, Ptr>
    var list: seq<Item>

    ghost predicate Valid()
      reads this
    {
      && Distinct(list)
      && Indexes(m, list)
      && count == |list| == |m|
      && (0 <= cap ==> count <= cap)
    }

    /** The cache as an association list, most recent first. */
    function Contents(): seq<Entry>
      reads this
    {
      Entries(list)
    }

    constructor (capacity: int)
      ensures Valid() && Contents() == [] && cap == capacity
    {
      cap, count, m, list := capacity, 0, map[], [];
    }

    method PushFront(key: int, value: int)
      requires key !in Keys(Contents()) && Distinct(list)
      requires forall i :: 0 <= i < |list| ==> list[i].key in m && m[list[i].key] == list[i].at
      requires forall k :: k in m ==> k == key || k in Keys(Contents())
      modifies this`m, this`list
      ensures Distinct(list) && Indexes(m, list) && |m| == |list|
      ensures Contents() == [Entry(key, value)] + old(Contents())
    {
      var at := Allocate(set x | x in list :: x.at);
      assert forall i :: 0 <= i < |list| ==> list[i] in list;
      PushIndexed(m, list, Item(at, key, value));
      EntriesCons(Item(at, key, value), list);
      list := [Item(at, key, value)] + list;
      m := m[key := at];
      IndexSize(m, list);
    }

    /** Erase the node the index holds for a cached key; the stale index entry stays. */
    method Detach(key: int)
      requires Valid() && key in m
      modifies this`list
      ensures Contents() == Drop(old(Contents()), key) && |list| == old(|list|) - 1
      ensures key !in Keys(Contents()) && Distinct(list)
      ensures forall i :: 0 <= i < |list| ==> list[i].key in m && m[list[i].key] == list[i].at
      ensures forall k :: k in m ==> k == key || k in Keys(Contents())
    {
      ghost var i := ListedKey(list, key);
      EraseIsDrop(list, i);
      EraseCuts(list, i);
      CutIndexed(m, list, i);
      list := Erase(list, m[key]);
    }

    method Get(key: int) returns (res: int)
      requires Valid()
      modifies this`m, this`list
      ensures Valid()
      ensures res == GetResult(old(Contents()), key)
      ensures Contents() == AfterGet(old(Contents()), key)
    {
      res := -1;
      if key in m {
        ghost var i := ListedKey(list, key);
        ValueAt(list, i);
        res := Deref(list, m[key]);
        Detach(key);
        PushFront(key, res);
      } else {
        assert key !in Keys(Contents());
      }
    }

    /** The last node and its index entry go; `key` is absent before and after. */
    method Evict(ghost key: int)
      requires Valid() && list != [] && key !in Keys(Contents())
      modifies this`list, this`m
      ensures Contents() == old(Contents())[..|old(list)| - 1] && key !in Keys(Contents())
      ensures Distinct(list) && Indexes(m, list)
    {
      var n := |list| - 1;
      var delkey := list[n].key;
      CutIndexed(m, list, n);
      assert list[..n] + list[n + 1..] == list[..n];
      assert Keys(Entries(list[..n])) == Keys(Entries(list))[..n];
      list := list[..n];
      m := m - {delkey};
    }

    /** With capacity 0 the original reads the back of an empty list, so that capacity is excluded. */
    method Put(key: int, value: int)
      requires Valid() && cap != 0
      modifies this
      ensures Valid()
      ensures Contents() == AfterPut(old(Contents()), cap, key, value)
    {
      if key in m {
        Detach(key);
      } else {
        assert key !in Keys(Contents());
        if count == cap {
          Evict(key);
        } else {
          count := count + 1;
        }
      }
      PushFront(key, value);
    }
  }

  /**
   Every run from an empty cache: a get that hits answers with the value last put for its key, any other with -1.
   Which calls hit is determined from the calls alone by LruHistory.HitIff.
   */
  method Run(cap: int, ops: seq<Op>) returns (c: LRUCache, answers: seq<int>)
    requires cap != 0
    ensures fresh(c) && c.Valid() && c.cap == cap && c.Contents() == ListAfter(ops, cap)
    ensures |answers| == |ops|
    ensures forall i :: 0 <= i < |ops| && ops[i].Get? && Hit(ops, cap, i) ==>
              exists j: nat :: PutLast(ops, j, i, ops[i].key, answers[i])
    ensures forall i :: 0 <= i < |ops| && ops[i].Get? && !Hit(ops, cap, i) ==> answers[i] == -1
  {
    c, answers := CallAll(cap, ops);
    forall i | 0 <= i < |ops| && ops[i].Get?
      ensures Hit(ops, cap, i) ==> exists j: nat :: PutLast(ops, j, i, ops[i].key, answers[i])
      ensures !Hit(ops, cap, i) ==> answers[i] == -1
    {
      GetFollowsHistory(ops[..i], cap, ops[i].key);
      if Hit(ops, cap, i) {
        var j := LastPutAt(ops, i, ops[i].key);
      }
    }
  }

  /** What the recency list answers to call `i`. */
  function Answer(ops: seq<Op>, i: nat, cap: int): int
    requires i < |ops|
  {
    GetResult(ListAfter(ops[..i], cap), ops[i].key)
  }

  /** The calls one after the other, from an empty cache. */
  method CallAll(cap: int, ops: seq<Op>) returns (c: LRUCache, answers: seq<int>)
    requires cap != 0
    ensures fresh(c) && c.Valid() && c.cap == cap && c.Contents() == ListAfter(ops, cap)
    ensures |answers| == |ops|
    ensures forall i :: 0 <= i < |ops| && ops[i].Get? ==> answers[i] == Answer(ops, i, cap)
  {
    c := new LRUCache(cap);
    answers := [];
    for n := 0 to |ops|
      invariant fresh(c) && c.Valid() && c.cap == cap && c.Contents() == ListAfter(ops[..n], cap)
      invariant |answers| == n
      invariant forall i :: 0 <= i < n && ops[i].Get? ==> answers[i] == Answer(ops, i, cap)
    {
      ListAfterOne(ops, n, cap);
      var r := Call(c, ops[n]);
      answers := answers + [r];
    }
    assert ops[..|ops|] == ops;
  }

  lemma {:induction false} ListAfterOne(ops: seq<Op>, n: nat, cap: int)
    requires n < |ops|
    ensures ListAfter(ops[..n + 1], cap) == AfterCall(ListAfter(ops[..n], cap), cap, ops[n])
  {
    assert ops[..n + 1][..n] == ops[..n];
  }

  method Call(c: LRUCache, op: Op) returns (r: int)
    requires c.Valid() && c.cap != 0
    modifies c
    ensures c.Valid() && c.Contents() == AfterCall(old(c.Contents()), c.cap, op)
    ensures op.Get? ==> r == GetResult(old(c.Contents()), op.key)
  {
    match op
    case Get(k) =>
      r := c.Get(k);
    case Put(k, v) =>
      c.Put(k, v);
      r := 0;
  }
}
