/** The free-list allocator of cpp/memory/MemPool2.cpp: fixed-size nodes carved out of blocks. */
module MemPool {
  import opened Memory
  import opened Sequences

  /** A node: position `index` in the block at address `block`. */
  datatype Slot = Nil | Slot(block: Ptr, index: nat)

  lemma ConsElements<T>(x: T, s: seq<T>)
    ensures Elements([x] + s) == Elements(s) + {x}
    ensures x !in s && NoRepeats(s) <==> NoRepeats([x] + s)
    ensures ([x] + s)[1..] == s
  {
    var t := [x] + s;
    assert t[1..] == s;
    forall i | 0 <= i < |s| ensures t[i + 1] == s[i] {
    }
    if NoRepeats(t) {
      forall i, j | 0 <= i < j < |s| ensures s[i] != s[j] {
        assert t[i + 1] != t[j + 1];
      }
    }
  }

  /** Following the links from `head` visits exactly `s` and ends in `nil`. */
  ghost predicate Chain<T>(next: map<T, T>, nil: T, head: T, s: seq<T>)
    decreases |s|
  {
    if s == [] then head == nil
    else head == s[0] && head != nil && head in next && Chain(next, nil, next[head], s[1..])
  }

  lemma {:induction false} ChainAgree<T>(next: map<T, T>, next': map<T, T>, nil: T, head: T, s: seq<T>)
    requires Chain(next, nil, head, s)
    requires forall x :: x in s && x in next ==> x in next' && next'[x] == next[x]
    ensures Chain(next', nil, head, s)
    decreases |s|
  {
    if s == [] {
    } else {
      ChainAgree(next, next', nil, next[head], s[1..]);
    }
  }

  lemma {:induction false} ChainMembers<T>(next: map<T, T>, nil: T, head: T, s: seq<T>)
    requires Chain(next, nil, head, s)
    ensures Elements(s) <= next.Keys && nil !in s
    decreases |s|
  {
    if s == [] {
    } else {
      ChainMembers(next, nil, next[head], s[1..]);
      assert forall x :: x in s ==> x == s[0] || x in s[1..];
    }
  }

  // ----- Blocks -----

  /** The nodes of one block, from position `from` on. */
  function Row(block: Ptr, from: nat, n: nat): seq<Slot>
    decreases n - from
  {
    if from >= n then [] else [Slot(block, from)] + Row(block, from + 1, n)
  }

  lemma {:induction false} RowMember(block: Ptr, from: nat, n: nat, x: Slot)
    ensures x in Row(block, from, n) <==> x.Slot? && x.block == block && from <= x.index < n
    decreases n - from
  {
    if from < n {
      RowMember(block, from + 1, n, x);
    }
  }

  lemma {:induction false} RowDistinct(block: Ptr, from: nat, n: nat)
    ensures |Row(block, from, n)| == (if from <= n then n - from else 0) && NoRepeats(Row(block, from, n))
    decreases n - from
  {
    if from < n {
      RowDistinct(block, from + 1, n);
      RowMember(block, from + 1, n, Slot(block, from));
      ConsElements(Slot(block, from), Row(block, from + 1, n));
    }
  }

  lemma RowFacts(block: Ptr, from: nat, n: nat)
    ensures |Row(block, from, n)| == if from <= n then n - from else 0
    ensures forall x :: x in Row(block, from, n) <==> x.Slot? && x.block == block && from <= x.index < n
    ensures NoRepeats(Row(block, from, n))
  {
    RowDistinct(block, from, n);
    forall x ensures x in Row(block, from, n) <==> x.Slot? && x.block == block && from <= x.index < n {
      RowMember(block, from, n, x);
    }
  }

  /** All nodes of the given blocks. */
  ghost function Slots(blocks: seq<Ptr>, n: nat): set<Slot> {
    if blocks == [] then {} else Elements(Row(blocks[0], 0, n)) + Slots(blocks[1..], n)
  }

  lemma {:induction false} SlotsMember(blocks: seq<Ptr>, n: nat, x: Slot)
    ensures x in Slots(blocks, n) <==> x.Slot? && x.block in blocks && x.index < n
  {
    if blocks == [] {
    } else {
      SlotsMember(blocks[1..], n, x);
      RowFacts(blocks[0], 0, n);
    }
  }

  lemma MulSucc(n: nat, k: nat)
    ensures n * (k + 1) == n + n * k
  {
  }

  lemma {:induction false} SlotsSize(blocks: seq<Ptr>, n: nat)
    requires NoRepeats(blocks)
    ensures |Slots(blocks, n)| == n * |blocks|
  {
    if blocks == [] {
    } else {
      var row, rest := Elements(Row(blocks[0], 0, n)), Slots(blocks[1..], n);
      SlotsSize(blocks[1..], n);
      RowFacts(blocks[0], 0, n);
      DistinctSize(Row(blocks[0], 0, n));
      forall x | x in row ensures x !in rest {
        SlotsMember(blocks[1..], n, x);
      }
      DisjointSize(row, rest);
      MulSucc(n, |blocks[1..]|);
    }
  }

  lemma DisjointSize<T>(a: set<T>, b: set<T>)
    requires forall x :: x in a ==> x !in b
    ensures |a + b| == |a| + |b|
  {
    assert a !! b;
  }

  /** The link of the node at position `i` of a block that has been linked up to position `done`. */
  function LinkAt(block: Ptr, i: nat, done: nat, junk: Slot): Slot {
    if i + 1 < done then Slot(block, i + 1) else junk
  }

  function Links(block: Ptr, n: nat, done: nat, junk: Slot): map<Slot, Slot> {
    map i: nat | i < n :: Slot(block, i) := LinkAt(block, i, done, junk)
  }

  /** One round of the linking loop. */
  lemma LinksStep(p: map<Slot, Slot>, block: Ptr, n: nat, i: nat, junk: Slot)
    requires 1 <= i < n
    ensures (p + Links(block, n, i, junk))[Slot(block, i - 1) := Slot(block, i)] == p + Links(block, n, i + 1, junk)
  {
    var l, l' := Links(block, n, i, junk), Links(block, n, i + 1, junk);
    assert l[Slot(block, i - 1) := Slot(block, i)] == l';
    assert (p + l)[Slot(block, i - 1) := Slot(block, i)] == p + l[Slot(block, i - 1) := Slot(block, i)];
  }

  /** The last assignment ends the list. */
  lemma LinksEnd(p: map<Slot, Slot>, block: Ptr, n: nat, junk: Slot)
    requires 1 <= n
    ensures (p + Links(block, n, n, junk))[Slot(block, n - 1) := Nil] == p + Links(block, n, n, Nil)
  {
    var l, l' := Links(block, n, n, junk), Links(block, n, n, Nil);
    assert l[Slot(block, n - 1) := Nil] == l';
    assert (p + l)[Slot(block, n - 1) := Nil] == p + l[Slot(block, n - 1) := Nil];
  }

  lemma {:induction false} RowChain(next: map<Slot, Slot>, block: Ptr, from: nat, n: nat)
    requires from <= n && forall i: nat :: i < n ==>
             Slot(block, i) in next && next[Slot(block, i)] == LinkAt(block, i, n, Nil)
    ensures Chain(next, Nil, if from < n then Slot(block, from) else Nil, Row(block, from, n))
    decreases n - from
  {
    if from < n {
      RowChain(next, block, from + 1, n);
      assert Row(block, from, n)[1..] == Row(block, from + 1, n);
    }
  }

  class Pool {
    /** NumofObjects. */
    const n: nat
    var freeNodeHeader: Slot
    /** The pNext field of every node ever carved out. */
    var pNext: map<Slot, Slot>
    var memBlockHeader: Ptr
    var blockNext: map<Ptr, Ptr>
    /** The free list and the block list, as sequences. */
    ghost var free: seq<Slot>
    ghost var blocks: seq<Ptr>

    /** Nodes handed out and not given back. */
    ghost function Live(): set<Slot>
      reads this
    {
      pNext.Keys - Elements(free)
    }

    /** The free list is acyclic and without repetition; pNext fields of live nodes may hold anything. */
    ghost predicate Valid()
      reads this
    {
      && n >= 1
      && Chain(pNext, Nil, freeNodeHeader, free) && NoRepeats(free)
      && Chain(blockNext, NULL, memBlockHeader, blocks) && NoRepeats(blocks)
      && Elements(blocks) == blockNext.Keys && pNext.Keys == Slots(blocks, n)
    }

    constructor (objects: nat)
      requires objects >= 1
      ensures Valid() && n == objects && free == [] && blocks == [] && Live() == {}
    {
      n := objects;
      freeNodeHeader, pNext, memBlockHeader, blockNext := Nil, map[], NULL, map[];
      free, blocks := [], [];
    }

    /** Live and free nodes are disjoint and together number n for each block. */
    lemma Conservation()
      requires Valid()
      ensures Live() !! Elements(free) && Live() + Elements(free) == Slots(blocks, n)
      ensures |Live()| + |free| == n * |blocks|
    {
      SlotsSize(blocks, n);
      DistinctSize(free);
      ChainMembers(pNext, Nil, freeNodeHeader, free);
      assert pNext.Keys == Live() + Elements(free);
    }

    /** Link the nodes of a fresh block; their fields start out uninitialised. */
    method CarveBlock(b: Ptr, junk: Slot)
      requires n >= 1
      modifies this`pNext, this`freeNodeHeader
      ensures pNext == old(pNext) + Links(b, n, n, Nil) && freeNodeHeader == Slot(b, 0)
    {
      pNext := pNext + Links(b, n, 1, junk);
      freeNodeHeader := Slot(b, 0);
      for i := 1 to n
        invariant pNext == old(pNext) + Links(b, n, i, junk) && freeNodeHeader == Slot(b, 0)
      {
        LinksStep(old(pNext), b, n, i, junk);
        pNext := pNext[Slot(b, i - 1) := Slot(b, i)];
      }
      LinksEnd(old(pNext), b, n, junk);
      pNext := pNext[Slot(b, n - 1) := Nil];
    }

    /** The new block heads the block list. */
    method LinkBlock(newBlock: Ptr)
      requires Chain(blockNext, NULL, memBlockHeader, blocks) && newBlock != NULL && newBlock !in blocks
      modifies this`memBlockHeader, this`blockNext
      ensures Chain(blockNext, NULL, memBlockHeader, [newBlock] + blocks)
      ensures blockNext.Keys == old(blockNext).Keys + {newBlock}
    {
      PushChain(blockNext, NULL, memBlockHeader, blocks, newBlock);
      ghost var linked := blockNext[newBlock := memBlockHeader];
      blockNext := blockNext[newBlock := NULL];
      if memBlockHeader == NULL {
        memBlockHeader := newBlock;
      } else {
        blockNext := blockNext[newBlock := memBlockHeader];
        memBlockHeader := newBlock;
      }
      assert blockNext == linked;
    }

    /** The growing branch of malloc: a new block becomes the free list. */
    method Grow(junk: Slot)
      requires Valid() && free == []
      modifies this
      ensures Valid() && |blocks| == |old(blocks)| + 1 && blocks[1..] == old(blocks) && blocks[0] !in old(blocks)
      ensures free == Row(blocks[0], 0, n) && Live() == old(Live())
      ensures forall q :: q in old(Live()) ==> pNext[q] == old(pNext)[q]
    {
      var newBlock := Allocate(blockNext.Keys);
      assert newBlock !in Elements(blocks);
      CarveNodes(newBlock, junk);
      LinkBlock(newBlock);
      ConsElements(newBlock, blocks);
      free, blocks := Row(newBlock, 0, n), [newBlock] + blocks;
    }

    /** What carving a new block makes of the nodes. */
    method CarveNodes(b: Ptr, junk: Slot)
      requires n >= 1 && pNext.Keys == Slots(blocks, n) && b !in blocks
      modifies this`pNext, this`freeNodeHeader
      ensures Chain(pNext, Nil, freeNodeHeader, Row(b, 0, n)) && NoRepeats(Row(b, 0, n))
      ensures pNext.Keys == Slots([b] + blocks, n) && pNext.Keys - Elements(Row(b, 0, n)) == old(pNext).Keys
      ensures forall q :: q in old(pNext) ==> q in pNext && pNext[q] == old(pNext)[q]
    {
      CarveBlock(b, junk);
      CarvedKeys(old(pNext), blocks, b, n);
      CarvedChain(old(pNext), b, n);
      CarvedKeeps(old(pNext), blocks, b, n);
    }

    /**
     malloc: a node that was not live becomes live; a block is added exactly when the free list was empty; what live
     nodes hold stays.
     */
    method Malloc(junk: Slot) returns (p: Slot)
      requires Valid()
      modifies this
      ensures Valid() && p != Nil && p !in old(Live()) && Live() == old(Live()) + {p}
      ensures old(free) != [] ==> blocks == old(blocks) && [p] + free == old(free)
      ensures old(free) == [] ==>
              |blocks| == |old(blocks)| + 1 && blocks[1..] == old(blocks) && [p] + free == Row(blocks[0], 0, n)
      ensures forall q :: q in old(Live()) ==> pNext[q] == old(pNext)[q]
    {
      if freeNodeHeader == Nil {
        Grow(junk);
        RowFacts(blocks[0], 0, n);
      }
      p := freeNodeHeader;
      ghost var was := free;
      freeNodeHeader := pNext[freeNodeHeader];
      free := free[1..];
      assert was == [p] + free;
      ConsElements(p, free);
    }

    /** free of a live node: it heads the free list. */
    method Free(p: Slot)
      requires Valid() && p in Live()
      modifies this
      ensures Valid() && blocks == old(blocks) && free == [p] + old(free) && Live() == old(Live()) - {p}
      ensures forall q :: q in Live() ==> pNext[q] == old(pNext)[q]
    {
      SlotsMember(blocks, n, p);
      PushChain(pNext, Nil, freeNodeHeader, free, p);
      pNext := pNext[p := freeNodeHeader];
      freeNodeHeader := p;
      ConsElements(p, free);
      free := [p] + free;
    }

    /** The user may overwrite a live node, link field included, without disturbing the pool. */
    method Scribble(p: Slot, v: Slot)
      requires Valid() && p in Live()
      modifies this`pNext
      ensures Valid() && Live() == old(Live()) && pNext == old(pNext)[p := v]
    {
      ChainAgree(pNext, pNext[p := v], Nil, freeNodeHeader, free);
      pNext := pNext[p := v];
    }
  }

  /** A new element in front of a chain that does not contain it. */
  lemma PushChain<T>(next: map<T, T>, nil: T, head: T, s: seq<T>, x: T)
    requires Chain(next, nil, head, s) && x !in s && x != nil
    ensures Chain(next[x := head], nil, x, [x] + s)
  {
    ConsElements(x, s);
    ChainAgree(next, next[x := head], nil, head, s);
  }

  lemma LinksKeys(b: Ptr, n: nat)
    ensures Links(b, n, n, Nil).Keys == Elements(Row(b, 0, n))
  {
    RowFacts(b, 0, n);
    var l, r := Links(b, n, n, Nil), Row(b, 0, n);
    forall x ensures x in l <==> x in r {
    }
  }

  lemma CarvedKeys(pNext: map<Slot, Slot>, blocks: seq<Ptr>, b: Ptr, n: nat)
    requires pNext.Keys == Slots(blocks, n) && b !in blocks
    ensures (pNext + Links(b, n, n, Nil)).Keys == Slots([b] + blocks, n)
    ensures (pNext + Links(b, n, n, Nil)).Keys - Elements(Row(b, 0, n)) == pNext.Keys
  {
    RowFacts(b, 0, n);
    ConsElements(b, blocks);
    LinksKeys(b, n);
    forall x | x in Elements(Row(b, 0, n)) ensures x !in pNext.Keys {
      SlotsMember(blocks, n, x);
    }
  }

  /** Carving a new block writes no node of another block. */
  lemma CarvedKeeps(pNext: map<Slot, Slot>, blocks: seq<Ptr>, b: Ptr, n: nat)
    requires pNext.Keys == Slots(blocks, n) && b !in blocks
    ensures forall q :: q in pNext ==> (pNext + Links(b, n, n, Nil))[q] == pNext[q]
  {
    LinksKeys(b, n);
    RowFacts(b, 0, n);
    forall q | q in pNext ensures q !in Links(b, n, n, Nil) {
      SlotsMember(blocks, n, q);
    }
  }

  /** The nodes of the new block are linked in order. */
  lemma CarvedChain(pNext: map<Slot, Slot>, b: Ptr, n: nat)
    requires n >= 1
    ensures Chain(pNext + Links(b, n, n, Nil), Nil, Slot(b, 0), Row(b, 0, n)) && NoRepeats(Row(b, 0, n))
  {
    RowFacts(b, 0, n);
    RowChain(pNext + Links(b, n, n, Nil), b, 0, n);
  }

  // ----- Runs -----

  /** What a client does with the nodes it holds, named by their position; positions out of range do nothing. */
  datatype Op = Take(junk: Slot) | Return(i: nat) | Write(i: nat, v: Slot)

  datatype Option<T> = None | Some(value: T)

  function RemoveAt<T>(s: seq<T>, i: nat): seq<T> {
    if i < |s| then s[..i] + s[i + 1..] else s
  }

  /** What the client has last written to each node it holds after a run, if anything. */
  function Written(ops: seq<Op>): seq<Option<Slot>> {
    if ops == [] then []
    else
      var held := Written(ops[..|ops| - 1]);
      match ops[|ops| - 1]
      case Take(_) => held + [None]
      case Return(i) => RemoveAt(held, i)
      case Write(i, v) => if i < |held| then held[i := Some(v)] else held
  }

  /** How many nodes the client holds after a run. */
  function Count(ops: seq<Op>): nat {
    |Written(ops)|
  }

  /** The most it has held at any time. */
  function Peak(ops: seq<Op>): nat {
    if ops == [] then 0
    else
      var before := Peak(ops[..|ops| - 1]);
      if Count(ops) > before then Count(ops) else before
  }

  lemma RemovedElements<T>(s: seq<T>, i: nat)
    requires i < |s| && NoRepeats(s)
    ensures NoRepeats(RemoveAt(s, i)) && Elements(RemoveAt(s, i)) == Elements(s) - {s[i]}
  {
    var r := RemoveAt(s, i);
    assert s == s[..i] + [s[i]] + s[i + 1..];
    forall x | x in Elements(r) ensures x in Elements(s) && x != s[i] {
      var k :| 0 <= k < |r| && r[k] == x;
      assert r[k] == s[if k < i then k else k + 1];
    }
  }

  lemma SnocElements<T>(s: seq<T>, x: T)
    requires NoRepeats(s) && x !in Elements(s)
    ensures NoRepeats(s + [x]) && Elements(s + [x]) == Elements(s) + {x}
  {
  }

  /** The client holds exactly the live nodes, each once. */
  ghost predicate Holds(pool: Pool, held: seq<Slot>)
    reads pool
  {
    pool.Valid() && NoRepeats(held) && Elements(held) == pool.Live()
  }

  /** The call writes `v` to the node at position `k`. */
  predicate Writes(op: Op, k: nat) {
    op.Write? && op.i == k
  }

  /**
   One call: malloc hands out a node that is not held, and every node that stays in the client's hands holds what it
   held before, or what this call writes to it.
   */
  method Call(pool: Pool, held: seq<Slot>, op: Op) returns (held': seq<Slot>)
    requires Holds(pool, held)
    modifies pool
    ensures Holds(pool, held')
    ensures op.Take? ==> |held'| == |held| + 1 && held'[..|held|] == held && held'[|held|] !in held
    ensures op.Return? ==> held' == RemoveAt(held, op.i)
    ensures op.Write? ==> held' == held
    ensures forall k :: 0 <= k < |held| && held[k] in held' ==>
              held[k] in pool.pNext && held[k] in old(pool.pNext)
              && pool.pNext[held[k]] == if Writes(op, k) then op.v else old(pool.pNext)[held[k]]
    ensures |pool.blocks| == old(|pool.blocks|) + (if op.Take? && old(pool.free) == [] then 1 else 0)
  {
    held' := held;
    assert forall k :: 0 <= k < |held| ==> held[k] in Elements(held);
    match op
    case Take(junk) =>
      var p := pool.Malloc(junk);
      SnocElements(held, p);
      held' := held + [p];
    case Return(i) =>
      if i < |held| {
        RemovedElements(held, i);
        held' := RemoveAt(held, i);
        assert forall k :: 0 <= k < |held'| ==> held'[k] in Elements(held');
        pool.Free(held[i]);
      }
    case Write(i, v) =>
      if i < |held| {
        pool.Scribble(held[i], v);
      }
  }

  /** As many blocks as the peak needs, and no more. */
  predicate Tight(n: nat, blocks: nat, peak: nat) {
    peak <= n * blocks < peak + n
  }

  lemma TightStep(n: nat, blocks: nat, held: nat, free: nat, peak: nat)
    requires n >= 1 && Tight(n, blocks, peak) && held <= peak && held + free == n * blocks
    ensures free == 0 ==> Tight(n, blocks + 1, if held + 1 > peak then held + 1 else peak)
    ensures free > 0 ==> Tight(n, blocks, if held + 1 > peak then held + 1 else peak)
  {
    MulSucc(n, blocks);
  }

  lemma CountNodes(pool: Pool, held: seq<Slot>)
    requires Holds(pool, held)
    ensures |held| + |pool.free| == pool.n * |pool.blocks|
  {
    pool.Conservation();
    DistinctSize(held);
  }

  predicate Contains(pNext: map<Slot, Slot>, p: Slot, v: Slot) {
    p in pNext && pNext[p] == v
  }

  /** Every node the client has written holds what was written last. */
  ghost predicate Kept(pool: Pool, held: seq<Slot>, written: seq<Option<Slot>>)
    reads pool
  {
    && |held| == |written|
    && forall k :: 0 <= k < |held| && written[k].Some? ==> Contains(pool.pNext, held[k], written[k].value)
  }

  /** The position, before the call, of what is held at position `k` after it. */
  function Origin(op: Op, held: nat, k: nat): nat {
    if op.Return? && op.i < held && op.i <= k then k + 1 else k
  }

  /** What is remembered of a node moves with the node. */
  lemma OriginKept(held: seq<Slot>, held': seq<Slot>, ops: seq<Op>, k: nat)
    requires ops != [] && |held| == |Written(ops[..|ops| - 1])| && k < |held'| && |held'| == |Written(ops)|
    requires var op := ops[|ops| - 1];
             && (op.Take? ==> |held'| == |held| + 1 && held'[..|held|] == held)
             && (op.Return? ==> held' == RemoveAt(held, op.i)) && (op.Write? ==> held' == held)
    ensures var op, j := ops[|ops| - 1], Origin(ops[|ops| - 1], |held|, k);
            if j < |held| then
              && held'[k] == held[j]
              && Written(ops)[k] == if Writes(op, j) then Some(op.v) else Written(ops[..|ops| - 1])[j]
            else Written(ops)[k].None?
  {
    var op, j := ops[|ops| - 1], Origin(ops[|ops| - 1], |held|, k);
    assert op.Take? && j < |held| ==> held'[..|held|][k] == held'[k];
  }

  /** One call keeps what was written; `before` and `after` are the link fields. */
  lemma KeptStep(held: seq<Slot>, held': seq<Slot>, ops: seq<Op>,
                 before: map<Slot, Slot>, after: map<Slot, Slot>, k: nat)
    requires ops != [] && |held| == |Written(ops[..|ops| - 1])| && k < |held'| && |held'| == |Written(ops)|
    requires var op := ops[|ops| - 1];
             && (op.Take? ==> |held'| == |held| + 1 && held'[..|held|] == held)
             && (op.Return? ==> held' == RemoveAt(held, op.i)) && (op.Write? ==> held' == held)
             && forall j :: 0 <= j < |held| && held[j] in held' ==>
                  held[j] in after && held[j] in before
                  && after[held[j]] == if Writes(op, j) then op.v else before[held[j]]
    requires forall j :: 0 <= j < |held| && Written(ops[..|ops| - 1])[j].Some? ==>
               Contains(before, held[j], Written(ops[..|ops| - 1])[j].value)
    ensures Written(ops)[k].Some? ==> Contains(after, held'[k], Written(ops)[k].value)
  {
    OriginKept(held, held', ops, k);
    var j := Origin(ops[|ops| - 1], |held|, k);
    assert held'[k] in held';
  }

  lemma KeptLength(held: seq<Slot>, held': seq<Slot>, ops: seq<Op>)
    requires ops != [] && |held| == |Written(ops[..|ops| - 1])|
    requires var op := ops[|ops| - 1];
             && (op.Take? ==> |held'| == |held| + 1)
             && (op.Return? ==> held' == RemoveAt(held, op.i)) && (op.Write? ==> held' == held)
    ensures |held'| == |Written(ops)|
  {
  }

  /** A call on behalf of a run, with what the client remembers of it. */
  method CallNext(pool: Pool, held: seq<Slot>, ghost ops: seq<Op>, op: Op) returns (held': seq<Slot>)
    requires Holds(pool, held) && ops != [] && op == ops[|ops| - 1] && Kept(pool, held, Written(ops[..|ops| - 1]))
    modifies pool
    ensures Holds(pool, held') && Kept(pool, held', Written(ops))
    ensures |pool.blocks| == old(|pool.blocks|) + (if op.Take? && old(pool.free) == [] then 1 else 0)
  {
    ghost var before := pool.pNext;
    held' := Call(pool, held, op);
    KeptLength(held, held', ops);
    forall k | 0 <= k < |held'| && Written(ops)[k].Some?
      ensures Contains(pool.pNext, held'[k], Written(ops)[k].value)
    {
      KeptStep(held, held', ops, before, pool.pNext, k);
    }
  }

  /**
   Any run of a client that gives back and overwrites only what it holds: it never holds a node twice, it holds
   exactly the live nodes, each with what it last wrote there, and the pool has exactly the blocks that the peak of
   its demand needs.
   */
  method Run(n: nat, ops: seq<Op>) returns (pool: Pool, held: seq<Slot>)
    requires n >= 1
    ensures fresh(pool) && pool.n == n && Holds(pool, held) && Kept(pool, held, Written(ops))
    ensures |held| + |pool.free| == n * |pool.blocks| && Tight(n, |pool.blocks|, Peak(ops))
  {
    pool := new Pool(n);
    held := [];
    for k := 0 to |ops|
      invariant fresh(pool) && pool.n == n && Holds(pool, held) && Kept(pool, held, Written(ops[..k]))
      invariant Count(ops[..k]) <= Peak(ops[..k]) && Tight(n, |pool.blocks|, Peak(ops[..k]))
    {
      assert ops[..k + 1][..k] == ops[..k];
      CountNodes(pool, held);
      TightStep(n, |pool.blocks|, |held|, |pool.free|, Peak(ops[..k]));
      held := CallNext(pool, held, ops[..k + 1], ops[k]);
    }
    assert ops[..|ops|] == ops;
    CountNodes(pool, held);
  }
}
