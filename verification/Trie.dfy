/** The counting trie of cpp/race/Trie.cpp: Insert, Search, and prefix deletion. */
module Trie {
  import opened Memory

  /** Letters are positions in the alphabet, *word - 'a'. */
  type Word = seq<nat>

  datatype Node = Node(cnt: int, next: seq<Ptr>)

  ghost predicate Over(w: Word, size: nat) {
    forall i :: 0 <= i < |w| ==> w[i] < size
  }

  /** How many words of the list have `p` as a prefix. */
  function WithPrefix(words: seq<Word>, p: Word): nat {
    if words == [] then 0
    else WithPrefix(words[..|words| - 1], p) + (if p <= words[|words| - 1] then 1 else 0)
  }

  /** The words that do not have `p` as a prefix. */
  function Without(words: seq<Word>, p: Word): seq<Word> {
    if words == [] then []
    else
      var last := words[|words| - 1];
      Without(words[..|words| - 1], p) + (if p <= last then [] else [last])
  }

  lemma WithPrefixSnoc(words: seq<Word>, w: Word, p: Word)
    ensures WithPrefix(words + [w], p) == WithPrefix(words, p) + (if p <= w then 1 else 0)
  {
    assert (words + [w])[..|words|] == words;
  }

  /** Two prefixes of one word are prefixes of each other. */
  lemma PrefixesCompare(p: Word, q: Word, w: Word)
    requires p <= w && q <= w
    ensures p <= q || q <= p
  {
  }

  /** Deleting the words with prefix `p` lowers the count of each prefix of `p` and of nothing incomparable. */
  lemma {:induction false} WithoutCounts(words: seq<Word>, p: Word, q: Word)
    ensures p <= q ==> WithPrefix(Without(words, p), q) == 0
    ensures q <= p ==> WithPrefix(Without(words, p), q) == WithPrefix(words, q) - WithPrefix(words, p)
    ensures !(p <= q) && !(q <= p) ==> WithPrefix(Without(words, p), q) == WithPrefix(words, q)
  {
    if words == [] {
    } else {
      var n := |words| - 1;
      var w := words[n];
      WithoutCounts(words[..n], p, q);
      if p <= w {
        assert Without(words, p) == Without(words[..n], p);
        if q <= w {
          PrefixesCompare(p, q, w);
        }
      } else {
        WithPrefixSnoc(Without(words[..n], p), w, q);
      }
    }
  }

  /** A longer prefix is carried by no more words. */
  lemma {:induction false} WithPrefixMonotone(words: seq<Word>, p: Word, q: Word)
    requires p <= q
    ensures WithPrefix(words, q) <= WithPrefix(words, p)
  {
    if words == [] {
    } else {
      WithPrefixMonotone(words[..|words| - 1], p, q);
    }
  }

  // ----- The nodes, as values -----

  type Nodes = map<Ptr, Node>

  /** Where each prefix reachable from the root has its node. */
  type Places = map<Word, Ptr>

  function Ext(w: Word, c: nat): Word {
    w + [c]
  }

  lemma TakeExt(w: Word, i: nat)
    requires i < |w|
    ensures w[..i + 1] == Ext(w[..i], w[i])
  {
  }

  lemma TakeAll(w: Word)
    ensures w[..|w|] == w
  {
  }

  function Target(at: Places, w: Word, c: nat): Ptr {
    if Ext(w, c) in at then at[Ext(w, c)] else NULL
  }

  /** The node of prefix `w` exists and links to the nodes of its extensions. */
  ghost predicate NodeOk(nodes: Nodes, at: Places, size: nat, w: Word)
    requires w in at
  {
    && Over(w, size) && at[w] != NULL && at[w] in nodes && |nodes[at[w]].next| == size
    && forall c: nat :: c < size ==> nodes[at[w]].next[c] == Target(at, w, c)
  }

  /** Every prefix of a prefix with a node has a node. */
  ghost predicate PrefixClosed(at: Places) {
    forall w: Word, k: nat {:trigger w[..k]} :: w in at && k <= |w| ==> w[..k] in at
  }

  ghost predicate Linked(nodes: Nodes, root: Ptr, at: Places, size: nat) {
    && [] in at && at[[]] == root && PrefixClosed(at)
    && (forall w: Word {:trigger NodeOk(nodes, at, size, w)} :: w in at ==> NodeOk(nodes, at, size, w))
    && (forall v: Word, w: Word {:trigger at[v], at[w]} :: v in at && w in at && v != w ==> at[v] != at[w])
  }

  /** What the counter of prefix `w` should hold once `delta` has been added along the prefixes of `along`. */
  function Due(words: seq<Word>, along: Word, delta: int, w: Word): int {
    WithPrefix(words, w) + (if w <= along then delta else 0)
  }

  ghost predicate CounterOk(nodes: Nodes, at: Places, words: seq<Word>, along: Word, delta: int, w: Word)
    requires w in at
  {
    at[w] in nodes && nodes[at[w]].cnt == if w == [] then 0 else Due(words, along, delta, w)
  }

  /** A prefix without a node is carried by no word. */
  ghost predicate NoneLost(at: Places, words: seq<Word>) {
    forall w: Word {:trigger WithPrefix(words, w)} :: w !in at ==> WithPrefix(words, w) == 0
  }

  /** The counters of all prefixes, while `delta` is being added along `along` (or, with [], between calls). */
  ghost predicate Counted(nodes: Nodes, at: Places, words: seq<Word>, along: Word, delta: int) {
    && (forall w: Word {:trigger CounterOk(nodes, at, words, along, delta, w)} ::
          w in at ==> CounterOk(nodes, at, words, along, delta, w))
    && NoneLost(at, words)
  }

  lemma ExtParts(w: Word, c: nat, u: Word, d: nat)
    ensures Ext(w, c) != [] && Ext(w, c)[..|w|] == w
    ensures Ext(w, c) == Ext(u, d) <==> w == u && c == d
  {
    assert Ext(w, c)[|w|] == c;
    assert Ext(u, d)[|u|] == d;
    assert Ext(u, d)[..|u|] == u;
  }

  /** The prefixes of an extension. */
  lemma PrefixOfExt(p: Word, w: Word, c: nat)
    ensures p <= Ext(w, c) <==> p <= w || p == Ext(w, c)
  {
    assert Ext(w, c)[..|w|] == w;
    assert p <= w ==> p == Ext(w, c)[..|p|];
  }

  /** A link leads to the node of the extension, and is null exactly when there is none. */
  lemma FollowLink(nodes: Nodes, root: Ptr, at: Places, size: nat, w: Word, c: nat)
    requires Linked(nodes, root, at, size) && w in at && c < size
    ensures NodeOk(nodes, at, size, w)
    ensures nodes[at[w]].next[c] == NULL <==> Ext(w, c) !in at
    ensures Ext(w, c) in at ==> nodes[at[w]].next[c] == at[Ext(w, c)] && at[Ext(w, c)] in nodes
  {
    assert NodeOk(nodes, at, size, w);
    assert Ext(w, c) in at ==> NodeOk(nodes, at, size, Ext(w, c));
  }

  // ----- Hanging a new node -----

  lemma ExtClosed(at: Places, w: Word, c: nat, p: Ptr)
    requires PrefixClosed(at) && w in at
    ensures PrefixClosed(at[Ext(w, c) := p])
  {
    var at' := at[Ext(w, c) := p];
    forall u: Word, k: nat | u in at' && k <= |u| ensures u[..k] in at' {
      PrefixOfExt(u[..k], w, c);
      assert u == Ext(w, c) ==> u[..k] <= Ext(w, c);
      assert u[..k] <= w ==> w[..|u[..k]|] == u[..k];
    }
  }

  /** The nodes after hanging a fresh node below prefix `w` for letter `c`. */
  function Hung(nodes: Nodes, at: Places, size: nat, w: Word, c: nat, p: Ptr): Nodes
    requires w in at && at[w] in nodes && c < |nodes[at[w]].next|
  {
    var n := nodes[at[w]];
    nodes[p := Node(0, seq(size, _ => NULL))][at[w] := n.(next := n.next[c := p])]
  }

  lemma HungNode(nodes: Nodes, root: Ptr, at: Places, size: nat, w: Word, c: nat, p: Ptr, u: Word)
    requires Linked(nodes, root, at, size) && w in at && NodeOk(nodes, at, size, w)
    requires c < size && Ext(w, c) !in at && p != NULL && p !in nodes
    requires u in at || u == Ext(w, c)
    ensures NodeOk(Hung(nodes, at, size, w, c, p), at[Ext(w, c) := p], size, u)
  {
    var nodes', at' := Hung(nodes, at, size, w, c, p), at[Ext(w, c) := p];
    assert u in at ==> NodeOk(nodes, at, size, u);
    forall d: nat | d < size ensures nodes'[at'[u]].next[d] == Target(at', u, d) {
      ExtParts(w, c, u, d);
      ExtParts(Ext(w, c), d, w, c);
      assert Ext(Ext(w, c), d) !in at;
    }
  }

  lemma AddNode(nodes: Nodes, root: Ptr, at: Places, size: nat, w: Word, c: nat, p: Ptr)
    requires Linked(nodes, root, at, size) && w in at && NodeOk(nodes, at, size, w)
    requires c < size && Ext(w, c) !in at && p != NULL && p !in nodes
    ensures Linked(Hung(nodes, at, size, w, c, p), root, at[Ext(w, c) := p], size)
  {
    var nodes', at' := Hung(nodes, at, size, w, c, p), at[Ext(w, c) := p];
    ExtClosed(at, w, c, p);
    forall u: Word | u in at' ensures NodeOk(nodes', at', size, u) {
      HungNode(nodes, root, at, size, w, c, p, u);
    }
    forall u: Word, x: Word | u in at' && x in at' && u != x ensures at'[u] != at'[x] {
      assert u in at ==> NodeOk(nodes, at, size, u);
      assert x in at ==> NodeOk(nodes, at, size, x);
    }
  }

  lemma AddNodeCounted(nodes: Nodes, root: Ptr, at: Places, size: nat, words: seq<Word>, w: Word, c: nat, p: Ptr)
    requires Linked(nodes, root, at, size) && w in at && NodeOk(nodes, at, size, w)
    requires c < size && Ext(w, c) !in at && p != NULL && p !in nodes && Counted(nodes, at, words, w, 1)
    ensures Counted(Hung(nodes, at, size, w, c, p), at[Ext(w, c) := p], words, w, 1)
  {
    var nodes', at' := Hung(nodes, at, size, w, c, p), at[Ext(w, c) := p];
    forall u: Word | u in at' ensures CounterOk(nodes', at', words, w, 1, u) {
      assert u in at ==> CounterOk(nodes, at, words, w, 1, u);
      assert u !in at ==> WithPrefix(words, u) == 0;
    }
  }

  // ----- Changing one counter -----

  function SetCount(nodes: Nodes, p: Ptr, k: int): Nodes
    requires p in nodes
  {
    nodes[p := nodes[p].(cnt := k)]
  }

  lemma CountLinked(nodes: Nodes, root: Ptr, at: Places, size: nat, p: Ptr, k: int)
    requires Linked(nodes, root, at, size) && p in nodes
    ensures Linked(SetCount(nodes, p, k), root, at, size)
  {
    forall u: Word | u in at ensures NodeOk(SetCount(nodes, p, k), at, size, u) {
      assert NodeOk(nodes, at, size, u);
    }
  }

  /** One counter of the others, when that of the next prefix changes. */
  lemma CountOther(nodes: Nodes, root: Ptr, at: Places, size: nat, words: seq<Word>, w: Word, c: nat, d: int, u: Word)
    requires Linked(nodes, root, at, size) && Ext(w, c) in at && at[Ext(w, c)] in nodes && u in at
    requires CounterOk(nodes, at, words, w, d, u)
    ensures CounterOk(SetCount(nodes, at[Ext(w, c)], nodes[at[Ext(w, c)]].cnt + d), at, words, Ext(w, c), d, u)
  {
    PrefixOfExt(u, w, c);
    assert !(Ext(w, c) <= w);
  }

  /** Adding to the counter of the next prefix takes the change one letter further. */
  lemma CountOne(nodes: Nodes, root: Ptr, at: Places, size: nat, words: seq<Word>, w: Word, c: nat, d: int)
    requires Linked(nodes, root, at, size) && Ext(w, c) in at && at[Ext(w, c)] in nodes
             && Counted(nodes, at, words, w, d)
    ensures Counted(SetCount(nodes, at[Ext(w, c)], nodes[at[Ext(w, c)]].cnt + d), at, words, Ext(w, c), d)
  {
    var nodes' := SetCount(nodes, at[Ext(w, c)], nodes[at[Ext(w, c)]].cnt + d);
    forall u: Word | u in at ensures CounterOk(nodes', at, words, Ext(w, c), d, u) {
      assert CounterOk(nodes, at, words, w, d, u);
      CountOther(nodes, root, at, size, words, w, c, d, u);
    }
  }

  /** With nothing to add, or along the empty prefix, a change is none. */
  lemma CountNothing(nodes: Nodes, at: Places, words: seq<Word>, along: Word, d: int)
    requires d == 0 || along == []
    ensures Counted(nodes, at, words, along, d) <==> Counted(nodes, at, words, [], 0)
  {
    forall w: Word | w in at
      ensures CounterOk(nodes, at, words, along, d, w) <==> CounterOk(nodes, at, words, [], 0, w)
    {
    }
  }

  lemma PrefixPlaced(at: Places, w: Word, u: Word)
    requires PrefixClosed(at) && w in at
    ensures u <= w ==> u in at
  {
    assert u <= w ==> u == w[..|u|];
  }

  /** When every prefix has been counted the word has joined the list. */
  lemma InsertDone(nodes: Nodes, at: Places, words: seq<Word>, w: Word)
    requires PrefixClosed(at) && w in at && Counted(nodes, at, words, w, 1)
    ensures Counted(nodes, at, words + [w], [], 0)
  {
    forall u: Word | u in at ensures CounterOk(nodes, at, words + [w], [], 0, u) {
      assert CounterOk(nodes, at, words, w, 1, u);
      WithPrefixSnoc(words, w, u);
    }
    forall u: Word | u !in at ensures WithPrefix(words + [w], u) == 0 {
      WithPrefixSnoc(words, w, u);
      PrefixPlaced(at, w, u);
    }
  }

  lemma AbsentPrefix(at: Places, words: seq<Word>, w: Word, k: nat)
    requires NoneLost(at, words) && k <= |w| && w[..k] !in at
    ensures WithPrefix(words, w) == 0
  {
    WithPrefixMonotone(words, w[..k], w);
  }

  // ----- Deletion -----

  /** The places left once the children of `p` are unlinked. */
  function Cut(at: Places, p: Word): Places {
    map w | w in at && !(p < w) :: at[w]
  }

  /** The nodes once the children of the node of `p` are unlinked. */
  function Cleared(nodes: Nodes, at: Places, size: nat, p: Word): Nodes
    requires p in at && at[p] in nodes
  {
    nodes[at[p] := nodes[at[p]].(next := seq(size, _ => NULL))]
  }

  lemma CutClosed(at: Places, p: Word)
    requires PrefixClosed(at)
    ensures PrefixClosed(Cut(at, p))
  {
    forall w: Word, k: nat | w in Cut(at, p) && k <= |w| ensures w[..k] in Cut(at, p) {
      assert w[..k] in at;
      assert p < w[..k] ==> p < w;
    }
  }

  lemma CutNode(nodes: Nodes, root: Ptr, at: Places, size: nat, p: Word, u: Word)
    requires Linked(nodes, root, at, size) && p in at && NodeOk(nodes, at, size, p) && u in Cut(at, p)
    ensures NodeOk(Cleared(nodes, at, size, p), Cut(at, p), size, u)
  {
    var nodes', at' := Cleared(nodes, at, size, p), Cut(at, p);
    assert NodeOk(nodes, at, size, u);
    forall d: nat | d < size ensures nodes'[at'[u]].next[d] == Target(at', u, d) {
      PrefixOfExt(p, u, d);
      assert u == p ==> p < Ext(p, d);
    }
  }

  lemma CutLinked(nodes: Nodes, root: Ptr, at: Places, size: nat, p: Word)
    requires Linked(nodes, root, at, size) && p in at && NodeOk(nodes, at, size, p)
    ensures Linked(Cleared(nodes, at, size, p), root, Cut(at, p), size)
  {
    CutClosed(at, p);
    forall u: Word | u in Cut(at, p) ensures NodeOk(Cleared(nodes, at, size, p), Cut(at, p), size, u) {
      CutNode(nodes, root, at, size, p, u);
    }
  }

  lemma CutNoneLost(at: Places, words: seq<Word>, p: Word)
    requires NoneLost(at, words)
    ensures NoneLost(Cut(at, p), Without(words, p))
  {
    forall u: Word | u !in Cut(at, p) ensures WithPrefix(Without(words, p), u) == 0 {
      WithoutCounts(words, p, u);
      if u <= p && u !in at {
        WithPrefixMonotone(words, u, p);
      }
    }
  }

  /**
   Lowering the counters along `p` by `t` and unlinking its children removes the words with prefix `p`, up to
   what `t` misses of their number along `p`.
   */
  lemma CutCounted(nodes: Nodes, at: Places, size: nat, words: seq<Word>, p: Word, t: int)
    requires p in at && at[p] in nodes && Counted(nodes, at, words, p, -t)
    ensures Counted(Cleared(nodes, at, size, p), Cut(at, p), Without(words, p), p, WithPrefix(words, p) - t)
  {
    CutNoneLost(at, words, p);
    var nodes', at', words' := Cleared(nodes, at, size, p), Cut(at, p), Without(words, p);
    forall u: Word | u in at' ensures CounterOk(nodes', at', words', p, WithPrefix(words, p) - t, u) {
      assert CounterOk(nodes, at, words, p, -t, u);
      WithoutCounts(words, p, u);
    }
  }

  /** What is missed shows at `p` itself. */
  lemma MissShows(nodes: Nodes, at: Places, words: seq<Word>, p: Word, d: int)
    requires p in at && Counted(nodes, at, words, p, d)
    ensures Counted(nodes, at, words, [], 0) <==> p == [] || d == 0
  {
    if p == [] || d == 0 {
      CountNothing(nodes, at, words, p, d);
    }
    assert CounterOk(nodes, at, words, p, d, p);
    assert Counted(nodes, at, words, [], 0) ==> CounterOk(nodes, at, words, [], 0, p);
  }

  /** The trie with its global root. */
  class Tree {
    const size: nat
    var root: Ptr
    var nodes: Nodes
    ghost var at: Places
    /** The words inserted and not deleted, in order of insertion. */
    ghost var words: seq<Word>

    ghost predicate Valid()
      reads this
    {
      Linked(nodes, root, at, size) && Counted(nodes, at, words, [], 0)
    }

    constructor (alphabet: nat)
      ensures Valid() && words == [] && size == alphabet
    {
      size := alphabet;
      root := 1;
      nodes := map[1 := Node(0, seq(alphabet, _ => NULL))];
      at := map[[] := 1];
      words := [];
    }

    /** The link for the next letter, creating the node if needed. */
    method EnsureChild(tem: Ptr, x: nat, ghost w: Word)
      requires Linked(nodes, root, at, size) && w in at && tem == at[w] && x < size && Counted(nodes, at, words, w, 1)
      modifies this`nodes, this`at
      ensures Linked(nodes, root, at, size) && Ext(w, x) in at && w in at && at[w] == tem
      ensures Counted(nodes, at, words, w, 1)
    {
      FollowLink(nodes, root, at, size, w, x);
      if nodes[tem].next[x] == NULL {
        var p := Allocate(nodes.Keys);
        AddNode(nodes, root, at, size, w, x, p);
        AddNodeCounted(nodes, root, at, size, words, w, x, p);
        ghost var hung := Hung(nodes, at, size, w, x, p);
        nodes := nodes[p := Node(0, seq(size, _ => NULL))];
        nodes := nodes[tem := nodes[tem].(next := nodes[tem].next[x := p])];
        assert nodes == hung;
        at := at[Ext(w, x) := p];
      }
    }

    /** Go to the node for the next letter and change its count. */
    method AddAt(tem: Ptr, x: nat, d: int, ghost w: Word) returns (child: Ptr)
      requires Linked(nodes, root, at, size) && w in at && tem == at[w] && x < size && Ext(w, x) in at
      requires Counted(nodes, at, words, w, d)
      modifies this`nodes
      ensures Linked(nodes, root, at, size) && child == at[Ext(w, x)] && Counted(nodes, at, words, Ext(w, x), d)
    {
      FollowLink(nodes, root, at, size, w, x);
      child := nodes[tem].next[x];
      CountOne(nodes, root, at, size, words, w, x, d);
      CountLinked(nodes, root, at, size, child, nodes[child].cnt + d);
      nodes := nodes[child := nodes[child].(cnt := nodes[child].cnt + d)];
    }

    /** The loop of Insert. */
    method CountAlong(word: Word)
      requires Linked(nodes, root, at, size) && Counted(nodes, at, words, [], 0) && Over(word, size)
      modifies this`nodes, this`at
      ensures Linked(nodes, root, at, size) && word in at && Counted(nodes, at, words, word, 1)
    {
      var tem := root;
      CountNothing(nodes, at, words, [], 1);
      for i := 0 to |word|
        invariant Linked(nodes, root, at, size) && word[..i] in at && tem == at[word[..i]]
        invariant Counted(nodes, at, words, word[..i], 1)
      {
        EnsureChild(tem, word[i], word[..i]);
        tem := AddAt(tem, word[i], 1, word[..i]);
        TakeExt(word, i);
      }
      TakeAll(word);
    }

    /** Insert: one more word; every node on its path counts it. */
    method Insert(word: Word)
      requires Valid() && Over(word, size)
      modifies this`nodes, this`at, this`words
      ensures Valid() && words == old(words) + [word]
    {
      CountAlong(word);
      InsertDone(nodes, at, words, word);
      words := words + [word];
    }

    /** Search: the number of words that have `word` as a prefix; the empty word always gives zero. */
    method Search(word: Word) returns (r: int)
      requires Valid() && Over(word, size)
      ensures r == if word == [] then 0 else WithPrefix(words, word)
    {
      var tem := root;
      for i := 0 to |word|
        invariant word[..i] in at && tem == at[word[..i]]
      {
        var x := word[i];
        TakeExt(word, i);
        FollowLink(nodes, root, at, size, word[..i], x);
        if nodes[tem].next[x] == NULL {
          AbsentPrefix(at, words, word, i + 1);
          return 0;
        }
        tem := nodes[tem].next[x];
      }
      TakeAll(word);
      assert CounterOk(nodes, at, words, [], 0, word);
      r := nodes[tem].cnt;
    }

    /** The first loop of Delete. */
    method LowerAlong(word: Word, t: int) returns (tem: Ptr)
      requires Linked(nodes, root, at, size) && word in at && Counted(nodes, at, words, [], 0) && Over(word, size)
      modifies this`nodes
      ensures Linked(nodes, root, at, size) && tem == at[word] && Counted(nodes, at, words, word, -t)
    {
      tem := root;
      CountNothing(nodes, at, words, [], -t);
      for i := 0 to |word|
        invariant Linked(nodes, root, at, size) && word[..i] in at && tem == at[word[..i]]
        invariant Counted(nodes, at, words, word[..i], -t)
      {
        TakeExt(word, i);
        assert word[..i + 1] in at;
        tem := AddAt(tem, word[i], -t, word[..i]);
      }
      TakeAll(word);
    }

    /**
     Delete(word, t): the words with that prefix go, and the counters are right again if and only if t was their
     number (for the empty word always). The path of the word must exist, or a null link is followed.
     */
    method Delete(word: Word, t: int)
      requires Valid() && Over(word, size) && word in at
      modifies this`nodes, this`at, this`words
      ensures Linked(nodes, root, at, size) && words == Without(old(words), word)
      ensures Counted(nodes, at, words, word, WithPrefix(old(words), word) - t)
      ensures Valid() <==> word == [] || t == WithPrefix(old(words), word)
    {
      var tem := LowerAlong(word, t);
      assert NodeOk(nodes, at, size, word);
      CutLinked(nodes, root, at, size, word);
      CutCounted(nodes, at, size, words, word, t);
      ClearChildren(tem);
      ghost var d := WithPrefix(words, word) - t;
      at, words := Cut(at, word), Without(words, word);
      MissShows(nodes, at, words, word, d);
    }

    /** The final loop of Delete: every child link of the node becomes null. */
    method ClearChildren(tem: Ptr)
      requires tem in nodes && |nodes[tem].next| == size
      modifies this`nodes
      ensures nodes == old(nodes)[tem := old(nodes)[tem].(next := seq(size, _ => NULL))]
    {
      for i := 0 to size
        invariant tem in nodes && nodes == old(nodes)[tem := nodes[tem]] && nodes[tem].cnt == old(nodes)[tem].cnt
        invariant |nodes[tem].next| == size && forall c :: 0 <= c < i ==> nodes[tem].next[c] == NULL
      {
        nodes := nodes[tem := nodes[tem].(next := nodes[tem].next[i := NULL])];
      }
      assert nodes[tem].next == seq(size, _ => NULL);
    }
  }

  // ----- The program -----

  datatype Command = InsertWord(word: Word) | Query(word: Word) | DeletePrefix(word: Word)

  /** The list of words after the commands; deleting an absent or empty prefix does nothing. */
  function AfterCommands(cs: seq<Command>): seq<Word> {
    if cs == [] then []
    else
      var before := AfterCommands(cs[..|cs| - 1]);
      match cs[|cs| - 1]
      case InsertWord(w) => before + [w]
      case Query(_) => before
      case DeletePrefix(w) => if w == [] then before else Without(before, w)
  }

  lemma {:induction false} WithoutAbsent(words: seq<Word>, p: Word)
    requires WithPrefix(words, p) == 0
    ensures Without(words, p) == words
  {
    if words == [] {
    } else {
      WithoutAbsent(words[..|words| - 1], p);
      assert words == words[..|words| - 1] + [words[|words| - 1]];
    }
  }

  lemma {:induction false} WithoutMember(words: seq<Word>, p: Word, w: Word)
    ensures w in Without(words, p) <==> w in words && !(p <= w)
  {
    if words == [] {
    } else {
      var n := |words| - 1;
      WithoutMember(words[..n], p, w);
      assert words == words[..n] + [words[n]];
    }
  }

  lemma {:induction false} SomeWithPrefix(words: seq<Word>, q: Word)
    ensures WithPrefix(words, q) > 0 <==> exists w :: w in words && q <= w
  {
    if words == [] {
    } else {
      var n := |words| - 1;
      SomeWithPrefix(words[..n], q);
      assert words == words[..n] + [words[n]];
      assert forall w :: w in words <==> w in words[..n] || w == words[n];
      if WithPrefix(words[..n], q) > 0 {
        var w :| w in words[..n] && q <= w;
        assert w in words && q <= w;
      } else if q <= words[n] {
        assert words[n] in words && q <= words[n];
      }
    }
  }

  /** Command `k` deletes a prefix of the word. */
  predicate Deletes(c: Command, w: Word) {
    c.DeletePrefix? && c.word != [] && c.word <= w
  }

  /** The word was inserted by command `j` and no command between `j` and `i` has deleted a prefix of it. */
  ghost predicate Survives(cs: seq<Command>, j: nat, i: nat, w: Word)
    requires i <= |cs|
  {
    j < i && cs[j] == InsertWord(w) && forall k :: j < k < i ==> !Deletes(cs[k], w)
  }

  ghost predicate Alive(cs: seq<Command>, i: nat, w: Word)
    requires i <= |cs|
  {
    exists j: nat :: Survives(cs, j, i, w)
  }

  /** One more command: an insertion survives it, or is it. */
  lemma SurvivesStep(cs: seq<Command>, n: nat, w: Word)
    requires n < |cs|
    ensures Alive(cs, n + 1, w) <==> cs[n] == InsertWord(w) || (Alive(cs, n, w) && !Deletes(cs[n], w))
  {
    if cs[n] == InsertWord(w) {
      assert Survives(cs, n, n + 1, w);
    }
    if Alive(cs, n, w) && !Deletes(cs[n], w) {
      var j: nat :| Survives(cs, j, n, w);
      assert Survives(cs, j, n + 1, w);
    }
    if Alive(cs, n + 1, w) {
      var j: nat :| Survives(cs, j, n + 1, w);
      assert j < n ==> Survives(cs, j, n, w) && !Deletes(cs[n], w);
    }
  }

  lemma {:induction false} StoredStep(cs: seq<Command>, n: nat, w: Word)
    requires n < |cs|
    ensures w in AfterCommands(cs[..n + 1]) <==>
            cs[n] == InsertWord(w) || (w in AfterCommands(cs[..n]) && !Deletes(cs[n], w))
  {
    assert cs[..n + 1][..n] == cs[..n];
    WithoutMember(AfterCommands(cs[..n]), cs[n].word, w);
  }

  /** The list holds a word exactly when some insertion of it has survived. */
  lemma {:induction false} StoredIff(cs: seq<Command>, i: nat, w: Word)
    requires i <= |cs|
    ensures w in AfterCommands(cs[..i]) <==> Alive(cs, i, w)
  {
    if i == 0 {
    } else {
      StoredIff(cs, i - 1, w);
      StoredStep(cs, i - 1, w);
      SurvivesStep(cs, i - 1, w);
    }
  }

  /** Some word with prefix `q` was inserted before position `i` and no prefix of it deleted since. */
  ghost predicate Present(cs: seq<Command>, i: nat, q: Word)
    requires i <= |cs|
  {
    exists j: nat, w: Word :: Survives(cs, j, i, w) && q <= w
  }

  lemma PresentIff(cs: seq<Command>, i: nat, q: Word)
    requires i <= |cs|
    ensures WithPrefix(AfterCommands(cs[..i]), q) > 0 <==> Present(cs, i, q)
  {
    var words := AfterCommands(cs[..i]);
    SomeWithPrefix(words, q);
    if w :| w in words && q <= w {
      StoredIff(cs, i, w);
      var j: nat :| Survives(cs, j, i, w);
      assert Survives(cs, j, i, w) && q <= w;
    }
    if Present(cs, i, q) {
      var j: nat, w: Word :| Survives(cs, j, i, w) && q <= w;
      StoredIff(cs, i, w);
    }
  }

  /** How many of the commands are queries. */
  function Queries(cs: seq<Command>): nat {
    if cs == [] then 0 else Queries(cs[..|cs| - 1]) + (if cs[|cs| - 1].Query? then 1 else 0)
  }

  /** The answers printed for the queries before position `n` are right. */
  ghost predicate Answered(cs: seq<Command>, n: nat, answers: seq<bool>)
    requires n <= |cs|
  {
    && |answers| == Queries(cs[..n])
    && forall i {:trigger Queries(cs[..i])} :: 0 <= i < n && cs[i].Query? ==>
         Queries(cs[..i]) < |answers| && (answers[Queries(cs[..i])] <==> cs[i].word != [] && Present(cs, i, cs[i].word))
  }

  lemma AnsweredStep(cs: seq<Command>, n: nat, answers: seq<bool>, yes: bool)
    requires n < |cs| && Answered(cs, n, answers)
    requires cs[n].Query? ==> (yes <==> cs[n].word != [] && Present(cs, n, cs[n].word))
    ensures Answered(cs, n + 1, if cs[n].Query? then answers + [yes] else answers)
  {
    assert cs[..n + 1][..n] == cs[..n];
  }

  /** One command on a tree that holds the words `words`. */
  method Obey(t: Tree, c: Command) returns (yes: bool)
    requires t.Valid() && Over(c.word, t.size)
    modifies t
    ensures t.Valid()
    ensures t.words == match c
                       case InsertWord(w) => old(t.words) + [w]
                       case Query(_) => old(t.words)
                       case DeletePrefix(w) => if w == [] then old(t.words) else Without(old(t.words), w)
    ensures c.Query? ==> (yes <==> c.word != [] && WithPrefix(old(t.words), c.word) > 0)
  {
    yes := false;
    match c
    case InsertWord(w) => t.Insert(w);
    case Query(w) =>
      var n := t.Search(w);
      yes := n != 0;
    case DeletePrefix(w) =>
      var n := t.Search(w);
      if n != 0 {
        assert w in t.at;
        t.Delete(w, n);
      } else if w != [] {
        WithoutAbsent(t.words, w);
      }
  }

  /**
   main: any commands on an empty trie. A query is answered with yes exactly when a word with that prefix was inserted
   before and no prefix of that word has been deleted since.
   */
  method Run(alphabet: nat, cs: seq<Command>) returns (answers: seq<bool>)
    requires forall i :: 0 <= i < |cs| ==> Over(cs[i].word, alphabet)
    ensures Answered(cs, |cs|, answers)
  {
    var t := new Tree(alphabet);
    answers := [];
    for i := 0 to |cs|
      invariant fresh(t) && t.Valid() && t.size == alphabet && t.words == AfterCommands(cs[..i])
      invariant Answered(cs, i, answers)
    {
      assert cs[..i + 1][..i] == cs[..i];
      PresentIff(cs, i, cs[i].word);
      var yes := Obey(t, cs[i]);
      AnsweredStep(cs, i, answers, yes);
      if cs[i].Query? {
        answers := answers + [yes];
      }
    }
  }
}
