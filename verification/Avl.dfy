/** The AVL tree of cpp/tree/avl2.cpp: recursive insertion and erasure that overwrite nodes in place. */
module Avl {
  import opened Memory
  import opened AvlTree
  import opened Sequences

  datatype Cell = Cell(key: int, height: nat, left: Ptr, right: Ptr)

  type Heap = map<Ptr, Cell>

  function Id(t: Tree): Ptr {
    if t.Leaf? then NULL else t.id
  }

  function Ids(t: Tree): set<Ptr> {
    if t.Leaf? then {} else {t.id} + Ids(t.left) + Ids(t.right)
  }

  predicate Distinct(t: Tree) {
    t.Node? ==>
      && t.id != NULL && t.id !in Ids(t.left) && t.id !in Ids(t.right) && Ids(t.left) !! Ids(t.right)
      && Distinct(t.left) && Distinct(t.right)
  }

  /** `t` is laid out in `h`. */
  predicate Rep(h: Heap, t: Tree) {
    t.Node? ==>
      && t.id in h && h[t.id] == Cell(t.key, t.height, Id(t.left), Id(t.right))
      && Rep(h, t.left) && Rep(h, t.right)
  }

  predicate Laid(h: Heap, t: Tree) {
    Distinct(t) && Rep(h, t)
  }

  /** Cells outside `s` are untouched. */
  ghost predicate SameOutside(h: Heap, h': Heap, s: set<Ptr>) {
    forall i :: i in h && i !in s ==> i in h' && h'[i] == h[i]
  }

  lemma {:induction false} RepAgree(h: Heap, h': Heap, t: Tree)
    requires Rep(h, t)
    requires forall i :: i in Ids(t) && i in h ==> i in h' && h'[i] == h[i]
    ensures Rep(h', t)
  {
    if t.Leaf? {
    } else {
      RepAgree(h, h', t.left);
      RepAgree(h, h', t.right);
    }
  }

  lemma {:induction false} RepKeys(h: Heap, t: Tree)
    requires Laid(h, t)
    ensures Ids(t) <= h.Keys && NULL !in Ids(t)
  {
    if t.Leaf? {
    } else {
      RepKeys(h, t.left);
      RepKeys(h, t.right);
    }
  }

  /** Replacing a subtree whose new nodes do not clash with the rest. */
  lemma RelinkLeft(h: Heap, h': Heap, t: Tree, l: Tree, c: Cell)
    requires Laid(h, t) && t.Node? && Laid(h', l) && t.id in h'
    requires SameOutside(h, h', Ids(t.left)) && t.id !in Ids(l) && Ids(l) !! Ids(t.right)
    requires c.left == Id(l) && c.right == Id(t.right)
    ensures Laid(h'[t.id := c], Node(t.id, c.key, c.height, l, t.right))
  {
    RepAgree(h, h'[t.id := c], t.right);
    RepAgree(h', h'[t.id := c], l);
  }

  lemma RelinkRight(h: Heap, h': Heap, t: Tree, r: Tree, c: Cell)
    requires Laid(h, t) && t.Node? && Laid(h', r) && t.id in h'
    requires SameOutside(h, h', Ids(t.right)) && t.id !in Ids(r) && Ids(r) !! Ids(t.left)
    requires c.right == Id(r) && c.left == Id(t.left)
    ensures Laid(h'[t.id := c], Node(t.id, c.key, c.height, t.left, r))
  {
    RepAgree(h, h'[t.id := c], t.left);
    RepAgree(h', h'[t.id := c], r);
  }

  class AVL {
    /** header->left, the root of the tree. */
    var root: Ptr
    var nodes: Heap
    ghost var tree: Tree

    ghost predicate Valid()
      reads this
    {
      Laid(nodes, tree) && root == Id(tree) && nodes.Keys == Ids(tree) && AvlTree.Avl(tree) && Ordered(tree)
    }

    constructor ()
      ensures Valid() && Contents(tree) == {}
    {
      root, nodes, tree := NULL, map[], Leaf;
    }

    method GetHeight(node: Ptr, ghost t: Tree) returns (r: nat)
      requires Laid(nodes, t) && node == Id(t)
      ensures r == Cached(t)
    {
      if node == NULL {
        return 0;
      }
      return nodes[node].height;
    }

    method GetBalance(node: Ptr, ghost t: Tree) returns (r: int)
      requires Laid(nodes, t) && node == Id(t)
      ensures r == Balance(t)
    {
      if node == NULL {
        return 0;
      }
      var a: int := GetHeight(nodes[node].left, t.left);
      var b: int := GetHeight(nodes[node].right, t.right);
      return a - b;
    }

    /** node->height = max(height of left, height of right) + 1 */
    method UpdateHeight(node: Ptr, ghost t: Tree)
      requires Laid(nodes, t) && t.Node? && node == t.id
      modifies this`nodes
      ensures Laid(nodes, Refresh(t)) && Ids(Refresh(t)) == Ids(t)
      ensures nodes == old(nodes)[node := old(nodes)[node].(height := Refresh(t).height)]
    {
      var a := GetHeight(nodes[node].left, t.left);
      var b := GetHeight(nodes[node].right, t.right);
      nodes := nodes[node := nodes[node].(height := if a < b then b + 1 else a + 1)];
      RelinkLeft(old(nodes), old(nodes), t, t.left, nodes[node]);
    }

    method LlRotate(y: Ptr, ghost t: Tree) returns (x: Ptr)
      requires Laid(nodes, t) && t.Node? && t.left.Node? && y == t.id
      modifies this`nodes
      ensures Laid(nodes, AvlTree.LlRotate(t)) && x == Id(AvlTree.LlRotate(t))
      ensures Ids(AvlTree.LlRotate(t)) == Ids(t)
      ensures nodes.Keys == old(nodes.Keys) && SameOutside(old(nodes), nodes, Ids(t))
    {
      ghost var h := nodes;
      x := nodes[y].left;
      ghost var xt := t.left;
      assert Laid(h, xt) && Laid(h, xt.right);
      nodes := nodes[y := nodes[y].(left := nodes[x].right)];
      RelinkLeft(h, h, t, xt.right, nodes[y]);
      ghost var yt := t.(left := xt.right);
      ghost var h1 := nodes;
      nodes := nodes[x := nodes[x].(right := y)];
      RepAgree(h1, nodes, yt);
      UpdateHeight(y, yt);
      ghost var yt' := Refresh(yt);
      ghost var h2 := nodes;
      assert Laid(h2, xt.(right := yt')) by {
        RepAgree(h, h2, xt.left);
      }
      UpdateHeight(x, xt.(right := yt'));
    }

    method RrRotate(y: Ptr, ghost t: Tree) returns (x: Ptr)
      requires Laid(nodes, t) && t.Node? && t.right.Node? && y == t.id
      modifies this`nodes
      ensures Laid(nodes, AvlTree.RrRotate(t)) && x == Id(AvlTree.RrRotate(t))
      ensures Ids(AvlTree.RrRotate(t)) == Ids(t)
      ensures nodes.Keys == old(nodes.Keys) && SameOutside(old(nodes), nodes, Ids(t))
    {
      ghost var h := nodes;
      x := nodes[y].right;
      ghost var xt := t.right;
      assert Laid(h, xt) && Laid(h, xt.left);
      nodes := nodes[y := nodes[y].(right := nodes[x].left)];
      RelinkRight(h, h, t, xt.left, nodes[y]);
      ghost var yt := t.(right := xt.left);
      ghost var h1 := nodes;
      nodes := nodes[x := nodes[x].(left := y)];
      RepAgree(h1, nodes, yt);
      UpdateHeight(y, yt);
      ghost var yt' := Refresh(yt);
      ghost var h2 := nodes;
      assert Laid(h2, xt.(left := yt')) by {
        RepAgree(h, h2, xt.right);
      }
      UpdateHeight(x, xt.(left := yt'));
    }

    method LrRotate(y: Ptr, ghost t: Tree) returns (r: Ptr)
      requires Laid(nodes, t) && t.Node? && t.left.Node? && t.left.right.Node? && y == t.id
      modifies this`nodes
      ensures Laid(nodes, AvlTree.LrRotate(t)) && r == Id(AvlTree.LrRotate(t))
      ensures Ids(AvlTree.LrRotate(t)) == Ids(t)
      ensures nodes.Keys == old(nodes.Keys) && SameOutside(old(nodes), nodes, Ids(t))
    {
      ghost var h := nodes;
      var x := nodes[y].left;
      assert Laid(nodes, t.left);
      RepKeys(nodes, t);
      var v := RrRotate(x, t.left);
      ghost var l := AvlTree.RrRotate(t.left);
      ghost var h1 := nodes;
      nodes := nodes[y := nodes[y].(left := v)];
      RelinkLeft(h, h1, t, l, nodes[y]);
      r := LlRotate(y, t.(left := l));
    }

    method RlRotate(y: Ptr, ghost t: Tree) returns (r: Ptr)
      requires Laid(nodes, t) && t.Node? && t.right.Node? && t.right.left.Node? && y == t.id
      modifies this`nodes
      ensures Laid(nodes, AvlTree.RlRotate(t)) && r == Id(AvlTree.RlRotate(t))
      ensures Ids(AvlTree.RlRotate(t)) == Ids(t)
      ensures nodes.Keys == old(nodes.Keys) && SameOutside(old(nodes), nodes, Ids(t))
    {
      ghost var h := nodes;
      var x := nodes[y].right;
      assert Laid(nodes, t.right);
      RepKeys(nodes, t);
      var v := LlRotate(x, t.right);
      ghost var l := AvlTree.LlRotate(t.right);
      ghost var h1 := nodes;
      nodes := nodes[y := nodes[y].(right := v)];
      RelinkRight(h, h1, t, l, nodes[y]);
      r := RrRotate(y, t.(right := l));
    }

    /** The end of insert_real. */
    method RepairInsert(node: Ptr, ghost t: Tree) returns (r: Ptr)
      requires Laid(nodes, t) && t.Node? && node == t.id
      modifies this`nodes
      ensures Laid(nodes, FixInsert(t)) && r == Id(FixInsert(t)) && Ids(FixInsert(t)) == Ids(t)
      ensures nodes.Keys == old(nodes.Keys) && SameOutside(old(nodes), nodes, Ids(t))
    {
      UpdateHeight(node, t);
      ghost var n := Refresh(t);
      var balance := GetBalance(node, n);
      var left := GetBalance(nodes[node].left, n.left);
      var right := GetBalance(nodes[node].right, n.right);
      if balance > 1 && left > 0 {
        r := LlRotate(node, n);
      } else if balance < -1 && right < 0 {
        r := RrRotate(node, n);
      } else if balance > 1 && left < 0 {
        r := LrRotate(node, n);
      } else if balance < -1 && right > 0 {
        r := RlRotate(node, n);
      } else {
        r := node;
      }
    }

    /** The end of erase_real. */
    method RepairErase(node: Ptr, ghost t: Tree) returns (r: Ptr)
      requires Laid(nodes, t) && t.Node? && node == t.id
      modifies this`nodes
      ensures Laid(nodes, FixErase(t)) && r == Id(FixErase(t)) && Ids(FixErase(t)) == Ids(t)
      ensures nodes.Keys == old(nodes.Keys) && SameOutside(old(nodes), nodes, Ids(t))
    {
      UpdateHeight(node, t);
      ghost var n := Refresh(t);
      var balance := GetBalance(node, n);
      var left := GetBalance(nodes[node].left, n.left);
      var right := GetBalance(nodes[node].right, n.right);
      if balance > 1 && left >= 0 {
        r := LlRotate(node, n);
      } else if balance < -1 && right <= 0 {
        r := RrRotate(node, n);
      } else if balance > 1 && left < 0 {
        r := LrRotate(node, n);
      } else if balance < -1 && right > 0 {
        r := RlRotate(node, n);
      } else {
        r := node;
      }
    }

    /** insert_real performs the function Insert in place; only a missing key allocates. */
    method InsertReal(key: int, node: Ptr, ghost t: Tree) returns (r: Ptr, ghost z: Ptr)
      requires Laid(nodes, t) && node == Id(t)
      modifies this`nodes
      ensures Laid(nodes, Insert(t, key, z)) && r == Id(Insert(t, key, z))
      ensures Ids(t) <= Ids(Insert(t, key, z)) <= Ids(t) + {z} && (z in Ids(t) || z !in old(nodes))
      ensures nodes.Keys == old(nodes.Keys) + Ids(Insert(t, key, z)) && SameOutside(old(nodes), nodes, Ids(t))
      decreases t
    {
      ghost var h := nodes;
      RepKeys(nodes, t);
      if node == NULL {
        r := Allocate(nodes.Keys);
        z := r;
        nodes := nodes[r := Cell(key, 1, NULL, NULL)];
        return;
      }
      if key < nodes[node].key {
        r, z := InsertReal(key, nodes[node].left, t.left);
        r := AttachLeft(node, r, h, t, Insert(t.left, key, z), z);
      } else if key > nodes[node].key {
        r, z := InsertReal(key, nodes[node].right, t.right);
        r := AttachRight(node, r, h, t, Insert(t.right, key, z), z);
      } else {
        r, z := node, node;
      }
    }

    /** Store the grown subtree and repair. */
    method AttachLeft(node: Ptr, child: Ptr, ghost h: Heap, ghost t: Tree, ghost l: Tree, ghost z: Ptr) returns (r: Ptr)
      requires Laid(h, t) && t.Node? && node == t.id && Laid(nodes, l) && child == Id(l)
      requires Ids(t.left) <= Ids(l) <= Ids(t.left) + {z} && (z in Ids(t.left) || z !in h)
      requires nodes.Keys == h.Keys + Ids(l) && SameOutside(h, nodes, Ids(t.left))
      modifies this`nodes
      ensures Laid(nodes, FixInsert(t.(left := l))) && r == Id(FixInsert(t.(left := l)))
      ensures Ids(FixInsert(t.(left := l))) == {t.id} + Ids(l) + Ids(t.right)
      ensures nodes.Keys == old(nodes.Keys) && SameOutside(h, nodes, Ids(t))
    {
      RepKeys(h, t);
      ghost var h1 := nodes;
      nodes := nodes[node := nodes[node].(left := child)];
      RelinkLeft(h, h1, t, l, nodes[node]);
      r := RepairInsert(node, t.(left := l));
    }

    method AttachRight(node: Ptr, child: Ptr, ghost h: Heap, ghost t: Tree, ghost l: Tree, ghost z: Ptr)
      returns (r: Ptr)
      requires Laid(h, t) && t.Node? && node == t.id && Laid(nodes, l) && child == Id(l)
      requires Ids(t.right) <= Ids(l) <= Ids(t.right) + {z} && (z in Ids(t.right) || z !in h)
      requires nodes.Keys == h.Keys + Ids(l) && SameOutside(h, nodes, Ids(t.right))
      modifies this`nodes
      ensures Laid(nodes, FixInsert(t.(right := l))) && r == Id(FixInsert(t.(right := l)))
      ensures Ids(FixInsert(t.(right := l))) == {t.id} + Ids(t.left) + Ids(l)
      ensures nodes.Keys == old(nodes.Keys) && SameOutside(h, nodes, Ids(t))
    {
      RepKeys(h, t);
      ghost var h1 := nodes;
      nodes := nodes[node := nodes[node].(right := child)];
      RelinkRight(h, h1, t, l, nodes[node]);
      r := RepairInsert(node, t.(right := l));
    }

    /** The key of the leftmost node. */
    method Leftmost(start: Ptr, ghost t: Tree) returns (key: int)
      requires Laid(nodes, t) && t.Node? && start == t.id
      ensures key == MinKey(t)
    {
      var x := start;
      ghost var u := t;
      while nodes[x].left != NULL
        invariant Laid(nodes, u) && u.Node? && x == u.id && MinKey(u) == MinKey(t)
        decreases u
      {
        x := nodes[x].left;
        u := u.left;
      }
      assert Laid(nodes, u.left);
      key := nodes[x].key;
    }

    /** erase_real performs the function Erase in place; the node it deletes leaves the heap. */
    method EraseReal(key: int, node: Ptr, ghost t: Tree) returns (r: Ptr)
      requires Laid(nodes, t) && node == Id(t)
      modifies this`nodes
      ensures Laid(nodes, Erase(t, key)) && r == Id(Erase(t, key)) && Ids(Erase(t, key)) <= Ids(t)
      ensures nodes.Keys == old(nodes.Keys) - Ids(t) + Ids(Erase(t, key)) && SameOutside(old(nodes), nodes, Ids(t))
      decreases t
    {
      ghost var h := nodes;
      RepKeys(nodes, t);
      if node == NULL {
        return node;
      }
      if key < nodes[node].key {
        r := EraseReal(key, nodes[node].left, t.left);
        ghost var l, h1 := Erase(t.left, key), nodes;
        nodes := nodes[node := nodes[node].(left := r)];
        RelinkLeft(h, h1, t, l, nodes[node]);
        r := RepairErase(node, t.(left := l));
      } else if key > nodes[node].key {
        r := EraseReal(key, nodes[node].right, t.right);
        ghost var l, h1 := Erase(t.right, key), nodes;
        nodes := nodes[node := nodes[node].(right := r)];
        RelinkRight(h, h1, t, l, nodes[node]);
        r := RepairErase(node, t.(right := l));
      } else {
        r := EraseHere(node, t);
      }
    }

    /** The node holding the key: copy the successor's key and erase that below, or hand over to the only child. */
    method EraseHere(node: Ptr, ghost t: Tree) returns (r: Ptr)
      requires Laid(nodes, t) && t.Node? && node == t.id
      modifies this`nodes
      ensures Laid(nodes, Erase(t, t.key)) && r == Id(Erase(t, t.key)) && Ids(Erase(t, t.key)) <= Ids(t)
      ensures nodes.Keys == old(nodes.Keys) - Ids(t) + Ids(Erase(t, t.key)) && SameOutside(old(nodes), nodes, Ids(t))
      decreases t, 1
    {
      RepKeys(nodes, t);
      if nodes[node].left != NULL && nodes[node].right != NULL {
        r := TakeSuccessor(node, t);
      } else {
        r := TakeOnlyChild(node, t);
      }
    }

    method TakeSuccessor(node: Ptr, ghost t: Tree) returns (r: Ptr)
      requires Laid(nodes, t) && t.Node? && node == t.id && t.left.Node? && t.right.Node?
      modifies this`nodes
      ensures Laid(nodes, Erase(t, t.key)) && r == Id(Erase(t, t.key)) && Ids(Erase(t, t.key)) <= Ids(t)
      ensures nodes.Keys == old(nodes.Keys) - Ids(t) + Ids(Erase(t, t.key)) && SameOutside(old(nodes), nodes, Ids(t))
      decreases t, 0
    {
      ghost var h := nodes;
      RepKeys(nodes, t);
      var k := Leftmost(nodes[node].right, t.right);
      nodes := nodes[node := nodes[node].(key := k)];
      RelinkLeft(h, h, t, t.left, nodes[node]);
      ghost var t1, h1 := t.(key := k), nodes;
      r := EraseReal(k, nodes[node].right, t.right);
      ghost var l, h2 := Erase(t.right, k), nodes;
      nodes := nodes[node := nodes[node].(right := r)];
      RelinkRight(h1, h2, t1, l, nodes[node]);
      r := RepairErase(node, t1.(right := l));
    }

    method TakeOnlyChild(node: Ptr, ghost t: Tree) returns (r: Ptr)
      requires Laid(nodes, t) && t.Node? && node == t.id && (t.left.Leaf? || t.right.Leaf?)
      modifies this`nodes
      ensures Laid(nodes, Erase(t, t.key)) && r == Id(Erase(t, t.key)) && Ids(Erase(t, t.key)) <= Ids(t)
      ensures nodes.Keys == old(nodes.Keys) - Ids(t) + Ids(Erase(t, t.key)) && SameOutside(old(nodes), nodes, Ids(t))
    {
      ghost var h := nodes;
      RepKeys(nodes, t);
      ghost var c := if t.left.Node? then t.left else t.right;
      r := if nodes[node].left != NULL then nodes[node].left else nodes[node].right;
      nodes := nodes - {node};
      RepAgree(h, nodes, c);
      if r != NULL {
        r := RepairErase(r, c);
      }
    }

    method InsertKey(key: int)
      requires Valid()
      modifies this
      ensures Valid() && Contents(tree) == old(Contents(tree)) + {key}
    {
      ghost var z;
      root, z := InsertReal(key, root, tree);
      InsertAvl(tree, key, z);
      InsertKeys(tree, key, z);
      tree := Insert(tree, key, z);
    }

    method EraseKey(key: int)
      requires Valid()
      modifies this
      ensures Valid() && Contents(tree) == old(Contents(tree)) - {key}
    {
      root := EraseReal(key, root, tree);
      EraseAvl(tree, key);
      EraseKeys(tree, key);
      tree := Erase(tree, key);
    }

    /** loop_find: the node holding the key, or null exactly when the key is absent. */
    method LoopFind(key: int) returns (p: Ptr)
      requires Valid()
      ensures p == NULL <==> key !in Contents(tree)
      ensures p != NULL ==> p in nodes && nodes[p].key == key
    {
      p := root;
      ghost var t := tree;
      while p != NULL && nodes[p].key != key
        invariant Laid(nodes, t) && Ordered(t) && p == Id(t)
        invariant key in Contents(t) <==> key in Contents(tree)
        decreases t
      {
        if key < nodes[p].key {
          p, t := nodes[p].left, t.left;
        } else {
          p, t := nodes[p].right, t.right;
        }
      }
    }
  }

  datatype Op = InsertOp(key: int) | EraseOp(key: int)

  function AfterOp(s: set<int>, op: Op): set<int> {
    match op
    case InsertOp(key) => s + {key}
    case EraseOp(key) => s - {key}
  }

  /** The set a run of calls should leave. */
  function AfterOps(s: set<int>, ops: seq<Op>): set<int> {
    if ops == [] then s else AfterOp(AfterOps(s, ops[..|ops| - 1]), ops[|ops| - 1])
  }

  lemma {:induction false} AfterOne(s: set<int>, ops: seq<Op>, k: nat)
    requires k < |ops|
    ensures AfterOps(s, ops[..k + 1]) == AfterOp(AfterOps(s, ops[..k]), ops[k])
  {
    assert ops[..k + 1][..k] == ops[..k];
  }

  method Call(t: AVL, op: Op)
    requires t.Valid()
    modifies t
    ensures t.Valid() && Contents(t.tree) == AfterOp(old(Contents(t.tree)), op)
  {
    match op
    case InsertOp(key) => t.InsertKey(key);
    case EraseOp(key) => t.EraseKey(key);
  }

  /** The last call about the key inserts it, or no call is about it and it was there before. */
  ghost predicate Remains(s: set<int>, ops: seq<Op>, k: int) {
    || (exists i :: 0 <= i < |ops| && ops[i] == InsertOp(k) && Untouched(ops, i + 1, k))
    || (k in s && Untouched(ops, 0, k))
  }

  /** No call from position `i` on is about the key. */
  ghost predicate Untouched(ops: seq<Op>, i: nat, k: int) {
    forall j :: i <= j < |ops| ==> ops[j].key != k
  }

  /** The set after a run, from the calls alone. */
  lemma {:induction false} AfterOpsIff(s: set<int>, ops: seq<Op>, k: int)
    ensures k in AfterOps(s, ops) <==> Remains(s, ops, k)
  {
    if ops == [] {
    } else {
      var n := |ops| - 1;
      AfterOpsIff(s, ops[..n], k);
      RemainsStep(s, ops, k);
    }
  }

  lemma RemainsStep(s: set<int>, ops: seq<Op>, k: int)
    requires ops != []
    ensures var n := |ops| - 1;
            Remains(s, ops, k) <==> if ops[n].key == k then ops[n].InsertOp? else Remains(s, ops[..n], k)
  {
    var n := |ops| - 1;
    if ops[n].key == k {
      forall i | 0 <= i < n && ops[i] == InsertOp(k) ensures !Untouched(ops, i + 1, k) {
        assert ops[n].key == k;
      }
      assert Untouched(ops, n + 1, k);
    } else {
      assert forall i: nat :: Untouched(ops, i, k) <==> Untouched(ops[..n], i, k);
      if i :| 0 <= i < n && ops[..n][i] == InsertOp(k) && Untouched(ops[..n], i + 1, k) {
        assert ops[i] == InsertOp(k);
      }
    }
  }

  /** The loop over the calls. */
  method CallAll(t: AVL, ops: seq<Op>)
    requires t.Valid()
    modifies t
    ensures t.Valid() && Contents(t.tree) == AfterOps(old(Contents(t.tree)), ops)
  {
    ghost var before := Contents(t.tree);
    for k := 0 to |ops|
      invariant t.Valid() && Contents(t.tree) == AfterOps(before, ops[..k])
    {
      AfterOne(before, ops, k);
      Call(t, ops[k]);
    }
    assert ops[..|ops|] == ops;
  }

  /** Any run: true cached heights, balance, strict order, the exact set of keys, and the Fibonacci size bound. */
  method Run(t: AVL, ops: seq<Op>)
    requires t.Valid()
    modifies t
    ensures t.Valid() && WellShaped(t.tree)
    ensures forall k :: k in Contents(t.tree) <==> Remains(old(Contents(t.tree)), ops, k)
  {
    ghost var before := Contents(t.tree);
    CallAll(t, ops);
    forall k ensures k in Contents(t.tree) <==> Remains(before, ops, k) {
      AfterOpsIff(before, ops, k);
    }
    ShapeFacts(t.tree);
  }

  /** True cached height, strictly increasing keys, and at least Fib(h + 2) - 1 of them. */
  ghost predicate WellShaped(t: Tree) {
    Cached(t) == Height(t) && Increasing(InOrder(t)) && Enough(|Contents(t)|, Height(t))
  }

  ghost predicate Enough(n: nat, h: nat) {
    n + 1 >= Fib(h + 2)
  }

  /** What the invariant says about the shape of the tree. */
  lemma ShapeFacts(t: Tree)
    requires AvlTree.Avl(t) && Ordered(t)
    ensures WellShaped(t)
  {
    CachedIsHeight(t);
    InOrderIncreasing(t);
    SizeBound(t);
  }
}
