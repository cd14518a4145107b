/**
 AVL trees with cached heights as values: the rebalancing of cpp/tree/avl2.cpp as functions, what each
 step keeps, and why insertion never meets the one imbalance it does not handle.
 */
module AvlTree {
  import opened Memory
  import opened Sequences

  datatype Tree = Leaf | Node(id: Ptr, key: int, height: nat, left: Tree, right: Tree)

  /** get_height: the cached height. */
  function Cached(t: Tree): nat {
    if t.Leaf? then 0 else t.height
  }

  /** get_balance: left minus right. */
  function Balance(t: Tree): int {
    if t.Leaf? then 0 else Cached(t.left) - Cached(t.right)
  }

  function Refresh(t: Tree): Tree
    requires t.Node?
  {
    t.(height := Max(Cached(t.left), Cached(t.right)) + 1)
  }

  function LlRotate(y: Tree): Tree
    requires y.Node? && y.left.Node?
  {
    var x := y.left;
    Refresh(x.(right := Refresh(y.(left := x.right))))
  }

  function RrRotate(y: Tree): Tree
    requires y.Node? && y.right.Node?
  {
    var x := y.right;
    Refresh(x.(left := Refresh(y.(right := x.left))))
  }

  function LrRotate(y: Tree): Tree
    requires y.Node? && y.left.Node? && y.left.right.Node?
  {
    LlRotate(y.(left := RrRotate(y.left)))
  }

  function RlRotate(y: Tree): Tree
    requires y.Node? && y.right.Node? && y.right.left.Node?
  {
    RrRotate(y.(right := LlRotate(y.right)))
  }

  /** The end of insert_real: refresh the height and rotate if one of its four cases applies. */
  function FixInsert(t: Tree): Tree
    requires t.Node?
  {
    var n := Refresh(t);
    if Balance(n) > 1 && Balance(n.left) > 0 then LlRotate(n)
    else if Balance(n) < -1 && Balance(n.right) < 0 then RrRotate(n)
    else if Balance(n) > 1 && Balance(n.left) < 0 then LrRotate(n)
    else if Balance(n) < -1 && Balance(n.right) > 0 then RlRotate(n)
    else n
  }

  /** The end of erase_real, where the first two cases also take a child of balance zero. */
  function FixErase(t: Tree): Tree
    requires t.Node?
  {
    var n := Refresh(t);
    if Balance(n) > 1 && Balance(n.left) >= 0 then LlRotate(n)
    else if Balance(n) < -1 && Balance(n.right) <= 0 then RrRotate(n)
    else if Balance(n) > 1 && Balance(n.left) < 0 then LrRotate(n)
    else if Balance(n) < -1 && Balance(n.right) > 0 then RlRotate(n)
    else n
  }

  /** insert_real; `z` is the address of the node it creates when the key is absent. */
  function Insert(t: Tree, key: int, z: Ptr): Tree {
    if t.Leaf? then Node(z, key, 1, Leaf, Leaf)
    else if key < t.key then FixInsert(t.(left := Insert(t.left, key, z)))
    else if key > t.key then FixInsert(t.(right := Insert(t.right, key, z)))
    else t
  }

  function MinKey(t: Tree): int
    requires t.Node?
  {
    if t.left.Leaf? then t.key else MinKey(t.left)
  }

  /** erase_real: a node with two children takes its successor's key, which is then erased below. */
  function Erase(t: Tree, key: int): Tree {
    if t.Leaf? then t
    else if key < t.key then FixErase(t.(left := Erase(t.left, key)))
    else if key > t.key then FixErase(t.(right := Erase(t.right, key)))
    else if t.left.Node? && t.right.Node? then
      var k := MinKey(t.right);
      FixErase(t.(key := k, right := Erase(t.right, k)))
    else
      var c := if t.left.Node? then t.left else t.right;
      if c.Leaf? then Leaf else FixErase(c)
  }

  // ----- Heights and balance -----

  function Height(t: Tree): nat {
    if t.Leaf? then 0 else 1 + Max(Height(t.left), Height(t.right))
  }

  /** Cached heights are the true heights and every balance is in -1..1. */
  predicate Avl(t: Tree) {
    t.Node? ==>
      && t.height == Max(Cached(t.left), Cached(t.right)) + 1
      && -1 <= Balance(t) <= 1
      && Avl(t.left) && Avl(t.right)
  }

  lemma {:induction false} CachedIsHeight(t: Tree)
    requires Avl(t)
    ensures Cached(t) == Height(t)
  {
    if t.Leaf? {
    } else {
      CachedIsHeight(t.left);
      CachedIsHeight(t.right);
    }
  }

  /** One insertion below: heights grow by at most one, and a grown subtree leans to one side. */
  predicate GrownFrom(t: Tree, t': Tree) {
    && Avl(t') && t'.Node? && Cached(t) <= Cached(t') <= Cached(t) + 1
    && (Cached(t') > Cached(t) ==> t.Leaf? || Balance(t') != 0)
  }

  /** insert_real's four cases cover every imbalance an insertion can cause. */
  predicate Handled(n: Tree) {
    n.Node? ==> (Balance(n) > 1 ==> Balance(n.left) != 0) && (Balance(n) < -1 ==> Balance(n.right) != 0)
  }

  lemma {:induction false} FixInsertLeft(t: Tree, l: Tree)
    requires t.Node? && Avl(t) && GrownFrom(t.left, l)
    ensures Handled(Refresh(t.(left := l)))
    ensures GrownFrom(t, FixInsert(t.(left := l)))
  {
    var n := Refresh(t.(left := l));
    assert Avl(l) && Avl(t.right) && -1 <= Balance(l) <= 1;
    if Balance(n) > 1 {
      assert Balance(n) == 2 && Balance(l) != 0 && Cached(t) == Cached(t.right) + 2;
      if Balance(l) > 0 {
        LlAvl(n);
      } else {
        LrAvl(n);
      }
    }
  }

  lemma {:induction false} FixInsertRight(t: Tree, r: Tree)
    requires t.Node? && Avl(t) && GrownFrom(t.right, r)
    ensures Handled(Refresh(t.(right := r)))
    ensures GrownFrom(t, FixInsert(t.(right := r)))
  {
    var n := Refresh(t.(right := r));
    assert Avl(r) && Avl(t.left) && -1 <= Balance(r) <= 1;
    if Balance(n) < -1 {
      assert Balance(n) == -2 && Balance(r) != 0 && Cached(t) == Cached(t.left) + 2;
      if Balance(r) < 0 {
        RrAvl(n);
      } else {
        RlAvl(n);
      }
    }
  }

  lemma {:induction false} InsertAvl(t: Tree, key: int, z: Ptr)
    requires Avl(t)
    ensures GrownFrom(t, Insert(t, key, z))
    ensures t.Node? && key < t.key ==> Handled(Refresh(t.(left := Insert(t.left, key, z))))
    ensures t.Node? && key > t.key ==> Handled(Refresh(t.(right := Insert(t.right, key, z))))
  {
    if t.Leaf? {
    } else {
      if key < t.key {
        InsertAvl(t.left, key, z);
        FixInsertLeft(t, Insert(t.left, key, z));
      } else if key > t.key {
        InsertAvl(t.right, key, z);
        FixInsertRight(t, Insert(t.right, key, z));
      }
    }
  }

  /** One erasure below: the height shrinks by at most one. */
  predicate ShrunkFrom(t: Tree, t': Tree) {
    Avl(t') && Cached(t') <= Cached(t) <= Cached(t') + 1
  }

  lemma LlAvl(n: Tree)
    requires n.Node? && Avl(n.left) && Avl(n.right) && Balance(n) == 2 && Balance(n.left) >= 0
    ensures Avl(LlRotate(n)) && Cached(LlRotate(n)) == Cached(n.left) + (if Balance(n.left) == 0 then 1 else 0)
  {
  }

  lemma RrAvl(n: Tree)
    requires n.Node? && Avl(n.left) && Avl(n.right) && Balance(n) == -2 && Balance(n.right) <= 0
    ensures Avl(RrRotate(n)) && Cached(RrRotate(n)) == Cached(n.right) + (if Balance(n.right) == 0 then 1 else 0)
  {
  }

  lemma LrAvl(n: Tree)
    requires n.Node? && Avl(n.left) && Avl(n.right) && Balance(n) == 2 && Balance(n.left) < 0
    ensures Avl(LrRotate(n)) && Cached(LrRotate(n)) == Cached(n.left)
  {
    var l, m := n.left, n.left.right;
    assert Avl(m) && Avl(m.left) && Avl(m.right);
    assert Avl(Refresh(l.(right := m.left)));
    assert Avl(Refresh(n.(left := m.right)));
  }

  lemma RlAvl(n: Tree)
    requires n.Node? && Avl(n.left) && Avl(n.right) && Balance(n) == -2 && Balance(n.right) > 0
    ensures Avl(RlRotate(n)) && Cached(RlRotate(n)) == Cached(n.right)
  {
    var r, m := n.right, n.right.left;
    assert Avl(m) && Avl(m.left) && Avl(m.right);
    assert Avl(Refresh(r.(left := m.right)));
    assert Avl(Refresh(n.(right := m.left)));
  }

  /** The height after the repair: an imbalance is rotated away, at the price of a level unless the child is even. */
  function RepairedHeight(l: Tree, r: Tree): nat {
    if Cached(l) - Cached(r) == 2 && Balance(l) != 0 then Cached(l)
    else if Cached(r) - Cached(l) == 2 && Balance(r) != 0 then Cached(r)
    else Max(Cached(l), Cached(r)) + 1
  }

  /** FixErase repairs any node whose subtrees are AVL and differ by at most two. */
  lemma FixEraseAvl(t: Tree)
    requires t.Node? && Avl(t.left) && Avl(t.right) && -2 <= Balance(t) <= 2
    ensures Avl(FixErase(t)) && Cached(FixErase(t)) == RepairedHeight(t.left, t.right)
  {
    var n := Refresh(t);
    if Balance(n) > 1 && Balance(n.left) >= 0 {
      LlAvl(n);
    } else if Balance(n) < -1 && Balance(n.right) <= 0 {
      RrAvl(n);
    } else if Balance(n) > 1 {
      LrAvl(n);
    } else if Balance(n) < -1 {
      RlAvl(n);
    }
  }

  /** Erasing the key lowers the height, read off the tree before: the removed node, or a path of leaning nodes. */
  predicate Shrinks(t: Tree, key: int) {
    if t.Leaf? then false
    else if key < t.key then Shrinks(t.left, key) && LosesLevel(Balance(t), t.right)
    else if key > t.key then Shrinks(t.right, key) && LosesLevel(-Balance(t), t.left)
    else if t.left.Node? && t.right.Node? then
      Shrinks(t.right, MinKey(t.right)) && LosesLevel(-Balance(t), t.left)
    else true
  }

  /** A node leaning by `lean` towards the side that shrinks gets lower; `other` is its other child. */
  predicate LosesLevel(lean: int, other: Tree) {
    lean == 1 || (lean == -1 && Balance(other) != 0)
  }

  // The repair above a left subtree, a right subtree (and possibly a new key), or an only child that shrank.

  lemma {:induction false} ShrunkLeft(t: Tree, l: Tree)
    requires t.Node? && Avl(t) && ShrunkFrom(t.left, l)
    ensures ShrunkFrom(t, FixErase(t.(left := l)))
    ensures Cached(FixErase(t.(left := l))) < Cached(t) <==>
            Cached(l) < Cached(t.left) && LosesLevel(Balance(t), t.right)
  {
    FixEraseAvl(t.(left := l));
  }

  lemma {:induction false} ShrunkRight(t: Tree, k: int, r: Tree)
    requires t.Node? && Avl(t) && ShrunkFrom(t.right, r)
    ensures ShrunkFrom(t, FixErase(t.(key := k, right := r)))
    ensures Cached(FixErase(t.(key := k, right := r))) < Cached(t) <==>
            Cached(r) < Cached(t.right) && LosesLevel(-Balance(t), t.left)
  {
    FixEraseAvl(t.(key := k, right := r));
  }

  lemma {:induction false} ShrunkOnly(t: Tree, c: Tree)
    requires t.Node? && Avl(t) && (t.left.Leaf? || t.right.Leaf?) && c.Node? && (c == t.left || c == t.right)
    ensures ShrunkFrom(t, FixErase(c)) && Cached(FixErase(c)) < Cached(t)
  {
    assert Avl(c);
    FixEraseAvl(c);
  }

  lemma {:induction false} EraseAvl(t: Tree, key: int)
    requires Avl(t)
    ensures ShrunkFrom(t, Erase(t, key))
    ensures Cached(Erase(t, key)) < Cached(t) <==> Shrinks(t, key)
  {
    if t.Leaf? {
    } else if key < t.key {
      EraseAvl(t.left, key);
      ShrunkLeft(t, Erase(t.left, key));
    } else if key > t.key {
      EraseAvl(t.right, key);
      ShrunkRight(t, t.key, Erase(t.right, key));
      assert t.(key := t.key, right := Erase(t.right, key)) == t.(right := Erase(t.right, key));
    } else if t.left.Node? && t.right.Node? {
      EraseAvl(t.right, MinKey(t.right));
      ShrunkRight(t, MinKey(t.right), Erase(t.right, MinKey(t.right)));
    } else if t.left.Node? || t.right.Node? {
      ShrunkOnly(t, if t.left.Node? then t.left else t.right);
    }
  }

  /** Insertion's four tests do what erasure's do where they apply; otherwise the node stays unbalanced. */
  lemma NarrowTests(t: Tree)
    requires t.Node? && Avl(t.left) && Avl(t.right) && -2 <= Balance(t) <= 2
    ensures Avl(FixInsert(t)) <==> Handled(Refresh(t))
  {
    FixEraseAvl(t);
    assert Handled(Refresh(t)) ==> FixInsert(t) == FixErase(t);
    assert !Handled(Refresh(t)) ==> FixInsert(t) == Refresh(t);
  }

  /**
   Exactly when erasing on the right meets an imbalance whose higher child has balance 0; there, and only there,
   insertion's tests would leave an unbalanced tree. With the successor's key this covers the erased root too.
   */
  lemma EraseMeetsZeroBalance(t: Tree, key: int)
    requires Avl(t) && t.Node?
    ensures var n := t.(right := Erase(t.right, key));
            var evenLeft := Balance(t) == 1 && Balance(t.left) == 0 && Shrinks(t.right, key);
            (!Handled(Refresh(n)) <==> evenLeft) && (!Avl(FixInsert(n)) <==> evenLeft)
  {
    EraseAvl(t.right, key);
    NarrowTests(t.(right := Erase(t.right, key)));
  }

  /** The same on the left. */
  lemma EraseMeetsZeroBalanceLeft(t: Tree, key: int)
    requires Avl(t) && t.Node?
    ensures var n := t.(left := Erase(t.left, key));
            var evenRight := Balance(t) == -1 && Balance(t.right) == 0 && Shrinks(t.left, key);
            (!Handled(Refresh(n)) <==> evenRight) && (!Avl(FixInsert(n)) <==> evenRight)
  {
    EraseAvl(t.left, key);
    NarrowTests(t.(left := Erase(t.left, key)));
  }

  /** Such trees exist: insertion's tests would leave this one unbalanced. */
  lemma ZeroBalanceExample(k: int, ids: seq<Ptr>)
    requires |ids| == 5
    ensures var l := Node(ids[1], k + 1, 2, Single(ids[2], k), Single(ids[3], k + 2));
            var t := Node(ids[0], k + 3, 3, l, Single(ids[4], k + 4));
            Avl(t) && Ordered(t) && !Avl(FixInsert(t.(right := Erase(t.right, k + 4))))
  {
    var l := Node(ids[1], k + 1, 2, Single(ids[2], k), Single(ids[3], k + 2));
    assert Ordered(l) && Contents(l) == {k, k + 1, k + 2};
    EraseMeetsZeroBalance(Node(ids[0], k + 3, 3, l, Single(ids[4], k + 4)), k + 4);
  }

  function Single(id: Ptr, key: int): (t: Tree)
    ensures t.Node? && t.key == key && Cached(t) == 1 && Avl(t) && Ordered(t) && Contents(t) == {key}
            && Erase(t, key) == Leaf
  {
    Node(id, key, 1, Leaf, Leaf)
  }

  // ----- Keys -----

  function Contents(t: Tree): set<int> {
    if t.Leaf? then {} else Contents(t.left) + {t.key} + Contents(t.right)
  }

  ghost predicate Ordered(t: Tree) {
    t.Node? ==>
      && (forall k :: k in Contents(t.left) ==> k < t.key)
      && (forall k :: k in Contents(t.right) ==> t.key < k)
      && Ordered(t.left) && Ordered(t.right)
  }

  // The four rotations keep keys and order; so do both repairs.

  lemma {:induction false} RotationsKeepKeys(y: Tree)
    requires y.Node? && Ordered(y)
    ensures y.left.Node? ==> Contents(LlRotate(y)) == Contents(y) && Ordered(LlRotate(y))
    ensures y.right.Node? ==> Contents(RrRotate(y)) == Contents(y) && Ordered(RrRotate(y))
  {
    if y.left.Node? {
      var x, n := y.left, Refresh(y.(left := y.left.right));
      assert Contents(x) == Contents(x.left) + {x.key} + Contents(x.right) && Ordered(x);
      assert Contents(n) == Contents(x.right) + {y.key} + Contents(y.right);
      assert Contents(x.right) <= Contents(y.left) && Ordered(n);
    }
    if y.right.Node? {
      var x, n := y.right, Refresh(y.(right := y.right.left));
      assert Contents(x) == Contents(x.left) + {x.key} + Contents(x.right) && Ordered(x);
      assert Contents(n) == Contents(y.left) + {y.key} + Contents(x.left);
      assert Contents(x.left) <= Contents(y.right) && Ordered(n);
    }
  }

  lemma DoubleRotationsKeepKeys(y: Tree)
    requires y.Node? && Ordered(y)
    ensures y.left.Node? && y.left.right.Node? ==> Contents(LrRotate(y)) == Contents(y) && Ordered(LrRotate(y))
    ensures y.right.Node? && y.right.left.Node? ==> Contents(RlRotate(y)) == Contents(y) && Ordered(RlRotate(y))
  {
    if y.left.Node? && y.left.right.Node? {
      RotationsKeepKeys(y.left);
      RotationsKeepKeys(y.(left := RrRotate(y.left)));
    }
    if y.right.Node? && y.right.left.Node? {
      RotationsKeepKeys(y.right);
      RotationsKeepKeys(y.(right := LlRotate(y.right)));
    }
  }

  lemma FixKeepsKeys(t: Tree)
    requires t.Node? && Ordered(t)
    ensures Contents(FixInsert(t)) == Contents(t) && Ordered(FixInsert(t))
    ensures Contents(FixErase(t)) == Contents(t) && Ordered(FixErase(t))
  {
    RotationsKeepKeys(Refresh(t));
    DoubleRotationsKeepKeys(Refresh(t));
  }

  lemma {:induction false} InsertKeys(t: Tree, key: int, z: Ptr)
    requires Ordered(t)
    ensures Contents(Insert(t, key, z)) == Contents(t) + {key} && Ordered(Insert(t, key, z))
  {
    if t.Leaf? {
    } else {
      if key < t.key {
        InsertKeys(t.left, key, z);
        FixKeepsKeys(t.(left := Insert(t.left, key, z)));
      } else if key > t.key {
        InsertKeys(t.right, key, z);
        FixKeepsKeys(t.(right := Insert(t.right, key, z)));
      }
    }
  }

  lemma {:induction false} MinKeyLeast(t: Tree)
    requires t.Node? && Ordered(t)
    ensures MinKey(t) in Contents(t) && forall k :: k in Contents(t) ==> MinKey(t) <= k
  {
    if t.left.Node? {
      MinKeyLeast(t.left);
    }
  }

  // Erasing below the root, or the successor in its place, from what happened to the subtree.

  lemma ErasedLeft(t: Tree, l: Tree, key: int)
    requires t.Node? && Ordered(t) && key < t.key && Ordered(l) && Contents(l) == Contents(t.left) - {key}
    ensures var n := t.(left := l); Ordered(n) && Contents(n) == Contents(t) - {key}
  {
  }

  lemma ErasedRight(t: Tree, r: Tree, key: int)
    requires t.Node? && Ordered(t) && key > t.key && Ordered(r) && Contents(r) == Contents(t.right) - {key}
    ensures var n := t.(right := r); Ordered(n) && Contents(n) == Contents(t) - {key}
  {
  }

  lemma ErasedRoot(t: Tree, r: Tree)
    requires t.Node? && t.right.Node? && Ordered(t) && Ordered(r)
             && Contents(r) == Contents(t.right) - {MinKey(t.right)}
    ensures var n := t.(key := MinKey(t.right), right := r); Ordered(n) && Contents(n) == Contents(t) - {t.key}
  {
    MinKeyLeast(t.right);
  }

  lemma OnlyChildKeys(t: Tree, c: Tree)
    requires t.Node? && Ordered(t) && (t.left.Leaf? || t.right.Leaf?) && c == if t.left.Node? then t.left else t.right
    ensures Ordered(c) && Contents(c) == Contents(t) - {t.key}
  {
  }

  lemma {:induction false} EraseKeys(t: Tree, key: int)
    requires Ordered(t)
    ensures Contents(Erase(t, key)) == Contents(t) - {key} && Ordered(Erase(t, key))
  {
    if t.Leaf? {
    } else {
      if key < t.key {
        EraseKeys(t.left, key);
        ErasedLeft(t, Erase(t.left, key), key);
        FixKeepsKeys(t.(left := Erase(t.left, key)));
      } else if key > t.key {
        EraseKeys(t.right, key);
        ErasedRight(t, Erase(t.right, key), key);
        FixKeepsKeys(t.(right := Erase(t.right, key)));
      } else if t.left.Node? && t.right.Node? {
        var k := MinKey(t.right);
        EraseKeys(t.right, k);
        ErasedRoot(t, Erase(t.right, k));
        FixKeepsKeys(t.(key := k, right := Erase(t.right, k)));
      } else {
        var c := if t.left.Node? then t.left else t.right;
        OnlyChildKeys(t, c);
        if c.Node? {
          FixKeepsKeys(c);
        }
      }
    }
  }

  function InOrder(t: Tree): seq<int> {
    if t.Leaf? then [] else InOrder(t.left) + [t.key] + InOrder(t.right)
  }

  lemma JoinIncreasing(l: seq<int>, k: int, r: seq<int>)
    requires Increasing(l) && Increasing(r)
    requires (forall x :: x in l ==> x < k) && (forall x :: x in r ==> k < x)
    ensures Increasing(l + [k] + r)
  {
    var s := l + [k] + r;
    forall i, j | 0 <= i < j < |s| ensures s[i] < s[j] {
      assert i < |l| ==> s[i] == l[i] && s[i] in l;
      assert j > |l| ==> s[j] == r[j - |l| - 1] && s[j] in r;
      assert i > |l| ==> s[i] == r[i - |l| - 1];
    }
  }

  /** Ordered trees list their keys in strictly increasing order. */
  lemma {:induction false} InOrderIncreasing(t: Tree)
    requires Ordered(t)
    ensures Increasing(InOrder(t))
    ensures forall k :: k in InOrder(t) <==> k in Contents(t)
    ensures |InOrder(t)| == |Contents(t)|
  {
    if t.Leaf? {
    } else {
      InOrderIncreasing(t.left);
      InOrderIncreasing(t.right);
      JoinIncreasing(InOrder(t.left), t.key, InOrder(t.right));
      JoinSize(Contents(t.left), t.key, Contents(t.right));
    }
  }

  lemma JoinSize(l: set<int>, k: int, r: set<int>)
    requires (forall x :: x in l ==> x < k) && (forall x :: x in r ==> k < x)
    ensures |l + {k} + r| == |l| + 1 + |r|
  {
    assert k !in l;
    assert |l + {k}| == |l| + 1;
    forall x | x in l + {k} ensures x !in r {
    }
    assert (l + {k}) !! r;
  }

  // ----- Size -----

  function Fib(n: nat): nat {
    if n < 2 then n else Fib(n - 1) + Fib(n - 2)
  }

  lemma {:induction false} FibMonotone(n: nat)
    ensures Fib(n) <= Fib(n + 1)
  {
    if n >= 2 {
      FibMonotone(n - 1);
      FibMonotone(n - 2);
    }
  }

  /** An AVL tree of height h has at least Fib(h + 2) - 1 nodes. */
  lemma {:induction false} SizeBound(t: Tree)
    requires Avl(t)
    ensures |InOrder(t)| + 1 >= Fib(Height(t) + 2)
  {
    if t.Leaf? {
    } else {
      SizeBound(t.left);
      SizeBound(t.right);
      CachedIsHeight(t);
      CachedIsHeight(t.left);
      CachedIsHeight(t.right);
      var h := Height(t);
      assert h >= 1 && Fib(h + 2) == Fib(h + 1) + Fib(h);
      var a, b := Height(t.left), Height(t.right);
      assert a == h - 1 || b == h - 1;
      if a != b {
        assert (a == h - 1 && b == h - 2) || (a == h - 2 && b == h - 1);
      } else {
        FibMonotone(h);
      }
    }
  }
}
