/**
 Red-black trees as values: trees whose nodes carry their address, and paths (zippers) that play the
 part of the parent chain above a node. The order of keys, the colour rules and the black heights are
 all stated here; RbHeap relates these values to nodes with left/right/parent fields.
 */
module RbTree {
  import opened Memory
  import opened Sequences

  datatype Color = Red | Black

  datatype Item = Item(id: Ptr, key: int)

  datatype Tree = Leaf | Node(id: Ptr, color: Color, key: int, left: Tree, right: Tree)

  datatype Side = L | R

  /** The way from a subtree to the root: on which side of its parent it hangs, the parent, its sibling. */
  datatype Path = Top | Frame(side: Side, id: Ptr, color: Color, key: int, sibling: Tree, up: Path)

  function Id(t: Tree): Ptr {
    if t.Leaf? then NULL else t.id
  }

  function PathId(p: Path): Ptr {
    if p.Top? then NULL else p.id
  }

  /** A node whose subtree on `side` is `near` and whose other subtree is `far`. */
  function Make(side: Side, id: Ptr, color: Color, key: int, near: Tree, far: Tree): Tree {
    if side.L? then Node(id, color, key, near, far) else Node(id, color, key, far, near)
  }

  function Opposite(side: Side): Side {
    if side.L? then R else L
  }

  function Zip(p: Path, t: Tree): Tree
    decreases p
  {
    if p.Top? then t else Zip(p.up, Make(p.side, p.id, p.color, p.key, t, p.sibling))
  }

  function PathLen(p: Path): nat {
    if p.Top? then 0 else 1 + PathLen(p.up)
  }

  function Append(p: Path, q: Path): Path {
    if p.Top? then q else p.(up := Append(p.up, q))
  }

  lemma {:induction false} ZipAppend(p: Path, q: Path, t: Tree)
    ensures Zip(Append(p, q), t) == Zip(q, Zip(p, t))
    decreases p
  {
    if p.Frame? {
      ZipAppend(p.up, q, Make(p.side, p.id, p.color, p.key, t, p.sibling));
    }
  }

  /** Every step of the path goes to a left child. */
  predicate OnlyLeft(p: Path) {
    p.Frame? ==> p.side.L? && OnlyLeft(p.up)
  }

  // ----- Order -----

  function InOrder(t: Tree): seq<Item> {
    if t.Leaf? then [] else InOrder(t.left) + [Item(t.id, t.key)] + InOrder(t.right)
  }

  /** What precedes, in order, the subtree the path leads to. */
  function Before(p: Path): seq<Item> {
    if p.Top? then []
    else if p.side.L? then Before(p.up)
    else Before(p.up) + InOrder(p.sibling) + [Item(p.id, p.key)]
  }

  function After(p: Path): seq<Item> {
    if p.Top? then []
    else if p.side.R? then After(p.up)
    else [Item(p.id, p.key)] + InOrder(p.sibling) + After(p.up)
  }

  lemma {:induction false} ZipInOrder(p: Path, t: Tree)
    ensures InOrder(Zip(p, t)) == Before(p) + InOrder(t) + After(p)
    decreases p
  {
    if p.Frame? {
      ZipInOrder(p.up, Make(p.side, p.id, p.color, p.key, t, p.sibling));
    }
  }

  lemma {:induction false} AppendInOrder(p: Path, q: Path)
    ensures Before(Append(p, q)) == Before(q) + Before(p)
    ensures After(Append(p, q)) == After(p) + After(q)
  {
    if p.Frame? {
      AppendInOrder(p.up, q);
    }
  }

  ghost predicate SortedByKey(s: seq<Item>) {
    forall i, j :: 0 <= i < j < |s| ==> s[i].key <= s[j].key
  }

  /** Every key before the path's hole is at most `key`, every key after it is greater. */
  ghost predicate Splits(p: Path, key: int) {
    AllAtMost(Before(p), key) && AllGreater(After(p), key)
  }

  function Down(side: Side, p: Path, t: Tree): Path
    requires t.Node?
  {
    Frame(side, t.id, t.color, t.key, if side.L? then t.right else t.left, p)
  }

  ghost predicate AllAtMost(s: seq<Item>, key: int) {
    forall i :: 0 <= i < |s| ==> s[i].key <= key
  }

  ghost predicate AllGreater(s: seq<Item>, key: int) {
    forall i :: 0 <= i < |s| ==> key < s[i].key
  }

  /** One comparison of the descent keeps the split. */
  lemma SplitsDown(p: Path, t: Tree, key: int)
    requires t.Node? && SortedByKey(InOrder(Zip(p, t))) && Splits(p, key)
    ensures Splits(Down(if key < t.key then L else R, p, t), key)
  {
    var a, b := Before(p), After(p);
    ZipInOrder(p, t);
    SortedAround(a, InOrder(t.left), Item(t.id, t.key), InOrder(t.right), b, key);
  }

  lemma SortedAround(a: seq<Item>, l: seq<Item>, x: Item, r: seq<Item>, b: seq<Item>, key: int)
    requires SortedByKey(a + (l + [x] + r) + b)
    ensures key < x.key ==> AllGreater([x] + r + b, key)
    ensures x.key <= key ==> AllAtMost(a + l + [x], key)
  {
    var s, m := a + (l + [x] + r) + b, |a| + |l|;
    assert [x] + r + b == s[m..];
    assert a + l + [x] == s[..m + 1];
    assert s[m] == x;
  }

  /** Hanging a leaf at the split places its key in order and moves nothing else. */
  lemma InsertedOrder(p: Path, key: int, z: Ptr)
    requires Splits(p, key) && SortedByKey(InOrder(Zip(p, Leaf)))
    ensures var s, i := InOrder(Zip(p, Leaf)), |Before(p)|;
            && i <= |s| && s[..i] == Before(p) && s[i..] == After(p)
            && InOrder(Zip(p, Node(z, Red, key, Leaf, Leaf))) == s[..i] + [Item(z, key)] + s[i..]
    ensures SortedByKey(InOrder(Zip(p, Node(z, Red, key, Leaf, Leaf))))
  {
    ZipInOrder(p, Leaf);
    ZipInOrder(p, Node(z, Red, key, Leaf, Leaf));
    SortedInsert(Before(p), Item(z, key), After(p));
  }

  lemma SortedInsert(a: seq<Item>, x: Item, b: seq<Item>)
    requires SortedByKey(a + b) && AllAtMost(a, x.key) && AllGreater(b, x.key)
    ensures SortedByKey(a + [x] + b)
  {
    var s, s', k := a + b, a + [x] + b, |a|;
    forall i, j | 0 <= i < j < |s'| ensures s'[i].key <= s'[j].key {
      assert i < k ==> s'[i] == s[i];
      assert k < i ==> s'[i] == s[i - 1];
      assert j < k ==> s'[j] == s[j];
      assert k < j ==> s'[j] == s[j - 1];
    }
  }

  // ----- Colours and black heights -----

  predicate IsRed(t: Tree) {
    t.Node? && t.color == Red
  }

  predicate PathRed(p: Path) {
    p.Frame? && p.color == Red
  }

  function Ink(c: Color): nat {
    if c == Black then 1 else 0
  }

  /** Black nodes on the leftmost way down; on every way down when the tree is Balanced. */
  function BlackHeight(t: Tree): nat {
    if t.Leaf? then 0 else BlackHeight(t.left) + Ink(t.color)
  }

  predicate Balanced(t: Tree) {
    t.Node? ==> BlackHeight(t.left) == BlackHeight(t.right) && Balanced(t.left) && Balanced(t.right)
  }

  predicate NoRedRed(t: Tree) {
    t.Node? ==>
      && (t.color == Red ==> !IsRed(t.left) && !IsRed(t.right))
      && NoRedRed(t.left) && NoRedRed(t.right)
  }

  /** The red-black rules: black root, no red node with a red child, equal black heights. */
  predicate RedBlack(t: Tree) {
    !IsRed(t) && NoRedRed(t) && Balanced(t)
  }

  /** The path is balanced around a hole of black height `bh`. */
  predicate PathBalanced(p: Path, bh: nat) {
    p.Frame? ==>
      && Balanced(p.sibling) && BlackHeight(p.sibling) == bh
      && PathBalanced(p.up, bh + Ink(p.color))
  }

  predicate PathNoRedRed(p: Path) {
    p.Frame? ==>
      && NoRedRed(p.sibling)
      && (p.color == Red ==> !IsRed(p.sibling) && !PathRed(p.up))
      && PathNoRedRed(p.up)
  }

  /** The outermost node of the path, the root, is black. */
  predicate RootBlack(p: Path) {
    p.Frame? ==> if p.up.Top? then p.color == Black else RootBlack(p.up)
  }

  lemma {:induction false} ZipBalanced(p: Path, t: Tree)
    ensures Balanced(Zip(p, t)) <==> Balanced(t) && PathBalanced(p, BlackHeight(t))
    decreases p
  {
    if p.Frame? {
      var n := Make(p.side, p.id, p.color, p.key, t, p.sibling);
      ZipBalanced(p.up, n);
      if Balanced(n) {
        assert BlackHeight(n) == BlackHeight(t) + Ink(p.color);
      }
    }
  }

  lemma {:induction false} ZipNoRedRed(p: Path, t: Tree)
    ensures NoRedRed(Zip(p, t)) <==> NoRedRed(t) && PathNoRedRed(p) && !(IsRed(t) && PathRed(p))
    decreases p
  {
    if p.Frame? {
      ZipNoRedRed(p.up, Make(p.side, p.id, p.color, p.key, t, p.sibling));
    }
  }

  lemma {:induction false} ZipRootBlack(p: Path, t: Tree)
    ensures !IsRed(Zip(p, t)) <==> if p.Top? then !IsRed(t) else RootBlack(p)
    decreases p
  {
    if p.Frame? {
      ZipRootBlack(p.up, Make(p.side, p.id, p.color, p.key, t, p.sibling));
    }
  }

  // ----- Height -----

  function Height(t: Tree): nat {
    if t.Leaf? then 0 else 1 + Max(Height(t.left), Height(t.right))
  }

  function Pow2(n: nat): nat {
    if n == 0 then 1 else 2 * Pow2(n - 1)
  }

  lemma {:induction false} HeightVsBlackHeight(t: Tree)
    requires Balanced(t) && NoRedRed(t)
    ensures Height(t) <= 2 * BlackHeight(t) + (if IsRed(t) then 1 else 0)
    ensures Pow2(BlackHeight(t)) <= |InOrder(t)| + 1
  {
    if t.Leaf? {
    } else {
      HeightVsBlackHeight(t.left);
      HeightVsBlackHeight(t.right);
    }
  }

  lemma Associate(x: nat, y: nat, z: nat)
    ensures (x * y) * z == x * (y * z)
  {
  }

  lemma {:induction false} Pow2Sum(a: nat, b: nat)
    ensures Pow2(a + b) == Pow2(a) * Pow2(b)
  {
    if a == 0 {
    } else {
      Pow2Sum(a - 1, b);
      Associate(2, Pow2(a - 1), Pow2(b));
    }
  }

  lemma {:induction false} Pow2Monotone(a: nat, b: nat)
    requires a <= b
    ensures Pow2(a) <= Pow2(b)
    decreases b
  {
    if a < b {
      Pow2Monotone(a, b - 1);
    }
  }

  lemma SquareMonotone(a: nat, b: nat)
    requires a <= b
    ensures a * a <= b * b
  {
    assert a * a <= a * b <= b * b;
  }

  /** Height is at most 2 log2(n + 1), stated without logarithms. */
  lemma HeightBound(t: Tree)
    requires RedBlack(t)
    ensures Pow2(Height(t)) <= (|InOrder(t)| + 1) * (|InOrder(t)| + 1)
  {
    HeightVsBlackHeight(t);
    var b := BlackHeight(t);
    Pow2Monotone(Height(t), b + b);
    Pow2Sum(b, b);
    SquareMonotone(Pow2(b), |InOrder(t)| + 1);
  }

  // ----- Rotations -----

  function RotateLeft(t: Tree): Tree
    requires t.Node? && t.right.Node?
  {
    t.right.(left := t.(right := t.right.left))
  }

  function RotateRight(t: Tree): Tree
    requires t.Node? && t.left.Node?
  {
    t.left.(right := t.(left := t.left.right))
  }

  lemma Reassociate(a: seq<Item>, x: seq<Item>, b: seq<Item>, y: seq<Item>, c: seq<Item>)
    ensures (a + x + b) + y + c == a + x + (b + y + c)
  {
  }

  /** A rotation keeps the in-order sequence, and the opposite rotation undoes it. */
  lemma RotateLeftOrder(t: Tree)
    requires t.Node? && t.right.Node?
    ensures InOrder(RotateLeft(t)) == InOrder(t)
    ensures RotateRight(RotateLeft(t)) == t
  {
    var y, x := t.right, t.(right := t.right.left);
    assert InOrder(x) == InOrder(t.left) + [Item(t.id, t.key)] + InOrder(y.left);
    assert InOrder(y) == InOrder(y.left) + [Item(y.id, y.key)] + InOrder(y.right);
    assert RotateLeft(t) == Node(y.id, y.color, y.key, x, y.right);
    Reassociate(InOrder(t.left), [Item(t.id, t.key)], InOrder(y.left), [Item(y.id, y.key)], InOrder(y.right));
  }

  lemma RotateRightOrder(t: Tree)
    requires t.Node? && t.left.Node?
    ensures InOrder(RotateRight(t)) == InOrder(t)
    ensures RotateLeft(RotateRight(t)) == t
  {
    RotateLeftOrder(RotateRight(t));
  }

  /** Subtrees with the same in-order sequence can be exchanged below any path. */
  lemma ZipSameOrder(p: Path, t: Tree, u: Tree)
    requires InOrder(t) == InOrder(u)
    ensures InOrder(Zip(p, t)) == InOrder(Zip(p, u))
  {
    ZipInOrder(p, t);
    ZipInOrder(p, u);
  }

  // ----- The insertion fix-up -----

  /** What every round of the insertion fix-up keeps: only the link from `t` to its parent may be red-red. */
  predicate InsertState(p: Path, t: Tree) {
    && IsRed(t) && Balanced(t) && NoRedRed(t)
    && PathBalanced(p, BlackHeight(t)) && PathNoRedRed(p) && RootBlack(p)
  }

  /** The fix-up is about to run a round: the parent is red, so there is a black grandparent. */
  lemma InsertStateParent(p: Path, t: Tree)
    requires InsertState(p, t) && PathRed(p)
    ensures p.up.Frame? && p.up.color == Black
  {
  }

  /** Red uncle: recolour and move up two levels. */
  lemma InsertRecolor(p: Path, t: Tree)
    requires InsertState(p, t) && PathRed(p) && p.up.Frame? && IsRed(p.up.sibling)
    ensures var parent := Make(p.side, p.id, Black, p.key, t, p.sibling);
            var g := p.up;
            var t' := Make(g.side, g.id, Red, g.key, parent, g.sibling.(color := Black));
            InsertState(g.up, t') && InOrder(Zip(g.up, t')) == InOrder(Zip(p, t))
  {
    var g := p.up;
    assert PathBalanced(g, BlackHeight(t)) && PathNoRedRed(g) && RootBlack(g);
    var parent := Make(p.side, p.id, Black, p.key, t, p.sibling);
    assert Balanced(parent) && NoRedRed(parent) && BlackHeight(parent) == BlackHeight(t) + 1;
    var uncle := g.sibling.(color := Black);
    assert Balanced(uncle) && NoRedRed(uncle) && BlackHeight(uncle) == BlackHeight(t) + 1;
    assert InOrder(parent) == InOrder(parent.(color := Red)) && InOrder(uncle) == InOrder(g.sibling);
    ZipSameOrder(g.up, Make(g.side, g.id, Red, g.key, parent, uncle),
        Make(g.side, g.id, g.color, g.key, parent.(color := Red), g.sibling));
  }

  /** Black uncle, inner child: the first rotation turns it into an outer child. */
  lemma InsertInner(p: Path, t: Tree)
    requires InsertState(p, t) && PathRed(p) && p.up.Frame? && !IsRed(p.up.sibling)
    requires p.side != p.up.side
    ensures var inner := if p.side.R? then t.left else t.right;
            var outer := if p.side.R? then t.right else t.left;
            var p', t' := Frame(p.up.side, t.id, Red, t.key, outer, p.up),
                Make(p.side, p.id, Red, p.key, inner, p.sibling);
            InsertState(p', t') && InOrder(Zip(p', t')) == InOrder(Zip(p, t))
  {
    if p.side.R? {
      var n := Node(p.id, p.color, p.key, p.sibling, t);
      RotateLeftOrder(n);
      ZipSameOrder(p.up, n, RotateLeft(n));
    } else {
      var n := Node(p.id, p.color, p.key, t, p.sibling);
      RotateRightOrder(n);
      ZipSameOrder(p.up, n, RotateRight(n));
    }
  }

  /** Black uncle, outer child: the second rotation ends the fix-up. */
  lemma InsertOuter(p: Path, t: Tree)
    requires InsertState(p, t) && PathRed(p) && p.up.Frame? && !IsRed(p.up.sibling)
    requires p.side == p.up.side
    ensures var g := p.up;
            var p' := Frame(p.side, p.id, Black, p.key, Make(g.side, g.id, Red, g.key, p.sibling, g.sibling), g.up);
            InsertState(p', t) && InOrder(Zip(p', t)) == InOrder(Zip(p, t))
  {
    var g := p.up;
    assert PathBalanced(g, BlackHeight(t)) && PathNoRedRed(g) && RootBlack(g);
    var s := Make(g.side, g.id, Red, g.key, p.sibling, g.sibling);
    assert Balanced(s) && NoRedRed(s) && BlackHeight(s) == BlackHeight(t);
    var p' := Frame(p.side, p.id, Black, p.key, s, g.up);
    ZipInOrder(p', t);
    ZipInOrder(p, t);
    InsertOuterOrder(p, p');
  }

  lemma InsertOuterOrder(p: Path, p': Path)
    requires p.Frame? && p.up.Frame? && p.side == p.up.side
    requires p' == Frame(p.side, p.id, Black, p.key,
                         Make(p.side, p.up.id, Red, p.up.key, p.sibling, p.up.sibling), p.up.up)
    ensures Before(p') == Before(p) && After(p') == After(p)
  {
    var g := p.up;
    var a, b := InOrder(p.sibling), InOrder(g.sibling);
    var x, y := [Item(p.id, p.key)], [Item(g.id, g.key)];
    if p.side.L? {
      assert InOrder(p'.sibling) == a + y + b;
      ShiftLeft(x, a, y, b, After(g.up));
    } else {
      assert InOrder(p'.sibling) == b + y + a;
      ShiftRight(Before(g.up), b, y, a, x);
    }
  }

  lemma ShiftLeft(x: seq<Item>, a: seq<Item>, y: seq<Item>, b: seq<Item>, c: seq<Item>)
    ensures x + a + (y + b + c) == x + (a + y + b) + c
  {
  }

  lemma ShiftRight(c: seq<Item>, b: seq<Item>, y: seq<Item>, a: seq<Item>, x: seq<Item>)
    ensures c + b + y + a + x == c + (b + y + a) + x
  {
  }

  /** Hanging a red leaf on a red-black tree starts the fix-up. */
  lemma InsertStart(p: Path, z: Ptr, key: int)
    requires RedBlack(Zip(p, Leaf))
    ensures InsertState(p, Node(z, Red, key, Leaf, Leaf))
  {
    ZipBalanced(p, Leaf);
    ZipNoRedRed(p, Leaf);
    ZipRootBlack(p, Leaf);
    assert p.Top? ==> RootBlack(p);
  }

  function Blacken(t: Tree): Tree {
    if t.Leaf? then t else t.(color := Black)
  }

  /** When the parent is not red, blackening the root gives a red-black tree. */
  lemma InsertDone(p: Path, t: Tree)
    requires InsertState(p, t) && !PathRed(p)
    ensures RedBlack(Blacken(Zip(p, t)))
    ensures InOrder(Blacken(Zip(p, t))) == InOrder(Zip(p, t))
  {
    ZipBalanced(p, t);
    ZipNoRedRed(p, t);
  }

  // ----- The removal fix-up -----

  function Near(side: Side, t: Tree): Tree
    requires t.Node?
  {
    if side.L? then t.left else t.right
  }

  function Far(side: Side, t: Tree): Tree
    requires t.Node?
  {
    if side.L? then t.right else t.left
  }

  /**
   What every round of the removal fix-up keeps: below `p` one black node is missing. The root of `t` may
   be red under a red parent or over a red child; blackening it will repair both.
   */
  predicate RemoveState(p: Path, t: Tree) {
    && Balanced(t) && NoRedRed(Blacken(t))
    && PathBalanced(p, BlackHeight(t) + 1) && PathNoRedRed(p) && RootBlack(p)
  }

  /** The fix-up stops at a red node; otherwise it climbs. */
  function RemoveMeasure(p: Path, t: Tree): nat {
    if IsRed(t) then 0 else 1 + PathLen(p)
  }

  lemma MakeNearFar(side: Side, t: Tree)
    requires t.Node?
    ensures t == Make(side, t.id, t.color, t.key, Near(side, t), Far(side, t))
  {
  }

  /** A rotation in either direction, with any colours, keeps the in-order sequence. */
  lemma RollOrder(s: Side, x: Item, y: Item, cx: Color, cy: Color, cx': Color, cy': Color, a: Tree, b: Tree, c: Tree)
    ensures InOrder(Make(s, x.id, cx, x.key, a, Make(s, y.id, cy, y.key, b, c)))
         == InOrder(Make(s, y.id, cy', y.key, Make(s, x.id, cx', x.key, a, b), c))
  {
    var i, j, k := InOrder(a), InOrder(b), InOrder(c);
    if s.L? {
      assert i + [x] + (j + [y] + k) == (i + [x] + j) + [y] + k;
      assert InOrder(Make(s, y.id, cy, y.key, b, c)) == j + [y] + k;
      assert InOrder(Make(s, x.id, cx', x.key, a, b)) == i + [x] + j;
    } else {
      assert (k + [y] + j) + [x] + i == k + [y] + (j + [x] + i);
      assert InOrder(Make(s, y.id, cy, y.key, b, c)) == k + [y] + j;
      assert InOrder(Make(s, x.id, cx', x.key, a, b)) == j + [x] + i;
    }
  }

  /** The sibling the fix-up reads is never null, and neither is a red sibling's near child. */
  lemma SiblingExists(p: Path, t: Tree)
    requires RemoveState(p, t) && p.Frame?
    ensures p.sibling.Node?
    ensures IsRed(p.sibling) ==> p.color == Black && Near(p.side, p.sibling).Node? && !IsRed(Near(p.side, p.sibling))
  {
    if IsRed(p.sibling) {
      assert BlackHeight(p.sibling.left) == BlackHeight(p.sibling.right) == BlackHeight(t) + 1;
    }
  }

  /** Case 1, red sibling: rotate it above the parent, which turns red. */
  lemma RemoveRedSibling(p: Path, t: Tree)
    requires RemoveState(p, t) && p.Frame? && IsRed(p.sibling)
    ensures var w := p.sibling;
            var p' := Frame(p.side, p.id, Red, p.key, Near(p.side, w),
                Frame(p.side, w.id, Black, w.key, Far(p.side, w), p.up));
            RemoveState(p', t) && InOrder(Zip(p', t)) == InOrder(Zip(p, t))
  {
    SiblingExists(p, t);
    var w := p.sibling;
    var up := Frame(p.side, w.id, Black, w.key, Far(p.side, w), p.up);
    assert Balanced(w.left) && Balanced(w.right) && NoRedRed(w.left) && NoRedRed(w.right);
    assert PathBalanced(up, BlackHeight(t) + 1) && PathNoRedRed(up) && RootBlack(up);
    RollOrder(p.side, Item(p.id, p.key), Item(w.id, w.key), p.color, Red, Red, Black, t, Near(p.side, w),
        Far(p.side, w));
    MakeNearFar(p.side, w);
    var low := Make(p.side, p.id, Red, p.key, t, Near(p.side, w));
    ZipSameOrder(p.up, Make(p.side, p.id, p.color, p.key, t, w), Make(p.side, w.id, Black, w.key, low, Far(p.side, w)));
  }

  /** Case 2, black sibling with black children: redden it and move up. */
  lemma RemoveRedden(p: Path, t: Tree)
    requires RemoveState(p, t) && p.Frame? && p.sibling.Node? && !IsRed(p.sibling) && !IsRed(t)
    requires !IsRed(p.sibling.left) && !IsRed(p.sibling.right)
    ensures var t' := Make(p.side, p.id, p.color, p.key, t, p.sibling.(color := Red));
            RemoveState(p.up, t') && InOrder(Zip(p.up, t')) == InOrder(Zip(p, t))
  {
    var w := p.sibling.(color := Red);
    assert Balanced(w) && NoRedRed(w) && BlackHeight(w) == BlackHeight(t);
    assert Blacken(t) == t;
    assert InOrder(w) == InOrder(p.sibling);
    ZipSameOrder(p.up, Make(p.side, p.id, p.color, p.key, t, w), Make(p.side, p.id, p.color, p.key, t, p.sibling));
  }

  function TurnNephew(side: Side, p: Path): Path
    requires p.Frame? && p.sibling.Node? && Near(side, p.sibling).Node?
  {
    var w, n := p.sibling, Near(side, p.sibling);
    p.(sibling := Make(side, n.id, Black, n.key, Near(side, n),
        Make(side, w.id, Red, w.key, Far(side, n), Far(side, w))))
  }

  /** Case 3, red near nephew: rotate the sibling away so that the far nephew is red. */
  lemma RemoveTurnNephew(p: Path, t: Tree)
    requires RemoveState(p, t) && p.Frame? && p.sibling.Node? && !IsRed(p.sibling)
    requires IsRed(Near(p.side, p.sibling)) && !IsRed(Far(p.side, p.sibling))
    ensures RemoveState(TurnNephew(p.side, p), t) && InOrder(Zip(TurnNephew(p.side, p), t)) == InOrder(Zip(p, t))
  {
    var w := p.sibling;
    var n := Near(p.side, w);
    assert Balanced(n) && NoRedRed(n) && Balanced(Far(p.side, w)) && NoRedRed(Far(p.side, w));
    var v := Make(p.side, w.id, Red, w.key, Far(p.side, n), Far(p.side, w));
    assert Balanced(v) && NoRedRed(v) && BlackHeight(v) == BlackHeight(n);
    var w' := Make(p.side, n.id, Black, n.key, Near(p.side, n), v);
    assert Balanced(w') && NoRedRed(w') && BlackHeight(w') == BlackHeight(w);
    RollOrder(p.side, Item(n.id, n.key), Item(w.id, w.key), Black, Red, Red, Black, Near(p.side, n), Far(p.side, n),
        Far(p.side, w));
    MakeNearFar(p.side, w);
    MakeNearFar(p.side, n);
    ZipSameOrder(p.up, Make(p.side, p.id, p.color, p.key, t, w), Make(p.side, p.id, p.color, p.key, t, w'));
  }

  function LastRotation(side: Side, p: Path, t: Tree): Tree
    requires p.Frame? && p.sibling.Node? && Far(side, p.sibling).Node?
  {
    var w := p.sibling;
    var low := Make(side, p.id, Black, p.key, t, Near(side, w));
    Make(side, w.id, p.color, w.key, low, Far(side, w).(color := Black))
  }

  /** Case 4, red far nephew: the last rotation supplies the missing black node. */
  lemma RemoveLastRotation(p: Path, t: Tree)
    requires RemoveState(p, t) && p.Frame? && p.sibling.Node? && !IsRed(p.sibling) && !IsRed(t)
    requires IsRed(Far(p.side, p.sibling))
    ensures var w := p.sibling;
            var low := Make(p.side, p.id, Black, p.key, t, Near(p.side, w));
            var t' := Make(p.side, w.id, p.color, w.key, low, Far(p.side, w).(color := Black));
            RedBlack(Zip(p.up, t')) && InOrder(Zip(p.up, t')) == InOrder(Zip(p, t))
  {
    var w := p.sibling;
    var low := Make(p.side, p.id, Black, p.key, t, Near(p.side, w));
    assert Blacken(t) == t;
    assert Balanced(low) && NoRedRed(low) && BlackHeight(low) == BlackHeight(t) + 1;
    var far := Far(p.side, w).(color := Black);
    assert Balanced(Far(p.side, w)) && NoRedRed(Far(p.side, w));
    assert Balanced(far) && NoRedRed(far) && BlackHeight(far) == BlackHeight(t) + 1;
    var s := Make(p.side, w.id, p.color, w.key, low, far);
    ZipBalanced(p.up, s);
    ZipNoRedRed(p.up, s);
    ZipRootBlack(p.up, s);
    RollOrder(p.side, Item(p.id, p.key), Item(w.id, w.key), p.color, Black, Black, p.color, t, Near(p.side, w),
        Far(p.side, w));
    MakeNearFar(p.side, w);
    assert InOrder(far) == InOrder(Far(p.side, w));
    ZipSameOrder(p.up, Make(p.side, p.id, p.color, p.key, t, w), s);
  }

  /** At a red node, or at the root, blackening the node finishes. */
  lemma RemoveDone(p: Path, t: Tree)
    requires RemoveState(p, t) && (IsRed(t) || p.Top?)
    ensures RedBlack(Zip(p, Blacken(t)))
    ensures InOrder(Zip(p, Blacken(t))) == InOrder(Zip(p, t))
  {
    var b := Blacken(t);
    ZipBalanced(p, b);
    ZipNoRedRed(p, b);
    ZipRootBlack(p, b);
    ZipSameOrder(p, b, t);
  }

  // ----- Removal before the fix-up -----

  /** The red-black rules of Zip(p, t), read off its parts. */
  predicate RedBlackAt(p: Path, t: Tree) {
    && Balanced(t) && PathBalanced(p, BlackHeight(t)) && NoRedRed(t) && PathNoRedRed(p)
    && !(IsRed(t) && PathRed(p)) && (if p.Top? then !IsRed(t) else RootBlack(p))
  }

  lemma RedBlackZip(p: Path, t: Tree)
    ensures RedBlack(Zip(p, t)) <==> RedBlackAt(p, t)
  {
    ZipBalanced(p, t);
    ZipNoRedRed(p, t);
    ZipRootBlack(p, t);
  }

  /** Colours when the only child of `n` takes its place. */
  lemma SpliceState(p: Path, n: Tree, c: Tree)
    requires RedBlackAt(p, n) && n.Node? && (c == n.left || c == n.right)
    ensures if n.color == Black then RemoveState(p, c) else RedBlackAt(p, c)
  {
    assert NoRedRed(c) && NoRedRed(Blacken(c));
  }

  lemma {:induction false} SpliceOrder(p: Path, n: Tree, c: Tree)
    requires n.Node? && c == (if n.left.Node? then n.left else n.right)
    requires n.left.Leaf? || n.right.Leaf?
    ensures Dropped(InOrder(Zip(p, n)), InOrder(Zip(p, c)), |Before(p)| + |InOrder(n.left)|, Item(n.id, n.key))
  {
    ZipInOrder(p, n);
    ZipInOrder(p, c);
    DropMiddle(Before(p), InOrder(n.left), Item(n.id, n.key), InOrder(n.right), After(p));
    SpliceLeaf(n.left, n.right);
  }

  lemma SpliceLeaf(l: Tree, r: Tree)
    requires l.Leaf? || r.Leaf?
    ensures InOrder(l) + InOrder(r) == InOrder(if l.Node? then l else r)
  {
  }

  /** `s'` is `s` without its item `x` at position `i`. */
  ghost predicate Dropped(s: seq<Item>, s': seq<Item>, i: nat, x: Item) {
    i < |s| && s[i] == x && s' == s[..i] + s[i + 1..]
  }

  lemma DropMiddle(a: seq<Item>, l: seq<Item>, x: Item, r: seq<Item>, b: seq<Item>)
    ensures Dropped(a + (l + [x] + r) + b, a + (l + r) + b, |a| + |l|, x)
  {
    var s, i := a + (l + [x] + r) + b, |a| + |l|;
    assert s[..i] == a + l;
    assert s[i + 1..] == r + b;
  }

  lemma DroppedSorted(s: seq<Item>, s': seq<Item>, i: nat, x: Item)
    requires Dropped(s, s', i, x) && SortedByKey(s)
    ensures SortedByKey(s')
  {
    forall j, k | 0 <= j < k < |s'| ensures s'[j].key <= s'[k].key {
      assert s'[j] == s[if j < i then j else j + 1];
      assert s'[k] == s[if k < i then k else k + 1];
    }
  }

  /** The path to the child of the successor `m` once `m` has replaced `n`. */
  function Replaced(p: Path, n: Tree, rel: Path, m: Tree): Path
    requires n.Node? && m.Node?
  {
    Append(rel, Frame(R, m.id, n.color, m.key, n.left, p))
  }

  /** Colours and black heights do not depend on which node sits in a frame. */
  lemma {:induction false} SameShape(rel: Path, f: Path, id: Ptr, key: int, bh: nat)
    requires f.Frame?
    ensures var f' := f.(id := id, key := key);
            && (PathBalanced(Append(rel, f'), bh) <==> PathBalanced(Append(rel, f), bh))
            && (PathNoRedRed(Append(rel, f')) <==> PathNoRedRed(Append(rel, f)))
            && (RootBlack(Append(rel, f')) <==> RootBlack(Append(rel, f)))
            && (PathRed(Append(rel, f')) <==> PathRed(Append(rel, f)))
            && (Append(rel, f').Top? <==> Append(rel, f).Top?)
    decreases rel
  {
    if rel.Frame? {
      SameShape(rel.up, f, id, key, bh + Ink(rel.color));
    }
  }

  lemma {:induction false} OnlyLeftBefore(p: Path)
    requires OnlyLeft(p)
    ensures Before(p) == []
  {
    if p.Frame? {
      OnlyLeftBefore(p.up);
    }
  }

  /** Colours when the successor `m` takes the place of `n`. */
  lemma ReplacedState(p: Path, n: Tree, rel: Path, m: Tree)
    requires n.Node? && m.Node? && m.left.Leaf? && Zip(rel, m) == n.right
    requires RedBlack(Zip(p, n))
    ensures if m.color == Black then RemoveState(Replaced(p, n, rel, m), m.right)
            else RedBlack(Zip(Replaced(p, n, rel, m), m.right))
  {
    var f := Down(R, p, n);
    ZipAppend(rel, f, m);
    RedBlackZip(Append(rel, f), m);
    SpliceState(Append(rel, f), m, m.right);
    SameShape(rel, f, m.id, m.key, BlackHeight(m.right));
    SameShape(rel, f, m.id, m.key, BlackHeight(m.right) + 1);
    assert Replaced(p, n, rel, m) == Append(rel, f.(id := m.id, key := m.key));
    RedBlackZip(Replaced(p, n, rel, m), m.right);
  }

  lemma {:induction false} ReplacedOrder(p: Path, n: Tree, rel: Path, m: Tree)
    requires n.Node? && m.Node? && m.left.Leaf? && Zip(rel, m) == n.right && OnlyLeft(rel)
    ensures Dropped(InOrder(Zip(p, n)), InOrder(Zip(Replaced(p, n, rel, m), m.right)), |Before(p)| + |InOrder(n.left)|,
            Item(n.id, n.key))
  {
    ZipInOrder(p, n);
    SuccessorFirst(rel, m);
    ReplacedInOrder(p, n, rel, m);
    DropMiddle(Before(p), InOrder(n.left), Item(n.id, n.key), InOrder(n.right), After(p));
  }

  /** The leftmost node of a tree comes first in order. */
  lemma SuccessorFirst(rel: Path, m: Tree)
    requires m.Node? && m.left.Leaf? && OnlyLeft(rel)
    ensures InOrder(Zip(rel, m)) == [Item(m.id, m.key)] + InOrder(m.right) + After(rel)
  {
    ZipInOrder(rel, m);
    OnlyLeftBefore(rel);
  }

  lemma ReplacedInOrder(p: Path, n: Tree, rel: Path, m: Tree)
    requires n.Node? && m.Node? && OnlyLeft(rel)
    ensures InOrder(Zip(Replaced(p, n, rel, m), m.right))
         == Before(p) + (InOrder(n.left) + ([Item(m.id, m.key)] + InOrder(m.right) + After(rel))) + After(p)
  {
    var f := Frame(R, m.id, n.color, m.key, n.left, p);
    ZipInOrder(Append(rel, f), m.right);
    AppendInOrder(rel, f);
    OnlyLeftBefore(rel);
    Regroup(Before(p), InOrder(n.left), [Item(m.id, m.key)], InOrder(m.right), After(rel), After(p));
  }

  lemma Regroup(a: seq<Item>, l: seq<Item>, x: seq<Item>, k: seq<Item>, e: seq<Item>, b: seq<Item>)
    ensures (a + l + x + []) + k + (e + b) == a + (l + (x + k + e)) + b
  {
  }

  // ----- Finding nodes -----

  /** Every node of a tree can be brought into focus. */
  lemma {:induction false} Locate(p: Path, t: Tree, x: Item) returns (q: Path, n: Tree)
    requires x in InOrder(t)
    ensures Zip(q, n) == Zip(p, t) && n.Node? && Item(n.id, n.key) == x
    decreases t
  {
    if x == Item(t.id, t.key) {
      q, n := p, t;
    } else if x in InOrder(t.left) {
      q, n := Locate(Down(L, p, t), t.left, x);
    } else {
      q, n := Locate(Down(R, p, t), t.right, x);
    }
  }

  lemma SortedParts(t: Tree)
    requires t.Node? && SortedByKey(InOrder(t))
    ensures SortedByKey(InOrder(t.left)) && SortedByKey(InOrder(t.right))
    ensures AllAtMost(InOrder(t.left), t.key)
    ensures forall i :: 0 <= i < |InOrder(t.right)| ==> t.key <= InOrder(t.right)[i].key
  {
    var s, l, r := InOrder(t), InOrder(t.left), InOrder(t.right);
    assert s[|l|] == Item(t.id, t.key);
    assert l == s[..|l|];
    assert r == s[|l| + 1..];
  }

  /** Where the focused node stands in order. */
  lemma {:induction false} FocusIndex(p: Path, t: Tree)
    requires t.Node?
    ensures var s, i := InOrder(Zip(p, t)), |Before(p)| + |InOrder(t.left)|;
            && i < |s| && s[i] == Item(t.id, t.key)
            && s[..i] == Before(p) + InOrder(t.left) && s[i + 1..] == InOrder(t.right) + After(p)
  {
    ZipInOrder(p, t);
    var s, i := InOrder(Zip(p, t)), |Before(p)| + |InOrder(t.left)|;
    Around(Before(p), InOrder(t.left), Item(t.id, t.key), InOrder(t.right), After(p));
  }

  lemma BeforeMiddle(a: seq<Item>, l: seq<Item>, x: Item, r: seq<Item>, b: seq<Item>)
    requires |a| + |l| > 0
    ensures (a + (l + [x] + r) + b)[|a| + |l| - 1] == if l != [] then l[|l| - 1] else a[|a| - 1]
  {
  }

  /** The item before the root of the subtree in focus. */
  lemma {:induction false} PreviousItem(p: Path, t: Tree)
    requires t.Node? && |Before(p)| + |InOrder(t.left)| > 0
    ensures var s, i := InOrder(Zip(p, t)), |Before(p)| + |InOrder(t.left)|;
            && i < |s|
            && s[i - 1] == if t.left.Node? then InOrder(t.left)[|InOrder(t.left)| - 1] else Before(p)[|Before(p)| - 1]
  {
    ZipInOrder(p, t);
    BeforeMiddle(Before(p), InOrder(t.left), Item(t.id, t.key), InOrder(t.right), After(p));
  }

  lemma Around(a: seq<Item>, l: seq<Item>, x: Item, r: seq<Item>, b: seq<Item>)
    ensures var s, i := a + (l + [x] + r) + b, |a| + |l|;
            s[i] == x && s[..i] == a + l && s[i + 1..] == r + b
  {
  }
}
