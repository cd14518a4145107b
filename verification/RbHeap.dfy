/**
 How a red-black tree lies in memory: a heap maps addresses to nodes with key, colour, two children and a
 parent. Every lemma here is about heaps as values; the class in RedBlackTree performs the updates.
 */
module RbHeap {
  import opened Memory
  import opened RbTree

  datatype Cell = Cell(key: int, color: Color, left: Ptr, right: Ptr, parent: Ptr)

  type Heap = map<Ptr, Cell>

  function Ids(t: Tree): set<Ptr> {
    if t.Leaf? then {} else {t.id} + Ids(t.left) + Ids(t.right)
  }

  function PathIds(p: Path): set<Ptr> {
    if p.Top? then {} else {p.id} + Ids(p.sibling) + PathIds(p.up)
  }

  predicate Distinct(t: Tree) {
    t.Node? ==>
      && t.id != NULL && t.id !in Ids(t.left) && t.id !in Ids(t.right) && Ids(t.left) !! Ids(t.right)
      && Distinct(t.left) && Distinct(t.right)
  }

  predicate DistinctPath(p: Path) {
    p.Frame? ==>
      && p.id != NULL && p.id !in Ids(p.sibling) && p.id !in PathIds(p.up) && Ids(p.sibling) !! PathIds(p.up)
      && Distinct(p.sibling) && DistinctPath(p.up)
  }

  /** `t` is laid out in `h`, and its root's parent field holds `parent`. */
  predicate Rep(h: Heap, t: Tree, parent: Ptr) {
    t.Node? ==>
      && t.id in h && h[t.id] == Cell(t.key, t.color, Id(t.left), Id(t.right), parent)
      && Rep(h, t.left, t.id) && Rep(h, t.right, t.id)
  }

  function TopOr(p: Path, top: Ptr): Ptr {
    if p.Top? then top else p.id
  }

  /** The path is laid out in `h` around the child `child`; `top` is the parent field of its outermost node. */
  predicate RepPath(h: Heap, p: Path, child: Ptr, top: Ptr) {
    p.Frame? ==>
      && p.id in h
      && h[p.id] == Cell(p.key, p.color,
                         if p.side.L? then child else Id(p.sibling),
                         if p.side.L? then Id(p.sibling) else child,
                         TopOr(p.up, top))
      && Rep(h, p.sibling, p.id) && RepPath(h, p.up, p.id, top)
  }

  /** The address of the outermost node of the path, or of the child when the path is empty. */
  function RootId(p: Path, child: Ptr): Ptr {
    if p.Top? then child else RootId(p.up, p.id)
  }

  /** The heap holds the tree Zip(p, t), rooted at `root`. */
  predicate Focus(h: Heap, root: Ptr, p: Path, t: Tree) {
    && Distinct(t) && DistinctPath(p) && Ids(t) !! PathIds(p)
    && Rep(h, t, PathId(p)) && RepPath(h, p, Id(t), NULL) && root == RootId(p, Id(t))
  }

  /** The focus can move between a node and its child. */
  lemma FocusUp(h: Heap, root: Ptr, p: Path, t: Tree)
    requires p.Frame?
    ensures Focus(h, root, p, t) <==> Focus(h, root, p.up, Make(p.side, p.id, p.color, p.key, t, p.sibling))
    ensures PathIds(p) + Ids(t) == PathIds(p.up) + Ids(Make(p.side, p.id, p.color, p.key, t, p.sibling))
  {
  }

  /** What the program reads around the focus. */
  lemma Neighbours(h: Heap, root: Ptr, p: Path, t: Tree)
    requires Focus(h, root, p, t) && p.Frame?
    ensures p.id in h && h[p.id].key == p.key && h[p.id].color == p.color && h[p.id].parent == PathId(p.up)
    ensures h[p.id].left == (if p.side.L? then Id(t) else Id(p.sibling))
    ensures h[p.id].right == (if p.side.L? then Id(p.sibling) else Id(t))
    ensures t.Node? || p.sibling.Node? ==> Id(t) != Id(p.sibling)
    ensures t.Node? ==> t.id in h && t.id != NULL && h[t.id].parent == p.id
    ensures p.sibling.Node? ==> p.sibling.id in h && p.sibling.id != NULL && h[p.sibling.id].color == p.sibling.color
    ensures p.id != NULL && root != Id(t)
  {
    if t.Node? {
      assert t.id in Ids(t);
    }
    if p.sibling.Node? {
      assert p.sibling.id in PathIds(p);
    }
    RootInPath(p, Id(t));
  }

  lemma Nephews(h: Heap, root: Ptr, p: Path, t: Tree)
    requires Focus(h, root, p, t) && p.Frame? && p.sibling.Node?
    ensures var w := p.sibling;
            && w.id in h && h[w.id] == Cell(w.key, w.color, Id(w.left), Id(w.right), p.id)
            && (w.left.Node? ==> w.left.id != NULL && w.left.id in h && h[w.left.id].color == w.left.color)
            && (w.right.Node? ==> w.right.id != NULL && w.right.id in h && h[w.right.id].color == w.right.color)
  {
    assert Rep(h, p.sibling, p.id) && Distinct(p.sibling);
    assert Rep(h, p.sibling.left, p.sibling.id) && Rep(h, p.sibling.right, p.sibling.id);
    assert Distinct(p.sibling.left) && Distinct(p.sibling.right);
  }

  lemma {:induction false} RootInPath(p: Path, child: Ptr)
    requires p.Frame? && DistinctPath(p)
    ensures RootId(p, child) in PathIds(p) && RootId(p, child) != NULL
    decreases p
  {
    if p.up.Frame? {
      RootInPath(p.up, p.id);
    }
  }

  /** The focus can move to the sibling. */
  lemma FocusSibling(h: Heap, root: Ptr, p: Path, t: Tree)
    requires p.Frame? && Focus(h, root, p, t)
    ensures Focus(h, root, Frame(Opposite(p.side), p.id, p.color, p.key, t, p.up), p.sibling)
    ensures Zip(Frame(Opposite(p.side), p.id, p.color, p.key, t, p.up), p.sibling) == Zip(p, t)
  {
    FocusUp(h, root, p, t);
    FocusUp(h, root, Frame(Opposite(p.side), p.id, p.color, p.key, t, p.up), p.sibling);
  }

  lemma {:induction false} FocusZip(h: Heap, root: Ptr, p: Path, t: Tree)
    ensures Focus(h, root, p, t) <==> Focus(h, root, Top, Zip(p, t))
    ensures PathIds(p) + Ids(t) == Ids(Zip(p, t))
    decreases p
  {
    if p.Frame? {
      FocusUp(h, root, p, t);
      FocusZip(h, root, p.up, Make(p.side, p.id, p.color, p.key, t, p.sibling));
    }
  }

  lemma {:induction false} RepAgree(h: Heap, h': Heap, t: Tree, parent: Ptr)
    requires Rep(h, t, parent)
    requires forall i :: i in Ids(t) && i in h ==> i in h' && h'[i] == h[i]
    ensures Rep(h', t, parent)
  {
    if t.Leaf? {
    } else {
      RepAgree(h, h', t.left, t.id);
      RepAgree(h, h', t.right, t.id);
    }
  }

  lemma {:induction false} PathAgree(h: Heap, h': Heap, p: Path, child: Ptr, top: Ptr)
    requires RepPath(h, p, child, top)
    requires forall i :: i in PathIds(p) && i in h ==> i in h' && h'[i] == h[i]
    ensures RepPath(h', p, child, top)
    decreases p
  {
    if p.Frame? {
      RepAgree(h, h', p.sibling, p.id);
      PathAgree(h, h', p.up, p.id, top);
    }
  }

  lemma {:induction false} RepKeys(h: Heap, t: Tree, parent: Ptr)
    requires Rep(h, t, parent)
    ensures Ids(t) <= h.Keys
  {
    if t.Leaf? {
    } else {
      RepKeys(h, t.left, t.id);
      RepKeys(h, t.right, t.id);
    }
  }

  // ----- The three kinds of edit the algorithms make -----

  function SetParent(h: Heap, x: Ptr, parent: Ptr): Heap
    requires x == NULL || x in h
  {
    if x == NULL then h else h[x := h[x].(parent := parent)]
  }

  function SetChild(h: Heap, p: Path, child: Ptr): Heap
    requires p.Top? || p.id in h
  {
    if p.Top? then h
    else if p.side.L? then h[p.id := h[p.id].(left := child)]
    else h[p.id := h[p.id].(right := child)]
  }

  lemma Reparent(h: Heap, t: Tree, parent: Ptr, parent': Ptr)
    requires Rep(h, t, parent) && Distinct(t)
    ensures Id(t) == NULL || Id(t) in h
    ensures Rep(SetParent(h, Id(t), parent'), t, parent')
  {
    if t.Node? {
      var h' := SetParent(h, t.id, parent');
      RepAgree(h, h', t.left, t.id);
      RepAgree(h, h', t.right, t.id);
    }
  }

  lemma Rechild(h: Heap, p: Path, child: Ptr, child': Ptr, top: Ptr)
    requires RepPath(h, p, child, top) && DistinctPath(p)
    ensures RepPath(SetChild(h, p, child'), p, child', top)
  {
    if p.Frame? {
      var h' := SetChild(h, p, child');
      RepAgree(h, h', p.sibling, p.id);
      PathAgree(h, h', p.up, p.id, top);
    }
  }

  lemma {:induction false} Retop(h: Heap, p: Path, child: Ptr, top: Ptr, top': Ptr)
    requires RepPath(h, p, child, top) && DistinctPath(p) && p.Frame?
    ensures RootId(p, child) in PathIds(p) && RootId(p, child) in h
    ensures RootId(p, child) != NULL
    ensures RepPath(SetParent(h, RootId(p, child), top'), p, child, top')
    decreases p
  {
    if p.up.Top? {
      RepAgree(h, SetParent(h, p.id, top'), p.sibling, p.id);
    } else {
      Retop(h, p.up, p.id, top, top');
      RepAgree(h, SetParent(h, RootId(p, child), top'), p.sibling, p.id);
    }
  }

  lemma {:induction false} RepAppend(h: Heap, p: Path, q: Path, child: Ptr, top: Ptr)
    ensures RepPath(h, Append(p, q), child, top) <==>
            RepPath(h, p, child, TopOr(q, top)) && RepPath(h, q, RootId(p, child), top)
    ensures RootId(Append(p, q), child) == RootId(q, RootId(p, child))
    ensures PathIds(Append(p, q)) == PathIds(p) + PathIds(q)
    ensures DistinctPath(Append(p, q)) <==> DistinctPath(p) && DistinctPath(q) && PathIds(p) !! PathIds(q)
    decreases p
  {
    if p.Frame? {
      RepAppend(h, p.up, q, p.id, top);
    }
  }

  // ----- Colour changes and rotations at the focus -----

  lemma Recolor(h: Heap, root: Ptr, p: Path, t: Tree, c: Color)
    requires Focus(h, root, p, t) && t.Node?
    ensures Focus(h[t.id := h[t.id].(color := c)], root, p, t.(color := c))
    ensures Ids(t.(color := c)) == Ids(t)
  {
    var h' := h[t.id := h[t.id].(color := c)];
    RepAgree(h, h', t.left, t.id);
    RepAgree(h, h', t.right, t.id);
    PathAgree(h, h', p, Id(t), NULL);
  }

  /** The pointer assignments of a left rotation at the root of `t`, in program order. */
  function LeftRotated(h: Heap, p: Path, t: Tree): Heap
    requires Focus(h, RootId(p, Id(t)), p, t) && t.Node? && t.right.Node?
  {
    var x, y, b := t.id, t.right.id, Id(t.right.left);
    assert Rep(h, t.right, x) && Rep(h, t.right.left, y);
    var h1 := SetParent(h[x := h[x].(right := b)], b, x);
    var h2 := h1[y := h1[y].(parent := PathId(p))];
    var h3 := SetChild(h2, p, y);
    var h4 := h3[y := h3[y].(left := x)];
    h4[x := h4[x].(parent := y)]
  }

  lemma LeftRotatedCells(h: Heap, p: Path, t: Tree)
    requires Focus(h, RootId(p, Id(t)), p, t) && t.Node? && t.right.Node?
    ensures var x, y, b, h' := t.id, t.right.id, t.right.left, LeftRotated(h, p, t);
            && h'.Keys == h.Keys && x in h && y in h
            && h'[x] == h[x].(right := Id(b), parent := y) && h'[y] == h[y].(left := x, parent := PathId(p))
            && (b.Node? ==> b.id in h && h'[b.id] == h[b.id].(parent := x))
            && (p.Frame? ==> p.id in h && h'[p.id] == SetChild(h, p, y)[p.id])
            && forall i :: i in h && i != x && i != y && !(b.Node? && i == b.id) && !(p.Frame? && i == p.id) ==>
                 h'[i] == h[i]
  {
    assert Distinct(t.right) && Rep(h, t.right, t.id);
    assert Distinct(t.right.left) && Rep(h, t.right.left, t.right.id);
  }

  lemma LeftRotatedFocus(h: Heap, p: Path, t: Tree)
    requires Focus(h, RootId(p, Id(t)), p, t) && t.Node? && t.right.Node?
    ensures Focus(LeftRotated(h, p, t), RootId(p, t.right.id), p, RotateLeft(t))
    ensures Ids(RotateLeft(t)) == Ids(t) && LeftRotated(h, p, t).Keys == h.Keys
  {
    LeftRotatedCells(h, p, t);
    LeftRotatedParts(h, LeftRotated(h, p, t), p, t);
  }

  lemma RotateLeftDistinct(t: Tree)
    requires Distinct(t) && t.Node? && t.right.Node?
    ensures Distinct(RotateLeft(t)) && Ids(RotateLeft(t)) == Ids(t)
  {
    assert Distinct(t.right);
    assert Ids(RotateLeft(t).left) == {t.id} + Ids(t.left) + Ids(t.right.left);
  }

  lemma LeftRotatedParts(h: Heap, h': Heap, p: Path, t: Tree)
    requires Focus(h, RootId(p, Id(t)), p, t) && t.Node? && t.right.Node?
    requires var x, y, b := t.id, t.right.id, t.right.left;
             && h'.Keys == h.Keys && x in h && y in h
             && h'[x] == h[x].(right := Id(b), parent := y) && h'[y] == h[y].(left := x, parent := PathId(p))
             && (b.Node? ==> b.id in h && h'[b.id] == h[b.id].(parent := x))
             && (p.Frame? ==> p.id in h && h'[p.id] == SetChild(h, p, y)[p.id])
             && forall i :: i in h && i != x && i != y && !(b.Node? && i == b.id) && !(p.Frame? && i == p.id) ==>
                  h'[i] == h[i]
    ensures Focus(h', RootId(p, t.right.id), p, RotateLeft(t))
    ensures Ids(RotateLeft(t)) == Ids(t)
  {
    var x, y, b := t.id, t.right.id, t.right.left;
    assert Distinct(t.right) && Rep(h, t.right, x);
    assert Rep(h', t.left, x) by { RepAgree(h, h', t.left, x); }
    assert Rep(h', t.right.right, y) by { RepAgree(h, h', t.right.right, y); }
    assert Rep(h', b, x) by {
      Reparent(h, b, y, x);
      RepAgree(SetParent(h, Id(b), x), h', b, x);
    }
    assert RepPath(h', p, y, NULL) by {
      Rechild(h, p, x, y, NULL);
      PathAgree(SetChild(h, p, y), h', p, y, NULL);
    }
    RotateLeftDistinct(t);
  }

  function RightRotated(h: Heap, p: Path, t: Tree): Heap
    requires Focus(h, RootId(p, Id(t)), p, t) && t.Node? && t.left.Node?
  {
    var x, y, b := t.id, t.left.id, Id(t.left.right);
    assert Rep(h, t.left, x) && Rep(h, t.left.right, y);
    var h1 := SetParent(h[x := h[x].(left := b)], b, x);
    var h2 := h1[y := h1[y].(parent := PathId(p))];
    var h3 := SetChild(h2, p, y);
    var h4 := h3[y := h3[y].(right := x)];
    h4[x := h4[x].(parent := y)]
  }

  lemma RightRotatedCells(h: Heap, p: Path, t: Tree)
    requires Focus(h, RootId(p, Id(t)), p, t) && t.Node? && t.left.Node?
    ensures var x, y, b, h' := t.id, t.left.id, t.left.right, RightRotated(h, p, t);
            && h'.Keys == h.Keys && x in h && y in h
            && h'[x] == h[x].(left := Id(b), parent := y) && h'[y] == h[y].(right := x, parent := PathId(p))
            && (b.Node? ==> b.id in h && h'[b.id] == h[b.id].(parent := x))
            && (p.Frame? ==> p.id in h && h'[p.id] == SetChild(h, p, y)[p.id])
            && forall i :: i in h && i != x && i != y && !(b.Node? && i == b.id) && !(p.Frame? && i == p.id) ==>
                 h'[i] == h[i]
  {
    assert Distinct(t.left) && Rep(h, t.left, t.id);
    assert Distinct(t.left.right) && Rep(h, t.left.right, t.left.id);
  }

  lemma RightRotatedFocus(h: Heap, p: Path, t: Tree)
    requires Focus(h, RootId(p, Id(t)), p, t) && t.Node? && t.left.Node?
    ensures Focus(RightRotated(h, p, t), RootId(p, t.left.id), p, RotateRight(t))
    ensures Ids(RotateRight(t)) == Ids(t) && RightRotated(h, p, t).Keys == h.Keys
  {
    RightRotatedCells(h, p, t);
    RightRotatedParts(h, RightRotated(h, p, t), p, t);
  }

  lemma RotateRightDistinct(t: Tree)
    requires Distinct(t) && t.Node? && t.left.Node?
    ensures Distinct(RotateRight(t)) && Ids(RotateRight(t)) == Ids(t)
  {
    assert Distinct(t.left);
    assert Ids(RotateRight(t).right) == {t.id} + Ids(t.right) + Ids(t.left.right);
  }

  lemma RightRotatedParts(h: Heap, h': Heap, p: Path, t: Tree)
    requires Focus(h, RootId(p, Id(t)), p, t) && t.Node? && t.left.Node?
    requires var x, y, b := t.id, t.left.id, t.left.right;
             && h'.Keys == h.Keys && x in h && y in h
             && h'[x] == h[x].(left := Id(b), parent := y) && h'[y] == h[y].(right := x, parent := PathId(p))
             && (b.Node? ==> b.id in h && h'[b.id] == h[b.id].(parent := x))
             && (p.Frame? ==> p.id in h && h'[p.id] == SetChild(h, p, y)[p.id])
             && forall i :: i in h && i != x && i != y && !(b.Node? && i == b.id) && !(p.Frame? && i == p.id) ==>
                  h'[i] == h[i]
    ensures Focus(h', RootId(p, t.left.id), p, RotateRight(t))
    ensures Ids(RotateRight(t)) == Ids(t)
  {
    var x, y, b := t.id, t.left.id, t.left.right;
    assert Distinct(t.left) && Rep(h, t.left, x);
    assert Rep(h', t.right, x) by { RepAgree(h, h', t.right, x); }
    assert Rep(h', t.left.left, y) by { RepAgree(h, h', t.left.left, y); }
    assert Rep(h', b, x) by {
      Reparent(h, b, y, x);
      RepAgree(SetParent(h, Id(b), x), h', b, x);
    }
    assert RepPath(h', p, y, NULL) by {
      Rechild(h, p, x, y, NULL);
      PathAgree(SetChild(h, p, y), h', p, y, NULL);
    }
    RotateRightDistinct(t);
  }

  /** Parent and child links agree at every node. */
  lemma {:induction false} LinksAgree(h: Heap, t: Tree, parent: Ptr, n: Ptr)
    requires Rep(h, t, parent) && Distinct(t) && n in Ids(t)
    ensures n in h && n != NULL
    ensures h[n].left != NULL ==> h[n].left in h && h[h[n].left].parent == n && h[n].left in Ids(t)
    ensures h[n].right != NULL ==> h[n].right in h && h[h[n].right].parent == n && h[n].right in Ids(t)
    ensures n != t.id ==>
            h[n].parent in h && h[n].parent in Ids(t) && (h[h[n].parent].left == n || h[h[n].parent].right == n)
  {
    if n == t.id {
    } else if n in Ids(t.left) {
      LinksAgree(h, t.left, t.id, n);
    } else {
      LinksAgree(h, t.right, t.id, n);
    }
  }

  /** A fresh red leaf hung at the end of a path. */
  lemma HangLeaf(h: Heap, root: Ptr, p: Path, z: Ptr, key: int)
    requires Focus(h, root, p, Leaf) && z != NULL && z !in h
    ensures p.Frame? ==> p.id in h
    ensures var t := Node(z, Red, key, Leaf, Leaf);
            Focus(SetChild(h, p, z)[z := Cell(key, Red, NULL, NULL, PathId(p))], RootId(p, z), p, t)
    ensures z !in PathIds(p)
  {
    PathKeys(h, p, NULL, NULL);
    Rechild(h, p, NULL, z, NULL);
    PathAgree(SetChild(h, p, z), SetChild(h, p, z)[z := Cell(key, Red, NULL, NULL, PathId(p))], p, z, NULL);
  }

  lemma {:induction false} PathKeys(h: Heap, p: Path, child: Ptr, top: Ptr)
    requires RepPath(h, p, child, top)
    ensures PathIds(p) <= h.Keys
    decreases p
  {
    if p.Frame? {
      RepKeys(h, p.sibling, p.id);
      PathKeys(h, p.up, p.id, top);
    }
  }

  // ----- Taking a node out -----

  /** The only child `c` of the node in focus takes its place. */
  lemma Splice(h: Heap, root: Ptr, p: Path, n: Tree, c: Tree)
    requires Focus(h, root, p, n) && n.Node?
    requires c == n.left || c == n.right
    ensures c.Node? ==> c.id in h && c.id != NULL
    ensures p.Frame? ==> p.id in SetParent(h, Id(c), PathId(p))
    ensures Focus(SetChild(SetParent(h, Id(c), PathId(p)), p, Id(c)), RootId(p, Id(c)), p, c)
    ensures n.id !in PathIds(p) + Ids(c)
  {
    assert Distinct(c) && Rep(h, c, n.id);
    var h1 := SetParent(h, Id(c), PathId(p));
    var h2 := SetChild(h1, p, Id(c));
    assert Rep(h2, c, PathId(p)) by {
      Reparent(h, c, n.id, PathId(p));
      RepAgree(h1, h2, c, PathId(p));
    }
    assert RepPath(h2, p, Id(c), NULL) by {
      PathAgree(h, h1, p, n.id, NULL);
      Rechild(h1, p, n.id, Id(c), NULL);
    }
  }

  /** The path to the successor `m` of the node `n` in focus, through the right subtree of `n`. */
  ghost predicate AtSuccessor(h: Heap, root: Ptr, p: Path, n: Tree, rel: Path, m: Tree) {
    && n.Node? && n.left.Node? && m.Node? && m.left.Leaf? && Zip(rel, m) == n.right && OnlyLeft(rel)
    && Focus(h, root, Append(rel, Down(R, p, n)), m)
  }

  /** No two of the pieces around `n` and its successor share a node. */
  ghost predicate Apart(p: Path, n: Tree, rel: Path, m: Tree) {
    && n.Node? && n.left.Node? && m.Node? && m.left.Leaf? && n.id != NULL && m.id != NULL && OnlyLeft(rel)
    && DistinctPath(rel) && DistinctPath(p) && Distinct(n.left) && Distinct(m)
    && PathIds(rel) !! PathIds(p) && PathIds(rel) !! Ids(n.left) && PathIds(rel) !! Ids(m)
    && PathIds(p) !! Ids(n.left) && PathIds(p) !! Ids(m) && Ids(n.left) !! Ids(m)
    && n.id !in PathIds(rel) && n.id !in PathIds(p) && n.id !in Ids(m) && n.id !in Ids(n.left)
  }

  /** The links out of each piece: child of `p`, parent of `n.left`, child and top of `rel`, parent of `m.right`. */
  datatype Links = Links(above: Ptr, left: Ptr, inner: Ptr, top: Ptr, child: Ptr)

  ghost predicate Pieces(h: Heap, p: Path, n: Tree, rel: Path, m: Tree, k: Links)
    requires n.Node? && m.Node?
  {
    && RepPath(h, p, k.above, NULL) && Rep(h, n.left, k.left)
    && RepPath(h, rel, k.inner, k.top) && Rep(h, m.right, k.child)
  }

  /** The facts a move of the successor starts from. */
  lemma SuccessorParts(h: Heap, root: Ptr, p: Path, n: Tree, rel: Path, m: Tree)
    requires AtSuccessor(h, root, p, n, rel, m)
    ensures Apart(p, n, rel, m)
    ensures Pieces(h, p, n, rel, m, Links(n.id, n.id, m.id, n.id, m.id))
    ensures m.id in h && h[m.id] == Cell(m.key, m.color, NULL, Id(m.right), TopOr(rel, n.id))
    ensures n.id in h && h[n.id] == Cell(n.key, n.color, n.left.id, RootId(rel, m.id), PathId(p))
    ensures root == RootId(p, n.id)
  {
    RepAppend(h, rel, Down(R, p, n), m.id, NULL);
    ZipId(rel, m);
  }

  lemma {:induction false} ZipId(p: Path, t: Tree)
    ensures Id(Zip(p, t)) == RootId(p, Id(t))
    decreases p
  {
    if p.Frame? {
      ZipId(p.up, Make(p.side, p.id, p.color, p.key, t, p.sibling));
    }
  }

  // Each pointer assignment of the move changes one link of one piece.

  lemma EditNode(h: Heap, p: Path, n: Tree, rel: Path, m: Tree, k: Links, c: Cell)
    requires Apart(p, n, rel, m) && Pieces(h, p, n, rel, m, k)
    ensures Pieces(h[m.id := c], p, n, rel, m, k)
  {
    var h' := h[m.id := c];
    PathAgree(h, h', p, k.above, NULL);
    RepAgree(h, h', n.left, k.left);
    PathAgree(h, h', rel, k.inner, k.top);
    RepAgree(h, h', m.right, k.child);
  }

  lemma EditAbove(h: Heap, p: Path, n: Tree, rel: Path, m: Tree, k: Links, x: Ptr)
    requires Apart(p, n, rel, m) && Pieces(h, p, n, rel, m, k)
    ensures p.Frame? ==> p.id in h && p.id in PathIds(p)
    ensures Pieces(SetChild(h, p, x), p, n, rel, m, k.(above := x))
  {
    var h' := SetChild(h, p, x);
    Rechild(h, p, k.above, x, NULL);
    RepAgree(h, h', n.left, k.left);
    PathAgree(h, h', rel, k.inner, k.top);
    RepAgree(h, h', m.right, k.child);
  }

  lemma EditChild(h: Heap, p: Path, n: Tree, rel: Path, m: Tree, k: Links, x: Ptr)
    requires Apart(p, n, rel, m) && Pieces(h, p, n, rel, m, k)
    ensures m.right.Node? ==> m.right.id in h && m.right.id != NULL && m.right.id in Ids(m) && m.right.id != m.id
    ensures Pieces(SetParent(h, Id(m.right), x), p, n, rel, m, k.(child := x))
  {
    var h' := SetParent(h, Id(m.right), x);
    PathAgree(h, h', p, k.above, NULL);
    RepAgree(h, h', n.left, k.left);
    PathAgree(h, h', rel, k.inner, k.top);
    Reparent(h, m.right, k.child, x);
  }

  lemma EditLeft(h: Heap, p: Path, n: Tree, rel: Path, m: Tree, k: Links, x: Ptr)
    requires Apart(p, n, rel, m) && Pieces(h, p, n, rel, m, k)
    ensures n.left.id in h && n.left.id in Ids(n.left)
    ensures Pieces(h[n.left.id := h[n.left.id].(parent := x)], p, n, rel, m, k.(left := x))
  {
    var h' := h[n.left.id := h[n.left.id].(parent := x)];
    assert h' == SetParent(h, n.left.id, x);
    PathAgree(h, h', p, k.above, NULL);
    Reparent(h, n.left, k.left, x);
    PathAgree(h, h', rel, k.inner, k.top);
    RepAgree(h, h', m.right, k.child);
  }

  lemma EditInner(h: Heap, p: Path, n: Tree, rel: Path, m: Tree, k: Links, x: Ptr)
    requires Apart(p, n, rel, m) && Pieces(h, p, n, rel, m, k) && rel.Frame?
    ensures rel.id in h && rel.id in PathIds(rel)
    ensures Pieces(h[rel.id := h[rel.id].(left := x)], p, n, rel, m, k.(inner := x))
  {
    var h' := h[rel.id := h[rel.id].(left := x)];
    PathAgree(h, h', p, k.above, NULL);
    RepAgree(h, h', n.left, k.left);
    Rechild(h, rel, k.inner, x, k.top);
    RepAgree(h, h', m.right, k.child);
  }

  lemma EditTop(h: Heap, p: Path, n: Tree, rel: Path, m: Tree, k: Links, r: Ptr, x: Ptr)
    requires Apart(p, n, rel, m) && Pieces(h, p, n, rel, m, k) && rel.Frame? && r == RootId(rel, m.id)
    ensures r in h && r in PathIds(rel)
    ensures Pieces(h[r := h[r].(parent := x)], p, n, rel, m, k.(top := x))
  {
    RootInPath(rel, m.id);
    PathKeys(h, rel, k.inner, k.top);
    var h' := h[r := h[r].(parent := x)];
    PathAgree(h, h', p, k.above, NULL);
    RepAgree(h, h', n.left, k.left);
    Retop(h, rel, k.inner, k.top, x);
    RepAgree(h, h', m.right, k.child);
  }

  /** With all links set, the heap holds the tree without `n`, in focus at the child of the successor. */
  lemma PiecesFocus(h: Heap, p: Path, n: Tree, rel: Path, m: Tree)
    requires Apart(p, n, rel, m)
    requires Pieces(h, p, n, rel, m, Links(m.id, m.id, Id(m.right), m.id, TopOr(rel, m.id)))
    requires m.id in h && h[m.id] == Cell(m.key, n.color, n.left.id, RootId(rel, Id(m.right)), PathId(p))
    ensures Focus(h, RootId(p, m.id), Replaced(p, n, rel, m), m.right)
    ensures PathIds(Replaced(p, n, rel, m)) + Ids(m.right) == PathIds(rel) + PathIds(p) + Ids(n.left) + Ids(m)
    ensures PathId(Replaced(p, n, rel, m)) == TopOr(rel, m.id)
  {
    RepAppend(h, rel, Frame(R, m.id, n.color, m.key, n.left, p), Id(m.right), NULL);
  }

  /** A node and its parent, as the program tells them apart. */
  lemma UnlinkReads(h: Heap, root: Ptr, p: Path, n: Tree)
    requires Focus(h, root, p, n) && n.Node?
    ensures n.id in h && n.id != NULL && h[n.id] == Cell(n.key, n.color, Id(n.left), Id(n.right), PathId(p))
    ensures n.left.Node? ==> n.left.id != NULL
    ensures n.right.Node? ==> n.right.id != NULL
    ensures p.Frame? ==> p.id in h && p.id != NULL && (h[p.id].left == n.id <==> p.side.L?)
    ensures p.Frame? ==> (n.left.Node? ==> n.left.id != p.id) && (n.right.Node? ==> n.right.id != p.id)
    ensures root == RootId(p, n.id)
  {
    assert Distinct(n.left) && Distinct(n.right);
    if p.Frame? {
      Neighbours(h, root, p, n);
    }
  }

  lemma UnlinkAbove(h: Heap, p: Path, x: Ptr)
    requires RepPath(h, p, x, NULL) && DistinctPath(p) && x != NULL && x !in PathIds(p)
    ensures p.Frame? ==> p.id in h && (h[p.id].left == x <==> p.side.L?)
  {
    if p.Frame? && p.sibling.Node? {
      assert p.sibling.id in PathIds(p);
    }
  }

  /** Replacing `n` by its successor loses the node `n` and no other. */
  lemma ReplacedIds(h: Heap, root: Ptr, p: Path, n: Tree, rel: Path, m: Tree)
    requires AtSuccessor(h, root, p, n, rel, m)
    ensures PathIds(Replaced(p, n, rel, m)) + Ids(m.right) + {n.id} == PathIds(p) + Ids(n)
    ensures n.id !in PathIds(Replaced(p, n, rel, m)) + Ids(m.right)
  {
    SuccessorParts(h, root, p, n, rel, m);
    RepAppend(h, rel, Frame(R, m.id, n.color, m.key, n.left, p), Id(m.right), NULL);
    FocusZip(h, root, rel, m);
    assert Ids(n.right) == PathIds(rel) + Ids(m);
  }
}
