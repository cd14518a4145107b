/** The red-black tree of cpp/tree/rbTree.cpp: nodes with parent links, rewritten in place. */
module RedBlackTree {
  import opened Memory
  import opened RbTree
  import opened RbHeap

  class RBTree {
    var root: Ptr
    var nodes: Heap

    /** The value the nodes represent. */
    ghost var tree: Tree

    /** Consistent links, the red-black rules, and keys in non-decreasing order; no node is leaked. */
    ghost predicate Valid()
      reads this
    {
      && Focus(nodes, root, Top, tree) && nodes.Keys == Ids(tree)
      && RedBlack(tree) && SortedByKey(InOrder(tree))
    }

    constructor ()
      ensures Valid() && InOrder(tree) == []
    {
      root, nodes, tree := NULL, map[], Leaf;
    }

    method SetLeft(x: Ptr, v: Ptr)
      requires x in nodes
      modifies this`nodes
      ensures nodes == old(nodes)[x := old(nodes)[x].(left := v)]
    {
      nodes := nodes[x := nodes[x].(left := v)];
    }

    method SetRight(x: Ptr, v: Ptr)
      requires x in nodes
      modifies this`nodes
      ensures nodes == old(nodes)[x := old(nodes)[x].(right := v)]
    {
      nodes := nodes[x := nodes[x].(right := v)];
    }

    method SetParentField(x: Ptr, v: Ptr)
      requires x in nodes
      modifies this`nodes
      ensures nodes == old(nodes)[x := old(nodes)[x].(parent := v)]
    {
      nodes := nodes[x := nodes[x].(parent := v)];
    }

    /** Recolour the node in focus. */
    method SetColor(x: Ptr, c: Color, ghost p: Path, ghost t: Tree)
      requires Focus(nodes, root, p, t) && t.Node? && x == t.id
      modifies this`nodes
      ensures Focus(nodes, root, p, t.(color := c)) && nodes.Keys == old(nodes.Keys)
      ensures Ids(t.(color := c)) == Ids(t)
    {
      Recolor(nodes, root, p, t, c);
      nodes := nodes[x := nodes[x].(color := c)];
    }

    /** Make `y` take the place of `x` as a child of the node above, or as the root. */
    method ReplaceChild(above: Ptr, x: Ptr, y: Ptr, ghost p: Path)
      requires DistinctPath(p) && above == PathId(p) && (p.Frame? ==> p.id in nodes)
      requires p.Frame? ==> (if p.side.L? then nodes[p.id].left == x else nodes[p.id].left != x)
      requires root == RootId(p, x)
      modifies this`nodes, this`root
      ensures nodes == SetChild(old(nodes), p, y) && root == RootId(p, y)
    {
      if above == NULL {
        root := y;
      } else if nodes[above].left == x {
        SetLeft(above, y);
      } else {
        SetRight(above, y);
      }
    }

    /** The same, written with the test on the right child first. */
    method ReplaceChildRightFirst(above: Ptr, x: Ptr, y: Ptr, ghost p: Path)
      requires DistinctPath(p) && above == PathId(p) && (p.Frame? ==> p.id in nodes)
      requires p.Frame? ==> (if p.side.R? then nodes[p.id].right == x else nodes[p.id].right != x)
      requires root == RootId(p, x)
      modifies this`nodes, this`root
      ensures nodes == SetChild(old(nodes), p, y) && root == RootId(p, y)
    {
      if above == NULL {
        root := y;
      } else if nodes[above].right == x {
        SetRight(above, y);
      } else {
        SetLeft(above, y);
      }
    }

    method LeftRotate(x: Ptr, ghost p: Path, ghost t: Tree)
      requires Focus(nodes, root, p, t) && t.Node? && t.right.Node? && x == t.id
      modifies this`nodes, this`root
      ensures Focus(nodes, root, p, RotateLeft(t)) && nodes.Keys == old(nodes.Keys)
      ensures Ids(RotateLeft(t)) == Ids(t)
    {
      LeftRotatedCells(nodes, p, t);
      LeftRotatedFocus(nodes, p, t);
      var y := nodes[x].right;
      assert Rep(nodes, t.right, x) && Distinct(t.right) && Rep(nodes, t.right.left, y) && Distinct(t.right.left);
      SetRight(x, nodes[y].left);
      if nodes[y].left != NULL {
        SetParentField(nodes[y].left, x);
      }
      SetParentField(y, nodes[x].parent);
      ReplaceChild(nodes[x].parent, x, y, p);
      SetLeft(y, x);
      SetParentField(x, y);
    }

    method RightRotate(y: Ptr, ghost p: Path, ghost t: Tree)
      requires Focus(nodes, root, p, t) && t.Node? && t.left.Node? && y == t.id
      modifies this`nodes, this`root
      ensures Focus(nodes, root, p, RotateRight(t)) && nodes.Keys == old(nodes.Keys)
      ensures Ids(RotateRight(t)) == Ids(t)
    {
      RightRotatedCells(nodes, p, t);
      RightRotatedFocus(nodes, p, t);
      var x := nodes[y].left;
      assert Rep(nodes, t.left, y) && Distinct(t.left) && Rep(nodes, t.left.right, x) && Distinct(t.left.right);
      SetLeft(y, nodes[x].right);
      if nodes[x].right != NULL {
        SetParentField(nodes[x].right, y);
      }
      SetParentField(x, nodes[y].parent);
      ReplaceChildRightFirst(nodes[y].parent, y, x, p);
      SetRight(x, y);
      SetParentField(y, x);
    }

    /** Insertion, case 1: uncle and parent turn black, the grandparent red. */
    method RecolorFamily(uncle: Ptr, parent: Ptr, gparent: Ptr, ghost p: Path, ghost t: Tree)
      requires Focus(nodes, root, p, t) && InsertState(p, t) && PathRed(p) && p.up.Frame? && IsRed(p.up.sibling)
      requires parent == p.id && gparent == p.up.id && uncle == p.up.sibling.id
      modifies this`nodes
      ensures var g := p.up;
              var t' := Make(g.side, g.id, Red, g.key, Make(p.side, p.id, Black, p.key, t, p.sibling),
                  g.sibling.(color := Black));
              Focus(nodes, root, g.up, t') && PathIds(g.up) + Ids(t') == PathIds(p) + Ids(t)
      ensures nodes.Keys == old(nodes.Keys)
    {
      ghost var g := p.up;
      ghost var pt := Make(p.side, p.id, Red, p.key, t, p.sibling);
      FocusUp(nodes, root, p, t);
      FocusSibling(nodes, root, g, pt);
      ghost var su := Frame(Opposite(g.side), g.id, g.color, g.key, pt, g.up);
      SetColor(uncle, Black, su, g.sibling);
      FocusSibling(nodes, root, su, g.sibling.(color := Black));
      ghost var g' := g.(sibling := g.sibling.(color := Black));
      SetColor(parent, Black, g', pt);
      FocusUp(nodes, root, g', pt.(color := Black));
      SetColor(gparent, Red, g.up, Make(g.side, g.id, g.color, g.key, pt.(color := Black), g'.sibling));
    }

    /** Insertion, case 3 on the left: recolour and rotate the grandparent to the right. */
    method RotateOuterLeft(parent: Ptr, gparent: Ptr, ghost p: Path, ghost t: Tree)
      requires Focus(nodes, root, p, t) && p.Frame? && p.side.L? && p.up.Frame? && p.up.side.L?
      requires parent == p.id && gparent == p.up.id
      modifies this`nodes, this`root
      ensures var g := p.up;
              var p' := Frame(L, p.id, Black, p.key, Node(g.id, Red, g.key, p.sibling, g.sibling), g.up);
              Focus(nodes, root, p', t) && PathIds(p') + Ids(t) == PathIds(p) + Ids(t)
      ensures nodes.Keys == old(nodes.Keys)
    {
      ghost var g := p.up;
      FocusUp(nodes, root, p, t);
      SetColor(parent, Black, g, Node(p.id, p.color, p.key, t, p.sibling));
      ghost var pt := Node(p.id, Black, p.key, t, p.sibling);
      FocusUp(nodes, root, g, pt);
      SetColor(gparent, Red, g.up, Node(g.id, g.color, g.key, pt, g.sibling));
      RightRotate(gparent, g.up, Node(g.id, Red, g.key, pt, g.sibling));
      FocusUp(nodes, root, Frame(L, p.id, Black, p.key, Node(g.id, Red, g.key, p.sibling, g.sibling), g.up), t);
    }

    /** Insertion, case 3 on the right. */
    method RotateOuterRight(parent: Ptr, gparent: Ptr, ghost p: Path, ghost t: Tree)
      requires Focus(nodes, root, p, t) && p.Frame? && p.side.R? && p.up.Frame? && p.up.side.R?
      requires parent == p.id && gparent == p.up.id
      modifies this`nodes, this`root
      ensures var g := p.up;
              var p' := Frame(R, p.id, Black, p.key, Node(g.id, Red, g.key, g.sibling, p.sibling), g.up);
              Focus(nodes, root, p', t) && PathIds(p') + Ids(t) == PathIds(p) + Ids(t)
      ensures nodes.Keys == old(nodes.Keys)
    {
      ghost var g := p.up;
      FocusUp(nodes, root, p, t);
      SetColor(parent, Black, g, Node(p.id, p.color, p.key, p.sibling, t));
      ghost var pt := Node(p.id, Black, p.key, p.sibling, t);
      FocusUp(nodes, root, g, pt);
      SetColor(gparent, Red, g.up, Node(g.id, g.color, g.key, g.sibling, pt));
      LeftRotate(gparent, g.up, Node(g.id, Red, g.key, g.sibling, pt));
      FocusUp(nodes, root, Frame(R, p.id, Black, p.key, Node(g.id, Red, g.key, g.sibling, p.sibling), g.up), t);
    }

    /** Insertion, case 2: rotate the inner child above its parent. */
    method RotateInnerLeft(parent: Ptr, ghost p: Path, ghost t: Tree)
      requires Focus(nodes, root, p, t) && t.Node? && p.Frame? && p.side.R? && parent == p.id
      modifies this`nodes, this`root
      ensures var p' := Frame(L, t.id, t.color, t.key, t.right, p.up);
              var t' := Node(p.id, p.color, p.key, p.sibling, t.left);
              Focus(nodes, root, p', t') && PathIds(p') + Ids(t') == PathIds(p) + Ids(t)
      ensures nodes.Keys == old(nodes.Keys)
    {
      FocusUp(nodes, root, p, t);
      LeftRotate(parent, p.up, Node(p.id, p.color, p.key, p.sibling, t));
      FocusUp(nodes, root, Frame(L, t.id, t.color, t.key, t.right, p.up),
          Node(p.id, p.color, p.key, p.sibling, t.left));
    }

    method RotateInnerRight(parent: Ptr, ghost p: Path, ghost t: Tree)
      requires Focus(nodes, root, p, t) && t.Node? && p.Frame? && p.side.L? && parent == p.id
      modifies this`nodes, this`root
      ensures var p' := Frame(R, t.id, t.color, t.key, t.left, p.up);
              var t' := Node(p.id, p.color, p.key, t.right, p.sibling);
              Focus(nodes, root, p', t') && PathIds(p') + Ids(t') == PathIds(p) + Ids(t)
      ensures nodes.Keys == old(nodes.Keys)
    {
      FocusUp(nodes, root, p, t);
      RightRotate(parent, p.up, Node(p.id, p.color, p.key, t, p.sibling));
      FocusUp(nodes, root, Frame(R, t.id, t.color, t.key, t.left, p.up),
          Node(p.id, p.color, p.key, t.right, p.sibling));
    }

    /** Restore the red-black rules from a red node below `p0`, without changing the order of the nodes. */
    method InsertFixUp(start: Ptr, ghost p0: Path, ghost t0: Tree) returns (ghost r: Tree)
      requires Focus(nodes, root, p0, t0) && InsertState(p0, t0) && start == t0.id
      modifies this`nodes, this`root
      ensures Focus(nodes, root, Top, r) && RedBlack(r)
      ensures InOrder(r) == InOrder(Zip(p0, t0)) && Ids(r) == PathIds(p0) + Ids(t0)
      ensures nodes.Keys == old(nodes.Keys)
    {
      var node := start;
      ghost var p, t := p0, t0;
      var parent := nodes[node].parent;
      while parent != NULL && nodes[parent].color == Red
        invariant Focus(nodes, root, p, t) && InsertState(p, t) && node == t.id && parent == PathId(p)
        invariant InOrder(Zip(p, t)) == InOrder(Zip(p0, t0)) && PathIds(p) + Ids(t) == PathIds(p0) + Ids(t0)
        invariant nodes.Keys == old(nodes.Keys)
        decreases PathLen(p)
      {
        InsertStateParent(p, t);
        assert PathLen(p) == 2 + PathLen(p.up.up);
        Neighbours(nodes, root, p, t);
        FocusUp(nodes, root, p, t);
        Neighbours(nodes, root, p.up, Make(p.side, p.id, p.color, p.key, t, p.sibling));
        var gparent := nodes[parent].parent;
        if parent == nodes[gparent].left {
          assert p.up.side.L?;
          var uncle := nodes[gparent].right;
          if uncle != NULL && nodes[uncle].color == Red {
            InsertRecolor(p, t);
            RecolorFamily(uncle, parent, gparent, p, t);
            t := Node(gparent, Red, p.up.key, Make(p.side, p.id, Black, p.key, t, p.sibling),
                p.up.sibling.(color := Black));
            p := p.up.up;
            node := gparent;
          } else {
            if nodes[parent].right == node {
              assert p.side.R?;
              InsertInner(p, t);
              RotateInnerLeft(parent, p, t);
              p, t := Frame(L, t.id, t.color, t.key, t.right, p.up), Node(p.id, p.color, p.key, p.sibling, t.left);
              parent, node := node, parent;
            }
            InsertOuter(p, t);
            RotateOuterLeft(parent, gparent, p, t);
            p := Frame(L, p.id, Black, p.key, Node(p.up.id, Red, p.up.key, p.sibling, p.up.sibling), p.up.up);
          }
        } else {
          assert p.up.side.R?;
          var uncle := nodes[gparent].left;
          if uncle != NULL && nodes[uncle].color == Red {
            InsertRecolor(p, t);
            RecolorFamily(uncle, parent, gparent, p, t);
            t := Node(gparent, Red, p.up.key, p.up.sibling.(color := Black),
                Make(p.side, p.id, Black, p.key, t, p.sibling));
            p := p.up.up;
            node := gparent;
          } else {
            if nodes[parent].left == node {
              assert p.side.L?;
              InsertInner(p, t);
              RotateInnerRight(parent, p, t);
              p, t := Frame(R, t.id, t.color, t.key, t.left, p.up), Node(p.id, p.color, p.key, t.right, p.sibling);
              parent, node := node, parent;
            }
            InsertOuter(p, t);
            RotateOuterRight(parent, gparent, p, t);
            p := Frame(R, p.id, Black, p.key, Node(p.up.id, Red, p.up.key, p.up.sibling, p.sibling), p.up.up);
          }
        }
        parent := nodes[node].parent;
      }
      InsertDone(p, t);
      FocusZip(nodes, root, p, t);
      SetColor(root, Black, Top, Zip(p, t));
      r := Blacken(Zip(p, t));
    }

    /** The descent of insert: where a new node with this key belongs. */
    method FindLeaf(node: Ptr, ghost key: int) returns (y: Ptr, ghost p: Path)
      requires node in nodes && nodes[node].key == key
      requires Focus(nodes - {node}, root, Top, tree) && SortedByKey(InOrder(tree))
      ensures Focus(nodes - {node}, root, p, Leaf) && Zip(p, Leaf) == tree && y == PathId(p)
      ensures Splits(p, key) && (p.Frame? ==> (p.side.L? <==> key < p.key))
    {
      ghost var h := nodes - {node};
      ghost var t := tree;
      p := Top;
      y := NULL;
      var x := root;
      while x != NULL
        invariant Focus(h, root, p, t) && Zip(p, t) == tree && x == Id(t) && y == PathId(p)
        invariant Splits(p, key) && (p.Frame? ==> (p.side.L? <==> key < p.key))
        decreases t
      {
        y := x;
        SplitsDown(p, t, key);
        if nodes[node].key < nodes[x].key {
          x := nodes[x].left;
          FocusUp(h, root, Down(L, p, t), t.left);
          p, t := Down(L, p, t), t.left;
        } else {
          x := nodes[x].right;
          FocusUp(h, root, Down(R, p, t), t.right);
          p, t := Down(R, p, t), t.right;
        }
      }
    }

    /** Link the fresh node as a red leaf at the end of the path. */
    method LinkLeaf(node: Ptr, y: Ptr, ghost key: int, ghost p: Path)
      requires node in nodes && node != NULL && nodes[node] == Cell(key, Black, NULL, NULL, NULL)
      requires Focus(nodes - {node}, root, p, Leaf) && y == PathId(p)
      requires p.Frame? ==> (p.side.L? <==> key < p.key)
      modifies this`nodes, this`root
      ensures Focus(nodes, root, p, Node(node, Red, key, Leaf, Leaf)) && nodes.Keys == old(nodes.Keys)
    {
      ghost var h := nodes - {node};
      HangLeaf(h, root, p, node, key);
      SetParentField(node, y);
      if y != NULL {
        if nodes[node].key < nodes[y].key {
          SetLeft(y, node);
        } else {
          SetRight(y, node);
        }
      } else {
        root := node;
      }
      nodes := nodes[node := nodes[node].(color := Red)];
      assert nodes == SetChild(h, p, node)[node := Cell(key, Red, NULL, NULL, PathId(p))];
    }

    /** Link the fresh node `node` as a leaf, then fix the tree up. */
    method InsertNode(node: Ptr, ghost key: int) returns (ghost i: nat)
      requires node in nodes && node != NULL && nodes[node] == Cell(key, Black, NULL, NULL, NULL)
      requires Focus(nodes - {node}, root, Top, tree) && nodes.Keys == Ids(tree) + {node}
      requires RedBlack(tree) && SortedByKey(InOrder(tree))
      modifies this
      ensures Valid() && i <= |old(InOrder(tree))|
      ensures InOrder(tree) == old(InOrder(tree))[..i] + [Item(node, key)] + old(InOrder(tree))[i..]
      ensures AllAtMost(old(InOrder(tree))[..i], key) && AllGreater(old(InOrder(tree))[i..], key)
    {
      var y; ghost var p;
      y, p := FindLeaf(node, key);
      FocusZip(nodes - {node}, root, p, Leaf);
      LinkLeaf(node, y, key, p);
      InsertStart(p, node, key);
      InsertedOrder(p, key, node);
      i := |Before(p)|;
      tree := InsertFixUp(node, p, Node(node, Red, key, Leaf, Leaf));
    }

    /** insert(int): exactly one new node holding `key`, placed after every key that is not greater. */
    method Insert(key: int) returns (ghost i: nat, ghost z: Ptr)
      requires Valid()
      modifies this
      ensures Valid() && i <= |old(InOrder(tree))|
      ensures InOrder(tree) == old(InOrder(tree))[..i] + [Item(z, key)] + old(InOrder(tree))[i..]
      ensures AllAtMost(old(InOrder(tree))[..i], key) && AllGreater(old(InOrder(tree))[i..], key)
    {
      var node := Allocate(nodes.Keys);
      ghost var h := nodes;
      nodes := nodes[node := Cell(key, Black, NULL, NULL, NULL)];
      assert nodes - {node} == h;
      i := InsertNode(node, key);
      z := node;
    }

    /** leftRotate for side L, rightRotate for side R: the far child of `x` rises above it. */
    method Rotate(side: Side, x: Ptr, ghost p: Path, ghost t: Tree)
      requires Focus(nodes, root, p, t) && t.Node? && x == t.id && Far(side, t).Node?
      modifies this`nodes, this`root
      ensures var y := Far(side, t);
              var t' := Make(side, y.id, y.color, y.key,
                  Make(side, t.id, t.color, t.key, Near(side, t), Near(side, y)), Far(side, y));
              Focus(nodes, root, p, t') && Ids(t') == Ids(t)
      ensures nodes.Keys == old(nodes.Keys)
    {
      if side == L {
        LeftRotate(x, p, t);
      } else {
        RightRotate(x, p, t);
      }
    }

    /** Recolour the sibling of the focus. */
    method SetSiblingColor(w: Ptr, c: Color, ghost p: Path, ghost t: Tree)
      requires Focus(nodes, root, p, t) && p.Frame? && p.sibling.Node? && w == p.sibling.id
      modifies this`nodes
      ensures Focus(nodes, root, p.(sibling := p.sibling.(color := c)), t) && nodes.Keys == old(nodes.Keys)
      ensures PathIds(p.(sibling := p.sibling.(color := c))) == PathIds(p)
    {
      ghost var q := Frame(Opposite(p.side), p.id, p.color, p.key, t, p.up);
      FocusSibling(nodes, root, p, t);
      SetColor(w, c, q, p.sibling);
      FocusSibling(nodes, root, q, p.sibling.(color := c));
    }

    /** Removal, case 1: the red sibling rises above the parent. */
    method RaiseRedSibling(side: Side, other: Ptr, parent: Ptr, ghost p: Path, ghost t: Tree)
      requires Focus(nodes, root, p, t) && p.Frame? && p.side == side && p.sibling.Node?
      requires other == p.sibling.id && parent == p.id
      modifies this`nodes, this`root
      ensures var w := p.sibling;
              var p' := Frame(side, p.id, Red, p.key, Near(side, w),
                  Frame(side, w.id, Black, w.key, Far(side, w), p.up));
              Focus(nodes, root, p', t) && PathIds(p') + Ids(t) == PathIds(p) + Ids(t)
      ensures nodes.Keys == old(nodes.Keys)
    {
      SetSiblingColor(other, Black, p, t);
      ghost var w := p.sibling.(color := Black);
      ghost var q := p.(sibling := w);
      FocusUp(nodes, root, q, t);
      SetColor(parent, Red, p.up, Make(side, p.id, p.color, p.key, t, w));
      Rotate(side, parent, p.up, Make(side, p.id, Red, p.key, t, w));
      ghost var low := Make(side, p.id, Red, p.key, t, Near(side, w));
      ghost var up := Frame(side, w.id, Black, w.key, Far(side, w), p.up);
      FocusUp(nodes, root, up, low);
      FocusUp(nodes, root, Frame(side, p.id, Red, p.key, Near(side, w), up), t);
    }

    /** Removal, case 3: the red near nephew rises above the sibling. */
    method RaiseNephew(side: Side, nephew: Ptr, other: Ptr, ghost p: Path, ghost t: Tree)
      requires Focus(nodes, root, p, t) && p.Frame? && p.side == side && p.sibling.Node? && Near(side, p.sibling).Node?
      requires other == p.sibling.id && nephew == Near(side, p.sibling).id
      modifies this`nodes, this`root
      ensures Focus(nodes, root, TurnNephew(side, p), t) && PathIds(TurnNephew(side, p)) == PathIds(p)
      ensures nodes.Keys == old(nodes.Keys)
    {
      ghost var w, n := p.sibling, Near(side, p.sibling);
      MakeNearFar(side, w);
      ghost var q := Frame(Opposite(side), p.id, p.color, p.key, t, p.up);
      FocusSibling(nodes, root, p, t);
      ghost var f := Frame(side, w.id, w.color, w.key, Far(side, w), q);
      FocusUp(nodes, root, f, n);
      SetColor(nephew, Black, f, n);
      FocusUp(nodes, root, f, n.(color := Black));
      SetColor(other, Red, q, Make(side, w.id, w.color, w.key, n.(color := Black), Far(side, w)));
      Rotate(Opposite(side), other, q, Make(side, w.id, Red, w.key, n.(color := Black), Far(side, w)));
      ghost var low := Make(side, w.id, Red, w.key, Far(side, n), Far(side, w));
      FocusSibling(nodes, root, q, Make(side, n.id, Black, n.key, Near(side, n), low));
    }

    /** Removal, case 4: the sibling takes the parent's place and colour. */
    method RaiseBlackSibling(side: Side, nephew: Ptr, other: Ptr, parent: Ptr, ghost p: Path, ghost t: Tree)
      requires Focus(nodes, root, p, t) && p.Frame? && p.side == side && p.sibling.Node? && Far(side, p.sibling).Node?
      requires other == p.sibling.id && nephew == Far(side, p.sibling).id && parent == p.id
      modifies this`nodes, this`root
      ensures var w := p.sibling;
              var low := Make(side, p.id, Black, p.key, t, Near(side, w));
              var t' := Make(side, w.id, p.color, w.key, low, Far(side, w).(color := Black));
              Focus(nodes, root, p.up, t') && PathIds(p.up) + Ids(t') == PathIds(p) + Ids(t)
      ensures nodes.Keys == old(nodes.Keys)
    {
      Neighbours(nodes, root, p, t);
      SetSiblingColor(other, nodes[parent].color, p, t);
      ghost var w := p.sibling.(color := p.color);
      ghost var q := p.(sibling := w);
      FocusUp(nodes, root, q, t);
      SetColor(parent, Black, p.up, Make(side, p.id, p.color, p.key, t, w));
      ghost var q' := q.(color := Black);
      FocusUp(nodes, root, q', t);
      FocusSibling(nodes, root, q', t);
      SetFarColor(side, nephew, Frame(Opposite(side), p.id, Black, p.key, t, p.up), w);
      ghost var far := Far(side, w).(color := Black);
      ghost var w' := Make(side, w.id, w.color, w.key, Near(side, w), far);
      FocusSibling(nodes, root, Frame(Opposite(side), p.id, Black, p.key, t, p.up), w');
      FocusUp(nodes, root, q'.(sibling := w'), t);
      Rotate(side, parent, p.up, Make(side, p.id, Black, p.key, t, w'));
    }

    /** Blacken the far child of the node in focus. */
    method SetFarColor(side: Side, far: Ptr, ghost p: Path, ghost t: Tree)
      requires Focus(nodes, root, p, t) && t.Node? && Far(side, t).Node? && far == Far(side, t).id
      modifies this`nodes
      ensures var t' := Make(side, t.id, t.color, t.key, Near(side, t), Far(side, t).(color := Black));
              Focus(nodes, root, p, t') && Ids(t') == Ids(t)
      ensures nodes.Keys == old(nodes.Keys)
    {
      MakeNearFar(side, t);
      ghost var f := Frame(Opposite(side), t.id, t.color, t.key, Near(side, t), p);
      FocusUp(nodes, root, f, Far(side, t));
      SetColor(far, Black, f, Far(side, t));
      FocusUp(nodes, root, f, Far(side, t).(color := Black));
    }

    /** Removal, case 2: both nephews are black, so the sibling turns red and the deficiency moves up. */
    method ReddenSibling(other: Ptr, parent: Ptr, ghost p: Path, ghost t: Tree) returns (parent': Ptr, ghost t': Tree)
      requires Focus(nodes, root, p, t) && RemoveState(p, t) && p.Frame? && parent == p.id && !IsRed(t)
      requires p.sibling.Node? && !IsRed(p.sibling) && other == p.sibling.id
      requires !IsRed(p.sibling.left) && !IsRed(p.sibling.right)
      modifies this`nodes
      ensures Focus(nodes, root, p.up, t') && RemoveState(p.up, t') && t'.Node? && t'.id == parent
              && t'.color == p.color
      ensures parent' == PathId(p.up) && nodes.Keys == old(nodes.Keys)
      ensures InOrder(Zip(p.up, t')) == InOrder(Zip(p, t)) && PathIds(p.up) + Ids(t') == PathIds(p) + Ids(t)
    {
      RemoveRedden(p, t);
      SetSiblingColor(other, Red, p, t);
      FocusUp(nodes, root, p.(sibling := p.sibling.(color := Red)), t);
      t' := Make(p.side, p.id, p.color, p.key, t, p.sibling.(color := Red));
      parent' := nodes[parent].parent;
    }

    /** Removal, case 4: the far nephew is red and the last rotation repairs the whole tree. */
    method RotateLast(side: Side, nephew: Ptr, other: Ptr, parent: Ptr, ghost p: Path, ghost t: Tree)
      returns (ghost t': Tree)
      requires Focus(nodes, root, p, t) && RemoveState(p, t) && p.Frame? && p.side == side && parent == p.id
               && !IsRed(t)
      requires p.sibling.Node? && !IsRed(p.sibling) && other == p.sibling.id
      requires IsRed(Far(side, p.sibling)) && nephew == Far(side, p.sibling).id
      modifies this`nodes, this`root
      ensures Focus(nodes, root, Top, t') && RemoveState(Top, t')
      ensures InOrder(t') == InOrder(Zip(p, t)) && Ids(t') == PathIds(p) + Ids(t) && nodes.Keys == old(nodes.Keys)
    {
      RemoveLastRotation(p, t);
      RaiseBlackSibling(side, nephew, other, parent, p, t);
      t' := LastRotation(side, p, t);
      FocusZip(nodes, root, p.up, t');
      t' := Zip(p.up, t');
    }

    /** Removal, cases 2 to 4, for a left child with a black sibling. */
    method SettleLeft(other0: Ptr, parent: Ptr, ghost p0: Path, ghost t0: Tree)
      returns (done: bool, node': Ptr, parent': Ptr, ghost p: Path, ghost t: Tree)
      requires Focus(nodes, root, p0, t0) && RemoveState(p0, t0) && p0.Frame? && p0.side.L? && parent == p0.id
      requires !IsRed(t0) && p0.sibling.Node? && !IsRed(p0.sibling) && other0 == p0.sibling.id
      modifies this`nodes, this`root
      ensures Focus(nodes, root, p, t) && RemoveState(p, t) && node' == Id(t) && parent' == PathId(p)
      ensures InOrder(Zip(p, t)) == InOrder(Zip(p0, t0)) && PathIds(p) + Ids(t) == PathIds(p0) + Ids(t0)
      ensures nodes.Keys == old(nodes.Keys)
      ensures if done then p.Top? else p == p0.up && t.Node? && t.color == p0.color
    {
      p, t, done := p0, t0, false;
      var other := other0;
      Nephews(nodes, root, p, t);
      if (nodes[other].left == NULL || nodes[nodes[other].left].color == Black) &&
         (nodes[other].right == NULL || nodes[nodes[other].right].color == Black) {
        parent', t := ReddenSibling(other, parent, p, t);
        p, node' := p.up, parent;
      } else {
        if nodes[other].right == NULL || nodes[nodes[other].right].color == Black {
          RemoveTurnNephew(p, t);
          RaiseNephew(L, nodes[other].left, other, p, t);
          p := TurnNephew(L, p);
          Neighbours(nodes, root, p, t);
          Nephews(nodes, root, p, t);
          other := nodes[parent].right;
        }
        t := RotateLast(L, nodes[other].right, other, parent, p, t);
        p, done, node', parent' := Top, true, root, NULL;
      }
    }

    /** One round of the removal fix-up when the deficient node is a left child. */
    method RemoveRoundLeft(node: Ptr, parent: Ptr, ghost p0: Path, ghost t0: Tree)
      returns (done: bool, node': Ptr, parent': Ptr, ghost p: Path, ghost t: Tree)
      requires Focus(nodes, root, p0, t0) && RemoveState(p0, t0) && node == Id(t0) && parent == PathId(p0)
      requires !IsRed(t0) && p0.Frame? && p0.side.L?
      modifies this`nodes, this`root
      ensures Focus(nodes, root, p, t) && RemoveState(p, t) && node' == Id(t) && parent' == PathId(p)
      ensures InOrder(Zip(p, t)) == InOrder(Zip(p0, t0)) && PathIds(p) + Ids(t) == PathIds(p0) + Ids(t0)
      ensures nodes.Keys == old(nodes.Keys)
      ensures if done then p.Top? else RemoveMeasure(p, t) < RemoveMeasure(p0, t0)
    {
      ghost var q := p0;
      SiblingExists(q, t0);
      Neighbours(nodes, root, q, t0);
      var other := nodes[parent].right;
      if nodes[other].color == Red {
        RemoveRedSibling(q, t0);
        RaiseRedSibling(L, other, parent, q, t0);
        q := Frame(L, q.id, Red, q.key, q.sibling.left,
            Frame(L, q.sibling.id, Black, q.sibling.key, q.sibling.right, q.up));
        SiblingExists(q, t0);
        Neighbours(nodes, root, q, t0);
        other := nodes[parent].right;
      }
      done, node', parent', p, t := SettleLeft(other, parent, q, t0);
    }

    /** Removal, cases 2 to 4, for a right child with a black sibling. */
    method SettleRight(other0: Ptr, parent: Ptr, ghost p0: Path, ghost t0: Tree)
      returns (done: bool, node': Ptr, parent': Ptr, ghost p: Path, ghost t: Tree)
      requires Focus(nodes, root, p0, t0) && RemoveState(p0, t0) && p0.Frame? && p0.side.R? && parent == p0.id
      requires !IsRed(t0) && p0.sibling.Node? && !IsRed(p0.sibling) && other0 == p0.sibling.id
      modifies this`nodes, this`root
      ensures Focus(nodes, root, p, t) && RemoveState(p, t) && node' == Id(t) && parent' == PathId(p)
      ensures InOrder(Zip(p, t)) == InOrder(Zip(p0, t0)) && PathIds(p) + Ids(t) == PathIds(p0) + Ids(t0)
      ensures nodes.Keys == old(nodes.Keys)
      ensures if done then p.Top? else p == p0.up && t.Node? && t.color == p0.color
    {
      p, t, done := p0, t0, false;
      var other := other0;
      Nephews(nodes, root, p, t);
      if (nodes[other].left == NULL || nodes[nodes[other].left].color == Black) &&
         (nodes[other].right == NULL || nodes[nodes[other].right].color == Black) {
        parent', t := ReddenSibling(other, parent, p, t);
        p, node' := p.up, parent;
      } else {
        if nodes[other].left == NULL || nodes[nodes[other].left].color == Black {
          RemoveTurnNephew(p, t);
          RaiseNephew(R, nodes[other].right, other, p, t);
          p := TurnNephew(R, p);
          Neighbours(nodes, root, p, t);
          Nephews(nodes, root, p, t);
          other := nodes[parent].left;
        }
        t := RotateLast(R, nodes[other].left, other, parent, p, t);
        p, done, node', parent' := Top, true, root, NULL;
      }
    }

    /** One round of the removal fix-up when the deficient node is a right child. */
    method RemoveRoundRight(node: Ptr, parent: Ptr, ghost p0: Path, ghost t0: Tree)
      returns (done: bool, node': Ptr, parent': Ptr, ghost p: Path, ghost t: Tree)
      requires Focus(nodes, root, p0, t0) && RemoveState(p0, t0) && node == Id(t0) && parent == PathId(p0)
      requires !IsRed(t0) && p0.Frame? && p0.side.R?
      modifies this`nodes, this`root
      ensures Focus(nodes, root, p, t) && RemoveState(p, t) && node' == Id(t) && parent' == PathId(p)
      ensures InOrder(Zip(p, t)) == InOrder(Zip(p0, t0)) && PathIds(p) + Ids(t) == PathIds(p0) + Ids(t0)
      ensures nodes.Keys == old(nodes.Keys)
      ensures if done then p.Top? else RemoveMeasure(p, t) < RemoveMeasure(p0, t0)
    {
      ghost var q := p0;
      SiblingExists(q, t0);
      Neighbours(nodes, root, q, t0);
      var other := nodes[parent].left;
      if nodes[other].color == Red {
        RemoveRedSibling(q, t0);
        RaiseRedSibling(R, other, parent, q, t0);
        q := Frame(R, q.id, Red, q.key, q.sibling.right,
            Frame(R, q.sibling.id, Black, q.sibling.key, q.sibling.left, q.up));
        SiblingExists(q, t0);
        Neighbours(nodes, root, q, t0);
        other := nodes[parent].left;
      }
      done, node', parent', p, t := SettleRight(other, parent, q, t0);
    }

    /** Restore the red-black rules when one black node is missing below `p0`; the order of the nodes stays. */
    method RemoveFixUp(start: Ptr, above: Ptr, ghost p0: Path, ghost t0: Tree) returns (ghost r: Tree)
      requires Focus(nodes, root, p0, t0) && RemoveState(p0, t0) && start == Id(t0) && above == PathId(p0)
      modifies this`nodes, this`root
      ensures Focus(nodes, root, Top, r) && RedBlack(r)
      ensures InOrder(r) == InOrder(Zip(p0, t0)) && Ids(r) == PathIds(p0) + Ids(t0)
      ensures nodes.Keys == old(nodes.Keys)
    {
      var node, parent := start, above;
      ghost var p, t := p0, t0;
      while (node == NULL || nodes[node].color == Black) && node != root
        invariant Focus(nodes, root, p, t) && RemoveState(p, t) && node == Id(t) && parent == PathId(p)
        invariant InOrder(Zip(p, t)) == InOrder(Zip(p0, t0)) && PathIds(p) + Ids(t) == PathIds(p0) + Ids(t0)
        invariant nodes.Keys == old(nodes.Keys)
        decreases RemoveMeasure(p, t)
      {
        SiblingExists(p, t);
        Neighbours(nodes, root, p, t);
        var done;
        if nodes[parent].left == node {
          done, node, parent, p, t := RemoveRoundLeft(node, parent, p, t);
        } else {
          done, node, parent, p, t := RemoveRoundRight(node, parent, p, t);
        }
        if done {
          break;
        }
      }
      if p.Frame? {
        Neighbours(nodes, root, p, t);
      }
      r := BlackenFocus(node, p, t);
    }

    /** The end of the removal fix-up: blacken the node it stopped at. */
    method BlackenFocus(node: Ptr, ghost p: Path, ghost t: Tree) returns (ghost r: Tree)
      requires Focus(nodes, root, p, t) && RemoveState(p, t) && node == Id(t) && (IsRed(t) || p.Top?)
      modifies this`nodes
      ensures Focus(nodes, root, Top, r) && RedBlack(r) && nodes.Keys == old(nodes.Keys)
      ensures InOrder(r) == InOrder(Zip(p, t)) && Ids(r) == PathIds(p) + Ids(t)
    {
      RemoveDone(p, t);
      if node != NULL {
        SetColor(node, Black, p, t);
      }
      FocusZip(nodes, root, p, Blacken(t));
      r := Zip(p, Blacken(t));
    }

    /** The only child takes the place of the node to delete. */
    method LinkOnlyChild(node: Ptr, ghost p: Path, ghost n: Tree) returns (child: Ptr, parent: Ptr, color: Color)
      requires Focus(nodes, root, p, n) && n.Node? && n.id == node
      requires n.left.Leaf? || n.right.Leaf?
      modifies this`nodes, this`root
      ensures var c := if n.left.Node? then n.left else n.right;
              && Focus(nodes, root, p, c) && node !in PathIds(p) + Ids(c)
                   && PathIds(p) + Ids(c) + {node} == PathIds(p) + Ids(n)
              && child == Id(c)
      ensures parent == PathId(p) && color == n.color && nodes.Keys == old(nodes.Keys)
    {
      ghost var c := if n.left.Node? then n.left else n.right;
      UnlinkReads(nodes, root, p, n);
      Splice(nodes, root, p, n, c);
      child := if nodes[node].left != NULL then nodes[node].left else nodes[node].right;
      parent, color := nodes[node].parent, nodes[node].color;
      if child != NULL {
        SetParentField(child, parent);
      }
      ReplaceChild(parent, node, child, p);
    }

    /** Removal of a node with at most one child: fix the tree up if a black node went. */
    method UnlinkSimple(node: Ptr, ghost p: Path, ghost n: Tree) returns (ghost r: Tree)
      requires Focus(nodes, root, p, n) && n.Node? && n.id == node && RedBlack(Zip(p, n))
      requires n.left.Leaf? || n.right.Leaf?
      modifies this`nodes, this`root
      ensures Focus(nodes, root, Top, r) && RedBlack(r) && nodes.Keys == old(nodes.Keys)
      ensures Ids(r) + {node} == PathIds(p) + Ids(n) && node !in Ids(r)
      ensures Dropped(InOrder(Zip(p, n)), InOrder(r), |Before(p)| + |InOrder(n.left)|, Item(n.id, n.key))
    {
      ghost var c := if n.left.Node? then n.left else n.right;
      SpliceOrder(p, n, c);
      RedBlackZip(p, n);
      RedBlackZip(p, c);
      SpliceState(p, n, c);
      var child, parent, color := LinkOnlyChild(node, p, n);
      if color == Black {
        r := RemoveFixUp(child, parent, p, c);
      } else {
        FocusZip(nodes, root, p, c);
        r := Zip(p, c);
      }
    }

    /** The leftmost node of the right subtree. */
    method FindReplacement(node: Ptr, ghost p: Path, ghost n: Tree)
      returns (replace: Ptr, ghost rel: Path, ghost m: Tree)
      requires Focus(nodes, root, p, n) && n.Node? && n.id == node && n.left.Node? && n.right.Node?
      ensures AtSuccessor(nodes, root, p, n, rel, m) && replace == m.id
    {
      replace := nodes[node].right;
      rel, m := Top, n.right;
      ghost var f := Down(R, p, n);
      FocusUp(nodes, root, f, m);
      while nodes[replace].left != NULL
        invariant m.Node? && replace == m.id && Zip(rel, m) == n.right && OnlyLeft(rel)
        invariant Focus(nodes, root, Append(rel, f), m)
        decreases m
      {
        replace := nodes[replace].left;
        FocusUp(nodes, root, Append(Down(L, rel, m), f), m.left);
        rel, m := Down(L, rel, m), m.left;
      }
      assert Distinct(m.left);
    }

    /** The successor is not a child of the node: its own child takes its place, and it gets the right subtree. */
    method DetachReplacement(node: Ptr, replace: Ptr, child: Ptr, parent: Ptr, ghost p: Path, ghost n: Tree,
      ghost rel: Path, ghost m: Tree)
      requires Apart(p, n, rel, m) && rel.Frame? && Pieces(nodes, p, n, rel, m, Links(m.id, n.id, m.id, n.id, m.id))
      requires n.id in nodes && nodes[n.id] == Cell(n.key, n.color, n.left.id, RootId(rel, m.id), PathId(p))
      requires m.id in nodes && node == n.id && replace == m.id && child == Id(m.right) && parent == rel.id
      modifies this`nodes
      ensures Pieces(nodes, p, n, rel, m, Links(m.id, n.id, Id(m.right), m.id, rel.id))
      ensures nodes.Keys == old(nodes.Keys) && nodes[n.id] == old(nodes[n.id])
      ensures nodes[m.id] == old(nodes[m.id]).(right := RootId(rel, Id(m.right)))
    {
      EditChild(nodes, p, n, rel, m, Links(m.id, n.id, m.id, n.id, m.id), parent);
      if child != NULL {
        SetParentField(child, parent);
      }
      EditInner(nodes, p, n, rel, m, Links(m.id, n.id, m.id, n.id, rel.id), child);
      SetLeft(parent, child);
      EditNode(nodes, p, n, rel, m, Links(m.id, n.id, child, n.id, rel.id),
          nodes[replace].(right := nodes[node].right));
      SetRight(replace, nodes[node].right);
      EditTop(nodes, p, n, rel, m, Links(m.id, n.id, child, n.id, rel.id), nodes[node].right, replace);
      SetParentField(nodes[node].right, replace);
    }

    /** The successor takes over parent, colour and left subtree. */
    method AdoptPlace(node: Ptr, replace: Ptr, ghost p: Path, ghost n: Tree, ghost rel: Path, ghost m: Tree)
      requires Apart(p, n, rel, m) && node == n.id && replace == m.id && root == RootId(p, m.id)
      requires Pieces(nodes, p, n, rel, m, Links(m.id, n.id, Id(m.right), m.id, TopOr(rel, m.id)))
      requires n.id in nodes && nodes[n.id].parent == PathId(p) && nodes[n.id].color == n.color
               && nodes[n.id].left == n.left.id
      requires m.id in nodes && nodes[m.id].key == m.key && nodes[m.id].right == RootId(rel, Id(m.right))
      modifies this`nodes
      ensures Focus(nodes, root, Replaced(p, n, rel, m), m.right) && nodes.Keys == old(nodes.Keys)
    {
      ghost var k := Links(m.id, n.id, Id(m.right), m.id, TopOr(rel, m.id));
      SetParentField(replace, nodes[node].parent);
      nodes := nodes[replace := nodes[replace].(color := nodes[node].color)];
      SetLeft(replace, nodes[node].left);
      assert nodes == old(nodes)[m.id := nodes[m.id]];
      EditNode(old(nodes), p, n, rel, m, k, nodes[m.id]);
      EditLeft(nodes, p, n, rel, m, k, replace);
      SetParentField(nodes[node].left, replace);
      PiecesFocus(nodes, p, n, rel, m);
    }

    /** The successor, as a node, takes the place of the node to delete. */
    method MoveReplacement(node: Ptr, replace: Ptr, ghost p: Path, ghost n: Tree, ghost rel: Path, ghost m: Tree)
      returns (child: Ptr, parent: Ptr, color: Color)
      requires AtSuccessor(nodes, root, p, n, rel, m) && node == n.id && replace == m.id
      modifies this`nodes, this`root
      ensures Focus(nodes, root, Replaced(p, n, rel, m), m.right) && nodes.Keys == old(nodes.Keys)
      ensures child == Id(m.right) && parent == PathId(Replaced(p, n, rel, m)) && color == m.color
    {
      SuccessorParts(nodes, root, p, n, rel, m);
      UnlinkAbove(nodes, p, node);
      EditAbove(nodes, p, n, rel, m, Links(n.id, n.id, m.id, n.id, m.id), replace);
      ReplaceChild(nodes[node].parent, node, replace, p);
      child := nodes[replace].right;
      parent := nodes[replace].parent;
      color := nodes[replace].color;
      if parent == node {
        parent := replace;
      } else {
        DetachReplacement(node, replace, child, parent, p, n, rel, m);
      }
      AdoptPlace(node, replace, p, n, rel, m);
    }

    /** Removal of a node with two children: its successor replaces it. */
    method UnlinkFull(node: Ptr, ghost p: Path, ghost n: Tree) returns (ghost r: Tree)
      requires Focus(nodes, root, p, n) && n.Node? && n.id == node && RedBlack(Zip(p, n))
      requires n.left.Node? && n.right.Node?
      modifies this`nodes, this`root
      ensures Focus(nodes, root, Top, r) && RedBlack(r) && nodes.Keys == old(nodes.Keys)
      ensures Ids(r) + {node} == PathIds(p) + Ids(n) && node !in Ids(r)
      ensures Dropped(InOrder(Zip(p, n)), InOrder(r), |Before(p)| + |InOrder(n.left)|, Item(n.id, n.key))
    {
      var replace; ghost var rel, m;
      replace, rel, m := FindReplacement(node, p, n);
      ReplacedState(p, n, rel, m);
      ReplacedOrder(p, n, rel, m);
      ReplacedIds(nodes, root, p, n, rel, m);
      var child, parent, color := MoveReplacement(node, replace, p, n, rel, m);
      ghost var q := Replaced(p, n, rel, m);
      if color == Black {
        r := RemoveFixUp(child, parent, q, m.right);
      } else {
        FocusZip(nodes, root, q, m.right);
        r := Zip(q, m.right);
      }
    }

    /** Take a node out of the links, whatever children it has. */
    method Unlink(node: Ptr, ghost p: Path, ghost n: Tree) returns (ghost r: Tree)
      requires Focus(nodes, root, p, n) && n.Node? && n.id == node && RedBlack(Zip(p, n))
      modifies this`nodes, this`root
      ensures Focus(nodes, root, Top, r) && RedBlack(r) && nodes.Keys == old(nodes.Keys)
      ensures Ids(r) + {node} == PathIds(p) + Ids(n) && node !in Ids(r)
      ensures Dropped(InOrder(Zip(p, n)), InOrder(r), |Before(p)| + |InOrder(n.left)|, Item(n.id, n.key))
    {
      UnlinkReads(nodes, root, p, n);
      if nodes[node].left != NULL && nodes[node].right != NULL {
        r := UnlinkFull(node, p, n);
      } else {
        r := UnlinkSimple(node, p, n);
      }
    }

    /** remove(RBTNode*): the node leaves the tree and is released; every other node keeps its place in order. */
    method RemoveNode(node: Ptr, ghost p: Path, ghost n: Tree)
      requires Valid() && Zip(p, n) == tree && n.Node? && n.id == node
      modifies this
      ensures Valid() && node !in nodes
      ensures Dropped(old(InOrder(tree)), InOrder(tree), |Before(p)| + |InOrder(n.left)|, Item(n.id, n.key))
    {
      FocusZip(nodes, root, p, n);
      ghost var was := tree;
      tree := Unlink(node, p, n);
      DroppedSorted(InOrder(was), InOrder(tree), |Before(p)| + |InOrder(n.left)|, Item(n.id, n.key));
      ghost var h := nodes;
      nodes := nodes - {node};
      RepAgree(h, nodes, tree, NULL);
    }

    /** remove(int): one node holding `key` leaves when there is one; otherwise nothing changes. */
    method Remove(key: int) returns (ghost i: int)
      requires Valid()
      modifies this
      ensures Valid()
      ensures i < 0 ==>
              tree == old(tree) && nodes == old(nodes) && root == old(root) && HasNoKey(old(InOrder(tree)), key)
      ensures 0 <= i ==> i < |old(InOrder(tree))| && old(InOrder(tree))[i].key == key
      ensures 0 <= i ==> Dropped(old(InOrder(tree)), InOrder(tree), i, old(InOrder(tree))[i])
    {
      var node := Search(nodes, root, key, tree, NULL);
      i := -1;
      if node != NULL {
        ghost var p, n := Locate(Top, tree, Item(node, key));
        FocusIndex(p, n);
        RemoveNode(node, p, n);
        i := |Before(p)| + |InOrder(n.left)|;
      }
    }

    /** The leftmost node of a subtree. */
    method Minimum(start: Ptr, ghost p: Path, ghost t: Tree) returns (x: Ptr)
      requires Focus(nodes, root, p, t) && start == Id(t)
      ensures t.Leaf? ==> x == NULL
      ensures t.Node? ==> |InOrder(t)| > 0 && x == InOrder(t)[0].id
    {
      if start == NULL {
        return NULL;
      }
      x := start;
      ghost var u := t;
      while nodes[x].left != NULL
        invariant u.Node? && x == u.id && x in nodes && Rep(nodes, u, nodes[x].parent) && Distinct(u)
        invariant |InOrder(u)| > 0 && InOrder(u)[0] == InOrder(t)[0]
        decreases u
      {
        x := nodes[x].left;
        assert |InOrder(u.left)| > 0;
        u := u.left;
      }
      assert u.left.Leaf?;
    }

    method Maximum(start: Ptr, ghost p: Path, ghost t: Tree) returns (x: Ptr)
      requires Focus(nodes, root, p, t) && start == Id(t)
      ensures t.Leaf? ==> x == NULL
      ensures t.Node? ==> |InOrder(t)| > 0 && x == InOrder(t)[|InOrder(t)| - 1].id
    {
      if start == NULL {
        return NULL;
      }
      x := start;
      ghost var u := t;
      while nodes[x].right != NULL
        invariant u.Node? && x == u.id && x in nodes && Rep(nodes, u, nodes[x].parent) && Distinct(u)
        invariant |InOrder(u)| > 0 && InOrder(u)[|InOrder(u)| - 1] == InOrder(t)[|InOrder(t)| - 1]
        decreases u
      {
        x := nodes[x].right;
        assert |InOrder(u.right)| > 0;
        u := u.right;
      }
      assert u.right.Leaf?;
    }

    /** successor: the node that follows in order, or null at the end. */
    method Successor(x0: Ptr, ghost p: Path, ghost t: Tree) returns (y: Ptr)
      requires Focus(nodes, root, p, t) && t.Node? && x0 == t.id
      ensures var s, i := InOrder(Zip(p, t)), |Before(p)| + |InOrder(t.left)|;
              && i < |s| && s[i].id == x0
              && y == if i + 1 < |s| then s[i + 1].id else NULL
    {
      FocusIndex(p, t);
      UnlinkReads(nodes, root, p, t);
      ghost var rest := InOrder(t.right) + After(p);
      ghost var s, i := InOrder(Zip(p, t)), |Before(p)| + |InOrder(t.left)|;
      assert i + 1 < |s| ==> rest[0] == s[i + 1];
      if nodes[x0].right != NULL {
        FocusUp(nodes, root, Down(R, p, t), t.right);
        y := Minimum(nodes[x0].right, Down(R, p, t), t.right);
        assert rest[0] == InOrder(t.right)[0];
      } else {
        assert rest == After(p);
        y := ClimbFromRight(x0, p, t);
      }
    }

    /** Climb while the node is a right child: the first ancestor on the other side comes just after the subtree. */
    method ClimbFromRight(x0: Ptr, ghost p: Path, ghost t: Tree) returns (y: Ptr)
      requires Focus(nodes, root, p, t) && t.Node? && x0 == t.id
      ensures y == if After(p) != [] then After(p)[0].id else NULL
    {
      UnlinkReads(nodes, root, p, t);
      ghost var q, u := p, t;
      var x := x0;
      y := nodes[x].parent;
      while y != NULL && x == nodes[y].right
        invariant Focus(nodes, root, q, u) && u.Node? && x == u.id && y == PathId(q) && After(q) == After(p)
        invariant q.Frame? ==> q.id in nodes && q.id != NULL
        decreases PathLen(q)
      {
        Neighbours(nodes, root, q, u);
        FocusUp(nodes, root, q, u);
        x := y;
        y := nodes[y].parent;
        u, q := Make(q.side, q.id, q.color, q.key, u, q.sibling), q.up;
        if q.Frame? {
          Neighbours(nodes, root, q, u);
        }
      }
      if q.Frame? {
        Neighbours(nodes, root, q, u);
      }
    }

    /** predecessor: the node that precedes in order, or null at the start. */
    method Predecessor(x0: Ptr, ghost p: Path, ghost t: Tree) returns (y: Ptr)
      requires Focus(nodes, root, p, t) && t.Node? && x0 == t.id
      ensures var s, i := InOrder(Zip(p, t)), |Before(p)| + |InOrder(t.left)|;
              && i < |s| && s[i].id == x0
              && y == if 0 < i then s[i - 1].id else NULL
    {
      FocusIndex(p, t);
      UnlinkReads(nodes, root, p, t);
      if |Before(p)| + |InOrder(t.left)| > 0 {
        PreviousItem(p, t);
      }
      if nodes[x0].left != NULL {
        FocusUp(nodes, root, Down(L, p, t), t.left);
        y := Maximum(nodes[x0].left, Down(L, p, t), t.left);
      } else {
        y := ClimbFromLeft(x0, p, t);
      }
    }

    /** Climb while the node is a left child: the first ancestor on the other side comes just before the subtree. */
    method ClimbFromLeft(x0: Ptr, ghost p: Path, ghost t: Tree) returns (y: Ptr)
      requires Focus(nodes, root, p, t) && t.Node? && x0 == t.id
      ensures var s := Before(p); y == if s != [] then s[|s| - 1].id else NULL
    {
      UnlinkReads(nodes, root, p, t);
      ghost var q, u := p, t;
      var x := x0;
      y := nodes[x].parent;
      while y != NULL && x == nodes[y].left
        invariant Focus(nodes, root, q, u) && u.Node? && x == u.id && y == PathId(q) && Before(q) == Before(p)
        invariant q.Frame? ==> q.id in nodes && q.id != NULL
        decreases PathLen(q)
      {
        Neighbours(nodes, root, q, u);
        FocusUp(nodes, root, q, u);
        x := y;
        y := nodes[y].parent;
        u, q := Make(q.side, q.id, q.color, q.key, u, q.sibling), q.up;
        if q.Frame? {
          Neighbours(nodes, root, q, u);
        }
      }
      if q.Frame? {
        Neighbours(nodes, root, q, u);
      }
    }
  }

  datatype Op = InsertOp(key: int) | RemoveOp(key: int)

  function AfterOp(bag: multiset<int>, op: Op): multiset<int> {
    match op
    case InsertOp(key) => bag + multiset{key}
    case RemoveOp(key) => bag - multiset{key}
  }

  /** The bag of keys a run of calls should leave. */
  function AfterOps(bag: multiset<int>, ops: seq<Op>): multiset<int> {
    if ops == [] then bag else AfterOp(AfterOps(bag, ops[..|ops| - 1]), ops[|ops| - 1])
  }

  lemma {:induction false} AfterOne(bag: multiset<int>, ops: seq<Op>, k: nat)
    requires k < |ops|
    ensures AfterOps(bag, ops[..k + 1]) == AfterOp(AfterOps(bag, ops[..k]), ops[k])
  {
    assert ops[..k + 1][..k] == ops[..k];
  }

  function Keys(s: seq<Item>): (k: seq<int>)
    ensures |k| == |s| && forall i :: 0 <= i < |s| ==> k[i] == s[i].key
  {
    seq(|s|, i requires 0 <= i < |s| => s[i].key)
  }

  lemma InsertBag(s: seq<Item>, i: nat, x: Item)
    requires i <= |s|
    ensures multiset(Keys(s[..i] + [x] + s[i..])) == multiset(Keys(s)) + multiset{x.key}
  {
    assert Keys(s[..i] + [x] + s[i..]) == Keys(s)[..i] + [x.key] + Keys(s)[i..];
    assert Keys(s) == Keys(s)[..i] + Keys(s)[i..];
  }

  lemma DropBag(s: seq<Item>, s': seq<Item>, i: nat, x: Item)
    requires Dropped(s, s', i, x)
    ensures multiset(Keys(s')) == multiset(Keys(s)) - multiset{x.key}
  {
    assert Keys(s) == Keys(s)[..i] + [x.key] + Keys(s)[i + 1..];
    assert Keys(s') == Keys(s)[..i] + Keys(s)[i + 1..];
  }

  lemma AbsentBag(s: seq<Item>, key: int)
    requires HasNoKey(s, key)
    ensures key !in multiset(Keys(s))
  {
    assert forall k :: k in Keys(s) ==> k != key;
  }

  /** The keys in the tree, as a bag. */
  ghost function Bag(t: Tree): multiset<int> {
    multiset(Keys(InOrder(t)))
  }

  method Call(t: RBTree, op: Op)
    requires t.Valid()
    modifies t
    ensures t.Valid() && Bag(t.tree) == AfterOp(old(Bag(t.tree)), op)
  {
    ghost var was := InOrder(t.tree);
    match op
    case InsertOp(key) =>
      ghost var i, z := t.Insert(key);
      InsertBag(was, i, Item(z, key));
    case RemoveOp(key) =>
      ghost var i := t.Remove(key);
      if i < 0 {
        AbsentBag(was, key);
      } else {
        DropBag(was, InOrder(t.tree), i, was[i]);
      }
  }

  /** Inserts minus removes of the key. */
  function Net(ops: seq<Op>, k: int): int {
    if ops == [] then 0
    else
      var last := ops[|ops| - 1];
      Net(ops[..|ops| - 1], k) + (if last.key != k then 0 else if last.InsertOp? then 1 else -1)
  }

  /**
   How often the key is there after a run, from the calls alone: a remove that finds nothing takes nothing, so the
   number is the largest net of inserts over removes of any final part of the run, the start counting for the whole.
   */
  ghost predicate Recount(start: nat, ops: seq<Op>, k: int, count: int) {
    && count >= start + Net(ops, k)
    && (forall j :: 0 <= j <= |ops| ==> count >= Net(ops[j..], k))
    && (count == start + Net(ops, k) || exists j :: 0 <= j <= |ops| && count == Net(ops[j..], k))
  }

  lemma NetSnoc(ops: seq<Op>, j: nat, k: int)
    requires j < |ops|
    ensures var n := |ops| - 1; Net(ops[j..], k) == Net(ops[..n][j..], k) + Net([ops[n]], k)
  {
    var n := |ops| - 1;
    assert ops[j..][..n - j] == ops[..n][j..];
  }

  lemma {:induction false} BagRecount(bag: multiset<int>, ops: seq<Op>, k: int)
    ensures Recount(bag[k], ops, k, AfterOps(bag, ops)[k])
  {
    if ops == [] {
      assert ops[0..] == [];
    } else {
      var n := |ops| - 1;
      BagRecount(bag, ops[..n], k);
      RecountStep(bag[k], ops, k, AfterOps(bag, ops[..n])[k]);
    }
  }

  lemma RecountStep(start: nat, ops: seq<Op>, k: int, count: nat)
    requires ops != [] && Recount(start, ops[..|ops| - 1], k, count)
    ensures var next := count + Net([ops[|ops| - 1]], k); Recount(start, ops, k, if next < 0 then 0 else next)
  {
    var n := |ops| - 1;
    var d := Net([ops[n]], k);
    var next := if count + d < 0 then 0 else count + d;
    assert ops[|ops|..] == [] && Net(ops[|ops|..], k) == 0;
    assert ops[0..] == ops && ops[..n][0..] == ops[..n];
    NetSnoc(ops, 0, k);
    forall j | 0 <= j <= |ops| ensures next >= Net(ops[j..], k) {
      if j < |ops| {
        NetSnoc(ops, j, k);
      }
    }
    if count != start + Net(ops[..n], k) {
      var j :| 0 <= j <= n && count == Net(ops[..n][j..], k);
      NetSnoc(ops, j, k);
      assert count + d >= 0 ==> next == Net(ops[j..], k);
    }
  }

  /** The loop over the calls. */
  method CallAll(t: RBTree, ops: seq<Op>)
    requires t.Valid()
    modifies t
    ensures t.Valid() && Bag(t.tree) == AfterOps(old(Bag(t.tree)), ops)
  {
    ghost var before := Bag(t.tree);
    for k := 0 to |ops|
      invariant t.Valid() && Bag(t.tree) == AfterOps(before, ops[..k])
    {
      AfterOne(before, ops, k);
      Call(t, ops[k]);
    }
    assert ops[..|ops|] == ops;
  }

  /** Any run of insert and remove calls: the tree stays valid and balanced and holds exactly the right bag of keys. */
  method Run(t: RBTree, ops: seq<Op>)
    requires t.Valid()
    modifies t
    ensures t.Valid() && forall k :: Recount(old(Bag(t.tree))[k], ops, k, Bag(t.tree)[k])
    ensures Pow2(Height(t.tree)) <= (|InOrder(t.tree)| + 1) * (|InOrder(t.tree)| + 1)
  {
    ghost var before := Bag(t.tree);
    CallAll(t, ops);
    forall k ensures Recount(before[k], ops, k, Bag(t.tree)[k]) {
      BagRecount(before, ops, k);
    }
    HeightBound(t.tree);
  }

  ghost predicate HasNoKey(s: seq<Item>, key: int) {
    forall i :: 0 <= i < |s| ==> s[i].key != key
  }

  /** search(x, key): a node holding the key, or null exactly when no node does; equal keys may lie on both sides. */
  function Search(h: Heap, x: Ptr, key: int, ghost t: Tree, ghost parent: Ptr): (r: Ptr)
    requires Rep(h, t, parent) && Distinct(t) && x == Id(t) && SortedByKey(InOrder(t))
    ensures r == NULL <==> HasNoKey(InOrder(t), key)
    ensures r != NULL ==> r in h && h[r].key == key && Item(r, key) in InOrder(t)
    decreases t
  {
    if x == NULL || h[x].key == key then
      assert t.Node? ==> InOrder(t)[|InOrder(t.left)|] == Item(t.id, t.key);
      x
    else
      SortedParts(t);
      InOrderParts(t, key);
      if key < h[x].key then Search(h, h[x].left, key, t.left, x) else Search(h, h[x].right, key, t.right, x)
  }

  lemma InOrderParts(t: Tree, key: int)
    requires t.Node? && t.key != key
    ensures HasNoKey(InOrder(t), key) <==> HasNoKey(InOrder(t.left), key) && HasNoKey(InOrder(t.right), key)
  {
    var s, l, r := InOrder(t), InOrder(t.left), InOrder(t.right);
    assert l == s[..|l|];
    assert r == s[|l| + 1..];
  }
}
