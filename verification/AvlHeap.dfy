/** `src/cyberd/tree.c` on the heap: every function rewrites `left`, `right` and `height` of
    existing node objects and is proved to compute the function of the same name of AvlShape.
    A `struct tree_node **` becomes a root passed in and the new root returned. */
module AvlHeap {
  import opened Comparison
  import opened AvlShape
  import opened Options
  import opened AvlTheory

  /** The pointer structure below `n` is `t`. With `Ordered(t, cmp)` no node is shared. */
  ghost predicate Represents<K, V>(n: Node?<K, V>, t: Tree<K, V>)
    reads Nodes(t)
    decreases t
  {
    if t.Leaf? then n == null
    else
      && n == t.node && n.height == t.height
      && Represents(n.left, t.left) && Represents(n.right, t.right)
  }

  function NodeHeight<K, V>(n: Node?<K, V>): int
    reads n
  {
    if n != null then n.height else 0
  }

  function NodeBalance<K, V>(n: Node?<K, V>): int
    reads n, if n == null then {} else {n.left, n.right}
  {
    if n != null then NodeHeight(n.right) - NodeHeight(n.left) else 0
  }

  lemma StoredHeight<K, V>(n: Node?<K, V>, t: Tree<K, V>)
    requires Represents(n, t)
    ensures NodeHeight(n) == Height(t)
  {}

  lemma Unfold<K(!new), V>(n: Node<K, V>, t: Tree<K, V>, cmp: (K, K) -> int)
    requires WeakOrder(cmp) && Ordered(t, cmp) && Represents(n, t)
    ensures t.Branch? && t.node == n && n.height == t.height
    ensures Represents(n.left, t.left) && Represents(n.right, t.right)
    ensures n !in Nodes(t.left) && n !in Nodes(t.right)
    ensures Nodes(t.left) !! Nodes(t.right)
  {
    OrderedDisjoint(t, cmp);
  }

  /** The end of every rotation and of every update: `height = max(...) + 1`. */
  method UpdateHeight<K, V>(n: Node<K, V>, ghost l: Tree<K, V>, ghost r: Tree<K, V>)
    requires n !in Nodes(l) && n !in Nodes(r)
    requires Represents(n.left, l) && Represents(n.right, r)
    modifies n`height
    ensures Represents(n, Fix(Branch(l, n, n.height, r)))
  {
    assert allocated(Nodes(l)) && allocated(Nodes(r));
    StoredHeight(n.left, l);
    StoredHeight(n.right, r);
    n.height := Max(NodeHeight(n.left), NodeHeight(n.right)) + 1;
  }

  /** `tree_node_rotate_right`, given the three subtrees it moves around. */
  method SwingRight<K, V>(node: Node<K, V>, ghost a: Tree<K, V>, ghost b: Tree<K, V>, ghost c: Tree<K, V>)
    returns (root: Node<K, V>)
    requires node.left != null && node.left != node
    requires node !in Nodes(a) + Nodes(b) + Nodes(c) && node.left !in Nodes(a) + Nodes(b) + Nodes(c)
    requires Represents(node.left.left, a) && Represents(node.left.right, b) && Represents(node.right, c)
    modifies node, node.left
    ensures root == old(node.left)
    ensures Represents(root, Fix(Branch(a, root, 0, Fix(Branch(b, node, 0, c)))))
  {
    assert allocated(Nodes(a)) && allocated(Nodes(b)) && allocated(Nodes(c));
    root := node.left;
    node.left := root.right;
    root.right := node;
    UpdateHeight(node, b, c);
    UpdateHeight(root, a, Fix(Branch(b, node, 0, c)));
  }

  /** `tree_node_rotate_left`, given the three subtrees it moves around. */
  method SwingLeft<K, V>(node: Node<K, V>, ghost a: Tree<K, V>, ghost b: Tree<K, V>, ghost c: Tree<K, V>)
    returns (root: Node<K, V>)
    requires node.right != null && node.right != node
    requires node !in Nodes(a) + Nodes(b) + Nodes(c) && node.right !in Nodes(a) + Nodes(b) + Nodes(c)
    requires Represents(node.left, a) && Represents(node.right.left, b) && Represents(node.right.right, c)
    modifies node, node.right
    ensures root == old(node.right)
    ensures Represents(root, Fix(Branch(Fix(Branch(a, node, 0, b)), root, 0, c)))
  {
    assert allocated(Nodes(a)) && allocated(Nodes(b)) && allocated(Nodes(c));
    root := node.right;
    node.right := root.left;
    root.left := node;
    UpdateHeight(node, a, b);
    UpdateHeight(root, Fix(Branch(a, node, 0, b)), c);
  }

  /** The nodes a right rotation rewrites are not in the three subtrees it moves around. */
  lemma RightRotationApart<K(!new), V>(t: Tree<K, V>, cmp: (K, K) -> int)
    requires WeakOrder(cmp) && Ordered(t, cmp) && t.Branch? && t.left.Branch?
    ensures var all := Nodes(t.left.left) + Nodes(t.left.right) + Nodes(t.right);
      t.node != t.left.node && t.node !in all && t.left.node !in all
  {
    OrderedDisjoint(t, cmp);
    OrderedDisjoint(t.left, cmp);
  }

  /** The nodes a left rotation rewrites are not in the three subtrees it moves around. */
  lemma LeftRotationApart<K(!new), V>(t: Tree<K, V>, cmp: (K, K) -> int)
    requires WeakOrder(cmp) && Ordered(t, cmp) && t.Branch? && t.right.Branch?
    ensures var all := Nodes(t.left) + Nodes(t.right.left) + Nodes(t.right.right);
      t.node != t.right.node && t.node !in all && t.right.node !in all
  {
    OrderedDisjoint(t, cmp);
    OrderedDisjoint(t.right, cmp);
  }

  method RotateNodeRight<K(!new), V>(node: Node<K, V>, ghost t: Tree<K, V>, ghost cmp: (K, K) -> int)
    returns (root: Node<K, V>)
    requires Represents(node, t) && t.left.Branch?
    requires WeakOrder(cmp) && Ordered(t, cmp)
    modifies node, t.left.node
    ensures Represents(root, RotateRight(t))
  {
    hide Ordered, Nodes;
    RightRotationApart(t, cmp);
    root := SwingRight(node, t.left.left, t.left.right, t.right);
  }

  method RotateNodeLeft<K(!new), V>(node: Node<K, V>, ghost t: Tree<K, V>, ghost cmp: (K, K) -> int)
    returns (root: Node<K, V>)
    requires Represents(node, t) && t.right.Branch?
    requires WeakOrder(cmp) && Ordered(t, cmp)
    modifies node, t.right.node
    ensures Represents(root, RotateLeft(t))
  {
    hide Ordered, Nodes;
    LeftRotationApart(t, cmp);
    root := SwingLeft(node, t.left, t.right.left, t.right.right);
  }

  /** What a recursive call through `&root->left` does to the root. */
  method SetLeft<K, V>(n: Node<K, V>, child: Node?<K, V>, ghost l: Tree<K, V>, ghost r: Tree<K, V>)
    requires n !in Nodes(l) && n !in Nodes(r)
    requires Represents(child, l) && Represents(n.right, r)
    modifies n`left
    ensures Represents(n, Branch(l, n, n.height, r))
  {
    assert allocated(Nodes(l)) && allocated(Nodes(r));
    n.left := child;
  }

  /** What a recursive call through `&root->right` does to the root. */
  method SetRight<K, V>(n: Node<K, V>, child: Node?<K, V>, ghost l: Tree<K, V>, ghost r: Tree<K, V>)
    requires n !in Nodes(l) && n !in Nodes(r)
    requires Represents(n.left, l) && Represents(child, r)
    modifies n`right
    ensures Represents(n, Branch(l, n, n.height, r))
  {
    assert allocated(Nodes(l)) && allocated(Nodes(r));
    n.right := child;
  }

  lemma RotateNodeLeftRightReady<K(!new), V>(t: Tree<K, V>, cmp: (K, K) -> int)
    requires WeakOrder(cmp) && Ordered(t, cmp) && t.Branch? && t.left.Branch? && t.left.right.Branch?
    ensures Ordered(t.left, cmp) && {t.node, t.left.node, t.left.right.node} <= Nodes(t)
    ensures var u := t.(left := RotateLeft(t.left));
      && Ordered(u, cmp) && u.left.Branch? && u.left.node == t.left.right.node
      && u.node !in Nodes(u.left) && u.node !in Nodes(u.right)
      && Nodes(u.left) == Nodes(t.left) && RotateLeftRight(t) == RotateRight(u)
  {
    RotateLeftKeeps(t.left, cmp);
    OrderedDisjoint(t, cmp);
  }

  /** `tree_node_rotate_left_right` */
  method RotateNodeLeftRight<K(!new), V>(node: Node<K, V>, ghost t: Tree<K, V>, ghost cmp: (K, K) -> int)
    returns (root: Node<K, V>)
    requires Represents(node, t) && t.left.Branch? && t.left.right.Branch?
    requires WeakOrder(cmp) && Ordered(t, cmp)
    modifies Nodes(t)
    ensures Represents(root, RotateLeftRight(t))
  {
    Unfold(node, t, cmp);
    RotateNodeLeftRightReady(t, cmp);
    hide Ordered, RotateLeft, RotateRight, RotateLeftRight, Nodes;
    assert allocated(Nodes(t.left)) && allocated(Nodes(t.right));
    var l := RotateNodeLeft(node.left, t.left, cmp);
    SetLeft(node, l, RotateLeft(t.left), t.right);
    root := RotateNodeRight(node, t.(left := RotateLeft(t.left)), cmp);
  }

  lemma RotateNodeRightLeftReady<K(!new), V>(t: Tree<K, V>, cmp: (K, K) -> int)
    requires WeakOrder(cmp) && Ordered(t, cmp) && t.Branch? && t.right.Branch? && t.right.left.Branch?
    ensures Ordered(t.right, cmp) && {t.node, t.right.node, t.right.left.node} <= Nodes(t)
    ensures var u := t.(right := RotateRight(t.right));
      && Ordered(u, cmp) && u.right.Branch? && u.right.node == t.right.left.node
      && u.node !in Nodes(u.left) && u.node !in Nodes(u.right)
      && Nodes(u.right) == Nodes(t.right) && RotateRightLeft(t) == RotateLeft(u)
  {
    RotateRightKeeps(t.right, cmp);
    OrderedDisjoint(t, cmp);
  }

  /** `tree_node_rotate_right_left` */
  method RotateNodeRightLeft<K(!new), V>(node: Node<K, V>, ghost t: Tree<K, V>, ghost cmp: (K, K) -> int)
    returns (root: Node<K, V>)
    requires Represents(node, t) && t.right.Branch? && t.right.left.Branch?
    requires WeakOrder(cmp) && Ordered(t, cmp)
    modifies Nodes(t)
    ensures Represents(root, RotateRightLeft(t))
  {
    Unfold(node, t, cmp);
    RotateNodeRightLeftReady(t, cmp);
    hide Ordered, RotateRight, RotateLeft, RotateRightLeft, Nodes;
    assert allocated(Nodes(t.left)) && allocated(Nodes(t.right));
    var r := RotateNodeRight(node.right, t.right, cmp);
    SetRight(node, r, t.left, RotateRight(t.right));
    root := RotateNodeLeft(node, t.(right := RotateRight(t.right)), cmp);
  }

  // ---------- Insertion ----------

  lemma StoredBalance<K, V>(n: Node<K, V>, t: Tree<K, V>)
    requires Represents(n, t)
    ensures NodeBalance(n) == Balance(t)
  {
    StoredHeight(n.left, t.left);
    StoredHeight(n.right, t.right);
  }

  /** The end of every update of an ordered tree: recompute the height of its root. */
  method FixRoot<K(!new), V>(n: Node<K, V>, ghost t: Tree<K, V>, ghost cmp: (K, K) -> int)
    requires WeakOrder(cmp) && Ordered(t, cmp) && Represents(n, t)
    modifies n`height
    ensures Represents(n, Fix(t))
  {
    Unfold(n, t, cmp);
    UpdateHeight(n, t.left, t.right);
  }

  /** `tree_node_insert` after the recursive call on the left returned `child`. */
  method AfterInsertLeft<K(!new), V>(root: Node<K, V>, child: Node<K, V>, k: K, cmp: (K, K) -> int, ghost u: Tree<K, V>)
    returns (r: Node<K, V>)
    requires WeakOrder(cmp) && Ordered(u, cmp) && u.Branch? && u.node == root && u.height == root.height
    requires Represents(child, u.left) && Represents(root.right, u.right)
    requires Balance(u) == -2 && cmp(k, u.left.node.key) >= 0 ==> u.left.right.Branch?
    modifies Nodes(u)
    ensures Represents(r, Fix(InsertedLeft(u, k, cmp)))
  {
    OrderedDisjoint(u, cmp);
    SetLeft(root, child, u.left, u.right);
    StoredBalance(root, u);
    InsertedLeftRotates(u, k, cmp);
    r := root;
    if NodeBalance(root) == -2 {
      if cmp(k, root.left.key) < 0 {
        r := RotateNodeRight(root, u, cmp);
      } else {
        r := RotateNodeLeftRight(root, u, cmp);
      }
    }
    FixRoot(r, InsertedLeft(u, k, cmp), cmp);
  }

  /** `tree_node_insert` after the recursive call on the right returned `child`. */
  method AfterInsertRight<K(!new), V>(root: Node<K, V>, child: Node<K, V>, k: K, cmp: (K, K) -> int,
                                      ghost u: Tree<K, V>)
    returns (r: Node<K, V>)
    requires WeakOrder(cmp) && Ordered(u, cmp) && u.Branch? && u.node == root && u.height == root.height
    requires Represents(child, u.right) && Represents(root.left, u.left)
    requires Balance(u) == 2 && cmp(k, u.right.node.key) <= 0 ==> u.right.left.Branch?
    modifies Nodes(u)
    ensures Represents(r, Fix(InsertedRight(u, k, cmp)))
  {
    OrderedDisjoint(u, cmp);
    SetRight(root, child, u.left, u.right);
    StoredBalance(root, u);
    InsertedRightRotates(u, k, cmp);
    r := root;
    if NodeBalance(root) == 2 {
      if cmp(k, root.right.key) > 0 {
        r := RotateNodeLeft(root, u, cmp);
      } else {
        r := RotateNodeRightLeft(root, u, cmp);
      }
    }
    FixRoot(r, InsertedRight(u, k, cmp), cmp);
  }

  /** The child a double rotation dereferences exists whenever that rotation is chosen. */
  lemma DoubleLeftHasGrandchild<K(!new), V>(t: Tree<K, V>, n: Node<K, V>, cmp: (K, K) -> int)
    requires Avl(t) && Absent(t, n.key, cmp)
    requires t.Branch? && cmp(n.key, t.node.key) < 0
    ensures var u := t.(left := Insert(t.left, n, cmp));
      Balance(u) == -2 && cmp(n.key, u.left.node.key) >= 0 ==> u.left.right.Branch?
  {
    InsertKeepsBalance(t.left, n, cmp);
    HeightIsDepth(Insert(t.left, n, cmp));
    HeightIsDepth(t.right);
    assert t.left.Branch? ==> t.left.node in Nodes(t.left);
  }

  /** The child a double rotation dereferences exists whenever that rotation is chosen. */
  lemma DoubleRightHasGrandchild<K(!new), V>(t: Tree<K, V>, n: Node<K, V>, cmp: (K, K) -> int)
    requires Avl(t) && Absent(t, n.key, cmp)
    requires t.Branch? && cmp(n.key, t.node.key) > 0
    ensures var u := t.(right := Insert(t.right, n, cmp));
      Balance(u) == 2 && cmp(n.key, u.right.node.key) <= 0 ==> u.right.left.Branch?
  {
    InsertKeepsBalance(t.right, n, cmp);
    HeightIsDepth(Insert(t.right, n, cmp));
    HeightIsDepth(t.left);
    assert t.right.Branch? ==> t.right.node in Nodes(t.right);
  }

  lemma InsertLeftReady<K(!new), V>(t: Tree<K, V>, n: Node<K, V>, cmp: (K, K) -> int)
    requires WeakOrder(cmp) && Ordered(t, cmp) && Avl(t) && Absent(t, n.key, cmp)
    requires t.Branch? && cmp(n.key, t.node.key) < 0 && n !in Nodes(t)
    ensures var u := t.(left := Insert(t.left, n, cmp));
      && Ordered(u, cmp) && Nodes(u) == Nodes(t) + {n}
      && t.node !in Nodes(u.left) && u.left.Branch?
      && (Balance(u) == -2 && cmp(n.key, u.left.node.key) >= 0 ==> u.left.right.Branch?)
  {
    InsertKeepsOrder(t.left, n, cmp);
    BetweenLeft(t, Insert(t.left, n, cmp), n, cmp);
    DoubleLeftHasGrandchild(t, n, cmp);
    OrderedDisjoint(t, cmp);
  }

  lemma InsertRightReady<K(!new), V>(t: Tree<K, V>, n: Node<K, V>, cmp: (K, K) -> int)
    requires WeakOrder(cmp) && Ordered(t, cmp) && Avl(t) && Absent(t, n.key, cmp)
    requires t.Branch? && cmp(n.key, t.node.key) > 0 && n !in Nodes(t)
    ensures var u := t.(right := Insert(t.right, n, cmp));
      && Ordered(u, cmp) && Nodes(u) == Nodes(t) + {n}
      && t.node !in Nodes(u.right) && u.right.Branch?
      && (Balance(u) == 2 && cmp(n.key, u.right.node.key) <= 0 ==> u.right.left.Branch?)
  {
    InsertKeepsOrder(t.right, n, cmp);
    BetweenRight(t, Insert(t.right, n, cmp), n, cmp);
    DoubleRightHasGrandchild(t, n, cmp);
    OrderedDisjoint(t, cmp);
  }

  /** `tree_node_insert`. The branch for an equal element, where the C code aborts, is dead. */
  method InsertNode<K(!new), V>(root: Node?<K, V>, node: Node<K, V>, cmp: (K, K) -> int, ghost t: Tree<K, V>)
    returns (r: Node<K, V>)
    requires WeakOrder(cmp) && Ordered(t, cmp) && Avl(t) && Represents(root, t)
    requires Absent(t, node.key, cmp) && node !in Nodes(t)
    requires node.left == null && node.right == null && node.height == 1
    modifies Nodes(t), node
    ensures Represents(r, Insert(t, node, cmp))
    decreases t, 1
  {
    if root != null {
      assert t.node in Nodes(t);
      var comparison := cmp(node.key, root.key);
      if comparison < 0 {
        r := InsertNodeLeft(root, node, cmp, t);
      } else if comparison > 0 {
        r := InsertNodeRight(root, node, cmp, t);
      } else {
        assert false;
      }
    } else {
      r := node;
    }
  }

  lemma InsertLeftUnfolds<K(!new), V>(t: Tree<K, V>, n: Node<K, V>, cmp: (K, K) -> int)
    requires Ordered(t, cmp) && Avl(t) && Absent(t, n.key, cmp)
    requires t.Branch? && cmp(n.key, t.node.key) < 0
    ensures Ordered(t.left, cmp) && Avl(t.left) && Absent(t.left, n.key, cmp)
    ensures Insert(t, n, cmp) == Fix(InsertedLeft(t.(left := Insert(t.left, n, cmp)), n.key, cmp))
  {}

  method InsertNodeLeft<K(!new), V>(root: Node<K, V>, node: Node<K, V>, cmp: (K, K) -> int, ghost t: Tree<K, V>)
    returns (r: Node<K, V>)
    requires WeakOrder(cmp) && Ordered(t, cmp) && Avl(t) && Represents(root, t)
    requires Absent(t, node.key, cmp) && node !in Nodes(t)
    requires node.left == null && node.right == null && node.height == 1
    requires cmp(node.key, root.key) < 0
    modifies Nodes(t), node
    ensures Represents(r, Insert(t, node, cmp))
    decreases t, 0
  {
    hide Insert, InsertedLeft, Ordered, Avl, Absent, Balance;
    Unfold(root, t, cmp);
    InsertLeftUnfolds(t, node, cmp);
    assert allocated(Nodes(t.left)) && allocated(Nodes(t.right));
    var child := InsertNode(root.left, node, cmp, t.left);
    assert root.right == old(root.right) && Represents(root.right, t.right);
    InsertLeftReady(t, node, cmp);
    r := AfterInsertLeft(root, child, node.key, cmp, t.(left := Insert(t.left, node, cmp)));
  }

  lemma InsertRightUnfolds<K(!new), V>(t: Tree<K, V>, n: Node<K, V>, cmp: (K, K) -> int)
    requires Ordered(t, cmp) && Avl(t) && Absent(t, n.key, cmp)
    requires t.Branch? && cmp(n.key, t.node.key) > 0
    ensures Ordered(t.right, cmp) && Avl(t.right) && Absent(t.right, n.key, cmp)
    ensures Insert(t, n, cmp) == Fix(InsertedRight(t.(right := Insert(t.right, n, cmp)), n.key, cmp))
  {}

  method InsertNodeRight<K(!new), V>(root: Node<K, V>, node: Node<K, V>, cmp: (K, K) -> int, ghost t: Tree<K, V>)
    returns (r: Node<K, V>)
    requires WeakOrder(cmp) && Ordered(t, cmp) && Avl(t) && Represents(root, t)
    requires Absent(t, node.key, cmp) && node !in Nodes(t)
    requires node.left == null && node.right == null && node.height == 1
    requires cmp(node.key, root.key) > 0
    modifies Nodes(t), node
    ensures Represents(r, Insert(t, node, cmp))
    decreases t, 0
  {
    hide Insert, InsertedRight, Ordered, Avl, Absent, Balance;
    Unfold(root, t, cmp);
    InsertRightUnfolds(t, node, cmp);
    assert allocated(Nodes(t.left)) && allocated(Nodes(t.right));
    var child := InsertNode(root.right, node, cmp, t.right);
    assert root.left == old(root.left) && Represents(root.left, t.left);
    InsertRightReady(t, node, cmp);
    r := AfterInsertRight(root, child, node.key, cmp, t.(right := Insert(t.right, node, cmp)));
  }

  // ---------- Removal ----------

  /** What `tree_node_remove` relies on before it rebalances. */
  ghost predicate Repairable<K, V>(t: Tree<K, V>) {
    t.Branch? ==> Avl(t.left) && Avl(t.right) && -2 <= Depth(t.right) - Depth(t.left) <= 2
  }

  /** The end of `tree_node_remove`: height update and rotation, with both of its asserts. */
  method RebalanceNode<K(!new), V>(root: Node<K, V>, cmp: (K, K) -> int, ghost t: Tree<K, V>)
    returns (r: Node<K, V>)
    requires WeakOrder(cmp) && Ordered(t, cmp) && Repairable(t) && Represents(root, t)
    modifies Nodes(t)
    ensures Represents(r, Rebalance(t))
  {
    StoredHeight(root.left, t.left);
    StoredHeight(root.right, t.right);
    HeightIsDepth(t.left);
    HeightIsDepth(t.right);
    var heightLeft, heightRight := NodeHeight(root.left), NodeHeight(root.right);
    var balance := heightRight - heightLeft;
    assert root.left != null || balance >= 0;
    assert root.right != null || balance <= 0;
    FixRoot(root, t, cmp);
    FixKeeps(t, cmp);
    if balance > 1 {
      r := RepairRight(root, cmp, Fix(t));
    } else if balance < -1 {
      r := RepairLeft(root, cmp, Fix(t));
    } else {
      r := root;
    }
  }

  method RepairRight<K(!new), V>(root: Node<K, V>, cmp: (K, K) -> int, ghost t: Tree<K, V>)
    returns (r: Node<K, V>)
    requires WeakOrder(cmp) && Ordered(t, cmp) && Represents(root, t)
    requires t.right.Branch? && Avl(t.right)
    modifies Nodes(t)
    ensures Represents(r, if Balance(t.right) >= 0 then RotateLeft(t) else RotateRightLeft(t))
  {
    StoredBalance(root.right, t.right);
    if NodeBalance(root.right) >= 0 {
      r := RotateNodeLeft(root, t, cmp);
    } else {
      HeightIsDepth(t.right.left);
      HeightIsDepth(t.right.right);
      r := RotateNodeRightLeft(root, t, cmp);
    }
  }

  method RepairLeft<K(!new), V>(root: Node<K, V>, cmp: (K, K) -> int, ghost t: Tree<K, V>)
    returns (r: Node<K, V>)
    requires WeakOrder(cmp) && Ordered(t, cmp) && Represents(root, t)
    requires t.left.Branch? && Avl(t.left)
    modifies Nodes(t)
    ensures Represents(r, if Balance(t.left) <= 0 then RotateRight(t) else RotateLeftRight(t))
  {
    StoredBalance(root.left, t.left);
    if NodeBalance(root.left) <= 0 {
      r := RotateNodeRight(root, t, cmp);
    } else {
      HeightIsDepth(t.left.left);
      HeightIsDepth(t.left.right);
      r := RotateNodeLeftRight(root, t, cmp);
    }
  }

  /** A node that is in no tree: no children and height 1. */
  ghost predicate Detached<K, V>(n: Node<K, V>)
    reads n
  {
    n.left == null && n.right == null && n.height == 1
  }

  function Pointer<K, V>(o: Option<Node<K, V>>): Node?<K, V> {
    if o.Some? then o.value else null
  }

  /** The successor loop of `tree_node_remove`. */
  method FindLeftmost<K(!new), V>(root: Node<K, V>, ghost t: Tree<K, V>) returns (successor: Node<K, V>)
    requires Represents(root, t)
    ensures successor == Leftmost(t)
  {
    successor := root;
    ghost var u := t;
    while successor.left != null
      invariant Represents(successor, u) && Leftmost(u) == Leftmost(t)
      decreases u
    {
      successor := successor.left;
      u := u.left;
    }
  }

  lemma RemoveLeftReady<K(!new), V>(t: Tree<K, V>, k: K, cmp: (K, K) -> int)
    requires WeakOrder(cmp) && Ordered(t, cmp) && Avl(t) && t.Branch? && cmp(k, t.node.key) < 0
    ensures var sub := Remove(t.left, k, cmp);
      var u := t.(left := sub.tree);
      && Ordered(u, cmp) && Repairable(u) && Nodes(u) <= Nodes(t)
      && t.node !in Nodes(sub.tree)
      && (sub.removed.Some? ==> sub.removed.value in Nodes(t) - Nodes(u))
  {
    RemoveKeepsOrder(t.left, k, cmp);
    RemoveKeepsBalance(t.left, k, cmp);
    OrderedDisjoint(t, cmp);
  }

  /** The recursive call of `tree_node_remove` on the left child. */
  method RemoveFromLeft<K(!new), V>(root: Node<K, V>, k: K, cmp: (K, K) -> int, ghost t: Tree<K, V>)
    returns (removed: Node?<K, V>)
    requires WeakOrder(cmp) && Ordered(t, cmp) && Avl(t) && Represents(root, t)
    requires cmp(k, root.key) < 0
    modifies Nodes(t)
    ensures Represents(root, t.(left := Remove(t.left, k, cmp).tree))
    ensures removed == Pointer(Remove(t.left, k, cmp).removed)
    ensures removed != null ==> Detached(removed)
    decreases t, 0
  {
    Unfold(root, t, cmp);
    assert allocated(Nodes(t.left)) && allocated(Nodes(t.right));
    var child;
    child, removed := RemoveNode(root.left, k, cmp, t.left);
    assert root.right == old(root.right) && Represents(root.right, t.right);
    RemoveLeftReady(t, k, cmp);
    ghost var sub := Remove(t.left, k, cmp);
    SetLeft(root, child, sub.tree, t.right);
  }

  lemma RemoveRightReady<K(!new), V>(t: Tree<K, V>, k: K, cmp: (K, K) -> int)
    requires WeakOrder(cmp) && Ordered(t, cmp) && Avl(t) && t.Branch? && cmp(k, t.node.key) > 0
    ensures var sub := Remove(t.right, k, cmp);
      var u := t.(right := sub.tree);
      && Ordered(u, cmp) && Repairable(u) && Nodes(u) <= Nodes(t)
      && t.node !in Nodes(sub.tree)
      && (sub.removed.Some? ==> sub.removed.value in Nodes(t) - Nodes(u))
  {
    RemoveKeepsOrder(t.right, k, cmp);
    RemoveKeepsBalance(t.right, k, cmp);
    OrderedDisjoint(t, cmp);
  }

  /** The recursive call of `tree_node_remove` on the right child. */
  method RemoveFromRight<K(!new), V>(root: Node<K, V>, k: K, cmp: (K, K) -> int, ghost t: Tree<K, V>)
    returns (removed: Node?<K, V>)
    requires WeakOrder(cmp) && Ordered(t, cmp) && Avl(t) && Represents(root, t)
    requires cmp(k, root.key) > 0
    modifies Nodes(t)
    ensures Represents(root, t.(right := Remove(t.right, k, cmp).tree))
    ensures removed == Pointer(Remove(t.right, k, cmp).removed)
    ensures removed != null ==> Detached(removed)
    decreases t, 0
  {
    Unfold(root, t, cmp);
    assert allocated(Nodes(t.left)) && allocated(Nodes(t.right));
    var child;
    child, removed := RemoveNode(root.right, k, cmp, t.right);
    assert root.left == old(root.left) && Represents(root.left, t.left);
    RemoveRightReady(t, k, cmp);
    ghost var sub := Remove(t.right, k, cmp);
    SetRight(root, child, t.left, sub.tree);
  }

  lemma SuccessorReady<K(!new), V>(t: Tree<K, V>, cmp: (K, K) -> int)
    requires WeakOrder(cmp) && Ordered(t, cmp) && Avl(t) && t.Branch? && t.right.Branch?
    ensures var m := Leftmost(t.right);
      var sub := Remove(t.right, m.key, cmp);
      var u := Branch(t.left, m, 1, sub.tree);
      && sub.removed == Some(m) && m in Nodes(t.right) && m !in Nodes(t.left) + Nodes(sub.tree)
      && Ordered(u, cmp) && Repairable(u) && Nodes(u) == Nodes(t) - {t.node}
  {
    var m := Leftmost(t.right);
    RemoveKeepsOrder(t.right, m.key, cmp);
    RemoveKeepsBalance(t.right, m.key, cmp);
    SuccessorFound(t.right, Remove(t.right, m.key, cmp), cmp);
    SuccessorStep(t, Remove(t.right, m.key, cmp), cmp);
    OrderedDisjoint(t, cmp);
  }

  /** Links both subtrees below a detached node. */
  method Install<K, V>(n: Node<K, V>, left: Node?<K, V>, right: Node?<K, V>, ghost l: Tree<K, V>, ghost r: Tree<K, V>)
    requires n !in Nodes(l) && n !in Nodes(r)
    requires Represents(left, l) && Represents(right, r)
    modifies n`left, n`right
    ensures Represents(n, Branch(l, n, n.height, r))
  {
    assert allocated(Nodes(l)) && allocated(Nodes(r));
    n.left := left;
    n.right := right;
  }

  /** Resets a node that was unlinked from the tree `t`. */
  method Detach<K, V>(n: Node<K, V>, r: Node?<K, V>, ghost t: Tree<K, V>)
    requires n !in Nodes(t) && Represents(r, t)
    modifies n
    ensures Represents(r, t) && Detached(n)
  {
    assert allocated(Nodes(t));
    n.left := null;
    n.right := null;
    n.height := 1;
  }

  /** `tree_node_remove` of the successor, through `&root->right`. */
  method TakeSuccessor<K(!new), V>(root: Node<K, V>, cmp: (K, K) -> int, ghost t: Tree<K, V>)
    returns (successor: Node<K, V>)
    requires WeakOrder(cmp) && Ordered(t, cmp) && Avl(t) && Represents(root, t)
    requires t.left.Branch? && t.right.Branch?
    modifies Nodes(t)
    ensures successor == Leftmost(t.right) && Detached(successor)
    ensures Represents(root.left, t.left)
    ensures Represents(root.right, Remove(t.right, Leftmost(t.right).key, cmp).tree)
    decreases t, 0
  {
    Unfold(root, t, cmp);
    assert allocated(Nodes(t.left)) && allocated(Nodes(t.right));
    successor := FindLeftmost(root.right, t.right);
    var right, taken := RemoveNode(root.right, successor.key, cmp, t.right);
    assert root.left == old(root.left) && Represents(root.left, t.left);
    SuccessorReady(t, cmp);
    successor := taken;
    SetRight(root, right, t.left, Remove(t.right, successor.key, cmp).tree);
  }

  /** `tree_node_remove` at a node with two children: its successor is taken out of the right
      subtree and linked in its place. */
  method ReplaceBySuccessor<K(!new), V>(root: Node<K, V>, cmp: (K, K) -> int, ghost t: Tree<K, V>)
    returns (successor: Node<K, V>)
    requires WeakOrder(cmp) && Ordered(t, cmp) && Avl(t) && Represents(root, t)
    requires t.left.Branch? && t.right.Branch?
    modifies Nodes(t)
    ensures var least := Leftmost(t.right);
      Represents(successor, Branch(t.left, least, 1, Remove(t.right, least.key, cmp).tree))
    decreases t, 1
  {
    successor := TakeSuccessor(root, cmp, t);
    SuccessorReady(t, cmp);
    Install(successor, root.left, root.right, t.left, Remove(t.right, successor.key, cmp).tree);
  }

  /** What `Remove` at the root leaves before it is rebalanced. */
  ghost function WithoutRoot<K, V>(t: Tree<K, V>, cmp: (K, K) -> int): Tree<K, V>
    requires t.Branch?
  {
    if t.left.Branch? && t.right.Branch? then
      Branch(t.left, Leftmost(t.right), 1, Remove(t.right, Leftmost(t.right).key, cmp).tree)
    else if t.left.Leaf? then t.right
    else t.left
  }

  lemma WithoutRootReady<K(!new), V>(t: Tree<K, V>, cmp: (K, K) -> int)
    requires WeakOrder(cmp) && Ordered(t, cmp) && Avl(t) && t.Branch?
    ensures var u := WithoutRoot(t, cmp);
      Ordered(u, cmp) && Repairable(u) && Nodes(u) == Nodes(t) - {t.node}
  {
    OrderedDisjoint(t, cmp);
    if t.left.Branch? && t.right.Branch? {
      SuccessorReady(t, cmp);
    }
  }

  /** `tree_node_remove` at the matching node: it is replaced and detached. */
  method TakeRoot<K(!new), V>(root: Node<K, V>, cmp: (K, K) -> int, ghost t: Tree<K, V>) returns (r: Node?<K, V>)
    requires WeakOrder(cmp) && Ordered(t, cmp) && Avl(t) && Represents(root, t)
    modifies Nodes(t)
    ensures Represents(r, WithoutRoot(t, cmp)) && Detached(root)
    decreases t, 2
  {
    if root.left != null && root.right != null {
      r := ReplaceBySuccessor(root, cmp, t);
    } else if root.left == null {
      r := root.right;
    } else {
      r := root.left;
    }
    WithoutRootReady(t, cmp);
    Detach(root, r, WithoutRoot(t, cmp));
  }

  /** What `Remove` leaves before the root is rebalanced. */
  ghost function Unlinked<K, V>(t: Tree<K, V>, k: K, cmp: (K, K) -> int): Tree<K, V> {
    if t.Leaf? then t
    else if cmp(k, t.node.key) < 0 then t.(left := Remove(t.left, k, cmp).tree)
    else if cmp(k, t.node.key) > 0 then t.(right := Remove(t.right, k, cmp).tree)
    else WithoutRoot(t, cmp)
  }

  lemma UnlinkedReady<K(!new), V>(t: Tree<K, V>, k: K, cmp: (K, K) -> int)
    requires WeakOrder(cmp) && Ordered(t, cmp) && Avl(t)
    ensures var u := Unlinked(t, k, cmp);
      && Ordered(u, cmp) && Repairable(u) && Nodes(u) <= Nodes(t)
      && Remove(t, k, cmp).tree == Rebalance(u)
      && Pointer(Remove(t, k, cmp).removed) !in Nodes(u)
  {
    if t.Branch? {
      if cmp(k, t.node.key) < 0 {
        RemoveLeftReady(t, k, cmp);
      } else if cmp(k, t.node.key) > 0 {
        RemoveRightReady(t, k, cmp);
      } else {
        WithoutRootReady(t, cmp);
        if t.left.Branch? && t.right.Branch? { SuccessorReady(t, cmp); }
      }
    }
  }

  /** `tree_node_remove` up to the height update. */
  method UnlinkNode<K(!new), V>(root: Node<K, V>, k: K, cmp: (K, K) -> int, ghost t: Tree<K, V>)
    returns (r: Node?<K, V>, removed: Node?<K, V>)
    requires WeakOrder(cmp) && Ordered(t, cmp) && Avl(t) && Represents(root, t)
    modifies Nodes(t)
    ensures Represents(r, Unlinked(t, k, cmp))
    ensures removed == Pointer(Remove(t, k, cmp).removed)
    ensures removed != null ==> Detached(removed)
    decreases t, 3
  {
    r := root;
    var comparison := cmp(k, root.key);
    if comparison < 0 {
      removed := RemoveFromLeft(root, k, cmp, t);
    } else if comparison > 0 {
      removed := RemoveFromRight(root, k, cmp, t);
    } else {
      removed := root;
      r := TakeRoot(root, cmp, t);
      if t.left.Branch? && t.right.Branch? { SuccessorReady(t, cmp); }
    }
  }

  /** `tree_node_remove` */
  method RemoveNode<K(!new), V>(root: Node?<K, V>, k: K, cmp: (K, K) -> int, ghost t: Tree<K, V>)
    returns (r: Node?<K, V>, removed: Node?<K, V>)
    requires WeakOrder(cmp) && Ordered(t, cmp) && Avl(t) && Represents(root, t)
    modifies Nodes(t)
    ensures Represents(r, Remove(t, k, cmp).tree)
    ensures removed == Pointer(Remove(t, k, cmp).removed)
    ensures removed != null ==> Detached(removed)
    decreases t, 4
  {
    r, removed := root, null;
    if root != null {
      r, removed := UnlinkNode(root, k, cmp, t);
    }
    UnlinkedReady(t, k, cmp);
    if r != null {
      r := RebalanceNode(r, cmp, Unlinked(t, k, cmp));
    }
  }
}
