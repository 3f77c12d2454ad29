/** What the functions of AvlShape keep: the set of nodes, their order, the stored heights and
    the balance. */
module AvlTheory {
  import opened Comparison
  import opened AvlShape
  import opened Options

  // ---------- Order and contents ----------

  ghost function Nodes<K, V>(t: Tree<K, V>): set<Node<K, V>> {
    if t.Leaf? then {} else Nodes(t.left) + {t.node} + Nodes(t.right)
  }

  ghost predicate AllBelow<K, V>(s: set<Node<K, V>>, k: K, cmp: (K, K) -> int) {
    forall x :: x in s ==> cmp(x.key, k) < 0
  }

  ghost predicate AllAbove<K, V>(s: set<Node<K, V>>, k: K, cmp: (K, K) -> int) {
    forall x :: x in s ==> cmp(k, x.key) < 0
  }

  /** A search tree: strictly ordered, so no node and no element occurs twice. */
  ghost predicate Ordered<K, V>(t: Tree<K, V>, cmp: (K, K) -> int) {
    t.Branch? ==>
      && Ordered(t.left, cmp) && Ordered(t.right, cmp)
      && AllBelow(Nodes(t.left), t.node.key, cmp)
      && AllAbove(Nodes(t.right), t.node.key, cmp)
  }

  ghost predicate Absent<K, V>(t: Tree<K, V>, k: K, cmp: (K, K) -> int) {
    forall x :: x in Nodes(t) ==> cmp(k, x.key) != 0
  }

  lemma BelowTransitive<K(!new), V>(s: set<Node<K, V>>, a: K, b: K, cmp: (K, K) -> int)
    requires WeakOrder(cmp) && AllBelow(s, a, cmp) && cmp(a, b) <= 0
    ensures AllBelow(s, b, cmp)
  {
    forall x | x in s ensures cmp(x.key, b) < 0 {
      LessTransitive(cmp, x.key, a, b);
    }
  }

  lemma AboveTransitive<K(!new), V>(s: set<Node<K, V>>, a: K, b: K, cmp: (K, K) -> int)
    requires WeakOrder(cmp) && AllAbove(s, b, cmp) && cmp(a, b) <= 0
    ensures AllAbove(s, a, cmp)
  {
    forall x | x in s ensures cmp(a, x.key) < 0 {
      LessTransitive(cmp, a, b, x.key);
    }
  }

  /** The two subtrees and the root of a search tree share no node. */
  lemma OrderedDisjoint<K(!new), V>(t: Tree<K, V>, cmp: (K, K) -> int)
    requires WeakOrder(cmp) && Ordered(t, cmp) && t.Branch?
    ensures t.node !in Nodes(t.left) && t.node !in Nodes(t.right)
    ensures Nodes(t.left) !! Nodes(t.right)
  {
    var k := t.node.key;
    assert cmp(k, k) == 0;
    forall x | x in Nodes(t.left) && x in Nodes(t.right) ensures false {
      assert false;
    }
  }

  // ---------- Rotations ----------

  lemma FixKeeps<K, V>(t: Tree<K, V>, cmp: (K, K) -> int)
    requires Ordered(t, cmp) && t.Branch?
    ensures Ordered(Fix(t), cmp) && Nodes(Fix(t)) == Nodes(t)
  {}

  lemma RotateRightKeeps<K(!new), V>(t: Tree<K, V>, cmp: (K, K) -> int)
    requires WeakOrder(cmp) && Ordered(t, cmp)
    ensures Ordered(RotateRight(t), cmp)
    ensures Nodes(RotateRight(t)) == Nodes(t)
  {
    if t.Branch? && t.left.Branch? {
      assert t.left.node in Nodes(t.left);
      AboveTransitive(Nodes(t.right), t.left.node.key, t.node.key, cmp);
    }
  }

  lemma RotateLeftKeeps<K(!new), V>(t: Tree<K, V>, cmp: (K, K) -> int)
    requires WeakOrder(cmp) && Ordered(t, cmp)
    ensures Ordered(RotateLeft(t), cmp)
    ensures Nodes(RotateLeft(t)) == Nodes(t)
  {
    if t.Branch? && t.right.Branch? {
      assert t.right.node in Nodes(t.right);
      BelowTransitive(Nodes(t.left), t.node.key, t.right.node.key, cmp);
    }
  }

  lemma RotateLeftRightKeeps<K(!new), V>(t: Tree<K, V>, cmp: (K, K) -> int)
    requires WeakOrder(cmp) && Ordered(t, cmp)
    ensures Ordered(RotateLeftRight(t), cmp)
    ensures Nodes(RotateLeftRight(t)) == Nodes(t)
  {
    if t.Branch? {
      RotateLeftKeeps(t.left, cmp);
      RotateRightKeeps(t.(left := RotateLeft(t.left)), cmp);
    }
  }

  lemma RotateRightLeftKeeps<K(!new), V>(t: Tree<K, V>, cmp: (K, K) -> int)
    requires WeakOrder(cmp) && Ordered(t, cmp)
    ensures Ordered(RotateRightLeft(t), cmp)
    ensures Nodes(RotateRightLeft(t)) == Nodes(t)
  {
    if t.Branch? {
      RotateRightKeeps(t.right, cmp);
      RotateLeftKeeps(t.(right := RotateRight(t.right)), cmp);
    }
  }

  // ---------- Insertion ----------

  lemma InsertedLeftRotates<K(!new), V>(u: Tree<K, V>, k: K, cmp: (K, K) -> int)
    requires WeakOrder(cmp) && Ordered(u, cmp) && u.Branch? && u.left.Branch?
    ensures var r := InsertedLeft(u, k, cmp); r.Branch? && Ordered(r, cmp) && Nodes(r) == Nodes(u)
  {
    if Balance(u) == -2 {
      if cmp(k, u.left.node.key) < 0 { RotateRightKeeps(u, cmp); } else { RotateLeftRightKeeps(u, cmp); }
    }
  }

  lemma InsertedRightRotates<K(!new), V>(u: Tree<K, V>, k: K, cmp: (K, K) -> int)
    requires WeakOrder(cmp) && Ordered(u, cmp) && u.Branch? && u.right.Branch?
    ensures var r := InsertedRight(u, k, cmp); r.Branch? && Ordered(r, cmp) && Nodes(r) == Nodes(u)
  {
    if Balance(u) == 2 {
      if cmp(k, u.right.node.key) > 0 { RotateLeftKeeps(u, cmp); } else { RotateRightLeftKeeps(u, cmp); }
    }
  }

  /** Between the recursive call on the left and the rotation the tree is still ordered. */
  lemma BetweenLeft<K(!new), V>(t: Tree<K, V>, l: Tree<K, V>, n: Node<K, V>, cmp: (K, K) -> int)
    requires WeakOrder(cmp) && Ordered(t, cmp) && t.Branch?
    requires Ordered(l, cmp) && Nodes(l) == Nodes(t.left) + {n}
    requires cmp(n.key, t.node.key) < 0
    ensures Ordered(t.(left := l), cmp) && Nodes(t.(left := l)) == Nodes(t) + {n}
  {}

  lemma InsertedLeftKeeps<K(!new), V>(t: Tree<K, V>, l: Tree<K, V>, n: Node<K, V>, cmp: (K, K) -> int)
    requires WeakOrder(cmp) && Ordered(t, cmp) && t.Branch? && l.Branch?
    requires Ordered(l, cmp) && Nodes(l) == Nodes(t.left) + {n}
    requires cmp(n.key, t.node.key) < 0
    ensures var r := Fix(InsertedLeft(t.(left := l), n.key, cmp));
      Ordered(r, cmp) && Nodes(r) == Nodes(t) + {n}
  {
    var u := t.(left := l);
    BetweenLeft(t, l, n, cmp);
    InsertedLeftRotates(u, n.key, cmp);
    FixKeeps(InsertedLeft(u, n.key, cmp), cmp);
  }

  /** Between the recursive call on the right and the rotation the tree is still ordered. */
  lemma BetweenRight<K(!new), V>(t: Tree<K, V>, l: Tree<K, V>, n: Node<K, V>, cmp: (K, K) -> int)
    requires WeakOrder(cmp) && Ordered(t, cmp) && t.Branch?
    requires Ordered(l, cmp) && Nodes(l) == Nodes(t.right) + {n}
    requires cmp(n.key, t.node.key) > 0
    ensures Ordered(t.(right := l), cmp) && Nodes(t.(right := l)) == Nodes(t) + {n}
  {}

  lemma InsertedRightKeeps<K(!new), V>(t: Tree<K, V>, l: Tree<K, V>, n: Node<K, V>, cmp: (K, K) -> int)
    requires WeakOrder(cmp) && Ordered(t, cmp) && t.Branch? && l.Branch?
    requires Ordered(l, cmp) && Nodes(l) == Nodes(t.right) + {n}
    requires cmp(n.key, t.node.key) > 0
    ensures var r := Fix(InsertedRight(t.(right := l), n.key, cmp));
      Ordered(r, cmp) && Nodes(r) == Nodes(t) + {n}
  {
    var u := t.(right := l);
    BetweenRight(t, l, n, cmp);
    InsertedRightRotates(u, n.key, cmp);
    FixKeeps(InsertedRight(u, n.key, cmp), cmp);
  }

  /** Insertion adds exactly the new node and keeps the order. */
  lemma {:induction false} InsertKeepsOrder<K(!new), V>(t: Tree<K, V>, n: Node<K, V>, cmp: (K, K) -> int)
    requires WeakOrder(cmp) && Ordered(t, cmp) && Absent(t, n.key, cmp)
    ensures Ordered(Insert(t, n, cmp), cmp)
    ensures Nodes(Insert(t, n, cmp)) == Nodes(t) + {n}
  {
    if t.Branch? {
      assert t.node in Nodes(t);
      if cmp(n.key, t.node.key) < 0 {
        InsertKeepsOrder(t.left, n, cmp);
        InsertedLeftKeeps(t, Insert(t.left, n, cmp), n, cmp);
      } else {
        InsertKeepsOrder(t.right, n, cmp);
        InsertedRightKeeps(t, Insert(t.right, n, cmp), n, cmp);
      }
    }
  }

  // ---------- Stored heights and balance ----------

  /** The real height. */
  ghost function Depth<K, V>(t: Tree<K, V>): nat {
    if t.Leaf? then 0 else 1 + Max(Depth(t.left), Depth(t.right))
  }

  /** Every stored height is the real one, and no two siblings differ by more than one. */
  ghost predicate Avl<K, V>(t: Tree<K, V>) {
    t.Branch? ==>
      && Avl(t.left) && Avl(t.right)
      && t.height == Depth(t)
      && -1 <= Depth(t.right) - Depth(t.left) <= 1
  }

  lemma HeightIsDepth<K, V>(t: Tree<K, V>)
    requires Avl(t)
    ensures Height(t) == Depth(t)
  {}

  /** Why comparing keys picks the right rotation: if insertion made a non-empty subtree taller,
      its root is unchanged, and the child on the side of the new element is the taller one. */
  ghost predicate GrewTowards<K, V>(t: Tree<K, V>, r: Tree<K, V>, k: K, cmp: (K, K) -> int) {
    && r.Branch?
    && (t.Branch? && Depth(r) == Depth(t) + 1 ==>
      && r.node == t.node
      && (cmp(k, r.node.key) < 0 ==> Depth(r.left) == Depth(r.right) + 1 && r.left.Branch?)
      && (cmp(k, r.node.key) > 0 ==> Depth(r.right) == Depth(r.left) + 1 && r.right.Branch?))
    && (t.Leaf? ==> r.left.Leaf? && r.right.Leaf?)
  }

  lemma FixAvl<K, V>(t: Tree<K, V>)
    requires t.Branch? && Avl(t.left) && Avl(t.right)
    requires -1 <= Depth(t.right) - Depth(t.left) <= 1
    ensures Avl(Fix(t)) && Depth(Fix(t)) == Depth(t)
  {}

  lemma RotateRightBalances<K, V>(t: Tree<K, V>)
    requires t.Branch? && t.left.Branch? && Avl(t.left) && Avl(t.right)
    requires Depth(t.left) == Depth(t.right) + 2
    requires Depth(t.left.left) >= Depth(t.left.right)
    ensures var r := RotateRight(t); Avl(r) && r.Branch? && Fix(r) == r
    ensures Depth(RotateRight(t)) == Depth(t.left.right) + 2
  {}

  lemma RotateLeftBalances<K, V>(t: Tree<K, V>)
    requires t.Branch? && t.right.Branch? && Avl(t.left) && Avl(t.right)
    requires Depth(t.right) == Depth(t.left) + 2
    requires Depth(t.right.right) >= Depth(t.right.left)
    ensures var r := RotateLeft(t); Avl(r) && r.Branch? && Fix(r) == r
    ensures Depth(RotateLeft(t)) == Depth(t.right.left) + 2
  {}

  lemma RotateLeftRightBalances<K, V>(t: Tree<K, V>)
    requires t.Branch? && t.left.Branch? && Avl(t.left) && Avl(t.right)
    requires Depth(t.left) == Depth(t.right) + 2
    requires Depth(t.left.left) < Depth(t.left.right)
    ensures var r := RotateLeftRight(t); Avl(r) && r.Branch? && Fix(r) == r
    ensures Depth(RotateLeftRight(t)) == Depth(t.left)
  {
    var l := t.left;
    var newLeft := Branch(l.left, l.node, l.height, l.right.left);
    var newRight := Branch(l.right.right, t.node, t.height, t.right);
    FixAvl(newLeft);
    FixAvl(newRight);
    FixAvl(Branch(Fix(newLeft), l.right.node, 0, Fix(newRight)));
    assert RotateLeftRight(t) == Fix(Branch(Fix(newLeft), l.right.node, 0, Fix(newRight)));
  }

  lemma RotateRightLeftBalances<K, V>(t: Tree<K, V>)
    requires t.Branch? && t.right.Branch? && Avl(t.left) && Avl(t.right)
    requires Depth(t.right) == Depth(t.left) + 2
    requires Depth(t.right.right) < Depth(t.right.left)
    ensures var r := RotateRightLeft(t); Avl(r) && r.Branch? && Fix(r) == r
    ensures Depth(RotateRightLeft(t)) == Depth(t.right)
  {
    var r := t.right;
    var newLeft := Branch(t.left, t.node, t.height, r.left.left);
    var newRight := Branch(r.left.right, r.node, r.height, r.right);
    FixAvl(newLeft);
    FixAvl(newRight);
    FixAvl(Branch(Fix(newLeft), r.left.node, 0, Fix(newRight)));
    assert RotateRightLeft(t) == Fix(Branch(Fix(newLeft), r.left.node, 0, Fix(newRight)));
  }

  lemma InsertedLeftAvl<K, V>(t: Tree<K, V>, l: Tree<K, V>, k: K, cmp: (K, K) -> int)
    requires t.Branch? && Avl(t) && Avl(l)
    requires Depth(t.left) <= Depth(l) <= Depth(t.left) + 1
    requires GrewTowards(t.left, l, k, cmp)
    requires t.left.Branch? ==> cmp(k, t.left.node.key) != 0
    requires cmp(k, t.node.key) < 0
    ensures var r := Fix(InsertedLeft(t.(left := l), k, cmp));
      && Avl(r) && Depth(t) <= Depth(r) <= Depth(t) + 1 && GrewTowards(t, r, k, cmp)
  {
    HeightIsDepth(l);
    HeightIsDepth(t.right);
    var u := t.(left := l);
    if Balance(u) == -2 {
      if cmp(k, l.node.key) < 0 {
        RotateRightBalances(u);
      } else {
        RotateLeftRightBalances(u);
      }
    }
  }

  lemma InsertedRightAvl<K, V>(t: Tree<K, V>, l: Tree<K, V>, k: K, cmp: (K, K) -> int)
    requires t.Branch? && Avl(t) && Avl(l)
    requires Depth(t.right) <= Depth(l) <= Depth(t.right) + 1
    requires GrewTowards(t.right, l, k, cmp)
    requires t.right.Branch? ==> cmp(k, t.right.node.key) != 0
    requires cmp(k, t.node.key) > 0
    ensures var r := Fix(InsertedRight(t.(right := l), k, cmp));
      && Avl(r) && Depth(t) <= Depth(r) <= Depth(t) + 1 && GrewTowards(t, r, k, cmp)
  {
    HeightIsDepth(l);
    HeightIsDepth(t.left);
    var u := t.(right := l);
    if Balance(u) == 2 {
      if cmp(k, l.node.key) > 0 {
        RotateLeftBalances(u);
      } else {
        RotateRightLeftBalances(u);
      }
    }
  }

  /** Insertion keeps stored heights real and siblings balanced, and adds at most one level. */
  lemma {:induction false} InsertKeepsBalance<K, V>(t: Tree<K, V>, n: Node<K, V>, cmp: (K, K) -> int)
    requires Avl(t) && Absent(t, n.key, cmp)
    ensures Avl(Insert(t, n, cmp))
    ensures Depth(t) <= Depth(Insert(t, n, cmp)) <= Depth(t) + 1
    ensures GrewTowards(t, Insert(t, n, cmp), n.key, cmp)
  {
    if t.Branch? {
      assert t.node in Nodes(t);
      if cmp(n.key, t.node.key) < 0 {
        InsertKeepsBalance(t.left, n, cmp);
        assert t.left.Branch? ==> t.left.node in Nodes(t.left);
        InsertedLeftAvl(t, Insert(t.left, n, cmp), n.key, cmp);
      } else {
        InsertKeepsBalance(t.right, n, cmp);
        assert t.right.Branch? ==> t.right.node in Nodes(t.right);
        InsertedRightAvl(t, Insert(t.right, n, cmp), n.key, cmp);
      }
    }
  }

  // ---------- Removal ----------

  lemma RebalanceKeeps<K(!new), V>(t: Tree<K, V>, cmp: (K, K) -> int)
    requires WeakOrder(cmp) && Ordered(t, cmp)
    ensures Ordered(Rebalance(t), cmp) && Nodes(Rebalance(t)) == Nodes(t)
  {
    if t.Branch? {
      FixKeeps(t, cmp);
      if Balance(t) > 1 {
        RotateLeftKeeps(Fix(t), cmp);
        RotateRightLeftKeeps(Fix(t), cmp);
      } else if Balance(t) < -1 {
        RotateRightKeeps(Fix(t), cmp);
        RotateLeftRightKeeps(Fix(t), cmp);
      }
    }
  }

  /** Rebalancing repairs siblings that differ by two and costs at most one level. */
  lemma RebalanceBalances<K, V>(t: Tree<K, V>)
    requires t.Branch? && Avl(t.left) && Avl(t.right)
    requires -2 <= Depth(t.right) - Depth(t.left) <= 2
    ensures Avl(Rebalance(t))
    ensures Depth(t) - 1 <= Depth(Rebalance(t)) <= Depth(t)
    ensures -1 <= Depth(t.right) - Depth(t.left) <= 1 ==> Depth(Rebalance(t)) == Depth(t)
  {
    var u := Fix(t);
    HeightIsDepth(t.left);
    HeightIsDepth(t.right);
    if Balance(t) > 1 {
      HeightIsDepth(t.right.left);
      HeightIsDepth(t.right.right);
      if Balance(t.right) >= 0 { RotateLeftBalances(u); } else { RotateRightLeftBalances(u); }
    } else if Balance(t) < -1 {
      HeightIsDepth(t.left.left);
      HeightIsDepth(t.left.right);
      if Balance(t.left) <= 0 { RotateRightBalances(u); } else { RotateLeftRightBalances(u); }
    } else {
      FixAvl(t);
    }
  }

  lemma RebalanceIdle<K, V>(t: Tree<K, V>)
    requires Avl(t)
    ensures Rebalance(t) == t
  {
    if t.Branch? {
      HeightIsDepth(t.left);
      HeightIsDepth(t.right);
    }
  }

  lemma {:induction false} LeftmostIsLeast<K(!new), V>(t: Tree<K, V>, cmp: (K, K) -> int)
    requires WeakOrder(cmp) && Ordered(t, cmp) && t.Branch?
    ensures Leftmost(t) in Nodes(t)
    ensures AllAbove(Nodes(t) - {Leftmost(t)}, Leftmost(t).key, cmp)
    ensures cmp(Leftmost(t).key, Leftmost(t).key) == 0
  {
    var m := Leftmost(t);
    if t.left.Branch? {
      LeftmostIsLeast(t.left, cmp);
      AboveTransitive(Nodes(t.right), m.key, t.node.key, cmp);
    }
  }

  /** What a removal from `t` must return: no node if nothing in `t` equals `k`; otherwise the one
      node that does, with every other node object still in place. */
  ghost predicate Removes<K, V>(t: Tree<K, V>, k: K, r: Removal<K, V>, cmp: (K, K) -> int) {
    && Ordered(r.tree, cmp)
    && match r.removed
       case None => Absent(t, k, cmp) && Nodes(r.tree) == Nodes(t)
       case Some(x) => x in Nodes(t) && cmp(k, x.key) == 0 && Nodes(r.tree) == Nodes(t) - {x}
  }

  lemma AbsentLeft<K(!new), V>(t: Tree<K, V>, k: K, cmp: (K, K) -> int)
    requires WeakOrder(cmp) && Ordered(t, cmp) && t.Branch? && cmp(k, t.node.key) <= 0
    ensures AllAbove(Nodes(t.right), k, cmp)
  {
    AboveTransitive(Nodes(t.right), k, t.node.key, cmp);
  }

  lemma AbsentRight<K(!new), V>(t: Tree<K, V>, k: K, cmp: (K, K) -> int)
    requires WeakOrder(cmp) && Ordered(t, cmp) && t.Branch? && cmp(k, t.node.key) >= 0
    ensures AllBelow(Nodes(t.left), k, cmp)
  {
    BelowTransitive(Nodes(t.left), t.node.key, k, cmp);
  }

  lemma RemoveLeftStep<K(!new), V>(t: Tree<K, V>, k: K, sub: Removal<K, V>, cmp: (K, K) -> int)
    requires WeakOrder(cmp) && Ordered(t, cmp) && t.Branch? && cmp(k, t.node.key) < 0
    requires Removes(t.left, k, sub, cmp)
    ensures Removes(t, k, Removal(Rebalance(t.(left := sub.tree)), sub.removed), cmp)
  {
    AbsentLeft(t, k, cmp);
    OrderedDisjoint(t, cmp);
    RebalanceKeeps(t.(left := sub.tree), cmp);
  }

  lemma RemoveRightStep<K(!new), V>(t: Tree<K, V>, k: K, sub: Removal<K, V>, cmp: (K, K) -> int)
    requires WeakOrder(cmp) && Ordered(t, cmp) && t.Branch? && cmp(k, t.node.key) > 0
    requires Removes(t.right, k, sub, cmp)
    ensures Removes(t, k, Removal(Rebalance(t.(right := sub.tree)), sub.removed), cmp)
  {
    AbsentRight(t, k, cmp);
    OrderedDisjoint(t, cmp);
    RebalanceKeeps(t.(right := sub.tree), cmp);
  }

  lemma SuccessorFound<K(!new), V>(t: Tree<K, V>, sub: Removal<K, V>, cmp: (K, K) -> int)
    requires WeakOrder(cmp) && Ordered(t, cmp) && t.Branch?
    requires Removes(t, Leftmost(t).key, sub, cmp)
    ensures sub.removed == Some(Leftmost(t))
  {
    LeftmostIsLeast(t, cmp);
  }

  /** The successor taken out of the right subtree can stand at the root. */
  lemma SuccessorStep<K(!new), V>(t: Tree<K, V>, sub: Removal<K, V>, cmp: (K, K) -> int)
    requires WeakOrder(cmp) && Ordered(t, cmp) && t.Branch? && t.right.Branch?
    requires Removes(t.right, Leftmost(t.right).key, sub, cmp)
    ensures var u := Branch(t.left, Leftmost(t.right), 1, sub.tree);
      Ordered(u, cmp) && Nodes(u) == Nodes(t) - {t.node}
  {
    var m := Leftmost(t.right);
    LeftmostIsLeast(t.right, cmp);
    SuccessorFound(t.right, sub, cmp);
    OrderedDisjoint(t, cmp);
    BelowTransitive(Nodes(t.left), t.node.key, m.key, cmp);
  }

  /** Removal takes out exactly the matching node, if there is one, and keeps the order. */
  lemma {:induction false} RemoveKeepsOrder<K(!new), V>(t: Tree<K, V>, k: K, cmp: (K, K) -> int)
    requires WeakOrder(cmp) && Ordered(t, cmp)
    ensures Removes(t, k, Remove(t, k, cmp), cmp)
    decreases t
  {
    if t.Branch? {
      var comparison := cmp(k, t.node.key);
      if comparison < 0 {
        RemoveKeepsOrder(t.left, k, cmp);
        RemoveLeftStep(t, k, Remove(t.left, k, cmp), cmp);
      } else if comparison > 0 {
        RemoveKeepsOrder(t.right, k, cmp);
        RemoveRightStep(t, k, Remove(t.right, k, cmp), cmp);
      } else if t.left.Branch? && t.right.Branch? {
        var m := Leftmost(t.right).key;
        RemoveKeepsOrder(t.right, m, cmp);
        SuccessorFound(t.right, Remove(t.right, m, cmp), cmp);
        SuccessorStep(t, Remove(t.right, m, cmp), cmp);
        RebalanceKeeps(Branch(t.left, Leftmost(t.right), 1, Remove(t.right, m, cmp).tree), cmp);
      } else {
        OrderedDisjoint(t, cmp);
        RebalanceKeeps(if t.left.Leaf? then t.right else t.left, cmp);
      }
    }
  }

  lemma SuccessorBalances<K(!new), V>(t: Tree<K, V>, cmp: (K, K) -> int)
    requires WeakOrder(cmp) && Ordered(t, cmp) && Avl(t) && t.Branch? && t.right.Branch?
    requires var r := Remove(t.right, Leftmost(t.right).key, cmp).tree;
      Avl(r) && Depth(t.right) - 1 <= Depth(r) <= Depth(t.right)
    ensures var sub := Remove(t.right, Leftmost(t.right).key, cmp);
      var r := Rebalance(Branch(t.left, Leftmost(t.right), 1, sub.tree));
      && sub.removed == Some(Leftmost(t.right))
      && Avl(r) && Depth(t) - 1 <= Depth(r) <= Depth(t)
  {
    var m := Leftmost(t.right);
    var sub := Remove(t.right, m.key, cmp);
    RemoveKeepsOrder(t.right, m.key, cmp);
    SuccessorFound(t.right, sub, cmp);
    RebalanceBalances(Branch(t.left, m, 1, sub.tree));
  }

  /** Removal keeps stored heights real and siblings balanced, and takes away at most one level. */
  lemma {:induction false} RemoveKeepsBalance<K(!new), V>(t: Tree<K, V>, k: K, cmp: (K, K) -> int)
    requires WeakOrder(cmp) && Ordered(t, cmp) && Avl(t)
    ensures var r := Remove(t, k, cmp).tree;
      Avl(r) && Depth(t) - 1 <= Depth(r) <= Depth(t)
    decreases t
  {
    if t.Branch? {
      var comparison := cmp(k, t.node.key);
      if comparison < 0 {
        RemoveKeepsBalance(t.left, k, cmp);
        RebalanceBalances(t.(left := Remove(t.left, k, cmp).tree));
      } else if comparison > 0 {
        RemoveKeepsBalance(t.right, k, cmp);
        RebalanceBalances(t.(right := Remove(t.right, k, cmp).tree));
      } else if t.left.Branch? && t.right.Branch? {
        RemoveKeepsBalance(t.right, Leftmost(t.right).key, cmp);
        SuccessorBalances(t, cmp);
      } else {
        RebalanceIdle(if t.left.Leaf? then t.right else t.left);
      }
    }
  }

  /** Looking for an absent element changes nothing, not even a stored height. */
  lemma {:induction false} RemoveAbsent<K(!new), V>(t: Tree<K, V>, k: K, cmp: (K, K) -> int)
    requires WeakOrder(cmp) && Ordered(t, cmp) && Avl(t) && Absent(t, k, cmp)
    ensures Remove(t, k, cmp) == Removal(t, None)
  {
    if t.Branch? {
      assert t.node in Nodes(t);
      if cmp(k, t.node.key) < 0 {
        RemoveAbsent(t.left, k, cmp);
      } else {
        RemoveAbsent(t.right, k, cmp);
      }
      RebalanceIdle(t);
    }
  }
}
