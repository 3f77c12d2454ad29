/** The comparison functions a tree may be ordered by. */
module Comparison {

  /** `cmp` has the sign behaviour of a C comparison function: antisymmetric and transitive.
      Distinct values may compare equal. */
  ghost predicate WeakOrder<E(!new)>(cmp: (E, E) -> int) {
    && (forall a, b :: cmp(a, b) < 0 <==> cmp(b, a) > 0)
    && (forall a, b, c :: cmp(a, b) <= 0 && cmp(b, c) <= 0 ==> cmp(a, c) <= 0)
  }

  /** Keys are told apart by their order: only equal keys compare equal. */
  ghost predicate KeyOrder<K(!new)>(cmp: (K, K) -> int) {
    WeakOrder(cmp) && forall a, b :: cmp(a, b) == 0 ==> a == b
  }

  lemma LessTransitive<E(!new)>(cmp: (E, E) -> int, a: E, b: E, c: E)
    requires WeakOrder(cmp)
    requires cmp(a, b) <= 0 && cmp(b, c) <= 0
    ensures cmp(a, c) <= 0
    ensures cmp(a, b) < 0 || cmp(b, c) < 0 ==> cmp(a, c) < 0
  {
    if cmp(a, c) == 0 {
      assert cmp(c, a) <= 0;
      assert cmp(b, a) <= 0 && cmp(c, b) <= 0;
    }
  }
}

/** The values of the tree: what every pointer of `src/cyberd/tree.c` points at, as a tree of
    node objects, and what the recursive functions of that file compute on such values. */
module AvlShape {
  import opened Comparison
  import opened Options

  /** A tree node. The element of a node never changes once it is created, and neither does its key:
      the part of the element that the comparison function reads, which no caller writes while the
      element is in a tree. */
  class Node<K, V> {
    const key: K
    const element: V
    var left: Node?<K, V>
    var right: Node?<K, V>
    var height: int

    constructor (key: K, element: V)
      ensures this.key == key && this.element == element
      ensures left == null && right == null && height == 1
    {
      this.key, this.element := key, element;
      left, right, height := null, null, 1;
    }
  }

  /** The node objects below a pointer and the heights stored in them. */
  datatype Tree<K, V> = Leaf | Branch(left: Tree<K, V>, node: Node<K, V>, height: int, right: Tree<K, V>)

  function Max(a: int, b: int): int { if a > b then a else b }

  function Height<K, V>(t: Tree<K, V>): int { if t.Leaf? then 0 else t.height }

  function Balance<K, V>(t: Tree<K, V>): int {
    if t.Leaf? then 0 else Height(t.right) - Height(t.left)
  }

  /** Recomputes the height stored in the root. */
  function Fix<K, V>(t: Tree<K, V>): Tree<K, V>
    requires t.Branch?
  {
    t.(height := Max(Height(t.left), Height(t.right)) + 1)
  }

  // The rotations are total; where the C code would dereference NULL they return their argument,
  // and the methods of AvlHeap prove that this never happens.

  function RotateRight<K, V>(t: Tree<K, V>): (r: Tree<K, V>)
    ensures t.Branch? ==> r.Branch?
  {
    if t.Branch? && t.left.Branch? then
      var lowered := Fix(Branch(t.left.right, t.node, t.height, t.right));
      Fix(Branch(t.left.left, t.left.node, t.left.height, lowered))
    else t
  }

  function RotateLeft<K, V>(t: Tree<K, V>): (r: Tree<K, V>)
    ensures t.Branch? ==> r.Branch?
  {
    if t.Branch? && t.right.Branch? then
      var lowered := Fix(Branch(t.left, t.node, t.height, t.right.left));
      Fix(Branch(lowered, t.right.node, t.right.height, t.right.right))
    else t
  }

  function RotateLeftRight<K, V>(t: Tree<K, V>): (r: Tree<K, V>)
    ensures t.Branch? ==> r.Branch?
  {
    if t.Branch? then RotateRight(t.(left := RotateLeft(t.left))) else t
  }

  function RotateRightLeft<K, V>(t: Tree<K, V>): (r: Tree<K, V>)
    ensures t.Branch? ==> r.Branch?
  {
    if t.Branch? then RotateLeft(t.(right := RotateRight(t.right))) else t
  }

  /** The rotation `tree_node_insert` picks after descending to the left: by comparing the new
      key with the left child, not by looking at the balance of that child. */
  function InsertedLeft<K, V>(t: Tree<K, V>, k: K, cmp: (K, K) -> int): Tree<K, V>
    requires t.Branch? && t.left.Branch?
  {
    if Balance(t) == -2 then
      if cmp(k, t.left.node.key) < 0 then RotateRight(t) else RotateLeftRight(t)
    else t
  }

  function InsertedRight<K, V>(t: Tree<K, V>, k: K, cmp: (K, K) -> int): Tree<K, V>
    requires t.Branch? && t.right.Branch?
  {
    if Balance(t) == 2 then
      if cmp(k, t.right.node.key) > 0 then RotateLeft(t) else RotateRightLeft(t)
    else t
  }

  /** `tree_node_insert`. When an equal element is already there the C code aborts; here the tree
      is returned as it is, and `AvlHeap.InsertNode` proves that branch dead for absent elements. */
  function Insert<K, V>(t: Tree<K, V>, n: Node<K, V>, cmp: (K, K) -> int): (r: Tree<K, V>)
    ensures r.Branch?
  {
    if t.Leaf? then Branch(Leaf, n, 1, Leaf)
    else
      var comparison := cmp(n.key, t.node.key);
      if comparison < 0 then
        Fix(InsertedLeft(t.(left := Insert(t.left, n, cmp)), n.key, cmp))
      else if comparison > 0 then
        Fix(InsertedRight(t.(right := Insert(t.right, n, cmp)), n.key, cmp))
      else t
  }

  /** The height update and rebalancing at the end of `tree_node_remove`. */
  function Rebalance<K, V>(t: Tree<K, V>): Tree<K, V> {
    if t.Leaf? then t
    else
      var u := Fix(t);
      if Balance(t) > 1 then
        if Balance(t.right) >= 0 then RotateLeft(u) else RotateRightLeft(u)
      else if Balance(t) < -1 then
        if Balance(t.left) <= 0 then RotateRight(u) else RotateLeftRight(u)
      else u
  }

  /** The node the successor loop of `tree_node_remove` stops at. */
  function Leftmost<K, V>(t: Tree<K, V>): Node<K, V>
    requires t.Branch?
  {
    if t.left.Leaf? then t.node else Leftmost(t.left)
  }

  datatype Removal<K, V> = Removal(tree: Tree<K, V>, removed: Option<Node<K, V>>)

  /** `tree_node_remove`: the tree that is left, and the node unlinked from it. With two children
      the node removed from the right subtree takes the place of the root. */
  function Remove<K, V>(t: Tree<K, V>, k: K, cmp: (K, K) -> int): Removal<K, V> {
    if t.Leaf? then Removal(Leaf, None)
    else
      var comparison := cmp(k, t.node.key);
      if comparison < 0 then
        var sub := Remove(t.left, k, cmp);
        Removal(Rebalance(t.(left := sub.tree)), sub.removed)
      else if comparison > 0 then
        var sub := Remove(t.right, k, cmp);
        Removal(Rebalance(t.(right := sub.tree)), sub.removed)
      else if t.left.Branch? && t.right.Branch? then
        var sub := Remove(t.right, Leftmost(t.right).key, cmp);
        if sub.removed.None? then Removal(t, None) else
        Removal(Rebalance(Branch(t.left, sub.removed.value, 1, sub.tree)), Some(t.node))
      else
        Removal(Rebalance(if t.left.Leaf? then t.right else t.left), Some(t.node))
  }
}
