/** The tree of `src/cyberd/tree.h`: a comparison function and a root pointer. */
module AvlTree {
  import opened Comparison
  import opened AvlShape
  import opened Options
  import opened AvlTheory
  import opened AvlHeap
  import opened AvlResults

  /** The element a node holds. */
  function ElementOf<K, V>(n: Option<Node<K, V>>): Option<V> {
    match n
    case None => None
    case Some(x) => Some(x.element)
  }

  /** How often a search compares. */
  function Comparisons<K, V>(t: Tree<K, V>, key: K, cmp: (K, K) -> int): nat {
    if t.Leaf? then 0
    else if cmp(key, t.node.key) == 0 then 1
    else if cmp(key, t.node.key) < 0 then 1 + Comparisons(t.left, key, cmp)
    else 1 + Comparisons(t.right, key, cmp)
  }

  lemma {:induction false} ComparisonsBound<K, V>(t: Tree<K, V>, key: K, cmp: (K, K) -> int)
    ensures Comparisons(t, key, cmp) <= Depth(t)
  {
    if t.Branch? {
      ComparisonsBound(t.left, key, cmp);
      ComparisonsBound(t.right, key, cmp);
    }
  }

  class SortedTree<K(!new), V> {
    const compare: (K, K) -> int
    var root: Node?<K, V>
    ghost var shape: Tree<K, V>

    ghost predicate Valid()
      reads this, Nodes(shape)
    {
      && WeakOrder(compare) && Represents(root, shape)
      && Ordered(shape, compare) && Avl(shape)
    }

    constructor (compare: (K, K) -> int)
      requires WeakOrder(compare)
      ensures Valid() && this.compare == compare && Nodes(shape) == {}
    {
      this.compare := compare;
      root := null;
      shape := Leaf;
    }

    /** `tree_insert`: a new node for an element whose key the tree does not hold yet. */
    method Insert(key: K, element: V) returns (ghost n: Node<K, V>)
      requires Valid()
      requires Absent(shape, key, compare)
      modifies this, Nodes(shape)
      ensures Valid()
      ensures fresh(n) && n.key == key && n.element == element
      ensures shape == AvlShape.Insert(old(shape), n, compare)
      ensures Nodes(shape) == old(Nodes(shape)) + {n}
      ensures old(Depth(shape)) <= Depth(shape) <= old(Depth(shape)) + 1
    {
      hide AvlShape.Insert, Ordered, Avl, Depth;
      assert allocated(Nodes(shape));
      var node := new Node(key, element);
      n := node;
      var r := AvlHeap.InsertNode(root, node, compare, shape);
      InsertKeepsOrder(shape, node, compare);
      InsertKeepsBalance(shape, node, compare);
      root := r;
      shape := AvlShape.Insert(shape, node, compare);
      assert allocated(Nodes(shape));
    }

    /** `tree_remove`: the element of the matching node, whose node is freed. */
    method Remove(key: K) returns (removed: Option<V>, ghost n: Option<Node<K, V>>)
      requires Valid()
      modifies this, Nodes(shape)
      ensures Valid()
      ensures Removal(shape, n) == AvlShape.Remove(old(shape), key, compare)
      ensures Removes(old(shape), key, Removal(shape, n), compare)
      ensures removed == ElementOf(n)
      ensures n == None ==> shape == old(shape)
      ensures old(Depth(shape)) - 1 <= Depth(shape) <= old(Depth(shape))
    {
      hide AvlShape.Remove, Ordered, Avl, Depth;
      var r, node := RemoveNode(root, key, compare, shape);
      RemoveKeepsOrder(shape, key, compare);
      RemoveKeepsBalance(shape, key, compare);
      n := AvlShape.Remove(shape, key, compare).removed;
      if n == None {
        RemoveAbsent(shape, key, compare);
      }
      removed := if node != null then Some(node.element) else None;
      root := r;
      shape := AvlShape.Remove(shape, key, compare).tree;
      assert allocated(Nodes(shape));
    }

    /** `tree_find`: one path down, guided by the order. `comparisons` counts the calls of `compare`: no
        more than the height, which the number of elements bounds. */
    method Find(key: K) returns (found: Option<V>, ghost comparisons: nat)
      requires Valid()
      ensures found == ElementOf(AvlResults.Find(shape, key, compare))
      ensures Match(Nodes(shape), key, AvlResults.Find(shape, key, compare), compare)
      ensures comparisons == Comparisons(shape, key, compare)
      ensures Comparisons(shape, key, compare) <= Depth(shape)
      ensures Pow2(Comparisons(shape, key, compare) / 2) <= |Nodes(shape)| + 1
    {
      hide Ordered, Avl;
      var current := root;
      ghost var t := shape;
      comparisons := 0;
      while current != null
        invariant Represents(current, t)
        invariant AvlResults.Find(t, key, compare) == AvlResults.Find(shape, key, compare)
        invariant comparisons + Comparisons(t, key, compare) == Comparisons(shape, key, compare)
        decreases t
      {
        var comparison := compare(key, current.key);
        comparisons := comparisons + 1;
        if comparison == 0 {
          break;
        } else if comparison < 0 {
          current := current.left;
          t := t.left;
        } else {
          current := current.right;
          t := t.right;
        }
      }
      found := if current != null then Some(current.element) else None;
      ComparisonsBound(shape, key, compare);
      SearchCost(shape, comparisons, compare);
      FindMatches(shape, key, compare);
    }

    /** `tree_last` */
    method Last() returns (last: Option<V>)
      requires Valid()
      ensures last == ElementOf(AvlResults.Last(shape))
      ensures Greatest(Nodes(shape), AvlResults.Last(shape), compare)
    {
      LastIsGreatest(shape, compare);
      var current := root;
      if current != null {
        ghost var t := shape;
        while current.right != null
          invariant Represents(current, t)
          invariant AvlResults.Last(t) == AvlResults.Last(shape)
          decreases t
        {
          current := current.right;
          t := t.right;
        }
        last := Some(current.element);
      } else {
        last := None;
      }
    }

    /** `tree_mutate`: the elements in the order they are handed to the callback. */
    method Traverse() returns (visited: seq<Node<K, V>>)
      requires Valid()
      ensures visited == Preorder(shape)
      ensures multiset(visited) == multiset(Nodes(shape))
    {
      visited := TraverseNode(root, shape);
      PreorderVisitsOnce(shape, compare);
    }

    /** `tree_node_preorder_mutate` */
    static method TraverseNode(node: Node?<K, V>, ghost t: Tree<K, V>) returns (visited: seq<Node<K, V>>)
      requires Represents(node, t)
      ensures visited == Preorder(t)
      decreases t
    {
      visited := [];
      if node != null {
        assert allocated(Nodes(t.right));
        var left := TraverseNode(node.left, t.left);
        var right := TraverseNode(node.right, t.right);
        visited := [node] + left + right;
      }
    }
  }

  lemma {:induction false} Pow2Monotone(m: nat, n: nat)
    requires m <= n
    ensures Pow2(m) <= Pow2(n)
  {
    if m < n {
      Pow2Monotone(m, n - 1);
    }
  }

  lemma SearchCost<K(!new), V>(t: Tree<K, V>, comparisons: nat, cmp: (K, K) -> int)
    requires WeakOrder(cmp) && Ordered(t, cmp) && Avl(t)
    requires comparisons <= Depth(t)
    ensures Pow2(comparisons / 2) <= |Nodes(t)| + 1
  {
    LogarithmicHeight(t);
    CountIsSize(t, cmp);
    Pow2Monotone(comparisons / 2, Depth(t) / 2);
  }
}
