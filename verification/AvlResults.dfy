/** Whole-tree results: search and last, runs of operations against a finite set, the height a
    tree of a given size can have, and the exact height after inserting in ascending order. */
module AvlResults {
  import opened Comparison
  import opened AvlShape
  import opened Options
  import opened AvlTheory

  // ---------- Search ----------

  /** The entry a node holds. */
  function EntryOf<K, V>(n: Option<Node<K, V>>): Option<(K, V)> {
    match n
    case None => None
    case Some(x) => Some((x.key, x.element))
  }

  /** The node the loop of `tree_find` stops at. */
  function Find<K, V>(t: Tree<K, V>, k: K, cmp: (K, K) -> int): Option<Node<K, V>> {
    if t.Leaf? then None
    else if cmp(k, t.node.key) == 0 then Some(t.node)
    else if cmp(k, t.node.key) < 0 then Find(t.left, k, cmp)
    else Find(t.right, k, cmp)
  }

  /** The node `tree_last` stops at. */
  function Last<K, V>(t: Tree<K, V>): Option<Node<K, V>> {
    if t.Leaf? then None
    else if t.right.Leaf? then Some(t.node)
    else Last(t.right)
  }

  /** The order in which `tree_node_preorder_mutate` calls back. */
  function Preorder<K, V>(t: Tree<K, V>): seq<Node<K, V>> {
    if t.Leaf? then [] else [t.node] + Preorder(t.left) + Preorder(t.right)
  }

  /** `x` is the one node of `s` that compares equal to `k`, if there is one. */
  ghost predicate Match<K, V>(s: set<Node<K, V>>, k: K, x: Option<Node<K, V>>, cmp: (K, K) -> int) {
    match x
    case None => forall y :: y in s ==> cmp(k, y.key) != 0
    case Some(n) => n in s && cmp(k, n.key) == 0
  }

  /** `x` is the greatest node of `s`, if there is one. */
  ghost predicate Greatest<K, V>(s: set<Node<K, V>>, x: Option<Node<K, V>>, cmp: (K, K) -> int) {
    match x
    case None => s == {}
    case Some(n) => n in s && AllBelow(s - {n}, n.key, cmp)
  }

  lemma {:induction false} FindMatches<K(!new), V>(t: Tree<K, V>, k: K, cmp: (K, K) -> int)
    requires WeakOrder(cmp) && Ordered(t, cmp)
    ensures Match(Nodes(t), k, Find(t, k, cmp), cmp)
  {
    if t.Branch? {
      if cmp(k, t.node.key) < 0 {
        FindMatches(t.left, k, cmp);
        AbsentLeft(t, k, cmp);
      } else if cmp(k, t.node.key) > 0 {
        FindMatches(t.right, k, cmp);
        AbsentRight(t, k, cmp);
      }
    }
  }

  lemma {:induction false} LastIsGreatest<K(!new), V>(t: Tree<K, V>, cmp: (K, K) -> int)
    requires WeakOrder(cmp) && Ordered(t, cmp)
    ensures Greatest(Nodes(t), Last(t), cmp)
  {
    if t.Branch? && t.right.Branch? {
      LastIsGreatest(t.right, cmp);
      var m := Last(t.right).value.key;
      BelowTransitive(Nodes(t.left), t.node.key, m, cmp);
    }
  }

  /** Every node is visited exactly once, whatever the shape. */
  lemma {:induction false} PreorderVisitsOnce<K(!new), V>(t: Tree<K, V>, cmp: (K, K) -> int)
    requires WeakOrder(cmp) && Ordered(t, cmp)
    ensures multiset(Preorder(t)) == multiset(Nodes(t))
  {
    if t.Branch? {
      PreorderVisitsOnce(t.left, cmp);
      PreorderVisitsOnce(t.right, cmp);
      OrderedDisjoint(t, cmp);
    }
  }

  ghost predicate Subtree<K, V>(s: Tree<K, V>, t: Tree<K, V>) {
    s == t || (t.Branch? && (Subtree(s, t.left) || Subtree(s, t.right)))
  }

  /** These are the nodes of `t`, each in one place. */
  ghost predicate Covers<K, V>(p: seq<Node<K, V>>, t: Tree<K, V>) {
    |p| == Count(t) && (forall n :: n in p ==> n in Nodes(t)) && forall n :: n in Nodes(t) ==> n in p
  }

  lemma {:induction false} PreorderCovers<K, V>(t: Tree<K, V>)
    ensures Covers(Preorder(t), t)
  {
    if t.Branch? {
      PreorderCovers(t.left);
      PreorderCovers(t.right);
    }
  }

  /** In the traversal every subtree is visited in one stretch, its root before its left part and that
      before its right part. */
  lemma {:induction false} PreorderIsRootFirst<K, V>(t: Tree<K, V>, s: Tree<K, V>)
    returns (before: seq<Node<K, V>>, left: seq<Node<K, V>>, right: seq<Node<K, V>>, after: seq<Node<K, V>>)
    requires Subtree(s, t) && s.Branch?
    ensures Preorder(t) == before + ([s.node] + left + right) + after
    ensures Covers(left, s.left) && Covers(right, s.right)
  {
    hide Covers;
    if s == t {
      before, left, right, after := [], Preorder(t.left), Preorder(t.right), [];
      PreorderCovers(t.left);
      PreorderCovers(t.right);
    } else if Subtree(s, t.left) {
      before, left, right, after := PreorderIsRootFirst(t.left, s);
      Around([t.node], before, [s.node] + left + right, after, Preorder(t.right));
      before, after := [t.node] + before, after + Preorder(t.right);
    } else {
      before, left, right, after := PreorderIsRootFirst(t.right, s);
      Around([t.node] + Preorder(t.left), before, [s.node] + left + right, after, []);
      before := [t.node] + Preorder(t.left) + before;
    }
  }

  lemma Around<T>(a: seq<T>, b: seq<T>, c: seq<T>, d: seq<T>, e: seq<T>)
    ensures a + (b + c + d) + e == (a + b) + c + (d + e)
    ensures a + (b + c + d) == (a + b) + c + d
  {}

  // ---------- Runs of operations ----------

  datatype Operation<K, V> =
    | InsertNode(node: Node<K, V>)
    | RemoveElement(key: K)
    | FindElement(key: K)
    | FindLast

  /** One operation on the tree, and the node it returns. */
  function Apply<K, V>(t: Tree<K, V>, op: Operation<K, V>, cmp: (K, K) -> int): (Tree<K, V>, Option<Node<K, V>>) {
    match op
    case InsertNode(n) => (Insert(t, n, cmp), None)
    case RemoveElement(k) => var r := Remove(t, k, cmp); (r.tree, r.removed)
    case FindElement(k) => (t, Find(t, k, cmp))
    case FindLast => (t, Last(t))
  }

  function ApplyAll<K, V>(t: Tree<K, V>, ops: seq<Operation<K, V>>,
                          cmp: (K, K) -> int): (r: (Tree<K, V>, seq<Option<Node<K, V>>>))
    ensures |r.1| == |ops|
    decreases |ops|
  {
    if ops == [] then (t, [])
    else
      var (u, x) := Apply(t, ops[0], cmp);
      var (v, xs) := ApplyAll(u, ops[1..], cmp);
      (v, [x] + xs)
  }

  /** What the operation is on a finite set: the result it must return, and the set after it. */
  ghost predicate Answers<K, V>(s: set<Node<K, V>>, op: Operation<K, V>, x: Option<Node<K, V>>, cmp: (K, K) -> int) {
    match op
    case InsertNode(_) => x == None
    case RemoveElement(k) => Match(s, k, x, cmp)
    case FindElement(k) => Match(s, k, x, cmp)
    case FindLast => Greatest(s, x, cmp)
  }

  ghost function After<K, V>(s: set<Node<K, V>>, op: Operation<K, V>, x: Option<Node<K, V>>): set<Node<K, V>> {
    match op
    case InsertNode(n) => s + {n}
    case RemoveElement(_) => if x.Some? then s - {x.value} else s
    case FindElement(_) => s
    case FindLast => s
  }

  /** The caller inserts only elements that are absent from the set at that moment. */
  ghost predicate Legal<K, V>(s: set<Node<K, V>>, ops: seq<Operation<K, V>>, xs: seq<Option<Node<K, V>>>,
                              cmp: (K, K) -> int)
    requires |xs| == |ops|
    decreases |ops|
  {
    ops != [] ==>
      && (ops[0].InsertNode? ==> forall y :: y in s ==> cmp(ops[0].node.key, y.key) != 0)
      && Legal(After(s, ops[0], xs[0]), ops[1..], xs[1..], cmp)
  }

  /** Every result of the run is the one the set gives, and the run ends in the set `end`. */
  ghost predicate Agrees<K, V>(s: set<Node<K, V>>, ops: seq<Operation<K, V>>, xs: seq<Option<Node<K, V>>>,
                               end: set<Node<K, V>>, cmp: (K, K) -> int)
    requires |xs| == |ops|
    decreases |ops|
  {
    if ops == [] then s == end
    else
      && Answers(s, ops[0], xs[0], cmp)
      && Agrees(After(s, ops[0], xs[0]), ops[1..], xs[1..], end, cmp)
  }

  lemma StepAgrees<K(!new), V>(t: Tree<K, V>, op: Operation<K, V>, cmp: (K, K) -> int)
    requires WeakOrder(cmp) && Ordered(t, cmp) && Avl(t)
    requires op.InsertNode? ==> Absent(t, op.node.key, cmp)
    ensures var (u, x) := Apply(t, op, cmp);
      && Answers(Nodes(t), op, x, cmp) && Nodes(u) == After(Nodes(t), op, x)
      && Ordered(u, cmp) && Avl(u)
  {
    match op
    case InsertNode(n) => InsertKeepsOrder(t, n, cmp); InsertKeepsBalance(t, n, cmp);
    case RemoveElement(k) => RemoveKeepsOrder(t, k, cmp); RemoveKeepsBalance(t, k, cmp);
    case FindElement(k) => FindMatches(t, k, cmp);
    case FindLast => LastIsGreatest(t, cmp);
  }

  /** Any run of insertions, removals, searches and last agrees with a finite set, and the tree it
      ends with is again a valid AVL tree of exactly the nodes of that set. */
  lemma {:induction false} RunAgrees<K(!new), V>(t: Tree<K, V>, ops: seq<Operation<K, V>>, cmp: (K, K) -> int)
    requires WeakOrder(cmp) && Ordered(t, cmp) && Avl(t)
    requires Legal(Nodes(t), ops, ApplyAll(t, ops, cmp).1, cmp)
    ensures var (u, xs) := ApplyAll(t, ops, cmp);
      Agrees(Nodes(t), ops, xs, Nodes(u), cmp) && Ordered(u, cmp) && Avl(u)
    decreases |ops|
  {
    if ops != [] {
      StepAgrees(t, ops[0], cmp);
      RunAgrees(Apply(t, ops[0], cmp).0, ops[1..], cmp);
    }
  }

  /** The set leaves no freedom: two nodes that answer the same search are the same node. */
  lemma {:induction false} MatchIsUnique<K(!new), V>(t: Tree<K, V>, k: K, x: Option<Node<K, V>>, y: Option<Node<K, V>>,
                                                     cmp: (K, K) -> int)
    requires WeakOrder(cmp) && Ordered(t, cmp)
    requires Match(Nodes(t), k, x, cmp) && Match(Nodes(t), k, y, cmp)
    ensures x == y
  {
    if t.Branch? && x.Some? && y.Some? {
      if cmp(k, t.node.key) < 0 {
        AbsentLeft(t, k, cmp);
        MatchIsUnique(t.left, k, x, y, cmp);
      } else if cmp(k, t.node.key) > 0 {
        AbsentRight(t, k, cmp);
        MatchIsUnique(t.right, k, x, y, cmp);
      } else {
        AbsentLeft(t, k, cmp);
        AbsentRight(t, k, cmp);
      }
    }
  }

  // ---------- Height and size ----------

  ghost function Count<K, V>(t: Tree<K, V>): nat {
    if t.Leaf? then 0 else 1 + Count(t.left) + Count(t.right)
  }

  lemma {:induction false} CountIsSize<K(!new), V>(t: Tree<K, V>, cmp: (K, K) -> int)
    requires WeakOrder(cmp) && Ordered(t, cmp)
    ensures |Nodes(t)| == Count(t)
  {
    if t.Branch? {
      CountIsSize(t.left, cmp);
      CountIsSize(t.right, cmp);
      OrderedDisjoint(t, cmp);
      assert |Nodes(t.left) + {t.node}| == |Nodes(t.left)| + 1;
      assert |Nodes(t.left) + {t.node} + Nodes(t.right)| == |Nodes(t.left) + {t.node}| + |Nodes(t.right)|;
    }
  }

  ghost function Fib(n: nat): nat {
    if n < 2 then n else Fib(n - 1) + Fib(n - 2)
  }

  ghost function Pow2(n: nat): nat {
    if n == 0 then 1 else 2 * Pow2(n - 1)
  }

  lemma {:induction false} FibMonotone(m: nat, n: nat)
    requires m <= n
    ensures Fib(m) <= Fib(n)
    decreases n
  {
    if m < n {
      FibMonotone(m, n - 1);
    }
  }

  /** A tree of height h has at least Fib(h + 2) - 1 nodes. */
  lemma {:induction false} FibonacciBound<K, V>(t: Tree<K, V>)
    requires Avl(t)
    ensures Count(t) + 1 >= Fib(Depth(t) + 2)
  {
    if t.Branch? {
      FibonacciBound(t.left);
      FibonacciBound(t.right);
      var d := Depth(t);
      FibMonotone(d, Depth(t.left) + 2);
      FibMonotone(d, Depth(t.right) + 2);
    } else {
      assert Fib(2) == 1;
    }
  }

  lemma {:induction false} FibDoubles(k: nat)
    ensures Fib(2 * k + 2) >= Pow2(k) && Fib(2 * k + 3) >= Pow2(k)
  {
    if k == 0 {
      assert Fib(2) == 1 && Fib(3) == 2;
    } else {
      FibDoubles(k - 1);
      FibMonotone(2 * k, 2 * k + 1);
    }
  }

  /** The height is logarithmic: twice the logarithm of the size, plus one, bounds it. */
  lemma {:induction false} LogarithmicHeight<K, V>(t: Tree<K, V>)
    requires Avl(t)
    ensures Pow2(Depth(t) / 2) <= Count(t) + 1
  {
    hide Avl, Count, Depth, Fib, Pow2;
    var k := Depth(t) / 2;
    FibonacciBound(t);
    FibDoubles(k);
    FibMonotone(2 * k + 2, Depth(t) + 2);
  }

  // ---------- Insertion in ascending order ----------

  /** All 2^d - 1 places of depth d are taken. */
  ghost predicate Perfect<K, V>(t: Tree<K, V>) {
    t.Branch? ==> Perfect(t.left) && Perfect(t.right) && Depth(t.left) == Depth(t.right)
  }

  /** Down the right spine every left subtree is perfect, and its right sibling is as tall or one
      taller. */
  ghost predicate Ascending<K, V>(t: Tree<K, V>) {
    t.Branch? ==>
      && Perfect(t.left) && Ascending(t.right)
      && Depth(t.left) <= Depth(t.right) <= Depth(t.left) + 1
  }

  lemma {:induction false} PerfectCount<K, V>(t: Tree<K, V>)
    requires Perfect(t)
    ensures Count(t) == Pow2(Depth(t)) - 1
  {
    if t.Branch? {
      PerfectCount(t.left);
      PerfectCount(t.right);
    }
  }

  /** An ascending tree of height h + 1 has between 2^h and 2^(h+1) - 1 nodes. */
  lemma {:induction false} AscendingCount<K, V>(t: Tree<K, V>)
    requires Ascending(t) && t.Branch?
    ensures Pow2(Depth(t) - 1) <= Count(t) < Pow2(Depth(t))
  {
    PerfectCount(t.left);
    if t.right.Branch? {
      AscendingCount(t.right);
    }
  }

  /** The rotation after a new greatest element made the right subtree two taller than the left. */
  lemma AscendingRotation<K(!new), V>(t: Tree<K, V>)
    requires t.Branch? && t.right.Branch? && Avl(t.left) && Avl(t.right)
    requires Perfect(t.left) && Ascending(t.right)
    requires Depth(t.right) == Depth(t.left) + 2
    requires Depth(t.right.right) == Depth(t.right.left) + 1
    ensures Ascending(RotateLeft(t)) && Fix(RotateLeft(t)) == RotateLeft(t)
    ensures Depth(RotateLeft(t)) == Depth(t) - 1
    ensures Count(RotateLeft(t)) == Count(t)
  {
    RotateLeftBalances(t);
  }

  /** Inserting a new greatest element keeps the tree ascending; if it gets taller, the right
      child of the root is now one taller than the left. */
  lemma {:induction false} InsertGreatest<K(!new), V>(t: Tree<K, V>, n: Node<K, V>, cmp: (K, K) -> int)
    requires WeakOrder(cmp) && Avl(t) && Ascending(t) && AllBelow(Nodes(t), n.key, cmp)
    ensures var r := Insert(t, n, cmp);
      && Ascending(r) && Count(r) == Count(t) + 1
      && Depth(t) <= Depth(r) <= Depth(t) + 1
      && (t.Branch? && Depth(r) == Depth(t) + 1 ==> Depth(r.right) == Depth(r.left) + 1)
  {
    if t.Branch? {
      assert t.node in Nodes(t);
      InsertGreatest(t.right, n, cmp);
      InsertKeepsBalance(t.right, n, cmp);
      var u := t.(right := Insert(t.right, n, cmp));
      HeightIsDepth(u.left);
      HeightIsDepth(u.right);
      if Balance(u) == 2 {
        AscendingRotation(u);
      }
    }
  }

  /** The nodes of `s` inserted one after the other into the empty tree. */
  function InsertAll<K, V>(s: seq<Node<K, V>>, cmp: (K, K) -> int): Tree<K, V> {
    if s == [] then Leaf
    else Insert(InsertAll(s[..|s| - 1], cmp), s[|s| - 1], cmp)
  }

  ghost function FloorLog2(n: nat): nat
    requires n > 0
  {
    if n == 1 then 0 else 1 + FloorLog2(n / 2)
  }

  lemma {:induction false} Log2Unique(n: nat, k: nat)
    requires Pow2(k) <= n < Pow2(k + 1)
    ensures FloorLog2(n) == k
    decreases k
  {
    if k > 0 {
      Log2Unique(n / 2, k - 1);
    }
  }

  lemma InsertNextGreatest<K(!new), V>(t: Tree<K, V>, n: Node<K, V>, cmp: (K, K) -> int)
    requires WeakOrder(cmp) && Ordered(t, cmp) && Avl(t) && Ascending(t)
    requires AllBelow(Nodes(t), n.key, cmp)
    ensures var r := Insert(t, n, cmp);
      && Ordered(r, cmp) && Avl(r) && Ascending(r) && Count(r) == Count(t) + 1
      && Nodes(r) == Nodes(t) + {n}
  {
    InsertKeepsOrder(t, n, cmp);
    InsertKeepsBalance(t, n, cmp);
    InsertGreatest(t, n, cmp);
  }

  ghost predicate InOrder<K, V>(s: seq<Node<K, V>>, cmp: (K, K) -> int) {
    forall i, j :: 0 <= i < j < |s| ==> cmp(s[i].key, s[j].key) < 0
  }

  lemma InOrderFront<K, V>(s: seq<Node<K, V>>, cmp: (K, K) -> int)
    requires InOrder(s, cmp) && s != []
    ensures InOrder(s[..|s| - 1], cmp)
    ensures forall x :: x in s[..|s| - 1] ==> cmp(x.key, s[|s| - 1].key) < 0
    ensures forall x :: x in s <==> x in s[..|s| - 1] || x == s[|s| - 1]
  {
    assert s == s[..|s| - 1] + [s[|s| - 1]];
  }

  lemma {:induction false} InsertAllAscending<K(!new), V>(s: seq<Node<K, V>>, cmp: (K, K) -> int)
    requires WeakOrder(cmp)
    requires InOrder(s, cmp)
    ensures var t := InsertAll(s, cmp);
      && Ordered(t, cmp) && Avl(t) && Ascending(t) && Count(t) == |s|
      && (forall x :: x in Nodes(t) ==> x in s)
  {
    if s != [] {
      hide Ordered, Avl, Ascending, Count, Nodes, Insert, InOrder;
      var front, n := s[..|s| - 1], s[|s| - 1];
      InOrderFront(s, cmp);
      InsertAllAscending(front, cmp);
      var t := InsertAll(front, cmp);
      InsertNextGreatest(t, n, cmp);
    }
  }

  /** Inserting n elements in ascending order gives exactly height floor(log2 n) + 1. */
  lemma AscendingHeight<K(!new), V>(s: seq<Node<K, V>>, cmp: (K, K) -> int)
    requires WeakOrder(cmp) && s != []
    requires InOrder(s, cmp)
    ensures Height(InsertAll(s, cmp)) == FloorLog2(|s|) + 1
  {
    InsertAllAscending(s, cmp);
    var t := InsertAll(s, cmp);
    HeightIsDepth(t);
    AscendingCount(t);
    Log2Unique(|s|, Depth(t) - 1);
  }

  /** The height `test/cyberd-tree.c` checks after inserting every 16-bit integer in order. */
  lemma TestPoolHeight<K(!new), V>(s: seq<Node<K, V>>, cmp: (K, K) -> int)
    requires WeakOrder(cmp) && |s| == 65536
    requires InOrder(s, cmp)
    ensures Height(InsertAll(s, cmp)) == 16 + 1
  {
    AscendingHeight(s, cmp);
    assert Pow2(4) == 16 && Pow2(8) == 256 && Pow2(12) == 4096 && Pow2(16) == 65536 && Pow2(17) == 131072;
    Log2Unique(65536, 16);
  }
}
