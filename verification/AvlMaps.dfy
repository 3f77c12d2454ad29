/** The trees of the program are indexes: a tree of elements told apart by a key answers as a finite
    map ordered by its keys, the interface of Index. */
module AvlMaps {
  import opened Comparison
  import opened AvlShape
  import opened Options
  import opened AvlTheory
  import opened AvlResults
  import Index

  ghost predicate HasKey<K, V>(s: set<Node<K, V>>, k: K) {
    exists n :: n in s && n.key == k
  }

  /** The nodes hold exactly the entries of the map. */
  ghost predicate Indexes<K, V>(s: set<Node<K, V>>, m: map<K, V>) {
    && (forall n :: n in s ==> n.key in m && m[n.key] == n.element)
    && (forall k :: k in m ==> HasKey(s, k))
  }

  ghost predicate OneNodeEach<K, V>(s: set<Node<K, V>>) {
    forall a, b :: a in s && b in s && a.key == b.key ==> a == b
  }

  // ---------- The map operations ----------

  /** What an operation on the tree asks of the index. */
  function Meaning<K, V>(op: Operation<K, V>): Index.Access<K, V> {
    match op
    case InsertNode(n) => Index.Put(n.key, n.element)
    case RemoveElement(k) => Index.Drop(k)
    case FindElement(k) => Index.Get(k)
    case FindLast => Index.Last
  }

  ghost function MapAfterAll<K, V>(m: map<K, V>, ops: seq<Operation<K, V>>): map<K, V>
    decreases |ops|
  {
    if ops == [] then m else MapAfterAll(Index.After(m, Meaning(ops[0])), ops[1..])
  }

  /** The caller inserts only under keys the map does not have at that moment. */
  ghost predicate MapLegal<K, V>(m: map<K, V>, ops: seq<Operation<K, V>>)
    decreases |ops|
  {
    ops != [] ==>
      && Index.Legal(m, Meaning(ops[0]))
      && MapLegal(Index.After(m, Meaning(ops[0])), ops[1..])
  }

  ghost predicate MapAgrees<K, V>(m: map<K, V>, ops: seq<Operation<K, V>>, xs: seq<Option<Node<K, V>>>,
                                  cmp: (K, K) -> int)
    requires |xs| == |ops|
    decreases |ops|
  {
    ops != [] ==>
      && Index.Answers(m, Meaning(ops[0]), EntryOf(xs[0]), cmp)
      && MapAgrees(Index.After(m, Meaning(ops[0])), ops[1..], xs[1..], cmp)
  }

  // ---------- The tree is the map ----------

  lemma OrderedHasOneNodeEach<K(!new), V>(t: Tree<K, V>, cmp: (K, K) -> int)
    requires KeyOrder(cmp) && Ordered(t, cmp)
    ensures OneNodeEach(Nodes(t))
  {
    hide Ordered, Nodes;
    forall a, b | a in Nodes(t) && b in Nodes(t) && a.key == b.key ensures a == b {
      assert cmp(a.key, a.key) == 0;
      MatchIsUnique(t, a.key, Some(a), Some(b), cmp);
    }
  }

  lemma MatchIsEntry<K(!new), V>(s: set<Node<K, V>>, m: map<K, V>, k: K, x: Option<Node<K, V>>, cmp: (K, K) -> int)
    requires KeyOrder(cmp) && Indexes(s, m) && Match(s, k, x, cmp)
    ensures Index.Entry(m, k, EntryOf(x)) && (x.Some? ==> x.value in s)
  {
    assert k in m ==> HasKey(s, k);
    assert cmp(k, k) == 0;
  }

  lemma RemovedIsDropped<K(!new), V>(s: set<Node<K, V>>, m: map<K, V>, k: K, x: Option<Node<K, V>>)
    requires Indexes(s, m) && OneNodeEach(s) && Index.Entry(m, k, EntryOf(x)) && (x.Some? ==> x.value in s)
    ensures Indexes(if x.Some? then s - {x.value} else s, m - {k})
  {
    if x.Some? {
      var r := s - {x.value};
      forall j | j in m - {k} ensures HasKey(r, j) {
        var n :| n in s && n.key == j;
        assert n in r;
      }
    } else {
      assert m - {k} == m;
    }
  }

  lemma InsertedIsAdded<K(!new), V>(s: set<Node<K, V>>, m: map<K, V>, n: Node<K, V>)
    requires Indexes(s, m) && n.key !in m
    ensures Indexes(s + {n}, m[n.key := n.element])
  {
    var r := s + {n};
    forall k | k in m[n.key := n.element] ensures HasKey(r, k) {
      if k == n.key {
        assert n in r;
      } else {
        var x :| x in s && x.key == k;
        assert x in r;
      }
    }
  }

  lemma GreatestIsLastKey<K(!new), V>(s: set<Node<K, V>>, m: map<K, V>, x: Option<Node<K, V>>, cmp: (K, K) -> int)
    requires KeyOrder(cmp) && Indexes(s, m) && Greatest(s, x, cmp)
    ensures Index.Answers(m, Index.Last, EntryOf(x), cmp)
  {
    if x.Some? {
      forall k | k in m ensures cmp(k, x.value.key) <= 0 {
        var n :| n in s && n.key == k;
        assert cmp(k, k) == 0;
        assert n != x.value ==> cmp(n.key, x.value.key) < 0;
      }
    } else {
      assert forall k :: k in m ==> HasKey(s, k);
      assert m == map[];
    }
  }

  lemma AbsentKey<K(!new), V>(t: Tree<K, V>, m: map<K, V>, k: K, cmp: (K, K) -> int)
    requires KeyOrder(cmp) && Indexes(Nodes(t), m) && k !in m
    ensures Absent(t, k, cmp)
  {}

  lemma StepIsMap<K(!new), V>(t: Tree<K, V>, m: map<K, V>, op: Operation<K, V>, cmp: (K, K) -> int)
    requires KeyOrder(cmp) && Ordered(t, cmp) && Avl(t) && Indexes(Nodes(t), m)
    requires Index.Legal(m, Meaning(op))
    ensures var (u, x) := Apply(t, op, cmp);
      && Index.Answers(m, Meaning(op), EntryOf(x), cmp) && Indexes(Nodes(u), Index.After(m, Meaning(op)))
      && Ordered(u, cmp) && Avl(u)
  {
    hide Indexes, Ordered, Avl, Nodes, Match, Index.Entry;
    if op.InsertNode? {
      AbsentKey(t, m, op.node.key, cmp);
    }
    StepAgrees(t, op, cmp);
    OrderedHasOneNodeEach(t, cmp);
    var x := Apply(t, op, cmp).1;
    match op
    case InsertNode(n) => InsertedIsAdded(Nodes(t), m, n);
    case RemoveElement(k) => MatchIsEntry(Nodes(t), m, k, x, cmp); RemovedIsDropped(Nodes(t), m, k, x);
    case FindElement(k) => MatchIsEntry(Nodes(t), m, k, x, cmp);
    case FindLast => GreatestIsLastKey(Nodes(t), m, x, cmp);
  }

  /** Any run of insertions under new keys, removals, searches and last on a tree gives the answers
      of the map the tree indexes, and leaves a valid AVL tree that indexes the map after the run.
      The elements may be of any type: the daemons and socket nodes of the program are. */
  lemma {:induction false} RunIsMap<K(!new), V>(t: Tree<K, V>, m: map<K, V>, ops: seq<Operation<K, V>>,
                                                cmp: (K, K) -> int)
    requires KeyOrder(cmp) && Ordered(t, cmp) && Avl(t) && Indexes(Nodes(t), m)
    requires MapLegal(m, ops)
    ensures var (u, xs) := ApplyAll(t, ops, cmp);
      && MapAgrees(m, ops, xs, cmp) && Indexes(Nodes(u), MapAfterAll(m, ops))
      && Ordered(u, cmp) && Avl(u)
    decreases |ops|
  {
    hide Indexes, Ordered, Avl, Nodes, Index.Answers, Index.After, Index.Legal, Meaning, Apply, KeyOrder;
    if ops != [] {
      StepIsMap(t, m, ops[0], cmp);
      RunIsMap(Apply(t, ops[0], cmp).0, Index.After(m, Meaning(ops[0])), ops[1..], cmp);
    }
  }
}
