/** The three trees of the program as instances of the tree: daemons by pid (`spawns.c`), daemons by
    name (`configuration.c`) and socket nodes by descriptor (`socket_switch.c`). */
module ProgramTrees {
  import opened AvlShape
  import opened AvlTheory
  import opened AvlResults
  import opened AvlMaps
  import opened Supervisor
  import SocketSwitch
  import Comparators

  /** Whatever the program does with the tree of pids is done with a map of pids. */
  lemma PidTree(ops: seq<AvlResults.Operation<nat, Daemon>>)
    requires MapLegal(map[], ops)
    ensures var (u, xs) := ApplyAll(Leaf, ops, Comparators.ByNumber);
      MapAgrees(map[], ops, xs, Comparators.ByNumber) && Indexes(Nodes(u), MapAfterAll(map[], ops)) && Avl(u)
  {
    Comparators.ByNumberIsKeyOrder();
    RunIsMap(Leaf, map[], ops, Comparators.ByNumber);
  }

  /** Whatever it does with a tree of names is done with a map of names. */
  lemma NameTree(ops: seq<AvlResults.Operation<string, Daemon>>)
    requires MapLegal(map[], ops)
    ensures var (u, xs) := ApplyAll(Leaf, ops, Comparators.StrCmp);
      MapAgrees(map[], ops, xs, Comparators.StrCmp) && Indexes(Nodes(u), MapAfterAll(map[], ops)) && Avl(u)
  {
    Comparators.StrCmpIsKeyOrder();
    RunIsMap(Leaf, map[], ops, Comparators.StrCmp);
  }

  /** Whatever it does with the tree of descriptors is done with a map of descriptors. */
  lemma DescriptorTree(ops: seq<AvlResults.Operation<nat, SocketSwitch.SocketNode>>)
    requires MapLegal(map[], ops)
    ensures var (u, xs) := ApplyAll(Leaf, ops, Comparators.ByNumber);
      MapAgrees(map[], ops, xs, Comparators.ByNumber) && Indexes(Nodes(u), MapAfterAll(map[], ops)) && Avl(u)
  {
    Comparators.ByNumberIsKeyOrder();
    RunIsMap(Leaf, map[], ops, Comparators.ByNumber);
  }

  /** The pid is a field that is written, but what the comparison reads in the tree is still the key
      a daemon was recorded under: comparing the pids the daemons have now finds the tree in order. */
  lemma PidsAreKeys(init: Init, alive: set<Daemon>, t: Tree<nat, Daemon>)
    requires init.Indexed(alive) && Indexes(Nodes(t), init.spawns)
    ensures forall n :: n in Nodes(t) ==> n.element.pid == n.key && n.element.state != STOPPED
    ensures forall d :: d in alive && d.state != STOPPED ==>
      exists n :: n in Nodes(t) && n.element == d && n.key == d.pid
  {
    forall d | d in alive && d.state != STOPPED ensures exists n :: n in Nodes(t) && n.element == d && n.key == d.pid {
      assert HasKey(Nodes(t), d.pid);
    }
  }

  /** The same of the names between two rounds. */
  lemma NamesAreKeys(init: Init, t: Tree<string, Daemon>)
    requires init.Valid() && Indexes(Nodes(t), init.daemons)
    ensures forall n :: n in Nodes(t) ==> n.element.name == n.key && n.element in init.alive
  {}
}
