/** The socket switch: `src/cyberd/socket_switch.c` with the two kinds of nodes it dispatches to,
    `src/cyberd/socket_endpoint_node.c` and `src/cyberd/socket_connection_node.c`. */
module SocketSwitch {
  import opened Capabilities
  import opened MessageAutomaton
  import opened ConnectionParser
  import opened Options
  import Comparators
  import Index

  const FD_SETSIZE: nat := 1024

  /** An endpoint, or a connection with its parser. Which node caused it to be created is kept for
      the statements about delegation. */
  class SocketNode {
    const fd: nat
    const capabilities: capset
    const parser: Parser?
    ghost const creator: SocketNode?
    ghost const depth: nat

    constructor Endpoint(fd: nat, capabilities: capset, ghost creator: SocketNode?)
      requires Delegates(capabilities, creator)
      ensures this.fd == fd && this.capabilities == capabilities && parser == null && this.creator == creator
      ensures Lineage(this)
    {
      this.fd, this.capabilities, this.parser, this.creator := fd, capabilities, null, creator;
      this.depth := if creator == null then 0 else creator.depth + 1;
    }

    constructor Connection(fd: nat, host: Host, endpoint: SocketNode)
      requires host.Valid() && Lineage(endpoint)
      ensures this.fd == fd && capabilities == endpoint.capabilities && creator == endpoint
      ensures parser != null && fresh(parser) && fresh(parser.buf) && parser.Valid()
      ensures parser.capabilities == capabilities && parser.host == host
      ensures parser.Abstract() == Command && parser.actions == []
      ensures Lineage(this)
    {
      LineageBelowAll(endpoint);
      this.fd, this.capabilities := fd, endpoint.capabilities;
      this.parser := new Parser(host, endpoint.capabilities);
      this.creator := endpoint;
      this.depth := endpoint.depth + 1;
    }
  }

  /** The capabilities a node may be created with. */
  ghost predicate Delegates(capabilities: capset, creator: SocketNode?) {
    if creator == null then Subset(capabilities, CAPSET_ALL)
    else Lineage(creator) && Subset(capabilities, creator.capabilities)
  }

  /** From a node up to the first endpoint, every node holds a subset of what its creator holds,
      and the first endpoint a subset of CAPSET_ALL. */
  ghost predicate Lineage(n: SocketNode)
    decreases n.depth
  {
    if n.creator == null then Subset(n.capabilities, CAPSET_ALL)
    else
      && n.creator.depth < n.depth && Lineage(n.creator)
      && Subset(n.capabilities, n.creator.capabilities)
  }

  ghost predicate Ancestor(a: SocketNode, n: SocketNode)
    decreases n.depth
  {
    a == n || (n.creator != null && n.creator.depth < n.depth && Ancestor(a, n.creator))
  }

  lemma {:induction false} LineageBelowAll(n: SocketNode)
    requires Lineage(n)
    ensures Subset(n.capabilities, CAPSET_ALL)
    decreases n.depth
  {
    if n.creator != null {
      LineageBelowAll(n.creator);
      SubsetTransitive(n.capabilities, n.creator.capabilities, CAPSET_ALL);
    }
  }

  /** A node holds no more than any of its ancestors, so an action it may perform is one every
      ancestor might have performed. */
  lemma {:induction false} AncestorsHold(n: SocketNode, a: SocketNode, capability: capset)
    requires Lineage(n) && Ancestor(a, n)
    ensures Subset(n.capabilities, a.capabilities)
    ensures Has(n.capabilities, capability) ==> Has(a.capabilities, capability)
    decreases n.depth
  {
    hide Subset, Has;
    SubsetReflexive(n.capabilities);
    if a != n {
      AncestorsHold(n.creator, a, capability);
      SubsetTransitive(n.capabilities, n.creator.capabilities, a.capabilities);
    }
    if Has(n.capabilities, capability) {
      SubsetHas(n.capabilities, a.capabilities, capability);
    }
  }

  lemma SubsetReflexive(c: capset)
    ensures Subset(c, c)
  {}

  ghost function SockOf(n: SocketNode): Sock
    requires n.parser != null ==> n.parser.len <= n.parser.buf.Length
    reads if n.parser != null then {n.parser, n.parser.buf} else {}
  {
    if n.parser == null then Listening(n.capabilities) else Connected(n.capabilities, n.parser.Abstract())
  }

  datatype Issued = Issued(node: SocketNode, action: Action)

  /** Every issued action was permitted to its connection and to every ancestor of it. */
  ghost predicate Accountable(i: Issued) {
    && Lineage(i.node) && Permitted(i.node.capabilities, i.action)
  }

  // ---------- What the environment answers, and what the switch makes of it ----------

  /** The answer to `accept`, or to `socket`: no descriptor, or one, on which the calls that follow
      succeed (`usable`) or not. */
  datatype Answer = NoDescriptor | Descriptor(fd: nat, usable: bool)

  /** What happens while one ready node is operated: the bytes `read` gives, none at the end of the
      stream or for an error, and the kernel's answer to each call that asks for a descriptor. */
  datatype Peer = Peer(bytes: seq<byte>, answers: nat -> Answer)

  /** A node without its identity. */
  datatype Sock = Listening(capabilities: capset) | Connected(capabilities: capset, state: State)

  datatype Call = Call(fd: nat, action: Action)

  /** The sockets there are, the descriptors the kernel has open, and the calls made so far. */
  datatype Sockets = Sockets(at: map<nat, Sock>, open: set<nat>, calls: seq<Call>)

  /** A descriptor that can be used, and that is not open yet, becomes that socket. */
  ghost function Opening(v: Sockets, answer: Answer, sock: Sock): Sockets {
    if answer.Descriptor? && answer.usable && answer.fd < FD_SETSIZE && answer.fd !in v.open then
      v.(at := v.at[answer.fd := sock], open := v.open + {answer.fd})
    else v
  }

  /** One call of the connection at `fd`. */
  ghost function Calling(v: Sockets, fd: nat, a: Action, answer: Answer): Sockets {
    var w := v.(calls := v.calls + [Call(fd, a)]);
    if a.CreateEndpoint? then Opening(w, answer, Listening(a.capabilities)) else w
  }

  /** Its calls, one after the other; the answers are counted from `first`. */
  ghost function CallingAll(v: Sockets, fd: nat, actions: seq<Action>, answers: nat -> Answer, first: nat): Sockets {
    if actions == [] then v
    else
      var n := |actions| - 1;
      Calling(CallingAll(v, fd, actions[..n], answers, first), fd, actions[n], answers(first + n))
  }

  /** One ready socket: an endpoint accepts; a connection that gives nothing is closed; any other
      makes the calls of its bytes. */
  ghost function Serving(host: Host, v: Sockets, fd: nat, peer: Peer): Sockets
    requires fd in v.at
  {
    match v.at[fd]
    case Listening(capabilities) => Opening(v, peer.answers(0), Connected(capabilities, Command))
    case Connected(capabilities, state) =>
      if peer.bytes == [] then v.(at := v.at - {fd}, open := v.open - {fd})
      else
        var f := FeedBytes(host, capabilities, state, peer.bytes);
        CallingAll(v.(at := v.at[fd := Connected(capabilities, f.state)]), fd, f.actions, peer.answers, 0)
  }

  /** The ready sockets below `limit`, in ascending order. */
  ghost function ServingAll(host: Host, v: Sockets, ready: set<nat>, peers: nat -> Peer, limit: nat): Sockets {
    if limit == 0 then v
    else
      var w := ServingAll(host, v, ready, peers, limit - 1);
      if limit - 1 in ready && limit - 1 in w.at then Serving(host, w, limit - 1, peers(limit - 1)) else w
  }

  /** The calls of the ready connections below `limit`. */
  ghost function CallsAt(host: Host, v: Sockets, ready: set<nat>, peers: nat -> Peer, limit: nat): seq<Call> {
    if limit == 0 then []
    else
      var f := limit - 1;
      CallsAt(host, v, ready, peers, f) +
      (if f in ready && f in v.at && v.at[f].Connected? then
         Tagged(f, FeedBytes(host, v.at[f].capabilities, v.at[f].state, peers(f).bytes).actions)
       else [])
  }

  ghost function Tagged(fd: nat, actions: seq<Action>): (r: seq<Call>)
    ensures |r| == |actions|
  {
    seq(|actions|, i requires 0 <= i < |actions| => Call(fd, actions[i]))
  }

  /** Read socket by socket: none disturbs another. Whoever is ready is served in the state it had
      when the round began, and everyone else is left alone. */
  lemma {:induction false} EachServed(host: Host, v: Sockets, ready: set<nat>, peers: nat -> Peer, limit: nat)
    requires ready <= v.at.Keys <= v.open
    ensures var w := ServingAll(host, v, ready, peers, limit);
      && w.at.Keys <= w.open && w.calls == v.calls + CallsAt(host, v, ready, peers, limit)
      && (forall f :: f in v.at && (f !in ready || limit <= f || v.at[f].Listening?) ==>
            f in w.at && w.at[f] == v.at[f])
      && (forall f :: f in ready && f < limit && v.at[f].Connected? && peers(f).bytes != [] ==>
            f in w.at && w.at[f] ==
              v.at[f].(state := FeedBytes(host, v.at[f].capabilities, v.at[f].state, peers(f).bytes).state))
  {
    hide FeedBytes, Serving;
    if limit == 0 {
      assert v.calls + [] == v.calls;
    } else {
      var f := limit - 1;
      EachServed(host, v, ready, peers, f);
      var w := ServingAll(host, v, ready, peers, f);
      if f in ready {
        OneServed(host, w, f, peers(f));
      }
    }
  }

  /** One socket that is served. */
  lemma OneServed(host: Host, v: Sockets, fd: nat, peer: Peer)
    requires fd in v.at && v.at.Keys <= v.open
    ensures var w := Serving(host, v, fd, peer);
      && w.at.Keys <= w.open
      && (forall f :: f in v.at && f != fd ==> f in w.at && w.at[f] == v.at[f])
      && (v.at[fd].Listening? ==> fd in w.at && w.at[fd] == v.at[fd] && w.calls == v.calls)
      && (v.at[fd].Connected? ==>
            var f := FeedBytes(host, v.at[fd].capabilities, v.at[fd].state, peer.bytes);
            && w.calls == v.calls + Tagged(fd, f.actions)
            && (peer.bytes != [] ==> fd in w.at && w.at[fd] == v.at[fd].(state := f.state)))
  {
    hide FeedBytes;
    if v.at[fd].Connected? {
      var f := FeedBytes(host, v.at[fd].capabilities, v.at[fd].state, peer.bytes);
      if peer.bytes == [] {
        FeedNothing(host, v.at[fd].capabilities, v.at[fd].state);
      } else {
        CallingEach(v.(at := v.at[fd := v.at[fd].(state := f.state)]), fd, f.actions, peer.answers);
      }
    }
  }

  lemma {:induction false} CallingEach(v: Sockets, fd: nat, actions: seq<Action>, answers: nat -> Answer)
    requires v.at.Keys <= v.open
    ensures var w := CallingAll(v, fd, actions, answers, 0);
      && w.at.Keys <= w.open && w.calls == v.calls + Tagged(fd, actions)
      && forall f :: f in v.at ==> f in w.at && w.at[f] == v.at[f]
    decreases |actions|
  {
    if actions == [] {
      assert v.calls + [] == v.calls;
    } else {
      var n := |actions| - 1;
      CallingEach(v, fd, actions[..n], answers);
      assert Tagged(fd, actions) == Tagged(fd, actions[..n]) + [Call(fd, actions[n])];
    }
  }

  lemma CallingMore(v: Sockets, fd: nat, actions: seq<Action>, k: nat, answers: nat -> Answer, first: nat)
    requires k < |actions|
    ensures CallingAll(v, fd, actions[..k + 1], answers, first)
         == Calling(CallingAll(v, fd, actions[..k], answers, first), fd, actions[k], answers(first + k))
  {
    assert actions[..k + 1][..k] == actions[..k];
  }

  lemma {:induction false} CallingConcat(v: Sockets, fd: nat, a: seq<Action>, b: seq<Action>, answers: nat -> Answer,
                                         first: nat)
    ensures CallingAll(CallingAll(v, fd, a, answers, first), fd, b, answers, first + |a|)
         == CallingAll(v, fd, a + b, answers, first)
    decreases |b|
  {
    hide Calling;
    if b == [] {
      assert a + b == a;
    } else {
      var n := |b| - 1;
      assert (a + b)[..|a| + n] == a + b[..n] && (a + b)[|a| + n] == b[n];
      CallingConcat(v, fd, a, b[..n], answers, first);
    }
  }

  /** What a socket has become and the calls it makes do not depend on each other. */
  lemma {:induction false} CallingBeside(v: Sockets, fd: nat, sock: Sock, actions: seq<Action>, answers: nat -> Answer,
                                         first: nat)
    requires fd in v.at && fd in v.open
    ensures var w := CallingAll(v, fd, actions, answers, first);
      && fd in w.at && fd in w.open && w.at[fd] == v.at[fd]
      && CallingAll(v.(at := v.at[fd := sock]), fd, actions, answers, first) == w.(at := w.at[fd := sock])
    decreases |actions|
  {
    if actions != [] {
      var n := |actions| - 1;
      CallingBeside(v, fd, sock, actions[..n], answers, first);
      var w := CallingAll(v, fd, actions[..n], answers, first);
      CallingOnce(w, fd, sock, actions[n], answers(first + n));
    }
  }

  lemma CallingOnce(w: Sockets, fd: nat, sock: Sock, a: Action, answer: Answer)
    requires fd in w.at && fd in w.open
    ensures var x := Calling(w, fd, a, answer);
      && fd in x.at && fd in x.open && x.at[fd] == w.at[fd]
      && Calling(w.(at := w.at[fd := sock]), fd, a, answer) == x.(at := x.at[fd := sock])
  {
    if a.CreateEndpoint? && answer.Descriptor? && answer.usable && answer.fd < FD_SETSIZE && answer.fd !in w.open {
      var made := Listening(a.capabilities);
      assert w.at[fd := sock][answer.fd := made] == w.at[answer.fd := made][fd := sock];
    }
  }

  /** What one return of `pselect` finds. */
  datatype Selection = Selection(selected: set<nat>, peers: nat -> Peer)

  ghost function Rounds(host: Host, v: Sockets, rounds: seq<Selection>): Sockets {
    if rounds == [] then v
    else
      var n := |rounds| - 1;
      var w := Rounds(host, v, rounds[..n]);
      ServingAll(host, w, rounds[n].selected * w.at.Keys, rounds[n].peers, FD_SETSIZE)
  }

  lemma RoundsMore(host: Host, v: Sockets, rounds: seq<Selection>, k: nat)
    requires k < |rounds|
    ensures var w := Rounds(host, v, rounds[..k]);
      Rounds(host, v, rounds[..k + 1])
        == ServingAll(host, w, rounds[k].selected * w.at.Keys, rounds[k].peers, FD_SETSIZE)
  {
    assert rounds[..k + 1][..k] == rounds[..k];
  }

  /** A connection that is fed more: its new state, and its calls after those it made before. */
  lemma CallingOn(v: Sockets, fd: nat, from: Sock, a: seq<Action>, to: Sock, b: seq<Action>, answers: nat -> Answer)
    requires fd in v.at && fd in v.open
    ensures var w := CallingAll(v.(at := v.at[fd := from]), fd, a, answers, 0);
      CallingAll(w.(at := w.at[fd := to]), fd, b, answers, |a|)
        == CallingAll(v.(at := v.at[fd := to]), fd, a + b, answers, 0)
  {
    hide CallingAll;
    var u := v.(at := v.at[fd := from]);
    CallingBeside(u, fd, to, a, answers, 0);
    assert u.at[fd := to] == v.at[fd := to];
    CallingConcat(v.(at := v.at[fd := to]), fd, a, b, answers, 0);
  }

  class Switch {
    const host: Host
    /** The nodes, by file descriptor: the tree of `socket_switch.c`. */
    var nodes: map<nat, SocketNode>
    var activeset: set<nat>
    var readset: set<nat>
    /** The descriptors the kernel has open for this process. */
    var open: set<nat>
    /** Nodes operated so far, and actions issued so far. */
    ghost var operated: seq<SocketNode>
    var issued: seq<Issued>

    ghost predicate Valid()
      reads this`nodes, this`activeset, this`open, this`issued, Footprint()
    {
      && host.Valid()
      && Indexed() && Separate()
      && (forall fd :: fd in nodes && nodes[fd].parser != null ==> Ready(nodes[fd]))
      && (forall i :: i in issued ==> Accountable(i))
    }

    /** The active set holds exactly the descriptors of the tree, each of them open. */
    ghost predicate Indexed()
      reads this`nodes, this`activeset, this`open
    {
      && activeset == nodes.Keys && nodes.Keys <= open
      && (forall fd :: fd in nodes ==> fd < FD_SETSIZE && nodes[fd].fd == fd && Lineage(nodes[fd]))
    }

    /** No two connections share a parser or a buffer. */
    ghost predicate Separate()
      reads this`nodes
    {
      forall f, g :: f in nodes && g in nodes && f != g && nodes[f].parser != null && nodes[g].parser != null ==>
        nodes[f].parser != nodes[g].parser && nodes[f].parser.buf != nodes[g].parser.buf
    }

    ghost predicate Ready(n: SocketNode)
      requires n.parser != null
      reads n.parser, n.parser.buf
    {
      n.parser.Valid() && n.parser.capabilities == n.capabilities && n.parser.host == host
    }

    ghost function Footprint(): (f: set<object>)
      reads this`nodes
      ensures this !in f
    {
      (set fd | fd in nodes && nodes[fd].parser != null :: nodes[fd].parser as object) +
      (set fd | fd in nodes && nodes[fd].parser != null :: nodes[fd].parser.buf as object)
    }

    /** The switch as a value. */
    ghost function Abstract(): Sockets
      requires Valid()
      reads this`nodes, this`activeset, this`open, this`issued, Footprint()
    {
      Sockets(map fd | fd in nodes :: SockOf(nodes[fd]), open, Told(issued))
    }

    static ghost function Told(issued: seq<Issued>): (r: seq<Call>)
      ensures |r| == |issued|
    {
      seq(|issued|, i requires 0 <= i < |issued| => Call(issued[i].node.fd, issued[i].action))
    }

    /** The kernel hands out a descriptor that is not open, or none. */
    method OpenDescriptor(answer: Answer) returns (fd: nat, failed: bool)
      requires Valid()
      modifies this`open
      ensures Valid() && Abstract() == old(Abstract()).(open := open) && (!failed ==> fd !in nodes)
      ensures failed <==> !(answer.Descriptor? && answer.fd < FD_SETSIZE && answer.fd !in old(open))
      ensures failed ==> open == old(open)
      ensures !failed ==> fd == answer.fd && open == old(open) + {fd}
    {
      hide Lineage, Accountable, Parser.Valid, SockOf;
      match answer
      case NoDescriptor =>
        fd, failed := 0, true;
      case Descriptor(n, _) =>
        fd, failed := n, n >= FD_SETSIZE || n in open;
        if !failed {
          open := open + {n};
        }
    }

    /** `close` of a descriptor that has no node. */
    method Close(fd: nat)
      requires Valid() && fd !in nodes
      modifies this`open
      ensures Valid() && Abstract() == old(Abstract()).(open := open) && open == old(open) - {fd}
    {
      hide Lineage, Accountable, Parser.Valid, SockOf;
      open := open - {fd};
    }

    constructor (host: Host)
      requires host.Valid()
      ensures Valid() && this.host == host && nodes == map[] && issued == [] && operated == []
    {
      this.host := host;
      nodes, activeset, readset, open := map[], {}, {}, {};
      operated, issued := [], [];
    }

    /** `socket_switch_insert` */
    method Insert(node: SocketNode)
      requires Valid() && Index.Legal(nodes, Index.Put(node.fd, node))
      requires node.fd in open && node.fd < FD_SETSIZE && Lineage(node)
      requires node.parser != null ==> Ready(node) && node.parser !in Footprint() && node.parser.buf !in Footprint()
      modifies this`nodes, this`activeset
      ensures Valid() && nodes == Index.After(old(nodes), Index.Put(node.fd, node))
      ensures activeset == old(activeset) + {node.fd}
      ensures Abstract() == old(Abstract()).(at := old(Abstract()).at[node.fd := SockOf(node)])
    {
      hide Lineage, Accountable, Parser.Valid, SockOf;
      activeset := activeset + {node.fd};
      nodes := nodes[node.fd := node];
    }

    /** `socket_switch_remove`; destroying the node closes its descriptor. */
    method Remove(node: SocketNode)
      requires Valid() && node.fd in nodes && nodes[node.fd] == node
      modifies this`nodes, this`activeset, this`open
      ensures Valid() && nodes == Index.After(old(nodes), Index.Drop(node.fd))
      ensures Index.Answers(old(nodes), Index.Drop(node.fd), Some((node.fd, node)), Comparators.ByNumber)
      ensures activeset == old(activeset) - {node.fd} && open == old(open) - {node.fd}
      ensures var v := old(Abstract()); Abstract() == v.(at := v.at - {node.fd}, open := v.open - {node.fd})
    {
      nodes := nodes - {node.fd};
      activeset := activeset - {node.fd};
      open := open - {node.fd};
    }

    /** A node as the answer of the index. */
    static function KeyAndNode(n: SocketNode?): Option<(nat, SocketNode)> {
      if n == null then None else Some((n.fd, n))
    }

    /** `socket_switch_find` */
    function FindNode(fd: nat): (node: SocketNode?)
      requires Indexed()
      reads this`nodes, this`activeset, this`open
      ensures Index.Answers(nodes, Index.Get(fd), KeyAndNode(node), Comparators.ByNumber)
    {
      if fd in nodes then nodes[fd] else null
    }

    /** What `tree_last` gives on this tree: the node with the largest descriptor. */
    method LastNode() returns (last: SocketNode?)
      requires Indexed()
      ensures Index.Answers(nodes, Index.Last, KeyAndNode(last), Comparators.ByNumber)
    {
      last := null;
      var todo := nodes.Keys;
      while todo != {}
        invariant todo <= nodes.Keys
        invariant last == null ==> todo == nodes.Keys
        invariant last != null ==> last.fd in nodes && nodes[last.fd] == last
        invariant last != null ==> forall fd :: fd in nodes && fd !in todo ==> fd <= last.fd
        decreases todo
      {
        var fd :| fd in todo;
        todo := todo - {fd};
        if last == null || last.fd < fd { last := nodes[fd]; }
      }
    }

    /** `socket_switch_prepare`: the largest descriptor plus one, or zero. */
    method Prepare() returns (nfds: nat)
      requires Valid()
      modifies this`readset
      ensures Valid() && readset == activeset
      ensures forall fd :: fd in readset ==> fd < nfds
      ensures nfds > 0 ==> nfds - 1 in readset
    {
      readset := activeset;
      var last := LastNode();
      nfds := if last != null then last.fd + 1 else 0;
    }

    /** `socket_endpoint_node_operate`: a connection with the capabilities of its endpoint. */
    method OperateEndpoint(endpoint: SocketNode, answer: Answer) returns (ghost made: SocketNode?)
      requires Valid() && Lineage(endpoint)
      modifies this`nodes, this`activeset, this`open
      ensures Valid()
      ensures Abstract() == Opening(old(Abstract()), answer, Connected(endpoint.capabilities, Command))
      ensures made != null <==> answer.Descriptor? && answer.usable && answer.fd < FD_SETSIZE && answer.fd !in old(open)
      ensures made == null ==> nodes == old(nodes) && open == old(open)
      ensures made != null ==>
        && fresh(made) && made.fd == answer.fd && made.creator == endpoint
        && made.parser != null && fresh(made.parser) && fresh(made.parser.buf)
        && made.capabilities == endpoint.capabilities
        && nodes == old(nodes)[made.fd := made] && open == old(open) + {made.fd}
    {
      hide Valid, Lineage, Abstract;
      OpenedNodes();
      made := null;
      var fd, failed := OpenDescriptor(answer); // accept
      if failed {
        return;
      }
      if !answer.usable { // fcntl, malloc
        Close(fd);
        assert open == old(open);
        return;
      }
      made := Admit(endpoint, fd);
    }

    /** The connection of an accepted descriptor. */
    method Admit(endpoint: SocketNode, fd: nat) returns (ghost made: SocketNode)
      requires Valid() && Lineage(endpoint) && fd in open && fd !in nodes && fd < FD_SETSIZE
      modifies this`nodes, this`activeset
      ensures Valid() && fresh(made) && made.fd == fd && made.creator == endpoint
      ensures made.capabilities == endpoint.capabilities
      ensures made.parser != null && fresh(made.parser) && fresh(made.parser.buf)
      ensures nodes == Index.After(old(nodes), Index.Put(fd, made))
      ensures var v := old(Abstract()); Abstract() == v.(at := v.at[fd := Connected(endpoint.capabilities, Command)])
    {
      hide Lineage, Parser.Valid, Abstract;
      var connection := new SocketNode.Connection(fd, host, endpoint);
      Insert(connection);
      made := connection;
    }

    /** `socket_endpoint_node_create` and the insertion that follows it, for a connection. */
    method CreateEndpoint(connection: SocketNode, capabilities: capset, answer: Answer)
      returns (ghost made: SocketNode?)
      requires Valid() && Lineage(connection) && Subset(capabilities, connection.capabilities)
      modifies this`nodes, this`activeset, this`open
      ensures Valid() && Abstract() == Opening(old(Abstract()), answer, Listening(capabilities))
      ensures made != null <==> answer.Descriptor? && answer.usable && answer.fd < FD_SETSIZE && answer.fd !in old(open)
      ensures made == null ==> nodes == old(nodes) && open == old(open)
      ensures made != null ==>
        && fresh(made) && made.fd == answer.fd && made.creator == connection && made.parser == null
        && made.capabilities == capabilities
        && nodes == old(nodes)[made.fd := made] && open == old(open) + {made.fd}
    {
      hide Valid, Lineage, Abstract;
      OpenedNodes();
      made := null;
      var fd, failed := OpenDescriptor(answer); // socket
      if failed {
        return;
      }
      if !answer.usable { // the path, bind, listen
        Close(fd);
        assert open == old(open);
        return;
      }
      made := Establish(connection, capabilities, fd);
    }

    /** The endpoint on a descriptor that listens. */
    method Establish(connection: SocketNode, capabilities: capset, fd: nat) returns (ghost made: SocketNode)
      requires Valid() && Lineage(connection) && Subset(capabilities, connection.capabilities)
      requires fd in open && fd !in nodes && fd < FD_SETSIZE
      modifies this`nodes, this`activeset
      ensures Valid() && fresh(made) && made.fd == fd && made.creator == connection
      ensures made.capabilities == capabilities && made.parser == null
      ensures nodes == Index.After(old(nodes), Index.Put(fd, made))
      ensures var v := old(Abstract()); Abstract() == v.(at := v.at[fd := Listening(capabilities)])
    {
      hide Parser.Valid, Abstract;
      var endpoint := new SocketNode.Endpoint(fd, capabilities, connection);
      assert allocated(Footprint());
      Insert(endpoint);
      made := endpoint;
    }

    /** What one operation of `node` may do to the switch: it takes nothing away but itself, and
        whatever it adds is new, was created by it, and has a descriptor that was not open. */
    twostate predicate Serves(node: SocketNode)
      reads this
    {
      && (forall f :: f in old(nodes) && f != node.fd ==> f in nodes && nodes[f] == old(nodes)[f])
      && (node.fd in nodes ==> nodes[node.fd] == node)
      && (forall f :: f in nodes && f !in old(nodes) ==> nodes[f].creator == node)
      && old(issued) <= issued
      && (forall k :: |old(issued)| <= k < |issued| ==> issued[k].node == node)
    }

    /** The call is made: nothing in the switch changes yet. */
    method Note(connection: SocketNode, a: Action)
      requires Valid() && Lineage(connection) && Permitted(connection.capabilities, a)
      modifies this`issued
      ensures Valid() && issued == old(issued) + [Issued(connection, a)]
      ensures var v := old(Abstract()); Abstract() == v.(calls := v.calls + [Call(connection.fd, a)])
    {
      hide Lineage, Permitted, Parser.Valid, SockOf;
      issued := issued + [Issued(connection, a)];
      assert forall i :: i in issued ==> i in old(issued) || i == Issued(connection, a);
    }

    /** One call of a connection. Only the creation of an endpoint changes the switch. */
    method PerformOne(connection: SocketNode, a: Action, answer: Answer) returns (ghost made: SocketNode?)
      requires Valid() && Lineage(connection) && Permitted(connection.capabilities, a)
      modifies this`nodes, this`activeset, this`open, this`issued
      ensures Valid() && issued == old(issued) + [Issued(connection, a)]
      ensures Abstract() == Calling(old(Abstract()), connection.fd, a, answer)
      ensures made == null ==> nodes == old(nodes) && open == old(open)
      ensures made != null ==>
        && a.CreateEndpoint? && made.capabilities == a.capabilities
        && fresh(made) && made.fd !in old(open) && made.creator == connection && made.parser == null
        && nodes == old(nodes)[made.fd := made] && open == old(open) + {made.fd}
    {
      hide Valid, Lineage, Abstract;
      made := null;
      Note(connection, a);
      if a.CreateEndpoint? {
        made := CreateEndpoint(connection, a.capabilities, answer);
      }
    }

    /** The calls a fed chunk makes, in order. */
    method Perform(connection: SocketNode, actions: seq<Action>, answers: nat -> Answer, first: nat)
      requires Valid() && Lineage(connection) && connection.fd in nodes && nodes[connection.fd] == connection
      requires forall a :: a in actions ==> Permitted(connection.capabilities, a)
      modifies this`nodes, this`activeset, this`open, this`issued
      ensures Valid() && Serves(connection) && connection.fd in nodes && old(open) <= open
      ensures issued == old(issued) + Issues(connection, actions)
      ensures Abstract() == CallingAll(old(Abstract()), connection.fd, actions, answers, first)
      ensures forall f :: f in nodes && f !in old(nodes) ==>
        f !in old(open) && fresh(nodes[f]) && nodes[f].parser == null
    {
      hide Valid, Permitted, Lineage, Abstract, CallingAll, Calling;
      var k := 0;
      CallingNothing(Abstract(), connection.fd, answers, first);
      assert issued + [] == issued;
      while k < |actions|
        invariant 0 <= k <= |actions|
        invariant Valid()
        invariant forall f :: f in old(nodes) ==> f in nodes && nodes[f] == old(nodes)[f]
        invariant old(open) <= open
        invariant issued == old(issued) + Issues(connection, actions[..k])
        invariant Abstract() == CallingAll(old(Abstract()), connection.fd, actions[..k], answers, first)
        invariant forall f :: f in nodes && f !in old(nodes) ==> nodes[f].creator == connection
        invariant forall f :: f in nodes && f !in old(nodes) ==>
          f !in old(open) && fresh(nodes[f]) && nodes[f].parser == null
      {
        OpenedNodes();
        CallingMore(old(Abstract()), connection.fd, actions, k, answers, first);
        ghost var made := PerformOne(connection, actions[k], answers(first + k));
        assert actions[..k + 1] == actions[..k] + [actions[k]];
        assert Issues(connection, actions[..k + 1])
            == Issues(connection, actions[..k]) + [Issued(connection, actions[k])];
        k := k + 1;
      }
      assert actions[..k] == actions;
    }

    lemma OpenedNodes()
      requires Valid()
      ensures nodes.Keys <= open && Abstract().open == open && Abstract().at.Keys == nodes.Keys
    {}

    static ghost function Issues(connection: SocketNode, actions: seq<Action>): (r: seq<Issued>)
      ensures |r| == |actions| && forall k :: 0 <= k < |r| ==> r[k] == Issued(connection, actions[k])
    {
      seq(|actions|, k requires 0 <= k < |actions| => Issued(connection, actions[k]))
    }

    /** `socket_connection_node_operate`: a read that gives nothing, or fails, removes the connection;
        otherwise the bytes are fed to its parser, and each call they make is carried out before the
        next byte is looked at. */
    method OperateConnection(connection: SocketNode, peer: Peer)
      requires Valid() && connection.fd in nodes && nodes[connection.fd] == connection && connection.parser != null
      modifies this`nodes, this`activeset, this`open, this`issued, connection.parser, connection.parser.buf
      ensures Valid() && Serves(connection)
      ensures Abstract() == Serving(host, old(Abstract()), connection.fd, peer)
      ensures peer.bytes == [] ==>
        nodes == old(nodes) - {connection.fd} && open == old(open) - {connection.fd} && issued == old(issued)
      ensures peer.bytes != [] ==>
        var f := FeedBytes(host, connection.capabilities, old(connection.parser.Abstract()), peer.bytes);
        && connection.fd in nodes && connection.parser.Abstract() == f.state
        && issued == old(issued) + Issues(connection, f.actions)
      ensures forall f :: f in nodes && f !in old(nodes) ==>
        f !in old(open) && fresh(nodes[f]) && nodes[f].parser == null
    {
      hide Valid, FeedBytes, Abstract, CallingAll;
      SockAt(connection);
      if peer.bytes == [] { // read
        Remove(connection);
        return;
      }
      FeedConnection(connection, peer.bytes, peer.answers);
    }

    lemma SockAt(connection: SocketNode)
      requires Valid() && connection.fd in nodes && nodes[connection.fd] == connection
      ensures connection.fd in Abstract().at && connection.fd in Abstract().open
      ensures connection.parser != null ==>
        && connection.parser.len <= connection.parser.buf.Length
        && Abstract().at[connection.fd] == Connected(connection.capabilities, connection.parser.Abstract())
      ensures connection.parser == null ==> Abstract().at[connection.fd] == Listening(connection.capabilities)
    {}

    /** `parser_feed` on the parser of a connection, with the calls it makes. */
    method FeedConnection(connection: SocketNode, buffer: seq<byte>, answers: nat -> Answer)
      requires Valid() && connection.fd in nodes && nodes[connection.fd] == connection && connection.parser != null
      modifies this`nodes, this`activeset, this`open, this`issued, connection.parser, connection.parser.buf
      ensures Valid() && Serves(connection) && connection.fd in nodes
      ensures var f := FeedBytes(host, connection.capabilities, old(connection.parser.Abstract()), buffer);
        && connection.parser.Abstract() == f.state && issued == old(issued) + Issues(connection, f.actions)
        && var v := old(Abstract());
           Abstract() == CallingAll(v.(at := v.at[connection.fd := Connected(connection.capabilities, f.state)]),
                                    connection.fd, f.actions, answers, 0)
      ensures forall f :: f in nodes && f !in old(nodes) ==>
        f !in old(open) && fresh(nodes[f]) && nodes[f].parser == null
    {
      hide Valid, FeedBytes, Parser.Progress, Parser.Valid, Permitted, Lineage, Abstract, CallingAll;
      var parser := connection.parser;
      ReadyAt(connection);
      SockAt(connection);
      ghost var from, before, v := parser.Abstract(), parser.actions, Abstract();
      var pos: nat, count: nat, begun: nat := 0, |buffer|, |parser.actions|;
      ghost var fed: nat := 0;
      parser.ChunkBegins(buffer);
      assert issued + [] == issued && parser.actions[|before|..] == [];
      CallingNothing(v, connection.fd, answers, 0);
      assert v.at[connection.fd := v.at[connection.fd]] == v.at;
      while count != 0
        invariant Valid() && connection.fd in nodes && nodes[connection.fd] == connection
        invariant parser.Progress(from, before, buffer, pos, count, fed) && before <= parser.actions
        invariant issued == old(issued) + Issues(connection, parser.actions[|before|..])
        invariant parser.len <= parser.buf.Length && FedSince(v, connection, parser.actions[|before|..], answers)
        invariant old(open) <= open && forall f :: f in old(nodes) ==> f in nodes && nodes[f] == old(nodes)[f]
        invariant forall f :: f in nodes && f !in old(nodes) ==> nodes[f].creator == connection
        invariant forall f :: f in nodes && f !in old(nodes) ==>
          f !in old(open) && fresh(nodes[f]) && nodes[f].parser == null
        decreases count, parser.state != INVALID
      {
        ghost var done := parser.actions;
        pos, count, fed := FeedOnce(connection, buffer, pos, count, begun, answers, v, from, before, fed);
        IssuedMore(connection, old(issued), before, done, parser.actions);
      }
      parser.ChunkEnds(from, before, buffer, pos, fed);
      ReachedCalls(parser, from, before, buffer);
    }

    static lemma CallingNothing(v: Sockets, fd: nat, answers: nat -> Answer, first: nat)
      ensures CallingAll(v, fd, [], answers, first) == v
    {}

    /** Since `v` the connection was fed, and made the calls `actions`. */
    ghost predicate FedSince(v: Sockets, connection: SocketNode, actions: seq<Action>, answers: nat -> Answer)
      requires Valid() && connection.parser != null && connection.parser.len <= connection.parser.buf.Length
      reads this`nodes, this`activeset, this`open, this`issued, Footprint(), connection.parser, connection.parser.buf
    {
      Abstract() == CallingAll(v.(at := v.at[connection.fd := SockOf(connection)]), connection.fd, actions, answers, 0)
    }

    lemma ReadyAt(connection: SocketNode)
      requires Valid() && connection.fd in nodes && nodes[connection.fd] == connection && connection.parser != null
      ensures Ready(connection) && Lineage(connection) && connection.parser.len <= connection.parser.buf.Length
    {}

    lemma ReachedCalls(parser: Parser, from: State, before: seq<Action>, buffer: seq<byte>)
      requires parser.len <= parser.buf.Length && parser.Reached(from, before, buffer) && before <= parser.actions
      ensures var f := FeedBytes(parser.host, parser.capabilities, from, buffer);
        parser.Abstract() == f.state && parser.actions[|before|..] == f.actions
    {}

    static lemma IssuedMore(connection: SocketNode, earlier: seq<Issued>, before: seq<Action>, done: seq<Action>,
                            now: seq<Action>)
      requires before <= done <= now
      ensures earlier + Issues(connection, done[|before|..]) + Issues(connection, now[|done|..])
           == earlier + Issues(connection, now[|before|..])
    {
      assert now[|before|..] == done[|before|..] + now[|done|..];
    }

    /** The loop of `parser_feed`, once around, and the call it made, if any. */
    method FeedOnce(connection: SocketNode, buffer: seq<byte>, pos: nat, count: nat, begun: nat,
                    answers: nat -> Answer, ghost v: Sockets, ghost from: State, ghost before: seq<Action>,
                    ghost fed: nat)
      returns (newPos: nat, newCount: nat, ghost newFed: nat)
      requires Valid() && connection.fd in nodes && nodes[connection.fd] == connection && connection.parser != null
      requires connection.parser.Progress(from, before, buffer, pos, count, fed) && count > 0
      requires before <= connection.parser.actions && begun == |before| && connection.fd in v.at
      requires connection.fd in v.open
      requires connection.parser.len <= connection.parser.buf.Length
      requires FedSince(v, connection, connection.parser.actions[|before|..], answers)
      modifies this`nodes, this`activeset, this`open, this`issued, connection.parser, connection.parser.buf
      ensures Valid() && old(open) <= open
      ensures forall f :: f in old(nodes) ==> f in nodes && nodes[f] == old(nodes)[f]
      ensures forall f :: f in nodes && f !in old(nodes) ==> nodes[f].creator == connection
      ensures forall f :: f in nodes && f !in old(nodes) ==>
        f !in old(open) && fresh(nodes[f]) && nodes[f].parser == null
      ensures connection.parser.Progress(from, before, buffer, newPos, newCount, newFed)
      ensures
        || newCount < count
        || (newCount == count && old(connection.parser.state) != INVALID == connection.parser.state)
      ensures old(connection.parser.actions) <= connection.parser.actions
      ensures connection.parser.len <= connection.parser.buf.Length
      ensures issued == old(issued) + Issues(connection, connection.parser.actions[|old(connection.parser.actions)|..])
      ensures FedSince(v, connection, connection.parser.actions[|before|..], answers)
    {
      hide FeedBytes, Permitted, Lineage, Parser.Reached, Valid, Abstract, CallingAll;
      var parser := connection.parser;
      ReadyAt(connection);
      SockAt(connection);
      var made := |parser.actions|;
      ghost var earlier, a := SockOf(connection), parser.actions[|before|..];
      newPos, newCount, newFed := FeedParser(connection, buffer, pos, count, from, before, fed);
      ghost var b := parser.actions[made..];
      CallingOn(v, connection.fd, earlier, a, SockOf(connection), b, answers);
      assert parser.actions[|before|..] == a + b;
      Perform(connection, parser.actions[made..], answers, made - begun);
    }

    /** The parser on its own. */
    method FeedParser(connection: SocketNode, buffer: seq<byte>, pos: nat, count: nat, ghost from: State,
                      ghost before: seq<Action>, ghost fed: nat)
      returns (newPos: nat, newCount: nat, ghost newFed: nat)
      requires Valid() && connection.fd in nodes && nodes[connection.fd] == connection && connection.parser != null
      requires connection.parser.Progress(from, before, buffer, pos, count, fed) && count > 0
      modifies connection.parser, connection.parser.buf
      ensures Valid() && connection.parser.Progress(from, before, buffer, newPos, newCount, newFed)
      ensures
        || newCount < count
        || (newCount == count && old(connection.parser.state) != INVALID == connection.parser.state)
      ensures old(connection.parser.actions) <= connection.parser.actions
      ensures forall a :: a in connection.parser.actions[|old(connection.parser.actions)|..] ==>
        Permitted(connection.capabilities, a)
      ensures connection.parser.len <= connection.parser.buf.Length
      ensures var v := old(Abstract()); Abstract() == v.(at := v.at[connection.fd := SockOf(connection)])
    {
      hide FeedBytes, Permitted, Lineage, Parser.Reached, Accountable;
      var parser := connection.parser;
      ReadyAt(connection);
      newPos, newCount, newFed := parser.FeedMore(buffer, pos, count, from, before, fed);
    }

    /** `snode->class->operate(snode)` on the node found at a ready descriptor. */
    method OperateAt(fd: nat, peer: Peer) returns (ghost node: SocketNode)
      requires Valid() && fd in nodes
      modifies this, Footprint()
      ensures Valid() && node == old(nodes)[fd] && node.fd == fd && readset == old(readset)
      ensures operated == old(operated) + [node]
      ensures fd in old(Abstract()).at && Abstract() == Serving(host, old(Abstract()), fd, peer)
      ensures fd in nodes ==> nodes[fd] == node
      ensures node.parser == null ==> issued == old(issued) && fd in nodes
      ensures node.parser == null && peer.answers(0).Descriptor? && peer.answers(0).usable ==>
        var f := peer.answers(0).fd;
        f < FD_SETSIZE && f !in old(open) ==> f in nodes && nodes[f].capabilities == node.capabilities
      ensures node.parser != null && peer.bytes == [] ==> fd !in nodes && issued == old(issued)
      ensures node.parser != null && peer.bytes != [] ==>
        var f := FeedBytes(host, node.capabilities, old(node.parser.Abstract()), peer.bytes);
        && fd in nodes && node.parser.Abstract() == f.state && issued == old(issued) + Issues(node, f.actions)
      ensures forall f :: f in old(nodes) && f != fd ==> f in nodes && nodes[f] == old(nodes)[f]
      ensures forall f :: f in nodes && f !in old(nodes) ==>
        f !in old(open) && fresh(nodes[f]) && nodes[f].creator == node
      ensures old(issued) <= issued
      ensures forall k :: |old(issued)| <= k < |issued| ==> issued[k].node == node
      ensures forall o :: o in Footprint() && o !in old(Footprint()) ==> fresh(o)
    {
      hide Valid, Lineage, Footprint, Abstract, Serving, FeedBytes;
      NodeAt(fd);
      var snode := FindNode(fd);
      node := snode;
      SockAt(snode);
      if snode.parser == null {
        OperateEndpointNode(snode, peer.answers(0));
        ServingEndpoint(old(Abstract()), snode, peer);
      } else {
        OperateConnectionNode(snode, peer);
      }
      operated := operated + [node];
    }

    lemma ServingEndpoint(v: Sockets, node: SocketNode, peer: Peer)
      requires node.fd in v.at && v.at[node.fd] == Listening(node.capabilities)
      ensures Serving(host, v, node.fd, peer) == Opening(v, peer.answers(0), Connected(node.capabilities, Command))
    {}

    lemma NodeAt(fd: nat)
      requires Valid() && fd in nodes
      ensures Indexed() && Lineage(nodes[fd]) && nodes[fd].fd == fd && nodes.Keys <= open
      ensures nodes[fd].parser != null ==> nodes[fd].parser in Footprint() && nodes[fd].parser.buf in Footprint()
    {}

    method OperateEndpointNode(node: SocketNode, answer: Answer)
      requires Valid() && node.fd in nodes && nodes[node.fd] == node && node.parser == null
      modifies this`nodes, this`activeset, this`open
      ensures Valid() && Serves(node) && node.fd in nodes
      ensures Abstract() == Opening(old(Abstract()), answer, Connected(node.capabilities, Command))
      ensures answer.Descriptor? && answer.usable && answer.fd < FD_SETSIZE && answer.fd !in old(open) ==>
        answer.fd in nodes && nodes[answer.fd].capabilities == node.capabilities
      ensures forall f :: f in nodes && f !in old(nodes) ==> f !in old(open) && fresh(nodes[f])
      ensures fresh(Footprint() - old(Footprint()))
    {
      hide Abstract, Opening;
      ghost var made := OperateEndpoint(node, answer);
    }

    method OperateConnectionNode(node: SocketNode, peer: Peer)
      requires Valid() && node.fd in nodes && nodes[node.fd] == node && node.parser != null
      modifies this`nodes, this`activeset, this`open, this`issued, node.parser, node.parser.buf
      ensures Valid() && Serves(node)
      ensures Abstract() == Serving(host, old(Abstract()), node.fd, peer)
      ensures peer.bytes == [] ==> node.fd !in nodes && issued == old(issued)
      ensures peer.bytes != [] ==>
        var f := FeedBytes(host, node.capabilities, old(node.parser.Abstract()), peer.bytes);
        && node.fd in nodes && node.parser.Abstract() == f.state && issued == old(issued) + Issues(node, f.actions)
      ensures forall f :: f in nodes && f !in old(nodes) ==> f !in old(open) && fresh(nodes[f])
      ensures fresh(Footprint() - old(Footprint()))
    {
      hide Abstract, Serving, FeedBytes;
      OperateConnection(node, peer);
    }

    /** The nodes at the ready descriptors below `limit`, in ascending order. */
    static ghost function NodesAt(ready: set<nat>, at: map<nat, SocketNode>, limit: nat): seq<SocketNode>
      requires ready <= at.Keys
    {
      if limit == 0 then []
      else NodesAt(ready, at, limit - 1) + (if limit - 1 in ready then [at[limit - 1]] else [])
    }

    /** Of the nodes there were, those are gone, and their descriptors free or taken by new nodes, whose
        descriptor below `limit` was ready and gave nothing to read. */
    static ghost predicate Departed(ready: set<nat>, before: map<nat, SocketNode>, now: map<nat, SocketNode>,
                                    peers: nat -> Peer, limit: nat) {
      forall f :: f in before ==>
        if f in ready && f < limit && before[f].parser != null && peers(f).bytes == [] then
          f in now ==> now[f] !in before.Values
        else f in now && now[f] == before[f]
    }

    /** `socket_switch_operate`, after the kernel left the ready descriptors in the read set and said
        how many there are. Every ready descriptor has a node, the nodes operated are exactly those
        that were there when the set was prepared, each once, and the count reaches zero. */
    method Operate(count: nat, peers: nat -> Peer) returns (left: nat)
      requires Valid() && readset <= nodes.Keys && count == |readset|
      modifies this, Footprint()
      ensures Valid() && left == 0 && readset == old(readset)
      ensures operated == old(operated) + NodesAt(old(readset), old(nodes), FD_SETSIZE)
      ensures Abstract() == ServingAll(host, old(Abstract()), old(readset), peers, FD_SETSIZE)
      ensures Departed(old(readset), old(nodes), nodes, peers, FD_SETSIZE)
      ensures old(issued) <= issued
      ensures forall k :: |old(issued)| <= k < |issued| ==>
        var node := issued[k].node; node.fd in readset && node.fd in old(nodes) && old(nodes)[node.fd] == node
      ensures forall o :: o in Footprint() && o !in old(Footprint()) ==> fresh(o)
    {
      hide Valid, Footprint, Abstract, Serving, NodesAt, ServingAll, Departed;
      BoundedNodes();
      NoneYet(host, Abstract(), readset, nodes, peers);
      left := count;
      var fd := 0;
      ghost var before := nodes;
      ghost var pending := readset;
      assert operated + [] == operated;
      while fd < FD_SETSIZE && left != 0
        invariant Valid() && 0 <= fd <= FD_SETSIZE && readset == old(readset)
        invariant pending == (set f | f in readset && fd <= f) && left == |pending|
        invariant forall f :: f in pending ==> f in nodes && nodes[f] == before[f]
        invariant operated == old(operated) + NodesAt(readset, before, fd)
        invariant Abstract() == ServingAll(host, old(Abstract()), readset, peers, fd)
        invariant Departed(readset, before, nodes, peers, fd)
        invariant old(issued) <= issued
        invariant forall k :: |old(issued)| <= k < |issued| ==>
          var node := issued[k].node; node.fd in readset && node.fd in before && before[node.fd] == node
        invariant forall o :: o in Footprint() && o !in old(Footprint()) ==> fresh(o)
      {
        ghost var rest := set f | f in readset && fd + 1 <= f;
        NextPending(readset, fd, pending, rest);
        NextServed(host, old(Abstract()), readset, before, peers, fd);
        if fd in readset {
          OpenedNodes();
          ghost var earlier := nodes;
          ghost var node := OperateAt(fd, peers(fd));
          DepartedMore(readset, before, earlier, nodes, peers, fd);
          left := left - 1;
        } else {
          NobodyAt(readset, before, nodes, peers, fd);
        }
        pending := rest;
        fd := fd + 1;
      }
      NonePending(readset, fd, pending);
      DepartedNone(readset, before, nodes, peers, fd, FD_SETSIZE);
      NoneReadyAbove(readset, before, fd, FD_SETSIZE);
      NoneServedAbove(host, old(Abstract()), readset, peers, fd, FD_SETSIZE);
    }

    static lemma NextPending(ready: set<nat>, fd: nat, pending: set<nat>, rest: set<nat>)
      requires pending == (set f | f in ready && fd <= f) && rest == (set f | f in ready && fd + 1 <= f)
      ensures fd in ready ==> |pending| == |rest| + 1
      ensures fd !in ready ==> pending == rest
      ensures rest <= pending && fd !in rest && (fd in ready ==> fd in pending)
    {
      if fd in ready {
        assert pending == rest + {fd};
      } else {
        assert pending == rest;
      }
    }

    static lemma NonePending(ready: set<nat>, fd: nat, pending: set<nat>)
      requires pending == (set f | f in ready && fd <= f)
      requires |pending| == 0 || (fd == FD_SETSIZE && forall f :: f in ready ==> f < FD_SETSIZE)
      ensures |pending| == 0 && forall f :: f in ready ==> f < fd
    {
      assert forall f :: f in ready && fd <= f ==> f in pending;
      assert forall f :: f in pending ==> fd <= f && f in ready;
    }

    lemma BoundedNodes()
      requires Valid()
      ensures forall f :: f in nodes ==> f < FD_SETSIZE
    {}

    static lemma {:induction false} NoneReadyAbove(ready: set<nat>, at: map<nat, SocketNode>, low: nat, high: nat)
      requires ready <= at.Keys && low <= high && forall f :: f in ready && low <= f ==> f >= high
      ensures NodesAt(ready, at, low) == NodesAt(ready, at, high)
    {
      if low < high {
        NoneReadyAbove(ready, at, low, high - 1);
      }
    }

    static lemma DepartedMore(ready: set<nat>, before: map<nat, SocketNode>, last: map<nat, SocketNode>,
                              now: map<nat, SocketNode>, peers: nat -> Peer, fd: nat)
      requires fd in ready && fd in before && Departed(ready, before, last, peers, fd)
      requires before[fd].parser != null && peers(fd).bytes == [] ==> fd !in now
      requires !(before[fd].parser != null && peers(fd).bytes == []) ==> fd in now && now[fd] == before[fd]
      requires forall f :: f in last && f != fd ==> f in now && now[f] == last[f]
      requires forall f :: f in now && f !in last ==> now[f] !in before.Values
      ensures Departed(ready, before, now, peers, fd + 1)
    {}

    static lemma NobodyAt(ready: set<nat>, before: map<nat, SocketNode>, now: map<nat, SocketNode>,
                          peers: nat -> Peer, fd: nat)
      requires fd !in ready && Departed(ready, before, now, peers, fd)
      ensures Departed(ready, before, now, peers, fd + 1)
    {}

    static lemma DepartedNone(ready: set<nat>, before: map<nat, SocketNode>, now: map<nat, SocketNode>,
                              peers: nat -> Peer, low: nat, high: nat)
      requires low <= high && forall f :: f in ready ==> f < low
      requires Departed(ready, before, now, peers, low)
      ensures Departed(ready, before, now, peers, high)
    {}

    static lemma NoneYet(host: Host, v: Sockets, ready: set<nat>, at: map<nat, SocketNode>, peers: nat -> Peer)
      requires ready <= at.Keys
      ensures NodesAt(ready, at, 0) == [] && ServingAll(host, v, ready, peers, 0) == v
      ensures Departed(ready, at, at, peers, 0)
    {}

    static lemma NextServed(host: Host, v: Sockets, ready: set<nat>, at: map<nat, SocketNode>, peers: nat -> Peer,
                            fd: nat)
      requires ready <= at.Keys
      ensures NodesAt(ready, at, fd + 1) == NodesAt(ready, at, fd) + (if fd in ready then [at[fd]] else [])
      ensures var w := ServingAll(host, v, ready, peers, fd);
        ServingAll(host, v, ready, peers, fd + 1)
          == if fd in ready && fd in w.at then Serving(host, w, fd, peers(fd)) else w
    {}

    static lemma {:induction false} NoneServedAbove(host: Host, v: Sockets, ready: set<nat>, peers: nat -> Peer,
                                                    low: nat, high: nat)
      requires low <= high && forall f :: f in ready && low <= f ==> f >= high
      ensures ServingAll(host, v, ready, peers, low) == ServingAll(host, v, ready, peers, high)
    {
      if low < high {
        NoneServedAbove(host, v, ready, peers, low, high - 1);
      }
    }

    /** `socket_switch_setup`: the root endpoint, with every capability there is. */
    method Setup(answer: Answer)
      requires Valid() && nodes == map[]
      modifies this`nodes, this`activeset, this`open
      ensures Valid() && issued == old(issued) && Footprint() == {}
      ensures Abstract() == Opening(old(Abstract()), answer, Listening(CAPSET_ALL))
      ensures forall fd :: fd in nodes ==> nodes[fd].creator == null && nodes[fd].capabilities == CAPSET_ALL
    {
      var fd, failed := OpenDescriptor(answer);
      if !failed && !answer.usable {
        Close(fd);
      } else if !failed {
        SubsetReflexive(CAPSET_ALL);
        var root := new SocketNode.Endpoint(fd, CAPSET_ALL, null);
        Insert(root);
      }
    }

    /** `pselect` on the prepared set: the kernel leaves those descriptors in it that are selected. */
    method Select(selected: set<nat>)
      requires Valid()
      modifies this`readset
      ensures Valid() && readset == selected * nodes.Keys && Abstract() == old(Abstract())
    {
      hide Valid, Abstract;
      PreparedNodes();
      assert allocated(Footprint());
      var nfds := Prepare();
      readset := readset * selected;
    }

    /** One round of the loop of `main`: prepare, wait, operate. */
    method Round(selected: set<nat>, peers: nat -> Peer)
      requires Valid()
      modifies this, Footprint()
      ensures Valid() && old(issued) <= issued
      ensures var ready := selected * old(nodes).Keys;
        && operated == old(operated) + NodesAt(ready, old(nodes), FD_SETSIZE)
        && Abstract() == ServingAll(host, old(Abstract()), ready, peers, FD_SETSIZE)
      ensures forall o :: o in Footprint() && o !in old(Footprint()) ==> fresh(o)
    {
      hide Valid, Footprint, Abstract, ServingAll, NodesAt;
      Select(selected);
      assert allocated(Footprint());
      ghost var left := Operate(|readset|, peers);
    }

    lemma PreparedNodes()
      requires Valid()
      ensures activeset == nodes.Keys
    {}

    /** Any number of rounds, with whatever the peers send: every action ever issued was permitted
        to the connection it came from, and so to every ancestor of that connection. */
    method Serve(rounds: seq<Selection>)
      requires Valid()
      modifies this, Footprint()
      ensures Valid() && old(issued) <= issued
      ensures forall i :: i in issued ==> Accountable(i)
      ensures Abstract() == Rounds(host, old(Abstract()), rounds)
    {
      hide Abstract, ServingAll;
      var k := 0;
      assert rounds[..0] == [];
      while k < |rounds|
        invariant 0 <= k <= |rounds| && Valid() && old(issued) <= issued
        invariant Abstract() == Rounds(host, old(Abstract()), rounds[..k])
        invariant forall o :: o in Footprint() && o !in old(Footprint()) ==> fresh(o)
      {
        RoundsMore(host, old(Abstract()), rounds, k);
        OpenedNodes();
        Round(rounds[k].selected, rounds[k].peers);
        k := k + 1;
      }
      assert rounds[..k] == rounds;
    }
  }

  /** An issued action has its bit in the connection that issued it and in every endpoint above,
      and an endpoint it creates is granted a non-empty subset of what each of them holds. */
  lemma AccountableToAncestors(i: Issued, a: SocketNode)
    requires Accountable(i) && Ancestor(a, i.node)
    ensures Has(a.capabilities, ActionBit(i.action))
    ensures i.action.CreateEndpoint? ==>
      i.action.capabilities != 0 && Subset(i.action.capabilities, a.capabilities)
  {
    AncestorsHold(i.node, a, ActionBit(i.action));
    if i.action.CreateEndpoint? {
      SubsetTransitive(i.action.capabilities, i.node.capabilities, a.capabilities);
    }
  }
}
