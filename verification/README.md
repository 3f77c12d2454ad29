# A model of cyberd

cyberd is a small init process. This project models its AVL tree and the state machines built on
it, and proves what they keep over every run. The layers, from the bottom up:

- **The tree** (`src/cyberd/tree.c`). `AvlShape` holds what the recursive functions compute on
  tree values, `AvlHeap` the pointer-rewriting methods that are proved to compute it on node
  objects, `AvlTheory` and `AvlResults` the theorems, `AvlTree` the class of `src/cyberd/tree.h`,
  and `AvlMaps` the step from a tree to the interface of `Index`, a finite map ordered by keys, in
  whose terms the layers above state what they put into their trees, drop, get and ask for last.
  A node holds an element and its key, the part the comparison reads; `ProgramTrees` has the three
  trees of the program as instances, with daemons and socket nodes as elements.
  `Comparators` shows that the comparison functions of the three trees are such orders.
- **The supervisor**: `Supervisor` (`daemon.c`, `spawns.c` and the kernel), `Reaping` (`main.c`
  outside its loop: reaped children, run commands, teardown), `Listing` and `Configuration`
  (`configuration.c`). Daemons are objects whose state and pid change in place. The kernel is a map
  from unreaped children to the daemons they were forked for, and the set of those that have ended;
  `fork` returns a pid outside the map, `waitid` removes one. The same object is reachable from the
  tree of names and from the tree of pids.
- **The control socket** (`socket_connection_node.c`, `socket_switch.c`,
  `socket_endpoint_node.c`, `src/cyberctl.c`): `MessageAutomaton` is the one-byte-at-a-time
  reference, `ConnectionParser` the parser that is fed chunks, `Messages` the encoder,
  `WrittenFill` the line on which the model departs from the code, `SocketSwitch` the dispatch loop
  and the delegation of capabilities.
- **The loop of `main.c`**: `MainLoop` runs the supervisor and the switch together, hands the
  operations connections ask for to the daemons they name, and ends when a SIGTERM is granted.
- **The configuration text** (`daemon_conf.c`): `Arguments` and `ArgumentParser` for the argument
  tokenizer, `ConfigurationLine` for the line splitter; each has a function on strings and a
  method that rewrites a buffer in place.

## Choices the environment makes

What the program does not decide comes from outside. Inputs of the methods are: which descriptors
`pselect` leaves set; the bytes `read` gives for each of them; the answers of `accept` and `socket`,
no descriptor or one, on which the calls that follow succeed or not; the wake-ups of the run commands
and of the teardown, with the children that ended and the orphans that arrived before each; whether a
configuration file opens and parses and into what; when signals arrive; how many words of an argument
list there is memory for; and the byte order of the machine. What the switch and the loop make of
them is therefore stated as a function of them. Nondeterministic are: whether `fork` succeeds and
which pid it gives, which ended child `waitid` takes first and how it had ended, and what happens
between two calls inside `reap_children`. Allocation may fail where an argument list grows and where
a connection or endpoint is made; elsewhere it succeeds. `NAME_MAX` is 255 and `FD_SETSIZE` 1024.

## Where the code and its promises part

- **Line 122 of `src/cyberd/socket_connection_node.c`** adds the bytes a name takes to the number of
  bytes left, where lines 178, 189 and 200 subtract. `ConnectionParser` reads it as a subtraction.
  `WrittenFill` follows the line as written: a chunk is consumed correctly if and only if no byte of
  it belongs to a name, or it ends the connection without a further name, after the first, that has no
  NUL left in the chunk; every other chunk makes the parser read past its end
  (`WrittenFill.WrittenCorrectIff`). Concrete chunks of each kind are the message that stops a daemon
  "a" (`StopMessageOverreads`), the same followed by a refused name (`RefusedNameOverreads`) and by a
  refused command (`RefusedCommandIsForgiven`).
- **The capability word is converted twice.** `docs/endpoints.md` gives it as big-endian; line 181
  assembles it so, and line 185 applies `ntohl` once more. Whatever word a peer sends, the effect is
  the one asked for if and only if the machine is big-endian, or the name creates nothing anyway, or
  the connection holds the same of the word and of its bytes reversed
  (`Messages.EndpointGrantedIff`). For words within the existing capabilities that leaves the first:
  elsewhere they create nothing (`Messages.EndpointGrantedIffBigEndian`). Two words outside show the
  other outcomes (`Messages.WordsBeyondCapabilities`).
- **A section name of nothing but spaces** (`[ ]`) yields the closing bracket; every other section
  line yields its trimmed name (`ConfigurationLine.SplitSection`).
- **A line with nothing before its comment, or nothing before its `=`**, makes a backward scan leave
  the buffer; every other line is split inside it (`ConfigurationLine.ParseLine`; the shortest lines
  of these kinds are in `ConfigurationLine.ShortestFailures`).
- **Names.** `docs/endpoints.md` bounds them by `0 < N < NAME_MAX`. The parser takes a NUL-terminated
  name if and only if it has at most NAME_MAX bytes and no slash (`Messages.NameTakenIff`), so also
  the empty one and one of NAME_MAX bytes (`Messages.NamesBeyondTheDocument`).
- **Poweroff.** The document lists a name after the command. The parser reads none: what follows is
  read as further commands (`Messages.PoweroffTakesNoName`).
- The shift at line 176 is undefined for command bytes of 32 or more. The model takes any result
  that has at most one bit set, so both usual results (the amount taken modulo 32, or zero) are in.

## Model

| member | source | states |
|---|---|---|
| AvlTheory.InsertKeepsOrder | src/cyberd/tree.c:88-125 | inserting an absent element adds exactly that node object and keeps the search order |
| AvlTheory.InsertKeepsBalance | src/cyberd/tree.c:88-125 | insertion keeps stored heights real and siblings within one, and adds at most one level; if a subtree grew, the taller child is on the side the key comparison points to, which is why comparing keys picks the right rotation |
| AvlTheory.RemoveKeepsOrder | src/cyberd/tree.c:135-203 | removal takes out exactly the node that compares equal, or nothing if there is none, leaves the same other node objects, and keeps the order, also when the successor node is relinked |
| AvlTheory.RemoveKeepsBalance | src/cyberd/tree.c:135-203 | removal keeps stored heights real and siblings within one, and takes away at most one level |
| AvlTheory.RemoveAbsent | src/cyberd/tree.c:135-203 | removing an absent element changes nothing, not even a stored height |
| AvlHeap.RotateNodeRight | src/cyberd/tree.c:33-45 | the pointer rewrite is the right rotation of the tree value, touching two nodes |
| AvlHeap.RotateNodeLeft | src/cyberd/tree.c:47-59 | the pointer rewrite is the left rotation of the tree value, touching two nodes |
| AvlHeap.RotateNodeLeftRight | src/cyberd/tree.c:61-69 | the double rotation through `&node->left` |
| AvlHeap.RotateNodeRightLeft | src/cyberd/tree.c:71-79 | the double rotation through `&node->right` |
| AvlHeap.DoubleLeftHasGrandchild | src/cyberd/tree.c:97-102 | whenever the double rotation is chosen, the grandchild it dereferences exists |
| AvlHeap.DoubleRightHasGrandchild | src/cyberd/tree.c:107-112 | the mirror image |
| AvlHeap.InsertNode | src/cyberd/tree.c:88-125 | the recursive pointer code computes the insertion, never dereferences NULL and never reaches `abort` |
| AvlHeap.RebalanceNode | src/cyberd/tree.c:175-198 | after a removal below it any root is rebalanced in place, and neither of the two asserts can fail |
| AvlHeap.TakeSuccessor | src/cyberd/tree.c:149-155 | the successor loop and the recursive removal return the least node of the right subtree, detached |
| AvlHeap.RemoveNode | src/cyberd/tree.c:135-203 | the recursive pointer code computes the removal; the node returned is detached with height 1 |
| AvlResults.FindMatches | src/cyberd/tree.c:285-299 | the guided descent finds the one matching node, or shows that there is none |
| AvlResults.LastIsGreatest | src/cyberd/tree.c:307-319 | the end of the right spine is above every other node |
| AvlResults.MatchIsUnique | src/cyberd/tree.c:285-299 | two nodes that answer the same search are the same node |
| AvlResults.PreorderVisitsOnce | src/cyberd/tree.c:244-251 | the traversal hands every node to the callback exactly once |
| AvlResults.PreorderIsRootFirst | src/cyberd/tree.c:244-251 | every subtree is visited in one stretch, its root first, then all of its left part, then all of its right part |
| AvlResults.RunAgrees | src/cyberd/tree.c:264-319 | over any run of insert, remove, find and last every answer is that of a finite set of nodes, and the tree stays a valid AVL tree of that set |
| AvlMaps.RunIsMap | src/cyberd/tree.h:43-57 | over any run with insertions only under new keys, every answer is that of a finite map ordered by its keys, and the tree ends as an index of that map; elements may be of any type |
| ProgramTrees.PidTree | src/cyberd/spawns.c:29 | any use of the tree of pids, from empty, answers as a map from pids to daemons |
| ProgramTrees.NameTree | src/cyberd/configuration.c:35 | any use of the tree of names, from empty, answers as a map from names to daemons |
| ProgramTrees.DescriptorTree | src/cyberd/socket_switch.c:19-25 | any use of the tree of descriptors, from empty, answers as a map from descriptors to socket nodes |
| ProgramTrees.PidsAreKeys | src/cyberd/spawns.c:15-19 | although the pid is written, the pids that comparisons read in the tree are those the daemons were recorded under, and every daemon with a process is there under its pid |
| AvlResults.FibonacciBound | src/cyberd/tree.c:88-203 | a valid tree of height h has at least Fib(h + 2) - 1 nodes |
| AvlResults.LogarithmicHeight | src/cyberd/tree.c:88-203 | two to half the height is at most the size plus one |
| AvlResults.InsertGreatest | src/cyberd/tree.c:104-113 | inserting a new greatest element keeps every left subtree on the right spine perfect, and its right sibling as tall or one taller |
| AvlResults.AscendingHeight | src/cyberd/tree.c:88-125 | inserting any n elements in ascending order gives height exactly floor(log2 n) + 1 |
| AvlResults.TestPoolHeight | test/cyberd-tree.c:31-38 | 65536 elements in order give exactly height 17 |
| AvlTree.SortedTree.Insert | src/cyberd/tree.h:43-48 | a fresh node joins, the others stay the same objects, height grows by at most one |
| AvlTree.SortedTree.Remove | src/cyberd/tree.c:264-276 | the element of the matching node, or none; height shrinks by at most one |
| AvlTree.SortedTree.Find | src/cyberd/tree.c:285-299 | the loop finds the match, and calls the comparison as often as `Comparisons` says: at most the height, which is logarithmic in the size |
| AvlTree.ComparisonsBound | src/cyberd/tree.c:285-299 | a search compares at most as often as the tree is high |
| AvlTree.SortedTree.Last | src/cyberd/tree.c:307-319 | the loop returns the greatest element |
| AvlTree.SortedTree.Traverse | src/cyberd/tree.h:32-36 | the elements come in preorder, each once |
| Comparators.SubtractIsKeyOrder | src/cyberd/spawns.c:15-19 | subtraction orders non-negative pids and descriptors as numbers, without overflow, and tells them apart |
| Comparators.StrCmpIsKeyOrder | src/cyberd/configuration.c:24-28 | `strcmp` orders names and tells them apart |
| Comparators.StrCmpIsLexicographic | src/cyberd/configuration.c:24-28 | the name that ends first, or has the lesser byte at the first difference, is the lesser |
| Comparators.ByNumberIsKeyOrder | src/cyberd/socket_node.c:11-15 | the same on natural numbers, which is how pids and descriptors index their trees |
| Supervisor.Init.Record | src/cyberd/spawns.c:35-38 | what is put into the index is a key it does not have, the current pid, with the daemon |
| Supervisor.Init.Retrieve | src/cyberd/spawns.c:45-49 | the answer of the index for the pid, which is dropped from it |
| Supervisor.Init.OneProcessEach | src/cyberd/spawns.c:21-29 | a live daemon is STOPPED exactly when no entry of the index is it, exactly when it has no unreaped child; otherwise its pid is its only entry and its only child |
| Supervisor.Init.Spawn | src/cyberd/daemon.c:163-178 | on success the daemon has a pid no child had, is STARTED and indexed; on failure nothing changes; the pid is written while the daemon is in no index |
| Supervisor.Init.Start | src/cyberd/daemon.c:232-252 | `fork` is called for a stopped daemon and no other, and the index stays in order |
| Supervisor.Init.Stop | src/cyberd/daemon.c:258-276 | only a started daemon gets its finish signal, once, aimed at its own unreaped child; it is STOPPING from then on |
| Supervisor.Init.Reload | src/cyberd/daemon.c:282-299 | only a started daemon gets its reload signal, aimed at its own unreaped child |
| Supervisor.Init.End | src/cyberd/daemon.c:305-323 | exactly a daemon with a process is killed, and it is its own unreaped child |
| Supervisor.Init.Destroy | src/cyberd/daemon.c:214-225 | a freed daemon is in no index, its entry is the only one dropped, and nothing is freed twice |
| Supervisor.Init.SpawnsStop | src/cyberd/spawns.c:64-83 | every indexed daemon ends STOPPING with all start flags clear; each that was STARTED got its finish signal, no process got two, nobody else got any |
| Reaping.ReapedDaemon | src/cyberd/main.c:44-76 | the daemon is stopped, and `fork` is called again exactly when its flag for this ending is set |
| Reaping.ReapNext | src/cyberd/main.c:106-123 | one reaped child leaves the index and the kernel; only the daemon indexed under that pid changes, and may come back under a pid of its own |
| Reaping.ReapAvailable | src/cyberd/main.c:106-123 | the non-waiting loop reaps every child that has ended, those that end meanwhile included, and reports ECHILD exactly if no child is left; a daemon none of whose children was reaped keeps its pid, state and entry; one whose child was reaped is STOPPED unless its flag for the last ending is set; `fork` is called exactly for the reaped children whose daemons' flags ask for it, in order, and each of them was the process its daemon had, or one forked because of the one before; while no indexed daemon wants to start, the index only shrinks |
| Reaping.RestartedHadProcess | src/cyberd/main.c:112-120 | a daemon that had no process when reaping began has no child reaped, and `fork` is not called for it |
| Reaping.ReapAll | src/cyberd/main.c:106-123 | the waiting loop ends only when no child is left, forks nothing, and the index only shrinks |
| Reaping.Teardown | src/cyberd/main.c:213-253 | when `sync` is reached, on either path, nothing was forked since the daemons were asked to stop, every daemon is STOPPED and the index of processes is empty; SIGKILL is sent at most once, only if children are left, and to no daemon's process that had ended at a wake-up before the alarm |
| Reaping.Rc | src/cyberd/main.c:132-169 | `fork` is called once, for a process named rc that is never started again; the wait ends with an empty index in order, and goes on only while that process, started, is all the index holds and had ended at none of the wake-ups |
| Listing.ListingOrderDoesNotMatter | src/cyberd/configuration.c:223-238 | names and configurations after a reload are the same for every order in which the directory is listed |
| Listing.StartedIff | src/cyberd/configuration.c:101-103 | `fork` is called for a name exactly if its file parsed and sets load, or, for a daemon there was, sets reload while it is stopped; for no name twice |
| Configuration.RemoveElement | src/cyberd/configuration.c:43-47 | the answer of the index of names, which is dropped from it |
| Configuration.ConfigurationFind | src/cyberd/configuration.c:63-67 | the answer of the index of names |
| Configuration.LoadDaemon | src/cyberd/configuration.c:85-104 | a new daemon enters the tree of names with its configuration exactly if its file parses, else it is freed and in no tree; it is forked exactly if the load flag is set |
| Configuration.ReloadDaemon | src/cyberd/configuration.c:112-139 | an existing daemon moves to the new tree with the new configuration, or the old one if the file does not parse; a daemon with a process keeps it; it is forked exactly if it was stopped and the new configuration says so |
| Configuration.DestroyAll | src/cyberd/configuration.c:246-247 | each daemon left in the old tree is destroyed exactly once, and only their processes leave the index |
| Configuration.ConfigurationReload | src/cyberd/configuration.c:209-248 | exactly the daemons whose name has no leading dot and whose file opened stay or come, a new one only if its file parsed; a file that parsed gives the configuration, one that did not leaves the old one; every other old daemon is freed; those that stay are the same objects and keep their running process; `fork` is called once for each new daemon whose file sets load and each old stopped one whose file sets reload, in the order of the directory, and for nobody else |
| Configuration.ConfigurationLoad | src/cyberd/configuration.c:170-204 | the names are exactly those without a leading dot whose file opened and parsed, each with that configuration; `fork` is called once for each whose file sets load, and for nobody else |
| MainLoop.Request | src/cyberd/socket_connection_node.c:160-164 | the operation acts on the daemon of that name as it is defined for its state, on no other, and on nothing if there is none |
| MainLoop.Deliver | src/cyberd/socket_connection_node.c:159-167 | each call of a connection does to the daemon whose name has its bytes what its command says for the state it is in: a started one that is to stop gets exactly its finish signal and is STOPPING, one that is to end gets SIGKILL if it has a process, one that is to reload gets its reload signal if it is started, `fork` is called for one that is to start if it is stopped; no other daemon changes, and the calls are carried out in order |
| MainLoop.Interrupt | src/cyberd/main.c:282-290 | SIGHUP gives exactly the reload of the listing, with its forks, freed daemons and kept objects; after SIGCHLD no ended child is left; a daemon with a process keeps it unless its child was reaped, and those whose child had ended are reaped; besides the reload, `fork` is called only for daemons that had a process when the round began, or got one from the reload, and lost it in a way their flags restart them for |
| MainLoop.Program.Serve | src/cyberd/main.c:280-281 | a round serves the ready descriptors as `Operate` says and then carries out, in order, every operation on a daemon it asked for; the first end of the system it asks for is queued unless one is waiting; no process is lost |
| MainLoop.Program.Queue | src/cyberd/socket_connection_node.c:62-69 | a request that waits is kept; otherwise the first call for an end of the system is queued, and nothing exactly if there is none |
| MainLoop.Program.Terminate | src/cyberd/signals.c:16-45 | a SIGTERM ends the loop exactly if it came from outside or was queued for poweroff, halt or reboot; a queued one waits no longer |
| MainLoop.Program.Step | src/cyberd/main.c:273-293 | a round with ready descriptors has the effect of `Serve`; one that signals interrupted reloads exactly on SIGHUP, leaves no ended child on SIGCHLD and is the last exactly for a SIGTERM that is granted; every round keeps all invariants of both halves |
| MainLoop.Program.Setup | src/cyberd/main.c:181-205 | the first endpoint holds CAPSET_ALL if its descriptor can be had; the run commands, if there are any, are forked before any daemon and waited for; then the daemons of the directory that set load are forked |
| MainLoop.Program.Run | src/cyberd/main.c:267-297 | over every run the sockets, the commands carried out, the configurations, the queued request and the end of the loop are those the events lead to, one by one; a SIGTERM from outside always leads to `sync`, and `sync` is reached only after one or after a connection with the capability for it asked for poweroff, halt or reboot; every operation on a daemon was asked for by a connection with the capability for that operation, in order; every signal for a daemon went to the unreaped child forked for that very daemon, and until the teardown each was sent for one request for that daemon, in order, none for two; at `sync` every daemon is STOPPED, got at most one signal in the teardown, and no process is indexed |
| MessageAutomaton.NameRefused | src/cyberd/socket_connection_node.c:116-118 | fed byte by byte, a block with a slash, or one that does not fit, has no effect but to end the connection |
| MessageAutomaton.FeedIsPermitted | src/cyberd/socket_connection_node.c:71-106 | whatever bytes arrive, every call has its bit in the capabilities of the connection, and an endpoint it asks for gets a non-empty subset of them |
| Capabilities.OneBitOfAll | src/cyberd/capabilities.h:7-19 | a word of at most one bit that meets CAPSET_ALL is one of the nine commands, so the `abort` at line 101 of the parser is unreachable |
| ConnectionParser.Parser.FeedCommand | src/cyberd/socket_connection_node.c:71-106 | the command of a held capability opens its message, any other ends the connection, and the `abort` is dead |
| ConnectionParser.Parser.NameFill | src/cyberd/socket_connection_node.c:108-126 | bytes up to and including the first NUL join the name, position and count together stay constant, and a refusal changes nothing |
| ConnectionParser.Parser.Feed | src/cyberd/socket_connection_node.c:170-204 | a chunk of any size has exactly the effect of its bytes in the automaton, the name never outgrows its buffer, and the loop ends |
| ConnectionParser.Parser.FeedChunks | src/cyberd/socket_connection_node.c:170-222 | any division of a stream into chunks gives the calls and the state of its bytes one at a time |
| WrittenFill.WrittenNeverWrong | src/cyberd/socket_connection_node.c:108-126 | with line 122 as written, the parser either has the effect of the bytes or reads past the chunk |
| WrittenFill.WrittenCorrectIff | src/cyberd/socket_connection_node.c:122 | with line 122 as written, any chunk is consumed correctly if and only if no byte of it belongs to a name, or it ends the connection and no name after its first lacks its NUL; every other chunk is read past its end |
| WrittenFill.ExcessExactly | src/cyberd/socket_connection_node.c:113-122 | once bytes are counted twice, the rest of the chunk is consumed exactly if the connection dies in it before a name is looked for that does not end in it |
| WrittenFill.StopMessageOverreads | src/cyberd/socket_connection_node.c:122 | the shortest message on which it fails |
| WrittenFill.RefusedNameOverreads | src/cyberd/socket_connection_node.c:122 | a chunk that ends the connection and on which it fails all the same |
| WrittenFill.RefusedCommandIsForgiven | src/cyberd/socket_connection_node.c:122 | a chunk with a name on which it does no harm |
| Capabilities.HtonlIsBigEndian | src/cyberctl.c:95 | what `htonl` leaves in memory is big-endian on every machine |
| Capabilities.AppendRoundTrip | src/cyberd/socket_connection_node.c:181 | assembling the big-endian bytes of a word gives the word back |
| Messages.CommandId | src/cyberctl.c:39-59 | the index of the word in the table, or its length exactly if the word is not in it |
| Messages.WordsMatchBits | src/cyberctl.c:41-51 | the word typed for a command and the capability the parser checks belong together |
| Messages.EncodeEndpointCreate | src/cyberctl.c:82-103 | the buffer filled field by field is the encoded message |
| Messages.EncodeDaemon | src/cyberctl.c:105-124 | the buffer filled field by field is the encoded message |
| Messages.Decodes | src/cyberctl.c:82-135 | a permitted message, encoded and fed, has exactly its effect and leaves the parser ready for the next |
| Messages.Replays | src/cyberd/socket_connection_node.c:128-204 | any list of permitted messages is replayed exactly and in order |
| Messages.FeedMessages | src/cyberd/socket_connection_node.c:170-222 | a parser fed any division of the encoded messages into chunks makes exactly their calls, in order, and is ready for the next |
| Messages.RefusedMessageEndsConnection | src/cyberd/socket_connection_node.c:103-105 | after a message outside the capabilities, whatever follows has no effect |
| Messages.NameTakenIff | src/cyberd/socket_connection_node.c:113-118 | a NUL-terminated name is taken if and only if it has at most NAME_MAX bytes and no slash; otherwise the connection ends |
| Messages.NamesBeyondTheDocument | docs/endpoints.md:15 | the empty daemon name and one of NAME_MAX bytes are taken |
| Messages.PoweroffTakesNoName | docs/endpoints.md:28 | what follows the poweroff command is read as further commands |
| Messages.EndpointGrantedIff | src/cyberd/socket_connection_node.c:185 | for every word, the effect is the one asked for if and only if the machine is big-endian, the name creates nothing, or the connection holds the same of the word and of its reversal |
| Messages.EndpointGrantedIffBigEndian | src/cyberd/socket_connection_node.c:185 | for a word within CAPSET_ALL, the requested capabilities, masked by those of the connection, are granted if and only if the machine is big-endian; otherwise nothing is created |
| Messages.WordsBeyondCapabilities | src/cyberd/socket_connection_node.c:185 | on a little-endian machine one word outside CAPSET_ALL is granted as asked, and one that asks for nothing there is creates an endpoint |
| SocketSwitch.LineageBelowAll | src/cyberd/socket_switch.c:38 | every endpoint and connection holds a subset of CAPSET_ALL |
| SocketSwitch.AncestorsHold | src/cyberd/socket_endpoint_node.c:49 | every node holds a subset of what each of its ancestors holds |
| SocketSwitch.AccountableToAncestors | src/cyberd/socket_connection_node.c:136-146 | a call has its bit in every ancestor of its connection, and the endpoint it creates gets a non-empty subset of what each of them holds |
| SocketSwitch.EachServed | src/cyberd/socket_switch.c:122-133 | in a round no socket disturbs another: each ready connection that sent something makes exactly the calls of its bytes from the state it had when the round began and is left in the state after them, in ascending order of descriptors, and everyone who was not ready is left alone |
| SocketSwitch.Switch.Insert | src/cyberd/socket_switch.c:67-71 | the active set and the tree grow by the same descriptor |
| SocketSwitch.Switch.Remove | src/cyberd/socket_switch.c:74-82 | the node removed is the one given, and its descriptor leaves set, tree and kernel |
| SocketSwitch.Switch.LastNode | src/cyberd/socket_switch.c:96 | the entry with the greatest descriptor, or none exactly if there is none |
| SocketSwitch.Switch.FindNode | src/cyberd/socket_switch.c:111-116 | the answer of the index for the descriptor |
| SocketSwitch.Switch.Prepare | src/cyberd/socket_switch.c:89-104 | the read set is the active set; the result is its maximum plus one, or zero if it is empty |
| SocketSwitch.Switch.OperateEndpoint | src/cyberd/socket_endpoint_node.c:29-56 | a new connection, made exactly if a descriptor can be had and used, has exactly the capabilities of its endpoint and a descriptor that was not open |
| SocketSwitch.Switch.OperateConnection | src/cyberd/socket_connection_node.c:206-222 | nothing read, or an error, removes the connection alone; otherwise exactly the calls of the bytes read are issued, in order, each carried out before the next byte is looked at |
| SocketSwitch.Switch.OperateAt | src/cyberd/socket_switch.c:129-130 | an endpoint accepts if a descriptor can be had and used; a connection that gives nothing leaves the index, any other makes exactly the calls of the bytes it sent and its parser is in the state after them; no other node is taken away, and what is added is new, created by this node, under a descriptor that was not open |
| SocketSwitch.Switch.Operate | src/cyberd/socket_switch.c:122-133 | the switch becomes what serving its ready sockets one after the other, in ascending order, makes of it; exactly the nodes present when the set was prepared are operated, each once, and every call comes from one of them; those that gave nothing to read are gone, all others stay; the count reaches zero, although handlers add and remove nodes |
| SocketSwitch.Switch.Setup | src/cyberd/socket_switch.c:28-45 | the only endpoint nobody delegated to holds exactly CAPSET_ALL, and is there exactly if its descriptor can be had and used |
| SocketSwitch.Switch.Serve | src/cyberd/main.c:273-281 | over any number of rounds and whatever the peers send, the switch is what the rounds make of it one after the other, and every call ever issued was permitted to its connection |
| Arguments.QuotingRoundTrip | src/cyberd/daemon_conf.c:233-297 | any rendering of a non-empty list of words, in any mix of bare, single-quoted and double-quoted pieces, with a backslash before any byte between double quotes and with any spacing, reads back as that list |
| Arguments.ReadIffRendered | src/cyberd/daemon_conf.c:233-297 | a value is read as a list of words if and only if it is a rendering of that list, so it fails exactly if it renders none |
| Arguments.EveryWordRenders | src/cyberd/daemon_conf.c:264-284 | every NUL-free word, the empty one included, has a rendering |
| ArgumentParser.ListAppend | src/cyberd/daemon_conf.c:44-74 | the NULL-terminated list gets one string longer at its end, or stays as it was if there is no memory |
| ArgumentParser.DaemonConf.ParseArguments | src/cyberd/daemon_conf.c:211-306 | the list becomes the words of the value; the call fails, leaving the old list, exactly when a quote is open, there is no word, or there are more words than memory for them |
| ArgumentParser.CopyByte | src/cyberd/daemon_conf.c:261 | copying a byte down makes the word one longer and leaves every byte still to be read as it was |
| ArgumentParser.LiteralByte | src/cyberd/daemon_conf.c:245-263 | after a byte of a bare word `arg <= dst <= src == it` again, what is unread is untouched, and the words read so far and those still to come are together the words of the value |
| ArgumentParser.QuotedByte | src/cyberd/daemon_conf.c:264-284 | the same inside quotes and after a backslash; an open quote at the NUL is the failure of the whole value |
| ArgumentParser.ExpandAll | src/cyberd/daemon_conf.c:233-289 | in a buffer that ends with the NUL of the value, the expansion in place gives exactly the words of the functional tokenizer, reports an open quote only when that finds one, and gives up only when the value has an open quote or more words than there is memory for |
| ConfigurationLine.ParseLine | src/cyberd/daemon_conf.c:645-713 | for every line, the trimmed name, or the trimmed key and value, of the grammar of lines; it leaves the buffer exactly if the line has nothing before its comment or nothing before its `=` |
| ConfigurationLine.TrimLine | src/cyberd/daemon_conf.c:648-669 | the comment and the spaces on both sides are gone, unless nothing else was there |
| ConfigurationLine.SplitSection | src/cyberd/daemon_conf.c:671-686 | a section line gives its trimmed name if and only if its brackets do not enclose nothing but spaces |
| ConfigurationLine.ShortestFailures | src/cyberd/daemon_conf.c:661-681 | the shortest lines that are not split as they should be |
| ConfigurationLine.PaddingIsInvisible | src/cyberd/daemon_conf.c:648-669 | spaces around a line and a comment behind it do not change what it says |
| ConfigurationLine.AssociativeReadsBack | src/cyberd/daemon_conf.c:687-712 | a key and a value read back whatever spaces are put around the `=` |
| ConfigurationLine.SectionReadsBack | src/cyberd/daemon_conf.c:671-686 | a section name reads back whatever spaces are put inside the brackets |
| ConfigurationLine.ScalarReadsBack | src/cyberd/daemon_conf.c:687-712 | a line without `=` that is not in brackets reads back whole |

## Left out

- ConnectionParser.Parser.NameFill: reads line 122 as a subtraction; `WrittenFill` states what the line as written does, on values instead of in place.
- ConnectionParser.Parser.Feed: the same reading of line 122.
- ConnectionParser.Parser.FeedChunks: the same reading of line 122.
- Messages.FeedMessages: the same reading of line 122.
- SocketSwitch.Switch.OperateConnection: the same reading of line 122.
- Reaping.ReapAvailable: children end a finite number of times while the loop is at work, so daemons that are restarted and end again forever inside one call are not modelled.
- Reaping.Rc: if the process has ended at none of the wake-ups given, the wait is left going on.
- MainLoop.Program.Run: the events are finitely many; if they are over before a SIGTERM is granted the loop is left running.
- MainLoop.Deliver: the operations on daemons that one round of the switch asks for are carried out after the round, in order; the switch reads nothing they change.
- Supervisor.Init.SpawnsStop: visits the indexed daemons in any order, of which the preorder of `AvlTree.SortedTree.Traverse` is one.
- ConfigurationLine.ParseLine: lines hold no NUL before their end.
- The trees inside `Supervisor`, `Configuration` and `SocketSwitch` are maps with the interface of `Index`; `ProgramTrees` proves that the trees answer as these maps. The pointer structures of the three trees themselves are not fields of those modules.
- Freeing memory: a freed daemon stays an object, marked as freed; freed tree nodes and strings are not tracked.
- Failures of `malloc` and `strdup` in `daemon_create` and `tree_node_create`: the first only logs, the second is asserted away.
- The child side of `fork`, `daemon_child_setup` and `execve`: system calls in a line.
- `src/cyberd/signals.c` but for its SIGTERM handler: masks, the other handlers and the alarm; their effect is a choice of the environment.
- Failures of `opendir` and `readdir`, `pselect` errors other than EINTR, and `waitid` errors other than ECHILD: they only log.
- `socket_switch_teardown` and the cleanup compiled without NDEBUG: they destroy every node once, by the traversal proved above.
- Scalar settings, `daemon_conf_parse` and the section table: one branch each; whether a file parses, and into which flags, is an input.
- Option handling of `src/cyberctl.c`: only the table of words and the layout of messages are modelled.
- `system` messages of `src/cyberctl.c` are one byte and have no buffer to fill; `Messages.Decodes` covers them.
