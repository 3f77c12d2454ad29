/** The loop of `src/cyberd/main.c`, over the supervisor and the socket switch. */
module MainLoop {
  import opened Capabilities
  import opened MessageAutomaton
  import opened SocketSwitch
  import opened Options
  import opened Supervisor
  import opened Listing
  import opened Configuration
  import opened Reaping

  // ---------- The operations connections ask for ----------

  function OperationOf(command: DaemonCommand): Operation {
    match command case Start => START case Stop => STOP case Reload => RELOAD case End => END
  }

  function Text(name: seq<byte>): (text: string)
    ensures Spells(text, name)
  {
    seq(|name|, i requires 0 <= i < |name| => name[i] as char)
  }

  /** The text has the bytes of the name as its characters. */
  ghost predicate Spells(text: string, name: seq<byte>) {
    |text| == |name| && forall i :: 0 <= i < |name| ==> text[i] == name[i] as char
  }

  /** The operations on daemons among the calls of the connections, in order. */
  function Requested(calls: seq<Issued>): seq<(Operation, string)> {
    if calls == [] then []
    else
      var front, last := Requested(calls[..|calls| - 1]), calls[|calls| - 1].action;
      if last.OnDaemon? then front + [(OperationOf(last.command), Text(last.name))] else front
  }

  lemma RequestedMore(calls: seq<Issued>, k: nat)
    requires k < |calls|
    ensures var a := calls[k].action;
      Requested(calls[..k + 1])
        == Requested(calls[..k]) + (if a.OnDaemon? then [(OperationOf(a.command), Text(a.name))] else [])
  {
    assert calls[..k + 1][..k] == calls[..k];
  }

  lemma {:induction false} RequestedConcat(a: seq<Issued>, b: seq<Issued>)
    ensures Requested(a + b) == Requested(a) + Requested(b)
    decreases |b|
  {
    if b == [] {
      assert a + b == a;
    } else {
      assert (a + b)[..|a + b| - 1] == a + b[..|b| - 1];
      RequestedConcat(a, b[..|b| - 1]);
    }
  }

  /** A connection that may power off, halt or reboot the system asked for just that. */
  ghost predicate Shutdown(i: Issued) {
    && Lineage(i.node)
    && match i.action
       case QueueReboot(Poweroff) => Has(i.node.capabilities, SYSTEM_POWEROFF)
       case QueueReboot(Halt) => Has(i.node.capabilities, SYSTEM_HALT)
       case QueueReboot(Reboot) => Has(i.node.capabilities, SYSTEM_REBOOT)
       case _ => false
  }

  /** Who may ask for an operation on a daemon. */
  ghost predicate MayAsk(capabilities: capset, operation: Operation) {
    match operation
    case START => Has(capabilities, DAEMON_START)
    case STOP => Has(capabilities, DAEMON_STOP)
    case RELOAD => Has(capabilities, DAEMON_RELOAD)
    case END => Has(capabilities, DAEMON_END)
  }

  /** A connection that may ask for this operation named the daemon of this name. */
  ghost predicate Asked(calls: seq<Issued>, request: (Operation, string)) {
    exists i :: i in calls && i.action.OnDaemon? && Spells(request.1, i.action.name) && Lineage(i.node)
      && MayAsk(i.node.capabilities, request.0)
  }

  lemma {:induction false} RequestsWereAsked(calls: seq<Issued>)
    requires forall i :: i in calls ==> Accountable(i)
    ensures forall r :: r in Requested(calls) ==> Asked(calls, r)
  {
    if calls != [] {
      var front, last := calls[..|calls| - 1], calls[|calls| - 1];
      assert calls == front + [last] && last in calls && forall i :: i in front ==> i in calls;
      RequestsWereAsked(front);
      forall r | r in Requested(calls) ensures Asked(calls, r) {
        if r in Requested(front) {
          AskedMore(front, calls, r);
        } else {
          assert last.action.OnDaemon? && r == (OperationOf(last.action.command), Text(last.action.name));
        }
      }
    }
  }

  lemma AskedMore(calls: seq<Issued>, more: seq<Issued>, r: (Operation, string))
    requires Asked(calls, r) && forall i :: i in calls ==> i in more
    ensures Asked(more, r)
  {}

  // ---------- What a call does to the daemons ----------

  datatype Sent = Sent(name: string, pid: nat, signo: int)

  /** What the daemons are like, by name, the signals sent so far and for whom, and the names `fork`
      was called for. */
  datatype Moment = Moment(marks: map<string, Mark>, signals: seq<Sent>, forks: seq<string>)

  ghost function Snapshot(init: Init): Moment
    reads init`daemons, init`signals, init`forks, init.daemons.Values
  {
    Moment(map n | n in init.daemons :: MarkOf(init.daemons[n]), SentBy(init.signals), Names(init.forks))
  }

  ghost function MarkOf(d: Daemon): Mark
    reads d
  {
    Mark(d.state, d.pid, d.conf)
  }

  ghost function SentBy(signals: seq<Signal>): (r: seq<Sent>)
    ensures |r| == |signals|
  {
    seq(|signals|, k requires 0 <= k < |signals| => Sent(signals[k].sender.name, signals[k].pid, signals[k].signo))
  }

  /** From `m` to `n` this operation was carried out on the daemon of this name, and nothing happened to
      any other. */
  ghost predicate CarriedOut(operation: Operation, name: string, m: Moment, n: Moment)
    requires name in m.marks
  {
    && name in n.marks && n.marks == m.marks[name := n.marks[name]]
    && Becomes(operation, name, m.marks[name], n.marks[name], m.signals, n.signals, m.forks, n.forks)
  }

  /** What the operation makes of the daemon, and what is sent or forked for it. */
  ghost predicate Becomes(operation: Operation, name: string, was: Mark, now: Mark, sent: seq<Sent>,
                          nowSent: seq<Sent>, forks: seq<string>, nowForks: seq<string>) {
    match operation
    case START =>
      && nowSent == sent
      && if was.state == STOPPED then
           nowForks == forks + [name] && (now == was || (now.state == STARTED && now.conf == was.conf))
         else nowForks == forks && now == was
    case STOP =>
      && nowForks == forks
      && if was.state == STARTED then
           now == was.(state := STOPPING) && nowSent == sent + [Sent(name, was.pid, was.conf.sigfinish)]
         else now == was && nowSent == sent
    case RELOAD =>
      && nowForks == forks && now == was
      && if was.state == STARTED then nowSent == sent + [Sent(name, was.pid, was.conf.sigreload)] else nowSent == sent
    case END =>
      && nowForks == forks && now == was
      && if was.state != STOPPED then nowSent == sent + [Sent(name, was.pid, SIGKILL)] else nowSent == sent
  }

  /** A call of a connection does what its command says to the daemon it names, if there is one, and
      nothing else. */
  ghost predicate Carried(a: Action, m: Moment, n: Moment) {
    match a
    case OnDaemon(Start, name) => forall t :: Spells(t, name) ==> CarriedIf(START, t, m, n)
    case OnDaemon(Stop, name) => forall t :: Spells(t, name) ==> CarriedIf(STOP, t, m, n)
    case OnDaemon(Reload, name) => forall t :: Spells(t, name) ==> CarriedIf(RELOAD, t, m, n)
    case OnDaemon(End, name) => forall t :: Spells(t, name) ==> CarriedIf(END, t, m, n)
    case _ => n == m
  }

  ghost predicate CarriedIf(operation: Operation, name: string, m: Moment, n: Moment) {
    if name in m.marks then CarriedOut(operation, name, m, n) else n == m
  }

  /** The calls were carried out one after the other. */
  ghost predicate Delivered(m: Moment, calls: seq<Call>, n: Moment) {
    if calls == [] then n == m
    else
      var last := |calls| - 1;
      exists mid :: Delivered(m, calls[..last], mid) && Carried(calls[last].action, mid, n)
  }

  lemma DeliveredMore(m: Moment, calls: seq<Call>, k: nat, mid: Moment, n: Moment)
    requires k < |calls| && Delivered(m, calls[..k], mid) && Carried(calls[k].action, mid, n)
    ensures Delivered(m, calls[..k + 1], n)
  {
    assert calls[..k + 1][..k] == calls[..k];
  }

  lemma OneSpelling(a: string, b: string, name: seq<byte>)
    requires Spells(a, name) && Spells(b, name)
    ensures a == b
  {}

  // ---------- What signals are sent for ----------

  /** The signal is what this request makes of its daemon. */
  ghost predicate Because(s: Signal, request: (Operation, string)) {
    && s.sender.name == request.1 && request.0 != START
    && (request.0 == END ==> s.signo == SIGKILL)
  }

  /** Each signal is what one of the requests made, in their order, and no request made two. */
  ghost predicate Explained(requests: seq<(Operation, string)>, signals: seq<Signal>) {
    if requests == [] then signals == []
    else
      var front, last := requests[..|requests| - 1], requests[|requests| - 1];
      || Explained(front, signals)
      || (signals != [] && Because(signals[|signals| - 1], last) && Explained(front, signals[..|signals| - 1]))
  }

  lemma ExplainedMore(requests: seq<(Operation, string)>, request: (Operation, string), signals: seq<Signal>,
                      more: seq<Signal>)
    requires Explained(requests, signals)
    requires
      || more == signals
      || (|more| == |signals| + 1 && more[..|signals|] == signals && Because(more[|signals|], request))
    ensures Explained(requests + [request], more)
  {
    assert (requests + [request])[..|requests|] == requests;
  }

  twostate predicate RequestEffect(init: Init, operation: Operation, d: Daemon)
    reads init`spawns, init`children, init`forks, init`signals, d
  {
    match operation
    case START => init.StartEffect(d) && init.signals == old(init.signals)
    case STOP => init.StopEffect(d) && init.spawns == old(init.spawns) && init.forks == old(init.forks)
    case RELOAD =>
      init.ReloadEffect(d) && unchanged(d) && init.spawns == old(init.spawns) && init.forks == old(init.forks)
    case END => init.EndEffect(d) && unchanged(d) && init.spawns == old(init.spawns) && init.forks == old(init.forks)
  }

  /** The operation on the daemon that was found. */
  method Act(init: Init, operation: Operation, d: Daemon)
    requires init.Valid() && In(d, init.daemons)
    modifies init`spawns, init`children, init`forks, init`signals, d
    ensures init.Indexed(init.alive) && init.AllAimed() && init.ChildrenKept() && d.conf == old(d.conf)
    ensures old(init.signals) <= init.signals && RequestEffect(init, operation, d)
    ensures init.signals == old(init.signals) || (|init.signals| == |old(init.signals)| + 1
      && Because(init.signals[|old(init.signals)|], (operation, d.name)))
    ensures Becomes(operation, d.name, old(MarkOf(d)), MarkOf(d), SentBy(old(init.signals)), SentBy(init.signals),
                    Names(old(init.forks)), Names(init.forks))
  {
    hide Init.Indexed, Init.AllAimed, Holds, SentBy, Names;
    InTree(init);
    IndexedPids(init);
    SentMore(init.signals);
    NamesMore(init.forks);
    match operation
    case START => init.Start(d, init.alive);
    case STOP => init.Stop(d, init.alive);
    case RELOAD => init.Reload(d, init.alive);
    case END => init.End(d, init.alive);
  }

  /** The same, as a change from one moment to the next. */
  method ActOn(init: Init, operation: Operation, d: Daemon)
    requires init.Valid() && In(d, init.daemons)
    modifies init`spawns, init`children, init`forks, init`signals, d
    ensures init.Indexed(init.alive) && init.AllAimed() && init.ChildrenKept() && d.conf == old(d.conf)
    ensures old(init.signals) <= init.signals && RequestEffect(init, operation, d)
    ensures CarriedIf(operation, d.name, old(Snapshot(init)), Snapshot(init))
    ensures init.signals == old(init.signals) || (|init.signals| == |old(init.signals)| + 1
      && Because(init.signals[|old(init.signals)|], (operation, d.name)))
  {
    hide Init.Indexed, Init.AllAimed, Holds, SentBy, Names, Because, Becomes, RequestEffect;
    InTree(init);
    Act(init, operation, d);
    assert Snapshot(init).marks == old(Snapshot(init)).marks[d.name := MarkOf(d)];
  }

  lemma SentMore(signals: seq<Signal>)
    ensures forall s :: SentBy(signals + [s]) == SentBy(signals) + [Sent(s.sender.name, s.pid, s.signo)]
    ensures SentBy(signals + []) == SentBy(signals)
  {
    assert signals + [] == signals;
  }

  lemma NamesMore(ds: seq<Daemon>)
    ensures forall d :: Names(ds + [d]) == Names(ds) + [d.name]
  {}

  lemma InTree(init: Init)
    requires Holds(init.alive, init.daemons, map[])
    ensures forall d :: In(d, init.daemons) ==> d in init.alive
    ensures forall n :: n in init.daemons ==> In(init.daemons[n], init.daemons) && init.daemons[n].name == n
  {}

  lemma MarkedNames(init: Init)
    ensures Snapshot(init).marks.Keys == init.daemons.Keys
  {}

  /** The end of `parser_feed_daemon_name`: `configuration_find`, and the operation on what it finds. */
  method Request(init: Init, operation: Operation, name: string)
    requires init.Valid()
    modifies init`spawns, init`children, init`forks, init`signals, init`requests, init.alive
    ensures init.Valid() && init.ChildrenKept() && old(init.signals) <= init.signals
    ensures init.Confs() == old(init.Confs())
    ensures init.requests == old(init.requests) + [(operation, name)]
    ensures name !in init.daemons ==>
      init.spawns == old(init.spawns) && init.forks == old(init.forks) && init.signals == old(init.signals)
    ensures forall n :: n in init.daemons && n != name ==> unchanged(init.daemons[n])
    ensures name in init.daemons ==> RequestEffect(init, operation, init.daemons[name])
    ensures CarriedIf(operation, name, old(Snapshot(init)), Snapshot(init))
    ensures old(Explained(init.requests, init.signals)) ==> Explained(init.requests, init.signals)
  {
    hide Init.Indexed, Init.AllAimed, Explained, CarriedOut, RequestEffect, Holds, Because, Snapshot;
    ghost var requests, signals := init.requests, init.signals;
    InTree(init);
    MarkedNames(init);
    var d := ConfigurationFind(init, name);
    if d != null {
      ActOn(init, operation, d);
    }
    init.requests := init.requests + [(operation, name)];
    if Explained(requests, signals) {
      ExplainedMore(requests, (operation, name), signals, init.signals);
    }
  }

  /** One call of a connection, as far as the daemons are concerned. */
  method Carry(init: Init, a: Action)
    requires init.Valid()
    modifies init`spawns, init`children, init`forks, init`signals, init`requests, init.alive
    ensures init.Valid() && init.ChildrenKept() && old(init.signals) <= init.signals
    ensures init.Confs() == old(init.Confs())
    ensures init.requests
         == old(init.requests) + (if a.OnDaemon? then [(OperationOf(a.command), Text(a.name))] else [])
    ensures old(Explained(init.requests, init.signals)) ==> Explained(init.requests, init.signals)
    ensures Carried(a, old(Snapshot(init)), Snapshot(init))
  {
    hide Init.Valid, Init.Confs, Explained, Carried, RequestEffect, Snapshot, CarriedIf;
    match a {
      case OnDaemon(command, name) =>
        ghost var before := Snapshot(init);
        Request(init, OperationOf(command), Text(name));
        RequestIsCarried(a, before, Snapshot(init));
      case _ =>
        NothingCarried(a, Snapshot(init));
    }
  }

  lemma NothingCarried(a: Action, m: Moment)
    requires !a.OnDaemon?
    ensures Carried(a, m, m)
  {}

  lemma RequestIsCarried(a: Action, m: Moment, n: Moment)
    requires a.OnDaemon? && CarriedIf(OperationOf(a.command), Text(a.name), m, n)
    ensures Carried(a, m, n)
  {
    hide CarriedIf, Text;
    forall t | Spells(t, a.name) ensures t == Text(a.name) {
      OneSpelling(t, Text(a.name), a.name);
    }
  }

  /** The operations on daemons that a round of the switch asked for, one after the other. */
  method Deliver(init: Init, calls: seq<Issued>)
    requires init.Valid()
    modifies init`spawns, init`children, init`forks, init`signals, init`requests, init.alive
    ensures init.Valid() && init.ChildrenKept() && old(init.signals) <= init.signals
    ensures init.Confs() == old(init.Confs())
    ensures init.requests == old(init.requests) + Requested(calls)
    ensures old(Explained(init.requests, init.signals)) ==> Explained(init.requests, init.signals)
    ensures Delivered(old(Snapshot(init)), Switch.Told(calls), Snapshot(init))
  {
    hide Init.Valid, Init.Confs, RequestEffect, Requested, Explained, Carried, Delivered, Snapshot;
    ghost var told, before := Switch.Told(calls), Snapshot(init);
    NothingDelivered(before);
    assert calls[..0] == [] && told[..0] == [] && init.requests + [] == init.requests;
    var k := 0;
    while k < |calls|
      invariant 0 <= k <= |calls| && init.Valid() && init.ChildrenKept()
      invariant old(init.signals) <= init.signals && init.Confs() == old(init.Confs())
      invariant init.requests == old(init.requests) + Requested(calls[..k])
      invariant old(Explained(init.requests, init.signals)) ==> Explained(init.requests, init.signals)
      invariant Delivered(before, told[..k], Snapshot(init))
    {
      RequestedMore(calls, k);
      ghost var mid := Snapshot(init);
      Carry(init, calls[k].action);
      DeliveredMore(before, told, k, mid, Snapshot(init));
      k := k + 1;
    }
    assert calls[..k] == calls && told[..k] == told;
  }

  lemma NothingDelivered(m: Moment)
    ensures Requested([]) == [] && Delivered(m, [], m)
  {}

  // ---------- Signals ----------

  /** What a round that signals interrupted does. Both may have arrived; SIGHUP is served first.
      `reaped` are the children reaped, `loaded` is what `fork` had been called for before that, and
      `before` the daemons as they were then: those that had a process had it when the round began, or
      were started by the reload. */
  method Interrupt(init: Init, sighup: bool, listing: seq<Entry>, sigchld: bool)
    returns (ghost reaped: seq<Reap>, ghost loaded: seq<Daemon>, ghost before: map<Daemon, Past>)
    requires init.Valid() && Distinct(listing)
    modifies init`daemons, init`spawns, init`children, init`ended, init`forks, init`freed, init`alive, init.alive
    ensures init.Valid() && fresh(init.alive - old(init.alive))
    ensures if sighup then Reloaded(old(init.Confs()), listing, init.Confs())
            else init.daemons == old(init.daemons) && init.Confs() == old(init.Confs())
    ensures forall n :: n in init.daemons ==>
      if n in old(init.daemons) then init.daemons[n] == old(init.daemons)[n] else fresh(init.daemons[n])
    ensures sighup ==> forall d :: d in old(init.alive) ==> (d in init.freed <==> d.name !in OpenedNames(listing))
    ensures Forked(old(init.forks), loaded,
      if sighup then Started(listing, old(init.daemons.Keys), old(StoppedNames(init))) else [], init.daemons)
    ensures init.forks == loaded + Restarted(reaped)
    ensures Explains(before, reaped, Now(init, init.alive))
    ensures forall d :: d in before && before[d].state != STOPPED ==>
      d in old(Running(init.alive)) || d in Since(old(init.forks), loaded)
    ensures forall d :: d in Restarted(reaped) ==> d in old(Running(init.alive)) || d in Since(old(init.forks), loaded)
    ensures if sigchld then init.ended == {} else reaped == []
    ensures forall d :: d in old(init.alive) * init.alive && old(d.state) != STOPPED ==>
      if Ended(reaped, d) then d.state == STOPPED || (d.state == STARTED && EndedForAgain(reaped, d))
      else d.state == old(d.state) && d.pid == old(d.pid)
    ensures sigchld ==>
      forall d :: d in old(init.alive) * init.alive && old(d.state) != STOPPED && old(d.pid) in old(init.ended) ==>
      Ended(reaped, d)
  {
    hide Init.Valid, Init.Confs, Reloaded, OpenedNames, Forked, Started, Restarted, Ended, EndedForAgain;
    hide Explains, Genuine, Since;
    ForkedNothing(init.forks, init.daemons);
    if sighup {
      ConfigurationReload(init, listing);
    }
    loaded := init.forks;
    reaped := [];
    before := Now(init, init.alive);
    ghost var running := Running(init.alive);
    assert running <= old(Running(init.alive)) + Since(old(init.forks), loaded);
    assert forall d :: d in before && before[d].state != STOPPED ==> d in running;
    LogNothing();
    assert init.forks + [] == init.forks;
    ExplainsNothing(before);
    if sigchld {
      reaped := ReapChildren(init);
    }
    ExplainsEach(before, reaped, Now(init, init.alive));
    RestartedHadProcess(before, reaped);
  }

  /** `reap_children(WNOHANG)` between two rounds: names and configurations stay. */
  method ReapChildren(init: Init) returns (ghost log: seq<Reap>)
    requires init.Valid()
    modifies init`spawns, init`children, init`ended, init`forks, init.alive
    ensures init.Valid() && init.Confs() == old(init.Confs()) && init.ended == {}
    ensures Explains(old(Now(init, init.alive)), log, Now(init, init.alive))
    ensures init.forks == old(init.forks) + Restarted(log)
  {
    hide Init.Indexed, Holds, Init.AllAimed, Restarted, Explains;
    ghost var before := Now(init, init.alive);
    HoldsBoth(init.alive, init.daemons, map[]);
    var noChild;
    noChild, log := ReapAvailable(init, init.alive);
    ExplainsEach(before, log, Now(init, init.alive));
  }

  lemma HoldsBoth(alive: set<Daemon>, m: map<string, Daemon>, rest: map<string, Daemon>)
    requires Holds(alive, m, rest)
    ensures m.Values <= alive && rest.Values <= alive
  {}

  /** The record, read daemon by daemon. */
  lemma ExplainsEach(before: map<Daemon, Past>, log: seq<Reap>, now: map<Daemon, Past>)
    requires Explains(before, log, now)
    ensures before.Keys == now.Keys && forall d :: d in now ==> now[d].conf == before[d].conf
    ensures forall d :: d in now ==>
      if Ended(log, d) then now[d].state == STOPPED || (now[d].state == STARTED && EndedForAgain(log, d))
      else now[d].state == before[d].state && now[d].pid == before[d].pid
    ensures forall d :: d in now && before[d].ended && !now[d].ended ==> Ended(log, d)
    ensures Genuine(before, log)
  {}

  // ---------- The loop ----------

  /** Where a SIGTERM came from: from outside, or from the queue a connection put it in. */
  datatype Term = NoTerm | FromOutside | FromQueue

  /** What a round of the loop finds: descriptors that are ready, or signals. Between rounds
      processes whose parents died arrive, and children end. */
  datatype Event =
    | Ready(selected: set<nat>, peers: nat -> Peer)
    | Interrupted(sighup: bool, listing: seq<Entry>, sigchld: bool, sigterm: Term)
    | Orphaned(pids: set<nat>)
    | Died(pids: set<nat>)

  ghost predicate Possible(events: seq<Event>) {
    forall e :: e in events && e.Interrupted? ==> Distinct(e.listing)
  }

  /** A call in `calls` asks for this end of the system. */
  ghost predicate AskedFor(calls: seq<Issued>, howto: SystemCommand) {
    exists i :: i in calls && i.action == QueueReboot(howto)
  }

  lemma AskedForMore(calls: seq<Issued>, more: seq<Issued>)
    requires calls <= more
    ensures forall h :: AskedFor(calls, h) ==> AskedFor(more, h)
    ensures more == calls + more[|calls|..]
    ensures forall h :: AskedFor(more[|calls|..], h) ==> AskedFor(more, h)
  {
    assert more == calls + more[|calls|..];
  }

  /** The first of the calls that asks for an end of the system asks for this one; none does, if
      there is none. */
  ghost predicate FirstAsked(calls: seq<Call>, first: Option<SystemCommand>) {
    match first
    case None => forall k :: 0 <= k < |calls| ==> !calls[k].action.QueueReboot?
    case Some(howto) =>
      exists k :: 0 <= k < |calls| && calls[k].action == QueueReboot(howto)
        && forall j :: 0 <= j < k ==> !calls[j].action.QueueReboot?
  }

  /** What a run goes through: the sockets, the daemons, the children that have ended, the SIGTERM
      that waits, and whether the loop is to end. */
  datatype Control = Control(sockets: Sockets, moment: Moment, ended: set<nat>, pending: Option<SystemCommand>,
                             reboot: bool)

  /** Which SIGTERM ends the loop. */
  ghost predicate Ends(sigterm: Term, pending: Option<SystemCommand>) {
    match sigterm
    case NoTerm => false
    case FromOutside => true
    case FromQueue => pending == Some(Poweroff) || pending == Some(Halt) || pending == Some(Reboot)
  }

  /** What one event makes of that. */
  ghost predicate Turns(host: Host, c: Control, e: Event, d: Control) {
    match e
    case Ready(selected, peers) =>
      && d.sockets == ServingAll(host, c.sockets, selected * c.sockets.at.Keys, peers, FD_SETSIZE)
      && c.sockets.calls <= d.sockets.calls
      && var calls := d.sockets.calls[|c.sockets.calls|..];
      && Delivered(c.moment, calls, d.moment)
      && (if c.pending.Some? then d.pending == c.pending else FirstAsked(calls, d.pending))
      && d.ended == c.ended && d.reboot == c.reboot
    case Interrupted(sighup, listing, sigchld, sigterm) =>
      && d.sockets == c.sockets && d.moment.signals == c.moment.signals
      && (if sighup then Reloaded(ConfsAt(c.moment), listing, ConfsAt(d.moment))
          else ConfsAt(d.moment) == ConfsAt(c.moment))
      && (sigchld ==> d.ended == {})
      && c.moment.forks <= d.moment.forks && Keeps(c, d, sigchld)
      && (!sighup && !sigchld ==> d.moment == c.moment && d.ended == c.ended)
      && d.reboot == (c.reboot || Ends(sigterm, c.pending))
      && d.pending == if sigterm == FromQueue then None else c.pending
    case Orphaned(_) => d == c
    case Died(pids) => d == c.(ended := d.ended) && c.ended <= d.ended <= c.ended + pids
  }

  /** A daemon that had a process keeps it, unless children are reaped; then it may be stopped or have
      another one, as it is sure to if its child had ended. */
  ghost predicate Keeps(c: Control, d: Control, sigchld: bool) {
    forall n :: n in c.moment.marks && n in d.moment.marks && c.moment.marks[n].state != STOPPED ==>
      var was, now := c.moment.marks[n], d.moment.marks[n];
      Kept(was.state, was.pid, now.state, now.pid, sigchld, was.pid in c.ended)
  }

  ghost predicate Kept(was: DaemonState, pid: nat, now: DaemonState, nowPid: nat, sigchld: bool, ended: bool) {
    if sigchld then now == STOPPING ==> now == was && nowPid == pid && !ended
    else now == was && nowPid == pid
  }

  ghost function ConfsAt(m: Moment): map<string, Conf> {
    map n | n in m.marks :: m.marks[n].conf
  }

  /** The events were gone through one after the other, as long as the loop was not to end. */
  ghost predicate Went(host: Host, past: seq<Control>, events: seq<Event>) {
    && |past| == |events| + 1
    && forall k :: 0 <= k < |events| ==> !past[k].reboot && Turns(host, past[k], events[k], past[k + 1])
  }

  lemma WentOn(host: Host, past: seq<Control>, events: seq<Event>, k: nat, c: Control)
    requires k < |events| && Went(host, past, events[..k]) && !past[k].reboot && Turns(host, past[k], events[k], c)
    ensures Went(host, past + [c], events[..k + 1])
  {
    hide Turns;
    assert events[..k + 1] == events[..k] + [events[k]];
  }

  lemma NotGone(host: Host, c: Control)
    ensures Went(host, [c], [])
  {}

  class Program {
    const init: Init
    const switch: Switch
    /** The SIGTERM that is queued and not delivered yet: only one is kept. */
    var pending: Option<SystemCommand>
    var sigreboot: bool
    /** A SIGTERM from outside was delivered. */
    ghost var outside: bool
    /** The signals sent by requests: all there are, until the teardown. */
    ghost var served: seq<Signal>

    ghost predicate Valid()
      reads this, init, init.alive, switch, switch.Footprint()
    {
      && init.Valid() && switch.Valid()
      && init.requests == Requested(switch.issued)
      && served <= init.signals && Explained(init.requests, served)
      && (pending.Some? ==> AskedFor(switch.issued, pending.value))
      && (sigreboot ==> Ordered())
    }

    /** The end of the system was asked for, from outside or by a connection. */
    ghost predicate Ordered()
      reads this`outside, switch`issued
    {
      outside || exists h :: h != Suspend && AskedFor(switch.issued, h)
    }

    ghost function Now(): Control
      requires Valid()
      reads this, init, init.alive, switch, switch.Footprint()
    {
      Control(switch.Abstract(), Snapshot(init), init.ended, pending, sigreboot)
    }

    constructor (host: Host)
      requires host.Valid()
      ensures Valid() && init.daemons == map[] && switch.nodes == map[] && switch.host == host
      ensures fresh(init) && fresh(switch) && init.alive == {} && switch.Footprint() == {}
      ensures !sigreboot && !outside && pending == None && init.signals == served == [] && switch.issued == []
    {
      var i := new Init();
      var s := new Switch(host);
      init, switch := i, s;
      pending, sigreboot, outside, served := None, false, false, [];
      new;
      i.NoneAlive();
    }

    /** The parsers of the switch are not daemons. */
    lemma Apart()
      ensures this !in switch.Footprint() && init !in switch.Footprint() && switch !in switch.Footprint()
      ensures forall d: Daemon :: d !in switch.Footprint()
    {}

    /** The SIGTERM a connection queues with `sigqueue`, unless one is waiting already. */
    static function Queue(pending: Option<SystemCommand>, calls: seq<Issued>): (r: Option<SystemCommand>)
      ensures r == pending || (r.Some? && AskedFor(calls, r.value))
      ensures if pending.Some? then r == pending else FirstAsked(Switch.Told(calls), r)
    {
      if pending.Some? || calls == [] then pending
      else if calls[0].action.QueueReboot? then
        assert Switch.Told(calls)[0].action == QueueReboot(calls[0].action.howto);
        Some(calls[0].action.howto)
      else
        var r := Queue(pending, calls[1..]);
        assert forall i :: i in calls[1..] ==> i in calls;
        LaterAsked(calls, r);
        r
    }

    static lemma LaterAsked(calls: seq<Issued>, r: Option<SystemCommand>)
      requires calls != [] && !calls[0].action.QueueReboot? && FirstAsked(Switch.Told(calls[1..]), r)
      ensures FirstAsked(Switch.Told(calls), r)
    {
      var told, rest := Switch.Told(calls), Switch.Told(calls[1..]);
      assert forall k :: 0 <= k < |rest| ==> told[k + 1] == rest[k];
      if r.Some? {
        var k :| 0 <= k < |rest| && rest[k].action == QueueReboot(r.value)
          && forall j :: 0 <= j < k ==> !rest[j].action.QueueReboot?;
        assert forall j :: 0 < j < k + 1 ==> told[j] == rest[j - 1];
        assert told[k + 1].action == QueueReboot(r.value);
      } else {
        assert forall k :: 0 < k < |told| ==> told[k] == rest[k - 1];
      }
    }

    /** The descriptors that are ready are operated, and the daemons their connections name with
        them. */
    method Serve(selected: set<nat>, peers: nat -> Peer)
      requires Valid() && served == init.signals
      modifies this`pending, this`served, init, init.alive, switch, switch.Footprint()
      ensures served == init.signals
      ensures Valid() && old(switch.issued) <= switch.issued && init.Confs() == old(init.Confs())
      ensures old(init.signals) <= init.signals && init.ChildrenKept() && init.alive == old(init.alive)
      ensures Turns(switch.host, old(Now()), Ready(selected, peers), Now())
      ensures forall o :: o in switch.Footprint() && o !in old(switch.Footprint()) ==> fresh(o)
    {
      hide Init.Valid, Switch.Valid, Requested, AskedFor, Init.Confs, Switch.Footprint, Explained;
      hide Switch.Abstract, Snapshot, ServingAll, Delivered, FirstAsked;
      Apart();
      ghost var before := switch.issued;
      var known := |switch.issued|;
      switch.OpenedNodes();
      ToldMore(switch, before);
      switch.Round(selected, peers);
      assert allocated(switch.Footprint());
      var calls := switch.issued[known..];
      Apart();
      AskedForMore(before, switch.issued);
      RequestedConcat(before, calls);
      ToldMore(switch, before);
      Deliver(init, calls);
      served := init.signals;
      pending := Queue(pending, calls);
    }

    static lemma ToldMore(switch: Switch, before: seq<Issued>)
      requires switch.Valid() && before <= switch.issued
      ensures Switch.Told(before) <= switch.Abstract().calls == Switch.Told(switch.issued)
      ensures switch.Abstract().calls[|before|..] == Switch.Told(switch.issued[|before|..])
    {}

    static predicate Grants(pending: Option<SystemCommand>) {
      pending.Some? && pending.value != Suspend
    }

    /** `sigterm_handler`: a queued request for an end of the system is granted, unless it is for
        suspending; a SIGTERM from elsewhere powers off. */
    method Terminate(sigterm: Term)
      requires Valid()
      modifies this
      ensures Valid() && outside == (old(outside) || sigterm == FromOutside) && served == old(served)
      ensures sigreboot == (old(sigreboot) || Ends(sigterm, old(pending)))
      ensures pending == if sigterm == FromQueue then None else old(pending)
    {
      hide Init.Valid, Switch.Valid, Requested, AskedFor, Switch.Footprint, Explained;
      Apart();
      assert allocated(switch.Footprint());
      match sigterm {
        case NoTerm =>
        case FromOutside =>
          sigreboot, outside := true, true;
        case FromQueue =>
          sigreboot := sigreboot || Grants(pending);
          pending := None;
      }
    }

    /** A round that signals interrupted: what `Interrupt` says of the daemons, and the handler. */
    method Signals(sighup: bool, listing: seq<Entry>, sigchld: bool, sigterm: Term)
      requires Valid() && Distinct(listing)
      modifies this, init, init.alive
      ensures Valid() && init.signals == old(init.signals) && served == old(served)
      ensures fresh(init.alive - old(init.alive))
      ensures outside == (old(outside) || sigterm == FromOutside)
      ensures if sighup then Reloaded(old(init.Confs()), listing, init.Confs())
              else init.daemons == old(init.daemons) && init.Confs() == old(init.Confs())
      ensures sigchld ==> init.ended == {}
      ensures !sighup && !sigchld ==> init.ended == old(init.ended) && Snapshot(init) == old(Snapshot(init))
      ensures old(init.forks) <= init.forks
      ensures forall n :: n in old(init.daemons) && n in init.daemons ==> init.daemons[n] == old(init.daemons)[n]
      ensures forall d :: d in old(init.alive) * init.alive && old(d.state) != STOPPED ==>
        Kept(old(d.state), old(d.pid), d.state, d.pid, sigchld, old(d.pid) in old(init.ended))
      ensures sigreboot == (old(sigreboot) || Ends(sigterm, old(pending)))
      ensures pending == if sigterm == FromQueue then None else old(pending)
    {
      hide Init.Valid, Switch.Valid, Requested, AskedFor, Switch.Footprint, Init.Confs, Reloaded, Explained;
      hide Snapshot;
      Terminate(sigterm);
      Apart();
      assert allocated(switch.Footprint());
      if sighup || sigchld {
        ghost var reaped, loaded, before := Interrupt(init, sighup, listing, sigchld);
      }
    }

    /** The same, seen from the loop. */
    method Interruption(sighup: bool, listing: seq<Entry>, sigchld: bool, sigterm: Term)
      requires Valid() && Distinct(listing)
      modifies this, init, init.alive
      ensures Valid() && init.signals == old(init.signals) && served == old(served)
      ensures fresh(init.alive - old(init.alive))
      ensures outside == (old(outside) || sigterm == FromOutside)
      ensures Turns(switch.host, old(Now()), Interrupted(sighup, listing, sigchld, sigterm), Now())
    {
      hide Init.Valid, Switch.Valid, Requested, AskedFor, Switch.Footprint, Init.Confs, Reloaded, Explained;
      hide Switch.Abstract, SentBy, Names, ConfsAt, Kept, Ends;
      Apart();
      assert allocated(switch.Footprint());
      ConfsNow(init);
      ghost var forks := init.forks;
      Signals(sighup, listing, sigchld, sigterm);
      ConfsNow(init);
      NamesPrefix(forks, init.forks);
    }

    static lemma NamesPrefix(a: seq<Daemon>, b: seq<Daemon>)
      requires a <= b
      ensures Names(a) <= Names(b)
    {}

    static lemma ConfsNow(init: Init)
      requires init.Valid()
      ensures ConfsAt(Snapshot(init)) == init.Confs()
      ensures forall n :: n in init.daemons ==> init.daemons[n] in init.alive
    {}

    /** One event of the environment, or one round of the loop. */
    method Step(event: Event)
      requires Valid() && served == init.signals && (event.Interrupted? ==> Distinct(event.listing))
      modifies this, init, init.alive, switch, switch.Footprint()
      ensures Valid() && served == init.signals && old(init.signals) <= init.signals
      ensures old(switch.issued) <= switch.issued
      ensures outside == (old(outside) || (event.Interrupted? && event.sigterm == FromOutside))
      ensures Turns(switch.host, old(Now()), event, Now())
      ensures old(sigreboot) ==> sigreboot
      ensures event.Interrupted? && event.sigterm == FromOutside ==> sigreboot
      ensures event.Interrupted? && event.sighup ==> Reloaded(old(init.Confs()), event.listing, init.Confs())
      ensures event.Interrupted? && event.sigchld ==> init.ended == {}
      ensures event.Orphaned? ==>
        forall p :: p in event.pids && p !in old(init.children) ==> p in init.children && init.children[p] == null
      ensures event.Died? ==> init.ended == old(init.ended) + event.pids * init.children.Keys
      ensures fresh(init.alive - old(init.alive))
      ensures forall o :: o in switch.Footprint() && o !in old(switch.Footprint()) ==> fresh(o)
    {
      hide Init.Valid, Switch.Valid, Requested, AskedFor, Switch.Footprint, Init.Confs, Reloaded, Explained;
      hide Snapshot, Switch.Abstract, ServingAll, Delivered, FirstAsked, ConfsAt;
      Apart();
      assert allocated(switch.Footprint());
      ConfsNow(init);
      match event {
        case Ready(selected, peers) => Serve(selected, peers);
        case Interrupted(sighup, listing, sigchld, sigterm) => Interruption(sighup, listing, sigchld, sigterm);
        case Orphaned(pids) => Arrive(pids);
        case Died(pids) => Die(pids);
      }
      ConfsNow(init);
    }

    method Arrive(pids: set<nat>)
      requires Valid()
      modifies init`children
      ensures Valid() && Now() == old(Now())
      ensures forall p :: p in old(init.children) ==> p in init.children && init.children[p] == old(init.children)[p]
      ensures forall p :: p in pids && p !in old(init.children) ==> p in init.children && init.children[p] == null
    {
      hide Switch.Valid, Requested, AskedFor, Switch.Footprint, Holds, Init.AllAimed, Explained, Switch.Abstract;
      Apart();
      assert allocated(switch.Footprint());
      init.Adopt(pids);
    }

    method Die(pids: set<nat>)
      requires Valid()
      modifies init`ended
      ensures Valid() && Now() == old(Now()).(ended := init.ended)
      ensures init.ended == old(init.ended) + pids * init.children.Keys
    {
      hide Switch.Valid, Requested, AskedFor, Switch.Footprint, Holds, Init.AllAimed, Explained, Switch.Abstract;
      Apart();
      assert allocated(switch.Footprint());
      init.ChildrenEnd(pids);
    }

    /** `setup`: the first endpoint, the run commands if there are any, and the configuration. `rc` are
        the wake-ups while the run commands are waited for. */
    method Setup(root: Answer, rc: Option<seq<Wakeup>>, initial: seq<Entry>) returns (finished: bool)
      requires Valid() && init.daemons == map[] && switch.nodes == map[] && switch.Footprint() == {}
      requires Distinct(initial)
      modifies init, switch
      ensures switch.Valid() && switch.issued == old(switch.issued)
      ensures switch.Abstract() == Opening(old(switch.Abstract()), root, Listening(CAPSET_ALL))
      ensures init.signals == old(init.signals) && init.requests == old(init.requests)
      ensures sigreboot == old(sigreboot) && outside == old(outside) && served == old(served)
      ensures pending == old(pending)
      ensures finished ==>
        Valid() && fresh(init.alive) && Reloaded(map[], initial, init.Confs()) && switch.Footprint() == {}
      ensures rc.None? ==> finished && Forked(old(init.forks), init.forks, Started(initial, {}, {}), init.daemons)
      ensures rc.Some? ==> var n := |old(init.forks)|;
        && |init.forks| > n && init.forks[n].name == "rc"
        && (finished ==> Forked(init.forks[..n + 1], init.forks, Started(initial, {}, {}), init.daemons))
      ensures !finished ==> rc.Some? && Waits(init, rc.value)
    {
      hide Init.Valid, Switch.Valid, Requested, AskedFor, Init.Confs, Reloaded, Explained, Switch.Abstract, Opening;
      hide Started, Forked;
      init.NoneAlive();
      finished := true;
      switch.Setup(root);
      ghost var forks := init.forks;
      if rc.Some? {
        ghost var process;
        finished, process := Rc(init, rc.value);
        forks := init.forks;
        assert forks[|old(init.forks)|] == process;
        assert !finished ==> process.pid in init.spawns;
      }
      if finished {
        ConfigurationLoad(init, initial);
        ForkedPrefix(forks, init.forks, Started(initial, {}, {}), init.daemons);
        assert init.forks[..|forks|] == forks;
      }
    }

    /** The run commands are still in the index, and had ended at none of the wake-ups. */
    static ghost predicate Waits(init: Init, wakeups: seq<Wakeup>)
      reads init`spawns
    {
      exists p :: p in init.spawns && init.spawns[p].name == "rc" && forall w :: w in wakeups ==> p !in w.ended
    }

    lemma WhetherToEnd()
      requires Valid()
      ensures Now().reboot == sigreboot
    {}

    /** The loop: until it is to end, or the events are over. `past` is what it went through. */
    method Loop(events: seq<Event>) returns (ghost past: seq<Control>)
      requires Valid() && served == init.signals && Possible(events) && !sigreboot && !outside
      modifies this, init, switch, init.alive, switch.Footprint()
      ensures Valid() && served == init.signals && old(init.signals) <= init.signals
      ensures outside ==> Interrupts(events)
      ensures Interrupts(events) ==> sigreboot
      ensures 0 < |past| <= |events| + 1 && past[0] == old(Now()) && past[|past| - 1] == Now()
      ensures Went(switch.host, past, events[..|past| - 1])
      ensures !sigreboot ==> |past| == |events| + 1
      ensures forall d :: d in init.alive ==> d in old(init.alive) || fresh(d)
      ensures forall o :: o in switch.Footprint() && o !in old(switch.Footprint()) ==> fresh(o)
    {
      hide Init.Valid, Switch.Valid, Switch.Footprint, Requested, Reloaded, Possible, Turns, Went, Explained;
      hide Interrupts, Now;
      past := [Now()];
      NoInterrupt();
      WhetherToEnd();
      NotGone(switch.host, Now());
      assert events[..0] == [];
      var i := 0;
      while i < |events| && !sigreboot
        invariant 0 <= i <= |events| && Valid() && old(init.signals) <= init.signals == served
        invariant outside == Interrupts(events[..i]) && (Interrupts(events[..i]) ==> sigreboot)
        invariant |past| == i + 1 && past[0] == old(Now()) && past[i] == Now()
        invariant past[i].reboot == sigreboot
        invariant Went(switch.host, past, events[..i])
        invariant forall d :: d in init.alive ==> d in old(init.alive) || fresh(d)
        invariant forall o :: o in switch.Footprint() && o !in old(switch.Footprint()) ==> fresh(o)
      {
        EventAt(events, i);
        Step(events[i]);
        WentOn(switch.host, past, events, i, Now());
        WhetherToEnd();
        past := past + [Now()];
        i := i + 1;
      }
      InterruptsPrefix(events, i);
    }

    /** `main`, until `sync` is reached (`synced`), or until the events are over and the loop still
        runs, or the run commands still do. `past` is what the loop went through; `alarm` are the
        wake-ups of the teardown before SIGALRM rings. */
    method Run(root: Answer, rc: Option<seq<Wakeup>>, initial: seq<Entry>, events: seq<Event>, alarm: seq<Wakeup>)
      returns (synced: bool, ghost sent: seq<Signal>, ghost past: seq<Control>)
      requires Valid() && init.daemons == map[] && switch.nodes == map[] && switch.Footprint() == {}
      requires served == init.signals && !sigreboot && !outside && pending == None
      requires Distinct(initial) && Possible(events)
      modifies this, init, switch
      ensures init.AllAimed() && old(init.signals) <= init.signals
      ensures forall i :: i in switch.issued ==> Accountable(i)
      ensures init.requests == Requested(switch.issued) && forall r :: r in init.requests ==> Asked(switch.issued, r)
      ensures Explained(init.requests, served) && init.signals == served + sent && OnceEach(sent)
      ensures !synced ==> sent == []
      ensures synced ==> Valid() && forall p :: p !in init.spawns
      ensures synced ==> forall d :: d in init.alive ==> d.state == STOPPED
      ensures synced ==> Interrupts(events) || exists i :: i in switch.issued && Shutdown(i)
      ensures rc.None? ==> Valid()
      ensures past == [] ==> !synced && rc.Some? && Waits(init, rc.value)
      ensures past != [] && Interrupts(events) ==> synced
      ensures past != [] ==>
        && Valid() && Began(past[0], old(switch.Abstract()), root, initial) && |past| <= |events| + 1
        && Went(switch.host, past, events[..|past| - 1])
        && var last := past[|past| - 1];
           && last.sockets == switch.Abstract() && last.reboot == synced
           && (!synced ==> |past| == |events| + 1 && last == Now())
    {
      hide Init.AllAimed, Init.Valid, Switch.Valid, Switch.Footprint, Requested, Reloaded, Possible, Switch.Abstract;
      hide Interrupts, Ordered, Went, Snapshot, ConfsAt, Shutdown, Asked;
      hide Explained, OnceEach;
      synced, sent, past := false, [], [];
      OnceMore([], []);
      BothValid();
      var finished := Setup(root, rc, initial);
      if finished {
        ConfsNow(init);
        past := Loop(events);
        if sigreboot {
          OrderedBy();
          Apart();
          assert allocated(switch.Footprint());
          sent := Teardown(init, alarm);
          synced := true;
        }
        BothValid();
      }
      AllAccountable();
      RequestsWereAsked(switch.issued);
    }

    lemma BothValid()
      requires Valid()
      ensures init.AllAimed() && switch.Valid() && init.requests == Requested(switch.issued)
      ensures Explained(init.requests, served)
    {}

    lemma AllAccountable()
      requires switch.Valid()
      ensures forall i :: i in switch.issued ==> Accountable(i)
    {}

    lemma OrderedBy()
      requires Valid() && sigreboot
      ensures outside || exists i :: i in switch.issued && Shutdown(i)
    {
      AllAccountable();
    }
  }

  /** The loop begins with the first endpoint, if there is one, and the daemons of the directory. */
  ghost predicate Began(c: Control, before: Sockets, root: Answer, initial: seq<Entry>) {
    && c.sockets == Opening(before, root, Listening(CAPSET_ALL))
    && Reloaded(map[], initial, ConfsAt(c.moment)) && c.pending == None && !c.reboot
  }

  /** A SIGTERM from outside is among the events. */
  ghost predicate Interrupts(events: seq<Event>) {
    exists i :: 0 <= i < |events| && events[i].Interrupted? && events[i].sigterm == FromOutside
  }

  lemma NoInterrupt()
    ensures !Interrupts([])
  {}

  lemma EventAt(events: seq<Event>, i: nat)
    requires i < |events| && Possible(events)
    ensures events[i].Interrupted? ==> Distinct(events[i].listing)
    ensures Interrupts(events[..i + 1]) <==>
      Interrupts(events[..i]) || (events[i].Interrupted? && events[i].sigterm == FromOutside)
  {
    var more := events[..i + 1];
    assert events[i] in events && more[i] == events[i];
    assert forall k :: 0 <= k < i ==> more[k] == events[..i][k];
  }

  lemma InterruptsPrefix(events: seq<Event>, i: nat)
    requires i <= |events|
    ensures Interrupts(events[..i]) ==> Interrupts(events)
    ensures i == |events| ==> events[..i] == events
  {
    if k :| 0 <= k < i && events[..i][k].Interrupted? && events[..i][k].sigterm == FromOutside {
      assert events[k] == events[..i][k];
    }
  }
}
