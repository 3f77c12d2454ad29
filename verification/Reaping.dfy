/** Children that end, the run commands and the teardown: `src/cyberd/main.c` outside its loop. */
module Reaping {
  import opened Supervisor

  // ---------- The record of reaped children ----------

  /** A child that was reaped, how it had ended, and the daemon it was recorded for (null for an
      orphan) with the start flags it had then. */
  datatype Reap = Reap(pid: nat, ending: Ending, daemon: Daemon?, start: StartFlags)

  ghost predicate Wants(x: Reap) {
    x.daemon != null && Restarts(x.start, x.ending)
  }

  /** The daemons `fork` is called for because of these reaped children, in order. */
  ghost function Restarted(log: seq<Reap>): seq<Daemon> {
    if log == [] then []
    else Restarted(log[..|log| - 1]) + (if Wants(log[|log| - 1]) then [log[|log| - 1].daemon] else [])
  }

  /** Some child of the daemon was reaped. */
  ghost predicate Ended(log: seq<Reap>, d: Daemon) {
    exists x :: x in log && x.daemon == d
  }

  /** The last child of the daemon ended in a way its flags start it again for. */
  ghost predicate EndedForAgain(log: seq<Reap>, d: Daemon) {
    if log == [] then false
    else if log[|log| - 1].daemon == d then Wants(log[|log| - 1])
    else EndedForAgain(log[..|log| - 1], d)
  }

  lemma LogNothing()
    ensures Restarted([]) == [] && forall d: Daemon :: !Ended([], d)
  {}

  lemma LogMore(log: seq<Reap>, x: Reap)
    ensures Restarted(log + [x]) == Restarted(log) + Restarted([x])
    ensures forall d: Daemon :: Ended(log + [x], d) <==> Ended(log, d) || x.daemon == d
    ensures forall d: Daemon ::
      EndedForAgain(log + [x], d) <==> if x.daemon == d then Wants(x) else EndedForAgain(log, d)
  {
    var more := log + [x];
    assert more[..|more| - 1] == log && more[|more| - 1] == x;
    assert [x][..0] == [] && Restarted([x]) == (if Wants(x) then [x.daemon] else []);
    assert forall y :: y in more <==> y in log || y == x;
  }

  // ---------- reaped_daemon, reap_children ----------

  /** `reaped_daemon`: the daemon is stopped and, if its flags say so for this ending, started
      again. It is in no index and has no process when this is called. */
  method ReapedDaemon(init: Init, d: Daemon, ending: Ending, ghost alive: set<Daemon>)
    requires init.Indexed(alive - {d}) && d in alive && d !in init.freed
    requires forall p :: p in init.children ==> init.children[p] != d
    modifies init`spawns, init`children, init`forks, d
    ensures init.Indexed(alive) && d.conf == old(d.conf)
    ensures init.forks == old(init.forks) + if Restarts(d.conf.start, ending) then [d] else []
    ensures ending == EXITED(0) ==> (init.forks != old(init.forks) <==> d.conf.start.exitsuccess)
    ensures ending.EXITED? && ending.status != 0 ==> (init.forks != old(init.forks) <==> d.conf.start.exitfailure)
    ensures ending.KILLED? ==> (init.forks != old(init.forks) <==> d.conf.start.killed)
    ensures ending.DUMPED? ==> (init.forks != old(init.forks) <==> d.conf.start.dumped)
    ensures (d.state == STOPPED && init.spawns == old(init.spawns) && init.children == old(init.children))
         || (Restarts(d.conf.start, ending) && init.Spawned(d))
  {
    assert forall p :: p in init.spawns ==> init.spawns[p] in alive - {d};
    d.state := STOPPED;
    match ending {
      case EXITED(status) =>
        if status == 0 {
          if d.conf.start.exitsuccess { init.Start(d, alive); }
        } else if d.conf.start.exitfailure {
          init.Start(d, alive);
        }
      case KILLED(_) =>
        if d.conf.start.killed { init.Start(d, alive); }
      case DUMPED =>
        if d.conf.start.dumped { init.Start(d, alive); }
    }
  }

  /** What reaping one child does: an orphan only disappears; a daemon leaves the index, and may
      come back under a new pid if its flags ask for it. No other daemon changes. */
  twostate predicate Reaps(init: Init, pid: nat, ending: Ending, alive: set<Daemon>)
    reads init, alive
  {
    && pid in old(init.children)
    && (forall d :: d in alive ==> d.conf == old(d.conf))
    && (forall d :: d in alive && old(pid in init.spawns ==> init.spawns[pid] != d) ==>
          d.state == old(d.state) && d.pid == old(d.pid))
    && if pid !in old(init.spawns) then
         init.spawns == old(init.spawns) && init.children == old(init.children) - {pid} && init.forks == old(init.forks)
       else
         var d := old(init.spawns)[pid];
         && d in alive && init.forks == old(init.forks) + (if Restarts(old(d.conf.start), ending) then [d] else [])
         && ((&& d.state == STOPPED
              && init.spawns == old(init.spawns) - {pid} && init.children == old(init.children) - {pid})
             || (Restarts(old(d.conf.start), ending) && Replaced(init, d, pid)))
  }

  /** The daemon runs again, under a pid that no child has. */
  twostate predicate Replaced(init: Init, d: Daemon, pid: nat)
    reads init, d
  {
    && d.state == STARTED && d.pid > 0 && d.pid !in old(init.children) - {pid}
    && init.spawns == (old(init.spawns) - {pid})[d.pid := d]
    && init.children == (old(init.children) - {pid})[d.pid := d]
  }

  /** One round of the loop of `reap_children`. */
  method ReapNext(init: Init, blocking: bool, ghost alive: set<Daemon>) returns (r: Waited)
    requires init.Indexed(alive)
    modifies init`spawns, init`children, init`ended, init`forks, alive
    ensures init.Indexed(alive)
    ensures r == NoChild <==> old(init.Childless())
    ensures r == NoneAvailable <==> !blocking && !old(init.Childless()) && old(init.ended) == {}
    ensures init.ended == if r.Reaped? then old(init.ended) - {r.pid} else old(init.ended)
    ensures r.Reaped? && old(init.ended) != {} ==> r.pid in old(init.ended)
    ensures r.Reaped? ==> Reaps(init, r.pid, r.ending, alive)
    ensures !r.Reaped? ==>
      init.spawns == old(init.spawns) && init.children == old(init.children) && init.forks == old(init.forks)
    ensures !r.Reaped? ==> forall d :: d in alive ==> unchanged(d)
  {
    r := init.WaitId(blocking);
    if r.Reaped? {
      var d := init.Retrieve(r.pid);
      if d != null {
        ReapedDaemon(init, d, r.ending, alive);
      }
    }
  }

  /** The same, as the loops see it. `x` is what is to be remembered of the child. */
  method ReapOne(init: Init, blocking: bool, ghost alive: set<Daemon>) returns (r: Waited, ghost x: Reap)
    requires init.Indexed(alive)
    modifies init`spawns, init`children, init`ended, init`forks, alive
    ensures init.Indexed(alive) && forall d :: d in alive ==> d.conf == old(d.conf)
    ensures r == NoChild ==> init.Childless() && init.ended == {}
    ensures r == NoneAvailable ==> !blocking && init.ended == {} && !init.Childless()
    ensures !r.Reaped? ==> x.daemon == null && init.children == old(init.children)
    ensures r.Reaped? ==> init.ended == old(init.ended) - {r.pid} && (blocking || r.pid in old(init.ended))
    ensures r.Reaped? && old(init.Quiet()) ==>
      r.pid in old(init.children) && init.children == old(init.children) - {r.pid}
    ensures x.daemon != null ==> r.Reaped?
    ensures init.forks == old(init.forks) + Restarted([x])
    ensures Follows(old(Now(init, alive)), x, Now(init, alive))
    ensures old(init.Quiet()) ==> init.Quiet() && init.Shrinks(alive) && init.forks == old(init.forks)
  {
    init.IndexedBothWays(alive);
    ghost var before := init.spawns;
    r := ReapNext(init, blocking, alive);
    x := Reap(0, DUMPED, null, NO_START);
    if r.Reaped? {
      x := if r.pid in before then Reap(r.pid, r.ending, before[r.pid], before[r.pid].conf.start)
           else Reap(r.pid, r.ending, null, NO_START);
    }
    RestartedOnce(x);
  }

  lemma RestartedNone(x: Reap)
    requires x.daemon == null
    ensures Restarted([x]) == []
  {
    RestartedOnce(x);
  }

  lemma RestartedOnce(x: Reap)
    ensures Restarted([x]) == if Wants(x) then [x.daemon] else []
  {
    assert [x][..0] == [];
  }

  /** A daemon at some moment: whether it had a process that had ended already is part of it. */
  datatype Past = Past(state: DaemonState, pid: nat, conf: Conf, ended: bool)

  ghost function Now(init: Init, alive: set<Daemon>): (m: map<Daemon, Past>)
    reads init`ended, alive
    ensures m.Keys == alive
  {
    map d | d in alive :: Past(d.state, d.pid, d.conf, d.state != STOPPED && d.pid in init.ended)
  }

  /** What the daemons have gone through while the children of `log` were reaped: a daemon none of
      whose children was reaped is as it was; one whose child was reaped is STOPPED, unless the last
      of its children ended in a way its flags start it again for; those whose child had ended
      before have been reaped, or still will be; and every child in the log is one the daemon had. */
  ghost predicate Explains(before: map<Daemon, Past>, log: seq<Reap>, now: map<Daemon, Past>) {
    && before.Keys == now.Keys
    && (forall d :: d in now ==> now[d].conf == before[d].conf)
    && (forall x :: x in log && x.daemon != null ==> x.daemon in now && x.start == now[x.daemon].conf.start)
    && (forall d :: d in now && !Ended(log, d) ==> now[d].state == before[d].state && now[d].pid == before[d].pid)
    && (forall d :: d in now && Ended(log, d) ==>
          now[d].state == STOPPED || (now[d].state == STARTED && EndedForAgain(log, d)))
    && (forall d :: d in now && before[d].ended ==> Ended(log, d) || now[d].ended)
    && Genuine(before, log)
  }

  /** The first child of a daemon in the log is the process it had, and each further one was forked
      because of the one before it. */
  ghost predicate Genuine(before: map<Daemon, Past>, log: seq<Reap>) {
    log != [] ==>
      var front, x := log[..|log| - 1], log[|log| - 1];
      && Genuine(before, front)
      && (x.daemon != null ==>
        && x.daemon in before
        && if Ended(front, x.daemon) then EndedForAgain(front, x.daemon)
           else before[x.daemon].state != STOPPED && x.pid == before[x.daemon].pid)
  }

  lemma ExplainsNothing(now: map<Daemon, Past>)
    ensures Explains(now, [], now)
  {}

  /** So `fork` is called for no daemon that did not have a process to begin with. */
  lemma {:induction false} RestartedHadProcess(before: map<Daemon, Past>, log: seq<Reap>)
    requires Genuine(before, log)
    ensures forall d :: d in before && Ended(log, d) ==> before[d].state != STOPPED
    ensures forall d :: d in Restarted(log) ==> d in before && before[d].state != STOPPED
  {
    if log != [] {
      hide Ended, EndedForAgain;
      var front, x := log[..|log| - 1], log[|log| - 1];
      RestartedHadProcess(before, front);
      LogMore(front, x);
      assert log == front + [x];
    } else {
      LogNothing();
    }
  }

  /** What one reaped child may change. */
  ghost predicate Follows(before: map<Daemon, Past>, x: Reap, now: map<Daemon, Past>) {
    && before.Keys == now.Keys
    && (x.daemon != null ==> x.daemon in now && x.start == now[x.daemon].conf.start)
    && (x.daemon != null ==> before[x.daemon].state != STOPPED && x.pid == before[x.daemon].pid)
    && (forall d :: d in now ==> now[d].conf == before[d].conf)
    && (forall d :: d in now && d != x.daemon ==> now[d].state == before[d].state && now[d].pid == before[d].pid)
    && (forall d :: d in now && d == x.daemon ==> now[d].state == STOPPED || (now[d].state == STARTED && Wants(x)))
    && (forall d :: d in now && d != x.daemon && before[d].ended ==> now[d].ended)
  }

  lemma ExplainsMore(before: map<Daemon, Past>, log: seq<Reap>, last: map<Daemon, Past>, x: Reap,
                     now: map<Daemon, Past>)
    requires Explains(before, log, last) && Follows(last, x, now)
    ensures Explains(before, log + [x], now)
  {
    hide Ended, EndedForAgain, Restarted, Wants;
    LogMore(log, x);
    assert forall y :: y in log + [x] <==> y in log || y == x;
    assert (log + [x])[..|log + [x]| - 1] == log;
  }

  /** Waiting changes nothing, except that children end. */
  lemma ExplainsLater(before: map<Daemon, Past>, log: seq<Reap>, last: map<Daemon, Past>, now: map<Daemon, Past>)
    requires Explains(before, log, last) && last.Keys == now.Keys
    requires forall d :: d in now ==> now[d].(ended := last[d].ended) == last[d] && (last[d].ended ==> now[d].ended)
    ensures Explains(before, log, now)
  {}

  /** Between two calls of `waitid` children may end, a finite number of times. */
  method EndSome(init: Init, late: nat, ghost before: map<Daemon, Past>, ghost log: seq<Reap>, ghost alive: set<Daemon>)
    returns (left: nat)
    requires init.Indexed(alive) && Explains(before, log, Now(init, alive))
    modifies init`ended
    ensures init.Indexed(alive) && Explains(before, log, Now(init, alive))
    ensures left <= late && (left == late ==> init.ended == old(init.ended))
  {
    hide Explains;
    left := late;
    ghost var last := Now(init, alive);
    var now: bool := *;
    if now && late > 0 {
      var pids: set<nat> := *;
      init.ChildrenEnd(pids);
      left := late - 1;
    }
    ExplainsLater(before, log, last, Now(init, alive));
  }

  /** The loop of `reap_children` without waiting: every child that has ended is reaped, those that
      end while it is at work included. `log` lists them; `fork` is called for the daemons that are to
      be started again because of it, and for no other. */
  method ReapAvailable(init: Init, ghost alive: set<Daemon>) returns (noChild: bool, ghost log: seq<Reap>)
    requires init.Indexed(alive)
    modifies init`spawns, init`children, init`ended, init`forks, alive
    ensures init.Indexed(alive) && init.ended == {} && (noChild <==> init.Childless())
    ensures Explains(old(Now(init, alive)), log, Now(init, alive)) && init.forks == old(init.forks) + Restarted(log)
    ensures old(init.Quiet()) ==> init.Quiet() && init.Shrinks(alive) && init.forks == old(init.forks)
  {
    hide Init.Indexed, Restarted, Explains, Now;
    var late: nat := *; // how often children end in the meantime
    var more := true;
    noChild := false;
    log := [];
    ghost var before := Now(init, alive);
    LogNothing();
    ExplainsNothing(before);
    assert init.forks + [] == init.forks;
    while more
      invariant init.Indexed(alive)
      invariant Explains(before, log, Now(init, alive)) && init.forks == old(init.forks) + Restarted(log)
      invariant !more ==> init.ended == {} && (noChild <==> init.Childless())
      invariant old(init.Quiet()) ==> init.Quiet() && init.Shrinks(alive) && init.forks == old(init.forks)
      decreases more, late, |init.ended|
    {
      late := EndSome(init, late, before, log, alive);
      more, noChild, log := ReapMore(init, before, log, alive);
    }
  }

  /** One call of `waitid` in that loop, and what follows from it. */
  method ReapMore(init: Init, ghost before: map<Daemon, Past>, ghost log: seq<Reap>, ghost alive: set<Daemon>)
    returns (more: bool, noChild: bool, ghost longer: seq<Reap>)
    requires init.Indexed(alive) && Explains(before, log, Now(init, alive))
    modifies init`spawns, init`children, init`ended, init`forks, alive
    ensures init.Indexed(alive) && Explains(before, longer, Now(init, alive))
    ensures forall forks :: old(init.forks) == forks + Restarted(log) ==> init.forks == forks + Restarted(longer)
    ensures !more ==> init.ended == {} && (noChild <==> init.Childless())
    ensures more ==> |init.ended| < |old(init.ended)|
    ensures old(init.Quiet()) ==> init.Quiet() && init.Shrinks(alive) && init.forks == old(init.forks)
  {
    hide Init.Indexed, Restarted, Ended, EndedForAgain, Explains, Wants;
    ghost var last := Now(init, alive);
    var r;
    ghost var x;
    r, x := ReapOne(init, false, alive);
    more, noChild, longer := r.Reaped?, r == NoChild, log;
    if more {
      LogMore(log, x);
      longer := log + [x];
      ExplainsMore(before, log, last, x, Now(init, alive));
    } else {
      RestartedNone(x);
      ExplainsLater(before, log, last, Now(init, alive));
    }
  }

  /** What has happened when `sigsuspend` returns: processes whose parents died have become children,
      and children have ended. */
  datatype Wakeup = Wakeup(orphans: set<nat>, ended: set<nat>)

  /** The children that ended before a wake-up are reaped after it, and a daemon that does not want to
      be started again is not. */
  method ReapAfter(init: Init, wakeup: Wakeup, ghost alive: set<Daemon>) returns (noChild: bool)
    requires init.Indexed(alive) && init.Quiet()
    modifies init`spawns, init`children, init`ended, init`forks, alive
    ensures init.Indexed(alive) && init.Quiet() && init.Shrinks(alive) && init.forks == old(init.forks)
    ensures noChild <==> init.Childless()
    ensures forall p :: p in init.spawns ==> p !in wakeup.ended
  {
    hide Init.Indexed, Explains, EndedForAgain, Ended, Now;
    AdoptAmong(init, wakeup.orphans, alive);
    EndAmong(init, wakeup.ended, alive);
    ghost var before, spawns := Now(init, alive), init.spawns;
    EndedNow(init, alive, wakeup.ended);
    ghost var log;
    noChild, log := ReapAvailable(init, alive);
    ReapedAtLast(init, alive, before, log);
    forall p | p in init.spawns ensures p !in wakeup.ended {
      assert spawns[p] == init.spawns[p];
    }
  }

  method EndAmong(init: Init, pids: set<nat>, ghost alive: set<Daemon>)
    requires init.Indexed(alive)
    modifies init`ended
    ensures init.Indexed(alive) && init.ended == old(init.ended) + pids * init.children.Keys
  {
    init.ChildrenEnd(pids);
  }

  lemma EndedNow(init: Init, alive: set<Daemon>, pids: set<nat>)
    requires init.Indexed(alive) && pids * init.children.Keys <= init.ended
    ensures forall p :: p in init.spawns && p in pids ==>
      init.spawns[p] in alive && Now(init, alive)[init.spawns[p]].ended
  {}

  /** Nobody in the index had a child that had ended before. */
  lemma ReapedAtLast(init: Init, alive: set<Daemon>, before: map<Daemon, Past>, log: seq<Reap>)
    requires init.Indexed(alive) && init.Quiet() && Explains(before, log, Now(init, alive)) && init.ended == {}
    ensures forall p :: p in init.spawns ==> init.spawns[p] in before && !before[init.spawns[p]].ended
  {
    forall p | p in init.spawns ensures init.spawns[p] in before && !before[init.spawns[p]].ended {
      var d := init.spawns[p];
      if before[d].ended {
        NotAgain(log, d);
      }
    }
  }

  lemma {:induction false} NotAgain(log: seq<Reap>, d: Daemon)
    requires forall x :: x in log && x.daemon == d ==> x.start == NO_START
    ensures !EndedForAgain(log, d)
  {
    if log != [] {
      NotAgain(log[..|log| - 1], d);
    }
  }

  /** Orphans change nothing for the daemons. */
  method AdoptAmong(init: Init, orphans: set<nat>, ghost alive: set<Daemon>)
    requires init.Indexed(alive)
    modifies init`children
    ensures init.Indexed(alive)
  {
    init.Adopt(orphans);
  }

  /** `reap_children(0)` once everyone was killed and nothing is started again: it ends with no child
      left. Processes killed with their parents may still arrive as orphans in the meantime. */
  method ReapAll(init: Init, ghost alive: set<Daemon>)
    requires init.Indexed(alive) && init.Quiet() && init.swept != []
    modifies init`spawns, init`children, init`ended, init`forks, alive
    ensures init.Indexed(alive) && init.Childless() && init.forks == old(init.forks)
    ensures init.Quiet() && init.Shrinks(alive)
    ensures forall d :: d in alive ==> d.conf == old(d.conf)
  {
    hide Init.Indexed;
    var arrivals: nat := *;
    var left := true;
    while left
      invariant init.Indexed(alive) && init.Quiet() && init.Shrinks(alive) && init.forks == old(init.forks)
      invariant forall d :: d in alive ==> d.conf == old(d.conf)
      invariant !left ==> init.Childless()
      decreases left, arrivals, |init.children|
    {
      var arrive: bool := *;
      if arrive && arrivals > 0 {
        arrivals := arrivals - 1;
        var orphans: set<nat> := *;
        AdoptAmong(init, orphans, alive);
      } else {
        var r;
        ghost var x;
        r, x := ReapOne(init, true, alive);
        left := r != NoChild;
      }
    }
  }

  // ---------- teardown ----------

  /** `teardown`, up to `sync`: when it is reached nothing was forked since the daemons were asked
      to stop, and the index of processes is empty, whichever way the loop was left. SIGALRM rings
      after the wake-ups that are given; a process that had ended at one of them is not killed. */
  method Teardown(init: Init, wakeups: seq<Wakeup>) returns (ghost sent: seq<Signal>)
    requires init.Valid()
    modifies init`spawns, init`children, init`ended, init`forks, init`signals, init`swept, init.alive
    ensures init.Valid() && init.forks == old(init.forks)
    ensures forall p :: p !in init.spawns
    ensures init.signals == old(init.signals) + sent && OnceEach(sent)
    ensures forall d :: d in init.alive ==> d.state == STOPPED
    ensures forall d :: d in init.alive && old(d.state) == STARTED ==>
      Signal(old(d.pid), old(d.conf.sigfinish), d, true, d) in init.signals
    ensures init.swept == old(init.swept) || (|init.swept| == |old(init.swept)| + 1
      && old(init.swept) <= init.swept && init.swept[|old(init.swept)|].Keys != {}
      && NoneEnded(init.swept[|old(init.swept)|], init.alive, wakeups))
  {
    hide Init.Indexed, Holds, Init.AllAimed, OnceEach;
    sent := init.SpawnsStop(init.alive);
    var k := 0;
    var noChild, rang := false, false;
    var more := true;
    while more
      invariant 0 <= k <= |wakeups| && (rang ==> k == |wakeups|)
      invariant init.Indexed(init.alive) && init.AllAimed() && init.Quiet() && init.forks == old(init.forks)
      invariant init.swept == old(init.swept) && (!more ==> (noChild <==> init.Childless()))
      invariant !more ==> noChild || rang || init.spawns.Keys == {}
      invariant forall p, w :: p in init.spawns && w in wakeups[..k] ==> p !in w.ended
      invariant init.signals == old(init.signals) + sent
      invariant forall d :: d in init.alive && old(d.state) == STARTED ==>
        Signal(old(d.pid), old(d.conf.sigfinish), d, true, d) in init.signals
      decreases more, |wakeups| - k, !rang
    {
      if k < |wakeups| {
        noChild := ReapAfter(init, wakeups[k], init.alive);
        k := k + 1;
      } else {
        rang := true;
        noChild := ReapAfter(init, Wakeup({}, {}), init.alive);
      }
      more := !noChild && !rang && init.spawns.Keys != {};
    }
    if !noChild {
      UnendedLeft(init, wakeups);
      init.KillEveryone();
      ReapAll(init, init.alive);
    }
    ChildlessIsEmpty(init);
  }

  /** No daemon has a child among these that had ended at a wake-up. */
  ghost predicate NoneEnded(children: map<nat, Daemon?>, alive: set<Daemon>, wakeups: seq<Wakeup>) {
    forall p, w :: p in children && children[p] in alive && w in wakeups ==> p !in w.ended
  }

  lemma UnendedLeft(init: Init, wakeups: seq<Wakeup>)
    requires init.Indexed(init.alive)
    requires init.spawns.Keys == {} || forall p, w :: p in init.spawns && w in wakeups ==> p !in w.ended
    ensures NoneEnded(init.children, init.alive, wakeups)
  {}

  lemma ChildlessIsEmpty(init: Init)
    requires init.Indexed(init.alive) && init.Childless()
    ensures forall p :: p !in init.spawns
    ensures forall d :: d in init.alive ==> d.state == STOPPED
  {}

  // ---------- rc ----------

  /** The loop of `rc`: it is left, if it is, when the index is empty, and it is left before the
      wake-ups are over unless some process of the index had ended at none of them. Until then the
      index only loses entries. */
  method AwaitEmpty(init: Init, wakeups: seq<Wakeup>, ghost alive: set<Daemon>) returns (finished: bool)
    requires init.Indexed(alive) && init.Quiet()
    modifies init`spawns, init`children, init`ended, init`forks, alive
    ensures init.Indexed(alive) && init.forks == old(init.forks)
    ensures init.Shrinks(alive) && (finished <==> forall p :: p !in init.spawns)
    ensures !finished ==> forall p, w :: p in init.spawns && w in wakeups ==> p !in w.ended
  {
    hide Init.Indexed;
    var k := 0;
    while k < |wakeups| && init.spawns.Keys != {}
      invariant 0 <= k <= |wakeups|
      invariant init.Indexed(alive) && init.Quiet() && init.Shrinks(alive) && init.forks == old(init.forks)
      invariant forall p, w :: p in init.spawns && w in wakeups[..k] ==> p !in w.ended
    {
      var noChild := ReapAfter(init, wakeups[k], alive);
      k := k + 1;
    }
    finished := init.spawns.Keys == {};
    assert wakeups[..|wakeups|] == wakeups;
  }

  /** `rc`: one call of `fork` for a process that is in the index but in no tree of names, and that is
      never started again. The wait ends when the index is empty, as it is once that process has
      ended; until then that process is all the index holds. */
  method Rc(init: Init, wakeups: seq<Wakeup>) returns (finished: bool, ghost rc: Daemon)
    requires init.Valid() && init.alive == {} && forall p :: p !in init.spawns
    modifies init`spawns, init`children, init`ended, init`forks
    ensures fresh(rc) && rc.name == "rc" && init.forks == old(init.forks) + [rc]
    ensures finished ==> init.Valid() && forall p :: p !in init.spawns
    ensures !finished ==> init.Indexed({rc}) && rc.state == STARTED && init.spawns == map[rc.pid := rc]
    ensures !finished ==> forall w :: w in wakeups ==> rc.pid !in w.ended
  {
    hide Holds;
    var daemon := new Daemon("rc");
    rc := daemon;
    var pid := init.Fork(daemon);
    if pid == -1 {
      return true, rc;
    }
    daemon.pid, daemon.state := pid, STARTED;
    assert forall p :: p in init.children && init.children[p] == rc ==> p == pid;
    init.Record(daemon);
    OneIndexed(init, rc);
    finished := AwaitEmpty(init, wakeups, {rc});
    if finished {
      NoneIndexed(init, {rc});
    } else {
      StillIndexed(init, rc);
    }
  }

  lemma OneIndexed(init: Init, d: Daemon)
    requires init.spawns.Keys == {d.pid} && init.spawns[d.pid] == d && d.state != STOPPED && d !in init.freed
    requires d.pid in init.children && init.children[d.pid] == d
    requires forall p :: p in init.children && init.children[p] == d ==> p == d.pid
    requires init.ended <= init.children.Keys
    ensures init.Indexed({d})
  {}

  lemma NoneIndexed(init: Init, alive: set<Daemon>)
    requires init.Indexed(alive) && forall p :: p !in init.spawns
    ensures init.Indexed({})
  {}

  lemma StillIndexed(init: Init, d: Daemon)
    requires init.Indexed({d}) && init.spawns.Keys != {}
    ensures init.spawns == map[d.pid := d] && d.state != STOPPED
  {
    assert forall p :: p in init.spawns <==> p == d.pid;
  }
}
