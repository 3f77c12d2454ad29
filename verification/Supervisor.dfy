/** Daemons, the index of their processes, and the kernel they run on: `src/cyberd/daemon.c` and
    `src/cyberd/spawns.c`. */
module Supervisor {
  import opened Options
  import Comparators
  import Index

  datatype DaemonState = STARTED | STOPPED | STOPPING

  /** When a daemon wants to be started: the bit-field of `src/cyberd/daemon_conf.h`. */
  datatype StartFlags =
    StartFlags(load: bool, reload: bool, exitsuccess: bool, exitfailure: bool, killed: bool, dumped: bool)

  const NO_START := StartFlags(false, false, false, false, false, false)

  datatype Conf = Conf(start: StartFlags, sigfinish: int, sigreload: int)

  /** How a child ended, as `waitid` reports it for WEXITED. */
  datatype Ending = EXITED(status: int) | KILLED(signal: int) | DUMPED

  /** Whether a daemon with these flags is started again after that ending. */
  predicate Restarts(start: StartFlags, ending: Ending) {
    match ending
    case EXITED(status) => if status == 0 then start.exitsuccess else start.exitfailure
    case KILLED(_) => start.killed
    case DUMPED => start.dumped
  }

  const SIGKILL: int := 9

  /** The operations of a daemon that can be asked for by its name. */
  datatype Operation = START | STOP | RELOAD | END

  class Daemon {
    const name: string
    var state: DaemonState
    var pid: nat
    var conf: Conf

    /** `daemon_create`, with the defaults of `daemon_conf_init` (SIGTERM and SIGHUP). */
    constructor (name: string)
      ensures this.name == name && state == STOPPED && conf == Conf(NO_START, 15, 1)
    {
      this.name := name;
      state, conf := STOPPED, Conf(NO_START, 15, 1);
      pid := *;
    }
  }

  /** A signal the program sent: to which pid, for which daemon, and whose process that pid was. */
  datatype Signal = Signal(pid: nat, signo: int, sender: Daemon, unreaped: bool, owner: Daemon?)

  /** The signal went to a process that was not reaped yet and had been forked for that daemon. */
  ghost predicate Aimed(s: Signal) { s.unreaped && s.owner == s.sender }

  datatype Waited = Reaped(pid: nat, ending: Ending) | NoneAvailable | NoChild

  ghost predicate In(d: Daemon, m: map<string, Daemon>) {
    d.name in m && m[d.name] == d
  }

  /** Two trees of names without a name in common hold exactly the daemons of `alive`. */
  ghost predicate Holds(alive: set<Daemon>, m: map<string, Daemon>, rest: map<string, Daemon>) {
    && (forall n :: n in m ==> m[n].name == n && m[n] in alive)
    && (forall n :: n in rest ==> rest[n].name == n && rest[n] in alive)
    && (forall d :: d in alive ==> In(d, m) || In(d, rest))
    && m.Keys !! rest.Keys
  }

  /** No process is sent two of these signals. */
  ghost predicate OnceEach(s: seq<Signal>) {
    forall j, k :: 0 <= j < k < |s| ==> s[j].pid != s[k].pid
  }

  lemma OnceMore(s: seq<Signal>, t: seq<Signal>)
    requires s == [] || OnceEach(s)
    requires t == s || (|t| == |s| + 1 && t[..|s|] == s && forall x :: x in s ==> x.pid != t[|s|].pid)
    ensures OnceEach(t)
  {
    if t != s {
      forall j, k | 0 <= j < k < |t| ensures t[j].pid != t[k].pid {
        assert t[j] == s[j] && s[j] in s;
        if k < |s| { assert t[k] == s[k]; }
      }
    }
  }

  class Init {
    /** The daemons by name: the tree of `configuration.c`. */
    var daemons: map<string, Daemon>
    /** The daemons by the pid they had when they were recorded: the tree of `spawns.c`. */
    var spawns: map<nat, Daemon>

    // The kernel: unreaped children, the daemon each was forked for (null for an orphan), and which
    // of them have ended.
    var children: map<nat, Daemon?>
    var ended: set<nat>

    // What has happened so far; `forks` are the calls of `fork`, whether they succeeded or not,
    // `requests` the operations asked for by name, and `swept` the children each `kill(-1, SIGKILL)`
    // found.
    ghost var signals: seq<Signal>
    ghost var forks: seq<Daemon>
    ghost var requests: seq<(Operation, string)>
    ghost var swept: seq<map<nat, Daemon?>>
    ghost var freed: set<Daemon>
    ghost var alive: set<Daemon>

    constructor ()
      ensures Valid() && daemons == map[] && signals == [] && forks == [] && requests == []
    {
      daemons, spawns, children, ended := map[], map[], map[], {};
      signals, forks, requests, swept, freed, alive := [], [], [], [], {}, {};
    }

    // ---------- Invariants ----------

    /** The index of processes, relative to the daemons that are alive: it holds exactly those that
        are not STOPPED, each under its current pid, so the order of the tree is still that of the
        keys in it; its processes are unreaped children forked for them, and a daemon that is alive
        has no other process. */
    ghost predicate Indexed(alive: set<Daemon>)
      reads this`spawns, this`children, this`ended, this`freed, alive`state, alive`pid
    {
      && (forall p :: p in spawns ==> spawns[p] in alive && spawns[p].pid == p && spawns[p].state != STOPPED)
      && (forall p :: p in spawns ==> p in children && children[p] == spawns[p])
      && (forall d :: d in alive && d.state != STOPPED ==> d.pid in spawns && spawns[d.pid] == d)
      && (forall p :: p in children && children[p] in alive ==> p in spawns)
      && alive !! freed && ended <= children.Keys
    }

    ghost predicate AllAimed()
      reads this`signals
    {
      forall s :: s in signals ==> Aimed(s)
    }

    /** What holds between two rounds of the event loop: the daemons that are alive are those of
        the tree of names, each under its name, and the index of processes is in order. */
    ghost predicate Valid()
      reads this, alive
    {
      Holds(alive, daemons, map[]) && Indexed(alive) && AllAimed()
    }

    /** Read from a daemon's side: it is STOPPED exactly when no entry of the index is it, exactly
        when it has no unreaped child, and otherwise its pid is its only entry and its only child. */
    lemma OneProcessEach(alive: set<Daemon>, d: Daemon)
      requires Indexed(alive) && d in alive
      ensures d.state == STOPPED <==> forall p :: p in spawns ==> spawns[p] != d
      ensures d.state == STOPPED <==> forall p :: p in children ==> children[p] != d
      ensures forall p :: p in spawns && spawns[p] == d ==> p == d.pid
      ensures forall p :: p in children && children[p] == d ==> p == d.pid
    {
      if d.state != STOPPED {
        assert spawns[d.pid] == d && children[d.pid] == d;
      }
      forall p | p in children && children[p] == d ensures p == d.pid && d.state != STOPPED {
        assert p in spawns && children[p] == spawns[p];
      }
    }

    lemma NoneAlive()
      requires Valid() && daemons == map[]
      ensures alive == {} && forall p :: p !in spawns
    {}

    lemma IndexedBothWays(alive: set<Daemon>)
      requires Indexed(alive)
      ensures forall p :: p in spawns ==> spawns[p] in alive && spawns[p].pid == p && spawns[p].state != STOPPED
      ensures forall d :: d in alive && d.state != STOPPED ==> d.pid in spawns && spawns[d.pid] == d
    {}

    // ---------- The kernel ----------

    /** `fork`: fails, or gives a pid that no unreaped child has. */
    method Fork(d: Daemon) returns (pid: int)
      modifies this`children, this`forks
      ensures forks == old(forks) + [d]
      ensures pid == -1 ==> children == old(children)
      ensures pid != -1 ==> pid > 0 && pid !in old(children) && children == old(children)[pid := d]
    {
      pid := *;
      if pid <= 0 || pid in children {
        pid := -1;
      } else {
        children := children[pid := d];
      }
      forks := forks + [d];
    }

    /** `kill` */
    method Kill(pid: nat, signo: int, ghost sender: Daemon)
      modifies this`signals
      ensures var owner := if pid in children then children[pid] else null;
        signals == old(signals) + [Signal(pid, signo, sender, pid in children, owner)]
    {
      ghost var owner := if pid in children then children[pid] else null;
      signals := signals + [Signal(pid, signo, sender, pid in children, owner)];
    }

    /** `kill(-1, SIGKILL)` */
    method KillEveryone()
      modifies this`swept
      ensures swept == old(swept) + [children]
    {
      swept := swept + [children];
    }

    ghost predicate Childless()
      reads this`children
    {
      forall p :: p !in children
    }

    /** `waitid(P_ALL)`: reaps a child that has ended, or reports that there is none or no child at
        all. When it may wait, some child ends sooner or later. */
    method WaitId(blocking: bool) returns (r: Waited)
      requires ended <= children.Keys
      modifies this`children, this`ended
      ensures r == NoChild <==> old(Childless())
      ensures r == NoneAvailable <==> !blocking && !old(Childless()) && old(ended) == {}
      ensures !r.Reaped? ==> children == old(children) && ended == old(ended)
      ensures r.Reaped? ==>
        r.pid in old(children) && children == old(children) - {r.pid} && ended == old(ended) - {r.pid}
      ensures r.Reaped? && old(ended) != {} ==> r.pid in old(ended)
    {
      var pid: nat;
      if p: nat :| p in ended {
        pid := p;
      } else if p: nat :| p in children {
        if !blocking {
          return NoneAvailable;
        }
        pid := p;
      } else {
        return NoChild;
      }
      var ending: Ending := *;
      children, ended := children - {pid}, ended - {pid};
      r := Reaped(pid, ending);
    }

    /** Some children end. */
    method ChildrenEnd(pids: set<nat>)
      modifies this`ended
      ensures ended == old(ended) + pids * children.Keys
    {
      ended := ended + pids * children.Keys;
    }

    /** Processes whose parent died become children of this process, under pids of their own. */
    method Adopt(orphans: set<nat>)
      modifies this`children
      ensures forall p :: p in old(children) ==> p in children && children[p] == old(children)[p]
      ensures forall p :: p in children && p !in old(children) ==> p in orphans && children[p] == null
      ensures orphans <= children.Keys
    {
      children := (map p | p in orphans :: null) + children;
    }

    // ---------- spawns.c ----------

    /** `spawns_record` */
    method Record(d: Daemon)
      requires Index.Legal(spawns, Index.Put(d.pid, d))
      modifies this`spawns
      ensures spawns == Index.After(old(spawns), Index.Put(d.pid, d))
    {
      spawns := spawns[d.pid := d];
    }

    /** A daemon as an entry of an index. */
    static function Under<K>(key: K, d: Daemon?): Option<(K, Daemon)> {
      if d == null then None else Some((key, d))
    }

    /** `spawns_retrieve` */
    method Retrieve(pid: nat) returns (d: Daemon?)
      modifies this`spawns
      ensures Index.Answers(old(spawns), Index.Drop(pid), Under(pid, d), Comparators.ByNumber)
      ensures spawns == Index.After(old(spawns), Index.Drop(pid))
    {
      d := if pid in spawns then spawns[pid] else null;
      spawns := spawns - {pid};
    }

    // ---------- daemon.c ----------

    /** `daemon_spawn`, in the parent. The pid is written while the daemon is in no index. */
    method Spawn(d: Daemon, ghost alive: set<Daemon>) returns (ok: bool)
      requires Indexed(alive) && d in alive && d.state == STOPPED
      modifies this`spawns, this`children, this`forks, d
      ensures Indexed(alive) && d.conf == old(d.conf)
      ensures forks == old(forks) + [d] && if ok then Spawned(d) else Same(d)
    {
      var pid := Fork(d);
      if pid == -1 {
        return false;
      }
      assert forall p :: p in spawns ==> spawns[p] != d;
      d.pid := pid;
      d.state := STARTED;
      Record(d);
      return true;
    }

    twostate predicate Same(d: Daemon)
      reads this`spawns, this`children, d
    {
      d.state == old(d.state) && d.pid == old(d.pid) && spawns == old(spawns) && children == old(children)
    }

    /** The daemon has a new process, which nothing knew before. */
    twostate predicate Spawned(d: Daemon)
      reads this`spawns, this`children, d
    {
      && d.state == STARTED && d.pid > 0 && d.pid !in old(children)
      && spawns == old(spawns)[d.pid := d] && children == old(children)[d.pid := d]
    }

    /** `fork` is called for a stopped daemon and for no other; the daemon gets a process if the call
        succeeds. */
    twostate predicate StartEffect(d: Daemon)
      reads this`spawns, this`children, this`forks, d
    {
      if old(d.state) == STOPPED then forks == old(forks) + [d] && (Same(d) || Spawned(d))
      else forks == old(forks) && Same(d)
    }

    /** Only a started daemon is asked to finish, and it is STOPPING from then on. */
    twostate predicate StopEffect(d: Daemon)
      reads this`signals, d
    {
      && d.pid == old(d.pid)
      && if old(d.state) == STARTED then
           d.state == STOPPING && signals == old(signals) + [Signal(d.pid, d.conf.sigfinish, d, true, d)]
         else
           d.state == old(d.state) && signals == old(signals)
    }

    /** Only a started daemon is told to reload. */
    twostate predicate ReloadEffect(d: Daemon)
      reads this`signals, d
    {
      signals == old(signals) + (if d.state == STARTED then [Signal(d.pid, d.conf.sigreload, d, true, d)] else [])
    }

    /** Any daemon that has a process is killed. */
    twostate predicate EndEffect(d: Daemon)
      reads this`signals, d
    {
      signals == old(signals) + (if d.state != STOPPED then [Signal(d.pid, SIGKILL, d, true, d)] else [])
    }

    /** `daemon_start` */
    method Start(d: Daemon, ghost alive: set<Daemon>)
      requires Indexed(alive) && d in alive
      modifies this`spawns, this`children, this`forks, d
      ensures Indexed(alive) && d.conf == old(d.conf) && StartEffect(d)
    {
      match d.state
      case STARTED =>
      case STOPPED =>
        var ok := Spawn(d, alive);
      case STOPPING =>
    }

    /** `daemon_stop`: asks a started daemon to finish, once. */
    method Stop(d: Daemon, ghost alive: set<Daemon>)
      requires Indexed(alive) && d in alive && AllAimed()
      modifies this`signals, d
      ensures Indexed(alive) && AllAimed() && d.conf == old(d.conf) && StopEffect(d)
    {
      match d.state
      case STARTED =>
        Kill(d.pid, d.conf.sigfinish, d);
        d.state := STOPPING;
      case STOPPED =>
      case STOPPING =>
    }

    /** `daemon_reload` */
    method Reload(d: Daemon, ghost alive: set<Daemon>)
      requires Indexed(alive) && d in alive && AllAimed()
      modifies this`signals
      ensures Indexed(alive) && AllAimed() && ReloadEffect(d)
    {
      match d.state
      case STARTED => Kill(d.pid, d.conf.sigreload, d);
      case STOPPED =>
      case STOPPING =>
    }

    /** `daemon_end` */
    method End(d: Daemon, ghost alive: set<Daemon>)
      requires Indexed(alive) && d in alive && AllAimed()
      modifies this`signals
      ensures Indexed(alive) && AllAimed() && EndEffect(d)
    {
      match d.state {
        case STARTED =>
        case STOPPED => return;
        case STOPPING =>
      }
      Kill(d.pid, SIGKILL, d);
    }

    /** `daemon_destroy`: the daemon leaves the index, if it was there; its process goes on as an
        orphan. Nothing is freed twice. */
    method Destroy(d: Daemon, ghost alive: set<Daemon>)
      requires Indexed(alive) && d in alive && d !in freed
      modifies this`spawns, this`freed
      ensures Indexed(alive - {d}) && freed == old(freed) + {d}
      ensures spawns == if d.state != STOPPED then old(spawns) - {d.pid} else old(spawns)
    {
      if d.state != STOPPED {
        var removed := Retrieve(d.pid);
      }
      freed := freed + {d};
    }

    // ---------- Stopping every daemon: spawns.c ----------

    /** No daemon of the index wants to be started again, whatever happens to it. */
    ghost predicate Quiet()
      reads this`spawns, spawns.Values
    {
      forall p :: p in spawns ==> spawns[p].conf.start == NO_START
    }

    /** The index lost entries and nothing else. */
    twostate predicate Shrinks(alive: set<Daemon>)
      reads this`spawns, alive
    {
      && (forall p :: p in spawns ==> p in old(spawns) && spawns[p] == old(spawns)[p])
      && (forall p :: p in spawns && spawns[p] in alive ==> spawns[p].state == old(spawns[p].state))
    }

    /** `spawns_stop_element` */
    method StopElement(d: Daemon, ghost alive: set<Daemon>)
      requires Indexed(alive) && d in alive && AllAimed()
      modifies this`signals, d
      ensures Indexed(alive) && AllAimed() && d.pid == old(d.pid) && d.conf == old(d.conf).(start := NO_START)
      ensures old(d.state) == STARTED ==>
        d.state == STOPPING && signals == old(signals) + [Signal(d.pid, d.conf.sigfinish, d, true, d)]
      ensures old(d.state) != STARTED ==> d.state == old(d.state) && signals == old(signals)
    {
      d.conf := d.conf.(start := NO_START);
      Stop(d, alive);
    }

    /** `spawns_stop`: every indexed daemon is STOPPING and has all its start flags clear, and each
        that was STARTED got its finish signal. */
    method SpawnsStop(ghost alive: set<Daemon>) returns (ghost sent: seq<Signal>)
      requires Indexed(alive) && AllAimed()
      modifies this`signals, alive
      ensures Indexed(alive) && AllAimed() && Quiet()
      ensures forall p :: p in spawns ==> spawns[p].state == STOPPING
      ensures forall d :: d in alive ==> d.pid == old(d.pid) && (old(d.state) == STOPPED ==> unchanged(d))
      ensures signals == old(signals) + sent && OnceEach(sent)
      ensures forall s :: s in sent ==> s.sender in alive && s.sender.pid == s.pid
      ensures forall d, s :: d in alive && s in sent && s.sender == d ==> old(d.state) == STARTED
      ensures forall d :: d in alive && old(d.state) == STARTED ==>
        Signal(d.pid, old(d.conf.sigfinish), d, true, d) in sent
    {
      hide AllAimed, Aimed, OnceEach, Indexed;
      IndexedBothWays(alive);
      sent := [];
      OnceMore([], []);
      assert signals + [] == signals;
      var todo := spawns.Keys;
      while todo != {}
        invariant todo <= spawns.Keys && Indexed(alive) && AllAimed()
        invariant forall p :: p in spawns && p !in todo ==>
          spawns[p].state == STOPPING && spawns[p].conf.start == NO_START
        invariant forall p :: p in todo ==> unchanged(spawns[p])
        invariant forall d :: d in alive ==> d.pid == old(d.pid) && (old(d.state) == STOPPED ==> unchanged(d))
        invariant signals == old(signals) + sent && OnceEach(sent)
        invariant forall s :: s in sent ==> s.pid !in todo
        invariant forall s :: s in sent ==> s.sender in alive && s.sender.pid == s.pid
        invariant forall d, s :: d in alive && s in sent && s.sender == d ==> old(d.state) == STARTED
        invariant forall d :: d in alive && old(d.state) == STARTED && d.pid !in todo ==>
          Signal(d.pid, old(d.conf.sigfinish), d, true, d) in sent
        decreases todo
      {
        var p :| p in todo;
        todo := todo - {p};
        var d := spawns[p];
        ghost var earlier := sent;
        if d.state == STARTED { sent := sent + [Signal(p, d.conf.sigfinish, d, true, d)]; }
        OnceMore(earlier, sent);
        StopElement(d, alive);
      }
    }

    // ---------- What the callers speak of ----------

    /** No process of the index or of the kernel is lost. */
    twostate predicate Kept()
      reads this`spawns, this`children
    {
      && (forall p :: p in old(spawns) ==> p in spawns && spawns[p] == old(spawns)[p])
      && (forall p :: p in old(children) ==> p in children && children[p] == old(children)[p])
    }

    /** Reloading kills no process. */
    twostate predicate ChildrenKept()
      reads this`children
    {
      forall p :: p in old(children) ==> p in children && children[p] == old(children)[p]
    }

    ghost function Confs(): map<string, Conf>
      reads this`daemons, daemons.Values
    {
      map n | n in daemons :: daemons[n].conf
    }

  }
}
