/** The directory of configuration files, and what reading it makes of the names and configurations
    of the daemons. */
module Listing {
  import opened Supervisor

  /** One entry of the configuration directory: its file may fail to open, or to parse. */
  datatype File = Unopened | Unparsable | Parsed(conf: Conf)

  datatype Entry = Entry(name: string, file: File)

  /** The entries `configuration_reload` acts on: those whose name has no leading dot and whose file
      can be opened. */
  predicate Opened(e: Entry) {
    !(e.name != "" && e.name[0] == '.') && e.file != Unopened
  }

  ghost function OpenedNames(listing: seq<Entry>): set<string> {
    set e | e in listing && Opened(e) :: e.name
  }

  ghost function ParsedNames(listing: seq<Entry>): set<string> {
    set e | e in listing && Opened(e) && e.file.Parsed? :: e.name
  }

  /** A directory lists no name twice. */
  ghost predicate Distinct(listing: seq<Entry>) {
    forall i, j :: 0 <= i < j < |listing| ==> listing[i].name != listing[j].name
  }

  /** What the entries `done` make of a tree of daemons: the old ones whose file opened stay, the new
      ones whose file parsed come; a file that parsed gives the configuration, one that did not
      leaves the old one. */
  ghost predicate Reloaded(from: map<string, Conf>, done: seq<Entry>, to: map<string, Conf>) {
    && to.Keys == from.Keys * OpenedNames(done) + ParsedNames(done)
    && (forall e :: e in done && Opened(e) && e.file.Parsed? ==> to[e.name] == e.file.conf)
    && (forall e :: e in done && Opened(e) && !e.file.Parsed? && e.name in from ==>
          e.name in to && to[e.name] == from[e.name])
  }

  lemma ListingGrows(listing: seq<Entry>, i: nat)
    requires i < |listing| && Distinct(listing)
    ensures var done, e := listing[..i], listing[i];
      && OpenedNames(listing[..i + 1]) == OpenedNames(done) + (if Opened(e) then {e.name} else {})
      && ParsedNames(listing[..i + 1]) == ParsedNames(done) + (if Opened(e) && e.file.Parsed? then {e.name} else {})
      && e.name !in OpenedNames(done) && e.name !in ParsedNames(done)
    ensures forall x :: x in listing[..i + 1] <==> x in listing[..i] || x == listing[i]
    ensures forall x :: x in listing[..i] ==> x.name != listing[i].name
  {
    var done, e, more := listing[..i], listing[i], listing[..i + 1];
    assert forall x :: x in more <==> x in done || x == e;
    forall x | x in done ensures x.name != e.name {
      var j :| 0 <= j < i && listing[j] == x;
    }
  }

  /** What one entry does to the configurations. */
  ghost function WithEntry(from: map<string, Conf>, to: map<string, Conf>, e: Entry): map<string, Conf> {
    if !Opened(e) then to
    else if e.file.Parsed? then to[e.name := e.file.conf]
    else if e.name in from then to[e.name := from[e.name]]
    else to
  }

  lemma ReloadedGrows(from: map<string, Conf>, listing: seq<Entry>, i: nat, to: map<string, Conf>)
    requires i < |listing| && Distinct(listing) && Reloaded(from, listing[..i], to)
    ensures Reloaded(from, listing[..i + 1], WithEntry(from, to, listing[i]))
    ensures Opened(listing[i]) ==> listing[i].name !in to
    ensures listing[i].name !in OpenedNames(listing[..i])
    ensures OpenedNames(listing[..i + 1])
         == OpenedNames(listing[..i]) + (if Opened(listing[i]) then {listing[i].name} else {})
  {
    hide OpenedNames, ParsedNames, Opened;
    ListingGrows(listing, i);
  }

  lemma ReloadedNothing(from: map<string, Conf>)
    ensures Reloaded(from, [], map[]) && OpenedNames([]) == {}
  {}

  /** The result of a reload is determined by the set of entries: the order in which the directory
      lists them does not matter. */
  lemma ListingOrderDoesNotMatter(from: map<string, Conf>, a: seq<Entry>, b: seq<Entry>, toA: map<string, Conf>,
                                  toB: map<string, Conf>)
    requires multiset(a) == multiset(b)
    requires Reloaded(from, a, toA) && Reloaded(from, b, toB)
    ensures toA == toB
  {
    assert forall e :: e in a <==> e in multiset(a);
    assert forall e :: e in b <==> e in multiset(b);
    assert OpenedNames(a) == OpenedNames(b) && ParsedNames(a) == ParsedNames(b);
    forall n | n in toA ensures toA[n] == toB[n] {
      if n in ParsedNames(a) {
        var e :| e in a && Opened(e) && e.file.Parsed? && e.name == n;
      } else {
        var e :| e in a && Opened(e) && e.name == n;
      }
    }
  }

  /** The same, read entry by entry and name by name. */
  lemma ReloadedEach(from: map<string, Conf>, listing: seq<Entry>, to: map<string, Conf>)
    requires Distinct(listing) && Reloaded(from, listing, to)
    ensures forall n :: n in to ==> n == "" || n[0] != '.'
    ensures forall e :: e in listing && e.file == Unopened ==> e.name !in to
    ensures forall e :: e in listing && e.file.Parsed? && (e.name == "" || e.name[0] != '.') ==>
      e.name in to && to[e.name] == e.file.conf
    ensures forall e :: e in listing && e.file == Unparsable && (e.name == "" || e.name[0] != '.') ==>
      (e.name in to <==> e.name in from) && (e.name in from ==> to[e.name] == from[e.name])
    ensures forall n :: n in to && n !in from ==> exists e :: e in listing && e.name == n && e.file.Parsed?
  {
    OneEntryEach(listing);
    forall n | n in to
      ensures (n == "" || n[0] != '.') && exists e :: e in listing && e.name == n && e.file != Unopened
    {
      var e :| e in listing && Opened(e) && e.name == n;
    }
  }

  lemma OneEntryEach(listing: seq<Entry>)
    requires Distinct(listing)
    ensures forall e, f :: e in listing && f in listing && e.name == f.name ==> e == f
  {
    forall e, f | e in listing && f in listing && e.name == f.name ensures e == f {
      var i :| 0 <= i < |listing| && listing[i] == e;
      var j :| 0 <= j < |listing| && listing[j] == f;
      assert i == j;
    }
  }

  lemma OpenedNamesEach(listing: seq<Entry>)
    ensures forall n :: n in OpenedNames(listing) <==>
      exists e :: e in listing && e.name == n && (n == "" || n[0] != '.') && e.file != Unopened
  {
    forall n ensures n in OpenedNames(listing) <==>
      exists e :: e in listing && e.name == n && (n == "" || n[0] != '.') && e.file != Unopened
    {
      if e :| e in listing && e.name == n && (n == "" || n[0] != '.') && e.file != Unopened {
        assert Opened(e);
      }
    }
  }

  // ---------- Who is started ----------

  /** Whether reading the entry calls `fork`: for a new daemon that wants to be started on load, and
      for a known one (`old`) that is stopped and wants to be started on reload. */
  predicate Starts(e: Entry, known: bool, stopped: bool) {
    Opened(e) && e.file.Parsed? && if known then e.file.conf.start.reload && stopped else e.file.conf.start.load
  }

  /** The names of the daemons `fork` is called for, in the order of the directory. */
  ghost function Started(listing: seq<Entry>, known: set<string>, stopped: set<string>): seq<string> {
    if listing == [] then []
    else
      var e := listing[|listing| - 1];
      Started(listing[..|listing| - 1], known, stopped) +
      (if Starts(e, e.name in known, e.name in stopped) then [e.name] else [])
  }

  lemma StartedMore(listing: seq<Entry>, i: nat, known: set<string>, stopped: set<string>)
    requires i < |listing|
    ensures var e := listing[i];
      Started(listing[..i + 1], known, stopped)
        == Started(listing[..i], known, stopped) +
           (if Starts(e, e.name in known, e.name in stopped) then [e.name] else [])
  {
    assert listing[..i + 1][..i] == listing[..i];
  }

  /** A name is among them exactly if its file parsed and has the flag for it; none is there twice. */
  lemma StartedIff(listing: seq<Entry>, known: set<string>, stopped: set<string>, n: string)
    requires Distinct(listing)
    ensures n in Started(listing, known, stopped) <==>
      exists e :: e in listing && e.name == n && (n == "" || n[0] != '.') && e.file.Parsed?
        && if n in known then n in stopped && e.file.conf.start.reload else e.file.conf.start.load
    ensures multiset(Started(listing, known, stopped))[n] <= 1
  {
    StartedFor(listing, known, stopped, n);
    if e :| e in listing && e.name == n && Starts(e, n in known, n in stopped) {
      assert (n == "" || n[0] != '.') && e.file.Parsed?;
    }
  }

  lemma {:induction false} StartedFor(listing: seq<Entry>, known: set<string>, stopped: set<string>, n: string)
    requires Distinct(listing)
    ensures n in Started(listing, known, stopped) <==>
      exists e :: e in listing && e.name == n && Starts(e, n in known, n in stopped)
    ensures multiset(Started(listing, known, stopped))[n] <= 1
  {
    hide Starts;
    if listing != [] {
      var front, e := listing[..|listing| - 1], listing[|listing| - 1];
      StartedFor(front, known, stopped, n);
      LastEntry(listing);
      var last := if Starts(e, e.name in known, e.name in stopped) then [e.name] else [];
      var done := Started(front, known, stopped);
      assert multiset(done + last) == multiset(done) + multiset(last);
    }
  }

  lemma LastEntry(listing: seq<Entry>)
    requires Distinct(listing) && listing != []
    ensures var front, e := listing[..|listing| - 1], listing[|listing| - 1];
      && Distinct(front) && (forall x :: x in listing <==> x in front || x == e)
      && forall x :: x in front ==> x.name != e.name
  {
    assert listing == listing[..|listing| - 1] + [listing[|listing| - 1]];
  }

  ghost function Names(ds: seq<Daemon>): seq<string> {
    seq(|ds|, i requires 0 <= i < |ds| => ds[i].name)
  }

  /** Since `before`, `fork` was called for the daemons that the tree `m` has under these names. */
  ghost predicate Forked(before: seq<Daemon>, now: seq<Daemon>, names: seq<string>, m: map<string, Daemon>) {
    && before <= now && Names(now[|before|..]) == names
    && forall d :: d in now[|before|..] ==> In(d, m)
  }

  lemma ForkedNothing(before: seq<Daemon>, m: map<string, Daemon>)
    ensures Forked(before, before, [], m)
  {}

  lemma ForkedOne(before: seq<Daemon>, d: Daemon, m: map<string, Daemon>)
    requires In(d, m)
    ensures Forked(before, before + [d], [d.name], m)
  {
    assert (before + [d])[|before|..] == [d];
  }

  lemma ForkedMore(before: seq<Daemon>, mid: seq<Daemon>, now: seq<Daemon>, a: seq<string>, b: seq<string>,
                   m: map<string, Daemon>, n: map<string, Daemon>)
    requires Forked(before, mid, a, m) && Forked(mid, now, b, n)
    requires forall k :: k in m ==> k in n && n[k] == m[k]
    ensures Forked(before, now, a + b, n)
  {
    var x, y := mid[|before|..], now[|mid|..];
    assert now[|before|..] == x + y;
    assert Names(x + y) == Names(x) + Names(y);
    assert forall d :: d in x + y <==> d in x || d in y;
  }
}

/** `src/cyberd/configuration.c`: the tree of names, loaded and reloaded. */
module Configuration {
  import opened Supervisor
  import opened Listing
  import opened Options
  import Comparators
  import Index

  // ---------- The tree of names, and the old tree during a reload ----------

  lemma HoldsDropped(alive: set<Daemon>, m: map<string, Daemon>, rest: map<string, Daemon>, n: string)
    requires Holds(alive, m, rest) && n in rest
    ensures Holds(alive - {rest[n]}, m, rest - {n}) && rest[n] in alive && In(rest[n], rest)
  {}

  /** A new daemon is in neither tree. */
  lemma HoldsOthers(before: set<Daemon>, alive: set<Daemon>, d: Daemon, m: map<string, Daemon>,
                    rest: map<string, Daemon>)
    requires Holds(before, m, rest) && alive == before + {d} && d !in before
    ensures Holds(alive - {d}, m, rest) && alive - {d} == before
  {
    assert alive - {d} == before;
  }

  lemma HoldsAlive(alive: set<Daemon>, m: map<string, Daemon>, rest: map<string, Daemon>)
    requires Holds(alive, m, rest)
    ensures forall n :: n in rest ==> rest[n] in alive && rest[n].name == n
  {}

  lemma HoldsSwapped(alive: set<Daemon>, m: map<string, Daemon>)
    requires Holds(alive, m, map[])
    ensures Holds(alive, map[], m)
  {}

  /** The daemons left in the old tree are those no opened file named. */
  lemma StillOld(alive: set<Daemon>, m: map<string, Daemon>, names: set<string>, rest: map<string, Daemon>)
    requires Holds(alive, m, map[]) && rest == m - names
    ensures forall d :: d in alive ==> (d in rest.Values <==> d.name !in names)
  {
    forall d | d in alive ensures d in rest.Values <==> d.name !in names {
      if d.name !in names { assert rest[d.name] == d; }
    }
  }

  lemma AllGone(alive: set<Daemon>, m: map<string, Daemon>, rest: map<string, Daemon>, left: map<string, Daemon>,
                gone: set<Daemon>)
    requires Holds(alive, m, left) && left.Keys == {}
    requires forall n :: n in rest ==> rest[n] in gone
    requires forall d :: d in gone ==> In(d, rest)
    ensures Holds(alive, m, map[]) && gone == rest.Values
  {
    assert left == map[];
    forall d | d in gone ensures d in rest.Values { assert rest[d.name] == d; }
    forall d | d in rest.Values ensures d in gone {}
  }

  /** A daemon moved from one tree to the other. */
  lemma HoldsMoved(alive: set<Daemon>, m: map<string, Daemon>, rest: map<string, Daemon>, n: string)
    requires Holds(alive, m, rest) && n in rest
    ensures Holds(alive, m[n := rest[n]], rest - {n}) && rest[n] in alive
    ensures forall k :: k in m ==> m[k] != rest[n]
  {}

  // ---------- Loading and reloading ----------

  /** `configuration_load_daemon`: a new daemon, unless its file does not parse. */
  method LoadDaemon(init: Init, e: Entry, ghost rest: map<string, Daemon>) returns (ghost made: Daemon)
    requires Holds(init.alive, init.daemons, rest) && init.Indexed(init.alive) && Opened(e)
    requires e.name !in init.daemons && e.name !in rest
    modifies init`daemons, init`spawns, init`children, init`forks, init`freed, init`alive
    ensures Holds(init.alive, init.daemons, rest) && init.Indexed(init.alive)
    ensures fresh(made) && made.name == e.name && init.Kept()
    ensures init.forks == old(init.forks) + if e.file.Parsed? && e.file.conf.start.load then [made] else []
    ensures e.file.Parsed? ==>
      && init.daemons == old(init.daemons)[e.name := made]
      && init.alive == old(init.alive) + {made} && init.freed == old(init.freed)
      && init.Confs() == old(init.Confs())[e.name := e.file.conf] && (!e.file.conf.start.load ==> made.state == STOPPED)
    ensures !e.file.Parsed? ==>
      && init.daemons == old(init.daemons) && init.alive == old(init.alive) && init.freed == old(init.freed) + {made}
      && init.Confs() == old(init.Confs())
  {
    hide Holds, Opened, Init.Indexed;
    var daemon := Create(init, e.name, rest);
    made := daemon;
    HoldsOthers(old(init.alive), init.alive, daemon, init.daemons, rest);
    if e.file.Parsed? {
      EnterNew(init, daemon, e.file.conf, rest);
    } else {
      Discard(init, daemon);
    }
  }

  lemma IndexedPids(init: Init)
    requires init.Indexed(init.alive)
    ensures forall p :: p in init.spawns ==> p in init.children
  {}

  /** A new daemon gets its configuration and its place, and is started if it asks for it. */
  method EnterNew(init: Init, d: Daemon, conf: Conf, ghost rest: map<string, Daemon>)
    requires Holds(init.alive - {d}, init.daemons, rest) && d in init.alive && init.Indexed(init.alive)
    requires d.state == STOPPED
    requires d.name !in init.daemons && d.name !in rest && forall n :: n in init.daemons ==> init.daemons[n] != d
    modifies init`daemons, init`spawns, init`children, init`forks, d
    ensures Holds(init.alive, init.daemons, rest) && init.Indexed(init.alive) && init.Kept()
    ensures init.daemons == old(init.daemons)[d.name := d] && init.Confs() == old(init.Confs())[d.name := conf]
    ensures init.forks == old(init.forks) + if conf.start.load then [d] else []
    ensures !conf.start.load ==> d.state == STOPPED
  {
    hide Holds, Init.Indexed;
    IndexedPids(init);
    d.conf := conf;
    Enter(init, d, rest);
    if d.conf.start.load {
      init.Start(d, init.alive);
    }
  }

  /** A daemon that is in no tree of names is destroyed. */
  method Discard(init: Init, d: Daemon)
    requires init.Indexed(init.alive) && d in init.alive
    modifies init`spawns, init`freed, init`alive
    ensures init.alive == old(init.alive) - {d} && init.Indexed(init.alive) && init.freed == old(init.freed) + {d}
    ensures init.spawns == if d.state != STOPPED then old(init.spawns) - {d.pid} else old(init.spawns)
  {
    init.Destroy(d, init.alive);
    init.alive := init.alive - {d};
  }

  /** `daemon_create`: a stopped daemon, alive but in no tree yet. */
  method Create(init: Init, name: string, ghost rest: map<string, Daemon>) returns (d: Daemon)
    requires Holds(init.alive, init.daemons, rest) && init.Indexed(init.alive)
    modifies init`alive
    ensures fresh(d) && d.name == name && d.state == STOPPED
    ensures init.alive == old(init.alive) + {d} && init.Indexed(init.alive)
  {
    d := new Daemon(name);
    init.alive := init.alive + {d};
  }

  /** `tree_insert` of a daemon under its name. */
  method Enter(init: Init, d: Daemon, ghost rest: map<string, Daemon>)
    requires Holds(init.alive - {d}, init.daemons, rest) && d in init.alive
    requires Index.Legal(init.daemons, Index.Put(d.name, d)) && d.name !in rest
    modifies init`daemons
    ensures Holds(init.alive, init.daemons, rest)
    ensures init.daemons == Index.After(old(init.daemons), Index.Put(d.name, d))
  {
    init.daemons := init.daemons[d.name := d];
  }

  /** `daemons_remove_element` */
  method RemoveElement(rest: map<string, Daemon>, name: string) returns (d: Daemon?, left: map<string, Daemon>)
    ensures Index.Answers(rest, Index.Drop(name), Init.Under(name, d), Comparators.StrCmp)
    ensures left == Index.After(rest, Index.Drop(name))
  {
    d := if name in rest then rest[name] else null;
    left := rest - {name};
  }

  /** `configuration_find` */
  function ConfigurationFind(init: Init, name: string): (d: Daemon?)
    reads init`daemons
    ensures Index.Answers(init.daemons, Index.Get(name), Init.Under(name, d), Comparators.StrCmp)
  {
    if name in init.daemons then init.daemons[name] else null
  }

  /** The new configuration of a daemon that exists. A running daemon keeps its process; a stopped one
      is started if the new configuration says so. */
  method Reconfigure(init: Init, d: Daemon, conf: Conf)
    requires init.Indexed(init.alive) && d in init.alive
    modifies init`spawns, init`children, init`forks, d
    ensures init.Indexed(init.alive) && init.Kept() && d.conf == conf
    ensures init.forks == old(init.forks) + if conf.start.reload && old(d.state) == STOPPED then [d] else []
    ensures old(d.state) != STOPPED || !conf.start.reload ==> d.state == old(d.state) && d.pid == old(d.pid)
  {
    IndexedPids(init);
    d.conf := conf;
    if d.conf.start.reload {
      init.Start(d, init.alive);
    }
  }

  /** `configuration_reload_daemon` for a daemon that exists: it moves to the new tree, with the new
      configuration if the file parsed. A running daemon keeps its process. */
  method ReloadDaemon(init: Init, e: Entry, daemon: Daemon, ghost rest: map<string, Daemon>)
    requires Holds(init.alive, init.daemons, rest) && init.Indexed(init.alive) && Opened(e)
    requires e.name !in init.daemons && e.name in rest && rest[e.name] == daemon
    modifies init`daemons, init`spawns, init`children, init`forks, daemon
    ensures Holds(init.alive, init.daemons, rest - {e.name}) && init.Indexed(init.alive)
    ensures init.daemons == old(init.daemons)[e.name := daemon] && init.Kept()
    ensures var again := e.file.Parsed? && e.file.conf.start.reload && old(daemon.state) == STOPPED;
      init.forks == old(init.forks) + if again then [daemon] else []
    ensures init.Confs() == old(init.Confs())[e.name := if e.file.Parsed? then e.file.conf else old(daemon.conf)]
    ensures daemon.conf == if e.file.Parsed? then e.file.conf else old(daemon.conf)
    ensures old(daemon.state) != STOPPED || !e.file.Parsed? || !daemon.conf.start.reload ==>
      daemon.state == old(daemon.state) && daemon.pid == old(daemon.pid)
  {
    hide Holds, Init.Indexed;
    HoldsMoved(init.alive, init.daemons, rest, e.name);
    if e.file.Parsed? {
      Reconfigure(init, daemon, e.file.conf);
    }
    init.daemons := init.daemons[e.name := daemon];
  }

  /** The daemons that have a process. */
  ghost function Running(ds: set<Daemon>): set<Daemon>
    reads ds
  {
    set d | d in ds && d.state != STOPPED
  }

  /** The daemons `fork` was called for since. */
  ghost function Since(before: seq<Daemon>, now: seq<Daemon>): set<Daemon> {
    if before <= now then set d | d in now[|before|..] else {}
  }

  lemma SinceMore(a: seq<Daemon>, b: seq<Daemon>, c: seq<Daemon>)
    requires a <= b <= c
    ensures Since(a, c) == Since(a, b) + Since(b, c)
  {
    assert c[|a|..] == b[|a|..] + c[|b|..];
  }

  lemma ForkedPrefix(a: seq<Daemon>, b: seq<Daemon>, names: seq<string>, m: map<string, Daemon>)
    requires Forked(a, b, names, m)
    ensures a <= b
  {}

  /** A daemon that had a process has the same one, in the same state. */
  twostate predicate Undisturbed(ds: set<Daemon>)
    reads ds
  {
    forall d :: d in ds && old(d.state) != STOPPED ==> d.state == old(d.state) && d.pid == old(d.pid)
  }

  /** One entry of the directory. */
  method ReloadEntry(init: Init, e: Entry, rest: map<string, Daemon>, ghost confs: map<string, Conf>)
    returns (left: map<string, Daemon>)
    requires Holds(init.alive, init.daemons, rest) && init.Indexed(init.alive)
    requires Opened(e) ==> e.name !in init.daemons && (e.name in confs <==> e.name in rest)
    requires e.name in rest && e.name in confs ==> rest[e.name].conf == confs[e.name]
    modifies init`daemons, init`spawns, init`children, init`forks, init`freed, init`alive
    modifies if Opened(e) && e.name in rest then {rest[e.name]} else {}
    ensures Holds(init.alive, init.daemons, left) && init.Indexed(init.alive) && init.ChildrenKept()
    ensures left == if Opened(e) then rest - {e.name} else rest
    ensures init.Confs() == WithEntry(confs, old(init.Confs()), e)
    ensures Placed(old(init.daemons), init.daemons, e, rest, init.alive - old(init.alive))
    ensures var starts := Starts(e, e.name in rest, e.name in rest && old(rest[e.name].state) == STOPPED);
      Forked(old(init.forks), init.forks, if starts then [e.name] else [], init.daemons)
    ensures old(init.alive) <= init.alive && fresh(init.alive - old(init.alive))
    ensures e.name in rest && old(rest[e.name].state) != STOPPED ==>
      rest[e.name].state == old(rest[e.name].state) && rest[e.name].pid == old(rest[e.name].pid)
    ensures Running(init.alive) <= old(Running(init.alive)) + Since(old(init.forks), init.forks)
  {
    hide Holds, Init.Indexed, Opened, Forked;
    left := rest;
    ghost var forks := init.forks;
    ForkedNothing(forks, init.daemons);
    if Opened(e) {
      HoldsAlive(init.alive, init.daemons, rest);
      var daemon;
      daemon, left := RemoveElement(rest, e.name);
      if daemon == null {
        assert left == rest;
        ghost var made := LoadDaemon(init, e, left);
        StartedOne(init, forks, made, e.file.Parsed? && e.file.conf.start.load);
      } else {
        ghost var stopped := daemon.state == STOPPED;
        ReloadDaemon(init, e, daemon, rest);
        StartedOne(init, forks, daemon, e.file.Parsed? && e.file.conf.start.reload && stopped);
      }
    }
  }

  lemma StartedOne(init: Init, forks: seq<Daemon>, d: Daemon, starts: bool)
    requires init.forks == forks + if starts then [d] else []
    requires starts ==> In(d, init.daemons)
    ensures Forked(forks, init.forks, if starts then [d.name] else [], init.daemons)
  {
    if starts { ForkedOne(forks, d, init.daemons); } else { ForkedNothing(forks, init.daemons); }
  }

  /** The daemons there were under their names still are; one more may be, from the old tree or new. */
  ghost predicate Placed(before: map<string, Daemon>, now: map<string, Daemon>, e: Entry, rest: map<string, Daemon>,
                         added: set<Daemon>) {
    && (forall n :: n in before ==> n in now && now[n] == before[n])
    && (forall n :: n in now && n !in before ==>
          n == e.name && Opened(e) && if n in rest then now[n] == rest[n] else now[n] in added)
  }

  /** The final pass over the old tree: each daemon left in it is destroyed, once. */
  method DestroyAll(init: Init, rest: map<string, Daemon>)
    requires Holds(init.alive, init.daemons, rest) && init.Indexed(init.alive)
    modifies init`spawns, init`freed, init`alive
    ensures Holds(init.alive, init.daemons, map[]) && init.Indexed(init.alive)
    ensures init.alive == old(init.alive) - rest.Values && init.freed == old(init.freed) + rest.Values
    ensures forall p :: p in init.spawns ==> p in old(init.spawns) && init.spawns[p] == old(init.spawns)[p]
    ensures forall p :: p in old(init.spawns) && p !in init.spawns ==> old(init.spawns)[p] in rest.Values
  {
    hide Holds, Init.Indexed;
    var left := rest;
    ghost var gone: set<Daemon> := {};
    while left.Keys != {}
      invariant left.Keys <= rest.Keys && forall n :: n in left ==> left[n] == rest[n]
      invariant Holds(init.alive, init.daemons, left) && init.Indexed(init.alive)
      invariant init.alive == old(init.alive) - gone && init.freed == old(init.freed) + gone
      invariant forall n :: n in rest && n !in left ==> rest[n] in gone
      invariant forall d :: d in gone ==> In(d, rest)
      invariant forall p :: p in init.spawns ==> p in old(init.spawns) && init.spawns[p] == old(init.spawns)[p]
      invariant forall p :: p in old(init.spawns) && p !in init.spawns ==> old(init.spawns)[p] in gone
      decreases left.Keys
    {
      var n :| n in left.Keys;
      DestroyElement(init, n, left);
      gone := gone + {left[n]};
      left := left - {n};
    }
    AllGone(init.alive, init.daemons, rest, left, gone);
  }

  /** `daemons_destroy_element` */
  method DestroyElement(init: Init, n: string, left: map<string, Daemon>)
    requires Holds(init.alive, init.daemons, left) && init.Indexed(init.alive) && n in left
    modifies init`spawns, init`freed, init`alive
    ensures Holds(init.alive, init.daemons, left - {n}) && init.Indexed(init.alive) && In(left[n], left)
    ensures init.alive == old(init.alive) - {left[n]} && init.freed == old(init.freed) + {left[n]}
    ensures forall p :: p in init.spawns ==> p in old(init.spawns) && init.spawns[p] == old(init.spawns)[p]
    ensures forall p :: p in old(init.spawns) && p !in init.spawns ==> old(init.spawns)[p] == left[n]
  {
    hide Holds;
    HoldsDropped(init.alive, init.daemons, left, n);
    init.Destroy(left[n], init.alive);
    init.alive := init.alive - {left[n]};
  }

  /** A daemon as it was when the reload began. */
  datatype Mark = Mark(state: DaemonState, pid: nat, conf: Conf)

  ghost function Marks(ds: set<Daemon>): map<Daemon, Mark>
    reads ds
  {
    map d | d in ds :: Mark(d.state, d.pid, d.conf)
  }

  /** From `before` to `now` nothing happened to the processes there were, and nothing at all to the
      daemons of the old tree. */
  ghost predicate Spared(before: map<Daemon, Mark>, rest: map<string, Daemon>, now: map<Daemon, Mark>) {
    && before.Keys == now.Keys
    && (forall d :: d in before && before[d].state != STOPPED ==>
          now[d].state == before[d].state && now[d].pid == before[d].pid)
    && (forall n :: n in rest ==> rest[n].name == n && rest[n] in before && now[rest[n]] == before[rest[n]])
  }

  /** One daemon of the old tree is gone through. */
  lemma SparedMore(before: map<Daemon, Mark>, rest: map<string, Daemon>, last: map<Daemon, Mark>, name: string,
                   now: map<Daemon, Mark>)
    requires Spared(before, rest, last) && last.Keys == now.Keys
    requires forall d :: d in last && !(name in rest && d == rest[name]) ==> now[d] == last[d]
    requires name in rest && last[rest[name]].state != STOPPED ==>
      now[rest[name]].state == last[rest[name]].state && now[rest[name]].pid == last[rest[name]].pid
    ensures Spared(before, rest - {name}, now)
  {}

  /** The configurations and the stopped daemons of the tree there was when the reload began. */
  ghost predicate Described(before: map<Daemon, Mark>, from: map<string, Daemon>, confs: map<string, Conf>,
                            stopped: set<string>) {
    && confs.Keys == from.Keys && stopped <= from.Keys
    && (forall n :: n in from ==> from[n] in before && confs[n] == before[from[n]].conf)
    && (forall n :: n in from ==> (n in stopped <==> before[from[n]].state == STOPPED))
  }

  /** The daemons there were under their names still are; others come from the old tree, or are new. */
  ghost predicate Gathered(before: map<string, Daemon>, now: map<string, Daemon>, from: map<string, Daemon>,
                           added: set<Daemon>) {
    && (forall n :: n in before ==> n in now && now[n] == before[n])
    && (forall n :: n in now && n !in before ==> if n in from then now[n] == from[n] else now[n] in added)
  }

  lemma GatheredOne(before: map<string, Daemon>, now: map<string, Daemon>, e: Entry, from: map<string, Daemon>,
                    names: set<string>,
                    added: set<Daemon>)
    requires Placed(before, now, e, from - names, added) && (Opened(e) ==> e.name !in names)
    ensures Gathered(before, now, from, added)
  {}

  lemma GatheredNothing(from: map<string, Daemon>)
    ensures Gathered(map[], map[], from, {})
  {}

  lemma GatheredMore(a: map<string, Daemon>, b: map<string, Daemon>, c: map<string, Daemon>, from: map<string, Daemon>,
                     x: set<Daemon>, y: set<Daemon>)
    requires Gathered(a, b, from, x) && Gathered(b, c, from, y)
    ensures Gathered(a, c, from, x + y)
  {}

  /** One entry, and what becomes of the daemons `ds`: only the one of that name is touched. */
  method ReloadMarked(init: Init, e: Entry, rest: map<string, Daemon>, ghost confs: map<string, Conf>,
                      ghost ds: set<Daemon>)
    returns (left: map<string, Daemon>)
    requires Holds(init.alive, init.daemons, rest) && init.Indexed(init.alive)
    requires Opened(e) ==> e.name !in init.daemons && (e.name in confs <==> e.name in rest)
    requires e.name in rest && e.name in confs ==> rest[e.name] in ds && Marks(ds)[rest[e.name]].conf == confs[e.name]
    modifies init`daemons, init`spawns, init`children, init`forks, init`freed, init`alive, rest.Values
    ensures Holds(init.alive, init.daemons, left) && init.Indexed(init.alive) && init.ChildrenKept()
    ensures left == if Opened(e) then rest - {e.name} else rest
    ensures init.Confs() == WithEntry(confs, old(init.Confs()), e)
    ensures Placed(old(init.daemons), init.daemons, e, rest, init.alive - old(init.alive))
    ensures e.name in rest && rest[e.name] in ds ==>
      var starts := Starts(e, true, old(Marks(ds))[rest[e.name]].state == STOPPED);
      Forked(old(init.forks), init.forks, if starts then [e.name] else [], init.daemons)
    ensures e.name !in rest ==>
      Forked(old(init.forks), init.forks, if Starts(e, false, false) then [e.name] else [], init.daemons)
    ensures old(init.alive) <= init.alive && fresh(init.alive - old(init.alive))
    ensures Running(init.alive) <= old(Running(init.alive)) + Since(old(init.forks), init.forks)
    ensures Touches(old(Marks(ds)), Marks(ds), e, rest)
  {
    hide Holds, Init.Indexed, Opened, Forked, WithEntry, Starts, Init.ChildrenKept, Running, Since, Placed;
    left := ReloadEntry(init, e, rest, confs);
  }

  ghost predicate Touches(last: map<Daemon, Mark>, now: map<Daemon, Mark>, e: Entry, rest: map<string, Daemon>) {
    && last.Keys == now.Keys && (!Opened(e) ==> now == last)
    && (forall d :: d in last && !(e.name in rest && d == rest[e.name]) ==> now[d] == last[d])
    && (e.name in rest && rest[e.name] in last && last[rest[e.name]].state != STOPPED ==>
        now[rest[e.name]].state == last[rest[e.name]].state && now[rest[e.name]].pid == last[rest[e.name]].pid)
  }

  /** One entry, seen from the start of the reload: `names` are those of the files opened so far. */
  method ReloadSparing(init: Init, e: Entry, ghost from: map<string, Daemon>, ghost names: set<string>,
                       rest: map<string, Daemon>,
                       ghost confs: map<string, Conf>, ghost stopped: set<string>, ghost before: map<Daemon, Mark>)
    returns (left: map<string, Daemon>)
    requires Holds(init.alive, init.daemons, rest) && init.Indexed(init.alive)
    requires rest == from - names && (Opened(e) ==> e.name !in names && e.name !in init.daemons)
    requires Described(before, from, confs, stopped) && Spared(before, rest, Marks(before.Keys))
    modifies init`daemons, init`spawns, init`children, init`forks, init`freed, init`alive, rest.Values
    ensures Holds(init.alive, init.daemons, left) && init.Indexed(init.alive) && init.ChildrenKept()
    ensures left == from - (names + if Opened(e) then {e.name} else {})
    ensures left.Values <= rest.Values && Spared(before, left, Marks(before.Keys))
    ensures init.Confs() == WithEntry(confs, old(init.Confs()), e)
    ensures var starts := Starts(e, e.name in from, e.name in stopped);
      Forked(old(init.forks), init.forks, if starts then [e.name] else [], init.daemons)
    ensures Gathered(old(init.daemons), init.daemons, from, init.alive - old(init.alive))
    ensures old(init.alive) <= init.alive && fresh(init.alive - old(init.alive))
    ensures Running(init.alive) <= old(Running(init.alive)) + Since(old(init.forks), init.forks)
  {
    hide Holds, Init.Indexed, Opened, Forked, WithEntry, Starts, Init.Confs, Init.ChildrenKept, Running, Since;
    hide Gathered, Placed, Marks;
    ghost var tree, alive := init.daemons, init.alive;
    ghost var last := Marks(before.Keys);
    AsDescribed(before, from, confs, stopped, rest, last);
    LeftOver(from, names, e.name);
    SparedNamed(before, rest, last);
    hide Described, Spared, Touches;
    left := ReloadMarked(init, e, rest, confs, before.Keys);
    GatheredOne(tree, init.daemons, e, from, names, init.alive - alive);
    NotStarted(e, e.name in rest, e.name in from, e.name in stopped);
    SparedOne(before, rest, last, e, Marks(before.Keys));
  }

  lemma SparedNamed(before: map<Daemon, Mark>, rest: map<string, Daemon>, now: map<Daemon, Mark>)
    requires Spared(before, rest, now)
    ensures forall n :: n in rest ==> rest[n] in before
  {}

  lemma SparedOne(before: map<Daemon, Mark>, rest: map<string, Daemon>, last: map<Daemon, Mark>, e: Entry,
                  now: map<Daemon, Mark>)
    requires Spared(before, rest, last) && Touches(last, now, e, rest)
    ensures Spared(before, if Opened(e) then rest - {e.name} else rest, now)
  {
    if Opened(e) {
      SparedMore(before, rest, last, e.name, now);
    }
  }

  /** That loop, once around. */
  method ReloadNext(init: Init, listing: seq<Entry>, i: nat, ghost from: map<string, Daemon>, rest: map<string, Daemon>,
                    ghost confs: map<string, Conf>, ghost stopped: set<string>, ghost forks: seq<Daemon>,
                    ghost before: map<Daemon, Mark>, ghost running: set<Daemon>)
    returns (left: map<string, Daemon>)
    requires Running(init.alive) <= running + Since(forks, init.forks)
    requires i < |listing| && Distinct(listing) && rest == from - OpenedNames(listing[..i])
    requires Holds(init.alive, init.daemons, rest) && init.Indexed(init.alive)
    requires Described(before, from, confs, stopped) && Spared(before, rest, Marks(before.Keys))
    requires Reloaded(confs, listing[..i], init.Confs())
    requires Forked(forks, init.forks, Started(listing[..i], from.Keys, stopped), init.daemons)
    modifies init`daemons, init`spawns, init`children, init`forks, init`freed, init`alive, rest.Values
    ensures Holds(init.alive, init.daemons, left) && init.Indexed(init.alive) && init.ChildrenKept()
    ensures left == from - OpenedNames(listing[..i + 1]) && left.Values <= rest.Values
    ensures Spared(before, left, Marks(before.Keys))
    ensures Reloaded(confs, listing[..i + 1], init.Confs())
    ensures Forked(forks, init.forks, Started(listing[..i + 1], from.Keys, stopped), init.daemons)
    ensures Gathered(old(init.daemons), init.daemons, from, init.alive - old(init.alive))
    ensures old(init.alive) <= init.alive && fresh(init.alive - old(init.alive))
    ensures Running(init.alive) <= running + Since(forks, init.forks)
  {
    hide Holds, Init.Indexed, Reloaded, OpenedNames, ParsedNames, Opened, Forked, Started, Described, Spared;
    hide Running, Since;
    ghost var e, mid, tree := listing[i], init.forks, init.daemons;
    ReloadedGrows(confs, listing, i, init.Confs());
    StartedMore(listing, i, from.Keys, stopped);
    DescribedKeys(before, from, confs, stopped);
    left := ReloadSparing(init, listing[i], from, OpenedNames(listing[..i]), rest, confs, stopped, before);
    ForkedMore(forks, mid, init.forks, Started(listing[..i], from.Keys, stopped),
      if Starts(e, e.name in from, e.name in stopped) then [e.name] else [], tree, init.daemons);
    ForkedPrefix(forks, mid, Started(listing[..i], from.Keys, stopped), tree);
    ForkedPrefix(mid, init.forks, if Starts(e, e.name in from, e.name in stopped) then [e.name] else [], init.daemons);
    SinceMore(forks, mid, init.forks);
  }

  lemma DescribedKeys(before: map<Daemon, Mark>, from: map<string, Daemon>, confs: map<string, Conf>,
                      stopped: set<string>)
    requires Described(before, from, confs, stopped)
    ensures confs.Keys == from.Keys
  {}

  lemma LeftOver(from: map<string, Daemon>, names: set<string>, name: string)
    ensures from - names - {name} == from - (names + {name}) && (from - names - {name}).Values <= (from - names).Values
    ensures from - (names + {}) == from - names
  {
    assert names + {} == names;
    assert from - names - {name} == from - (names + {name});
    forall d | d in (from - names - {name}).Values ensures d in (from - names).Values {
      var n :| n in from - names - {name} && from[n] == d;
      assert n in from - names && (from - names)[n] == d;
    }
  }

  lemma AsDescribed(before: map<Daemon, Mark>, from: map<string, Daemon>, confs: map<string, Conf>,
                    stopped: set<string>,
                    rest: map<string, Daemon>, now: map<Daemon, Mark>)
    requires Described(before, from, confs, stopped) && Spared(before, rest, now)
    requires forall n :: n in rest ==> n in from && rest[n] == from[n]
    ensures confs.Keys == from.Keys
    ensures forall n :: n in rest ==>
      rest[n] in now && now[rest[n]].conf == confs[n] && (n in stopped <==> now[rest[n]].state == STOPPED)
  {}

  lemma NotStarted(e: Entry, known: bool, listed: bool, stopped: bool)
    requires Opened(e) ==> known == listed
    ensures Starts(e, known, known && stopped) == Starts(e, listed, stopped)
  {}

  /** The loop over the directory: from the old tree `rest` into the tree of names, which starts
      empty. What is returned was named by no opened file. */
  method ReloadEntries(init: Init, listing: seq<Entry>, from: map<string, Daemon>,
                       ghost confs: map<string, Conf>, ghost stopped: set<string>, ghost before: map<Daemon, Mark>)
    returns (rest: map<string, Daemon>)
    requires init.daemons == map[] && Holds(init.alive, map[], from) && init.Indexed(init.alive) && Distinct(listing)
    requires Described(before, from, confs, stopped) && Spared(before, from, Marks(before.Keys))
    modifies init`daemons, init`spawns, init`children, init`forks, init`freed, init`alive, from.Values
    ensures Holds(init.alive, init.daemons, rest) && init.Indexed(init.alive)
    ensures rest == from - OpenedNames(listing) && Reloaded(confs, listing, init.Confs())
    ensures Spared(before, rest, Marks(before.Keys))
    ensures Forked(old(init.forks), init.forks, Started(listing, from.Keys, stopped), init.daemons)
    ensures Gathered(map[], init.daemons, from, init.alive - old(init.alive))
    ensures old(init.alive) <= init.alive && fresh(init.alive - old(init.alive)) && init.ChildrenKept()
    ensures Running(init.alive) <= old(Running(init.alive)) + Since(old(init.forks), init.forks)
  {
    hide Holds, Init.Indexed, Reloaded, OpenedNames, ParsedNames, Opened, Forked, Started, Described, Spared;
    hide Running, Since;
    hide Gathered;
    rest := from;
    ghost var running := Running(init.alive);
    ReloadedNothing(confs);
    StartedNothing(from.Keys, stopped);
    ForkedNothing(init.forks, init.daemons);
    GatheredNothing(from);
    assert init.Confs() == map[] && listing[..0] == [] && init.alive - init.alive == {};
    var i := 0;
    while i < |listing|
      invariant 0 <= i <= |listing|
      invariant Holds(init.alive, init.daemons, rest) && init.Indexed(init.alive)
      invariant rest == from - OpenedNames(listing[..i]) && rest.Values <= from.Values
      invariant Spared(before, rest, Marks(before.Keys))
      invariant Reloaded(confs, listing[..i], init.Confs())
      invariant Forked(old(init.forks), init.forks, Started(listing[..i], from.Keys, stopped), init.daemons)
      invariant Gathered(map[], init.daemons, from, init.alive - old(init.alive))
      invariant Running(init.alive) <= running + Since(old(init.forks), init.forks)
      invariant old(init.alive) <= init.alive && fresh(init.alive - old(init.alive)) && init.ChildrenKept()
    {
      ghost var tree, alive := init.daemons, init.alive;
      rest := ReloadNext(init, listing, i, from, rest, confs, stopped, old(init.forks), before, running);
      GatheredMore(map[], tree, init.daemons, from, alive - old(init.alive), init.alive - alive);
      assert alive - old(init.alive) + (init.alive - alive) == init.alive - old(init.alive);
      i := i + 1;
    }
    assert listing[..|listing|] == listing;
  }

  lemma StartedNothing(known: set<string>, stopped: set<string>)
    ensures Started([], known, stopped) == []
  {}

  /** The tree of names is set aside and the directory is read; what is returned was named by no
      opened file. */
  method Reread(init: Init, listing: seq<Entry>) returns (rest: map<string, Daemon>)
    requires init.Valid() && Distinct(listing)
    modifies init`daemons, init`spawns, init`children, init`forks, init`freed, init`alive, init.alive
    ensures Holds(init.alive, init.daemons, rest) && init.Indexed(init.alive) && init.AllAimed()
    ensures Undisturbed(old(init.alive)) && init.ChildrenKept()
    ensures forall d :: d in old(init.alive) ==> (d in rest.Values <==> d.name !in OpenedNames(listing))
    ensures rest.Values <= old(init.alive)
    ensures Reloaded(old(init.Confs()), listing, init.Confs())
    ensures forall n :: n in init.daemons ==>
      if n in old(init.daemons) then init.daemons[n] == old(init.daemons)[n] else fresh(init.daemons[n])
    ensures old(init.alive) <= init.alive && fresh(init.alive - old(init.alive))
    ensures var started := Started(listing, old(init.daemons.Keys), old(StoppedNames(init)));
      Forked(old(init.forks), init.forks, started, init.daemons)
    ensures Running(init.alive) <= old(Running(init.alive)) + Since(old(init.forks), init.forks)
  {
    hide Holds, Init.Indexed, Reloaded, OpenedNames, Init.AllAimed, Forked, Started, Spared, Described, Since;
    HoldsSwapped(init.alive, init.daemons);
    var olddaemons := init.daemons;
    ghost var confs := init.Confs();
    ghost var stopped, before := StoppedNames(init), Marks(init.alive);
    DescribedNow(init);
    init.daemons := map[];
    assert before == Marks(before.Keys);
    rest := ReloadEntries(init, listing, olddaemons, confs, stopped, before);
    StillOld(old(init.alive), olddaemons, OpenedNames(listing), rest);
    SparedRunning(before, rest, Marks(before.Keys));
    assert Undisturbed(old(init.alive));
  }

  /** `configuration_reload`, when the directory could be opened. */
  method ConfigurationReload(init: Init, listing: seq<Entry>)
    requires init.Valid() && Distinct(listing)
    modifies init`daemons, init`spawns, init`children, init`forks, init`freed, init`alive, init.alive
    ensures init.Valid() && Undisturbed(old(init.alive) * init.alive) && init.ChildrenKept()
    ensures Reloaded(old(init.Confs()), listing, init.Confs())
    ensures forall n :: n in init.daemons ==>
      if n in old(init.daemons) then init.daemons[n] == old(init.daemons)[n] else fresh(init.daemons[n])
    ensures forall n :: n in init.daemons ==> n == "" || n[0] != '.'
    ensures forall e :: e in listing && e.file == Unopened ==> e.name !in init.daemons
    ensures forall e :: e in listing && e.file.Parsed? && (e.name == "" || e.name[0] != '.') ==>
      e.name in init.daemons && init.daemons[e.name].conf == e.file.conf
    ensures forall e :: e in listing && e.file == Unparsable && (e.name == "" || e.name[0] != '.') ==>
      (e.name in init.daemons <==> e.name in old(init.daemons))
      && (e.name in old(init.daemons) ==> init.daemons[e.name].conf == old(init.daemons[e.name].conf))
    ensures forall d :: d in old(init.alive) ==> (d in init.freed <==>
      !exists e :: e in listing && e.name == d.name && (e.name == "" || e.name[0] != '.') && e.file != Unopened)
    ensures forall d :: d in old(init.alive) ==> (d in init.freed <==> d.name !in OpenedNames(listing))
    ensures fresh(init.alive - old(init.alive))
    ensures var started := Started(listing, old(init.daemons.Keys), old(StoppedNames(init)));
      Forked(old(init.forks), init.forks, started, init.daemons)
    ensures Running(init.alive) <= old(Running(init.alive)) + Since(old(init.forks), init.forks)
  {
    hide Holds, Init.Indexed, Reloaded, OpenedNames, Init.AllAimed, Forked, Started, Since;
    ghost var confs := init.Confs();
    var rest := Reread(init, listing);
    AliveNotFreed(init);
    AsRead(init, confs, listing);
    DestroyAll(init, rest);
    OpenedNamesEach(listing);
  }

  /** What the reload made of the tree, entry by entry. */
  lemma AsRead(init: Init, from: map<string, Conf>, listing: seq<Entry>)
    requires Distinct(listing) && Reloaded(from, listing, init.Confs())
    ensures forall n :: n in init.daemons ==> n == "" || n[0] != '.'
    ensures forall e :: e in listing && e.file == Unopened ==> e.name !in init.daemons
    ensures forall e :: e in listing && e.file.Parsed? && (e.name == "" || e.name[0] != '.') ==>
      e.name in init.daemons && init.daemons[e.name].conf == e.file.conf
    ensures forall e :: e in listing && e.file == Unparsable && (e.name == "" || e.name[0] != '.') ==>
      (e.name in init.daemons <==> e.name in from)
      && (e.name in from ==> init.daemons[e.name].conf == from[e.name])
    ensures forall n :: n in init.daemons && n !in from ==> exists e :: e in listing && e.name == n && e.file.Parsed?
  {
    hide Reloaded, Distinct;
    ReloadedEach(from, listing, init.Confs());
    assert forall n :: n in init.daemons ==> n in init.Confs() && init.Confs()[n] == init.daemons[n].conf;
  }

  lemma SparedRunning(before: map<Daemon, Mark>, rest: map<string, Daemon>, now: map<Daemon, Mark>)
    requires Spared(before, rest, now)
    ensures before.Keys == now.Keys
    ensures forall d :: d in before && before[d].state != STOPPED ==>
      now[d].state == before[d].state && now[d].pid == before[d].pid
  {}

  lemma DescribedNow(init: Init)
    requires Holds(init.alive, init.daemons, map[])
    ensures var before := Marks(init.alive);
      && Described(before, init.daemons, init.Confs(), StoppedNames(init)) && Spared(before, init.daemons, before)
      && init.daemons.Values <= init.alive
  {}

  /** The names of the daemons that have no process. */
  ghost function StoppedNames(init: Init): set<string>
    reads init`daemons, init.daemons.Values
  {
    set n | n in init.daemons && init.daemons[n].state == STOPPED
  }

  lemma AliveNotFreed(init: Init)
    requires init.Indexed(init.alive)
    ensures init.alive !! init.freed
  {}

  lemma NoneRunning(init: Init)
    requires Holds(init.alive, init.daemons, map[]) && init.daemons == map[]
    ensures Running(init.alive) == {}
  {}

  /** One entry of the directory, when there is no old tree. */
  method LoadEntry(init: Init, e: Entry)
    requires Holds(init.alive, init.daemons, map[]) && init.Indexed(init.alive)
    requires Opened(e) ==> e.name !in init.daemons
    modifies init`daemons, init`spawns, init`children, init`forks, init`freed, init`alive
    ensures Holds(init.alive, init.daemons, map[]) && init.Indexed(init.alive) && init.ChildrenKept()
    ensures init.Confs() == WithEntry(map[], old(init.Confs()), e)
    ensures forall n :: n in old(init.daemons) ==> n in init.daemons && init.daemons[n] == old(init.daemons)[n]
    ensures Forked(old(init.forks), init.forks, if Starts(e, false, false) then [e.name] else [], init.daemons)
    ensures Running(init.alive) <= old(Running(init.alive)) + Since(old(init.forks), init.forks)
    ensures fresh(init.alive - old(init.alive))
  {
    hide Holds, Init.Indexed, Opened, Forked;
    ghost var forks := init.forks;
    ForkedNothing(forks, init.daemons);
    if Opened(e) {
      ghost var made := LoadDaemon(init, e, map[]);
      StartedOne(init, forks, made, e.file.Parsed? && e.file.conf.start.load);
    }
  }

  /** `configuration_load`, at the start, when there are no daemons. */
  method ConfigurationLoad(init: Init, listing: seq<Entry>)
    requires init.Valid() && Distinct(listing) && init.daemons == map[]
    modifies init`daemons, init`spawns, init`children, init`forks, init`freed, init`alive
    ensures init.Valid() && Reloaded(map[], listing, init.Confs())
    ensures forall n :: n in init.daemons ==> n == "" || n[0] != '.'
    ensures forall e :: e in listing && e.file == Unopened ==> e.name !in init.daemons
    ensures forall e :: e in listing && e.file.Parsed? && (e.name == "" || e.name[0] != '.') ==>
      e.name in init.daemons && init.daemons[e.name].conf == e.file.conf
    ensures forall n :: n in init.daemons ==> exists e :: e in listing && e.name == n && e.file.Parsed?
    ensures fresh(init.alive - old(init.alive)) && init.ChildrenKept()
    ensures Forked(old(init.forks), init.forks, Started(listing, {}, {}), init.daemons)
    ensures Running(init.alive) <= Since(old(init.forks), init.forks)
  {
    hide Holds, Init.Indexed, Reloaded, OpenedNames, ParsedNames, Opened, Init.AllAimed, Forked, Started;
    hide Running, Since;
    NoneRunning(init);
    ReloadedNothing(map[]);
    StartedNothing({}, {});
    ForkedNothing(init.forks, init.daemons);
    assert init.Confs() == map[] && listing[..0] == [];
    var i := 0;
    while i < |listing|
      invariant 0 <= i <= |listing|
      invariant Holds(init.alive, init.daemons, map[]) && init.Indexed(init.alive)
      invariant Reloaded(map[], listing[..i], init.Confs())
      invariant fresh(init.alive - old(init.alive)) && init.ChildrenKept()
      invariant Forked(old(init.forks), init.forks, Started(listing[..i], {}, {}), init.daemons)
      invariant Running(init.alive) <= Since(old(init.forks), init.forks)
    {
      var e := listing[i];
      ReloadedGrows(map[], listing, i, init.Confs());
      StartedMore(listing, i, {}, {});
      ghost var forks, tree := init.forks, init.daemons;
      LoadEntry(init, e);
      ForkedMore(old(init.forks), forks, init.forks, Started(listing[..i], {}, {}),
        if Starts(e, false, false) then [e.name] else [], tree, init.daemons);
      ForkedPrefix(old(init.forks), forks, Started(listing[..i], {}, {}), tree);
      ForkedPrefix(forks, init.forks, if Starts(e, false, false) then [e.name] else [], init.daemons);
      SinceMore(old(init.forks), forks, init.forks);
      i := i + 1;
    }
    assert listing[..|listing|] == listing;
    AsRead(init, map[], listing);
  }
}
