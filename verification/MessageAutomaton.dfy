/** The messages of a connection as a one-byte-at-a-time automaton: the reference that the
    chunk-wise parser of `src/cyberd/socket_connection_node.c` is proved against. */
module MessageAutomaton {
  import opened Capabilities

  /** `NAME_MAX` of <limits.h>. */
  const NAME_MAX: nat := 255

  const NUL: byte := 0
  const SLASH: byte := 47
  const DOT: byte := 46

  datatype DaemonCommand = Start | Stop | Reload | End

  datatype SystemCommand = Poweroff | Halt | Reboot | Suspend

  /** What a connection asks of the rest of the program. */
  datatype Action =
    | QueueReboot(howto: SystemCommand)
    | OnDaemon(command: DaemonCommand, name: seq<byte>)
    | CreateEndpoint(name: seq<byte>, capabilities: capset)

  datatype State =
    | Command
    | EndpointCapabilities(word: bv32, size: nat)
    | EndpointName(requested: capset, name: seq<byte>)
    | DaemonName(command: DaemonCommand, name: seq<byte>)
    | Invalid

  /** A state the parser can be in: partial words and partial names without NUL or slash. */
  ghost predicate WellFormed(s: State) {
    match s
    case EndpointCapabilities(_, size) => size < 4
    case EndpointName(_, name) => Partial(name)
    case DaemonName(_, name) => Partial(name)
    case _ => true
  }

  ghost predicate Partial(name: seq<byte>) {
    |name| <= NAME_MAX + 1 && NUL !in name && SLASH !in name
  }

  predicate NameState(s: State) { s.EndpointName? || s.DaemonName? }

  datatype Fed = Fed(state: State, actions: seq<Action>)

  /** The capability bit a command acts under. */
  function CommandBit(command: DaemonCommand): capset {
    match command
    case Start => DAEMON_START
    case Stop => DAEMON_STOP
    case Reload => DAEMON_RELOAD
    case End => DAEMON_END
  }

  function HowtoBit(howto: SystemCommand): capset {
    match howto
    case Poweroff => SYSTEM_POWEROFF
    case Halt => SYSTEM_HALT
    case Reboot => SYSTEM_REBOOT
    case Suspend => SYSTEM_SUSPEND
  }

  function ActionBit(a: Action): capset {
    match a
    case QueueReboot(howto) => HowtoBit(howto)
    case OnDaemon(command, _) => CommandBit(command)
    case CreateEndpoint(_, _) => ENDPOINT_CREATE
  }

  /** A command byte turned into its capability. */
  function OnCommand(capabilities: capset, capability: capset): Fed {
    if !Has(capabilities, capability) then Fed(Invalid, [])
    else if capability == ENDPOINT_CREATE then Fed(EndpointCapabilities(0, 0), [])
    else if capability == DAEMON_START then Fed(DaemonName(Start, []), [])
    else if capability == DAEMON_STOP then Fed(DaemonName(Stop, []), [])
    else if capability == DAEMON_RELOAD then Fed(DaemonName(Reload, []), [])
    else if capability == DAEMON_END then Fed(DaemonName(End, []), [])
    else if capability == SYSTEM_POWEROFF then Fed(Command, [QueueReboot(Poweroff)])
    else if capability == SYSTEM_HALT then Fed(Command, [QueueReboot(Halt)])
    else if capability == SYSTEM_REBOOT then Fed(Command, [QueueReboot(Reboot)])
    else Fed(Command, [QueueReboot(Suspend)])
  }

  function OnCapabilityByte(host: Host, word: bv32, size: nat, b: byte): State {
    if size + 1 == 4 then EndpointName(host.Ntohl(Append(word, b)), [])
    else EndpointCapabilities(Append(word, b), size + 1)
  }

  /** An endpoint is created only if some requested capability is held, and only under a name that
      is neither empty nor hidden. */
  predicate Creates(capabilities: capset, requested: capset, name: seq<byte>) {
    capabilities & requested != 0 && name != [] && name[0] != DOT
  }

  /** The action of a complete name. */
  function Complete(capabilities: capset, s: State): seq<Action>
    requires NameState(s)
  {
    if s.DaemonName? then [OnDaemon(s.command, s.name)]
    else if Creates(capabilities, s.requested, s.name) then
      [CreateEndpoint(s.name, capabilities & s.requested)]
    else []
  }

  function OnNameByte(capabilities: capset, s: State, b: byte): Fed
    requires NameState(s)
  {
    if |s.name| >= NAME_MAX + 1 || b == SLASH then Fed(Invalid, [])
    else if b == NUL then Fed(Command, Complete(capabilities, s))
    else Fed(s.(name := s.name + [b]), [])
  }

  function StepByte(host: Host, capabilities: capset, s: State, b: byte): Fed {
    match s
    case Command => OnCommand(capabilities, host.shift(b))
    case EndpointCapabilities(word, size) => Fed(OnCapabilityByte(host, word, size, b), [])
    case EndpointName(_, _) => OnNameByte(capabilities, s, b)
    case DaemonName(_, _) => OnNameByte(capabilities, s, b)
    case Invalid => Fed(Invalid, [])
  }

  function FeedBytes(host: Host, capabilities: capset, s: State, bytes: seq<byte>): Fed
    decreases |bytes|
  {
    if bytes == [] then Fed(s, [])
    else
      var first := StepByte(host, capabilities, s, bytes[0]);
      var rest := FeedBytes(host, capabilities, first.state, bytes[1..]);
      Fed(rest.state, first.actions + rest.actions)
  }

  lemma FeedNothing(host: Host, capabilities: capset, s: State)
    ensures FeedBytes(host, capabilities, s, []) == Fed(s, [])
  {}

  lemma StepIsFeed(host: Host, capabilities: capset, s: State, b: byte)
    ensures FeedBytes(host, capabilities, s, [b]) == StepByte(host, capabilities, s, b)
  {
    assert [b][1..] == [];
  }

  /** A stream, its first byte apart. */
  lemma FeedFirst(host: Host, capabilities: capset, s: State, bytes: seq<byte>)
    ensures bytes == [] ==> FeedBytes(host, capabilities, s, bytes) == Fed(s, [])
    ensures bytes != [] ==>
      var first := StepByte(host, capabilities, s, bytes[0]);
      var rest := FeedBytes(host, capabilities, first.state, bytes[1..]);
      FeedBytes(host, capabilities, s, bytes) == Fed(rest.state, first.actions + rest.actions)
  {}

  // ---------- Chunks ----------

  /** Feeding a concatenation is feeding one part after the other. */
  lemma {:induction false} FeedConcat(host: Host, capabilities: capset, s: State, a: seq<byte>, b: seq<byte>)
    ensures var first := FeedBytes(host, capabilities, s, a);
      var rest := FeedBytes(host, capabilities, first.state, b);
      FeedBytes(host, capabilities, s, a + b) == Fed(rest.state, first.actions + rest.actions)
    decreases |a|
  {
    hide StepByte, FeedBytes;
    FeedFirst(host, capabilities, s, a);
    if a == [] {
      assert a + b == b;
    } else {
      var first := StepByte(host, capabilities, s, a[0]);
      assert (a + b)[0] == a[0] && (a + b)[1..] == a[1..] + b;
      FeedFirst(host, capabilities, s, a + b);
      FeedConcat(host, capabilities, first.state, a[1..], b);
    }
  }

  function Flatten(chunks: seq<seq<byte>>): seq<byte> {
    if chunks == [] then [] else chunks[0] + Flatten(chunks[1..])
  }

  lemma FlattenNothing()
    ensures Flatten([]) == []
  {}

  lemma {:induction false} FlattenMore(chunks: seq<seq<byte>>, i: nat)
    requires i < |chunks|
    ensures Flatten(chunks[..i + 1]) == Flatten(chunks[..i]) + chunks[i]
  {
    if i == 0 {
      assert chunks[..1][1..] == [] && chunks[0] + [] == chunks[0];
    } else {
      assert chunks[..i + 1][1..] == chunks[1..][..i] && chunks[..i][1..] == chunks[1..][..i - 1];
      FlattenMore(chunks[1..], i - 1);
    }
  }

  lemma {:induction false} InvalidForever(host: Host, capabilities: capset, bytes: seq<byte>)
    ensures FeedBytes(host, capabilities, Invalid, bytes) == Fed(Invalid, [])
    decreases |bytes|
  {
    if bytes != [] {
      InvalidForever(host, capabilities, bytes[1..]);
    }
  }

  // ---------- Names ----------

  /** A block without NUL or slash that fits is appended to the name. */
  lemma {:induction false} NameGrows(host: Host, capabilities: capset, s: State, block: seq<byte>)
    requires NameState(s) && NUL !in block && SLASH !in block
    requires |s.name| + |block| <= NAME_MAX + 1
    ensures FeedBytes(host, capabilities, s, block) == Fed(s.(name := s.name + block), [])
    decreases |block|
  {
    if block == [] {
      assert s.name + block == s.name;
    } else {
      var next := s.(name := s.name + [block[0]]);
      assert block[0] in block && StepByte(host, capabilities, s, block[0]) == Fed(next, []);
      assert next.name + block[1..] == s.name + block;
      NameGrows(host, capabilities, next, block[1..]);
    }
  }

  /** A block with a slash, or one that does not fit, ends the connection and does nothing else. */
  lemma {:induction false} NameRefused(host: Host, capabilities: capset, s: State, block: seq<byte>)
    requires NameState(s) && |s.name| <= NAME_MAX + 1
    requires forall i :: 0 <= i < |block| - 1 ==> block[i] != NUL
    requires SLASH in block || |s.name| + |block| > NAME_MAX + 1
    ensures FeedBytes(host, capabilities, s, block) == Fed(Invalid, [])
    decreases |block|
  {
    var next := StepByte(host, capabilities, s, block[0]);
    if next.state.Invalid? {
      InvalidForever(host, capabilities, block[1..]);
    } else {
      assert block[0] != NUL;
      assert block == [block[0]] + block[1..];
      NameRefused(host, capabilities, next.state, block[1..]);
    }
  }

  /** A name followed by NUL completes the message. */
  lemma NameCompletes(host: Host, capabilities: capset, s: State, name: seq<byte>)
    requires NameState(s) && NUL !in name && SLASH !in name
    requires |s.name| + |name| <= NAME_MAX
    ensures FeedBytes(host, capabilities, s, name + [NUL])
         == Fed(Command, Complete(capabilities, s.(name := s.name + name)))
  {
    var full := s.(name := s.name + name);
    NameGrows(host, capabilities, s, name);
    FeedConcat(host, capabilities, s, name, [NUL]);
    assert FeedBytes(host, capabilities, full, [NUL]) == Fed(Command, Complete(capabilities, full));
  }

  // ---------- Capabilities ----------

  /** Every action of a connection has its bit in the connection's set, and an endpoint it creates
      holds a non-empty subset of that set. */
  ghost predicate Permitted(capabilities: capset, a: Action) {
    && Has(capabilities, ActionBit(a))
    && (a.CreateEndpoint? ==>
      && Subset(a.capabilities, capabilities) && a.capabilities != 0
      && 0 < |a.name| <= NAME_MAX && a.name[0] != DOT && SLASH !in a.name && NUL !in a.name)
  }

  /** The right to act on a name was checked when its command byte was read. */
  ghost predicate Entitled(capabilities: capset, s: State) {
    && WellFormed(s)
    && (s.EndpointCapabilities? || s.EndpointName? ==> Has(capabilities, ENDPOINT_CREATE))
    && (s.DaemonName? ==> Has(capabilities, CommandBit(s.command)))
  }

  lemma CommandIsPermitted(capabilities: capset, capability: capset)
    requires Subset(capabilities, CAPSET_ALL) && AtMostOneBit(capability)
    ensures var f := OnCommand(capabilities, capability);
      Entitled(capabilities, f.state) && forall a :: a in f.actions ==> Permitted(capabilities, a)
  {
    if Has(capabilities, capability) {
      SubsetHas(capabilities, CAPSET_ALL, capability);
      OneBitOfAll(capability);
    }
  }

  lemma CompleteIsPermitted(capabilities: capset, s: State)
    requires Entitled(capabilities, s) && NameState(s) && |s.name| <= NAME_MAX
    ensures forall a :: a in Complete(capabilities, s) ==> Permitted(capabilities, a)
  {
    if s.EndpointName? {
      MaskIsSubset(capabilities, s.requested);
    }
  }

  lemma NameByteIsPermitted(capabilities: capset, s: State, b: byte)
    requires Entitled(capabilities, s) && NameState(s)
    ensures var f := OnNameByte(capabilities, s, b);
      Entitled(capabilities, f.state) && forall a :: a in f.actions ==> Permitted(capabilities, a)
  {
    hide Complete, Permitted;
    if |s.name| <= NAME_MAX {
      CompleteIsPermitted(capabilities, s);
    }
  }

  lemma StepIsPermitted(host: Host, capabilities: capset, s: State, b: byte)
    requires host.Valid() && Subset(capabilities, CAPSET_ALL) && Entitled(capabilities, s)
    ensures var f := StepByte(host, capabilities, s, b);
      Entitled(capabilities, f.state) && forall a :: a in f.actions ==> Permitted(capabilities, a)
  {
    if s.Command? {
      CommandIsPermitted(capabilities, host.shift(b));
    } else if NameState(s) {
      NameByteIsPermitted(capabilities, s, b);
    }
  }

  /** Over any stream of bytes. */
  lemma {:induction false} FeedIsPermitted(host: Host, capabilities: capset, s: State, bytes: seq<byte>)
    requires host.Valid() && Subset(capabilities, CAPSET_ALL) && Entitled(capabilities, s)
    ensures var f := FeedBytes(host, capabilities, s, bytes);
      Entitled(capabilities, f.state) && forall a :: a in f.actions ==> Permitted(capabilities, a)
    decreases |bytes|
  {
    if bytes != [] {
      StepIsPermitted(host, capabilities, s, bytes[0]);
      FeedIsPermitted(host, capabilities, StepByte(host, capabilities, s, bytes[0]).state, bytes[1..]);
    }
  }
}
