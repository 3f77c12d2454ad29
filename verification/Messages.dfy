/** The messages `src/cyberctl.c` writes, and what the parser at the other end makes of them. */
module Messages {
  import opened Capabilities
  import opened MessageAutomaton
  import opened ConnectionParser

  datatype Message =
    | EndpointCreate(requested: capset, name: seq<byte>)
    | ToDaemon(command: DaemonCommand, name: seq<byte>)
    | ToSystem(howto: SystemCommand)

  /** The identifier of a command is the index of its capability bit. */
  function DaemonId(command: DaemonCommand): byte {
    match command case Start => 1 case Stop => 2 case Reload => 3 case End => 4
  }

  function SystemId(howto: SystemCommand): byte {
    match howto case Poweroff => 5 case Halt => 6 case Reboot => 7 case Suspend => 8
  }

  function Bit(m: Message): capset {
    match m
    case EndpointCreate(_, _) => ENDPOINT_CREATE
    case ToDaemon(command, _) => CommandBit(command)
    case ToSystem(howto) => HowtoBit(howto)
  }

  /** A name the protocol can carry. */
  predicate Carries(name: seq<byte>) {
    |name| <= NAME_MAX && NUL !in name && SLASH !in name
  }

  predicate Sendable(m: Message) {
    m.ToSystem? || Carries(m.name)
  }

  function Encode(host: Host, m: Message): seq<byte> {
    match m
    case EndpointCreate(requested, name) => [0] + host.Memory(host.Htonl(requested)) + name + [NUL]
    case ToDaemon(command, name) => [DaemonId(command)] + name + [NUL]
    case ToSystem(howto) => [SystemId(howto)]
  }

  function EncodeAll(host: Host, ms: seq<Message>): seq<byte> {
    if ms == [] then [] else Encode(host, ms[0]) + EncodeAll(host, ms[1..])
  }

  // ---------- The encoder ----------

  /** The command table of `initctl_command_id`, indexed by command identifier. */
  const COMMANDS: seq<string> :=
    ["create-endpoint", "start", "stop", "reload", "end", "poweroff", "halt", "reboot", "suspend"]

  function DaemonWord(command: DaemonCommand): string {
    match command case Start => "start" case Stop => "stop" case Reload => "reload" case End => "end"
  }

  function SystemWord(howto: SystemCommand): string {
    match howto case Poweroff => "poweroff" case Halt => "halt" case Reboot => "reboot" case Suspend => "suspend"
  }

  /** `initctl_command_id`: the index of the command in the table, or its length. */
  method CommandId(command: string) returns (id: nat)
    ensures id <= |COMMANDS| && command !in COMMANDS[..id]
    ensures id < |COMMANDS| ==> COMMANDS[id] == command
  {
    id := 0;
    while id < |COMMANDS| && COMMANDS[id] != command
      invariant id <= |COMMANDS| && command !in COMMANDS[..id]
    {
      id := id + 1;
    }
  }

  /** The word typed for a command and the bit the parser checks it against belong together. */
  lemma WordsMatchBits(host: Host, command: DaemonCommand, howto: SystemCommand)
    requires host.Valid()
    ensures COMMANDS[DaemonId(command) as nat] == DaemonWord(command)
    ensures host.shift(DaemonId(command)) == CommandBit(command)
    ensures COMMANDS[SystemId(howto) as nat] == SystemWord(howto) && host.shift(SystemId(howto)) == HowtoBit(howto)
  {
    ShiftOfId(host);
  }

  /** `memcpy` into a message buffer. */
  method Copy(message: array<byte>, offset: nat, bytes: seq<byte>)
    requires offset + |bytes| <= message.Length
    modifies message
    ensures message[..offset] == old(message[..offset])
    ensures message[offset..offset + |bytes|] == bytes
    ensures message[offset + |bytes|..] == old(message[offset + |bytes|..])
  {
    forall i | 0 <= i < |bytes| { message[offset + i] := bytes[i]; }
  }

  /** The message `initctl_endpoint_create` fills in, field by field, and writes. */
  method EncodeEndpointCreate(host: Host, id: byte, capabilities: capset, name: seq<byte>)
    returns (message: array<byte>)
    ensures fresh(message)
    ensures message[..] == [id] + host.Memory(host.Htonl(capabilities)) + name + [NUL]
    ensures id == 0 ==> message[..] == Encode(host, EndpointCreate(capabilities, name))
  {
    message := new byte[1 + 4 + |name| + 1];
    var word := host.Memory(host.Htonl(capabilities));
    message[0] := id;
    Copy(message, 1, word);
    assert message[..5] == [id] + word by {
      assert message[..1] == [id] && message[1..5] == word;
      assert message[..5] == message[..1] + message[1..5];
    }
    Copy(message, 5, name + [NUL]);
    assert 5 + |name + [NUL]| == message.Length;
    assert message[5..message.Length] == name + [NUL];
    TwoParts(message[..], [id] + word, name + [NUL]);
    assert [id] + word + (name + [NUL]) == [id] + word + name + [NUL];
  }

  lemma TwoParts(message: seq<byte>, a: seq<byte>, b: seq<byte>)
    requires |message| == |a| + |b| && message[..|a|] == a && message[|a|..] == b
    ensures message == a + b
  {}

  /** The message `initctl_daemon` fills in and writes. */
  method EncodeDaemon(id: byte, name: seq<byte>) returns (message: array<byte>)
    ensures fresh(message)
    ensures message[..] == [id] + name + [NUL]
    ensures forall host, command :: id == DaemonId(command) ==> message[..] == Encode(host, ToDaemon(command, name))
  {
    message := new byte[1 + |name| + 1];
    message[0] := id;
    Copy(message, 1, name + [NUL]);
    assert message[..] == [message[0]] + message[1..];
    assert message[1..] == name + [NUL];
  }

  // ---------- Decoding what was encoded ----------

  lemma ShiftOfId(host: Host)
    requires host.Valid()
    ensures host.shift(0) == 1 && host.shift(1) == 2 && host.shift(2) == 4
    ensures host.shift(3) == 8 && host.shift(4) == 16 && host.shift(5) == 32
    ensures host.shift(6) == 64 && host.shift(7) == 128 && host.shift(8) == 256
  {}

  /** The effect a message is sent for. A new endpoint is granted what `ntohl` makes of the request,
      masked by the capabilities of the connection. */
  function Effect(host: Host, capabilities: capset, m: Message): seq<Action> {
    match m
    case EndpointCreate(requested, name) => Complete(capabilities, EndpointName(host.Ntohl(requested), name))
    case ToDaemon(command, name) => [OnDaemon(command, name)]
    case ToSystem(howto) => [QueueReboot(howto)]
  }

  function Effects(host: Host, capabilities: capset, ms: seq<Message>): seq<Action> {
    if ms == [] then [] else Effect(host, capabilities, ms[0]) + Effects(host, capabilities, ms[1..])
  }

  /** The four bytes after the command byte give the requested word back. */
  lemma FeedCapabilityWord(host: Host, capabilities: capset, requested: capset)
    ensures FeedBytes(host, capabilities, EndpointCapabilities(0, 0), host.Memory(host.Htonl(requested)))
         == Fed(EndpointName(host.Ntohl(requested), []), [])
  {
    hide Byte, Append, SwapBytes;
    HtonlIsBigEndian(host, requested);
    AppendRoundTrip(requested);
    var b := host.Memory(host.Htonl(requested));
    var w1 := Append(0, b[0]);
    var w2 := Append(w1, b[1]);
    var w3 := Append(w2, b[2]);
    assert b[1..] == [b[1], b[2], b[3]] && b[1..][1..] == [b[2], b[3]] && b[1..][1..][1..] == [b[3]];
    StepIsFeed(host, capabilities, EndpointCapabilities(w3, 3), b[3]);
    var named := Fed(EndpointName(host.Ntohl(requested), []), []);
    assert FeedBytes(host, capabilities, EndpointCapabilities(w2, 2), [b[2], b[3]]) == named;
    assert FeedBytes(host, capabilities, EndpointCapabilities(w1, 1), [b[1], b[2], b[3]]) == named;
  }

  /** The command byte of a permitted message opens the message. */
  lemma FeedCommandByte(host: Host, capabilities: capset, m: Message)
    requires host.Valid() && Has(capabilities, Bit(m))
    ensures match m
      case EndpointCreate(_, _) => StepByte(host, capabilities, Command, 0) == Fed(EndpointCapabilities(0, 0), [])
      case ToDaemon(command, _) =>
        StepByte(host, capabilities, Command, DaemonId(command)) == Fed(DaemonName(command, []), [])
      case ToSystem(howto) =>
        StepByte(host, capabilities, Command, SystemId(howto)) == Fed(Command, [QueueReboot(howto)])
  {
    hide Host.Valid;
    ShiftOfId(host);
  }

  lemma FeedName(host: Host, capabilities: capset, s: State, name: seq<byte>)
    requires NameState(s) && s.name == [] && Carries(name)
    ensures FeedBytes(host, capabilities, s, name + [NUL]) == Fed(Command, Complete(capabilities, s.(name := name)))
  {
    NameCompletes(host, capabilities, s, name);
    assert s.name + name == name;
  }

  /** One permitted message, encoded and fed, has its effect and leaves the parser ready. */
  lemma Decodes(host: Host, capabilities: capset, m: Message)
    requires host.Valid() && Has(capabilities, Bit(m)) && Sendable(m)
    ensures FeedBytes(host, capabilities, Command, Encode(host, m)) == Fed(Command, Effect(host, capabilities, m))
  {
    hide StepByte, FeedBytes, Creates;
    FeedCommandByte(host, capabilities, m);
    match m
    case EndpointCreate(requested, name) =>
      var word := host.Memory(host.Htonl(requested));
      StepIsFeed(host, capabilities, Command, 0);
      FeedCapabilityWord(host, capabilities, requested);
      FeedName(host, capabilities, EndpointName(host.Ntohl(requested), []), name);
      FeedConcat(host, capabilities, EndpointCapabilities(0, 0), word, name + [NUL]);
      FeedConcat(host, capabilities, Command, [0], word + (name + [NUL]));
      assert Encode(host, m) == [0] + (word + (name + [NUL]));
    case ToDaemon(command, name) =>
      StepIsFeed(host, capabilities, Command, DaemonId(command));
      FeedName(host, capabilities, DaemonName(command, []), name);
      FeedConcat(host, capabilities, Command, [DaemonId(command)], name + [NUL]);
      assert Encode(host, m) == [DaemonId(command)] + (name + [NUL]);
    case ToSystem(howto) =>
      StepIsFeed(host, capabilities, Command, SystemId(howto));
  }

  /** Any list of permitted messages is replayed exactly, in order, and leaves the parser ready. */
  lemma {:induction false} Replays(host: Host, capabilities: capset, ms: seq<Message>)
    requires host.Valid()
    requires forall m :: m in ms ==> Has(capabilities, Bit(m)) && Sendable(m)
    ensures FeedBytes(host, capabilities, Command, EncodeAll(host, ms)) == Fed(Command, Effects(host, capabilities, ms))
  {
    hide FeedBytes, Has, Sendable, Encode, Effect;
    if ms == [] {
      FeedNothing(host, capabilities, Command);
    } else {
      assert ms[0] in ms;
      Decodes(host, capabilities, ms[0]);
      Replays(host, capabilities, ms[1..]);
      FeedConcat(host, capabilities, Command, Encode(host, ms[0]), EncodeAll(host, ms[1..]));
    }
  }

  /** A message outside the capabilities of the connection ends it: whatever follows, only the
      messages before it have had an effect. */
  lemma RefusedMessageEndsConnection(host: Host, capabilities: capset, ms: seq<Message>, m: Message, rest: seq<byte>)
    requires host.Valid()
    requires forall x :: x in ms ==> Has(capabilities, Bit(x)) && Sendable(x)
    requires !Has(capabilities, Bit(m))
    ensures FeedBytes(host, capabilities, Command, EncodeAll(host, ms) + Encode(host, m) + rest)
         == Fed(Invalid, Effects(host, capabilities, ms))
  {
    hide FeedBytes, Effects, EncodeAll, Sendable;
    Replays(host, capabilities, ms);
    RefusedByte(host, capabilities, m);
    var tail := Encode(host, m)[1..] + rest;
    assert Encode(host, m) == [Encode(host, m)[0]] + Encode(host, m)[1..];
    assert EncodeAll(host, ms) + Encode(host, m) + rest == EncodeAll(host, ms) + ([Encode(host, m)[0]] + tail);
    StepIsFeed(host, capabilities, Command, Encode(host, m)[0]);
    FeedConcat(host, capabilities, Command, [Encode(host, m)[0]], tail);
    InvalidForever(host, capabilities, tail);
    FeedConcat(host, capabilities, Command, EncodeAll(host, ms), [Encode(host, m)[0]] + tail);
  }

  lemma RefusedByte(host: Host, capabilities: capset, m: Message)
    requires host.Valid() && !Has(capabilities, Bit(m))
    ensures StepByte(host, capabilities, Command, Encode(host, m)[0]) == Fed(Invalid, [])
  {
    hide Host.Valid;
    ShiftOfId(host);
  }

  /** The same of the parser itself, in the hands of the connection: however the stream is cut into
      the pieces `read` returns, the calls it makes are the effects of the messages, in order. */
  method FeedMessages(parser: Parser, ghost ms: seq<Message>, chunks: seq<seq<byte>>)
    requires parser.Valid() && parser.Abstract() == Command
    requires forall m :: m in ms ==> Has(parser.capabilities, Bit(m)) && Sendable(m)
    requires Flatten(chunks) == EncodeAll(parser.host, ms)
    modifies parser, parser.buf
    ensures parser.Valid() && parser.Abstract() == Command
    ensures parser.actions == old(parser.actions) + Effects(parser.host, parser.capabilities, ms)
  {
    hide FeedBytes, Effects, EncodeAll, Flatten, Has, Sendable;
    Replays(parser.host, parser.capabilities, ms);
    parser.FeedChunks(chunks);
  }

  // ---------- What the documentation says of names ----------

  /** `docs/endpoints.md` asks for names of more than zero and less than NAME_MAX bytes. The parser
      takes a NUL-terminated name if and only if it has at most NAME_MAX bytes and no slash. */
  lemma NameTakenIff(host: Host, capabilities: capset, s: State, name: seq<byte>)
    requires NameState(s) && s.name == [] && NUL !in name
    ensures var taken := Fed(Command, Complete(capabilities, s.(name := name)));
      FeedBytes(host, capabilities, s, name + [NUL]) == taken <==> |name| <= NAME_MAX && SLASH !in name
    ensures FeedBytes(host, capabilities, s, name + [NUL]) == Fed(Invalid, []) <==>
      |name| > NAME_MAX || SLASH in name
  {
    hide FeedBytes, Complete;
    if Carries(name) {
      FeedName(host, capabilities, s, name);
    } else {
      assert SLASH in name ==> SLASH in name + [NUL];
      NameRefused(host, capabilities, s, name + [NUL]);
    }
  }

  /** Two names outside the documented range: the empty one and the longest one. */
  lemma NamesBeyondTheDocument(host: Host, capabilities: capset, command: DaemonCommand, longest: seq<byte>)
    requires |longest| == NAME_MAX && NUL !in longest && SLASH !in longest
    ensures FeedBytes(host, capabilities, DaemonName(command, []), [NUL]) == Fed(Command, [OnDaemon(command, [])])
    ensures FeedBytes(host, capabilities, DaemonName(command, []), longest + [NUL])
         == Fed(Command, [OnDaemon(command, longest)])
  {
    hide FeedBytes;
    NameTakenIff(host, capabilities, DaemonName(command, []), []);
    NameTakenIff(host, capabilities, DaemonName(command, []), longest);
    assert [] + [NUL] == [NUL];
  }

  /** The document puts a name after the poweroff command. The parser reads none: whatever follows
      the command is read as further commands. */
  lemma PoweroffTakesNoName(host: Host, capabilities: capset, rest: seq<byte>)
    requires host.Valid() && Has(capabilities, SYSTEM_POWEROFF)
    ensures var f := FeedBytes(host, capabilities, Command, rest);
      FeedBytes(host, capabilities, Command, [5] + rest) == Fed(f.state, [QueueReboot(Poweroff)] + f.actions)
  {
    hide FeedBytes, StepByte;
    FeedCommandByte(host, capabilities, ToSystem(Poweroff));
    StepIsFeed(host, capabilities, Command, 5);
    FeedConcat(host, capabilities, Command, [5], rest);
  }

  // ---------- The byte order of the capability word ----------

  /** `docs/endpoints.md` gives the capability word as big-endian, and so does the encoder. The
      parser assembles it big-endian and then swaps it again on a little-endian machine. A peer may
      send any word: the effect is the one asked for if and only if the machine is big-endian, or the
      name creates nothing anyway, or the connection holds the same of both words. */
  lemma EndpointGrantedIff(host: Host, capabilities: capset, requested: capset, name: seq<byte>)
    ensures var asked := Complete(capabilities, EndpointName(requested, name));
      Effect(host, capabilities, EndpointCreate(requested, name)) == asked <==>
      || host.bigEndian || name == [] || name[0] == DOT
      || capabilities & SwapBytes(requested) == capabilities & requested
  {
    hide SwapBytes, Complete;
    CompleteByGrant(capabilities, requested, name);
    CompleteByGrant(capabilities, SwapBytes(requested), name);
  }

  /** What is created depends on the word only through what is granted of it. */
  lemma CompleteByGrant(capabilities: capset, requested: capset, name: seq<byte>)
    ensures name == [] || name[0] == DOT ==> Complete(capabilities, EndpointName(requested, name)) == []
    ensures name != [] && name[0] != DOT ==>
      Complete(capabilities, EndpointName(requested, name))
        == if capabilities & requested != 0 then [CreateEndpoint(name, capabilities & requested)] else []
  {}

  /** A word of capabilities that exist, as the encoder sends it: an endpoint with the requested
      capabilities is created if and only if the machine is big-endian, and otherwise none at all. */
  lemma EndpointGrantedIffBigEndian(host: Host, capabilities: capset, requested: capset, name: seq<byte>)
    requires Subset(capabilities, CAPSET_ALL) && Subset(requested, CAPSET_ALL)
    requires Creates(capabilities, requested, name)
    ensures var asked := [CreateEndpoint(name, capabilities & requested)];
      Effect(host, capabilities, EndpointCreate(requested, name)) == asked <==> host.bigEndian
    ensures !host.bigEndian ==> Effect(host, capabilities, EndpointCreate(requested, name)) == []
  {
    if !host.bigEndian {
      SwappedGrantsNothing(capabilities, requested);
    }
  }

  lemma SwappedGrantsNothing(capabilities: capset, requested: capset)
    requires Subset(capabilities, CAPSET_ALL) && Subset(requested, CAPSET_ALL)
    ensures capabilities & SwapBytes(requested) == 0
  {}

  /** Two words with a bit outside the capabilities that exist, on a little-endian machine: one that
      is granted as asked, and one that asks for nothing there is and creates an endpoint. */
  lemma WordsBeyondCapabilities(host: Host, name: seq<byte>)
    requires !host.bigEndian && name != [] && name[0] != DOT
    ensures Effect(host, CAPSET_ALL, EndpointCreate(0x0100_0001, name))
         == [CreateEndpoint(name, CAPSET_ALL & 0x0100_0001)]
    ensures CAPSET_ALL & 0x0100_0000 == 0
    ensures Effect(host, CAPSET_ALL, EndpointCreate(0x0100_0000, name)) == [CreateEndpoint(name, ENDPOINT_CREATE)]
  {
    assert SwapBytes(0x0100_0001) == 0x0100_0001 && SwapBytes(0x0100_0000) == 1;
    assert CAPSET_ALL & 0x0100_0001 == 1 && CAPSET_ALL & 1 == 1;
    hide SwapBytes;
    CompleteByGrant(CAPSET_ALL, 0x0100_0001, name);
    CompleteByGrant(CAPSET_ALL, 1, name);
  }
}
