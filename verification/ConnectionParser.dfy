/** The parser of `src/cyberd/socket_connection_node.c`, fed chunks of any size, refines the
    one-byte-at-a-time automaton. */
module ConnectionParser {
  import opened Capabilities
  import opened MessageAutomaton

  datatype ParserState =
    | COMMAND
    | ENDPOINT_CREATE_CAPABILITIES
    | ENDPOINT_CREATE_NAME
    | DAEMON_NAME(command: DaemonCommand)
    | INVALID

  /** `memchr`: the offset of the first `c` in `s`, or the length of `s` if there is none. */
  method MemChr(s: seq<byte>, c: byte) returns (i: nat)
    ensures i <= |s| && c !in s[..i]
    ensures i < |s| ==> s[i] == c
  {
    i := 0;
    while i < |s| && s[i] != c
      invariant i <= |s| && c !in s[..i]
    {
      i := i + 1;
    }
  }

  class Parser {
    const host: Host
    const capabilities: capset
    var state: ParserState
    var word: bv32
    var size: nat
    var requested: capset
    var len: nat
    const buf: array<byte>
    /** The calls made into the rest of the program, in order. */
    var actions: seq<Action>

    constructor (host: Host, capabilities: capset)
      requires host.Valid() && Subset(capabilities, CAPSET_ALL)
      ensures Valid() && fresh(buf)
      ensures this.host == host && this.capabilities == capabilities
      ensures Abstract() == Command && actions == []
    {
      this.host, this.capabilities := host, capabilities;
      state, actions := COMMAND, [];
      word, size, requested, len := 0, 0, 0, 0;
      buf := new byte[NAME_MAX + 1];
    }

    ghost predicate Valid()
      reads this, buf
    {
      && host.Valid() && Subset(capabilities, CAPSET_ALL)
      && buf.Length == NAME_MAX + 1 && len <= buf.Length
      && Entitled(capabilities, Abstract())
    }

    /** The state of the automaton; what is left in the buffer of a dead connection is ignored. */
    ghost function Abstract(): State
      reads this, buf
      requires len <= buf.Length
    {
      match state
      case COMMAND => Command
      case ENDPOINT_CREATE_CAPABILITIES => EndpointCapabilities(word, size)
      case ENDPOINT_CREATE_NAME => EndpointName(requested, buf[..len])
      case DAEMON_NAME(command) => DaemonName(command, buf[..len])
      case INVALID => Invalid
    }

    /** `parser_feed_command`. The default of its switch, an abort, is dead. */
    method FeedCommand(capability: capset)
      requires Valid() && state == COMMAND && AtMostOneBit(capability)
      modifies this`state, this`word, this`size, this`len, this`actions
      ensures Valid()
      ensures var f := OnCommand(capabilities, capability);
        Abstract() == f.state && actions == old(actions) + f.actions
    {
      CommandIsPermitted(capabilities, capability);
      if Has(capabilities, capability) {
        SubsetHas(capabilities, CAPSET_ALL, capability);
        OneBitOfAll(capability);
        if capability == ENDPOINT_CREATE {
          state, word, size := ENDPOINT_CREATE_CAPABILITIES, 0, 0;
        } else if capability == DAEMON_START {
          state, len := DAEMON_NAME(Start), 0;
        } else if capability == DAEMON_STOP {
          state, len := DAEMON_NAME(Stop), 0;
        } else if capability == DAEMON_RELOAD {
          state, len := DAEMON_NAME(Reload), 0;
        } else if capability == DAEMON_END {
          state, len := DAEMON_NAME(End), 0;
        } else if capability == SYSTEM_POWEROFF {
          actions := actions + [QueueReboot(Poweroff)];
        } else if capability == SYSTEM_HALT {
          actions := actions + [QueueReboot(Halt)];
        } else if capability == SYSTEM_REBOOT {
          actions := actions + [QueueReboot(Reboot)];
        } else if capability == SYSTEM_SUSPEND {
          actions := actions + [QueueReboot(Suspend)];
        } else {
          assert false;
        }
      } else {
        state := INVALID;
      }
    }

    /** `name_fill`, with line 122 read as a decrement. The rest of the chunk is `buffer[pos..]`,
        of which `count` bytes are left; at most the bytes up to and including the first NUL are
        taken. */
    method NameFill(buffer: seq<byte>, pos: nat, count: nat)
      returns (filled: bool, ghost block: seq<byte>, newPos: nat, newCount: nat)
      requires pos + count == |buffer| && count > 0
      requires buf.Length == NAME_MAX + 1 && len <= buf.Length
      modifies this`len, buf
      ensures block <= buffer[pos..] && 0 < |block|
      ensures forall i :: 0 <= i < |block| - 1 ==> block[i] != NUL
      ensures newPos + newCount == |buffer|
      ensures filled <==> old(len) + |block| <= NAME_MAX + 1 && SLASH !in block
      ensures filled ==>
        && newPos == pos + |block| && len == old(len) + |block|
        && buf[..len] == old(buf[..len]) + block
        && (block[|block| - 1] == NUL || newCount == 0)
      ensures !filled ==> newPos == pos && newCount == count && len == old(len) && buf[..] == old(buf[..])
    {
      var nul := MemChr(buffer[pos..], NUL);
      var taken := if nul < count then nul + 1 else count;
      block := buffer[pos..][..taken];
      var slash := MemChr(buffer[pos..][..taken], SLASH);
      newPos, newCount := pos, count;
      if len + taken > NAME_MAX + 1 || slash < taken {
        filled := false;
      } else {
        assert block[..taken] == block;
        forall i | 0 <= i < taken { buf[len + i] := buffer[pos + i]; }
        len := len + taken;
        newCount := count - taken;
        newPos := pos + taken;
        filled := true;
        assert buf[..len] == old(buf[..len]) + block;
      }
    }

    /** The end of `parser_feed_endpoint_create_name`, once the buffer ends with NUL. */
    method FinishEndpointName(ghost named: State)
      requires buf.Length == NAME_MAX + 1 && 0 < len <= buf.Length && buf[len - 1] == NUL
      requires NUL !in buf[..len - 1]
      requires state == ENDPOINT_CREATE_NAME && named == EndpointName(requested, buf[..len - 1])
      modifies this`state, this`actions
      ensures state == COMMAND && actions == old(actions) + Complete(capabilities, named)
    {
      var granted := capabilities & requested;
      var creates := granted != 0 && buf[0] != NUL && buf[0] != DOT;
      assert creates == Creates(capabilities, requested, named.name) by {
        if len > 1 { assert buf[..len - 1][0] == buf[0]; }
      }
      CreateWhenGranted(named, creates, granted);
      state := COMMAND;
    }

    /** Calls `socket_endpoint_node_create` or does nothing. */
    method CreateWhenGranted(ghost named: State, creates: bool, granted: capset)
      requires buf.Length == NAME_MAX + 1 && 0 < len <= buf.Length
      requires named.EndpointName? && named.name == buf[..len - 1]
      requires granted == capabilities & named.requested
      requires creates == Creates(capabilities, named.requested, named.name)
      modifies this`actions
      ensures actions == old(actions) + Complete(capabilities, named)
    {
      hide Creates;
      if creates {
        actions := actions + [CreateEndpoint(buf[..len - 1], granted)];
      }
    }

    /** The end of `parser_feed_daemon_name`, once the buffer ends with NUL. */
    method FinishDaemonName(ghost named: State)
      requires buf.Length == NAME_MAX + 1 && 0 < len <= buf.Length
      requires state.DAEMON_NAME? && named == DaemonName(state.command, buf[..len - 1])
      modifies this`state, this`actions
      ensures state == COMMAND && actions == old(actions) + Complete(capabilities, named)
    {
      actions := actions + [OnDaemon(state.command, buf[..len - 1])];
      state := COMMAND;
    }

    /** `parser_feed_endpoint_create_name` and `parser_feed_daemon_name`: take a block of a name
        and, if that ends it, act. */
    method FeedName(buffer: seq<byte>, pos: nat, count: nat)
      returns (ghost block: seq<byte>, newPos: nat, newCount: nat)
      requires Valid() && NameState(Abstract())
      requires pos + count == |buffer| && count > 0
      modifies this`state, this`len, this`actions, buf
      ensures Valid() && newPos + newCount == |buffer|
      ensures block <= buffer[pos..]
      ensures var f := FeedBytes(host, capabilities, old(Abstract()), block);
        Abstract() == f.state && actions == old(actions) + f.actions
      ensures (newPos == pos + |block| && newCount < count) || (Abstract() == Invalid && newCount == count)
    {
      hide FeedBytes, Complete, OnNameByte, Subset;
      ghost var before := Abstract();
      var filled;
      filled, block, newPos, newCount := NameFill(buffer, pos, count);
      FeedIsPermitted(host, capabilities, before, block);
      if !filled {
        NameRefused(host, capabilities, before, block);
        state := INVALID;
      } else if buf[len - 1] == NUL {
        ghost var name := block[..|block| - 1];
        assert block == name + [NUL];
        NameCompletes(host, capabilities, before, name);
        assert buf[..len - 1] == before.name + name;
        ghost var named := before.(name := before.name + name);
        if state == ENDPOINT_CREATE_NAME {
          FinishEndpointName(named);
        } else {
          FinishDaemonName(named);
        }
      } else {
        NameGrows(host, capabilities, before, block);
      }
    }

    /** The state and the calls are those of the automaton after `bytes`. */
    ghost predicate Reached(from: State, before: seq<Action>, bytes: seq<byte>)
      reads this, buf
      requires len <= buf.Length
    {
      var f := FeedBytes(host, capabilities, from, bytes);
      Abstract() == f.state && actions == before + f.actions
    }

    lemma ReachedMore(from: State, before: seq<Action>, last: State, done: seq<Action>, bytes: seq<byte>,
                      block: seq<byte>)
      requires len <= buf.Length
      requires FeedBytes(host, capabilities, from, bytes).state == last
      requires done == before + FeedBytes(host, capabilities, from, bytes).actions
      requires Reached(last, done, block)
      ensures Reached(from, before, bytes + block)
    {
      hide FeedBytes;
      FeedConcat(host, capabilities, from, bytes, block);
    }

    /** The capability word arrives one byte at a time, the most significant first. */
    method FeedCapabilityByte(b: byte)
      requires Valid() && state == ENDPOINT_CREATE_CAPABILITIES
      modifies this`state, this`word, this`size, this`requested, this`len
      ensures Valid() && Abstract() == OnCapabilityByte(host, old(word), old(size), b)
    {
      word, size := Append(word, b), size + 1;
      if size == 4 {
        state, requested, len := ENDPOINT_CREATE_NAME, host.Ntohl(word), 0;
      }
    }

    /** One round of the loop of `parser_feed`. A dead connection drops the rest of the chunk; a
        refused name leaves it for the next round. */
    method FeedSome(buffer: seq<byte>, pos: nat, count: nat)
      returns (ghost block: seq<byte>, newPos: nat, newCount: nat)
      requires Valid() && pos + count == |buffer| && count > 0
      modifies this`state, this`word, this`size, this`requested, this`len, this`actions, buf
      ensures Valid() && newPos + newCount == |buffer|
      ensures block <= buffer[pos..]
      ensures var f := FeedBytes(host, capabilities, old(Abstract()), block);
        Abstract() == f.state && actions == old(actions) + f.actions
      ensures (newPos == pos + |block| && newCount < count)
           || (Abstract() == Invalid != old(Abstract()) && newCount == count)
    {
      hide FeedBytes, OnCommand, OnCapabilityByte, OnNameByte, Subset;
      ghost var last := Abstract();
      block, newPos, newCount := [buffer[pos]], pos + 1, count - 1;
      match state
      case COMMAND =>
        host.ShiftIsBit(buffer[pos]);
        FeedCommand(host.shift(buffer[pos]));
        StepIsFeed(host, capabilities, last, buffer[pos]);
      case ENDPOINT_CREATE_CAPABILITIES =>
        FeedCapabilityByte(buffer[pos]);
        StepIsFeed(host, capabilities, last, buffer[pos]);
        assert actions + [] == actions;
      case ENDPOINT_CREATE_NAME =>
        block, newPos, newCount := FeedName(buffer, pos, count);
      case DAEMON_NAME(_) =>
        block, newPos, newCount := FeedName(buffer, pos, count);
      case INVALID =>
        block, newPos, newCount := buffer[pos..], pos + count, 0;
        InvalidForever(host, capabilities, block);
        assert actions + [] == actions;
    }

    /** In the middle of a chunk: `fed` bytes have had their effect. `pos` runs ahead of them only once
        the connection is dead. */
    ghost predicate Progress(from: State, before: seq<Action>, buffer: seq<byte>, pos: nat, count: nat, fed: nat)
      reads this, buf
    {
      && Valid() && pos + count == |buffer| && fed <= |buffer|
      && (fed == pos || Abstract() == Invalid)
      && Reached(from, before, buffer[..fed])
    }

    lemma ChunkBegins(buffer: seq<byte>)
      requires Valid()
      ensures Progress(Abstract(), actions, buffer, 0, |buffer|, 0)
    {
      FeedNothing(host, capabilities, Abstract());
      assert buffer[..0] == [] && actions + [] == actions;
    }

    lemma ChunkEnds(from: State, before: seq<Action>, buffer: seq<byte>, pos: nat, fed: nat)
      requires Progress(from, before, buffer, pos, 0, fed)
      ensures len <= buf.Length && Reached(from, before, buffer)
    {
      if fed < |buffer| {
        InvalidForever(host, capabilities, buffer[fed..]);
        assert actions + [] == actions;
        ReachedMore(from, before, Abstract(), actions, buffer[..fed], buffer[fed..]);
      }
      assert buffer[..fed] + buffer[fed..] == buffer && buffer[..|buffer|] == buffer;
    }

    /** The loop of `parser_feed`, once around. Every call it makes is one the connection may make. */
    method FeedMore(buffer: seq<byte>, pos: nat, count: nat, ghost from: State, ghost before: seq<Action>,
                    ghost fed: nat)
      returns (newPos: nat, newCount: nat, ghost newFed: nat)
      requires Progress(from, before, buffer, pos, count, fed) && count > 0
      modifies this`state, this`word, this`size, this`requested, this`len, this`actions, buf
      ensures Progress(from, before, buffer, newPos, newCount, newFed)
      ensures newCount < count || (newCount == count && old(state) != INVALID == state)
      ensures old(actions) <= actions
      ensures forall a :: a in actions[|old(actions)|..] ==> Permitted(capabilities, a)
    {
      hide FeedBytes, Entitled, Subset, Permitted;
      ghost var block;
      ghost var last, done := Abstract(), actions;
      block, newPos, newCount := FeedSome(buffer, pos, count);
      FeedIsPermitted(host, capabilities, last, block);
      assert actions[|done|..] == FeedBytes(host, capabilities, last, block).actions;
      newFed := fed;
      if last == Invalid {
        InvalidForever(host, capabilities, block);
      } else {
        assert buffer[..fed] + block == buffer[..fed + |block|];
        ReachedMore(from, before, last, done, buffer[..fed], block);
        newFed := fed + |block|;
      }
    }

    /** `parser_feed`: a chunk has the effect of its bytes fed one at a time. */
    method Feed(buffer: seq<byte>)
      requires Valid()
      modifies this`state, this`word, this`size, this`requested, this`len, this`actions, buf
      ensures Valid()
      ensures var f := FeedBytes(host, capabilities, old(Abstract()), buffer);
        Abstract() == f.state && actions == old(actions) + f.actions
    {
      hide FeedBytes, Entitled, Subset;
      var pos: nat, count: nat := 0, |buffer|;
      ghost var from, before := Abstract(), actions;
      ghost var fed: nat := 0;
      ChunkBegins(buffer);
      while count != 0
        invariant Progress(from, before, buffer, pos, count, fed)
        decreases count, state != INVALID
      {
        pos, count, fed := FeedMore(buffer, pos, count, from, before, fed);
      }
      ChunkEnds(from, before, buffer, pos, fed);
      assert Reached(from, before, buffer);
    }

    /** The chunks of a connection, one call of `parser_feed` each: however the stream is cut, the
        state and the calls are those of its bytes one at a time. */
    method FeedChunks(chunks: seq<seq<byte>>)
      requires Valid()
      modifies this`state, this`word, this`size, this`requested, this`len, this`actions, buf
      ensures Valid()
      ensures var f := FeedBytes(host, capabilities, old(Abstract()), Flatten(chunks));
        Abstract() == f.state && actions == old(actions) + f.actions
    {
      hide FeedBytes, Flatten, Entitled, Subset;
      ghost var from, before := Abstract(), actions;
      FlattenNothing();
      FeedNothing(host, capabilities, from);
      assert chunks[..0] == [] && actions + [] == actions;
      var i := 0;
      while i < |chunks|
        invariant 0 <= i <= |chunks| && Valid()
        invariant Reached(from, before, Flatten(chunks[..i]))
      {
        ghost var last, done := Abstract(), actions;
        Feed(chunks[i]);
        FlattenMore(chunks, i);
        ReachedMore(from, before, last, done, Flatten(chunks[..i]), chunks[i]);
        i := i + 1;
      }
      assert chunks[..|chunks|] == chunks;
    }
  }
}
