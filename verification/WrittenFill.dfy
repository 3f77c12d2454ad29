/** `name_fill` as `src/cyberd/socket_connection_node.c` has it: line 122 adds the bytes taken to
    the number of bytes left, where the other branches of the parser (lines 178, 189 and 200)
    subtract them. This module follows that line, and says exactly when it makes a difference. */
module WrittenFill {
  import opened Capabilities
  import opened MessageAutomaton

  /** A chunk is consumed, or the parser reads past the end of it. */
  datatype Outcome = Overread | Done(fed: Fed)

  /** The position of the first NUL, or the length if there is none. */
  function IndexOfNul(s: seq<byte>): (i: nat)
    ensures i <= |s| && NUL !in s[..i] && (i < |s| ==> s[i] == NUL)
  {
    if s == [] || s[0] == NUL then 0
    else
      var i := 1 + IndexOfNul(s[1..]);
      assert s[..i] == [s[0]] + s[1..][..i - 1];
      i
  }

  /** The bytes `name_fill` would take, given how many it believes are left. */
  function Block(rest: seq<byte>, count: nat): (block: seq<byte>)
    requires 0 < count && (count <= |rest| || IndexOfNul(rest) < |rest|)
    ensures block <= rest && (rest != [] ==> block != [])
    ensures forall i :: 0 <= i < |block| - 1 ==> block[i] != NUL
  {
    var nul := IndexOfNul(rest);
    assert forall i :: 0 <= i < nul ==> rest[i] in rest[..nul];
    rest[..if nul < count then nul + 1 else count]
  }

  predicate Refused(s: State, block: seq<byte>)
    requires NameState(s)
  {
    SLASH in block || |s.name| + |block| > NAME_MAX + 1
  }

  /** `parser_feed` from `buffer[pos]` on, when `count` bytes are believed to be left. */
  function FeedWritten(host: Host, capabilities: capset, s: State, buffer: seq<byte>, pos: nat, count: nat): Outcome
    requires pos <= |buffer|
    decreases |buffer| - pos
  {
    var rest := buffer[pos..];
    if count == 0 then Done(Fed(s, []))
    else if s.Invalid? then Done(Fed(Invalid, []))
    else if rest == [] then Overread
    else if !NameState(s) then
      var f := StepByte(host, capabilities, s, rest[0]);
      Before(f.actions, FeedWritten(host, capabilities, f.state, buffer, pos + 1, count - 1))
    else if count > |rest| == IndexOfNul(rest) then Overread
    else
      var block := Block(rest, count);
      if Refused(s, block) then Done(Fed(Invalid, []))
      else
        var f := FeedBytes(host, capabilities, s, block);
        Before(f.actions, FeedWritten(host, capabilities, f.state, buffer, pos + |block|, count + |block|))
  }

  function Before(actions: seq<Action>, o: Outcome): Outcome {
    match o
    case Overread => Overread
    case Done(f) => Done(Fed(f.state, actions + f.actions))
  }

  lemma StepStaysShort(host: Host, capabilities: capset, s: State, b: byte)
    requires !NameState(s)
    ensures var u := StepByte(host, capabilities, s, b).state; NameState(u) ==> u.name == []
  {}

  /** The line never makes the parser do the wrong thing: it either reads past the chunk or has
      exactly the effect of the bytes. */
  lemma {:induction false} WrittenNeverWrong(host: Host, capabilities: capset, s: State, buffer: seq<byte>, pos: nat,
                                             count: nat)
    requires pos <= |buffer| <= pos + count
    requires NameState(s) ==> |s.name| <= NAME_MAX + 1
    ensures var o := FeedWritten(host, capabilities, s, buffer, pos, count);
      o.Done? ==> o.fed == FeedBytes(host, capabilities, s, buffer[pos..])
    decreases |buffer| - pos
  {
    hide StepByte, IndexOfNul, Block, FeedBytes;
    var rest := buffer[pos..];
    FeedFirst(host, capabilities, s, rest);
    if s.Invalid? {
      InvalidForever(host, capabilities, rest);
    } else if count > 0 && rest != [] {
      if !NameState(s) {
        assert rest[1..] == buffer[pos + 1..];
        StepStaysShort(host, capabilities, s, rest[0]);
        WrittenNeverWrong(host, capabilities, StepByte(host, capabilities, s, rest[0]).state, buffer, pos + 1,
                          count - 1);
      } else if !(count > |rest| == IndexOfNul(rest)) {
        var block := Block(rest, count);
        assert rest == block + rest[|block|..] && rest[|block|..] == buffer[pos + |block|..];
        FeedConcat(host, capabilities, s, block, rest[|block|..]);
        if Refused(s, block) {
          NameRefused(host, capabilities, s, block);
          InvalidForever(host, capabilities, rest[|block|..]);
        } else {
          NameStaysShort(host, capabilities, s, block);
          WrittenNeverWrong(host, capabilities, FeedBytes(host, capabilities, s, block).state, buffer, pos + |block|,
                            count + |block|);
        }
      }
    }
  }

  lemma {:induction false} NameStaysShort(host: Host, capabilities: capset, s: State, block: seq<byte>)
    requires NameState(s) ==> |s.name| <= NAME_MAX + 1
    ensures var u := FeedBytes(host, capabilities, s, block).state; NameState(u) ==> |u.name| <= NAME_MAX + 1
    decreases |block|
  {
    if block != [] {
      NameStaysShort(host, capabilities, StepByte(host, capabilities, s, block[0]).state, block[1..]);
    }
  }

  /** Some byte of the chunk arrives while a name is being read. */
  predicate NameByteIn(host: Host, capabilities: capset, s: State, bytes: seq<byte>)
    decreases |bytes|
  {
    && bytes != []
    && (NameState(s) || NameByteIn(host, capabilities, StepByte(host, capabilities, s, bytes[0]).state, bytes[1..]))
  }

  /** After an earlier name of the chunk (`late`), a name is to be read while no NUL follows in the
      chunk: the search for its end leaves the chunk. */
  predicate LateOpen(host: Host, capabilities: capset, s: State, bytes: seq<byte>, late: bool)
    decreases |bytes|
  {
    && bytes != [] && !s.Invalid?
    && if late && NameState(s) && NUL !in bytes then true
       else
         var u := StepByte(host, capabilities, s, bytes[0]).state;
         LateOpen(host, capabilities, u, bytes[1..], late || (NameState(s) && bytes[0] == NUL))
  }

  /** A chunk the line gets right: it has no byte of a name, or it ends the connection, and not
      after a name whose end was looked for behind the chunk. */
  predicate Forgiven(host: Host, capabilities: capset, s: State, bytes: seq<byte>) {
    || !NameByteIn(host, capabilities, s, bytes)
    || (FeedBytes(host, capabilities, s, bytes).state == Invalid && !LateOpen(host, capabilities, s, bytes, false))
  }

  lemma LateFirst(host: Host, capabilities: capset, s: State, bytes: seq<byte>, late: bool)
    requires bytes != [] && !s.Invalid? && !(late && NameState(s) && NUL !in bytes)
    ensures var u := StepByte(host, capabilities, s, bytes[0]).state;
      LateOpen(host, capabilities, s, bytes, late)
        == LateOpen(host, capabilities, u, bytes[1..], late || (NameState(s) && bytes[0] == NUL))
  {}

  lemma LateInvalid(host: Host, capabilities: capset, bytes: seq<byte>, late: bool)
    ensures !LateOpen(host, capabilities, Invalid, bytes, late)
  {}

  lemma NameByteStays(host: Host, capabilities: capset, s: State, b: byte)
    requires NameState(s) && b != NUL
    ensures var u := StepByte(host, capabilities, s, b).state; u == Invalid || NameState(u)
  {}

  /** A name block that ends with NUL is walked through, refused or not. */
  lemma {:induction false} LateThrough(host: Host, capabilities: capset, s: State, block: seq<byte>, tail: seq<byte>,
                                       late: bool)
    requires NameState(s) && block != [] && block[|block| - 1] == NUL
    requires forall i :: 0 <= i < |block| - 1 ==> block[i] != NUL
    ensures LateOpen(host, capabilities, s, block + tail, late)
         == LateOpen(host, capabilities, FeedBytes(host, capabilities, s, block).state, tail, true)
    decreases |block|
  {
    hide StepByte, FeedBytes, LateOpen;
    var u := StepByte(host, capabilities, s, block[0]).state;
    assert (block + tail)[1..] == block[1..] + tail && NUL in block + tail;
    LateFirst(host, capabilities, s, block + tail, late);
    FeedFirst(host, capabilities, s, block);
    if |block| == 1 {
      FeedFirst(host, capabilities, u, block[1..]);
      assert block[1..] + tail == tail;
    } else {
      NameByteStays(host, capabilities, s, block[0]);
      if u == Invalid {
        InvalidForever(host, capabilities, block[1..]);
        LateInvalid(host, capabilities, block[1..] + tail, late);
        LateInvalid(host, capabilities, tail, true);
      } else {
        LateThrough(host, capabilities, u, block[1..], tail, late);
      }
    }
  }

  /** The first name of a chunk that goes on to the end of it is not late. */
  lemma {:induction false} EarlyIsNotLate(host: Host, capabilities: capset, s: State, bytes: seq<byte>)
    requires NameState(s) && NUL !in bytes
    ensures !LateOpen(host, capabilities, s, bytes, false)
    decreases |bytes|
  {
    hide StepByte, LateOpen;
    if bytes == [] {
      LateNothing(host, capabilities, s, false);
    } else {
      var u := StepByte(host, capabilities, s, bytes[0]).state;
      LateFirst(host, capabilities, s, bytes, false);
      NameByteStays(host, capabilities, s, bytes[0]);
      if u == Invalid {
        LateInvalid(host, capabilities, bytes[1..], false);
      } else {
        EarlyIsNotLate(host, capabilities, u, bytes[1..]);
      }
    }
  }

  lemma LateNothing(host: Host, capabilities: capset, s: State, late: bool)
    ensures !LateOpen(host, capabilities, s, [], late)
  {}

  /** Once bytes are counted twice, the chunk is consumed if and only if the connection dies in it
      before a name is looked for that does not end in it. */
  lemma {:induction false} ExcessExactly(host: Host, capabilities: capset, s: State, buffer: seq<byte>, pos: nat,
                                         count: nat)
    requires pos <= |buffer| < pos + count
    requires NameState(s) ==> |s.name| <= NAME_MAX + 1
    ensures FeedWritten(host, capabilities, s, buffer, pos, count).Done? <==>
      && FeedBytes(host, capabilities, s, buffer[pos..]).state == Invalid
      && !LateOpen(host, capabilities, s, buffer[pos..], true)
    decreases |buffer| - pos
  {
    hide StepByte, IndexOfNul, Block, FeedBytes, LateOpen;
    var rest := buffer[pos..];
    FeedFirst(host, capabilities, s, rest);
    if s.Invalid? {
      InvalidForever(host, capabilities, rest);
      LateInvalid(host, capabilities, rest, true);
    } else if rest != [] {
      if !NameState(s) {
        assert rest[1..] == buffer[pos + 1..];
        LateFirst(host, capabilities, s, rest, true);
        StepStaysShort(host, capabilities, s, rest[0]);
        ExcessExactly(host, capabilities, StepByte(host, capabilities, s, rest[0]).state, buffer, pos + 1, count - 1);
      } else if IndexOfNul(rest) == |rest| {
        assert NUL !in rest by { assert rest[..|rest|] == rest; }
        LateHere(host, capabilities, s, rest);
      } else {
        var block := Block(rest, count);
        NamePassed(host, capabilities, s, rest, count, true);
        if Refused(s, block) {
          NameRefused(host, capabilities, s, block);
          LateInvalid(host, capabilities, rest[|block|..], true);
          InvalidForever(host, capabilities, rest[|block|..]);
        } else {
          NameStaysShort(host, capabilities, s, block);
          assert buffer[pos + |block|..] == rest[|block|..];
          ExcessExactly(host, capabilities, FeedBytes(host, capabilities, s, block).state, buffer, pos + |block|,
                        count + |block|);
        }
      }
    }
  }

  /** A name that ends within the chunk: what is left of the chunk decides. */
  lemma NamePassed(host: Host, capabilities: capset, s: State, rest: seq<byte>, count: nat, late: bool)
    requires NameState(s) && IndexOfNul(rest) < |rest| <= count
    ensures var block := Block(rest, count);
      var u := FeedBytes(host, capabilities, s, block).state;
      && LateOpen(host, capabilities, s, rest, late) == LateOpen(host, capabilities, u, rest[|block|..], true)
      && FeedBytes(host, capabilities, s, rest).state == FeedBytes(host, capabilities, u, rest[|block|..]).state
  {
    hide StepByte, FeedBytes, LateOpen, IndexOfNul;
    var block := Block(rest, count);
    assert rest == block + rest[|block|..] && block[|block| - 1] == NUL;
    LateThrough(host, capabilities, s, block, rest[|block|..], late);
    FeedConcat(host, capabilities, s, block, rest[|block|..]);
  }

  lemma LateHere(host: Host, capabilities: capset, s: State, bytes: seq<byte>)
    requires NameState(s) && bytes != [] && NUL !in bytes
    ensures LateOpen(host, capabilities, s, bytes, true)
  {}

  lemma ForgivenFirst(host: Host, capabilities: capset, s: State, bytes: seq<byte>)
    requires bytes != [] && !NameState(s) && !s.Invalid?
    ensures Forgiven(host, capabilities, s, bytes)
         == Forgiven(host, capabilities, StepByte(host, capabilities, s, bytes[0]).state, bytes[1..])
  {
    hide StepByte, FeedBytes, LateOpen;
    FeedFirst(host, capabilities, s, bytes);
    LateFirst(host, capabilities, s, bytes, false);
  }

  /** The case of the first name of the chunk. */
  lemma FirstName(host: Host, capabilities: capset, s: State, buffer: seq<byte>, pos: nat)
    requires pos < |buffer| && NameState(s) && |s.name| <= NAME_MAX + 1
    ensures FeedWritten(host, capabilities, s, buffer, pos, |buffer| - pos).Done?
        <==> Forgiven(host, capabilities, s, buffer[pos..])
  {
    hide StepByte, IndexOfNul, Block, FeedBytes, LateOpen;
    var rest, count := buffer[pos..], |buffer| - pos;
    var block := Block(rest, count);
    var u := FeedBytes(host, capabilities, s, block).state;
    if IndexOfNul(rest) < |rest| {
      NamePassed(host, capabilities, s, rest, count, false);
      LateInvalid(host, capabilities, rest[|block|..], true);
      InvalidForever(host, capabilities, rest[|block|..]);
      if Refused(s, block) {
        NameRefused(host, capabilities, s, block);
      } else {
        NameStaysShort(host, capabilities, s, block);
        assert buffer[pos + |block|..] == rest[|block|..];
        ExcessExactly(host, capabilities, u, buffer, pos + |block|, count + |block|);
      }
    } else {
      BlockWithoutNul(rest, count);
      EarlyIsNotLate(host, capabilities, s, rest);
      if Refused(s, block) {
        NameRefused(host, capabilities, s, block);
      } else {
        NameGrows(host, capabilities, s, block);
        ExcessExactly(host, capabilities, u, buffer, pos + |block|, count + |block|);
        assert buffer[pos + |block|..] == [];
        FeedFirst(host, capabilities, u, []);
      }
    }
  }

  lemma BlockWithoutNul(rest: seq<byte>, count: nat)
    requires rest != [] && IndexOfNul(rest) == |rest| == count
    ensures Block(rest, count) == rest && NUL !in rest
  {
    assert rest[..|rest|] == rest;
  }

  lemma {:induction false} ForgivenIffDone(host: Host, capabilities: capset, s: State, buffer: seq<byte>, pos: nat)
    requires pos <= |buffer|
    requires NameState(s) ==> |s.name| <= NAME_MAX + 1
    ensures FeedWritten(host, capabilities, s, buffer, pos, |buffer| - pos).Done?
        <==> Forgiven(host, capabilities, s, buffer[pos..])
    decreases |buffer| - pos
  {
    hide StepByte, IndexOfNul, Block, FeedBytes, LateOpen, Forgiven;
    var rest := buffer[pos..];
    if rest == [] || s.Invalid? {
      ForgivenAtEnds(host, capabilities, s, rest);
    } else if NameState(s) {
      FirstName(host, capabilities, s, buffer, pos);
    } else {
      assert rest[1..] == buffer[pos + 1..];
      StepStaysShort(host, capabilities, s, rest[0]);
      ForgivenFirst(host, capabilities, s, rest);
      ForgivenIffDone(host, capabilities, StepByte(host, capabilities, s, rest[0]).state, buffer, pos + 1);
    }
  }

  lemma ForgivenAtEnds(host: Host, capabilities: capset, s: State, bytes: seq<byte>)
    requires bytes == [] || s.Invalid?
    ensures Forgiven(host, capabilities, s, bytes)
  {
    InvalidForever(host, capabilities, bytes);
    LateInvalid(host, capabilities, bytes, false);
  }

  /** With the line as written, a chunk is consumed correctly if and only if it has no byte of a
      name, or ends the connection and not after a second name whose end is not in it. Every other
      chunk makes the parser read past its end. */
  lemma WrittenCorrectIff(host: Host, capabilities: capset, s: State, buffer: seq<byte>, pos: nat)
    requires pos <= |buffer|
    requires NameState(s) ==> |s.name| <= NAME_MAX + 1
    ensures var o := FeedWritten(host, capabilities, s, buffer, pos, |buffer| - pos);
      var rest := buffer[pos..];
      && (o == Done(FeedBytes(host, capabilities, s, rest)) <==> Forgiven(host, capabilities, s, rest))
      && (o == Overread <==> !Forgiven(host, capabilities, s, rest))
  {
    hide FeedWritten, FeedBytes, Forgiven;
    ForgivenIffDone(host, capabilities, s, buffer, pos);
    WrittenNeverWrong(host, capabilities, s, buffer, pos, |buffer| - pos);
  }

  /** The smallest case: the message that stops the daemon "a", in one chunk. */
  lemma StopMessageOverreads(host: Host)
    requires host.Valid()
    ensures FeedBytes(host, DAEMON_STOP, Command, [2, 97, 0]) == Fed(Command, [OnDaemon(Stop, [97])])
    ensures FeedWritten(host, DAEMON_STOP, Command, [2, 97, 0], 0, 3) == Overread
  {
    hide FeedWritten, FeedBytes;
    StopMessage(host, []);
    FeedNothing(host, DAEMON_STOP, Command);
    var chunk: seq<byte> := [2, 97, 0];
    assert chunk + [] == chunk && chunk[0..] == chunk;
    WrittenCorrectIff(host, DAEMON_STOP, Command, chunk, 0);
  }

  /** After that message, in the same chunk: a name that is refused, but whose end is not there. */
  lemma RefusedNameOverreads(host: Host)
    requires host.Valid()
    ensures FeedBytes(host, DAEMON_STOP, Command, [2, 97, 0, 2, 98, 47]) == Fed(Invalid, [OnDaemon(Stop, [97])])
    ensures FeedWritten(host, DAEMON_STOP, Command, [2, 97, 0, 2, 98, 47], 0, 6) == Overread
  {
    hide FeedWritten, FeedBytes, LateOpen;
    var more: seq<byte> := [2, 98, 47];
    StopMessage(host, more);
    assert more[1..] == [98, 47] && NUL !in more[1..];
    FeedFirst(host, DAEMON_STOP, Command, more);
    NameRefused(host, DAEMON_STOP, DaemonName(Stop, []), more[1..]);
    LateFirst(host, DAEMON_STOP, Command, more, true);
    LateHere(host, DAEMON_STOP, DaemonName(Stop, []), more[1..]);
    assert [2, 97, 0] + more == [2, 97, 0, 2, 98, 47] && ([2, 97, 0] + more)[0..] == [2, 97, 0] + more;
    WrittenCorrectIff(host, DAEMON_STOP, Command, [2, 97, 0] + more, 0);
  }

  /** After that message, in the same chunk: a command outside the capabilities. The line does no
      harm here. */
  lemma RefusedCommandIsForgiven(host: Host)
    requires host.Valid()
    ensures FeedWritten(host, DAEMON_STOP, Command, [2, 97, 0, 1], 0, 4) == Done(Fed(Invalid, [OnDaemon(Stop, [97])]))
  {
    hide FeedWritten, FeedBytes, LateOpen;
    var more: seq<byte> := [1];
    StopMessage(host, more);
    assert host.shift(1) == DAEMON_START;
    FeedFirst(host, DAEMON_STOP, Command, more);
    FeedNothing(host, DAEMON_STOP, Invalid);
    LateFirst(host, DAEMON_STOP, Command, more, true);
    LateInvalid(host, DAEMON_STOP, more[1..], true);
    assert more[1..] == [];
    assert [2, 97, 0] + more == [2, 97, 0, 1] && ([2, 97, 0] + more)[0..] == [2, 97, 0] + more;
    WrittenCorrectIff(host, DAEMON_STOP, Command, [2, 97, 0] + more, 0);
  }

  /** A chunk that begins with the stop message: what comes after it decides. */
  lemma StopMessage(host: Host, more: seq<byte>)
    requires host.Valid()
    ensures var chunk: seq<byte> := [2, 97, 0] + more;
      var f := FeedBytes(host, DAEMON_STOP, Command, more);
      && FeedBytes(host, DAEMON_STOP, Command, chunk) == Fed(f.state, [OnDaemon(Stop, [97])] + f.actions)
      && (Forgiven(host, DAEMON_STOP, Command, chunk)
          <==> f.state == Invalid && !LateOpen(host, DAEMON_STOP, Command, more, true))
  {
    hide FeedBytes, LateOpen;
    var named := DaemonName(Stop, []);
    var chunk: seq<byte> := [2, 97, 0] + more;
    var name: seq<byte> := [97, 0];
    StopCommand(host);
    hide StepByte;
    assert chunk[0] == 2 && chunk[1..] == name + more && [97] + [NUL] == name && named.name + [97] == [97];
    NameCompletes(host, DAEMON_STOP, named, [97]);
    FeedConcat(host, DAEMON_STOP, named, name, more);
    FeedFirst(host, DAEMON_STOP, Command, chunk);
    LateFirst(host, DAEMON_STOP, Command, chunk, false);
    LateThrough(host, DAEMON_STOP, named, name, more, false);
    assert NameByteIn(host, DAEMON_STOP, named, chunk[1..]);
    assert NameByteIn(host, DAEMON_STOP, Command, chunk);
  }

  lemma StopCommand(host: Host)
    requires host.Valid()
    ensures StepByte(host, DAEMON_STOP, Command, 2) == Fed(DaemonName(Stop, []), [])
  {
    assert host.shift(2) == DAEMON_STOP;
  }
}
