/** `daemon_conf_parse_general_arguments` of `src/cyberd/daemon_conf.c`: the argument list is
    expanded in place, in one copy of the value, and equals the function of Arguments. */
module ArgumentParser {
  import opened Arguments
  import opened Options

  // ---------- NULL-terminated lists ----------

  /** A `char **`: no array for the empty list, otherwise strings and a terminating NULL. */
  ghost predicate Terminated(list: array?<Option<string>>)
    reads list
  {
    list != null ==>
      && list.Length > 0 && list[list.Length - 1] == None
      && forall i :: 0 <= i < list.Length - 1 ==> list[i].Some?
  }

  ghost function Strings(list: array?<Option<string>>): seq<string>
    reads list
    requires Terminated(list)
  {
    if list == null then []
    else seq(list.Length - 1, i requires 0 <= i < list.Length - 1 && Terminated(list) reads list => list[i].value)
  }

  /** How many strings a list has. */
  function Count(list: array?<Option<string>>): (n: nat)
    requires Terminated(list)
    reads list
    ensures n == |Strings(list)|
  {
    if list == null then 0 else list.Length - 1
  }

  /** `daemon_conf_list_append`: a list one longer, with the string at its end; if there is no memory
      for the string or for the list, the list as it was. */
  method ListAppend(list: array?<Option<string>>, text: string, memory: bool)
    returns (ok: bool, grown: array?<Option<string>>)
    requires Terminated(list)
    ensures ok == memory && (!ok ==> grown == list)
    ensures ok ==> fresh(grown) && grown != null && Terminated(grown) && Strings(grown) == Strings(list) + [text]
  {
    if !memory { // strdup, realloc
      return false, list;
    }
    ok := true;
    var len := 0;
    if list != null {
      while list[len] != None
        invariant 0 <= len < list.Length
        decreases list.Length - len
      {
        len := len + 1;
      }
    }
    grown := new Option<string>[len + 2](_ => None);
    forall i | 0 <= i < len { grown[i] := list[i]; }
    grown[len] := Some(text);
    grown[len + 1] := None;
  }

  // ---------- Expansion in place ----------

  /** The C string at `from`: the bytes up to the next NUL. */
  method StringAt(buffer: array<char>, from: nat, ghost end: nat) returns (copy: string)
    requires from <= end < buffer.Length && buffer[end] == NUL && NUL !in buffer[from..end]
    ensures copy == buffer[from..end]
  {
    var i := from;
    while buffer[i] != NUL
      invariant from <= i <= end
      decreases end - i
    {
      i := i + 1;
    }
    copy := buffer[from..i];
  }

  /** FAILURE stands for the jump taken when an append fails. */
  datatype State = Expand(mode: Mode) | END | ERROR_UNCLOSED_QUOTE | FAILURE

  class DaemonConf {
    var arguments: array?<Option<string>>

    ghost predicate Valid()
      reads this, arguments
    {
      Terminated(arguments)
    }

    /** Zero (here: true) replaces the argument list by the words of the value; failure leaves the old
        list as it was. `memory` is the number of words there is memory for: with enough of it, the
        call succeeds exactly if the value has words and no open quote. */
    method ParseArguments(value: Option<string>, memory: nat) returns (ok: bool)
      requires Valid()
      requires value.Some? ==> NUL !in value.value
      modifies this
      ensures Valid()
      ensures ok <==>
        && value.Some? && Arguments.Arguments(value.value).Some?
        && |Arguments.Arguments(value.value).value| <= memory
      ensures ok ==> Some(Strings(arguments)) == Arguments.Arguments(value.value)
      ensures !ok ==> arguments == old(arguments) && Strings(arguments) == old(Strings(arguments))
    {
      if value == None {
        return false;
      }
      var buffer := new char[|value.value| + 1](i requires 0 <= i < |value.value| + 1 =>
        if i < |value.value| then value.value[i] else NUL);
      assert buffer[..] == value.value + [NUL];
      var state, words := ExpandAll(buffer, value.value, memory);
      if state == ERROR_UNCLOSED_QUOTE || state == FAILURE {
        return false;
      }
      if words == null {
        return false;
      }
      arguments := words;
      return true;
    }
  }

  /** What holds between two characters: the part not read yet is untouched, and in a word
      `arg <= dst <= src == it`, with the word so far just below `dst`. */
  ghost predicate Progress(buffer: array<char>, value: string, mode: Mode, word: string, it: nat, dst: nat, src: nat,
                           arg: nat)
    reads buffer
  {
    && buffer.Length == |value| + 1 && it <= |value|
    && buffer[it..] == value[it..] + [NUL]
    && (mode != Spaces ==> arg <= dst <= src == it && buffer[arg..dst] == word)
    && (mode == Spaces ==> word == "")
    && NUL !in word
  }

  /** `*dst++ = *src++`: the word grows by one byte, over bytes that were already read. */
  method CopyByte(buffer: array<char>, ghost value: string, ghost word: string, dst: nat, src: nat, ghost arg: nat)
    requires buffer.Length == |value| + 1 && arg <= dst <= src < |value|
    requires buffer[src..] == value[src..] + [NUL] && buffer[arg..dst] == word
    modifies buffer
    ensures buffer[src + 1..] == value[src + 1..] + [NUL]
    ensures buffer[arg..dst + 1] == word + [value[src]]
  {
    assert buffer[src] == buffer[src..][0] == value[src..][0];
    assert buffer[src + 1..] == buffer[src..][1..] && value[src + 1..] == value[src..][1..];
    buffer[dst] := buffer[src];
  }

  /** `*dst = NUL`, and the word is appended to the list. */
  method EndWord(buffer: array<char>, words: array?<Option<string>>, arg: nat, dst: nat, memory: bool,
                 ghost it: nat, ghost word: string)
    returns (ok: bool, grown: array?<Option<string>>)
    requires arg <= dst <= it < buffer.Length && buffer[arg..dst] == word && NUL !in word
    requires Terminated(words) && words != (buffer as object)
    modifies buffer
    ensures buffer[it + 1..] == old(buffer[it + 1..])
    ensures ok == memory && (!ok ==> grown == words)
    ensures ok ==> fresh(grown) && grown != null && Terminated(grown) && Strings(grown) == Strings(words) + [word]
  {
    buffer[dst] := NUL;
    var text := StringAt(buffer, arg, dst);
    ok, grown := ListAppend(words, text, memory);
  }

  lemma NextByte(buffer: array<char>, value: string, it: nat, mode: Mode, word: string)
    requires buffer.Length == |value| + 1 && it <= |value| && NUL !in value
    requires buffer[it..] == value[it..] + [NUL]
    ensures it < |value| ==> buffer[it] == value[it] != NUL && value[it..][1..] == value[it + 1..]
    ensures it < |value| ==> buffer[it + 1..] == value[it + 1..] + [NUL]
    ensures it < |value| ==> Tokens(mode, word, value[it..]) == Next(mode, word, value[it], value[it + 1..])
    ensures it == |value| ==> buffer[it] == NUL
    ensures it == |value| ==>
      Tokens(mode, word, value[it..]) == match mode case Spaces => Some([]) case Literal => Some([word]) case _ => None
  {
    assert buffer[it] == buffer[it..][0];
    if it < |value| {
      assert value[it] in value && value[it..][0] == value[it];
      assert buffer[it + 1..] == buffer[it..][1..];
    }
  }

  /** The words `target` of the whole value are those read so far, and those still to be read from
      `it` on in this state. */
  ghost predicate Leads(target: Option<seq<string>>, state: State, words: seq<string>, word: string, value: string,
                        it: nat) {
    match state
    case Expand(mode) => it <= |value| && target == Continue(words, Tokens(mode, word, value[it..]))
    case END => target == Some(words)
    case ERROR_UNCLOSED_QUOTE => target == None
    case FAILURE => target == None || |target.value| > |words|
  }

  /** A byte between words. */
  method SpacesByte(buffer: array<char>, it: nat, dst: nat, src: nat, arg: nat,
                    ghost value: string, ghost words: seq<string>, ghost target: Option<seq<string>>)
    returns (state: State, newDst: nat, newSrc: nat, newArg: nat, ghost word: string)
    requires NUL !in value && Progress(buffer, value, Spaces, "", it, dst, src, arg)
    requires Leads(target, Expand(Spaces), words, "", value, it)
    ensures state != ERROR_UNCLOSED_QUOTE && state != FAILURE && Leads(target, state, words, word, value, it + 1)
    ensures state.Expand? ==> it < |value| && Progress(buffer, value, state.mode, word, it + 1, newDst, newSrc, newArg)
  {
    hide Tokens;
    NextByte(buffer, value, it, Spaces, "");
    newDst, newSrc, newArg, word := dst, src, arg, "";
    if buffer[it] == NUL {
      state := END;
      assert words + [] == words;
    } else if buffer[it] == SPACE {
      state := Expand(Spaces);
    } else if buffer[it] == DOUBLE {
      state, newDst, newSrc, newArg := Expand(InDouble), it, it + 1, it;
    } else if buffer[it] == SINGLE {
      state, newDst, newSrc, newArg := Expand(InSingle), it, it + 1, it;
    } else {
      state, newDst, newSrc, newArg := Expand(Literal), it + 1, it + 1, it;
      word := [value[it]];
    }
  }

  /** A byte inside quotes, or after a backslash. */
  method QuotedByte(buffer: array<char>, mode: Mode, it: nat, dst: nat, src: nat, ghost arg: nat,
                    ghost value: string, ghost words: seq<string>, ghost word: string,
                    ghost target: Option<seq<string>>)
    returns (state: State, newDst: nat, newSrc: nat, ghost newWord: string)
    requires mode == InSingle || mode == InDouble || mode == InEscape
    requires NUL !in value && Progress(buffer, value, mode, word, it, dst, src, arg)
    requires Leads(target, Expand(mode), words, word, value, it)
    modifies buffer
    ensures state != END && state != FAILURE && Leads(target, state, words, newWord, value, it + 1)
    ensures state.Expand? ==>
      it < |value| && state.mode != Spaces && Progress(buffer, value, state.mode, newWord, it + 1, newDst, newSrc, arg)
  {
    hide Tokens;
    NextByte(buffer, value, it, mode, word);
    newDst, newSrc, newWord := dst, src, word;
    if buffer[it] == NUL {
      state := ERROR_UNCLOSED_QUOTE;
    } else if (mode == InSingle && buffer[it] == SINGLE) || (mode == InDouble && buffer[it] == DOUBLE) {
      state, newSrc := Expand(Literal), src + 1;
    } else if mode == InDouble && buffer[it] == BACKSLASH {
      state, newSrc := Expand(InEscape), src + 1;
    } else {
      state := Expand(if mode == InEscape then InDouble else mode);
      CopyByte(buffer, value, word, dst, src, arg);
      newDst, newSrc, newWord := dst + 1, src + 1, word + [value[it]];
    }
  }

  /** A byte of a word outside quotes. */
  method LiteralByte(buffer: array<char>, it: nat, dst: nat, src: nat, arg: nat, words: array?<Option<string>>,
                     memory: bool,
                     ghost value: string, ghost word: string, ghost target: Option<seq<string>>)
    returns (state: State, newDst: nat, newSrc: nat, grown: array?<Option<string>>, ghost newWord: string)
    requires NUL !in value && Progress(buffer, value, Literal, word, it, dst, src, arg)
    requires Terminated(words) && words != (buffer as object)
    requires Leads(target, Expand(Literal), Strings(words), word, value, it)
    modifies buffer
    ensures state != ERROR_UNCLOSED_QUOTE && Terminated(grown)
    ensures state == FAILURE ==> !memory && grown == words
    ensures grown == words || (memory && grown != null && fresh(grown) && |Strings(grown)| == |Strings(words)| + 1)
    ensures Leads(target, state, Strings(grown), newWord, value, it + 1)
    ensures state.Expand? ==> it < |value| && Progress(buffer, value, state.mode, newWord, it + 1, newDst, newSrc, arg)
  {
    hide Tokens;
    NextByte(buffer, value, it, Literal, word);
    newDst, newSrc, grown, newWord := dst, src, words, word;
    if buffer[it] == NUL {
      var ok;
      ok, grown := EndWord(buffer, words, arg, dst, memory, it, word);
      state := if ok then END else FAILURE;
    } else if buffer[it] == DOUBLE {
      state, newSrc := Expand(InDouble), src + 1;
    } else if buffer[it] == SINGLE {
      state, newSrc := Expand(InSingle), src + 1;
    } else if buffer[it] == SPACE {
      ContinueTwice(Strings(words), [word], Tokens(Spaces, "", value[it + 1..]));
      var ok;
      ok, grown := EndWord(buffer, words, arg, dst, memory, it, word);
      state := if ok then Expand(Spaces) else FAILURE;
      newWord := "";
    } else {
      state := Expand(Literal);
      CopyByte(buffer, value, word, dst, src, arg);
      newDst, newSrc, newWord := dst + 1, src + 1, word + [value[it]];
    }
  }

  /** The loop. It reads no further than the NUL that ends the value. */
  method ExpandAll(buffer: array<char>, ghost value: string, memory: nat)
    returns (state: State, words: array?<Option<string>>)
    requires NUL !in value && buffer[..] == value + [NUL]
    modifies buffer
    ensures Terminated(words) && (words == null || fresh(words)) && !state.Expand?
    ensures state == END ==> Tokens(Spaces, "", value) == Some(Strings(words)) && |Strings(words)| <= memory
    ensures state == ERROR_UNCLOSED_QUOTE ==> Tokens(Spaces, "", value) == None
    ensures state == FAILURE ==> Tokens(Spaces, "", value) == None || |Tokens(Spaces, "", value).value| > memory
    ensures words == null <==> Strings(words) == []
  {
    hide Tokens;
    state, words := Expand(Spaces), null;
    var it: nat, dst: nat, src: nat, arg: nat := 0, 0, 0, 0;
    ghost var word := "";
    ghost var target := Tokens(Spaces, "", value);
    assert value[0..] == value;
    ContinueEmpty(target);
    while state.Expand?
      invariant Terminated(words) && (words == null || fresh(words)) && words != (buffer as object)
      invariant (words == null <==> Strings(words) == []) && |Strings(words)| <= memory
      invariant state == FAILURE ==> |Strings(words)| == memory
      invariant state.Expand? ==> it <= |value| && Progress(buffer, value, state.mode, word, it, dst, src, arg)
      invariant Leads(target, state, Strings(words), word, value, it)
      decreases if state.Expand? then |value| + 1 - it else 0
    {
      match state.mode {
        case Spaces =>
          state, dst, src, arg, word := SpacesByte(buffer, it, dst, src, arg, value, Strings(words), target);
        case Literal =>
          var room := Count(words) < memory;
          state, dst, src, words, word := LiteralByte(buffer, it, dst, src, arg, words, room, value, word, target);
        case _ =>
          state, dst, src, word := QuotedByte(buffer, state.mode, it, dst, src, arg, value, Strings(words), word,
                                              target);
      }
      it := it + 1;
    }
  }

  lemma ContinueTwice(a: seq<string>, b: seq<string>, r: Option<seq<string>>)
    ensures Continue(a, Continue(b, r)) == Continue(a + b, r)
  {
    if r.Some? { assert a + (b + r.value) == (a + b) + r.value; }
  }

  lemma ContinueEmpty(r: Option<seq<string>>)
    ensures Continue([], r) == r
  {
    if r.Some? { assert [] + r.value == r.value; }
  }
}
