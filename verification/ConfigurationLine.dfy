/** `daemon_conf_parse_line` of `src/cyberd/daemon_conf.c`: one line of a configuration file, split
    in place, against a functional grammar of lines. */
module ConfigurationLine {
  import opened Options

  const NUL: char := '\0'

  /** `isspace` in the C locale. */
  predicate IsSpace(c: char) {
    c == ' ' || c == '\t' || c == '\n' || c == '\r' || c == '\U{0B}' || c == '\U{0C}'
  }

  // ---------- The grammar ----------

  function TrimStart(s: string): string {
    if s != "" && IsSpace(s[0]) then TrimStart(s[1..]) else s
  }

  function TrimEnd(s: string): string {
    if s != "" && IsSpace(s[|s| - 1]) then TrimEnd(s[..|s| - 1]) else s
  }

  function Trim(s: string): string { TrimEnd(TrimStart(s)) }

  /** The part of `s` before the first `c`. */
  function Before(s: string, c: char): (r: string)
    ensures r <= s && c !in r
    ensures r != s ==> |r| < |s| && s[|r|] == c
  {
    if s == "" || s[0] == c then "" else [s[0]] + Before(s[1..], c)
  }

  /** What a line says, once its comment and the spaces around it are gone. */
  function Content(line: string): string { Trim(Before(line, '#')) }

  datatype Line = Section(name: string) | Scalar(text: string) | Associative(key: string, value: string)

  function Inner(t: string): string
    requires |t| >= 2
  {
    t[1..|t| - 1]
  }

  predicate IsSection(t: string) {
    |t| >= 2 && t[0] == '[' && t[|t| - 1] == ']'
  }

  function Parse(t: string): Line {
    if IsSection(t) then Section(Trim(Inner(t)))
    else
      var key := Before(t, '=');
      if key == t then Scalar(t)
      else Associative(Trim(key), Trim(t[|key| + 1..]))
  }

  /** A line that has nothing before its comment, or nothing before its '='. */
  predicate Headless(t: string) {
    t == "" || t[0] == '='
  }

  /** Brackets with nothing but spaces between them. */
  predicate BlankSection(t: string) {
    IsSection(t) && Inner(t) != "" && Trim(Inner(t)) == ""
  }

  // ---------- Facts about trimming ----------

  lemma {:induction false} TrimStartIs(s: string, k: nat)
    requires k <= |s| && (forall i :: 0 <= i < k ==> IsSpace(s[i]))
    requires k < |s| ==> !IsSpace(s[k])
    ensures TrimStart(s) == s[k..]
    decreases k
  {
    if k > 0 {
      TrimStartIs(s[1..], k - 1);
    }
  }

  lemma {:induction false} TrimEndIs(s: string, k: nat)
    requires k <= |s| && (forall i :: k <= i < |s| ==> IsSpace(s[i]))
    requires k > 0 ==> !IsSpace(s[k - 1])
    ensures TrimEnd(s) == s[..k]
    decreases |s|
  {
    if k < |s| {
      TrimEndIs(s[..|s| - 1], k);
      assert s[..|s| - 1][..k] == s[..k];
    }
  }

  /** The trimmed string is the part between the first and the last byte that are not spaces. */
  lemma TrimIs(s: string, from: nat, to: nat)
    requires from <= to <= |s|
    requires forall i :: 0 <= i < from || to <= i < |s| ==> IsSpace(s[i])
    requires from < to ==> !IsSpace(s[from]) && !IsSpace(s[to - 1])
    requires from == to ==> to == |s|
    ensures Trim(s) == s[from..to]
  {
    TrimStartIs(s, from);
    TrimEndIs(s[from..], to - from);
    assert s[from..][..to - from] == s[from..to];
  }

  lemma {:induction false} BeforeIs(s: string, c: char, k: nat)
    requires k <= |s| && c !in s[..k] && (k < |s| ==> s[k] == c)
    ensures Before(s, c) == s[..k]
    decreases k
  {
    if k > 0 {
      assert s[0] == s[..k][0] && s[1..][..k - 1] == s[..k][1..];
      BeforeIs(s[1..], c, k - 1);
      assert s[..k] == [s[0]] + s[1..][..k - 1];
    }
  }

  // ---------- Splitting in place ----------

  /** The C string at position `p`. */
  ghost predicate Holds(buffer: array<char>, p: int, text: string)
    reads buffer
  {
    0 <= p && p + |text| < buffer.Length && NUL !in text && buffer[p..p + |text|] == text && buffer[p + |text|] == NUL
  }

  /** `strchr`: the first `c` of the C string at `from`, or its end. */
  method StrChr(buffer: array<char>, from: nat, c: char, ghost text: string) returns (i: nat, found: bool)
    requires Holds(buffer, from, text) && c != NUL
    ensures i == from + |Before(text, c)|
    ensures found <==> Before(text, c) != text
    ensures i <= from + |text| && (found ==> i < from + |text| && buffer[i] == c)
  {
    i := from;
    while buffer[i] != NUL && buffer[i] != c
      invariant from <= i <= from + |text|
      invariant c !in buffer[from..i]
      decreases from + |text| - i
    {
      assert buffer[from..i + 1] == buffer[from..i] + [buffer[i]];
      i := i + 1;
    }
    var k := i - from;
    assert buffer[from..i] == text[..k];
    assert k < |text| ==> buffer[i] == text[k] && text[k] in text;
    BeforeIs(text, c, k);
    found := buffer[i] != NUL;
  }

  /** `while (isspace(*p)) p++;` */
  method SkipSpaces(buffer: array<char>, from: nat, ghost end: nat) returns (i: nat)
    requires from <= end < buffer.Length && !IsSpace(buffer[end])
    ensures from <= i <= end && !IsSpace(buffer[i])
    ensures forall k :: from <= k < i ==> IsSpace(buffer[k])
  {
    i := from;
    while IsSpace(buffer[i])
      invariant from <= i <= end
      invariant forall k :: from <= k < i ==> IsSpace(buffer[k])
      decreases end - i
    {
      i := i + 1;
    }
  }

  /** `while (isspace(*p)) p--;`, which nothing but the contents of the buffer stops: -1 when it
      would read before the first byte. */
  method SkipSpacesBack(buffer: array<char>, from: int) returns (i: int)
    requires -1 <= from < buffer.Length
    ensures -1 <= i <= from && (i >= 0 ==> !IsSpace(buffer[i]))
    ensures forall k :: i < k <= from ==> IsSpace(buffer[k])
  {
    i := from;
    while i >= 0 && IsSpace(buffer[i])
      invariant -1 <= i <= from
      invariant forall k :: i < k <= from ==> IsSpace(buffer[k])
    {
      i := i - 1;
    }
  }

  /** The trimming at the head of `daemon_conf_parse_line`: comment cut off, spaces cut off on both
      sides. It reads before the buffer exactly when nothing is left. */
  method TrimLine(buffer: array<char>, length: nat, ghost text: string) returns (underrun: bool, line: nat, len: nat)
    requires Holds(buffer, 0, text) && length == |text|
    modifies buffer
    ensures underrun <==> Content(text) == ""
    ensures !underrun ==> Holds(buffer, line, Content(text)) && len == |Content(text)|
    ensures !underrun ==> forall i :: 0 <= i < line ==> IsSpace(buffer[i])
  {
    hide Trim, IsSpace, Before;
    ghost var t := Before(text, '#');
    var comment, found := StrChr(buffer, 0, '#', text);
    var end := if found then comment else length;
    assert text == buffer[..length] && t == buffer[..end];
    assert !IsSpace(NUL) && !IsSpace('#') by { PlainBytes(); }
    line := SkipSpaces(buffer, 0, end);
    var last := SkipSpacesBack(buffer, end - 1);
    TrimmedBetween(t, line, last);
    underrun := last < 0;
    len := 0;
    if !underrun {
      len := last + 1 - line;
      assert NUL !in Content(text) by { assert NUL !in t; }
      Terminate(buffer, line, len, Content(text));
    }
  }

  lemma TrimmedBetween(t: string, first: nat, last: int)
    requires first <= |t| && -1 <= last < |t|
    requires forall i :: 0 <= i < first || last < i < |t| ==> IsSpace(t[i])
    requires first < |t| ==> !IsSpace(t[first])
    requires last >= 0 ==> !IsSpace(t[last])
    ensures last < 0 ==> Trim(t) == ""
    ensures last >= 0 ==> first <= last && Trim(t) == t[first..last + 1]
  {
    if last < 0 {
      TrimIs(t, |t|, |t|);
    } else {
      TrimIs(t, first, last + 1);
    }
  }

  /** `line[length] = '\0'` */
  method Terminate(buffer: array<char>, line: nat, len: nat, ghost text: string)
    requires line + len < buffer.Length && buffer[line..line + len] == text && NUL !in text
    modifies buffer
    ensures Holds(buffer, line, text) && len == |text|
    ensures forall i :: 0 <= i < buffer.Length && i != line + len ==> buffer[i] == old(buffer[i])
  {
    buffer[line + len] := NUL;
  }

  /** What the caller gets: positions in the buffer, or nothing because the scan for the end of the
      line or of the key left the buffer. */
  datatype Split = SectionAt(name: nat) | ValueAt(key: nat, value: Option<nat>) | Underrun

  /** The line starts with a byte that is not a space, so its trimmed parts start there too. */
  lemma ContentEnds(text: string)
    ensures var t := Content(text); t != "" ==> !IsSpace(t[0]) && !IsSpace(t[|t| - 1])
  {
    var t := Before(text, '#');
    var k := FirstNonSpace(t);
    var l := LastNonSpace(t);
    TrimmedBetween(t, k, l);
  }

  lemma {:induction false} FirstNonSpace(t: string) returns (k: nat)
    ensures k <= |t| && (forall i :: 0 <= i < k ==> IsSpace(t[i])) && (k < |t| ==> !IsSpace(t[k]))
  {
    k := 0;
    while k < |t| && IsSpace(t[k])
      invariant k <= |t| && forall i :: 0 <= i < k ==> IsSpace(t[i])
    {
      k := k + 1;
    }
  }

  lemma {:induction false} LastNonSpace(t: string) returns (l: int)
    ensures -1 <= l < |t| && (forall i :: l < i < |t| ==> IsSpace(t[i])) && (l >= 0 ==> !IsSpace(t[l]))
  {
    l := |t| - 1;
    while l >= 0 && IsSpace(t[l])
      invariant -1 <= l < |t| && forall i :: l < i < |t| ==> IsSpace(t[i])
    {
      l := l - 1;
    }
  }

  /** The two texts are told apart by the first byte. */
  lemma SectionNameIff(buffer: array<char>, p: nat, t: string)
    requires IsSection(t) && Holds(buffer, p, if BlankSection(t) then "]" else Trim(Inner(t)))
    ensures Holds(buffer, p, Trim(Inner(t))) <==> !BlankSection(t)
  {
    if BlankSection(t) {
      assert buffer[p..p + 1][0] == ']';
    }
  }

  /** The section branch. The name is the trimmed inside of the brackets, except that brackets
      around nothing but spaces give the closing bracket. */
  method SplitSection(buffer: array<char>, start: nat, len: nat, ghost t: string) returns (name: nat)
    requires Holds(buffer, start, t) && IsSection(t) && len == |t|
    modifies buffer
    ensures Holds(buffer, name, if BlankSection(t) then "]" else Trim(Inner(t)))
    ensures Holds(buffer, name, Trim(Inner(t))) <==> !BlankSection(t)
  {
    hide Trim, IsSpace;
    var last;
    name, last := InnerBounds(buffer, start, len, t);
    assert forall i :: 0 <= i < |t| ==> buffer[start + i] == t[i];
    if name <= last + 1 {
      assert Trim(Inner(t)) == buffer[name..last + 1];
      Terminate(buffer, name, last + 1 - name, Trim(Inner(t)));
    } else {
      buffer[last + 1] := NUL;
      assert buffer[name..name + 1] == "]";
    }
    SectionNameIff(buffer, name, t);
  }

  /** The two scans inside the brackets. When there is nothing but spaces, the first ends at the
      closing bracket and the second at the opening one. */
  method InnerBounds(buffer: array<char>, start: nat, len: nat, ghost t: string) returns (first: nat, last: nat)
    requires Holds(buffer, start, t) && IsSection(t) && len == |t|
    ensures Trim(Inner(t)) == "" ==> first == start + len - 1 && last == start
    ensures Trim(Inner(t)) != "" ==>
      start < first <= last < start + len - 1 && Trim(Inner(t)) == t[first - start..last + 1 - start]
  {
    hide Trim, IsSpace;
    ghost var inner := Inner(t);
    var end := start + len;
    assert forall i :: 0 <= i < |t| ==> buffer[start + i] == t[i];
    assert !IsSpace('[') && !IsSpace(']') by { PlainBytes(); }
    first := SkipSpaces(buffer, start + 1, end - 1);
    var back := SkipSpacesBack(buffer, end - 2);
    assert back >= start;
    last := back;
    assert forall i :: 0 <= i < |inner| ==> inner[i] == buffer[start + 1 + i];
    InnerTrimmed(inner, first - start - 1, last - start - 1);
  }

  lemma InnerTrimmed(inner: string, first: nat, last: int)
    requires first <= |inner| && -1 <= last < |inner|
    requires forall i :: 0 <= i < first || last < i < |inner| ==> IsSpace(inner[i])
    requires first < |inner| ==> !IsSpace(inner[first])
    requires last >= 0 ==> !IsSpace(inner[last])
    ensures last < 0 ==> Trim(inner) == "" && first == |inner|
    ensures last >= 0 ==> first <= last && Trim(inner) == inner[first..last + 1] != ""
  {
    TrimmedBetween(inner, first, last);
  }

  /** The value branch: the key ends at the first '=', which a scan backwards trims; the value
      starts after it. With nothing before the '=' that scan leaves the buffer. */
  method SplitValue(buffer: array<char>, start: nat, len: nat, ghost t: string) returns (r: Split)
    requires Holds(buffer, start, t) && t != "" && !IsSection(t) && len == |t|
    requires !IsSpace(t[0]) && !IsSpace(t[|t| - 1])
    requires forall i :: 0 <= i < start ==> IsSpace(buffer[i])
    modifies buffer
    ensures r == Underrun <==> t[0] == '='
    ensures r == Underrun || (r.ValueAt? && match Parse(t)
      case Section(_) => false
      case Scalar(text) => r.value == None && Holds(buffer, r.key, text)
      case Associative(key, value) => r.value.Some? && Holds(buffer, r.key, key) && Holds(buffer, r.value.value, value))
  {
    hide Trim, IsSpace, Before;
    assert !IsSpace(NUL) by { PlainBytes(); }
    assert forall i :: 0 <= i < |t| ==> buffer[start + i] == t[i];
    var separator, found := StrChr(buffer, start, '=', t);
    if !found {
      return ValueAt(start, None);
    }
    var before := separator - 1;
    if before != start {
      before := SkipSpacesBack(buffer, before);
      if before < 0 {
        return Underrun;
      }
    }
    assert Before(t, '=') == t[..separator - start];
    var value := SplitPair(buffer, start, len, separator, before, t);
    r := ValueAt(start, Some(value));
  }

  /** Both halves, when the last byte of the key is known. */
  method SplitPair(buffer: array<char>, start: nat, len: nat, separator: nat, before: nat, ghost t: string)
    returns (value: nat)
    requires Holds(buffer, start, t) && len == |t| && start <= before < separator < start + len
    requires !IsSpace(t[0]) && !IsSpace(t[|t| - 1]) && !IsSpace(t[before - start])
    requires forall i :: before < i < separator ==> IsSpace(buffer[i])
    modifies buffer
    ensures var k := separator - start; Holds(buffer, start, Trim(t[..k])) && Holds(buffer, value, Trim(t[k + 1..]))
  {
    hide Trim, IsSpace;
    ghost var k := separator - start;
    assert forall i :: 0 <= i < |t| ==> buffer[start + i] == t[i];
    assert !IsSpace(NUL) by { PlainBytes(); }
    KeyTrimmed(t, k, before - start);
    value := SkipSpaces(buffer, separator + 1, start + len);
    ValueTrimmed(t, k, value - start);
    EndKey(buffer, start, len, before + 1 - start, value, t);
  }

  /** `preseparator[1] = '\0'`: the value behind the separator stays as it is. */
  method EndKey(buffer: array<char>, start: nat, len: nat, keyLen: nat, value: nat, ghost t: string)
    requires Holds(buffer, start, t) && len == |t|
    requires start + keyLen < value <= start + len
    modifies buffer
    ensures Holds(buffer, start, t[..keyLen]) && Holds(buffer, value, t[value - start..])
  {
    assert buffer[start..start + keyLen] == t[..keyLen];
    assert buffer[value..start + len] == t[value - start..];
    buffer[start + keyLen] := NUL;
  }

  lemma PlainBytes()
    ensures !IsSpace(NUL) && !IsSpace('#') && !IsSpace('[') && !IsSpace(']')
  {}

  lemma KeyTrimmed(t: string, k: nat, last: int)
    requires 0 < k < |t| && 0 <= last < k && !IsSpace(t[0])
    requires forall i :: last < i < k ==> IsSpace(t[i])
    requires !IsSpace(t[last])
    ensures Trim(t[..k]) == t[..last + 1]
  {
    hide Trim;
    TrimmedBetween(t[..k], 0, last);
  }

  lemma ValueTrimmed(t: string, k: nat, first: nat)
    requires k < first <= |t| && (t[|t| - 1] == '=' || !IsSpace(t[|t| - 1]))
    requires forall i :: k < i < first ==> IsSpace(t[i])
    requires first < |t| ==> !IsSpace(t[first])
    ensures Trim(t[k + 1..]) == t[first..]
  {
    hide Trim;
    var v := t[k + 1..];
    if v == "" {
      TrimIs(v, 0, 0);
    } else {
      assert v[|v| - 1] == t[|t| - 1];
      TrimmedBetween(v, first - k - 1, |v| - 1);
    }
  }

  /** `daemon_conf_parse_line`: for every line, the trimmed section name, or the trimmed key and
      value, of the grammar, whatever spaces and comment surround them. It stays inside the buffer
      exactly when the line has something before its comment and before its first '='. */
  method ParseLine(buffer: array<char>, length: nat, ghost text: string) returns (r: Split)
    requires Holds(buffer, 0, text) && length == |text|
    modifies buffer
    ensures r == Underrun <==> Headless(Content(text))
    ensures r != Underrun ==> match Parse(Content(text))
      case Section(name) =>
        && r.SectionAt? && Holds(buffer, r.name, if BlankSection(Content(text)) then "]" else name)
        && (Holds(buffer, r.name, name) <==> !BlankSection(Content(text)))
      case Scalar(key) => r.ValueAt? && r.value == None && Holds(buffer, r.key, key)
      case Associative(key, value) =>
        && r.ValueAt? && r.value.Some?
        && Holds(buffer, r.key, key) && Holds(buffer, r.value.value, value)
  {
    ghost var t := Content(text);
    var underrun, line, len := TrimLine(buffer, length, text);
    if underrun {
      return Underrun;
    }
    ContentEnds(text);
    assert buffer[line] == t[0] && buffer[line + len - 1] == t[|t| - 1] by {
      assert buffer[line..line + len][0] == buffer[line] && buffer[line..line + len][len - 1] == buffer[line + len - 1];
    }
    if buffer[line] == '[' && buffer[line + len - 1] == ']' {
      var name := SplitSection(buffer, line, len, t);
      r := SectionAt(name);
    } else {
      r := SplitValue(buffer, line, len, t);
    }
  }

  /** The three kinds of lines that are not split as they should be, each at its shortest. */
  lemma ShortestFailures()
    ensures BlankSection("[ ]") && Content("[ ]") == "[ ]"
    ensures Headless(Content("")) && Headless(Content("\n")) && Headless(Content("#"))
    ensures Headless(Content("=x"))
  {
    assert Before("[ ]", '#') == "[ ]" && Before("\n", '#') == "\n" && Before("#", '#') == "" by {
      BeforeIs("[ ]", '#', 3);
      BeforeIs("\n", '#', 1);
      BeforeIs("#", '#', 0);
    }
    BeforeIs("=x", '#', 2);
    TrimIs("[ ]", 0, 3);
    TrimIs("\n", 1, 1);
    TrimIs("=x", 0, 2);
    assert Inner("[ ]") == " ";
    TrimIs(" ", 1, 1);
  }

  // ---------- Lines written with padding ----------

  predicate Blank(s: string) { forall c :: c in s ==> IsSpace(c) }

  /** A string with no space at either end. */
  predicate Trimmed(s: string) {
    s != "" ==> !IsSpace(s[0]) && !IsSpace(s[|s| - 1])
  }

  lemma TrimPadded(lead: string, t: string, tail: string)
    requires Blank(lead) && Blank(tail) && Trimmed(t)
    ensures Trim(lead + t + tail) == t
  {
    var s := lead + t + tail;
    forall i | 0 <= i < |lead| || |lead| + |t| <= i < |s| ensures IsSpace(s[i]) {
      assert s[i] in lead || s[i] in tail;
    }
    if t == "" {
      TrimIs(s, |s|, |s|);
    } else {
      TrimIs(s, |lead|, |lead| + |t|);
    }
  }

  /** Padding and a trailing comment do not change what a line says. */
  lemma PaddingIsInvisible(lead: string, t: string, tail: string, comment: string)
    requires Blank(lead) && Blank(tail) && Trimmed(t) && '#' !in t
    requires comment == "" || comment[0] == '#'
    ensures Content(lead + t + tail + comment) == t
  {
    var s := lead + t + tail;
    assert '#' !in s;
    assert (s + comment)[..|s|] == s;
    BeforeIs(s + comment, '#', |s|);
    TrimPadded(lead, t, tail);
  }

  /** Bytes 9 to 13 and 32, as the C standard has it for the C locale. */
  lemma SpacesAre(c: char)
    ensures IsSpace(c) <==> 9 <= c as int <= 13 || c as int == 32
  {}

  /** A line without '=' reads back whole, unless it is in brackets. */
  lemma ScalarReadsBack(t: string)
    requires t != "" && '=' !in t && !(t[0] == '[' && t[|t| - 1] == ']')
    ensures Parse(t) == Scalar(t)
  {
    BeforeIs(t, '=', |t|);
    assert t[..|t|] == t;
  }

  /** A key and a value, with any padding around the '=', read back. */
  lemma AssociativeReadsBack(key: string, left: string, right: string, value: string)
    requires Trimmed(key) && '=' !in key && Trimmed(value) && Blank(left) && Blank(right)
    requires var t := key + left + "=" + right + value; !(t[0] == '[' && t[|t| - 1] == ']')
    ensures Parse(key + left + "=" + right + value) == Associative(key, value)
  {
    var t := key + left + "=" + right + value;
    var front := key + left;
    assert '=' !in front && t[..|front|] == front && t[|front|] == '=';
    BeforeIs(t, '=', |front|);
    assert "" + key + left == front && t[|front| + 1..] == right + value + "";
    TrimPadded("", key, left);
    TrimPadded(right, value, "");
  }

  /** A section name, with any padding inside the brackets, reads back. */
  lemma SectionReadsBack(left: string, name: string, right: string)
    requires Trimmed(name) && Blank(left) && Blank(right)
    ensures Parse("[" + left + name + right + "]") == Section(name)
  {
    var t := "[" + left + name + right + "]";
    assert Inner(t) == left + name + right;
    TrimPadded(left, name, right);
  }
}
