/** The argument syntax of `src/cyberd/daemon_conf.c` as a function on strings. */
module Arguments {
  import opened Options

  const NUL: char := '\0'
  const SPACE: char := ' '
  const SINGLE: char := '\''
  const DOUBLE: char := '"'
  const BACKSLASH: char := '\\'

  /** Where the reader is: between words, or in a word outside quotes, in quotes, or just after a
      backslash in double quotes. */
  datatype Mode = Spaces | Literal | InSingle | InDouble | InEscape

  function Continue(done: seq<string>, rest: Option<seq<string>>): Option<seq<string>> {
    match rest case None => None case Some(words) => Some(done + words)
  }

  /** The words of `s`, when `word` is what has been read of the current one; nothing if a quote
      is left open. */
  function Tokens(mode: Mode, word: string, s: string): Option<seq<string>>
    decreases |s|, 0
  {
    if s == "" then
      match mode
      case Spaces => Some([])
      case Literal => Some([word])
      case _ => None
    else
      Next(mode, word, s[0], s[1..])
  }

  /** One byte `c`, then the words of the rest. */
  function Next(mode: Mode, word: string, c: char, rest: string): Option<seq<string>>
    decreases |rest|, 1
  {
    match mode
    case Spaces =>
      if c == SPACE then Tokens(Spaces, "", rest)
      else if c == DOUBLE then Tokens(InDouble, "", rest)
      else if c == SINGLE then Tokens(InSingle, "", rest)
      else Tokens(Literal, [c], rest)
    case Literal =>
      if c == SPACE then Continue([word], Tokens(Spaces, "", rest))
      else if c == DOUBLE then Tokens(InDouble, word, rest)
      else if c == SINGLE then Tokens(InSingle, word, rest)
      else Tokens(Literal, word + [c], rest)
    case InSingle =>
      if c == SINGLE then Tokens(Literal, word, rest) else Tokens(InSingle, word + [c], rest)
    case InDouble =>
      if c == DOUBLE then Tokens(Literal, word, rest)
      else if c == BACKSLASH then Tokens(InEscape, word, rest)
      else Tokens(InDouble, word + [c], rest)
    case InEscape => Tokens(InDouble, word + [c], rest)
  }

  /** The argument list a value stands for: at least one word, every quote closed. */
  function Arguments(value: string): Option<seq<string>> {
    var words := Tokens(Spaces, "", value);
    if words == Some([]) then None else words
  }

  // ---------- Quoting ----------

  /** One piece of a rendered word; between double quotes any byte may have a backslash before it. */
  datatype Fragment = Bare(text: string) | Single(text: string) | Double(text: string, escaped: seq<bool>)

  /** A fragment that can stand for its text: a bare one has no space and no quote, a single-quoted
      one no single quote, in a double-quoted one double quotes and backslashes have a backslash
      before them; nothing has NUL. */
  predicate Renders(f: Fragment) {
    && NUL !in f.text
    && match f
       case Bare(text) => text != "" && SPACE !in text && SINGLE !in text && DOUBLE !in text
       case Single(text) => SINGLE !in text
       case Double(text, escaped) => Escapes(text, escaped)
  }

  predicate Escapes(text: string, escaped: seq<bool>) {
    && |escaped| == |text|
    && forall i :: 0 <= i < |text| && (text[i] == DOUBLE || text[i] == BACKSLASH) ==> escaped[i]
  }

  /** A backslash before every byte that is to have one. */
  function Escape(text: string, escaped: seq<bool>): string {
    if text == "" || escaped == [] then text
    else (if escaped[0] then [BACKSLASH, text[0]] else [text[0]]) + Escape(text[1..], escaped[1..])
  }

  function RenderFragment(f: Fragment): string {
    match f
    case Bare(text) => text
    case Single(text) => [SINGLE] + text + [SINGLE]
    case Double(text, escaped) => [DOUBLE] + Escape(text, escaped) + [DOUBLE]
  }

  function RenderWord(fs: seq<Fragment>): string {
    if fs == [] then "" else RenderFragment(fs[0]) + RenderWord(fs[1..])
  }

  function Text(fs: seq<Fragment>): string {
    if fs == [] then "" else fs[0].text + Text(fs[1..])
  }

  function Blanks(n: nat): string { seq(n, _ => SPACE) }

  /** A word is rendered by at least one fragment: the empty word needs a pair of quotes. */
  predicate RendersWord(fs: seq<Fragment>) {
    fs != [] && forall f :: f in fs ==> Renders(f)
  }

  /** Further words, each after one space or more (`gaps[i] + 1` of them), then trailing spaces. */
  function RenderMore(words: seq<seq<Fragment>>, gaps: seq<nat>, tail: nat): string
    requires |gaps| == |words|
    decreases |words|
  {
    if words == [] then Blanks(tail)
    else Blanks(gaps[0] + 1) + (RenderWord(words[0]) + RenderMore(words[1..], gaps[1..], tail))
  }

  /** A non-empty list of words, with any leading, separating and trailing spaces. */
  function RenderList(lead: nat, words: seq<seq<Fragment>>, gaps: seq<nat>, tail: nat): string
    requires |words| == |gaps| + 1
  {
    Blanks(lead) + (RenderWord(words[0]) + RenderMore(words[1..], gaps, tail))
  }

  function Texts(words: seq<seq<Fragment>>): seq<string> {
    if words == [] then [] else [Text(words[0])] + Texts(words[1..])
  }

  // ---------- Reading back what was quoted ----------

  lemma {:induction false} ReadBare(word: string, text: string, rest: string)
    requires SPACE !in text && SINGLE !in text && DOUBLE !in text
    ensures Tokens(Literal, word, text + rest) == Tokens(Literal, word + text, rest)
    decreases |text|
  {
    if text == "" {
      assert text + rest == rest && word + text == word;
    } else {
      assert text[0] in text && (text + rest)[1..] == text[1..] + rest;
      assert (word + [text[0]]) + text[1..] == word + text;
      ReadBare(word + [text[0]], text[1..], rest);
    }
  }

  lemma {:induction false} ReadSingle(word: string, text: string, rest: string)
    requires SINGLE !in text
    ensures Tokens(InSingle, word, text + [SINGLE] + rest) == Tokens(Literal, word + text, rest)
    decreases |text|
  {
    var s := text + [SINGLE] + rest;
    if text == "" {
      assert s[0] == SINGLE && s[1..] == rest && word + text == word;
    } else {
      assert text[0] in text && s[0] == text[0] && s[1..] == text[1..] + [SINGLE] + rest;
      assert (word + [text[0]]) + text[1..] == word + text;
      ReadSingle(word + [text[0]], text[1..], rest);
    }
  }

  lemma {:induction false} ReadDouble(word: string, text: string, escaped: seq<bool>, rest: string)
    requires Escapes(text, escaped)
    ensures Tokens(InDouble, word, Escape(text, escaped) + [DOUBLE] + rest) == Tokens(Literal, word + text, rest)
    decreases |text|
  {
    var s := Escape(text, escaped) + [DOUBLE] + rest;
    if text == "" {
      assert s[0] == DOUBLE && s[1..] == rest && word + text == word;
    } else {
      var c, after := text[0], Escape(text[1..], escaped[1..]) + [DOUBLE] + rest;
      assert (word + [c]) + text[1..] == word + text;
      ReadDouble(word + [c], text[1..], escaped[1..], rest);
      if escaped[0] {
        assert s[0] == BACKSLASH && s[1..][0] == c && s[1..][1..] == after;
        assert Tokens(InDouble, word, s) == Tokens(InEscape, word, s[1..]);
        assert Tokens(InEscape, word, s[1..]) == Tokens(InDouble, word + [c], after);
      } else {
        assert s[0] == c && s[1..] == after;
      }
    }
  }

  lemma ReadBareFragment(word: string, text: string, rest: string)
    requires Renders(Bare(text))
    ensures Tokens(Literal, word, text + rest) == Tokens(Literal, word + text, rest)
    ensures Tokens(Spaces, "", text + rest) == Tokens(Literal, text, rest)
  {
    ReadBare(word, text, rest);
    ReadBare([text[0]], text[1..], rest);
    assert text[0] in text && (text + rest)[1..] == text[1..] + rest && [text[0]] + text[1..] == text;
  }

  lemma ReadSingleFragment(word: string, text: string, rest: string)
    requires Renders(Single(text))
    ensures Tokens(Literal, word, [SINGLE] + text + [SINGLE] + rest) == Tokens(Literal, word + text, rest)
    ensures Tokens(Spaces, "", [SINGLE] + text + [SINGLE] + rest) == Tokens(Literal, text, rest)
  {
    var s := [SINGLE] + text + [SINGLE] + rest;
    ReadSingle(word, text, rest);
    ReadSingle("", text, rest);
    assert "" + text == text && s[0] == SINGLE && s[1..] == text + [SINGLE] + rest;
  }

  lemma ReadDoubleFragment(word: string, text: string, escaped: seq<bool>, rest: string)
    requires Escapes(text, escaped)
    ensures var e := Escape(text, escaped);
      && Tokens(Literal, word, [DOUBLE] + e + [DOUBLE] + rest) == Tokens(Literal, word + text, rest)
      && Tokens(Spaces, "", [DOUBLE] + e + [DOUBLE] + rest) == Tokens(Literal, text, rest)
  {
    var e := Escape(text, escaped);
    var s := [DOUBLE] + e + [DOUBLE] + rest;
    ReadDouble(word, text, escaped, rest);
    ReadDouble("", text, escaped, rest);
    assert "" + text == text && s[0] == DOUBLE && s[1..] == e + [DOUBLE] + rest;
  }

  /** A fragment adds its text to the word it is in, or starts a word with it. */
  lemma ReadFragment(word: string, f: Fragment, rest: string)
    requires Renders(f)
    ensures Tokens(Literal, word, RenderFragment(f) + rest) == Tokens(Literal, word + f.text, rest)
    ensures Tokens(Spaces, "", RenderFragment(f) + rest) == Tokens(Literal, f.text, rest)
  {
    hide Tokens, Escape;
    match f
    case Bare(text) => ReadBareFragment(word, text, rest);
    case Single(text) => ReadSingleFragment(word, text, rest);
    case Double(text, escaped) => ReadDoubleFragment(word, text, escaped, rest);
  }

  lemma {:induction false} ReadFragments(word: string, fs: seq<Fragment>, rest: string)
    requires forall f :: f in fs ==> Renders(f)
    ensures Tokens(Literal, word, RenderWord(fs) + rest) == Tokens(Literal, word + Text(fs), rest)
    decreases |fs|
  {
    hide Tokens, RenderFragment, Renders;
    if fs == [] {
      assert RenderWord(fs) + rest == rest && word + Text(fs) == word;
    } else {
      var after := RenderWord(fs[1..]) + rest;
      assert RenderWord(fs) + rest == RenderFragment(fs[0]) + after;
      assert (word + fs[0].text) + Text(fs[1..]) == word + Text(fs);
      ReadFragment(word, fs[0], after);
      ReadFragments(word + fs[0].text, fs[1..], rest);
    }
  }

  lemma ReadWord(fs: seq<Fragment>, rest: string)
    requires RendersWord(fs)
    ensures Tokens(Spaces, "", RenderWord(fs) + rest) == Tokens(Literal, Text(fs), rest)
  {
    hide Tokens, RenderFragment, Renders;
    var after := RenderWord(fs[1..]) + rest;
    assert RenderWord(fs) + rest == RenderFragment(fs[0]) + after;
    assert fs[0] in fs && fs == [fs[0]] + fs[1..];
    ReadFragment("", fs[0], after);
    ReadFragments(fs[0].text, fs[1..], rest);
  }

  lemma {:induction false} ReadBlanks(n: nat, rest: string)
    ensures Tokens(Spaces, "", Blanks(n) + rest) == Tokens(Spaces, "", rest)
  {
    var s := Blanks(n) + rest;
    if n == 0 {
      assert s == rest;
    } else {
      assert s[0] == SPACE && s[1..] == Blanks(n - 1) + rest;
      ReadBlanks(n - 1, rest);
    }
  }

  lemma ReadGap(word: string, n: nat, rest: string)
    requires n > 0
    ensures Tokens(Literal, word, Blanks(n) + rest) == Continue([word], Tokens(Spaces, "", rest))
  {
    var s := Blanks(n) + rest;
    assert s[0] == SPACE && s[1..] == Blanks(n - 1) + rest;
    ReadBlanks(n - 1, rest);
  }

  lemma {:induction false} ReadMore(word: string, words: seq<seq<Fragment>>, gaps: seq<nat>, tail: nat)
    requires |gaps| == |words| && forall w :: w in words ==> RendersWord(w)
    ensures Tokens(Literal, word, RenderMore(words, gaps, tail)) == Some([word] + Texts(words))
    decreases |words|
  {
    hide Tokens, RendersWord;
    if words == [] {
      ReadTail(word, tail);
      assert [word] + [] == [word];
    } else {
      assert words[0] in words;
      var rest := RenderMore(words[1..], gaps[1..], tail);
      ReadGap(word, gaps[0] + 1, RenderWord(words[0]) + rest);
      ReadWord(words[0], rest);
      ReadMore(Text(words[0]), words[1..], gaps[1..], tail);
    }
  }

  lemma ReadTail(word: string, tail: nat)
    ensures Tokens(Literal, word, Blanks(tail)) == Some([word])
  {
    if tail == 0 {
      assert Blanks(tail) == "";
    } else {
      ReadGap(word, tail, "");
      assert Blanks(tail) + "" == Blanks(tail) && [word] + [] == [word];
    }
  }

  /** Quoting and then tokenizing is the identity: any rendering of a non-empty list of words, in
      any mix of bare, single-quoted and double-quoted fragments, with any spacing, reads back. */
  lemma QuotingRoundTrip(lead: nat, words: seq<seq<Fragment>>, gaps: seq<nat>, tail: nat)
    requires |words| == |gaps| + 1 && forall w :: w in words ==> RendersWord(w)
    ensures Arguments(RenderList(lead, words, gaps, tail)) == Some(Texts(words))
  {
    assert words[0] in words;
    var rest := RenderMore(words[1..], gaps, tail);
    ReadBlanks(lead, RenderWord(words[0]) + rest);
    ReadWord(words[0], rest);
    ReadMore(Text(words[0]), words[1..], gaps, tail);
  }

  // ---------- Every value that is read is a rendering ----------

  /** A rendered list: the spaces in front, the words, the spaces after each but the last (one less
      than there are), and the spaces behind. */
  datatype Rendering = Rendering(lead: nat, words: seq<seq<Fragment>>, gaps: seq<nat>, tail: nat)

  ghost predicate Legal(r: Rendering) {
    |r.words| == |r.gaps| + 1 && forall w :: w in r.words ==> RendersWord(w)
  }

  ghost predicate IsRendering(value: string, r: Rendering, texts: seq<string>) {
    Legal(r) && value == RenderList(r.lead, r.words, r.gaps, r.tail) && texts == Texts(r.words)
  }

  /** What follows in a word: more of it, then further words. */
  datatype Rest = Rest(fs: seq<Fragment>, words: seq<seq<Fragment>>, gaps: seq<nat>, tail: nat)

  ghost predicate LegalRest(r: Rest) {
    && (forall f :: f in r.fs ==> Renders(f))
    && |r.gaps| == |r.words| && forall w :: w in r.words ==> RendersWord(w)
  }

  ghost predicate IsRest(s: string, r: Rest, word: string, texts: seq<string>) {
    && LegalRest(r) && s == RenderWord(r.fs) + RenderMore(r.words, r.gaps, r.tail)
    && texts == [word + Text(r.fs)] + Texts(r.words)
  }

  /** One more fragment in front. */
  lemma RestMore(s: string, f: Fragment, r: Rest, word: string, texts: seq<string>)
    requires Renders(f) && IsRest(s, r, word + f.text, texts)
    ensures IsRest(RenderFragment(f) + s, r.(fs := [f] + r.fs), word, texts)
  {
    hide Renders, RenderFragment, RendersWord;
    var fs := [f] + r.fs;
    assert fs[0] == f && fs[1..] == r.fs && forall g :: g in fs ==> g == f || g in r.fs;
    assert word + f.text + Text(r.fs) == word + Text(fs);
    assert RenderFragment(f) + s == RenderWord(fs) + RenderMore(r.words, r.gaps, r.tail);
  }

  /** The word is over: one space and what follows it, spaces alone or a rendered list. */
  lemma RestAfterSpace(s: string, word: string, after: Rendering, texts: seq<string>) returns (r: Rest)
    requires IsRendering(s, after, texts) || IsBlank(s, after, texts)
    ensures IsRest([SPACE] + s, r, word, [word] + texts)
  {
    hide RendersWord;
    assert word + "" == word && [SPACE] + Blanks(after.lead) == Blanks(after.lead + 1);
    if after.words == [] {
      r := Rest([], [], [], after.lead + 1);
      assert "" + Blanks(after.lead + 1) == Blanks(after.lead + 1) && [word] + [] == [word];
    } else {
      r := Rest([], after.words, [after.lead] + after.gaps, after.tail);
      assert r.gaps[1..] == after.gaps;
      SpaceBefore(after.lead, RenderWord(after.words[0]) + RenderMore(after.words[1..], after.gaps, after.tail));
    }
  }

  lemma SpaceBefore(lead: nat, t: string)
    ensures [SPACE] + (Blanks(lead) + t) == "" + (Blanks(lead + 1) + t)
  {
    assert [SPACE] + Blanks(lead) == Blanks(lead + 1);
  }

  /** Nothing but spaces. */
  ghost predicate IsBlank(s: string, r: Rendering, texts: seq<string>) {
    r.words == [] && s == Blanks(r.lead) && texts == []
  }

  lemma LeadingSpace(s: string, r: Rendering, texts: seq<string>)
    requires IsRendering(s, r, texts) || IsBlank(s, r, texts)
    ensures var t, q := [SPACE] + s, r.(lead := r.lead + 1); IsRendering(t, q, texts) || IsBlank(t, q, texts)
  {
    hide RendersWord;
    assert [SPACE] + Blanks(r.lead) == Blanks(r.lead + 1);
    if r.words != [] {
      SpaceBefore(r.lead, RenderWord(r.words[0]) + RenderMore(r.words[1..], r.gaps, r.tail));
    }
  }

  /** A word that begins with a fragment. */
  lemma FirstWord(s: string, f: Fragment, r: Rest, texts: seq<string>) returns (q: Rendering)
    requires Renders(f) && IsRest(s, r, f.text, texts)
    ensures IsRendering(RenderFragment(f) + s, q, texts)
  {
    hide Renders, RenderFragment;
    var fs := [f] + r.fs;
    assert fs[0] == f && fs[1..] == r.fs && forall g :: g in fs ==> g == f || g in r.fs;
    q := Rendering(0, [fs] + r.words, r.gaps, r.tail);
    assert q.words[0] == fs && q.words[1..] == r.words && RendersWord(fs);
    assert forall w :: w in q.words ==> w == fs || w in r.words;
    assert Text(fs) == f.text + Text(r.fs);
    var more := RenderMore(r.words, r.gaps, r.tail);
    assert RenderFragment(f) + s == Blanks(0) + (RenderWord(fs) + more);
  }

  lemma DoubleRendered(text: string, escaped: seq<bool>, after: string)
    ensures [DOUBLE] + (Escape(text, escaped) + [DOUBLE] + after) == RenderFragment(Double(text, escaped)) + after
    ensures "" + text == text
  {}

  lemma SingleRendered(text: string, after: string)
    ensures [SINGLE] + (text + [SINGLE] + after) == RenderFragment(Single(text)) + after && "" + text == text
  {}

  lemma BareRendered(c: char, after: string)
    requires c != NUL && c != SPACE && c != SINGLE && c != DOUBLE
    ensures Renders(Bare([c])) && [c] + after == RenderFragment(Bare([c])) + after
  {}

  /** What is read between words. */
  lemma {:induction false} SpacesRead(s: string, texts: seq<string>) returns (r: Rendering)
    requires NUL !in s && Tokens(Spaces, "", s) == Some(texts)
    ensures IsRendering(s, r, texts) || IsBlank(s, r, texts)
    decreases |s|
  {
    hide IsRendering, IsBlank, IsRest, RenderList, Texts, RenderFragment, Renders, Escape;
    if s == "" {
      r := NoWords();
    } else {
      var c, rest := s[0], s[1..];
      assert s == [c] + rest && NUL !in rest;
      if c == SPACE {
        r := SpacesRead(rest, texts);
        LeadingSpace(rest, r, texts);
        r := r.(lead := r.lead + 1);
      } else if c == DOUBLE {
        var text, escaped, after, q := DoubleRead("", rest, texts);
        DoubleRendered(text, escaped, after);
        r := FirstWord(after, Double(text, escaped), q, texts);
      } else if c == SINGLE {
        var text, after, q := SingleRead("", rest, texts);
        SingleRendered(text, after);
        r := FirstWord(after, Single(text), q, texts);
      } else {
        var q := LiteralRead([c], rest, texts);
        BareRendered(c, rest);
        r := FirstWord(rest, Bare([c]), q, texts);
      }
    }
  }

  /** What is read in a word outside quotes. */
  lemma {:induction false} LiteralRead(word: string, s: string, texts: seq<string>) returns (r: Rest)
    requires NUL !in s && Tokens(Literal, word, s) == Some(texts)
    ensures IsRest(s, r, word, texts)
    decreases |s|
  {
    hide IsRendering, IsBlank, IsRest, RenderList, Texts, RenderFragment, Renders, Escape;
    if s == "" {
      r := NoRest(word);
    } else {
      var c, rest := s[0], s[1..];
      assert s == [c] + rest && NUL !in rest;
      if c == SPACE {
        var words := Tokens(Spaces, "", rest).value;
        var after := SpacesRead(rest, words);
        r := RestAfterSpace(rest, word, after, words);
      } else if c == DOUBLE {
        var text, escaped, after, q := DoubleRead(word, rest, texts);
        var f := Double(text, escaped);
        DoubleRendered(text, escaped, after);
        RestMore(after, f, q, word, texts);
        r := q.(fs := [f] + q.fs);
      } else if c == SINGLE {
        var text, after, q := SingleRead(word, rest, texts);
        SingleRendered(text, after);
        RestMore(after, Single(text), q, word, texts);
        r := q.(fs := [Single(text)] + q.fs);
      } else {
        var q := LiteralRead(word + [c], rest, texts);
        BareRendered(c, rest);
        RestMore(rest, Bare([c]), q, word, texts);
        r := q.(fs := [Bare([c])] + q.fs);
      }
    }
  }

  lemma NoWords() returns (r: Rendering)
    ensures IsBlank("", r, [])
  {
    r := Rendering(0, [], [], 0);
    assert Blanks(0) == "";
  }

  lemma NoRest(word: string) returns (r: Rest)
    ensures IsRest("", r, word, [word])
  {
    r := Rest([], [], [], 0);
    assert word + "" == word && Blanks(0) == "" && [word] + [] == [word];
  }

  /** What is read after a single quote: up to the next one, then the rest of the word. */
  lemma {:induction false} SingleRead(word: string, s: string, texts: seq<string>)
    returns (text: string, after: string, r: Rest)
    requires NUL !in s && Tokens(InSingle, word, s) == Some(texts)
    ensures Renders(Single(text)) && s == text + [SINGLE] + after && NUL !in after
    ensures IsRest(after, r, word + text, texts)
    decreases |s|
  {
    hide IsRendering, IsRest, RenderList, Texts;
    var c, rest := s[0], s[1..];
    assert s == [c] + rest && NUL !in rest && c != NUL;
    if c == SINGLE {
      text, after := "", rest;
      assert word + "" == word;
      r := LiteralRead(word, rest, texts);
    } else {
      text, after, r := SingleRead(word + [c], rest, texts);
      assert word + [c] + text == word + ([c] + text);
      text := [c] + text;
    }
  }

  /** What is read after a double quote: up to the next one that no backslash escapes, then the rest of
      the word. */
  lemma {:induction false} DoubleRead(word: string, s: string, texts: seq<string>)
    returns (text: string, escaped: seq<bool>, after: string, r: Rest)
    requires NUL !in s && Tokens(InDouble, word, s) == Some(texts)
    ensures Renders(Double(text, escaped)) && s == Escape(text, escaped) + [DOUBLE] + after && NUL !in after
    ensures IsRest(after, r, word + text, texts)
    decreases |s|
  {
    hide IsRendering, IsRest, RenderList, Texts, Escape;
    var c, rest := s[0], s[1..];
    assert s == [c] + rest && NUL !in rest && c != NUL;
    if c == DOUBLE {
      text, escaped, after := "", [], rest;
      EscapeNothing();
      assert word + "" == word;
      r := LiteralRead(word, rest, texts);
    } else if c == BACKSLASH {
      assert Tokens(InEscape, word, rest) == Some(texts);
      var d, later := rest[0], rest[1..];
      assert Next(InEscape, word, d, later) == Tokens(InDouble, word + [d], later);
      assert rest == [d] + later && NUL !in later && d != NUL;
      text, escaped, after, r := DoubleRead(word + [d], later, texts);
      assert word + [d] + text == word + ([d] + text);
      EscapeMore(d, true, text, escaped);
      text, escaped := [d] + text, [true] + escaped;
    } else {
      text, escaped, after, r := DoubleRead(word + [c], rest, texts);
      assert word + [c] + text == word + ([c] + text);
      EscapeMore(c, false, text, escaped);
      text, escaped := [c] + text, [false] + escaped;
    }
  }

  lemma EscapeNothing()
    ensures Escape("", []) == ""
  {}

  /** One more byte between double quotes. */
  lemma EscapeMore(c: char, first: bool, text: string, escaped: seq<bool>)
    requires Renders(Double(text, escaped)) && c != NUL && (c == DOUBLE || c == BACKSLASH ==> first)
    ensures Renders(Double([c] + text, [first] + escaped))
    ensures Escape([c] + text, [first] + escaped)
         == (if first then [BACKSLASH, c] else [c]) + Escape(text, escaped)
  {
    assert ([c] + text)[1..] == text && ([first] + escaped)[1..] == escaped;
  }

  /** A value without NUL is read as these words exactly if it renders them; so it fails exactly if it
      is no rendering of any. */
  lemma ReadIffRendered(value: string, texts: seq<string>)
    requires NUL !in value
    ensures Arguments(value) == Some(texts) <==> exists r :: IsRendering(value, r, texts)
  {
    if Arguments(value) == Some(texts) {
      var r := SpacesRead(value, texts);
      assert IsRendering(value, r, texts);
    }
    if r :| IsRendering(value, r, texts) {
      QuotingRoundTrip(r.lead, r.words, r.gaps, r.tail);
    }
  }

  /** Every NUL-free word has a rendering, so every non-empty list of NUL-free words is reachable. */
  lemma EveryWordRenders(text: string)
    requires NUL !in text
    ensures exists fs :: RendersWord(fs) && Text(fs) == text
  {
    var f := Double(text, seq(|text|, _ => true));
    assert text + "" == text && [f][1..] == [];
    assert RendersWord([f]) && Text([f]) == text;
  }
}
