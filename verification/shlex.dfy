/** `shlex.split(s)` in its default configuration: POSIX mode, words split on
    whitespace only, no comment characters. The scanner reads one character
    at a time exactly as `shlex.read_token` does; a quote left open or a
    backslash at the very end is the only way to fail. */
module Shlex {
  import opened Results

  /** The separators of `shlex`: space, tab, carriage return, newline. */
  predicate IsShlexSpace(c: char) {
    c == ' ' || c == '\t' || c == '\r' || c == '\n'
  }

  predicate IsQuote(c: char) {
    c == '\'' || c == '"'
  }

  /** The states of `read_token`: between words (' '), inside a word ('a'),
      inside single or double quotes, and just after a backslash (which
      remembers whether it was read inside double quotes). */
  datatype Mode = Between | InWord | InSingle | InDouble | Escaped(inDouble: bool)

  /** Scanner state: the mode, the word being built and the words finished. */
  datatype Scan = Scan(mode: Mode, word: string, words: seq<string>)

  /** The two `ValueError`s `shlex` raises. */
  datatype LexError = NoClosingQuotation | NoEscapedCharacter

  const Start := Scan(Between, [], [])

  /** One character of input. Every way into `InWord` appends a character or
      closes a quote, so the word is always emitted when it ends (shlex's
      `token or quoted` test always holds there). */
  function Step(st: Scan, c: char): Scan {
    match st.mode
    case Between =>
      if IsShlexSpace(c) then st
      else if c == '\\' then st.(mode := Escaped(false))
      else if c == '\'' then st.(mode := InSingle)
      else if c == '"' then st.(mode := InDouble)
      else st.(mode := InWord, word := [c])
    case InWord =>
      if IsShlexSpace(c) then Scan(Between, [], st.words + [st.word])
      else if c == '\'' then st.(mode := InSingle)
      else if c == '"' then st.(mode := InDouble)
      else if c == '\\' then st.(mode := Escaped(false))
      else st.(word := st.word + [c])
    case InSingle =>
      if c == '\'' then st.(mode := InWord) else st.(word := st.word + [c])
    case InDouble =>
      if c == '"' then st.(mode := InWord)
      else if c == '\\' then st.(mode := Escaped(true))
      else st.(word := st.word + [c])
    case Escaped(inDouble) =>
      // Inside double quotes only `"` and `\` are escapable; before anything
      // else the backslash is kept.
      if inDouble then
        var kept := if c == '\\' || c == '"' then [c] else ['\\', c];
        st.(mode := InDouble, word := st.word + kept)
      else
        st.(mode := InWord, word := st.word + [c])
  }

  /** The scanner after reading all of `s`. */
  function Run(st: Scan, s: string): Scan
    decreases |s|
  {
    if s == [] then st else Run(Step(st, s[0]), s[1..])
  }

  /** End of input: finish the pending word, or raise if a quote or an
      escape is still open. */
  function Finish(st: Scan): Result<seq<string>, LexError> {
    match st.mode
    case Between => Ok(st.words)
    case InWord => Ok(st.words + [st.word])
    case InSingle => Err(NoClosingQuotation)
    case InDouble => Err(NoClosingQuotation)
    case Escaped(_) => Err(NoEscapedCharacter)
  }

  /** `shlex.split(s)` */
  function Split(s: string): Result<seq<string>, LexError> {
    Finish(Run(Start, s))
  }

  /** Reading `a + b` is reading `a` and then `b`. */
  lemma {:induction false} RunAppend(st: Scan, a: string, b: string)
    ensures Run(st, a + b) == Run(Run(st, a), b)
    decreases |a|
  {
    if a == [] {
      assert a + b == b;
    } else {
      assert (a + b)[0] == a[0] && (a + b)[1..] == a[1..] + b;
      RunAppend(Step(st, a[0]), a[1..], b);
    }
  }

  /** Once the scanner is inside single quotes, input without a closing `'`
      keeps it there. */
  lemma {:induction false} StaysInSingle(st: Scan, t: string)
    requires st.mode == InSingle && '\'' !in t
    ensures Run(st, t).mode == InSingle
    decreases |t|
  {
    if t != [] {
      StaysInSingle(Step(st, t[0]), t[1..]);
    }
  }

  /** Fail-closed on quoting: after any input that splits cleanly, opening a
      single quote that is never closed makes the whole input fail. */
  lemma UnclosedSingleQuoteFails(s: string, t: string)
    requires Split(s).Ok? && '\'' !in t
    ensures Split(s + ['\''] + t) == Err(NoClosingQuotation)
  {
    var st := Run(Start, s);
    assert st.mode == Between || st.mode == InWord;
    RunAppend(Start, s, ['\''] + t);
    assert s + ['\''] + t == s + (['\''] + t);
    RunAppend(st, ['\''], t);
    StaysInSingle(Step(st, '\''), t);
  }

  /** Inside double quotes, input without a closing `"` keeps the scanner
      inside them, possibly just after a backslash; without backslashes it
      stays plainly inside. */
  lemma {:induction false} StaysInDouble(st: Scan, t: string)
    requires st.mode == InDouble || st.mode == Escaped(true)
    requires '"' !in t
    ensures Run(st, t).mode == InDouble || Run(st, t).mode == Escaped(true)
    ensures st.mode == InDouble && '\\' !in t ==> Run(st, t).mode == InDouble
    decreases |t|
  {
    if t != [] {
      assert t[0] != '"' && '"' !in t[1..];
      assert '\\' !in t ==> t[0] != '\\' && '\\' !in t[1..];
      StaysInDouble(Step(st, t[0]), t[1..]);
    }
  }

  /** The same for double quotes: after input that splits cleanly, a `"`
      that is never closed makes the whole input fail, with "No closing
      quotation" unless the input ends inside an escape. */
  lemma UnclosedDoubleQuoteFails(s: string, t: string)
    requires Split(s).Ok? && '"' !in t
    ensures Split(s + ['"'] + t).Err?
    ensures '\\' !in t ==> Split(s + ['"'] + t) == Err(NoClosingQuotation)
  {
    var st := Run(Start, s);
    assert st.mode == Between || st.mode == InWord;
    RunAppend(Start, s, ['"'] + t);
    assert s + ['"'] + t == s + (['"'] + t);
    RunAppend(st, ['"'], t);
    StaysInDouble(Step(st, '"'), t);
  }

  /** Fail-closed on escapes: after any input that splits cleanly, a lone
      trailing backslash makes the whole input fail. */
  lemma TrailingBackslashFails(s: string)
    requires Split(s).Ok?
    ensures Split(s + ['\\']) == Err(NoEscapedCharacter)
  {
    RunAppend(Start, s, ['\\']);
  }

  /** Plain-text escaping, used only to state the round trip below: every
      character behind a backslash, and `''` for the empty word. */
  function Quote(w: string): string {
    if w == [] then "''" else BackslashAll(w)
  }

  function BackslashAll(w: string): (r: string)
    ensures |r| == 2 * |w|
  {
    if w == [] then [] else ['\\', w[0]] + BackslashAll(w[1..])
  }

  /** The words quoted and joined with single spaces. */
  function Render(ws: seq<string>): string {
    if ws == [] then []
    else if |ws| == 1 then Quote(ws[0])
    else Quote(ws[0]) + " " + Render(ws[1..])
  }

  lemma {:induction false} BackslashAllExtends(st: Scan, w: string)
    requires st.mode == InWord
    ensures Run(st, BackslashAll(w)) == st.(word := st.word + w)
    decreases |w|
  {
    if w == [] {
      assert st.word + w == st.word;
    } else {
      var rest := BackslashAll(w[1..]);
      assert BackslashAll(w) == ['\\', w[0]] + rest;
      RunAppend(st, ['\\', w[0]], rest);
      var st' := st.(word := st.word + [w[0]]);
      TwoSteps(st, '\\', w[0]);
      BackslashAllExtends(st', w[1..]);
      assert st.word + [w[0]] + w[1..] == st.word + w;
    }
  }

  lemma TwoSteps(st: Scan, c: char, d: char)
    ensures Run(st, [c, d]) == Step(Step(st, c), d)
  {
    assert [c, d][1..] == [d];
    assert Run(st, [c, d]) == Run(Step(st, c), [d]);
    assert [d][1..] == [];
    assert Run(Step(st, c), [d]) == Run(Step(Step(st, c), d), []);
  }

  /** From between words, a quoted word leaves the scanner inside a word
      holding exactly that word. */
  lemma QuoteReadsWord(words: seq<string>, w: string)
    ensures Run(Scan(Between, [], words), Quote(w)) == Scan(InWord, w, words)
  {
    var st := Scan(Between, [], words);
    if w == [] {
      assert Quote(w) == ['\''] + ['\''];
      RunAppend(st, ['\''], ['\'']);
    } else {
      var rest := BackslashAll(w[1..]);
      assert Quote(w) == ['\\', w[0]] + rest;
      RunAppend(st, ['\\', w[0]], rest);
      TwoSteps(st, '\\', w[0]);
      assert Step(Step(st, '\\'), w[0]) == Scan(InWord, [w[0]], words);
      BackslashAllExtends(Scan(InWord, [w[0]], words), w[1..]);
      assert [w[0]] + w[1..] == w;
    }
  }

  lemma {:induction false} RenderThenFinish(words: seq<string>, ws: seq<string>)
    requires ws != []
    ensures Finish(Run(Scan(Between, [], words), Render(ws))) == Ok(words + ws)
    decreases |ws|
  {
    if |ws| == 1 {
      QuoteReadsWord(words, ws[0]);
      assert words + ws == words + [ws[0]];
    } else {
      var rest := Render(ws[1..]);
      assert Render(ws) == Quote(ws[0]) + (" " + rest);
      QuoteThenSpace(words, ws[0], rest);
      RenderThenFinish(words + [ws[0]], ws[1..]);
      assert words + [ws[0]] + ws[1..] == words + ws;
    }
  }

  /** A quoted word followed by a space is one finished word. */
  lemma QuoteThenSpace(words: seq<string>, w: string, rest: string)
    ensures Run(Scan(Between, [], words), Quote(w) + (" " + rest)) == Run(Scan(Between, [], words + [w]), rest)
  {
    var st := Scan(Between, [], words);
    QuoteReadsWord(words, w);
    RunAppend(st, Quote(w), " " + rest);
    RunAppend(Scan(InWord, w, words), " ", rest);
    assert Run(Scan(InWord, w, words), " ") == Scan(Between, [], words + [w]);
  }

  /** Round trip: splitting the rendering of any list of words gives back
      exactly those words, empty words and words holding quotes, spaces or
      backslashes included. */
  lemma SplitRender(ws: seq<string>)
    ensures Split(Render(ws)) == Ok(ws)
  {
    if ws != [] {
      RenderThenFinish([], ws);
      assert [] + ws == ws;
    }
  }

  /** A character `shlex` copies into a word with no special meaning. */
  predicate IsPlain(c: char) {
    !IsShlexSpace(c) && !IsQuote(c) && c != '\\'
  }

  predicate PlainWord(w: string) {
    w != [] && forall i :: 0 <= i < |w| ==> IsPlain(w[i])
  }

  /** Words joined with single spaces, as a caller would type them. */
  function JoinWords(ws: seq<string>): string {
    if ws == [] then []
    else if |ws| == 1 then ws[0]
    else ws[0] + " " + JoinWords(ws[1..])
  }

  lemma {:induction false} PlainExtends(st: Scan, w: string)
    requires st.mode == InWord
    requires forall i :: 0 <= i < |w| ==> IsPlain(w[i])
    ensures Run(st, w) == st.(word := st.word + w)
    decreases |w|
  {
    if w == [] {
      assert st.word + w == st.word;
    } else {
      PlainExtends(st.(word := st.word + [w[0]]), w[1..]);
      assert st.word + [w[0]] + w[1..] == st.word + w;
    }
  }

  lemma PlainWordReads(words: seq<string>, w: string)
    requires PlainWord(w)
    ensures Run(Scan(Between, [], words), w) == Scan(InWord, w, words)
  {
    RunAppend(Scan(Between, [], words), [w[0]], w[1..]);
    assert [w[0]] + w[1..] == w;
    PlainExtends(Scan(InWord, [w[0]], words), w[1..]);
  }

  lemma {:induction false} JoinThenFinish(words: seq<string>, ws: seq<string>)
    requires ws != [] && forall k :: 0 <= k < |ws| ==> PlainWord(ws[k])
    ensures Finish(Run(Scan(Between, [], words), JoinWords(ws))) == Ok(words + ws)
    decreases |ws|
  {
    var w := ws[0];
    if |ws| == 1 {
      PlainWordReads(words, w);
      assert words + ws == words + [w];
    } else {
      var rest := JoinWords(ws[1..]);
      assert JoinWords(ws) == w + (" " + rest);
      PlainThenSpace(words, w, rest);
      JoinThenFinish(words + [w], ws[1..]);
      assert words + [w] + ws[1..] == words + ws;
    }
  }

  /** A plain word followed by a space is one finished word. */
  lemma PlainThenSpace(words: seq<string>, w: string, rest: string)
    requires PlainWord(w)
    ensures Run(Scan(Between, [], words), w + (" " + rest)) == Run(Scan(Between, [], words + [w]), rest)
  {
    var st := Scan(Between, [], words);
    PlainWordReads(words, w);
    RunAppend(st, w, " " + rest);
    RunAppend(Scan(InWord, w, words), " ", rest);
    assert Run(Scan(InWord, w, words), " ") == Scan(Between, [], words + [w]);
  }

  /** Text without quotes or backslashes splits at whitespace: words of plain
      characters joined with spaces split back into exactly those words. */
  lemma SplitPlainWords(ws: seq<string>)
    requires forall k :: 0 <= k < |ws| ==> PlainWord(ws[k])
    ensures Split(JoinWords(ws)) == Ok(ws)
  {
    if ws != [] {
      JoinThenFinish([], ws);
      assert [] + ws == ws;
    }
  }
}
