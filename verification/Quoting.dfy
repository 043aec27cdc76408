/**
 The shell text rshx hands to ssh, and how a shell takes it apart: words are
 split at blanks, with the quoting of sections 2.2.1 and 2.2.2 of the POSIX.1-2017
 Shell Command Language. `Lex` stops at the first unquoted character that means
 anything else to a shell, so what it reports is one simple command's words.
 */
module Quoting {
  import opened Wrappers
  import opened HostPatterns

  // ----- the shell's side -----

  datatype Lexed = Lexed(words: seq<string>, rest: string) | Unterminated

  predicate IsBlank(c: char) {
    c == ' ' || c == '\t'
  }

  predicate IsSpecial(c: char) {
    || c == '|' || c == '&' || c == ';' || c == '<' || c == '>' || c == '(' || c == ')' || c == '$'
    || c == '`' || c == '"' || c == '\n' || c == '*' || c == '?' || c == '[' || c == '#' || c == '~'
    || c == '=' || c == '%'
  }

  /** A character an unquoted word is made of. */
  predicate IsOrdinary(c: char) {
    !IsBlank(c) && !IsSpecial(c) && c != '\'' && c != '\\'
  }

  function Flush(word: Option<string>): seq<string> {
    match word
    case None => []
    case Some(w) => [w]
  }

  function Begun(word: Option<string>): string {
    match word
    case None => ""
    case Some(w) => w
  }

  function Prepend(words: seq<string>, lexed: Lexed): Lexed {
    match lexed
    case Unterminated => Unterminated
    case Lexed(more, rest) => Lexed(words + more, rest)
  }

  /** The words of `line`: `word` is the part of the first one already read, `quoted` whether inside single quotes. */
  function Scan(line: string, word: Option<string>, quoted: bool): Lexed
    decreases |line|
  {
    if quoted then
      // Every character up to the next single quote is itself.
      if line == "" then Unterminated
      else if line[0] == '\'' then Scan(line[1..], word, false)
      else Scan(line[1..], Some(Begun(word) + [line[0]]), true)
    else if line == "" || IsSpecial(line[0]) then Lexed(Flush(word), line)
    else if IsBlank(line[0]) then Prepend(Flush(word), Scan(line[1..], None, false))
    else if line[0] == '\'' then Scan(line[1..], Some(Begun(word)), true)
    else if line[0] == '\\' then
      // The next character is itself; a newline joins two lines.
      if |line| == 1 then Unterminated
      else if line[1] == '\n' then Scan(line[2..], word, false)
      else Scan(line[2..], Some(Begun(word) + [line[1]]), false)
    else Scan(line[1..], Some(Begun(word) + [line[0]]), false)
  }

  function Lex(line: string): Lexed {
    Scan(line, None, false)
  }

  // ----- rshx's side -----

  /** A single quote becomes four characters; any other character stays one. */
  function Escaped(s: string): string {
    if s == "" then ""
    else (if s[0] == '\'' then "'\\''" else [s[0]]) + Escaped(s[1..])
  }

  /** A word of a command line: as it stands, or in single quotes. */
  datatype Token = Bare(text: string) | Quoted(content: string)

  function Text(t: Token): string {
    match t
    case Bare(text) => text
    case Quoted(content) => "'" + Escaped(content) + "'"
  }

  function Meaning(t: Token): string {
    match t
    case Bare(text) => text
    case Quoted(content) => content
  }

  predicate Plain(s: string) {
    forall i :: 0 <= i < |s| ==> IsOrdinary(s[i])
  }

  predicate PlainTokens(ts: seq<Token>) {
    forall i :: 0 <= i < |ts| ==> ts[i].Bare? ==> Plain(ts[i].text)
  }

  /** Words as ssh joins them. */
  function Line(ts: seq<Token>): string {
    if ts == [] then ""
    else if |ts| == 1 then Text(ts[0])
    else Text(ts[0]) + " " + Line(ts[1..])
  }

  function Meanings(ts: seq<Token>): seq<string> {
    if ts == [] then [] else [Meaning(ts[0])] + Meanings(ts[1..])
  }

  /** The words that have any text at all. */
  function Written(ts: seq<Token>): seq<Token> {
    if ts == [] then []
    else (if Text(ts[0]) == "" then [] else [ts[0]]) + Written(ts[1..])
  }

  // ----- quoting is undone by lexing -----

  /** A quote in a quoted text: the quotes close, the quote is escaped, the quotes open again. */
  lemma ScanReopened(rest: string, w: string)
    ensures Scan("'\\''" + rest, Some(w), true) == Scan(rest, Some(w + "'"), true)
  {
    var line := "'\\''" + rest;
    var tail := "'" + rest;
    assert line[1..] == "\\'" + tail;
    assert (line[1..])[2..] == tail;
    assert tail[1..] == rest;
    assert Scan(tail, Some(w + "'"), false) == Scan(rest, Some(w + "'"), true);
    assert Scan(line[1..], Some(w), false) == Scan(tail, Some(w + "'"), false);
  }

  lemma ScanOneQuoted(c: char, later: string, w: string)
    ensures Scan((if c == '\'' then "'\\''" else [c]) + later, Some(w), true) == Scan(later, Some(w + [c]), true)
  {
    if c == '\'' {
      ScanReopened(later, w);
    } else {
      assert ([c] + later)[1..] == later;
    }
  }

  /** A quoted text, whatever it holds, is read as exactly that text. */
  lemma {:induction false} ScanEscaped(s: string, rest: string, w: string)
    ensures Scan(Escaped(s) + rest, Some(w), true) == Scan(rest, Some(w + s), true)
    decreases |s|
  {
    if s == "" {
      assert Escaped(s) + rest == rest && w + s == w;
    } else {
      var first := if s[0] == '\'' then "'\\''" else [s[0]];
      assert Escaped(s) + rest == first + (Escaped(s[1..]) + rest);
      assert w + [s[0]] + s[1..] == w + s;
      ScanOneQuoted(s[0], Escaped(s[1..]) + rest, w);
      ScanEscaped(s[1..], rest, w + [s[0]]);
    }
  }

  lemma ScanQuoted(s: string, tail: string)
    ensures Scan("'" + Escaped(s) + "'" + tail, None, false) == Scan(tail, Some(s), false)
  {
    var line := "'" + Escaped(s) + "'" + tail;
    var close := "'" + tail;
    assert line[0] == '\'' && line[1..] == Escaped(s) + close;
    assert Scan(line, None, false) == Scan(line[1..], Some(""), true);
    ScanEscaped(s, close, "");
    assert "" + s == s && close[1..] == tail;
    assert Scan(close, Some(s), true) == Scan(tail, Some(s), false);
  }

  lemma {:induction false} ScanPlain(w: string, tail: string, word: Option<string>)
    requires Plain(w) && w != ""
    ensures Scan(w + tail, word, false) == Scan(tail, Some(Begun(word) + w), false)
    decreases |w|
  {
    var line := w + tail;
    assert IsOrdinary(w[0]) && line[0] == w[0] && line[1..] == w[1..] + tail;
    if |w| == 1 {
      assert line[1..] == tail && Begun(word) + [w[0]] == Begun(word) + w;
    } else {
      ScanPlain(w[1..], tail, Some(Begun(word) + [w[0]]));
      assert Begun(word) + [w[0]] + w[1..] == Begun(word) + w;
    }
  }

  lemma ScanToken(t: Token, tail: string)
    requires Text(t) != "" && (t.Bare? ==> Plain(t.text))
    ensures Scan(Text(t) + tail, None, false) == Scan(tail, Some(Meaning(t)), false)
  {
    match t {
      case Bare(text) =>
        ScanPlain(text, tail, None);
        assert "" + text == text;
      case Quoted(content) => ScanQuoted(content, tail);
    }
  }

  lemma ScanBlank(tail: string, word: Option<string>)
    ensures Scan(" " + tail, word, false) == Prepend(Flush(word), Scan(tail, None, false))
  {
    assert (" " + tail)[1..] == tail;
  }

  /**
   A command line means the words it was made of, whatever their quoted contents:
   only a word with no text at all is lost in the joining.
   */
  lemma {:induction false} LineIsRead(ts: seq<Token>, tail: string)
    requires PlainTokens(ts) && (tail == "" || IsSpecial(tail[0]))
    ensures Lex(Line(ts) + tail) == Lexed(Meanings(Written(ts)), tail)
    decreases |ts|
  {
    if ts == [] {
      assert Line(ts) + tail == tail;
    } else if |ts| == 1 {
      OneTokenIsRead(ts, tail);
    } else {
      LineIsRead(ts[1..], tail);
      var more := Line(ts[1..]) + tail;
      LineOfMore(ts, tail);
      TokenThenLine(ts[0], more, Meanings(Written(ts[1..])), tail);
      MeaningsOfFirst(ts);
    }
  }

  lemma Reassociate(a: string, b: string, c: string, d: string)
    ensures a + b + c + d == a + (b + (c + d))
  {
  }

  lemma LineOfMore(ts: seq<Token>, tail: string)
    requires |ts| > 1
    ensures Line(ts) + tail == Text(ts[0]) + (" " + (Line(ts[1..]) + tail))
  {
    Reassociate(Text(ts[0]), " ", Line(ts[1..]), tail);
  }

  lemma OneTokenIsRead(ts: seq<Token>, tail: string)
    requires |ts| == 1 && PlainTokens(ts) && (tail == "" || IsSpecial(tail[0]))
    ensures Lex(Line(ts) + tail) == Lexed(Meanings(Written(ts)), tail)
  {
    FirstTokenIsRead(ts[0], tail);
    assert Written(ts[1..]) == [];
    MeaningsOfFirst(ts);
  }

  lemma MeaningsOfFirst(ts: seq<Token>)
    requires ts != []
    ensures Meanings(Written(ts)) == (if Text(ts[0]) == "" then [] else [Meaning(ts[0])]) + Meanings(Written(ts[1..]))
  {
    var more := Written(ts[1..]);
    if Text(ts[0]) == "" {
      assert Written(ts) == more;
    } else {
      assert Written(ts)[1..] == more;
    }
  }

  lemma TokenThenLine(t: Token, more: string, words: seq<string>, tail: string)
    requires (t.Bare? ==> Plain(t.text)) && Lex(more) == Lexed(words, tail)
    ensures Lex(Text(t) + (" " + more)) == Lexed((if Text(t) == "" then [] else [Meaning(t)]) + words, tail)
  {
    FirstTokenIsRead(t, " " + more);
    if Text(t) == "" {
      ScanBlank(more, None);
    } else {
      ScanBlank(more, Some(Meaning(t)));
    }
  }

  lemma FirstTokenIsRead(t: Token, after: string)
    requires t.Bare? ==> Plain(t.text)
    ensures Lex(Text(t) + after) == if Text(t) == "" then Lex(after) else Scan(after, Some(Meaning(t)), false)
  {
    if Text(t) == "" {
      assert Text(t) + after == after;
    } else {
      ScanToken(t, after);
    }
  }

  lemma {:induction false} WrittenCounts(ts: seq<Token>)
    ensures |Written(ts)| <= |ts|
    ensures |Written(ts)| == |ts| <==> Written(ts) == ts
    ensures Written(ts) == ts <==> forall i :: 0 <= i < |ts| ==> Text(ts[i]) != ""
  {
    if ts != [] {
      WrittenCounts(ts[1..]);
      assert ts == [ts[0]] + ts[1..];
      if Written(ts) == ts {
        assert |Written(ts[1..])| == |ts[1..]|;
      }
    }
  }

  lemma {:induction false} MeaningsCount(ts: seq<Token>)
    ensures |Meanings(ts)| == |ts|
  {
    if ts != [] {
      MeaningsCount(ts[1..]);
    }
  }

  /** The words arrive as they were meant exactly when none of them is written as nothing. */
  lemma {:induction false} WordsArrive(ts: seq<Token>)
    requires PlainTokens(ts)
    ensures Lex(Line(ts)) == Lexed(Meanings(ts), "") <==> forall i :: 0 <= i < |ts| ==> Text(ts[i]) != ""
  {
    LineIsRead(ts, "");
    assert Line(ts) + "" == Line(ts);
    WrittenCounts(ts);
    MeaningsCount(ts);
    MeaningsCount(Written(ts));
  }
}
