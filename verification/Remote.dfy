/**
 The shell text for each thing rshx runs on a Host, and proofs that the shells
 that parse it, level by level, are left with the command that was meant.
 */
module Remote {
  import opened Wrappers
  import opened HostPatterns
  import opened Quoting
  import opened HostFiles

  /** What the elevating sudo asks with. */
  const MARKER: string := "rshx-password:"

  function Join(words: seq<string>): string {
    JoinWith(words, ' ')
  }

  function UnderSudo(command: seq<string>): seq<string> {
    ["sudo", "-S", "-p", MARKER] + command
  }

  /** The sudo of a connection nobody watches: with a password to read off stdin, or with none to give. */
  function UnderSudoUnprompted(command: seq<string>, password: bool): seq<string> {
    ["sudo"] + (if password then ["-S", "-p", ""] else ["-n"]) + ["--"] + command
  }

  /** A script, quoted whole behind the shell that is to run it. */
  function OneWord(script: string): string {
    "sh -c '" + Escaped(script) + "'"
  }

  // ----- the wrappers -----

  /** What a wrapper does on the Host; `file` is the marker as the script names it. */
  datatype Statement =
    | Names(marker: string)
    | WritesPid(file: string)
    | Runs(text: string)
    | KeepsStatus
    | RemovesMarker(file: string)
    | ExitsWithStatus

  function Spelled(st: Statement): string {
    match st
    case Names(marker) => "m=" + marker
    case WritesPid(file) => "echo $$ > \"" + file + "\" 2>/dev/null"
    case Runs(text) => "( " + text + " )"
    case KeepsStatus => "rc=$?"
    case RemovesMarker(file) => "rm -f -- \"" + file + "\""
    case ExitsWithStatus => "exit $rc"
  }

  function InSequence(statements: seq<Statement>): string {
    if statements == [] then ""
    else if |statements| == 1 then Spelled(statements[0])
    else Spelled(statements[0]) + "; " + InSequence(statements[1..])
  }

  /** The marker is written before the command runs and removed after it, and the command's status is what comes out. */
  function Wrapper(file: string, text: string): seq<Statement> {
    [WritesPid(file), Runs(text), KeepsStatus, RemovesMarker(file), ExitsWithStatus]
  }

  function PayloadHead(file: string): string {
    Spelled(WritesPid(file)) + "; ( "
  }

  function PayloadTail(file: string): string {
    " ); " + (Spelled(KeepsStatus) + "; " + (Spelled(RemovesMarker(file)) + "; " + Spelled(ExitsWithStatus)))
  }

  function MarkedHead(marker: string): string {
    Spelled(Names(marker)) + "; " + PayloadHead("$m")
  }

  const MARKED_TAIL: string := PayloadTail("$m")

  /** A command between the statements that leave its marker and take it away. */
  function Marked(marker: string, command: seq<string>): string {
    OneWord(MarkedHead(marker) + Join(command) + MARKED_TAIL)
  }

  const LAUNCH_TAIL: string := ">/dev/null 2>&1 </dev/null & echo $!"

  function Launcher(payload: string): string {
    "nohup " + OneWord(payload) + " " + LAUNCH_TAIL
  }

  /** A launched command: two levels of quoting, and a third when a sudo runs the launcher. */
  function Detached(marker: string, text: string, privilege: bool): string {
    var launcher := Launcher(PayloadHead(marker) + text + PayloadTail(marker));
    OneWord(if privilege then Join(UnderSudo([OneWord(launcher)])) else launcher)
  }

  /** The elevated part of running a copied script. */
  function Chain(path: string): string {
    "chmod +x -- \"" + path + "\" && \"" + path + "\""
  }

  function Cleanup(path: string): string {
    "rc=$?; rm -f -- \"" + path + "\"; exit $rc"
  }

  function RunArgv(path: string, privilege: bool): seq<string> {
    var plain := ["sh", "-c", "'" + Chain(path) + "'"];
    var command := if privilege then UnderSudo(plain) else plain;
    var last := |command| - 1;
    command[last := command[last] + ";"] + [Cleanup(path)]
  }

  /** A stop: a shell on the quoted script, which finds the marker's path in `$0`. */
  function StopArgv(stop: string, marker: string, privilege: bool, password: bool): seq<string> {
    var words := ["sh", "-c", "'" + stop + "'", marker];
    if privilege then UnderSudoUnprompted(words, password) else words
  }

  // ----- the far side -----

  /** What is left of `s` between a known head and a known tail. */
  function Between(head: string, s: string, tail: string): Option<string> {
    if |head| + |tail| <= |s| && s[..|head|] == head && s[|s| - |tail|..] == tail
    then Some(s[|head|..|s| - |tail|])
    else None
  }

  /** The last word of a line that is exactly these words and one more, followed by `rest`. */
  function LastWord(line: string, words: seq<string>, rest: string): Option<string> {
    match Lex(line)
    case Unterminated => None
    case Lexed(read, left) =>
      if |read| == |words| + 1 && read[..|words|] == words && left == rest then Some(read[|words|]) else None
  }

  /** The login shell parses the line, and the `sh` it names the script. */
  function UnwrapMarked(line: string, marker: string): Option<string> {
    match LastWord(line, ["sh", "-c"], "")
    case None => None
    case Some(script) => Between(MarkedHead(marker), script, MARKED_TAIL)
  }

  /** The login shell, then sudo's `sh` if there is one, then `nohup`'s. */
  function UnwrapDetached(line: string, marker: string, privilege: bool): Option<string> {
    match LastWord(line, ["sh", "-c"], "")
    case None => None
    case Some(launched) =>
      var launcher := if privilege then LastWord(launched, ["sudo", "-S", "-p", MARKER, "sh", "-c"], "") else Some(launched);
      match launcher
      case None => None
      case Some(script) =>
        match LastWord(script, ["nohup", "sh", "-c"], LAUNCH_TAIL)
        case None => None
        case Some(payload) => Between(PayloadHead(marker), payload, PayloadTail(marker))
  }

  // ----- the wrappers, statement by statement -----

  lemma TwoInSequence(first: Statement, more: seq<Statement>)
    requires more != []
    ensures InSequence([first] + more) == Spelled(first) + "; " + InSequence(more)
  {
    assert ([first] + more)[1..] == more;
  }

  lemma AroundTheText(head: string, text: string, tail: string)
    ensures head + "; " + ("( " + text + " )" + "; " + tail) == head + "; ( " + text + (" ); " + tail)
  {
    assert "; " + "( " == "; ( " && " )" + "; " == " ); ";
  }

  /** A launched payload is its wrapper's statements, one after the other. */
  lemma PayloadInSequence(file: string, text: string)
    ensures InSequence(Wrapper(file, text)) == PayloadHead(file) + text + PayloadTail(file)
  {
    var last := [ExitsWithStatus];
    var removes := [RemovesMarker(file)] + last;
    var keeps := [KeepsStatus] + removes;
    TwoInSequence(RemovesMarker(file), last);
    TwoInSequence(KeepsStatus, removes);
    TwoInSequence(Runs(text), keeps);
    TwoInSequence(WritesPid(file), [Runs(text)] + keeps);
    assert Wrapper(file, text) == [WritesPid(file)] + ([Runs(text)] + keeps);
    AroundTheText(Spelled(WritesPid(file)), text, InSequence(keeps));
  }

  /** So is a marked command, once the marker has its name. */
  lemma MarkedInSequence(marker: string, text: string)
    ensures InSequence([Names(marker)] + Wrapper("$m", text)) == MarkedHead(marker) + text + MARKED_TAIL
  {
    TwoInSequence(Names(marker), Wrapper("$m", text));
    PayloadInSequence("$m", text);
  }

  // ----- round trips -----

  lemma BetweenFinds(head: string, s: string, tail: string)
    ensures Between(head, head + s + tail, tail) == Some(s)
  {
  }

  lemma LexedLastWord(line: string, words: seq<string>, last: string, rest: string)
    requires Lex(line) == Lexed(words + [last], rest)
    ensures LastWord(line, words, rest) == Some(last)
  {
  }

  /** Words in front of a line. */
  function JoinFront(words: seq<string>, line: string): string {
    if words == [] then line else words[0] + " " + JoinFront(words[1..], line)
  }

  predicate PlainWords(words: seq<string>) {
    words == [] || (words[0] != "" && Plain(words[0]) && PlainWords(words[1..]))
  }

  /** Plain words in front of a line are read as themselves. */
  lemma {:induction false} FrontIsRead(front: seq<string>, line: string, words: seq<string>, rest: string)
    requires PlainWords(front) && Lex(line) == Lexed(words, rest)
    ensures Lex(JoinFront(front, line)) == Lexed(front + words, rest)
    decreases |front|
  {
    if front == [] {
      assert front + words == words;
    } else {
      FrontIsRead(front[1..], line, words, rest);
      TokenThenLine(Bare(front[0]), JoinFront(front[1..], line), front[1..] + words, rest);
      assert [front[0]] + (front[1..] + words) == front + words;
      assert front[0] + " " + JoinFront(front[1..], line) == front[0] + (" " + JoinFront(front[1..], line));
    }
  }

  /** A quoted text at the end of a simple command is its last word. */
  lemma QuotedLast(s: string, rest: string)
    requires rest == "" || IsSpecial(rest[0])
    ensures Lex(Text(Quoted(s)) + rest) == Lexed([s], rest)
  {
    ScanQuoted(s, rest);
  }

  lemma ShellWordsArePlain()
    ensures PlainWords(["sh", "-c"])
  {
    assert Plain("sh") && Plain("-c");
    assert ["sh", "-c"][1..] == ["-c"] && ["-c"][1..] == [];
  }

  lemma OneWordInFront(script: string)
    ensures OneWord(script) == JoinFront(["sh", "-c"], Text(Quoted(script)))
  {
    var q := Text(Quoted(script));
    assert ["sh", "-c"][1..] == ["-c"] && ["-c"][1..] == [];
    assert JoinFront(["-c"], q) == "-c" + " " + q;
    assert JoinFront(["sh", "-c"], q) == "sh" + " " + ("-c" + " " + q);
  }

  /** Whatever the script holds, the shell sees `sh`, `-c` and the script. */
  lemma OneWordRoundTrips(script: string)
    ensures Lex(OneWord(script)) == Lexed(["sh", "-c", script], "")
  {
    QuotedLast(script, "");
    assert Text(Quoted(script)) + "" == Text(Quoted(script));
    ShellWordsArePlain();
    FrontIsRead(["sh", "-c"], Text(Quoted(script)), [script], "");
    OneWordInFront(script);
    assert ["sh", "-c"] + [script] == ["sh", "-c", script];
  }

  /** A marked command, unwrapped, is the command's words joined as ssh would have joined them. */
  lemma MarkedRoundTrips(marker: string, command: seq<string>)
    ensures UnwrapMarked(Marked(marker, command), marker) == Some(Join(command))
  {
    var script := MarkedHead(marker) + Join(command) + MARKED_TAIL;
    OneWordRoundTrips(script);
    LexedLastWord(OneWord(script), ["sh", "-c"], script, "");
    BetweenFinds(MarkedHead(marker), Join(command), MARKED_TAIL);
  }

  /** The launcher runs the payload under `nohup`, and leaves the rest of its line to the shell. */
  lemma LauncherIsRead(payload: string)
    ensures Lex(Launcher(payload)) == Lexed(["nohup", "sh", "-c"] + [payload], LAUNCH_TAIL)
  {
    var line := Text(Quoted(payload)) + (" " + LAUNCH_TAIL);
    assert Lex(LAUNCH_TAIL) == Lexed([], LAUNCH_TAIL);
    TokenThenLine(Quoted(payload), LAUNCH_TAIL, [], LAUNCH_TAIL);
    assert Plain("nohup");
    ShellWordsArePlain();
    var front := ["nohup", "sh", "-c"];
    assert front[1..] == ["sh", "-c"];
    FrontIsRead(front, line, [payload], LAUNCH_TAIL);
    LauncherInFront(payload);
  }

  lemma LauncherInFront(payload: string)
    ensures Launcher(payload) == JoinFront(["nohup", "sh", "-c"], Text(Quoted(payload)) + (" " + LAUNCH_TAIL))
  {
    var q := Text(Quoted(payload));
    OneWordInFront(payload);
    FrontThenTail(["sh", "-c"], q, " " + LAUNCH_TAIL);
    assert ["nohup", "sh", "-c"][1..] == ["sh", "-c"];
    assert Launcher(payload) == "nohup" + " " + (OneWord(payload) + (" " + LAUNCH_TAIL));
  }

  lemma {:induction false} FrontThenTail(front: seq<string>, line: string, tail: string)
    ensures JoinFront(front, line) + tail == JoinFront(front, line + tail)
    decreases |front|
  {
    if front != [] {
      FrontThenTail(front[1..], line, tail);
      assert front[0] + " " + JoinFront(front[1..], line) + tail == front[0] + " " + (JoinFront(front[1..], line) + tail);
    }
  }

  const SUDO: seq<string> := ["sudo", "-S", "-p", MARKER]

  lemma SudoWordsArePlain()
    ensures PlainWords(SUDO)
  {
    assert Plain("sudo") && Plain("-S") && Plain("-p") && Plain(MARKER);
    assert [MARKER][1..] == [] && PlainWords([MARKER]);
    assert ["-p", MARKER][1..] == [MARKER] && PlainWords(["-p", MARKER]);
    assert ["-S", "-p", MARKER][1..] == ["-p", MARKER] && PlainWords(["-S", "-p", MARKER]);
    assert SUDO[1..] == ["-S", "-p", MARKER];
  }

  lemma {:induction false} JoinsInFront(front: seq<string>, last: string)
    ensures Join(front + [last]) == JoinFront(front, last)
    decreases |front|
  {
    if front != [] {
      JoinsInFront(front[1..], last);
      assert (front + [last])[1..] == front[1..] + [last];
    }
  }

  lemma {:induction false} PlainWordsJoin(a: seq<string>, b: seq<string>)
    requires PlainWords(a) && PlainWords(b)
    ensures PlainWords(a + b)
    decreases |a|
  {
    if a == [] {
      assert a + b == b;
    } else {
      PlainWordsJoin(a[1..], b);
      assert (a + b)[1..] == a[1..] + b;
    }
  }

  /** Under sudo the whole script is one argument: sudo's words come first, then those of the line. */
  lemma ElevatedIsRead(script: string)
    ensures Lex(Join(UnderSudo([OneWord(script)]))) == Lexed(SUDO + ["sh", "-c"] + [script], "")
  {
    OneWordRoundTrips(script);
    SudoWordsArePlain();
    JoinsInFront(SUDO, OneWord(script));
    assert UnderSudo([OneWord(script)]) == SUDO + [OneWord(script)];
    FrontIsRead(SUDO, OneWord(script), ["sh", "-c", script], "");
    assert SUDO + ["sh", "-c", script] == SUDO + ["sh", "-c"] + [script];
  }

  /** A detached command, unwrapped through every shell that parses it, is the command's text unchanged. */
  lemma DetachedRoundTrips(marker: string, text: string, privilege: bool)
    ensures UnwrapDetached(Detached(marker, text, privilege), marker, privilege) == Some(text)
  {
    var payload := PayloadHead(marker) + text + PayloadTail(marker);
    var launcher := Launcher(payload);
    var launched := if privilege then Join(UnderSudo([OneWord(launcher)])) else launcher;
    OneWordRoundTrips(launched);
    LexedLastWord(OneWord(launched), ["sh", "-c"], launched, "");
    if privilege {
      ElevatedIsRead(launcher);
      LexedLastWord(launched, SUDO + ["sh", "-c"], launcher, "");
      assert SUDO + ["sh", "-c"] == ["sudo", "-S", "-p", MARKER, "sh", "-c"];
    }
    LauncherIsRead(payload);
    LexedLastWord(launcher, ["nohup", "sh", "-c"], payload, LAUNCH_TAIL);
    BetweenFinds(PayloadHead(marker), text, PayloadTail(marker));
  }

  /** The marker's path; `token` tells this run's from any other's, in hexadecimal. */
  function MarkerPath(token: string, host: string): string {
    "/tmp/rshx-" + token + "-" + host + ".pid"
  }

  lemma {:induction false} PlainNames(s: string)
    requires AllPlain(s)
    ensures Plain(s)
    decreases |s|
  {
    if s != "" {
      PlainNames(s[1..]);
      assert s == [s[0]] + s[1..];
    }
  }

  /** A valid Host name puts nothing into its marker that a shell reads as more than itself. */
  lemma MarkerPathIsPlain(token: string, host: string)
    requires AllPlain(token) && AllPlain(host)
    ensures Plain(MarkerPath(token, host))
  {
    PlainNames(token);
    PlainNames(host);
    assert Plain("/tmp/rshx-") && Plain("-") && Plain(".pid");
  }

  /** The words wrapped for a Host: a launcher brings its own sudo, so only an attached command gets one here. */
  function Handed(typed: seq<string>, elevated: bool, detach: bool): seq<string> {
    if elevated && !detach then UnderSudo(typed) else typed
  }

  function CommandWord(marker: string, typed: seq<string>, elevated: bool, detach: bool): string {
    var command := Handed(typed, elevated, detach);
    if detach then Detached(marker, Join(command), elevated) else Marked(marker, command)
  }

  /**
   Attached or launched, what is left of the quoting is the typed words under no
   more than one sudo: their own, or the one that runs the launcher.
   */
  lemma ElevatedOnce(marker: string, typed: seq<string>, elevated: bool, detach: bool)
    ensures var word := CommandWord(marker, typed, elevated, detach);
            if detach then UnwrapDetached(word, marker, elevated) == Some(Join(typed))
            else UnwrapMarked(word, marker) == Some(if elevated then Join(SUDO + typed) else Join(typed))
  {
    var command := Handed(typed, elevated, detach);
    if detach {
      DetachedRoundTrips(marker, Join(command), elevated);
    } else {
      MarkedRoundTrips(marker, command);
    }
  }

  // ----- a copied script -----

  /**
   One sudo elevates the whole chain that makes a copied script executable and
   runs it, and nothing of the removal: that is the rest of the line.
   */
  lemma RunArgvIsRead(path: string, privilege: bool)
    requires '\'' !in path
    ensures Lex(Join(RunArgv(path, privilege))) ==
            Lexed((if privilege then SUDO else []) + ["sh", "-c"] + [Chain(path)], "; " + Cleanup(path))
  {
    var rest := "; " + Cleanup(path);
    QuotedLast(Chain(path), rest);
    var front := (if privilege then SUDO else []) + ["sh", "-c"];
    SudoWordsArePlain();
    ShellWordsArePlain();
    PlainWordsJoin(if privilege then SUDO else [], ["sh", "-c"]);
    FrontIsRead(front, Text(Quoted(Chain(path))) + rest, [Chain(path)], rest);
    RunArgvInFront(path, privilege);
  }

  lemma RunArgvInFront(path: string, privilege: bool)
    requires '\'' !in path
    ensures Join(RunArgv(path, privilege)) ==
            JoinFront((if privilege then SUDO else []) + ["sh", "-c"],
                      Text(Quoted(Chain(path))) + ("; " + Cleanup(path)))
  {
    var front := (if privilege then SUDO else []) + ["sh", "-c"];
    var chain := Chain(path);
    assert '\'' !in chain;
    EscapedKeeps(chain);
    var word := "'" + chain + "'" + ";";
    assert RunArgv(path, privilege) == front + [word] + [Cleanup(path)];
    JoinsInFront(front + [word], Cleanup(path));
    FrontThenOne(front, word, Cleanup(path));
    assert word + " " + Cleanup(path) == Text(Quoted(chain)) + ("; " + Cleanup(path));
  }

  lemma {:induction false} FrontThenOne(front: seq<string>, word: string, line: string)
    ensures JoinFront(front + [word], line) == JoinFront(front, word + " " + line)
    decreases |front|
  {
    if front == [] {
      assert front + [word] == [word] && [word][1..] == [];
    } else {
      FrontThenOne(front[1..], word, line);
      assert (front + [word])[1..] == front[1..] + [word];
    }
  }

  lemma {:induction false} EscapedKeeps(a: string)
    requires '\'' !in a
    ensures Escaped(a) == a
  {
    if a != "" {
      EscapedKeeps(a[1..]);
    }
  }

  /** A character a temporary path may hold: nothing any shell reads as more than itself. */
  predicate IsPathChar(c: char) {
    'a' <= c <= 'z' || 'A' <= c <= 'Z' || IsDigit(c) || c == '/' || c == '.' || c == '_' || c == '-'
  }

  predicate IsPlainPath(path: string) {
    path != "" && path[0] == '/' && forall i :: 0 <= i < |path| ==> IsPathChar(path[i])
  }

  /** What is before a newline, without the carriage return that may be part of the line's end. */
  function Trimmed(line: string): string {
    if line != "" && line[|line| - 1] == '\r' then line[..|line| - 1] else line
  }

  /** The last line that holds anything; `ended` is whether a newline follows the last of them. */
  function LastLine(pieces: seq<string>, ended: bool): Option<string> {
    if pieces == [] then None
    else
      var piece := pieces[|pieces| - 1];
      var line := if ended then Trimmed(piece) else piece;
      if line != "" then Some(line) else LastLine(pieces[..|pieces| - 1], true)
  }

  /** The path to run, read off what the copy printed. */
  function TemporaryPath(stdout: string): Option<string> {
    match LastLine(SplitOn(stdout, '\n'), false)
    case None => None
    case Some(path) => if IsPlainPath(path) then Some(path) else None
  }

  lemma {:induction false} JoinLast(pieces: seq<string>, c: char)
    requires pieces != []
    ensures JoinWith(pieces, c) ==
            (if |pieces| == 1 then "" else JoinWith(pieces[..|pieces| - 1], c) + [c]) + pieces[|pieces| - 1]
    decreases |pieces|
  {
    if |pieces| > 1 {
      var rest := pieces[1..];
      JoinLast(rest, c);
      assert rest[..|rest| - 1] == pieces[..|pieces| - 1][1..];
      if |rest| > 1 {
        Regroup(pieces[0], [c], JoinWith(rest[..|rest| - 1], c), [c], rest[|rest| - 1]);
      }
    }
  }

  lemma Regroup(a: string, b: string, c: string, d: string, e: string)
    ensures a + b + ((c + d) + e) == ((a + b + c) + d) + e
  {
  }

  /** Nothing but whole line ends: newlines, each with a carriage return before it or without. */
  predicate LineEnds(s: string) {
    s == ""
    || (s[|s| - 1] == '\n'
        && (LineEnds(s[..|s| - 1]) || (|s| > 1 && s[|s| - 2] == '\r' && LineEnds(s[..|s| - 2]))))
  }

  /** The path is a whole line, and only line ends follow it. */
  predicate LastLineOf(text: string, before: string, line: string, after: string) {
    && text == before + line + after && line != "" && '\n' !in line
    && (before == "" || before[|before| - 1] == '\n') && LineEnds(after)
  }

  lemma Here(before: string, line: string, rest: string, end: string)
    ensures before + (line + rest) + end == before + line + (rest + end)
  {
  }

  lemma There(before: string, line: string, more: string, piece: string, end: string)
    ensures before + line + more + piece + end == before + line + (more + piece + end)
  {
  }

  /** What a last piece leaves of its line's end. */
  lemma EndOfPiece(piece: string, ended: bool)
    ensures var line := if ended then Trimmed(piece) else piece;
            var rest, end := piece[|line|..], if ended then "\n" else "";
            && piece == line + rest && LineEnds(rest + end) && (ended ==> rest + end != "")
  {
    var line := if ended then Trimmed(piece) else piece;
    var rest := piece[|line|..];
    assert rest == "" || (ended && rest == "\r");
    assert LineEnds("");
    MoreLineEnds("", rest, if ended then "\n" else "");
    assert "" + rest + (if ended then "\n" else "") == rest + (if ended then "\n" else "");
  }

  lemma MoreLineEnds(more: string, piece: string, end: string)
    requires LineEnds(more) && (end == "" || end == "\n") && (piece == "" || (piece == "\r" && end == "\n"))
    ensures LineEnds(more + piece + end)
  {
    var all := more + piece + end;
    if end == "\n" && piece == "\r" {
      assert all[..|all| - 2] == more;
    } else if end == "\n" {
      assert all[..|all| - 1] == more;
    } else {
      assert all == more;
    }
  }

  lemma {:induction false} LastLineIsLast(pieces: seq<string>, ended: bool) returns (before: string, after: string)
    requires LastLine(pieces, ended).Some?
    requires forall k :: 0 <= k < |pieces| ==> '\n' !in pieces[k]
    ensures LastLineOf(JoinWith(pieces, '\n') + (if ended then "\n" else ""), before, LastLine(pieces, ended).value, after)
    ensures ended ==> after != ""
    decreases |pieces|
  {
    var last := |pieces| - 1;
    var piece, front, end := pieces[last], pieces[..last], if ended then "\n" else "";
    JoinLast(pieces, '\n');
    EndOfPiece(piece, ended);
    var line := if ended then Trimmed(piece) else piece;
    if line != "" {
      before := if last == 0 then "" else JoinWith(front, '\n') + "\n";
      after := piece[|line|..] + end;
      Here(before, line, piece[|line|..], end);
    } else {
      var more;
      before, more := LastLineIsLast(front, true);
      after := more + piece + end;
      There(before, LastLine(front, true).value, more, piece, end);
      MoreLineEnds(more, piece, end);
    }
  }

  /**
   The path that is run is the last line the Host printed that holds anything. It
   is absolute, and no shell reads any of it as more than itself, in quotes or out.
   */
  lemma PathIsItsLastLine(stdout: string) returns (before: string, after: string)
    requires TemporaryPath(stdout).Some?
    ensures var path := TemporaryPath(stdout).value;
            LastLineOf(stdout, before, path, after) && path[0] == '/' && Plain(path)
  {
    SplitOnIsExact(stdout, '\n');
    before, after := LastLineIsLast(SplitOn(stdout, '\n'), false);
    assert stdout + "" == stdout;
  }

  /** A line at the end of a text is its last piece. */
  lemma {:induction false} LineIsLastPiece(before: string, line: string)
    requires (before == "" || before[|before| - 1] == '\n') && '\n' !in line
    ensures var pieces := SplitOn(before + line, '\n'); pieces[|pieces| - 1] == line
    decreases |line|
  {
    if line == "" {
      assert before + line == before;
      if before != "" {
        SplitEnd(before[..|before| - 1], '\n');
        assert before[..|before| - 1] + ['\n'] == before;
      }
    } else {
      var front, d := line[..|line| - 1], line[|line| - 1];
      LineIsLastPiece(before, front);
      SplitOneMore(before + front, '\n', d);
      assert before + front + [d] == before + line && front + [d] == line;
    }
  }

  /** Whatever line ends follow it, the last line that holds anything is found. */
  lemma {:induction false} LastLineIsFound(text: string, before: string, line: string, after: string, ended: bool)
    requires LastLineOf(text, before, line, after) && '\r' !in line
    ensures LastLine(SplitOn(text, '\n'), ended) == Some(line)
    decreases |after|, 1
  {
    if after == "" {
      assert text == before + line;
      LineIsLastPiece(before, line);
    } else {
      assert text[|text| - 1] == after[|after| - 1];
      EmptyLastPiece(text);
      LineIsEnded(text, before, line, after);
    }
  }

  /** A carriage return before a newline is part of the line's end. */
  lemma ReturnIsTrimmed(text: string, longer: string)
    requires longer == text + ['\r']
    ensures LastLine(SplitOn(longer, '\n'), true) == LastLine(SplitOn(text, '\n'), false)
  {
    SplitOneMore(text, '\n', '\r');
    var pieces, more := SplitOn(text, '\n'), SplitOn(longer, '\n');
    var last := |pieces| - 1;
    assert more[..last] == pieces[..last] && Trimmed(more[last]) == pieces[last];
  }

  lemma OneLess(a: string, b: string, c: string)
    requires c != ""
    ensures (a + b + c)[..|a + b + c| - 1] == a + b + c[..|c| - 1]
  {
  }

  lemma ReturnAndNewline(a: string, b: string, c: string)
    requires |c| > 1 && c[|c| - 2] == '\r'
    ensures (a + b + c)[..|a + b + c| - 1] == a + b + c[..|c| - 2] + ['\r']
  {
    OneLess(a, b, c);
    var shorter := c[..|c| - 1];
    assert shorter == c[..|c| - 2] + ['\r'];
    assert a + b + (c[..|c| - 2] + ['\r']) == a + b + c[..|c| - 2] + ['\r'];
  }

  /** With the last newline taken away, and with it a piece that holds nothing. */
  lemma {:induction false} LineIsEnded(text: string, before: string, line: string, after: string)
    requires LastLineOf(text, before, line, after) && '\r' !in line && after != ""
    ensures LastLine(SplitOn(text[..|text| - 1], '\n'), true) == Some(line)
    decreases |after|, 0
  {
    if LineEnds(after[..|after| - 1]) {
      OneLess(before, line, after);
      LastLineIsFound(text[..|text| - 1], before, line, after[..|after| - 1], true);
    } else {
      var earlier := before + line + after[..|after| - 2];
      ReturnAndNewline(before, line, after);
      LastLineIsFound(earlier, before, line, after[..|after| - 2], false);
      ReturnIsTrimmed(earlier, text[..|text| - 1]);
    }
  }

  lemma EmptyLastPiece(text: string)
    requires text != "" && text[|text| - 1] == '\n'
    ensures SplitOn(text, '\n') == SplitOn(text[..|text| - 1], '\n') + [""]
  {
    SplitEnd(text[..|text| - 1], '\n');
    assert text[..|text| - 1] + ['\n'] == text;
  }

  /** Exactly what is taken for the path: a plain one that is the last line to hold anything. */
  lemma WhatIsTakenForAPath(stdout: string, path: string)
    ensures TemporaryPath(stdout) == Some(path) <==>
              IsPlainPath(path) && exists before, after :: LastLineOf(stdout, before, path, after)
  {
    if TemporaryPath(stdout) == Some(path) {
      var before, after := PathIsItsLastLine(stdout);
    }
    if IsPlainPath(path) {
      if before, after :| LastLineOf(stdout, before, path, after) {
        assert '\r' !in path;
        LastLineIsFound(stdout, before, path, after, false);
      }
    }
  }

  /**
   Whatever a Host prints for the path of its copy, the shell that runs the
   marked command finds the chain as one word, and the path in it.
   */
  lemma CopiedScriptIsRead(marker: string, stdout: string, privilege: bool)
    requires TemporaryPath(stdout).Some?
    ensures var path := TemporaryPath(stdout).value;
            var text := UnwrapMarked(Marked(marker, RunArgv(path, privilege)), marker);
            && text.Some?
            && Lex(text.value) == Lexed((if privilege then SUDO else []) + ["sh", "-c"] + [Chain(path)], "; " + Cleanup(path))
  {
    var path := TemporaryPath(stdout).value;
    assert '\'' !in path;
    RunArgvIsRead(path, privilege);
    MarkedRoundTrips(marker, RunArgv(path, privilege));
  }

  // ----- a stop -----

  /** The words a stop is meant to be, on the far side. */
  function StopMeant(stop: string, marker: string, privilege: bool, password: bool): seq<string> {
    var words := ["sh", "-c", stop, marker];
    if privilege then UnderSudoUnprompted(words, password) else words
  }

  function StopTokens(stop: string, marker: string, privilege: bool, password: bool): seq<Token> {
    var words := [Bare("sh"), Bare("-c"), Quoted(stop), Bare(marker)];
    if privilege then UnpromptedTokens(password) + words else words
  }

  function UnpromptedTokens(password: bool): seq<Token> {
    if password then [Bare("sudo"), Bare("-S"), Bare("-p"), Bare(""), Bare("--")]
    else [Bare("sudo"), Bare("-n"), Bare("--")]
  }

  function Texts(ts: seq<Token>): seq<string> {
    if ts == [] then [] else [Text(ts[0])] + Texts(ts[1..])
  }

  lemma {:induction false} LineJoinsTexts(ts: seq<Token>)
    ensures Line(ts) == Join(Texts(ts)) && |Texts(ts)| == |ts|
  {
    if ts != [] {
      LineJoinsTexts(ts[1..]);
      assert Texts(ts)[1..] == Texts(ts[1..]);
    }
  }

  lemma {:induction false} EachMeaning(ts: seq<Token>)
    ensures |Meanings(ts)| == |ts| && forall i :: 0 <= i < |ts| ==> Meanings(ts)[i] == Meaning(ts[i])
    ensures |Texts(ts)| == |ts| && forall i :: 0 <= i < |ts| ==> Texts(ts)[i] == Text(ts[i])
  {
    if ts != [] {
      EachMeaning(ts[1..]);
    }
  }

  lemma StopTokensAreWritten(stop: string, marker: string, privilege: bool, password: bool)
    requires '\'' !in stop
    ensures Texts(StopTokens(stop, marker, privilege, password)) == StopArgv(stop, marker, privilege, password)
  {
    var words := [Bare("sh"), Bare("-c"), Quoted(stop), Bare(marker)];
    EscapedKeeps(stop);
    EachMeaning(words);
    assert Texts(words) == ["sh", "-c", "'" + stop + "'", marker];
    if privilege {
      TextsAdd(UnpromptedTokens(password), words);
      UnpromptedTokensAreWritten(password);
    }
  }

  lemma UnpromptedTokensAreWritten(password: bool)
    ensures Texts(UnpromptedTokens(password)) == ["sudo"] + (if password then ["-S", "-p", ""] else ["-n"]) + ["--"]
  {
    EachMeaning(UnpromptedTokens(password));
  }

  lemma {:induction false} TextsAdd(a: seq<Token>, b: seq<Token>)
    ensures Texts(a + b) == Texts(a) + Texts(b)
    decreases |a|
  {
    if a == [] {
      assert a + b == b;
    } else {
      TextsAdd(a[1..], b);
      assert (a + b)[1..] == a[1..] + b;
    }
  }

  lemma StopTokensMean(stop: string, marker: string, privilege: bool, password: bool)
    ensures Meanings(StopTokens(stop, marker, privilege, password)) == StopMeant(stop, marker, privilege, password)
  {
    EachMeaning(StopTokens(stop, marker, privilege, password));
  }

  lemma StopTokensArePlain(stop: string, marker: string, privilege: bool, password: bool)
    requires Plain(marker)
    ensures PlainTokens(StopTokens(stop, marker, privilege, password))
  {
    assert Plain("sh") && Plain("-c") && Plain("sudo") && Plain("-S") && Plain("-p") && Plain("") && Plain("--") && Plain("-n");
  }

  /**
   A stop's words arrive as they were meant except in one case. With a password
   in hand sudo's prompt is an empty word, which ssh's joining loses, so that
   sudo takes the `--` after it for its prompt.
   */
  lemma StopArrives(stop: string, marker: string, privilege: bool, password: bool)
    requires '\'' !in stop && marker != "" && Plain(marker)
    ensures Lex(Join(StopArgv(stop, marker, privilege, password)))
              == Lexed(StopMeant(stop, marker, privilege, password), "")
       <==> !(privilege && password)
  {
    var ts := StopTokens(stop, marker, privilege, password);
    StopTokensAreWritten(stop, marker, privilege, password);
    StopTokensMean(stop, marker, privilege, password);
    StopTokensArePlain(stop, marker, privilege, password);
    LineJoinsTexts(ts);
    WordsArrive(ts);
    if privilege && password {
      assert Text(ts[3]) == "";
    }
  }

  /** The words after the lost prompt. */
  function StopBack(stop: string, marker: string): seq<Token> {
    [Bare("--"), Bare("sh"), Bare("-c"), Quoted(stop), Bare(marker)]
  }

  lemma LostPromptLine(stop: string, marker: string)
    requires '\'' !in stop
    ensures Join(StopArgv(stop, marker, true, true)) == JoinFront(["sudo", "-S", "-p"], " " + Line(StopBack(stop, marker)))
  {
    var back := StopBack(stop, marker);
    var ts := [Bare("")] + back;
    assert ts[1..] == back;
    assert Line(ts) == " " + Line(back);
    LineJoinsTexts(ts);
    LostPromptWords(stop, marker);
    JoinsAllInFront(["sudo", "-S", "-p"], Texts(ts));
  }

  lemma LostPromptWords(stop: string, marker: string)
    requires '\'' !in stop
    ensures StopArgv(stop, marker, true, true) == ["sudo", "-S", "-p"] + Texts([Bare("")] + StopBack(stop, marker))
  {
    EscapedKeeps(stop);
    EachMeaning([Bare("")] + StopBack(stop, marker));
  }

  lemma {:induction false} JoinsAllInFront(front: seq<string>, more: seq<string>)
    requires more != []
    ensures Join(front + more) == JoinFront(front, Join(more))
    decreases |front|
  {
    if front == [] {
      assert front + more == more;
    } else {
      JoinsAllInFront(front[1..], more);
      assert (front + more)[1..] == front[1..] + more;
    }
  }

  lemma StopBackIsRead(stop: string, marker: string)
    requires '\'' !in stop && marker != "" && Plain(marker)
    ensures Lex(Line(StopBack(stop, marker))) == Lexed(["--", "sh", "-c", stop, marker], "")
  {
    var back := StopBack(stop, marker);
    assert Plain("--") && Plain("sh") && Plain("-c");
    WordsArrive(back);
    EachMeaning(back);
    assert Meanings(back) == ["--", "sh", "-c", stop, marker];
  }

  lemma SudoFlagsArePlain()
    ensures PlainWords(["sudo", "-S", "-p"])
  {
    var front := ["sudo", "-S", "-p"];
    assert Plain("sudo") && Plain("-S") && Plain("-p");
    assert front[1..] == ["-S", "-p"] && ["-S", "-p"][1..] == ["-p"] && ["-p"][1..] == [];
    assert PlainWords(["-p"]) && PlainWords(["-S", "-p"]);
  }

  /** What sudo is handed in that case. */
  lemma LostPromptIsRead(stop: string, marker: string)
    requires '\'' !in stop && marker != "" && Plain(marker)
    ensures Lex(Join(StopArgv(stop, marker, true, true)))
              == Lexed(["sudo", "-S", "-p", "--", "sh", "-c", stop, marker], "")
  {
    LostPromptLine(stop, marker);
    StopBackIsRead(stop, marker);
    var line := Line(StopBack(stop, marker));
    ScanBlank(line, None);
    var front := ["sudo", "-S", "-p"];
    SudoFlagsArePlain();
    FrontIsRead(front, " " + line, ["--", "sh", "-c", stop, marker], "");
  }
}
