/**
 * The part of POSIX shell token recognition (XCU section 2.3 of POSIX.1-2017)
 * that the remote scripts rely on, as a reference semantics for the quoting
 * code: single quotes (section 2.2.2), the backslash outside quotes with its
 * line continuation (section 2.2.1), blanks between words, and newline or `;`
 * between commands.
 *
 * Anything whose meaning depends on more of the shell is not interpreted but
 * makes the lexer fail: operators, `$` and backquote expansions, double quotes,
 * the pattern characters `*` and `?`, a `[` that could open a bracket
 * expression, an unquoted `#` or `~` where a comment or a tilde-prefix
 * (section 2.6.1) would begin. A successful lex therefore means that the text
 * is a plain list of commands, each a list of literal words.
 */
module PosixShell {
  import opened Wrappers

  /**
   * Where the lexer stands. `AfterSeparator` is unquoted text right after an
   * unquoted `=` or `:`, where a tilde-prefix can start in an assignment;
   * `AfterBracket` is a word that so far is exactly an unquoted `[`.
   * `Escaped` follows an unquoted backslash; it records whether the backslash
   * came right after such a separator, since a line continuation removes the
   * backslash and the newline and leaves the text around them joined.
   */
  datatype Mode = Unquoted | AfterSeparator | AfterBracket | SingleQuoted | Escaped(afterSeparator: bool)

  /**
   * The lexer state: the word being built (`None` before its first character,
   * so that an empty quoted word `''` still counts), the words of the current
   * command and the finished commands.
   */
  datatype Lexer =
    | Lexing(mode: Mode, word: Option<string>, command: seq<string>, commands: seq<seq<string>>)
    | Failed

  const Start: Lexer := Lexing(Unquoted, None, [], [])

  predicate IsBlank(c: char) {
    c == ' ' || c == '\t'
  }

  /** Characters that, unquoted, start an operator, an expansion or a pattern. */
  predicate IsSpecial(c: char) {
    c == '|' || c == '&' || c == '<' || c == '>' || c == '(' || c == ')'
    || c == '$' || c == '`' || c == '"' || c == '*' || c == '?'
  }

  function Current(word: Option<string>): string {
    match word
    case Some(w) => w
    case None => ""
  }

  /** The command's words once the word being built, if any, is ended. */
  function Delimit(word: Option<string>, command: seq<string>): seq<string> {
    match word
    case Some(w) => command + [w]
    case None => command
  }

  function Step(lx: Lexer, c: char): Lexer {
    match lx
    case Failed => Failed
    case Lexing(mode, word, command, commands) =>
      match mode
      case SingleQuoted =>
        if c == '\'' then Lexing(Unquoted, word, command, commands)
        else Lexing(SingleQuoted, Some(Current(word) + [c]), command, commands)
      case Escaped(afterSeparator) =>
        if c == '\n' then Lexing(if afterSeparator then AfterSeparator else Unquoted, word, command, commands)
        else Lexing(Unquoted, Some(Current(word) + [c]), command, commands)
      case _ =>
        if IsBlank(c) then Lexing(Unquoted, None, Delimit(word, command), commands)
        else if c == '\n' || c == ';' then
          var done := Delimit(word, command);
          if done != [] then Lexing(Unquoted, None, [], commands + [done])
          else if c == '\n' then Lexing(Unquoted, None, [], commands)
          else Failed
        else if mode == AfterBracket then Failed
        else if c == '\'' then Lexing(SingleQuoted, Some(Current(word)), command, commands)
        else if c == '\\' then Lexing(Escaped(mode == AfterSeparator), word, command, commands)
        else if IsSpecial(c) then Failed
        else if word == None && (c == '#' || c == '~') then Failed
        else if c == '~' && mode == AfterSeparator then Failed
        else if c == '[' then
          if word == None then Lexing(AfterBracket, Some("["), command, commands) else Failed
        else
          var next := if c == '=' || c == ':' then AfterSeparator else Unquoted;
          Lexing(next, Some(Current(word) + [c]), command, commands)
  }

  function Run(lx: Lexer, s: string): Lexer
    decreases |s|
  {
    if s == [] then lx else Run(Step(lx, s[0]), s[1..])
  }

  /** End of input: an open quote or a dangling backslash is an error. */
  function Finish(lx: Lexer): Option<seq<seq<string>>> {
    match lx
    case Failed => None
    case Lexing(mode, word, command, commands) =>
      if mode == SingleQuoted || mode.Escaped? then None
      else
        var done := Delimit(word, command);
        Some(if done == [] then commands else commands + [done])
  }

  /** The commands of a script, each a list of words, or `None` outside the subset. */
  function Lex(s: string): Option<seq<seq<string>>> {
    Finish(Run(Start, s))
  }

  // ---------------------------------------------------------------------------
  // Running over pieces of a script
  // ---------------------------------------------------------------------------

  lemma {:induction false} RunAppend(lx: Lexer, a: string, b: string)
    ensures Run(lx, a + b) == Run(Run(lx, a), b)
    decreases |a|
  {
    if a != [] {
      assert (a + b)[0] == a[0];
      assert (a + b)[1..] == a[1..] + b;
      RunAppend(Step(lx, a[0]), a[1..], b);
    } else {
      assert a + b == b;
    }
  }

  lemma {:induction false} RunFailed(s: string)
    ensures Run(Failed, s) == Failed
    decreases |s|
  {
    if s != [] {
      RunFailed(s[1..]);
    }
  }

  predicate IsUnquoted(mode: Mode) {
    mode == Unquoted || mode == AfterSeparator || mode == AfterBracket
  }

  /** A run of blanks ends the word being built. */
  lemma {:induction false} RunBlanks(mode: Mode, word: Option<string>, command: seq<string>,
                                      commands: seq<seq<string>>, s: string)
    requires IsUnquoted(mode)
    requires s != [] && forall i :: 0 <= i < |s| ==> IsBlank(s[i])
    ensures Run(Lexing(mode, word, command, commands), s)
         == Lexing(Unquoted, None, Delimit(word, command), commands)
    decreases |s|
  {
    if |s| > 1 {
      RunBlanks(Unquoted, None, Delimit(word, command), commands, s[1..]);
    }
  }

  /**
   * Characters that stand for themselves anywhere in an unquoted word: ASCII
   * letters and digits and a few punctuation characters.
   */
  predicate IsPlain(c: char) {
    'a' <= c <= 'z' || 'A' <= c <= 'Z' || '0' <= c <= '9'
    || c == '-' || c == '+' || c == '!' || c == ']' || c == '.' || c == '/'
  }

  /** A run of plain characters is appended to the word being built. */
  lemma {:induction false} RunWord(mode: Mode, word: Option<string>, command: seq<string>,
                                    commands: seq<seq<string>>, s: string)
    requires mode == Unquoted || mode == AfterSeparator
    requires s != [] && forall i :: 0 <= i < |s| ==> IsPlain(s[i])
    ensures Run(Lexing(mode, word, command, commands), s)
         == Lexing(Unquoted, Some(Current(word) + s), command, commands)
    decreases |s|
  {
    var next := Some(Current(word) + [s[0]]);
    if |s| > 1 {
      RunWord(Unquoted, next, command, commands, s[1..]);
      assert Current(word) + [s[0]] + s[1..] == Current(word) + s;
    } else {
      assert [s[0]] == s;
    }
  }

  lemma RunOne(lx: Lexer, c: char)
    ensures Run(lx, [c]) == Step(lx, c)
  {
    assert [c][1..] == [];
  }

  // ---------------------------------------------------------------------------
  // One more piece after a text already read. The state reached after the text
  // is all these lemmas need to know, which keeps a long script's proof a chain
  // of small steps.
  // ---------------------------------------------------------------------------

  /** A run of blanks between words changes nothing. */
  lemma ThenBlanks(lx: Lexer, p: string, pad: string, command: seq<string>, commands: seq<seq<string>>)
    requires Run(lx, p) == Lexing(Unquoted, None, command, commands)
    requires pad != [] && forall i :: 0 <= i < |pad| ==> IsBlank(pad[i])
    ensures Run(lx, p + pad) == Lexing(Unquoted, None, command, commands)
  {
    RunAppend(lx, p, pad);
    RunBlanks(Unquoted, None, command, commands, pad);
  }

  /** Any text, read from the state reached after the text before it. */
  lemma ThenText(lx: Lexer, p: string, s: string, before: Lexer)
    requires Run(lx, p) == before
    ensures Run(lx, p + s) == Run(before, s)
  {
    RunAppend(lx, p, s);
  }

  /** Plain characters start a word. */
  lemma ThenWord(lx: Lexer, p: string, command: seq<string>, commands: seq<seq<string>>, w: string)
    requires Run(lx, p) == Lexing(Unquoted, None, command, commands)
    requires w != [] && forall i :: 0 <= i < |w| ==> IsPlain(w[i])
    ensures Run(lx, p + w) == Lexing(Unquoted, Some(w), command, commands)
  {
    RunAppend(lx, p, w);
    RunWord(Unquoted, None, command, commands, w);
    assert Current(None) + w == w;
  }

  /** Plain characters continue the word being built, or start one. */
  lemma ThenPlain(lx: Lexer, p: string, mode: Mode, word: Option<string>, command: seq<string>,
                  commands: seq<seq<string>>, w: string)
    requires Run(lx, p) == Lexing(mode, word, command, commands)
    requires mode == Unquoted || mode == AfterSeparator
    requires w != [] && forall i :: 0 <= i < |w| ==> IsPlain(w[i])
    ensures Run(lx, p + w) == Lexing(Unquoted, Some(Current(word) + w), command, commands)
  {
    RunAppend(lx, p, w);
    RunWord(mode, word, command, commands, w);
  }

  /** A single character. */
  lemma ThenChar(lx: Lexer, p: string, c: char, before: Lexer)
    requires Run(lx, p) == before
    ensures Run(lx, p + [c]) == Step(before, c)
  {
    RunAppend(lx, p, [c]);
    RunOne(before, c);
  }

  /** A blank ends the word being built. */
  lemma ThenBlank(lx: Lexer, p: string, mode: Mode, word: string, command: seq<string>,
                  commands: seq<seq<string>>)
    requires Run(lx, p) == Lexing(mode, Some(word), command, commands)
    requires IsUnquoted(mode)
    ensures Run(lx, p + " ") == Lexing(Unquoted, None, command + [word], commands)
  {
    ThenChar(lx, p, ' ', Lexing(mode, Some(word), command, commands));
  }

  /** A plain word and the blank after it: the word joins the command. */
  lemma ThenWordBlank(lx: Lexer, p: string, command: seq<string>, commands: seq<seq<string>>, w: string)
    requires Run(lx, p) == Lexing(Unquoted, None, command, commands)
    requires w != [] && forall i :: 0 <= i < |w| ==> IsPlain(w[i])
    ensures Run(lx, p + w + " ") == Lexing(Unquoted, None, command + [w], commands)
  {
    ThenWord(lx, p, command, commands, w);
    ThenBlank(lx, p + w, Unquoted, w, command, commands);
  }

  /** Two plain words, each followed by a blank, at the start of a command. */
  lemma ThenTwoWords(lx: Lexer, p: string, commands: seq<seq<string>>, w1: string, w2: string)
    requires Run(lx, p) == Lexing(Unquoted, None, [], commands)
    requires w1 != [] && forall i :: 0 <= i < |w1| ==> IsPlain(w1[i])
    requires w2 != [] && forall i :: 0 <= i < |w2| ==> IsPlain(w2[i])
    ensures Run(lx, p + w1 + " " + w2 + " ") == Lexing(Unquoted, None, [w1, w2], commands)
  {
    ThenWordBlank(lx, p, [], commands, w1);
    ThenWordBlank(lx, p + w1 + " ", [] + [w1], commands, w2);
    assert [] + [w1] + [w2] == [w1, w2];
  }

  /** A lone `[` starts a word that a blank must end. */
  lemma ThenBracket(lx: Lexer, p: string, command: seq<string>, commands: seq<seq<string>>)
    requires Run(lx, p) == Lexing(Unquoted, None, command, commands)
    ensures Run(lx, p + "[") == Lexing(AfterBracket, Some("["), command, commands)
  {
    ThenChar(lx, p, '[', Lexing(Unquoted, None, command, commands));
  }

  /** A newline ends the command, with the word being built as its last word. */
  lemma ThenNewline(lx: Lexer, p: string, mode: Mode, word: string, command: seq<string>,
                    commands: seq<seq<string>>)
    requires Run(lx, p) == Lexing(mode, Some(word), command, commands)
    requires IsUnquoted(mode)
    ensures Run(lx, p + "\n") == Lexing(Unquoted, None, [], commands + [command + [word]])
  {
    ThenChar(lx, p, '\n', Lexing(mode, Some(word), command, commands));
  }

  /** A newline after a command's last word but before any other ends that command. */
  lemma ThenNewlineAfterBlank(lx: Lexer, p: string, command: seq<string>, commands: seq<seq<string>>)
    requires Run(lx, p) == Lexing(Unquoted, None, command, commands)
    requires command != []
    ensures Run(lx, p + "\n") == Lexing(Unquoted, None, [], commands + [command])
  {
    ThenChar(lx, p, '\n', Lexing(Unquoted, None, command, commands));
  }

  /** A newline on an empty line is skipped. */
  lemma ThenEmptyLine(lx: Lexer, p: string, commands: seq<seq<string>>)
    requires Run(lx, p) == Lexing(Unquoted, None, [], commands)
    ensures Run(lx, p + "\n") == Lexing(Unquoted, None, [], commands)
  {
    ThenChar(lx, p, '\n', Lexing(Unquoted, None, [], commands));
  }

  /** A `;` ends the command, with the word being built as its last word. */
  lemma ThenSemicolon(lx: Lexer, p: string, mode: Mode, word: string, command: seq<string>,
                      commands: seq<seq<string>>)
    requires Run(lx, p) == Lexing(mode, Some(word), command, commands)
    requires IsUnquoted(mode)
    ensures Run(lx, p + ";") == Lexing(Unquoted, None, [], commands + [command + [word]])
  {
    ThenChar(lx, p, ';', Lexing(mode, Some(word), command, commands));
  }

  /** A backslash before a newline between words removes both: the command goes on. */
  lemma ThenContinuation(lx: Lexer, p: string, command: seq<string>, commands: seq<seq<string>>)
    requires Run(lx, p) == Lexing(Unquoted, None, command, commands)
    ensures Run(lx, p + "\\\n") == Lexing(Unquoted, None, command, commands)
  {
    RunAppend(lx, p, "\\\n");
    assert "\\\n"[1..] == "\n";
  }

  /** A backslash outside quotes makes the next character, other than a newline, part of the word. */
  lemma ThenEscapedChar(lx: Lexer, p: string, mode: Mode, word: Option<string>, command: seq<string>,
                        commands: seq<seq<string>>, c: char)
    requires Run(lx, p) == Lexing(mode, word, command, commands)
    requires mode == Unquoted || mode == AfterSeparator
    requires c != '\n'
    ensures Run(lx, p + ['\\', c]) == Lexing(Unquoted, Some(Current(word) + [c]), command, commands)
  {
    var before := Lexing(mode, word, command, commands);
    var escaped := Lexing(Escaped(mode == AfterSeparator), word, command, commands);
    RunAppend(lx, p, ['\\', c]);
    assert Step(before, '\\') == escaped;
    assert ['\\', c][1..] == [c];
    assert Run(before, ['\\', c]) == Run(escaped, [c]);
    RunOne(escaped, c);
  }

  /**
   * A line continuation right after `=` keeps the place where a tilde-prefix
   * may start: `a=\<newline>~` is `a=~` to the shell, which is outside the subset.
   */
  lemma ContinuationAfterSeparator()
    ensures Lex("a=\\\n~") == None
  {
    var l1 := Lexing(AfterSeparator, Some("a="), [], []);
    var l2 := Lexing(Escaped(true), Some("a="), [], []);
    assert Run(Start, "a=") == l1 by {
      assert "a="[1..] == "=";
      assert Current(None) + ['a'] == "a";
      assert Step(Start, 'a') == Lexing(Unquoted, Some("a"), [], []);
      assert "a" + ['='] == "a=";
    }
    RunAppend(Start, "a=", "\\\n~");
    assert Run(l1, "\\\n~") == Failed by {
      assert Step(l1, '\\') == l2;
      assert Step(l2, '\n') == l1;
      assert Step(l1, '~') == Failed;
      RunFailed("");
      assert "\\\n~"[1..] == "\n~" && "\n~"[1..] == "~";
    }
    assert "a=" + "\\\n~" == "a=\\\n~";
  }

  /** After any other character, a line continuation joins the two lines into one word. */
  lemma ContinuationJoinsWord()
    ensures Lex("a\\\n~") == Some([["a~"]])
  {
    var l1 := Lexing(Unquoted, Some("a"), [], []);
    var l2 := Lexing(Escaped(false), Some("a"), [], []);
    var l3 := Lexing(Unquoted, Some("a~"), [], []);
    assert Run(Start, "a") == l1 by {
      assert Current(None) + ['a'] == "a";
      RunOne(Start, 'a');
    }
    RunAppend(Start, "a", "\\\n~");
    assert Run(l1, "\\\n~") == l3 by {
      assert Step(l1, '\\') == l2;
      assert Step(l2, '\n') == l1;
      assert "a" + ['~'] == "a~";
      RunOne(l1, '~');
      assert "\\\n~"[1..] == "\n~" && "\n~"[1..] == "~";
    }
    assert "a" + "\\\n~" == "a\\\n~";
    assert Finish(l3) == Some([["a~"]]) by {
      assert Delimit(Some("a~"), []) == ["a~"];
      assert [] + [["a~"]] == [["a~"]];
    }
  }



}
