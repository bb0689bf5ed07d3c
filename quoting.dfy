/**
 * `escapeSingleQuotes` in its two versions, and the proof that the POSIX shell
 * reads what they produce back as exactly the string that was quoted.
 */
module Quoting {
  import opened Wrappers
  import opened PosixShell

  function CountQuotes(s: string): nat {
    if s == [] then 0 else (if s[0] == '\'' then 1 else 0) + CountQuotes(s[1..])
  }

  /** What one character becomes: `'` is closed, escaped and reopened, anything else kept. */
  function QuoteChar(c: char): string {
    if c == '\'' then "'\\''" else [c]
  }

  /** `s.replace(/'/g, "'\\''")`: each `'` becomes the four characters `'\''`. */
  function ReplaceQuotes(s: string): (r: string)
    ensures |r| == |s| + 3 * CountQuotes(s)
    ensures '\'' !in s ==> r == s
  {
    if s == [] then []
    else QuoteChar(s[0]) + ReplaceQuotes(s[1..])
  }

  /** `t.replace(/^~/, "'~'")`: a leading `~` is put between quotes of its own. */
  function IsolateLeadingTilde(t: string): (r: string)
    ensures |r| == |t| + (if t != [] && t[0] == '~' then 2 else 0)
  {
    if t != [] && t[0] == '~' then "'~'" + t[1..] else t
  }

  predicate StartsWithTilde(s: string) {
    s != [] && s[0] == '~'
  }

  /**
   * The `escapeSingleQuotes` of the command-line tool: the quotes around the
   * result are its own, and a leading `~` is isolated.
   */
  function EscapeSingleQuotes(s: string): (r: string)
    ensures |r| == |s| + 2 + 3 * CountQuotes(s) + (if StartsWithTilde(s) then 2 else 0)
    ensures r[0] == '\'' && r[|r| - 1] == '\''
    ensures '\'' !in s && !StartsWithTilde(s) ==> r == "'" + s + "'"
  {
    var t := ReplaceQuotes(s);
    assert StartsWithTilde(s) <==> t != [] && t[0] == '~' by {
      if s != [] {
        assert t == QuoteChar(s[0]) + ReplaceQuotes(s[1..]);
      }
    }
    "'" + IsolateLeadingTilde(t) + "'"
  }

  // ---------------------------------------------------------------------------
  // Reading the quoted text back
  // ---------------------------------------------------------------------------

  /** Inside single quotes, `'\''` adds one `'` to the word and leaves the quotes open. */
  lemma QuoteRun(word: string, command: seq<string>, commands: seq<seq<string>>)
    ensures Run(Lexing(SingleQuoted, Some(word), command, commands), "'\\''")
         == Lexing(SingleQuoted, Some(word + "'"), command, commands)
  {
    assert "'\\''"[1..] == "\\''";
    assert "\\''"[1..] == "''";
    assert "''"[1..] == "'";
  }

  /** Inside single quotes, the replacement of one character adds that character to the word. */
  lemma QuoteCharRun(word: string, command: seq<string>, commands: seq<seq<string>>, c: char)
    ensures Run(Lexing(SingleQuoted, Some(word), command, commands), QuoteChar(c))
         == Lexing(SingleQuoted, Some(word + [c]), command, commands)
  {
    if c == '\'' {
      QuoteRun(word, command, commands);
    } else {
      RunOne(Lexing(SingleQuoted, Some(word), command, commands), c);
    }
  }

  /**
   * Inside single quotes, the replacement text of a string adds that string to
   * the word: each `'\''` closes the quotes, adds an escaped `'` and reopens them.
   */
  lemma {:induction false} QuotedRun(word: string, command: seq<string>,
                                      commands: seq<seq<string>>, s: string)
    ensures Run(Lexing(SingleQuoted, Some(word), command, commands), ReplaceQuotes(s))
         == Lexing(SingleQuoted, Some(word + s), command, commands)
    decreases |s|
  {
    if s == [] {
      assert word + s == word;
    } else {
      var lx := Lexing(SingleQuoted, Some(word), command, commands);
      RunAppend(lx, QuoteChar(s[0]), ReplaceQuotes(s[1..]));
      QuoteCharRun(word, command, commands, s[0]);
      QuotedRun(word + [s[0]], command, commands, s[1..]);
      assert word + [s[0]] + s[1..] == word + s;
    }
  }

  /** Opening quote, replacement text, closing quote: the string is added to the word. */
  lemma WrappedRun(mode: Mode, word: Option<string>, command: seq<string>,
                   commands: seq<seq<string>>, s: string)
    requires mode == Unquoted || mode == AfterSeparator
    ensures Run(Lexing(mode, word, command, commands), "'" + ReplaceQuotes(s) + "'")
         == Lexing(Unquoted, Some(Current(word) + s), command, commands)
  {
    var lx := Lexing(mode, word, command, commands);
    RunAppend(lx, "'" + ReplaceQuotes(s), "'");
    RunAppend(lx, "'", ReplaceQuotes(s));
    QuotedRun(Current(word), command, commands, s);
  }

  lemma TildeRegroup(rest: string)
    ensures "'" + ("'~'" + rest) + "'" == "''~" + ("'" + rest + "'")
  {
  }

  /** With a leading `~`, the escaped text is an empty quoted word, the `~`, then the rest quoted. */
  lemma TildeEscape(s: string)
    requires StartsWithTilde(s)
    ensures EscapeSingleQuotes(s) == "''~" + ("'" + ReplaceQuotes(s[1..]) + "'")
  {
    var t := ReplaceQuotes(s);
    var rest := ReplaceQuotes(s[1..]);
    assert t == [s[0]] + rest;
    assert t[1..] == rest;
    assert IsolateLeadingTilde(t) == "'~'" + rest;
    TildeRegroup(rest);
  }

  /** `''~`: the empty quotes start the word, so the `~` after them is literal. */
  lemma TildePrefixRun(mode: Mode, word: Option<string>, command: seq<string>, commands: seq<seq<string>>)
    requires mode == Unquoted || mode == AfterSeparator
    ensures Run(Lexing(mode, word, command, commands), "''~")
         == Lexing(Unquoted, Some(Current(word) + "~"), command, commands)
  {
    var w := Current(word);
    var l1 := Lexing(SingleQuoted, Some(w), command, commands);
    var l2 := Lexing(Unquoted, Some(w), command, commands);
    assert Step(Lexing(mode, word, command, commands), '\'') == l1;
    assert Step(l1, '\'') == l2;
    assert Step(l2, '~') == Lexing(Unquoted, Some(w + "~"), command, commands);
    assert "''~"[1..] == "'~";
    assert "'~"[1..] == "~";
    RunOne(l2, '~');
  }

  lemma TildeRun(mode: Mode, word: Option<string>, command: seq<string>,
                  commands: seq<seq<string>>, s: string)
    requires mode == Unquoted || mode == AfterSeparator
    requires StartsWithTilde(s)
    ensures Run(Lexing(mode, word, command, commands), "''~" + ("'" + ReplaceQuotes(s[1..]) + "'"))
         == Lexing(Unquoted, Some(Current(word) + s), command, commands)
  {
    var w := Current(word);
    RunAppend(Lexing(mode, word, command, commands), "''~", "'" + ReplaceQuotes(s[1..]) + "'");
    TildePrefixRun(mode, word, command, commands);
    WrappedRun(Unquoted, Some(w + "~"), command, commands, s[1..]);
    assert w + "~" + s[1..] == w + s;
  }

  lemma PlainEscape(s: string)
    requires !StartsWithTilde(s)
    ensures EscapeSingleQuotes(s) == "'" + ReplaceQuotes(s) + "'"
  {
    if s != [] {
      assert ReplaceQuotes(s) == QuoteChar(s[0]) + ReplaceQuotes(s[1..]);
    }
  }

  /**
   * The result of `escapeSingleQuotes` adds exactly the quoted string to the word
   * being built. An isolated leading `~` is never at the start of a word, since
   * the word starts with the quotes before it, so no tilde expansion happens.
   */
  lemma EscapedRun(mode: Mode, word: Option<string>, command: seq<string>,
                   commands: seq<seq<string>>, s: string)
    requires mode == Unquoted || mode == AfterSeparator
    ensures Run(Lexing(mode, word, command, commands), EscapeSingleQuotes(s))
         == Lexing(Unquoted, Some(Current(word) + s), command, commands)
  {
    if StartsWithTilde(s) {
      TildeEscape(s);
      TildeRun(mode, word, command, commands, s);
    } else {
      PlainEscape(s);
      WrappedRun(mode, word, command, commands, s);
    }
  }

  /** `escapeSingleQuotes(s)` after a text already read adds `s` to the word being built. */
  lemma ThenEscaped(lx: Lexer, p: string, mode: Mode, word: Option<string>, command: seq<string>,
                    commands: seq<seq<string>>, s: string)
    requires Run(lx, p) == Lexing(mode, word, command, commands)
    requires mode == Unquoted || mode == AfterSeparator
    ensures Run(lx, p + EscapeSingleQuotes(s)) == Lexing(Unquoted, Some(Current(word) + s), command, commands)
  {
    RunAppend(lx, p, EscapeSingleQuotes(s));
    EscapedRun(mode, word, command, commands, s);
  }

  /** A quoted string after a text already read, the quotes written around it by the caller. */
  lemma ThenWrapped(lx: Lexer, p: string, mode: Mode, word: Option<string>, command: seq<string>,
                    commands: seq<seq<string>>, s: string)
    requires Run(lx, p) == Lexing(mode, word, command, commands)
    requires mode == Unquoted || mode == AfterSeparator
    ensures Run(lx, p + "'" + ReplaceQuotes(s) + "'") == Lexing(Unquoted, Some(Current(word) + s), command, commands)
  {
    assert p + "'" + ReplaceQuotes(s) + "'" == p + ("'" + ReplaceQuotes(s) + "'");
    RunAppend(lx, p, "'" + ReplaceQuotes(s) + "'");
    WrappedRun(mode, word, command, commands, s);
  }

  lemma FinishOneWord(s: string)
    ensures Finish(Lexing(Unquoted, Some(s), [], [])) == Some([[s]])
  {
    assert Delimit(Some(s), []) == [s];
    assert [] + [[s]] == [[s]];
  }

  /** The shell reads `escapeSingleQuotes(s)` as one command of one word: `s`. */
  lemma EscapeRoundTrip(s: string)
    ensures Lex(EscapeSingleQuotes(s)) == Some([[s]])
  {
    EscapedRun(Unquoted, None, [], [], s);
    assert Current(None) + s == s;
    FinishOneWord(s);
  }

  /** The older `escapeSingleQuotes`, inside the quotes its callers add, reads back as `s`. */
  lemma WrappedRoundTrip(s: string)
    ensures Lex("'" + ReplaceQuotes(s) + "'") == Some([[s]])
  {
    WrappedRun(Unquoted, None, [], [], s);
    assert Current(None) + s == s;
    FinishOneWord(s);
  }

  /**
   * The isolation of a leading `~` changes the text but not what the shell
   * reads: inside the quotes the `~` was literal already, so quoting without
   * the isolation reads back as the same word.
   */
  lemma TildeIsolationRedundant(s: string)
    requires StartsWithTilde(s)
    ensures EscapeSingleQuotes(s) != "'" + ReplaceQuotes(s) + "'"
    ensures Lex("'" + ReplaceQuotes(s) + "'") == Lex(EscapeSingleQuotes(s)) == Some([[s]])
  {
    TildeEscape(s);
    var plain := "'" + ReplaceQuotes(s) + "'";
    var isolated := EscapeSingleQuotes(s);
    assert isolated[1] == '\'';
    assert ReplaceQuotes(s) == [s[0]] + ReplaceQuotes(s[1..]);
    assert plain[1] == '~';
    WrappedRoundTrip(s);
    EscapeRoundTrip(s);
  }

  /** The quoted form of the home directory `~` itself. */
  lemma EscapeTildeExample()
    ensures EscapeSingleQuotes("~") == "''~''"
    ensures Lex("''~''") == Some([["~"]])
  {
    EscapeRoundTrip("~");
  }

  /** `it's` is quoted as `'it'\''s'`. */
  lemma EscapeQuoteExample()
    ensures EscapeSingleQuotes("it's") == "'it'\\''s'"
  {
    assert "it's"[1..] == "t's";
    assert "t's"[1..] == "'s";
    assert "'s"[1..] == "s";
    assert ReplaceQuotes("'s") == "'\\''" + "s";
    assert ReplaceQuotes("it's") == "it'\\''s";
  }
}
