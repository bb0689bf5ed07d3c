/**
 * The remote script of the `deployfs` command-line tool (`remoteCmd` in
 * `bin/deployfs.mjs`), and what a POSIX shell reads in it: the exact list of
 * commands and words, whatever the mount point, the local path and the sshfs
 * command line are.
 */
module DeployfsScript {
  import opened Wrappers
  import opened JsStrings
  import opened PosixShell
  import opened Quoting

  /** `words.map(escapeSingleQuotes)` */
  function EscapeEach(words: seq<string>): (r: seq<string>)
    ensures |r| == |words|
  {
    if words == [] then [] else [EscapeSingleQuotes(words[0])] + EscapeEach(words[1..])
  }

  /** The indentations of the template's lines. */
  const Indent: string := "        "
  const Continued: string := "            "
  const BlockIndent: string := "    "
  const ChmodIndent: string := "               "

  /** The text between `then` and `fi`: create the mount point, or do nothing (`:`). */
  function CreateBlock(create: bool, mountPoint: string): string {
    if create then
      "mkdir" + " " + "-p" + " " + EscapeSingleQuotes(mountPoint) + "\n"
      + ChmodIndent + "chmod" + " " + "u+rwx" + " " + EscapeSingleQuotes(mountPoint) + "\n"
    else ":" + "\n"
  }

  /**
   * The script run on the remote host, laid out line by line as the template
   * does it. The text is written as the concatenation of its words and the
   * characters between them, so that each line reads as its own piece:
   *
   *   - `IFS` reset to blank, tab and newline;
   *   - the mount point created if it is missing and creation was asked for
   *     (`:` otherwise);
   *   - sshfs started on `:` followed by the local path and on the mount point,
   *     in passive mode, then the rest of the sshfs command line, joined with
   *     blanks.
   *
   * The first word of the sshfs command line is taken with `shift()`, which
   * always finds one since a split yields at least one piece.
   */
  function RemoteScript(create: bool, mountPoint: string, localSharedPath: string,
                        sshfsCmd: seq<string>): string
    requires |sshfsCmd| >= 1
  {
    "\n"
    + Indent + "IFS" + "=" + "' \t\n'" + "\n"
    + "\n"
    + Indent + "if" + " " + "!" + " " + "[" + " " + "-e" + " " + EscapeSingleQuotes(mountPoint)
      + " " + "]" + ";" + " " + "then" + "\n"
    + BlockIndent + CreateBlock(create, mountPoint)
    + "\n"
    + Indent + "fi" + "\n"
    + "\n"
    + Indent + EscapeSingleQuotes(sshfsCmd[0]) + " " + "\\\n"
    + Continued + ":" + EscapeSingleQuotes(localSharedPath) + " " + "\\\n"
    + Indent + EscapeSingleQuotes(mountPoint) + " " + "\\\n"
    + Continued + "-o" + " " + "passive" + " " + "\\\n"
    + Indent + Join(EscapeEach(sshfsCmd[1..]), " ") + "\n"
  }

  /** `[ -e mountPoint ]`, negated: true when nothing exists at the mount point. */
  function TestCommand(mountPoint: string): seq<string> {
    ["if", "!", "[", "-e", mountPoint, "]"]
  }

  function MkdirCommand(mountPoint: string): seq<string> {
    ["mkdir", "-p", mountPoint]
  }

  function ChmodCommand(mountPoint: string): seq<string> {
    ["chmod", "u+rwx", mountPoint]
  }

  /** The commands of the create block. */
  function BlockCommands(create: bool, mountPoint: string): seq<seq<string>> {
    if create then [MkdirCommand(mountPoint), ChmodCommand(mountPoint)] else [[":"]]
  }

  /** The sshfs command as the shell runs it. */
  function SshfsInvocation(mountPoint: string, localSharedPath: string, sshfsCmd: seq<string>): seq<string>
    requires |sshfsCmd| >= 1
  {
    [sshfsCmd[0], ":" + localSharedPath, mountPoint, "-o", "passive"] + sshfsCmd[1..]
  }

  /** The commands a shell reads in the remote script, word by word. */
  function ScriptCommands(create: bool, mountPoint: string, localSharedPath: string,
                          sshfsCmd: seq<string>): seq<seq<string>>
    requires |sshfsCmd| >= 1
  {
    [["IFS= \t\n"]] + [TestCommand(mountPoint)] + [["then"]]
    + BlockCommands(create, mountPoint)
    + [["fi"]] + [SshfsInvocation(mountPoint, localSharedPath, sshfsCmd)]
  }

  // ---------------------------------------------------------------------------
  // The lines of the template, one lemma each. Every lemma reads its line after
  // any text `p` that leaves the lexer between commands.
  // ---------------------------------------------------------------------------

  lemma IndentBlank()
    ensures forall i :: 0 <= i < |Indent| ==> IsBlank(Indent[i])
    ensures forall i :: 0 <= i < |Continued| ==> IsBlank(Continued[i])
    ensures forall i :: 0 <= i < |BlockIndent| ==> IsBlank(BlockIndent[i])
    ensures forall i :: 0 <= i < |ChmodIndent| ==> IsBlank(ChmodIndent[i])
  {
  }

  /** The quoted value of `IFS`: blank, tab and newline, the newline kept inside the quotes. */
  lemma IfsValue(lx: Lexer, p: string, word: string, command: seq<string>, cs: seq<seq<string>>)
    requires Run(lx, p) == Lexing(AfterSeparator, Some(word), command, cs)
    ensures Run(lx, p + "' \t\n'") == Lexing(Unquoted, Some(word + " \t\n"), command, cs)
  {
    assert "' \t\n'" == "'" + ReplaceQuotes(" \t\n") + "'";
    ThenText(lx, p, "' \t\n'", Lexing(AfterSeparator, Some(word), command, cs));
    WrappedRun(AfterSeparator, Some(word), command, cs, " \t\n");
  }

  lemma IfsLine(lx: Lexer, p: string, cs: seq<seq<string>>)
    requires Run(lx, p) == Lexing(Unquoted, None, [], cs)
    ensures Run(lx, p + Indent + "IFS" + "=" + "' \t\n'" + "\n")
         == Lexing(Unquoted, None, [], cs + [["IFS= \t\n"]])
  {
    IndentBlank();
    ThenBlanks(lx, p, Indent, [], cs);
    ThenWord(lx, p + Indent, [], cs, "IFS");
    assert "=" == ['='];
    ThenChar(lx, p + Indent + "IFS", '=', Lexing(Unquoted, Some("IFS"), [], cs));
    assert "IFS" + ['='] == "IFS=";
    IfsValue(lx, p + Indent + "IFS" + "=", "IFS=", [], cs);
    assert "IFS=" + " \t\n" == "IFS= \t\n";
    ThenNewline(lx, p + Indent + "IFS" + "=" + "' \t\n'", Unquoted, "IFS= \t\n", [], cs);
    assert [] + ["IFS= \t\n"] == ["IFS= \t\n"];
  }

  lemma TestWords(lx: Lexer, p: string, cs: seq<seq<string>>)
    requires Run(lx, p) == Lexing(Unquoted, None, [], cs)
    ensures Run(lx, p + Indent + "if" + " " + "!" + " " + "[" + " " + "-e" + " ")
         == Lexing(Unquoted, None, ["if", "!", "[", "-e"], cs)
  {
    IndentBlank();
    ThenBlanks(lx, p, Indent, [], cs);
    ThenWord(lx, p + Indent, [], cs, "if");
    ThenBlank(lx, p + Indent + "if", Unquoted, "if", [], cs);
    ThenWord(lx, p + Indent + "if" + " ", [] + ["if"], cs, "!");
    ThenBlank(lx, p + Indent + "if" + " " + "!", Unquoted, "!", [] + ["if"], cs);
    ThenBracket(lx, p + Indent + "if" + " " + "!" + " ", [] + ["if"] + ["!"], cs);
    ThenBlank(lx, p + Indent + "if" + " " + "!" + " " + "[", AfterBracket, "[", [] + ["if"] + ["!"], cs);
    ThenWord(lx, p + Indent + "if" + " " + "!" + " " + "[" + " ", [] + ["if"] + ["!"] + ["["], cs, "-e");
    ThenBlank(lx, p + Indent + "if" + " " + "!" + " " + "[" + " " + "-e", Unquoted, "-e",
              [] + ["if"] + ["!"] + ["["], cs);
    assert [] + ["if"] + ["!"] + ["["] + ["-e"] == ["if", "!", "[", "-e"];
  }

  /** A quoted last word and the end of the line: the command is complete. */
  lemma ThenEscapedLast(lx: Lexer, p: string, words: seq<string>, cs: seq<seq<string>>, m: string)
    requires Run(lx, p) == Lexing(Unquoted, None, words, cs)
    ensures Run(lx, p + EscapeSingleQuotes(m) + "\n") == Lexing(Unquoted, None, [], cs + [words + [m]])
  {
    ThenEscaped(lx, p, Unquoted, None, words, cs, m);
    assert Current(None) + m == m;
    ThenNewline(lx, p + EscapeSingleQuotes(m), Unquoted, m, words, cs);
  }

  /** ` ]; then` after the quoted mount point ends the test and makes `then` a command of its own. */
  lemma TestTail(lx: Lexer, q: string, words: seq<string>, m: string, cs: seq<seq<string>>)
    requires Run(lx, q) == Lexing(Unquoted, Some(m), words, cs)
    ensures Run(lx, q + " " + "]" + ";" + " " + "then" + "\n")
         == Lexing(Unquoted, None, [], cs + [words + [m] + ["]"]] + [["then"]])
  {
    ThenBlank(lx, q, Unquoted, m, words, cs);
    ThenWord(lx, q + " ", words + [m], cs, "]");
    ThenSemicolon(lx, q + " " + "]", Unquoted, "]", words + [m], cs);
    var test := words + [m] + ["]"];
    ThenBlanks(lx, q + " " + "]" + ";", " ", [], cs + [test]);
    ThenWord(lx, q + " " + "]" + ";" + " ", [], cs + [test], "then");
    ThenNewline(lx, q + " " + "]" + ";" + " " + "then", Unquoted, "then", [], cs + [test]);
    assert [] + ["then"] == ["then"];
  }

  /** The test for the mount point is a command of its own, and so is `then`. */
  lemma TestLine(lx: Lexer, p: string, mountPoint: string, cs: seq<seq<string>>)
    requires Run(lx, p) == Lexing(Unquoted, None, [], cs)
    ensures Run(lx, p + Indent + "if" + " " + "!" + " " + "[" + " " + "-e" + " " + EscapeSingleQuotes(mountPoint)
                   + " " + "]" + ";" + " " + "then" + "\n")
         == Lexing(Unquoted, None, [], cs + [TestCommand(mountPoint)] + [["then"]])
  {
    var q := p + Indent + "if" + " " + "!" + " " + "[" + " " + "-e" + " ";
    var words := ["if", "!", "[", "-e"];
    TestWords(lx, p, cs);
    ThenEscaped(lx, q, Unquoted, None, words, cs, mountPoint);
    assert Current(None) + mountPoint == mountPoint;
    TestTail(lx, q + EscapeSingleQuotes(mountPoint), words, mountPoint, cs);
    assert words + [mountPoint] + ["]"] == TestCommand(mountPoint);
  }

  lemma MkdirLine(mountPoint: string, cs: seq<seq<string>>)
    ensures Run(Lexing(Unquoted, None, [], cs), "mkdir" + " " + "-p" + " " + EscapeSingleQuotes(mountPoint) + "\n")
         == Lexing(Unquoted, None, [], cs + [MkdirCommand(mountPoint)])
  {
    var lx := Lexing(Unquoted, None, [], cs);
    ThenTwoWords(lx, [], cs, "mkdir", "-p");
    assert [] + "mkdir" + " " + "-p" + " " == "mkdir" + " " + "-p" + " ";
    ThenEscapedLast(lx, "mkdir" + " " + "-p" + " ", ["mkdir", "-p"], cs, mountPoint);
    assert ["mkdir", "-p"] + [mountPoint] == MkdirCommand(mountPoint);
  }

  lemma ChmodLine(lx: Lexer, p: string, mountPoint: string, cs: seq<seq<string>>)
    requires Run(lx, p) == Lexing(Unquoted, None, [], cs)
    ensures Run(lx, p + ChmodIndent + "chmod" + " " + "u+rwx" + " " + EscapeSingleQuotes(mountPoint) + "\n")
         == Lexing(Unquoted, None, [], cs + [ChmodCommand(mountPoint)])
  {
    IndentBlank();
    ThenBlanks(lx, p, ChmodIndent, [], cs);
    ThenTwoWords(lx, p + ChmodIndent, cs, "chmod", "u+rwx");
    ThenEscapedLast(lx, p + ChmodIndent + "chmod" + " " + "u+rwx" + " ", ["chmod", "u+rwx"], cs, mountPoint);
    assert ["chmod", "u+rwx"] + [mountPoint] == ChmodCommand(mountPoint);
  }

  /** `mkdir -p` and `chmod u+rwx` on the mount point, or the no-op `:`. */
  lemma BlockLines(lx: Lexer, p: string, create: bool, mountPoint: string, cs: seq<seq<string>>)
    requires Run(lx, p) == Lexing(Unquoted, None, [], cs)
    ensures Run(lx, p + BlockIndent + CreateBlock(create, mountPoint))
         == Lexing(Unquoted, None, [], cs + BlockCommands(create, mountPoint))
  {
    var l0 := Lexing(Unquoted, None, [], cs);
    IndentBlank();
    ThenBlanks(lx, p, BlockIndent, [], cs);
    ThenText(lx, p + BlockIndent, CreateBlock(create, mountPoint), l0);
    if create {
      var mkdir := "mkdir" + " " + "-p" + " " + EscapeSingleQuotes(mountPoint) + "\n";
      MkdirLine(mountPoint, cs);
      ChmodLine(l0, mkdir, mountPoint, cs + [MkdirCommand(mountPoint)]);
      assert cs + [MkdirCommand(mountPoint)] + [ChmodCommand(mountPoint)] == cs + BlockCommands(create, mountPoint);
    } else {
      assert ":" == [':'];
      RunOne(l0, ':');
      assert Current(None) + [':'] == ":";
      ThenNewline(l0, ":", AfterSeparator, ":", [], cs);
      assert [] + [":"] == [":"];
    }
  }

  lemma FiLine(lx: Lexer, p: string, cs: seq<seq<string>>)
    requires Run(lx, p) == Lexing(Unquoted, None, [], cs)
    ensures Run(lx, p + Indent + "fi" + "\n") == Lexing(Unquoted, None, [], cs + [["fi"]])
  {
    IndentBlank();
    ThenBlanks(lx, p, Indent, [], cs);
    ThenWord(lx, p + Indent, [], cs, "fi");
    ThenNewline(lx, p + Indent + "fi", Unquoted, "fi", [], cs);
    assert [] + ["fi"] == ["fi"];
  }

  /** The program of the sshfs command, alone on its line. */
  lemma ProgramLine(lx: Lexer, p: string, program: string, cs: seq<seq<string>>)
    requires Run(lx, p) == Lexing(Unquoted, None, [], cs)
    ensures Run(lx, p + Indent + EscapeSingleQuotes(program) + " " + "\\\n")
         == Lexing(Unquoted, None, [program], cs)
  {
    IndentBlank();
    ThenBlanks(lx, p, Indent, [], cs);
    ThenEscaped(lx, p + Indent, Unquoted, None, [], cs, program);
    assert Current(None) + program == program;
    ThenBlank(lx, p + Indent + EscapeSingleQuotes(program), Unquoted, program, [], cs);
    ThenContinuation(lx, p + Indent + EscapeSingleQuotes(program) + " ", [] + [program], cs);
    assert [] + [program] == [program];
  }

  /** `:` then the quoted local path: one word, the remote side of sshfs's slave mode. */
  lemma LocalPathLine(lx: Lexer, p: string, localSharedPath: string, command: seq<string>,
                      cs: seq<seq<string>>)
    requires Run(lx, p) == Lexing(Unquoted, None, command, cs)
    ensures Run(lx, p + Continued + ":" + EscapeSingleQuotes(localSharedPath) + " " + "\\\n")
         == Lexing(Unquoted, None, command + [":" + localSharedPath], cs)
  {
    IndentBlank();
    ThenBlanks(lx, p, Continued, command, cs);
    assert ":" == [':'];
    ThenChar(lx, p + Continued, ':', Lexing(Unquoted, None, command, cs));
    assert Current(None) + [':'] == ":";
    ThenEscaped(lx, p + Continued + ":", AfterSeparator, Some(":"), command, cs, localSharedPath);
    var q := p + Continued + ":" + EscapeSingleQuotes(localSharedPath);
    ThenBlank(lx, q, Unquoted, ":" + localSharedPath, command, cs);
    ThenContinuation(lx, q + " ", command + [":" + localSharedPath], cs);
  }

  lemma MountPointLine(lx: Lexer, p: string, mountPoint: string, command: seq<string>,
                       cs: seq<seq<string>>)
    requires Run(lx, p) == Lexing(Unquoted, None, command, cs)
    ensures Run(lx, p + Indent + EscapeSingleQuotes(mountPoint) + " " + "\\\n")
         == Lexing(Unquoted, None, command + [mountPoint], cs)
  {
    IndentBlank();
    ThenBlanks(lx, p, Indent, command, cs);
    ThenEscaped(lx, p + Indent, Unquoted, None, command, cs, mountPoint);
    assert Current(None) + mountPoint == mountPoint;
    ThenBlank(lx, p + Indent + EscapeSingleQuotes(mountPoint), Unquoted, mountPoint, command, cs);
    ThenContinuation(lx, p + Indent + EscapeSingleQuotes(mountPoint) + " ", command + [mountPoint], cs);
  }

  lemma PassiveLine(lx: Lexer, p: string, command: seq<string>, cs: seq<seq<string>>)
    requires Run(lx, p) == Lexing(Unquoted, None, command, cs)
    ensures Run(lx, p + Continued + "-o" + " " + "passive" + " " + "\\\n")
         == Lexing(Unquoted, None, command + ["-o", "passive"], cs)
  {
    IndentBlank();
    ThenBlanks(lx, p, Continued, command, cs);
    ThenWord(lx, p + Continued, command, cs, "-o");
    ThenBlank(lx, p + Continued + "-o", Unquoted, "-o", command, cs);
    ThenWord(lx, p + Continued + "-o" + " ", command + ["-o"], cs, "passive");
    ThenBlank(lx, p + Continued + "-o" + " " + "passive", Unquoted, "passive", command + ["-o"], cs);
    ThenContinuation(lx, p + Continued + "-o" + " " + "passive" + " ", command + ["-o"] + ["passive"], cs);
    assert command + ["-o"] + ["passive"] == command + ["-o", "passive"];
  }

  lemma JoinEscapedCons(words: seq<string>)
    requires |words| >= 2
    ensures Join(EscapeEach(words), " ") == EscapeSingleQuotes(words[0]) + " " + Join(EscapeEach(words[1..]), " ")
  {
    assert EscapeEach(words)[1..] == EscapeEach(words[1..]);
  }

  lemma Regroup(p: string, a: string, b: string, c: string)
    ensures p + (a + b + c) == p + a + b + c
  {
  }

  lemma JoinEscapedOne(words: seq<string>)
    requires |words| == 1
    ensures Join(EscapeEach(words), " ") == EscapeSingleQuotes(words[0])
  {
  }

  lemma ConsWords(command: seq<string>, words: seq<string>)
    requires words != []
    ensures command + [words[0]] + words[1..] == command + words
  {
  }

  /** No word at all: the newline ends the command as it stands. */
  lemma NoMoreWords(lx: Lexer, p: string, command: seq<string>, cs: seq<seq<string>>, words: seq<string>)
    requires Run(lx, p) == Lexing(Unquoted, None, command, cs)
    requires command != [] && words == []
    ensures Run(lx, p + Join(EscapeEach(words), " ") + "\n")
         == Lexing(Unquoted, None, [], cs + [command + words])
  {
    assert p + Join(EscapeEach(words), " ") == p;
    ThenNewlineAfterBlank(lx, p, command, cs);
    assert command + words == command;
  }

  /** The last escaped word, then a newline. */
  lemma LastWord(lx: Lexer, p: string, command: seq<string>, cs: seq<seq<string>>, words: seq<string>)
    requires Run(lx, p) == Lexing(Unquoted, None, command, cs)
    requires |words| == 1
    ensures Run(lx, p + Join(EscapeEach(words), " ") + "\n")
         == Lexing(Unquoted, None, [], cs + [command + words])
  {
    JoinEscapedOne(words);
    ThenEscaped(lx, p, Unquoted, None, command, cs, words[0]);
    assert Current(None) + words[0] == words[0];
    ThenNewline(lx, p + EscapeSingleQuotes(words[0]), Unquoted, words[0], command, cs);
    assert [words[0]] == words;
  }

  /** One escaped word and the blank after it. */
  lemma NextWord(lx: Lexer, p: string, command: seq<string>, cs: seq<seq<string>>, word: string)
    requires Run(lx, p) == Lexing(Unquoted, None, command, cs)
    ensures Run(lx, p + EscapeSingleQuotes(word) + " ") == Lexing(Unquoted, None, command + [word], cs)
  {
    ThenEscaped(lx, p, Unquoted, None, command, cs, word);
    assert Current(None) + word == word;
    ThenBlank(lx, p + EscapeSingleQuotes(word), Unquoted, word, command, cs);
  }

  /**
   * The escaped words joined with blanks, then a newline: each word is one more
   * word of the command, which then ends.
   */
  lemma {:induction false} JoinedWords(lx: Lexer, p: string, command: seq<string>,
                                       cs: seq<seq<string>>, words: seq<string>)
    requires Run(lx, p) == Lexing(Unquoted, None, command, cs)
    requires command != []
    ensures Run(lx, p + Join(EscapeEach(words), " ") + "\n")
         == Lexing(Unquoted, None, [], cs + [command + words])
    decreases |words|
  {
    if words == [] {
      NoMoreWords(lx, p, command, cs, words);
    } else if |words| == 1 {
      LastWord(lx, p, command, cs, words);
    } else {
      var e := EscapeSingleQuotes(words[0]);
      var rest := Join(EscapeEach(words[1..]), " ");
      NextWord(lx, p, command, cs, words[0]);
      JoinEscapedCons(words);
      Regroup(p, e, " ", rest);
      JoinedWords(lx, p + e + " ", command + [words[0]], cs, words[1..]);
      ConsWords(command, words);
    }
  }

  lemma ArgumentsLine(lx: Lexer, p: string, command: seq<string>, cs: seq<seq<string>>, words: seq<string>)
    requires Run(lx, p) == Lexing(Unquoted, None, command, cs)
    requires command != []
    ensures Run(lx, p + Indent + Join(EscapeEach(words), " ") + "\n")
         == Lexing(Unquoted, None, [], cs + [command + words])
  {
    IndentBlank();
    ThenBlanks(lx, p, Indent, command, cs);
    JoinedWords(lx, p + Indent, command, cs, words);
  }

  // ---------------------------------------------------------------------------
  // The whole script
  // ---------------------------------------------------------------------------

  /** Everything up to and including `fi` and the blank line after it. */
  lemma PreambleLines(lx: Lexer, p: string, create: bool, mountPoint: string)
    requires Run(lx, p) == Start
    ensures Run(lx, p
                    + Indent + "IFS" + "=" + "' \t\n'" + "\n"
                    + "\n"
                    + Indent + "if" + " " + "!" + " " + "[" + " " + "-e" + " " + EscapeSingleQuotes(mountPoint)
                      + " " + "]" + ";" + " " + "then" + "\n"
                    + BlockIndent + CreateBlock(create, mountPoint)
                    + "\n"
                    + Indent + "fi" + "\n"
                    + "\n")
         == Lexing(Unquoted, None, [], [["IFS= \t\n"]] + [TestCommand(mountPoint)] + [["then"]]
                                       + BlockCommands(create, mountPoint) + [["fi"]])
  {
    IfsLine(lx, p, []);
    var p1 := p + Indent + "IFS" + "=" + "' \t\n'" + "\n";
    var c1 := [] + [["IFS= \t\n"]];
    ThenEmptyLine(lx, p1, c1);
    TestLine(lx, p1 + "\n", mountPoint, c1);
    var p2 := p1 + "\n"
      + Indent + "if" + " " + "!" + " " + "[" + " " + "-e" + " " + EscapeSingleQuotes(mountPoint)
      + " " + "]" + ";" + " " + "then" + "\n";
    var c2 := c1 + [TestCommand(mountPoint)] + [["then"]];
    BlockLines(lx, p2, create, mountPoint, c2);
    var p3 := p2 + BlockIndent + CreateBlock(create, mountPoint);
    var c3 := c2 + BlockCommands(create, mountPoint);
    ThenEmptyLine(lx, p3, c3);
    FiLine(lx, p3 + "\n", c3);
    ThenEmptyLine(lx, p3 + "\n" + Indent + "fi" + "\n", c3 + [["fi"]]);
    assert c1 == [["IFS= \t\n"]];
  }

  lemma InvocationWords(mountPoint: string, localSharedPath: string, sshfsCmd: seq<string>)
    requires |sshfsCmd| >= 1
    ensures [sshfsCmd[0]] + [":" + localSharedPath] + [mountPoint] + ["-o", "passive"] + sshfsCmd[1..]
         == SshfsInvocation(mountPoint, localSharedPath, sshfsCmd)
  {
  }

  /** The sshfs command, spread over five lines by line continuations. */
  lemma SshfsLines(lx: Lexer, p: string, mountPoint: string, localSharedPath: string,
                   sshfsCmd: seq<string>, cs: seq<seq<string>>)
    requires Run(lx, p) == Lexing(Unquoted, None, [], cs)
    requires |sshfsCmd| >= 1
    ensures Run(lx, p
                    + Indent + EscapeSingleQuotes(sshfsCmd[0]) + " " + "\\\n"
                    + Continued + ":" + EscapeSingleQuotes(localSharedPath) + " " + "\\\n"
                    + Indent + EscapeSingleQuotes(mountPoint) + " " + "\\\n"
                    + Continued + "-o" + " " + "passive" + " " + "\\\n"
                    + Indent + Join(EscapeEach(sshfsCmd[1..]), " ") + "\n")
         == Lexing(Unquoted, None, [], cs + [SshfsInvocation(mountPoint, localSharedPath, sshfsCmd)])
  {
    ProgramLine(lx, p, sshfsCmd[0], cs);
    var p1 := p + Indent + EscapeSingleQuotes(sshfsCmd[0]) + " " + "\\\n";
    LocalPathLine(lx, p1, localSharedPath, [sshfsCmd[0]], cs);
    var p2 := p1 + Continued + ":" + EscapeSingleQuotes(localSharedPath) + " " + "\\\n";
    MountPointLine(lx, p2, mountPoint, [sshfsCmd[0]] + [":" + localSharedPath], cs);
    var p3 := p2 + Indent + EscapeSingleQuotes(mountPoint) + " " + "\\\n";
    var words := [sshfsCmd[0]] + [":" + localSharedPath] + [mountPoint];
    PassiveLine(lx, p3, words, cs);
    var p4 := p3 + Continued + "-o" + " " + "passive" + " " + "\\\n";
    ArgumentsLine(lx, p4, words + ["-o", "passive"], cs, sshfsCmd[1..]);
    InvocationWords(mountPoint, localSharedPath, sshfsCmd);
  }

  /** The template starts with an empty line. */
  lemma LeadingNewline()
    ensures Run(Start, "\n") == Start
  {
    RunOne(Start, '\n');
  }

  /**
   * A POSIX shell reads the remote script as exactly these commands: each
   * quoted value arrives as one word, unchanged, whatever characters it holds;
   * the create block is there only when creation was asked for; and `-o
   * passive` comes right after the mount point, before the user's sshfs
   * arguments.
   */
  lemma RemoteScriptCommands(create: bool, mountPoint: string, localSharedPath: string,
                             sshfsCmd: seq<string>)
    requires |sshfsCmd| >= 1
    ensures Lex(RemoteScript(create, mountPoint, localSharedPath, sshfsCmd))
         == Some(ScriptCommands(create, mountPoint, localSharedPath, sshfsCmd))
  {
    LeadingNewline();
    PreambleLines(Start, "\n", create, mountPoint);
    var pre := "\n"
      + Indent + "IFS" + "=" + "' \t\n'" + "\n"
      + "\n"
      + Indent + "if" + " " + "!" + " " + "[" + " " + "-e" + " " + EscapeSingleQuotes(mountPoint)
        + " " + "]" + ";" + " " + "then" + "\n"
      + BlockIndent + CreateBlock(create, mountPoint)
      + "\n"
      + Indent + "fi" + "\n"
      + "\n";
    var cs := [["IFS= \t\n"]] + [TestCommand(mountPoint)] + [["then"]]
              + BlockCommands(create, mountPoint) + [["fi"]];
    SshfsLines(Start, pre, mountPoint, localSharedPath, sshfsCmd, cs);
  }

  /**
   * The create block is there exactly when creation was asked for, and the
   * no-op `:` exactly when it was not; no other command of the script can be
   * mistaken for either.
   */
  lemma CreateBlockIffRequested(create: bool, mountPoint: string, localSharedPath: string,
                                sshfsCmd: seq<string>)
    requires |sshfsCmd| >= 1
    ensures MkdirCommand(mountPoint) in ScriptCommands(create, mountPoint, localSharedPath, sshfsCmd) <==> create
    ensures ChmodCommand(mountPoint) in ScriptCommands(create, mountPoint, localSharedPath, sshfsCmd) <==> create
    ensures [":"] in ScriptCommands(create, mountPoint, localSharedPath, sshfsCmd) <==> !create
  {
    var cs := ScriptCommands(create, mountPoint, localSharedPath, sshfsCmd);
    var invocation := SshfsInvocation(mountPoint, localSharedPath, sshfsCmd);
    assert |invocation| >= 5;
    if create {
      assert cs == [["IFS= \t\n"], TestCommand(mountPoint), ["then"], MkdirCommand(mountPoint),
                    ChmodCommand(mountPoint), ["fi"], invocation];
      assert cs[3] == MkdirCommand(mountPoint) && cs[4] == ChmodCommand(mountPoint);
      assert forall k :: 0 <= k < |cs| ==> cs[k] != [":"];
    } else {
      assert cs == [["IFS= \t\n"], TestCommand(mountPoint), ["then"], [":"], ["fi"], invocation];
      assert cs[3] == [":"];
      assert forall k :: 0 <= k < |cs| ==> cs[k] != MkdirCommand(mountPoint) && cs[k] != ChmodCommand(mountPoint);
    }
  }
}
