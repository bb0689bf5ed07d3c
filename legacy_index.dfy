/**
 * The older entry point of deployfs (`index.mjs`): its argument loop, which
 * walks the arguments with `for…of` while `shift()` may remove the first one,
 * its count check, and its remote script, in which the caller writes the
 * quotes around each escaped value.
 *
 * The defaults of `SFTP_CMD` and `SSH_CMD` come from the package manifest; here
 * they are inputs, as are the environment variables themselves.
 */
module LegacyIndex {
  import opened Wrappers
  import opened JsStrings
  import opened PosixShell
  import opened Quoting
  import opened DeployfsArgs
  import opened DeployfsScript
  import DeployfsMain

  /** `badOption` exits with status 2, which is not one of sysexits(3). */
  const BadOptionStatus: int := 2

  // ---------------------------------------------------------------------------
  // The argument loop
  // ---------------------------------------------------------------------------

  /** How the loop over the arguments after the two positionals ends. */
  datatype LoopOutcome =
    | BadOption(option: string)
    | Finished(createMountPointIfNeeded: bool, sshfsOpts: Option<seq<string>>)

  /**
   * The loop from position `k` of `rest`, with the flag as set so far.
   *
   * `--` shifts the array, which removes its FIRST element, not the `--`, and
   * then takes everything left, with the passive option deleted from each, as
   * the sshfs options. `-M` sets the flag, but the dash test that follows sends
   * it to `badOption` all the same. Any other argument is skipped.
   */
  function LoopFrom(rest: seq<string>, k: nat, create: bool): LoopOutcome
    requires k <= |rest|
    decreases |rest| - k
  {
    if k == |rest| then Finished(create, None)
    else if rest[k] == "--" then Finished(create, Some(StripPassiveAll(rest[1..])))
    else
      var create' := create || rest[k] == "-M";
      if StartsWithDash(rest[k]) then BadOption(rest[k])
      else LoopFrom(rest, k + 1, create')
  }

  function Loop(rest: seq<string>): LoopOutcome {
    LoopFrom(rest, 0, false)
  }

  /** The loop as the source runs it: an index into an array that `--` shifts. */
  method ScanRemaining(args: seq<string>) returns (outcome: LoopOutcome)
    ensures outcome == Loop(args)
  {
    var rest := args;
    var create := false;
    var k := 0;
    while k < |rest|
      invariant rest == args && k <= |rest|
      invariant LoopFrom(args, k, create) == Loop(args)
      decreases |rest| - k
    {
      var arg := rest[k];
      if arg == "--" {
        rest := rest[1..];
        return Finished(create, Some(StripPassiveAll(rest)));
      }
      if arg == "-M" {
        create := true;
      }
      if StartsWithDash(arg) {
        return BadOption(arg);
      }
      k := k + 1;
    }
    return Finished(create, None);
  }

  lemma {:induction false} LoopFromKeepsFlag(rest: seq<string>, k: nat, create: bool)
    requires k <= |rest|
    ensures LoopFrom(rest, k, create).Finished? ==> LoopFrom(rest, k, create).createMountPointIfNeeded == create
    decreases |rest| - k
  {
    if k < |rest| && rest[k] != "--" && !StartsWithDash(rest[k]) {
      assert rest[k] != "-M";
      LoopFromKeepsFlag(rest, k + 1, create);
    }
  }

  /** `-M` never survives the loop: whenever the loop finishes, the flag is unset. */
  lemma LoopNeverCreates(rest: seq<string>)
    ensures Loop(rest).Finished? ==> !Loop(rest).createMountPointIfNeeded
  {
    LoopFromKeepsFlag(rest, 0, false);
  }

  lemma {:induction false} LoopFromFirstDash(rest: seq<string>, i: nat, k: nat, create: bool)
    requires i <= k < |rest| && StartsWithDash(rest[k])
    requires forall j :: i <= j < k ==> !StartsWithDash(rest[j])
    ensures LoopFrom(rest, i, create)
         == if rest[k] == "--" then Finished(create, Some(StripPassiveAll(rest[1..]))) else BadOption(rest[k])
    decreases k - i
  {
    if i < k {
      assert !StartsWithDash(rest[i]);
      assert rest[i] != "--" && rest[i] != "-M";
      LoopFromFirstDash(rest, i + 1, k, create);
    }
  }

  lemma {:induction false} LoopFromNoDash(rest: seq<string>, i: nat, create: bool)
    requires i <= |rest|
    requires forall j :: i <= j < |rest| ==> !StartsWithDash(rest[j])
    ensures LoopFrom(rest, i, create) == Finished(create, None)
    decreases |rest| - i
  {
    if i < |rest| {
      assert !StartsWithDash(rest[i]);
      assert rest[i] != "--" && rest[i] != "-M";
      LoopFromNoDash(rest, i + 1, create);
    }
  }

  /**
   * The first argument that starts with `-` decides: `--` finishes the loop with
   * every argument but the first as sshfs options, passive option deleted; any
   * other, `-M` included, is a bad option.
   */
  lemma LoopStopsAtFirstDash(rest: seq<string>, k: nat)
    requires k < |rest| && StartsWithDash(rest[k])
    requires forall j :: 0 <= j < k ==> !StartsWithDash(rest[j])
    ensures Loop(rest)
         == if rest[k] == "--" then Finished(false, Some(StripPassiveAll(rest[1..]))) else BadOption(rest[k])
  {
    LoopFromFirstDash(rest, 0, k, false);
  }

  /** Without any argument starting with `-`, the loop finishes with no sshfs options. */
  lemma LoopWithoutOptions(rest: seq<string>)
    requires forall j :: 0 <= j < |rest| ==> !StartsWithDash(rest[j])
    ensures Loop(rest) == Finished(false, None)
  {
    LoopFromNoDash(rest, 0, false);
  }

  /** `--` right after the positionals: the sshfs options are exactly the arguments after it. */
  lemma DoubleDashFirst(opts: seq<string>)
    ensures Loop(["--"] + opts) == Finished(false, Some(StripPassiveAll(opts)))
  {
    assert (["--"] + opts)[0] == "--";
    assert (["--"] + opts)[1..] == opts;
  }

  /**
   * `--` right after the positionals, with no `-o passive` anywhere in what
   * follows: the options reach the script exactly as given.
   */
  lemma DoubleDashPlainOptions(opts: seq<string>)
    requires forall k, p :: 0 <= k < |opts| && 0 <= p < |opts[k]| ==> PassiveAt(opts[k][p..]).None?
    ensures Loop(["--"] + opts) == Finished(false, Some(opts))
  {
    DoubleDashFirst(opts);
    StripPassiveAllIdentity(opts);
  }

  /**
   * `--` after another argument: the shift removes that argument instead, so
   * the `--` itself becomes the first sshfs option.
   */
  lemma DoubleDashLater(arg: string, opts: seq<string>)
    requires !StartsWithDash(arg)
    ensures Loop([arg, "--"] + opts) == Finished(false, Some(StripPassiveAll(["--"] + opts)))
  {
    var rest := [arg, "--"] + opts;
    assert rest[1..] == ["--"] + opts;
    assert StartsWithDash(rest[1]);
    LoopStopsAtFirstDash(rest, 1);
  }

  // ---------------------------------------------------------------------------
  // The remote script
  // ---------------------------------------------------------------------------

  /** The command the trap runs on exit, as the shell passes it to `trap`. */
  function TrapAction(mountPoint: string): string {
    "rm -d '" + mountPoint + "'"
  }

  /** The `trap … EXIT` line, present only when removal on exit was asked for. */
  function TrapText(removeMountPointOnExit: bool, mountPoint: string): string {
    if removeMountPointOnExit then
      "trap" + " " + "rm" + "\\ " + "-d" + "\\ " + "\\'" + "'" + ReplaceQuotes(mountPoint) + "'" + "\\'"
      + " " + "EXIT"
    else ""
  }

  /** The text between `then` and `fi`. */
  function Block(create: bool, removeMountPointOnExit: bool, mountPoint: string): string {
    if create then
      "mkdir" + " " + "-p" + " " + "'" + ReplaceQuotes(mountPoint) + "'" + "\n"
      + ChmodIndent + "chmod" + " " + "a+rwx" + " " + "'" + ReplaceQuotes(mountPoint) + "'" + "\n"
      + BlockIndent + TrapText(removeMountPointOnExit, mountPoint) + "\n"
    else ":"
  }

  /** The script up to `fi` and the blank line after it. */
  function Head(create: bool, removeMountPointOnExit: bool, mountPoint: string): string {
    "\n"
    + Indent + "IFS" + "=" + "' \t\n'" + "\n"
    + "\n"
    + Indent + "if" + " " + "!" + " " + "[" + " " + "-e" + " " + "'" + ReplaceQuotes(mountPoint) + "'"
      + " " + "]" + ";" + " " + "then" + "\n"
    + BlockIndent + Block(create, removeMountPointOnExit, mountPoint) + "\n"
    + Indent + "fi" + "\n"
    + "\n"
  }

  /** `${sshfsOpts}`: an unset value prints as `undefined`, an array as its elements joined with commas. */
  function OptionsText(sshfsOpts: Option<seq<string>>): string {
    match sshfsOpts
    case None => "undefined"
    case Some(opts) => Join(opts, ",")
  }

  /**
   * The sshfs lines. They name the remote shell variables `$local_dir_to_share`
   * and `$remote_mnt_point`, which the script never sets, and end with the
   * options as text; the shell's expansions are outside this model, so these
   * lines are kept as text.
   */
  function Tail(sshfsOpts: Option<seq<string>>): string {
    Indent + "sshfs" + " " + "\\\n"
    + Continued + "\"$local_dir_to_share\"" + " " + "\\\n"
    + "\t    " + "\"$remote_mnt_point\"" + " " + "\\\n"
    + "\t    " + "-o" + " " + "passive" + " " + OptionsText(sshfsOpts) + "\n"
  }

  /** `remoteCmd` */
  function RemoteCommand(create: bool, removeMountPointOnExit: bool, mountPoint: string,
                         sshfsOpts: Option<seq<string>>): string {
    Head(create, removeMountPointOnExit, mountPoint) + Tail(sshfsOpts)
  }

  function ChmodAllCommand(mountPoint: string): seq<string> {
    ["chmod", "a+rwx", mountPoint]
  }

  function TrapCommand(mountPoint: string): seq<string> {
    ["trap", TrapAction(mountPoint), "EXIT"]
  }

  /** The commands of the block: create and open up the mount point, and maybe remove it on exit; or `:`. */
  function BlockCommands(create: bool, removeMountPointOnExit: bool, mountPoint: string): seq<seq<string>> {
    if create then
      [MkdirCommand(mountPoint), ChmodAllCommand(mountPoint)]
      + (if removeMountPointOnExit then [TrapCommand(mountPoint)] else [])
    else [[":"]]
  }

  function HeadCommands(create: bool, removeMountPointOnExit: bool, mountPoint: string): seq<seq<string>> {
    [["IFS= \t\n"]] + [TestCommand(mountPoint)] + [["then"]]
    + BlockCommands(create, removeMountPointOnExit, mountPoint) + [["fi"]]
  }

  // ---------------------------------------------------------------------------
  // Reading the head
  // ---------------------------------------------------------------------------

  /** A last word in the quotes the template writes, and the end of the line. */
  lemma ThenWrappedLast(lx: Lexer, p: string, words: seq<string>, cs: seq<seq<string>>, m: string)
    requires Run(lx, p) == Lexing(Unquoted, None, words, cs)
    ensures Run(lx, p + "'" + ReplaceQuotes(m) + "'" + "\n") == Lexing(Unquoted, None, [], cs + [words + [m]])
  {
    ThenWrapped(lx, p, Unquoted, None, words, cs, m);
    assert Current(None) + m == m;
    ThenNewline(lx, p + "'" + ReplaceQuotes(m) + "'", Unquoted, m, words, cs);
  }

  lemma LegacyTestLine(lx: Lexer, p: string, mountPoint: string, cs: seq<seq<string>>)
    requires Run(lx, p) == Lexing(Unquoted, None, [], cs)
    ensures Run(lx, p + Indent + "if" + " " + "!" + " " + "[" + " " + "-e" + " " + "'" + ReplaceQuotes(mountPoint) + "'"
                   + " " + "]" + ";" + " " + "then" + "\n")
         == Lexing(Unquoted, None, [], cs + [TestCommand(mountPoint)] + [["then"]])
  {
    var q := p + Indent + "if" + " " + "!" + " " + "[" + " " + "-e" + " ";
    var words := ["if", "!", "[", "-e"];
    TestWords(lx, p, cs);
    ThenWrapped(lx, q, Unquoted, None, words, cs, mountPoint);
    assert Current(None) + mountPoint == mountPoint;
    TestTail(lx, q + "'" + ReplaceQuotes(mountPoint) + "'", words, mountPoint, cs);
    assert words + [mountPoint] + ["]"] == TestCommand(mountPoint);
  }

  lemma MkdirLine(mountPoint: string, cs: seq<seq<string>>)
    ensures Run(Lexing(Unquoted, None, [], cs), "mkdir" + " " + "-p" + " " + "'" + ReplaceQuotes(mountPoint) + "'" + "\n")
         == Lexing(Unquoted, None, [], cs + [MkdirCommand(mountPoint)])
  {
    var lx := Lexing(Unquoted, None, [], cs);
    ThenTwoWords(lx, [], cs, "mkdir", "-p");
    assert [] + "mkdir" + " " + "-p" + " " == "mkdir" + " " + "-p" + " ";
    ThenWrappedLast(lx, "mkdir" + " " + "-p" + " ", ["mkdir", "-p"], cs, mountPoint);
    assert ["mkdir", "-p"] + [mountPoint] == MkdirCommand(mountPoint);
  }

  lemma ChmodAllLine(lx: Lexer, p: string, mountPoint: string, cs: seq<seq<string>>)
    requires Run(lx, p) == Lexing(Unquoted, None, [], cs)
    ensures Run(lx, p + ChmodIndent + "chmod" + " " + "a+rwx" + " " + "'" + ReplaceQuotes(mountPoint) + "'" + "\n")
         == Lexing(Unquoted, None, [], cs + [ChmodAllCommand(mountPoint)])
  {
    IndentBlank();
    ThenBlanks(lx, p, ChmodIndent, [], cs);
    ThenTwoWords(lx, p + ChmodIndent, cs, "chmod", "a+rwx");
    ThenWrappedLast(lx, p + ChmodIndent + "chmod" + " " + "a+rwx" + " ", ["chmod", "a+rwx"], cs, mountPoint);
    assert ["chmod", "a+rwx"] + [mountPoint] == ChmodAllCommand(mountPoint);
  }

  /** The escaped blanks and quotes make the whole `rm -d '…'` one word. */
  lemma TrapWord(lx: Lexer, p: string, mountPoint: string, command: seq<string>, cs: seq<seq<string>>)
    requires Run(lx, p) == Lexing(Unquoted, None, command, cs)
    ensures Run(lx, p + "rm" + "\\ " + "-d" + "\\ " + "\\'" + "'" + ReplaceQuotes(mountPoint) + "'" + "\\'")
         == Lexing(Unquoted, Some(TrapAction(mountPoint)), command, cs)
  {
    assert "\\ " == ['\\', ' '] && "\\'" == ['\\', '\''];
    ThenWord(lx, p, command, cs, "rm");
    ThenEscapedChar(lx, p + "rm", Unquoted, Some("rm"), command, cs, ' ');
    ThenPlain(lx, p + "rm" + "\\ ", Unquoted, Some("rm" + [' ']), command, cs, "-d");
    var w := "rm" + [' '] + "-d";
    ThenEscapedChar(lx, p + "rm" + "\\ " + "-d", Unquoted, Some(w), command, cs, ' ');
    ThenEscapedChar(lx, p + "rm" + "\\ " + "-d" + "\\ ", Unquoted, Some(w + [' ']), command, cs, '\'');
    var w' := w + [' '] + ['\''];
    ThenWrapped(lx, p + "rm" + "\\ " + "-d" + "\\ " + "\\'", Unquoted, Some(w'), command, cs, mountPoint);
    ThenEscapedChar(lx, p + "rm" + "\\ " + "-d" + "\\ " + "\\'" + "'" + ReplaceQuotes(mountPoint) + "'",
                    Unquoted, Some(w' + mountPoint), command, cs, '\'');
    assert w' == "rm -d '";
    assert w' + mountPoint + ['\''] == TrapAction(mountPoint);
  }

  lemma TrapTextRun(mountPoint: string, cs: seq<seq<string>>)
    ensures Run(Lexing(Unquoted, None, [], cs), TrapText(true, mountPoint))
         == Lexing(Unquoted, Some("EXIT"), ["trap", TrapAction(mountPoint)], cs)
  {
    var lx := Lexing(Unquoted, None, [], cs);
    RunWord(Unquoted, None, [], cs, "trap");
    assert Current(None) + "trap" == "trap";
    ThenBlank(lx, "trap", Unquoted, "trap", [], cs);
    TrapWord(lx, "trap" + " ", mountPoint, [] + ["trap"], cs);
    var q := "trap" + " " + "rm" + "\\ " + "-d" + "\\ " + "\\'" + "'" + ReplaceQuotes(mountPoint) + "'" + "\\'";
    ThenBlank(lx, q, Unquoted, TrapAction(mountPoint), [] + ["trap"], cs);
    ThenWord(lx, q + " ", [] + ["trap"] + [TrapAction(mountPoint)], cs, "EXIT");
    assert [] + ["trap"] + [TrapAction(mountPoint)] == ["trap", TrapAction(mountPoint)];
  }

  /** The line after `chmod`: the trap, or only blanks. */
  lemma TrapLine(lx: Lexer, p: string, remove: bool, mountPoint: string, cs: seq<seq<string>>)
    requires Run(lx, p) == Lexing(Unquoted, None, [], cs)
    ensures Run(lx, p + BlockIndent + TrapText(remove, mountPoint) + "\n")
         == Lexing(Unquoted, None, [], cs + (if remove then [TrapCommand(mountPoint)] else []))
  {
    IndentBlank();
    ThenBlanks(lx, p, BlockIndent, [], cs);
    if remove {
      var before := Lexing(Unquoted, None, [], cs);
      ThenText(lx, p + BlockIndent, TrapText(remove, mountPoint), before);
      TrapTextRun(mountPoint, cs);
      ThenNewline(lx, p + BlockIndent + TrapText(remove, mountPoint), Unquoted, "EXIT",
                  ["trap", TrapAction(mountPoint)], cs);
      assert ["trap", TrapAction(mountPoint)] + ["EXIT"] == TrapCommand(mountPoint);
    } else {
      assert p + BlockIndent + TrapText(remove, mountPoint) == p + BlockIndent;
      ThenEmptyLine(lx, p + BlockIndent, cs);
      assert cs + [] == cs;
    }
  }

  lemma CreateLines(mountPoint: string, remove: bool, cs: seq<seq<string>>)
    ensures Run(Lexing(Unquoted, None, [], cs), Block(true, remove, mountPoint))
         == Lexing(Unquoted, None, [], cs + BlockCommands(true, remove, mountPoint))
  {
    var l0 := Lexing(Unquoted, None, [], cs);
    var mkdir := "mkdir" + " " + "-p" + " " + "'" + ReplaceQuotes(mountPoint) + "'" + "\n";
    MkdirLine(mountPoint, cs);
    ChmodAllLine(l0, mkdir, mountPoint, cs + [MkdirCommand(mountPoint)]);
    var chmod := mkdir + ChmodIndent + "chmod" + " " + "a+rwx" + " " + "'" + ReplaceQuotes(mountPoint) + "'" + "\n";
    var c2 := cs + [MkdirCommand(mountPoint)] + [ChmodAllCommand(mountPoint)];
    TrapLine(l0, chmod, remove, mountPoint, c2);
    assert c2 + (if remove then [TrapCommand(mountPoint)] else []) == cs + BlockCommands(true, remove, mountPoint);
  }

  /** The block and the newline that ends its template line. */
  lemma BlockLines(lx: Lexer, p: string, create: bool, remove: bool, mountPoint: string, cs: seq<seq<string>>)
    requires Run(lx, p) == Lexing(Unquoted, None, [], cs)
    ensures Run(lx, p + BlockIndent + Block(create, remove, mountPoint) + "\n")
         == Lexing(Unquoted, None, [], cs + BlockCommands(create, remove, mountPoint))
  {
    var l0 := Lexing(Unquoted, None, [], cs);
    IndentBlank();
    ThenBlanks(lx, p, BlockIndent, [], cs);
    ThenText(lx, p + BlockIndent, Block(create, remove, mountPoint), l0);
    if create {
      CreateLines(mountPoint, remove, cs);
      ThenEmptyLine(lx, p + BlockIndent + Block(create, remove, mountPoint), cs + BlockCommands(create, remove, mountPoint));
    } else {
      assert Block(create, remove, mountPoint) == [':'];
      RunOne(l0, ':');
      assert Current(None) + [':'] == ":";
      ThenNewline(lx, p + BlockIndent + Block(create, remove, mountPoint), AfterSeparator, ":", [], cs);
      assert [] + [":"] == [":"];
    }
  }

  /**
   * A POSIX shell reads the head of the script as exactly these commands: the
   * mount point, quoted by the caller around the escaped text, arrives as one
   * word whatever it holds; the create block is there only when creation was
   * asked for, the trap only when removal was too, and `:` otherwise.
   */
  lemma HeadReadsAsCommands(create: bool, remove: bool, mountPoint: string)
    ensures Run(Start, Head(create, remove, mountPoint))
         == Lexing(Unquoted, None, [], HeadCommands(create, remove, mountPoint))
    ensures Lex(Head(create, remove, mountPoint)) == Some(HeadCommands(create, remove, mountPoint))
  {
    HeadRun(create, remove, mountPoint);
  }

  /** The state the shell is in at the end of the head. */
  lemma HeadRun(create: bool, remove: bool, mountPoint: string)
    ensures Run(Start, Head(create, remove, mountPoint))
         == Lexing(Unquoted, None, [], HeadCommands(create, remove, mountPoint))
  {
    LeadingNewline();
    var p0 := "\n";
    IfsLine(Start, p0, []);
    var p1 := p0 + Indent + "IFS" + "=" + "' \t\n'" + "\n";
    var c1 := [] + [["IFS= \t\n"]];
    ThenEmptyLine(Start, p1, c1);
    LegacyTestLine(Start, p1 + "\n", mountPoint, c1);
    var p2 := p1 + "\n"
      + Indent + "if" + " " + "!" + " " + "[" + " " + "-e" + " " + "'" + ReplaceQuotes(mountPoint) + "'"
      + " " + "]" + ";" + " " + "then" + "\n";
    var c2 := c1 + [TestCommand(mountPoint)] + [["then"]];
    BlockLines(Start, p2, create, remove, mountPoint, c2);
    var p3 := p2 + BlockIndent + Block(create, remove, mountPoint) + "\n";
    var c3 := c2 + BlockCommands(create, remove, mountPoint);
    FiLine(Start, p3, c3);
    ThenEmptyLine(Start, p3 + Indent + "fi" + "\n", c3 + [["fi"]]);
    assert c1 == [["IFS= \t\n"]];
  }

  /** The shell starts on the sshfs lines between commands, with the head's commands read. */
  lemma RemoteCommandHead(create: bool, remove: bool, mountPoint: string, sshfsOpts: Option<seq<string>>)
    ensures Run(Start, RemoteCommand(create, remove, mountPoint, sshfsOpts))
         == Run(Lexing(Unquoted, None, [], HeadCommands(create, remove, mountPoint)), Tail(sshfsOpts))
  {
    RunAppend(Start, Head(create, remove, mountPoint), Tail(sshfsOpts));
    HeadReadsAsCommands(create, remove, mountPoint);
  }

  lemma TrapActionText(mountPoint: string)
    requires '\'' !in mountPoint
    ensures TrapAction(mountPoint) == "rm" + " " + "-d" + " " + "'" + ReplaceQuotes(mountPoint) + "'"
  {
  }

  lemma TrapActionWords(mountPoint: string)
    ensures Run(Start, "rm" + " " + "-d" + " " + "'" + ReplaceQuotes(mountPoint) + "'")
         == Lexing(Unquoted, Some(mountPoint), ["rm", "-d"], [])
  {
    var lx := Start;
    RunWord(Unquoted, None, [], [], "rm");
    assert Current(None) + "rm" == "rm";
    ThenBlank(lx, "rm", Unquoted, "rm", [], []);
    ThenWord(lx, "rm" + " ", [] + ["rm"], [], "-d");
    ThenBlank(lx, "rm" + " " + "-d", Unquoted, "-d", [] + ["rm"], []);
    ThenWrapped(lx, "rm" + " " + "-d" + " ", Unquoted, None, [] + ["rm"] + ["-d"], [], mountPoint);
    assert Current(None) + mountPoint == mountPoint;
    assert [] + ["rm"] + ["-d"] == ["rm", "-d"];
  }

  /**
   * At exit the shell reads the trap's command again. Without a quote in the
   * mount point, that command is `rm -d` on the mount point.
   */
  lemma TrapActionReadsBack(mountPoint: string)
    requires '\'' !in mountPoint
    ensures Lex(TrapAction(mountPoint)) == Some([["rm", "-d", mountPoint]])
  {
    TrapActionText(mountPoint);
    TrapActionWords(mountPoint);
    assert Delimit(Some(mountPoint), ["rm", "-d"]) == ["rm", "-d", mountPoint];
    assert [] + [["rm", "-d", mountPoint]] == [["rm", "-d", mountPoint]];
  }

  /** The options text splits back at the commas into the options, when none holds a comma. */
  lemma OptionsTextSplits(opts: seq<string>)
    requires |opts| >= 1
    requires forall k :: 0 <= k < |opts| ==> ',' !in opts[k]
    ensures SplitOn(OptionsText(Some(opts)), ',') == opts
  {
    SplitOnOfJoin(opts, ',');
  }

  // ---------------------------------------------------------------------------
  // main
  // ---------------------------------------------------------------------------

  /** `SFTP_CMD` and `SSH_CMD`; `None` when unset. */
  datatype Environment = Environment(sftpCmd: Option<string>, sshCmd: Option<string>)

  /** The defaults the package manifest gives the two variables. */
  datatype Defaults = Defaults(sftpCmd: string, sshCmd: string)

  datatype Outcome =
    | UsageError(received: nat)
    | BadOptionGiven(option: string)
    | MountPointMissing
    | Launch(sftpCommand: seq<string>, sshProgram: string, sshArgs: seq<string>)

  /**
   * `main`. The destination is the first argument and the local path the
   * second, the other way round from the newer entry point; the local path is
   * not used by the script. The loop runs before the script is built, so a bad
   * option is reported before a missing mount point. Removal on exit is never
   * asked for: nothing sets it.
   */
  function Main(args: seq<string>, env: Environment, defaults: Defaults): Outcome {
    if |args| < 2 then UsageError(|args|)
    else
      var dest := SplitOn(args[0], ':');
      match Loop(args[2..])
      case BadOption(option) => BadOptionGiven(option)
      case Finished(create, sshfsOpts) =>
        if |dest| < 2 then MountPointMissing
        else
          var ssh := DeployfsMain.CommandFromEnv(env.sshCmd, defaults.sshCmd);
          var script := RemoteCommand(create, false, dest[1], sshfsOpts);
          Launch(DeployfsMain.CommandFromEnv(env.sftpCmd, defaults.sftpCmd), ssh[0], ssh[1..] + [script])
  }

  /**
   * The exit status of each way `main` ends. A destination without `:` makes
   * quoting the undefined mount point throw, and the launch reaches
   * `execaCommand`, which is not imported, so neither ends in success.
   */
  function ExitStatus(o: Outcome): (r: int)
    ensures o.UsageError? ==> r == EX_USAGE
    ensures o.BadOptionGiven? ==> r == BadOptionStatus
    ensures o.MountPointMissing? || o.Launch? ==> r == DeployfsMain.UncaughtErrorStatus
    ensures r != 0
  {
    match o
    case UsageError(_) => EX_USAGE
    case BadOptionGiven(_) => BadOptionStatus
    case MountPointMissing => DeployfsMain.UncaughtErrorStatus
    case Launch(_, _, _) => DeployfsMain.UncaughtErrorStatus
  }

  /** Fewer than two arguments, and only then: a usage error that reports how many there were. */
  lemma MainTooFew(args: seq<string>, env: Environment, defaults: Defaults)
    ensures Main(args, env, defaults).UsageError? <==> |args| < 2
    ensures Main(args, env, defaults).UsageError? ==> Main(args, env, defaults).received == |args|
  {
  }

  /**
   * The only way to the launch: two arguments at least, a loop that finishes,
   * and a destination with a `:`. The script then never holds the create block
   * or the trap, and its head reads as the test on the mount point and `:`.
   */
  lemma MainLaunch(args: seq<string>, env: Environment, defaults: Defaults)
    ensures Main(args, env, defaults).Launch? <==>
              |args| >= 2 && Loop(args[2..]).Finished? && |SplitOn(args[0], ':')| >= 2
    ensures Main(args, env, defaults).Launch? ==>
              var o := Main(args, env, defaults);
              var ssh := DeployfsMain.CommandFromEnv(env.sshCmd, defaults.sshCmd);
              var mountPoint := SplitOn(args[0], ':')[1];
              && o.sshProgram == ssh[0]
              && o.sshArgs[..|o.sshArgs| - 1] == ssh[1..]
              && o.sshArgs[|o.sshArgs| - 1] == RemoteCommand(false, false, mountPoint, Loop(args[2..]).sshfsOpts)
              && Lex(Head(false, false, mountPoint)) == Some(HeadCommands(false, false, mountPoint))
              && HeadCommands(false, false, mountPoint)
                 == [["IFS= \t\n"], TestCommand(mountPoint), ["then"], [":"], ["fi"]]
  {
    if Main(args, env, defaults).Launch? {
      var o := Main(args, env, defaults);
      var ssh := DeployfsMain.CommandFromEnv(env.sshCmd, defaults.sshCmd);
      var mountPoint := SplitOn(args[0], ':')[1];
      LoopNeverCreates(args[2..]);
      var script := RemoteCommand(false, false, mountPoint, Loop(args[2..]).sshfsOpts);
      assert o.sshArgs == ssh[1..] + [script];
      assert o.sshArgs[..|o.sshArgs| - 1] == ssh[1..];
      HeadReadsAsCommands(false, false, mountPoint);
    }
  }

  predicate EndsWith(s: string, suffix: string) {
    |suffix| <= |s| && s[|s| - |suffix|..] == suffix
  }

  lemma EndsWithAppend(a: string, b: string, suffix: string)
    requires EndsWith(b, suffix)
    ensures EndsWith(a + b, suffix)
  {
    assert (a + b)[|a + b| - |suffix|..] == b[|b| - |suffix|..];
  }

  /** The script ends with the passive option and the options as text. */
  lemma TailEndsWithOptions(sshfsOpts: Option<seq<string>>)
    ensures EndsWith(Tail(sshfsOpts), "-o" + " " + "passive" + " " + OptionsText(sshfsOpts) + "\n")
  {
    var suffix := "-o" + " " + "passive" + " " + OptionsText(sshfsOpts) + "\n";
    var front := Indent + "sshfs" + " " + "\\\n"
                 + Continued + "\"$local_dir_to_share\"" + " " + "\\\n"
                 + "\t    " + "\"$remote_mnt_point\"" + " " + "\\\n"
                 + "\t    ";
    assert Tail(sshfsOpts) == front + suffix;
    assert (front + suffix)[|front|..] == suffix;
  }

  /**
   * Without a `--` the sshfs options are never assigned, and the script that
   * is sent ends with the word `undefined` where the options belong.
   */
  lemma UndefinedOptions(args: seq<string>, env: Environment, defaults: Defaults)
    requires |args| >= 2 && |SplitOn(args[0], ':')| >= 2
    requires forall j :: 2 <= j < |args| ==> !StartsWithDash(args[j])
    ensures Main(args, env, defaults).Launch?
    ensures var sshArgs := Main(args, env, defaults).sshArgs;
      |sshArgs| >= 1
      && EndsWith(sshArgs[|sshArgs| - 1], "-o" + " " + "passive" + " " + "undefined" + "\n")
  {
    var rest := args[2..];
    forall j | 0 <= j < |rest| ensures !StartsWithDash(rest[j]) {
      assert rest[j] == args[j + 2];
    }
    LoopWithoutOptions(rest);
    var mountPoint := SplitOn(args[0], ':')[1];
    var ssh := DeployfsMain.CommandFromEnv(env.sshCmd, defaults.sshCmd);
    var script := RemoteCommand(false, false, mountPoint, None);
    assert Main(args, env, defaults).sshArgs == ssh[1..] + [script];
    TailEndsWithOptions(None);
    EndsWithAppend(Head(false, false, mountPoint), Tail(None), "-o" + " " + "passive" + " " + "undefined" + "\n");
  }

  /** `-M` after the positionals ends `main` with status 2, as a bad option. */
  lemma CreateFlagRejected(dest: string, localSharedPath: string, env: Environment, defaults: Defaults)
    ensures Main([dest, localSharedPath, "-M"], env, defaults) == BadOptionGiven("-M")
    ensures ExitStatus(Main([dest, localSharedPath, "-M"], env, defaults)) == BadOptionStatus
  {
    var args := [dest, localSharedPath, "-M"];
    assert args[2..] == ["-M"];
    assert StartsWithDash("-M");
    LoopStopsAtFirstDash(["-M"], 0);
  }
}
