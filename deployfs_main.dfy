/**
 * `main` of the `deployfs` command-line tool (`bin/deployfs.mjs`), up to the
 * point where it starts its two processes: the commands taken from the
 * environment, the option scan, the count of positional arguments, the
 * destination split, and the ssh command line that carries the remote script.
 *
 * The environment variables are inputs. What `main` would do next, spawn the
 * sftp server and ssh with their standard streams cross-wired, is not part of
 * this model; `Prepared` is the plan it would carry out.
 */
module DeployfsMain {
  import opened Wrappers
  import opened JsStrings
  import opened PosixShell
  import opened DeployfsArgs
  import opened DeployfsScript

  /** The variables that override the commands; `None` when unset. */
  datatype Environment = Environment(sftpCmd: Option<string>, sshCmd: Option<string>, sshfsCmd: Option<string>)

  const Unset: Environment := Environment(None, None, None)

  const DefaultSftpCommand: string := "/usr/libexec/sftp-server"
  const DefaultSshCommand: string := "ssh"
  const DefaultSshfsCommand: string := "sshfs"

  /** `splitOnSpaces(value || fallback)`: an unset or empty variable gives the fallback. */
  function CommandFromEnv(value: Option<string>, fallback: string): seq<string> {
    SplitOnSpaces(if value.Some? && value.value != "" then value.value else fallback)
  }

  /**
   * `splitOnSpaces(value?.replace(/-o\s*passive/g, "") || "sshfs")`: the
   * passive option is deleted from the variable, and the default is used when
   * nothing is left.
   */
  function SshfsCommand(value: Option<string>): seq<string> {
    var stripped := if value.Some? then StripPassive(value.value) else "";
    SplitOnSpaces(if stripped != "" then stripped else DefaultSshfsCommand)
  }

  /** How `main` ends before spawning anything, or the invocation it prepares for the spawn. */
  datatype Outcome =
    | HelpShown(exitCode: int)
    | UnrecognizedOption(option: string)
    | WrongArgCount(received: nat)
    | MountPointMissing
    | Prepared(sftpCommand: seq<string>, sshProgram: string, sshArgs: seq<string>)

  /**
   * `main`. The two positional arguments are taken from the front of the
   * argument list, whatever the scan consumed; the count error reports the
   * length of the whole list. A destination without `:` leaves the mount point
   * undefined, and quoting it throws. The ssh destination is split off but not
   * passed to ssh: the remote host comes from `SSH_CMD` alone.
   */
  function Main(args: seq<string>, env: Environment): Outcome {
    match Scan(args)
    case Help(code) => HelpShown(code)
    case Unrecognized(option) => UnrecognizedOption(option)
    case Scanned(opt, i) =>
      if |args| - i != 2 then WrongArgCount(|args|)
      else
        var localSharedPath := args[0];
        var dest := SplitOn(args[1], ':');
        if |dest| < 2 then MountPointMissing
        else
          var ssh := CommandFromEnv(env.sshCmd, DefaultSshCommand);
          var script := RemoteScript(opt.createMountPointIfNeeded, dest[1], localSharedPath,
                                     SshfsCommand(env.sshfsCmd));
          Prepared(CommandFromEnv(env.sftpCmd, DefaultSftpCommand), ssh[0], ssh[1..] + [script])
  }

  /**
   * The status Node (since version 15) gives a process whose promise rejects
   * with no handler. `main` runs inside an async arrow function whose promise
   * nothing handles, so an exception thrown in `main` ends the process so.
   */
  const UncaughtErrorStatus: int := 1

  /**
   * The exit status of each way `main` ends: the sysexits(3) codes where it
   * exits itself, and an uncaught exception otherwise. Quoting the undefined
   * mount point throws a TypeError, and a prepared invocation reaches
   * `execaCommand`, which neither entry point imports, and throws a
   * ReferenceError. Only the help that was asked for succeeds.
   */
  function ExitStatus(o: Outcome): (r: int)
    ensures o.HelpShown? ==> r == o.exitCode
    ensures o.UnrecognizedOption? || o.WrongArgCount? ==> r == EX_USAGE
    ensures o.MountPointMissing? || o.Prepared? ==> r == UncaughtErrorStatus
    ensures r == EX_OK <==> o == HelpShown(EX_OK)
  {
    match o
    case HelpShown(code) => code
    case UnrecognizedOption(_) => EX_USAGE
    case WrongArgCount(_) => EX_USAGE
    case MountPointMissing => UncaughtErrorStatus
    case Prepared(_, _, _) => UncaughtErrorStatus
  }

  // ---------------------------------------------------------------------------
  // The commands from the environment
  // ---------------------------------------------------------------------------

  /** Unset or empty, a variable gives its fallback, as one word when it has no blank. */
  lemma FallbackCommand(value: Option<string>, fallback: string)
    requires value.None? || value.value == ""
    requires forall i :: 0 <= i < |fallback| ==> !IsSpace(fallback[i])
    ensures CommandFromEnv(value, fallback) == [fallback]
  {
    SplitOnSpacesNoSpace(fallback);
  }

  /** A variable holding only the passive option is as good as unset. */
  lemma PassiveOnlySshfs()
    ensures SshfsCommand(Some("-o passive")) == [DefaultSshfsCommand]
  {
    assert "-o passive" == "-o" + " " + "passive" + "";
    StripPassiveRemovesMatch(" ", "");
    SplitOnSpacesNoSpace(DefaultSshfsCommand);
  }

  /** The passive option is deleted with the blanks after `-o`, and the rest kept. */
  lemma SshfsWithoutPassive(spaces: string, rest: string)
    requires forall i :: 0 <= i < |spaces| ==> IsSpace(spaces[i])
    requires StripPassive(rest) != ""
    ensures SshfsCommand(Some("-o" + spaces + "passive" + rest)) == SplitOnSpaces(StripPassive(rest))
  {
    StripPassiveRemovesMatch(spaces, rest);
  }

  /** An `-o` whose blanks are followed by `-` starts no match. */
  lemma OuterNoMatch(sp: string, x: string)
    requires forall i :: 0 <= i < |sp| ==> IsSpace(sp[i])
    requires x != [] && x[0] == '-'
    ensures PassiveAt("-o" + sp + x).None?
  {
    var s := "-o" + sp + x;
    assert s[2..] == sp + x;
    LeadingSpacesPrefix(sp, x);
    var n := 2 + |sp|;
    if n + 7 <= |s| {
      assert s[n..n + 7][0] == s[n] == x[0];
    }
  }

  /** `-o` and blanks before a further `-`: kept, and the deletion goes on behind them. */
  lemma SpacesHaveNoDash(sp: string)
    requires forall i :: 0 <= i < |sp| ==> IsSpace(sp[i])
    ensures forall i :: 0 <= i < |sp| ==> sp[i] != '-'
  {
  }

  lemma TwoInFront(c1: char, c2: char, a: string, b: string)
    ensures [c1] + ([c2] + (a + b)) == [c1, c2] + a + b
  {
  }

  lemma OuterKept(sp: string, x: string)
    requires forall i :: 0 <= i < |sp| ==> IsSpace(sp[i])
    requires x != [] && x[0] == '-'
    ensures StripPassive("-o" + sp + x) == "-o" + sp + StripPassive(x)
  {
    TwoInFront('-', 'o', sp, x);
    OuterNoMatch(sp, x);
    StripPassiveKeep('-', ['o'] + (sp + x));
    StripPassiveKeep('o', sp + x);
    SpacesHaveNoDash(sp);
    StripPassiveNoDash(sp, x);
    TwoInFront('-', 'o', sp, StripPassive(x));
  }



  /**
   * `-o`, blanks, then a whole match: the inner match is deleted and the outer
   * `-o` stays, to be followed by whatever came after the match.
   */
  lemma NestedPassive(sp1: string, sp2: string, rest: string)
    requires forall i :: 0 <= i < |sp1| ==> IsSpace(sp1[i])
    requires forall i :: 0 <= i < |sp2| ==> IsSpace(sp2[i])
    ensures StripPassive("-o" + sp1 + ("-o" + sp2 + "passive" + rest)) == "-o" + sp1 + StripPassive(rest)
  {
    OuterKept(sp1, "-o" + sp2 + "passive" + rest);
    StripPassiveRemovesMatch(sp2, rest);
  }

  lemma PassiveWordKept(p: string)
    requires p == "passive"
    ensures StripPassive(p) == p
  {
    StripPassiveNoDash(p, []);
    assert p + [] == p;
  }

  lemma Associate(a: string, b: string, c: string)
    ensures a + b + c == a + (b + c)
  {
  }

  lemma SpacesKept(sp: string, x: string)
    requires forall i :: 0 <= i < |sp| ==> IsSpace(sp[i])
    ensures StripPassive(sp + x) == sp + StripPassive(x)
  {
    SpacesHaveNoDash(sp);
    StripPassiveNoDash(sp, x);
  }

  /** Text without a dash before the match is kept as it is. */
  lemma NoDashInFront(program: string, sp: string, x: string)
    requires forall i :: 0 <= i < |program| ==> program[i] != '-'
    requires forall i :: 0 <= i < |sp| ==> IsSpace(sp[i])
    ensures StripPassive(program + sp + x) == program + sp + StripPassive(x)
  {
    Associate(program, sp, x);
    StripPassiveNoDash(program, sp + x);
    SpacesKept(sp, x);
    Associate(program, sp, StripPassive(x));
  }

  /** A dash-free program name, then a passive option whose value holds another one. */
  lemma NestedPassiveStripped(program: string, sp: string, rest: string)
    requires forall i :: 0 <= i < |program| ==> program[i] != '-'
    requires forall i :: 0 <= i < |sp| ==> IsSpace(sp[i])
    ensures StripPassive(program + sp + ("-o" + sp + ("-o" + sp + "passive" + rest)))
         == program + sp + ("-o" + sp + StripPassive(rest))
  {
    NoDashInFront(program, sp, "-o" + sp + ("-o" + sp + "passive" + rest));
    NestedPassive(sp, sp, rest);
  }

  lemma SshfsWords(program: string)
    requires forall i :: 0 <= i < |program| ==> !IsSpace(program[i])
    requires !EndsWithBackslash(program)
    ensures SplitOnSpaces(program + " " + ("-o" + " " + "passive")) == [program, "-o", "passive"]
  {
    var a := [program, "-o", "passive"];
    assert a[1..] == ["-o", "passive"] && a[1..][1..] == ["passive"];
    assert Join(a[1..][1..], " ") == "passive";
    assert Join(a[1..], " ") == "-o" + " " + "passive";
    assert Join(a, " ") == program + " " + ("-o" + " " + "passive");
    forall k, i | 0 <= k < |a| && 0 <= i < |a[k]| ensures !IsSpace(a[k][i]) {
    }
    SplitOnSpacesPlain(a);
  }

  /**
   * The deletion is a single left-to-right pass, so it does not keep the
   * passive option out of `SSHFS_CMD`: in `sshfs -o -o passivepassive` the
   * inner match is deleted and an outer one is left behind, and sshfs is then
   * given `-o passive` twice.
   */
  lemma PassiveCanRemain(program: string, mountPoint: string, localSharedPath: string)
    requires forall i :: 0 <= i < |program| ==> !IsSpace(program[i]) && program[i] != '-'
    requires !EndsWithBackslash(program)
    ensures SshfsCommand(Some(program + " " + ("-o" + " " + ("-o" + " " + "passive" + "passive"))))
         == [program, "-o", "passive"]
    ensures SshfsInvocation(mountPoint, localSharedPath,
                            SshfsCommand(Some(program + " " + ("-o" + " " + ("-o" + " " + "passive" + "passive")))))
         == [program, ":" + localSharedPath, mountPoint, "-o", "passive", "-o", "passive"]
  {
    NestedPassiveStripped(program, " ", "passive");
    PassiveWordKept("passive");
    SshfsWords(program);
  }



  // ---------------------------------------------------------------------------
  // The outcomes of main
  // ---------------------------------------------------------------------------

  /** No argument at all: the help text, with the usage exit status. */
  lemma MainEmpty(env: Environment)
    ensures Main([], env) == HelpShown(EX_USAGE)
  {
  }

  /**
   * When the scan succeeds, exactly two arguments must follow the scanned
   * ones, and the error names the total number of arguments.
   */
  lemma MainCount(args: seq<string>, env: Environment)
    requires Scan(args).Scanned?
    ensures Main(args, env).WrongArgCount? <==> |args| != Scan(args).next + 2
    ensures Main(args, env).WrongArgCount? ==> Main(args, env).received == |args|
  {
  }

  /**
   * The only way to reach the spawning stage: a clean scan, two arguments left,
   * and a destination with a `:`. The ssh command line then ends with the
   * remote script, built from the first argument as the local path and the part
   * of the second after its first `:` as the mount point, and a POSIX shell
   * reads that script as exactly the commands of `ScriptCommands`.
   */
  lemma MainPrepared(args: seq<string>, env: Environment)
    ensures Main(args, env).Prepared? <==>
              Scan(args).Scanned? && |args| == Scan(args).next + 2 && |SplitOn(args[1], ':')| >= 2
    ensures Main(args, env).Prepared? ==>
              var o := Main(args, env);
              var ssh := CommandFromEnv(env.sshCmd, DefaultSshCommand);
              var create := Scan(args).opt.createMountPointIfNeeded;
              var mountPoint := SplitOn(args[1], ':')[1];
              var sshfs := SshfsCommand(env.sshfsCmd);
              && o.sshProgram == ssh[0]
              && o.sshArgs[..|o.sshArgs| - 1] == ssh[1..]
              && Lex(o.sshArgs[|o.sshArgs| - 1]) == Some(ScriptCommands(create, mountPoint, args[0], sshfs))
  {
    if Main(args, env).Prepared? {
      var o := Main(args, env);
      var ssh := CommandFromEnv(env.sshCmd, DefaultSshCommand);
      var create := Scan(args).opt.createMountPointIfNeeded;
      var mountPoint := SplitOn(args[1], ':')[1];
      var sshfs := SshfsCommand(env.sshfsCmd);
      var script := RemoteScript(create, mountPoint, args[0], sshfs);
      assert o.sshArgs == ssh[1..] + [script];
      assert o.sshArgs[..|o.sshArgs| - 1] == ssh[1..];
      RemoteScriptCommands(create, mountPoint, args[0], sshfs);
    }
  }

  /**
   * The plain invocation `deployfs dir host:path` with `SSH_CMD` and
   * `SSHFS_CMD` unset: ssh is started with the script as its only argument, so
   * the host named on the command line is not used.
   */
  lemma DestinationNotPassed(localSharedPath: string, host: string, mountPoint: string, env: Environment)
    requires localSharedPath == "" || localSharedPath[0] != '-'
    requires ':' !in host && ':' !in mountPoint
    requires env.sshCmd.None? && env.sshfsCmd.None?
    ensures Main([localSharedPath, host + ":" + mountPoint], env)
         == Prepared(CommandFromEnv(env.sftpCmd, DefaultSftpCommand), DefaultSshCommand,
                     [RemoteScript(false, mountPoint, localSharedPath, SshfsCommand(env.sshfsCmd))])
    ensures SshfsCommand(env.sshfsCmd) == [DefaultSshfsCommand]
  {
    var args := [localSharedPath, host + ":" + mountPoint];
    PositionalScan(localSharedPath, host + ":" + mountPoint);
    HostAndPath(host, mountPoint);
    DefaultSsh();
    PreparedPlan(args, env, false, mountPoint);
    OnlyArgument(CommandFromEnv(env.sshCmd, DefaultSshCommand),
                 RemoteScript(false, mountPoint, localSharedPath, SshfsCommand(env.sshfsCmd)));
  }

  lemma PositionalScan(localSharedPath: string, dest: string)
    requires localSharedPath == "" || localSharedPath[0] != '-'
    ensures Scan([localSharedPath, dest]) == Scanned(NoOptions, 0)
  {
  }

  lemma HostAndPath(host: string, mountPoint: string)
    requires ':' !in host && ':' !in mountPoint
    ensures SplitOn(host + ":" + mountPoint, ':') == [host, mountPoint]
  {
    assert host + ":" + mountPoint == host + [':'] + mountPoint;
    SplitOnFirst(host, ':', mountPoint);
    SplitOnNoSeparator(mountPoint, ':');
  }

  /** The plan `main` prepares, piece by piece, for a scan and a split already known. */
  lemma PreparedPlan(args: seq<string>, env: Environment, create: bool, mountPoint: string)
    requires |args| >= 2 && Scan(args) == Scanned(Options(create), |args| - 2)
    requires |SplitOn(args[1], ':')| >= 2 && SplitOn(args[1], ':')[1] == mountPoint
    ensures Main(args, env)
         == Prepared(CommandFromEnv(env.sftpCmd, DefaultSftpCommand),
                     CommandFromEnv(env.sshCmd, DefaultSshCommand)[0],
                     CommandFromEnv(env.sshCmd, DefaultSshCommand)[1..]
                       + [RemoteScript(create, mountPoint, args[0], SshfsCommand(env.sshfsCmd))])
  {
  }

  /** A one-word ssh command leaves the script as the only argument. */
  lemma OnlyArgument(ssh: seq<string>, script: string)
    requires |ssh| == 1
    ensures ssh[1..] + [script] == [script]
  {
  }

  lemma DefaultSsh()
    ensures CommandFromEnv(None, DefaultSshCommand) == [DefaultSshCommand]
    ensures SshfsCommand(None) == [DefaultSshfsCommand]
  {
    SplitOnSpacesNoSpace(DefaultSshCommand);
    SplitOnSpacesNoSpace(DefaultSshfsCommand);
  }

  /** Only the part of the destination between its first and second `:` is the mount point. */
  lemma MountPointStopsAtColon(localSharedPath: string, host: string, mountPoint: string, rest: string,
                               env: Environment)
    requires localSharedPath == "" || localSharedPath[0] != '-'
    requires ':' !in host && ':' !in mountPoint
    ensures Main([localSharedPath, host + ":" + mountPoint + ":" + rest], env).Prepared?
    ensures Lex(Main([localSharedPath, host + ":" + mountPoint + ":" + rest], env).sshArgs[
                  |Main([localSharedPath, host + ":" + mountPoint + ":" + rest], env).sshArgs| - 1])
         == Some(ScriptCommands(false, mountPoint, localSharedPath, SshfsCommand(env.sshfsCmd)))
  {
    var args := [localSharedPath, host + ":" + mountPoint + ":" + rest];
    PositionalScan(localSharedPath, host + ":" + mountPoint + ":" + rest);
    assert host + ":" + mountPoint + ":" + rest == host + [':'] + (mountPoint + [':'] + rest);
    SplitOnFirst(host, ':', mountPoint + [':'] + rest);
    SplitOnFirst(mountPoint, ':', rest);
    MainPrepared(args, env);
  }

  /**
   * `-M` before the two positional arguments: the count check passes, but the
   * positionals are read from the front, so `-M` becomes the local path and the
   * local path the destination. Without a `:` in it there is no mount point.
   */
  lemma CreateFlagShiftsPositionals(localSharedPath: string, dest: string, env: Environment)
    requires localSharedPath == "" || localSharedPath[0] != '-'
    requires ':' !in localSharedPath
    ensures Main(["-M", localSharedPath, dest], env) == MountPointMissing
  {
    var args := ["-M", localSharedPath, dest];
    CreateBundle();
    assert ScanFrom(args, 1, Options(true)) == Scanned(Options(true), 1);
    assert Scan(args) == Scanned(Options(true), 1);
    SplitOnNoSeparator(localSharedPath, ':');
  }

  lemma CreateBundle()
    ensures IsShortBundle("-M")
    ensures ApplyBundle("-M", 1, NoOptions) == Applied(Options(true))
  {
  }

  /** One positional argument after `-M`: the error reports two arguments received. */
  lemma CountReportsAllArguments(dest: string, env: Environment)
    requires dest == "" || dest[0] != '-'
    ensures Main(["-M", dest], env) == WrongArgCount(2)
  {
    var args := ["-M", dest];
    CreateBundle();
    assert ScanFrom(args, 1, Options(true)) == Scanned(Options(true), 1);
    assert Scan(args) == Scanned(Options(true), 1);
  }
}
