/**
 * The option scanner of the `deployfs` command-line tool (`bin/deployfs.mjs`):
 * the loop at the top of `main`, the never-reached collector for the `--*-opts`
 * options, and `snakeToCamelCase`.
 *
 * The scanner is modelled as written. The test guarding the long-option branch
 * is a regular-expression literal, which is always truthy, so every argument
 * that is not `--` and not a short bundle goes there. The patterns for
 * `--sftp-cmd` and the `--*-opts` options begin with `^(?<=--)`, a look-behind
 * at the start of the string, which can never match; those options therefore
 * end up as unrecognized options like any other `-`-prefixed argument.
 */
module DeployfsArgs {
  /** sysexits(3) exit codes. */
  const EX_OK: int := 0
  const EX_USAGE: int := 64

  /** The options the scanner can set. */
  datatype Options = Options(createMountPointIfNeeded: bool)

  const NoOptions: Options := Options(false)

  /** Where scanning ends: the help text and its exit code, an unrecognized option, or the index of the first positional argument. */
  datatype ScanOutcome =
    | Help(exitCode: int)
    | Unrecognized(option: string)
    | Scanned(opt: Options, next: nat)

  /** What a bundle of short options does: update the options, or end the program. */
  datatype BundleOutcome = Applied(opt: Options) | Exit(outcome: ScanOutcome)

  predicate IsAsciiAlphanumeric(c: char) {
    'a' <= c <= 'z' || 'A' <= c <= 'Z' || '0' <= c <= '9'
  }

  /** `/^-[a-zA-Z0-9]/.test(arg)` */
  predicate IsShortBundle(arg: string) {
    |arg| >= 2 && arg[0] == '-' && IsAsciiAlphanumeric(arg[1])
  }

  /** `/^-/.test(arg)` */
  predicate StartsWithDash(arg: string) {
    |arg| >= 1 && arg[0] == '-'
  }

  /** The letters of a bundle from index `j` on, applied left to right. */
  function ApplyBundle(arg: string, j: nat, opt: Options): (r: BundleOutcome)
    ensures r.Exit? ==> r.outcome.Help? || r.outcome.Unrecognized?
    decreases |arg| - j
  {
    if j >= |arg| then Applied(opt)
    else if arg[j] == 'M' then ApplyBundle(arg, j + 1, opt.(createMountPointIfNeeded := true))
    else if arg[j] == 'h' then Exit(Help(EX_OK))
    else Exit(Unrecognized([arg[j]]))
  }

  /** The scanning loop from index `i` on, with the options gathered so far. */
  function ScanFrom(args: seq<string>, i: nat, opt: Options): ScanOutcome
    requires i <= |args|
    decreases |args| - i
  {
    if i == |args| then Scanned(opt, i)
    else if args[i] == "--" then Scanned(opt, i + 1)
    else if IsShortBundle(args[i]) then
      match ApplyBundle(args[i], 1, opt)
      case Applied(next) => ScanFrom(args, i + 1, next)
      case Exit(outcome) => outcome
    else if args[i] == "--help" then Help(EX_OK)
    else if StartsWithDash(args[i]) then Unrecognized(args[i])
    else Scanned(opt, i)
  }

  /** The whole scan, including the help shown for an empty command line. */
  function Scan(args: seq<string>): ScanOutcome {
    if args == [] then Help(EX_USAGE) else ScanFrom(args, 0, NoOptions)
  }

  /** The loop of `main`, with its index `i` and the option bag `opt` updated in place. */
  method ScanArgs(args: seq<string>) returns (outcome: ScanOutcome)
    ensures outcome == Scan(args)
  {
    if |args| == 0 {
      return Help(EX_USAGE);
    }
    var opt := NoOptions;
    var i := 0;
    while i < |args|
      invariant i <= |args|
      invariant ScanFrom(args, i, opt) == Scan(args)
      decreases |args| - i
    {
      var arg := args[i];
      if arg == "--" {
        i := i + 1;
        break;
      } else if IsShortBundle(arg) {
        var j := 1;
        var bundleOpt := opt;
        while j < |arg|
          invariant 1 <= j <= |arg|
          invariant ApplyBundle(arg, j, bundleOpt) == ApplyBundle(arg, 1, opt)
          decreases |arg| - j
        {
          var o := arg[j];
          if o == 'M' {
            bundleOpt := bundleOpt.(createMountPointIfNeeded := true);
          } else if o == 'h' {
            return Help(EX_OK);
          } else {
            return Unrecognized([o]);
          }
          j := j + 1;
        }
        opt := bundleOpt;
      } else {
        if arg == "--help" {
          return Help(EX_OK);
        } else if StartsWithDash(arg) {
          return Unrecognized(arg);
        } else {
          break;
        }
      }
      i := i + 1;
    }
    return Scanned(opt, i);
  }

  // ---------------------------------------------------------------------------
  // What the scan does
  // ---------------------------------------------------------------------------

  /** A bundle made only of `M` letters. */
  predicate IsCreateBundle(arg: string) {
    IsShortBundle(arg) && forall j :: 1 <= j < |arg| ==> arg[j] == 'M'
  }

  /** A bundle whose letters from `j` on are all `M` sets the flag, if there is any such letter. */
  lemma {:induction false} ApplyBundleAllCreate(arg: string, j: nat, opt: Options)
    requires forall k :: j <= k < |arg| ==> arg[k] == 'M'
    ensures ApplyBundle(arg, j, opt)
         == Applied(opt.(createMountPointIfNeeded := opt.createMountPointIfNeeded || j < |arg|))
    decreases |arg| - j
  {
    if j < |arg| {
      ApplyBundleAllCreate(arg, j + 1, opt.(createMountPointIfNeeded := true));
    }
  }

  /**
   * The letters of a bundle take effect left to right: the first letter other
   * than `M` ends the program, with the help text and exit status 0 for `h`
   * and as an unrecognized option otherwise.
   */
  lemma {:induction false} ApplyBundleFirstOther(arg: string, j: nat, k: nat, opt: Options)
    requires j <= k < |arg| && arg[k] != 'M'
    requires forall l :: j <= l < k ==> arg[l] == 'M'
    ensures ApplyBundle(arg, j, opt) == Exit(if arg[k] == 'h' then Help(EX_OK) else Unrecognized([arg[k]]))
    decreases k - j
  {
    if j < k {
      ApplyBundleFirstOther(arg, j + 1, k, opt.(createMountPointIfNeeded := true));
    }
  }

  /** An empty command line shows the help text and exits with status 64. */
  lemma ScanEmpty()
    ensures Scan([]) == Help(EX_USAGE)
  {
  }

  /** `--` is consumed and ends the scan. */
  lemma ScanDoubleDash(args: seq<string>, i: nat, opt: Options)
    requires i < |args| && args[i] == "--"
    ensures ScanFrom(args, i, opt) == Scanned(opt, i + 1)
  {
  }

  /** The first argument that does not start with `-` ends the scan and is not consumed. */
  lemma ScanStopsAtPositional(args: seq<string>, i: nat, opt: Options)
    requires i < |args| && !StartsWithDash(args[i])
    ensures ScanFrom(args, i, opt) == Scanned(opt, i)
  {
  }

  /**
   * Any other `-`-prefixed argument that is not a short bundle, `--` or
   * `--help` is unrecognized: among them the long options the help text lists
   * (`--sftp-cmd`, `--ssh-opts`, ...), whose patterns can never match.
   */
  lemma ScanRejectsOtherOptions(args: seq<string>, i: nat, opt: Options)
    requires i < |args| && StartsWithDash(args[i]) && !IsShortBundle(args[i])
    requires args[i] != "--" && args[i] != "--help"
    ensures ScanFrom(args, i, opt) == Unrecognized(args[i])
  {
  }

  lemma LongOptionsUnrecognized(args: seq<string>, i: nat, opt: Options)
    requires i < |args|
    requires args[i] in ["--sftp-cmd", "--ssh-cmd", "--sshfs-cmd", "--sftp-opts", "--ssh-opts", "--sshfs-opts"]
    ensures ScanFrom(args, i, opt) == Unrecognized(args[i])
  {
    ScanRejectsOtherOptions(args, i, opt);
  }

  /** A bundle that does not end the program is made only of `M` letters. */
  lemma {:induction false} BundleApplied(arg: string, j: nat, opt: Options)
    requires ApplyBundle(arg, j, opt).Applied?
    ensures forall k :: j <= k < |arg| ==> arg[k] == 'M'
    ensures ApplyBundle(arg, j, opt)
         == Applied(opt.(createMountPointIfNeeded := opt.createMountPointIfNeeded || j < |arg|))
    decreases |arg| - j
  {
    if j < |arg| {
      BundleApplied(arg, j + 1, opt.(createMountPointIfNeeded := true));
    }
  }

  /**
   * A scan that reaches the positional arguments consumed only `M` bundles,
   * possibly followed by one `--`.
   */
  lemma {:induction false} ScannedPrefix(args: seq<string>, i: nat, opt: Options)
    requires i <= |args| && ScanFrom(args, i, opt).Scanned?
    ensures i <= ScanFrom(args, i, opt).next <= |args|
    ensures forall k :: i <= k < ScanFrom(args, i, opt).next ==>
      IsCreateBundle(args[k]) || (args[k] == "--" && k == ScanFrom(args, i, opt).next - 1)
    decreases |args| - i
  {
    if i < |args| && args[i] != "--" && IsShortBundle(args[i]) {
      BundleApplied(args[i], 1, opt);
      ScannedPrefix(args, i + 1, opt.(createMountPointIfNeeded := true));
    }
  }

  /**
   * The flag is set at the end of a scan exactly when an `M` bundle was
   * consumed (or it was set already).
   */
  lemma {:induction false} ScannedCreate(args: seq<string>, i: nat, opt: Options)
    requires i <= |args| && ScanFrom(args, i, opt).Scanned?
    ensures ScanFrom(args, i, opt).opt.createMountPointIfNeeded
      <==> opt.createMountPointIfNeeded
           || exists k :: i <= k < ScanFrom(args, i, opt).next && k < |args| && IsCreateBundle(args[k])
    decreases |args| - i
  {
    var out := ScanFrom(args, i, opt);
    if i < |args| && args[i] != "--" && IsShortBundle(args[i]) {
      BundleApplied(args[i], 1, opt);
      ScannedCreate(args, i + 1, opt.(createMountPointIfNeeded := true));
      ScannedCreateSet(args, i + 1, opt.(createMountPointIfNeeded := true));
      ScannedPrefix(args, i + 1, opt.(createMountPointIfNeeded := true));
      assert IsCreateBundle(args[i]) && i < out.next;
    } else {
      ScannedPrefix(args, i, opt);
      assert forall k :: i <= k < out.next ==> !IsCreateBundle(args[k]);
    }
  }

  /** Once set, the flag stays set. */
  lemma {:induction false} ScannedCreateSet(args: seq<string>, i: nat, opt: Options)
    requires i <= |args| && ScanFrom(args, i, opt).Scanned? && opt.createMountPointIfNeeded
    ensures ScanFrom(args, i, opt).opt.createMountPointIfNeeded
    decreases |args| - i
  {
    if i < |args| && args[i] != "--" && IsShortBundle(args[i]) {
      BundleApplied(args[i], 1, opt);
      ScannedCreateSet(args, i + 1, opt.(createMountPointIfNeeded := true));
    }
  }

  /** A bundle with a letter other than `M` has a first such letter. */
  lemma {:induction false} FirstOther(arg: string, k: nat)
    requires 1 <= k < |arg| && arg[k] != 'M'
    ensures exists m :: 1 <= m < |arg| && arg[m] != 'M' && forall l :: 1 <= l < m ==> arg[l] == 'M'
    decreases k
  {
    if exists l :: 1 <= l < k && arg[l] != 'M' {
      var l :| 1 <= l < k && arg[l] != 'M';
      FirstOther(arg, l);
    }
  }

  /** `-Mh`: the flag is set, then the help text ends the program with status 0. */
  lemma HelpAfterCreateExample()
    ensures Scan(["-Mh", "dir", "host:mnt"]) == Help(EX_OK)
  {
  }

  // ---------------------------------------------------------------------------
  // The collector of the `--*-opts` options
  // ---------------------------------------------------------------------------

  function IndexOfSemicolon(args: seq<string>, from: nat): (k: nat)
    requires from <= |args|
    ensures from <= k <= |args|
    ensures forall m :: from <= m < k ==> args[m] != ";"
    ensures k < |args| ==> args[k] == ";"
    decreases |args| - from
  {
    if from == |args| || args[from] == ";" then from else IndexOfSemicolon(args, from + 1)
  }

  /**
   * The loop that gathers the arguments of an option such as `--ssh-opts` at
   * index `start`: everything up to the first `;`, which is skipped. The result
   * is the gathered arguments and the index after the `;` (or the end).
   * The scanner never calls it, since the options that lead here are never
   * recognized.
   */
  method CollectOptions(args: seq<string>, start: nat) returns (opts: seq<string>, next: nat)
    requires start < |args|
    ensures var k := IndexOfSemicolon(args, start + 1);
      && opts == args[start + 1..k]
      && next == (if k < |args| then k + 1 else |args|)
    ensures ";" !in opts
  {
    var i := start + 1;
    opts := [];
    while i < |args|
      invariant start + 1 <= i <= |args|
      invariant opts == args[start + 1..i]
      invariant forall m :: start + 1 <= m < i ==> args[m] != ";"
      decreases |args| - i
    {
      if args[i] == ";" {
        i := i + 1;
        break;
      }
      opts := opts + [args[i]];
      i := i + 1;
    }
    next := i;
  }

  // ---------------------------------------------------------------------------
  // snakeToCamelCase: str.replace(/-(.)/g, (m, p1) => p1.toUpperCase())
  // ---------------------------------------------------------------------------

  /** The characters JavaScript's `.` does not match. */
  predicate IsLineTerminator(c: char) {
    c == '\n' || c == '\r' || c == '\U{2028}' || c == '\U{2029}'
  }

  /** `toUpperCase` on ASCII letters. */
  function ToUpper(c: char): char {
    if 'a' <= c <= 'z' then (c as int - 32) as char else c
  }

  function SnakeToCamelCase(s: string): (r: string)
    ensures |r| <= |s|
    decreases |s|
  {
    if |s| >= 2 && s[0] == '-' && !IsLineTerminator(s[1]) then [ToUpper(s[1])] + SnakeToCamelCase(s[2..])
    else if s == [] then []
    else [s[0]] + SnakeToCamelCase(s[1..])
  }

  /** Names in the form of the option names: lower-case words joined by single dashes. */
  predicate IsKebab(s: string)
    decreases |s|
  {
    if s == [] then true
    else if 'a' <= s[0] <= 'z' then IsKebab(s[1..])
    else s[0] == '-' && |s| >= 2 && 'a' <= s[1] <= 'z' && IsKebab(s[2..])
  }

  /** The partner of `snakeToCamelCase`: an upper-case letter becomes a dash and its lower-case form. */
  function CamelToKebab(s: string): (r: string)
    ensures |r| >= |s|
  {
    if s == [] then []
    else if 'A' <= s[0] <= 'Z' then ['-', (s[0] as int + 32) as char] + CamelToKebab(s[1..])
    else [s[0]] + CamelToKebab(s[1..])
  }

  /** `toUpperCase` on a lower-case letter, and the way back. */
  lemma UpperLower(c: char)
    requires 'a' <= c <= 'z'
    ensures 'A' <= ToUpper(c) <= 'Z' && (ToUpper(c) as int + 32) as char == c
  {
  }

  lemma KebabUpper(u: char, t: string)
    requires 'A' <= u <= 'Z'
    ensures CamelToKebab([u] + t) == ['-', (u as int + 32) as char] + CamelToKebab(t)
  {
    assert ([u] + t)[1..] == t;
  }

  /** A dash and a lower-case letter become the upper-case letter. */
  lemma SnakeDash(s: string)
    requires |s| >= 2 && s[0] == '-' && 'a' <= s[1] <= 'z'
    ensures SnakeToCamelCase(s) == [ToUpper(s[1])] + SnakeToCamelCase(s[2..])
  {
  }

  /** A lower-case letter is kept by both directions. */
  lemma SnakeLetter(s: string)
    requires s != [] && 'a' <= s[0] <= 'z'
    ensures SnakeToCamelCase(s) == [s[0]] + SnakeToCamelCase(s[1..])
  {
  }

  lemma KebabLower(c: char, t: string)
    requires 'a' <= c <= 'z'
    ensures CamelToKebab([c] + t) == [c] + CamelToKebab(t)
  {
    assert ([c] + t)[1..] == t;
  }

  /** On option names, `snakeToCamelCase` loses nothing: the dashes can be put back. */
  lemma {:induction false} CamelCaseRoundTrip(s: string)
    requires IsKebab(s)
    ensures CamelToKebab(SnakeToCamelCase(s)) == s
    decreases |s|
  {
    if s != [] {
      if s[0] == '-' {
        SnakeDash(s);
        UpperLower(s[1]);
        KebabUpper(ToUpper(s[1]), SnakeToCamelCase(s[2..]));
        CamelCaseRoundTrip(s[2..]);
        assert s == ['-', s[1]] + s[2..];
      } else {
        SnakeLetter(s);
        KebabLower(s[0], SnakeToCamelCase(s[1..]));
        CamelCaseRoundTrip(s[1..]);
        assert s == [s[0]] + s[1..];
      }
    }
  }

  /** A character other than `-` passes through unchanged. */
  lemma SnakeKeeps(c: char, t: string)
    requires c != '-'
    ensures SnakeToCamelCase([c] + t) == [c] + SnakeToCamelCase(t)
  {
    assert ([c] + t)[1..] == t;
  }

  /** A part without dashes passes through unchanged. */
  lemma {:induction false} SnakeToCamelCasePrefix(a: string, b: string)
    requires forall i :: 0 <= i < |a| ==> a[i] != '-'
    ensures SnakeToCamelCase(a + b) == a + SnakeToCamelCase(b)
    decreases |a|
  {
    if a != [] {
      assert a + b == [a[0]] + (a[1..] + b);
      SnakeKeeps(a[0], a[1..] + b);
      SnakeToCamelCasePrefix(a[1..], b);
      assert [a[0]] + (a[1..] + SnakeToCamelCase(b)) == a + SnakeToCamelCase(b);
    } else {
      assert a + b == b;
    }
  }

  /** A name without dashes is left as it is. */
  lemma SnakeToCamelCaseNoDash(s: string)
    requires '-' !in s
    ensures SnakeToCamelCase(s) == s
  {
    SnakeToCamelCasePrefix(s, []);
    assert s + [] == s;
  }

  lemma SnakeToCamelCaseExample()
    ensures SnakeToCamelCase("sshfs-opts") == "sshfsOpts"
  {
    assert "sshfs-opts" == "sshfs" + "-opts";
    SnakeToCamelCasePrefix("sshfs", "-opts");
    CamelOpts();
    assert "sshfs" + "Opts" == "sshfsOpts";
  }

  lemma CamelOpts()
    ensures SnakeToCamelCase("-opts") == "Opts"
  {
    assert "-opts"[2..] == "pts";
    assert "pts"[1..] == "ts";
    assert "ts"[1..] == "s";
  }
}
