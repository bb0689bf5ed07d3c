# deployfs, modelled in Dafny

`deployfs` mounts a local directory on a remote host. It starts a local
sftp server, logs in to the remote host with ssh, and there runs a short
shell script that starts `sshfs` in passive mode, reading from the ssh
connection. This project models the logic that runs before the processes
are spawned, in both entry points of the repository:

- `bin/deployfs.mjs`, the command-line tool:
  - the option-scanning loop of `main`, and the check that two arguments remain;
  - `splitOnSpaces`, `parseDestStr`, `escapeSingleQuotes` and `snakeToCamelCase`;
  - the never-reached `;`-terminated option collector;
  - the remote script template.
- `index.mjs`, the older entry point:
  - its argument loop and its argument-count check;
  - its `escapeSingleQuotes`, which expects its callers to add the quotes;
  - its remote script template.

The modules are:

| file | module | contents |
|---|---|---|
| `wrappers.dfy` | `Wrappers` | `Option` |
| `js_strings.dfy` | `JsStrings` | `splitOnSpaces`, `parseDestStr` and the `/-o\s*passive/g` deletion, written as the left-to-right walks that JavaScript's global `split` and `replace` perform. Whitespace (`\s`) is the predicate `IsSpace`. |
| `posix_shell.dfy` | `PosixShell` | A lexer for the part of POSIX shell token recognition that the scripts use. It covers single quotes, backslash and line continuation, blanks, and newline and `;` between commands (XCU sections 2.2.1, 2.2.2 and 2.3 of POSIX.1-2017). The lexer fails on anything that would need more of the shell: expansions, operators, double quotes, and an unquoted `~` or `#` at the start of a word (section 2.6.1). |
| `quoting.dfy` | `Quoting` | Both versions of `escapeSingleQuotes`, and the proof that the shell reads their output back as the quoted string. |
| `deployfs_args.dfy` | `DeployfsArgs` | The option scanner, as a function and as the loop method proved equal to it. Also the `;` collector and `snakeToCamelCase`. |
| `deployfs_script.dfy` | `DeployfsScript` | The remote script of the command-line tool, and the commands the shell reads from it. |
| `deployfs_main.dfy` | `DeployfsMain` | `main` of the command-line tool, from the argument list and environment to the ssh invocation it builds before `execaCommand` throws, or the way it stops earlier. |
| `legacy_index.dfy` | `LegacyIndex` | The loop, script and `main` of `index.mjs`. |

The remote scripts are specified through the lexer. For example, the lexer
reads the script of the command-line tool as exactly these commands:

- `IFS=' \t\n'`;
- the `[ -e mountPoint ]` test;
- `mkdir -p` and `chmod u+rwx` on the mount point, or `:`;
- `fi`;
- `sshfs` with its arguments.

That is, every path is one word to the shell, whatever characters it holds.

The code is modelled as written, including these behaviours of the command-line tool:

- The long-option test at `bin/deployfs.mjs:113` is a regular-expression
  literal, so it is always true.
- The `^(?<=--)` patterns never match. As a result `--sftp-cmd`, `--ssh-opts`
  and the like are unrecognized options, and the collector is never reached.
- `-M` sets `createMountPointIfNeeded`, although the help text describes it
  as doing the opposite.
- The two positional arguments are taken from the front of the argument list,
  not from where the scan stopped.
- The count error reports the length of the whole list.
- The ssh destination is split off but never used.
- A destination without `:` leaves the mount point undefined, and quoting it
  throws. `execaCommand` is never imported, so a run that gets past every
  check also throws. Both end as uncaught exceptions, which holds in
  `index.mjs` as well.

And these behaviours of `index.mjs`:

- `-M` sets the flag and then fails the dash test, so it always ends in
  `badOption` with status 2.
- A `--` anywhere but first shifts away the first remaining argument, not the `--`.
- `removeMountPointOnExit` is never set.
- An absent `sshfsOpts` is written into the script as `undefined`.

## Model

| member | source | states |
|---|---|---|
| JsStrings.SplitOnSpaces | bin/deployfs.mjs:68-71 | A split always yields at least one token. |
| JsStrings.SplitOnSpacesCount | bin/deployfs.mjs:68-71 | The number of tokens is one more than the number of whitespace characters not preceded by a backslash. |
| JsStrings.SplitOnSpacesNoSpace | index.mjs:27-30 | Input without whitespace yields the one-token list of the input. |
| JsStrings.UnescapeIdentity | bin/deployfs.mjs:70 | A backslash is removed only in front of whitespace: a token with no backslash-whitespace pair is unchanged. |
| JsStrings.SplitOnSpacesRoundTrip | bin/deployfs.mjs:68-71 | Escaping the whitespace in each token and joining the tokens with blanks gives a line that splits back into exactly those tokens, provided no token ends in a backslash. |
| JsStrings.SplitOnSpacesEscapedToken | bin/deployfs.mjs:68-71 | Any token written with a backslash before each of its whitespace characters splits back into that single token. |
| JsStrings.SplitOnSpacesTrailingBackslash | bin/deployfs.mjs:68-71 | For any two words without whitespace, `a\ b` splits into the single token `a b`: a word that ends in a backslash escapes the blank joining it to the next word, whatever precedes that backslash. |
| JsStrings.SplitOnSpacesPlainExample | bin/deployfs.mjs:24 | `ssh -o StrictHostKeyChecking=no` becomes the program and its two arguments. |
| JsStrings.SplitOnSpacesEscapedExample | bin/deployfs.mjs:68-71 | `ssh\ foo bar` becomes `["ssh foo", "bar"]`. |
| JsStrings.SplitOn | bin/deployfs.mjs:83-85 | Splitting on `:` yields at least one part. |
| JsStrings.SplitOnJoin | bin/deployfs.mjs:83-85 | The parts joined with the separator give the input back, no part contains the separator, and there is one more part than there are separators. |
| JsStrings.SplitOnNoSeparator | index.mjs:46-48 | A string without the separator is its own only part. |
| JsStrings.SplitOnFirst | bin/deployfs.mjs:141 | The text before the first `:` is the first part; the second part, the mount point, comes from what follows. |
| JsStrings.SplitOnOfJoin | index.mjs:46-48 | Parts free of the separator, once joined, split back into the same parts. |
| JsStrings.StripPassiveIdentity | index.mjs:63 | A string with no match of `-o\s*passive` is left unchanged by the deletion. |
| JsStrings.StripPassiveRemovesMatch | index.mjs:63 | A match at the front, with any run of whitespace inside it, is deleted and the search resumes behind it. |
| JsStrings.StripPassiveNoDash | bin/deployfs.mjs:27 | Text without a `-` cannot hold a match and is kept as it is. |
| JsStrings.StripPassiveAllIdentity | index.mjs:63 | Arguments in which `-o\s*passive` matches nowhere come out of the per-argument deletion unchanged. |
| Quoting.ReplaceQuotes | index.mjs:50-52 | The text grows by three characters per `'`, and a string without `'` is returned unchanged. What the shell makes of the result is stated by `WrappedRoundTrip`. |
| Quoting.EscapeSingleQuotes | bin/deployfs.mjs:87-89 | The result starts and ends with `'`. Its length is the input's plus 2, plus 3 per `'`, plus 2 for a leading `~`. Without `'` and without a leading `~` it is the input between single quotes. |
| Quoting.EscapeRoundTrip | bin/deployfs.mjs:87-89 | The shell reads the escaped text as one word equal to the input, for every input: empty, with quotes, or starting with `~`. |
| Quoting.WrappedRoundTrip | index.mjs:50-52 | The older escape, inside the quotes its callers write around it, is read back by the shell as the input. |
| Quoting.TildeIsolationRedundant | bin/deployfs.mjs:88 | The isolation of a leading `~` changes the text, but not what the shell reads. Inside the quotes the `~` is already literal, so the unisolated form reads back as the same single word. |
| Quoting.EscapeTildeExample | bin/deployfs.mjs:88 | `~` is quoted as `''~''` and read back as `~`. |
| Quoting.EscapeQuoteExample | bin/deployfs.mjs:88 | `it's` is quoted as `'it'\''s'`. |
| DeployfsArgs.ScanArgs | bin/deployfs.mjs:95-135 | The loop, with its index and option bag updated in place, ends with exactly the outcome of the scan function. |
| DeployfsArgs.ScanEmpty | bin/deployfs.mjs:96 | No arguments: the help text, exit status 64. |
| DeployfsArgs.ScanDoubleDash | bin/deployfs.mjs:101-103 | `--` is consumed and ends the scan; positionals start right after it. |
| DeployfsArgs.ScanStopsAtPositional | bin/deployfs.mjs:113-133 | The first argument that does not start with `-` ends the scan and is not consumed. |
| DeployfsArgs.ScanRejectsOtherOptions | bin/deployfs.mjs:113-132 | Any other `-`-prefixed argument that is neither a short bundle nor `--help` is reported as unrecognized, exit 64. |
| DeployfsArgs.LongOptionsUnrecognized | bin/deployfs.mjs:116-132 | `--sftp-cmd`, `--ssh-cmd`, `--sshfs-cmd` and the three `--*-opts` options are all unrecognized. |
| DeployfsArgs.ApplyBundleAllCreate | bin/deployfs.mjs:106-109 | A bundle made only of `M` sets the create flag, and leaves it as it was when it has no letter. |
| DeployfsArgs.ApplyBundleFirstOther | bin/deployfs.mjs:107-111 | The letters are applied left to right. The first letter other than `M` decides the end: `h` prints help with status 0, any other letter is unrecognized. |
| DeployfsArgs.BundleApplied | bin/deployfs.mjs:106-112 | A bundle that lets the scan go on consists of `M` letters only, and its effect is to set the flag. |
| DeployfsArgs.ScannedPrefix | bin/deployfs.mjs:100-135 | A scan that reaches the positionals stops within the list, and everything it consumed is a bundle of `M` letters, except a final `--`. |
| DeployfsArgs.ScannedCreate | bin/deployfs.mjs:109 | After a successful scan the create flag is set if and only if it was set already or a consumed argument is an `M` bundle. |
| DeployfsArgs.HelpAfterCreateExample | bin/deployfs.mjs:109-110 | `-Mh` prints help with status 0, the `M` having been applied first. |
| DeployfsArgs.IndexOfSemicolon | bin/deployfs.mjs:124-128 | The index found is the first `;` at or after the start, or the end of the list. |
| DeployfsArgs.CollectOptions | bin/deployfs.mjs:121-131 | The collected options are the arguments after the option up to the first `;`, without it. The inner loop stops just past the `;`, or at the end of the list when there is none. The outer loop's `i++` would then skip one more argument. The branch is never reached, because its pattern cannot match. |
| DeployfsArgs.CamelCaseRoundTrip | bin/deployfs.mjs:91-93 | On lower-case names with single dashes between letters, turning each upper-case letter back into `-` plus its lower case gives the name back, so no two such names collide. |
| DeployfsArgs.SnakeToCamelCasePrefix | bin/deployfs.mjs:92 | Text before the first `-` is kept unchanged. |
| DeployfsArgs.SnakeToCamelCaseNoDash | bin/deployfs.mjs:92 | A string without `-` is unchanged. |
| DeployfsArgs.SnakeToCamelCaseExample | bin/deployfs.mjs:91-93 | `sshfs-opts` becomes `sshfsOpts`. |
| DeployfsScript.RemoteScriptCommands | bin/deployfs.mjs:144-161 | The shell reads the script as exactly the intended commands. These are the `IFS` reset, the existence test, the `mkdir`/`chmod` block or `:`, then `fi`, then sshfs. sshfs is given the first sshfs word, `:` plus the local path, the mount point, `-o passive`, and the remaining sshfs words. Every path and word comes through intact. |
| DeployfsScript.CreateBlockIffRequested | bin/deployfs.mjs:148-153 | The script contains the `mkdir -p` and `chmod u+rwx` commands if and only if creation was requested, and the `:` command if and only if it was not. |
| DeployfsMain.FallbackCommand | bin/deployfs.mjs:20-24 | An unset or empty variable falls back to the default command. |
| DeployfsMain.DefaultSsh | bin/deployfs.mjs:20-28 | Unset variables give `ssh` and `sshfs` as one-word commands. |
| DeployfsMain.PassiveOnlySshfs | bin/deployfs.mjs:26-28 | An `SSHFS_CMD` that is only `-o passive` is emptied by the deletion, so the default `sshfs` is used. |
| DeployfsMain.SshfsWithoutPassive | bin/deployfs.mjs:26-28 | A leading passive option in `SSHFS_CMD` is removed before the split. |
| DeployfsMain.PassiveCanRemain | bin/deployfs.mjs:26-28 | The deletion is a single pass. In `prog -o -o passivepassive` it removes the inner match and leaves `-o passive`, so sshfs receives `-o passive` twice. |
| DeployfsMain.ExitStatus | bin/deployfs.mjs:73-81 | Help exits with its own status. Unrecognized options and a wrong argument count exit 64. A missing mount point, and a prepared invocation, end in an uncaught exception with status 1. The process succeeds exactly when help was asked for. |
| DeployfsMain.MainEmpty | bin/deployfs.mjs:96 | No arguments: help, exit 64. |
| DeployfsMain.MainCount | bin/deployfs.mjs:137-138 | After a successful scan, anything but exactly two remaining arguments is a usage error. The error reports the length of the whole list. |
| DeployfsMain.MainPrepared | bin/deployfs.mjs:137-175 | `main` reaches the spawning code, where `execaCommand` throws, exactly when the scan succeeds, two arguments remain, and the destination has a `:`. The ssh invocation it would build there is the first word of `SSH_CMD`, with the rest of `SSH_CMD` and then the script as its arguments. The script reads as the commands for the scanned flag, the mount point after the first `:`, the first argument, and the sshfs command line. |
| DeployfsMain.DestinationNotPassed | bin/deployfs.mjs:141-175 | With `SSH_CMD` unset, the ssh invocation built at the spawning code has the script as its only argument. The host of `host:mountpoint` is not passed to ssh at all. |
| DeployfsMain.MountPointStopsAtColon | bin/deployfs.mjs:141 | A destination with further colons keeps only the text between the first two as the mount point. |
| DeployfsMain.CreateFlagShiftsPositionals | bin/deployfs.mjs:140-141 | With `-M` first, the positionals are taken from the front, so `-M` becomes the local path. The real local path becomes the destination and, having no `:`, leaves the mount point undefined. |
| DeployfsMain.CountReportsAllArguments | bin/deployfs.mjs:137-138 | `-M dest` leaves one positional and reports that 2 arguments were received. |
| LegacyIndex.ScanRemaining | index.mjs:60-74 | The `for…of` loop over the remaining arguments ends with exactly the outcome of the loop function. |
| LegacyIndex.LoopStopsAtFirstDash | index.mjs:60-74 | The first `-`-prefixed argument decides the loop. `--` takes the arguments after the first remaining one, with the passive option deleted, as the sshfs options. Anything else is a bad option. |
| LegacyIndex.LoopWithoutOptions | index.mjs:60-74 | Without a `-`-prefixed argument the loop finishes with no sshfs options and the flag unset. |
| LegacyIndex.LoopNeverCreates | index.mjs:67-73 | A loop that finishes never has the create flag set, since `-M` is always a bad option. |
| LegacyIndex.DoubleDashFirst | index.mjs:61-64 | When `--` is the first remaining argument, the sshfs options are the arguments after it with every passive match deleted. |
| LegacyIndex.DoubleDashPlainOptions | index.mjs:61-64 | When `--` is the first remaining argument and no option holds a passive match, the sshfs options are exactly the arguments after it. |
| LegacyIndex.DoubleDashLater | index.mjs:61-64 | A later `--` shifts away the first remaining argument instead, so the `--` itself becomes an sshfs option. |
| LegacyIndex.HeadReadsAsCommands | index.mjs:83-98 | The script up to `fi` reads as the `IFS` reset, the quoted existence test, the `mkdir -p`/`chmod a+rwx` block with its `trap` when asked for (`:` otherwise), and `fi`. |
| LegacyIndex.RemoteCommandHead | index.mjs:83-104 | The whole script reads as those commands followed by whatever the sshfs lines make of them. |
| LegacyIndex.TrapActionReadsBack | index.mjs:93 | The action that `trap` runs at exit reads, when executed, as `rm -d` on the mount point. |
| LegacyIndex.OptionsTextSplits | index.mjs:103 | The sshfs options are written into the script joined with `,`, as an array is converted to text, and split back on `,` into the same options. |
| LegacyIndex.UndefinedOptions | index.mjs:58-103 | When no argument after the positionals starts with `-`, `main` reaches the spawning code, where `execaCommand` throws, and the script it builds there ends with `-o passive undefined`, since `sshfsOpts` was never assigned. |
| LegacyIndex.ExitStatus | index.mjs:36-44 | Too few arguments exits 64, and a bad option exits 2. A missing mount point and reaching the spawning code both end in an uncaught exception with status 1, so no outcome exits with 0. |
| LegacyIndex.MainTooFew | index.mjs:55 | Fewer than two arguments, and only that, is a usage error reporting the count. |
| LegacyIndex.MainLaunch | index.mjs:54-112 | `main` reaches the spawning code, where `execaCommand` throws, exactly when there are at least two arguments, the loop finishes, and the first argument has a `:`. The script's mount point is taken from the first argument, the reverse of the command-line tool. The head of the script reads as the test followed by `:`. |
| LegacyIndex.CreateFlagRejected | index.mjs:67-73 | `-M` is a bad option with exit status 2. |

## Left out

- Spawning the sftp server and ssh, and wiring their standard streams
  together (`bin/deployfs.mjs:169-181`, `index.mjs:106-118`). `main` ends in
  an outcome value that names what would be run. `execaCommand` is not
  imported by either file, so as written that call throws. `ExitStatus` gives
  that outcome the status of an uncaught exception.
- `console.log`, `console.error` and `process.exit`. They are outcome values
  with an exit status (`ExitStatus`), and the messages are not kept.
- DeployfsMain.ExitStatus, LegacyIndex.ExitStatus: an uncaught exception is
  given status 1, which is what Node does from version 15 on. Older versions
  print a warning and exit 0 instead. The Node version is not part of this model.
- The help and usage texts. The model only records that help was shown and
  with which status.
- The package manifest that `index.mjs` reads its defaults from is not part
  of this model. Its two defaults are the parameter `Defaults`.
- The environment variables are the parameter `Environment`.
- The commented-out shell script at the end of `index.mjs`, which never runs.
- `fixupSshOpts`, which is never called.
- `scripts/build-readme.mjs`, which is build tooling that runs the tool and
  rewrites a file.
- `toUpperCase` is modelled on ASCII letters only. The names it is applied to
  are ASCII. Strings are sequences of characters, not UTF-16 code units.
  JavaScript's `\s` is the predicate `IsSpace`, which lists the characters
  that `\s` matches.
- The lexer covers only what the scripts use. The sshfs lines of the
  `index.mjs` script hold double quotes and `$` expansions, which the lexer
  does not interpret, so that part of the script is kept as text.
- LegacyIndex.TrapActionReadsBack: requires a mount point without `'`. The
  trap string is parsed again by the shell at exit, and a `'` in the mount
  point leaves that second parse unbalanced.
- DeployfsScript.EscapeEach: states only that there is one result per word. What the shell makes of them is stated by
  `RemoteScriptCommands`.
- DeployfsArgs.SnakeToCamelCase: states only the length bound. Its meaning is
  given by `CamelCaseRoundTrip` and the lemmas beside it.
- The literal `-o passive` appears in the script once, but the
  `SSHFS_CMD` deletion does not guarantee that sshfs receives the option only
  once. `PassiveCanRemain` gives an input for which it receives it twice.
