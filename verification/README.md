# Login-shell start decision (libpsl-native `AttemptLoginStart`)

PowerShell can be a user's login shell. On macOS, a login shell is expected
to read the user's profile the way `/bin/sh -l` does. To achieve that, the
native library re-executes PowerShell once through `/bin/zsh`, but only when
the invocation is a login one. This project models the decision logic of
`src/libpsl-native/src/attemptloginstart.cpp`:

- **Classifier** (`IsLogin`). A single left-to-right pass over the program
  arguments. Its only state is whether the previous token was a parameter
  still waiting for its value. Each token outside a value position is read
  against a fixed flag table, in the order login, disqualifying,
  value-taking, benign. A token that matches none of them is treated as a
  filename. A leading `-` in argv[0] (the convention `login(1)` uses) makes
  the invocation a login one at once.
- **Flag matcher** (`IsParam`). The source declares it with an empty body.
  The model defines it as follows: strip the leading `-`, fold the rest to
  lower case, and accept it when it is a prefix of the full name that is no
  shorter than the shortest accepted abbreviation. The optional fourth
  argument some calls pass (`"ec"`, `"ep"`, `"if"`, `"of"`, `"wd"`) is an
  exact alias, compared after the same folding. This is a modelling
  assumption. Nothing in the source fixes it beyond the parameter names.
- **Recursion guard**. An environment variable, named by the caller. If it
  is present, it is removed and normal startup proceeds. Otherwise it is set
  to `"1"` before any platform-specific work. The environment is a
  `map<string, string>`.
- **`KERN_PROCARGS2` walk**. The kernel's copy of the process arguments is a
  byte blob:
  1. an `int` argument count;
  2. the executable path, ending in NUL;
  3. a run of NUL padding;
  4. the original argv strings.

  The walk recovers the executable path and the first byte of argv[0]. It
  is a total function on `seq<bv8>` (`None` when the cursor would leave the
  buffer) and also a two-loop cursor method whose precondition is what the
  source silently relies on.

The modules follow the program's structure:

| module | file |
|---|---|
| `Wrappers` (Option) | `wrappers.dfy` |
| `Ascii` (case folding) | `ascii.dfy` |
| `Seqs` (element-wise map) | `seqs.dfy` |
| `Grammar` (flag table, `IsParam`, `Classify`) | `grammar.dfy` |
| `Classifier` (`IsLogin` and its loop) | `classifier.dfy` |
| `ProcArgs` (the blob walk) | `procargs.dfy` |
| `Guard` | `guard.dfy` |
| `LoginStart` (the entry point and the macOS path) | `loginstart.dfy` |

`Classify` reads one token. The scan, `ScanClasses`, runs over the token
classes, so its properties hold for any table. `Classes` links the scan to
the argument strings.

## How gaps in the source are resolved

- **End of the arguments.** `IsLogin` has no `return` after its loop
  (`attemptloginstart.cpp:153-154`). The model returns "not login" when the
  arguments run out. This includes running out while a value-taking
  parameter still waits for its value. This is a design choice, and
  `Classifier.ScanClasses` makes it visible as the `Exhausted` state.
- **Benign-parameter calls.** The calls at lines 142-146 omit `arg`. They are
  read as `IsParam(arg, "interactive", "i")` and so on.
- **Four-argument calls.** The calls at lines 129-135 pass four arguments,
  but `IsParam` is declared with three (line 156). The model's `IsParam`
  takes an optional alias. The three-argument calls pass `None`.
- **Other platforms.** `AttemptLoginStart` has no return on a platform that
  is neither Linux nor macOS (lines 25-30). There the model proceeds with
  normal startup (status 0), after the guard is armed.
- **Walk off the buffer.** The source walks the blob with no bounds checks
  (lines 63-64). The pure walk returns `None` when the path has no NUL or no
  non-NUL byte follows it. The entry point reports that as
  `ProcArgsUnreadable`. The source would read past the buffer instead.
- **Flag names that overlap.** The code's flag names do not have disjoint
  prefix sets, and a token is not matched to its longest match. The code
  checks the groups in a fixed order and takes the first match, and the
  model follows the code. For example, `-in` abbreviates both
  `-InputFormat` (value-taking, shortest `in`) and `-Interactive` (benign,
  shortest `i`). The value-taking group is checked first, so `-in -l` is not
  a login invocation (the `-l` is the input format), while `-int -l` is one.
- **Header prototype.** The prototype in `attemptloginstart.h` lacks
  `guardEnvVarName`. The model follows the definition at line 15.

## Model

| member | source | states |
|---|---|---|
| Grammar.TableWellFormed | src/libpsl-native/src/attemptloginstart.cpp:111-146 | every table row's shortest abbreviation is a non-empty prefix of its full name, and names and aliases are lower case, as case-insensitive matching needs |
| Grammar.TableOrderedByRank | src/libpsl-native/src/attemptloginstart.cpp:110-149 | the table lists the groups in the order the source checks them: login, disqualifying, value-taking, benign |
| Grammar.IsParam | src/libpsl-native/src/attemptloginstart.cpp:156-159 | an accepted token starts with `-` and, after the dash, is no longer than the full name unless it is the alias; the exact set of accepted spellings is `Grammar.IsParamAcceptsSpellings` |
| Grammar.IsParamAcceptsSpellings | src/libpsl-native/src/attemptloginstart.cpp:156-159 | `IsParam` accepts exactly: a dash, then any upper/lower-case spelling of an abbreviation of the full name at least as long as the shortest prefix, or any spelling of the alias |
| Grammar.EntryAcceptsSpellings | src/libpsl-native/src/attemptloginstart.cpp:111-146 | each table row accepts exactly the spellings its name, shortest prefix and alias allow |
| Grammar.Classify | src/libpsl-native/src/attemptloginstart.cpp:97-152 | a token is a filename exactly when it is empty, lacks the leading dash, is a bare `-`, or starts `-?`; it is unrecognised exactly when no row matches it; otherwise it takes the disposition of a matching row that no other matching row precedes in check order |
| Grammar.ClassifyFollowsCheckOrder | src/libpsl-native/src/attemptloginstart.cpp:110-149 | a flag token is read as disposition `d` if and only if some row with `d` matches it and no row of an earlier-checked group does |
| Grammar.ClassifyIgnoresCase | src/libpsl-native/src/attemptloginstart.cpp:110-149 | folding a token to lower case does not change how it is read |
| Grammar.ClassifyByFirstEntry | src/libpsl-native/src/attemptloginstart.cpp:110-149 | the first row in check order that matches a flag token decides its reading |
| Grammar.LoginNameClassifies | src/libpsl-native/src/attemptloginstart.cpp:110-114 | any spelling of `-login` down to `-l` is read as the login flag |
| Grammar.FileNameClassifies | src/libpsl-native/src/attemptloginstart.cpp:117 | any spelling of `-file` down to `-f` is disqualifying |
| Grammar.CommandNameClassifies | src/libpsl-native/src/attemptloginstart.cpp:118 | any spelling of `-command` down to `-c` is disqualifying |
| Grammar.VersionNameClassifies | src/libpsl-native/src/attemptloginstart.cpp:119 | any spelling of `-version` down to `-v` is disqualifying |
| Grammar.HelpNameClassifies | src/libpsl-native/src/attemptloginstart.cpp:120 | any spelling of `-help` down to `-h` is disqualifying |
| Grammar.DisqualifyingNamesClassify | src/libpsl-native/src/attemptloginstart.cpp:116-123 | a token matching file, command, version or help is read as disqualifying |
| Grammar.ExecutionPolicyClassifies | src/libpsl-native/src/attemptloginstart.cpp:130 | `-ExecutionPolicy` is read as value-taking |
| Grammar.FileClassifies | src/libpsl-native/src/attemptloginstart.cpp:117 | `-File` is read as disqualifying |
| Grammar.InAbbreviationIsAmbiguous | src/libpsl-native/src/attemptloginstart.cpp:131-142 | `-in` matches both the inputformat row and the interactive row |
| Grammar.InAbbreviationClassifies | src/libpsl-native/src/attemptloginstart.cpp:125-139 | `-in` is read as value-taking, because that group is checked before the benign one |
| Grammar.InteractiveAbbreviationIsUnambiguous | src/libpsl-native/src/attemptloginstart.cpp:127-146 | `-int` matches the interactive row and no other row; in particular it is too long to abbreviate `-InputFormat` |
| Grammar.InteractiveAbbreviationClassifies | src/libpsl-native/src/attemptloginstart.cpp:142 | `-int` is read as benign |
| Classifier.ScanClasses | src/libpsl-native/src/attemptloginstart.cpp:83-153 | a scan that decides "login" saw a login flag; one that decides "not login" saw a filename, an unrecognised flag or a disqualifying flag; one that ends waiting for a value ended on a value-taking flag, or started waiting with no tokens |
| Classifier.IsLogin | src/libpsl-native/src/attemptloginstart.cpp:76-154 | a leading `-` in argv[0] means login whatever the arguments are; otherwise a login answer implies some argument is the login flag |
| Classifier.ScanAppend | src/libpsl-native/src/attemptloginstart.cpp:84-153 | scanning `a + b` is scanning `a`, then, unless `a` decided, scanning `b` from the state `a` ended in: each token is visited once, left to right |
| Classifier.LoginIffLoginFlagInFlagPosition | src/libpsl-native/src/attemptloginstart.cpp:84-153 | over token classes: the scan decides "login" if and only if some token is the login flag and the tokens before it run out without deciding and with no value pending |
| Classifier.IsLoginIffLoginFlagInFlagPosition | src/libpsl-native/src/attemptloginstart.cpp:76-154 | without a leading `-` in argv[0], login if and only if some argument is the login flag and the arguments before it scan to the end undecided with no value pending |
| Classifier.FirstDecisiveTokenWins | src/libpsl-native/src/attemptloginstart.cpp:84-153 | once a prefix `a` of the arguments decides, `IsLogin(c, a + b) == IsLogin(c, a)` for every `b` |
| Classifier.NoArgumentsIsNotLogin | src/libpsl-native/src/attemptloginstart.cpp:83-154 | with no arguments and no leading `-` in argv[0], not login (the chosen end-of-loop result) |
| Classifier.ScanAfterUndecidedPrefix | src/libpsl-native/src/attemptloginstart.cpp:84-153 | after arguments that scan to the end undecided with no value pending, the next token is read in flag position, as if it were the first argument |
| Classifier.FilenameDecidesNotLogin | src/libpsl-native/src/attemptloginstart.cpp:97-108 | after arguments that scan to the end undecided with no value pending, an empty token, one without a leading dash, a bare `-` or a `-?` token decides "not login", whatever follows |
| Classifier.LoginFlagDecidesLogin | src/libpsl-native/src/attemptloginstart.cpp:110-114 | after arguments that scan to the end undecided with no value pending, a login-flag spelling decides "login", whatever follows |
| Classifier.DisqualifyingFlagDecidesNotLogin | src/libpsl-native/src/attemptloginstart.cpp:116-123 | after arguments that scan to the end undecided with no value pending, a file, command, version or help spelling decides "not login", whatever follows |
| Classifier.ValueFlagSkipsItsValue | src/libpsl-native/src/attemptloginstart.cpp:86-139 | after arguments that scan to the end undecided with no value pending, the token after a value-taking flag is skipped unread: the answer is as if neither the flag nor its value were there |
| Classifier.TrailingValueFlagIsNotLogin | src/libpsl-native/src/attemptloginstart.cpp:137-154 | after arguments that scan to the end undecided with no value pending, a value-taking flag as the last token leaves the scan waiting for a value, and the answer is "not login" |
| Classifier.BenignFlagContinues | src/libpsl-native/src/attemptloginstart.cpp:141-149 | after arguments that scan to the end undecided with no value pending, a benign switch consumes nothing: the answer is as if it were not there |
| Classifier.UnrecognisedFlagDecidesNotLogin | src/libpsl-native/src/attemptloginstart.cpp:151-152 | after arguments that scan to the end undecided with no value pending, a dash-prefixed token that no row matches decides "not login", whatever follows |
| Classifier.ExecutionPolicyThenFileIsNotLogin | src/libpsl-native/src/attemptloginstart.cpp:86-139 | `-ExecutionPolicy <policy> -File <script>` is not login, whatever the policy and script are |
| Classifier.InputFormatAbbreviationTakesValue | src/libpsl-native/src/attemptloginstart.cpp:125-149 | `-in -l` is not login, because `-l` is consumed as the input format |
| Classifier.InteractiveAbbreviationThenLoginIsLogin | src/libpsl-native/src/attemptloginstart.cpp:110-149 | `-int -l` is login: `-int` is only the benign `-Interactive`, so `-l` is read as the login flag |
| Classifier.ScanLoop | src/libpsl-native/src/attemptloginstart.cpp:83-153 | the source's loop, with a single `expecting` flag and early returns, answers "login" exactly when the scan decides "login" |
| Classifier.IsLoginLoop | src/libpsl-native/src/attemptloginstart.cpp:76-154 | the argv[0] test followed by the loop computes `IsLogin` |
| ProcArgs.SkipNonNul | src/libpsl-native/src/attemptloginstart.cpp:63 | the cursor stops at the next NUL, or at the end of the buffer, passing only non-NUL bytes |
| ProcArgs.SkipNul | src/libpsl-native/src/attemptloginstart.cpp:64 | the cursor stops at the next non-NUL byte, or at the end of the buffer, passing only NUL bytes |
| ProcArgs.SkipNonNulFindsFirstNul | src/libpsl-native/src/attemptloginstart.cpp:63 | the path's scan stops at the first NUL after the cursor |
| ProcArgs.SkipNulFindsFirstNonNul | src/libpsl-native/src/attemptloginstart.cpp:64 | the padding's scan stops at the first non-NUL byte after the cursor |
| ProcArgs.Walk | src/libpsl-native/src/attemptloginstart.cpp:55-66 | the walk succeeds exactly when the blob has a NUL past the count and a non-NUL byte after it; the path then has no NUL, starts at offset `sizeof(int)` and ends at a NUL, and argv[0]'s first byte is the first non-NUL byte after the NUL run |
| ProcArgs.WalkCursor | src/libpsl-native/src/attemptloginstart.cpp:55-66 | the source's two cursor loops stay in bounds and compute the same path and byte as the walk, given a NUL past the count and a non-NUL byte after it |
| ProcArgs.WalkRecoversImage | src/libpsl-native/src/attemptloginstart.cpp:55-66 | round trip: walking the blob laid out for a process with a non-empty argv[0] recovers its executable path and the first byte of its argv[0] |
| ProcArgs.EmptyArgv0ReadsNextString | src/libpsl-native/src/attemptloginstart.cpp:63-66 | with an empty argv[0], the walk cannot tell it from padding and reads the first byte of argv[1] |
| Guard.CheckAndArm | src/libpsl-native/src/attemptloginstart.cpp:17-23 | the guard is reported set exactly when it is present; a present guard is removed and an absent one is set to `"1"`; no other variable changes or appears |
| Guard.ArmThenCheckRestores | src/libpsl-native/src/attemptloginstart.cpp:17-23 | checking an unset guard arms it, and checking again reports it set and gives back the original environment |
| LoginStart.ByteToChar | src/libpsl-native/src/attemptloginstart.cpp:66 | the byte read from the blob is `-` exactly when it is 0x2D |
| LoginStart.AttemptLoginMacOS | src/libpsl-native/src/attemptloginstart.cpp:55-73 | re-exec through `/bin/zsh` with the recovered path and the unchanged arguments exactly when the walk succeeds and `IsLogin` holds for argv[0]'s first byte; otherwise proceed, or report the blob unreadable exactly when the walk fails |
| LoginStart.AttemptLoginStart | src/libpsl-native/src/attemptloginstart.cpp:15-30 | a set guard means proceed without classifying and the guard is removed; an unset guard is armed with `"1"` before dispatch; no other variable changes; with the guard unset, Linux takes the Linux path with the arguments unchanged, macOS gives exactly the outcome of `AttemptLoginMacOS` (a re-exec through `/bin/zsh` with the recovered path if and only if `IsLogin` holds), and any other platform proceeds |
| LoginStart.InheritedGuardProceeds | src/libpsl-native/src/attemptloginstart.cpp:17-21 | a process whose environment still holds the guard proceeds without classifying, on every platform, and only the guard is removed, whatever else its environment holds |
| LoginStart.ReexecHappensAtMostOnce | src/libpsl-native/src/attemptloginstart.cpp:17-30 | if the child receives the armed environment unchanged, its own call proceeds and gives back the environment the first call started from |
| LoginStart.DashArgv0ReexecsOnMacOS | src/libpsl-native/src/attemptloginstart.cpp:66-81 | on macOS with the guard unset, an argv[0] starting with `-` always re-execs through the login shell |

## Left out

- `sysctl`, `calloc` and `getpid` (`attemptloginstart.cpp:34-53`) are left out. These are kernel queries and allocation. The blob they produce is a parameter of the model. The source ignores the return codes of both `sysctl` calls, and the model does not track those unchecked failures either.
- `DoExec` (line 73) is left out because it replaces the process. The model returns the `ExecLoginShell` outcome with the shell, path and arguments it would be given. What happens when the exec fails is not modelled.
- `AttemptLoginLinux` (line 26) is not part of this model. The Linux branch returns the `LinuxAttempt` outcome.
- `getenv`, `setenv` and `unsetenv` are modelled as lookup, update and removal on a `map<string, string>`. Process-wide environment sharing and thread safety are not modelled.
- LoginStart.ReexecHappensAtMostOnce: depends on `setenv` and `unsetenv` succeeding, which the model assumes. The source ignores `setenv`'s result (line 23), and POSIX `setenv` fails for an empty name or one containing `=`. With such a guard name the environment stays unarmed and the re-executed process would re-exec again. The lemma does not cover that case. It also assumes that the login shell passes the armed environment on to the child unchanged. In practice the shell's startup files can change other variables, for example `PATH`. `LoginStart.InheritedGuardProceeds` covers any child environment that still holds the guard. In that case only the guard is removed, and the result is not the original environment.
- Guard.CheckAndArm: models `setenv` and `unsetenv` as always succeeding. A failing call, which the source does not check, is not modelled.
- Grammar.IsParam: its own contract states only shape facts about accepted tokens. The exact set of accepted spellings is `Grammar.IsParamAcceptsSpellings`, and `Grammar.EntryAcceptsSpellings` gives it for every table row.
- `attemptloginstart.h` is not part of this model. It holds only the C prototypes and export macros.
- C strings are modelled as their contents up to the first NUL, which is what `strlen` sees. `programArgsCount` is modelled as the length of the sequence, so a count that disagrees with the array is not modelled.
- Case folding covers the 26 ASCII letters only, as a C `tolower` in the "C" locale does. Locale-dependent folding is not modelled.
- LoginStart.ByteToChar: signedness of C `char` is not modelled. Only the comparison with `-` (0x2D) is used, and that comparison is the same either way.
- Classifier.IsLogin: its own contract states only the two one-way facts. The exact characterisation is `Classifier.IsLoginIffLoginFlagInFlagPosition`, and `Classifier.IsLoginLoop` proves the source's loop equal to it.
- Classifier.ScanClasses: its own contract states necessary conditions only. The if-and-only-if is `Classifier.LoginIffLoginFlagInFlagPosition`.
- ProcArgs.WalkRecoversImage: requires a non-empty argv[0]. The empty case is `ProcArgs.EmptyArgv0ReadsNextString`.
