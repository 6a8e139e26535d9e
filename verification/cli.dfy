/**
 * `parseArgs` (src/cli.js:42-69): one left-to-right pass over the
 * command-line arguments that picks the sub-command, collects `--key value`
 * and `--flag` options and keeps the remaining words as arguments.
 *
 * Beside the scan, a reference definition says what role each position
 * plays (an option, an option's value, the sub-command, an argument), and
 * `ParseArgs` is proved to agree with it.
 */
module Cli {
  import opened JsText

  /** An option's value: `true` or the word after it. */
  datatype OptValue = Flag | Text(text: string)

  /** `{ command, options, args }` */
  datatype CliArgs = CliArgs(command: string, options: map<string, OptValue>, args: seq<string>)

  const Commands: seq<string> := ["watch", "exec", "validate", "test", "version", "help"]
  const DefaultCommand: string := "watch"

  /** `{ command: 'watch', options: {}, args: [] }` */
  const Start: CliArgs := CliArgs(DefaultCommand, map[], [])

  /** `arg.startsWith('--')` */
  predicate IsFlag(arg: string) {
    StartsWith(arg, "--")
  }

  /** `next && !next.startsWith('-')`: a missing or empty next word, or one
      starting with '-', is not taken as the option's value. */
  predicate TakesValue(next: string) {
    next != [] && next[0] != '-'
  }

  /** `arg.slice(2).replace(/-/g, '_')` */
  function KeyOf(arg: string): string
    requires IsFlag(arg)
  {
    DashesToUnderscores(arg[2..])
  }

  /** `result.options[key] = value` on a plain object: an assignment of a
      string or `true` to `__proto__` goes to the prototype setter, which
      ignores it. */
  function Assign(opts: map<string, OptValue>, key: string, v: OptValue): (o: map<string, OptValue>)
    ensures key != "__proto__" ==> o == opts[key := v]
    ensures key == "__proto__" ==> o == opts
  {
    if key == "__proto__" then opts else opts[key := v]
  }

  /** One turn of the loop at position i: the position the next turn starts
      at and the result so far. */
  function Step(args: seq<string>, i: nat, acc: CliArgs): (next: (nat, CliArgs))
    requires i < |args|
    ensures i < next.0 <= |args|
  {
    var arg := args[i];
    if IsFlag(arg) then
      var key := KeyOf(arg);
      if i + 1 < |args| && TakesValue(args[i + 1]) then
        (i + 2, acc.(options := Assign(acc.options, key, Text(args[i + 1]))))
      else
        (i + 1, acc.(options := Assign(acc.options, key, Flag)))
    // `!result.command` mirrors the source: the command starts as "watch"
    // and is only ever set to one of `Commands`, so it is never empty
    else if acc.command == [] || acc.command == DefaultCommand then
      if arg in Commands then (i + 1, acc.(command := arg))
      else (i + 1, acc.(args := acc.args + [arg]))
    else
      (i + 1, acc.(args := acc.args + [arg]))
  }

  function Scan(args: seq<string>, i: nat, acc: CliArgs): CliArgs
    requires i <= |args|
    decreases |args| - i
  {
    if i == |args| then acc
    else
      var next := Step(args, i, acc);
      Scan(args, next.0, next.1)
  }

  // ---------------------------------------------------------------------
  // The role of each position
  // ---------------------------------------------------------------------

  /** args[i] is consumed as the value of the option before it. A value
      never starts with '-', so it is never an option itself. */
  predicate IsValue(args: seq<string>, i: int) {
    0 < i < |args| && IsFlag(args[i - 1]) && TakesValue(args[i])
  }

  /** A word that is neither an option nor an option's value. */
  predicate IsPositional(args: seq<string>, i: int) {
    0 <= i < |args| && !IsFlag(args[i]) && !IsValue(args, i)
  }

  /** A positional word naming a sub-command other than the default. */
  predicate Chooses(args: seq<string>, i: int) {
    IsPositional(args, i) && args[i] in Commands && args[i] != DefaultCommand
  }

  /** Some position before n chooses the sub-command. */
  ghost predicate ChosenBefore(args: seq<string>, n: int) {
    exists j :: 0 <= j < n && Chooses(args, j)
  }

  /** The sub-command is the first choosing word, "watch" when there is
      none. */
  ghost predicate CommandIs(args: seq<string>, n: int, c: string) {
    || (!ChosenBefore(args, n) && c == DefaultCommand)
    || (exists j :: 0 <= j < n && Chooses(args, j) && !ChosenBefore(args, j) && args[j] == c)
  }

  /** A positional word is kept as an argument unless it is a sub-command
      name seen before any sub-command was chosen. */
  ghost predicate IsArg(args: seq<string>, i: int) {
    IsPositional(args, i) && (args[i] !in Commands || ChosenBefore(args, i))
  }

  /** The arguments among the first n positions, in order. */
  ghost function ArgsUpTo(args: seq<string>, n: nat): seq<string>
    requires n <= |args|
  {
    if n == 0 then []
    else ArgsUpTo(args, n - 1) + (if IsArg(args, n - 1) then [args[n - 1]] else [])
  }

  /** The option at position j sets `key`. */
  predicate SetsAt(args: seq<string>, j: int, key: string) {
    0 <= j < |args| && IsFlag(args[j]) && KeyOf(args[j]) == key && key != "__proto__"
  }

  /** Some position strictly between j and n sets `key`. */
  ghost predicate SetBetween(args: seq<string>, j: int, n: int, key: string) {
    exists k :: j < k < n && SetsAt(args, k, key)
  }

  /** The value the option at position j gives its key. */
  function ValueAt(args: seq<string>, j: int): OptValue
    requires 0 <= j < |args|
  {
    if IsValue(args, j + 1) then Text(args[j + 1]) else Flag
  }

  /** What holds of the result after the loop has looked at positions
      0 .. i - 1. */
  ghost predicate Invariant(args: seq<string>, i: nat, acc: CliArgs) {
    && i <= |args|
    && !IsValue(args, i)
    && CommandIs(args, i, acc.command)
    && acc.args == ArgsUpTo(args, i)
    && OptionsSoFar(args, i, acc.options)
  }

  /** The options hold exactly the keys set before position i, each with
      the value of the last option that set it. */
  ghost predicate OptionsSoFar(args: seq<string>, i: int, opts: map<string, OptValue>) {
    && (forall key :: key in opts <==> SetBetween(args, -1, i, key))
    && (forall key, j :: SetsAt(args, j, key) && j < i && !SetBetween(args, j, i, key) ==>
          key in opts && opts[key] == ValueAt(args, j))
  }

  // ---------------------------------------------------------------------
  // parseArgs
  // ---------------------------------------------------------------------

  function ParseArgs(args: seq<string>): (r: CliArgs)
    ensures r.command == DefaultCommand <==> forall i :: 0 <= i < |args| ==> !Chooses(args, i)
    ensures forall i :: Chooses(args, i) && !ChosenBefore(args, i) ==> r.command == args[i]
    ensures r.args == ArgsUpTo(args, |args|)
    ensures forall key :: key in r.options <==> exists j :: SetsAt(args, j, key)
    ensures forall key, j :: SetsAt(args, j, key) && !SetBetween(args, j, |args|, key) ==>
      key in r.options && r.options[key] == ValueAt(args, j)
  {
    ScanMeets(args, 0, Start);
    var r := Scan(args, 0, Start);
    CommandFromInvariant(args, r.command);
    r
  }

  lemma {:induction false} ScanMeets(args: seq<string>, i: nat, acc: CliArgs)
    requires Invariant(args, i, acc)
    ensures Invariant(args, |args|, Scan(args, i, acc))
    decreases |args| - i
  {
    if i < |args| {
      var next := Step(args, i, acc);
      StepKeeps(args, i, acc);
      ScanMeets(args, next.0, next.1);
    }
  }

  /** The sub-command clause of the invariant, read at the end. */
  lemma CommandFromInvariant(args: seq<string>, c: string)
    requires CommandIs(args, |args|, c)
    ensures c == DefaultCommand <==> forall i :: 0 <= i < |args| ==> !Chooses(args, i)
    ensures forall i :: Chooses(args, i) && !ChosenBefore(args, i) ==> c == args[i]
  {
    forall i | Chooses(args, i) && !ChosenBefore(args, i)
      ensures c == args[i]
    {
      var j :| 0 <= j < |args| && Chooses(args, j) && !ChosenBefore(args, j) && args[j] == c;
      if i < j {
        assert ChosenBefore(args, j);
      } else if j < i {
        assert ChosenBefore(args, i);
      }
    }
  }

  lemma StepKeeps(args: seq<string>, i: nat, acc: CliArgs)
    requires i < |args| && Invariant(args, i, acc)
    ensures Invariant(args, Step(args, i, acc).0, Step(args, i, acc).1)
  {
    if IsFlag(args[i]) {
      FlagKeeps(args, i, acc);
    } else {
      PositionalKeeps(args, i, acc);
    }
  }

  /** An option and its value, if any, change only the options. */
  lemma FlagKeeps(args: seq<string>, i: nat, acc: CliArgs)
    requires i < |args| && Invariant(args, i, acc) && IsFlag(args[i])
    ensures Invariant(args, Step(args, i, acc).0, Step(args, i, acc).1)
  {
    var next := Step(args, i, acc);
    var n, a := next.0, next.1;
    assert a.command == acc.command && a.args == acc.args;
    FlagSkipsRoles(args, i, n, acc.command);
    FlagSetsOption(args, i, n, acc.options, a.options);
  }

  /** Neither the option nor its value chooses the sub-command or is kept
      as an argument. */
  lemma FlagSkipsRoles(args: seq<string>, i: nat, n: nat, c: string)
    requires i < |args| && IsFlag(args[i]) && CommandIs(args, i, c)
    requires n == (if IsValue(args, i + 1) then i + 2 else i + 1)
    ensures !IsValue(args, n)
    ensures CommandIs(args, n, c)
    ensures ArgsUpTo(args, n) == ArgsUpTo(args, i)
  {
    assert !IsPositional(args, i) && !IsArg(args, i);
    assert ArgsUpTo(args, i + 1) == ArgsUpTo(args, i);
    if n == i + 2 {
      assert !IsPositional(args, i + 1) && !IsArg(args, i + 1);
      assert !IsFlag(args[i + 1]);
    }
    assert forall j :: i <= j < n ==> !Chooses(args, j);
    assert ChosenBefore(args, n) == ChosenBefore(args, i);
    if ChosenBefore(args, i) {
      var j :| 0 <= j < i && Chooses(args, j) && !ChosenBefore(args, j) && args[j] == c;
    }
  }

  lemma FlagSetsOption(args: seq<string>, i: nat, n: nat, opts: map<string, OptValue>, opts': map<string, OptValue>)
    requires i < |args| && IsFlag(args[i]) && OptionsSoFar(args, i, opts)
    requires n == (if IsValue(args, i + 1) then i + 2 else i + 1)
    requires opts' == Assign(opts, KeyOf(args[i]), ValueAt(args, i))
    ensures OptionsSoFar(args, n, opts')
  {
    var key := KeyOf(args[i]);
    if n == i + 2 {
      assert !IsFlag(args[i + 1]) && !SetsAt(args, i + 1, key);
    }
    forall key2 ensures key2 in opts' <==> SetBetween(args, -1, n, key2) {
      if SetBetween(args, -1, n, key2) {
        var k :| -1 < k < n && SetsAt(args, k, key2);
      }
      if key2 in opts {
        var k :| -1 < k < i && SetsAt(args, k, key2);
      }
      if key2 == key && key != "__proto__" {
        assert SetsAt(args, i, key2);
      }
    }
    forall key2, j | SetsAt(args, j, key2) && j < n && !SetBetween(args, j, n, key2)
      ensures key2 in opts' && opts'[key2] == ValueAt(args, j)
    {
      if j < i {
        if key2 == key {
          assert SetsAt(args, i, key2);
        }
        assert !SetBetween(args, j, i, key2);
      }
    }
  }

  /** A word that is not an option either chooses the sub-command or is
      kept as an argument. */
  lemma PositionalKeeps(args: seq<string>, i: nat, acc: CliArgs)
    requires i < |args| && Invariant(args, i, acc) && !IsFlag(args[i])
    ensures Invariant(args, Step(args, i, acc).0, Step(args, i, acc).1)
  {
    var a := Step(args, i, acc).1;
    assert IsPositional(args, i);
    assert !IsValue(args, i + 1);
    assert a.options == acc.options;
    forall key ensures SetBetween(args, -1, i + 1, key) == SetBetween(args, -1, i, key) {
      if SetBetween(args, -1, i + 1, key) {
        var k :| -1 < k < i + 1 && SetsAt(args, k, key);
      }
    }
    forall key, j | SetsAt(args, j, key) && j < i + 1 && !SetBetween(args, j, i + 1, key)
      ensures key in a.options && a.options[key] == ValueAt(args, j)
    {
      assert !SetBetween(args, j, i, key);
    }
    var chosen := acc.command != DefaultCommand;
    assert chosen == ChosenBefore(args, i) by {
      if ChosenBefore(args, i) {
        var j :| 0 <= j < i && Chooses(args, j) && !ChosenBefore(args, j) && args[j] == acc.command;
      }
    }
    assert ArgsUpTo(args, i + 1) == acc.args + (if IsArg(args, i) then [args[i]] else []);
    if chosen {
      assert ChosenBefore(args, i + 1);
      assert IsArg(args, i);
      var j :| 0 <= j < i && Chooses(args, j) && !ChosenBefore(args, j) && args[j] == acc.command;
      assert CommandIs(args, i + 1, a.command);
    } else if args[i] in Commands {
      assert !IsArg(args, i);
      if args[i] != DefaultCommand {
        assert Chooses(args, i) && !ChosenBefore(args, i);
        assert CommandIs(args, i + 1, a.command);
      } else {
        assert !Chooses(args, i);
        assert !ChosenBefore(args, i + 1);
      }
    } else {
      assert IsArg(args, i) && !Chooses(args, i);
      assert !ChosenBefore(args, i + 1);
    }
  }
}

/** The invocations of the help text (src/cli.js:33-37) and two quirks of
    the scan. */
module CliExamples {
  import opened JsText
  import opened Cli

  /** A word that does not start with '-' is a positional word. */
  lemma WordStep(args: seq<string>, i: nat, acc: CliArgs)
    requires i < |args| && TakesValue(args[i])
    ensures Step(args, i, acc) ==
      (i + 1, if (acc.command == [] || acc.command == DefaultCommand) && args[i] in Commands
              then acc.(command := args[i]) else acc.(args := acc.args + [args[i]]))
  {
    assert !IsFlag(args[i]) by {
      if |args[i]| >= 2 {
        assert args[i][..2][0] == args[i][0];
      }
    }
  }

  /** An option followed by a word that does not start with '-' takes it
      as its value. */
  lemma ValueStep(args: seq<string>, i: nat, acc: CliArgs)
    requires i + 1 < |args| && IsFlag(args[i]) && TakesValue(args[i + 1])
    ensures Step(args, i, acc) == (i + 2, acc.(options := Assign(acc.options, KeyOf(args[i]), Text(args[i + 1]))))
  {
  }

  /** `--a-b v` with plain words a, b and v sets `a_b` to v. */
  lemma OptionStep(args: seq<string>, i: nat, acc: CliArgs, a: string, b: string)
    requires i + 1 < |args| && args[i] == "--" + a + "-" + b && TakesValue(args[i + 1])
    requires '-' !in a && '-' !in b && a != [] && a[0] != '_'
    ensures Step(args, i, acc) == (i + 2, acc.(options := acc.options[a + "_" + b := Text(args[i + 1])]))
  {
    var arg := args[i];
    assert arg[..2] == "--";
    var k := KeyOf(arg);
    assert arg[2..] == a + "-" + b;
    assert (a + "_" + b)[0] != "__proto__"[0];
    assert k == a + "_" + b by {
      forall j | 0 <= j < |k| ensures k[j] == (a + "_" + b)[j] {
        if j < |a| {
          assert arg[2..][j] == a[j];
          assert a[j] in a;
        } else if |a| < j {
          assert arg[2..][j] == b[j - |a| - 1];
          assert b[j - |a| - 1] in b;
        }
      }
    }
  }

  /** `--a v` with plain words a and v sets `a` to v. */
  lemma PlainOptionStep(args: seq<string>, i: nat, acc: CliArgs, a: string)
    requires i + 1 < |args| && args[i] == "--" + a && TakesValue(args[i + 1])
    requires '-' !in a && a != "__proto__"
    ensures Step(args, i, acc) == (i + 2, acc.(options := acc.options[a := Text(args[i + 1])]))
  {
    PlainKey(a);
  }

  /** No sub-command name has 1, 2, 3, 6 or more than 8 characters. */
  lemma NotACommand(w: string)
    requires |w| !in {4, 5, 7, 8}
    ensures w !in Commands
  {
  }

  /** `claudelink` starts the watcher. */
  lemma NoArguments()
    ensures ParseArgs([]) == CliArgs("watch", map[], [])
  {
  }

  /** `claudelink watch --watch-dir /tmp` */
  lemma WatchDir()
    ensures ParseArgs(["watch", "--watch-dir", "/tmp"]) == CliArgs("watch", map["watch_dir" := Text("/tmp")], [])
  {
    var args := ["watch", "--watch-dir", "/tmp"];
    assert Commands[0] == args[0];
    WordStep(args, 0, Start);
    WatchDirOption();
    OptionStep(args, 1, Start, "watch", "dir");
  }

  lemma WatchDirOption()
    ensures "--watch-dir" == "--" + "watch" + "-" + "dir"
    ensures '-' !in "watch" && '-' !in "dir"
    ensures "watch" + "_" + "dir" == "watch_dir"
  {
    var a, b := "watch", "dir";
    assert forall k :: 0 <= k < |a| ==> a[k] != '-';
    assert forall k :: 0 <= k < |b| ==> b[k] != '-';
  }

  /** `claudelink exec command.claude.json` */
  lemma ExecFile()
    ensures ParseArgs(["exec", "command.claude.json"]) == CliArgs("exec", map[], ["command.claude.json"])
  {
    var args := ["exec", "command.claude.json"];
    assert Commands[1] == args[0];
    WordStep(args, 0, Start);
    NotACommand(args[1]);
    WordStep(args, 1, CliArgs("exec", map[], []));
  }

  /** `claudelink validate "ls -la"` */
  lemma ValidateWords()
    ensures ParseArgs(["validate", "ls -la"]) == CliArgs("validate", map[], ["ls -la"])
  {
    var args := ["validate", "ls -la"];
    assert Commands[2] == args[0];
    WordStep(args, 0, Start);
    NotACommand(args[1]);
    WordStep(args, 1, CliArgs("validate", map[], []));
  }

  /** `--confirm exec f`: "exec" does not start with '-', so it is taken
      as the value of `--confirm` and the watcher stays the sub-command. */
  lemma ConfirmSwallowsCommand()
    ensures ParseArgs(["--confirm", "exec", "f"]) == CliArgs("watch", map["confirm" := Text("exec")], ["f"])
  {
    var args := ["--confirm", "exec", "f"];
    assert args[0] == "--" + "confirm";
    PlainOptionStep(args, 0, Start, "confirm");
    NotACommand(args[2]);
    WordStep(args, 2, CliArgs("watch", map["confirm" := Text("exec")], []));
  }

  lemma ProtoKey()
    ensures "--__proto__" == "--" + "__proto__" && '-' !in "__proto__"
  {
    var a := "__proto__";
    assert forall k :: 0 <= k < |a| ==> a[k] != '-';
  }

  /** `--a` with a plain word a names the key a. */
  lemma PlainKey(a: string)
    requires '-' !in a
    ensures IsFlag("--" + a) && KeyOf("--" + a) == a
  {
    var arg := "--" + a;
    assert arg[..2] == "--";
    var k := KeyOf(arg);
    assert arg[2..] == a;
    forall j | 0 <= j < |k| ensures k[j] == a[j] {
      assert a[j] in a;
    }
  }

  /** `--__proto__ x`: the value is consumed but no option is set. */
  lemma ProtoIgnored()
    ensures ParseArgs(["--__proto__", "x"]) == Start
  {
    var args := ["--__proto__", "x"];
    ProtoKey();
    PlainKey("__proto__");
    ValueStep(args, 0, Start);
    assert Assign(map[], "__proto__", Text("x")) == map[];
  }

  /** Once a sub-command other than "watch" is chosen, later sub-command
      names are plain arguments; before that, "watch" can still be
      replaced. */
  lemma LaterCommandsAreArguments()
    ensures ParseArgs(["watch", "test", "help"]) == CliArgs("test", map[], ["help"])
  {
    var args := ["watch", "test", "help"];
    assert Commands[0] == args[0] && Commands[3] == args[1] && Commands[5] == args[2];
    WordStep(args, 0, Start);
    WordStep(args, 1, Start);
    WordStep(args, 2, CliArgs("test", map[], []));
  }
}
