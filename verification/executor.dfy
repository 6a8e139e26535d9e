/**
 * The execution gate and the shaping of its result (`execute`,
 * src/index.js:88-141). The child process is not run: what it does is an
 * input, `Spawn` — the data events in arrival order and the event that
 * settled the promise — together with the clock difference.
 */
module Executor {
  import opened Wrappers
  import opened JsText
  import opened Validator

  /** One `data` event of the child's stdout or stderr, already decoded. */
  datatype Chunk = Out(text: string) | Err(text: string)

  /** The first of the child's `close` (with its exit code, `null` when it
      was killed by a signal) and `error` events. */
  datatype Settle = Closed(code: Option<int>) | SpawnError(message: string)

  /** What the child did. `SpawnThrew` is `spawn` throwing synchronously (it
      rejects some arguments), which rejects the promise `execute` returns. */
  datatype Spawn =
    | Ran(chunks: seq<Chunk>, settle: Settle, elapsed: int)
    | SpawnThrew(message: string)

  /** Which of the `onStdout`/`onStderr` callbacks the caller passed. */
  datatype Listeners = Listeners(onStdout: bool, onStderr: bool)

  /** The object `execute` resolves to. */
  datatype ExecResult =
    | Blocked(reason: string)                                          // { success: false, error, exitCode: -1 }
    | Exited(code: Option<int>, stdout: string, stderr: string, duration: int)
    | Errored(message: string, duration: int)                          // { success: false, error, exitCode: -1, duration }
  {
    function Success(): bool {
      Exited? && code == Some(0)
    }

    /** `exitCode`; `None` is `null`. */
    function ExitCode(): Option<int> {
      if Exited? then code else Some(-1)
    }

    /** `error`; `None` is a result without that field. */
    function Error(): Option<string> {
      match this
      case Blocked(reason) => Some(BlockedPrefix + reason)
      case Exited(_, _, _, _) => None
      case Errored(message, _) => Some(message)
    }

    /** `duration`; a blocked command has none. */
    function Duration(): Option<int> {
      match this
      case Blocked(_) => None
      case Exited(_, _, _, d) => Some(d)
      case Errored(_, d) => Some(d)
    }
  }

  const BlockedPrefix: string := "Command blocked: "

  /** A call of `execute`: the settled result or the rejection message,
      whether a child was spawned, and the chunks handed to the callbacks. */
  datatype Run = Run(outcome: Result, spawned: bool, delivered: seq<Chunk>)

  datatype Result = Resolved(result: ExecResult) | Rejected(message: string)

  /** The text of one stream: its chunks' texts in arrival order. */
  function Stream(chunks: seq<Chunk>, stdout: bool): string {
    if chunks == [] then []
    else (if chunks[0].Out? == stdout then chunks[0].text else []) + Stream(chunks[1..], stdout)
  }

  /** The chunks whose stream has a callback, in arrival order. */
  function Delivered(chunks: seq<Chunk>, ls: Listeners): (d: seq<Chunk>)
    ensures |d| <= |chunks|
    ensures forall c :: c in d ==> c in chunks && (if c.Out? then ls.onStdout else ls.onStderr)
  {
    if chunks == [] then []
    else
      var c := chunks[0];
      (if (c.Out? && ls.onStdout) || (c.Err? && ls.onStderr) then [c] else []) + Delivered(chunks[1..], ls)
  }

  function Execute(cmd: string, ls: Listeners, sp: Spawn): (run: Run)
    ensures run.outcome.Resolved? && run.outcome.result.Blocked? <==> ValidateCommand(cmd).Invalid?
    ensures ValidateCommand(cmd).Invalid? ==>
      run.outcome.result.reason == ValidateCommand(cmd).reason && !run.spawned && run.delivered == []
    ensures ValidateCommand(cmd).Valid? ==> run.spawned
    ensures ValidateCommand(cmd).Valid? && sp.SpawnThrew? ==> run.outcome == Rejected(sp.message) && run.delivered == []
    ensures ValidateCommand(cmd).Valid? && sp.Ran? ==>
      && run.outcome.Resolved?
      && run.delivered == Delivered(sp.chunks, ls)
      && run.outcome.result.Duration() == Some(sp.elapsed)
    ensures ValidateCommand(cmd).Valid? && sp.Ran? && sp.settle.Closed? ==>
      var r := run.outcome.result;
      && r.Exited? && r.ExitCode() == sp.settle.code
      && (r.Success() <==> sp.settle.code == Some(0))
      && Trimmed(r.stdout) && SpaceStripped(Stream(sp.chunks, true), r.stdout)
      && Trimmed(r.stderr) && SpaceStripped(Stream(sp.chunks, false), r.stderr)
    ensures ValidateCommand(cmd).Valid? && sp.Ran? && sp.settle.SpawnError? ==>
      var r := run.outcome.result;
      && !r.Success() && r.ExitCode() == Some(-1) && r.Error() == Some(sp.settle.message)
  {
    var v := ValidateCommand(cmd);
    if v.Invalid? then Run(Resolved(Blocked(v.reason)), false, [])
    else
      match sp
      case SpawnThrew(message) => Run(Rejected(message), true, [])
      case Ran(chunks, settle, elapsed) =>
        var result := match settle
          case Closed(code) => Exited(code, Trim(Stream(chunks, true)), Trim(Stream(chunks, false)), elapsed)
          case SpawnError(message) => Errored(message, elapsed);
        Run(Resolved(result), true, Delivered(chunks, ls))
  }

  /** Every result reports success exactly when its exit code is 0: blocked
      and failed-to-spawn results carry -1. */
  lemma SuccessIffZero(r: ExecResult)
    ensures r.Success() <==> r.ExitCode() == Some(0)
  {
  }

  /** A blocked result says so: its error starts with "Command blocked: "
      and then gives the rule's reason. */
  lemma BlockedError(cmd: string, ls: Listeners, sp: Spawn)
    requires ValidateCommand(cmd).Invalid?
    ensures var r := Execute(cmd, ls, sp).outcome.result;
      && !r.Success() && r.ExitCode() == Some(-1)
      && r.Error().Some? && StartsWith(r.Error().value, BlockedPrefix)
      && r.Error().value[|BlockedPrefix|..] == ValidateCommand(cmd).reason
  {
    var e := BlockedPrefix + ValidateCommand(cmd).reason;
    assert e[..|BlockedPrefix|] == BlockedPrefix;
    assert e[|BlockedPrefix|..] == ValidateCommand(cmd).reason;
  }

  /** `stdout += data` on each event builds the same text as reading the
      chunks in order. */
  lemma {:induction false} StreamAppend(chunks: seq<Chunk>, c: Chunk, stdout: bool)
    ensures Stream(chunks + [c], stdout) == Stream(chunks, stdout) + (if c.Out? == stdout then c.text else [])
  {
    if chunks != [] {
      assert (chunks + [c])[1..] == chunks[1..] + [c];
      StreamAppend(chunks[1..], c, stdout);
    } else {
      assert [c][1..] == [];
    }
  }

  /** With both callbacks passed, every chunk is handed over, in order. */
  lemma {:induction false} AllDelivered(chunks: seq<Chunk>)
    ensures Delivered(chunks, Listeners(true, true)) == chunks
  {
    if chunks != [] {
      AllDelivered(chunks[1..]);
    }
  }

  /** The callbacks see exactly the stream's text: the delivered chunks of
      a stream with a callback concatenate to that stream. */
  lemma {:induction false} DeliveredStream(chunks: seq<Chunk>, ls: Listeners, stdout: bool)
    requires if stdout then ls.onStdout else ls.onStderr
    ensures Stream(Delivered(chunks, ls), stdout) == Stream(chunks, stdout)
  {
    if chunks != [] {
      var c := chunks[0];
      DeliveredStream(chunks[1..], ls, stdout);
      var head := if (c.Out? && ls.onStdout) || (c.Err? && ls.onStderr) then [c] else [];
      StreamConcat(head, Delivered(chunks[1..], ls), stdout);
    }
  }

  lemma {:induction false} StreamConcat(a: seq<Chunk>, b: seq<Chunk>, stdout: bool)
    ensures Stream(a + b, stdout) == Stream(a, stdout) + Stream(b, stdout)
  {
    if a != [] {
      assert (a + b)[1..] == a[1..] + b;
      StreamConcat(a[1..], b, stdout);
    } else {
      assert a + b == b;
    }
  }
}

/** The runs of tests/run-tests.js:162-181, with the child's behaviour as
    the test expects it. */
module ExecutorTestRuns {
  import opened Wrappers
  import opened JsText
  import opened Validator
  import opened ValidatorVectors
  import opened ValidatorTestCommands
  import opened Executor

  lemma HelloTrimmed()
    ensures Trim("hello\n") == "hello"
  {
    var t := Trim("hello\n");
    assert StrippedAt("hello\n", "hello", 0) by {
      assert "hello\n"[5..] == "\n";
    }
    TrimUnique("hello\n", "hello");
  }

  /** `echo hello` prints "hello\n" and exits 0: stdout is "hello". */
  lemma EchoRun(ls: Listeners, elapsed: int)
    ensures var r := Execute("echo hello", ls, Ran([Out("hello\n")], Closed(Some(0)), elapsed)).outcome.result;
      r.Success() && r.stdout == "hello" && r.ExitCode() == Some(0)
  {
    EchoHelloAllowed();
    HelloTrimmed();
    assert Stream([Out("hello\n")], true) == "hello\n";
  }

  /** `exit 42` reports exit code 42 and no success. */
  lemma ExitRun(ls: Listeners, elapsed: int)
    ensures var r := Execute("exit 42", ls, Ran([], Closed(Some(42)), elapsed)).outcome.result;
      !r.Success() && r.ExitCode() == Some(42)
  {
    NoSlashColonPipe("exit 42");
  }

  /** `rm -rf /` spawns nothing and its error mentions "blocked". */
  lemma BlockedRun(ls: Listeners, sp: Spawn)
    ensures var run := Execute("rm -rf /", ls, sp);
      && !run.spawned && run.outcome.Resolved? && !run.outcome.result.Success()
      && run.outcome.result.Error() == Some(BlockedPrefix + Reason(RmRoot))
      && Occurs(run.outcome.result.Error().value, "blocked")
  {
    RmSlashRefused();
    BlockedMentioned(Reason(RmRoot));
  }

  /** Every blocked error contains the word "blocked". */
  lemma BlockedMentioned(reason: string)
    ensures Occurs(BlockedPrefix + reason, "blocked")
  {
    var e := BlockedPrefix + reason;
    assert Lit(e, 8, "blocked");
    LitIsWord(e, 8, "blocked");
  }
}
