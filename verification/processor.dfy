/**
 * `processFile` (src/index.js:175-225): classify the file, parse it, run
 * its command through the gate, log the run and archive the file. The
 * log lines, the spawn and the rename are recorded as effects, in order;
 * reading the file, the clock and the child process are inputs.
 */
module Processor {
  import opened Wrappers
  import opened JsText
  import opened JsonValue
  import opened Validator
  import opened Descriptor
  import opened Executor

  /** The fields of one log line, besides the `timestamp` `log` adds. */
  datatype LogEntry =
    | Failure(file: string, error: string)
    | Execution(file: string, command: Json, exitCode: Option<int>, duration: Option<int>, success: bool)

  datatype Effect =
    | Spawned(command: string)           // spawn('bash', ['-c', command]) was called
    | Logged(stamp: string, entry: LogEntry)
    | Moved(from: string, to: string)    // renameSync(from, to)

  /** What the promise `processFile` returns settles to. */
  datatype Outcome =
    | Skipped                            // { skipped: true, reason: 'Not a command file' }
    | Failed(error: string)              // { success: false, error }
    | Executed(result: ExecResult)       // the result of `execute`
    | Threw(message: string)             // the promise rejects

  /** Everything the call takes from outside: the file's content, the
      values of `randomUUID()` and `toISOString()` used as defaults, the
      child's behaviour, the log line's timestamp and `Date.now()` at the
      rename. */
  datatype World = World(read: Read, uuid: string, isoNow: string, spawn: Spawn, logStamp: string, nowMs: nat)

  datatype Processed = Processed(outcome: Outcome, effects: seq<Effect>)

  const NoCommandLogged: string := "No command found"
  const NoCommandReturned: string := "No command in file"

  // ---------------------------------------------------------------------
  // Paths
  // ---------------------------------------------------------------------

  /** Number of '/' characters at the end of `p`. */
  function TrailingSlashes(p: string): (n: nat)
    ensures n <= |p|
    ensures forall k :: |p| - n <= k < |p| ==> p[k] == '/'
    ensures n < |p| ==> p[|p| - n - 1] != '/'
  {
    if p != [] && p[|p| - 1] == '/' then 1 + TrailingSlashes(p[..|p| - 1]) else 0
  }

  /** Position just after the last '/' of `p`, 0 when there is none. */
  function SegmentStart(p: string): (i: nat)
    ensures i <= |p|
    ensures i > 0 ==> p[i - 1] == '/'
    ensures forall k :: i <= k < |p| ==> p[k] != '/'
  {
    if p == [] || p[|p| - 1] == '/' then |p| else SegmentStart(p[..|p| - 1])
  }

  /** `path.basename(p)` on POSIX paths: the last segment, trailing
      slashes ignored. */
  function Basename(p: string): (b: string)
    ensures '/' !in b
  {
    var q := p[..|p| - TrailingSlashes(p)];
    q[SegmentStart(q)..]
  }

  /** The base name is the part of the path after its last '/', once the
      trailing slashes are dropped: a slash-free tail of the path that is
      either all of it or preceded by '/'. */
  lemma BasenameIsLastSegment(p: string)
    ensures var q := p[..|p| - TrailingSlashes(p)]; var b := Basename(p);
      && (q == [] || q[|q| - 1] != '/')
      && forall k :: |q| <= k < |p| ==> p[k] == '/'
    ensures var q := p[..|p| - TrailingSlashes(p)]; var b := Basename(p);
      && '/' !in b
      && |b| <= |q| && b == q[|q| - |b|..]
      && (|b| < |q| ==> q[|q| - |b| - 1] == '/')
  {
  }

  /** `path.join(dir, name)` for a directory in normal form without a
      trailing '/' and a plain file name. */
  function JoinPath(dir: string, name: string): string {
    dir + "/" + name
  }

  /** The file name comes back out of the path it was joined into. */
  lemma BasenameOfJoin(dir: string, name: string)
    requires name != [] && '/' !in name
    ensures Basename(JoinPath(dir, name)) == name
  {
    var p := JoinPath(dir, name);
    assert p[|p| - 1] == name[|name| - 1];
    assert TrailingSlashes(p) == 0;
    assert p[..|p|] == p;
    SegmentOfJoin(dir + "/", name);
  }

  lemma {:induction false} SegmentOfJoin(a: string, name: string)
    requires a != [] && a[|a| - 1] == '/' && '/' !in name
    ensures SegmentStart(a + name) == |a|
    decreases |name|
  {
    var p := a + name;
    if name == [] {
      assert p == a;
    } else {
      assert p[|p| - 1] == name[|name| - 1];
      assert p[..|p| - 1] == a + name[..|name| - 1];
      SegmentOfJoin(a, name[..|name| - 1]);
    }
  }

  /** `path.join(processedDir, `${Date.now()}-${filename}`)` */
  function ArchivePath(dir: string, nowMs: nat, name: string): string {
    JoinPath(dir, Decimal(nowMs) + "-" + name)
  }

  /** Archived files never collide: the archive name determines both the
      time and the original name. */
  lemma ArchiveInjective(dir: string, m: nat, f: string, n: nat, g: string)
    requires ArchivePath(dir, m, f) == ArchivePath(dir, n, g)
    ensures m == n && f == g
  {
    var a, b := Decimal(m), Decimal(n);
    var s, t := a + "-" + f, b + "-" + g;
    assert s == t by {
      assert s == ArchivePath(dir, m, f)[|dir| + 1..];
      assert t == ArchivePath(dir, n, g)[|dir| + 1..];
    }
    DigitsThenDash(a, f, b, g);
    assert a == s[..|a|] && b == t[..|b|];
    DecimalInjective(m, n);
    assert f == s[|a| + 1..] && g == t[|b| + 1..];
  }

  /** A run of digits ends where the '-' after it stands. */
  lemma DigitsThenDash(a: string, f: string, b: string, g: string)
    requires forall k :: 0 <= k < |a| ==> IsDigit(a[k])
    requires forall k :: 0 <= k < |b| ==> IsDigit(b[k])
    requires a + "-" + f == b + "-" + g
    ensures |a| == |b|
  {
    var s := a + "-" + f;
    assert s[|a|] == '-' && s[|b|] == '-';
  }

  // ---------------------------------------------------------------------
  // processFile
  // ---------------------------------------------------------------------

  function ProcessFile(filePath: string, processedDir: string, w: World): (p: Processed)
    ensures var name := Basename(filePath);
      && (p.outcome == Skipped <==> !IsCommandFile(name))
      && (p.outcome == Skipped ==> p.effects == [])
    ensures var name := Basename(filePath); var parsed := ParseCommandFile(w.read, w.uuid, w.isoNow);
      IsCommandFile(name) && parsed.ParseError? && parsed.error != [] ==>
        p == Processed(Failed(parsed.error), [Logged(w.logStamp, Failure(name, parsed.error))])
    ensures var name := Basename(filePath); var parsed := ParseCommandFile(w.read, w.uuid, w.isoNow);
      IsCommandFile(name) && ((parsed.ParseError? && parsed.error == []) || (parsed.Parsed? && !Truthy(parsed.command))) ==>
        p == Processed(Failed(NoCommandReturned), [Logged(w.logStamp, Failure(name, NoCommandLogged))])
    ensures var name := Basename(filePath); var parsed := ParseCommandFile(w.read, w.uuid, w.isoNow);
      IsCommandFile(name) && parsed.Parsed? && Truthy(parsed.command)
      && (!Convertible(parsed.description) || !Convertible(parsed.command)) ==>
        p == Processed(Threw(ConvertMessage), [])
    ensures var name := Basename(filePath); var parsed := ParseCommandFile(w.read, w.uuid, w.isoNow);
      IsCommandFile(name) && parsed.Parsed? && Truthy(parsed.command)
      && Convertible(parsed.description) && Convertible(parsed.command) ==>
        p == RunCommand(filePath, processedDir, name, parsed.command, ToText(parsed.command).value, w)
  {
    var name := Basename(filePath);
    if !IsCommandFile(name) then Processed(Skipped, [])
    else
      var parsed := ParseCommandFile(w.read, w.uuid, w.isoNow);
      if parsed.ParseError? && parsed.error != [] then
        Processed(Failed(parsed.error), [Logged(w.logStamp, Failure(name, parsed.error))])
      else if parsed.ParseError? || !Truthy(parsed.command) then
        Processed(Failed(NoCommandReturned), [Logged(w.logStamp, Failure(name, NoCommandLogged))])
      else
        // the console lines interpolate the description and the command
        var description := ToText(parsed.description);
        var cmd := ToText(parsed.command);
        if description.None? || cmd.None? then Processed(Threw(ConvertMessage), [])
        else RunCommand(filePath, processedDir, name, parsed.command, cmd.value, w)
  }

  /** `{"command": "ls", "description": {"toString": 1}}`: printing the
      description throws, so the call rejects before anything is spawned,
      logged or moved. */
  lemma UnprintableDescription(filePath: string, processedDir: string, w: World)
    requires IsCommandFile(Basename(filePath))
    requires w.read == Content(Object(map["command" := Str("ls"), "description" := Object(map["toString" := Number(1)])]))
    ensures ProcessFile(filePath, processedDir, w) == Processed(Threw(ConvertMessage), [])
  {
    var parsed := ParseCommandFile(w.read, w.uuid, w.isoNow);
    assert parsed.description == Object(map["toString" := Number(1)]);
  }

  /** The second half of `processFile`, once a command was found and
      printed: execute its text `cmd`, log the result and archive the
      file. */
  function RunCommand(filePath: string, processedDir: string, name: string, command: Json, cmd: string, w: World): (p: Processed)
    ensures var o := Execute(cmd, Listeners(false, false), w.spawn).outcome;
      && (o.Resolved? ==> p.outcome == Executed(o.result))
      && (o.Rejected? ==> p.outcome == Threw(o.message))
    ensures p.outcome.Executed? ==>
      var r := p.outcome.result;
      p.effects == (if ValidateCommand(cmd).Valid? then [Spawned(cmd)] else [])
        + [Logged(w.logStamp, Execution(name, command, r.ExitCode(), r.Duration(), r.Success())),
           Moved(filePath, ArchivePath(processedDir, w.nowMs, name))]
    ensures p.outcome.Threw? ==> p.effects == [Spawned(cmd)]
    ensures forall k :: 0 <= k < |p.effects| && p.effects[k].Spawned? ==> k == 0 && p.effects[k].command == cmd
  {
    var run := Execute(cmd, Listeners(false, false), w.spawn);
    SpawnsIffValid(cmd, w.spawn);
    var spawned := if run.spawned then [Spawned(cmd)] else [];
    match run.outcome
    case Rejected(message) => Processed(Threw(message), spawned)
    case Resolved(r) =>
      var entry := Execution(name, command, r.ExitCode(), r.Duration(), r.Success());
      Processed(Executed(r), spawned + [Logged(w.logStamp, entry), Moved(filePath, ArchivePath(processedDir, w.nowMs, name))])
  }

  /** `spawn` is called exactly for a command that passes validation. */
  lemma SpawnsIffValid(cmd: string, sp: Spawn)
    ensures Execute(cmd, Listeners(false, false), sp).spawned <==> ValidateCommand(cmd).Valid?
  {
  }

  /** The gate decides between a blocked result and a spawn: the result is
      blocked exactly when validation fails, `spawn` is called exactly when
      it is not, and the call rejects exactly when `spawn` throws. */
  lemma RunGate(filePath: string, processedDir: string, name: string, command: Json, cmd: string, w: World)
    ensures var p := RunCommand(filePath, processedDir, name, command, cmd, w);
      && (p.outcome.Executed? || p.outcome.Threw?)
      && (p.outcome.Threw? <==> ValidateCommand(cmd).Valid? && w.spawn.SpawnThrew?)
      && (p.outcome.Executed? ==>
            && (p.outcome.result.Blocked? <==> ValidateCommand(cmd).Invalid?)
            && (p.effects[0].Spawned? <==> !p.outcome.result.Blocked?))
  {
  }

  function LogCount(effects: seq<Effect>): nat {
    if effects == [] then 0 else (if effects[0].Logged? then 1 else 0) + LogCount(effects[1..])
  }

  predicate MovesFile(effects: seq<Effect>) {
    exists e :: e in effects && e.Moved?
  }

  /** Every call that gets past classification and does not reject logs
      exactly one line; skipped and rejected calls log nothing. */
  lemma OneLogLine(filePath: string, processedDir: string, w: World)
    ensures var p := ProcessFile(filePath, processedDir, w);
      LogCount(p.effects) == (if p.outcome.Skipped? || p.outcome.Threw? then 0 else 1)
  {
    var name := Basename(filePath);
    var parsed := ParseCommandFile(w.read, w.uuid, w.isoNow);
    if IsCommandFile(name) && parsed.Parsed? && Truthy(parsed.command) && Convertible(parsed.description) && Convertible(parsed.command) {
      RunLogsOnce(filePath, processedDir, name, parsed.command, ToText(parsed.command).value, w);
    }
  }

  lemma RunLogsOnce(filePath: string, processedDir: string, name: string, command: Json, cmd: string, w: World)
    requires ToText(command) == Some(cmd)
    ensures var p := RunCommand(filePath, processedDir, name, command, cmd, w);
      LogCount(p.effects) == (if p.outcome.Threw? then 0 else 1)
  {
    var p := RunCommand(filePath, processedDir, name, command, cmd, w);
    var es := p.effects;
    if p.outcome.Executed? {
      var n := |es| - 2;
      LogCountSplit(es[..n], es[n..]);
      assert es == es[..n] + es[n..];
      assert es[n..][1..][1..] == [];
      assert n == 0 || es[..n][1..] == [];
    }
  }

  lemma {:induction false} LogCountSplit(a: seq<Effect>, b: seq<Effect>)
    ensures LogCount(a + b) == LogCount(a) + LogCount(b)
  {
    if a != [] {
      assert (a + b)[1..] == a[1..] + b;
      LogCountSplit(a[1..], b);
    } else {
      assert a + b == b;
    }
  }

  /** The file is archived exactly when its command was handed to
      `execute` and the promise resolved, blocked or not, failed or not. */
  lemma MovedIffExecuted(filePath: string, processedDir: string, w: World)
    ensures var p := ProcessFile(filePath, processedDir, w);
      MovesFile(p.effects) <==> p.outcome.Executed?
  {
    var p := ProcessFile(filePath, processedDir, w);
    if p.outcome.Executed? {
      assert p.effects[|p.effects| - 1] in p.effects;
    } else if p.outcome.Threw? && p.effects != [] {
      assert p.effects == [p.effects[0]];
    }
  }

  /** A blocked command is logged and archived like any other, and no
      process is spawned for it. */
  lemma BlockedIsArchived(filePath: string, processedDir: string, w: World)
    requires ProcessFile(filePath, processedDir, w).outcome.Executed?
    requires ProcessFile(filePath, processedDir, w).outcome.result.Blocked?
    ensures var p := ProcessFile(filePath, processedDir, w);
      && p.effects == [p.effects[0], p.effects[1]]
      && p.effects[1] == Moved(filePath, ArchivePath(processedDir, w.nowMs, Basename(filePath)))
      && !p.effects[0].Spawned?
      && p.effects[0].Logged? && p.effects[0].entry.Execution? && !p.effects[0].entry.success
      && p.effects[0].entry.file == Basename(filePath) && p.effects[0].entry.exitCode == Some(-1)
  {
  }
}
