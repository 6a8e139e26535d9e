/**
 * The watcher's bookkeeping (src/watcher.js:32, 46-86) as a sequential
 * state machine. A state records the names in the `processing` set, the
 * 100 ms timers scheduled and not yet fired (in firing order), and the
 * `_processFile` calls that have started and not yet finished. The
 * directory watch, the timers and the file system are not run: each event,
 * timer and completion is a transition, and whether the file still exists
 * when a timer fires is an input.
 */
module FileWatcher {
  import opened Wrappers
  import opened Descriptor
  import opened Processor

  datatype WatchState = WatchState(processing: set<string>, pending: seq<string>, running: multiset<string>)

  /** A new watcher: `this.processing = new Set()`, nothing scheduled or
      running. */
  const Idle: WatchState := WatchState({}, [], multiset{})

  /** `eventType === 'rename' && filename && this.link.isCommandFile(filename)`:
      a missing or empty name is falsy. */
  predicate Considered(eventType: string, filename: Option<string>) {
    eventType == "rename" && filename.Some? && filename.value != [] && IsCommandFile(filename.value)
  }

  /** The `fs.watch` callback: a considered name that is not in flight gets
      a timer; everything else is dropped. */
  function OnEvent(w: WatchState, eventType: string, filename: Option<string>): (w': WatchState)
    ensures w'.processing == w.processing && w'.running == w.running
    ensures |w.pending| <= |w'.pending| <= |w.pending| + 1 && w'.pending[..|w.pending|] == w.pending
    ensures |w'.pending| == |w.pending| + 1 <==> Considered(eventType, filename) && filename.value !in w.processing
    ensures |w'.pending| == |w.pending| + 1 ==> w'.pending[|w.pending|] == filename.value
  {
    if Considered(eventType, filename) && filename.value !in w.processing then
      w.(pending := w.pending + [filename.value])
    else w
  }

  /** The start of `_processFile`: the name goes into `processing` before
      `processFile` is awaited. */
  function Begin(w: WatchState, name: string): (w': WatchState)
    ensures name in w'.processing
    ensures forall other :: other != name ==> (other in w'.processing <==> other in w.processing)
    ensures w'.running[name] == w.running[name] + 1
    ensures forall other :: other != name ==> w'.running[other] == w.running[other]
    ensures w'.pending == w.pending
  {
    w.(processing := w.processing + {name}, running := w.running + multiset{name})
  }

  /** The end of `_processFile`: whether `processFile` resolved or threw
      (the throw is caught and logged), the name leaves `processing`. The
      state change does not depend on `settled`; it is a parameter only so
      that both outcomes visibly end the same way. */
  function Finish(w: WatchState, name: string, settled: Outcome): (w': WatchState)
    requires name in w.running
    ensures name !in w'.processing
    ensures forall other :: other != name ==> (other in w'.processing <==> other in w.processing)
    ensures w'.running[name] == w.running[name] - 1
    ensures forall other :: other != name ==> w'.running[other] == w.running[other]
    ensures w'.pending == w.pending
  {
    w.(processing := w.processing - {name}, running := w.running - multiset{name})
  }

  /** The oldest timer fires: if the file still exists (`existsSync`),
      `_processFile` starts, with no look at `processing`. */
  function OnTimer(w: WatchState, present: bool): (w': WatchState)
    requires w.pending != []
    ensures w'.pending == w.pending[1..]
    ensures present ==> w'.running[w.pending[0]] == w.running[w.pending[0]] + 1 && w.pending[0] in w'.processing
    ensures !present ==> w'.running == w.running && w'.processing == w.processing
    ensures forall other :: other != w.pending[0] ==>
      (other in w'.processing <==> other in w.processing) && w'.running[other] == w.running[other]
  {
    var name := w.pending[0];
    var w1 := w.(pending := w.pending[1..]);
    if present then Begin(w1, name) else w1
  }

  /** The entries of a directory listing that are command files, in
      listing order. */
  function CommandFiles(listing: seq<string>): (names: seq<string>)
    ensures forall x :: x in names <==> x in listing && IsCommandFile(x)
    ensures |names| <= |listing|
  {
    if listing == [] then []
    else (if IsCommandFile(listing[0]) then [listing[0]] else []) + CommandFiles(listing[1..])
  }

  /** `_scanExisting`: every command file of the listing is handed to
      `_processFile`, in listing order, whether or not it is in flight
      already. The second component is the names in the order the calls
      start. */
  function ScanExisting(w: WatchState, listing: seq<string>): (r: (WatchState, seq<string>))
    ensures r.1 == CommandFiles(listing)
    ensures r.0.processing == w.processing + set x | x in listing && IsCommandFile(x)
    ensures r.0.running == w.running + multiset(r.1)
    ensures r.0.pending == w.pending
    decreases |listing|
  {
    if listing == [] then (w, [])
    else
      var name := listing[0];
      var w1 := if IsCommandFile(name) then Begin(w, name) else w;
      var rest := ScanExisting(w1, listing[1..]);
      (rest.0, (if IsCommandFile(name) then [name] else []) + rest.1)
  }

  /** Filtering a listing piece by piece gives the same names in the same
      order. */
  lemma {:induction false} CommandFilesConcat(a: seq<string>, b: seq<string>)
    ensures CommandFiles(a + b) == CommandFiles(a) + CommandFiles(b)
  {
    if a != [] {
      assert (a + b)[1..] == a[1..] + b;
      CommandFilesConcat(a[1..], b);
    } else {
      assert a + b == b;
    }
  }

  // ---------------------------------------------------------------------
  // Duplicate starts
  // ---------------------------------------------------------------------

  /** Two `rename` events for the same file within the 100 ms delay both
      pass the `processing` check, since the name is added only when the
      first timer fires; when both timers find the file, `_processFile`
      runs twice for it. */
  lemma DoubleStart(w: WatchState, f: string)
    requires f != [] && IsCommandFile(f) && f !in w.processing && w.pending == []
    ensures var w1 := OnEvent(OnEvent(w, "rename", Some(f)), "rename", Some(f));
      && w1.pending == [f, f]
      && OnTimer(OnTimer(w1, true), true).running[f] == w.running[f] + 2
  {
    var w1 := OnEvent(OnEvent(w, "rename", Some(f)), "rename", Some(f));
    assert w1.pending == [f, f];
    assert OnTimer(w1, true).pending == [f];
  }

  /** The first of two runs of the same name to finish takes the name out
      of `processing` while the other still runs, so the next event for it
      schedules yet another timer. */
  lemma EarlyFinish(f: string, settled: Outcome)
    requires f != [] && IsCommandFile(f)
    ensures var w := Finish(WatchState({f}, [], multiset{f, f}), f, settled);
      && w.running[f] == 1 && f !in w.processing
      && |OnEvent(w, "rename", Some(f)).pending| == 1
  {
  }

  /** At most one `_processFile` call per name is in flight, and a name is
      in `processing` exactly while its call is. */
  ghost predicate SingleFlight(w: WatchState) {
    forall f :: w.running[f] <= 1 && (f in w.processing <==> w.running[f] == 1)
  }

  /** The check `this.processing.has(filename)` repeated when the timer
      fires, so a name in flight is not started again. */
  function OnTimerChecked(w: WatchState, present: bool): (w': WatchState)
    requires w.pending != []
    ensures w'.pending == w.pending[1..]
    ensures present && w.pending[0] !in w.processing ==> w.pending[0] in w'.processing
    ensures SingleFlight(w) ==> SingleFlight(w')
    ensures forall other :: other != w.pending[0] ==>
      (other in w'.processing <==> other in w.processing) && w'.running[other] == w.running[other]
  {
    var name := w.pending[0];
    var w1 := w.(pending := w.pending[1..]);
    if present && name !in w.processing then Begin(w1, name) else w1
  }

  /** `_scanExisting` skipping names already in flight. */
  function ScanChecked(w: WatchState, listing: seq<string>): (w': WatchState)
    ensures w'.processing == w.processing + set x | x in listing && IsCommandFile(x)
    ensures w'.pending == w.pending
    ensures SingleFlight(w) ==> SingleFlight(w')
    decreases |listing|
  {
    if listing == [] then w
    else
      var name := listing[0];
      var w1 := if IsCommandFile(name) && name !in w.processing then Begin(w, name) else w;
      ScanChecked(w1, listing[1..])
  }

  lemma IdleSingleFlight()
    ensures SingleFlight(Idle)
  {
  }

  /** Events, completions and checked timers and scans keep the property. */
  lemma EventKeeps(w: WatchState, eventType: string, filename: Option<string>)
    requires SingleFlight(w)
    ensures SingleFlight(OnEvent(w, eventType, filename))
  {
  }

  lemma FinishKeeps(w: WatchState, name: string, settled: Outcome)
    requires SingleFlight(w) && name in w.running
    ensures SingleFlight(Finish(w, name, settled))
  {
    var w' := Finish(w, name, settled);
    forall f ensures w'.running[f] <= 1 && (f in w'.processing <==> w'.running[f] == 1) {
      if f != name {
        assert w'.running[f] == w.running[f];
      }
    }
  }
}
