/**
 * The command deny-list (`validateCommand`, src/index.js:37-56).
 *
 * Each of the eight regular expressions is read twice:
 *  - declaratively (ghost): "there is a position i and a way to split the
 *    text after i" that the expression's structure allows, with `\s`, `.`,
 *    `$`, `+`, `*`, `?` and `|` taken in their ECMAScript meaning; and
 *  - deterministically: at each candidate position, whitespace runs are
 *    skipped maximally and `.*` is searched up to the end of the line.
 * The two readings are proved equivalent, so `RegExp.prototype.test`
 * (existence of a match anywhere) is `Matches`, and `ValidateCommand`,
 * which runs the deterministic reading, returns the reason of the first
 * rule in list order whose pattern matches.
 */
module Validator {
  import opened JsText

  datatype Rule =
    | RmRoot         // /rm\s+(-rf?|--recursive)\s+\/(\s|$|;|\||&)/
    | RmNoPreserve   // /rm\s+-rf\s+\/\s*--no-preserve/
    | FormatDisk     // /mkfs.*\/dev\/sd/
    | DdToDisk       // /dd\s+.*of=\/dev\/sd/
    | ForkBomb       // /:\(\)\{\s*:\|:\s*&\s*\}\s*;:/
    | WriteToDisk    // />\s*\/dev\/sd/
    | CurlPipeShell  // /curl.*\|\s*(ba)?sh/
    | WgetPipeShell  // /wget.*\|\s*(ba)?sh/

  /** The deny-list in the order it is tried. */
  const Rules: seq<Rule> :=
    [RmRoot, RmNoPreserve, FormatDisk, DdToDisk, ForkBomb, WriteToDisk, CurlPipeShell, WgetPipeShell]

  function Reason(r: Rule): string {
    match r
    case RmRoot => "Destructive: rm root"
    case RmNoPreserve => "Destructive: rm no-preserve-root"
    case FormatDisk => "Destructive: format disk"
    case DdToDisk => "Destructive: dd to disk"
    case ForkBomb => "Fork bomb detected"
    case WriteToDisk => "Destructive: write to disk"
    case CurlPipeShell => "Remote code execution"
    case WgetPipeShell => "Remote code execution"
  }

  /** `{ valid: true }` or `{ valid: false, reason }`. */
  datatype Validation = Valid | Invalid(reason: string)

  // ---------------------------------------------------------------------
  // Declarative reading
  // ---------------------------------------------------------------------

  /** The literal `w` occupies s[i..i + |w|]. */
  ghost predicate WordAt(s: string, i: int, w: string) {
    0 <= i && i + |w| <= |s| && s[i..i + |w|] == w
  }

  /** s[a..b] is matched by `\s*`. */
  ghost predicate Gap(s: string, a: int, b: int) {
    0 <= a <= b <= |s| && forall k :: a <= k < b ==> IsSpace(s[k])
  }

  /** s[a..b] is matched by `.*`. */
  ghost predicate Line(s: string, a: int, b: int) {
    0 <= a <= b <= |s| && forall k :: a <= k < b ==> !IsLineTerminator(s[k])
  }

  /** `(\s|$|;|\||&)` at position p. */
  predicate RootEnd(s: string, p: int) {
    p == |s| || (0 <= p < |s| && (IsSpace(s[p]) || s[p] == ';' || s[p] == '|' || s[p] == '&'))
  }

  /** A whitespace run, `\s+` when `atLeastOne` and `\s*` otherwise,
      followed by a literal. */
  datatype Piece = Piece(atLeastOne: bool, word: string)

  /** The pieces ps[k..] match in order from position a on and, when
      `rootEnd`, are followed by `(\s|$|;|\||&)`; `spaced` says that
      whitespace before ps[k] was already consumed before a. */
  ghost predicate PiecesFrom(s: string, a: int, ps: seq<Piece>, k: nat, spaced: bool, rootEnd: bool)
    decreases |ps| - k
  {
    if k >= |ps| then !rootEnd || RootEnd(s, a)
    else exists b :: PieceAt(s, a, b, ps[k], spaced) && PiecesFrom(s, b + |ps[k].word|, ps, k + 1, false, rootEnd)
  }

  /** The piece spans s[a..b + |pc.word|], its literal starting at b. */
  ghost predicate PieceAt(s: string, a: int, b: int, pc: Piece, spaced: bool) {
    Gap(s, a, b) && (pc.atLeastOne && !spaced ==> a < b) && WordAt(s, b, pc.word)
  }

  /** The pieces `ps` match in order from position a on. */
  ghost predicate Pieces(s: string, a: int, ps: seq<Piece>, rootEnd: bool) {
    PiecesFrom(s, a, ps, 0, false, rootEnd)
  }

  /** What follows a `.*`: a literal, or `\|\s*(ba)?sh`. */
  datatype Tail = Text(word: string) | PipeShell

  const ShPiece: seq<Piece> := [Piece(false, "sh")]
  const BashPiece: seq<Piece> := [Piece(false, "bash")]

  ghost predicate TailAt(t: Tail, s: string, k: int) {
    match t
    case Text(w) => WordAt(s, k, w)
    case PipeShell =>
      WordAt(s, k, "|") && (Pieces(s, k + 1, ShPiece, false) || Pieces(s, k + 1, BashPiece, false))
  }

  /** `.*` followed by the tail, starting at a. */
  ghost predicate InLine(s: string, a: int, t: Tail) {
    exists k :: Line(s, a, k) && TailAt(t, s, k)
  }

  const RootFlags: seq<string> := ["-r", "-rf", "--recursive"]

  function RmRootPieces(flag: string): seq<Piece> {
    [Piece(true, flag), Piece(true, "/")]
  }

  const NoPreservePieces: seq<Piece> :=
    [Piece(true, "-rf"), Piece(true, "/"), Piece(false, "--no-preserve")]

  const ForkBombPieces: seq<Piece> :=
    [Piece(false, ":|:"), Piece(false, "&"), Piece(false, "}"), Piece(false, ";:")]

  const DiskPieces: seq<Piece> := [Piece(false, "/dev/sd")]

  /** The rule's pattern has a match that starts at position i; such a
      match begins with the rule's leading literal. */
  ghost predicate MatchesAt(r: Rule, s: string, i: int)
    ensures MatchesAt(r, s, i) ==> WordAt(s, i, Needed(r)[0])
  {
    match r
    case RmRoot =>
      WordAt(s, i, "rm")
      && (|| Pieces(s, i + 2, RmRootPieces("-r"), true)
          || Pieces(s, i + 2, RmRootPieces("-rf"), true)
          || Pieces(s, i + 2, RmRootPieces("--recursive"), true))
    case RmNoPreserve => WordAt(s, i, "rm") && Pieces(s, i + 2, NoPreservePieces, false)
    case FormatDisk => WordAt(s, i, "mkfs") && InLine(s, i + 4, Text("/dev/sd"))
    case DdToDisk =>
      WordAt(s, i, "dd") && exists j :: Gap(s, i + 2, j) && i + 2 < j && InLine(s, j, Text("of=/dev/sd"))
    case ForkBomb => WordAt(s, i, ":(){") && Pieces(s, i + 4, ForkBombPieces, false)
    case WriteToDisk => WordAt(s, i, ">") && Pieces(s, i + 1, DiskPieces, false)
    case CurlPipeShell => WordAt(s, i, "curl") && InLine(s, i + 4, PipeShell)
    case WgetPipeShell => WordAt(s, i, "wget") && InLine(s, i + 4, PipeShell)
  }

  /** `pattern.test(s)`: the pattern matches somewhere in `s`. */
  ghost predicate Matches(r: Rule, s: string) {
    exists i :: 0 <= i < |s| && MatchesAt(r, s, i)
  }

  /** Rule number n is the first rule of the list whose pattern matches. */
  ghost predicate FirstMatching(s: string, n: int) {
    0 <= n < |Rules| && Matches(Rules[n], s)
    && forall m :: 0 <= m < n ==> !Matches(Rules[m], s)
  }

  // ---------------------------------------------------------------------
  // Deterministic reading
  // ---------------------------------------------------------------------

  /** Index of the first non-whitespace character at or after a. */
  function Skip(s: string, a: nat): (b: nat)
    requires a <= |s|
    ensures a <= b <= |s|
    decreases |s| - a
  {
    if a < |s| && IsSpace(s[a]) then Skip(s, a + 1) else a
  }

  /** `Skip` stops at the end of the maximal whitespace run from a. */
  lemma {:induction false} SkipMaximal(s: string, a: nat)
    requires a <= |s|
    ensures Gap(s, a, Skip(s, a))
    ensures Skip(s, a) == |s| || !IsSpace(s[Skip(s, a)])
    decreases |s| - a
  {
    if a < |s| && IsSpace(s[a]) {
      SkipMaximal(s, a + 1);
    }
  }

  predicate LitFrom(s: string, i: nat, w: string, j: nat)
    requires i + |w| <= |s|
    decreases |w| - j
  {
    j >= |w| || (s[i + j] == w[j] && LitFrom(s, i, w, j + 1))
  }

  /** The literal `w` occurs at position i, compared character by character. */
  predicate Lit(s: string, i: nat, w: string) {
    i + |w| <= |s| && LitFrom(s, i, w, 0)
  }

  lemma {:induction false} LitFromAgrees(s: string, i: nat, w: string, j: nat)
    requires i + |w| <= |s| && j <= |w|
    ensures LitFrom(s, i, w, j) <==> forall k :: j <= k < |w| ==> s[i + k] == w[k]
    decreases |w| - j
  {
    if j < |w| {
      LitFromAgrees(s, i, w, j + 1);
    }
  }

  lemma LitIsWord(s: string, i: nat, w: string)
    ensures Lit(s, i, w) <==> WordAt(s, i, w)
  {
    if i + |w| <= |s| {
      LitFromAgrees(s, i, w, 0);
      if Lit(s, i, w) {
        assert s[i..i + |w|] == w;
      }
    }
  }

  lemma WordHead(s: string, i: int, w: string)
    requires WordAt(s, i, w) && w != []
    ensures i < |s| && s[i] == w[0]
  {
    assert s[i..i + |w|][0] == s[i];
  }

  /** Every literal of a piece list starts with a non-space character. */
  predicate Anchored(ps: seq<Piece>) {
    forall k :: 0 <= k < |ps| ==> ps[k].word != [] && !IsSpace(ps[k].word[0])
  }

  /** Greedy reading of the pieces ps[k..] from position p: first the
      whitespace run before ps[k] (`spaced` once one character of it was
      consumed), then its literal. Positions only ever advance by one, so
      the verifier can evaluate it on literal strings. */
  predicate RunGap(s: string, p: nat, ps: seq<Piece>, k: nat, spaced: bool, rootEnd: bool)
    requires p <= |s| && k <= |ps|
    decreases |s| - p, |ps| - k, 1
  {
    if k == |ps| then !rootEnd || RootEnd(s, p)
    else if p < |s| && IsSpace(s[p]) then RunGap(s, p + 1, ps, k, true, rootEnd)
    else (!ps[k].atLeastOne || spaced) && RunWord(s, p, ps, k, 0, rootEnd)
  }

  /** Inside the literal of ps[k], with its first j characters matched. */
  predicate RunWord(s: string, p: nat, ps: seq<Piece>, k: nat, j: nat, rootEnd: bool)
    requires p <= |s| && k < |ps|
    decreases |s| - p, |ps| - k, 0
  {
    if j >= |ps[k].word| then RunGap(s, p, ps, k + 1, false, rootEnd)
    else p < |s| && s[p] == ps[k].word[j] && RunWord(s, p + 1, ps, k, j + 1, rootEnd)
  }

  lemma {:induction false} RunGapAgrees(s: string, p: nat, ps: seq<Piece>, k: nat, spaced: bool, rootEnd: bool)
    requires p <= |s| && k <= |ps| && Anchored(ps)
    ensures RunGap(s, p, ps, k, spaced, rootEnd) <==> PiecesFrom(s, p, ps, k, spaced, rootEnd)
    decreases |s| - p, |ps| - k, 1
  {
    if k < |ps| {
      if p < |s| && IsSpace(s[p]) {
        RunGapAgrees(s, p + 1, ps, k, true, rootEnd);
        GapSpaceStep(s, p, ps, k, spaced, rootEnd);
      } else {
        RunWordAgrees(s, p, ps, k, 0, rootEnd);
        GapStopStep(s, p, ps, k, spaced, rootEnd);
        assert ps[k].word[0..] == ps[k].word;
      }
    }
  }

  /** One more whitespace character before an anchored literal. */
  lemma GapSpaceStep(s: string, p: nat, ps: seq<Piece>, k: nat, spaced: bool, rootEnd: bool)
    requires p < |s| && IsSpace(s[p]) && k < |ps| && Anchored(ps)
    ensures PiecesFrom(s, p + 1, ps, k, true, rootEnd) <==> PiecesFrom(s, p, ps, k, spaced, rootEnd)
  {
    if PiecesFrom(s, p + 1, ps, k, true, rootEnd) {
      GapSpaceBack(s, p, ps, k, spaced, rootEnd);
    }
    if PiecesFrom(s, p, ps, k, spaced, rootEnd) {
      GapSpaceForth(s, p, ps, k, spaced, rootEnd);
    }
  }

  lemma GapSpaceBack(s: string, p: nat, ps: seq<Piece>, k: nat, spaced: bool, rootEnd: bool)
    requires p < |s| && IsSpace(s[p]) && k < |ps|
    requires PiecesFrom(s, p + 1, ps, k, true, rootEnd)
    ensures PiecesFrom(s, p, ps, k, spaced, rootEnd)
  {
    var b :| PieceAt(s, p + 1, b, ps[k], true) && PiecesFrom(s, b + |ps[k].word|, ps, k + 1, false, rootEnd);
    GapExtend(s, p, b, ps[k], spaced);
  }

  lemma GapSpaceForth(s: string, p: nat, ps: seq<Piece>, k: nat, spaced: bool, rootEnd: bool)
    requires p < |s| && IsSpace(s[p]) && k < |ps| && Anchored(ps)
    requires PiecesFrom(s, p, ps, k, spaced, rootEnd)
    ensures PiecesFrom(s, p + 1, ps, k, true, rootEnd)
  {
    var b :| PieceAt(s, p, b, ps[k], spaced) && PiecesFrom(s, b + |ps[k].word|, ps, k + 1, false, rootEnd);
    GapShrink(s, p, b, ps[k], spaced);
  }

  lemma GapExtend(s: string, p: nat, b: int, pc: Piece, spaced: bool)
    requires p < |s| && IsSpace(s[p]) && PieceAt(s, p + 1, b, pc, true)
    ensures PieceAt(s, p, b, pc, spaced)
  {
  }

  lemma GapShrink(s: string, p: nat, b: int, pc: Piece, spaced: bool)
    requires p < |s| && IsSpace(s[p]) && pc.word != [] && !IsSpace(pc.word[0])
    requires PieceAt(s, p, b, pc, spaced)
    ensures PieceAt(s, p + 1, b, pc, true)
  {
    WordHead(s, b, pc.word);
  }

  /** At a non-space character the whitespace run is over. */
  lemma GapStopStep(s: string, p: nat, ps: seq<Piece>, k: nat, spaced: bool, rootEnd: bool)
    requires p <= |s| && !(p < |s| && IsSpace(s[p])) && k < |ps| && Anchored(ps)
    ensures PiecesFrom(s, p, ps, k, spaced, rootEnd) <==>
      && (!ps[k].atLeastOne || spaced)
      && WordAt(s, p, ps[k].word)
      && PiecesFrom(s, p + |ps[k].word|, ps, k + 1, false, rootEnd)
  {
    var w := ps[k].word;
    if (!ps[k].atLeastOne || spaced) && WordAt(s, p, w) && PiecesFrom(s, p + |w|, ps, k + 1, false, rootEnd) {
      assert PieceAt(s, p, p, ps[k], spaced);
    }
    if PiecesFrom(s, p, ps, k, spaced, rootEnd) {
      var b :| PieceAt(s, p, b, ps[k], spaced) && PiecesFrom(s, b + |w|, ps, k + 1, false, rootEnd);
      WordHead(s, b, w);
      assert b == p;
    }
  }

  lemma {:induction false} RunWordAgrees(s: string, p: nat, ps: seq<Piece>, k: nat, j: nat, rootEnd: bool)
    requires p <= |s| && k < |ps| && Anchored(ps) && j <= |ps[k].word|
    ensures RunWord(s, p, ps, k, j, rootEnd) <==>
      var w := ps[k].word;
      && p + |w| - j <= |s| && s[p..p + |w| - j] == w[j..]
      && PiecesFrom(s, p + |w| - j, ps, k + 1, false, rootEnd)
    decreases |s| - p, |ps| - k, 0
  {
    var w := ps[k].word;
    if j == |w| {
      RunGapAgrees(s, p, ps, k + 1, false, rootEnd);
    } else if p < |s| {
      RunWordAgrees(s, p + 1, ps, k, j + 1, rootEnd);
      if p + |w| - j <= |s| {
        assert s[p..p + |w| - j] == [s[p]] + s[p + 1..p + |w| - j];
        assert w[j..] == [w[j]] + w[j + 1..];
      }
    }
  }

  predicate TailHere(t: Tail, s: string, k: nat) {
    match t
    case Text(w) => Lit(s, k, w)
    case PipeShell =>
      Lit(s, k, "|")
      && (RunGap(s, k + 1, [Piece(false, "sh")], 0, false, false)
          || RunGap(s, k + 1, [Piece(false, "bash")], 0, false, false))
  }

  lemma TailHereAgrees(t: Tail, s: string, k: nat)
    ensures TailHere(t, s, k) <==> TailAt(t, s, k)
  {
    match t
    case Text(w) => LitIsWord(s, k, w);
    case PipeShell =>
      LitIsWord(s, k, "|");
      if k + 1 <= |s| {
        RunGapAgrees(s, k + 1, ShPiece, 0, false, false);
        RunGapAgrees(s, k + 1, BashPiece, 0, false, false);
      }
  }

  /** Searches for the tail from a on, stopping at the first line terminator. */
  predicate FindInLine(t: Tail, s: string, a: nat)
    decreases |s| - a
  {
    TailHere(t, s, a) || (a < |s| && !IsLineTerminator(s[a]) && FindInLine(t, s, a + 1))
  }

  lemma {:induction false} FindInLineAgrees(t: Tail, s: string, a: nat)
    requires a <= |s|
    ensures FindInLine(t, s, a) <==> InLine(s, a, t)
    decreases |s| - a
  {
    TailHereAgrees(t, s, a);
    assert Line(s, a, a);
    if a < |s| {
      FindInLineAgrees(t, s, a + 1);
      if InLine(s, a, t) && !TailAt(t, s, a) {
        var k :| Line(s, a, k) && TailAt(t, s, k);
        assert Line(s, a + 1, k);
      }
      if InLine(s, a + 1, t) && !IsLineTerminator(s[a]) {
        var k :| Line(s, a + 1, k) && TailAt(t, s, k);
        assert Line(s, a, k);
      }
    }
  }

  /** `\s+.*` then the tail: skips the whitespace run, then searches the line. */
  predicate GapThenLine(t: Tail, s: string, p: nat)
    decreases |s| - p
  {
    if p < |s| && IsSpace(s[p]) then GapThenLine(t, s, p + 1) else FindInLine(t, s, p)
  }

  lemma {:induction false} GapThenLineSkips(t: Tail, s: string, p: nat)
    requires p <= |s|
    ensures GapThenLine(t, s, p) == FindInLine(t, s, Skip(s, p))
    decreases |s| - p
  {
    if p < |s| && IsSpace(s[p]) {
      GapThenLineSkips(t, s, p + 1);
    }
  }

  /** The deterministic reading of a rule at position i. The piece lists
      are written out in place (they equal the constants above) so that
      every argument stays a literal on literal input. */
  predicate MatchesHere(r: Rule, s: string, i: nat) {
    match r
    case RmRoot =>
      Lit(s, i, "rm")
      && (|| RunGap(s, i + 2, [Piece(true, "-r"), Piece(true, "/")], 0, false, true)
          || RunGap(s, i + 2, [Piece(true, "-rf"), Piece(true, "/")], 0, false, true)
          || RunGap(s, i + 2, [Piece(true, "--recursive"), Piece(true, "/")], 0, false, true))
    case RmNoPreserve =>
      Lit(s, i, "rm")
      && RunGap(s, i + 2, [Piece(true, "-rf"), Piece(true, "/"), Piece(false, "--no-preserve")], 0, false, false)
    case FormatDisk => Lit(s, i, "mkfs") && FindInLine(Text("/dev/sd"), s, i + 4)
    case DdToDisk =>
      Lit(s, i, "dd") && i + 2 < |s| && IsSpace(s[i + 2]) && GapThenLine(Text("of=/dev/sd"), s, i + 3)
    case ForkBomb =>
      Lit(s, i, ":(){")
      && RunGap(s, i + 4, [Piece(false, ":|:"), Piece(false, "&"), Piece(false, "}"), Piece(false, ";:")], 0, false, false)
    case WriteToDisk => Lit(s, i, ">") && RunGap(s, i + 1, [Piece(false, "/dev/sd")], 0, false, false)
    case CurlPipeShell => Lit(s, i, "curl") && FindInLine(PipeShell, s, i + 4)
    case WgetPipeShell => Lit(s, i, "wget") && FindInLine(PipeShell, s, i + 4)
  }

  lemma RmRootHereAgrees(s: string, i: nat)
    ensures MatchesHere(RmRoot, s, i) <==> MatchesAt(RmRoot, s, i)
  {
    LitIsWord(s, i, "rm");
    if WordAt(s, i, "rm") {
      forall flag | flag in RootFlags
        ensures RunGap(s, i + 2, RmRootPieces(flag), 0, false, true) <==> Pieces(s, i + 2, RmRootPieces(flag), true)
      {
        RunGapAgrees(s, i + 2, RmRootPieces(flag), 0, false, true);
      }
    }
  }

  /** `\s+.*` before a tail that starts with a non-space: the `.*` may as
      well start after the whole whitespace run. */
  lemma DdHereAgrees(s: string, i: nat)
    ensures MatchesHere(DdToDisk, s, i) <==> MatchesAt(DdToDisk, s, i)
  {
    var t := Text("of=/dev/sd");
    LitIsWord(s, i, "dd");
    if WordAt(s, i, "dd") && i + 2 < |s| {
      var b := Skip(s, i + 2);
      SkipMaximal(s, i + 2);
      FindInLineAgrees(t, s, b);
      if IsSpace(s[i + 2]) {
        GapThenLineSkips(t, s, i + 3);
        assert Skip(s, i + 2) == Skip(s, i + 3);
      }
      if IsSpace(s[i + 2]) && FindInLine(t, s, b) {
        assert Gap(s, i + 2, b) && i + 2 < b && InLine(s, b, t);
      }
      if MatchesAt(DdToDisk, s, i) {
        var j :| Gap(s, i + 2, j) && i + 2 < j && InLine(s, j, t);
        var k :| Line(s, j, k) && TailAt(t, s, k);
        WordHead(s, k, "of=/dev/sd");
        assert IsSpace(s[i + 2]);
        // the whitespace run from i + 2 covers j and stops before k
        assert Line(s, b, k);
      }
    }
  }

  lemma MatchesHereAgrees(r: Rule, s: string, i: nat)
    ensures MatchesHere(r, s, i) <==> MatchesAt(r, s, i)
  {
    match r
    case RmRoot => RmRootHereAgrees(s, i);
    case RmNoPreserve =>
      LitIsWord(s, i, "rm");
      if i + 2 <= |s| { RunGapAgrees(s, i + 2, NoPreservePieces, 0, false, false); }
    case FormatDisk =>
      LitIsWord(s, i, "mkfs");
      if i + 4 <= |s| { FindInLineAgrees(Text("/dev/sd"), s, i + 4); }
    case DdToDisk => DdHereAgrees(s, i);
    case ForkBomb =>
      LitIsWord(s, i, ":(){");
      if i + 4 <= |s| { RunGapAgrees(s, i + 4, ForkBombPieces, 0, false, false); }
    case WriteToDisk =>
      LitIsWord(s, i, ">");
      if i + 1 <= |s| { RunGapAgrees(s, i + 1, DiskPieces, 0, false, false); }
    case CurlPipeShell =>
      LitIsWord(s, i, "curl");
      if i + 4 <= |s| { FindInLineAgrees(PipeShell, s, i + 4); }
    case WgetPipeShell =>
      LitIsWord(s, i, "wget");
      if i + 4 <= |s| { FindInLineAgrees(PipeShell, s, i + 4); }
  }

  /** Scans positions from i on for a match of the rule. */
  predicate TestFrom(r: Rule, s: string, i: nat)
    decreases |s| - i
  {
    i < |s| && (MatchesHere(r, s, i) || TestFrom(r, s, i + 1))
  }

  /** Some position in [i, |s|) matches the rule. */
  ghost predicate MatchesFrom(r: Rule, s: string, i: nat) {
    exists j :: i <= j < |s| && MatchesAt(r, s, j)
  }

  /** Peeling off the first candidate position. */
  lemma MatchesFromStep(r: Rule, s: string, i: nat)
    requires i < |s|
    ensures MatchesFrom(r, s, i) <==> MatchesAt(r, s, i) || MatchesFrom(r, s, i + 1)
  {
    if MatchesFrom(r, s, i) && !MatchesAt(r, s, i) {
      var j :| i <= j < |s| && MatchesAt(r, s, j);
      assert i + 1 <= j;
    }
  }

  lemma {:induction false} TestFromAgrees(r: Rule, s: string, i: nat)
    ensures TestFrom(r, s, i) <==> MatchesFrom(r, s, i)
    decreases |s| - i
  {
    if i < |s| {
      MatchesHereAgrees(r, s, i);
      TestFromAgrees(r, s, i + 1);
      MatchesFromStep(r, s, i);
    }
  }

  /** `pattern.test(cmd)` */
  predicate Test(r: Rule, s: string) {
    TestFrom(r, s, 0)
  }

  lemma TestAgrees(r: Rule, s: string)
    ensures Test(r, s) <==> Matches(r, s)
  {
    TestFromAgrees(r, s, 0);
  }

  /** Tries the rules from number n on, in list order. */
  function CheckFrom(cmd: string, n: nat): Validation
    requires n <= |Rules|
    decreases |Rules| - n
  {
    if n == |Rules| then Valid
    else if Test(Rules[n], cmd) then Invalid(Reason(Rules[n]))
    else CheckFrom(cmd, n + 1)
  }

  lemma {:induction false} CheckFromAgrees(cmd: string, n: nat)
    requires n <= |Rules|
    ensures CheckFrom(cmd, n).Valid? <==> forall m :: n <= m < |Rules| ==> !Matches(Rules[m], cmd)
    ensures CheckFrom(cmd, n).Invalid? ==>
      exists m :: n <= m < |Rules| && Matches(Rules[m], cmd) && CheckFrom(cmd, n).reason == Reason(Rules[m])
        && forall l :: n <= l < m ==> !Matches(Rules[l], cmd)
    decreases |Rules| - n
  {
    if n < |Rules| {
      TestAgrees(Rules[n], cmd);
      CheckFromAgrees(cmd, n + 1);
      var v := CheckFrom(cmd, n);
      if !Test(Rules[n], cmd) && v.Invalid? {
        var m :| n + 1 <= m < |Rules| && Matches(Rules[m], cmd) && v.reason == Reason(Rules[m])
          && forall l :: n + 1 <= l < m ==> !Matches(Rules[l], cmd);
        assert forall l :: n <= l < m ==> !Matches(Rules[l], cmd);
      }
    }
  }

  /** `validateCommand(cmd)`: the reason of the first matching rule, or
      valid when no rule matches. */
  function ValidateCommand(cmd: string): (v: Validation)
    ensures v.Valid? <==> forall n :: 0 <= n < |Rules| ==> !Matches(Rules[n], cmd)
    ensures v.Invalid? ==> exists n :: FirstMatching(cmd, n) && v.reason == Reason(Rules[n])
  {
    CheckFromAgrees(cmd, 0);
    CheckFrom(cmd, 0)
  }

  /** The first matching rule decides the reason: once rule n is known to be
      the first to match, the result is its reason. */
  lemma FirstMatchDecides(cmd: string, n: int)
    requires FirstMatching(cmd, n)
    ensures ValidateCommand(cmd) == Invalid(Reason(Rules[n]))
  {
    var v := ValidateCommand(cmd);
    if v.Invalid? {
      var m :| FirstMatching(cmd, m) && v.reason == Reason(Rules[m]);
    }
  }

  // ---------------------------------------------------------------------
  // Literals a match cannot do without
  // ---------------------------------------------------------------------

  /** The literal `w` occurs somewhere in `s`. */
  ghost predicate Occurs(s: string, w: string) {
    exists i :: WordAt(s, i, w)
  }

  /** Literals that every match of the rule contains, in pattern order. */
  function Needed(r: Rule): (ws: seq<string>)
    ensures |ws| >= 1
  {
    match r
    case RmRoot => ["rm", "-", "/"]
    case RmNoPreserve => ["rm", "-rf", "/", "--no-preserve"]
    case FormatDisk => ["mkfs", "/dev/sd"]
    case DdToDisk => ["dd", "of=/dev/sd"]
    case ForkBomb => [":(){", ":|:", "&", "}", ";:"]
    case WriteToDisk => [">", "/dev/sd"]
    case CurlPipeShell => ["curl", "|"]
    case WgetPipeShell => ["wget", "|"]
  }

  /** Every literal of a piece list that matches occurs in the text. */
  lemma {:induction false} PiecesOccur(s: string, a: int, ps: seq<Piece>, k: nat, spaced: bool, rootEnd: bool, j: int)
    requires PiecesFrom(s, a, ps, k, spaced, rootEnd) && k <= j < |ps|
    ensures Occurs(s, ps[j].word)
    decreases j - k
  {
    var b :| PieceAt(s, a, b, ps[k], spaced) && PiecesFrom(s, b + |ps[k].word|, ps, k + 1, false, rootEnd);
    if j > k {
      PiecesOccur(s, b + |ps[k].word|, ps, k + 1, false, rootEnd, j);
    }
  }

  lemma TailOccurs(s: string, a: int, w: string)
    requires InLine(s, a, Text(w))
    ensures Occurs(s, w)
  {
  }

  /** A rule matches only if every one of its needed literals occurs. */
  lemma NeededOccur(r: Rule, s: string, w: string)
    requires Matches(r, s) && w in Needed(r)
    ensures Occurs(s, w)
  {
    var i :| 0 <= i < |s| && MatchesAt(r, s, i);
    if w == Needed(r)[0] {
      assert WordAt(s, i, w);
    } else {
      LaterNeededOccur(r, s, i, w);
    }
  }

  lemma LaterNeededOccur(r: Rule, s: string, i: int, w: string)
    requires MatchesAt(r, s, i) && w in Needed(r)[1..]
    ensures Occurs(s, w)
  {
    match r
    case RmRoot => RmRootOccur(s, i, w);
    case RmNoPreserve =>
      var j :| 0 <= j < 3 && NoPreservePieces[j].word == w;
      PiecesOccur(s, i + 2, NoPreservePieces, 0, false, false, j);
    case FormatDisk => TailOccurs(s, i + 4, w);
    case DdToDisk =>
      var j :| Gap(s, i + 2, j) && i + 2 < j && InLine(s, j, Text("of=/dev/sd"));
      TailOccurs(s, j, w);
    case ForkBomb =>
      var j :| 0 <= j < 4 && ForkBombPieces[j].word == w;
      PiecesOccur(s, i + 4, ForkBombPieces, 0, false, false, j);
    case WriteToDisk => PiecesOccur(s, i + 1, DiskPieces, 0, false, false, 0);
    case CurlPipeShell => PipeOccurs(s, i + 4);
    case WgetPipeShell => PipeOccurs(s, i + 4);
  }

  lemma RmRootOccur(s: string, i: int, w: string)
    requires MatchesAt(RmRoot, s, i) && (w == "-" || w == "/")
    ensures Occurs(s, w)
  {
    var flag :| flag in RootFlags && Pieces(s, i + 2, RmRootPieces(flag), true);
    var ps := RmRootPieces(flag);
    assert |ps| == 2;
    assert Pieces(s, i + 2, ps, true);
    assert PiecesFrom(s, i + 2, ps, 0, false, true);
    if w == "/" {
      PiecesOccur(s, i + 2, ps, 0, false, true, 1);
    } else {
      PiecesOccur(s, i + 2, ps, 0, false, true, 0);
      OccursInside(s, flag, 0, 1);
      assert flag[0..1] == "-";
    }
  }

  lemma PipeOccurs(s: string, a: int)
    requires InLine(s, a, PipeShell)
    ensures Occurs(s, "|")
  {
    var k :| Line(s, a, k) && TailAt(PipeShell, s, k);
  }

  /** A literal is absent when one of its characters is. */
  lemma CharAbsent(s: string, w: string, c: char)
    requires c in w && c !in s
    ensures !Occurs(s, w)
  {
  }

  /** A piece of an occurring literal occurs as well. */
  lemma OccursInside(s: string, w: string, j: nat, n: nat)
    requires Occurs(s, w) && j + n <= |w|
    ensures Occurs(s, w[j..j + n])
  {
    var i :| WordAt(s, i, w);
    var t := s[i..i + |w|];
    assert t[j..j + n] == s[i + j..i + j + n] by {
      forall m | j <= m < j + n ensures t[m] == s[i + m] {
      }
    }
    assert WordAt(s, i + j, w[j..j + n]);
  }

  /** A two-letter literal in `x + y` lies in x, in y, or across the seam. */
  lemma OccursSplit(x: string, y: string, w: string)
    requires |w| == 2 && Occurs(x + y, w)
    ensures Occurs(x, w) || Occurs(y, w) || (x != [] && y != [] && x[|x| - 1] == w[0] && y[0] == w[1])
  {
    var s := x + y;
    var i :| WordAt(s, i, w);
    assert s[i] == w[0] && s[i + 1] == w[1] by {
      assert s[i..i + 2][0] == s[i] && s[i..i + 2][1] == s[i + 1];
    }
    if i + 2 <= |x| {
      assert x[i..i + 2] == s[i..i + 2];
      assert WordAt(x, i, w);
    } else if |x| <= i {
      assert y[i - |x|..i - |x| + 2] == s[i..i + 2];
      assert WordAt(y, i - |x|, w);
    }
  }

  /** A command lacking some character of the rule's k-th needed literal
      passes the rule. */
  lemma LiteralAbsent(r: Rule, s: string, k: nat, c: char)
    requires k < |Needed(r)| && c in Needed(r)[k] && c !in s
    ensures !Matches(r, s)
  {
    if Matches(r, s) {
      NeededOccur(r, s, Needed(r)[k]);
      CharAbsent(s, Needed(r)[k], c);
    }
  }

  /** A rule whose needed literal is absent does not match. */
  lemma NeededAbsent(r: Rule, s: string, w: string)
    requires w in Needed(r) && !Occurs(s, w)
    ensures !Matches(r, s)
  {
    if Matches(r, s) {
      NeededOccur(r, s, w);
    }
  }

  /** Position of a rule in the list. */
  function Index(r: Rule): (n: nat)
    ensures n < |Rules| && Rules[n] == r
  {
    match r
    case RmRoot => 0
    case RmNoPreserve => 1
    case FormatDisk => 2
    case DdToDisk => 3
    case ForkBomb => 4
    case WriteToDisk => 5
    case CurlPipeShell => 6
    case WgetPipeShell => 7
  }

  /** Rules are tried in list order: the first one that matches decides. */
  lemma DecidedBy(cmd: string, r: Rule)
    requires Matches(r, cmd)
    requires forall q :: Index(q) < Index(r) ==> !Matches(q, cmd)
    ensures ValidateCommand(cmd) == Invalid(Reason(r))
  {
    forall m | 0 <= m < Index(r) ensures !Matches(Rules[m], cmd) {
      assert Index(Rules[m]) == m;
    }
    FirstMatchDecides(cmd, Index(r));
  }

  /** A command no rule matches is valid. */
  lemma PassesAll(cmd: string)
    requires forall r :: !Matches(r, cmd)
    ensures ValidateCommand(cmd) == Valid
  {
  }
}
