/**
 * The handful of JavaScript string primitives the connector relies on,
 * written out over `string` (= `seq<char>`): the `\s` character class,
 * the `.` character class, `startsWith`/`endsWith`, `trim`, the global
 * replacement of '-' by '_', and the decimal rendering of a timestamp.
 */
module JsText {

  /** ECMAScript WhiteSpace and LineTerminator code points: exactly the set
      that `\s` matches in a regular expression and that `String.prototype.trim`
      strips. */
  predicate IsSpace(c: char) {
    || c == '\t' || c == '\n' || c == '\U{000B}' || c == '\U{000C}' || c == '\r' || c == ' '
    || c == '\U{00A0}' || c == '\U{1680}' || ('\U{2000}' <= c <= '\U{200A}')
    || c == '\U{2028}' || c == '\U{2029}' || c == '\U{202F}' || c == '\U{205F}'
    || c == '\U{3000}' || c == '\U{FEFF}'
  }

  /** ECMAScript LineTerminator: the only characters `.` does not match
      (the rules are compiled without the `s` flag). */
  predicate IsLineTerminator(c: char) {
    c == '\n' || c == '\r' || c == '\U{2028}' || c == '\U{2029}'
  }

  predicate AllSpace(s: string) {
    forall k :: 0 <= k < |s| ==> IsSpace(s[k])
  }

  /** `s.startsWith(p)` */
  predicate StartsWith(s: string, p: string) {
    |p| <= |s| && s[..|p|] == p
  }

  /** `s.endsWith(p)` */
  predicate EndsWith(s: string, p: string) {
    |p| <= |s| && s[|s| - |p|..] == p
  }

  /** Number of leading whitespace characters of `s`. */
  function LeadingSpace(s: string): (n: nat)
    ensures n <= |s|
    ensures AllSpace(s[..n])
    ensures n == |s| || !IsSpace(s[n])
  {
    if |s| > 0 && IsSpace(s[0]) then
      var n := 1 + LeadingSpace(s[1..]);
      assert s[..n] == [s[0]] + s[1..][..n - 1];
      n
    else 0
  }

  /** Number of trailing whitespace characters of `s`. */
  function TrailingSpace(s: string): (n: nat)
    ensures n <= |s|
    ensures AllSpace(s[|s| - n..])
    ensures n == |s| || !IsSpace(s[|s| - n - 1])
  {
    if |s| > 0 && IsSpace(s[|s| - 1]) then
      var n := 1 + TrailingSpace(s[..|s| - 1]);
      assert s[|s| - n..] == s[..|s| - 1][|s| - n..] + [s[|s| - 1]];
      n
    else 0
  }

  /** A trimmed string neither starts nor ends with whitespace. */
  predicate Trimmed(t: string) {
    t == [] || (!IsSpace(t[0]) && !IsSpace(t[|t| - 1]))
  }

  /** `t` is s[a..a + |t|], with only whitespace before and after it in `s`. */
  predicate StrippedAt(s: string, t: string, a: int) {
    0 <= a && a + |t| <= |s| && s[a..a + |t|] == t
    && AllSpace(s[..a]) && AllSpace(s[a + |t|..])
  }

  /** `t` is `s` with some whitespace prefix and some whitespace suffix removed. */
  ghost predicate SpaceStripped(s: string, t: string) {
    exists a :: StrippedAt(s, t, a)
  }

  /** `s.trim()`: removes leading and trailing whitespace (both ends). */
  function Trim(s: string): (t: string)
    ensures Trimmed(t)
    ensures SpaceStripped(s, t)
  {
    var a := LeadingSpace(s);
    var rest := s[a..];
    var b := TrailingSpace(rest);
    assert s[|s| - b..] == rest[|rest| - b..];
    assert a < |s| - b ==> s[|s| - b - 1] == rest[|rest| - b - 1];
    TrimPiece(s, a, |s| - b);
    s[a..|s| - b]
  }

  /** What lies between a whitespace prefix and a whitespace suffix, and
      neither starts nor ends with whitespace, is trimmed and stripped. */
  lemma TrimPiece(s: string, a: int, e: int)
    requires 0 <= a <= e <= |s|
    requires AllSpace(s[..a]) && AllSpace(s[e..])
    requires a < e ==> !IsSpace(s[a]) && !IsSpace(s[e - 1])
    ensures StrippedAt(s, s[a..e], a) && Trimmed(s[a..e])
  {
    var t := s[a..e];
    assert a + |t| == e;
    if t != [] {
      assert t[0] == s[a] && t[|t| - 1] == s[e - 1];
    }
  }

  /** The two properties of `Trim` pin it down: any trimmed string obtained
      by stripping whitespace from both ends of `s` is `Trim(s)`. */
  lemma TrimUnique(s: string, t: string)
    requires Trimmed(t) && SpaceStripped(s, t)
    ensures t == Trim(s)
  {
    var u := Trim(s);
    var a :| StrippedAt(s, t, a);
    var b :| StrippedAt(s, u, b);
    StrippedUnique(s, t, a, u, b);
  }

  /** Two trimmed pieces of `s` with only whitespace around each are the
      same piece. */
  lemma StrippedUnique(s: string, t: string, a: int, u: string, b: int)
    requires Trimmed(t) && StrippedAt(s, t, a)
    requires Trimmed(u) && StrippedAt(s, u, b)
    ensures t == u
  {
    if t != [] && u != [] {
      StrippedBounds(s, t, a);
      StrippedBounds(s, u, b);
    } else if t != [] {
      NotAllSpace(s, t, a, b);
    } else if u != [] {
      NotAllSpace(s, u, b, a);
    }
  }

  /** When a non-empty trimmed piece is left of `s` after stripping
      whitespace, `s` is not all whitespace around any split point. */
  lemma NotAllSpace(s: string, t: string, a: int, b: int)
    requires t != [] && Trimmed(t) && StrippedAt(s, t, a)
    requires 0 <= b <= |s|
    ensures !(AllSpace(s[..b]) && AllSpace(s[b..]))
  {
    assert s[a] == t[0];
    if AllSpace(s[..b]) && AllSpace(s[b..]) {
      AllSpaceCover(s, b, b, a);
    }
  }

  /** A non-empty trimmed piece of `s` with only whitespace around it starts
      at the first and ends after the last non-space character of `s`. */
  lemma StrippedBounds(s: string, t: string, a: int)
    requires t != [] && Trimmed(t)
    requires StrippedAt(s, t, a)
    ensures a == LeadingSpace(s)
    ensures a + |t| == |s| - TrailingSpace(s)
  {
    assert s[a] == t[0] && s[a + |t| - 1] == t[|t| - 1];
    FirstNonSpace(s, a);
    LastNonSpace(s, a + |t|);
  }

  /** The first non-space position is where `LeadingSpace` stops. */
  lemma FirstNonSpace(s: string, a: int)
    requires 0 <= a < |s| && AllSpace(s[..a]) && !IsSpace(s[a])
    ensures a == LeadingSpace(s)
  {
  }

  /** The position after the last non-space is where `TrailingSpace` stops. */
  lemma LastNonSpace(s: string, e: int)
    requires 0 < e <= |s| && AllSpace(s[e..]) && !IsSpace(s[e - 1])
    ensures e == |s| - TrailingSpace(s)
  {
  }

  /** When the middle piece s[lo..hi] is empty, the whitespace before and
      after it covers all of `s`. */
  lemma AllSpaceCover(s: string, lo: int, hi: int, k: int)
    requires 0 <= lo == hi <= |s| && 0 <= k < |s|
    requires AllSpace(s[..lo]) && AllSpace(s[hi..])
    ensures IsSpace(s[k])
  {
    if k < lo {
      assert s[..lo][k] == s[k];
    } else {
      assert s[hi..][k - hi] == s[k];
    }
  }

  lemma {:induction false} TrimIdempotent(s: string)
    ensures Trim(Trim(s)) == Trim(s)
  {
    var t := Trim(s);
    assert t[0..|t|] == t;
    assert t[..0] == [] && t[|t|..] == [];
    assert StrippedAt(t, t, 0);
    TrimUnique(t, t);
  }

  /** `s.replace(/-/g, '_')` */
  function DashesToUnderscores(s: string): (t: string)
    ensures |t| == |s|
    ensures forall k :: 0 <= k < |s| ==> t[k] == (if s[k] == '-' then '_' else s[k])
  {
    if s == [] then []
    else [if s[0] == '-' then '_' else s[0]] + DashesToUnderscores(s[1..])
  }

  predicate IsDigit(c: char) { '0' <= c <= '9' }

  function DigitChar(d: nat): (c: char)
    requires d < 10
    ensures IsDigit(c)
  {
    ['0', '1', '2', '3', '4', '5', '6', '7', '8', '9'][d]
  }

  function DigitValue(c: char): (d: nat)
    requires IsDigit(c)
    ensures d < 10 && DigitChar(d) == c
  {
    if c == '0' then 0 else if c == '1' then 1 else if c == '2' then 2
    else if c == '3' then 3 else if c == '4' then 4 else if c == '5' then 5
    else if c == '6' then 6 else if c == '7' then 7 else if c == '8' then 8 else 9
  }

  /** Decimal rendering of a non-negative integer, as a template literal
      renders `Date.now()`. */
  function Decimal(n: nat): (s: string)
    ensures |s| >= 1
    ensures forall k :: 0 <= k < |s| ==> IsDigit(s[k])
    ensures s[0] == '0' ==> n == 0
  {
    if n < 10 then [DigitChar(n)]
    else Decimal(n / 10) + [DigitChar(n % 10)]
  }

  /** Reads a run of decimal digits back as a number. */
  function ParseDecimal(s: string): nat
    requires forall k :: 0 <= k < |s| ==> IsDigit(s[k])
  {
    if s == [] then 0
    else 10 * ParseDecimal(s[..|s| - 1]) + DigitValue(s[|s| - 1])
  }

  lemma {:induction false} DecimalRoundTrip(n: nat)
    ensures ParseDecimal(Decimal(n)) == n
  {
    var s := Decimal(n);
    if n >= 10 {
      DecimalRoundTrip(n / 10);
      assert s[..|s| - 1] == Decimal(n / 10);
      assert DigitValue(s[|s| - 1]) == n % 10 by {
        assert s[|s| - 1] == DigitChar(n % 10);
      }
    } else {
      assert s[..0] == [];
    }
  }

  /** Distinct numbers render as distinct strings. */
  lemma DecimalInjective(m: nat, n: nat)
    requires Decimal(m) == Decimal(n)
    ensures m == n
  {
    DecimalRoundTrip(m);
    DecimalRoundTrip(n);
  }
}
