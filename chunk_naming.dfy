/**
 * Storage paths and chunk file names of the chunk controller: the two
 * directory constants, the per-session chunk directory, the name
 * `chunk_<n>` written for chunk n, and the pattern `chunk_(\d+)$` with
 * the integer cast that reads an index back out of a stored path.
 */
module ChunkNaming {
  import opened Wrappers

  /** Directory of the local disk that holds one sub-directory per session. */
  const CHUNK_STORAGE_PATH: string := "temp/chunks"
  /** Directory of the public disk that receives assembled files. */
  const FINAL_STORAGE_PATH: string := "uploads"
  /** Fixed part of every chunk file name. */
  const CHUNK_PREFIX: string := "chunk_"

  /** Directory of a session's chunks: the session id appended verbatim. */
  function ChunkPath(sessionId: string): (p: string)
    ensures |p| == |CHUNK_STORAGE_PATH| + 1 + |sessionId|
    ensures p[..|CHUNK_STORAGE_PATH| + 1] == CHUNK_STORAGE_PATH + "/"
    ensures p[|CHUNK_STORAGE_PATH| + 1..] == sessionId
  {
    CHUNK_STORAGE_PATH + "/" + sessionId
  }

  /** Destination of an assembled file: the client's file name appended verbatim. */
  function FinalPath(filename: string): (p: string)
    ensures |p| == |FINAL_STORAGE_PATH| + 1 + |filename|
    ensures p[..|FINAL_STORAGE_PATH| + 1] == FINAL_STORAGE_PATH + "/"
    ensures p[|FINAL_STORAGE_PATH| + 1..] == filename
  {
    FINAL_STORAGE_PATH + "/" + filename
  }

  /** Distinct session ids get distinct chunk directories. */
  lemma ChunkPathInjective(a: string, b: string)
    requires ChunkPath(a) == ChunkPath(b)
    ensures a == b
  {
    assert a == ChunkPath(a)[|CHUNK_STORAGE_PATH| + 1..];
  }

  // ---- decimal digits ----------------------------------------------------

  predicate IsDigit(c: char) {
    '0' <= c <= '9'
  }

  predicate AllDigits(s: string) {
    forall i :: 0 <= i < |s| ==> IsDigit(s[i])
  }

  function DigitChar(d: nat): (c: char)
    requires d < 10
    ensures IsDigit(c)
  {
    (d + '0' as int) as char
  }

  function DigitValue(c: char): (d: nat)
    requires IsDigit(c)
    ensures d < 10
  {
    c as int - '0' as int
  }

  /** PHP's string form of a non-negative integer, as interpolated into `chunk_{$n}`. */
  function Decimal(n: nat): (s: string)
    ensures |s| >= 1 && AllDigits(s)
    ensures |s| > 1 ==> s[0] != '0'
  {
    if n < 10 then [DigitChar(n)] else Decimal(n / 10) + [DigitChar(n % 10)]
  }

  /** Value of a digit string, as PHP's `(int)` cast reads it (leading zeros allowed). */
  function ValueOf(s: string): nat
    requires AllDigits(s)
  {
    if s == [] then 0 else ValueOf(s[..|s| - 1]) * 10 + DigitValue(s[|s| - 1])
  }

  lemma {:induction false} ValueOfDecimal(n: nat)
    ensures ValueOf(Decimal(n)) == n
  {
    var s := Decimal(n);
    if n >= 10 {
      ValueOfDecimal(n / 10);
      assert s[..|s| - 1] == Decimal(n / 10);
    }
  }

  // ---- chunk names and the pattern chunk_(\d+)$ --------------------------

  /** Name of the file that stores chunk n of a session. */
  function ChunkName(n: nat): string {
    CHUNK_PREFIX + Decimal(n)
  }

  /** The longest suffix of s made of digits. */
  function TrailingDigits(s: string): (t: string)
    ensures |t| <= |s| && t == s[|s| - |t|..] && AllDigits(t)
    ensures |t| < |s| ==> !IsDigit(s[|s| - |t| - 1])
  {
    if s != [] && IsDigit(s[|s| - 1]) then TrailingDigits(s[..|s| - 1]) + [s[|s| - 1]] else []
  }

  lemma {:induction false} TrailingDigitsOf(a: string, d: string)
    requires AllDigits(d)
    requires a == [] || !IsDigit(a[|a| - 1])
    ensures TrailingDigits(a + d) == d
  {
    if d != [] {
      var d' := d[..|d| - 1];
      assert (a + d)[..|a + d| - 1] == a + d';
      TrailingDigitsOf(a, d');
    } else {
      assert a + d == a;
    }
  }

  /**
   * The capture group of `chunk_(\d+)$` at the end of a digit run:
   * the digits that end s, when they are preceded by `chunk_`.
   */
  function MatchAtEnd(s: string): Option<string> {
    var t := TrailingDigits(s);
    var p := s[..|s| - |t|];
    if |t| > 0 && |p| >= |CHUNK_PREFIX| && p[|p| - |CHUNK_PREFIX|..] == CHUNK_PREFIX then Some(t) else None
  }

  /**
   * `preg_match('/chunk_(\d+)$/', path)`: group 1, if any. Without the D
   * modifier PCRE's `$` also matches just before a final newline.
   */
  function MatchChunkPattern(path: string): (m: Option<string>)
    ensures m.Some? ==> |m.value| > 0 && AllDigits(m.value)
    ensures m.Some? ==>
      exists p :: path == p + CHUNK_PREFIX + m.value || path == p + CHUNK_PREFIX + m.value + "\n"
  {
    var s := if |path| > 0 && path[|path| - 1] == '\n' then path[..|path| - 1] else path;
    var m := MatchAtEnd(s);
    if m.Some? then
      var t := m.value;
      var q := s[..|s| - |t|];
      var p := q[..|q| - |CHUNK_PREFIX|];
      assert q == p + CHUNK_PREFIX;
      assert s == p + CHUNK_PREFIX + t;
      assert path == s || path == s + "\n";
      m
    else
      m
  }

  /** Every string of the form p + `chunk_` + digits (+ an optional final newline) matches, capturing the digits. */
  lemma MatchChunkPatternComplete(p: string, d: string, newline: bool)
    requires |d| > 0 && AllDigits(d)
    ensures MatchChunkPattern(p + CHUNK_PREFIX + d + (if newline then "\n" else "")) == Some(d)
  {
    var s := p + CHUNK_PREFIX + d;
    var path := s + (if newline then "\n" else "");
    assert newline ==> path[..|path| - 1] == s;
    assert !newline ==> path == s;
    assert (p + CHUNK_PREFIX)[|p + CHUNK_PREFIX| - 1] == '_';
    TrailingDigitsOf(p + CHUNK_PREFIX, d);
    assert s[..|s| - |d|] == p + CHUNK_PREFIX;
  }

  /**
   * The index read back from a stored path: the pattern's group cast to
   * an integer, or None (PHP's null) when the path does not match.
   */
  function ChunkIndexOf(path: string): (r: Option<nat>)
    ensures r.Some? <==> MatchChunkPattern(path).Some?
    ensures r.Some? ==> r.value == ValueOf(MatchChunkPattern(path).value)
  {
    match MatchChunkPattern(path)
    case Some(digits) => Some(ValueOf(digits))
    case None => None
  }

  /** Naming round trip: `chunk_{$n}` written under any directory parses back to n. */
  lemma ChunkNameRoundTrip(prefix: string, n: nat)
    ensures ChunkIndexOf(prefix + ChunkName(n)) == Some(n)
  {
    assert prefix + ChunkName(n) == prefix + CHUNK_PREFIX + Decimal(n) + "";
    MatchChunkPatternComplete(prefix, Decimal(n), false);
    ValueOfDecimal(n);
  }

  /** The path a chunk is stored under parses back to its chunk number. */
  lemma StoredChunkPathParses(sessionId: string, n: nat)
    ensures ChunkIndexOf(ChunkPath(sessionId) + "/" + ChunkName(n)) == Some(n)
  {
    ChunkNameRoundTrip(ChunkPath(sessionId) + "/", n);
  }

  /** Distinct chunk numbers are stored under distinct names. */
  lemma ChunkNameInjective(a: nat, b: nat)
    requires ChunkName(a) == ChunkName(b)
    ensures a == b
  {
    ChunkNameRoundTrip("", a);
    ChunkNameRoundTrip("", b);
    assert "" + ChunkName(a) == ChunkName(a);
    assert "" + ChunkName(b) == ChunkName(b);
  }
}
