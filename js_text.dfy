/**
 * The few JavaScript string primitives both scripts rely on, written out over
 * `seq<char>`: `trim`, `startsWith`, `endsWith`, `indexOf`, `toLowerCase` on
 * ASCII letters, and the code-point order standing in for `localeCompare`.
 */
module JsText {
  import opened Wrappers

  /** The characters JavaScript calls line terminators; regex `.` matches none of them. */
  predicate IsLineTerminator(c: char) {
    c == '\n' || c == '\r' || c == '\U{2028}' || c == '\U{2029}'
  }

  /** WhiteSpace and LineTerminator of ECMAScript: the set `trim` removes and regex `\s` matches. */
  predicate IsJsWhitespace(c: char) {
    || IsLineTerminator(c)
    || c == '\t' || c == '\U{000B}' || c == '\U{000C}' || c == ' ' || c == '\U{00A0}'
    || c == '\U{1680}' || ('\U{2000}' <= c <= '\U{200A}') || c == '\U{202F}'
    || c == '\U{205F}' || c == '\U{3000}' || c == '\U{FEFF}'
  }

  predicate StartsWith(s: string, prefix: string) {
    prefix <= s
  }

  predicate EndsWith(s: string, suffix: string) {
    |suffix| <= |s| && s[|s| - |suffix|..] == suffix
  }

  /** `pattern` occurs in `s` starting at index `i`. */
  predicate OccursAt(s: string, pattern: string, i: int) {
    0 <= i && i + |pattern| <= |s| && s[i..i + |pattern|] == pattern
  }

  /** `String.prototype.trimStart`: drops the leading whitespace. */
  function TrimStart(s: string): string {
    if |s| > 0 && IsJsWhitespace(s[0]) then TrimStart(s[1..]) else s
  }

  /** `String.prototype.trimEnd`: drops the trailing whitespace. */
  function TrimEnd(s: string): string {
    if |s| > 0 && IsJsWhitespace(s[|s| - 1]) then TrimEnd(s[..|s| - 1]) else s
  }

  /** `trimStart` removes a whitespace prefix and stops at the first other character. */
  lemma {:induction false} TrimStartSpec(s: string)
    ensures var r := TrimStart(s);
      && |r| <= |s| && r == s[|s| - |r|..]
      && (r == [] || !IsJsWhitespace(r[0]))
      && forall i :: 0 <= i < |s| - |r| ==> IsJsWhitespace(s[i])
  {
    if |s| > 0 && IsJsWhitespace(s[0]) {
      TrimStartSpec(s[1..]);
    }
  }

  /** `trimEnd` removes a whitespace suffix and stops at the last other character. */
  lemma {:induction false} TrimEndSpec(s: string)
    ensures var r := TrimEnd(s);
      && |r| <= |s| && r == s[..|r|]
      && (r == [] || !IsJsWhitespace(r[|r| - 1]))
      && forall i :: |r| <= i < |s| ==> IsJsWhitespace(s[i])
  {
    if |s| > 0 && IsJsWhitespace(s[|s| - 1]) {
      TrimEndSpec(s[..|s| - 1]);
    }
  }

  /** `String.prototype.trim`. */
  function Trim(s: string): string {
    TrimEnd(TrimStart(s))
  }

  /** Trimming leaves a string that starts with a non-whitespace prefix starting with that prefix. */
  lemma TrimKeepsLeadingText(prefix: string, rest: string)
    requires prefix != [] && forall i :: 0 <= i < |prefix| ==> !IsJsWhitespace(prefix[i])
    ensures StartsWith(Trim(prefix + rest), prefix)
  {
    var s := prefix + rest;
    assert s[0] == prefix[0];
    assert TrimStart(s) == s;
    var r := TrimEnd(s);
    TrimEndSpec(s);
    assert !IsJsWhitespace(s[|prefix| - 1]);
    assert |prefix| <= |r|;
    assert r[..|prefix|] == s[..|prefix|];
  }

  /**
   * `s.indexOf(pattern, from)`: the first occurrence at or after `from`,
   * or None where JavaScript answers -1.
   */
  function IndexOf(s: string, pattern: string, from: nat): (r: Option<nat>)
    requires from <= |s|
    ensures r.Some? ==> from <= r.value && r.value + |pattern| <= |s|
    decreases |s| - from
  {
    if from + |pattern| > |s| then None
    else if s[from..from + |pattern|] == pattern then Some(from)
    else IndexOf(s, pattern, from + 1)
  }

  /** `indexOf` answers the first occurrence at or after `from`, and -1 only when there is none. */
  lemma {:induction false} IndexOfSpec(s: string, pattern: string, from: nat)
    requires from <= |s|
    ensures var r := IndexOf(s, pattern, from);
      && (r.Some? ==> OccursAt(s, pattern, r.value))
      && (r.Some? ==> forall i :: from <= i < r.value ==> !OccursAt(s, pattern, i))
      && (r.None? ==> forall i :: from <= i ==> !OccursAt(s, pattern, i))
    decreases |s| - from
  {
    if from + |pattern| <= |s| && s[from..from + |pattern|] != pattern {
      IndexOfSpec(s, pattern, from + 1);
    }
  }

  /** An occurrence at `k` with none between `from` and `k` is the one `indexOf` reports. */
  lemma {:induction false} IndexOfFirst(s: string, pattern: string, from: nat, k: nat)
    requires from <= k && OccursAt(s, pattern, k)
    requires forall i :: from <= i < k ==> !OccursAt(s, pattern, i)
    ensures IndexOf(s, pattern, from) == Some(k)
    decreases k - from
  {
    if from < k {
      assert !OccursAt(s, pattern, from);
      IndexOfFirst(s, pattern, from + 1, k);
    }
  }

  /** Searching from `from` finds in `s` what searching `s[from..]` from its start finds, shifted. */
  lemma {:induction false} IndexOfShift(s: string, from: nat, pattern: string, k: nat)
    requires from <= |s| && IndexOf(s[from..], pattern, 0) == Some(k)
    ensures IndexOf(s, pattern, from) == Some(from + k)
  {
    var t := s[from..];
    IndexOfSpec(t, pattern, 0);
    assert OccursAt(s, pattern, from + k) by {
      SuffixSlice(s, from, k, k + |pattern|);
    }
    forall i | from <= i < from + k
      ensures !OccursAt(s, pattern, i)
    {
      assert !OccursAt(t, pattern, i - from);
      if i + |pattern| <= |s| {
        SuffixSlice(s, from, i - from, i - from + |pattern|);
      }
    }
    IndexOfFirst(s, pattern, from, from + k);
  }

  lemma SuffixSlice(s: string, from: nat, i: nat, j: nat)
    requires from <= |s| && i <= j <= |s| - from
    ensures s[from + i..from + j] == s[from..][i..j]
  {
    forall m | 0 <= m < j - i
      ensures s[from + i..from + j][m] == s[from..][i..j][m]
    {
      assert s[from..][i + m] == s[from + i + m];
    }
  }

  /** `toLowerCase` restricted to ASCII letters; every string it is applied to here is ASCII. */
  function AsciiLower(s: string): (r: string)
    ensures |r| == |s|
    ensures forall i :: 0 <= i < |s| ==>
      r[i] == if 'A' <= s[i] <= 'Z' then (s[i] - 'A' + 'a') as char else s[i]
  {
    if s == [] then []
    else [if 'A' <= s[0] <= 'Z' then (s[0] - 'A' + 'a') as char else s[0]] + AsciiLower(s[1..])
  }

  /**
   * Three-way comparison by code point, the total order that stands in for
   * `localeCompare` (whose collation depends on the host's locale).
   */
  function LexCompare(a: string, b: string): int {
    if a == [] && b == [] then 0
    else if a == [] then -1
    else if b == [] then 1
    else if a[0] < b[0] then -1
    else if a[0] > b[0] then 1
    else LexCompare(a[1..], b[1..])
  }

  lemma {:induction false} LexCompareSigns(a: string, b: string)
    ensures -1 <= LexCompare(a, b) <= 1
    ensures LexCompare(a, b) == 0 <==> a == b
    ensures LexCompare(b, a) == -LexCompare(a, b)
  {
    if a != [] && b != [] && a[0] == b[0] {
      LexCompareSigns(a[1..], b[1..]);
      if a[1..] == b[1..] {
        assert a == [a[0]] + a[1..] && b == [b[0]] + b[1..];
      }
    }
  }

  lemma {:induction false} LexCompareTransitive(a: string, b: string, c: string)
    requires LexCompare(a, b) <= 0 && LexCompare(b, c) <= 0
    ensures LexCompare(a, c) <= 0
  {
    if a != [] && b != [] && c != [] && a[0] == b[0] && b[0] == c[0] {
      LexCompareTransitive(a[1..], b[1..], c[1..]);
    }
  }

  /** The components of a relative path joined with `/`, as `path.relative` prints it. */
  function JoinPath(p: seq<string>): string {
    if p == [] then ""
    else if |p| == 1 then p[0]
    else JoinPath(p[..|p| - 1]) + "/" + p[|p| - 1]
  }
}
