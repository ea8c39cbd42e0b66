/**
 * The per-file text work of scripts/generate-llms-txt.ts: the `title:` and
 * `description:` captures, front-matter removal, and the URL built from the
 * relative path, each regular expression written out as the scan it performs.
 */
module LlmsText {
  import opened Wrappers
  import opened JsText

  /** The first index at or after `from` that regex `\s*` cannot consume. */
  function SkipSpace(s: string, from: nat): (r: nat)
    requires from <= |s|
    ensures from <= r <= |s|
    decreases |s| - from
  {
    if from < |s| && IsJsWhitespace(s[from]) then SkipSpace(s, from + 1) else from
  }

  /** The first line terminator at or after `from`, or `|s|`: where regex `.*` stops. */
  function LineEnd(s: string, from: nat): (r: nat)
    requires from <= |s|
    ensures from <= r <= |s|
    decreases |s| - from
  {
    if from < |s| && !IsLineTerminator(s[from]) then LineEnd(s, from + 1) else from
  }

  lemma {:induction false} SkipSpaceSpec(s: string, from: nat)
    requires from <= |s|
    ensures var r := SkipSpace(s, from);
      && (forall i :: from <= i < r ==> IsJsWhitespace(s[i]))
      && (r == |s| || !IsJsWhitespace(s[r]))
    decreases |s| - from
  {
    if from < |s| && IsJsWhitespace(s[from]) {
      SkipSpaceSpec(s, from + 1);
    }
  }

  lemma {:induction false} LineEndSpec(s: string, from: nat)
    requires from <= |s|
    ensures var r := LineEnd(s, from);
      && (forall i :: from <= i < r ==> !IsLineTerminator(s[i]))
      && (r == |s| || IsLineTerminator(s[r]))
    decreases |s| - from
  {
    if from < |s| && !IsLineTerminator(s[from]) {
      LineEndSpec(s, from + 1);
    }
  }

  /**
   * `content.match(/<key>:\s*(.*)/)?.[1]`: the leftmost `<key>:` (also inside a
   * longer word), then all whitespace including line breaks, then the rest of
   * that line. None when `<key>:` does not occur.
   */
  function FieldCapture(content: string, key: string): Option<string> {
    var pattern := key + ":";
    match IndexOf(content, pattern, 0)
    case None => None
    case Some(at) =>
      var start := SkipSpace(content, at + |pattern|);
      Some(content[start..LineEnd(content, start)])
  }

  /**
   * There is a capture exactly when `<key>:` occurs, and what it captures is a
   * single line that does not open with whitespace.
   */
  lemma FieldCaptureShape(content: string, key: string)
    ensures FieldCapture(content, key).None? <==> forall i :: 0 <= i ==> !OccursAt(content, key + ":", i)
    ensures FieldCapture(content, key).Some? ==> OneLineValue(FieldCapture(content, key).value)
  {
    var pattern := key + ":";
    IndexOfSpec(content, pattern, 0);
    match IndexOf(content, pattern, 0)
    case None =>
      assert FieldCapture(content, key) == None;
    case Some(at) =>
      assert OccursAt(content, pattern, at);
      CapturedLine(content, at + |pattern|);
  }

  /** Skipping blanks from `from` and taking the rest of the line gives a one-line value. */
  lemma CapturedLine(s: string, from: nat)
    requires from <= |s|
    ensures var start := SkipSpace(s, from); OneLineValue(s[start..LineEnd(s, start)])
  {
    var start := SkipSpace(s, from);
    SkipSpaceSpec(s, from);
    LineEndSpec(s, start);
    var v := s[start..LineEnd(s, start)];
    assert forall i :: 0 <= i < |v| ==> v[i] == s[start + i];
  }

  /** A value a `<key>: value` line carries whole: one line, not opening with whitespace. */
  predicate OneLineValue(v: string) {
    && (forall i :: 0 <= i < |v| ==> !IsLineTerminator(v[i]))
    && (v != [] ==> !IsJsWhitespace(v[0]))
  }

  lemma {:induction false} SkipSpaceOver(s: string, from: nat, n: nat)
    requires from + n <= |s|
    requires forall i :: from <= i < from + n ==> IsJsWhitespace(s[i])
    requires from + n == |s| || !IsJsWhitespace(s[from + n])
    ensures SkipSpace(s, from) == from + n
    decreases n
  {
    if n > 0 {
      SkipSpaceOver(s, from + 1, n - 1);
    }
  }

  lemma {:induction false} LineEndOver(s: string, from: nat, n: nat)
    requires from + n <= |s|
    requires forall i :: from <= i < from + n ==> !IsLineTerminator(s[i])
    requires from + n == |s| || IsLineTerminator(s[from + n])
    ensures LineEnd(s, from) == from + n
    decreases n
  {
    if n > 0 {
      LineEndOver(s, from + 1, n - 1);
    }
  }

  /**
   * Where `<key>:` first occurs at the end of `pre + <key>:`, the capture is the
   * value written after it: `spaces` stands for the blanks after the colon.
   */
  lemma FieldCaptureReadsLine(pre: string, key: string, spaces: string, v: string, rest: string)
    requires forall i :: 0 <= i < |pre| ==> !OccursAt(pre + (key + ":"), key + ":", i)
    requires forall i :: 0 <= i < |spaces| ==> IsJsWhitespace(spaces[i])
    requires OneLineValue(v) && v != []
    requires rest == [] || IsLineTerminator(rest[0])
    ensures FieldCapture(pre + (key + ":") + spaces + v + rest, key) == Some(v)
  {
    var pattern := key + ":";
    var head := pre + pattern;
    var s := pre + (key + ":") + spaces + v + rest;
    var start, stop := |head| + |spaces|, |head| + |spaces| + |v|;
    assert IndexOf(s, pattern, 0) == Some(|pre|) by {
      assert s == head + (spaces + v + rest);
      FirstOccurrenceExtended(head, spaces + v + rest, pattern, |pre|);
    }
    assert SkipSpace(s, |head|) == start by {
      assert s == head + spaces + (v + rest);
      SkipSpaceBlock(head, spaces, v + rest);
    }
    assert LineEnd(s, start) == stop by {
      LineEndBlock(head + spaces, v, rest);
    }
    assert s[start..stop] == v by {
      MiddleSlice(head + spaces, v, rest);
    }
    FieldCaptureUnfold(s, key, |pre|, start, stop);
  }

  /** `\s*` after `head` consumes exactly the blanks `spaces`. */
  lemma SkipSpaceBlock(head: string, spaces: string, post: string)
    requires forall i :: 0 <= i < |spaces| ==> IsJsWhitespace(spaces[i])
    requires post == [] || !IsJsWhitespace(post[0])
    ensures SkipSpace(head + spaces + post, |head|) == |head| + |spaces|
  {
    var s := head + spaces + post;
    forall i | |head| <= i < |head| + |spaces|
      ensures IsJsWhitespace(s[i])
    {
      assert s[i] == spaces[i - |head|];
    }
    if post != [] {
      assert s[|head| + |spaces|] == post[0];
    }
    SkipSpaceOver(s, |head|, |spaces|);
  }

  /** `.*` after `head` consumes exactly the one-line text `v`. */
  lemma LineEndBlock(head: string, v: string, post: string)
    requires forall i :: 0 <= i < |v| ==> !IsLineTerminator(v[i])
    requires post == [] || IsLineTerminator(post[0])
    ensures LineEnd(head + v + post, |head|) == |head| + |v|
  {
    var s := head + v + post;
    forall i | |head| <= i < |head| + |v|
      ensures !IsLineTerminator(s[i])
    {
      assert s[i] == v[i - |head|];
    }
    if post != [] {
      assert s[|head| + |v|] == post[0];
    }
    LineEndOver(s, |head|, |v|);
  }

  lemma MiddleSlice(a: string, b: string, c: string)
    ensures (a + b + c)[|a|..|a| + |b|] == b
  {
    assert forall i :: 0 <= i < |b| ==> (a + b + c)[|a|..|a| + |b|][i] == b[i];
  }

  lemma FieldCaptureUnfold(s: string, key: string, at: nat, start: nat, stop: nat)
    requires IndexOf(s, key + ":", 0) == Some(at)
    requires at + |key| + 1 <= |s| && SkipSpace(s, at + |key| + 1) == start
    requires LineEnd(s, start) == stop
    ensures FieldCapture(s, key) == Some(s[start..stop])
  {
    FieldCaptureAt(s, key, at);
  }

  /** The capture starts right after the first `<key>:`. */
  lemma FieldCaptureAt(s: string, key: string, at: nat)
    requires IndexOf(s, key + ":", 0) == Some(at)
    ensures at + |key| + 1 <= |s|
    ensures var start := SkipSpace(s, at + |key| + 1);
      FieldCapture(s, key) == Some(s[start..LineEnd(s, start)])
  {
    var pattern := key + ":";
    assert |pattern| == |key| + 1;
  }

  /** The first occurrence of `pattern` as the suffix of `head` stays the first when text follows. */
  lemma FirstOccurrenceExtended(head: string, tail: string, pattern: string, k: nat)
    requires k + |pattern| == |head| && head[k..] == pattern
    requires forall i :: 0 <= i < k ==> !OccursAt(head, pattern, i)
    ensures IndexOf(head + tail, pattern, 0) == Some(k)
  {
    var s := head + tail;
    forall i | 0 <= i < k
      ensures !OccursAt(s, pattern, i)
    {
      assert !OccursAt(head, pattern, i);
      assert i + |pattern| <= |head|;
      assert s[i..i + |pattern|] == head[i..i + |pattern|];
    }
    assert s[k..k + |pattern|] == pattern;
    IndexOfFirst(s, pattern, 0, k);
  }

  /**
   * `content.replace(/---[\s\S]*?---/, '').trim()`: the text from the first
   * `---` through the next `---` that starts after it is removed (nothing when
   * there is no such pair), and the rest trimmed.
   */
  function CleanContent(content: string): string
  {
    match IndexOf(content, "---", 0)
    case None => Trim(content)
    case Some(open) =>
      match IndexOf(content, "---", open + 3)
      case None => Trim(content)
      case Some(close) => Trim(content[..open] + content[close + 3..])
  }

  /**
   * A front-matter block `---fm---` whose delimiters are the first two
   * occurrences of `---` disappears, with the text before and after kept and
   * then trimmed.
   */
  lemma CleanContentDropsBlock(pre: string, fm: string, body: string)
    requires forall i :: 0 <= i < |pre| ==> !OccursAt(pre + "---", "---", i)
    requires forall i :: 0 <= i < |fm| ==> !OccursAt(fm + "---", "---", i)
    ensures CleanContent(pre + "---" + fm + "---" + body) == Trim(pre + body)
  {
    var s := pre + "---" + fm + "---" + body;
    FirstOccurrenceExtended(pre + "---", fm + "---" + body, "---", |pre|);
    assert s == (pre + "---") + (fm + "---" + body);
    var from := |pre| + 3;
    assert s[from..] == (fm + "---") + body;
    FirstOccurrenceExtended(fm + "---", body, "---", |fm|);
    IndexOfShift(s, from, "---", |fm|);
    assert s[..|pre|] == pre;
    assert s[from + |fm| + 3..] == body;
  }

  /** Text without two non-overlapping `---` is only trimmed. */
  lemma CleanContentWithoutBlock(content: string)
    requires forall i, j :: 0 <= i && i + 3 <= j && OccursAt(content, "---", i) ==> !OccursAt(content, "---", j)
    ensures CleanContent(content) == Trim(content)
  {
    IndexOfSpec(content, "---", 0);
    var first := IndexOf(content, "---", 0);
    if first.Some? {
      IndexOfSpec(content, "---", first.value + 3);
    }
  }

  /** `.replace(/\.(md|mdx)$/, '')`. */
  function StripExtension(rel: string): (r: string)
    ensures EndsWith(rel, ".md") ==> rel == r + ".md"
    ensures EndsWith(rel, ".mdx") ==> rel == r + ".mdx"
    ensures !EndsWith(rel, ".md") && !EndsWith(rel, ".mdx") ==> r == rel
  {
    if EndsWith(rel, ".md") then
      assert !EndsWith(rel, ".mdx") by {
        assert rel[|rel| - 1] == 'd';
      }
      assert rel == rel[..|rel| - 3] + rel[|rel| - 3..];
      rel[..|rel| - 3]
    else if EndsWith(rel, ".mdx") then
      assert rel == rel[..|rel| - 4] + rel[|rel| - 4..];
      rel[..|rel| - 4]
    else rel
  }

  /** `.replace(/index$/, '')`: a trailing `index` goes, also at the end of a longer name. */
  function StripIndex(s: string): (r: string)
    ensures EndsWith(s, "index") ==> s == r + "index"
    ensures !EndsWith(s, "index") ==> r == s
  {
    if EndsWith(s, "index") then
      assert s == s[..|s| - 5] + s[|s| - 5..];
      s[..|s| - 5]
    else s
  }

  /** The route of a page: the relative path without its extension and without a trailing `index`. */
  function UrlPath(rel: string): string {
    StripIndex(StripExtension(rel))
  }

  /** Position `i` opens a match of `([^:]\/)\/+`. */
  predicate DoubleSlashAt(s: string, i: int) {
    0 <= i && i + 2 < |s| && s[i] != ':' && s[i + 1] == '/' && s[i + 2] == '/'
  }

  /** No run of slashes longer than one except right after a colon. */
  predicate Collapsed(s: string) {
    forall i :: 0 <= i < |s| ==> !DoubleSlashAt(s, i)
  }

  /** The slashes at the front of `s` removed. */
  function DropSlashes(s: string): (r: string)
    ensures |r| <= |s| && r == s[|s| - |r|..]
    ensures r == [] || r[0] != '/'
    ensures forall i :: 0 <= i < |s| - |r| ==> s[i] == '/'
  {
    if s != [] && s[0] == '/' then DropSlashes(s[1..]) else s
  }

  /**
   * `.replace(/([^:]\/)\/+/g, '$1')`: scanning from the left, a character other
   * than `:` followed by two or more slashes keeps one slash; the scan resumes
   * after the removed slashes.
   */
  function Collapse(s: string): (r: string)
    ensures |r| <= |s|
    ensures |s| >= 1 ==> |r| >= 1 && r[0] == s[0]
    ensures |s| >= 2 ==> |r| >= 2 && r[1] == s[1]
    decreases |s|
  {
    if |s| < 3 then s
    else if DoubleSlashAt(s, 0) then [s[0], '/'] + Collapse(DropSlashes(s[2..]))
    else [s[0]] + Collapse(s[1..])
  }

  /** The characters of `s` other than `/`, in order. */
  function NonSlash(s: string): string {
    if s == [] then [] else (if s[0] == '/' then [] else [s[0]]) + NonSlash(s[1..])
  }

  lemma {:induction false} NonSlashDropSlashes(s: string)
    ensures NonSlash(DropSlashes(s)) == NonSlash(s)
    decreases |s|
  {
    if s != [] && s[0] == '/' {
      NonSlashDropSlashes(s[1..]);
    }
  }

  lemma {:induction false} NonSlashAppend(a: string, b: string)
    ensures NonSlash(a + b) == NonSlash(a) + NonSlash(b)
    decreases |a|
  {
    if a != [] {
      NonSlashAppend(a[1..], b);
      assert (a + b)[1..] == a[1..] + b;
    } else {
      assert a + b == b;
    }
  }

  /** Collapsing removes slashes only: every other character stays, in order. */
  lemma {:induction false} CollapseRemovesOnlySlashes(s: string)
    ensures NonSlash(Collapse(s)) == NonSlash(s)
    decreases |s|
  {
    if |s| >= 3 {
      if DoubleSlashAt(s, 0) {
        CollapseRemovesOnlySlashes(DropSlashes(s[2..]));
        NonSlashDropSlashes(s[2..]);
        NonSlashCons([s[0], '/'], Collapse(DropSlashes(s[2..])), s[2..]);
      } else {
        CollapseRemovesOnlySlashes(s[1..]);
        NonSlashCons([s[0]], Collapse(s[1..]), s[1..]);
      }
    }
  }

  /** Text with the same non-slash characters keeps that property behind a common front `a`. */
  lemma NonSlashCons(a: string, x: string, y: string)
    requires NonSlash(x) == NonSlash(y)
    ensures NonSlash(a + x) == NonSlash(a + y)
  {
    NonSlashAppend(a, x);
    NonSlashAppend(a, y);
  }

  /** The result has no doubled slash left except after a colon. */
  lemma {:induction false} CollapseCollapses(s: string)
    ensures Collapsed(Collapse(s))
    decreases |s|
  {
    if |s| < 3 {
      assert forall i :: 0 <= i < |s| ==> !DoubleSlashAt(s, i);
    } else if DoubleSlashAt(s, 0) {
      CollapseCollapses(DropSlashes(s[2..]));
      CollapseDoubleStep(s);
    } else {
      CollapseCollapses(s[1..]);
      ConsCollapsed(s[0], Collapse(s[1..]));
    }
  }

  lemma CollapseDoubleStep(s: string)
    requires DoubleSlashAt(s, 0) && Collapsed(Collapse(DropSlashes(s[2..])))
    ensures Collapsed(Collapse(s))
  {
    var c := Collapse(DropSlashes(s[2..]));
    ConsCollapsed('/', c);
    ConsCollapsed(s[0], ['/'] + c);
    assert [s[0], '/'] + c == [s[0]] + (['/'] + c);
  }

  /** Putting `x` in front of a collapsed string keeps it collapsed unless that opens a doubled slash. */
  lemma ConsCollapsed(x: char, c: string)
    requires Collapsed(c)
    requires !(|c| >= 2 && x != ':' && c[0] == '/' && c[1] == '/')
    ensures Collapsed([x] + c)
  {
    var r := [x] + c;
    forall i | 0 <= i < |r|
      ensures !DoubleSlashAt(r, i)
    {
      if 1 <= i {
        assert !DoubleSlashAt(c, i - 1);
      }
    }
  }

  /** A string with no doubled slash outside `://` is left as it is. */
  lemma {:induction false} CollapseKeepsCollapsed(s: string)
    requires Collapsed(s)
    ensures Collapse(s) == s
    decreases |s|
  {
    if |s| >= 3 {
      assert !DoubleSlashAt(s, 0);
      forall i | 0 <= i < |s| - 1
        ensures !DoubleSlashAt(s[1..], i)
      {
        assert !DoubleSlashAt(s, i + 1);
      }
      CollapseKeepsCollapsed(s[1..]);
    }
  }

  /** Applying the replacement twice changes nothing more. */
  lemma CollapseIdempotent(s: string)
    ensures Collapse(Collapse(s)) == Collapse(s)
  {
    CollapseCollapses(s);
    CollapseKeepsCollapsed(Collapse(s));
  }

  /**
   * The replacement, run by run: `s[i]` survives unless it is a slash that
   * follows a slash which is not the first slash of a run opening the text or
   * following `:`. So a maximal run of `n` slashes after any other character
   * becomes one slash, and a run that opens the text or follows `:` becomes
   * `min(n, 2)` slashes.
   */
  predicate KeptAt(s: string, i: nat)
    requires i < |s|
  {
    s[i] != '/' || i < 2 || s[i - 1] != '/' || s[i - 2] == ':'
  }

  /** The characters of `s` from position `i` on that the replacement keeps, in order. */
  function KeptFrom(s: string, i: nat): string
    requires i <= |s|
    decreases |s| - i
  {
    if i == |s| then [] else (if KeptAt(s, i) then [s[i]] else []) + KeptFrom(s, i + 1)
  }

  /** Past two kept positions, the kept characters of `s` from `d` are those of the suffix `s[d..]`. */
  lemma {:induction false} KeptFromShift(s: string, d: nat, k: nat)
    requires d + k <= |s|
    requires d < |s| ==> KeptAt(s, d)
    requires d + 1 < |s| ==> KeptAt(s, d + 1)
    ensures KeptFrom(s, d + k) == KeptFrom(s[d..], k)
    decreases |s| - d - k
  {
    if d + k < |s| {
      KeptFromShift(s, d, k + 1);
      assert KeptAt(s, d + k) == KeptAt(s[d..], k);
    }
  }

  /** The slashes `s[i..j]` that continue a run after a character other than `:` are all dropped. */
  lemma {:induction false} KeptFromSkipsRun(s: string, i: nat, j: nat)
    requires 2 <= i <= j <= |s| && s[i - 2] != ':' && s[i - 1] == '/'
    requires forall m :: i <= m < j ==> s[m] == '/'
    ensures KeptFrom(s, i) == KeptFrom(s, j)
    decreases j - i
  {
    if i < j {
      assert !KeptAt(s, i);
      KeptFromSkipsRun(s, i + 1, j);
    }
  }

  /** The scan of `Collapse` produces exactly the characters `KeptAt` keeps. */
  lemma {:induction false} CollapseRunWise(s: string)
    ensures Collapse(s) == KeptFrom(s, 0)
    decreases |s|
  {
    if |s| < 3 {
      KeptShort(s);
    } else if DoubleSlashAt(s, 0) {
      CollapseRunWise(DropSlashes(s[2..]));
      KeptRunStep(s);
    } else {
      CollapseRunWise(s[1..]);
      KeptPlainStep(s);
    }
  }

  lemma KeptShort(s: string)
    requires |s| < 3
    ensures Collapse(s) == KeptFrom(s, 0)
  {
    KeptFromAll(s, 0);
  }

  /** Where every position from `i` on is kept, the kept characters are the suffix itself. */
  lemma {:induction false} KeptFromAll(s: string, i: nat)
    requires i <= |s|
    requires forall j :: i <= j < |s| ==> KeptAt(s, j)
    ensures KeptFrom(s, i) == s[i..]
    decreases |s| - i
  {
    if i < |s| {
      KeptFromAll(s, i + 1);
      assert s[i..] == [s[i]] + s[i + 1..];
    }
  }

  lemma KeptRunStep(s: string)
    requires |s| >= 3 && DoubleSlashAt(s, 0)
    requires Collapse(DropSlashes(s[2..])) == KeptFrom(DropSlashes(s[2..]), 0)
    ensures Collapse(s) == KeptFrom(s, 0)
  {
    KeptRunHead(s);
    KeptRunTail(s);
  }

  /** The character before a doubled slash and the first slash are kept. */
  lemma KeptRunHead(s: string)
    requires |s| >= 3 && DoubleSlashAt(s, 0)
    ensures KeptFrom(s, 0) == [s[0], '/'] + KeptFrom(s, 2)
  {
    assert KeptAt(s, 0) && KeptAt(s, 1);
    assert KeptFrom(s, 0) == [s[0]] + KeptFrom(s, 1);
    assert KeptFrom(s, 1) == [s[1]] + KeptFrom(s, 2);
    assert [s[0]] + ([s[1]] + KeptFrom(s, 2)) == [s[0], s[1]] + KeptFrom(s, 2);
  }

  /** The rest of the run is dropped, and what follows it is kept as on its own. */
  lemma KeptRunTail(s: string)
    requires |s| >= 3 && DoubleSlashAt(s, 0)
    ensures KeptFrom(s, 2) == KeptFrom(DropSlashes(s[2..]), 0)
  {
    var r := DropSlashes(s[2..]);
    var d := |s| - |r|;
    assert r == s[d..];
    forall m | 2 <= m < d
      ensures s[m] == '/'
    {
      assert s[m] == s[2..][m - 2];
    }
    KeptFromSkipsRun(s, 2, d);
    KeptFromShift(s, d, 0);
  }

  lemma KeptPlainStep(s: string)
    requires |s| >= 3 && !DoubleSlashAt(s, 0)
    requires Collapse(s[1..]) == KeptFrom(s[1..], 0)
    ensures Collapse(s) == KeptFrom(s, 0)
  {
    KeptFromShift(s, 1, 0);
    assert KeptAt(s, 0);
  }

  /** Kept characters of a prefix are kept in the whole text. */
  lemma {:induction false} KeptFromSplit(s: string, j: nat, i: nat)
    requires j <= i <= |s|
    ensures KeptFrom(s, j) == KeptFrom(s[..i], j) + KeptFrom(s, i)
    decreases i - j
  {
    if j < i {
      KeptFromSplit(s, j + 1, i);
      assert KeptAt(s, j) == KeptAt(s[..i], j);
    }
  }

  /** The `//` after a `:` survives the replacement, whatever follows it. */
  lemma CollapseKeepsScheme(u: string, v: string)
    ensures Collapse(u + ":") + "//" <= Collapse(u + "://" + v)
  {
    var s := u + "://" + v;
    assert s[..|u| + 1] == u + ":";
    assert s[|u|] == ':' && s[|u| + 1] == '/' && s[|u| + 2] == '/';
    SchemeSurvives(s, |u|);
  }

  lemma SchemeSurvives(s: string, n: nat)
    requires n + 3 <= |s| && s[n] == ':' && s[n + 1] == '/' && s[n + 2] == '/'
    ensures Collapse(s[..n + 1]) + "//" <= Collapse(s)
  {
    CollapseRunWise(s);
    CollapseRunWise(s[..n + 1]);
    KeptFromSplit(s, 0, n + 1);
    SchemeSlashesKept(s, n);
  }

  /** Both slashes right after a `:` are kept. */
  lemma SchemeSlashesKept(s: string, n: nat)
    requires n + 3 <= |s| && s[n] == ':' && s[n + 1] == '/' && s[n + 2] == '/'
    ensures KeptFrom(s, n + 1) == "//" + KeptFrom(s, n + 3)
  {
    assert KeptAt(s, n + 1) && KeptAt(s, n + 2);
    assert KeptFrom(s, n + 2) == "/" + KeptFrom(s, n + 3);
    assert KeptFrom(s, n + 1) == "/" + KeptFrom(s, n + 2);
  }

  /** `${BASE_URL}/${urlPath}` with its slashes normalised. */
  function FullUrl(baseUrl: string, rel: string): string {
    Collapse(baseUrl + "/" + UrlPath(rel))
  }
}
