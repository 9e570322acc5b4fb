/** The Kotlin string operations that the instrumentation parser and the request
    builders rely on (`startsWith`, `indexOf`, `split`, `joinToString`, `lines`,
    `trim`), over `string`, a sequence of characters. */
module Text {
  import opened Wrappers

  predicate StartsWith(s: string, prefix: string) {
    |prefix| <= |s| && s[..|prefix|] == prefix
  }

  predicate EndsWith(s: string, suffix: string) {
    |suffix| <= |s| && s[|s| - |suffix|..] == suffix
  }

  /** `d` occurs in `s` at index `i`. */
  predicate OccursAt(s: string, d: string, i: nat) {
    i + |d| <= |s| && s[i..i + |d|] == d
  }

  predicate Contains(s: string, d: string) {
    exists i: nat | i <= |s| :: OccursAt(s, d, i)
  }

  /** Kotlin's `s.indexOf(d, from)`: the first occurrence of `d` at or after `from`. */
  function IndexOf(s: string, d: string, from: nat): (r: Option<nat>)
    requires |d| > 0
    ensures r.Some? ==> from <= r.value && r.value + |d| <= |s|
    decreases |s| - from
  {
    if from + |d| > |s| then None
    else if s[from..from + |d|] == d then Some(from)
    else IndexOf(s, d, from + 1)
  }

  /** Kotlin's `s.split(d)` for a non-empty delimiter: the text between
      successive non-overlapping occurrences of `d`, scanning left to right,
      empty pieces included. */
  function Split(s: string, d: string): (parts: seq<string>)
    requires |d| > 0
    ensures |parts| >= 1
    decreases |s|
  {
    match IndexOf(s, d, 0)
    case None => [s]
    case Some(i) => [s[..i]] + Split(s[i + |d|..], d)
  }

  /** Kotlin's `parts.joinToString(sep)`. */
  function Join(parts: seq<string>, sep: string): string {
    if |parts| == 0 then ""
    else if |parts| == 1 then parts[0]
    else parts[0] + sep + Join(parts[1..], sep)
  }

  /** Kotlin's `s.lines()` on text whose only line terminator is `\n`. */
  function Lines(s: string): (lines: seq<string>)
    ensures |lines| >= 1
    ensures forall i :: 0 <= i < |lines| ==> '\n' !in lines[i]
  {
    var lines := Split(s, "\n");
    SplitPartsAvoid(s, "\n");
    forall i | 0 <= i < |lines| ensures '\n' !in lines[i] {
      CharNotContained(lines[i], '\n');
    }
    lines
  }

  /** Kotlin's `Char.isWhitespace()`: the ASCII controls Java treats as
      white space, and the Unicode space, line and paragraph separators. */
  predicate IsWhitespace(c: char) {
    c == ' ' || ('\t' <= c <= '\r') || ('\U{1C}' <= c <= '\U{1F}')
    || c == '\U{A0}' || c == '\U{1680}' || ('\U{2000}' <= c <= '\U{200A}')
    || c == '\U{2028}' || c == '\U{2029}' || c == '\U{202F}' || c == '\U{205F}' || c == '\U{3000}'
  }

  /** The suffix of `s` left after dropping its leading white space. */
  function TrimStart(s: string): (r: string)
    ensures |r| <= |s|
    ensures r == [] || !IsWhitespace(r[0])
    decreases |s|
  {
    if |s| > 0 && IsWhitespace(s[0]) then TrimStart(s[1..]) else s
  }

  /** The prefix of `s` left after dropping its trailing white space. */
  function TrimEnd(s: string): (r: string)
    ensures |r| <= |s| && r == s[..|r|]
    ensures forall i :: |r| <= i < |s| ==> IsWhitespace(s[i])
    ensures r == [] || !IsWhitespace(r[|r| - 1])
    decreases |s|
  {
    if |s| > 0 && IsWhitespace(s[|s| - 1]) then TrimEnd(s[..|s| - 1]) else s
  }

  /** Kotlin's `s.trim()`: the text with only white space removed from its
      two ends, and neither end of the result is white space. */
  function Trim(s: string): (r: string)
    ensures r == [] || (!IsWhitespace(r[0]) && !IsWhitespace(r[|r| - 1]))
    ensures |r| <= |s|
    ensures exists i, j :: (0 <= i <= j <= |s| && r == s[i..j]
      && (forall k :: 0 <= k < i ==> IsWhitespace(s[k]))
      && (forall k :: j <= k < |s| ==> IsWhitespace(s[k])))
  {
    var t := TrimStart(s);
    var r := TrimEnd(t);
    TrimSlice(s);
    var i, j := |s| - |t|, |s| - |t| + |r|;
    assert r == s[i..j];
    r
  }

  // ---------------------------------------------------------------------------
  // Lemmas

  /** `IndexOf` finds the first occurrence at or after `from`, and `None`
      means there is none. */
  lemma {:induction false} IndexOfFirst(s: string, d: string, from: nat)
    requires |d| > 0
    ensures var r := IndexOf(s, d, from);
      && (r.Some? ==> OccursAt(s, d, r.value))
      && (r.Some? ==> forall j: nat :: from <= j < r.value ==> !OccursAt(s, d, j))
      && (r.None? ==> forall j: nat :: from <= j ==> !OccursAt(s, d, j))
    decreases |s| - from
  {
    if from + |d| <= |s| && s[from..from + |d|] != d {
      IndexOfFirst(s, d, from + 1);
    }
  }

  lemma {:induction false} PrefixBeforeFirstOccurrence(s: string, d: string, i: nat)
    requires |d| > 0 && i <= |s|
    requires forall j: nat :: j < i ==> !OccursAt(s, d, j)
    ensures !Contains(s[..i], d)
  {
    forall j: nat ensures !OccursAt(s[..i], d, j) {
      if j + |d| <= i {
        assert !OccursAt(s, d, j);
        assert s[..i][j..j + |d|] == s[j..j + |d|];
      }
    }
  }

  /** No piece of a split contains the delimiter. */
  lemma {:induction false} SplitPartsAvoid(s: string, d: string)
    requires |d| > 0
    ensures forall i :: 0 <= i < |Split(s, d)| ==> !Contains(Split(s, d)[i], d)
    decreases |s|
  {
    var r := IndexOf(s, d, 0);
    if r.Some? {
      var i := r.value;
      assert !Contains(s[..i], d) by {
        IndexOfFirst(s, d, 0);
        PrefixBeforeFirstOccurrence(s, d, i);
      }
      SplitPartsAvoid(s[i + |d|..], d);
      assert Split(s, d) == [s[..i]] + Split(s[i + |d|..], d);
    } else {
      assert !Contains(s, d) by {
        IndexOfFirst(s, d, 0);
      }
      assert Split(s, d) == [s];
    }
  }

  /** For a one-character delimiter, containing it means containing the character. */
  lemma {:induction false} CharNotContained(s: string, c: char)
    requires !Contains(s, [c])
    ensures c !in s
  {
    forall j | 0 <= j < |s| ensures s[j] != c {
      assert !OccursAt(s, [c], j);
      assert s[j..j + 1] == [s[j]] && [s[j]][0] == s[j];
    }
  }

  lemma {:induction false} NoCharNoOccurrence(s: string, c: char)
    requires c !in s
    ensures !Contains(s, [c])
  {
    forall j: nat ensures !OccursAt(s, [c], j) {
      if j < |s| {
        assert s[j..j + 1][0] == s[j];
      }
    }
  }

  /** `IndexOf` finds an occurrence with none before it. */
  lemma {:induction false} IndexOfFinds(s: string, d: string, from: nat, i: nat)
    requires |d| > 0 && from <= i && OccursAt(s, d, i)
    requires forall j: nat :: from <= j < i ==> !OccursAt(s, d, j)
    ensures IndexOf(s, d, from) == Some(i)
    decreases i - from
  {
    if from < i {
      assert !OccursAt(s, d, from);
      IndexOfFinds(s, d, from + 1, i);
    }
  }

  /** Splitting at the first occurrence peels off the text before it. */
  lemma {:induction false} SplitAtFirst(s: string, d: string, i: nat)
    requires |d| > 0 && OccursAt(s, d, i)
    requires forall j: nat :: j < i ==> !OccursAt(s, d, j)
    ensures Split(s, d) == [s[..i]] + Split(s[i + |d|..], d)
  {
    IndexOfFinds(s, d, 0, i);
  }

  /** Text that does not contain the delimiter splits into itself. */
  lemma {:induction false} SplitWithout(s: string, d: string)
    requires |d| > 0 && !Contains(s, d)
    ensures Split(s, d) == [s]
  {
    assert IndexOf(s, d, 0).None? by {
      IndexOfFirst(s, d, 0);
    }
  }

  /** `joinToString` undoes `split`. */
  lemma {:induction false} SplitThenJoin(s: string, d: string)
    requires |d| > 0
    ensures Join(Split(s, d), d) == s
    decreases |s|
  {
    var r := IndexOf(s, d, 0);
    if r.Some? {
      var i := r.value;
      var rest := s[i + |d|..];
      DelimiterSplitsText(s, d);
      var tail := Split(rest, d);
      assert Split(s, d) == [s[..i]] + tail;
      SplitThenJoin(rest, d);
      JoinCons(s[..i], tail, d);
    } else {
      assert Split(s, d) == [s];
    }
  }

  /** The first occurrence of the delimiter cuts the text in three. */
  lemma {:induction false} DelimiterSplitsText(s: string, d: string)
    requires |d| > 0 && IndexOf(s, d, 0).Some?
    ensures var i := IndexOf(s, d, 0).value;
      i + |d| <= |s| && s == s[..i] + d + s[i + |d|..]
  {
    var i := IndexOf(s, d, 0).value;
    IndexOfFirst(s, d, 0);
    assert s[i..] == s[i..i + |d|] + s[i + |d|..];
    assert s == s[..i] + s[i..];
  }

  lemma {:induction false} JoinCons(p: string, tail: seq<string>, sep: string)
    requires |tail| >= 1
    ensures Join([p] + tail, sep) == p + sep + Join(tail, sep)
  {
    assert ([p] + tail)[1..] == tail;
  }

  /** `split` on a one-character delimiter undoes `joinToString` when no part
      contains that character. */
  lemma {:induction false} JoinThenSplit(parts: seq<string>, c: char)
    requires |parts| >= 1
    requires forall i :: 0 <= i < |parts| ==> c !in parts[i]
    ensures Split(Join(parts, [c]), [c]) == parts
    decreases |parts|
  {
    var p := parts[0];
    if |parts| == 1 {
      NoCharNoOccurrence(p, c);
      SplitWithout(p, [c]);
    } else {
      var rest := Join(parts[1..], [c]);
      var s := p + [c] + rest;
      assert Join(parts, [c]) == s;
      forall j: nat | j < |p| ensures !OccursAt(s, [c], j) {
        assert s[j..j + 1][0] == s[j] == p[j];
      }
      assert s[|p|..|p| + 1] == [c];
      SplitAtFirst(s, [c], |p|);
      assert s[..|p|] == p;
      assert s[|p| + 1..] == rest;
      JoinThenSplit(parts[1..], c);
    }
  }

  /** Joining a list with one more part appends the separator and the part. */
  lemma {:induction false} JoinSnoc(parts: seq<string>, x: string, sep: string)
    requires |parts| >= 1
    ensures Join(parts + [x], sep) == Join(parts, sep) + sep + x
    decreases |parts|
  {
    if |parts| == 1 {
      assert (parts + [x])[1..] == [x];
    } else {
      assert (parts + [x])[1..] == parts[1..] + [x];
      JoinSnoc(parts[1..], x, sep);
    }
  }

  /** Joining two non-empty lists puts one separator between their joins. */
  lemma {:induction false} JoinAppend(a: seq<string>, b: seq<string>, sep: string)
    requires |a| >= 1 && |b| >= 1
    ensures Join(a + b, sep) == Join(a, sep) + sep + Join(b, sep)
    decreases |a|
  {
    if |a| == 1 {
      assert (a + b)[1..] == b;
    } else {
      assert (a + b)[1..] == a[1..] + b;
      JoinAppend(a[1..], b, sep);
    }
  }

  /** What `TrimStart` drops is white space, and what it keeps is the rest
      of the text. */
  lemma {:induction false} TrimStartDropsWhitespace(s: string)
    ensures var r := TrimStart(s);
      && r == s[|s| - |r|..]
      && forall i :: 0 <= i < |s| - |r| ==> IsWhitespace(s[i])
    decreases |s|
  {
    if |s| > 0 && IsWhitespace(s[0]) {
      TrimStartDropsWhitespace(s[1..]);
      assert s[1..][|s| - 1 - |TrimStart(s)|..] == s[|s| - |TrimStart(s)|..];
    }
  }

  /** Trimming both ends keeps a slice of the text and drops only white
      space before and after it. */
  lemma {:induction false} TrimSlice(s: string)
    ensures var t := TrimStart(s);
      var r := TrimEnd(t);
      var i, j := |s| - |t|, |s| - |t| + |r|;
      && 0 <= i <= j <= |s| && r == s[i..j]
      && (forall k :: 0 <= k < i ==> IsWhitespace(s[k]))
      && (forall k :: j <= k < |s| ==> IsWhitespace(s[k]))
  {
    var t := TrimStart(s);
    TrimStartDropsWhitespace(s);
    var r := TrimEnd(t);
    PrefixOfSuffix(s, t, r);
    WhitespaceAfterPrefix(s, t, r);
  }

  lemma {:induction false} PrefixOfSuffix(s: string, t: string, r: string)
    requires |t| <= |s| && t == s[|s| - |t|..]
    requires |r| <= |t| && r == t[..|r|]
    ensures r == s[|s| - |t|..|s| - |t| + |r|]
  {
  }

  lemma {:induction false} WhitespaceAfterPrefix(s: string, t: string, r: string)
    requires |t| <= |s| && t == s[|s| - |t|..] && |r| <= |t|
    requires forall k :: |r| <= k < |t| ==> IsWhitespace(t[k])
    ensures forall k :: |s| - |t| + |r| <= k < |s| ==> IsWhitespace(s[k])
  {
    forall k | |s| - |t| + |r| <= k < |s|
      ensures IsWhitespace(s[k])
    {
      assert s[k] == t[k - (|s| - |t|)];
    }
  }

  /** Trimming leaves text whose ends are not white space as it is. */
  lemma {:induction false} TrimClean(s: string)
    requires s == [] || (!IsWhitespace(s[0]) && !IsWhitespace(s[|s| - 1]))
    ensures Trim(s) == s
  {
  }

  /** The space after the colon of a `key: value` line is trimmed away from
      a value with clean ends. */
  lemma {:induction false} TrimDropsSpace(s: string)
    requires |s| > 0 && !IsWhitespace(s[0]) && !IsWhitespace(s[|s| - 1])
    ensures Trim(" " + s) == s
  {
    assert (" " + s)[1..] == s;
    assert TrimStart(" " + s) == TrimStart(s) == s;
  }

  /** A trailing newline is trimmed away from text with clean ends. */
  lemma {:induction false} TrimDropsNewline(s: string)
    requires |s| > 0 && !IsWhitespace(s[0]) && !IsWhitespace(s[|s| - 1])
    ensures Trim(s + "\n") == s
  {
    assert TrimStart(s + "\n") == s + "\n";
    assert (s + "\n")[..|s|] == s;
  }
}
