/** The JavaScript string operations the parser and the calendar helpers rely on
    (`startsWith`, `includes`, `indexOf`, `trim`, `toLowerCase`, `split`,
    `replace`), written over `string == seq<char>`.  A character here is a
    Unicode scalar value; `ToLower` folds ASCII letters only. */
module Text {
  import opened Wrappers

  /** The ECMAScript line terminators: the characters a regex `.` does not match. */
  predicate IsLineTerminator(c: char) {
    c == '\n' || c == '\r' || c == '\U{2028}' || c == '\U{2029}'
  }

  /** ECMAScript WhiteSpace or LineTerminator: what `trim` strips and what regex `\s` matches. */
  predicate IsWhitespace(c: char) {
    || c == '\t' || c == '\U{B}' || c == '\U{C}' || c == ' ' || c == '\U{A0}' || c == '\U{FEFF}'
    || c == '\U{1680}' || ('\U{2000}' <= c <= '\U{200A}') || c == '\U{202F}' || c == '\U{205F}'
    || c == '\U{3000}' || IsLineTerminator(c)
  }

  /** Regex `\w`. */
  predicate IsWordChar(c: char) {
    ('a' <= c <= 'z') || ('A' <= c <= 'Z') || ('0' <= c <= '9') || c == '_'
  }

  predicate AllWhitespace(s: string) {
    forall i :: 0 <= i < |s| ==> IsWhitespace(s[i])
  }

  predicate NoLineTerminator(s: string) {
    forall i :: 0 <= i < |s| ==> !IsLineTerminator(s[i])
  }

  lemma SliceHasNoLineTerminator(s: string, a: int, b: int)
    requires 0 <= a <= b <= |s| && NoLineTerminator(s)
    ensures NoLineTerminator(s[a..b])
  {
    forall i | 0 <= i < b - a
      ensures !IsLineTerminator(s[a..b][i])
    {
      assert s[a..b][i] == s[a + i];
    }
  }

  /** `s` has no whitespace at either end. */
  predicate IsTrimmed(s: string) {
    |s| == 0 || (!IsWhitespace(s[0]) && !IsWhitespace(s[|s| - 1]))
  }

  // ---------------------------------------------------------------------------
  // Case folding
  // ---------------------------------------------------------------------------

  function LowerChar(c: char): char {
    if 'A' <= c <= 'Z' then (c as int + 32) as char else c
  }

  /** `toLowerCase`, on ASCII letters. */
  function ToLower(s: string): (r: string)
    ensures |r| == |s|
    ensures forall i :: 0 <= i < |s| ==> r[i] == LowerChar(s[i])
  {
    seq(|s|, i requires 0 <= i < |s| => LowerChar(s[i]))
  }

  /** Equality under the ASCII case folding of a regex with the `i` flag. */
  predicate EqualsIgnoringCase(a: string, b: string) {
    ToLower(a) == ToLower(b)
  }

  // ---------------------------------------------------------------------------
  // Searching
  // ---------------------------------------------------------------------------

  predicate StartsWith(s: string, prefix: string) {
    |prefix| <= |s| && s[..|prefix|] == prefix
  }

  /** `t` occurs in `s` at offset `i`. */
  predicate OccursAt(s: string, t: string, i: int) {
    0 <= i && i + |t| <= |s| && s[i..i + |t|] == t
  }

  /** An occurrence inside a slice is an occurrence in the whole string. */
  lemma OccursInSlice(s: string, t: string, a: int, b: int, j: int)
    requires 0 <= a <= j && j + |t| <= b <= |s| && OccursAt(s, t, j)
    ensures OccursAt(s[a..b], t, j - a)
  {
    var r := s[a..b];
    var x, y := r[j - a..j - a + |t|], s[j..j + |t|];
    forall k | 0 <= k < |t|
      ensures x[k] == y[k]
    {
      assert x[k] == r[j - a + k];
    }
    assert x == y;
  }

  /** The leftmost occurrence of `t` in `s` at or after `from` (`indexOf`). */
  function IndexOfFrom(s: string, t: string, from: nat): (r: Option<nat>)
    ensures r.Some? ==> from <= r.value && OccursAt(s, t, r.value)
    ensures r.Some? ==> forall j :: from <= j < r.value ==> !OccursAt(s, t, j)
    ensures r.None? ==> forall j :: from <= j ==> !OccursAt(s, t, j)
    decreases |s| + 1 - from
  {
    if from + |t| > |s| then None
    else if OccursAt(s, t, from) then Some(from)
    else IndexOfFrom(s, t, from + 1)
  }

  function IndexOf(s: string, t: string): (r: Option<nat>)
    ensures r.Some? ==> OccursAt(s, t, r.value)
    ensures r.Some? ==> forall j :: 0 <= j < r.value ==> !OccursAt(s, t, j)
    ensures r.None? ==> forall j :: !OccursAt(s, t, j)
  {
    IndexOfFrom(s, t, 0)
  }

  /** `s.includes(t)`. */
  function Contains(s: string, t: string): (b: bool)
    ensures b <==> exists j :: OccursAt(s, t, j)
  {
    IndexOf(s, t).Some?
  }

  /** The first position of character `c` in `s`. */
  function IndexOfChar(s: string, c: char): (r: Option<nat>)
    ensures r.Some? ==> r.value < |s| && s[r.value] == c && c !in s[..r.value]
    ensures r.None? ==> c !in s
  {
    if |s| == 0 then None
    else if s[0] == c then Some(0)
    else match IndexOfChar(s[1..], c)
      case None => None
      case Some(i) => Some(i + 1)
  }

  /** `s.replace(pattern, replacement)` with a string pattern: only the first
      occurrence is replaced. */
  function ReplaceFirst(s: string, pattern: string, replacement: string): (r: string)
    ensures !Contains(s, pattern) ==> r == s
    ensures Contains(s, pattern) ==>
      var i := IndexOf(s, pattern).value; r == s[..i] + replacement + s[i + |pattern|..]
  {
    match IndexOf(s, pattern)
    case None => s
    case Some(i) => s[..i] + replacement + s[i + |pattern|..]
  }

  /** The first occurrence of `c` is the position before which `c` is absent. */
  lemma FirstOccurrence(s: string, c: char, k: nat)
    requires k < |s| && s[k] == c && c !in s[..k]
    ensures IndexOfChar(s, c) == Some(k)
  {
    assert s[k] in s;
    var i := IndexOfChar(s, c).value;
    assert forall j :: 0 <= j < k ==> s[..k][j] == s[j];
    assert forall j :: 0 <= j < i ==> s[..i][j] == s[j];
  }

  /** `replace` with a string pattern cuts its first occurrence. */
  lemma ReplaceFirstAt(s: string, pattern: string, head: string, rest: string)
    requires s == head + pattern + rest
    requires forall j :: 0 <= j < |head| ==> !OccursAt(s, pattern, j)
    ensures ReplaceFirst(s, pattern, "") == head + rest
  {
    assert s[|head|..|head| + |pattern|] == pattern;
    assert OccursAt(s, pattern, |head|);
    var i := IndexOf(s, pattern).value;
    assert i == |head|;
    assert s[..i] == head && s[i + |pattern|..] == rest;
  }

  // ---------------------------------------------------------------------------
  // Trimming
  // ---------------------------------------------------------------------------

  function LeadingWhitespace(s: string): (n: nat)
    ensures n <= |s| && AllWhitespace(s[..n])
    ensures n < |s| ==> !IsWhitespace(s[n])
  {
    if |s| > 0 && IsWhitespace(s[0]) then
      var n := 1 + LeadingWhitespace(s[1..]);
      assert s[..n] == [s[0]] + s[1..][..n - 1];
      n
    else 0
  }

  function TrailingWhitespace(s: string): (n: nat)
    ensures n <= |s| && AllWhitespace(s[|s| - n..])
    ensures n < |s| ==> !IsWhitespace(s[|s| - n - 1])
  {
    if |s| > 0 && IsWhitespace(s[|s| - 1]) then
      var n := 1 + TrailingWhitespace(s[..|s| - 1]);
      assert s[|s| - n..] == s[..|s| - 1][|s| - n..] + [s[|s| - 1]];
      n
    else 0
  }

  /** The slice `[a, b)` of `s` that `trim` keeps. */
  predicate TrimsTo(s: string, a: int, b: int) {
    && 0 <= a <= b <= |s|
    && AllWhitespace(s[..a]) && AllWhitespace(s[b..])
    && (a < b ==> !IsWhitespace(s[a]) && !IsWhitespace(s[b - 1]))
  }

  /** Where the slice kept by `trim` ends. */
  function TrimEnd(s: string): (b: nat)
    ensures TrimsTo(s, LeadingWhitespace(s), b)
  {
    var a := LeadingWhitespace(s);
    var t := s[a..];
    var b := a + |t| - TrailingWhitespace(t);
    assert s[b..] == t[|t| - TrailingWhitespace(t)..];
    b
  }

  /** `String.prototype.trim`. */
  function Trim(s: string): (r: string)
    ensures IsTrimmed(r)
  {
    s[LeadingWhitespace(s)..TrimEnd(s)]
  }

  /** Any whitespace-bounded slice with non-whitespace ends is what `trim` keeps. */
  lemma TrimUnique(s: string, a: int, b: int)
    requires TrimsTo(s, a, b)
    ensures Trim(s) == s[a..b]
  {
    var a', b' := LeadingWhitespace(s), TrimEnd(s);
    forall i | 0 <= i < |s| && (i < a || b <= i)
      ensures IsWhitespace(s[i])
    {
      if i < a { assert s[..a][i] == s[i]; } else { assert s[b..][i - b] == s[i]; }
    }
    forall i | 0 <= i < |s| && (i < a' || b' <= i)
      ensures IsWhitespace(s[i])
    {
      if i < a' { assert s[..a'][i] == s[i]; } else { assert s[b'..][i - b'] == s[i]; }
    }
    if a < b {
      assert a' < b';
      assert a' == a && b' == b;
    } else {
      assert a' == b';
    }
  }

  // ---------------------------------------------------------------------------
  // Lines
  // ---------------------------------------------------------------------------

  /** `parts` joined with `sep` between consecutive elements. */
  function Join(parts: seq<string>, sep: string): string {
    if |parts| == 0 then ""
    else if |parts| == 1 then parts[0]
    else parts[0] + sep + Join(parts[1..], sep)
  }

  /** `s.split(sep)` for a one-character separator. */
  function Split(s: string, sep: char): (parts: seq<string>)
    ensures |parts| >= 1
    ensures forall i :: 0 <= i < |parts| ==> sep !in parts[i]
    ensures Join(parts, [sep]) == s
    decreases |s|
  {
    match IndexOfChar(s, sep)
    case None => [s]
    case Some(i) =>
      var rest := Split(s[i + 1..], sep);
      assert ([s[..i]] + rest)[1..] == rest;
      assert s == s[..i] + [sep] + s[i + 1..];
      [s[..i]] + rest
  }

  /** `s.replace(/\r\n/g, '\n')`. */
  function NormalizeNewlines(s: string): (r: string)
    ensures |r| <= |s|
    ensures forall c :: c in r ==> c in s
    decreases |s|
  {
    if |s| == 0 then ""
    else if |s| >= 2 && s[0] == '\r' && s[1] == '\n' then "\n" + NormalizeNewlines(s[2..])
    else [s[0]] + NormalizeNewlines(s[1..])
  }

  /** The first element of `s.split(/\r?\n/)`. */
  function FirstLine(s: string): (r: string)
    ensures StartsWith(s, r)
    ensures '\n' !in r
    ensures '\n' !in s ==> r == s
    ensures '\n' in s ==> (exists k :: 0 <= k < |s| && s[k] == '\n' && '\n' !in s[..k]
                             && r == (if k > 0 && s[k - 1] == '\r' then s[..k - 1] else s[..k]))
  {
    match IndexOfChar(s, '\n')
    case None => s
    case Some(i) => if i > 0 && s[i - 1] == '\r' then s[..i - 1] else s[..i]
  }

  /** `s.replace(/^\uFEFF/, '')`. */
  function StripByteOrderMark(s: string): (r: string)
    ensures |s| > 0 && s[0] == '\U{FEFF}' ==> r == s[1..]
    ensures !(|s| > 0 && s[0] == '\U{FEFF}') ==> r == s
  {
    if |s| > 0 && s[0] == '\U{FEFF}' then s[1..] else s
  }

  // ---------------------------------------------------------------------------
  // Lemmas
  // ---------------------------------------------------------------------------

  /** Splitting on a separator undoes joining with it. */
  lemma {:induction false} SplitJoin(parts: seq<string>, sep: char)
    requires |parts| >= 1
    requires forall i :: 0 <= i < |parts| ==> sep !in parts[i]
    ensures Split(Join(parts, [sep]), sep) == parts
    decreases |parts|
  {
    if |parts| > 1 {
      var s := Join(parts, [sep]);
      var p0 := parts[0];
      assert s == p0 + [sep] + Join(parts[1..], [sep]);
      assert s[|p0|] == sep;
      var i := IndexOfChar(s, sep).value;
      assert i == |p0|;
      assert s[..i] == p0;
      assert s[i + 1..] == Join(parts[1..], [sep]);
      SplitJoin(parts[1..], sep);
      assert parts == [p0] + parts[1..];
    }
  }

  /** Without carriage returns, the CRLF normalisation changes nothing. */
  lemma {:induction false} NormalizeWithoutCarriageReturn(s: string)
    requires '\r' !in s
    ensures NormalizeNewlines(s) == s
    decreases |s|
  {
    if |s| > 0 {
      assert '\r' !in s[1..];
      NormalizeWithoutCarriageReturn(s[1..]);
      assert s == [s[0]] + s[1..];
    }
  }

  lemma {:induction false} NormalizeAppend(a: string, b: string)
    requires '\r' !in a
    ensures NormalizeNewlines(a + b) == a + NormalizeNewlines(b)
    decreases |a|
  {
    if |a| > 0 {
      var ab := a + b;
      assert ab[0] == a[0] && a[0] != '\r';
      assert NormalizeNewlines(ab) == [a[0]] + NormalizeNewlines(ab[1..]);
      assert ab[1..] == a[1..] + b;
      assert '\r' !in a[1..];
      NormalizeAppend(a[1..], b);
      assert a == [a[0]] + a[1..];
    } else {
      assert a + b == b;
    }
  }

  /** Text whose lines end in CRLF normalises to the same lines joined by LF. */
  lemma {:induction false} NormalizeCrlfJoin(lines: seq<string>)
    requires forall i :: 0 <= i < |lines| ==> '\r' !in lines[i]
    ensures NormalizeNewlines(Join(lines, "\r\n")) == Join(lines, "\n")
    decreases |lines|
  {
    if |lines| == 1 {
      NormalizeWithoutCarriageReturn(lines[0]);
    } else if |lines| > 1 {
      var rest := Join(lines[1..], "\r\n");
      assert Join(lines, "\r\n") == lines[0] + ("\r\n" + rest);
      NormalizeAppend(lines[0], "\r\n" + rest);
      assert ("\r\n" + rest)[2..] == rest;
      NormalizeCrlfJoin(lines[1..]);
    }
  }

  /** `trim` already removes a leading U+FEFF, so stripping it first changes nothing. */
  lemma TrimIgnoresByteOrderMark(s: string)
    ensures Trim(StripByteOrderMark(s)) == Trim(s)
  {
    if |s| > 0 && s[0] == '\U{FEFF}' {
      var t := s[1..];
      var a, b := LeadingWhitespace(t), TrimEnd(t);
      assert Trim(StripByteOrderMark(s)) == t[a..b];
      TrimsToAfterWhitespace(s, a, b);
      TrimUnique(s, a + 1, b + 1);
      TailSlice(s, a, b);
    }
  }

  lemma TailSlice(s: string, a: int, b: int)
    requires 0 <= a <= b < |s|
    ensures s[1..][a..b] == s[a + 1..b + 1]
  {
  }

  /** A whitespace character in front moves the trimmed slice by one. */
  lemma TrimsToAfterWhitespace(s: string, a: int, b: int)
    requires |s| > 0 && IsWhitespace(s[0]) && TrimsTo(s[1..], a, b)
    ensures TrimsTo(s, a + 1, b + 1)
  {
    var t := s[1..];
    var x, y := s[..a + 1], s[b + 1..];
    forall i | 0 <= i < |x|
      ensures IsWhitespace(x[i])
    {
      if i > 0 {
        assert x[i] == t[..a][i - 1];
      }
    }
    forall i | 0 <= i < |y|
      ensures IsWhitespace(y[i])
    {
      assert y[i] == t[b..][i];
    }
    if a < b {
      assert s[a + 1] == t[a] && s[b] == t[b - 1];
    }
  }

  /** A whitespace character at the end moves nothing the trim keeps. */
  lemma TrimsToBeforeWhitespace(s: string, a: int, b: int)
    requires |s| > 0 && IsWhitespace(s[|s| - 1]) && TrimsTo(s[..|s| - 1], a, b)
    ensures TrimsTo(s, a, b)
  {
    var t := s[..|s| - 1];
    var x, y := s[..a], s[b..];
    forall i | 0 <= i < |x|
      ensures IsWhitespace(x[i])
    {
      assert x[i] == t[..a][i];
    }
    forall i | 0 <= i < |y|
      ensures IsWhitespace(y[i])
    {
      if i < |y| - 1 {
        assert y[i] == t[b..][i];
      }
    }
    if a < b {
      assert s[a] == t[a] && s[b - 1] == t[b - 1];
    }
  }

  /** Trailing whitespace makes no difference to `trim`. */
  lemma TrimIgnoresTrailingWhitespace(s: string)
    requires |s| > 0 && IsWhitespace(s[|s| - 1])
    ensures Trim(s[..|s| - 1]) == Trim(s)
  {
    var t := s[..|s| - 1];
    var a, b := LeadingWhitespace(t), TrimEnd(t);
    assert Trim(t) == t[a..b];
    TrimsToBeforeWhitespace(s, a, b);
    TrimUnique(s, a, b);
    PrefixSlice(s, |s| - 1, a, b);
  }

  lemma PrefixSlice(s: string, n: int, a: int, b: int)
    requires 0 <= a <= b <= n <= |s|
    ensures s[..n][a..b] == s[a..b]
  {
  }

  /** Trimming twice is trimming once. */
  lemma TrimIdempotent(s: string)
    ensures Trim(Trim(s)) == Trim(s)
  {
    var r := Trim(s);
    TrimUnique(r, 0, |r|);
  }
}
