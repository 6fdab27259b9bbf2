/** The handful of regular expressions the parser and the booking detail view
    apply to a DESCRIPTION, each written out as a search over the string.
    All of them carry the `i` flag and no `m` flag, so a marker matches under
    ASCII case folding and `$` means the end of the whole text.

    - `Label\s*(.*?)(?:\r?\n|$)` and `Label\s*(.*?)(?=\n|Other:|...|$)` are
      "line captures": `FindLineCapture` with the alternatives after the
      capture given as `stops`;
    - `Status:\s*(\w+)` is a "word capture": `FindWordCapture`. */
module Patterns {
  import opened Wrappers
  import opened Text

  /** Where a match was found: the marker starts at `at`, the captured group is
      `[start, end)`. */
  datatype Span = Span(at: nat, start: nat, end: nat)

  /** `marker` occurs at offset `p` of `text`, ignoring ASCII case. */
  predicate LabelAt(text: string, p: int, marker: string) {
    0 <= p && p + |marker| <= |text| && EqualsIgnoringCase(text[p..p + |marker|], marker)
  }

  /** Where the greedy `\s*` that starts at `q` ends. */
  function BlankEnd(text: string, q: nat): (c: nat)
    requires q <= |text|
    ensures q <= c <= |text| && AllWhitespace(text[q..c])
    ensures c < |text| ==> !IsWhitespace(text[c])
  {
    var n := LeadingWhitespace(text[q..]);
    assert text[q..q + n] == text[q..][..n];
    q + n
  }

  /** A lazy `(.*?)` may stop at `e`: the end of the text, a line feed, or one
      of the alternatives in `stops`. */
  predicate StopAt(text: string, e: int, stops: seq<string>)
    requires 0 <= e <= |text|
  {
    e == |text| || text[e] == '\n' || exists k :: 0 <= k < |stops| && LabelAt(text, e, stops[k])
  }

  /** What a line capture promises: the marker at `sp.at`, then only whitespace,
      then a group free of line terminators that ends at the first place where
      a stop matches. */
  predicate IsLineCapture(text: string, marker: string, stops: seq<string>, sp: Span) {
    && LabelAt(text, sp.at, marker)
    && sp.at + |marker| <= sp.start <= sp.end <= |text|
    && AllWhitespace(text[sp.at + |marker|..sp.start])
    && NoLineTerminator(text[sp.start..sp.end])
    && StopAt(text, sp.end, stops)
    && (forall e :: sp.start <= e < sp.end ==> !StopAt(text, e, stops))
  }

  /** The line capture `exec` reports: the leftmost attempt that succeeds,
      and within it the longest blank run, since `\s*` is greedy. */
  ghost predicate IsFirstLineCapture(text: string, marker: string, stops: seq<string>, sp: Span) {
    && IsLineCapture(text, marker, stops, sp)
    && forall other: Span :: IsLineCapture(text, marker, stops, other) ==>
         sp.at < other.at || (sp.at == other.at && other.start <= sp.start)
  }

  /** The smallest `e >= c` where a lazy `(.*?)` started at `c` can stop, if
      `.` can cross every character before it. */
  function LazyEnd(text: string, c: nat, stops: seq<string>): (r: Option<nat>)
    requires c <= |text|
    ensures r.Some? ==> c <= r.value <= |text| && StopAt(text, r.value, stops)
    ensures r.Some? ==> NoLineTerminator(text[c..r.value])
    ensures r.Some? ==> forall e :: c <= e < r.value ==> !StopAt(text, e, stops)
    decreases |text| - c
  {
    if StopAt(text, c, stops) then Some(c)
    else if IsLineTerminator(text[c]) then None
    else
      match LazyEnd(text, c + 1, stops)
      case None => None
      case Some(e) =>
        assert text[c..e] == [text[c]] + text[c + 1..e];
        Some(e)
  }

  /** Backtracking over `\s*`: the greedy run of `j` whitespace characters after
      `q` is tried first, then `j - 1`, down to none. */
  function CaptureFrom(text: string, q: nat, j: nat, stops: seq<string>): (r: Option<(nat, nat)>)
    requires q + j <= |text|
    ensures r.Some? ==> q <= r.value.0 <= q + j && r.value.0 <= r.value.1 <= |text|
    ensures r.Some? ==> StopAt(text, r.value.1, stops) && NoLineTerminator(text[r.value.0..r.value.1])
    ensures r.Some? ==> forall e :: r.value.0 <= e < r.value.1 ==> !StopAt(text, e, stops)
    ensures forall s :: q <= s <= q + j && LazyEnd(text, s, stops).Some? ==> r.Some? && s <= r.value.0
    decreases j
  {
    match LazyEnd(text, q + j, stops)
    case Some(e) => Some((q + j, e))
    case None => if j == 0 then None else CaptureFrom(text, q, j - 1, stops)
  }

  /** The match of `label\s*(.*?)` followed by a stop that starts at `p`,
      if there is one. */
  function LineAt(text: string, marker: string, stops: seq<string>, p: nat): (r: Option<Span>)
    ensures r.Some? ==> r.value.at == p && IsLineCapture(text, marker, stops, r.value)
    ensures !LabelAt(text, p, marker) ==> r.None?
    ensures forall sp: Span :: sp.at == p && IsLineCapture(text, marker, stops, sp) ==> r.Some? && sp.start <= r.value.start
  {
    if !LabelAt(text, p, marker) then None
    else
      var q := p + |marker|;
      var c := BlankEnd(text, q);
      CapturesStartInBlankRun(text, marker, stops, p);
      match CaptureFrom(text, q, c - q, stops)
      case Some(se) =>
        assert forall i :: 0 <= i < se.0 - q ==> text[q..c][i] == text[q..se.0][i];
        Some(Span(p, se.0, se.1))
      case None => None
  }

  /** The leftmost match at or after `p` of `label\s*(.*?)` followed by a stop. */
  function FindLineCapture(text: string, marker: string, stops: seq<string>, p: nat): (r: Option<Span>)
    ensures r.Some? ==> p <= r.value.at && IsLineCapture(text, marker, stops, r.value)
    ensures (forall i :: p <= i ==> !LabelAt(text, i, marker)) ==> r.None?
    ensures r.None? ==> forall sp: Span :: p <= sp.at ==> !IsLineCapture(text, marker, stops, sp)
    ensures r.Some? ==> forall sp: Span :: p <= sp.at && IsLineCapture(text, marker, stops, sp) ==>
      r.value.at < sp.at || (r.value.at == sp.at && sp.start <= r.value.start)
    decreases |text| + 1 - p
  {
    if p + |marker| > |text| then None
    else
      match LineAt(text, marker, stops, p)
      case Some(sp) => Some(sp)
      case None => FindLineCapture(text, marker, stops, p + 1)
  }

  /** The captured group of the leftmost line capture, if any. */
  function LineCapture(text: string, marker: string, stops: seq<string>): (r: Option<string>)
    ensures r.Some? ==> exists sp :: IsLineCapture(text, marker, stops, sp) && r.value == text[sp.start..sp.end]
    ensures r.Some? ==> exists sp :: IsFirstLineCapture(text, marker, stops, sp) && r.value == text[sp.start..sp.end]
    ensures r.None? ==> forall sp: Span :: !IsLineCapture(text, marker, stops, sp)
    ensures (forall i :: !LabelAt(text, i, marker)) ==> r.None?
  {
    match FindLineCapture(text, marker, stops, 0)
    case None => None
    case Some(sp) =>
      assert IsFirstLineCapture(text, marker, stops, sp);
      Some(text[sp.start..sp.end])
  }

  /** The lazy group of a line capture runs exactly to the capture's end. */
  lemma LazyEndOfCapture(text: string, marker: string, stops: seq<string>, sp: Span)
    requires IsLineCapture(text, marker, stops, sp)
    ensures LazyEnd(text, sp.start, stops) == Some(sp.end)
  {
    var g := text[sp.start..sp.end];
    assert forall e :: sp.start <= e < sp.end ==> text[e] == g[e - sp.start];
    LazyEndReaches(text, sp.start, sp.end, stops);
  }

  /** Every line capture at `p` starts within the greedy blank run after the
      marker, where the lazy group can end. */
  lemma CapturesStartInBlankRun(text: string, marker: string, stops: seq<string>, p: nat)
    requires LabelAt(text, p, marker)
    ensures forall sp: Span :: sp.at == p && IsLineCapture(text, marker, stops, sp) ==>
      p + |marker| <= sp.start <= BlankEnd(text, p + |marker|) && LazyEnd(text, sp.start, stops).Some?
  {
    var q := p + |marker|;
    var c := BlankEnd(text, q);
    forall sp: Span | sp.at == p && IsLineCapture(text, marker, stops, sp)
      ensures sp.start <= c && LazyEnd(text, sp.start, stops).Some?
    {
      LazyEndOfCapture(text, marker, stops, sp);
      BlankRunBound(text, q, sp.start);
    }
  }

  /** No whitespace run from `q` outlasts the greedy one. */
  lemma BlankRunBound(text: string, q: nat, s: nat)
    requires q <= s <= |text| && AllWhitespace(text[q..s])
    ensures s <= BlankEnd(text, q)
  {
    forall i | q <= i < s
      ensures IsWhitespace(text[i])
    {
      assert text[i] == text[q..s][i - q];
    }
  }

  /** Every character of the greedy blank run is whitespace. */
  lemma BlankRunIsWhitespace(text: string, q: nat)
    requires q <= |text|
    ensures forall i :: q <= i < BlankEnd(text, q) ==> IsWhitespace(text[i])
  {
    var c := BlankEnd(text, q);
    forall i | q <= i < c
      ensures IsWhitespace(text[i])
    {
      assert text[i] == text[q..c][i - q];
    }
  }

  /** The number of `\w` characters from `c` on. */
  function WordRun(text: string, c: nat): (n: nat)
    requires c <= |text|
    ensures c + n <= |text|
    ensures forall i :: c <= i < c + n ==> IsWordChar(text[i])
    ensures c + n < |text| ==> !IsWordChar(text[c + n])
    decreases |text| - c
  {
    if c < |text| && IsWordChar(text[c]) then 1 + WordRun(text, c + 1) else 0
  }

  /** What a word capture promises: the marker at `sp.at`, then only
      whitespace, then a maximal run of word characters. */
  predicate IsWordCapture(text: string, marker: string, sp: Span) {
    && LabelAt(text, sp.at, marker)
    && sp.at + |marker| <= sp.start < sp.end <= |text|
    && AllWhitespace(text[sp.at + |marker|..sp.start])
    && (forall i :: sp.start <= i < sp.end ==> IsWordChar(text[i]))
    && (sp.end < |text| ==> !IsWordChar(text[sp.end]))
  }

  /** The word capture `exec` reports: the leftmost one.  At a given marker
      the word capture is unique. */
  ghost predicate IsFirstWordCapture(text: string, marker: string, sp: Span) {
    && IsWordCapture(text, marker, sp)
    && forall other: Span :: IsWordCapture(text, marker, other) ==> sp.at < other.at || other == sp
  }

  /** The match of `label\s*(\w+)` that starts at `p`, if there is one.
      Giving back whitespace never helps `\w+`, so only the greedy run is
      tried. */
  function WordAt(text: string, marker: string, p: nat): (r: Option<Span>)
    ensures r.Some? ==> r.value.at == p && IsWordCapture(text, marker, r.value)
    ensures !LabelAt(text, p, marker) ==> r.None?
    ensures forall sp: Span :: sp.at == p && IsWordCapture(text, marker, sp) ==> r == Some(sp)
  {
    WordCapturesAt(text, marker, p);
    if !LabelAt(text, p, marker) then None
    else
      var c := BlankEnd(text, p + |marker|);
      var n := WordRun(text, c);
      if n > 0 then Some(Span(p, c, c + n)) else None
  }

  /** The leftmost match at or after `p` of `label\s*(\w+)`. */
  function FindWordCapture(text: string, marker: string, p: nat): (r: Option<Span>)
    ensures r.Some? ==> p <= r.value.at && IsWordCapture(text, marker, r.value)
    ensures (forall i :: p <= i ==> !LabelAt(text, i, marker)) ==> r.None?
    ensures r.None? ==> forall sp: Span :: p <= sp.at ==> !IsWordCapture(text, marker, sp)
    ensures r.Some? ==> forall sp: Span :: p <= sp.at && IsWordCapture(text, marker, sp) ==> r.value.at < sp.at || sp == r.value
    decreases |text| + 1 - p
  {
    if p + |marker| > |text| then None
    else
      match WordAt(text, marker, p)
      case Some(sp) => Some(sp)
      case None => FindWordCapture(text, marker, p + 1)
  }

  /** The captured word of the leftmost word capture, if any. */
  function WordCapture(text: string, marker: string): (r: Option<string>)
    ensures r.Some? ==> |r.value| > 0 && forall i :: 0 <= i < |r.value| ==> IsWordChar(r.value[i])
    ensures r.Some? ==> exists sp :: IsFirstWordCapture(text, marker, sp) && r.value == text[sp.start..sp.end]
    ensures r.None? ==> forall sp: Span :: !IsWordCapture(text, marker, sp)
    ensures (forall i :: !LabelAt(text, i, marker)) ==> r.None?
  {
    match FindWordCapture(text, marker, 0)
    case None => None
    case Some(sp) =>
      assert IsFirstWordCapture(text, marker, sp);
      Some(text[sp.start..sp.end])
  }

  /** A word capture starts where the greedy blank run ends and takes the
      whole word run: whitespace is never a word character. */
  lemma WordCaptureIsGreedy(text: string, marker: string, sp: Span)
    requires IsWordCapture(text, marker, sp)
    ensures sp.start == BlankEnd(text, sp.at + |marker|)
    ensures sp.end == sp.start + WordRun(text, sp.start)
  {
    var q := sp.at + |marker|;
    var c := BlankEnd(text, q);
    BlankRunBound(text, q, sp.start);
    BlankRunIsWhitespace(text, q);
    WordCharIsNotWhitespace(text[sp.start]);
    assert sp.start == c;
    WordRunTo(text, sp.start, sp.end);
  }

  // ---------------------------------------------------------------------------
  // Completeness of a line capture on a well-formed labelled line
  // ---------------------------------------------------------------------------

  /** None of `stops` can begin inside `value`: each begins with a line
      terminator, or holds none and does not occur in `value`. */
  predicate StopsClearOf(value: string, stops: seq<string>) {
    forall k :: 0 <= k < |stops| ==>
      |stops[k]| > 0 &&
      (IsLineTerminator(stops[k][0]) || (NoLineTerminator(stops[k]) && !Contains(ToLower(value), ToLower(stops[k]))))
  }

  lemma {:induction false} SkipToMarker(text: string, marker: string, stops: seq<string>, p: nat, target: nat)
    requires p <= target && target + |marker| <= |text|
    requires forall i :: p <= i < target ==> !LabelAt(text, i, marker)
    ensures FindLineCapture(text, marker, stops, p) == FindLineCapture(text, marker, stops, target)
    decreases target - p
  {
    if p < target {
      SkipToMarker(text, marker, stops, p + 1, target);
    }
  }

  lemma LeadingWhitespaceOfPrefix(ws: string, x: string)
    requires AllWhitespace(ws) && |x| > 0 && !IsWhitespace(x[0])
    ensures LeadingWhitespace(ws + x) == |ws|
  {
    var s := ws + x;
    var n := LeadingWhitespace(s);
    assert forall i :: 0 <= i < |ws| ==> s[i] == ws[i];
    assert s[|ws|] == x[0];
  }

  lemma {:induction false} LazyEndReaches(text: string, c: nat, target: nat, stops: seq<string>)
    requires c <= target <= |text|
    requires forall e :: c <= e < target ==> !StopAt(text, e, stops) && !IsLineTerminator(text[e])
    requires StopAt(text, target, stops)
    ensures LazyEnd(text, c, stops) == Some(target)
    decreases target - c
  {
    if c < target {
      LazyEndReaches(text, c + 1, target, stops);
    }
  }

  /** No stop matches inside a clean `value` that is followed by a line
      terminator or by the end of the text. */
  lemma NoStopInside(text: string, base: nat, value: string, stops: seq<string>, i: nat)
    requires base + |value| <= |text| && text[base..base + |value|] == value
    requires base + |value| == |text| || IsLineTerminator(text[base + |value|])
    requires NoLineTerminator(value) && StopsClearOf(value, stops)
    requires i < |value|
    ensures !StopAt(text, base + i, stops)
  {
    var e := base + i;
    assert text[e] == value[i];
    forall k | 0 <= k < |stops|
      ensures !LabelAt(text, e, stops[k])
    {
      var st := stops[k];
      if e + |st| <= |text| {
        var lt := ToLower(text[e..e + |st|]);
        if IsLineTerminator(st[0]) {
          assert lt[0] == LowerChar(value[i]);
          assert LowerChar(value[i]) != st[0];
          assert ToLower(st)[0] == st[0];
        } else if e + |st| <= base + |value| {
          var seg := text[e..e + |st|];
          assert forall j :: 0 <= j < |st| ==> seg[j] == value[i + j];
          assert seg == value[i..i + |st|];
          assert ToLower(value)[i..i + |st|] == lt;
          assert !OccursAt(ToLower(value), ToLower(st), i);
        } else {
          var j := base + |value| - e;
          assert text[e..e + |st|][j] == text[base + |value|];
          assert lt[j] == LowerChar(text[base + |value|]);
          assert !IsLineTerminator(st[j]);
          assert ToLower(st)[j] == LowerChar(st[j]);
        }
      }
    }
  }

  /** Once the marker, the blank run and the lazy end are known, the search
      stops at `at`. */
  lemma CaptureAtMarker(text: string, marker: string, stops: seq<string>, at: nat, base: nat, end: nat)
    requires LabelAt(text, at, marker)
    requires at + |marker| <= base <= |text| && BlankEnd(text, at + |marker|) == base
    requires LazyEnd(text, base, stops) == Some(end)
    ensures FindLineCapture(text, marker, stops, at) == Some(Span(at, base, end))
  {
    var q := at + |marker|;
    assert CaptureFrom(text, q, base - q, stops) == Some((base, end));
    assert LineAt(text, marker, stops, at) == Some(Span(at, base, end));
  }

  /** The lazy group started on a clean value runs exactly to its end. */
  lemma LazyEndOfCleanValue(text: string, base: nat, end: nat, stops: seq<string>)
    requires base <= end <= |text|
    requires NoLineTerminator(text[base..end]) && StopsClearOf(text[base..end], stops)
    requires end == |text| || IsLineTerminator(text[end])
    requires StopAt(text, end, stops)
    ensures LazyEnd(text, base, stops) == Some(end)
  {
    var value := text[base..end];
    forall e | base <= e < end
      ensures !StopAt(text, e, stops) && !IsLineTerminator(text[e])
    {
      NoStopInside(text, base, value, stops, e - base);
      assert text[e] == value[e - base];
    }
    LazyEndReaches(text, base, end, stops);
  }

  lemma BlankRunBeforeValue(text: string, q: nat, base: nat)
    requires q <= base < |text|
    requires AllWhitespace(text[q..base]) && !IsWhitespace(text[base])
    ensures BlankEnd(text, q) == base
  {
    assert text[q..] == text[q..base] + text[base..];
    LeadingWhitespaceOfPrefix(text[q..base], text[base..]);
  }

  /** The same, stated over offsets: the marker at `at` is the first, blanks
      fill `[at + |marker|, base)`, a clean value fills `[base, end)`, and a
      stop at a line terminator or the end of the text follows it. */
  lemma LineCaptureAt(text: string, marker: string, stops: seq<string>, at: nat, base: nat, end: nat)
    requires LabelAt(text, at, marker)
    requires forall i :: 0 <= i < at ==> !LabelAt(text, i, marker)
    requires at + |marker| <= base < end <= |text|
    requires AllWhitespace(text[at + |marker|..base])
    requires !IsWhitespace(text[base]) && NoLineTerminator(text[base..end])
    requires StopsClearOf(text[base..end], stops)
    requires end == |text| || IsLineTerminator(text[end])
    requires StopAt(text, end, stops)
    ensures LineCapture(text, marker, stops) == Some(text[base..end])
  {
    var q := at + |marker|;
    BlankRunBeforeValue(text, q, base);
    LazyEndOfCleanValue(text, base, end, stops);
    FirstMarkerCapture(text, marker, stops, at, base, end);
  }

  /** The leftmost marker decides the capture once its blank run and lazy
      end are known. */
  lemma FirstMarkerCapture(text: string, marker: string, stops: seq<string>, at: nat, base: nat, end: nat)
    requires LabelAt(text, at, marker)
    requires forall i :: 0 <= i < at ==> !LabelAt(text, i, marker)
    requires at + |marker| <= base <= |text| && BlankEnd(text, at + |marker|) == base
    requires LazyEnd(text, base, stops) == Some(end)
    ensures LineCapture(text, marker, stops) == Some(text[base..end])
  {
    SkipToMarker(text, marker, stops, 0, at);
    CaptureAtMarker(text, marker, stops, at, base, end);
  }

  /** A description holding `marker` (in any ASCII case), blanks, then a clean
      value ending its line, with no earlier occurrence of the marker, yields
      exactly that value. */
  lemma LineCaptureOfLabelledLine(text: string, prefix: string, marker': string, ws: string,
                                  value: string, tail: string, marker: string, stops: seq<string>)
    requires text == prefix + marker' + ws + value + tail
    requires |marker'| == |marker| && EqualsIgnoringCase(marker', marker)
    requires forall i :: 0 <= i < |prefix| ==> !LabelAt(text, i, marker)
    requires AllWhitespace(ws)
    requires |value| > 0 && !IsWhitespace(value[0]) && NoLineTerminator(value)
    requires StopsClearOf(value, stops)
    requires tail == "" || tail[0] == '\n'
    ensures LineCapture(text, marker, stops) == Some(value)
  {
    var at := |prefix|;
    var base := at + |marker| + |ws|;
    var end := base + |value|;
    assert text[at..at + |marker|] == marker';
    assert text[at + |marker|..base] == ws;
    assert text[base..end] == value;
    assert end < |text| ==> text[end] == tail[0];
    LineCaptureAt(text, marker, stops, at, base, end);
  }

  // ---------------------------------------------------------------------------
  // A captured group never runs into a stop
  // ---------------------------------------------------------------------------

  /** The lazy group ends at the first stop, so no stop that holds no line
      terminator occurs inside the captured text, in any ASCII case. */
  lemma CaptureAvoidsStops(text: string, marker: string, stops: seq<string>, v: string, k: nat)
    requires LineCapture(text, marker, stops) == Some(v)
    requires k < |stops| && |stops[k]| > 0
    ensures !Contains(ToLower(v), ToLower(stops[k]))
  {
    var sp :| IsLineCapture(text, marker, stops, sp) && v == text[sp.start..sp.end];
    StopFreeSlice(text, sp.start, sp.end, stops, k);
  }

  /** A slice no stop matches inside holds no whole stop. */
  lemma StopFreeSlice(text: string, start: nat, end: nat, stops: seq<string>, k: nat)
    requires start <= end <= |text| && k < |stops| && |stops[k]| > 0
    requires forall e :: start <= e < end ==> !StopAt(text, e, stops)
    ensures !Contains(ToLower(text[start..end]), ToLower(stops[k]))
  {
    var v, st := text[start..end], stops[k];
    forall i | 0 <= i && i + |st| <= |v|
      ensures !OccursAt(ToLower(v), ToLower(st), i)
    {
      NoStopNoLabel(text, start + i, stops, k);
      NoLabelInSlice(text, start, end, st, i);
    }
  }

  lemma NoLabelInSlice(text: string, start: nat, end: nat, st: string, i: nat)
    requires start <= end <= |text| && i + |st| <= end - start
    requires !LabelAt(text, start + i, st)
    ensures !OccursAt(ToLower(text[start..end]), ToLower(st), i)
  {
    var v := text[start..end];
    var x, y := text[start + i..start + i + |st|], v[i..i + |st|];
    assert forall j :: 0 <= j < |x| ==> x[j] == y[j];
    assert x == y;
    LowerSlice(v, i, i + |st|);
  }

  lemma NoStopNoLabel(text: string, e: nat, stops: seq<string>, k: nat)
    requires e <= |text| && k < |stops| && !StopAt(text, e, stops)
    ensures !LabelAt(text, e, stops[k])
  {
  }

  lemma LowerSlice(s: string, a: nat, b: nat)
    requires a <= b <= |s|
    ensures ToLower(s[a..b]) == ToLower(s)[a..b]
  {
  }

  // ---------------------------------------------------------------------------
  // Completeness of a word capture
  // ---------------------------------------------------------------------------

  lemma {:induction false} SkipToWordMarker(text: string, marker: string, p: nat, target: nat)
    requires p <= target && target + |marker| <= |text|
    requires forall i :: p <= i < target ==> !LabelAt(text, i, marker)
    ensures FindWordCapture(text, marker, p) == FindWordCapture(text, marker, target)
    decreases target - p
  {
    if p < target {
      WordSkip(text, marker, p);
      SkipToWordMarker(text, marker, p + 1, target);
    }
  }

  /** No marker at `p`: the search moves on. */
  lemma WordSkip(text: string, marker: string, p: nat)
    requires p + |marker| <= |text| && !LabelAt(text, p, marker)
    ensures FindWordCapture(text, marker, p) == FindWordCapture(text, marker, p + 1)
  {
    assert WordAt(text, marker, p).None?;
  }

  /** A text holding `marker` (in any ASCII case), blanks, then a word that
      ends at a non-word character or the end of the text, with no earlier
      occurrence of the marker, yields exactly that word. */
  lemma WordCaptureOfLabelledWord(text: string, prefix: string, marker': string, ws: string,
                                  word: string, tail: string, marker: string)
    requires text == prefix + marker' + ws + word + tail
    requires |marker'| == |marker| && EqualsIgnoringCase(marker', marker)
    requires forall i :: 0 <= i < |prefix| ==> !LabelAt(text, i, marker)
    requires AllWhitespace(ws)
    requires |word| > 0 && forall i :: 0 <= i < |word| ==> IsWordChar(word[i])
    requires tail == "" || !IsWordChar(tail[0])
    ensures WordCapture(text, marker) == Some(word)
  {
    var at := |prefix|;
    var q := at + |marker|;
    var c := q + |ws|;
    var e := c + |word|;
    assert text[at..q] == marker';
    assert text[q..c] == ws;
    assert text[c..e] == word;
    assert e < |text| ==> text[e] == tail[0];
    WordCaptureAt(text, marker, at, c, e);
  }

  /** The same, stated over offsets. */
  lemma WordCaptureAt(text: string, marker: string, at: nat, c: nat, e: nat)
    requires LabelAt(text, at, marker)
    requires forall i :: 0 <= i < at ==> !LabelAt(text, i, marker)
    requires at + |marker| <= c < e <= |text|
    requires AllWhitespace(text[at + |marker|..c])
    requires forall i :: c <= i < e ==> IsWordChar(text[i])
    requires e == |text| || !IsWordChar(text[e])
    ensures WordCapture(text, marker) == Some(text[c..e])
  {
    assert IsWordChar(text[c]);
    BlankRunBeforeValue(text, at + |marker|, c);
    WordRunTo(text, c, e);
    FirstWordCapture(text, marker, at, c, e);
  }

  /** The leftmost marker decides the capture once its blank run and word
      run are known. */
  lemma FirstWordCapture(text: string, marker: string, at: nat, c: nat, e: nat)
    requires LabelAt(text, at, marker)
    requires forall i :: 0 <= i < at ==> !LabelAt(text, i, marker)
    requires at + |marker| <= c < e <= |text|
    requires BlankEnd(text, at + |marker|) == c
    requires WordRun(text, c) == e - c
    ensures WordCapture(text, marker) == Some(text[c..e])
  {
    SkipToWordMarker(text, marker, 0, at);
    WordCaptureHere(text, marker, at, c, e);
    WordCaptureOfFirst(text, marker, Span(at, c, e));
  }

  lemma WordCaptureOfFirst(text: string, marker: string, sp: Span)
    requires FindWordCapture(text, marker, 0) == Some(sp)
    ensures sp.start <= sp.end <= |text| && WordCapture(text, marker) == Some(text[sp.start..sp.end])
  {
  }

  lemma WordCaptureHere(text: string, marker: string, at: nat, c: nat, e: nat)
    requires LabelAt(text, at, marker)
    requires at + |marker| <= c < e <= |text|
    requires BlankEnd(text, at + |marker|) == c
    requires WordRun(text, c) == e - c
    ensures FindWordCapture(text, marker, at) == Some(Span(at, c, e))
  {
    var r := WordAt(text, marker, at);
    assert r.Some?;
    assert r.value.start == c;
    assert r.value.end == e;
  }

  /** Every word capture at `p` is the greedy one. */
  lemma WordCapturesAt(text: string, marker: string, p: nat)
    ensures forall sp: Span :: sp.at == p && IsWordCapture(text, marker, sp) ==>
      sp.start == BlankEnd(text, p + |marker|) && sp.end == sp.start + WordRun(text, sp.start)
  {
    forall sp: Span | sp.at == p && IsWordCapture(text, marker, sp)
      ensures sp.start == BlankEnd(text, p + |marker|) && sp.end == sp.start + WordRun(text, sp.start)
    {
      WordCaptureIsGreedy(text, marker, sp);
    }
  }

  lemma WordCharIsNotWhitespace(ch: char)
    requires IsWordChar(ch)
    ensures !IsWhitespace(ch)
  {
  }

  lemma WordRunTo(text: string, c: nat, e: nat)
    requires c <= e <= |text|
    requires forall i :: c <= i < e ==> IsWordChar(text[i])
    requires e == |text| || !IsWordChar(text[e])
    ensures WordRun(text, c) == e - c
  {
  }
}
