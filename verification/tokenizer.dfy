/** The line tokenizer of the iCalendar parser: CRLF is normalised to LF, the
    text is split into lines, the lines between `BEGIN:VEVENT` and
    `END:VEVENT` are grouped into events, and each event's lines are read as
    `KEY[;params]:VALUE` properties, a line starting with one space continuing
    the value of the last key read.

    `ParseICalData` is the line-by-line state machine of the source.  `Blocks`
    is an independent description of which lines form which event, and
    `Fields` of what one event's lines produce; the contract of
    `ParseICalData` states that the two agree on every input. */
module Tokenizer {
  import opened Wrappers
  import opened Text

  /** The key/value pairs read from one VEVENT block. */
  type RawEvent = map<string, string>

  datatype Property = Property(key: string, value: string)

  const BeginEvent: string := "BEGIN:VEVENT"
  const EndEvent: string := "END:VEVENT"

  predicate IsBeginLine(line: string) { StartsWith(line, BeginEvent) }
  predicate IsEndLine(line: string) { StartsWith(line, EndEvent) }

  /** A continuation line: exactly a leading space, not a tab. */
  predicate IsFoldLine(line: string) { StartsWith(line, " ") }

  /** A line that neither opens nor closes an event. */
  predicate IsBodyLine(line: string) { !IsBeginLine(line) && !IsEndLine(line) }

  predicate PlainBody(body: seq<string>) {
    forall i :: 0 <= i < |body| ==> IsBodyLine(body[i])
  }

  // ---------------------------------------------------------------------------
  // Property lines: /^([^;:]+)(?:;[^:]+)?:(.*)$/
  // ---------------------------------------------------------------------------

  predicate ValidKey(key: string) { |key| > 0 && ';' !in key && ':' !in key }

  /** The optional parameter segment: empty, or `;` and at least one more
      character, none of them a colon. */
  predicate ValidParams(params: string) {
    params == "" || (|params| >= 2 && params[0] == ';' && ':' !in params)
  }

  /** `line` reads as `key`, `params`, a colon, then `value`, and the regex
      `.` can cover the whole value. */
  predicate Decomposes(line: string, key: string, params: string, value: string) {
    && line == key + params + ":" + value
    && ValidKey(key) && ValidParams(params) && NoLineTerminator(value)
  }

  /** The length of the longest prefix of `s` free of `;` and `:`. */
  function KeyEnd(s: string): (k: nat)
    ensures k <= |s|
    ensures forall i :: 0 <= i < k ==> s[i] != ';' && s[i] != ':'
    ensures k < |s| ==> s[k] == ';' || s[k] == ':'
    decreases |s|
  {
    if |s| == 0 || s[0] == ';' || s[0] == ':' then 0
    else
      var k := KeyEnd(s[1..]);
      assert forall i :: 1 <= i < 1 + k ==> s[i] == s[1..][i - 1];
      1 + k
  }

  /** The key and value the property regex captures, if it matches. */
  function ParsePropertyLine(line: string): (r: Option<Property>)
    ensures r.Some? ==> |r.value.key| + |r.value.value| < |line|
    ensures r.Some? ==>
      Decomposes(line, r.value.key, line[|r.value.key|..|line| - |r.value.value| - 1], r.value.value)
  {
    match IndexOfChar(line, ':')
    case None => None
    case Some(c) =>
      var k := KeyEnd(line);
      if k == 0 || (k < c && c == k + 1) || !NoLineTerminator(line[c + 1..]) then None
      else
        var key, params, value := line[..k], line[k..c], line[c + 1..];
        assert ':' !in line[..c];
        assert forall i :: 0 <= i < |params| ==> params[i] == line[..c][k + i];
        assert line == key + params + ":" + value;
        Some(Property(key, value))
  }

  /** Every decomposition of a line is the one the regex finds: the key is the
      longest prefix free of `;` and `:`, and the value follows the first colon. */
  lemma ParsePropertyComplete(line: string, key: string, params: string, value: string)
    requires Decomposes(line, key, params, value)
    ensures ParsePropertyLine(line) == Some(Property(key, value))
  {
    var c := |key| + |params|;
    assert line[c] == ':';
    assert forall i :: 0 <= i < |key| ==> line[i] == key[i];
    assert forall i :: |key| <= i < c ==> line[i] == params[i - |key|];
    assert ':' !in line[..c];
    assert IndexOfChar(line, ':') == Some(c);
    assert params != "" ==> line[|key|] == ';';
    assert KeyEnd(line) == |key|;
    assert line[..|key|] == key;
    assert line[c + 1..] == value;
  }

  /** A property line written out from its parts reads back as those parts. */
  lemma PropertyRoundTrip(key: string, params: string, value: string)
    requires ValidKey(key) && ValidParams(params) && NoLineTerminator(value)
    ensures ParsePropertyLine(key + params + ":" + value) == Some(Property(key, value))
  {
    ParsePropertyComplete(key + params + ":" + value, key, params, value);
  }

  /** One line inside an open event: a fold line extends the value of
      `lastKey` when that value exists and is non-empty; a property line sets
      its key (last write wins) and becomes the new `lastKey`; anything else
      is ignored. */
  function ProcessEventLine(line: string, event: RawEvent, lastKey: string): (r: (RawEvent, string))
    ensures forall key :: key in event ==> key in r.0
    ensures IsFoldLine(line) ==> r.1 == lastKey && r.0.Keys == event.Keys
    ensures IsFoldLine(line) ==> forall key :: key in event && key != lastKey ==> r.0[key] == event[key]
    ensures !IsFoldLine(line) && r.1 != lastKey ==> ValidKey(r.1) && r.1 in r.0
    ensures !IsFoldLine(line) ==> forall key :: key in event && key != r.1 ==> r.0[key] == event[key]
  {
    if IsFoldLine(line) then
      if lastKey != "" && lastKey in event && event[lastKey] != "" then
        (event[lastKey := event[lastKey] + line[1..]], lastKey)
      else (event, lastKey)
    else
      match ParsePropertyLine(line)
      case Some(p) => (event[p.key := p.value], p.key)
      case None => (event, lastKey)
  }

  /** A well-formed property line sets its key to its value and makes the key
      the one later fold lines extend. */
  lemma PropertyLineSets(line: string, key: string, params: string, value: string,
                         event: RawEvent, lastKey: string)
    requires Decomposes(line, key, params, value) && !IsFoldLine(line)
    ensures ProcessEventLine(line, event, lastKey) == (event[key := value], key)
  {
    ParsePropertyComplete(line, key, params, value);
  }

  /** A line that is neither a fold line nor a property line changes nothing,
      not even `lastKey`. */
  lemma MalformedLineIgnored(line: string, event: RawEvent, lastKey: string)
    requires !IsFoldLine(line)
    requires forall key, params, value :: !Decomposes(line, key, params, value)
    ensures ProcessEventLine(line, event, lastKey) == (event, lastKey)
  {
  }

  /** A fold line loses its one leading space and is appended to a non-empty
      value of `lastKey`. */
  lemma FoldLineAppends(rest: string, event: RawEvent, lastKey: string)
    requires lastKey != "" && lastKey in event && event[lastKey] != ""
    ensures ProcessEventLine(" " + rest, event, lastKey) == (event[lastKey := event[lastKey] + rest], lastKey)
  {
    assert (" " + rest)[1..] == rest;
  }

  /** A fold line is dropped when `lastKey` has no value or an empty one. */
  lemma FoldLineDropped(rest: string, event: RawEvent, lastKey: string)
    requires lastKey !in event || event[lastKey] == ""
    ensures ProcessEventLine(" " + rest, event, lastKey) == (event, lastKey)
  {
  }

  /** A tab is not a fold marker: a line starting with a tab never extends
      an existing value; at most it adds a key that itself begins with a tab. */
  lemma TabIsNotFold(rest: string, event: RawEvent, lastKey: string)
    ensures var r := ProcessEventLine("\t" + rest, event, lastKey);
      forall key :: key in event && (key == "" || key[0] != '\t') ==> r.0[key] == event[key]
  {
    var line := "\t" + rest;
    match ParsePropertyLine(line)
    case None =>
    case Some(p) =>
      assert p.key[0] == line[0];
  }

  // ---------------------------------------------------------------------------
  // The events of one block
  // ---------------------------------------------------------------------------

  /** The event and last key after reading `body` from an empty event whose
      last key starts as `k0`. */
  function Absorb(body: seq<string>, k0: string): (r: (RawEvent, string))
    decreases |body|
  {
    if |body| == 0 then (map[], k0)
    else
      var (e, k) := Absorb(body[..|body| - 1], k0);
      ProcessEventLine(body[|body| - 1], e, k)
  }

  /** What one event's lines produce, read from a fresh event. */
  function Fields(body: seq<string>): RawEvent {
    Absorb(body, "").0
  }

  /** `line` is a property line, not a fold line, for `prop`. */
  predicate ReadsAs(line: string, params: string, prop: Property) {
    Decomposes(line, prop.key, params, prop.value) && !IsFoldLine(line)
  }

  /** The event that setting `props` one after another produces. */
  function Assignments(props: seq<Property>): RawEvent
    decreases |props|
  {
    if |props| == 0 then map[]
    else Assignments(props[..|props| - 1])[props[|props| - 1].key := props[|props| - 1].value]
  }

  /** A block of well-formed property lines, none a fold line, reads as the
      assignments of their keys and values in order, the last write winning. */
  lemma {:induction false} PropertyLinesRead(body: seq<string>, params: seq<string>, props: seq<Property>, k0: string)
    requires |body| == |params| == |props|
    requires forall i :: 0 <= i < |body| ==> ReadsAs(body[i], params[i], props[i])
    ensures Absorb(body, k0).0 == Assignments(props)
    decreases |body|
  {
    if |body| > 0 {
      var n := |body| - 1;
      assert forall i :: 0 <= i < n ==> body[..n][i] == body[i] && params[..n][i] == params[i] && props[..n][i] == props[i];
      PropertyLinesRead(body[..n], params[..n], props[..n], k0);
      var (e, k) := Absorb(body[..n], k0);
      assert Absorb(body, k0) == ProcessEventLine(body[n], e, k);
      PropertyLineSets(body[n], props[n].key, params[n], props[n].value, e, k);
    }
  }

  /** The last key left over from an earlier event cannot leak into the next
      one: in an empty event no key exists for a fold line to extend. */
  lemma {:induction false} StaleKeyIrrelevant(body: seq<string>, k1: string, k2: string)
    ensures Absorb(body, k1) == Absorb(body, k2) || (Absorb(body, k1).0 == map[] && Absorb(body, k2).0 == map[])
    ensures Absorb(body, k1).0 == Absorb(body, k2).0
    decreases |body|
  {
    if |body| > 0 {
      StaleKeyIrrelevant(body[..|body| - 1], k1, k2);
    }
  }

  /** A property line at the end of a block decides its key's value. */
  lemma LastWriteWins(body: seq<string>, line: string, key: string, params: string, value: string)
    requires Decomposes(line, key, params, value) && !IsFoldLine(line)
    ensures key in Fields(body + [line]) && Fields(body + [line])[key] == value
  {
    assert (body + [line])[..|body|] == body;
    var (e, k) := Absorb(body, "");
    PropertyLineSets(line, key, params, value, e, k);
  }

  // ---------------------------------------------------------------------------
  // Grouping lines into blocks
  // ---------------------------------------------------------------------------

  /** The bodies of the completed events in `lines`, read with no event open.
      An END line with no open event is ignored. */
  function Outside(lines: seq<string>): (blocks: seq<seq<string>>)
    decreases |lines|, 1
  {
    if |lines| == 0 then []
    else if IsBeginLine(lines[0]) then Inside(lines[1..], [])
    else Outside(lines[1..])
  }

  /** The same with an event open whose lines so far are `body`.  A BEGIN line
      throws the open event away; an event never closed is never emitted. */
  function Inside(lines: seq<string>, body: seq<string>): (blocks: seq<seq<string>>)
    decreases |lines|, 0
  {
    if |lines| == 0 then []
    else if IsBeginLine(lines[0]) then Inside(lines[1..], [])
    else if IsEndLine(lines[0]) then [body] + Outside(lines[1..])
    else Inside(lines[1..], body + [lines[0]])
  }

  /** `data` cut into lines the way the source does: CRLF becomes LF, then
      the text is split at every LF. */
  function SplitLines(data: string): (lines: seq<string>)
    ensures |lines| >= 1
    ensures forall i :: 0 <= i < |lines| ==> '\n' !in lines[i]
  {
    Split(NormalizeNewlines(data), '\n')
  }

  function Blocks(data: string): seq<seq<string>> {
    Outside(SplitLines(data))
  }

  function FieldsOf(blocks: seq<seq<string>>): (events: seq<RawEvent>)
    ensures |events| == |blocks|
    ensures forall i :: 0 <= i < |blocks| ==> events[i] == Fields(blocks[i])
  {
    seq(|blocks|, i requires 0 <= i < |blocks| => Fields(blocks[i]))
  }

  // ---------------------------------------------------------------------------
  // The state machine of the source
  // ---------------------------------------------------------------------------

  datatype ScanState = ScanState(events: seq<RawEvent>, current: Option<RawEvent>, lastKey: string)

  /** One iteration of the loop over lines.  `lastKey` is not reset when a
      new event begins. */
  function Step(st: ScanState, line: string): (r: ScanState)
    ensures IsBeginLine(line) ==> r == st.(current := Some(map[]))
    ensures !IsBeginLine(line) && IsEndLine(line) && st.current.Some?
      ==> r.events == st.events + [st.current.value] && r.current.None?
    ensures r.events == st.events || (st.current.Some? && r.events == st.events + [st.current.value])
    ensures st.current.None? && !IsBeginLine(line) ==> r == st
  {
    if IsBeginLine(line) then st.(current := Some(map[]))
    else if IsEndLine(line) then
      if st.current.Some? then ScanState(st.events + [st.current.value], None, st.lastKey) else st
    else if st.current.Some? then
      var (e, k) := ProcessEventLine(line, st.current.value, st.lastKey);
      ScanState(st.events, Some(e), k)
    else st
  }

  function Scan(lines: seq<string>, st: ScanState): ScanState
    decreases |lines|
  {
    if |lines| == 0 then st else Scan(lines[1..], Step(st, lines[0]))
  }

  /** The loop only appends events, at most one per line. */
  lemma {:induction false} ScanOnlyAppends(lines: seq<string>, st: ScanState)
    ensures st.events <= Scan(lines, st).events
    ensures |Scan(lines, st).events| <= |st.events| + |lines|
    decreases |lines|
  {
    if |lines| > 0 {
      ScanOnlyAppends(lines[1..], Step(st, lines[0]));
    }
  }

  lemma {:induction false} ScanOutside(lines: seq<string>, events: seq<RawEvent>, k: string)
    ensures Scan(lines, ScanState(events, None, k)).events == events + FieldsOf(Outside(lines))
    decreases |lines|, 1
  {
    if |lines| == 0 {
      assert events + FieldsOf([]) == events;
    } else if IsBeginLine(lines[0]) {
      ScanInside(lines[1..], events, [], k);
    } else {
      ScanOutside(lines[1..], events, k);
    }
  }

  lemma {:induction false} ScanInside(lines: seq<string>, events: seq<RawEvent>, body: seq<string>, k0: string)
    ensures var (e, k) := Absorb(body, k0);
      Scan(lines, ScanState(events, Some(e), k)).events == events + FieldsOf(Inside(lines, body))
    decreases |lines|, 0
  {
    var (e, k) := Absorb(body, k0);
    var st := ScanState(events, Some(e), k);
    if |lines| == 0 {
      assert events + FieldsOf([]) == events;
    } else if IsBeginLine(lines[0]) {
      assert Scan(lines, st) == Scan(lines[1..], ScanState(events, Some(map[]), k));
      ScanInside(lines[1..], events, [], k);
    } else if IsEndLine(lines[0]) {
      assert Scan(lines, st) == Scan(lines[1..], ScanState(events + [e], None, k));
      StaleKeyIrrelevant(body, k0, "");
      ScanOutside(lines[1..], events + [e], k);
      assert FieldsOf([body] + Outside(lines[1..])) == [e] + FieldsOf(Outside(lines[1..]));
    } else {
      assert (body + [lines[0]])[..|body|] == body;
      ScanInside(lines[1..], events, body + [lines[0]], k0);
    }
  }

  /** The events of the source, in order. */
  function ParseICalData(data: string): (events: seq<RawEvent>)
    ensures events == FieldsOf(Blocks(data))
  {
    var lines := SplitLines(data);
    ScanOutside(lines, [], "");
    assert [] + FieldsOf(Outside(lines)) == FieldsOf(Outside(lines));
    Scan(lines, ScanState([], None, "")).events
  }

  // ---------------------------------------------------------------------------
  // Facts about the grouping
  // ---------------------------------------------------------------------------

  function CountEndLines(lines: seq<string>): nat
    decreases |lines|
  {
    if |lines| == 0 then 0
    else (if IsEndLine(lines[0]) then 1 else 0) + CountEndLines(lines[1..])
  }

  lemma {:induction false} OutsideBound(lines: seq<string>)
    ensures |Outside(lines)| <= CountEndLines(lines)
    decreases |lines|, 1
  {
    if |lines| > 0 {
      if IsBeginLine(lines[0]) {
        InsideBound(lines[1..], []);
      } else {
        OutsideBound(lines[1..]);
      }
    }
  }

  lemma {:induction false} InsideBound(lines: seq<string>, body: seq<string>)
    ensures |Inside(lines, body)| <= CountEndLines(lines)
    decreases |lines|, 0
  {
    if |lines| > 0 {
      if IsBeginLine(lines[0]) {
        InsideBound(lines[1..], []);
      } else if IsEndLine(lines[0]) {
        OutsideBound(lines[1..]);
      } else {
        InsideBound(lines[1..], body + [lines[0]]);
      }
    }
  }

  /** There are never more events than END lines. */
  lemma EventsAtMostEndLines(data: string)
    ensures |ParseICalData(data)| <= CountEndLines(SplitLines(data))
  {
    OutsideBound(SplitLines(data));
  }

  lemma {:induction false} OutsideBlocksPlain(lines: seq<string>)
    ensures forall i :: 0 <= i < |Outside(lines)| ==> PlainBody(Outside(lines)[i])
    decreases |lines|, 1
  {
    if |lines| > 0 {
      if IsBeginLine(lines[0]) {
        InsideBlocksPlain(lines[1..], []);
      } else {
        OutsideBlocksPlain(lines[1..]);
      }
    }
  }

  lemma {:induction false} InsideBlocksPlain(lines: seq<string>, body: seq<string>)
    requires PlainBody(body)
    ensures forall i :: 0 <= i < |Inside(lines, body)| ==> PlainBody(Inside(lines, body)[i])
    decreases |lines|, 0
  {
    if |lines| > 0 {
      if IsBeginLine(lines[0]) {
        InsideBlocksPlain(lines[1..], []);
      } else if IsEndLine(lines[0]) {
        OutsideBlocksPlain(lines[1..]);
      } else {
        InsideBlocksPlain(lines[1..], body + [lines[0]]);
      }
    }
  }

  /** Only lines strictly between a BEGIN and an END line belong to an event. */
  lemma BlocksArePlain(data: string)
    ensures forall i :: 0 <= i < |Blocks(data)| ==> PlainBody(Blocks(data)[i])
  {
    OutsideBlocksPlain(SplitLines(data));
  }

  /** Without a BEGIN line there are no events. */
  lemma {:induction false} NoBeginNoBlocks(lines: seq<string>)
    requires forall i :: 0 <= i < |lines| ==> !IsBeginLine(lines[i])
    ensures Outside(lines) == []
    decreases |lines|
  {
    if |lines| > 0 {
      NoBeginNoBlocks(lines[1..]);
    }
  }

  /** Lines outside any event, a stray END line among them, contribute
      nothing: grouping resumes at the next BEGIN line. */
  lemma {:induction false} StrayLinesIgnored(stray: seq<string>, rest: seq<string>)
    requires forall i :: 0 <= i < |stray| ==> !IsBeginLine(stray[i])
    ensures Outside(stray + rest) == Outside(rest)
    decreases |stray|
  {
    if |stray| > 0 {
      assert (stray + rest)[1..] == stray[1..] + rest;
      StrayLinesIgnored(stray[1..], rest);
    } else {
      assert stray + rest == rest;
    }
  }

  /** Events written out one after another, each framed by BEGIN and END. */
  function Frame(bodies: seq<seq<string>>): (lines: seq<string>)
    decreases |bodies|
  {
    if |bodies| == 0 then [] else [BeginEvent] + bodies[0] + [EndEvent] + Frame(bodies[1..])
  }

  /** Plain lines inside an open event are collected in order. */
  lemma {:induction false} InsideCollects(body: seq<string>, more: seq<string>, rest: seq<string>)
    requires PlainBody(more)
    ensures Inside(more + rest, body) == Inside(rest, body + more)
    decreases |more|
  {
    if |more| > 0 {
      assert (more + rest)[0] == more[0];
      assert (more + rest)[1..] == more[1..] + rest;
      InsideCollects(body + [more[0]], more[1..], rest);
      assert body + [more[0]] + more[1..] == body + more;
    } else {
      assert more + rest == rest;
      assert body + more == body;
    }
  }

  /** Framing plain bodies and grouping the lines gives the bodies back,
      whatever follows the framed events. */
  lemma {:induction false} FrameBlocksThen(bodies: seq<seq<string>>, after: seq<string>)
    requires forall i :: 0 <= i < |bodies| ==> PlainBody(bodies[i])
    ensures Outside(Frame(bodies) + after) == bodies + Outside(after)
    decreases |bodies|
  {
    if |bodies| > 0 {
      var rest := Frame(bodies[1..]) + after;
      var lines := Frame(bodies) + after;
      assert lines == [BeginEvent] + (bodies[0] + ([EndEvent] + rest));
      assert IsBeginLine(BeginEvent);
      assert lines[1..] == bodies[0] + ([EndEvent] + rest);
      InsideCollects([], bodies[0], [EndEvent] + rest);
      assert [] + bodies[0] == bodies[0];
      assert !IsBeginLine(EndEvent);
      assert ([EndEvent] + rest)[1..] == rest;
      FrameBlocksThen(bodies[1..], after);
      assert bodies == [bodies[0]] + bodies[1..];
    } else {
      assert Frame(bodies) + after == after;
    }
  }

  lemma FrameBlocks(bodies: seq<seq<string>>)
    requires forall i :: 0 <= i < |bodies| ==> PlainBody(bodies[i])
    ensures Outside(Frame(bodies)) == bodies
  {
    FrameBlocksThen(bodies, []);
    assert Frame(bodies) + [] == Frame(bodies);
  }

  /** An event that is opened but never closed, in front of well-framed events,
      is discarded by the next BEGIN line. */
  lemma OpenEventDiscarded(open: seq<string>, bodies: seq<seq<string>>)
    requires PlainBody(open)
    requires forall i :: 0 <= i < |bodies| ==> PlainBody(bodies[i])
    ensures Outside([BeginEvent] + open + Frame(bodies)) == bodies
  {
    OpenThenRest(open, Frame(bodies));
    FrameRestartsEvent(bodies, open);
    FrameBlocks(bodies);
  }

  lemma OpenThenRest(open: seq<string>, rest: seq<string>)
    requires PlainBody(open)
    ensures Outside([BeginEvent] + open + rest) == Inside(rest, open)
  {
    var lines := [BeginEvent] + open + rest;
    assert IsBeginLine(lines[0]);
    assert lines[1..] == open + rest;
    InsideCollects([], open, rest);
    assert [] + open == open;
  }

  /** Framed events start with a BEGIN line, so whatever event is open in
      front of them is thrown away. */
  lemma FrameRestartsEvent(bodies: seq<seq<string>>, body: seq<string>)
    ensures Inside(Frame(bodies), body) == Outside(Frame(bodies))
  {
    if |bodies| > 0 {
      var lines := Frame(bodies);
      assert lines[0] == BeginEvent;
      assert IsBeginLine(BeginEvent);
    }
  }

  /** An event still open at the end of the text is never emitted. */
  lemma {:induction false} UnclosedEventDropped(lines: seq<string>, body: seq<string>)
    requires forall i :: 0 <= i < |lines| ==> !IsEndLine(lines[i])
    ensures Inside(lines, body) == []
    decreases |lines|
  {
    if |lines| > 0 {
      if IsBeginLine(lines[0]) {
        UnclosedEventDropped(lines[1..], []);
      } else {
        UnclosedEventDropped(lines[1..], body + [lines[0]]);
      }
    }
  }

  /** A calendar written with CRLF line endings, one property per line,
      tokenizes into exactly the events it was written from. */
  lemma WrittenCalendarReadsBack(bodies: seq<seq<string>>)
    requires |bodies| > 0
    requires forall i :: 0 <= i < |bodies| ==> PlainBody(bodies[i])
    requires forall i, j :: 0 <= i < |bodies| && 0 <= j < |bodies[i]| ==>
      '\r' !in bodies[i][j] && '\n' !in bodies[i][j]
    ensures ParseICalData(Join(Frame(bodies), "\r\n")) == FieldsOf(bodies)
  {
    var lines := Frame(bodies);
    FrameLinesClean(bodies);
    NormalizeCrlfJoin(lines);
    assert lines[0] == BeginEvent;
    SplitJoin(lines, '\n');
    FrameBlocks(bodies);
  }

  const CalendarBegin: string := "BEGIN:VCALENDAR"
  const CalendarEnd: string := "END:VCALENDAR"

  /** The same for a whole calendar object: the VCALENDAR lines around the
      events contribute nothing. */
  lemma CalendarReadsBack(bodies: seq<seq<string>>)
    requires forall i :: 0 <= i < |bodies| ==> PlainBody(bodies[i])
    requires forall i, j :: 0 <= i < |bodies| && 0 <= j < |bodies[i]| ==>
      '\r' !in bodies[i][j] && '\n' !in bodies[i][j]
    ensures ParseICalData(Join([CalendarBegin] + Frame(bodies) + [CalendarEnd], "\r\n")) == FieldsOf(bodies)
  {
    var lines := [CalendarBegin] + Frame(bodies) + [CalendarEnd];
    CalendarLinesClean(bodies, lines);
    NormalizeCrlfJoin(lines);
    SplitJoin(lines, '\n');
    CalendarGrouping(bodies, lines);
  }

  lemma CalendarGrouping(bodies: seq<seq<string>>, lines: seq<string>)
    requires forall i :: 0 <= i < |bodies| ==> PlainBody(bodies[i])
    requires lines == [CalendarBegin] + Frame(bodies) + [CalendarEnd]
    ensures Outside(lines) == bodies
  {
    var rest := Frame(bodies) + [CalendarEnd];
    assert lines[0] == CalendarBegin && lines[1..] == rest;
    CalendarLinesAreNotEvents();
    assert Outside(lines) == Outside(rest);
    FrameBlocksThen(bodies, [CalendarEnd]);
    assert bodies + [] == bodies;
  }

  lemma CalendarLinesAreNotEvents()
    ensures !IsBeginLine(CalendarBegin) && !IsBeginLine(CalendarEnd)
    ensures Outside([CalendarEnd]) == []
  {
    assert CalendarBegin[7] != BeginEvent[7];
    assert CalendarEnd[0] != BeginEvent[0];
    assert [CalendarEnd][1..] == [];
  }

  lemma CalendarLinesClean(bodies: seq<seq<string>>, lines: seq<string>)
    requires forall i, j :: 0 <= i < |bodies| && 0 <= j < |bodies[i]| ==>
      '\r' !in bodies[i][j] && '\n' !in bodies[i][j]
    requires lines == [CalendarBegin] + Frame(bodies) + [CalendarEnd]
    ensures forall i :: 0 <= i < |lines| ==> '\r' !in lines[i] && '\n' !in lines[i]
  {
    FrameLinesClean(bodies);
    forall i | 0 <= i < |lines|
      ensures '\r' !in lines[i] && '\n' !in lines[i]
    {
      if 0 < i < |lines| - 1 {
        assert lines[i] == Frame(bodies)[i - 1];
      }
    }
  }

  lemma {:induction false} FrameLinesClean(bodies: seq<seq<string>>)
    requires forall i, j :: 0 <= i < |bodies| && 0 <= j < |bodies[i]| ==>
      '\r' !in bodies[i][j] && '\n' !in bodies[i][j]
    ensures forall i :: 0 <= i < |Frame(bodies)| ==> '\r' !in Frame(bodies)[i] && '\n' !in Frame(bodies)[i]
    decreases |bodies|
  {
    if |bodies| > 0 {
      FrameLinesClean(bodies[1..]);
      assert forall i :: 0 <= i < |bodies[1..]| ==> bodies[1..][i] == bodies[i + 1];
    }
  }
}
