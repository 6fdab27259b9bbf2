/** The platform-dependent readings of an event: its booking status and the
    guest name, taken from SUMMARY and DESCRIPTION. */
module Heuristics {
  import opened Wrappers
  import opened Text
  import opened Patterns
  import opened Tokenizer
  import opened Bookings

  /** `event.KEY ?? ''`. */
  function FieldOr(event: RawEvent, key: string): (v: string)
    ensures key in event ==> v == event[key]
    ensures key !in event ==> v == ""
  {
    if key in event then event[key] else ""
  }

  /** The alternatives after the lazy group of `(?:\r?\n|$)`; the line feed
      and the end of the text are always stops. */
  const LineEnd: seq<string> := ["\r\n"]

  /** `/Marker\s*(.*?)(?:\r?\n|$)/i.exec(text)?.[1]`. */
  function LabelledLine(text: string, marker: string): (r: Option<string>)
    ensures r.Some? ==> exists sp :: IsLineCapture(text, marker, LineEnd, sp) && r.value == text[sp.start..sp.end]
    ensures r.Some? ==> exists sp :: IsFirstLineCapture(text, marker, LineEnd, sp) && r.value == text[sp.start..sp.end]
    ensures r.None? ==> forall sp: Span :: !IsLineCapture(text, marker, LineEnd, sp)
    ensures r.Some? ==> NoLineTerminator(r.value)
    ensures (forall i :: !LabelAt(text, i, marker)) ==> r.None?
  {
    LineCapture(text, marker, LineEnd)
  }

  /** A summary that reads `blocked` or `cancelled` in any ASCII case, with
      no surrounding whitespace allowed. */
  predicate IsBlockedSummary(summary: string) {
    ToLower(summary) == "blocked" || ToLower(summary) == "cancelled"
  }

  // ---------------------------------------------------------------------------
  // Status
  // ---------------------------------------------------------------------------

  /** `determineBookingStatus`.  Every branch but the first yields
      `Confirmed`, so the DESCRIPTION's `Status:` line and the platform never
      matter, and `Pending` never arises. */
  function DetermineStatus(event: RawEvent, platform: Platform): (s: Status)
    ensures s == Cancelled <==> IsBlockedSummary(FieldOr(event, "SUMMARY"))
    ensures s != Pending
  {
    var summary := FieldOr(event, "SUMMARY");
    var description := FieldOr(event, "DESCRIPTION");
    var lowerSummary := ToLower(summary);
    if lowerSummary == "blocked" || lowerSummary == "cancelled" then Cancelled
    else if platform == Airbnb && StatusSaysConfirmed(description) then Confirmed
    else if lowerSummary == "booked" || lowerSummary == "reserved" then Confirmed
    else Confirmed
  }

  /** The `Status:` line of a description reads `confirmed` in any case. */
  predicate StatusSaysConfirmed(description: string): (r: bool)
    ensures r <==> LabelledLine(description, "Status:").Some?
                   && ToLower(LabelledLine(description, "Status:").value) == "confirmed"
    ensures (forall i :: !LabelAt(description, i, "Status:")) ==> !r
  {
    match LabelledLine(description, "Status:")
    case Some(v) => v != "" && ToLower(v) == "confirmed"
    case None => false
  }

  /** The status depends on the SUMMARY alone. */
  lemma StatusDependsOnSummaryOnly(e1: RawEvent, p1: Platform, e2: RawEvent, p2: Platform)
    requires FieldOr(e1, "SUMMARY") == FieldOr(e2, "SUMMARY")
    ensures DetermineStatus(e1, p1) == DetermineStatus(e2, p2)
  {
  }

  /** The summary is not trimmed: a blocked summary with a leading space
      counts as confirmed. */
  lemma PaddedSummaryIsConfirmed(event: RawEvent, platform: Platform, summary: string)
    requires IsBlockedSummary(summary)
    ensures DetermineStatus(event["SUMMARY" := " " + summary], platform) == Confirmed
  {
    var padded := " " + summary;
    assert |ToLower(padded)| == |summary| + 1;
  }

  // ---------------------------------------------------------------------------
  // Guest name
  // ---------------------------------------------------------------------------

  /** `extractGuestName`. */
  function ExtractGuestName(event: RawEvent, platform: Platform): (name: string)
    ensures IsTrimmed(name)
    ensures platform == BookingCom && HasBlockWord(FieldOr(event, "SUMMARY")) ==> name == "Blocked"
    ensures platform == Airbnb && AirbnbGuest(FieldOr(event, "DESCRIPTION")).None?
      ==> (name == "Blocked" <==> IsBlockedSummary(FieldOr(event, "SUMMARY")) || Trim(FieldOr(event, "SUMMARY")) == "Blocked")
    ensures platform == BookingCom && !HasBlockWord(FieldOr(event, "SUMMARY")) && FieldOr(event, "DESCRIPTION") != ""
      ==> '\n' !in name
    ensures platform == BookingCom && !HasBlockWord(FieldOr(event, "SUMMARY")) && FieldOr(event, "DESCRIPTION") == ""
            && !Contains(FieldOr(event, "SUMMARY"), " - Closed")
      ==> name == Trim(FieldOr(event, "SUMMARY"))
    ensures platform == Other ==> name != ""
    ensures platform == Airbnb ==> name == AirbnbGuestName(FieldOr(event, "SUMMARY"), FieldOr(event, "DESCRIPTION"))
    ensures platform == BookingCom ==> name == BookingComGuestName(FieldOr(event, "SUMMARY"), FieldOr(event, "DESCRIPTION"))
    ensures platform == Other && Trim(FieldOr(event, "SUMMARY")) != "" ==> name == Trim(FieldOr(event, "SUMMARY"))
    ensures platform == Other && Trim(FieldOr(event, "SUMMARY")) == "" ==> name == "Unknown Guest"
  {
    var summary := FieldOr(event, "SUMMARY");
    var description := FieldOr(event, "DESCRIPTION");
    match platform
    case Airbnb => AirbnbGuestName(summary, description)
    case BookingCom => BookingComGuestName(summary, description)
    case Other =>
      var t := Trim(summary);
      if t != "" then t else "Unknown Guest"
  }

  /** The Airbnb branch: the `Guest:` capture, else the summary. */
  function AirbnbGuestName(summary: string, description: string): (name: string)
    ensures IsTrimmed(name)
    ensures AirbnbGuest(description).Some? ==> name == AirbnbGuest(description).value
    ensures AirbnbGuest(description).None?
      ==> (name == "Blocked" <==> IsBlockedSummary(summary) || Trim(summary) == "Blocked")
    ensures AirbnbGuest(description).None? && IsBlockedSummary(summary) ==> name == "Blocked"
    ensures AirbnbGuest(description).None? && !IsBlockedSummary(summary) ==> name == Trim(summary)
  {
    match AirbnbGuest(description)
    case Some(g) => g
    case None =>
      if IsBlockedSummary(summary) then "Blocked" else Trim(summary)
  }

  /** The Booking.com branch: `Blocked`, else the first description line,
      else the summary without ` - Closed`. */
  function BookingComGuestName(summary: string, description: string): (name: string)
    ensures IsTrimmed(name)
    ensures HasBlockWord(summary) ==> name == "Blocked"
    ensures !HasBlockWord(summary) && description != "" ==> '\n' !in name
    ensures !HasBlockWord(summary) && description == "" && !Contains(summary, " - Closed") ==> name == Trim(summary)
    ensures !HasBlockWord(summary) && description != "" ==> name == Trim(FirstLine(description))
    ensures !HasBlockWord(summary) && description == "" ==> name == Trim(ReplaceFirst(summary, " - Closed", ""))
  {
    if HasBlockWord(summary) then "Blocked"
    else if description != "" then
      TrimOfLineHasNoLineFeed(FirstLine(description));
      Trim(FirstLine(description))
    else Trim(ReplaceFirst(summary, " - Closed", ""))
  }

  /** A Booking.com description's first line, up to the first line feed and
      without a carriage return before it, gives the guest name, trimmed. */
  lemma BookingComGuestFromFirstLine(event: RawEvent, line: string, tail: string)
    requires !HasBlockWord(FieldOr(event, "SUMMARY"))
    requires FieldOr(event, "DESCRIPTION") == line + tail && line + tail != ""
    requires '\n' !in line && (tail == "" || tail[0] == '\n')
    ensures ExtractGuestName(event, BookingCom) == Trim(line)
  {
    var d := FieldOr(event, "DESCRIPTION");
    if tail == "" {
      assert d == line;
    } else {
      FirstLineEndsAt(d, line, tail);
      if |line| > 0 && line[|line| - 1] == '\r' {
        TrimIgnoresTrailingWhitespace(line);
      }
    }
  }

  lemma FirstLineEndsAt(d: string, line: string, tail: string)
    requires d == line + tail && '\n' !in line && |tail| > 0 && tail[0] == '\n'
    ensures FirstLine(d) == if |line| > 0 && line[|line| - 1] == '\r' then line[..|line| - 1] else line
  {
    assert d[..|line|] == line;
    FirstOccurrence(d, '\n', |line|);
  }

  /** Without a description, the first ` - Closed` is cut from a Booking.com
      summary and the rest trimmed. */
  lemma BookingComGuestFromSummary(event: RawEvent, head: string, rest: string)
    requires !HasBlockWord(FieldOr(event, "SUMMARY")) && FieldOr(event, "DESCRIPTION") == ""
    requires FieldOr(event, "SUMMARY") == head + " - Closed" + rest
    requires forall j :: 0 <= j < |head| ==> !OccursAt(FieldOr(event, "SUMMARY"), " - Closed", j)
    ensures ExtractGuestName(event, BookingCom) == Trim(head + rest)
  {
    ReplaceFirstAt(FieldOr(event, "SUMMARY"), " - Closed", head, rest);
  }

  /** An Airbnb description with no `Guest:` label leaves the summary: the
      name is `Blocked` for a blocked or cancelled summary, the trimmed
      summary otherwise. */
  lemma AirbnbGuestFromSummary(event: RawEvent)
    requires forall i :: !LabelAt(FieldOr(event, "DESCRIPTION"), i, "Guest:")
    ensures ExtractGuestName(event, Airbnb)
      == if IsBlockedSummary(FieldOr(event, "SUMMARY")) then "Blocked" else Trim(FieldOr(event, "SUMMARY"))
  {
  }

  /** The trimmed `Guest:` capture of an Airbnb description, when the capture
      is non-empty. */
  function AirbnbGuest(description: string): (g: Option<string>)
    ensures g.Some? ==> IsTrimmed(g.value) && '\n' !in g.value
    ensures g.Some? <==> LabelledLine(description, "Guest:").Some? && LabelledLine(description, "Guest:").value != ""
    ensures g.Some? ==> g.value == Trim(LabelledLine(description, "Guest:").value)
  {
    match LabelledLine(description, "Guest:")
    case Some(v) =>
      if v != "" then
        TrimOfLineHasNoLineFeed(v);
        Some(Trim(v))
      else None
    case None => None
  }

  /** A Booking.com summary that mentions `blocked` or `cancelled` anywhere. */
  predicate HasBlockWord(summary: string) {
    Contains(ToLower(summary), "blocked") || Contains(ToLower(summary), "cancelled")
  }

  lemma TrimOfLineHasNoLineFeed(s: string)
    requires '\n' !in s
    ensures '\n' !in Trim(s)
  {
    var a, b := LeadingWhitespace(s), TrimEnd(s);
    assert forall i :: 0 <= i < b - a ==> Trim(s)[i] == s[a + i];
  }

  /** An Airbnb description with a line `Guest: <name>` (the label in any
      case, and no earlier `Guest:`) gives that name, trimmed. */
  lemma AirbnbGuestFromLabelledLine(event: RawEvent, prefix: string, marker': string, ws: string,
                                    value: string, tail: string)
    requires FieldOr(event, "DESCRIPTION") == prefix + marker' + ws + value + tail
    requires |marker'| == |"Guest:"| && EqualsIgnoringCase(marker', "Guest:")
    requires forall i :: 0 <= i < |prefix| ==> !LabelAt(FieldOr(event, "DESCRIPTION"), i, "Guest:")
    requires AllWhitespace(ws)
    requires |value| > 0 && !IsWhitespace(value[0]) && NoLineTerminator(value)
    requires tail == "" || tail[0] == '\n' || (|tail| >= 2 && tail[..2] == "\r\n")
    ensures ExtractGuestName(event, Airbnb) == Trim(value)
  {
    var d := FieldOr(event, "DESCRIPTION");
    GuestLineCaptured(d, prefix, marker', ws, value, tail);
    assert AirbnbGuest(d) == Some(Trim(value));
  }

  lemma GuestLineCaptured(d: string, prefix: string, marker': string, ws: string, value: string, tail: string)
    requires d == prefix + marker' + ws + value + tail
    requires |marker'| == |"Guest:"| && EqualsIgnoringCase(marker', "Guest:")
    requires forall i :: 0 <= i < |prefix| ==> !LabelAt(d, i, "Guest:")
    requires AllWhitespace(ws)
    requires |value| > 0 && !IsWhitespace(value[0]) && NoLineTerminator(value)
    requires tail == "" || tail[0] == '\n' || (|tail| >= 2 && tail[..2] == "\r\n")
    ensures LabelledLine(d, "Guest:") == Some(value)
  {
    var stop := |prefix| + |marker'| + |ws| + |value|;
    LineEndClear(value);
    if tail == "" || tail[0] == '\n' {
      LineCaptureOfLabelledLine(d, prefix, marker', ws, value, tail, "Guest:", LineEnd);
    } else {
      assert d[stop..stop + 2] == tail[..2];
      LabelledLineAtCrLf(d, prefix, marker', ws, value, tail);
    }
  }

  lemma LineEndClear(value: string)
    ensures StopsClearOf(value, LineEnd)
  {
    assert LineEnd[0][0] == '\r';
  }

  /** The same, for a value ending at a CRLF. */
  lemma LabelledLineAtCrLf(d: string, prefix: string, marker': string, ws: string, value: string, tail: string)
    requires d == prefix + marker' + ws + value + tail
    requires |marker'| == |"Guest:"| && EqualsIgnoringCase(marker', "Guest:")
    requires forall i :: 0 <= i < |prefix| ==> !LabelAt(d, i, "Guest:")
    requires AllWhitespace(ws)
    requires |value| > 0 && !IsWhitespace(value[0]) && NoLineTerminator(value)
    requires |tail| >= 2 && tail[..2] == "\r\n"
    ensures LineCapture(d, "Guest:", LineEnd) == Some(value)
  {
    var at := |prefix|;
    var base := at + |marker'| + |ws|;
    var end := base + |value|;
    assert d[at..at + |marker'|] == marker';
    assert d[at + |marker'|..base] == ws;
    assert d[base..end] == value;
    assert d[end..end + 2] == "\r\n";
    assert LabelAt(d, end, LineEnd[0]);
    LineEndClear(value);
    LineCaptureAt(d, "Guest:", LineEnd, at, base, end);
  }
}
