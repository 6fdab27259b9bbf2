/** `parseICal`: the tokenized events become bookings.  An event missing a
    start, an end or a UID is skipped; every other event becomes exactly one
    booking, in calendar order. */
module Parser {
  import opened Wrappers
  import opened Text
  import opened Tokenizer
  import opened Dates
  import opened Stamps
  import opened Bookings
  import opened Heuristics

  const MissingCalendar: string := "Invalid iCal data: Missing BEGIN:VCALENDAR"
  const UnknownProperty: string := "Unknown Property"

  /** `event.KEY` is truthy: present and not the empty string. */
  predicate HasField(event: RawEvent, key: string) {
    key in event && event[key] != ""
  }

  /** The fields a booking cannot do without. */
  predicate IsComplete(event: RawEvent): (r: bool)
    ensures r <==> && "DTSTART" in event && event["DTSTART"] != ""
                   && "DTEND" in event && event["DTEND"] != ""
                   && "UID" in event && event["UID"] != ""
  {
    HasField(event, "DTSTART") && HasField(event, "DTEND") && HasField(event, "UID")
  }

  /** A timestamp field when it is truthy, otherwise the current instant. */
  function StampOr(event: RawEvent, key: string, now: int): (st: Stamp)
    ensures HasField(event, key) ==> st == DecodeStamp(event[key])
    ensures !HasField(event, key) ==> st == At(now)
  {
    if HasField(event, key) then DecodeStamp(event[key]) else At(now)
  }

  /** The check-out instant.  When DTSTART is an eight-character date, the
      exclusive end date is moved one day back, whatever shape DTEND has. */
  function CheckOut(event: RawEvent): (st: Stamp)
    requires IsComplete(event)
    ensures st.At? <==> WellFormed(event["DTEND"])
    ensures |event["DTSTART"]| != 8 ==> st == DecodeStamp(event["DTEND"])
    ensures |event["DTSTART"]| == 8 && st.At? ==>
      && DayOf(st.seconds) == DayOf(ParseDate(event["DTEND"])) - 1
      && st.seconds % SecondsPerDay == ParseDate(event["DTEND"]) % SecondsPerDay
  {
    var end := DecodeStamp(event["DTEND"]);
    if |event["DTSTART"]| == 8 then DayEarlier(end) else end
  }

  /** The booking of one complete event. */
  function ToBooking(event: RawEvent, platform: Platform, now: int): (b: Booking)
    requires IsComplete(event)
    ensures b.id == event["UID"] && b.id != "" && b.platform == platform
    ensures b.checkInDate.At? <==> WellFormed(event["DTSTART"])
    ensures b.checkInDate.At? ==> b.checkInDate.seconds == ParseDate(event["DTSTART"])
    ensures b.checkOutDate == CheckOut(event)
    ensures "LOCATION" in event ==> b.propertyName == event["LOCATION"]
    ensures "LOCATION" !in event ==> b.propertyName == UnknownProperty
    ensures b.guestName.Some? && IsTrimmed(b.guestName.value) && b.guest.None?
    ensures b.guestName == Some(ExtractGuestName(event, platform))
    ensures b.status != Pending
    ensures b.status == Cancelled <==> IsBlockedSummary(FieldOr(event, "SUMMARY"))
    ensures b.originalStatus == Some(FieldOr(event, "SUMMARY"))
    ensures b.description.Some? <==> "DESCRIPTION" in event
    ensures b.description.Some? ==> b.description.value == event["DESCRIPTION"]
    ensures HasField(event, "CREATED") ==> b.createdAt == DecodeStamp(event["CREATED"])
    ensures !HasField(event, "CREATED") ==> b.createdAt == At(now)
    ensures HasField(event, "LAST-MODIFIED") ==> b.updatedAt == DecodeStamp(event["LAST-MODIFIED"])
    ensures !HasField(event, "LAST-MODIFIED") ==> b.updatedAt == At(now)
  {
    Booking(
      id := event["UID"],
      platform := platform,
      propertyName := if "LOCATION" in event then event["LOCATION"] else UnknownProperty,
      guestName := Some(ExtractGuestName(event, platform)),
      guest := None,
      description := if "DESCRIPTION" in event then Some(event["DESCRIPTION"]) else None,
      checkInDate := DecodeStamp(event["DTSTART"]),
      checkOutDate := CheckOut(event),
      status := DetermineStatus(event, platform),
      originalStatus := Some(FieldOr(event, "SUMMARY")),
      createdAt := StampOr(event, "CREATED", now),
      updatedAt := StampOr(event, "LAST-MODIFIED", now))
  }

  // ---------------------------------------------------------------------------
  // Skipping incomplete events
  // ---------------------------------------------------------------------------

  /** The positions of the complete events, in increasing order: exactly the
      events the `map` keeps after the `filter` drops the nulls. */
  function Survivors(events: seq<RawEvent>): (ix: seq<nat>)
    ensures |ix| <= |events|
    ensures forall k :: 0 <= k < |ix| ==> ix[k] < |events| && IsComplete(events[ix[k]])
    ensures forall k, l :: 0 <= k < l < |ix| ==> ix[k] < ix[l]
    ensures forall i :: 0 <= i < |events| && IsComplete(events[i]) ==> i in ix
    decreases |events|
  {
    if |events| == 0 then []
    else
      var n := |events| - 1;
      var front := Survivors(events[..n]);
      assert forall k :: 0 <= k < |front| ==> events[..n][front[k]] == events[front[k]];
      front + if IsComplete(events[n]) then [n] else []
  }

  /** `events.map(...).filter(b => b !== null)`: the booking of each
      surviving event, in order. */
  function AssembleAll(events: seq<RawEvent>, platform: Platform, now: int): (bookings: seq<Booking>)
    ensures |bookings| == |Survivors(events)|
    ensures forall k :: 0 <= k < |bookings| ==>
      bookings[k] == ToBooking(events[Survivors(events)[k]], platform, now)
  {
    var ix := Survivors(events);
    seq(|ix|, k requires 0 <= k < |ix| => ToBooking(events[ix[k]], platform, now))
  }

  /** Every complete event gives a booking, and every booking comes from a
      complete event with its UID. */
  lemma BookingsAreTheCompleteEvents(events: seq<RawEvent>, platform: Platform, now: int)
    ensures forall i :: 0 <= i < |events| && IsComplete(events[i]) ==>
      ToBooking(events[i], platform, now) in AssembleAll(events, platform, now)
    ensures forall b :: b in AssembleAll(events, platform, now) ==>
      exists i :: 0 <= i < |events| && IsComplete(events[i]) && b == ToBooking(events[i], platform, now)
  {
    var bookings, ix := AssembleAll(events, platform, now), Survivors(events);
    forall i | 0 <= i < |events| && IsComplete(events[i])
      ensures ToBooking(events[i], platform, now) in bookings
    {
      var k :| 0 <= k < |ix| && ix[k] == i;
      assert bookings[k] == ToBooking(events[i], platform, now);
    }
    forall b | b in bookings
      ensures exists i :: 0 <= i < |events| && IsComplete(events[i]) && b == ToBooking(events[i], platform, now)
    {
      var k :| 0 <= k < |bookings| && bookings[k] == b;
      assert IsComplete(events[ix[k]]);
    }
  }

  // ---------------------------------------------------------------------------
  // The entry points
  // ---------------------------------------------------------------------------

  /** `parseICal`: the thrown error becomes a `Failure`. */
  function ParseICal(data: string, platform: Platform, now: int): (r: Result<seq<Booking>, string>)
    ensures r.Failure? <==> !Contains(data, CalendarBegin)
    ensures r.Failure? ==> r.error == MissingCalendar
    ensures r.Success? ==> r.value == AssembleAll(ParseICalData(data), platform, now)
    ensures r.Success? ==> |r.value| <= CountEndLines(SplitLines(data))
    ensures r.Success? ==> forall k :: 0 <= k < |r.value| ==> r.value[k].id != "" && r.value[k].platform == platform
  {
    if !Contains(data, CalendarBegin) then Failure(MissingCalendar)
    else
      EventsAtMostEndLines(data);
      Success(AssembleAll(ParseICalData(data), platform, now))
  }

  /** The platform a calendar URL is read as: Airbnb when the URL mentions
      `airbnb`, Booking.com otherwise, never any other platform. */
  function PlatformOf(url: string): (p: Platform)
    ensures p == Airbnb <==> Contains(url, "airbnb")
    ensures p == BookingCom <==> !Contains(url, "airbnb")
  {
    if Contains(url, "airbnb") then Airbnb else BookingCom
  }

  /** `parseICalContent`. */
  function ParseICalContent(content: string, url: string, now: int): (r: Result<seq<Booking>, string>)
    ensures r.Failure? <==> !Contains(content, CalendarBegin)
    ensures r.Success? ==> forall k :: 0 <= k < |r.value| ==>
      (r.value[k].platform == Airbnb <==> Contains(url, "airbnb"))
  {
    ParseICal(content, PlatformOf(url), now)
  }

  // ---------------------------------------------------------------------------
  // A calendar written out
  // ---------------------------------------------------------------------------

  /** The lines of an all-day stay as a calendar export writes them. */
  function StayLines(uid: string, checkIn: Civil, checkOut: Civil, summary: string): seq<string>
    requires 0 <= checkIn.year && 0 <= checkIn.month && 0 <= checkIn.day
    requires 0 <= checkOut.year && 0 <= checkOut.month && 0 <= checkOut.day
  {
    [ "UID:" + uid,
      "DTSTART;VALUE=DATE:" + FormatDate(checkIn),
      "DTEND;VALUE=DATE:" + FormatDate(checkOut),
      "SUMMARY:" + summary ]
  }

  /** The text of a calendar holding that one stay, with CRLF line ends. */
  function StayCalendar(uid: string, checkIn: Civil, checkOut: Civil, summary: string): string
    requires 0 <= checkIn.year && 0 <= checkIn.month && 0 <= checkIn.day
    requires 0 <= checkOut.year && 0 <= checkOut.month && 0 <= checkOut.day
  {
    Join([CalendarBegin] + Frame([StayLines(uid, checkIn, checkOut, summary)]) + [CalendarEnd], "\r\n")
  }

  /** The event an all-day stay tokenizes into. */
  function StayEvent(uid: string, checkIn: Civil, checkOut: Civil, summary: string): RawEvent
    requires 0 <= checkIn.year && 0 <= checkIn.month && 0 <= checkIn.day
    requires 0 <= checkOut.year && 0 <= checkOut.month && 0 <= checkOut.day
  {
    map["UID" := uid, "DTSTART" := FormatDate(checkIn), "DTEND" := FormatDate(checkOut), "SUMMARY" := summary]
  }

  lemma LineReadsAs(key: string, params: string, value: string)
    requires ValidKey(key) && key[0] != ' ' && ValidParams(params) && NoLineTerminator(value)
    ensures ReadsAs(key + params + ":" + value, params, Property(key, value))
  {
    assert (key + params + ":" + value)[0] == key[0];
  }

  lemma FourAssignments(props: seq<Property>)
    requires |props| == 4
    ensures Assignments(props)
      == map[props[0].key := props[0].value][props[1].key := props[1].value]
            [props[2].key := props[2].value][props[3].key := props[3].value]
  {
    var p1, p2, p3 := props[..1], props[..2], props[..3];
    assert p1[..0] == [];
    assert Assignments(p1) == map[props[0].key := props[0].value];
    assert p2[..1] == p1;
    assert Assignments(p2) == Assignments(p1)[props[1].key := props[1].value];
    assert p3[..2] == p2;
    assert Assignments(p3) == Assignments(p2)[props[2].key := props[2].value];
    assert props[..3] == p3;
  }

  /** The four lines of a stay, with its tokens as plain strings. */
  lemma StayLinesRead(uid: string, start: string, end: string, summary: string)
    requires NoLineTerminator(uid) && NoLineTerminator(start) && NoLineTerminator(end) && NoLineTerminator(summary)
    ensures Fields(["UID:" + uid, "DTSTART;VALUE=DATE:" + start, "DTEND;VALUE=DATE:" + end, "SUMMARY:" + summary])
      == map["UID" := uid, "DTSTART" := start, "DTEND" := end, "SUMMARY" := summary]
  {
    var body := ["UID:" + uid, "DTSTART;VALUE=DATE:" + start, "DTEND;VALUE=DATE:" + end, "SUMMARY:" + summary];
    var params := ["", ";VALUE=DATE", ";VALUE=DATE", ""];
    var props := [Property("UID", uid), Property("DTSTART", start), Property("DTEND", end), Property("SUMMARY", summary)];
    StayLinesReadAs(uid, start, end, summary);
    PropertyLinesRead(body, params, props, "");
    FourAssignments(props);
  }

  lemma StayLinesReadAs(uid: string, start: string, end: string, summary: string)
    requires NoLineTerminator(uid) && NoLineTerminator(start) && NoLineTerminator(end) && NoLineTerminator(summary)
    ensures var body := ["UID:" + uid, "DTSTART;VALUE=DATE:" + start, "DTEND;VALUE=DATE:" + end, "SUMMARY:" + summary];
      var params := ["", ";VALUE=DATE", ";VALUE=DATE", ""];
      var props := [Property("UID", uid), Property("DTSTART", start), Property("DTEND", end), Property("SUMMARY", summary)];
      forall i :: 0 <= i < 4 ==> ReadsAs(body[i], params[i], props[i])
  {
    LineReadsAs("UID", "", uid);
    assert "UID" + "" + ":" + uid == "UID:" + uid;
    LineReadsAs("DTSTART", ";VALUE=DATE", start);
    assert "DTSTART" + ";VALUE=DATE" + ":" + start == "DTSTART;VALUE=DATE:" + start;
    LineReadsAs("DTEND", ";VALUE=DATE", end);
    assert "DTEND" + ";VALUE=DATE" + ":" + end == "DTEND;VALUE=DATE:" + end;
    LineReadsAs("SUMMARY", "", summary);
    assert "SUMMARY" + "" + ":" + summary == "SUMMARY:" + summary;
  }

  lemma StayFields(uid: string, checkIn: Civil, checkOut: Civil, summary: string)
    requires 0 <= checkIn.year && 0 <= checkIn.month && 0 <= checkIn.day
    requires 0 <= checkOut.year && 0 <= checkOut.month && 0 <= checkOut.day
    requires NoLineTerminator(uid) && NoLineTerminator(summary)
    ensures Fields(StayLines(uid, checkIn, checkOut, summary)) == StayEvent(uid, checkIn, checkOut, summary)
  {
    var start, end := FormatDate(checkIn), FormatDate(checkOut);
    assert NoLineTerminator(start) && NoLineTerminator(end);
    StayLinesRead(uid, start, end, summary);
  }

  /** A calendar export of one all-day stay tokenizes into its one event. */
  lemma StayCalendarEvents(uid: string, checkIn: Civil, checkOut: Civil, summary: string)
    requires 0 <= checkIn.year && 0 <= checkIn.month && 0 <= checkIn.day
    requires 0 <= checkOut.year && 0 <= checkOut.month && 0 <= checkOut.day
    requires NoLineTerminator(uid) && NoLineTerminator(summary)
    ensures Contains(StayCalendar(uid, checkIn, checkOut, summary), CalendarBegin)
    ensures ParseICalData(StayCalendar(uid, checkIn, checkOut, summary)) == [StayEvent(uid, checkIn, checkOut, summary)]
  {
    var body := StayLines(uid, checkIn, checkOut, summary);
    var lines := [CalendarBegin] + Frame([body]) + [CalendarEnd];
    var data := StayCalendar(uid, checkIn, checkOut, summary);
    StayIsPlain(uid, checkIn, checkOut, summary);
    CalendarReadsBack([body]);
    StayFields(uid, checkIn, checkOut, summary);
    assert lines[0] == CalendarBegin;
    assert data == CalendarBegin + "\r\n" + Join(lines[1..], "\r\n");
    assert data[..|CalendarBegin|] == CalendarBegin;
    assert OccursAt(data, CalendarBegin, 0);
  }

  /** A calendar export of one all-day stay parses into one booking with
      that UID, checking in at midnight UTC of the first night and checking
      out at midnight UTC of the last night. */
  lemma AllDayStayReadsBack(uid: string, checkIn: Civil, checkOut: Civil, summary: string,
                            platform: Platform, now: int)
    requires uid != "" && NoLineTerminator(uid) && NoLineTerminator(summary)
    requires 100 <= checkIn.year <= 9999 && ValidCivil(checkIn)
    requires 100 <= checkOut.year <= 9999 && ValidCivil(checkOut)
    ensures var r := ParseICal(StayCalendar(uid, checkIn, checkOut, summary), platform, now);
      && r.Success? && |r.value| == 1
      && r.value[0].id == uid
      && r.value[0].checkInDate == At(DaysFromCivil(checkIn) * SecondsPerDay)
      && r.value[0].checkOutDate == At((DaysFromCivil(checkOut) - 1) * SecondsPerDay)
      && r.value[0].propertyName == UnknownProperty
      && r.value[0].createdAt == At(now) && r.value[0].updatedAt == At(now)
      && (r.value[0].status == Cancelled <==> IsBlockedSummary(summary))
  {
    StayCalendarEvents(uid, checkIn, checkOut, summary);
    var event := StayEvent(uid, checkIn, checkOut, summary);
    StayBookingDates(uid, checkIn, checkOut, summary, platform, now);
    StayBookingFields(uid, checkIn, checkOut, summary, platform, now);
    OneCompleteEvent(event, platform, now);
  }

  /** A calendar of one complete event gives exactly its booking. */
  lemma OneCompleteEvent(event: RawEvent, platform: Platform, now: int)
    requires IsComplete(event)
    ensures AssembleAll([event], platform, now) == [ToBooking(event, platform, now)]
  {
    assert [event][..0] == [];
    assert Survivors([event]) == [0];
  }

  /** The dates of the booking the stay's event becomes. */
  lemma StayBookingDates(uid: string, checkIn: Civil, checkOut: Civil, summary: string,
                         platform: Platform, now: int)
    requires uid != ""
    requires 100 <= checkIn.year <= 9999 && ValidCivil(checkIn)
    requires 100 <= checkOut.year <= 9999 && ValidCivil(checkOut)
    ensures IsComplete(StayEvent(uid, checkIn, checkOut, summary))
    ensures var b := ToBooking(StayEvent(uid, checkIn, checkOut, summary), platform, now);
      && b.checkInDate == At(DaysFromCivil(checkIn) * SecondsPerDay)
      && b.checkOutDate == At((DaysFromCivil(checkOut) - 1) * SecondsPerDay)
  {
    var event := StayEvent(uid, checkIn, checkOut, summary);
    var start, end := FormatDate(checkIn), FormatDate(checkOut);
    DateTokenRoundTrip(checkIn);
    DateTokenRoundTrip(checkOut);
    assert event["UID"] == uid && event["DTSTART"] == start && event["DTEND"] == end;
    CheckOutOfDate(event);
    MidnightBefore(DaysFromCivil(checkOut));
  }

  /** After an all-day start, a well-formed end moves back exactly one day. */
  lemma CheckOutOfDate(event: RawEvent)
    requires IsComplete(event) && |event["DTSTART"]| == 8 && WellFormed(event["DTEND"])
    ensures CheckOut(event) == At(ParseDate(event["DTEND"]) - SecondsPerDay)
  {
  }

  lemma MidnightBefore(d: int)
    ensures d * SecondsPerDay - SecondsPerDay == (d - 1) * SecondsPerDay
  {
  }

  /** The other fields of the booking the stay's event becomes. */
  lemma StayBookingFields(uid: string, checkIn: Civil, checkOut: Civil, summary: string,
                          platform: Platform, now: int)
    requires uid != ""
    requires 0 <= checkIn.year && 0 <= checkIn.month && 0 <= checkIn.day
    requires 0 <= checkOut.year && 0 <= checkOut.month && 0 <= checkOut.day
    requires IsComplete(StayEvent(uid, checkIn, checkOut, summary))
    ensures var b := ToBooking(StayEvent(uid, checkIn, checkOut, summary), platform, now);
      && b.id == uid
      && b.propertyName == UnknownProperty
      && b.createdAt == At(now) && b.updatedAt == At(now)
      && (b.status == Cancelled <==> IsBlockedSummary(summary))
  {
    var event := StayEvent(uid, checkIn, checkOut, summary);
    assert "LOCATION" !in event && "CREATED" !in event && "LAST-MODIFIED" !in event;
    assert FieldOr(event, "SUMMARY") == summary;
  }

  lemma StayIsPlain(uid: string, checkIn: Civil, checkOut: Civil, summary: string)
    requires 0 <= checkIn.year && 0 <= checkIn.month && 0 <= checkIn.day
    requires 0 <= checkOut.year && 0 <= checkOut.month && 0 <= checkOut.day
    requires NoLineTerminator(uid) && NoLineTerminator(summary)
    ensures PlainBody(StayLines(uid, checkIn, checkOut, summary))
    ensures forall j :: 0 <= j < 4 ==>
      '\r' !in StayLines(uid, checkIn, checkOut, summary)[j] && '\n' !in StayLines(uid, checkIn, checkOut, summary)[j]
  {
    var start, end := FormatDate(checkIn), FormatDate(checkOut);
    assert NoLineTerminator(start) && NoLineTerminator(end);
    StayLinesClean(uid, start, end, summary);
  }

  lemma StayLinesClean(uid: string, start: string, end: string, summary: string)
    requires NoLineTerminator(uid) && NoLineTerminator(start) && NoLineTerminator(end) && NoLineTerminator(summary)
    ensures var body := ["UID:" + uid, "DTSTART;VALUE=DATE:" + start, "DTEND;VALUE=DATE:" + end, "SUMMARY:" + summary];
      forall j :: 0 <= j < 4 ==> CleanLine(body[j])
  {
    KeysClean();
    PrefixedCleanLine("UID:", uid);
    PrefixedCleanLine("DTSTART;VALUE=DATE:", start);
    PrefixedCleanLine("DTEND;VALUE=DATE:", end);
    PrefixedCleanLine("SUMMARY:", summary);
    FourCleanLines(["UID:" + uid, "DTSTART;VALUE=DATE:" + start, "DTEND;VALUE=DATE:" + end, "SUMMARY:" + summary]);
  }

  lemma KeysClean()
    ensures NoLineTerminator("UID:") && NoLineTerminator("DTSTART;VALUE=DATE:")
    ensures NoLineTerminator("DTEND;VALUE=DATE:") && NoLineTerminator("SUMMARY:")
  {
  }

  /** A key prefix that starts neither delimiter, then a value, both without
      line terminators. */
  lemma PrefixedCleanLine(head: string, tail: string)
    requires |head| > 0 && head[0] != 'B' && head[0] != 'E'
    requires NoLineTerminator(head) && NoLineTerminator(tail)
    ensures CleanLine(head + tail)
  {
    var s := head + tail;
    assert s[0] == head[0] && BeginEvent[0] == 'B' && EndEvent[0] == 'E';
    assert forall i :: 0 <= i < |s| ==> !IsLineTerminator(s[i]);
  }

  /** A property line of a written-out event: not a block delimiter, and
      free of CR and LF. */
  predicate CleanLine(line: string) {
    IsBodyLine(line) && '\r' !in line && '\n' !in line
  }

  lemma FourCleanLines(body: seq<string>)
    requires |body| == 4
    requires CleanLine(body[0]) && CleanLine(body[1]) && CleanLine(body[2]) && CleanLine(body[3])
    ensures forall j :: 0 <= j < 4 ==> CleanLine(body[j])
  {
  }

  /** Nothing checks that a stay ends after it starts: a check-out date on
      or before the check-in date still gives a booking, one that ends
      before it begins. */
  lemma ReversedStayIsKept(uid: string, checkIn: Civil, checkOut: Civil, summary: string,
                           platform: Platform, now: int)
    requires uid != "" && NoLineTerminator(uid) && NoLineTerminator(summary)
    requires 100 <= checkIn.year <= 9999 && ValidCivil(checkIn)
    requires 100 <= checkOut.year <= 9999 && ValidCivil(checkOut)
    requires DaysFromCivil(checkOut) <= DaysFromCivil(checkIn)
    ensures var r := ParseICal(StayCalendar(uid, checkIn, checkOut, summary), platform, now);
      && r.Success? && |r.value| == 1
      && r.value[0].checkOutDate.At? && r.value[0].checkInDate.At?
      && r.value[0].checkOutDate.seconds < r.value[0].checkInDate.seconds
  {
    AllDayStayReadsBack(uid, checkIn, checkOut, summary, platform, now);
    EarlierDayEarlierMidnight(DaysFromCivil(checkOut) - 1, DaysFromCivil(checkIn));
  }

  lemma EarlierDayEarlierMidnight(a: int, b: int)
    requires a < b
    ensures a * SecondsPerDay < b * SecondsPerDay
  {
  }
}
