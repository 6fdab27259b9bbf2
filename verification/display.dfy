/** The pure helpers of the calendar view: which bookings count as blocked,
    the colour of a day cell, and what the booking detail shows for a
    booking, scraped from an Airbnb DESCRIPTION. */
module Display {
  import opened Wrappers
  import opened Text
  import opened Patterns
  import opened Tokenizer
  import opened Bookings
  import opened Heuristics
  import opened Parser

  // ---------------------------------------------------------------------------
  // Blocked bookings
  // ---------------------------------------------------------------------------

  /** `isBookingBlocked`: a cancelled booking, or a guest name that mentions
      `blocked`, `maintenance` or `block`.  The test for `blocked` adds
      nothing to the test for `block`, and an empty guest name mentions
      nothing, so the JavaScript truthiness test drops out too. */
  function IsBookingBlocked(b: Booking): (r: bool)
    ensures r <==> (b.status == Cancelled || (b.guestName.Some? && MentionsBlock(b.guestName.value)))
  {
    var statusBlocked := b.status == Cancelled;
    var guestBlocked :=
      match b.guestName
      case Some(g) =>
        if g != "" then
          var lower := ToLower(g);
          assert "block" + "ed" == "blocked";
          ContainsPrefixOf(lower, "block", "ed");
          Contains(lower, "blocked") || Contains(lower, "maintenance") || Contains(lower, "block")
        else
          assert !OccursAt(ToLower(g), "block", 0);
          assert !OccursAt(ToLower(g), "maintenance", 0);
          false
      case None => false;
    statusBlocked || guestBlocked
  }

  /** A guest name that mentions `block` or `maintenance` in any case. */
  predicate MentionsBlock(name: string) {
    Contains(ToLower(name), "block") || Contains(ToLower(name), "maintenance")
  }

  /** A text that contains `t + u` contains `t`. */
  lemma ContainsPrefixOf(s: string, t: string, u: string)
    ensures Contains(s, t + u) ==> Contains(s, t)
  {
    if Contains(s, t + u) {
      var j :| OccursAt(s, t + u, j);
      assert s[j..j + |t|] == s[j..j + |t + u|][..|t|];
      assert OccursAt(s, t, j);
    }
  }

  // ---------------------------------------------------------------------------
  // Day colours
  // ---------------------------------------------------------------------------

  /** The three colours a booked day can take. */
  datatype Colour = Orange | Green | Red

  /** What the optional `getBookingStatus` callback says about a day's
      bookings. */
  datatype DayStatus = MixedDay | ConfirmedDay | CancelledDay | PendingDay

  const BaseClasses: string :=
    "aspect-square flex items-center justify-center text-sm font-normal rounded-full "
    + "transition-all duration-200 cursor-pointer relative overflow-hidden"
  const OtherMonthClasses: string := "text-gray-400 hover:bg-gray-50"
  const TodayClasses: string := "bg-blue-500 text-white hover:bg-blue-600"
  const FreeDayClasses: string := "text-gray-700 hover:bg-gray-50"

  function ColourName(c: Colour): string {
    match c
    case Orange => "orange"
    case Green => "green"
    case Red => "red"
  }

  /** `bg-orange-500 text-white hover:bg-orange-600` and its green and red
      counterparts. */
  function ColourClasses(c: Colour): string {
    var n := ColourName(c);
    "bg-" + n + "-500 text-white hover:bg-" + n + "-600"
  }

  /** The class strings a cell can get are all different, so the colour of a
      cell can be read back from its classes. */
  lemma ClassesDistinct()
    ensures forall c, c' :: ColourClasses(c) == ColourClasses(c') ==> c == c'
    ensures forall c :: (ColourClasses(c) != BaseClasses && ColourClasses(c) != OtherMonthClasses
                         && ColourClasses(c) != TodayClasses && ColourClasses(c) != FreeDayClasses)
  {
    OtherClassesShape();
    forall c, c' | ColourClasses(c) == ColourClasses(c')
      ensures c == c'
    {
      ColourClassesShape(c);
      ColourClassesShape(c');
    }
    forall c
      ensures ColourClasses(c) != BaseClasses && ColourClasses(c) != OtherMonthClasses
      ensures ColourClasses(c) != TodayClasses && ColourClasses(c) != FreeDayClasses
    {
      ColourClassesShape(c);
    }
  }

  /** A colour's classes start `bg-` followed by the colour's initial. */
  lemma ColourClassesShape(c: Colour)
    ensures 3 < |ColourClasses(c)| < 100 && ColourClasses(c)[0] == 'b'
    ensures ColourClasses(c)[3] == (match c case Orange => 'o' case Green => 'g' case Red => 'r')
  {
    var n := ColourName(c);
    assert 0 < |n| <= 6 && n[0] == (match c case Orange => 'o' case Green => 'g' case Red => 'r');
    var s := "bg-" + n + "-500 text-white hover:bg-" + n + "-600";
    assert s[0] == 'b' && s[3] == n[0];
  }

  lemma OtherClassesShape()
    ensures |BaseClasses| > 100 && |TodayClasses| > 3 && TodayClasses[3] == 'b'
    ensures |OtherMonthClasses| > 0 && OtherMonthClasses[0] == 't'
    ensures |FreeDayClasses| > 0 && FreeDayClasses[0] == 't'
  {
  }

  /** `getStatusBasedClasses`, by colour: nothing without a callback or for
      a pending day. */
  function StatusColour(verdict: Option<DayStatus>): (c: Option<Colour>)
    ensures c.None? <==> verdict.None? || verdict == Some(PendingDay)
    ensures verdict == Some(MixedDay) ==> c == Some(Orange)
    ensures verdict == Some(ConfirmedDay) ==> c == Some(Green)
    ensures verdict == Some(CancelledDay) ==> c == Some(Red)
  {
    match verdict
    case None => None
    case Some(MixedDay) => Some(Orange)
    case Some(ConfirmedDay) => Some(Green)
    case Some(CancelledDay) => Some(Red)
    case Some(PendingDay) => None
  }

  /** `bookings.some(booking => booking.status === 'confirmed')`. */
  function HasConfirmed(bookings: seq<Booking>): (r: bool)
    ensures r <==> exists i :: 0 <= i < |bookings| && bookings[i].status == Confirmed
  {
    if |bookings| == 0 then false
    else bookings[0].status == Confirmed || HasConfirmed(bookings[1..])
  }

  /** `bookings.some(isBookingBlocked)`. */
  function HasBlocked(bookings: seq<Booking>): (r: bool)
    ensures r <==> exists i :: 0 <= i < |bookings| && IsBookingBlocked(bookings[i])
  {
    if |bookings| == 0 then false
    else IsBookingBlocked(bookings[0]) || HasBlocked(bookings[1..])
  }

  /** `getFallbackClasses`, by colour: an exhaustive and exclusive four-way
      split on whether some booking is confirmed and some is blocked. */
  function FallbackColour(bookings: seq<Booking>): (c: Option<Colour>)
    ensures c == Some(Orange) <==>
      (exists i :: 0 <= i < |bookings| && bookings[i].status == Confirmed) &&
      (exists i :: 0 <= i < |bookings| && IsBookingBlocked(bookings[i]))
    ensures c == Some(Green) <==>
      (exists i :: 0 <= i < |bookings| && bookings[i].status == Confirmed) &&
      !(exists i :: 0 <= i < |bookings| && IsBookingBlocked(bookings[i]))
    ensures c == Some(Red) <==>
      !(exists i :: 0 <= i < |bookings| && bookings[i].status == Confirmed) &&
      (exists i :: 0 <= i < |bookings| && IsBookingBlocked(bookings[i]))
    ensures c.None? <==>
      !(exists i :: 0 <= i < |bookings| && bookings[i].status == Confirmed) &&
      !(exists i :: 0 <= i < |bookings| && IsBookingBlocked(bookings[i]))
  {
    var confirmed := HasConfirmed(bookings);
    var blocked := HasBlocked(bookings);
    if confirmed && blocked then Some(Orange)
    else if confirmed && !blocked then Some(Green)
    else if blocked && !confirmed then Some(Red)
    else None
  }

  /** The fallback colour depends on which bookings a day has, not on their
      order or on repetitions. */
  lemma FallbackIgnoresOrder(xs: seq<Booking>, ys: seq<Booking>)
    requires forall b :: b in xs <==> b in ys
    ensures FallbackColour(xs) == FallbackColour(ys)
  {
    assert HasConfirmed(xs) == HasConfirmed(ys) by {
      if i :| 0 <= i < |xs| && xs[i].status == Confirmed {
        assert xs[i] in ys;
      }
      if i :| 0 <= i < |ys| && ys[i].status == Confirmed {
        assert ys[i] in xs;
      }
    }
    assert HasBlocked(xs) == HasBlocked(ys) by {
      if i :| 0 <= i < |xs| && IsBookingBlocked(xs[i]) {
        assert xs[i] in ys;
      }
      if i :| 0 <= i < |ys| && IsBookingBlocked(ys[i]) {
        assert ys[i] in xs;
      }
    }
  }

  /** One confirmed booking whose guest name says `block` is both confirmed
      and blocked: its day is orange, as if mixed. */
  lemma ConfirmedBlockGuestIsMixed(b: Booking)
    requires b.status == Confirmed && b.guestName.Some? && Contains(ToLower(b.guestName.value), "block")
    ensures FallbackColour([b]) == Some(Orange)
  {
    assert [b][0] == b;
  }

  /** The classes of a day cell, before `join(' ')`: the base classes, then
      at most one more. */
  function DayClasses(day: CalendarDay, verdict: Option<DayStatus>): (classes: seq<string>)
    ensures 1 <= |classes| <= 2 && classes[0] == BaseClasses
  {
    if !day.isCurrentMonth then [BaseClasses, OtherMonthClasses]
    else if day.isToday then [BaseClasses, TodayClasses]
    else if |day.bookings| > 0 then
      var colour := match StatusColour(verdict)
        case Some(c) => Some(c)
        case None => FallbackColour(day.bookings);
      match colour
      case Some(c) => [BaseClasses, ColourClasses(c)]
      case None => [BaseClasses]
    else [BaseClasses, FreeDayClasses]
  }

  /** `getDayClassName`. */
  function DayClassName(day: CalendarDay, verdict: Option<DayStatus>): (r: string)
    ensures |DayClasses(day, verdict)| == 1 ==> r == BaseClasses
    ensures |DayClasses(day, verdict)| == 2 ==> r == BaseClasses + " " + DayClasses(day, verdict)[1]
  {
    var classes := DayClasses(day, verdict);
    assert |classes| == 2 ==> Join(classes[1..], " ") == classes[1];
    Join(classes, " ")
  }

  /** The precedence of `getDayClassName`: a day outside the month is grey
      whatever else holds, then today is blue, then a booked day takes the
      callback's colour if it gives one and the fallback colour otherwise,
      and a free day is dark grey. */
  lemma DayClassPrecedence(day: CalendarDay, verdict: Option<DayStatus>)
    ensures !day.isCurrentMonth ==> DayClasses(day, verdict)[1..] == [OtherMonthClasses]
    ensures day.isCurrentMonth && day.isToday ==> DayClasses(day, verdict)[1..] == [TodayClasses]
    ensures day.isCurrentMonth && !day.isToday && |day.bookings| == 0 ==>
      DayClasses(day, verdict)[1..] == [FreeDayClasses]
    ensures day.isCurrentMonth && !day.isToday && |day.bookings| > 0 && StatusColour(verdict).Some? ==>
      DayClasses(day, verdict)[1..] == [ColourClasses(StatusColour(verdict).value)]
    ensures day.isCurrentMonth && !day.isToday && |day.bookings| > 0 && StatusColour(verdict).None? ==>
      DayClasses(day, verdict)[1..] == if FallbackColour(day.bookings).Some?
        then [ColourClasses(FallbackColour(day.bookings).value)] else []
  {
  }

  /** A cell shows a booking colour only on a booked day of the month that
      is not today, and then the colour is the callback's if it has one. */
  lemma ColouredDaysAreBooked(day: CalendarDay, verdict: Option<DayStatus>, c: Colour)
    requires ColourClasses(c) in DayClasses(day, verdict)
    ensures day.isCurrentMonth && !day.isToday && |day.bookings| > 0
    ensures StatusColour(verdict).Some? ==> StatusColour(verdict) == Some(c)
    ensures StatusColour(verdict).None? ==> FallbackColour(day.bookings) == Some(c)
  {
    ClassesDistinct();
  }

  /** With a callback colour, the bookings of a day no longer matter. */
  lemma StatusOverridesFallback(d1: CalendarDay, d2: CalendarDay, verdict: Option<DayStatus>)
    requires d1.isCurrentMonth == d2.isCurrentMonth && d1.isToday == d2.isToday
    requires |d1.bookings| > 0 && |d2.bookings| > 0
    requires StatusColour(verdict).Some?
    ensures DayClassName(d1, verdict) == DayClassName(d2, verdict)
  {
  }

  // ---------------------------------------------------------------------------
  // The Airbnb description scraper
  // ---------------------------------------------------------------------------

  datatype AirbnbData = AirbnbData(guest: string, status: string, reservationId: string, propertyId: string)

  const DefaultGuest: string := "Tidak diketahui"
  const DefaultStatus: string := "Unknown"
  const UnknownId: string := "Unknown ID"
  const Defaults: AirbnbData := AirbnbData(DefaultGuest, DefaultStatus, UnknownId, UnknownId)

  /** The lookaheads after each lazy group; the line feed and the end of the
      text are always stops. */
  const GuestStops: seq<string> := ["Reservation ID:", "Status:"]
  const ReservationStops: seq<string> := ["Guest:", "Status:"]
  const PropertyStops: seq<string> := ["Guest:", "Status:", "Reservation ID:"]

  /** A text field as `getAirbnbData` scrapes it: one line, trimmed, and
      never running into one of the labels its lookahead stops at. */
  predicate ScrapedField(v: string, stops: seq<string>) {
    && IsTrimmed(v) && NoLineTerminator(v)
    && forall k :: 0 <= k < |stops| ==> !Contains(ToLower(v), ToLower(stops[k]))
  }

  /** A line capture replaces the default only when it is non-empty, and is
      then trimmed. */
  function ScrapeLine(description: string, marker: string, stops: seq<string>, default: string): (r: string)
    requires forall k :: 0 <= k < |stops| ==> |stops[k]| > 0
    ensures r == default || ScrapedField(r, stops)
    ensures (forall i :: !LabelAt(description, i, marker)) ==> r == default
    ensures LineCapture(description, marker, stops).Some? && LineCapture(description, marker, stops).value != ""
      ==> r == Trim(LineCapture(description, marker, stops).value)
    ensures !(LineCapture(description, marker, stops).Some? && LineCapture(description, marker, stops).value != "")
      ==> r == default
  {
    match LineCapture(description, marker, stops)
    case Some(v) =>
      if v != "" then
        ScrapedFieldOfCapture(description, marker, stops, v);
        Trim(v)
      else default
    case None => default
  }

  lemma ScrapedFieldOfCapture(description: string, marker: string, stops: seq<string>, v: string)
    requires forall k :: 0 <= k < |stops| ==> |stops[k]| > 0
    requires LineCapture(description, marker, stops) == Some(v)
    ensures ScrapedField(Trim(v), stops)
  {
    var sp :| IsLineCapture(description, marker, stops, sp) && v == description[sp.start..sp.end];
    var a, b := LeadingWhitespace(v), TrimEnd(v);
    assert Trim(v) == v[a..b];
    forall k | 0 <= k < |stops|
      ensures !Contains(ToLower(Trim(v)), ToLower(stops[k]))
    {
      CaptureAvoidsStops(description, marker, stops, v, k);
      SliceKeepsAbsence(ToLower(v), a, b, ToLower(stops[k]));
      LowerSlice(v, a, b);
    }
    assert NoLineTerminator(v);
    SliceHasNoLineTerminator(v, a, b);
  }

  /** What a slice holds, the whole holds. */
  lemma SliceKeepsAbsence(s: string, a: nat, b: nat, t: string)
    requires a <= b <= |s| && !Contains(s, t)
    ensures !Contains(s[a..b], t)
  {
    forall i | 0 <= i && i + |t| <= b - a
      ensures !OccursAt(s[a..b], t, i)
    {
      var x, y := s[a..b][i..i + |t|], s[a + i..a + i + |t|];
      forall j | 0 <= j < |t|
        ensures x[j] == y[j]
      {
        assert x[j] == s[a + i + j];
      }
      assert x == y;
      assert !OccursAt(s, t, a + i);
    }
  }

  /** `getAirbnbData`.  Each field keeps its default unless its label
      matches with a non-empty capture; the status word is not trimmed, the
      other captures are. */
  function AirbnbDataOf(description: string): (d: AirbnbData)
    ensures description == "" ==> d == Defaults
    ensures d.guest == DefaultGuest || ScrapedField(d.guest, GuestStops)
    ensures d.status == DefaultStatus || (|d.status| > 0 && forall i :: 0 <= i < |d.status| ==> IsWordChar(d.status[i]))
    ensures d.reservationId == UnknownId || ScrapedField(d.reservationId, ReservationStops)
    ensures d.propertyId == UnknownId || ScrapedField(d.propertyId, PropertyStops)
    ensures (forall i :: !LabelAt(description, i, "Guest:")) ==> d.guest == DefaultGuest
    ensures (forall i :: !LabelAt(description, i, "Status:")) ==> d.status == DefaultStatus
    ensures (forall i :: !LabelAt(description, i, "Reservation ID:")) ==> d.reservationId == UnknownId
    ensures (forall i :: !LabelAt(description, i, "Property ID:")) ==> d.propertyId == UnknownId
  {
    if description == "" then Defaults
    else
      AirbnbData(
        guest := ScrapeLine(description, "Guest:", GuestStops, DefaultGuest),
        status := match WordCapture(description, "Status:")
          case Some(w) => w
          case None => DefaultStatus,
        reservationId := ScrapeLine(description, "Reservation ID:", ReservationStops, UnknownId),
        propertyId := ScrapeLine(description, "Property ID:", PropertyStops, UnknownId))
  }

  /** A `Guest:` line (the label in any case, and no earlier `Guest:`) that
      mentions neither other label gives its value, trimmed. */
  lemma GuestFromLabelledLine(description: string, prefix: string, marker': string, ws: string,
                              value: string, tail: string)
    requires description == prefix + marker' + ws + value + tail
    requires |marker'| == |"Guest:"| && EqualsIgnoringCase(marker', "Guest:")
    requires forall i :: 0 <= i < |prefix| ==> !LabelAt(description, i, "Guest:")
    requires AllWhitespace(ws)
    requires |value| > 0 && !IsWhitespace(value[0]) && NoLineTerminator(value)
    requires StopsClearOf(value, GuestStops)
    requires tail == "" || tail[0] == '\n'
    ensures AirbnbDataOf(description).guest == Trim(value)
  {
    LineCaptureOfLabelledLine(description, prefix, marker', ws, value, tail, "Guest:", GuestStops);
  }

  /** A `Status:` label followed by blanks and a word gives that word. */
  lemma StatusFromLabelledWord(description: string, prefix: string, marker': string, ws: string,
                               word: string, tail: string)
    requires description == prefix + marker' + ws + word + tail
    requires |marker'| == |"Status:"| && EqualsIgnoringCase(marker', "Status:")
    requires forall i :: 0 <= i < |prefix| ==> !LabelAt(description, i, "Status:")
    requires AllWhitespace(ws)
    requires |word| > 0 && forall i :: 0 <= i < |word| ==> IsWordChar(word[i])
    requires tail == "" || !IsWordChar(tail[0])
    ensures AirbnbDataOf(description).status == word
  {
    WordCaptureOfLabelledWord(description, prefix, marker', ws, word, tail, "Status:");
  }

  // ---------------------------------------------------------------------------
  // The booking detail
  // ---------------------------------------------------------------------------

  /** `booking.platform === 'airbnb' && booking.description`. */
  predicate HasAirbnbDescription(b: Booking) {
    b.platform == Airbnb && b.description.Some? && b.description.value != ""
  }

  /** `getGuestDisplayName`. */
  function GuestDisplayName(b: Booking): (r: string)
    ensures HasAirbnbDescription(b) ==> r == AirbnbDataOf(b.description.value).guest
    ensures b.platform == BookingCom && b.description.Some? && b.description.value != "" ==>
      '\n' !in r && IsTrimmed(r)
    ensures (b.platform != Airbnb && b.platform != BookingCom) || b.description.None? || b.description.value == "" ==>
      r == b.guestName.GetOr("Unknown Guest")
  {
    if HasAirbnbDescription(b) then AirbnbDataOf(b.description.value).guest
    else if b.platform == BookingCom && b.description.Some? && b.description.value != "" then
      TrimOfLineHasNoLineFeed(FirstLine(b.description.value));
      Trim(FirstLine(b.description.value))
    else b.guestName.GetOr("Unknown Guest")
  }

  /** For a Booking.com booking the parser made from a summary without a
      block word, the detail view shows the guest name the parser stored. */
  lemma BookingComGuestAsParsed(event: RawEvent, now: int)
    requires IsComplete(event) && !HasBlockWord(FieldOr(event, "SUMMARY"))
    ensures var b := ToBooking(event, BookingCom, now); GuestDisplayName(b) == b.guestName.value
  {
  }

  /** For an Airbnb booking whose description holds a plain `Guest:` line,
      the detail view and the parser agree on the guest. */
  lemma AirbnbGuestAsParsed(event: RawEvent, now: int, prefix: string, marker': string, ws: string,
                            value: string, tail: string)
    requires IsComplete(event) && "DESCRIPTION" in event
    requires event["DESCRIPTION"] == prefix + marker' + ws + value + tail
    requires |marker'| == |"Guest:"| && EqualsIgnoringCase(marker', "Guest:")
    requires forall i :: 0 <= i < |prefix| ==> !LabelAt(event["DESCRIPTION"], i, "Guest:")
    requires AllWhitespace(ws)
    requires |value| > 0 && !IsWhitespace(value[0]) && NoLineTerminator(value)
    requires StopsClearOf(value, GuestStops)
    requires tail == "" || tail[0] == '\n'
    ensures var b := ToBooking(event, Airbnb, now); GuestDisplayName(b) == b.guestName.value
  {
    AirbnbGuestFromLabelledLine(event, prefix, marker', ws, value, tail);
    GuestFromLabelledLine(event["DESCRIPTION"], prefix, marker', ws, value, tail);
  }

  /** `getReservationStatus`.  The status of a booking is never empty, so
      `originalStatus` and `'Unknown'` are never reached. */
  function ReservationStatus(b: Booking): (r: string)
    ensures r != ""
    ensures HasAirbnbDescription(b) ==> r == AirbnbDataOf(b.description.value).status
    ensures !HasAirbnbDescription(b) ==> r == StatusName(b.status)
  {
    if HasAirbnbDescription(b) then AirbnbDataOf(b.description.value).status
    else if StatusName(b.status) != "" then StatusName(b.status)
    else
      match b.originalStatus
      case Some(s) => if s != "" then s else "Unknown"
      case None => "Unknown"
  }

  /** The scraped status lowercases to `blocked`. */
  predicate ShowsPropertyId(b: Booking) {
    HasAirbnbDescription(b) && ToLower(AirbnbDataOf(b.description.value).status) == "blocked"
  }

  /** `getReservationId`. */
  function ReservationId(b: Booking): (r: string)
    ensures ShowsPropertyId(b) ==> r == AirbnbDataOf(b.description.value).propertyId
    ensures HasAirbnbDescription(b) && !ShowsPropertyId(b) ==> r == AirbnbDataOf(b.description.value).reservationId
    ensures !HasAirbnbDescription(b) ==> r != "" && (b.id != "" ==> r == b.id)
  {
    if HasAirbnbDescription(b) then
      var data := AirbnbDataOf(b.description.value);
      if ToLower(data.status) == "blocked" then data.propertyId else data.reservationId
    else if b.id != "" then b.id
    else UnknownId
  }

  /** `getIdLabel`. */
  function IdLabel(b: Booking): (r: string)
    ensures r == "Property ID" <==> ShowsPropertyId(b)
    ensures r == "Reservation ID" <==> HasAirbnbDescription(b) && !ShowsPropertyId(b)
    ensures r == "Booking ID" <==> !HasAirbnbDescription(b)
  {
    if HasAirbnbDescription(b) then
      if ToLower(AirbnbDataOf(b.description.value).status) == "blocked" then "Property ID" else "Reservation ID"
    else "Booking ID"
  }

  /** The label and the identifier shown under it always agree. */
  lemma IdMatchesLabel(b: Booking)
    ensures IdLabel(b) == "Property ID" ==> ReservationId(b) == AirbnbDataOf(b.description.value).propertyId
    ensures IdLabel(b) == "Reservation ID" ==> ReservationId(b) == AirbnbDataOf(b.description.value).reservationId
    ensures IdLabel(b) == "Booking ID" ==> ReservationId(b) == (if b.id != "" then b.id else UnknownId)
  {
  }

  /** An Airbnb description whose first `Status:` reads `blocked` in any case
      shows the Property ID. */
  lemma BlockedStatusShowsPropertyId(b: Booking, prefix: string, marker': string, ws: string,
                                     word: string, tail: string)
    requires b.platform == Airbnb && b.description == Some(prefix + marker' + ws + word + tail)
    requires |marker'| == |"Status:"| && EqualsIgnoringCase(marker', "Status:")
    requires forall i :: 0 <= i < |prefix| ==> !LabelAt(b.description.value, i, "Status:")
    requires AllWhitespace(ws)
    requires ToLower(word) == "blocked" && (tail == "" || !IsWordChar(tail[0]))
    ensures IdLabel(b) == "Property ID"
    ensures ReservationId(b) == AirbnbDataOf(b.description.value).propertyId
  {
    assert |word| == 7;
    forall i | 0 <= i < |word|
      ensures IsWordChar(word[i])
    {
      assert LowerChar(word[i]) == "blocked"[i];
    }
    StatusFromLabelledWord(b.description.value, prefix, marker', ws, word, tail);
  }

  // ---------------------------------------------------------------------------
  // Parsed bookings on the calendar
  // ---------------------------------------------------------------------------

  /** A Booking.com booking whose summary mentions a block word without
      being exactly `blocked` or `cancelled` is stored as confirmed with the
      guest name `Blocked`: on its own it colours its day orange. */
  lemma BookingComBlockWordIsMixed(event: RawEvent, now: int)
    requires IsComplete(event)
    requires HasBlockWord(FieldOr(event, "SUMMARY")) && !IsBlockedSummary(FieldOr(event, "SUMMARY"))
    ensures FallbackColour([ToBooking(event, BookingCom, now)]) == Some(Orange)
  {
    var b := ToBooking(event, BookingCom, now);
    assert b.status == Confirmed && b.guestName == Some("Blocked");
    BlockedGuestIsMixed(b);
  }

  lemma BlockedGuestIsMixed(b: Booking)
    requires b.status == Confirmed && b.guestName == Some("Blocked")
    ensures FallbackColour([b]) == Some(Orange)
  {
    BlockedNamesBlock();
    ConfirmedBlockGuestIsMixed(b);
  }

  lemma BlockedNamesBlock()
    ensures Contains(ToLower("Blocked"), "block")
  {
    assert ToLower("Blocked") == "blocked";
    assert OccursAt("blocked", "block", 0);
  }

  /** Every booking the parser marks cancelled is blocked on the calendar. */
  lemma CancelledIsBlocked(event: RawEvent, platform: Platform, now: int)
    requires IsComplete(event) && IsBlockedSummary(FieldOr(event, "SUMMARY"))
    ensures IsBookingBlocked(ToBooking(event, platform, now))
  {
  }
}
