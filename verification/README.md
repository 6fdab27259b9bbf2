# iCal booking calendar — a Dafny model

This project models the core of a small web application for holiday-rental
hosts. The application reads the iCalendar (`.ics`) feeds that Airbnb and
Booking.com publish. It turns each `VEVENT` into a booking and lays the
bookings out on a month calendar whose day cells are coloured by booking
state.

The model covers three source files:

- `src/utils/icalParser.ts`. It covers line unfolding, property-line
  tokenising, `VEVENT` framing, date decoding, the status and guest-name
  heuristics, booking assembly, the platform rule and the fetch pipeline's
  decision logic.
- `src/utils/calendar.ts`. It covers the month grid, the day filter, month
  navigation and the name tables.
- The pure display helpers of `src/components/Calendar.tsx`. These are the
  blocked-booking test, the day-cell classes, the description scraper and
  the guest, status and ID accessors.

Modules follow the program's structure:

| module | file | what it holds |
|---|---|---|
| `Wrappers` | `wrappers.dfy` | `Option` and `Result` |
| `Text` | `text.dfy` | the JavaScript string operations the source uses: `includes`, `indexOf`, `replace`, `split`, `trim`, `toLowerCase`, line-ending normalisation |
| `Patterns` | `patterns.dfy` | the case-insensitive `Label:\s*(.*?)(?=stop…)` and `Label:\s*(\w+)` regular expressions, written as scanning functions |
| `Bookings` | `bookings.dfy` | `Booking`, `CalendarDay`, `CalendarMonth` (`src/types/booking.ts`) |
| `Tokenizer` | `tokenizer.dfy` | `processEventLine` and `parseICalData` |
| `Stamps` | `stamps.dfy` | `parseDate`: `YYYYMMDD[THHMMSS]` tokens to instants |
| `Dates` | `dates.dfy` | the proleptic Gregorian calendar behind `Date.UTC`, `new Date(y, m, d)`, `getDay`, `getMonth` |
| `Heuristics` | `heuristics.dfy` | `determineBookingStatus` and `extractGuestName` |
| `Parser` | `parser.dfy` | `parseICal`, `parseICalContent` and the all-day-stay round trips |
| `Fetch` | `fetch.dfy` | `fetchAirbnbCalendar` with the network answers as parameters |
| `CalendarGrid` | `calendar_grid.dfy` | `generateCalendarMonth`, `getBookingsForDate`, `isDateInRange`, `navigateMonth`, `getMonthName`, `getWeekdayNames` |
| `Display` | `display.dfy` | the `Calendar.tsx` helpers |

**Time.** An instant is a whole number of seconds since 1970-01-01T00:00Z.
A day is a whole number of days since that date. A stamp is either
`At(seconds)` or `Undecoded(token)`. `Undecoded` keeps every token that
is not digits of the iCalendar `DATE` / `DATE-TIME` shape. For many such
tokens `parseDate` builds an `Invalid Date`. It reads fixed substrings with
`parseInt`, though, so some off-shape tokens still give a date in
JavaScript: `2024011` reads as 2024-01-01, and `20240115T12000` as a time
on 2024-01-15. The model does not say which date those give. The current time (`new Date()`)
and the calendar's "today" are parameters.

**Events.** A raw event is a `map<string, string>` from property name to
value. The `getBookingStatus` callback that `Calendar.tsx` receives is a
parameter as well: the verdict it returned for the day, or `None` when
there is none.

## Model

| member | source | states |
|---|---|---|
| `Text.ToLower` | src/utils/icalParser.ts:90 | lower-casing keeps the length and maps every character on its own (ASCII letters only) |
| `Text.IndexOf` | src/utils/icalParser.ts:133 | the result is an occurrence with no earlier occurrence, and `None` means there is no occurrence at all |
| `Text.Contains` | src/utils/icalParser.ts:146 | `includes` holds exactly when the pattern occurs at some position |
| `Text.IndexOfChar` | src/utils/icalParser.ts:131 | the first position of a character, or `None` when the character is absent |
| `Text.ReplaceFirst` | src/utils/icalParser.ts:133 | `replace` with a string pattern leaves a string without the pattern unchanged and otherwise cuts only the first occurrence |
| `Text.ReplaceFirstAt` | src/utils/icalParser.ts:133 | when the pattern first occurs after `head`, replacing it with "" gives `head + rest` |
| `Text.FirstOccurrence` | src/utils/icalParser.ts:131 | the first position of a character is the one before which the character does not appear |
| `Text.LeadingWhitespace` | src/utils/icalParser.ts:120 | the whitespace run at the start is maximal |
| `Text.TrailingWhitespace` | src/utils/icalParser.ts:120 | the whitespace run at the end is maximal |
| `Text.Trim` | src/utils/icalParser.ts:120 | the result of `trim` starts and ends with non-whitespace, or is empty |
| `Text.TrimUnique` | src/utils/icalParser.ts:120 | any slice with only whitespace outside it and non-whitespace at both ends is the trim |
| `Text.TrimIdempotent` | src/utils/icalParser.ts:120 | trimming twice is trimming once |
| `Text.TrimIgnoresTrailingWhitespace` | src/utils/icalParser.ts:131 | a trailing whitespace character (the `\r` of a CRLF line) does not change the trim |
| `Text.Split` | src/utils/icalParser.ts:42 | `split` yields at least one part, no part contains the separator, and joining the parts gives back the input |
| `Text.SplitJoin` | src/utils/icalParser.ts:42 | splitting a join of separator-free parts gives back the parts |
| `Text.FirstLine` | src/utils/icalParser.ts:131 | `split(/\r?\n/)[0]` is the whole string when there is no line feed; otherwise it is the text before the first line feed, without a `\r` just before that line feed |
| `Heuristics.FirstLineEndsAt` | src/utils/icalParser.ts:131 | for `line + "\n" + rest` with no line feed in `line`, the first line is `line` without a trailing `\r` |
| `Text.NormalizeCrlfJoin` | src/utils/icalParser.ts:42 | replacing every CRLF by LF turns CRLF-joined lines into LF-joined lines |
| `Text.NormalizeWithoutCarriageReturn` | src/utils/icalParser.ts:42 | text without a carriage return is left alone by the CRLF replacement |
| `Text.NormalizeNewlines` | src/utils/icalParser.ts:42 | replacing every CRLF by LF never lengthens the text and introduces no character the text did not hold |
| `Text.StripByteOrderMark` | src/utils/icalParser.ts:209 | only a byte-order mark at position 0 is removed |
| `Text.TrimIgnoresByteOrderMark` | src/utils/icalParser.ts:209 | stripping the byte-order mark before trimming gives the same result as trimming alone |
| `Patterns.BlankEnd` | src/components/Calendar.tsx:292 | `\s*` consumes the maximal whitespace run |
| `Patterns.LazyEnd` | src/components/Calendar.tsx:292 | the lazy `(.*?)` ends at the first position where a stop matches, and the capture crosses no line terminator |
| `Patterns.LineAt` | src/components/Calendar.tsx:292 | an attempt at a position succeeds only where the label starts there, case-insensitively; it succeeds whenever some line capture starts there, and then with the longest blank run (greedy `\s*`) |
| `Patterns.CaptureFrom` | src/components/Calendar.tsx:292 | backtracking over the blank run finds a capture whenever the lazy group can end from some start in the run, and takes the latest such start |
| `Patterns.CapturesStartInBlankRun` | src/components/Calendar.tsx:292 | every line capture at a label starts inside the greedy blank run, where the lazy group can end |
| `Patterns.LazyEndOfCapture` | src/components/Calendar.tsx:292 | the lazy group of a line capture ends exactly where the capture ends |
| `Patterns.FindLineCapture` | src/components/Calendar.tsx:292 | the search fails exactly when no line capture starts at or after the start position; otherwise it returns the leftmost one, with the longest blank run at that position |
| `Patterns.LineCapture` | src/components/Calendar.tsx:292 | the match is the text of the first line capture (leftmost label, longest blank run), and fails exactly when the text holds no line capture |
| `Patterns.LineCaptureOfLabelledLine` | src/components/Calendar.tsx:292 | for `prefix + Label + blanks + value + ("" or "\n"…)` with no earlier label and no stop inside `value`, the capture is exactly `value` |
| `Patterns.LineCaptureAt` | src/components/Calendar.tsx:292 | a first label followed by blanks and a clean value up to a line end captures that value |
| `Patterns.CaptureAvoidsStops` | src/components/Calendar.tsx:298 | a capture never contains any of its stop labels, ignoring case |
| `Patterns.SkipToMarker` | src/components/Calendar.tsx:292 | positions without a label do not change the leftmost match |
| `Patterns.LazyEndReaches` | src/components/Calendar.tsx:292 | the lazy group reaches the first stop when nothing before it stops or ends the line |
| `Patterns.WordRun` | src/components/Calendar.tsx:286 | `\w+` consumes the maximal run of word characters |
| `Patterns.FindWordCapture` | src/components/Calendar.tsx:286 | the search fails exactly when no word capture starts at or after the start position; otherwise it returns the leftmost one |
| `Patterns.WordAt` | src/components/Calendar.tsx:286 | an attempt at a position gives the one word capture that starts there, if any |
| `Patterns.WordCaptureIsGreedy` | src/components/Calendar.tsx:286 | a word capture starts where the greedy blank run ends and spans the whole word run |
| `Patterns.WordCapture` | src/components/Calendar.tsx:286 | the word is a non-empty run of word characters taken from the leftmost word capture, and the match fails exactly when there is none |
| `Patterns.WordCaptureOfLabelledWord` | src/components/Calendar.tsx:286 | for `prefix + Label + blanks + word + tail`, with no earlier label and a tail that does not start with a word character, the capture is exactly `word` |
| `Patterns.WordCaptureAt` | src/components/Calendar.tsx:286 | a first label followed by blanks and a maximal word captures that word |
| `Bookings.StatusName` | src/types/booking.ts:10 | every status has a non-empty name |
| `Tokenizer.KeyEnd` | src/utils/icalParser.ts:25 | `[^;:]+` stops at the first `;` or `:` |
| `Tokenizer.ParsePropertyLine` | src/utils/icalParser.ts:25-28 | a recognised line is `key + params + ":" + value` with a valid key and parameter part, and the value has no line terminator |
| `Tokenizer.ParsePropertyComplete` | src/utils/icalParser.ts:25-28 | every line of the shape `key[;params]:value` is recognised, with that key and value |
| `Tokenizer.PropertyRoundTrip` | src/utils/icalParser.ts:25-28 | writing `key + params + ":" + value` and reading it back gives `key` and `value` |
| `Tokenizer.ProcessEventLine` | src/utils/icalParser.ts:11-35 | no property is ever removed; a fold line changes at most the last key's value; a property line changes at most its own key |
| `Tokenizer.PropertyLineSets` | src/utils/icalParser.ts:24-31 | a property line sets its key to its value and makes that key the last key |
| `Tokenizer.MalformedLineIgnored` | src/utils/icalParser.ts:25-31 | a line of no property shape changes neither the event nor the last key |
| `Tokenizer.FoldLineAppends` | src/utils/icalParser.ts:18-22 | a line starting with a space appends its remainder to the last key's non-empty value |
| `Tokenizer.FoldLineDropped` | src/utils/icalParser.ts:20 | a fold line is dropped when the last key is absent or its value is empty |
| `Tokenizer.TabIsNotFold` | src/utils/icalParser.ts:18 | a tab-led line is not a continuation: it can only set a key that starts with a tab |
| `Tokenizer.PropertyLinesRead` | src/utils/icalParser.ts:48-60 | an event body of property lines reads as their assignments applied in order, whatever the last key was |
| `Tokenizer.StaleKeyIrrelevant` | src/utils/icalParser.ts:46 | the last key carried over from the previous event does not affect the next event's fields |
| `Tokenizer.LastWriteWins` | src/utils/icalParser.ts:29 | the last line that sets a key decides that key's value |
| `Tokenizer.SplitLines` | src/utils/icalParser.ts:42 | the input splits into at least one line, none containing a line feed |
| `Tokenizer.FieldsOf` | src/utils/icalParser.ts:57-59 | each event's fields are those of its own body lines |
| `Tokenizer.Step` | src/utils/icalParser.ts:48-60 | `BEGIN:VEVENT` opens an empty event, keeping the finished ones; `END:VEVENT` of an open event appends it and closes it; a step appends at most the open event; outside an event other lines change nothing |
| `Tokenizer.ScanOnlyAppends` | src/utils/icalParser.ts:48-61 | the loop only appends events, at most one per line |
| `Tokenizer.ScanOutside` | src/utils/icalParser.ts:48-61 | the line-by-line loop outside an event emits the fields of the framed blocks |
| `Tokenizer.ScanInside` | src/utils/icalParser.ts:48-61 | the loop inside an event agrees with the block grouping |
| `Tokenizer.ParseICalData` | src/utils/icalParser.ts:40-64 | the events are the fields of the `BEGIN:VEVENT` … `END:VEVENT` blocks of the CRLF-normalised lines |
| `Tokenizer.EventsAtMostEndLines` | src/utils/icalParser.ts:51-55 | there are never more events than `END:VEVENT` lines |
| `Tokenizer.BlocksArePlain` | src/utils/icalParser.ts:49-56 | no event body contains a `BEGIN:VEVENT` or `END:VEVENT` line |
| `Tokenizer.NoBeginNoBlocks` | src/utils/icalParser.ts:49-50 | without a `BEGIN:VEVENT` line there are no events |
| `Tokenizer.StrayLinesIgnored` | src/utils/icalParser.ts:48-56 | lines outside an event, a stray `END:VEVENT` among them, contribute nothing to the events that follow |
| `Tokenizer.FrameBlocks` | src/utils/icalParser.ts:48-61 | framing bodies with `BEGIN:VEVENT`/`END:VEVENT` and grouping them back gives the bodies |
| `Tokenizer.InsideCollects` | src/utils/icalParser.ts:56-59 | plain lines inside an event join its body |
| `Tokenizer.OpenEventDiscarded` | src/utils/icalParser.ts:49-50 | a second `BEGIN:VEVENT` discards the unfinished event |
| `Tokenizer.FrameRestartsEvent` | src/utils/icalParser.ts:49-50 | an unfinished event does not affect the framed events that follow |
| `Tokenizer.UnclosedEventDropped` | src/utils/icalParser.ts:51-55 | an event without an `END:VEVENT` line is never emitted |
| `Tokenizer.WrittenCalendarReadsBack` | src/utils/icalParser.ts:40-64 | CRLF-joined framed bodies read back as the bodies' fields |
| `Tokenizer.CalendarReadsBack` | src/utils/icalParser.ts:40-64 | the same inside `BEGIN:VCALENDAR` … `END:VCALENDAR` |
| `Tokenizer.CalendarGrouping` | src/utils/icalParser.ts:49-56 | the calendar envelope lines are not part of any event |
| `Stamps.DigitsValue` | src/utils/icalParser.ts:70-72 | `parseInt` of n decimal digits is below 10^n |
| `Stamps.PadDigitsRoundTrip` | src/utils/icalParser.ts:70-77 | a number written with zero padding reads back as itself |
| `Stamps.DateDigitsRoundTrip` | src/utils/icalParser.ts:70-72 | a written `YYYYMMDD` reads back as that calendar date's day number |
| `Stamps.DateTokenRoundTrip` | src/utils/icalParser.ts:81 | a written `DATE` token for years 100–9999 decodes to midnight UTC of that date |
| `Stamps.DateTimeTokenRoundTrip` | src/utils/icalParser.ts:74-78 | a written `DATE-TIME` token decodes to that date at that hour, minute and second, UTC |
| `Stamps.ShortYearsMeanNineteenHundreds` | src/utils/icalParser.ts:81 | years 0–99 decode into 1900–1999, as `Date.UTC` does |
| `Stamps.DecodeStamp` | src/utils/icalParser.ts:69-82 | a token decodes exactly when it has the digit shape, and otherwise is kept as `Undecoded` |
| `Stamps.ParseDate` | src/utils/icalParser.ts:69-82 | a `DATE` token is midnight UTC of its day; a `DATE-TIME` token lies at or after that midnight and, since two-digit hours, minutes and seconds may run over, less than five days later |
| `Stamps.DayOf` | src/utils/icalParser.ts:164 | the day of an instant is the day whose midnight is at or before it and within 86400 seconds |
| `Stamps.DayEarlier` | src/utils/icalParser.ts:163-165 | `setUTCDate(getUTCDate() - 1)` moves a valid date one day back at the same time of day and leaves an invalid date invalid |
| `Dates.DaysInMonth` | src/utils/calendar.ts:5 | months have 28–31 days, and 29 exactly for February of a leap year |
| `Dates.DaysBeforeMonth` | src/utils/calendar.ts:5 | the months before a month fit in the year, and December ends the year |
| `Dates.YearLength` | src/utils/calendar.ts:30 | consecutive years are one year length apart |
| `Dates.DaysBeforeYearFormula` | src/utils/icalParser.ts:81 | the recursive year count equals the closed leap-year formula |
| `Dates.YearOf` | src/utils/calendar.ts:25 | every day lies in exactly the year found for it |
| `Dates.MonthFrom` | src/utils/calendar.ts:25 | every day of a year lies in exactly the month found for it |
| `Dates.CivilFromDays` | src/utils/calendar.ts:25 | a day number converts to a valid calendar date that converts back to the same day number |
| `Dates.CivilRoundTrip` | src/utils/calendar.ts:25 | a valid calendar date converts to a day number and back to itself |
| `Dates.DaysFromCivilInjective` | src/utils/calendar.ts:25 | distinct valid dates have distinct day numbers |
| `Dates.MonthAfter` | src/utils/calendar.ts:30 | the day after a month's last day is the first of the next month |
| `Dates.Weekday` | src/utils/calendar.ts:10 | `getDay` is in 0–6 |
| `Dates.WeekdayNext` | src/utils/calendar.ts:30 | the weekday advances by one each day and repeats every seven days |
| `Dates.KnownWeek` | src/utils/calendar.ts:10 | `getDay` numbers Sunday 0 through Saturday 6: 7 to 13 January 2024 have weekdays 0 to 6 |
| `Dates.FullYear` | src/utils/icalParser.ts:81 | years 0–99 mean 1900–1999 and other years are kept |
| `Dates.MakeDayOfDate` | src/utils/calendar.ts:4 | `new Date(y, m, d)` with an in-range month and day is that calendar date |
| `Dates.MakeDayInYear` | src/utils/calendar.ts:4 | `new Date(y, m, d)` with the month in range is the day number of `y-(m+1)-d`, even when the day runs past the month |
| `Dates.MakeDayCarries` | src/utils/calendar.ts:5 | month arguments carry into years twelve at a time, and day arguments one day at a time |
| `Dates.DayZeroIsLastOfPreviousMonth` | src/utils/calendar.ts:5 | day 0 of the next month is the last day of this month |
| `Dates.DayZeroOfJanuary` | src/utils/calendar.ts:5 | day 0 of month 12 is 31 December, the day before 1 January of the next year |
| `Heuristics.FieldOr` | src/utils/icalParser.ts:88-89 | `event.KEY ?? ''` is the value when present and "" otherwise |
| `Heuristics.LabelledLine` | src/utils/icalParser.ts:118 | a match of `Label\s*(.*?)(?:\r?\n\|$)` is the text of the first line capture (leftmost label, longest blank run, ending at the first CRLF, LF or end), and the match fails exactly when no line capture exists |
| `Heuristics.DetermineStatus` | src/utils/icalParser.ts:87-108 | the status is cancelled exactly when the lower-cased summary is `blocked` or `cancelled`, and never pending |
| `Heuristics.StatusDependsOnSummaryOnly` | src/utils/icalParser.ts:96-107 | two events with the same summary get the same status, whatever their descriptions or platforms |
| `Heuristics.PaddedSummaryIsConfirmed` | src/utils/icalParser.ts:90-92 | the summary is compared untrimmed: a space before `Blocked` makes the event confirmed |
| `Heuristics.ExtractGuestName` | src/utils/icalParser.ts:113-137 | the name is trimmed; Airbnb and Booking.com names are those of their platform rules; the other platform's name is the trimmed summary, or `Unknown Guest` when that is empty |
| `Heuristics.AirbnbGuestName` | src/utils/icalParser.ts:117-125 | the `Guest:` capture when there is one; otherwise `Blocked` for a blocked or cancelled summary and the trimmed summary for any other |
| `Heuristics.StatusSaysConfirmed` | src/utils/icalParser.ts:97-98 | the Airbnb `Status:` test holds exactly when the `Status:` line capture exists and reads `confirmed` in any case, and fails without the label |
| `Heuristics.BookingComGuestName` | src/utils/icalParser.ts:126-134 | block words give `Blocked`; otherwise a description gives its first line trimmed (a single line), and an empty description the summary trimmed after removing the first ` - Closed` |
| `Heuristics.AirbnbGuest` | src/utils/icalParser.ts:118-120 | a guest exists exactly when the `Guest:` line capture exists and is non-empty, and is then that capture trimmed, with no line feed |
| `Heuristics.AirbnbGuestFromLabelledLine` | src/utils/icalParser.ts:118-120 | a description line `Guest: value` ending at LF, CRLF or the end gives `trim(value)` |
| `Heuristics.AirbnbGuestFromSummary` | src/utils/icalParser.ts:122-125 | without a `Guest:` label the name is `Blocked` for a blocked or cancelled summary, and the trimmed summary otherwise |
| `Heuristics.LabelledLineAtCrLf` | src/utils/icalParser.ts:118 | a `Guest:` line that ends in CRLF captures the value without the `\r` |
| `Heuristics.BookingComGuestFromFirstLine` | src/utils/icalParser.ts:130-132 | a Booking.com description's first line, without its `\r`, gives the trimmed name |
| `Heuristics.BookingComGuestFromSummary` | src/utils/icalParser.ts:133 | with no description, the first ` - Closed` is cut from the summary and the rest trimmed |
| `Parser.StampOr` | src/utils/icalParser.ts:182-183 | `CREATED` and `LAST-MODIFIED` are decoded when present and non-empty, and are the current time otherwise |
| `Parser.CheckOut` | src/utils/icalParser.ts:159-165 | the check-out decodes exactly when `DTEND` does, is `DTEND` unchanged unless `DTSTART` is 8 characters long, and is then one day earlier |
| `Parser.CheckOutOfDate` | src/utils/icalParser.ts:163-165 | for an 8-character `DTSTART` the check-out is `DTEND` minus 86400 seconds |
| `Parser.ToBooking` | src/utils/icalParser.ts:158-186 | every booking field is tied to its event property: `UID`, dates, `LOCATION` or `Unknown Property`, the platform's guest name (trimmed), status, raw summary, description, and stamps |
| `Parser.IsComplete` | src/utils/icalParser.ts:153 | an event is complete exactly when `DTSTART`, `DTEND` and `UID` are present and non-empty |
| `Parser.Survivors` | src/utils/icalParser.ts:152-156 | the kept indices are increasing and are exactly the events with non-empty `DTSTART`, `DTEND` and `UID` |
| `Parser.AssembleAll` | src/utils/icalParser.ts:152-187 | one booking per complete event, in order, each built from its event |
| `Parser.BookingsAreTheCompleteEvents` | src/utils/icalParser.ts:152-187 | every complete event yields a booking, and every booking comes from a complete event |
| `Parser.OneCompleteEvent` | src/utils/icalParser.ts:152-187 | a lone complete event gives exactly its booking |
| `Parser.ParseICal` | src/utils/icalParser.ts:145-188 | fails with the missing-`BEGIN:VCALENDAR` message exactly when that text is absent; otherwise gives the assembled bookings, at most one per `END:VEVENT`, each with a non-empty id and the given platform |
| `Parser.PlatformOf` | src/utils/icalParser.ts:294 | the platform is Airbnb exactly when the URL contains `airbnb`, and Booking.com otherwise |
| `Parser.ParseICalContent` | src/utils/icalParser.ts:293-296 | fails exactly when `BEGIN:VCALENDAR` is absent; every booking is Airbnb exactly when the URL contains `airbnb` |
| `Parser.LineReadsAs` | src/utils/icalParser.ts:25-31 | a written property line reads as its property |
| `Parser.StayLinesReadAs` | src/utils/icalParser.ts:25-31 | the four lines of an all-day stay read as `UID`, `DTSTART`, `DTEND`, `SUMMARY` |
| `Parser.StayFields` | src/utils/icalParser.ts:48-60 | an all-day stay's body reads as its four fields |
| `Parser.StayCalendarEvents` | src/utils/icalParser.ts:40-64 | a written one-stay calendar contains `BEGIN:VCALENDAR` and reads back as that one event |
| `Parser.StayBookingDates` | src/utils/icalParser.ts:158-165 | an all-day stay's booking runs from midnight of check-in to midnight of the day before check-out |
| `Parser.StayBookingFields` | src/utils/icalParser.ts:167-183 | an all-day stay's booking has the UID, `Unknown Property`, the current time as stamps, and the status its summary decides |
| `Parser.AllDayStayReadsBack` | src/utils/icalParser.ts:145-188 | a written one-stay calendar parses to exactly one booking with the stay's UID, dates, property and status |
| `Parser.ReversedStayIsKept` | src/utils/icalParser.ts:152-165 | a stay whose check-out is not after its check-in is still kept, with the check-out before the check-in |
| `Fetch.Accept` | src/utils/icalParser.ts:245-250 | a response is accepted exactly when there is one and it contains `BEGIN:VCALENDAR` |
| `Fetch.FirstCalendar` | src/utils/icalParser.ts:201-204 | the direct answer wins, then the proxy answer, and "" only when neither is acceptable |
| `Fetch.Rethrow` | src/utils/icalParser.ts:223-227 | a message mentioning `CORS` becomes the browser-security message; other messages pass through |
| `Fetch.Clean` | src/utils/icalParser.ts:209 | dropping a leading byte-order mark before trimming gives the same text as trimming alone, which is trimmed |
| `Fetch.CleaningKeepsCalendar` | src/utils/icalParser.ts:209-210 | stripping the byte-order mark and trimming never removes `BEGIN:VCALENDAR` |
| `Fetch.TrimKeepsOccurrence` | src/utils/icalParser.ts:209 | trimming keeps any occurrence of text that starts and ends with non-whitespace |
| `Fetch.TryFetch` | src/utils/icalParser.ts:205-221 | no content is the unreachable error; cleaned content without the calendar marker is the missing-`VCALENDAR` error; otherwise the content is parsed |
| `Fetch.UnreachableMentionsCors` | src/utils/icalParser.ts:206 | the unreachable message mentions `CORS`, so the catch block replaces it |
| `Fetch.FetchCalendar` | src/utils/icalParser.ts:193-231 | an empty URL fails with `URL is required`; no acceptable answer fails with the browser-security message; otherwise the cleaned content is parsed for the URL's platform, successfully |
| `Fetch.FetchFailures` | src/utils/icalParser.ts:193-231 | the only errors are the URL and browser-security messages, and failure happens exactly when the URL is empty or neither answer is acceptable |
| `CalendarGrid.NavigateMonth` | src/utils/calendar.ts:71-83 | a step moves the month count by exactly one, keeps months in 0–11, and changes the year only at January going back or December going forward |
| `CalendarGrid.NavigateInverse` | src/utils/calendar.ts:71-83 | `prev` then `next`, or `next` then `prev`, returns to the start |
| `CalendarGrid.Midnight` | src/utils/calendar.ts:42 | midnight of a day is a whole multiple of 86400 seconds and lies in that day |
| `CalendarGrid.StartOfDay` | src/utils/calendar.ts:47-48 | `setHours(0, 0, 0, 0)` keeps validity and moves a valid instant back to the first second of its own day |
| `CalendarGrid.IsDateInRange` | src/utils/calendar.ts:85-95 | true exactly when all three dates are valid and the date's day lies between the start's day and the end's day, inclusive |
| `CalendarGrid.MidnightOrder` | src/utils/calendar.ts:90-94 | comparing midnights compares days |
| `CalendarGrid.CoversIsDateInRange` | src/utils/calendar.ts:51 | the filter's test is `isDateInRange` with the booking's check-in and check-out |
| `CalendarGrid.Covering` | src/utils/calendar.ts:44-54 | the kept indices are increasing and are exactly the bookings covering the date |
| `CalendarGrid.BookingsForDate` | src/utils/calendar.ts:40-57 | the result is the covering bookings, in their original order |
| `CalendarGrid.BookingsForDateMembers` | src/utils/calendar.ts:40-57 | a booking is in the result exactly when it is in the input and covers the date |
| `CalendarGrid.DayBookings` | src/utils/calendar.ts:21 | a grid day's bookings are `getBookingsForDate` at that day's midnight: the input bookings whose range holds that instant |
| `CalendarGrid.GenerateCalendarMonth` | src/utils/calendar.ts:3-38 | the grid consists of whole weeks from the Sunday on or before the 1st to the Saturday on or after the last day; each cell has its date, its month flag, its today flag and its bookings |
| `CalendarGrid.CollectDays` | src/utils/calendar.ts:20-31 | the loop emits one cell per day from start to end, in order |
| `CalendarGrid.GridWeeks` | src/utils/calendar.ts:9-13 | consecutive cells are consecutive days, the first is a Sunday at most six days before the 1st, and the last a Saturday at most six days after the last day |
| `CalendarGrid.GridContents` | src/utils/calendar.ts:23-28 | each cell's fields are those of its day |
| `CalendarGrid.CellContents` | src/utils/calendar.ts:24-27 | a cell is today exactly when its date is today, in the month exactly when its date lies between the month's first and last day, and holds that day's bookings |
| `CalendarGrid.GridCell` | src/utils/calendar.ts:25 | the k-th cell falls on weekday k mod 7, and `getMonth() === month` exactly for the month's own days |
| `CalendarGrid.GridShape` | src/utils/calendar.ts:4-13 | the grid starts on a Sunday within a week before the 1st, ends on a Saturday within a week after the last day, and spans whole weeks |
| `CalendarGrid.MonthSpan` | src/utils/calendar.ts:4-5 | the first and last day of a month given with any month number are those of the normalised month, which has `DaysInMonth` days |
| `CalendarGrid.CurrentMonthExactly` | src/utils/calendar.ts:25 | within the grid, a day's month equals the requested month exactly when the day lies in that month |
| `CalendarGrid.WholeWeeks` | src/utils/calendar.ts:10-13 | Sunday to Saturday spans a whole number of weeks |
| `CalendarGrid.SundayOnOrBefore` | src/utils/calendar.ts:10 | stepping back by `getDay()` lands on a Sunday |
| `CalendarGrid.SaturdayOnOrAfter` | src/utils/calendar.ts:13 | stepping forward by `6 - getDay()` lands on a Saturday |
| `CalendarGrid.MonthName` | src/utils/calendar.ts:59-65 | a name exists exactly for months 0–11, from `January` to `December` |
| `CalendarGrid.MonthNamesDistinct` | src/utils/calendar.ts:60-63 | different month numbers give different results |
| `CalendarGrid.WeekdayNames` | src/utils/calendar.ts:67-69 | seven names from `Sun` to `Sat` |
| `CalendarGrid.NamesOfKnownDays` | src/utils/calendar.ts:67-69 | the column names match `getDay`: 1 January 2024 is named `Mon`, 6 January `Sat` and 7 January `Sun` |
| `Display.IsBookingBlocked` | src/components/Calendar.tsx:10-18 | blocked exactly when cancelled or when the lower-cased guest name contains `block` (which covers `blocked`) or `maintenance` |
| `Display.ContainsPrefixOf` | src/components/Calendar.tsx:13-15 | containing `blocked` implies containing `block` |
| `Display.CancelledIsBlocked` | src/components/Calendar.tsx:11 | a parsed event with a blocked or cancelled summary gives a blocked booking |
| `Display.ClassesDistinct` | src/components/Calendar.tsx:97-138 | the three colour class strings differ from each other and from the other day classes |
| `Display.StatusColour` | src/components/Calendar.tsx:93-108 | mixed days are orange, confirmed days green, cancelled days red, and pending days or no callback give no colour |
| `Display.HasConfirmed` | src/components/Calendar.tsx:111 | true exactly when some booking is confirmed |
| `Display.HasBlocked` | src/components/Calendar.tsx:112 | true exactly when some booking is blocked |
| `Display.FallbackColour` | src/components/Calendar.tsx:110-122 | orange for confirmed-and-blocked, green for confirmed-only, red for blocked-only, nothing otherwise |
| `Display.FallbackIgnoresOrder` | src/components/Calendar.tsx:110-122 | the fallback depends only on which bookings are present |
| `Display.ConfirmedBlockGuestIsMixed` | src/components/Calendar.tsx:114-115 | a confirmed booking whose guest name contains `block` is confirmed and blocked at once, so the day is orange |
| `Display.BookingComBlockWordIsMixed` | src/components/Calendar.tsx:110-122 | a Booking.com event whose summary contains a block word without being exactly `blocked`/`cancelled` colours its day orange |
| `Display.BlockedGuestIsMixed` | src/components/Calendar.tsx:114-115 | a confirmed booking with guest `Blocked` colours its day orange |
| `Display.DayClasses` | src/components/Calendar.tsx:124-139 | the class list starts with the base classes and adds at most one more |
| `Display.DayClassName` | src/components/Calendar.tsx:141 | the class name is the base classes, joined with the extra class when there is one |
| `Display.DayClassPrecedence` | src/components/Calendar.tsx:128-139 | other month, then today, then free day, then the status colour, then the fallback colour |
| `Display.ColouredDaysAreBooked` | src/components/Calendar.tsx:132-136 | a coloured cell is a booked, current-month day that is not today, and its colour comes from the status when there is one and from the fallback otherwise |
| `Display.StatusOverridesFallback` | src/components/Calendar.tsx:133 | when the status gives a colour, the bookings themselves do not change the class name |
| `Display.ScrapeLine` | src/components/Calendar.tsx:292-301 | a non-empty line capture gives that capture trimmed, a single line free of its stop labels; an empty or missing capture gives the default |
| `Display.ScrapedFieldOfCapture` | src/components/Calendar.tsx:294 | a trimmed capture is a valid scraped field |
| `Display.AirbnbDataOf` | src/components/Calendar.tsx:275-310 | an empty description gives the defaults; each field is its default or a scraped value of its shape, and is its default when its label is absent |
| `Display.GuestFromLabelledLine` | src/components/Calendar.tsx:292-295 | a `Guest: value` line ending at LF or the end gives `trim(value)` |
| `Display.StatusFromLabelledWord` | src/components/Calendar.tsx:286-289 | a `Status: word` gives that word |
| `Display.GuestDisplayName` | src/components/Calendar.tsx:312-322 | the scraped guest for Airbnb descriptions, a trimmed name without a line feed for Booking.com descriptions, and the stored guest name or `Unknown Guest` otherwise |
| `Display.BookingComGuestAsParsed` | src/components/Calendar.tsx:317-320 | for a Booking.com event without block words, the calendar shows the guest name the parser stored |
| `Display.AirbnbGuestAsParsed` | src/components/Calendar.tsx:313-316 | for an Airbnb event with a clean `Guest:` line, the calendar shows the guest name the parser stored |
| `Display.ReservationStatus` | src/components/Calendar.tsx:324-331 | the scraped status for Airbnb descriptions and the booking's status name otherwise, never empty |
| `Display.ReservationId` | src/components/Calendar.tsx:333-345 | the property ID for blocked Airbnb statuses, the reservation ID for other Airbnb descriptions, and the booking id or `Unknown ID` otherwise |
| `Display.IdLabel` | src/components/Calendar.tsx:347-353 | `Property ID`, `Reservation ID` or `Booking ID`, under exactly the conditions that pick the ID |
| `Display.IdMatchesLabel` | src/components/Calendar.tsx:333-353 | the label always names the ID shown beside it |
| `Display.BlockedStatusShowsPropertyId` | src/components/Calendar.tsx:337-338 | an Airbnb description with `Status: blocked`, in any case, shows the property ID |

## Left out

- Network I/O: the two fetch attempts (`tryDirectFetch`, `tryProxyServices`) become parameters holding the response body, or `None` for a failed request or non-OK response. The User-Agent header and the proxy URL are not modelled, and `tryServerProxy` is the constant `None`.
- The embedded-calendar regex at `src/utils/icalParser.ts:211-215` is not modelled: it can only match text containing `BEGIN:VCALENDAR`, and that branch runs only when the text lacks it. `Fetch.TryFetch` therefore fails straight to the missing-`VCALENDAR` error.
- The non-`Error` catch branch (`src/utils/icalParser.ts:229`): every failure in the model is an `Error` with a message.
- Console logging and warnings.
- Local storage, file upload, the proxy API route, the page components and the sample data are not part of this model.
- `formatCalendarDate`: `toISOString` formatting is not modelled.
- `getStatusColor` and the rest of `Calendar.tsx`'s rendering (state hooks, modal, JSX).
- Time zones: local time is taken to be UTC. `setHours(0, 0, 0, 0)` and `getMonth()` therefore act on UTC days.
- Milliseconds and the ±8.64e15 ms range limit of `Date` values. Instants are unbounded whole seconds.
- The current time (`new Date()`) and the calendar's today are parameters.
- The `getBookingStatus` callback is a parameter: its verdict for the day.
- Characters are Unicode code points, not UTF-16 code units. `toLowerCase` is modelled for ASCII letters only, so a non-ASCII capital that JavaScript would lower-case is left as it is.
- JavaScript object prototype keys (`constructor`, `__proto__`) are not modelled: raw events are plain maps.
- Stamps.DecodeStamp: tokens that are not the iCalendar digit shape become `Undecoded` rather than modelling `parseInt`'s prefix parsing. For example, a malformed token can still yield a date in JavaScript, and the model does not say which one.
- Stamps.DateTokenRoundTrip: proved for years 100–9999, the range a `YYYYMMDD` token can write without the 1900 shift for years 0–99. That shift is stated separately by `Stamps.ShortYearsMeanNineteenHundreds`.
- Heuristics.DetermineStatus: the Airbnb `Status:` branch (`src/utils/icalParser.ts:96-101`) is modelled but cannot change the result. Every path except the cancelled one returns confirmed.
- Display.GuestDisplayName: for Booking.com descriptions the contract states the shape of the name; that it is the parser's name is `Display.BookingComGuestAsParsed`.
- Display.AirbnbDataOf: exact values are stated for the guest and status fields. The reservation and property IDs are stated by shape and default only, through the same capture lemmas.

## Behaviour worth knowing

The model follows the code in these places, where its behaviour may surprise a reader:

- **Status test.** The summary is lower-cased but not trimmed before it is compared with `blocked` / `cancelled` (`src/utils/icalParser.ts:90-92`).
- **Folded lines.** Only a leading space marks a folded continuation line, not a tab (`src/utils/icalParser.ts:18`).
- **Check-out shift.** The one-day check-out shift is keyed on `DTSTART` being 8 characters long, not on the form of `DTEND` (`src/utils/icalParser.ts:163`).
- **Malformed dates.** A date JavaScript cannot read (an `Invalid Date`) does not drop the event. The model keeps every off-shape token as `Undecoded`, including those JavaScript still reads as a date (see `Stamps.DecodeStamp` under Left out).
- **Guest-name fallback.** The `Unknown Guest` fallback exists only for a platform other than Airbnb and Booking.com (`src/utils/icalParser.ts:136`). An Airbnb summary of spaces gives an empty guest name.
- **Status field.** A description's `Status:` field never decides the status.
- **Line endings.** Only CRLF pairs are normalised (`src/utils/icalParser.ts:42`). A lone carriage return stays in the line.
- **`Guest:` line endings.**
  - `extractGuestName` stops a `Guest:` capture at LF, CRLF or the end (`src/utils/icalParser.ts:118`).
  - `getAirbnbData` stops only before LF, a stop label or the end (`src/components/Calendar.tsx:292`), and `.` cannot cross a carriage return. A `Guest:` line ending in CRLF therefore gives the parser a name, while the calendar shows `Tidak diketahui` when no later label matches.
  - `Display.AirbnbGuestAsParsed` states the agreement for LF-terminated lines only.
