/** `fetchAirbnbCalendar` after the network: which response body is used,
    how it is cleaned, and which error reaches the caller.  What a request
    returns is a parameter: `None` for a failed request or a response that
    is not OK, `Some(body)` otherwise. */
module Fetch {
  import opened Wrappers
  import opened Text
  import opened Tokenizer
  import opened Bookings
  import opened Parser

  const UrlRequired: string := "URL is required"

  /** The message for an empty response, split around the word `CORS` that
      the `catch` looks for. */
  const Unreachable: string :=
    "Unable to fetch calendar data from the provided URL. This may be due to:\n1. "
    + "CORS"
    + " restrictions from the calendar provider\n2. Network connectivity issues\n3. Invalid or expired calendar URL\n4. Server-side restrictions\n\nPlease verify that:\n- The URL is correct and accessible\n- The calendar is set to public/shareable\n- Your internet connection is stable\n\nIf the problem persists, you may need to download the .ics file manually and upload it using the file upload option."

  const NoCalendar: string :=
    "Invalid iCal format: missing VCALENDAR. The URL might not be returning iCal data or might be blocked by CORS."

  const BrowserSecurity: string :=
    "Unable to fetch calendar due to browser security restrictions. Please try downloading the .ics file and uploading it instead."

  /** One fetch strategy: the body of its response, kept only when it holds
      a calendar. */
  function Accept(response: Option<string>): (r: Option<string>)
    ensures r.Some? <==> response.Some? && Contains(response.value, CalendarBegin)
    ensures r.Some? ==> r == response
  {
    match response
    case Some(body) => if Contains(body, CalendarBegin) then response else None
    case None => None
  }

  /** `tryServerProxy`: not implemented, it always gives up. */
  const ServerProxy: Option<string> := None

  /** The strategies in order, the first calendar winning; the empty string
      when none of them has one. */
  function FirstCalendar(direct: Option<string>, proxy: Option<string>): (content: string)
    ensures content == "" || Contains(content, CalendarBegin)
    ensures Accept(direct).Some? ==> content == direct.value
    ensures Accept(direct).None? && Accept(proxy).Some? ==> content == proxy.value
    ensures content == "" <==> Accept(direct).None? && Accept(proxy).None?
  {
    match Accept(direct)
    case Some(body) => body
    case None =>
      match Accept(proxy)
      case Some(body) => body
      case None => ServerProxy.GetOr("")
  }

  /** The `catch`: an error that mentions CORS is replaced by the browser
      security message; any other error passes through. */
  function Rethrow(message: string): (m: string)
    ensures Contains(message, "CORS") ==> m == BrowserSecurity
    ensures !Contains(message, "CORS") ==> m == message
  {
    if Contains(message, "CORS") then BrowserSecurity else message
  }

  /** The byte order mark is dropped and the text trimmed. */
  function Clean(content: string): (r: string)
    ensures IsTrimmed(r)
    ensures r == Trim(content)
  {
    TrimIgnoresByteOrderMark(content);
    Trim(StripByteOrderMark(content))
  }

  /** The part inside the `try`.  When the cleaned text lacks the calendar
      marker, the source looks for a `BEGIN:VCALENDAR ... END:VCALENDAR`
      match, which cannot exist without the marker, so it always throws. */
  function TryFetch(url: string, content: string, now: int): (r: Result<seq<Booking>, string>)
    ensures content == "" ==> r == Failure(Unreachable)
    ensures content != "" && !Contains(Clean(content), CalendarBegin) ==> r == Failure(NoCalendar)
    ensures content != "" && Contains(Clean(content), CalendarBegin) ==> r == ParseICalContent(Clean(content), url, now)
  {
    if content == "" then Failure(Unreachable)
    else
      var clean := Clean(content);
      if !Contains(clean, CalendarBegin) then Failure(NoCalendar)
      else ParseICalContent(clean, url, now)
  }

  /** `fetchAirbnbCalendar`, with the responses of the direct request and of
      the proxy as parameters.  With a URL and a calendar from either
      strategy, the result is the bookings of that calendar read for the
      URL's platform; with a URL and no calendar, the browser security
      message, because the unreachable error mentions CORS; with no URL,
      `URL is required`, thrown before the `try`. */
  function FetchCalendar(url: string, direct: Option<string>, proxy: Option<string>, now: int)
    : (r: Result<seq<Booking>, string>)
    ensures url == "" ==> r == Failure(UrlRequired)
    ensures url != "" && FirstCalendar(direct, proxy) == "" ==> r == Failure(BrowserSecurity)
    ensures url != "" && FirstCalendar(direct, proxy) != "" ==>
      r.Success? && r == ParseICal(Clean(FirstCalendar(direct, proxy)), PlatformOf(url), now)
  {
    if url == "" then Failure(UrlRequired)
    else
      var content := FirstCalendar(direct, proxy);
      UnreachableMentionsCors();
      CleaningKeepsCalendar(content);
      match TryFetch(url, content, now)
      case Failure(m) => Failure(Rethrow(m))
      case Success(bookings) => Success(bookings)
  }

  lemma UnreachableMentionsCors()
    ensures Contains(Unreachable, "CORS")
  {
    assert Unreachable[76..80] == "CORS";
    assert OccursAt(Unreachable, "CORS", 76);
  }

  // ---------------------------------------------------------------------------
  // What the caller sees
  // ---------------------------------------------------------------------------

  /** Cleaning never loses the calendar marker, which neither starts with a
      byte order mark nor starts or ends with whitespace. */
  lemma CleaningKeepsCalendar(content: string)
    ensures Contains(content, CalendarBegin) ==> Contains(Clean(content), CalendarBegin)
  {
    if Contains(content, CalendarBegin) {
      StripKeepsOccurrence(content, CalendarBegin);
      TrimKeepsOccurrence(StripByteOrderMark(content), CalendarBegin);
    }
  }

  lemma StripKeepsOccurrence(s: string, t: string)
    requires |t| > 0 && t[0] != '\U{FEFF}' && Contains(s, t)
    ensures Contains(StripByteOrderMark(s), t)
  {
    var j :| OccursAt(s, t, j);
    if |s| > 0 && s[0] == '\U{FEFF}' {
      assert s[j] == t[0];
      assert j >= 1;
      assert StripByteOrderMark(s)[j - 1..j - 1 + |t|] == s[j..j + |t|];
      assert OccursAt(StripByteOrderMark(s), t, j - 1);
    }
  }

  lemma TrimKeepsOccurrence(s: string, t: string)
    requires |t| > 0 && !IsWhitespace(t[0]) && !IsWhitespace(t[|t| - 1]) && Contains(s, t)
    ensures Contains(Trim(s), t)
  {
    var j :| OccursAt(s, t, j);
    var a, b := LeadingWhitespace(s), TrimEnd(s);
    OccurrenceInsideTrim(s, t, j);
    OccursInSlice(s, t, a, b, j);
    assert Trim(s) == s[a..b];
  }

  /** An occurrence with non-whitespace ends lies inside the trimmed slice. */
  lemma OccurrenceInsideTrim(s: string, t: string, j: int)
    requires |t| > 0 && !IsWhitespace(t[0]) && !IsWhitespace(t[|t| - 1]) && OccursAt(s, t, j)
    ensures LeadingWhitespace(s) <= j && j + |t| <= TrimEnd(s)
  {
    var a, b := LeadingWhitespace(s), TrimEnd(s);
    forall i | 0 <= i < a
      ensures IsWhitespace(s[i])
    {
      assert s[..a][i] == s[i];
    }
    forall i | b <= i < |s|
      ensures IsWhitespace(s[i])
    {
      assert s[b..][i - b] == s[i];
    }
    assert s[j..j + |t|][0] == s[j];
    var last := j + |t| - 1;
    assert s[j..j + |t|][|t| - 1] == s[last];
  }

  /** The cleaning branch that looks for an embedded calendar never runs,
      and parsing never reports a missing calendar: every failure is one of
      two messages. */
  lemma FetchFailures(url: string, direct: Option<string>, proxy: Option<string>, now: int)
    ensures var r := FetchCalendar(url, direct, proxy, now);
      r.Failure? ==> r.error == UrlRequired || r.error == BrowserSecurity
    ensures var r := FetchCalendar(url, direct, proxy, now);
      r.Failure? <==> url == "" || (Accept(direct).None? && Accept(proxy).None?)
  {
  }
}
