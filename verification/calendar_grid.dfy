/** The calendar helpers: month navigation, the inclusive day-range test,
    the bookings of a day, and the Sunday-to-Saturday grid of a month.
    Days are day numbers (`Dates`); local time is taken to be UTC. */
module CalendarGrid {
  import opened Wrappers
  import opened Dates
  import opened Stamps
  import opened Bookings

  // ---------------------------------------------------------------------------
  // navigateMonth
  // ---------------------------------------------------------------------------

  datatype Direction = Prev | Next

  datatype YearMonth = YearMonth(year: int, month: int)

  /** The months since year 0, the order navigation walks. */
  function MonthCount(ym: YearMonth): int {
    12 * ym.year + ym.month
  }

  /** `navigateMonth`: one month back or forward, wrapping the year only
      between December (11) and January (0).  A month outside 0..11 is moved
      by one without wrapping, as in the source. */
  function NavigateMonth(ym: YearMonth, direction: Direction): (r: YearMonth)
    ensures 0 <= ym.month <= 11 ==> 0 <= r.month <= 11
    ensures MonthCount(r) == MonthCount(ym) + (if direction == Prev then -1 else 1)
    ensures direction == Prev && ym.month == 0 ==> r == YearMonth(ym.year - 1, 11)
    ensures direction == Next && ym.month == 11 ==> r == YearMonth(ym.year + 1, 0)
    ensures r.year != ym.year ==> (direction == Prev && ym.month == 0) || (direction == Next && ym.month == 11)
  {
    match direction
    case Prev => if ym.month == 0 then YearMonth(ym.year - 1, 11) else YearMonth(ym.year, ym.month - 1)
    case Next => if ym.month == 11 then YearMonth(ym.year + 1, 0) else YearMonth(ym.year, ym.month + 1)
  }

  /** Back then forward, or forward then back, returns to the start. */
  lemma NavigateInverse(ym: YearMonth)
    requires 0 <= ym.month <= 11
    ensures NavigateMonth(NavigateMonth(ym, Prev), Next) == ym
    ensures NavigateMonth(NavigateMonth(ym, Next), Prev) == ym
  {
    var p, n := NavigateMonth(ym, Prev), NavigateMonth(ym, Next);
    SameCountSameMonth(NavigateMonth(p, Next), ym);
    SameCountSameMonth(NavigateMonth(n, Prev), ym);
  }

  /** Within 0..11, the month count determines year and month. */
  lemma SameCountSameMonth(a: YearMonth, b: YearMonth)
    requires 0 <= a.month <= 11 && 0 <= b.month <= 11 && MonthCount(a) == MonthCount(b)
    ensures a == b
  {
    DivUnique(MonthCount(a), 12, a.year, a.month);
    DivUnique(MonthCount(b), 12, b.year, b.month);
  }

  // ---------------------------------------------------------------------------
  // Day ranges
  // ---------------------------------------------------------------------------

  /** Midnight at the start of day `d`. */
  function Midnight(d: int): (t: int)
    ensures DayOf(t) == d
    ensures t % SecondsPerDay == 0
  {
    DivUnique(d * SecondsPerDay, SecondsPerDay, d, 0);
    d * SecondsPerDay
  }

  /** `setHours(0, 0, 0, 0)`: the midnight of the instant's day; an invalid
      date stays invalid. */
  function StartOfDay(st: Stamp): (r: Stamp)
    ensures r.At? <==> st.At?
    ensures st.At? ==> r.seconds % SecondsPerDay == 0 && DayOf(r.seconds) == DayOf(st.seconds)
    ensures st.At? ==> r.seconds <= st.seconds < r.seconds + SecondsPerDay
  {
    match st
    case At(t) => At(Midnight(DayOf(t)))
    case Undecoded(_) => st
  }

  /** `a >= b` on dates: false when either is invalid. */
  predicate NotBefore(a: Stamp, b: Stamp) {
    a.At? && b.At? && a.seconds >= b.seconds
  }

  /** `isDateInRange`. */
  function IsDateInRange(date: Stamp, start: Stamp, end: Stamp): (r: bool)
    ensures r <==>
      (date.At? && start.At? && end.At? && DayOf(start.seconds) <= DayOf(date.seconds) <= DayOf(end.seconds))
  {
    var target, s, e := StartOfDay(date), StartOfDay(start), StartOfDay(end);
    MidnightOrder(date, start);
    MidnightOrder(end, date);
    NotBefore(target, s) && NotBefore(e, target)
  }

  /** Comparing midnights compares days. */
  lemma MidnightOrder(a: Stamp, b: Stamp)
    ensures a.At? && b.At? ==>
      (NotBefore(StartOfDay(a), StartOfDay(b)) <==> DayOf(a.seconds) >= DayOf(b.seconds))
  {
    if a.At? && b.At? {
      var x, y := DayOf(a.seconds), DayOf(b.seconds);
      if x >= y {
        assert x * SecondsPerDay >= y * SecondsPerDay;
      } else {
        assert x * SecondsPerDay < y * SecondsPerDay;
      }
    }
  }

  /** The filter of `getBookingsForDate`, as written there. */
  predicate Covers(b: Booking, date: Stamp) {
    var target := StartOfDay(date);
    NotBefore(target, StartOfDay(b.checkInDate)) && NotBefore(StartOfDay(b.checkOutDate), target)
  }

  /** The filter and `isDateInRange` are the same test: the stay covers the
      date when check-in day <= date <= check-out day, both ends included. */
  lemma CoversIsDateInRange(b: Booking, date: Stamp)
    ensures Covers(b, date) <==> IsDateInRange(date, b.checkInDate, b.checkOutDate)
  {
    MidnightOrder(date, b.checkInDate);
    MidnightOrder(b.checkOutDate, date);
  }

  /** The positions of the bookings that cover `date`, in increasing order. */
  function Covering(date: Stamp, bookings: seq<Booking>): (ix: seq<nat>)
    ensures forall k :: 0 <= k < |ix| ==> ix[k] < |bookings| && Covers(bookings[ix[k]], date)
    ensures forall k, l :: 0 <= k < l < |ix| ==> ix[k] < ix[l]
    ensures forall i :: 0 <= i < |bookings| && Covers(bookings[i], date) ==> i in ix
    decreases |bookings|
  {
    if |bookings| == 0 then []
    else
      var n := |bookings| - 1;
      var front := Covering(date, bookings[..n]);
      assert forall k :: 0 <= k < |front| ==> bookings[..n][front[k]] == bookings[front[k]];
      front + if Covers(bookings[n], date) then [n] else []
  }

  /** `getBookingsForDate`: the bookings covering the date, in input order. */
  function BookingsForDate(date: Stamp, bookings: seq<Booking>): (r: seq<Booking>)
    ensures |r| == |Covering(date, bookings)|
    ensures forall k :: 0 <= k < |r| ==> r[k] == bookings[Covering(date, bookings)[k]]
    decreases |bookings|
  {
    if |bookings| == 0 then []
    else
      var n := |bookings| - 1;
      var front := BookingsForDate(date, bookings[..n]);
      assert forall k :: 0 <= k < |Covering(date, bookings[..n])| ==>
        bookings[..n][Covering(date, bookings[..n])[k]] == bookings[Covering(date, bookings[..n])[k]];
      front + if Covers(bookings[n], date) then [bookings[n]] else []
  }

  /** A booking is listed for a date exactly when it covers the date. */
  lemma BookingsForDateMembers(date: Stamp, bookings: seq<Booking>)
    ensures forall b :: b in BookingsForDate(date, bookings) <==> b in bookings && Covers(b, date)
  {
    var r, ix := BookingsForDate(date, bookings), Covering(date, bookings);
    forall b | b in r
      ensures b in bookings && Covers(b, date)
    {
      var k :| 0 <= k < |r| && r[k] == b;
      assert b == bookings[ix[k]];
    }
    forall b | b in bookings && Covers(b, date)
      ensures b in r
    {
      var i :| 0 <= i < |bookings| && bookings[i] == b;
      var k :| 0 <= k < |ix| && ix[k] == i;
      assert r[k] == b;
    }
  }

  /** The bookings of a day of the grid, which the grid looks up at the
      day's midnight. */
  function DayBookings(d: int, bookings: seq<Booking>): (r: seq<Booking>)
    ensures forall b :: b in r <==> b in bookings && IsDateInRange(At(Midnight(d)), b.checkInDate, b.checkOutDate)
    ensures r == BookingsForDate(At(Midnight(d)), bookings)
  {
    BookingsForDateMembers(At(Midnight(d)), bookings);
    forall b | b in bookings
      ensures Covers(b, At(Midnight(d))) <==> IsDateInRange(At(Midnight(d)), b.checkInDate, b.checkOutDate)
    {
      CoversIsDateInRange(b, At(Midnight(d)));
    }
    BookingsForDate(At(Midnight(d)), bookings)
  }

  // ---------------------------------------------------------------------------
  // The month grid
  // ---------------------------------------------------------------------------

  /** `new Date(year, month, 1)`. */
  function MonthFirst(year: int, month: int): int {
    MakeDay(FullYear(year), month, 1)
  }

  /** `new Date(year, month + 1, 0)`. */
  function MonthLast(year: int, month: int): int {
    MakeDay(FullYear(year), month + 1, 0)
  }

  /** Back to the Sunday on or before the first. */
  function GridStart(year: int, month: int): int {
    MonthFirst(year, month) - Weekday(MonthFirst(year, month))
  }

  /** On to the Saturday on or after the last day. */
  function GridEnd(year: int, month: int): int {
    MonthLast(year, month) + (6 - Weekday(MonthLast(year, month)))
  }

  /** One cell: `getMonth() === month`, the day compared with today's
      midnight, and the bookings of the day. */
  function GridDay(d: int, month: int, bookings: seq<Booking>, today: int): CalendarDay {
    CalendarDay(d, CivilFromDays(d).month - 1 == month, d == today, DayBookings(d, bookings))
  }

  /** `generateCalendarMonth`: the days from the grid's Sunday to its
      Saturday, one after another.  `today` is the current day. */
  method GenerateCalendarMonth(year: int, month: int, bookings: seq<Booking>, today: int)
    returns (cm: CalendarMonth)
    ensures cm.year == year && cm.month == month
    ensures IsWeeks(year, month, cm.days)
    ensures IsMonthOfDays(year, month, bookings, today, cm.days)
  {
    GridShape(year, month);
    var days := CollectDays(GridStart(year, month), GridEnd(year, month), month, bookings, today);
    GridWeeks(year, month, bookings, today, days);
    GridContents(year, month, bookings, today, days);
    cm := CalendarMonth(year, month, days);
  }

  /** The loop of `generateCalendarMonth`: one cell per day from `start`
      to `end`. */
  method CollectDays(start: int, end: int, month: int, bookings: seq<Booking>, today: int)
    returns (days: seq<CalendarDay>)
    requires start <= end + 1
    ensures |days| == end - start + 1
    ensures forall k :: 0 <= k < |days| ==> days[k] == GridDay(start + k, month, bookings, today)
  {
    days := [];
    var d := start;
    while d <= end
      invariant d <= end + 1
      invariant |days| == d - start
      invariant forall k :: 0 <= k < |days| ==> days[k] == GridDay(start + k, month, bookings, today)
      decreases end - d
    {
      days := days + [GridDay(d, month, bookings, today)];
      d := d + 1;
    }
  }

  /** The shape of the grid: whole weeks of consecutive days, from the
      Sunday on or before the first to the Saturday on or after the last
      day of the month. */
  predicate IsWeeks(year: int, month: int, days: seq<CalendarDay>) {
    && |days| > 0 && |days| % 7 == 0
    && (forall k :: 0 <= k < |days| ==> days[k].date == days[0].date + k)
    && (forall k :: 0 <= k < |days| ==> Weekday(days[k].date) == k % 7)
    && MonthFirst(year, month) - 7 < days[0].date <= MonthFirst(year, month)
    && MonthLast(year, month) <= days[|days| - 1].date < MonthLast(year, month) + 7
  }

  /** What each cell knows: whether it is today, whether it lies in the
      month, and the bookings of its day. */
  predicate IsMonthOfDays(year: int, month: int, bookings: seq<Booking>, today: int, days: seq<CalendarDay>) {
    && (forall k :: 0 <= k < |days| ==> (days[k].isToday <==> days[k].date == today))
    && (forall k :: 0 <= k < |days| ==>
         (days[k].isCurrentMonth <==> 0 <= month <= 11 && MonthFirst(year, month) <= days[k].date <= MonthLast(year, month)))
    && (forall k :: 0 <= k < |days| ==> days[k].bookings == DayBookings(days[k].date, bookings))
  }

  lemma GridWeeks(year: int, month: int, bookings: seq<Booking>, today: int, days: seq<CalendarDay>)
    requires |days| == GridEnd(year, month) - GridStart(year, month) + 1
    requires forall k :: 0 <= k < |days| ==> days[k] == GridDay(GridStart(year, month) + k, month, bookings, today)
    ensures IsWeeks(year, month, days)
  {
    GridShape(year, month);
    var start := GridStart(year, month);
    forall k | 0 <= k < |days|
      ensures days[k].date == start + k
    {
    }
    WeeksFrom(start, MonthFirst(year, month), MonthLast(year, month), days);
  }

  /** Consecutive days from a Sunday, a whole number of weeks long. */
  lemma WeeksFrom(start: int, first: int, last: int, days: seq<CalendarDay>)
    requires Weekday(start) == 0 && first - 7 < start <= first
    requires |days| > 0 && |days| % 7 == 0 && last <= start + |days| - 1 < last + 7
    requires forall k :: 0 <= k < |days| ==> days[k].date == start + k
    ensures forall k :: 0 <= k < |days| ==> days[k].date == days[0].date + k
    ensures forall k :: 0 <= k < |days| ==> Weekday(days[k].date) == k % 7
    ensures first - 7 < days[0].date <= first
    ensures last <= days[|days| - 1].date < last + 7
  {
    forall k | 0 <= k < |days|
      ensures Weekday(days[k].date) == k % 7
    {
      WeekdayFromSunday(start, k);
    }
  }

  lemma GridContents(year: int, month: int, bookings: seq<Booking>, today: int, days: seq<CalendarDay>)
    requires |days| == GridEnd(year, month) - GridStart(year, month) + 1
    requires forall k :: 0 <= k < |days| ==> days[k] == GridDay(GridStart(year, month) + k, month, bookings, today)
    ensures IsMonthOfDays(year, month, bookings, today, days)
  {
    forall k | 0 <= k < |days|
      ensures days[k].isToday <==> days[k].date == today
      ensures days[k].isCurrentMonth <==> 0 <= month <= 11 && MonthFirst(year, month) <= days[k].date <= MonthLast(year, month)
      ensures days[k].bookings == DayBookings(days[k].date, bookings)
    {
      CellContents(year, month, bookings, today, k, days[k]);
    }
  }

  lemma CellContents(year: int, month: int, bookings: seq<Booking>, today: int, k: nat, cell: CalendarDay)
    requires k <= GridEnd(year, month) - GridStart(year, month)
    requires cell == GridDay(GridStart(year, month) + k, month, bookings, today)
    ensures cell.isToday <==> cell.date == today
    ensures cell.isCurrentMonth <==> 0 <= month <= 11 && MonthFirst(year, month) <= cell.date <= MonthLast(year, month)
    ensures cell.bookings == DayBookings(cell.date, bookings)
  {
    GridCell(year, month, k);
  }

  /** The k-th cell of the grid: its weekday, and whether it is in the month. */
  lemma GridCell(year: int, month: int, k: nat)
    requires k <= GridEnd(year, month) - GridStart(year, month)
    ensures Weekday(GridStart(year, month) + k) == k % 7
    ensures CivilFromDays(GridStart(year, month) + k).month - 1 == month <==>
      0 <= month <= 11 && MonthFirst(year, month) <= GridStart(year, month) + k <= MonthLast(year, month)
  {
    GridShape(year, month);
    WeekdayFromSunday(GridStart(year, month), k);
    CurrentMonthExactly(year, month, GridStart(year, month) + k);
  }

  /** The grid starts on a Sunday at most six days before the first, ends on
      a Saturday at most six days after the last day, and so spans whole
      weeks. */
  lemma GridShape(year: int, month: int)
    ensures var first, last := MonthFirst(year, month), MonthLast(year, month);
      && first <= last
      && Weekday(GridStart(year, month)) == 0 && first - 7 < GridStart(year, month) <= first
      && Weekday(GridEnd(year, month)) == 6 && last <= GridEnd(year, month) < last + 7
      && (GridEnd(year, month) - GridStart(year, month) + 1) % 7 == 0
  {
    MonthNonEmpty(year, month);
    var first, last := MonthFirst(year, month), MonthLast(year, month);
    WeekFrame(first, last);
    assert GridStart(year, month) == first - Weekday(first);
    assert GridEnd(year, month) == last + (6 - Weekday(last));
  }

  lemma MonthNonEmpty(year: int, month: int)
    ensures MonthFirst(year, month) <= MonthLast(year, month)
  {
    MonthSpan(year, month);
  }

  /** From the Sunday on or before `first` to the Saturday on or after
      `last` is a whole number of weeks. */
  lemma WeekFrame(first: int, last: int)
    requires first <= last
    ensures var start, end := first - Weekday(first), last + (6 - Weekday(last));
      && Weekday(start) == 0 && first - 7 < start <= first
      && Weekday(end) == 6 && last <= end < last + 7
      && (end - start + 1) % 7 == 0
  {
    SundayOnOrBefore(first);
    SaturdayOnOrAfter(last);
    WholeWeeks(first - Weekday(first), last + (6 - Weekday(last)));
  }

  lemma SundayOnOrBefore(n: int)
    ensures Weekday(n - Weekday(n)) == 0
  {
    DivUnique(n - Weekday(n) + 4, 7, (n + 4) / 7, 0);
  }

  lemma SaturdayOnOrAfter(n: int)
    ensures Weekday(n + (6 - Weekday(n))) == 6
  {
    DivUnique(n + (6 - Weekday(n)) + 4, 7, (n + 4) / 7, 6);
  }

  /** From a Sunday to a Saturday is a whole number of weeks. */
  lemma WholeWeeks(start: int, end: int)
    requires Weekday(start) == 0 && Weekday(end) == 6
    ensures (end - start + 1) % 7 == 0
  {
    var p, q := (end + 4) / 7, (start + 4) / 7;
    DivUnique(end - start + 1, 7, p - q + 1, 0);
  }

  /** Counting from a Sunday, the k-th day is weekday k mod 7. */
  lemma WeekdayFromSunday(start: int, k: nat)
    requires Weekday(start) == 0
    ensures Weekday(start + k) == k % 7
  {
    var q := (start + 4) / 7;
    DivUnique(start + 4 + k, 7, q + k / 7, k % 7);
  }

  /** The year of the month after overflow into the year. */
  function NormalYear(year: int, month: int): int {
    FullYear(year) + month / 12
  }

  /** The first and last day of the month are those of the normalised month,
      and the month has its calendar length. */
  lemma MonthSpan(year: int, month: int)
    ensures var y, m := NormalYear(year, month), month % 12;
      && MonthFirst(year, month) == MakeDay(y, m, 1)
      && MonthLast(year, month) == MakeDay(y, m, DaysInMonth(y, m + 1))
      && MonthLast(year, month) - MonthFirst(year, month) + 1 == DaysInMonth(y, m + 1)
  {
    var y0 := FullYear(year);
    var y, m := y0 + month / 12, month % 12;
    var n := DaysInMonth(y, m + 1);
    FirstNormal(y0, month);
    LastNormal(y0, month);
    DayZeroIsLastOfPreviousMonth(y, m);
    assert MonthLast(year, month) == MakeDay(y, m, n);
    DayShift(y, m, 1, n);
  }

  lemma FirstNormal(y0: int, month: int)
    ensures MakeDay(y0, month, 1) == MakeDay(y0 + month / 12, month % 12, 1)
  {
    DivUnique(month % 12, 12, 0, month % 12);
  }

  lemma LastNormal(y0: int, month: int)
    ensures MakeDay(y0, month + 1, 0) == MakeDay(y0 + month / 12, month % 12 + 1, 0)
  {
    var q, m := month / 12, month % 12;
    if m < 11 {
      DivUnique(month + 1, 12, q, m + 1);
      DivUnique(m + 1, 12, 0, m + 1);
    } else {
      DivUnique(month + 1, 12, q + 1, 0);
      DivUnique(m + 1, 12, 1, 0);
    }
  }

  /** `getMonth() === month` holds on a grid day exactly when the month is in
      range and the day lies between its first and last day: the grid reaches
      at most six days into the months around it. */
  lemma CurrentMonthExactly(year: int, month: int, d: int)
    requires GridStart(year, month) <= d <= GridEnd(year, month)
    ensures CivilFromDays(d).month - 1 == month <==>
      0 <= month <= 11 && MonthFirst(year, month) <= d <= MonthLast(year, month)
  {
    GridShape(year, month);
    MonthSpan(year, month);
    NormalMonthExactly(NormalYear(year, month), month % 12, d);
    MonthMatch(month, CivilFromDays(d).month);
  }

  lemma MonthMatch(month: int, c: int)
    requires 1 <= c <= 12
    ensures c - 1 == month <==> 0 <= month <= 11 && c == month % 12 + 1
  {
    if 0 <= month <= 11 {
      DivUnique(month, 12, 0, month);
    }
  }

  /** Around an in-range month, a day is in the month exactly when it lies
      between its first and last day. */
  lemma NormalMonthExactly(y: int, m: int, d: int)
    requires 0 <= m <= 11
    requires MakeDay(y, m, 1) - 6 <= d <= MakeDay(y, m, DaysInMonth(y, m + 1)) + 6
    ensures CivilFromDays(d).month == m + 1 <==> MakeDay(y, m, 1) <= d <= MakeDay(y, m, DaysInMonth(y, m + 1))
  {
    if d < MakeDay(y, m, 1) {
      BeforeMonth(y, m, d);
    } else if d > MakeDay(y, m, DaysInMonth(y, m + 1)) {
      DayZeroIsLastOfPreviousMonth(y, m);
      AfterMonth(y, m, d);
    } else {
      WithinMonth(y, m, d);
    }
  }

  lemma WithinMonth(y: int, m: int, d: int)
    requires 0 <= m <= 11
    requires MakeDay(y, m, 1) <= d <= MakeDay(y, m, DaysInMonth(y, m + 1))
    ensures CivilFromDays(d).month == m + 1
  {
    var k := d - MakeDay(y, m, 1) + 1;
    DayShift(y, m, 1, k);
    CivilAt(d, y, m, k);
  }

  /** The date of a day number known to be an in-range `MakeDay`. */
  lemma CivilAt(d: int, y: int, m: int, k: int)
    requires 0 <= m <= 11 && 1 <= k <= DaysInMonth(y, m + 1) && MakeDay(y, m, k) == d
    ensures CivilFromDays(d) == Civil(y, m + 1, k)
  {
    MakeDayOfDate(y, m, k);
  }

  /** Day `k` of month 12 of `y` is day `k` of January of the next year. */
  lemma JanuaryAfterDecember(y: int, k: int)
    ensures MakeDay(y + 1, 0, k) == MakeDay(y, 12, 0) + k
  {
    MonthCarry(y, 0, 0);
    DayShift(y + 1, 0, 0, k);
  }

  /** The six days before a first of the month lie in the month before. */
  lemma BeforeMonth(y: int, m: int, d: int)
    requires 0 <= m <= 11
    requires MakeDay(y, m, 1) - 6 <= d < MakeDay(y, m, 1)
    ensures CivilFromDays(d).month != m + 1
  {
    if m > 0 {
      BeforeLaterMonth(y, m, d);
    } else {
      BeforeJanuary(y, d);
    }
  }

  lemma BeforeLaterMonth(y: int, m: int, d: int)
    requires 1 <= m <= 11
    requires MakeDay(y, m, 1) - 6 <= d < MakeDay(y, m, 1)
    ensures CivilFromDays(d).month == m
  {
    var p := m - 1;
    var last := DaysInMonth(y, p + 1);
    DayZeroIsLastOfPreviousMonth(y, p);
    DayShift(y, p + 1, 0, 1);
    var k := last - (MakeDay(y, p + 1, 1) - 1 - d);
    DayShift(y, p, k, last);
    CivilAt(d, y, p, k);
  }

  lemma BeforeJanuary(y: int, d: int)
    requires MakeDay(y, 0, 1) - 6 <= d < MakeDay(y, 0, 1)
    ensures CivilFromDays(d).month == 12
  {
    var p := y - 1;
    DayZeroIsLastOfPreviousMonth(p, 11);
    assert DaysInMonth(p, 12) == 31;
    MonthCarry(p, 0, 0);
    DayShift(p + 1, 0, 0, 1);
    var k := 31 - (MakeDay(p + 1, 0, 1) - 1 - d);
    DayShift(p, 11, k, 31);
    CivilAt(d, p, 11, k);
  }

  /** The six days after a last of the month lie in the month after. */
  lemma AfterMonth(y: int, m: int, d: int)
    requires 0 <= m <= 11
    requires MakeDay(y, m + 1, 0) < d <= MakeDay(y, m + 1, 0) + 6
    ensures CivilFromDays(d).month != m + 1
  {
    if m < 11 {
      IntoNextMonth(y, m, d);
    } else {
      IntoJanuary(y, d);
    }
  }

  lemma IntoNextMonth(y: int, m: int, d: int)
    requires 0 <= m < 11
    requires MakeDay(y, m + 1, 0) < d <= MakeDay(y, m + 1, 0) + 6
    ensures CivilFromDays(d).month == m + 2
  {
    var k := d - MakeDay(y, m + 1, 0);
    DayShift(y, m + 1, 0, k);
    CivilAt(d, y, m + 1, k);
  }

  lemma IntoJanuary(y: int, d: int)
    requires MakeDay(y, 12, 0) < d <= MakeDay(y, 12, 0) + 6
    ensures CivilFromDays(d).month == 1
  {
    var k := d - MakeDay(y, 12, 0);
    JanuaryAfterDecember(y, k);
    assert 1 <= k <= 6 && MakeDay(y + 1, 0, k) == d;
    CivilAt(d, y + 1, 0, k);
  }

  // ---------------------------------------------------------------------------
  // Names
  // ---------------------------------------------------------------------------

  const MonthNames: seq<string> := [
    "January", "February", "March", "April", "May", "June",
    "July", "August", "September", "October", "November", "December"]

  /** `getMonthName`: `months[month]`, undefined outside 0..11. */
  function MonthName(month: int): (name: Option<string>)
    ensures name.Some? <==> 0 <= month <= 11
    ensures month == 0 ==> name == Some("January")
    ensures month == 11 ==> name == Some("December")
  {
    if 0 <= month < |MonthNames| then Some(MonthNames[month]) else None
  }

  /** Different months have different names. */
  lemma MonthNamesDistinct(a: int, b: int)
    requires 0 <= a <= 11 && 0 <= b <= 11 && a != b
    ensures MonthName(a) != MonthName(b)
  {
  }

  /** `getWeekdayNames`: the grid's columns, Sunday first. */
  function WeekdayNames(): (names: seq<string>)
    ensures |names| == 7 && names[0] == "Sun" && names[6] == "Sat"
  {
    ["Sun", "Mon", "Tue", "Wed", "Thu", "Fri", "Sat"]
  }

  /** The column names follow `getDay`: 1 January 2024 was a Monday and
      7 January 2024 a Sunday. */
  lemma NamesOfKnownDays()
    ensures WeekdayNames()[Weekday(DaysFromCivil(Civil(2024, 1, 1)))] == "Mon"
    ensures WeekdayNames()[Weekday(DaysFromCivil(Civil(2024, 1, 6)))] == "Sat"
    ensures WeekdayNames()[Weekday(DaysFromCivil(Civil(2024, 1, 7)))] == "Sun"
  {
    KnownWeek(0);
    KnownWeek(6);
    assert DaysFromCivil(Civil(2024, 1, 1)) == DaysFromCivil(Civil(2024, 1, 7)) - 6;
    WeekdayNext(DaysFromCivil(Civil(2024, 1, 1)));
    assert DaysFromCivil(Civil(2024, 1, 6)) == DaysFromCivil(Civil(2024, 1, 7)) - 1;
  }
}
