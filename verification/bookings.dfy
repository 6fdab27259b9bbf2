/** The booking record the parser produces and the calendar displays, and
    the calendar day and month built from bookings. */
module Bookings {
  import opened Wrappers
  import opened Stamps

  datatype Platform = Airbnb | BookingCom | Other

  datatype Status = Confirmed | Pending | Cancelled

  /** One booking.  Optional fields are the ones the record type leaves
      optional; dates are `Stamp`s, instants in whole seconds. */
  datatype Booking = Booking(
    id: string,
    platform: Platform,
    propertyName: string,
    guestName: Option<string>,
    guest: Option<string>,
    description: Option<string>,
    checkInDate: Stamp,
    checkOutDate: Stamp,
    status: Status,
    originalStatus: Option<string>,
    createdAt: Stamp,
    updatedAt: Stamp)

  /** One cell of the month grid; `date` is a day number. */
  datatype CalendarDay = CalendarDay(date: int, isCurrentMonth: bool, isToday: bool, bookings: seq<Booking>)

  /** `month` counts from 0, as in the source. */
  datatype CalendarMonth = CalendarMonth(year: int, month: int, days: seq<CalendarDay>)

  function StatusName(s: Status): (name: string)
    ensures name != ""
  {
    match s
    case Confirmed => "confirmed"
    case Pending => "pending"
    case Cancelled => "cancelled"
  }
}
