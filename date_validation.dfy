/**
 * The date-range check run before any data is fetched (`validate_dates`):
 * both texts must parse as YYYY-MM-DD, the range must not be inverted, and no
 * date may lie after today. The outcome is a (valid, message) pair.
 */
module DateValidation {
  import opened Options
  import opened Calendar

  const InvalidFormatMessage := "Error: Invalid date format. Please use YYYY-MM-DD."
  const InvertedRangeMessage := "Error: Begin date cannot be after end date."
  const FutureDateMessage := "Error: Dates cannot be in the future."
  const ValidMessage := "Dates are valid."

  /**
   * `parse` stands for the library parser of the fixed `%Y-%m-%d` format: it
   * yields a calendar date, or None where the library raises its value error.
   * `today` is the current date, read from the clock in the source.
   * The checks run in the source's order: format, then range, then future.
   */
  function ValidateDates(startText: string, endText: string, today: CalendarDate,
                         parse: string -> Option<CalendarDate>): (r: (bool, string))
    ensures r.1 in {InvalidFormatMessage, InvertedRangeMessage, FutureDateMessage, ValidMessage}
    ensures r.0 <==> r.1 == ValidMessage
    ensures r.1 == InvalidFormatMessage <==> parse(startText).None? || parse(endText).None?
    ensures r.1 == InvertedRangeMessage <==>
      && parse(startText).Some? && parse(endText).Some?
      && Before(parse(endText).value, parse(startText).value)
    // Once the range is in order, "either date is in the future" is "the end date is".
    ensures r.1 == FutureDateMessage <==>
      && parse(startText).Some? && parse(endText).Some?
      && AtOrBefore(parse(startText).value, parse(endText).value)
      && Before(today, parse(endText).value)
    ensures r.0 <==>
      && parse(startText).Some? && parse(endText).Some?
      && AtOrBefore(parse(startText).value, parse(endText).value)
      && AtOrBefore(parse(endText).value, today)
  {
    match (parse(startText), parse(endText))
    case (Some(startDate), Some(endDate)) =>
      if Before(endDate, startDate) then
        (false, InvertedRangeMessage)
      else if Before(today, startDate) || Before(today, endDate) then
        (false, FutureDateMessage)
      else
        (true, ValidMessage)
    case _ =>
      (false, InvalidFormatMessage)
  }
}
