/** Calendar days as the screens read them from a JavaScript `Date` in local
    time: `getFullYear()`, `getMonth()` (0 for January) and `getDate()`.
    Converting an instant to its local calendar day depends on the time
    zone, so every operation that needs it takes the conversion as a
    parameter `dayOf`. */
module Calendar {
  import opened Tasks

  /** `getMonth()`: 0 for January through 11 for December. */
  type Month0 = m: int | 0 <= m < 12

  /** `getDate()`: the day of the month. */
  type DayOfMonth = d: int | 1 <= d <= 31 witness 1

  datatype CivilDate = CivilDate(year: int, month0: Month0, day: DayOfMonth)

  /** `isSameDay` (src/pages/Tab1.tsx): same year, same month, same day of
      the month in local time. */
  predicate SameDay(a: Instant, b: Instant, dayOf: Instant -> CivilDate): (r: bool)
    ensures r <==> dayOf(a) == dayOf(b)
  {
    var x, y := dayOf(a), dayOf(b);
    x.year == y.year && x.month0 == y.month0 && x.day == y.day
  }

  /** The month a calendar view shows: `new Date(year, month, 1)`. */
  datatype YearMonth = YearMonth(year: int, month0: Month0)

  /** Months counted from January of year 0, so that consecutive months
      have consecutive indices. */
  function MonthIndex(ym: YearMonth): int {
    12 * ym.year + ym.month0
  }
}
