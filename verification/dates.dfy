/** Calendar dates as whole day numbers, so that `today + 7` is one week later. */
module Dates {

  /** A calendar date, counted in days from an arbitrary fixed origin. */
  type Date = int

  const DaysPerWeek: int := 7

  /** `timedelta(weeks=n)` expressed in days. */
  function Weeks(n: int): int
  {
    n * DaysPerWeek
  }
}
