/**
 * Abstract calendar instants.
 *
 * An instant is reduced to the two calendar fields the habit screen reads from
 * `java.util.Date`: the Sunday-based weekday (`getDay`) and the day of the month
 * (`getDate`). Time zones and the conversion from a timestamp are not modelled.
 */
module Calendar {

  /** Sunday-based weekday as `Date.getDay` reports it: 0 = Sunday … 6 = Saturday. */
  type Weekday = d: int | 0 <= d < 7

  /** Day of the month as `Date.getDate` reports it. */
  type DayOfMonth = d: int | 1 <= d <= 31 witness 1

  /** Monday-based index into a habit's `activeDays`: 0 = Monday … 6 = Sunday. */
  type DayIndex = i: int | 0 <= i < 7

  datatype Instant = Instant(day: Weekday, date: DayOfMonth)

  const SUNDAY: Weekday := 0
  const MONDAY: Weekday := 1

  /** Labels of the weekday strip, in `activeDays` order (Monday first). */
  const DAY_LABELS: seq<string> := ["Mon", "Tue", "Wed", "Thu", "Fri", "Sat", "Sun"]

  /** Names of the weekdays in `getDay` order (Sunday first). */
  const WEEKDAY_NAMES: seq<string> := ["Sun", "Mon", "Tue", "Wed", "Thu", "Fri", "Sat"]

  /** The `activeDays` index of a weekday: `(day + 6) % 7`. */
  function TodayIndex(day: Weekday): (i: DayIndex)
    ensures day == SUNDAY ==> i == 6
    ensures day != SUNDAY ==> i == day - 1
  {
    (day + 6) % 7
  }

  /** Reference inverse of the remap: the `getDay` weekday an index stands for. */
  function WeekdayAt(i: DayIndex): (day: Weekday)
    ensures i == 6 ==> day == SUNDAY
    ensures i < 6 ==> day == i + 1
  {
    (i + 1) % 7
  }

  lemma SundayAndMonday()
    ensures TodayIndex(SUNDAY) == 6
    ensures TodayIndex(MONDAY) == 0
  {
  }

  /** The remap and its reference inverse undo each other, so the remap is a bijection on 0..6. */
  lemma TodayIndexRoundTrip(day: Weekday, i: DayIndex)
    ensures WeekdayAt(TodayIndex(day)) == day
    ensures TodayIndex(WeekdayAt(i)) == i
  {
  }

  lemma TodayIndexInjective(d1: Weekday, d2: Weekday)
    ensures TodayIndex(d1) == TodayIndex(d2) ==> d1 == d2
  {
    TodayIndexRoundTrip(d1, 0);
    TodayIndexRoundTrip(d2, 0);
  }

  lemma TodayIndexSurjective(i: DayIndex)
    ensures exists day: Weekday :: TodayIndex(day) == i
  {
    TodayIndexRoundTrip(0, i);
  }

  /** The strip column the remap selects carries the name of the weekday `getDay` reported. */
  lemma TodayLabelNamesWeekday(day: Weekday)
    ensures DAY_LABELS[TodayIndex(day)] == WEEKDAY_NAMES[day]
  {
  }
}
