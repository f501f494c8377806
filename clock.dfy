/**
 * Time as the handlers see it. JavaScript's `new Date(text)` is the only date
 * parser the code uses; it is not modelled and is passed in, together with the
 * current instant. Instants are whole minutes in the clinic's local time.
 *
 * A DATE column the driver reads back is a `Date` object, not the stored text.
 * The code turns it into text in two ways, both passed in as well: a template
 * string prints `Date.prototype.toString` (`shown`), and `toISOString()` cut at
 * the "T" gives the UTC calendar date (`iso`). Both take the stored text.
 */
module Clocks {

  /** A parsed `Date`: a valid instant, or the Invalid Date an unparseable text gives. */
  datatype Instant = Invalid | At(minute: int)

  const MinutesPerDay: int := 1440

  /** The injected clock: the current minute, the date parser, and the two texts a
      stored date is turned into. */
  datatype Clock = Clock(now: int, parse: string -> Instant, shown: string -> string, iso: string -> string)

  /** JavaScript `t < now`: comparing with an Invalid Date is always false. */
  predicate Before(t: Instant, now: int)
  {
    t.At? && t.minute < now
  }

  /** The instant `today.setHours(0, 0, 0, 0)` gives: the start of the current day. */
  function Midnight(now: int): (m: int)
    ensures m <= now < m + MinutesPerDay
    ensures m % MinutesPerDay == 0
  {
    now - now % MinutesPerDay
  }

  /** A date that lies before the start of today. */
  predicate BeforeToday(t: Instant, now: int)
  {
    Before(t, Midnight(now))
  }

  /** `diffMinutes >= -10 && diffMinutes <= 60`, where diffMinutes is `t - now` (NaN for an Invalid Date). */
  predicate InReminderWindow(t: Instant, now: int)
  {
    t.At? && -10 <= t.minute - now <= 60
  }

  /** `t.toDateString() === now.toDateString()`: both fall on the same local calendar day. */
  predicate SameDay(t: Instant, now: int)
  {
    t.At? && t.minute / MinutesPerDay == now / MinutesPerDay
  }

  /** An instant before today's midnight is before now, and on an earlier calendar day. */
  lemma BeforeTodayMeansBeforeNow(t: Instant, now: int)
    requires BeforeToday(t, now)
    ensures Before(t, now)
    ensures t.minute / MinutesPerDay < now / MinutesPerDay
  {
    var m := Midnight(now);
    assert m / MinutesPerDay == now / MinutesPerDay by {
      DivOfDayStart(m, now);
    }
    assert t.minute / MinutesPerDay < m / MinutesPerDay by {
      DivMonotoneBelowMultiple(t.minute, m);
    }
  }

  lemma DivOfDayStart(m: int, now: int)
    requires m == now - now % MinutesPerDay
    ensures m / MinutesPerDay == now / MinutesPerDay
  {
    assert now == MinutesPerDay * (now / MinutesPerDay) + now % MinutesPerDay;
    assert m == MinutesPerDay * (now / MinutesPerDay);
  }

  lemma DivMonotoneBelowMultiple(x: int, m: int)
    requires m % MinutesPerDay == 0 && x < m
    ensures x / MinutesPerDay < m / MinutesPerDay
  {
    assert x == MinutesPerDay * (x / MinutesPerDay) + x % MinutesPerDay;
    assert m == MinutesPerDay * (m / MinutesPerDay);
  }
}
