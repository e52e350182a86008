/** Naive wall-clock time, as Python's `datetime` without a time zone uses it:
    every day has exactly 86 400 seconds, there is no daylight-saving shift,
    and an instant is a count of microseconds. Day 0 starts at midnight of an
    arbitrary reference date; earlier instants are negative, and Dafny's
    Euclidean `/` and `%` then still give the calendar day and the time of day.
 */
module NaiveClock {

  const MICROS_PER_SECOND: int := 1_000_000
  const MICROS_PER_MINUTE: int := 60_000_000
  const MICROS_PER_HOUR: int := 3_600_000_000
  const MICROS_PER_DAY: int := 86_400_000_000

  /** Microseconds since midnight of the reference day. */
  type Instant = int

  predicate ValidHour(hour: int) { 0 <= hour < 24 }
  predicate ValidMinute(minute: int) { 0 <= minute < 60 }
  predicate ValidSecond(second: int) { 0 <= second < 60 }
  predicate ValidMicrosecond(micro: int) { 0 <= micro < MICROS_PER_SECOND }

  /** The fields `datetime` shows for an instant: the calendar day (as a day
      number), hour, minute, second and microsecond. */
  function Day(t: Instant): int { t / MICROS_PER_DAY }
  function Hour(t: Instant): int { t % MICROS_PER_DAY / MICROS_PER_HOUR }
  function Minute(t: Instant): int { t % MICROS_PER_DAY % MICROS_PER_HOUR / MICROS_PER_MINUTE }
  function Second(t: Instant): int
  {
    t % MICROS_PER_DAY % MICROS_PER_HOUR % MICROS_PER_MINUTE / MICROS_PER_SECOND
  }
  function Microsecond(t: Instant): int
  {
    t % MICROS_PER_DAY % MICROS_PER_HOUR % MICROS_PER_MINUTE % MICROS_PER_SECOND
  }

  /** The instant with the given fields. */
  function Compose(day: int, hour: int, minute: int, second: int, micro: int): Instant
  {
    day * MICROS_PER_DAY + hour * MICROS_PER_HOUR + minute * MICROS_PER_MINUTE
      + second * MICROS_PER_SECOND + micro
  }

  /** A positive multiple of a positive number is at least that number. */
  lemma MultipleAtLeast(k: int, d: int)
    requires k >= 1 && d > 0
    ensures k * d >= d
  {
    assert k * d == (k - 1) * d + d;
    assert (k - 1) * d >= 0;
  }

  /** Quotient and remainder are unique. */
  lemma DivModUnique(x: int, q: int, r: int, d: int)
    requires d > 0 && 0 <= r < d && x == q * d + r
    ensures x / d == q && x % d == r
  {
    var q', r' := x / d, x % d;
    assert x == q' * d + r';
    assert (q - q') * d == r' - r;
    if q > q' {
      MultipleAtLeast(q - q', d);
    } else if q < q' {
      MultipleAtLeast(q' - q, d);
    }
  }

  /** Reading the fields back from a composed instant gives the fields it was
      composed from. */
  lemma ComposeFields(day: int, hour: int, minute: int, second: int, micro: int)
    requires ValidHour(hour) && ValidMinute(minute) && ValidSecond(second) && ValidMicrosecond(micro)
    ensures var t := Compose(day, hour, minute, second, micro);
      Day(t) == day && Hour(t) == hour && Minute(t) == minute
      && Second(t) == second && Microsecond(t) == micro
  {
    var t := Compose(day, hour, minute, second, micro);
    var inMinute := second * MICROS_PER_SECOND + micro;
    var inHour := minute * MICROS_PER_MINUTE + inMinute;
    var inDay := hour * MICROS_PER_HOUR + inHour;
    DivModUnique(t, day, inDay, MICROS_PER_DAY);
    DivModUnique(inDay, hour, inHour, MICROS_PER_HOUR);
    DivModUnique(inHour, minute, inMinute, MICROS_PER_MINUTE);
    DivModUnique(inMinute, second, micro, MICROS_PER_SECOND);
  }

  /** Every instant is determined by its fields, and each field is in range:
      the converse of ComposeFields. */
  lemma FieldsCompose(t: Instant)
    ensures ValidHour(Hour(t)) && ValidMinute(Minute(t))
    ensures ValidSecond(Second(t)) && ValidMicrosecond(Microsecond(t))
    ensures Compose(Day(t), Hour(t), Minute(t), Second(t), Microsecond(t)) == t
  {
    var inDay := t % MICROS_PER_DAY;
    var inHour := inDay % MICROS_PER_HOUR;
    var inMinute := inHour % MICROS_PER_MINUTE;
    assert t == Day(t) * MICROS_PER_DAY + inDay;
    assert inDay == Hour(t) * MICROS_PER_HOUR + inHour;
    assert inHour == Minute(t) * MICROS_PER_MINUTE + inMinute;
    assert inMinute == Second(t) * MICROS_PER_SECOND + Microsecond(t);
  }

  /** `t.replace(hour=hour, minute=minute, second=0, microsecond=0)`: the same
      calendar day at hour:minute, on the whole minute. */
  function Replace(t: Instant, hour: int, minute: int): (r: Instant)
    requires ValidHour(hour) && ValidMinute(minute)
    ensures Day(r) == Day(t) && Hour(r) == hour && Minute(r) == minute
    ensures Second(r) == 0 && Microsecond(r) == 0
  {
    ComposeFields(Day(t), hour, minute, 0, 0);
    Compose(Day(t), hour, minute, 0, 0)
  }

  /** `t + timedelta(days=days)`: the same time of day, `days` calendar days on. */
  function AddDays(t: Instant, days: int): (r: Instant)
    ensures Day(r) == Day(t) + days
    ensures Hour(r) == Hour(t) && Minute(r) == Minute(t)
    ensures Second(r) == Second(t) && Microsecond(r) == Microsecond(t)
  {
    DivModUnique(t, Day(t), t % MICROS_PER_DAY, MICROS_PER_DAY);
    DivModUnique(t + days * MICROS_PER_DAY, Day(t) + days, t % MICROS_PER_DAY, MICROS_PER_DAY);
    t + days * MICROS_PER_DAY
  }

  /** Every instant lies in its own calendar day. */
  lemma WithinDay(t: Instant)
    ensures Day(t) * MICROS_PER_DAY <= t < (Day(t) + 1) * MICROS_PER_DAY
  {
    assert t == Day(t) * MICROS_PER_DAY + t % MICROS_PER_DAY;
  }

  /** The microsecond field is the remainder modulo one second. */
  lemma MicrosecondIsRemainder(t: Instant)
    ensures Microsecond(t) == t % MICROS_PER_SECOND
  {
    FieldsCompose(t);
    var seconds := Day(t) * 86_400 + Hour(t) * 3_600 + Minute(t) * 60 + Second(t);
    assert t == seconds * MICROS_PER_SECOND + Microsecond(t);
    DivModUnique(t, seconds, Microsecond(t), MICROS_PER_SECOND);
  }
}
