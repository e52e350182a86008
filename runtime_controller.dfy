/** The run-window scheduler of runtime_controller.py: given the current time
    and a daily window start_hour:start_minute .. end_hour:end_minute, pick a
    moment inside the next window that has not yet ended, and compute how long
    to sleep until it. The random draw is an input (`offset`), the sleep is the
    ghost output `slept`.
 */
module RuntimeController {
  import opened NaiveClock

  datatype Option<T> = None | Some(value: T)

  /** The errors the scheduler can raise. CPython's `datetime.replace`
      first converts each keyword to a C `int`, raising OverflowError
      (`IntOverflow`) for a value outside that type; it then raises
      ValueError for an hour outside 0..23 or a minute outside 0..59.
      `random.randint(0, d)` raises ValueError for an empty range, d < 0. */
  datatype ScheduleError = IntOverflow | HourOutOfRange | MinuteOutOfRange | EmptyRange

  datatype Result<T> = Ok(value: T) | Err(error: ScheduleError)

  /** A daily window, as the four keyword arguments of the scheduler. */
  datatype Window = Window(startHour: int, startMinute: int, endHour: int, endMinute: int)
  {
    predicate FieldsValid()
    {
      ValidHour(startHour) && ValidMinute(startMinute) && ValidHour(endHour) && ValidMinute(endMinute)
    }

    /** The window's length in seconds, from its clock fields alone. */
    function LengthSeconds(): int
    {
      ((endHour - startHour) * 60 + (endMinute - startMinute)) * 60
    }

    /** A window the scheduler accepts without raising. */
    predicate Valid()
    {
      FieldsValid() && LengthSeconds() >= 0
    }
  }

  /** The defaults of the scheduler's keyword arguments: 07:30 to 07:40. */
  const DEFAULT_WINDOW: Window := Window(7, 30, 7, 40)

  /** A window's two boundaries as instants. */
  datatype Bounds = Bounds(start: Instant, end: Instant)

  /** What one call decides: the window used, its length `delta_seconds`, the
      chosen `run_time`, and the wait (in microseconds) before it. */
  datatype Plan = Plan(window: Bounds, deltaSeconds: int, runTime: Instant, wait: int)

  /** The window on calendar day `day`, built directly from the clock fields. */
  function WindowOn(day: int, w: Window): Bounds
    requires w.FieldsValid()
  {
    Bounds(Compose(day, w.startHour, w.startMinute, 0, 0), Compose(day, w.endHour, w.endMinute, 0, 0))
  }

  /** The values a C `int` holds. */
  predicate FitsCInt(x: int) { -0x8000_0000 <= x < 0x8000_0000 }

  /** The error `now.replace(hour=hour, minute=minute, ...)` raises: every
      keyword is converted to a C `int` before any range is checked, and the
      hour is checked before the minute. */
  function ReplaceError(hour: int, minute: int): (e: Option<ScheduleError>)
    ensures e.None? <==> ValidHour(hour) && ValidMinute(minute)
    ensures e == Some(IntOverflow) <==> !FitsCInt(hour) || !FitsCInt(minute)
    ensures e == Some(HourOutOfRange) <==> FitsCInt(hour) && FitsCInt(minute) && !ValidHour(hour)
    ensures e == Some(MinuteOutOfRange) <==> FitsCInt(minute) && ValidHour(hour) && !ValidMinute(minute)
  {
    if !FitsCInt(hour) || !FitsCInt(minute) then Some(IntOverflow)
    else if !ValidHour(hour) then Some(HourOutOfRange)
    else if !ValidMinute(minute) then Some(MinuteOutOfRange)
    else None
  }

  /** The first error a call raises for window `w`, whatever `now` is:
      the start boundary is built first, then the end boundary, then the
      random draw rejects a negative length. */
  function WindowError(w: Window): (e: Option<ScheduleError>)
    ensures e.None? <==> w.Valid()
    ensures ReplaceError(w.startHour, w.startMinute).Some? ==> e == ReplaceError(w.startHour, w.startMinute)
    ensures ReplaceError(w.startHour, w.startMinute).None? && ReplaceError(w.endHour, w.endMinute).Some?
      ==> e == ReplaceError(w.endHour, w.endMinute)
    ensures e == Some(EmptyRange) <==> w.FieldsValid() && w.LengthSeconds() < 0
  {
    var startError := ReplaceError(w.startHour, w.startMinute);
    var endError := ReplaceError(w.endHour, w.endMinute);
    if startError.Some? then startError
    else if endError.Some? then endError
    else if w.LengthSeconds() < 0 then Some(EmptyRange)
    else None
  }

  /** Today's boundaries: `now`'s calendar day at the window's clock times,
      with seconds and microseconds zero. */
  function TodayBounds(now: Instant, w: Window): (b: Bounds)
    requires w.FieldsValid()
    ensures Day(b.start) == Day(now) && Hour(b.start) == w.startHour && Minute(b.start) == w.startMinute
    ensures Second(b.start) == 0 && Microsecond(b.start) == 0
    ensures Day(b.end) == Day(now) && Hour(b.end) == w.endHour && Minute(b.end) == w.endMinute
    ensures Second(b.end) == 0 && Microsecond(b.end) == 0
  {
    Bounds(Replace(now, w.startHour, w.startMinute), Replace(now, w.endHour, w.endMinute))
  }

  /** The rollover test: `now` is strictly later than today's end, that is,
      than the end of the window on `now`'s calendar day. */
  predicate PastWindow(now: Instant, w: Window)
    requires w.FieldsValid()
    ensures PastWindow(now, w) <==> now > WindowOn(Day(now), w).end
  {
    now > TodayBounds(now, w).end
  }

  /** Tomorrow's boundaries, built from `now + timedelta(days=1)`. */
  function TomorrowBounds(now: Instant, w: Window): (b: Bounds)
    requires w.FieldsValid()
    ensures Day(b.start) == Day(now) + 1 && Hour(b.start) == w.startHour && Minute(b.start) == w.startMinute
    ensures Second(b.start) == 0 && Microsecond(b.start) == 0
    ensures Day(b.end) == Day(now) + 1 && Hour(b.end) == w.endHour && Minute(b.end) == w.endMinute
    ensures Second(b.end) == 0 && Microsecond(b.end) == 0
  {
    var targetDay := AddDays(now, 1);
    Bounds(Replace(targetDay, w.startHour, w.startMinute), Replace(targetDay, w.endHour, w.endMinute))
  }

  /** The boundaries the scheduler draws from: a window on today's or
      tomorrow's calendar day that has not ended by `now`, tomorrow's exactly
      when today's has. */
  function ActiveBounds(now: Instant, w: Window): (b: Bounds)
    requires w.FieldsValid()
    ensures b == WindowOn(Day(b.start), w)
    ensures Day(b.start) == (if now > WindowOn(Day(now), w).end then Day(now) + 1 else Day(now))
    ensures now <= b.end
  {
    WithinDay(now);
    ComposeFields(Day(now) + 1, w.endHour, w.endMinute, 0, 0);
    if PastWindow(now, w) then TomorrowBounds(now, w) else TodayBounds(now, w)
  }

  /** `int(d.total_seconds())` for a duration of `micros` microseconds:
      whole seconds, truncated toward zero. */
  function TruncToSeconds(micros: int): (s: int)
    ensures micros >= 0 ==> 0 <= micros - s * MICROS_PER_SECOND < MICROS_PER_SECOND
    ensures micros < 0 ==> 0 <= s * MICROS_PER_SECOND - micros < MICROS_PER_SECOND
  {
    if micros >= 0 then micros / MICROS_PER_SECOND else -((-micros) / MICROS_PER_SECOND)
  }

  /** `delta_seconds`: the length of the boundaries in whole seconds, exact
      when the boundaries are whole seconds apart. */
  function DeltaSeconds(b: Bounds): (s: int)
    ensures (b.end - b.start) % MICROS_PER_SECOND == 0 ==> s * MICROS_PER_SECOND == b.end - b.start
  {
    TruncToSeconds(b.end - b.start)
  }

  /** `window_start + timedelta(seconds=offset)`: an instant with the start's
      microsecond field, from which the offset is read back in whole seconds. */
  function RunTime(b: Bounds, offset: int): (t: Instant)
    ensures Microsecond(t) == Microsecond(b.start)
    ensures (t - b.start) / MICROS_PER_SECOND == offset && (t - b.start) % MICROS_PER_SECOND == 0
  {
    WholeSecondsApart(b.start, b.start + offset * MICROS_PER_SECOND, offset);
    DivModUnique(offset * MICROS_PER_SECOND, offset, 0, MICROS_PER_SECOND);
    b.start + offset * MICROS_PER_SECOND
  }

  /** `max(0, run_time - now)`: the least non-negative wait after which the
      clock has reached `runTime`. */
  function Wait(now: Instant, runTime: Instant): (r: int)
    ensures r >= 0 && now + r >= runTime
    ensures r == 0 || now + r == runTime
    ensures r == 0 <==> runTime <= now
  {
    if runTime - now > 0 then runTime - now else 0
  }

  /** Reading the source's window length off its clock fields: both the
      boundaries of today and of tomorrow are exactly `w.LengthSeconds()`
      whole seconds apart. */
  lemma DeltaIsWindowLength(now: Instant, w: Window)
    requires w.FieldsValid()
    ensures TodayBounds(now, w).end - TodayBounds(now, w).start == w.LengthSeconds() * MICROS_PER_SECOND
    ensures TomorrowBounds(now, w).end - TomorrowBounds(now, w).start == w.LengthSeconds() * MICROS_PER_SECOND
    ensures DeltaSeconds(ActiveBounds(now, w)) == w.LengthSeconds()
  {
    var b := ActiveBounds(now, w);
    assert b.end - b.start == w.LengthSeconds() * MICROS_PER_SECOND;
    DivModUnique(b.end - b.start, w.LengthSeconds(), 0, MICROS_PER_SECOND);
    if w.LengthSeconds() < 0 {
      DivModUnique(b.start - b.end, -w.LengthSeconds(), 0, MICROS_PER_SECOND);
    }
  }

  /** One call of the scheduler for a valid window and a drawn offset: the
      run time lies in the window, inclusive at both ends, on a whole second,
      and the wait is the least non-negative one that reaches it. */
  function ScheduleRun(now: Instant, w: Window, offset: int): (p: Plan)
    requires w.FieldsValid() && 0 <= offset <= w.LengthSeconds()
    ensures p.window == ActiveBounds(now, w)
    ensures p.deltaSeconds == w.LengthSeconds()
    ensures p.window.start <= p.runTime <= p.window.end
    ensures Microsecond(p.runTime) == 0
    ensures p.wait >= 0 && now + p.wait >= p.runTime
    ensures p.wait == 0 || now + p.wait == p.runTime
    ensures p.wait == 0 <==> p.runTime <= now
  {
    var b := ActiveBounds(now, w);
    DeltaIsWindowLength(now, w);
    var deltaSeconds := DeltaSeconds(b);
    var runTime := RunTime(b, offset);
    WholeSecondsApart(b.start, runTime, offset);
    Plan(b, deltaSeconds, runTime, Wait(now, runTime))
  }

  /** Two instants `k` whole seconds apart agree in their microsecond field. */
  lemma WholeSecondsApart(a: Instant, b: Instant, k: int)
    requires b == a + k * MICROS_PER_SECOND
    ensures Microsecond(b) == Microsecond(a)
  {
    MicrosecondIsRemainder(a);
    MicrosecondIsRemainder(b);
    DivModUnique(a, a / MICROS_PER_SECOND, a % MICROS_PER_SECOND, MICROS_PER_SECOND);
    DivModUnique(b, a / MICROS_PER_SECOND + k, a % MICROS_PER_SECOND, MICROS_PER_SECOND);
  }

  /** Rollover happens exactly when `now` is strictly later than today's end:
      at or before it today's window is kept, after it tomorrow's is used. */
  lemma RolloverIffPastEnd(now: Instant, w: Window)
    requires w.FieldsValid()
    ensures ActiveBounds(now, w) == TodayBounds(now, w) <==> now <= TodayBounds(now, w).end
    ensures ActiveBounds(now, w) == TomorrowBounds(now, w) <==> now > TodayBounds(now, w).end
  {
    assert Day(TodayBounds(now, w).start) != Day(TomorrowBounds(now, w).start);
  }

  /** The window used is the window of the
      first calendar day whose end is not yet past, and that day is today or
      tomorrow. */
  lemma ChosenWindowIsFirstUnfinished(now: Instant, w: Window)
    requires w.FieldsValid()
    ensures var d := Day(ActiveBounds(now, w).start);
      (d == Day(now) || d == Day(now) + 1)
      && ActiveBounds(now, w) == WindowOn(d, w)
      && now <= WindowOn(d, w).end
      && forall earlier :: earlier < d ==> WindowOn(earlier, w).end < now
  {
    var today := Day(now);
    var endOfDay := (w.endHour * 60 + w.endMinute) * MICROS_PER_MINUTE;
    WithinDay(now);
    ComposeFields(today, w.startHour, w.startMinute, 0, 0);
    ComposeFields(today + 1, w.startHour, w.startMinute, 0, 0);
    assert TodayBounds(now, w) == WindowOn(today, w);
    assert TomorrowBounds(now, w) == WindowOn(today + 1, w);
    forall earlier | earlier < today
      ensures WindowOn(earlier, w).end < now
    {
      assert WindowOn(earlier, w).end == earlier * MICROS_PER_DAY + endOfDay;
    }
    if PastWindow(now, w) {
      forall earlier | earlier < today + 1
        ensures WindowOn(earlier, w).end < now
      {
        assert WindowOn(earlier, w).end == earlier * MICROS_PER_DAY + endOfDay;
      }
      assert now < (today + 1) * MICROS_PER_DAY <= WindowOn(today + 1, w).start;
    }
  }

  /** After a rollover the run time is strictly later than `now`, so the
      wait is positive and ends exactly at the run time. */
  lemma RolloverWaitIsPositive(now: Instant, w: Window, offset: int)
    requires w.FieldsValid() && 0 <= offset <= w.LengthSeconds()
    requires PastWindow(now, w)
    ensures ScheduleRun(now, w, offset).runTime > now
    ensures ScheduleRun(now, w, offset).wait > 0
    ensures now + ScheduleRun(now, w, offset).wait == ScheduleRun(now, w, offset).runTime
  {
    var start := TomorrowBounds(now, w).start;
    WithinDay(now);
    FieldsCompose(start);
    assert start >= Day(start) * MICROS_PER_DAY;
  }

  /** When `now` is exactly today's end, today's window is kept and the run
      time, wherever it falls, has already come: the wait is zero. */
  lemma AtEndNoWait(now: Instant, w: Window, offset: int)
    requires w.FieldsValid() && 0 <= offset <= w.LengthSeconds()
    requires now == TodayBounds(now, w).end
    ensures ScheduleRun(now, w, offset).window == TodayBounds(now, w)
    ensures ScheduleRun(now, w, offset).wait == 0
  {
  }

  /** Every offset gives a different run time, and every whole second of the
      window is the run time of the offset that leads to it: the offsets
      0 .. delta_seconds cover the window exactly. */
  lemma OffsetsCoverWindow(now: Instant, w: Window, t: Instant)
    requires w.FieldsValid()
    requires ActiveBounds(now, w).start <= t <= ActiveBounds(now, w).end
    requires Microsecond(t) == 0
    ensures var offset := (t - ActiveBounds(now, w).start) / MICROS_PER_SECOND;
      0 <= offset <= w.LengthSeconds() && ScheduleRun(now, w, offset).runTime == t
  {
    var b := ActiveBounds(now, w);
    DeltaIsWindowLength(now, w);
    MicrosecondIsRemainder(t);
    MicrosecondIsRemainder(b.start);
    var k := t / MICROS_PER_SECOND - b.start / MICROS_PER_SECOND;
    assert t - b.start == k * MICROS_PER_SECOND;
    DivModUnique(t - b.start, k, 0, MICROS_PER_SECOND);
    if k > w.LengthSeconds() {
      MultipleAtLeast(k - w.LengthSeconds(), MICROS_PER_SECOND);
    }
  }

  /** Distinct offsets give distinct run times. */
  lemma RunTimeDeterminesOffset(now: Instant, w: Window, offset1: int, offset2: int)
    requires w.FieldsValid()
    requires 0 <= offset1 <= w.LengthSeconds() && 0 <= offset2 <= w.LengthSeconds()
    requires ScheduleRun(now, w, offset1).runTime == ScheduleRun(now, w, offset2).runTime
    ensures offset1 == offset2
  {
  }

  /** The run times of the offsets `0 .. n - 1`. */
  function RunTimes(b: Bounds, n: nat): set<Instant>
  {
    if n == 0 then {} else RunTimes(b, n - 1) + {RunTime(b, n - 1)}
  }

  /** The `n` offsets give `n` distinct run times, all before the `n`th. */
  lemma {:induction false} RunTimesCount(b: Bounds, n: nat)
    ensures |RunTimes(b, n)| == n
    ensures forall t :: t in RunTimes(b, n) ==> b.start <= t < RunTime(b, n)
    ensures forall offset :: 0 <= offset < n ==> RunTime(b, offset) in RunTimes(b, n)
    ensures forall t :: t in RunTimes(b, n) ==> (t - b.start) % MICROS_PER_SECOND == 0
  {
    if n > 0 {
      RunTimesCount(b, n - 1);
      var last := RunTime(b, n - 1);
      assert last !in RunTimes(b, n - 1);
      assert RunTimes(b, n) == RunTimes(b, n - 1) + {last};
    }
  }

  /** The moment is drawn uniformly from the window's whole seconds: the run
      times of the offsets `0 .. delta_seconds` are exactly the instants of
      the window on a whole second, both ends included, and there are
      `delta_seconds + 1` of them, one for each value the draw can take. */
  lemma RunTimesAreWindowSeconds(now: Instant, w: Window)
    requires w.FieldsValid() && w.LengthSeconds() >= 0
    ensures var b := ActiveBounds(now, w);
      var times := RunTimes(b, w.LengthSeconds() + 1);
      |times| == w.LengthSeconds() + 1
      && forall t :: t in times <==> b.start <= t <= b.end && Microsecond(t) == 0
  {
    var b := ActiveBounds(now, w);
    var n := w.LengthSeconds() + 1;
    RunTimesCount(b, n);
    DeltaIsWindowLength(now, w);
    forall t | t in RunTimes(b, n)
      ensures b.start <= t <= b.end && Microsecond(t) == 0
    {
      var k := (t - b.start) / MICROS_PER_SECOND;
      assert t == b.start + k * MICROS_PER_SECOND;
      WholeSecondsApart(b.start, t, k);
    }
    forall t | b.start <= t <= b.end && Microsecond(t) == 0
      ensures t in RunTimes(b, n)
    {
      OffsetsCoverWindow(now, w, t);
    }
  }

  /** The default window 07:30 to 07:40 is valid and 600 seconds long. */
  lemma DefaultWindowIs600Seconds(now: Instant)
    ensures DEFAULT_WINDOW.Valid()
    ensures DeltaSeconds(ActiveBounds(now, DEFAULT_WINDOW)) == 600
  {
    DeltaIsWindowLength(now, DEFAULT_WINDOW);
  }

  /** With the default window and `now` at 08:00 on some day, the run time
      falls in tomorrow's window, between 07:30:00 and 07:40:00 inclusive. */
  lemma AfterDefaultWindowRunsTomorrow(day: int, offset: int)
    requires 0 <= offset <= 600
    ensures var p := ScheduleRun(Compose(day, 8, 0, 0, 0), DEFAULT_WINDOW, offset);
      p.window == WindowOn(day + 1, DEFAULT_WINDOW)
      && Compose(day + 1, 7, 30, 0, 0) <= p.runTime <= Compose(day + 1, 7, 40, 0, 0)
  {
    var now := Compose(day, 8, 0, 0, 0);
    ComposeFields(day, 8, 0, 0, 0);
    assert PastWindow(now, DEFAULT_WINDOW);
    ChosenWindowIsFirstUnfinished(now, DEFAULT_WINDOW);
  }

  /** Inside today's window the run time may already have passed: with the
      default window, `now` at 07:35 and offset 0, the run time is 07:30 of
      the same day, earlier than `now`, and the wait is clamped to zero. */
  lemma InWindowRunTimeMayPrecedeNow(day: int)
    ensures var now := Compose(day, 7, 35, 0, 0);
      var p := ScheduleRun(now, DEFAULT_WINDOW, 0);
      p.window == WindowOn(day, DEFAULT_WINDOW) && p.runTime < now && p.wait == 0
  {
    var now := Compose(day, 7, 35, 0, 0);
    ComposeFields(day, 7, 35, 0, 0);
    assert !PastWindow(now, DEFAULT_WINDOW);
    ChosenWindowIsFirstUnfinished(now, DEFAULT_WINDOW);
  }

  /** `wait_until_random_time(start_hour, start_minute, end_hour, end_minute)`
      called at `now`, with `offset` standing for the value `random.randint`
      draws. It returns `run_time` or the error the call raises; the
      ghost `slept` is the wait passed to `time.sleep`, in microseconds. */
  method WaitUntilRandomTime(now: Instant, w: Window, offset: int) returns (r: Result<Instant>, ghost slept: int)
    requires w.Valid() ==> 0 <= offset <= w.LengthSeconds()
    ensures r.Ok? <==> w.Valid()
    ensures r.Err? ==> WindowError(w) == Some(r.error)
    ensures r.Ok? ==> r.value == ScheduleRun(now, w, offset).runTime
    ensures r.Ok? ==> ActiveBounds(now, w).start <= r.value <= ActiveBounds(now, w).end
    ensures r.Ok? ==> slept == ScheduleRun(now, w, offset).wait && slept >= 0
    ensures r.Err? ==> slept == 0
  {
    var startError := ReplaceError(w.startHour, w.startMinute);
    if startError.Some? {
      return Err(startError.value), 0;
    }
    var endError := ReplaceError(w.endHour, w.endMinute);
    if endError.Some? {
      return Err(endError.value), 0;
    }
    var todayStart := Replace(now, w.startHour, w.startMinute);
    var todayEnd := Replace(now, w.endHour, w.endMinute);
    if now > todayEnd {
      var targetDay := AddDays(now, 1);
      todayStart := Replace(targetDay, w.startHour, w.startMinute);
      todayEnd := Replace(targetDay, w.endHour, w.endMinute);
    }
    var deltaSeconds := TruncToSeconds(todayEnd - todayStart);
    DeltaIsWindowLength(now, w);
    if deltaSeconds < 0 {
      return Err(EmptyRange), 0;
    }
    var runTime := todayStart + offset * MICROS_PER_SECOND;
    var waitMicros := runTime - now;
    if waitMicros < 0 {
      waitMicros := 0;
    }
    slept := waitMicros;
    r := Ok(runTime);
  }
}
