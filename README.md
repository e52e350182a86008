# Run-window scheduler of aps-energy-scraper

The repository logs into a utility portal, scrapes energy figures and
publishes them. The one piece of logic in it that is not browser automation
is `wait_until_random_time` in `runtime_controller.py`. This function picks a
random moment inside a daily window, 07:30 to 07:40 by default, sleeps until
that moment and returns it. If today's window has already ended, it uses
tomorrow's window instead.

This project models that function in Dafny and proves what it guarantees.

- `clock.dfy`, module `NaiveClock`: naive `datetime` time. An instant is an
  integer count of microseconds. A day is exactly 86 400 seconds, with no
  time zone and no daylight-saving shift. The module gives an instant's
  fields (day, hour, minute, second, microsecond) and proves that the fields
  and the instant determine each other (`ComposeFields`, `FieldsCompose`).
  It also models `datetime.replace(hour=…, minute=…, second=0,
  microsecond=0)` as `Replace`, and `+ timedelta(days=n)` as `AddDays`.
- `runtime_controller.dfy`, module `RuntimeController`: the scheduler.
  - Today's and tomorrow's window boundaries, and the rollover test
    `now > today_end` (`PastWindow`, `ActiveBounds`).
  - `delta_seconds`, with `int(total_seconds())` truncating toward zero
    (`TruncToSeconds`).
  - The run time `window_start + offset` seconds, and the clamped wait
    `max(0, run_time - now)`.
  - The whole call, as the method `WaitUntilRandomTime`.

`random.randint(0, delta_seconds)` is modelled as an input `offset`, and the
method requires that offset to lie in `[0, delta_seconds]`. `time.sleep` is
modelled as the ghost output `slept`, which is the wait in microseconds; it
is 0 when the call raises. The errors the call raises are modelled as `Err`
results, in the order the code raises them:

- CPython's `datetime.replace` first converts each keyword to a C `int`; an
  hour or minute outside that type raises OverflowError (`IntOverflow`).
  Within it, an hour outside 0..23 or a minute outside 0..59 raises
  ValueError, the hour being checked before the minute. The start boundary
  (line 11) is built before the end boundary (line 12).
- `random.randint(0, delta_seconds)` raises ValueError when the end comes
  before the start.

Start equal to end is accepted: `delta_seconds` is 0 and the run time is
the start itself.

For `now` inside today's window the run time may already have passed,
because the offset is drawn over the whole window; the wait is then 0
(`InWindowRunTimeMayPrecedeNow`).

## Model

| member | source | states |
|---|---|---|
| `NaiveClock.Replace` | runtime_controller.py:11-12 | `now.replace(hour, minute, second=0, microsecond=0)` keeps the calendar day, has exactly the given hour and minute, and has second and microsecond zero |
| `NaiveClock.AddDays` | runtime_controller.py:16 | `now + timedelta(days=n)` is `n` calendar days later, with the hour, minute, second and microsecond unchanged |
| `RuntimeController.ReplaceError` | runtime_controller.py:11-12 | `replace` raises unless the hour is in 0..23 and the minute in 0..59; a value outside C `int` raises OverflowError before any range check, and a bad hour is reported before a bad minute |
| `RuntimeController.WindowError` | runtime_controller.py:11-22 | a call raises exactly when the window is invalid; an error in the start fields wins over one in the end fields; it raises the empty-range error exactly when all clock fields are valid and the end precedes the start |
| `RuntimeController.TodayBounds` | runtime_controller.py:11-12 | both of today's boundaries are on `now`'s calendar day at the given hour:minute, with seconds and microseconds zero |
| `RuntimeController.PastWindow` | runtime_controller.py:15 | the rollover test holds exactly when `now` is strictly later than the end of the window on `now`'s own calendar day; `RolloverIffPastEnd` gives both directions in terms of the windows used |
| `RuntimeController.TomorrowBounds` | runtime_controller.py:16-18 | after rollover, both boundaries are on the next calendar day at the same hour:minute, with seconds and microseconds zero |
| `RuntimeController.ActiveBounds` | runtime_controller.py:15-18 | the boundaries drawn from are the window of today's calendar day, or of tomorrow's exactly when today's has ended before `now`, and they have not ended by `now`; `ChosenWindowIsFirstUnfinished` shows this is the first unfinished day's window |
| `RuntimeController.RolloverIffPastEnd` | runtime_controller.py:15-18 | tomorrow's window is used if and only if `now` is strictly later than today's end; at or before today's end, today's window is kept |
| `RuntimeController.ChosenWindowIsFirstUnfinished` | runtime_controller.py:11-18 | the window used is that of the first calendar day whose end is not before `now`, and that day is today or tomorrow |
| `RuntimeController.TruncToSeconds` | runtime_controller.py:21 | `int(total_seconds())` gives whole seconds truncated toward zero, for negative durations too |
| `RuntimeController.DeltaSeconds` | runtime_controller.py:21 | `delta_seconds` is exactly the distance of the boundaries in seconds whenever they are whole seconds apart, which `DeltaIsWindowLength` shows they always are |
| `RuntimeController.DeltaIsWindowLength` | runtime_controller.py:21 | `delta_seconds` is the end clock time minus the start clock time in whole seconds; today's and tomorrow's windows have the same length, with no remainder |
| `RuntimeController.DefaultWindowIs600Seconds` | runtime_controller.py:7-21 | the default window 07:30–07:40 is valid and `delta_seconds` is 600, whatever `now` is |
| `RuntimeController.RunTime` | runtime_controller.py:23 | `window_start + timedelta(seconds=offset)` keeps the start's microsecond field, and the offset is read back from the run time as its whole-second distance from the start; `ScheduleRun` and `OffsetsCoverWindow` place it in the window |
| `RuntimeController.Wait` | runtime_controller.py:25 | the wait is the least non-negative amount after which the clock reaches the run time; it is 0 exactly when the run time is not later than `now` |
| `RuntimeController.ScheduleRun` | runtime_controller.py:21-25 | for an offset in `[0, delta_seconds]`, the run time lies in the window, inclusive at both ends, on a whole second; the wait is non-negative, reaches the run time, and is 0 exactly when the run time has already come |
| `RuntimeController.OffsetsCoverWindow` | runtime_controller.py:22-23 | every whole second of the window, both ends included, is the run time of some offset in `[0, delta_seconds]` |
| `RuntimeController.RunTimesCount` | runtime_controller.py:22-23 | the offsets `0 .. n - 1` give `n` distinct run times, each a whole number of seconds after the window start and before offset `n`'s run time |
| `RuntimeController.RunTimesAreWindowSeconds` | runtime_controller.py:21-23 | the moment is uniform over the window's whole seconds: the run times of all offsets `randint(0, delta_seconds)` can draw are exactly the whole-second instants of the window, both ends included, and there are `delta_seconds + 1` of them, one per offset |
| `RuntimeController.RunTimeDeterminesOffset` | runtime_controller.py:23 | distinct offsets give distinct run times |
| `RuntimeController.RolloverWaitIsPositive` | runtime_controller.py:15-25 | after rollover the run time is strictly later than `now`, so the wait is positive and ends exactly at the run time |
| `RuntimeController.AtEndNoWait` | runtime_controller.py:15-25 | when `now` is exactly today's end, today's window is kept and the wait is 0 |
| `RuntimeController.AfterDefaultWindowRunsTomorrow` | runtime_controller.py:7-23 | with the default window and `now` at 08:00, the run time is between tomorrow's 07:30:00 and 07:40:00 inclusive |
| `RuntimeController.InWindowRunTimeMayPrecedeNow` | runtime_controller.py:22-25 | with `now` at 07:35 inside the default window and offset 0, the run time is 07:30 the same day, earlier than `now`, and the wait is 0 |
| `RuntimeController.WaitUntilRandomTime` | runtime_controller.py:7-29 | the call returns `run_time`, not the wait. It succeeds exactly for a valid window and otherwise returns the first error the code raises. On success the run time lies in the active window and the sleep is the clamped wait; on an error nothing is slept |

## Left out

- `time.sleep` and `datetime.now()`: I/O and the clock. `now` is an input, and the sleep is only the ghost output `slept`.
- `logging.info` and its message formatting: a side effect that carries no logic.
- `random.randint`: the random draw is the input `offset`, and the method requires it to lie in the range the draw uses.
- Floating point: `total_seconds()` returns a float. The wait is modelled exactly, in integer microseconds, and the float rounding of very long durations is not modelled.
- The `datetime` year range 1..9999: time is unbounded here, so the `OverflowError` that `now + timedelta(days=1)` raises on the last representable day is not modelled.
- Determinism under a fixed seed: every operation here is a function of its inputs, so the same `now` and offset always give the same run time without any separate lemma.
- runtime_controller.py has no already-ran marker check, so none is modelled.
- `IntOverflow` follows CPython's C `datetime`; the pure-Python `datetime` fallback raises ValueError for such values instead, which is not modelled.
- `aps_scraper.py` and `example.py`: Selenium browser automation and credential reads, all I/O against an external site.
