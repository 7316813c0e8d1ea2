# Almanac watch face: integer and text logic

A Dafny model of the decision logic of the Pebble "Almanac" watch face
(`src/almanac.c`). The face shows the time, the date, the moon phase and the
sunrise, sunset, dawn and dusk times for a fixed location. This project models
the parts of it that work on integers, booleans and text. It also proves what
those parts promise.

- **CArith**: C99 integer division, which truncates toward zero. The Julian
  day formula depends on it. Dafny's own `/` is Euclidean and gives a different
  answer for the `(m-14)/12` term.
- **Calendar**: the host's broken-down time `PblTm`, with `tm_year` counted
  from 1900 and `tm_mon` from 0. It also holds `tm2jd`, the classic civil-to-JDN
  formula with every division truncating as in C. As an independent reference
  it carries the proleptic Gregorian calendar: leap years, month lengths and
  the next calendar day. The central result is `Tm2JdNextDay`: on every real
  date from 4800 BC (astronomical year -4799) on, the next calendar day has the next Julian Day Number.
  This holds across month ends, across February in leap and common years, and
  across year ends. Together with the fixed value for 1 January 2000, this pins
  the formula to the Gregorian day count.
- **Dst**: `isDST`, a whole-day test of United States daylight time with a
  1-based month and a weekday where 0 is Sunday. It is proved equal to the
  calendar rule "from the second Sunday of March, before the first Sunday of
  November" for every day and month.
- **TimeFormat**: `thr`, which folds hours past noon into 12-hour form for
  the sunrise and sunset text. It also covers the clock text, which the host
  formats with `%R` or `%I:%M` and from which the face drops one leading '0'
  in 12-hour mode. Reading the shown text back gives the tick's time. In
  12-hour mode the text never starts with '0'.
- **Ticks**: `handle_minute_tick` as a pure function of the tick time and the
  12/24-hour setting. It returns the clock text, whether to pulse the
  vibration motor, and whether to run the daily recomputation. A counting
  method runs the dispatch over every minute of a day. Such a day has 17
  pulses and exactly one daily recomputation.

The host runtime becomes parameters of the model.
- `clock_is_24h_style()` is the `is24h` argument.
- The tick time is a `PblTm` value.
- `string_format_time` for the clock is modelled by the C-library meaning of
  `%R` and `%I:%M` (`FormatClock`).
- `vibes_short_pulse()` and the call to `handle_day` become the booleans
  of `Reaction`.

## Model

| member | source | states |
|---|---|---|
| CArith.TruncDiv | src/almanac.c:65 | C division by a positive constant: the remainder has the dividend's sign and is smaller than the divisor |
| CArith.TruncDivOfNonNegative | src/almanac.c:65 | for a non-negative dividend, C division equals floor division |
| CArith.TruncDivUnique | src/almanac.c:65 | the truncated quotient is the only one leaving such a remainder |
| Calendar.CivilToJdn | src/almanac.c:65 | the civil-to-JDN formula with C-truncating division; it has no contract of its own, and its behaviour is stated by MonthShift, LeapDayTerms and the month and year step lemmas below |
| Calendar.Tm2Jd | src/almanac.c:60-66 | `tm2jd` reading year as tm_year + 1900 and month as tm_mon + 1; it has no contract of its own, and its behaviour is stated by Tm2JdEpoch2000, Tm2JdDayShift and Tm2JdNextDay |
| Calendar.MonthShift | src/almanac.c:64-65 | `(m-14)/12` is -1 for January and February and 0 for March to December |
| Calendar.MonthShiftNotFloor | src/almanac.c:65 | floor division would give a different `(m-14)/12` for every month except February |
| Calendar.Tm2JdEpoch2000 | src/almanac.c:60-66 | tm_year 100, tm_mon 0, tm_mday 1 (1 January 2000) gives JDN 2451545 |
| Calendar.Tm2JdDayShift | src/almanac.c:65 | raising tm_mday by k, with year and month fixed, raises the result by exactly k |
| Calendar.LeapDayTerms | src/almanac.c:65 | the year terms of the formula add 366 days in a Gregorian leap year and 365 otherwise |
| Calendar.Tm2JdMonthStep | src/almanac.c:60-66 | the first of the next month is exactly the length of the current month later |
| Calendar.Tm2JdYearStep | src/almanac.c:60-66 | 1 January of the next year is one day after 31 December |
| Calendar.Tm2JdNextDay | src/almanac.c:60-66 | for every valid date from 4800 BC (astronomical year -4799) on, the next calendar day has the next Julian Day Number |
| Calendar.Tm2JdNoOverflow | src/almanac.c:60-66 | for valid dates from 4800 BC (astronomical year -4799) to AD 1,000,000, every intermediate value of the formula fits a 32-bit `int` |
| Dst.IsDst | src/almanac.c:33-51 | never in December to February and always in April to October; the March and November cases are stated by IsDstTable and IsDstMatchesUsRule |
| Dst.IsDstTable | src/almanac.c:33-51 | false for months below 3 or above 11 and true for months 4 to 10, whatever the day or weekday; in March true exactly when day - dow >= 8, in November exactly when day - dow <= 0 |
| Dst.SecondSundayReached | src/almanac.c:43-47 | the Sunday on or before the day is on the 8th or later exactly when the month's second Sunday has come |
| Dst.FirstSundayAhead | src/almanac.c:48-50 | the Sunday on or before the day is on the 0th or earlier exactly when the month's first Sunday is still ahead |
| Dst.IsDstMatchesUsRule | src/almanac.c:33-51 | `isDST` equals "from the second Sunday of March, before the first Sunday of November" for every day and month |
| Dst.DstSeasonContiguous | src/almanac.c:43-50 | once on in March, daylight time stays on the next day; once off in November, it stays off |
| TimeFormat.Thr | src/almanac.c:54-57 | keeps the hour in 24-hour mode; in 12-hour mode it removes 12 exactly from hours past noon (noon stays 12, 0 stays 0), mapping 0..23 into 0..12 at the same hour modulo 12 |
| TimeFormat.ThrTable | src/almanac.c:54-57 | unchanged when 24-hour or hr <= 12; hr - 12 when 12-hour and hr > 12 |
| TimeFormat.ThrAgainstClockHour | src/almanac.c:54-57 | `thr` agrees with the clock's `%I` hour on every hour except midnight, which it shows as 0 where the clock shows 12 |
| TimeFormat.Hour12 | src/almanac.c:138 | the host's `%I` hour: 1..12, equal to the hour modulo 12, so midnight and noon show 12 |
| TimeFormat.FormatClock | src/almanac.c:135-141 | the host writes five characters with ':' in the middle |
| TimeFormat.StripLeadingZero | src/almanac.c:142-144 | in 12-hour mode a leading '0' is removed; otherwise the text is unchanged; at most one character goes and the rest is the original's tail |
| TimeFormat.ClockText | src/almanac.c:135-144 | the shown clock text: "H:MM" for 12-hour hours 1-9, "HH:MM" otherwise, never starting with '0' in 12-hour mode; its content is stated by ClockTextRoundTrip and ClockTextShape |
| TimeFormat.ClockTextRoundTrip | src/almanac.c:135-144 | the shown clock text reads back as the tick's hour (24-hour, or `%I` hour) and minute |
| TimeFormat.ClockTextShape | src/almanac.c:135-144 | in 12-hour mode the text never starts with '0': "H:MM" for hours 1-9, "HH:MM" for 10-12; 24-hour text is "HH:MM" |
| TimeFormat.ClockTextExamples | src/almanac.c:141-144 | "01:30" becomes "1:30" in 12-hour mode and stays in 24-hour mode; 13:05 shows "1:05" and midnight "12:00" |
| Ticks.Dispatch | src/almanac.c:148-158 | pulse exactly when minute is 0 and 6 <= hour <= 22; daily recomputation exactly when minute is 0 and hour is 0; so nothing happens off the hour, and the two never share a tick |
| Ticks.HandleMinuteTick | src/almanac.c:127-158 | one tick gives clock text that reads back as the tick time and never starts with '0' in 12-hour mode, plus the pulse and daily decisions above |
| Ticks.CountReactions | src/almanac.c:148-158 | over the first h hours of a day the dispatch asks for max(0, min(h, 23) - 6) pulses and, once h > 0, exactly one daily recomputation |
| Ticks.CountDay | src/almanac.c:148-158 | a whole day of ticks has 17 pulses and exactly one daily recomputation |

## Left out

- `moon_phase` (src/almanac.c:68-75) is `double` arithmetic, with casts used as truncation. So is the moon glyph built from it (line 100). Floating point is not modelled.
- The sunrise, sunset, dawn and dusk reconstruction (src/almanac.c:106-120) is also floating point. It includes the time-zone shift, the half-day offset and the minute rounding.
- `getDayInfo` comes from `suncalc.h`, which is not part of this model.
- The date text (`%m/%d/%Y`) and the sun-time text (`xsprintf`) are host formatting calls. Only the clock's `%R` / `%I:%M` output is modelled, because the leading-zero strip works on it.
- Window, text-layer and font setup and teardown are left out, and so are `handle_init`, `handle_deinit` and `pbl_main` (src/almanac.c:161-227). They are UI and lifecycle.
- The start-up path calls `handle_day(ctx, NULL)` and `handle_minute_tick(ctx, NULL)`. Both then read `t->tick_time` with `t` null. The code as written dereferences null there, so neither a start-up recomputation nor the crash is modelled.
- The DST hour adjustment is commented out at its call site (src/almanac.c:110-111). That call would pass the 0-based `tm_mon`. `isDST` is modelled on its own 1-based-month terms only.
- The changeover hour (2 a.m.) is not modelled: `isDST` decides whole days, and so does the reference rule it is compared with.
- CArith.TruncDiv: defined for positive divisors only, because every division in `tm2jd` is by 4, 12 or 100.
- Calendar.Tm2JdNextDay: proved for years from 4800 BC (astronomical year -4799, where year 0 is 1 BC) on. Below that the formula's other dividends turn negative too.
- 32-bit wrap-around is not modelled for `thr` or the tick dispatch. Their inputs are hours and minutes, far from the `int` limits.
