/**
 The minute handler: every tick re-renders the clock text; on the hour it
 pulses the vibration motor between 6 a.m. and 10 p.m. and, at midnight,
 runs the once-a-day recomputation (date, moon phase, sun times).
 */
module Ticks {
  import opened Calendar
  import opened TimeFormat

  /** What one tick asks the host to do besides redrawing the clock. */
  datatype Reaction = Reaction(pulse: bool, dailyRecompute: bool)

  /** The outcome of `handle_minute_tick`: the clock text and the reaction. */
  datatype TickOutput = TickOutput(text: seq<char>, reaction: Reaction)

  /** The first hour and the last hour of the day that are announced with a pulse. */
  const FirstPulseHour: int := 6
  const LastPulseHour: int := 22

  /** The dispatch on the hour and minute of a tick. */
  function Dispatch(hour: int, minute: int): (r: Reaction)
    // nothing happens off the hour
    ensures minute != 0 ==> !r.pulse && !r.dailyRecompute
    // a pulse and the daily work never share a tick
    ensures !(r.pulse && r.dailyRecompute)
    // the pulse announces the hours 6 a.m. to 10 p.m.; the daily work runs at midnight
    ensures r.pulse <==> minute == 0 && 6 <= hour <= 22
    ensures r.dailyRecompute <==> minute == 0 && hour == 0
  {
    if minute == 0 then
      Reaction(FirstPulseHour <= hour <= LastPulseHour, hour == 0)
    else
      Reaction(false, false)
  }

  /** `handle_minute_tick` on a well-formed tick time. */
  function HandleMinuteTick(t: PblTm, is24h: bool): (out: TickOutput)
    requires 0 <= t.hour <= 23 && 0 <= t.minute <= 59
    // the shown text reads back as the tick's time, in the chosen convention
    ensures ParseClock(out.text) == Some((if is24h then t.hour else Hour12(t.hour), t.minute))
    ensures !is24h ==> out.text[0] != '0'
    ensures out.reaction.pulse <==> t.minute == 0 && 6 <= t.hour <= 22
    ensures out.reaction.dailyRecompute <==> t.minute == 0 && t.hour == 0
  {
    ClockTextRoundTrip(t.hour, t.minute, is24h);
    ClockTextShape(t.hour, t.minute, is24h);
    TickOutput(ClockText(t.hour, t.minute, is24h), Dispatch(t.hour, t.minute))
  }

  /** Pulses in the first `h` hours of a day (hours 0 .. h-1), counted on the calendar. */
  function PulsesBefore(h: int): int {
    if h <= FirstPulseHour then 0
    else if h > LastPulseHour then LastPulseHour - FirstPulseHour + 1
    else h - FirstPulseHour
  }

  /** Runs the dispatch on every minute of the first `hours` hours of a day and counts
      the pulses and the daily recomputations it asks for. */
  method CountReactions(hours: int) returns (pulses: nat, recomputes: nat)
    requires 0 <= hours <= 24
    ensures pulses == PulsesBefore(hours)
    ensures recomputes == (if hours > 0 then 1 else 0)
  {
    pulses, recomputes := 0, 0;
    var h := 0;
    while h < hours
      invariant 0 <= h <= hours
      invariant pulses == PulsesBefore(h)
      invariant recomputes == (if h > 0 then 1 else 0)
    {
      var m := 0;
      while m < 60
        invariant 0 <= m <= 60
        invariant pulses == PulsesBefore(h) + (if m > 0 && FirstPulseHour <= h <= LastPulseHour then 1 else 0)
        invariant recomputes == (if h > 0 || (m > 0 && h == 0) then 1 else 0)
      {
        var r := Dispatch(h, m);
        if r.pulse {
          pulses := pulses + 1;
        }
        if r.dailyRecompute {
          recomputes := recomputes + 1;
        }
        m := m + 1;
      }
      h := h + 1;
    }
  }

  /** Over a whole day of ticks: 17 pulses (6 a.m. through 10 p.m.) and exactly one daily
      recomputation. */
  method CountDay() returns (pulses: nat, recomputes: nat)
    ensures pulses == 17 && recomputes == 1
  {
    pulses, recomputes := CountReactions(24);
  }
}
