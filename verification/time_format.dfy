/**
 How the face renders hours: `thr`, which folds a 24-hour value into
 12-hour form for the sunrise and sunset text, and the main clock text,
 which the host formats with `%R` (24-hour) or `%I:%M` (12-hour) and from
 which the face then drops one leading '0' in 12-hour mode.
 */
module TimeFormat {

  datatype Option<T> = None | Some(value: T)

  /** `thr(hr)`: in 12-hour mode an hour past noon loses 12; everything else is kept.
      Hour 0 stays 0. */
  function Thr(hr: int, is24h: bool): (r: int)
    ensures is24h ==> r == hr
    ensures r == hr || r == hr - 12
    // in 12-hour mode exactly the hours past noon lose 12, so noon stays 12 and 0 stays 0
    ensures !is24h ==> (r == hr - 12 <==> hr > 12)
    // in 12-hour mode a day's hours land on the dial 0..12 at the same place modulo 12
    ensures !is24h && 0 <= hr <= 23 ==> 0 <= r <= 12 && r % 12 == hr % 12
  {
    if !is24h && hr > 12 then hr - 12 else hr
  }

  /** The hour as C's `strftime` writes it for `%I`: 12 for midnight and noon, else 1..11. */
  function Hour12(h: int): (r: int)
    requires 0 <= h <= 23
    ensures 1 <= r <= 12
    ensures r % 12 == h % 12
  {
    if h % 12 == 0 then 12 else h % 12
  }

  function Digit(n: int): (c: char)
    requires 0 <= n <= 9
    ensures '0' <= c <= '9'
  {
    ('0' as int + n) as char
  }

  predicate IsDigit(c: char) {
    '0' <= c <= '9'
  }

  function DigitValue(c: char): int
    requires IsDigit(c)
  {
    c as int - '0' as int
  }

  /** Two decimal digits, zero padded, as `%02d`, `%H`, `%I` and `%M` write them. */
  function TwoDigits(n: int): (s: seq<char>)
    requires 0 <= n <= 99
    ensures |s| == 2 && IsDigit(s[0]) && IsDigit(s[1])
    ensures 10 * DigitValue(s[0]) + DigitValue(s[1]) == n
  {
    [Digit(n / 10), Digit(n % 10)]
  }

  /** What the host's `string_format_time` writes into the five-character clock buffer:
      `%R` (HH:MM) in 24-hour mode and `%I:%M` in 12-hour mode. */
  function FormatClock(hour: int, minute: int, is24h: bool): (s: seq<char>)
    requires 0 <= hour <= 23 && 0 <= minute <= 59
    ensures |s| == 5 && s[2] == ':'
  {
    TwoDigits(if is24h then hour else Hour12(hour)) + [':'] + TwoDigits(minute)
  }

  /** The `memmove` in the minute handler: in 12-hour mode a leading '0' is dropped.
      Moving the five characters and the terminator left by one is dropping the first. */
  function StripLeadingZero(s: seq<char>, is24h: bool): (r: seq<char>)
    // nothing changes in 24-hour mode or when the text does not start with '0'
    ensures is24h || |s| == 0 || s[0] != '0' ==> r == s
    // otherwise exactly the first character goes
    ensures !is24h && |s| > 0 && s[0] == '0' ==> |r| == |s| - 1
    // at most one character is removed, and what is left is the tail of the original
    ensures |s| - 1 <= |r| <= |s| && r == s[|s| - |r|..]
  {
    if !is24h && |s| > 0 && s[0] == '0' then s[1..] else s
  }

  /** The clock text the face shows. */
  function ClockText(hour: int, minute: int, is24h: bool): (s: seq<char>)
    requires 0 <= hour <= 23 && 0 <= minute <= 59
    // "H:MM" for 12-hour hours 1 to 9, "HH:MM" otherwise
    ensures |s| == (if !is24h && Hour12(hour) < 10 then 4 else 5)
    // in 12-hour mode the text never starts with '0'
    ensures !is24h ==> s[0] != '0'
  {
    var f := FormatClock(hour, minute, is24h);
    var hs := TwoDigits(if is24h then hour else Hour12(hour));
    assert f[0] == hs[0] && f[1] == hs[1];
    assert !is24h && Hour12(hour) < 10 ==> f[0] == '0';
    assert !is24h && Hour12(hour) >= 10 ==> f[0] == '1';
    StripLeadingZero(f, is24h)
  }

  /** Reads "H:MM" or "HH:MM" back into an (hour, minute) pair; anything else is not a clock text. */
  function ParseClock(s: seq<char>): Option<(int, int)> {
    if |s| == 4 && IsDigit(s[0]) && s[1] == ':' && IsDigit(s[2]) && IsDigit(s[3]) then
      Some((DigitValue(s[0]), 10 * DigitValue(s[2]) + DigitValue(s[3])))
    else if |s| == 5 && IsDigit(s[0]) && IsDigit(s[1]) && s[2] == ':' && IsDigit(s[3]) && IsDigit(s[4]) then
      Some((10 * DigitValue(s[0]) + DigitValue(s[1]), 10 * DigitValue(s[3]) + DigitValue(s[4])))
    else
      None
  }

  /** The decision table of `thr`. */
  lemma ThrTable(hr: int, is24h: bool)
    ensures is24h || hr <= 12 ==> Thr(hr, is24h) == hr
    ensures !is24h && hr > 12 ==> Thr(hr, is24h) == hr - 12
  {
  }

  /** `thr` and the clock's `%I` agree on every hour but midnight, which `thr` shows as 0
      where the clock shows 12. */
  lemma ThrAgainstClockHour(hr: int)
    requires 0 <= hr <= 23
    ensures hr != 0 ==> Thr(hr, false) == Hour12(hr)
    ensures hr == 0 ==> Thr(hr, false) == 0 && Hour12(hr) == 12
  {
  }

  lemma ParseLongClock(h: int, m: int)
    requires 0 <= h <= 99 && 0 <= m <= 99
    ensures ParseClock(TwoDigits(h) + [':'] + TwoDigits(m)) == Some((h, m))
  {
    var hs, ms := TwoDigits(h), TwoDigits(m);
    var s := hs + [':'] + ms;
    assert s[0] == hs[0] && s[1] == hs[1] && s[2] == ':' && s[3] == ms[0] && s[4] == ms[1];
  }

  lemma ParseShortClock(h: int, m: int)
    requires 0 <= h <= 9 && 0 <= m <= 99
    ensures ParseClock([Digit(h), ':'] + TwoDigits(m)) == Some((h, m))
  {
    var ms := TwoDigits(m);
    var s := [Digit(h), ':'] + ms;
    assert s[0] == Digit(h) && s[1] == ':' && s[2] == ms[0] && s[3] == ms[1];
  }

  /** The shown text when the hour has a leading zero to drop. */
  lemma StrippedClock(h: int, m: int)
    requires 0 <= h <= 9 && 0 <= m <= 99
    ensures StripLeadingZero(TwoDigits(h) + [':'] + TwoDigits(m), false) == [Digit(h), ':'] + TwoDigits(m)
  {
    var s := TwoDigits(h) + [':'] + TwoDigits(m);
    assert s[0] == '0';
    assert s[1..] == [Digit(h), ':'] + TwoDigits(m);
  }

  /** Reading the shown clock text gives back the time: the 24-hour hour in 24-hour mode,
      the `%I` hour in 12-hour mode, and the minute either way. */
  lemma ClockTextRoundTrip(hour: int, minute: int, is24h: bool)
    requires 0 <= hour <= 23 && 0 <= minute <= 59
    ensures ParseClock(ClockText(hour, minute, is24h)) == Some((if is24h then hour else Hour12(hour), minute))
  {
    var h := if is24h then hour else Hour12(hour);
    if !is24h && h < 10 {
      StrippedClock(h, minute);
      ParseShortClock(h, minute);
    } else {
      var s := TwoDigits(h) + [':'] + TwoDigits(minute);
      assert s[0] != '0' || is24h by {
        if !is24h {
          assert s[0] == TwoDigits(h)[0];
        }
      }
      ParseLongClock(h, minute);
    }
  }

  /** In 12-hour mode the shown text never starts with '0', and it is "H:MM" for hours
      1 to 9 and "HH:MM" for 10 to 12; 24-hour text is always "HH:MM". */
  lemma ClockTextShape(hour: int, minute: int, is24h: bool)
    requires 0 <= hour <= 23 && 0 <= minute <= 59
    ensures var s := ClockText(hour, minute, is24h);
      && |s| == (if !is24h && Hour12(hour) < 10 then 4 else 5)
      && (!is24h ==> s[0] != '0')
  {
    var s := FormatClock(hour, minute, is24h);
    if !is24h {
      var hs := TwoDigits(Hour12(hour));
      assert s[0] == hs[0] && s[1] == hs[1];
      if Hour12(hour) < 10 {
        assert s[0] == '0';
        assert ClockText(hour, minute, is24h)[0] == hs[1];
      } else {
        assert s[0] == '1';
      }
    }
  }

  /** Worked cases: "01:30" loses its zero, and 1:05 p.m. in 12-hour mode reads "1:05". */
  lemma ClockTextExamples()
    ensures StripLeadingZero("01:30", false) == "1:30"
    ensures StripLeadingZero("01:30", true) == "01:30"
    ensures ClockText(13, 5, false) == "1:05"
    ensures ClockText(0, 0, false) == "12:00"
    ensures ClockText(9, 41, true) == "09:41"
  {
    assert "01:30"[1..] == "1:30";
    assert FormatClock(13, 5, false) == "01:05";
    assert "01:05"[1..] == "1:05";
    assert FormatClock(0, 0, false) == "12:00";
    assert FormatClock(9, 41, true) == "09:41";
  }
}
